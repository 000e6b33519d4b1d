/**
 * UTF-8 as the identity codec of lib.rs uses it: `str::as_bytes` gives the
 * UTF-8 encoding of a string (RFC 3629, section 3) and `String::from_utf8`
 * accepts exactly the well-formed byte sequences (RFC 3629, section 4),
 * reporting the first ill-formed one as a `Utf8Error`.
 *
 * A Dafny `char` is a Unicode scalar value (U+0000..U+D7FF, U+E000..U+10FFFF),
 * so a Dafny `string` holds exactly what a Rust `String` holds.
 */
module Utf8 {

  import opened Prelude

  /** A byte of the form 10xxxxxx, which never starts a character. */
  predicate IsContinuation(b: Byte) {
    0x80 <= b < 0xC0
  }

  /** The code point of a scalar value. */
  function CodePoint(c: char): (n: nat)
    ensures n < 0xD800 || 0xE000 <= n < 0x11_0000
  {
    c as int
  }

  // ---------------------------------------------------------------------
  // Encoding (RFC 3629, section 3)
  // ---------------------------------------------------------------------

  /** The one- to four-byte UTF-8 sequence of a single scalar value. */
  function EncodeScalar(c: char): (r: seq<Byte>)
    ensures 1 <= |r| <= 4
    ensures !IsContinuation(r[0])
    ensures forall k :: 1 <= k < |r| ==> IsContinuation(r[k])
    ensures CodePoint(c) < 0x80 ==> r == [CodePoint(c)]
    ensures CodePoint(c) >= 0x80 ==> forall k :: 0 <= k < |r| ==> r[k] >= 0x80
  {
    var n := CodePoint(c);
    if n < 0x80 then
      [n]
    else if n < 0x800 then
      [0xC0 + n / 0x40, 0x80 + n % 0x40]
    else if n < 0x1_0000 then
      [0xE0 + n / 0x1000, 0x80 + n / 0x40 % 0x40, 0x80 + n % 0x40]
    else
      [0xF0 + n / 0x4_0000, 0x80 + n / 0x1000 % 0x40, 0x80 + n / 0x40 % 0x40, 0x80 + n % 0x40]
  }

  /** `str::as_bytes`: the encodings of the characters, in order. */
  function Encode(s: string): seq<Byte>
  {
    if s == [] then [] else EncodeScalar(s[0]) + Encode(s[1..])
  }

  /** A byte sequence is UTF-8 when it is the encoding of some string. */
  ghost predicate IsUtf8(b: seq<Byte>) {
    exists s :: Encode(s) == b
  }

  // ---------------------------------------------------------------------
  // Decoding (RFC 3629, section 4), as `String::from_utf8` validates
  // ---------------------------------------------------------------------

  /**
   * `Utf8Error`: `validUpTo` is the length of the longest well-formed
   * prefix; `errorLen` is `Some(k)` when the k bytes at `validUpTo` can
   * never start a character, `None` when the input ends in the middle of one.
   */
  datatype Utf8Error = Utf8Error(validUpTo: nat, errorLen: Option<nat>)

  /** The result of looking at the first character of a byte sequence. */
  datatype Scan = Scalar(c: char, width: nat) | Malformed(errorLen: Option<nat>)

  /** The outcome of `String::from_utf8`. */
  datatype Decoded = Valid(s: string) | Invalid(error: Utf8Error)

  /** Lead byte E0 needs A0..BF next, ED needs 80..9F, the rest 80..BF. */
  function SecondLow(lead: Byte): Byte {
    if lead == 0xE0 then 0xA0 else if lead == 0xF0 then 0x90 else 0x80
  }

  function SecondHigh(lead: Byte): Byte {
    if lead == 0xED then 0x9F else if lead == 0xF4 then 0x8F else 0xBF
  }

  /** A two-byte character: lead C2..DF and one continuation byte. */
  function DecodeTwo(b: seq<Byte>): (r: Scan)
    requires |b| > 0 && 0xC2 <= b[0] < 0xE0
  {
    if |b| < 2 then Malformed(None)
    else if !IsContinuation(b[1]) then Malformed(Some(1))
    else Scalar(((b[0] as int - 0xC0) * 0x40 + (b[1] as int - 0x80)) as char, 2)
  }

  /** A three-byte character: lead E0..EF, a restricted second byte, one continuation byte. */
  function DecodeThree(b: seq<Byte>): (r: Scan)
    requires |b| > 0 && 0xE0 <= b[0] < 0xF0
  {
    if |b| < 2 then Malformed(None)
    else if !(SecondLow(b[0]) <= b[1] <= SecondHigh(b[0])) then Malformed(Some(1))
    else if |b| < 3 then Malformed(None)
    else if !IsContinuation(b[2]) then Malformed(Some(2))
    else Scalar(((b[0] as int - 0xE0) * 0x1000 + (b[1] as int - 0x80) * 0x40 + (b[2] as int - 0x80)) as char, 3)
  }

  /** A four-byte character: lead F0..F4, a restricted second byte, two continuation bytes. */
  function DecodeFour(b: seq<Byte>): (r: Scan)
    requires |b| > 0 && 0xF0 <= b[0] < 0xF5
  {
    if |b| < 2 then Malformed(None)
    else if !(SecondLow(b[0]) <= b[1] <= SecondHigh(b[0])) then Malformed(Some(1))
    else if |b| < 3 then Malformed(None)
    else if !IsContinuation(b[2]) then Malformed(Some(2))
    else if |b| < 4 then Malformed(None)
    else if !IsContinuation(b[3]) then Malformed(Some(3))
    else Scalar(((b[0] as int - 0xF0) * 0x4_0000 + (b[1] as int - 0x80) * 0x1000 + (b[2] as int - 0x80) * 0x40 + (b[3] as int - 0x80)) as char, 4)
  }

  /**
   * Decodes the character at the start of `b`. A lead byte is followed by
   * as many continuation bytes as it announces; overlong forms (C0, C1, E0
   * 80..9F, F0 80..8F), surrogates (ED A0..BF) and values above U+10FFFF
   * (F4 90.., F5..FF) are refused.
   */
  function DecodeScalar(b: seq<Byte>): (r: Scan)
    requires |b| > 0
    ensures r.Scalar? ==> 1 <= r.width <= 4 && r.width <= |b|
    ensures r.Malformed? && r.errorLen.Some? ==> 1 <= r.errorLen.value <= 3 && r.errorLen.value <= |b|
    ensures r.Malformed? && r.errorLen.None? ==> |b| < 4
  {
    if b[0] < 0x80 then Scalar(b[0] as char, 1)
    else if b[0] < 0xC2 then Malformed(Some(1))
    else if b[0] < 0xE0 then DecodeTwo(b)
    else if b[0] < 0xF0 then DecodeThree(b)
    else if b[0] < 0xF5 then DecodeFour(b)
    else Malformed(Some(1))
  }

  /** `String::from_utf8`: the decoded string, or where and why it fails. */
  function Decode(b: seq<Byte>): (r: Decoded)
    ensures r.Invalid? ==> r.error.validUpTo < |b|
    ensures r.Invalid? && r.error.errorLen.Some? ==> r.error.validUpTo + r.error.errorLen.value <= |b|
    decreases |b|
  {
    if b == [] then Valid([])
    else
      match DecodeScalar(b)
      case Malformed(len) => Invalid(Utf8Error(0, len))
      case Scalar(c, w) =>
        match Decode(b[w..])
        case Valid(s) => Valid([c] + s)
        case Invalid(e) => Invalid(Utf8Error(e.validUpTo + w, e.errorLen))
  }

  // ---------------------------------------------------------------------
  // The Display text of Utf8Error
  // ---------------------------------------------------------------------

  function DecimalDigit(d: nat): (r: char)
    requires d < 10
    ensures '0' <= r <= '9'
  {
    ('0' as int + d) as char
  }

  /** The decimal numeral of `n`, without leading zeros. */
  function Decimal(n: nat): (r: string)
    ensures 1 <= |r|
    ensures forall k :: 0 <= k < |r| ==> '0' <= r[k] <= '9'
    ensures |r| > 1 ==> r[0] != '0'
  {
    if n < 10 then [DecimalDigit(n)] else Decimal(n / 10) + [DecimalDigit(n % 10)]
  }

  /** The number a string of decimal digits denotes. */
  function DecimalValue(s: string): nat
    requires forall k :: 0 <= k < |s| ==> '0' <= s[k] <= '9'
  {
    if s == [] then 0 else DecimalValue(s[..|s| - 1]) * 10 + (s[|s| - 1] as int - '0' as int)
  }

  /** The numeral `Decimal` writes denotes the number it was given. */
  lemma {:induction false} DecimalValueOfDecimal(n: nat)
    ensures DecimalValue(Decimal(n)) == n
  {
    if n >= 10 {
      var q, d := n / 10, n % 10;
      DecimalValueOfDecimal(q);
      var r := Decimal(n);
      assert r == Decimal(q) + [DecimalDigit(d)];
      assert r[..|r| - 1] == Decimal(q);
      assert r[|r| - 1] as int - '0' as int == d;
      assert n == q * 10 + d;
    }
  }

  /** How `Utf8Error` formats itself. */
  function Describe(e: Utf8Error): string
  {
    match e.errorLen
    case Some(k) =>
      "invalid utf-8 sequence of " + Decimal(k) + " bytes from index " + Decimal(e.validUpTo)
    case None =>
      "incomplete utf-8 byte sequence from index " + Decimal(e.validUpTo)
  }

  // ---------------------------------------------------------------------
  // Arithmetic on the six-bit groups of a code point
  // ---------------------------------------------------------------------

  /** Quotient and remainder by 64 are determined by any split of that shape. */
  lemma SplitBy64(n: int, q: int, r: int)
    requires 0 <= r < 0x40 && n == q * 0x40 + r
    ensures n / 0x40 == q && n % 0x40 == r
  {
  }

  lemma SplitThree(n: int, hi: int, mid: int, lo: int)
    requires 0 <= mid < 0x40 && 0 <= lo < 0x40
    requires n == hi * 0x1000 + mid * 0x40 + lo
    ensures n / 0x1000 == hi && n / 0x40 % 0x40 == mid && n % 0x40 == lo
  {
    SplitBy64(n, hi * 0x40 + mid, lo);
    SplitBy64(hi * 0x40 + mid, hi, mid);
    assert n / 0x1000 == n / 0x40 / 0x40;
  }

  lemma SplitFour(n: int, top: int, hi: int, mid: int, lo: int)
    requires 0 <= hi < 0x40 && 0 <= mid < 0x40 && 0 <= lo < 0x40
    requires n == top * 0x4_0000 + hi * 0x1000 + mid * 0x40 + lo
    ensures n / 0x4_0000 == top && n / 0x1000 % 0x40 == hi && n / 0x40 % 0x40 == mid && n % 0x40 == lo
  {
    SplitBy64(n, top * 0x1000 + hi * 0x40 + mid, lo);
    SplitBy64(top * 0x1000 + hi * 0x40 + mid, top * 0x40 + hi, mid);
    SplitBy64(top * 0x40 + hi, top, hi);
    assert n / 0x1000 == n / 0x40 / 0x40;
    assert n / 0x4_0000 == n / 0x40 / 0x40 / 0x40;
  }

  // ---------------------------------------------------------------------
  // One character: encoding and decoding are inverse
  // ---------------------------------------------------------------------

  lemma DecodeTwoBytes(c: char, rest: seq<Byte>)
    requires 0x80 <= CodePoint(c) < 0x800
    ensures DecodeScalar(EncodeScalar(c) + rest) == Scalar(c, 2)
  {
    var n := CodePoint(c);
    var hi, lo := n / 0x40, n % 0x40;
    assert n == hi * 0x40 + lo;
    var b := EncodeScalar(c) + rest;
    assert b[0] == 0xC0 + hi && b[1] == 0x80 + lo;
    assert (b[0] as int - 0xC0) * 0x40 + (b[1] as int - 0x80) == n;
  }

  /** A code point is the sum of its six-bit groups. */
  lemma GroupsOfThree(n: int)
    requires 0 <= n
    ensures n == n / 0x1000 * 0x1000 + n / 0x40 % 0x40 * 0x40 + n % 0x40
  {
    assert n == n / 0x40 * 0x40 + n % 0x40;
    assert n / 0x40 == n / 0x40 / 0x40 * 0x40 + n / 0x40 % 0x40;
    assert n / 0x40 / 0x40 == n / 0x1000;
  }

  lemma GroupsOfFour(n: int)
    requires 0 <= n
    ensures n == n / 0x4_0000 * 0x4_0000 + n / 0x1000 % 0x40 * 0x1000 + n / 0x40 % 0x40 * 0x40 + n % 0x40
  {
    GroupsOfThree(n);
    assert n / 0x1000 == n / 0x1000 / 0x40 * 0x40 + n / 0x1000 % 0x40;
    assert n / 0x1000 / 0x40 == n / 0x4_0000;
  }

  lemma DecodeThreeBytes(c: char, rest: seq<Byte>)
    requires 0x800 <= CodePoint(c) < 0x1_0000
    ensures DecodeScalar(EncodeScalar(c) + rest) == Scalar(c, 3)
  {
    var n := CodePoint(c);
    var hi, mid, lo := n / 0x1000, n / 0x40 % 0x40, n % 0x40;
    GroupsOfThree(n);
    var b := EncodeScalar(c) + rest;
    assert b[0] == 0xE0 + hi && b[1] == 0x80 + mid && b[2] == 0x80 + lo;
    assert SecondLow(b[0]) <= b[1] <= SecondHigh(b[0]);
    assert (b[0] as int - 0xE0) * 0x1000 + (b[1] as int - 0x80) * 0x40 + (b[2] as int - 0x80) == n;
  }

  lemma DecodeFourBytes(c: char, rest: seq<Byte>)
    requires 0x1_0000 <= CodePoint(c)
    ensures DecodeScalar(EncodeScalar(c) + rest) == Scalar(c, 4)
  {
    var n := CodePoint(c);
    var top, hi, mid, lo := n / 0x4_0000, n / 0x1000 % 0x40, n / 0x40 % 0x40, n % 0x40;
    GroupsOfFour(n);
    var b := EncodeScalar(c) + rest;
    assert b[0] == 0xF0 + top && b[1] == 0x80 + hi && b[2] == 0x80 + mid && b[3] == 0x80 + lo;
    assert SecondLow(b[0]) <= b[1] <= SecondHigh(b[0]);
    assert (b[0] as int - 0xF0) * 0x4_0000 + (b[1] as int - 0x80) * 0x1000 + (b[2] as int - 0x80) * 0x40 + (b[3] as int - 0x80) == n;
  }

  /** Decoding the encoding of `c` yields `c` and consumes exactly its bytes. */
  lemma DecodeScalarOfEncoding(c: char, rest: seq<Byte>)
    ensures DecodeScalar(EncodeScalar(c) + rest) == Scalar(c, |EncodeScalar(c)|)
  {
    var n := CodePoint(c);
    if n < 0x80 {
      assert (EncodeScalar(c) + rest)[0] == n;
    } else if n < 0x800 {
      DecodeTwoBytes(c, rest);
    } else if n < 0x1_0000 {
      DecodeThreeBytes(c, rest);
    } else {
      DecodeFourBytes(c, rest);
    }
  }

  lemma EncodingOfTwoBytes(b: seq<Byte>)
    requires |b| >= 2 && 0xC2 <= b[0] < 0xE0 && IsContinuation(b[1])
    ensures DecodeScalar(b) == Scalar(DecodeScalar(b).c, 2)
    ensures b[..2] == EncodeScalar(DecodeScalar(b).c)
  {
    var n := (b[0] as int - 0xC0) * 0x40 + (b[1] as int - 0x80);
    assert CodePoint(DecodeScalar(b).c) == n;
    SplitBy64(n, b[0] as int - 0xC0, b[1] as int - 0x80);
  }

  lemma EncodingOfThreeBytes(b: seq<Byte>)
    requires |b| >= 3 && 0xE0 <= b[0] < 0xF0 && SecondLow(b[0]) <= b[1] <= SecondHigh(b[0]) && IsContinuation(b[2])
    ensures DecodeScalar(b) == Scalar(DecodeScalar(b).c, 3)
    ensures b[..3] == EncodeScalar(DecodeScalar(b).c)
  {
    var n := (b[0] as int - 0xE0) * 0x1000 + (b[1] as int - 0x80) * 0x40 + (b[2] as int - 0x80);
    assert CodePoint(DecodeScalar(b).c) == n;
    SplitThree(n, b[0] as int - 0xE0, b[1] as int - 0x80, b[2] as int - 0x80);
  }

  lemma EncodingOfFourBytes(b: seq<Byte>)
    requires |b| >= 4 && 0xF0 <= b[0] < 0xF5 && SecondLow(b[0]) <= b[1] <= SecondHigh(b[0])
    requires IsContinuation(b[2]) && IsContinuation(b[3])
    ensures DecodeScalar(b) == Scalar(DecodeScalar(b).c, 4)
    ensures b[..4] == EncodeScalar(DecodeScalar(b).c)
  {
    var n := (b[0] as int - 0xF0) * 0x4_0000 + (b[1] as int - 0x80) * 0x1000 + (b[2] as int - 0x80) * 0x40 + (b[3] as int - 0x80);
    assert CodePoint(DecodeScalar(b).c) == n;
    SplitFour(n, b[0] as int - 0xF0, b[1] as int - 0x80, b[2] as int - 0x80, b[3] as int - 0x80);
  }

  /** Whatever character is decoded, its encoding is exactly the bytes consumed. */
  lemma EncodingOfDecodedScalar(b: seq<Byte>)
    requires |b| > 0 && DecodeScalar(b).Scalar?
    ensures b[..DecodeScalar(b).width] == EncodeScalar(DecodeScalar(b).c)
  {
    if b[0] < 0x80 {
    } else if b[0] < 0xE0 {
      EncodingOfTwoBytes(b);
    } else if b[0] < 0xF0 {
      EncodingOfThreeBytes(b);
    } else {
      EncodingOfFourBytes(b);
    }
  }

  // ---------------------------------------------------------------------
  // Whole strings
  // ---------------------------------------------------------------------

  /** Encoding distributes over concatenation. */
  lemma {:induction false} EncodeAppend(s: string, t: string)
    ensures Encode(s + t) == Encode(s) + Encode(t)
  {
    if s == [] {
      assert s + t == t;
    } else {
      assert (s + t)[1..] == s[1..] + t;
      EncodeAppend(s[1..], t);
    }
  }

  /** Decoding after one encoded character prepends that character. */
  lemma DecodeAfterScalar(c: char, rest: seq<Byte>)
    ensures Decode(EncodeScalar(c) + rest) ==
      match Decode(rest)
      case Valid(s) => Valid([c] + s)
      case Invalid(e) => Invalid(Utf8Error(e.validUpTo + |EncodeScalar(c)|, e.errorLen))
  {
    var b := EncodeScalar(c) + rest;
    DecodeScalarOfEncoding(c, rest);
    assert b[|EncodeScalar(c)|..] == rest;
  }

  /** Round trip: `String::from_utf8(s.as_bytes())` gives back `s`. */
  lemma {:induction false} DecodeEncode(s: string)
    ensures Decode(Encode(s)) == Valid(s)
  {
    if s != [] {
      DecodeEncode(s[1..]);
      DecodeAfterScalar(s[0], Encode(s[1..]));
      assert [s[0]] + s[1..] == s;
    }
  }

  /** Decoding is exact: a successful decode re-encodes to the input. */
  /** A successful decode is the first character followed by the decode of the rest. */
  lemma DecodeValidStep(b: seq<Byte>)
    requires b != [] && Decode(b).Valid?
    ensures DecodeScalar(b).Scalar?
    ensures Decode(b[DecodeScalar(b).width..]).Valid?
    ensures Decode(b).s == [DecodeScalar(b).c] + Decode(b[DecodeScalar(b).width..]).s
  {
  }

  lemma EncodeCons(c: char, t: string)
    ensures Encode([c] + t) == EncodeScalar(c) + Encode(t)
  {
    assert ([c] + t)[1..] == t;
  }

  lemma {:induction false} EncodeDecode(b: seq<Byte>)
    requires Decode(b).Valid?
    ensures Encode(Decode(b).s) == b
    decreases |b|
  {
    if b != [] {
      DecodeValidStep(b);
      var r := DecodeScalar(b);
      var tail := b[r.width..];
      EncodeDecode(tail);
      SplitAtScalar(b);
      EncodeCons(r.c, Decode(tail).s);
    }
  }

  /** Distinct strings have distinct encodings. */
  lemma EncodeInjective(s: string, t: string)
    requires Encode(s) == Encode(t)
    ensures s == t
  {
    DecodeEncode(s);
    DecodeEncode(t);
  }

  /** `String::from_utf8` succeeds exactly on the encodings of strings. */
  lemma DecodeValidIff(b: seq<Byte>)
    ensures Decode(b).Valid? <==> IsUtf8(b)
  {
    if Decode(b).Valid? {
      EncodeDecode(b);
    }
    if IsUtf8(b) {
      var s :| Encode(s) == b;
      DecodeEncode(s);
    }
  }

  /** A failed decode past a good first character fails later in the rest. */
  lemma DecodeInvalidStep(b: seq<Byte>)
    requires b != [] && Decode(b).Invalid? && DecodeScalar(b).Scalar?
    ensures Decode(b[DecodeScalar(b).width..]).Invalid?
    ensures Decode(b).error.validUpTo ==
      DecodeScalar(b).width + Decode(b[DecodeScalar(b).width..]).error.validUpTo
  {
  }

  lemma PrefixSplit(b: seq<Byte>, w: nat, v: nat)
    requires w + v <= |b|
    ensures b[..w + v] == b[..w] + b[w..][..v]
  {
  }

  /** A byte sequence that starts with a good character is its encoding plus the rest. */
  lemma SplitAtScalar(b: seq<Byte>)
    requires |b| > 0 && DecodeScalar(b).Scalar?
    ensures DecodeScalar(b).width == |EncodeScalar(DecodeScalar(b).c)|
    ensures b == EncodeScalar(DecodeScalar(b).c) + b[DecodeScalar(b).width..]
  {
    EncodingOfDecodedScalar(b);
    assert b == b[..DecodeScalar(b).width] + b[DecodeScalar(b).width..];
  }

  /** A valid prefix of the rest stays valid behind one more encoded character. */
  lemma ValidPrefixAfterScalar(c: char, tail: seq<Byte>, v: nat)
    requires v <= |tail| && Decode(tail[..v]).Valid?
    ensures Decode((EncodeScalar(c) + tail)[..|EncodeScalar(c)| + v]).Valid?
  {
    assert (EncodeScalar(c) + tail)[..|EncodeScalar(c)| + v] == EncodeScalar(c) + tail[..v];
    DecodeAfterScalar(c, tail[..v]);
  }

  /** On failure, everything before `validUpTo` is the encoding of a string. */
  lemma {:induction false} ValidUpToIsValid(b: seq<Byte>)
    requires Decode(b).Invalid?
    ensures Decode(b[..Decode(b).error.validUpTo]).Valid?
    decreases |b|
  {
    if DecodeScalar(b).Malformed? {
      assert b[..Decode(b).error.validUpTo] == [];
    } else {
      DecodeInvalidStep(b);
      var r := DecodeScalar(b);
      var tail := b[r.width..];
      ValidUpToIsValid(tail);
      SplitAtScalar(b);
      ValidPrefixAfterScalar(r.c, tail, Decode(tail).error.validUpTo);
    }
  }

  /** The prefix that `validUpTo` marks is well-formed UTF-8. */
  lemma ValidUpToIsUtf8(b: seq<Byte>)
    requires Decode(b).Invalid?
    ensures IsUtf8(b[..Decode(b).error.validUpTo])
  {
    ValidUpToIsValid(b);
    DecodeValidIff(b[..Decode(b).error.validUpTo]);
  }
}
