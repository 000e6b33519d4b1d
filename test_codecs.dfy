/**
 * The codecs and tests of lib.rs's test module: `TestCompressor` stores the
 * UTF-8 bytes of the context unchanged, and `TestExpander` converts bytes
 * back with `String::from_utf8`, reporting invalid input as an
 * `ExpansionError` whose cause starts with "UTF-8 conversion failed: ".
 */
module TestCodecs {

  import opened Prelude
  import Utf8
  import opened Memory

  const Utf8FailurePrefix: string := "UTF-8 conversion failed: "

  /** `TestCompressor::compress`: never fails, and its bytes decode back to the context. */
  function TestCompress(context: string): (r: Result<seq<Byte>>)
    ensures r.Ok? && Utf8.Decode(r.value) == Utf8.Valid(context)
  {
    Utf8.DecodeEncode(context);
    Ok(Utf8.Encode(context))
  }

  /**
   * `TestExpander::expand`: succeeds exactly on well-formed UTF-8, with the
   * string those bytes encode; otherwise an `ExpansionError` whose cause is
   * the prefix followed by the `Utf8Error` text.
   */
  function TestExpand(compressed: seq<Byte>): (r: Result<string>)
    ensures r.Ok? <==> Utf8.IsUtf8(compressed)
    ensures r.Ok? ==> Utf8.Encode(r.value) == compressed
    ensures r.Err? ==> r.error.ExpansionError? && Utf8FailurePrefix <= r.error.cause
  {
    Utf8.DecodeValidIff(compressed);
    match Utf8.Decode(compressed)
    case Valid(s) =>
      Utf8.EncodeDecode(compressed);
      Ok(s)
    case Invalid(e) =>
      Err(ExpansionError(Utf8FailurePrefix + Utf8.Describe(e)))
  }

  /**
   * The identity expander inverts the identity compressor on every string;
   * this follows from the contracts of `TestCompress` and `TestExpand`.
   */
  lemma TestCodecsInvert()
    ensures Inverts(TestExpand, TestCompress)
  {
  }

  /** `test_memory_module_roundtrip`: "test context" survives a module built with the identity codec. */
  method TestMemoryModuleRoundtrip() returns (expanded: Result<string>)
    ensures expanded == Ok("test context")
  {
    TestCodecsInvert();
    var original := "test context";
    var built := MemoryModule.New(original, TestCompress);
    var memory := built.value;
    expanded := memory.Expand(TestExpand);
  }
}
