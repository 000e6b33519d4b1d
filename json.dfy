/**
 * JSON documents as the serde data model sees them: a tree of values, with
 * an object kept as the list of its members in document order (duplicate
 * keys included). The JSON text itself, its printing and parsing, is not
 * part of this model; `to_json` and `from_json` are modelled as maps
 * between a memory module and such a tree.
 */
module Json {

  import opened Prelude

  /** A JSON value. Numbers are integers: no field here holds a fraction. */
  datatype Json =
    | Null
    | Bool(b: bool)
    | Int(n: int)
    | Str(s: string)
    | Array(items: seq<Json>)
    | Object(members: seq<(string, Json)>)

  /** How many members of an object carry the key `key`. */
  function KeyCount(members: seq<(string, Json)>, key: string): (n: nat)
    ensures n <= |members|
    ensures n == 0 <==> forall i :: 0 <= i < |members| ==> members[i].0 != key
  {
    if members == [] then 0
    else (if members[0].0 == key then 1 else 0) + KeyCount(members[1..], key)
  }

  // ---------------------------------------------------------------------
  // serde's mapping of `Vec<u8>`: an array of integers in 0..255
  // ---------------------------------------------------------------------

  /** Serializes a byte vector: one integer per byte. */
  function ByteItems(bytes: seq<Byte>): (items: seq<Json>)
    ensures |items| == |bytes|
  {
    if bytes == [] then [] else [Int(bytes[0])] + ByteItems(bytes[1..])
  }

  /** Deserializes a byte vector: every item must be an integer a `u8` can hold. */
  function ItemBytes(items: seq<Json>): Option<seq<Byte>>
  {
    if items == [] then Some([])
    else match items[0]
      case Int(n) =>
        if 0 <= n < 0x100 then
          match ItemBytes(items[1..])
          case Some(rest) => Some([n as Byte] + rest)
          case None => None
        else None
      case _ => None
  }

  /** The `Vec<u8>` read from a field value, when the value is an array of bytes. */
  function AsBytes(value: Json): Option<seq<Byte>>
  {
    match value
    case Array(items) => ItemBytes(items)
    case _ => None
  }

  /** The `String` read from a field value, when the value is a JSON string. */
  function AsString(value: Json): Option<string>
  {
    match value
    case Str(s) => Some(s)
    case _ => None
  }

  /** Byte vectors round-trip through their JSON arrays. */
  lemma {:induction false} ItemBytesOfByteItems(bytes: seq<Byte>)
    ensures ItemBytes(ByteItems(bytes)) == Some(bytes)
  {
    if bytes != [] {
      ItemBytesOfByteItems(bytes[1..]);
      assert ByteItems(bytes)[1..] == ByteItems(bytes[1..]);
      assert [bytes[0]] + bytes[1..] == bytes;
    }
  }

  /** The only arrays that read as a byte vector are the serializations of one. */
  lemma {:induction false} ByteItemsOfItemBytes(items: seq<Json>)
    requires ItemBytes(items).Some?
    ensures ByteItems(ItemBytes(items).value) == items
  {
    if items != [] {
      ByteItemsOfItemBytes(items[1..]);
      var bytes := ItemBytes(items).value;
      assert bytes[1..] == ItemBytes(items[1..]).value;
      assert [items[0]] + items[1..] == items;
    }
  }
}
