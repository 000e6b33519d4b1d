/**
 * The memory-module layer of lib.rs: the error kinds, the compressor and
 * expander contracts, the `MemoryModule` record with its constructor,
 * expansion, metadata accessors and its JSON form.
 *
 * The two async traits become function types: a compressor maps a context
 * string to bytes or an error, an expander maps bytes to a string or an
 * error. Nothing in either is concurrent, so every operation is synchronous.
 */
module Memory {

  import opened Prelude
  import opened Json

  /** `StreamlinerError`, by kind; only an expansion failure keeps its cause text. */
  datatype StreamlinerError =
    | CompressionError
    | ExpansionError(cause: string)
    | SerializationError

  /** `Result<T, StreamlinerError>`, usable with `:-` the way Rust uses `?`. */
  datatype Result<T> = Ok(value: T) | Err(error: StreamlinerError) {
    predicate IsFailure() {
      Err?
    }

    function PropagateFailure<U>(): Result<U>
      requires Err?
    {
      Err(error)
    }

    function Extract(): T
      requires Ok?
    {
      value
    }
  }

  /** The `Compressor` trait: text to bytes, or an error. */
  type Compressor = string -> Result<seq<Byte>>

  /** The `Expander` trait: bytes to text, or an error. */
  type Expander = seq<Byte> -> Result<string>

  /** `expander` undoes everything `compressor` produces. */
  ghost predicate Inverts(expander: Expander, compressor: Compressor) {
    forall context :: compressor(context).Ok? ==> expander(compressor(context).value) == Ok(context)
  }

  /** The two fields of a memory module, as a value. */
  datatype ModuleFields = ModuleFields(compressedData: seq<Byte>, metadata: string)

  // ---------------------------------------------------------------------
  // The derived `Serialize` and `Deserialize` of `MemoryModule`
  // ---------------------------------------------------------------------

  const CompressedDataKey: string := "compressed_data"
  const MetadataKey: string := "metadata"

  /** The object serde writes: both fields, in declaration order. */
  function Serialize(fields: ModuleFields): Json
  {
    Object([(CompressedDataKey, Array(ByteItems(fields.compressedData))),
            (MetadataKey, Str(fields.metadata))])
  }

  /**
   * Reads a module from an object (keyed fields) or from an array (the two
   * fields in order); any other value is refused.
   */
  function Deserialize(json: Json): (r: Result<ModuleFields>)
    ensures r.Err? ==> r.error == SerializationError
  {
    match json
    case Object(members) => VisitMap(members, None, None)
    case Array(items) => VisitSeq(items)
    case _ => Err(SerializationError)
  }

  /** The array form: exactly two elements, a byte vector then a string. */
  function VisitSeq(items: seq<Json>): Result<ModuleFields>
  {
    if |items| != 2 then Err(SerializationError)
    else match (AsBytes(items[0]), AsString(items[1]))
      case (Some(data), Some(metadata)) => Ok(ModuleFields(data, metadata))
      case _ => Err(SerializationError)
  }

  /**
   * The object form, member by member, remembering the fields seen so far.
   * A known key seen twice, a field value of the wrong shape or a missing
   * field is an error; members with any other key are skipped.
   */
  function VisitMap(members: seq<(string, Json)>, data: Option<seq<Byte>>, metadata: Option<string>): (r: Result<ModuleFields>)
    ensures r.Err? ==> r.error == SerializationError
    decreases |members|
  {
    if members == [] then
      if data.Some? && metadata.Some? then Ok(ModuleFields(data.value, metadata.value))
      else Err(SerializationError)
    else
      var (key, value) := members[0];
      if key == CompressedDataKey then
        if data.Some? then Err(SerializationError)
        else match AsBytes(value)
          case Some(bytes) => VisitMap(members[1..], Some(bytes), metadata)
          case None => Err(SerializationError)
      else if key == MetadataKey then
        if metadata.Some? then Err(SerializationError)
        else match AsString(value)
          case Some(text) => VisitMap(members[1..], data, Some(text))
          case None => Err(SerializationError)
      else
        VisitMap(members[1..], data, metadata)
  }

  /** Every member with a known key holds a value of that field's shape. */
  ghost predicate WellShaped(members: seq<(string, Json)>) {
    forall i :: 0 <= i < |members| ==>
      && (members[i].0 == CompressedDataKey ==> AsBytes(members[i].1).Some?)
      && (members[i].0 == MetadataKey ==> AsString(members[i].1).Some?)
  }

  function Seen<T>(o: Option<T>): nat {
    if o.Some? then 1 else 0
  }

  /** Deserialization undoes serialization. */
  lemma DeserializeSerialize(fields: ModuleFields)
    ensures Deserialize(Serialize(fields)) == Ok(fields)
  {
    ItemBytesOfByteItems(fields.compressedData);
    var members := Serialize(fields).members;
    var data := Some(fields.compressedData);
    assert members[1..][1..] == [];
    assert VisitMap(members[1..][1..], data, Some(fields.metadata)) == Ok(fields);
    assert VisitMap(members[1..], data, None) == Ok(fields);
  }

  /** The array form of the same two fields reads back as well. */
  lemma DeserializeArrayForm(fields: ModuleFields)
    ensures Deserialize(Array([Array(ByteItems(fields.compressedData)), Str(fields.metadata)])) == Ok(fields)
  {
    ItemBytesOfByteItems(fields.compressedData);
  }

  lemma {:induction false} VisitMapOkIff(members: seq<(string, Json)>, data: Option<seq<Byte>>, metadata: Option<string>)
    ensures VisitMap(members, data, metadata).Ok? <==>
      && KeyCount(members, CompressedDataKey) + Seen(data) == 1
      && KeyCount(members, MetadataKey) + Seen(metadata) == 1
      && WellShaped(members)
    decreases |members|
  {
    if members != [] {
      var (key, value) := members[0];
      var rest := members[1..];
      assert WellShaped(members) <==>
        && (key == CompressedDataKey ==> AsBytes(value).Some?)
        && (key == MetadataKey ==> AsString(value).Some?)
        && WellShaped(rest)
      by {
        if WellShaped(rest) && (key == CompressedDataKey ==> AsBytes(value).Some?) && (key == MetadataKey ==> AsString(value).Some?) {
          forall i | 0 <= i < |members|
            ensures members[i].0 == CompressedDataKey ==> AsBytes(members[i].1).Some?
            ensures members[i].0 == MetadataKey ==> AsString(members[i].1).Some?
          {
            if i > 0 { assert members[i] == rest[i - 1]; }
          }
        }
        if WellShaped(members) {
          forall i | 0 <= i < |rest|
            ensures rest[i].0 == CompressedDataKey ==> AsBytes(rest[i].1).Some?
            ensures rest[i].0 == MetadataKey ==> AsString(rest[i].1).Some?
          {
            assert rest[i] == members[i + 1];
          }
        }
      }
      if key == CompressedDataKey {
        if data.None? && AsBytes(value).Some? {
          VisitMapOkIff(rest, AsBytes(value), metadata);
        }
      } else if key == MetadataKey {
        if metadata.None? && AsString(value).Some? {
          VisitMapOkIff(rest, data, AsString(value));
        }
      } else {
        VisitMapOkIff(rest, data, metadata);
      }
    }
  }

  /** An object reads as a module exactly when each field occurs once, with the right shape. */
  lemma DeserializeObjectOkIff(members: seq<(string, Json)>)
    ensures Deserialize(Object(members)).Ok? <==>
      && KeyCount(members, CompressedDataKey) == 1
      && KeyCount(members, MetadataKey) == 1
      && WellShaped(members)
  {
    VisitMapOkIff(members, None, None);
  }

  lemma {:induction false} VisitMapFields(members: seq<(string, Json)>, data: Option<seq<Byte>>, metadata: Option<string>)
    requires VisitMap(members, data, metadata).Ok?
    ensures var fields := VisitMap(members, data, metadata).value;
      && (if data.Some? then fields.compressedData == data.value
          else (CompressedDataKey, Array(ByteItems(fields.compressedData))) in members)
      && (if metadata.Some? then fields.metadata == metadata.value
          else (MetadataKey, Str(fields.metadata)) in members)
    decreases |members|
  {
    if members != [] {
      var (key, value) := members[0];
      var rest := members[1..];
      var fields := VisitMap(members, data, metadata).value;
      if key == CompressedDataKey {
        VisitMapFields(rest, AsBytes(value), metadata);
        ByteItemsOfItemBytes(value.items);
      } else if key == MetadataKey {
        VisitMapFields(rest, data, AsString(value));
      } else {
        VisitMapFields(rest, data, metadata);
      }
      assert forall m :: m in rest ==> m in members;
    }
  }

  /** The fields of a module read from an object are members of that object. */
  lemma DeserializeObjectFields(members: seq<(string, Json)>)
    requires Deserialize(Object(members)).Ok?
    ensures (CompressedDataKey, Array(ByteItems(Deserialize(Object(members)).value.compressedData))) in members
    ensures (MetadataKey, Str(Deserialize(Object(members)).value.metadata)) in members
  {
    VisitMapFields(members, None, None);
  }

  lemma {:induction false} VisitMapSkips(front: seq<(string, Json)>, key: string, value: Json, back: seq<(string, Json)>,
                                         data: Option<seq<Byte>>, metadata: Option<string>)
    requires key != CompressedDataKey && key != MetadataKey
    ensures VisitMap(front + [(key, value)] + back, data, metadata) == VisitMap(front + back, data, metadata)
    decreases |front|
  {
    if front == [] {
      assert ([] + [(key, value)] + back)[1..] == back;
      assert [] + back == back;
    } else {
      var (k, v) := front[0];
      assert (front + [(key, value)] + back)[0] == front[0] && (front + back)[0] == front[0];
      assert (front + [(key, value)] + back)[1..] == front[1..] + [(key, value)] + back;
      assert (front + back)[1..] == front[1..] + back;
      if k == CompressedDataKey {
        VisitMapSkips(front[1..], key, value, back, AsBytes(v), metadata);
      } else if k == MetadataKey {
        VisitMapSkips(front[1..], key, value, back, data, AsString(v));
      } else {
        VisitMapSkips(front[1..], key, value, back, data, metadata);
      }
    }
  }

  /** A member with an unknown key changes nothing, wherever it stands. */
  lemma DeserializeIgnoresUnknownKey(front: seq<(string, Json)>, key: string, value: Json, back: seq<(string, Json)>)
    requires key != CompressedDataKey && key != MetadataKey
    ensures Deserialize(Object(front + [(key, value)] + back)) == Deserialize(Object(front + back))
  {
    VisitMapSkips(front, key, value, back, None, None);
  }

  // ---------------------------------------------------------------------
  // MemoryModule
  // ---------------------------------------------------------------------

  /** A compressed context and a free-form annotation. */
  class MemoryModule {
    var compressedData: seq<Byte>
    var metadata: string

    constructor (compressedData: seq<Byte>, metadata: string)
      ensures this.compressedData == compressedData && this.metadata == metadata
    {
      this.compressedData := compressedData;
      this.metadata := metadata;
    }

    /** The module's two fields as a value. */
    function Fields(): ModuleFields
      reads this
    {
      ModuleFields(compressedData, metadata)
    }

    /** `MemoryModule::new`: compresses `context`; a failing compressor's error is passed on as is. */
    static method New(context: string, compressor: Compressor) returns (r: Result<MemoryModule>)
      ensures r.Ok? <==> compressor(context).Ok?
      ensures r.Ok? ==> fresh(r.value) && r.value.Fields() == ModuleFields(compressor(context).value, "")
      ensures r.Err? ==> r.error == compressor(context).error
    {
      var compressedData :- compressor(context);
      var m := new MemoryModule(compressedData, "");
      return Ok(m);
    }

    /** `expand`: hands the stored bytes to the expander; the module is only read. */
    function Expand(expander: Expander): Result<string>
      reads this
    {
      expander(compressedData)
    }

    /** `to_json`: never fails, and what it writes reads back as the same fields. */
    function ToJson(): (r: Result<Json>)
      reads this
      ensures r.Ok? && Deserialize(r.value) == Ok(Fields())
    {
      DeserializeSerialize(Fields());
      Ok(Serialize(Fields()))
    }

    /** `from_json`: a new module with the fields the document holds, or `SerializationError`. */
    static method FromJson(json: Json) returns (r: Result<MemoryModule>)
      ensures r.Ok? <==> Deserialize(json).Ok?
      ensures r.Ok? ==> fresh(r.value) && r.value.Fields() == Deserialize(json).value
      ensures r.Err? ==> r.error == SerializationError
    {
      var fields :- Deserialize(json);
      var m := new MemoryModule(fields.compressedData, fields.metadata);
      return Ok(m);
    }

    /** `metadata()`. */
    function Metadata(): string
      reads this
    {
      metadata
    }

    /** `set_metadata`: replaces the annotation and leaves the compressed data alone. */
    method SetMetadata(metadata: string)
      modifies this
      ensures Metadata() == metadata
      ensures compressedData == old(compressedData)
      ensures forall expander :: Expand(expander) == old(Expand(expander))
    {
      this.metadata := metadata;
    }
  }

  // ---------------------------------------------------------------------
  // Round trips through a module
  // ---------------------------------------------------------------------

  /**
   * Compresses `context` into a module, optionally relabels it, and expands
   * it again: with an expander that inverts the compressor the context comes
   * back, and a failing compressor's error comes back instead.
   */
  method CompressAndExpand(context: string, compressor: Compressor, expander: Expander, relabel: Option<string>)
    returns (r: Result<string>)
    requires Inverts(expander, compressor)
    ensures compressor(context).Ok? ==> r == Ok(context)
    ensures compressor(context).Err? ==> r == Err(compressor(context).error)
  {
    var m :- MemoryModule.New(context, compressor);
    if relabel.Some? {
      m.SetMetadata(relabel.value);
    }
    r := m.Expand(expander);
  }

  /**
   * As `CompressAndExpand`, but the module also goes through `to_json` and
   * `from_json` before it is expanded; the annotation it was given survives.
   */
  method PersistAndExpand(context: string, compressor: Compressor, expander: Expander, annotation: string)
    returns (r: Result<string>, restoredAnnotation: Option<string>)
    requires Inverts(expander, compressor)
    ensures compressor(context).Ok? ==> r == Ok(context) && restoredAnnotation == Some(annotation)
    ensures compressor(context).Err? ==> r == Err(compressor(context).error) && restoredAnnotation == None
  {
    restoredAnnotation := None;
    var m :- MemoryModule.New(context, compressor);
    m.SetMetadata(annotation);
    var json := m.ToJson();
    var decoded := MemoryModule.FromJson(json.value);
    var restored := decoded.value;
    restoredAnnotation := Some(restored.Metadata());
    r := restored.Expand(expander);
  }
}
