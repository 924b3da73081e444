/** What `#[derive(Packet)]` generates for an enum, as one routine over a description of the
    enum's variants: `decode_packet`, `encode_payload` and `as_opcode`. */
module PacketDerive {
  import opened Bytes
  import opened Wrappers
  import opened Utf8
  import opened Msgpack

  // ---------------------------------------------------------------- schema

  /** The Rust type of a field, as far as the wire is concerned. */
  datatype WireType = StringType | U32Type | U64Type | BytesType

  /** The value of one field of a packet. */
  datatype Field = Text(s: seq<byte>) | Number(n: u64) | Blob(b: seq<byte>)

  /** A field of a braced variant: its identifier (the map key) and its type. */
  datatype NamedField = NamedField(name: seq<byte>, typ: WireType)

  /** The three kinds of enum variant. */
  datatype Shape =
    | Unit
    | Named(fields: seq<NamedField>)
    | Tuple(types: seq<WireType>)

  /** A variant with its `#[opcode(..)]`. The variant's identifier plays no part at run time. */
  datatype Variant = Variant(opcode: u16, shape: Shape)

  /** The variants of the enum, in declaration order. */
  type Schema = seq<Variant>

  /** A value of the enum: the index of its variant and its field values in order. */
  datatype Packet = Packet(tag: nat, fields: seq<Field>)

  function Arity(shape: Shape): nat {
    match shape
    case Unit => 0
    case Named(fs) => |fs|
    case Tuple(ts) => |ts|
  }

  function TypeAt(shape: Shape, i: nat): WireType
    requires i < Arity(shape)
  {
    match shape
    case Named(fs) => fs[i].typ
    case Tuple(ts) => ts[i]
  }

  /** f is a value of the Rust type t (a `String` is always UTF-8). */
  predicate HasType(f: Field, t: WireType) {
    match t
    case StringType => f.Text? && IsUtf8(f.s)
    case U32Type => f.Number? && f.n < 0x1_0000_0000
    case U64Type => f.Number?
    case BytesType => f.Blob?
  }

  /** p is a value the Rust type system allows: a declared variant with fields of its types. */
  ghost predicate Conforms(schema: Schema, p: Packet) {
    && p.tag < |schema|
    && |p.fields| == Arity(schema[p.tag].shape)
    && forall i :: 0 <= i < |p.fields| ==> HasType(p.fields[i], TypeAt(schema[p.tag].shape, i))
  }

  /** A packet of a one-field variant whose field has the declared type conforms. */
  lemma OneFieldConforms(schema: Schema, p: Packet)
    requires p.tag < |schema| && Arity(schema[p.tag].shape) == 1 && |p.fields| == 1
    requires HasType(p.fields[0], TypeAt(schema[p.tag].shape, 0))
    ensures Conforms(schema, p)
  {
  }

  /** A packet of a two-field variant whose fields have the declared types conforms. */
  lemma TwoFieldsConform(schema: Schema, p: Packet)
    requires p.tag < |schema| && Arity(schema[p.tag].shape) == 2 && |p.fields| == 2
    requires HasType(p.fields[0], TypeAt(schema[p.tag].shape, 0))
    requires HasType(p.fields[1], TypeAt(schema[p.tag].shape, 1))
    ensures Conforms(schema, p)
  {
  }

  predicate DistinctNames(fs: seq<NamedField>) {
    forall i, j :: 0 <= i < j < |fs| ==> fs[i].name != fs[j].name
  }

  /** Opcodes are pairwise distinct, as they are in every table of the protocol. */
  ghost predicate OpcodesDistinct(schema: Schema) {
    forall i, j :: 0 <= i < j < |schema| ==> schema[i].opcode != schema[j].opcode
  }

  /** What rustc guarantees of a variant, and lengths rmp writes without truncation: the field
      identifiers of a braced variant are distinct UTF-8 strings, and a braced or parenthesised
      variant has at least one field, since the generated `encode_payload` and `as_opcode`
      match `V {}` and `V()` with a unit pattern, which does not compile. */
  ghost predicate ShapeWellFormed(shape: Shape) {
    && Arity(shape) < LengthLimit
    && (shape.Named? ==> |shape.fields| > 0)
    && (shape.Tuple? ==> |shape.types| > 0)
    && (shape.Named? ==>
          && DistinctNames(shape.fields)
          && forall k :: 0 <= k < |shape.fields| ==> IsUtf8(shape.fields[k].name) && |shape.fields[k].name| < LengthLimit)
  }

  /** Opcodes listed in increasing order, as every table of the protocol lists them. */
  predicate OpcodesIncreasing(schema: Schema) {
    forall i :: 0 <= i < |schema| - 1 ==> schema[i].opcode < schema[i + 1].opcode
  }

  lemma {:induction false} IncreasingOpcodesDistinct(schema: Schema)
    requires OpcodesIncreasing(schema)
    ensures forall i, j :: 0 <= i < j < |schema| ==> schema[i].opcode < schema[j].opcode
    decreases |schema|
  {
    if |schema| > 1 {
      var tail := schema[1..];
      assert OpcodesIncreasing(tail) by {
        forall i | 0 <= i < |tail| - 1
          ensures tail[i].opcode < tail[i + 1].opcode
        {
          assert tail[i] == schema[i + 1] && tail[i + 1] == schema[i + 2];
        }
      }
      IncreasingOpcodesDistinct(tail);
      forall i, j | 0 <= i < j < |schema|
        ensures schema[i].opcode < schema[j].opcode
      {
        if i > 0 {
          assert tail[i - 1] == schema[i] && tail[j - 1] == schema[j];
        } else if j > 1 {
          assert tail[0] == schema[1] && tail[j - 1] == schema[j];
        }
      }
    }
  }

  /** A braced variant with one field whose identifier is UTF-8 is well formed. */
  lemma OneNamedWellFormed(a: seq<byte>, ta: WireType)
    requires IsUtf8(a) && |a| < LengthLimit
    ensures ShapeWellFormed(Named([NamedField(a, ta)]))
  {
  }

  /** A braced variant with two distinct UTF-8 field identifiers is well formed. */
  lemma TwoNamedWellFormed(a: seq<byte>, ta: WireType, b: seq<byte>, tb: WireType)
    requires IsUtf8(a) && |a| < LengthLimit && IsUtf8(b) && |b| < LengthLimit && a != b
    ensures ShapeWellFormed(Named([NamedField(a, ta), NamedField(b, tb)]))
  {
  }

  /** A schema whose opcodes increase and whose variants are each well formed. */
  lemma IncreasingWellFormed(schema: Schema)
    requires OpcodesIncreasing(schema)
    requires forall i :: 0 <= i < |schema| ==> ShapeWellFormed(schema[i].shape)
    ensures WellFormed(schema)
  {
    IncreasingOpcodesDistinct(schema);
  }

  ghost predicate WellFormed(schema: Schema) {
    OpcodesDistinct(schema) && forall i :: 0 <= i < |schema| ==> ShapeWellFormed(schema[i].shape)
  }

  /** A string or byte field shorter than 2^32 bytes. */
  predicate FieldFits(f: Field) {
    (f.Text? ==> |f.s| < LengthLimit) && (f.Blob? ==> |f.b| < LengthLimit)
  }

  /** Every field of p is written with its true length. */
  ghost predicate Fits(p: Packet) {
    forall i :: 0 <= i < |p.fields| ==> FieldFits(p.fields[i])
  }

  // ---------------------------------------------------------------- field conversions

  /** rmpv's `From<T> for Value`. */
  function ToValue(f: Field): Value {
    match f
    case Text(s) => Str(s)
    case Number(n) => UInt(n)
    case Blob(b) => Bin(b)
  }

  /** `TryFrom<Value> for T`, made optional by the generated `.ok()?`. */
  function FromValue(t: WireType, v: Value): (r: Option<Field>)
    ensures r.Some? ==> HasType(r.value, t) && ToValue(r.value) == v
  {
    match (t, v)
    case (StringType, Str(s)) => if IsUtf8(s) then Some(Text(s)) else None
    case (U32Type, UInt(n)) => if n < 0x1_0000_0000 then Some(Number(n)) else None
    case (U64Type, UInt(n)) => Some(Number(n))
    case (BytesType, Bin(b)) => Some(Blob(b))
    case _ => None
  }

  /** Converting a field to a value and back gives the field; with the ensures of
      `FromValue` this makes `FromValue(t, v) == Some(f)` equivalent to
      `HasType(f, t) && ToValue(f) == v`. */
  lemma FromValueToValue(f: Field, t: WireType)
    requires HasType(f, t)
    ensures FromValue(t, ToValue(f)) == Some(f)
  {
  }

  // ---------------------------------------------------------------- as_opcode

  /** The generated `as_opcode`: the declared opcode of the variant, whatever the fields. */
  function AsOpcode(schema: Schema, p: Packet): u16
    requires p.tag < |schema|
  {
    schema[p.tag].opcode
  }

  // ---------------------------------------------------------------- decode_packet

  /** The match arm `decode_packet` takes for an opcode: the first variant declaring it. */
  function FindVariant(schema: Schema, opcode: u16): (r: Option<nat>)
    ensures r.Some? ==> r.value < |schema| && schema[r.value].opcode == opcode
    ensures r.Some? ==> forall j :: 0 <= j < r.value ==> schema[j].opcode != opcode
    ensures r.None? <==> forall j :: 0 <= j < |schema| ==> schema[j].opcode != opcode
  {
    FindFrom(schema, opcode, 0)
  }

  function FindFrom(schema: Schema, opcode: u16, i: nat): (r: Option<nat>)
    requires i <= |schema|
    ensures r.Some? ==> i <= r.value < |schema| && schema[r.value].opcode == opcode
    ensures r.Some? ==> forall j :: i <= j < r.value ==> schema[j].opcode != opcode
    ensures r.None? <==> forall j :: i <= j < |schema| ==> schema[j].opcode != opcode
    decreases |schema| - i
  {
    if i == |schema| then None
    else if schema[i].opcode == opcode then Some(i)
    else FindFrom(schema, opcode, i + 1)
  }

  function Names(fs: seq<NamedField>): (r: seq<seq<byte>>)
    ensures |r| == |fs| && forall i :: 0 <= i < |fs| ==> r[i] == fs[i].name
  {
    if |fs| == 0 then [] else [fs[0].name] + Names(fs[1..])
  }

  /** The value of the last entry whose key is the string k, if any entry has that key. */
  function LastEntry(entries: seq<Entry>, k: seq<byte>): (r: Option<Value>)
    ensures r.None? <==> forall j :: 0 <= j < |entries| ==> entries[j].key != Str(k)
    ensures r.Some? ==>
      exists j :: 0 <= j < |entries| && entries[j] == Entry(Str(k), r.value) &&
        (forall j' :: j < j' < |entries| ==> entries[j'].key != Str(k))
    decreases |entries|
  {
    if |entries| == 0 then None
    else
      var later := LastEntry(entries[1..], k);
      if later.Some? then later
      else if entries[0].key == Str(k) then Some(entries[0].val)
      else None
  }

  /** The generated `filter_map` and `fold` over the decoded map: entries whose key is a
      UTF-8 string naming a field go into the `HashMap`, a later duplicate replacing an
      earlier one; every other entry is dropped. */
  function CollectFields(names: seq<seq<byte>>, entries: seq<Entry>, acc: map<seq<byte>, Value>)
    : (r: map<seq<byte>, Value>)
    ensures forall k :: k in r ==> k in acc || k in names
    decreases |entries|
  {
    if |entries| == 0 then acc
    else
      var e := entries[0];
      var acc' := if e.key.Str? && IsUtf8(e.key.data) && e.key.data in names then acc[e.key.data := e.val] else acc;
      CollectFields(names, entries[1..], acc')
  }

  /** The generated field initialisers `map.remove(name)?` then the conversion `.ok()?`,
      one field after the other. */
  function TakeFields(fs: seq<NamedField>, m: map<seq<byte>, Value>): (r: Option<seq<Field>>)
    ensures r.Some? ==> |r.value| == |fs|
    decreases |fs|
  {
    if |fs| == 0 then Some([])
    else if fs[0].name !in m then None
    else
      match FromValue(fs[0].typ, m[fs[0].name])
      case None => None
      case Some(f) =>
        match TakeFields(fs[1..], m - {fs[0].name})
        case None => None
        case Some(rest) => Some([f] + rest)
  }

  /** The arm of a braced variant: the payload must start with a map. */
  function DecodeNamed(fs: seq<NamedField>, payload: seq<byte>): (r: Option<seq<Field>>)
    ensures r.Some? ==> |r.value| == |fs|
    ensures r.Some? ==> DecodeValue(payload, MaxDepth).Ok? && DecodeValue(payload, MaxDepth).value.0.Map?
  {
    match DecodeValue(payload, MaxDepth)
    case Ok((Map(entries), _)) => TakeFields(fs, CollectFields(Names(fs), entries, map[]))
    case _ => None
  }

  /** The arm of a tuple variant as intended: the array's elements are taken by position.
      Elements beyond the fields are ignored, as the generated code ignores them. */
  function TupleFields(ts: seq<WireType>, items: seq<Value>): (r: Option<seq<Field>>)
    ensures r.Some? ==> |r.value| == |ts|
    decreases |ts|
  {
    if |ts| == 0 then Some([])
    else if |items| == 0 then None
    else
      match FromValue(ts[0], items[0])
      case None => None
      case Some(f) =>
        match TupleFields(ts[1..], items[1..])
        case None => None
        case Some(rest) => Some([f] + rest)
  }

  /** The arm of a tuple variant as generated: field number idx is `payload.remove(idx)` on
      an array that each earlier field has already shortened by one, and `Vec::remove` panics
      on an index past the end. */
  function TupleFieldsAsWritten(ts: seq<WireType>, items: seq<Value>, idx: nat): Outcome<Option<seq<Field>>>
    decreases |ts|
  {
    if |ts| == 0 then Returns(Some([]))
    else if idx >= |items| then Panics
    else
      match FromValue(ts[0], items[idx])
      case None => Returns(None)
      case Some(f) => Prepend(f, TupleFieldsAsWritten(ts[1..], items[..idx] + items[idx + 1..], idx + 1))
  }

  function Prepend(f: Field, r: Outcome<Option<seq<Field>>>): Outcome<Option<seq<Field>>> {
    match r
    case Returns(Some(rest)) => Returns(Some([f] + rest))
    case _ => r
  }

  function DecodeTuple(ts: seq<WireType>, payload: seq<byte>): (r: Option<seq<Field>>)
    ensures r.Some? ==> |r.value| == |ts|
    ensures r.Some? ==> DecodeValue(payload, MaxDepth).Ok? && DecodeValue(payload, MaxDepth).value.0.Array?
  {
    match DecodeValue(payload, MaxDepth)
    case Ok((Array(items), _)) => TupleFields(ts, items)
    case _ => None
  }

  function DecodeTupleAsWritten(ts: seq<WireType>, payload: seq<byte>): Outcome<Option<seq<Field>>> {
    match DecodeValue(payload, MaxDepth)
    case Ok((Array(items), _)) => TupleFieldsAsWritten(ts, items, 0)
    case _ => Returns(None)
  }

  function WithTag(tag: nat, r: Option<seq<Field>>): Option<Packet> {
    match r
    case None => None
    case Some(fields) => Some(Packet(tag, fields))
  }

  /** The generated `decode_packet` with tuple fields taken by position. */
  function DecodePacket(schema: Schema, opcode: u16, payload: seq<byte>): (r: Option<Packet>)
    ensures (forall j :: 0 <= j < |schema| ==> schema[j].opcode != opcode) ==> r.None?
    ensures r.Some? ==> FindVariant(schema, opcode) == Some(r.value.tag)
    ensures r.Some? ==> |r.value.fields| == Arity(schema[r.value.tag].shape)
  {
    match FindVariant(schema, opcode)
    case None => None
    case Some(i) =>
      match schema[i].shape
      case Unit => Some(Packet(i, []))
      case Named(fs) => WithTag(i, DecodeNamed(fs, payload))
      case Tuple(ts) => WithTag(i, DecodeTuple(ts, payload))
  }

  /** The generated `decode_packet` as written, where a tuple variant may panic. */
  function DecodePacketAsWritten(schema: Schema, opcode: u16, payload: seq<byte>): Outcome<Option<Packet>> {
    match FindVariant(schema, opcode)
    case None => Returns(None)
    case Some(i) =>
      match schema[i].shape
      case Unit => Returns(Some(Packet(i, [])))
      case Named(fs) => Returns(WithTag(i, DecodeNamed(fs, payload)))
      case Tuple(ts) =>
        match DecodeTupleAsWritten(ts, payload)
        case Panics => Panics
        case Returns(r) => Returns(WithTag(i, r))
  }

  // ---------------------------------------------------------------- encode_payload

  /** The map the generated code hands to `write_value`: field names in declaration order. */
  function NamedEntries(fs: seq<NamedField>, fields: seq<Field>): (r: seq<Entry>)
    requires |fs| == |fields|
    ensures |r| == |fs|
    ensures forall i :: 0 <= i < |r| ==> r[i] == Entry(Str(fs[i].name), ToValue(fields[i]))
  {
    if |fs| == 0 then [] else [Entry(Str(fs[0].name), ToValue(fields[0]))] + NamedEntries(fs[1..], fields[1..])
  }

  /** The array the generated code hands to `write_value`: fields in order. */
  function TupleItems(fields: seq<Field>): (r: seq<Value>)
    ensures |r| == |fields|
    ensures forall i :: 0 <= i < |r| ==> r[i] == ToValue(fields[i])
  {
    if |fields| == 0 then [] else [ToValue(fields[0])] + TupleItems(fields[1..])
  }

  /** The generated `encode_payload`. A variant without fields (`fields.is_empty()`) gives no
      bytes; writing into a `Vec` never fails, so the result is always `Some`. */
  function EncodePayload(schema: Schema, p: Packet): (r: Option<seq<byte>>)
    requires Conforms(schema, p)
    ensures r.Some?
    ensures Arity(schema[p.tag].shape) == 0 <==> r.value == []
  {
    var shape := schema[p.tag].shape;
    if Arity(shape) == 0 then Some([])
    else
      var v := if shape.Named? then Map(NamedEntries(shape.fields, p.fields)) else Array(TupleItems(p.fields));
      EncodeIsNotEmpty(v);
      Some(Encode(v))
  }

  lemma EncodeIsNotEmpty(v: Value)
    ensures |Encode(v)| > 0
  {
    Pow256Values();
  }

  // ---------------------------------------------------------------- properties

  /** A unit variant is decoded from its opcode whatever the payload bytes are. */
  lemma UnitIgnoresPayload(schema: Schema, opcode: u16, payload: seq<byte>, i: nat)
    requires FindVariant(schema, opcode) == Some(i) && schema[i].shape.Unit?
    ensures DecodePacket(schema, opcode, payload) == Some(Packet(i, []))
    ensures DecodePacketAsWritten(schema, opcode, payload) == Returns(Some(Packet(i, [])))
  {
  }

  /** A decoded packet reports the opcode it was decoded from. */
  lemma OpcodeOfDecoded(schema: Schema, opcode: u16, payload: seq<byte>)
    requires DecodePacket(schema, opcode, payload).Some?
    ensures AsOpcode(schema, DecodePacket(schema, opcode, payload).value) == opcode
  {
  }

  /** With distinct opcodes the opcode of a variant selects that variant. */
  lemma FindVariantOfOpcode(schema: Schema, i: nat)
    requires WellFormed(schema) && i < |schema|
    ensures FindVariant(schema, schema[i].opcode) == Some(i)
  {
    assert forall j :: 0 <= j < |schema| && j != i ==> schema[j].opcode != schema[i].opcode;
  }

  /** An entry whose key is not the UTF-8 name of a field changes nothing, wherever it is. */
  lemma {:induction false} ExtraEntryIgnored(names: seq<seq<byte>>, a: seq<Entry>, e: Entry, b: seq<Entry>, acc: map<seq<byte>, Value>)
    requires !(e.key.Str? && IsUtf8(e.key.data) && e.key.data in names)
    ensures CollectFields(names, a + [e] + b, acc) == CollectFields(names, a + b, acc)
    decreases |a|
  {
    if |a| == 0 {
      assert a + [e] + b == [e] + b && ([e] + b)[1..] == b && a + b == b;
    } else {
      var x := a[0];
      var acc' := if x.key.Str? && IsUtf8(x.key.data) && x.key.data in names then acc[x.key.data := x.val] else acc;
      assert (a + [e] + b)[0] == x && (a + [e] + b)[1..] == a[1..] + [e] + b;
      assert (a + b)[0] == x && (a + b)[1..] == a[1..] + b;
      ExtraEntryIgnored(names, a[1..], e, b, acc');
    }
  }

  /** A key no later entry mentions keeps the value it had. */
  lemma {:induction false} CollectKeeps(names: seq<seq<byte>>, entries: seq<Entry>, acc: map<seq<byte>, Value>, k: seq<byte>)
    requires k in acc
    requires forall j :: 0 <= j < |entries| ==> entries[j].key != Str(k)
    ensures k in CollectFields(names, entries, acc) && CollectFields(names, entries, acc)[k] == acc[k]
    decreases |entries|
  {
    if |entries| > 0 {
      var e := entries[0];
      var acc' := if e.key.Str? && IsUtf8(e.key.data) && e.key.data in names then acc[e.key.data := e.val] else acc;
      assert k in acc' && acc'[k] == acc[k];
      CollectKeeps(names, entries[1..], acc', k);
    }
  }

  /** Which keys of a decoded map reach the `HashMap`: a field name carried as a UTF-8 string
      key is there with the value of its last entry; any other key is there exactly when it
      was there before, with the value it had. */
  lemma {:induction false} CollectFieldsLookup(names: seq<seq<byte>>, entries: seq<Entry>, acc: map<seq<byte>, Value>, k: seq<byte>)
    ensures k in names && IsUtf8(k) && LastEntry(entries, k).Some? ==>
      k in CollectFields(names, entries, acc) && CollectFields(names, entries, acc)[k] == LastEntry(entries, k).value
    ensures !(k in names && IsUtf8(k) && LastEntry(entries, k).Some?) ==>
      (k in CollectFields(names, entries, acc) <==> k in acc) &&
      (k in acc ==> CollectFields(names, entries, acc)[k] == acc[k])
    decreases |entries|
  {
    if |entries| > 0 {
      var e := entries[0];
      var acc' := if e.key.Str? && IsUtf8(e.key.data) && e.key.data in names then acc[e.key.data := e.val] else acc;
      assert CollectFields(names, entries, acc) == CollectFields(names, entries[1..], acc');
      CollectFieldsLookup(names, entries[1..], acc', k);
    }
  }

  /** Collecting the map `encode_payload` writes gives every field name its value. */
  lemma {:induction false} CollectNamedEntries(names: seq<seq<byte>>, fs: seq<NamedField>, fields: seq<Field>, acc: map<seq<byte>, Value>)
    requires |fs| == |fields| && DistinctNames(fs)
    requires forall i :: 0 <= i < |fs| ==> fs[i].name in names && IsUtf8(fs[i].name)
    ensures forall i :: 0 <= i < |fs| ==>
      fs[i].name in CollectFields(names, NamedEntries(fs, fields), acc) &&
      CollectFields(names, NamedEntries(fs, fields), acc)[fs[i].name] == ToValue(fields[i])
    decreases |fs|
  {
    if |fs| > 0 {
      var es := NamedEntries(fs, fields);
      var tail := NamedEntries(fs[1..], fields[1..]);
      var acc' := acc[fs[0].name := ToValue(fields[0])];
      assert es[1..] == tail;
      assert CollectFields(names, es, acc) == CollectFields(names, tail, acc');
      CollectNamedEntries(names, fs[1..], fields[1..], acc');
      forall j | 0 <= j < |tail|
        ensures tail[j].key != Str(fs[0].name)
      {
        assert fs[j + 1].name != fs[0].name;
      }
      CollectKeeps(names, tail, acc', fs[0].name);
      forall i | 0 <= i < |fs|
        ensures fs[i].name in CollectFields(names, es, acc)
        ensures CollectFields(names, es, acc)[fs[i].name] == ToValue(fields[i])
      {
        if i > 0 {
          assert fs[1..][i - 1] == fs[i] && fields[1..][i - 1] == fields[i];
        }
      }
    }
  }

  /** A braced variant decodes all or nothing: every field must be present and convert, and
      then each field is the conversion of the value under its name. */
  lemma {:induction false} TakeFieldsAllOrNothing(fs: seq<NamedField>, m: map<seq<byte>, Value>)
    requires DistinctNames(fs)
    ensures TakeFields(fs, m).Some? <==>
      forall i :: 0 <= i < |fs| ==> fs[i].name in m && FromValue(fs[i].typ, m[fs[i].name]).Some?
    ensures TakeFields(fs, m).Some? ==>
      forall i :: 0 <= i < |fs| ==> TakeFields(fs, m).value[i] == FromValue(fs[i].typ, m[fs[i].name]).value
    decreases |fs|
  {
    if |fs| > 0 {
      var n := fs[0].name;
      var m' := m - {n};
      TakeFieldsAllOrNothing(fs[1..], m');
      forall i | 1 <= i < |fs|
        ensures fs[1..][i - 1] == fs[i]
        ensures (fs[i].name in m') == (fs[i].name in m)
        ensures fs[i].name in m ==> m'[fs[i].name] == m[fs[i].name]
      {
        assert fs[0].name != fs[i].name;
      }
      if n in m && FromValue(fs[0].typ, m[n]).Some? && TakeFields(fs[1..], m').Some? {
        var r := TakeFields(fs, m).value;
        forall i | 0 <= i < |fs|
          ensures r[i] == FromValue(fs[i].typ, m[fs[i].name]).value
        {
          if i > 0 {
            assert r[i] == TakeFields(fs[1..], m').value[i - 1];
          }
        }
      }
    }
  }

  /** A braced variant decodes exactly when its payload is a map in which every field name is
      carried as a string key and the last entry under each name converts; field i is then
      the conversion of that entry's value. Keys that name no field play no part. */
  lemma DecodeNamedFields(fs: seq<NamedField>, payload: seq<byte>)
    requires DistinctNames(fs) && forall i :: 0 <= i < |fs| ==> IsUtf8(fs[i].name)
    ensures DecodeNamed(fs, payload).Some? <==>
      && DecodeValue(payload, MaxDepth).Ok? && DecodeValue(payload, MaxDepth).value.0.Map?
      && var entries := DecodeValue(payload, MaxDepth).value.0.entries;
         forall i :: 0 <= i < |fs| ==>
           LastEntry(entries, fs[i].name).Some? && FromValue(fs[i].typ, LastEntry(entries, fs[i].name).value).Some?
    ensures DecodeNamed(fs, payload).Some? ==>
      var entries := DecodeValue(payload, MaxDepth).value.0.entries;
      forall i :: 0 <= i < |fs| ==>
        DecodeNamed(fs, payload).value[i] == FromValue(fs[i].typ, LastEntry(entries, fs[i].name).value).value
  {
    match DecodeValue(payload, MaxDepth)
    case Ok((Map(entries), _)) =>
      var m := CollectFields(Names(fs), entries, map[]);
      forall i | 0 <= i < |fs|
        ensures fs[i].name in m <==> LastEntry(entries, fs[i].name).Some?
        ensures fs[i].name in m ==> m[fs[i].name] == LastEntry(entries, fs[i].name).value
      {
        assert Names(fs)[i] == fs[i].name;
        CollectFieldsLookup(Names(fs), entries, map[], fs[i].name);
      }
      TakeFieldsAllOrNothing(fs, m);
    case _ =>
  }

  /** A payload map that carries no string key for a declared field is refused, whatever
      else it holds. */
  lemma MissingFieldRefused(fs: seq<NamedField>, payload: seq<byte>, entries: seq<Entry>, i: nat)
    requires DistinctNames(fs) && i < |fs|
    requires DecodeValue(payload, MaxDepth).Ok? && DecodeValue(payload, MaxDepth).value.0 == Map(entries)
    requires forall j :: 0 <= j < |entries| ==> entries[j].key != Str(fs[i].name)
    ensures DecodeNamed(fs, payload).None?
  {
    var m := CollectFields(Names(fs), entries, map[]);
    CollectFieldsLookup(Names(fs), entries, map[], fs[i].name);
    assert fs[i].name !in m;
    TakeFieldsAllOrNothing(fs, m);
  }

  /** A payload map whose last entry under a declared field's name holds a value of the
      wrong kind is refused, whatever earlier entries under that name held. */
  lemma WrongKindRefused(fs: seq<NamedField>, payload: seq<byte>, entries: seq<Entry>, i: nat)
    requires DistinctNames(fs) && i < |fs| && IsUtf8(fs[i].name)
    requires DecodeValue(payload, MaxDepth).Ok? && DecodeValue(payload, MaxDepth).value.0 == Map(entries)
    requires LastEntry(entries, fs[i].name).Some? && FromValue(fs[i].typ, LastEntry(entries, fs[i].name).value).None?
    ensures DecodeNamed(fs, payload).None?
  {
    var m := CollectFields(Names(fs), entries, map[]);
    assert Names(fs)[i] == fs[i].name;
    CollectFieldsLookup(Names(fs), entries, map[], fs[i].name);
    TakeFieldsAllOrNothing(fs, m);
  }

  /** The intended tuple decode is positional: it succeeds exactly when the array has at
      least as many elements as there are fields and each converts, and field i is then the
      conversion of element i. */
  lemma {:induction false} TupleFieldsPositional(ts: seq<WireType>, items: seq<Value>)
    ensures TupleFields(ts, items).Some? <==>
      |items| >= |ts| && forall i :: 0 <= i < |ts| ==> FromValue(ts[i], items[i]).Some?
    ensures TupleFields(ts, items).Some? ==>
      forall i :: 0 <= i < |ts| ==> TupleFields(ts, items).value[i] == FromValue(ts[i], items[i]).value
    decreases |ts|
  {
    if |ts| > 0 && |items| > 0 {
      TupleFieldsPositional(ts[1..], items[1..]);
      forall i | 1 <= i < |ts|
        ensures ts[1..][i - 1] == ts[i]
        ensures i - 1 < |items[1..]| ==> items[1..][i - 1] == items[i]
      {
      }
      if FromValue(ts[0], items[0]).Some? && TupleFields(ts[1..], items[1..]).Some? {
        var r := TupleFields(ts, items).value;
        forall i | 0 <= i < |ts|
          ensures r[i] == FromValue(ts[i], items[i]).value
        {
          if i > 0 {
            assert r[i] == TupleFields(ts[1..], items[1..]).value[i - 1];
          }
        }
      }
    }
  }

  /** What the generated tuple decode reads: elements 0, 2, 4, ... of the array, panicking
      when it runs past the end. */
  function EveryOther(ts: seq<WireType>, items: seq<Value>): Outcome<Option<seq<Field>>>
    decreases |ts|
  {
    if |ts| == 0 then Returns(Some([]))
    else if |items| == 0 then Panics
    else
      match FromValue(ts[0], items[0])
      case None => Returns(None)
      case Some(f) => Prepend(f, EveryOther(ts[1..], if |items| >= 2 then items[2..] else []))
  }

  /** Each `payload.remove(idx)` closes the gap the previous one left, so the tuple decode as
      written takes every other element. */
  lemma {:induction false} AsWrittenTakesEveryOther(ts: seq<WireType>, pre: seq<Value>, s: seq<Value>)
    ensures TupleFieldsAsWritten(ts, pre + s, |pre|) == EveryOther(ts, s)
    decreases |ts|
  {
    if |ts| > 0 && |s| > 0 {
      var items := pre + s;
      assert items[|pre|] == s[0];
      var shorter := items[..|pre|] + items[|pre| + 1..];
      if |s| >= 2 {
        assert shorter == (pre + [s[1]]) + s[2..];
        AsWrittenTakesEveryOther(ts[1..], pre + [s[1]], s[2..]);
      } else {
        assert shorter == pre;
      }
    }
  }

  /** On schemas without tuple variants the decode as written never panics and agrees with
      the intended one. */
  lemma AsWrittenAgreesWithoutTuples(schema: Schema, opcode: u16, payload: seq<byte>)
    requires forall i :: 0 <= i < |schema| ==> !schema[i].shape.Tuple?
    ensures DecodePacketAsWritten(schema, opcode, payload) == Returns(DecodePacket(schema, opcode, payload))
  {
  }

  lemma FieldEncodable(f: Field, t: WireType)
    requires HasType(f, t) && FieldFits(f)
    ensures Encodable(ToValue(f)) && Depth(ToValue(f)) == 1
  {
  }

  lemma {:induction false} NamedEntriesEncodable(fs: seq<NamedField>, fields: seq<Field>)
    requires |fs| == |fields|
    requires forall i :: 0 <= i < |fs| ==> IsUtf8(fs[i].name) && |fs[i].name| < LengthLimit
    requires forall i :: 0 <= i < |fs| ==> HasType(fields[i], fs[i].typ) && FieldFits(fields[i])
    ensures EntriesEncodable(NamedEntries(fs, fields)) && EntriesDepth(NamedEntries(fs, fields)) <= 1
    decreases |fs|
  {
    if |fs| > 0 {
      var es := NamedEntries(fs, fields);
      assert es[1..] == NamedEntries(fs[1..], fields[1..]);
      FieldEncodable(fields[0], fs[0].typ);
      assert Encodable(es[0].key) && Depth(es[0].key) == 1;
      assert EntryEncodable(es[0]) && EntryDepth(es[0]) <= 1;
      NamedEntriesEncodable(fs[1..], fields[1..]);
    }
  }

  lemma {:induction false} TupleItemsEncodable(ts: seq<WireType>, fields: seq<Field>)
    requires |ts| == |fields|
    requires forall i :: 0 <= i < |ts| ==> HasType(fields[i], ts[i]) && FieldFits(fields[i])
    ensures ItemsEncodable(TupleItems(fields)) && ItemsDepth(TupleItems(fields)) <= 1
    decreases |ts|
  {
    if |ts| > 0 {
      var items := TupleItems(fields);
      assert items[1..] == TupleItems(fields[1..]);
      FieldEncodable(fields[0], ts[0]);
      TupleItemsEncodable(ts[1..], fields[1..]);
    }
  }

  /** `encode_payload` of a braced variant is one map, keyed by the field names in
      declaration order, with nothing after it. */
  lemma NamedPayloadLayout(schema: Schema, p: Packet)
    requires WellFormed(schema) && Conforms(schema, p) && Fits(p)
    requires schema[p.tag].shape.Named? && |p.fields| > 0
    ensures DecodeValue(EncodePayload(schema, p).value, MaxDepth)
         == Ok((Map(NamedEntries(schema[p.tag].shape.fields, p.fields)), []))
  {
    var fs := schema[p.tag].shape.fields;
    var v := Map(NamedEntries(fs, p.fields));
    NamedEntriesEncodable(fs, p.fields);
    assert Encode(v) + [] == Encode(v);
    DecodeEncode(v, [], MaxDepth);
  }

  /** `encode_payload` of a tuple variant is one array of the fields in order. */
  lemma TuplePayloadLayout(schema: Schema, p: Packet)
    requires WellFormed(schema) && Conforms(schema, p) && Fits(p)
    requires schema[p.tag].shape.Tuple? && |p.fields| > 0
    ensures DecodeValue(EncodePayload(schema, p).value, MaxDepth) == Ok((Array(TupleItems(p.fields)), []))
  {
    var v := Array(TupleItems(p.fields));
    TupleItemsEncodable(schema[p.tag].shape.types, p.fields);
    assert Encode(v) + [] == Encode(v);
    DecodeEncode(v, [], MaxDepth);
  }

  /** The generated functions agree: decoding the payload `encode_payload` writes, under the
      opcode `as_opcode` reports, gives the packet back. */
  lemma RoundTrip(schema: Schema, p: Packet)
    requires WellFormed(schema) && Conforms(schema, p) && Fits(p)
    ensures DecodePacket(schema, AsOpcode(schema, p), EncodePayload(schema, p).value) == Some(p)
  {
    var shape := schema[p.tag].shape;
    FindVariantOfOpcode(schema, p.tag);
    forall i | 0 <= i < |p.fields|
      ensures FromValue(TypeAt(shape, i), ToValue(p.fields[i])) == Some(p.fields[i])
    {
      FromValueToValue(p.fields[i], TypeAt(shape, i));
    }
    match shape
    case Unit =>
    case Named(fs) =>
      NamedRoundTrip(schema, p);
    case Tuple(ts) =>
      TupleRoundTrip(schema, p);
  }

  lemma NamedRoundTrip(schema: Schema, p: Packet)
    requires WellFormed(schema) && Conforms(schema, p) && Fits(p)
    requires schema[p.tag].shape.Named? && |p.fields| > 0
    requires forall i :: 0 <= i < |p.fields| ==>
      FromValue(TypeAt(schema[p.tag].shape, i), ToValue(p.fields[i])) == Some(p.fields[i])
    ensures DecodeNamed(schema[p.tag].shape.fields, EncodePayload(schema, p).value) == Some(p.fields)
  {
    var fs := schema[p.tag].shape.fields;
    NamedPayloadLayout(schema, p);
    NamedTypes(fs);
    NamedFieldsCollected(fs, p.fields);
  }

  lemma NamedTypes(fs: seq<NamedField>)
    ensures forall i :: 0 <= i < |fs| ==> TypeAt(Named(fs), i) == fs[i].typ
  {
  }

  /** The map written for the fields gives the fields back. */
  lemma NamedFieldsCollected(fs: seq<NamedField>, fields: seq<Field>)
    requires |fs| == |fields| && DistinctNames(fs)
    requires forall i :: 0 <= i < |fs| ==> IsUtf8(fs[i].name)
    requires forall i :: 0 <= i < |fs| ==> FromValue(fs[i].typ, ToValue(fields[i])) == Some(fields[i])
    ensures TakeFields(fs, CollectFields(Names(fs), NamedEntries(fs, fields), map[])) == Some(fields)
  {
    var m := CollectFields(Names(fs), NamedEntries(fs, fields), map[]);
    CollectNamedEntries(Names(fs), fs, fields, map[]);
    TakeFieldsAllOrNothing(fs, m);
    assert TakeFields(fs, m).value == fields;
  }

  lemma TupleRoundTrip(schema: Schema, p: Packet)
    requires WellFormed(schema) && Conforms(schema, p) && Fits(p)
    requires schema[p.tag].shape.Tuple? && |p.fields| > 0
    requires forall i :: 0 <= i < |p.fields| ==>
      FromValue(TypeAt(schema[p.tag].shape, i), ToValue(p.fields[i])) == Some(p.fields[i])
    ensures DecodeTuple(schema[p.tag].shape.types, EncodePayload(schema, p).value) == Some(p.fields)
  {
    var ts := schema[p.tag].shape.types;
    TuplePayloadLayout(schema, p);
    TupleFieldsPositional(ts, TupleItems(p.fields));
    assert TupleFields(ts, TupleItems(p.fields)).value == p.fields;
  }
}
