/** The MessagePack subset that the packet codec reads and writes through rmp and rmpv:
    nil, booleans, positive fixint, uint 8/16/32/64, fixstr and str 8/16/32, bin 8/16/32,
    fixarray and array 16/32, fixmap and map 16/32. `Encode` is rmpv's `write_value`
    (rmp always picks the smallest format); `DecodeValue` is rmpv's `read_value_ref`. */
module Msgpack {
  import opened Bytes
  import opened Wrappers
  import opened Utf8

  /** rmp writes every length `as u32`; lengths of 2^32 and more are written truncated. */
  const LengthLimit: nat := 0x1_0000_0000

  /** The nesting budget rmpv's `read_value_ref` starts with. */
  const MaxDepth: nat := 1024

  /** rmpv's `Value`. A `Str` keeps the raw bytes of the string, which need not be UTF-8
      (rmpv's `Utf8String`). */
  datatype Value =
    | Nil
    | Boolean(b: bool)
    | UInt(n: u64)
    | Str(data: seq<byte>)
    | Bin(data: seq<byte>)
    | Array(items: seq<Value>)
    | Map(entries: seq<Entry>)

  /** One key/value pair of a map, in the order the map was written. */
  datatype Entry = Entry(key: Value, val: Value)

  // ---------------------------------------------------------------- encoding

  /** rmp's `write_uint`: the smallest unsigned format that holds n. */
  function UIntBytes(n: u64): seq<byte> {
    Pow256Values();
    if n < 0x80 then [n]
    else if n < 0x100 then [0xcc, n]
    else if n < 0x1_0000 then [0xcd] + BigEndian(n, 2)
    else if n < 0x1_0000_0000 then [0xce] + BigEndian(n, 4)
    else [0xcf] + BigEndian(n, 8)
  }

  /** rmp's `write_str_len`. */
  function StrHeader(len: u32): seq<byte> {
    Pow256Values();
    if len < 32 then [0xa0 + len]
    else if len < 0x100 then [0xd9, len]
    else if len < 0x1_0000 then [0xda] + BigEndian(len, 2)
    else [0xdb] + BigEndian(len, 4)
  }

  /** rmp's `write_bin_len`. */
  function BinHeader(len: u32): seq<byte> {
    Pow256Values();
    if len < 0x100 then [0xc4, len]
    else if len < 0x1_0000 then [0xc5] + BigEndian(len, 2)
    else [0xc6] + BigEndian(len, 4)
  }

  /** rmp's `write_array_len`. */
  function ArrayHeader(len: u32): seq<byte> {
    Pow256Values();
    if len < 16 then [0x90 + len]
    else if len < 0x1_0000 then [0xdc] + BigEndian(len, 2)
    else [0xdd] + BigEndian(len, 4)
  }

  /** rmp's `write_map_len`. */
  function MapHeader(len: u32): seq<byte> {
    Pow256Values();
    if len < 16 then [0x80 + len]
    else if len < 0x1_0000 then [0xde] + BigEndian(len, 2)
    else [0xdf] + BigEndian(len, 4)
  }

  /** rmpv's `write_value`. A string that is not UTF-8 is written as bin, as rmpv does. */
  function Encode(v: Value): seq<byte>
    decreases v
  {
    match v
    case Nil => [0xc0]
    case Boolean(b) => if b then [0xc3] else [0xc2]
    case UInt(n) => UIntBytes(n)
    case Str(s) =>
      if IsUtf8(s) then StrHeader(|s| % LengthLimit) + s else BinHeader(|s| % LengthLimit) + s
    case Bin(s) => BinHeader(|s| % LengthLimit) + s
    case Array(items) => ArrayHeader(|items| % LengthLimit) + EncodeItems(items)
    case Map(entries) => MapHeader(|entries| % LengthLimit) + EncodeEntries(entries)
  }

  function EncodeItems(items: seq<Value>): seq<byte>
    decreases items
  {
    if |items| == 0 then [] else Encode(items[0]) + EncodeItems(items[1..])
  }

  function EncodeEntries(entries: seq<Entry>): seq<byte>
    decreases entries
  {
    if |entries| == 0 then []
    else
      EncodeEntry(entries[0]) + EncodeEntries(entries[1..])
  }

  function EncodeEntry(e: Entry): seq<byte>
    decreases e
  {
    Encode(e.key) + Encode(e.val)
  }

  /** A short ASCII string is written as a fixstr. */
  lemma ShortAsciiEncodes(s: seq<byte>)
    requires |s| < 32 && forall i :: 0 <= i < |s| ==> s[i] < 0x80
    ensures Encode(Str(s)) == [0xa0 + |s|] + s
  {
    AsciiIsUtf8(s);
  }

  /** A key/value pair of short ASCII strings is two fixstrs. */
  lemma ShortAsciiEntryEncodes(k: seq<byte>, v: seq<byte>)
    requires |k| < 32 && forall i :: 0 <= i < |k| ==> k[i] < 0x80
    requires |v| < 32 && forall i :: 0 <= i < |v| ==> v[i] < 0x80
    ensures EncodeEntry(Entry(Str(k), Str(v))) == [0xa0 + |k|] + k + [0xa0 + |v|] + v
  {
    ShortAsciiEncodes(k);
    ShortAsciiEncodes(v);
  }

  /** Two entries are written one after the other. */
  lemma TwoEntriesEncode(e0: Entry, e1: Entry)
    ensures EncodeEntries([e0, e1]) == EncodeEntry(e0) + EncodeEntry(e1)
  {
    var es := [e0, e1];
    assert es[1..] == [e1] && es[1..][1..] == [];
    assert EncodeEntries(es[1..]) == EncodeEntry(e1) + [];
  }

  /** One entry is written alone. */
  lemma OneEntryEncode(e: Entry)
    ensures EncodeEntries([e]) == EncodeEntry(e)
  {
    assert [e][1..] == [];
  }

  /** Two items are written one after the other. */
  lemma TwoItemsEncode(a: Value, b: Value)
    ensures EncodeItems([a, b]) == Encode(a) + Encode(b)
  {
    var items := [a, b];
    assert items[1..] == [b] && items[1..][1..] == [];
    assert EncodeItems(items[1..]) == Encode(b) + [];
  }

  // ---------------------------------------------------------------- errors

  /** The `io::Error` values a read from a byte slice can carry. */
  datatype IoError =
    | UnexpectedEof
      /** the `io::Error` that error.rs builds around rmpv's depth-limit error */
    | DepthLimit

  /** rmpv's `decode::Error`. */
  datatype RmpvError = InvalidMarkerRead(io: IoError) | InvalidDataRead(io: IoError) | DepthLimitExceeded

  /** rmp's `ValueReadError`; a marker is identified by its byte. */
  datatype ValueReadError = InvalidMarkerRead(io: IoError) | InvalidDataRead(io: IoError) | TypeMismatch(marker: byte)

  /** rmp's `MarkerReadError`. */
  datatype MarkerReadError = MarkerReadError(io: IoError)

  /** Why `DecodeValue` stopped: an rmpv error, or a format this model does not cover
      (negative integers, floats, extensions and the reserved byte 0xc1), which rmpv
      would have decoded. */
  datatype DecodeFailure = Rmpv(error: RmpvError) | OutsideSubset(marker: byte)

  /** A read: the value and the bytes after it, or why it failed. */
  type Read<T> = Result<(T, seq<byte>), DecodeFailure>

  const Truncated: DecodeFailure := Rmpv(RmpvError.InvalidDataRead(UnexpectedEof))

  // ---------------------------------------------------------------- decoding

  /** k raw bytes. */
  function ReadBytes(s: seq<byte>, k: nat): (r: Read<seq<byte>>)
    ensures r.Ok? <==> k <= |s|
    ensures r.Ok? ==> r.value.0 == s[..k] && r.value.1 == s[k..]
  {
    if |s| < k then Err(Truncated) else Ok((s[..k], s[k..]))
  }

  /** A k-byte big-endian length or number. */
  function ReadNumber(s: seq<byte>, k: nat): (r: Read<nat>)
    ensures r.Ok? <==> k <= |s|
    ensures r.Ok? ==> r.value.0 < Pow256(k) && r.value.1 == s[k..]
  {
    if |s| < k then Err(Truncated) else Ok((FromBigEndian(s[..k]), s[k..]))
  }

  /** A k-byte length followed by that many bytes. */
  function ReadSized(s: seq<byte>, k: nat): (r: Read<seq<byte>>)
    ensures r.Ok? ==> |r.value.1| <= |s| - k
  {
    match ReadNumber(s, k)
    case Err(e) => Err(e)
    case Ok((n, t)) => ReadBytes(t, n)
  }

  function StrOf(r: Read<seq<byte>>): (r': Read<Value>)
    ensures r'.Ok? <==> r.Ok?
    ensures r'.Ok? ==> r'.value == (Str(r.value.0), r.value.1)
  {
    match r
    case Err(e) => Err(e)
    case Ok((s, t)) => Ok((Str(s), t))
  }

  function BinOf(r: Read<seq<byte>>): (r': Read<Value>)
    ensures r'.Ok? <==> r.Ok?
    ensures r'.Ok? ==> r'.value == (Bin(r.value.0), r.value.1)
  {
    match r
    case Err(e) => Err(e)
    case Ok((s, t)) => Ok((Bin(s), t))
  }

  function ArrayOf(r: Read<seq<Value>>): (r': Read<Value>)
    ensures r'.Ok? <==> r.Ok?
    ensures r'.Ok? ==> r'.value == (Array(r.value.0), r.value.1)
  {
    match r
    case Err(e) => Err(e)
    case Ok((vs, t)) => Ok((Array(vs), t))
  }

  function MapOf(r: Read<seq<Entry>>): (r': Read<Value>)
    ensures r'.Ok? <==> r.Ok?
    ensures r'.Ok? ==> r'.value == (Map(r.value.0), r.value.1)
  {
    match r
    case Err(e) => Err(e)
    case Ok((es, t)) => Ok((Map(es), t))
  }

  function UIntOf(r: Read<nat>): (r': Read<Value>)
    requires r.Ok? ==> r.value.0 < 0x1_0000_0000_0000_0000
    ensures r'.Ok? <==> r.Ok?
    ensures r'.Ok? ==> r'.value == (UInt(r.value.0), r.value.1)
  {
    match r
    case Err(e) => Err(e)
    case Ok((n, t)) => Ok((UInt(n), t))
  }

  /** rmpv's `read_value_ref` with `depth` nesting levels left: one value from the front of
      s, and the bytes after it. */
  function DecodeValue(s: seq<byte>, depth: nat): (r: Read<Value>)
    ensures r.Ok? ==> |r.value.1| < |s|
    decreases |s|, 0, 0
  {
    if depth == 0 then Err(Rmpv(DepthLimitExceeded))
    else if |s| == 0 then Err(Rmpv(RmpvError.InvalidMarkerRead(UnexpectedEof)))
    else DecodeBody(s[0], s[1..], depth - 1)
  }

  /** The value whose marker byte is m and whose remaining bytes start t. */
  function DecodeBody(m: byte, t: seq<byte>, d: nat): (r: Read<Value>)
    ensures r.Ok? ==> |r.value.1| <= |t|
    decreases |t|, 3, 0
  {
    if m < 0xc0 then DecodeFixFormat(m, t, d)
    else if m < 0xd0 then DecodeScalar(m, t)
    else DecodeSizedFormat(m, t, d)
  }

  /** Markers below 0xc0: positive fixint, fixmap, fixarray and fixstr, whose length is in the
      marker itself. */
  function DecodeFixFormat(m: byte, t: seq<byte>, d: nat): (r: Read<Value>)
    requires m < 0xc0
    ensures r.Ok? ==> |r.value.1| <= |t|
    decreases |t|, 2, 0
  {
    if m < 0x80 then Ok((UInt(m), t))
    else if m < 0x90 then MapOf(DecodeEntries(m - 0x80, t, d))
    else if m < 0xa0 then ArrayOf(DecodeItems(m - 0x90, t, d))
    else StrOf(ReadBytes(t, m - 0xa0))
  }

  /** Markers 0xc0 to 0xcf: nil, the booleans, bin 8/16/32 and uint 8/16/32/64. */
  function DecodeScalar(m: byte, t: seq<byte>): (r: Read<Value>)
    ensures r.Ok? ==> |r.value.1| <= |t|
  {
    Pow256Values();
    if m == 0xc0 then Ok((Nil, t))
    else if m == 0xc2 then Ok((Boolean(false), t))
    else if m == 0xc3 then Ok((Boolean(true), t))
    else if m == 0xc4 then BinOf(ReadSized(t, 1))
    else if m == 0xc5 then BinOf(ReadSized(t, 2))
    else if m == 0xc6 then BinOf(ReadSized(t, 4))
    else if m == 0xcc then UIntOf(ReadNumber(t, 1))
    else if m == 0xcd then UIntOf(ReadNumber(t, 2))
    else if m == 0xce then UIntOf(ReadNumber(t, 4))
    else if m == 0xcf then UIntOf(ReadNumber(t, 8))
    else Err(OutsideSubset(m))
  }

  /** Markers from 0xd0: str 8/16/32, array 16/32 and map 16/32, whose length follows the
      marker. */
  function DecodeSizedFormat(m: byte, t: seq<byte>, d: nat): (r: Read<Value>)
    ensures r.Ok? ==> |r.value.1| <= |t|
    decreases |t|, 2, 0
  {
    if m == 0xd9 then StrOf(ReadSized(t, 1))
    else if m == 0xda then StrOf(ReadSized(t, 2))
    else if m == 0xdb then StrOf(ReadSized(t, 4))
    else if m == 0xdc || m == 0xdd then
      match ReadNumber(t, if m == 0xdc then 2 else 4)
      case Err(e) => Err(e)
      case Ok((n, u)) => ArrayOf(DecodeItems(n, u, d))
    else if m == 0xde || m == 0xdf then
      match ReadNumber(t, if m == 0xde then 2 else 4)
      case Err(e) => Err(e)
      case Ok((n, u)) => MapOf(DecodeEntries(n, u, d))
    else Err(OutsideSubset(m))
  }

  /** n values one after the other. */
  function DecodeItems(n: nat, s: seq<byte>, d: nat): (r: Read<seq<Value>>)
    ensures r.Ok? ==> |r.value.1| <= |s| && |r.value.0| == n
    decreases |s|, 1, n
  {
    if n == 0 then Ok(([], s))
    else
      match DecodeValue(s, d)
      case Err(e) => Err(e)
      case Ok((v, u)) =>
        match DecodeItems(n - 1, u, d)
        case Err(e) => Err(e)
        case Ok((vs, w)) => Ok(([v] + vs, w))
  }

  /** n key/value pairs one after the other. */
  function DecodeEntries(n: nat, s: seq<byte>, d: nat): (r: Read<seq<Entry>>)
    ensures r.Ok? ==> |r.value.1| <= |s| && |r.value.0| == n
    decreases |s|, 1, n
  {
    if n == 0 then Ok(([], s))
    else
      match DecodeValue(s, d)
      case Err(e) => Err(e)
      case Ok((k, u)) =>
        match DecodeValue(u, d)
        case Err(e) => Err(e)
        case Ok((v, w)) =>
          match DecodeEntries(n - 1, w, d)
          case Err(e) => Err(e)
          case Ok((es, x)) => Ok(([Entry(k, v)] + es, x))
  }

  // ---------------------------------------------------------------- rmp readers

  /** rmp's `read_marker`: the first byte. */
  function ReadMarker(s: seq<byte>): (r: Result<(byte, seq<byte>), MarkerReadError>)
    ensures r.Ok? <==> |s| > 0
    ensures r.Ok? ==> r.value == (s[0], s[1..])
    ensures r.Err? ==> r.error == MarkerReadError(UnexpectedEof)
  {
    if |s| == 0 then Err(MarkerReadError(UnexpectedEof)) else Ok((s[0], s[1..]))
  }

  /** rmp's `read_u32`: the uint 32 marker followed by four big-endian bytes. */
  function ReadU32(s: seq<byte>): (r: Result<(u32, seq<byte>), ValueReadError>)
    ensures r.Ok? <==> |s| >= 5 && s[0] == 0xce
    ensures r.Ok? ==> BigEndian(r.value.0, 4) == s[1..5] && r.value.1 == s[5..]
    ensures |s| == 0 ==> r == Err(ValueReadError.InvalidMarkerRead(UnexpectedEof))
    ensures |s| > 0 && s[0] != 0xce ==> r == Err(TypeMismatch(s[0]))
    ensures |s| > 0 && s[0] == 0xce && |s| < 5 ==> r == Err(ValueReadError.InvalidDataRead(UnexpectedEof))
  {
    Pow256Values();
    if |s| == 0 then Err(ValueReadError.InvalidMarkerRead(UnexpectedEof))
    else if s[0] != 0xce then Err(TypeMismatch(s[0]))
    else if |s| < 5 then Err(ValueReadError.InvalidDataRead(UnexpectedEof))
    else
      FromBigEndianRoundTrip(s[1..5]);
      Ok((FromBigEndian(s[1..5]), s[5..]))
  }

  // ---------------------------------------------------------------- round trip

  /** v is written and read back unchanged: every length fits rmp's u32 and every string
      is UTF-8 (a Rust `String` always is). */
  predicate Encodable(v: Value)
    decreases v
  {
    match v
    case Str(s) => |s| < LengthLimit && IsUtf8(s)
    case Bin(s) => |s| < LengthLimit
    case Array(items) => |items| < LengthLimit && ItemsEncodable(items)
    case Map(entries) => |entries| < LengthLimit && EntriesEncodable(entries)
    case _ => true
  }

  predicate ItemsEncodable(items: seq<Value>)
    decreases items
  {
    |items| == 0 || (Encodable(items[0]) && ItemsEncodable(items[1..]))
  }

  predicate EntriesEncodable(entries: seq<Entry>)
    decreases entries
  {
    |entries| == 0 || (EntryEncodable(entries[0]) && EntriesEncodable(entries[1..]))
  }

  predicate EntryEncodable(e: Entry)
    decreases e
  {
    Encodable(e.key) && Encodable(e.val)
  }

  function Max(a: nat, b: nat): nat { if a < b then b else a }

  /** The number of nesting levels of v: the depth budget rmpv needs to read it. */
  function Depth(v: Value): (n: nat)
    ensures n >= 1
    decreases v
  {
    match v
    case Array(items) => 1 + ItemsDepth(items)
    case Map(entries) => 1 + EntriesDepth(entries)
    case _ => 1
  }

  function ItemsDepth(items: seq<Value>): nat
    decreases items
  {
    if |items| == 0 then 0 else Max(Depth(items[0]), ItemsDepth(items[1..]))
  }

  function EntriesDepth(entries: seq<Entry>): nat
    decreases entries
  {
    if |entries| == 0 then 0 else Max(EntryDepth(entries[0]), EntriesDepth(entries[1..]))
  }

  function EntryDepth(e: Entry): nat
    decreases e
  {
    Max(Depth(e.key), Depth(e.val))
  }

  lemma ReadNumberOf(n: nat, k: nat, rest: seq<byte>)
    requires n < Pow256(k)
    ensures ReadNumber(BigEndian(n, k) + rest, k) == Ok((n, rest))
  {
    BigEndianRoundTrip(n, k);
    var s := BigEndian(n, k) + rest;
    assert s[..k] == BigEndian(n, k);
    assert s[k..] == rest;
  }

  lemma ReadSizedOf(data: seq<byte>, k: nat, rest: seq<byte>)
    requires |data| < Pow256(k)
    ensures ReadSized(BigEndian(|data|, k) + (data + rest), k) == Ok((data, rest))
  {
    ReadNumberOf(|data|, k, data + rest);
    assert (data + rest)[..|data|] == data;
    assert (data + rest)[|data|..] == rest;
  }

  /** Reading a value is reading its marker and then the body the marker announces. */
  lemma DecodeValueStep(s: seq<byte>, d: nat)
    requires |s| > 0
    ensures DecodeValue(s, d + 1) == DecodeBody(s[0], s[1..], d)
  {
  }

  /** Reading n + 1 values is reading one and then n. */
  lemma DecodeItemsCons(n: nat, s: seq<byte>, d: nat, v: Value, t: seq<byte>, vs: seq<Value>, u: seq<byte>)
    requires DecodeValue(s, d) == Ok((v, t)) && DecodeItems(n, t, d) == Ok((vs, u))
    ensures DecodeItems(n + 1, s, d) == Ok(([v] + vs, u))
  {
  }

  /** A value's bytes start with its marker: reading it is reading the body after the marker. */
  lemma MarkerStep(m: byte, t: seq<byte>, d: nat)
    ensures DecodeValue([m] + t, d + 1) == DecodeBody(m, t, d)
  {
    var s := [m] + t;
    assert s[0] == m && s[1..] == t;
  }

  lemma UIntDecode(n: u64, rest: seq<byte>, d: nat)
    ensures DecodeValue(UIntBytes(n) + rest, d + 1) == Ok((UInt(n), rest))
  {
    if n < 0x80 {
      assert UIntBytes(n) + rest == [n] + rest;
      MarkerStep(n, rest, d);
      assert DecodeBody(n, rest, d) == DecodeFixFormat(n, rest, d);
    } else if n < 0x100 {
      SizedUIntDecode(n, rest, d, 0xcc, 1);
    } else if n < 0x1_0000 {
      SizedUIntDecode(n, rest, d, 0xcd, 2);
    } else if n < 0x1_0000_0000 {
      SizedUIntDecode(n, rest, d, 0xce, 4);
    } else {
      SizedUIntDecode(n, rest, d, 0xcf, 8);
    }
  }

  /** uint 8, 16, 32 and 64: the marker m, then the number in k bytes. */
  lemma SizedUIntDecode(n: u64, rest: seq<byte>, d: nat, m: byte, k: nat)
    requires || (m == 0xcc && k == 1 && 0x80 <= n < 0x100)
             || (m == 0xcd && k == 2 && 0x100 <= n < 0x1_0000)
             || (m == 0xce && k == 4 && 0x1_0000 <= n < 0x1_0000_0000)
             || (m == 0xcf && k == 8 && 0x1_0000_0000 <= n)
    ensures DecodeValue(UIntBytes(n) + rest, d + 1) == Ok((UInt(n), rest))
  {
    UIntBytesSized(n, m, k);
    var t := BigEndian(n, k) + rest;
    assert UIntBytes(n) + rest == [m] + t;
    MarkerStep(m, t, d);
    ReadNumberOf(n, k, rest);
    UIntMarker(m, k, t, d, n, rest);
  }

  lemma UIntBytesSized(n: u64, m: byte, k: nat)
    requires || (m == 0xcc && k == 1 && 0x80 <= n < 0x100)
             || (m == 0xcd && k == 2 && 0x100 <= n < 0x1_0000)
             || (m == 0xce && k == 4 && 0x1_0000 <= n < 0x1_0000_0000)
             || (m == 0xcf && k == 8 && 0x1_0000_0000 <= n)
    ensures n < Pow256(k) && UIntBytes(n) == [m] + BigEndian(n, k)
  {
    Pow256Values();
    if k == 1 {
      assert BigEndian(n, 1) == BigEndian(0, 0) + [n];
    }
  }

  /** The marker of a uint reads a k-byte number. */
  lemma UIntMarker(m: byte, k: nat, t: seq<byte>, d: nat, n: nat, rest: seq<byte>)
    requires (m == 0xcc && k == 1) || (m == 0xcd && k == 2) || (m == 0xce && k == 4) || (m == 0xcf && k == 8)
    requires n < 0x1_0000_0000_0000_0000 && ReadNumber(t, k) == Ok((n, rest))
    ensures DecodeBody(m, t, d) == Ok((UInt(n), rest))
  {
    assert DecodeBody(m, t, d) == DecodeScalar(m, t);
  }

  lemma StrDecode(data: seq<byte>, rest: seq<byte>, d: nat)
    requires |data| < LengthLimit
    ensures DecodeValue(StrHeader(|data|) + data + rest, d + 1) == Ok((Str(data), rest))
  {
    var n := |data|;
    if n < 32 {
      FixStrDecode(data, rest, d);
    } else if n < 0x100 {
      SizedStrDecode(data, rest, d, 0xd9, 1);
    } else if n < 0x1_0000 {
      SizedStrDecode(data, rest, d, 0xda, 2);
    } else {
      SizedStrDecode(data, rest, d, 0xdb, 4);
    }
  }

  lemma FixStrDecode(data: seq<byte>, rest: seq<byte>, d: nat)
    requires |data| < 32
    ensures DecodeValue(StrHeader(|data|) + data + rest, d + 1) == Ok((Str(data), rest))
  {
    var n := |data|;
    var s := StrHeader(n) + data + rest;
    assert StrHeader(n) == [0xa0 + n];
    DecodeValueStep(s, d);
    assert s[0] == 0xa0 + n && s[1..] == data + rest;
    assert (data + rest)[..n] == data && (data + rest)[n..] == rest;
    assert ReadBytes(data + rest, n) == Ok((data, rest));
    assert DecodeBody(s[0], s[1..], d) == DecodeFixFormat(s[0], s[1..], d);
  }

  /** str 8, str 16 and str 32: the marker m, then the length in k bytes. */
  lemma SizedStrDecode(data: seq<byte>, rest: seq<byte>, d: nat, m: byte, k: nat)
    requires |data| < LengthLimit
    requires || (m == 0xd9 && k == 1 && 32 <= |data| < 0x100)
             || (m == 0xda && k == 2 && 0x100 <= |data| < 0x1_0000)
             || (m == 0xdb && k == 4 && 0x1_0000 <= |data|)
    ensures DecodeValue(StrHeader(|data|) + data + rest, d + 1) == Ok((Str(data), rest))
  {
    Pow256Values();
    var n := |data|;
    var s := StrHeader(n) + data + rest;
    assert StrHeader(n) == [m] + BigEndian(n, k);
    DecodeValueStep(s, d);
    assert s[0] == m && s[1..] == BigEndian(n, k) + (data + rest);
    ReadSizedOf(data, k, rest);
    assert DecodeBody(s[0], s[1..], d) == DecodeSizedFormat(s[0], s[1..], d);
  }

  lemma BinDecode(data: seq<byte>, rest: seq<byte>, d: nat)
    requires |data| < LengthLimit
    ensures DecodeValue(BinHeader(|data|) + data + rest, d + 1) == Ok((Bin(data), rest))
  {
    var n := |data|;
    if n < 0x100 {
      SizedBinDecode(data, rest, d, 0xc4, 1);
    } else if n < 0x1_0000 {
      SizedBinDecode(data, rest, d, 0xc5, 2);
    } else {
      SizedBinDecode(data, rest, d, 0xc6, 4);
    }
  }

  /** bin 8, bin 16 and bin 32: the marker m, then the length in k bytes. */
  lemma SizedBinDecode(data: seq<byte>, rest: seq<byte>, d: nat, m: byte, k: nat)
    requires || (m == 0xc4 && k == 1 && |data| < 0x100)
             || (m == 0xc5 && k == 2 && 0x100 <= |data| < 0x1_0000)
             || (m == 0xc6 && k == 4 && 0x1_0000 <= |data| < LengthLimit)
    ensures DecodeValue(BinHeader(|data|) + data + rest, d + 1) == Ok((Bin(data), rest))
  {
    BinHeaderSized(|data|, m, k);
    var t := BigEndian(|data|, k) + (data + rest);
    assert BinHeader(|data|) + data + rest == [m] + t;
    MarkerStep(m, t, d);
    ReadSizedOf(data, k, rest);
    BinMarker(m, k, t, d, data, rest);
  }

  lemma BinHeaderSized(n: u32, m: byte, k: nat)
    requires || (m == 0xc4 && k == 1 && n < 0x100)
             || (m == 0xc5 && k == 2 && 0x100 <= n < 0x1_0000)
             || (m == 0xc6 && k == 4 && 0x1_0000 <= n)
    ensures n < Pow256(k) && BinHeader(n) == [m] + BigEndian(n, k)
  {
    Pow256Values();
    if k == 1 {
      assert BigEndian(n, 1) == BigEndian(0, 0) + [n];
    }
  }

  /** The marker of a bin reads a k-byte length, then that many bytes. */
  lemma BinMarker(m: byte, k: nat, t: seq<byte>, d: nat, data: seq<byte>, rest: seq<byte>)
    requires (m == 0xc4 && k == 1) || (m == 0xc5 && k == 2) || (m == 0xc6 && k == 4)
    requires ReadSized(t, k) == Ok((data, rest))
    ensures DecodeBody(m, t, d) == Ok((Bin(data), rest))
  {
    assert DecodeBody(m, t, d) == DecodeScalar(m, t);
  }

  lemma ArrayHeaderDecode(n: u32, body: seq<byte>, d: nat)
    ensures DecodeValue(ArrayHeader(n) + body, d + 1) == ArrayOf(DecodeItems(n, body, d))
  {
    if n < 16 {
      assert ArrayHeader(n) + body == [0x90 + n] + body;
      MarkerStep(0x90 + n, body, d);
      assert DecodeBody(0x90 + n, body, d) == DecodeFixFormat(0x90 + n, body, d);
    } else if n < 0x1_0000 {
      SizedArrayHeaderDecode(n, body, d, 0xdc, 2);
    } else {
      SizedArrayHeaderDecode(n, body, d, 0xdd, 4);
    }
  }

  /** array 16 and array 32: the marker m, then the count in k bytes. */
  lemma SizedArrayHeaderDecode(n: u32, body: seq<byte>, d: nat, m: byte, k: nat)
    requires || (m == 0xdc && k == 2 && 16 <= n < 0x1_0000)
             || (m == 0xdd && k == 4 && 0x1_0000 <= n)
    ensures DecodeValue(ArrayHeader(n) + body, d + 1) == ArrayOf(DecodeItems(n, body, d))
  {
    ArrayHeaderSized(n, m, k);
    var t := BigEndian(n, k) + body;
    assert ArrayHeader(n) + body == [m] + t;
    MarkerStep(m, t, d);
    ReadNumberOf(n, k, body);
    ArrayMarker(m, k, t, d, n, body);
  }

  lemma ArrayHeaderSized(n: u32, m: byte, k: nat)
    requires || (m == 0xdc && k == 2 && 16 <= n < 0x1_0000)
             || (m == 0xdd && k == 4 && 0x1_0000 <= n)
    ensures n < Pow256(k) && ArrayHeader(n) == [m] + BigEndian(n, k)
  {
    Pow256Values();
  }

  /** The marker of a array 16 or 32 reads a k-byte count. */
  lemma ArrayMarker(m: byte, k: nat, t: seq<byte>, d: nat, n: nat, body: seq<byte>)
    requires (m == 0xdc && k == 2) || (m == 0xdd && k == 4)
    requires ReadNumber(t, k) == Ok((n, body))
    ensures DecodeBody(m, t, d) == ArrayOf(DecodeItems(n, body, d))
  {
    assert DecodeBody(m, t, d) == DecodeSizedFormat(m, t, d);
  }


  lemma MapHeaderDecode(n: u32, body: seq<byte>, d: nat)
    ensures DecodeValue(MapHeader(n) + body, d + 1) == MapOf(DecodeEntries(n, body, d))
  {
    if n < 16 {
      assert MapHeader(n) + body == [0x80 + n] + body;
      MarkerStep(0x80 + n, body, d);
      assert DecodeBody(0x80 + n, body, d) == DecodeFixFormat(0x80 + n, body, d);
    } else if n < 0x1_0000 {
      SizedMapHeaderDecode(n, body, d, 0xde, 2);
    } else {
      SizedMapHeaderDecode(n, body, d, 0xdf, 4);
    }
  }

  /** map 16 and map 32: the marker m, then the count in k bytes. */
  lemma SizedMapHeaderDecode(n: u32, body: seq<byte>, d: nat, m: byte, k: nat)
    requires || (m == 0xde && k == 2 && 16 <= n < 0x1_0000)
             || (m == 0xdf && k == 4 && 0x1_0000 <= n)
    ensures DecodeValue(MapHeader(n) + body, d + 1) == MapOf(DecodeEntries(n, body, d))
  {
    MapHeaderSized(n, m, k);
    var t := BigEndian(n, k) + body;
    assert MapHeader(n) + body == [m] + t;
    MarkerStep(m, t, d);
    ReadNumberOf(n, k, body);
    MapMarker(m, k, t, d, n, body);
  }

  lemma MapHeaderSized(n: u32, m: byte, k: nat)
    requires || (m == 0xde && k == 2 && 16 <= n < 0x1_0000)
             || (m == 0xdf && k == 4 && 0x1_0000 <= n)
    ensures n < Pow256(k) && MapHeader(n) == [m] + BigEndian(n, k)
  {
    Pow256Values();
  }

  /** The marker of a map 16 or 32 reads a k-byte count. */
  lemma MapMarker(m: byte, k: nat, t: seq<byte>, d: nat, n: nat, body: seq<byte>)
    requires (m == 0xde && k == 2) || (m == 0xdf && k == 4)
    requires ReadNumber(t, k) == Ok((n, body))
    ensures DecodeBody(m, t, d) == MapOf(DecodeEntries(n, body, d))
  {
    assert DecodeBody(m, t, d) == DecodeSizedFormat(m, t, d);
  }

  /** Reading back what `Encode` wrote gives the value and leaves the bytes after it. */
  lemma {:induction false} DecodeEncode(v: Value, rest: seq<byte>, depth: nat)
    requires Encodable(v) && Depth(v) <= depth
    ensures DecodeValue(Encode(v) + rest, depth) == Ok((v, rest))
    decreases v
  {
    match v
    case Array(items) =>
      DecodeEncodeArray(items, rest, depth - 1);
    case Map(entries) =>
      DecodeEncodeMap(entries, rest, depth - 1);
    case _ =>
      DecodeEncodeScalar(v, rest, depth - 1);
  }

  lemma DecodeEncodeScalar(v: Value, rest: seq<byte>, d: nat)
    requires !v.Array? && !v.Map? && Encodable(v)
    ensures DecodeValue(Encode(v) + rest, d + 1) == Ok((v, rest))
  {
    match v
    case Nil => NilDecode(rest, d);
    case Boolean(b) => BooleanDecode(b, rest, d);
    case UInt(n) => UIntValueDecode(n, rest, d);
    case Str(s) => StrValueDecode(s, rest, d);
    case Bin(s) => BinValueDecode(s, rest, d);
  }

  lemma NilDecode(rest: seq<byte>, d: nat)
    ensures DecodeValue(Encode(Nil) + rest, d + 1) == Ok((Nil, rest))
  {
    assert Encode(Nil) + rest == [0xc0] + rest;
    MarkerStep(0xc0, rest, d);
  }

  lemma BooleanDecode(b: bool, rest: seq<byte>, d: nat)
    ensures DecodeValue(Encode(Boolean(b)) + rest, d + 1) == Ok((Boolean(b), rest))
  {
    var m: byte := if b then 0xc3 else 0xc2;
    assert Encode(Boolean(b)) + rest == [m] + rest;
    MarkerStep(m, rest, d);
  }

  lemma UIntValueDecode(n: u64, rest: seq<byte>, d: nat)
    ensures DecodeValue(Encode(UInt(n)) + rest, d + 1) == Ok((UInt(n), rest))
  {
    assert Encode(UInt(n)) == UIntBytes(n);
    UIntDecode(n, rest, d);
  }

  lemma StrValueDecode(s: seq<byte>, rest: seq<byte>, d: nat)
    requires |s| < LengthLimit && IsUtf8(s)
    ensures DecodeValue(Encode(Str(s)) + rest, d + 1) == Ok((Str(s), rest))
  {
    SmallLength(|s|);
    assert Encode(Str(s)) == StrHeader(|s|) + s;
    StrDecode(s, rest, d);
  }

  lemma BinValueDecode(s: seq<byte>, rest: seq<byte>, d: nat)
    requires |s| < LengthLimit
    ensures DecodeValue(Encode(Bin(s)) + rest, d + 1) == Ok((Bin(s), rest))
  {
    SmallLength(|s|);
    assert Encode(Bin(s)) == BinHeader(|s|) + s;
    BinDecode(s, rest, d);
  }

  lemma {:induction false} DecodeEncodeArray(items: seq<Value>, rest: seq<byte>, d: nat)
    requires |items| < LengthLimit && ItemsEncodable(items) && ItemsDepth(items) <= d
    ensures DecodeValue(Encode(Array(items)) + rest, d + 1) == Ok((Array(items), rest))
    decreases items, 1
  {
    ArrayLayout(items, rest);
    ArrayHeaderDecode(|items|, EncodeItems(items) + rest, d);
    DecodeEncodeItems(items, rest, d);
  }

  lemma SmallLength(n: nat)
    requires n < LengthLimit
    ensures n % LengthLimit == n
  {
  }

  lemma ArrayLayout(items: seq<Value>, rest: seq<byte>)
    requires |items| < LengthLimit
    ensures Encode(Array(items)) + rest == ArrayHeader(|items|) + (EncodeItems(items) + rest)
  {
    SmallLength(|items|);
    assert Encode(Array(items)) == ArrayHeader(|items|) + EncodeItems(items);
  }

  lemma {:induction false} DecodeEncodeMap(entries: seq<Entry>, rest: seq<byte>, d: nat)
    requires |entries| < LengthLimit && EntriesEncodable(entries) && EntriesDepth(entries) <= d
    ensures DecodeValue(Encode(Map(entries)) + rest, d + 1) == Ok((Map(entries), rest))
    decreases entries, 1
  {
    MapLayout(entries, rest);
    MapHeaderDecode(|entries|, EncodeEntries(entries) + rest, d);
    DecodeEncodeEntries(entries, rest, d);
  }

  lemma MapLayout(entries: seq<Entry>, rest: seq<byte>)
    requires |entries| < LengthLimit
    ensures Encode(Map(entries)) + rest == MapHeader(|entries|) + (EncodeEntries(entries) + rest)
  {
    SmallLength(|entries|);
    assert Encode(Map(entries)) == MapHeader(|entries|) + EncodeEntries(entries);
  }

  lemma {:induction false} DecodeEncodeItems(items: seq<Value>, rest: seq<byte>, d: nat)
    requires ItemsEncodable(items) && ItemsDepth(items) <= d
    ensures DecodeItems(|items|, EncodeItems(items) + rest, d) == Ok((items, rest))
    decreases items, 0
  {
    if |items| > 0 {
      var tail := EncodeItems(items[1..]) + rest;
      assert EncodeItems(items) + rest == Encode(items[0]) + tail;
      DecodeEncode(items[0], tail, d);
      DecodeEncodeItems(items[1..], rest, d);
      assert DecodeItems(|items| - 1, tail, d) == Ok((items[1..], rest));
      assert [items[0]] + items[1..] == items;
    } else {
      assert EncodeItems(items) + rest == rest;
    }
  }

  lemma {:induction false} DecodeEncodeEntries(entries: seq<Entry>, rest: seq<byte>, d: nat)
    requires EntriesEncodable(entries) && EntriesDepth(entries) <= d
    ensures DecodeEntries(|entries|, EncodeEntries(entries) + rest, d) == Ok((entries, rest))
    decreases entries, 0
  {
    if |entries| > 0 {
      var tail := EncodeEntries(entries[1..]) + rest;
      assert EncodeEntries(entries) + rest == Encode(entries[0].key) + (Encode(entries[0].val) + tail);
      DecodeEncodeEntry(entries[0], tail, d);
      DecodeEncodeEntries(entries[1..], rest, d);
      assert DecodeEntries(|entries| - 1, tail, d) == Ok((entries[1..], rest));
      assert [Entry(entries[0].key, entries[0].val)] + entries[1..] == entries;
    } else {
      assert EncodeEntries(entries) + rest == rest;
    }
  }

  lemma {:induction false} DecodeEncodeEntry(e: Entry, tail: seq<byte>, d: nat)
    requires EntryEncodable(e) && EntryDepth(e) <= d
    ensures DecodeValue(Encode(e.key) + (Encode(e.val) + tail), d) == Ok((e.key, Encode(e.val) + tail))
    ensures DecodeValue(Encode(e.val) + tail, d) == Ok((e.val, tail))
    decreases e
  {
    DecodeEncode(e.key, Encode(e.val) + tail, d);
    DecodeEncode(e.val, tail, d);
  }
}
