/** The frame layer of the protocol crate: the version handshake packet the server sends
    first, and `ClientPacket::try_from`, which reads the two-element array
    `[address, payload]` a client sends and dispatches on the address's category. */
module Protocol {
  import opened Bytes
  import opened Wrappers
  import opened Msgpack
  import opened PacketDerive
  import opened Categories
  import opened ProtocolErrors
  import opened OpcodeTables

  const VersionMajor: byte := 0
  const VersionMinor: byte := 0
  const VersionPatch: byte := 1

  /** `EXTENSIONS`; each extension name is a UTF-8 string. */
  const Extensions: seq<seq<byte>> := []

  /** rmp's `ValueWriteError`; writing into a `Vec` never produces one. */
  datatype ValueWriteError = InvalidMarkerWrite | InvalidDataWrite

  // ---------------------------------------------------------------- protocol_version_packet

  /** The array of two, the array of three and the three version numbers, each written by
      `write_u8` in the uint 8 format. */
  function VersionPrefix(): seq<byte> {
    [0x92, 0x93, 0xcc, VersionMajor, 0xcc, VersionMinor, 0xcc, VersionPatch]
  }

  /** `write_str` of one extension name: its length and then its bytes. */
  function ExtensionBytes(ext: seq<byte>): seq<byte> {
    StrHeader(|ext| % LengthLimit) + ext
  }

  function ExtensionsBytes(exts: seq<seq<byte>>): seq<byte> {
    if |exts| == 0 then [] else ExtensionBytes(exts[0]) + ExtensionsBytes(exts[1..])
  }

  /** The handshake packet: `[[major, minor, patch], [extension, ...]]`. */
  function VersionPacketBytes(exts: seq<seq<byte>>): seq<byte> {
    VersionPrefix() + ArrayHeader(|exts| % LengthLimit) + ExtensionsBytes(exts)
  }

  /** What the loop of `protocol_version_packet` writes per extension: `write_str_len` and
      then `write_str`, which writes the length a second time. */
  function ExtensionBytesAsWritten(ext: seq<byte>): seq<byte> {
    StrHeader(|ext| % LengthLimit) + StrHeader(|ext| % LengthLimit) + ext
  }

  function ExtensionsBytesAsWritten(exts: seq<seq<byte>>): seq<byte> {
    if |exts| == 0 then [] else ExtensionBytesAsWritten(exts[0]) + ExtensionsBytesAsWritten(exts[1..])
  }

  function VersionPacketBytesAsWritten(exts: seq<seq<byte>>): seq<byte> {
    VersionPrefix() + ArrayHeader(|exts| % LengthLimit) + ExtensionsBytesAsWritten(exts)
  }

  lemma VersionHeaders()
    ensures ArrayHeader(2) == [0x92] && ArrayHeader(3) == [0x93]
  {
  }

  lemma ExtensionsStep(exts: seq<seq<byte>>, i: nat)
    requires i < |exts|
    ensures ExtensionsBytes(exts[i..]) == ExtensionBytes(exts[i]) + ExtensionsBytes(exts[i + 1..])
  {
    assert exts[i..][1..] == exts[i + 1..];
  }

  lemma ExtensionsAsWrittenStep(exts: seq<seq<byte>>, i: nat)
    requires i < |exts|
    ensures ExtensionsBytesAsWritten(exts[i..])
         == ExtensionBytesAsWritten(exts[i]) + ExtensionsBytesAsWritten(exts[i + 1..])
  {
    assert exts[i..][1..] == exts[i + 1..];
  }

  /** Proof helper: appending the header and then the header with the name is appending the
      doubled form. */
  lemma AppendTwice(before: seq<byte>, header: seq<byte>, ext: seq<byte>, after: seq<byte>)
    ensures before + header + (header + ext) + after == before + (header + header + ext + after)
  {
  }

  /** `protocol_version_packet` over the given extension list, appending to a buffer step by
      step, with each extension written once. */
  method ProtocolVersionPacket(extensions: seq<seq<byte>>) returns (r: Result<seq<byte>, ValueWriteError>)
    ensures r == Ok(VersionPacketBytes(extensions))
  {
    VersionHeaders();
    var buffer: seq<byte> := [];
    buffer := buffer + ArrayHeader(2);
    buffer := buffer + ArrayHeader(3);
    buffer := buffer + [0xcc, VersionMajor];
    buffer := buffer + [0xcc, VersionMinor];
    buffer := buffer + [0xcc, VersionPatch];
    buffer := buffer + ArrayHeader(|extensions| % LengthLimit);
    assert buffer == VersionPrefix() + ArrayHeader(|extensions| % LengthLimit);
    var i := 0;
    while i < |extensions|
      invariant 0 <= i <= |extensions|
      invariant buffer + ExtensionsBytes(extensions[i..]) == VersionPacketBytes(extensions)
    {
      ExtensionsStep(extensions, i);
      buffer := buffer + ExtensionBytes(extensions[i]);
      i := i + 1;
    }
    assert extensions[i..] == [];
    assert buffer + ExtensionsBytes(extensions[i..]) == buffer;
    return Ok(buffer);
  }

  /** `protocol_version_packet` as written, with the doubled length per extension. */
  method ProtocolVersionPacketAsWritten(extensions: seq<seq<byte>>) returns (r: Result<seq<byte>, ValueWriteError>)
    ensures r == Ok(VersionPacketBytesAsWritten(extensions))
  {
    VersionHeaders();
    var buffer: seq<byte> := [];
    buffer := buffer + ArrayHeader(2);
    buffer := buffer + ArrayHeader(3);
    buffer := buffer + [0xcc, VersionMajor];
    buffer := buffer + [0xcc, VersionMinor];
    buffer := buffer + [0xcc, VersionPatch];
    buffer := buffer + ArrayHeader(|extensions| % LengthLimit);
    assert buffer == VersionPrefix() + ArrayHeader(|extensions| % LengthLimit);
    var i := 0;
    while i < |extensions|
      invariant 0 <= i <= |extensions|
      invariant buffer + ExtensionsBytesAsWritten(extensions[i..]) == VersionPacketBytesAsWritten(extensions)
    {
      ExtensionsAsWrittenStep(extensions, i);
      ghost var before := buffer;
      var header := StrHeader(|extensions[i]| % LengthLimit);
      buffer := buffer + header;
      buffer := buffer + (header + extensions[i]);
      AppendTwice(before, header, extensions[i], ExtensionsBytesAsWritten(extensions[i + 1..]));
      i := i + 1;
    }
    assert extensions[i..] == [];
    assert buffer + ExtensionsBytesAsWritten(extensions[i..]) == buffer;
    return Ok(buffer);
  }

  function StrValues(exts: seq<seq<byte>>): (r: seq<Value>)
    ensures |r| == |exts| && forall i :: 0 <= i < |exts| ==> r[i] == Str(exts[i])
  {
    if |exts| == 0 then [] else [Str(exts[0])] + StrValues(exts[1..])
  }

  /** The value the handshake packet carries. */
  function VersionValue(exts: seq<seq<byte>>): Value {
    Array([Array([UInt(VersionMajor), UInt(VersionMinor), UInt(VersionPatch)]), Array(StrValues(exts))])
  }

  lemma U8Decode(n: byte, rest: seq<byte>, d: nat)
    ensures DecodeValue([0xcc, n] + rest, d + 1) == Ok((UInt(n), rest))
  {
    Pow256Values();
    var s := [0xcc, n] + rest;
    DecodeValueStep(s, d);
    assert s[1..] == [n] + rest;
    ReadNumberOf(n, 1, rest);
    assert BigEndian(n, 1) == [n];
    assert DecodeBody(s[0], s[1..], d) == DecodeScalar(s[0], s[1..]);
  }

  /** Whatever follows the version numbers is read as the second element of the packet. */
  lemma VersionPrefixDecode(tail: seq<byte>, x: Value, rest: seq<byte>)
    requires DecodeValue(tail, MaxDepth - 1) == Ok((x, rest))
    ensures DecodeValue(VersionPrefix() + tail, MaxDepth)
         == Ok((Array([Array([UInt(VersionMajor), UInt(VersionMinor), UInt(VersionPatch)]), x]), rest))
  {
    Pow256Values();
    var d := MaxDepth - 1;
    var s3 := [0xcc, VersionPatch] + tail;
    var s2 := [0xcc, VersionMinor] + s3;
    var s1 := [0xcc, VersionMajor] + s2;
    var s0 := [0x93] + s1;
    assert VersionPrefix() + tail == ArrayHeader(2) + s0;
    assert s0 == ArrayHeader(3) + s1;
    U8Decode(VersionMajor, s2, d - 2);
    U8Decode(VersionMinor, s3, d - 2);
    U8Decode(VersionPatch, tail, d - 2);
    DecodeItemsCons(0, s3, d - 1, UInt(VersionPatch), tail, [], tail);
    assert [UInt(VersionPatch)] + [] == [UInt(VersionPatch)];
    DecodeItemsCons(1, s2, d - 1, UInt(VersionMinor), s3, [UInt(VersionPatch)], tail);
    assert [UInt(VersionMinor)] + [UInt(VersionPatch)] == [UInt(VersionMinor), UInt(VersionPatch)];
    DecodeItemsCons(2, s1, d - 1, UInt(VersionMajor), s2, [UInt(VersionMinor), UInt(VersionPatch)], tail);
    assert [UInt(VersionMajor)] + [UInt(VersionMinor), UInt(VersionPatch)]
        == [UInt(VersionMajor), UInt(VersionMinor), UInt(VersionPatch)];
    ArrayHeaderDecode(3, s1, d - 1);
    var inner := Array([UInt(VersionMajor), UInt(VersionMinor), UInt(VersionPatch)]);
    assert DecodeValue(s0, d) == Ok((inner, tail));
    DecodeItemsCons(0, tail, d, x, rest, [], rest);
    assert [x] + [] == [x];
    DecodeItemsCons(1, s0, d, inner, tail, [x], rest);
    assert [inner] + [x] == [inner, x];
    ArrayHeaderDecode(2, s0, d);
  }

  lemma {:induction false} ExtensionsAreItems(exts: seq<seq<byte>>)
    requires forall i :: 0 <= i < |exts| ==> Utf8.IsUtf8(exts[i]) && |exts[i]| < LengthLimit
    ensures ExtensionsBytes(exts) == EncodeItems(StrValues(exts))
    ensures ItemsEncodable(StrValues(exts)) && ItemsDepth(StrValues(exts)) <= 1
    decreases |exts|
  {
    if |exts| > 0 {
      var vs := StrValues(exts);
      assert vs[1..] == StrValues(exts[1..]);
      ExtensionsAreItems(exts[1..]);
    }
  }

  /** The handshake packet is the array `[[0, 0, 1], [extension, ...]]` and nothing more. */
  lemma VersionPacketDecodes(exts: seq<seq<byte>>)
    requires |exts| < LengthLimit
    requires forall i :: 0 <= i < |exts| ==> Utf8.IsUtf8(exts[i]) && |exts[i]| < LengthLimit
    ensures DecodeValue(VersionPacketBytes(exts), MaxDepth) == Ok((VersionValue(exts), []))
  {
    var v := Array(StrValues(exts));
    ExtensionArrayEncodes(exts);
    DecodeEncode(v, [], MaxDepth - 1);
    var e := Encode(v) + [];
    assert VersionPacketBytes(exts) == VersionPrefix() + e;
    VersionPrefixDecode(e, v, []);
  }

  /** The extension list is written as one array of strings. */
  lemma ExtensionArrayEncodes(exts: seq<seq<byte>>)
    requires |exts| < LengthLimit
    requires forall i :: 0 <= i < |exts| ==> Utf8.IsUtf8(exts[i]) && |exts[i]| < LengthLimit
    ensures Encode(Array(StrValues(exts))) == ArrayHeader(|exts| % LengthLimit) + ExtensionsBytes(exts)
    ensures Encodable(Array(StrValues(exts))) && Depth(Array(StrValues(exts))) <= 2
  {
    ExtensionsAreItems(exts);
    assert Encode(Array(StrValues(exts))) == ArrayHeader(|exts| % LengthLimit) + EncodeItems(StrValues(exts));
  }

  /** With no extensions the handshake packet is `92 93 cc 00 cc 00 cc 01 90`. */
  lemma EmptyVersionPacket()
    ensures VersionPacketBytes(Extensions) == [0x92, 0x93, 0xcc, 0x00, 0xcc, 0x00, 0xcc, 0x01, 0x90]
    ensures VersionPacketBytesAsWritten(Extensions) == VersionPacketBytes(Extensions)
  {
    Pow256Values();
  }

  /** One extension "ab" shows the doubled length: the packet as written reads back as the
      string of the bytes `a2 61` followed by a stray `62`, where the intended packet reads
      back as "ab" exactly. */
  lemma DoubledLengthCounterexample()
    ensures VersionPacketBytesAsWritten([[0x61, 0x62]])
         == VersionPrefix() + [0x91, 0xa2, 0xa2, 0x61, 0x62]
    ensures DecodeValue(VersionPacketBytesAsWritten([[0x61, 0x62]]), MaxDepth)
         == Ok((Array([Array([UInt(0), UInt(0), UInt(1)]), Array([Str([0xa2, 0x61])])]), [0x62]))
    ensures DecodeValue(VersionPacketBytes([[0x61, 0x62]]), MaxDepth) == Ok((VersionValue([[0x61, 0x62]]), []))
  {
    Pow256Values();
    var tail := [0x91, 0xa2, 0xa2, 0x61, 0x62];
    assert VersionPacketBytesAsWritten([[0x61, 0x62]]) == VersionPrefix() + tail;
    var d := MaxDepth - 1;
    StrDecode([0xa2, 0x61], [0x62], d - 2);
    assert StrHeader(2) + [0xa2, 0x61] + [0x62] == tail[1..];
    DecodeItemsCons(0, tail[1..], d - 1, Str([0xa2, 0x61]), [0x62], [], [0x62]);
    assert [Str([0xa2, 0x61])] + [] == [Str([0xa2, 0x61])];
    ArrayHeaderDecode(1, tail[1..], d - 1);
    assert ArrayHeader(1) + tail[1..] == tail;
    assert DecodeValue(tail, d) == Ok((Array([Str([0xa2, 0x61])]), [0x62]));
    VersionPrefixDecode(tail, Array([Str([0xa2, 0x61])]), [0x62]);
    Utf8.AsciiIsUtf8([0x61, 0x62]);
    VersionPacketDecodes([[0x61, 0x62]]);
  }

  // ---------------------------------------------------------------- ClientPacket::try_from

  /** `editor::ClientOpcode`. */
  datatype EditorOpcode = SuccessResp

  /** `ClientPacket`. The editor category is never decoded, so its packet is only the opcode. */
  datatype ClientPacket =
    | AuthenticationPacket(auth: Packet)
    | UserPacket(user: Packet)
    | EditorPacket(opcode: EditorOpcode)

  /** The category half of a 32-bit address, `(address >> 16) as u16`. */
  function AddressCategory(address: u32): u16 {
    address / 0x1_0000
  }

  /** The opcode half of a 32-bit address, `(address & 0xffff) as u16`. */
  function AddressOpcode(address: u32): u16 {
    address % 0x1_0000
  }

  /** The address a client writes for a category code and an opcode. */
  function Address(category: u16, opcode: u16): (r: u32)
    ensures AddressCategory(r) == category && AddressOpcode(r) == opcode
  {
    category * 0x1_0000 + opcode
  }

  /** Splitting an address and joining the halves gives the address back. */
  lemma AddressJoin(address: u32)
    ensures Address(AddressCategory(address), AddressOpcode(address)) == address
  {
  }

  /** The decoder of a category `try_from` handles. */
  function CategoryTable(c: Category): Schema
    requires c != Editor
  {
    if c == Authentication then ClientAuthentication else ClientUser
  }

  function WrapPacket(c: Category, p: Packet): ClientPacket
    requires c != Editor
  {
    if c == Authentication then AuthenticationPacket(p) else UserPacket(p)
  }

  /** The part of `try_from` after the address is read. An unknown category reports its code;
      `decode_packet` returning `None`, for an unknown opcode as for a bad payload, becomes
      `InvalidPayload`; the editor category is `todo!()`. */
  function Dispatch(address: u32, payload: seq<byte>): (r: Outcome<Result<ClientPacket, PacketDecodeError>>)
    ensures CategoryFromCode(AddressCategory(address)).None? ==>
      r == Returns(Err(UnknownCategory(AddressCategory(address))))
    ensures CategoryFromCode(AddressCategory(address)) == Some(Editor) ==> r == Panics
    ensures forall c :: CategoryFromCode(AddressCategory(address)) == Some(c) && c != Editor ==>
      r == match DecodePacket(CategoryTable(c), AddressOpcode(address), payload)
           case None => Returns(Err(PacketDecodeError.InvalidPayload(c, AddressOpcode(address))))
           case Some(p) => Returns(Ok(WrapPacket(c, p)))
  {
    var opcode := AddressOpcode(address);
    match CategoryFromCode(AddressCategory(address))
    case None => Returns(Err(UnknownCategory(AddressCategory(address))))
    case Some(c) =>
      if c == Editor then Panics
      else
        match DecodePacket(CategoryTable(c), opcode, payload)
        case None => Returns(Err(PacketDecodeError.InvalidPayload(c, opcode)))
        case Some(p) => Returns(Ok(WrapPacket(c, p)))
  }

  /** `Dispatch` with the generated `decode_packet` as written, whose tuple decode may panic. */
  function DispatchAsWritten(address: u32, payload: seq<byte>): Outcome<Result<ClientPacket, PacketDecodeError>> {
    var opcode := AddressOpcode(address);
    match CategoryFromCode(AddressCategory(address))
    case None => Returns(Err(UnknownCategory(AddressCategory(address))))
    case Some(c) =>
      if c == Editor then Panics
      else
        match DecodePacketAsWritten(CategoryTable(c), opcode, payload)
        case Panics => Panics
        case Returns(None) => Returns(Err(PacketDecodeError.InvalidPayload(c, opcode)))
        case Returns(Some(p)) => Returns(Ok(WrapPacket(c, p)))
  }

  /** The model's positional tuple decode changes nothing on the frame path: no client table
      has a tuple variant, so the dispatch with the generated decode as written is `Dispatch`
      on every address and payload. */
  lemma DispatchAgreesAsWritten(address: u32, payload: seq<byte>)
    ensures DispatchAsWritten(address, payload) == Dispatch(address, payload)
  {
    match CategoryFromCode(AddressCategory(address))
    case None =>
    case Some(c) =>
      if c != Editor {
        ClientTablesHaveNoTuples();
        AsWrittenAgreesWithoutTuples(CategoryTable(c), AddressOpcode(address), payload);
      }
  }

  /** `ClientPacket::try_from`: the frame must open with an array of two, then the address as
      a uint 32; what follows is the payload. */
  function ClientPacketFromFrame(frame: seq<byte>): (r: Outcome<Result<ClientPacket, PacketDecodeError>>)
    ensures |frame| == 0 ==> r == Returns(Err(PacketDecodeError.Msgpack(ValueReadError.InvalidMarkerRead(UnexpectedEof))))
    ensures |frame| > 0 && frame[0] != 0x92 ==> r == Returns(Err(InvalidStructure))
    ensures |frame| > 0 && frame[0] == 0x92 && ReadU32(frame[1..]).Err? ==>
      r == Returns(Err(PacketDecodeError.Msgpack(ReadU32(frame[1..]).error)))
    ensures |frame| > 0 && frame[0] == 0x92 && ReadU32(frame[1..]).Ok? ==>
      r == Dispatch(ReadU32(frame[1..]).value.0, ReadU32(frame[1..]).value.1)
    ensures r.Returns? && r.value.Err? ==> !r.value.error.UnknownOpcode?
  {
    match ReadMarker(frame)
    case Err(e) => Returns(Err(FromMarkerReadError(e)))
    case Ok((marker, rest)) =>
      if marker != 0x92 then Returns(Err(InvalidStructure))
      else
        match ReadU32(rest)
        case Err(e) => Returns(Err(FromValueReadError(e)))
        case Ok((address, payload)) => Dispatch(address, payload)
  }

  /** The frame a client sends for an address and a payload. */
  function Frame(address: u32, payload: seq<byte>): seq<byte> {
    Pow256Values();
    [0x92, 0xce] + BigEndian(address, 4) + payload
  }

  /** Reading a frame recovers its address and payload and dispatches on them. */
  lemma FrameDispatches(address: u32, payload: seq<byte>)
    ensures ClientPacketFromFrame(Frame(address, payload)) == Dispatch(address, payload)
  {
    Pow256Values();
    var f := Frame(address, payload);
    assert f[1..][1..5] == BigEndian(address, 4) && f[1..][5..] == payload;
    BigEndianRoundTrip(address, 4);
    assert ReadU32(f[1..]) == Ok((address, payload));
  }

  /** The payload of the protocol crate's login test: `{"username": "lorem", "password": "ipsum"}`,
      its 31 bytes written as the map header and the two entries. */
  const LoginPayload: seq<byte> := [130] + UsernameEntryBytes + PasswordEntryBytes

  const UsernameEntryBytes: seq<byte> := [168, 117, 115, 101, 114, 110, 97, 109, 101, 165, 108, 111, 114, 101, 109]
  const PasswordEntryBytes: seq<byte> := [168, 112, 97, 115, 115, 119, 111, 114, 100, 165, 105, 112, 115, 117, 109]

  const Lorem: seq<byte> := [108, 111, 114, 101, 109]  // "lorem"
  const Ipsum: seq<byte> := [105, 112, 115, 117, 109]  // "ipsum"

  /** `Login { username: "lorem", password: "ipsum" }`. */
  const LoginPacket: Packet := Packet(LoginTag, [Text(Lorem), Text(Ipsum)])

  lemma LoginShape()
    ensures LoginTag < |ClientAuthentication|
    ensures ClientAuthentication[LoginTag].shape == Named(CredentialFields)
    ensures ClientAuthentication[LoginTag].opcode == 0x10
  {
  }

  /** The test's payload is the map header, then each key and value as a fixstr. */
  lemma LoginPayloadParts()
    ensures LoginPayload
         == [0x82] + ([0xa8] + UsernameKey + [0xa5] + Lorem) + ([0xa8] + PasswordKey + [0xa5] + Ipsum)
  {
    UsernameEntryBytesParts();
    PasswordEntryBytesParts();
  }

  lemma UsernameEntryBytesParts()
    ensures UsernameEntryBytes == [0xa8] + UsernameKey + [0xa5] + Lorem
  {
  }

  lemma PasswordEntryBytesParts()
    ensures PasswordEntryBytes == [0xa8] + PasswordKey + [0xa5] + Ipsum
  {
  }

  /** Proof helper: concatenation regroups. */
  lemma ConcatAssociates(x: seq<byte>, a: seq<byte>, b: seq<byte>)
    ensures x + (a + b) == x + a + b
  {
  }

  lemma UsernameEntryEncodes()
    ensures EncodeEntry(Entry(Str(UsernameKey), Str(Lorem))) == [0xa8] + UsernameKey + [0xa5] + Lorem
  {
    ShortAsciiEntryEncodes(UsernameKey, Lorem);
  }

  lemma PasswordEntryEncodes()
    ensures EncodeEntry(Entry(Str(PasswordKey), Str(Ipsum))) == [0xa8] + PasswordKey + [0xa5] + Ipsum
  {
    ShortAsciiEntryEncodes(PasswordKey, Ipsum);
  }

  /** The two entries of the login map, one after the other. */
  lemma LoginEntriesEncode()
    ensures EncodeEntries([Entry(Str(UsernameKey), Str(Lorem)), Entry(Str(PasswordKey), Str(Ipsum))])
         == ([0xa8] + UsernameKey + [0xa5] + Lorem) + ([0xa8] + PasswordKey + [0xa5] + Ipsum)
  {
    TwoEntriesEncode(Entry(Str(UsernameKey), Str(Lorem)), Entry(Str(PasswordKey), Str(Ipsum)));
    UsernameEntryEncodes();
    PasswordEntryEncodes();
  }

  /** The map the login packet is written as, with its keys in declaration order. */
  lemma LoginMapEncodes()
    ensures Encode(Map([Entry(Str(UsernameKey), Str(Lorem)), Entry(Str(PasswordKey), Str(Ipsum))]))
         == LoginPayload
  {
    var es := [Entry(Str(UsernameKey), Str(Lorem)), Entry(Str(PasswordKey), Str(Ipsum))];
    assert Encode(Map(es)) == MapHeader(2) + EncodeEntries(es);
    assert MapHeader(2) == [0x82];
    LoginEntriesEncode();
    LoginPayloadParts();
    ConcatAssociates([0x82], [0xa8] + UsernameKey + [0xa5] + Lorem, [0xa8] + PasswordKey + [0xa5] + Ipsum);
  }

  /** The login packet carries two strings, as its variant declares. */
  lemma TestStringsAreUtf8()
    ensures Utf8.IsUtf8(Lorem) && Utf8.IsUtf8(Ipsum)
  {
    var a, b := Lorem, Ipsum;
    assert forall i :: 0 <= i < |a| ==> a[i] < 0x80;
    assert forall i :: 0 <= i < |b| ==> b[i] < 0x80;
    Utf8.AsciiIsUtf8(a);
    Utf8.AsciiIsUtf8(b);
  }

  lemma LoginPacketConforms()
    ensures Conforms(ClientAuthentication, LoginPacket)
  {
    LoginShape();
    TestStringsAreUtf8();
    assert TypeAt(Named(CredentialFields), 0) == StringType && TypeAt(Named(CredentialFields), 1) == StringType;
    TwoFieldsConform(ClientAuthentication, LoginPacket);
  }

  /** Encoding the login packet gives the bytes of the test. */
  lemma LoginPacketEncodes()
    ensures Conforms(ClientAuthentication, LoginPacket)
    ensures EncodePayload(ClientAuthentication, LoginPacket) == Some(LoginPayload)
  {
    LoginPacketConforms();
    LoginShape();
    var es := NamedEntries(CredentialFields, LoginPacket.fields);
    assert es == [Entry(Str(UsernameKey), Str(Lorem)), Entry(Str(PasswordKey), Str(Ipsum))];
    LoginMapEncodes();
  }

  /** The login packet of the protocol crate's test: the payload under opcode 0x10 decodes to
      `Login { username: "lorem", password: "ipsum" }`. */
  lemma LoginPacketDecodes()
    ensures DecodePacket(ClientAuthentication, 0x10, LoginPayload) == Some(LoginPacket)
  {
    LoginShape();
    assert AsOpcode(ClientAuthentication, LoginPacket) == 0x10;
    LoginPacketFits();
    LoginPacketEncodes();
    ClientAuthenticationWellFormed();
    RoundTrip(ClientAuthentication, LoginPacket);
  }

  lemma LoginPacketFits()
    ensures Fits(LoginPacket)
  {
    assert |Lorem| < 32 && |Ipsum| < 32;
  }

  /** As a frame addressed to the authentication category, the same payload is the client
      packet `Authentication(Login { .. })`. */
  lemma LoginFrameDecodes()
    ensures ClientPacketFromFrame(Frame(Address(1, 0x10), LoginPayload))
         == Returns(Ok(AuthenticationPacket(LoginPacket)))
  {
    LoginPacketDecodes();
    FrameDispatches(Address(1, 0x10), LoginPayload);
    assert CategoryFromCode(1) == Some(Authentication);
  }
}
