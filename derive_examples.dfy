/** The enum the derive macro's own tests declare, and what its generated functions do on the
    payloads of those tests:

      VariantA            opcode 0
      VariantB { name }   opcode 1, name: String
      VariantC(_, _)      opcode 2, two Strings
      VariantD { number } opcode 3, number: u32
      VariantE(_)         opcode 4, one u32 */
module DeriveExamples {
  import opened Bytes
  import opened Wrappers
  import opened Utf8
  import opened Msgpack
  import opened PacketDerive

  const NameKey: seq<byte> := [0x6e, 0x61, 0x6d, 0x65]  // "name"
  const NumberKey: seq<byte> := [0x6e, 0x75, 0x6d, 0x62, 0x65, 0x72]  // "number"

  const NameFields: seq<NamedField> := [NamedField(NameKey, StringType)]
  const NumberFields: seq<NamedField> := [NamedField(NumberKey, U32Type)]
  const StringPair: seq<WireType> := [StringType, StringType]

  const MyProtocol: Schema := [
    Variant(0x0, Unit),  // VariantA
    Variant(0x1, Named(NameFields)),  // VariantB
    Variant(0x2, Tuple(StringPair)),  // VariantC
    Variant(0x3, Named(NumberFields)),  // VariantD
    Variant(0x4, Tuple([U32Type]))  // VariantE
  ]

  const LoremIpsum: seq<byte> := [108, 111, 114, 101, 109, 105, 112, 115, 117, 109]  // "loremipsum"
  const Foo: seq<byte> := [102, 111, 111]  // "foo"
  const Bar: seq<byte> := [98, 97, 114]  // "bar"

  /** `{"name": "loremipsum"}`. */
  const NamePayload: seq<byte> :=
    [129, 164, 110, 97, 109, 101, 170, 108, 111, 114, 101, 109, 105, 112, 115, 117, 109]

  /** `["foo", "bar"]`. */
  const FooBarPayload: seq<byte> := [146, 163, 102, 111, 111, 163, 98, 97, 114]

  /** `{"number": 123456}`, the number as a uint 32. */
  const NumberPayload: seq<byte> := [129, 166, 110, 117, 109, 98, 101, 114, 206, 0, 1, 226, 64]

  const VariantB: Packet := Packet(1, [Text(LoremIpsum)])
  const VariantC: Packet := Packet(2, [Text(Foo), Text(Bar)])
  const VariantD: Packet := Packet(3, [Number(123456)])

  lemma NameKeyIsUtf8()
    ensures IsUtf8(NameKey) && |NameKey| < LengthLimit
  {
    var s := NameKey;
    assert forall i :: 0 <= i < |s| ==> s[i] < 0x80;
    AsciiIsUtf8(s);
  }

  lemma NumberKeyIsUtf8()
    ensures IsUtf8(NumberKey) && |NumberKey| < LengthLimit
  {
    var s := NumberKey;
    assert forall i :: 0 <= i < |s| ==> s[i] < 0x80;
    AsciiIsUtf8(s);
  }

  lemma MyProtocolWellFormed()
    ensures WellFormed(MyProtocol)
  {
    MyProtocolShapesWellFormed();
    IncreasingWellFormed(MyProtocol);
  }

  lemma MyProtocolShapesWellFormed()
    ensures forall i :: 0 <= i < |MyProtocol| ==> ShapeWellFormed(MyProtocol[i].shape)
  {
    var t := MyProtocol;
    NameKeyIsUtf8();
    NumberKeyIsUtf8();
    OneNamedWellFormed(NameKey, StringType);
    OneNamedWellFormed(NumberKey, U32Type);
    assert t[1].shape == Named(NameFields) && t[3].shape == Named(NumberFields);
    forall i | 0 <= i < |t|
      ensures ShapeWellFormed(t[i].shape)
    {
      if i == 0 {} else if i == 1 {} else if i == 2 {} else if i == 3 {} else if i == 4 {}
    }
  }

  /** `as_opcode` reports the declared opcode whatever the fields hold. */
  lemma AsOpcodeExamples()
    ensures forall fs :: AsOpcode(MyProtocol, Packet(0, fs)) == 0x0
    ensures forall fs :: AsOpcode(MyProtocol, Packet(1, fs)) == 0x1
    ensures forall fs :: AsOpcode(MyProtocol, Packet(2, fs)) == 0x2
  {
  }

  /** The unit variant ignores its payload, and its own payload is empty. */
  lemma UnitExamples()
    ensures DecodePacket(MyProtocol, 0x0, [0, 0, 0]) == Some(Packet(0, []))
    ensures EncodePayload(MyProtocol, Packet(0, [])) == Some([])
  {
    assert FindVariant(MyProtocol, 0x0) == Some(0);
    UnitIgnoresPayload(MyProtocol, 0x0, [0, 0, 0], 0);
  }

  lemma NamePayloadParts()
    ensures NamePayload == [0x81] + ([0xa4] + NameKey + [0xaa] + LoremIpsum)
  {
  }

  lemma VariantShapes()
    ensures |MyProtocol| == 5
    ensures MyProtocol[1].shape == Named(NameFields)
    ensures MyProtocol[2].shape == Tuple(StringPair)
    ensures MyProtocol[3].shape == Named(NumberFields)
  {
  }

  lemma NameEntryEncodes()
    ensures EncodeEntry(Entry(Str(NameKey), Str(LoremIpsum))) == [0xa4] + NameKey + [0xaa] + LoremIpsum
  {
    ShortAsciiEntryEncodes(NameKey, LoremIpsum);
  }

  lemma NameMapEncodes()
    ensures Encode(Map([Entry(Str(NameKey), Str(LoremIpsum))])) == NamePayload
  {
    OneEntryEncode(Entry(Str(NameKey), Str(LoremIpsum)));
    NameEntryEncodes();
    Pow256Values();
    assert MapHeader(1) == [0x81];
    NamePayloadParts();
  }

  lemma LoremIpsumIsUtf8()
    ensures IsUtf8(LoremIpsum)
  {
    var s := LoremIpsum;
    assert forall i :: 0 <= i < |s| ==> s[i] < 0x80;
    AsciiIsUtf8(s);
  }

  lemma VariantBConforms()
    ensures Conforms(MyProtocol, VariantB)
  {
    VariantShapes();
    LoremIpsumIsUtf8();
    assert TypeAt(MyProtocol[1].shape, 0) == StringType;
    OneFieldConforms(MyProtocol, VariantB);
  }

  /** `VariantB { name: "loremipsum" }` is written as the test's map. */
  lemma NamedEncodeExample()
    ensures Conforms(MyProtocol, VariantB)
    ensures EncodePayload(MyProtocol, VariantB) == Some(NamePayload)
  {
    VariantShapes();
    VariantBConforms();
    var e := Entry(Str(NameKey), Str(LoremIpsum));
    assert NamedEntries(NameFields, VariantB.fields) == [e];
    NameMapEncodes();
  }

  /** The test's map under opcode 1 is `VariantB { name: "loremipsum" }`. */
  lemma NamedDecodeExample()
    ensures DecodePacket(MyProtocol, 0x1, NamePayload) == Some(VariantB)
  {
    NamedEncodeExample();
    MyProtocolWellFormed();
    assert FieldFits(VariantB.fields[0]);
    RoundTrip(MyProtocol, VariantB);
  }

  /** 123456 is 0x0001e240, written as a uint 32. */
  lemma NumberBytes()
    ensures UIntBytes(123456) == [0xce, 0, 1, 0xe2, 0x40]
  {
    Pow256Values();
    var s := [0, 1, 0xe2, 0x40];
    assert s[..3][..2][..1] == [0] && s[..3][..2] == [0, 1] && s[..3] == [0, 1, 0xe2];
    assert FromBigEndian([0]) == 0;
    assert FromBigEndian([0, 1]) == 1;
    assert FromBigEndian([0, 1, 0xe2]) == 0x1e2;
    assert FromBigEndian(s) == 123456;
    FromBigEndianRoundTrip(s);
  }

  lemma NumberPayloadParts()
    ensures NumberPayload == [0x81] + ([0xa6] + NumberKey + [0xce, 0, 1, 0xe2, 0x40])
  {
  }

  lemma NumberEntryEncodes()
    ensures EncodeEntry(Entry(Str(NumberKey), UInt(123456))) == [0xa6] + NumberKey + [0xce, 0, 1, 0xe2, 0x40]
  {
    ShortAsciiEncodes(NumberKey);
    NumberBytes();
  }

  lemma NumberMapEncodes()
    ensures Encode(Map([Entry(Str(NumberKey), UInt(123456))])) == NumberPayload
  {
    OneEntryEncode(Entry(Str(NumberKey), UInt(123456)));
    NumberEntryEncodes();
    Pow256Values();
    assert MapHeader(1) == [0x81];
    NumberPayloadParts();
  }

  /** `VariantD { number: 123456 }` is written as the test's map. */
  lemma NumberEncodeExample()
    ensures Conforms(MyProtocol, VariantD)
    ensures EncodePayload(MyProtocol, VariantD) == Some(NumberPayload)
  {
    VariantShapes();
    assert TypeAt(MyProtocol[3].shape, 0) == U32Type;
    OneFieldConforms(MyProtocol, VariantD);
    var e := Entry(Str(NumberKey), UInt(123456));
    assert NamedEntries(NumberFields, VariantD.fields) == [e];
    NumberMapEncodes();
  }

  /** The test's map under opcode 3 is `VariantD { number: 123456 }`. */
  lemma NumberDecodeExample()
    ensures DecodePacket(MyProtocol, 0x3, NumberPayload) == Some(VariantD)
  {
    NumberEncodeExample();
    MyProtocolWellFormed();
    assert FieldFits(VariantD.fields[0]);
    RoundTrip(MyProtocol, VariantD);
  }

  lemma FooBarPayloadParts()
    ensures FooBarPayload == [0x92] + (([0xa3] + Foo) + ([0xa3] + Bar))
  {
  }

  lemma FooBarItemsEncode()
    ensures EncodeItems([Str(Foo), Str(Bar)]) == ([0xa3] + Foo) + ([0xa3] + Bar)
  {
    ShortAsciiEncodes(Foo);
    ShortAsciiEncodes(Bar);
    TwoItemsEncode(Str(Foo), Str(Bar));
  }

  /** The array `["foo", "bar"]` is the test's payload. */
  lemma FooBarEncodes()
    ensures Encode(Array([Str(Foo), Str(Bar)])) == FooBarPayload
  {
    FooBarItemsEncode();
    Pow256Values();
    assert ArrayHeader(2) == [0x92];
    FooBarPayloadParts();
  }

  /** `VariantC("foo", "bar")` is written as the test's array. */
  lemma TupleEncodeExample()
    ensures Conforms(MyProtocol, VariantC)
    ensures EncodePayload(MyProtocol, VariantC) == Some(FooBarPayload)
  {
    VariantShapes();
    AsciiIsUtf8(Foo);
    AsciiIsUtf8(Bar);
    assert TypeAt(MyProtocol[2].shape, 0) == StringType && TypeAt(MyProtocol[2].shape, 1) == StringType;
    TwoFieldsConform(MyProtocol, VariantC);
    assert TupleItems(VariantC.fields) == [Str(Foo), Str(Bar)];
    FooBarEncodes();
  }

  /** With tuple fields taken by position, the test's array under opcode 2 is
      `VariantC("foo", "bar")`, as the test expects. */
  lemma TupleDecodeExample()
    ensures DecodePacket(MyProtocol, 0x2, FooBarPayload) == Some(VariantC)
  {
    TupleEncodeExample();
    MyProtocolWellFormed();
    assert FieldFits(VariantC.fields[0]) && FieldFits(VariantC.fields[1]);
    RoundTrip(MyProtocol, VariantC);
  }

  /** The test's payload reads back as the array `["foo", "bar"]`. */
  lemma FooBarDecodes()
    ensures DecodeValue(FooBarPayload, MaxDepth) == Ok((Array([Str(Foo), Str(Bar)]), []))
  {
    VariantCLayout();
    TupleEncodeExample();
    assert TupleItems(VariantC.fields) == [Str(Foo), Str(Bar)];
  }

  lemma VariantCLayout()
    ensures DecodeValue(EncodePayload(MyProtocol, VariantC).value, MaxDepth)
         == Ok((Array(TupleItems(VariantC.fields)), []))
  {
    TupleEncodeExample();
    MyProtocolWellFormed();
    assert FieldFits(VariantC.fields[0]) && FieldFits(VariantC.fields[1]);
    TuplePayloadLayout(MyProtocol, VariantC);
  }

  /** The decode as generated reads "foo" and then runs past the end of the shortened array. */
  lemma FooBarEveryOther()
    ensures TupleFieldsAsWritten(StringPair, [Str(Foo), Str(Bar)], 0) == Panics
  {
    AsWrittenTakesEveryOther(StringPair, [], [Str(Foo), Str(Bar)]);
    assert [] + [Str(Foo), Str(Bar)] == [Str(Foo), Str(Bar)];
    AsciiIsUtf8(Foo);
    assert EveryOther([StringType], []) == Panics;
  }

  /** As generated, the same decode takes "foo", removes it, and then asks for index 1 of the
      one-element array that is left: `Vec::remove` panics. */
  lemma TupleDecodeAsWrittenPanics()
    ensures DecodePacketAsWritten(MyProtocol, 0x2, FooBarPayload) == Panics
  {
    VariantShapes();
    assert FindVariant(MyProtocol, 0x2) == Some(2);
    FooBarTupleAsWrittenPanics();
  }

  lemma FooBarTupleAsWrittenPanics()
    ensures DecodeTupleAsWritten(StringPair, FooBarPayload) == Panics
  {
    FooBarDecodes();
    FooBarEveryOther();
  }
}
