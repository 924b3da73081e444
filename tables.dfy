/** The four derived packet enums of the protocol crate, as schemas: variant names, opcodes
    and fields in declaration order. */
module OpcodeTables {
  import opened Bytes
  import opened Utf8
  import opened Msgpack
  import opened PacketDerive

  /** The map keys of the fields: the field identifiers as ASCII bytes. */
  const UsernameKey: seq<byte> := [0x75, 0x73, 0x65, 0x72, 0x6e, 0x61, 0x6d, 0x65]  // "username"
  const PasswordKey: seq<byte> := [0x70, 0x61, 0x73, 0x73, 0x77, 0x6f, 0x72, 0x64]  // "password"
  const TokenKey: seq<byte> := [0x74, 0x6f, 0x6b, 0x65, 0x6e]  // "token"
  const OffsetKey: seq<byte> := [0x6f, 0x66, 0x66, 0x73, 0x65, 0x74]  // "offset"
  const CountKey: seq<byte> := [0x63, 0x6f, 0x75, 0x6e, 0x74]  // "count"
  const ImgidKey: seq<byte> := [0x69, 0x6d, 0x67, 0x69, 0x64]  // "imgid"
  const TempKey: seq<byte> := [0x5f, 0x74, 0x65, 0x6d, 0x70]  // "_temp"
  const TotalKey: seq<byte> := [0x74, 0x6f, 0x74, 0x61, 0x6c]  // "total"
  const DataKey: seq<byte> := [0x64, 0x61, 0x74, 0x61]  // "data"

  /** The fields of the braced variants, in declaration order. */
  const CredentialFields: seq<NamedField> :=
    [NamedField(UsernameKey, StringType), NamedField(PasswordKey, StringType)]
  const TokenFields: seq<NamedField> := [NamedField(TokenKey, StringType)]
  const PageFields: seq<NamedField> := [NamedField(OffsetKey, U64Type), NamedField(CountKey, U64Type)]
  const ImgidFields: seq<NamedField> := [NamedField(ImgidKey, U64Type)]
  const UsernameFields: seq<NamedField> := [NamedField(UsernameKey, StringType)]
  const TempFields: seq<NamedField> := [NamedField(TempKey, U64Type)]
  const TotalFields: seq<NamedField> := [NamedField(TotalKey, U64Type)]
  const DataFields: seq<NamedField> := [NamedField(DataKey, BytesType)]

  /** `authentication::ClientAuthenticationPacket`. */
  const ClientAuthentication: Schema := [
    Variant(0x00, Unit),  // SuccessResp
    Variant(0x10, Named(CredentialFields)),  // Login
    Variant(0x11, Named(TokenFields)),  // LoginWithToken
    Variant(0x20, Named(CredentialFields)),  // Register
    Variant(0x21, Unit),  // RegisterCheckEnabled
    Variant(0xf0, Unit),  // UsernameCheckExists
    Variant(0x00ff, Unit)  // Logout
  ]

  /** Indices of the `ClientAuthenticationPacket` variants the server acts on. */
  const LoginTag: nat := 1
  const RegisterTag: nat := 3

  /** `authentication::ServerAuthenticationPacket`. */
  const ServerAuthentication: Schema := [
    Variant(0x00, Unit),  // SuccessResp
    Variant(0x10, Unit),  // LoginFailedInvalidUsernameWrongPassword
    Variant(0x11, Unit),  // LoginFailedTokenExpired
    Variant(0x12, Named(TokenFields)),  // LoginSuccess
    Variant(0x20, Unit),  // RegisterFailedUsernameTaken
    Variant(0x21, Unit),  // RegisterFailedFeatureDisabled
    Variant(0xffff, Unit)  // ErrorAlreadyLoggedIn
  ]

  /** `user::ClientUserPacket`. */
  const ClientUser: Schema := [
    Variant(0x00, Unit),  // SuccessResp
    Variant(0x01, Unit),  // GetUsername
    Variant(0x10, Unit),  // RetrieveProjects
    Variant(0x11, Named(PageFields)),  // RetrieveProjectsPaged
    Variant(0x12, Unit),  // RetrieveProjectsTotal
    Variant(0x13, Named(ImgidFields)),  // RetrieveProjectImage
    Variant(0x1f, Unit)  // OpenProject
  ]

  /** `user::ServerUserPacket`. */
  const ServerUser: Schema := [
    Variant(0x00, Unit),  // SuccessResp
    Variant(0x01, Named(UsernameFields)),  // UsernameResp
    Variant(0x10, Named(TempFields)),  // ProjectsListResp
    Variant(0x11, Named(TotalFields)),  // ProjectsTotalResp
    Variant(0x12, Named(DataFields)),  // ProjectImageResp
    Variant(0xffff, Unit)  // ErrorNotAuthenticated
  ]

  // The field identifiers are ASCII, hence UTF-8, and the identifiers of each variant differ.

  lemma UsernameKeyIsUtf8()
    ensures IsUtf8(UsernameKey) && |UsernameKey| < LengthLimit
  {
    var s := UsernameKey;
    assert forall i :: 0 <= i < |s| ==> s[i] < 0x80;
    AsciiIsUtf8(s);
  }

  lemma PasswordKeyIsUtf8()
    ensures IsUtf8(PasswordKey) && |PasswordKey| < LengthLimit
  {
    var s := PasswordKey;
    assert forall i :: 0 <= i < |s| ==> s[i] < 0x80;
    AsciiIsUtf8(s);
  }

  lemma TokenKeyIsUtf8()
    ensures IsUtf8(TokenKey) && |TokenKey| < LengthLimit
  {
    var s := TokenKey;
    assert forall i :: 0 <= i < |s| ==> s[i] < 0x80;
    AsciiIsUtf8(s);
  }

  lemma OffsetKeyIsUtf8()
    ensures IsUtf8(OffsetKey) && |OffsetKey| < LengthLimit
  {
    var s := OffsetKey;
    assert forall i :: 0 <= i < |s| ==> s[i] < 0x80;
    AsciiIsUtf8(s);
  }

  lemma CountKeyIsUtf8()
    ensures IsUtf8(CountKey) && |CountKey| < LengthLimit
  {
    var s := CountKey;
    assert forall i :: 0 <= i < |s| ==> s[i] < 0x80;
    AsciiIsUtf8(s);
  }

  lemma ImgidKeyIsUtf8()
    ensures IsUtf8(ImgidKey) && |ImgidKey| < LengthLimit
  {
    var s := ImgidKey;
    assert forall i :: 0 <= i < |s| ==> s[i] < 0x80;
    AsciiIsUtf8(s);
  }

  lemma TempKeyIsUtf8()
    ensures IsUtf8(TempKey) && |TempKey| < LengthLimit
  {
    var s := TempKey;
    assert forall i :: 0 <= i < |s| ==> s[i] < 0x80;
    AsciiIsUtf8(s);
  }

  lemma TotalKeyIsUtf8()
    ensures IsUtf8(TotalKey) && |TotalKey| < LengthLimit
  {
    var s := TotalKey;
    assert forall i :: 0 <= i < |s| ==> s[i] < 0x80;
    AsciiIsUtf8(s);
  }

  lemma DataKeyIsUtf8()
    ensures IsUtf8(DataKey) && |DataKey| < LengthLimit
  {
    var s := DataKey;
    assert forall i :: 0 <= i < |s| ==> s[i] < 0x80;
    AsciiIsUtf8(s);
  }

  lemma CredentialFieldsWellFormed()
    ensures ShapeWellFormed(Named(CredentialFields))
  {
    UsernameKeyIsUtf8();
    PasswordKeyIsUtf8();
    assert UsernameKey[0] != PasswordKey[0];
    TwoNamedWellFormed(UsernameKey, StringType, PasswordKey, StringType);
  }

  lemma PageFieldsWellFormed()
    ensures ShapeWellFormed(Named(PageFields))
  {
    OffsetKeyIsUtf8();
    CountKeyIsUtf8();
    assert OffsetKey[0] != CountKey[0];
    TwoNamedWellFormed(OffsetKey, U64Type, CountKey, U64Type);
  }

  lemma TokenFieldsWellFormed()
    ensures ShapeWellFormed(Named(TokenFields))
  {
    TokenKeyIsUtf8();
    OneNamedWellFormed(TokenKey, StringType);
  }

  lemma ImgidFieldsWellFormed()
    ensures ShapeWellFormed(Named(ImgidFields))
  {
    ImgidKeyIsUtf8();
    OneNamedWellFormed(ImgidKey, U64Type);
  }

  lemma UsernameFieldsWellFormed()
    ensures ShapeWellFormed(Named(UsernameFields))
  {
    UsernameKeyIsUtf8();
    OneNamedWellFormed(UsernameKey, StringType);
  }

  lemma TempFieldsWellFormed()
    ensures ShapeWellFormed(Named(TempFields))
  {
    TempKeyIsUtf8();
    OneNamedWellFormed(TempKey, U64Type);
  }

  lemma TotalFieldsWellFormed()
    ensures ShapeWellFormed(Named(TotalFields))
  {
    TotalKeyIsUtf8();
    OneNamedWellFormed(TotalKey, U64Type);
  }

  lemma DataFieldsWellFormed()
    ensures ShapeWellFormed(Named(DataFields))
  {
    DataKeyIsUtf8();
    OneNamedWellFormed(DataKey, BytesType);
  }

  /** Every table lists its opcodes in increasing order, so each opcode selects one variant
      and `as_opcode` of a decoded packet is the opcode it came from. */
  lemma ClientAuthenticationWellFormed()
    ensures WellFormed(ClientAuthentication)
  {
    var t := ClientAuthentication;
    CredentialFieldsWellFormed();
    TokenFieldsWellFormed();
    assert t[1].shape == t[3].shape == Named(CredentialFields) && t[2].shape == Named(TokenFields);
    forall i | 0 <= i < |t|
      ensures ShapeWellFormed(t[i].shape)
    {
      if i == 0 {} else if i == 1 {} else if i == 2 {} else if i == 3 {} else if i == 4 {} else if i == 5 {} else if i == 6 {}
    }
    IncreasingWellFormed(t);
  }

  lemma ServerAuthenticationWellFormed()
    ensures WellFormed(ServerAuthentication)
  {
    var t := ServerAuthentication;
    TokenFieldsWellFormed();
    assert t[3].shape == Named(TokenFields);
    forall i | 0 <= i < |t|
      ensures ShapeWellFormed(t[i].shape)
    {
      if i == 0 {} else if i == 1 {} else if i == 2 {} else if i == 3 {} else if i == 4 {} else if i == 5 {} else if i == 6 {}
    }
    IncreasingWellFormed(t);
  }

  lemma ClientUserWellFormed()
    ensures WellFormed(ClientUser)
  {
    var t := ClientUser;
    PageFieldsWellFormed();
    ImgidFieldsWellFormed();
    assert t[3].shape == Named(PageFields) && t[5].shape == Named(ImgidFields);
    forall i | 0 <= i < |t|
      ensures ShapeWellFormed(t[i].shape)
    {
      if i == 0 {} else if i == 1 {} else if i == 2 {} else if i == 3 {} else if i == 4 {} else if i == 5 {} else if i == 6 {}
    }
    IncreasingWellFormed(t);
  }

  lemma ServerUserWellFormed()
    ensures WellFormed(ServerUser)
  {
    var t := ServerUser;
    UsernameFieldsWellFormed();
    TempFieldsWellFormed();
    TotalFieldsWellFormed();
    DataFieldsWellFormed();
    assert t[1].shape == Named(UsernameFields) && t[2].shape == Named(TempFields);
    assert t[3].shape == Named(TotalFields) && t[4].shape == Named(DataFields);
    forall i | 0 <= i < |t|
      ensures ShapeWellFormed(t[i].shape)
    {
      if i == 0 {} else if i == 1 {} else if i == 2 {} else if i == 3 {} else if i == 4 {} else if i == 5 {}
    }
    IncreasingWellFormed(t);
  }

  /** None of the client tables has a tuple variant, so their decoders never reach the
      shifting `payload.remove(idx)`. */
  lemma ClientTablesHaveNoTuples()
    ensures forall i :: 0 <= i < |ClientAuthentication| ==> !ClientAuthentication[i].shape.Tuple?
    ensures forall i :: 0 <= i < |ClientUser| ==> !ClientUser[i].shape.Tuple?
  {
  }
}
