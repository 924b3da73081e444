# dalang packet codec, session and authenticator — a Dafny model

dalang is a collaborative editor. Its server and clients talk over a WebSocket in binary
MessagePack frames. This project models the core of that exchange and proves properties of it:

- **The `#[derive(Packet)]` macro** (`protocol-derive`). The model describes what the macro
  *generates* for an enum: `decode_packet(opcode, payload)`, `encode_payload(packet)` and
  `as_opcode(packet)`. One generic routine does this over a *schema*, which lists each variant's
  opcode and its shape: unit, named fields (key and wire type), or tuple (wire types by position).
  The module is `PacketDerive`. The enum of the macro's own tests is in `DeriveExamples`, with the
  tests' exact bytes.
- **A MessagePack subset** (`Msgpack`). The generated code relies on rmp and rmpv for MessagePack.
  The model covers the formats these use:
  - nil and bool;
  - positive fixint and uint 8/16/32/64;
  - fixstr and str 8/16/32, and bin 8/16/32;
  - fixarray and array 16/32, and fixmap and map 16/32.

  It has an encoder, a decoder with rmpv's nesting budget, and `read_marker`/`read_u32`. Strings
  must be UTF-8 (`Utf8`), as they are for rmpv's string conversions.
- **The protocol crate** (`dalang-protocol`):
  - `Category`, numbered 1 to 3 (`Categories`).
  - The error types and their `From` conversions (`ProtocolErrors`).
  - The four opcode tables of the authentication and user categories (`OpcodeTables`).
  - The frame decoder `ClientPacket::try_from` and the handshake packet
    `protocol_version_packet` (`Protocol`).
- **The WebSocket session actor** (`SessionActor`). A class whose handlers append the commands they
  issue on the WebSocket context to an outbox.
- **The SQLite authenticator** (`SqliteAuth`). A class over one `users` table, kept as a map from
  uid to (username, password hash). It handles `Login`, `Register` and `GetUser`, plus `started`.

External effects become parameters:

- the password check is the `verify` function the authenticator is built with;
- each salted bcrypt `hash` result is a parameter of `Register`, and holds `verify(password, hash)`
  whenever it is present;
- the random uid from `rand::random` is a parameter of `Register`.

A named variant ignores map entries whose key is not a string naming one of its fields, as its
documentation asks. When a name appears more than once, the last entry wins
(`PacketDerive.CollectFieldsLookup`).

The code and its documentation disagree in a few places; the model follows the code:

- A tuple variant is documented to need an array of exactly its declared arity. The code accepts
  longer arrays too, and so does `PacketDerive.DecodePacket`: `PacketDerive.TupleFieldsPositional`
  needs at least as many items as fields, not exactly as many.
- On the frame path every failure of `decode_packet` becomes `InvalidPayload`, and `UnknownOpcode`
  is never produced there.
- The editor category reaches a `todo!()`, modelled as a panic.

One place does not follow the code. `PacketDerive.DecodePacket` takes tuple fields by position,
the intended behaviour, and so ignores extra array elements. The code as generated takes items 0,
2, 4, … and panics on shorter arrays; that is `PacketDerive.DecodePacketAsWritten` (see
"## Findings"). On the frame path the two agree, because no client table has a tuple variant
(`Protocol.DispatchAgreesAsWritten`).

Panics (`todo!()`, an out-of-range `Vec::remove`, a failed `expect`) are the `Panics` alternative of
`Wrappers.Outcome`.

## Model

| member | source | states |
|---|---|---|
| Msgpack.ReadMarker | dalang-protocol/src/lib.rs:63 | the marker is the first byte; an empty input is an unexpected end of file |
| Msgpack.ReadU32 | dalang-protocol/src/lib.rs:67 | succeeds exactly on `0xce` followed by 4 bytes, read big-endian; otherwise an end-of-file marker error, a type mismatch carrying the marker, or an end-of-file data error |
| Msgpack.DecodeEncode | protocol-derive/src/lib.rs:286-295 | decoding the encoding of any encodable value within the depth budget gives the value back and leaves what follows untouched |
| Msgpack.StrDecode | protocol-derive/src/lib.rs:135-143 | a string header of the data's length, the data, and anything after it decode to that string and the remainder |
| Msgpack.UIntDecode | protocol-derive/tests/simple.rs:104-122 | the written form of an unsigned integer decodes back to it, with the remainder after it |
| Msgpack.ArrayHeaderDecode | protocol-derive/src/lib.rs:211-217 | an array header of n decodes as n items at one level deeper |
| Msgpack.MapHeaderDecode | protocol-derive/src/lib.rs:135-143 | a map header of n decodes as n key/value entries at one level deeper |
| Bytes.BigEndianRoundTrip | dalang-protocol/src/lib.rs:67 | reading the k big-endian bytes of n < 256^k gives n |
| PacketDerive.FindVariant | protocol-derive/src/lib.rs:94-101 | returns the first variant with the opcode; returns None exactly when no variant declares it |
| PacketDerive.DecodePacket | protocol-derive/src/lib.rs:94-101 | None for an opcode no variant declares; a decoded packet is of the variant the opcode selects and has that variant's number of fields |
| PacketDerive.UnitIgnoresPayload | protocol-derive/src/lib.rs:118-120 | a unit variant decodes from its opcode whatever the payload bytes, as generated as well as in the model |
| PacketDerive.DecodeNamed | protocol-derive/src/lib.rs:135-143 | a named decode succeeds only when the payload reads as a MessagePack map, and then yields one field per declared name |
| PacketDerive.LastEntry | protocol-derive/src/lib.rs:179-192 | None exactly when no entry has the string key k; otherwise the value of an entry with that key after which no entry has it |
| PacketDerive.CollectFieldsLookup | protocol-derive/src/lib.rs:179-192 | a field name carried as a UTF-8 string key ends up in the collected map with the value of its last entry; any other key is there iff it was before, with its old value |
| PacketDerive.DecodeNamedFields | protocol-derive/src/lib.rs:135-192 | a named decode succeeds iff the payload is a map where every declared name has a string-keyed entry whose last value converts to the field's type; field i is then that conversion |
| PacketDerive.MissingFieldRefused | protocol-derive/src/lib.rs:165-169 | a payload map with no string key for some declared field decodes to None, whatever else it holds |
| PacketDerive.WrongKindRefused | protocol-derive/src/lib.rs:165-169 | a payload map whose last entry for a declared field does not convert to the field's type decodes to None |
| PacketDerive.ExtraEntryIgnored | protocol-derive/src/lib.rs:179-192 | an entry whose key is not a UTF-8 string naming a field can be dropped from the map without changing what is collected |
| PacketDerive.TakeFieldsAllOrNothing | protocol-derive/src/lib.rs:165-169 | the named fields are built iff every name is present and its value converts to the declared type; each field is then that conversion; otherwise the result is None, never a partial value |
| PacketDerive.FromValue | protocol-derive/src/lib.rs:165-169 | a successful conversion yields a field of the requested type that converts back to the same MessagePack value |
| PacketDerive.FromValueToValue | protocol-derive/src/lib.rs:291 | a field of a type converts to a value that converts back to the field |
| PacketDerive.DecodeTuple | protocol-derive/src/lib.rs:211-217 | a tuple decode succeeds only when the payload reads as a MessagePack array, and then yields one field per declared type |
| PacketDerive.TupleFieldsPositional | protocol-derive/src/lib.rs:220-234 | tuple fields succeed iff the array has at least as many items as the tuple and each item converts to its type; field i is then item i converted |
| PacketDerive.AsWrittenTakesEveryOther | protocol-derive/src/lib.rs:220-234 | with successive `remove(idx)` the generated code reads the items at original positions 0, 2, 4, … and panics once the index passes the shrunken array |
| PacketDerive.AsWrittenAgreesWithoutTuples | protocol-derive/src/lib.rs:203-240 | for a schema with no tuple variant, the decode as generated never panics and agrees with the model's decode |
| PacketDerive.EncodePayload | protocol-derive/src/lib.rs:263-328 | encoding always succeeds, and the payload is empty exactly when the variant has no fields |
| PacketDerive.NamedPayloadLayout | protocol-derive/src/lib.rs:286-295 | a named variant's payload is one map whose entries are the field names, in declaration order, each with its field's value |
| PacketDerive.TuplePayloadLayout | protocol-derive/src/lib.rs:314-323 | a tuple variant's payload is one array of the field values in order |
| PacketDerive.RoundTrip | protocol-derive/src/lib.rs:94-328 | decoding a conforming packet's payload under its opcode gives the packet back, for a well-formed schema |
| PacketDerive.OpcodeOfDecoded | protocol-derive/src/lib.rs:345-358 | the opcode of a decoded packet is the opcode it was decoded under |
| PacketDerive.FindVariantOfOpcode | protocol-derive/src/lib.rs:96-99 | in a schema with distinct opcodes, a variant's opcode selects that variant |
| DeriveExamples.AsOpcodeExamples | protocol-derive/tests/simple.rs:31-40 | `as_opcode` gives 0, 1, 2 for variants A, B, C whatever their fields hold |
| DeriveExamples.UnitExamples | protocol-derive/tests/simple.rs:42-56 | variant A decodes from `[0, 0, 0]` and encodes to the empty payload |
| DeriveExamples.NamedDecodeExample | protocol-derive/tests/simple.rs:58-70 | the 17-byte `{"name": "loremipsum"}` under opcode 1 decodes to VariantB "loremipsum" |
| DeriveExamples.TupleDecodeExample | protocol-derive/tests/simple.rs:72-82 | with fields taken by position, `["foo", "bar"]` under opcode 2 decodes to VariantC("foo", "bar") |
| DeriveExamples.TupleDecodeAsWrittenPanics | protocol-derive/tests/simple.rs:72-82 | the decode as generated panics on the same payload |
| DeriveExamples.NamedEncodeExample | protocol-derive/tests/simple.rs:84-93 | VariantB "loremipsum" encodes to the test's 17 bytes |
| DeriveExamples.TupleEncodeExample | protocol-derive/tests/simple.rs:94-102 | VariantC("foo", "bar") encodes to the test's 9 bytes |
| DeriveExamples.NumberEncodeExample | protocol-derive/tests/simple.rs:104-112 | VariantD 123456 encodes to the test's 13 bytes, the number as `ce 00 01 e2 40` |
| DeriveExamples.NumberDecodeExample | protocol-derive/tests/simple.rs:114-122 | the same 13 bytes under opcode 3 decode to VariantD 123456 |
| Categories.CategoryFromCode | dalang-protocol/src/lib.rs:115-127 | a category exists exactly for the codes 1, 2, 3 |
| Categories.CodeThenFrom | dalang-protocol/src/tests.rs:5-14 | reading back a category's code gives the category |
| Categories.FromThenCode | dalang-protocol/src/lib.rs:107-127 | a code that names a category is that category's code |
| ProtocolErrors.FromValueReadError | dalang-protocol/src/error.rs:17-21 | a value read error becomes `Msgpack` carrying it unchanged |
| ProtocolErrors.FromMarkerReadError | dalang-protocol/src/error.rs:23-27 | a marker read error becomes `Msgpack(InvalidMarkerRead)` carrying its I/O error |
| ProtocolErrors.FromCategoryError | dalang-protocol/src/error.rs:29-42 | the error kind is kept; the two opcode errors gain the category, the opcode converted to u16, and a MessagePack error drops the category |
| ProtocolErrors.CategoryErrorFromValueReadError | dalang-protocol/src/error.rs:54-60 | a value read error becomes the category error `Msgpack` carrying it unchanged |
| ProtocolErrors.CategoryErrorFromRmpv | dalang-protocol/src/error.rs:62-77 | marker errors stay marker errors; data errors and the depth limit become data errors; the I/O error is kept, and never a type mismatch |
| ProtocolErrors.LiftingCommutes | dalang-protocol/src/error.rs:17-60 | lifting a value read error through a category error gives the same packet error as lifting it directly |
| ProtocolErrors.CategoryErrorsStayCategoryErrors | dalang-protocol/src/error.rs:29-42 | a category error never becomes `InvalidStructure` or `UnknownCategory` |
| OpcodeTables.ClientAuthenticationWellFormed | dalang-protocol/src/lib.rs:156-185 | the client authentication table has distinct opcodes and encodable field names |
| OpcodeTables.ServerAuthenticationWellFormed | dalang-protocol/src/lib.rs:187-206 | the same for the server authentication table |
| OpcodeTables.ClientUserWellFormed | dalang-protocol/src/lib.rs:214-233 | the same for the client user table |
| OpcodeTables.ServerUserWellFormed | dalang-protocol/src/lib.rs:235-261 | the same for the server user table |
| Protocol.ProtocolVersionPacket | dalang-protocol/src/lib.rs:28-46 | the buffer built step by step is the version array followed by each extension as one string |
| Protocol.VersionPacketDecodes | dalang-protocol/src/lib.rs:28-46 | the packet reads back as `[[major, minor, patch], [extensions…]]` with nothing left over |
| Protocol.EmptyVersionPacket | dalang-protocol/src/lib.rs:8-14 | with no extensions the packet is `92 93 cc 00 cc 00 cc 01 90`, as written and as intended |
| Protocol.ProtocolVersionPacketAsWritten | dalang-protocol/src/lib.rs:40-43 | the loop as written writes each extension's string header twice |
| Protocol.DoubledLengthCounterexample | dalang-protocol/src/lib.rs:40-43 | with the one extension "ab" the packet as written misreads as a string of the header and "a" and leaves one byte over; the intended packet reads back whole |
| Protocol.Address | dalang-protocol/src/lib.rs:68-75 | joining a category and an opcode gives an address whose high 16 bits are the category and low 16 bits the opcode |
| Protocol.AddressJoin | dalang-protocol/src/lib.rs:68-75 | every u32 address is the join of its two halves |
| Protocol.Dispatch | dalang-protocol/src/lib.rs:68-87 | an unknown category gives `UnknownCategory` with the high 16 bits; Editor panics; otherwise the category's table decodes the payload, and its None becomes `InvalidPayload` with the category and opcode |
| Protocol.ClientPacketFromFrame | dalang-protocol/src/lib.rs:57-88 | an empty frame is a marker end-of-file error; a first byte other than `0x92` is `InvalidStructure`; a bad address is `Msgpack` with the `read_u32` error; otherwise it dispatches; never `UnknownOpcode` |
| Protocol.FrameDispatches | dalang-protocol/src/lib.rs:57-88 | a frame of `0x92`, the address as uint 32 and a payload dispatches on that address and payload |
| Protocol.DispatchAgreesAsWritten | dalang-protocol/src/lib.rs:77-87 | for every address and payload, dispatching with the generated decode as written (whose tuple decode can panic) gives exactly `Dispatch`, since the client tables have no tuple variant |
| Protocol.LoginPacketDecodes | dalang-protocol/src/tests.rs:16-36 | the test's 31 bytes under opcode 0x10 decode to Login "lorem"/"ipsum" |
| Protocol.LoginFrameDecodes | dalang-protocol/src/lib.rs:77-81 | a frame addressed to category 1, opcode 0x10, with those bytes is the authentication packet Login "lorem"/"ipsum" |
| SessionActor.StartCommands | server/src/dalang_server/session.rs:16-29 | exactly one command: the packet as a binary frame when it was built, else a close with code Error and no description |
| SessionActor.StreamCommands | server/src/dalang_server/session.rs:34-71 | a ping gives exactly a pong of the same bytes; a text gives a close `Unsupported` "expected a binary message"; every other event gives nothing |
| SessionActor.RawCommand | server/src/dalang_server/session.rs:77-82 | text goes out as the same text, bytes as the same binary frame |
| SessionActor.Session.StartedWith | server/src/dalang_server/session.rs:16-29 | appends the start commands to the outbox and keeps `id` and `server` |
| SessionActor.Session.Started | server/src/dalang_server/session.rs:16-29 | the session sends exactly the handshake packet `92 93 cc 00 cc 00 cc 01 90`, and keeps `id` and `server` |
| SessionActor.Session.HandleStream | server/src/dalang_server/session.rs:34-71 | appends the event's commands and keeps `id` and `server` |
| SessionActor.Session.HandleRaw | server/src/dalang_server/session.rs:77-82 | appends the raw message's command and keeps `id` and `server` |
| SessionActor.StreamNeverSendsData | server/src/dalang_server/session.rs:34-71 | any run of inbound events issues only pongs and closes |
| SessionActor.PongsEchoPings | server/src/dalang_server/session.rs:36 | the pongs sent for a run of events are the pings received, in order |
| SqliteAuth.SQLiteAuthenticator.NewInMemory | server/src/dalang_server/auth/sqlite.rs:30-35 | a fresh authenticator has an empty table and is not started |
| SqliteAuth.SQLiteAuthenticator.Started | server/src/dalang_server/auth/sqlite.rs:43-61 | starting keeps the table and makes the handlers usable |
| SqliteAuth.LoginResult | server/src/dalang_server/auth/sqlite.rs:89-109 | Ok exactly when a row has the username and `verify` accepts the password against its hash; then its uid is that row's |
| SqliteAuth.SQLiteAuthenticator.Login | server/src/dalang_server/auth/sqlite.rs:80-110 | panics before `started`; otherwise gives the login result and changes nothing |
| SqliteAuth.GetUserResult | server/src/dalang_server/auth/sqlite.rs:158-162 | Ok exactly when a row has the uid, and then it is that row's username |
| SqliteAuth.SQLiteAuthenticator.GetUser | server/src/dalang_server/auth/sqlite.rs:150-163 | panics before `started`; otherwise gives the lookup result and changes nothing |
| SqliteAuth.Insert | server/src/dalang_server/auth/sqlite.rs:133-143 | Ok(uid) adding exactly the row (uid, username, hash) iff a hash exists, the uid fits an SQLite integer and is not taken; otherwise Err with the table unchanged |
| SqliteAuth.RegisterIntended | server/src/dalang_server/auth/sqlite.rs:123-143 | a taken username gives Err with nothing inserted; otherwise the insert decides |
| SqliteAuth.SQLiteAuthenticator.Register | server/src/dalang_server/auth/sqlite.rs:116-144 | panics before `started`; otherwise performs the intended registration and keeps usernames distinct |
| SqliteAuth.InsertKeepsInvariant | server/src/dalang_server/auth/sqlite.rs:64-70 | an insert of a fresh username keeps uids and usernames unique and adds exactly the one key |
| SqliteAuth.RegisterThenLogin | server/src/dalang_server/auth/sqlite.rs:173-194 | after a successful registration, logging in with the same name and password gives the same uid, and looking up that uid gives the name |
| SqliteAuth.TakenNameRefused | server/src/dalang_server/auth/sqlite.rs:123-130 | registering a taken username is refused and leaves the table as it was |
| SqliteAuth.RegisterOnlyAdds | server/src/dalang_server/auth/sqlite.rs:116-144 | registration never removes or changes a row, and on Err the table is unchanged |
| SqliteAuth.RegisterWritten | server/src/dalang_server/auth/sqlite.rs:123-130 | as written: a taken name panics, and a nonzero change count from an earlier insert refuses the registration |
| SqliteAuth.SQLiteAuthenticator.RegisterAsWritten | server/src/dalang_server/auth/sqlite.rs:116-144 | panics before `started`; otherwise performs the registration as written |
| SqliteAuth.SecondRegistrationRefusedAsWritten | server/src/dalang_server/auth/sqlite.rs:124-130 | as written, registering "a" and then "b" on one connection refuses "b"; the intended registration accepts it |
| SqliteAuth.AsWrittenAgreesOnFreshConnection | server/src/dalang_server/auth/sqlite.rs:123-130 | on a connection with no earlier insert, registering a name not yet taken gives the same result as written and as intended |
| SqliteAuth.TakenNamePanicsAsWritten | server/src/dalang_server/auth/sqlite.rs:124-125 | as written, registering a taken username panics, where the intended registration gives Err |

## Left out

- The `Authenticator` trait (`server/src/dalang_server/auth/mod.rs`) is not modelled as such. Only
  the SQLite implementation is, as a class.
- The r2d2 connection pool is not modelled. The model keeps one connection, with its change count.
  A real pool hands out several connections, and with `new_in_memory` each one opens a database of
  its own.
- SQLite is reduced to the `users` table as a map. A file database that already holds duplicate
  usernames is left out: the model keeps usernames unique, so `query_row`'s pick among duplicates
  does not arise.
- `SqliteAuth.SQLiteAuthenticator.New`: the database file is reduced to its initial rows, and
  failures to open it or create the table (`expect`) are not modelled.
- Logging (`println!`) and actix scheduling and addresses are left out. The session's `server`
  address is reduced to a number.
- The WebSocket library's own framing is left out; an inbound event arrives already decoded.
- bcrypt (`hash`, `verify`) and `rand::random` are parameters, not models.
- MessagePack formats outside the subset (negative integers, floats, ext, timestamps) decode to a
  model-only failure. `decode_packet` maps every failure to None, so this only matters for such
  values nested inside a payload.
- rmpv's depth budget is assumed to be 1024.
- `#[from_cloned]` fields are not modelled separately: they read the same wire types by another
  conversion path with the same result.
- rusqlite refuses a u64 above `i64::MAX` as a parameter. The model turns that into the insert's
  Err, the path the source takes.
- `ClientPacket` encoding (`unimplemented!()`) is not in the model.
- The editor tables are not decoded: the frame decoder reaches `todo!()` for them.
- `decode_u8_array`, the `ProjectData` conversion and `decode_project_data` are all `todo!()` and
  are not in the model.
- The macro's compile-time panics are left out: deriving on a non-enum, or a variant without
  `#[opcode]`, is a compile error with no run-time counterpart. A schema always gives every
  variant an opcode.
- A variant declared with empty braces or parentheses (`V {}`, `V()`) is left out: the generated
  `encode_payload` and `as_opcode` arms match it with a unit pattern, so the enum does not compile.
  `PacketDerive.ShapeWellFormed` requires at least one field in a braced or tuple variant.
- `server/src/dalang_server/protocol/mod.rs` is not part of this model: it is outside the server
  crate's module tree and consists of `todo!()`.
- The gRPC auth service and the frontends are not part of this model.
- `PacketDerive.AsOpcode` has no contract of its own. It is stated through
  `PacketDerive.OpcodeOfDecoded` and `DeriveExamples.AsOpcodeExamples`.
- `SqliteAuth.SQLiteAuthenticator.Register`: `hash` failures are modelled as an absent hash, which
  gives Err, and the Err is not distinguished from other refusals.

## Findings

| source | as written | input that shows it | evidently intended | confidence | as-written member | corrected member |
|---|---|---|---|---|---|---|
| protocol-derive/src/lib.rs:220-234 | tuple fields are taken with `payload.remove(idx)` on an array that shrinks at each step, so field i reads original item 2i | `["foo", "bar"]` under opcode 2 of the test enum: "foo" is taken, then `remove(1)` on a one-item array panics | field i is item i, so the test's VariantC("foo", "bar") results | high, not executed | PacketDerive.AsWrittenTakesEveryOther | PacketDerive.TupleFieldsPositional |
| dalang-protocol/src/lib.rs:40-43 | each extension gets `write_str_len` and then `write_str`, which writes the length again | one extension "ab": the packet ends `91 a2 a2 61 62`, which reads as the string `a2 61` with one byte left over | each extension written as one string | high (dormant while the extension list is empty), not executed | Protocol.DoubledLengthCounterexample | Protocol.VersionPacketDecodes |
| server/src/dalang_server/auth/sqlite.rs:123-130 | the username check runs `execute` on a SELECT. With a matching row `execute` fails and the `expect` panics; with no row it returns the connection's last change count, which is 1 after any earlier insert | on a fresh connection, register "a" with uid 1 and then "b" with uid 2: "b" is refused | a taken name gives Err, and any other name is inserted | medium, not executed | SqliteAuth.SecondRegistrationRefusedAsWritten | SqliteAuth.RegisterThenLogin |
