/** The error types of the protocol crate and their `From` conversions. */
module ProtocolErrors {
  import opened Bytes
  import opened Categories
  import opened Msgpack

  /** `PacketDecodeError`. */
  datatype PacketDecodeError =
    | InvalidStructure
    | UnknownOpcode(category: Category, opcode: u16)
    | UnknownCategory(givenCategory: u16)
    | InvalidPayload(category: Category, opcode: u16)
    | Msgpack(error: ValueReadError)

  /** `PacketCategoryDecodeError<Opcode>`, generic over the category's opcode type. */
  datatype PacketCategoryDecodeError<Opcode> =
    | UnknownOpcode(opcode: u16)
    | InvalidPayload(op: Opcode)
    | Msgpack(error: ValueReadError)

  /** `From<ValueReadError> for PacketDecodeError`: the read error is kept as it is. */
  function FromValueReadError(e: ValueReadError): (r: PacketDecodeError)
    ensures r.Msgpack? && r.error == e
  {
    PacketDecodeError.Msgpack(e)
  }

  /** `From<MarkerReadError> for PacketDecodeError`: a failed marker read. */
  function FromMarkerReadError(e: MarkerReadError): (r: PacketDecodeError)
    ensures r.Msgpack? && r.error.InvalidMarkerRead? && r.error.io == e.io
  {
    PacketDecodeError.Msgpack(ValueReadError.InvalidMarkerRead(e.io))
  }

  /** `From<(Category, PacketCategoryDecodeError<Opcode>)> for PacketDecodeError`, with the
      opcode type's `Into<u16>` as `into`. The category is attached to the opcode errors and
      dropped from a MessagePack error. */
  function FromCategoryError<Opcode>(c: Category, e: PacketCategoryDecodeError<Opcode>, into: Opcode -> u16)
    : (r: PacketDecodeError)
    ensures r.UnknownOpcode? <==> e.UnknownOpcode?
    ensures r.InvalidPayload? <==> e.InvalidPayload?
    ensures r.Msgpack? <==> e.Msgpack?
    ensures r.UnknownOpcode? ==> r.category == c && r.opcode == e.opcode
    ensures r.InvalidPayload? ==> r.category == c && r.opcode == into(e.op)
    ensures r.Msgpack? ==> r.error == e.error
  {
    match e
    case UnknownOpcode(op) => PacketDecodeError.UnknownOpcode(c, op)
    case InvalidPayload(op) => PacketDecodeError.InvalidPayload(c, into(op))
    case Msgpack(err) => PacketDecodeError.Msgpack(err)
  }

  /** `From<ValueReadError> for PacketCategoryDecodeError<Opcode>`. */
  function CategoryErrorFromValueReadError<Opcode>(e: ValueReadError): (r: PacketCategoryDecodeError<Opcode>)
    ensures r.Msgpack? && r.error == e
  {
    PacketCategoryDecodeError.Msgpack(e)
  }

  /** `From<rmpv::decode::Error> for PacketCategoryDecodeError<Opcode>`: the two read
      errors keep their kind and their I/O error; running out of depth becomes a data read
      error carrying the depth failure. */
  function CategoryErrorFromRmpv<Opcode>(e: RmpvError): (r: PacketCategoryDecodeError<Opcode>)
    ensures r.Msgpack?
    ensures e.InvalidMarkerRead? <==> r.error.InvalidMarkerRead?
    ensures r.error.InvalidDataRead? <==> (e.InvalidDataRead? || e.DepthLimitExceeded?)
    ensures !r.error.TypeMismatch?
    ensures e.InvalidMarkerRead? ==> r.error.io == e.io
    ensures e.InvalidDataRead? ==> r.error.io == e.io
    ensures e.DepthLimitExceeded? ==> r.error.io == DepthLimit
  {
    match e
    case InvalidMarkerRead(io) => PacketCategoryDecodeError.Msgpack(ValueReadError.InvalidMarkerRead(io))
    case InvalidDataRead(io) => PacketCategoryDecodeError.Msgpack(ValueReadError.InvalidDataRead(io))
    case DepthLimitExceeded => PacketCategoryDecodeError.Msgpack(ValueReadError.InvalidDataRead(DepthLimit))
  }

  /** A read error gives the same packet error whether it is lifted directly or first into
      a category error and then with its category. */
  lemma LiftingCommutes<Opcode>(c: Category, e: ValueReadError, into: Opcode -> u16)
    ensures FromCategoryError(c, CategoryErrorFromValueReadError<Opcode>(e), into) == FromValueReadError(e)
  {
  }

  /** A failed marker read lifts like the `InvalidMarkerRead` read error it wraps. */
  lemma MarkerErrorIsMarkerReadError(e: MarkerReadError)
    ensures FromMarkerReadError(e) == FromValueReadError(ValueReadError.InvalidMarkerRead(e.io))
  {
  }

  /** Converting a category error never yields the two errors only the frame decoder makes. */
  lemma CategoryErrorsStayCategoryErrors<Opcode>(c: Category, e: PacketCategoryDecodeError<Opcode>, into: Opcode -> u16)
    ensures !FromCategoryError(c, e, into).InvalidStructure?
    ensures !FromCategoryError(c, e, into).UnknownCategory?
  {
  }
}
