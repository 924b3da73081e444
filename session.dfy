/** The WebSocket session actor of the server. Each handler answers one event by issuing
    commands on the WebSocket context; the model keeps those commands, in order, in the
    session's outbox. Logging is left out. */
module SessionActor {
  import opened Bytes
  import opened Wrappers
  import Protocol

  /** The close codes of the WebSocket library (section 7.4.1 of RFC 6455 names them). */
  datatype CloseCode =
    | Normal | Away | ProtocolViolation | Unsupported | Abnormal | Invalid
    | Policy | Size | Extension | Error | Restart | Again | Other(code: u16)

  datatype CloseReason = CloseReason(code: CloseCode, description: Option<string>)

  /** An inbound WebSocket message. */
  datatype WsMessage =
    | Text(text: string)
    | Binary(data: seq<byte>)
    | Continuation
    | Ping(ping: seq<byte>)
    | Pong(pong: seq<byte>)
    | Close(reason: Option<CloseReason>)
    | Nop

  /** A protocol error of the WebSocket stream; its kind does not matter to the session. */
  datatype ProtocolError = ProtocolError(kind: nat)

  /** A command issued on the WebSocket context. */
  datatype Command =
    | SendBinary(data: seq<byte>)
    | SendText(text: string)
    | SendPong(pong: seq<byte>)
    | SendClose(reason: Option<CloseReason>)

  /** `messages::RawMessage`. */
  datatype RawMessage = RawText(text: string) | RawBinary(bytes: seq<byte>)

  const ExpectedBinary: string := "expected a binary message"

  /** What `started` issues for the result of building the version packet. */
  function StartCommands(built: Result<seq<byte>, Protocol.ValueWriteError>): (r: seq<Command>)
    ensures |r| == 1
    ensures built.Ok? <==> r[0].SendBinary?
    ensures built.Ok? ==> r[0] == SendBinary(built.value)
    ensures built.Err? ==> r[0] == SendClose(Some(CloseReason(Error, None)))
  {
    match built
    case Ok(payload) => [SendBinary(payload)]
    case Err(_) => [SendClose(Some(CloseReason(Error, None)))]
  }

  /** What the stream handler issues for one inbound event. */
  function StreamCommands(msg: Result<WsMessage, ProtocolError>): (r: seq<Command>)
    ensures |r| <= 1
    ensures r == [] <==> !(msg.Ok? && (msg.value.Ping? || msg.value.Text?))
    ensures msg.Ok? && msg.value.Ping? ==> r == [SendPong(msg.value.ping)]
    ensures msg.Ok? && msg.value.Text? ==> r == [SendClose(Some(CloseReason(Unsupported, Some(ExpectedBinary))))]
  {
    match msg
    case Ok(Ping(p)) => [SendPong(p)]
    case Ok(Text(_)) => [SendClose(Some(CloseReason(Unsupported, Some(ExpectedBinary))))]
    case Ok(Close(_)) => []
    case Err(_) => []
    case Ok(Binary(_)) => []
    case _ => []
  }

  /** What the raw-message handler issues: the payload as it came. */
  function RawCommand(msg: RawMessage): (r: Command)
    ensures msg.RawText? <==> r.SendText?
    ensures msg.RawText? ==> r.text == msg.text
    ensures msg.RawBinary? ==> r == SendBinary(msg.bytes)
  {
    match msg
    case RawText(t) => SendText(t)
    case RawBinary(b) => SendBinary(b)
  }

  class Session {
    /** A unique id. */
    var id: nat
    /** The address of the server actor, reduced to an identity. */
    var server: nat
    /** The commands issued so far, oldest first. */
    var outbox: seq<Command>

    constructor(id: nat, server: nat)
      ensures this.id == id && this.server == server && outbox == []
    {
      this.id := id;
      this.server := server;
      outbox := [];
    }

    /** `started` for a given outcome of `protocol_version_packet`: the packet as one binary
        frame, or a close with code Error and no description when it could not be built. */
    method StartedWith(built: Result<seq<byte>, Protocol.ValueWriteError>)
      modifies this
      ensures outbox == old(outbox) + StartCommands(built)
      ensures id == old(id) && server == old(server)
    {
      match built {
        case Ok(payload) =>
          outbox := outbox + [SendBinary(payload)];
        case Err(_) =>
          outbox := outbox + [SendClose(Some(CloseReason(Error, None)))];
      }
    }

    /** `started`: the session greets the client with the handshake packet
        `92 93 cc 00 cc 00 cc 01 90`. */
    method Started()
      modifies this
      ensures outbox == old(outbox) + [SendBinary([0x92, 0x93, 0xcc, 0x00, 0xcc, 0x00, 0xcc, 0x01, 0x90])]
      ensures id == old(id) && server == old(server)
    {
      var built := Protocol.ProtocolVersionPacket(Protocol.Extensions);
      Protocol.EmptyVersionPacket();
      StartedWith(built);
    }

    /** The stream handler: a ping is answered with a pong of the same bytes, a text frame
        closes the connection as unsupported, everything else issues nothing. */
    method HandleStream(msg: Result<WsMessage, ProtocolError>)
      modifies this
      ensures outbox == old(outbox) + StreamCommands(msg)
      ensures id == old(id) && server == old(server)
    {
      match msg {
        case Ok(Ping(p)) =>
          outbox := outbox + [SendPong(p)];
        case Ok(Text(_)) =>
          outbox := outbox + [SendClose(Some(CloseReason(Unsupported, Some(ExpectedBinary))))];
        case Ok(Close(_)) =>
        case Err(_) =>
        case Ok(Binary(_)) =>
        case _ =>
      }
    }

    /** The raw-message handler: the text or the bytes are sent on unchanged. */
    method HandleRaw(msg: RawMessage)
      modifies this
      ensures outbox == old(outbox) + [RawCommand(msg)]
      ensures id == old(id) && server == old(server)
    {
      match msg {
        case RawText(t) => outbox := outbox + [SendText(t)];
        case RawBinary(b) => outbox := outbox + [SendBinary(b)];
      }
    }
  }

  // ---------------------------------------------------------------- properties

  /** Inbound events never make the session send data: a run of them issues only pongs and
      closes, so binary and text frames come from `started` and raw messages alone. */
  lemma {:induction false} StreamNeverSendsData(msgs: seq<Result<WsMessage, ProtocolError>>)
    ensures forall c :: c in StreamAll(msgs) ==> c.SendPong? || c.SendClose?
    decreases |msgs|
  {
    if |msgs| > 0 {
      StreamNeverSendsData(msgs[1..]);
      assert StreamAll(msgs) == StreamCommands(msgs[0]) + StreamAll(msgs[1..]);
    }
  }

  /** The commands the stream handler issues for a run of inbound events. */
  function StreamAll(msgs: seq<Result<WsMessage, ProtocolError>>): (r: seq<Command>)
    ensures |r| <= |msgs|
  {
    if |msgs| == 0 then [] else StreamCommands(msgs[0]) + StreamAll(msgs[1..])
  }

  /** Every pong echoes a ping: the pongs issued for a run of events are the pings received,
      in order. */
  lemma {:induction false} PongsEchoPings(msgs: seq<Result<WsMessage, ProtocolError>>)
    ensures Pongs(StreamAll(msgs)) == Pings(msgs)
    decreases |msgs|
  {
    if |msgs| > 0 {
      PongsEchoPings(msgs[1..]);
      PongsAppend(StreamCommands(msgs[0]), StreamAll(msgs[1..]));
    }
  }

  function Pings(msgs: seq<Result<WsMessage, ProtocolError>>): seq<seq<byte>> {
    if |msgs| == 0 then []
    else (if msgs[0].Ok? && msgs[0].value.Ping? then [msgs[0].value.ping] else []) + Pings(msgs[1..])
  }

  function Pongs(cs: seq<Command>): seq<seq<byte>> {
    if |cs| == 0 then [] else (if cs[0].SendPong? then [cs[0].pong] else []) + Pongs(cs[1..])
  }

  lemma {:induction false} PongsAppend(a: seq<Command>, b: seq<Command>)
    ensures Pongs(a + b) == Pongs(a) + Pongs(b)
    decreases |a|
  {
    if |a| > 0 {
      assert (a + b)[0] == a[0] && (a + b)[1..] == a[1..] + b;
      PongsAppend(a[1..], b);
    } else {
      assert a + b == b;
    }
  }
}
