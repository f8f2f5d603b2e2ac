/** A game session: one WebSocket connection, its id, and the time it last
    heard a Ping or Pong frame, with the stream handler and the heartbeat. */
module GameSessions {
  import opened Wrappers
  import opened Protocol
  import Heartbeat

  newtype byte = x: int | 0 <= x < 256

  /** The reason carried by a Close frame. */
  datatype CloseReason = CloseReason(code: nat, description: Option<string>)

  /** An inbound WebSocket frame. A text frame carries the outcome of
      decoding its text as a GameMessage; the decoder itself is not part of
      this model. ProtocolFailure stands for a frame the transport could
      not read. */
  datatype Frame =
    | PingFrame(data: seq<byte>)
    | PongFrame(data: seq<byte>)
    | TextFrame(decoded: Result<GameMessage, string>)
    | BinaryFrame(data: seq<byte>)
    | CloseFrame(reason: Option<CloseReason>)
    | ContinuationFrame
    | NopFrame
    | ProtocolFailure

  /** Something the session sends to the client. */
  datatype Outbound =
    | SendPong(data: seq<byte>)
    | SendPing(data: seq<byte>)
    | SendText(message: GameMessage)
    | SendBinary(data: seq<byte>)
    | SendClose(reason: Option<CloseReason>)

  /** The effect of one frame: the new heartbeat time, what is sent, and
      whether the session stops. */
  datatype FrameOutcome = FrameOutcome(hb: nat, sent: seq<Outbound>, stop: bool)

  /** The stream handler's `handle`, for a session with the given id whose
      last heartbeat was at hb, receiving frame at time now. */
  function OnFrame(sessionId: string, hb: nat, frame: Frame, now: nat): (r: FrameOutcome)
    ensures r.hb == if frame.PingFrame? || frame.PongFrame? then now else hb
    ensures |r.sent| <= 1
    ensures r.stop <==> frame.CloseFrame?
  {
    match frame
    case PingFrame(data) => FrameOutcome(now, [SendPong(data)], false)
    case PongFrame(_) => FrameOutcome(now, [], false)
    case TextFrame(decoded) =>
      var reply := TextReply(sessionId, decoded);
      FrameOutcome(hb, if reply.Some? then [SendText(reply.value)] else [], false)
    case BinaryFrame(data) => FrameOutcome(hb, [SendBinary(data)], false)
    case CloseFrame(reason) => FrameOutcome(hb, [SendClose(reason)], true)
    case _ => FrameOutcome(hb, [], false)
  }

  /** A Ping frame is answered by a Pong with identical application data
      (section 5.5.3 of RFC 6455) and refreshes the heartbeat. */
  lemma PingFrameAnswered(sessionId: string, hb: nat, data: seq<byte>, now: nat)
    ensures OnFrame(sessionId, hb, PingFrame(data), now) == FrameOutcome(now, [SendPong(data)], false)
  {
  }

  /** Only Ping and Pong frames move the heartbeat time, and they set it to
      the time of the frame. */
  lemma OnlyHeartbeatFramesRefresh(sessionId: string, hb: nat, frame: Frame, now: nat)
    ensures frame.PingFrame? || frame.PongFrame? ==> OnFrame(sessionId, hb, frame, now).hb == now
    ensures !(frame.PingFrame? || frame.PongFrame?) ==> OnFrame(sessionId, hb, frame, now).hb == hb
  {
  }

  /** A text frame produces at most one message, the one TextReply names,
      and the session stops only on a Close frame. */
  lemma TextFrameAtMostOneReply(sessionId: string, hb: nat, frame: Frame, now: nat)
    ensures |OnFrame(sessionId, hb, frame, now).sent| <= 1
    ensures frame.TextFrame? ==>
      OnFrame(sessionId, hb, frame, now).sent ==
        (var r := TextReply(sessionId, frame.decoded); if r.Some? then [SendText(r.value)] else [])
    ensures OnFrame(sessionId, hb, frame, now).stop <==> frame.CloseFrame?
  {
  }

  /** A client that sent a Ping or Pong frame at t is not stopped by any
      heartbeat tick up to the timeout after t. */
  lemma HeartbeatFrameKeepsAlive(sessionId: string, hb: nat, frame: Frame, t: nat, now: nat)
    requires frame.PingFrame? || frame.PongFrame?
    requires now <= t + Heartbeat.ClientTimeoutMs
    ensures Heartbeat.Tick(OnFrame(sessionId, hb, frame, t).hb, now) == Heartbeat.SendPing
  {
  }

  /** `GameSession`, with the clock turned into a parameter of each call. */
  class GameSession {
    const id: string
    var hb: nat

    /** A session started at time now with the given id. */
    constructor (id: string, now: nat)
      ensures this.id == id && hb == now
    {
      this.id := id;
      hb := now;
    }

    /** `handle`: processes one frame; stop stands for `ctx.stop()`. */
    method Handle(frame: Frame, now: nat) returns (sent: seq<Outbound>, stop: bool)
      modifies this
      ensures FrameOutcome(hb, sent, stop) == OnFrame(id, old(hb), frame, now)
    {
      sent, stop := [], false;
      match frame {
        case PingFrame(data) =>
          hb := now;
          sent := [SendPong(data)];
        case PongFrame(_) =>
          hb := now;
        case TextFrame(decoded) =>
          var reply := TextReply(id, decoded);
          if reply.Some? {
            sent := [SendText(reply.value)];
          }
        case BinaryFrame(data) =>
          sent := [SendBinary(data)];
        case CloseFrame(reason) =>
          sent := [SendClose(reason)];
          stop := true;
        case ContinuationFrame =>
        case NopFrame =>
        case ProtocolFailure =>
      }
    }

    /** One run of the heartbeat interval at time now: stops the session when
      the client has been silent too long, and sends an empty ping otherwise. */
    method HeartbeatTick(now: nat) returns (sent: seq<Outbound>, stop: bool)
      ensures stop <==> now > hb + Heartbeat.ClientTimeoutMs
      ensures sent == if stop then [] else [SendPing([])]
    {
      if Heartbeat.Elapsed(now, hb) > Heartbeat.ClientTimeoutMs {
        sent, stop := [], true;
      } else {
        sent, stop := [SendPing([])], false;
      }
    }
  }
}
