/** The game-message protocol of the server: the tagged `GameMessage`
    envelope and the reply the server sends to each inbound message. */
module Protocol {
  import opened Wrappers

  /** `u64`, the type of the ping/pong time stamps. */
  newtype u64 = x: int | 0 <= x < 0x1_0000_0000_0000_0000

  /** A position (three `f32` coordinates and an optional rotation); kept
      opaque, since no logic of the server looks inside it. */
  type Position(==)

  /** A world object (id, kind, position, state); kept opaque likewise. */
  type Entity(==)

  /** `GameMessage`, tagged by `type` with its fields under `payload`. The
      Join fields are renamed so as not to clash with the `player_id` of
      the other variants, which has a different type. */
  datatype GameMessage =
    | Join(joinPlayerId: Option<string>, joinRoomId: Option<string>, createRoom: Option<bool>)
    | Leave(playerId: string)
    | Chat(playerId: string, text: string)
    | PlayerUpdate(playerId: string, position: Position, action: Option<string>)
    | WorldUpdate(entities: seq<Entity>)
    | Error(message: string)
    | Ping(time: u64)
    | Pong(time: u64)

  /** The room named in a Join reply when the request names none. */
  const DefaultRoom: string := "test-room"

  /** The start of the Error message sent for text that does not decode. */
  const InvalidFormatPrefix: string := "Invalid message format: "

  /** `handle_game_message`: the reply to a decoded message, if any. A Join
      is answered with the session's own id and the requested room (or the
      default room); a Chat is echoed; a Ping is answered with a Pong; the
      other kinds are only logged. */
  function Reply(sessionId: string, message: GameMessage): (r: Option<GameMessage>)
    ensures r.Some? <==> message.Join? || message.Chat? || message.Ping?
    ensures r.Some? ==> !r.value.Error?
  {
    match message
    case Join(_, roomId, _) => Some(Join(Some(sessionId), Some(roomId.GetOr(DefaultRoom)), None))
    case Chat(_, _) => Some(message)
    case Ping(time) => Some(Pong(time))
    case _ => None
  }

  /** The text-frame branch of the stream handler: a decoded message is
      answered by Reply, a decoding failure by an Error naming the reason. */
  function TextReply(sessionId: string, decoded: Result<GameMessage, string>): (r: Option<GameMessage>)
    ensures decoded.Err? ==> r.Some? && r.value.Error?
    ensures decoded.Err? ==> InvalidFormatPrefix <= r.value.message
    ensures decoded.Ok? ==> r == Reply(sessionId, decoded.value)
  {
    match decoded
    case Ok(message) => Reply(sessionId, message)
    case Err(reason) => Some(Error(InvalidFormatPrefix + reason))
  }

  /** A Join is answered with the session's id, whatever id it asked for,
      and with the room it asked for, or the default room. */
  lemma JoinReply(sessionId: string, playerId: Option<string>, roomId: Option<string>, create: Option<bool>)
    ensures var r := Reply(sessionId, Join(playerId, roomId, create));
      && r.Some? && r.value.Join?
      && r.value.joinPlayerId == Some(sessionId)
      && r.value.joinRoomId == (if roomId.Some? then roomId else Some(DefaultRoom))
      && r.value.createRoom.None?
  {
  }

  /** A Ping is answered with a Pong carrying the same time; a Chat comes
      back unchanged. */
  lemma PingAndChatReplies(sessionId: string, time: u64, playerId: string, text: string)
    ensures Reply(sessionId, Ping(time)) == Some(Pong(time))
    ensures Reply(sessionId, Chat(playerId, text)) == Some(Chat(playerId, text))
  {
  }

  /** An Error reply is sent exactly when the text did not decode. */
  lemma ErrorOnlyForUndecodable(sessionId: string, decoded: Result<GameMessage, string>)
    ensures (TextReply(sessionId, decoded).Some? && TextReply(sessionId, decoded).value.Error?)
            <==> decoded.Err?
  {
  }

  /** Replies to replies: a Join or Chat reply, sent back, is answered with
      itself, and a Pong is not answered, so an exchange settles after one
      round. */
  lemma ReplySettles(sessionId: string, message: GameMessage)
    requires Reply(sessionId, message).Some?
    ensures var r := Reply(sessionId, message).value;
      if r.Pong? then Reply(sessionId, r).None? else Reply(sessionId, r) == Some(r)
  {
  }
}
