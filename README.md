# Crate and Crypt game server core, modelled in Dafny

This project models the sequential core of the Crate and Crypt game server
(`backend/src/main.rs`, a Rust actix-web WebSocket server):

- **Room registry** (`SessionState`): a table of rooms keyed by room id,
  each with its player list, and a reverse table from player id to room.
  `create_room`, `join_room`, `leave_room` and `get_player_room` are stated
  as functions on the pair of tables (module `Registry`). The class
  `SessionStore.SessionState` performs them in place on two `map` fields
  and is proved to agree with those functions. The registry invariant
  (`Registry.Consistent`) says three things. Every room is filed under its
  own id. No room lists a player twice. Every player with a room entry is
  listed in that room, and that room exists. The invariant is proved
  preserved by `join_room`, by `leave_room`, and by `create_room` with a
  fresh id.
- **Connection query string** (`ws_route`): the query is split on `&`, and
  each pair is split on `=`. The last `playerId` and `roomId` values are
  kept, and a generated id stands in when no `playerId` is given (module
  `Query`). `Split` is proved against its inverse `JoinWith` in both
  directions. The key and value of a pair are characterised by position.
  The value kept is proved to be that of the last pair carrying the key.
- **Reply rule** (`handle_game_message` and the text branch of `handle`):
  a total function from a decoded message, or a decoding failure, to at
  most one reply (module `Protocol`).
- **Liveness** (`heartbeat` and the Ping/Pong branches of `handle`): the
  session's `hb` time, refreshed by Ping and Pong frames, and the per-tick
  decision to stop or to ping (modules `Heartbeat` and `GameSessions`).
  Time is in natural-number milliseconds.

## Model

| member | source | states |
|---|---|---|
| Registry.Without | backend/src/main.rs:102 | `retain` keeping ids other than the player: a value is in the result iff it was in the list and is not the player |
| Registry.WithoutMultiset | backend/src/main.rs:102 | retain drops every occurrence of the player and keeps every other element with its multiplicity |
| Registry.WithoutAppend | backend/src/main.rs:102 | retain keeps order: it distributes over concatenation |
| Registry.WithoutAbsent | backend/src/main.rs:102 | retain of a player not in the list leaves the list unchanged |
| Registry.WithoutDistinct | backend/src/main.rs:102 | retain keeps a duplicate-free list duplicate-free |
| Registry.CreateRoom | backend/src/main.rs:70-81 | create_room adds exactly the new key, files an empty room under it and changes no player's room |
| Registry.JoinRoom | backend/src/main.rs:84-96 | on success the player is listed in the room and recorded as in it; on failure both tables are unchanged |
| Registry.LeaveRoom | backend/src/main.rs:99-114 | afterwards the player has no room entry, and the set of rooms is unchanged |
| Registry.PlayerRoom | backend/src/main.rs:116-118 | get_player_room: under the invariant, a returned room exists and lists the player |
| Registry.CreateRoomAddsEmptyRoom | backend/src/main.rs:70-81 | create_room files an empty room under the id, adds exactly that key, leaves other rooms and every player's room unchanged |
| Registry.CreateRoomPreservesConsistent | backend/src/main.rs:70-81 | create_room with a fresh id keeps the registry invariant |
| Registry.CreateRoomOverExistingRoom | backend/src/main.rs:79 | reusing the id of a room that players point at breaks the invariant, since `insert` replaces the room; this is why freshness is needed |
| Registry.JoinRoomRejected | backend/src/main.rs:84-96 | join_room fails iff the room is unknown or already lists the player, and then changes neither table |
| Registry.JoinRoomAccepted | backend/src/main.rs:85-93 | a successful join appends the player once (it then occurs exactly once) and sets the player's room; other rooms, other players and the room keys are unchanged |
| Registry.JoinRoomPreservesConsistent | backend/src/main.rs:84-96 | join_room keeps the registry invariant |
| Registry.JoinRoomKeepsOldMembership | backend/src/main.rs:84-96 | join_room does not check the player's current room: a player in room a who joins room b is listed in both, with b recorded |
| Registry.LeaveRoomUnmapped | backend/src/main.rs:99-100 | leave_room of a player with no room entry changes nothing |
| Registry.LeaveRoomRemoves | backend/src/main.rs:99-114 | leave_room removes the player's entry and every occurrence from its room, keeps the other elements, touches no other room or player, and deletes no room |
| Registry.LeaveRoomKeepsEmptyRoom | backend/src/main.rs:108-111 | a room whose last player leaves stays in the table with no players |
| Registry.LeaveRoomPreservesConsistent | backend/src/main.rs:99-114 | leave_room keeps the registry invariant |
| Registry.JoinThenLeave | backend/src/main.rs:84-114 | for a player with no room, leave_room exactly undoes a successful join_room |
| Registry.PlayerRoomSound | backend/src/main.rs:116-118 | under the invariant, the room get_player_room returns exists and lists the player |
| SessionStore.SessionState.constructor | backend/src/main.rs:63-68 | a new session state has both tables empty and satisfies the invariant |
| SessionStore.SessionState.CreateRoom | backend/src/main.rs:70-82 | in place: returns the id and performs Registry.CreateRoom; keeps the invariant when the id is fresh |
| SessionStore.SessionState.JoinRoom | backend/src/main.rs:84-97 | in place: returns true iff the room exists without the player, performs Registry.JoinRoom, keeps the invariant |
| SessionStore.SessionState.LeaveRoom | backend/src/main.rs:99-114 | in place: performs Registry.LeaveRoom, keeps every room, removes the player's entry, keeps the invariant |
| SessionStore.SessionState.GetPlayerRoom | backend/src/main.rs:116-118 | returns the player's entry, present iff the player has one; under the invariant that room exists and lists the player |
| Query.Split | backend/src/main.rs:279-280 | `str::split`: at least one piece, and no piece contains the separator |
| Query.JoinSplit | backend/src/main.rs:279-280 | splitting loses nothing: the pieces joined with the separator give back the text |
| Query.SplitJoin | backend/src/main.rs:279-280 | joining separator-free pieces and splitting again gives back the pieces |
| Query.SplitPlain | backend/src/main.rs:280-281 | a text without the separator is one piece |
| Query.SplitHead | backend/src/main.rs:280-281 | a separator-free head followed by the separator splits off as the first piece |
| Query.SplitSingle | backend/src/main.rs:280-281 | a text is one piece iff it holds no separator |
| Query.Field | backend/src/main.rs:280-281 | the first two `=`-pieces of a pair: absent iff the pair holds no `=`, and neither key nor value contains `=` |
| Query.FieldAbsent | backend/src/main.rs:280-281 | a pair yields a key and value iff it holds an `=`, so pairs without `=` are ignored |
| Query.FieldShape | backend/src/main.rs:280-281 | the key is the text before the first `=`; the value is the text from there to the second `=` or the end |
| Query.LastValue | backend/src/main.rs:279-288 | a kept value is the value of some pair carrying the key |
| Query.LastValueNone | backend/src/main.rs:279-288 | no value is kept for a key iff no pair carries that key |
| Query.LastValueIsLastOccurrence | backend/src/main.rs:279-288 | a later pair overwrites an earlier one: the value kept is that of the last pair carrying the key |
| Query.ConnectionIds | backend/src/main.rs:274-291 | the loop keeps the last `playerId` and `roomId` values; a missing `playerId` becomes the generated id |
| Protocol.Reply | backend/src/main.rs:214-252 | handle_game_message replies iff the message is a Join, a Chat or a Ping, and never with an Error |
| Protocol.TextReply | backend/src/main.rs:182-195 | text that does not decode is answered with an Error whose message starts with `Invalid message format: `; a decoded message gets the handle_game_message reply |
| Protocol.JoinReply | backend/src/main.rs:216-229 | a Join is answered with a Join naming the session id (not the requested id), the requested room or `test-room`, and no create flag |
| Protocol.PingAndChatReplies | backend/src/main.rs:234-247 | a Ping(t) is answered with Pong(t); a Chat is echoed unchanged |
| Protocol.ErrorOnlyForUndecodable | backend/src/main.rs:182-195 | an Error reply is sent iff the text did not decode |
| Protocol.ReplySettles | backend/src/main.rs:214-252 | a Join or Chat reply sent back is answered with itself, and a Pong gets no answer |
| Heartbeat.Tick | backend/src/main.rs:257-263 | the tick decision: stop exactly when now > hb + CLIENT_TIMEOUT (10 s), and ping otherwise |
| Heartbeat.ElapsedMonotone | backend/src/main.rs:257 | `duration_since` (saturating at zero) grows with the clock and shrinks as the last frame moves later |
| Heartbeat.TickStopsIffTimedOut | backend/src/main.rs:256-263 | a tick stops the session iff more than CLIENT_TIMEOUT (10 s) has passed since the last Ping/Pong frame |
| Heartbeat.LaterRefreshNoEarlierStop | backend/src/main.rs:257 | a later heartbeat time never causes a stop that an earlier one would not, and a stop at some time is also a stop at every later time |
| Heartbeat.SilentClientStoppedOnSecondTick | backend/src/main.rs:152-156 | hb is set when the session is built and the interval starts a delay 0 < d <= 5 s later. With a tick every HEARTBEAT_INTERVAL (5 s) and no Ping/Pong frame, tick 1 pings and every tick from the second on stops the session |
| GameSessions.OnFrame | backend/src/main.rs:167-209 | `handle`: only Ping/Pong frames set hb to now, each frame sends at most one message, and only Close stops the session |
| GameSessions.PingFrameAnswered | backend/src/main.rs:169-173 | a Ping frame sets hb to now and is answered by a Pong with identical data (section 5.5.3 of RFC 6455) |
| GameSessions.OnlyHeartbeatFramesRefresh | backend/src/main.rs:167-209 | Ping and Pong frames set hb to now; every other frame leaves hb unchanged |
| GameSessions.TextFrameAtMostOneReply | backend/src/main.rs:178-206 | each frame sends at most one message, a text frame exactly the TextReply; only a Close frame stops the session |
| GameSessions.HeartbeatFrameKeepsAlive | backend/src/main.rs:169-177 | after a Ping or Pong frame at t, no tick up to t + 10 s stops the session |
| GameSessions.GameSession.constructor | backend/src/main.rs:296-301 | a session starts with its id and hb set to the start time |
| GameSessions.GameSession.Handle | backend/src/main.rs:167-209 | in place: performs GameSessions.OnFrame, updating hb and returning what is sent and whether the session stops |
| GameSessions.GameSession.HeartbeatTick | backend/src/main.rs:255-264 | a tick stops iff now > hb + 10 s, and otherwise sends one empty ping |

## Left out

- The actix actor and `HttpServer` machinery, `ws::start`, the async route and the `Mutex` around the shared state: framework plumbing and concurrency. The interval timer is modelled as calls to `HeartbeatTick`.
- JSON decoding and encoding with serde, a foreign library: a text frame carries the outcome of decoding as a `Result`. Encoding a reply is assumed to succeed, so the `if let Ok(json)` branches where serialisation fails are not modelled.
- The `f32` fields of `Position` and the fields of `Entity`: both are opaque types.
- UUID generation and `Instant::now()`: room ids, generated player ids and times are parameters.
- The `created_at`/`last_activity` instants of `GameRoom` and the `last_update` field of `GameSession`: no logic reads them.
- `health_check`, `stopped`, `main` and all logging.
- `roomId` from the query string: it is parsed and returned by `ConnectionIds`, but the source does not use it afterwards.
- The WebSocket framing itself: frames arrive already classified as Ping, Pong, Text, Binary, Close and so on.
- The game client is not modelled.
