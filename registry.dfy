/** The room registry kept by the game server's `SessionState`: a table of
    rooms keyed by room id, each holding the list of its players, and a
    reverse table from player id to the room that player joined last.

    The operations are stated here as functions on the pair of tables; the
    class `SessionStore.SessionState` performs them in place and is proved
    to agree with them. */
module Registry {
  import opened Wrappers

  /** A room: its id and its players in the order they joined. The
      creation and last-activity instants of the source are not read by
      any logic and are not part of the model. */
  datatype GameRoom = GameRoom(id: string, players: seq<string>)

  /** The two tables of the session state. */
  datatype Tables = Tables(rooms: map<string, GameRoom>, playerToRoom: map<string, string>)

  /** No value occurs twice in s. */
  ghost predicate Distinct(s: seq<string>)
  {
    forall y :: multiset(s)[y] <= 1
  }

  /** The registry invariant: every room is filed under its own id and lists
      each player at most once, and every player with a room entry is listed
      in that room, which exists. */
  ghost predicate Consistent(t: Tables)
  {
    && (forall r :: r in t.rooms ==> t.rooms[r].id == r && Distinct(t.rooms[r].players))
    && (forall p :: p in t.playerToRoom ==>
          t.playerToRoom[p] in t.rooms && p in t.rooms[t.playerToRoom[p]].players)
  }

  // ---------------------------------------------------------------------
  // Vec::retain with the predicate `id != x`

  /** s with every occurrence of x dropped, the rest kept in order. */
  function Without(s: seq<string>, x: string): (r: seq<string>)
    ensures forall y :: y in r <==> y in s && y != x
    decreases |s|
  {
    if s == [] then []
    else (if s[0] == x then [] else [s[0]]) + Without(s[1..], x)
  }

  /** Without drops exactly the occurrences of x and nothing else. */
  lemma {:induction false} WithoutMultiset(s: seq<string>, x: string)
    ensures multiset(Without(s, x)) == multiset(s)[x := 0]
    decreases |s|
  {
    if s != [] {
      WithoutMultiset(s[1..], x);
      assert s == [s[0]] + s[1..];
      assert multiset(s) == multiset{s[0]} + multiset(s[1..]);
    }
  }

  /** Without keeps the order of what it keeps: it distributes over
      concatenation. */
  lemma {:induction false} WithoutAppend(a: seq<string>, b: seq<string>, x: string)
    ensures Without(a + b, x) == Without(a, x) + Without(b, x)
    decreases |a|
  {
    if a == [] {
      assert a + b == b;
    } else {
      assert (a + b)[0] == a[0];
      assert (a + b)[1..] == a[1..] + b;
      WithoutAppend(a[1..], b, x);
    }
  }

  /** Dropping a value that does not occur changes nothing. */
  lemma {:induction false} WithoutAbsent(s: seq<string>, x: string)
    requires x !in s
    ensures Without(s, x) == s
    decreases |s|
  {
    if s != [] {
      WithoutAbsent(s[1..], x);
      assert s == [s[0]] + s[1..];
    }
  }

  lemma WithoutDistinct(s: seq<string>, x: string)
    requires Distinct(s)
    ensures Distinct(Without(s, x))
  {
    WithoutMultiset(s, x);
  }

  // ---------------------------------------------------------------------
  // The operations

  /** `create_room`: files a new room with no players under roomId. The
      source draws roomId from a random UUID; here the caller supplies it. */
  function CreateRoom(t: Tables, roomId: string): (r: Tables)
    ensures r.rooms.Keys == t.rooms.Keys + {roomId}
    ensures r.rooms[roomId].players == []
    ensures forall p :: PlayerRoom(r, p) == PlayerRoom(t, p)
  {
    Tables(t.rooms[roomId := GameRoom(roomId, [])], t.playerToRoom)
  }

  /** The outcome of `join_room`: the new tables and the success flag. */
  datatype Joined = Joined(tables: Tables, ok: bool)

  /** `join_room`: when the room exists and does not yet list the player,
      appends the player to it and points the player's entry at it. */
  function JoinRoom(t: Tables, roomId: string, playerId: string): (r: Joined)
    ensures r.ok ==> PlayerRoom(r.tables, playerId) == Some(roomId)
    ensures r.ok ==> roomId in r.tables.rooms && playerId in r.tables.rooms[roomId].players
    ensures !r.ok ==> r.tables == t
  {
    if roomId in t.rooms && playerId !in t.rooms[roomId].players then
      var room := t.rooms[roomId];
      Joined(Tables(t.rooms[roomId := room.(players := room.players + [playerId])],
                    t.playerToRoom[playerId := roomId]),
             true)
    else
      Joined(t, false)
  }

  /** `leave_room`: removes the player's entry and, when its room exists,
      every occurrence of the player from that room. Rooms are never
      removed, even once empty. */
  function LeaveRoom(t: Tables, playerId: string): (r: Tables)
    ensures PlayerRoom(r, playerId) == None
    ensures r.rooms.Keys == t.rooms.Keys
  {
    if playerId in t.playerToRoom then
      var roomId := t.playerToRoom[playerId];
      var entries := t.playerToRoom - {playerId};
      if roomId in t.rooms then
        var room := t.rooms[roomId];
        Tables(t.rooms[roomId := room.(players := Without(room.players, playerId))], entries)
      else
        Tables(t.rooms, entries)
    else
      t
  }

  /** `get_player_room`: the room entry of the player, if any. */
  function PlayerRoom(t: Tables, playerId: string): (r: Option<string>)
    ensures Consistent(t) && r.Some? ==> r.value in t.rooms && playerId in t.rooms[r.value].players
  {
    if playerId in t.playerToRoom then Some(t.playerToRoom[playerId]) else None
  }

  // ---------------------------------------------------------------------
  // Properties of create_room

  lemma CreateRoomAddsEmptyRoom(t: Tables, roomId: string)
    ensures CreateRoom(t, roomId).rooms.Keys == t.rooms.Keys + {roomId}
    ensures CreateRoom(t, roomId).rooms[roomId] == GameRoom(roomId, [])
    ensures forall r :: r in t.rooms && r != roomId ==> CreateRoom(t, roomId).rooms[r] == t.rooms[r]
    ensures forall p :: PlayerRoom(CreateRoom(t, roomId), p) == PlayerRoom(t, p)
  {
  }

  lemma CreateRoomPreservesConsistent(t: Tables, roomId: string)
    requires Consistent(t)
    requires roomId !in t.rooms
    ensures Consistent(CreateRoom(t, roomId))
  {
  }

  /** Reusing the id of a room that has players breaks the invariant: the
      room is replaced by an empty one while its players still point at it. */
  lemma CreateRoomOverExistingRoom(t: Tables, roomId: string, p: string)
    requires p in t.playerToRoom && t.playerToRoom[p] == roomId
    ensures !Consistent(CreateRoom(t, roomId))
  {
  }

  // ---------------------------------------------------------------------
  // Properties of join_room

  lemma JoinRoomRejected(t: Tables, roomId: string, playerId: string)
    ensures !JoinRoom(t, roomId, playerId).ok <==>
              roomId !in t.rooms || playerId in t.rooms[roomId].players
    ensures !JoinRoom(t, roomId, playerId).ok ==> JoinRoom(t, roomId, playerId).tables == t
  {
  }

  lemma JoinRoomAccepted(t: Tables, roomId: string, playerId: string)
    requires JoinRoom(t, roomId, playerId).ok
    ensures var r := JoinRoom(t, roomId, playerId).tables;
      && r.rooms.Keys == t.rooms.Keys
      && r.rooms[roomId].id == t.rooms[roomId].id
      && r.rooms[roomId].players == t.rooms[roomId].players + [playerId]
      && multiset(r.rooms[roomId].players)[playerId] == 1
      && (forall k :: k in t.rooms && k != roomId ==> r.rooms[k] == t.rooms[k])
      && PlayerRoom(r, playerId) == Some(roomId)
      && (forall q :: q != playerId ==> PlayerRoom(r, q) == PlayerRoom(t, q))
  {
  }

  lemma JoinRoomPreservesConsistent(t: Tables, roomId: string, playerId: string)
    requires Consistent(t)
    ensures Consistent(JoinRoom(t, roomId, playerId).tables)
  {
  }

  /** join_room does not look at the player's current room: a player listed
      in room a who joins room b is then listed in both, and only b is
      recorded as the player's room. */
  lemma JoinRoomKeepsOldMembership(t: Tables, a: string, b: string, playerId: string)
    requires a != b && a in t.rooms && playerId in t.rooms[a].players
    requires JoinRoom(t, b, playerId).ok
    ensures playerId in JoinRoom(t, b, playerId).tables.rooms[a].players
    ensures playerId in JoinRoom(t, b, playerId).tables.rooms[b].players
    ensures PlayerRoom(JoinRoom(t, b, playerId).tables, playerId) == Some(b)
  {
  }

  // ---------------------------------------------------------------------
  // Properties of leave_room

  lemma LeaveRoomUnmapped(t: Tables, playerId: string)
    requires playerId !in t.playerToRoom
    ensures LeaveRoom(t, playerId) == t
  {
  }

  lemma LeaveRoomRemoves(t: Tables, playerId: string)
    requires playerId in t.playerToRoom
    ensures var r := LeaveRoom(t, playerId); var roomId := t.playerToRoom[playerId];
      && r.rooms.Keys == t.rooms.Keys
      && PlayerRoom(r, playerId) == None
      && (forall q :: q != playerId ==> PlayerRoom(r, q) == PlayerRoom(t, q))
      && (forall k :: k in t.rooms && k != roomId ==> r.rooms[k] == t.rooms[k])
      && (roomId in t.rooms ==>
            && r.rooms[roomId].id == t.rooms[roomId].id
            && playerId !in r.rooms[roomId].players
            && multiset(r.rooms[roomId].players) == multiset(t.rooms[roomId].players)[playerId := 0])
  {
    var roomId := t.playerToRoom[playerId];
    if roomId in t.rooms {
      WithoutMultiset(t.rooms[roomId].players, playerId);
    }
  }

  /** A room whose last player leaves stays filed, with no players. */
  lemma LeaveRoomKeepsEmptyRoom(t: Tables, playerId: string)
    requires playerId in t.playerToRoom
    requires t.playerToRoom[playerId] in t.rooms
    requires t.rooms[t.playerToRoom[playerId]].players == [playerId]
    ensures var roomId := t.playerToRoom[playerId];
      roomId in LeaveRoom(t, playerId).rooms && LeaveRoom(t, playerId).rooms[roomId].players == []
  {
    var players := t.rooms[t.playerToRoom[playerId]].players;
    assert players[1..] == [];
    assert Without(players, playerId) == [];
  }

  lemma LeaveRoomPreservesConsistent(t: Tables, playerId: string)
    requires Consistent(t)
    ensures Consistent(LeaveRoom(t, playerId))
  {
    if playerId in t.playerToRoom {
      var roomId := t.playerToRoom[playerId];
      var players := t.rooms[roomId].players;
      var r := LeaveRoom(t, playerId);
      WithoutDistinct(players, playerId);
      assert Distinct(r.rooms[roomId].players);
      forall q | q in r.playerToRoom
        ensures r.playerToRoom[q] in r.rooms && q in r.rooms[r.playerToRoom[q]].players
      {
        assert q != playerId && r.playerToRoom[q] == t.playerToRoom[q];
        if t.playerToRoom[q] == roomId {
          assert q in players;
          assert q in Without(players, playerId);
        }
      }
    }
  }

  /** leave_room undoes a successful join_room of a player who had no room. */
  lemma JoinThenLeave(t: Tables, roomId: string, playerId: string)
    requires playerId !in t.playerToRoom
    requires JoinRoom(t, roomId, playerId).ok
    ensures LeaveRoom(JoinRoom(t, roomId, playerId).tables, playerId) == t
  {
    var room := t.rooms[roomId];
    var joined := JoinRoom(t, roomId, playerId).tables;
    var left := LeaveRoom(joined, playerId);
    WithoutAppend(room.players, [playerId], playerId);
    WithoutAbsent(room.players, playerId);
    assert Without([playerId], playerId) == [];
    assert left.rooms[roomId] == room;
    assert left.rooms == t.rooms;
    assert left.playerToRoom == t.playerToRoom;
  }

  // ---------------------------------------------------------------------
  // Properties of get_player_room

  /** Under the invariant, the recorded room of a player exists and lists
      the player. */
  lemma PlayerRoomSound(t: Tables, playerId: string)
    requires Consistent(t)
    requires PlayerRoom(t, playerId).Some?
    ensures PlayerRoom(t, playerId).value in t.rooms
    ensures playerId in t.rooms[PlayerRoom(t, playerId).value].players
  {
  }
}
