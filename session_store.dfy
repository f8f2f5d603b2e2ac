/** `SessionState`: the room registry as the server holds it, two hash maps
    updated in place. Each method is proved to perform the corresponding
    operation of module Registry and to keep Registry.Consistent. */
module SessionStore {
  import opened Wrappers
  import opened Registry

  class SessionState {
    var rooms: map<string, GameRoom>
    var playerToRoom: map<string, string>

    /** The two tables as a value. */
    function Tables(): Registry.Tables
      reads this
    {
      Registry.Tables(rooms, playerToRoom)
    }

    /** `SessionState::new`: both tables empty. */
    constructor ()
      ensures rooms == map[] && playerToRoom == map[]
      ensures Consistent(Tables())
    {
      rooms := map[];
      playerToRoom := map[];
    }

    /** `create_room`, with the fresh id supplied by the caller. */
    method CreateRoom(roomId: string) returns (id: string)
      modifies this
      ensures id == roomId
      ensures Tables() == Registry.CreateRoom(old(Tables()), roomId)
      ensures old(Consistent(Tables())) && roomId !in old(rooms) ==> Consistent(Tables())
    {
      var room := GameRoom(roomId, []);
      rooms := rooms[roomId := room];
      id := roomId;
      if old(Consistent(Tables())) && roomId !in old(rooms) {
        CreateRoomPreservesConsistent(old(Tables()), roomId);
      }
    }

    /** `join_room`. */
    method JoinRoom(roomId: string, playerId: string) returns (ok: bool)
      modifies this
      ensures Joined(Tables(), ok) == Registry.JoinRoom(old(Tables()), roomId, playerId)
      ensures ok <==> roomId in old(rooms) && playerId !in old(rooms)[roomId].players
      ensures old(Consistent(Tables())) ==> Consistent(Tables())
    {
      ok := false;
      if roomId in rooms {
        var room := rooms[roomId];
        if playerId !in room.players {
          rooms := rooms[roomId := room.(players := room.players + [playerId])];
          playerToRoom := playerToRoom[playerId := roomId];
          ok := true;
        }
      }
      if old(Consistent(Tables())) {
        JoinRoomPreservesConsistent(old(Tables()), roomId, playerId);
      }
    }

    /** `leave_room`. */
    method LeaveRoom(playerId: string)
      modifies this
      ensures Tables() == Registry.LeaveRoom(old(Tables()), playerId)
      ensures rooms.Keys == old(rooms).Keys
      ensures playerId !in playerToRoom
      ensures old(Consistent(Tables())) ==> Consistent(Tables())
    {
      if playerId in playerToRoom {
        var roomId := playerToRoom[playerId];
        playerToRoom := playerToRoom - {playerId};
        if roomId in rooms {
          var room := rooms[roomId];
          rooms := rooms[roomId := room.(players := Without(room.players, playerId))];
        }
      }
      if old(Consistent(Tables())) {
        LeaveRoomPreservesConsistent(old(Tables()), playerId);
      }
    }

    /** `get_player_room`. */
    method GetPlayerRoom(playerId: string) returns (roomId: Option<string>)
      ensures roomId == PlayerRoom(Tables(), playerId)
      ensures roomId.Some? <==> playerId in playerToRoom
      ensures Consistent(Tables()) && roomId.Some? ==>
                roomId.value in rooms && playerId in rooms[roomId.value].players
    {
      if playerId in playerToRoom {
        roomId := Some(playerToRoom[playerId]);
      } else {
        roomId := None;
      }
    }
  }
}
