/**
 RoomManagerService and SocketGateway as objects whose maps are updated in place. Socket.io is reduced to
 the set of sockets that are live on the server; authentication is an input of handleConnection.
 */
module SocketGateway {
  import opened Prelude
  import opened SocketIndex

  class RoomManager {
    var roomMembers: Rooms

    constructor ()
      ensures roomMembers == map[]
    {
      roomMembers := map[];
    }

    method AddToRoom(r: RoomId, s: SocketId)
      modifies this
      ensures roomMembers == SocketIndex.AddToRoom(old(roomMembers), r, s)
      ensures forall q :: Members(roomMembers, q) == Members(old(roomMembers), q) + (if q == r then {s} else {})
    {
      if r !in roomMembers {
        roomMembers := roomMembers[r := {}];
      }
      roomMembers := roomMembers[r := roomMembers[r] + {s}];
    }

    method RemoveFromRoom(r: RoomId, s: SocketId)
      modifies this
      ensures roomMembers == SocketIndex.RemoveFromRoom(old(roomMembers), r, s)
      ensures forall q :: Members(roomMembers, q) == Members(old(roomMembers), q) - (if q == r then {s} else {})
    {
      if r !in roomMembers {
        return;
      }
      roomMembers := roomMembers[r := roomMembers[r] - {s}];
      if roomMembers[r] == {} {
        roomMembers := roomMembers - {r};
      }
    }

    function GetRoomMembers(r: RoomId): (members: set<SocketId>)
      reads this
      ensures forall s :: s in members <==> IsInRoom(r, s)
    {
      Members(roomMembers, r)
    }

    function GetRoomMemberCount(r: RoomId): nat
      reads this
    {
      |Members(roomMembers, r)|
    }

    predicate IsInRoom(r: RoomId, s: SocketId)
      reads this
    {
      r in roomMembers && s in roomMembers[r]
    }

    /** First pass: take the socket out of each room and collect the rooms that became empty; second pass: drop those. */
    method RemoveFromAllRooms(s: SocketId)
      modifies this
      ensures roomMembers == SocketIndex.RemoveFromAllRooms(old(roomMembers), s)
      ensures forall q :: Members(roomMembers, q) == Members(old(roomMembers), q) - {s}
    {
      var before := roomMembers;
      var todo := roomMembers.Keys;
      var emptied: set<RoomId> := {};
      while todo != {}
        invariant todo <= before.Keys && roomMembers.Keys == before.Keys
        invariant forall r :: r in before ==> roomMembers[r] == if r in todo then before[r] else before[r] - {s}
        invariant forall r :: r in emptied <==> r in before && r !in todo && before[r] == {s}
        decreases todo
      {
        var r :| r in todo;
        if s in roomMembers[r] {
          roomMembers := roomMembers[r := roomMembers[r] - {s}];
          if roomMembers[r] == {} {
            emptied := emptied + {r};
          }
        }
        todo := todo - {r};
      }
      ghost var shrunk := roomMembers;
      var doomed := emptied;
      while doomed != {}
        invariant doomed <= emptied
        invariant roomMembers == shrunk - (emptied - doomed)
        decreases doomed
      {
        var r :| r in doomed;
        roomMembers := roomMembers - {r};
        doomed := doomed - {r};
      }
      assert emptied - {} == emptied;
    }
  }

  class SocketGateway {
    var connectedClients: map<SocketId, Client>
    var userSockets: map<UserId, set<SocketId>>
    const roomManager: RoomManager
    var live: set<SocketId>    // server.sockets.sockets

    ghost function View(): Index
      reads this, roomManager
    {
      Index(connectedClients, userSockets, roomManager.roomMembers)
    }

    constructor ()
      ensures View() == EMPTY && live == {} && fresh(roomManager)
    {
      connectedClients, userSockets, live := map[], map[], {};
      roomManager := new RoomManager();
    }

    /** handleConnection after authentication and the two joins. */
    method TrackConnection(s: SocketId, c: Client)
      modifies this`connectedClients, this`userSockets, roomManager
      ensures View() == Track(old(View()), s, c)
    {
      roomManager.AddToRoom(UserRoom(c.userId), s);
      roomManager.AddToRoom(BROADCAST_ROOM, s);
      connectedClients := connectedClients[s := c];
      if c.userId !in userSockets {
        userSockets := userSockets[c.userId := {}];
      }
      userSockets := userSockets[c.userId := userSockets[c.userId] + {s}];
    }

    method HandleConnection(s: SocketId, authenticated: Option<Client>)
      requires Valid(View()) && s !in connectedClients
      modifies this, roomManager
      ensures Valid(View())
      ensures match authenticated
              case Some(c) => View() == Track(old(View()), s, c) && live == old(live) + {s}
              case None => View() == old(View()) && live == old(live) - {s}
      ensures authenticated.Some? ==>
                var u := authenticated.value.userId;
                && s in connectedClients && connectedClients[s] == authenticated.value && u in userSockets && s in userSockets[u]
                && s in Members(roomManager.roomMembers, "user:" + u) && s in Members(roomManager.roomMembers, "broadcast:all")
    {
      if authenticated.None? {
        live := live - {s};
        return;
      }
      TrackPreserves(View(), s, authenticated.value);
      live := live + {s};
      TrackConnection(s, authenticated.value);
    }

    method HandleDisconnect(s: SocketId)
      requires Valid(View())
      modifies this`connectedClients, this`userSockets, roomManager
      ensures Valid(View())
      ensures View() == Purge(old(View()), {s})
    {
      hide Valid, Purge, Members, SocketIndex.RemoveFromAllRooms;
      DisconnectIsPurge(View(), s);
      PurgePreserves(View(), {s});
      if s in connectedClients {
        var u := connectedClients[s].userId;
        if u in userSockets {
          userSockets := userSockets[u := userSockets[u] - {s}];
          if userSockets[u] == {} {
            userSockets := userSockets - {u};
            assert userSockets == old(userSockets) - {u};
          }
        }
      }
      connectedClients := connectedClients - {s};
      roomManager.RemoveFromAllRooms(s);
    }

    /** handleRoomJoin from its await on; an invalid room id is refused. */
    method HandleRoomJoin(r: RoomId, s: SocketId) returns (success: bool, members: nat)
      requires Valid(View())
      modifies roomManager
      ensures Valid(View()) && View() == Join(old(View()), r, s)
      ensures success <==> IsValidRoomId(r)
      ensures success <==> exists kind, name :: IsRoomOf(r, kind, name)
      ensures members == if success then |Members(View().rooms, r)| else 0
      ensures MembersConnected(old(View())) && s in connectedClients ==> MembersConnected(View())
    {
      ValidRoomIdIff(r);
      if !IsValidRoomId(r) {
        return false, 0;
      }
      roomManager.AddToRoom(r, s);
      return true, roomManager.GetRoomMemberCount(r);
    }

    /** handleRoomLeave; `u` is the socket's authenticated user. */
    method HandleRoomLeave(r: RoomId, s: SocketId, u: UserId) returns (success: bool)
      requires Valid(View()) && (s in connectedClients ==> connectedClients[s].userId == u)
      modifies roomManager
      ensures Valid(View()) && View() == Leave(old(View()), r, s, u)
      ensures success <==> r != "user:" + u && r != "broadcast:all"
      ensures MembersConnected(old(View())) ==> MembersConnected(View())
    {
      LeavePreserves(View(), r, s, u);
      if IsDefaultRoom(r, u) {
        return false;
      }
      roomManager.RemoveFromRoom(r, s);
      return true;
    }

    /** The Set object that forceLogoutUser iterates: each disconnect takes an element out of it. */
    function SocketsOf(u: UserId): set<SocketId>
      reads this
    {
      if u in userSockets then userSockets[u] else {}
    }

    /**
     The for loop over a Set that shrinks under it: every element still present and not yet visited is
     visited; disconnecting a live socket runs handleDisconnect before the loop goes on.
     */
    method ForceLogoutUser(u: UserId)
      requires Valid(View())
      modifies this, roomManager
      ensures Valid(View())
      ensures View() == Purge(old(View()), old(SocketsOf(u)) * old(live))
      ensures live == old(live) - old(SocketsOf(u))
      ensures SocketsOf(u) == old(SocketsOf(u)) - old(live)
      ensures old(SocketsOf(u)) <= old(live) ==>
                && u !in userSockets
                && (forall s :: s in connectedClients ==> connectedClients[s].userId != u)
                && (forall r :: Members(roomManager.roomMembers, r) == Members(old(roomManager.roomMembers), r) - old(SocketsOf(u)))
    {
      ghost var ix, mine, servers := View(), SocketsOf(u), live;
      ghost var done: set<SocketId> := {};
      var visited: set<SocketId> := {};
      PurgeNothing(ix);
      while SocketsOf(u) - visited != {}
        invariant visited <= mine && done == visited * servers
        invariant Valid(View()) && View() == Purge(ix, done)
        invariant SocketsOf(u) == mine - done && live == servers - visited
        decreases mine - visited
      {
        var s :| s in SocketsOf(u) - visited;
        visited := visited + {s};
        if s in live {
          PurgeTwice(ix, done, {s});
          live := live - {s};
          HandleDisconnect(s);
          done := done + {s};
        }
      }
      assert visited == mine by { assert mine - done <= visited; }
      assert done == mine * servers;
      if mine <= servers {
        assert done == mine;
        PurgingAUserIsExact(ix, u);
      }
    }
  }
}
