/**
 The in-memory indexes of the socket gateway: connectedClients, userSockets and the room manager's
 roomMembers, as values. Each function is one synchronous stretch of a handler; awaits separate them.
 */
module SocketIndex {
  import opened Prelude

  type SocketId = string
  type UserId = string
  type RoomId = string

  datatype Client = Client(userId: UserId, sessionId: string, connectedAt: string)

  type Rooms = map<RoomId, set<SocketId>>

  datatype Index = Index(clients: map<SocketId, Client>, users: map<UserId, set<SocketId>>, rooms: Rooms)

  const EMPTY: Index := Index(map[], map[], map[])

  function UserRoom(u: UserId): RoomId { "user:" + u }

  const BROADCAST_ROOM: RoomId := "broadcast:all"

  predicate IsDefaultRoom(r: RoomId, u: UserId) {
    r == UserRoom(u) || r == BROADCAST_ROOM
  }

  // ---------------------------------------------------------------- room ids

  predicate IsNameChar(c: char) {
    'a' <= c <= 'z' || 'A' <= c <= 'Z' || '0' <= c <= '9' || c == '_' || c == '-'
  }

  predicate NameAfter(r: RoomId, prefix: string) {
    prefix < r && forall i :: |prefix| <= i < |r| ==> IsNameChar(r[i])
  }

  /** (group|channel|user|broadcast):[a-zA-Z0-9_-]+ */
  predicate IsValidRoomId(r: RoomId) {
    NameAfter(r, "group:") || NameAfter(r, "channel:") || NameAfter(r, "user:") || NameAfter(r, "broadcast:")
  }

  predicate AllNameChars(name: string) {
    forall c :: c in name ==> 'a' <= c <= 'z' || 'A' <= c <= 'Z' || '0' <= c <= '9' || c == '_' || c == '-'
  }

  /** A room id is one of the four kinds, a colon, and a non-empty name. */
  predicate IsRoomOf(r: RoomId, kind: string, name: string) {
    kind in ["group", "channel", "user", "broadcast"] && name != "" && AllNameChars(name) && r == kind + ":" + name
  }

  lemma NameAfterIff(r: RoomId, prefix: string)
    ensures NameAfter(r, prefix) <==> |prefix| < |r| && r[..|prefix|] == prefix && AllNameChars(r[|prefix|..])
  {
    if |prefix| < |r| {
      var name := r[|prefix|..];
      assert prefix < r <==> r[..|prefix|] == prefix;
      if AllNameChars(name) {
        forall i | |prefix| <= i < |r| ensures IsNameChar(r[i]) {
          assert r[i] == name[i - |prefix|] && name[i - |prefix|] in name;
        }
      }
      if forall i :: |prefix| <= i < |r| ==> IsNameChar(r[i]) {
        forall i | 0 <= i < |name| ensures IsNameChar(name[i]) {
          assert name[i] == r[i + |prefix|];
        }
      }
    }
  }

  lemma RoomOfKind(r: RoomId, kind: string)
    requires kind in ["group", "channel", "user", "broadcast"]
    ensures NameAfter(r, kind + ":") <==> exists name :: IsRoomOf(r, kind, name)
  {
    var prefix := kind + ":";
    NameAfterIff(r, prefix);
    if NameAfter(r, prefix) {
      assert r == prefix + r[|prefix|..];
      assert IsRoomOf(r, kind, r[|prefix|..]);
    }
    if name :| IsRoomOf(r, kind, name) {
      assert r[..|prefix|] == prefix && r[|prefix|..] == name;
    }
  }

  lemma RoomKind(r: RoomId, kind: string, name: string)
    requires IsRoomOf(r, kind, name)
    ensures kind == "group" || kind == "channel" || kind == "user" || kind == "broadcast"
  {
  }

  /** Exactly these room ids are accepted. */
  lemma ValidRoomIdIff(r: RoomId)
    ensures IsValidRoomId(r) <==> exists kind, name :: IsRoomOf(r, kind, name)
  {
    RoomOfKind(r, "group");
    RoomOfKind(r, "channel");
    RoomOfKind(r, "user");
    RoomOfKind(r, "broadcast");
    assert "group" + ":" == "group:" && "channel" + ":" == "channel:" && "user" + ":" == "user:" && "broadcast" + ":" == "broadcast:";
    hide NameAfter, IsRoomOf;
    if kind, name :| IsRoomOf(r, kind, name) { RoomKind(r, kind, name); }
  }

  // ---------------------------------------------------------------- room updates

  function Members(rooms: Rooms, r: RoomId): set<SocketId> {
    if r in rooms then rooms[r] else {}
  }

  function AddToRoom(rooms: Rooms, r: RoomId, s: SocketId): Rooms {
    rooms[r := Members(rooms, r) + {s}]
  }

  function RemoveFromRoom(rooms: Rooms, r: RoomId, s: SocketId): Rooms {
    if r !in rooms then rooms
    else if rooms[r] - {s} == {} then rooms - {r}
    else rooms[r := rooms[r] - {s}]
  }

  /** removeFromAllRooms: only rooms that held the socket can become empty and disappear. */
  function RemoveFromAllRooms(rooms: Rooms, s: SocketId): Rooms {
    map r | r in rooms && rooms[r] != {s} :: rooms[r] - {s}
  }

  // ---------------------------------------------------------------- handler stretches

  /** handleConnection once authentication and both joins have completed. */
  function Track(ix: Index, s: SocketId, c: Client): Index {
    var u := c.userId;
    Index(ix.clients[s := c],
          ix.users[u := (if u in ix.users then ix.users[u] else {}) + {s}],
          AddToRoom(AddToRoom(ix.rooms, UserRoom(u), s), BROADCAST_ROOM, s))
  }

  function Disconnect(ix: Index, s: SocketId): Index {
    var users :=
      if s in ix.clients && ix.clients[s].userId in ix.users then
        var u := ix.clients[s].userId;
        if ix.users[u] - {s} == {} then ix.users - {u} else ix.users[u := ix.users[u] - {s}]
      else ix.users;
    Index(ix.clients - {s}, users, RemoveFromAllRooms(ix.rooms, s))
  }

  function Join(ix: Index, r: RoomId, s: SocketId): Index {
    if IsValidRoomId(r) then ix.(rooms := AddToRoom(ix.rooms, r, s)) else ix
  }

  function Leave(ix: Index, r: RoomId, s: SocketId, u: UserId): Index {
    if IsDefaultRoom(r, u) then ix else ix.(rooms := RemoveFromRoom(ix.rooms, r, s))
  }

  // ---------------------------------------------------------------- invariants

  /** userSockets is exactly the inverse of connectedClients and holds no empty set. */
  predicate Inverse(ix: Index) {
    && (forall u :: u in ix.users ==> ix.users[u] != {})
    && (forall u, s :: u in ix.users && s in ix.users[u] ==> s in ix.clients && ix.clients[s].userId == u)
    && (forall s :: s in ix.clients ==> ix.clients[s].userId in ix.users && s in ix.users[ix.clients[s].userId])
  }

  predicate NoEmptyRoom(rooms: Rooms) {
    forall r :: r in rooms ==> rooms[r] != {}
  }

  predicate InDefaultRooms(ix: Index) {
    forall s :: s in ix.clients ==> s in Members(ix.rooms, UserRoom(ix.clients[s].userId)) && s in Members(ix.rooms, BROADCAST_ROOM)
  }

  predicate Valid(ix: Index) {
    Inverse(ix) && NoEmptyRoom(ix.rooms) && InDefaultRooms(ix)
  }

  predicate MembersConnected(ix: Index) {
    forall r, s :: r in ix.rooms && s in ix.rooms[r] ==> s in ix.clients
  }

  // ---------------------------------------------------------------- removing a set of sockets at once

  /** What is left when a set of sockets is taken out of every map. */
  function Purge(ix: Index, gone: set<SocketId>): Index {
    Index(ix.clients - gone,
          map u | u in ix.users && ix.users[u] - gone != {} :: ix.users[u] - gone,
          map r | r in ix.rooms && ix.rooms[r] - gone != {} :: ix.rooms[r] - gone)
  }

  /** The two-map bookkeeping of handleDisconnect takes the socket out of every map and nothing else. */
  lemma DisconnectIsPurge(ix: Index, s: SocketId)
    requires Valid(ix)
    ensures Disconnect(ix, s) == Purge(ix, {s})
  {
    var d, p := Disconnect(ix, s), Purge(ix, {s});
    assert d.users == p.users by {
      assert forall u :: u in ix.users && !(s in ix.clients && ix.clients[s].userId == u) ==> s !in ix.users[u] && ix.users[u] - {s} == ix.users[u];
    }
    assert d.rooms == p.rooms by {
      assert forall r :: r in ix.rooms ==> (ix.rooms[r] != {s} <==> ix.rooms[r] - {s} != {});
    }
  }

  lemma PurgeTwice(ix: Index, a: set<SocketId>, b: set<SocketId>)
    ensures Purge(Purge(ix, a), b) == Purge(ix, a + b)
  {
    assert forall x: set<SocketId> :: x - a - b == x - (a + b);
    assert ix.clients - a - b == ix.clients - (a + b);
    var p, q := Purge(Purge(ix, a), b), Purge(ix, a + b);
    assert p.users == q.users;
    assert p.rooms == q.rooms;
  }

  lemma PurgeNothing(ix: Index)
    requires Valid(ix)
    ensures Purge(ix, {}) == ix
  {
    assert forall x: set<SocketId> :: x - {} == x;
  }

  lemma PurgePreserves(ix: Index, gone: set<SocketId>)
    requires Valid(ix)
    ensures Valid(Purge(ix, gone))
    ensures MembersConnected(ix) ==> MembersConnected(Purge(ix, gone))
  {
    var p := Purge(ix, gone);
    forall s | s in p.clients ensures s in Members(p.rooms, UserRoom(p.clients[s].userId)) && s in Members(p.rooms, BROADCAST_ROOM) {
      assert s in ix.rooms[UserRoom(ix.clients[s].userId)] - gone;
      assert s in ix.rooms[BROADCAST_ROOM] - gone;
    }
    forall s | s in p.clients ensures p.clients[s].userId in p.users && s in p.users[p.clients[s].userId] {
      assert s in ix.users[ix.clients[s].userId] - gone;
    }
  }

  /**
   Forced logout when all of the user's sockets are live: the user has no tracked socket, none of these
   sockets is in any room, and every other socket keeps exactly its entries.
   */
  lemma PurgingAUserIsExact(ix: Index, u: UserId)
    requires Valid(ix)
    ensures var mine := if u in ix.users then ix.users[u] else {};
            var p := Purge(ix, mine);
            && u !in p.users
            && (forall s :: s in p.clients ==> p.clients[s].userId != u)
            && (forall r, s :: s in Members(p.rooms, r) <==> s in Members(ix.rooms, r) && s !in mine)
            && (forall v :: v != u ==> (v in p.users <==> v in ix.users) && (v in ix.users ==> p.users[v] == ix.users[v]))
            && (forall s :: s in ix.clients && ix.clients[s].userId != u ==> s in p.clients && p.clients[s] == ix.clients[s])
  {
    var mine := if u in ix.users then ix.users[u] else {};
    forall v | v != u && v in ix.users ensures ix.users[v] - mine == ix.users[v] {
      forall s | s in ix.users[v] ensures s !in mine {
        assert s in ix.clients && ix.clients[s].userId == v;
      }
    }
    forall r, s | s in Members(ix.rooms, r) && s !in mine ensures s in Members(Purge(ix, mine).rooms, r) {
      assert s in ix.rooms[r] - mine;
    }
  }

  // ---------------------------------------------------------------- every interleaving of handler stretches

  datatype Event =
    | Tracked(s: SocketId, c: Client)
    | Disconnected(s: SocketId)
    | Joined(r: RoomId, s: SocketId)
    | Left(r: RoomId, s: SocketId, u: UserId)

  /** `gone`: sockets whose disconnect was handled. */
  datatype Run = Run(ix: Index, gone: set<SocketId>)

  const START: Run := Run(EMPTY, {})

  /** A socket id connects and disconnects once, and its user never changes. */
  predicate Enabled(run: Run, e: Event) {
    match e
    case Tracked(s, _) => s !in run.ix.clients
    case Disconnected(s) => s !in run.gone
    case Joined(_, _) => true
    case Left(_, s, u) => s in run.ix.clients ==> run.ix.clients[s].userId == u
  }

  function Apply(run: Run, e: Event): Run {
    if !Enabled(run, e) then run else
      match e
      case Tracked(s, c) => run.(ix := Track(run.ix, s, c))
      case Disconnected(s) => Run(Disconnect(run.ix, s), run.gone + {s})
      case Joined(r, s) => run.(ix := Join(run.ix, r, s))
      case Left(r, s, u) => run.(ix := Leave(run.ix, r, s, u))
  }

  function Execute(events: seq<Event>): Run {
    if events == [] then START else Apply(Execute(events[..|events| - 1]), events[|events| - 1])
  }

  predicate Mentions(ix: Index, s: SocketId) {
    s in ix.clients || (exists u :: u in ix.users && s in ix.users[u]) || (exists r :: r in ix.rooms && s in ix.rooms[r])
  }

  lemma RoomNames(u: UserId, v: UserId)
    ensures UserRoom(u) == UserRoom(v) <==> u == v
    ensures IsDefaultRoom(UserRoom(u), u) && UserRoom(u) != BROADCAST_ROOM
  {
    assert UserRoom(u)[5..] == u && UserRoom(v)[5..] == v;
    assert UserRoom(u)[0] == 'u' && BROADCAST_ROOM[0] == 'b';
  }

  lemma AddedMembers(rooms: Rooms, r: RoomId, s: SocketId, q: RoomId)
    ensures Members(AddToRoom(rooms, r, s), q) == Members(rooms, q) + (if q == r then {s} else {})
    ensures NoEmptyRoom(rooms) ==> NoEmptyRoom(AddToRoom(rooms, r, s))
  {
  }

  lemma TrackedMembers(rooms: Rooms, u: UserId, s: SocketId, q: RoomId)
    ensures Members(AddToRoom(AddToRoom(rooms, UserRoom(u), s), BROADCAST_ROOM, s), q)
            == Members(rooms, q) + (if IsDefaultRoom(q, u) then {s} else {})
    ensures NoEmptyRoom(rooms) ==> NoEmptyRoom(AddToRoom(AddToRoom(rooms, UserRoom(u), s), BROADCAST_ROOM, s))
  {
    AddedMembers(rooms, UserRoom(u), s, q);
    AddedMembers(AddToRoom(rooms, UserRoom(u), s), BROADCAST_ROOM, s, q);
  }

  lemma TrackInverse(ix: Index, s: SocketId, c: Client)
    requires Inverse(ix) && s !in ix.clients
    ensures Inverse(Track(ix, s, c))
  {
    hide AddToRoom;
    var ix' := Track(ix, s, c);
    assert forall u :: u in ix.users && u != c.userId ==> s !in ix.users[u] && ix'.users[u] == ix.users[u];
  }

  /** The members of every room after a connection, as far as the maps go. */
  lemma TrackRooms(ix: Index, s: SocketId, c: Client)
    ensures var rooms := Track(ix, s, c).rooms;
            && (forall q :: Members(rooms, q) == Members(ix.rooms, q) + (if IsDefaultRoom(q, c.userId) then {s} else {}))
            && (NoEmptyRoom(ix.rooms) ==> NoEmptyRoom(rooms))
  {
    hide Members, AddToRoom, NoEmptyRoom, IsDefaultRoom;
    forall q ensures Members(Track(ix, s, c).rooms, q) == Members(ix.rooms, q) + (if IsDefaultRoom(q, c.userId) then {s} else {}) {
      TrackedMembers(ix.rooms, c.userId, s, q);
    }
    TrackedMembers(ix.rooms, c.userId, s, BROADCAST_ROOM);
  }

  lemma TrackDefaults(ix: Index, s: SocketId, c: Client)
    requires InDefaultRooms(ix)
    ensures InDefaultRooms(Track(ix, s, c))
  {
    hide Members, AddToRoom, UserRoom, BROADCAST_ROOM;
    TrackRooms(ix, s, c);
    var ix' := Track(ix, s, c);
    assert ix'.clients == ix.clients[s := c];
  }

  lemma TrackPreserves(ix: Index, s: SocketId, c: Client)
    requires Valid(ix) && s !in ix.clients
    ensures Valid(Track(ix, s, c))
    ensures forall r, x :: x in Members(Track(ix, s, c).rooms, r) ==> x == s || x in Members(ix.rooms, r)
  {
    hide Inverse, Members, Track, InDefaultRooms, NoEmptyRoom, IsDefaultRoom;
    TrackInverse(ix, s, c);
    TrackRooms(ix, s, c);
    TrackDefaults(ix, s, c);
  }

  lemma LeavePreserves(ix: Index, r: RoomId, s: SocketId, u: UserId)
    requires Valid(ix) && (s in ix.clients ==> ix.clients[s].userId == u)
    ensures Valid(Leave(ix, r, s, u))
    ensures forall q, x :: x in Members(Leave(ix, r, s, u).rooms, q) ==> x in Members(ix.rooms, q)
  {
    var ix' := Leave(ix, r, s, u);
    forall x | x in ix'.clients ensures x in Members(ix'.rooms, UserRoom(ix'.clients[x].userId)) && x in Members(ix'.rooms, BROADCAST_ROOM) {
      RoomNames(u, ix.clients[x].userId);
    }
  }

  lemma EventPreserves(run: Run, e: Event)
    requires Valid(run.ix)
    ensures Valid(Apply(run, e).ix)
  {
    if Enabled(run, e) {
      match e {
        case Tracked(s, c) => TrackPreserves(run.ix, s, c);
        case Disconnected(s) =>
          DisconnectIsPurge(run.ix, s);
          PurgePreserves(run.ix, {s});
        case Joined(r, s) =>
        case Left(r, s, u) => LeavePreserves(run.ix, r, s, u);
      }
    }
  }

  /** At every await boundary of every interleaving, starting from an empty gateway. */
  lemma {:induction false} RunKeepsIndexes(events: seq<Event>)
    ensures Valid(Execute(events).ix)
  {
    if events != [] {
      RunKeepsIndexes(events[..|events| - 1]);
      EventPreserves(Execute(events[..|events| - 1]), events[|events| - 1]);
    }
  }

  // ---------------------------------------------------------------- who is a member, from the history alone

  predicate Puts(e: Event, s: SocketId, r: RoomId) {
    match e
    case Tracked(x, c) => x == s && IsDefaultRoom(r, c.userId)
    case Joined(q, x) => x == s && q == r && IsValidRoomId(r)
    case _ => false
  }

  predicate Takes(e: Event, s: SocketId, r: RoomId) {
    match e
    case Disconnected(x) => x == s
    case Left(q, x, u) => x == s && q == r && !IsDefaultRoom(r, u)
    case _ => false
  }

  /** The i-th event was enabled when its turn came. */
  predicate Effective(events: seq<Event>, i: nat)
    requires i < |events|
  {
    Enabled(Execute(events[..i]), events[i])
  }

  predicate PutsAt(events: seq<Event>, i: nat, s: SocketId, r: RoomId)
    requires i < |events|
  {
    Effective(events, i) && Puts(events[i], s, r)
  }

  predicate TakesAt(events: seq<Event>, i: nat, s: SocketId, r: RoomId)
    requires i < |events|
  {
    Effective(events, i) && Takes(events[i], s, r)
  }

  /** The last connection, join, leave or disconnect that moved the socket in or out of the room moved it in. */
  predicate LastPutIn(events: seq<Event>, s: SocketId, r: RoomId) {
    exists i :: 0 <= i < |events| && PutsAt(events, i, s, r) && forall j :: i < j < |events| ==> !TakesAt(events, j, s, r)
  }

  lemma PrefixEvents(events: seq<Event>, n: nat, s: SocketId, r: RoomId)
    requires n <= |events|
    ensures forall i :: 0 <= i < n ==>
              && (PutsAt(events[..n], i, s, r) <==> PutsAt(events, i, s, r))
              && (TakesAt(events[..n], i, s, r) <==> TakesAt(events, i, s, r))
  {
    forall i | 0 <= i < n ensures events[..n][..i] == events[..i] {
    }
  }

  lemma LastPutInStep(events: seq<Event>, s: SocketId, r: RoomId)
    requires events != []
    ensures var n := |events| - 1;
            LastPutIn(events, s, r) <==> PutsAt(events, n, s, r) || (LastPutIn(events[..n], s, r) && !TakesAt(events, n, s, r))
  {
    hide PutsAt, TakesAt;
    var n := |events| - 1;
    PrefixEvents(events, n, s, r);
    if i :| 0 <= i < n && PutsAt(events[..n], i, s, r) && forall j :: i < j < n ==> !TakesAt(events[..n], j, s, r) {
      assert PutsAt(events, i, s, r) && forall j :: i < j < n ==> !TakesAt(events, j, s, r);
    }
    if i :| 0 <= i < n && PutsAt(events, i, s, r) && forall j :: i < j < |events| ==> !TakesAt(events, j, s, r) {
      assert PutsAt(events[..n], i, s, r) && forall j :: i < j < n ==> !TakesAt(events[..n], j, s, r);
    }
  }

  lemma MemberStep(run: Run, e: Event, s: SocketId, r: RoomId)
    requires Valid(run.ix)
    ensures s in Members(Apply(run, e).ix.rooms, r) <==>
              if Enabled(run, e) && Puts(e, s, r) then true
              else if Enabled(run, e) && Takes(e, s, r) then false
              else s in Members(run.ix.rooms, r)
  {
    if Enabled(run, e) {
      match e {
        case Tracked(x, c) => TrackedMembers(run.ix.rooms, c.userId, x, r);
        case Disconnected(x) => DisconnectIsPurge(run.ix, x);
        case Joined(q, x) => AddedMembers(run.ix.rooms, q, x, r);
        case Left(q, x, u) =>
      }
    }
  }

  /** Over every interleaving, a socket is in a room exactly when the last event that moved it moved it in. */
  lemma {:induction false} MemberIffLastPutIn(events: seq<Event>, s: SocketId, r: RoomId)
    ensures s in Members(Execute(events).ix.rooms, r) <==> LastPutIn(events, s, r)
  {
    hide Enabled, Apply, Puts, Takes, LastPutIn, Members;
    if events == [] {
      NobodyAtStart(s, r);
    } else {
      var before := events[..|events| - 1];
      RunKeepsIndexes(before);
      MemberIffLastPutIn(before, s, r);
      MemberStep(Execute(before), events[|events| - 1], s, r);
      LastPutInStep(events, s, r);
      PutXorTake(events[|events| - 1], s, r);
    }
  }

  lemma NobodyAtStart(s: SocketId, r: RoomId)
    ensures s !in Members(START.ix.rooms, r) && !LastPutIn([], s, r)
  {
  }

  lemma PutXorTake(e: Event, s: SocketId, r: RoomId)
    ensures !(Puts(e, s, r) && Takes(e, s, r))
  {
  }

  // ---------------------------------------------------------------- what is left of a disconnected socket

  /** The d-th event is the disconnect of the socket. */
  predicate DisconnectedAt(events: seq<Event>, d: nat, s: SocketId) {
    d < |events| && events[d] == Disconnected(s) && Effective(events, d)
  }

  lemma {:induction false} GoneIffDisconnected(events: seq<Event>, s: SocketId)
    ensures s in Execute(events).gone <==> exists d :: DisconnectedAt(events, d, s)
  {
    if events != [] {
      var n := |events| - 1;
      GoneIffDisconnected(events[..n], s);
      forall d | 0 <= d < n ensures DisconnectedAt(events[..n], d, s) <==> DisconnectedAt(events, d, s) {
        assert events[..n][..d] == events[..d];
      }
      assert s in Execute(events).gone <==> s in Execute(events[..n]).gone || DisconnectedAt(events, n, s);
    }
  }

  lemma StaysGone(events: seq<Event>, d: nat, s: SocketId, i: nat)
    requires DisconnectedAt(events, d, s) && d < i <= |events|
    ensures s in Execute(events[..i]).gone
  {
    hide Execute, Enabled;
    assert events[..i][..d] == events[..d];
    assert DisconnectedAt(events[..i], d, s);
    GoneIffDisconnected(events[..i], s);
  }

  /** What happens after a disconnect does not change that it happened. */
  lemma DisconnectExtends(before: seq<Event>, after: seq<Event>, d: nat, s: SocketId)
    requires DisconnectedAt(before, d, s)
    ensures DisconnectedAt(before + after, d, s)
  {
    hide Execute, Enabled;
    assert (before + after)[..d] == before[..d];
  }

  /** The socket's connection handler came to track it after the d-th event. */
  predicate TrackedAfter(events: seq<Event>, d: nat, s: SocketId) {
    exists i :: d < i < |events| && events[i].Tracked? && events[i].s == s
  }

  /** The last event to move the socket in or out of the room moved it in, after the d-th event. */
  predicate PutInAfter(events: seq<Event>, d: nat, s: SocketId, r: RoomId) {
    exists i :: d < i < |events| && PutsAt(events, i, s, r) && forall j :: i < j < |events| ==> !TakesAt(events, j, s, r)
  }

  /** A disconnected socket is still a client exactly when its connection handler resumed after the disconnect. */
  lemma {:induction false} StrayClientIff(events: seq<Event>, d: nat, s: SocketId)
    requires DisconnectedAt(events, d, s)
    ensures s in Execute(events).ix.clients <==> TrackedAfter(events, d, s)
    decreases |events|
  {
    var n := |events| - 1;
    if d == n {
      assert Execute(events) == Apply(Execute(events[..n]), events[n]);
    } else {
      var before := events[..n];
      assert before[..d] == events[..d];
      assert DisconnectedAt(before, d, s);
      StrayClientIff(before, d, s);
      GoneIffDisconnected(before, s);
      assert TrackedAfter(events, d, s) <==> TrackedAfter(before, d, s) || (events[n].Tracked? && events[n].s == s) by {
        if i :| d < i < n && before[i].Tracked? && before[i].s == s { assert events[i].Tracked?; }
        if i :| d < i < |events| && events[i].Tracked? && events[i].s == s && i < n { assert before[i].Tracked?; }
      }
      ClientStep(Execute(before), events[n], s);
    }
  }

  /** Only a disconnect removes a client, and a gone socket has no second one. */
  lemma ClientStep(run: Run, e: Event, s: SocketId)
    requires s in run.gone
    ensures s in Apply(run, e).ix.clients <==> s in run.ix.clients || (e.Tracked? && e.s == s)
  {
  }

  /** And it is still in a room exactly when the last event to move it since the disconnect moved it in. */
  lemma StrayMemberIff(events: seq<Event>, d: nat, s: SocketId, r: RoomId)
    requires DisconnectedAt(events, d, s)
    ensures s in Members(Execute(events).ix.rooms, r) <==> PutInAfter(events, d, s, r)
  {
    MemberIffLastPutIn(events, s, r);
    assert TakesAt(events, d, s, r) && !PutsAt(events, d, s, r);
  }

  /** A disconnected socket occurs in no map exactly when nothing resumed that put it back to stay. */
  lemma DisconnectedSocketIsForgottenIff(events: seq<Event>, d: nat, s: SocketId)
    requires DisconnectedAt(events, d, s)
    ensures !Mentions(Execute(events).ix, s) <==> !TrackedAfter(events, d, s) && forall r :: !PutInAfter(events, d, s, r)
  {
    var ix := Execute(events).ix;
    RunKeepsIndexes(events);
    StrayClientIff(events, d, s);
    forall r ensures s in Members(ix.rooms, r) <==> PutInAfter(events, d, s, r) {
      StrayMemberIff(events, d, s, r);
    }
    hide TrackedAfter, PutInAfter;
    if r :| PutInAfter(events, d, s, r) { assert r in ix.rooms && s in ix.rooms[r]; }
    if r :| r in ix.rooms && s in ix.rooms[r] { assert s in Members(ix.rooms, r); }
  }

  /** In particular when no connection or join handler of the socket resumed at all. */
  lemma QuietSocketIsForgotten(events: seq<Event>, d: nat, s: SocketId)
    requires DisconnectedAt(events, d, s)
    requires forall i :: d < i < |events| && events[i].s == s ==> events[i].Left? || events[i].Disconnected?
    ensures !Mentions(Execute(events).ix, s)
  {
    DisconnectedSocketIsForgottenIff(events, d, s);
  }

  /** A connection handler that resumes after the disconnect leaves an entry that no later event removes. */
  lemma LateConnectionLeaksForever(before: seq<Event>, d: nat, s: SocketId, c: Client, later: seq<Event>)
    requires DisconnectedAt(before, d, s)
    ensures s in Execute(before + [Tracked(s, c)] + later).ix.clients
  {
    hide Execute, Effective;
    var events := before + [Tracked(s, c)] + later;
    assert events == before + ([Tracked(s, c)] + later);
    DisconnectExtends(before, [Tracked(s, c)] + later, d, s);
    assert events[|before|] == Tracked(s, c);
    StrayClientIff(events, d, s);
  }

  /** A join handler that resumes after the disconnect leaves a membership until that socket leaves that room. */
  lemma LateJoinLeaks(before: seq<Event>, d: nat, s: SocketId, r: RoomId, later: seq<Event>)
    requires DisconnectedAt(before, d, s) && IsValidRoomId(r)
    requires forall j :: 0 <= j < |later| && later[j].Left? ==> !(later[j].s == s && later[j].r == r)
    ensures s in Members(Execute(before + [Joined(r, s)] + later).ix.rooms, r)
  {
    hide Execute, Members;
    var events, n := before + [Joined(r, s)] + later, |before|;
    assert events == before + ([Joined(r, s)] + later);
    DisconnectExtends(before, [Joined(r, s)] + later, d, s);
    assert events[n] == Joined(r, s);
    assert PutsAt(events, n, s, r);
    forall j | n < j < |events| ensures !TakesAt(events, j, s, r) {
      assert events[j] == later[j - n - 1];
      StaysGone(events, d, s, j);
    }
    StrayMemberIff(events, d, s, r);
  }

  predicate Handled(run: Run, e: Event) {
    Enabled(run, e) && e.s !in run.gone && (e.Joined? ==> e.s in run.ix.clients)
  }

  /** Every handler ran to completion before its socket's disconnect, and only tracked sockets joined rooms. */
  predicate AllHandled(events: seq<Event>) {
    forall i :: 0 <= i < |events| ==> Handled(Execute(events[..i]), events[i])
  }

  /** Then no disconnected socket is remembered. */
  lemma CompletedHandlersForget(events: seq<Event>, s: SocketId)
    requires AllHandled(events) && s in Execute(events).gone
    ensures !Mentions(Execute(events).ix, s)
  {
    hide Execute, Effective, Mentions;
    GoneIffDisconnected(events, s);
    var d: nat :| DisconnectedAt(events, d, s);
    forall i | d < i < |events| ensures events[i].s != s {
      StaysGone(events, d, s, i);
      assert Handled(Execute(events[..i]), events[i]);
    }
    QuietSocketIsForgotten(events, d, s);
  }

  /** And every room member is a connected socket. */
  lemma {:induction false} CompletedHandlersLeaveNoStrays(events: seq<Event>)
    requires AllHandled(events)
    ensures MembersConnected(Execute(events).ix)
    ensures forall s :: s in Execute(events).gone ==> !Mentions(Execute(events).ix, s)
  {
    forall s | s in Execute(events).gone ensures !Mentions(Execute(events).ix, s) {
      CompletedHandlersForget(events, s);
    }
    hide Mentions;
    if events != [] {
      var n := |events| - 1;
      assert Handled(Execute(events[..n]), events[n]);
      forall i | 0 <= i < n ensures Handled(Execute(events[..n][..i]), events[..n][i]) {
        assert events[..n][..i] == events[..i];
      }
      CompletedHandlersLeaveNoStrays(events[..n]);
      RunKeepsIndexes(events[..n]);
      HandledKeepsConnected(Execute(events[..n]), events[n]);
    }
  }

  lemma HandledKeepsConnected(run: Run, e: Event)
    requires Valid(run.ix) && MembersConnected(run.ix) && Handled(run, e)
    ensures MembersConnected(Apply(run, e).ix)
  {
    var ix := Apply(run, e).ix;
    forall r, x | r in ix.rooms && x in ix.rooms[r] ensures x in ix.clients {
      assert x in Members(ix.rooms, r);
      MemberStep(run, e, x, r);
    }
  }
}
