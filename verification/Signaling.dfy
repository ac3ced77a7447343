/**
 The signaling server: a pool of clients with a free list, rooms holding lists of clients, and the
 effect of each message. Clients are pool slots; a room is found by its name.
 */
module Signaling {
  import opened Words
  import opened Lists

  type Name = seq<Byte>

  datatype Client = Client(fd: int, room: Name, auth: bool, last: U64)

  datatype Room = Room(members: seq<int>, count: U32)

  /** `fds` maps a descriptor to its client, -1 for none. */
  datatype Server = Server(
    clients: seq<Client>, free: seq<int>, fds: seq<int>, active: int, peak: int, rooms: map<Name, Room>)

  datatype Message = Ignored | Auth(verified: bool) | Join(room: Name, memory: bool) | Leave | Relay | Ping | Unknown

  datatype Event =
    | Accept(fd: nat, now: U64)
    | Receive(fd: nat, message: Message, now: U64)
    | Close(fd: nat)

  // ----- operations

  predicate IsClient(s: Server, c: int) { 0 <= c < |s.clients| }

  function AfterAlloc(s: Server, fd: nat, now: U64): Server
    requires fd < |s.fds| && (s.free != [] ==> IsClient(s, s.free[0]))
  {
    if s.free == [] then s
    else
      var c := s.free[0];
      s.(clients := s.clients[c := Client(fd, [], false, now)], free := s.free[1..], fds := s.fds[fd := c],
         active := s.active + 1, peak := Max(s.peak, s.active + 1))
  }

  function Dropped(r: Room, c: int): Room {
    if c in r.members then Room(Without(r.members, c), Wrap32(r.count - 1)) else r
  }

  /** The client is unlinked from the room its name finds, if any. */
  function AfterUnlist(s: Server, c: int): Server
    requires IsClient(s, c)
  {
    var name := s.clients[c].room;
    if name in s.rooms then s.(rooms := s.rooms[name := Dropped(s.rooms[name], c)]) else s
  }

  function AfterUnlistIfNamed(s: Server, c: int): Server
    requires IsClient(s, c)
  {
    if s.clients[c].room != [] then AfterUnlist(s, c) else s
  }

  function AfterRelease(s: Server, c: int): Server
    requires IsClient(s, c)
  {
    var fd := s.clients[c].fd;
    s.(fds := if 0 <= fd < |s.fds| then s.fds[fd := -1] else s.fds, active := s.active - 1, free := [c] + s.free)
  }

  function AfterFree(s: Server, c: int): Server
    requires IsClient(s, c)
  {
    AfterRelease(AfterUnlistIfNamed(s, c), c)
  }

  /** A missing room is created if there is memory for it. */
  function AfterEnsureRoom(s: Server, name: Name, memory: bool): Server {
    if name in s.rooms || !memory then s else s.(rooms := s.rooms[name := Room([], 0)])
  }

  function AfterEnter(s: Server, c: int, name: Name): Server
    requires IsClient(s, c)
  {
    if name !in s.rooms then s
    else
      var r := s.rooms[name];
      s.(clients := s.clients[c := s.clients[c].(room := name)],
         rooms := s.rooms[name := Room([c] + r.members, Wrap32(r.count + 1))])
  }

  function AfterJoin(s: Server, c: int, name: Name, memory: bool): Server
    requires IsClient(s, c)
  {
    AfterEnter(AfterEnsureRoom(AfterUnlistIfNamed(s, c), name, memory), c, name)
  }

  function AfterClearName(s: Server, c: int): Server
    requires IsClient(s, c)
  {
    s.(clients := s.clients[c := s.clients[c].(room := [])])
  }

  function AfterLeave(s: Server, c: int): Server
    requires IsClient(s, c)
  {
    AfterClearName(AfterUnlist(s, c), c)
  }

  /** The descriptors a message from `exclude` is relayed to, along a list of clients. */
  function Recipients(clients: seq<Client>, members: seq<int>, exclude: int): seq<int>
    decreases |members|
  {
    if members == [] then []
    else
      var c := members[0];
      (if 0 <= c < |clients| && clients[c].fd != exclude && clients[c].auth then [clients[c].fd] else []) +
      Recipients(clients, members[1..], exclude)
  }

  function Broadcast(s: Server, name: Name, exclude: int): seq<int> {
    if name in s.rooms then Recipients(s.clients, s.rooms[name].members, exclude) else []
  }

  function AfterTouch(s: Server, c: int, now: U64): Server
    requires IsClient(s, c)
  {
    s.(clients := s.clients[c := s.clients[c].(last := now)])
  }

  function AfterMessage(s: Server, c: int, m: Message, now: U64): Server
    requires IsClient(s, c)
  {
    if m.Ignored? then s else AfterDispatch(AfterTouch(s, c, now), c, m)
  }

  function AfterDispatch(s: Server, c: int, m: Message): Server
    requires IsClient(s, c)
  {
    match m
    case Auth(verified) =>
      if verified then s.(clients := s.clients[c := s.clients[c].(auth := true)]) else AfterFree(s, c)
    case Join(name, memory) => if s.clients[c].auth then AfterJoin(s, c, name, memory) else s
    case Leave => if s.clients[c].auth then AfterLeave(s, c) else s
    case _ => s
  }

  function Step(s: Server, e: Event): Server
    requires PoolOk(s)
  {
    match e
    case Accept(fd, now) => if fd < |s.fds| then FreeHead(s); AfterAlloc(s, fd, now) else s
    case Receive(fd, m, now) =>
      if fd < |s.fds| && s.fds[fd] != -1 then assert FdMapOk(s, fd); AfterMessage(s, s.fds[fd], m, now) else s
    case Close(fd) =>
      if fd < |s.fds| && s.fds[fd] != -1 then assert FdMapOk(s, fd); AfterFree(s, s.fds[fd]) else s
  }

  /** The system hands out only descriptors that are not open. */
  predicate Enabled(s: Server, e: Event) {
    e.Accept? && e.fd < |s.fds| ==> s.fds[e.fd] == -1
  }

  // ----- invariant

  predicate Active(s: Server, c: int) { IsClient(s, c) && c !in s.free }

  predicate FdOk(s: Server, c: int) {
    Active(s, c) ==> 0 <= s.clients[c].fd < |s.fds| && s.fds[s.clients[c].fd] == c
  }

  predicate FdMapOk(s: Server, fd: int) {
    0 <= fd < |s.fds| && s.fds[fd] != -1 ==> Active(s, s.fds[fd]) && s.clients[s.fds[fd]].fd == fd
  }

  /** Active and free clients make up the pool, and open descriptors name exactly the active ones. */
  ghost predicate PoolOk(s: Server) {
    NoRepeat(s.free) && (forall c {:trigger c in s.free} :: c in s.free ==> IsClient(s, c)) &&
    s.active + |s.free| == |s.clients| < 0x1_0000_0000 &&
    (forall c {:trigger FdOk(s, c)} :: FdOk(s, c)) &&
    (forall fd {:trigger FdMapOk(s, fd)} :: FdMapOk(s, fd))
  }

  predicate MemberOk(s: Server, name: Name, c: int) {
    Active(s, c) && s.clients[c].auth && s.clients[c].room == name != []
  }

  ghost predicate RoomOk(s: Server, name: Name, hole: int) {
    name in s.rooms ==>
      NoRepeat(s.rooms[name].members) && s.rooms[name].count == |s.rooms[name].members| &&
      hole !in s.rooms[name].members &&
      forall c {:trigger c in s.rooms[name].members} :: c in s.rooms[name].members ==> MemberOk(s, name, c)
  }

  predicate Placed(s: Server, c: int) {
    Active(s, c) && s.clients[c].room != [] ==>
      s.clients[c].room in s.rooms && c in s.rooms[s.clients[c].room].members
  }

  /**
   The rooms hold exactly the clients that name them, all authenticated; `hole` is a client in no list,
   on its way between two rooms.
   */
  ghost predicate RoomsOk(s: Server, hole: int) {
    (forall name {:trigger RoomOk(s, name, hole)} :: RoomOk(s, name, hole)) &&
    (forall c {:trigger Placed(s, c)} :: c != hole ==> Placed(s, c))
  }

  ghost predicate Invariant(s: Server) { PoolOk(s) && RoomsOk(s, -1) }

  lemma FreeHead(s: Server)
    requires PoolOk(s)
    ensures s.free != [] ==> IsClient(s, s.free[0])
  {
    assert s.free != [] ==> s.free[0] in s.free;
  }

  // ----- rooms

  /** Nothing in a room depends on descriptors or activity times. */
  lemma RoomsFrame(s: Server, s': Server, hole: int)
    requires RoomsOk(s, hole) && s'.rooms == s.rooms && s'.free == s.free && |s'.clients| == |s.clients|
    requires forall c {:trigger s'.clients[c]} :: 0 <= c < |s.clients| ==>
      s'.clients[c].room == s.clients[c].room && (s.clients[c].auth ==> s'.clients[c].auth)
    ensures RoomsOk(s', hole)
  {
    forall name ensures RoomOk(s', name, hole) {
      assert RoomOk(s, name, hole);
    }
    forall c | c != hole ensures Placed(s', c) {
      assert Placed(s, c);
    }
  }

  /** After unlinking, the client is in no list. */
  lemma UnlistKeeps(s: Server, c: int)
    requires RoomsOk(s, -1) && Active(s, c)
    ensures RoomsOk(AfterUnlist(s, c), c)
  {
    var s' := AfterUnlist(s, c);
    assert Placed(s, c);
    forall name ensures RoomOk(s', name, c) {
      assert RoomOk(s, name, -1);
      if name in s.rooms { WithoutMembers(s.rooms[name].members, c); }
    }
    forall d | d != c ensures Placed(s', d) {
      assert Placed(s, d);
      if Active(s, d) && s.clients[d].room in s.rooms {
        assert RoomOk(s, s.clients[d].room, -1);
        WithoutMembers(s.rooms[s.clients[d].room].members, c);
      }
    }
  }

  lemma UnlistIfNamedKeeps(s: Server, c: int)
    requires RoomsOk(s, -1) && Active(s, c)
    ensures RoomsOk(AfterUnlistIfNamed(s, c), c)
  {
    if s.clients[c].room != [] {
      UnlistKeeps(s, c);
    } else {
      forall name ensures RoomOk(s, name, c) {
        assert RoomOk(s, name, -1);
      }
      forall d | d != c ensures Placed(s, d) {
        assert d != -1 ==> Placed(s, d);
      }
    }
  }

  lemma EnsureRoomKeeps(s: Server, name: Name, memory: bool, hole: int)
    requires RoomsOk(s, hole)
    ensures RoomsOk(AfterEnsureRoom(s, name, memory), hole)
  {
    var s' := AfterEnsureRoom(s, name, memory);
    forall n ensures RoomOk(s', n, hole) {
      assert RoomOk(s, n, hole);
    }
    forall d | d != hole ensures Placed(s', d) {
      assert Placed(s, d);
    }
  }

  /** A list of a room never outgrows its counter. */
  lemma MembersFit(s: Server, name: Name, c: int)
    requires RoomsOk(s, c) && Active(s, c) && name in s.rooms && |s.clients| < 0x1_0000_0000
    ensures |s.rooms[name].members| + 1 < 0x1_0000_0000
  {
    assert RoomOk(s, name, c);
    PushNoRepeat(c, s.rooms[name].members);
    Pigeonhole([c] + s.rooms[name].members, |s.clients|);
  }

  lemma EnterKeeps(s: Server, c: int, name: Name)
    requires RoomsOk(s, c) && Active(s, c) && s.clients[c].auth && |s.clients| < 0x1_0000_0000
    requires name != [] && name in s.rooms
    ensures RoomsOk(AfterEnter(s, c, name), -1)
  {
    var s' := AfterEnter(s, c, name);
    MembersFit(s, name, c);
    forall n ensures RoomOk(s', n, -1) {
      assert RoomOk(s, n, c);
      if n == name { PushNoRepeat(c, s.rooms[n].members); }
    }
    forall d | d != -1 ensures Placed(s', d) {
      assert d != c ==> Placed(s, d);
    }
  }

  lemma ClearNameKeeps(s: Server, c: int)
    requires RoomsOk(s, c) && Active(s, c)
    ensures RoomsOk(AfterClearName(s, c), -1)
  {
    var s' := AfterClearName(s, c);
    forall n ensures RoomOk(s', n, -1) {
      assert RoomOk(s, n, c);
    }
    forall d | d != -1 ensures Placed(s', d) {
      assert d != c ==> Placed(s, d);
    }
  }

  lemma ReleaseKeepsRooms(s: Server, c: int)
    requires RoomsOk(s, c) && IsClient(s, c)
    ensures RoomsOk(AfterRelease(s, c), -1)
  {
    var s' := AfterRelease(s, c);
    assert forall d :: d in s'.free <==> d == c || d in s.free;
    forall n ensures RoomOk(s', n, -1) {
      assert RoomOk(s, n, c);
    }
    forall d | d != -1 ensures Placed(s', d) {
      assert d != c ==> Placed(s, d);
    }
  }

  lemma AllocKeepsRooms(s: Server, fd: nat, now: U64)
    requires PoolOk(s) && RoomsOk(s, -1) && fd < |s.fds| && (s.free != [] ==> IsClient(s, s.free[0]))
    ensures RoomsOk(AfterAlloc(s, fd, now), -1)
  {
    var s' := AfterAlloc(s, fd, now);
    assert s.free != [] ==> forall d :: d in s.free <==> d == s.free[0] || d in s'.free;
    forall n ensures RoomOk(s', n, -1) {
      assert RoomOk(s, n, -1);
    }
    forall d | d != -1 ensures Placed(s', d) {
      assert Placed(s, d);
    }
  }

  // ----- the pool

  lemma PoolFrame(s: Server, s': Server)
    requires PoolOk(s) && s'.free == s.free && s'.fds == s.fds && s'.active == s.active && |s'.clients| == |s.clients|
    requires forall c {:trigger s'.clients[c]} :: 0 <= c < |s.clients| ==> s'.clients[c].fd == s.clients[c].fd
    ensures PoolOk(s')
  {
    forall c ensures FdOk(s', c) {
      assert FdOk(s, c);
    }
    forall fd ensures FdMapOk(s', fd) {
      assert FdMapOk(s, fd);
    }
  }

  lemma ReleaseKeepsPool(s: Server, c: int)
    requires PoolOk(s) && Active(s, c)
    ensures PoolOk(AfterRelease(s, c))
  {
    var s' := AfterRelease(s, c);
    assert FdOk(s, c);
    PushNoRepeat(c, s.free);
    assert forall d :: d in s'.free <==> d == c || d in s.free;
    forall d ensures FdOk(s', d) {
      assert FdOk(s, d);
    }
    forall fd ensures FdMapOk(s', fd) {
      assert FdMapOk(s, fd);
    }
  }

  lemma AllocKeepsPool(s: Server, fd: nat, now: U64)
    requires PoolOk(s) && fd < |s.fds| && s.fds[fd] == -1 && (s.free != [] ==> IsClient(s, s.free[0]))
    ensures PoolOk(AfterAlloc(s, fd, now))
  {
    var s' := AfterAlloc(s, fd, now);
    assert s.free != [] ==> forall d :: d in s.free <==> d == s.free[0] || d in s'.free;
    forall d ensures FdOk(s', d) {
      assert FdOk(s, d);
    }
    forall f ensures FdMapOk(s', f) {
      assert FdMapOk(s, f);
    }
  }

  // ----- every event

  lemma FreeKeeps(s: Server, c: int)
    requires Invariant(s) && Active(s, c)
    ensures Invariant(AfterFree(s, c))
  {
    UnlistIfNamedKeeps(s, c);
    PoolFrame(s, AfterUnlistIfNamed(s, c));
    ReleaseKeepsRooms(AfterUnlistIfNamed(s, c), c);
    ReleaseKeepsPool(AfterUnlistIfNamed(s, c), c);
  }

  lemma LeaveKeeps(s: Server, c: int)
    requires Invariant(s) && Active(s, c)
    ensures Invariant(AfterLeave(s, c))
  {
    UnlistKeeps(s, c);
    ClearNameKeeps(AfterUnlist(s, c), c);
    PoolFrame(s, AfterLeave(s, c));
  }

  /**
   Known before a join: where a room exists or can be made, its name is not empty; where none can, the
   client has no room to lose.
   */
  predicate JoinSafe(s: Server, c: int, name: Name, memory: bool)
    requires IsClient(s, c)
  {
    if name in s.rooms || memory then name != [] else s.clients[c].room == []
  }

  /** Joining keeps every client in precisely the room it names exactly when the join is safe. */
  lemma JoinKeepsIff(s: Server, c: int, name: Name, memory: bool)
    requires Invariant(s) && Active(s, c) && s.clients[c].auth
    ensures Invariant(AfterJoin(s, c, name, memory)) <==> JoinSafe(s, c, name, memory)
  {
    var s1 := AfterUnlistIfNamed(s, c);
    var s2 := AfterEnsureRoom(s1, name, memory);
    var s3 := AfterEnter(s2, c, name);
    UnlistIfNamedKeeps(s, c);
    EnsureRoomKeeps(s1, name, memory, c);
    PoolFrame(s, s3);
    if name in s2.rooms && name != [] {
      EnterKeeps(s2, c, name);
    } else if name in s2.rooms {
      EmptyNameBreaks(s2, c);
    } else if s.clients[c].room != [] {
      LostRoomBreaks(s2, c);
    }
  }

  lemma EmptyNameBreaks(s: Server, c: int)
    requires IsClient(s, c) && [] in s.rooms
    ensures !RoomsOk(AfterEnter(s, c, []), -1)
  {
    var s' := AfterEnter(s, c, []);
    assert c in s'.rooms[[]].members;
    assert !RoomOk(s', [], -1);
  }

  lemma LostRoomBreaks(s: Server, c: int)
    requires RoomsOk(s, c) && Active(s, c) && s.clients[c].room != []
    ensures !RoomsOk(s, -1)
  {
    assert RoomOk(s, s.clients[c].room, c);
    assert !Placed(s, c);
  }

  /**
   What an empty name leads to, from any state in which its room exists or can be made. The client is in
   the list, and the steps that look for a name first do not take it out: joining again lists it twice,
   entering another room lists it in two rooms, and freeing it leaves it in the list and in the free list.
   */
  lemma EmptyNameHarms(s: Server, c: int, memory: bool)
    requires IsClient(s, c) && ([] in s.rooms || memory)
    ensures var t := AfterJoin(s, c, [], memory);
      IsClient(t, c) && [] in t.rooms && c in t.rooms[[]].members
    ensures var u := AfterJoin(AfterJoin(s, c, [], memory), c, [], memory);
      [] in u.rooms && |u.rooms[[]].members| >= 2 && u.rooms[[]].members[0] == u.rooms[[]].members[1] == c &&
      !NoRepeat(u.rooms[[]].members)
    ensures forall name :: name != [] ==>
      var u := AfterJoin(AfterJoin(s, c, [], memory), c, name, true);
      [] in u.rooms && name in u.rooms && c in u.rooms[[]].members && c in u.rooms[name].members
    ensures var u := AfterFree(AfterJoin(s, c, [], memory), c);
      [] in u.rooms && c in u.free && c in u.rooms[[]].members
  {
    var t := AfterJoin(s, c, [], memory);
    assert t.rooms[[]].members[0] == c;
    var u := AfterJoin(t, c, [], memory);
    assert u.rooms[[]].members == [c] + t.rooms[[]].members;
    assert u.rooms[[]].members[1..][0] == c;
    forall name | name != []
      ensures var v := AfterJoin(t, c, name, true);
        [] in v.rooms && name in v.rooms && c in v.rooms[[]].members && c in v.rooms[name].members
    {
      assert AfterJoin(t, c, name, true).rooms[name].members[0] == c;
    }
  }

  /** Leaving looks the room up without asking for a name, so leaving at once restores the invariant. */
  lemma EmptyNameRepaired(s: Server, c: int, memory: bool)
    requires Invariant(s) && Active(s, c) && ([] in s.rooms || memory)
    ensures Invariant(AfterLeave(AfterJoin(s, c, [], memory), c))
  {
    var s1 := AfterUnlistIfNamed(s, c);
    var s2 := AfterEnsureRoom(s1, [], memory);
    var s3 := AfterEnter(s2, c, []);
    UnlistIfNamedKeeps(s, c);
    EnsureRoomKeeps(s1, [], memory, c);
    MembersFit(s2, [], c);
    assert RoomOk(s2, [], c);
    var r := s2.rooms[[]];
    assert Without([c] + r.members, c) == r.members;
    assert AfterLeave(s3, c).rooms == s2.rooms;
    assert AfterLeave(s3, c) == AfterClearName(s2, c);
    ClearNameKeeps(s2, c);
    PoolFrame(s, AfterClearName(s2, c));
  }

  /** Losing a room to a failed creation: the client still sends to the room it names and no longer hears from it. */
  lemma LostRoomHarms(s: Server, c: int, name: Name)
    requires Invariant(s) && Active(s, c) && s.clients[c].room != [] && name !in s.rooms
    ensures var t := AfterJoin(s, c, name, false);
      t.clients[c].room == s.clients[c].room && t.clients[c].room in t.rooms &&
      c !in t.rooms[t.clients[c].room].members &&
      Broadcast(t, t.clients[c].room, t.clients[c].fd) == Broadcast(s, s.clients[c].room, s.clients[c].fd)
  {
    var old_ := s.clients[c].room;
    assert Placed(s, c) && RoomOk(s, old_, -1);
    WithoutMembers(s.rooms[old_].members, c);
    RecipientsWithout(s.clients, s.rooms[old_].members, c);
  }

  lemma {:induction false} RecipientsWithout(clients: seq<Client>, members: seq<int>, c: int)
    requires 0 <= c < |clients|
    ensures Recipients(clients, Without(members, c), clients[c].fd) == Recipients(clients, members, clients[c].fd)
    decreases |members|
  {
    if members != [] && members[0] != c {
      RecipientsWithout(clients, members[1..], c);
      assert Without(members, c)[1..] == Without(members[1..], c);
    }
  }

  /** Every list can be walked: no client in it twice or in another one, none of them free. */
  ghost predicate ListsProper(s: Server) {
    (forall name {:trigger s.rooms[name]} :: name in s.rooms ==>
       NoRepeat(s.rooms[name].members) &&
       forall c {:trigger c in s.rooms[name].members} :: c in s.rooms[name].members ==> Active(s, c)) &&
    (forall a, b, c {:trigger c in s.rooms[a].members, c in s.rooms[b].members} ::
       a in s.rooms && b in s.rooms && c in s.rooms[a].members && c in s.rooms[b].members ==> a == b)
  }

  /** The client is in the room it sends to, and when it goes it leaves every list in order. */
  ghost predicate WellPlaced(s: Server, c: int)
    requires IsClient(s, c)
  {
    Placed(s, c) && ListsProper(AfterFree(s, c))
  }

  lemma InvariantProper(s: Server)
    requires Invariant(s)
    ensures ListsProper(s)
  {
    forall name {:trigger s.rooms[name]} | name in s.rooms ensures RoomOk(s, name, -1) {
    }
    forall a, b, c {:trigger c in s.rooms[a].members, c in s.rooms[b].members} |
      a in s.rooms && b in s.rooms && c in s.rooms[a].members && c in s.rooms[b].members
      ensures a == b
    {
      assert MemberOk(s, a, c) && MemberOk(s, b, c);
    }
  }

  /** What can be observed of the client after a join is in order exactly when the join was safe. */
  lemma JoinObservedIff(s: Server, c: int, name: Name, memory: bool)
    requires Invariant(s) && Active(s, c) && s.clients[c].auth
    ensures WellPlaced(AfterJoin(s, c, name, memory), c) <==> JoinSafe(s, c, name, memory)
  {
    var t := AfterJoin(s, c, name, memory);
    JoinKeepsIff(s, c, name, memory);
    if JoinSafe(s, c, name, memory) {
      assert Placed(t, c);
      FreeKeeps(t, c);
      InvariantProper(AfterFree(t, c));
    } else if name in s.rooms || memory {
      EmptyNameHarms(s, c, memory);
    } else {
      LostRoomHarms(s, c, name);
    }
  }

  predicate MessageSafe(s: Server, c: int, m: Message)
    requires IsClient(s, c)
  {
    m.Join? && s.clients[c].auth ==> JoinSafe(s, c, m.room, m.memory)
  }

  lemma TouchKeeps(s: Server, c: int, now: U64)
    requires Invariant(s) && Active(s, c)
    ensures Invariant(AfterTouch(s, c, now)) && Active(AfterTouch(s, c, now), c)
  {
    RoomsFrame(s, AfterTouch(s, c, now), -1);
    PoolFrame(s, AfterTouch(s, c, now));
  }

  lemma MessageKeepsIff(s: Server, c: int, m: Message, now: U64)
    requires Invariant(s) && Active(s, c)
    ensures Invariant(AfterMessage(s, c, m, now)) <==> MessageSafe(s, c, m)
  {
    TouchKeeps(s, c, now);
    var s' := AfterTouch(s, c, now);
    match m
    case Auth(verified) =>
      if verified {
        var s2 := s'.(clients := s'.clients[c := s'.clients[c].(auth := true)]);
        RoomsFrame(s', s2, -1);
        PoolFrame(s', s2);
      } else {
        FreeKeeps(s', c);
      }
    case Join(name, memory) => if s.clients[c].auth { JoinKeepsIff(s', c, name, memory); }
    case Leave => LeaveKeeps(s', c);
    case _ =>
  }

  /** The event is no unsafe join. */
  ghost predicate Safe(s: Server, e: Event)
    requires PoolOk(s)
  {
    e.Receive? && e.fd < |s.fds| && s.fds[e.fd] != -1 ==>
      FdMapOk(s, e.fd) && MessageSafe(s, s.fds[e.fd], e.message)
  }

  lemma StepKeepsIff(s: Server, e: Event)
    requires Invariant(s) && Enabled(s, e)
    ensures Invariant(Step(s, e)) <==> Safe(s, e)
  {
    match e
    case Accept(fd, now) =>
      if fd < |s.fds| {
        FreeHead(s);
        AllocKeepsPool(s, fd, now);
        AllocKeepsRooms(s, fd, now);
      }
    case Receive(fd, m, now) =>
      assert FdMapOk(s, fd);
      if fd < |s.fds| && s.fds[fd] != -1 { MessageKeepsIff(s, s.fds[fd], m, now); }
    case Close(fd) =>
      assert FdMapOk(s, fd);
      if fd < |s.fds| && s.fds[fd] != -1 { FreeKeeps(s, s.fds[fd]); }
  }

  // ----- runs

  /** Reached from an idle server by safe events. */
  ghost predicate Reachable(s: Server, events: seq<Event>)
    decreases |events|
  {
    if events == [] then Idle(s)
    else
      exists before: Server {:trigger Reachable(before, events[..|events| - 1])} ::
        Reachable(before, events[..|events| - 1]) && PoolOk(before) && Enabled(before, events[|events| - 1]) &&
        Safe(before, events[|events| - 1]) && s == Step(before, events[|events| - 1])
  }

  /** Every client free, no room yet. */
  ghost predicate Idle(s: Server) {
    |s.free| == |s.clients| < 0x1_0000_0000 && NoRepeat(s.free) && s.active == 0 && s.rooms == map[] &&
    (forall c {:trigger c in s.free} :: c in s.free <==> IsClient(s, c)) &&
    (forall fd {:trigger s.fds[fd]} :: 0 <= fd < |s.fds| ==> s.fds[fd] == -1)
  }

  lemma IdleOk(s: Server)
    requires Idle(s)
    ensures Invariant(s)
  {
    forall c ensures FdOk(s, c) && Placed(s, c) {
      assert c in s.free <==> IsClient(s, c);
    }
    forall name ensures RoomOk(s, name, -1) {
    }
  }

  lemma {:induction false} ReachableInvariant(s: Server, events: seq<Event>)
    requires Reachable(s, events)
    ensures Invariant(s)
    decreases |events|
  {
    if events == [] {
      IdleOk(s);
    } else {
      var last := |events| - 1;
      var before: Server :| Reachable(before, events[..last]) && PoolOk(before) && Enabled(before, events[last]) &&
        Safe(before, events[last]) && s == Step(before, events[last]);
      ReachableInvariant(before, events[..last]);
      StepKeepsIff(before, events[last]);
    }
  }

  /**
   In every reachable state a client is in precisely the list of the room it names, and that room exists;
   members are authenticated, counts equal lengths, and active and free clients make up the pool.
   */
  lemma ReachableMembership(s: Server, events: seq<Event>, c: int)
    requires Reachable(s, events)
    ensures Active(s, c) && s.clients[c].room != [] ==>
      s.clients[c].room in s.rooms && c in s.rooms[s.clients[c].room].members
    ensures forall name {:trigger s.rooms[name]} :: name in s.rooms && c in s.rooms[name].members ==>
      Active(s, c) && s.clients[c].room == name != [] && s.clients[c].auth
    ensures forall name {:trigger s.rooms[name]} :: name in s.rooms ==>
      NoRepeat(s.rooms[name].members) && s.rooms[name].count == |s.rooms[name].members|
    ensures s.active + |s.free| == |s.clients|
  {
    ReachableInvariant(s, events);
    assert Placed(s, c);
    forall name {:trigger s.rooms[name]} | name in s.rooms ensures RoomOk(s, name, -1) {
    }
  }

  // ----- broadcast

  lemma {:induction false} RecipientsExact(s: Server, members: seq<int>, c: int, fd: int)
    requires PoolOk(s) && Active(s, c)
    requires forall d {:trigger d in members} :: d in members ==> Active(s, d) && s.clients[d].auth
    ensures fd in Recipients(s.clients, members, s.clients[c].fd) <==>
      exists d {:trigger d in members} :: d in members && Active(s, d) && d != c && s.clients[d].fd == fd
    decreases |members|
  {
    if members != [] {
      var rest, head := members[1..], members[0];
      assert head in members;
      assert forall d :: d in members <==> d == head || d in rest;
      RecipientsExact(s, rest, c, fd);
      assert FdOk(s, c) && FdOk(s, head);
    }
  }

  lemma {:induction false} RecipientsOnce(s: Server, members: seq<int>, c: int)
    requires PoolOk(s) && Active(s, c) && NoRepeat(members)
    requires forall d {:trigger d in members} :: d in members ==> Active(s, d) && s.clients[d].auth
    ensures NoRepeat(Recipients(s.clients, members, s.clients[c].fd))
    decreases |members|
  {
    if members != [] {
      var rest, head := members[1..], members[0];
      assert head in members;
      assert forall d :: d in rest ==> d in members;
      RecipientsOnce(s, rest, c);
      var fd := s.clients[head].fd;
      RecipientsExact(s, rest, c, fd);
      forall d | d in rest ensures s.clients[d].fd != fd {
        assert FdOk(s, d) && FdOk(s, head);
      }
      if head != c {
        assert FdOk(s, c) && FdOk(s, head);
        PushNoRepeat(fd, Recipients(s.clients, rest, s.clients[c].fd));
      } else {
        assert Recipients(s.clients, members, fd) == Recipients(s.clients, rest, fd);
      }
    }
  }

  /** In every reachable state a broadcast reaches each other member of the sender's room once, and no one else. */
  lemma BroadcastExact(s: Server, events: seq<Event>, c: int)
    requires Reachable(s, events) && Active(s, c) && s.clients[c].room != []
    ensures
      var sent := Broadcast(s, s.clients[c].room, s.clients[c].fd);
      NoRepeat(sent) &&
      forall fd :: fd in sent <==>
        exists d {:trigger Active(s, d)} ::
          Active(s, d) && d != c && s.clients[d].room == s.clients[c].room && s.clients[d].fd == fd
  {
    ReachableInvariant(s, events);
    var name := s.clients[c].room;
    assert Placed(s, c) && RoomOk(s, name, -1);
    var members := s.rooms[name].members;
    RecipientsOnce(s, members, c);
    forall fd {:trigger fd in Broadcast(s, name, s.clients[c].fd)}
      ensures fd in Broadcast(s, name, s.clients[c].fd) <==>
        exists d {:trigger Active(s, d)} :: Active(s, d) && d != c && s.clients[d].room == name && s.clients[d].fd == fd
    {
      RecipientsExact(s, members, c, fd);
      forall d | Active(s, d) && s.clients[d].room == name ensures d in members {
        assert Placed(s, d);
      }
    }
  }
}
