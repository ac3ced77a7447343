/**
 The signaling server in place: the client array, the descriptor map and the hashed room chains, and the
 handling of a received buffer. Each method is tied to the abstract server of `Signaling`.
 */
module SignalingServer {
  import opened Words
  import opened Lists
  import opened Signaling
  import HeaderCodec
  import PacketCodec

  // ----- room chains

  datatype Entry = Entry(name: Name, room: Room)

  /** The first entry of that name, or the end of the chain. */
  function Position(chain: seq<Entry>, name: Name): (i: nat)
    ensures i <= |chain| && (i < |chain| ==> chain[i].name == name)
    decreases |chain|
  {
    if chain == [] || chain[0].name == name then 0 else 1 + Position(chain[1..], name)
  }

  function Find(chain: seq<Entry>, name: Name): Option<Room> {
    var i := Position(chain, name);
    if i < |chain| then Some(chain[i].room) else None
  }

  function Lookup(rooms: map<Name, Room>, name: Name): Option<Room> {
    if name in rooms then Some(rooms[name]) else None
  }

  lemma {:induction false} PositionStep(chain: seq<Entry>, name: Name, i: nat)
    requires i < |chain| && i <= Position(chain, name)
    ensures chain[i].name == name ==> Position(chain, name) == i
    ensures chain[i].name != name ==> Position(chain, name) > i
    decreases |chain|
  {
    if i > 0 { PositionStep(chain[1..], name, i - 1); }
  }

  /** Replacing the room of an entry found by name changes what that name finds, and nothing else. */
  lemma {:induction false} FindReplaced(chain: seq<Entry>, name: Name, r: Room, other: Name)
    requires Position(chain, name) < |chain|
    ensures
      var chain' := chain[Position(chain, name) := Entry(name, r)];
      Find(chain', other) == if other == name then Some(r) else Find(chain, other)
    decreases |chain|
  {
    if chain[0].name != name {
      FindReplaced(chain[1..], name, r, other);
      var i := Position(chain, name);
      assert chain[i := Entry(name, r)][1..] == chain[1..][i - 1 := Entry(name, r)];
    }
  }

  lemma FindPushed(chain: seq<Entry>, name: Name, r: Room, other: Name)
    ensures Find([Entry(name, r)] + chain, other) == if other == name then Some(r) else Find(chain, other)
  {
    assert ([Entry(name, r)] + chain)[1..] == chain;
  }

  // ----- received buffers

  /** Bytes up to the first zero, as C reads a string. */
  function CString(b: seq<Byte>): seq<Byte>
    decreases |b|
  {
    if b == [] || b[0] == 0 then [] else [b[0]] + CString(b[1..])
  }

  /** The message in the first `len` bytes of the buffer. The magic is compared in host order. */
  function Decode(buffer: seq<Byte>, len: nat, verify: seq<Byte> -> bool, memory: bool): Message
    requires |buffer| == 65536
  {
    if len < 16 || PacketCodec.FromLittleEndian(buffer[..4]) != 0x52435347 then Ignored
    else
      var kind := HeaderCodec.FromBigEndian(buffer[4..6]);
      var payload := HeaderCodec.FromBigEndian(buffer[6..8]);
      if kind == 7 then Auth(verify(CString(buffer[16..16 + Min(payload, 64)])))
      else if kind == 4 then Join(CString(buffer[16..16 + Min(payload, 31)]), memory)
      else if kind == 5 then Leave
      else if kind == 1 || kind == 2 || kind == 3 then Relay
      else if kind == 8 then Ping
      else Unknown
  }

  datatype Reply = Ack | Failure | Pong

  function ReplyTo(m: Message): Option<Reply> {
    match m
    case Auth(verified) => Some(if verified then Ack else Failure)
    case Ping => Some(Pong)
    case _ => None
  }

  /** The descriptors a message is relayed to. */
  function RelayedTo(s: Server, c: int, m: Message): seq<int>
    requires IsClient(s, c)
  {
    if m.Relay? && s.clients[c].auth && s.clients[c].room != [] then
      Broadcast(s, s.clients[c].room, s.clients[c].fd)
    else []
  }

  // ----- the server

  class Hub {
    const pool: array<Client>
    const fdMap: array<int>
    const buckets: array<seq<Entry>>
    const hash: Name -> nat
    var free: seq<int>
    var active: U32
    var peak: U32
    /** What the chains hold, by name. */
    ghost var rooms: map<Name, Room>

    ghost predicate Agrees(name: Name)
      reads `rooms, buckets
    {
      hash(name) < buckets.Length && Find(buckets[hash(name)], name) == Lookup(rooms, name)
    }

    ghost predicate Valid()
      reads `rooms, buckets
    {
      forall name {:trigger Agrees(name)} :: Agrees(name)
    }

    ghost function View(): Server
      reads this, pool, fdMap
    {
      Server(pool[..], free, fdMap[..], active, peak, rooms)
    }

    constructor (n: nat, roomBuckets: nat, hash: Name -> nat)
      requires n < 0x1_0000_0000 && forall name :: hash(name) < roomBuckets
      ensures Valid() && Idle(View()) && pool.Length == fdMap.Length == n
    {
      pool := new Client[n](_ => Client(-1, [], false, 0));
      fdMap := new int[n](_ => -1);
      buckets := new seq<Entry>[roomBuckets](_ => []);
      this.hash := hash;
      free := seq(n, i => i);
      active, peak := 0, 0;
      rooms := map[];
      new;
      Upward(0, n);
      assert free == seq(n, i => 0 + i);
      forall c {:trigger c in free} ensures c in free <==> 0 <= c < n {
        assert 0 <= c < n ==> free[c] == c;
      }
      forall name ensures Agrees(name) {
      }
    }

    // ----- rooms

    method FindRoom(name: Name) returns (pos: int)
      requires Valid()
      ensures pos == -1 <==> name !in rooms
      ensures pos != -1 ==>
        hash(name) < buckets.Length && pos == Position(buckets[hash(name)], name) < |buckets[hash(name)]|
      ensures pos != -1 ==> buckets[hash(name)][pos] == Entry(name, rooms[name])
    {
      assert Agrees(name);
      var chain := buckets[hash(name)];
      var i := 0;
      while i < |chain|
        invariant 0 <= i <= Position(chain, name)
      {
        PositionStep(chain, name, i);
        if chain[i].name == name { return i; }
        i := i + 1;
      }
      return -1;
    }

    method SetRoom(name: Name, pos: nat, r: Room)
      requires Valid() && hash(name) < buckets.Length
      requires pos == Position(buckets[hash(name)], name) < |buckets[hash(name)]|
      modifies `rooms, buckets
      ensures Valid() && rooms == old(rooms)[name := r]
      ensures Position(buckets[hash(name)], name) == pos < |buckets[hash(name)]|
    {
      ghost var chain, was := buckets[hash(name)], rooms;
      buckets[hash(name)] := buckets[hash(name)][pos := Entry(name, r)];
      rooms := rooms[name := r];
      forall other ensures Agrees(other) {
        assert old(Agrees(other));
        FindReplaced(chain, name, r, other);
      }
      assert Agrees(name);
      PositionReplaced(chain, name, r);
    }

    /** Without memory nothing is created. */
    method CreateRoom(name: Name, memory: bool) returns (pos: int)
      requires Valid() && name !in rooms
      modifies `rooms, buckets
      ensures Valid() && pos == (if memory then 0 else -1)
      ensures rooms == if memory then old(rooms)[name := Room([], 0)] else old(rooms)
      ensures memory ==> hash(name) < buckets.Length && Position(buckets[hash(name)], name) == 0 < |buckets[hash(name)]|
    {
      if !memory { return -1; }
      assert Agrees(name);
      ghost var chain := buckets[hash(name)];
      buckets[hash(name)] := [Entry(name, Room([], 0))] + buckets[hash(name)];
      rooms := rooms[name := Room([], 0)];
      forall other ensures Agrees(other) {
        assert old(Agrees(other));
        FindPushed(chain, name, Room([], 0), other);
      }
      return 0;
    }

    /** Unlinks the client from the room its name finds. */
    method Unlist(c: int)
      requires Valid() && 0 <= c < pool.Length
      modifies `rooms, buckets
      ensures Valid() && View() == AfterUnlist(old(View()), c)
    {
      var name := pool[c].room;
      var pos := FindRoom(name);
      if pos == -1 { return; }
      var r := RemoveMember(buckets[hash(name)][pos].room, c);
      SetRoom(name, pos, r);
    }

    /** The room of that name, made if there is none and memory allows. */
    method SelectRoom(name: Name, memory: bool) returns (pos: int)
      requires Valid()
      modifies `rooms, buckets
      ensures Valid() && View() == AfterEnsureRoom(old(View()), name, memory)
      ensures pos == -1 <==> name !in rooms
      ensures pos != -1 ==>
        hash(name) < buckets.Length && pos == Position(buckets[hash(name)], name) < |buckets[hash(name)]|
    {
      pos := FindRoom(name);
      if pos == -1 { pos := CreateRoom(name, memory); }
    }

    method EnterRoom(c: int, name: Name, pos: nat)
      requires Valid() && 0 <= c < pool.Length && name in rooms && hash(name) < buckets.Length
      requires pos == Position(buckets[hash(name)], name) < |buckets[hash(name)]|
      modifies `rooms, buckets, pool
      ensures Valid() && View() == AfterEnter(old(View()), c, name)
    {
      assert Agrees(name);
      pool[c] := pool[c].(room := name);
      var r := buckets[hash(name)][pos].room;
      SetRoom(name, pos, Room([c] + r.members, Wrap32(r.count + 1)));
    }

    method JoinRoom(c: int, name: Name, memory: bool)
      requires Valid() && 0 <= c < pool.Length
      modifies `rooms, buckets, pool
      ensures Valid() && View() == AfterJoin(old(View()), c, name, memory)
    {
      if pool[c].room != [] { Unlist(c); }
      var pos := SelectRoom(name, memory);
      if pos == -1 { return; }
      EnterRoom(c, name, pos);
    }

    method BroadcastRoom(name: Name, exclude: int) returns (sent: seq<int>)
      requires Valid() && MembersInPool(View(), name)
      ensures sent == Broadcast(View(), name, exclude)
    {
      var pos := FindRoom(name);
      if pos == -1 { return []; }
      var members := buckets[hash(name)][pos].room.members;
      assert forall i :: 0 <= i < |members| ==> members[i] in rooms[name].members;
      sent := SendAll(members, exclude);
    }

    /** Sends to the authenticated clients of a list, except one. */
    method SendAll(members: seq<int>, exclude: int) returns (sent: seq<int>)
      requires forall i :: 0 <= i < |members| ==> 0 <= members[i] < pool.Length
      ensures sent == Recipients(pool[..], members, exclude)
    {
      sent := [];
      ghost var clients := pool[..];
      for i := 0 to |members|
        invariant sent + Recipients(clients, members[i..], exclude) == Recipients(clients, members, exclude)
      {
        var c := members[i];
        RecipientsAt(clients, members, i, exclude, sent);
        if pool[c].fd != exclude && pool[c].auth { sent := sent + [pool[c].fd]; }
      }
    }

    // ----- clients

    method AllocClient(fd: nat, now: U64) returns (c: int)
      requires Valid() && PoolOk(View()) && fd < fdMap.Length
      modifies `free, `active, `peak, pool, fdMap
      ensures old(free) != [] ==> IsClient(old(View()), old(free)[0])
      ensures Valid() && View() == AfterAlloc(old(View()), fd, now)
      ensures c == if old(free) == [] then -1 else old(free)[0]
    {
      FreeHead(View());
      if free == [] { return -1; }
      c := free[0];
      free := free[1..];
      pool[c] := Client(fd, [], false, now);
      fdMap[fd] := c;
      active := active + 1;
      if active > peak { peak := active; }
    }

    method FreeClient(c: int)
      requires Valid() && PoolOk(View()) && Active(View(), c)
      modifies `free, `active, `rooms, buckets, fdMap
      ensures Valid() && View() == AfterFree(old(View()), c)
    {
      HasActive(View(), c);
      if pool[c].room != [] { Unlist(c); }
      if 0 <= pool[c].fd < fdMap.Length { fdMap[pool[c].fd] := -1; }
      active := active - 1;
      free := [c] + free;
    }

    // ----- messages

    method HandleMessage(c: int, buffer: seq<Byte>, len: nat, verify: seq<Byte> -> bool, memory: bool, now: U64)
      returns (reply: Option<Reply>, relayed: seq<int>)
      requires Valid() && PoolOk(View()) && ListsProper(View()) && Active(View(), c) && |buffer| == 65536
      modifies this, pool, fdMap, buckets
      ensures Valid() && View() == AfterMessage(old(View()), c, Decode(buffer, len, verify, memory), now)
      ensures reply == ReplyTo(Decode(buffer, len, verify, memory))
      ensures relayed == RelayedTo(old(View()), c, Decode(buffer, len, verify, memory))
    {
      var m := Decode(buffer, len, verify, memory);
      if m.Ignored? { return None, []; }
      TouchKeepsLists(View(), c, now);
      TouchRelays(View(), c, now, m);
      pool[c] := pool[c].(last := now);
      assert View() == AfterTouch(old(View()), c, now);
      reply, relayed := Dispatch(c, m);
    }

    method Dispatch(c: int, m: Message) returns (reply: Option<Reply>, relayed: seq<int>)
      requires Valid() && PoolOk(View()) && ListsProper(View()) && Active(View(), c)
      modifies this, pool, fdMap, buckets
      ensures Valid() && View() == AfterDispatch(old(View()), c, m)
      ensures reply == ReplyTo(m) && relayed == RelayedTo(old(View()), c, m)
    {
      reply, relayed := None, [];
      match m
      case Auth(verified) =>
        if verified {
          pool[c] := pool[c].(auth := true);
          reply := Some(Ack);
        } else {
          reply := Some(Failure);
          FreeClient(c);
        }
      case Join(name, memory) =>
        if pool[c].auth { JoinRoom(c, name, memory); }
      case Leave =>
        if pool[c].auth {
          Unlist(c);
          pool[c] := pool[c].(room := []);
        }
      case Relay =>
        if pool[c].auth && pool[c].room != [] {
          relayed := BroadcastRoom(pool[c].room, pool[c].fd);
        }
      case Ping =>
        reply := Some(Pong);
      case _ =>
    }
  }

  lemma RecipientsAt(clients: seq<Client>, members: seq<int>, i: nat, exclude: int, sent: seq<int>)
    requires i < |members| && 0 <= members[i] < |clients|
    ensures var c := clients[members[i]];
      sent + Recipients(clients, members[i..], exclude) ==
      (if c.fd != exclude && c.auth then sent + [c.fd] else sent) + Recipients(clients, members[i + 1..], exclude)
  {
    assert members[i..][0] == members[i] && members[i..][1..] == members[i + 1..];
  }

  ghost predicate MembersInPool(s: Server, name: Name) {
    name in s.rooms ==> forall c {:trigger c in s.rooms[name].members} :: c in s.rooms[name].members ==> IsClient(s, c)
  }

  lemma TouchKeepsLists(s: Server, c: int, now: U64)
    requires PoolOk(s) && ListsProper(s) && Active(s, c)
    ensures PoolOk(AfterTouch(s, c, now)) && ListsProper(AfterTouch(s, c, now))
  {
    PoolFrame(s, AfterTouch(s, c, now));
  }

  lemma {:induction false} RecipientsTouched(clients: seq<Client>, c: int, now: U64, members: seq<int>, exclude: int)
    requires 0 <= c < |clients|
    ensures Recipients(clients[c := clients[c].(last := now)], members, exclude) ==
      Recipients(clients, members, exclude)
    decreases |members|
  {
    if members != [] { RecipientsTouched(clients, c, now, members[1..], exclude); }
  }

  lemma TouchRelays(s: Server, c: int, now: U64, m: Message)
    requires IsClient(s, c)
    ensures RelayedTo(AfterTouch(s, c, now), c, m) == RelayedTo(s, c, m)
  {
    var name := s.clients[c].room;
    if name in s.rooms { RecipientsTouched(s.clients, c, now, s.rooms[name].members, s.clients[c].fd); }
  }

  // ----- helpers

  method RemoveMember(r: Room, c: int) returns (r': Room)
    ensures r' == Dropped(r, c)
  {
    var i := 0;
    while i < |r.members|
      invariant 0 <= i <= |r.members| && c !in r.members[..i]
    {
      if r.members[i] == c {
        WithoutMiddle(r.members[..i], c, r.members[i + 1..]);
        assert r.members == r.members[..i] + [c] + r.members[i + 1..];
        return Room(r.members[..i] + r.members[i + 1..], Wrap32(r.count - 1));
      }
      i := i + 1;
    }
    return r;
  }

  lemma {:induction false} PositionReplaced(chain: seq<Entry>, name: Name, r: Room)
    requires Position(chain, name) < |chain|
    ensures Position(chain[Position(chain, name) := Entry(name, r)], name) == Position(chain, name)
    decreases |chain|
  {
    if chain[0].name != name {
      PositionReplaced(chain[1..], name, r);
      var i := Position(chain, name);
      assert chain[i := Entry(name, r)][1..] == chain[1..][i - 1 := Entry(name, r)];
    }
  }

  /** The slots from `k` on, in order, repeat nothing. */
  lemma {:induction false} Upward(k: nat, n: nat)
    ensures NoRepeat(seq(n, i => k + i))
    decreases n
  {
    if n > 0 {
      Upward(k + 1, n - 1);
      assert seq(n, i => k + i)[1..] == seq(n - 1, i => k + 1 + i);
    }
  }

  lemma HasActive(s: Server, c: int)
    requires PoolOk(s) && Active(s, c)
    ensures s.active > 0
  {
    PushNoRepeat(c, s.free);
    Pigeonhole([c] + s.free, |s.clients|);
  }
}
