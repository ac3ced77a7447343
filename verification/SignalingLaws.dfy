/**
 What a received buffer does, stated on its bytes and on the clients and rooms alone: who hears it, what is
 answered, and whose room, membership and authentication it changes.
 */
module SignalingLaws {
  import opened Words
  import opened Lists
  import opened Signaling
  import opened SignalingServer
  import HeaderCodec
  import PacketCodec

  // ----- the header

  /** At least a header, and the magic number as a little-endian host reads it. */
  predicate Framed(buffer: seq<Byte>, len: nat) {
    |buffer| == 65536 && 16 <= len && buffer[..4] == [0x47, 0x53, 0x43, 0x52]
  }

  /** A framed message whose big-endian kind is the given byte. */
  predicate Says(buffer: seq<Byte>, len: nat, kind: Byte) {
    Framed(buffer, len) && buffer[4] == 0 && buffer[5] == kind
  }

  /** The length the header announces. */
  function Announced(buffer: seq<Byte>): nat
    requires |buffer| == 65536
  {
    256 * buffer[6] as int + buffer[7] as int
  }

  lemma MagicBytes(b: seq<Byte>)
    requires |b| == 4
    ensures PacketCodec.FromLittleEndian(b) == 0x52435347 <==> b == [0x47, 0x53, 0x43, 0x52]
  {
    var magic: seq<Byte> := [0x47, 0x53, 0x43, 0x52];
    MagicValue();
    PacketCodec.FromLittleEndianRoundTrip(b);
    PacketCodec.FromLittleEndianRoundTrip(magic);
  }

  lemma MagicValue()
    ensures PacketCodec.FromLittleEndian([0x47, 0x53, 0x43, 0x52]) == 0x52435347
  {
    var b: seq<Byte> := [0x47, 0x53, 0x43, 0x52];
    assert b[1..] == [0x53, 0x43, 0x52] && b[2..] == [0x43, 0x52] && b[3..] == [0x52];
    assert PacketCodec.FromLittleEndian(b[3..]) == 0x52;
    assert b[2..][1..] == b[3..] && PacketCodec.FromLittleEndian(b[2..]) == 0x5243;
    assert b[1..][1..] == b[2..] && PacketCodec.FromLittleEndian(b[1..]) == 0x524353;
  }

  lemma KindIs(buffer: seq<Byte>, kind: Byte)
    requires |buffer| == 65536
    ensures HeaderCodec.FromBigEndian(buffer[4..6]) == kind as int <==> buffer[4] == 0 && buffer[5] == kind
  {
    var pair := buffer[4..6];
    HeaderCodec.PairValue(pair);
    PairIs(pair[0], pair[1], kind);
  }

  lemma PairIs(hi: Byte, lo: Byte, kind: Byte)
    ensures 256 * hi as int + lo as int == kind as int <==> hi == 0 && lo == kind
  {
    var zero: Byte := 0;
    SameByte(hi, zero);
    SameByte(lo, kind);
    ByteBack(lo);
    ByteBack(hi);
    ByteBack(kind);
  }

  lemma SameByte(a: Byte, b: Byte)
    ensures a as int == b as int <==> a == b
  {
    ByteBack(a);
    ByteBack(b);
  }

  /** C reads the bytes before the first zero. */
  lemma {:induction false} CStringExact(b: seq<Byte>)
    ensures |CString(b)| <= |b| && CString(b) == b[..|CString(b)|] && 0 !in CString(b)
    ensures |CString(b)| < |b| ==> b[|CString(b)|] == 0
    decreases |b|
  {
    if b != [] && b[0] != 0 {
      CStringExact(b[1..]);
      assert b == [b[0]] + b[1..];
    }
  }

  /** The text of the payload: what is before the first zero of at most `limit` announced bytes. */
  ghost predicate Text(buffer: seq<Byte>, limit: nat, text: seq<Byte>) {
    && |buffer| == 65536 && |text| <= Min(limit, Announced(buffer)) && 16 + |text| < 65536
    && text == buffer[16..16 + |text|] && 0 !in text
    && (|text| < Min(limit, Announced(buffer)) ==> buffer[16 + |text|] == 0)
  }

  lemma PayloadText(buffer: seq<Byte>, limit: nat, payload: nat)
    requires |buffer| == 65536 && limit <= 64 && payload == HeaderCodec.FromBigEndian(buffer[6..8])
    ensures Text(buffer, limit, CString(buffer[16..16 + Min(payload, limit)]))
  {
    HeaderCodec.PairValue(buffer[6..8]);
    var b := buffer[16..16 + Min(payload, limit)];
    CStringExact(b);
    var n := |CString(b)|;
    assert b[..n] == buffer[16..16 + n];
  }

  lemma TextUnique(buffer: seq<Byte>, limit: nat, a: seq<Byte>, b: seq<Byte>)
    requires Text(buffer, limit, a) && Text(buffer, limit, b)
    ensures a == b
  {
    TextNotLonger(buffer, limit, a, b);
    TextNotLonger(buffer, limit, b, a);
  }

  lemma TextNotLonger(buffer: seq<Byte>, limit: nat, a: seq<Byte>, b: seq<Byte>)
    requires Text(buffer, limit, a) && Text(buffer, limit, b)
    ensures |b| <= |a|
  {
    forall i | 16 <= i < 16 + |b| ensures buffer[i] != 0 {
      assert b[i - 16] in b;
    }
  }

  /** What a buffer decodes to, by its bytes. */
  lemma Decoded(buffer: seq<Byte>, len: nat, verify: seq<Byte> -> bool, memory: bool, token: seq<Byte>, name: Name)
    requires Text(buffer, 64, token) && Text(buffer, 31, name)
    ensures var m := Decode(buffer, len, verify, memory);
      && (m.Ignored? <==> !Framed(buffer, len))
      && (m.Auth? <==> Says(buffer, len, 7)) && (m.Auth? ==> m.verified == verify(token))
      && (m.Join? <==> Says(buffer, len, 4)) && (m.Join? ==> m.room == name && m.memory == memory)
      && (m.Leave? <==> Says(buffer, len, 5)) && (m.Ping? <==> Says(buffer, len, 8))
      && (m.Relay? <==> Says(buffer, len, 1) || Says(buffer, len, 2) || Says(buffer, len, 3))
  {
    MagicBytes(buffer[..4]);
    var kind := HeaderCodec.FromBigEndian(buffer[4..6]);
    KindIs(buffer, 1);
    KindIs(buffer, 2);
    KindIs(buffer, 3);
    KindIs(buffer, 4);
    KindIs(buffer, 5);
    KindIs(buffer, 7);
    KindIs(buffer, 8);
    var payload := HeaderCodec.FromBigEndian(buffer[6..8]);
    PayloadText(buffer, 64, payload);
    PayloadText(buffer, 31, payload);
    TextUnique(buffer, 64, token, CString(buffer[16..16 + Min(payload, 64)]));
    TextUnique(buffer, 31, name, CString(buffer[16..16 + Min(payload, 31)]));
  }

  lemma TextsExist(buffer: seq<Byte>) returns (token: seq<Byte>, name: Name)
    requires |buffer| == 65536
    ensures Text(buffer, 64, token) && Text(buffer, 31, name)
  {
    var payload := HeaderCodec.FromBigEndian(buffer[6..8]);
    PayloadText(buffer, 64, payload);
    PayloadText(buffer, 31, payload);
    token := CString(buffer[16..16 + Min(payload, 64)]);
    name := CString(buffer[16..16 + Min(payload, 31)]);
  }

  // ----- who hears a buffer

  /** An offer, an answer or a candidate. */
  predicate SaysRelay(buffer: seq<Byte>, len: nat) {
    Says(buffer, len, 1) || Says(buffer, len, 2) || Says(buffer, len, 3)
  }

  /**
   In every reachable state an offer, answer or candidate from an authenticated client in a room goes once
   to every other client of that room, and to no one else.
   */
  lemma RelayReaches(s: Server, events: seq<Event>, c: int, buffer: seq<Byte>, len: nat,
                     verify: seq<Byte> -> bool, memory: bool)
    requires Reachable(s, events) && Active(s, c) && s.clients[c].auth && s.clients[c].room != []
    requires SaysRelay(buffer, len)
    ensures
      var sent := RelayedTo(s, c, Decode(buffer, len, verify, memory));
      NoRepeat(sent) &&
      forall fd :: fd in sent <==>
        exists d {:trigger Active(s, d)} ::
          Active(s, d) && d != c && s.clients[d].room == s.clients[c].room && s.clients[d].fd == fd
  {
    var token, name := TextsExist(buffer);
    Decoded(buffer, len, verify, memory, token, name);
    BroadcastExact(s, events, c);
  }

  /** No other buffer, and no buffer of another client, is relayed. */
  lemma OnlyRelaysReach(s: Server, c: int, buffer: seq<Byte>, len: nat, verify: seq<Byte> -> bool, memory: bool)
    requires IsClient(s, c) && |buffer| == 65536
    requires !SaysRelay(buffer, len) || !s.clients[c].auth || s.clients[c].room == []
    ensures RelayedTo(s, c, Decode(buffer, len, verify, memory)) == []
  {
    var token, name := TextsExist(buffer);
    Decoded(buffer, len, verify, memory, token, name);
  }

  /** Authentication is acknowledged or refused, a ping is answered, and nothing else is. */
  lemma Answered(buffer: seq<Byte>, len: nat, verify: seq<Byte> -> bool, memory: bool, token: seq<Byte>)
    requires Text(buffer, 64, token)
    ensures ReplyTo(Decode(buffer, len, verify, memory)) ==
      if Says(buffer, len, 7) then Some(if verify(token) then Ack else Failure)
      else if Says(buffer, len, 8) then Some(Pong)
      else None
  {
    var _, name := TextsExist(buffer);
    Decoded(buffer, len, verify, memory, token, name);
  }

  // ----- what a buffer changes

  /** Only client `c` and the lists of the rooms may differ. */
  ghost predicate OnlyClient(s: Server, t: Server, c: int) {
    && |t.clients| == |s.clients| && (t.free, t.fds, t.active, t.peak) == (s.free, s.fds, s.active, s.peak)
    && forall d {:trigger t.clients[d]} :: 0 <= d < |s.clients| && d != c ==> t.clients[d] == s.clients[d]
  }

  /** `d` is in the list of that room. */
  predicate Member(s: Server, name: Name, d: int) { name in s.rooms && d in s.rooms[name].members }

  lemma UnlistedMembers(s: Server, c: int)
    requires Invariant(s) && Active(s, c)
    ensures AfterUnlist(s, c).rooms.Keys == s.rooms.Keys
    ensures forall n, d :: Member(AfterUnlist(s, c), n, d) <==> Member(s, n, d) && d != c
  {
    var t := AfterUnlist(s, c);
    forall n, d ensures Member(t, n, d) <==> Member(s, n, d) && d != c {
      assert RoomOk(s, n, -1);
      if n in s.rooms { WithoutMembers(s.rooms[n].members, c); }
    }
  }

  lemma UnlistedIfNamedMembers(s: Server, c: int)
    requires Invariant(s) && Active(s, c)
    ensures AfterUnlistIfNamed(s, c).rooms.Keys == s.rooms.Keys
    ensures forall n, d :: Member(AfterUnlistIfNamed(s, c), n, d) <==> Member(s, n, d) && d != c
  {
    UnlistedMembers(s, c);
    forall n, d ensures Member(AfterUnlistIfNamed(s, c), n, d) <==> Member(s, n, d) && d != c {
      assert RoomOk(s, n, -1);
    }
  }

  lemma JoinedMembers(s: Server, c: int, name: Name, memory: bool)
    requires Invariant(s) && Active(s, c)
    ensures var t := AfterJoin(s, c, name, memory);
      && (forall n :: n in t.rooms <==> n in s.rooms || (n == name && memory))
      && (forall n, d :: Member(t, n, d) <==> if d == c then n == name && n in t.rooms else Member(s, n, d))
  {
    UnlistedIfNamedMembers(s, c);
    var s1 := AfterUnlistIfNamed(s, c);
    var s2 := AfterEnsureRoom(s1, name, memory);
    assert forall n, d :: Member(s2, n, d) <==> Member(s1, n, d);
    var t := AfterEnter(s2, c, name);
    forall n, d ensures Member(t, n, d) <==> if d == c then n == name && n in t.rooms else Member(s, n, d) {
      assert Member(t, n, d) <==> Member(s2, n, d) || (d == c && n == name && name in s2.rooms);
    }
  }

  /**
   Kind 4, from an authenticated client: it leaves its room for the one named by the payload, which is made
   if missing. Where it cannot be made the client keeps the name of its room and is in none.
   */
  lemma JoinRoom(s: Server, events: seq<Event>, c: int, buffer: seq<Byte>, len: nat,
                 verify: seq<Byte> -> bool, memory: bool, now: U64, name: Name)
    requires Reachable(s, events) && Active(s, c) && s.clients[c].auth
    requires Says(buffer, len, 4) && Text(buffer, 31, name)
    ensures var t := AfterMessage(s, c, Decode(buffer, len, verify, memory), now);
      && OnlyClient(s, t, c)
      && t.clients[c] ==
        s.clients[c].(last := now, room := if name in s.rooms || memory then name else s.clients[c].room)
      && (forall n :: n in t.rooms <==> n in s.rooms || (n == name && memory))
      && (forall n, d :: Member(t, n, d) <==> if d == c then n == name && n in t.rooms else Member(s, n, d))
  {
    ReachableInvariant(s, events);
    var token, _ := TextsExist(buffer);
    Decoded(buffer, len, verify, memory, token, name);
    TouchKeeps(s, c, now);
    JoinedMembers(AfterTouch(s, c, now), c, name, memory);
    assert forall n, d :: Member(AfterTouch(s, c, now), n, d) <==> Member(s, n, d);
  }

  /** Kind 5, from an authenticated client: it has no room, and is in none. */
  lemma LeaveRoom(s: Server, events: seq<Event>, c: int, buffer: seq<Byte>, len: nat,
                  verify: seq<Byte> -> bool, memory: bool, now: U64)
    requires Reachable(s, events) && Active(s, c) && s.clients[c].auth && Says(buffer, len, 5)
    ensures var t := AfterMessage(s, c, Decode(buffer, len, verify, memory), now);
      && OnlyClient(s, t, c) && t.clients[c] == s.clients[c].(last := now, room := [])
      && t.rooms.Keys == s.rooms.Keys && (forall n, d :: Member(t, n, d) <==> Member(s, n, d) && d != c)
  {
    ReachableInvariant(s, events);
    var token, name := TextsExist(buffer);
    Decoded(buffer, len, verify, memory, token, name);
    TouchKeeps(s, c, now);
    var u := AfterTouch(s, c, now);
    UnlistedMembers(u, c);
    assert forall n, d :: Member(u, n, d) <==> Member(s, n, d);
    assert forall n, d :: Member(AfterLeave(u, c), n, d) <==> Member(AfterUnlist(u, c), n, d);
  }

  /** Kind 7 with a token that does not verify: the client is free, its descriptor unmapped, and it is in no room. */
  lemma AuthRefused(s: Server, events: seq<Event>, c: int, buffer: seq<Byte>, len: nat,
                    verify: seq<Byte> -> bool, memory: bool, now: U64, token: seq<Byte>)
    requires Reachable(s, events) && Active(s, c) && Says(buffer, len, 7) && Text(buffer, 64, token) && !verify(token)
    ensures var t := AfterMessage(s, c, Decode(buffer, len, verify, memory), now);
      && t.clients == s.clients[c := s.clients[c].(last := now)] && t.free == [c] + s.free
      && t.active == s.active - 1 && t.peak == s.peak && |t.fds| == |s.fds|
      && (forall fd :: 0 <= fd < |s.fds| ==> t.fds[fd] == if fd == s.clients[c].fd then -1 else s.fds[fd])
      && t.rooms.Keys == s.rooms.Keys && (forall n, d :: Member(t, n, d) <==> Member(s, n, d) && d != c)
  {
    ReachableInvariant(s, events);
    var _, name := TextsExist(buffer);
    Decoded(buffer, len, verify, memory, token, name);
    TouchKeeps(s, c, now);
    var u := AfterTouch(s, c, now);
    UnlistedIfNamedMembers(u, c);
    assert forall n, d :: Member(u, n, d) <==> Member(s, n, d);
    assert forall n, d :: Member(AfterFree(u, c), n, d) <==> Member(AfterUnlistIfNamed(u, c), n, d);
  }

  /**
   Everything else changes one record at most. A buffer that is no message changes nothing; a verified token
   authenticates the client; a relay, a ping, an unknown kind, and a join or leave without authentication
   leave only the time of activity.
   */
  lemma OtherwiseRecord(s: Server, c: int, buffer: seq<Byte>, len: nat,
                        verify: seq<Byte> -> bool, memory: bool, now: U64, token: seq<Byte>)
    requires IsClient(s, c) && Text(buffer, 64, token)
    requires Says(buffer, len, 7) ==> verify(token)
    requires Says(buffer, len, 4) || Says(buffer, len, 5) ==> !s.clients[c].auth
    ensures AfterMessage(s, c, Decode(buffer, len, verify, memory), now) ==
      if !Framed(buffer, len) then s
      else if Says(buffer, len, 7) then s.(clients := s.clients[c := s.clients[c].(last := now, auth := true)])
      else s.(clients := s.clients[c := s.clients[c].(last := now)])
  {
    var _, name := TextsExist(buffer);
    Decoded(buffer, len, verify, memory, token, name);
  }
}
