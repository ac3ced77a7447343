/**
 The relay's session pool in place: an array of sessions, their list links, the list's ends and the
 counters. Hash chains and peer addresses are not part of this model.
 */
module RelayPool {
  import opened Words
  import opened Lists
  import opened RelayLru
  import opened LruLinks

  class Pool {
    const sessions: array<Session>
    const prev: array<int>
    const next: array<int>
    var head: int
    var tail: int
    var count: U32
    var peak: U32
    var nextId: U32
    /** The list as a sequence, and the latest time seen. */
    ghost var order: seq<int>
    ghost var clock: U64

    ghost predicate Shape()
      reads this
    {
      prev != next && sessions.Length == prev.Length == next.Length < 0x1_0000_0000
    }

    /** The links spell `order`; `hole` is a slot whose own links are in flux. */
    ghost predicate Linked(hole: int)
      reads `head, `tail, `order, prev, next
    {
      Distinct(order) && head == First(order) && tail == Last(order) &&
      LinkedUp(prev[..], next[..], order) && LooseOutside(prev[..], next[..], order, hole)
    }

    ghost function View(): Lru
      reads this, sessions
    {
      Lru(sessions[..], order, clock, nextId, peak)
    }

    ghost predicate Valid()
      reads this, sessions, prev, next
    {
      Shape() && Linked(-1) && count == |order| && Invariant(View())
    }

    constructor (n: nat)
      requires n < 0x1_0000_0000
      ensures Valid() && fresh(sessions) && fresh(prev) && fresh(next)
      ensures sessions.Length == n && View().order == [] && nextId == 1 && peak == 0
    {
      sessions := new Session[n](_ => Session(0, 0, 0, false));
      prev := new int[n](_ => -1);
      next := new int[n](_ => -1);
      head, tail, count, peak, nextId := -1, -1, 0, 0, 1;
      order, clock := [], 0;
      new;
      forall s | 0 <= s < n ensures Listed(sessions[..], order, s) {
        assert sessions[..][s] == sessions[s];
      }
    }

    // ----- the list

    /** For a listed slot the tests of the head and the tail are implied. */
    method Unlink(s: int, ghost i: nat)
      requires Shape() && Linked(-1) && i < |order| && order[i] == s
      modifies `head, `tail, `order, prev, next
      ensures Linked(s) && order == Cut(old(order), i)
    {
      ghost var p, n := prev[..], next[..];
      assert LinkAt(p, n, order, i);
      assert i > 0 ==> LinkAt(p, n, order, i - 1);
      assert i < |order| - 1 ==> LinkAt(p, n, order, i + 1);
      JoinKeeps(p, n, order, i);
      var before, after := prev[s], next[s];
      if before != -1 {
        next[before] := after;
      } else if head == s {
        head := after;
      }
      if after != -1 {
        prev[after] := before;
      } else if tail == s {
        tail := before;
      }
      assert next[..] == JoinNext(n, order, i);
      assert prev[..] == JoinPrev(p, order, i);
      order := Cut(order, i);
    }

    method PushFront(s: int)
      requires Shape() && Linked(s) && 0 <= s < prev.Length && s !in order
      modifies `head, `tail, `order, prev, next
      ensures Linked(-1) && order == [s] + old(order)
    {
      ghost var p, n := prev[..], next[..];
      assert order != [] ==> LinkAt(p, n, order, 0) && LinkAt(p, n, order, |order| - 1);
      PushKeeps(p, n, order, s);
      prev[s] := -1;
      next[s] := head;
      if head != -1 { prev[head] := s; }
      head := s;
      if tail == -1 { tail := s; }
      assert next[..] == PushNext(n, order, s);
      assert prev[..] == PushPrev(p, order, s);
      order := [s] + order;
    }

    /** Moves or inserts a slot at the front. */
    method Touch(s: int)
      requires Shape() && Linked(-1) && 0 <= s < prev.Length
      modifies `head, `tail, `order, prev, next
      ensures Linked(-1) && order == [s] + Without(old(order), s)
    {
      assert Loose(prev[..], next[..], order, s);
      if prev[s] != -1 || next[s] != -1 || head == s {
        assert s in order;
        ghost var i :| 0 <= i < |order| && order[i] == s;
        CutIsWithout(order, i);
        CutMembers(order, i, s);
        Unlink(s, i);
      } else {
        ListedHasLink(prev[..], next[..], order, s);
        WithoutAbsent(order, s);
        assert LooseOutside(prev[..], next[..], order, s) by {
          forall x | x != s ensures Loose(prev[..], next[..], order, x) {
            if x == -1 { } else { assert Loose(prev[..], next[..], order, x); }
          }
        }
      }
      PushFront(s);
    }

    /** Clears the links of a slot that is no longer listed. */
    method Clear(s: int)
      requires Shape() && Linked(s) && 0 <= s < prev.Length && s !in order
      modifies prev, next
      ensures Linked(-1)
    {
      ClearKeeps(prev[..], next[..], order, s);
      prev[s], next[s] := -1, -1;
    }

    /** Takes a listed slot off the list. */
    method Detach(s: int)
      requires Shape() && Linked(-1) && 0 <= s < prev.Length && s in order
      modifies `head, `tail, `order, prev, next
      ensures Linked(-1) && order == Without(old(order), s) && |order| == |old(order)| - 1
    {
      ghost var i :| 0 <= i < |order| && order[i] == s;
      CutIsWithout(order, i);
      CutMembers(order, i, s);
      Unlink(s, i);
      Clear(s);
    }

    // ----- sessions

    method FindFree() returns (s: nat)
      ensures s == FirstFree(sessions[..], 0)
    {
      s := 0;
      while s < sessions.Length && sessions[s].active
        invariant 0 <= s <= sessions.Length && FirstFree(sessions[..], s) == FirstFree(sessions[..], 0)
      {
        s := s + 1;
      }
    }

    method Create(now: U64) returns (slot: int)
      requires Valid() && clock <= now
      modifies this, sessions, prev, next
      ensures Valid() && View() == AfterCreate(old(View()), now)
      ensures slot == if FirstFree(old(sessions[..]), 0) == sessions.Length then -1 else FirstFree(old(sessions[..]), 0)
    {
      CreateKeeps(View(), now);
      var s := FindFree();
      if s == sessions.Length { return -1; }
      Enter(s, now);
      count := count + 1;
      if count > peak { peak := count; }
      return s;
    }

    /** Fills a free slot and puts it at the front of the list. */
    method Enter(s: nat, now: U64)
      requires Shape() && Linked(-1) && Chain(sessions[..], order, clock)
      requires s < sessions.Length && !sessions[s].active
      modifies `head, `tail, `order, `nextId, `clock, sessions, prev, next
      ensures Linked(-1) && order == [s] + old(order) && |order| <= sessions.Length
      ensures sessions[..] == old(sessions[..])[s := Session(old(nextId), now, now, true)]
      ensures nextId == Wrap32(old(nextId) + 1) && clock == now
    {
      RoomForOne(sessions[..], order, clock, s);
      assert Loose(prev[..], next[..], order, s);
      ghost var p, n := prev[..], next[..];
      prev[s], next[s] := -1, -1;
      assert prev[..] == p && next[..] == n;
      sessions[s] := Session(nextId, now, now, true);
      nextId := Wrap32(nextId + 1);
      WithoutAbsent(order, s);
      Touch(s);
      clock := now;
    }

    /** What receiving a packet does to its session. */
    method Forward(s: int, now: U64)
      requires Valid() && clock <= now && 0 <= s < sessions.Length && sessions[s].active
      modifies this, sessions, prev, next
      ensures Valid() && View() == AfterForward(old(View()), s, now)
    {
      ForwardCount(View(), s);
      ForwardKeeps(View(), s, now);
      sessions[s] := sessions[s].(last := now);
      Touch(s);
      clock := now;
    }

    method Destroy(s: int)
      requires Valid() && 0 <= s < sessions.Length
      modifies this, sessions, prev, next
      ensures Valid() && View() == AfterDestroy(old(View()), s)
    {
      DestroyKeeps(View(), s);
      if !sessions[s].active { return; }
      assert Listed(sessions[..], order, s);
      sessions[s] := sessions[s].(active := false);
      Detach(s);
      count := count - 1;
    }

    /** One step of the walk: ends the last of the first `i` sessions if it is stale, and names the one before it. */
    method Visit(s: int, deadline: U64, ghost l: Lru, ghost i: nat) returns (before: int)
      requires Valid() && Invariant(l) && 0 < i <= |l.order| && s == l.order[i - 1]
      requires View() == Cleaned(l, i, deadline)
      modifies this, sessions, prev, next
      ensures Valid() && View() == Cleaned(l, i - 1, deadline)
      ensures before == Last(l.order[..i - 1])
    {
      CleanStep(l, i - 1, deadline);
      assert LinkAt(prev[..], next[..], order, i - 1);
      before := prev[s];
      if sessions[s].active && sessions[s].last < deadline {
        Destroy(s);
      }
    }

    /** Walks the list from its tail and ends the sessions older than the deadline. */
    method Sweep(deadline: U64)
      requires Valid()
      modifies this, sessions, prev, next
      ensures Valid() && View() == Cleaned(old(View()), 0, deadline)
    {
      ghost var l := View();
      CleanedNone(l, deadline);
      ghost var i := |order|;
      assert l.order[..i] == l.order;
      var s := tail;
      while s != -1
        invariant 0 <= i <= |l.order| && s == Last(l.order[..i])
        invariant Invariant(l) && Valid() && View() == Cleaned(l, i, deadline)
        decreases i
      {
        LastIs(l.order, i);
        s := Visit(s, deadline, l, i);
        i := i - 1;
      }
      LastIsSlot(l, i);
    }

    method CleanupStale(now: U64)
      requires Valid() && clock <= now
      modifies this, sessions, prev, next
      ensures Valid() && View() == AfterCleanup(old(View()), now)
    {
      SweepIsCleanup(View(), now);
      Sweep(Wrap64(now - 300000));
      Advance(now);
    }

    /** The time seen last; it does not touch the list. */
    ghost method Advance(now: U64)
      requires Valid() && Invariant(View().(clock := now))
      modifies `clock
      ensures Valid() && View() == old(View()).(clock := now)
    {
      clock := now;
      assert View() == old(View()).(clock := now);
    }
  }

  lemma SweepIsCleanup(l: Lru, now: U64)
    requires Invariant(l) && l.clock <= now
    ensures Cleaned(l, 0, Deadline(now)).(clock := now) == AfterCleanup(l, now)
    ensures Invariant(Cleaned(l, 0, Deadline(now)).(clock := now))
  {
    CleanedAll(l, Deadline(now));
    CleanupKeeps(l, now);
  }

  lemma ForwardCount(l: Lru, s: int)
    requires Invariant(l) && 0 <= s < |l.pool| && l.pool[s].active
    ensures |[s] + Without(l.order, s)| == |l.order|
  {
    assert Listed(l.pool, l.order, s);
    ChainNoRepeat(l.pool, l.order, l.clock);
    WithoutMembers(l.order, s);
  }

  lemma LastIs(order: seq<int>, i: nat)
    requires i <= |order| && Last(order[..i]) != -1
    ensures 0 < i && Last(order[..i]) == order[i - 1]
  {
  }

  lemma LastIsSlot(l: Lru, i: nat)
    requires Invariant(l) && i <= |l.order| && Last(l.order[..i]) == -1
    ensures i == 0
  {
    ChainPositions(l.pool, l.order, l.clock);
  }

  // ----- cleanup from the tail

  function ExpireListed(pool: seq<Session>, listed: seq<int>, deadline: U64): (r: seq<Session>)
    ensures |r| == |pool|
  {
    seq(|pool|, s requires 0 <= s < |pool| => if s in listed then Expire(pool[s], deadline) else pool[s])
  }

  /** The table when only the sessions from position `i` on have been looked at. */
  function Cleaned(l: Lru, i: nat, deadline: U64): Lru
    requires i <= |l.order|
  {
    l.(pool := ExpireListed(l.pool, l.order[i..], deadline),
       order := l.order[..i] + FreshOnes(l.pool, l.order[i..], deadline))
  }

  lemma CleanedNone(l: Lru, deadline: U64)
    ensures Cleaned(l, |l.order|, deadline) == l
  {
    assert l.order[|l.order|..] == [];
    assert ExpireListed(l.pool, [], deadline) == l.pool;
  }

  lemma CleanedAll(l: Lru, deadline: U64)
    requires Invariant(l)
    ensures Cleaned(l, 0, deadline) ==
      l.(pool := ExpireAll(l.pool, deadline), order := FreshOnes(l.pool, l.order, deadline))
  {
    assert l.order[0..] == l.order;
    assert ExpireListed(l.pool, l.order, deadline) == ExpireAll(l.pool, deadline) by {
      forall s | 0 <= s < |l.pool|
        ensures ExpireListed(l.pool, l.order, deadline)[s] == ExpireAll(l.pool, deadline)[s]
      {
        assert Listed(l.pool, l.order, s);
      }
    }
  }

  /** Looking at one more session destroys it if it is stale and changes nothing otherwise. */
  lemma CleanStep(l: Lru, i: nat, deadline: U64)
    requires Invariant(l) && i < |l.order|
    ensures 0 <= l.order[i] < |l.pool| && l.pool[l.order[i]].active
    ensures
      var c, s := Cleaned(l, i + 1, deadline), l.order[i];
      c.order[i] == s && c.pool[s] == l.pool[s] &&
      Cleaned(l, i, deadline) == if Stale(l.pool[s], deadline) then AfterDestroy(c, s) else c
  {
    ChainPositions(l.pool, l.order, l.clock);
    var s := l.order[i];
    assert s !in l.order[..i] && s !in l.order[i + 1..];
    assert l.order[i..] == [s] + l.order[i + 1..];
    CleanOrder(l.pool, l.order, i, deadline);
    CleanPool(l.pool, s, l.order[i + 1..], deadline);
  }

  lemma CleanOrder(pool: seq<Session>, order: seq<int>, i: nat, deadline: U64)
    requires i < |order| && order[i] !in order[..i] && 0 <= order[i] < |pool|
    ensures
      var now := order[..i + 1] + FreshOnes(pool, order[i + 1..], deadline);
      var next := order[..i] + FreshOnes(pool, order[i..], deadline);
      now[i] == order[i] && next == if pool[order[i]].last < deadline then Without(now, order[i]) else now
  {
    var s, kept := order[i], FreshOnes(pool, order[i + 1..], deadline);
    assert order[i..][1..] == order[i + 1..];
    assert order[..i + 1] == order[..i] + [s];
    WithoutMiddle(order[..i], s, kept);
    assert order[..i] + ([s] + kept) == order[..i] + [s] + kept;
  }

  lemma CleanPool(pool: seq<Session>, s: int, listed: seq<int>, deadline: U64)
    requires 0 <= s < |pool| && s !in listed
    ensures ExpireListed(pool, listed, deadline)[s] == pool[s]
    ensures ExpireListed(pool, [s] + listed, deadline) ==
      ExpireListed(pool, listed, deadline)[s := Expire(pool[s], deadline)]
  {
  }

  // ----- list facts

  lemma ClearKeeps(prev: seq<int>, next: seq<int>, order: seq<int>, s: int)
    requires LinkedUp(prev, next, order) && LooseOutside(prev, next, order, s)
    requires 0 <= s < |prev| == |next| && s !in order
    ensures LinkedUp(prev[s := -1], next[s := -1], order)
    ensures LooseOutside(prev[s := -1], next[s := -1], order, -1)
  {
    var prev', next' := prev[s := -1], next[s := -1];
    forall i | 0 <= i < |order| ensures LinkAt(prev', next', order, i) {
      assert LinkAt(prev, next, order, i);
      assert order[i] in order;
    }
    forall x | x != -1 ensures Loose(prev', next', order, x) {
      assert x != s ==> Loose(prev, next, order, x);
    }
  }

  /** A free slot is not listed, and with it the list still fits the pool. */
  lemma RoomForOne(pool: seq<Session>, order: seq<int>, bound: U64, s: int)
    requires Chain(pool, order, bound) && 0 <= s < |pool| && !pool[s].active
    ensures s !in order && |order| + 1 <= |pool|
  {
    ChainPositions(pool, order, bound);
    ChainNoRepeat(pool, order, bound);
    assert s !in order;
    PushNoRepeat(s, order);
    Pigeonhole([s] + order, |pool|);
  }

  /** Only a listed slot has a neighbour or is the head. */
  lemma ListedHasLink(prev: seq<int>, next: seq<int>, order: seq<int>, s: int)
    requires LinkedUp(prev, next, order) && 0 <= s < |prev| == |next|
    requires prev[s] == -1 && First(order) != s
    ensures s !in order
  {
    forall i | 0 <= i < |order| ensures order[i] != s {
      assert LinkAt(prev, next, order, i);
      assert i > 0 ==> LinkAt(prev, next, order, i - 1);
    }
  }
}
