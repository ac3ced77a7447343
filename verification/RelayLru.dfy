/**
 The relay's session pool and the order of its least-recently-used list. `Lru` is the abstract table:
 the pool of sessions and the order of the active ones, most recently used first.
 */
module RelayLru {
  import opened Words
  import opened Lists

  datatype Session = Session(id: U32, created: U64, last: U64, active: bool)

  datatype Lru = Lru(pool: seq<Session>, order: seq<int>, clock: U64, nextId: U32, peak: U32)

  // ----- invariant

  /**
   The slots of `order` are active and distinct, and last activity does not increase along it, from
   `bound` on.
   */
  predicate Chain(pool: seq<Session>, order: seq<int>, bound: U64)
    decreases |order|
  {
    order == [] ||
    (var s := order[0];
     0 <= s < |pool| && pool[s].active && pool[s].last <= bound && s !in order[1..] &&
     Chain(pool, order[1..], pool[s].last))
  }

  /** Every active slot is listed. */
  predicate Complete(pool: seq<Session>, order: seq<int>) {
    forall s {:trigger Listed(pool, order, s)} :: 0 <= s < |pool| ==> Listed(pool, order, s)
  }

  predicate Listed(pool: seq<Session>, order: seq<int>, s: int)
    requires 0 <= s < |pool|
  {
    pool[s].active ==> s in order
  }

  predicate Invariant(l: Lru) {
    Chain(l.pool, l.order, l.clock) && Complete(l.pool, l.order)
  }

  // ----- operations

  function FirstFree(pool: seq<Session>, i: nat): (s: nat)
    requires i <= |pool|
    ensures i <= s <= |pool|
    ensures forall k {:trigger pool[k]} :: i <= k < s ==> pool[k].active
    ensures s < |pool| ==> !pool[s].active
    decreases |pool| - i
  {
    if i == |pool| || !pool[i].active then i else FirstFree(pool, i + 1)
  }

  function AfterCreate(l: Lru, now: U64): Lru {
    var s := FirstFree(l.pool, 0);
    if s == |l.pool| then l
    else
      Lru(l.pool[s := Session(l.nextId, now, now, true)], [s] + l.order, now, Wrap32(l.nextId + 1),
          Max(l.peak, Wrap32(|l.order| + 1)))
  }

  function AfterForward(l: Lru, s: int, now: U64): Lru
    requires 0 <= s < |l.pool|
  {
    l.(pool := l.pool[s := l.pool[s].(last := now)], order := [s] + Without(l.order, s), clock := now)
  }

  function AfterDestroy(l: Lru, s: int): Lru
    requires 0 <= s < |l.pool|
  {
    if !l.pool[s].active then l
    else l.(pool := l.pool[s := l.pool[s].(active := false)], order := Without(l.order, s))
  }

  /** The deadline of a cleanup; it wraps when the clock has not reached the timeout of 300 s. */
  function Deadline(now: U64): U64 { Wrap64(now - 300000) }

  predicate Stale(e: Session, deadline: U64) { e.active && e.last < deadline }

  function Expire(e: Session, deadline: U64): Session { if Stale(e, deadline) then e.(active := false) else e }

  function ExpireAll(pool: seq<Session>, deadline: U64): (r: seq<Session>)
    ensures |r| == |pool|
  {
    seq(|pool|, s requires 0 <= s < |pool| => Expire(pool[s], deadline))
  }

  predicate Fresh(pool: seq<Session>, s: int, deadline: U64) {
    0 <= s < |pool| && pool[s].last >= deadline
  }

  /** The sessions of `order` that are not older than the deadline. */
  function FreshOnes(pool: seq<Session>, order: seq<int>, deadline: U64): seq<int>
    decreases |order|
  {
    if order == [] then []
    else if Fresh(pool, order[0], deadline) then [order[0]] + FreshOnes(pool, order[1..], deadline)
    else FreshOnes(pool, order[1..], deadline)
  }

  function AfterCleanup(l: Lru, now: U64): Lru {
    var deadline := Deadline(now);
    l.(pool := ExpireAll(l.pool, deadline), order := FreshOnes(l.pool, l.order, deadline), clock := now)
  }

  // ----- the chain under each change

  lemma {:induction false} ChainWithout(pool: seq<Session>, order: seq<int>, bound: U64, s: int)
    requires Chain(pool, order, bound)
    ensures Chain(pool, Without(order, s), bound)
    ensures forall x {:trigger x in Without(order, s)} :: x in Without(order, s) <==> x in order && x != s
    decreases |order|
  {
    if order != [] {
      var rest := order[1..];
      ChainWithout(pool, rest, pool[order[0]].last, s);
      assert forall x :: x in order <==> x == order[0] || x in rest;
      if order[0] != s {
        assert Without(order, s)[1..] == Without(rest, s);
      }
    }
  }

  lemma {:induction false} ChainUpdate(pool: seq<Session>, order: seq<int>, bound: U64, s: int, e: Session)
    requires Chain(pool, order, bound) && 0 <= s < |pool| && s !in order
    ensures Chain(pool[s := e], order, bound)
    decreases |order|
  {
    if order != [] {
      assert order[0] in order;
      ChainUpdate(pool, order[1..], pool[order[0]].last, s, e);
    }
  }

  /** A new head, at least as recent as the whole chain. */
  lemma ChainPush(pool: seq<Session>, order: seq<int>, bound: U64, s: int, e: Session)
    requires Chain(pool, order, bound) && 0 <= s < |pool| && s !in order
    requires e.active && e.last >= bound
    ensures Chain(pool[s := e], [s] + order, e.last)
  {
    ChainUpdate(pool, order, bound, s, e);
    assert ([s] + order)[1..] == order;
  }

  lemma {:induction false} ChainFresh(pool: seq<Session>, order: seq<int>, bound: U64, deadline: U64)
    requires Chain(pool, order, bound)
    ensures Chain(ExpireAll(pool, deadline), FreshOnes(pool, order, deadline), bound)
    ensures forall x {:trigger x in FreshOnes(pool, order, deadline)} ::
      x in FreshOnes(pool, order, deadline) <==> x in order && Fresh(pool, x, deadline)
    decreases |order|
  {
    if order != [] {
      var rest := order[1..];
      ChainFresh(pool, rest, pool[order[0]].last, deadline);
      assert forall x :: x in order <==> x == order[0] || x in rest;
      if Fresh(pool, order[0], deadline) {
        assert FreshOnes(pool, order, deadline)[1..] == FreshOnes(pool, rest, deadline);
      }
    }
  }

  /** Behind a stale session everything is stale: the fresh ones are a prefix of the list. */
  lemma {:induction false} FreshIsPrefix(pool: seq<Session>, order: seq<int>, bound: U64, deadline: U64)
    requires Chain(pool, order, bound)
    ensures FreshOnes(pool, order, deadline) <= order
    ensures bound < deadline ==> FreshOnes(pool, order, deadline) == []
    decreases |order|
  {
    if order != [] { FreshIsPrefix(pool, order[1..], pool[order[0]].last, deadline); }
  }

  lemma {:induction false} ChainNoRepeat(pool: seq<Session>, order: seq<int>, bound: U64)
    requires Chain(pool, order, bound)
    ensures NoRepeat(order)
    decreases |order|
  {
    if order != [] { ChainNoRepeat(pool, order[1..], pool[order[0]].last); }
  }

  /** The chain position by position: distinct active slots in non-increasing order of last activity. */
  lemma {:induction false} ChainPositions(pool: seq<Session>, order: seq<int>, bound: U64)
    requires Chain(pool, order, bound)
    ensures forall i {:trigger order[i]} :: 0 <= i < |order| ==>
      0 <= order[i] < |pool| && pool[order[i]].active && pool[order[i]].last <= bound
    ensures forall i, j {:trigger order[i], order[j]} :: 0 <= i < j < |order| ==>
      order[i] != order[j] && pool[order[i]].last >= pool[order[j]].last
    decreases |order|
  {
    if order != [] {
      var rest := order[1..];
      ChainPositions(pool, rest, pool[order[0]].last);
      assert forall i {:trigger order[i]} :: 1 <= i < |order| ==> order[i] == rest[i - 1];
    }
  }

  // ----- every operation keeps the invariant

  lemma CreateKeeps(l: Lru, now: U64)
    requires Invariant(l) && l.clock <= now
    ensures Invariant(AfterCreate(l, now))
  {
    var s := FirstFree(l.pool, 0);
    if s < |l.pool| {
      var l' := AfterCreate(l, now);
      ChainPositions(l.pool, l.order, l.clock);
      ChainPush(l.pool, l.order, l.clock, s, l'.pool[s]);
      forall x | 0 <= x < |l'.pool| ensures Listed(l'.pool, l'.order, x) {
        assert Listed(l.pool, l.order, x);
      }
    }
  }

  lemma ForwardKeeps(l: Lru, s: int, now: U64)
    requires Invariant(l) && l.clock <= now && 0 <= s < |l.pool| && l.pool[s].active
    ensures Invariant(AfterForward(l, s, now))
  {
    var l' := AfterForward(l, s, now);
    ChainWithout(l.pool, l.order, l.clock, s);
    ChainPush(l.pool, Without(l.order, s), l.clock, s, l'.pool[s]);
    forall x | 0 <= x < |l'.pool| ensures Listed(l'.pool, l'.order, x) {
      assert Listed(l.pool, l.order, x);
    }
  }

  lemma DestroyKeeps(l: Lru, s: int)
    requires Invariant(l) && 0 <= s < |l.pool|
    ensures Invariant(AfterDestroy(l, s))
  {
    if l.pool[s].active {
      var l' := AfterDestroy(l, s);
      ChainWithout(l.pool, l.order, l.clock, s);
      ChainUpdate(l.pool, Without(l.order, s), l.clock, s, l'.pool[s]);
      forall x | 0 <= x < |l'.pool| ensures Listed(l'.pool, l'.order, x) {
        assert Listed(l.pool, l.order, x);
      }
    }
  }

  lemma CleanupKeeps(l: Lru, now: U64)
    requires Invariant(l) && l.clock <= now
    ensures Invariant(AfterCleanup(l, now))
  {
    var l' := AfterCleanup(l, now);
    ChainFresh(l.pool, l.order, l.clock, Deadline(now));
    Later(l'.pool, l'.order, l.clock, now);
    forall x | 0 <= x < |l'.pool| ensures Listed(l'.pool, l'.order, x) {
      assert Listed(l.pool, l.order, x);
    }
  }

  lemma Later(pool: seq<Session>, order: seq<int>, bound: U64, later: U64)
    requires Chain(pool, order, bound) && bound <= later
    ensures Chain(pool, order, later)
  {
  }

  /**
   Cleanup ends exactly the sessions idle for longer than the timeout, and the others keep their places
   at the front of the list. Before the clock has reached the timeout it ends all sessions.
   */
  lemma CleanupExact(l: Lru, now: U64)
    requires Invariant(l) && l.clock <= now
    ensures AfterCleanup(l, now).order <= l.order
    ensures forall s :: 0 <= s < |l.pool| ==>
      (AfterCleanup(l, now).pool[s].active <==> l.pool[s].active && now >= 300000 && now - l.pool[s].last <= 300000)
  {
    FreshIsPrefix(l.pool, l.order, l.clock, Deadline(now));
    ChainPositions(l.pool, l.order, l.clock);
    forall s | 0 <= s < |l.pool| && l.pool[s].active ensures l.pool[s].last <= now {
      assert Listed(l.pool, l.order, s);
    }
  }

  // ----- runs

  datatype Op = Create(now: U64) | Forward(slot: int, now: U64) | Destroy(slot: int) | Cleanup(now: U64)

  /** The clock does not run backwards, and only an active session forwards. */
  predicate Enabled(l: Lru, op: Op) {
    match op
    case Create(now) => l.clock <= now
    case Forward(s, now) => l.clock <= now && 0 <= s < |l.pool| && l.pool[s].active
    case Destroy(s) => 0 <= s < |l.pool|
    case Cleanup(now) => l.clock <= now
  }

  function Apply(l: Lru, op: Op): Lru
    requires Enabled(l, op)
  {
    match op
    case Create(now) => AfterCreate(l, now)
    case Forward(s, now) => AfterForward(l, s, now)
    case Destroy(s) => AfterDestroy(l, s)
    case Cleanup(now) => AfterCleanup(l, now)
  }

  lemma ApplyKeeps(l: Lru, op: Op)
    requires Invariant(l) && Enabled(l, op)
    ensures Invariant(Apply(l, op))
  {
    match op
    case Create(now) => CreateKeeps(l, now);
    case Forward(s, now) => ForwardKeeps(l, s, now);
    case Destroy(s) => DestroyKeeps(l, s);
    case Cleanup(now) => CleanupKeeps(l, now);
  }

  predicate EnabledRun(l: Lru, ops: seq<Op>)
    decreases |ops|
  {
    ops == [] || (Enabled(l, ops[0]) && EnabledRun(Apply(l, ops[0]), ops[1..]))
  }

  function AfterRun(l: Lru, ops: seq<Op>): Lru
    requires EnabledRun(l, ops)
    decreases |ops|
  {
    if ops == [] then l else AfterRun(Apply(l, ops[0]), ops[1..])
  }

  lemma {:induction false} RunKeeps(l: Lru, ops: seq<Op>)
    requires Invariant(l) && EnabledRun(l, ops)
    ensures Invariant(AfterRun(l, ops))
    decreases |ops|
  {
    if ops != [] {
      ApplyKeeps(l, ops[0]);
      RunKeeps(Apply(l, ops[0]), ops[1..]);
    }
  }

  function ActiveIn(pool: seq<Session>): nat
    decreases |pool|
  {
    if pool == [] then 0 else ActiveIn(pool[..|pool| - 1]) + if pool[|pool| - 1].active then 1 else 0
  }

  /** A list of exactly the active slots, without repetition, is as long as there are active slots. */
  lemma {:induction false} ListedCount(pool: seq<Session>, order: seq<int>)
    requires NoRepeat(order)
    requires forall s {:trigger s in order} :: s in order <==> 0 <= s < |pool| && pool[s].active
    ensures |order| == ActiveIn(pool)
    decreases |pool|
  {
    if pool == [] {
      Pigeonhole(order, 0);
    } else {
      var n := |pool| - 1;
      WithoutMembers(order, n);
      if !pool[n].active { WithoutAbsent(order, n); }
      ListedCount(pool[..n], Without(order, n));
    }
  }

  /** The list holds the active sessions, each exactly once and nothing else; recent ones come first. */
  ghost predicate EnumeratesActive(l: Lru) {
    (forall i {:trigger l.order[i]} :: 0 <= i < |l.order| ==>
       0 <= l.order[i] < |l.pool| && l.pool[l.order[i]].active) &&
    (forall s {:trigger l.pool[s]} :: 0 <= s < |l.pool| && l.pool[s].active ==>
       exists i :: 0 <= i < |l.order| && l.order[i] == s) &&
    (forall i, j {:trigger l.order[i], l.order[j]} :: 0 <= i < j < |l.order| ==>
       l.order[i] != l.order[j] && l.pool[l.order[i]].last >= l.pool[l.order[j]].last) &&
    |l.order| == ActiveIn(l.pool)
  }

  lemma InvariantEnumerates(l: Lru)
    requires Invariant(l)
    ensures EnumeratesActive(l)
  {
    ChainPositions(l.pool, l.order, l.clock);
    ChainNoRepeat(l.pool, l.order, l.clock);
    forall s {:trigger s in l.order} ensures s in l.order <==> 0 <= s < |l.pool| && l.pool[s].active {
      if 0 <= s < |l.pool| { assert Listed(l.pool, l.order, s); }
    }
    ListedCount(l.pool, l.order);
    forall s {:trigger l.pool[s]} | 0 <= s < |l.pool| && l.pool[s].active
      ensures exists i :: 0 <= i < |l.order| && l.order[i] == s
    {
      assert s in l.order;
    }
  }

  /** After every run from an empty pool the list enumerates the active sessions by last activity. */
  lemma EveryRunEnumerates(l: Lru, ops: seq<Op>)
    requires l.order == [] && (forall s {:trigger l.pool[s]} :: 0 <= s < |l.pool| ==> !l.pool[s].active)
    requires EnabledRun(l, ops)
    ensures EnumeratesActive(AfterRun(l, ops))
  {
    RunKeeps(l, ops);
    InvariantEnumerates(AfterRun(l, ops));
  }
}
