/**
 The per-key rate limiter: 4096 chained hash buckets of token buckets, with idle entries evicted
 now and then. Every operation is atomic and reads the clock once.
 */
module RateTable {
  import opened Words
  import opened TokenBucket

  /** A C string without its terminator. */
  type Key = seq<Byte>

  datatype Entry = Entry(key: Key, limit: Bucket, lastUsed: int)

  datatype Params = Params(max: real, rate: real, interval: int)

  datatype Table = Table(chains: seq<seq<Entry>>, lastCleanup: int)

  ghost predicate WellFormed(t: Table) { |t.chains| == 4096 }

  function NewTable(start: int): Table { Table(seq(4096, _ => []), start) }

  // ----- hashing

  function Fnv(h: bv32, key: Key): bv32
    decreases |key|
  {
    if key == [] then h else Fnv((h ^ (key[0] as bv32)) * 0x0100_0193, key[1..])
  }

  function Hash(key: Key): (i: nat)
    ensures i < 4096
  {
    (Fnv(0x811c_9dc5, key) as int) % 4096
  }

  // ----- chains

  /** Position of the first entry with the key, or the length of the chain. */
  function IndexOf(chain: seq<Entry>, key: Key): (i: nat)
    ensures i <= |chain|
    ensures i < |chain| ==> chain[i].key == key
    ensures forall j :: 0 <= j < i ==> chain[j].key != key
  {
    if chain == [] || chain[0].key == key then 0 else 1 + IndexOf(chain[1..], key)
  }

  /** Keys are stored in 128 bytes, so at most 127 characters survive. */
  function StoredKey(key: Key): Key { if |key| <= 127 then key else key[..127] }

  function Kept(chain: seq<Entry>, now: int, maxAge: int): seq<Entry> {
    if chain == [] then []
    else if now - chain[0].lastUsed > maxAge then Kept(chain[1..], now, maxAge)
    else [chain[0]] + Kept(chain[1..], now, maxAge)
  }

  // ----- operations on the table

  function Touched(e: Entry, now: int, cost: real): Entry {
    e.(lastUsed := now, limit := AfterCheck(e.limit, now, cost))
  }

  function NewEntry(p: Params, key: Key, now: int): Entry {
    Entry(StoredKey(key), Fresh(p.max, p.rate, now), now)
  }

  /** The chain and the answer after a check; `alloc` says whether a new entry could be allocated. */
  function CheckChain(p: Params, chain: seq<Entry>, key: Key, cost: real, now: int, alloc: bool): (seq<Entry>, bool) {
    var i := IndexOf(chain, key);
    if i < |chain| then
      (chain[i := Touched(chain[i], now, cost)], Allows(chain[i].limit, now, cost))
    else if !alloc then (chain, false)
    else
      var e := NewEntry(p, key, now);
      ([Touched(e, now, cost)] + chain, Allows(e.limit, now, cost))
  }

  function CheckTable(p: Params, t: Table, key: Key, cost: real, now: int, alloc: bool): (Table, bool)
    requires WellFormed(t)
  {
    var (chain, allowed) := CheckChain(p, t.chains[Hash(key)], key, cost, now, alloc);
    (t.(chains := t.chains[Hash(key) := chain]), allowed)
  }

  function CleanupTable(p: Params, t: Table, maxAge: int, now: int): Table {
    if now - t.lastCleanup < p.interval then t
    else Table(seq(|t.chains|, i requires 0 <= i < |t.chains| => Kept(t.chains[i], now, maxAge)), now)
  }

  class RateLimiterTable {
    const buckets: array<seq<Entry>>
    const p: Params
    var lastCleanup: int

    ghost predicate Valid()
      reads this
    {
      buckets.Length == 4096
    }

    ghost function Value(): Table
      reads this, buckets
    {
      Table(buckets[..], lastCleanup)
    }

    constructor (p: Params, now: int)
      ensures Valid() && Value() == NewTable(now) && fresh(buckets) && this.p == p
    {
      buckets := new seq<Entry>[4096](_ => []);
      this.p := p;
      lastCleanup := now;
    }

    /** Walks the chain of the key. */
    method FindEntry(chain: seq<Entry>, key: Key) returns (i: nat)
      ensures i == IndexOf(chain, key)
    {
      i := 0;
      while i < |chain| && chain[i].key != key
        invariant i <= |chain| && forall j :: 0 <= j < i ==> chain[j].key != key
      {
        i := i + 1;
      }
    }

    method Check(key: Key, cost: real, now: int, alloc: bool) returns (allowed: bool)
      requires Valid()
      modifies buckets
      ensures Valid() && (Value(), allowed) == CheckTable(p, old(Value()), key, cost, now, alloc)
    {
      var idx := Hash(key);
      var chain := buckets[idx];
      var i := FindEntry(chain, key);
      var e;
      if i < |chain| {
        e := chain[i];
      } else {
        if !alloc {
          assert buckets[..][idx := chain] == buckets[..];
          return false;
        }
        e := NewEntry(p, key, now);
      }
      allowed := Allows(e.limit, now, cost);
      e := Touched(e, now, cost);
      buckets[idx] := if i < |chain| then chain[i := e] else [e] + chain;
      assert buckets[..] == old(buckets[..])[idx := buckets[idx]];
    }

    /** Unlinks the expired entries of one chain. */
    method CleanChain(chain: seq<Entry>, now: int, maxAge: int) returns (kept: seq<Entry>)
      ensures kept == Kept(chain, now, maxAge)
    {
      kept := [];
      var i := 0;
      assert chain[0..] == chain;
      while i < |chain|
        invariant i <= |chain| && Kept(chain, now, maxAge) == kept + Kept(chain[i..], now, maxAge)
      {
        assert chain[i..][1..] == chain[i + 1..];
        if now - chain[i].lastUsed <= maxAge { kept := kept + [chain[i]]; }
        i := i + 1;
      }
    }

    method Cleanup(maxAge: int, now: int)
      requires Valid()
      modifies this, buckets
      ensures Valid() && Value() == CleanupTable(p, old(Value()), maxAge, now)
    {
      if now - lastCleanup < p.interval { return; }
      lastCleanup := now;
      var i := 0;
      while i < buckets.Length
        modifies buckets
        invariant 0 <= i <= buckets.Length
        invariant forall j :: 0 <= j < i ==> buckets[j] == Kept(old(buckets[j]), now, maxAge)
        invariant forall j :: i <= j < buckets.Length ==> buckets[j] == old(buckets[j])
      {
        var kept := CleanChain(buckets[i], now, maxAge);
        buckets[i] := kept;
        i := i + 1;
      }
    }
  }

  // ----- what a chain knows about a key

  function FindIn(chain: seq<Entry>, key: Key): Option<Entry> {
    if IndexOf(chain, key) < |chain| then Some(chain[IndexOf(chain, key)]) else None
  }

  /** The entry a check works on. */
  function EntryFor(p: Params, chain: seq<Entry>, key: Key, now: int): Entry {
    match FindIn(chain, key)
    case Some(e) => e
    case None => NewEntry(p, key, now)
  }

  ghost predicate Tidy(chain: seq<Entry>) {
    forall i, j :: 0 <= i < j < |chain| ==> chain[i].key != chain[j].key
  }

  lemma FoundAt(chain: seq<Entry>, key: Key, i: nat)
    requires Tidy(chain) && i < |chain| && chain[i].key == key
    ensures IndexOf(chain, key) == i
  {
  }

  lemma NotFound(chain: seq<Entry>, key: Key)
    requires forall i :: 0 <= i < |chain| ==> chain[i].key != key
    ensures FindIn(chain, key) == None
  {
  }

  /** A check changes what its own chain knows about its own key, and nothing else. */
  lemma CheckChainFinds(p: Params, chain: seq<Entry>, key: Key, cost: real, now: int, k: Key)
    requires Tidy(chain) && |key| <= 127
    ensures var r := CheckChain(p, chain, key, cost, now, true).0;
      && Tidy(r)
      && (k != key ==> FindIn(r, k) == FindIn(chain, k))
      && (k == key ==> FindIn(r, k) == Some(Touched(EntryFor(p, chain, key, now), now, cost)))
  {
    var i := IndexOf(chain, key);
    var r := CheckChain(p, chain, key, cost, now, true).0;
    if i < |chain| {
      assert forall j :: 0 <= j < |chain| ==> r[j].key == chain[j].key;
      var m := IndexOf(chain, k);
      if m < |chain| { FoundAt(r, k, m); } else { NotFound(r, k); }
    } else {
      assert r[1..] == chain;
    }
  }

  lemma {:induction false} KeptSubset(chain: seq<Entry>, now: int, maxAge: int)
    ensures forall e :: e in Kept(chain, now, maxAge) ==> e in chain
  {
    if chain != [] { KeptSubset(chain[1..], now, maxAge); }
  }

  /** Eviction forgets a key exactly when its entry is too old. */
  lemma {:induction false} KeptFinds(chain: seq<Entry>, now: int, maxAge: int, k: Key)
    requires Tidy(chain)
    ensures Tidy(Kept(chain, now, maxAge))
    ensures FindIn(Kept(chain, now, maxAge), k) ==
      match FindIn(chain, k)
      case None => None
      case Some(e) => if now - e.lastUsed > maxAge then None else Some(e)
  {
    if chain != [] {
      var rest := Kept(chain[1..], now, maxAge);
      KeptFinds(chain[1..], now, maxAge, k);
      KeptSubset(chain[1..], now, maxAge);
      forall i | 0 <= i < |rest| ensures rest[i].key != chain[0].key {
        assert rest[i] in chain[1..];
      }
      if chain[0].key == k { NotFound(rest, k); }
    }
  }

  lemma {:induction false} KeptExact(chain: seq<Entry>, now: int, maxAge: int, e: Entry)
    ensures e in Kept(chain, now, maxAge) <==> e in chain && now - e.lastUsed <= maxAge
  {
    if chain != [] {
      KeptExact(chain[1..], now, maxAge, e);
      assert e in chain <==> e == chain[0] || e in chain[1..];
    }
  }

  /** Sooner than the interval after the last cleanup nothing happens; from then on the old entries go. */
  lemma CleanupExact(p: Params, t: Table, maxAge: int, now: int, i: nat, e: Entry)
    requires i < |t.chains|
    ensures now - t.lastCleanup < p.interval ==> CleanupTable(p, t, maxAge, now) == t
    ensures now - t.lastCleanup >= p.interval ==>
      var u := CleanupTable(p, t, maxAge, now);
      && |u.chains| == |t.chains| && u.lastCleanup == now
      && (e in u.chains[i] <==> e in t.chains[i] && now - e.lastUsed <= maxAge)
  {
    KeptExact(t.chains[i], now, maxAge, e);
  }

  // ----- the table against a plain map

  function Lookup(t: Table, key: Key): Option<Entry>
    requires WellFormed(t)
  {
    FindIn(t.chains[Hash(key)], key)
  }

  /** The reference: one bucket per key, never evicted. */
  function PlainBucket(p: Params, m: map<Key, Bucket>, key: Key, now: int): Bucket {
    if key in m then m[key] else Fresh(p.max, p.rate, now)
  }

  datatype Op = Check(key: Key, cost: real, now: int, alloc: bool) | Cleanup(maxAge: int, now: int)

  function RunTable(p: Params, t: Table, ops: seq<Op>): seq<bool>
    requires WellFormed(t)
    decreases |ops|
  {
    if ops == [] then []
    else match ops[0]
      case Check(key, cost, now, alloc) =>
        var (u, allowed) := CheckTable(p, t, key, cost, now, alloc);
        [allowed] + RunTable(p, u, ops[1..])
      case Cleanup(maxAge, now) => RunTable(p, CleanupTable(p, t, maxAge, now), ops[1..])
  }

  function RunPlain(p: Params, m: map<Key, Bucket>, ops: seq<Op>): seq<bool>
    decreases |ops|
  {
    if ops == [] then []
    else match ops[0]
      case Check(key, cost, now, _) =>
        var b := PlainBucket(p, m, key, now);
        [Allows(b, now, cost)] + RunPlain(p, m[key := AfterCheck(b, now, cost)], ops[1..])
      case Cleanup(_, _) => RunPlain(p, m, ops[1..])
  }

  /** By the time an entry is older than `maxAge`, its bucket has had time to fill up from empty. */
  predicate RefillsFirst(p: Params, maxAge: int) { Earned(p.rate, Max(0, maxAge + 1)) >= p.max }

  /** Short keys, memory for them, a clock that does not go back, and no eviction before a full refill. */
  ghost predicate Admissible(p: Params, t: int, ops: seq<Op>)
    decreases |ops|
  {
    ops == [] ||
    (&& t <= ops[0].now
     && (ops[0].Check? ==> |ops[0].key| <= 127 && ops[0].alloc)
     && (ops[0].Cleanup? ==> RefillsFirst(p, ops[0].maxAge))
     && Admissible(p, ops[0].now, ops[1..]))
  }

  /** A bucket that has had time to fill up answers like a new one. */
  ghost predicate Full(b: Bucket, now: int) { b.tokens + Earned(b.rate, now - b.last) >= b.max }

  ghost predicate GoodBucket(p: Params, b: Bucket, now: int) {
    b.max == p.max && b.rate == p.rate && 0.0 <= b.tokens && b.last <= now
  }

  ghost predicate Agrees(p: Params, t: Table, m: map<Key, Bucket>, now: int, k: Key)
    requires WellFormed(t)
  {
    && (k in m ==> GoodBucket(p, m[k], now))
    && match Lookup(t, k)
       case Some(e) => k in m && e.limit == m[k] && e.lastUsed == e.limit.last
       case None => k in m ==> Full(m[k], now)
  }

  ghost predicate Simulates(p: Params, t: Table, m: map<Key, Bucket>, now: int) {
    && WellFormed(t) && 0.0 <= p.max && 0.0 <= p.rate
    && (forall i :: 0 <= i < 4096 ==> Tidy(t.chains[i]))
    && (forall k: Key {:trigger Agrees(p, t, m, now, k)} :: Agrees(p, t, m, now, k))
  }

  lemma FullLater(b: Bucket, t: int, now: int)
    requires 0.0 <= b.rate && Full(b, t) && t <= now
    ensures Full(b, now)
  {
    EarnedSplits(b.rate, t - b.last, now - t);
    EarnedSplits(b.rate, now - t, 0);
  }

  lemma FullAnswersFresh(b: Bucket, now: int, cost: real)
    requires Full(b, now)
    ensures AfterCheck(b, now, cost) == AfterCheck(Fresh(b.max, b.rate, now), now, cost)
    ensures Allows(b, now, cost) <==> Allows(Fresh(b.max, b.rate, now), now, cost)
  {
    EarnedSplits(b.rate, 0, 0);
  }

  lemma AgreesLater(p: Params, t: Table, m: map<Key, Bucket>, time: int, now: int, k: Key)
    requires WellFormed(t) && 0.0 <= p.rate && time <= now && Agrees(p, t, m, time, k)
    ensures Agrees(p, t, m, now, k)
  {
    if Lookup(t, k).None? && k in m { FullLater(m[k], time, now); }
  }

  /** One check gives the same answer on both sides and keeps the simulation. */
  lemma CheckSimulates(p: Params, t: Table, m: map<Key, Bucket>, time: int, key: Key, cost: real, now: int)
    requires Simulates(p, t, m, time) && time <= now && |key| <= 127
    ensures var b := PlainBucket(p, m, key, now);
      && CheckTable(p, t, key, cost, now, true).1 == Allows(b, now, cost)
      && Simulates(p, CheckTable(p, t, key, cost, now, true).0, m[key := AfterCheck(b, now, cost)], now)
  {
    var b := PlainBucket(p, m, key, now);
    var (u, allowed) := CheckTable(p, t, key, cost, now, true);
    var m' := m[key := AfterCheck(b, now, cost)];
    AgreesLater(p, t, m, time, now, key);
    OwnKeyAgrees(p, t, m, key, cost, now);
    forall i | 0 <= i < 4096 ensures Tidy(u.chains[i]) {
      CheckChainFinds(p, t.chains[Hash(key)], key, cost, now, key);
    }
    forall k: Key ensures Agrees(p, u, m', now, k) {
      if k != key {
        AgreesLater(p, t, m, time, now, k);
        CheckLocal(p, t, key, cost, now, true, k);
      }
    }
  }

  /** The same entries up to the one with key `key`: another key is found where it was. */
  lemma {:induction false} FindUpdated(chain: seq<Entry>, i: nat, e: Entry, k: Key)
    requires i < |chain| && e.key == chain[i].key != k
    ensures FindIn(chain[i := e], k) == FindIn(chain, k)
    decreases |chain|
  {
    if i > 0 && chain[0].key != k {
      FindUpdated(chain[1..], i - 1, e, k);
      assert chain[i := e][1..] == chain[1..][i - 1 := e];
    } else if i == 0 {
      assert chain[0 := e][1..] == chain[1..];
    }
  }

  /**
   A check leaves alone what the table knows about every other key: for any two keys, with or without
   memory, except that a key too long to be stored is stored as its first 127 characters.
   */
  lemma CheckLocal(p: Params, t: Table, key: Key, cost: real, now: int, alloc: bool, k: Key)
    requires WellFormed(t) && k != key && k != StoredKey(key)
    ensures Lookup(CheckTable(p, t, key, cost, now, alloc).0, k) == Lookup(t, k)
  {
    var chain := t.chains[Hash(key)];
    var i := IndexOf(chain, key);
    if i < |chain| {
      FindUpdated(chain, i, Touched(chain[i], now, cost), k);
    } else if alloc {
      var r := CheckChain(p, chain, key, cost, now, true).0;
      assert r[1..] == chain;
    }
  }

  lemma OwnKeyAgrees(p: Params, t: Table, m: map<Key, Bucket>, key: Key, cost: real, now: int)
    requires WellFormed(t) && Tidy(t.chains[Hash(key)]) && |key| <= 127 && 0.0 <= p.max && 0.0 <= p.rate
    requires Agrees(p, t, m, now, key)
    ensures var b := PlainBucket(p, m, key, now);
      && CheckTable(p, t, key, cost, now, true).1 == Allows(b, now, cost)
      && Agrees(p, CheckTable(p, t, key, cost, now, true).0, m[key := AfterCheck(b, now, cost)], now, key)
  {
    CheckChainFinds(p, t.chains[Hash(key)], key, cost, now, key);
    var b := PlainBucket(p, m, key, now);
    if Lookup(t, key).None? && key in m { FullAnswersFresh(b, now, cost); }
    CheckKeepsSound(b, now, cost);
  }

  lemma CleanupSimulates(p: Params, t: Table, m: map<Key, Bucket>, time: int, maxAge: int, now: int)
    requires Simulates(p, t, m, time) && time <= now && RefillsFirst(p, maxAge)
    ensures Simulates(p, CleanupTable(p, t, maxAge, now), m, now)
  {
    var u := CleanupTable(p, t, maxAge, now);
    forall k: Key ensures Agrees(p, u, m, now, k) {
      AgreesLater(p, t, m, time, now, k);
      if now - t.lastCleanup >= p.interval {
        KeptFinds(t.chains[Hash(k)], now, maxAge, k);
        if k in m { OldIsFull(p, m[k], maxAge, now); }
      }
    }
    forall i | 0 <= i < 4096 ensures Tidy(u.chains[i]) {
      KeptFinds(t.chains[i], now, maxAge, []);
    }
  }

  lemma OldIsFull(p: Params, b: Bucket, maxAge: int, now: int)
    requires 0.0 <= p.rate && GoodBucket(p, b, now) && RefillsFirst(p, maxAge)
    ensures now - b.last > maxAge ==> Full(b, now)
  {
    var age := Max(0, maxAge + 1);
    EarnedSplits(b.rate, age, now - b.last - age);
    EarnedSplits(b.rate, now - b.last - age, 0);
  }

  lemma {:induction false} RunsAgree(p: Params, t: Table, m: map<Key, Bucket>, time: int, ops: seq<Op>)
    requires Simulates(p, t, m, time) && Admissible(p, time, ops)
    ensures RunTable(p, t, ops) == RunPlain(p, m, ops)
    decreases |ops|
  {
    if ops != [] {
      match ops[0]
      case Check(key, cost, now, _) =>
        CheckSimulates(p, t, m, time, key, cost, now);
        var b := PlainBucket(p, m, key, now);
        RunsAgree(p, CheckTable(p, t, key, cost, now, true).0, m[key := AfterCheck(b, now, cost)], now, ops[1..]);
      case Cleanup(maxAge, now) =>
        CleanupSimulates(p, t, m, time, maxAge, now);
        RunsAgree(p, CleanupTable(p, t, maxAge, now), m, now, ops[1..]);
    }
  }

  /**
   Eviction is unobservable: every run of checks and cleanups on a new table gives the answers of the
   same run on a plain map from key to bucket that never forgets.
   */
  lemma EvictionUnobservable(p: Params, start: int, ops: seq<Op>)
    requires 0.0 <= p.max && 0.0 <= p.rate && Admissible(p, start, ops)
    ensures RunTable(p, NewTable(start), ops) == RunPlain(p, map[], ops)
  {
    var t := NewTable(start);
    forall k: Key ensures Agrees(p, t, map[], start, k) {
      assert t.chains[Hash(k)] == [];
    }
    RunsAgree(p, t, map[], start, ops);
  }

  /** Runs with short keys, memory, a clock that does not go back and one eviction age. */
  ghost predicate Regular(t: int, maxAge: int, ops: seq<Op>)
    decreases |ops|
  {
    ops == [] ||
    (&& t <= ops[0].now
     && (ops[0].Check? ==> |ops[0].key| <= 127 && ops[0].alloc)
     && (ops[0].Cleanup? ==> ops[0].maxAge == maxAge)
     && Regular(ops[0].now, maxAge, ops[1..]))
  }

  /** No run with this eviction age shows whether entries are evicted. */
  ghost predicate Unobservable(p: Params, maxAge: int) {
    forall start, ops {:trigger Regular(start, maxAge, ops)} ::
      Regular(start, maxAge, ops) ==> RunTable(p, NewTable(start), ops) == RunPlain(p, map[], ops)
  }

  lemma {:induction false} RegularAdmissible(p: Params, t: int, maxAge: int, ops: seq<Op>)
    requires Regular(t, maxAge, ops) && RefillsFirst(p, maxAge)
    ensures Admissible(p, t, ops)
    decreases |ops|
  {
    if ops != [] { RegularAdmissible(p, ops[0].now, maxAge, ops[1..]); }
  }

  /** Empty a bucket, evict it as soon as possible, and ask for a full bucket again. */
  function Probe(p: Params, start: int, maxAge: int): seq<Op> {
    var first := start + Max(0, p.interval);
    var again := first + Max(0, maxAge + 1);
    [Check([], p.max, first, true), Cleanup(maxAge, again), Check([], p.max, again, true)]
  }

  lemma ProbeRegular(p: Params, start: int, maxAge: int)
    ensures Regular(start, maxAge, Probe(p, start, maxAge))
  {
    var ops := Probe(p, start, maxAge);
    assert ops[1..][1..] == [ops[2]] && ops[1..][0] == ops[1];
    assert Regular(ops[1].now, maxAge, [ops[2]]);
    assert Regular(ops[0].now, maxAge, ops[1..]);
  }

  lemma RunThree(p: Params, t: Table, a: Op, b: Op, c: Op)
    requires WellFormed(t) && a.Check? && b.Cleanup? && c.Check? && a.alloc && c.alloc
    ensures var (t1, r1) := CheckTable(p, t, a.key, a.cost, a.now, true);
      var t2 := CleanupTable(p, t1, b.maxAge, b.now);
      WellFormed(t2) && RunTable(p, t, [a, b, c]) == [r1, CheckTable(p, t2, c.key, c.cost, c.now, true).1]
    ensures var b1 := PlainBucket(p, map[], a.key, a.now);
      var m1 := map[a.key := AfterCheck(b1, a.now, a.cost)];
      RunPlain(p, map[], [a, b, c]) ==
      [Allows(b1, a.now, a.cost), Allows(PlainBucket(p, m1, c.key, c.now), c.now, c.cost)]
  {
    assert [a, b, c][1..] == [b, c] && [b, c][1..] == [c] && [c][1..] == [];
    var t1 := CheckTable(p, t, a.key, a.cost, a.now, true).0;
    var t2 := CleanupTable(p, t1, b.maxAge, b.now);
    assert RunTable(p, t2, [c]) == [CheckTable(p, t2, c.key, c.cost, c.now, true).1];
    assert RunTable(p, t1, [b, c]) == RunTable(p, t2, [c]);
    var m1 := map[][a.key := AfterCheck(PlainBucket(p, map[], a.key, a.now), a.now, a.cost)];
    assert RunPlain(p, m1, [c]) == [Allows(PlainBucket(p, m1, c.key, c.now), c.now, c.cost)];
    assert RunPlain(p, m1, [b, c]) == RunPlain(p, m1, [c]);
  }

  /** A check on an empty chain starts from a full bucket. */
  lemma FreshAllows(p: Params, t: Table, key: Key, cost: real, now: int)
    requires WellFormed(t) && t.chains[Hash(key)] == []
    ensures CheckTable(p, t, key, cost, now, true).1 == (p.max >= cost)
    ensures CheckTable(p, t, key, cost, now, true).0.chains[Hash(key)] ==
      [Touched(NewEntry(p, key, now), now, cost)]
  {
    EarnedSplits(p.rate, 0, 0);
  }

  lemma ProbeTells(p: Params, start: int, maxAge: int)
    requires 0.0 <= p.rate && Earned(p.rate, Max(0, maxAge + 1)) < p.max
    ensures RunTable(p, NewTable(start), Probe(p, start, maxAge)) != RunPlain(p, map[], Probe(p, start, maxAge))
  {
    var ops, t := Probe(p, start, maxAge), NewTable(start);
    RunThree(p, t, ops[0], ops[1], ops[2]);
    FreshAllows(p, t, [], p.max, ops[0].now);
    var t1 := CheckTable(p, t, [], p.max, ops[0].now, true).0;
    var t2 := CleanupTable(p, t1, maxAge, ops[1].now);
    var e := Touched(NewEntry(p, [], ops[0].now), ops[0].now, p.max);
    assert [e][1..] == [] && Kept([e], ops[1].now, maxAge) == [];
    assert t2.chains[Hash([])] == Kept(t1.chains[Hash([])], ops[1].now, maxAge);
    FreshAllows(p, t2, [], p.max, ops[2].now);
    EarnedSplits(p.rate, 0, 0);
  }

  /** Eviction at an age is unobservable if and only if a bucket refills from empty before it can be evicted. */
  lemma UnobservableIff(p: Params, maxAge: int)
    requires 0.0 <= p.max && 0.0 <= p.rate
    ensures Unobservable(p, maxAge) <==> RefillsFirst(p, maxAge)
  {
    if RefillsFirst(p, maxAge) {
      forall start, ops | Regular(start, maxAge, ops)
        ensures RunTable(p, NewTable(start), ops) == RunPlain(p, map[], ops)
      {
        RegularAdmissible(p, start, maxAge, ops);
        EvictionUnobservable(p, start, ops);
      }
    } else {
      ProbeRegular(p, 0, maxAge);
      ProbeTells(p, 0, maxAge);
    }
  }

  // ----- keys that do not fit

  /** Every stored key has at most 127 characters. */
  ghost predicate StoredShort(t: Table) {
    WellFormed(t) && forall i, e {:trigger e in t.chains[i]} :: 0 <= i < 4096 && e in t.chains[i] ==> |e.key| <= 127
  }

  function TableAfter(p: Params, t: Table, ops: seq<Op>): (u: Table)
    requires WellFormed(t)
    ensures WellFormed(u)
    decreases |ops|
  {
    if ops == [] then t
    else match ops[0]
      case Check(key, cost, now, alloc) => TableAfter(p, CheckTable(p, t, key, cost, now, alloc).0, ops[1..])
      case Cleanup(maxAge, now) => TableAfter(p, CleanupTable(p, t, maxAge, now), ops[1..])
  }

  lemma CheckStoresShort(p: Params, t: Table, key: Key, cost: real, now: int, alloc: bool)
    requires StoredShort(t)
    ensures StoredShort(CheckTable(p, t, key, cost, now, alloc).0)
  {
    var u := CheckTable(p, t, key, cost, now, alloc).0;
    var h := Hash(key);
    var chain := t.chains[h];
    forall i, e {:trigger e in u.chains[i]} | 0 <= i < 4096 && e in u.chains[i] ensures |e.key| <= 127 {
      if i == h {
        var j :| 0 <= j < |u.chains[h]| && u.chains[h][j] == e;
        var k := IndexOf(chain, key);
        if k < |chain| {
          assert chain[j] in t.chains[h];
        } else if alloc && j > 0 {
          assert chain[j - 1] in t.chains[h];
        }
      } else {
        assert e in t.chains[i];
      }
    }
  }

  lemma CleanupStoresShort(p: Params, t: Table, maxAge: int, now: int)
    requires StoredShort(t)
    ensures StoredShort(CleanupTable(p, t, maxAge, now))
  {
    var u := CleanupTable(p, t, maxAge, now);
    forall i, e {:trigger e in u.chains[i]} | 0 <= i < 4096 && e in u.chains[i] ensures |e.key| <= 127 {
      KeptSubset(t.chains[i], now, maxAge);
      assert e in t.chains[i];
    }
  }

  lemma {:induction false} RunStoresShort(p: Params, t: Table, ops: seq<Op>)
    requires StoredShort(t)
    ensures StoredShort(TableAfter(p, t, ops))
    decreases |ops|
  {
    if ops != [] {
      match ops[0]
      case Check(key, cost, now, alloc) =>
        CheckStoresShort(p, t, key, cost, now, alloc);
        RunStoresShort(p, CheckTable(p, t, key, cost, now, alloc).0, ops[1..]);
      case Cleanup(maxAge, now) =>
        CleanupStoresShort(p, t, maxAge, now);
        RunStoresShort(p, CleanupTable(p, t, maxAge, now), ops[1..]);
    }
  }

  /** After any run, a key is found again after its own check exactly when it fits in the entry. */
  lemma FoundAgainIffShort(p: Params, start: int, ops: seq<Op>, key: Key, cost: real, now: int)
    ensures var t := TableAfter(p, NewTable(start), ops);
      Lookup(CheckTable(p, t, key, cost, now, true).0, key).Some? <==> |key| <= 127
  {
    var t := TableAfter(p, NewTable(start), ops);
    RunStoresShort(p, NewTable(start), ops);
    CheckStoresShort(p, t, key, cost, now, true);
    var u := CheckTable(p, t, key, cost, now, true).0;
    var h := Hash(key);
    if |key| <= 127 {
      var i := IndexOf(t.chains[h], key);
      assert u.chains[h][if i < |t.chains[h]| then i else 0].key == key;
    } else {
      forall i | 0 <= i < |u.chains[h]| ensures u.chains[h][i].key != key {
        assert u.chains[h][i] in u.chains[h];
      }
    }
  }

  /** A key of more than 127 characters is never limited: in any run, every check of it meets a full bucket. */
  lemma LongKeyNeverLimited(p: Params, start: int, ops: seq<Op>, key: Key, cost: real, now: int, alloc: bool)
    requires |key| > 127
    ensures CheckTable(p, TableAfter(p, NewTable(start), ops), key, cost, now, alloc).1 == (alloc && p.max >= cost)
  {
    var t := TableAfter(p, NewTable(start), ops);
    RunStoresShort(p, NewTable(start), ops);
    forall i | 0 <= i < |t.chains[Hash(key)]| ensures t.chains[Hash(key)][i].key != key {
      assert t.chains[Hash(key)][i] in t.chains[Hash(key)];
    }
    EarnedSplits(p.rate, 0, 0);
  }
}
