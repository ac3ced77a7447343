/** The token-bucket rate limiter, with `double` taken as an exact real. */
module TokenBucket {

  datatype Bucket = Bucket(tokens: real, max: real, rate: real, last: int)

  /** A bucket starts full. */
  function Fresh(max: real, rate: real, now: int): Bucket { Bucket(max, max, rate, now) }

  function MinReal(a: real, b: real): real { if a > b then b else a }

  /** Milliseconds to tokens. */
  function Earned(rate: real, ms: int): real { ms as real / 1000.0 * rate }

  function Refill(b: Bucket, now: int): Bucket {
    b.(tokens := MinReal(b.tokens + Earned(b.rate, now - b.last), b.max), last := now)
  }

  predicate Allows(b: Bucket, now: int, cost: real) { Refill(b, now).tokens >= cost }

  function AfterCheck(b: Bucket, now: int, cost: real): Bucket {
    var r := Refill(b, now);
    if r.tokens >= cost then r.(tokens := r.tokens - cost) else r
  }

  class Limiter {
    var tokens: real
    var max: real
    var rate: real
    var last: int
    var totalAllowed: int
    var totalDenied: int

    function Value(): Bucket
      reads this
    {
      Bucket(tokens, max, rate, last)
    }

    constructor (max: real, rate: real, now: int)
      ensures Value() == Fresh(max, rate, now) && totalAllowed == totalDenied == 0
    {
      this.tokens, this.max, this.rate, this.last := max, max, rate, now;
      totalAllowed, totalDenied := 0, 0;
    }

    method Check(now: int, cost: real) returns (allowed: bool)
      modifies this
      ensures Value() == AfterCheck(old(Value()), now, cost)
      ensures allowed <==> Allows(old(Value()), now, cost)
      ensures totalAllowed == old(totalAllowed) + (if allowed then 1 else 0)
      ensures totalDenied == old(totalDenied) + (if allowed then 0 else 1)
    {
      var elapsed := (now - last) as real / 1000.0;
      tokens := tokens + elapsed * rate;
      if tokens > max { tokens := max; }
      last := now;
      if tokens >= cost {
        tokens := tokens - cost;
        totalAllowed := totalAllowed + 1;
        allowed := true;
      } else {
        totalDenied := totalDenied + 1;
        allowed := false;
      }
    }
  }

  // ----- runs

  datatype Request = Request(now: int, cost: real)

  /** The bucket after a run of requests. */
  function After(b: Bucket, rs: seq<Request>): Bucket
    decreases |rs|
  {
    if rs == [] then b else After(AfterCheck(b, rs[0].now, rs[0].cost), rs[1..])
  }

  /** Total cost admitted over a run. */
  function Admitted(b: Bucket, rs: seq<Request>): real
    decreases |rs|
  {
    if rs == [] then 0.0
    else
      (if Allows(b, rs[0].now, rs[0].cost) then rs[0].cost else 0.0) +
      Admitted(AfterCheck(b, rs[0].now, rs[0].cost), rs[1..])
  }

  /** The clock does not go back, from `t` on. */
  ghost predicate Clocked(t: int, rs: seq<Request>)
    decreases |rs|
  {
    rs == [] || (t <= rs[0].now && Clocked(rs[0].now, rs[1..]))
  }

  function EndTime(t: int, rs: seq<Request>): int { if rs == [] then t else rs[|rs| - 1].now }

  ghost predicate Sound(b: Bucket) { 0.0 <= b.tokens && 0.0 <= b.max && 0.0 <= b.rate }

  lemma EarnedSplits(rate: real, a: int, b: int)
    ensures Earned(rate, a + b) == Earned(rate, a) + Earned(rate, b)
    ensures 0 <= a && 0.0 <= rate ==> 0.0 <= Earned(rate, a)
  {
    assert (a + b) as real == a as real + b as real;
  }

  lemma CheckKeepsSound(b: Bucket, now: int, cost: real)
    requires Sound(b) && b.last <= now
    ensures Sound(AfterCheck(b, now, cost))
    ensures b.tokens <= b.max && 0.0 <= cost ==> AfterCheck(b, now, cost).tokens <= b.max
  {
    EarnedSplits(b.rate, now - b.last, 0);
  }

  /** Conservation: what is admitted and what is left were there before or have been earned since. */
  lemma {:induction false} AdmittedBalance(b: Bucket, rs: seq<Request>)
    requires Sound(b) && Clocked(b.last, rs)
    ensures Sound(After(b, rs)) && b.last <= EndTime(b.last, rs)
    ensures Admitted(b, rs) + After(b, rs).tokens <= b.tokens + Earned(b.rate, EndTime(b.last, rs) - b.last)
    decreases |rs|
  {
    if rs != [] {
      var c := AfterCheck(b, rs[0].now, rs[0].cost);
      CheckKeepsSound(b, rs[0].now, rs[0].cost);
      AdmittedBalance(c, rs[1..]);
      assert EndTime(b.last, rs) == EndTime(c.last, rs[1..]);
      EarnedSplits(b.rate, rs[0].now - b.last, EndTime(b.last, rs) - rs[0].now);
    }
  }

  lemma RefillOnce(b: Bucket, now: int)
    requires Sound(b) && b.last <= now
    ensures Refill(Refill(b, now), now) == Refill(b, now) && Sound(Refill(b, now))
  {
    EarnedSplits(b.rate, now - b.last, 0);
    EarnedSplits(b.rate, 0, 0);
  }

  lemma {:induction false} ClockedTail(t: int, pre: seq<Request>, seg: seq<Request>)
    requires Clocked(t, pre + seg)
    ensures Clocked(t, pre) && Clocked(EndTime(t, pre), seg)
    decreases |pre|
  {
    if pre == [] {
      assert pre + seg == seg;
    } else {
      assert (pre + seg)[1..] == pre[1..] + seg;
      ClockedTail(pre[0].now, pre[1..], seg);
      assert EndTime(t, pre) == EndTime(pre[0].now, pre[1..]);
    }
  }

  lemma {:induction false} AfterLast(b: Bucket, rs: seq<Request>)
    ensures After(b, rs).last == EndTime(b.last, rs)
    ensures After(b, rs).max == b.max && After(b, rs).rate == b.rate
    decreases |rs|
  {
    if rs != [] { AfterLast(AfterCheck(b, rs[0].now, rs[0].cost), rs[1..]); }
  }

  /**
   The rate bound: over every contiguous segment of every run the admitted cost is at most the
   bucket size plus what the refill rate yields between the first and the last request of the segment.
   */
  lemma SegmentBound(b: Bucket, pre: seq<Request>, seg: seq<Request>)
    requires Sound(b) && Clocked(b.last, pre + seg) && seg != []
    ensures Admitted(After(b, pre), seg) <= b.max + Earned(b.rate, seg[|seg| - 1].now - seg[0].now)
  {
    ClockedTail(b.last, pre, seg);
    AdmittedBalance(b, pre);
    AfterLast(b, pre);
    SegmentFrom(After(b, pre), seg);
  }

  lemma SegmentFrom(c: Bucket, seg: seq<Request>)
    requires Sound(c) && seg != [] && Clocked(c.last, seg)
    ensures Admitted(c, seg) <= c.max + Earned(c.rate, seg[|seg| - 1].now - seg[0].now)
  {
    RefilledFirst(c, seg);
    AdmittedBalance(Refill(c, seg[0].now), seg);
  }

  /** Refilling at the time of the first request beforehand changes no answer. */
  lemma RefilledFirst(c: Bucket, seg: seq<Request>)
    requires Sound(c) && seg != [] && Clocked(c.last, seg)
    ensures var full := Refill(c, seg[0].now);
      Sound(full) && full.tokens <= c.max && Clocked(full.last, seg) && Admitted(full, seg) == Admitted(c, seg)
  {
    SameAnswer(c, seg[0].now, seg[0].cost);
  }

  lemma SameAnswer(c: Bucket, now: int, cost: real)
    requires Sound(c) && c.last <= now
    ensures var full := Refill(c, now);
      && Sound(full) && full.tokens <= c.max && full.last == now
      && AfterCheck(full, now, cost) == AfterCheck(c, now, cost) && (Allows(full, now, cost) <==> Allows(c, now, cost))
  {
    RefillOnce(c, now);
  }

  /** With costs that are not negative the level stays within the bucket. */
  lemma {:induction false} LevelBounded(b: Bucket, rs: seq<Request>)
    requires Sound(b) && b.tokens <= b.max && Clocked(b.last, rs)
    requires forall i :: 0 <= i < |rs| ==> 0.0 <= rs[i].cost
    ensures 0.0 <= After(b, rs).tokens <= b.max
    decreases |rs|
  {
    if rs != [] {
      CheckKeepsSound(b, rs[0].now, rs[0].cost);
      LevelBounded(AfterCheck(b, rs[0].now, rs[0].cost), rs[1..]);
    }
  }

  // ----- what a check computes, over the level, the clock and the rate

  /**
   A request is admitted exactly when its cost is at most the bucket size and at most the level plus what
   the rate has earned since the last request.
   */
  lemma AllowsIff(b: Bucket, now: int, cost: real)
    ensures Allows(b, now, cost) <==>
      cost <= b.max && cost <= b.tokens + (now - b.last) as real / 1000.0 * b.rate
  {
  }

  /** An admitted cost is taken from the capped level; a refused one leaves it, and the clock moves on. */
  lemma CheckExact(b: Bucket, now: int, cost: real, level: real)
    requires level == b.tokens + (now - b.last) as real / 1000.0 * b.rate
    ensures var d := AfterCheck(b, now, cost);
      && (d.max, d.rate, d.last) == (b.max, b.rate, now)
      && (level <= b.max ==> d.tokens == if cost <= level then level - cost else level)
      && (b.max <= level ==> d.tokens == if cost <= b.max then b.max - cost else b.max)
  {
  }

  /** No request of the run finds the bucket overflowing. */
  ghost predicate NeverCapped(b: Bucket, rs: seq<Request>)
    decreases |rs|
  {
    rs == [] || (
      && b.tokens + (rs[0].now - b.last) as real / 1000.0 * b.rate <= b.max
      && NeverCapped(AfterCheck(b, rs[0].now, rs[0].cost), rs[1..]))
  }

  /** Where nothing overflows nothing is lost: what is admitted and what is left is what there was and was earned. */
  lemma {:induction false} AdmittedExactly(b: Bucket, rs: seq<Request>)
    requires NeverCapped(b, rs)
    ensures Admitted(b, rs) + After(b, rs).tokens == b.tokens + Earned(b.rate, EndTime(b.last, rs) - b.last)
    decreases |rs|
  {
    if rs == [] {
      EarnedSplits(b.rate, 0, 0);
    } else {
      var c := AfterCheck(b, rs[0].now, rs[0].cost);
      CheckConserves(b, rs[0].now, rs[0].cost);
      AdmittedExactly(c, rs[1..]);
      assert EndTime(b.last, rs) == EndTime(c.last, rs[1..]);
      EarnedSplits(b.rate, rs[0].now - b.last, EndTime(b.last, rs) - rs[0].now);
    }
  }

  lemma CheckConserves(b: Bucket, now: int, cost: real)
    requires b.tokens + (now - b.last) as real / 1000.0 * b.rate <= b.max
    ensures var d := AfterCheck(b, now, cost);
      && (d.rate, d.last) == (b.rate, now)
      && (if Allows(b, now, cost) then cost else 0.0) + d.tokens == b.tokens + Earned(b.rate, now - b.last)
  {
  }

  function TotalCost(rs: seq<Request>): real {
    if rs == [] then 0.0 else rs[0].cost + TotalCost(rs[1..])
  }

  /** Every request asks for no more than the bucket size and what was earned since the request before it. */
  ghost predicate Steady(max: real, rate: real, last: int, rs: seq<Request>)
    decreases |rs|
  {
    rs == [] || (
      && rs[0].cost <= max && rs[0].cost <= (rs[0].now - last) as real / 1000.0 * rate
      && Steady(max, rate, rs[0].now, rs[1..]))
  }

  lemma SteadyAllowed(b: Bucket, now: int, cost: real)
    requires 0.0 <= b.tokens && cost <= b.max && cost <= (now - b.last) as real / 1000.0 * b.rate
    ensures Allows(b, now, cost)
    ensures var d := AfterCheck(b, now, cost); (d.max, d.rate, d.last) == (b.max, b.rate, now)
  {
    AllowsIff(b, now, cost);
  }

  /** Steady traffic within the rate is never refused, whatever the level it starts from. */
  lemma {:induction false} SteadyAdmitted(b: Bucket, rs: seq<Request>)
    requires Sound(b) && Clocked(b.last, rs) && Steady(b.max, b.rate, b.last, rs)
    ensures Admitted(b, rs) == TotalCost(rs)
    decreases |rs|
  {
    if rs != [] {
      SteadyAllowed(b, rs[0].now, rs[0].cost);
      CheckKeepsSound(b, rs[0].now, rs[0].cost);
      SteadyAdmitted(AfterCheck(b, rs[0].now, rs[0].cost), rs[1..]);
    }
  }
}
