/**
 What the congestion controller computes, in terms of events and samples alone: how far the window grows,
 what a loss takes away, what the RTT filter makes of a sample, and what the counters count.
 */
module CubicLaws {
  import opened Words
  import opened CubeRoot
  import opened Cubic
  import opened Residues

  // ----- the window over runs

  /** The bytes acknowledged by a sequence of events. */
  function Acknowledged(es: seq<Event>): nat {
    if es == [] then 0
    else
      var e := es[|es| - 1];
      Acknowledged(es[..|es| - 1]) + if e.Ack? then e.bytes else 0
  }

  lemma AckAdds(c: State, e: Event, d: State, lossSeen: bool)
    requires Step(c, e, d) && Fits(c, e) && Cubic.Invariant(c, lossSeen) && e.Ack?
    ensures d.cwnd == c.cwnd + e.bytes
  {
    if e.bytes != 0 {
      var a := Counted(c, e.bytes);
      CountingLeavesGrowth(c, e.bytes);
      RttLeavesWindow(a, e.rtt, e.bytes);
      AckGrowth(c, AfterRtt(a, e.rtt), e.bytes);
    }
  }

  lemma CountingLeavesGrowth(c: State, bytes: U32)
    requires c.phase.CongestionAvoidance? ==> 0 < c.cwnd && CurveDefined(c.k, Wrap32(c.t + 1))
    ensures Growth(Counted(c, bytes), bytes) == Growth(c, bytes)
  {
  }

  /** Where the threshold is infinite or a loss has been seen, the window grows by what is acknowledged. */
  lemma AckGrowth(c: State, d: State, bytes: U32)
    requires (c.phase.CongestionAvoidance? ==> c.cwnd == INFINITE) && 0 < bytes
    requires c.phase.CongestionAvoidance? ==> 0 < c.cwnd && CurveDefined(c.k, Wrap32(c.t + 1))
    requires (d.phase, d.cwnd, d.ssthresh, d.k, d.t) == (c.phase, c.cwnd, c.ssthresh, c.k, c.t)
    requires Growth(d, bytes) == Growth(c, bytes) && c.cwnd + Growth(c, bytes) < 0x1_0000_0000
    ensures forall k :: Grown(d, bytes, k).cwnd == c.cwnd + bytes
  {
    var grown := c.cwnd + Growth(c, bytes);
    assert Wrap32(grown) == grown;
  }

  lemma OneMoreEvent(es: seq<Event>, j: nat, i: nat)
    requires j < i <= |es| && Loss !in es[j..i]
    ensures es[i - 1].Ack? && Loss !in es[j..i - 1]
    ensures Acknowledged(es[j..i]) == Acknowledged(es[j..i - 1]) + es[i - 1].bytes
  {
    var part := es[j..i];
    assert part[..|part| - 1] == es[j..i - 1] && part[|part| - 1] == es[i - 1];
    assert part == es[j..i - 1] + [es[i - 1]];
  }

  ghost predicate Adds(c: State, e: Event, d: State) {
    e.Ack? ==> d.cwnd == c.cwnd + e.bytes
  }

  lemma RunAdds(cs: seq<State>, es: seq<Event>, i: nat)
    requires IsRun(cs, es) && NeverOverflows(cs, es) && i < |es|
    ensures Adds(cs[i], es[i], cs[i + 1])
  {
    RunKeepsInvariant(cs, es, i);
    assert Step(cs[i], es[i], cs[i + 1]) && Fits(cs[i], es[i]);
    if es[i].Ack? { AckAdds(cs[i], es[i], cs[i + 1], Loss in es[..i]); }
  }

  lemma {:induction false} AddedUp(cs: seq<State>, es: seq<Event>, j: nat, i: nat)
    requires |cs| == |es| + 1 && j <= i <= |es| && Loss !in es[j..i]
    requires forall m :: 0 <= m < |es| ==> Adds(cs[m], es[m], cs[m + 1])
    ensures cs[i].cwnd == cs[j].cwnd + Acknowledged(es[j..i])
    decreases i
  {
    if j < i {
      OneMoreEvent(es, j, i);
      AddedUp(cs, es, j, i - 1);
      assert Adds(cs[i - 1], es[i - 1], cs[i - 1 + 1]);
    }
  }

  lemma WindowGrowsFrom(cs: seq<State>, es: seq<Event>, j: nat, i: nat)
    requires IsRun(cs, es) && NeverOverflows(cs, es) && j <= i <= |es| && Loss !in es[j..i]
    ensures cs[i].cwnd == cs[j].cwnd + Acknowledged(es[j..i])
  {
    forall m | 0 <= m < |es| ensures Adds(cs[m], es[m], cs[m + 1]) { RunAdds(cs, es, m); }
    AddedUp(cs, es, j, i);
  }

  /** Until the first loss the window is ten segments of 1460 bytes and everything acknowledged since. */
  lemma WindowBeforeLoss(cs: seq<State>, es: seq<Event>, i: nat)
    requires IsRun(cs, es) && NeverOverflows(cs, es) && i <= |es| && Loss !in es[..i]
    ensures cs[i].cwnd == 14600 + Acknowledged(es[..i])
  {
    assert es[0..i] == es[..i];
    WindowGrowsFrom(cs, es, 0, i);
  }

  /** What a loss does: beta times the window, not below 1460, which is also the new threshold. */
  lemma LossReduces(c: State, d: State)
    requires Step(c, Loss, d)
    ensures d.cwnd == d.ssthresh && d.cwndPrior == c.cwnd && d.t == 0 && d.phase.FastRecovery?
    ensures if 717 * c.cwnd < 1024 * 1460 then d.cwnd == 1460 else 1024 * d.cwnd <= 717 * c.cwnd < 1024 * d.cwnd + 1024
    ensures if 0 < c.wMax && c.cwnd < c.wMax then 2048 * d.wMax <= 1843 * c.cwnd < 2048 * d.wMax + 2048
            else d.wMax == c.cwnd
    ensures (d.srtt, d.rttVar, d.minRtt, d.rto, d.mss) == (c.srtt, c.rttVar, c.minRtt, c.rto, c.mss)
  {
  }

  /** After a loss the window is what the loss left and everything acknowledged since. */
  lemma WindowAfterLoss(cs: seq<State>, es: seq<Event>, j: nat, i: nat)
    requires IsRun(cs, es) && NeverOverflows(cs, es) && j < i <= |es| && es[j].Loss? && Loss !in es[j + 1..i]
    ensures cs[i].cwnd == cs[j + 1].cwnd + Acknowledged(es[j + 1..i])
  {
    WindowGrowsFrom(cs, es, j + 1, i);
  }

  // ----- the counters over runs

  function Losses(es: seq<Event>): nat {
    if es == [] then 0 else Losses(es[..|es| - 1]) + if es[|es| - 1].Loss? then 1 else 0
  }

  function Acks(es: seq<Event>): nat {
    if es == [] then 0
    else
      var e := es[|es| - 1];
      Acks(es[..|es| - 1]) + if e.Ack? && e.bytes > 0 then 1 else 0
  }

  /** The statistics are the bytes acknowledged, the acknowledgements of any, and the losses. */
  lemma CountersCount(cs: seq<State>, es: seq<Event>, i: nat)
    requires IsRun(cs, es) && i <= |es|
    ensures cs[i].totalAcked == Wrap64(Acknowledged(es[..i]))
    ensures cs[i].ackCount == Wrap32(Acks(es[..i])) && cs[i].recoveryEpisodes == Wrap32(Losses(es[..i]))
  {
    forall m | 0 <= m < |es| ensures Counts(cs[m], es[m], cs[m + 1]) {
      assert Step(cs[m], es[m], cs[m + 1]);
      StepCounts(cs[m], es[m], cs[m + 1]);
    }
    CountedUp(cs, es, i);
  }

  lemma {:induction false} CountedUp(cs: seq<State>, es: seq<Event>, i: nat)
    requires |cs| == |es| + 1 && i <= |es| && forall m :: 0 <= m < |es| ==> Counts(cs[m], es[m], cs[m + 1])
    requires cs[0].totalAcked == 0 && cs[0].ackCount == 0 && cs[0].recoveryEpisodes == 0
    ensures cs[i].totalAcked == Wrap64(Acknowledged(es[..i]))
    ensures cs[i].ackCount == Wrap32(Acks(es[..i])) && cs[i].recoveryEpisodes == Wrap32(Losses(es[..i]))
  {
    if i > 0 {
      CountedUp(cs, es, i - 1);
      assert Counts(cs[i - 1], es[i - 1], cs[i - 1 + 1]);
      OneMoreCounted(es, i);
      CountedOnce(cs[i - 1], es[i - 1], cs[i], Acknowledged(es[..i - 1]), Acks(es[..i - 1]), Losses(es[..i - 1]));
    }
  }

  lemma CountedOnce(c: State, e: Event, d: State, bytes: nat, acks: nat, losses: nat)
    requires Counts(c, e, d) && c.totalAcked == Wrap64(bytes)
    requires c.ackCount == Wrap32(acks) && c.recoveryEpisodes == Wrap32(losses)
    ensures d.totalAcked == Wrap64(bytes + if e.Ack? then e.bytes else 0)
    ensures d.ackCount == Wrap32(acks + if e.Ack? && e.bytes > 0 then 1 else 0)
    ensures d.recoveryEpisodes == Wrap32(losses + if e.Loss? then 1 else 0)
  {
    WrapAdd(bytes, if e.Ack? then e.bytes else 0, 0x1_0000_0000_0000_0000);
    WrapAdd(acks, if e.Ack? && e.bytes > 0 then 1 else 0, 0x1_0000_0000);
    WrapAdd(losses, if e.Loss? then 1 else 0, 0x1_0000_0000);
  }

  lemma OneMoreCounted(es: seq<Event>, i: nat)
    requires 0 < i <= |es|
    ensures var e := es[i - 1];
      && Acknowledged(es[..i]) == Acknowledged(es[..i - 1]) + (if e.Ack? then e.bytes else 0)
      && Acks(es[..i]) == Acks(es[..i - 1]) + (if e.Ack? && e.bytes > 0 then 1 else 0)
      && Losses(es[..i]) == Losses(es[..i - 1]) + (if e.Loss? then 1 else 0)
  {
    var part := es[..i];
    assert part[..i - 1] == es[..i - 1] && part[i - 1] == es[i - 1];
  }

  ghost predicate Counts(c: State, e: Event, d: State) {
    && d.totalAcked == Wrap64(c.totalAcked + if e.Ack? then e.bytes else 0)
    && d.ackCount == Wrap32(c.ackCount + if e.Ack? && e.bytes > 0 then 1 else 0)
    && d.recoveryEpisodes == Wrap32(c.recoveryEpisodes + if e.Loss? then 1 else 0)
  }

  lemma StepCounts(c: State, e: Event, d: State)
    requires Step(c, e, d)
    ensures Counts(c, e, d)
  {
    NothingCounted(c);
    if e.Ack? && e.bytes != 0 {
      var a := Counted(c, e.bytes);
      StagesLeaveCounters(a, e.bytes, e.rtt, d);
      CountedCounts(c, e, a, d);
    }
  }

  lemma StagesLeaveCounters(a: State, bytes: U32, rtt: U32, d: State)
    requires RttDefined(a, rtt)
    requires a.phase.CongestionAvoidance? ==> 0 < a.cwnd && CurveDefined(a.k, Wrap32(a.t + 1))
    requires d == Paced(Grown(AfterRtt(a, rtt), bytes, d.k))
    ensures SameCounters(a, d)
  {
    RttLeavesCounters(a, rtt);
    GrowthLeavesCounters(AfterRtt(a, rtt), bytes, d.k);
  }

  ghost predicate SameCounters(c: State, d: State) {
    (d.totalAcked, d.ackCount, d.recoveryEpisodes) == (c.totalAcked, c.ackCount, c.recoveryEpisodes)
  }

  lemma CountedCounts(c: State, e: Event, a: State, d: State)
    requires e.Ack? && e.bytes != 0 && a == Counted(c, e.bytes) && SameCounters(a, d)
    ensures Counts(c, e, d)
  {
    NothingCounted(c);
  }

  lemma NothingCounted(c: State)
    ensures Wrap64(c.totalAcked + 0) == c.totalAcked && Wrap32(c.ackCount + 0) == c.ackCount
    ensures Wrap32(c.recoveryEpisodes + 0) == c.recoveryEpisodes
  {
  }

  lemma RttLeavesCounters(c: State, rtt: U32)
    requires RttDefined(c, rtt)
    ensures var d := AfterRtt(c, rtt);
      (d.totalAcked, d.ackCount, d.recoveryEpisodes) == (c.totalAcked, c.ackCount, c.recoveryEpisodes)
  {
  }

  lemma GrowthLeavesCounters(c: State, bytes: U32, k: U32)
    requires c.phase.CongestionAvoidance? ==> 0 < c.cwnd && CurveDefined(c.k, Wrap32(c.t + 1))
    ensures var d := Grown(c, bytes, k);
      (d.totalAcked, d.ackCount, d.recoveryEpisodes, d.srtt) == (c.totalAcked, c.ackCount, c.recoveryEpisodes, c.srtt)
  {
  }

  /** The pacing rate is the window per smoothed RTT, in bytes per second. */
  lemma PacingFollows(c: State, bytes: U32, rtt: U32, d: State)
    requires Step(c, Ack(bytes, rtt), d) && 0 < bytes && 0 < d.srtt && d.cwnd * 1000 / d.srtt < 0x1_0000_0000
    ensures d.srtt * d.pacingRate <= d.cwnd * 1000 < d.srtt * d.pacingRate + d.srtt
  {
    PacedExactly(Grown(AfterRtt(Counted(c, bytes), rtt), bytes, d.k), d);
  }

  lemma PacedExactly(g: State, d: State)
    requires d == Paced(g) && 0 < d.srtt && d.cwnd * 1000 / d.srtt < 0x1_0000_0000
    ensures d.srtt * d.pacingRate <= d.cwnd * 1000 < d.srtt * d.pacingRate + d.srtt
  {
    DivisionBounds(d.cwnd * 1000, d.srtt);
  }

  lemma DivisionBounds(x: nat, m: nat)
    requires 0 < m
    ensures m * (x / m) <= x < m * (x / m) + m
  {
  }

  /** Slow start ends exactly at the threshold; the curve then starts at the window reached. */
  lemma SlowStartEnds(c: State, bytes: U32, rtt: U32, d: State)
    requires Step(c, Ack(bytes, rtt), d) && 0 < bytes && c.phase.SlowStart? && c.cwnd + bytes < 0x1_0000_0000
    ensures d.cwnd == c.cwnd + bytes && d.ssthresh == c.ssthresh
    ensures if d.cwnd >= c.ssthresh then d.phase.CongestionAvoidance? && d.wMax == d.cwndPrior == d.cwnd && d.t == 0
            else d.phase.SlowStart? && (d.wMax, d.cwndPrior, d.t) == (c.wMax, c.cwndPrior, c.t)
  {
    var a := Counted(c, bytes);
    RttLeavesWindow(a, rtt, bytes);
    RttLeavesCurve(a, rtt);
    SlowGrowth(AfterRtt(a, rtt), bytes, d.k);
  }

  lemma RttLeavesCurve(c: State, rtt: U32)
    requires RttDefined(c, rtt)
    ensures var d := AfterRtt(c, rtt); (d.wMax, d.cwndPrior) == (c.wMax, c.cwndPrior)
  {
  }

  lemma SlowGrowth(c: State, bytes: U32, k: U32)
    requires c.phase.SlowStart? && c.cwnd + bytes < 0x1_0000_0000
    ensures var d := Grown(c, bytes, k);
      && d.cwnd == c.cwnd + bytes && d.ssthresh == c.ssthresh
      && if d.cwnd >= c.ssthresh then d.phase.CongestionAvoidance? && d.wMax == d.cwndPrior == d.cwnd && d.t == 0
         else d.phase.SlowStart? && (d.wMax, d.cwndPrior, d.t) == (c.wMax, c.cwndPrior, c.t)
  {
  }

  // ----- one RTT sample

  /** The timeout of section 2 of RFC 6298, except that a value below 1460 becomes 200. */
  function Timeout(srtt: nat, rttVar: nat): nat {
    var sum := srtt + 4 * rttVar;
    if sum < 1460 then 200 else Min(60000, sum)
  }

  /**
   Section 2 of RFC 6298: the first sample sets SRTT to it and RTTVAR to half of it; a later one moves
   SRTT by an eighth and RTTVAR by a quarter, the latter with the old SRTT, rounded down.
   */
  lemma SampleFilter(c: State, r: U32)
    requires c.srtt < 0x2000_0000 && c.rttVar < 0x2000_0000 && 1 <= r < 0x2000_0000
    ensures RttDefined(c, r)
    ensures var d := AfterRtt(c, r);
      && (c.srtt == 0 ==> d.srtt == r && 2 * d.rttVar <= r <= 2 * d.rttVar + 1)
      && (c.srtt > 0 ==> 8 * d.srtt <= 7 * c.srtt + r < 8 * d.srtt + 8)
      && (c.srtt > 0 ==> 4 * d.rttVar <= 3 * c.rttVar + Abs(c.srtt - r) < 4 * d.rttVar + 4)
      && d.rto == Timeout(d.srtt, d.rttVar)
      && d.minRtt == Min(c.minRtt, r)
      && d == c.(srtt := d.srtt, rttVar := d.rttVar, rto := d.rto, minRtt := d.minRtt)
  {
    SampleInRange(c, r);
    FilterFits(c.srtt, c.rttVar, r);
    var d := AfterRtt(c, r);
    SumFits(d.srtt, d.rttVar);
  }

  lemma FilterFits(srtt: U32, rttVar: U32, r: U32)
    requires srtt < 0x2000_0000 && rttVar < 0x2000_0000 && r < 0x2000_0000
    ensures Wrap32(7 * srtt + r) == 7 * srtt + r && AsInt32(srtt) - AsInt32(r) == srtt - r
    ensures Wrap32(3 * rttVar + Abs(srtt - r)) == 3 * rttVar + Abs(srtt - r)
  {
  }

  lemma SumFits(srtt: U32, rttVar: U32)
    requires srtt < 0x2000_0000 && rttVar < 0x2000_0000
    ensures ClampRto(Wrap32(srtt + 4 * rttVar)) == Timeout(srtt, rttVar)
  {
    assert srtt + 4 * rttVar < 0x1_0000_0000;
  }

  lemma SampleMinimum(c: State, r: U32)
    requires c.srtt < 0x2000_0000 && c.rttVar < 0x2000_0000 && 1 <= r < 0x2000_0000
    ensures RttDefined(c, r) && AfterRtt(c, r).minRtt == Min(c.minRtt, r)
  {
    SampleInRange(c, r);
  }

  /** Over a run of samples the least RTT is the least sample. */
  lemma {:induction false} MinimumOfSamples(c: State, samples: seq<U32>)
    requires c.srtt < 0x2000_0000 && c.rttVar < 0x2000_0000 && c.minRtt == INFINITE && samples != []
    requires forall j :: 0 <= j < |samples| ==> 1 <= samples[j] < 0x2000_0000
    ensures AfterSamples(c, samples).minRtt in samples
    ensures forall j :: 0 <= j < |samples| ==> AfterSamples(c, samples).minRtt <= samples[j]
  {
    var n := |samples| - 1;
    var b := AfterSamples(c, samples[..n]);
    if n > 0 { MinimumOfSamples(c, samples[..n]); }
    SampleMinimum(b, samples[n]);
    assert samples[n] in samples;
  }

  // ----- the curve and its targets

  /** With C = 4/1024, 64 units of time make one unit of the cube: W(K + 64 n) = W_max + n^3, and likewise before K. */
  lemma CurveCubic(wMax: U32, k: U32, n: nat)
    requires k + 64 * n < 0x1_0000_0000
    ensures Curve(wMax, k, k + 64 * n) == wMax + Cube(n)
    ensures 64 * n <= k ==> Curve(wMax, k, k - 64 * n) == wMax - Cube(n)
    ensures RootArgument(wMax) == 78592 * wMax
  {
    var before := 0 - n;
    Cube64(n);
    Cube64(before);
    CubeNegates(n);
    CubeIncreases(0, n);
  }

  lemma Cube64(n: int)
    ensures Cube(64 * n) == 0x4_0000 * Cube(n)
  {
    assert 64 * n * (64 * n) * (64 * n) == 262144 * (n * n * n);
  }

  predicate SegmentsNear(u: nat, wMax: nat, t: nat) {
    1782784 * u <= 717 * 1741 * wMax + 921 * t < 1782784 * u + 2 * 1782784
  }

  /**
   The Reno-friendly target is beta W_max + 3 (1 - beta) / (1 + beta) t segments, two roundings below at
   most, while the products fit in 32 bits.
   */
  lemma TcpTargetFormula(c: State)
    requires c.wMax * 717 < 0x1_0000_0000 && 921 * c.t < 0x1_0000_0000
    requires (c.wMax * 717 / 1024 + 921 * c.t / 1782784) * c.mss < 0x1_0000_0000
    ensures exists u: nat :: TcpTarget(c) == u * c.mss && SegmentsNear(u, c.wMax, c.t)
  {
    var u := c.wMax * 717 / 1024 + 921 * c.t / 1782784;
    SegmentsRounded(c.wMax, c.t);
    SegmentsFit(c.wMax, c.t, u);
    TargetSegments(c, u, u * c.mss);
  }

  lemma SegmentsRounded(wMax: nat, t: nat)
    ensures SegmentsNear(wMax * 717 / 1024 + 921 * t / 1782784, wMax, t)
  {
  }

  lemma TargetSegments(c: State, u: nat, product: nat)
    requires Wrap32(Wrap32(c.wMax * 717) / 1024 + Wrap32(3 * 307 * c.t) / (1741 * 1024)) == u
    requires product == u * c.mss && product < 0x1_0000_0000
    ensures TcpTarget(c) == product
  {
    assert Wrap32(product) == product;
  }

  lemma SegmentsFit(wMax: nat, t: nat, u: nat)
    requires wMax * 717 < 0x1_0000_0000 && 921 * t < 0x1_0000_0000
    requires u == wMax * 717 / 1024 + 921 * t / 1782784
    ensures Wrap32(Wrap32(wMax * 717) / 1024 + Wrap32(3 * 307 * t) / (1741 * 1024)) == u
  {
  }

  /**
   In congestion avoidance one acknowledgement advances the time by one and the window by its share of a
   segment, half of that above the larger target, and by one byte at least.
   */
  lemma AvoidanceStep(c: State, bytes: U32, k: U32, product: U32, share: U32, d: State)
    requires c.phase.CongestionAvoidance? && 0 < c.cwnd && c.t < 0xFFFF_FFFF && CurveDefined(c.k, c.t + 1)
    requires product == c.mss * bytes && share == product / c.cwnd && d == Grown(c, bytes, k)
    ensures d == c.(t := c.t + 1, cwnd := d.cwnd)
    ensures var below := c.cwnd < CubicEval(c.wMax, c.k, c.t + 1) || c.cwnd < TcpTarget(c.(t := c.t + 1));
      d.cwnd == Wrap32(c.cwnd + Max(1, if below then share else share / 2))
  {
    assert Wrap32(c.t + 1) == c.t + 1;
    var late := c.(t := c.t + 1);
    var target := Max(CubicEval(c.wMax, c.k, c.t + 1), TcpTarget(late));
    IncrementIs(late, target, bytes, product, share);
    AvoidanceGrowth(c, bytes, target);
    GrownBy(c, bytes, k);
  }

  lemma AvoidanceGrowth(c: State, bytes: U32, target: U32)
    requires c.phase.CongestionAvoidance? && 0 < c.cwnd && c.t < 0xFFFF_FFFF && CurveDefined(c.k, c.t + 1)
    requires Wrap32(c.t + 1) == c.t + 1
    requires target == Max(CubicEval(c.wMax, c.k, c.t + 1), TcpTarget(c.(t := c.t + 1)))
    ensures Growth(c, bytes) == Increment(c.(t := c.t + 1), target, bytes)
  {
  }

  lemma GrownBy(c: State, bytes: U32, k: U32)
    requires c.phase.CongestionAvoidance? && 0 < c.cwnd && CurveDefined(c.k, Wrap32(c.t + 1))
    ensures Grown(c, bytes, k) == c.(t := Wrap32(c.t + 1), cwnd := Wrap32(c.cwnd + Growth(c, bytes)))
  {
  }

  lemma IncrementIs(c: State, target: U32, bytes: U32, product: U32, share: U32)
    requires 0 < c.cwnd && product == c.mss * bytes && share == product / c.cwnd
    ensures Increment(c, target, bytes) == Max(1, if c.cwnd < target then share else share / 2)
  {
    assert Wrap32(c.mss * bytes) == product;
  }
}
