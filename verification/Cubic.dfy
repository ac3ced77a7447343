/**
 Fixed-point CUBIC congestion control (sections 4.1 and 4.3 to 4.6 of RFC 8312) with the
 integer RTT filter (section 2 of RFC 6298). Every field is an unsigned machine word and
 every sum wraps as it does in C, unless a precondition says that it stays in range.
 */
module Cubic {
  import opened Words
  import opened CubeRoot

  // Fixed-point constants are written as literals below: beta = 717/1024, C = 4/1024 and the
  // fast-convergence factor (1024 + 819)/2048. The window floor and the default segment are
  // 1460 bytes, the initial window ten segments.
  const MIN_CWND: U32 := 1460
  const INFINITE: U32 := 0xFFFF_FFFF

  datatype Phase = SlowStart | CongestionAvoidance | FastRecovery

  datatype State = State(
    phase: Phase, cwnd: U32, ssthresh: U32, cwndPrior: U32,
    wMax: U32, k: U32, t: U32,
    srtt: U32, rttVar: U32, minRtt: U32, rto: U32,
    pacingRate: U32, totalAcked: U64, recoveryEpisodes: U32, ackCount: U32, mss: U32)

  function Initial(mss: U32): State {
    State(SlowStart, 14600, INFINITE, 0, 0, 0, 0, 0, 0, INFINITE, 1000, 0, 0, 0, 0,
          if 0 < mss then mss else 1460)
  }

  // ----- the window curve

  /** W(t) = C(t - K)^3 + W_max, before the floor and the cast to 32 bits. */
  function Curve(wMax: U32, k: U32, t: U32): int {
    wMax + TruncDiv(Cube(t - k) * 4, 0x10_0000)
  }

  /** The signed 64-bit products of the evaluation stay in range; outside it C leaves the result undefined. */
  predicate CurveDefined(k: U32, t: U32) { -TWO63 <= Cube(t - k) * 4 < TWO63 }

  function CubicEval(wMax: U32, k: U32, t: U32): U32
    requires CurveDefined(k, t)
  {
    Wrap32(Max(Curve(wMax, k, t), MIN_CWND))
  }

  /** The argument of the cube root: W_max * (1 - beta) / C in fixed point. */
  function RootArgument(wMax: U32): U64 { wMax * 1024 * 307 / 4 }

  /** What `icbrt` promises about its result. */
  ghost predicate IsRoot(x: U64, k: U32) {
    && (x == 0 ==> k == 0)
    && (0 < x ==> 0 < k && Cube(k - 1) <= x < Cube(k + 1))
  }

  // ----- RTT filter

  function AsInt32(x: U32): int { if x < TWO31 then x else x - TWO32 }

  /** The signed difference of the filter does not overflow. */
  predicate RttDefined(c: State, rtt: U32) {
    c.srtt == 0 || Abs(AsInt32(c.srtt) - AsInt32(rtt)) < TWO31
  }

  function ClampRto(rto: U32): (r: U32)
    ensures 200 <= r <= 60000
  {
    var low := if rto < MIN_CWND then 200 else rto;
    if low > 60000 then 60000 else low
  }

  function AfterRtt(c: State, rtt: U32): State
    requires RttDefined(c, rtt)
  {
    if rtt == 0 then c
    else
      var (srtt, rttVar) :=
        if c.srtt == 0 then (rtt, rtt / 2)
        else (Wrap32(7 * c.srtt + rtt) / 8,
              Wrap32(3 * c.rttVar + Abs(AsInt32(c.srtt) - AsInt32(rtt))) / 4);
      c.(minRtt := Min(rtt, c.minRtt), srtt := srtt, rttVar := rttVar,
         rto := ClampRto(Wrap32(srtt + 4 * rttVar)))
  }

  // ----- ACK and loss

  /** The Reno-friendly target, with every product reduced to 32 bits. */
  function TcpTarget(c: State): U32 {
    Wrap32(Wrap32(Wrap32(c.wMax * 717) / 1024 + Wrap32(3 * 307 * c.t) / (1741 * 1024)) * c.mss)
  }

  function Increment(c: State, target: U32, bytes: U32): U32
    requires 0 < c.cwnd
  {
    var step := Wrap32(c.mss * bytes) / c.cwnd;
    var part := if c.cwnd < target then step else step / 2;
    if part == 0 then 1 else part
  }

  /** The acknowledgement is free of undefined behaviour. */
  predicate AckDefined(c: State, bytes: U32, rtt: U32) {
    bytes != 0 ==>
      && RttDefined(c, rtt)
      && (c.phase.CongestionAvoidance? ==> 0 < c.cwnd && CurveDefined(c.k, Wrap32(c.t + 1)))
  }

  /** By how much an acknowledgement grows the window, before the sum is reduced to 32 bits. */
  function Growth(c: State, bytes: U32): U32
    requires c.phase.CongestionAvoidance? ==> 0 < c.cwnd && CurveDefined(c.k, Wrap32(c.t + 1))
  {
    if c.phase.CongestionAvoidance? then
      var d := c.(t := Wrap32(c.t + 1));
      Increment(d, Max(CubicEval(d.wMax, d.k, d.t), TcpTarget(d)), bytes)
    else bytes
  }

  /** State after the window has grown; `k` is the cube root computed if slow start ends here. */
  function Grown(c: State, bytes: U32, k: U32): State
    requires c.phase.CongestionAvoidance? ==> 0 < c.cwnd && CurveDefined(c.k, Wrap32(c.t + 1))
  {
    var cwnd := Wrap32(c.cwnd + Growth(c, bytes));
    match c.phase
    case SlowStart =>
      if cwnd >= c.ssthresh then
        c.(phase := CongestionAvoidance, cwnd := cwnd, wMax := cwnd, cwndPrior := cwnd, t := 0, k := k)
      else c.(cwnd := cwnd)
    case CongestionAvoidance => c.(t := Wrap32(c.t + 1), cwnd := cwnd)
    case FastRecovery => c.(cwnd := cwnd)
  }

  function Counted(c: State, bytes: U32): State {
    c.(totalAcked := Wrap64(c.totalAcked + bytes), ackCount := Wrap32(c.ackCount + 1))
  }

  function Paced(c: State): State {
    if c.srtt == 0 then c else c.(pacingRate := Wrap32(c.cwnd * 1000 / c.srtt))
  }

  function AfterAck(c: State, bytes: U32, rtt: U32, k: U32): State
    requires AckDefined(c, bytes, rtt)
  {
    if bytes == 0 then c else Paced(Grown(AfterRtt(Counted(c, bytes), rtt), bytes, k))
  }

  /** Fast convergence: the plateau drops below the window when the window never regained it. */
  function LossPlateau(c: State): U32 {
    if 0 < c.wMax && c.cwnd < c.wMax then c.cwnd * 1843 / 2048 else c.cwnd
  }

  function AfterLoss(c: State, k: U32): State {
    var cwnd := Max(c.cwnd * 717 / 1024, MIN_CWND);
    c.(recoveryEpisodes := Wrap32(c.recoveryEpisodes + 1), wMax := LossPlateau(c),
       cwndPrior := c.cwnd, cwnd := cwnd, ssthresh := cwnd, t := 0, k := k, phase := FastRecovery)
  }

  datatype Event = Ack(bytes: U32, rtt: U32) | Loss

  ghost predicate Step(c: State, e: Event, d: State) {
    match e
    case Ack(bytes, rtt) =>
      && AckDefined(c, bytes, rtt)
      && d == AfterAck(c, bytes, rtt, d.k)
      && (c.phase.SlowStart? && d.phase.CongestionAvoidance? ==> IsRoot(RootArgument(d.wMax), d.k))
    case Loss => d == AfterLoss(c, d.k) && IsRoot(RootArgument(d.wMax), d.k)
  }

  // ----- the controller

  class Controller {
    var phase: Phase
    var cwnd: U32
    var ssthresh: U32
    var cwndPrior: U32
    var wMax: U32
    var k: U32
    var t: U32
    var srtt: U32
    var rttVar: U32
    var minRtt: U32
    var rto: U32
    var pacingRate: U32
    var totalAcked: U64
    var recoveryEpisodes: U32
    var ackCount: U32
    var mss: U32

    function Value(): State
      reads this
    {
      State(phase, cwnd, ssthresh, cwndPrior, wMax, k, t, srtt, rttVar, minRtt, rto,
            pacingRate, totalAcked, recoveryEpisodes, ackCount, mss)
    }

    constructor (segment: U32)
      ensures Value() == Initial(segment)
    {
      mss := if 0 < segment then segment else 1460;
      cwnd, ssthresh, cwndPrior := 14600, INFINITE, 0;
      wMax, k, t := 0, 0, 0;
      srtt, rttVar, minRtt, rto := 0, 0, INFINITE, 1000;
      pacingRate, totalAcked, recoveryEpisodes, ackCount := 0, 0, 0, 0;
      phase := SlowStart;
    }

    method UpdateRtt(rtt: U32)
      requires RttDefined(Value(), rtt)
      modifies this
      ensures Value() == AfterRtt(old(Value()), rtt)
    {
      if rtt == 0 { return; }
      if rtt < minRtt { minRtt := rtt; }
      if srtt == 0 {
        srtt := rtt;
        rttVar := rtt / 2;
      } else {
        var delta := AsInt32(srtt) - AsInt32(rtt);
        if delta < 0 { delta := -delta; }
        rttVar := Wrap32(3 * rttVar + delta) / 4;
        srtt := Wrap32(7 * srtt + rtt) / 8;
      }
      var r: U32 := Wrap32(srtt + 4 * rttVar);
      if r < MIN_CWND { r := 200; }
      if r > 60000 { r := 60000; }
      rto := r;
    }

    /** The window update of one acknowledgement. */
    method Grow(bytes: U32)
      requires phase.CongestionAvoidance? ==> 0 < cwnd && CurveDefined(k, Wrap32(t + 1))
      modifies this
      ensures Value() == Grown(old(Value()), bytes, k)
      ensures old(phase).SlowStart? && phase.CongestionAvoidance? ==> IsRoot(RootArgument(wMax), k)
    {
      match phase {
        case SlowStart => GrowFast(bytes);
        case CongestionAvoidance => GrowToTarget(bytes);
        case FastRecovery => cwnd := Wrap32(cwnd + bytes);
      }
    }

    /** Slow start: exponential growth up to the threshold. */
    method GrowFast(bytes: U32)
      requires phase.SlowStart?
      modifies this
      ensures Value() == Grown(old(Value()), bytes, k)
      ensures phase.CongestionAvoidance? ==> IsRoot(RootArgument(wMax), k)
    {
      cwnd := Wrap32(cwnd + bytes);
      if cwnd >= ssthresh {
        phase := CongestionAvoidance;
        wMax, cwndPrior, t := cwnd, cwnd, 0;
        k := ComputeK(wMax);
      }
    }

    /** Congestion avoidance: growth toward the larger of the two targets. */
    method GrowToTarget(bytes: U32)
      requires phase.CongestionAvoidance? && 0 < cwnd && CurveDefined(k, Wrap32(t + 1))
      modifies `t, `cwnd
      ensures Value() == Grown(old(Value()), bytes, k)
    {
      t := Wrap32(t + 1);
      var wCubic := CubicEval(wMax, k, t);
      var wTcp := TcpTarget(Value());
      var target := if wCubic > wTcp then wCubic else wTcp;
      var inc := Increment(Value(), target, bytes);
      cwnd := Wrap32(cwnd + inc);
    }

    method Count(bytes: U32)
      modifies this
      ensures Value() == Counted(old(Value()), bytes)
    {
      totalAcked := Wrap64(totalAcked + bytes);
      ackCount := Wrap32(ackCount + 1);
    }

    method Pace()
      modifies this
      ensures Value() == Paced(old(Value()))
    {
      if srtt > 0 { pacingRate := Wrap32(cwnd * 1000 / srtt); }
    }

    method OnAck(bytes: U32, rtt: U32)
      requires AckDefined(Value(), bytes, rtt)
      modifies this
      ensures Value() == AfterAck(old(Value()), bytes, rtt, k)
      ensures old(phase).SlowStart? && phase.CongestionAvoidance? ==> IsRoot(RootArgument(wMax), k)
    {
      if bytes == 0 { return; }
      Count(bytes);
      if rtt > 0 { UpdateRtt(rtt); }
      Grow(bytes);
      Pace();
    }

    /** Everything a loss does to the state except the new K. */
    method Reduce()
      modifies this
      ensures Value() == AfterLoss(old(Value()), old(k))
    {
      recoveryEpisodes := Wrap32(recoveryEpisodes + 1);
      if wMax > 0 && cwnd < wMax {
        wMax := cwnd * 1843 / 2048;
      } else {
        wMax := cwnd;
      }
      cwndPrior := cwnd;
      cwnd := cwnd * 717 / 1024;
      if cwnd < MIN_CWND { cwnd := MIN_CWND; }
      ssthresh := cwnd;
      t := 0;
      phase := FastRecovery;
    }

    method OnLoss()
      modifies this
      ensures Value() == AfterLoss(old(Value()), k) && IsRoot(RootArgument(wMax), k)
    {
      Reduce();
      k := ComputeK(wMax);
    }
  }

  method ComputeK(wMax: U32) returns (k: U32)
    ensures IsRoot(RootArgument(wMax), k)
  {
    var numerator := RootArgument(wMax);
    k := Icbrt(numerator);
  }

  // ----- the curve after a loss

  lemma CubeIncreases(a: int, b: int)
    requires a <= b
    ensures Cube(a) <= Cube(b)
  {
    if 0 <= a {
      CubeMonotone(a, b);
    } else if b <= 0 {
      CubeMonotone(-b, -a);
      CubeNegates(a);
      CubeNegates(b);
    } else {
      CubeNegates(a);
      CubeMonotone(0, -a);
      CubeMonotone(0, b);
    }
  }

  lemma CubeNegates(a: int)
    ensures Cube(-a) == -Cube(a)
  {
  }

  /** W is non-decreasing in t, at most W_max up to K, equal to it at K and at least W_max from K on. */
  lemma CurveShape(wMax: U32, k: U32, t: U32, u: U32)
    requires t <= u
    ensures Curve(wMax, k, t) <= Curve(wMax, k, u)
    ensures t <= k ==> Curve(wMax, k, t) <= wMax
    ensures k <= t ==> wMax <= Curve(wMax, k, t)
    ensures Curve(wMax, k, k) == wMax
  {
    CubeIncreases(t - k, u - k);
    if t <= k { CubeIncreases(t - k, 0); }
    if k <= t { CubeIncreases(0, t - k); }
  }

  /**
   The same for the window the controller computes, from W_max at least the floor and as long as
   the later value fits in 32 bits.
   */
  lemma WindowShape(wMax: U32, k: U32, t: U32, u: U32)
    requires MIN_CWND <= wMax && t <= u && CurveDefined(k, t) && CurveDefined(k, u)
    requires Curve(wMax, k, u) < TWO32
    ensures MIN_CWND <= CubicEval(wMax, k, t) <= CubicEval(wMax, k, u)
    ensures u <= k ==> CubicEval(wMax, k, u) <= wMax
    ensures k <= t ==> wMax <= CubicEval(wMax, k, t)
    ensures t == k ==> CubicEval(wMax, k, t) == wMax
  {
    CurveShape(wMax, k, t, u);
    CurveShape(wMax, k, u, u);
    CastExact(Curve(wMax, k, t));
    CastExact(Curve(wMax, k, u));
  }

  lemma CastExact(w: int)
    requires w < TWO32
    ensures Wrap32(Max(w, MIN_CWND)) == Max(w, MIN_CWND)
  {
  }

  /** The cast loses the curve exactly when the curve leaves 32 bits. */
  lemma WindowExactIff(wMax: U32, k: U32, t: U32)
    requires CurveDefined(k, t)
    ensures CubicEval(wMax, k, t) == Max(Curve(wMax, k, t), MIN_CWND) <==> Curve(wMax, k, t) < TWO32
  {
  }

  /** How far the cube of the computed K can be from the cube-root argument. */
  lemma RootError(x: U64, k: U32)
    requires IsRoot(x, k)
    ensures Abs(Cube(k) - x) < 3 * k * k + 3 * k + 1
  {
    assert Cube(k + 1) == Cube(k) + (3 * k * k + 3 * k + 1);
    assert Cube(k - 1) == Cube(k) - (3 * k * k - 3 * k + 1);
  }

  lemma CurveAtZero(wMax: U32, k: U32)
    ensures Curve(wMax, k, 0) == wMax - Cube(k) / 0x4_0000
  {
    CubeNegates(k);
    CubeIncreases(0, k);
    var z := Cube(k);
    assert z * 4 / 0x10_0000 == z / 0x4_0000;
  }

  /** A computed K is small enough for the evaluation at t = 0 to be defined. */
  lemma RootDefined(wMax: U32, k: U32)
    requires IsRoot(RootArgument(wMax), k)
    ensures k <= 0x2_0000 && CurveDefined(k, 0)
  {
    assert Cube(0x2_0000) == 0x8_0000_0000_0000;
    assert RootArgument(wMax) == 78592 * wMax < 0x8_0000_0000_0000;
    if k > 0x2_0000 { CubeMonotone(0x2_0000, k - 1); }
    CubeMonotone(k, 0x2_0000);
    CubeMonotone(0, k);
    CubeNegates(k);
  }

  /**
   Section 4.1 of RFC 8312: at t = 0 the curve passes through beta * W_max, up to the rounding of
   the cube root and one unit of truncation. Scaled by 2^18 so that it is stated in integers. The
   window computed at t = 0 is that value as long as it is not below the floor.
   */
  lemma CurveStartsAtBeta(wMax: U32, k: U32)
    requires IsRoot(RootArgument(wMax), k)
    ensures Abs(0x4_0000 * Curve(wMax, k, 0) - 0x100 * 717 * wMax) < 3 * k * k + 3 * k + 1 + 0x4_0000
    ensures CurveDefined(k, 0) && CubicEval(wMax, k, 0) == Max(Curve(wMax, k, 0), MIN_CWND)
    ensures MIN_CWND <= Curve(wMax, k, 0) ==>
      Abs(0x4_0000 * CubicEval(wMax, k, 0) - 0x100 * 717 * wMax) < 3 * k * k + 3 * k + 1 + 0x4_0000
  {
    RootDefined(wMax, k);
    RootError(RootArgument(wMax), k);
    CurveAtZero(wMax, k);
    ScaledTruncation(wMax, Cube(k), 3 * k * k + 3 * k + 1);
    CurveShape(wMax, k, 0, 0);
    CastExact(Curve(wMax, k, 0));
  }

  lemma ScaledTruncation(w: U32, z: int, err: int)
    requires Abs(z - w * 1024 * 307 / 4) < err
    ensures Abs(0x4_0000 * (w - z / 0x4_0000) - 0x100 * 717 * w) < err + 0x4_0000
  {
    assert w * 1024 * 307 / 4 == 78592 * w;
  }

  /**
   After any loss that finds the window at or above the previous plateau, the cubic curve starts
   at the reduced window the controller has just set.
   */
  lemma CurveStartsAtReducedWindow(c: State, k: U32)
    requires IsRoot(RootArgument(AfterLoss(c, k).wMax), k)
    requires c.wMax == 0 || c.wMax <= c.cwnd
    requires MIN_CWND < AfterLoss(c, k).cwnd
    ensures var d := AfterLoss(c, k);
      Abs(0x4_0000 * (Curve(d.wMax, d.k, d.t) - d.cwnd)) < 3 * k * k + 3 * k + 1 + 2 * 0x4_0000
  {
    var d := AfterLoss(c, k);
    CurveStartsAtBeta(d.wMax, k);
    TruncatedReduction(c.cwnd);
  }

  lemma TruncatedReduction(w: U32)
    ensures 0 <= 0x100 * 717 * w - 0x4_0000 * (w * 717 / 1024) < 0x4_0000
  {
  }

  /** From 400 on the next cube is less than 1/64 larger. */
  lemma NextCubeClose(k: nat)
    requires 400 <= k
    ensures 64 * Cube(k + 1) <= 65 * Cube(k)
  {
    var s := k * k;
    assert Cube(k) == k * s && Cube(k + 1) == k * s + 3 * s + 3 * k + 1;
    assert 400 * s <= k * s && 400 * k <= s;
  }

  /** Above a plateau of 1313 bytes K is at least 400. */
  lemma RootAtLeast400(wMax: U32, k: U32)
    requires 1313 <= wMax && IsRoot(RootArgument(wMax), k)
    ensures 400 <= k
  {
    assert RootArgument(wMax) == 78592 * wMax;
    assert Cube(400) == 64000000;
    if k < 400 { CubeMonotone(k + 1, 400); }
  }

  /** Fast convergence lowers the plateau below the window, so the curve then starts below the reduced window. */
  lemma FastConvergenceLowers(c: State, k: U32)
    requires MIN_CWND <= c.cwnd < c.wMax && IsRoot(RootArgument(AfterLoss(c, k).wMax), k)
    ensures AfterLoss(c, k).wMax < c.cwnd && 2048 * AfterLoss(c, k).wMax <= 1843 * c.cwnd
    ensures Curve(AfterLoss(c, k).wMax, k, 0) < AfterLoss(c, k).cwnd
  {
    var d := AfterLoss(c, k);
    RootAtLeast400(d.wMax, k);
    NextCubeClose(k);
    CurveAtZero(d.wMax, k);
    StartBelow(c.cwnd, d.wMax, Cube(k));
  }

  lemma StartBelow(w: U32, plateau: U32, z: int)
    requires 1460 <= w && plateau == w * 1843 / 2048 && 64 * (78592 * plateau) <= 65 * z
    ensures plateau - z / 0x4_0000 < w * 717 / 1024
  {
  }

  // ----- runs

  /** `cs` is a run: an initial state and one step for each event. */
  ghost predicate IsRun(cs: seq<State>, es: seq<Event>) {
    && |cs| == |es| + 1
    && (exists mss: U32 :: cs[0] == Initial(mss))
    && forall i :: 0 <= i < |es| ==> Step(cs[i], es[i], cs[i + 1])
  }

  /** The window addition of the event stays in 32 bits. */
  ghost predicate Fits(c: State, e: Event) {
    e.Ack? && e.bytes != 0 && AckDefined(c, e.bytes, e.rtt) ==>
      c.cwnd + Growth(c, e.bytes) < TWO32
  }

  ghost predicate NeverOverflows(cs: seq<State>, es: seq<Event>) {
    |cs| == |es| + 1 && forall i :: 0 <= i < |es| ==> Fits(cs[i], es[i])
  }

  /**
   The window never drops below one segment and the timeout keeps its range. Fast recovery is left
   by no event, and while no loss has happened the threshold is still infinite.
   */
  ghost predicate Invariant(c: State, lossSeen: bool) {
    && MIN_CWND <= c.cwnd
    && 200 <= c.rto <= 60000
    && (lossSeen ==> c.phase.FastRecovery?)
    && (!lossSeen ==> !c.phase.FastRecovery? && c.ssthresh == INFINITE)
    && (c.phase.CongestionAvoidance? ==> c.cwnd == INFINITE)
  }

  lemma GrowthKeepsInvariant(c: State, bytes: U32, k: U32, lossSeen: bool)
    requires Invariant(c, lossSeen) && bytes != 0
    requires c.phase.CongestionAvoidance? ==> CurveDefined(c.k, Wrap32(c.t + 1))
    requires c.cwnd + Growth(c, bytes) < TWO32
    ensures Invariant(Grown(c, bytes, k), lossSeen)
  {
    var grown := c.cwnd + Growth(c, bytes);
    assert Wrap32(grown) == grown;
  }

  /** The RTT filter leaves alone everything the window depends on. */
  lemma RttLeavesWindow(c: State, rtt: U32, bytes: U32)
    requires RttDefined(c, rtt)
    requires c.phase.CongestionAvoidance? ==> 0 < c.cwnd && CurveDefined(c.k, Wrap32(c.t + 1))
    ensures var d := AfterRtt(c, rtt);
      && (d.phase, d.cwnd, d.ssthresh, d.k, d.t) == (c.phase, c.cwnd, c.ssthresh, c.k, c.t)
      && (200 <= c.rto <= 60000 ==> 200 <= d.rto <= 60000)
      && Growth(d, bytes) == Growth(c, bytes)
  {
  }

  lemma StepKeepsInvariant(c: State, e: Event, d: State, lossSeen: bool)
    requires Step(c, e, d) && Fits(c, e) && Invariant(c, lossSeen)
    ensures Invariant(d, lossSeen || e.Loss?)
  {
    if e.Ack? && e.bytes != 0 {
      var a := Counted(c, e.bytes);
      RttLeavesWindow(a, e.rtt, e.bytes);
      GrowthKeepsInvariant(AfterRtt(a, e.rtt), e.bytes, d.k, lossSeen);
    }
  }

  /** No event takes the retransmission timeout out of [200, 60000], whatever happens to the window. */
  lemma TimeoutInRange(c: State, e: Event, d: State)
    requires Step(c, e, d) && 200 <= c.rto <= 60000
    ensures 200 <= d.rto <= 60000
  {
  }

  lemma {:induction false} RunKeepsInvariant(cs: seq<State>, es: seq<Event>, i: nat)
    requires IsRun(cs, es) && NeverOverflows(cs, es) && i <= |es|
    ensures Invariant(cs[i], Loss in es[..i])
  {
    if i > 0 {
      RunKeepsInvariant(cs, es, i - 1);
      assert es[..i] == es[..i - 1] + [es[i - 1]];
      StepKeepsInvariant(cs[i - 1], es[i - 1], cs[i], Loss in es[..i - 1]);
    }
  }

  /**
   No run from the initial state that stays in 32 bits ever grows its window by the cubic curve:
   congestion avoidance needs an infinite threshold to be reached, and after a loss the phase is
   fast recovery for good.
   */
  lemma CubicGrowthUnreachable(cs: seq<State>, es: seq<Event>, i: nat)
    requires IsRun(cs, es) && NeverOverflows(cs, es) && i < |es|
    ensures cs[i].phase.CongestionAvoidance? ==> es[i].Loss? || es[i].bytes == 0
    ensures Loss in es[..i] ==> cs[i].phase.FastRecovery?
  {
    RunKeepsInvariant(cs, es, i);
    assert Step(cs[i], es[i], cs[i + 1]) && Fits(cs[i], es[i]);
  }

  // ----- the RTT filter over runs of samples

  lemma SampleInRange(c: State, r: U32)
    requires c.srtt < 0x2000_0000 && c.rttVar < 0x2000_0000 && r < 0x2000_0000
    ensures RttDefined(c, r)
    ensures AfterRtt(c, r).srtt < 0x2000_0000 && AfterRtt(c, r).rttVar < 0x2000_0000
  {
    var delta := AsInt32(c.srtt) - AsInt32(r);
    assert delta == c.srtt - r;
    assert Wrap32(7 * c.srtt + r) == 7 * c.srtt + r;
    assert Wrap32(3 * c.rttVar + Abs(delta)) == 3 * c.rttVar + Abs(delta);
  }

  function AfterSamples(c: State, samples: seq<U32>): (d: State)
    requires c.srtt < 0x2000_0000 && c.rttVar < 0x2000_0000
    requires forall j :: 0 <= j < |samples| ==> samples[j] < 0x2000_0000
    ensures d.srtt < 0x2000_0000 && d.rttVar < 0x2000_0000
  {
    if samples == [] then c
    else
      var n := |samples| - 1;
      SampleInRange(AfterSamples(c, samples[..n]), samples[n]);
      AfterRtt(AfterSamples(c, samples[..n]), samples[n])
  }

  lemma SampleBetween(c: State, r: U32, lo: int, hi: int)
    requires c.rttVar < 0x2000_0000 && 1 <= lo <= r <= hi < 0x2000_0000
    requires c.srtt == 0 || lo <= c.srtt <= hi
    ensures lo <= AfterRtt(c, r).srtt <= hi && 200 <= AfterRtt(c, r).rto <= 60000
  {
  }

  /** Over every run of samples SRTT stays between any bounds that hold for the samples. */
  lemma {:induction false} SrttBetweenSamples(c: State, samples: seq<U32>, lo: int, hi: int)
    requires c.srtt == 0 && c.rttVar == 0 && samples != [] && 1 <= lo && hi < 0x2000_0000
    requires forall j :: 0 <= j < |samples| ==> lo <= samples[j] <= hi
    ensures lo <= AfterSamples(c, samples).srtt <= hi
    ensures 200 <= AfterSamples(c, samples).rto <= 60000
  {
    var n := |samples| - 1;
    if n > 0 { SrttBetweenSamples(c, samples[..n], lo, hi); }
    SampleBetween(AfterSamples(c, samples[..n]), samples[n], lo, hi);
  }

  /** Distance of SRTT to a constant sample after one more such sample. */
  lemma ConstantSampleStep(c: State, r: U32)
    requires 0 < c.srtt < 0x2000_0000 && c.rttVar < 0x2000_0000 && 1 <= r < 0x2000_0000
    ensures var s := AfterRtt(c, r).srtt;
      && 0 < s < 0x2000_0000
      && (r - 7 <= c.srtt <= r ==> r - 7 <= s <= r)
      && (c.srtt > r ==> r <= s < c.srtt)
      && (c.srtt < r - 7 ==> c.srtt < s <= r)
  {
    SampleInRange(c, r);
    assert Wrap32(7 * c.srtt + r) == 7 * c.srtt + r;
  }

  function Repeat(r: U32, n: nat): (s: seq<U32>)
    ensures |s| == n && forall j :: 0 <= j < n ==> s[j] == r
  {
    seq(n, _ => r)
  }

  /** Under constant RTT r, SRTT reaches [r - 7, r] in at most |srtt - r| samples and never leaves it. */
  lemma {:induction false} SrttConverges(c: State, r: U32, n: nat)
    requires 0 < c.srtt < 0x2000_0000 && c.rttVar < 0x2000_0000 && 1 <= r < 0x2000_0000
    ensures var s := AfterSamples(c, Repeat(r, n)).srtt;
      && 0 < s
      && (s > r ==> s - r <= Abs(c.srtt - r) - n)
      && (s < r - 7 ==> r - s <= Abs(c.srtt - r) - n)
      && (Abs(c.srtt - r) <= n ==> r - 7 <= s <= r)
  {
    if n > 0 {
      SrttConverges(c, r, n - 1);
      assert Repeat(r, n)[..n - 1] == Repeat(r, n - 1);
      ConstantSampleStep(AfterSamples(c, Repeat(r, n - 1)), r);
    }
  }
}
