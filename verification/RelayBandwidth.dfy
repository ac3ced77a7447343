/**
 The per-session bandwidth window of the relay: it restarts on the first packet a second or more after
 its start, and drops what would exceed the limit.
 */
module RelayBandwidth {
  import opened Words

  /** 50 Mbit/s in bytes per second. */
  const LIMIT: nat := 6553600

  datatype Window = Window(start: U64, bytes: nat, dropped: U64)

  predicate Sound(w: Window) { w.bytes <= LIMIT }

  datatype Packet = Packet(now: U64, len: U32)

  // ----- specification

  function Current(w: Window, now: U64): Window {
    if Wrap64(now - w.start) >= 1000 then w.(start := now, bytes := 0) else w
  }

  predicate Fits(w: Window, p: Packet) { Current(w, p.now).bytes + p.len <= LIMIT }

  function AfterCheck(w: Window, p: Packet): Window {
    var c := Current(w, p.now);
    if Fits(w, p) then c.(bytes := c.bytes + p.len) else c.(dropped := Wrap64(c.dropped + p.len))
  }

  function AfterRun(w: Window, ps: seq<Packet>): Window
    decreases |ps|
  {
    if ps == [] then w else AfterRun(AfterCheck(w, ps[0]), ps[1..])
  }

  /** A clock that never runs backwards and has reached `from`. */
  predicate Ordered(from: U64, ps: seq<Packet>)
    decreases |ps|
  {
    ps == [] || (from <= ps[0].now && Ordered(ps[0].now, ps[1..]))
  }

  predicate Within(lo: nat, p: Packet) { lo <= p.now < lo + 1000 }

  /** Bytes admitted by the run at times in [lo, lo + 1000). */
  function Admitted(w: Window, ps: seq<Packet>, lo: nat): nat
    decreases |ps|
  {
    if ps == [] then 0
    else (if Fits(w, ps[0]) && Within(lo, ps[0]) then ps[0].len else 0) + Admitted(AfterCheck(w, ps[0]), ps[1..], lo)
  }

  function Offered(ps: seq<Packet>): nat
    decreases |ps|
  {
    if ps == [] then 0 else ps[0].len + Offered(ps[1..])
  }

  function AdmittedInAll(w: Window, ps: seq<Packet>): nat
    decreases |ps|
  {
    if ps == [] then 0
    else (if Fits(w, ps[0]) then ps[0].len else 0) + AdmittedInAll(AfterCheck(w, ps[0]), ps[1..])
  }

  // ----- the counter in the session

  class Meter {
    var windowStart: U64
    var bytesThisSecond: U64
    const limit: U64
    var bytesDropped: U64

    ghost predicate Valid()
      reads this
    {
      limit == LIMIT && bytesThisSecond <= LIMIT
    }

    ghost function View(): Window
      reads this
    {
      Window(windowStart, bytesThisSecond, bytesDropped)
    }

    constructor (now: U64)
      ensures Valid() && View() == Window(now, 0, 0)
    {
      windowStart, bytesThisSecond, bytesDropped := now, 0, 0;
      limit := LIMIT;
    }

    method Check(now: U64, len: U32) returns (ok: bool)
      requires Valid()
      modifies this
      ensures Valid() && View() == AfterCheck(old(View()), Packet(now, len))
      ensures ok == Fits(old(View()), Packet(now, len))
    {
      if Wrap64(now - windowStart) >= 1000 {
        bytesThisSecond := 0;
        windowStart := now;
      }
      if Wrap64(bytesThisSecond + len) > limit {
        bytesDropped := Wrap64(bytesDropped + len);
        return false;
      }
      bytesThisSecond := bytesThisSecond + len;
      return true;
    }
  }

  // ----- at most twice the limit in any second

  lemma {:induction false} NothingLater(w: Window, ps: seq<Packet>, from: U64, lo: nat)
    requires Ordered(from, ps) && lo + 1000 <= from
    ensures Admitted(w, ps, lo) == 0
    decreases |ps|
  {
    if ps != [] { NothingLater(AfterCheck(w, ps[0]), ps[1..], ps[0].now, lo); }
  }

  /** An interval that ends within the current window admits only what the window has left. */
  lemma {:induction false} OneWindow(w: Window, ps: seq<Packet>, from: U64, lo: nat)
    requires Sound(w) && w.start <= from && Ordered(from, ps)
    requires lo <= w.start
    ensures Admitted(w, ps, lo) <= LIMIT - w.bytes
    decreases |ps|
  {
    if ps != [] {
      if ps[0].now < lo + 1000 {
        OneWindow(AfterCheck(w, ps[0]), ps[1..], ps[0].now, lo);
      } else {
        NothingLater(AfterCheck(w, ps[0]), ps[1..], ps[0].now, lo);
      }
    }
  }

  /** Once the interval has begun, what is left of this window and one further window bound it. */
  lemma {:induction false} TwoWindows(w: Window, ps: seq<Packet>, from: U64, lo: nat)
    requires Sound(w) && w.start <= from && lo <= from && Ordered(from, ps)
    ensures Admitted(w, ps, lo) <= 2 * LIMIT - w.bytes
    decreases |ps|
  {
    if ps != [] {
      var p := ps[0];
      if p.now >= lo + 1000 {
        NothingLater(AfterCheck(w, p), ps[1..], p.now, lo);
      } else if p.now - w.start < 1000 {
        TwoWindows(AfterCheck(w, p), ps[1..], p.now, lo);
      } else {
        OneWindow(AfterCheck(w, p), ps[1..], p.now, lo);
      }
    }
  }

  /** Any half-open interval of 1000 ms of any run admits at most twice the limit. */
  lemma {:induction false} AnySecondBounded(w: Window, ps: seq<Packet>, lo: nat)
    requires Sound(w) && Ordered(w.start, ps)
    ensures Admitted(w, ps, lo) <= 2 * LIMIT
    decreases |ps|
  {
    if ps != [] {
      var p := ps[0];
      if p.now >= lo {
        if w.start >= lo {
          TwoWindows(w, ps, w.start, lo);
        } else {
          TwoWindows(w, ps, p.now, lo);
        }
      } else {
        Rebase(AfterCheck(w, p), p.now, ps[1..]);
        AnySecondBounded(AfterCheck(w, p), ps[1..], lo);
      }
    }
  }

  lemma Rebase(w: Window, from: U64, ps: seq<Packet>)
    requires w.start <= from && Ordered(from, ps)
    ensures Ordered(w.start, ps)
  {
  }

  // ----- the most a second can still admit

  function EndTime(from: U64, ps: seq<Packet>): U64 { if ps == [] then from else ps[|ps| - 1].now }

  /**
   The exact most that packets from time `from` on can add to the second from `lo` on: nothing once it is
   over; the rest of a window that covers it; the rest of the current window and all of the next; a
   second window after one opened just before; or one new window.
   */
  function Worst(w: Window, from: U64, lo: nat): nat
    requires Sound(w)
  {
    var ends := w.start + 1000;
    if lo + 1000 <= from then 0
    else if lo <= w.start then LIMIT - w.bytes
    else if lo < ends && from < ends then 2 * LIMIT - w.bytes
    else if from < lo && ends < lo then 2 * LIMIT
    else LIMIT
  }

  /** A window that reaches into the second: what is left of it, and one more. */
  lemma {:induction false} ReachesInto(w: Window, ps: seq<Packet>, from: U64, lo: nat)
    requires Sound(w) && w.start <= from && Ordered(from, ps) && lo < w.start + 1000
    ensures Admitted(w, ps, lo) <= 2 * LIMIT - w.bytes
    decreases |ps|
  {
    if ps != [] {
      if ps[0].now >= lo {
        TwoWindows(w, ps, ps[0].now, lo);
      } else {
        ReachesInto(AfterCheck(w, ps[0]), ps[1..], ps[0].now, lo);
      }
    }
  }

  /** A window that is over when the second begins: only the one after it counts. */
  lemma {:induction false} NextWindow(w: Window, ps: seq<Packet>, from: U64, lo: nat)
    requires Sound(w) && w.start <= from && Ordered(from, ps)
    requires lo == w.start + 1000 || (lo <= from && w.start + 1000 <= from)
    ensures Admitted(w, ps, lo) <= LIMIT
    decreases |ps|
  {
    if ps != [] {
      var p := ps[0];
      if p.now < lo {
        NextWindow(AfterCheck(w, p), ps[1..], p.now, lo);
      } else if p.now < lo + 1000 {
        OneWindow(AfterCheck(w, p), ps[1..], p.now, lo);
      } else {
        NothingLater(AfterCheck(w, p), ps[1..], p.now, lo);
      }
    }
  }

  lemma WorstBounds(w: Window, ps: seq<Packet>, from: U64, lo: nat)
    requires Sound(w) && w.start <= from && Ordered(from, ps)
    ensures Admitted(w, ps, lo) <= Worst(w, from, lo)
  {
    if lo + 1000 <= from {
      NothingLater(w, ps, from, lo);
    } else if lo <= w.start {
      OneWindow(w, ps, from, lo);
    } else if lo < w.start + 1000 && from < w.start + 1000 {
      ReachesInto(w, ps, from, lo);
    } else if from < lo && w.start + 1000 < lo {
      Rebase(w, from, ps);
      AnySecondBounded(w, ps, lo);
    } else {
      NextWindow(w, ps, from, lo);
    }
  }

  /** Packets that use up what the second can still admit. */
  function Greedy(w: Window, from: U64, lo: nat): seq<Packet>
    requires Sound(w) && w.start <= from && lo < 0x1_0000_0000_0000_0000 - 1000
  {
    var ends := w.start + 1000;
    if lo + 1000 <= from then []
    else if lo <= w.start then [Packet(from, LIMIT - w.bytes)]
    else if lo < ends && from < ends then [Packet(Max(lo, from), LIMIT - w.bytes), Packet(ends, LIMIT)]
    else if from < lo && ends < lo then [Packet(lo - 1, 0), Packet(lo, LIMIT), Packet(lo + 999, LIMIT)]
    else [Packet(Max(lo, from), LIMIT)]
  }

  lemma AdmittedOne(w: Window, p: Packet, lo: nat)
    ensures Admitted(w, [p], lo) == if Fits(w, p) && Within(lo, p) then p.len else 0
  {
    assert [p][1..] == [];
  }

  lemma AdmittedTwo(w: Window, p: Packet, q: Packet, lo: nat)
    ensures Admitted(w, [p, q], lo) ==
      (if Fits(w, p) && Within(lo, p) then p.len else 0) + Admitted(AfterCheck(w, p), [q], lo)
  {
    assert [p, q][1..] == [q];
  }

  lemma WorstReached(w: Window, from: U64, lo: nat)
    requires Sound(w) && w.start <= from && lo < 0x1_0000_0000_0000_0000 - 1000
    ensures Ordered(from, Greedy(w, from, lo)) && Admitted(w, Greedy(w, from, lo), lo) == Worst(w, from, lo)
  {
    var ps := Greedy(w, from, lo);
    if |ps| == 1 {
      AdmittedOne(w, ps[0], lo);
    } else if |ps| == 2 {
      AdmittedTwo(w, ps[0], ps[1], lo);
      AdmittedOne(AfterCheck(w, ps[0]), ps[1], lo);
      assert ps[1..] == [ps[1]];
    } else if |ps| == 3 {
      assert ps[1..] == [ps[1], ps[2]] && ps[1..][1..] == [ps[2]];
      var w1 := AfterCheck(w, ps[0]);
      AdmittedTwo(w1, ps[1], ps[2], lo);
      AdmittedOne(AfterCheck(w1, ps[1]), ps[2], lo);
      assert Ordered(ps[0].now, ps[1..]);
    }
  }

  // ----- when a second never exceeds the limit

  /** Every byte admitted since the session began, over a run and its continuation. */
  lemma {:induction false} AdmittedSplits(w: Window, pre: seq<Packet>, ps: seq<Packet>, lo: nat)
    ensures Admitted(w, pre + ps, lo) == Admitted(w, pre, lo) + Admitted(AfterRun(w, pre), ps, lo)
    decreases |pre|
  {
    if pre == [] {
      assert pre + ps == ps;
    } else {
      assert (pre + ps)[1..] == pre[1..] + ps;
      AdmittedSplits(AfterCheck(w, pre[0]), pre[1..], ps, lo);
    }
  }

  lemma {:induction false} OrderedSplits(from: U64, pre: seq<Packet>, ps: seq<Packet>)
    ensures Ordered(from, pre + ps) <==> Ordered(from, pre) && Ordered(EndTime(from, pre), ps)
    decreases |pre|
  {
    if pre == [] {
      assert pre + ps == ps;
    } else {
      assert (pre + ps)[1..] == pre[1..] + ps;
      OrderedSplits(pre[0].now, pre[1..], ps);
    }
  }

  lemma {:induction false} RunKeepsSound(w: Window, from: U64, pre: seq<Packet>)
    requires Sound(w) && w.start <= from && Ordered(from, pre)
    ensures Sound(AfterRun(w, pre)) && AfterRun(w, pre).start <= EndTime(from, pre)
    decreases |pre|
  {
    if pre != [] { RunKeepsSound(AfterCheck(w, pre[0]), pre[0].now, pre[1..]); }
  }

  /**
   However the run goes on after `pre`, the second from `lo` on admits no more than the limit, counting
   everything since the session was created at `created`.
   */
  ghost predicate NeverExceeds(created: U64, pre: seq<Packet>, lo: nat) {
    forall ps {:trigger Ordered(created, pre + ps)} ::
      Ordered(created, pre + ps) ==> Admitted(Window(created, 0, 0), pre + ps, lo) <= LIMIT
  }

  /** What the second has admitted so far and the most it can still admit decide it. */
  lemma NeverExceedsIff(created: U64, pre: seq<Packet>, lo: nat)
    requires Ordered(created, pre) && lo < 0x1_0000_0000_0000_0000 - 1000
    ensures Sound(AfterRun(Window(created, 0, 0), pre))
    ensures NeverExceeds(created, pre, lo) <==>
      Admitted(Window(created, 0, 0), pre, lo) +
      Worst(AfterRun(Window(created, 0, 0), pre), EndTime(created, pre), lo) <= LIMIT
  {
    var w0 := Window(created, 0, 0);
    var w, from := AfterRun(w0, pre), EndTime(created, pre);
    RunKeepsSound(w0, created, pre);
    forall ps | Ordered(created, pre + ps)
      ensures Admitted(w0, pre + ps, lo) <= Admitted(w0, pre, lo) + Worst(w, from, lo)
    {
      OrderedSplits(created, pre, ps);
      AdmittedSplits(w0, pre, ps, lo);
      WorstBounds(w, ps, from, lo);
    }
    var ps := Greedy(w, from, lo);
    WorstReached(w, from, lo);
    OrderedSplits(created, pre, ps);
    AdmittedSplits(w0, pre, ps, lo);
    assert Ordered(created, pre + ps);
  }

  lemma {:induction false} NothingYet(w: Window, from: U64, pre: seq<Packet>, lo: nat)
    requires Ordered(from, pre) && EndTime(from, pre) < lo
    ensures Admitted(w, pre, lo) == 0
    decreases |pre|
  {
    if pre != [] {
      OrderedEnds(pre[0].now, pre[1..]);
      NothingYet(AfterCheck(w, pre[0]), pre[0].now, pre[1..], lo);
    }
  }

  lemma {:induction false} OrderedEnds(from: U64, ps: seq<Packet>)
    requires Ordered(from, ps)
    ensures from <= EndTime(from, ps)
    decreases |ps|
  {
    if ps != [] { OrderedEnds(ps[0].now, ps[1..]); }
  }

  /**
   A second that has not begun is safe from exceeding the limit exactly when it begins where the current
   window ends, or when that window reaches into it and is full.
   */
  lemma SecondAheadExactly(created: U64, pre: seq<Packet>, lo: nat)
    requires Ordered(created, pre) && EndTime(created, pre) < lo < 0x1_0000_0000_0000_0000 - 1000
    ensures var w := AfterRun(Window(created, 0, 0), pre);
      NeverExceeds(created, pre, lo) <==>
      lo == w.start + 1000 || (lo < w.start + 1000 && w.bytes == LIMIT)
  {
    var w0 := Window(created, 0, 0);
    NeverExceedsIff(created, pre, lo);
    NothingYet(w0, created, pre, lo);
    RunKeepsSound(w0, created, pre);
  }

  // ----- what must be admitted

  /** A packet is admitted exactly when it fits what the current second, or a new one, has left of 6553600 bytes. */
  lemma AdmitsIff(w: Window, p: Packet)
    ensures Fits(w, p) <==>
      p.len <= 6553600 && (Wrap64(p.now - w.start) >= 1000 || w.bytes + p.len <= 6553600)
    ensures var d := AfterCheck(w, p);
      if Wrap64(p.now - w.start) >= 1000 then d.start == p.now && d.bytes == (if p.len <= 6553600 then p.len else 0)
      else d.start == w.start && d.bytes == if w.bytes + p.len <= 6553600 then w.bytes + p.len else w.bytes
  {
  }

  /** Traffic that never offers more than the limit in all is never dropped, whenever the seconds begin. */
  lemma {:induction false} LightTrafficPasses(w: Window, ps: seq<Packet>)
    requires w.bytes + Offered(ps) <= 6553600
    ensures AdmittedInAll(w, ps) == Offered(ps) && AfterRun(w, ps).dropped == w.dropped
    decreases |ps|
  {
    if ps != [] {
      AdmitsIff(w, ps[0]);
      LightTrafficPasses(AfterCheck(w, ps[0]), ps[1..]);
    }
  }

  // ----- conservation

  /** Every byte offered is either admitted or counted as dropped. */
  lemma {:induction false} BytesConserved(w: Window, ps: seq<Packet>)
    requires Sound(w)
    ensures AdmittedInAll(w, ps) <= Offered(ps)
    ensures AfterRun(w, ps).dropped == Wrap64(w.dropped + Offered(ps) - AdmittedInAll(w, ps))
    decreases |ps|
  {
    if ps != [] {
      var w' := AfterCheck(w, ps[0]);
      BytesConserved(w', ps[1..]);
      if !Fits(w, ps[0]) {
        WrapAdds(w.dropped + ps[0].len, Offered(ps[1..]) - AdmittedInAll(w', ps[1..]));
      }
    }
  }

  lemma WrapAdds(a: int, b: int)
    ensures Wrap64(Wrap64(a) + b) == Wrap64(a + b)
  {
  }
}
