/**
 What a caller of the retransmission engine can rely on, in terms of entries, numbers and times alone:
 when a packet is listed and when it rests, what a selective acknowledgement marks, and how duplicates
 and progress are told apart.
 */
module RetxLaws {
  import opened Words
  import opened RetxSpec

  // ----- the timeout pass, entry by entry

  lemma {:induction false} TimeoutPassLength(q: seq<Entry>, now: U64, max: int, out: seq<U32>)
    ensures |TimeoutPass(q, now, max, out).1| <= |out| + |q|
    decreases |q|
  {
    if q != [] && |out| < max {
      TimeoutPassLength(q[1..], now, max, if Due(q[0], now, out) then out + [q[0].seq_] else out);
    }
  }

  /** The numbers the pass adds to a list. */
  function Added(q: seq<Entry>, now: U64, max: int, out: seq<U32>): seq<U32> {
    TimeoutPass(q, now, max, out).1[|out|..]
  }

  /** Whatever the limit, only a pending entry that has reached its timeout is added. */
  lemma AddedOnlyIf(q: seq<Entry>, now: U64, max: int, out: seq<U32>, i: nat)
    requires Increasing(q) && i < |q| && q[i].seq_ in Added(q, now, max, out)
    ensures !q[i].acked && !q[i].sacked && q[i].seq_ !in out && Wrap32(now - q[i].sentTs) >= q[i].rto
  {
    TimeoutPassSound(q, now, max, out);
    assert ListsExpired(q, now, q[i].seq_);
    var j :| 0 <= j < |q| && Pending(q[j]) && Expired(q[j], now) && q[j].seq_ == q[i].seq_;
    assert j == i;
  }

  /** With room for every entry the pass adds exactly the pending ones that have reached their timeout. */
  lemma AddedIff(q: seq<Entry>, now: U64, max: int, out: seq<U32>, i: nat)
    requires Increasing(q) && i < |q| && |out| + |q| < max
    ensures q[i].seq_ in Added(q, now, max, out) <==>
      !q[i].acked && !q[i].sacked && q[i].seq_ !in out && Wrap32(now - q[i].sentTs) >= q[i].rto
  {
    var list := TimeoutPass(q, now, max, out).1;
    TimeoutPassLength(q, now, max, out);
    TimeoutPassExtends(q, now, max, out);
    if q[i].seq_ in Added(q, now, max, out) {
      AddedOnlyIf(q, now, max, out, i);
    } else if !q[i].acked && !q[i].sacked && q[i].seq_ !in out && Wrap32(now - q[i].sentTs) >= q[i].rto {
      TimeoutPassComplete(q, now, max, out, i);
      InParts(q[i].seq_, out, list);
    }
  }

  /** The entries after the pass: those it adds are timed anew from `now` with twice the timeout. */
  lemma EntriesAfterPass(q: seq<Entry>, now: U64, max: int, out: seq<U32>, i: nat)
    requires Increasing(q) && i < |q|
    ensures TimeoutPass(q, now, max, out).0[i] ==
      if q[i].seq_ in Added(q, now, max, out)
      then Entry(q[i].seq_, Wrap32(now), Min(60000, 2 * q[i].rto), q[i].acked, q[i].sacked, q[i].pkt)
      else q[i]
  {
    TimeoutPassRestarts(q, now, max, out);
  }

  lemma PassKeepsOrder(q: seq<Entry>, now: U64, max: int, out: seq<U32>)
    requires Increasing(q)
    ensures Increasing(TimeoutPass(q, now, max, out).0)
  {
    TimeoutPassMarks(q, now, max, out);
  }

  lemma AgeSince(now: U64, later: U64)
    requires now <= later < now + 0x1_0000_0000
    ensures Wrap32(later - Wrap32(now)) == later - now
  {
    AgeExact(now, later);
  }

  /** An entry timed from `now` is listed by a pass of its own once its timeout has passed, and not before. */
  lemma RunningTimer(r: seq<Entry>, i: nat, now: U64, later: U64, max: int)
    requires Increasing(r) && i < |r| && !r[i].acked && !r[i].sacked && r[i].sentTs == Wrap32(now)
    requires now <= later < now + 0x1_0000_0000
    ensures Wrap32(later - r[i].sentTs) == later - now
    ensures later - now < r[i].rto ==> r[i].seq_ !in TimeoutPass(r, later, max, []).1
    ensures later - now >= r[i].rto && |r| < max ==> r[i].seq_ in TimeoutPass(r, later, max, []).1
  {
    AgeSince(now, later);
    var list := TimeoutPass(r, later, max, []).1;
    assert list[0..] == list;
    if r[i].seq_ in list { AddedOnlyIf(r, later, max, [], i); }
    if |r| < max { AddedIff(r, later, max, [], i); }
  }

  /**
   A packet listed for its timeout rests: it is not listed again before twice its timeout, up to a minute,
   has passed since then, and from that moment on it is.
   */
  lemma RestartedTimer(q: seq<Entry>, now: U64, max: int, out: seq<U32>, i: nat, later: U64, max': int)
    requires Increasing(q) && i < |q| && q[i].seq_ in Added(q, now, max, out)
    requires now <= later < now + 0x1_0000_0000
    ensures var r := TimeoutPass(q, now, max, out).0;
      Wrap32(later - r[i].sentTs) == later - now &&
      (later < now + Min(60000, 2 * q[i].rto) ==> q[i].seq_ !in TimeoutPass(r, later, max', []).1) &&
      (later >= now + Min(60000, 2 * q[i].rto) && |q| < max' ==> q[i].seq_ in TimeoutPass(r, later, max', []).1)
  {
    var r := TimeoutPass(q, now, max, out).0;
    EntriesAfterPass(q, now, max, out, i);
    AddedOnlyIf(q, now, max, out, i);
    PassKeepsOrder(q, now, max, out);
    RunningTimer(r, i, now, later, max');
  }

  /** A packet just queued is first listed when its timeout has passed. */
  lemma EnqueuedTimer(q: Queue, s: U32, pkt: seq<Byte>, rto: U32, now: U64, later: U64, max: int)
    requires Increasing(AfterEnqueue(q, s, pkt, rto, now).live) && |q.live| + 1 < max
    requires now <= later < now + 0x1_0000_0000
    ensures var r := AfterEnqueue(q, s, pkt, rto, now).live;
      r[..|q.live|] == q.live && |r| == |q.live| + 1 && r[|q.live|].seq_ == s && r[|q.live|].pkt == pkt &&
      (s in TimeoutPass(r, later, max, []).1 <==> later - now >= rto)
  {
    var r := AfterEnqueue(q, s, pkt, rto, now).live;
    AgeSince(now, later);
    AddedIff(r, later, max, [], |q.live|);
    assert TimeoutPass(r, later, max, []).1[0..] == TimeoutPass(r, later, max, []).1;
  }

  // ----- the pass over holes, entry by entry

  lemma {:induction false} HolePassLength(q: seq<Entry>, blocks: seq<Block>, now: U64, max: int, out: seq<U32>)
    ensures |HolePass(q, blocks, now, max, out)| <= |out| + |q|
    decreases |q|
  {
    if q != [] && |out| < max {
      HolePassLength(q[1..], blocks, now, max, if Hole(q[0], blocks, now) then out + [q[0].seq_] else out);
    }
  }

  /** A pending packet is listed as a hole when a block lies above it and half its timeout has passed. */
  lemma HoleListedIff(q: seq<Entry>, blocks: seq<Block>, now: U64, max: int, i: nat)
    requires Increasing(q) && i < |q| < max
    ensures q[i].seq_ in HolePass(q, blocks, now, max, []) <==>
      !q[i].acked && !q[i].sacked && (exists j :: 0 <= j < |blocks| && blocks[j].left > q[i].seq_) &&
      Wrap32(now - q[i].sentTs) >= q[i].rto / 2
  {
    var list := HolePass(q, blocks, now, max, []);
    HolePassExact(q, blocks, now, max, []);
    HolePassLength(q, blocks, now, max, []);
    assert list[0..] == list;
    if q[i].seq_ in list {
      assert ListsHole(q, blocks, now, q[i].seq_);
      var j :| 0 <= j < |q| && Hole(q[j], blocks, now) && q[j].seq_ == q[i].seq_;
      assert j == i;
    }
  }

  // ----- selective acknowledgement, entry by entry

  /** One of the first four blocks contains the number. */
  ghost predicate Reported(s: U32, blocks: seq<Block>) {
    exists j :: 0 <= j < 4 && j < |blocks| && blocks[j].left <= s < blocks[j].right
  }

  lemma CoveredIffReported(s: U32, blocks: seq<Block>)
    ensures Covered(s, Kept(blocks)) <==> Reported(s, blocks)
  {
    var kept := Kept(blocks);
    assert |kept| == Min(4, |blocks|) && forall j :: 0 <= j < |kept| ==> kept[j] == blocks[j];
    if Reported(s, blocks) {
      var j :| 0 <= j < 4 && j < |blocks| && blocks[j].left <= s < blocks[j].right;
      assert kept[j].left <= s < kept[j].right;
    }
    if Covered(s, kept) {
      var j :| 0 <= j < |kept| && kept[j].left <= s < kept[j].right;
      assert blocks[j].left <= s < blocks[j].right;
    }
  }

  /** Reported entries become marked unless already acknowledged; nothing else about any entry changes. */
  lemma SackExact(q: Queue, blocks: seq<Block>, i: nat)
    requires i < |q.live|
    ensures var r := AfterSack(q, blocks);
      |r.live| == |q.live| && r == q.(live := r.live, blocks := blocks[..Min(4, |blocks|)]) &&
      r.live[i] == Entry(q.live[i].seq_, q.live[i].sentTs, q.live[i].rto, q.live[i].acked,
                         q.live[i].sacked || (!q.live[i].acked && Reported(q.live[i].seq_, blocks)), q.live[i].pkt)
  {
    CoveredIffReported(q.live[i].seq_, blocks);
  }

  /** What has been reported received is not asked for again. */
  lemma ReportedNotListed(q: Queue, blocks: seq<Block>, s: U32, now: U64, max: nat)
    requires Reported(s, blocks)
    ensures s !in LossList(AfterSack(q, blocks), now, max)
  {
    var r := AfterSack(q, blocks);
    forall i | 0 <= i < |r.live| && r.live[i].seq_ == s ensures r.live[i].acked || r.live[i].sacked {
      SackExact(q, blocks, i);
    }
    LossListExact(r, now, max);
  }

  // ----- counting

  /** The entries an acknowledgement marks. */
  ghost function MarkedNow(q: seq<Entry>, a: U32): set<int> {
    set i | 0 <= i < |q| && !q[i].acked && q[i].seq_ <= a
  }

  lemma {:induction false} NewlyAckedCounts(q: seq<Entry>, a: U32)
    ensures NewlyAcked(q, a) == |MarkedNow(q, a)|
    ensures forall i :: 0 <= i < |q| ==>
      Marked(q, a)[i] == q[i].(acked := q[i].acked || i in MarkedNow(q, a))
    decreases |q|
  {
    if q != [] {
      var n := |q| - 1;
      NewlyAckedCounts(q[..n], a);
      var last: set<int> := if !q[n].acked && q[n].seq_ <= a then {n} else {};
      assert MarkedNow(q, a) == MarkedNow(q[..n], a) + last;
    }
  }

  ghost function ReportedNow(q: seq<Entry>, blocks: seq<Block>): set<int> {
    set i | 0 <= i < |q| && !q[i].acked && !q[i].sacked && Reported(q[i].seq_, blocks)
  }

  lemma ReportedSplits(q: seq<Entry>, blocks: seq<Block>, n: nat)
    requires n + 1 == |q|
    ensures var fits := !q[n].acked && !q[n].sacked && Reported(q[n].seq_, blocks);
      |ReportedNow(q, blocks)| == |ReportedNow(q[..n], blocks)| + if fits then 1 else 0
  {
    var last: set<int> := if !q[n].acked && !q[n].sacked && Reported(q[n].seq_, blocks) then {n} else {};
    assert ReportedNow(q, blocks) == ReportedNow(q[..n], blocks) + last;
  }

  /** The count a selective acknowledgement returns. */
  lemma {:induction false} NewlySackedCounts(q: seq<Entry>, blocks: seq<Block>)
    ensures NewlySacked(q, Kept(blocks)) == |ReportedNow(q, blocks)|
    decreases |q|
  {
    if q != [] {
      var n := |q| - 1;
      NewlySackedCounts(q[..n], blocks);
      CoveredIffReported(q[n].seq_, blocks);
      ReportedSplits(q, blocks, n);
    }
  }

  // ----- duplicates and progress

  /** Fewer than three repetitions do not trigger the first pass. */
  lemma EarlyDuplicatesWait(q: Queue, a: U32, n: nat, max: int)
    requires q.live != [] && !q.live[0].acked && NewlyAcked(q.live, a) == 0
    requires q.dupCount == 0 && n < 3
    ensures FastList(AfterAcks(q, a, n), max) == []
  {
    if n > 0 { RepeatedAckCounts(q, a, n); }
  }

  /** An acknowledgement that marks an entry disarms the first pass, whatever was counted before. */
  lemma ProgressDisarms(q: Queue, a: U32, i: nat, max: int)
    requires i < |q.live| && !q.live[i].acked && q.live[i].seq_ <= a
    ensures AfterAck(q, a).dupCount == 0 && FastList(AfterAck(q, a), max) == []
  {
    NewlyAckedCounts(q.live, a);
    assert i in MarkedNow(q.live, a);
  }

  /** One packet per trigger: right after loss detection the first pass lists nothing. */
  lemma FastOnce(q: Queue, now: U64, max: int, max': int)
    ensures FastList(AfterDetect(q, now, max), max') == []
    ensures q.dupCount < 3 ==> AfterDetect(q, now, max).dupCount == q.dupCount
    ensures AfterDetect(q, now, max).dupSeq == q.dupSeq && AfterDetect(q, now, max).blocks == q.blocks
  {
  }

  /** The statistics count the packets of the first pass and of the third. */
  lemma DetectCounts(q: Queue, now: U64, max: nat)
    requires Increasing(q.live)
    ensures var r := AfterDetect(q, now, max);
      r.fast == Wrap32(q.fast +
        if q.dupCount >= 3 && max > 0 && (exists i :: FirstAbove(q.live, q.dupSeq, i)) then 1 else 0)
    ensures AfterDetect(q, now, max).timeouts ==
      Wrap32(q.timeouts + |Added(q.live, now, max, HoleList(q, now, max))|)
  {
    FastPassExact(q.live, q.dupSeq);
    if forall i :: 0 <= i < |q.live| ==> !(Pending(q.live[i]) && q.live[i].seq_ > q.dupSeq) {
    } else {
      var i := FindFirst(q.live, q.dupSeq);
    }
  }

  lemma {:induction false} FindFirst(q: seq<Entry>, d: U32) returns (i: nat)
    requires exists k :: 0 <= k < |q| && Pending(q[k]) && q[k].seq_ > d
    ensures FirstAbove(q, d, i)
    decreases |q|
  {
    if Pending(q[0]) && q[0].seq_ > d {
      i := 0;
    } else {
      var rest := q[1..];
      var k :| 0 <= k < |q| && Pending(q[k]) && q[k].seq_ > d;
      assert rest[k - 1] == q[k];
      i := FindFirst(rest, d);
      i := i + 1;
      assert forall j :: 1 <= j < |q| ==> q[j] == rest[j - 1];
    }
  }
}
