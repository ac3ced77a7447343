/**
 What the retransmission engine does, stated on the sequence of live queue entries: cumulative
 and selective acknowledgement, duplicate-ACK counting and the three passes of loss detection.
 */
module RetxSpec {
  import opened Words

  datatype Block = Block(left: U32, right: U32)

  /** A queued packet: its flags and the copy of its bytes. */
  datatype Entry = Entry(seq_: U32, sentTs: U32, rto: U32, acked: bool, sacked: bool, pkt: seq<Byte>)

  datatype Queue = Queue(
    live: seq<Entry>, dupCount: U32, dupSeq: U32, blocks: seq<Block>, fast: U32, timeouts: U32)

  const EMPTY := Queue([], 0, 0, [], 0, 0)

  // ----- enqueue

  function AfterEnqueue(q: Queue, seq_: U32, pkt: seq<Byte>, rto: U32, now: U64): Queue {
    q.(live := q.live + [Entry(seq_, Wrap32(now), rto, false, false, pkt)])
  }

  // ----- cumulative acknowledgement

  function Mark(e: Entry, a: U32): Entry { if e.seq_ <= a then e.(acked := true) else e }

  function Marked(q: seq<Entry>, a: U32): (r: seq<Entry>)
    ensures |r| == |q|
  {
    seq(|q|, i requires 0 <= i < |q| => Mark(q[i], a))
  }

  function NewlyAcked(q: seq<Entry>, a: U32): (n: nat)
    ensures n <= |q|
  {
    if q == [] then 0
    else
      var e := q[|q| - 1];
      NewlyAcked(q[..|q| - 1], a) + if !e.acked && e.seq_ <= a then 1 else 0
  }

  /** Acknowledged entries leave from the head only. */
  function Drained(q: seq<Entry>): seq<Entry> {
    if q != [] && q[0].acked then Drained(q[1..]) else q
  }

  function AfterAck(q: Queue, a: U32): Queue {
    var live := Drained(Marked(q.live, a));
    if NewlyAcked(q.live, a) == 0 && live != [] then
      if a == q.dupSeq then q.(live := live, dupCount := Wrap32(q.dupCount + 1))
      else q.(live := live, dupSeq := a, dupCount := 1)
    else q.(live := live, dupCount := 0)
  }

  // ----- selective acknowledgement

  predicate Covered(s: U32, blocks: seq<Block>) {
    exists j :: 0 <= j < |blocks| && blocks[j].left <= s < blocks[j].right
  }

  function Sack(e: Entry, blocks: seq<Block>): Entry {
    if !e.acked && !e.sacked && Covered(e.seq_, blocks) then e.(sacked := true) else e
  }

  function Sacked(q: seq<Entry>, blocks: seq<Block>): (r: seq<Entry>)
    ensures |r| == |q|
  {
    seq(|q|, i requires 0 <= i < |q| => Sack(q[i], blocks))
  }

  function NewlySacked(q: seq<Entry>, blocks: seq<Block>): (n: nat)
    ensures n <= |q|
  {
    if q == [] then 0
    else
      var e := q[|q| - 1];
      NewlySacked(q[..|q| - 1], blocks) + if Sack(e, blocks) != e then 1 else 0
  }

  /** Only the first four blocks of a packet are looked at. */
  function Kept(blocks: seq<Block>): (r: seq<Block>)
    ensures |r| <= 4
  {
    if |blocks| > 4 then blocks[..4] else blocks
  }

  function AfterSack(q: Queue, blocks: seq<Block>): Queue {
    q.(live := Sacked(q.live, Kept(blocks)), blocks := Kept(blocks))
  }

  // ----- loss detection

  predicate Pending(e: Entry) { !e.acked && !e.sacked }

  /** The 32-bit age of an entry. */
  function Age(now: U64, sentTs: U32): U32 { Wrap32(now - sentTs) }

  predicate Expired(e: Entry, now: U64) { Age(now, e.sentTs) >= e.rto }

  predicate Hole(e: Entry, blocks: seq<Block>, now: U64) {
    && Pending(e)
    && (exists j :: 0 <= j < |blocks| && blocks[j].left > e.seq_)
    && Age(now, e.sentTs) >= e.rto / 2
  }

  /** First pending entry above the duplicated acknowledgement. */
  function FastPass(q: seq<Entry>, dupSeq: U32): seq<U32> {
    if q == [] then []
    else if Pending(q[0]) && q[0].seq_ > dupSeq then [q[0].seq_]
    else FastPass(q[1..], dupSeq)
  }

  function HolePass(q: seq<Entry>, blocks: seq<Block>, now: U64, max: int, out: seq<U32>): seq<U32> {
    if q == [] || |out| >= max then out
    else HolePass(q[1..], blocks, now, max, if Hole(q[0], blocks, now) then out + [q[0].seq_] else out)
  }

  function Backoff(rto: U32): U32 { if rto < 30000 then rto * 2 else 60000 }

  /** The entry is due and not yet in the list. */
  predicate Due(e: Entry, now: U64, out: seq<U32>) { Pending(e) && Expired(e, now) && e.seq_ !in out }

  function Restart(e: Entry, now: U64): Entry { e.(rto := Backoff(e.rto), sentTs := Wrap32(now)) }

  /** Returns the updated entries and the extended list. */
  function TimeoutPass(q: seq<Entry>, now: U64, max: int, out: seq<U32>): (r: (seq<Entry>, seq<U32>))
    ensures |r.0| == |q| && |out| <= |r.1|
  {
    if q == [] || |out| >= max then (q, out)
    else if Due(q[0], now, out) then
      var (rest, list) := TimeoutPass(q[1..], now, max, out + [q[0].seq_]);
      ([Restart(q[0], now)] + rest, list)
    else
      var (rest, list) := TimeoutPass(q[1..], now, max, out);
      ([q[0]] + rest, list)
  }

  function FastList(q: Queue, max: int): seq<U32> {
    if q.dupCount >= 3 && max > 0 then FastPass(q.live, q.dupSeq) else []
  }

  function HoleList(q: Queue, now: U64, max: int): seq<U32> {
    if q.blocks != [] then HolePass(q.live, q.blocks, now, max, FastList(q, max)) else FastList(q, max)
  }

  /** The sequence numbers to retransmit. */
  function LossList(q: Queue, now: U64, max: int): seq<U32> {
    TimeoutPass(q.live, now, max, HoleList(q, now, max)).1
  }

  function AfterDetect(q: Queue, now: U64, max: int): Queue {
    var before := HoleList(q, now, max);
    var (live, list) := TimeoutPass(q.live, now, max, before);
    q.(live := live, dupCount := if q.dupCount >= 3 then 0 else q.dupCount,
       fast := Wrap32(q.fast + |FastList(q, max)|),
       timeouts := Wrap32(q.timeouts + |list| - |before|))
  }

  // ----- what an acknowledgement leaves

  /** The entries above an acknowledgement, in order. */
  function Above(q: seq<Entry>, a: U32): seq<Entry> {
    if q == [] then []
    else if q[0].seq_ > a then [q[0]] + Above(q[1..], a)
    else Above(q[1..], a)
  }

  ghost predicate Increasing(q: seq<Entry>) {
    forall i, j :: 0 <= i < j < |q| ==> q[i].seq_ < q[j].seq_
  }

  /** No entry above `a` stands in front of one at or below it. */
  ghost predicate Separated(q: seq<Entry>, a: U32) {
    forall i, j :: 0 <= i < j < |q| && q[i].seq_ > a ==> q[j].seq_ > a
  }

  lemma NoneMarked(q: seq<Entry>, a: U32)
    requires forall i :: 0 <= i < |q| ==> q[i].seq_ > a
    ensures Marked(q, a) == q
  {
  }

  lemma {:induction false} AllAbove(q: seq<Entry>, a: U32)
    ensures (forall i :: 0 <= i < |q| ==> q[i].seq_ > a) ==> Above(q, a) == q && Marked(q, a) == q
    ensures |Above(q, a)| <= |q|
    ensures |Above(q, a)| == |q| ==> forall i :: 0 <= i < |q| ==> q[i].seq_ > a
  {
    if q != [] {
      AllAbove(q[1..], a);
      assert q == [q[0]] + q[1..];
    }
    if forall i :: 0 <= i < |q| ==> q[i].seq_ > a { NoneMarked(q, a); }
  }

  /** An acknowledged entry stands behind an unacknowledged one only if its number is the lower. */
  ghost predicate StuckBelow(q: seq<Entry>) {
    forall i, j :: 0 <= i < j < |q| && !q[i].acked && q[j].acked ==> q[i].seq_ > q[j].seq_
  }

  /** What acknowledgements leave behind: the oldest entry is not acknowledged, others may be stuck. */
  ghost predicate Settled(q: seq<Entry>) { (q != [] ==> !q[0].acked) && StuckBelow(q) }

  /** The acknowledged entries at the head are all covered by `a`. */
  ghost predicate HeadCovered(q: seq<Entry>, a: U32) {
    q != [] && q[0].acked ==> q[0].seq_ <= a && HeadCovered(q[1..], a)
  }

  lemma {:induction false} AllCovered(q: seq<Entry>, a: U32)
    requires forall i :: 0 <= i < |q| && q[i].acked ==> q[i].seq_ <= a
    ensures HeadCovered(q, a)
  {
    if q != [] { AllCovered(q[1..], a); }
  }

  lemma {:induction false} DrainLeavesAboveIff(q: seq<Entry>, a: U32)
    requires StuckBelow(q) && HeadCovered(q, a)
    ensures Drained(Marked(q, a)) == Above(q, a) <==> Separated(q, a)
  {
    if q == [] {
    } else if q[0].seq_ > a {
      assert Drained(Marked(q, a)) == Marked(q, a);
      AllAbove(q, a);
      if Separated(q, a) {
        assert forall i :: 0 <= i < |q| ==> q[i].seq_ > a;
      }
    } else {
      assert Marked(q, a)[1..] == Marked(q[1..], a);
      if !q[0].acked { AllCovered(q[1..], a); }
      DrainLeavesAboveIff(q[1..], a);
      SeparatedTail(q, a);
    }
  }

  /**
   An acknowledgement leaves exactly the entries above it if and only if the queue holds none of
   them in front of an entry it covers. Increasing sequence numbers always satisfy this.
   */
  lemma AckLeavesAboveIff(q: seq<Entry>, a: U32)
    requires Settled(q)
    ensures Drained(Marked(q, a)) == Above(q, a) <==> Separated(q, a)
    ensures Increasing(q) ==> Separated(q, a)
  {
    DrainLeavesAboveIff(q, a);
  }

  lemma SeparatedTail(q: seq<Entry>, a: U32)
    requires q != [] && q[0].seq_ <= a
    ensures Separated(q, a) <==> Separated(q[1..], a)
  {
    if Separated(q[1..], a) {
      forall i, j | 0 <= i < j < |q| && q[i].seq_ > a
        ensures q[j].seq_ > a
      {
        assert q[1..][i - 1].seq_ > a && q[1..][j - 1] == q[j];
      }
    }
  }

  /** Once sequence numbers wrap, an acknowledged entry can be stuck behind an unacknowledged one. */
  lemma WrappedSequenceSticks()
    ensures var q := [Entry(0xFFFF_FFFF, 0, 200, false, false, []), Entry(0, 0, 200, false, false, [])];
      !Separated(q, 0) && Drained(Marked(q, 0)) == Marked(q, 0) && Marked(q, 0)[1].acked
  {
    var q := [Entry(0xFFFF_FFFF, 0, 200, false, false, []), Entry(0, 0, 200, false, false, [])];
    assert q[0].seq_ > 0 && q[1].seq_ == 0;
  }

  // ----- every queue the sender can have

  datatype QueueOp =
    | EnqueueOp(seq_: U32, pkt: seq<Byte>, rto: U32, now: U64)
    | AckOp(ack: U32)
    | SackOp(blocks: seq<Block>)
    | DetectOp(now: U64, max: int)

  function AfterOp(q: Queue, op: QueueOp): Queue {
    match op
    case EnqueueOp(s, pkt, rto, now) => AfterEnqueue(q, s, pkt, rto, now)
    case AckOp(a) => AfterAck(q, a)
    case SackOp(blocks) => AfterSack(q, blocks)
    case DetectOp(now, max) => AfterDetect(q, now, max)
  }

  /** Any operations in any order, with any sequence numbers and acknowledgements. */
  function AfterOps(q: Queue, ops: seq<QueueOp>): Queue
    decreases |ops|
  {
    if ops == [] then q else AfterOps(AfterOp(q, ops[0]), ops[1..])
  }

  ghost predicate SameMarks(q: seq<Entry>, r: seq<Entry>) {
    |r| == |q| && forall i {:trigger r[i]} :: 0 <= i < |q| ==> r[i].seq_ == q[i].seq_ && r[i].acked == q[i].acked
  }

  lemma MarksSettle(q: seq<Entry>, r: seq<Entry>)
    requires Settled(q) && SameMarks(q, r)
    ensures Settled(r)
  {
  }

  lemma {:induction false} TimeoutPassMarks(q: seq<Entry>, now: U64, max: int, out: seq<U32>)
    ensures SameMarks(q, TimeoutPass(q, now, max, out).0)
    decreases |q|
  {
    if q != [] && |out| < max {
      var next := if Due(q[0], now, out) then out + [q[0].seq_] else out;
      TimeoutPassMarks(q[1..], now, max, next);
      var r, tail := TimeoutPass(q, now, max, out).0, TimeoutPass(q[1..], now, max, next).0;
      assert forall i {:trigger r[i]} :: 1 <= i < |q| ==> r[i] == tail[i - 1] && q[i] == q[1..][i - 1];
    }
  }

  lemma MarkedStuck(q: seq<Entry>, a: U32)
    requires StuckBelow(q)
    ensures StuckBelow(Marked(q, a))
  {
  }

  lemma {:induction false} DrainedSettles(q: seq<Entry>)
    requires StuckBelow(q)
    ensures Settled(Drained(q))
  {
    if q != [] && q[0].acked { DrainedSettles(q[1..]); }
  }

  lemma OpSettles(q: Queue, op: QueueOp)
    requires Settled(q.live)
    ensures Settled(AfterOp(q, op).live)
  {
    match op
    case EnqueueOp(_, _, _, _) =>
    case AckOp(a) =>
      MarkedStuck(q.live, a);
      DrainedSettles(Marked(q.live, a));
    case SackOp(blocks) =>
      MarksSettle(q.live, AfterSack(q, blocks).live);
    case DetectOp(now, max) =>
      TimeoutPassMarks(q.live, now, max, HoleList(q, now, max));
      MarksSettle(q.live, AfterDetect(q, now, max).live);
  }

  lemma {:induction false} OpsSettle(q: Queue, ops: seq<QueueOp>)
    requires Settled(q.live)
    ensures Settled(AfterOps(q, ops).live)
    decreases |ops|
  {
    if ops != [] {
      OpSettles(q, ops[0]);
      OpsSettle(AfterOp(q, ops[0]), ops[1..]);
    }
  }

  /**
   After any run, with numbers that wrap or repeat and entries already stuck: an acknowledgement leaves
   exactly the entries above it if and only if none of them stands in front of an entry it covers.
   */
  lemma ReachableAckIff(ops: seq<QueueOp>, a: U32)
    ensures var q := AfterOps(EMPTY, ops);
      AfterAck(q, a).live == Above(q.live, a) <==> Separated(q.live, a)
  {
    OpsSettle(EMPTY, ops);
    AckLeavesAboveIff(AfterOps(EMPTY, ops).live, a);
  }

  /** A run that comes to a stuck entry: two packets across the wrap, and the second acknowledged. */
  lemma StuckReachable(pkt: seq<Byte>, rto: U32, now: U64)
    ensures var q := AfterOps(EMPTY, [EnqueueOp(0xFFFF_FFFF, pkt, rto, now), EnqueueOp(0, pkt, rto, now), AckOp(0)]);
      |q.live| == 2 && q.live[0].seq_ == 0xFFFF_FFFF && !q.live[0].acked && q.live[1].acked
  {
    var a, b, c := EnqueueOp(0xFFFF_FFFF, pkt, rto, now), EnqueueOp(0, pkt, rto, now), AckOp(0);
    var q2 := AfterOp(AfterOp(EMPTY, a), b);
    assert [a, b, c][1..] == [b, c] && [b, c][1..] == [c] && [c][1..] == [];
    assert AfterOps(q2, [c]) == AfterOp(q2, c);
    assert AfterOps(AfterOp(EMPTY, a), [b, c]) == AfterOp(q2, c);
    assert Marked(q2.live, 0)[0] == q2.live[0] && Marked(q2.live, 0)[1].acked;
  }

  // ----- duplicate acknowledgements

  /** The same acknowledgement `n` times over. */
  function AfterAcks(q: Queue, a: U32, n: nat): Queue {
    if n == 0 then q else AfterAck(AfterAcks(q, a, n - 1), a)
  }

  lemma {:induction false} NothingMarked(q: seq<Entry>, a: U32)
    requires NewlyAcked(q, a) == 0
    ensures Marked(q, a) == q
    decreases |q|
  {
    if q != [] {
      var n := |q| - 1;
      NothingMarked(q[..n], a);
      assert forall i :: 0 <= i < n ==> Mark(q[i], a) == Marked(q[..n], a)[i] == q[i];
    }
  }

  /**
   Acknowledgements of one number in a row that mark nothing are counted, from the first on: a count
   left over from another number, or cleared by progress, does not matter.
   */
  lemma {:induction false} RepeatedAckCounts(q: Queue, a: U32, n: nat)
    requires q.live != [] && !q.live[0].acked && NewlyAcked(q.live, a) == 0
    requires q.dupCount == 0 || q.dupSeq != a
    requires 0 < n < 0x1_0000_0000
    ensures AfterAcks(q, a, n) == q.(dupSeq := a, dupCount := n)
  {
    NothingMarked(q.live, a);
    if n > 1 {
      RepeatedAckCounts(q, a, n - 1);
    } else {
      assert AfterAcks(q, a, 0) == q;
    }
  }

  // ----- soundness and completeness of loss detection

  ghost predicate ListsPending(q: seq<Entry>, s: U32) {
    exists i :: 0 <= i < |q| && !q[i].acked && !q[i].sacked && q[i].seq_ == s
  }

  ghost predicate ListsHole(q: seq<Entry>, blocks: seq<Block>, now: U64, s: U32) {
    exists i :: 0 <= i < |q| && Hole(q[i], blocks, now) && q[i].seq_ == s
  }

  ghost predicate ListsExpired(q: seq<Entry>, now: U64, s: U32) {
    exists i :: 0 <= i < |q| && !q[i].acked && !q[i].sacked && Wrap32(now - q[i].sentTs) >= q[i].rto && q[i].seq_ == s
  }

  lemma HoleInTail(q: seq<Entry>, blocks: seq<Block>, now: U64, s: U32)
    requires q != [] && ListsHole(q[1..], blocks, now, s)
    ensures ListsHole(q, blocks, now, s)
  {
    var i :| 0 <= i < |q[1..]| && Hole(q[1..][i], blocks, now) && q[1..][i].seq_ == s;
    assert q[i + 1] == q[1..][i];
  }

  lemma ExpiredInTail(q: seq<Entry>, now: U64, s: U32)
    requires q != [] && ListsExpired(q[1..], now, s)
    ensures ListsExpired(q, now, s)
  {
    var i :| 0 <= i < |q[1..]| && Pending(q[1..][i]) && Expired(q[1..][i], now) && q[1..][i].seq_ == s;
    assert q[i + 1] == q[1..][i];
  }

  /** Position `i` holds the first pending entry above the number. */
  ghost predicate FirstAbove(q: seq<Entry>, dupSeq: U32, i: int) {
    0 <= i < |q| && !q[i].acked && !q[i].sacked && q[i].seq_ > dupSeq &&
    forall j :: 0 <= j < i ==> q[j].acked || q[j].sacked || q[j].seq_ <= dupSeq
  }

  /** The first pass lists the first pending entry above the duplicated number, and nothing if there is none. */
  lemma {:induction false} FastPassExact(q: seq<Entry>, dupSeq: U32)
    ensures forall i :: FirstAbove(q, dupSeq, i) ==> FastPass(q, dupSeq) == [q[i].seq_]
    ensures (forall i :: 0 <= i < |q| ==> q[i].acked || q[i].sacked || q[i].seq_ <= dupSeq) ==>
      FastPass(q, dupSeq) == []
    ensures |FastPass(q, dupSeq)| <= 1 && forall s :: s in FastPass(q, dupSeq) ==> ListsPending(q, s)
  {
    if q != [] && !(Pending(q[0]) && q[0].seq_ > dupSeq) {
      var rest := q[1..];
      FastPassExact(rest, dupSeq);
      forall i | FirstAbove(q, dupSeq, i) ensures FastPass(q, dupSeq) == [q[i].seq_] {
        assert forall j :: 0 <= j < i - 1 ==> rest[j] == q[j + 1];
        assert FirstAbove(rest, dupSeq, i - 1);
      }
      forall s | s in FastPass(rest, dupSeq) ensures ListsPending(q, s) {
        var i :| 0 <= i < |rest| && Pending(rest[i]) && rest[i].seq_ == s;
        assert q[i + 1] == rest[i];
      }
    }
  }

  /** From the third repetition on the first pending packet above the acknowledgement heads the list. */
  lemma ThirdDuplicateRetransmits(q: Queue, a: U32, n: nat, now: U64, max: nat, i: int)
    requires q.live != [] && !q.live[0].acked && NewlyAcked(q.live, a) == 0
    requires q.dupCount == 0 || q.dupSeq != a
    requires 3 <= n < 0x1_0000_0000 && 0 < max && FirstAbove(q.live, a, i)
    ensures [q.live[i].seq_] <= LossList(AfterAcks(q, a, n), now, max)
  {
    var r := AfterAcks(q, a, n);
    RepeatedAckCounts(q, a, n);
    FastPassExact(q.live, a);
    HolePassExact(r.live, r.blocks, now, max, FastList(r, max));
    TimeoutPassExact(r.live, now, max, HoleList(r, now, max));
  }

  /** The second pass adds holes only, and all of them if the list stays short. */
  lemma {:induction false} HolePassExact(q: seq<Entry>, blocks: seq<Block>, now: U64, max: int, out: seq<U32>)
    ensures var r := HolePass(q, blocks, now, max, out);
      && out <= r && (|out| <= max ==> |r| <= max)
      && (forall s :: s in r[|out|..] ==> ListsHole(q, blocks, now, s))
      && (|r| < max ==> forall i :: 0 <= i < |q| && Hole(q[i], blocks, now) ==> q[i].seq_ in r)
    decreases |q|
  {
    if q != [] && |out| < max {
      var r, rest := HolePass(q, blocks, now, max, out), q[1..];
      var next := if Hole(q[0], blocks, now) then out + [q[0].seq_] else out;
      HolePassExact(rest, blocks, now, max, next);
      if next != out {
        assert next[|out|] == q[0].seq_ && q[0].seq_ in next;
        assert r[|out|..] == [q[0].seq_] + r[|next|..];
      }
      forall s | s in r[|out|..] ensures ListsHole(q, blocks, now, s) {
        if s in r[|next|..] { HoleInTail(q, blocks, now, s); }
      }
      forall i | |r| < max && 0 <= i < |q| && Hole(q[i], blocks, now) ensures q[i].seq_ in r {
        if i > 0 { assert q[i] == rest[i - 1]; } else { InPrefix(q[0].seq_, next, r); }
      }
    }
  }

  ghost predicate Distinct(s: seq<U32>) { forall i, j :: 0 <= i < j < |s| ==> s[i] != s[j] }

  lemma DistinctCons(x: U32, s: seq<U32>)
    requires Distinct(s) && x !in s
    ensures Distinct([x] + s)
  {
  }

  lemma InPrefix(x: U32, p: seq<U32>, s: seq<U32>)
    requires p <= s && x in p
    ensures x in s
  {
    var i :| 0 <= i < |p| && p[i] == x;
    assert s[i] == x;
  }

  lemma {:induction false} TimeoutPassExtends(q: seq<Entry>, now: U64, max: int, out: seq<U32>)
    ensures out <= TimeoutPass(q, now, max, out).1
    ensures |out| <= max ==> |TimeoutPass(q, now, max, out).1| <= max
    decreases |q|
  {
    if q != [] && |out| < max {
      TimeoutPassExtends(q[1..], now, max, if Due(q[0], now, out) then out + [q[0].seq_] else out);
    }
  }

  /** What the pass adds: the number of the first entry, if due, and what it adds for the others. */
  lemma TimeoutPassAdds(q: seq<Entry>, now: U64, max: int, out: seq<U32>)
    requires q != [] && |out| < max
    ensures var next := if Due(q[0], now, out) then out + [q[0].seq_] else out;
      var list, tail := TimeoutPass(q, now, max, out).1, TimeoutPass(q[1..], now, max, next).1;
      list == tail && out <= next <= list && list[|out|..] == next[|out|..] + list[|next|..]
  {
    var next := if Due(q[0], now, out) then out + [q[0].seq_] else out;
    TimeoutPassExtends(q[1..], now, max, next);
  }

  lemma {:induction false} TimeoutPassSound(q: seq<Entry>, now: U64, max: int, out: seq<U32>)
    ensures var list := TimeoutPass(q, now, max, out).1;
      && out <= list && Distinct(list[|out|..])
      && (forall s {:trigger s in list[|out|..]} :: s in list[|out|..] ==> s !in out && ListsExpired(q, now, s))
    decreases |q|
  {
    TimeoutPassExtends(q, now, max, out);
    if q != [] && |out| < max {
      var list := TimeoutPass(q, now, max, out).1;
      var next := if Due(q[0], now, out) then out + [q[0].seq_] else out;
      TimeoutPassSound(q[1..], now, max, next);
      TimeoutPassAdds(q, now, max, out);
      if next != out {
        assert next[|out|..] == [q[0].seq_] && q[0].seq_ in next;
        DistinctCons(q[0].seq_, list[|next|..]);
      }
      forall s {:trigger s in list[|out|..]} | s in list[|out|..] ensures s !in out && ListsExpired(q, now, s) {
        if s in list[|next|..] { ExpiredInTail(q, now, s); }
      }
    }
  }

  lemma {:induction false} TimeoutPassComplete(q: seq<Entry>, now: U64, max: int, out: seq<U32>, i: nat)
    requires |TimeoutPass(q, now, max, out).1| < max && i < |q| && Pending(q[i]) && Expired(q[i], now)
    ensures q[i].seq_ in TimeoutPass(q, now, max, out).1
    decreases |q|
  {
    TimeoutPassExtends(q, now, max, out);
    TimeoutPassAdds(q, now, max, out);
    var next := if Due(q[0], now, out) then out + [q[0].seq_] else out;
    if i == 0 {
      assert next != out ==> next[|out|] == q[0].seq_;
      InPrefix(q[0].seq_, next, TimeoutPass(q, now, max, out).1);
    } else {
      TimeoutPassComplete(q[1..], now, max, next, i - 1);
    }
  }

  /**
   The timeout pass extends the list by distinct sequence numbers that were not in it, each of a
   pending expired entry; if the list stays short, no pending expired entry is missing.
   */
  lemma TimeoutPassExact(q: seq<Entry>, now: U64, max: int, out: seq<U32>)
    ensures var list := TimeoutPass(q, now, max, out).1;
      && out <= list && (|out| <= max ==> |list| <= max)
      && (forall s :: s in list[|out|..] ==> s !in out && ListsExpired(q, now, s))
      && Distinct(list[|out|..])
      && (|list| < max ==> forall i :: 0 <= i < |q| && Pending(q[i]) && Expired(q[i], now) ==> q[i].seq_ in list)
  {
    TimeoutPassExtends(q, now, max, out);
    TimeoutPassSound(q, now, max, out);
    var list := TimeoutPass(q, now, max, out).1;
    forall i | |list| < max && 0 <= i < |q| && Pending(q[i]) && Expired(q[i], now) ensures q[i].seq_ in list {
      TimeoutPassComplete(q, now, max, out, i);
    }
  }

  lemma HeadNotListed(q: seq<Entry>, now: U64, max: int, out: seq<U32>)
    requires q != [] && Increasing(q)
    ensures var list := TimeoutPass(q[1..], now, max, out).1; out <= list && q[0].seq_ !in list[|out|..]
  {
    var rest := q[1..];
    TimeoutPassExact(rest, now, max, out);
    var list := TimeoutPass(rest, now, max, out).1;
    forall s | s in list[|out|..] ensures s != q[0].seq_ {
      var j :| 0 <= j < |rest| && rest[j].seq_ == s;
      assert rest[j] == q[j + 1];
    }
  }

  /** With increasing numbers the pass restarts exactly the entries it lists, and leaves the others alone. */
  lemma {:induction false} TimeoutPassRestarts(q: seq<Entry>, now: U64, max: int, out: seq<U32>)
    requires Increasing(q)
    ensures var r := TimeoutPass(q, now, max, out);
      forall i :: 0 <= i < |q| ==> r.0[i] == if q[i].seq_ in r.1[|out|..] then Restart(q[i], now) else q[i]
    decreases |q|
  {
    if q != [] && |out| < max {
      var r, rest := TimeoutPass(q, now, max, out), q[1..];
      var next := if Due(q[0], now, out) then out + [q[0].seq_] else out;
      TimeoutPassRestarts(rest, now, max, next);
      HeadNotListed(q, now, max, next);
      var tail := TimeoutPass(rest, now, max, next);
      if next != out {
        assert next[|out|] == q[0].seq_;
        assert r.1[|out|..] == [q[0].seq_] + r.1[|next|..];
      }
      forall i | 0 <= i < |q|
        ensures r.0[i] == if q[i].seq_ in r.1[|out|..] then Restart(q[i], now) else q[i]
      {
        if i > 0 { assert q[i] == rest[i - 1] && r.0[i] == tail.0[i - 1] && q[0].seq_ < q[i].seq_; }
      }
    }
  }

  /**
   Soundness and completeness of loss detection: at most `max` sequence numbers, each of a live
   pending entry; if there are fewer than `max`, every pending entry whose age reached its timeout
   is among them; the timeout pass adds expired entries only, and no number that is already listed.
   */
  lemma LossListExact(q: Queue, now: U64, max: int)
    requires 0 <= max
    ensures var list, before := LossList(q, now, max), HoleList(q, now, max);
      && |list| <= max
      && (forall s :: s in list ==> ListsPending(q.live, s))
      && (|list| < max ==>
            forall i :: 0 <= i < |q.live| && !q.live[i].acked && !q.live[i].sacked ==>
              Wrap32(now - q.live[i].sentTs) >= q.live[i].rto ==> q.live[i].seq_ in list)
      && before <= list && Distinct(list[|before|..])
      && (forall s :: s in list[|before|..] ==> s !in before && ListsExpired(q.live, now, s))
  {
    FastPassExact(q.live, q.dupSeq);
    var first, before, list := FastList(q, max), HoleList(q, now, max), LossList(q, now, max);
    HolePassExact(q.live, q.blocks, now, max, first);
    TimeoutPassExact(q.live, now, max, before);
    forall s | s in list ensures ListsPending(q.live, s) {
      InParts(s, before, list);
      if s in list[|before|..] {
        assert ListsExpired(q.live, now, s);
      } else {
        InParts(s, first, before);
        assert s in first || ListsHole(q.live, q.blocks, now, s);
      }
    }
  }

  lemma InParts(x: U32, p: seq<U32>, s: seq<U32>)
    requires p <= s && x in s
    ensures x in p || x in s[|p|..]
  {
    assert s == p + s[|p|..];
  }

  /** The truncated age is the true age as long as that is below 2^32 milliseconds. */
  lemma AgeExact(sent: U64, now: U64)
    requires sent <= now < sent + TWO32
    ensures Age(now, Wrap32(sent)) == now - sent
  {
  }

  // ----- timeouts

  lemma Scaled(a: nat, b: nat)
    requires 0 < a
    ensures b <= a * b && (2 * a) * b == 2 * (a * b)
  {
    assert a * b == b + (a - 1) * b;
  }

  /** One more timeout doubles min(60000, 2^k * rto). */
  lemma BackoffDoubles(rto: U32, k: nat)
    requires 200 <= rto <= 60000
    ensures 200 <= Min(60000, Pow2(k) * rto)
    ensures Backoff(Min(60000, Pow2(k) * rto)) == Min(60000, Pow2(k + 1) * rto)
  {
    Scaled(Pow2(k), rto);
    var p := Pow2(k) * rto;
    assert Pow2(k + 1) * rto == 2 * p;
  }

  /**
   The timeout computed from the smoothed RTT: section 2 of RFC 6298 with a granularity of 200 ms,
   kept within [200, 60000].
   */
  function CalcRto(srtt: U32, rttVar: U32): (rto: U32)
    ensures 200 <= rto <= 60000
    ensures srtt + Max(200, 4 * rttVar) < TWO32 ==> rto == Max(200, Min(60000, srtt + Max(200, 4 * rttVar)))
  {
    var rto := Wrap32(srtt + (if rttVar > 50 then Wrap32(4 * rttVar) else 200));
    var low := if rto < 200 then 200 else rto;
    if low > 60000 then 60000 else low
  }
}
