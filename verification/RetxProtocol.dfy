/**
 The retransmission engine against a lossy network: acknowledgements and packets may be lost,
 delayed, reordered and duplicated arbitrarily, and the receiver is truthful. A message once in the
 network stays there for ever, so any delivery order, repetition or loss is a run.
 */
module RetxProtocol {
  import opened Words
  import opened RetxSpec
  import opened RetxLaws
  import Cubic

  datatype World = World(
    tx: Queue,
    /** The congestion controller of the connection, which supplies the timeouts. */
    cc: Cubic.State,
    /** The timeout each queued packet started with, and how often the timeout pass has listed it since. */
    first: map<U32, U32>,
    fired: map<U32, nat>,
    /** The bytes each queued packet was transmitted with. */
    packets: map<U32, seq<Byte>>,
    /** Every sequence number transmitted so far, in order. */
    sent: seq<U32>,
    /** Those whose packet was queued for retransmission. */
    tracked: set<U32>,
    /** What the receiver has. */
    received: set<U32>,
    acks: set<U32>,
    sacks: set<seq<Block>>)

  function Start(mss: U32): World { World(EMPTY, Cubic.Initial(mss), map[], map[], map[], [], {}, {}, {}, {}) }

  datatype Step =
    | Control(event: Cubic.Event, next: Cubic.State)
    | Transmit(seq_: U32, pkt: seq<Byte>, now: U64, queued: bool)
    | Arrive(seq_: U32)
    | SendAck(ack: U32)
    | SendSack(blocks: seq<Block>)
    | DeliverAck(ack: U32)
    | DeliverSack(blocks: seq<Block>)
    | DetectLoss(now: U64, max: nat)

  predicate Newer(w: World, s: U32) { w.sent == [] || w.sent[|w.sent| - 1] < s }

  /** Everything transmitted in [lo, hi) has been received, and nothing new will fall into it. */
  ghost predicate Complete(w: World, lo: int, hi: int) {
    && (w.sent != [] && hi - 1 <= w.sent[|w.sent| - 1])
    && (forall s :: s in w.sent && lo <= s < hi ==> s in w.received)
  }

  ghost predicate TruthfulAck(w: World, a: U32) { Complete(w, 0, a + 1) }

  ghost predicate TruthfulSack(w: World, blocks: seq<Block>) {
    forall j :: 0 <= j < |blocks| ==> Complete(w, blocks[j].left, blocks[j].right)
  }

  ghost predicate Enabled(w: World, step: Step) {
    match step
    case Control(e, next) => Cubic.Step(w.cc, e, next)
    case Transmit(s, _, _, queued) => Newer(w, s) && (queued ==> |w.tx.live| < 4096)
    case Arrive(s) => s in w.sent
    case SendAck(a) => TruthfulAck(w, a)
    case SendSack(blocks) => TruthfulSack(w, blocks)
    case DeliverAck(a) => a in w.acks
    case DeliverSack(blocks) => blocks in w.sacks
    case DetectLoss(_, _) => true
  }

  /** The numbers the timeout pass adds to the list. */
  function TimedOut(q: Queue, now: U64, max: nat): seq<U32> {
    LossList(q, now, max)[|HoleList(q, now, max)|..]
  }

  /** One more timeout for each of the listed numbers. */
  function Fired(fired: map<U32, nat>, list: seq<U32>): map<U32, nat> {
    map s | s in fired :: fired[s] + if s in list then 1 else 0
  }

  /** A packet that is not queued was unreliable, met a full queue, or failed to allocate. */
  function Next(w: World, step: Step): World {
    match step
    case Control(_, next) => w.(cc := next)
    case Transmit(s, pkt, now, queued) =>
      var v := w.(sent := w.sent + [s]);
      if queued then
        v.(tracked := w.tracked + {s}, tx := AfterEnqueue(w.tx, s, pkt, w.cc.rto, now),
           first := w.first[s := w.cc.rto], fired := w.fired[s := 0], packets := w.packets[s := pkt])
      else v
    case Arrive(s) => w.(received := w.received + {s})
    case SendAck(a) => w.(acks := w.acks + {a})
    case SendSack(blocks) => w.(sacks := w.sacks + {blocks})
    case DeliverAck(a) => w.(tx := AfterAck(w.tx, a))
    case DeliverSack(blocks) => w.(tx := AfterSack(w.tx, blocks))
    case DetectLoss(now, max) =>
      w.(tx := AfterDetect(w.tx, now, max), fired := Fired(w.fired, TimedOut(w.tx, now, max)))
  }

  ghost predicate Reachable(w: World, steps: seq<Step>)
    decreases |steps|
  {
    if steps == [] then exists mss: U32 :: w == Start(mss)
    else
      var last := steps[|steps| - 1];
      exists v :: Reachable(v, steps[..|steps| - 1]) && Enabled(v, last) && w == Next(v, last)
  }

  // ----- the invariant

  ghost predicate IsLive(q: seq<Entry>, s: U32) { exists i :: 0 <= i < |q| && q[i].seq_ == s }

  /** A timeout that started at `first` and has been doubled `k` times, up to the limit. */
  predicate Timer(rto: U32, first: U32, k: nat) {
    200 <= first <= 60000 && 200 <= rto <= 60000 && rto == Min(60000, Pow2(k) * first)
  }

  ghost predicate GoodEntry(w: World, e: Entry) {
    && e.seq_ in w.tracked && !e.acked
    && (e.sacked ==> e.seq_ in w.received)
    && e.seq_ in w.first && e.seq_ in w.fired
    && Timer(e.rto, w.first[e.seq_], w.fired[e.seq_])
    && e.seq_ in w.packets && e.pkt == w.packets[e.seq_]
  }

  ghost predicate Ordered(s: seq<U32>) { forall i, j :: 0 <= i < j < |s| ==> s[i] < s[j] }

  ghost predicate Invariant(w: World) {
    && 200 <= w.cc.rto <= 60000
    && Ordered(w.sent)
    && (forall s :: s in w.tracked ==> s in w.sent)
    && (forall s :: s in w.received ==> s in w.sent)
    && |w.tx.live| <= 4096
    && Increasing(w.tx.live)
    && (forall i :: 0 <= i < |w.tx.live| ==> GoodEntry(w, w.tx.live[i]))
    && (forall s :: s in w.tracked ==> IsLive(w.tx.live, s) || s in w.received)
    && (forall a :: a in w.acks ==> TruthfulAck(w, a))
    && (forall b: seq<Block> :: b in w.sacks ==> TruthfulSack(w, b))
  }

  lemma SentBounded(s: seq<U32>, x: U32)
    requires Ordered(s) && x in s
    ensures x <= s[|s| - 1]
  {
  }

  /** Once everything up to a bound has been received this stays so. */
  lemma CompleteStable(w: World, lo: int, hi: int, s: U32)
    requires Complete(w, lo, hi) && Newer(w, s)
    ensures Complete(w.(sent := w.sent + [s]), lo, hi)
  {
  }

  lemma TransmitKeeps(w: World, step: Step)
    requires Invariant(w) && step.Transmit? && Enabled(w, step)
    ensures Invariant(Next(w, step))
  {
    var s, v := step.seq_, Next(w, step);
    assert s !in w.sent by { if s in w.sent { SentBounded(w.sent, s); } }
    forall x | x in v.sent ensures x in w.sent || x == s {}
    forall a | a in v.acks ensures TruthfulAck(v, a) {
      assert TruthfulAck(w, a);
      CompleteStable(w, 0, a + 1, s);
    }
    forall b: seq<Block> | b in v.sacks ensures TruthfulSack(v, b) {
      assert TruthfulSack(w, b);
      forall j | 0 <= j < |b| ensures Complete(v, b[j].left, b[j].right) {
        CompleteStable(w, b[j].left, b[j].right, s);
      }
    }
    QueueTransmitKeeps(w, step);
  }

  lemma QueueTransmitKeeps(w: World, step: Step)
    requires Invariant(w) && step.Transmit? && Enabled(w, step) && step.seq_ !in w.sent
    ensures var v := Next(w, step);
      && |v.tx.live| <= 4096 && Increasing(v.tx.live)
      && (forall i :: 0 <= i < |v.tx.live| ==> GoodEntry(v, v.tx.live[i]))
      && (forall s :: s in v.tracked ==> IsLive(v.tx.live, s) || s in v.received)
  {
    var s, v := step.seq_, Next(w, step);
    var n := |w.tx.live|;
    forall i | 0 <= i < n ensures w.tx.live[i].seq_ < s && GoodEntry(v, w.tx.live[i]) {
      assert GoodEntry(w, w.tx.live[i]);
      SentBounded(w.sent, w.tx.live[i].seq_);
    }
    forall x | x in v.tracked ensures IsLive(v.tx.live, x) || x in v.received {
      if x in w.tracked {
        if IsLive(w.tx.live, x) {
          var i :| 0 <= i < n && w.tx.live[i].seq_ == x;
          assert v.tx.live[i].seq_ == x;
        }
      } else {
        assert v.tx.live[n].seq_ == x;
      }
    }
  }

  /** A step of the sender keeps the invariant if it keeps the part about the queue. */
  lemma QueueChangeKeeps(w: World, v: World)
    requires Invariant(w) && v == w.(tx := v.tx, fired := v.fired)
    requires |v.tx.live| <= 4096 && Increasing(v.tx.live)
    requires forall i :: 0 <= i < |v.tx.live| ==> GoodEntry(v, v.tx.live[i])
    requires forall s :: s in v.tracked ==> IsLive(v.tx.live, s) || s in v.received
    ensures Invariant(v)
  {
    forall a | a in v.acks ensures TruthfulAck(v, a) { assert TruthfulAck(w, a); }
    forall b: seq<Block> | b in v.sacks ensures TruthfulSack(v, b) {
      assert TruthfulSack(w, b);
      forall j | 0 <= j < |b| ensures Complete(v, b[j].left, b[j].right) {
        assert Complete(w, b[j].left, b[j].right);
      }
    }
  }

  /** In a state satisfying the invariant an acknowledgement leaves exactly the entries above it. */
  lemma AckExact(w: World, a: U32)
    requires Invariant(w)
    ensures AfterAck(w.tx, a).live == Above(w.tx.live, a)
  {
    var q := w.tx.live;
    forall i | 0 <= i < |q| ensures !q[i].acked { assert GoodEntry(w, q[i]); }
    AckLeavesAboveIff(q, a);
  }

  /** What an acknowledgement releases was received; everything else stays live. */
  lemma ReleasedIsReceived(w: World, a: U32, s: U32)
    requires Invariant(w) && a in w.acks && s in w.tracked
    ensures IsLive(Above(w.tx.live, a), s) || s in w.received
  {
    var q := w.tx.live;
    assert TruthfulAck(w, a);
    if IsLive(q, s) && s > a {
      var j :| 0 <= j < |q| && q[j].seq_ == s;
      var i := AboveHas(q, a, j);
    }
  }

  lemma AckKeeps(w: World, a: U32)
    requires Invariant(w) && a in w.acks
    ensures Invariant(Next(w, DeliverAck(a)))
  {
    var q, v := w.tx.live, Next(w, DeliverAck(a));
    AckExact(w, a);
    AboveIncreasing(q, a);
    forall i | 0 <= i < |v.tx.live| ensures GoodEntry(v, v.tx.live[i]) {
      var j := AboveFrom(q, a, i);
      assert GoodEntry(w, q[j]);
    }
    forall s | s in v.tracked ensures IsLive(v.tx.live, s) || s in v.received {
      ReleasedIsReceived(w, a, s);
    }
    QueueChangeKeeps(w, v);
  }

  lemma {:induction false} AboveFrom(q: seq<Entry>, a: U32, i: nat) returns (j: nat)
    requires i < |Above(q, a)|
    ensures j < |q| && q[j] == Above(q, a)[i]
  {
    if q[0].seq_ <= a {
      j := AboveFrom(q[1..], a, i);
      j := j + 1;
    } else if i == 0 {
      j := 0;
    } else {
      j := AboveFrom(q[1..], a, i - 1);
      j := j + 1;
    }
  }

  lemma {:induction false} AboveHas(q: seq<Entry>, a: U32, j: nat) returns (i: nat)
    requires j < |q| && q[j].seq_ > a
    ensures i < |Above(q, a)| && Above(q, a)[i] == q[j]
  {
    if j == 0 {
      i := 0;
    } else {
      i := AboveHas(q[1..], a, j - 1);
      if q[0].seq_ > a { i := i + 1; }
    }
  }

  lemma {:induction false} AboveIncreasing(q: seq<Entry>, a: U32)
    requires Increasing(q)
    ensures |Above(q, a)| <= |q| && Increasing(Above(q, a))
  {
    if q != [] {
      AboveIncreasing(q[1..], a);
      var r := Above(q[1..], a);
      forall i | 0 <= i < |r| ensures q[0].seq_ < r[i].seq_ {
        var j := AboveFrom(q[1..], a, i);
        assert r[i] == q[j + 1];
      }
    }
  }

  lemma SackKeeps(w: World, blocks: seq<Block>)
    requires Invariant(w) && blocks in w.sacks
    ensures Invariant(Next(w, DeliverSack(blocks)))
  {
    var q, kept := w.tx.live, Kept(blocks);
    var v := Next(w, DeliverSack(blocks));
    assert TruthfulSack(w, blocks);
    assert |v.tx.live| == |q| && forall i :: 0 <= i < |q| ==> v.tx.live[i] == Sack(q[i], kept);
    forall i | 0 <= i < |q| ensures GoodEntry(v, v.tx.live[i]) {
      assert GoodEntry(w, q[i]);
      if Covered(q[i].seq_, kept) {
        var j :| 0 <= j < |kept| && kept[j].left <= q[i].seq_ < kept[j].right;
        assert blocks[j] == kept[j];
        assert Complete(w, blocks[j].left, blocks[j].right);
      }
    }
    SameSeqsSameLive(w, v);
  }

  /** Steps that change flags and timers but not which sequence numbers are queued. */
  lemma SameSeqsSameLive(w: World, v: World)
    requires Invariant(w) && |v.tx.live| == |w.tx.live| && v == w.(tx := v.tx, fired := v.fired)
    requires forall i :: 0 <= i < |v.tx.live| ==> v.tx.live[i].seq_ == w.tx.live[i].seq_
    requires forall i :: 0 <= i < |v.tx.live| ==> GoodEntry(v, v.tx.live[i])
    ensures Invariant(v)
  {
    forall s | s in v.tracked ensures IsLive(v.tx.live, s) || s in v.received {
      if IsLive(w.tx.live, s) {
        var i :| 0 <= i < |w.tx.live| && w.tx.live[i].seq_ == s;
        assert v.tx.live[i].seq_ == s;
      }
    }
    QueueChangeKeeps(w, v);
  }

  lemma TimerFires(rto: U32, first: U32, k: nat)
    requires Timer(rto, first, k)
    ensures Timer(Backoff(rto), first, k + 1)
  {
    BackoffDoubles(first, k);
    BackoffDoubles(first, k + 1);
  }

  /** What loss detection does to one entry. */
  lemma DetectEntry(w: World, now: U64, max: nat, i: nat)
    requires Increasing(w.tx.live) && i < |w.tx.live| && GoodEntry(w, w.tx.live[i])
    ensures var v := Next(w, DetectLoss(now, max));
      |v.tx.live| == |w.tx.live| && v.tx.live[i].seq_ == w.tx.live[i].seq_ && GoodEntry(v, v.tx.live[i])
  {
    var e := w.tx.live[i];
    TimeoutPassRestarts(w.tx.live, now, max, HoleList(w.tx, now, max));
    TimerFires(e.rto, w.first[e.seq_], w.fired[e.seq_]);
  }

  lemma DetectKeeps(w: World, now: U64, max: nat)
    requires Invariant(w)
    ensures Invariant(Next(w, DetectLoss(now, max)))
  {
    var v := Next(w, DetectLoss(now, max));
    forall i | 0 <= i < |w.tx.live|
      ensures v.tx.live[i].seq_ == w.tx.live[i].seq_ && GoodEntry(v, v.tx.live[i])
    {
      DetectEntry(w, now, max, i);
    }
    SameSeqsSameLive(w, v);
  }

  /** Steps of the receiver and of the congestion controller do not touch the queue. */
  lemma ReceiverKeeps(w: World, step: Step)
    requires Invariant(w) && Enabled(w, step)
    requires step.Arrive? || step.SendAck? || step.SendSack? || step.Control?
    ensures Invariant(Next(w, step))
  {
    var v := Next(w, step);
    if step.Control? { Cubic.TimeoutInRange(w.cc, step.event, step.next); }
    forall i | 0 <= i < |v.tx.live| ensures GoodEntry(v, v.tx.live[i]) { assert GoodEntry(w, w.tx.live[i]); }
    forall a | a in v.acks ensures TruthfulAck(v, a) { assert TruthfulAck(w, a); }
    forall b: seq<Block> | b in v.sacks ensures TruthfulSack(v, b) {
      assert TruthfulSack(w, b);
      forall j | 0 <= j < |b| ensures Complete(v, b[j].left, b[j].right) {
        assert Complete(w, b[j].left, b[j].right);
      }
    }
  }

  lemma StepKeepsInvariant(w: World, step: Step)
    requires Invariant(w) && Enabled(w, step)
    ensures Invariant(Next(w, step))
  {
    match step
    case Control(_, _) => ReceiverKeeps(w, step);
    case Transmit(_, _, _, _) => TransmitKeeps(w, step);
    case DeliverAck(a) => AckKeeps(w, a);
    case DeliverSack(blocks) => SackKeeps(w, blocks);
    case DetectLoss(now, max) => DetectKeeps(w, now, max);
    case Arrive(_) => ReceiverKeeps(w, step);
    case SendAck(_) => ReceiverKeeps(w, step);
    case SendSack(_) => ReceiverKeeps(w, step);
  }

  lemma {:induction false} ReachableInvariant(w: World, steps: seq<Step>)
    requires Reachable(w, steps)
    ensures Invariant(w)
    decreases |steps|
  {
    if steps != [] {
      var last := steps[|steps| - 1];
      var v :| Reachable(v, steps[..|steps| - 1]) && Enabled(v, last) && w == Next(v, last);
      ReachableInvariant(v, steps[..|steps| - 1]);
      StepKeepsInvariant(v, last);
    }
  }

  // ----- the theorems

  lemma ReachableQueue(w: World, steps: seq<Step>)
    requires Reachable(w, steps)
    ensures Increasing(w.tx.live)
    ensures forall i {:trigger w.tx.live[i]} :: 0 <= i < |w.tx.live| ==> GoodEntry(w, w.tx.live[i])
  {
    ReachableInvariant(w, steps);
  }

  /**
   Safety over every run: a queued sequence number is still live or already received, and nothing is
   marked acknowledged or selectively acknowledged before the receiver has it.
   */
  lemma ProtocolSafety(w: World, steps: seq<Step>)
    requires Reachable(w, steps)
    ensures forall s :: s in w.tracked ==> IsLive(w.tx.live, s) || s in w.received
    ensures forall i :: 0 <= i < |w.tx.live| ==>
      w.tx.live[i].acked || w.tx.live[i].sacked ==> w.tx.live[i].seq_ in w.received
    ensures |w.tx.live| <= 4096 && Increasing(w.tx.live)
  {
    ReachableInvariant(w, steps);
    forall i | 0 <= i < |w.tx.live| ensures GoodEntry(w, w.tx.live[i]) {}
  }

  /**
   In every reachable state each queued entry started with a timeout in [200, 60000], taken from the
   congestion controller when it was queued, and after k timeouts has min(60000, 2^k times that).
   */
  lemma ReachableTimeouts(w: World, steps: seq<Step>, i: nat)
    requires Reachable(w, steps) && i < |w.tx.live|
    ensures var e := w.tx.live[i];
      e.seq_ in w.first && e.seq_ in w.fired && 200 <= w.first[e.seq_] <= 60000 && 200 <= e.rto <= 60000 &&
      e.rto == Min(60000, Pow2(w.fired[e.seq_]) * w.first[e.seq_])
  {
    ReachableQueue(w, steps);
    assert GoodEntry(w, w.tx.live[i]);
  }

  /** In every reachable state each queued entry holds the bytes its packet was transmitted with. */
  lemma ReachablePackets(w: World, steps: seq<Step>, i: nat)
    requires Reachable(w, steps) && i < |w.tx.live|
    ensures w.tx.live[i].seq_ in w.packets && w.tx.live[i].pkt == w.packets[w.tx.live[i].seq_]
  {
    ReachableQueue(w, steps);
    assert GoodEntry(w, w.tx.live[i]);
  }

  /** In every reachable state an acknowledgement leaves exactly the entries above it. */
  lemma ReachableAckExact(w: World, steps: seq<Step>, a: U32)
    requires Reachable(w, steps)
    ensures AfterAck(w.tx, a).live == Above(w.tx.live, a)
  {
    ReachableInvariant(w, steps);
    AckExact(w, a);
  }

  /**
   Nothing is forgotten: in every reachable state a queued packet the receiver still lacks is a
   pending entry, and once its age reaches its timeout loss detection with room to spare asks for it.
   */
  lemma MissingPacketRetransmitted(w: World, steps: seq<Step>, s: U32, now: U64, max: nat) returns (i: nat)
    requires Reachable(w, steps) && s in w.tracked && s !in w.received
    ensures i < |w.tx.live| && w.tx.live[i].seq_ == s && !w.tx.live[i].acked && !w.tx.live[i].sacked
    ensures Wrap32(now - w.tx.live[i].sentTs) >= w.tx.live[i].rto && |LossList(w.tx, now, max)| < max ==>
      s in LossList(w.tx, now, max)
  {
    i := MissingPacketPending(w, steps, s);
    ExpiredListed(w.tx, now, max, i);
  }

  lemma MissingPacketPending(w: World, steps: seq<Step>, s: U32) returns (i: nat)
    requires Reachable(w, steps) && s in w.tracked && s !in w.received
    ensures i < |w.tx.live| && w.tx.live[i].seq_ == s && !w.tx.live[i].acked && !w.tx.live[i].sacked
  {
    ReachableInvariant(w, steps);
    i :| 0 <= i < |w.tx.live| && w.tx.live[i].seq_ == s;
    assert GoodEntry(w, w.tx.live[i]);
  }

  lemma ExpiredListed(q: Queue, now: U64, max: nat, i: nat)
    requires i < |q.live| && !q.live[i].acked && !q.live[i].sacked
    ensures Wrap32(now - q.live[i].sentTs) >= q.live[i].rto && |LossList(q, now, max)| < max ==>
      q.live[i].seq_ in LossList(q, now, max)
  {
    LossListExact(q, now, max);
  }

  /** Loss detection never asks again for a packet the sender knows to be received. */
  lemma RetransmitsOnlyUnconfirmed(w: World, steps: seq<Step>, now: U64, max: nat, s: U32)
    requires Reachable(w, steps) && s in LossList(w.tx, now, max)
    ensures s in w.tracked
    ensures forall i :: 0 <= i < |w.tx.live| && w.tx.live[i].seq_ == s ==>
      !w.tx.live[i].acked && !w.tx.live[i].sacked
  {
    var i := ListedAt(w.tx, now, max, s);
    ReachableEntry(w, steps, i);
  }

  lemma ReachableEntry(w: World, steps: seq<Step>, i: nat)
    requires Reachable(w, steps) && i < |w.tx.live|
    ensures w.tx.live[i].seq_ in w.tracked
    ensures forall j {:trigger w.tx.live[j]} ::
      0 <= j < |w.tx.live| && w.tx.live[j].seq_ == w.tx.live[i].seq_ ==> j == i
  {
    ReachableQueue(w, steps);
    assert GoodEntry(w, w.tx.live[i]);
  }

  lemma ListedAt(q: Queue, now: U64, max: nat, s: U32) returns (i: nat)
    requires s in LossList(q, now, max)
    ensures i < |q.live| && Pending(q.live[i]) && q.live[i].seq_ == s
  {
    LossListExact(q, now, max);
    assert ListsPending(q.live, s);
    i :| 0 <= i < |q.live| && Pending(q.live[i]) && q.live[i].seq_ == s;
  }

  // ----- what the receiver has confirmed stays confirmed

  ghost predicate CanRun(w: World, steps: seq<Step>)
    decreases |steps|
  {
    steps == [] || (Enabled(w, steps[0]) && CanRun(Next(w, steps[0]), steps[1..]))
  }

  function AfterSteps(w: World, steps: seq<Step>): World
    decreases |steps|
  {
    if steps == [] then w else AfterSteps(Next(w, steps[0]), steps[1..])
  }

  /** The number was transmitted before, and if it is still queued it is marked. */
  ghost predicate Confirmed(w: World, s: U32) {
    w.sent != [] && s <= w.sent[|w.sent| - 1] &&
    forall i {:trigger w.tx.live[i]} :: 0 <= i < |w.tx.live| && w.tx.live[i].seq_ == s ==> w.tx.live[i].sacked
  }

  lemma StepKeepsConfirmed(w: World, step: Step, s: U32)
    requires Invariant(w) && Enabled(w, step) && Confirmed(w, s)
    ensures Confirmed(Next(w, step), s)
  {
    var q, v := w.tx.live, Next(w, step);
    forall i {:trigger v.tx.live[i]} | 0 <= i < |v.tx.live| && v.tx.live[i].seq_ == s ensures v.tx.live[i].sacked {
      match step
      case DeliverAck(a) =>
        AckExact(w, a);
        var j := AboveFrom(q, a, i);
      case DeliverSack(blocks) => SackExact(w.tx, blocks, i);
      case DetectLoss(now, max) => EntriesAfterPass(q, now, max, HoleList(w.tx, now, max), i);
      case _ =>
    }
  }

  lemma {:induction false} RunKeepsConfirmed(w: World, steps: seq<Step>, s: U32)
    requires Invariant(w) && CanRun(w, steps) && Confirmed(w, s)
    ensures Confirmed(AfterSteps(w, steps), s)
    decreases |steps|
  {
    if steps != [] {
      StepKeepsConfirmed(w, steps[0], s);
      StepKeepsInvariant(w, steps[0]);
      RunKeepsConfirmed(Next(w, steps[0]), steps[1..], s);
    }
  }

  lemma ConfirmedNotListed(w: World, s: U32, now: U64, max: nat)
    requires Confirmed(w, s)
    ensures s !in LossList(w.tx, now, max)
  {
    LossListExact(w.tx, now, max);
  }

  /**
   Once a selective acknowledgement that reports a packet among its first four blocks has been delivered, no
   loss detection of any continuation asks for that packet again.
   */
  lemma SackedNeverRetransmitted(w: World, steps: seq<Step>, blocks: seq<Block>, s: U32, rest: seq<Step>,
                                 now: U64, max: nat)
    requires Reachable(w, steps) && blocks in w.sacks && Reported(s, blocks)
    requires CanRun(Next(w, DeliverSack(blocks)), rest)
    ensures s !in LossList(AfterSteps(Next(w, DeliverSack(blocks)), rest).tx, now, max)
  {
    ReachableInvariant(w, steps);
    var v := Next(w, DeliverSack(blocks));
    SackKeeps(w, blocks);
    SackConfirms(w, blocks, s);
    RunKeepsConfirmed(v, rest, s);
    ConfirmedNotListed(AfterSteps(v, rest), s, now, max);
  }

  lemma SackConfirms(w: World, blocks: seq<Block>, s: U32)
    requires Invariant(w) && blocks in w.sacks && Reported(s, blocks)
    ensures Confirmed(Next(w, DeliverSack(blocks)), s)
  {
    assert TruthfulSack(w, blocks);
    var j :| 0 <= j < 4 && j < |blocks| && blocks[j].left <= s < blocks[j].right;
    assert Complete(w, blocks[j].left, blocks[j].right);
    var v := Next(w, DeliverSack(blocks));
    forall i {:trigger v.tx.live[i]} | 0 <= i < |v.tx.live| && v.tx.live[i].seq_ == s ensures v.tx.live[i].sacked {
      SackExact(w.tx, blocks, i);
      assert GoodEntry(w, w.tx.live[i]);
    }
  }
}
