/**
 The 4096-slot circular retransmission queue. Free-running 32-bit counters index the slots, each
 live slot owns one heap copy of its packet, and every operation refines the specification on the
 sequence of live entries.
 */
module RetxQueue {
  import opened Words
  import opened RetxSpec
  import HeaderCodec
  import Cubic

  /** A slot of the circular buffer; `pkt` is the pointer to its packet copy, None for NULL. */
  datatype Slot = Slot(seq_: U32, sentTs: U32, rto: U32, acked: bool, sacked: bool, pkt: Option<nat>, pktLen: U16)

  /** A counter after one increment, wrapping at 2^32. */
  function Inc(x: U32): U32 { if x == 0xFFFF_FFFF then 0 else x + 1 }

  /** The slot a counter stands for. */
  function SlotIndex(idx: U32): (k: nat)
    ensures k < 4096
  {
    idx % 4096
  }

  /** The head counter after `i` increments. */
  ghost function Counter(head: U32, i: nat): U32 { if i == 0 then head else Inc(Counter(head, i - 1)) }

  lemma {:induction false} CounterSum(head: U32, i: nat)
    ensures Counter(head, i) == Wrap32(head + i)
  {
    if i > 0 { CounterSum(head, i - 1); }
  }

  lemma {:induction false} CounterShift(head: U32, i: nat)
    ensures Counter(Inc(head), i) == Counter(head, i + 1)
  {
    if i > 0 { CounterShift(head, i - 1); }
  }

  /** Slot of the entry `i` places behind the head. */
  ghost function At(head: U32, i: nat): (k: nat)
    ensures k < 4096
  {
    SlotIndex(Counter(head, i))
  }

  lemma AtSum(head: U32, i: nat)
    ensures At(head, i) == (head + i) % 4096
  {
    CounterSum(head, i);
    WrapKeepsSlot(head + i);
  }

  lemma WrapKeepsSlot(x: int)
    ensures Wrap32(x) % 4096 == x % 4096
  {
  }

  ghost predicate Aligned(view: seq<Slot>, s: seq<Slot>, head: U32, i: nat) {
    i < |view| && At(head, i) < |s| && view[i] == s[At(head, i)]
  }

  /** `view` lists the slots in queue order, starting at the head. */
  ghost predicate InOrder(view: seq<Slot>, s: seq<Slot>, head: U32) {
    |view| == 4096 && |s| == 4096 && forall i: nat :: i < 4096 ==> Aligned(view, s, head, i)
  }

  lemma InOrderUpdate(view: seq<Slot>, s: seq<Slot>, head: U32, k: nat, slot: Slot)
    requires InOrder(view, s, head) && k < 4096
    ensures InOrder(view[k := slot], s[At(head, k) := slot], head)
  {
    var view', s' := view[k := slot], s[At(head, k) := slot];
    forall i: nat | i < 4096 ensures Aligned(view', s', head, i) {
      assert Aligned(view, s, head, i);
      if At(head, i) == At(head, k) { AtInjective(head, i, k); }
    }
  }

  lemma AtInjective(head: U32, i: nat, j: nat)
    requires i < 4096 && j < 4096 && At(head, i) == At(head, j)
    ensures i == j
  {
    AtSum(head, i);
    AtSum(head, j);
  }

  lemma InOrderAdvance(view: seq<Slot>, s: seq<Slot>, head: U32)
    requires InOrder(view, s, head)
    ensures InOrder(view[1..] + [view[0]], s, Inc(head))
  {
    var view', head' := view[1..] + [view[0]], Inc(head);
    forall i: nat | i < 4096 ensures Aligned(view', s, head', i) {
      AtShift(head, i);
      assert Aligned(view, s, head, if i < 4095 then i + 1 else 0);
    }
  }

  lemma FullTurn(x: int)
    ensures (x + 4096) % 4096 == x % 4096
  {
  }

  lemma AtShift(head: U32, i: nat)
    requires i < 4096
    ensures At(Inc(head), i) == At(head, if i < 4095 then i + 1 else 0)
  {
    CounterShift(head, i);
    AtSum(head, 4096);
    AtSum(head, 0);
    FullTurn(head);
  }

  ghost predicate Holds(slot: Slot, heap: map<nat, seq<Byte>>) {
    slot.pkt.Some? && slot.pkt.value in heap && |heap[slot.pkt.value]| == slot.pktLen
  }

  /**
   Ownership, on slots in queue order: the live ones hold pairwise different allocated copies, the
   dead ones hold none, and every allocated copy belongs to a live slot, so nothing leaks and
   nothing is freed twice.
   */
  ghost predicate Owned(r: seq<Slot>, count: nat, heap: map<nat, seq<Byte>>) {
    && count <= |r|
    && (forall i {:trigger Holds(r[i], heap)} :: 0 <= i < count ==> Holds(r[i], heap))
    && (forall i {:trigger Vacant(r, i)} :: count <= i < |r| ==> Vacant(r, i))
    && (forall i, j {:trigger Apart(r, i, j)} :: 0 <= i < j < count ==> Apart(r, i, j))
    && (forall p {:trigger HasOwner(r, count, p)} :: p in heap ==> HasOwner(r, count, p))
  }

  ghost predicate Vacant(r: seq<Slot>, i: int) { 0 <= i < |r| && r[i].pkt == None }

  ghost predicate Apart(r: seq<Slot>, i: int, j: int) { 0 <= i < |r| && 0 <= j < |r| && r[i].pkt != r[j].pkt }

  ghost predicate HasOwner(r: seq<Slot>, count: nat, p: nat) {
    exists i :: 0 <= i < count <= |r| && r[i].pkt == Some(p)
  }

  ghost function EntryOf(slot: Slot, heap: map<nat, seq<Byte>>): Entry
    requires Holds(slot, heap)
  {
    Entry(slot.seq_, slot.sentTs, slot.rto, slot.acked, slot.sacked, heap[slot.pkt.value])
  }

  /** The live entries, oldest first. */
  ghost function LiveOf(r: seq<Slot>, count: nat, heap: map<nat, seq<Byte>>): (q: seq<Entry>)
    requires Owned(r, count, heap)
    ensures |q| == count
  {
    seq(count, i requires 0 <= i < count => assert Holds(r[i], heap); EntryOf(r[i], heap))
  }

  lemma OwnedAppend(r: seq<Slot>, count: nat, heap: map<nat, seq<Byte>>, slot: Slot, pkt: seq<Byte>)
    requires Owned(r, count, heap) && count < |r|
    requires slot.pkt.Some? && slot.pkt.value !in heap && slot.pktLen == |pkt|
    ensures var r', heap' := r[count := slot], heap[slot.pkt.value := pkt];
      && Owned(r', count + 1, heap')
      && LiveOf(r', count + 1, heap') == LiveOf(r, count, heap) + [EntryOf(slot, heap')]
  {
    var r', heap' := r[count := slot], heap[slot.pkt.value := pkt];
    forall i | 0 <= i < count + 1 ensures Holds(r'[i], heap') {
      if i < count { assert Holds(r[i], heap); }
    }
    forall i | count + 1 <= i < |r'| ensures Vacant(r', i) {
      assert Vacant(r, i);
    }
    forall i, j | 0 <= i < j < count + 1 ensures Apart(r', i, j) {
      assert Holds(r[i], heap);
      if j < count { assert Apart(r, i, j); }
    }
    forall p | p in heap' ensures HasOwner(r', count + 1, p) {
      if p == slot.pkt.value { assert r'[count].pkt == Some(p); } else { KeepsOwner(r, count, r', count + 1, p); }
    }
    assert forall i :: 0 <= i < count ==> Holds(r[i], heap) && EntryOf(r'[i], heap') == EntryOf(r[i], heap);
  }

  lemma KeepsOwner(r: seq<Slot>, count: nat, r': seq<Slot>, count': nat, p: nat)
    requires HasOwner(r, count, p) && count <= count' <= |r'| && |r'| == |r|
    requires forall i :: 0 <= i < count ==> r'[i].pkt == r[i].pkt
    ensures HasOwner(r', count', p)
  {
    var i :| 0 <= i < count && r[i].pkt == Some(p);
    assert r'[i].pkt == Some(p);
  }

  /** Changes to a slot that is not live are not seen, as long as it still owns nothing. */
  lemma OwnedScribble(r: seq<Slot>, count: nat, heap: map<nat, seq<Byte>>, slot: Slot)
    requires Owned(r, count, heap) && count < |r| && slot.pkt == None
    ensures var r' := r[count := slot];
      Owned(r', count, heap) && LiveOf(r', count, heap) == LiveOf(r, count, heap)
  {
    var r' := r[count := slot];
    assert forall i :: 0 <= i < count ==> r'[i] == r[i];
    forall i | 0 <= i < count ensures Holds(r'[i], heap) { assert Holds(r[i], heap); }
    forall i | count <= i < |r'| ensures Vacant(r', i) { assert Vacant(r, i); }
    forall i, j | 0 <= i < j < count ensures Apart(r', i, j) { assert Apart(r, i, j); }
    forall p | p in heap ensures HasOwner(r', count, p) { KeepsOwner(r, count, r', count, p); }
  }

  lemma OwnedUpdate(r: seq<Slot>, count: nat, heap: map<nat, seq<Byte>>, k: nat, slot: Slot)
    requires Owned(r, count, heap) && k < count
    requires slot.pkt == r[k].pkt && slot.pktLen == r[k].pktLen
    ensures Holds(slot, heap)
    ensures var r' := r[k := slot];
      && Owned(r', count, heap)
      && LiveOf(r', count, heap) == LiveOf(r, count, heap)[k := EntryOf(slot, heap)]
  {
    var r' := r[k := slot];
    assert Holds(r[k], heap);
    assert forall i :: 0 <= i < |r| ==> r'[i].pkt == r[i].pkt;
    forall i | 0 <= i < count ensures Holds(r'[i], heap) { assert Holds(r[i], heap); }
    forall i | count <= i < |r'| ensures Vacant(r', i) { assert Vacant(r, i); }
    forall i, j | 0 <= i < j < count ensures Apart(r', i, j) { assert Apart(r, i, j); }
    forall p | p in heap ensures HasOwner(r', count, p) { KeepsOwner(r, count, r', count, p); }
  }

  lemma OwnedPop(r: seq<Slot>, count: nat, heap: map<nat, seq<Byte>>)
    requires Owned(r, count, heap) && 0 < count
    ensures Holds(r[0], heap)
    ensures var r', heap' := r[1..] + [r[0].(pkt := None)], heap - {r[0].pkt.value};
      && Owned(r', count - 1, heap')
      && LiveOf(r', count - 1, heap') == LiveOf(r, count, heap)[1..]
  {
    assert Holds(r[0], heap);
    var r', heap' := r[1..] + [r[0].(pkt := None)], heap - {r[0].pkt.value};
    assert forall i :: 0 <= i < |r| - 1 ==> r'[i] == r[i + 1];
    forall i | 0 <= i < count - 1 ensures Holds(r'[i], heap') {
      assert Holds(r[i + 1], heap) && Apart(r, 0, i + 1);
    }
    forall i | count - 1 <= i < |r'| ensures Vacant(r', i) {
      if i < |r| - 1 { assert Vacant(r, i + 1); }
    }
    forall i, j | 0 <= i < j < count - 1 ensures Apart(r', i, j) {
      assert Apart(r, i + 1, j + 1);
    }
    forall p | p in heap' ensures HasOwner(r', count - 1, p) {
      assert HasOwner(r, count, p);
      var i :| 0 <= i < count && r[i].pkt == Some(p);
      assert r'[i - 1].pkt == Some(p);
    }
    forall i | 0 <= i < count - 1 ensures EntryOf(r'[i], heap') == LiveOf(r, count, heap)[i + 1] {
      assert Holds(r'[i], heap');
    }
  }

  /** The entries when the first `i` have been marked. */
  ghost function MarkedTo(q: seq<Entry>, a: U32, i: nat): (r: seq<Entry>)
    ensures |r| == |q|
  {
    seq(|q|, j requires 0 <= j < |q| => if j < i then Mark(q[j], a) else q[j])
  }

  lemma MarkedStep(q: seq<Entry>, a: U32, i: nat)
    requires i < |q|
    ensures MarkedTo(q, a, i)[i] == q[i]
    ensures MarkedTo(q, a, i + 1) == MarkedTo(q, a, i)[i := Mark(q[i], a)]
    ensures NewlyAcked(q[..i + 1], a) == NewlyAcked(q[..i], a) + if !q[i].acked && q[i].seq_ <= a then 1 else 0
  {
    assert q[..i + 1][..i] == q[..i];
  }

  lemma MarkedEnds(q: seq<Entry>, a: U32)
    ensures MarkedTo(q, a, 0) == q && MarkedTo(q, a, |q|) == Marked(q, a) && q[..|q|] == q
  {
  }

  ghost function SackedTo(q: seq<Entry>, blocks: seq<Block>, i: nat): (r: seq<Entry>)
    ensures |r| == |q|
  {
    seq(|q|, j requires 0 <= j < |q| => if j < i then Sack(q[j], blocks) else q[j])
  }

  lemma SackedStep(q: seq<Entry>, blocks: seq<Block>, i: nat)
    requires i < |q|
    ensures SackedTo(q, blocks, i)[i] == q[i]
    ensures SackedTo(q, blocks, i + 1) == SackedTo(q, blocks, i)[i := Sack(q[i], blocks)]
    ensures NewlySacked(q[..i + 1], blocks) == NewlySacked(q[..i], blocks) + if Sack(q[i], blocks) != q[i] then 1 else 0
  {
    assert q[..i + 1][..i] == q[..i];
  }

  lemma SackedEnds(q: seq<Entry>, blocks: seq<Block>)
    ensures SackedTo(q, blocks, 0) == q && SackedTo(q, blocks, |q|) == Sacked(q, blocks) && q[..|q|] == q
  {
  }

  class Retx {
    const slots: array<Slot>
    var head: U32
    var tail: U32
    var count: U32
    var dupCount: U32
    var dupSeq: U32
    var sackBlocks: seq<Block>
    var fast: U32
    var timeouts: U32
    /** Packet copies this queue has allocated and not freed. */
    ghost var heap: map<nat, seq<Byte>>
    /** The slots in queue order. */
    ghost var view: seq<Slot>
    /** The queued entries, oldest first. */
    ghost var live: seq<Entry>

    ghost predicate Valid()
      reads `head, `tail, `count, `sackBlocks, `heap, `view, `live, slots
    {
      && slots.Length == 4096 && |sackBlocks| <= 4
      && tail == Counter(head, count)
      && InOrder(view, slots[..], head)
      && Owned(view, count, heap) && live == LiveOf(view, count, heap)
    }

    ghost function Value(): Queue
      reads this
    {
      Queue(live, dupCount, dupSeq, sackBlocks, fast, timeouts)
    }

    constructor ()
      ensures Valid() && Value() == EMPTY && fresh(slots)
    {
      slots := new Slot[4096](_ => Slot(0, 0, 0, false, false, None, 0));
      sackBlocks := [];
      head, tail, count, dupCount, dupSeq, fast, timeouts := 0, 0, 0, 0, 0, 0, 0;
      heap := map[];
      view := seq(4096, _ => Slot(0, 0, 0, false, false, None, 0));
      live := [];
    }

    /** `free`: a copy is released at most once, and releasing NULL does nothing. */
    ghost method Free(p: Option<nat>)
      requires p.Some? ==> p.value in heap
      modifies `heap
      ensures heap == if p.Some? then old(heap) - {p.value} else old(heap)
    {
      if p.Some? { heap := heap - {p.value}; }
    }

    /** Fills the first dead slot, which is the one at the tail. */
    method Fill(e: Slot)
      requires Valid() && count < 4096
      modifies slots, `view, `live
      ensures view == old(view)[count := e] && InOrder(view, slots[..], head) && live == old(live)
    {
      InOrderUpdate(view, slots[..], head, count, e);
      ghost var after := slots[..][SlotIndex(tail) := e];
      slots[SlotIndex(tail)] := e;
      assert slots[..] == after;
      view := view[count := e];
    }

    /** `malloc` is asked once a slot is free; `alloc` is its answer, None for NULL. */
    method Enqueue(seq_: U32, pkt: seq<Byte>, rto: U32, now: U64, alloc: Option<nat>) returns (ok: bool)
      requires Valid() && |pkt| < 0x1_0000 && (alloc.Some? ==> alloc.value !in heap)
      modifies this, slots
      ensures Valid()
      ensures ok <==> old(count) < 4096 && alloc.Some?
      ensures Value() == if ok then AfterEnqueue(old(Value()), seq_, pkt, rto, now) else old(Value())
    {
      if count >= 4096 { return false; }
      var e := Slot(seq_, Wrap32(now), rto, false, false, alloc, |pkt|);
      assert Aligned(view, slots[..], head, count) && Vacant(view, count);
      Free(slots[SlotIndex(tail)].pkt);
      if alloc.None? {
        OwnedScribble(view, count, heap, e);
        Fill(e);
        return false;
      }
      OwnedAppend(view, count, heap, e, pkt);
      Fill(e);
      heap := heap[alloc.value := pkt];
      live := LiveOf(view, count + 1, heap);
      tail := Inc(tail);
      count := count + 1;
      return true;
    }

    /**
     Packets long enough to carry a header are queued only when it asks for reliable delivery, with the
     timeout the congestion controller has at that moment.
     */
    method RecordSent(seq_: U32, pkt: seq<Byte>, cubic: Cubic.Controller, now: U64, alloc: Option<nat>)
      returns (ok: bool)
      requires Valid() && |pkt| < 0x1_0000 && (alloc.Some? ==> alloc.value !in heap)
      modifies this, slots
      ensures Valid()
      ensures Reliable(pkt) ==> (ok <==> old(count) < 4096 && alloc.Some?)
      ensures !Reliable(pkt) ==> ok
      ensures Value() ==
        if Reliable(pkt) && ok then AfterEnqueue(old(Value()), seq_, pkt, cubic.rto, now) else old(Value())
    {
      if |pkt| >= 32 {
        var hdr := HeaderCodec.Fields32(pkt);
        if hdr.flags / 16 % 2 == 0 { return true; }
      }
      ok := Enqueue(seq_, pkt, cubic.rto, now, alloc);
    }

    /** Reads the live entry `i` through its counter. */
    method Get(idx: U32, ghost i: nat) returns (e: Slot)
      requires Valid() && i < count && idx == Counter(head, i)
      ensures e == view[i] && Holds(e, heap) && EntryOf(e, heap) == live[i]
    {
      assert Aligned(view, slots[..], head, i) && Holds(view[i], heap);
      e := slots[SlotIndex(idx)];
    }

    /** Overwrites the flags of the live entry `i`. */
    method SetLive(idx: U32, ghost i: nat, e: Slot)
      requires Valid() && i < count && idx == Counter(head, i)
      requires e.pkt == view[i].pkt && e.pktLen == view[i].pktLen
      modifies slots, `view, `live
      ensures Valid() && Holds(e, heap) && live == old(live)[i := EntryOf(e, heap)]
    {
      OwnedUpdate(view, count, heap, i, e);
      InOrderUpdate(view, slots[..], head, i, e);
      ghost var after := slots[..][SlotIndex(idx) := e];
      slots[SlotIndex(idx)] := e;
      assert slots[..] == after;
      view := view[i := e];
      live := live[i := EntryOf(e, heap)];
    }

    /** Frees the copy of the oldest entry and advances the head. */
    method PopHead()
      requires Valid() && 0 < count
      modifies `head, `count, `heap, `view, `live, slots
      ensures Valid() && live == old(live)[1..]
    {
      assert Aligned(view, slots[..], head, 0);
      var e := slots[SlotIndex(head)];
      OwnedPop(view, count, heap);
      InOrderUpdate(view, slots[..], head, 0, e.(pkt := None));
      ghost var after := slots[..][SlotIndex(head) := e.(pkt := None)];
      InOrderAdvance(view[0 := e.(pkt := None)], after, head);
      Free(e.pkt);
      slots[SlotIndex(head)] := e.(pkt := None);
      assert slots[..] == after;
      assert view[0 := e.(pkt := None)][1..] == view[1..];
      view := view[1..] + [e.(pkt := None)];
      CounterShift(head, count - 1);
      head := Inc(head);
      count := count - 1;
      live := live[1..];
    }

    method MarkOne(idx: U32, ghost i: nat, a: U32) returns (marked: bool)
      requires Valid() && i < count && idx == Counter(head, i)
      modifies slots, `view, `live
      ensures Valid() && live == old(live)[i := Mark(old(live)[i], a)]
      ensures marked <==> !old(live)[i].acked && old(live)[i].seq_ <= a
    {
      var e := Get(idx, i);
      marked := !e.acked && e.seq_ <= a;
      if marked { SetLive(idx, i, e.(acked := true)); }
    }

    method SackOne(idx: U32, ghost i: nat, blocks: seq<Block>) returns (marked: bool)
      requires Valid() && i < count && idx == Counter(head, i)
      modifies slots, `view, `live
      ensures Valid() && live == old(live)[i := Sack(old(live)[i], blocks)]
      ensures marked <==> Sack(old(live)[i], blocks) != old(live)[i]
    {
      var e := Get(idx, i);
      if e.acked || e.sacked { return false; }
      marked := InBlocks(e.seq_, blocks);
      if marked { SetLive(idx, i, e.(sacked := true)); }
    }

    /** One entry of the marking scan over what was `q`. */
    method MarkNext(idx: U32, ghost i: nat, a: U32, ghost q: seq<Entry>, acked: nat) returns (n: nat)
      requires Valid() && i < count == |q| && idx == Counter(head, i) && live == MarkedTo(q, a, i)
      requires acked == NewlyAcked(q[..i], a)
      modifies slots, `view, `live
      ensures Valid() && live == MarkedTo(q, a, i + 1) && n == NewlyAcked(q[..i + 1], a)
    {
      MarkedStep(q, a, i);
      var new_ := MarkOne(idx, i, a);
      n := if new_ then acked + 1 else acked;
    }

    method SackNext(idx: U32, ghost i: nat, blocks: seq<Block>, ghost q: seq<Entry>, sacked: nat) returns (n: nat)
      requires Valid() && i < count == |q| && idx == Counter(head, i) && live == SackedTo(q, blocks, i)
      requires sacked == NewlySacked(q[..i], blocks)
      modifies slots, `view, `live
      ensures Valid() && live == SackedTo(q, blocks, i + 1) && n == NewlySacked(q[..i + 1], blocks)
    {
      SackedStep(q, blocks, i);
      var new_ := SackOne(idx, i, blocks);
      n := if new_ then sacked + 1 else sacked;
    }

    method MarkAcked(a: U32) returns (acked: nat)
      requires Valid()
      modifies slots, `view, `live
      ensures Valid() && live == Marked(old(live), a)
      ensures acked == NewlyAcked(old(live), a)
    {
      acked := 0;
      ghost var q := live;
      MarkedEnds(q, a);
      var i: nat, idx: U32 := 0, head;
      while i < count
        modifies slots, `view, `live
        invariant 0 <= i <= count && idx == Counter(head, i)
        invariant Valid() && |q| == count && live == MarkedTo(q, a, i)
        invariant acked == NewlyAcked(q[..i], a)
      {
        acked := MarkNext(idx, i, a, q, acked);
        idx := Inc(idx);
        i := i + 1;
      }
    }

    method DrainHead()
      requires Valid()
      modifies `head, `count, `heap, `view, `live, slots
      ensures Valid() && live == Drained(old(live))
    {
      ghost var q := live;
      while count > 0
        modifies `head, `count, `heap, `view, `live, slots
        invariant Valid() && Drained(live) == Drained(q)
      {
        var e := Get(head, 0);
        if !e.acked { break; }
        PopHead();
      }
    }

    method ProcessAck(a: U32) returns (acked: nat)
      requires Valid()
      modifies this, slots
      ensures Valid() && Value() == AfterAck(old(Value()), a)
      ensures acked == NewlyAcked(old(live), a)
    {
      acked := MarkAcked(a);
      DrainHead();
      TrackDuplicates(acked, a);
    }

    method TrackDuplicates(acked: nat, a: U32)
      modifies `dupCount, `dupSeq
      ensures if acked == 0 && count > 0 then
                dupSeq == a && dupCount == if a == old(dupSeq) then Wrap32(old(dupCount) + 1) else 1
              else dupSeq == old(dupSeq) && dupCount == 0
    {
      if acked == 0 && count > 0 {
        if a == dupSeq {
          dupCount := Wrap32(dupCount + 1);
        } else {
          dupSeq := a;
          dupCount := 1;
        }
      } else {
        dupCount := 0;
      }
    }

    method MarkSacked(blocks: seq<Block>) returns (sacked: nat)
      requires Valid()
      modifies slots, `view, `live
      ensures Valid() && live == Sacked(old(live), blocks)
      ensures sacked == NewlySacked(old(live), blocks)
    {
      sacked := 0;
      ghost var q := live;
      SackedEnds(q, blocks);
      var i: nat, idx: U32 := 0, head;
      while i < count
        modifies slots, `view, `live
        invariant 0 <= i <= count && idx == Counter(head, i)
        invariant Valid() && |q| == count && live == SackedTo(q, blocks, i)
        invariant sacked == NewlySacked(q[..i], blocks)
      {
        sacked := SackNext(idx, i, blocks, q, sacked);
        idx := Inc(idx);
        i := i + 1;
      }
    }

    method ProcessSack(blocks: seq<Block>) returns (sacked: nat)
      requires Valid()
      modifies this, slots
      ensures Valid() && Value() == AfterSack(old(Value()), blocks)
      ensures sacked == NewlySacked(old(live), Kept(blocks))
    {
      sackBlocks := Kept(blocks);
      sacked := MarkSacked(sackBlocks);
    }

    /** First pass: one packet just after the duplicated acknowledgement. */
    method FastRetransmit(retrans: array<U32>, max: int) returns (n: nat)
      requires Valid() && max <= retrans.Length
      modifies retrans, `dupCount, `fast
      ensures n <= retrans.Length && retrans[..n] == FastList(old(Value()), max)
      ensures dupCount == (if old(dupCount) >= 3 then 0 else old(dupCount)) && fast == Wrap32(old(fast) + n)
    {
      n := 0;
      if dupCount >= 3 {
        var i: nat, idx: U32 := 0, head;
        while i < count && n < max
          modifies retrans, `fast
          invariant 0 <= i <= count && idx == Counter(head, i) && n == 0 && fast == old(fast)
          invariant FastPass(live, dupSeq) == FastPass(live[i..], dupSeq)
        {
          var e := Get(idx, i);
          if !e.acked && !e.sacked && e.seq_ > dupSeq {
            retrans[n] := e.seq_;
            n := n + 1;
            fast := Wrap32(fast + 1);
            break;
          }
          idx := Inc(idx);
          i := i + 1;
        }
        dupCount := 0;
      }
    }

    /** Second pass: pending entries below some selectively acknowledged range. */
    method HoleRetransmit(now: U64, retrans: array<U32>, max: int, already: nat) returns (n: nat)
      requires Valid() && max <= retrans.Length && already <= retrans.Length
      modifies retrans
      ensures already <= n <= retrans.Length
      ensures sackBlocks == [] ==> retrans[..n] == old(retrans[..already])
      ensures sackBlocks != [] ==> retrans[..n] == HolePass(live, sackBlocks, now, max, old(retrans[..already]))
    {
      n := already;
      if |sackBlocks| > 0 {
        ghost var out := retrans[..already];
        var i: nat, idx: U32 := 0, head;
        while i < count && n < max
          modifies retrans
          invariant 0 <= i <= count && idx == Counter(head, i) && already <= n <= retrans.Length
          invariant HolePass(live, sackBlocks, now, max, out) == HolePass(live[i..], sackBlocks, now, max, retrans[..n])
        {
          var e := Get(idx, i);
          assert live[i..][0] == live[i] && live[i..][1..] == live[i + 1..];
          if !e.acked && !e.sacked {
            var beyond := SackBeyond(e.seq_, sackBlocks);
            if beyond && Age(now, e.sentTs) >= e.rto / 2 {
              ghost var before := retrans[..n];
              retrans[n] := e.seq_;
              n := n + 1;
              assert retrans[..n] == before + [e.seq_];
            }
          }
          idx := Inc(idx);
          i := i + 1;
        }
      }
    }

    /** Third pass: pending entries whose age reached their timeout, with exponential backoff. */
    method TimeoutRetransmit(now: U64, retrans: array<U32>, max: int, already: nat) returns (n: nat)
      requires Valid() && max <= retrans.Length && already <= retrans.Length
      modifies retrans, slots, `view, `live, `timeouts
      ensures Valid() && already <= n <= retrans.Length
      ensures (live, retrans[..n]) == TimeoutPass(old(live), now, max, old(retrans[..already]))
      ensures timeouts == Wrap32(old(timeouts) + (n - already))
    {
      n := already;
      ghost var q, out := live, retrans[..already];
      RemainingStarts(live, now, max, out);
      var i: nat, idx: U32 := 0, head;
      while i < count && n < max
        modifies retrans, slots, `view, `live, `timeouts
        invariant 0 <= i <= count && idx == Counter(head, i) && already <= n <= retrans.Length
        invariant Valid()
        invariant timeouts == Counter(old(timeouts), n - already)
        invariant |live| == count == |q|
        invariant Remaining(live, i, now, max, retrans[..n]) == TimeoutPass(q, now, max, out)
      {
        n := TimeoutStepAt(now, idx, i, retrans, max, n, old(timeouts), already);
        idx := Inc(idx);
        i := i + 1;
      }
      CounterSum(old(timeouts), n - already);
      RemainingDone(live, i, now, max, retrans[..n]);
    }

    /** One step of the third pass; `start` is the counter of timeouts at its beginning, `already` the length then. */
    method TimeoutStepAt(now: U64, idx: U32, ghost i: nat, retrans: array<U32>, ghost max: int, n: nat,
                         ghost start: U32, ghost already: nat) returns (m: nat)
      requires Valid() && i < count && idx == Counter(head, i) && n < retrans.Length && n < max
      requires already <= n && timeouts == Counter(start, n - already)
      modifies retrans, slots, `view, `live, `timeouts
      ensures Valid() && n <= m <= n + 1
      ensures timeouts == Counter(start, m - already)
      ensures Remaining(live, i + 1, now, max, retrans[..m]) == old(Remaining(live, i, now, max, retrans[..n]))
    {
      TimeoutStep(live, i, now, max, retrans[..n]);
      ghost var before := retrans[..n];
      var due := TimeoutOne(now, idx, i, retrans, n);
      if due {
        assert retrans[..n + 1] == before + [retrans[n]];
        timeouts := Inc(timeouts);
        return n + 1;
      }
      return n;
    }

    /** One entry of the timeout pass; a number already listed is not listed again. */
    method TimeoutOne(now: U64, idx: U32, ghost i: nat, retrans: array<U32>, n: nat) returns (due: bool)
      requires Valid() && i < count && idx == Counter(head, i) && n < retrans.Length
      modifies retrans, slots, `view, `live
      ensures Valid()
      ensures due <==> Due(old(live)[i], now, old(retrans[..n]))
      ensures live == if due then old(live)[i := Restart(old(live)[i], now)] else old(live)
      ensures retrans[..n] == old(retrans[..n]) && (due ==> retrans[n] == old(live)[i].seq_)
    {
      var e := Get(idx, i);
      if e.acked || e.sacked { return false; }
      if Age(now, e.sentTs) < e.rto { return false; }
      var already := Listed(e.seq_, retrans, n);
      if already { return false; }
      retrans[n] := e.seq_;
      SetLive(idx, i, e.(rto := Backoff(e.rto), sentTs := Wrap32(now)));
      return true;
    }

    method DetectLoss(now: U64, retrans: array<U32>, max: int) returns (n: nat)
      requires Valid() && max <= retrans.Length
      modifies this, slots, retrans
      ensures Valid() && n <= retrans.Length
      ensures retrans[..n] == LossList(old(Value()), now, max)
      ensures Value() == AfterDetect(old(Value()), now, max)
    {
      var fastCount := FastRetransmit(retrans, max);
      var holeCount := HoleRetransmit(now, retrans, max, fastCount);
      n := TimeoutRetransmit(now, retrans, max, holeCount);
    }
  }

  /** The result of the timeout pass when the first `i` entries are done and the rest is still to do. */
  ghost function Remaining(l: seq<Entry>, i: nat, now: U64, max: int, out: seq<U32>): (seq<Entry>, seq<U32>)
    requires i <= |l|
  {
    var r := TimeoutPass(l[i..], now, max, out);
    (l[..i] + r.0, r.1)
  }

  lemma RemainingStarts(l: seq<Entry>, now: U64, max: int, out: seq<U32>)
    ensures Remaining(l, 0, now, max, out) == TimeoutPass(l, now, max, out)
  {
    assert l[0..] == l;
    assert l[..0] + TimeoutPass(l, now, max, out).0 == TimeoutPass(l, now, max, out).0;
  }

  lemma RemainingDone(l: seq<Entry>, i: nat, now: U64, max: int, out: seq<U32>)
    requires i <= |l| && (i == |l| || |out| >= max)
    ensures Remaining(l, i, now, max, out) == (l, out)
  {
    assert l[..i] + l[i..] == l;
  }

  lemma TimeoutStep(l: seq<Entry>, i: nat, now: U64, max: int, out: seq<U32>)
    requires i < |l| && |out| < max
    ensures var due := Due(l[i], now, out);
      var l' := if due then l[i := Restart(l[i], now)] else l;
      var out' := if due then out + [l[i].seq_] else out;
      Remaining(l', i + 1, now, max, out') == Remaining(l, i, now, max, out)
  {
    assert l[i..][0] == l[i] && l[i..][1..] == l[i + 1..];
    var due := Due(l[i], now, out);
    var l' := if due then l[i := Restart(l[i], now)] else l;
    var out' := if due then out + [l[i].seq_] else out;
    assert l'[i + 1..] == l[i + 1..];
    var r := TimeoutPass(l[i + 1..], now, max, out');
    assert l'[..i + 1] == l[..i] + [l'[i]];
    assert l'[..i + 1] + r.0 == l[..i] + ([l'[i]] + r.0);
  }

  method Listed(s: U32, retrans: array<U32>, n: nat) returns (already: bool)
    requires n <= retrans.Length
    ensures already <==> s in retrans[..n]
  {
    for j := 0 to n
      invariant s !in retrans[..j]
    {
      if retrans[j] == s { return true; }
    }
    return false;
  }

  method SackBeyond(s: U32, blocks: seq<Block>) returns (beyond: bool)
    ensures beyond <==> exists j :: 0 <= j < |blocks| && blocks[j].left > s
  {
    for j := 0 to |blocks|
      invariant forall m :: 0 <= m < j ==> blocks[m].left <= s
    {
      if blocks[j].left > s { return true; }
    }
    return false;
  }

  method InBlocks(s: U32, blocks: seq<Block>) returns (hit: bool)
    ensures hit <==> Covered(s, blocks)
  {
    for j := 0 to |blocks|
      invariant !Covered(s, blocks[..j])
    {
      assert blocks[..j + 1] == blocks[..j] + [blocks[j]];
      if blocks[j].left <= s < blocks[j].right { return true; }
    }
    assert blocks[..|blocks|] == blocks;
    return false;
  }

  predicate Reliable(pkt: seq<Byte>) {
    |pkt| < 32 || HeaderCodec.Fields32(pkt).flags / 16 % 2 == 1
  }

  /** The request for reliable delivery is bit 4 of byte 27; a packet too short to carry it is queued. */
  lemma ReliableBit(pkt: seq<Byte>)
    ensures Reliable(pkt) <==> |pkt| < 32 || pkt[27] as int / 16 % 2 == 1
  {
    if |pkt| >= 32 {
      var pair := pkt[26..28];
      HeaderCodec.PairValue(pair);
      FlagBit(HeaderCodec.Fields32(pkt).flags, pair[0] as int, pair[1] as int);
    }
  }

  lemma FlagBit(flags: nat, hi: nat, lo: nat)
    requires flags == 256 * hi + lo && lo < 256
    ensures flags / 16 % 2 == lo / 16 % 2
  {
    assert flags / 16 == 16 * hi + lo / 16;
  }
}
