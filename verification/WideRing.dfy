/**
 The header-only byte ring: free-running counters of 64 bits, writes that take everything or nothing,
 and counters of bytes written, read and dropped.
 */
module WideRing {
  import opened Words
  import opened RingMachine
  import opened RingBuffer

  // ----- rounding the size

  /** A left shift by one in 64 bits. */
  function Shifted(s: U64): U64 {
    if s < 0x8000_0000_0000_0000 then 2 * s else 2 * s - 0x1_0000_0000_0000_0000
  }

  /** The candidate size after `n` passes of the doubling loop. */
  function SizeAfter(n: nat): U64 { if n == 0 then 1 else Shifted(SizeAfter(n - 1)) }

  lemma {:induction false} SizeAfterIs(n: nat)
    ensures SizeAfter(n) == if n <= 63 then Pow2(n) else 0
  {
    Pow2Values();
    if n > 0 {
      SizeAfterIs(n - 1);
      if n <= 63 { Pow2Monotone(n - 1, 62); }
    }
  }

  /** The doubling loop reaches the size. */
  ghost predicate DoublingEnds(size: U64) { exists n: nat :: SizeAfter(n) >= size }

  /** The loop ends for sizes up to 2^63 and for no other: beyond it the candidate becomes zero for good. */
  lemma DoublingEndsIff(size: U64)
    ensures DoublingEnds(size) <==> size <= 0x8000_0000_0000_0000
  {
    Pow2Values();
    if size <= 0x8000_0000_0000_0000 {
      SizeAfterIs(63);
    } else {
      forall n: nat ensures SizeAfter(n) < size {
        SizeAfterIs(n);
        if n <= 63 { Pow2Monotone(n, 63); }
      }
    }
  }

  /** Rounds a size up by doubling to the least power of two; None says that the loop does not end. */
  method RoundUp(size: U64) returns (r: Option<U64>)
    ensures r.None? <==> !DoublingEnds(size)
    ensures r.Some? ==> exists j: nat :: j <= 63 && r.value == Pow2(j)
    ensures r.Some? ==> size <= r.value && (r.value == 1 || r.value / 2 < size)
  {
    DoublingEndsIff(size);
    if size > 0x8000_0000_0000_0000 { return None; }
    var s: U64 := 1;
    ghost var j := 0;
    Pow2Values();
    while s < size
      invariant j <= 63 && s == Pow2(j) && s <= 0x8000_0000_0000_0000
      invariant s == 1 || s / 2 < size
      decreases 63 - j
    {
      Pow2Bounded(j);
      s, j := Shifted(s), j + 1;
    }
    r := Some(s);
  }

  lemma Pow2Bounded(j: nat)
    requires j <= 62
    ensures Pow2(j) <= 0x4000_0000_0000_0000
  {
    Pow2Monotone(j, 62);
    Pow2Values();
  }

  lemma Levels64(cfg: Config, s: State)
    requires Invariant(cfg, s) && cfg.w == 64
    ensures Wrap64(s.head - s.tail) == Used(cfg, s) == |s.accepted| - |s.delivered|
    ensures s.p.Idle? ==> Wrap64(cfg.Size() - Used(cfg, s)) == FreeSpace(cfg, s) == cfg.Size() - Used(cfg, s)
  {
    LevelsExact(cfg, s);
    WordWraps(64, s.head - s.tail);
    WordWraps(64, cfg.Size() - Used(cfg, s));
  }

  class Wide {
    const buf: array<Byte>
    const size: U64
    const mask: U64
    var head: U64
    var tail: U64
    var bytesWritten: U64
    var bytesRead: U64
    var drops: U64
    /** Binary logarithm of the size. */
    ghost const k: nat
    ghost var accepted: seq<Byte>
    ghost var delivered: seq<Byte>

    ghost function Cfg(): Config { Config(k, 64, false) }

    ghost function Machine(p: Producer, c: Consumer): State
      reads `head, `tail, `accepted, `delivered, buf
    {
      State(buf[..], head, tail, p, c, accepted, delivered, 0)
    }

    ghost predicate Shape() {
      k < 64 && size == Pow2(k) && mask == size - 1 && buf.Length == size
    }

    ghost predicate Valid()
      reads `head, `tail, `accepted, `delivered, buf
    {
      Shape() && Invariant(Cfg(), Machine(Idle, Resting))
    }

    /** The bytes written and not yet read. */
    ghost function Contents(): seq<Byte>
      requires Valid()
      reads `head, `tail, `accepted, `delivered, buf
    {
      accepted[|delivered|..]
    }

    constructor (request: U64)
      requires request <= 0x8000_0000_0000_0000
      ensures Valid() && Contents() == [] && fresh(buf) && bytesWritten == bytesRead == drops == 0
      ensures request <= size && (size == 1 || size / 2 < request)
    {
      DoublingEndsIff(request);
      var rounded := RoundUp(request);
      var s := rounded.value;
      ghost var e: nat :| e <= 63 && s == Pow2(e);
      k := e;
      size, mask := s, s - 1;
      buf := new Byte[s](_ => 0);
      head, tail, bytesWritten, bytesRead, drops := 0, 0, 0, 0, 0;
      accepted, delivered := [], [];
    }

    method Available() returns (n: U64)
      requires Valid()
      ensures n == size - |Contents()|
    {
      Levels64(Cfg(), Machine(Idle, Resting));
      n := Wrap64(size - Wrap64(head - tail));
    }

    method Held() returns (n: U64)
      requires Valid()
      ensures n == |Contents()|
    {
      Levels64(Cfg(), Machine(Idle, Resting));
      n := Wrap64(head - tail);
    }

    method PublishHead(d: seq<Byte>, ghost s: State)
      requires Shape() && s == Machine(Copying(d, |d|), Resting) && Invariant(Cfg(), s)
      modifies `head, `accepted
      ensures Valid() && accepted == old(accepted) + d
    {
      AdvanceHead(Cfg(), s, Wrap64(head + |d|));
      head := Wrap64(head + |d|);
      accepted := accepted + d;
    }

    method PublishTail(dst: seq<Byte>, ghost s: State)
      requires Shape() && s == Machine(Idle, Reading(|dst|, dst)) && Invariant(Cfg(), s)
      modifies `tail, `delivered
      ensures Valid() && delivered == old(delivered) + dst
    {
      AdvanceTail(Cfg(), s, Wrap64(tail + |dst|));
      tail := Wrap64(tail + |dst|);
      delivered := delivered + dst;
    }

    /** Copies and publishes a write that fits. */
    method Store(data: seq<Byte>)
      requires Valid() && |data| <= size - |Contents()|
      modifies `head, `accepted, buf
      ensures Valid() && accepted == old(accepted) + data && Contents() == old(Contents()) + data
    {
      CopyStarts(Cfg(), Machine(Idle, Resting), data, 0);
      AppendDrop(accepted, |delivered|, data);
      ghost var s := Place(buf, mask, head, data, Cfg(), Machine(Copying(data, 0), Resting));
      PublishHead(data, s);
    }

    /** Takes all bytes if they fit; otherwise takes none and counts them as dropped. */
    method Write(data: seq<Byte>) returns (n: nat)
      requires Valid()
      modifies `head, `accepted, `bytesWritten, `drops, buf
      ensures Valid() && n == if |data| <= size - |old(Contents())| then |data| else 0
      ensures accepted == old(accepted) + data[..n] && Contents() == old(Contents()) + data[..n]
      ensures bytesWritten == Wrap64(old(bytesWritten) + n)
      ensures drops == if n < |data| then Wrap64(old(drops) + |data|) else old(drops)
    {
      var avail := Available();
      if |data| > avail {
        Drop(|data|);
        NoBytes(accepted, data);
        NoBytes(Contents(), data);
        return 0;
      }
      Store(data);
      CountWritten(|data|);
      assert data[..|data|] == data;
      return |data|;
    }

    method Drop(n: nat)
      modifies `drops
      ensures drops == Wrap64(old(drops) + n)
    {
      drops := Wrap64(drops + n);
    }

    method CountWritten(n: nat)
      modifies `bytesWritten
      ensures bytesWritten == Wrap64(old(bytesWritten) + n)
    {
      bytesWritten := Wrap64(bytesWritten + n);
    }

    /** Returns the oldest bytes, as many as there are up to `max`. */
    method Read(max: nat) returns (dst: seq<Byte>)
      requires Valid()
      modifies `tail, `delivered, `bytesRead
      ensures Valid() && |dst| == Min(max, |old(Contents())|)
      ensures old(Contents()) == dst + Contents() && delivered == old(delivered) + dst
      ensures bytesRead == Wrap64(old(bytesRead) + |dst|)
    {
      var used := Held();
      if used == 0 { return []; }
      var n := Min(used, max);
      FetchStarts(Cfg(), Machine(Idle, Resting), n);
      ghost var s;
      dst, s := Fetch(buf, mask, tail, n, Cfg(), Machine(Idle, Reading(n, [])));
      PublishTail(dst, s);
      ReadSplits(accepted, old(delivered), dst);
      bytesRead := Wrap64(bytesRead + n);
    }
  }

  lemma NoBytes(s: seq<Byte>, data: seq<Byte>)
    ensures s + data[..0] == s
  {
  }
}
