/**
 The byte ring of a connection: a power-of-two buffer, free-running 32-bit head and tail, and
 transfers in at most two contiguous copies. Each call is a run of the interleaved machine without
 interference, which is how it is proved.
 */
module RingBuffer {
  import opened Words
  import opened Residues
  import opened RingMachine

  predicate IsPow2(w: bv32) { w != 0 && w & (w - 1) == 0 }

  /**
   Rounds up to a power of two by smearing the top bit downwards: the least power of two that is
   not below `v`, if there is one in 32 bits. There is none for 0 and above 2^31, where it gives 0.
   */
  function NextPow2(v: bv32): (w: bv32)
    ensures 0 < v <= 0x8000_0000 ==> IsPow2(w) && v <= w && w >> 1 < v
    ensures !(0 < v <= 0x8000_0000) ==> w == 0
  {
    var a := v - 1;
    var b := a | (a >> 1);
    var c := b | (b >> 2);
    var d := c | (c >> 4);
    var e := d | (d >> 8);
    var f := e | (e >> 16);
    f + 1
  }

  lemma Halve(w: bv32, h: bv32)
    requires IsPow2(w) && w != 1 && h == w >> 1
    ensures IsPow2(h) && w as int == 2 * (h as int) && 0 < h as int
  {
  }

  lemma {:induction false} HasExponent(w: bv32, n: nat) returns (k: nat)
    requires IsPow2(w) && n == w as int
    ensures Pow2(k) == n
    decreases n
  {
    k := 0;
    if w != 1 {
      var h := w >> 1;
      Halve(w, h);
      k := HasExponent(h, h as int);
      k := k + 1;
    }
  }

  /** The exponent of a 32-bit power of two. */
  lemma Exponent(w: bv32) returns (k: nat)
    requires IsPow2(w)
    ensures k < 32 && Pow2(k) == w as int
  {
    k := HasExponent(w, w as int);
    SmallExponent(k);
  }

  lemma SmallExponent(k: nat)
    requires Pow2(k) < 0x1_0000_0000
    ensures k < 32
  {
    Pow2Values();
    if k >= 32 { Pow2Monotone(32, k); }
  }

  /** `n` bytes of a transfer, from its byte `from` on, lie contiguously at `at`. */
  predicate Chunk(cfg: Config, counter: nat, from: nat, n: nat, at: nat) {
    var pos := BitAnd(counter, cfg.Size() - 1);
    var first := cfg.Size() - pos;
    (from + n <= first && at == pos + from) || (first <= from && at == from - first)
  }

  lemma ChunkSlot(cfg: Config, counter: nat, from: nat, n: nat, at: nat, i: nat)
    requires Chunk(cfg, counter, from, n, at) && i < n
    ensures Slot(cfg, counter, from + i) == at + i
  {
  }

  method CopyByte(buf: array<Byte>, slot: nat, b: Byte, ghost cfg: Config, ghost s: State) returns (ghost r: State)
    requires s.buf == buf[..] && Invariant(cfg, s) && s.p.Copying? && s.p.done < |s.p.data|
    requires slot == Slot(cfg, s.head, s.p.done) && b == s.p.data[s.p.done]
    modifies buf
    ensures Invariant(cfg, r) && r == s.(buf := buf[..], p := Copying(s.p.data, s.p.done + 1))
  {
    WriteByteKeeps(cfg, s, slot);
    r := PutByte(s, slot);
    buf[slot] := b;
    assert buf[..] == r.buf;
  }

  /** One `memcpy` into the buffer, as copy steps of the machine. */
  method CopyIn(buf: array<Byte>, at: nat, data: seq<Byte>, from: nat, n: nat, ghost cfg: Config, ghost s: State)
    returns (ghost r: State)
    requires s.buf == buf[..] && s.p == Copying(data, from) && Invariant(cfg, s)
    requires from + n <= |data| && Chunk(cfg, s.head, from, n, at)
    modifies buf
    ensures Invariant(cfg, r) && r == s.(buf := buf[..], p := Copying(data, from + n))
  {
    r := s;
    var i := 0;
    while i < n
      invariant 0 <= i <= n && Invariant(cfg, r)
      invariant r == s.(buf := buf[..], p := Copying(data, from + i))
    {
      ChunkSlot(cfg, s.head, from, n, at, i);
      r := CopyByte(buf, at + i, data[from + i], cfg, r);
      i := i + 1;
    }
  }

  method FetchByte(buf: array<Byte>, slot: nat, got: seq<Byte>, ghost cfg: Config, ghost s: State)
    returns (dst: seq<Byte>, ghost r: State)
    requires s.buf == buf[..] && Invariant(cfg, s) && s.c.Reading? && s.c.got == got && |got| < s.c.len
    requires slot == Slot(cfg, s.tail, |got|)
    ensures |dst| == |got| + 1 && Invariant(cfg, r) && r == s.(c := s.c.(got := dst))
  {
    ReadByteKeeps(cfg, s, slot);
    dst := got + [buf[slot]];
    r := TakeByte(s, slot);
  }

  /** One `memcpy` out of the buffer. */
  method CopyOut(buf: array<Byte>, at: nat, got: seq<Byte>, n: nat, ghost cfg: Config, ghost s: State)
    returns (dst: seq<Byte>, ghost r: State)
    requires s.buf == buf[..] && s.c.Reading? && s.c.got == got && |got| + n <= s.c.len && Invariant(cfg, s)
    requires Chunk(cfg, s.tail, |got|, n, at)
    ensures |dst| == |got| + n && Invariant(cfg, r) && r == s.(c := s.c.(got := dst))
  {
    dst, r := got, s;
    var i := 0;
    while i < n
      invariant 0 <= i <= n && |dst| == |got| + i
      invariant Invariant(cfg, r) && r == s.(c := s.c.(got := dst))
    {
      ChunkSlot(cfg, s.tail, |got|, n, at, i);
      dst, r := FetchByte(buf, at + i, dst, cfg, r);
      i := i + 1;
    }
  }

  /** Copies a write that fits into place, in one piece or wrapped around the end. */
  method Place(buf: array<Byte>, mask: nat, head: nat, d: seq<Byte>, ghost cfg: Config, ghost s: State)
    returns (ghost r: State)
    requires mask == cfg.Size() - 1 && buf.Length == cfg.Size()
    requires s.buf == buf[..] && s.head == head && s.p == Copying(d, 0) && Invariant(cfg, s)
    modifies buf
    ensures Invariant(cfg, r) && r == s.(buf := buf[..], p := Copying(d, |d|))
  {
    MaskIsRemainder(head, cfg.k);
    var pos := BitAnd(head, mask);
    var first := buf.Length - pos;
    if |d| <= first {
      r := CopyIn(buf, pos, d, 0, |d|, cfg, s);
    } else {
      r := CopyIn(buf, pos, d, 0, first, cfg, s);
      r := CopyIn(buf, 0, d, first, |d| - first, cfg, r);
    }
  }

  method Fetch(buf: array<Byte>, mask: nat, tail: nat, n: nat, ghost cfg: Config, ghost s: State)
    returns (dst: seq<Byte>, ghost r: State)
    requires mask == cfg.Size() - 1 && buf.Length == cfg.Size()
    requires s.buf == buf[..] && s.tail == tail && s.c == Reading(n, []) && Invariant(cfg, s)
    ensures |dst| == n && Invariant(cfg, r) && r == s.(c := Reading(n, dst))
  {
    MaskIsRemainder(tail, cfg.k);
    var pos := BitAnd(tail, mask);
    var first := buf.Length - pos;
    if n <= first {
      dst, r := CopyOut(buf, pos, [], n, cfg, s);
    } else {
      dst, r := CopyOut(buf, pos, [], first, cfg, s);
      dst, r := CopyOut(buf, 0, dst, n - first, cfg, r);
    }
  }

  /** Words wrap as the counters of the machine do. */
  lemma WordWraps(w: nat, x: int)
    ensures w == 32 ==> Wrap32(x) == x % Pow2(w)
    ensures w == 64 ==> Wrap64(x) == x % Pow2(w)
  {
    Pow2Values();
  }

  lemma HeadPublished(cfg: Config, s: State, head: nat)
    requires Invariant(cfg, s) && s.p.Copying? && s.p.done == |s.p.data|
    requires head == Rem(s.head + |s.p.data|, cfg.Modulus())
    ensures Invariant(cfg, s.(head := head, accepted := s.accepted + s.p.data, p := Idle))
  {
    WriteEndKeeps(cfg, s);
  }

  lemma TailPublished(cfg: Config, s: State, tail: nat)
    requires Invariant(cfg, s) && s.c.Reading? && |s.c.got| == s.c.len
    requires tail == Rem(s.tail + s.c.len, cfg.Modulus())
    ensures Invariant(cfg, s.(tail := tail, delivered := s.delivered + s.c.got, c := Resting))
  {
    ReadEndKeeps(cfg, s);
  }

  /** A sum in a word of 32 or 64 bits. */
  function WordSum(w: nat, x: nat): nat { if w == 32 then Wrap32(x) else Wrap64(x) }

  lemma AdvanceHead(cfg: Config, s: State, head: nat)
    requires Invariant(cfg, s) && s.p.Copying? && s.p.done == |s.p.data|
    requires (cfg.w == 32 || cfg.w == 64) && head == WordSum(cfg.w, s.head + |s.p.data|)
    ensures Invariant(cfg, s.(head := head, accepted := s.accepted + s.p.data, p := Idle))
  {
    WordRem(cfg.w, s.head + |s.p.data|, head);
    HeadPublished(cfg, s, head);
  }

  lemma AdvanceTail(cfg: Config, s: State, tail: nat)
    requires Invariant(cfg, s) && s.c.Reading? && |s.c.got| == s.c.len
    requires (cfg.w == 32 || cfg.w == 64) && tail == WordSum(cfg.w, s.tail + s.c.len)
    ensures Invariant(cfg, s.(tail := tail, delivered := s.delivered + s.c.got, c := Resting))
  {
    WordRem(cfg.w, s.tail + s.c.len, tail);
    TailPublished(cfg, s, tail);
  }

  lemma WordRem(w: nat, x: nat, sum: nat)
    requires (w == 32 || w == 64) && sum == WordSum(w, x)
    ensures sum == Rem(x, Pow2(w))
  {
    WordWraps(w, x);
    RemIs(x, Pow2(w));
  }

  /** The size of a ring for a request. */
  function RoundedSize(request: bv32): U32 { NextPow2(if request == 0 then 4096 else request) as int }

  lemma SizeExponent(request: bv32) returns (k: nat)
    ensures request <= 0x8000_0000 ==> k < 32 && RoundedSize(request) == Pow2(k)
    ensures request > 0x8000_0000 ==> RoundedSize(request) == 0
  {
    var rounded := NextPow2(if request == 0 then 4096 else request);
    k := 0;
    if request <= 0x8000_0000 { k := Exponent(rounded); }
  }

  lemma Levels32(cfg: Config, s: State)
    requires Invariant(cfg, s) && cfg.w == 32
    ensures Wrap32(s.head - s.tail) == Used(cfg, s) == |s.accepted| - |s.delivered|
    ensures s.p.Idle? ==> Wrap32(cfg.Size() - Used(cfg, s)) == FreeSpace(cfg, s) == cfg.Size() - Used(cfg, s)
  {
    LevelsExact(cfg, s);
    WordWraps(32, s.head - s.tail);
    WordWraps(32, cfg.Size() - Used(cfg, s));
  }

  class Ring {
    const buf: array<Byte>
    const size: U32
    const mask: U32
    var head: U32
    var tail: U32
    /** Binary logarithm of the size. */
    ghost const k: nat
    /** Every byte ever written and every byte ever read, in order. */
    ghost var accepted: seq<Byte>
    ghost var delivered: seq<Byte>

    ghost function Cfg(): Config { Config(k, 32, true) }

    ghost function Machine(p: Producer, c: Consumer): State
      reads this, buf
    {
      State(buf[..], head, tail, p, c, accepted, delivered, 0)
    }

    ghost predicate Valid()
      reads this, buf
    {
      && k < 32 && size == Pow2(k) && mask == size - 1 && buf.Length == size
      && Invariant(Cfg(), Machine(Idle, Resting))
    }

    /** The bytes written and not yet read. */
    ghost function Contents(): seq<Byte>
      reads this, buf
      requires Valid()
    {
      accepted[|delivered|..]
    }

    /** A requested size of zero means 4096; requests above 2^31 are rounded to zero and give no usable ring. */
    constructor (request: bv32)
      ensures fresh(buf) && size == buf.Length && mask == Wrap32(size - 1) && head == tail == 0
      ensures size == RoundedSize(request)
      ensures request <= 0x8000_0000 ==> Valid() && Contents() == []
      ensures request > 0x8000_0000 ==> size == 0
    {
      ghost var e := SizeExponent(request);
      k := e;
      size, mask := RoundedSize(request), Wrap32(RoundedSize(request) - 1);
      buf := new Byte[RoundedSize(request)](_ => 0);
      head, tail := 0, 0;
      accepted, delivered := [], [];
    }

    /** Bytes in the buffer and bytes free, from the wrapped counters. */
    method Levels() returns (used: U32, free: U32)
      requires Valid()
      ensures used == |accepted| - |delivered| == |Contents()| && free == size - used
    {
      Levels32(Cfg(), Machine(Idle, Resting));
      used := Wrap32(head - tail);
      free := Wrap32(size - used);
    }

    /** Publishes the head after a completed copy. */
    method PublishHead(d: seq<Byte>, ghost s: State)
      requires k < 32 && size == Pow2(k) && mask == size - 1 && buf.Length == size
      requires s == Machine(Copying(d, |d|), Resting) && Invariant(Cfg(), s)
      modifies `head, `accepted
      ensures Valid() && accepted == old(accepted) + d
    {
      AdvanceHead(Cfg(), s, Wrap32(head + |d|));
      head := Wrap32(head + |d|);
      accepted := accepted + d;
    }

    method PublishTail(dst: seq<Byte>, ghost s: State)
      requires k < 32 && size == Pow2(k) && mask == size - 1 && buf.Length == size
      requires s == Machine(Idle, Reading(|dst|, dst)) && Invariant(Cfg(), s)
      modifies `tail, `delivered
      ensures Valid() && delivered == old(delivered) + dst
    {
      AdvanceTail(Cfg(), s, Wrap32(tail + |dst|));
      tail := Wrap32(tail + |dst|);
      delivered := delivered + dst;
    }

    /** Takes as many bytes as fit, in order, and reports how many. */
    method Write(data: seq<Byte>) returns (n: nat)
      requires Valid()
      modifies `head, `accepted, buf
      ensures Valid() && n == Min(|data|, size - |old(Contents())|)
      ensures accepted == old(accepted) + data[..n] && Contents() == old(Contents()) + data[..n]
    {
      ghost var s := Machine(Idle, Resting);
      var used, free := Levels();
      n := Min(|data|, free);
      CopyStarts(Cfg(), s, data[..n], 0);
      AppendDrop(accepted, |delivered|, data[..n]);
      s := Place(buf, mask, head, data[..n], Cfg(), s.(p := Copying(data[..n], 0)));
      PublishHead(data[..n], s);
    }

    /** Returns the oldest bytes, as many as there are up to `max`. */
    method Read(max: nat) returns (dst: seq<Byte>)
      requires Valid()
      modifies `tail, `delivered
      ensures Valid() && |dst| == Min(max, |old(Contents())|)
      ensures old(Contents()) == dst + Contents()
      ensures delivered == old(delivered) + dst
    {
      ghost var s := Machine(Idle, Resting);
      var used, free := Levels();
      var n := Min(max, used);
      FetchStarts(Cfg(), s, n);
      dst, s := Fetch(buf, mask, tail, n, Cfg(), s.(c := Reading(n, [])));
      PublishTail(dst, s);
      ReadSplits(accepted, old(delivered), dst);
    }
  }

  lemma AppendDrop(s: seq<Byte>, n: nat, d: seq<Byte>)
    requires n <= |s|
    ensures (s + d)[n..] == s[n..] + d
  {
  }

  lemma ReadSplits(accepted: seq<Byte>, delivered: seq<Byte>, dst: seq<Byte>)
    requires delivered + dst <= accepted
    ensures accepted[|delivered|..] == dst + accepted[|delivered + dst|..]
  {
  }
}
