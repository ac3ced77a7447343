/**
 The single-producer single-consumer byte ring as an interleaving of atomic steps. A write reads
 the tail, copies byte by byte, then publishes the head; a read reads the head, copies, then
 publishes the tail. Counters are free-running words of `w` bits, the buffer has 2^k bytes. One
 machine covers both variants: partial writes, and writes that take everything or nothing.
 */
module RingMachine {
  import opened Words
  import opened Residues

  datatype Config = Config(k: nat, w: nat, partial: bool) {
    function Size(): (n: nat)
      ensures 0 < n
    {
      Pow2(k)
    }

    function Modulus(): (n: nat)
      ensures 0 < n
    {
      Pow2(w)
    }

    predicate Valid() { k < w }
  }

  datatype Producer = Idle | Copying(data: seq<Byte>, done: nat)

  datatype Consumer = Resting | Reading(len: nat, got: seq<Byte>)

  /** `accepted` and `delivered` record every byte published by the producer and by the consumer. */
  datatype State = State(
    buf: seq<Byte>, head: nat, tail: nat, p: Producer, c: Consumer,
    accepted: seq<Byte>, delivered: seq<Byte>, drops: nat)

  datatype Step =
    | WriteBegin(data: seq<Byte>)
    | WriteByte
    | WriteEnd
    | ReadBegin(max: nat)
    | ReadByte
    | ReadEnd

  /** Where byte `i` of a transfer lies: up to the end of the buffer, then from its start. */
  function Slot(cfg: Config, counter: nat, i: nat): nat {
    var pos := BitAnd(counter, cfg.Size() - 1);
    var first := cfg.Size() - pos;
    if i < first then pos + i else i - first
  }

  function Used(cfg: Config, s: State): nat { (s.head - s.tail) % cfg.Modulus() }

  function FreeSpace(cfg: Config, s: State): nat { (cfg.Size() - Used(cfg, s)) % cfg.Modulus() }

  /** How many bytes a write of `len` bytes takes. */
  function Taken(cfg: Config, s: State, len: nat): nat {
    if len <= FreeSpace(cfg, s) then len else if cfg.partial then FreeSpace(cfg, s) else 0
  }

  predicate Enabled(cfg: Config, s: State, step: Step) {
    match step
    case WriteBegin(_) => s.p.Idle?
    case WriteByte => s.p.Copying? && s.p.done < |s.p.data| && Slot(cfg, s.head, s.p.done) < |s.buf|
    case WriteEnd => s.p.Copying? && s.p.done == |s.p.data|
    case ReadBegin(_) => s.c.Resting?
    case ReadByte => s.c.Reading? && |s.c.got| < s.c.len && Slot(cfg, s.tail, |s.c.got|) < |s.buf|
    case ReadEnd => s.c.Reading? && |s.c.got| == s.c.len
  }

  function BeginWrite(cfg: Config, s: State, data: seq<Byte>): State {
    var n := Taken(cfg, s, |data|);
    s.(p := Copying(data[..Min(n, |data|)], 0),
       drops := if n < |data| && !cfg.partial then s.drops + |data| else s.drops)
  }

  function PutByte(s: State, slot: nat): State
    requires s.p.Copying? && s.p.done < |s.p.data| && slot < |s.buf|
  {
    s.(buf := s.buf[slot := s.p.data[s.p.done]], p := Copying(s.p.data, s.p.done + 1))
  }

  function EndWrite(cfg: Config, s: State): State
    requires s.p.Copying?
  {
    s.(head := Rem(s.head + |s.p.data|, cfg.Modulus()), accepted := s.accepted + s.p.data, p := Idle)
  }

  function TakeByte(s: State, slot: nat): State
    requires s.c.Reading? && slot < |s.buf|
  {
    s.(c := Reading(s.c.len, s.c.got + [s.buf[slot]]))
  }

  function EndRead(cfg: Config, s: State): State
    requires s.c.Reading?
  {
    s.(tail := Rem(s.tail + s.c.len, cfg.Modulus()), delivered := s.delivered + s.c.got, c := Resting)
  }

  function Next(cfg: Config, s: State, step: Step): State
    requires Enabled(cfg, s, step)
  {
    match step
    case WriteBegin(data) => BeginWrite(cfg, s, data)
    case WriteByte => PutByte(s, Slot(cfg, s.head, s.p.done))
    case WriteEnd => EndWrite(cfg, s)
    case ReadBegin(max) => s.(c := Reading(Min(max, Used(cfg, s)), []))
    case ReadByte => TakeByte(s, Slot(cfg, s.tail, |s.c.got|))
    case ReadEnd => EndRead(cfg, s)
  }

  ghost predicate Initial(cfg: Config, s: State) {
    |s.buf| == cfg.Size() && s == State(s.buf, 0, 0, Idle, Resting, [], [], 0)
  }

  ghost predicate Reachable(cfg: Config, s: State, steps: seq<Step>)
    decreases |steps|
  {
    if steps == [] then Initial(cfg, s)
    else
      var last := steps[|steps| - 1];
      exists r :: Reachable(cfg, r, steps[..|steps| - 1]) && Enabled(cfg, r, last) && s == Next(cfg, r, last)
  }

  // ----- the invariant

  /** Stream position `j` is stored in the buffer as `b`. */
  ghost predicate Stored(cfg: Config, buf: seq<Byte>, j: nat, b: Byte) {
    j % cfg.Size() < |buf| && buf[j % cfg.Size()] == b
  }

  /** The positions of `stream` from `lo` on are all stored. */
  ghost predicate Window(cfg: Config, buf: seq<Byte>, stream: seq<Byte>, lo: nat) {
    forall j: nat {:trigger Stored(cfg, buf, j, stream[j])} :: lo <= j < |stream| ==> Stored(cfg, buf, j, stream[j])
  }

  /** Everything copied into the buffer so far, published or not. */
  function Written(s: State): seq<Byte> {
    if s.p.Copying? && s.p.done <= |s.p.data| then s.accepted + s.p.data[..s.p.done] else s.accepted
  }

  ghost predicate ProducerOk(cfg: Config, s: State) {
    && |s.delivered| <= |s.accepted| <= |s.delivered| + cfg.Size()
    && (s.p.Copying? ==> s.p.done <= |s.p.data| && |s.accepted| + |s.p.data| <= |s.delivered| + cfg.Size())
  }

  ghost predicate ConsumerOk(s: State) {
    var t := |s.delivered|;
    && s.delivered <= s.accepted
    && (s.c.Reading? ==>
          && |s.c.got| <= s.c.len && t + s.c.len <= |s.accepted|
          && s.delivered + s.c.got <= s.accepted)
  }

  /** The counters are the stream positions reduced to the word. */
  ghost predicate CountersOk(cfg: Config, s: State) {
    s.head == Rem(|s.accepted|, cfg.Modulus()) && s.tail == Rem(|s.delivered|, cfg.Modulus())
  }

  lemma CountersReduced(cfg: Config, s: State)
    ensures CountersOk(cfg, s) <==>
      s.head == |s.accepted| % cfg.Modulus() && s.tail == |s.delivered| % cfg.Modulus()
  {
    RemIs(|s.accepted|, cfg.Modulus());
    RemIs(|s.delivered|, cfg.Modulus());
  }

  ghost predicate Invariant(cfg: Config, s: State) {
    && cfg.Valid() && |s.buf| == cfg.Size()
    && CountersOk(cfg, s) && ProducerOk(cfg, s) && ConsumerOk(s)
    && Window(cfg, s.buf, Written(s), |s.delivered|)
  }

  lemma Doubles(a: nat, b: nat)
    requires 0 < a && 2 <= b
    ensures a < a * b
  {
    assert a * b == a * 2 + a * (b - 2);
  }

  lemma ModulusSplits(cfg: Config)
    requires cfg.Valid()
    ensures cfg.Modulus() == cfg.Size() * Pow2(cfg.w - cfg.k) && cfg.Size() < cfg.Modulus()
  {
    Pow2Sum(cfg.k, cfg.w - cfg.k);
    Doubles(Pow2(cfg.k), Pow2(cfg.w - cfg.k));
  }

  /** The slot of byte `i` of a transfer at stream position `pos`, whatever the counter has wrapped to. */
  lemma SlotOfPosition(cfg: Config, pos: nat, i: nat)
    requires cfg.Valid() && i < cfg.Size()
    ensures Slot(cfg, pos % cfg.Modulus(), i) == (pos + i) % cfg.Size() < cfg.Size()
  {
    ModulusSplits(cfg);
    MaskIsRemainder(pos % cfg.Modulus(), cfg.k);
    NestedRemainder(pos, cfg.Size(), Pow2(cfg.w - cfg.k));
    SumRemainder(pos, i, cfg.Size());
  }

  /** The counters give the exact fill level although they wrap. */
  lemma LevelsExact(cfg: Config, s: State)
    requires Invariant(cfg, s)
    ensures Used(cfg, s) == |s.accepted| - |s.delivered|
    ensures s.p.Idle? ==> FreeSpace(cfg, s) == cfg.Size() - (|s.accepted| - |s.delivered|)
  {
    ModulusSplits(cfg);
    CountersReduced(cfg, s);
    WrapSub(|s.accepted|, |s.delivered|, cfg.Modulus());
    var free := cfg.Size() - Used(cfg, s);
    if s.p.Idle? { QuotientUnique(free, cfg.Modulus(), 0, free); }
  }

  /** Appending the next byte of the stream overwrites nothing that is still needed. */
  lemma WindowExtends(cfg: Config, buf: seq<Byte>, stream: seq<Byte>, lo: nat, b: Byte)
    requires |buf| == cfg.Size() && Window(cfg, buf, stream, lo) && lo <= |stream| < lo + cfg.Size()
    ensures |stream| % cfg.Size() < |buf|
    ensures Window(cfg, buf[|stream| % cfg.Size() := b], stream + [b], lo)
  {
    var n, h := cfg.Size(), |stream|;
    var buf', stream' := buf[h % n := b], stream + [b];
    forall j: nat | lo <= j < |stream'| ensures Stored(cfg, buf', j, stream'[j]) {
      if j < h {
        assert Stored(cfg, buf, j, stream[j]);
        CloseDiffer(h, j, n);
      }
    }
  }

  lemma WindowShrinks(cfg: Config, buf: seq<Byte>, stream: seq<Byte>, lo: nat, lo': nat)
    requires Window(cfg, buf, stream, lo) && lo <= lo'
    ensures Window(cfg, buf, stream, lo')
  {
  }

  lemma WriteByteKeeps(cfg: Config, s: State, slot: nat)
    requires Invariant(cfg, s) && s.p.Copying? && s.p.done < |s.p.data| && slot == Slot(cfg, s.head, s.p.done)
    ensures slot < |s.buf| && Invariant(cfg, PutByte(s, slot))
  {
    WriteSlotFits(cfg, s, slot);
    WrittenGrows(s, slot);
  }

  lemma WrittenGrows(s: State, slot: nat)
    requires s.p.Copying? && s.p.done < |s.p.data| && slot < |s.buf|
    ensures Written(PutByte(s, slot)) == Written(s) + [s.p.data[s.p.done]]
  {
  }

  /** The next byte of a write has its slot, and storing it there keeps everything that is still needed. */
  lemma WriteSlotFits(cfg: Config, s: State, slot: nat)
    requires Invariant(cfg, s) && s.p.Copying? && s.p.done < |s.p.data| && slot == Slot(cfg, s.head, s.p.done)
    ensures slot < |s.buf|
    ensures Window(cfg, s.buf[slot := s.p.data[s.p.done]], Written(s) + [s.p.data[s.p.done]], |s.delivered|)
  {
    CountersReduced(cfg, s);
    SlotOfPosition(cfg, |s.accepted|, s.p.done);
    assert |Written(s)| == |s.accepted| + s.p.done;
    WindowExtends(cfg, s.buf, Written(s), |s.delivered|, s.p.data[s.p.done]);
  }

  lemma RemAdd(a: nat, b: nat, m: nat)
    requires 0 < m
    ensures Rem(Rem(a, m) + b, m) == Rem(a + b, m)
  {
    RemIs(a, m);
    RemIs(Rem(a, m) + b, m);
    RemIs(a + b, m);
    WrapAdd(a, b, m);
  }

  lemma WriteEndKeeps(cfg: Config, s: State)
    requires Invariant(cfg, s) && s.p.Copying? && s.p.done == |s.p.data|
    ensures Invariant(cfg, EndWrite(cfg, s))
  {
    RemAdd(|s.accepted|, |s.p.data|, cfg.Modulus());
    assert s.p.data[..|s.p.data|] == s.p.data;
    assert Written(EndWrite(cfg, s)) == Written(s);
    PrefixOfMore(s.delivered, s.accepted, s.p.data);
    if s.c.Reading? { PrefixOfMore(s.delivered + s.c.got, s.accepted, s.p.data); }
  }

  lemma PrefixOfMore(a: seq<Byte>, b: seq<Byte>, c: seq<Byte>)
    requires a <= b
    ensures a <= b + c
  {
  }

  /** Any bytes that fit may be copied. */
  lemma CopyStarts(cfg: Config, s: State, d: seq<Byte>, drops: nat)
    requires Invariant(cfg, s) && s.p.Idle? && |d| <= cfg.Size() - (|s.accepted| - |s.delivered|)
    ensures Invariant(cfg, s.(p := Copying(d, 0), drops := drops))
  {
    assert Written(s.(p := Copying(d, 0), drops := drops)) == Written(s);
  }

  lemma WriteBeginKeeps(cfg: Config, s: State, data: seq<Byte>)
    requires Invariant(cfg, s) && s.p.Idle?
    ensures Invariant(cfg, BeginWrite(cfg, s, data))
  {
    LevelsExact(cfg, s);
    var r := BeginWrite(cfg, s, data);
    CopyStarts(cfg, s, r.p.data, r.drops);
  }

  lemma ReadByteKeeps(cfg: Config, s: State, slot: nat)
    requires Invariant(cfg, s) && s.c.Reading? && |s.c.got| < s.c.len && slot == Slot(cfg, s.tail, |s.c.got|)
    ensures slot < |s.buf| && Invariant(cfg, TakeByte(s, slot))
  {
    var j := |s.delivered| + |s.c.got|;
    NextByteStored(cfg, s);
    var r := TakeByte(s, slot);
    assert r.delivered + r.c.got == (s.delivered + s.c.got) + [s.accepted[j]];
    assert Written(r) == Written(s);
  }

  /** The slot the consumer reads next holds the next accepted byte. */
  lemma NextByteStored(cfg: Config, s: State)
    requires Invariant(cfg, s) && s.c.Reading? && |s.c.got| < s.c.len
    ensures var slot := Slot(cfg, s.tail, |s.c.got|);
      slot < |s.buf| && s.buf[slot] == s.accepted[|s.delivered| + |s.c.got|]
  {
    var j := |s.delivered| + |s.c.got|;
    CountersReduced(cfg, s);
    SlotOfPosition(cfg, |s.delivered|, |s.c.got|);
    assert Written(s)[j] == s.accepted[j];
    assert Stored(cfg, s.buf, j, Written(s)[j]);
  }

  lemma ReadEndKeeps(cfg: Config, s: State)
    requires Invariant(cfg, s) && s.c.Reading? && |s.c.got| == s.c.len
    ensures Invariant(cfg, EndRead(cfg, s))
  {
    var r := EndRead(cfg, s);
    RemAdd(|s.delivered|, s.c.len, cfg.Modulus());
    assert Written(r) == Written(s);
    WindowShrinks(cfg, s.buf, Written(s), |s.delivered|, |r.delivered|);
  }

  /** Any bytes that are there may be read. */
  lemma FetchStarts(cfg: Config, s: State, n: nat)
    requires Invariant(cfg, s) && s.c.Resting? && n <= |s.accepted| - |s.delivered|
    ensures Invariant(cfg, s.(c := Reading(n, [])))
  {
    var r := s.(c := Reading(n, []));
    assert Written(r) == Written(s) && r.delivered + r.c.got == r.delivered;
  }

  lemma ReadBeginKeeps(cfg: Config, s: State, max: nat)
    requires Invariant(cfg, s) && s.c.Resting?
    ensures Invariant(cfg, Next(cfg, s, ReadBegin(max)))
  {
    LevelsExact(cfg, s);
    FetchStarts(cfg, s, Min(max, Used(cfg, s)));
  }

  lemma StepKeepsInvariant(cfg: Config, s: State, step: Step)
    requires Invariant(cfg, s) && Enabled(cfg, s, step)
    ensures Invariant(cfg, Next(cfg, s, step))
  {
    match step
    case WriteBegin(data) => WriteBeginKeeps(cfg, s, data);
    case WriteByte => WriteByteKeeps(cfg, s, Slot(cfg, s.head, s.p.done));
    case WriteEnd => WriteEndKeeps(cfg, s);
    case ReadBegin(max) => ReadBeginKeeps(cfg, s, max);
    case ReadByte => ReadByteKeeps(cfg, s, Slot(cfg, s.tail, |s.c.got|));
    case ReadEnd => ReadEndKeeps(cfg, s);
  }

  lemma {:induction false} ReachableInvariant(cfg: Config, s: State, steps: seq<Step>)
    requires cfg.Valid() && Reachable(cfg, s, steps)
    ensures Invariant(cfg, s)
    decreases |steps|
  {
    if steps != [] {
      var last := steps[|steps| - 1];
      var r :| Reachable(cfg, r, steps[..|steps| - 1]) && Enabled(cfg, r, last) && s == Next(cfg, r, last);
      ReachableInvariant(cfg, r, steps[..|steps| - 1]);
      StepKeepsInvariant(cfg, r, last);
    }
  }

  // ----- the theorems

  /**
   In every interleaving the bytes read are a prefix of the bytes accepted, in order, and every
   accepted byte not yet read is still intact in the buffer, at its own slot.
   */
  lemma InterleavingSafety(cfg: Config, s: State, steps: seq<Step>)
    requires cfg.Valid() && Reachable(cfg, s, steps)
    ensures s.delivered <= s.accepted && |s.accepted| <= |s.delivered| + cfg.Size()
    ensures forall j :: |s.delivered| <= j < |s.accepted| ==> Stored(cfg, s.buf, j, s.accepted[j])
    ensures s.c.Reading? ==> s.delivered + s.c.got <= s.accepted
  {
    ReachableInvariant(cfg, s, steps);
    forall j | |s.delivered| <= j < |s.accepted| ensures Stored(cfg, s.buf, j, s.accepted[j]) {
      assert Stored(cfg, s.buf, j, Written(s)[j]);
    }
  }

  /**
   Transfer sizes: a write takes what fits, or with all-or-nothing writes everything or nothing; a
   read gets as much as there is, up to what it asked for. No transfer in progress can get stuck.
   */
  lemma TransferSizes(cfg: Config, s: State, steps: seq<Step>, data: seq<Byte>, max: nat)
    requires cfg.Valid() && Reachable(cfg, s, steps)
    ensures var level := |s.accepted| - |s.delivered|;
      && 0 <= level <= cfg.Size()
      && (s.p.Idle? ==>
            var took := Next(cfg, s, WriteBegin(data)).p.data;
            if |data| <= cfg.Size() - level then took == data
            else if cfg.partial then took == data[..cfg.Size() - level]
            else took == [])
      && (s.c.Resting? ==> Next(cfg, s, ReadBegin(max)).c.len == Min(max, level))
    ensures s.p.Copying? ==> Enabled(cfg, s, WriteByte) || Enabled(cfg, s, WriteEnd)
    ensures s.c.Reading? ==> Enabled(cfg, s, ReadByte) || Enabled(cfg, s, ReadEnd)
  {
    ReachableInvariant(cfg, s, steps);
    LevelsExact(cfg, s);
    if s.p.Copying? && s.p.done < |s.p.data| { WriteByteKeeps(cfg, s, Slot(cfg, s.head, s.p.done)); }
    if s.c.Reading? && |s.c.got| < s.c.len { ReadByteKeeps(cfg, s, Slot(cfg, s.tail, |s.c.got|)); }
  }
}
