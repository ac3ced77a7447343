/**
 Streaming SHA-256: buffered updates and the padded final block, over any compression function. The
 specification is the fold of the compression function over the message padded as in section 5.1.1
 of FIPS 180-4.
 */
module Sha256 {
  import opened Words
  import opened HeaderCodec

  /** The eight chaining words. */
  type Chain = s: seq<U32> | |s| == 8 witness [0, 0, 0, 0, 0, 0, 0, 0]

  type Compression = (Chain, seq<Byte>) -> Chain

  const H0: Chain := [0x6a09e667, 0xbb67ae85, 0x3c6ef372, 0xa54ff53a, 0x510e527f, 0x9b05688c, 0x1f83d9ab, 0x5be0cd19]

  // ----- specification

  /** Folds the compression function over the whole blocks of `m`; a last partial block is ignored. */
  function Blocks(f: Compression, h: Chain, m: seq<Byte>): Chain
    decreases |m|
  {
    if |m| < 64 then h else Blocks(f, f(h, m[..64]), m[64..])
  }

  function Zeros(n: nat): (s: seq<Byte>)
    ensures |s| == n
  {
    seq(n, _ => 0)
  }

  /** The number of zero bytes between the end mark and the length. */
  function Gap(n: nat): (k: nat)
    ensures (n + 1 + k + 8) % 64 == 0 && k < 64
  {
    (119 - n % 64) % 64
  }

  function Pad(m: seq<Byte>): (p: seq<Byte>)
    ensures |p| % 64 == 0
  {
    m + [0x80] + Zeros(Gap(|m|)) + BigEndian(8 * |m|, 8)
  }

  function Serialize(h: Chain): (s: seq<Byte>)
    ensures |s| == 32
  {
    BigEndian(h[0], 4) + BigEndian(h[1], 4) + BigEndian(h[2], 4) + BigEndian(h[3], 4) +
    BigEndian(h[4], 4) + BigEndian(h[5], 4) + BigEndian(h[6], 4) + BigEndian(h[7], 4)
  }

  /** The digest holds the words in order, high byte first. */
  lemma SerializeWords(h: Chain, i: nat)
    requires i < 8
    ensures Serialize(h)[4 * i..4 * i + 4] == BigEndian(h[i], 4)
  {
    EightParts(BigEndian(h[0], 4), BigEndian(h[1], 4), BigEndian(h[2], 4), BigEndian(h[3], 4),
               BigEndian(h[4], 4), BigEndian(h[5], 4), BigEndian(h[6], 4), BigEndian(h[7], 4));
  }

  lemma EightParts(a: seq<Byte>, b: seq<Byte>, c: seq<Byte>, d: seq<Byte>,
                   e: seq<Byte>, f: seq<Byte>, g: seq<Byte>, h: seq<Byte>)
    requires |a| == |b| == |c| == |d| == |e| == |f| == |g| == |h| == 4
    ensures var s := a + b + c + d + e + f + g + h;
      && s[0..4] == a && s[4..8] == b && s[8..12] == c && s[12..16] == d
      && s[16..20] == e && s[20..24] == f && s[24..28] == g && s[28..32] == h
  {
  }

  function Digest(f: Compression, m: seq<Byte>): (d: seq<Byte>)
    ensures |d| == 32
  {
    Serialize(Blocks(f, H0, Pad(m)))
  }

  /** `h` is the first 32 bits of the fraction of the square root of `p`, whose whole part is `w`. */
  predicate RootFraction(p: nat, w: nat, h: U32) {
    var r := w * 0x1_0000_0000 + h;
    r * r <= p * 0x1_0000_0000_0000_0000 < (r + 1) * (r + 1)
  }

  /** Section 5.3.3 of FIPS 180-4: the initial words come from the first eight primes. */
  lemma InitialWords()
    ensures RootFraction(2, 1, H0[0]) && RootFraction(3, 1, H0[1]) && RootFraction(5, 2, H0[2])
    ensures RootFraction(7, 2, H0[3]) && RootFraction(11, 3, H0[4]) && RootFraction(13, 3, H0[5])
    ensures RootFraction(17, 4, H0[6]) && RootFraction(19, 4, H0[7])
  {
  }

  /**
   Section 5.1.1 of FIPS 180-4: the message, one set bit, as few zeros as fill the last block, and the
   length in bits. So no two messages short enough for their length to fit are padded alike.
   */
  lemma PadExact(m: seq<Byte>)
    requires |m| < 0x2000_0000_0000_0000
    ensures var p := Pad(m); var n := |p|;
      && |m| + 9 <= n < |m| + 73 && p[..|m|] == m && p[|m|] == 0x80
      && (forall i :: |m| < i < n - 8 ==> p[i] == 0) && FromBigEndian(p[n - 8..]) == 8 * |m|
  {
    var p, z, l := Pad(m), Zeros(Gap(|m|)), BigEndian(8 * |m|, 8);
    assert p == m + ([0x80] + z + l) && p == (m + [0x80] + z) + l;
    assert p[|p| - 8..] == l;
    LengthFits();
    BigEndianRoundTrip(8 * |m|, 8);
  }

  lemma LengthFits()
    ensures Pow256(8) == 0x1_0000_0000_0000_0000
  {
    assert Pow256(2) == 0x1_0000;
    assert Pow256(4) == 0x1_0000_0000;
    assert Pow256(6) == 0x1_0000_0000_0000;
  }

  lemma PadInjective(a: seq<Byte>, b: seq<Byte>)
    requires |a| < 0x2000_0000_0000_0000 && |b| < 0x2000_0000_0000_0000 && Pad(a) == Pad(b)
    ensures a == b
  {
    PadExact(a);
    PadExact(b);
  }

  // ----- lemmas about whole blocks

  /** Whole blocks may be folded first and the rest after them. */
  lemma {:induction false} BlocksSplit(f: Compression, h: Chain, a: seq<Byte>, b: seq<Byte>, k: nat)
    requires |a| == 64 * k
    ensures Blocks(f, h, a + b) == Blocks(f, Blocks(f, h, a), b)
    decreases k
  {
    if k == 0 {
      assert a + b == b;
    } else {
      assert (a + b)[..64] == a[..64] && (a + b)[64..] == a[64..] + b;
      BlocksSplit(f, f(h, a[..64]), a[64..], b, k - 1);
    }
  }

  lemma OneBlock(f: Compression, h: Chain, b: seq<Byte>)
    requires |b| == 64
    ensures Blocks(f, h, b) == f(h, b)
  {
    assert b[..64] == b;
  }

  lemma BlocksAppend(f: Compression, a: seq<Byte>, b: seq<Byte>, k: nat)
    requires |a| == 64 * k && |b| == 64
    ensures Blocks(f, H0, a + b) == f(Blocks(f, H0, a), b)
  {
    BlocksSplit(f, H0, a, b, k);
    OneBlock(f, Blocks(f, H0, a), b);
  }

  // ----- the streaming context

  class Context {
    const f: Compression
    const buffer: array<Byte>
    var state: Chain
    var count: U64
    /** The bytes compressed so far, and the number of blocks they make. */
    ghost var whole: seq<Byte>
    ghost var blocks: nat

    /** The chaining words are those of the compressed bytes. */
    ghost predicate Compressed()
      reads this
    {
      buffer.Length == 64 && |whole| == 64 * blocks && state == Blocks(f, H0, whole)
    }

    /** The first `n` bytes of the buffer wait for the rest of their block. */
    ghost predicate Holding(n: nat)
      reads this
    {
      Compressed() && n < 64 && count == |whole| + n < 0x2000_0000_0000_0000
    }

    ghost predicate Valid()
      reads this
    {
      Holding(count % 64)
    }

    /** Everything absorbed so far. */
    ghost function Message(): seq<Byte>
      requires Valid()
      reads this, buffer
    {
      whole + buffer[..count % 64]
    }

    constructor (f: Compression)
      ensures Valid() && Message() == [] && this.f == f && fresh(buffer)
    {
      this.f := f;
      buffer := new Byte[64](_ => 0);
      state := H0;
      count := 0;
      whole, blocks := [], 0;
    }

    /** Overwrites part of the buffer. */
    method Store(at: nat, data: seq<Byte>)
      requires buffer.Length == 64 && at + |data| <= 64
      modifies buffer
      ensures buffer[..at + |data|] == old(buffer[..at]) + data
    {
      for i := 0 to |data|
        invariant buffer[..at + i] == old(buffer[..at]) + data[..i]
      {
        buffer[at + i] := data[i];
      }
    }

    method Compress(block: seq<Byte>)
      requires Compressed() && |block| == 64
      modifies `state, `whole, `blocks
      ensures Compressed() && whole == old(whole) + block
    {
      BlocksAppend(f, whole, block, blocks);
      state := f(state, block);
      whole, blocks := whole + block, blocks + 1;
    }

    /** Compresses the whole blocks of `data` from `start` on. */
    method CompressAll(data: seq<Byte>, start: nat) returns (pos: nat)
      requires Compressed() && start <= |data|
      modifies `state, `whole, `blocks
      ensures Compressed() && start <= pos <= |data| && |data| - pos < 64
      ensures whole == old(whole) + data[start..pos]
    {
      pos := start;
      while |data| - pos >= 64
        invariant Compressed() && start <= pos <= |data|
        invariant whole == old(whole) + data[start..pos]
      {
        Compress(data[pos..pos + 64]);
        pos := pos + 64;
      }
    }

    /** Completes the waiting block of `idx` bytes from `data`. */
    method TopUp(idx: nat, data: seq<Byte>) returns (start: nat)
      requires Compressed() && idx < 64 && |data| >= 64 - idx
      modifies `state, `whole, `blocks, buffer
      ensures Compressed() && start == 64 - idx
      ensures whole == old(whole) + old(buffer[..idx]) + data[..start]
    {
      start := 64 - idx;
      Store(idx, data[..start]);
      Compress(buffer[..]);
    }

    /** Leaves `rest` waiting in the buffer. */
    method Keep(rest: seq<Byte>)
      requires Compressed() && |rest| < 64 && count == |whole| + |rest| < 0x2000_0000_0000_0000
      modifies buffer
      ensures Valid() && Message() == whole + rest
    {
      RemainderIs(count, blocks, |rest|);
      if |rest| > 0 { Store(0, rest); }
    }

    method Update(data: seq<Byte>)
      requires Valid() && count + |data| < 0x2000_0000_0000_0000
      modifies this, buffer
      ensures Valid() && Message() == old(Message()) + data
    {
      ghost var msg := Message();
      var idx := count % 64;
      count := count + |data|;
      var start := 0;
      if idx > 0 {
        if |data| < 64 - idx {
          Store(idx, data);
          RemainderIs(count, blocks, idx + |data|);
          return;
        }
        start := TopUp(idx, data);
      }
      assert whole == msg + data[..start];
      var pos := CompressAll(data, start);
      Rejoin(msg, data, start, pos);
      Keep(data[pos..]);
    }

    /** Stores the end mark, and a first padded block if the length no longer fits behind it. */
    method MarkEnd() returns (idx: nat)
      requires Valid()
      modifies `state, `whole, `blocks, buffer
      ensures Compressed() && idx <= 56
      ensures whole + buffer[..idx] + Zeros(56 - idx) == old(Message()) + [0x80] + Zeros(Gap(count))
    {
      ghost var msg := Message();
      GapIs(count);
      idx := count % 64;
      Store(idx, [0x80]);
      idx := idx + 1;
      assert whole + buffer[..idx] == msg + [0x80];
      if idx > 56 {
        Store(idx, Zeros(64 - idx));
        Compress(buffer[..]);
        ZerosSum(64 - idx, 56);
        assert whole == msg + [0x80] + Zeros(64 - idx);
        assert whole + Zeros(56) == msg + [0x80] + Zeros(64 - idx + 56);
        idx := 0;
        assert whole + buffer[..0] == whole;
      }
    }

    /** Fills the block up with zeros and the length, and compresses it. */
    method LastBlock(idx: nat, bits: nat)
      requires Compressed() && idx <= 56
      modifies `state, `whole, `blocks, buffer
      ensures Compressed()
      ensures whole == old(whole) + old(buffer[..idx]) + Zeros(56 - idx) + BigEndian(bits, 8)
    {
      Store(idx, Zeros(56 - idx));
      Store(56, BigEndian(bits, 8));
      Compress(buffer[..]);
    }

    method Final() returns (hash: seq<Byte>)
      requires Valid()
      modifies this, buffer
      ensures hash == Digest(f, old(Message()))
    {
      ghost var msg := Message();
      var bits := count * 8;
      var idx := MarkEnd();
      LastBlock(idx, bits);
      assert whole == Pad(msg);
      hash := Serialize(state);
    }
  }

  lemma Rejoin(a: seq<Byte>, data: seq<Byte>, i: nat, j: nat)
    requires i <= j <= |data|
    ensures a + data[..i] + data[i..j] + data[j..] == a + data
  {
  }

  lemma GapIs(n: nat)
    ensures Gap(n) == if n % 64 < 56 then 55 - n % 64 else 119 - n % 64
  {
  }

  lemma ZerosSum(a: nat, b: nat)
    ensures Zeros(a) + Zeros(b) == Zeros(a + b)
  {
  }

  lemma RemainderIs(x: nat, k: nat, r: nat)
    requires x == 64 * k + r && r < 64
    ensures x % 64 == r
  {
  }

  // ----- one-shot and chunked hashing

  function Flatten(chunks: seq<seq<Byte>>): seq<Byte> {
    if chunks == [] then [] else Flatten(chunks[..|chunks| - 1]) + chunks[|chunks| - 1]
  }

  lemma {:induction false} FlattenPrefix(chunks: seq<seq<Byte>>, i: nat)
    requires i <= |chunks|
    ensures |Flatten(chunks[..i])| <= |Flatten(chunks)|
    decreases |chunks|
  {
    if i == |chunks| {
      assert chunks[..i] == chunks;
    } else {
      assert chunks[..|chunks| - 1][..i] == chunks[..i];
      FlattenPrefix(chunks[..|chunks| - 1], i);
    }
  }

  /** However a message is cut into updates, the digest is that of the whole message. */
  method HashChunks(f: Compression, chunks: seq<seq<Byte>>) returns (hash: seq<Byte>)
    requires |Flatten(chunks)| < 0x2000_0000_0000_0000
    ensures hash == Digest(f, Flatten(chunks))
  {
    var ctx := new Context(f);
    for i := 0 to |chunks|
      invariant ctx.f == f && ctx.Valid() && ctx.Message() == Flatten(chunks[..i])
      invariant fresh(ctx) && fresh(ctx.buffer)
    {
      assert chunks[..i + 1][..i] == chunks[..i];
      FlattenPrefix(chunks, i + 1);
      assert ctx.count == |ctx.Message()|;
      ctx.Update(chunks[i]);
    }
    assert chunks[..|chunks|] == chunks;
    hash := ctx.Final();
  }
}
