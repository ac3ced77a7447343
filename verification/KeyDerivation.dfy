/**
 HMAC (section 2 of RFC 2104) and PBKDF2 (section 5.2 of RFC 8018) over the streaming hash.
 */
module KeyDerivation {
  import opened Words
  import opened HeaderCodec
  import opened Sha256

  // ----- HMAC

  function XorConst(k: seq<Byte>, c: Byte): (r: seq<Byte>)
    ensures |r| == |k|
  {
    seq(|k|, i requires 0 <= i < |k| => k[i] ^ c)
  }

  /** The key as one block: hashed if too long, then filled up with zeros. */
  function BlockKey(f: Compression, key: seq<Byte>): (k: seq<Byte>)
    ensures |k| == 64
  {
    var short := if |key| > 64 then Digest(f, key) else key;
    short + Zeros(64 - |short|)
  }

  function Hmac(f: Compression, key: seq<Byte>, data: seq<Byte>): (d: Block)
  {
    var k := BlockKey(f, key);
    Digest(f, XorConst(k, 0x5C) + Digest(f, XorConst(k, 0x36) + data))
  }

  /**
   Section 2 of RFC 2104: H(K XOR opad, H(K XOR ipad, text)), with 0x36 and 0x5C repeated to a block and the
   key, or its hash if longer than a block, filled up with zeros.
   */
  lemma HmacExact(f: Compression, key: seq<Byte>, data: seq<Byte>, ipad: seq<Byte>, opad: seq<Byte>)
    requires |ipad| == |opad| == 64
    requires var k := if |key| > 64 then Digest(f, key) else key;
      forall i :: 0 <= i < 64 ==>
        var b := if i < |k| then k[i] else 0;
        ipad[i] == b ^ 0x36 && opad[i] == b ^ 0x5C
    ensures Hmac(f, key, data) == Digest(f, opad + Digest(f, ipad + data))
  {
    var k := BlockKey(f, key);
    assert ipad == XorConst(k, 0x36) && opad == XorConst(k, 0x5C);
  }

  /** The two updates of an inner or outer hash. */
  method HashPair(f: Compression, a: seq<Byte>, b: seq<Byte>) returns (d: seq<Byte>)
    requires |a| + |b| < 0x2000_0000_0000_0000
    ensures d == Digest(f, a + b)
  {
    var ctx := new Context(f);
    ctx.Update(a);
    assert ctx.count == |ctx.Message()|;
    ctx.Update(b);
    assert ctx.Message() == a + b;
    d := ctx.Final();
  }

  method KeyPad(k: seq<Byte>, c: Byte) returns (pad: seq<Byte>)
    ensures pad == XorConst(k, c)
  {
    pad := [];
    for i := 0 to |k|
      invariant |pad| == i && forall j :: 0 <= j < i ==> pad[j] == k[j] ^ c
    {
      pad := pad + [k[i] ^ c];
    }
  }

  method NormalizeKey(f: Compression, key: seq<Byte>) returns (k: seq<Byte>)
    requires |key| < 0x2000_0000_0000_0000
    ensures k == BlockKey(f, key)
  {
    var short := key;
    if |key| > 64 {
      short := HashPair(f, [], key);
      assert [] + key == key;
    }
    k := short + Zeros(64 - |short|);
  }

  method HmacSha256(f: Compression, key: seq<Byte>, data: seq<Byte>) returns (out: seq<Byte>)
    requires |key| < 0x2000_0000_0000_0000 && 64 + |data| < 0x2000_0000_0000_0000
    ensures out == Hmac(f, key, data)
  {
    var k := NormalizeKey(f, key);
    var ipad := KeyPad(k, 0x36);
    var opad := KeyPad(k, 0x5C);
    var inner := HashPair(f, ipad, data);
    out := HashPair(f, opad, inner);
  }

  // ----- PBKDF2

  type Block = s: seq<Byte> | |s| == 32 witness Zeros(32)

  /** The pseudorandom function under a fixed password. */
  type Prf = seq<Byte> -> Block

  function XorBytes(a: Block, b: Block): Block {
    seq(32, i requires 0 <= i < 32 => a[i] ^ b[i])
  }

  /** U_1 = PRF(S || INT(i)) and U_j = PRF(U_{j-1}). */
  function Iterate(prf: Prf, salt: seq<Byte>, i: nat, j: nat): Block
    requires 1 <= j
    decreases j
  {
    if j == 1 then prf(salt + BigEndian(i, 4)) else prf(Iterate(prf, salt, i, j - 1))
  }

  /** F(P, S, c, i): the exclusive-or of U_1 to U_c. */
  function DerivedBlock(prf: Prf, salt: seq<Byte>, c: nat, i: nat): Block
    requires 1 <= c
    decreases c
  {
    if c == 1 then Iterate(prf, salt, i, 1)
    else XorBytes(DerivedBlock(prf, salt, c - 1, i), Iterate(prf, salt, i, c))
  }

  /** T_1 || ... || T_n. */
  function DerivedBlocks(prf: Prf, salt: seq<Byte>, c: nat, n: nat): (t: seq<Byte>)
    requires 1 <= c
    ensures |t| == 32 * n
    decreases n
  {
    if n == 0 then [] else DerivedBlocks(prf, salt, c, n - 1) + DerivedBlock(prf, salt, c, n)
  }

  function Pbkdf2(prf: Prf, salt: seq<Byte>, c: nat, len: nat): (k: seq<Byte>)
    requires 1 <= c
    ensures |k| == len
  {
    DerivedBlocks(prf, salt, c, (len + 31) / 32)[..len]
  }

  /** The function applied `n` times. */
  function Chained(prf: Prf, u: Block, n: nat): Block
    decreases n
  {
    if n == 0 then u else prf(Chained(prf, u, n - 1))
  }

  lemma {:induction false} IterateChained(prf: Prf, salt: seq<Byte>, i: nat, j: nat)
    requires 1 <= j
    ensures Iterate(prf, salt, i, j) == Chained(prf, prf(salt + BigEndian(i, 4)), j - 1)
    decreases j
  {
    if j > 1 { IterateChained(prf, salt, i, j - 1); }
  }

  lemma {:induction false} BlockOfKey(prf: Prf, salt: seq<Byte>, c: nat, n: nat, q: nat, r: nat)
    requires 1 <= c && q < n && r < 32
    ensures DerivedBlocks(prf, salt, c, n)[32 * q + r] == DerivedBlock(prf, salt, c, q + 1)[r]
    decreases n
  {
    var front, last := DerivedBlocks(prf, salt, c, n - 1), DerivedBlock(prf, salt, c, n);
    assert DerivedBlocks(prf, salt, c, n) == front + last;
    AppendedAt(front, last, n - 1, q, r);
    if q < n - 1 { BlockOfKey(prf, salt, c, n - 1, q, r); }
  }

  lemma AppendedAt(a: seq<Byte>, b: Block, n: nat, q: nat, r: nat)
    requires |a| == 32 * n && q <= n && r < 32
    ensures (a + b)[32 * q + r] == if q < n then a[32 * q + r] else b[r]
  {
  }

  /**
   Section 5.2 of RFC 8018, byte by byte: with one iteration byte r of block q is that of the function of
   the salt and the block number from one on; each further iteration adds the function applied once more.
   */
  lemma KeyByte(prf: Prf, salt: seq<Byte>, c: nat, len: nat, q: nat, r: nat)
    requires 1 <= c && r < 32 && 32 * q + r < len
    ensures var u := prf(salt + BigEndian(q + 1, 4));
      Pbkdf2(prf, salt, c, len)[32 * q + r] ==
      if c == 1 then u[r] else Pbkdf2(prf, salt, c - 1, len)[32 * q + r] ^ Chained(prf, u, c - 1)[r]
  {
    BlockOfKey(prf, salt, c, (len + 31) / 32, q, r);
    IterateChained(prf, salt, q + 1, c);
    if c > 1 { BlockOfKey(prf, salt, c - 1, (len + 31) / 32, q, r); }
  }

  /** `prf` is HMAC under this password. */
  ghost predicate Keyed(prf: Prf, f: Compression, password: seq<Byte>) {
    forall data {:trigger Hmac(f, password, data)} :: prf(data) == Hmac(f, password, data)
  }

  method Evaluate(f: Compression, password: seq<Byte>, data: seq<Byte>, ghost prf: Prf) returns (u: seq<Byte>)
    requires Keyed(prf, f, password)
    requires |password| < 0x2000_0000_0000_0000 && 64 + |data| < 0x2000_0000_0000_0000
    ensures u == prf(data)
  {
    u := HmacSha256(f, password, data);
  }

  method XorInto(t: Block, u: Block) returns (r: seq<Byte>)
    ensures r == XorBytes(t, u)
  {
    r := [];
    for j := 0 to 32
      invariant |r| == j && forall i :: 0 <= i < j ==> r[i] == t[i] ^ u[i]
    {
      r := r + [t[j] ^ u[j]];
    }
  }

  method DeriveBlock(f: Compression, password: seq<Byte>, salt: seq<Byte>, c: U32, i: U32, ghost prf: Prf)
    returns (t: seq<Byte>)
    requires Keyed(prf, f, password)
    requires 1 <= c && |password| < 0x2000_0000_0000_0000 && |salt| + 4 <= 256
    ensures t == DerivedBlock(prf, salt, c, i)
  {
    var u := Evaluate(f, password, salt + BigEndian(i, 4), prf);
    t := u;
    var iter: int := 1;
    while iter < c
      invariant 1 <= iter <= c
      invariant u == Iterate(prf, salt, i, iter) && t == DerivedBlock(prf, salt, iter, i)
    {
      u := Evaluate(f, password, u, prf);
      t := XorInto(t, u);
      iter := iter + 1;
    }
  }

  /** The number of blocks, reduced to 32 bits as the code does. */
  function BlockCount(len: U64): U32 { Wrap32(Wrap64(len + 31) / 32) }

  /** How many bytes are written by a call that ends: all of them unless the block count was reduced. */
  function Filled(len: U64): nat { Min(len, 32 * BlockCount(len)) }

  /** The 32-bit block counter after one increment, which wraps. */
  function NextBlock(block: U32): U32 { if block == 0xFFFF_FFFF then 0 else block + 1 }

  /** The counter after `n` passes of the loop. */
  function BlockAfter(n: nat): U32 { if n == 0 then 1 else NextBlock(BlockAfter(n - 1)) }

  lemma {:induction false} BlockAfterIs(n: nat)
    requires n < 0xFFFF_FFFF
    ensures BlockAfter(n) == n + 1
  {
    if n > 0 { BlockAfterIs(n - 1); }
  }

  /** The test of the loop over `blocks` blocks after `k` passes. */
  predicate GoesOn(blocks: U32, k: nat) { BlockAfter(k) <= blocks }

  /** The loop is left after `n` passes: its test fails for the first time. */
  ghost predicate LeavesAfter(blocks: U32, n: nat) {
    !GoesOn(blocks, n) && forall k: nat {:trigger GoesOn(blocks, k)} :: k < n ==> GoesOn(blocks, k)
  }

  ghost predicate LoopEnds(blocks: U32) { exists n: nat :: LeavesAfter(blocks, n) }

  /** The counter gets past the blocks, after one pass for each, unless there are 2^32 - 1 of them. */
  lemma LoopEndsIff(blocks: U32)
    ensures LoopEnds(blocks) <==> blocks != 0xFFFF_FFFF
    ensures blocks != 0xFFFF_FFFF ==> LeavesAfter(blocks, blocks)
  {
    if blocks != 0xFFFF_FFFF {
      BlockAfterIs(blocks);
      forall k: nat {:trigger GoesOn(blocks, k)} | k < blocks ensures GoesOn(blocks, k) {
        BlockAfterIs(k);
      }
      assert LeavesAfter(blocks, blocks);
    }
  }

  /** A call ends with an error, ends with bytes written to the front of the output, or does not end. */
  datatype Outcome = Invalid | Written(out: seq<Byte>) | Endless

  /** What a caller must know beforehand to get the whole key. */
  predicate Delivers(salt: seq<Byte>, iterations: U32, len: U64) {
    0 < iterations && 0 < len && |salt| <= 252 && (len + 31) / 32 < 0xFFFF_FFFF
  }

  /** The reduced count is one the loop can pass and covers the whole output, or not. */
  lemma WholeIff(len: U64)
    ensures BlockCount(len) != 0xFFFF_FFFF && Filled(len) == len <==> (len + 31) / 32 < 0xFFFF_FFFF
    ensures (len + 31) / 32 < 0xFFFF_FFFF && 0 < len ==> 0 < BlockCount(len)
  {
  }

  /**
   Invalid is the invalid-argument error: no iterations, no output, or a salt that does not fit the
   256-byte work area. The last clause says exactly when the call ends with the whole key written.
   */
  method DeriveKey(f: Compression, password: seq<Byte>, salt: seq<Byte>, iterations: U32, len: U64)
    returns (r: Outcome)
    requires |password| < 0x2000_0000_0000_0000
    ensures r.Invalid? <==> iterations == 0 || len == 0 || (|salt| > 252 && BlockCount(len) > 0)
    ensures r.Endless? <==> !r.Invalid? && !LoopEnds(BlockCount(len))
    ensures r.Written? ==> r.out == Pbkdf2(d => Hmac(f, password, d), salt, iterations, Filled(len))
    ensures (r.Written? && |r.out| == len) <==> Delivers(salt, iterations, len)
  {
    WholeIff(len);
    if iterations == 0 || len == 0 { return Invalid; }
    var blocks := BlockCount(len);
    LoopEndsIff(blocks);
    if |salt| + 4 > 256 {
      if blocks > 0 { return Invalid; }
      return Written([]);
    }
    if blocks == 0xFFFF_FFFF { return Endless; }
    ghost var prf: Prf := d => Hmac(f, password, d);
    BlocksNeeded(len);
    var out := FillKey(f, password, salt, iterations, len, blocks, prf);
    CutIsKey(prf, salt, iterations, len, blocks);
    r := Written(out);
  }

  /** The loop over the blocks, with its wrapping counter. */
  method FillKey(f: Compression, password: seq<Byte>, salt: seq<Byte>, c: U32, len: U64, blocks: U32, ghost prf: Prf)
    returns (out: seq<Byte>)
    requires Keyed(prf, f, password) && |password| < 0x2000_0000_0000_0000
    requires blocks < 0xFFFF_FFFF && (0 < blocks ==> 32 * (blocks - 1) < len) && 1 <= c && |salt| <= 252
    ensures out == Cut(DerivedBlocks(prf, salt, c, blocks), len)
  {
    out := [];
    var block: U32 := 1;
    ghost var n: nat := 0;
    while block <= blocks
      invariant n <= blocks && block == n + 1
      invariant out == Cut(DerivedBlocks(prf, salt, c, n), len)
      decreases blocks - n
    {
      var t := DeriveBlock(f, password, salt, c, block, prf);
      var copy := Min(32, len - 32 * (block - 1));
      CutAppend(DerivedBlocks(prf, salt, c, n), t, len, n);
      out := out + t[..copy];
      block := NextBlock(block);
      n := n + 1;
    }
  }

  lemma BlocksNeeded(len: U64)
    ensures 0 < BlockCount(len) ==> 32 * (BlockCount(len) - 1) < len
  {
  }

  lemma CutIsKey(prf: Prf, salt: seq<Byte>, c: nat, len: U64, blocks: U32)
    requires 1 <= c && blocks == BlockCount(len)
    ensures Cut(DerivedBlocks(prf, salt, c, blocks), len) == Pbkdf2(prf, salt, c, Filled(len))
  {
    DerivedBlocksPrefix(prf, salt, c, (Filled(len) + 31) / 32, blocks);
  }

  /** The first `len` bytes, or all if there are fewer. */
  function Cut(s: seq<Byte>, len: nat): seq<Byte> { if |s| <= len then s else s[..len] }

  lemma CutAppend(s: seq<Byte>, t: Block, len: nat, n: nat)
    requires |s| == 32 * n < len
    ensures Cut(s + t, len) == Cut(s, len) + t[..Min(32, len - 32 * n)]
  {
  }

  lemma {:induction false} DerivedBlocksPrefix(prf: Prf, salt: seq<Byte>, c: nat, m: nat, n: nat)
    requires 1 <= c && m <= n
    ensures DerivedBlocks(prf, salt, c, m) <= DerivedBlocks(prf, salt, c, n)
    decreases n
  {
    if m < n { DerivedBlocksPrefix(prf, salt, c, m, n - 1); }
  }

  /** A shorter derived key is a prefix of a longer one. */
  lemma ShorterIsPrefix(prf: Prf, salt: seq<Byte>, c: nat, m: nat, n: nat)
    requires 1 <= c && m <= n
    ensures Pbkdf2(prf, salt, c, m) <= Pbkdf2(prf, salt, c, n)
  {
    DerivedBlocksPrefix(prf, salt, c, (m + 31) / 32, (n + 31) / 32);
  }
}
