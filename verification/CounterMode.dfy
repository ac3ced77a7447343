/** Counter mode over any block function: the 128-bit big-endian counter and the key stream it drives. */
module CounterMode {
  import opened Words
  import opened HeaderCodec

  type Block = s: seq<Byte> | |s| == 16 witness [0, 0, 0, 0, 0, 0, 0, 0, 0, 0, 0, 0, 0, 0, 0, 0]

  /** The block cipher under a fixed key. */
  type Cipher = Block -> Block

  // ----- the counter

  /** The next counter: the last byte is incremented, with a carry when it returns to zero. */
  function Next(s: seq<Byte>): (r: seq<Byte>)
    ensures |r| == |s|
    decreases |s|
  {
    if s == [] then []
    else
      var n := |s| - 1;
      if s[n] + 1 != 0 then s[..n] + [s[n] + 1] else Next(s[..n]) + [0]
  }

  /** As a number the counter grows by one, and returns to zero at the end of its width. */
  lemma {:induction false} NextValue(s: seq<Byte>)
    ensures FromBigEndian(s) + 1 <= Pow256(|s|)
    ensures FromBigEndian(Next(s)) == if FromBigEndian(s) + 1 == Pow256(|s|) then 0 else FromBigEndian(s) + 1
    decreases |s|
  {
    if s != [] {
      var n := |s| - 1;
      NextValue(s[..n]);
      Increment8(s[n]);
      ByteBack(s[n]);
      if s[n] + 1 != 0 {
        assert Next(s)[..n] == s[..n];
      } else {
        assert Next(s)[..n] == Next(s[..n]);
      }
    }
  }

  lemma NextNumber(k: nat, n: nat)
    requires k + 1 < Pow256(n)
    ensures Next(BigEndian(k, n)) == BigEndian(k + 1, n)
  {
    var b := BigEndian(k, n);
    BigEndianRoundTrip(k, n);
    NextValue(b);
    FromBigEndianRoundTrip(Next(b));
  }

  /** Below the 32-bit limit of the block number the nonce part stays as it is. */
  lemma NextBlockNumber(nonce: seq<Byte>, k: nat)
    requires k + 1 < 0x1_0000_0000
    ensures Next(nonce + BigEndian(k, 4)) == nonce + BigEndian(k + 1, 4)
  {
    Widths();
    NextNumber(k, 4);
    BigEndianRoundTrip(k, 4);
    NextAppend(nonce, BigEndian(k, 4));
  }

  lemma {:induction false} NextAppend(a: seq<Byte>, b: seq<Byte>)
    requires FromBigEndian(b) + 1 < Pow256(|b|)
    ensures Next(a + b) == a + Next(b)
    decreases |b|
  {
    if b != [] {
      var n := |b| - 1;
      assert (a + b)[..|a| + n] == a + b[..n];
      Increment8(b[n]);
      if b[n] + 1 == 0 {
        NextAppend(a, b[..n]);
      }
    }
  }

  method IncrementCounter(ctr: array<Byte>)
    requires ctr.Length == 16
    modifies ctr
    ensures ctr[..] == Next(old(ctr[..]))
  {
    var i: int := 15;
    ghost var was := ctr[..];
    assert was[..16] == was && ctr[16..] == [];
    while i >= 0
      invariant -1 <= i <= 15
      invariant ctr[..i + 1] == was[..i + 1]
      invariant Next(was) == Next(was[..i + 1]) + ctr[i + 1..]
      decreases i
    {
      ghost var tail := ctr[i + 1..];
      assert was[..i + 1][..i] == was[..i] && was[..i + 1][i] == ctr[i];
      ctr[i] := ctr[i] + 1;
      assert ctr[i + 1..] == tail;
      assert ctr[..i] == was[..i] by { assert ctr[..i] == old(ctr[..])[..i]; }
      if ctr[i] != 0 {
        assert ctr[..] == was[..i] + [ctr[i]] + tail;
        return;
      }
      assert ctr[i..] == [0] + tail;
      i := i - 1;
    }
    assert ctr[0..] == ctr[..];
  }

  // ----- the key stream

  function Xor(data: seq<Byte>, key: Block): (r: seq<Byte>)
    requires |data| <= 16
    ensures |r| == |data|
  {
    seq(|data|, i requires 0 <= i < |data| => data[i] ^ key[i])
  }

  function Crypt(e: Cipher, ctr: Block, data: seq<Byte>): (r: seq<Byte>)
    ensures |r| == |data|
    decreases |data|
  {
    if data == [] then []
    else
      var n := Min(|data|, 16);
      Xor(data[..n], e(ctr)) + Crypt(e, Next(ctr), data[n..])
  }

  lemma XorBytes(a: Byte, b: Byte)
    ensures (a ^ b) ^ b == a
  {
  }

  lemma XorTwice(data: seq<Byte>, key: Block)
    requires |data| <= 16
    ensures Xor(Xor(data, key), key) == data
  {
    forall i | 0 <= i < |data| ensures Xor(Xor(data, key), key)[i] == data[i] {
      XorBytes(data[i], key[i]);
    }
  }

  /** Decryption is the same operation. */
  lemma {:induction false} CryptTwice(e: Cipher, ctr: Block, data: seq<Byte>)
    ensures Crypt(e, ctr, Crypt(e, ctr, data)) == data
    decreases |data|
  {
    if data != [] {
      var n := Min(|data|, 16);
      var out, rest := Xor(data[..n], e(ctr)), Crypt(e, Next(ctr), data[n..]);
      assert (out + rest)[..n] == out && (out + rest)[n..] == rest;
      XorTwice(data[..n], e(ctr));
      CryptTwice(e, Next(ctr), data[n..]);
    }
  }

  lemma CryptHead(e: Cipher, ctr: Block, data: seq<Byte>, i: nat)
    requires i < |data| && i < 16
    ensures Crypt(e, ctr, data)[i] == data[i] ^ e(ctr)[i]
  {
  }

  lemma CryptTail(e: Cipher, ctr: Block, data: seq<Byte>, i: nat)
    requires 16 <= i < |data|
    ensures Crypt(e, ctr, data)[i] == Crypt(e, Next(ctr), data[16..])[i - 16]
  {
  }

  /** The counter after `q` increments. */
  function NextBy(ctr: Block, q: nat): Block
    decreases q
  {
    if q == 0 then ctr else NextBy(Next(ctr), q - 1)
  }

  lemma {:induction false} NextByIsNumber(nonce: seq<Byte>, k: nat, q: nat)
    requires |nonce| == 12 && k + q < 0x1_0000_0000
    ensures NextBy(nonce + BigEndian(k, 4), q) == nonce + BigEndian(k + q, 4)
    decreases q
  {
    if q > 0 {
      NextBlockNumber(nonce, k);
      NextByIsNumber(nonce, k + 1, q - 1);
    }
  }

  lemma {:induction false} CryptByBlock(e: Cipher, ctr: Block, data: seq<Byte>, q: nat, r: nat)
    requires r < 16 && 16 * q + r < |data|
    ensures Crypt(e, ctr, data)[16 * q + r] == data[16 * q + r] ^ e(NextBy(ctr, q))[r]
    decreases q
  {
    if q == 0 {
      CryptHead(e, ctr, data, r);
    } else {
      CryptTail(e, ctr, data, 16 * q + r);
      CryptByBlock(e, Next(ctr), data[16..], q - 1, r);
    }
  }

  /** Byte `r` of block `q` is masked by the cipher of the nonce followed by the block number. */
  lemma CryptAt(e: Cipher, nonce: seq<Byte>, data: seq<Byte>, q: nat, r: nat)
    requires |nonce| == 12 && r < 16 && 16 * q + r < |data| && q < 0x1_0000_0000
    ensures Crypt(e, nonce + BigEndian(0, 4), data)[16 * q + r] == data[16 * q + r] ^ e(nonce + BigEndian(q, 4))[r]
  {
    CryptByBlock(e, nonce + BigEndian(0, 4), data, q, r);
    NextByIsNumber(nonce, 0, q);
  }

  method InitialCounter(nonce: seq<Byte>) returns (ctr: array<Byte>)
    requires |nonce| == 12
    ensures ctr.Length == 16 && fresh(ctr) && ctr[..] == nonce + BigEndian(0, 4)
  {
    ctr := new Byte[16](_ => 0);
    for i := 0 to 12
      invariant ctr[..i] == nonce[..i] && ctr[12..] == [0, 0, 0, 0]
    {
      ctr[i] := nonce[i];
    }
    ZeroBlockNumber();
    assert ctr[..] == ctr[..12] + ctr[12..];
  }

  /** Encrypts or decrypts block by block, counting on from `ctr`. */
  method CryptFrom(e: Cipher, input: seq<Byte>, ctr: array<Byte>) returns (output: seq<Byte>)
    requires ctr.Length == 16
    modifies ctr
    ensures output == Crypt(e, old(ctr[..]), input)
  {
    output := [];
    var off := 0;
    while off < |input|
      invariant off <= |input|
      invariant output + Crypt(e, ctr[..], input[off..]) == Crypt(e, old(ctr[..]), input)
    {
      var block := Min(|input| - off, 16);
      var masked := Mask(input[off..off + block], e(ctr[..]));
      assert input[off..][..block] == input[off..off + block] && input[off..][block..] == input[off + block..];
      output := output + masked;
      off := off + block;
      IncrementCounter(ctr);
    }
  }

  /** Encrypts or decrypts under a 12-byte nonce. */
  method CryptWith(e: Cipher, input: seq<Byte>, nonce: seq<Byte>) returns (output: seq<Byte>)
    requires |nonce| == 12
    ensures output == Crypt(e, nonce + BigEndian(0, 4), input)
  {
    var ctr := InitialCounter(nonce);
    output := CryptFrom(e, input, ctr);
  }

  method Mask(data: seq<Byte>, key: Block) returns (r: seq<Byte>)
    requires |data| <= 16
    ensures r == Xor(data, key)
  {
    r := [];
    for i := 0 to |data|
      invariant |r| == i && forall j :: 0 <= j < i ==> r[j] == data[j] ^ key[j]
    {
      r := r + [data[i] ^ key[i]];
    }
  }

  lemma ZeroBlockNumber()
    ensures BigEndian(0, 4) == [0, 0, 0, 0]
  {
    assert BigEndian(0, 1) == [0];
    assert BigEndian(0, 2) == [0, 0];
    assert BigEndian(0, 3) == [0, 0, 0];
  }
}
