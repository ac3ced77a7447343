/**
 Known answers of the checksum: published entries of the lookup table, which fix the polynomial and the
 direction of the division, and the checksum of four bytes of ones, which fixes how it starts and ends.
 */
module CrcCheck {
  import opened Words
  import opened Crc32
  import opened CrcTable

  // ----- table entries

  lemma TailBits(n: nat, k: nat)
    requires 0 < k
    ensures BitsOf(n, k)[0] == (n % 2 == 1) && BitsOf(n, k)[1..] == BitsOf(n / 2, k - 1)
  {
  }

  lemma HalfNumber(d: nat, n: nat)
    requires n == 32 && d < 0x1_0000_0000
    ensures BitsOf(d, n)[1..] + [false] == BitsOf(d / 2, n)
  {
    Pow2Values();
    TailBits(d, n);
    SmallNumber(d / 2, n - 1, n);
  }

  /** An even register is only shifted; from an odd one the polynomial is subtracted. */
  lemma StepNumber(d: nat, n: nat)
    requires n == 32 && d < 0x1_0000_0000
    ensures BitStep(BitsOf(d, n)) == if d % 2 == 0 then BitsOf(d / 2, n) else Xor(POLY, BitsOf(d / 2, n))
  {
    TailBits(d, n);
    HalfNumber(d, n);
  }

  /** `d` is `c` doubled `n` times. */
  predicate Doubled(c: nat, n: nat, d: nat)
    decreases n
  {
    if n == 0 then d == c else d % 2 == 0 && Doubled(c, n - 1, d / 2)
  }

  lemma FirstStep(w: Word, v: Word, n: nat)
    requires BitStep(w) == v && 0 < n
    ensures Steps(w, n) == Steps(v, n - 1)
  {
  }

  lemma EvenFirst(d: nat, n: nat, k: nat)
    requires k == 32 && d % 2 == 0 && d < 0x1_0000_0000 && 0 < n
    ensures Steps(BitsOf(d, k), n) == Steps(BitsOf(d / 2, k), n - 1)
  {
    StepNumber(d, k);
    FirstStep(BitsOf(d, k), BitsOf(d / 2, k), n);
  }

  lemma {:induction false} EvenSteps(c: nat, n: nat, d: nat, k: nat)
    requires k == 32 && Doubled(c, n, d) && d < 0x1_0000_0000
    ensures Steps(BitsOf(d, k), n) == BitsOf(c, k)
    decreases n
  {
    if n > 0 {
      EvenFirst(d, n, k);
      EvenSteps(c, n - 1, d / 2, k);
    }
  }

  lemma {:induction false} StepsSplit(c: Word, n: nat, m: nat)
    ensures Steps(c, n + m) == Steps(Steps(c, n), m)
    decreases n
  {
    if n > 0 { StepsSplit(BitStep(c), n - 1, m); }
  }

  lemma SubtractOnce(k: nat)
    requires k == 32
    ensures BitStep(BitsOf(1, k)) == POLY
  {
    StepNumber(1, k);
    ZeroBits(k);
    assert Xor(POLY, Zeros(32)) == POLY;
  }

  /** The entry of a power of two is the polynomial shifted down, as long as no bit falls out of it. */
  lemma PowerEntry(d: nat, j: nat, e: nat, k: nat, n: nat)
    requires k == 32 && n == 8 && j < 8 && d < 256 && Doubled(1, j, d) && Doubled(e, 7 - j, 0xEDB8_8320)
    ensures Steps(BitsOf(d, k), n) == BitsOf(e, k)
  {
    EvenSteps(1, j, d, k);
    StepsSplit(BitsOf(d, k), j, 8 - j);
    SubtractOnce(k);
    FirstStep(BitsOf(1, k), POLY, 8 - j);
    EvenSteps(e, 7 - j, 0xEDB8_8320, k);
  }

  /** Six of the published table entries. */
  lemma PublishedEntries()
    ensures ByteStep(BitsOf(0x80, 32)) == BitsOf(0xEDB8_8320, 32)
    ensures ByteStep(BitsOf(0x40, 32)) == BitsOf(0x76DC_4190, 32)
    ensures ByteStep(BitsOf(0x20, 32)) == BitsOf(0x3B6E_20C8, 32)
    ensures ByteStep(BitsOf(0x10, 32)) == BitsOf(0x1DB7_1064, 32)
    ensures ByteStep(BitsOf(0x08, 32)) == BitsOf(0x0EDB_8832, 32)
    ensures ByteStep(BitsOf(0x04, 32)) == BitsOf(0x076D_C419, 32)
  {
    PowersDoubled();
    PolynomialHalves();
    PowerEntry(0x80, 7, 0xEDB8_8320, 32, 8);
    PowerEntry(0x40, 6, 0x76DC_4190, 32, 8);
    PowerEntry(0x20, 5, 0x3B6E_20C8, 32, 8);
    PowerEntry(0x10, 4, 0x1DB7_1064, 32, 8);
    PowerEntry(0x08, 3, 0x0EDB_8832, 32, 8);
    PowerEntry(0x04, 2, 0x076D_C419, 32, 8);
  }

  lemma PowersDoubled()
    ensures Doubled(1, 2, 0x04) && Doubled(1, 3, 0x08) && Doubled(1, 4, 0x10)
    ensures Doubled(1, 5, 0x20) && Doubled(1, 6, 0x40) && Doubled(1, 7, 0x80)
  {
    assert Doubled(1, 2, 0x04) && Doubled(1, 3, 0x08);
    assert Doubled(1, 4, 0x10) && Doubled(1, 5, 0x20);
  }

  lemma PolynomialHalves()
    ensures Doubled(0xEDB8_8320, 0, 0xEDB8_8320) && Doubled(0x76DC_4190, 1, 0xEDB8_8320)
    ensures Doubled(0x3B6E_20C8, 2, 0xEDB8_8320) && Doubled(0x1DB7_1064, 3, 0xEDB8_8320)
    ensures Doubled(0x0EDB_8832, 4, 0xEDB8_8320) && Doubled(0x076D_C419, 5, 0xEDB8_8320)
  {
    assert Doubled(0x1DB7_1064, 2, 0x76DC_4190) && Doubled(0x0EDB_8832, 3, 0x76DC_4190);
    assert Doubled(0x076D_C419, 2, 0x1DB7_1064) && Doubled(0x076D_C419, 4, 0x76DC_4190);
  }

  // ----- all ones

  function Trues(n: nat): (s: Bits)
    ensures |s| == n && forall i :: 0 <= i < n ==> s[i]
  {
    seq(n, _ => true)
  }

  lemma {:induction false} AllOnes(k: nat)
    ensures BitsOf(Pow2(k) - 1, k) == Trues(k)
  {
    if k > 0 {
      AllOnes(k - 1);
      assert (Pow2(k) - 1) / 2 == Pow2(k - 1) - 1;
      assert [true] + Trues(k - 1) == Trues(k);
    }
  }

  lemma OneCancels(c: Word, n: nat)
    requires 0 < n <= 32 && c == Trues(n) + Zeros(32 - n)
    ensures DivideBit(c, true) == Trues(n - 1) + Zeros(33 - n)
  {
    var d: Word := c[0 := false];
    assert BitStep(d) == Half(d);
    assert Half(d) == Trues(n - 1) + Zeros(33 - n);
  }

  /** Against a register of ones, ones of the message cancel one at a time. */
  lemma {:induction false} OnesCancel(n: nat)
    requires n <= 32
    ensures Divide(Trues(n) + Zeros(32 - n), Trues(n)) == Zeros(32)
    decreases n
  {
    var c: Word := Trues(n) + Zeros(32 - n);
    if n == 0 {
      assert c == Zeros(32);
    } else {
      OneCancels(c, n);
      assert Trues(n)[1..] == Trues(n - 1);
      OnesCancel(n - 1);
    }
  }

  lemma {:induction false} OnesMessage(n: nat)
    ensures MessageBits(seq(n, _ => 0xFF)) == Trues(8 * n)
  {
    if n > 0 {
      var m: seq<Byte> := seq(n, _ => 0xFF);
      assert m[..n - 1] == seq(n - 1, _ => 0xFF);
      OnesMessage(n - 1);
      OnesOctet();
      assert Trues(8 * (n - 1)) + Trues(8) == Trues(8 * n);
    }
  }

  lemma OnesOctet()
    ensures Octet(0xFF) == Trues(8)
  {
    Pow2Values();
    AllOnes(8);
    assert (0xFF as Byte) as int == 255;
  }

  lemma OnesRegister()
    ensures ONES == Trues(32)
  {
    Pow2Values();
    AllOnes(32);
  }

  lemma OnesDivided(m: seq<Byte>)
    requires m == [0xFF, 0xFF, 0xFF, 0xFF]
    ensures Divide(ONES, MessageBits(m)) == Zeros(32)
  {
    assert m == seq(4, _ => 0xFF);
    OnesMessage(4);
    OnesRegister();
    assert Trues(32) + Zeros(0) == Trues(32);
    OnesCancel(32);
  }

  /** The checksum of four bytes of ones is the word of ones. */
  lemma CrcOfOnes()
    ensures Value(Crc([0xFF, 0xFF, 0xFF, 0xFF])) == 0xFFFF_FFFF
  {
    var m: seq<Byte> := [0xFF, 0xFF, 0xFF, 0xFF];
    OnesDivided(m);
    CrcIsReference(m);
    assert Xor(Zeros(32), ONES) == ONES;
    OnesValue(32);
  }

  lemma OnesValue(k: nat)
    requires k == 32
    ensures Value(BitsOf(0xFFFF_FFFF, k)) == 0xFFFF_FFFF
  {
    Pow2Values();
    ValueOfBits(0xFFFF_FFFF, k);
  }
}
