/**
 CRC-32 with the reflected polynomial 0xEDB88320: the table-driven form, the bit-at-a-time division
 it refines, and the bursts it detects. A 32-bit word is its sequence of bits, least significant
 first, which is all that shifts and exclusive-or need.
 */
module Crc32 {
  import opened Words

  // ----- bits

  type Bits = seq<bool>

  /** The `k` low-order bits of `n`. */
  function BitsOf(n: nat, k: nat): (s: Bits)
    ensures |s| == k
    decreases k
  {
    if k == 0 then [] else [n % 2 == 1] + BitsOf(n / 2, k - 1)
  }

  function Value(s: Bits): nat {
    if s == [] then 0 else (if s[0] then 1 else 0) + 2 * Value(s[1..])
  }

  lemma {:induction false} ValueRange(s: Bits)
    ensures Value(s) < Pow2(|s|)
  {
    if s != [] { ValueRange(s[1..]); }
  }

  lemma {:induction false} BitsOfValue(s: Bits)
    ensures BitsOf(Value(s), |s|) == s
  {
    if s != [] {
      BitsOfValue(s[1..]);
      assert Value(s) / 2 == Value(s[1..]);
    }
  }

  lemma {:induction false} ValueOfBits(n: nat, k: nat)
    requires n < Pow2(k)
    ensures Value(BitsOf(n, k)) == n
    decreases k
  {
    if k > 0 {
      ValueOfBits(n / 2, k - 1);
      assert BitsOf(n, k)[1..] == BitsOf(n / 2, k - 1);
    }
  }

  function Xor(x: Bits, y: Bits): (z: Bits)
    requires |x| == |y|
    ensures |z| == |x|
  {
    seq(|x|, i requires 0 <= i < |x| => x[i] != y[i])
  }

  type Word = w: Bits | |w| == 32 witness BitsOf(0, 32)

  /** Shift right by one. */
  function Half(w: Word): Word { w[1..] + [false] }

  function Zeros(n: nat): (s: Bits)
    ensures |s| == n && forall i :: 0 <= i < n ==> !s[i]
  {
    seq(n, _ => false)
  }

  /** A byte as a word. */
  function ByteWord(b: Byte): Word { Octet(b) + Zeros(24) }

  const POLY: Word := BitsOf(0xEDB8_8320, 32)
  const ONES: Word := BitsOf(0xFFFF_FFFF, 32)

  // ----- division

  /** One step of the division: shift out a bit, subtract the polynomial if it was set. */
  function BitStep(c: Word): Word { if c[0] then Xor(POLY, Half(c)) else Half(c) }

  function Steps(c: Word, n: nat): Word
    decreases n
  {
    if n == 0 then c else Steps(BitStep(c), n - 1)
  }

  /** Division of one byte. */
  function ByteStep(c: Word): Word { Steps(c, 8) }

  /** Divides in one message bit, as the shift register of the standard does. */
  function DivideBit(c: Word, bit: bool): Word { BitStep(c[0 := c[0] != bit]) }

  /** Divides in message bits, first bit first. */
  function Divide(c: Word, bits: Bits): Word
    decreases |bits|
  {
    if bits == [] then c else Divide(DivideBit(c, bits[0]), bits[1..])
  }

  /** All bits of a message in transmission order. */
  function MessageBits(m: seq<Byte>): Bits {
    if m == [] then [] else MessageBits(m[..|m| - 1]) + Octet(m[|m| - 1])
  }

  /** The reference: bit-at-a-time division of the whole message. */
  function ReferenceCrc(m: seq<Byte>): Word { Xor(Divide(ONES, MessageBits(m)), ONES) }

  /** The register after the bytes of `m`, started at `c`. */
  function Run(c: Word, m: seq<Byte>): Word {
    if m == [] then c else ByteStep(Xor(Run(c, m[..|m| - 1]), ByteWord(m[|m| - 1])))
  }

  function Crc(m: seq<Byte>): Word { Xor(Run(ONES, m), ONES) }

  // ----- algebra of exclusive-or

  lemma XorLaws(x: Bits, y: Bits, z: Bits)
    requires |x| == |y| == |z|
    ensures Xor(x, y) == Xor(y, x) && Xor(Xor(x, y), z) == Xor(x, Xor(y, z))
    ensures Xor(Xor(x, y), y) == x && Xor(Xor(x, z), Xor(y, z)) == Xor(x, y)
    ensures Xor(x, y) == Zeros(|x|) ==> x == y
  {
    if Xor(x, y) == Zeros(|x|) {
      forall i | 0 <= i < |x| ensures x[i] == y[i] { assert Xor(x, y)[i] == Zeros(|x|)[i]; }
    }
  }

  lemma HalfXor(x: Word, y: Word)
    ensures Half(Xor(x, y)) == Xor(Half(x), Half(y))
  {
  }

  lemma BitStepLinear(x: Word, y: Word)
    ensures BitStep(Xor(x, y)) == Xor(BitStep(x), BitStep(y))
  {
    var a, b := Half(x), Half(y);
    HalfXor(x, y);
    assert Xor(POLY, Xor(a, b)) == Xor(Xor(POLY, a), b) == Xor(a, Xor(POLY, b));
    assert Xor(Xor(POLY, a), Xor(POLY, b)) == Xor(a, b);
  }

  lemma {:induction false} TopBit(n: nat, k: nat)
    requires 0 < k && Pow2(k - 1) <= n < Pow2(k)
    ensures BitsOf(n, k)[k - 1]
    decreases k
  {
    if k > 1 { TopBit(n / 2, k - 1); }
  }

  lemma PolyTop()
    ensures POLY[31]
  {
    Pow2Values();
    TopBit(0xEDB8_8320, 32);
  }

  lemma BitStepAt(x: Word, i: nat)
    requires i < 32
    ensures BitStep(x)[i] == ((x[0] && POLY[i]) != (i < 31 && x[i + 1]))
  {
  }

  /** The top bit of the polynomial tells afterwards what was shifted out. */
  lemma BitStepInjective(x: Word, y: Word)
    requires BitStep(x) == BitStep(y)
    ensures x == y
  {
    PolyTop();
    BitStepAt(x, 31);
    BitStepAt(y, 31);
    forall i | 0 <= i < 32 ensures x[i] == y[i] {
      if i > 0 {
        BitStepAt(x, i - 1);
        BitStepAt(y, i - 1);
      }
    }
  }

  lemma {:induction false} StepsLinear(x: Word, y: Word, n: nat)
    ensures Steps(Xor(x, y), n) == Xor(Steps(x, n), Steps(y, n))
    decreases n
  {
    if n > 0 {
      BitStepLinear(x, y);
      StepsLinear(BitStep(x), BitStep(y), n - 1);
    }
  }

  /** The register never forgets: steps can be undone. */
  lemma {:induction false} StepsInjective(x: Word, y: Word, n: nat)
    requires Steps(x, n) == Steps(y, n)
    ensures x == y
    decreases n
  {
    if n > 0 {
      StepsInjective(BitStep(x), BitStep(y), n - 1);
      BitStepInjective(x, y);
    }
  }

  /** While the bits shifted out are zero, steps only shift. */
  lemma {:induction false} StepsShift(x: Word, n: nat)
    requires n <= 32 && forall i :: 0 <= i < n ==> !x[i]
    ensures Steps(x, n) == x[n..] + Zeros(n)
    decreases n
  {
    if n > 0 {
      var h := Half(x);
      forall i | 0 <= i < n - 1 ensures !h[i] { assert h[i] == x[i + 1]; }
      StepsShift(h, n - 1);
      assert h[n - 1..] + Zeros(n - 1) == x[n..] + Zeros(n);
    } else {
      assert x[0..] + Zeros(0) == x;
    }
  }

  // ----- a byte through the table, and through single bits

  /** The low byte of a word, and the word without it. */
  function Low(x: Word): Word { x[..8] + Zeros(24) }

  function High(x: Word): Word { Zeros(8) + x[8..] }

  /** The word shifted right by a byte. */
  function Shift8(x: Word): Word { x[8..] + Zeros(8) }

  lemma SplitByte(x: Word)
    ensures Xor(Low(x), High(x)) == x
  {
  }

  lemma HighShifts(x: Word)
    ensures ByteStep(High(x)) == Shift8(x)
  {
    StepsShift(High(x), 8);
    assert High(x)[8..] == x[8..];
  }

  /** The table-driven step, which looks up the low byte only, is the division of a whole byte. */
  lemma TableStep(c: Word, b: Byte)
    ensures var x := Xor(c, ByteWord(b));
      Xor(ByteStep(Low(x)), Shift8(c)) == ByteStep(x)
  {
    var x := Xor(c, ByteWord(b));
    SplitByte(x);
    StepsLinear(Low(x), High(x), 8);
    HighShifts(x);
    ByteShiftsOut(c, b);
  }

  lemma ByteShiftsOut(c: Word, b: Byte)
    ensures Shift8(Xor(c, ByteWord(b))) == Shift8(c)
  {
  }

  /** Dividing in the first of several bits and shifting the others along. */
  lemma PeelBit(c: Word, w: Word)
    ensures BitStep(Xor(c, w)) == Xor(DivideBit(c, w[0]), Half(w))
  {
    var first, rest := c[0 := c[0] != w[0]], w[0 := false];
    assert Xor(first, rest) == Xor(c, w);
    BitStepLinear(first, rest);
    assert BitStep(rest) == Half(w);
  }

  /** Single-bit division of `bits` is that many steps on the register with all of them added. */
  lemma {:induction false} DivideIsSteps(c: Word, bits: Bits)
    requires |bits| <= 32
    ensures Divide(c, bits) == Steps(Xor(c, bits + Zeros(32 - |bits|)), |bits|)
    decreases |bits|
  {
    var w := bits + Zeros(32 - |bits|);
    if bits == [] {
      assert Xor(c, w) == c;
    } else {
      PeelBit(c, w);
      assert Half(w) == bits[1..] + Zeros(32 - |bits[1..]|);
      DivideIsSteps(DivideBit(c, bits[0]), bits[1..]);
    }
  }

  lemma {:induction false} DivideConcat(c: Word, a: Bits, b: Bits)
    ensures Divide(c, a + b) == Divide(Divide(c, a), b)
    decreases |a|
  {
    if a == [] {
      assert a + b == b;
    } else {
      assert (a + b)[1..] == a[1..] + b;
      DivideConcat(DivideBit(c, a[0]), a[1..], b);
    }
  }

  lemma {:induction false} RunIsDivision(c: Word, m: seq<Byte>)
    ensures Run(c, m) == Divide(c, MessageBits(m))
  {
    if m != [] {
      var n := |m| - 1;
      RunIsDivision(c, m[..n]);
      DivideConcat(c, MessageBits(m[..n]), Octet(m[n]));
      DivideIsSteps(Run(c, m[..n]), Octet(m[n]));
    }
  }

  /** The byte-wise CRC is the bit-at-a-time polynomial division, for every message. */
  lemma CrcIsReference(m: seq<Byte>)
    ensures Crc(m) == ReferenceCrc(m)
  {
    RunIsDivision(ONES, m);
  }

  // ----- bursts

  lemma {:induction false} MessageBitsLength(m: seq<Byte>)
    ensures |MessageBits(m)| == 8 * |m|
  {
    if m != [] { MessageBitsLength(m[..|m| - 1]); }
  }

  /** The bits of one byte. */
  function Octet(b: Byte): (s: Bits)
    ensures |s| == 8
  {
    BitsOf(b as int, 8)
  }

  lemma OctetValue(b: Byte)
    ensures Value(Octet(b)) == b as int
  {
    Pow2Values();
    ByteBack(b);
    ValueOfBits(b as int, 8);
  }

  lemma OctetInjective(b: Byte, c: Byte)
    requires Octet(b) == Octet(c)
    ensures b == c
  {
    OctetValue(b);
    OctetValue(c);
    ByteBack(b);
    ByteBack(c);
  }

  lemma ConcatInjective(a: Bits, b: Bits, x: Bits, y: Bits)
    requires |a| == |b| && a + x == b + y
    ensures a == b && x == y
  {
    assert a == (a + x)[..|a|] && b == (b + y)[..|a|];
    assert x == (a + x)[|a|..] && y == (b + y)[|a|..];
  }

  lemma {:induction false} MessageBitsInjective(u: seq<Byte>, v: seq<Byte>)
    requires |u| == |v| && MessageBits(u) == MessageBits(v)
    ensures u == v
  {
    if u != [] {
      var n := |u| - 1;
      MessageBitsLength(u[..n]);
      MessageBitsLength(v[..n]);
      ConcatInjective(MessageBits(u[..n]), MessageBits(v[..n]), Octet(u[n]), Octet(v[n]));
      MessageBitsInjective(u[..n], v[..n]);
      OctetInjective(u[n], v[n]);
      LastEqual(u, v);
    }
  }

  lemma LastEqual(u: seq<Byte>, v: seq<Byte>)
    requires |u| == |v| > 0 && u[..|u| - 1] == v[..|u| - 1] && u[|u| - 1] == v[|u| - 1]
    ensures u == v
  {
    assert u == u[..|u| - 1] + [u[|u| - 1]] && v == v[..|u| - 1] + [v[|u| - 1]];
  }

  /** A short message as one word. */
  function Padded(u: seq<Byte>): Word
    requires |u| <= 4
  {
    MessageBitsLength(u);
    MessageBits(u) + Zeros(32 - 8 * |u|)
  }

  /** Up to four bytes go through the register at once, and can be undone at once. */
  lemma ShortRun(c: Word, u: seq<Byte>)
    requires |u| <= 4
    ensures Run(c, u) == Steps(Xor(c, Padded(u)), 8 * |u|)
  {
    RunIsDivision(c, u);
    DividePadded(c, MessageBits(u), Padded(u)) by { MessageBitsLength(u); }
    MessageBitsLength(u);
  }

  lemma DividePadded(c: Word, bits: Bits, w: Word)
    requires |bits| <= 32 && w == bits + Zeros(32 - |bits|)
    ensures Divide(c, bits) == Steps(Xor(c, w), |bits|)
  {
    DivideIsSteps(c, bits);
  }

  lemma PaddedInjective(u: seq<Byte>, v: seq<Byte>)
    requires |u| == |v| <= 4 && Padded(u) == Padded(v)
    ensures u == v
  {
    MessageBitsLength(u);
    MessageBitsLength(v);
    assert MessageBits(u) == Padded(u)[..8 * |u|] && MessageBits(v) == Padded(v)[..8 * |u|];
    MessageBitsInjective(u, v);
  }

  lemma ShortRunInjective(c: Word, u: seq<Byte>, v: seq<Byte>)
    requires |u| == |v| <= 4 && Run(c, u) == Run(c, v)
    ensures u == v
  {
    ShortRun(c, u);
    ShortRun(c, v);
    var x, y := Padded(u), Padded(v);
    StepsInjective(Xor(c, x), Xor(c, y), 8 * |u|);
    XorCancel(c, x, y);
    PaddedInjective(u, v);
  }

  lemma XorCancel(c: Word, x: Word, y: Word)
    requires Xor(c, x) == Xor(c, y)
    ensures x == y
  {
    forall i | 0 <= i < 32 ensures x[i] == y[i] { assert Xor(c, x)[i] == Xor(c, y)[i]; }
  }

  lemma {:induction false} RunConcat(c: Word, a: seq<Byte>, b: seq<Byte>)
    ensures Run(c, a + b) == Run(Run(c, a), b)
  {
    if b == [] {
      assert a + b == a;
    } else {
      var n := |b| - 1;
      assert (a + b)[..|a + b| - 1] == a + b[..n];
      RunConcat(c, a, b[..n]);
    }
  }

  /** Feeding the same bytes keeps different registers different. */
  lemma {:induction false} RunInjective(c: Word, d: Word, m: seq<Byte>)
    requires Run(c, m) == Run(d, m)
    ensures c == d
  {
    if m != [] {
      var n := |m| - 1;
      var b := ByteWord(m[n]);
      var x, y := Run(c, m[..n]), Run(d, m[..n]);
      StepsInjective(Xor(x, b), Xor(y, b), 8);
      XorLaws(x, b, b);
      XorLaws(y, b, b);
      RunInjective(c, d, m[..n]);
    }
  }

  /** The two messages have the same length and differ at most within four consecutive bytes. */
  ghost predicate Burst(m: seq<Byte>, m': seq<Byte>, at: nat) {
    |m| == |m'| && forall j :: 0 <= j < |m| && !(at <= j < at + 4) ==> m[j] == m'[j]
  }

  /** No burst within four consecutive bytes goes unnoticed by the register, whatever it started from. */
  lemma BurstDetected(c: Word, m: seq<Byte>, m': seq<Byte>, at: nat)
    requires Burst(m, m', at) && Run(c, m) == Run(c, m')
    ensures m == m'
  {
    var p, u, v, s := SplitBurst(m, m', at);
    BurstBetween(c, p, u, v, s);
  }

  lemma SplitBurst(m: seq<Byte>, m': seq<Byte>, at: nat)
    returns (p: seq<Byte>, u: seq<Byte>, v: seq<Byte>, s: seq<Byte>)
    requires Burst(m, m', at)
    ensures |u| == |v| <= 4 && m == p + (u + s) && m' == p + (v + s)
  {
    var i, j := Min(at, |m|), Min(at + 4, |m|);
    p, u, v, s := m[..i], m[i..j], m'[i..j], m[j..];
    assert p == m'[..i] && s == m'[j..];
  }

  lemma BurstBetween(c: Word, p: seq<Byte>, u: seq<Byte>, v: seq<Byte>, s: seq<Byte>)
    requires |u| == |v| <= 4 && Run(c, p + (u + s)) == Run(c, p + (v + s))
    ensures u == v
  {
    var d := Run(c, p);
    RunConcat(c, p, u + s);
    RunConcat(c, p, v + s);
    RunConcat(d, u, s);
    RunConcat(d, v, s);
    RunInjective(Run(d, u), Run(d, v), s);
    ShortRunInjective(d, u, v);
  }

  // ----- the checksum as four trailing bytes

  /** The word a four-byte field holds, first byte least significant. */
  function FieldWord(f: seq<Byte>): Word
    requires |f| == 4
  {
    MessageBitsLength(f);
    MessageBits(f)
  }

  /** A message followed by its own checksum always leaves the register at the same residue, and nothing else does. */
  lemma ChecksumIffResidue(m: seq<Byte>, f: seq<Byte>)
    requires |f| == 4
    ensures FieldWord(f) == Crc(m) <==> Run(ONES, m + f) == Steps(ONES, 32)
  {
    RunConcat(ONES, m, f);
    ShortRun(Run(ONES, m), f);
    assert Padded(f) == FieldWord(f);
    ComplementIffResidue(Run(ONES, m), FieldWord(f));
  }

  lemma ComplementIffResidue(s: Word, e: Word)
    ensures e == Xor(s, ONES) <==> Steps(Xor(s, e), 32) == Steps(ONES, 32)
  {
    if e == Xor(s, ONES) {
      assert Xor(s, e) == ONES;
    }
    if Steps(Xor(s, e), 32) == Steps(ONES, 32) {
      StepsInjective(Xor(s, e), ONES, 32);
      forall i | 0 <= i < 32 ensures e[i] == Xor(s, ONES)[i] { assert Xor(s, e)[i] == ONES[i]; }
    }
  }

  /**
   Two messages of the same length whose trailing checksums both match are equal if they differ only
   within four consecutive bytes, even when those reach into the checksum.
   */
  lemma ChecksumDetectsBurst(m: seq<Byte>, f: seq<Byte>, m': seq<Byte>, f': seq<Byte>, at: nat)
    requires |f| == 4 && |f'| == 4 && FieldWord(f) == Crc(m) && FieldWord(f') == Crc(m')
    requires |m| == |m'| && Burst(m + f, m' + f', at)
    ensures m == m' && f == f'
  {
    ChecksumIffResidue(m, f);
    ChecksumIffResidue(m', f');
    BurstDetected(ONES, m + f, m' + f', at);
    assert m == (m + f)[..|m|] && m' == (m' + f')[..|m|];
    assert f == (m + f)[|m|..] && f' == (m' + f')[|m|..];
  }

  /** The byte with the given bits. */
  function FromOctet(s: Bits): (b: Byte)
    requires |s| == 8
    ensures Octet(b) == s
  {
    Pow2Values();
    ValueRange(s);
    IntBack(Value(s));
    BitsOfValue(s);
    Value(s) as Byte
  }

  lemma FieldOctets(f: seq<Byte>)
    requires |f| == 4
    ensures FieldWord(f) == Octet(f[0]) + Octet(f[1]) + Octet(f[2]) + Octet(f[3])
  {
    assert f[..3][..2] == f[..2] && f[..2][..1] == f[..1] && f[..1][..0] == [];
    assert MessageBits(f[..1]) == [] + Octet(f[0]) == Octet(f[0]);
    assert MessageBits(f[..2]) == Octet(f[0]) + Octet(f[1]);
    assert MessageBits(f[..3]) == Octet(f[0]) + Octet(f[1]) + Octet(f[2]);
  }

  /** The four bytes of a word, least significant first. */
  function FieldBytes(w: Word): (f: seq<Byte>)
    ensures |f| == 4
  {
    [FromOctet(w[0..8]), FromOctet(w[8..16]), FromOctet(w[16..24]), FromOctet(w[24..32])]
  }

  lemma FieldRoundTrip(w: Word)
    ensures FieldWord(FieldBytes(w)) == w
  {
    FieldOctets(FieldBytes(w));
    Quarters(w);
  }

  lemma Quarters(w: Word)
    ensures w == w[0..8] + w[8..16] + w[16..24] + w[24..32]
  {
  }
}
