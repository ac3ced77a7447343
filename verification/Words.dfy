/** Fixed-width machine words and the few wrappers shared by every component. */
module Words {

  const TWO31: int := 0x8000_0000
  const TWO32: int := 0x1_0000_0000
  const TWO63: int := 0x8000_0000_0000_0000
  const TWO64: int := 0x1_0000_0000_0000_0000

  type U16 = x: int | 0 <= x < 0x1_0000
  type U32 = x: int | 0 <= x < 0x1_0000_0000
  type U64 = x: int | 0 <= x < 0x1_0000_0000_0000_0000
  type Byte = bv8

  /** Reduction to `uint32_t`. */
  function Wrap32(x: int): U32 { x % 0x1_0000_0000 }

  /** Reduction to `uint64_t`. */
  function Wrap64(x: int): U64 { x % 0x1_0000_0000_0000_0000 }

  function Min(a: int, b: int): int { if a < b then a else b }

  function Max(a: int, b: int): int { if a < b then b else a }

  function Abs(a: int): nat { if a < 0 then -a else a }

  /** C's `/` on signed operands, which truncates toward zero. */
  function TruncDiv(a: int, b: int): int
    requires 0 < b
  {
    if 0 <= a then a / b else -((-a) / b)
  }

  function Pow2(k: nat): (p: nat)
    ensures 0 < p
  {
    if k == 0 then 1 else 2 * Pow2(k - 1)
  }

  lemma {:induction false} Pow2Monotone(j: nat, k: nat)
    requires j <= k
    ensures Pow2(j) <= Pow2(k)
    decreases k
  {
    if j < k { Pow2Monotone(j, k - 1); }
  }

  lemma Pow2Values()
    ensures Pow2(8) == 0x100 && Pow2(19) == 0x8_0000 && Pow2(20) == 0x10_0000
    ensures Pow2(31) == 0x8000_0000 && Pow2(32) == 0x1_0000_0000
    ensures Pow2(62) == 0x4000_0000_0000_0000 && Pow2(63) == 0x8000_0000_0000_0000
    ensures Pow2(64) == 0x1_0000_0000_0000_0000
  {
    assert Pow2(4) == 0x10;
    assert Pow2(8) == 0x100;
    assert Pow2(12) == 0x1000;
    assert Pow2(16) == 0x1_0000;
    assert Pow2(20) == 0x10_0000;
    assert Pow2(24) == 0x100_0000;
    assert Pow2(28) == 0x1000_0000;
    assert Pow2(32) == 0x1_0000_0000;
    assert Pow2(36) == 0x10_0000_0000;
    assert Pow2(40) == 0x100_0000_0000;
    assert Pow2(44) == 0x1000_0000_0000;
    assert Pow2(48) == 0x1_0000_0000_0000;
    assert Pow2(52) == 0x10_0000_0000_0000;
    assert Pow2(56) == 0x100_0000_0000_0000;
    assert Pow2(60) == 0x1000_0000_0000_0000;
  }

  lemma ByteBack(b: Byte)
    ensures 0 <= b as int < 256 && (b as int) as Byte == b
  {
  }

  lemma Increment8(b: Byte)
    ensures if b + 1 != 0 then (b + 1) as int == b as int + 1 else b as int == 255
  {
  }

  /** Every number below 256 is the value of a byte. */
  lemma {:induction false} ByteOf(n: nat) returns (b: Byte)
    requires n < 256
    ensures b as int == n
    decreases n
  {
    b := 0;
    if n > 0 {
      b := ByteOf(n - 1);
      Increment8(b);
      b := b + 1;
    }
  }

  lemma IntBack(n: nat)
    requires n < 256
    ensures (n as Byte) as int == n
  {
    var b := ByteOf(n);
    ByteBack(b);
  }

  datatype Option<+T> = None | Some(value: T)
}
