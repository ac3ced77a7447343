/** Remainders by a variable divisor, powers of two, and masking as a remainder. */
module Residues {
  import opened Words


  lemma QuotientUnique(x: int, d: int, q: int, r: int)
    requires 0 < d && x == q * d + r && 0 <= r < d
    ensures x / d == q && x % d == r
  {
    var k := x / d - q;
    assert x == x / d * d + x % d;
    assert (x / d - q) * d == x / d * d - q * d;
    assert k * d == r - x % d;
    assert k >= 1 ==> k * d >= d;
    assert k <= -1 ==> k * d <= -d;
  }

  /** Adding a multiple of the divisor does not change the remainder. */
  lemma AddMultiple(a: int, k: int, d: int)
    requires 0 < d
    ensures (a + k * d) % d == a % d
  {
    assert a == a / d * d + a % d;
    assert (a / d + k) * d == a / d * d + k * d;
    QuotientUnique(a + k * d, d, a / d + k, a % d);
  }

  /** Reduction by a multiple of the divisor first does not matter. */
  lemma NestedRemainder(x: int, d: int, m: int)
    requires 0 < d && 0 < m
    ensures 0 < d * m && x % (d * m) % d == x % d
  {
    var big := d * m;
    assert d <= big;
    var q, r := x / big, x % big;
    assert x == q * big + r;
    assert q * big == q * m * d;
    AddMultiple(r, q * m, d);
  }

  /** Numbers closer than the divisor have different remainders. */
  lemma CloseDiffer(a: int, b: int, d: int)
    requires 0 < d && 0 < a - b < d
    ensures a % d != b % d
  {
    var k := a / d - b / d;
    assert a == a / d * d + a % d && b == b / d * d + b % d;
    assert a / d * d - b / d * d == k * d;
    assert k >= 1 ==> k * d >= d;
    assert k <= 0 ==> k * d <= 0;
  }

  lemma SumRemainder(a: int, b: int, d: int)
    requires 0 < d && 0 <= b < d
    ensures (a + b) % d == if a % d + b < d then a % d + b else a % d + b - d
  {
    assert a == a / d * d + a % d;
    if a % d + b < d {
      QuotientUnique(a + b, d, a / d, a % d + b);
    } else {
      assert (a / d + 1) * d == a / d * d + d;
      QuotientUnique(a + b, d, a / d + 1, a % d + b - d);
    }
  }

  lemma WrapAdd(a: int, b: int, m: int)
    requires 0 < m
    ensures (a % m + b) % m == (a + b) % m
  {
    assert a == a / m * m + a % m;
    AddMultiple(a % m + b, a / m, m);
  }

  lemma WrapSub(a: int, b: int, m: int)
    requires 0 < m && 0 <= a - b < m
    ensures (a % m - b % m) % m == a - b
  {
    assert a == a / m * m + a % m && b == b / m * m + b % m;
    var k := b / m - a / m;
    assert k * m == b / m * m - a / m * m;
    assert a % m - b % m == (a - b) + k * m;
    AddMultiple(a - b, k, m);
    QuotientUnique(a - b, m, 0, a - b);
  }

  lemma {:induction false} Pow2Sum(j: nat, k: nat)
    ensures Pow2(j + k) == Pow2(j) * Pow2(k)
  {
    if j > 0 {
      Pow2Sum(j - 1, k);
      assert Pow2(j) * Pow2(k) == 2 * (Pow2(j - 1) * Pow2(k));
    }
  }

  /** The remainder by repeated subtraction. */
  function Rem(x: nat, m: nat): nat
    requires 0 < m
    decreases x
  {
    if x < m then x else Rem(x - m, m)
  }

  lemma {:induction false} RemIs(x: nat, m: nat)
    requires 0 < m
    ensures Rem(x, m) == x % m
    decreases x
  {
    if x >= m {
      RemIs(x - m, m);
      AddMultiple(x - m, 1, m);
    }
  }

  /** Bitwise conjunction of naturals, digit by digit. */
  function BitAnd(a: nat, b: nat): nat
    decreases a
  {
    if a == 0 || b == 0 then 0 else 2 * BitAnd(a / 2, b / 2) + (a % 2) * (b % 2)
  }

  /** Masking with a power of two minus one is the remainder by that power. */
  lemma {:induction false} MaskIsRemainder(x: nat, k: nat)
    ensures BitAnd(x, Pow2(k) - 1) == x % Pow2(k)
    decreases k
  {
    if k == 0 {
    } else if x == 0 {
    } else {
      var h := Pow2(k - 1);
      MaskIsRemainder(x / 2, k - 1);
      assert Pow2(k) - 1 == 2 * (h - 1) + 1;
      assert (Pow2(k) - 1) / 2 == h - 1 && (Pow2(k) - 1) % 2 == 1;
      HalfRemainder(x, h);
    }
  }

  lemma HalfRemainder(x: nat, h: nat)
    requires 0 < h
    ensures x % (2 * h) == 2 * (x / 2 % h) + x % 2
  {
    var y := x / 2;
    assert y == y / h * h + y % h;
    assert x == 2 * y + x % 2;
    assert (y / h) * (2 * h) == 2 * (y / h * h);
    QuotientUnique(x, 2 * h, y / h, 2 * (y % h) + x % 2);
  }
}
