/**
 The integer cube root of the congestion controller: a power-of-two start followed by at
 most twenty integer Newton steps.
 */
module CubeRoot {
  import opened Words

  const TWO60: int := 0x1000_0000_0000_0000

  function Cube(g: int): int { g * g * g }

  function NewtonStep(x: nat, g: nat): nat
    requires 0 < g
  {
    (2 * g + x / (g * g)) / 3
  }

  /** `r` is the exact floor of the cube root of `x`. */
  ghost predicate FloorRoot(x: nat, r: nat) { Cube(r) <= x < Cube(r + 1) }

  lemma CubeMonotone(a: int, b: int)
    requires 0 <= a <= b
    ensures Cube(a) <= Cube(b)
  {
    assert a * a <= b * b;
    assert a * a * a <= b * b * a <= b * b * b;
  }

  lemma CubeReflects(a: int, b: int)
    requires 0 <= a && 0 <= b && Cube(a) < Cube(b)
    ensures a < b
  {
    if b <= a { CubeMonotone(b, a); }
  }

  lemma QuotientAtLeast(x: nat, d: nat, q: int)
    requires 0 < d && q * d <= x
    ensures q <= x / d
  {
    var k := x / d;
    assert x == k * d + x % d;
    assert k < q ==> (k + 1) * d <= q * d;
  }

  lemma QuotientBelow(x: nat, d: nat, q: int)
    requires 0 < d && x < q * d
    ensures x / d < q
  {
    var k := x / d;
    assert x == k * d + x % d;
    assert q <= k ==> q * d <= k * d;
  }

  /** A Newton step never falls below the floor root, wherever it starts. */
  lemma StepNotBelowRoot(x: nat, g: nat, r: nat)
    requires 0 < g && Cube(r) <= x
    ensures r <= NewtonStep(x, g)
  {
    assert Cube(r) - (3 * r - 2 * g) * (g * g) == (r - g) * (r - g) * (r + 2 * g);
    assert 0 <= (r - g) * (r - g);
    assert 0 <= (r - g) * (r - g) * (r + 2 * g);
    QuotientAtLeast(x, g * g, 3 * r - 2 * g);
  }

  /** From at or above the next integer `s`, the distance to `s` shrinks quadratically. */
  lemma StepFromAbove(x: nat, g: nat, s: nat)
    requires 0 < s <= g && x < Cube(s)
    ensures g * (NewtonStep(x, g) - s) <= (g - s) * (g - s)
  {
    QuotientBounds(x, g * g);
    QuadraticBound(g, s, NewtonStep(x, g), x / (g * g));
  }

  lemma QuadraticBound(g: nat, s: nat, n: nat, q: nat)
    requires 0 < s <= g && 3 * n <= 2 * g + q && q * (g * g) <= Cube(s)
    ensures g * (n - s) <= (g - s) * (g - s)
  {
    ScaledStep(g, s, n, q, g * g, (g - s) * (g - s));
    CancelLeft(3 * g, g * (n - s), (g - s) * (g - s));
  }

  lemma QuotientBounds(x: nat, d: nat)
    requires 0 < d
    ensures x / d * d <= x
  {
  }

  /** The squared and cubed terms are passed by name, so that each inequality is linear in them. */
  lemma ScaledStep(g: nat, s: nat, n: nat, q: nat, gg: nat, d: nat)
    requires gg == g * g && d == (g - s) * (g - s)
    requires 0 < s <= g && 3 * n <= 2 * g + q && q * gg <= Cube(s)
    ensures 3 * g * (g * (n - s)) <= 3 * g * d
  {
    assert 3 * g * (g * (n - s)) == 3 * n * gg - 3 * s * gg by { Regroup(g, n, s, gg); }
    ScaleBy(3 * n, 2 * g + q, gg);
    assert (2 * g + q) * gg == 2 * (g * gg) + q * gg by { Distribute(2 * g, q, gg); Associate(2, g, gg); }
    SquareFactor(g, s, gg, d);
    ScaleBy(2 * g + s, 3 * g, d);
  }

  lemma Regroup(g: int, n: int, s: int, gg: int)
    requires gg == g * g
    ensures 3 * g * (g * (n - s)) == 3 * n * gg - 3 * s * gg
  {
    Associate(g, g, n - s);
    Distribute(n, -s, gg);
  }

  lemma Distribute(a: int, b: int, m: int)
    ensures (a + b) * m == a * m + b * m
  {
  }

  lemma Associate(a: int, b: int, c: int)
    ensures a * (b * c) == (a * b) * c
  {
  }

  lemma SquareFactor(g: int, s: int, gg: int, d: int)
    requires gg == g * g && d == (g - s) * (g - s)
    ensures 2 * (g * gg) + Cube(s) - 3 * s * gg == (2 * g + s) * d
  {
  }

  lemma ScaleBy(a: int, b: int, m: int)
    requires a <= b && 0 <= m
    ensures a * m <= b * m
  {
  }

  lemma CancelLeft(m: int, a: int, b: int)
    requires 0 < m && m * a <= m * b
    ensures a <= b
  {
    assert b < a ==> m * (b + 1) <= m * a;
  }

  /** From the floor root itself a step stays on the root or moves to the next integer; 7 is the one exception. */
  lemma StepFromRoot(x: nat, r: nat)
    requires 0 < r && FloorRoot(x, r) && x != 7
    ensures r <= NewtonStep(x, r) <= r + 1
  {
    StepNotBelowRoot(x, r, r);
    if r == 1 {
      assert x <= 6;
    } else {
      assert Cube(r + 1) == Cube(r) + 3 * (r * r) + 3 * r + 1;
      assert 2 * r <= r * r;
      assert (r + 6) * (r * r) == Cube(r) + 6 * (r * r);
      QuotientBelow(x, r * r, r + 6);
    }
  }

  /**
   Relative distance above `s` guaranteed before step `i`, as a fraction: at most
   num/den times `s`. It is squared by each step and is below one unit from step 9 on.
   */
  function Stage(i: nat): (f: (nat, nat))
    ensures 0 < f.1
  {
    if i <= 1 then (7, 3)
    else if i == 2 then (5, 3)
    else if i == 3 then (25, 24)
    else if i == 4 then (5, 9)
    else if i == 5 then (1, 5)
    else if i == 6 then (1, 30)
    else if i == 7 then (1, 930)
    else if i == 8 then (1, 865830)
    else (0, 1)
  }

  ghost predicate Within(i: nat, g: nat, s: nat) {
    Stage(i).1 * (g - s) <= Stage(i).0 * s
  }

  /** One quadratic step turns the fraction p/q into p^2 / (q * (p + q)). */
  lemma FractionStep(p: nat, q: nat, s: nat, d: nat, e: int)
    requires 0 < q && 0 < s && q * d <= p * s && (s + d) * e <= d * d
    ensures q * (p + q) * e <= p * p * s
  {
    FractionGap(p, q, s, d);
    FractionCancels(q * (p + q), s + d, e, d * d, p * p * s);
  }

  lemma FractionGap(p: nat, q: nat, s: nat, d: nat)
    requires q * d <= p * s
    ensures q * (p + q) * (d * d) <= (s + d) * (p * p * s)
  {
    FractionIdentity(p, q, s, d);
    NotNegative(p, s);
    NotNegative(p + q, d);
    NotNegative(p * s - q * d, p * s + (p + q) * d);
  }

  lemma NotNegative(a: int, b: int)
    requires 0 <= a && 0 <= b
    ensures 0 <= a * b
  {
  }

  lemma FractionIdentity(p: int, q: int, s: int, d: int)
    ensures (s + d) * (p * p * s) - q * (p + q) * (d * d) == (p * s - q * d) * (p * s + (p + q) * d)
  {
  }

  /** The products are passed by name. */
  lemma FractionCancels(m: nat, u: nat, e: int, dd: int, pps: int)
    requires 0 < u && u * e <= dd && m * dd <= u * pps
    ensures m * e <= pps
  {
    ScaleBy(u * e, dd, m);
    assert (u * e) * m == u * (m * e);
    CancelLeft(u, m * e, pps);
  }

  lemma StageAdvances(i: nat, g: nat, s: nat, n: nat)
    requires 1 <= i && 0 < s <= 0x10_0000 && s <= g && Within(i, g, s)
    requires g * (n - s) <= (g - s) * (g - s)
    ensures Within(i + 1, n, s)
  {
    NextFraction(i, s, g - s, n - s);
  }

  lemma NextFraction(i: nat, s: nat, d: nat, e: int)
    requires 1 <= i && 0 < s <= 0x10_0000 && Stage(i).1 * d <= Stage(i).0 * s
    requires (s + d) * e <= d * d
    ensures Stage(i + 1).1 * e <= Stage(i + 1).0 * s
  {
    if i == 1 { FractionStep(7, 3, s, d, e); }
    else if i == 2 { FractionStep(5, 3, s, d, e); }
    else if i == 3 { FractionStep(25, 24, s, d, e); }
    else if i == 4 { FractionStep(5, 9, s, d, e); }
    else if i == 5 { FractionStep(1, 5, s, d, e); }
    else if i == 6 { FractionStep(1, 30, s, d, e); }
    else if i == 7 { FractionStep(1, 930, s, d, e); }
    else if i == 8 { FractionStep(1, 865830, s, d, e); }
    else { FractionStep(0, 1, s, d, e); }
  }

  /** The start is a power of two at or below the root and above half of it. */
  ghost predicate Starts(x: nat, g: nat) { 0 < g && Cube(g) <= x < 8 * Cube(g) }

  lemma FirstQuotient(x: nat, g: nat)
    requires Starts(x, g)
    ensures x / (g * g) < 8 * g
  {
    Associate(8 * g, g, g);
    QuotientBelow(x, g * g, 8 * g);
  }

  lemma QuotientFromAbove(x: nat, g: nat, s: nat)
    requires 0 < s <= g && x < Cube(s)
    ensures x / (g * g) < g
  {
    CubeMonotone(s, g);
    Associate(g, g, g);
    QuotientBelow(x, g * g, g);
  }

  lemma FirstStep(x: nat, g: nat, r: nat)
    requires Starts(x, g) && FloorRoot(x, r)
    ensures r <= NewtonStep(x, g) && 3 * NewtonStep(x, g) <= 10 * g
    ensures Within(1, NewtonStep(x, g), r + 1)
  {
    StepNotBelowRoot(x, g, r);
    FirstQuotient(x, g);
    CubeReflects(g, r + 1);
  }

  lemma StepFromAboveShrinks(x: nat, g: nat, s: nat)
    requires 0 < s <= g && x < Cube(s)
    ensures NewtonStep(x, g) <= g
  {
    QuotientFromAbove(x, g, s);
  }

  lemma RootBelowTwiceStart(x: nat, r: nat, g0: nat)
    requires Starts(x, g0) && Cube(r) <= x
    ensures r < 2 * g0
  {
    CubeDoubles(g0);
    CubeReflects(r, 2 * g0);
  }

  lemma LaterStep(x: nat, i: nat, g: nat, r: nat, g0: nat)
    requires 1 <= i && 0 < r < 0x10_0000 && FloorRoot(x, r) && x != 7
    requires r <= g && Within(i, g, r + 1) && Starts(x, g0) && 3 * g <= 10 * g0
    ensures r <= NewtonStep(x, g) && Within(i + 1, NewtonStep(x, g), r + 1)
    ensures 3 * NewtonStep(x, g) <= 10 * g0
  {
    if g == r {
      StepFromRoot(x, r);
      RootBelowTwiceStart(x, r, g0);
      OnTarget(i + 1, NewtonStep(x, g), r + 1);
    } else {
      StepNotBelowRoot(x, g, r);
      StepFromAbove(x, g, r + 1);
      StageAdvances(i, g, r + 1, NewtonStep(x, g));
      StepFromAboveShrinks(x, g, r + 1);
    }
  }

  lemma OnTarget(i: nat, g: nat, s: nat)
    requires g <= s
    ensures Within(i, g, s)
  {
    assert Stage(i).1 * (g - s) <= 0;
  }

  /**
   The state before Newton step `i`, started from `g0`: the guess is on the floor root `r`, or
   above it by no more than the stage allows. The argument 7 cycles through 1, 3, 2 instead.
   */
  ghost predicate Refining(x: nat, i: nat, g: nat, r: nat, g0: nat) {
    && 0 < r < 0x10_0000 && FloorRoot(x, r)
    && Starts(x, g0) && g0 <= 0x8_0000
    && 0 < g && 3 * g <= 10 * g0
    && (i == 0 ==> g == g0)
    && (x == 7 ==> g == (if i % 3 == 0 then 1 else if i % 3 == 1 then 3 else 2))
    && (x != 7 && 1 <= i ==> r <= g && Within(i, g, r + 1))
  }

  lemma RefiningBegins(x: nat, g0: nat) returns (r: nat)
    requires Starts(x, g0) && x < TWO60 && g0 <= 0x8_0000
    ensures Refining(x, 0, g0, r, g0)
  {
    r := FloorRootExists(x);
    CubeReflects(r, 0x10_0000);
    CubeReflects(g0, r + 1);
    if x == 7 { CubeReflects(g0, 2); }
  }

  lemma SevenSteps(i: nat, g: nat, g0: nat)
    requires Starts(7, g0) && g == if i % 3 == 0 then 1 else if i % 3 == 1 then 3 else 2
    ensures NewtonStep(7, g) == if (i + 1) % 3 == 0 then 1 else if (i + 1) % 3 == 1 then 3 else 2
    ensures g0 == 1 && 0 < NewtonStep(7, g) && 3 * NewtonStep(7, g) <= 10 * g0
  {
    assert 7 / (2 * 2) == 1 && 7 / (3 * 3) == 0 && 7 / (1 * 1) == 7;
    CubeReflects(g0, 2);
  }

  lemma RefiningSteps(x: nat, i: nat, g: nat, r: nat, g0: nat)
    requires Refining(x, i, g, r, g0)
    ensures Refining(x, i + 1, NewtonStep(x, g), r, g0)
  {
    if x == 7 {
      SevenSteps(i, g, g0);
    } else if i == 0 {
      FirstStep(x, g, r);
    } else {
      LaterStep(x, i, g, r, g0);
    }
  }

  lemma RefiningEnds(x: nat, g: nat, r: nat, g0: nat)
    requires Refining(x, 20, g, r, g0)
    ensures Cube(g - 1) <= x < Cube(g + 1)
  {
    if x == 7 {
      assert g == 2;
    } else {
      CubeMonotone(g - 1, r);
      CubeMonotone(r + 1, g + 1);
    }
  }

  lemma ExactRoot(x: nat, g: nat)
    requires 0 < g && Cube(g) == x
    ensures Cube(g - 1) <= x < Cube(g + 1)
  {
    CubeMonotone(g - 1, g);
    assert Cube(g + 1) == Cube(g) + 3 * (g * g) + 3 * g + 1;
  }

  lemma FloorRootExists(x: nat) returns (r: nat)
    ensures FloorRoot(x, r)
  {
    r := 0;
    while Cube(r + 1) <= x
      invariant Cube(r) <= x
      decreases x - r
    {
      assert r + 1 <= Cube(r + 1) by {
        assert 1 <= (r + 1) * (r + 1);
      }
      r := r + 1;
    }
  }

  lemma SmallSquare(g: nat, top: nat)
    requires 0 < g <= top
    ensures g <= g * g <= top * top
  {
  }

  lemma SmallCube(g: nat)
    requires 0 < g <= 1747626
    ensures Cube(g) < TWO64
  {
    CubeMonotone(g, 1747626);
  }

  lemma QuotientNotAbove(x: nat, d: nat)
    requires 0 < d
    ensures x / d <= x
  {
    QuotientBelow(x, d, x + 1) by { ScaleBy(1, d, x + 1); }
  }

  lemma BelowCube(g: nat)
    ensures g <= Cube(g)
  {
    if 0 < g {
      SmallSquare(g, g);
      ScaleBy(1, g * g, g);
    }
  }

  lemma DoublingBounded(x: nat, k: nat)
    requires k <= 20 && x < TWO60 && Cube(Pow2(k)) <= x
    ensures k < 20 && Pow2(k) <= 0x8_0000
  {
    BelowTwo20(x, Pow2(k));
    Pow2Gap(k);
  }

  lemma Pow2Gap(k: nat)
    requires k <= 20 && Pow2(k) < 0x10_0000
    ensures k < 20 && Pow2(k) <= 0x8_0000
  {
    Pow2Values();
    if k < 20 { Pow2Monotone(k, 19); }
  }

  lemma BelowTwo20(x: nat, p: nat)
    requires x < TWO60 && Cube(p) <= x
    ensures p < 0x10_0000
  {
    CubeReflects(p, 0x10_0000);
  }

  lemma DoublingDone(x: nat, k: nat)
    requires k <= 20 && 0 < x < TWO60 && x < Cube(Pow2(k)) && (0 < k ==> Cube(Pow2(k - 1)) <= x)
    ensures 0 < k && Starts(x, Pow2(k) / 2) && Pow2(k) / 2 <= 0x8_0000
  {
    assert Cube(Pow2(0)) == 1;
    DoublingBounded(x, k - 1);
    CubeDoubles(Pow2(k - 1));
    BelowCube(Pow2(k - 1));
  }

  lemma CubeDoubles(p: nat)
    ensures Cube(2 * p) == 8 * Cube(p)
  {
  }

  /** The doubling search for the start, free of 64-bit overflow below 2^60. */
  method InitialGuess(x: U64) returns (guess: U32)
    requires 0 < x < TWO60
    ensures Starts(x, guess) && guess <= 0x8_0000
    ensures exists j: nat :: guess == Pow2(j)
  {
    guess := 1;
    ghost var k := 0;
    while guess * guess * guess <= x
      invariant k <= 20 && guess == Pow2(k) && 1 <= guess <= 0x10_0000
      invariant 0 < k ==> Cube(Pow2(k - 1)) <= x
      decreases 20 - k
    {
      DoublingBounded(x, k);
      guess, k := guess * 2, k + 1;
    }
    DoublingDone(x, k);
    guess := guess / 2;
    assert guess == Pow2(k - 1);
  }

  method SquareQuotient(x: U64, guess: U32) returns (div: U64)
    requires 0 < guess
    ensures div == x / (guess * guess)
  {
    SmallSquare(guess, guess);
    QuotientNotAbove(x, guess * guess);
    div := x / (guess * guess);
  }

  /** One pass of the refinement loop: stop on an exact root, otherwise take the Newton step. */
  method Refine(x: U64, guess: U32) returns (exact: bool, next: U32)
    requires 0 < guess <= 1747626 && NewtonStep(x, guess) < TWO32
    ensures exact <==> Cube(guess) == x
    ensures next == if exact then guess else NewtonStep(x, guess)
  {
    SmallCube(guess);
    var cube: U64 := guess * guess * guess;
    if cube == x { return true, guess; }
    var div := SquareQuotient(x, guess);
    return false, (2 * guess + div) / 3;
  }

  /**
   Terminates without 64-bit overflow on every argument below 2^60, at a value within one of
   the real cube root on both sides.
   */
  method Icbrt(x: U64) returns (guess: U32)
    requires x < TWO60
    ensures x == 0 ==> guess == 0
    ensures 0 < x ==> 0 < guess && Cube(guess - 1) <= x < Cube(guess + 1)
  {
    if x == 0 { return 0; }
    guess := InitialGuess(x);
    ghost var g0 := guess;
    ghost var r := RefiningBegins(x, g0);
    var i := 0;
    while i < 20
      invariant 0 <= i <= 20
      invariant Refining(x, i, guess, r, g0)
    {
      RefiningSteps(x, i, guess, r, g0);
      var exact, next := Refine(x, guess);
      if exact {
        ExactRoot(x, guess);
        return;
      }
      guess, i := next, i + 1;
    }
    RefiningEnds(x, guess, r, g0);
  }
}
