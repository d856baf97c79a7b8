/**
  Which power-of-5 table rows deliver exact floors.  A row stands for a number x / 2^118, and the product with an
  operand m below 2^55 is cut off to an integer.  Two fractions that are neighbours among those with denominators
  below 2^55 settle the matter: between them m times a number is always cut off to the same integer.
 */
module RyuRows {
  import opened Words
  import opened RyuIntrinsics

  const OPERANDS: nat := 0x80_0000_0000_0000
  const REACH: nat := 0x40_0000_0000_0000_0000_0000_0000_0000

  const TABLE_BITS: int := 125

  /** `pow5bits` */
  function Pow5Bits(e: nat): nat
    requires e <= 3528
  {
    e * 1217359 / 0x8_0000 + 1
  }

  /** m * num / den, cut off. */
  function Cut(m: nat, num: nat, den: nat): nat
    requires den > 0
  {
    ProductNat(m, num);
    DivNat(m * num, den);
    m * num / den
  }

  /** num / den lies between two neighbouring fractions a / b and c / d. */
  predicate Between(a: nat, b: nat, c: nat, d: nat, num: nat, den: nat) { a * den <= b * num && d * num < c * den }

  /** No fraction between a / b and c / d has a denominator below 2^55. */
  predicate Neighbours(a: nat, b: nat, c: nat, d: nat) { b > 0 && c * b - a * d == 1 && b + d >= OPERANDS }

  /** Both x / 2^118 and num / den lie between the neighbours. */
  predicate Fits(row: Row, num: nat, den: nat, a: nat, b: nat, c: nat, d: nat)
  {
    && Neighbours(a, b, c, d) && Between(a, b, c, d, num, den) && Between(a, b, c, d, Multiplier(row), REACH)
    && den > 0 && Multiplier(row) <= 512 * REACH
  }

  /** Between neighbours all numbers give the same floors. */
  lemma SameFloors(a: nat, b: nat, c: nat, d: nat, num: nat, den: nat, m: nat)
    requires Neighbours(a, b, c, d) && Between(a, b, c, d, num, den) && den > 0 && m < OPERANDS
    ensures Cut(m, num, den) == Cut(m, a, b)
  {
    hide *;
    BetweenMeans(a, b, c, d, num, den);
    CutIs(m, a, b);
    var n := Cut(m, a, b);
    assert n * den <= m * num by {
      MulMono(n * b, m * a, den);
      MulMono(a * den, b * num, m);
      FactorsAside(n, b, m, a, num, den);
      MulCancel(n * den, m * num, b);
    }
    if (n + 1) * den <= m * num {
      NextCrosses(m, n, c, d, num, den);
      Crossing(a, b, c, d, m, n);
    }
    CutUnique(m, num, den, n);
  }

  lemma BetweenMeans(a: nat, b: nat, c: nat, d: nat, num: nat, den: nat)
    requires Neighbours(a, b, c, d) && Between(a, b, c, d, num, den)
    ensures b > 0 && c * b - a * d == 1 && b + d >= OPERANDS && a * den <= b * num && d * num < c * den
  {
  }

  lemma CutIs(m: nat, num: nat, den: nat)
    requires den > 0
    ensures Cut(m, num, den) == m * num / den
    ensures Cut(m, num, den) * den <= m * num < (Cut(m, num, den) + 1) * den
  {
    DivModSpec(m * num, den);
  }

  lemma CutUnique(m: nat, num: nat, den: nat, n: nat)
    requires den > 0 && n * den <= m * num < (n + 1) * den
    ensures Cut(m, num, den) == n
  {
    DivModUnique(m * num, den, n, m * num - n * den);
  }

  lemma FactorsAside(n: nat, b: nat, m: nat, a: nat, num: nat, den: nat)
    ensures n * b * den == n * den * b && m * a * den == a * den * m && b * num * m == m * num * b
  {
  }

  /** If the larger number reaches the next integer, so does c / d, strictly. */
  lemma NextCrosses(m: nat, n: nat, c: nat, d: nat, num: nat, den: nat)
    requires den > 0 && d * num < c * den && (n + 1) * den <= m * num
    ensures m * c - (n + 1) * d >= 1
  {
    hide *;
    var k := n + 1;
    NotNothing(m, num, k, den);
    MulStrict(d * num, c * den, m);
    MulMono(k * den, m * num, d);
    FactorsAside(k, den, m, num, c, d);
    FactorsAside(c, den, d, num, 0, m);
    MulAssociates(m, num, d);
    MulCancel(k * d, m * c, den);
  }

  lemma NotNothing(m: nat, num: nat, k: nat, den: nat)
    requires k >= 1 && den > 0 && k * den <= m * num
    ensures m > 0
  {
    MulMono(1, k, den);
  }

  /** An integer multiple between neighbours needs a large operand. */
  lemma Crossing(a: nat, b: nat, c: nat, d: nat, m: nat, n: nat)
    requires b > 0 && c * b - a * d == 1 && m * a < (n + 1) * b && m * c - (n + 1) * d >= 1
    ensures m >= b + d
  {
    hide *;
    var k := n + 1;
    var u, v := k * b - m * a, m * c - k * d;
    Combination(a, b, c, d, m, k);
    MulMono(1, v, b);
    MulMono(1, u, d);
  }

  lemma Combination(a: nat, b: nat, c: nat, d: nat, m: nat, k: nat)
    requires c * b - a * d == 1
    ensures m == (m * c - k * d) * b + (k * b - m * a) * d
  {
    hide *;
    MulDistributes(m * c, k * d, b);
    MulDistributes(k * b, m * a, d);
    MulDistributes(c * b, a * d, m);
    FactorsAside(k, b, m, c, 0, d);
    SwapFactors(m, c, b);
    SwapFactors(m, a, d);
  }

  lemma SwapFactors(m: nat, c: nat, b: nat)
    ensures m * c * b == c * b * m
  {
  }

  // ----- rows

  /** The row gives the floor of m * num / den for every operand, at shift 118. */
  ghost predicate Agrees(row: Row, num: nat, den: nat)
  {
    && den > 0
    && forall m: nat {:trigger Cut(m, num, den)} :: m < OPERANDS ==>
         Cut(m, num, den) == Cut(m, Multiplier(row), REACH) < W64
  }

  lemma FitsAgrees(row: Row, num: nat, den: nat, a: nat, b: nat, c: nat, d: nat)
    requires Fits(row, num, den, a, b, c, d)
    ensures Agrees(row, num, den)
  {
    var x := Multiplier(row);
    forall m: nat | m < OPERANDS
      ensures Cut(m, num, den) == Cut(m, x, REACH) < W64
    {
      hide *;
      FitsMeans(row, num, den, a, b, c, d);
      SameFloors(a, b, c, d, num, den, m);
      SameFloors(a, b, c, d, x, REACH, m);
      CutSmall(m, x);
    }
    hide Cut, Fits, Multiplier, REACH, OPERANDS;
  }

  lemma FitsMeans(row: Row, num: nat, den: nat, a: nat, b: nat, c: nat, d: nat)
    requires Fits(row, num, den, a, b, c, d)
    ensures Neighbours(a, b, c, d) && Between(a, b, c, d, num, den) && Between(a, b, c, d, Multiplier(row), REACH)
    ensures den > 0 && REACH > 0 && Multiplier(row) <= 512 * REACH
  {
    hide Neighbours, Between, Multiplier;
  }

  lemma CutSmall(m: nat, x: nat)
    requires m < OPERANDS && x <= 512 * REACH
    ensures REACH > 0 && Cut(m, x, REACH) < W64
  {
    MulMono(x, 512 * REACH, m);
    assert m * (512 * REACH) == m * 512 * REACH && m * 512 < W64;
    CutIs(m, x, REACH);
    hide Cut;
    MulCancel(Cut(m, x, REACH), m * 512, REACH);
  }

  /** A row gives the floor of m * num / den for every operand that a significand leads to. */
  ghost predicate RowExact(row: Row, j: int, num: nat, den: nat)
  {
    && j >= 64 && den > 0
    && forall m: u64 {:trigger MulShift64(m, row, j)} :: m < 0x80_0000_0000_0000 ==>
         MulShift64(m, row, j) == m * num / den
  }

  /** A larger shift divides by more powers of 2. */
  lemma ExactFrom(row: Row, num: nat, den: nat, j: nat, num': nat, den': nat)
    requires Agrees(row, num, den) && j >= 118 && den' > 0 && num * den' == num' * (den * Pow2(j - 118))
    ensures RowExact(row, j, num', den')
  {
    var x := Multiplier(row);
    forall m: u64 {:trigger MulShift64(m, row, j)} | m < 0x80_0000_0000_0000
      ensures MulShift64(m, row, j) == m * num' / den'
    {
      AgreesAt(row, num, den, m);
      hide *;
      ShiftFurther(m, x, row, num, den, j, num', den');
    }
    hide *;
    IsExact(row, j, num', den');
  }

  lemma IsExact(row: Row, j: int, num: nat, den: nat)
    requires j >= 64 && den > 0
    requires forall m: u64 {:trigger MulShift64(m, row, j)} :: m < 0x80_0000_0000_0000 ==>
               MulShift64(m, row, j) == m * num / den
    ensures RowExact(row, j, num, den)
  {
  }

  lemma AgreesAt(row: Row, num: nat, den: nat, m: nat)
    requires Agrees(row, num, den) && m < 0x80_0000_0000_0000
    ensures den > 0 && REACH > 0 && Cut(m, num, den) == Cut(m, Multiplier(row), REACH) < W64
  {
    hide Cut, Multiplier;
  }

  lemma ShiftFurther(m: u64, x: nat, row: Row, num: nat, den: nat, j: nat, num': nat, den': nat)
    requires x == Multiplier(row) && den > 0 && den' > 0 && j >= 118 && REACH > 0
    requires Cut(m, num, den) == Cut(m, x, REACH) < W64 && num * den' == num' * (den * Pow2(j - 118))
    ensures MulShift64(m, row, j) == m * num' / den'
  {
    hide *;
    var p := Pow2(j - 118);
    MulShiftFloor(m, row, j);
    Pow2Add(118, j - 118);
    TwoTo118();
    CutIs(m, num, den);
    CutIs(m, x, REACH);
    DivDiv(m * x, REACH, p);
    DivDiv(m * num, den, p);
    SameRatio(m, num, den * p, num', den');
    SmallAfter(Cut(m, num, den), p);
  }

  lemma SmallAfter(n: nat, p: nat)
    requires n < W64 && p > 0
    ensures n / p % W64 == n / p
  {
    DivNat(n, p);
    DivModUnique(n / p, W64, 0, n / p);
  }

  lemma TwoTo118()
    ensures Pow2(118) == REACH
  {
    TwoTo64();
    TwoTo54();
    Pow2Add(64, 54);
  }

  lemma SameRatio(m: nat, num: nat, den: nat, num': nat, den': nat)
    requires den > 0 && den' > 0 && num * den' == num' * den
    ensures m * num / den == m * num' / den'
  {
    DivModScale(m * num, den, den');
    DivModScale(m * num', den', den);
    MulAssociates(m, num, den');
    MulAssociates(m, num', den);
    assert den * den' == den' * den;
  }
}
