/**
  The Ryu conversion from a binary to a decimal floating point number: the shortest decimal that reads back
  as the same double, and of those the nearest to it.
 */
module RyuD2d {
  import opened Words
  import opened Ieee
  import opened RyuIntrinsics
  import opened RyuDigits
  import opened RyuPowers
  import opened RyuRows
  import opened RyuTables
  import opened RyuCertificates

  // ----- which decimals denote a double

  /** Decimals are compared with doubles in units of 10^-1076. */
  const FINE: nat := 1076

  function Significand(b: u64): nat { if b < HIDDEN then b else HIDDEN + b % HIDDEN }

  function Exponent(b: u64): nat { if b < HIDDEN then 0 else b / HIDDEN - 1 }

  /** A magnitude in units of 2^-1074; the bit pattern of infinity stands for 2^1024, as in rounding. */
  function Grid(b: u64): nat { Significand(b) * Pow2(Exponent(b)) }

  function Point(b: u64): nat { 4 * Grid(b) * Pow5(FINE) }

  /** n * 10^e */
  function Decimal(n: nat, e: int): nat
    requires e + FINE >= 0
  {
    n * Pow10(e + FINE)
  }

  /** Rounding x to the nearest double, ties to even, gives b. */
  ghost predicate ReadsBackAs(b: u64, x: nat)
  {
    forall o: u64 {:trigger Point(o)} :: o <= INFINITY && o != b ==>
      Dist(x, Point(b)) < Dist(x, Point(o)) || (Dist(x, Point(b)) == Dist(x, Point(o)) && b % 2 == 0)
  }

  /** n * 10^e denotes b, no decimal with a larger exponent does, and none with this exponent is nearer. */
  ghost predicate ShortestDecimal(b: u64, n: nat, e: int)
  {
    && e + FINE >= 0
    && ReadsBackAs(b, Decimal(n, e))
    && (forall n', e' {:trigger Decimal(n', e')} :: e' > e && n' >= 0 ==> !ReadsBackAs(b, Decimal(n', e')))
    && (forall n': nat {:trigger Decimal(n', e)} :: ReadsBackAs(b, Decimal(n', e)) ==>
          && Dist(Decimal(n, e), Point(b)) <= Dist(Decimal(n', e), Point(b))
          && (n' != n && Dist(Decimal(n, e), Point(b)) == Dist(Decimal(n', e), Point(b)) ==> n % 2 == 0))
  }

  lemma GridAbove(b: u64)
    requires b < INFINITY
    ensures Grid(b + 1) == (Significand(b) + 1) * Pow2(Exponent(b)) && Grid(b) < Grid(b + 1)
  {
    var e, f := b / HIDDEN, b % HIDDEN;
    DivModSpec(b, HIDDEN);
    MulStrict(Significand(b), Significand(b) + 1, Pow2(Exponent(b)));
    if f == HIDDEN - 1 {
      DivModUnique(b + 1, HIDDEN, e + 1, 0);
    } else {
      DivModUnique(b + 1, HIDDEN, e, f + 1);
    }
  }

  /** The doubles next to b. */
  lemma GridNeighbours(b: u64)
    requires b < INFINITY
    ensures Grid(b + 1) == (Significand(b) + 1) * Pow2(Exponent(b))
    ensures Grid(b) < Grid(b + 1)
    ensures b > 0 && !(Significand(b) == HIDDEN && Exponent(b) > 0) ==>
              Grid(b - 1) == (Significand(b) - 1) * Pow2(Exponent(b))
    ensures Significand(b) == HIDDEN && Exponent(b) > 0 ==>
              b > 0 && 2 * Grid(b - 1) == (2 * Significand(b) - 1) * Pow2(Exponent(b))
  {
    GridAbove(b);
    var e, f := b / HIDDEN, b % HIDDEN;
    DivModSpec(b, HIDDEN);
    if b > 0 {
      if f == 0 {
        DivModUnique(b - 1, HIDDEN, e - 1, HIDDEN - 1);
      } else {
        DivModUnique(b - 1, HIDDEN, e, f - 1);
      }
    }
  }

  lemma {:induction false} GridMono(a: u64, b: u64)
    requires a < b <= INFINITY
    ensures Grid(a) < Grid(b)
    decreases b - a
  {
    GridNeighbours(b - 1);
    if a < b - 1 { GridMono(a, b - 1); }
  }

  lemma PointMono(a: u64, b: u64)
    requires a <= b <= INFINITY
    ensures Point(a) <= Point(b)
    ensures a < b ==> Point(a) < Point(b)
  {
    if a < b {
      GridMono(a, b);
      hide Grid;
      MulStrict(4 * Grid(a), 4 * Grid(b), Pow5(FINE));
    }
  }

  /** The decimals that read back as b are those up to the midpoints, which belong to an even b. */
  lemma ReadsBackInterval(b: u64, x: nat)
    requires 0 < b < INFINITY
    ensures ReadsBackAs(b, x) <==>
              if b % 2 == 0 then Point(b - 1) + Point(b) <= 2 * x <= Point(b) + Point(b + 1)
              else Point(b - 1) + Point(b) < 2 * x < Point(b) + Point(b + 1)
  {
    PointMono(b - 1, b);
    PointMono(b, b + 1);
    forall o: u64 | o <= INFINITY
      ensures o < b ==> Point(o) <= Point(b - 1)
      ensures o > b ==> Point(o) >= Point(b + 1)
    {
      if o < b { PointMono(o, b - 1); }
      if o > b { PointMono(b + 1, o); }
    }
    hide Point;
  }

  // ----- the interval in Ryu's terms

  function MmShift(b: u64): nat { Flag(Significand(b) != HIDDEN || Exponent(b) == 0) }

  function Mv(b: u64): nat { 4 * Significand(b) }

  function Mp(b: u64): nat { 4 * Significand(b) + 2 }

  function Mm(b: u64): int { 4 * Significand(b) - 1 - MmShift(b) }

  function Unit(b: u64): nat { Pow2(Exponent(b)) * Pow5(FINE) }

  /** mv, mm and mp are the double and the midpoints around it. */
  lemma Midpoints(b: u64)
    requires 0 < b < INFINITY
    ensures 0 < Mm(b) < Mv(b) < Mp(b) && Mm(b) + 3 <= Mp(b)
    ensures Point(b) == Mv(b) * Unit(b)
    ensures Point(b - 1) + Point(b) == 2 * (Mm(b) * Unit(b))
    ensures Point(b) + Point(b + 1) == 2 * (Mp(b) * Unit(b))
  {
    GridNeighbours(b);
    SignificandPositive(b);
    hide Grid, Significand, Exponent, Pow2, Pow5;
    var p, f, g, mm := Pow2(Exponent(b)), Pow5(FINE), Significand(b), Mm(b);
    var x, y, t := Grid(b - 1), Grid(b), mm - 2 * g;
    Distribute(g, p, f);
    assert 2 * x == t * p by {
      if t == 2 * g - 2 { TwiceProduct(g - 1, p); }
    }
    BelowMidpoint(g, p, f, x, y, t);
  }

  lemma SignificandPositive(b: u64)
    requires b > 0
    ensures Significand(b) > 0
  {
  }

  lemma BelowMidpoint(g: nat, p: nat, f: nat, x: nat, y: nat, t: nat)
    requires y == g * p && 2 * x == t * p
    ensures 4 * x * f + 4 * y * f == 2 * ((t + 2 * g) * (p * f))
  {
    var mm := t + 2 * g;
    assert mm * p == t * p + 2 * (g * p) == 2 * x + 2 * y;
    assert mm * (p * f) == mm * p * f == (2 * x + 2 * y) * f;
  }

  lemma Distribute(g: nat, p: nat, f: nat)
    ensures 4 * (g * p) * f == 4 * g * (p * f)
    ensures 4 * ((g + 1) * p) * f == 4 * g * (p * f) + 4 * (p * f)
    ensures (4 * g + 2) * (p * f) == 4 * g * (p * f) + 2 * (p * f)
  {
    assert (g + 1) * p == g * p + p;
  }

  /** num / den is the power of two of b over the power of ten 10^e. */
  ghost predicate Scaled(b: u64, num: nat, den: nat, e: int, s: nat)
  {
    e + FINE >= 0 && s > 0 && den > 0 && num * s == Unit(b) && den * s == Pow10(e + FINE)
  }

  lemma DecimalScaled(b: u64, num: nat, den: nat, e: int, s: nat, n: nat, k: nat)
    requires Scaled(b, num, den, e, s)
    ensures Decimal(n, e + k) == n * Pow10(k) * den * s
    ensures Decimal(n, e + k) == n * (Pow10(k) * den) * s
  {
    var p, t, e' := Pow10(k), Pow10(e + FINE), e + k + FINE;
    Pow10Add(k, e + FINE);
    assert Pow10(e') == p * t && Decimal(n, e + k) == n * Pow10(e') && t == den * s;
    hide *;
    Reassociate(n, p, den, s);
  }

  lemma Reassociate(n: nat, p: nat, d: nat, s: nat)
    ensures n * (p * (d * s)) == n * p * d * s == n * (p * d) * s
  {
    assert p * (d * s) == p * d * s;
    assert n * (p * d * s) == n * (p * d) * s;
  }

  lemma ScaledOrder(x: nat, y: nat, s: nat)
    requires s > 0
    ensures x * s <= y * s <==> x <= y
    ensures x * s < y * s <==> x < y
  {
    MulCancel(x, y, s);
    if x <= y { MulMono(x, y, s); }
    if x < y { MulStrict(x, y, s); }
  }

  /** Ryu's interval is exactly the set of decimals that read back as b. */
  lemma InIntervalReadsBack(b: u64, num: nat, den: nat, e: int, s: nat, n: nat, k: nat)
    requires 0 < b < INFINITY && Scaled(b, num, den, e, s)
    ensures Mm(b) > 0
    ensures InInterval(Mm(b) * num, Mp(b) * num, den, b % 2 == 0, n, k) <==> ReadsBackAs(b, Decimal(n, e + k))
  {
    hide *;
    Midpoints(b);
    DecimalScaled(b, num, den, e, s, n, k);
    var x, a, c := n * Pow10(k) * den, Mm(b) * num, Mp(b) * num;
    ReadsBackInterval(b, x * s);
    ScaledUnit(b, num, den, e, s, Mm(b));
    ScaledUnit(b, num, den, e, s, Mp(b));
    ScaledOrder(a, x, s);
    ScaledOrder(x, c, s);
    InIntervalMeaning(a, c, den, b % 2 == 0, n, k);
  }

  lemma ScaledUnit(b: u64, num: nat, den: nat, e: int, s: nat, m: nat)
    requires Scaled(b, num, den, e, s)
    ensures s > 0 && m * Unit(b) == m * num * s
  {
    assert Unit(b) == num * s && s > 0;
    hide *;
    MulAssociates(m, num, s);
  }

  lemma DistScaled(x: nat, y: nat, s: nat)
    ensures Dist(x * s, y * s) == Dist(x, y) * s
  {
    if x < y { MulMono(x, y, s); assert (y - x) * s == y * s - x * s; }
    else { MulMono(y, x, s); assert (x - y) * s == x * s - y * s; }
  }

  /** Step 4 on the right floors delivers the shortest decimal. */
  lemma Optimal(b: u64, num: nat, den: nat, e: int, s: nat, vm: nat, vr: nat, vp: nat, vmZeros: bool, vrZeros: bool)
    requires 0 < b < INFINITY && Scaled(b, num, den, e, s) && Mm(b) > 0
    requires Interval(Mm(b) * num, Mv(b) * num, Mp(b) * num, den, vm, vr, vp, b % 2 == 0, vmZeros, vrZeros)
    requires num >= 10 * den || den == 1
    ensures vmZeros ==> vm > 0
    ensures var k := Removed(vm, vp, vmZeros);
      ShortestDecimal(b, Output(vm, vr, b % 2 == 0, vmZeros, vrZeros, k), e + k)
  {
    var a, m, c, even := Mm(b) * num, Mv(b) * num, Mp(b) * num, b % 2 == 0;
    ResultInInterval(a, m, c, den, vm, vr, vp, even, vmZeros, vrZeros);
    var k := Removed(vm, vp, vmZeros);
    var out := Output(vm, vr, even, vmZeros, vrZeros, k);
    InIntervalReadsBack(b, num, den, e, s, out, k);
    forall n', e' {:trigger Decimal(n', e')} | e' > e + k && n' >= 0
      ensures !ReadsBackAs(b, Decimal(n', e'))
    {
      var j := e' - e;
      Shortest(a, m, c, den, vm, vr, vp, even, vmZeros, vrZeros, n', j);
      InIntervalReadsBack(b, num, den, e, s, n', j);
    }
    forall n': nat {:trigger Decimal(n', e + k)} | ReadsBackAs(b, Decimal(n', e + k))
      ensures Dist(Decimal(out, e + k), Point(b)) <= Dist(Decimal(n', e + k), Point(b))
      ensures n' != out && Dist(Decimal(out, e + k), Point(b)) == Dist(Decimal(n', e + k), Point(b)) ==> out % 2 == 0
    {
      NearestDecimal(b, num, den, e, s, vm, vr, vp, vmZeros, vrZeros, n');
    }
  }

  lemma NearestDecimal(b: u64, num: nat, den: nat, e: int, s: nat, vm: nat, vr: nat, vp: nat,
                       vmZeros: bool, vrZeros: bool, n: nat)
    requires 0 < b < INFINITY && Scaled(b, num, den, e, s) && Mm(b) > 0
    requires Interval(Mm(b) * num, Mv(b) * num, Mp(b) * num, den, vm, vr, vp, b % 2 == 0, vmZeros, vrZeros)
    requires (num >= 10 * den || den == 1) && (vmZeros ==> vm > 0)
    requires ReadsBackAs(b, Decimal(n, e + Removed(vm, vp, vmZeros)))
    ensures var k := Removed(vm, vp, vmZeros); var out := Output(vm, vr, b % 2 == 0, vmZeros, vrZeros, k);
      && Dist(Decimal(out, e + k), Point(b)) <= Dist(Decimal(n, e + k), Point(b))
      && (n != out && Dist(Decimal(out, e + k), Point(b)) == Dist(Decimal(n, e + k), Point(b)) ==> out % 2 == 0)
  {
    hide *;
    var a, m, c, even := Mm(b) * num, Mv(b) * num, Mp(b) * num, b % 2 == 0;
    var k := Removed(vm, vp, vmZeros);
    var out := Output(vm, vr, even, vmZeros, vrZeros, k);
    WideEnough(b, num, den, vm, vr, vp, vmZeros, vrZeros);
    IntervalDen(a, m, c, den, vm, vr, vp, even, vmZeros, vrZeros);
    InIntervalReadsBack(b, num, den, e, s, n, k);
    Nearest(a, m, c, den, vm, vr, vp, even, vmZeros, vrZeros, n);
    DecimalScaled(b, num, den, e, s, n, k);
    DecimalScaled(b, num, den, e, s, out, k);
    PointScaled(b, num, den, e, s);
    var u := Pow10(k) * den;
    DistScaled(n * u, m, s);
    DistScaled(out * u, m, s);
    ScaledOrder(Dist(out * u, m), Dist(n * u, m), s);
    ScaledOrder(Dist(n * u, m), Dist(out * u, m), s);
  }

  lemma PointScaled(b: u64, num: nat, den: nat, e: int, s: nat)
    requires 0 < b < INFINITY && Scaled(b, num, den, e, s)
    ensures s > 0 && Point(b) == Mv(b) * num * s
  {
    Midpoints(b);
    hide *;
    ScaledUnit(b, num, den, e, s, Mv(b));
  }

  /** An interval of ten units or more loses at least one digit. */
  lemma WideEnough(b: u64, num: nat, den: nat, vm: nat, vr: nat, vp: nat, vmZeros: bool, vrZeros: bool)
    requires Mm(b) > 0 && 0 < b < INFINITY
    requires Interval(Mm(b) * num, Mv(b) * num, Mp(b) * num, den, vm, vr, vp, b % 2 == 0, vmZeros, vrZeros)
    requires (num >= 10 * den || den == 1) && (vmZeros ==> vm > 0)
    ensures Removed(vm, vp, vmZeros) > 0 || Mv(b) * num % den == 0
  {
    if den > 1 {
      Midpoints(b);
      SpreadOut(Mm(b), Mp(b), num, den);
      IntervalDen(Mm(b) * num, Mv(b) * num, Mp(b) * num, den, vm, vr, vp, b % 2 == 0, vmZeros, vrZeros);
      var a, c := Mm(b) * num, Mp(b) * num;
      hide *;
      FarFloors(a, if b % 2 == 0 then c else c - 1, den);
      RemovesOne(vm, vp, vmZeros);
    } else {
      DivMulCancel(Mv(b) * num, 1);
    }
  }

  lemma FarFloors(a: nat, c: nat, den: nat)
    requires den > 0 && a + 29 * den <= c
    ensures c / den >= a / den + 19
  {
    DivModSpec(a, den);
    MultipleBelow(c, den, a / den + 19);
    assert (a / den + 19) * den == a / den * den + 19 * den;
  }

  lemma RemovesOne(vm: nat, vp: nat, vmZeros: bool)
    requires vp >= vm + 19 && (vmZeros ==> vm > 0)
    ensures Removed(vm, vp, vmZeros) > 0
  {
  }

  lemma SpreadOut(mm: nat, mp: nat, num: nat, den: nat)
    requires num >= 10 * den && mm + 3 <= mp
    ensures mm * num + 30 * den <= mp * num
  {
    MulMono(mm + 3, mp, num);
  }

  // ----- step 3: the floors and what the flags say about them

  /** The upper bound as step 4 wants it: the largest integer not above it, or below it when it is excluded. */
  function Top(c: nat, den: nat, accept: bool): int
    requires den > 0 && c > 0
  {
    if accept then c / den else (c - 1) / den
  }

  lemma FloorOfPredecessor(c: nat, den: nat)
    requires den > 0 && c > 0
    ensures (c - 1) / den == if c % den == 0 then c / den - 1 else c / den
  {
    var q, r := c / den, c % den;
    DivModSpec(c, den);
    if r == 0 {
      assert c - 1 == (q - 1) * den + (den - 1);
      DivModUnique(c - 1, den, q - 1, den - 1);
    } else {
      DivModUnique(c - 1, den, q, r - 1);
    }
  }

  /** The order of the bounds, for any scaling. */
  lemma IntervalShape(mm: nat, mv: nat, mp: nat, num: nat, den: nat, accept: bool)
    requires 0 < mm < mv && mm + 3 <= mp && mv - mm <= mp - mv && 0 < den <= num
    ensures 0 < mm * num < mv * num < mp * num && mv * num - mm * num <= mp * num - mv * num
    ensures 0 <= mm * num / den < Top(mp * num, den, accept) <= mp * num / den
    ensures mm * num / den <= mv * num / den <= Top(mp * num, den, accept)
  {
    MulMono(1, mm, num);
    MulStrict(mm, mv, num);
    MulStrict(mv, mp, num);
    MulMono(mv - mm, mp - mv, num);
    assert (mv - mm) * num == mv * num - mm * num && (mp - mv) * num == mp * num - mv * num;
    MulMono(mm + 3, mp, num);
    assert (mm + 3) * num == mm * num + 3 * num;
    var a, c := mm * num, mp * num;
    hide *;
    TwoApart(a, c - 1, den);
    TwoApart(a, c, den);
    DivLe(a, mv * num, den);
    DivLe(mv * num, c - 1, den);
    DivLe(c - 1, c, den);
    TopCases(c, den, accept);
  }

  lemma TwoApart(a: nat, c: nat, den: nat)
    requires den > 0 && a + 3 * den <= c + 1
    ensures 0 <= a / den && a / den + 1 < c / den
  {
    DivModSpec(a, den);
    DivNat(a, den);
    MultipleBelow(c, den, a / den + 2);
    assert (a / den + 2) * den == a / den * den + 2 * den;
  }

  lemma TopCases(c: nat, den: nat, accept: bool)
    requires den > 0 && c > 0
    ensures Top(c, den, accept) == if accept then c / den else (c - 1) / den
  {
  }

  /** What the flags must say about which of the three values are integers. */
  ghost predicate FlagsFit(a: nat, b: nat, c: nat, den: nat, vp: int, accept: bool, vmZeros: bool, vrZeros: bool)
    requires den > 0 && c > 0
  {
    && (vmZeros ==> accept && a % den == 0)
    && (vrZeros ==> b % den == 0)
    && (!vmZeros && accept && a % den == 0 ==> a / den % 10 != 0)
    && (!vrZeros && b % den == 0 ==> b / den % 5 != 0)
    && (vp == Top(c, den, accept) || (vp == Top(c, den, accept) + 1 && vp == c / den && vp % 10 != 0))
  }

  /** An upper bound that ends in a digit other than 0 need not be decreased by one. */
  lemma LooseTop(vm: nat, vp: nat, exact: bool)
    requires (exact ==> vm > 0) && vp > 0 && vp % 10 != 0
    ensures Removed(vm, vp, exact) == Removed(vm, vp - 1, exact)
  {
    assert vp / 10 == (vp - 1) / 10;
    assert Removals(vm, vp) == Removals(vm, vp - 1);
  }

  /** Step 4 may start from flags that fit. */
  lemma Conclude(b: u64, num: nat, den: nat, e: int, s: nat, vm: nat, vr: nat, vp: nat, vmZeros: bool, vrZeros: bool)
    requires 0 < b < INFINITY && Scaled(b, num, den, e, s) && (num >= 10 * den || den == 1) && num > 0 && den > 0
    requires Mm(b) > 0 && Mp(b) * num > 0
    requires FlagsFit(Mm(b) * num, Mv(b) * num, Mp(b) * num, den, vp, b % 2 == 0, vmZeros, vrZeros)
    requires vm == Mm(b) * num / den && vr == Mv(b) * num / den
    ensures Ready(b, e, vm, vr, vp, vmZeros, vrZeros)
  {
    hide *;
    Midpoints(b);
    var a, m, c, even := Mm(b) * num, Mv(b) * num, Mp(b) * num, b % 2 == 0;
    MmAndMp(b);
    IntervalShape(Mm(b), Mv(b), Mp(b), num, den, even);
    FitsInterval(a, m, c, den, vm, vr, vp, even, vmZeros, vrZeros);
    var top := Top(c, den, even);
    Optimal(b, num, den, e, s, vm, vr, top, vmZeros, vrZeros);
    if vp == top + 1 { LooseTop(vm, vp, vmZeros); }
    IsReady(b, e, vm, vr, vp, vmZeros, vrZeros);
  }

  /** What step 3 hands to step 4: ordered bounds from which the removal of digits is bound to succeed. */
  ghost predicate Ready(b: u64, e: int, vm: nat, vr: nat, vp: nat, vmZeros: bool, vrZeros: bool)
  {
    && vm <= vr <= vp && vm < vp && (vmZeros ==> vm > 0)
    && var k := Removed(vm, vp, vmZeros);
       ShortestDecimal(b, Output(vm, vr, b % 2 == 0, vmZeros, vrZeros, k), e + k)
  }

  lemma IsReady(b: u64, e: int, vm: nat, vr: nat, vp: nat, vmZeros: bool, vrZeros: bool)
    requires vm <= vr <= vp && vm < vp && (vmZeros ==> vm > 0)
    requires var k := Removed(vm, vp, vmZeros);
      ShortestDecimal(b, Output(vm, vr, b % 2 == 0, vmZeros, vrZeros, k), e + k)
    ensures Ready(b, e, vm, vr, vp, vmZeros, vrZeros)
  {
  }

  lemma MmAndMp(b: u64)
    ensures Mv(b) - Mm(b) <= Mp(b) - Mv(b)
  {
  }

  lemma FitsInterval(a: nat, b: nat, c: nat, den: nat, vm: nat, vr: nat, vp: nat,
                     accept: bool, vmZeros: bool, vrZeros: bool)
    requires 0 < a < b < c && b - a <= c - b && den > 0 && vm == a / den && vr == b / den && vm < Top(c, den, accept)
    requires FlagsFit(a, b, c, den, vp, accept, vmZeros, vrZeros)
    ensures Interval(a, b, c, den, vm, vr, Top(c, den, accept), accept, vmZeros, vrZeros)
    ensures vp == Top(c, den, accept) || (vp == Top(c, den, accept) + 1 && vp % 10 != 0)
  {
  }

  // ----- a nonnegative exponent: powers of ten in the denominator

  predicate Fives(x: nat, k: nat) { x % Pow5(k) == 0 }

  predicate Whole(x: nat, d: nat)
    requires d > 0
  {
    x % d == 0
  }

  predicate FiveDividesQuotient(x: nat, d: nat)
    requires d > 0
  {
    x / d % 5 == 0
  }

  predicate TenDividesQuotient(x: nat, d: nat)
    requires d > 0
  {
    x / d % 10 == 0
  }

  /** Which of the scaled values are integers, and which of those are multiples of 5. */
  lemma FloorsOverTen(x: nat, e2: nat, q: nat, y: nat, d: nat)
    requires q <= e2 && y == x * Pow2(e2) && d == Pow10(q)
    ensures Whole(y, d) <==> Fives(x, q)
    ensures Whole(y, d) && FiveDividesQuotient(y, d) ==> Fives(x, q + 1)
  {
    var p, f, z := Pow2(q), Pow5(q), x * Pow2(e2 - q);
    Pow2Add(e2 - q, q);
    PowNames(q);
    MulAssociates(x, Pow2(e2 - q), p);
    assert y == z * p && d == f * p;
    TwosDoNotHelp(x, e2 - q, q);
    TwosDoNotHelp(x, e2 - q, q + 1);
    assert Pow5(q + 1) == f * 5;
    assert Fives(x, q) <==> z % f == 0;
    assert Fives(x, q + 1) <==> z % (f * 5) == 0;
    QuotientOverTen(z, f, p);
  }

  lemma QuotientOverTen(z: nat, f: nat, p: nat)
    requires f > 0 && p > 0
    ensures f * p > 0
    ensures Whole(z * p, f * p) <==> z % f == 0
    ensures Whole(z * p, f * p) && FiveDividesQuotient(z * p, f * p) ==> z % (f * 5) == 0
  {
    DivModScale(z, f, p);
    MulCancel(z % f, 0, p);
    DivDiv(z, f, 5);
  }

  lemma HigherPower(x: nat, p: nat, q: nat)
    requires p <= q && Fives(x, q)
    ensures Fives(x, p)
  {
    Pow5Add(q - p, p);
    FinerGrid(x, Pow5(q - p), Pow5(p));
  }

  /** The significands are too short to hide a 23rd factor of 5 where the source does not look for one. */
  lemma NoTwentyThird(x: nat)
    requires 0 < x < 0x80_0000_0000_0000 && Fives(x, 23)
    ensures x % 8 != 6 && x % 4 != 0 && x != 0x3f_ffff_ffff_ffff
  {
    Pow5Add(12, 11);
    assert Pow5(11) == 48828125 && Pow5(12) == 244140625;
    var p := 11920928955078125;
    assert Pow5(23) == p;
    hide *;
    var k := x / p;
    assert x == k * p;
    assert k == 1 || k == 2 || k == 3;
  }

  /** The flags of lines 69-85. */
  lemma FlagsOverTen(b: u64, e2: nat, q: nat, a: nat, m: nat, c: nat, d: nat,
                     vp: int, vmZeros: bool, vrZeros: bool, lowered: bool)
    requires 0 < b < INFINITY && q <= e2 && Mm(b) > 0
    requires a == Mm(b) * Pow2(e2) && m == Mv(b) * Pow2(e2) && c == Mp(b) * Pow2(e2) && d == Pow10(q)
    requires vrZeros == (q <= 21 && Mv(b) % 5 == 0 && Fives(Mv(b), q))
    requires vmZeros == (q <= 21 && Mv(b) % 5 != 0 && b % 2 == 0 && Fives(Mm(b), q))
    requires lowered == (q <= 21 && Mv(b) % 5 != 0 && b % 2 != 0 && Fives(Mp(b), q))
    requires vp == c / d - Flag(lowered)
    ensures c > 0 && FlagsFit(a, m, c, d, vp, b % 2 == 0, vmZeros, vrZeros)
  {
    hide *;
    Residues(b);
    FloorsOverTen(Mm(b), e2, q, a, d);
    FloorsOverTen(Mv(b), e2, q, m, d);
    FloorsOverTen(Mp(b), e2, q, c, d);
    FivesApart(b, q);
    MulMono(1, Mp(b), Pow2(e2));
    TenFive(a, d);
    TenFive(c, d);
    FlagsFrom(a, m, c, d, vp, b % 2 == 0, vmZeros, vrZeros, lowered);
  }

  lemma FlagsFrom(a: nat, b: nat, c: nat, d: nat, vp: int, accept: bool, vmZeros: bool, vrZeros: bool, lowered: bool)
    requires d > 0 && c > 0 && vp == c / d - Flag(lowered)
    requires vmZeros ==> accept && Whole(a, d)
    requires vrZeros ==> Whole(b, d)
    requires !vmZeros && accept && Whole(a, d) ==> !TenDividesQuotient(a, d)
    requires !vrZeros && Whole(b, d) ==> !FiveDividesQuotient(b, d)
    requires lowered ==> !accept && Whole(c, d)
    requires !lowered && !accept && Whole(c, d) ==> !TenDividesQuotient(c, d)
    ensures FlagsFit(a, b, c, d, vp, accept, vmZeros, vrZeros)
  {
    FloorOfPredecessor(c, d);
  }

  lemma TenFive(x: nat, d: nat)
    requires d > 0
    ensures TenDividesQuotient(x, d) ==> FiveDividesQuotient(x, d)
  {
  }

  lemma Residues(b: u64)
    requires b > 0
    ensures Mv(b) % 8 == (if b % 2 == 0 then 0 else 4) && Mv(b) % 4 == 0
    ensures Mp(b) % 8 == if b % 2 == 0 then 2 else 6
    ensures b % 2 == 0 && Mm(b) != 0x3f_ffff_ffff_ffff ==> Mm(b) % 8 == 6
    ensures b % 2 != 0 ==> MmShift(b) == 1
    ensures MmShift(b) == 0 || MmShift(b) == 1
    ensures Mm(b) % 2 == 1 - MmShift(b)
    ensures Mv(b) % 5 == 0 ==> Mm(b) % 5 != 0 && Mp(b) % 5 != 0
    ensures 0 < Mm(b) < Mv(b) < Mp(b) < 0x80_0000_0000_0000
  {
    hide *;
    SignificandParity(b);
    BoundNames(b);
    NoShift(b);
    FourTimes(Significand(b));
    NextResidues(Mv(b));
    NextToMultiple(Mv(b));
    DivModUnique(Mv(b), 4, Significand(b), 0);
  }

  lemma NoShift(b: u64)
    ensures MmShift(b) == 0 ==> Significand(b) == 0x10_0000_0000_0000
  {
  }

  lemma SignificandParity(b: u64)
    ensures Significand(b) % 2 == b % 2
  {
  }

  lemma FourTimes(g: int)
    ensures 4 * g % 8 == if g % 2 == 0 then 0 else 4
  {
    DivModUnique(4 * g, 8, g / 2, 4 * (g % 2));
  }

  lemma NextResidues(x: int)
    requires x % 8 == 0 || x % 8 == 4
    ensures (x + 2) % 8 == x % 8 + 2
    ensures (x - 2) % 8 == (x % 8 + 6) % 8
    ensures (x - 1) % 2 == 1 && (x - 2) % 2 == 0
  {
    var k, r := x / 8, x % 8;
    DivModUnique(x + 2, 8, k, r + 2);
    DivModUnique(x - 2, 8, if r == 0 then k - 1 else k, if r == 0 then 6 else 2);
    DivModUnique(x - 1, 2, 4 * k + r / 2 - 1, 1);
    DivModUnique(x - 2, 2, 4 * k + r / 2 - 1, 0);
  }

  lemma NextToMultiple(x: int)
    ensures x % 5 == 0 ==> (x - 1) % 5 != 0 && (x - 2) % 5 != 0 && (x + 2) % 5 != 0
  {
  }

  /** A value whose factors of 5 the source does not count never has more than the q that make it an integer. */
  lemma FivesApart(b: u64, q: nat)
    requires 0 < b < INFINITY && Mm(b) > 0
    ensures q > 21 && b % 2 == 0 ==> !Fives(Mm(b), q + 1)
    ensures q > 21 ==> !Fives(Mv(b), q + 1)
    ensures q > 21 && b % 2 != 0 ==> !Fives(Mp(b), q + 1)
    ensures Mv(b) % 5 == 0 ==> !Fives(Mm(b), q + 1) && !Fives(Mp(b), q + 1)
    ensures Mv(b) % 5 != 0 ==> !Fives(Mv(b), q + 1)
  {
    hide *;
    Residues(b);
    NotBeyond(Mm(b), q);
    NotBeyond(Mv(b), q);
    NotBeyond(Mp(b), q);
  }

  lemma NotBeyond(x: nat, q: nat)
    requires 0 < x < 0x80_0000_0000_0000
    ensures q > 21 && Fives(x, q + 1) ==> x % 8 != 6 && x % 4 != 0 && x != 0x3f_ffff_ffff_ffff
    ensures Fives(x, q + 1) ==> x % 5 == 0
  {
    assert Fives(x, 1) <==> x % 5 == 0;
    hide *;
    if Fives(x, q + 1) {
      HigherPower(x, 1, q + 1);
      if q > 21 {
        HigherPower(x, 23, q + 1);
        NoTwentyThird(x);
      }
    }
  }

  // ----- a negative exponent: powers of two in the denominator

  predicate Twos(x: nat, k: nat) { x % Pow2(k) == 0 }

  lemma FloorsOverTwo(x: nat, i: nat, q: nat, y: nat, d: nat)
    requires y == x * Pow5(i) && d == Pow2(q)
    ensures Whole(y, d) <==> Twos(x, q)
    ensures q == 0 && x % 2 == 1 ==> !TenDividesQuotient(y, d)
  {
    FivesDoNotHelp(x, i, q);
    if q == 0 {
      OddPower(i);
      EvenProduct(x, Pow5(i));
    }
  }

  /** The source's case distinction on q counts the factors of 2 of all three values. */
  lemma TwosApart(b: u64, q: nat)
    requires 0 < b < INFINITY && Mm(b) > 0
    ensures q <= 1 ==> Twos(Mv(b), q) && Twos(Mp(b), q) && (MmShift(b) == 1 ==> Twos(Mm(b), q))
    ensures q == 1 && MmShift(b) == 0 ==> !Twos(Mm(b), q)
    ensures q >= 2 ==> !Twos(Mp(b), q) && (b % 2 == 0 ==> !Twos(Mm(b), q))
    ensures q >= 63 ==> !Twos(Mv(b), q)
  {
    hide *;
    EvenResidues(b);
    var mm, mv, mp := Mm(b), Mv(b), Mp(b);
    FewTwos(mm, q);
    FewTwos(mv, q);
    FewTwos(mp, q);
    MultipleOfFour(mm, q);
    MultipleOfFour(mp, q);
    TooManyTwos(mv, q);
  }

  lemma EvenResidues(b: u64)
    requires b > 0
    ensures Mv(b) % 2 == 0 && Mp(b) % 2 == 0 && Mm(b) % 2 == 1 - MmShift(b) && (MmShift(b) == 0 || MmShift(b) == 1)
    ensures Mp(b) % 4 == 2 && Mm(b) % 4 != 0
    ensures 0 < Mm(b) < Mv(b) < Mp(b) < 0x80_0000_0000_0000
  {
    hide *;
    BoundNames(b);
    FourResidues(Significand(b));
  }

  lemma FourResidues(g: int)
    ensures 4 * g % 2 == 0 && (4 * g + 2) % 2 == 0 && (4 * g + 2) % 4 == 2
    ensures (4 * g - 2) % 2 == 0 && (4 * g - 2) % 4 == 2 && (4 * g - 1) % 2 == 1 && (4 * g - 1) % 4 == 3
  {
    DivModUnique(4 * g, 2, 2 * g, 0);
    DivModUnique(4 * g + 2, 2, 2 * g + 1, 0);
    DivModUnique(4 * g + 2, 4, g, 2);
    DivModUnique(4 * g - 2, 2, 2 * g - 1, 0);
    DivModUnique(4 * g - 2, 4, g - 1, 2);
    DivModUnique(4 * g - 1, 2, 2 * g - 1, 1);
    DivModUnique(4 * g - 1, 4, g - 1, 3);
  }

  lemma FewTwos(x: nat, q: nat)
    ensures q == 0 ==> Twos(x, q)
    ensures q == 1 ==> (Twos(x, q) <==> x % 2 == 0)
  {
    assert Pow2(0) == 1 && Pow2(1) == 2;
  }

  lemma MultipleOfFour(x: nat, q: nat)
    ensures q >= 2 && Twos(x, q) ==> x % 4 == 0
  {
    if q >= 2 && Twos(x, q) {
      Pow2Add(q - 2, 2);
      assert Pow2(2) == 4;
      FinerGrid(x, Pow2(q - 2), 4);
    }
  }

  lemma TooManyTwos(x: nat, q: nat)
    requires 0 < x < 0x80_0000_0000_0000
    ensures q >= 63 ==> !Twos(x, q)
  {
    if q >= 63 {
      TwoTo64();
      Pow2Mono(63, q);
      DivModUnique(x, Pow2(q), 0, x);
    }
  }

  /** The flags of lines 94-111. */
  lemma FlagsOverTwo(b: u64, i: nat, q: nat, a: nat, m: nat, c: nat, d: nat,
                     vp: int, vmZeros: bool, vrZeros: bool, lowered: bool)
    requires 0 < b < INFINITY && Mm(b) > 0
    requires a == Mm(b) * Pow5(i) && m == Mv(b) * Pow5(i) && c == Mp(b) * Pow5(i) && d == Pow2(q)
    requires vrZeros == (q <= 1 || (q < 63 && Twos(Mv(b), q)))
    requires vmZeros == (q <= 1 && b % 2 == 0 && MmShift(b) == 1)
    requires lowered == (q <= 1 && b % 2 != 0)
    requires vp == c / d - Flag(lowered)
    ensures c > 0 && FlagsFit(a, m, c, d, vp, b % 2 == 0, vmZeros, vrZeros)
  {
    hide *;
    Residues(b);
    FloorsOverTwo(Mm(b), i, q, a, d);
    FloorsOverTwo(Mv(b), i, q, m, d);
    FloorsOverTwo(Mp(b), i, q, c, d);
    TwosApart(b, q);
    MulMono(1, Mp(b), Pow5(i));
    FlagsFrom(a, m, c, d, vp, b % 2 == 0, vmZeros, vrZeros, lowered);
  }

  // ----- the tables

  /** The table row and shift for a nonnegative exponent (lines 64-67). */
  function InvIndex(e2: nat): nat
    requires e2 <= 1650
  {
    Log10Pow2(e2) - Flag(e2 > 3)
  }

  function InvShift(e2: nat): int
    requires e2 <= 1650
  {
    var k: int := TABLE_BITS + Pow5Bits(InvIndex(e2)) - 1;
    k + InvIndex(e2) - e2
  }

  /** The number of decimal digits taken off for the exponent -e, and the shift (lines 88-92). */
  function PowDigits(e: nat): nat
    requires 1 <= e <= 2620
    ensures PowDigits(e) <= e
  {
    Log10Pow5(e) - Flag(e > 1)
  }

  function PowShift(e: nat): int
    requires 1 <= e <= 2620
  {
    PowDigits(e) - (Pow5Bits(e - PowDigits(e)) - TABLE_BITS)
  }

  /**
    The source's tables are long enough, 51 rows longer than needed in one case, and its shifts lie between 118 and
    125, well within what the 128-bit multiplication supports.
   */
  lemma TableAccess(e: nat)
    ensures e <= 969 ==> InvIndex(e) <= 290 && 118 <= InvShift(e) <= 125
    ensures 1 <= e <= 1076 ==> 1 <= e - PowDigits(e) <= 325 && 118 <= PowShift(e) <= 125
  {
  }

  // ----- the bounds of the two indices

  lemma InvFacts(e2: nat)
    requires e2 <= 969
    ensures InvIndex(e2) <= e2
    ensures Pow2(e2) >= 10 * Pow10(InvIndex(e2)) || Pow10(InvIndex(e2)) == 1
  {
    var q := InvIndex(e2);
    LogsBelow(e2);
    if e2 > 3 {
      assert Log10Pow2(e2) == q + 1;
      assert Pow10(q + 1) == 10 * Pow10(q);
    } else {
      assert q == 0;
    }
  }

  lemma PowFacts(e: nat)
    requires 1 <= e <= 1076
    ensures Pow5(e - PowDigits(e)) >= 10 * Pow2(PowDigits(e)) || Pow2(PowDigits(e)) == 1
  {
    var q := PowDigits(e);
    LogsBelow(e);
    if e > 1 {
      assert Log10Pow5(e) == q + 1;
      assert Pow10(q + 1) == 10 * Pow10(q);
      PowNames(q);
      Pow5Add(q, e - q);
      hide *;
      TenFactor(Pow2(q), Pow5(q), Pow5(e - q));
    } else {
      assert q == 0;
    }
  }

  lemma TenFactor(p: nat, f: nat, r: nat)
    requires f > 0 && 10 * (p * f) <= f * r
    ensures r >= 10 * p
  {
    MulCancel(10 * p, r, f);
  }

  lemma ScaledOverTen(b: u64, e2: nat, q: nat)
    requires Exponent(b) == e2 + FINE
    ensures Scaled(b, Pow2(e2), Pow10(q), q, Pow10(FINE))
  {
    Pow2Add(e2, FINE);
    Pow10Add(q, FINE);
    PowNames(FINE);
    MulAssociates(Pow2(e2), Pow2(FINE), Pow5(FINE));
    hide Pow2, Pow5, Pow10;
  }

  lemma ScaledOverTwo(b: u64, e: nat, q: nat) returns (s: nat)
    requires q <= e <= FINE && Exponent(b) + e == FINE
    ensures Scaled(b, Pow5(e - q), Pow2(q), q - e, s)
  {
    var t := FINE - e;
    s := Pow2(t) * Pow5(t + q);
    var x, y, z, f := Pow5(e - q), Pow2(t), Pow5(t + q), Pow2(q);
    Pow5Add(e - q, t + q);
    Pow2Add(t, q);
    PowNames(t + q);
    ProductPositive(y, z);
    var unit, ten := Unit(b), Pow10(t + q);
    assert unit == y * (x * z) && ten == y * f * z;
    Shuffle(x, y, z, f);
    IsScaled(b, x, f, q - e, s);
  }

  lemma Shuffle(x: nat, y: nat, z: nat, f: nat)
    ensures y * (x * z) == x * (y * z) && y * f * z == f * (y * z)
  {
    MulAssociates(y, x, z);
    MulAssociates(x, y, z);
    MulAssociates(f, y, z);
  }

  lemma IsScaled(b: u64, num: nat, den: nat, e: int, s: nat)
    requires e + FINE >= 0 && s > 0 && den > 0 && num * s == Unit(b) && den * s == Pow10(e + FINE)
    ensures Scaled(b, num, den, e, s)
  {
  }

  lemma ProductPositive(a: int, b: int)
    requires a > 0 && b > 0
    ensures a * b > 0
  {
  }

  /** Decreasing the upper bound cannot wrap around. */
  lemma LoweredPositive(b: u64, num: nat, den: nat, vp: int, vmZeros: bool, vrZeros: bool)
    requires 0 < b < INFINITY && 0 < den <= num && Mm(b) > 0 && Mp(b) * num > 0
    requires FlagsFit(Mm(b) * num, Mv(b) * num, Mp(b) * num, den, vp, b % 2 == 0, vmZeros, vrZeros)
    ensures vp > 0
  {
    assert vp >= Top(Mp(b) * num, den, b % 2 == 0);
    hide *;
    Midpoints(b);
    MmAndMp(b);
    IntervalShape(Mm(b), Mv(b), Mp(b), num, den, b % 2 == 0);
  }

  // ----- the conversion

  /** A double's significand and exponent field, as `d2d` receives them. */
  ghost predicate Decoded(b: u64, m2: u64, ieeeExponent: nat)
  {
    0 < b < INFINITY && m2 == Significand(b) && ieeeExponent == b / HIDDEN
  }

  lemma DecodedFacts(b: u64, m2: u64, ieeeExponent: nat)
    requires Decoded(b, m2, ieeeExponent)
    ensures 0 < b < INFINITY && m2 == Significand(b)
    ensures Exponent(b) == (if ieeeExponent == 0 then 1 else ieeeExponent) - 1 <= 2045
    ensures m2 % 2 == b % 2 && 0 < m2 < 0x20_0000_0000_0000 && Mv(b) == 4 * m2 && Mp(b) == 4 * m2 + 2
    ensures MmShift(b) == Flag(m2 != 0x10_0000_0000_0000 || ieeeExponent <= 1) <= 1
    ensures Mm(b) == 4 * m2 - 1 - MmShift(b)
    ensures 0 < Mm(b) < Mv(b) < Mp(b) < 0x80_0000_0000_0000
  {
    hide *;
    DecodedNames(b, m2, ieeeExponent);
    BoundNames(b);
    Residues(b);
    SignificandParity(b);
  }

  lemma DecodedNames(b: u64, m2: u64, ieeeExponent: nat)
    requires Decoded(b, m2, ieeeExponent)
    ensures 0 < b < INFINITY && m2 == Significand(b)
    ensures Exponent(b) == (if ieeeExponent == 0 then 1 else ieeeExponent) - 1 <= 2045
    ensures MmShift(b) == Flag(m2 != 0x10_0000_0000_0000 || ieeeExponent <= 1) <= 1
  {
  }

  lemma RowGives(row: Row, j: int, num: nat, den: nat, m: u64)
    requires RowExact(row, j, num, den) && m < 0x80_0000_0000_0000
    ensures j >= 64 && den > 0 && MulShift64(m, row, j) == m * num / den
  {
  }

  lemma ReadyOverTen(b: u64, e2: nat, q: nat, vm: nat, vr: nat, vp: nat, vmZeros: bool, vrZeros: bool, lowered: bool)
    requires 0 < b < INFINITY && e2 <= 969 && Exponent(b) == e2 + FINE && q == InvIndex(e2) && Mm(b) > 0
    requires vm == Mm(b) * Pow2(e2) / Pow10(q) && vr == Mv(b) * Pow2(e2) / Pow10(q)
    requires vp == Mp(b) * Pow2(e2) / Pow10(q)
    requires vrZeros == (q <= 21 && Mv(b) % 5 == 0 && Fives(Mv(b), q))
    requires vmZeros == (q <= 21 && Mv(b) % 5 != 0 && b % 2 == 0 && Fives(Mm(b), q))
    requires lowered == (q <= 21 && Mv(b) % 5 != 0 && b % 2 != 0 && Fives(Mp(b), q))
    ensures vp - Flag(lowered) > 0
    ensures Ready(b, q, vm, vr, vp - Flag(lowered), vmZeros, vrZeros)
  {
    hide *;
    InvFacts(e2);
    ScaledOverTen(b, e2, q);
    var a, m, c, d := Mm(b) * Pow2(e2), Mv(b) * Pow2(e2), Mp(b) * Pow2(e2), Pow10(q);
    var v := vp - Flag(lowered);
    FlagsOverTen(b, e2, q, a, m, c, d, v, vmZeros, vrZeros, lowered);
    LoweredPositive(b, Pow2(e2), d, v, vmZeros, vrZeros);
    Conclude(b, Pow2(e2), d, q, Pow10(FINE), vm, vr, v, vmZeros, vrZeros);
  }

  lemma ReadyOverTwo(b: u64, e: nat, q: nat, vm: nat, vr: nat, vp: nat, vmZeros: bool, vrZeros: bool, lowered: bool)
    requires 0 < b < INFINITY && 1 <= e <= 1076 && Exponent(b) + e == FINE && q == PowDigits(e) && Mm(b) > 0
    requires vm == Mm(b) * Pow5(e - q) / Pow2(q) && vr == Mv(b) * Pow5(e - q) / Pow2(q)
    requires vp == Mp(b) * Pow5(e - q) / Pow2(q)
    requires vrZeros == (q <= 1 || (q < 63 && Twos(Mv(b), q)))
    requires vmZeros == (q <= 1 && b % 2 == 0 && MmShift(b) == 1)
    requires lowered == (q <= 1 && b % 2 != 0)
    ensures vp - Flag(lowered) > 0
    ensures Ready(b, q - e, vm, vr, vp - Flag(lowered), vmZeros, vrZeros)
  {
    assert FINE == 1076;
    hide *;
    PowFacts(e);
    var s := ScaledOverTwo(b, e, q);
    ReadyFromTwos(b, e - q, q, Pow5(e - q), Pow2(q), q - e, s, vm, vr, vp, vmZeros, vrZeros, lowered);
  }

  lemma ReadyFromTwos(b: u64, i: nat, q: nat, f: nat, d: nat, e10: int, s: nat, vm: nat, vr: nat, vp: nat,
                      vmZeros: bool, vrZeros: bool, lowered: bool)
    requires 0 < b < INFINITY && Mm(b) > 0 && f == Pow5(i) && d == Pow2(q)
    requires Scaled(b, f, d, e10, s) && (f >= 10 * d || d == 1)
    requires vm == Mm(b) * f / d && vr == Mv(b) * f / d && vp == Mp(b) * f / d
    requires vrZeros == (q <= 1 || (q < 63 && Twos(Mv(b), q)))
    requires vmZeros == (q <= 1 && b % 2 == 0 && MmShift(b) == 1)
    requires lowered == (q <= 1 && b % 2 != 0)
    ensures vp - Flag(lowered) > 0
    ensures Ready(b, e10, vm, vr, vp - Flag(lowered), vmZeros, vrZeros)
  {
    hide *;
    var a, m, c := Mm(b) * f, Mv(b) * f, Mp(b) * f;
    var v := vp - Flag(lowered);
    FlagsOverTwo(b, i, q, a, m, c, d, v, vmZeros, vrZeros, lowered);
    LoweredPositive(b, f, d, v, vmZeros, vrZeros);
    Conclude(b, f, d, e10, s, vm, vr, v, vmZeros, vrZeros);
  }

  /** The three values of `mulShiftAll64`: the double and the midpoints on either side, scaled and cut off. */
  method MulShiftAll64(ghost b: u64, m: u64, row: Row, j: nat, mmShift: nat, ghost num: nat, ghost den: nat)
      returns (vr: u64, vp: u64, vm: u64)
    requires 0 < b < INFINITY && m == Significand(b) && mmShift == MmShift(b) && RowExact(row, j, num, den)
    ensures den > 0 && vr == Mv(b) * num / den && vp == Mp(b) * num / den && Mm(b) > 0 && vm == Mm(b) * num / den
  {
    hide *;
    BoundNames(b);
    Residues(b);
    RowGives(row, j, num, den, 4 * m);
    RowGives(row, j, num, den, 4 * m + 2);
    RowGives(row, j, num, den, 4 * m - 1 - mmShift);
    vp := MulShift64(4 * m + 2, row, j);
    vm := MulShift64(4 * m - 1 - mmShift, row, j);
    vr := MulShift64(4 * m, row, j);
  }

  /** Step 3 for a nonnegative exponent (lines 61-85). */
  method ScaleDown(ghost b: u64, m2: u64, e2: nat, acceptBounds: bool, mmShift: nat)
      returns (vr: u64, vp: u64, vm: u64, vmIsTrailingZeros: bool, vrIsTrailingZeros: bool, e10: int)
    requires 0 < b < INFINITY && e2 <= 969 && Exponent(b) == e2 + FINE
    requires m2 == Significand(b) && mmShift == MmShift(b) && acceptBounds == (b % 2 == 0)
    ensures Ready(b, e10, vm, vr, vp, vmIsTrailingZeros, vrIsTrailingZeros)
  {
    hide *;
    BoundNames(b);
    vmIsTrailingZeros, vrIsTrailingZeros := false, false;
    var q, i := InvIndex(e2), InvShift(e2);
    e10 := q;
    var mm, mv, mp := 4 * m2 - 1 - mmShift, 4 * m2, 4 * m2 + 2;
    InvRow(e2);
    vr, vp, vm := MulShiftAll64(b, m2, InvSplit(q), i, mmShift, Pow2(e2), Pow10(q));
    var lowered := false;
    if q <= 21 {
      LowRemainderCorrect(mv, 5);
      if LowRemainder(mv, 5) == 0 {
        vrIsTrailingZeros := MultipleOf5(mv, q);
      } else if acceptBounds {
        vmIsTrailingZeros := MultipleOf5(mm, q);
      } else {
        lowered := MultipleOf5(mp, q);
      }
    }
    ReadyOverTen(b, e2, q, vm, vr, vp, vmIsTrailingZeros, vrIsTrailingZeros, lowered);
    vp := vp - Flag(lowered);
  }

  method MultipleOf5(x: u64, q: nat) returns (r: bool)
    requires x != 0
    ensures r == Fives(x, q)
  {
    r := MultipleOfPowerOf5(x, q);
  }

  /** Step 3 for a negative exponent (lines 86-112). */
  method ScaleUp(ghost b: u64, m2: u64, e: nat, acceptBounds: bool, mmShift: nat)
      returns (vr: u64, vp: u64, vm: u64, vmIsTrailingZeros: bool, vrIsTrailingZeros: bool, e10: int)
    requires 0 < b < INFINITY && 1 <= e <= 1076 && Exponent(b) + e == FINE
    requires m2 == Significand(b) && mmShift == MmShift(b) && acceptBounds == (b % 2 == 0)
    ensures Ready(b, e10, vm, vr, vp, vmIsTrailingZeros, vrIsTrailingZeros)
  {
    hide *;
    BoundNames(b);
    vmIsTrailingZeros, vrIsTrailingZeros := false, false;
    var q, j := PowDigits(e), PowShift(e);
    e10 := q - e;
    SplitRow(e);
    vr, vp, vm := MulShiftAll64(b, m2, Split(e - q), j, mmShift, Pow5(e - q), Pow2(q));
    var lowered := false;
    if q <= 1 {
      vrIsTrailingZeros := true;
      if acceptBounds {
        vmIsTrailingZeros := mmShift == 1;
      } else {
        lowered := true;
      }
    } else if q < 63 {
      TwosNamed(4 * m2, q);
      vrIsTrailingZeros := MultipleOfPowerOf2(4 * m2, q);
    }
    ReadyOverTwo(b, e, q, vm, vr, vp, vmIsTrailingZeros, vrIsTrailingZeros, lowered);
    vp := vp - Flag(lowered);
  }

  lemma BoundNames(b: u64)
    requires 0 < b
    ensures 0 < Significand(b) < 0x20_0000_0000_0000 && Mv(b) == 4 * Significand(b) && Mp(b) == 4 * Significand(b) + 2
    ensures 0 <= MmShift(b) <= 1 && Mm(b) == 4 * Significand(b) - 1 - MmShift(b)
    ensures W32 == 0x1_0000_0000 && W64 == 0x1_0000_0000_0000_0000
  {
    SignificandPositive(b);
  }

  /** `d2d` (lines 42-206). */
  method D2d(ghost b: u64, m2: u64, ieeeExponent: nat, bias: nat) returns (mantissa: u64, exponent: int)
    requires Decoded(b, m2, ieeeExponent) && bias == 1077
    ensures ShortestDecimal(b, mantissa, exponent)
  {
    hide *;
    var e2: int := (if ieeeExponent == 0 then 1 else ieeeExponent) - bias;
    DecodedFacts(b, m2, ieeeExponent);
    AndOne(m2);
    FineIs();
    var acceptBounds := And(m2, 1) == 0;
    var mmShift := Flag(m2 != 0x10_0000_0000_0000 || ieeeExponent <= 1);
    var vr, vp, vm, vmIsTrailingZeros, vrIsTrailingZeros, e10;
    if e2 >= 0 {
      vr, vp, vm, vmIsTrailingZeros, vrIsTrailingZeros, e10 := ScaleDown(b, m2, e2, acceptBounds, mmShift);
    } else {
      vr, vp, vm, vmIsTrailingZeros, vrIsTrailingZeros, e10 := ScaleUp(b, m2, -e2, acceptBounds, mmShift);
    }
    ReadyMeans(b, e10, vm, vr, vp, vmIsTrailingZeros, vrIsTrailingZeros);
    var removed;
    if vmIsTrailingZeros || vrIsTrailingZeros {
      mantissa, removed := RemoveDigits(vm, vr, vp, acceptBounds, vmIsTrailingZeros, vrIsTrailingZeros);
    } else {
      mantissa, removed := RemoveDigitsFast(vm, vr, vp, acceptBounds);
    }
    exponent := e10 + removed;
  }

  lemma FineIs()
    ensures FINE == 1076
  {
  }

  lemma ReadyMeans(b: u64, e: int, vm: nat, vr: nat, vp: nat, vmZeros: bool, vrZeros: bool)
    requires Ready(b, e, vm, vr, vp, vmZeros, vrZeros)
    ensures vm <= vr <= vp && vm < vp && (vmZeros ==> vm > 0)
    ensures var k := Removed(vm, vp, vmZeros);
       ShortestDecimal(b, Output(vm, vr, b % 2 == 0, vmZeros, vrZeros, k), e + k)
  {
  }

  lemma TwosNamed(x: u64, q: nat)
    ensures MultipleOfPowerOf2(x, q) <==> Twos(x, q)
  {
    MultipleOfPowerOf2Correct(x, q);
  }

  /** The row for a nonnegative exponent gives the right floors. */
  lemma InvRow(e: nat)
    requires e <= 969
    ensures InvIndex(e) <= 290 && InvShift(e) >= 64
    ensures RowExact(InvSplit(InvIndex(e)), InvShift(e), Pow2(e), Pow10(InvIndex(e)))
  {
    hide *;
    TableAccess(e);
    var q, j := InvIndex(e), InvShift(e);
    InvRows(q);
    InvMeans(q, InvSplit(q));
    InvShiftIs(e);
    var s, t := Pow5Bits(q) + 6, j - 118;
    PowNames(q);
    Pow2Add(e, t);
    Pow2Add(s, q);
    assert e + t == s + q;
    CrossProducts(Pow2(s), Pow2(q), Pow5(q), Pow2(e), Pow2(t));
    ExactFrom(InvSplit(q), Pow2(s), Pow5(q), j, Pow2(e), Pow10(q));
  }

  lemma InvShiftIs(e: nat)
    requires e <= 969
    ensures InvIndex(e) <= 1650 && InvShift(e) == 124 + Pow5Bits(InvIndex(e)) + InvIndex(e) - e
  {
    TableAccess(e);
  }

  lemma CrossProducts(s: nat, q: nat, f: nat, e: nat, t: nat)
    requires s * q == e * t
    ensures s * (q * f) == e * (f * t)
  {
    MulAssociates(s, q, f);
    MulAssociates(e, t, f);
  }

  /** The row for a negative exponent does as well. */
  lemma SplitRow(e: nat)
    requires 1 <= e <= 1076
    ensures 1 <= e - PowDigits(e) <= 325 && PowShift(e) >= 64
    ensures RowExact(Split(e - PowDigits(e)), PowShift(e), Pow5(e - PowDigits(e)), Pow2(PowDigits(e)))
  {
    hide *;
    TableAccess(e);
    var q, j := PowDigits(e), PowShift(e);
    var i := e - q;
    SplitRows(i);
    SplitMeans(i, Split(i));
    PowShiftIs(e);
    var b, t := Pow5Bits(i), j - 118;
    TwoToSeven();
    Pow2Add(b, t);
    Pow2Add(7, q);
    assert b + t == 7 + q;
    FiveAside(Pow5(i), Pow2(q), Pow2(b), Pow2(t));
    ExactFrom(Split(i), 128 * Pow5(i), Pow2(b), j, Pow5(i), Pow2(q));
  }

  lemma PowShiftIs(e: nat)
    requires 1 <= e <= 1076
    ensures 1 <= e - PowDigits(e) <= 325
    ensures PowShift(e) == PowDigits(e) - Pow5Bits(e - PowDigits(e)) + 125
  {
    TableAccess(e);
  }

  lemma TwoToSeven()
    ensures Pow2(7) == 128
  {
  }

  lemma FiveAside(f: nat, q: nat, b: nat, t: nat)
    requires b * t == 128 * q
    ensures 128 * f * q == f * (b * t)
  {
  }

  // ----- decoding the bits

  datatype Kind = RyuNan | RyuInfinity | RyuValue

  datatype FloatingDecimal = FloatingDecimal(mantissa: u64, exponent: int, sign: bool, kind: Kind)

  const MANTISSA_BITS := 52
  const EXPONENT_BITS := 11

  /** `internal_bias`, in 32-bit arithmetic */
  function InternalBias(mantissaBits: u32, exponentBits: u32): u32
    requires exponentBits > 0
  {
    Add32(Sub32(Shl32(1, exponentBits - 1), 1), Add32(mantissaBits, 2))
  }

  lemma DoubleBias()
    ensures InternalBias(MANTISSA_BITS, EXPONENT_BITS) == 1077
  {
    TwoTo12();
  }

  /** The three fields as the source masks them out. */
  lemma MaskedFields(bits: u64)
    ensures And(Shr(bits, 63), 1) == Flag(Negative(bits))
    ensures And(bits, Pow2(52) - 1) == FracField(bits)
    ensures And(Shr(bits, 52), Pow2(11) - 1) == ExpField(bits)
  {
    TwoTo12();
    TwoTo54();
    TwoTo64();
    AndOne(Shr(bits, 63));
    AndMask(bits, 52);
    AndMask(Shr(bits, 52), 11);
    assert Shr(bits, 63) == Flag(Negative(bits));
  }

  /** `generic_binary_to_decimal` (lines 208-242), for doubles. */
  method GenericBinaryToDecimal(bits: u64) returns (r: FloatingDecimal)
    ensures r.sign == Negative(bits)
    ensures r.kind == (if IsNaN(bits) then RyuNan else if !Finite(bits) then RyuInfinity else RyuValue)
    ensures !Finite(bits) || Abs(bits) == 0 ==> r.mantissa == 0 && r.exponent == 0
    ensures Finite(bits) && Abs(bits) != 0 ==> ShortestDecimal(Abs(bits), r.mantissa, r.exponent)
  {
    MaskedFields(bits);
    FieldsOf(bits);
    DoubleBias();
    hide And, Shr, Pow2, Significand, ShortestDecimal;
    var sign := And(Shr(bits, 63), 1) != 0;
    var ieeeMantissa: u64 := And(bits, Pow2(52) - 1);
    var ieeeExponent := And(Shr(bits, 52), Pow2(11) - 1);
    if ieeeExponent == 2047 || (ieeeExponent == 0 && ieeeMantissa == 0) {
      var kind := if ieeeMantissa != 0 then RyuNan else if ieeeExponent != 0 then RyuInfinity else RyuValue;
      return FloatingDecimal(0, 0, sign, kind);
    }
    SignificandOf(bits);
    if ieeeExponent != 0 {
      SetHiddenBit(ieeeMantissa);
      ieeeMantissa := Or(ieeeMantissa, Shl64(1, 52));
    }
    var bias := InternalBias(MANTISSA_BITS, EXPONENT_BITS);
    var mantissa, exponent := D2d(Abs(bits), ieeeMantissa, ieeeExponent, bias);
    r := FloatingDecimal(mantissa, exponent, sign, RyuValue);
  }

  lemma SetHiddenBit(f: u64)
    requires f < HIDDEN
    ensures Or(f, Shl64(1, 52)) == HIDDEN + f
  {
    TwoTo54();
    OrDisjoint(HIDDEN, f, 52);
    OrCommutes(HIDDEN, f);
  }

  lemma SignificandOf(bits: u64)
    requires Finite(bits) && Abs(bits) != 0
    ensures Abs(bits) < INFINITY && Abs(bits) / HIDDEN == ExpField(bits)
    ensures Significand(Abs(bits)) == FracField(bits) + (if ExpField(bits) == 0 then 0 else HIDDEN)
  {
    FieldsOf(bits);
    DivModUnique(Abs(bits), HIDDEN, ExpField(bits), FracField(bits));
  }

  // ----- what the result is good for

  /** The grid of the specification is the grid of doubles. */
  lemma GridIsMag(b: u64)
    requires b < INFINITY
    ensures Finite(b) && Grid(b) == Mag(b)
  {
    FieldsOf(b);
  }

  /** No decimal reads back as two doubles, so the printed decimal determines the double. */
  lemma RoundTrip(a: u64, b: u64, n: nat, e: int)
    requires 0 < a < INFINITY && 0 < b < INFINITY
    requires ShortestDecimal(a, n, e) && e + FINE >= 0 && ReadsBackAs(b, Decimal(n, e))
    ensures a == b
  {
    if a < b { NotBoth(a, b, Decimal(n, e)); }
    if b < a { NotBoth(b, a, Decimal(n, e)); }
  }

  lemma NotBoth(a: u64, b: u64, x: nat)
    requires 0 < a < b < INFINITY
    ensures !(ReadsBackAs(a, x) && ReadsBackAs(b, x))
  {
    hide *;
    ReadsBackInterval(a, x);
    ReadsBackInterval(b, x);
    PointMono(a, b - 1);
    PointMono(a + 1, b);
  }
}
