/**
  `fma` (libc/musl-generic-math/fma.c, whose lines are cited below): the correctly rounded x * y + z of
  all doubles.  Products and addends are aligned in 128 bits, lost bits are kept as one sticky bit, and the
  sum is rounded once, to normal and to subnormal results alike.
 */
module Fma {
  import opened Words
  import opened Ieee
  import opened FmaParts
  import opened Sticky
  import LongDivision

  const ZEROINFNAN: int := 971
  /** Exact quantities are integers in units of 2^-2548. */
  const UNIT: int := 2548
  const SLACK: nat := 400

  /** m * 2^e in those units. */
  function Units(m: nat, e: int): nat
    requires e >= -UNIT
  {
    m * Pow2(e + UNIT)
  }

  /** The exact x * y + z in units of 2^-2148. */
  function Exact(x: u64, y: u64, z: u64): int
    requires Finite(x) && Finite(y) && Finite(z)
  {
    Val(x) * Val(y) + Val(z) * Pow2(UNIT_EXPONENT)
  }

  // ----- normalize

  datatype Num = Num(m: u64, e: int, sign: bool)

  /** n is the nonzero finite double x as m * 2^e with a 54-bit even m. */
  ghost predicate Decodes(x: u64, n: Num)
  {
    && Finite(x) && Abs(x) != 0 && n.sign == Negative(x)
    && n.m % 2 == 0 && 2 * HIDDEN <= n.m < 4 * HIDDEN && -1127 <= n.e < 971
    && Mag(x) * Pow2(60) == n.m * Pow2(n.e + 1134)
  }

  lemma NormalDecodes(x: u64, u: nat, e: int)
    requires Finite(x) && Abs(x) != 0 && LongDivision.Normal(x, u, e)
    ensures Decodes(x, Num(2 * u, e - 1076, Negative(x)))
  {
    hide Pow2, Mag, Abs, Negative;
    PowDoubles(e + 58);
    HalfUnits(u, Pow2(e + 58));
    assert (2 * u) * Pow2(e - 1076 + 1134) == u * Pow2(e + 59);
  }

  lemma HalfUnits(u: nat, p: nat)
    ensures 2 * u * p == u * (2 * p)
  {
  }

  /** A subnormal times 2^63: its fraction and the exponent the multiplication gives it. */
  lemma SubnormalTimes(x: u64)
    requires Finite(x) && ExpField(x) == 0 && Abs(x) != 0
    ensures 12 <= ExpField(FMul(x, PowDouble(63)))
    ensures LongDivision.Normal(x, HIDDEN + FracField(FMul(x, PowDouble(63))), ExpField(FMul(x, PowDouble(63))) - 63)
  {
    hide *;
    SubnormalMag(x);
    HiddenIs();
    TwoTo54();
    var m, l: int := Mag(x), BitLen(Mag(x));
    BitLenAtMost(m, 52);
    BitLenBounds(m);
    ShiftUp(m, l);
    var s: nat := m * Pow2(53 - l);
    TimesPower(x, m, l, s);
    TimesFields(Negative(x), l + 10, s);
    ScaledPow2(m, 53 - l, l + 7);
    IsNormal(x, s, l - 52);
  }

  lemma SubnormalMag(x: u64)
    requires Finite(x) && ExpField(x) == 0 && Abs(x) != 0
    ensures 0 < Mag(x) < HIDDEN
  {
    FieldsOf(x);
  }

  lemma TimesFields(neg: bool, e: nat, s: nat)
    requires e < 100 && HIDDEN <= s < 2 * HIDDEN
    ensures 0 <= e * HIDDEN + s < SIGN_BIT
    ensures var b := WithSign(neg, e * HIDDEN + s); ExpField(b) == e + 1 && FracField(b) == s - HIDDEN
  {
    Fields(WithSign(neg, e * HIDDEN + s), neg, e + 1, s - HIDDEN);
  }

  lemma IsNormal(b: u64, u: nat, e: int)
    requires Finite(b) && HIDDEN <= u < 2 * HIDDEN && -51 <= e < 2047 && Mag(b) * Pow2(60) == u * Pow2(e + 59)
    ensures LongDivision.Normal(b, u, e)
  {
  }

  lemma TimesPower(x: u64, m: nat, l: nat, s: nat)
    requires Finite(x) && m == Mag(x) && 0 < l <= 52 && s == m * Pow2(53 - l) && HIDDEN <= s < 2 * HIDDEN
    ensures FMul(x, PowDouble(63)) == WithSign(Negative(x), (l + 10) * HIDDEN + s)
  {
    hide Pow2, Mag, BitLen, RoundMag, MagBits, Representable;
    ScaledPow2(m, 53 - l, l + 10);
    RepresentableShifted(s, l + 10);
    MagBitsShifted(s, l + 10);
    PowDoubleMag(63);
    ScaledPow2(m, 63, 1074);
    RoundExact(m * Pow2(63), 1074);
  }

  lemma ShiftUp(m: nat, l: nat)
    requires m > 0 && l == BitLen(m) <= 53
    ensures HIDDEN <= m * Pow2(53 - l) < 2 * HIDDEN
  {
    BitLenBounds(m);
    TwoTo54();
    Pow2Add(l - 1, 53 - l);
    Pow2Add(l, 53 - l);
    MulMono(Pow2(l - 1), m, Pow2(53 - l));
    MulStrict(m, Pow2(l), Pow2(53 - l));
  }

  lemma ZeroTimes(x: u64)
    requires Abs(x) == 0
    ensures Finite(x) && ExpField(x) == 0 && ExpField(FMul(x, PowDouble(63))) == 0
  {
    FieldsOf(x);
    assert Finite(x) && ExpField(x) == 0 && Mag(x) == 0 && MagBits(0) == 0;
    hide Mag, MagBits, RoundMag, Pow2;
    PowDoubleMag(63);
    RoundsToZero(0, UNIT_EXPONENT);
    Fields(WithSign(Negative(x), 0), Negative(x), 0, 0);
  }

  method Normalize(x: u64) returns (n: Num)
    ensures Finite(x) && Abs(x) != 0 ==> Decodes(x, n)
    ensures Abs(x) == 0 ==> n.e > ZEROINFNAN
    ensures !Finite(x) ==> n.e == ZEROINFNAN
  {
    hide FMul, LongDivision.Normal, Decodes, Mag, Or, And;
    var ix: u64, e: int := x, ExpField(x);
    FieldsOf(x);
    if e == 0 {
      if Abs(x) == 0 { ZeroTimes(x); } else { SubnormalTimes(x); }
      ix := FMul(x, PowDouble(63));
      e := ExpField(ix);
      e := if e != 0 then e - 63 else 0x800;
    } else if Finite(x) {
      LongDivision.NormalOfNormal(x);
    }
    LongDivision.HiddenBit(ix);
    if Finite(x) && Abs(x) != 0 { NormalDecodes(x, HIDDEN + FracField(ix), e); }
    var m := Or(And(ix, 0xf_ffff_ffff_ffff), HIDDEN);
    LongDivision.ShlOne(m);
    n := Num(Shl64(m, 1), e - 1076, Negative(x));
  }

  // ----- the exact terms

  lemma DecodedMag(x: u64, n: Num)
    requires Decodes(x, n)
    ensures Finite(x) && Mag(x) > 0 && Mag(x) * Pow2(60) == n.m * Pow2(n.e + 1134) && n.e >= -1127
  {
    hide Mag;
    PositiveMag(x);
  }

  lemma UnitsAre(m: nat, e: int)
    requires e >= -UNIT
    ensures Units(m, e) == m * Pow2(e + UNIT)
  {
  }

  lemma ExactProduct(x: u64, y: u64, a: Num, b: Num, p: nat)
    requires Decodes(x, a) && Decodes(y, b) && p == a.m * b.m
    ensures Mag(x) * Mag(y) * Pow2(SLACK) == Units(p, a.e + b.e)
    ensures Mag(x) > 0 && Mag(y) > 0
  {
    hide *;
    DecodedMag(x, a);
    DecodedMag(y, b);
    UnitIs();
    UnitsAre(p, a.e + b.e);
    ProductScale(a.e, b.e);
    ProductUnits(Mag(x), Mag(y), Pow2(60), a.m, Pow2(a.e + 1134), b.m, Pow2(b.e + 1134), Pow2(280));
  }

  lemma ProductScale(a: int, b: int)
    requires a >= -1127 && b >= -1127
    ensures Pow2(SLACK) == Pow2(60) * Pow2(60) * Pow2(280)
    ensures Pow2(a + b + UNIT) == Pow2(a + 1134) * Pow2(b + 1134) * Pow2(280)
  {
    hide Pow2;
    Pow2Add(60, 60);
    Pow2Add(120, 280);
    Pow2Add(a + 1134, b + 1134);
    Pow2Add(a + b + 2268, 280);
  }

  lemma ProductUnits(x: nat, y: nat, c: nat, m: nat, p: nat, n: nat, q: nat, t: nat)
    requires x * c == m * p && y * c == n * q
    ensures x * y * (c * c * t) == m * n * (p * q * t)
  {
    calc {
      x * y * (c * c * t);
      (x * c) * (y * c) * t;
      (m * p) * (n * q) * t;
      m * n * (p * q * t);
    }
  }

  lemma ExactAddend(z: u64, n: Num)
    requires Decodes(z, n)
    ensures Mag(z) * Pow2(UNIT_EXPONENT) * Pow2(SLACK) == Units(n.m, n.e)
    ensures Mag(z) > 0
  {
    hide *;
    DecodedMag(z, n);
    UnitIs();
    UnitsAre(n.m, n.e);
    ScaledPow2(Mag(z), 1074, 400);
    AddendUnits(Mag(z), n.m, n.e);
  }

  lemma AddendUnits(z: nat, m: nat, e: int)
    requires e >= -1127 && z * Pow2(60) == m * Pow2(e + 1134)
    ensures z * Pow2(1474) == m * Pow2(e + UNIT)
  {
    hide Pow2;
    ScaledPow2(z, 60, 1414);
    ScaledPow2(m, e + 1134, 1414);
  }

  // ----- alignment

  /** The two words of a 128-bit number. */
  function Wide(hi: nat, lo: nat): nat { hi * W64 + lo }

  /** r and z stand for the exact terms a and b at unit d, and the product is exact and even. */
  ghost predicate ProductExact(r: nat, z: nat, a: nat, b: nat, d: nat)
  {
    && a == r * d && r % 2 == 0 && OddRound(z, b, d)
    && Pow2(106) <= r < Pow2(108) && z < Pow2(117) && (b == z * d || z < Pow2(54))
  }

  /** The addend is exact and even, and at least 2^117. */
  ghost predicate AddendExact(r: nat, z: nat, a: nat, b: nat, d: nat)
  {
    b == z * d && z % 2 == 0 && OddRound(r, a, d) && Pow2(117) <= z < Pow2(118) && r < Pow2(108)
  }

  /** The product is so small beside the addend that a single bit stands for it. */
  ghost predicate ProductBit(r: nat, z: nat, a: nat, b: nat, d: nat)
  {
    r == 1 && 0 < a < Pow2(44) * d && b == z * d && z % Pow2(65) == 0 && Pow2(117) <= z < Pow2(118)
  }

  ghost predicate Aligned(r: nat, z: nat, a: nat, b: nat, d: nat)
  {
    ProductExact(r, z, a, b, d) || AddendExact(r, z, a, b, d) || ProductBit(r, z, a, b, d)
  }

  /** The exponents from one unit to another. */
  lemma UnitsShift(m: nat, e: int, k: nat)
    requires e >= -UNIT
    ensures Units(m, e + k) == Units(m * Pow2(k), e)
    ensures Units(m, e + k) == m * Pow2(k) * Pow2(e + UNIT)
  {
    ScaledPow2(m, k, e + UNIT);
  }

  /** A 54-bit even number shifted left by less than 64 places, across two words. */
  lemma SplitShift(m: nat, d: nat)
    requires m < 4 * HIDDEN && 0 < d < 64
    ensures Wide(Shr(m, 64 - d), Shl64(m, d)) == m * Pow2(d) && m * Pow2(d) < Pow2(117)
    ensures Shr(m, 64 - d) < 0x1_0000_0000_0000_0000
  {
    TwoTo64();
    TwoTo54();
    var p, g := Pow2(d), Pow2(64 - d);
    Pow2Add(64 - d, d);
    DivModScale(m, g, p);
    DivModSpec(m * p, W64);
    DivNat(m, g);
    Pow2Mono(d, 63);
    Pow2Add(54, 63);
    MulStrict(m, Pow2(54), p);
    MulMono(p, Pow2(63), Pow2(54));
  }

  /** A 128-bit number shifted right by less than 64 places, the lost bits made sticky. */
  lemma WideOddShift(hi: u64, lo: u64, d: nat)
    requires 0 < d < 64
    ensures Wide(Shr(hi, d), Or(Or(Shl64(hi, 64 - d), Shr(lo, d)), Flag(Shl64(lo, 64 - d) != 0)))
            == OddShift(Wide(hi, lo), d)
    ensures Shr(hi, d) < 0x1_0000_0000_0000_0000
    ensures Or(Or(Shl64(hi, 64 - d), Shr(lo, d)), Flag(Shl64(lo, 64 - d) != 0)) < 0x1_0000_0000_0000_0000
  {
    hide *;
    WideShift(hi, lo, d);
    ShiftedOut(lo, d);
    OrFlag(Shl64(hi, 64 - d) + Shr(lo, d), Shl64(lo, 64 - d) != 0);
    OddShiftValue(Wide(hi, lo), d);
    WideEven(Shr(hi, d), Shl64(hi, 64 - d) + Shr(lo, d));
  }

  lemma WideEven(hi: nat, lo: nat)
    requires lo < 0x1_0000_0000_0000_0000
    ensures Wide(hi, lo) % 2 == lo % 2 && Wide(hi, lo + 1) == Wide(hi, lo) + 1
    ensures lo % 2 == 0 ==> lo + 1 < 0x1_0000_0000_0000_0000
  {
    ModAddMultiple(lo, hi * 0x8000_0000_0000_0000, 2);
  }

  lemma WideShift(hi: u64, lo: u64, d: nat)
    requires 0 < d < 64
    ensures Or(Shl64(hi, 64 - d), Shr(lo, d)) == Shl64(hi, 64 - d) + Shr(lo, d) < 0x1_0000_0000_0000_0000
    ensures Shr(Wide(hi, lo), d) == Wide(Shr(hi, d), Shl64(hi, 64 - d) + Shr(lo, d))
    ensures Low(Wide(hi, lo), d) == Low(lo, d) && Shr(hi, d) < 0x1_0000_0000_0000_0000
  {
    var p, g := Pow2(d), Pow2(64 - d);
    TwoTo64();
    Pow2Add(64 - d, d);
    WideParts(hi, lo, p, g);
    DivNat(hi, p);
    OrDisjoint(Shl64(hi, 64 - d), Shr(lo, d), 64 - d);
  }

  /** The quotient and remainder of a two-word number by p, word by word; g * p is the word size. */
  lemma WideParts(hi: u64, lo: u64, p: nat, g: nat)
    requires p > 1 && g > 1 && g * p == W64
    ensures (hi * g) % W64 == (hi % p) * g && (hi % p) * g % g == 0
    ensures 0 <= lo / p < g && 0 <= (hi % p) * g && (hi % p) * g + lo / p < W64
    ensures (hi * W64 + lo) / p == hi / p * W64 + (hi % p) * g + lo / p
    ensures (hi * W64 + lo) % p == lo % p
    ensures (lo * g) % W64 != 0 <==> lo % p != 0
  {
    DivModScale(hi, p, g);
    DivModScale(lo, p, g);
    assert p * g == W64;
    DivMulCancel(hi % p, g);
    MulMono(0, hi % p, g);
    MulMono(hi % p, p - 1, g);
    assert (p - 1) * g == W64 - g;
    DivRange(lo, p, 0, g);
    DivModSpec(hi * g, W64);
    ModAddMultiple(lo, hi * g, p);
    assert hi * g * p == hi * W64;
    MulCancel(lo % p, 0, g);
  }

  /** Lines 77-109: bringing the addend or the product to a common exponent. */
  method Align(phi: u64, plo: u64, m: u64, e0: int, ez: int)
      returns (rhi: u64, rlo: u64, zhi: u64, zlo: u64, e: int)
    requires Pow2(106) <= Wide(phi, plo) < Pow2(108) && Wide(phi, plo) % 4 == 0
    requires 2 * HIDDEN <= m < 4 * HIDDEN && m % 2 == 0
    requires -2254 <= e0 && -1127 <= ez
    ensures e >= -2254
    ensures Aligned(Wide(rhi, rlo), Wide(zhi, zlo), Units(Wide(phi, plo), e0), Units(m, ez), Pow2(e + UNIT))
  {
    hide *;
    rhi, rlo, e := phi, plo, e0;
    ghost var p := Wide(phi, plo);
    var d := ez - e;
    if d > 0 {
      if d < 64 {
        SplitShift(m, d);
        AddendUp(p, m, e0, d);
        zlo := Shl64(m, d);
        zhi := Shr(m, 64 - d);
      } else {
        zlo, zhi := 0, m;
        e := ez - 64;
        d := d - 64;
        HighWord(m);
        if d == 0 {
          ProductDown(p, m, e0, ez, 0);
        } else if d < 64 {
          ProductDown(p, m, e0, ez, d);
          WideOddShift(rhi, rlo, d);
          rlo := Or(Or(Shl64(rhi, 64 - d), Shr(rlo, d)), Flag(Shl64(rlo, 64 - d) != 0));
          rhi := Shr(rhi, d);
        } else {
          ProductFar(p, m, e0, ez, d);
          rlo, rhi := 1, 0;
        }
      }
    } else {
      zhi := 0;
      d := -d;
      if d == 0 {
        zlo := m;
      } else if d < 64 {
        WordOddShift(m, d);
        zlo := Or(Shr(m, d), Flag(Shl64(m, 64 - d) != 0));
      } else {
        zlo := 1;
      }
      AddendDown(p, m, ez, d);
      ShiftedAddendCases(m, d);
      LowWord(zlo);
    }
  }

  lemma HighWord(m: nat)
    ensures Wide(m, 0) == m * Pow2(64)
    ensures Wide(0, 1) == 1
  {
    TwoTo64();
  }

  lemma LowWord(w: nat)
    ensures Wide(0, w) == w
  {
  }

  lemma OddRoundExact(s: nat, d: nat)
    ensures OddRound(s, s * d, d)
  {
  }

  /** The addend has the larger exponent by less than 64: it is shifted left, exactly. */
  lemma AddendUp(p: nat, m: nat, e0: int, d: nat)
    requires Pow2(106) <= p < Pow2(108) && p % 4 == 0 && m < 4 * HIDDEN && 0 < d < 64 && e0 >= -2254
    requires m * Pow2(d) < Pow2(117)
    ensures Aligned(p, m * Pow2(d), Units(p, e0), Units(m, e0 + d), Pow2(e0 + UNIT))
  {
    hide Pow2, OddRound, AddendExact, ProductBit;
    UnitsShift(m, e0, d);
    OddRoundExact(m * Pow2(d), Pow2(e0 + UNIT));
  }

  lemma AddendSize(m: nat)
    requires 2 * HIDDEN <= m < 4 * HIDDEN && m % 2 == 0
    ensures Pow2(117) <= m * Pow2(64) < Pow2(118) && (m * Pow2(64)) % Pow2(65) == 0 && (m * Pow2(64)) % 2 == 0
  {
    TwoTo54();
    Pow2Add(53, 64);
    Pow2Add(54, 64);
    MulMono(Pow2(53), m, Pow2(64));
    MulStrict(m, Pow2(54), Pow2(64));
    assert m * Pow2(64) == (m / 2) * Pow2(65);
    DivMulCancel(m / 2, Pow2(65));
    assert m * Pow2(64) == 2 * ((m / 2) * Pow2(64));
  }

  /** The addend fills the high word; the product is shifted right by less than 64. */
  lemma ProductDown(p: nat, m: nat, e0: int, ez: int, d: nat)
    requires Pow2(106) <= p < Pow2(108) && 2 * HIDDEN <= m < 4 * HIDDEN && m % 2 == 0
    requires d < 64 && ez - e0 == d + 64 && e0 >= -2254
    ensures Aligned(OddShift(p, d), m * Pow2(64), Units(p, e0), Units(m, ez), Pow2(ez - 64 + UNIT))
    ensures d == 0 ==> OddShift(p, d) == p
  {
    hide Pow2, OddRound, ProductExact, ProductBit, OddShift;
    AddendSize(m);
    OddShiftExact(p, d);
    OddRoundScale(OddShift(p, d), p, Pow2(d), Pow2(e0 + UNIT));
    Pow2Add(d, e0 + UNIT);
    UnitsShift(m, ez - 64, 64);
    Pow2Mono(1, 106);
    TwoTo12();
    OddShiftSmaller(p, d);
  }

  lemma OddShiftSmaller(p: nat, d: nat)
    requires p >= 2
    ensures OddShift(p, d) <= p
    ensures d == 0 ==> OddShift(p, d) == p
  {
    OddShiftValue(p, d);
    if d > 0 {
      assert Pow2(d) == 2 * Pow2(d - 1);
      MulMono(2, Pow2(d), Shr(p, d));
    }
  }

  /** The product is so far below the addend that one bit stands for it. */
  lemma ProductFar(p: nat, m: nat, e0: int, ez: int, d: nat)
    requires 0 < p < Pow2(108) && 2 * HIDDEN <= m < 4 * HIDDEN && m % 2 == 0
    requires d >= 64 && ez - 64 - e0 == d && e0 >= -2254
    ensures Aligned(1, m * Pow2(64), Units(p, e0), Units(m, ez), Pow2(ez - 64 + UNIT))
  {
    hide Pow2, OddRound, ProductExact, AddendExact;
    AddendSize(m);
    UnitsShift(m, ez - 64, 64);
    var t := Pow2(e0 + UNIT);
    Pow2Add(d, e0 + UNIT);
    Pow2Add(44, 64);
    Pow2Mono(64, d);
    FarBelow(p, Pow2(44), Pow2(64), Pow2(d), t);
  }

  lemma FarBelow(p: nat, a: nat, b: nat, c: nat, t: nat)
    requires 0 < p < a * b && 0 < b <= c && t > 0
    ensures 0 < p * t < a * (c * t)
  {
    MulMono(1, p, t);
    MulStrict(p, a * b, t);
    MulMono(b, c, a);
    assert a * b == b * a && a * c == c * a;
    MulMono(a * b, a * c, t);
    assert a * c * t == a * (c * t);
  }

  lemma WordOddShift(m: u64, d: nat)
    requires 0 < d < 64
    ensures Or(Shr(m, d), Flag(Shl64(m, 64 - d) != 0)) == OddShift(m, d)
    ensures OddShift(m, d) < 0x1_0000_0000_0000_0000
  {
    ShiftedOut(m, d);
    hide Pow2, Shl64, Shr, Low, Or;
    if m >= 2 { OddShiftSmaller(m, d); } else { OddShiftWord(m, d); }
  }

  /** `x<<64-d` is nonzero exactly when `x>>d` loses a bit. */
  lemma ShiftedOut(m: u64, d: nat)
    requires 0 < d < 64
    ensures Shl64(m, 64 - d) != 0 <==> Low(m, d) != 0
  {
    TwoTo64();
    Pow2Add(d, 64 - d);
    OutBits(m, Pow2(d), Pow2(64 - d));
  }

  lemma OutBits(m: nat, p: nat, g: nat)
    requires p > 0 && g > 0 && p * g == W64
    ensures (m * g) % W64 != 0 <==> m % p != 0
  {
    DivModScale(m, p, g);
    var r := m % p;
    MulCancel(r, 0, g);
  }

  lemma OddShiftWord(m: nat, d: nat)
    requires m < 2
    ensures OddShift(m, d) <= 2
  {
    OddShiftValue(m, d);
    DivNat(m, Pow2(d));
  }

  /** What stands for an addend shifted right by d places. */
  function ShiftedAddend(m: nat, d: nat): nat
  {
    if d == 0 then m else if d < 64 then OddShift(m, d) else 1
  }

  lemma ShiftedAddendCases(m: nat, d: nat)
    ensures ShiftedAddend(m, d) == if d == 0 then m else if d < 64 then OddShift(m, d) else 1
  {
  }

  /** The product has the larger exponent: the addend is shifted right. */
  lemma AddendDown(p: nat, m: nat, ez: int, d: nat)
    requires Pow2(106) <= p < Pow2(108) && p % 4 == 0 && 2 * HIDDEN <= m < 4 * HIDDEN && ez >= -1127
    ensures Aligned(p, ShiftedAddend(m, d), Units(p, ez + d), Units(m, ez), Pow2(ez + d + UNIT))
  {
    hide Pow2, OddRound, AddendExact, ProductBit, OddShift;
    var t := Pow2(ez + UNIT);
    Pow2Add(d, ez + UNIT);
    TwoTo54();
    Pow2Mono(54, 117);
    if d == 0 {
      TwoTo12();
      OddRoundExact(m, t);
    } else if d < 64 {
      OddShiftExact(m, d);
      OddRoundScale(OddShift(m, d), m, Pow2(d), t);
      OddShiftSmaller(m, d);
    } else {
      TwoTo64();
      Pow2Mono(64, d);
      Pow2Mono(0, 54);
      TwoTo12();
      SingleBit(m, Pow2(d), t);
    }
  }

  lemma SingleBit(m: nat, c: nat, t: nat)
    requires 0 < m < c && t > 0
    ensures OddRound(1, m * t, c * t)
  {
    MulMono(1, m, t);
    MulStrict(m, c, t);
    assert (1 - 1) * (c * t) == 0 && (1 + 1) * (c * t) == 2 * (c * t);
  }

  // ----- addition

  /** Lines 111-130: the sum, or the absolute difference and which operand was the larger. */
  method Combine(rh: u64, rl: u64, zh: u64, zl: u64, same: bool) returns (rhi: u64, rlo: u64, flipped: bool)
    requires Wide(rh, rl) < Pow2(127) && Wide(zh, zl) < Pow2(127)
    ensures same ==> !flipped && Wide(rhi, rlo) == Wide(rh, rl) + Wide(zh, zl)
    ensures !same ==> Wide(rhi, rlo) == Dist(Wide(rh, rl), Wide(zh, zl))
    ensures !same ==> (flipped <==> Wide(rh, rl) < Wide(zh, zl))
  {
    WordBound(rh, rl);
    WordBound(zh, zl);
    hide *;
    flipped := false;
    if same {
      WideAdd(rh, rl, zh, zl);
      rlo := Add64(rl, zl);
      rhi := rh + zh + Flag(rlo < zl);
    } else {
      rlo := Sub64(rl, zl);
      rhi := Sub64(rh, zh + Flag(rl < rlo));
      LongDivision.TopBitSet(rhi);
      WideDifference(rh, rl, zh, zl, rhi, rlo);
      if Shr(rhi, 63) != 0 {
        rlo := Sub64(0, rlo);
        rhi := Sub64(0, rhi + Flag(rlo != 0));
        flipped := true;
      }
    }
  }

  /** The two-word difference, and its negation when it came out negative. */
  lemma WideDifference(rh: u64, rl: u64, zh: u64, zl: u64, hi: u64, lo: u64)
    requires rh < SIGN_BIT && zh < SIGN_BIT && lo == Sub64(rl, zl) && hi == Sub64(rh, zh + Flag(rl < lo))
    ensures hi < SIGN_BIT <==> Wide(rh, rl) >= Wide(zh, zl)
    ensures hi < SIGN_BIT ==> Wide(hi, lo) == Dist(Wide(rh, rl), Wide(zh, zl))
    ensures hi >= SIGN_BIT ==>
              Wide(Sub64(0, hi + Flag(Sub64(0, lo) != 0)), Sub64(0, lo)) == Dist(Wide(rh, rl), Wide(zh, zl))
  {
    hide *;
    WideSub(rh, rl, zh, zl);
    DistIs(Wide(rh, rl), Wide(zh, zl));
    if hi >= SIGN_BIT { WideNegate(hi, lo); }
  }

  lemma DistIs(a: int, b: int)
    ensures Dist(a, b) == if a < b then b - a else a - b
  {
  }

  lemma WordBound(hi: u64, lo: u64)
    requires Wide(hi, lo) < Pow2(127)
    ensures hi < SIGN_BIT
  {
    TwoTo64();
    Pow2Add(63, 64);
  }

  lemma WideAdd(rh: u64, rl: u64, zh: u64, zl: u64)
    requires rh < SIGN_BIT && zh < SIGN_BIT
    ensures rh + zh + Flag(Add64(rl, zl) < zl) < 0x1_0000_0000_0000_0000
    ensures Wide(rh + zh + Flag(Add64(rl, zl) < zl), Add64(rl, zl)) == Wide(rh, rl) + Wide(zh, zl)
  {
    if rl + zl < W64 { DivModUnique(rl + zl, W64, 0, rl + zl); } else { DivModUnique(rl + zl, W64, 1, rl + zl - W64); }
  }

  /** The two-word difference in two's complement, and its sign. */
  lemma WideSub(rh: u64, rl: u64, zh: u64, zl: u64)
    requires rh < SIGN_BIT && zh < SIGN_BIT
    ensures var lo := Sub64(rl, zl); var hi := Sub64(rh, zh + Flag(rl < lo));
      && (hi < SIGN_BIT <==> Wide(rh, rl) >= Wide(zh, zl))
      && Wide(hi, lo) == Wide(rh, rl) - Wide(zh, zl) + (if hi < SIGN_BIT then 0 else W64 * W64)
  {
    var b := if rl < zl then 1 else 0;
    DivModUnique(rl - zl, W64, -b, rl - zl + b * W64);
    var t := rh - zh - b;
    var c := if t < 0 then 1 else 0;
    DivModUnique(t, W64, -c, t + c * W64);
  }

  lemma WideNegate(hi: u64, lo: u64)
    requires hi >= SIGN_BIT
    ensures Wide(Sub64(0, hi + Flag(Sub64(0, lo) != 0)), Sub64(0, lo)) == W64 * W64 - Wide(hi, lo)
  {
    if lo == 0 { DivModUnique(0, W64, 0, 0); } else { DivModUnique(0 - lo, W64, -1, W64 - lo); }
    var t := hi + (if lo == 0 then 0 else 1);
    if t < W64 { DivModUnique(-t, W64, -1, W64 - t); } else { DivModUnique(-t, W64, -1, 0); }
  }

  /** What the exact sum or difference is. */
  function ExactSum(a: nat, b: nat, same: bool): nat { if same then a + b else Dist(a, b) }

  /** Adding an exact even number to an odd-rounded one is rounding the sum to odd. */
  lemma SumOdd(x: nat, y: nat, b: nat, d: nat)
    requires d > 0 && x % 2 == 0 && OddRound(y, b, d)
    ensures OddRound(x + y, x * d + b, d)
    ensures x > y ==> x * d > b && OddRound(x - y, x * d - b, d)
  {
    assert (x + y) * d == x * d + y * d && (x - y) * d == x * d - y * d;
    assert (x + y - 1) * d == x * d + (y - 1) * d && (x + y + 1) * d == x * d + (y + 1) * d;
    assert (x - y - 1) * d == x * d - (y + 1) * d && (x - y + 1) * d == x * d - (y - 1) * d;
    if x > y {
      MulMono(y + 1, x, d);
      MulStrict(y, x, d);
    }
  }

  /** An odd-rounded number of at least 63 bits can be shifted on. */
  lemma OddStanding(s: nat, a: nat, d: nat)
    requires OddRound(s, a, d) && s >= Pow2(62) && d > 0
    ensures exists q, k :: Standing(s, a, d, q, k)
  {
    if a == s * d {
      assert Standing(s, a, d, 0, 0);
    } else {
      var q := s / 2;
      assert Pow2(1) == 2 && s == 2 * q + 1;
      assert q * 2 * d == (s - 1) * d && (q + 1) * 2 * d == (s + 1) * d;
      assert SameCell(s, a, d, q, Pow2(1));
      assert Standing(s, a, d, q, 1);
    }
  }

  /** The computed sum s stands for the exact sum t at unit d; a sum below 2^64 is exact. */
  ghost predicate SumStands(s: nat, t: nat, d: nat)
  {
    && (exists q, k :: Standing(s, t, d, q, k))
    && s < Pow2(126) && (s < Pow2(64) ==> t == s * d)
  }

  lemma ExactSumScale(r: nat, z: nat, d: nat, same: bool)
    requires d > 0
    ensures ExactSum(r * d, z * d, same) == ExactSum(r, z, same) * d
    ensures r < z <==> r * d < z * d
  {
    MulCancel(r, z, d);
    MulCancel(z, r, d);
    assert (r + z) * d == r * d + z * d && (r - z) * d == r * d - z * d && (z - r) * d == z * d - r * d;
  }

  lemma ExactStands(r: nat, z: nat, d: nat, same: bool)
    requires d > 0 && r + z < Pow2(126)
    ensures SumStands(ExactSum(r, z, same), ExactSum(r * d, z * d, same), d)
  {
    hide Pow2;
    ExactSumScale(r, z, d, same);
    var s := ExactSum(r, z, same);
    assert s <= r + z;
    assert Standing(s, ExactSum(r * d, z * d, same), d, 0, 0);
  }

  /** One term exact, even and much larger than the other, which is odd-rounded. */
  lemma LargeExactStands(x: nat, y: nat, b: nat, d: nat, same: bool)
    requires d > 0 && x % 2 == 0 && OddRound(y, b, d) && y + Pow2(64) <= x && x + y < Pow2(126)
    ensures SumStands(ExactSum(x, y, same), ExactSum(x * d, b, same), d) && x * d > b
  {
    hide Pow2, OddRound, Standing;
    SumOdd(x, y, b, d);
    Pow2Mono(62, 64);
    Pow2Mono(0, 64);
    OddStanding(x + y, x * d + b, d);
    OddStanding(x - y, x * d - b, d);
  }

  /** A single bit beside a multiple of 2^65: the sum lies in the same cell of size 2^55 as the exact one. */
  lemma BitStands(z: nat, a: nat, d: nat, same: bool)
    requires d > 0 && 0 < a < Pow2(44) * d && z % Pow2(65) == 0 && Pow2(117) <= z < Pow2(118)
    ensures SumStands(ExactSum(1, z, same), ExactSum(a, z * d, same), d) && a < z * d
  {
    hide Pow2;
    Pow2Add(10, 55);
    Pow2Mono(44, 55);
    FinerGrid(z, Pow2(10), Pow2(55));
    DivModSpec(z, Pow2(55));
    DivNat(z, Pow2(55));
    Pow2Mono(55, 117);
    Pow2Mono(64, 116);
    Pow2Mono(118, 126);
    PowDoubles(116);
    PowDoubles(117);
    PowDoubles(44);
    TwoTo12();
    Pow2Mono(0, 44);
    Pow2Mono(0, 116);
    Pow2Mono(45, 55);
    BitCell(z, a, d, z / Pow2(55), Pow2(55), Pow2(44), same);
    var k, q: nat := 55, if same then z / Pow2(55) else z / Pow2(55) - 1;
    assert Standing(ExactSum(1, z, same), ExactSum(a, z * d, same), d, q, k);
  }

  lemma BitCell(z: nat, a: nat, d: nat, q: nat, g: nat, c: nat, same: bool)
    requires d > 0 && 0 < a < c * d && z == q * g && 2 <= c <= g && q > 0
    ensures a < z * d
    ensures SameCell(ExactSum(1, z, same), ExactSum(a, z * d, same), d, if same then q else q - 1, g)
  {
    hide *;
    MulMono(c, g, d);
    MulMono(1, q, g);
    MulMono(g, z, d);
    MulDistributes(q, 1, g);
    MulDistributes(z, g, d);
    SumIs(1, z, same);
    SumIs(a, z * d, same);
    DistIs(1, z);
    DistIs(a, z * d);
    IsCell(ExactSum(1, z, same), ExactSum(a, z * d, same), d, if same then q else q - 1, g);
  }

  lemma IsCell(s: nat, a: nat, d: nat, q: nat, g: nat)
    requires q * g < s < (q + 1) * g && q * g * d < a < (q + 1) * g * d
    ensures SameCell(s, a, d, q, g)
  {
  }

  /** The main fact about alignment and addition. */
  lemma AlignedSum(r: nat, z: nat, a: nat, b: nat, d: nat, same: bool)
    requires d > 0 && Aligned(r, z, a, b, d)
    ensures SumStands(ExactSum(r, z, same), ExactSum(a, b, same), d)
    ensures r < Pow2(125) && z < Pow2(125)
    ensures r < z <==> a < b
  {
    hide Pow2, OddRound, SumStands, ExactSum;
    Pow2Mono(108, 118);
    Pow2Mono(117, 118);
    Pow2Mono(118, 125);
    Pow2Mono(54, 117);
    PowDoubles(125);
    if ProductExact(r, z, a, b, d) {
      if b == z * d {
        ExactStands(r, z, d, same);
        ExactSumScale(r, z, d, same);
      } else {
        PowersApart(54, 106);
        LargeExactStands(r, z, b, d, same);
      }
    } else if AddendExact(r, z, a, b, d) {
      if a == r * d {
        ExactStands(r, z, d, same);
        ExactSumScale(r, z, d, same);
      } else {
        PowersApart(108, 117);
        LargeExactStands(z, r, a, d, same);
        ExactSumSymmetric(r, z, same);
        ExactSumSymmetric(a, b, same);
      }
    } else {
      BitStands(z, a, d, same);
      Pow2Mono(0, 117);
      TwoTo12();
      PowDoubles(116);
      Pow2Mono(0, 116);
    }
  }

  lemma ExactSumSymmetric(a: nat, b: nat, same: bool)
    ensures ExactSum(a, b, same) == ExactSum(b, a, same)
  {
  }

  lemma PowersApart(l: nat, h: nat)
    requires l < h && h >= 66
    ensures Pow2(l) + Pow2(64) <= Pow2(h)
  {
    hide Pow2;
    Pow2Mono(l, h - 1);
    Pow2Mono(64, h - 1);
    PowDoubles(h - 1);
  }

  // ----- the top 63 bits

  lemma WideLength(hi: u64, lo: u64)
    requires hi > 0
    ensures BitLen(Wide(hi, lo)) == BitLen(hi) + 64
  {
    BitLenBounds(hi);
    TwoTo64();
    var l := BitLen(hi);
    Pow2Add(l - 1, 64);
    Pow2Add(l, 64);
    MulMono(Pow2(l - 1), hi, W64);
    MulMono(hi, Pow2(l) - 1, W64);
    assert (Pow2(l) - 1) * W64 == Pow2(l) * W64 - W64;
    BitLenUnique(Wide(hi, lo), l + 64);
  }

  /** `rhi<<d | rlo>>64-d | !!(rlo<<d)` */
  lemma TopWord(hi: u64, lo: u64, d: nat)
    requires 0 < d < 64 && hi < Pow2(63 - d)
    ensures Or(Or(Shl64(hi, d), Shr(lo, 64 - d)), Flag(Shl64(lo, d) != 0)) == OddShift(Wide(hi, lo), 64 - d)
  {
    WideOddShift(hi, lo, 64 - d);
    Pow2Mono(63 - d, 64 - d);
    LowSmall(hi, 64 - d);
    LowWord(Or(Or(Shl64(hi, d), Shr(lo, 64 - d)), Flag(Shl64(lo, d) != 0)));
  }

  /** i stands for the exact t at unit 2^(e - 2548), with 63 bits. */
  ghost predicate Top63(i: nat, t: nat, e: int)
  {
    e >= -UNIT && Pow2(62) <= i < Pow2(63) && OddRound(i, t, Pow2(e + UNIT))
  }

  /** The shift by j places of what stands for t. */
  lemma TopShift(s: nat, t: nat, e: int, j: nat)
    requires e >= -UNIT && SumStands(s, t, Pow2(e + UNIT)) && BitLen(s) == j + 63
    ensures Top63(OddShift(s, j), t, e + j)
  {
    hide Standing, OddShift, BitLen;
    var q, k :| Standing(s, t, Pow2(e + UNIT), q, k);
    StandingShift(s, t, Pow2(e + UNIT), q, k, j);
    OddShiftLength(s, j);
    Pow2Add(e + UNIT, j);
  }

  /** A short sum is exact and is shifted left. */
  lemma TopExact(s: nat, t: nat, e: int, d: nat)
    requires e >= -2254 && SumStands(s, t, Pow2(e + UNIT)) && 0 < s < Pow2(64) && BitLen(s) + d == 63
    ensures Top63(s * Pow2(d), t, e - d) && Shl64(s, d) == s * Pow2(d)
  {
    hide Standing, BitLen, Pow2;
    ScaledPow2(s, d, e - d + UNIT);
    BitLenScale(s, d);
    BitLenBounds(s * Pow2(d));
    TwoTo64();
    DivModUnique(s * Pow2(d), W64, 0, s * Pow2(d));
    OddRoundExact(s * Pow2(d), Pow2(e - d + UNIT));
  }

  /** `rhi = rhi<<d | rlo>>64-d | !!(rlo<<d)` */
  method TakeHigh(rhi: u64, rlo: u64, e0: int, ghost t: nat) returns (i: u64, d: int)
    requires 0 < rhi < SIGN_BIT / 2 && e0 >= -2254 && SumStands(Wide(rhi, rlo), t, Pow2(e0 + UNIT))
    ensures Top63(i, t, e0 + 64 - d)
  {
    hide *;
    ClzRange(rhi);
    UnitIs();
    d := Clz64(rhi);
    d := d - 1;
    WideLength(rhi, rlo);
    assert 63 - d == BitLen(rhi);
    TopWord(rhi, rlo, d);
    TopShift(Wide(rhi, rlo), t, e0, 64 - d);
    TopIsWord(OddShift(Wide(rhi, rlo), 64 - d), t, e0 + (64 - d));
    i := Or(Or(Shl64(rhi, d), Shr(rlo, 64 - d)), Flag(Shl64(rlo, d) != 0));
    assert e0 + (64 - d) == e0 + 64 - d;
  }

  /** The high word is empty: a shift to the left, or by one to the right. */
  method TakeLow(rlo: u64, e0: int, ghost t: nat) returns (i: u64, d: int)
    requires 0 < rlo && e0 >= -2254 && SumStands(rlo, t, Pow2(e0 + UNIT))
    ensures Top63(i, t, e0 - d)
  {
    ClzRangeLow(rlo);
    hide *;
    d := Clz64(rlo);
    d := d - 1;
    if d < 0 {
      TopShift(rlo, t, e0, 1);
      LowBit(rlo);
      TopIsWord(OddShift(rlo, 1), t, e0 + 1);
      i := Or(Shr(rlo, 1), And(rlo, 1));
      assert e0 + 1 == e0 - d;
    } else {
      TopExact(rlo, t, e0, d);
      i := Shl64(rlo, d);
    }
  }

  /** Lines 132-148: the result's top 63 bits with a sticky last bit. */
  method TakeTop(rhi: u64, rlo: u64, e0: int, ghost t: nat) returns (i: u64, e: int)
    requires Wide(rhi, rlo) > 0 && e0 >= -2254 && SumStands(Wide(rhi, rlo), t, Pow2(e0 + UNIT))
    ensures Top63(i, t, e)
  {
    SumBound(rhi, rlo, t, Pow2(e0 + UNIT));
    hide *;
    var d;
    e := e0;
    if rhi != 0 {
      i, d := TakeHigh(rhi, rlo, e, t);
      e := e + 64;
    } else {
      i, d := TakeLow(rlo, e, t);
    }
    e := e - d;
  }

  lemma SumBound(hi: u64, lo: u64, t: nat, d: nat)
    requires Wide(hi, lo) > 0 && SumStands(Wide(hi, lo), t, d)
    ensures hi < SIGN_BIT / 2 && (hi == 0 ==> lo > 0 && Wide(hi, lo) == lo)
  {
    TwoTo64();
    Pow2Add(62, 64);
  }

  lemma ClzRange(hi: u64)
    requires 0 < hi < SIGN_BIT / 2
    ensures 1 <= BitLen(hi) <= 62 && hi < Pow2(BitLen(hi))
  {
    BitLenBounds(hi);
    TwoTo64();
    BitLenAtMost(hi, 62);
  }

  lemma ClzRangeLow(lo: u64)
    requires 0 < lo
    ensures 1 <= BitLen(lo) <= 64 && lo < Pow2(64)
  {
    BitLenBounds(lo);
    TwoTo64();
    BitLenAtMost(lo, 64);
  }

  lemma TopIsWord(i: nat, t: nat, e: int)
    requires Top63(i, t, e)
    ensures i < 0x1_0000_0000_0000_0000
  {
    TwoTo64();
  }

  lemma LowBit(x: nat)
    ensures Or(Shr(x, 1), And(x, 1)) == OddShift(x, 1)
  {
    AndOne(x);
    assert Low(x, 1) == x % 2;
  }

  // ----- conversion to double

  /** `double r = i`, for an integer with sign. */
  function IntToDouble(neg: bool, i: nat): u64 { RoundBits(neg, i * Pow2(UNIT_EXPONENT), 0) }

  /** Converting 63 bits keeps 53 of them. */
  lemma IntRounds(neg: bool, i: nat)
    requires Pow2(62) <= i < Pow2(63)
    ensures HIDDEN <= Rne(i, 10) <= 2 * HIDDEN
    ensures IntToDouble(neg, i) == Exactly(neg, Rne(i, 10) * Pow2(UNITS_10))
  {
    hide Pow2, Rne, BitLen, MagBits;
    RneRange(i, 10);
    BitLenUnique(i, 63);
    Pow2Mono(0, 62);
    TwoTo12();
    BitLenScale(i, UNIT_EXPONENT);
    RneScale(i, 10, UNIT_EXPONENT);
  }

  /**
    The correctly rounded result in terms of the 63 bits: a 53-bit rounding when it is normal, a rounding
    to units of 2^-1074 when it is not.
   */
  lemma RoundedSum(n: nat, t: nat, i: nat, e: int)
    requires Top63(i, t, e) && t == n * Pow2(SLACK)
    ensures e >= -1084 ==> RoundMag(n, UNIT_EXPONENT) == Rne(i, 10) * Pow2(e + 1084)
    ensures e < -1084 ==> RoundMag(n, UNIT_EXPONENT) == Rne(i, -e - 1074)
  {
    OddLength(i, t, e + UNIT);
    hide Pow2, Rne, BitLen;
    LengthScale(n, SLACK);
    RoundedCases(n, t, i, e);
  }

  lemma LengthScale(n: nat, k: nat)
    ensures n > 0 ==> BitLen(n * Pow2(k)) == BitLen(n) + k
    ensures n == 0 ==> BitLen(n * Pow2(k)) == 0
  {
    if n > 0 { BitLenScale(n, k); }
  }

  lemma RoundedCases(n: nat, t: nat, i: nat, e: int)
    requires Top63(i, t, e) && t == n * Pow2(SLACK) && BitLen(t) == e + UNIT + 63
    requires n > 0 && BitLen(t) == BitLen(n) + SLACK
    ensures e >= -1084 ==> RoundMag(n, UNIT_EXPONENT) == Rne(i, 10) * Pow2(e + 1084)
    ensures e < -1084 ==> RoundMag(n, UNIT_EXPONENT) == Rne(i, -e - 1074)
  {
    hide Pow2, Rne, BitLen, OddRound;
    TwoTo12();
    if e >= -1084 {
      RneScale(n, e + 2158, SLACK);
      RneOdd(i, t, e + UNIT, 10);
      assert RoundUnit(n, UNIT_EXPONENT) == e + 2158;
    } else {
      RneScale(n, UNIT_EXPONENT, SLACK);
      RneOdd(i, t, e + UNIT, -e - 1074);
    }
  }

  /** A 53-bit number below the smallest unit is rounded to that unit. */
  lemma RoundSmall(c: nat, t: nat)
    requires c <= 2 * HIDDEN && t >= 1
    ensures RoundMag(c, t) == Rne(c, t)
  {
    hide Rne, Pow2, BitLen;
    TwoTo54();
    BitLenAtMost(c, 54);
    TwoTo12();
  }

  /** Conversion to float of a double below 2^-125: its magnitude is rounded to units of 2^-149. */
  function ToFloat(b: u64): u64
    requires Finite(b)
  {
    Exactly(Negative(b), Rne(Mag(b), 925) * Pow2(925))
  }

  /** 0x0.ffffff8p-63 * FLT_MIN, which is (2^25 - 1) * 2^-214. */
  function BelowFloatMin(): u64 { Exactly(false, 0x1ff_ffff * Pow2(860)) }

  /** A number of 25 bits in place k. */
  lemma Placed25(k: nat)
    requires 28 <= k <= 1000
    ensures Representable(0x1ff_ffff * Pow2(k)) && MagBits(0x1ff_ffff * Pow2(k)) < INFINITY
  {
    hide MagBits, Representable, Pow2;
    TwoTo21();
    PowDoubles(21); PowDoubles(22); PowDoubles(23); PowDoubles(24); PowDoubles(25); PowDoubles(26); PowDoubles(27);
    ScaledPow2(0x1ff_ffff, 28, k - 28);
    RepresentableShifted(0x1ff_ffff * 0x1000_0000, k - 28);
    MagBitsShifted(0x1ff_ffff * 0x1000_0000, k - 28);
  }

  /** The product that is then converted to float: (2^25 - 1) * 2^-151. */
  lemma FloatProduct(neg: bool)
    ensures Finite(BelowFloatMin()) && Finite(Exactly(neg, HIDDEN * Pow2(UNITS_11)))
    ensures FMul(BelowFloatMin(), Exactly(neg, HIDDEN * Pow2(UNITS_11))) == Exactly(neg, 0x1ff_ffff * Pow2(923))
  {
    hide MagBits, Representable, Pow2, FMul;
    Placed25(860);
    Placed25(923);
    RepresentableShifted(HIDDEN, 1085);
    MagBitsShifted(HIDDEN, 1085);
    TwoTo54();
    Pow2Add(52, 1085);
    ScaledPow2(0x1ff_ffff, 860, 1137);
    ScaledPow2(0x1ff_ffff, 923, UNIT_EXPONENT);
    FMulExact(false, 0x1ff_ffff * Pow2(860), neg, HIDDEN * Pow2(UNITS_11), 0x1ff_ffff * Pow2(923));
  }

  /** Rounded to float it becomes FLT_MIN. */
  lemma FloatRounds(neg: bool)
    ensures Finite(Exactly(neg, 0x1ff_ffff * Pow2(923)))
    ensures ToFloat(Exactly(neg, 0x1ff_ffff * Pow2(923))) == Exactly(neg, HIDDEN * Pow2(896))
  {
    hide *;
    Placed25(923);
    ExactlyMag(neg, 0x1ff_ffff * Pow2(923));
    RneScale(0x1ff_ffff, 2, 923);
    QuarterRounded();
    ToFloatIs(Exactly(neg, 0x1ff_ffff * Pow2(923)));
    TwoTo21();
    PowDoubles(21); PowDoubles(22);
    TwoTo54();
    HiddenIs();
    Pow2Add(23, 925);
    Pow2Add(52, 896);
  }

  lemma QuarterRounded()
    ensures Rne(0x1ff_ffff, 2) == 0x80_0000
  {
    TwoTo12();
    assert Pow2(2) == 4;
  }

  lemma ToFloatIs(b: u64)
    requires Finite(b)
    ensures ToFloat(b) == Exactly(Negative(b), Rne(Mag(b), 925) * Pow2(925))
  {
  }

  lemma ScaledUp(neg: bool)
    ensures Finite(PowDouble(-896)) && Finite(Exactly(neg, HIDDEN * Pow2(896)))
    ensures FMul(PowDouble(-896), Exactly(neg, HIDDEN * Pow2(896))) == Exactly(neg, HIDDEN)
  {
    hide MagBits, Representable, Pow2, FMul;
    PowDoubleExactly(-896);
    RepresentableShifted(HIDDEN, 896);
    MagBitsShifted(HIDDEN, 896);
    RepresentableShifted(HIDDEN, 0);
    TwoTo12();
    Pow2Add(178, 896);
    assert Pow2(178) * (HIDDEN * Pow2(896)) == HIDDEN * (Pow2(178) * Pow2(896));
    FMulExact(false, Pow2(178), neg, HIDDEN * Pow2(896), HIDDEN);
  }

  /** Lines 159-168: the smallest normal number, obtained through a conversion to float. */
  method SmallestNormal(r: u64, ghost neg: bool) returns (z: u64)
    requires r == Exactly(neg, HIDDEN * Pow2(UNITS_11))
    ensures z == Exactly(neg, HIDDEN)
  {
    hide FMul, Exactly, Pow2, Mag, ToFloat, BelowFloatMin, PowDouble;
    FloatProduct(neg);
    FloatRounds(neg);
    ScaledUp(neg);
    var fltmin := ToFloat(FMul(BelowFloatMin(), r));
    z := FMul(PowDouble(-896), fltmin);
  }

  /** Just below a power of two, rounding one bit earlier gives that power too. */
  lemma RoundsToPower(i: nat)
    requires Pow2(62) <= i < Pow2(63) && Rne(i, 10) == 2 * HIDDEN
    ensures Rne(i, 11) == HIDDEN
  {
    TwoTo12();
    TwoTo64();
    var q, t := i / 1024, i % 1024;
    assert q == 2 * HIDDEN - 1 && 2 * t >= 1024;
    DivModUnique(i, 2048, HIDDEN - 1, 1024 + t);
  }

  lemma RneAddMultiple(a: nat, k: nat, s: nat)
    requires k % 2 == 0
    ensures Rne(a + k * Pow2(s), s) == Rne(a, s) + k
  {
    ModAddMultiple(a, k, Pow2(s));
    DivNat(a, Pow2(s));
  }

  /** The extra top bit of line 172: 63 bits whose rounding shows that of i at one bit less. */
  lemma ExtraBit(i: nat)
    requires Pow2(62) <= i < Pow2(63)
    ensures Or(OddShift(i, 1), 0x4000_0000_0000_0000) == OddShift(i, 1) + 0x4000_0000_0000_0000
    ensures Pow2(62) <= OddShift(i, 1) + 0x4000_0000_0000_0000 < Pow2(63)
    ensures Rne(OddShift(i, 1) + 0x4000_0000_0000_0000, 10) == Rne(i, 11) + HIDDEN
  {
    hide *;
    TwoTo12();
    TwoTo64();
    OddShiftHalf(i);
    OddShiftExact(i, 1);
    var x, top := OddShift(i, 1), Pow2(62);
    assert top == 0x4000_0000_0000_0000 && x < top;
    OrCommutes(x, top);
    TopOr(x);
    RneOdd(x, i, 1, 10);
    RneAddMultiple(x, 0x10_0000_0000_0000, 10);
    HiddenIs();
  }

  lemma OddShiftHalf(i: nat)
    requires i < 0x8000_0000_0000_0000
    ensures OddShift(i, 1) < 0x4000_0000_0000_0000
  {
    TwoTo12();
    hide Or, Pow2;
    OddShiftValue(i, 1);
    assert Shr(i, 1) == i / 2;
  }

  lemma HiddenIs()
    ensures HIDDEN == 0x10_0000_0000_0000
  {
  }

  lemma TopOr(x: nat)
    requires x < Pow2(62)
    ensures Or(Pow2(62), x) == Pow2(62) + x
  {
    DivMulCancel(1, Pow2(62));
    OrDisjoint(Pow2(62), x, 62);
  }

  /** The rounding of i to 52 bits. */
  lemma Rounded52(i: nat)
    requires Pow2(62) <= i < Pow2(63)
    ensures HIDDEN / 2 <= Rne(i, 11) <= HIDDEN
  {
    TwoTo12();
    TwoTo64();
    DivRange(i, 2048, HIDDEN / 2, HIDDEN);
  }

  /** `2*r - c` removes the extra bit again, exactly. */
  lemma RemoveTop(neg: bool, c: nat, r: u64, b: u64, m: nat, n: nat, d: nat)
    requires HIDDEN / 2 <= c <= HIDDEN
    requires m == (c + HIDDEN) * Pow2(UNITS_10) && n == HIDDEN * Pow2(UNITS_11) && d == 2 * c * Pow2(UNITS_10)
    requires r == Exactly(neg, m) && b == Exactly(!neg, n)
    ensures Finite(r) && Finite(b) && Finite(Twice(r))
    ensures FAdd(Twice(r), b) == Exactly(neg, d)
  {
    hide MagBits, Representable, Pow2, RoundMag, Mag;
    var p := Pow2(UNITS_10);
    PowDoubles(UNITS_10);
    ShiftedExactly(neg, c + HIDDEN, UNITS_10);
    ShiftedExactly(neg, c + HIDDEN, UNITS_11);
    ShiftedExactly(!neg, HIDDEN, UNITS_11);
    ShiftedExactly(neg, 2 * c, UNITS_10);
    TwiceOf(neg, (c + HIDDEN) * p, (c + HIDDEN) * (2 * p));
    assert (c + HIDDEN) * (2 * p) - HIDDEN * (2 * p) == 2 * c * p;
    MulMono(1, 2 * c, p);
    DifferenceOf(neg, (c + HIDDEN) * (2 * p), HIDDEN * (2 * p), 2 * c * p);
  }

  lemma TwiceOf(neg: bool, m: nat, n: nat)
    requires n == 2 * m && Representable(m) && Representable(n) && MagBits(m) < INFINITY
    ensures Finite(Exactly(neg, m)) && Twice(Exactly(neg, m)) == Exactly(neg, n)
  {
    hide MagBits, Representable, Pow2, RoundMag, Mag;
    ExactlyMag(neg, m);
    TwoTo12();
    RoundExact(n, 0);
  }

  lemma DifferenceOf(neg: bool, m: nat, n: nat, d: nat)
    requires m - n == d && d > 0 && Representable(m) && Representable(n) && Representable(d)
    requires MagBits(m) < INFINITY && MagBits(n) < INFINITY
    ensures Finite(Exactly(neg, m)) && Finite(Exactly(!neg, n))
    ensures FAdd(Exactly(neg, m), Exactly(!neg, n)) == Exactly(neg, d)
  {
    hide MagBits, Representable, Pow2, RoundMag, Mag;
    ExactlyMag(neg, m);
    ExactlyMag(!neg, n);
    TwoTo12();
    RoundExact(d, 0);
  }

  lemma ShiftedExactly(neg: bool, c: nat, k: nat)
    requires HIDDEN <= c <= 2 * HIDDEN && k <= 2000
    ensures Representable(c * Pow2(k)) && MagBits(c * Pow2(k)) < INFINITY
    ensures Finite(Exactly(neg, c * Pow2(k))) && Mag(Exactly(neg, c * Pow2(k))) == c * Pow2(k)
    ensures Negative(Exactly(neg, c * Pow2(k))) == neg
  {
    hide MagBits, Representable, Pow2, Mag;
    RepresentableScaled(c, k);
    HugeMagnitude(c, k);
    ExactlyMag(neg, c * Pow2(k));
  }

  /** `r == c` recognises exactly the magnitude 2^63. */
  lemma IsPower(neg: bool, c: nat)
    requires HIDDEN <= c <= 2 * HIDDEN
    ensures Exactly(neg, c * Pow2(UNITS_10)) == Exactly(neg, HIDDEN * Pow2(UNITS_11)) <==> c == 2 * HIDDEN
  {
    hide Pow2, MagBits;
    PowDoubles(1084);
    if c < 2 * HIDDEN { MagBitsShifted(c, 1084); }
    MagBitsShifted(HIDDEN, 1085);
    assert (2 * HIDDEN) * Pow2(UNITS_10) == HIDDEN * (2 * Pow2(UNITS_10));
  }

  lemma BitsOfResult(neg: bool, n: nat, c: nat)
    requires RoundMag(n, UNIT_EXPONENT) == c
    ensures RoundBits(neg, n, UNIT_EXPONENT) == Exactly(neg, c)
  {
  }

  lemma NegateExactly(neg: bool, m: nat)
    requires MagBits(m) < INFINITY
    ensures Negate(Exactly(neg, m)) == Exactly(!neg, m)
  {
  }

  /** Without a bit to lose, the 53-bit rounding is twice the 52-bit one. */
  lemma NothingLost(i: nat)
    requires Low(i, 11) == 0
    ensures Rne(i, 10) == 2 * Rne(i, 11)
  {
    TwoTo12();
    var k := i / 2048;
    assert i == k * 2048;
    DivModUnique(i, 1024, 2 * k, 0);
  }

  /** The last scaling loses nothing: an even significand, one place. */
  lemma ScaledHalf(neg: bool, c: nat)
    requires c <= HIDDEN
    ensures Scaled(neg, 2 * c, -1) == Exactly(neg, c)
  {
    RoundSmall(2 * c, 1);
    assert Pow2(1) == 2;
    assert Rne(2 * c, 1) == c;
  }

  /** The constant +-0x1p63. */
  function Bound(neg: bool): u64 { Exactly(neg, HIDDEN * Pow2(UNITS_11)) }

  /** Lines 171-184, taken when a bit would be lost: r is replaced by the 52-bit rounding of i. */
  method RoundTo52(i: u64, neg: bool) returns (r: u64)
    requires Pow2(62) <= i < Pow2(63)
    ensures r == Exactly(neg, 2 * Rne(i, 11) * Pow2(UNITS_10))
  {
    hide *;
    Rounded52(i);
    HiddenIs();
    UnitIs();
    ShiftedExactly(neg, HIDDEN, 1085);
    NegateExactly(neg, HIDDEN * Pow2(UNITS_11));
    ExtraBit(i);
    LowBit(i);
    TwoTo64();
    IntRounds(neg, OddShift(i, 1) + 0x4000_0000_0000_0000);
    var j := Or(Or(Shr(i, 1), And(i, 1)), 0x4000_0000_0000_0000);
    r := IntToDouble(neg, j);
    ghost var c := Rne(i, 11);
    RemoveTop(neg, c, r, Negate(BoundOf(neg)),
              (c + HIDDEN) * Pow2(UNITS_10), HIDDEN * Pow2(UNITS_11), 2 * c * Pow2(UNITS_10));
    r := FAdd(Twice(r), Negate(BoundOf(neg)));
    // adding (tiny*tiny)*(r-r), a zero, leaves r unchanged
  }

  function BoundOf(neg: bool): (b: u64)
    ensures b == Exactly(neg, HIDDEN * Pow2(UNITS_11))
  {
    Bound(neg)
  }

  /** Lines 156-184: the result just below the normal range, rounded to 52 bits. */
  method BelowNormal(r0: u64, i: u64, neg: bool, ghost n: nat, ghost t: nat) returns (z: u64)
    requires Top63(i, t, -1085) && t == n * Pow2(SLACK) && r0 == IntToDouble(neg, i)
    ensures z == RoundBits(neg, n, UNIT_EXPONENT)
  {
    hide *;
    Top63Range(i, t, -1085);
    RoundedSum(n, t, i, -1085);
    UnitIs();
    HiddenIs();
    IntRounds(neg, i);
    Rounded52(i);
    IsPower(neg, Rne(i, 10));
    BitsOfResult(neg, n, Rne(i, 11));
    var r := r0;
    if r == BoundOf(neg) {
      RoundsToPower(i);
      z := SmallestNormal(r, neg);
    } else {
      ShiftedOut(i, 11);
      if Shl64(i, 53) != 0 {
        r := RoundTo52(i, neg);
      } else {
        NothingLost(i);
      }
      ScaledHalf(neg, Rne(i, 11));
      z := ScaleInteger(r, -1085, neg, 2 * Rne(i, 11));
    }
  }

  lemma Top63Range(i: nat, t: nat, e: int)
    requires Top63(i, t, e)
    ensures Pow2(62) <= i < Pow2(63)
  {
  }

  /** Rounding to odd at 53 bits and then to units of 2^-1074 is one rounding. */
  lemma FarResult(i: nat, e: int, neg: bool, n: nat, t: nat)
    requires Top63(i, t, e) && e < -1085 && t == n * Pow2(SLACK)
    ensures HIDDEN <= OddShift(i, 10) <= 2 * HIDDEN
    ensures Scaled(neg, OddShift(i, 10), e + 1084) == RoundBits(neg, n, UNIT_EXPONENT)
  {
    hide *;
    Top63Range(i, t, e);
    RoundedSum(n, t, i, e);
    UnitIs();
    TenBits(i);
    OddShiftExact(i, 10);
    RneOdd(OddShift(i, 10), i, 10, -e - 1084);
    RoundSmall(OddShift(i, 10), -e - 1084);
    ScaledBelow(neg, OddShift(i, 10), e + 1084, Rne(i, -e - 1074));
    BitsOfResult(neg, n, Rne(i, -e - 1074));
  }

  /** Lines 185-192: further below, one rounding to odd at 53 bits and one rounding in `scalbn`. */
  method FarBelowNormal(i: u64, e: int, neg: bool, ghost n: nat, ghost t: nat) returns (z: u64)
    requires Top63(i, t, e) && e < -1085 && t == n * Pow2(SLACK)
    ensures z == RoundBits(neg, n, UNIT_EXPONENT)
  {
    hide *;
    Top63Range(i, t, e);
    FarResult(i, e, neg, n, t);
    WordOddShift(i, 10);
    TenBits(i);
    var j := Or(Shr(i, 10), Flag(Shl64(i, 54) != 0));
    IntRounds(neg, OddShift(i, 10) * Pow2(10));
    RneScale(OddShift(i, 10), 0, 10);
    j := Shl64(j, 10);
    var r := IntToDouble(neg, j);
    z := ScaleInteger(r, e, neg, OddShift(i, 10));
  }

  lemma ScaledBelow(neg: bool, c: nat, a: int, m: nat)
    requires a < 0 && RoundMag(c, -a) == m
    ensures Scaled(neg, c, a) == Exactly(neg, m)
  {
  }

  lemma TenBits(i: nat)
    requires Pow2(62) <= i < Pow2(63)
    ensures HIDDEN <= OddShift(i, 10) < 2 * HIDDEN
    ensures Pow2(62) <= OddShift(i, 10) * Pow2(10) < Pow2(63)
    ensures Shl64(OddShift(i, 10), 10) == OddShift(i, 10) * Pow2(10)
    ensures Rne(OddShift(i, 10), 0) == OddShift(i, 10)
  {
    TwoTo12();
    TwoTo64();
    OddShiftValue(i, 10);
    var c := OddShift(i, 10);
    assert Shr(i, 10) == i / 1024;
    hide OddShift;
    DivModUnique(c, 1, c, 0);
    DivModUnique(c * 1024, W64, 0, c * 1024);
  }

  /** Lines 150-194: conversion to a double. */
  method ToDouble(i: u64, e: int, neg: bool, ghost n: nat, ghost t: nat) returns (z: u64)
    requires Top63(i, t, e) && t == n * Pow2(SLACK)
    ensures z == RoundBits(neg, n, UNIT_EXPONENT)
  {
    Top63Range(i, t, e);
    RoundedSum(n, t, i, e);
    hide *;
    IntRounds(neg, i);
    var r := IntToDouble(neg, i);
    if e < -1022 - 62 {
      if e == -1022 - 63 {
        z := BelowNormal(r, i, neg, n, t);
      } else {
        z := FarBelowNormal(i, e, neg, n, t);
      }
    } else {
      z := ScaleInteger(r, e, neg, Rne(i, 10));
      ScaledIs(neg, Rne(i, 10), e + 1084);
      BitsOfResult(neg, n, Rne(i, 10) * Pow2(e + 1084));
    }
  }

  // ----- two roundings

  /** `x*y + z`, in two roundings. */
  function MulAdd(x: u64, y: u64, z: u64): u64
    requires Finite(x) && Finite(y) && Finite(z)
  {
    var p := FMul(x, y);
    if Finite(p) then FAdd(p, z) else p
  }

  /** The IEEE result of a fused multiply-add whose exact value is not zero. */
  function Fused(x: u64, y: u64, z: u64): u64
    requires Finite(x) && Finite(y) && Finite(z)
  {
    RoundVal(Exact(x, y, z), UNIT_EXPONENT)
  }

  /** The exact value from the two exact terms and their signs. */
  lemma ExactValue(x: u64, y: u64, z: u64)
    requires Finite(x) && Finite(y) && Finite(z)
    ensures var a, b := Mag(x) * Mag(y), Mag(z) * Pow2(UNIT_EXPONENT);
      var neg := Negative(x) != Negative(y);
      var same := neg == Negative(z);
      && Dist(Exact(x, y, z), 0) == ExactSum(a, b, same)
      && (Exact(x, y, z) != 0 ==> (Exact(x, y, z) < 0 <==> (if same || a >= b then neg else !neg)))
  {
    hide Mag, Pow2;
    SignedTerms(Mag(x), Mag(y), Mag(z), Pow2(UNIT_EXPONENT));
  }

  lemma SignedTerms(x: int, y: int, z: int, u: int)
    requires x >= 0 && y >= 0 && z >= 0 && u >= 0
    ensures (-x) * y == -(x * y) && x * (-y) == -(x * y) && (-x) * (-y) == x * y
    ensures (-z) * u == -(z * u) && x * y >= 0 && z * u >= 0
  {
  }

  lemma ProductRange(m: nat, n: nat)
    requires 2 * HIDDEN <= m < 4 * HIDDEN && 2 * HIDDEN <= n < 4 * HIDDEN && m % 2 == 0 && n % 2 == 0
    ensures Pow2(106) <= m * n < Pow2(108) && (m * n) % 4 == 0
  {
    hide Pow2;
    TwoTo54();
    ProductOf53(m, n);
    ProductOfEvens(m, n);
  }

  lemma ProductOf53(m: nat, n: nat)
    requires Pow2(53) <= m < Pow2(54) && Pow2(53) <= n < Pow2(54)
    ensures Pow2(106) <= m * n < Pow2(108)
  {
    hide *;
    Pow2Add(53, 53);
    Pow2Add(54, 54);
    MulMono(Pow2(53), m, Pow2(53));
    MulMono(Pow2(53), n, m);
    MulStrict(m, Pow2(54), n);
    MulStrict(n, Pow2(54), Pow2(54));
  }

  lemma ProductOfEvens(m: nat, n: nat)
    requires m % 2 == 0 && n % 2 == 0
    ensures (m * n) % 4 == 0
  {
    var i, j := m / 2, n / 2;
    assert (2 * i) * (2 * j) == i * j * 4;
    DivMulCancel(i * j, 4);
  }

  /** The computed sum vanishes exactly when the exact one does. */
  lemma ZeroSum(s: nat, t: nat, d: nat)
    requires d > 0 && SumStands(s, t, d)
    ensures s == 0 <==> t == 0
  {
    hide Pow2;
    var q, k :| Standing(s, t, d, q, k);
    if s > 0 && t == s * d { MulMono(1, s, d); }
  }

  /** The exact terms a and b at a finer unit, their sum t, and the magnitude n of the exact result. */
  ghost predicate Terms(x: u64, y: u64, z: u64, a: nat, b: nat, sign: bool, same: bool, n: nat, t: nat)
    requires Finite(x) && Finite(y) && Finite(z)
  {
    && t == ExactSum(a, b, same) && t == n * Pow2(SLACK)
    && (n == 0 <==> Exact(x, y, z) == 0)
    && (n != 0 ==> Fused(x, y, z) == RoundBits(sign != (!same && a < b), n, UNIT_EXPONENT))
  }

  lemma TermsOf(x: u64, y: u64, z: u64, nx: Num, ny: Num, nz: Num, p: nat)
    requires Decodes(x, nx) && Decodes(y, ny) && Decodes(z, nz) && p == nx.m * ny.m
    ensures var sign := nx.sign != ny.sign;
      Terms(x, y, z, Units(p, nx.e + ny.e), Units(nz.m, nz.e), sign, sign == nz.sign,
            Dist(Exact(x, y, z), 0), ExactSum(Units(p, nx.e + ny.e), Units(nz.m, nz.e), sign == nz.sign))
  {
    hide Mag, Pow2, Units, Exact, RoundBits;
    var a, b := Mag(x) * Mag(y), Mag(z) * Pow2(UNIT_EXPONENT);
    ExactProduct(x, y, nx, ny, p);
    ExactAddend(z, nz);
    ExactValue(x, y, z);
    var same := (nx.sign != ny.sign) == nz.sign;
    SignedTerms(Mag(x), Mag(y), Mag(z), Pow2(UNIT_EXPONENT));
    ExactSumScale(a, b, Pow2(SLACK), same);
    if !same && a < b { assert b > 0; }
  }

  lemma TermsResult(x: u64, y: u64, z: u64, a: nat, b: nat, sign: bool, same: bool, n: nat, t: nat)
    requires Finite(x) && Finite(y) && Finite(z) && Terms(x, y, z, a, b, sign, same, n, t)
    ensures t == ExactSum(a, b, same) && t == n * Pow2(SLACK)
    ensures t == 0 <==> Exact(x, y, z) == 0
    ensures t != 0 ==> Fused(x, y, z) == RoundBits(sign != (!same && a < b), n, UNIT_EXPONENT)
  {
    MulCancel(n, 0, Pow2(SLACK));
  }

  /** Lines 72-194 for nonzero operands; the flag reports an exact zero. */
  method FuseNonzero(nx: Num, ny: Num, nz: Num, ghost x: u64, ghost y: u64, ghost z: u64)
      returns (zero: bool, r: u64)
    requires Decodes(x, nx) && Decodes(y, ny) && Decodes(z, nz)
    ensures Finite(x) && Finite(y) && Finite(z)
    ensures zero <==> Exact(x, y, z) == 0
    ensures !zero ==> r == Fused(x, y, z)
  {
    hide *;
    zero, r := false, 0;
    DecodesBounds(x, nx);
    DecodesBounds(y, ny);
    DecodesBounds(z, nz);
    ProductRange(nx.m, ny.m);
    ghost var p: nat := nx.m * ny.m;
    TermsOf(x, y, z, nx, ny, nz, p);
    var sign := nx.sign != ny.sign;
    var same := sign == nz.sign;
    assert UNIT >= 2254 by { UnitIs(); }
    ghost var a, b := Units(p, nx.e + ny.e), Units(nz.m, nz.e);
    ghost var n, t := Dist(Exact(x, y, z), 0), ExactSum(a, b, same);
    TermsResult(x, y, z, a, b, sign, same, n, t);
    var rhi, rlo := Mul(nx.m, ny.m);
    WideIs(rhi, rlo);
    var zhi, zlo, e;
    rhi, rlo, zhi, zlo, e := Align(rhi, rlo, nz.m, nx.e + ny.e, nz.e);
    UnitPositive(e);
    AlignedSum(Wide(rhi, rlo), Wide(zhi, zlo), a, b, Pow2(e + UNIT), same);
    Below127();
    var flipped;
    SumIs(Wide(rhi, rlo), Wide(zhi, zlo), same);
    ghost var s := ExactSum(Wide(rhi, rlo), Wide(zhi, zlo), same);
    rhi, rlo, flipped := Combine(rhi, rlo, zhi, zlo, same);
    assert Wide(rhi, rlo) == s;
    ZeroSum(s, t, Pow2(e + UNIT));
    WideZero(rhi, rlo);
    if rhi == 0 && rlo == 0 {
      zero := true;
    } else {
      var i;
      i, e := TakeTop(rhi, rlo, e, t);
      r := ToDouble(i, e, if flipped then !sign else sign, n, t);
    }
  }

  lemma WideIs(hi: nat, lo: nat)
    ensures Wide(hi, lo) == hi * W64 + lo
  {
  }

  lemma WideZero(hi: nat, lo: nat)
    ensures Wide(hi, lo) == 0 <==> hi == 0 && lo == 0
  {
  }

  lemma UnitIs()
    ensures UNIT == 2548 && SLACK == 400 && UNIT_EXPONENT == 1074 && UNITS_10 == 1084 && UNITS_11 == 1085
  {
  }

  lemma UnitPositive(e: int)
    requires e >= -2254
    ensures e + UNIT >= 0 && UNIT == 2548 && Pow2(e + UNIT) > 0
  {
  }

  lemma Below127()
    ensures Pow2(125) <= Pow2(127)
  {
    Pow2Mono(125, 127);
  }

  lemma SumIs(r: nat, z: nat, same: bool)
    ensures ExactSum(r, z, same) == if same then r + z else Dist(r, z)
  {
  }

  lemma DecodesBounds(x: u64, n: Num)
    requires Decodes(x, n)
    ensures Finite(x) && n.sign == Negative(x)
    ensures n.m % 2 == 0 && 2 * HIDDEN <= n.m < 4 * HIDDEN && -1127 <= n.e < 971
  {
  }

  /** With a zero operand the two roundings of `x*y + z` are one. */
  lemma ZeroFactor(x: u64, y: u64, z: u64)
    requires Finite(x) && Finite(y) && Finite(z) && (Abs(x) == 0 || Abs(y) == 0)
    ensures Abs(z) != 0 ==> MulAdd(x, y, z) == z == Fused(x, y, z)
    ensures Abs(z) == 0 ==> Abs(MulAdd(x, y, z)) == 0
  {
    FusedOfAddend(x, y, z);
    hide *;
    ZeroMag(x);
    ZeroMag(y);
    ZeroProduct(x, y);
    MulAddIs(x, y, z);
    AddToZero(FMul(x, y), z);
  }

  lemma FusedOfAddend(x: u64, y: u64, z: u64)
    requires Finite(x) && Finite(y) && Finite(z) && (Abs(x) == 0 || Abs(y) == 0)
    ensures Abs(z) != 0 ==> Fused(x, y, z) == z
  {
    hide Mag, Pow2, RoundVal;
    ZeroMag(x);
    ZeroMag(y);
    ZeroTerms(Val(x), Val(y), Val(z), Pow2(UNIT_EXPONENT));
    ScaledVal(z);
  }

  lemma ZeroMag(x: u64)
    requires Finite(x)
    ensures Abs(x) == 0 <==> Mag(x) == 0
  {
    Fields(0, false, 0, 0);
    MagOrder(x, 0);
  }

  lemma ZeroProduct(x: u64, y: u64)
    requires Finite(x) && Finite(y) && (Mag(x) == 0 || Mag(y) == 0)
    ensures Finite(FMul(x, y)) && Abs(FMul(x, y)) == 0
  {
    hide Mag, Pow2;
    assert Mag(x) * Mag(y) == 0;
    RoundsToZero(0, UNIT_EXPONENT);
    SignedFields(Negative(x) != Negative(y), 0);
    Fields(0, false, 0, 0);
  }

  /** Rounding the value of a double gives the double. */
  lemma RoundVal0(z: u64)
    requires Finite(z)
    ensures Abs(z) != 0 ==> RoundVal(Val(z), 0) == z
  {
    hide Mag, Pow2, RoundMag, MagBits, Representable;
    MagRepresentable(z);
    ZeroMag(z);
    TwoTo12();
    RoundExact(Mag(z), 0);
    FieldsOf(z);
  }

  lemma ScaledVal(z: u64)
    requires Finite(z)
    ensures Abs(z) != 0 ==> RoundVal(Val(z) * Pow2(UNIT_EXPONENT), UNIT_EXPONENT) == z
  {
    hide Mag, Pow2, RoundMag, MagBits, Representable;
    MagRepresentable(z);
    ZeroMag(z);
    RoundExact(Mag(z), UNIT_EXPONENT);
    SignedTerms(0, 0, Mag(z), Pow2(UNIT_EXPONENT));
    MulCancel(Mag(z), 0, Pow2(UNIT_EXPONENT));
    FieldsOf(z);
  }

  /** A zero addend: the product alone is rounded; only the sign of a result that rounds to zero can differ. */
  lemma ZeroAddend(x: u64, y: u64, z: u64)
    requires Finite(x) && Finite(y) && Finite(z) && Abs(z) == 0 && Exact(x, y, z) != 0
    ensures Abs(MulAdd(x, y, z)) == Abs(Fused(x, y, z))
    ensures Abs(Fused(x, y, z)) != 0 ==> MulAdd(x, y, z) == Fused(x, y, z)
    ensures Abs(Fused(x, y, z)) == 0 ==>
              (MulAdd(x, y, z) == Fused(x, y, z) <==> (Negative(Fused(x, y, z)) ==> Negative(z)))
  {
    hide *;
    ZeroMag(z);
    ProductFused(x, y, z);
    MulAddIs(x, y, z);
    if Finite(FMul(x, y)) { AddZero(FMul(x, y), z); } else { InfiniteNonzero(FMul(x, y)); }
  }

  lemma InfiniteNonzero(p: u64)
    requires !Finite(p)
    ensures Abs(p) != 0
  {
    FieldsOf(p);
  }

  lemma MulAddIs(x: u64, y: u64, z: u64)
    requires Finite(x) && Finite(y) && Finite(z)
    ensures MulAdd(x, y, z) == if Finite(FMul(x, y)) then FAdd(FMul(x, y), z) else FMul(x, y)
  {
  }

  /** Adding a zero. */
  lemma AddZero(p: u64, z: u64)
    requires Finite(p) && Finite(z) && Abs(z) == 0
    ensures Abs(FAdd(p, z)) == Abs(p)
    ensures Abs(p) != 0 ==> FAdd(p, z) == p
    ensures Abs(p) == 0 ==> (FAdd(p, z) == p <==> (Negative(p) ==> Negative(z)))
  {
    hide Mag, RoundVal;
    ZeroMag(z);
    ZeroMag(p);
    RoundVal0(p);
    FieldsOf(p);
  }

  lemma AddToZero(p: u64, z: u64)
    requires Finite(p) && Finite(z) && Abs(p) == 0
    ensures Abs(z) == 0 ==> Abs(FAdd(p, z)) == 0
    ensures Abs(z) != 0 ==> FAdd(p, z) == z
  {
    hide Mag, RoundVal;
    ZeroMag(z);
    ZeroMag(p);
    RoundVal0(z);
    FieldsOf(p);
  }

  lemma ProductFused(x: u64, y: u64, z: u64)
    requires Finite(x) && Finite(y) && Finite(z) && Mag(z) == 0 && Exact(x, y, z) != 0
    ensures FMul(x, y) == Fused(x, y, z)
  {
    hide Mag, Pow2, RoundMag, MagBits;
    SignedTerms(Mag(x), Mag(y), Mag(z), Pow2(UNIT_EXPONENT));
  }

  /** Half the smallest double, in units of 2^-2148. */
  const HALF_SMALLEST: nat := UNIT_EXPONENT - 1

  /** Up to half the smallest double, and only there, rounding gives zero. */
  lemma RoundsToZeroExactly(n: nat)
    ensures RoundMag(n, UNIT_EXPONENT) == 0 <==> n <= Pow2(HALF_SMALLEST)
  {
    hide *;
    PowDoubles(HALF_SMALLEST);
    HalfIs();
    RoundZero(n, UNIT_EXPONENT);
  }

  lemma HalfIs()
    ensures HALF_SMALLEST + 1 == UNIT_EXPONENT
  {
  }

  lemma MagBitsZero(m: nat)
    ensures MagBits(m) == 0 <==> m == 0
  {
    hide Pow2, BitLen;
    if m >= HIDDEN {
      TwoTo52();
      BitLenAtLeast(m, 52);
      var e := BitLen(m) - 52;
      if e < EXP_MAX { TopBits(m, e - 1); }
    }
  }

  /** x * y + 0 in the one case where the sign of the result is lost, read off the operands. */
  predicate LosesSign(x: u64, y: u64, z: u64)
    requires Finite(x) && Finite(y)
  {
    z == 0 && Negative(x) != Negative(y) && Mag(x) * Mag(y) <= Pow2(HALF_SMALLEST)
  }

  lemma SignLost(x: u64, y: u64, z: u64)
    requires Finite(x) && Finite(y) && Finite(z) && Exact(x, y, z) != 0
    ensures LosesSign(x, y, z) <==>
              Abs(z) == 0 && Abs(Fused(x, y, z)) == 0 && Negative(Fused(x, y, z)) && !Negative(z)
  {
    hide Pow2, RoundMag, MagBits, Mag;
    if Abs(z) == 0 {
      ZeroMag(z);
      FieldsOf(z);
      ProductFused(x, y, z);
      SignedTerms(Mag(x), Mag(y), Mag(z), Pow2(UNIT_EXPONENT));
      var m := RoundMag(Mag(x) * Mag(y), UNIT_EXPONENT);
      RoundsToZeroExactly(Mag(x) * Mag(y));
      MagBitsZero(m);
      SignedFields(Negative(x) != Negative(y), MagBits(m));
    }
  }

  /** The zero that rounding to nearest delivers for a sum of two terms of these signs (section 6.3). */
  function ZeroOf(neg: bool, neg': bool): u64 { if neg && neg' then SIGN_BIT else 0 }

  /** An exact zero needs a representable product, and both roundings are exact. */
  lemma ExactZero(x: u64, y: u64, z: u64)
    requires Finite(x) && Finite(y) && Finite(z) && Exact(x, y, z) == 0
    ensures MulAdd(x, y, z) == ZeroOf(Negative(x) != Negative(y), Negative(z))
  {
    hide Mag, Pow2, RoundMag, MagBits, Representable;
    var neg, m := Negative(x) != Negative(y), Mag(z);
    SignedTerms(Mag(x), Mag(y), m, Pow2(UNIT_EXPONENT));
    assert Mag(x) * Mag(y) == m * Pow2(UNIT_EXPONENT);
    MagRepresentable(z);
    RoundExact(m, UNIT_EXPONENT);
    FieldsOf(z);
    assert FMul(x, y) == WithSign(neg, Abs(z));
    MulCancel(0, m, Pow2(UNIT_EXPONENT));
    assert m > 0 ==> neg != Negative(z);
    OppositeSum(neg, z);
  }

  /** Adding a double to the number of opposite sign and equal magnitude. */
  lemma OppositeSum(neg: bool, z: u64)
    requires Finite(z) && (Mag(z) > 0 ==> neg != Negative(z))
    ensures Finite(WithSign(neg, Abs(z))) && FAdd(WithSign(neg, Abs(z)), z) == ZeroOf(neg, Negative(z))
  {
    hide Mag;
    FieldsOf(z);
    AbsFinite(z);
    SignedFields(neg, Abs(z));
    SignedMag(neg, Abs(z));
  }

  lemma AbsFinite(z: u64)
    requires Finite(z)
    ensures Abs(z) < SIGN_BIT && Finite(Abs(z)) && Mag(Abs(z)) == Mag(z)
  {
    FieldsOf(z);
  }

  // ----- infinities and NaNs

  predicate Infinite(b: u64) { ExpField(b) == EXP_MAX && FracField(b) == 0 }

  function Value(b: u64): Outcome { if IsNaN(b) then NotANumber else Number(b) }

  /** `x*y`, for any doubles. */
  function Times(x: u64, y: u64): Outcome
  {
    if IsNaN(x) || IsNaN(y) then NotANumber
    else if Finite(x) && Finite(y) then Number(FMul(x, y))
    else if Abs(x) == 0 || Abs(y) == 0 then NotANumber
    else Number(WithSign(Negative(x) != Negative(y), INFINITY))
  }

  /** `p + z`, for any doubles. */
  function Plus(p: Outcome, z: u64): Outcome
  {
    if p == NotANumber || IsNaN(p.bits) || IsNaN(z) then NotANumber
    else if Finite(p.bits) && Finite(z) then Number(FAdd(p.bits, z))
    else if Finite(p.bits) then Number(z)
    else if !Finite(z) && Negative(p.bits) != Negative(z) then NotANumber
    else p
  }

  /** What the standard asks for when an operand is not finite (sections 6.1, 6.2 and 7.2). */
  function Special(x: u64, y: u64, z: u64): Outcome
  {
    var product := Infinite(x) || Infinite(y);
    if IsNaN(x) || IsNaN(y) || IsNaN(z) then NotANumber
    else if product && (Abs(x) == 0 || Abs(y) == 0) then NotANumber
    else if product && Infinite(z) && (Negative(x) != Negative(y)) != Negative(z) then NotANumber
    else if product then Number(WithSign(Negative(x) != Negative(y), INFINITY))
    else Number(z)
  }

  lemma InfinityFields(neg: bool)
    ensures var b := WithSign(neg, INFINITY); !Finite(b) && !IsNaN(b) && Negative(b) == neg
    ensures forall b: u64 {:trigger Finite(b)} :: !Finite(b) ==> IsNaN(b) || Infinite(b)
  {
    SignedFields(neg, INFINITY);
    Fields(INFINITY, false, 2047, 0);
  }

  /** Infinity times zero, and infinity less infinity, are no numbers; otherwise infinities keep their signs. */
  lemma SpecialKnown(z: u64)
    requires z < 0x7ff0_0000_0000_0000
    ensures Special(0x7ff0_0000_0000_0000, 0x8000_0000_0000_0000, z) == NotANumber
    ensures Special(0x7ff0_0000_0000_0000, 0xbff0_0000_0000_0000, 0x7ff0_0000_0000_0000) == NotANumber
    ensures Special(0x7ff0_0000_0000_0000, 0xbff0_0000_0000_0000, z) == Number(0xfff0_0000_0000_0000)
    ensures Special(0x7ff8_0000_0000_0000, 0, z) == NotANumber
    ensures Special(z, z, 0xfff0_0000_0000_0000) == Number(0xfff0_0000_0000_0000)
  {
  }

  /** Where a factor is not finite, or one is zero and the addend is not finite, two roundings and one agree. */
  lemma SpecialFactor(x: u64, y: u64, z: u64)
    requires !Finite(x) || !Finite(y) || ((Abs(x) == 0 || Abs(y) == 0) && !Finite(z))
    ensures Plus(Times(x, y), z) == Special(x, y, z)
  {
    hide FMul, FAdd;
    InfinityFields(Negative(x) != Negative(y));
    if Finite(x) && Finite(y) {
      ZeroMag(x);
      ZeroMag(y);
      ZeroProduct(x, y);
      FieldsOf(FMul(x, y));
    }
  }

  lemma FiniteSum(x: u64, y: u64, z: u64)
    requires Finite(x) && Finite(y) && Finite(z)
    ensures Plus(Times(x, y), z) == Number(MulAdd(x, y, z))
  {
    hide FAdd, RoundMag, MagBits, Mag;
    ProductNumber(x, y);
  }

  /** An overflowing product is an infinity. */
  lemma ProductNumber(x: u64, y: u64)
    requires Finite(x) && Finite(y)
    ensures !IsNaN(x) && !IsNaN(y) && !IsNaN(FMul(x, y))
  {
    hide RoundMag, Mag;
    var neg, m := Negative(x) != Negative(y), MagBits(RoundMag(Mag(x) * Mag(y), UNIT_EXPONENT));
    hide MagBits;
    SignedFields(neg, m);
    FieldsOf(m);
  }

  lemma SpecialAddend(x: u64, y: u64, z: u64)
    requires Finite(x) && Finite(y) && !Finite(z)
    ensures Value(z) == Special(x, y, z)
  {
    InfinityFields(false);
  }

  // ----- fma

  /** What `fma` returns for finite operands: the exact value rounded once, a zero's sign aside. */
  ghost predicate RoundedOnce(x: u64, y: u64, z: u64, r: u64)
    requires Finite(x) && Finite(y) && Finite(z)
  {
    if Exact(x, y, z) == 0 then r == ZeroOf(Negative(x) != Negative(y), Negative(z))
    else Abs(r) == Abs(Fused(x, y, z)) && (r == Fused(x, y, z) <==> !LosesSign(x, y, z))
  }

  /** The two roundings of `x*y + z` where the code resorts to them. */
  lemma TwoRoundings(x: u64, y: u64, z: u64)
    requires Finite(x) && Finite(y) && Finite(z)
    requires Abs(x) == 0 || Abs(y) == 0 || Abs(z) == 0 || Exact(x, y, z) == 0
    ensures RoundedOnce(x, y, z, MulAdd(x, y, z))
  {
    ExactOfZeros(x, y, z);
    hide Exact, Fused, MulAdd, LosesSign, Abs, Finite;
    if Exact(x, y, z) == 0 { ExactZero(x, y, z); } else { SignLost(x, y, z); }
    if Abs(x) == 0 || Abs(y) == 0 { ZeroFactor(x, y, z); }
    if Abs(z) == 0 && Exact(x, y, z) != 0 { ZeroAddend(x, y, z); }
  }

  lemma OneRounding(x: u64, y: u64, z: u64)
    requires Finite(x) && Finite(y) && Finite(z) && Abs(z) != 0 && Exact(x, y, z) != 0
    ensures RoundedOnce(x, y, z, Fused(x, y, z))
  {
    SignLost(x, y, z);
  }

  /**
    `fma`.  On finite doubles it delivers the correctly rounded exact value, whatever its size; when that is
    zero, a zero of the sign the standard asks for.  The one deviation: adding a positive zero turns a
    negative product of at most half the smallest double into a positive zero.
   */
  method Fma(x: u64, y: u64, z: u64) returns (r: Outcome)
    ensures !Finite(x) || !Finite(y) || !Finite(z) ==> r == Special(x, y, z)
    ensures Finite(x) && Finite(y) && Finite(z) ==> r.Number? && RoundedOnce(x, y, z, r.bits)
  {
    hide *;
    var nx := Normalize(x);
    var ny := Normalize(y);
    var nz := Normalize(z);
    NumRange(x, nx);
    NumRange(y, ny);
    NumRange(z, nz);
    if nx.e >= ZEROINFNAN || ny.e >= ZEROINFNAN {
      TwoStepSum(x, y, z);
      return Plus(Times(x, y), z);
    }
    if nz.e >= ZEROINFNAN {
      if nz.e > ZEROINFNAN {
        TwoStepSum(x, y, z);
        return Plus(Times(x, y), z);
      }
      SpecialAddend(x, y, z);
      return Value(z);
    }
    var zero, bits := FuseNonzero(nx, ny, nz, x, y, z);
    if zero {
      TwoStepSum(x, y, z);
      return Plus(Times(x, y), z);
    }
    OneRounding(x, y, z);
    r := Number(bits);
  }

  lemma TwoStepSum(x: u64, y: u64, z: u64)
    ensures !Finite(x) || !Finite(y) || ((Abs(x) == 0 || Abs(y) == 0) && !Finite(z)) ==>
              Plus(Times(x, y), z) == Special(x, y, z)
    ensures Finite(x) && Finite(y) && Finite(z)
            && (Abs(x) == 0 || Abs(y) == 0 || Abs(z) == 0 || Exact(x, y, z) == 0) ==>
              Plus(Times(x, y), z).Number? && RoundedOnce(x, y, z, Plus(Times(x, y), z).bits)
  {
    hide *;
    if !Finite(x) || !Finite(y) || ((Abs(x) == 0 || Abs(y) == 0) && !Finite(z)) { SpecialFactor(x, y, z); }
    if Finite(x) && Finite(y) && Finite(z) && (Abs(x) == 0 || Abs(y) == 0 || Abs(z) == 0 || Exact(x, y, z) == 0) {
      TwoRoundings(x, y, z);
      FiniteSum(x, y, z);
    }
  }

  lemma NumRange(x: u64, n: Num)
    requires Finite(x) && Abs(x) != 0 ==> Decodes(x, n)
    requires Abs(x) == 0 ==> n.e > ZEROINFNAN
    requires !Finite(x) ==> n.e == ZEROINFNAN
    ensures n.e >= ZEROINFNAN <==> Abs(x) == 0 || !Finite(x)
    ensures n.e > ZEROINFNAN <==> Abs(x) == 0
    ensures Abs(x) == 0 ==> Finite(x)
  {
    ZeroIsFinite(x);
  }

  lemma ZeroIsFinite(x: u64)
    ensures Abs(x) == 0 ==> Finite(x)
  {
    FieldsOf(x);
  }

  lemma ExactOfZeros(x: u64, y: u64, z: u64)
    requires Finite(x) && Finite(y) && Finite(z)
    ensures (Abs(x) == 0 || Abs(y) == 0) && Abs(z) == 0 ==> Exact(x, y, z) == 0
  {
    ZeroMag(x);
    ZeroMag(y);
    ZeroMag(z);
    hide Mag, Pow2;
    ZeroTerms(Val(x), Val(y), Val(z), Pow2(UNIT_EXPONENT));
  }

  lemma ZeroTerms(x: int, y: int, z: int, u: int)
    ensures (x == 0 || y == 0) && z == 0 ==> x * y + z * u == 0
    ensures x == 0 || y == 0 ==> x * y + z * u == z * u
  {
  }

  /** The deviation on a concrete input: -2^-1074 * 2^-1074 + 0. */
  lemma ZeroSignLost()
    ensures var x: u64, y: u64, z: u64 := SIGN_BIT + 1, 1, 0;
      && Finite(x) && Finite(y) && Finite(z) && Exact(x, y, z) == -1
      && Fused(x, y, z) == SIGN_BIT && MulAdd(x, y, z) == 0 && LosesSign(x, y, z)
  {
    Fields(SIGN_BIT + 1, true, 0, 1);
    Fields(1, false, 0, 1);
    Fields(0, false, 0, 0);
    RoundsToZero(1, UNIT_EXPONENT);
    Fields(SIGN_BIT, true, 0, 0);
    assert Exact(SIGN_BIT + 1, 1, 0) == -1;
  }
}
