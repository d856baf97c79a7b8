/** The helpers of `fma`: leading zeros, operand normalisation, the 64x64 to 128 product, and `scalbn`. */
module FmaParts {
  import opened Words
  import opened Ieee

  // ----- a_clz_64

  lemma {:induction false} BitLenShift(y: nat, k: nat)
    ensures Shr(y, k) == 0 <==> y < Pow2(k)
    ensures y >= Pow2(k) ==> BitLen(Shr(y, k)) == BitLen(y) - k
  {
    var p := Pow2(k);
    DivModSpec(y, p);
    if y < p {
      DivModUnique(y, p, 0, y);
    } else {
      DivRange(y, p, 1, y + 1 + p);
      BitLenBounds(y);
      BitLenBounds(y / p);
      BitLenAtLeast(y, k);
      var l := BitLen(y);
      Pow2Add(l - 1 - k, k);
      Pow2Add(l - k, k);
      DivRange(y, p, Pow2(l - 1 - k), Pow2(l - k));
      BitLenUnique(y / p, l - k);
    }
  }

  /** r plus the leading zeros of y in a field of w bits is the answer; r has no bits below w. */
  ghost predicate ClzPart(x: nat, y: nat, r: nat, w: nat)
  {
    w > 0 && 0 < y < Pow2(w) && Multiple(r, w) && r + (w - BitLen(y)) == 64 - BitLen(x)
  }

  ghost predicate Multiple(r: nat, w: nat)
    requires w > 0
  {
    exists c: nat :: r == c * w
  }

  lemma MultipleStep(r: nat, j: nat)
    requires Multiple(r, 2 * Pow2(j))
    ensures Multiple(r, Pow2(j)) && Multiple(r + Pow2(j), Pow2(j)) && Or(r, Pow2(j)) == r + Pow2(j)
  {
    var k := Pow2(j);
    var c: nat :| r == c * (2 * k);
    hide *;
    TwiceTimes(c, k);
    IsMultiple(r, k, 2 * c);
    IsMultiple(r + k, k, 2 * c + 1);
    DivMulCancel(c, 2 * k);
    PowDoubles(j);
    OrDisjoint(r, k, j + 1);
  }

  lemma TwiceTimes(c: nat, k: nat)
    ensures c * (2 * k) == (2 * c) * k && c * (2 * k) + k == (2 * c + 1) * k
  {
  }

  lemma IsMultiple(r: nat, w: nat, c: nat)
    requires w > 0 && r == c * w
    ensures Multiple(r, w)
  {
  }

  /** One halving step of the search, from a field of 2^(j+1) bits to one of 2^j. */
  lemma ClzStep(x: nat, y: nat, r: nat, j: nat)
    requires ClzPart(x, y, r, Pow2(j + 1))
    ensures Shr(y, Pow2(j)) != 0 ==> ClzPart(x, Shr(y, Pow2(j)), r, Pow2(j))
    ensures Shr(y, Pow2(j)) == 0 ==> ClzPart(x, y, Or(r, Pow2(j)), Pow2(j))
  {
    var k := Pow2(j);
    assert Pow2(j + 1) == 2 * k;
    MultipleStep(r, j);
    BitLenShift(y, k);
    Pow2Add(k, k);
    DivNat(y, Pow2(k));
    hide Multiple, BitLen, Or;
    if Shr(y, k) != 0 { DivRange(y, Pow2(k), 0, Pow2(k)); }
  }

  /** `a_clz_64` of a nonzero word. */
  method Clz64(x: u64) returns (n: int)
    requires x > 0
    ensures n == 64 - BitLen(x)
  {
    var y: nat, r: nat := x, 0;
    TwoTo64();
    assert Pow2(5) == 32 && Pow2(4) == 16 && Pow2(3) == 8 && Pow2(2) == 4 && Pow2(1) == 2 && Pow2(6) == 64;
    assert 0 == 0 * 64;
    assert ClzPart(x, y, r, Pow2(6));
    assert Or(0, 32) == 32;
    hide *;
    ClzStep(x, y, r, 5);
    if Shr(x, 32) != 0 { y := Shr(x, 32); } else { r := 32; }
    ClzStep(x, y, r, 4);
    if Shr(y, 16) != 0 { y := Shr(y, 16); } else { r := Or(r, 16); }
    ClzStep(x, y, r, 3);
    if Shr(y, 8) != 0 { y := Shr(y, 8); } else { r := Or(r, 8); }
    ClzStep(x, y, r, 2);
    if Shr(y, 4) != 0 { y := Shr(y, 4); } else { r := Or(r, 4); }
    ClzStep(x, y, r, 1);
    if Shr(y, 2) != 0 { y := Shr(y, 2); } else { r := Or(r, 2); }
    ClzLast(x, y, r);
    n := Or(r, Flag(Shr(y, 1) == 0));
  }

  lemma ClzLast(x: nat, y: nat, r: nat)
    requires ClzPart(x, y, r, 2)
    ensures Or(r, Flag(Shr(y, 1) == 0)) == 64 - BitLen(x)
  {
    assert Pow2(2) == 4;
    LastBit(y);
    OrFlag(r, Shr(y, 1) == 0);
  }

  lemma LastBit(y: nat)
    requires 0 < y < 4
    ensures 2 - BitLen(y) == Flag(Shr(y, 1) == 0)
  {
    assert Pow2(1) == 2;
    assert BitLen(1) == 1 && BitLen(2) == 2 && BitLen(3) == 2;
    assert y == 1 || y == 2 || y == 3;
  }

  // ----- mul

  /** Schoolbook multiplication of two 54-bit numbers on 32-bit halves: the middle sum does not overflow. */
  method Mul(x: u64, y: u64) returns (hi: u64, lo: u64)
    requires x < 4 * HIDDEN && y < 4 * HIDDEN
    ensures hi * W64 + lo == x * y
  {
    var xlo, xhi := x % W32, x / W32;
    var ylo, yhi := y % W32, y / W32;
    HalfProducts(x, y, xlo, xhi, ylo, yhi);
    var t1: u64 := xlo * ylo;
    var t2: u64 := xlo * yhi + xhi * ylo;
    var t3: u64 := xhi * yhi;
    TwoTo32();
    assert Shl64(t2, 32) == (t2 * W32) % W64 && Shr(t2, 32) == t2 / W32;
    hide Shl64, Shr;
    HighHalf(t2);
    lo := Add64(t1, Shl64(t2, 32));
    CarryOut(t1, (t2 % W32) * W32);
    hi := t3 + Shr(t2, 32) + Flag(t1 > lo);
  }

  lemma HalfProducts(x: nat, y: nat, xlo: nat, xhi: nat, ylo: nat, yhi: nat)
    requires x < 4 * HIDDEN && y < 4 * HIDDEN
    requires x == xhi * W32 + xlo && y == yhi * W32 + ylo && xlo < W32 && ylo < W32
    ensures xlo * ylo <= (W32 - 1) * (W32 - 1) && xlo * yhi < W32 * 0x40_0000 && xhi * ylo < W32 * 0x40_0000
    ensures 0 <= xhi * yhi < 0x1000_0000_0000 && 0 <= xlo * ylo && 0 <= xlo * yhi && 0 <= xhi * ylo
    ensures x * y == xhi * yhi * W64 + (xlo * yhi + xhi * ylo) * W32 + xlo * ylo
  {
    hide *;
    HighBound(x, xlo, xhi);
    HighBound(y, ylo, yhi);
    ProductBound(xlo, ylo, 0xffff_ffff, 0xffff_ffff);
    ProductBound(xlo, yhi, 0xffff_ffff, 0x3f_ffff);
    ProductBound(xhi, ylo, 0x3f_ffff, 0xffff_ffff);
    ProductBound(xhi, yhi, 0x3f_ffff, 0x3f_ffff);
    SplitProduct(xhi, xlo, yhi, ylo);
  }

  lemma HighBound(x: nat, lo: nat, hi: nat)
    requires x < 4 * HIDDEN && x == hi * W32 + lo
    ensures hi <= 0x3f_ffff && W32 == 0x1_0000_0000
  {
  }

  lemma HighHalf(t: u64)
    ensures (t * W32) % W64 == (t % W32) * W32 && t * W32 == t / W32 * W64 + (t % W32) * W32
    ensures 0 <= t / W32 < W32
  {
    DivModSpec(t, W32);
    DivModUnique(t * W32, W64, t / W32, (t % W32) * W32);
  }

  lemma CarryOut(a: u64, b: u64)
    ensures Add64(a, b) + Flag(a > Add64(a, b)) * W64 == a + b
  {
    if a + b < W64 { DivModUnique(a + b, W64, 0, a + b); } else { DivModUnique(a + b, W64, 1, a + b - W64); }
  }

  // ----- multiplication by powers of two, and scalbn

  /** The double 2^k. */
  function PowDouble(k: int): u64
    requires -1022 <= k <= 1023
  {
    (1023 + k) * HIDDEN
  }

  lemma PowDoubleMag(k: int)
    requires -1022 <= k <= 1023
    ensures Finite(PowDouble(k)) && !Negative(PowDouble(k)) && Mag(PowDouble(k)) == Pow2(k + 1074)
  {
    Fields(PowDouble(k), false, 1023 + k, 0);
    TwoTo54();
    Pow2Add(52, 1022 + k);
  }

  /** 2^10 and 2^11 in units of 2^-1074. */
  const UNITS_10: nat := 1084
  const UNITS_11: nat := 1085

  /** A product by 2^k, infinities passing through. */
  function Scale(b: u64, k: int): u64
    requires -1022 <= k <= 1023
  {
    PowDoubleMag(k);
    if Finite(b) then FMul(b, PowDouble(k)) else b
  }

  /** The double (-1)^neg * m, for a magnitude m that needs no rounding (infinity when it is too large). */
  function Exactly(neg: bool, m: nat): u64 { WithSign(neg, MagBits(m)) }

  /** A product whose exact value needs no rounding. */
  lemma FMulExact(neg: bool, m: nat, neg': bool, k: nat, n: nat)
    requires Representable(m) && Representable(k) && Representable(n)
    requires MagBits(m) < INFINITY && MagBits(k) < INFINITY && m * k == n * Pow2(UNIT_EXPONENT)
    ensures Finite(Exactly(neg, m)) && Finite(Exactly(neg', k))
    ensures FMul(Exactly(neg, m), Exactly(neg', k)) == Exactly(neg != neg', n)
  {
    hide RoundMag, Pow2, Representable, MagBits, Mag;
    ExactlyMag(neg, m);
    ExactlyMag(neg', k);
    RoundExact(n, 1074);
  }

  lemma ExactlyMag(neg: bool, m: nat)
    requires Representable(m) && MagBits(m) < INFINITY
    ensures Finite(Exactly(neg, m)) && Mag(Exactly(neg, m)) == m && Negative(Exactly(neg, m)) == neg
  {
    hide Pow2, Representable, MagBits, Mag;
    MagBitsMag(m);
    SignedFields(neg, MagBits(m));
    SignedMag(neg, MagBits(m));
  }

  lemma PowDoubleExactly(k: int)
    requires -1022 <= k <= 1023
    ensures PowDouble(k) == Exactly(false, Pow2(k + 1074))
    ensures Representable(Pow2(k + 1074)) && MagBits(Pow2(k + 1074)) < INFINITY
  {
    TwoTo54();
    Pow2Add(52, k + 1022);
    RepresentableShifted(HIDDEN, k + 1022);
    MagBitsShifted(HIDDEN, k + 1022);
  }

  /** From 2^1024 on, patterns are those of infinity. */
  lemma HugeMagnitude(c: nat, a: nat)
    requires HIDDEN <= c <= 2 * HIDDEN
    ensures a >= 2046 ==> MagBits(c * Pow2(a)) == INFINITY
    ensures a < 2045 ==> MagBits(c * Pow2(a)) < INFINITY
  {
    if c < 2 * HIDDEN {
      MagBitsShifted(c, a);
    } else {
      assert c * Pow2(a) == HIDDEN * Pow2(a + 1);
      MagBitsShifted(HIDDEN, a + 1);
    }
  }

  lemma {:induction false} BitLenScale(n: nat, k: nat)
    requires n > 0
    ensures BitLen(n * Pow2(k)) == BitLen(n) + k
  {
    var l := BitLen(n);
    BitLenBounds(n);
    Pow2Add(l - 1, k);
    Pow2Add(l, k);
    MulMono(Pow2(l - 1), n, Pow2(k));
    MulStrict(n, Pow2(l), Pow2(k));
    BitLenUnique(n * Pow2(k), l + k);
  }

  /** Rounding n / 2^f does not depend on how the fraction is written. */
  lemma RoundMagScale(n: nat, f: nat, k: nat)
    requires n > 0
    ensures RoundMag(n * Pow2(k), f + k) == RoundMag(n, f)
  {
    hide Rne, Pow2, BitLen;
    BitLenScale(n, k);
    RneScale(n, RoundUnit(n, f), k);
  }

  /** An integer rounds to no multiple of 2^s but 0 up to half of 2^s. */
  lemma RneZero(n: nat, s: nat)
    ensures Rne(n, s) == 0 <==> 2 * n <= Pow2(s)
  {
    hide Pow2;
    var p := Pow2(s);
    if n < p { DivModUnique(n, p, 0, n); } else { DivRange(n, p, 1, n + 1); }
  }

  lemma LongIsLarge(n: nat, f: nat)
    requires BitLen(n) > f + 53
    ensures 2 * n > Pow2(f) && RoundUnit(n, f) >= f && 2 * n > Pow2(RoundUnit(n, f))
  {
    hide Pow2;
    assert n > 0;
    BitLenBounds(n);
    Pow2Order(f, BitLen(n) - 1);
    Pow2Order(BitLen(n) - 53, BitLen(n) - 1);
  }

  lemma RoundMagIs(n: nat, f: nat)
    ensures RoundUnit(n, f) >= f && RoundMag(n, f) == Rne(n, RoundUnit(n, f)) * Pow2(RoundUnit(n, f) - f)
    ensures BitLen(n) <= f + 53 ==> RoundUnit(n, f) == f && RoundMag(n, f) == Rne(n, f)
  {
    hide BitLen, Rne;
    TwoTo12();
  }

  /** Up to half a unit, and only there, rounding gives zero. */
  lemma RoundZero(n: nat, f: nat)
    ensures RoundMag(n, f) == 0 <==> 2 * n <= Pow2(f)
  {
    hide *;
    RoundMagIs(n, f);
    RneZero(n, f);
    var u := RoundUnit(n, f);
    if BitLen(n) > f + 53 {
      LongIsLarge(n, f);
      RneZero(n, u);
      MulCancel(0, Rne(n, u), Pow2(u - f));
    }
  }

  /** Far below half a unit everything rounds to zero. */
  lemma RoundsToZero(c: nat, t: nat)
    requires c <= 2 * HIDDEN && t >= 55
    ensures RoundMag(c, t) == 0
  {
    hide *;
    TwoTo54();
    HiddenValue();
    Pow2Order(54, t);
    RoundZero(c, t);
  }

  lemma HiddenValue()
    ensures HIDDEN == 0x10_0000_0000_0000 && EXP_MAX == 2047 && UNIT_EXPONENT == 1074 && UNITS_10 == 1084
    ensures INFINITY == 2047 * HIDDEN
  {
  }

  /** What `scalbn` delivers for m * 2^n: exact above the smallest unit, rounded once below it. */
  function Scaled(neg: bool, m: nat, n: int): u64
  {
    if n >= 0 then Exactly(neg, m * Pow2(n)) else RoundBits(neg, m, -n)
  }

  lemma ScaledIs(neg: bool, m: nat, n: int)
    ensures n >= 0 ==> Scaled(neg, m, n) == Exactly(neg, m * Pow2(n))
    ensures n < 0 ==> Scaled(neg, m, n) == Exactly(neg, RoundMag(m, -n))
  {
  }

  /** The magnitudes of finite doubles. */
  ghost predicate Doubles(m: nat) { Representable(m) && m < HIDDEN * Pow2(2046) }

  lemma DoublesMeans(m: nat)
    requires Doubles(m)
    ensures Representable(m) && MagBits(m) < INFINITY && m < Pow2(2098)
  {
    hide *;
    DoublesIs(m);
    FiniteBits(m);
    TwoTo54();
    HiddenValue();
    Pow2Add(52, 2046);
  }

  lemma DoublesIs(m: nat)
    ensures Doubles(m) <==> Representable(m) && m < HIDDEN * Pow2(2046)
  {
  }

  /** Shifting a representable magnitude to the left keeps it so. */
  lemma RepresentableTimes(m: nat, k: nat)
    requires Representable(m)
    ensures Representable(m * Pow2(k))
  {
    hide Pow2;
    TwoTo52();
    if BitLen(m) <= 53 {
      if m > 0 { BitLenBounds(m); Pow2Order(BitLen(m), 53); }
      RepresentableScaled(m, k);
    } else {
      var j := BitLen(m) - 53;
      TopBits(m, j);
      DivModSpec(m, Pow2(j));
      var s: nat := m / Pow2(j);
      ScaledPow2(s, j, k);
      RepresentableScaled(s, j + k);
    }
  }

  /** A product with a power of two that needs no rounding, and one that is rounded once. */
  lemma ScaleOnce(neg: bool, m: nat, k: int)
    requires Doubles(m) && -1022 <= k <= 1023
    ensures Scale(Exactly(neg, m), k) == Scaled(neg, m, k)
  {
    hide *;
    DoublesMeans(m);
    ExactlyMag(neg, m);
    PowDoubleMag(k);
    ScaleIs(Exactly(neg, m), k);
    ScaledIs(neg, m, k);
    if k >= 0 {
      RepresentableTimes(m, k);
      ScaledPow2(m, k, 1074);
      RoundExact(m * Pow2(k), 1074);
    } else if m > 0 {
      RoundMagScale(m, -k, 1074 + k);
    } else {
      RoundZero(0, -k);
      RoundZero(0, 1074);
    }
  }

  lemma ScaleIs(b: u64, k: int)
    requires -1022 <= k <= 1023
    ensures !Finite(b) ==> Scale(b, k) == b
    ensures Finite(b) ==> Finite(PowDouble(k))
    ensures Finite(b) ==> Scale(b, k) == Exactly(Negative(b), RoundMag(Mag(b) * Mag(PowDouble(k)), 1074))
  {
    hide RoundMag, Mag, MagBits;
    PowDoubleMag(k);
  }

  // ----- upwards: exact, or infinite

  /** The patterns of magnitudes from 2^2098 on are those of infinity. */
  lemma InfiniteBits(m: nat)
    ensures MagBits(m) == INFINITY <==> BitLen(m) >= 2099
    ensures MagBits(m) < INFINITY ==> m < Pow2(2098)
    ensures BitLen(m) < 2099 ==> m < Pow2(2098)
  {
    hide Pow2;
    TwoTo52();
    if m > 0 {
      BitLenBounds(m);
      Pow2Order(BitLen(m), 2098);
      Pow2Order(53, BitLen(m));
    }
    Pow2Order(0, 2098);
    if m < HIDDEN {
      BitLenAtMost(m, 52);
    } else {
      BitLenAtLeast(m, 52);
      var e := BitLen(m) - 52;
      if e < EXP_MAX { TopBits(m, e - 1); }
    }
  }

  lemma StaysInfinite(neg: bool, m: nat, k: nat, n: nat)
    requires BitLen(m) >= 2099
    ensures Exactly(neg, m * Pow2(n)) == Exactly(neg, m) && !Finite(Exactly(neg, m))
  {
    hide Pow2, MagBits, BitLen;
    assert m > 0 by { EmptyLength(); }
    BitLenScale(m, n);
    InfiniteBits(m);
    InfiniteBits(m * Pow2(n));
    Fields(WithSign(neg, INFINITY), neg, 2047, 0);
  }

  lemma EmptyLength()
    ensures BitLen(0) == 0
  {
  }

  /** Scaling up further, infinities included. */
  lemma ScaleAgain(neg: bool, m: nat, a: nat, k: nat)
    requires Doubles(m) && k <= 1023
    ensures Scale(Exactly(neg, m * Pow2(a)), k) == Exactly(neg, m * Pow2(a + k))
  {
    hide *;
    DoublesMeans(m);
    RepresentableTimes(m, a);
    ScaledPow2(m, a, k);
    InfiniteBits(m * Pow2(a));
    if BitLen(m * Pow2(a)) >= 2099 {
      StaysInfinite(neg, m * Pow2(a), 0, k);
      ScaleIs(Exactly(neg, m * Pow2(a)), k);
    } else {
      HiddenValue();
      TwoTo54();
      Pow2Add(52, 2046);
      DoublesIs(m * Pow2(a));
      ScaleOnce(neg, m * Pow2(a), k);
      ScaledIs(neg, m * Pow2(a), k);
    }
  }

  /** Beyond 3069 places nothing changes any more. */
  lemma ClampUp(neg: bool, m: nat, n: nat)
    requires n >= 3069
    ensures Exactly(neg, m * Pow2(3069)) == Exactly(neg, m * Pow2(n))
  {
    hide *;
    if m == 0 {
      ZeroProducts(3069, n);
    } else {
      BitLenScale(m, 3069);
      ScaledPow2(m, 3069, n - 3069);
      StaysInfinite(neg, m * Pow2(3069), 0, n - 3069);
    }
  }

  lemma ZeroProducts(a: nat, b: nat)
    ensures 0 * Pow2(a) == 0 && 0 * Pow2(b) == 0
  {
  }

  // ----- downwards: the first product is exact, or everything vanishes

  /** What a product with 2^-969 leaves. */
  lemma Down(m: nat)
    requires Doubles(m)
    ensures Doubles(RoundMag(m, 969))
    ensures RoundMag(m, 969) * Pow2(969) == m || (RoundMag(m, 969) <= 2 * HIDDEN && 2 * m <= Pow2(1023))
  {
    hide *;
    DoublesMeans(m);
    DoublesIs(m);
    RoundRepresentable(m, 969);
    DoublesIs(RoundMag(m, 969));
    RoundMagIs(m, 969);
    if BitLen(m) > 1022 {
      var j := BitLen(m) - 53;
      DividesUnit(m, j);
      var s := m / Pow2(j);
      DivModSpec(m, Pow2(j));
      DivNat(m, Pow2(j));
      ScaledPow2(s, j - 969, 969);
      ScaledFactor(s, j - 969);
      RoundExact(s * Pow2(j - 969), 969);
      MulMono(1, Pow2(969), s * Pow2(j - 969));
    } else {
      RneSmall(m, 969);
      ShortIsSmall(m);
    }
  }

  lemma DividesUnit(m: nat, j: nat)
    requires Representable(m) && BitLen(m) == j + 53 && j > 0
    ensures m % Pow2(j) == 0 && 0 <= m / Pow2(j) < 2 * HIDDEN
  {
    TopBits(m, j);
  }

  lemma ScaledFactor(s: nat, k: nat)
    requires s < 2 * HIDDEN
    ensures 0 <= s * Pow2(k) && Representable(s * Pow2(k))
  {
    RepresentableScaled(s, k);
  }

  lemma ShortIsSmall(m: nat)
    requires BitLen(m) <= 1022
    ensures 2 * m <= Pow2(1023) && 2 * HIDDEN < HIDDEN * Pow2(2046)
  {
    hide *;
    HiddenValue();
    TwoTo12();
    Pow2Order(2, 2046);
    PowDoubles(1);
    MulMono(4, Pow2(2046), HIDDEN);
    PowDoubles(1022);
    if m > 0 {
      BitLenBounds(m);
      Pow2Order(BitLen(m), 1022);
    }
  }

  /** Two roundings on the way down are one. */
  lemma Compose(m: nat, t: nat)
    requires Doubles(m) && t >= 54
    ensures RoundMag(RoundMag(m, 969), t) == RoundMag(m, 969 + t)
  {
    hide *;
    Down(m);
    var m' := RoundMag(m, 969);
    RoundZero(m', t);
    RoundZero(m, 969 + t);
    if m' * Pow2(969) == m && m' > 0 {
      RoundMagScale(m', t, 969);
    } else if m' * Pow2(969) == m {
      ZeroProducts(969, 969);
    } else {
      HiddenValue();
      TwoTo54();
      Pow2Order(54, t);
      Pow2Order(1023, 969 + t);
    }
  }

  /** Beyond 2960 places nothing is left. */
  lemma ClampDown(m: nat, t: nat)
    requires Doubles(m) && t >= 2960
    ensures RoundMag(m, t) == 0
  {
    hide *;
    DoublesMeans(m);
    PowDoubles(2098);
    Pow2Order(2099, t);
    RoundZero(m, t);
  }

  lemma MagDoubles(x: u64)
    requires Finite(x)
    ensures Doubles(Mag(x)) && x == Exactly(Negative(x), Mag(x))
  {
    hide *;
    MagRepresentable(x);
    FiniteMagBound(x);
    DoublesIs(Mag(x));
    PatternOf(x);
  }

  lemma PatternOf(x: u64)
    requires Finite(x) && MagBits(Mag(x)) == Abs(x)
    ensures x == Exactly(Negative(x), Mag(x))
  {
    hide Mag, MagBits;
    FieldsOf(x);
  }

  /** `scalbn`: m * 2^n, rounded once if at all; infinities and NaNs stay what they are. */
  method Scalbn(x: u64, n0: int) returns (z: u64)
    ensures Finite(x) ==> z == Scaled(Negative(x), Mag(x), n0)
    ensures !Finite(x) ==> z == x
  {
    hide *;
    var y, n := x, n0;
    if n > 1023 {
      if Finite(x) { Upwards(x, n0); }
      if !Finite(x) { ScaleIs(x, 1023); }
      y := Scale(y, 1023);
      n := n - 1023;
      if n > 1023 {
        y := Scale(y, 1023);
        n := n - 1023;
        if n > 1023 { n := 1023; }
      }
    } else if n < -1022 {
      if Finite(x) { Downwards(x, n0); }
      if !Finite(x) { ScaleIs(x, -969); }
      y := Scale(y, -969);
      n := n + 969;
      if n < -1022 {
        y := Scale(y, -969);
        n := n + 969;
        if n < -1022 { n := -1022; }
      }
    } else if Finite(x) {
      MagDoubles(x);
      ScaleOnce(Negative(x), Mag(x), n);
    }
    if !Finite(x) { ScaleIs(x, n); }
    z := Scale(y, n);
  }

  /** The three ways up. */
  lemma Upwards(x: u64, n: int)
    requires Finite(x) && n > 1023
    ensures n <= 2046 ==> Scale(Scale(x, 1023), n - 1023) == Scaled(Negative(x), Mag(x), n)
    ensures 2046 < n <= 3069 ==>
              Scale(Scale(Scale(x, 1023), 1023), n - 2046) == Scaled(Negative(x), Mag(x), n)
    ensures n > 3069 ==> Scale(Scale(Scale(x, 1023), 1023), 1023) == Scaled(Negative(x), Mag(x), n)
  {
    hide *;
    MagDoubles(x);
    var neg, m := Negative(x), Mag(x);
    ScaleOnce(neg, m, 1023);
    ScaledIs(neg, m, 1023);
    ScaledIs(neg, m, n);
    if n <= 2046 {
      ScaleAgain(neg, m, 1023, n - 1023);
    } else {
      ScaleAgain(neg, m, 1023, 1023);
      if n <= 3069 {
        ScaleAgain(neg, m, 2046, n - 2046);
      } else {
        ScaleAgain(neg, m, 2046, 1023);
        ClampUp(neg, m, n);
      }
    }
  }

  /** The three ways down. */
  lemma Downwards(x: u64, n: int)
    requires Finite(x) && n < -1022
    ensures n >= -1991 ==> Scale(Scale(x, -969), n + 969) == Scaled(Negative(x), Mag(x), n)
    ensures -2960 <= n < -1991 ==>
              Scale(Scale(Scale(x, -969), -969), n + 1938) == Scaled(Negative(x), Mag(x), n)
    ensures n < -2960 ==> Scale(Scale(Scale(x, -969), -969), -1022) == Scaled(Negative(x), Mag(x), n)
  {
    hide *;
    MagDoubles(x);
    var neg, m := Negative(x), Mag(x);
    ScaleOnce(neg, m, -969);
    ScaledIs(neg, m, -969);
    ScaledIs(neg, m, n);
    Down(m);
    var m1 := RoundMag(m, 969);
    if n >= -1991 {
      ScaleOnce(neg, m1, n + 969);
      ScaledIs(neg, m1, n + 969);
      Compose(m, -n - 969);
    } else {
      ScaleOnce(neg, m1, -969);
      ScaledIs(neg, m1, -969);
      Down(m1);
      var m2 := RoundMag(m1, 969);
      var k := if n >= -2960 then n + 1938 else -1022;
      ScaleOnce(neg, m2, k);
      ScaledIs(neg, m2, k);
      Compose(m1, -k);
      Compose(m, 969 - k);
      if n < -2960 {
        ClampDown(m, 1938 - k);
        ClampDown(m, -n);
      }
    }
  }

  /** Scaling an integer in place a, in terms of the integer. */
  lemma ScaledPlace(neg: bool, c: nat, a: nat, n: int)
    requires 0 < c <= 2 * HIDDEN
    ensures Scaled(neg, c * Pow2(a), n) == Scaled(neg, c, a + n)
  {
    hide *;
    ScaledIs(neg, c * Pow2(a), n);
    ScaledIs(neg, c, a + n);
    if n >= 0 {
      ScaledPow2(c, a, n);
    } else if a + n >= 0 {
      ScaledPow2(c, a + n, -n);
      RepresentableScaled(c, a + n);
      RoundExact(c * Pow2(a + n), -n);
    } else {
      RoundMagScale(c, -(a + n), a);
    }
  }

  /** `scalbn` of an integer c * 2^10 with c of 53 significant bits. */
  method ScaleInteger(x: u64, n: int, ghost neg: bool, ghost c: nat) returns (z: u64)
    requires HIDDEN <= c <= 2 * HIDDEN && x == Exactly(neg, c * Pow2(UNITS_10))
    ensures z == Scaled(neg, c, n + 1084)
  {
    hide *;
    HiddenValue();
    HugeMagnitude(c, UNITS_10);
    RepresentableScaled(c, UNITS_10);
    ExactlyMag(neg, c * Pow2(UNITS_10));
    ScaledPlace(neg, c, UNITS_10, n);
    z := Scalbn(x, n);
  }
}
