/** `remquo`: the IEEE remainder together with the low 31 bits of the rounded quotient. */
module Remquo {
  import opened Words
  import opened Ieee
  import opened LongDivision

  /** The integer nearest a / b, ties to even. */
  function NearestQuotient(a: nat, b: nat): nat
    requires b > 0
  {
    DivNat(a, b);
    NearerOf(a / b, a % b, b)
  }

  /** No integer multiple of b is nearer to a; if another is as near, the quotient chosen is even. */
  lemma QuotientIsNearest(a: nat, b: nat, j: int)
    requires b > 0
    ensures Dist(NearestQuotient(a, b) * b, a) <= Dist(j * b, a)
    ensures j != NearestQuotient(a, b) && Dist(NearestQuotient(a, b) * b, a) == Dist(j * b, a)
            ==> NearestQuotient(a, b) % 2 == 0
  {
    DivModSpec(a, b);
    DivNat(a, b);
    NearestMultiple(a, b, a / b, a % b, NearestQuotient(a, b), j);
  }

  /** The 32 bits of a quotient that the code keeps. */
  function LowWord(n: nat): u32 { n % W32 }

  /**
    r = x - n * y for the nearest quotient n of x and y, a zero with the sign of x, and quo has the sign of n
    and its low 31 bits.
   */
  ghost predicate IeeeRemainder(x: u64, y: u64, r: Outcome, quo: int)
    requires Finite(x) && Finite(y) && Mag(y) > 0
  {
    var n := NearestQuotient(Mag(x), Mag(y));
    var neg := Negative(x) != Negative(y);
    && r.Number? && Finite(r.bits)
    && Val(r.bits) == Val(x) - Signed(neg, n) * Val(y)
    && (Val(r.bits) == 0 ==> Negative(r.bits) == Negative(x))
    && quo == Signed(neg, n % 0x8000_0000)
  }

  /** The division loop keeps u0 * 2^(ex - ey) = (q * v + u) * 2^(e - ey); the code keeps q modulo 2^32. */
  method Divide(u0: u64, v: u64, ex: int, ey: int) returns (u: u64, q: u32, ghost n: nat)
    requires HIDDEN <= u0 < 2 * HIDDEN && HIDDEN <= v < 2 * HIDDEN && ex >= ey
    ensures u < v && u0 * Pow2(ex - ey) == n * v + u && q == LowWord(n)
  {
    u, q, n := u0, 0, 0;
    var e := ex;
    ghost var total := u0 * Pow2(ex - ey);
    assert n * v == 0;
    hide Pow2, Sub64, Shr, Shl64;
    while e > ey
      invariant ey <= e <= ex && 0 <= u < 2 * v && (n * v + u) * Pow2(e - ey) == total && q == LowWord(n)
      decreases e - ey
    {
      SubBorrow(u, v);
      var i := Sub64(u, v);
      if Shr(i, 63) == 0 {
        u := i;
        WrapIncrement(n);
        assert (n + 1) * v == n * v + v;
        q := Add32(q, 1);
        n := n + 1;
      }
      ShlOne(u);
      WrapDouble(n);
      ShiftTotal(n, v, u, e - ey);
      u := Shl64(u, 1);
      q := Shl32(q, 1);
      n := 2 * n;
      e := e - 1;
    }
    TwoTo12();
    SubBorrow(u, v);
    var i := Sub64(u, v);
    if Shr(i, 63) == 0 {
      u := i;
      WrapIncrement(n);
      assert (n + 1) * v == n * v + v;
      q := Add32(q, 1);
      n := n + 1;
    }
  }

  lemma WrapIncrement(n: nat)
    ensures Add32(LowWord(n), 1) == LowWord(n + 1)
  {
  }

  lemma WrapDouble(n: nat)
    ensures Shl32(LowWord(n), 1) == LowWord(2 * n)
  {
    assert Pow2(1) == 2;
    var k, r := n / W32, n % W32;
    assert 2 * n == 2 * r + (2 * k) * W32;
    ModAddMultiple(2 * r, 2 * k, W32);
  }

  lemma ShiftTotal(n: nat, v: nat, u: nat, k: nat)
    requires k > 0
    ensures (2 * n * v + 2 * u) * Pow2(k - 1) == (n * v + u) * Pow2(k)
  {
    assert Pow2(k) == 2 * Pow2(k - 1);
    assert 2 * n * v + 2 * u == 2 * (n * v + u);
  }

  // ----- rounding the quotient

  /** Doubling is exact, up to the overflow to infinity. */
  lemma TwiceExact(b: u64, u: nat, e: int)
    requires Finite(b) && !Negative(b) && Normal(b, u, e)
    ensures e < 2046 ==> Finite(Twice(b)) && !Negative(Twice(b)) && Mag(Twice(b)) == 2 * Mag(b)
    ensures e == 2046 ==> Twice(b) == INFINITY
  {
    DoubledRepresentable(b, u, e);
    var m := 2 * Mag(b);
    if e < 2046 {
      RoundBitsExact(false, m);
    } else {
      TwoTo54();
      RoundExact(m, 0);
      assert m * Pow2(0) == m;
      ShiftedBitLen(u, 2046);
    }
  }

  lemma DoubledRepresentable(b: u64, u: nat, e: int)
    requires Finite(b) && Normal(b, u, e)
    ensures Representable(2 * Mag(b))
    ensures e < 2046 ==> MagBits(2 * Mag(b)) < INFINITY
    ensures e > 0 ==> 2 * Mag(b) == u * Pow2(e)
  {
    hide *;
    NormalBounds(b, u, e);
    if e > 0 {
      PositiveExponent(b, u, e);
      ScaledPow2(u, e - 1, 1);
      TwoTo12();
      RepresentableScaled(u, e);
      if e < 2046 { FiniteBinade(u, e); }
    } else {
      SmallMagnitude(b, u, e);
      SmallDoubled(Mag(b));
    }
  }

  lemma FiniteBinade(u: nat, e: nat)
    requires HIDDEN <= u < 2 * HIDDEN && e < 2046
    ensures MagBits(u * Pow2(e)) < INFINITY
  {
    hide MagBits, Pow2;
    MagBitsShifted(u, e);
  }

  lemma SmallDoubled(m: nat)
    requires m < HIDDEN
    ensures Representable(2 * m) && MagBits(2 * m) < INFINITY
  {
    hide *;
    WordSigns();
    TwoTo12();
    RepresentableScaled(2 * m, 0);
    Pow2Mono(1, 2046);
    MulMono(2, Pow2(2046), HIDDEN);
    FiniteBits(2 * m);
  }

  lemma PositiveExponent(b: u64, u: nat, e: int)
    requires Finite(b) && Normal(b, u, e) && e > 0
    ensures Mag(b) == u * Pow2(e - 1)
  {
    hide Mag, Pow2;
    ScaledPow2(u, e - 1, 60);
    MulCancel(Mag(b), u * Pow2(e - 1), Pow2(60));
  }

  /** An exponent of at most 0 belongs to a subnormal. */
  lemma SmallMagnitude(b: u64, u: nat, e: int)
    requires Finite(b) && Normal(b, u, e) && e <= 0
    ensures Mag(b) < HIDDEN
  {
    Pow2Mono(e + 59, 59);
    assert Pow2(60) == 2 * Pow2(59);
    hide *;
    NormalBounds(b, u, e);
    HalfBinade(Mag(b), u, Pow2(e + 59), Pow2(59));
  }

  lemma HalfBinade(x: nat, u: nat, p: nat, q: nat)
    requires 0 < p <= q && x * (2 * q) == u * p && u < 2 * HIDDEN
    ensures x < HIDDEN
  {
    MulStrict(u, 2 * HIDDEN, p);
    MulMono(p, q, 2 * HIDDEN);
    assert (2 * HIDDEN) * p == p * (2 * HIDDEN) && (2 * HIDDEN) * q == HIDDEN * (2 * q);
    assert q * (2 * HIDDEN) == HIDDEN * (2 * q);
    MulCancel(x, HIDDEN, 2 * q);
  }

  /** The difference of a divisor and a remainder of at least half of it is representable. */
  lemma DifferenceExact(b: u64, y: u64, u: nat, ex: int, v: nat, ey: int)
    requires Finite(b) && Finite(y) && Normal(b, u, ex) && Normal(y, v, ey) && ey - 1 <= ex <= ey
    requires Mag(b) < Mag(y) <= 2 * Mag(b)
    ensures Representable(Mag(y) - Mag(b)) && MagBits(Mag(y) - Mag(b)) < INFINITY
  {
    hide *;
    var d := Mag(y) - Mag(b);
    WordSigns();
    NormalBounds(b, u, ex);
    NormalBounds(y, v, ey);
    FiniteMagBound(y);
    FiniteBits(d);
    TwoTo12();
    if ex <= 0 {
      SmallMagnitude(b, u, ex);
      RepresentableScaled(d, 0);
    } else {
      PositiveExponent(b, u, ex);
      var w := CommonExponent(y, v, ey, ex);
      FactoredDifference(u, w, Pow2(ex - 1));
      RepresentableScaled(w - u, ex - 1);
    }
  }

  lemma CommonExponent(y: u64, v: nat, ey: int, ex: int) returns (w: nat)
    requires Finite(y) && Normal(y, v, ey) && 0 < ex <= ey <= ex + 1
    ensures Mag(y) == w * Pow2(ex - 1)
  {
    PositiveExponent(y, v, ey);
    w := v;
    if ey == ex + 1 {
      w := 2 * v;
      assert Pow2(ey - 1) == 2 * Pow2(ex - 1);
    }
  }

  lemma FactoredDifference(u: nat, w: nat, p: nat)
    requires p > 0 && u * p < w * p <= 2 * (u * p)
    ensures 0 < w - u <= u && w * p - u * p == (w - u) * p
  {
    assert 2 * (u * p) == (2 * u) * p;
    MulCancel(u, w, p);
    MulCancel(w, 2 * u, p);
  }

  /** The test of line 76 for a remainder b at exponent ex, with the divisor's absolute value ya. */
  function RoundsUp(b: u64, ya: u64, ex: int, ey: int, q: u32): bool
    requires Finite(b)
  {
    ex == ey || (ex + 1 == ey && (Twice(b) > ya || (Twice(b) == ya && q % 2 == 1)))
  }

  /** Zero with the exponent the source gives it, or a normalised remainder. */
  ghost predicate Remains(b: u64, u: nat, ex: int)
    requires Finite(b)
  {
    !Negative(b) && ((Mag(b) == 0 && ex == -60) || Normal(b, u, ex))
  }

  /** Comparing exponents, and doubles only when they are adjacent, compares 2 * remainder with the divisor. */
  lemma RoundsUpCorrect(b: u64, y: u64, u: nat, ex: int, v: nat, ey: int, q: u32)
    requires Finite(b) && Finite(y) && Remains(b, u, ex) && Normal(y, v, ey) && Mag(b) < Mag(y)
    ensures ex <= ey
    ensures RoundsUp(b, Abs(y), ex, ey, q) <==> 2 * Mag(b) > Mag(y) || (2 * Mag(b) == Mag(y) && q % 2 == 1)
    ensures RoundsUp(b, Abs(y), ex, ey, q) ==> Normal(b, u, ex) && ey - 1 <= ex && Mag(y) <= 2 * Mag(b)
  {
    if Normal(b, u, ex) {
      if ey < ex { ExponentOrder(y, b, v, ey, u, ex); }
      if ex + 1 < ey {
        ExponentOrder(b, y, u, ex, v, ey);
      } else if ex == ey {
        SameExponent(Mag(b), Mag(y), Pow2(60), u, v, Pow2(ex + 59));
      } else if ex + 1 == ey {
        TwiceExact(b, u, ex);
        FieldsOf(y);
        MagOrder(Twice(b), y);
        FieldsOf(Twice(b));
      }
    }
  }

  lemma SameExponent(x: nat, y: nat, c: nat, u: nat, v: nat, p: nat)
    requires c > 0 && p > 0 && x * c == u * p && y * c == v * p && v < 2 * HIDDEN <= 2 * u
    ensures 2 * x > y
  {
    MulStrict(v, 2 * u, p);
    assert (2 * u) * p == 2 * (u * p);
    assert (2 * x) * c == 2 * (x * c);
    MulCancel(y, 2 * x, c);
  }

  /** `x -= y` on doubles is exact here. */
  lemma SubtractExact(b: u64, y: u64, u: nat, ex: int, v: nat, ey: int)
    requires Finite(b) && Finite(y) && !Negative(b) && Normal(b, u, ex) && Normal(y, v, ey) && ey - 1 <= ex <= ey
    requires Mag(b) < Mag(y) <= 2 * Mag(b)
    ensures Finite(Negate(Abs(y))) && Finite(FAdd(b, Negate(Abs(y))))
    ensures Val(FAdd(b, Negate(Abs(y)))) == Mag(b) - Mag(y)
  {
    FieldsOf(y);
    SignedFields(Negative(y), Abs(y));
    NegateVal(Abs(y));
    DifferenceExact(b, y, u, ex, v, ey);
    var d := Mag(y) - Mag(b);
    hide Mag, Representable, MagBits;
    assert FAdd(b, Negate(Abs(y))) == RoundBits(true, d, 0) by {
      AbsMag(y);
    }
    RoundBitsExact(true, d);
  }

  lemma AbsMag(y: u64)
    requires Finite(y)
    ensures Finite(Abs(y)) && Mag(Abs(y)) == Mag(y) && !Negative(Abs(y))
  {
    FieldsOf(y);
  }

  ghost predicate Division(a: nat, m: nat, n: nat, r: nat)
  {
    r < m && n == a / m && r == a % m
  }

  /** z is a minus the nearest multiple of m, and q the low word of the quotient. */
  ghost predicate Rounded(a: nat, m: nat, z: int, q: u32)
  {
    m > 0 && z == a - NearestQuotient(a, m) * m && q == LowWord(NearestQuotient(a, m))
  }

  lemma RoundedCases(a: nat, m: nat, n: nat, r: nat)
    requires Division(a, m, n, r)
    ensures 2 * r > m || (2 * r == m && LowWord(n) % 2 == 1) ==> Rounded(a, m, r - m, Add32(LowWord(n), 1))
    ensures !(2 * r > m || (2 * r == m && LowWord(n) % 2 == 1)) ==> Rounded(a, m, r, LowWord(n))
  {
    DivModSpec(a, m);
    WordParity(n);
    WrapIncrement(n);
    assert (n + 1) * m == n * m + m;
  }

  lemma WordParity(n: int)
    ensures n % W32 % 2 == n % 2
  {
    DivModSpec(n, W32);
    ModAddMultiple(n % W32, n / W32 * 0x8000_0000, 2);
  }

  lemma DivisionBelow(a: nat, m: nat, n: nat, r: nat)
    requires Division(a, m, n, r)
    ensures r < m
  {
  }

  lemma AbsoluteValue(y: u64)
    ensures (if Negative(y) then Negate(y) else y) == Abs(y)
  {
  }

  lemma RemainsVal(b: u64, u: nat, ex: int)
    requires Finite(b) && Remains(b, u, ex)
    ensures !Negative(b) && Val(b) == Mag(b)
  {
  }

  /** Line 76: `x -= y; q++` when the quotient rounds up. */
  method RoundRemainder(b: u64, y: u64, ex: int, ey: int, q0: u32,
                        ghost a: nat, ghost n: nat, ghost u: nat, ghost v: nat)
      returns (z: u64, q: u32)
    requires Finite(y) && Finite(b) && Remains(b, u, ex) && Normal(y, v, ey)
    requires Division(a, Mag(y), n, Mag(b)) && q0 == LowWord(n)
    ensures Finite(z) && Rounded(a, Mag(y), Val(z), q) && (Val(z) == 0 ==> !Negative(z))
  {
    z, q := b, q0;
    var ya := if Negative(y) then Negate(y) else y;
    hide *;
    AbsoluteValue(y);
    RemainsVal(b, u, ex);
    RoundedCases(a, Mag(y), n, Mag(b));
    DivisionBelow(a, Mag(y), n, Mag(b));
    RoundsUpCorrect(b, y, u, ex, v, ey, q);
    if RoundsUp(b, ya, ex, ey, q) {
      SubtractExact(b, y, u, ex, v, ey);
      z := FAdd(z, Negate(ya));
      q := Add32(q, 1);
    }
  }

  /** Lines 80-82: mask the quotient and put the signs back. */
  method ApplySigns(x: u64, y: u64, z: u64, q0: u32) returns (r: u64, quo: int)
    requires Finite(x) && Finite(y) && Finite(z) && Rounded(Mag(x), Mag(y), Val(z), q0)
    requires Val(z) == 0 ==> !Negative(z)
    ensures Mag(y) > 0 && IeeeRemainder(x, y, Number(r), quo)
  {
    hide Mag, And, Val, Rounded, Negate, Negative, IeeeRemainder, Finite, Abs;
    NegateVal(z);
    AndMaskWord(q0);
    var w: int := And(q0, 0x7fff_ffff);
    quo := if Negative(x) != Negative(y) then -w else w;
    r := if Negative(x) then Negate(z) else z;
    SignsApplied(x, y, Val(z), q0, r, quo);
  }

  lemma AndMaskWord(q: u32)
    ensures And(q, 0x7fff_ffff) < 0x8000_0000
  {
    TwoTo32();
    AndMask(q, 31);
  }

  lemma SignsApplied(x: u64, y: u64, z: int, q: u32, r: u64, quo: int)
    requires Finite(x) && Finite(y) && Finite(r) && Rounded(Mag(x), Mag(y), z, q)
    requires Val(r) == Signed(Negative(x), z) && quo == Signed(Negative(x) != Negative(y), And(q, 0x7fff_ffff))
    requires z == 0 ==> Negative(r) == Negative(x)
    ensures Mag(y) > 0 && IeeeRemainder(x, y, Number(r), quo)
  {
    var a, m, c := Mag(x), Mag(y), NearestQuotient(Mag(x), Mag(y));
    var sx, sy := Negative(x), Negative(y);
    MaskQuotient(c);
    SignedRemainder(sx, sy, z, a, c, m);
    assert Val(x) == Signed(sx, a) && Val(y) == Signed(sy, m);
    SignedZero(sx, z);
    hide Mag, NearestQuotient, Val, Signed, And;
  }

  lemma SignedZero(neg: bool, z: int)
    ensures Signed(neg, z) == 0 <==> z == 0
  {
  }

  lemma MaskQuotient(c: nat)
    ensures And(c % W32, 0x7fff_ffff) == c % 0x8000_0000
  {
    TwoTo32();
    AndMask(c % W32, 31);
    DivDiv(c, 0x8000_0000, 2);
    DivModUnique(c % W32, 0x8000_0000, c / 0x8000_0000 % 2, c % 0x8000_0000);
  }

  lemma SignedRemainder(sx: bool, sy: bool, z: int, a: int, c: int, m: int)
    requires z == a - c * m
    ensures Signed(sx, z) == Signed(sx, a) - Signed(sx != sy, c) * Signed(sy, m)
  {
    var p := c * m;
    assert (-c) * m == -p && (-c) * (-m) == p && c * (-m) == -p;
  }

  /** `remquo`.  The NaN cases are the value of `(x*y)/(x*y)` there. */
  method Remquo(x: u64, y: u64) returns (r: Outcome, quo: int)
    ensures IsNaN(y) || Abs(y) == 0 || !Finite(x) ==> r == NotANumber && quo == 0
    ensures Finite(x) && Abs(y) == INFINITY ==> r == Number(x) && quo == 0
    ensures Finite(x) && Finite(y) && Abs(y) != 0 ==> Mag(y) > 0 && IeeeRemainder(x, y, r, quo)
  {
    ShlOne(x);
    ShlOne(y);
    FieldsOf(x);
    FieldsOf(y);
    if Shl64(y, 1) == 0 || IsNaN(y) || ExpField(x) == 0x7ff { return NotANumber, 0; }
    if Finite(y) { PositiveMag(y); }
    if Shl64(x, 1) == 0 {
      if Finite(y) { ZeroDividend(x, y); }
      return Number(x), 0;
    }
    if Finite(y) {
      r, quo := FiniteRemquo(x, y);
    } else {
      r, quo := InfiniteDivisor(x, y);
    }
  }

  lemma ZeroDividend(x: u64, y: u64)
    requires Finite(x) && Finite(y) && Abs(x) == 0 && Mag(y) > 0
    ensures IeeeRemainder(x, y, Number(x), 0)
  {
    FieldsOf(x);
    DivModUnique(0, Mag(y), 0, 0);
  }

  /** The body from the normalisation on, for a finite divisor. */
  method FiniteRemquo(x: u64, y: u64) returns (r: Outcome, quo: int)
    requires Finite(x) && Finite(y) && Abs(x) != 0 && Abs(y) != 0 && Mag(y) > 0
    ensures IeeeRemainder(x, y, r, quo)
  {
    assert LowWord(0) == 0;
    hide *;
    var u, ex := Normalize(x);
    var v, ey := Normalize(y);
    var b: u64, q: u32 := 0, 0;
    ghost var w: nat, n: nat := u, 0;
    if ex < ey && ex + 1 != ey {
      FarBelow(x, y, u, ex, v, ey);
      return Number(x), 0;
    }
    if ex < ey {
      b := PackOperand(x, u, ex);
      BelowDivisor(x, y, u, ex, v, ey);
    } else {
      b, q, ex, n, w := DivideOperands(x, y, u, ex, v, ey);
    }
    var z;
    z, q := RoundRemainder(b, y, ex, ey, q, Mag(x), n, w, v);
    var s;
    s, quo := ApplySigns(x, y, z, q);
    r := Number(s);
  }

  /** An exponent two below the divisor's: the quotient rounds to zero. */
  lemma FarBelow(x: u64, y: u64, u: nat, ex: int, v: nat, ey: int)
    requires Finite(x) && Finite(y) && Normal(x, u, ex) && Normal(y, v, ey) && ex + 1 < ey && Mag(y) > 0
    ensures IeeeRemainder(x, y, Number(x), 0)
  {
    ExponentOrder(x, y, u, ex, v, ey);
    DivModUnique(Mag(x), Mag(y), 0, Mag(x));
  }

  lemma BelowDivisor(x: u64, y: u64, u: nat, ex: int, v: nat, ey: int)
    requires Finite(x) && Finite(y) && Normal(x, u, ex) && Normal(y, v, ey) && ex < ey && Mag(y) > 0
    ensures Division(Mag(x), Mag(y), 0, Mag(x))
  {
    ExponentOrder(x, y, u, ex, v, ey);
    DivModUnique(Mag(x), Mag(y), 0, Mag(x));
  }

  /** The jump to `end`: packing the operand gives its absolute value back. */
  method PackOperand(x: u64, u: u64, ex: int) returns (b: u64)
    requires Finite(x) && Normal(x, u, ex) && Abs(x) != 0
    ensures Finite(b) && Remains(b, u, ex) && Mag(b) == Mag(x)
    ensures b == Abs(x)
  {
    PositiveMag(x);
    b := Pack(u, ex, Mag(x));
    MagOrder(b, x);
    FieldsOf(b);
  }

  /** The division loop and the normalisation of its remainder. */
  method DivideOperands(x: u64, y: u64, u: u64, ex: int, v: u64, ey: int)
      returns (b: u64, q: u32, e: int, ghost n: nat, ghost w: nat)
    requires Finite(x) && Finite(y) && Normal(x, u, ex) && Normal(y, v, ey) && ex >= ey && Mag(y) > 0
    ensures Finite(b) && Remains(b, w, e) && Division(Mag(x), Mag(y), n, Mag(b)) && q == LowWord(n)
  {
    var rem;
    rem, q, n := Divide(u, v, ex, ey);
    AlignedDivision(x, y, u, ex, v, ey);
    DivModUnique(u * Pow2(ex - ey), v, n, rem);
    assert Residue(u, ex - ey, v) == rem;
    assert Division(Mag(x), Mag(y), n, Mag(x) % Mag(y));
    hide Division, Residue, Pow2, Normal, Mag, Remains, Shr;
    if rem == 0 {
      e, w := -60, 0;
      ZeroShift();
      b := Shr(rem, 1 - e);
      ZeroRemains(x, y, ey);
    } else {
      UnpackedRemainder(x, y, rem, ey);
      var s;
      s, e := Renormalize(rem, ey, Mag(x) % Mag(y));
      b := Pack(s, e, Mag(x) % Mag(y));
      w := s;
      NormalRemains(b, s, e);
    }
  }

  lemma ZeroShift()
    ensures Shr(0, 61) == 0
  {
  }

  lemma ZeroRemains(x: u64, y: u64, ey: int)
    requires Finite(x) && Finite(y) && IsRemainder(x, y, 0, ey)
    ensures Finite(0) && Mag(0) == 0 && Remains(0, 0, -60) && Mag(x) % Mag(y) == 0
  {
    Fields(0, false, 0, 0);
    MulCancel(Mag(x) % Mag(y), 0, Pow2(60));
  }

  lemma NormalRemains(b: u64, u: nat, e: int)
    requires Finite(b) && !Negative(b) && Normal(b, u, e)
    ensures Remains(b, u, e)
  {
  }

  /** An infinite divisor: `2*x > y` cannot hold, and `2*x == y` meets an even quotient. */
  method InfiniteDivisor(x: u64, y: u64) returns (r: Outcome, quo: int)
    requires Finite(x) && Abs(x) != 0 && Abs(y) == INFINITY && ExpField(y) == 2047
    ensures r == Number(x) && quo == 0
  {
    FieldsOf(x);
    FieldsOf(y);
    assert Abs(y) != 0;
    hide *;
    var u, ex := Normalize(x);
    var v, ey := Normalize(y);
    var q: u32 := 0;
    NormalExponent(x, u, ex);
    if ex + 1 != ey {
      return Number(x), 0;
    }
    var b := PackOperand(x, u, ex);
    var ya := if Negative(y) then Negate(y) else y;
    AbsoluteValue(y);
    NeverRoundsUp(b, u, ex);
    var up := RoundsUp(b, ya, ex, ey, q);
    assert !up;
    var masked := And(q, 0x7fff_ffff);
    ZeroMask();
    quo := if Negative(x) != Negative(y) then -masked else masked;
    RestoreSign(x);
    r := Number(if Negative(x) then Negate(b) else b);
  }

  lemma NormalExponent(x: u64, u: nat, ex: int)
    requires Finite(x) && Normal(x, u, ex)
    ensures ex < 2047
  {
  }

  lemma NeverRoundsUp(b: u64, u: nat, ex: int)
    requires Finite(b) && Remains(b, u, ex) && ex < 2047
    ensures !RoundsUp(b, INFINITY, ex, 2047, 0)
  {
  }

  lemma ZeroMask()
    ensures And(0, 0x7fff_ffff) == 0
  {
  }

  lemma RestoreSign(x: u64)
    ensures (if Negative(x) then Negate(Abs(x)) else Abs(x)) == x
  {
    FieldsOf(x);
  }
}
