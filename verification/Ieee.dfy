/**
  IEEE 754 binary64 data as bit patterns.  A finite double is an integer multiple of 2^-1074, so its
  magnitude is the natural number `Mag` of such units and every statement about values is a statement
  about integers.  `RoundMag` is round-to-nearest, ties-to-even (section 4.3.1 of IEEE 754-2008).
 */
module Ieee {
  import opened Words

  const HIDDEN: int := 0x10_0000_0000_0000  // 2^52
  const SIGN_BIT: int := 0x8000_0000_0000_0000
  const EXP_MAX: int := 2047
  /** One unit is 2^-1074, the smallest subnormal. */
  const UNIT_EXPONENT: nat := 1074
  const INFINITY: u64 := 0x7ff0_0000_0000_0000

  function ExpField(b: u64): nat { b / HIDDEN % 2048 }

  function FracField(b: u64): nat { b % HIDDEN }

  predicate Negative(b: u64) { b >= SIGN_BIT }

  predicate Finite(b: u64) { ExpField(b) < EXP_MAX }

  predicate IsNaN(b: u64) { ExpField(b) == EXP_MAX && FracField(b) != 0 }

  /** What an operation delivers: a number, or a NaN whose payload is not modelled. */
  datatype Outcome = Number(bits: u64) | NotANumber

  /** The sign bit cleared. */
  function Abs(b: u64): u64 { b % SIGN_BIT }

  function WithSign(neg: bool, b: u64): u64
    requires b < SIGN_BIT
  {
    if neg then b + SIGN_BIT else b
  }

  /** |value| in units of 2^-1074. */
  function Mag(b: u64): nat
    requires Finite(b)
  {
    if ExpField(b) == 0 then FracField(b)
    else (HIDDEN + FracField(b)) * Pow2(ExpField(b) - 1)
  }

  /** The signed value in units of 2^-1074. */
  function Val(b: u64): int
    requires Finite(b)
  {
    var m: int := Mag(b);
    if Negative(b) then -m else m
  }

  /** At most 53 significant bits, whatever the exponent. */
  predicate Representable(m: nat)
  {
    BitLen(m) <= 53 || m % Pow2(BitLen(m) - 53) == 0
  }

  /** The bit pattern of a magnitude; infinity when the exponent does not fit. */
  function MagBits(m: nat): (b: u64)
    ensures b <= INFINITY
  {
    if m < HIDDEN then m
    else
      TwoTo52();
      BitLenAtLeast(m, 52);
      var e := BitLen(m) - 52;
      if e >= EXP_MAX then INFINITY
      else
        TopBits(m, e - 1);
        (e - 1) * HIDDEN + m / Pow2(e - 1)
  }

  lemma TwoTo52()
    ensures Pow2(52) == HIDDEN && Pow2(53) == 2 * HIDDEN && Pow2(0) == 1
  {
    TwoTo54();
  }

  /** s with exactly 53 bits, shifted left by k. */
  lemma ShiftedBitLen(s: nat, k: nat)
    requires HIDDEN <= s < 2 * HIDDEN
    ensures BitLen(s * Pow2(k)) == 53 + k
    ensures s * Pow2(k) >= Pow2(52 + k) >= HIDDEN
  {
    TwoTo52();
    var p := Pow2(k);
    Pow2Add(52, k);
    Pow2Add(53, k);
    MulMono(HIDDEN, s, p);
    MulStrict(s, 2 * HIDDEN, p);
    BitLenUnique(s * p, 53 + k);
    MulMono(1, p, HIDDEN);
  }

  /** A number of exactly 53 + k bits, split at bit k. */
  lemma TopBits(m: nat, k: nat)
    requires BitLen(m) == 53 + k
    ensures HIDDEN <= m / Pow2(k) < 2 * HIDDEN
  {
    BitLenBounds(m);
    TwoTo52();
    Pow2Add(52, k);
    Pow2Add(53, k);
    DivRange(m, Pow2(k), HIDDEN, 2 * HIDDEN);
  }

  lemma BitLenAtLeast(m: nat, k: nat)
    requires m >= Pow2(k)
    ensures BitLen(m) >= k + 1
  {
    BitLenBounds(m);
    Pow2Order(BitLen(m), k);
  }

  lemma BitLenAtMost(m: nat, k: nat)
    requires m < Pow2(k)
    ensures BitLen(m) <= k
  {
    if m > 0 {
      BitLenBounds(m);
      Pow2Order(k, BitLen(m) - 1);
    }
  }

  /** How a pattern splits into its fields. */
  lemma Fields(b: u64, neg: bool, e: nat, f: nat)
    requires e < 2048 && f < HIDDEN
    requires b == Flag(neg) * SIGN_BIT + e * HIDDEN + f
    ensures ExpField(b) == e && FracField(b) == f && Negative(b) == neg
    ensures Abs(b) == e * HIDDEN + f
  {
    DivModUnique(b, HIDDEN, Flag(neg) * 2048 + e, f);
    DivModUnique(Flag(neg) * 2048 + e, 2048, Flag(neg), e);
  }

  lemma FieldsOf(b: u64)
    ensures b == Flag(Negative(b)) * SIGN_BIT + ExpField(b) * HIDDEN + FracField(b)
    ensures Abs(b) == ExpField(b) * HIDDEN + FracField(b)
    ensures ExpField(Abs(b)) == ExpField(b) && FracField(Abs(b)) == FracField(b)
    ensures WithSign(Negative(b), Abs(b)) == b
  {
    DivModSpec(b, HIDDEN);
    DivModSpec(b / HIDDEN, 2048);
    Fields(b, Negative(b), ExpField(b), FracField(b));
    Fields(Abs(b), false, ExpField(b), FracField(b));
  }

  lemma SignedFields(neg: bool, b: u64)
    requires b < SIGN_BIT
    ensures Negative(WithSign(neg, b)) == neg && Abs(WithSign(neg, b)) == b
    ensures ExpField(WithSign(neg, b)) == ExpField(b) && FracField(WithSign(neg, b)) == FracField(b)
  {
    FieldsOf(b);
    Fields(WithSign(neg, b), neg, ExpField(b), FracField(b));
  }

  lemma SignedMag(neg: bool, b: u64)
    requires b < SIGN_BIT && Finite(b)
    ensures Finite(WithSign(neg, b)) && Mag(WithSign(neg, b)) == Mag(b)
  {
    SignedFields(neg, b);
  }

  /** The value of a normal number with full significand s and exponent field e. */
  lemma NormalMag(b: u64, neg: bool, e: nat, s: nat)
    requires 1 <= e < 2047 && HIDDEN <= s < 2 * HIDDEN
    requires b == Flag(neg) * SIGN_BIT + (e - 1) * HIDDEN + s
    ensures Finite(b) && Negative(b) == neg && Mag(b) == s * Pow2(e - 1)
    ensures ExpField(b) == e && FracField(b) == s - HIDDEN
  {
    Fields(b, neg, e, s - HIDDEN);
  }

  // ----- magnitudes and patterns are in bijection

  lemma MagRepresentable(b: u64)
    requires Finite(b)
    ensures Representable(Mag(b)) && MagBits(Mag(b)) == Abs(b)
  {
    FieldsOf(b);
    var e, f := ExpField(b), FracField(b);
    if e == 0 {
      TwoTo52();
      BitLenAtMost(f, 53);
    } else {
      ShiftedBitLen(HIDDEN + f, e - 1);
      DivMulCancel(HIDDEN + f, Pow2(e - 1));
    }
  }

  lemma MagBitsMag(m: nat)
    requires Representable(m) && MagBits(m) < INFINITY
    ensures Finite(MagBits(m)) && !Negative(MagBits(m)) && Mag(MagBits(m)) == m
  {
    if m < HIDDEN {
      Fields(m, false, 0, m);
    } else {
      TwoTo52();
      BitLenAtLeast(m, 52);
      var e := BitLen(m) - 52;
      TopBits(m, e - 1);
      NormalMag(MagBits(m), false, e, m / Pow2(e - 1));
      DivModSpec(m, Pow2(e - 1));
    }
  }

  /** From 2^(52+k) on, representable magnitudes are multiples of 2^k. */
  lemma RepresentableGrid(m: nat, k: nat)
    requires Representable(m) && m >= Pow2(52 + k)
    ensures m % Pow2(k) == 0
  {
    BitLenAtLeast(m, 52 + k);
    if BitLen(m) <= 53 {
      assert k == 0;
    } else {
      var l := BitLen(m) - 53;
      Pow2Add(l - k, k);
      FinerGrid(m, Pow2(l - k), Pow2(k));
    }
  }

  lemma FinerGrid(m: nat, a: nat, b: nat)
    requires a > 0 && b > 0 && a * b > 0 && m % (a * b) == 0
    ensures m % b == 0
  {
    var c := m / (a * b);
    DivModSpec(m, a * b);
    assert m == c * (a * b) == (c * a) * b;
    DivMulCancel(c * a, b);
  }

  lemma RepresentableScaled(s: nat, k: nat)
    requires s <= 2 * HIDDEN
    ensures Representable(s * Pow2(k))
    decreases 2 * HIDDEN - s, k
  {
    var p := Pow2(k);
    assert Pow2(k + 1) == 2 * p && (k == 0 ==> p == 1);
    if s == 2 * HIDDEN {
      assert s * p == HIDDEN * (2 * p);
      RepresentableShifted(HIDDEN, k + 1);
    } else if s >= HIDDEN {
      RepresentableShifted(s, k);
    } else if k == 0 || s == 0 {
      assert s * p == s;
      RepresentableSmall(s);
    } else {
      var h := Pow2(k - 1);
      hide *;
      assert s * (2 * h) == (2 * s) * h;
      PowDoubles(k - 1);
      RepresentableScaled(2 * s, k - 1);
    }
  }

  lemma RepresentableSmall(s: nat)
    requires s < 2 * HIDDEN
    ensures Representable(s)
  {
    TwoTo52();
    BitLenAtMost(s, 53);
  }

  lemma RepresentableShifted(s: nat, k: nat)
    requires HIDDEN <= s < 2 * HIDDEN
    ensures Representable(s * Pow2(k))
  {
    ShiftedBitLen(s, k);
    DivMulCancel(s, Pow2(k));
  }

  // ----- rounding

  /** Of q and q + 1, the nearer to q + r / p; when r / p is one half, the even one. */
  function NearerOf(q: nat, r: nat, p: nat): nat
  {
    if 2 * r > p || (2 * r == p && q % 2 == 1) then q + 1 else q
  }

  /** The integer nearest n / 2^s, ties to even. */
  function Rne(n: nat, s: nat): nat
  {
    DivNat(n, Pow2(s));
    NearerOf(n / Pow2(s), n % Pow2(s), Pow2(s))
  }

  function RoundUnit(n: nat, f: nat): nat
  {
    if BitLen(n) > f + 53 then BitLen(n) - 53 else f
  }

  /** n / 2^f (in units of 2^-1074) rounded to a representable magnitude, ties to even. */
  function RoundMag(n: nat, f: nat): nat
  {
    Rne(n, RoundUnit(n, f)) * Pow2(RoundUnit(n, f) - f)
  }

  /** The double that IEEE arithmetic returns for the exact result (-1)^neg * n * 2^(-1074 - f). */
  function RoundBits(neg: bool, n: nat, f: nat): u64
  {
    WithSign(neg, MagBits(RoundMag(n, f)))
  }

  function Dist(a: int, b: int): nat { if a < b then b - a else a - b }

  /** Rne is at least as near as any integer j; an equally near j means Rne is even. */
  lemma RneNearest(n: nat, s: nat, j: int)
    ensures Dist(Rne(n, s) * Pow2(s), n) <= Dist(j * Pow2(s), n)
    ensures j != Rne(n, s) && Dist(Rne(n, s) * Pow2(s), n) == Dist(j * Pow2(s), n) ==> Rne(n, s) % 2 == 0
  {
    DivModSpec(n, Pow2(s));
    DivNat(n, Pow2(s));
    var q, r := n / Pow2(s), n % Pow2(s);
    NearestMultiple(n, Pow2(s), q, r, Rne(n, s), j);
  }

  lemma NearestMultiple(n: int, p: int, q: int, r: int, c: int, j: int)
    requires p > 0 && n == q * p + r && 0 <= r < p
    requires q >= 0 && c == NearerOf(q, r, p)
    ensures Dist(c * p, n) <= Dist(j * p, n)
    ensures j != c && Dist(c * p, n) == Dist(j * p, n) ==> c % 2 == 0
  {
    var qp, jp := q * p, j * p;
    assert (q + 1) * p == qp + p;
    if j < q {
      MulMono(j, q - 1, p);
      assert (q - 1) * p == qp - p;
    } else if j > q + 1 {
      MulMono(q + 2, j, p);
      assert (q + 2) * p == qp + 2 * p;
    }
  }

  lemma RneScale(n: nat, s: nat, k: nat)
    ensures Rne(n * Pow2(k), s + k) == Rne(n, s)
  {
    var p, c := Pow2(s), Pow2(k);
    Pow2Add(s, k);
    DivModScale(n, p, c);
    DivNat(n, p);
    DivModSpec(n, p);
    NearerScale(n / p, n % p, p, c);
  }

  lemma NearerScale(q: nat, r: nat, p: nat, c: nat)
    requires c > 0
    ensures NearerOf(q, r * c, p * c) == NearerOf(q, r, p)
  {
    assert 2 * (r * c) == (2 * r) * c;
    MulCancel(2 * r, p, c);
    MulCancel(p, 2 * r, c);
  }

  /** The rounded significand has 53 bits, or is the next power of two. */
  lemma RneRange(n: nat, s: nat)
    requires Pow2(52 + s) <= n < Pow2(53 + s)
    ensures HIDDEN <= Rne(n, s) <= 2 * HIDDEN
  {
    TwoTo52();
    Pow2Add(52, s);
    Pow2Add(53, s);
    DivRange(n, Pow2(s), HIDDEN, 2 * HIDDEN);
  }

  lemma RneSmall(n: nat, f: nat)
    requires BitLen(n) <= f + 53
    ensures Rne(n, f) <= 2 * HIDDEN
  {
    TwoTo52();
    if n > 0 {
      BitLenBounds(n);
      Pow2Mono(BitLen(n), f + 53);
      Pow2Add(53, f);
      DivRange(n, Pow2(f), 0, 2 * HIDDEN);
    }
  }

  lemma RoundRepresentable(n: nat, f: nat)
    ensures Representable(RoundMag(n, f))
  {
    var u := RoundUnit(n, f);
    if u > f {
      BitLenBounds(n);
      RneRange(n, u);
    } else {
      RneSmall(n, f);
    }
    RepresentableScaled(Rne(n, u), u - f);
  }

  /** A pattern is even exactly when its significand is. */
  lemma MagBitsParity(s: nat, k: nat)
    requires s <= 2 * HIDDEN && s % 2 == 0
    requires k == 0 || s >= HIDDEN
    ensures MagBits(s * Pow2(k)) % 2 == 0
  {
    if s < HIDDEN {
      TwoTo52();
      assert s * Pow2(k) == s;
    } else if s < 2 * HIDDEN {
      MagBitsShifted(s, k);
    } else {
      assert s * Pow2(k) == HIDDEN * Pow2(k + 1);
      MagBitsShifted(HIDDEN, k + 1);
    }
  }

  lemma MagBitsShifted(s: nat, k: nat)
    requires HIDDEN <= s < 2 * HIDDEN
    ensures MagBits(s * Pow2(k)) == if k + 1 >= EXP_MAX then INFINITY else k * HIDDEN + s
  {
    ShiftedBitLen(s, k);
    DivMulCancel(s, Pow2(k));
  }

  /**
    RoundMag is round-to-nearest: no representable magnitude d is nearer to n / 2^f, and when another
    is equally near, the one chosen has the even significand.
   */
  lemma RoundNearest(n: nat, f: nat, d: nat)
    requires Representable(d)
    ensures Dist(RoundMag(n, f) * Pow2(f), n) <= Dist(d * Pow2(f), n)
    ensures d != RoundMag(n, f) && Dist(RoundMag(n, f) * Pow2(f), n) == Dist(d * Pow2(f), n)
            ==> MagBits(RoundMag(n, f)) % 2 == 0
  {
    var u := RoundUnit(n, f);
    var r, k := Rne(n, u), u - f;
    assert RoundMag(n, f) == r * Pow2(k);
    ScaledPow2(r, k, f);
    hide *;
    if k == 0 {
      TwoTo52();
      RneNearest(n, f, d);
      if r % 2 == 0 { RoundedEven(n, f); }
    } else if d >= Pow2(52 + k) {
      var j := OnGrid(d, k);
      ScaledPow2(j, k, f);
      RneNearest(n, u, j);
      if r % 2 == 0 { RoundedEven(n, f); }
    } else {
      BelowGrid(n, f, d);
      RneNearest(n, u, HIDDEN);
    }
  }

  lemma RoundedEven(n: nat, f: nat)
    requires Rne(n, RoundUnit(n, f)) % 2 == 0
    ensures MagBits(RoundMag(n, f)) % 2 == 0
  {
    var u := RoundUnit(n, f);
    if u > f {
      BitLenBounds(n);
      RneRange(n, u);
    } else {
      RneSmall(n, f);
    }
    MagBitsParity(Rne(n, u), u - f);
  }

  lemma OnGrid(d: nat, k: nat) returns (j: nat)
    requires Representable(d) && d >= Pow2(52 + k)
    ensures d == j * Pow2(k)
  {
    RepresentableGrid(d, k);
    DivModSpec(d, Pow2(k));
    DivNat(d, Pow2(k));
    j := d / Pow2(k);
  }

  /** A number below the smallest 53-bit multiple of the rounding unit is farther away than that multiple. */
  lemma BelowGrid(n: nat, f: nat, d: nat)
    requires BitLen(n) > f + 53
    requires d < Pow2(52 + (RoundUnit(n, f) - f))
    ensures d * Pow2(f) < HIDDEN * Pow2(RoundUnit(n, f)) <= n
  {
    var u := RoundUnit(n, f);
    assert n > 0;
    BitLenBounds(n);
    TwoTo52();
    assert u == BitLen(n) - 53 > f && Pow2(52 + u) <= n;
    hide *;
    MulStrict(d, Pow2(52 + (u - f)), Pow2(f));
    Pow2Add(52 + (u - f), f);
    Pow2Add(52, u);
    assert 52 + (u - f) + f == 52 + u;
  }

  lemma ScaledPow2(a: nat, k: nat, f: nat)
    ensures a * Pow2(k) * Pow2(f) == a * Pow2(k + f)
  {
    Pow2Add(k, f);
    assert a * Pow2(k) * Pow2(f) == a * (Pow2(k) * Pow2(f));
  }

  /** Rounding a representable magnitude changes nothing. */
  lemma RoundExact(m: nat, f: nat)
    requires Representable(m)
    ensures RoundMag(m * Pow2(f), f) == m
  {
    hide RoundMag, Pow2;
    var p, r := Pow2(f), RoundMag(m * Pow2(f), f);
    RoundNearest(m * p, f, m);
    assert Dist(m * p, m * p) == 0;
    assert r * p == m * p;
    MulCancel(r, m, p);
  }

  // ----- order

  /** Below a binade: the magnitude of a double with exponent field e. */
  lemma MagRange(b: u64)
    requires Finite(b)
    ensures ExpField(b) == 0 ==> Mag(b) < HIDDEN
    ensures ExpField(b) > 0 ==> HIDDEN * Pow2(ExpField(b) - 1) <= Mag(b) < HIDDEN * Pow2(ExpField(b))
  {
    if ExpField(b) > 0 {
      var p := Pow2(ExpField(b) - 1);
      assert Pow2(ExpField(b)) == 2 * p;
      MulMono(HIDDEN, HIDDEN + FracField(b), p);
      MulStrict(HIDDEN + FracField(b), 2 * HIDDEN, p);
      assert HIDDEN * (2 * p) == (2 * HIDDEN) * p;
    }
  }

  /** Patterns without sign are ordered like the magnitudes they stand for. */
  lemma MagMonotone(a: u64, b: u64)
    requires Finite(a) && Finite(b) && Abs(a) < Abs(b)
    ensures Mag(a) < Mag(b)
  {
    FieldsOf(a);
    FieldsOf(b);
    var e, g := ExpField(a), ExpField(b);
    if e == g {
      if e > 0 { MulStrict(HIDDEN + FracField(a), HIDDEN + FracField(b), Pow2(e - 1)); }
    } else {
      MagRange(a);
      MagRange(b);
      if e > 0 {
        Pow2Mono(e, g - 1);
        MulMono(Pow2(e), Pow2(g - 1), HIDDEN);
      } else {
        MulMono(1, Pow2(g - 1), HIDDEN);
      }
    }
  }

  lemma MagOrder(a: u64, b: u64)
    requires Finite(a) && Finite(b)
    ensures Abs(a) < Abs(b) <==> Mag(a) < Mag(b)
    ensures Abs(a) == Abs(b) <==> Mag(a) == Mag(b)
  {
    if Abs(a) < Abs(b) {
      MagMonotone(a, b);
    } else if Abs(b) < Abs(a) {
      MagMonotone(b, a);
    } else {
      FieldsOf(a);
      FieldsOf(b);
      assert ExpField(a) == ExpField(b) && FracField(a) == FracField(b);
    }
  }

  lemma PositiveMag(y: u64)
    requires Finite(y) && Abs(y) != 0
    ensures Mag(y) > 0
  {
    MagOrder(0, y);
    Fields(0, false, 0, 0);
  }

  // ----- arithmetic on finite doubles: the exact result, rounded

  function RoundVal(v: int, f: nat): u64
  {
    RoundBits(v < 0, Dist(v, 0), f)
  }

  function Negate(b: u64): u64 { if Negative(b) then b - SIGN_BIT else b + SIGN_BIT }

  function FAdd(a: u64, b: u64): u64
    requires Finite(a) && Finite(b)
  {
    var v := Val(a) + Val(b);
    if v == 0 && !(Negative(a) && Negative(b)) then 0
    else if v == 0 then SIGN_BIT
    else RoundVal(v, 0)
  }

  function FMul(a: u64, b: u64): u64
    requires Finite(a) && Finite(b)
  {
    RoundBits(Negative(a) != Negative(b), Mag(a) * Mag(b), UNIT_EXPONENT)
  }

  /** `2*x` */
  function Twice(b: u64): u64
    requires Finite(b)
  {
    RoundBits(Negative(b), 2 * Mag(b), 0)
  }

  /** A representable in-range value survives rounding; its value is then exact. */
  lemma RoundBitsExact(neg: bool, m: nat)
    requires Representable(m) && MagBits(m) < INFINITY
    ensures Finite(RoundBits(neg, m, 0)) && Mag(RoundBits(neg, m, 0)) == m
    ensures Negative(RoundBits(neg, m, 0)) == neg && Abs(RoundBits(neg, m, 0)) == MagBits(m)
  {
    hide RoundMag, MagBits, BitLen, Pow2, Mag, Representable;
    TwoTo12();
    RoundExact(m, 0);
    MagBitsMag(m);
    SignedFields(neg, MagBits(m));
    SignedMag(neg, MagBits(m));
  }

  lemma NegateVal(b: u64)
    requires Finite(b)
    ensures Finite(Negate(b)) && Mag(Negate(b)) == Mag(b) && Val(Negate(b)) == -Val(b)
    ensures Negative(Negate(b)) != Negative(b)
  {
    FieldsOf(b);
    Fields(Negate(b), !Negative(b), ExpField(b), FracField(b));
  }

  /** Magnitudes up to that of a finite double have finite patterns. */
  lemma FiniteBits(d: nat)
    requires d < HIDDEN * Pow2(2046)
    ensures MagBits(d) < INFINITY
  {
    hide Pow2, BitLen;
    TwoTo54();
    Pow2Add(52, 2046);
    BitLenAtMost(d, 2098);
    if d >= HIDDEN {
      BitLenAtLeast(d, 52);
      TopBits(d, BitLen(d) - 53);
    }
  }

  lemma FiniteMagBound(b: u64)
    requires Finite(b)
    ensures Mag(b) < HIDDEN * Pow2(2046)
  {
    hide Pow2, Mag;
    MagRange(b);
    MulMono(1, Pow2(2046), HIDDEN);
    if ExpField(b) > 0 {
      Pow2Mono(ExpField(b), 2046);
      MulMono(Pow2(ExpField(b)), Pow2(2046), HIDDEN);
    }
  }
}
