/**
  What `fmod` and `remquo` share: turning operands into 53-bit significands with an exponent,
  comparing by the borrow of an unsigned subtraction, and packing a result.
 */
module LongDivision {
  import opened Words
  import opened Ieee

  /** b = u * 2^(e - 1) units of 2^-1074, also for e <= 0; both sides are scaled by 2^60. */
  predicate Normal(b: u64, u: nat, e: int)
    requires Finite(b)
  {
    HIDDEN <= u < 2 * HIDDEN && -51 <= e < 2047 && Mag(b) * Pow2(60) == u * Pow2(e + 59)
  }

  lemma NormalBounds(b: u64, u: nat, e: int)
    requires Finite(b) && Normal(b, u, e)
    ensures HIDDEN <= u < 2 * HIDDEN && -51 <= e < 2047
  {
  }

  /** Two's-complement subtraction leaves the top bit clear exactly when there is no borrow. */
  lemma SubBorrow(a: u64, b: u64)
    requires a < SIGN_BIT && b < SIGN_BIT
    ensures Shr(Sub64(a, b), 63) == 0 <==> a >= b
    ensures a >= b ==> Sub64(a, b) == a - b
  {
    TwoTo64();
    var d := if a >= b then a - b else a - b + W64;
    assert Sub64(a, b) == d;
    if a >= b { DivModUnique(d, SIGN_BIT, 0, d); } else { DivModUnique(d, SIGN_BIT, 1, d - SIGN_BIT); }
  }

  lemma ShlOne(a: u64)
    ensures Shl64(a, 1) == 2 * a % W64
    ensures a < SIGN_BIT ==> Shl64(a, 1) == 2 * a
    ensures Shl64(a, 1) == 2 * Abs(a)
  {
    assert Pow2(1) == 2;
  }

  lemma TopBitSet(a: u64)
    ensures Shr(a, 63) == 0 <==> a < SIGN_BIT
  {
    TwoTo64();
    if a < SIGN_BIT { DivModUnique(a, SIGN_BIT, 0, a); } else { DivModUnique(a, SIGN_BIT, 1, a - SIGN_BIT); }
  }

  /** A left shift drops the sign bit. */
  lemma ShiftDropsSign(b: u64, k: nat)
    requires k >= 1 && Abs(b) * Pow2(k) < W64
    ensures Shl64(b, k) == Abs(b) * Pow2(k)
  {
    var f, p := Abs(b), Pow2(k - 1);
    assert Pow2(k) == 2 * p;
    hide Pow2;
    var fp := f * (2 * p);
    if b == f {
      DivModUnique(fp, W64, 0, fp);
    } else {
      assert b * (2 * p) == p * W64 + fp by {
        assert b == SIGN_BIT + f;
      }
      DivModUnique(b * (2 * p), W64, p, fp);
    }
  }

  lemma HiddenBit(b: u64)
    ensures Or(And(b, 0xf_ffff_ffff_ffff), HIDDEN) == HIDDEN + FracField(b)
  {
    TwoTo54();
    AndMask(b, 52);
    var f := FracField(b);
    OrCommutes(f, HIDDEN);
    OrDisjoint(HIDDEN, f, 52);
  }

  lemma NormalOfNormal(b: u64)
    requires Finite(b) && ExpField(b) > 0
    ensures Normal(b, HIDDEN + FracField(b), ExpField(b))
  {
    ScaledPow2(HIDDEN + FracField(b), ExpField(b) - 1, 60);
  }

  /** The number of places a subnormal moves. */
  lemma NormalOfSubnormal(b: u64, e: int)
    requires Finite(b) && ExpField(b) == 0 && e <= 0
    requires SIGN_BIT <= FracField(b) * Pow2(12 - e) < W64
    ensures Normal(b, FracField(b) * Pow2(1 - e), e)
    ensures Shl64(b, 1 - e) == FracField(b) * Pow2(1 - e)
  {
    var f := FracField(b);
    FieldsOf(b);
    TwoTo12();
    ScaledPow2(f, 1 - e, 11);
    ShiftBound(f, e);
    ShiftDropsSign(b, 1 - e);
    ScaledPow2(f, 1 - e, e + 59);
  }

  lemma ShiftBound(f: nat, e: int)
    requires e <= 0 && 0 < f && f * Pow2(12 - e) < W64
    ensures -51 <= e
  {
    TwoTo64();
    MulMono(1, f, Pow2(12 - e));
    Pow2Order(64, 12 - e);
  }

  /** A subnormal's leading bit is found by shifting, and the significand brought to bit 52. */
  method NormalizeSubnormal(b: u64) returns (u: u64, e: int)
    requires Abs(b) != 0 && ExpField(b) == 0
    ensures Finite(b) && Normal(b, u, e) && -51 <= e <= 0
  {
    hide *;
    FirstShift(b);
    e := 0;
    ghost var f := FracField(b);
    var i := Shl64(b, 12);
    while Shr(i, 63) == 0
      invariant -51 <= e <= 0 && i == f * Pow2(12 - e) && 0 < i
      decreases e + 51
    {
      TopBitSet(i);
      WordSigns();
      ShlOne(i);
      ScaledPow2(f, 12 - e, 1);
      TwoTo12();
      e := e - 1;
      i := Shl64(i, 1);
      ShiftBound(f, e);
    }
    TopBitSet(i);
    WordSigns();
    NormalOfSubnormal(b, e);
    u := Shl64(b, 1 - e);
  }

  lemma WordSigns()
    ensures W64 == 0x1_0000_0000_0000_0000 && SIGN_BIT == 0x8000_0000_0000_0000 && HIDDEN == 0x10_0000_0000_0000
  {
  }

  lemma FirstShift(b: u64)
    requires Abs(b) != 0 && ExpField(b) == 0
    ensures Finite(b) && FracField(b) > 0 && Shl64(b, 12) == FracField(b) * Pow2(12) > 0
  {
    FieldsOf(b);
    TwoTo12();
    ShiftDropsSign(b, 12);
  }

  /** The source normalises x and y with this code, once each. */
  method Normalize(b: u64) returns (u: u64, e: int)
    requires Abs(b) != 0
    ensures Finite(b) ==> Normal(b, u, e)
    ensures ExpField(b) > 0 ==> e == ExpField(b) && u == HIDDEN + FracField(b)
    ensures ExpField(b) == 0 ==> -51 <= e <= 0
  {
    e := ExpField(b);
    FieldsOf(b);
    if e == 0 {
      u, e := NormalizeSubnormal(b);
    } else {
      if Finite(b) { NormalOfNormal(b); }
      HiddenBit(b);
      u := Or(And(b, 0xf_ffff_ffff_ffff), HIDDEN);
    }
  }

  // ----- packing

  /** A nonzero magnitude m (scaled by 2^60) as u * 2^(e + 59), u not yet normalised. */
  ghost predicate Unpacked(m: nat, u: nat, e: int)
  {
    m > 0 && 0 < u < 2 * HIDDEN && -51 <= e < 2047 && m * Pow2(60) == u * Pow2(e + 59)
  }

  lemma UnpackedShift(m: nat, u: nat, e: int)
    requires Unpacked(m, u, e) && u < HIDDEN
    ensures Unpacked(m, 2 * u, e - 1)
  {
    TwoTo54();
    if e == -51 {
      Pow2Add(52, 8);
      MulStrict(u, HIDDEN, Pow2(8));
      MulMono(1, m, Pow2(60));
    } else {
      assert Pow2(e + 59) == 2 * Pow2(e + 58);
    }
  }

  lemma PackNormal(m: nat, u: nat, e: int)
    requires Unpacked(m, u, e) && HIDDEN <= u && e > 0
    ensures Or(u - HIDDEN, Shl64(e, 52)) == (e - 1) * HIDDEN + u
    ensures Finite((e - 1) * HIDDEN + u) && Mag((e - 1) * HIDDEN + u) == m && !Negative((e - 1) * HIDDEN + u)
    ensures ExpField((e - 1) * HIDDEN + u) == e
  {
    TwoTo54();
    assert Shl64(e, 52) == e * HIDDEN by { DivModUnique(e * HIDDEN, W64, 0, e * HIDDEN); }
    DivMulCancel(e, HIDDEN);
    OrCommutes(u - HIDDEN, e * HIDDEN);
    OrDisjoint(e * HIDDEN, u - HIDDEN, 52);
    NormalMag((e - 1) * HIDDEN + u, false, e, u);
    ScaledPow2(u, e - 1, 60);
    MulCancel(m, u * Pow2(e - 1), Pow2(60));
  }

  /** The right shift of a subnormal result loses no bits. */
  lemma PackSubnormal(m: nat, u: nat, e: int)
    requires Unpacked(m, u, e) && e <= 0
    ensures Shr(u, 1 - e) == m && u == m * Pow2(1 - e)
    ensures Finite(m) && m < HIDDEN && Mag(m) == m && !Negative(m)
  {
    var p := Pow2(1 - e);
    ScaledPow2(m, 1 - e, e + 59);
    MulCancel(u, m * p, Pow2(e + 59));
    DivMulCancel(m, p);
    assert p == 2 * Pow2(-e);
    hide Pow2;
    MulMono(2, p, m);
    Fields(m, false, 0, m);
  }

  method Pack(u: u64, e: int, ghost m: nat) returns (b: u64)
    requires Unpacked(m, u, e) && HIDDEN <= u
    ensures Finite(b) && !Negative(b) && Mag(b) == m
    ensures Normal(b, u, e)
  {
    b := u;
    if e > 0 {
      PackNormal(m, u, e);
      b := b - HIDDEN;
      b := Or(b, Shl64(e, 52));
    } else {
      PackSubnormal(m, u, e);
      b := Shr(b, 1 - e);
    }
  }

  /** `for (; uxi>>52 == 0; uxi <<= 1, ex--)` */
  method Renormalize(u0: u64, e0: int, ghost m: nat) returns (u: u64, e: int)
    requires Unpacked(m, u0, e0)
    ensures Unpacked(m, u, e) && HIDDEN <= u && e <= e0
  {
    u, e := u0, e0;
    while Shr(u, 52) == 0
      invariant Unpacked(m, u, e) && e <= e0
      decreases e + 51
    {
      Below53(u);
      UnpackedShift(m, u, e);
      ShlOne(u);
      u := Shl64(u, 1);
      e := e - 1;
    }
    Below53(u);
  }

  lemma Below53(u: nat)
    ensures Shr(u, 52) == 0 <==> u < HIDDEN
  {
    TwoTo54();
    DivModSpec(u, HIDDEN);
    if u < HIDDEN { DivModUnique(u, HIDDEN, 0, u); }
  }

  /** Operands with a common exponent: the magnitudes are the significands times one power of two. */
  lemma Aligned(x: u64, y: u64, u: nat, ex: int, v: nat, ey: int)
    requires Finite(x) && Finite(y) && Normal(x, u, ex) && Normal(y, v, ey) && ex >= ey
    ensures Mag(x) * Pow2(60) == u * Pow2(ex - ey) * Pow2(ey + 59)
    ensures Mag(y) * Pow2(60) == v * Pow2(ey + 59)
  {
    ScaledPow2(u, ex - ey, ey + 59);
  }

  /** A larger exponent means a larger magnitude. */
  lemma ExponentOrder(x: u64, y: u64, u: nat, ex: int, v: nat, ey: int)
    requires Finite(x) && Finite(y) && Normal(x, u, ex) && Normal(y, v, ey) && ex < ey
    ensures Mag(x) < Mag(y)
    ensures ex + 1 < ey ==> 2 * Mag(x) < Mag(y)
  {
    var p, q := Pow2(ex + 59), Pow2(ey + 59);
    Pow2Mono(ex + 60, ey + 59);
    assert Pow2(ex + 60) == 2 * p;
    if ex + 1 < ey {
      Pow2Mono(ex + 61, ey + 59);
      assert Pow2(ex + 61) == 4 * p;
    }
    hide Pow2;
    BinadeOrder(Mag(x), Mag(y), Pow2(60), u, p, v, q);
  }

  lemma BinadeOrder(x: nat, y: nat, c: nat, u: nat, p: nat, v: nat, q: nat)
    requires c > 0 && p > 0 && x * c == u * p && y * c == v * q
    requires u < 2 * HIDDEN <= 2 * v && 2 * p <= q
    ensures x < y
    ensures 4 * p <= q ==> 2 * x < y
  {
    MulStrict(u, 2 * HIDDEN, p);
    MulMono(HIDDEN, v, q);
    assert HIDDEN * q == q * HIDDEN;
    MulMono(2 * p, q, HIDDEN);
    assert (2 * HIDDEN) * p == (2 * p) * HIDDEN;
    MulCancel(x, y, c);
    if 4 * p <= q {
      MulMono(4 * p, q, HIDDEN);
      assert (4 * p) * HIDDEN == 2 * ((2 * p) * HIDDEN);
      assert (2 * x) * c == 2 * (x * c);
      MulCancel(2 * x, y, c);
    }
  }

  /** rem, placed at the exponent of y, is |x| mod |y|. */
  ghost predicate IsRemainder(x: u64, y: u64, rem: nat, ey: int)
    requires Finite(x) && Finite(y)
  {
    Mag(y) > 0 && ey >= -51 && Mag(x) % Mag(y) * Pow2(60) == rem * Pow2(ey + 59)
  }

  lemma UnpackedRemainder(x: u64, y: u64, rem: nat, ey: int)
    requires Finite(x) && Finite(y) && IsRemainder(x, y, rem, ey) && 0 < rem < 2 * HIDDEN && ey < 2047
    ensures Mag(y) > 0 && Unpacked(Mag(x) % Mag(y), rem, ey)
  {
    MulMono(1, rem, Pow2(ey + 59));
    MulCancel(0, Mag(x) % Mag(y), Pow2(60));
  }

  /** Quotient and remainder of the magnitudes are those of the aligned significands. */
  lemma AlignedDivision(x: u64, y: u64, u: nat, ex: int, v: nat, ey: int)
    requires Finite(x) && Finite(y) && Normal(x, u, ex) && Normal(y, v, ey) && ex >= ey
    ensures Mag(y) > 0 && Mag(x) / Mag(y) == u * Pow2(ex - ey) / v
    ensures IsRemainder(x, y, Residue(u, ex - ey, v), ey)
  {
    Aligned(x, y, u, ex, v, ey);
    var a, w := u * Pow2(ex - ey), Pow2(ey + 59);
    MulMono(1, v, w);
    MulCancel(0, Mag(y), Pow2(60));
    DivModScale(a, v, w);
    DivModScale(Mag(x), Mag(y), Pow2(60));
  }

  /** What the subtract-and-shift loop preserves: u * 2^k modulo v, k places still to come. */
  function Residue(u: nat, k: nat, v: nat): nat
    requires v > 0
  {
    (u * Pow2(k)) % v
  }

  lemma ResidueSubtract(u: nat, k: nat, v: nat)
    requires 0 < v <= u
    ensures Residue(u - v, k, v) == Residue(u, k, v)
    ensures u == v ==> Residue(u, k, v) == 0
  {
    SubtractMultiple(u, v, Pow2(k));
  }

  lemma SubtractMultiple(u: int, v: int, p: int)
    requires v > 0
    ensures (u - v) * p % v == u * p % v
    ensures u == v ==> u * p % v == 0
  {
    assert (u - v) * p + p * v == u * p;
    ModAddMultiple((u - v) * p, p, v);
    if u == v { DivModUnique(u * p, v, p, 0); }
  }

  lemma ResidueShift(u: nat, k: nat, v: nat)
    requires k > 0 && v > 0
    ensures Residue(2 * u, k - 1, v) == Residue(u, k, v)
  {
    assert 2 * u * Pow2(k - 1) == u * Pow2(k);
  }

  lemma ResidueDone(u: nat, v: nat)
    requires u < v
    ensures Residue(u, 0, v) == u
  {
    assert u * Pow2(0) == u;
    DivModUnique(u, v, 0, u);
  }
}
