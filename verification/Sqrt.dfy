/**
  The bit-by-bit square root on two 32-bit words.  `Sqrt` returns the double nearest to the exact
  root of every positive finite double; there is never a tie to break.
 */
module Sqrt {
  import opened Words
  import opened Ieee

  /** The two words (hi, lo) as one number. */
  function Pair(hi: int, lo: int): int { hi * W32 + lo }

  /** `(w & 0x80000000) >> 31` */
  function TopBit(w: u32): nat { Shr(And(w, 0x8000_0000), 31) }

  lemma TopBitValue(w: u32)
    ensures TopBit(w) == if w >= 0x8000_0000 then 1 else 0
    ensures And(w, 0x8000_0000) == if w >= 0x8000_0000 then 0x8000_0000 else 0
  {
    TwoTo32();
    AndBit(w, 31);
    ShrTop(w);
    ShrTop(0x8000_0000);
    ShrTop(0);
    hide Shr, And;
  }

  lemma ShrTop(w: u32)
    ensures Shr(w, 31) == if w >= 0x8000_0000 then 1 else 0
  {
    TwoTo32();
    hide Pow2;
  }

  /** Both words shifted left together by one bit. */
  lemma PairDoubles(hi: int, lo: u32)
    ensures Pair(hi + hi + TopBit(lo), Add32(lo, lo)) == 2 * Pair(hi, lo)
  {
    TopBitValue(lo);
  }

  /** x = s * 2^(m - 52) for the double x, both sides in units of 2^-1126. */
  predicate Scaled(x: u64, s: nat, m: int)
    requires Finite(x)
  {
    m >= -1074 && Mag(x) * Pow2(52) == s * Pow2(m + 1074)
  }

  // ----- normalisation

  /** The fields of a normal number, as the source masks them out of the high word. */
  lemma NormalWords(x: u64)
    requires Finite(x) && !Negative(x)
    ensures x / W32 / 0x10_0000 == ExpField(x)
    ensures Pair((x / W32) % 0x10_0000, x % W32) == FracField(x)
    ensures ExpField(x) > 0 ==> Scaled(x, HIDDEN + FracField(x), ExpField(x) - 1023)
  {
    FieldsOf(x);
    var f, e := FracField(x), ExpField(x);
    assert x == e * HIDDEN + f;
    DivModUnique(x, W32, e * 0x10_0000 + f / W32, f % W32);
    DivModUnique(e * 0x10_0000 + f / W32, 0x10_0000, e, f / W32);
    if e > 0 {
      ScaledPow2(HIDDEN + f, e - 1, 52);
    }
  }

  /** The low 20 bits with bit 20 set: what line 119 makes of a high word. */
  function Masked(w: nat): nat { w % 0x10_0000 + 0x10_0000 }

  lemma MaskedNoop(w: nat)
    requires 0x10_0000 <= w < 0x20_0000
    ensures Masked(w) == w
  {
  }

  lemma MaskHigh(w: nat)
    ensures Or(And(w, 0xf_ffff), 0x10_0000) == Masked(w)
  {
    TwoTo21();
    AndMask(w, 20);
    OrCommutes(w % 0x10_0000, 0x10_0000);
    OrDisjoint(0x10_0000, w % 0x10_0000, 20);
  }

  lemma ExponentMask(w: u32)
    ensures And(w, 0x7ff0_0000) == 0x7ff0_0000 <==> w % 0x8000_0000 >= 0x7ff0_0000
  {
    TwoTo21();
    TwoTo32();
    var c, b := w / 0x10_0000 % 2048, w % 0x10_0000;
    DivDiv(w, 0x10_0000, 2048);
    assert Low(w, 31) == c * 0x10_0000 + b && Low(w, 20) == b;
    AndField(w, 20, 31);
    assert And(w, 0x7ff0_0000) == c * 0x10_0000;
  }

  lemma ShiftWords(lo: u32)
    ensures Or(0, Shr(lo, 11)) < 0x20_0000 && Shl32(lo, 21) % 0x20_0000 == 0
    ensures Pair(Or(0, Shr(lo, 11)), Shl32(lo, 21)) == lo * Pow2(21)
  {
    TwoTo12();
    TwoTo21();
    var a, b := lo / 0x800, lo % 0x800;
    assert lo * 0x20_0000 == a * W32 + b * 0x20_0000;
    assert (lo * 0x20_0000) % W32 == b * 0x20_0000;
    assert Or(0, a) == a;
  }

  lemma BitTwenty(w: nat)
    requires w < 0x20_0000
    ensures And(w, 0x10_0000) == 0 <==> w < 0x10_0000
  {
    TwoTo21();
    AndBit(w, 20);
    assert Shr(w, 20) == w / 0x10_0000;
  }

  /** Moving the top i bits of the low word into the high word, whose low i bits are clear. */
  lemma JoinWords(h: nat, lo: u32, i: nat)
    requires 0 < i <= 20 && 0x10_0000 <= h * Pow2(i) < 0x20_0000
    ensures Or(h * Pow2(i), Shr(lo, 32 - i)) < 0x1_0000_0000
    ensures Pair(Masked(Or(h * Pow2(i), Shr(lo, 32 - i))), Shl32(lo, i)) == Pair(h, lo) * Pow2(i)
  {
    hide *;
    var p, g := Pow2(i), Pow2(32 - i);
    TwoTo21();
    TwoTo32();
    Pow2Add(32 - i, i);
    Pow2Add(21 - i, i);
    DivMulCancel(h, p);
    ShiftValues(lo, i);
    DivRange(lo, g, 0, p);
    OrDisjoint(h * p, lo / g, i);
    RotateWord(lo, p, g);
    BelowMultiple(h, Pow2(21 - i), p);
    MaskedNoop(h * p + lo / g);
    PairScaled(h, lo, p, h * p + lo / g, Shl32(lo, i));
  }

  lemma ShiftValues(lo: u32, i: nat)
    requires i <= 32
    ensures Shr(lo, 32 - i) == lo / Pow2(32 - i) && Shl32(lo, i) == (lo * Pow2(i)) % W32
    ensures 0 <= lo < W32 == 0x1_0000_0000
  {
    hide Pow2;
  }

  lemma PairScaled(h: nat, lo: u32, p: nat, a: int, b: int)
    requires a * W32 + b == h * p * W32 + lo * p
    ensures Pair(a, b) == Pair(h, lo) * p
  {
  }

  lemma RotateWord(lo: u32, p: nat, g: nat)
    requires p > 0 && g > 0 && g * p == W32
    ensures lo * p == (lo / g) * W32 + (lo * p) % W32
  {
    DivModScale(lo, g, p);
    DivModSpec(lo * p, W32);
  }

  lemma BelowMultiple(h: nat, k: nat, p: nat)
    requires p > 0 && h * p < k * p
    ensures h * p <= k * p - p
  {
    MulCancel(h, k, p);
    MulMono(h, k - 1, p);
    assert (k - 1) * p == k * p - p;
  }

  /** The C code's shift by 32: hardware gives 0 or the word itself; line 119 masks either away. */
  lemma ShiftBy32Masked(h: nat, lo: u32, carry: nat)
    requires 0x10_0000 <= h < 0x20_0000 && lo % 0x20_0000 == 0 && (carry == 0 || carry == lo)
    ensures Or(h, carry) < 0x1_0000_0000
    ensures Pair(Masked(Or(h, carry)), Shl32(lo, 0)) == Pair(h, lo) * Pow2(0)
  {
    TwoTo21();
    OrCommutes(h, carry);
    OrDisjoint(carry, h, 21);
    MaskedSum(h, carry);
    assert Pow2(0) == 1 && Shl32(lo, 0) == lo;
    hide Or, Masked;
  }

  lemma MaskedSum(h: nat, carry: u32)
    requires 0x10_0000 <= h < 0x20_0000 && carry % 0x20_0000 == 0
    ensures h + carry < 0x1_0000_0000 && Masked(h + carry) == h
  {
    var k := carry / 0x20_0000;
    assert carry == k * 0x20_0000 == 2 * k * 0x10_0000 && k < 2048;
    ModAddMultiple(h, 2 * k, 0x10_0000);
    DivModUnique(h, 0x10_0000, 1, h - 0x10_0000);
  }

  lemma WordRange(w: nat, lo: u32)
    ensures HIDDEN <= Pair(Masked(w), lo) < 2 * HIDDEN
  {
  }

  /** The exponent bookkeeping of a subnormal: -m0 places before the second loop, i in it. */
  lemma SubnormalScale(x: u64, m0: int, i: nat)
    requires Finite(x) && Mag(x) > 0 && m0 <= 0
    requires Mag(x) * Pow2(-m0) * Pow2(i) < 2 * HIDDEN
    ensures Scaled(x, Mag(x) * Pow2(-m0) * Pow2(i), m0 - i + 1 - 1023)
  {
    var k := i - m0;
    ScaledPow2(Mag(x), -m0, i);
    TwoTo52();
    MulMono(1, Mag(x), Pow2(k));
    Pow2Order(53, k);
    ScaledPow2(Mag(x), k, 52 - k);
  }

  /** The loop over whole-word shifts: leaves a nonzero high word. */
  method ShiftOutZeroWord(x: u64, hi: u32, lo: u32) returns (m: int, ix0: nat, ix1: u32)
    requires Finite(x) && 0 < Mag(x) < HIDDEN && Mag(x) == Pair(hi, lo)
    ensures -42 <= m <= 0 && 0 < ix0 < 0x20_0000
    ensures Pair(ix0, ix1) == Mag(x) * Pow2(-m)
    ensures m == 0 ==> ix0 < 0x10_0000
    ensures m < 0 ==> ix1 % 0x20_0000 == 0
  {
    m, ix0, ix1 := 0, hi, lo;
    TwoTo21();
    TwoTo12();
    Pow2Add(21, 21);
    hide Or, Shr, Shl32, Pow2;
    while ix0 == 0
      invariant m == 0 || m == -21 || m == -42
      invariant 0 <= ix0 < 0x20_0000 && Pair(ix0, ix1) == Mag(x) * Pow2(-m)
      invariant m == 0 ==> ix0 < 0x10_0000
      invariant m < 0 ==> ix1 % 0x20_0000 == 0
      invariant m == -42 ==> ix0 != 0
      decreases m + 42
    {
      ShiftWords(ix1);
      ScaledPow2(Mag(x), -m, 21);
      if m == -21 { MulMono(1, Mag(x), Pow2(42)); }
      ix0, ix1 := Or(ix0, Shr(ix1, 11)), Shl32(ix1, 21);
      m := m - 21;
    }
  }

  /** The loop that brings the leading bit of the high word to position 20. */
  method ShiftToBit20(h: nat) returns (i: nat, w: nat)
    requires 0 < h < 0x20_0000
    ensures i <= 20 && w == h * Pow2(i) && 0x10_0000 <= w < 0x20_0000
  {
    i, w := 0, h;
    TwoTo21();
    TwoTo12();
    hide And, Pow2;
    while And(w, 0x10_0000) == 0
      invariant i <= 20 && 0 < w < 0x20_0000 && w == h * Pow2(i) && Pow2(i) <= w
      decreases 20 - i
    {
      BitTwenty(w);
      ScaledPow2(h, i, 1);
      ScaledPow2(1, i, 1);
      w := 2 * w;
      i := i + 1;
      Pow2Order(21, i);
    }
    BitTwenty(w);
  }

  /**
    Normalisation of a subnormal.  At `i == 0` the C code shifts a 32-bit word by 32; whichever of the
    two results hardware gives (`0`, or the word itself), the later mask removes it.
   */
  method NormalizeSubnormal(x: u64, hi: u32, lo: u32) returns (m: int, ix0: u32, ix1: u32)
    requires Finite(x) && 0 < Mag(x) < HIDDEN && Mag(x) == Pair(hi, lo)
    ensures HIDDEN <= Pair(Masked(ix0), ix1) < 2 * HIDDEN
    ensures Scaled(x, Pair(Masked(ix0), ix1), m - 1023)
  {
    TwoTo12();
    hide *;
    var h, l: u32;
    m, h, l := ShiftOutZeroWord(x, hi, lo);
    var i, w := ShiftToBit20(h);
    if i == 0 {
      var carry: nat :| carry == 0 || carry == l;
      ShiftBy32Masked(w, l, carry);
      ix0 := Or(w, carry);
    } else {
      JoinWords(h, l, i);
      ix0 := Or(w, Shr(l, 32 - i));
    }
    ix1 := Shl32(l, i);
    WordRange(ix0, ix1);
    SubnormalScale(x, m, i);
    m := m - i + 1;
  }

  // ----- the root, one bit at a time

  /**
    The recurrence of the header comment, scaled to integers: with the moving bit at r = rr / 2, the
    partial root q and remainder y of the number k / 2 satisfy y * rr + 2 * q^2 = k, and
    q <= sqrt(k / 2) < q + rr.
   */
  ghost predicate Partial(y: int, q: int, rr: int, k: int)
  {
    y * rr + 2 * (q * q) == k && 0 <= y < 4 * q + 2 * rr && 0 <= q && q + rr <= 4 * HIDDEN
  }

  lemma PartialStep(y: int, q: int, r: int, k: int)
    requires r > 0 && Partial(y, q, 2 * r, k)
    ensures 2 * q + r <= y ==> Partial(2 * (y - (2 * q + r)), q + r, r, k)
    ensures 2 * q + r > y ==> Partial(2 * y, q, r, k)
  {
    var t := 2 * q + r;
    assert (2 * y) * r == y * (2 * r);
    calc {
      (2 * (y - t)) * r + 2 * ((q + r) * (q + r));
      2 * y * r - 4 * q * r - 2 * r * r + 2 * q * q + 4 * q * r + 2 * r * r;
      y * (2 * r) + 2 * (q * q);
    }
  }

  /** The moving bit j - 1, or 0 once it has left the word. */
  function MovingBit(j: nat): nat { if j == 0 then 0 else Pow2(j - 1) }

  lemma MovingBitShift(j: nat)
    requires j > 0
    ensures MovingBit(j) > 0 && MovingBit(j) / 2 == MovingBit(j - 1)
    ensures Pow2(j) == 2 * MovingBit(j) && Pow2(j - 1) == MovingBit(j)
    ensures j <= 32 ==> MovingBit(j) <= 0x8000_0000
    ensures j <= 22 ==> MovingBit(j) <= 0x20_0000
  {
    TwoTo32();
    TwoTo21();
    if j <= 32 { Pow2Mono(j - 1, 31); }
    if j <= 22 { Pow2Mono(j - 1, 21); }
  }

  lemma MovingBitZero(j: nat)
    ensures MovingBit(j) == 0 <==> j == 0
  {
  }

  lemma PartialWords(ix0: int, ix1: u32, q: int, rr: int, k: int)
    requires Partial(Pair(ix0, ix1), q, rr, k) && rr > 0
    ensures 0 <= ix0 < 0x100_0000
  {
  }

  /** One round of the first loop: comparing high words compares whole numbers. */
  lemma HighStep(ix0: nat, ix1: u32, q: nat, r: nat, k: int)
    requires r > 0 && Partial(Pair(ix0, ix1), Pair(q, 0), 2 * (r * W32), k)
    ensures ix0 < 0x100_0000 && q + r <= 0x40_0000
    ensures Pair(ix0 - (2 * q + r), ix1) == Pair(ix0, ix1) - (2 * Pair(q, 0) + r * W32)
    ensures if 2 * q + r <= ix0
            then Partial(2 * Pair(ix0 - (2 * q + r), ix1), Pair(q + r, 0), r * W32, k)
            else Partial(2 * Pair(ix0, ix1), Pair(q, 0), r * W32, k)
  {
    PartialStep(Pair(ix0, ix1), Pair(q, 0), r * W32, k);
  }

  /** The first loop: the 22 bits of the root that live in the high word. */
  method RootHighWord(hi: i32, lo: u32, ghost k: int) returns (q: i32, s0: i32, ix0: i32, ix1: u32)
    requires 0 <= hi && Partial(Pair(hi, lo), 0, 4 * HIDDEN, k)
    ensures 0 <= ix0 && 0 <= q && s0 == 2 * q && Partial(Pair(ix0, ix1), Pair(q, 0), W32, k)
  {
    ix0, ix1, q, s0 := hi, lo, 0, 0;
    var r: u32 := 0x20_0000;
    ghost var j: nat := 22;
    TwoTo21();
    TwoTo12();
    assert Pow2(22) == 2 * Pow2(21) && Pair(0, 0) == 0 && Pow2(22) * W32 == 4 * HIDDEN && Pow2(0) * W32 == W32;
    assert MovingBit(22) == 0x20_0000 && MovingBit(0) == 0;
    hide *;
    while r != 0
      invariant j <= 22 && r == MovingBit(j) && s0 == 2 * q && 0 <= q && 0 <= ix0
      invariant Partial(Pair(ix0, ix1), Pair(q, 0), Pow2(j) * W32, k)
      decreases j
    {
      assert j > 0;
      MovingBitShift(j);
      assert Pow2(j) * W32 == 2 * (r * W32) && Pow2(j - 1) * W32 == r * W32;
      HighStep(ix0, ix1, q, r, k);
      var t: i32 := s0 + r;
      if t <= ix0 {
        s0 := t + r;
        ix0 := ix0 - t;
        q := q + r;
      }
      PairDoubles(ix0, ix1);
      PartialWords(ix0 + ix0 + TopBit(ix1), Add32(ix1, ix1), Pair(q, 0), r * W32, k);
      ix0 := ix0 + ix0 + TopBit(ix1);
      ix1 := Add32(ix1, ix1);
      r := r / 2;
      j := j - 1;
    }
  }

  /** One round of the second loop: the two-word comparison, subtraction and carry act on whole numbers. */
  lemma WholeRound(ix0: nat, ix1: u32, q: nat, q1: nat, s0: nat, s1: nat, r: nat, k: int)
    requires r > 0 && Partial(Pair(ix0, ix1), Pair(q, q1), 2 * r, k)
    requires Pair(s0, s1) == 2 * Pair(q, q1) && q1 + 2 * r <= W32
    requires (2 * r == W32 && s1 == 0) || s1 + 4 * r <= W32
    ensures ix0 < 0x100_0000 && q <= 0x40_0000 && s0 <= 0x80_0000
    ensures s1 + r < 0x1_0000_0000 && q1 + r < 0x1_0000_0000
    ensures Pair(s0, s1 + r) == 2 * Pair(q, q1) + r && Pair(q, q1 + r) == Pair(q, q1) + r
    ensures s0 < ix0 || (s0 == ix0 && s1 + r <= ix1) <==> 2 * Pair(q, q1) + r <= Pair(ix0, ix1)
    ensures if 2 * Pair(q, q1) + r <= Pair(ix0, ix1)
            then Partial(2 * (Pair(ix0, ix1) - Pair(s0, s1 + r)), Pair(q, q1 + r), r, k)
            else Partial(2 * Pair(ix0, ix1), Pair(q, q1), r, k)
  {
    PartialStep(Pair(ix0, ix1), Pair(q, q1), r, k);
  }

  /** Subtracting the pair (t, t1) with a borrow. */
  lemma Borrow(ix0: int, ix1: u32, t: int, t1: u32)
    ensures Pair(if ix1 < t1 then ix0 - t - 1 else ix0 - t, Sub32(ix1, t1)) == Pair(ix0, ix1) - Pair(t, t1)
  {
  }

  /** The carry into the high word, as the source detects it from the top bits. */
  lemma CarryDetected(s0: int, s1: u32, r: nat, t1: u32)
    requires 0 < r && t1 == s1 + r && ((2 * r == W32 && s1 == 0) || s1 + 4 * r <= W32)
    ensures Pair(if And(t1, 0x8000_0000) == 0x8000_0000 && And(Add32(t1, r), 0x8000_0000) == 0 then s0 + 1 else s0,
                 Add32(t1, r)) == Pair(s0, s1 + r) + r
    ensures Add32(t1, r) + 2 * r <= W32
  {
    hide And, Add32, TopBit;
    Add32Cases(t1, r);
    TopBitValue(t1);
    TopBitValue(Add32(t1, r));
  }

  /** Accepting a bit: the doubled root grows by 2r, the remainder shrinks by the old doubled root plus r. */
  method AcceptBit(x0: i32, x1: u32, d0: i32, d1: u32, r: u32) returns (ix0: i32, ix1: u32, s0: i32, s1: u32)
    requires 0 < r && d1 + r < W32 && ((2 * r == W32 && d1 == 0) || d1 + 4 * r <= W32)
    requires 0 <= x0 < 0x100_0000 && 0 <= d0 <= 0x80_0000
    ensures Pair(s0, s1) == Pair(d0, d1 + r) + r && Pair(ix0, ix1) == Pair(x0, x1) - Pair(d0, d1 + r)
    ensures d0 <= s0 && s1 + 2 * r <= W32
  {
    assert W32 == 0x1_0000_0000;
    hide *;
    var t1: u32, t: i32 := d1 + r, d0;
    Borrow(x0, x1, t, t1);
    CarryDetected(d0, d1, r, t1);
    s0, s1, ix0 := d0, Add32(t1, r), x0;
    if And(t1, 0x8000_0000) == 0x8000_0000 && And(s1, 0x8000_0000) == 0 { s0 := s0 + 1; }
    ix0 := ix0 - t;
    if x1 < t1 { ix0 := ix0 - 1; }
    ix1 := Sub32(x1, t1);
  }

  /** One round of the second loop (lines 146-159). */
  method LowRound(x0: i32, x1: u32, d0: i32, d1: u32, p1: u32, r: u32, ghost q: i32, ghost k: int)
      returns (ix0: i32, ix1: u32, s0: i32, s1: u32, q1: u32)
    requires 0 < r && 0 <= x0 && 0 <= d0 && 0 <= q && Pair(d0, d1) == 2 * Pair(q, p1) && p1 + 2 * r <= W32
    requires (2 * r == W32 && d1 == 0) || d1 + 4 * r <= W32
    requires Partial(Pair(x0, x1), Pair(q, p1), 2 * r, k)
    ensures 0 <= ix0 && 0 <= s0 && Pair(s0, s1) == 2 * Pair(q, q1) && q1 + r <= W32 && s1 + 2 * r <= W32
    ensures Partial(Pair(ix0, ix1), Pair(q, q1), r, k)
  {
    hide *;
    WholeRound(x0, x1, q, p1, d0, d1, r, k);
    ix0, ix1, s0, s1, q1 := x0, x1, d0, d1, p1;
    var t1: u32, t: i32 := s1 + r, s0;
    if t < ix0 || (t == ix0 && t1 <= ix1) {
      ix0, ix1, s0, s1 := AcceptBit(ix0, ix1, s0, s1, r);
      q1 := q1 + r;
    }
    PairDoubles(ix0, ix1);
    PartialWords(ix0 + ix0 + TopBit(ix1), Add32(ix1, ix1), Pair(q, q1), r, k);
    ix0 := ix0 + ix0 + TopBit(ix1);
    ix1 := Add32(ix1, ix1);
  }

  lemma StartRound(q: int)
    ensures Pow2(0) == 1 && MovingBit(0) == 0 && MovingBit(32) == Pow2(31) == 0x8000_0000
    ensures Pow2(32) == W32 == 0x1_0000_0000
    ensures Pair(2 * q, 0) == 2 * Pair(q, 0)
  {
    TwoTo32();
  }

  /** The second loop: the remaining 32 bits. */
  method RootLowWord(hi: i32, lo: u32, q: i32, top: i32, ghost k: int) returns (q1: u32, ix0: i32, ix1: u32)
    requires 0 <= hi && 0 <= q && top == 2 * q && Partial(Pair(hi, lo), Pair(q, 0), W32, k)
    ensures 0 <= ix0 && Partial(Pair(ix0, ix1), Pair(q, q1), 1, k)
  {
    hide *;
    StartRound(q);
    ix0, ix1, q1 := hi, lo, 0;
    var s0: i32, s1: u32, r: u32 := top, 0, 0x8000_0000;
    ghost var j: nat := 32;
    while r != 0
      invariant j <= 32 && r == MovingBit(j) && 0 <= ix0 && 0 <= s0 && q1 + Pow2(j) <= W32
      invariant Pair(s0, s1) == 2 * Pair(q, q1)
      invariant (j == 32 && s1 == 0) || s1 + 2 * Pow2(j) <= W32
      invariant Partial(Pair(ix0, ix1), Pair(q, q1), Pow2(j), k)
      decreases j
    {
      assert j > 0;
      MovingBitShift(j);
      ix0, ix1, s0, s1, q1 := LowRound(ix0, ix1, s0, s1, q1, r, q, k);
      r := r / 2;
      j := j - 1;
    }
    MovingBitZero(j);
  }

  // ----- final rounding

  /** The root of s * 2^54, rounded to the nearest integer multiple of 2. */
  ghost predicate HalfRoot(r: nat, s: nat)
  {
    HIDDEN <= r < 2 * HIDDEN && (2 * r - 1) * (2 * r - 1) < s * Pow2(54) < (2 * r + 1) * (2 * r + 1)
  }

  lemma SquareMono(a: nat, b: nat)
    requires a < b
    ensures a * a < b * b
  {
    MulMono(a, b, a);
    MulStrict(a, b, b);
  }

  /** What the loops leave: floor of the root, and a remainder that is zero exactly for perfect squares. */
  lemma RootFloor(y: int, q: nat, s: nat)
    requires HIDDEN <= s <= 4 * HIDDEN - 2 && Partial(y, q, 1, s * Pow2(55))
    ensures q * q <= s * Pow2(54) < (q + 1) * (q + 1)
    ensures y == 0 <==> q * q == s * Pow2(54)
    ensures 2 * HIDDEN <= q <= 4 * HIDDEN - 2
  {
    TwoTo54();
    var n := s * (4 * HIDDEN);
    assert s * Pow2(55) == 2 * n;
    assert y + 2 * (q * q) == 2 * n;
    assert (q + 1) * (q + 1) == q * q + 2 * q + 1;
    MulMono(HIDDEN, s, 4 * HIDDEN);
    MulMono(s, 4 * HIDDEN - 2, 4 * HIDDEN);
    if q < 2 * HIDDEN {
      SquareMono(q + 1, 2 * HIDDEN + 1);
      MulMono(q + 1, 2 * HIDDEN, q + 1);
      MulMono(q + 1, 2 * HIDDEN, 2 * HIDDEN);
    }
    if q > 4 * HIDDEN - 2 { MulMono(4 * HIDDEN - 1, q, 4 * HIDDEN - 1); MulMono(4 * HIDDEN - 1, q, q); }
  }

  /** An odd root is never exact, so rounding it up is rounding to nearest, and no tie exists. */
  lemma RoundedRoot(y: int, q: nat, s: nat)
    requires HIDDEN <= s <= 4 * HIDDEN - 2 && Partial(y, q, 1, s * Pow2(55))
    ensures q % 2 == 1 ==> y != 0
    ensures HalfRoot((q + q % 2) / 2, s)
  {
    RootFloor(y, q, s);
    TwoTo54();
    if q % 2 == 1 {
      OddSquare(q, s);
      SquareMono(q + 1, q + 2);
    } else {
      SquareMono(q - 1, q);
    }
  }

  lemma OddSquare(q: nat, s: nat)
    requires q % 2 == 1
    ensures q * q != s * Pow2(54)
  {
    var h, a := q / 2, Pow2(53);
    assert Pow2(54) == 2 * a;
    hide *;
    var hh, p := h * h, s * a;
    assert q * q == 4 * hh + 4 * h + 1 by {
      assert q == 2 * h + 1;
    }
    assert s * (2 * a) == 2 * p;
  }

  lemma SetTopBit(lo: nat)
    requires lo < 0x8000_0000
    ensures Or(lo, 0x8000_0000) == lo + 0x8000_0000
  {
    TwoTo32();
    OrCommutes(lo, 0x8000_0000);
    OrDisjoint(0x8000_0000, lo, 31);
  }

  /** The last lines of the source: rounding by the parity of q1, then assembling the words. */
  method Assemble(q0: i32, w0: u32, rest: bool, m: int) returns (z: u64)
    requires 2 * HIDDEN <= Pair(q0, w0) <= 4 * HIDDEN - 2 && -600 <= m <= 600
    requires w0 % 2 == 1 ==> rest
    ensures z == (1022 + m) * HIDDEN + (Pair(q0, w0) + Pair(q0, w0) % 2) / 2
  {
    hide And, Or;
    var q: i32, q1: u32 := q0, w0;
    AndOne(q1);
    // 1.0 - tiny and 1.0 + tiny both round to 1.0, so z >= 1.0 holds and z > 1.0 does not
    if rest {
      if q1 == 0xffff_ffff {
        q1 := 0;
        q := q + 1;
      } else {
        q1 := q1 + And(q1, 1);
      }
    }
    RoundedPair(q0, w0, q, q1);
    AndOne(q);
    SetTopBit(q1 / 2);
    var hi: i32, lo: u32 := q / 2 + 0x3fe0_0000, q1 / 2;
    if And(q, 1) != 0 { lo := Or(lo, 0x8000_0000); }
    hi := hi + m * 0x10_0000;
    z := hi * W32 + lo;
  }

  lemma RoundedPair(q0: nat, w0: u32, q: nat, q1: u32)
    requires Pair(q, q1) == Pair(q0, w0) + w0 % 2
    ensures Pair(q, q1) == Pair(q0, w0) + Pair(q0, w0) % 2 && Pair(q, q1) % 2 == 0
    ensures q1 % 2 == 0 && Pair(q, q1) / 2 == q / 2 * W32 + q % 2 * 0x8000_0000 + q1 / 2
  {
    PairParity(q0, w0);
    PairParity(q, q1);
    ParitySum(Pair(q0, w0), w0);
    DivModSpec(q, 2);
  }

  lemma ParitySum(a: nat, w: nat)
    requires a % 2 == w % 2
    ensures (a + w % 2) % 2 == 0
  {
  }

  // ----- sqrt

  function Square(a: int): int { a * a }

  /** z is the double nearest to the root of x: x lies strictly between the squares of the midpoints. */
  ghost predicate NearestRoot(x: u64, z: u64)
    requires Finite(x) && Finite(z)
  {
    forall d: u64 :: Finite(d) && !Negative(d) ==>
      && (Mag(d) < Mag(z) ==> Square(Mag(d) + Mag(z)) < 4 * Mag(x) * Pow2(UNIT_EXPONENT))
      && (Mag(d) > Mag(z) ==> Square(Mag(d) + Mag(z)) > 4 * Mag(x) * Pow2(UNIT_EXPONENT))
  }

  /** No double lies strictly between (r - 1) * 2^k and (r + 1) * 2^k except r * 2^k itself. */
  lemma Neighbours(d: nat, r: nat, k: nat)
    requires Representable(d) && HIDDEN <= r < 2 * HIDDEN
    ensures d > r * Pow2(k) ==> d >= (r + 1) * Pow2(k)
    ensures d < r * Pow2(k) && r > HIDDEN ==> d <= (r - 1) * Pow2(k)
  {
    var p := Pow2(k);
    TwoTo54();
    Pow2Add(52, k);
    var low := HIDDEN * p;
    MulMono(HIDDEN, r, p);
    if r > HIDDEN { MulMono(HIDDEN, r - 1, p); }
    if d >= low {
      var j := OnGrid(d, k);
      MultiplesApart(j, r, p);
    }
  }

  lemma MultiplesApart(j: int, r: int, p: int)
    requires p > 0
    ensures j * p > r * p ==> j * p >= (r + 1) * p
    ensures j * p < r * p ==> j * p <= (r - 1) * p
  {
    if j > r { MulMono(r + 1, j, p); }
    if j < r { MulMono(j, r - 1, p); }
  }

  lemma SquareScaled(a: nat, b: nat, p: nat, n: nat)
    requires p > 0
    ensures a <= b * p && b * b < n ==> a * a < n * (p * p)
    ensures a >= b * p && b * b > n ==> a * a > n * (p * p)
    ensures a < b * p && b * b <= n ==> a * a < n * (p * p)
  {
    var r, m, q := b * p, b * b, p * p;
    SquareOfProduct(b, p);
    Compare(m, n, q);
    CompareSquares(a, r);
  }

  lemma SquareOfProduct(b: nat, p: nat)
    requires p > 0
    ensures (b * p) * (b * p) == (b * b) * (p * p) && p * p > 0
  {
    MulMono(1, p, p);
  }

  lemma Compare(m: int, n: int, q: int)
    requires q > 0
    ensures (m < n ==> m * q < n * q) && (m > n ==> m * q > n * q) && (m <= n ==> m * q <= n * q)
  {
    if m < n { MulStrict(m, n, q); }
    if m > n { MulStrict(n, m, q); }
  }

  lemma CompareSquares(a: nat, r: nat)
    ensures (a < r ==> a * a < r * r) && (a > r ==> a * a > r * r)
  {
    if a < r { SquareMono(a, r); }
    if a > r { SquareMono(r, a); }
  }

  lemma CrossUnits(x: nat, c: nat, s: nat, a: nat, t: nat, b: nat)
    requires c > 0 && x * c == s * a && a * t == b * c
    ensures x * t == s * b
  {
    calc {
      x * t * c;
      x * c * t;
      s * a * t;
      s * (a * t);
      s * (b * c);
      s * b * c;
    }
    MulCancel(x * t, s * b, c);
  }

  /** Four times x, in the units of squared doubles: the exponents of `Scaled` and of the result meet. */
  lemma SquareUnits(x: nat, s: nat, m: int)
    requires -537 <= m && x * Pow2(52) == s * Pow2(2 * m + 1074)
    ensures 4 * x * Pow2(UNIT_EXPONENT) == s * Pow2(54) * (Pow2(m + 1022) * Pow2(m + 1022))
  {
    hide Pow2;
    var k := m + 1022;
    Pow2Add(2 * m + 1074, 1074);
    Pow2Add(k + k + 52, 52);
    TwoTo54();
    Pow2Add(k, k);
    Pow2Add(52, k + k);
    assert 2 * m + 1074 + 1074 == k + k + 52 + 52;
    hide *;
    CrossUnits(x, Pow2(52), s, Pow2(2 * m + 1074), Pow2(UNIT_EXPONENT), Pow2(k + k + 52));
    QuadrupleUnits(x, Pow2(UNIT_EXPONENT), s, Pow2(k + k + 52), Pow2(52), Pow2(k + k));
  }

  lemma QuadrupleUnits(x: nat, t: nat, s: nat, b: nat, c: nat, q: nat)
    requires x * t == s * b && b == c * q
    ensures 4 * x * t == s * (4 * c) * q
  {
    assert 4 * x * t == 4 * (x * t);
    assert s * (4 * c) * q == 4 * (s * (c * q));
  }

  /** The square of the sum with either neighbour, against n. */
  lemma NearestArith(d: nat, r: nat, p: nat, n: nat)
    requires p > 0 && HIDDEN <= r && (2 * r - 1) * (2 * r - 1) < n < (2 * r + 1) * (2 * r + 1)
    requires (2 * HIDDEN) * (2 * HIDDEN) <= n
    requires d > r * p ==> d >= (r + 1) * p
    requires d < r * p && r > HIDDEN ==> d <= (r - 1) * p
    ensures d < r * p ==> Square(d + r * p) < n * (p * p)
    ensures d > r * p ==> Square(d + r * p) > n * (p * p)
  {
    var sum := d + r * p;
    assert (r + 1) * p == r * p + p && (r - 1) * p == r * p - p;
    assert (2 * r + 1) * p == 2 * (r * p) + p && (2 * r - 1) * p == 2 * (r * p) - p && (2 * r) * p == 2 * (r * p);
    if d > r * p {
      SquareScaled(sum, 2 * r + 1, p, n);
    } else if d < r * p && r > HIDDEN {
      SquareScaled(sum, 2 * r - 1, p, n);
    } else {
      SquareScaled(sum, 2 * r, p, n);
    }
  }

  lemma NearestAt(x: nat, d: nat, s: nat, r: nat, m: int)
    requires -537 <= m && x * Pow2(52) == s * Pow2(2 * m + 1074) && HIDDEN <= s && HalfRoot(r, s)
    requires Representable(d)
    ensures d < r * Pow2(m + 1022) ==> Square(d + r * Pow2(m + 1022)) < 4 * x * Pow2(UNIT_EXPONENT)
    ensures d > r * Pow2(m + 1022) ==> Square(d + r * Pow2(m + 1022)) > 4 * x * Pow2(UNIT_EXPONENT)
  {
    hide Pow2, Representable;
    SquareUnits(x, s, m);
    Neighbours(d, r, m + 1022);
    SmallestRoot(s);
    NearestArith(d, r, Pow2(m + 1022), s * Pow2(54));
  }

  lemma SmallestRoot(s: nat)
    requires HIDDEN <= s
    ensures (2 * HIDDEN) * (2 * HIDDEN) <= s * Pow2(54)
  {
    TwoTo54();
    MulMono(HIDDEN, s, 4 * HIDDEN);
  }

  /** Scaling the integer statement about significands to the doubles. */
  lemma RootNearest(x: u64, z: u64, s: nat, r: nat, m: int)
    requires Finite(x) && Finite(z) && -537 <= m && Scaled(x, s, 2 * m) && HIDDEN <= s && HalfRoot(r, s)
    requires Mag(z) == r * Pow2(m + 1022)
    ensures NearestRoot(x, z)
  {
    hide HalfRoot, Square, Pow2, Mag, Representable;
    forall d: u64 | Finite(d) && !Negative(d)
      ensures Mag(d) < Mag(z) ==> Square(Mag(d) + Mag(z)) < 4 * Mag(x) * Pow2(UNIT_EXPONENT)
      ensures Mag(d) > Mag(z) ==> Square(Mag(d) + Mag(z)) > 4 * Mag(x) * Pow2(UNIT_EXPONENT)
    {
      MagRepresentable(d);
      NearestAt(Mag(x), Mag(d), s, r, m);
    }
  }

  lemma PositivePattern(x: u64)
    requires Finite(x) && !Negative(x) && x > 0
    ensures Mag(x) > 0
    ensures ExpField(x) == 0 ==> Mag(x) == FracField(x) < HIDDEN
  {
    FieldsOf(x);
    if ExpField(x) > 0 {
      MulMono(1, Pow2(ExpField(x) - 1), HIDDEN);
      MulMono(HIDDEN, HIDDEN + FracField(x), Pow2(ExpField(x) - 1));
    }
  }

  /** Lines 105-119: a 53-bit significand and an unbiased exponent. */
  method Normalize(x: u64) returns (m: int, ix0: i32, ix1: u32)
    requires Finite(x) && !Negative(x) && x > 0
    ensures 0 <= ix0 && HIDDEN <= Pair(ix0, ix1) < 2 * HIDDEN && Scaled(x, Pair(ix0, ix1), m) && m <= 1023
  {
    NormalWords(x);
    PositivePattern(x);
    FieldsOf(x);
    var w: u32;
    m, w, ix1 := x / W32 / 0x10_0000, x / W32, x % W32;
    if m == 0 {
      assert x / W32 == (x / W32) % 0x10_0000;
      m, w, ix1 := NormalizeSubnormal(x, w, ix1);
      SubnormalExponent(x, Pair(Masked(w), ix1), m - 1023);
    } else {
      assert Pair(Masked(w), ix1) == HIDDEN + FracField(x);
    }
    m := m - 1023;
    MaskHigh(w);
    ix0 := Or(And(w, 0xf_ffff), 0x10_0000);
  }

  /** A subnormal has an exponent below those of normal numbers. */
  lemma SubnormalExponent(x: u64, s: nat, m: int)
    requires Finite(x) && Mag(x) < HIDDEN && Scaled(x, s, m) && HIDDEN <= s
    ensures m <= 0
  {
    TwoTo54();
    if m > 0 {
      Pow2Mono(52, m + 1074);
      MulMono(HIDDEN, s, Pow2(m + 1074));
      MulMono(Pow2(52), Pow2(m + 1074), HIDDEN);
      MulStrict(Mag(x), HIDDEN, Pow2(52));
    }
  }

  /** Lines 120-124: an even exponent, halved. */
  method MakeEven(x: u64, e: int, hi: i32, lo: u32) returns (m: int, ix0: i32, ix1: u32)
    requires Finite(x) && 0 <= hi && HIDDEN <= Pair(hi, lo) < 2 * HIDDEN && Scaled(x, Pair(hi, lo), e) && e <= 1023
    ensures 0 <= ix0 && HIDDEN <= Pair(ix0, ix1) <= 4 * HIDDEN - 2
    ensures -537 <= m <= 511 && Scaled(x, Pair(ix0, ix1), 2 * m)
  {
    m, ix0, ix1 := e, hi, lo;
    if m % 2 == 1 {
      PairDoubles(ix0, ix1);
      DoubledScale(x, Pair(hi, lo), e);
      ix0 := ix0 + ix0 + TopBit(ix1);
      ix1 := Add32(ix1, ix1);
    }
    m := m / 2;
  }

  lemma DoubledScale(x: u64, s: nat, e: int)
    requires Finite(x) && Scaled(x, s, e) && e % 2 == 1
    ensures Scaled(x, 2 * s, e - 1)
  {
    hide Mag, Finite;
    PowDoubles(e + 1073);
    var p := Pow2(e + 1073);
    hide Pow2;
    assert s * (2 * p) == 2 * s * p;
  }

  /** The double nearest to the root of a positive finite double. */
  method PositiveRoot(x: u64) returns (z: u64)
    requires Finite(x) && !Negative(x) && x > 0
    ensures Finite(z) && !Negative(z) && NearestRoot(x, z)
  {
    hide Partial, HalfRoot, NearestRoot, Scaled, Mag, Pow2, Or, TopBit, Add32;
    var m, ix0, ix1 := Normalize(x);
    m, ix0, ix1 := MakeEven(x, m, ix0, ix1);
    ghost var s := Pair(ix0, ix1);
    ghost var k := s * Pow2(55);
    PartialStart(s);
    PairDoubles(ix0, ix1);
    ix0 := ix0 + ix0 + TopBit(ix1);
    ix1 := Add32(ix1, ix1);
    var q, s0, q1;
    q, s0, ix0, ix1 := RootHighWord(ix0, ix1, k);
    q1, ix0, ix1 := RootLowWord(ix0, ix1, q, s0, k);
    ghost var root := Pair(q, q1);
    RootFloor(Pair(ix0, ix1), root, s);
    RoundedRoot(Pair(ix0, ix1), root, s);
    OrZero(ix0, ix1);
    PairParity(q, q1);
    hide Pair;
    z := Assemble(q, q1, Or(ix0, ix1) != 0, m);
    ghost var r := (root + root % 2) / 2;
    HalfRootRange(r, s);
    NormalMag(z, false, 1023 + m, r);
    RootNearest(x, z, s, r, m);
  }

  lemma PairParity(hi: int, lo: int)
    ensures Pair(hi, lo) % 2 == lo % 2
  {
    ModAddMultiple(lo, hi * 0x8000_0000, 2);
  }

  lemma HalfRootRange(r: nat, s: nat)
    requires HalfRoot(r, s)
    ensures HIDDEN <= r < 2 * HIDDEN
  {
  }

  lemma PartialStart(s: nat)
    requires s < 4 * HIDDEN
    ensures Partial(2 * s, 0, 4 * HIDDEN, s * Pow2(55))
  {
    TwoTo54();
    assert Pow2(55) == 8 * HIDDEN;
  }

  lemma OrZero(a: nat, b: nat)
    ensures Or(a, b) == 0 <==> Pair(a, b) == 0
  {
  }

  /**
    `sqrt`.  The NaN and infinity cases are the value of `x*x + x` there, the negative case that of
    `(x-x)/(x-x)`.
   */
  method Sqrt(x: u64) returns (z: Outcome)
    ensures IsNaN(x) ==> z == NotANumber
    ensures Negative(x) && Abs(x) != 0 ==> z == NotANumber
    ensures Abs(x) == 0 || x == INFINITY ==> z == Number(x)
    ensures Finite(x) && !Negative(x) && x > 0
            ==> z.Number? && Finite(z.bits) && !Negative(z.bits) && NearestRoot(x, z.bits)
  {
    hide *;
    AllWords(x);
    Kinds(x);
    var hi: u32, lo: u32 := x / W32, x % W32;
    ExponentMask(hi);
    var ix0: i32 := if hi >= 0x8000_0000 then hi - W32 else hi;
    if And(hi, 0x7ff0_0000) == 0x7ff0_0000 {
      return if x == INFINITY then Number(x) else NotANumber;
    }
    if ix0 <= 0 {
      ZeroTest(hi, lo);
      if Or(And(hi, 0x7fff_ffff), lo) == 0 { return Number(x); }
      if ix0 < 0 { return NotANumber; }
    }
    var r := PositiveRoot(x);
    z := Number(r);
  }

  lemma Kinds(x: u64)
    ensures Finite(x) <==> ExpField(x) != 2047
    ensures IsNaN(x) || Negative(x) || Abs(x) == 0 ==> x != INFINITY
    ensures IsNaN(x) || x == INFINITY ==> !Finite(x)
    ensures Abs(x) == 0 ==> Finite(x)
    ensures Abs(x) != 0 ==> x > 0
    ensures !Negative(x) && x > 0 ==> Abs(x) != 0
    ensures !Finite(x) && !Negative(x) && x != INFINITY ==> IsNaN(x)
    ensures W32 == 0x1_0000_0000 && 0 <= x / W32 < W32 && 0 <= x % W32 < W32
  {
    FieldsOf(x);
    Fields(INFINITY, false, 2047, 0);
    DivModSpec(x, W32);
  }

  lemma AllWords(x: u64)
    ensures x / W32 % 0x8000_0000 >= 0x7ff0_0000 <==> ExpField(x) == 2047
    ensures x / W32 >= 0x8000_0000 <==> Negative(x)
    ensures x / W32 % 0x8000_0000 == 0 && x % W32 == 0 <==> Abs(x) == 0
    ensures IsNaN(INFINITY) == false && !Negative(INFINITY) && ExpField(INFINITY) == 2047
  {
    FieldsOf(x);
    var n, e, f := Flag(Negative(x)), ExpField(x), FracField(x);
    DivModUnique(x, W32, n * 0x8000_0000 + e * 0x10_0000 + f / W32, f % W32);
    DivModUnique(x / W32, 0x8000_0000, n, e * 0x10_0000 + f / W32);
    Fields(INFINITY, false, 2047, 0);
  }

  lemma ZeroTest(hi: u32, lo: u32)
    ensures Or(And(hi, 0x7fff_ffff), lo) == 0 <==> hi % 0x8000_0000 == 0 && lo == 0
  {
    TwoTo32();
    AndMask(hi, 31);
    OrZero(hi % 0x8000_0000, lo);
  }
}
