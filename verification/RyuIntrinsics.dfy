/** The 64-bit helpers of the Ryu conversion: full products, shifted products, and divisibility by powers. */
module RyuIntrinsics {
  import opened Words

  function Pow5(n: nat): (p: nat)
    ensures p >= 1
  {
    if n == 0 then 1 else 5 * Pow5(n - 1)
  }

  /** `(uint32_t)x - d * (uint32_t)(x/d)` in 32-bit arithmetic. */
  function LowRemainder(x: u64, d: nat): u32
    requires 0 < d < W32
  {
    DivNat(x, d);
    Sub32(x % W32, d * (x / d % W32))
  }

  /** Truncating to 32 bits before subtracting loses nothing of a remainder. */
  lemma LowRemainderCorrect(x: u64, d: nat)
    requires 0 < d < W32
    ensures LowRemainder(x, d) == x % d
  {
    hide *;
    WordBase();
    var q, r := x / d, x % d;
    DivModSpec(x, d);
    DivNat(x, d);
    DivModSpec(x, W32);
    DivModSpec(q, W32);
    RemainderIs(x, d);
    LowDifference(x, q, r, d, W32, x / W32, x % W32, q / W32, q % W32);
    DivModUnique(x % W32 - d * (q % W32), W32, d * (q / W32) - x / W32, r);
  }

  lemma WordBase()
    ensures W32 == 0x1_0000_0000
  {
  }

  lemma RemainderIs(x: u64, d: nat)
    requires 0 < d < W32
    ensures LowRemainder(x, d) == (x % W32 - d * (x / d % W32)) % W32
  {
  }

  /** The low words of x and of q, for x == q * d + r. */
  lemma LowDifference(x: int, q: int, r: int, d: int, w: int, xh: int, xl: int, qh: int, ql: int)
    requires x == q * d + r && x == xh * w + xl && q == qh * w + ql
    ensures xl - d * ql == (d * qh - xh) * w + r
  {
    MulDistributes(qh * w, ql, d);
    MulDistributes(d * qh, xh, w);
    MulAssociates(d, qh, w);
  }

  // ----- umul128

  /** The full product of two words, on 32-bit halves. */
  method Umul128(a: u64, b: u64) returns (lo: u64, hi: u64)
    ensures hi * W64 + lo == a * b
  {
    var aLo, aHi := a % W32, a / W32;
    var bLo, bHi := b % W32, b / W32;
    ProductBound(aLo, bLo, W32 - 1, W32 - 1);
    ProductBound(aLo, bHi, W32 - 1, W32 - 1);
    ProductBound(aHi, bLo, W32 - 1, W32 - 1);
    ProductBound(aHi, bHi, W32 - 1, W32 - 1);
    var b00: u64, b01: u64, b10: u64, b11: u64 := aLo * bLo, aLo * bHi, aHi * bLo, aHi * bHi;
    var b00Lo, b00Hi := b00 % W32, b00 / W32;
    var mid1: u64 := b10 + b00Hi;
    var mid1Lo, mid1Hi := mid1 % W32, mid1 / W32;
    var mid2: u64 := b01 + mid1Lo;
    var mid2Lo, mid2Hi := mid2 % W32, mid2 / W32;
    SplitProduct(aHi, aLo, bHi, bLo);
    assert a * b == b11 * W64 + (b01 + b10) * W32 + b00;
    hi := b11 + mid1Hi + mid2Hi;
    TwoTo32();
    ShiftedHalf(mid2Lo, b00Lo);
    lo := Or(Shl64(mid2Lo, 32), b00Lo);
  }

  lemma ShiftedHalf(x: u32, y: u32)
    ensures Or(Shl64(x, 32), y) == x * W32 + y
  {
    TwoTo32();
    DivModUnique(x * W32, W64, 0, x * W32);
    DivMulCancel(x, W32);
    OrDisjoint(x * W32, y, 32);
  }

  // ----- mulShift64

  /** A table entry: two words of a 128-bit multiplier. */
  datatype Row = Row(lo: u64, hi: u64)

  function Multiplier(row: Row): nat { row.hi * W64 + row.lo }

  /** `mulShift64`, in 128-bit arithmetic whose only truncation is the final one. */
  function MulShift64(m: u64, row: Row, j: nat): u64
    requires j >= 64
  {
    Products(m, row);
    var b0, b2 := m * row.lo, m * row.hi;
    var sum := (b0 / W64 + b2) % (W64 * W64);
    DivNat(sum, Pow2(j - 64));
    sum / Pow2(j - 64) % W64
  }

  lemma Products(m: u64, row: Row)
    ensures 0 <= m * row.lo && 0 <= m * row.hi
    ensures 0 <= m * row.lo / W64 + m * row.hi < W64 * W64
  {
    MulMono(0, m, row.lo);
    MulMono(0, m, row.hi);
    MulMono(m, W64 - 1, row.lo);
    MulMono(m, W64 - 1, row.hi);
    MulMono(row.lo, W64 - 1, W64 - 1);
    MulMono(row.hi, W64 - 1, W64 - 1);
  }

  /** The nested floors are one floor: m * multiplier / 2^j, modulo 2^64. */
  lemma MulShiftFloor(m: u64, row: Row, j: nat)
    requires j >= 64
    ensures MulShift64(m, row, j) == m * Multiplier(row) / Pow2(j) % W64
  {
    hide *;
    Products(m, row);
    MulShiftIs(m, row, j);
    var b0, b2, p := m * row.lo, m * row.hi, Pow2(j - 64);
    TwoTo64();
    Pow2Add(64, j - 64);
    var sum := b0 / W64 + b2;
    DivModUnique(sum, W64 * W64, 0, sum);
    ModAddMultiple(b0, b2, W64);
    DivDiv(b0 + b2 * W64, W64, p);
  }

  lemma MulShiftIs(m: u64, row: Row, j: nat)
    requires j >= 64
    ensures W64 > 0 && W64 * W64 > 0
    ensures MulShift64(m, row, j) == (m * row.lo / W64 + m * row.hi) % (W64 * W64) / Pow2(j - 64) % W64
    ensures m * Multiplier(row) == m * row.lo + m * row.hi * W64
  {
    hide Pow2;
    Products(m, row);
  }

  // ----- pow5Factor and friends

  const M_INV_5: u64 := 14757395258967641293
  const N_DIV_5: u64 := 3689348814741910323

  /** 5^k divides v and 5^(k+1) does not. */
  ghost predicate IsPow5Factor(v: nat, k: nat)
  {
    v % Pow5(k) == 0 && v % Pow5(k + 1) != 0
  }

  /** Multiplying by the inverse of 5 modulo 2^64 stays small exactly for multiples of 5, and then divides. */
  lemma InverseOfFive(v: u64)
    ensures v % 5 == 0 <==> v * M_INV_5 % W64 <= N_DIV_5
    ensures v % 5 == 0 ==> v * M_INV_5 % W64 == v / 5
  {
    var w, r := v / 5, v % 5;
    assert 5 * M_INV_5 == 4 * W64 + 1;
    var p := v * M_INV_5;
    var t := p % W64;
    DivModSpec(p, W64);
    // five times the product is v modulo 2^64
    assert 5 * t == v + (4 * v - 5 * (p / W64)) * W64 by {
      assert 5 * p == v * (5 * M_INV_5) == 4 * v * W64 + v;
      assert 5 * (p / W64 * W64) == 5 * (p / W64) * W64;
    }
    if t <= N_DIV_5 {
      assert 4 * v - 5 * (p / W64) == 0;
      assert v == 5 * t;
    }
    if r == 0 {
      assert p == w + 4 * w * W64;
      ModAddMultiple(w, 4 * w, W64);
      DivModUnique(w, W64, 0, w);
    }
  }

  /** `pow5Factor`: the largest power of 5 dividing a nonzero word. */
  method Pow5Factor(v: u64) returns (count: nat)
    requires v != 0
    ensures IsPow5Factor(v, count)
  {
    var value := v;
    count := 0;
    assert Pow5(0) == 1;
    while true
      invariant 0 < value <= v && v == value * Pow5(count)
      decreases value
    {
      InverseOfFive(value);
      var next: u64 := value * M_INV_5 % W64;
      if next > N_DIV_5 {
        FactorFound(v, value, count);
        return;
      }
      assert value == 5 * next;
      assert 5 * next * Pow5(count) == next * Pow5(count + 1);
      value := next;
      count := count + 1;
    }
  }

  lemma FactorFound(v: nat, w: nat, k: nat)
    requires v == w * Pow5(k) && w % 5 != 0
    ensures IsPow5Factor(v, k)
  {
    var p := Pow5(k);
    DivMulCancel(w, p);
    assert Pow5(k + 1) == p * 5;
    DivDiv(v, p, 5);
  }

  /** A power of 5 divides v exactly up to the largest one that does. */
  lemma {:induction false} Pow5Divides(v: nat, k: nat, p: nat)
    requires IsPow5Factor(v, k)
    ensures v % Pow5(p) == 0 <==> k >= p
    decreases if p > k then p - k else k - p
  {
    if p < k {
      Pow5Divides(v, k, p + 1);
      DivDiv(v, Pow5(p), 5);
      assert Pow5(p + 1) == Pow5(p) * 5;
    } else if p > k + 1 {
      Pow5Divides(v, k, p - 1);
      DivDiv(v, Pow5(p - 1), 5);
      assert Pow5(p) == Pow5(p - 1) * 5;
    }
  }

  /** `multipleOfPowerOf5` */
  method MultipleOfPowerOf5(v: u64, p: nat) returns (b: bool)
    requires v != 0
    ensures b <==> v % Pow5(p) == 0
  {
    var k := Pow5Factor(v);
    Pow5Divides(v, k, p);
    b := k >= p;
  }

  /** `multipleOfPowerOf2` */
  predicate MultipleOfPowerOf2(v: u64, p: nat)
  {
    And(v, Pow2(p) - 1) == 0
  }

  lemma MultipleOfPowerOf2Correct(v: u64, p: nat)
    ensures MultipleOfPowerOf2(v, p) <==> v % Pow2(p) == 0
  {
    AndMask(v, p);
  }
}
