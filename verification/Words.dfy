/**
  Fixed-width unsigned arithmetic, written out on integers.  A C `uint64_t` is an `int` in
  [0, 2^64); additions, subtractions and left shifts wrap explicitly, right shifts divide, and the
  bitwise operators are defined bit by bit.
 */
module Words {

  const W32: int := 0x1_0000_0000
  const W64: int := 0x1_0000_0000_0000_0000

  type byte = x: int | 0 <= x < 256
  type i32 = x: int | -0x8000_0000 <= x < 0x8000_0000
  type u32 = x: int | 0 <= x < 0x1_0000_0000
  type u64 = x: int | 0 <= x < 0x1_0000_0000_0000_0000

  function Pow2(n: nat): (p: nat)
    ensures p >= 1
  {
    if n == 0 then 1 else 2 * Pow2(n - 1)
  }

  function Pow10(n: nat): (p: nat)
    ensures p >= 1
  {
    if n == 0 then 1 else 10 * Pow10(n - 1)
  }

  // ----- wrapping operators

  function Add32(a: int, b: int): u32 { (a + b) % W32 }

  function Sub32(a: int, b: int): u32 { (a - b) % W32 }

  function Shl32(x: nat, n: nat): u32 { (x * Pow2(n)) % W32 }

  function Add64(a: int, b: int): u64 { (a + b) % W64 }

  function Sub64(a: int, b: int): u64 { (a - b) % W64 }

  function Shl64(x: nat, n: nat): u64 { (x * Pow2(n)) % W64 }

  function Shr(x: nat, n: nat): nat { DivNat(x, Pow2(n)); x / Pow2(n) }

  /** The low n bits. */
  function Low(x: nat, n: nat): nat { x % Pow2(n) }

  function Not64(x: u64): u64 { W64 - 1 - x }

  function Flag(b: bool): nat { if b then 1 else 0 }

  /** A number from its sign and its magnitude. */
  function Signed(negative: bool, n: int): int { if negative then -n else n }

  lemma Add32Cases(a: u32, b: u32)
    ensures Add32(a, b) == if a + b < 0x1_0000_0000 then a + b else a + b - 0x1_0000_0000
  {
  }

  lemma FlagValues()
    ensures Flag(true) == 1 && Flag(false) == 0
  {
  }

  // ----- bitwise operators, bit by bit

  function Or(a: nat, b: nat): nat
  {
    if a == 0 then b
    else if b == 0 then a
    else 2 * Or(a / 2, b / 2) + Flag(a % 2 == 1 || b % 2 == 1)
  }

  function And(a: nat, b: nat): nat
  {
    if a == 0 || b == 0 then 0
    else 2 * And(a / 2, b / 2) + Flag(a % 2 == 1 && b % 2 == 1)
  }

  function Xor(a: nat, b: nat): nat
  {
    if a == 0 then b
    else if b == 0 then a
    else 2 * Xor(a / 2, b / 2) + Flag(a % 2 != b % 2)
  }

  // ----- nonlinear arithmetic

  lemma MulMono(a: int, b: int, c: int)
    requires a <= b && c >= 0
    ensures a * c <= b * c
  {
  }

  lemma MulStrict(a: int, b: int, c: int)
    requires a < b && c > 0
    ensures a * c < b * c
  {
  }

  lemma MulCancel(a: int, b: int, c: int)
    requires c > 0
    ensures a * c == b * c ==> a == b
    ensures a * c < b * c ==> a < b
    ensures a * c <= b * c ==> a <= b
  {
    if a < b { MulStrict(a, b, c); }
    if b < a { MulStrict(b, a, c); }
  }

  lemma MulAssociates(a: int, b: int, c: int)
    ensures a * (b * c) == a * b * c
  {
  }

  lemma MulDistributes(a: int, b: int, c: int)
    ensures (a + b) * c == a * c + b * c && (a - b) * c == a * c - b * c
  {
  }

  lemma ProductNat(n: nat, p: nat)
    ensures n * p >= 0
  {
  }

  lemma ProductBound(a: nat, b: nat, m: nat, n: nat)
    requires a <= m && b <= n
    ensures 0 <= a * b <= m * n
  {
    MulMono(a, m, b);
    MulMono(b, n, m);
    MulMono(0, a, b);
  }

  lemma TwiceProduct(a: int, p: int)
    ensures 2 * (a * p) == 2 * a * p && a * (2 * p) == 2 * (a * p)
  {
  }

  /** A product of two numbers of two digits in base W32. */
  lemma SplitProduct(xh: int, xl: int, yh: int, yl: int)
    ensures (xh * W32 + xl) * (yh * W32 + yl) == xh * yh * W64 + (xl * yh + xh * yl) * W32 + xl * yl
  {
    calc {
      (xh * W32 + xl) * (yh * W32 + yl);
      xh * W32 * (yh * W32) + xh * W32 * yl + xl * (yh * W32) + xl * yl;
      xh * yh * W64 + (xl * yh + xh * yl) * W32 + xl * yl;
    }
  }

  lemma DivModUnique(a: int, d: int, q: int, r: int)
    requires d > 0 && a == q * d + r && 0 <= r < d
    ensures a / d == q && a % d == r
  {
    var q', r' := a / d, a % d;
    assert a == q' * d + r';
    assert (q - q') * d == r' - r;
    if q < q' { MulMono(q - q', -1, d); }
    if q' < q { MulMono(1, q - q', d); }
  }

  lemma DivNat(a: nat, d: nat)
    requires d > 0
    ensures 0 <= a / d <= a
  {
    var q := a / d;
    assert a == q * d + a % d;
    if q < 0 { MulMono(q, -1, d); }
    if q > a { MulMono(a + 1, q, d); MulMono(1, d, a + 1); }
  }

  lemma DivModSpec(a: int, d: int)
    requires d > 0
    ensures a == (a / d) * d + a % d && 0 <= a % d < d
  {
  }

  lemma DivMulCancel(a: int, d: int)
    requires d > 0
    ensures (a * d) / d == a && (a * d) % d == 0
  {
    DivModUnique(a * d, d, a, 0);
  }

  /** Scaling both sides by c scales the remainder and keeps the quotient. */
  lemma DivModScale(a: int, d: int, c: int)
    requires d > 0 && c > 0
    ensures d * c > 0
    ensures (a * c) / (d * c) == a / d
    ensures (a * c) % (d * c) == (a % d) * c
  {
    var q, r := a / d, a % d;
    DivModSpec(a, d);
    MulMono(1, d, c);
    calc {
      a * c;
      (q * d + r) * c;
      q * d * c + r * c;
      q * (d * c) + r * c;
    }
    MulStrict(r, d, c);
    MulMono(0, r, c);
    DivModUnique(a * c, d * c, q, r * c);
  }

  lemma DivDiv(a: int, d: int, c: int)
    requires d > 0 && c > 0
    ensures d * c > 0
    ensures a / (d * c) == a / d / c
    ensures a % (d * c) == (a / d % c) * d + a % d
  {
    var q, r := a / d, a % d;
    var q2, r2 := q / c, q % c;
    DivModSpec(a, d);
    DivModSpec(q, c);
    calc {
      a;
      q * d + r;
      (q2 * c + r2) * d + r;
      q2 * c * d + r2 * d + r;
      q2 * (d * c) + (r2 * d + r);
    }
    MulMono(r2, c - 1, d);
    MulMono(0, r2, d);
    assert (c - 1) * d == d * c - d;
    MulMono(1, d, c);
    DivModUnique(a, d * c, q2, r2 * d + r);
  }

  lemma DivLe(a: int, b: int, d: int)
    requires d > 0 && a <= b
    ensures a / d <= b / d
  {
    DivModSpec(a, d);
    DivModSpec(b, d);
    if a / d > b / d {
      MulMono(b / d + 1, a / d, d);
    }
  }

  /** A quotient lies between the integers its numerator lies between. */
  lemma DivRange(m: int, p: int, lo: int, hi: int)
    requires p > 0 && lo * p <= m < hi * p
    ensures lo <= m / p < hi
  {
    DivModSpec(m, p);
    if m / p < lo { MulMono(m / p + 1, lo, p); }
    if m / p >= hi { MulMono(hi, m / p, p); }
  }

  /** Adding a multiple of the modulus changes nothing. */
  lemma ModAddMultiple(a: int, k: int, d: int)
    requires d > 0
    ensures (a + k * d) % d == a % d
    ensures (a + k * d) / d == a / d + k
  {
    DivModSpec(a, d);
    assert a + k * d == (a / d + k) * d + a % d;
    DivModUnique(a + k * d, d, a / d + k, a % d);
  }

  // ----- powers of two

  lemma {:induction false} Pow2Add(a: nat, b: nat)
    ensures Pow2(a + b) == Pow2(a) * Pow2(b)
  {
    if a > 0 {
      Pow2Add(a - 1, b);
      assert Pow2(a + b) == 2 * Pow2(a - 1 + b);
    }
  }

  lemma {:induction false} Pow2Mono(a: nat, b: nat)
    requires a <= b
    ensures Pow2(a) <= Pow2(b)
    ensures a < b ==> Pow2(a) < Pow2(b)
    decreases b
  {
    if a < b { Pow2Mono(a, b - 1); }
  }

  lemma Pow2Order(a: nat, b: nat)
    ensures a <= b ==> Pow2(a) <= Pow2(b)
    ensures a < b ==> Pow2(a) < Pow2(b)
  {
    if a <= b { Pow2Mono(a, b); }
  }

  lemma PowDoubles(k: nat)
    ensures Pow2(k + 1) == 2 * Pow2(k)
  {
  }

  lemma TwoTo12()
    ensures Pow2(0) == 1 && Pow2(1) == 2 && Pow2(9) == 512 && Pow2(10) == 1024 && Pow2(11) == 2048 && Pow2(12) == 4096
  {
  }

  lemma TwoTo21()
    ensures Pow2(20) == 0x10_0000 && Pow2(21) == 0x20_0000
  {
    TwoTo12();
    Pow2Add(10, 10);
  }

  lemma TwoTo32()
    ensures Pow2(31) == 0x8000_0000 && Pow2(32) == W32
  {
    TwoTo12();
    TwoTo21();
    Pow2Add(20, 11);
  }

  lemma TwoTo54()
    ensures Pow2(52) == 0x10_0000_0000_0000 && Pow2(53) == 0x20_0000_0000_0000 && Pow2(54) == 0x40_0000_0000_0000
  {
    TwoTo21();
    TwoTo32();
    Pow2Add(32, 20);
  }

  lemma TwoTo64()
    ensures Pow2(62) == 0x4000_0000_0000_0000 && Pow2(63) == 0x8000_0000_0000_0000 && Pow2(64) == W64
  {
    TwoTo12();
    TwoTo54();
    Pow2Add(52, 10);
  }

  /** The number of bits of n. */
  function BitLen(n: nat): nat
  {
    if n == 0 then 0 else 1 + BitLen(n / 2)
  }

  lemma {:induction false} BitLenBounds(n: nat)
    requires n > 0
    ensures BitLen(n) >= 1
    ensures Pow2(BitLen(n) - 1) <= n < Pow2(BitLen(n))
  {
    if n > 1 { BitLenBounds(n / 2); }
  }

  lemma BitLenUnique(n: nat, l: nat)
    requires l >= 1 && Pow2(l - 1) <= n < Pow2(l)
    ensures BitLen(n) == l
  {
    BitLenBounds(n);
    Pow2Order(BitLen(n), l - 1);
    Pow2Order(l, BitLen(n) - 1);
  }

  // ----- what the bitwise operators do on the operands the library uses

  /** Or of bits that do not overlap is a sum. */
  lemma {:induction false} OrDisjoint(a: nat, b: nat, k: nat)
    requires a % Pow2(k) == 0 && b < Pow2(k)
    ensures Or(a, b) == a + b
    decreases k
  {
    if a != 0 && b != 0 {
      var p := Pow2(k - 1);
      assert Pow2(k) == p * 2;
      DivModSpec(a, Pow2(k));
      var c := a / Pow2(k);
      assert a == c * p * 2;
      assert a / 2 == c * p;
      DivMulCancel(c, p);
      OrDisjoint(a / 2, b / 2, k - 1);
    }
  }

  lemma OrCommutes(a: nat, b: nat)
    ensures Or(a, b) == Or(b, a)
  {
  }

  /** Or with a 0/1 flag sets the lowest bit. */
  lemma OrFlag(a: nat, f: bool)
    ensures Or(a, Flag(f)) == if f && a % 2 == 0 then a + 1 else a
  {
    if a != 0 && f {
      assert Or(a / 2, 0) == a / 2;
      assert Or(a, 1) == 2 * Or(a / 2, 0) + 1;
    }
  }

  lemma AndStep(a: nat, b: nat)
    ensures And(a, b) == 2 * And(a / 2, b / 2) + Flag(a % 2 == 1 && b % 2 == 1)
  {
  }

  lemma LowStep(a: nat, k: nat)
    requires k > 0
    ensures Low(a, k) == 2 * Low(a / 2, k - 1) + a % 2
    ensures Shr(a, k) == Shr(a / 2, k - 1)
  {
    DivDiv(a, 2, Pow2(k - 1));
  }

  lemma {:induction false} AndAtMost(a: nat, b: nat)
    ensures And(a, b) <= a
  {
    if a != 0 && b != 0 { AndAtMost(a / 2, b / 2); }
  }

  lemma {:induction false} XorBound(a: nat, b: nat, k: nat)
    requires a < Pow2(k) && b < Pow2(k)
    ensures Xor(a, b) < Pow2(k)
    decreases k
  {
    if a != 0 && b != 0 { XorBound(a / 2, b / 2, k - 1); }
  }

  lemma XorStep(a: nat, b: nat)
    ensures Xor(a, b) == 2 * Xor(a / 2, b / 2) + Flag(a % 2 != b % 2)
  {
  }

  lemma AndOne(a: nat)
    ensures And(a, 1) == a % 2
  {
    AndStep(a, 1);
  }

  lemma AndEven(a: nat, b: nat)
    ensures And(a, 2 * b) == 2 * And(a / 2, b)
  {
    AndStep(a, 2 * b);
  }

  lemma AndZero(a: nat)
    ensures And(a, 0) == 0
  {
  }

  /** The lowest bit apart from the others. */
  lemma AndOdd(a: nat, z: nat)
    ensures And(a, 2 * z + 1) == 2 * And(a / 2, z) + a % 2
  {
    hide *;
    AndStep(a, 2 * z + 1);
    FlagValues();
    OddHalf(z);
  }

  lemma OddHalf(z: nat)
    ensures (2 * z + 1) / 2 == z && (2 * z + 1) % 2 == 1
  {
  }

  /** And with 2^k - 1 keeps the low k bits. */
  lemma {:induction false} AndMask(a: nat, k: nat)
    ensures And(a, Pow2(k) - 1) == Low(a, k)
    decreases k
  {
    hide *;
    LowNothing(a);
    AndZero(a);
    if k > 0 {
      PowDoubles(k - 1);
      AndOdd(a, Pow2(k - 1) - 1);
      DivNat(a, 2);
      AndMask(a / 2, k - 1);
      LowStep(a, k);
    }
  }

  /** And with 2^k extracts bit k in place. */
  lemma {:induction false} AndBit(a: nat, k: nat)
    ensures And(a, Pow2(k)) == if Shr(a, k) % 2 == 1 then Pow2(k) else 0
    decreases k
  {
    AndStep(a, Pow2(k));
    if k == 0 {
      assert And(a / 2, 0) == 0;
    } else {
      assert Pow2(k) == 2 * Pow2(k - 1);
      FlagValues();
      hide *;
      AndBit(a / 2, k - 1);
      LowStep(a, k);
    }
  }

  /** And with bits k..w-1 set extracts those bits in place. */
  lemma {:induction false} AndField(a: nat, k: nat, w: nat)
    requires k <= w
    ensures Pow2(k) <= Pow2(w)
    ensures And(a, Pow2(w) - Pow2(k)) == Low(a, w) - Low(a, k)
    decreases w
  {
    hide *;
    if k == 0 {
      AndMask(a, w);
      LowNothing(a);
      Pow2Order(0, w);
    } else {
      DivNat(a, 2);
      AndField(a / 2, k - 1, w - 1);
      PowDoubles(k - 1);
      PowDoubles(w - 1);
      AndEven(a, Pow2(w - 1) - Pow2(k - 1));
      LowStep(a, k);
      LowStep(a, w);
    }
  }

  lemma LowNothing(a: nat)
    ensures Low(a, 0) == 0 && Pow2(0) == 1
  {
  }

  lemma LowSmall(a: nat, k: nat)
    requires a < Pow2(k)
    ensures Low(a, k) == a && Shr(a, k) == 0
  {
    DivModUnique(a, Pow2(k), 0, a);
  }
}
