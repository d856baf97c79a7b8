/**
  Truncation with a sticky bit.  `fma` replaces an exact quantity by an integer that is odd whenever it
  is not exact, and shifts it with the lost bits collected in the lowest one.  Here is why such an
  integer rounds to 53 bits exactly as the exact quantity does.
 */
module Sticky {
  import opened Words
  import opened Ieee

  /** s stands for a / d: equal to it, or odd and within one of it. */
  ghost predicate OddRound(s: nat, a: nat, d: nat)
  {
    a == s * d || (s % 2 == 1 && (s - 1) * d < a < (s + 1) * d)
  }

  /** s and a / d lie strictly inside the same cell [q * g, (q + 1) * g]. */
  ghost predicate SameCell(s: nat, a: nat, d: nat, q: nat, g: nat)
  {
    q * g < s < (q + 1) * g && q * g * d < a < (q + 1) * g * d
  }

  /** What the addition of two aligned numbers leaves: exact, or sticky and long enough to be shifted. */
  ghost predicate Standing(s: nat, a: nat, d: nat, q: nat, k: nat)
  {
    a == s * d || (k >= 1 && s >= Pow2(61 + k) && SameCell(s, a, d, q, Pow2(k)))
  }

  /** The C idiom `x>>s | !!(x<<64-s)`. */
  function OddShift(x: nat, s: nat): nat
  {
    Or(Shr(x, s), Flag(Low(x, s) != 0))
  }

  lemma OddShiftValue(x: nat, s: nat)
    ensures OddShift(x, s) == if Low(x, s) != 0 && Shr(x, s) % 2 == 0 then Shr(x, s) + 1 else Shr(x, s)
    ensures x == Shr(x, s) * Pow2(s) + Low(x, s) && Low(x, s) < Pow2(s)
  {
    OrFlag(Shr(x, s), Low(x, s) != 0);
    DivModSpec(x, Pow2(s));
  }

  /** Rounding to odd an exact number. */
  lemma OddShiftExact(s: nat, k: nat)
    ensures OddRound(OddShift(s, k), s, Pow2(k))
  {
    hide *;
    OddShiftValue(s, k);
    OddOfQuotient(s, Pow2(k), Shr(s, k), Low(s, k));
  }

  lemma OddOfQuotient(s: nat, p: nat, t: nat, r: nat)
    requires s == t * p + r && r < p
    ensures OddRound(if r != 0 && t % 2 == 0 then t + 1 else t, s, p)
  {
    assert (t - 1) * p == t * p - p && (t + 1) * p == t * p + p && (t + 2) * p == t * p + 2 * p;
  }

  /** Scaling the exact quantity. */
  lemma OddRoundScale(s: nat, a: nat, d: nat, c: nat)
    requires OddRound(s, a, d) && c > 0
    ensures OddRound(s, a * c, d * c)
  {
    MulAssociates(s, d, c);
    if a != s * d {
      MulStrict((s - 1) * d, a, c);
      MulStrict(a, (s + 1) * d, c);
      MulAssociates(s - 1, d, c);
      MulAssociates(s + 1, d, c);
    }
  }

  /** Shifting a number in the same cell as the exact quantity rounds that quantity to odd. */
  lemma OddShiftCell(s: nat, a: nat, d: nat, q: nat, k: nat, j: nat)
    requires d > 0 && 1 <= k <= j + 1 && SameCell(s, a, d, q, Pow2(k))
    ensures OddRound(OddShift(s, j), a, d * Pow2(j))
  {
    var p, g := Pow2(j), Pow2(k);
    var f := Pow2(j + 1 - k);
    Pow2Add(j + 1 - k, k);
    assert f * g == 2 * p;
    OddShiftValue(s, j);
    hide *;
    WiderCell(s, a, d, q, g, f);
    var c := Quotient(q, f);
    CellBounds(s, a, d, c, 2 * p);
    MiddleOfCell(s, c, p, Shr(s, j), Low(s, j));
    OddCentre(a, d, c, p);
  }

  function Quotient(q: nat, f: nat): nat
    requires f > 0
  {
    DivNat(q, f);
    q / f
  }

  lemma CellBounds(s: nat, a: nat, d: nat, q: nat, g: nat)
    requires SameCell(s, a, d, q, g)
    ensures q * g < s < (q + 1) * g && q * g * d < a < (q + 1) * g * d
  {
  }

  /** A cell of size g lies in a cell of size f * g. */
  lemma WiderCell(s: nat, a: nat, d: nat, q: nat, g: nat, f: nat)
    requires f > 0 && g > 0 && d > 0 && SameCell(s, a, d, q, g)
    ensures SameCell(s, a, d, Quotient(q, f), f * g)
  {
    DivModSpec(q, f);
    var c := Quotient(q, f);
    assert c * f <= q && q + 1 <= (c + 1) * f by { assert (c + 1) * f == c * f + f; }
    CellEdges(c, c * f, q, f, g, d);
    CellEdges(c + 1, q + 1, (c + 1) * f, f, g, d);
  }

  /** Scaling lo <= hi by g and by g * d, where one of them is c * f. */
  lemma CellEdges(c: nat, lo: nat, hi: nat, f: nat, g: nat, d: nat)
    requires lo <= hi
    ensures lo * g <= hi * g && lo * g * d <= hi * g * d
    ensures c * f * g == c * (f * g)
  {
    MulMono(lo, hi, g);
    MulMono(lo * g, hi * g, d);
  }

  /** Strictly inside a cell of size 2p, rounding to odd multiples of p gives the middle. */
  lemma MiddleOfCell(s: nat, c: nat, p: nat, t: nat, r: nat)
    requires p > 0 && c * (2 * p) < s < (c + 1) * (2 * p) && s == t * p + r && r < p
    ensures (if r != 0 && t % 2 == 0 then t + 1 else t) == 2 * c + 1
  {
    assert c * (2 * p) == (2 * c) * p && (c + 1) * (2 * p) == (2 * c + 2) * p;
    assert (t + 1) * p == t * p + p;
    MulCancel(2 * c, t + 1, p);
    MulCancel(t, 2 * c + 2, p);
    if t == 2 * c && r == 0 { assert false; }
  }

  lemma OddCentre(a: nat, d: nat, c: nat, p: nat)
    requires c * (2 * p) * d < a < (c + 1) * (2 * p) * d
    ensures OddRound(2 * c + 1, a, d * p)
  {
    assert c * (2 * p) * d == (2 * c) * (d * p) && (c + 1) * (2 * p) * d == (2 * c + 2) * (d * p);
  }

  /** Shifting what stands for a / d so that 63 bits remain. */
  lemma StandingShift(s: nat, a: nat, d: nat, q: nat, k: nat, j: nat)
    requires d > 0 && Standing(s, a, d, q, k) && BitLen(s) == j + 63
    ensures OddRound(OddShift(s, j), a, d * Pow2(j))
  {
    if a == s * d {
      OddShiftExact(s, j);
      OddRoundScale(OddShift(s, j), s, Pow2(j), d);
      assert Pow2(j) * d == d * Pow2(j);
    } else {
      BitLenAtLeast(s, 61 + k);
      OddShiftCell(s, a, d, q, k, j);
    }
  }

  lemma OddShiftLength(s: nat, j: nat)
    requires BitLen(s) == j + 63
    ensures Pow2(62) <= OddShift(s, j) < Pow2(63)
  {
    BitLenBounds(s);
    Pow2Add(62, j);
    Pow2Add(63, j);
    DivRange(s, Pow2(j), Pow2(62), Pow2(63));
    assert Shr(s, j) == s / Pow2(j);
    TwoTo64();
    hide *;
    OddShiftValue(s, j);
  }

  // ----- rounding

  /** The decision of round-to-nearest on an odd remainder and on anything within one of it. */
  lemma NearerOdd(q: nat, r: nat, h: nat, m: nat, b: nat, d: nat)
    requires d > 0 && r % 2 == 1 && m == 2 * h && r < m && h % 2 == 0 && (r - 1) * d < b < (r + 1) * d
    ensures NearerOf(q, b, m * d) == NearerOf(q, r, m)
    ensures b < m * d
  {
    var hd := h * d;
    MulMono(r + 1, m, d);
    assert m * d == 2 * hd;
    if r > h { MulMono(h, r - 1, d); } else { MulMono(r + 1, h, d); }
  }

  lemma OddRemainder(s: nat, a: nat, d: nat, q: nat, r: nat, h: nat, m: nat) returns (b: nat)
    requires d > 0 && m == 2 * h && s == q * m + r && r < m && s % 2 == 1
    requires (s - 1) * d < a < (s + 1) * d
    ensures r % 2 == 1 && (r - 1) * d < b < (r + 1) * d && a == q * (m * d) + b
  {
    var qh, w := q * h, q * (m * d);
    assert q * m == 2 * qh;
    assert (s - 1) * d == w + (r - 1) * d;
    assert (s + 1) * d == w + (r + 1) * d;
    MulMono(0, r - 1, d);
    b := a - w;
  }

  /** An odd-rounded number rounds to nearest, two or more bits up, like the exact one. */
  lemma RneOdd(s: nat, a: nat, k: nat, t: nat)
    requires OddRound(s, a, Pow2(k)) && t >= 2
    ensures Rne(a, t + k) == Rne(s, t)
  {
    FourDivides(t);
    hide Rne, NearerOf, Pow2;
    if a == s * Pow2(k) {
      RneScale(s, t, k);
    } else {
      Pow2Add(t, k);
      SameDecision(s, a, Pow2(k), Pow2(t), Pow2(t - 1), t + k, t);
    }
  }

  lemma RneDef(n: nat, s: nat, p: nat, q: nat, r: nat)
    requires p == Pow2(s) && n == q * p + r && r < p
    ensures Rne(n, s) == NearerOf(q, r, p)
  {
    DivModUnique(n, p, q, r);
  }

  lemma Split(s: nat, m: nat) returns (q: nat, r: nat)
    requires m > 0
    ensures s == q * m + r && r < m
  {
    DivModSpec(s, m);
    DivNat(s, m);
    q, r := s / m, s % m;
  }

  lemma FourDivides(t: nat)
    requires t >= 2
    ensures Pow2(t) == 2 * Pow2(t - 1) && Pow2(t - 1) % 2 == 0
  {
    assert Pow2(t - 1) == 2 * Pow2(t - 2);
  }

  lemma SameDecision(s: nat, a: nat, d: nat, m: nat, h: nat, e: nat, t: nat)
    requires d > 0 && m > 0 && m == 2 * h && h % 2 == 0 && s % 2 == 1
    requires (s - 1) * d < a < (s + 1) * d && Pow2(e) == m * d && Pow2(t) == m
    ensures Rne(a, e) == Rne(s, t)
  {
    hide Pow2, NearerOf, Rne;
    var q, r := Split(s, m);
    var b := OddRemainder(s, a, d, q, r, h, m);
    NearerOdd(q, r, h, m, b, d);
    RneDef(s, t, m, q, r);
    RneDef(a, e, m * d, q, b);
  }

  /** The exact quantity has the length its odd-rounded 63 bits show. */
  lemma OddLength(s: nat, a: nat, k: nat)
    requires OddRound(s, a, Pow2(k)) && Pow2(62) <= s < Pow2(63)
    ensures BitLen(a) == k + 63
  {
    Pow2Add(62, k);
    Pow2Add(63, k);
    TwoTo64();
    OddBounds(s, a, Pow2(k), 0x4000_0000_0000_0000);
    hide *;
    BitLenUnique(a, k + 63);
  }

  lemma OddBounds(s: nat, a: nat, d: nat, m: nat)
    requires OddRound(s, a, d) && m <= s < 2 * m && m % 2 == 0 && d > 0
    ensures m * d <= a < 2 * m * d
  {
    MulMono(m, s, d);
    MulStrict(s, 2 * m, d);
    if a != s * d {
      MulMono(m, s - 1, d);
      MulMono(s + 1, 2 * m, d);
    }
  }
}
