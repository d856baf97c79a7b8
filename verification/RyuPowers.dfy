/**
  Powers of 2, 5 and 10 for the Ryu conversion: which powers divide a product, and the two integer
  approximations of logarithms, which are their exact floors.
 */
module RyuPowers {
  import opened Words
  import opened RyuIntrinsics

  // ----- general powers

  function Pow(b: nat, n: nat): nat { if n == 0 then 1 else b * Pow(b, n - 1) }

  lemma {:induction false} PowAdd(b: nat, m: nat, n: nat)
    ensures Pow(b, m + n) == Pow(b, m) * Pow(b, n)
  {
    if m > 0 {
      PowAdd(b, m - 1, n);
      assert Pow(b, m + n) == b * Pow(b, m - 1 + n);
    }
  }

  lemma {:induction false} PowMul(b: nat, m: nat, n: nat)
    ensures Pow(b, m * n) == Pow(Pow(b, m), n)
  {
    if n > 0 {
      PowMul(b, m, n - 1);
      assert m * n == m + m * (n - 1);
      PowAdd(b, m, m * (n - 1));
    }
  }

  lemma {:induction false} PowMono(x: nat, y: nat, n: nat)
    requires x <= y
    ensures Pow(x, n) <= Pow(y, n)
    ensures x < y && n > 0 ==> Pow(x, n) < Pow(y, n)
  {
    if n > 0 {
      PowMono(x, y, n - 1);
      PowPositive(y, n - 1);
      MulMono(x, y, Pow(x, n - 1));
      MulMono(Pow(x, n - 1), Pow(y, n - 1), y);
      if x < y {
        if x == 0 { assert y * Pow(y, n - 1) > 0; } else { PowPositive(x, n - 1); MulStrict(x, y, Pow(x, n - 1)); }
      }
    }
  }

  lemma {:induction false} PowPositive(b: nat, n: nat)
    ensures b > 0 ==> Pow(b, n) > 0
  {
    if n > 0 { PowPositive(b, n - 1); }
  }

  lemma {:induction false} PowGrows(b: nat, m: nat, n: nat)
    requires b > 0 && m <= n
    ensures Pow(b, m) <= Pow(b, n)
  {
    PowAdd(b, m, n - m);
    PowPositive(b, n - m);
    PowPositive(b, m);
    MulMono(1, Pow(b, n - m), Pow(b, m));
  }

  lemma {:induction false} PowNames(n: nat)
    ensures Pow(2, n) == Pow2(n) && Pow(5, n) == Pow5(n) && Pow(10, n) == Pow10(n)
    ensures Pow10(n) == Pow2(n) * Pow5(n)
  {
    if n > 0 { PowNames(n - 1); }
  }

  /** From one comparison of powers to a line of them: if x^p <= y^r and n * r <= p * e then x^n <= y^e. */
  lemma RatioOfLogs(x: nat, y: nat, p: nat, r: nat, n: nat, e: nat, nr: nat, pe: nat)
    requires x > 0 && r > 0 && Pow(x, p) <= Pow(y, r) && nr == n * r && pe == p * e && nr <= pe
    ensures Pow(x, n) <= Pow(y, e)
  {
    PowerOfPower(x, n, r, nr);
    PowerOfPower(x, p, e, pe);
    PowersSwap(y, r, e);
    hide *;
    PowGrows(x, nr, pe);
    PowMono(Pow(x, p), Pow(y, r), e);
    PowCancel(Pow(x, n), Pow(y, e), r);
  }

  /** The other way round: if y^r < x^p and n * r >= p * e then y^e < x^n. */
  lemma RatioAbove(x: nat, y: nat, p: nat, r: nat, n: nat, e: nat, nr: nat, pe: nat)
    requires x > 0 && r > 0 && e > 0 && Pow(y, r) < Pow(x, p) && nr == n * r && pe == p * e && nr >= pe
    ensures Pow(y, e) < Pow(x, n)
  {
    PowerOfPower(x, n, r, nr);
    PowerOfPower(x, p, e, pe);
    PowersSwap(y, r, e);
    hide *;
    PowGrows(x, pe, nr);
    PowMono(Pow(y, r), Pow(x, p), e);
    if Pow(x, n) <= Pow(y, e) { PowMono(Pow(x, n), Pow(y, e), r); }
  }

  lemma PowerOfPower(x: nat, n: nat, r: nat, nr: nat)
    requires nr == n * r
    ensures Pow(x, nr) == Pow(Pow(x, n), r)
  {
    PowMul(x, n, r);
  }

  lemma PowersSwap(y: nat, r: nat, e: nat)
    ensures Pow(Pow(y, r), e) == Pow(Pow(y, e), r)
  {
    var re := r * e;
    assert re == e * r && re >= 0;
    PowerOfPower(y, r, e, re);
    PowerOfPower(y, e, r, re);
  }

  lemma PowCancel(u: nat, v: nat, r: nat)
    requires r > 0 && Pow(u, r) <= Pow(v, r)
    ensures u <= v
  {
    if v < u { PowMono(v, u, r); }
  }

  // ----- two powers of 5, bounded by repeated squaring

  predicate Above(k: nat, m: nat, s: nat) { Pow5(k) <= m * Pow2(s) }

  predicate Below(k: nat, m: nat, s: nat) { m * Pow2(s) <= Pow5(k) }

  lemma SquareAbove(k: nat, m: nat, s: nat, t: nat, p: nat, k': nat, m': nat, s': nat)
    requires Above(k, m, s) && p == Pow2(t) && m * m <= m' * p && k' == 2 * k && s' == 2 * s + t
    ensures Above(k', m', s')
  {
    var f, g := Pow5(k), Pow2(s);
    SquareNames(k, s, t);
    assert f <= m * g;
    assert Pow5(k') == f * f && Pow2(s') == g * g * p;
    hide *;
    MulMono(f, m * g, f);
    MulMono(f, m * g, m * g);
    FourFactors(m, g);
    MulMono(m * m, m' * p, g * g);
    ThreeFactors(m', p, g * g);
    assert Pow5(k') <= m' * Pow2(s');
    NamedAbove(k', m', s');
  }

  lemma SquareBelow(k: nat, m: nat, s: nat, t: nat, p: nat, k': nat, m': nat, s': nat)
    requires Below(k, m, s) && p == Pow2(t) && m' * p <= m * m && k' == 2 * k && s' == 2 * s + t
    ensures Below(k', m', s')
  {
    var f, g := Pow5(k), Pow2(s);
    SquareNames(k, s, t);
    assert m * g <= f;
    assert Pow5(k') == f * f && Pow2(s') == g * g * p;
    hide *;
    MulMono(m * g, f, f);
    MulMono(m * g, f, m * g);
    FourFactors(m, g);
    MulMono(m' * p, m * m, g * g);
    ThreeFactors(m', p, g * g);
    assert m' * Pow2(s') <= Pow5(k');
    NamedBelow(k', m', s');
  }

  lemma NamedAbove(k: nat, m: nat, s: nat)
    ensures Above(k, m, s) <==> Pow5(k) <= m * Pow2(s)
  {
  }

  lemma NamedBelow(k: nat, m: nat, s: nat)
    ensures Below(k, m, s) <==> m * Pow2(s) <= Pow5(k)
  {
  }

  lemma FourFactors(m: nat, g: nat)
    ensures m * g * (m * g) == m * m * (g * g)
  {
  }

  lemma ThreeFactors(m: nat, p: nat, g: nat)
    ensures m * (g * p) == m * p * g
  {
  }

  lemma SquareNames(k: nat, s: nat, t: nat)
    ensures Pow5(2 * k) == Pow5(k) * Pow5(k)
    ensures Pow2(2 * s + t) == Pow2(s) * Pow2(s) * Pow2(t)
  {
    PowNames(k);
    PowNames(2 * k);
    PowAdd(5, k, k);
    Pow2Add(s, s);
    Pow2Add(2 * s, t);
  }

  lemma TimesFiveAbove(k: nat, m: nat, s: nat)
    requires Above(k, m, s)
    ensures Above(k + 1, 5 * m, s)
  {
  }

  lemma TimesFiveBelow(k: nat, m: nat, s: nat)
    requires Below(k, m, s)
    ensures Below(k + 1, 5 * m, s)
  {
  }

  lemma PowersUsed()
    ensures Above(1, 5, 0) && Below(1, 5, 0)
    ensures Pow2(0) == 1 && Pow2(32) == 0x1_0000_0000 && Pow2(64) == 0x1_0000_0000_0000_0000
  {
    TwoTo32();
    TwoTo64();
  }

  lemma FiveTo643()
    ensures Above(643, 9005732273755130, 1440)
  {
    PowersUsed();
    hide *;
    SquareAbove(1, 5, 0, 0, 1, 2, 25, 0);
    SquareAbove(2, 25, 0, 0, 1, 4, 625, 0);
    TimesFiveAbove(4, 625, 0);
    SquareAbove(5, 3125, 0, 0, 1, 10, 9765625, 0);
    SquareAbove(10, 9765625, 0, 0, 1, 20, 95367431640625, 0);
    SquareAbove(20, 95367431640625, 0, 32, 0x1_0000_0000, 40, 2117582368135750848, 32);
    SquareAbove(40, 2117582368135750848, 32, 64, 0x1_0000_0000_0000_0000, 80, 243086534291450849, 128);
    SquareAbove(80, 243086534291450849, 128, 64, 0x1_0000_0000_0000_0000, 160, 3203332952292962, 320);
    SquareAbove(160, 3203332952292962, 320, 64, 0x1_0000_0000_0000_0000, 320, 556268464627, 704);
    TimesFiveAbove(320, 556268464627, 704);
    SquareAbove(321, 2781342323135, 704, 32, 0x1_0000_0000, 642, 1801146454751026, 1440);
    TimesFiveAbove(642, 1801146454751026, 1440);
  }

  lemma FiveTo789()
    ensures Below(789, 1100477559995, 1792)
  {
    PowersUsed();
    hide *;
    SquareBelow(1, 5, 0, 0, 1, 2, 25, 0);
    TimesFiveBelow(2, 25, 0);
    SquareBelow(3, 125, 0, 0, 1, 6, 15625, 0);
    SquareBelow(6, 15625, 0, 0, 1, 12, 244140625, 0);
    SquareBelow(12, 244140625, 0, 0, 1, 24, 59604644775390625, 0);
    SquareBelow(24, 59604644775390625, 0, 64, 0x1_0000_0000_0000_0000, 48, 192592994438723, 64);
    TimesFiveBelow(48, 192592994438723, 64);
    SquareBelow(49, 962964972193615, 64, 64, 0x1_0000_0000_0000_0000, 98, 50269117084, 192);
    SquareBelow(98, 50269117084, 192, 32, 0x1_0000_0000, 196, 588359342050, 416);
    TimesFiveBelow(196, 588359342050, 416);
    SquareBelow(197, 2941796710250, 416, 32, 0x1_0000_0000, 394, 2014955478822282, 864);
    SquareBelow(394, 2014955478822282, 864, 64, 0x1_0000_0000_0000_0000, 788, 220095511999, 1792);
    TimesFiveBelow(788, 220095511999, 1792);
  }

  lemma FiveTo146()
    ensures Below(146, 2254145170357018, 288)
  {
    PowersUsed();
    hide *;
    SquareBelow(1, 5, 0, 0, 1, 2, 25, 0);
    SquareBelow(2, 25, 0, 0, 1, 4, 625, 0);
    SquareBelow(4, 625, 0, 0, 1, 8, 390625, 0);
    TimesFiveBelow(8, 390625, 0);
    SquareBelow(9, 1953125, 0, 0, 1, 18, 3814697265625, 0);
    SquareBelow(18, 3814697265625, 0, 32, 0x1_0000_0000, 36, 3388131789017201, 32);
    SquareBelow(36, 3388131789017201, 32, 64, 0x1_0000_0000_0000_0000, 72, 622301527786, 128);
    TimesFiveBelow(72, 622301527786, 128);
    SquareBelow(73, 3111507638930, 128, 32, 0x1_0000_0000, 146, 2254145170357018, 288);
  }

  /** 2^485 < 10^146: an upper bound of the first slope. */
  lemma TwoBelowTen()
    ensures Pow(2, 485) < Pow(10, 146)
  {
    hide *;
    FiveTo146();
    NamedBelow(146, 2254145170357018, 288);
    PowNames(485);
    PowNames(146);
    LargePower();
    Pow2Add(146, 51);
    Pow2Add(197, 288);
    MulAssociates(Pow2(146), Pow2(51), Pow2(288));
    MulStrict(Pow2(51), 2254145170357018, Pow2(288));
    MulStrict(Pow2(51) * Pow2(288), Pow5(146), Pow2(146));
  }

  lemma LargePower()
    ensures Pow2(51) == 0x8000000000000
  {
    TwoTo54();
    Pow2Add(51, 2);
  }

  /** 5^2136 < 10^1493: an upper bound of the second. */
  lemma FiveBelowTen()
    ensures Pow(5, 2136) < Pow(10, 1493)
  {
    hide *;
    FiveTo643();
    NamedAbove(643, 9005732273755130, 1440);
    TwoTo54();
    PowNames(2136);
    PowNames(1493);
    Pow2Add(53, 1440);
    Pow5Add(643, 1493);
    MulStrict(9005732273755130, Pow2(53), Pow2(1440));
    MulStrict(Pow5(643), Pow2(1493), Pow5(1493));
  }

  /** 10^643 <= 2^2136: the slope of the first logarithm. */
  lemma SlopeOfTwo()
    ensures Pow(10, 643) <= Pow(2, 2136)
  {
    FiveTo643();
    TwoTo54();
    var a, b, c, f: nat := Pow2(53), Pow2(1440), Pow2(643), Pow5(643);
    assert a == 0x20_0000_0000_0000;
    PowNames(643);
    PowNames(2136);
    Pow2Add(53, 1440);
    Pow2Add(643, 1493);
    NamedAbove(643, 9005732273755130, 1440);
    assert f <= 9005732273755130 * b && Pow(10, 643) == c * f && Pow(2, 2136) == c * (a * b);
    hide *;
    MulMono(9005732273755130, a, b);
    MulMono(f, a * b, c);
  }

  /** 10^1832 <= 5^2621: the slope of the second. */
  lemma SlopeOfFive()
    ensures Pow(10, 1832) <= Pow(5, 2621)
  {
    FiveTo789();
    TwoTo32();
    TwoTo12();
    Pow2Add(32, 8);
    var a, b, c, f: nat := Pow2(40), Pow2(1792), Pow5(1832), Pow5(789);
    assert a == 0x100_0000_0000;
    PowNames(1832);
    PowNames(2621);
    Pow2Add(40, 1792);
    Pow5Add(789, 1832);
    NamedBelow(789, 1100477559995, 1792);
    assert 1100477559995 * b <= f && Pow(10, 1832) == a * b * c && Pow(5, 2621) == f * c;
    hide *;
    MulMono(a, 1100477559995, b);
    MulMono(a * b, f, c);
  }

  lemma Pow5Add(m: nat, n: nat)
    ensures Pow5(m + n) == Pow5(m) * Pow5(n)
  {
    PowNames(m);
    PowNames(n);
    PowNames(m + n);
    PowAdd(5, m, n);
  }

  // ----- the logarithms

  /** `log10Pow2`: below 2^32 throughout its range. */
  function Log10Pow2(e: nat): nat
    requires e <= 1650
  {
    e * 78913 / 0x4_0000
  }

  /** `log10Pow5` */
  function Log10Pow5(e: nat): nat
    requires e <= 2620
  {
    e * 732923 / 0x10_0000
  }

  /** No fraction with a denominator of at most 1650 lies between the first approximation and the logarithm. */
  lemma NextOfTwo(e: nat)
    requires 0 < e <= 1650
    ensures (Log10Pow2(e) + 1) * 485 >= 146 * e
  {
    var n := Log10Pow2(e) + 1;
    var above, below := 1166 * n - 351 * e, 146 * e - 485 * n;
    assert e == 485 * above + 1166 * below && above >= 1;
  }

  /** The same of the second approximation, up to 2620. */
  lemma NextOfFive(e: nat)
    requires 0 < e <= 2620
    ensures (Log10Pow5(e) + 1) * 2136 >= 1493 * e
  {
    var n := Log10Pow5(e) + 1;
    var above, below := 485 * n - 339 * e, 1493 * e - 2136 * n;
    assert e == 2136 * above + 485 * below && above >= 1;
  }

  /** The approximations are the floors of the logarithms, throughout their ranges. */
  lemma LogsAreFloors(e: nat)
    ensures e <= 1650 ==> Pow10(Log10Pow2(e)) <= Pow2(e) < Pow10(Log10Pow2(e) + 1)
    ensures e <= 2620 ==> Pow10(Log10Pow5(e)) <= Pow5(e) < Pow10(Log10Pow5(e) + 1)
  {
    LogsBelow(e);
    if e == 0 {
      assert Log10Pow2(0) == 0 && Log10Pow5(0) == 0 && Pow2(0) == 1 && Pow5(0) == 1 && Pow10(1) == 10;
    } else {
      LogsAbove(e);
    }
  }

  lemma LogsAbove(e: nat)
    requires e > 0
    ensures e <= 1650 ==> Pow2(e) < Pow10(Log10Pow2(e) + 1)
    ensures e <= 2620 ==> Pow5(e) < Pow10(Log10Pow5(e) + 1)
  {
    hide *;
    PowNames(e);
    if e <= 1650 {
      var n := Log10Pow2(e) + 1;
      NextOfTwo(e);
      TwoBelowTen();
      PowNames(n);
      RatioAbove(10, 2, 146, 485, n, e, n * 485, 146 * e);
    }
    if e <= 2620 {
      var n := Log10Pow5(e) + 1;
      NextOfFive(e);
      FiveBelowTen();
      PowNames(n);
      RatioAbove(10, 5, 1493, 2136, n, e, n * 2136, 1493 * e);
    }
  }

  /** The approximations never exceed the logarithm. */
  lemma LogsBelow(e: nat)
    ensures e <= 1650 ==> Pow10(Log10Pow2(e)) <= Pow2(e)
    ensures e <= 2620 ==> Pow10(Log10Pow5(e)) <= Pow5(e)
  {
    SlopeOfTwo();
    SlopeOfFive();
    PowNames(e);
    if e <= 1650 {
      var n := Log10Pow2(e);
      PowNames(n);
      hide *;
      RatioOfLogs(10, 2, 643, 2136, n, e, n * 2136, 643 * e);
    }
    if e <= 2620 {
      var n := Log10Pow5(e);
      PowNames(n);
      hide *;
      RatioOfLogs(10, 5, 1832, 2621, n, e, n * 2621, 1832 * e);
    }
  }

  // ----- which powers divide a product

  /** 2 and 5 share no factor. */
  lemma {:induction false} TwosDoNotHelp(m: nat, s: nat, q: nat)
    ensures m * Pow2(s) % Pow5(q) == 0 <==> m % Pow5(q) == 0
    decreases s
  {
    if s > 0 {
      TwosDoNotHelp(m, s - 1, q);
      OddPower(q);
      var h := m * Pow2(s - 1);
      assert m * Pow2(s) == 2 * h;
      HalfDivides(h, Pow5(q));
    }
  }

  lemma {:induction false} OddPower(q: nat)
    ensures Pow5(q) % 2 == 1
  {
    if q > 0 {
      var x := Pow5(q - 1);
      OddPower(q - 1);
      DivModUnique(5 * x, 2, 5 * (x / 2) + 2, 1);
    }
  }

  lemma HalfDivides(m: nat, p: nat)
    requires p % 2 == 1
    ensures 2 * m % p == 0 <==> m % p == 0
  {
    var t := 2 * m / p;
    DivModSpec(2 * m, p);
    DivModSpec(m, p);
    if 2 * m % p == 0 {
      assert 2 * m == t * p;
      EvenProduct(t, p);
      assert t == 2 * (t / 2);
      assert 2 * m == 2 * (t / 2 * p);
      DivModUnique(m, p, t / 2, 0);
    }
    if m % p == 0 {
      assert 2 * m == 2 * (m / p) * p;
      DivModUnique(2 * m, p, 2 * (m / p), 0);
    }
  }

  lemma {:induction false} FivesDoNotHelp(m: nat, i: nat, q: nat)
    ensures m * Pow5(i) % Pow2(q) == 0 <==> m % Pow2(q) == 0
    decreases q
  {
    if q > 0 {
      OddPower(i);
      var p := Pow5(i);
      EvenProduct(m, p);
      SplitPower(m * p, q);
      SplitPower(m, q);
      if m % 2 == 0 {
        assert m * p == 2 * (m / 2 * p);
        FivesDoNotHelp(m / 2, i, q - 1);
      }
    }
  }

  lemma EvenProduct(m: nat, p: nat)
    requires p % 2 == 1
    ensures m * p % 2 == m % 2
  {
    var h, k := p / 2, m / 2;
    assert p == 2 * h + 1 && m == 2 * k + m % 2;
    assert m * p == m * (2 * h) + m == 2 * (m * h) + m;
    DivModUnique(m * p, 2, m * h + k, m % 2);
  }

  lemma SplitPower(m: nat, q: nat)
    requires q > 0
    ensures m % Pow2(q) == 0 <==> m % 2 == 0 && m / 2 % Pow2(q - 1) == 0
  {
    DivDiv(m, 2, Pow2(q - 1));
  }
}
