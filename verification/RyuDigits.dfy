/**
  Step 4 of the Ryu conversion: removing decimal digits from the floors of an interval.  Both code paths
  compute the same closed form, and that form is the shortest decimal in the interval, nearest to the
  exact value.
 */
module RyuDigits {
  import opened Words
  import opened Ieee
  import opened RyuIntrinsics

  // ----- the closed form

  /** How often the last digits of vp and vm can go before their quotients meet. */
  function Removals(vm: nat, vp: nat): nat
    decreases vp
  {
    if vp / 10 > vm / 10 then 1 + Removals(vm / 10, vp / 10) else 0
  }

  function TrailingZeros(v: nat): nat
    requires v > 0
  {
    if v % 10 == 0 then 1 + TrailingZeros(v / 10) else 0
  }

  /** v without its last k digits. */
  function Drop(v: nat, k: nat): nat { DivNat(v, Pow10(k)); v / Pow10(k) }

  /** The last k digits of v are zeros. */
  predicate Ends(v: nat, k: nat) { v % Pow10(k) == 0 }

  /** The last digit removed when k are. */
  function LastDigit(v: nat, k: nat): nat { if k == 0 then 0 else Drop(v, k - 1) % 10 }

  /** All removed digits but the last are zeros. */
  predicate TailZero(v: nat, k: nat) { k == 0 || Ends(v, k - 1) }

  /** The number of digits removed: `exact` says that the lower bound is the integer vm, and belongs to the interval. */
  function Removed(vm: nat, vp: nat, exact: bool): nat
    requires exact ==> vm > 0
  {
    var k := Removals(vm, vp);
    if exact && Ends(vm, k) then
      DropPositive(vm, k);
      k + TrailingZeros(Drop(vm, k))
    else k
  }

  lemma DropPositive(v: nat, k: nat)
    requires v > 0 && Ends(v, k)
    ensures Drop(v, k) > 0 && v == Drop(v, k) * Pow10(k)
  {
    DivModSpec(v, Pow10(k));
  }

  /** Rounding up what was removed: digit 5 or more, except an exact half beside an even result. */
  predicate RoundUp(vr: nat, vrExact: bool, k: nat)
  {
    LastDigit(vr, k) >= 5 && !(vrExact && TailZero(vr, k) && LastDigit(vr, k) == 5 && Drop(vr, k) % 2 == 0)
  }

  /** The digits that remain. */
  function Output(vm: nat, vr: nat, accept: bool, vmExact: bool, vrExact: bool, k: nat): nat
  {
    var r := Drop(vr, k);
    if (r == Drop(vm, k) && (!accept || !(vmExact && Ends(vm, k)))) || RoundUp(vr, vrExact, k) then r + 1 else r
  }

  // ----- one more digit

  lemma DropStep(v: nat, k: nat)
    ensures Drop(v, 0) == v && Ends(v, 0)
    ensures Drop(v, k + 1) == Drop(v, k) / 10
    ensures Ends(v, k + 1) <==> Ends(v, k) && Drop(v, k) % 10 == 0
    ensures LastDigit(v, k + 1) == Drop(v, k) % 10
    ensures TailZero(v, k + 1) <==> TailZero(v, k) && LastDigit(v, k) == 0
  {
    DivDiv(v, Pow10(k), 10);
    assert Pow10(k + 1) == Pow10(k) * 10;
    if k > 0 {
      DivDiv(v, Pow10(k - 1), 10);
      assert Pow10(k) == Pow10(k - 1) * 10;
    }
  }

  lemma {:induction false} DropMono(a: nat, b: nat, k: nat)
    requires a <= b
    ensures Drop(a, k) <= Drop(b, k) && Drop(a, k) <= a
  {
    DivLe(a, b, Pow10(k));
    DivNat(a, Pow10(k));
  }

  /** What each path's loops keep about the digits removed so far. */
  ghost predicate Stripped(vm: nat, vr: nat, vp: nat, k: nat, m: nat, r: nat, p: nat)
  {
    m == Drop(vm, k) && r == Drop(vr, k) && p == Drop(vp, k)
  }

  /** The digits that the bounds do not share (lines 121-138). */
  method CommonDigits(vm0: u64, vr0: u64, vp0: u64, vmZeros: bool, vrZeros: bool)
      returns (vm: u64, vr: u64, vp: u64, last: nat, vmIsTrailingZeros: bool, vrIsTrailingZeros: bool, removed: nat)
    requires vm0 < vp0
    ensures Stripped(vm0, vr0, vp0, removed, vm, vr, vp) && removed == Removals(vm0, vp0)
    ensures vmIsTrailingZeros == (vmZeros && Ends(vm0, removed))
    ensures vrIsTrailingZeros == (vrZeros && TailZero(vr0, removed)) && last == LastDigit(vr0, removed)
  {
    hide Drop, Ends, LastDigit, TailZero, LowRemainder;
    vm, vr, vp, vmIsTrailingZeros, vrIsTrailingZeros := vm0, vr0, vp0, vmZeros, vrZeros;
    last, removed := 0, 0;
    NoDigits(vm0); NoDigits(vr0); NoDigits(vp0);
    while vp / 10 > vm / 10
      invariant Stripped(vm0, vr0, vp0, removed, vm, vr, vp) && vm < vp
      invariant Removals(vm0, vp0) == removed + Removals(vm, vp)
      invariant vmIsTrailingZeros == (vmZeros && Ends(vm0, removed))
      invariant vrIsTrailingZeros == (vrZeros && TailZero(vr0, removed))
      invariant last == LastDigit(vr0, removed)
      decreases vp
    {
      LowRemainderCorrect(vm, 10);
      LowRemainderCorrect(vr, 10);
      vmIsTrailingZeros := vmIsTrailingZeros && LowRemainder(vm, 10) == 0;
      vrIsTrailingZeros := vrIsTrailingZeros && last == 0;
      last := LowRemainder(vr, 10);
      DropStep(vm0, removed); DropStep(vr0, removed); DropStep(vp0, removed);
      vr, vp, vm := vr / 10, vp / 10, vm / 10;
      removed := removed + 1;
    }
  }

  lemma NoDigits(v: nat)
    ensures Drop(v, 0) == v && Ends(v, 0) && LastDigit(v, 0) == 0 && TailZero(v, 0)
  {
  }

  /** The zeros at the end of an exact lower bound (lines 141-157). */
  method ZeroDigits(vm0: u64, vr0: u64, vp0: u64, m: u64, r: u64, p: u64, last0: nat, vrZeros: bool, vrSoFar: bool,
                    k: nat)
      returns (vm: u64, vr: u64, vp: u64, last: nat, vrIsTrailingZeros: bool, removed: nat)
    requires Stripped(vm0, vr0, vp0, k, m, r, p) && m > 0 && Ends(vm0, k)
    requires vrSoFar == (vrZeros && TailZero(vr0, k)) && last0 == LastDigit(vr0, k)
    ensures Stripped(vm0, vr0, vp0, removed, vm, vr, vp) && Ends(vm0, removed) && removed == k + TrailingZeros(m)
    ensures vrIsTrailingZeros == (vrZeros && TailZero(vr0, removed)) && last == LastDigit(vr0, removed)
  {
    hide Drop, Ends, LastDigit, TailZero, LowRemainder;
    vm, vr, vp, last, vrIsTrailingZeros, removed := m, r, p, last0, vrSoFar, k;
    while true
      invariant Stripped(vm0, vr0, vp0, removed, vm, vr, vp) && vm > 0 && Ends(vm0, removed)
      invariant k + TrailingZeros(m) == removed + TrailingZeros(vm)
      invariant vrIsTrailingZeros == (vrZeros && TailZero(vr0, removed))
      invariant last == LastDigit(vr0, removed)
      decreases vm
    {
      LowRemainderCorrect(vm, 10);
      if LowRemainder(vm, 10) != 0 { break; }
      LowRemainderCorrect(vr, 10);
      vrIsTrailingZeros := vrIsTrailingZeros && last == 0;
      last := LowRemainder(vr, 10);
      DropStep(vm0, removed); DropStep(vr0, removed); DropStep(vp0, removed);
      vr, vp, vm := vr / 10, vp / 10, vm / 10;
      removed := removed + 1;
    }
  }

  /** The general path (lines 119-163). */
  method RemoveDigits(vm0: u64, vr0: u64, vp0: u64, accept: bool, vmZeros: bool, vrZeros: bool)
      returns (output: u64, removed: nat)
    requires vm0 <= vr0 <= vp0 && vm0 < vp0 && (vmZeros ==> vm0 > 0)
    ensures removed == Removed(vm0, vp0, vmZeros)
    ensures output == Output(vm0, vr0, accept, vmZeros, vrZeros, removed)
  {
    hide Drop, Ends, LastDigit, TailZero, Removals, TrailingZeros;
    var vm, vr, vp, lastRemovedDigit, vmIsTrailingZeros, vrIsTrailingZeros;
    vm, vr, vp, lastRemovedDigit, vmIsTrailingZeros, vrIsTrailingZeros, removed :=
      CommonDigits(vm0, vr0, vp0, vmZeros, vrZeros);
    if vmIsTrailingZeros {
      DropPositive(vm0, removed);
      vm, vr, vp, lastRemovedDigit, vrIsTrailingZeros, removed :=
        ZeroDigits(vm0, vr0, vp0, vm, vr, vp, lastRemovedDigit, vrZeros, vrIsTrailingZeros, removed);
    }
    if vrIsTrailingZeros && lastRemovedDigit == 5 && vr % 2 == 0 {
      lastRemovedDigit := 4;
    }
    var up := (vr == vm && (!accept || !vmIsTrailingZeros)) || lastRemovedDigit >= 5;
    NoOverflow(vm0, vr0, vp0, removed);
    NoDigits(vr0);
    output := if up then vr + 1 else vr;
  }

  /** There is room for the final increment. */
  lemma NoOverflow(vm: nat, vr: nat, vp: nat, k: nat)
    requires vm <= vr <= vp && vm < vp < W64
    ensures Drop(vr, k) == Drop(vm, k) || k > 0 ==> Drop(vr, k) + 1 < W64
  {
  }

  /**
    The path for bounds and value that are not exact (lines 164-199).  It may take two digits at once, and
    delivers what the general path does.
   */
  method RemoveDigitsFast(vm0: u64, vr0: u64, vp0: u64, accept: bool) returns (output: u64, removed: nat)
    requires vm0 <= vr0 <= vp0 && vm0 < vp0
    ensures removed == Removed(vm0, vp0, false)
    ensures output == Output(vm0, vr0, accept, false, false, removed)
  {
    var vm, vr, vp := vm0, vr0, vp0;
    var roundUp := false;
    removed := 0;
    DropStep(vm0, 0); DropStep(vr0, 0); DropStep(vp0, 0);
    if vp / 100 > vm / 100 {
      LowRemainderCorrect(vr, 100);
      roundUp := LowRemainder(vr, 100) >= 50;
      TwoDigits(vm0, vr0, vp0);
      vr, vp, vm := vr / 100, vp / 100, vm / 100;
      removed := removed + 2;
    }
    while vp / 10 > vm / 10
      invariant Stripped(vm0, vr0, vp0, removed, vm, vr, vp) && vm < vp
      invariant Removals(vm0, vp0) == removed + Removals(vm, vp)
      invariant roundUp <==> LastDigit(vr0, removed) >= 5
      decreases vp
    {
      LowRemainderCorrect(vr, 10);
      roundUp := LowRemainder(vr, 10) >= 5;
      DropStep(vm0, removed); DropStep(vr0, removed); DropStep(vp0, removed);
      vr, vp, vm := vr / 10, vp / 10, vm / 10;
      removed := removed + 1;
    }
    DropStep(vr0, 0);
    NoOverflow(vm0, vr0, vp0, removed);
    output := if vr == vm || roundUp then vr + 1 else vr;
  }

  /** Taking two digits at once is taking one digit twice. */
  lemma TwoDigits(vm: nat, vr: nat, vp: nat)
    requires vp / 100 > vm / 100
    ensures Stripped(vm, vr, vp, 2, vm / 100, vr / 100, vp / 100)
    ensures Removals(vm, vp) == 2 + Removals(vm / 100, vp / 100)
    ensures vr % 100 >= 50 <==> LastDigit(vr, 2) >= 5
  {
    DropStep(vm, 0); DropStep(vr, 0); DropStep(vp, 0);
    DropStep(vm, 1); DropStep(vr, 1); DropStep(vp, 1);
  }

  // ----- optimality

  /**
    The step's input: vm, vr and vp are the floors of the exact a / d < b / d < c / d (for an excluded upper
    bound, the integer below it), b is not past the middle, and the two flags mark exact integers.  A flag
    may be clear for an exact integer that is not a multiple of the primes that would make it matter.
   */
  ghost predicate Interval(a: nat, b: nat, c: nat, d: nat, vm: nat, vr: nat, vp: nat,
                           accept: bool, vmZeros: bool, vrZeros: bool)
  {
    && d > 0 && 0 < a < b < c && b - a <= c - b
    && vm == a / d && vr == b / d && vp == (if accept then c / d else (c - 1) / d) && vm < vp
    && (vmZeros ==> accept && a % d == 0)
    && (vrZeros ==> b % d == 0)
    && (!vmZeros && accept && a % d == 0 ==> vm % 10 != 0)
    && (!vrZeros && b % d == 0 ==> vr % 5 != 0)
  }

  /** The decimal n * 10^k lies in the interval. */
  ghost predicate InInterval(a: nat, c: nat, d: nat, accept: bool, n: nat, k: nat)
  {
    var x := n * Pow10(k) * d;
    if accept then a <= x <= c else a < x < c
  }

  lemma InIntervalMeaning(a: nat, c: nat, d: nat, accept: bool, n: nat, k: nat)
    ensures InInterval(a, c, d, accept, n, k) <==>
              var x := n * Pow10(k) * d; if accept then a <= x <= c else a < x < c
  {
  }

  lemma IntervalDen(a: nat, b: nat, c: nat, d: nat, vm: nat, vr: nat, vp: nat,
                    accept: bool, vmZeros: bool, vrZeros: bool)
    requires Interval(a, b, c, d, vm, vr, vp, accept, vmZeros, vrZeros)
    ensures d > 0 && 0 < a < c && vm == a / d && vp == (if accept then c / d else (c - 1) / d)
  {
  }

  lemma DropIs(v: nat, k: nat)
    ensures Pow10(k) > 0 && Drop(v, k) == v / Pow10(k) && (Ends(v, k) <==> v % Pow10(k) == 0)
  {
  }

  /** Membership in terms of the integers with k digits removed. */
  lemma InIntervalDropped(a: nat, b: nat, c: nat, d: nat, vm: nat, vr: nat, vp: nat,
                          accept: bool, vmZeros: bool, vrZeros: bool, n: nat, k: nat)
    requires Interval(a, b, c, d, vm, vr, vp, accept, vmZeros, vrZeros)
    ensures InInterval(a, c, d, accept, n, k) <==>
              n <= Drop(vp, k) && (n > Drop(vm, k) || (n == Drop(vm, k) && accept && a % d == 0 && Ends(vm, k)))
  {
    hide *;
    IntervalDen(a, b, c, d, vm, vr, vp, accept, vmZeros, vrZeros);
    InIntervalMeaning(a, c, d, accept, n, k);
    ProductNat(n, Pow10(k));
    IntegerInInterval(a, c, d, vm, vp, accept, n * Pow10(k));
    DropIs(vp, k);
    DropIs(vm, k);
    MultipleBelow(vp, Pow10(k), n);
    MultipleAbove(vm, Pow10(k), n);
  }

  lemma IntegerInInterval(a: nat, c: nat, d: nat, vm: nat, vp: nat, accept: bool, x: nat)
    requires d > 0 && 0 < a < c && vm == a / d && vp == (if accept then c / d else (c - 1) / d)
    ensures (if accept then a <= x * d <= c else a < x * d < c) <==>
              x <= vp && (x > vm || (x == vm && accept && a % d == 0))
  {
    DivModSpec(a, d);
    var top := if accept then c else c - 1;
    MultipleBelow(top, d, x);
    MultipleAbove(a, d, x);
  }

  lemma MultipleBelow(v: nat, p: nat, n: nat)
    requires p > 0
    ensures n * p <= v <==> n <= v / p
  {
    DivModSpec(v, p);
    if n <= v / p { MulMono(n, v / p, p); } else { MulMono(v / p + 1, n, p); assert (v / p + 1) * p == v / p * p + p; }
  }

  lemma MultipleAbove(v: nat, p: nat, n: nat)
    requires p > 0
    ensures n * p > v <==> n > v / p
    ensures n * p == v <==> n == v / p && v % p == 0
  {
    MultipleBelow(v, p, n);
    DivModSpec(v, p);
    if n * p == v { DivModUnique(v, p, n, 0); }
  }

  lemma {:induction false} DropFirst(v: nat, k: nat)
    ensures Drop(v / 10, k) == Drop(v, k + 1)
  {
    DivDiv(v, 10, Pow10(k));
  }

  /** Where the removal of digits stops. */
  lemma {:induction false} RemovalsStop(vm: nat, vp: nat)
    requires vm < vp
    ensures var k := Removals(vm, vp);
      Drop(vm, k) < Drop(vp, k) && Drop(vp, k) / 10 <= Drop(vm, k) / 10
    decreases vp
  {
    DropStep(vm, 0);
    DropStep(vp, 0);
    if vp / 10 > vm / 10 {
      RemovalsStop(vm / 10, vp / 10);
      DropFirst(vm, Removals(vm / 10, vp / 10));
      DropFirst(vp, Removals(vm / 10, vp / 10));
    }
  }

  /** Removing the trailing zeros of an exact lower bound as well. */
  lemma {:induction false} ZerosStop(vm: nat, vp: nat, k: nat)
    requires vm > 0 && Ends(vm, k) && Drop(vm, k) > 0 && Drop(vp, k) / 10 <= Drop(vm, k) / 10
    ensures var t := k + TrailingZeros(Drop(vm, k));
      Ends(vm, t) && Drop(vm, t) % 10 != 0 && Drop(vp, t) / 10 <= Drop(vm, t) / 10
    decreases Drop(vm, k)
  {
    DropStep(vm, k);
    DropStep(vp, k);
    if Drop(vm, k) % 10 == 0 {
      ZerosStop(vm, vp, k + 1);
    }
  }

  /** Everything the other proofs use about the number of removed digits. */
  lemma RemovedStops(vm: nat, vp: nat, exact: bool)
    requires vm < vp && (exact ==> vm > 0)
    ensures var k := Removed(vm, vp, exact);
      && Drop(vp, k) / 10 <= Drop(vm, k) / 10
      && (Drop(vm, k) < Drop(vp, k) || (exact && Ends(vm, k)))
      && (exact && Ends(vm, k) ==> Drop(vm, k) % 10 != 0)
  {
    var k := Removals(vm, vp);
    RemovalsStop(vm, vp);
    if exact && Ends(vm, k) {
      DropPositive(vm, k);
      ZerosStop(vm, vp, k);
    }
  }

  lemma IntervalPositive(a: nat, b: nat, c: nat, d: nat, vm: nat, vr: nat, vp: nat,
                         accept: bool, vmZeros: bool, vrZeros: bool)
    requires Interval(a, b, c, d, vm, vr, vp, accept, vmZeros, vrZeros)
    ensures vmZeros ==> vm > 0
    ensures vm <= vr <= vp
  {
    DivModSpec(a, d);
    DivLe(a, b, d);
    DivLe(b, if accept then c else c - 1, d);
  }

  lemma EndsTen(v: nat, k: nat)
    requires Ends(v, k + 1)
    ensures v % 10 == 0
  {
    FinerGrid(v, Pow10(k), 10);
    assert Pow10(k + 1) == Pow10(k) * 10;
  }

  /** No decimal with fewer digits lies in the interval. */
  lemma Shortest(a: nat, b: nat, c: nat, d: nat, vm: nat, vr: nat, vp: nat,
                 accept: bool, vmZeros: bool, vrZeros: bool, n: nat, j: nat)
    requires Interval(a, b, c, d, vm, vr, vp, accept, vmZeros, vrZeros)
    ensures vmZeros ==> vm > 0
    ensures j > Removed(vm, vp, vmZeros) ==> !InInterval(a, c, d, accept, n, j)
  {
    IntervalPositive(a, b, c, d, vm, vr, vp, accept, vmZeros, vrZeros);
    hide *;
    var k := Removed(vm, vp, vmZeros);
    if j > k {
      ProductNat(n, Pow10(j - k - 1));
      NotOneShorter(a, b, c, d, vm, vr, vp, accept, vmZeros, vrZeros, n * Pow10(j - k - 1));
      SameDecimal(a, c, d, accept, n, j, k + 1);
    }
  }

  lemma SameDecimal(a: nat, c: nat, d: nat, accept: bool, n: nat, j: nat, k: nat)
    requires k <= j
    ensures InInterval(a, c, d, accept, n * Pow10(j - k), k) <==> InInterval(a, c, d, accept, n, j)
  {
    Pow10Add(j - k, k);
    assert n * Pow10(j - k) * Pow10(k) == n * Pow10(j);
  }

  lemma NotOneShorter(a: nat, b: nat, c: nat, d: nat, vm: nat, vr: nat, vp: nat,
                      accept: bool, vmZeros: bool, vrZeros: bool, n: nat)
    requires Interval(a, b, c, d, vm, vr, vp, accept, vmZeros, vrZeros) && (vmZeros ==> vm > 0)
    ensures !InInterval(a, c, d, accept, n, Removed(vm, vp, vmZeros) + 1)
  {
    var exact := accept && a % d == 0;
    assert vm < vp && (vmZeros ==> exact) && (!vmZeros && exact ==> vm % 10 != 0);
    InIntervalDropped(a, b, c, d, vm, vr, vp, accept, vmZeros, vrZeros, n, Removed(vm, vp, vmZeros) + 1);
    hide *;
    RemovedStops(vm, vp, vmZeros);
    var k := Removed(vm, vp, vmZeros);
    DropStep(vm, k);
    DropStep(vp, k);
    if Ends(vm, k + 1) { EndsTen(vm, k); }
  }

  lemma {:induction false} Pow10Add(a: nat, b: nat)
    ensures Pow10(a + b) == Pow10(a) * Pow10(b)
  {
    if a > 0 {
      Pow10Add(a - 1, b);
      assert Pow10(a + b) == 10 * Pow10(a - 1 + b);
    }
  }

  /** b / d in units of 10^k: the remaining digits and what was cut off. */
  lemma CutOff(b: nat, d: nat, vr: nat, k: nat)
    requires d > 0 && vr == b / d
    ensures b == Drop(vr, k) * (Pow10(k) * d) + (vr % Pow10(k) * d + b % d)
    ensures vr % Pow10(k) * d + b % d < Pow10(k) * d
  {
    hide *;
    DropIs(vr, k);
    var p, r, s := Pow10(k), Drop(vr, k), vr % Pow10(k);
    DivModSpec(b, d);
    DivModSpec(vr, p);
    MulDistributes(r * p, s, d);
    MulAssociates(r, p, d);
    MulMono(s, p - 1, d);
    MulDistributes(p, 1, d);
  }

  /** The source's rounding decision is round-half-even on the exact value. */
  lemma RoundUpIsNearest(b: nat, d: nat, vr: nat, vrZeros: bool, k: nat)
    requires d > 0 && vr == b / d && (vrZeros ==> b % d == 0) && (!vrZeros && b % d == 0 ==> vr % 5 != 0)
    requires k > 0 || b % d == 0
    ensures NearerOf(Drop(vr, k), vr % Pow10(k) * d + b % d, Pow10(k) * d)
            == Drop(vr, k) + (if RoundUp(vr, vrZeros, k) then 1 else 0)
  {
    if k > 0 {
      var q, s := LastDigitSplit(vr, k);
      hide Pow10, Drop, LastDigit, TailZero;
      HalfDecision(LastDigit(vr, k), s, b % d, q, d);
    } else {
      assert vr % Pow10(0) == 0;
    }
  }

  /** The cut-off part of vr: its first digit, and what follows. */
  lemma LastDigitSplit(vr: nat, k: nat) returns (q: nat, s: nat)
    requires k > 0
    ensures q > 0 && s < q && LastDigit(vr, k) < 10
    ensures Pow10(k) == q * 10 && vr % Pow10(k) == LastDigit(vr, k) * q + s
    ensures TailZero(vr, k) <==> s == 0
    ensures LastDigit(vr, k) == 5 && s == 0 ==> vr % 5 == 0
  {
    q := Pow10(k - 1);
    assert Pow10(k) == q * 10;
    DivDiv(vr, q, 10);
    DivModSpec(vr, q * 10);
    DivModSpec(vr, q);
    s := vr % q;
    if LastDigit(vr, k) == 5 && s == 0 { MultipleOfFive(vr, Drop(vr, k), q); }
  }

  /** Comparing twice the cut-off part with one unit is looking at its first digit. */
  lemma HalfDecision(last: nat, s: nat, f: nat, q: nat, d: nat)
    requires q > 0 && d > 0 && last < 10 && s < q && f < d
    ensures last >= 5 <==> 2 * ((last * q + s) * d + f) >= q * 10 * d
    ensures last == 5 && s == 0 && f == 0 <==> 2 * ((last * q + s) * d + f) == q * 10 * d
  {
    var sd, qd := s * d, q * d;
    var l := last * qd;
    CutOffProduct(s, q, d);
    DigitProduct(last, qd);
    HalfProducts(last, s, f, q, d);
    var t, u := 2 * ((last * q + s) * d + f), q * 10 * d;
    assert t == 2 * (l + sd + f) && u == 10 * qd;
    HalfLinear(last, l, s, sd, f, qd, d, t, u);
  }

  lemma CutOffProduct(s: nat, q: nat, d: nat)
    requires d > 0 && s < q
    ensures 0 <= s * d <= q * d - d && (s * d == 0 <==> s == 0)
  {
    MulMono(s, q - 1, d);
    assert (q - 1) * d == q * d - d;
    MulMono(0, s, d);
    if s > 0 { MulMono(1, s, d); }
  }

  lemma HalfProducts(last: nat, s: nat, f: nat, q: nat, d: nat)
    ensures 2 * ((last * q + s) * d + f) == 2 * (last * (q * d) + s * d + f)
    ensures q * 10 * d == 10 * (q * d)
  {
    assert (last * q + s) * d == last * q * d + s * d;
    assert last * q * d == last * (q * d);
  }

  lemma HalfLinear(last: nat, l: int, s: nat, sd: int, f: nat, qd: int, d: nat, t: int, u: int)
    requires t == 2 * (l + sd + f) && u == 10 * qd && f < d && 0 <= sd <= qd - d && (sd == 0 <==> s == 0)
    requires (last >= 5 ==> l >= 5 * qd) && (last >= 6 ==> l >= 6 * qd) && (last <= 4 ==> l <= 4 * qd)
    requires last == 5 ==> l == 5 * qd
    ensures last >= 5 <==> t >= u
    ensures last == 5 && s == 0 && f == 0 <==> t == u
  {
  }

  lemma DigitProduct(last: nat, q: nat)
    requires q > 0 && last < 10
    ensures last >= 5 ==> last * q >= 5 * q
    ensures last >= 6 ==> last * q >= 6 * q
    ensures last <= 4 ==> last * q <= 4 * q
    ensures last == 5 ==> last * q == 5 * q
  {
  }

  lemma MultipleOfFive(v: nat, r: nat, q: nat)
    requires v == r * (q * 10) + 5 * q
    ensures v % 5 == 0
  {
    assert v == 5 * (2 * (r * q) + q);
  }

  /**
    Rounding up never leaves the interval: the upper bound is at least as far from b as the lower one, and
    some decimal of this length does lie above the lower one.
   */
  lemma RoundUpStays(a: nat, b: nat, c: nat, u: nat, r: nat, rest: nat, top: nat)
    requires 0 < u && a < b < c && b - a <= c - b
    requires b == r * u + rest && rest < u && 2 * rest >= u
    requires top * u <= c && c <= (top + 1) * u
    ensures top <= r ==> a >= r * u && top == r
    ensures top <= r && a == r * u ==> c == (r + 1) * u
  {
    assert (r + 1) * u == r * u + u && (top + 1) * u == top * u + u;
    if top <= r { MulMono(top, r, u); }
    if top < r { MulMono(top + 1, r, u); }
  }

  /** The bounds of the interval in units of 10^k. */
  lemma TopInUnits(c: nat, d: nat, vp: nat, accept: bool, k: nat)
    requires d > 0 && c > 0 && vp == (if accept then c / d else (c - 1) / d)
    ensures var u := Pow10(k) * d; Drop(vp, k) * u <= c <= (Drop(vp, k) + 1) * u
    ensures accept ==> c < (Drop(vp, k) + 1) * (Pow10(k) * d)
  {
    var top := if accept then c else c - 1;
    CutOff(top, d, vp, k);
    var u := Pow10(k) * d;
    assert (Drop(vp, k) + 1) * u == Drop(vp, k) * u + u;
  }

  lemma BottomInUnits(a: nat, d: nat, vm: nat, k: nat)
    requires d > 0 && vm == a / d
    ensures var u := Pow10(k) * d;
      forall r: nat {:trigger r * u} :: a >= r * u ==> Drop(vm, k) >= r
    ensures Ends(vm, k) && a % d == 0 ==> a == Drop(vm, k) * (Pow10(k) * d)
  {
    var u := Pow10(k) * d;
    CutOff(a, d, vm, k);
    forall r: nat | a >= r * u
      ensures Drop(vm, k) >= r
    {
      assert (Drop(vm, k) + 1) * u == Drop(vm, k) * u + u;
      if Drop(vm, k) < r { MulMono(Drop(vm, k) + 1, r, u); }
    }
  }

  /** When the digits are rounded up, the result is at most the largest decimal of this length in the interval. */
  lemma UpWithinTop(a: nat, b: nat, c: nat, d: nat, vm: nat, vr: nat, vp: nat,
                    accept: bool, vmZeros: bool, vrZeros: bool)
    requires Interval(a, b, c, d, vm, vr, vp, accept, vmZeros, vrZeros) && (vmZeros ==> vm > 0)
    ensures var k := Removed(vm, vp, vmZeros);
      (k > 0 || b % d == 0) && RoundUp(vr, vrZeros, k) ==> Drop(vr, k) < Drop(vp, k)
  {
    var k := Removed(vm, vp, vmZeros);
    IntervalPositive(a, b, c, d, vm, vr, vp, accept, vmZeros, vrZeros);
    assert vmZeros ==> accept && a % d == 0;
    hide Pow10, Removed, Drop, Ends, RoundUp, NearerOf, Interval;
    RemovedStops(vm, vp, vmZeros);
    DropMono(vm, vr, k);
    if (k > 0 || b % d == 0) && RoundUp(vr, vrZeros, k) {
      RoundedUpHalf(b, d, vr, vrZeros, k);
      TopAboveResult(a, b, c, d, vm, vr, vp, accept, vmZeros, k);
    }
  }

  /** Rounding up means that at least half a unit was cut off. */
  lemma RoundedUpHalf(b: nat, d: nat, vr: nat, vrZeros: bool, k: nat)
    requires d > 0 && vr == b / d && (vrZeros ==> b % d == 0) && (!vrZeros && b % d == 0 ==> vr % 5 != 0)
    requires (k > 0 || b % d == 0) && RoundUp(vr, vrZeros, k)
    ensures 2 * (vr % Pow10(k) * d + b % d) >= Pow10(k) * d
  {
    RoundUpIsNearest(b, d, vr, vrZeros, k);
    hide RoundUp, Pow10, Drop;
  }

  lemma TopAboveResult(a: nat, b: nat, c: nat, d: nat, vm: nat, vr: nat, vp: nat, accept: bool, vmZeros: bool, k: nat)
    requires d > 0 && 0 < a < b < c && b - a <= c - b
    requires vm == a / d && vr == b / d && vp == (if accept then c / d else (c - 1) / d)
    requires vmZeros ==> accept && a % d == 0
    requires Drop(vm, k) < Drop(vp, k) || (vmZeros && Ends(vm, k))
    requires Drop(vm, k) <= Drop(vr, k)
    requires 2 * (vr % Pow10(k) * d + b % d) >= Pow10(k) * d
    ensures Drop(vr, k) < Drop(vp, k)
  {
    hide Pow10, Drop, Ends;
    var u := Pow10(k) * d;
    CutOff(b, d, vr, k);
    MulMono(1, Pow10(k), d);
    TopInUnits(c, d, vp, accept, k);
    BottomInUnits(a, d, vm, k);
    RoundUpStays(a, b, c, u, Drop(vr, k), vr % Pow10(k) * d + b % d, Drop(vp, k));
    if a >= Drop(vr, k) * u { assert Drop(vm, k) >= Drop(vr, k); }
  }

  /** The result lies in the interval. */
  lemma ResultInInterval(a: nat, b: nat, c: nat, d: nat, vm: nat, vr: nat, vp: nat,
                         accept: bool, vmZeros: bool, vrZeros: bool)
    requires Interval(a, b, c, d, vm, vr, vp, accept, vmZeros, vrZeros)
    ensures vmZeros ==> vm > 0
    ensures var k := Removed(vm, vp, vmZeros);
      InInterval(a, c, d, accept, Output(vm, vr, accept, vmZeros, vrZeros, k), k)
  {
    IntervalPositive(a, b, c, d, vm, vr, vp, accept, vmZeros, vrZeros);
    RemovedStops(vm, vp, vmZeros);
    UpWithinTop(a, b, c, d, vm, vr, vp, accept, vmZeros, vrZeros);
    var k := Removed(vm, vp, vmZeros);
    InIntervalDropped(a, b, c, d, vm, vr, vp, accept, vmZeros, vrZeros,
                      Output(vm, vr, accept, vmZeros, vrZeros, k), k);
    DropMono(vm, vr, k);
    DropMono(vr, vp, k);
    var exact := accept && a % d == 0;
    assert vmZeros ==> exact;
    assert k == 0 ==> !RoundUp(vr, vrZeros, k);
    hide Pow10, Removed, Interval, InInterval, Drop, Ends, RoundUp;
  }

  /**
    The result is the nearest decimal of its length in the interval; of two that are equally near it is the
    even one.  This needs a removed digit or an integer value, which step 3 guarantees.
   */
  lemma Nearest(a: nat, b: nat, c: nat, d: nat, vm: nat, vr: nat, vp: nat,
                accept: bool, vmZeros: bool, vrZeros: bool, n: nat)
    requires Interval(a, b, c, d, vm, vr, vp, accept, vmZeros, vrZeros)
    ensures vmZeros ==> vm > 0
    ensures var k := Removed(vm, vp, vmZeros);
      var out := Output(vm, vr, accept, vmZeros, vrZeros, k);
      (k > 0 || b % d == 0) && InInterval(a, c, d, accept, n, k) ==>
        && Dist(out * (Pow10(k) * d), b) <= Dist(n * (Pow10(k) * d), b)
        && (n != out && Dist(out * (Pow10(k) * d), b) == Dist(n * (Pow10(k) * d), b) ==> out % 2 == 0)
  {
    IntervalPositive(a, b, c, d, vm, vr, vp, accept, vmZeros, vrZeros);
    var k := Removed(vm, vp, vmZeros);
    hide Removed;
    if (k > 0 || b % d == 0) && InInterval(a, c, d, accept, n, k) {
      NearestAt(a, b, c, d, vm, vr, vp, accept, vmZeros, vrZeros, n, k);
    }
  }

  lemma NearestAt(a: nat, b: nat, c: nat, d: nat, vm: nat, vr: nat, vp: nat,
                  accept: bool, vmZeros: bool, vrZeros: bool, n: nat, k: nat)
    requires Interval(a, b, c, d, vm, vr, vp, accept, vmZeros, vrZeros)
    requires (k > 0 || b % d == 0) && InInterval(a, c, d, accept, n, k)
    ensures var out := Output(vm, vr, accept, vmZeros, vrZeros, k);
      && Dist(out * (Pow10(k) * d), b) <= Dist(n * (Pow10(k) * d), b)
      && (n != out && Dist(out * (Pow10(k) * d), b) == Dist(n * (Pow10(k) * d), b) ==> out % 2 == 0)
  {
    var u := Pow10(k) * d;
    var r, rest := Drop(vr, k), vr % Pow10(k) * d + b % d;
    MulMono(1, Pow10(k), d);
    RoundUpIsNearest(b, d, vr, vrZeros, k);
    CutOff(b, d, vr, k);
    CandidatesAbove(a, b, c, d, vm, vr, vp, accept, vmZeros, vrZeros, n, k);
    var up := RoundUp(vr, vrZeros, k);
    var forced := r == Drop(vm, k) && (!accept || !(vmZeros && Ends(vm, k)));
    assert Output(vm, vr, accept, vmZeros, vrZeros, k) == if forced || up then r + 1 else r;
    hide *;
    NearestMultiple(b, u, r, rest, NearerOf(r, rest, u), n);
    if forced && !up { OnlyAbove(b, u, r, rest, n); }
  }

  /** When the digits below b are an excluded lower bound, every candidate is above b. */
  lemma CandidatesAbove(a: nat, b: nat, c: nat, d: nat, vm: nat, vr: nat, vp: nat,
                        accept: bool, vmZeros: bool, vrZeros: bool, n: nat, k: nat)
    requires Interval(a, b, c, d, vm, vr, vp, accept, vmZeros, vrZeros)
    requires (k > 0 || b % d == 0) && InInterval(a, c, d, accept, n, k)
    ensures Drop(vr, k) == Drop(vm, k) && (!accept || !(vmZeros && Ends(vm, k))) ==> n >= Drop(vr, k) + 1
  {
    InIntervalDropped(a, b, c, d, vm, vr, vp, accept, vmZeros, vrZeros, n, k);
    if k > 0 {
      if Ends(vm, k) { EndsTen(vm, k - 1); }
    } else {
      DropStep(vm, 0);
      DropStep(vr, 0);
      DivModSpec(a, d);
      DivModSpec(b, d);
    }
  }

  lemma OnlyAbove(b: nat, u: nat, r: nat, rest: nat, n: nat)
    requires u > 0 && b == r * u + rest && rest < u
    ensures n >= r + 1 ==> Dist((r + 1) * u, b) <= Dist(n * u, b)
    ensures n > r + 1 ==> Dist((r + 1) * u, b) < Dist(n * u, b)
  {
    assert (r + 1) * u == r * u + u;
    if n > r + 1 { MulMono(r + 2, n, u); assert (r + 2) * u == r * u + 2 * u; }
  }
}
