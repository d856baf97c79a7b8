/** `strtoul` and `strtol`, and what they make of the text that `printf` prints. */
module Strtoul {
  import opened Words
  import opened Printing

  const ULONG_MAX: u64 := 0xffff_ffff_ffff_ffff
  const LONG_MAX: u64 := 0x7fff_ffff_ffff_ffff
  const LONG_MIN: int := -0x8000_0000_0000_0000

  /** What the call leaves in `errno`. */
  datatype Errno = NoError | OutOfRange | Invalid

  predicate IsSpace(c: byte) { c == 32 || 9 <= c <= 13 }

  /** The value of a digit or letter; 36 for any other character. */
  function DigitValue(c: byte): nat
  {
    if 48 <= c <= 57 then c - 48 else if 97 <= c <= 122 then c - 97 + 10 else if 65 <= c <= 90 then c - 65 + 10 else 36
  }

  predicate IsDigit(c: byte, base: int) { DigitValue(c) < 36 && DigitValue(c) < base }

  ghost predicate AllDigits(s: seq<byte>, base: int) { forall i :: 0 <= i < |s| ==> IsDigit(s[i], base) }

  /** The accumulator after these digits: in steps of ten whatever the base, modulo 2^64. */
  function Accumulated(digits: seq<byte>): u64
  {
    if digits == [] then 0
    else (Accumulated(digits[..|digits| - 1]) * 10 + DigitValue(digits[|digits| - 1])) % W64
  }

  /** The source's overflow test: some step made the accumulator smaller. */
  predicate Shrinks(digits: seq<byte>)
  {
    digits != []
    && (Shrinks(digits[..|digits| - 1]) || Accumulated(digits) < Accumulated(digits[..|digits| - 1]))
  }

  /** The number that the digits are in a base. */
  function Value(digits: seq<byte>, base: nat): nat
  {
    if digits == [] then 0
    else
      ProductNat(Value(digits[..|digits| - 1], base), base);
      Value(digits[..|digits| - 1], base) * base + DigitValue(digits[|digits| - 1])
  }

  /** The number that the digits are when each place counts ten times the next. */
  function Decimal(digits: seq<byte>): nat { Value(digits, 10) }

  // ----- how a string splits

  predicate ValidBase(base: int) { 0 <= base <= 36 }

  /** A hexadecimal prefix at i, where the base allows one. */
  predicate HexPrefix(s: seq<byte>, base: int, i: nat)
    requires i < |s|
  {
    (base == 0 || base == 16) && s[i] == ZERO && i + 1 < |s| && (s[i + 1] == 120 || s[i + 1] == 88)
  }

  /** Where the digits begin. */
  function Start(s: seq<byte>, base: int, i: nat): nat
    requires i < |s|
  {
    if HexPrefix(s, base, i) then i + 2 else i
  }

  /** The base they are read in. */
  function Radix(s: seq<byte>, base: int, i: nat): int
    requires i < |s|
  {
    if base != 0 then base else if HexPrefix(s, base, i) then 16 else if s[i] == ZERO then 8 else 10
  }

  ghost predicate LeadingSpaces(s: seq<byte>, n: nat)
  {
    n < |s| && (forall i :: 0 <= i < n ==> IsSpace(s[i])) && !IsSpace(s[n])
  }

  /** Spaces, an optional sign, a prefix that the base asks for, digits, and then something else. */
  ghost predicate Splits(s: seq<byte>, base: int, spaces: nat, sign: nat, digits: nat)
  {
    && LeadingSpaces(s, spaces) && spaces + sign < |s| && sign <= 1
    && (sign == 1 <==> s[spaces] == PLUS || s[spaces] == MINUS)
    && DigitRun(s, Start(s, base, spaces + sign), Radix(s, base, spaces + sign), digits)
  }

  /** From start on, exactly this many digits. */
  ghost predicate DigitRun(s: seq<byte>, start: nat, radix: int, digits: nat)
  {
    start + digits < |s| && AllDigits(s[start..start + digits], radix) && !IsDigit(s[start + digits], radix)
  }

  function DigitsAt(s: seq<byte>, base: int, spaces: nat, sign: nat, digits: nat): seq<byte>
    requires spaces + sign < |s| && Start(s, base, spaces + sign) + digits <= |s|
  {
    s[Start(s, base, spaces + sign)..Start(s, base, spaces + sign) + digits]
  }

  /** A split is unique. */
  lemma SplitUnique(s: seq<byte>, base: int, p: nat, q: nat, r: nat, p': nat, q': nat, r': nat)
    requires Splits(s, base, p, q, r) && Splits(s, base, p', q', r')
    ensures p == p' && q == q' && r == r'
  {
    SpacesUnique(s, p, p');
    hide LeadingSpaces, Start, Radix, DigitRun;
    RunUnique(s, Start(s, base, p + q), Radix(s, base, p + q), r, r');
  }

  lemma SpacesUnique(s: seq<byte>, p: nat, p': nat)
    requires LeadingSpaces(s, p) && LeadingSpaces(s, p')
    ensures p == p'
  {
    assert !(p < p') && !(p' < p);
  }

  lemma RunUnique(s: seq<byte>, start: nat, radix: int, r: nat, r': nat)
    requires DigitRun(s, start, radix, r) && DigitRun(s, start, radix, r')
    ensures r == r'
  {
    if r < r' { RunInside(s, start, radix, r', r); }
    if r' < r { RunInside(s, start, radix, r, r'); }
  }

  lemma RunInside(s: seq<byte>, start: nat, radix: int, digits: nat, i: nat)
    requires DigitRun(s, start, radix, digits) && i < digits
    ensures IsDigit(s[start + i], radix)
  {
    assert s[start + i] == s[start..start + digits][i];
  }

  // ----- the loops

  /** One more digit. */
  lemma DigitStep(digits: seq<byte>, c: byte)
    ensures Accumulated(digits + [c]) == (Accumulated(digits) * 10 + DigitValue(c)) % W64
    ensures Shrinks(digits + [c]) <==> Shrinks(digits) || Accumulated(digits + [c]) < Accumulated(digits)
    ensures Decimal(digits + [c]) == Decimal(digits) * 10 + DigitValue(c)
    ensures forall base :: AllDigits(digits, base) && IsDigit(c, base) ==> AllDigits(digits + [c], base)
  {
    hide *;
    AccumulatedStep(digits, c);
    ValueStep(digits, c, 10);
    DecimalIs(digits);
    DecimalIs(digits + [c]);
    AllDigitsStep(digits, c);
  }

  lemma AllDigitsStep(digits: seq<byte>, c: byte)
    ensures forall base :: AllDigits(digits, base) && IsDigit(c, base) ==> AllDigits(digits + [c], base)
  {
    hide IsDigit;
  }

  lemma AccumulatedStep(digits: seq<byte>, c: byte)
    ensures Accumulated(digits + [c]) == (Accumulated(digits) * 10 + DigitValue(c)) % W64
    ensures Shrinks(digits + [c]) <==> Shrinks(digits) || Accumulated(digits + [c]) < Accumulated(digits)
  {
    var longer := digits + [c];
    assert longer != [] && longer[..|longer| - 1] == digits && longer[|longer| - 1] == c;
    hide DigitValue, Value;
  }

  lemma ValueStep(digits: seq<byte>, c: byte, base: nat)
    ensures Value(digits + [c], base) == Value(digits, base) * base + DigitValue(c)
  {
    var longer := digits + [c];
    assert longer != [] && longer[..|longer| - 1] == digits && longer[|longer| - 1] == c;
    hide DigitValue;
  }

  /** The digits read so far, and one more. */
  lemma NextDigit(s: seq<byte>, start: nat, cur: nat, base: int)
    requires start <= cur < |s|
    ensures Accumulated(s[start..cur + 1]) == (Accumulated(s[start..cur]) * 10 + DigitValue(s[cur])) % W64
    ensures var before, after := s[start..cur], s[start..cur + 1];
      Shrinks(after) <==> Shrinks(before) || Accumulated(after) < Accumulated(before)
    ensures AllDigits(s[start..cur], base) && IsDigit(s[cur], base) ==> AllDigits(s[start..cur + 1], base)
  {
    hide *;
    assert s[start..cur + 1] == s[start..cur] + [s[cur]];
    DigitStep(s[start..cur], s[cur]);
  }

  lemma NothingRead(s: seq<byte>, start: nat, base: int)
    requires start < |s|
    ensures Accumulated(s[start..start]) == 0 && !Shrinks(s[start..start]) && AllDigits(s[start..start], base)
    ensures !IsDigit(0, base)
  {
    assert s[start..start] == [];
  }

  /** The digit loop (strtoul.c:36-56 and strtol.c:37-57). */
  method ReadDigits(s: seq<byte>, start: nat, base: int)
      returns (cur: nat, value: u64, overflow: bool, haveDigits: bool)
    requires start < |s| && s[|s| - 1] == 0
    ensures start <= cur < |s| && AllDigits(s[start..cur], base) && !IsDigit(s[cur], base)
    ensures value == Accumulated(s[start..cur]) && overflow == Shrinks(s[start..cur])
    ensures haveDigits <==> cur > start
  {
    hide *;
    cur, value := start, 0;
    haveDigits, overflow := false, false;
    NothingRead(s, start, base);
    while IsDigit(s[cur], base)
      invariant start <= cur < |s|
      invariant AllDigits(s[start..cur], base)
      invariant value == Accumulated(s[start..cur]) && overflow == Shrinks(s[start..cur])
      invariant haveDigits <==> cur > start
      decreases |s| - cur
    {
      NextDigit(s, start, cur, base);
      var nval: u64 := Accumulate(value, s[cur]);
      if nval < value { overflow := true; }
      value := nval;
      haveDigits := true;
      cur := cur + 1;
    }
  }

  /** `(value * 10) + dval` */
  function Accumulate(value: u64, c: byte): (r: u64)
    ensures r == (value * 10 + DigitValue(c)) % W64
  {
    (value * 10 + DigitValue(c)) % W64
  }

  method SkipSpaces(s: seq<byte>) returns (n: nat)
    requires s != [] && s[|s| - 1] == 0
    ensures LeadingSpaces(s, n)
  {
    n := 0;
    while IsSpace(s[n])
      invariant n < |s| && forall i :: 0 <= i < n ==> IsSpace(s[i])
      decreases |s| - n
    {
      n := n + 1;
    }
  }

  /** The prefix (strtoul.c:18-31). */
  method SkipPrefix(s: seq<byte>, from: nat, base: int) returns (cur: nat, radix: int)
    requires from < |s| && s[|s| - 1] == 0
    ensures cur == Start(s, base, from) < |s| && radix == Radix(s, base, from)
  {
    cur, radix := from, base;
    if base == 0 {
      if s[cur] == ZERO {
        if s[cur + 1] == 120 || s[cur + 1] == 88 {
          radix := 16;
          cur := cur + 2;
        } else {
          radix := 8;
        }
      } else {
        radix := 10;
      }
    } else if base == 16 && s[cur] == ZERO && (s[cur + 1] == 120 || s[cur + 1] == 88) {
      cur := cur + 2;
    }
  }

  /** Sign, prefix and digits: what the two functions have in common. */
  method ReadNumber(s: seq<byte>, spaces: nat, base: int)
      returns (negative: bool, value: u64, overflow: bool, end: nat, ghost sign: nat, ghost count: nat)
    requires LeadingSpaces(s, spaces) && s[|s| - 1] == 0
    ensures Splits(s, base, spaces, sign, count) && negative == (s[spaces] == MINUS)
    ensures value == Accumulated(DigitsAt(s, base, spaces, sign, count))
    ensures overflow == Shrinks(DigitsAt(s, base, spaces, sign, count))
    ensures end == if count == 0 then spaces else Start(s, base, spaces + sign) + count
  {
    SignNotLast(s, spaces);
    hide *;
    var cur := spaces;
    negative := s[cur] == MINUS;
    if negative || s[cur] == PLUS { cur := cur + 1; }
    sign := cur - spaces;
    var radix;
    cur, radix := SkipPrefix(s, cur, base);
    ghost var start := cur;
    var haveDigits;
    cur, value, overflow, haveDigits := ReadDigits(s, cur, radix);
    count := cur - start;
    end := if haveDigits then cur else spaces;
    IsSplit(s, base, spaces, sign, count, start, radix);
  }

  lemma SignNotLast(s: seq<byte>, spaces: nat)
    requires LeadingSpaces(s, spaces) && s[|s| - 1] == 0
    ensures spaces < |s| && (s[spaces] == PLUS || s[spaces] == MINUS ==> spaces + 1 < |s|)
  {
  }

  lemma IsSplit(s: seq<byte>, base: int, spaces: nat, sign: nat, count: nat, start: nat, radix: int)
    requires LeadingSpaces(s, spaces) && spaces + sign < |s| && sign <= 1
    requires sign == 1 <==> s[spaces] == PLUS || s[spaces] == MINUS
    requires start == Start(s, base, spaces + sign) && radix == Radix(s, base, spaces + sign) && start + count < |s|
    requires AllDigits(s[start..start + count], radix) && !IsDigit(s[start + count], radix)
    ensures Splits(s, base, spaces, sign, count) && DigitsAt(s, base, spaces, sign, count) == s[start..start + count]
  {
    hide LeadingSpaces, Start, Radix, AllDigits, IsDigit;
  }

  // ----- the results

  /** What `strtoul` makes of a string: the value, the index left in `endptr`, and the error. */
  ghost predicate Reads(s: seq<byte>, base: int, value: u64, end: nat, errno: Errno)
  {
    if !ValidBase(base) then value == 0 && errno == Invalid && LeadingSpaces(s, end)
    else exists spaces: nat, sign: nat, count: nat :: ReadsAs(s, base, value, end, errno, spaces, sign, count)
  }

  ghost predicate ReadsAs(s: seq<byte>, base: int, value: u64, end: nat, errno: Errno,
                          spaces: nat, sign: nat, count: nat)
  {
    && Splits(s, base, spaces, sign, count)
    && var digits := DigitsAt(s, base, spaces, sign, count);
    && errno == (if Shrinks(digits) then OutOfRange else NoError)
    && value == (if Shrinks(digits) then ULONG_MAX
                 else if s[spaces] == MINUS then Sub64(0, Accumulated(digits))
                 else Accumulated(digits))
    && end == if count == 0 then spaces else Start(s, base, spaces + sign) + count
  }

  /** `strtoul` (strtoul.c:8-71) on a NUL-terminated string. */
  method Strtoul(s: seq<byte>, base: int) returns (value: u64, end: nat, errno: Errno)
    requires s != [] && s[|s| - 1] == 0
    ensures Reads(s, base, value, end, errno)
  {
    var nptr := SkipSpaces(s);
    if !ValidBase(base) {
      return 0, nptr, Invalid;
    }
    hide LeadingSpaces, Splits, Accumulated, Shrinks, Start, Sub64;
    var negative, overflow;
    ghost var sign, count;
    negative, value, overflow, end, sign, count := ReadNumber(s, nptr, base);
    errno := NoError;
    if overflow {
      errno := OutOfRange;
      value := ULONG_MAX;
    } else if negative {
      value := Sub64(0, value);
    }
    assert ReadsAs(s, base, value, end, errno, nptr, sign, count);
  }

  /** The largest magnitude of a `long` with this sign. */
  function Limit(negative: bool): u64 { if negative then LONG_MAX + 1 else LONG_MAX }

  /** The digits do not read as a `long`. */
  predicate TooLong(digits: seq<byte>, negative: bool) { Shrinks(digits) || Accumulated(digits) > Limit(negative) }

  /** What `strtol` makes of a string. */
  ghost predicate ReadsLong(s: seq<byte>, base: int, value: int, end: nat, errno: Errno)
  {
    if !ValidBase(base) then value == 0 && errno == Invalid && LeadingSpaces(s, end)
    else exists spaces: nat, sign: nat, count: nat :: ReadsLongAs(s, base, value, end, errno, spaces, sign, count)
  }

  ghost predicate ReadsLongAs(s: seq<byte>, base: int, value: int, end: nat, errno: Errno,
                              spaces: nat, sign: nat, count: nat)
  {
    && Splits(s, base, spaces, sign, count)
    && var digits, negative := DigitsAt(s, base, spaces, sign, count), s[spaces] == MINUS;
    && errno == (if TooLong(digits, negative) then OutOfRange else NoError)
    && value == Signed(negative, if TooLong(digits, negative) then Limit(negative) else Accumulated(digits))
    && end == if count == 0 then spaces else Start(s, base, spaces + sign) + count
  }

  /** `strtol` (strtol.c:8-79) on a NUL-terminated string. */
  method Strtol(s: seq<byte>, base: int) returns (value: int, end: nat, errno: Errno)
    requires s != [] && s[|s| - 1] == 0
    ensures ReadsLong(s, base, value, end, errno)
  {
    var nptr := SkipSpaces(s);
    if !ValidBase(base) {
      return 0, nptr, Invalid;
    }
    hide LeadingSpaces, Splits, Accumulated, Shrinks, Start;
    var negative, uval, overflow;
    ghost var sign, count;
    negative, uval, overflow, end, sign, count := ReadNumber(s, nptr, base);
    errno := NoError;
    if negative {
      if overflow || uval > LONG_MAX + 1 {
        errno := OutOfRange;
        value := LONG_MIN;
      } else {
        value := -uval;
      }
    } else if overflow || uval > LONG_MAX {
      errno := OutOfRange;
      value := LONG_MAX;
    } else {
      value := uval;
    }
    assert ReadsLongAs(s, base, value, end, errno, nptr, sign, count);
  }

  lemma NoDigits()
    ensures Accumulated([]) == 0 && Decimal([]) == 0 && AllDigits([], 10) && !Shrinks([]) && Sub64(0, 0) == 0
  {
  }

  // ----- when the result is right

  lemma {:induction false} DecimalFits(digits: seq<byte>)
    requires Decimal(digits) < W64
    ensures Accumulated(digits) == Decimal(digits) && !Shrinks(digits)
  {
    if digits != [] {
      var rest := digits[..|digits| - 1];
      DecimalFits(rest);
      DivModUnique(Decimal(digits), W64, 0, Decimal(digits));
    }
  }

  /** The number is exact, or the error is reported. */
  predicate Right(digits: seq<byte>, base: nat)
  {
    var number := Value(digits, base);
    if number < W64 then Accumulated(digits) == number && !Shrinks(digits) else Shrinks(digits)
  }

  /** What is left of x modulo 2^64 without its last k decimal digits. */
  function Residue(x: nat, k: nat): nat
  {
    DivNat(x, Pow10(k));
    x / Pow10(k) % W64
  }

  predicate StepShrinks(x: nat, k: nat) { Residue(x, k) < Residue(x, k + 1) }

  /** Some leading part of x is, modulo 2^64, smaller than the same part without its last digit. */
  ghost predicate WrapShows(x: nat) { exists k: nat :: StepShrinks(x, k) }

  /** The accumulator is the value modulo 2^64. */
  lemma {:induction false} AccumulatedResidue(digits: seq<byte>)
    ensures Accumulated(digits) == Decimal(digits) % W64
  {
    if digits != [] {
      var rest := digits[..|digits| - 1];
      AccumulatedResidue(rest);
      ResidueStep(Decimal(rest), DigitValue(digits[|digits| - 1]));
    }
  }

  lemma ResidueStep(v: nat, d: nat)
    ensures (v % W64 * 10 + d) % W64 == (v * 10 + d) % W64
  {
    DivModSpec(v, W64);
    ModAddMultiple(v % W64 * 10 + d, v / W64 * 10, W64);
  }

  lemma LastDigitOff(digits: seq<byte>)
    requires digits != [] && AllDigits(digits, 10)
    ensures var rest := digits[..|digits| - 1]; AllDigits(rest, 10) && Decimal(digits) / 10 == Decimal(rest)
  {
    assert IsDigit(digits[|digits| - 1], 10);
  }

  lemma ResidueShift(x: nat, k: nat)
    ensures Residue(x, 0) == x % W64
    ensures Residue(x, k + 1) == Residue(x / 10, k)
  {
    DivDiv(x, 10, Pow10(k));
  }

  lemma NoResidue(k: nat)
    ensures Residue(0, k) == 0
  {
  }

  /** The first part that could show it is the whole; the others belong to the number without its last digit. */
  lemma WrapShowsStep(x: nat)
    ensures WrapShows(x) <==> x % W64 < x / 10 % W64 || WrapShows(x / 10)
  {
    hide Residue;
    ResidueShift(x, 0);
    ResidueShift(x / 10, 0);
    if WrapShows(x) {
      var k: nat :| StepShrinks(x, k);
      if k > 0 {
        ResidueShift(x, k - 1);
        ResidueShift(x, k);
        assert StepShrinks(x / 10, k - 1);
      }
    }
    if x % W64 < x / 10 % W64 { assert StepShrinks(x, 0); }
    if WrapShows(x / 10) {
      var k: nat :| StepShrinks(x / 10, k);
      ResidueShift(x, k);
      ResidueShift(x, k + 1);
      assert StepShrinks(x, k + 1);
    }
  }

  /** The source's overflow test in terms of the number that was written. */
  lemma {:induction false} ShrinksIs(digits: seq<byte>)
    requires AllDigits(digits, 10)
    ensures Shrinks(digits) <==> WrapShows(Decimal(digits))
  {
    hide Residue;
    if digits == [] {
      forall k: nat ensures !StepShrinks(0, k) {
        NoResidue(k);
        NoResidue(k + 1);
      }
    } else {
      LastDigitOff(digits);
      ShrinksIs(digits[..|digits| - 1]);
      AccumulatedResidue(digits);
      AccumulatedResidue(digits[..|digits| - 1]);
      WrapShowsStep(Decimal(digits));
    }
  }

  /** Exactly the numbers that fit, or some leading part of which shows the overflow, are read right. */
  lemma WhenRight(digits: seq<byte>)
    requires AllDigits(digits, 10)
    ensures Right(digits, 10) <==> Decimal(digits) < W64 || WrapShows(Decimal(digits))
  {
    hide Residue, WrapShows, Shrinks, Accumulated;
    ShrinksIs(digits);
    if Decimal(digits) < W64 { DecimalFits(digits); }
  }

  /** `strtol` on the same digits: exact, or the error is reported. */
  predicate RightLong(digits: seq<byte>, base: nat, negative: bool)
  {
    var number := Value(digits, base);
    if number <= Limit(negative) then Accumulated(digits) == number && !TooLong(digits, negative)
    else TooLong(digits, negative)
  }

  /** The narrower range leaves fewer numbers that wrap around unseen. */
  lemma WhenRightLong(digits: seq<byte>, negative: bool)
    requires AllDigits(digits, 10)
    ensures RightLong(digits, 10, negative)
            <==> Decimal(digits) <= Limit(negative) || WrapShows(Decimal(digits))
                 || Decimal(digits) % W64 > Limit(negative)
  {
    hide Residue, WrapShows, Shrinks, Accumulated, Value;
    ShrinksIs(digits);
    AccumulatedResidue(digits);
    if Decimal(digits) < W64 { DecimalFits(digits); }
  }

  // ----- other bases

  ghost predicate AllZero(digits: seq<byte>) { forall i :: 0 <= i < |digits| ==> DigitValue(digits[i]) == 0 }

  /** No digit but the last counts. */
  ghost predicate OnlyLast(digits: seq<byte>) { digits == [] || AllZero(digits[..|digits| - 1]) }

  lemma {:induction false} ZeroIs(digits: seq<byte>, base: nat)
    requires base > 0
    ensures Value(digits, base) == 0 <==> AllZero(digits)
  {
    if digits != [] {
      var rest, c := digits[..|digits| - 1], digits[|digits| - 1];
      assert digits == rest + [c];
      ValueStep(rest, c, base);
      ZeroIs(rest, base);
      ZeroAppend(rest, c);
      hide *;
      ZeroProduct(Value(rest, base), base);
    }
  }

  lemma ZeroAppend(rest: seq<byte>, c: byte)
    ensures AllZero(rest + [c]) <==> AllZero(rest) && DigitValue(c) == 0
  {
    hide DigitValue;
    if AllZero(rest + [c]) {
      forall i | 0 <= i < |rest| ensures DigitValue(rest[i]) == 0 {
        assert (rest + [c])[i] == rest[i];
      }
      assert (rest + [c])[|rest|] == c;
    }
  }

  lemma ZeroProduct(n: nat, base: nat)
    requires base > 0
    ensures n * base >= n && (n * base == 0 <==> n == 0)
  {
    MulMono(1, base, n);
  }

  /** Counting in tens gives less than a larger base does, and more than a smaller one. */
  lemma {:induction false} TensDiffer(digits: seq<byte>, base: nat)
    requires 0 < base && base != 10
    ensures if base > 10 then Decimal(digits) <= Value(digits, base) else Value(digits, base) <= Decimal(digits)
    ensures Value(digits, base) == Decimal(digits) <==> OnlyLast(digits)
  {
    if digits != [] {
      var rest, c := digits[..|digits| - 1], digits[|digits| - 1];
      assert digits == rest + [c];
      ValueStep(rest, c, base);
      ValueStep(rest, c, 10);
      TensDiffer(rest, base);
      ZeroIs(rest, 10);
      ZeroIs(rest, base);
      DecimalIs(rest);
      DecimalIs(digits);
      LastIs(digits);
      hide *;
      if base > 10 {
        MulMono(Decimal(rest), Value(rest, base), base);
        TensLess(Decimal(rest), 10, base);
      } else {
        MulMono(Value(rest, base), Decimal(rest), base);
        TensLess(Decimal(rest), base, 10);
      }
    } else {
      NoDigits();
    }
  }

  lemma DecimalIs(digits: seq<byte>)
    ensures Decimal(digits) == Value(digits, 10)
  {
  }

  lemma LastIs(digits: seq<byte>)
    requires digits != []
    ensures OnlyLast(digits) <==> AllZero(digits[..|digits| - 1])
  {
  }

  lemma TensLess(n: nat, low: nat, high: nat)
    requires low < high
    ensures n > 0 ==> n * low < n * high
  {
    if n > 0 { MulStrict(low, high, n); }
  }

  /**
    In any base but ten the result is right if no digit but the last counts, and otherwise only where the digits,
    taken in tens, wrap around: unseen onto the very number, or seen when the number is too large as well.
   */
  lemma WhenRightInBase(digits: seq<byte>, base: nat)
    requires 0 < base <= 36 && base != 10
    ensures Right(digits, base)
            <==> OnlyLast(digits)
                 || (Decimal(digits) >= W64
                     && if Value(digits, base) >= W64 then SomePartShrinks(digits)
                        else Decimal(digits) % W64 == Value(digits, base) && !SomePartShrinks(digits))
  {
    hide *;
    if OnlyLast(digits) { SmallLast(digits, base); }
    TensDiffer(digits, base);
    AccumulatedResidue(digits);
    ShrinksSomewhere(digits);
    RightIs(digits, base);
    LargeWord();
    if Decimal(digits) < W64 { DecimalFits(digits); }
  }

  /** The same of `strtol`, whose limit shows more of the numbers that are too large. */
  lemma WhenRightLongInBase(digits: seq<byte>, base: nat, negative: bool)
    requires 0 < base <= 36 && base != 10
    ensures RightLong(digits, base, negative)
            <==> OnlyLast(digits)
                 || (Decimal(digits) > Limit(negative)
                     && if Value(digits, base) > Limit(negative)
                        then SomePartShrinks(digits) || Decimal(digits) % W64 > Limit(negative)
                        else Decimal(digits) % W64 == Value(digits, base) && !SomePartShrinks(digits))
  {
    hide *;
    if OnlyLast(digits) { SmallLast(digits, base); }
    TensDiffer(digits, base);
    AccumulatedResidue(digits);
    ShrinksSomewhere(digits);
    RightLongIs(digits, base, negative);
    if Decimal(digits) <= Limit(negative) { DecimalFits(digits); }
  }

  lemma RightLongIs(digits: seq<byte>, base: nat, negative: bool)
    ensures 36 < Limit(negative) < W64
    ensures TooLong(digits, negative) <==> Shrinks(digits) || Accumulated(digits) > Limit(negative)
    ensures RightLong(digits, base, negative)
            <==> if Value(digits, base) <= Limit(negative)
                 then Accumulated(digits) == Value(digits, base) && !TooLong(digits, negative)
                 else TooLong(digits, negative)
  {
  }

  lemma RightIs(digits: seq<byte>, base: nat)
    ensures Right(digits, base)
            <==> if Value(digits, base) < W64 then Accumulated(digits) == Value(digits, base) && !Shrinks(digits)
                 else Shrinks(digits)
  {
  }

  lemma LargeWord()
    ensures W64 > 36
  {
  }

  lemma SmallLast(digits: seq<byte>, base: nat)
    requires base > 0 && OnlyLast(digits)
    ensures Value(digits, base) <= 36
  {
    if digits != [] { ZeroIs(digits[..|digits| - 1], base); }
  }

  /** Some leading part, taken in tens, is smaller modulo 2^64 than the part without its last digit. */
  ghost predicate SomePartShrinks(digits: seq<byte>)
  {
    exists k: nat :: k < |digits| && PartShrinks(digits, k)
  }

  ghost predicate PartShrinks(digits: seq<byte>, k: nat)
    requires k < |digits|
  {
    Decimal(digits[..k + 1]) % W64 < Decimal(digits[..k]) % W64
  }

  lemma {:induction false} ShrinksSomewhere(digits: seq<byte>)
    ensures Shrinks(digits) <==> SomePartShrinks(digits)
  {
    if digits != [] {
      var rest := digits[..|digits| - 1];
      ShrinksSomewhere(rest);
      AccumulatedResidue(rest);
      AccumulatedResidue(digits);
      hide Accumulated, Decimal;
      forall k: nat | k < |rest|
        ensures PartShrinks(rest, k) == PartShrinks(digits, k)
      {
        assert rest[..k] == digits[..k] && rest[..k + 1] == digits[..k + 1];
      }
      assert digits[..|rest|] == rest && digits[..|rest| + 1] == digits;
      assert PartShrinks(digits, |rest|) <==> Accumulated(digits) < Accumulated(rest);
    }
  }

  /** A number that is read in tens, by both functions: ff in base 16 comes out as 165. */
  lemma WrongBase()
    ensures Reads([102, 102, 0], 16, 165, 2, NoError) && ReadsLong([102, 102, 0], 16, 165, 2, NoError)
    ensures Value([102, 102], 16) == 255
  {
    TwoDigits(102, 102, 16);
    var text := [102, 102, 0];
    assert text[0..2] == [102, 102];
    hide Accumulated, Shrinks, Value;
    assert DigitRun(text, 0, 16, 2) && Start(text, 16, 0) == 0;
    assert Splits(text, 16, 0, 0, 2);
    assert ReadsAs(text, 16, 165, 2, NoError, 0, 0, 2);
    assert ReadsLongAs(text, 16, 165, 2, NoError, 0, 0, 2);
  }

  lemma TwoDigits(c: byte, d: byte, base: nat)
    ensures Accumulated([c, d]) == DigitValue(c) * 10 + DigitValue(d) && !Shrinks([c, d])
    ensures Value([c, d], base) == DigitValue(c) * base + DigitValue(d)
  {
    hide DigitValue, Accumulated, Shrinks, Value;
    assert [c] == [] + [c] && [c, d] == [c] + [d];
    DigitStep([], c);
    DigitStep([c], d);
    ValueStep([], c, base);
    ValueStep([c], d, base);
    NoDigits();
    NothingCounts(base);
    DigitBound(c);
    DigitBound(d);
    SmallDigits(DigitValue(c), DigitValue(d));
  }

  lemma NothingCounts(base: nat)
    ensures Value([], base) == 0
  {
  }

  lemma DigitBound(c: byte)
    ensures DigitValue(c) <= 36
  {
  }

  lemma SmallDigits(a: nat, b: nat)
    requires a <= 36 && b <= 36
    ensures (0 * 10 + a) % W64 == a && (a * 10 + b) % W64 == a * 10 + b
  {
  }

  // ----- missed overflows

  /** `strtoul` misses the overflow of some numbers of twenty digits: 3 * 10^19 comes out as another number. */
  lemma MissedOverflow()
    ensures var digits := [51] + Repeat(ZERO, 19);
      && AllDigits(digits, 10) && Decimal(digits) == 30_000_000_000_000_000_000 && !Right(digits, 10)
      && Reads(digits + [0], 10, 11_553_255_926_290_448_384, 20, NoError)
  {
    hide *;
    Leads();
    TenPowers();
    Lengths(19);
    LastZero([51], 3, 18);
    var digits := [51] + Repeat(ZERO, 19);
    DecimalIs(digits);
    RightIs(digits, 10);
    ReadsPlain(digits, 11_553_255_926_290_448_384);
  }

  /** `strtol` reports that one, but not 24 * 10^18. */
  lemma MissedOverflowLong()
    ensures var digits := [50, 52] + Repeat(ZERO, 18);
      && AllDigits(digits, 10) && Decimal(digits) == 24_000_000_000_000_000_000 && !RightLong(digits, 10, false)
      && ReadsLong(digits + [0], 10, 5_553_255_926_290_448_384, 20, NoError)
  {
    hide *;
    Leads();
    TenPowers();
    Lengths(18);
    LastZero([50, 52], 24, 17);
    var digits := [50, 52] + Repeat(ZERO, 18);
    DecimalIs(digits);
    RightLongIs(digits, 10, false);
    ReadsPlain(digits, 5_553_255_926_290_448_384);
  }

  lemma Lengths(k: nat)
    ensures |Repeat(ZERO, k)| == k && LONG_MAX == Limit(false) == 9_223_372_036_854_775_807
    ensures W64 == 18_446_744_073_709_551_616
  {
  }

  /** What the two functions make of digits alone that do not wrap around visibly. */
  lemma ReadsPlain(digits: seq<byte>, value: u64)
    requires AllDigits(digits, 10) && digits != [] && Accumulated(digits) == value && !Shrinks(digits)
    ensures Reads(digits + [0], 10, value, |digits|, NoError)
    ensures value <= LONG_MAX ==> ReadsLong(digits + [0], 10, value, |digits|, NoError)
  {
    PlainNumber(digits);
    hide Accumulated, Shrinks, Splits, AllDigits;
    assert ReadsAs(digits + [0], 10, value, |digits|, NoError, 0, 0, |digits|);
    assert value <= LONG_MAX ==> ReadsLongAs(digits + [0], 10, value, |digits|, NoError, 0, 0, |digits|);
  }

  lemma Leads()
    ensures AllDigits([51], 10) && Decimal([51]) == 3 && AllDigits([50, 52], 10) && Decimal([50, 52]) == 24
  {
    LeadAlone(51);
    LeadPair(50, 52);
    hide Value, AllDigits;
  }

  lemma LeadAlone(c: byte)
    requires IsDigit(c, 10)
    ensures Decimal([c]) == DigitValue(c) && AllDigits([c], 10)
  {
    assert [c] == [] + [c];
    hide DigitValue, IsDigit, Value, Accumulated, Shrinks;
    NoDigits();
    DigitStep([], c);
  }

  lemma LeadPair(c: byte, d: byte)
    requires IsDigit(c, 10) && IsDigit(d, 10)
    ensures Decimal([c, d]) == DigitValue(c) * 10 + DigitValue(d) && AllDigits([c, d], 10)
  {
    assert [c, d] == [c] + [d];
    hide DigitValue, IsDigit, Value, Accumulated, Shrinks;
    LeadAlone(c);
    DigitStep([c], d);
  }

  /** Zeros up to a number that fits, and then one more. */
  lemma LastZero(lead: seq<byte>, v: nat, k: nat)
    requires AllDigits(lead, 10) && Decimal(lead) == v && v * Pow10(k) < W64
    ensures var digits := lead + Repeat(ZERO, k + 1); var before := v * Pow10(k);
      && AllDigits(digits, 10) && Decimal(digits) == before * 10 && Accumulated(digits) == before * 10 % W64
      && (Shrinks(digits) <==> before * 10 % W64 < before)
  {
    hide *;
    ZerosAppended(lead, k);
    DecimalFits(lead + Repeat(ZERO, k));
    OneMoreZero(lead, k);
    DigitStep(lead + Repeat(ZERO, k), 48);
  }

  lemma TenPowers()
    ensures Pow10(0) == 1 && Pow10(17) == 100_000_000_000_000_000 && Pow10(18) == 1_000_000_000_000_000_000
  {
    assert Pow10(9) == 1_000_000_000;
    assert Pow10(17) == 100_000_000_000_000_000;
  }

  lemma OneMoreZero(lead: seq<byte>, k: nat)
    ensures lead + Repeat(ZERO, k + 1) == lead + Repeat(ZERO, k) + [48] && lead + Repeat(ZERO, 0) == lead
    ensures DigitValue(48) == 0 && IsDigit(48, 10) && Pow10(k + 1) == 10 * Pow10(k)
  {
  }

  lemma {:induction false} ZerosAppended(lead: seq<byte>, k: nat)
    requires AllDigits(lead, 10)
    ensures AllDigits(lead + Repeat(ZERO, k), 10) && Decimal(lead + Repeat(ZERO, k)) == Decimal(lead) * Pow10(k)
  {
    hide *;
    OneMoreZero(lead, 0);
    TenPowers();
    if k > 0 {
      ZerosAppended(lead, k - 1);
      OneMoreZero(lead, k - 1);
      DigitStep(lead + Repeat(ZERO, k - 1), 48);
      MulAssociates(Decimal(lead), Pow10(k - 1), 10);
    }
  }

  /** Digits alone. */
  lemma PlainNumber(digits: seq<byte>)
    requires AllDigits(digits, 10) && digits != []
    ensures var text := digits + [0];
      && Splits(text, 10, 0, 0, |digits|) && DigitsAt(text, 10, 0, 0, |digits|) == digits && text[0] != MINUS
      && Start(text, 10, 0) == 0
  {
    assert [] + [] + digits + [0] == digits + [0];
    assert IsDigit(digits[0], 10);
    hide AllDigits, Splits;
    PartsSplit([], [], digits, [0]);
  }

  // ----- what the standard asks for (section 7.22.1.4 of ISO/IEC 9899:2011)

  /**
    The pointer that is left: behind the subject sequence, which is the zero of a hexadecimal prefix without digits
    behind it; and the very pointer that was passed, spaces included, if there is no subject sequence.
   */
  function ExpectedEnd(s: seq<byte>, base: int, spaces: nat, sign: nat, count: nat): nat
    requires spaces + sign < |s|
  {
    var i := spaces + sign;
    if count > 0 then Start(s, base, i) + count else if HexPrefix(s, base, i) then i + 1 else 0
  }

  function ExpectedUnsigned(number: nat, negative: bool): u64
  {
    if number >= W64 then ULONG_MAX else if negative then Sub64(0, number) else number
  }

  function ExpectedLong(number: nat, negative: bool): int
  {
    Signed(negative, if number > Limit(negative) then Limit(negative) else number)
  }

  predicate BareHexPrefix(s: seq<byte>, base: int, i: nat)
    requires i < |s|
  {
    HexPrefix(s, base, i) && i + 2 < |s| && !IsDigit(s[i + 2], 16)
  }

  /** Neither a prefix without a digit behind it, nor spaces without a number behind them. */
  predicate EndsWell(s: seq<byte>, base: int, spaces: nat, sign: nat)
    requires spaces + sign < |s|
  {
    var i := spaces + sign;
    !BareHexPrefix(s, base, i) && (spaces == 0 || IsDigit(s[i], Radix(s, base, i)))
  }

  /** When the digits are read right, without mentioning the accumulator. */
  ghost predicate ReadWell(digits: seq<byte>, base: nat)
  {
    if base == 10 then Decimal(digits) < W64 || WrapShows(Decimal(digits))
    else
      OnlyLast(digits)
      || (Decimal(digits) >= W64
          && if Value(digits, base) >= W64 then SomePartShrinks(digits)
             else Decimal(digits) % W64 == Value(digits, base) && !SomePartShrinks(digits))
  }

  /** The same for `strtol`. */
  ghost predicate ReadWellLong(digits: seq<byte>, base: nat, negative: bool)
  {
    if base == 10
    then
      Decimal(digits) <= Limit(negative) || WrapShows(Decimal(digits)) || Decimal(digits) % W64 > Limit(negative)
    else
      OnlyLast(digits)
      || (Decimal(digits) > Limit(negative)
          && if Value(digits, base) > Limit(negative)
             then SomePartShrinks(digits) || Decimal(digits) % W64 > Limit(negative)
             else Decimal(digits) % W64 == Value(digits, base) && !SomePartShrinks(digits))
  }

  /** The base and the digits of a split. */
  lemma SplitDigits(s: seq<byte>, base: int, spaces: nat, sign: nat, count: nat)
    requires ValidBase(base) && Splits(s, base, spaces, sign, count)
    ensures spaces + sign < |s| && 0 < Radix(s, base, spaces + sign) <= 36
    ensures Start(s, base, spaces + sign) + count < |s|
    ensures AllDigits(DigitsAt(s, base, spaces, sign, count), Radix(s, base, spaces + sign))
  {
    hide AllDigits, IsDigit, LeadingSpaces;
  }

  /**
    The value and the error are those of the standard exactly for the digits of `ReadWell`, in every base, and the
    end pointer is exactly for the texts of `EndsWell`.
   */
  lemma WhenStrtoulRight(s: seq<byte>, base: int, value: u64, end: nat, errno: Errno,
                         spaces: nat, sign: nat, count: nat)
    requires ValidBase(base) && ReadsAs(s, base, value, end, errno, spaces, sign, count)
    ensures Start(s, base, spaces + sign) + count <= |s| && Radix(s, base, spaces + sign) >= 0
    ensures var digits, radix := DigitsAt(s, base, spaces, sign, count), Radix(s, base, spaces + sign);
      var number := Value(digits, radix);
      value == ExpectedUnsigned(number, s[spaces] == MINUS) && errno == (if number < W64 then NoError else OutOfRange)
      <==> ReadWell(digits, radix)
    ensures end == ExpectedEnd(s, base, spaces, sign, count) <==> EndsWell(s, base, spaces, sign)
  {
    SplitDigits(s, base, spaces, sign, count);
    EndRight(s, base, spaces, sign, count);
    var digits, radix := DigitsAt(s, base, spaces, sign, count), Radix(s, base, spaces + sign);
    hide Splits, Accumulated, Shrinks, Value, OnlyLast, SomePartShrinks, WrapShows, Start, Radix, AllDigits,
         EndsWell, ExpectedEnd, Sub64;
    AccumulatedResidue(digits);
    NegativesDiffer(Accumulated(digits), Value(digits, radix));
    if radix == 10 { WhenRight(digits); } else { WhenRightInBase(digits, radix); }
  }

  lemma NegativesDiffer(a: nat, b: nat)
    requires a < W64
    ensures b < W64 && Sub64(0, a) == Sub64(0, b) ==> a == b
  {
  }

  /** The same of `strtol`. */
  lemma WhenStrtolRight(s: seq<byte>, base: int, value: int, end: nat, errno: Errno,
                        spaces: nat, sign: nat, count: nat)
    requires ValidBase(base) && ReadsLongAs(s, base, value, end, errno, spaces, sign, count)
    ensures Start(s, base, spaces + sign) + count <= |s| && Radix(s, base, spaces + sign) >= 0
    ensures var digits, radix := DigitsAt(s, base, spaces, sign, count), Radix(s, base, spaces + sign);
      var number, negative := Value(digits, radix), s[spaces] == MINUS;
      value == ExpectedLong(number, negative) && errno == (if number <= Limit(negative) then NoError else OutOfRange)
      <==> ReadWellLong(digits, radix, negative)
    ensures end == ExpectedEnd(s, base, spaces, sign, count) <==> EndsWell(s, base, spaces, sign)
  {
    SplitDigits(s, base, spaces, sign, count);
    EndRight(s, base, spaces, sign, count);
    var digits, radix := DigitsAt(s, base, spaces, sign, count), Radix(s, base, spaces + sign);
    hide Splits, Accumulated, Shrinks, Value, OnlyLast, SomePartShrinks, WrapShows, Start, Radix, AllDigits,
         EndsWell, ExpectedEnd;
    if radix == 10 { WhenRightLong(digits, s[spaces] == MINUS); }
    else { WhenRightLongInBase(digits, radix, s[spaces] == MINUS); }
  }

  lemma EndRight(s: seq<byte>, base: int, spaces: nat, sign: nat, count: nat)
    requires Splits(s, base, spaces, sign, count)
    ensures spaces + sign < |s|
    ensures (if count == 0 then spaces else Start(s, base, spaces + sign) + count)
            == ExpectedEnd(s, base, spaces, sign, count)
            <==> EndsWell(s, base, spaces, sign)
  {
    FirstDigit(s, base, spaces + sign, count);
    if count > 0 && !HexPrefix(s, base, spaces + sign) {
      RunInside(s, spaces + sign, Radix(s, base, spaces + sign), count, 0);
    }
    hide AllDigits, LeadingSpaces;
  }

  /** Whether there are digits shows in the first character behind the prefix. */
  lemma FirstDigit(s: seq<byte>, base: int, i: nat, count: nat)
    requires i < |s| && DigitRun(s, Start(s, base, i), Radix(s, base, i), count)
    ensures HexPrefix(s, base, i) ==> i + 2 < |s| && Radix(s, base, i) == 16 && (count > 0 <==> IsDigit(s[i + 2], 16))
  {
    if HexPrefix(s, base, i) && count > 0 { RunInside(s, i + 2, 16, count, 0); }
  }

  /** Of 0x alone nothing is read, where the standard has its zero read. */
  lemma BarePrefix()
    ensures var text := [48, 120, 0];
      && Reads(text, 16, 0, 0, NoError) && ReadsLong(text, 16, 0, 0, NoError)
      && BareHexPrefix(text, 16, 0) && ExpectedEnd(text, 16, 0, 0, 0) == 1
  {
    NoDigits();
    var text := [48, 120, 0];
    assert text[2..2] == [];
    assert ReadsAs(text, 16, 0, 0, NoError, 0, 0, 0);
    assert ReadsLongAs(text, 16, 0, 0, NoError, 0, 0, 0);
    EndRight(text, 16, 0, 0, 0);
  }

  /** Of a space and a letter nothing is read either, but the space is passed, where the standard has it kept. */
  lemma SpacesPassed()
    ensures var text := [32, 120, 0];
      && Reads(text, 10, 0, 1, NoError) && ReadsLong(text, 10, 0, 1, NoError)
      && ReadsAs(text, 10, 0, 1, NoError, 1, 0, 0) && ExpectedEnd(text, 10, 1, 0, 0) == 0
  {
    NoDigits();
    var text := [32, 120, 0];
    assert text[1..1] == [];
    assert ReadsAs(text, 10, 0, 1, NoError, 1, 0, 0);
    assert ReadsLongAs(text, 10, 0, 1, NoError, 1, 0, 0);
  }

  /** A single digit, behind spaces, a sign other than a minus, and a prefix. */
  lemma OneDigitRead(s: seq<byte>, base: int, spaces: nat, sign: nat, start: nat, radix: int)
    requires ValidBase(base) && LeadingSpaces(s, spaces) && sign <= 1 && spaces + sign < |s| && s[spaces] != MINUS
    requires sign == 1 <==> s[spaces] == PLUS
    requires start == Start(s, base, spaces + sign) && radix == Radix(s, base, spaces + sign)
    requires start + 1 < |s| && IsDigit(s[start], radix) && !IsDigit(s[start + 1], radix)
    ensures Reads(s, base, DigitValue(s[start]), start + 1, NoError)
  {
    var digits := s[start..start + 1];
    assert digits == [s[start]] && digits[..0] == [];
    assert Accumulated([]) == 0 && Accumulated(digits) == DigitValue(s[start]) && !Shrinks(digits);
    hide Start, Radix, LeadingSpaces, Accumulated, Shrinks;
    assert ReadsAs(s, base, DigitValue(s[start]), start + 1, NoError, spaces, sign, 1);
  }

  /** Digits and letters of either case in the largest base, and not in the one below. */
  lemma LastDigit()
    ensures Reads([57, 0], 36, 9, 1, NoError) && Reads([97, 0], 36, 10, 1, NoError)
    ensures Reads([122, 0], 36, 35, 1, NoError) && Reads([90, 0], 36, 35, 1, NoError)
    ensures Reads([122, 0], 35, 0, 0, NoError) && Reads([90, 0], 35, 0, 0, NoError)
  {
    hide Accumulated, Shrinks, Reads;
    OneDigitRead([57, 0], 36, 0, 0, 0, 36);
    OneDigitRead([97, 0], 36, 0, 0, 0, 36);
    OneDigitRead([122, 0], 36, 0, 0, 0, 36);
    OneDigitRead([90, 0], 36, 0, 0, 0, 36);
    NoDigitRead([122, 0], 35);
    NoDigitRead([90, 0], 35);
  }

  lemma NoDigitRead(s: seq<byte>, base: int)
    requires ValidBase(base) && |s| > 1 && !IsSpace(s[0]) && s[0] != PLUS && s[0] != MINUS && s[0] != ZERO
    requires !IsDigit(s[0], Radix(s, base, 0))
    ensures Reads(s, base, 0, 0, NoError)
  {
    assert s[0..0] == [];
    assert ReadsAs(s, base, 0, 0, NoError, 0, 0, 0);
  }

  /** Without a base: 0x7, 0Xf, 08, of which only the zero is octal, and 8; and 0x7 in base 10. */
  lemma BaseOfText()
    ensures Reads([48, 120, 55, 0], 0, 7, 3, NoError) && Reads([48, 88, 102, 0], 0, 15, 3, NoError)
    ensures Reads([48, 88, 102, 0], 16, 15, 3, NoError) && Reads([48, 120, 55, 0], 10, 0, 1, NoError)
    ensures Reads([48, 56, 0], 0, 0, 1, NoError) && Reads([56, 0], 0, 8, 1, NoError)
  {
    hide Accumulated, Shrinks, Reads;
    OneDigitRead([48, 120, 55, 0], 0, 0, 0, 2, 16);
    OneDigitRead([48, 88, 102, 0], 0, 0, 0, 2, 16);
    OneDigitRead([48, 88, 102, 0], 16, 0, 0, 2, 16);
    OneDigitRead([48, 120, 55, 0], 10, 0, 0, 0, 10);
    OneDigitRead([48, 56, 0], 0, 0, 0, 0, 8);
    OneDigitRead([56, 0], 0, 0, 0, 0, 10);
  }

  /** All the white space there is, and a plus. */
  lemma SpacesSkipped()
    ensures Reads([9, 10, 11, 12, 13, 32, 43, 55, 0], 10, 7, 8, NoError)
    ensures Reads([8, 55, 0], 10, 0, 0, NoError) && Reads([14, 55, 0], 10, 0, 0, NoError)
  {
    hide Accumulated, Shrinks, Reads;
    OneDigitRead([9, 10, 11, 12, 13, 32, 43, 55, 0], 10, 6, 1, 7, 10);
    NoDigitRead([8, 55, 0], 10);
    NoDigitRead([14, 55, 0], 10);
  }

  // ----- reading back what was printed

  lemma {:induction false} DecimalOfDigits(value: nat)
    ensures Decimal(DigitsOf(value)) == value && AllDigits(DigitsOf(value), 10)
  {
    if value > 0 {
      DecimalOfDigits(value / 10);
      DigitStep(DigitsOf(value / 10), ZERO + value % 10);
    }
  }

  /** Leading zeros change nothing. */
  lemma {:induction false} LeadingZerosDropped(zeros: nat, digits: seq<byte>)
    requires AllDigits(digits, 10)
    ensures Decimal(Repeat(ZERO, zeros) + digits) == Decimal(digits) && AllDigits(Repeat(ZERO, zeros) + digits, 10)
    decreases |digits| + zeros
  {
    if digits != [] {
      var rest, c := digits[..|digits| - 1], digits[|digits| - 1];
      assert Repeat(ZERO, zeros) + digits == (Repeat(ZERO, zeros) + rest) + [c] && digits == rest + [c];
      LeadingZerosDropped(zeros, rest);
      DigitStep(Repeat(ZERO, zeros) + rest, c);
      DigitStep(rest, c);
    } else if zeros > 0 {
      assert Repeat(ZERO, zeros) + [] == (Repeat(ZERO, zeros - 1) + []) + [ZERO];
      LeadingZerosDropped(zeros - 1, []);
      DigitStep(Repeat(ZERO, zeros - 1) + [], ZERO);
    } else {
      assert Repeat(ZERO, 0) + [] == [];
    }
  }

  ghost predicate AllSpaces(s: seq<byte>) { forall i :: 0 <= i < |s| ==> IsSpace(s[i]) }

  /** Parts put together split again. */
  lemma PartsSplit(lead: seq<byte>, sign: seq<byte>, number: seq<byte>, tail: seq<byte>)
    requires AllSpaces(lead) && AllDigits(number, 10) && tail != [] && !IsDigit(tail[0], 10)
    requires sign == [] || sign == [43] || sign == [45]
    requires sign == [] && number == [] ==> !IsSpace(tail[0]) && tail[0] != 43 && tail[0] != 45
    ensures var text := lead + sign + number + tail;
      && Splits(text, 10, |lead|, |sign|, |number|) && DigitsAt(text, 10, |lead|, |sign|, |number|) == number
      && (text[|lead|] == MINUS <==> sign == [45])
  {
    var text := lead + sign + number + tail;
    assert forall i :: 0 <= i < |lead| ==> text[i] == lead[i];
    var first := if sign != [] then sign[0] else if number != [] then number[0] else tail[0];
    assert text[|lead|] == first;
    assert first in number ==> IsDigit(first, 10);
    assert text[|lead| + |sign| + |number|] == tail[0];
    assert text[|lead| + |sign|..|lead| + |sign| + |number|] == number;
  }

  lemma RepeatSpaces(n: nat)
    ensures AllSpaces(Repeat(32, n)) && |Repeat(32, n)| == n
  {
  }

  /** The text of an integer, and its NUL, as spaces, sign, digits, and the rest. */
  lemma TextShape(spec: Spec, digits: seq<byte>, prefix: seq<byte>)
      returns (lead: seq<byte>, sign: seq<byte>, zeros: nat, tail: seq<byte>)
    requires prefix == [] || prefix == [43] || prefix == [45] || prefix == [32]
    ensures IntegerText(spec, digits, prefix) + [0] == lead + sign + (Repeat(48, zeros) + digits) + tail
    ensures AllSpaces(lead) && sign == (if prefix == [32] then [] else prefix)
    ensures tail != [] && (tail == [0] || tail[0] == 32)
    ensures tail[0] == 32 ==> AllSpaces(tail[..|tail| - 1]) && tail[|tail| - 1] == 0
  {
    var left, n, trail := TextParts(spec, digits, prefix);
    zeros := n;
    RepeatSpaces(left);
    RepeatSpaces(trail);
    sign := if prefix == [32] then [] else prefix;
    lead := if prefix == [32] then Repeat(32, left) + prefix else Repeat(32, left);
    tail := Repeat(32, trail) + [0];
    assert trail > 0 ==> tail[0] == 32;
    hide *;
    ShapeJoin(Repeat(32, left), prefix, lead, sign, Repeat(48, zeros), digits, Repeat(32, trail));
    SpacesBefore(Repeat(32, left), prefix);
    assert tail[..|tail| - 1] == Repeat(32, trail);
  }

  lemma ShapeJoin(left: seq<byte>, prefix: seq<byte>, lead: seq<byte>, sign: seq<byte>, zero: seq<byte>,
                  digits: seq<byte>,
                  trail: seq<byte>)
    requires left + prefix == lead + sign
    ensures left + prefix + zero + digits + trail + [0] == lead + sign + (zero + digits) + (trail + [0])
  {
  }

  lemma SpacesBefore(left: seq<byte>, prefix: seq<byte>)
    requires AllSpaces(left)
    ensures prefix == [32] ==> AllSpaces(left + prefix)
  {
  }

  lemma MinusIs()
    ensures MINUS == 45 && ZERO == 48 && Decimal([]) == 0 && AllDigits([], 10)
    ensures !IsDigit(32, 10) && !IsDigit(0, 10) && !IsSpace(0)
  {
  }

  lemma SpacesJoin(a: seq<byte>, b: seq<byte>)
    requires AllSpaces(a) && AllSpaces(b)
    ensures AllSpaces(a + b)
  {
  }

  /** Where the digits are in a printed number. */
  lemma TextSplits(spec: Spec, value: nat, prefix: seq<byte>) returns (spaces: nat, sign: nat, count: nat)
    requires prefix == [] || prefix == [43] || prefix == [45] || prefix == [32]
    ensures var text := IntegerText(spec, DigitsOf(value), prefix) + [0];
      && Splits(text, 10, spaces, sign, count)
      && AllDigits(DigitsAt(text, 10, spaces, sign, count), 10)
      && Decimal(DigitsAt(text, 10, spaces, sign, count)) == value
      && (text[spaces] == MINUS <==> prefix == [45])
  {
    hide *;
    MinusIs();
    var digits := DigitsOf(value);
    var lead, signs, zeros, tail := TextShape(spec, digits, prefix);
    DecimalOfDigits(value);
    LeadingZerosDropped(zeros, digits);
    var number := Repeat(48, zeros) + digits;
    if signs == [] && number == [] && tail[0] == 32 {
      var before := tail[..|tail| - 1];
      SpacesJoin(lead, before);
      assert lead + [] + [] + tail == (lead + before) + [] + [] + [0];
      PartsSplit(lead + before, [], [], [0]);
      spaces, sign, count := |lead + before|, 0, 0;
    } else {
      PartsSplit(lead, signs, number, tail);
      spaces, sign, count := |lead|, |signs|, |number|;
    }
  }

  /** Whatever flags a number is printed with, `strtoul` reads it back, without an overflow. */
  lemma RoundTrip(spec: Spec, value: u64, prefix: seq<byte>, read: u64, end: nat, errno: Errno)
    requires prefix == [] || prefix == [43] || prefix == [45] || prefix == [32]
    requires Reads(IntegerText(spec, DigitsOf(value), prefix) + [0], 10, read, end, errno)
    ensures errno == NoError && read == if prefix == [45] then Sub64(0, value) else value
  {
    var text := IntegerText(spec, DigitsOf(value), prefix) + [0];
    var spaces, sign, count := TextSplits(spec, value, prefix);
    var p: nat, q: nat, r: nat :| ReadsAs(text, 10, read, end, errno, p, q, r);
    hide Splits, Accumulated, Shrinks, Value, IntegerText, Start, AllDigits;
    SplitUnique(text, 10, spaces, sign, count, p, q, r);
    DecimalFits(DigitsAt(text, 10, spaces, sign, count));
  }

  /** A signed number comes back from `strtol` as it was printed. */
  lemma SignedRoundTrip(spec: Spec, value: int, read: int, end: nat, errno: Errno)
    requires -0x8000_0000_0000_0000 <= value < 0x8000_0000_0000_0000
    requires var text := IntegerText(spec, DigitsOf(if value < 0 then -value else value), SignOf(spec, value)) + [0];
      ReadsLong(text, 10, read, end, errno)
    ensures errno == NoError && read == value
  {
    var magnitude, prefix := if value < 0 then -value else value, SignOf(spec, value);
    var text := IntegerText(spec, DigitsOf(magnitude), prefix) + [0];
    var spaces, sign, count := TextSplits(spec, magnitude, prefix);
    var p: nat, q: nat, r: nat :| ReadsLongAs(text, 10, read, end, errno, p, q, r);
    hide Splits, Accumulated, Shrinks, Value, IntegerText, Start, AllDigits;
    SplitUnique(text, 10, spaces, sign, count, p, q, r);
    DecimalFits(DigitsAt(text, 10, spaces, sign, count));
  }
}
