/** Printing integers through `vsnprintf`, and reading them back with `strtoul`. */
module Printing {
  import opened Words

  const SPACE: byte := 32
  const ZERO: byte := 48
  const PLUS: byte := 43
  const MINUS: byte := 45

  function Repeat(c: byte, n: nat): seq<byte> { seq(n, i => c) }

  function Min(a: nat, b: nat): nat { if a < b then a else b }

  // ----- the sink of vsnprintf

  /** `struct vsnprintf_ctx`: where the next byte goes, and how much room is left, the final NUL included. */
  class Sink {
    const buffer: array<byte>
    const size: nat
    var position: nat
    var rem: nat
    /** Everything that was handed over. */
    ghost var total: seq<byte>

    /** What fits has been stored. */
    ghost predicate Valid()
      reads this, buffer
    {
      && size <= buffer.Length && position + rem == size
      && (size > 0 ==> position == Min(size - 1, |total|))
      && buffer[..position] == total[..Min(position, |total|)]
    }

    constructor (buffer: array<byte>, size: nat)
      requires size <= buffer.Length
      ensures Valid() && total == [] && this.buffer == buffer && this.size == size
    {
      this.buffer, this.size := buffer, size;
      position, rem := 0, size;
      total := [];
    }

    /** `vsnprintf_write` (vsnprintf.c:12-21) */
    method Write(data: seq<byte>) returns (written: nat)
      requires Valid()
      modifies this, buffer
      ensures Valid() && total == old(total) + data && written == |data|
      ensures forall i :: size <= i < buffer.Length ==> buffer[i] == old(buffer[i])
    {
      if rem > 1 {
        var cur := if |data| < rem then |data| else rem - 1;
        Copy(data, cur);
        position := position + cur;
        rem := rem - cur;
      }
      total := total + data;
      written := |data|;
    }

    /** `memcpy` to the next place */
    method Copy(data: seq<byte>, count: nat)
      requires count <= |data| && position + count <= buffer.Length
      modifies buffer
      ensures buffer[..position + count] == old(buffer[..position]) + data[..count]
      ensures forall i :: position + count <= i < buffer.Length ==> buffer[i] == old(buffer[i])
    {
      var i := 0;
      while i < count
        invariant i <= count
        invariant forall j :: 0 <= j < buffer.Length ==>
                    buffer[j] == if position <= j < position + i then data[j - position] else old(buffer[j])
      {
        buffer[position + i] := data[i];
        i := i + 1;
      }
    }

    /** The end of `vsnprintf` (line 29): the buffer holds the NUL-terminated prefix of everything written. */
    method Finish()
      requires Valid()
      modifies buffer
      ensures size > 0 ==>
                var kept := Min(size - 1, |total|); buffer[..kept] == total[..kept] && buffer[kept] == 0
      ensures forall i :: size <= i < buffer.Length ==> buffer[i] == old(buffer[i])
    {
      if rem != 0 { buffer[position] := 0; }
    }
  }

  // ----- the text of an integer

  /** The flags and fields that matter for integers; an omitted precision is negative. */
  datatype Spec = Spec(leftJustified: bool, posSign: bool, signSpace: bool, padZero: bool, fieldWidth: nat,
                       precision: int)

  /** A specification as the format parser builds it: the `-` flag clears the `0` flag, and lengths fit an int. */
  predicate Parsed(spec: Spec)
  {
    !(spec.leftJustified && spec.padZero) && spec.fieldWidth <= 0x7fff_ffff && spec.precision <= 0x7fff_fff0
  }

  function DigitsOf(value: nat): (d: seq<byte>)
    ensures value == 0 <==> d == []
  {
    if value == 0 then [] else DigitsOf(value / 10) + [ZERO + value % 10]
  }

  lemma {:induction false} DigitCount(value: nat, k: nat)
    requires value < Pow10(k)
    ensures |DigitsOf(value)| <= k
  {
    if value > 0 { DigitCount(value / 10, k - 1); }
  }

  lemma WordDigits(value: u64)
    ensures |DigitsOf(value)| <= 20
  {
    assert Pow10(10) == 10_000_000_000;
    assert Pow10(20) == 100_000_000_000_000_000_000;
    DigitCount(value, 20);
  }

  function EffectivePrecision(spec: Spec): nat { if spec.precision >= 0 then spec.precision else 1 }

  function Max(a: nat, b: nat): nat { if a > b then a else b }

  /** The length without field padding, and the padding. */
  function FieldLength(spec: Spec, digits: nat, prefix: nat): nat { Max(EffectivePrecision(spec), digits) + prefix }

  function FieldPadding(spec: Spec, digits: nat, prefix: nat): nat
  {
    var length := FieldLength(spec, digits, prefix);
    if spec.fieldWidth > length then spec.fieldWidth - length else 0
  }

  predicate ZeroPadded(spec: Spec) { spec.padZero && spec.precision < 0 }

  /** The zeros in front of the digits. */
  function LeadingZeros(spec: Spec, digits: nat, prefix: nat): nat
  {
    var precision := EffectivePrecision(spec) + if ZeroPadded(spec) then FieldPadding(spec, digits, prefix) else 0;
    if precision > digits then precision - digits else 0
  }

  /** The text of an integer with these digits and this sign. */
  function IntegerText(spec: Spec, digits: seq<byte>, prefix: seq<byte>): seq<byte>
  {
    var padding := Repeat(SPACE, FieldPadding(spec, |digits|, |prefix|));
    (if ZeroPadded(spec) || spec.leftJustified then [] else padding)
    + prefix + Repeat(ZERO, LeadingZeros(spec, |digits|, |prefix|)) + digits
    + (if spec.leftJustified then padding else [])
  }

  /** The sign that goes in front of the digits. */
  function SignOf(spec: Spec, value: int): seq<byte>
  {
    if value < 0 then [MINUS] else if spec.posSign then [PLUS] else if spec.signSpace then [SPACE] else []
  }

  /** `print_padding` (do_printf.c:55-66) */
  method PrintPadding(sink: Sink, c: byte, count: nat)
    requires sink.Valid()
    modifies sink, sink.buffer
    ensures sink.Valid() && sink.total == old(sink.total) + Repeat(c, count)
  {
    var left: nat := count;
    while left != 0
      invariant left <= count && sink.Valid() && sink.total == old(sink.total) + Repeat(c, count - left)
    {
      var cur := if left < 256 then left else 256;
      var written := sink.Write(Repeat(c, cur));
      assert Repeat(c, count - left) + Repeat(c, cur) == Repeat(c, count - left + cur);
      left := left - cur;
    }
  }

  /** Padding that is not called for when there is none. */
  method PadSome(sink: Sink, c: byte, count: nat)
    requires sink.Valid()
    modifies sink, sink.buffer
    ensures sink.Valid() && sink.total == old(sink.total) + Repeat(c, count)
  {
    if count != 0 { PrintPadding(sink, c, count); }
  }

  method WriteSome(sink: Sink, data: seq<byte>)
    requires sink.Valid()
    modifies sink, sink.buffer
    ensures sink.Valid() && sink.total == old(sink.total) + data
  {
    if data != [] { var written := sink.Write(data); }
  }

  /** `print_integer` (do_printf.c:68-86) */
  method PrintInteger(sink: Sink, spec: Spec, data: seq<byte>, pre: seq<byte>) returns (count: nat)
    requires sink.Valid()
    modifies sink, sink.buffer
    ensures sink.Valid() && sink.total == old(sink.total) + IntegerText(spec, data, pre)
    ensures count == FieldLength(spec, |data|, |pre|) + FieldPadding(spec, |data|, |pre|)
  {
    var prec := if spec.precision >= 0 then spec.precision else 1;
    var ndigit := if prec > |data| then prec else |data|;
    var nfield := ndigit + |pre|;
    var fpad := if spec.fieldWidth > nfield then spec.fieldWidth - nfield else 0;
    count := nfield + fpad;
    ghost var lead, zeros, trail := TextParts(spec, data, pre);
    hide *;
    if spec.padZero && spec.precision < 0 {
      prec := prec + fpad;
    }
    PadSome(sink, 32, if (spec.padZero && spec.precision < 0) || spec.leftJustified then 0 else fpad);
    WriteSome(sink, pre);
    PadSome(sink, 48, if prec > |data| then prec - |data| else 0);
    WriteSome(sink, data);
    PadSome(sink, 32, if spec.leftJustified then fpad else 0);
    FiveParts(old(sink.total), Repeat(32, lead), pre, Repeat(48, zeros), data, Repeat(32, trail));
  }

  lemma FiveParts(t: seq<byte>, a: seq<byte>, b: seq<byte>, c: seq<byte>, d: seq<byte>, e: seq<byte>)
    ensures t + a + b + c + d + e == t + (a + b + c + d + e)
  {
  }

  /** The pieces of the text: how many leading spaces, zeros, and trailing spaces. */
  lemma TextParts(spec: Spec, data: seq<byte>, pre: seq<byte>) returns (lead: nat, zeros: nat, trail: nat)
    ensures IntegerText(spec, data, pre) == Repeat(32, lead) + pre + Repeat(48, zeros) + data + Repeat(32, trail)
    ensures var prec := if spec.precision >= 0 then spec.precision else 1;
      var nfield := (if prec > |data| then prec else |data|) + |pre|;
      var fpad := if spec.fieldWidth > nfield then spec.fieldWidth - nfield else 0;
      var prec' := if spec.padZero && spec.precision < 0 then prec + fpad else prec;
      && lead == (if (spec.padZero && spec.precision < 0) || spec.leftJustified then 0 else fpad)
      && zeros == (if prec' > |data| then prec' - |data| else 0)
      && trail == (if spec.leftJustified then fpad else 0)
      && nfield == FieldLength(spec, |data|, |pre|) && fpad == FieldPadding(spec, |data|, |pre|)
  {
    var fpad := FieldPadding(spec, |data|, |pre|);
    lead := if ZeroPadded(spec) || spec.leftJustified then 0 else fpad;
    zeros := LeadingZeros(spec, |data|, |pre|);
    trail := if spec.leftJustified then fpad else 0;
    assert Repeat(32, 0) == [];
  }

  /** `print_udec` (do_printf.c:88-98): the digits are made from the back of a 24-byte buffer. */
  method PrintUdec(sink: Sink, spec: Spec, value: u64, sign: seq<byte>) returns (count: nat)
    requires sink.Valid() && |sign| <= 1
    modifies sink, sink.buffer
    ensures sink.Valid() && sink.total == old(sink.total) + IntegerText(spec, DigitsOf(value), sign)
    ensures count == FieldLength(spec, |DigitsOf(value)|, |sign|) + FieldPadding(spec, |DigitsOf(value)|, |sign|)
  {
    var buffer := new byte[24](i => 0);
    var index := 24;
    var left: nat := value;
    WordDigits(value);
    while left != 0
      invariant sink.Valid() && sink.total == old(sink.total)
      invariant 0 <= index <= 24 && 0 <= left && |DigitsOf(left)| <= index
      invariant DigitsOf(left) + buffer[index..] == DigitsOf(value)
      decreases left
    {
      index := index - 1;
      buffer[index] := ZERO + left % 10;
      left := left / 10;
    }
    assert buffer[index..] == DigitsOf(value);
    count := PrintInteger(sink, spec, buffer[index..], sign);
  }

  /** Every digit has its place, and the first one is not a zero. */
  lemma {:induction false} DigitsAre(value: nat)
    ensures var d := DigitsOf(value);
      && value < Pow10(|d|) && (d != [] ==> Pow10(|d| - 1) <= value)
      && forall k :: 0 <= k < |d| ==> d[k] == 48 + value / Pow10(|d| - 1 - k) % 10
  {
    if value > 0 {
      var rest, d := DigitsOf(value / 10), DigitsOf(value);
      DigitsAre(value / 10);
      forall k | 0 <= k < |d|
        ensures d[k] == 48 + value / Pow10(|d| - 1 - k) % 10
      {
        if k < |rest| {
          DivDiv(value, 10, Pow10(|rest| - 1 - k));
          assert Pow10(|d| - 1 - k) == 10 * Pow10(|rest| - 1 - k);
        }
      }
    }
  }

  /**
    The text of a signed integer: spaces, a sign, zeros, the digits of the magnitude, and spaces.  There are at
    least as many digits as the precision says, one where it is omitted, and the field is filled with spaces on one
    side; or with zeros, and then exactly if the number has one digit.
   */
  lemma SignedText(spec: Spec, value: int)
      returns (left: nat, sign: seq<byte>, zeros: nat, digits: seq<byte>, right: nat)
    ensures IntegerText(spec, DigitsOf(if value < 0 then -value else value), SignOf(spec, value))
            == Repeat(32, left) + sign + Repeat(48, zeros) + digits + Repeat(32, right)
    ensures value < 0 ==> sign == [45]
    ensures value >= 0 && spec.posSign ==> sign == [43]
    ensures value >= 0 && !spec.posSign && spec.signSpace ==> sign == [32]
    ensures value >= 0 && !spec.posSign && !spec.signSpace ==> sign == []
    ensures var magnitude := if value < 0 then -value else value;
      && magnitude < Pow10(|digits|) && (digits != [] ==> Pow10(|digits| - 1) <= magnitude)
      && forall k :: 0 <= k < |digits| ==> digits[k] == 48 + magnitude / Pow10(|digits| - 1 - k) % 10
    ensures left > 0 ==> !spec.leftJustified
    ensures right > 0 ==> spec.leftJustified
    ensures var precision := if spec.precision < 0 then 1 else spec.precision;
      var length := |sign| + zeros + |digits|;
      && zeros + |digits| >= precision
      && (spec.precision >= 0 || !spec.padZero ==>
            && (zeros > 0 ==> zeros + |digits| == precision)
            && left + length + right >= spec.fieldWidth
            && (left + right > 0 ==> left + length + right == spec.fieldWidth))
      && (spec.precision < 0 && spec.padZero && !spec.leftJustified ==>
            var shown := if digits == [] then 1 else |digits|;
            && left == right == 0
            && length == if spec.fieldWidth >= |sign| + 2 * shown then spec.fieldWidth - shown + 1 else |sign| + shown)
  {
    digits, sign := DigitsOf(if value < 0 then -value else value), SignOf(spec, value);
    DigitsAre(if value < 0 then -value else value);
    hide DigitsOf, IntegerText, Pow10;
    left, zeros, right := TextParts(spec, digits, sign);
  }

  /** Which bytes that brings to the text. */
  lemma SignShows(left: nat, sign: seq<byte>, zeros: nat, digits: seq<byte>, right: nat, text: seq<byte>)
    requires text == Repeat(32, left) + sign + Repeat(48, zeros) + digits + Repeat(32, right) && |sign| <= 1
    requires forall k :: 0 <= k < |digits| ==> 48 <= digits[k] <= 57
    ensures forall c :: c == 43 || c == 45 ==> (c in text <==> c in sign)
    ensures left == 0 && (zeros > 0 || digits != [] || right == 0) ==>
              ((text != [] && text[0] == 32) <==> sign == [32])
    ensures right == 0 && (zeros > 0 || digits != []) ==> text != [] && 48 <= text[|text| - 1] <= 57
  {
    if sign != [] { assert text[left] == sign[0]; }
  }

  lemma AfterPrefix(t: seq<byte>, text: seq<byte>)
    ensures t <= t + text && (t + text)[|t|..] == text
  {
  }

  /** Negating a negative number, converted to an unsigned word, as an unsigned word. */
  lemma MagnitudeOf(m: int)
    requires 0 < m <= 0x8000_0000_0000_0000
    ensures Sub64(0, m) == 0x1_0000_0000_0000_0000 - m && Sub64(0, Sub64(0, m)) == m
  {
  }

  lemma IsShown(spec: Spec, value: int, text: seq<byte>)
    requires (43 in text <==> value >= 0 && spec.posSign) && (45 in text <==> value < 0)
    requires spec.fieldWidth == 0 || (spec.leftJustified && (value != 0 || spec.precision != 0)) ==>
               ((text != [] && text[0] == 32) <==> value >= 0 && !spec.posSign && spec.signSpace)
    requires !spec.leftJustified && (value != 0 || spec.precision != 0) ==> text != [] && 48 <= text[|text| - 1] <= 57
    ensures ShowsSign(spec, value, text)
  {
  }

  /** What a reader sees of the flags: which sign there is, and on which side of the number nothing stands. */
  ghost predicate ShowsSign(spec: Spec, value: int, text: seq<byte>)
  {
    && (43 in text <==> value >= 0 && spec.posSign)
    && (45 in text <==> value < 0)
    && (spec.fieldWidth == 0 || (spec.leftJustified && (value != 0 || spec.precision != 0)) ==>
          ((text != [] && text[0] == 32) <==> value >= 0 && !spec.posSign && spec.signSpace))
    && (!spec.leftJustified && (value != 0 || spec.precision != 0) ==> text != [] && 48 <= text[|text| - 1] <= 57)
  }

  lemma SignedTextShows(spec: Spec, value: int)
    ensures var magnitude := if value < 0 then -value else value;
      ShowsSign(spec, value, IntegerText(spec, DigitsOf(magnitude), SignOf(spec, value)))
  {
    var left, sign, zeros, digits, right := SignedText(spec, value);
    assert value != 0 ==> digits != [] by { assert Pow10(0) == 1; }
    hide *;
    var text := Repeat(32, left) + sign + Repeat(48, zeros) + digits + Repeat(32, right);
    SignShows(left, sign, zeros, digits, right, text);
    IsShown(spec, value, text);
  }

  /** `print_sdec` (do_printf.c:100-112) */
  method PrintSdec(sink: Sink, spec: Spec, value: int) returns (count: nat)
    requires sink.Valid() && -0x8000_0000_0000_0000 <= value < 0x8000_0000_0000_0000
    modifies sink, sink.buffer
    ensures sink.Valid()
    ensures var digits, sign := DigitsOf(if value < 0 then -value else value), SignOf(spec, value);
      && sink.total == old(sink.total) + IntegerText(spec, digits, sign)
      && count == FieldLength(spec, |digits|, |sign|) + FieldPadding(spec, |digits|, |sign|)
    ensures old(sink.total) <= sink.total && ShowsSign(spec, value, sink.total[|old(sink.total)|..])
  {
    SignedTextShows(spec, value);
    ghost var text := IntegerText(spec, DigitsOf(if value < 0 then -value else value), SignOf(spec, value));
    AfterPrefix(sink.total, text);
    assert SignOf(spec, value)
        == if value < 0 then [45] else if spec.posSign then [43] else if spec.signSpace then [32] else [];
    hide *;
    if value >= 0 {
      var sign: seq<byte> := if spec.posSign then [43] else if spec.signSpace then [32] else [];
      count := PrintUdec(sink, spec, value, sign);
    } else {
      MagnitudeOf(-value);
      count := PrintUdec(sink, spec, Sub64(0, Sub64(0, -value)), [45]);
    }
  }

  /**
    The value returned is the number of bytes written, unless the `0` flag meets two digits or more in a field
    that needs padding: that padding is counted from one digit.
   */
  lemma CountIsLength(spec: Spec, digits: seq<byte>, prefix: seq<byte>)
    requires Parsed(spec)
    ensures |IntegerText(spec, digits, prefix)|
            == FieldLength(spec, |digits|, |prefix|) + FieldPadding(spec, |digits|, |prefix|)
            <==> !(ZeroPadded(spec) && FieldPadding(spec, |digits|, |prefix|) > 0 && |digits| > 1)
    ensures var count := FieldLength(spec, |digits|, |prefix|) + FieldPadding(spec, |digits|, |prefix|);
      var precision := if spec.precision < 0 then 1 else spec.precision;
      && count >= spec.fieldWidth && count >= |prefix| + |digits| && count >= |prefix| + precision
      && (count == spec.fieldWidth || count == |prefix| + |digits| || count == |prefix| + precision)
  {
  }

  /** A miscount: 42 printed with `%05d` is four bytes long, and five are reported. */
  lemma CountMissed()
    ensures var spec := Spec(false, false, false, true, 5, -1);
      && Parsed(spec) && DigitsOf(42) == [52, 50]
      && IntegerText(spec, [52, 50], []) == [48, 48, 52, 50]
      && FieldLength(spec, 2, 0) + FieldPadding(spec, 2, 0) == 5
  {
    assert DigitsOf(4) == DigitsOf(0) + [52];
  }
}
