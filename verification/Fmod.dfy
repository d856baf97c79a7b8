/** `fmod`: the exact remainder of the magnitudes, by long division on significands. */
module Fmod {
  import opened Words
  import opened Ieee
  import opened LongDivision

  /** The remainder r is sign(x) * (|x| mod |y|), exactly. */
  ghost predicate ExactRemainder(x: u64, y: u64, r: Outcome)
    requires Finite(x) && Finite(y) && Mag(y) > 0
  {
    r.Number? && Finite(r.bits) && Negative(r.bits) == Negative(x) && Mag(r.bits) == Mag(x) % Mag(y)
  }

  lemma SignedZero(neg: bool)
    ensures Finite(WithSign(neg, 0)) && Negative(WithSign(neg, 0)) == neg && Mag(WithSign(neg, 0)) == 0
  {
    Fields(WithSign(neg, 0), neg, 0, 0);
  }

  /** The subtract-and-shift loop; `zero` reports the early return of a zero remainder. */
  method Reduce(u0: u64, v: u64, ex: int, ey: int) returns (zero: bool, u: u64)
    requires HIDDEN <= u0 < 2 * HIDDEN && HIDDEN <= v < 2 * HIDDEN && ex >= ey
    ensures zero ==> Residue(u0, ex - ey, v) == 0
    ensures !zero ==> 0 < u < v && u == Residue(u0, ex - ey, v)
  {
    zero, u := false, u0;
    var e := ex;
    ghost var t := Residue(u0, ex - ey, v);
    hide Residue, Sub64, Shr, Shl64;
    while e > ey
      invariant ey <= e <= ex && 0 < u < 2 * v && Residue(u, e - ey, v) == t
      decreases e - ey
    {
      SubBorrow(u, v);
      var i := Sub64(u, v);
      if Shr(i, 63) == 0 {
        ResidueSubtract(u, e - ey, v);
        if i == 0 {
          zero := true;
          return;
        }
        u := i;
      }
      ShlOne(u);
      ResidueShift(u, e - ey, v);
      u := Shl64(u, 1);
      e := e - 1;
    }
    SubBorrow(u, v);
    var i := Sub64(u, v);
    if Shr(i, 63) == 0 {
      ResidueSubtract(u, 0, v);
      if i == 0 {
        zero := true;
        return;
      }
      u := i;
    }
    ResidueDone(u, v);
  }

  /** `fmod`.  The NaN cases are the value of `(x*y)/(x*y)` there; `0*x` is a zero with the sign of x. */
  method Fmod(x: u64, y: u64) returns (r: Outcome)
    ensures IsNaN(y) || Abs(y) == 0 || !Finite(x) ==> r == NotANumber
    ensures Finite(x) && y % SIGN_BIT == INFINITY ==> r == Number(x)
    ensures Finite(x) && Finite(y) && Abs(y) != 0 ==> Mag(y) > 0 && ExactRemainder(x, y, r)
  {
    FieldsOf(x);
    FieldsOf(y);
    ShlOne(x);
    ShlOne(y);
    if Shl64(y, 1) == 0 || IsNaN(y) || ExpField(x) == 0x7ff { return NotANumber; }
    if Finite(y) { PositiveMag(y); }
    SignedZero(Negative(x));
    if Shl64(x, 1) <= Shl64(y, 1) {
      if Finite(y) { SmallerOperand(x, y); }
      if Shl64(x, 1) == Shl64(y, 1) { return Number(WithSign(Negative(x), 0)); }
      return Number(x);
    }
    r := LongRemainder(x, y);
  }

  /** The division proper, for |x| > |y| > 0. */
  method LongRemainder(x: u64, y: u64) returns (r: Outcome)
    requires Finite(x) && Finite(y) && 0 < Abs(y) < Abs(x) && Mag(y) > 0
    ensures ExactRemainder(x, y, r)
  {
    MagOrder(x, y);
    SignedZero(Negative(x));
    hide *;
    var u, ex := Normalize(x);
    var v, ey := Normalize(y);
    if ex < ey { ExponentOrder(x, y, u, ex, v, ey); }
    AlignedDivision(x, y, u, ex, v, ey);
    NormalBounds(x, u, ex);
    NormalBounds(y, v, ey);
    var zero, rem := Reduce(u, v, ex, ey);
    if zero {
      r := Number(WithSign(Negative(x), 0));
      ZeroRemainder(x, y, ey, r);
    } else {
      r := PackSigned(x, y, rem, ey);
    }
  }

  lemma ZeroRemainder(x: u64, y: u64, ey: int, r: Outcome)
    requires Finite(x) && Finite(y) && IsRemainder(x, y, 0, ey) && r == Number(WithSign(Negative(x), 0))
    ensures ExactRemainder(x, y, r)
  {
    SignedZero(Negative(x));
    MulCancel(Mag(x) % Mag(y), 0, Pow2(60));
  }

  lemma SmallerOperand(x: u64, y: u64)
    requires Finite(x) && Finite(y) && Mag(y) > 0 && Abs(x) <= Abs(y)
    ensures Abs(x) < Abs(y) ==> Mag(x) % Mag(y) == Mag(x)
    ensures Abs(x) == Abs(y) ==> Mag(x) % Mag(y) == 0
  {
    MagOrder(x, y);
    if Abs(x) < Abs(y) {
      DivModUnique(Mag(x), Mag(y), 0, Mag(x));
    } else {
      DivModUnique(Mag(x), Mag(y), 1, 0);
    }
  }

  /** The last lines: normalise, pack, put the sign back. */
  method PackSigned(x: u64, y: u64, rem: u64, ey: int) returns (r: Outcome)
    requires Finite(x) && Finite(y) && IsRemainder(x, y, rem, ey) && 0 < rem < 2 * HIDDEN && ey < 2047
    ensures ExactRemainder(x, y, r)
  {
    UnpackedRemainder(x, y, rem, ey);
    ghost var m := Mag(x) % Mag(y);
    hide Pow2, Mag, Or, Shl64, Unpacked, Normal, IsRemainder;
    var u, e := Renormalize(rem, ey, m);
    var b := Pack(u, e, m);
    SignedFields(Negative(x), b);
    SignedMag(Negative(x), b);
    r := Number(WithSign(Negative(x), b));
  }
}
