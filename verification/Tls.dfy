/**
  Static thread-local storage: the blocks of the objects loaded with the program, assigned downwards from the
  thread control block.
 */
module Tls {
  import opened Words

  ghost predicate PowerOfTwo(x: nat) { exists k: nat :: x == Pow2(k) }

  lemma {:induction false} AndSelf(x: nat)
    ensures And(x, x) == x
  {
    if x != 0 { AndSelf(x / 2); }
  }

  lemma PowerParity(x: nat)
    ensures PowerOfTwo(x) ==> x == 1 || x % 2 == 0
  {
    assert forall k: nat :: k > 0 ==> Pow2(k) == 2 * Pow2(k - 1);
  }

  /** `x & (x - 1)` is zero exactly for powers of two. */
  lemma {:induction false} PowerOfTwoTest(x: nat)
    requires x > 0
    ensures And(x, x - 1) == 0 <==> PowerOfTwo(x)
  {
    var y := x / 2;
    if x == 1 {
      assert x == Pow2(0);
    } else if x % 2 == 1 {
      AndStep(x, x - 1);
      AndSelf(y);
      PowerParity(x);
    } else {
      AndStep(x, x - 1);
      assert (x - 1) / 2 == y - 1;
      PowerOfTwoTest(y);
      if PowerOfTwo(x) {
        var k: nat :| x == Pow2(k);
        assert k > 0 && y == Pow2(k - 1);
      }
      if PowerOfTwo(y) {
        var k: nat :| y == Pow2(k);
        assert x == Pow2(k + 1);
      }
    }
  }

  /** A smaller power of two divides a larger one. */
  lemma PowersDivide(a: nat, b: nat)
    requires PowerOfTwo(a) && PowerOfTwo(b) && a <= b
    ensures a > 0 && b % a == 0
  {
    var j: nat :| a == Pow2(j);
    var k: nat :| b == Pow2(k);
    Pow2Order(k, j);
    Pow2Add(k - j, j);
    DivMulCancel(Pow2(k - j), a);
  }

  /** `(x + (align - 1)) & ~(align - 1)` in 64-bit arithmetic */
  function RoundUp(x: u64, align: u64): nat
  {
    And(Add64(x, Sub64(align, 1)), Not64(Sub64(align, 1)))
  }

  /** The next multiple of a power of two; 0 when that does not fit, and when the alignment is 0. */
  lemma RoundUpValue(x: u64, align: u64)
    ensures align == 0 ==> RoundUp(x, align) == 0
    ensures PowerOfTwo(align) && x + align - 1 < 0x1_0000_0000_0000_0000 ==>
              x <= RoundUp(x, align) < x + align && RoundUp(x, align) % align == 0
    ensures PowerOfTwo(align) && x + align - 1 >= 0x1_0000_0000_0000_0000 ==> RoundUp(x, align) == 0
  {
    hide *;
    RoundUpIs(x, align);
    OneIsPower();
    if align > 0 && PowerOfTwo(align) {
      var y := x + align - 1;
      if y < 0x1_0000_0000_0000_0000 {
        PowerMask(y, align);
        DivModSpec(y, align);
        DivMulCancel(y / align, align);
      } else {
        PowerMask(y - 0x1_0000_0000_0000_0000, align);
        DivModUnique(y - 0x1_0000_0000_0000_0000, align, 0, y - 0x1_0000_0000_0000_0000);
      }
    }
  }

  lemma RoundUpIs(x: u64, align: u64)
    ensures align == 0 ==> RoundUp(x, align) == 0
    ensures align > 0 && x + align - 1 < 0x1_0000_0000_0000_0000 ==>
              RoundUp(x, align) == And(x + align - 1, Not64(align - 1))
    ensures align > 0 && x + align - 1 >= 0x1_0000_0000_0000_0000 ==>
              RoundUp(x, align) == And(x + align - 1 - 0x1_0000_0000_0000_0000, Not64(align - 1))
  {
    hide And;
    if align == 0 { AndZero(Add64(x, Sub64(align, 1))); }
  }

  lemma PowerMask(y: u64, align: u64)
    requires PowerOfTwo(align)
    ensures align > 0 && And(y, Not64(align - 1)) == y - y % align
  {
    var k: nat :| align == Pow2(k);
    TwoTo64();
    Pow2Order(64, k);
    AndField(y, k, 64);
    LowSmall(y, 64);
  }

  // ----- the layout

  predicate Multiple(x: int, a: int) { a > 0 && x % a == 0 }

  /** A block: how far below the thread control block it starts, its size, and the alignment asked for. */
  datatype Block = Block(distance: nat, size: nat, align: nat)

  /** Blocks of their own, each above the next, each aligned if the control block is, down to total. */
  ghost predicate Laid(blocks: seq<Block>, total: nat)
  {
    && (forall i :: 0 <= i < |blocks| ==>
          && 0 < blocks[i].size <= blocks[i].distance <= total
          && PowerOfTwo(blocks[i].align) && Multiple(blocks[i].distance, blocks[i].align))
    && (forall i, j :: 0 <= i < j < |blocks| ==> blocks[i].distance <= blocks[j].distance - blocks[j].size)
  }

  /** The alignment of the area: that of the strictest block, and at least the control block's 8 (its size is 24). */
  function TcbAlign(rootTlsAlign: u64): u64 { if rootTlsAlign < 8 then 8 else rootTlsAlign }

  function AreaSize(rootTlsSize: u64, rootTlsAlign: u64): nat
  {
    var align := TcbAlign(rootTlsAlign);
    RoundUpFits(rootTlsSize, align);
    RoundUp((RoundUp(rootTlsSize, align) + 24) % 0x1_0000_0000_0000_0000, align)
  }

  lemma RoundUpFits(x: u64, align: u64)
    ensures RoundUp(x, align) < 0x1_0000_0000_0000_0000
  {
    AndAtMost(Add64(x, Sub64(align, 1)), Not64(Sub64(align, 1)));
  }

  lemma TcbAlignPower(rootTlsAlign: u64)
    requires rootTlsAlign == 0 || PowerOfTwo(rootTlsAlign)
    ensures PowerOfTwo(TcbAlign(rootTlsAlign))
  {
    assert 8 == Pow2(3);
  }

  /** A block below an aligned control block is aligned, and inside the area. */
  lemma BelowTcb(area: nat, tcbOffset: nat, align: nat, b: Block)
    requires PowerOfTwo(align) && PowerOfTwo(b.align) && b.align <= align && b.distance <= tcbOffset
    requires Multiple(area, align) && Multiple(tcbOffset, align) && Multiple(b.distance, b.align)
    ensures Multiple(area + tcbOffset - b.distance, b.align)
  {
    PowersDivide(b.align, align);
    hide PowerOfTwo;
    DividesThrough(area, align, b.align);
    DividesThrough(tcbOffset, align, b.align);
    DividesSum(area, tcbOffset, b.distance, b.align);
  }

  lemma DividesThrough(x: nat, b: nat, a: nat)
    requires a > 0 && b > 0 && x % b == 0 && b % a == 0
    ensures x % a == 0
  {
    var i, m := x / b, b / a;
    DivModSpec(x, b);
    DivModSpec(b, a);
    assert x == i * (m * a) == i * m * a;
    DivMulCancel(i * m, a);
  }

  lemma DividesSum(x: int, y: int, z: int, a: int)
    requires a > 0 && x % a == 0 && y % a == 0 && z % a == 0
    ensures (x + y - z) % a == 0
  {
    var i, j, k := x / a, y / a, z / a;
    DivModSpec(x, a);
    DivModSpec(y, a);
    DivModSpec(z, a);
    var n := i + j - k;
    assert n * a == i * a + j * a - k * a;
    DivModUnique(x + y - z, a, n, 0);
  }

  lemma OneIsPower()
    ensures PowerOfTwo(1) && !PowerOfTwo(0)
  {
    assert Pow2(0) == 1;
  }

  /** Adding the offset, which is negative modulo 2^64, subtracts the distance. */
  lemma OffsetBelow(tcb: u64, distance: u64)
    requires distance <= tcb
    ensures Add64(tcb, Sub64(0, distance)) == tcb - distance
  {
  }

  /** The total after one more block, as the source computes it. */
  function NextTotal(root: u64, size: u64, align: u64): u64
  {
    RoundUpFits(Add64(root, size), align);
    RoundUp(Add64(root, size), align)
  }

  /** The total covers the new block, below the old ones, exactly if it has an alignment and nothing wraps around. */
  lemma NextTotalValue(root: u64, size: u64, align: u64)
    requires size > 0 && (align == 0 || PowerOfTwo(align))
    ensures var total := NextTotal(root, size, align);
      && (root + size <= total <==> align != 0 && root + size + align - 1 < 0x1_0000_0000_0000_0000)
      && (root + size <= total ==> total < root + size + align && Multiple(total, align))
      && (align == 0 ==> total == 0)
      && (align != 0 && root + size + align - 1 >= 0x1_0000_0000_0000_0000 ==>
            var end := root + size - 0x1_0000_0000_0000_0000;
            if end < 0 || end + align - 1 >= 0x1_0000_0000_0000_0000 then total == 0
            else end <= total < end + align && Multiple(total, align))
  {
    OneIsPower();
    var end := Add64(root, size);
    RoundUpValue(end, align);
    hide RoundUp, PowerOfTwo;
  }

  /** Alignment 0 makes the next block take the place of an earlier one: 8 bytes, 16 without alignment, 8 bytes. */
  lemma ZeroAlignmentOverlaps()
    ensures PowerOfTwo(8)
    ensures NextTotal(0, 8, 8) == 8 && NextTotal(8, 16, 0) == 0 && NextTotal(NextTotal(8, 16, 0), 8, 8) == 8
    ensures forall tcb: u64 {:trigger Add64(tcb, 0)} :: tcb >= 8 ==>
              Add64(tcb, Sub64(0, NextTotal(0, 8, 8))) == tcb - 8 && Add64(tcb, Sub64(0, NextTotal(8, 16, 0))) == tcb
  {
    assert Pow2(3) == 8;
    NextTotalValue(0, 8, 8);
    NextTotalValue(8, 16, 0);
    hide NextTotal, PowerOfTwo;
    forall tcb: u64 | tcb >= 8
      ensures Add64(tcb, Sub64(0, 8)) == tcb - 8 && Add64(tcb, Sub64(0, 0)) == tcb
    {
      OffsetBelow(tcb, 8);
      OffsetBelow(tcb, 0);
    }
  }

  class StaticTls {
    var rootTlsSize: u64
    var rootTlsAlign: u64
    ghost var blocks: seq<Block>

    ghost predicate Valid()
      reads this
    {
      && Laid(blocks, rootTlsSize)
      && (rootTlsAlign == 0 || PowerOfTwo(rootTlsAlign))
      && forall i :: 0 <= i < |blocks| ==> blocks[i].align <= rootTlsAlign
    }

    constructor ()
      ensures Valid() && blocks == [] && rootTlsSize == 0 && rootTlsAlign == 0
    {
      rootTlsSize, rootTlsAlign := 0, 0;
      blocks := [];
    }

    /** The assignment for one object with a TLS segment (object.c:667-683). */
    method Assign(tlsSize: u64, tlsAlign: u64) returns (ok: bool, tlsOffset: u64)
      requires tlsSize > 0
      modifies this
      ensures ok <==> tlsAlign == 0 || PowerOfTwo(tlsAlign)
      ensures !ok ==> blocks == old(blocks) && rootTlsSize == old(rootTlsSize) && rootTlsAlign == old(rootTlsAlign)
      ensures ok ==> rootTlsSize == NextTotal(old(rootTlsSize), tlsSize, tlsAlign) && tlsOffset == Sub64(0, rootTlsSize)
      ensures ok ==> rootTlsAlign == if old(rootTlsAlign) < tlsAlign then tlsAlign else old(rootTlsAlign)
      ensures ok ==> blocks == old(blocks) + [Block(rootTlsSize, tlsSize, tlsAlign)]
      ensures ok ==> (old(rootTlsSize) + tlsSize <= rootTlsSize
                      <==> tlsAlign != 0 && old(rootTlsSize) + tlsSize + tlsAlign - 1 < 0x1_0000_0000_0000_0000)
      ensures ok && old(rootTlsSize) + tlsSize <= rootTlsSize && old(Valid()) ==> Valid()
      ensures ok ==> forall tcb: u64 {:trigger Add64(tcb, tlsOffset)} ::
                old(rootTlsSize) + tlsSize + tlsAlign <= tcb ==>
                  (Add64(tcb, tlsOffset) + tlsSize <= tcb <==> tlsAlign != 0)
    {
      hide *;
      var align := tlsAlign;
      if align == 0 { align := 1; }
      PowerOfTwoTest(align);
      OneIsPower();
      if And(align, align - 1) != 0 { return false, 0; }
      NextTotalValue(rootTlsSize, tlsSize, tlsAlign);
      ExtendLayout(tlsSize, tlsAlign);
      if tlsAlign > rootTlsAlign { rootTlsAlign := tlsAlign; }
      rootTlsSize := NextTotal(rootTlsSize, tlsSize, tlsAlign);
      tlsOffset := Sub64(0, rootTlsSize);
      blocks := blocks + [Block(rootTlsSize, tlsSize, tlsAlign)];
      ok := true;
      if old(Valid()) && old(rootTlsSize) + tlsSize <= rootTlsSize { IsValid(); }
      forall tcb: u64 | rootTlsSize <= tcb
        ensures Add64(tcb, tlsOffset) == tcb - rootTlsSize
      {
        OffsetBelow(tcb, rootTlsSize);
      }
    }

    lemma IsValid()
      requires Laid(blocks, rootTlsSize) && (rootTlsAlign == 0 || PowerOfTwo(rootTlsAlign))
      requires forall i :: 0 <= i < |blocks| ==> blocks[i].align <= rootTlsAlign
      ensures Valid()
    {
    }

    /** One more block in the layout. */
    lemma ExtendLayout(tlsSize: u64, tlsAlign: u64)
      requires tlsSize > 0 && (tlsAlign == 0 || PowerOfTwo(tlsAlign))
      ensures var total := NextTotal(rootTlsSize, tlsSize, tlsAlign);
        Valid() && rootTlsSize + tlsSize <= total ==>
          && Laid(blocks + [Block(total, tlsSize, tlsAlign)], total)
          && (rootTlsAlign == 0 || PowerOfTwo(rootTlsAlign))
          && forall i :: 0 <= i < |blocks| ==> blocks[i].align <= rootTlsAlign
    {
      NextTotalValue(rootTlsSize, tlsSize, tlsAlign);
      OneIsPower();
      hide NextTotal, PowerOfTwo, Multiple;
    }

    lemma ValidMeans()
      requires Valid()
      ensures (rootTlsAlign == 0 || PowerOfTwo(rootTlsAlign)) && Laid(blocks, rootTlsSize)
      ensures forall i :: 0 <= i < |blocks| ==>
                && PowerOfTwo(blocks[i].align) && 0 < blocks[i].align <= rootTlsAlign
                && blocks[i].distance <= rootTlsSize && Multiple(blocks[i].distance, blocks[i].align)
    {
      LaidBelow(blocks, rootTlsSize, rootTlsAlign);
    }

    /** `allocate_tcb` (object.c:1003-1014), given what `aligned_alloc` returns: null or an area as it was asked for. */
    method AllocateTcb(area: u64) returns (tcb: u64, areaSize: u64)
      requires Valid()
      requires area != 0 ==>
                 && Multiple(area, TcbAlign(rootTlsAlign))
                 && area + AreaSize(rootTlsSize, rootTlsAlign) < 0x1_0000_0000_0000_0000
      modifies this`rootTlsAlign
      ensures areaSize == AreaSize(rootTlsSize, old(rootTlsAlign))
      ensures rootTlsSize + 24 <= areaSize <==> AreaFits(rootTlsSize, old(rootTlsAlign))
      ensures rootTlsAlign == if old(rootTlsAlign) < 8 then 8 else old(rootTlsAlign)
      ensures tcb == if area == 0 then 0 else Add64(area, RoundUp(rootTlsSize, rootTlsAlign))
      // the control block takes the first aligned place above the blocks, and the area ends with it
      ensures AreaFits(rootTlsSize, old(rootTlsAlign)) ==>
                var offset := RoundUp(rootTlsSize, rootTlsAlign);
                offset + 24 <= areaSize < offset + 24 + rootTlsAlign && Multiple(areaSize, rootTlsAlign)
      ensures area != 0 && AreaFits(rootTlsSize, old(rootTlsAlign)) ==>
                tcb < area + rootTlsSize + rootTlsAlign && Multiple(tcb - area, rootTlsAlign)
      ensures area != 0 && AreaFits(rootTlsSize, old(rootTlsAlign)) ==>
                && area <= tcb && tcb + 24 <= area + areaSize
                && (forall i :: 0 <= i < |blocks| ==>
                      && area <= tcb - blocks[i].distance && tcb - blocks[i].distance + blocks[i].size <= tcb
                      && Multiple(tcb - blocks[i].distance, blocks[i].align))
                && (forall i, j :: 0 <= i < j < |blocks| ==>
                      tcb - blocks[j].distance + blocks[j].size <= tcb - blocks[i].distance)
    {
      hide *;
      ValidMeans();
      AreaHolds(rootTlsSize, rootTlsAlign);
      ghost var align := TcbAlign(rootTlsAlign);
      TcbAlignIs(rootTlsAlign);
      if rootTlsAlign < 8 { rootTlsAlign := 8; }
      RoundUpFits(rootTlsSize, rootTlsAlign);
      var tcbOffset := RoundUp(rootTlsSize, rootTlsAlign);
      RoundUpFits(Add64(tcbOffset, 24), rootTlsAlign);
      areaSize := RoundUp(Add64(tcbOffset, 24), rootTlsAlign);
      AreaSizeIs(rootTlsSize, old(rootTlsAlign));
      if AreaFits(rootTlsSize, old(rootTlsAlign)) { AreaBounds(rootTlsSize, old(rootTlsAlign)); }
      if area == 0 { return 0, areaSize; }
      tcb := Add64(area, tcbOffset);
      if AreaFits(rootTlsSize, old(rootTlsAlign)) {
        SumWraps(area, tcbOffset);
        forall i | 0 <= i < |blocks|
          ensures area <= tcb - blocks[i].distance && Multiple(tcb - blocks[i].distance, blocks[i].align)
        {
          BelowTcb(area, tcbOffset, align, blocks[i]);
        }
        BlocksApart(blocks, rootTlsSize, tcb);
      }
    }
  }

  lemma TcbAlignIs(rootAlign: u64)
    ensures TcbAlign(rootAlign) == if rootAlign < 8 then 8 else rootAlign
  {
  }

  lemma SumWraps(a: u64, b: u64)
    ensures Add64(a, b) == if a + b < 0x1_0000_0000_0000_0000 then a + b else a + b - 0x1_0000_0000_0000_0000
  {
  }

  /** Nothing wraps around in the computation of the area. */
  predicate AreaFits(size: u64, rootAlign: u64)
  {
    var align := TcbAlign(rootAlign);
    size + align - 1 < 0x1_0000_0000_0000_0000 && RoundUp(size, align) + 24 + align - 1 < 0x1_0000_0000_0000_0000
  }

  lemma AreaSizeIs(size: u64, rootAlign: u64)
    ensures var align := TcbAlign(rootAlign); var o := RoundUp(size, align);
      o < 0x1_0000_0000_0000_0000 && AreaSize(size, rootAlign) == RoundUp(Add64(o, 24), align)
  {
    RoundUpFits(size, TcbAlign(rootAlign));
    hide RoundUp;
  }

  /** Room for the blocks, and then for the control block. */
  lemma AreaBounds(size: u64, rootAlign: u64)
    requires (rootAlign == 0 || PowerOfTwo(rootAlign)) && AreaFits(size, rootAlign)
    ensures var align := TcbAlign(rootAlign); var o := RoundUp(size, align);
      && PowerOfTwo(align) && size <= o < size + align && Multiple(o, align)
      && o + 24 <= AreaSize(size, rootAlign) < o + 24 + align && Multiple(AreaSize(size, rootAlign), align)
      && AreaSize(size, rootAlign) < 0x1_0000_0000_0000_0000
  {
    hide *;
    var align := TcbAlign(rootAlign);
    AreaFitsIs(size, rootAlign);
    TcbAlignPower(rootAlign);
    OneIsPower();
    AreaSizeIs(size, rootAlign);
    RoundUpValue(size, align);
    var o := RoundUp(size, align);
    SumWraps(o, 24);
    RoundUpFits(Add64(o, 24), align);
    RoundUpValue(Add64(o, 24), align);
    IsMultiple(o, align);
    IsMultiple(AreaSize(size, rootAlign), align);
  }

  lemma IsMultiple(x: int, a: int)
    ensures Multiple(x, a) <==> a > 0 && x % a == 0
  {
  }

  lemma AreaFitsIs(size: u64, rootAlign: u64)
    ensures AreaFits(size, rootAlign) <==>
              && size + TcbAlign(rootAlign) - 1 < 0x1_0000_0000_0000_0000
              && RoundUp(size, TcbAlign(rootAlign)) + 24 + TcbAlign(rootAlign) - 1 < 0x1_0000_0000_0000_0000
  {
  }

  /** The area has room for the blocks and the control block exactly when nothing wraps around. */
  lemma AreaHolds(size: u64, rootAlign: u64)
    requires rootAlign == 0 || PowerOfTwo(rootAlign)
    ensures AreaFits(size, rootAlign) <==> size + 24 <= AreaSize(size, rootAlign)
  {
    hide *;
    if AreaFits(size, rootAlign) {
      AreaBounds(size, rootAlign);
    } else {
      var align := TcbAlign(rootAlign);
      AreaFitsIs(size, rootAlign);
      TcbAlignPower(rootAlign);
      TcbAlignIs(rootAlign);
      OneIsPower();
      PowerBound(align);
      AreaSizeIs(size, rootAlign);
      RoundUpValue(size, align);
      var o := RoundUp(size, align);
      SumWraps(o, 24);
      RoundUpValue(Add64(o, 24), align);
    }
  }

  lemma PowerBound(align: u64)
    requires PowerOfTwo(align)
    ensures align <= 0x8000_0000_0000_0000
  {
    var k: nat :| align == Pow2(k);
    TwoTo64();
    Pow2Order(64, k);
    Pow2Order(k, 63);
  }

  /** A total that wraps around, and an area of 32 bytes for it. */
  lemma WrappedArea()
    ensures PowerOfTwo(16) && AreaSize(0xffff_ffff_ffff_fff8, 16) == 32
  {
    assert Pow2(4) == 16;
    AreaSizeIs(0xffff_ffff_ffff_fff8, 16);
    RoundUpValue(0xffff_ffff_ffff_fff8, 16);
    RoundUpValue(24, 16);
    hide RoundUp, PowerOfTwo, AreaSize;
  }

  lemma LaidBelow(blocks: seq<Block>, total: nat, align: nat)
    requires Laid(blocks, total) && forall i :: 0 <= i < |blocks| ==> blocks[i].align <= align
    ensures forall i :: 0 <= i < |blocks| ==>
              && PowerOfTwo(blocks[i].align) && 0 < blocks[i].align <= align
              && blocks[i].distance <= total && Multiple(blocks[i].distance, blocks[i].align)
  {
    OneIsPower();
  }

  // ----- what the layout is for

  /** Below a control block, the blocks of a layout do not overlap. */
  lemma BlocksApart(blocks: seq<Block>, total: nat, tcb: int)
    requires Laid(blocks, total)
    ensures forall i :: 0 <= i < |blocks| ==> tcb - blocks[i].distance + blocks[i].size <= tcb
    ensures forall i, j :: 0 <= i < j < |blocks| ==>
              tcb - blocks[j].distance + blocks[j].size <= tcb - blocks[i].distance
  {
  }
}
