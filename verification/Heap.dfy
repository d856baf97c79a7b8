/**
  The size-class allocator.  A free block's first word is its link, a live block's first word is its size,
  so the free lists and the size headers share memory; everything else in a live block belongs to the caller.
 */
module Heap {
  import opened Words

  const META_OFFSET: int := 16
  const ZERO_PTR: u64 := 16
  const MIN_ALLOC_SIZE: int := 8
  const MAX_BUCKET: nat := 12

  /** The mapped 8-byte words by address. */
  type Memory = map<u64, u64>

  /** `ALLOC_BUCKET`: 64 minus the number of leading zeros of size - 1 */
  function Bucket(size: u64): nat
    requires size >= 2
  {
    BitLen(size - 1)
  }

  /** `HUGE_ALIGN` */
  function HugeAlign(size: u64): u64
  {
    AndAtMost(Add64(size, 4095), Not64(4095));
    And(Add64(size, 4095), Not64(4095))
  }

  /** Rounding up to whole pages, and 0 when that does not fit in 64 bits. */
  lemma HugeAlignValue(size: u64)
    ensures HugeAlign(size) % 4096 == 0
    ensures size < 0xffff_ffff_ffff_f001 ==> size <= HugeAlign(size) < size + 4096
    ensures size >= 0xffff_ffff_ffff_f001 ==> HugeAlign(size) == 0
  {
    var x, r := Add64(size, 4095), HugeAlign(size);
    assert r == And(x, Not64(4095));
    hide *;
    AddPage(size);
    PageMask(x);
    RoundDown(x);
    RoundedUp(size, x, r);
  }

  lemma AddPage(size: u64)
    ensures Add64(size, 4095) == if size < 0xffff_ffff_ffff_f001 then size + 4095 else size - 0xffff_ffff_ffff_f001
  {
  }

  lemma RoundedUp(size: nat, x: nat, r: nat)
    requires x == if size < 0xffff_ffff_ffff_f001 then size + 4095 else size - 0xffff_ffff_ffff_f001
    requires size < 0x1_0000_0000_0000_0000 && x - 4096 < r <= x && (x < 4096 ==> r == 0)
    ensures size < 0xffff_ffff_ffff_f001 ==> size <= r < size + 4096
    ensures size >= 0xffff_ffff_ffff_f001 ==> r == 0
  {
  }

  lemma PageMask(x: u64)
    ensures And(x, Not64(4095)) == x - x % 4096
  {
    TwoTo12();
    TwoTo64();
    assert Not64(4095) == Pow2(64) - Pow2(12);
    hide And;
    AndField(x, 12, 64);
    LowSmall(x, 64);
  }

  lemma RoundDown(x: nat)
    ensures (x - x % 4096) % 4096 == 0 && x - 4096 < x - x % 4096 <= x
    ensures x < 4096 ==> x - x % 4096 == 0
  {
    DivModSpec(x, 4096);
    DivMulCancel(x / 4096, 4096);
  }

  lemma BucketFits(size: u64)
    requires 2 <= size <= 4096
    ensures Pow2(Bucket(size) - 1) < size <= Pow2(Bucket(size)) && 1 <= Bucket(size) <= 12
    ensures size >= 8 ==> Bucket(size) >= 3
    ensures size >= 17 ==> Bucket(size) >= 5
  {
    BitLenBounds(size - 1);
    TwoTo12();
    var b := Bucket(size);
    assert Pow2(2) == 4 && Pow2(4) == 16;
    Pow2Order(12, b - 1);
    Pow2Order(b, 2);
    Pow2Order(b, 4);
  }

  // ----- the shape of the heap

  /**
    The free blocks of each bucket in list order, the bucket of each live block, the bucket each page is cut
    for, and the length of each large block.
   */
  datatype Shape = Shape(lists: seq<seq<u64>>, live: map<u64, nat>, pages: map<u64, nat>, huge: map<u64, nat>)

  function PageOf(x: u64): u64 { x - x % 4096 }

  predicate Aligned(x: nat, b: nat) { x % Pow2(b) == 0 }

  /** x is the start of a block of a page that is cut for bucket b. */
  predicate Slot(pages: map<u64, nat>, b: nat, x: u64)
  {
    PageOf(x) in pages && pages[PageOf(x)] == b && Aligned(x, b)
  }

  /** Following the links from head visits exactly the blocks of s. */
  predicate Chain(mem: Memory, head: u64, s: seq<u64>)
    decreases |s|
  {
    if s == [] then head == 0
    else head == s[0] && head != 0 && head in mem && Chain(mem, mem[head], s[1..])
  }

  ghost predicate Distinct(s: seq<u64>) { forall i, j :: 0 <= i < j < |s| ==> s[i] != s[j] }

  ghost predicate Mapped(mem: Memory, base: u64, len: nat)
  {
    forall a: u64 :: base <= a < base + len && a % 8 == 0 ==> a in mem
  }

  ghost predicate PageAt(mem: Memory, p: u64, b: nat)
  {
    p % 4096 == 0 && 0 < p && p + 4096 <= 0xffff_ffff_ffff_f000 && 3 <= b <= MAX_BUCKET && Mapped(mem, p, 4096)
  }

  ghost predicate PagesOk(mem: Memory, pages: map<u64, nat>)
  {
    forall p :: p in pages ==> PageAt(mem, p, pages[p])
  }

  ghost predicate ListsOk(mem: Memory, heads: seq<u64>, s: Shape)
  {
    && |heads| == MAX_BUCKET + 1 && |s.lists| == MAX_BUCKET + 1
    && (forall b :: 0 <= b <= MAX_BUCKET ==> Chain(mem, heads[b], s.lists[b]) && Distinct(s.lists[b]))
    && (forall b, x :: 0 <= b <= MAX_BUCKET && x in s.lists[b] ==> Slot(s.pages, b, x) && x !in s.live)
  }

  /** A stored size that leads back to bucket b. */
  predicate SizeOf(size: u64, b: nat) { MIN_ALLOC_SIZE <= size < 4096 && Bucket(size) == b }

  predicate LiveAt(mem: Memory, pages: map<u64, nat>, x: u64, b: nat)
  {
    Slot(pages, b, x) && x in mem && SizeOf(mem[x], b)
  }

  ghost predicate LiveOk(mem: Memory, s: Shape)
  {
    forall x :: x in s.live ==> LiveAt(mem, s.pages, x, s.live[x])
  }

  /** No block is lost. */
  ghost predicate Complete(s: Shape)
    requires |s.lists| == MAX_BUCKET + 1
  {
    forall b, x: u64 :: 0 <= b <= MAX_BUCKET && Slot(s.pages, b, x) ==> x in s.live || x in s.lists[b]
  }

  ghost predicate HugeAt(mem: Memory, h: u64, len: nat)
  {
    && h % 4096 == 0 && 0 < h && len > 0 && h + len <= 0xffff_ffff_ffff_f000 && Mapped(mem, h, len)
    && h in mem && mem[h] >= 4096 && HugeAlign(mem[h]) == len
  }

  ghost predicate HugeOk(mem: Memory, s: Shape)
  {
    && (forall h :: h in s.huge ==> HugeAt(mem, h, s.huge[h]))
    && (forall h, p :: h in s.huge && p in s.pages ==> !(h <= p < h + s.huge[h]))
    && (forall h, g :: h in s.huge && g in s.huge && h != g ==> !(h <= g < h + s.huge[h]))
  }

  ghost predicate Inv(mem: Memory, heads: seq<u64>, s: Shape)
  {
    PagesOk(mem, s.pages) && ListsOk(mem, heads, s) && LiveOk(mem, s) && Complete(s) && HugeOk(mem, s)
  }

  // ----- arithmetic of blocks

  lemma AlignedApart(x: nat, y: nat, b: nat)
    requires Aligned(x, b) && Aligned(y, b) && x < y
    ensures x + Pow2(b) <= y
  {
    var p := Pow2(b);
    DivModSpec(x, p);
    DivModSpec(y, p);
    var i, j := x / p, y / p;
    if j <= i { MulMono(j, i, p); }
    MulMono(i + 1, j, p);
    assert (i + 1) * p == i * p + p;
  }

  lemma PageAligned(p: nat, b: nat)
    requires p % 4096 == 0 && b <= 12
    ensures Aligned(p, b)
  {
    Pow2Add(12 - b, b);
    TwoTo12();
    var q := Pow2(12 - b);
    assert q * Pow2(b) == 4096;
    var k := p / 4096;
    assert p == k * 4096 == k * q * Pow2(b);
    DivMulCancel(k * q, Pow2(b));
  }

  lemma AlignedNext(x: nat, b: nat)
    requires Aligned(x, b)
    ensures Aligned(x + Pow2(b), b)
  {
    ModAddMultiple(x, 1, Pow2(b));
  }

  lemma AlignedWord(x: nat, b: nat)
    requires Aligned(x, b) && b >= 3
    ensures x % 8 == 0
  {
    Pow2Add(b - 3, 3);
    var q, k := Pow2(b - 3), x / Pow2(b);
    assert Pow2(3) == 8;
    DivModSpec(x, Pow2(b));
    assert x == k * (q * 8) == k * q * 8;
    DivMulCancel(k * q, 8);
  }

  /** A block lies inside its page. */
  lemma BlockInPage(pages: map<u64, nat>, b: nat, x: u64)
    requires Slot(pages, b, x) && b <= 12
    ensures PageOf(x) <= x && x + Pow2(b) <= PageOf(x) + 4096
  {
    RoundDown(x);
    hide Pow2;
    PageAligned(PageOf(x) + 4096, b);
    AlignedApart(x, PageOf(x) + 4096, b);
  }

  /** Two blocks, live or free, never overlap. */
  lemma BlocksDisjoint(mem: Memory, pages: map<u64, nat>, b: nat, x: u64, c: nat, y: u64)
    requires PagesOk(mem, pages) && Slot(pages, b, x) && Slot(pages, c, y) && x < y
    ensures x + Pow2(b) <= y
  {
    BlockInPage(pages, b, x);
    if PageOf(x) == PageOf(y) { AlignedApart(x, y, b); } else { PagesApart(x, y); }
  }

  lemma PagesApart(x: u64, y: u64)
    requires x < y && PageOf(x) != PageOf(y)
    ensures PageOf(x) + 4096 <= PageOf(y) <= y
  {
    DivLe(x, y, 4096);
    DivModSpec(x, 4096);
    DivModSpec(y, 4096);
  }

  lemma PageWithin(x: u64, h: u64)
    requires h % 4096 == 0 && h <= x
    ensures h <= PageOf(x) <= x
  {
    DivLe(h, x, 4096);
    DivModSpec(x, 4096);
    DivModSpec(h, 4096);
  }

  // ----- changing memory under the invariant

  /** A list survives any change that leaves its links alone. */
  lemma {:induction false} ChainFrame(mem: Memory, mem': Memory, head: u64, s: seq<u64>)
    requires Chain(mem, head, s)
    requires forall x :: x in s && x in mem ==> x in mem' && mem'[x] == mem[x]
    ensures Chain(mem', head, s)
    decreases |s|
  {
    if s != [] { ChainFrame(mem, mem', mem[head], s[1..]); }
  }

  lemma {:induction false} ChainMapped(mem: Memory, head: u64, s: seq<u64>)
    requires Chain(mem, head, s)
    ensures forall x :: x in s ==> x in mem && x != 0
    decreases |s|
  {
    if s != [] {
      ChainMapped(mem, mem[head], s[1..]);
      assert s == [s[0]] + s[1..];
    }
  }

  /** The word at a is neither a link nor a header. */
  ghost predicate Payload(s: Shape, a: u64)
  {
    a !in s.live && a !in s.huge && forall b :: 0 <= b < |s.lists| ==> a !in s.lists[b]
  }

  /** The words of the live block at x that belong to the caller, by the size in its header. */
  predicate Owned(mem: Memory, s: Shape, x: u64, a: u64)
  {
    (x in s.live || x in s.huge) && x in mem && x + META_OFFSET <= a < x + mem[x] && a % 8 == 0
  }

  /** Removing the head of list b and recording it as live. */
  function Taken(s: Shape, b: nat, x: u64): Shape
    requires b < |s.lists| && s.lists[b] != []
  {
    s.(lists := s.lists[b := s.lists[b][1..]], live := s.live[x := b])
  }

  lemma TakeKeeps(mem: Memory, heads: seq<u64>, s: Shape, b: nat, size: u64)
    requires Inv(mem, heads, s) && b <= MAX_BUCKET && heads[b] != 0 && SizeOf(size, b)
    ensures var x := heads[b];
      && x in mem && x !in s.live && Slot(s.pages, b, x) && s.lists[b] != [] && s.lists[b][0] == x
      && Inv(mem[x := size], heads[b := mem[x]], Taken(s, b, x))
  {
    hide Bucket, HugeAlign, Aligned, PageOf;
    var x, was := heads[b], s.lists[b];
    assert Chain(mem, x, was) && was != [] && x in was;
    var mem', heads', s' := mem[x := size], heads[b := mem[x]], Taken(s, b, x);
    assert was == [x] + was[1..];
    assert Slot(s.pages, b, x) && x !in s.live;
    assert x !in was[1..];
    forall c | 0 <= c <= MAX_BUCKET
      ensures Chain(mem', heads'[c], s'.lists[c]) && Distinct(s'.lists[c])
      ensures forall y :: y in s'.lists[c] ==> Slot(s.pages, c, y) && y !in s'.live
    {
      if c == b {
        ChainFrame(mem, mem', mem[x], was[1..]);
      } else {
        ChainFrame(mem, mem', heads[c], s.lists[c]);
      }
    }
    assert ListsOk(mem', heads', s');
    assert HugeOk(mem', s') by { HugeApart(mem, heads, s, b, x); }
  }

  /** A block of a page is not the header of a large block. */
  lemma HugeApart(mem: Memory, heads: seq<u64>, s: Shape, b: nat, x: u64)
    requires Inv(mem, heads, s) && b <= MAX_BUCKET && Slot(s.pages, b, x)
    ensures forall h :: h in s.huge ==> !(h <= x < h + s.huge[h])
  {
    var p := PageOf(x);
    assert p in s.pages;
    forall h | h in s.huge && h <= x
      ensures x >= h + s.huge[h]
    {
      PageWithin(x, h);
      assert !(h <= p < h + s.huge[h]);
    }
  }

  /** Recording the live block at x as the head of list b. */
  function Released(s: Shape, b: nat, x: u64): Shape
    requires b < |s.lists|
  {
    s.(lists := s.lists[b := [x] + s.lists[b]], live := s.live - {x})
  }

  lemma ReleaseLists(mem: Memory, heads: seq<u64>, s: Shape, x: u64, b: nat)
    requires ListsOk(mem, heads, s) && x in s.live && b == s.live[x] <= MAX_BUCKET
    requires x != 0 && x in mem && Slot(s.pages, b, x)
    ensures ListsOk(mem[x := heads[b]], heads[b := x], Released(s, b, x))
  {
    hide Bucket, HugeAlign, Aligned, PageOf, Slot;
    var mem', heads', s' := mem[x := heads[b]], heads[b := x], Released(s, b, x);
    forall c | 0 <= c <= MAX_BUCKET
      ensures Chain(mem', heads'[c], s'.lists[c]) && Distinct(s'.lists[c])
      ensures forall y :: y in s'.lists[c] ==> Slot(s.pages, c, y) && y !in s'.live
    {
      ChainFrame(mem, mem', heads[c], s.lists[c]);
      if c == b {
        assert s'.lists[b][1..] == s.lists[b];
      }
    }
  }

  lemma ReleaseKeeps(mem: Memory, heads: seq<u64>, s: Shape, x: u64)
    requires Inv(mem, heads, s) && x in s.live
    ensures var b := s.live[x];
      && 3 <= b <= MAX_BUCKET && x in mem
      && Inv(mem[x := heads[b]], heads[b := x], Released(s, b, x))
  {
    var b := s.live[x];
    LiveBucket(mem, s, x);
    LiveRange(mem, s, x);
    ReleaseLists(mem, heads, s, x, b);
    HugeApart(mem, heads, s, b, x);
    hide Bucket, HugeAlign, Aligned, PageOf, ListsOk;
  }

  /** The caller may write anything into its own words. */
  lemma StoreKeeps(mem: Memory, heads: seq<u64>, s: Shape, x: u64, a: u64, v: u64)
    requires Inv(mem, heads, s) && Owned(mem, s, x, a)
    ensures a in mem && Payload(s, a) && Inv(mem[a := v], heads, s)
  {
    OwnedIsPayload(mem, heads, s, x, a);
    var mem' := mem[a := v];
    forall c | 0 <= c <= MAX_BUCKET
      ensures Chain(mem', heads[c], s.lists[c])
    {
      ChainFrame(mem, mem', heads[c], s.lists[c]);
    }
  }

  // ----- single bytes

  /** Byte k of a word, the lowest first. */
  function ByteOf(w: nat, k: nat): byte { if k == 0 then w % 256 else ByteOf(w / 256, k - 1) }

  function WithByte(w: nat, k: nat, v: byte): nat
  {
    if k == 0 then w / 256 * 256 + v else WithByte(w / 256, k - 1, v) * 256 + w % 256
  }

  lemma {:induction false} WithByteBytes(w: nat, k: nat, v: byte, j: nat)
    ensures ByteOf(WithByte(w, k, v), j) == if j == k then v else ByteOf(w, j)
  {
    var r := WithByte(w, k, v);
    if k == 0 {
      DivModUnique(r, 256, w / 256, v);
    } else {
      DivModUnique(r, 256, WithByte(w / 256, k - 1, v), w % 256);
      if j > 0 { WithByteBytes(w / 256, k - 1, v, j - 1); }
    }
  }

  lemma {:induction false} WithByteFits(w: nat, k: nat, v: byte, n: nat)
    requires k < n && w < Pow2(8 * n)
    ensures WithByte(w, k, v) < Pow2(8 * n)
  {
    hide *;
    EightBits(n - 1);
    WithByteIs(w, k, v);
    if k > 0 { WithByteFits(w / 256, k - 1, v, n - 1); }
  }

  lemma WithByteIs(w: nat, k: nat, v: byte)
    ensures WithByte(w, k, v) == if k == 0 then w / 256 * 256 + v else WithByte(w / 256, k - 1, v) * 256 + w % 256
  {
  }

  lemma EightBits(n: nat)
    ensures Pow2(8 * (n + 1)) == 256 * Pow2(8 * n)
  {
    TwoTo12();
    PowDoubles(8);
    Pow2Add(8, 8 * n);
  }

  /** The byte at address i. */
  function ByteAt(mem: Memory, i: u64): byte
    requires i - i % 8 in mem
  {
    ByteOf(mem[i - i % 8], i % 8)
  }

  /** The bytes of the live block at x that belong to the caller, by the size in its header. */
  predicate OwnedByte(mem: Memory, s: Shape, x: u64, i: u64)
  {
    (x in s.live || x in s.huge) && x in mem && x + META_OFFSET <= i < x + mem[x]
  }

  lemma OwnedByteWord(mem: Memory, heads: seq<u64>, s: Shape, x: u64, i: u64)
    requires Inv(mem, heads, s) && OwnedByte(mem, s, x, i)
    ensures Owned(mem, s, x, i - i % 8) && i - i % 8 in mem
  {
    StartAligned(mem, heads, s, x);
    WordWithin(mem, s, x, i);
    hide *;
    OwnedIsPayload(mem, heads, s, x, i - i % 8);
  }

  lemma WordWithin(mem: Memory, s: Shape, x: u64, i: u64)
    requires x % 8 == 0 && OwnedByte(mem, s, x, i)
    ensures Owned(mem, s, x, i - i % 8)
  {
  }

  lemma StartAligned(mem: Memory, heads: seq<u64>, s: Shape, x: u64)
    requires Inv(mem, heads, s) && (x in s.live || x in s.huge)
    ensures x % 8 == 0
  {
    hide PagesOk, ListsOk, LiveOk, HugeOk, Complete;
    if x in s.live {
      LiveSlot(mem, s, x);
      AlignedWord(x, s.live[x]);
    } else {
      HugeStart(mem, s, x);
    }
  }

  lemma HugeStart(mem: Memory, s: Shape, x: u64)
    requires HugeOk(mem, s) && x in s.huge
    ensures x % 8 == 0
  {
    hide Mapped, HugeAlign;
    assert HugeAt(mem, x, s.huge[x]);
    DivModSpec(x, 4096);
    PageEighths(x, x / 4096);
  }

  lemma PageEighths(x: nat, q: int)
    requires x == q * 4096
    ensures x % 8 == 0
  {
    DivMulCancel(q * 512, 8);
  }

  lemma LiveSlot(mem: Memory, s: Shape, x: u64)
    requires PagesOk(mem, s.pages) && LiveOk(mem, s) && x in s.live
    ensures Aligned(x, s.live[x]) && s.live[x] >= 3
  {
    assert LiveAt(mem, s.pages, x, s.live[x]);
    assert PageAt(mem, PageOf(x), s.live[x]);
  }

  lemma OwnedIsPayload(mem: Memory, heads: seq<u64>, s: Shape, x: u64, a: u64)
    requires Inv(mem, heads, s) && Owned(mem, s, x, a)
    ensures a in mem && Payload(s, a)
  {
    if x in s.live {
      OwnedInPage(mem, s, x, a);
    } else {
      OwnedInHuge(mem, heads, s, x, a);
    }
    assert a in s.live ==> LiveAt(mem, s.pages, a, s.live[a]);
  }

  lemma OwnedInPage(mem: Memory, s: Shape, x: u64, a: u64)
    requires PagesOk(mem, s.pages) && LiveOk(mem, s) && HugeOk(mem, s) && x in s.live && Owned(mem, s, x, a)
    ensures a in mem && a !in s.huge && forall c :: 0 <= c <= MAX_BUCKET ==> !Slot(s.pages, c, a)
  {
    InsideBlock(mem, s, x, a);
    var b := s.live[x];
    assert LiveAt(mem, s.pages, x, b);
    forall c | 0 <= c <= MAX_BUCKET
      ensures !Slot(s.pages, c, a)
    {
      if Slot(s.pages, c, a) { BlocksDisjoint(mem, s.pages, b, x, c, a); }
    }
    assert a in s.huge ==> HugeAt(mem, a, s.huge[a]);
    RoundDown(x);
  }

  lemma OwnedInHuge(mem: Memory, heads: seq<u64>, s: Shape, x: u64, a: u64)
    requires Inv(mem, heads, s) && x in s.huge && Owned(mem, s, x, a)
    ensures a in mem && a !in s.huge && forall c :: 0 <= c <= MAX_BUCKET ==> !Slot(s.pages, c, a)
  {
    assert HugeAt(mem, x, s.huge[x]);
    HugeAlignValue(mem[x]);
    assert x <= a < x + s.huge[x];
    forall c | 0 <= c <= MAX_BUCKET
      ensures !Slot(s.pages, c, a)
    {
      if Slot(s.pages, c, a) { HugeApart(mem, heads, s, c, a); }
    }
  }

  lemma InsideBlock(mem: Memory, s: Shape, x: u64, a: u64)
    requires PagesOk(mem, s.pages) && LiveOk(mem, s) && x in s.live && Owned(mem, s, x, a)
    ensures x < a < x + Pow2(s.live[x]) && PageOf(a) == PageOf(x) && a in mem
  {
    var b := s.live[x];
    assert LiveAt(mem, s.pages, x, b) && PageAt(mem, PageOf(x), b);
    BucketFits(mem[x]);
    BlockInPage(s.pages, b, x);
    SamePage(x, a);
    assert Mapped(mem, PageOf(x), 4096);
  }

  lemma SamePage(x: u64, a: u64)
    requires PageOf(x) <= a < PageOf(x) + 4096
    ensures PageOf(a) == PageOf(x)
  {
  }

  // ----- new pages

  /** The region [base, base + len) of whole pages is not in use, and its end is an address. */
  ghost predicate FreshRegion(mem: Memory, base: u64, len: nat)
  {
    base % 4096 == 0 && base > 0 && len > 0 && base + len <= 0xffff_ffff_ffff_f000
    && forall a :: a in mem ==> !(base <= a < base + len)
  }

  /** The blocks of size 2^b from y up to end. */
  function Cells(y: nat, end: nat, b: nat): seq<u64>
    requires end <= 0x1_0000_0000_0000_0000
    decreases end - y
  {
    if y >= end then [] else [y] + Cells(y + Pow2(b), end, b)
  }

  lemma {:induction false} CellsAre(y: nat, end: nat, b: nat)
    requires Aligned(y, b) && end <= 0x1_0000_0000_0000_0000
    ensures forall z: u64 :: z in Cells(y, end, b) <==> y <= z < end && Aligned(z, b)
    ensures Distinct(Cells(y, end, b))
    decreases end - y
  {
    if y < end {
      AlignedNext(y, b);
      CellsAre(y + Pow2(b), end, b);
      var rest := Cells(y + Pow2(b), end, b);
      assert Cells(y, end, b)[1..] == rest;
      forall z: u64 | y < z && Aligned(z, b)
        ensures y + Pow2(b) <= z
      {
        AlignedApart(y, z, b);
      }
    }
  }

  /** The links that the carving loop leaves: each block's to the next, the last one's to nothing. */
  ghost predicate Linked(mem: Memory, y: nat, end: nat, b: nat)
  {
    forall z: u64 :: y <= z < end && Aligned(z, b) ==>
      z in mem && mem[z] == if z + Pow2(b) < end then z + Pow2(b) else 0
  }

  lemma {:induction false} CellsChain(mem: Memory, y: nat, end: nat, b: nat)
    requires Aligned(y, b) && 0 < y && end <= 0x1_0000_0000_0000_0000 && Linked(mem, y, end, b)
    ensures Chain(mem, if y < end then y else 0, Cells(y, end, b))
    decreases end - y
  {
    if y < end {
      AlignedNext(y, b);
      CellsChain(mem, y + Pow2(b), end, b);
      assert Cells(y, end, b)[1..] == Cells(y + Pow2(b), end, b);
    }
  }

  /** A page cut for bucket b: its first block is live, the others are free. */
  function Carved(s: Shape, b: nat, p: u64): Shape
    requires b < |s.lists| && p + 4096 <= 0x1_0000_0000_0000_0000
  {
    s.(lists := s.lists[b := Cells(p + Pow2(b), p + 4096, b)], live := s.live[p := b], pages := s.pages[p := b])
  }

  ghost predicate Extends(mem: Memory, mem': Memory)
  {
    forall a :: a in mem ==> a in mem' && mem'[a] == mem[a]
  }

  /** The head of the list after carving. */
  function CarvedHead(p: u64, b: nat): nat { if b == MAX_BUCKET then 0 else p + Pow2(b) }

  lemma PageWord(p: nat)
    requires p % 4096 == 0
    ensures p % 8 == 0
  {
    FinerPage(p / 4096);
  }

  lemma FinerPage(k: nat)
    ensures k * 4096 % 8 == 0
  {
    DivModUnique(k * 4096, 8, k * 512, 0);
  }

  /** A fresh page holds no block. */
  lemma NewPageApart(mem: Memory, pages: map<u64, nat>, p: u64, len: nat)
    requires PagesOk(mem, pages) && FreshRegion(mem, p, len)
    ensures forall q :: q in pages ==> !(p <= q < p + len)
    ensures forall c, x :: Slot(pages, c, x) ==> PageOf(x) != p
  {
    forall q | q in pages
      ensures !(p <= q < p + len)
    {
      assert Mapped(mem, q, 4096);
      PageWord(q);
      assert q in mem;
    }
    forall c, x | Slot(pages, c, x)
      ensures PageOf(x) != p
    {
      assert PageOf(x) in pages;
    }
  }

  lemma NewSlot(pages: map<u64, nat>, p: u64, b: nat, c: nat, x: u64)
    ensures Slot(pages[p := b], c, x) <==> if PageOf(x) == p then c == b && Aligned(x, b) else Slot(pages, c, x)
  {
  }

  lemma CarvedList(mem: Memory, p: u64, b: nat)
    requires 3 <= b <= MAX_BUCKET && p % 4096 == 0 && 0 < p && p + 4096 <= 0x1_0000_0000_0000_0000
    requires Linked(mem, p + Pow2(b), p + 4096, b)
    ensures p + Pow2(b) <= p + 4096 && CarvedHead(p, b) < W64
    ensures Chain(mem, CarvedHead(p, b), Cells(p + Pow2(b), p + 4096, b)) && Distinct(Cells(p + Pow2(b), p + 4096, b))
    ensures forall z: u64 :: z in Cells(p + Pow2(b), p + 4096, b) <==> PageOf(z) == p && Aligned(z, b) && z != p
  {
    PageAligned(p, b);
    AlignedNext(p, b);
    HeadInPage(p, b);
    InPage(p);
    PastFirst(p, b);
    hide *;
    CellsAre(p + Pow2(b), p + 4096, b);
    CellsChain(mem, p + Pow2(b), p + 4096, b);
  }

  lemma HeadInPage(p: u64, b: nat)
    requires 3 <= b <= MAX_BUCKET && p + 4096 <= 0x1_0000_0000_0000_0000
    ensures 0 < Pow2(b) <= 4096 && CarvedHead(p, b) < 0x1_0000_0000_0000_0000
    ensures CarvedHead(p, b) == if p + Pow2(b) < p + 4096 then p + Pow2(b) else 0
  {
    TwoTo12();
    Pow2Mono(b, 12);
    if b < 12 { Pow2Mono(b + 1, 12); }
  }

  lemma InPage(p: u64)
    requires p % 4096 == 0 && p + 4096 <= 0x1_0000_0000_0000_0000
    ensures forall z: u64 :: PageOf(z) == p <==> p <= z < p + 4096
  {
    forall z: u64
      ensures PageOf(z) == p <==> p <= z < p + 4096
    {
      RoundDown(z);
      if p <= z < p + 4096 { PagePart(p, z); }
    }
  }

  lemma PastFirst(p: u64, b: nat)
    requires Aligned(p, b)
    ensures forall z: u64 :: z > p && Aligned(z, b) ==> p + Pow2(b) <= z
  {
    forall z: u64 | z > p && Aligned(z, b)
      ensures p + Pow2(b) <= z
    {
      AlignedApart(p, z, b);
    }
  }

  lemma CarveLists(mem: Memory, mem': Memory, heads: seq<u64>, s: Shape, b: nat, p: u64)
    requires Inv(mem, heads, s) && 3 <= b <= MAX_BUCKET && heads[b] == 0 && CarvedHead(p, b) < W64
    requires FreshRegion(mem, p, 4096) && Extends(mem, mem')
    requires Linked(mem', p + Pow2(b), p + 4096, b)
    ensures ListsOk(mem', heads[b := CarvedHead(p, b)], Carved(s, b, p))
  {
    hide *;
    BucketNames(mem', p, b);
    PageBounds(mem, p, 4096);
    ThirteenLists(mem, heads, s);
    CarvedList(mem', p, b);
    CarvedMembers(mem, mem', heads, s, b, p);
    CarvedLists(s, b, p);
    var heads', s' := heads[b := CarvedHead(p, b)], Carved(s, b, p);
    forall c | 0 <= c <= MAX_BUCKET
      ensures Chain(mem', heads'[c], s'.lists[c]) && Distinct(s'.lists[c])
    {
      if c != b { OldChain(mem, mem', heads, s, c); }
    }
    IsListsOk(mem', heads', s');
  }

  lemma OldChain(mem: Memory, mem': Memory, heads: seq<u64>, s: Shape, c: nat)
    requires Inv(mem, heads, s) && c <= MAX_BUCKET && Extends(mem, mem')
    ensures c < |heads| && c < |s.lists| && Chain(mem', heads[c], s.lists[c]) && Distinct(s.lists[c])
  {
    ChainFrame(mem, mem', heads[c], s.lists[c]);
    hide Chain, Slot, PageAt, HugeAt, LiveAt;
  }

  lemma IsListsOk(mem: Memory, heads: seq<u64>, s: Shape)
    requires |heads| == MAX_BUCKET + 1 && |s.lists| == MAX_BUCKET + 1
    requires forall b :: 0 <= b <= MAX_BUCKET ==> Chain(mem, heads[b], s.lists[b]) && Distinct(s.lists[b])
    requires forall b, x :: 0 <= b <= MAX_BUCKET && x in s.lists[b] ==> Slot(s.pages, b, x) && x !in s.live
    ensures ListsOk(mem, heads, s)
  {
  }

  lemma CarvedMembers(mem: Memory, mem': Memory, heads: seq<u64>, s: Shape, b: nat, p: u64)
    requires Inv(mem, heads, s) && 3 <= b <= MAX_BUCKET && FreshRegion(mem, p, 4096)
    requires Linked(mem', p + Pow2(b), p + 4096, b)
    ensures var s' := Carved(s, b, p);
      forall c, y :: 0 <= c <= MAX_BUCKET && y in s'.lists[c] ==> Slot(s'.pages, c, y) && y !in s'.live
  {
    var s' := Carved(s, b, p);
    NewPageApart(mem, s.pages, p, 4096);
    CarvedList(mem', p, b);
    RoundDown(p);
    LivePages(mem, s, p);
    forall c: nat | c <= MAX_BUCKET
      ensures forall y :: y in s'.lists[c] ==> Slot(s'.pages, c, y) && y !in s'.live
    {
      OldOrCarved(mem, mem', heads, s, b, p, c);
    }
  }

  lemma OldOrCarved(mem: Memory, mem': Memory, heads: seq<u64>, s: Shape, b: nat, p: u64, c: nat)
    requires Inv(mem, heads, s) && 3 <= b <= MAX_BUCKET && FreshRegion(mem, p, 4096) && c <= MAX_BUCKET
    requires Linked(mem', p + Pow2(b), p + 4096, b) && PageOf(p) == p
    requires forall x :: x in s.live ==> PageOf(x) != p
    requires forall d, x :: Slot(s.pages, d, x) ==> PageOf(x) != p
    ensures var s' := Carved(s, b, p); forall y :: y in s'.lists[c] ==> Slot(s'.pages, c, y) && y !in s'.live
  {
    hide *;
    PageBounds(mem, p, 4096);
    BucketNames(mem', p, b);
    CarvedList(mem', p, b);
    OldMembers(mem, heads, s, c);
    CarvedLists(s, b, p);
    var s' := Carved(s, b, p);
    forall y | y in s'.lists[c]
      ensures Slot(s'.pages, c, y) && y !in s'.live
    {
      CarvedMember(s, b, p, c, y);
    }
  }

  lemma OldMembers(mem: Memory, heads: seq<u64>, s: Shape, c: nat)
    requires Inv(mem, heads, s) && c <= MAX_BUCKET
    ensures |s.lists| == MAX_BUCKET + 1 && forall y :: y in s.lists[c] ==> Slot(s.pages, c, y) && y !in s.live
  {
    hide Slot;
  }

  lemma CarvedLists(s: Shape, b: nat, p: u64)
    requires b < |s.lists| && p + 4096 <= 0x1_0000_0000_0000_0000
    ensures Carved(s, b, p).lists == s.lists[b := Cells(p + Pow2(b), p + 4096, b)]
  {
  }

  lemma LivePages(mem: Memory, s: Shape, p: u64)
    requires LiveOk(mem, s) && p !in s.pages
    ensures forall x :: x in s.live ==> PageOf(x) != p
  {
    assert forall x :: x in s.live ==> LiveAt(mem, s.pages, x, s.live[x]);
    hide Aligned, SizeOf;
  }

  lemma CarvedMember(s: Shape, b: nat, p: u64, c: nat, y: u64)
    requires b < |s.lists| && PageOf(p) == p && p + 4096 <= 0xffff_ffff_ffff_f000
    requires forall x :: x in s.live ==> PageOf(x) != p
    requires if c == b then PageOf(y) == p && Aligned(y, b) && y != p
             else Slot(s.pages, c, y) && y !in s.live && PageOf(y) != p
    ensures Slot(Carved(s, b, p).pages, c, y) && y !in Carved(s, b, p).live
  {
    hide Pow2, Aligned, PageOf;
    NewSlot(s.pages, p, b, c, y);
  }

  /** Large blocks stay as they are when memory is added elsewhere. */
  lemma HugeBeside(mem: Memory, mem': Memory, s: Shape, p: u64, len: nat)
    requires HugeOk(mem, s) && FreshRegion(mem, p, len) && Extends(mem, mem')
    ensures HugeOk(mem', s) && forall h :: h in s.huge ==> !(h <= p < h + s.huge[h]) && !(p <= h < p + len)
  {
    forall h | h in s.huge
      ensures HugeAt(mem', h, s.huge[h]) && !(h <= p < h + s.huge[h]) && !(p <= h < p + len)
    {
      HugeAtBeside(mem, mem', h, s.huge[h], p, len);
    }
  }

  lemma HugeAtBeside(mem: Memory, mem': Memory, h: u64, size: nat, p: u64, len: nat)
    requires HugeAt(mem, h, size) && FreshRegion(mem, p, len) && Extends(mem, mem')
    ensures HugeAt(mem', h, size) && !(h <= p < h + size) && !(p <= h < p + len)
  {
    hide HugeAlign;
    PageWord(p);
    PageWord(h);
    assert h <= p < h + size ==> p in mem;
    assert h in mem;
  }

  lemma CarveKeeps(mem: Memory, mem': Memory, heads: seq<u64>, s: Shape, b: nat, p: u64, size: u64)
    requires Inv(mem, heads, s) && 3 <= b <= MAX_BUCKET && heads[b] == 0 && SizeOf(size, b)
    requires FreshRegion(mem, p, 4096) && Extends(mem, mem') && Mapped(mem', p, 4096)
    requires Linked(mem', p + Pow2(b), p + 4096, b) && p in mem' && mem'[p] == size
    ensures CarvedHead(p, b) < W64
    ensures p !in s.live && Inv(mem', heads[b := CarvedHead(p, b)], Carved(s, b, p))
  {
    CarvedList(mem', p, b);
    CarveLists(mem, mem', heads, s, b, p);
    PageAligned(p, b);
    NewPageApart(mem, s.pages, p, 4096);
    CarvePages(mem, mem', s, b, p, size);
    HugeBeside(mem, mem', s, p, 4096);
    assert Chain(mem, heads[b], s.lists[b]) && s.lists[b] == [];
    CarveComplete(mem', s, b, p);
  }

  lemma CarveComplete(mem': Memory, s: Shape, b: nat, p: u64)
    requires |s.lists| == MAX_BUCKET + 1 && Complete(s) && 3 <= b <= MAX_BUCKET && s.lists[b] == []
    requires p % 4096 == 0 && 0 < p && p + 4096 <= 0xffff_ffff_ffff_f000 && Linked(mem', p + Pow2(b), p + 4096, b)
    requires forall c, x :: Slot(s.pages, c, x) ==> PageOf(x) != p
    ensures Complete(Carved(s, b, p))
  {
    var s' := Carved(s, b, p);
    CarvedList(mem', p, b);
    assert s'.lists[b] == Cells(p + Pow2(b), p + 4096, b);
    hide Cells, Pow2, Aligned, PageOf, Linked, Chain;
    forall c, x: u64 | 0 <= c <= MAX_BUCKET && Slot(s'.pages, c, x)
      ensures x in s'.live || x in s'.lists[c]
    {
      NewSlot(s.pages, p, b, c, x);
    }
  }

  lemma CarvePages(mem: Memory, mem': Memory, s: Shape, b: nat, p: u64, size: u64)
    requires PagesOk(mem, s.pages) && LiveOk(mem, s) && 3 <= b <= MAX_BUCKET && b < |s.lists| && SizeOf(size, b)
    requires FreshRegion(mem, p, 4096) && Extends(mem, mem') && Mapped(mem', p, 4096) && p in mem' && mem'[p] == size
    ensures p !in s.live && PagesOk(mem', Carved(s, b, p).pages) && LiveOk(mem', Carved(s, b, p))
  {
    NewPageApart(mem, s.pages, p, 4096);
    PageAligned(p, b);
    var s' := Carved(s, b, p);
    hide Pow2, Aligned, Cells, Bucket;
    forall q | q in s'.pages
      ensures PageAt(mem', q, s'.pages[q])
    {
      if q != p { PageAtBeside(mem, mem', q, s.pages[q]); }
    }
    forall x | x in s'.live
      ensures LiveAt(mem', s'.pages, x, s'.live[x])
    {
      if x != p { assert LiveAt(mem, s.pages, x, s.live[x]); }
      NewSlot(s.pages, p, b, s'.live[x], x);
    }
  }

  lemma PageAtBeside(mem: Memory, mem': Memory, q: u64, b: nat)
    requires PageAt(mem, q, b) && Extends(mem, mem')
    ensures PageAt(mem', q, b)
  {
  }

  // ----- large blocks

  lemma MapKeeps(mem: Memory, mem': Memory, heads: seq<u64>, s: Shape, p: u64, len: nat, size: u64)
    requires Inv(mem, heads, s) && FreshRegion(mem, p, len) && Extends(mem, mem') && Mapped(mem', p, len)
    requires p in mem' && mem'[p] == size && size >= 4096 && HugeAlign(size) == len
    ensures p !in s.huge && Inv(mem', heads, s.(huge := s.huge[p := len]))
  {
    hide HugeAlign, Bucket, Aligned;
    NewPageApart(mem, s.pages, p, len);
    HugeBeside(mem, mem', s, p, len);
    forall c | 0 <= c <= MAX_BUCKET
      ensures Chain(mem', heads[c], s.lists[c])
    {
      ChainFrame(mem, mem', heads[c], s.lists[c]);
    }
    forall q | q in s.pages
      ensures PageAt(mem', q, s.pages[q])
    {
      PageAtBeside(mem, mem', q, s.pages[q]);
    }
    assert forall x :: x in s.live ==> LiveAt(mem, s.pages, x, s.live[x]);
  }

  function Unmapped(mem: Memory, base: u64, len: nat): Memory
  {
    map a | a in mem && !(base <= a < base + len) :: mem[a]
  }

  lemma UnmapKeeps(mem: Memory, heads: seq<u64>, s: Shape, h: u64)
    requires Inv(mem, heads, s) && h in s.huge
    ensures Inv(Unmapped(mem, h, s.huge[h]), heads, s.(huge := s.huge - {h}))
  {
    var len := s.huge[h];
    var mem' := Unmapped(mem, h, len);
    assert HugeAt(mem, h, len);
    hide HugeAlign, Bucket, Aligned;
    forall c | 0 <= c <= MAX_BUCKET
      ensures Chain(mem', heads[c], s.lists[c])
    {
      forall x | x in s.lists[c]
        ensures !(h <= x < h + len)
      {
        HugeApart(mem, heads, s, c, x);
      }
      ChainFrame(mem, mem', heads[c], s.lists[c]);
    }
    forall x | x in s.live
      ensures LiveAt(mem', s.pages, x, s.live[x])
    {
      LiveBucket(mem, s, x);
      HugeApart(mem, heads, s, s.live[x], x);
    }
    forall q | q in s.pages
      ensures PageAt(mem', q, s.pages[q])
    {
      PageOutside(mem, s, q, h);
    }
    forall g | g in s.huge && g != h
      ensures HugeAt(mem', g, s.huge[g])
    {
      assert HugeAt(mem, g, s.huge[g]);
    }
  }

  lemma LiveBucket(mem: Memory, s: Shape, x: u64)
    requires PagesOk(mem, s.pages) && LiveOk(mem, s) && x in s.live
    ensures LiveAt(mem, s.pages, x, s.live[x]) && 3 <= s.live[x] <= MAX_BUCKET && PageOf(x) in s.pages
  {
    assert PageAt(mem, PageOf(x), s.live[x]);
  }

  lemma PageOutside(mem: Memory, s: Shape, q: u64, h: u64)
    requires PagesOk(mem, s.pages) && HugeOk(mem, s) && q in s.pages && h in s.huge
    ensures PageAt(Unmapped(mem, h, s.huge[h]), q, s.pages[q])
  {
    assert PageAt(mem, q, s.pages[q]) && HugeAt(mem, h, s.huge[h]);
    hide HugeAlign;
    forall a: u64 | q <= a < q + 4096 && a % 8 == 0
      ensures a in Unmapped(mem, h, s.huge[h])
    {
      if h <= a {
        PageWithin(a, h);
        PagePart(q, a);
      }
    }
  }

  lemma PagePart(q: u64, a: u64)
    requires q % 4096 == 0 && q <= a < q + 4096
    ensures PageOf(a) == q
  {
    DivModUnique(a, 4096, q / 4096, a - q);
  }

  // ----- what the callers own

  /** Every word that belonged to a caller still does, and has the value it had. */
  ghost predicate Preserved(mem: Memory, s: Shape, mem': Memory, s': Shape)
  {
    forall x, a {:trigger Owned(mem, s, x, a)} :: Owned(mem, s, x, a) ==>
      Owned(mem', s', x, a) && a in mem && a in mem' && mem'[a] == mem[a]
  }

  /** The size of the block at x. */
  function Room(s: Shape, x: u64): nat
    requires x in s.live || x in s.huge
  {
    if x in s.live then Pow2(s.live[x]) else s.huge[x]
  }

  lemma TakePreserves(mem: Memory, heads: seq<u64>, s: Shape, b: nat, size: u64)
    requires Inv(mem, heads, s) && b <= MAX_BUCKET && heads[b] != 0 && s.lists[b] != [] && s.lists[b][0] == heads[b]
    ensures Preserved(mem, s, mem[heads[b] := size], Taken(s, b, heads[b]))
  {
    var h, list := heads[b], s.lists[b];
    assert h in list;
    assert h !in s.live && h !in s.huge by {
      assert Slot(s.pages, b, h);
      HugeApart(mem, heads, s, b, h);
      assert h in s.huge ==> HugeAt(mem, h, s.huge[h]);
    }
    forall x, a | Owned(mem, s, x, a)
      ensures a in mem && a != h
    {
      OwnedIsPayload(mem, heads, s, x, a);
    }
  }

  lemma ExtendPreserves(mem: Memory, mem': Memory, heads: seq<u64>, s: Shape, s': Shape)
    requires Inv(mem, heads, s) && Extends(mem, mem') && s.live.Keys <= s'.live.Keys && s.huge.Keys <= s'.huge.Keys
    ensures Preserved(mem, s, mem', s')
  {
    forall x, a | Owned(mem, s, x, a)
      ensures a in mem
    {
      OwnedIsPayload(mem, heads, s, x, a);
    }
  }

  lemma ReleasePreserves(mem: Memory, heads: seq<u64>, s: Shape, x: u64)
    requires Inv(mem, heads, s) && x in s.live && s.live[x] <= MAX_BUCKET
    ensures Preserved(mem, s.(live := s.live - {x}), mem[x := heads[s.live[x]]], Released(s, s.live[x], x))
  {
    assert LiveAt(mem, s.pages, x, s.live[x]);
    HugeApart(mem, heads, s, s.live[x], x);
    assert x in s.huge ==> HugeAt(mem, x, s.huge[x]);
    var rest := s.(live := s.live - {x});
    forall y, a | Owned(mem, rest, y, a)
      ensures a in mem && a != x && y != x
    {
      assert Owned(mem, s, y, a);
      OwnedIsPayload(mem, heads, s, y, a);
    }
  }

  lemma OwnedOutside(mem: Memory, heads: seq<u64>, s: Shape, y: u64, a: u64, h: u64)
    requires Inv(mem, heads, s) && Owned(mem, s, y, a) && h in s.huge && y != h
    ensures !(h <= a < h + s.huge[h])
  {
    assert HugeAt(mem, h, s.huge[h]);
    if y in s.live {
      InsideBlock(mem, s, y, a);
      LiveBucket(mem, s, y);
      if h <= a { PageWithin(a, h); }
    } else {
      assert HugeAt(mem, y, s.huge[y]);
      HugeAlignValue(mem[y]);
    }
  }

  lemma UnmapPreserves(mem: Memory, heads: seq<u64>, s: Shape, h: u64)
    requires Inv(mem, heads, s) && h in s.huge && h !in s.live
    ensures var rest := s.(huge := s.huge - {h}); Preserved(mem, rest, Unmapped(mem, h, s.huge[h]), rest)
  {
    UnmapKeeps(mem, heads, s, h);
    var rest := s.(huge := s.huge - {h});
    var mem' := Unmapped(mem, h, s.huge[h]);
    forall y, a | Owned(mem, rest, y, a)
      ensures Owned(mem', rest, y, a) && a in mem && a in mem'
    {
      assert Owned(mem, s, y, a) && y != h;
      OwnedIsPayload(mem, heads, s, y, a);
      OwnedOutside(mem, heads, s, y, a, h);
      assert y in rest.live ==> LiveAt(mem', rest.pages, y, rest.live[y]);
      assert y in rest.huge ==> HugeAt(mem', y, rest.huge[y]);
    }
  }

  // ----- malloc and free

  /** What the kernel answers when asked for memory. */
  datatype Reply = Pages(base: u64, contents: Memory) | Refused(code: nat)

  ghost predicate Answers(r: Reply, mem: Memory, len: nat)
  {
    r.Pages? ==>
      && FreshRegion(mem, r.base, len)
      && forall a: u64 :: a in r.contents <==> r.base <= a < r.base + len && a % 8 == 0
  }

  /** The size with its header, in 64-bit arithmetic. */
  function Total(size: u64): u64 { Add64(size, META_OFFSET) }

  /** How much memory a call may ask the kernel for. */
  function MapLength(size: u64): nat { if Total(size) >= 4096 then HugeAlign(Total(size)) else 4096 }

  /** What is stored in the header of a small block. */
  function Stored(size: u64): u64 { if Total(size) < MIN_ALLOC_SIZE then MIN_ALLOC_SIZE else Total(size) }

  /** A request that fits its block, header included. */
  ghost predicate Fits(s: Shape, ptr: u64, size: u64)
  {
    && ptr >= META_OFFSET && (ptr - META_OFFSET in s.live || ptr - META_OFFSET in s.huge)
    && META_OFFSET + size <= Room(s, ptr - META_OFFSET)
  }

  lemma FitsSmall(s: Shape, x: u64, size: u64)
    requires x in s.live && s.live[x] <= MAX_BUCKET && size > 0 && Total(size) < 4096
    requires s.live[x] == Bucket(Stored(size)) && x + META_OFFSET < W64
    ensures Fits(s, x + META_OFFSET, size) <==> size < 0xffff_ffff_ffff_fff0
    ensures Aligned(x, s.live[x]) && size < 0xffff_ffff_ffff_fff0 ==> (x + META_OFFSET) % 16 == 0
  {
    var b := s.live[x];
    var room := Pow2(b);
    assert Fits(s, x + META_OFFSET, size) <==> META_OFFSET + size <= room;
    assert META_OFFSET == 16;
    hide *;
    StoredValue(size);
    TwoTo12();
    Pow2Mono(b, 12);
    BucketFits(Stored(size));
    if Aligned(x, b) && size < 0xffff_ffff_ffff_fff0 {
      AlignedSixteen(x, b);
      DivModUnique(x + 16, 16, x / 16 + 1, 0);
    }
  }

  lemma StoredValue(size: u64)
    ensures size < 0xffff_ffff_ffff_fff0 ==> Total(size) == size + 16
    ensures size >= 0xffff_ffff_ffff_fff0 ==> Total(size) == size - 0xffff_ffff_ffff_fff0
    ensures size > 0 && Total(size) < 4096 ==>
              8 <= Stored(size) < 4096 && (size < 0xffff_ffff_ffff_fff0 ==> Stored(size) == size + 16)
  {
  }

  lemma AlignedSixteen(x: nat, b: nat)
    requires Aligned(x, b) && b >= 4
    ensures x % 16 == 0
  {
    Pow2Add(b - 4, 4);
    var q, k := Pow2(b - 4), x / Pow2(b);
    assert Pow2(4) == 16;
    DivModSpec(x, Pow2(b));
    assert x == k * (q * 16) == k * q * 16;
    DivMulCancel(k * q, 16);
  }

  lemma FitsHuge(s: Shape, x: u64, size: u64)
    requires x !in s.live && x in s.huge && s.huge[x] == HugeAlign(Total(size)) && Total(size) >= 4096 && s.huge[x] > 0
    requires x + META_OFFSET < W64 && x % 4096 == 0
    ensures size < 0xffff_ffff_ffff_fff0 && Fits(s, x + META_OFFSET, size) && (x + META_OFFSET) % 16 == 0
  {
    assert Room(s, x) == s.huge[x] && META_OFFSET == 16;
    assert Fits(s, x + META_OFFSET, size) <==> 16 + size <= Room(s, x);
    hide *;
    HugeAlignValue(Total(size));
    StoredValue(size);
    SixteenPast(x);
  }

  lemma SixteenPast(x: nat)
    requires x % 4096 == 0
    ensures (x + 16) % 16 == 0
  {
    DivModUnique(x + 16, 16, x / 4096 * 256 + 1, 0);
  }

  /** What a successful call for size bytes does to the heap. */
  ghost predicate Allocated(mem: Memory, s: Shape, mem': Memory, s': Shape, ptr: u64, size: u64)
  {
    && ptr > META_OFFSET
    && var x := ptr - META_OFFSET;
    && x !in s.live && x !in s.huge && x in mem' && mem'[x] == Stored(size)
    && (if Total(size) >= 4096 then s'.live == s.live && s'.huge == s.huge[x := HugeAlign(Total(size))]
        else s'.huge == s.huge && s'.live == s.live[x := Bucket(Stored(size))])
    && Preserved(mem, s, mem', s')
    && (Fits(s', ptr, size) <==> size < 0xffff_ffff_ffff_fff0)
    && (size < 0xffff_ffff_ffff_fff0 ==> ptr % 16 == 0)
  }

  /** A large block and a block of a page never start at the same address. */
  lemma Separate(mem: Memory, heads: seq<u64>, s: Shape, x: u64)
    requires Inv(mem, heads, s)
    ensures !(x in s.live && x in s.huge)
    ensures x in s.live ==> 4096 <= x < 0xffff_ffff_ffff_f000 && s.live[x] <= MAX_BUCKET && Aligned(x, s.live[x])
    ensures x in s.huge ==> 4096 <= x < 0xffff_ffff_ffff_f000 && x % 4096 == 0 && s.huge[x] > 0
  {
    hide HugeAlign, Bucket, SizeOf, Aligned;
    assert x in s.huge ==> HugeAt(mem, x, s.huge[x]);
    if x in s.live {
      LiveBucket(mem, s, x);
      HugeApart(mem, heads, s, s.live[x], x);
      LiveRange(mem, s, x);
    }
  }

  lemma LiveRange(mem: Memory, s: Shape, x: u64)
    requires PagesOk(mem, s.pages) && LiveOk(mem, s) && x in s.live
    ensures 4096 <= x < 0xffff_ffff_ffff_f000
  {
    var p := PageOf(x);
    LiveBucket(mem, s, x);
    assert PageAt(mem, p, s.pages[p]);
    RoundDown(x);
    PageFloor(p);
    hide PageOf, PagesOk, LiveOk, LiveAt;
  }

  lemma PageFloor(p: nat)
    requires p % 4096 == 0 && p > 0
    ensures p >= 4096
  {
  }

  lemma SmallAllocated(mem: Memory, s: Shape, mem': Memory, heads': seq<u64>, s': Shape, x: u64, size: u64)
    requires size > 0 && Total(size) < 4096 && x !in s.live && Inv(mem', heads', s')
    requires s'.huge == s.huge && s'.live == s.live[x := Bucket(Stored(size))]
    requires x in mem' && mem'[x] == Stored(size) && Preserved(mem, s, mem', s')
    ensures x + META_OFFSET < W64 && Allocated(mem, s, mem', s', x + META_OFFSET, size)
  {
    Separate(mem', heads', s', x);
    FitsSmall(s', x, size);
    hide Fits, Preserved, Bucket, Stored, Total, HugeAlign, Inv, Aligned;
  }

  lemma HugeAllocated(mem: Memory, s: Shape, mem': Memory, heads': seq<u64>, s': Shape, x: u64, size: u64)
    requires Total(size) >= 4096 && x !in s.huge && Inv(mem', heads', s')
    requires s'.live == s.live && s'.huge == s.huge[x := HugeAlign(Total(size))]
    requires x in mem' && mem'[x] == Total(size) && Preserved(mem, s, mem', s')
    ensures x + META_OFFSET < W64 && Allocated(mem, s, mem', s', x + META_OFFSET, size)
  {
    Separate(mem', heads', s', x);
    FitsHuge(s', x, size);
    assert Stored(size) == Total(size);
    hide Fits, Preserved, Bucket, Stored, Total, HugeAlign, Inv, Aligned;
  }

  /** New memory beside the old. */
  lemma Joined(mem: Memory, r: Reply, len: nat)
    requires r.Pages? && Answers(r, mem, len)
    ensures FreshRegion(mem, r.base, len) && Extends(mem, mem + r.contents)
    ensures Mapped(mem + r.contents, r.base, len) && r.base in mem + r.contents
  {
    PageWord(r.base);
  }

  lemma TakeAllocates(mem: Memory, heads: seq<u64>, s: Shape, size: u64)
    requires Inv(mem, heads, s) && size > 0 && Total(size) < 4096
    requires Bucket(Stored(size)) <= MAX_BUCKET && heads[Bucket(Stored(size))] != 0
    ensures var b := Bucket(Stored(size)); var x := heads[b]; var mem' := mem[x := Stored(size)];
      && x in mem && s.lists[b] != [] && x + META_OFFSET < W64
      && Inv(mem', heads[b := mem[x]], Taken(s, b, x))
      && Allocated(mem, s, mem', Taken(s, b, x), x + META_OFFSET, size)
  {
    var b := Bucket(Stored(size));
    StoredValue(size);
    TakeKeeps(mem, heads, s, b, Stored(size));
    hide *;
    TakePreserves(mem, heads, s, b, Stored(size));
    TakenShape(s, b, heads[b]);
    SmallAllocated(mem, s, mem[heads[b] := Stored(size)], heads[b := mem[heads[b]]], Taken(s, b, heads[b]), heads[b],
                   size);
  }

  lemma TakenShape(s: Shape, b: nat, x: u64)
    requires b < |s.lists| && s.lists[b] != []
    ensures Taken(s, b, x).huge == s.huge && Taken(s, b, x).live == s.live[x := b]
  {
  }

  lemma CarvedShape(s: Shape, b: nat, p: u64)
    requires b < |s.lists| && p + 4096 <= 0x1_0000_0000_0000_0000
    ensures Carved(s, b, p).huge == s.huge && Carved(s, b, p).live == s.live[p := b]
    ensures s.live.Keys <= Carved(s, b, p).live.Keys
  {
  }

  lemma StoredSize(size: u64)
    requires size > 0 && Total(size) < 4096
    ensures SizeOf(Stored(size), Bucket(Stored(size))) && MAX_BUCKET == 12
  {
    StoredValue(size);
    hide Bucket;
  }

  lemma PageEnds(mem: Memory, p: u64)
    requires FreshRegion(mem, p, 4096)
    ensures p + 4096 <= 0xffff_ffff_ffff_f000 && p + META_OFFSET < W64 == 0x1_0000_0000_0000_0000
  {
  }

  lemma CarveAllocates(mem: Memory, mem': Memory, heads: seq<u64>, s: Shape, p: u64, size: u64)
    requires Inv(mem, heads, s) && size > 0 && Total(size) < 4096
    requires 3 <= Bucket(Stored(size)) <= MAX_BUCKET && heads[Bucket(Stored(size))] == 0
    requires FreshRegion(mem, p, 4096) && Extends(mem, mem') && Mapped(mem', p, 4096)
    requires Linked(mem', p + Pow2(Bucket(Stored(size))), p + 4096, Bucket(Stored(size)))
    requires p in mem' && mem'[p] == Stored(size)
    ensures var b := Bucket(Stored(size));
      && CarvedHead(p, b) < W64 && p + META_OFFSET < W64 && p + 4096 < W64
      && Inv(mem', heads[b := CarvedHead(p, b)], Carved(s, b, p))
      && Allocated(mem, s, mem', Carved(s, b, p), p + META_OFFSET, size)
  {
    hide *;
    StoredValue(size);
    StoredSize(size);
    var b := Bucket(Stored(size));
    PageEnds(mem, p);
    ThirteenLists(mem, heads, s);
    CarveKeeps(mem, mem', heads, s, b, p, Stored(size));
    CarvedShape(s, b, p);
    ExtendPreserves(mem, mem', heads, s, Carved(s, b, p));
    SmallAllocated(mem, s, mem', heads[b := CarvedHead(p, b)], Carved(s, b, p), p, size);
  }

  lemma MapAllocates(mem: Memory, mem': Memory, heads: seq<u64>, s: Shape, p: u64, size: u64)
    requires Inv(mem, heads, s) && Total(size) >= 4096
    requires var len := HugeAlign(Total(size)); FreshRegion(mem, p, len) && Mapped(mem', p, len)
    requires Extends(mem, mem') && p in mem' && mem'[p] == Total(size)
    ensures p + META_OFFSET < W64
    ensures var s' := s.(huge := s.huge[p := HugeAlign(Total(size))]);
      Inv(mem', heads, s') && Allocated(mem, s, mem', s', p + META_OFFSET, size)
  {
    var s' := s.(huge := s.huge[p := HugeAlign(Total(size))]);
    hide *;
    MapKeeps(mem, mem', heads, s, p, HugeAlign(Total(size)), Total(size));
    ExtendPreserves(mem, mem', heads, s, s');
    HugeAllocated(mem, s, mem', heads, s', p, size);
  }

  lemma OldWords(mem: Memory, mem': Memory)
    requires Extends(mem, mem')
    ensures forall a :: a in mem ==> a in mem' && mem'[a] == mem[a]
  {
  }

  /** Writing the header of a new block leaves the old memory alone. */
  lemma Overwritten(mem: Memory, mem': Memory, p: u64, len: nat, v: u64)
    requires FreshRegion(mem, p, len) && Extends(mem, mem') && Mapped(mem', p, len)
    ensures Extends(mem, mem'[p := v]) && Mapped(mem'[p := v], p, len)
  {
  }

  lemma CarvedOver(mem: Memory, joined: Memory, mem': Memory, p: u64, b: nat, v: u64)
    requires FreshRegion(mem, p, 4096) && Extends(mem, joined) && Mapped(joined, p, 4096) && mem'.Keys == joined.Keys
    requires forall a :: a in mem' && !(p <= a < p + 4096) ==> mem'[a] == joined[a]
    requires Linked(mem', p + Pow2(b), p + 4096, b)
    ensures Extends(mem, mem'[p := v]) && Mapped(mem'[p := v], p, 4096)
    ensures Linked(mem'[p := v], p + Pow2(b), p + 4096, b)
  {
    hide Aligned;
  }

  lemma PageBounds(mem: Memory, p: u64, len: nat)
    requires FreshRegion(mem, p, len)
    ensures p % 4096 == 0 && 0 < p && p + len <= 0xffff_ffff_ffff_f000
  {
  }

  lemma ThirteenLists(mem: Memory, heads: seq<u64>, s: Shape)
    requires Inv(mem, heads, s)
    ensures |heads| == |s.lists| == MAX_BUCKET + 1
  {
  }

  lemma AddOffset(meta: u64)
    requires meta + META_OFFSET < W64
    ensures 0 < Add64(meta, 16) == meta + META_OFFSET
  {
  }

  /** The header of a live block tells `free` where it came from. */
  lemma HeaderTells(mem: Memory, heads: seq<u64>, s: Shape, x: u64)
    requires Inv(mem, heads, s) && (x in s.live || x in s.huge)
    ensures x in mem
    ensures x in s.live ==> 8 <= mem[x] < 4096 && Bucket(mem[x]) == s.live[x] <= MAX_BUCKET && x !in s.huge
    ensures x !in s.live ==> mem[x] >= 4096 && HugeAlign(mem[x]) == s.huge[x]
  {
    Separate(mem, heads, s, x);
    if x in s.live { LiveBucket(mem, s, x); }
    assert x in s.huge ==> HugeAt(mem, x, s.huge[x]);
  }

  lemma StoredBucket(size: u64)
    requires size > 0
    ensures Total(size) < 4096 ==> 8 <= Stored(size) < 4096 && 3 <= Bucket(Stored(size)) <= MAX_BUCKET
    ensures Stored(size) == if Total(size) < 8 then 8 else Total(size)
    ensures MapLength(size) == if Total(size) >= 4096 then HugeAlign(Total(size)) else 4096
  {
    StoredValue(size);
    if Total(size) < 4096 { BucketFits(Stored(size)); }
  }

  class Allocator {
    var mem: Memory
    const allocFree: array<u64>
    var errno: nat
    ghost var shape: Shape

    ghost predicate Valid()
      reads `mem, `shape, allocFree
    {
      allocFree.Length == MAX_BUCKET + 1 && Inv(mem, allocFree[..], shape)
    }

    /** Program start: nothing is mapped and all lists are empty. */
    constructor ()
      ensures Valid() && mem == map[] && fresh(allocFree)
    {
      mem := map[];
      errno := 0;
      allocFree := new u64[13](i => 0);
      shape := Shape(seq(13, i => []), map[], map[], map[]);
    }

    /** Whether the call has to ask the kernel for memory. */
    ghost predicate NeedsMemory(size: u64)
      reads this, allocFree
      requires allocFree.Length == MAX_BUCKET + 1 && size > 0
    {
      StoredBucket(size);
      Total(size) >= 4096 || allocFree[Bucket(Stored(size))] == 0
    }

    lemma ThirteenBuckets()
      requires Valid()
      ensures allocFree.Length == MAX_BUCKET + 1 == 13 && ZERO_PTR == 16
    {
    }

    lemma NeedsIs(size: u64)
      requires allocFree.Length == MAX_BUCKET + 1 == 13 && size > 0
      ensures Total(size) >= 4096 ==> NeedsMemory(size)
      ensures Total(size) < 4096 ==>
                && 2 <= Stored(size) && Bucket(Stored(size)) <= 12
                && (NeedsMemory(size) <==> allocFree[Bucket(Stored(size))] == 0)
    {
      StoredBucket(size);
      hide Bucket, Stored, Total;
    }

    /** The branch for large requests (lines 17-30). */
    method AllocateLarge(size: u64, reply: Reply) returns (meta: u64)
      requires Valid() && Total(size) >= 4096 && Answers(reply, mem, HugeAlign(Total(size)))
      modifies this
      ensures Valid() && allocFree[..] == old(allocFree[..])
      ensures meta == 0 <==> reply.Refused?
      ensures meta == 0 ==> errno == reply.code && mem == old(mem) && shape == old(shape)
      ensures meta != 0 ==>
                && errno == old(errno) && meta == reply.base && mem.Keys == (old(mem) + reply.contents).Keys
                && forall a :: a in old(mem) ==> mem[a] == old(mem)[a]
      ensures meta != 0 ==>
                meta + META_OFFSET < W64 && Allocated(old(mem), old(shape), mem, shape, meta + META_OFFSET, size)
    {
      hide Inv, Allocated, Answers, FreshRegion, Extends, Mapped, Linked, Bucket, Stored, Total, HugeAlign, Taken,
           Carved, CarvedHead, Pow2, Aligned;
      if reply.Refused? {
        errno := reply.code;
        return 0;
      }
      Joined(mem, reply, HugeAlign(Total(size)));
      PageBounds(mem, reply.base, HugeAlign(Total(size)));
      meta := reply.base;
      mem := mem + reply.contents;
      mem := mem[meta := Total(size)];
      shape := shape.(huge := shape.huge[meta := HugeAlign(Total(size))]);
      Overwritten(old(mem), old(mem) + reply.contents, reply.base, HugeAlign(Total(size)), Total(size));
      MapAllocates(old(mem), mem, allocFree[..], old(shape), meta, size);
      OldWords(old(mem), mem);
    }

    /** Popping the list of the bucket (lines 37-38, 71-74). */
    method TakeBlock(size: u64, bucket: nat) returns (obj: u64)
      requires Valid() && size > 0 && Total(size) < 4096 && bucket == Bucket(Stored(size)) <= MAX_BUCKET
      requires allocFree[bucket] != 0
      modifies this, allocFree
      ensures Valid() && obj == old(allocFree[bucket]) && errno == old(errno)
      ensures obj in old(mem) && mem == old(mem)[obj := Stored(size)]
      ensures allocFree[..] == old(allocFree[..])[bucket := old(mem)[obj]]
      ensures obj + META_OFFSET < W64 && Allocated(old(mem), old(shape), mem, shape, obj + META_OFFSET, size)
    {
      hide Inv, Allocated, Answers, FreshRegion, Extends, Mapped, Linked, Bucket, Stored, Total, HugeAlign, Taken,
           Carved, CarvedHead, Pow2, Aligned;
      TakeAllocates(mem, allocFree[..], shape, size);
      ThirteenLists(mem, allocFree[..], shape);
      obj := allocFree[bucket];
      allocFree[bucket] := mem[obj];
      shape := Taken(shape, bucket, obj);
      mem := mem[obj := Stored(size)];
      assert allocFree[..] == old(allocFree[..])[bucket := old(mem)[obj]];
    }

    /** Cutting a new page (lines 40-69, 71-74). */
    method CutPage(size: u64, bucket: nat, base: u64, contents: Memory)
      requires Valid() && size > 0 && Total(size) < 4096 && 3 <= bucket == Bucket(Stored(size)) <= MAX_BUCKET
      requires allocFree[bucket] == 0 && Answers(Pages(base, contents), mem, 4096)
      modifies this, allocFree
      ensures Valid() && base != 0 && errno == old(errno)
      ensures mem.Keys == (old(mem) + contents).Keys
      ensures forall a :: a in old(mem) ==> mem[a] == old(mem)[a]
      ensures CarvedHead(base, bucket) < W64
      ensures allocFree[..] == old(allocFree[..])[bucket := CarvedHead(base, bucket)]
      ensures base + META_OFFSET < W64 && Allocated(old(mem), old(shape), mem, shape, base + META_OFFSET, size)
    {
      hide Inv, Allocated, Answers, FreshRegion, Extends, Mapped, Linked, Bucket, Stored, Total, HugeAlign, Taken,
           Carved, CarvedHead, Pow2, Aligned;
      Joined(mem, Pages(base, contents), 4096);
      PageBounds(mem, base, 4096);
      ThirteenLists(mem, allocFree[..], shape);
      mem := mem + contents;
      Carve(bucket, base);
      shape := Carved(shape, bucket, base);
      CarvedOver(old(mem), old(mem) + contents, mem, base, bucket, Stored(size));
      mem := mem[base := Stored(size)];
      CarveAllocates(old(mem), mem, old(allocFree[..]), old(shape), base, size);
    }

    /** `malloc` (malloc.c:11-76) */
    method Malloc(size: u64, reply: Reply) returns (ptr: u64)
      requires Valid() && Answers(reply, mem, MapLength(size))
      modifies this, allocFree
      ensures Valid()
      ensures size == 0 ==> ptr == ZERO_PTR
      ensures ptr != 0 ==> errno == old(errno)
      ensures size != 0 && !old(NeedsMemory(size)) ==>
                var b := Bucket(Stored(size));
                && b <= MAX_BUCKET && var x := old(allocFree[..])[b];
                && ptr == x + META_OFFSET && x in old(mem) && mem == old(mem)[x := Stored(size)]
                && allocFree[..] == old(allocFree[..])[b := old(mem)[x]]
      ensures size != 0 && old(NeedsMemory(size)) && reply.Pages? ==>
                && ptr == reply.base + META_OFFSET && mem.Keys == (old(mem) + reply.contents).Keys
                && forall a :: a in old(mem) ==> mem[a] == old(mem)[a]
      ensures ptr == 0 <==> size != 0 && reply.Refused? && old(NeedsMemory(size))
      ensures ptr == 0 ==> errno == reply.code
      ensures size == 0 || ptr == 0 ==> mem == old(mem) && shape == old(shape) && allocFree[..] == old(allocFree[..])
      ensures size != 0 && ptr != 0 ==> Allocated(old(mem), old(shape), mem, shape, ptr, size)
    {
      hide *;
      ThirteenBuckets();
      if size == 0 { return ZERO_PTR; }
      StoredBucket(size);
      NeedsIs(size);
      var meta: u64;
      if Total(size) >= 4096 {
        meta := AllocateLarge(size, reply);
      } else {
        var total := if Total(size) < 8 then 8 else Total(size);
        var bucket := Bucket(total);
        assert bucket < allocFree.Length;
        if allocFree[bucket] != 0 {
          meta := TakeBlock(size, bucket);
        } else if reply.Refused? {
          errno := reply.code;
          return 0;
        } else {
          meta := reply.base;
          CutPage(size, bucket, reply.base, reply.contents);
        }
      }
      if meta == 0 { return 0; }
      AddOffset(meta);
      ptr := Add64(meta, 16);
    }

    /** `free` (free.c:7-23) */
    method Free(ptr: u64)
      requires Valid()
      requires ptr == 0 || ptr == ZERO_PTR ||
                 (ptr > META_OFFSET && (ptr - META_OFFSET in shape.live || ptr - META_OFFSET in shape.huge))
      modifies this`mem, this`shape, allocFree
      ensures Valid()
      ensures ptr == 0 || ptr == ZERO_PTR ==>
                mem == old(mem) && shape == old(shape) && allocFree[..] == old(allocFree[..])
      ensures ptr > META_OFFSET && ptr - META_OFFSET in old(shape).live ==>
                var x := ptr - META_OFFSET; var b := old(shape).live[x];
                && b <= MAX_BUCKET && mem == old(mem)[x := old(allocFree[..])[b]] && x in old(mem)
                && allocFree[..] == old(allocFree[..])[b := x]
                && shape == Released(old(shape), b, x)
                && Preserved(old(mem), old(shape).(live := old(shape).live - {x}), mem, shape)
      ensures ptr > META_OFFSET && ptr - META_OFFSET !in old(shape).live ==>
                var x := ptr - META_OFFSET;
                && shape == old(shape).(huge := old(shape).huge - {x})
                && Preserved(old(mem), shape, mem, shape)
                && allocFree[..] == old(allocFree[..])
                && var len := old(shape).huge[x];
                && FreshRegion(mem, x, len)
                && forall a: u64 :: a in old(mem) && !(x <= a < x + len) ==> a in mem && mem[a] == old(mem)[a]
    {
      if ptr == 0 || ptr == ZERO_PTR { return; }
      var meta := ptr - META_OFFSET;
      HeaderTells(mem, allocFree[..], shape, meta);
      ThirteenLists(mem, allocFree[..], shape);
      hide Inv, Bucket, HugeAlign, Unmapped, Preserved, Released;
      if mem[meta] >= 4096 {
        UnmapKeeps(mem, allocFree[..], shape, meta);
        UnmapPreserves(mem, allocFree[..], shape, meta);
        mem := Unmapped(mem, meta, HugeAlign(mem[meta]));
        shape := shape.(huge := shape.huge - {meta});
        return;
      }
      var bucket := Bucket(mem[meta]);
      ReleaseKeeps(mem, allocFree[..], shape, meta);
      ReleasePreserves(mem, allocFree[..], shape, meta);
      shape := Released(shape, bucket, meta);
      mem := mem[meta := allocFree[bucket]];
      allocFree[bucket] := meta;
      assert allocFree[..] == old(allocFree[..])[bucket := meta];
    }

    /** Anything a caller may do: writing a word of its own block. */
    method Store(ghost x: u64, a: u64, v: u64)
      requires Valid() && Owned(mem, shape, x, a)
      modifies this`mem
      ensures Valid() && mem == old(mem)[a := v]
    {
      StoreKeeps(mem, allocFree[..], shape, x, a, v);
      hide *;
      mem := mem[a := v];
      IsValid();
    }

    /** The same for a single byte: all others stay. */
    method StoreByte(ghost x: u64, i: u64, v: byte)
      requires Valid() && OwnedByte(mem, shape, x, i)
      modifies this`mem
      ensures Valid() && mem.Keys == old(mem).Keys
      ensures i - i % 8 in mem && ByteAt(mem, i) == v
      ensures forall j: u64 {:trigger ByteAt(mem, j)} :: j - j % 8 in mem && j != i ==>
                ByteAt(mem, j) == ByteAt(old(mem), j)
    {
      OwnedByteWord(mem, allocFree[..], shape, x, i);
      var a := i - i % 8;
      var w := mem[a];
      TwoTo64();
      WithByteFits(w, i % 8, v, 8);
      forall j: nat | true
        ensures ByteOf(WithByte(w, i % 8, v), j) == if j == i % 8 then v else ByteOf(w, j)
      {
        WithByteBytes(w, i % 8, v, j);
      }
      Store(x, a, WithByte(w, i % 8, v));
    }

    lemma IsValid()
      requires allocFree.Length == MAX_BUCKET + 1 && Inv(mem, allocFree[..], shape)
      ensures Valid()
    {
    }

    /** Cutting a new page into blocks (lines 54-68): all but the first go to the list. */
    method Carve(bucket: nat, obj: u64)
      requires allocFree.Length == MAX_BUCKET + 1 && 3 <= bucket <= MAX_BUCKET && allocFree[bucket] == 0
      requires obj % 4096 == 0 && 0 < obj && obj + 4096 <= 0xffff_ffff_ffff_f000 && Mapped(mem, obj, 4096)
      modifies this`mem, allocFree
      ensures mem.Keys == old(mem).Keys
      ensures forall a :: a in mem && !(obj <= a < obj + 4096) ==> mem[a] == old(mem)[a]
      ensures Linked(mem, obj + Pow2(bucket), obj + 4096, bucket)
      ensures CarvedHead(obj, bucket) < W64
      ensures allocFree[..] == old(allocFree[..])[bucket := CarvedHead(obj, bucket)]
    {
      hide *;
      CutAligned(obj, bucket);
      BucketNames(mem, obj, bucket);
      if bucket != MAX_BUCKET {
        var objSize := Pow2(bucket);
        var last := obj;
        var offset := objSize;
        while offset < 4096
          invariant offset <= 4096 && last == obj + offset - objSize && obj <= last
          invariant Aligned(last, bucket) && Mapped(mem, obj, 4096)
          invariant mem.Keys == old(mem).Keys && allocFree[..] == old(allocFree[..])
          invariant forall a :: a in mem && !(obj <= a < obj + 4096) ==> mem[a] == old(mem)[a]
          invariant LinkedUpTo(mem, obj, last, bucket)
        {
          var cur := obj + offset;
          InMapped(mem, obj, last, bucket);
          LinkOne(mem, obj, last, bucket);
          MappedSame(mem, obj, 4096, last, cur);
          mem := mem[last := cur];
          NextCell(obj, last, bucket);
          last := cur;
          offset := offset + objSize;
        }
        InMapped(mem, obj, obj, bucket);
        InMapped(mem, obj, last, bucket);
        LastLink(mem, obj, last, bucket);
        mem := mem[last := allocFree[bucket]];
        allocFree[bucket] := mem[obj];
      } else {
        WholePage(mem, obj);
      }
    }
  }

  /** The links that the loop has written so far. */
  ghost predicate LinkedUpTo(mem: Memory, p: u64, last: u64, b: nat)
  {
    forall z: u64 :: p <= z < last && Aligned(z, b) ==> z in mem && mem[z] == z + Pow2(b)
  }

  lemma CutAligned(p: u64, b: nat)
    requires p % 4096 == 0 && 3 <= b <= MAX_BUCKET && p + 4096 <= 0xffff_ffff_ffff_f000
    ensures Aligned(p, b) && Aligned(p + 4096, b) && LinkedUpTo(map[], p, p, b)
    ensures b < MAX_BUCKET ==> 8 <= Pow2(b) <= 2048
    ensures CarvedHead(p, b) < W64
  {
    TwoTo12();
    assert Pow2(3) == 8;
    Pow2Mono(3, b);
    if b < 12 { Pow2Mono(b, 11); }
    PageAligned(p, b);
    PageAligned(p + 4096, b);
  }

  lemma MappedSame(mem: Memory, p: u64, len: nat, a: u64, v: u64)
    requires Mapped(mem, p, len)
    ensures Mapped(mem[a := v], p, len)
  {
  }

  lemma BucketNames(mem: Memory, p: u64, b: nat)
    requires b <= MAX_BUCKET
    ensures MAX_BUCKET == 12 && W64 == 0x1_0000_0000_0000_0000
    ensures p + 4096 <= 0x1_0000_0000_0000_0000 ==> CarvedHead(p, b) == if b == 12 then 0 else p + Pow2(b)
    ensures LinkedUpTo(mem, p, p, b)
  {
  }

  lemma InMapped(mem: Memory, p: u64, x: u64, b: nat)
    requires Mapped(mem, p, 4096) && Aligned(x, b) && 3 <= b && p <= x < p + 4096
    ensures x in mem
  {
    AlignedWord(x, b);
  }

  lemma LinkOne(mem: Memory, p: u64, last: u64, b: nat)
    requires LinkedUpTo(mem, p, last, b) && Aligned(last, b) && last + Pow2(b) < W64
    ensures LinkedUpTo(mem[last := last + Pow2(b)], p, last + Pow2(b), b)
  {
    forall z: u64 | z < last + Pow2(b) && Aligned(z, b)
      ensures z <= last
    {
      if z > last { AlignedApart(last, z, b); }
    }
  }

  lemma NextCell(p: u64, last: u64, b: nat)
    requires Aligned(last, b) && Aligned(p + 4096, b) && last + Pow2(b) < p + 4096
    ensures Aligned(last + Pow2(b), b) && last + 2 * Pow2(b) <= p + 4096
  {
    AlignedNext(last, b);
    AlignedApart(last + Pow2(b), p + 4096, b);
  }

  lemma LastLink(mem: Memory, p: u64, last: u64, b: nat)
    requires LinkedUpTo(mem, p, last, b) && Aligned(last, b) && Aligned(p, b) && last + Pow2(b) == p + 4096
    requires 8 <= Pow2(b) <= 2048 && p in mem && last in mem && p + 4096 < W64
    ensures Linked(mem[last := 0], p + Pow2(b), p + 4096, b) && p != last && mem[p] == p + Pow2(b)
  {
    forall z: u64 | z < p + 4096 && Aligned(z, b)
      ensures z <= last && (z < last ==> z + Pow2(b) <= last)
    {
      if z > last { AlignedApart(last, z, b); }
      if z < last { AlignedApart(z, last, b); }
    }
  }

  lemma WholePage(mem: Memory, p: u64)
    requires p + 4096 <= 0xffff_ffff_ffff_f000
    ensures Linked(mem, p + Pow2(12), p + 4096, 12)
  {
    TwoTo12();
  }

  // ----- conservation

  /** The live blocks of a bucket. */
  function LiveOf(s: Shape, b: nat): set<u64> { set x | x in s.live && s.live[x] == b }

  /** The pages cut for a bucket. */
  function PagesOf(s: Shape, b: nat): set<u64> { set p | p in s.pages && s.pages[p] == b }

  function Elements(s: seq<u64>): set<u64> { set x | x in s }

  lemma {:induction false} DistinctCount(s: seq<u64>)
    requires Distinct(s)
    ensures |Elements(s)| == |s|
    decreases |s|
  {
    if s != [] {
      var rest := s[1..];
      assert Distinct(rest);
      DistinctCount(rest);
      assert Elements(s) == {s[0]} + Elements(rest);
      assert s[0] !in Elements(rest);
    }
  }

  lemma {:induction false} CellsLength(y: nat, end: nat, b: nat, k: nat)
    requires end <= 0x1_0000_0000_0000_0000 && end - y == k * Pow2(b)
    ensures |Cells(y, end, b)| == k
    decreases k
  {
    if k > 0 {
      assert k * Pow2(b) == (k - 1) * Pow2(b) + Pow2(b);
      MulMono(0, k - 1, Pow2(b));
      CellsLength(y + Pow2(b), end, b, k - 1);
    }
  }

  /** Blocks per page. */
  function PerPage(b: nat): nat
    requires b <= MAX_BUCKET
  {
    Pow2(MAX_BUCKET - b)
  }

  /** The blocks of one page. */
  lemma PageBlocks(p: u64, b: nat, blocks: set<u64>)
    requires p % 4096 == 0 && b <= MAX_BUCKET && p + 4096 <= 0xffff_ffff_ffff_f000
    requires forall x: u64 :: x in blocks <==> PageOf(x) == p && Aligned(x, b)
    ensures |blocks| == PerPage(b)
  {
    TwoTo12();
    Pow2Add(12 - b, b);
    PageAligned(p, b);
    CellsAre(p, p + 4096, b);
    CellsLength(p, p + 4096, b, PerPage(b));
    DistinctCount(Cells(p, p + 4096, b));
    forall x: u64
      ensures PageOf(x) == p <==> p <= x < p + 4096
    {
      RoundDown(x);
      if p <= x < p + 4096 { PagePart(p, x); }
    }
    assert blocks == Elements(Cells(p, p + 4096, b));
  }

  lemma {:induction false} CountBlocks(blocks: set<u64>, pages: set<u64>, b: nat)
    requires b <= MAX_BUCKET
    requires forall p :: p in pages ==> p % 4096 == 0 && p + 4096 <= 0xffff_ffff_ffff_f000
    requires forall x: u64 :: x in blocks <==> PageOf(x) in pages && Aligned(x, b)
    ensures |blocks| == |pages| * PerPage(b)
    decreases pages
  {
    hide Aligned, PageOf, Pow2;
    if pages == {} {
      assert blocks == {};
    } else {
      var p :| p in pages;
      var here := set x | x in blocks && PageOf(x) == p;
      var there := blocks - here;
      PageBlocks(p, b, here);
      CountBlocks(there, pages - {p}, b);
      assert blocks == here + there;
      assert |pages| == |pages - {p}| + 1;
      var n, k := |pages - {p}|, PerPage(b);
      assert (n + 1) * k == n * k + k;
    }
  }

  /** No block is lost or made up: live and free blocks of a bucket fill exactly the pages cut for it. */
  lemma Conservation(mem: Memory, heads: seq<u64>, s: Shape, b: nat)
    requires Inv(mem, heads, s) && b <= MAX_BUCKET
    ensures |s.lists[b]| + |LiveOf(s, b)| == |PagesOf(s, b)| * PerPage(b)
  {
    var free, live, pages := Elements(s.lists[b]), LiveOf(s, b), PagesOf(s, b);
    DistinctCount(s.lists[b]);
    forall x: u64
      ensures x in free + live <==> PageOf(x) in pages && Aligned(x, b)
    {
      assert x in s.live ==> LiveAt(mem, s.pages, x, s.live[x]);
      assert x in free ==> Slot(s.pages, b, x);
      assert PageOf(x) in pages && Aligned(x, b) <==> Slot(s.pages, b, x);
    }
    assert forall p :: p in pages ==> PageAt(mem, p, b);
    CountBlocks(free + live, pages, b);
    assert |free + live| == |free| + |live|;
  }

  // ----- blocks never overlap

  /** A block of the heap, live or free, and its size. */
  ghost predicate IsBlock(s: Shape, x: u64, len: nat)
  {
    || (x in s.live && len == Pow2(s.live[x]))
    || (exists b :: 0 <= b < |s.lists| && x in s.lists[b] && len == Pow2(b))
    || (x in s.huge && len == s.huge[x])
  }

  lemma NeverOverlap(mem: Memory, heads: seq<u64>, s: Shape, x: u64, lenX: nat, y: u64, lenY: nat)
    requires Inv(mem, heads, s) && IsBlock(s, x, lenX) && IsBlock(s, y, lenY) && x < y
    ensures x + lenX <= y
  {
    if x in s.huge && lenX == s.huge[x] {
      if !(y in s.huge) {
        var c := SlotOf(mem, heads, s, y, lenY);
        HugeApart(mem, heads, s, c, y);
      }
    } else {
      var b := SlotOf(mem, heads, s, x, lenX);
      if y in s.huge && lenY == s.huge[y] {
        assert HugeAt(mem, y, s.huge[y]);
        BlockInPage(s.pages, b, x);
        PageStart(y);
        BeforePage(x, y);
      } else {
        var c := SlotOf(mem, heads, s, y, lenY);
        BlocksDisjoint(mem, s.pages, b, x, c, y);
      }
    }
  }

  lemma SlotOf(mem: Memory, heads: seq<u64>, s: Shape, x: u64, len: nat) returns (b: nat)
    requires Inv(mem, heads, s) && IsBlock(s, x, len) && !(x in s.huge && len == s.huge[x])
    ensures b <= MAX_BUCKET && Slot(s.pages, b, x) && len == Pow2(b)
  {
    if x in s.live && len == Pow2(s.live[x]) {
      b := s.live[x];
      LiveBucket(mem, s, x);
    } else {
      b :| 0 <= b < |s.lists| && x in s.lists[b] && len == Pow2(b);
    }
  }

  lemma PageStart(y: u64)
    requires y % 4096 == 0
    ensures PageOf(y) == y
  {
  }

  lemma BeforePage(x: u64, y: u64)
    requires x < y && PageOf(y) == y
    ensures PageOf(x) + 4096 <= y
  {
    RoundDown(x);
    if PageOf(x) != PageOf(y) { PagesApart(x, y); }
  }

  /** A request that wraps around gets a block that does not even hold its own header. */
  lemma WrappedRequest()
    ensures Total(0xffff_ffff_ffff_fff0) == 0 && Stored(0xffff_ffff_ffff_fff0) == 8 && Bucket(8) == 3 && Pow2(3) == 8
  {
    BitLenUnique(7, 3);
  }
}
