/**
  `qsort` on raw bytes.  Its `swap` exchanges the first byte of the two records once per byte of a record, so
  that it does nothing for records of an even size and exchanges just the first bytes for those of an odd one.
 */
module Qsort {
  import opened Words
  import opened Heapsort

  // ----- records in a byte sequence

  lemma IndexFits(i: nat, n: nat, size: nat)
    requires i < n
    ensures i * size + size <= n * size
    ensures (i + 1) * size == i * size + size
  {
    MulMono(i + 1, n, size);
  }

  /** The length of n records. */
  predicate Fits(length: nat, n: nat, size: nat) { length == n * size }

  /** The i-th of n records. */
  function RecordAt(a: seq<byte>, n: nat, size: nat, i: nat): (r: Record)
    requires Fits(|a|, n, size) && i < n
    ensures |r| == size
  {
    IndexFits(i, n, size);
    a[i * size..i * size + size]
  }

  function Records(a: seq<byte>, n: nat, size: nat): seq<Record>
    requires Fits(|a|, n, size)
  {
    seq(n, i requires 0 <= i < n => RecordAt(a, n, size, i))
  }

  function SwapBytes(a: seq<byte>, p: nat, q: nat): seq<byte>
    requires p < |a| && q < |a|
  {
    a[p := a[q]][q := a[p]]
  }

  /** What `swap` does. */
  function SwapRecords(a: seq<byte>, n: nat, size: nat, i: nat, j: nat): (r: seq<byte>)
    requires Fits(|a|, n, size) && i < n && j < n
    ensures |r| == |a|
  {
    IndexFits(i, n, size);
    IndexFits(j, n, size);
    if size % 2 == 1 then SwapBytes(a, i * size, j * size) else a
  }

  /** `swap` (qsort.c:6-17) */
  method Swap(b: array<byte>, i1: nat, i2: nat, size: nat, ghost n: nat)
    requires Fits(b.Length, n, size) && i1 < n && i2 < n
    modifies b
    ensures b[..] == SwapRecords(old(b[..]), n, size, i1, i2)
  {
    IndexFits(i1, n, size);
    IndexFits(i2, n, size);
    var p, q := i1 * size, i2 * size;
    ghost var was := b[..];
    var i := 0;
    while i < size
      invariant i <= size
      invariant b[..] == if i % 2 == 1 then SwapBytes(was, p, q) else was
    {
      var c1 := b[p];
      b[p] := b[q];
      b[q] := c1;
      i := i + 1;
    }
  }

  // ----- the algorithm on bytes

  predicate Less(a: seq<byte>, n: nat, size: nat, i: nat, j: nat, cmp: Comparator)
    requires Fits(|a|, n, size) && i < n && j < n
  {
    cmp(RecordAt(a, n, size, i), RecordAt(a, n, size, j)) < 0
  }

  /** The larger child of root. */
  function ByteChild(a: seq<byte>, n: nat, size: nat, root: nat, end: nat, cmp: Comparator): nat
    requires Fits(|a|, n, size) && end <= n && 2 * root + 1 < end
  {
    var child := 2 * root + 1;
    if child + 1 < end && Less(a, n, size, child, child + 1, cmp) then child + 1 else child
  }

  function ByteSift(a: seq<byte>, n: nat, size: nat, root: nat, end: nat, cmp: Comparator): (r: seq<byte>)
    requires Fits(|a|, n, size) && end <= n
    ensures |r| == |a|
    decreases end - root
  {
    if 2 * root + 1 >= end then a
    else
      var child := ByteChild(a, n, size, root, end, cmp);
      if Less(a, n, size, root, child, cmp) then
        ByteSift(SwapRecords(a, n, size, root, child), n, size, child, end, cmp)
      else a
  }

  function ByteRun(a: seq<byte>, n: nat, size: nat, start: nat, end: nat, cmp: Comparator): (r: seq<byte>)
    requires Fits(|a|, n, size) && end <= n
    ensures |r| == |a|
    decreases start + end
  {
    if end <= 1 then a
    else if start > 0 then ByteRun(ByteSift(a, n, size, start - 1, end, cmp), n, size, start - 1, end, cmp)
    else ByteRun(ByteSift(SwapRecords(a, n, size, end - 1, 0), n, size, 0, end - 1, cmp), n, size, 0, end - 1, cmp)
  }

  /** What `qsort` leaves of n records. */
  function Sorted(a: seq<byte>, n: nat, size: nat, cmp: Comparator): (r: seq<byte>)
    requires Fits(|a|, n, size)
    ensures |r| == |a|
  {
    ByteRun(a, n, size, n / 2, n, cmp)
  }

  /** The call of the comparator on two records of the array. */
  method Compare(base: array<byte>, i: nat, j: nat, size: nat, cmp: Comparator, ghost n: nat) returns (c: int)
    requires Fits(base.Length, n, size) && i < n && j < n
    ensures c < 0 <==> Less(base[..], n, size, i, j, cmp)
  {
    IndexFits(i, n, size);
    IndexFits(j, n, size);
    var p, q := i * size, j * size;
    assert base[p..p + size] == base[..][p..p + size] && base[q..q + size] == base[..][q..q + size];
    c := cmp(base[p..p + size], base[q..q + size]);
  }

  /** The choice of a child (lines 35-37). */
  method ChooseChild(base: array<byte>, root: nat, end: nat, size: nat, cmp: Comparator,
                     ghost n: nat) returns (child: nat)
    requires Fits(base.Length, n, size) && end <= n && 2 * root + 1 < end
    ensures child == ByteChild(base[..], n, size, root, end, cmp)
  {
    hide *;
    SiftStep(base[..], n, size, root, end, cmp);
    child := 2 * root + 1;
    if child + 1 < end {
      var c := Compare(base, child, child + 1, size, cmp, n);
      if c < 0 { child := child + 1; }
    }
  }

  /** The inner loop (lines 34-46). */
  method SiftDown(base: array<byte>, start: nat, end: nat, size: nat, cmp: Comparator, ghost n: nat)
    requires Fits(base.Length, n, size) && end <= n
    modifies base
    ensures base[..] == ByteSift(old(base[..]), n, size, start, end, cmp)
  {
    var root := start;
    var child := 2 * root + 1;
    ghost var result := ByteSift(base[..], n, size, start, end, cmp);
    hide *;
    while child < end
      invariant child == 2 * root + 1
      invariant result == ByteSift(base[..], n, size, root, end, cmp)
      decreases end - root
    {
      SiftStep(base[..], n, size, root, end, cmp);
      child := ChooseChild(base, root, end, size, cmp, n);
      var d := Compare(base, root, child, size, cmp, n);
      if d < 0 {
        Swap(base, root, child, size, n);
        root := child;
        child := 2 * root + 1;
      } else {
        return;
      }
    }
    SiftStops(base[..], n, size, root, end, cmp);
  }

  lemma SiftStep(a: seq<byte>, n: nat, size: nat, root: nat, end: nat, cmp: Comparator)
    requires Fits(|a|, n, size) && end <= n && 2 * root + 1 < end
    ensures var child := ByteChild(a, n, size, root, end, cmp); var c := 2 * root + 1;
      && c <= child < end
      && child == (if c + 1 < end && Less(a, n, size, c, c + 1, cmp) then c + 1 else c)
      && ByteSift(a, n, size, root, end, cmp)
         == if Less(a, n, size, root, child, cmp) then
              ByteSift(SwapRecords(a, n, size, root, child), n, size, child, end, cmp)
            else a
  {
    hide Less, SwapRecords;
  }

  lemma SiftStops(a: seq<byte>, n: nat, size: nat, root: nat, end: nat, cmp: Comparator)
    requires Fits(|a|, n, size) && end <= n && 2 * root + 1 >= end
    ensures ByteSift(a, n, size, root, end, cmp) == a
  {
  }

  /** One round of the outer loop (lines 24-46). */
  method Step(base: array<byte>, start0: nat, end0: nat, nmemb: nat, size: nat, cmp: Comparator)
      returns (start: nat, end: nat)
    requires Fits(base.Length, nmemb, size) && 1 < end0 <= nmemb
    modifies base
    ensures start + end < start0 + end0 && end <= nmemb
    ensures ByteRun(base[..], nmemb, size, start, end, cmp) == ByteRun(old(base[..]), nmemb, size, start0, end0, cmp)
  {
    start, end := start0, end0;
    ByteRunStep(base[..], nmemb, size, start, end, cmp);
    hide *;
    if start > 0 {
      start := start - 1;
    } else {
      end := end - 1;
      Swap(base, end, 0, size, nmemb);
    }
    SiftDown(base, start, end, size, cmp, nmemb);
  }

  /** `qsort` (qsort.c:19-48) */
  method Qsort(base: array<byte>, nmemb: nat, size: nat, cmp: Comparator)
    requires Fits(base.Length, nmemb, size)
    modifies base
    ensures base[..] == Sorted(old(base[..]), nmemb, size, cmp)
  {
    hide *;
    var start: nat, end: nat := nmemb / 2, nmemb;
    ghost var result := Sorted(base[..], nmemb, size, cmp);
    SortedIs(base[..], nmemb, size, cmp);
    while end > 1
      invariant end <= nmemb && result == ByteRun(base[..], nmemb, size, start, end, cmp)
      decreases start + end
    {
      start, end := Step(base, start, end, nmemb, size, cmp);
    }
    RunStops(base[..], nmemb, size, start, end, cmp);
  }

  lemma SortedIs(a: seq<byte>, n: nat, size: nat, cmp: Comparator)
    requires Fits(|a|, n, size)
    ensures Sorted(a, n, size, cmp) == ByteRun(a, n, size, n / 2, n, cmp)
  {
    hide ByteRun;
  }

  lemma ByteRunStep(a: seq<byte>, n: nat, size: nat, start: nat, end: nat, cmp: Comparator)
    requires Fits(|a|, n, size) && 1 < end <= n
    ensures ByteRun(a, n, size, start, end, cmp)
            == if start > 0 then ByteRun(ByteSift(a, n, size, start - 1, end, cmp), n, size, start - 1, end, cmp)
               else ByteRun(ByteSift(SwapRecords(a, n, size, end - 1, 0), n, size, 0, end - 1, cmp), n, size, 0,
                            end - 1, cmp)
  {
  }

  lemma RunStops(a: seq<byte>, n: nat, size: nat, start: nat, end: nat, cmp: Comparator)
    requires Fits(|a|, n, size) && end <= n && end <= 1
    ensures ByteRun(a, n, size, start, end, cmp) == a
  {
  }

  // ----- even sizes: nothing happens

  lemma {:induction false} EvenSift(a: seq<byte>, n: nat, size: nat, root: nat, end: nat, cmp: Comparator)
    requires Fits(|a|, n, size) && end <= n && size % 2 == 0
    ensures ByteSift(a, n, size, root, end, cmp) == a
    decreases end - root
  {
    if 2 * root + 1 < end {
      EvenSift(a, n, size, ByteChild(a, n, size, root, end, cmp), end, cmp);
    }
  }

  lemma {:induction false} EvenRun(a: seq<byte>, n: nat, size: nat, start: nat, end: nat, cmp: Comparator)
    requires Fits(|a|, n, size) && end <= n && size % 2 == 0
    ensures ByteRun(a, n, size, start, end, cmp) == a
    decreases start + end
  {
    if end > 1 {
      if start > 0 {
        EvenSift(a, n, size, start - 1, end, cmp);
        EvenRun(a, n, size, start - 1, end, cmp);
      } else {
        EvenSift(a, n, size, 0, end - 1, cmp);
        EvenRun(a, n, size, 0, end - 1, cmp);
      }
    }
  }

  /** Records of an even size come out as they went in, sorted or not. */
  lemma EvenSorts(a: seq<byte>, n: nat, size: nat, cmp: Comparator)
    requires Fits(|a|, n, size) && size % 2 == 0
    ensures Sorts(a, n, size, cmp) <==> Ascending(Records(a, n, size), cmp)
  {
    EvenRun(a, n, size, n / 2, n, cmp);
  }

  // ----- odd sizes, and records that differ in their first bytes only: heapsort

  /** All records agree beyond their first byte. */
  ghost predicate SameTails(a: seq<byte>, n: nat, size: nat, tail: seq<byte>)
    requires Fits(|a|, n, size)
  {
    size > 0 && forall i {:trigger RecordAt(a, n, size, i)} :: 0 <= i < n ==> RecordAt(a, n, size, i)[1..] == tail
  }

  /** Records start in different places, and none starts inside another. */
  lemma StartsApart(i: nat, k: nat, size: nat)
    requires size > 0
    ensures i * size == k * size <==> i == k
    ensures i * size <= k * size || i * size >= k * size + size
  {
    MulCancel(i, k, size);
    if i > k { MulMono(k + 1, i, size); } else { MulMono(i, k, size); }
  }

  /** Record k once the first bytes of records p and q are exchanged. */
  lemma RecordOf(a: seq<byte>, b: seq<byte>, n: nat, size: nat, p: nat, q: nat, k: nat, atP: nat, atQ: nat, atK: nat)
    requires Fits(|a|, n, size) && size > 0 && p < n && q < n && k < n && |b| == |a|
    requires atP == p * size && atQ == q * size && atK == k * size && atP < |a| && atQ < |a| && atK < |a|
    requires b == SwapBytes(a, atP, atQ)
    ensures RecordAt(b, n, size, k)
            == [if k == p then a[atQ] else if k == q then a[atP] else a[atK]] + RecordAt(a, n, size, k)[1..]
    ensures RecordAt(a, n, size, k) == [a[atK]] + RecordAt(a, n, size, k)[1..]
  {
    IndexFits(k, n, size);
    StartsApart(p, k, size);
    StartsApart(q, k, size);
    StartsApart(p, q, size);
    assert RecordAt(a, n, size, k) == a[atK..atK + size] && RecordAt(b, n, size, k) == b[atK..atK + size];
    hide *;
    SwappedSlice(a, b, atP, atQ, atK, size);
  }

  /** A stretch that an exchange of two bytes touches at its start or not at all. */
  lemma SwappedSlice(a: seq<byte>, b: seq<byte>, p: nat, q: nat, k: nat, size: nat)
    requires size > 0 && p < |a| && q < |a| && k + size <= |a| == |b| && b == SwapBytes(a, p, q)
    requires (p <= k || p >= k + size) && (q <= k || q >= k + size)
    ensures a[k..k + size] == [a[k]] + a[k..k + size][1..]
    ensures b[k..k + size] == [if k == p then a[q] else if k == q then a[p] else a[k]] + a[k..k + size][1..]
  {
  }

  lemma OddSwap(a: seq<byte>, n: nat, size: nat, i: nat, j: nat, tail: seq<byte>)
    requires Fits(|a|, n, size) && i < n && j < n && size % 2 == 1 && SameTails(a, n, size, tail)
    ensures SameTails(SwapRecords(a, n, size, i, j), n, size, tail)
    ensures Records(SwapRecords(a, n, size, i, j), n, size) == Swapped(Records(a, n, size), i, j)
  {
    IndexFits(i, n, size);
    IndexFits(j, n, size);
    var b := SwapRecords(a, n, size, i, j);
    var p: nat, q: nat := i * size, j * size;
    assert b == SwapBytes(a, p, q);
    forall k | 0 <= k < n
      ensures RecordAt(b, n, size, k)[1..] == tail
      ensures RecordAt(b, n, size, k) == RecordAt(a, n, size, if k == i then j else if k == j then i else k)
    {
      OddRecord(a, b, n, size, i, j, p, q, tail, k);
    }
    hide SwapRecords, SwapBytes, RecordAt;
    SwappedRecords(a, b, n, size, i, j);
  }

  lemma OddRecord(a: seq<byte>, b: seq<byte>, n: nat, size: nat, i: nat, j: nat, p: nat, q: nat, tail: seq<byte>,
                  k: nat)
    requires Fits(|a|, n, size) && |b| == |a| && i < n && j < n && k < n && SameTails(a, n, size, tail)
    requires p == i * size && q == j * size && p < |a| && q < |a| && b == SwapBytes(a, p, q)
    ensures size > 0 && RecordAt(b, n, size, k)[1..] == tail
    ensures RecordAt(b, n, size, k) == RecordAt(a, n, size, if k == i then j else if k == j then i else k)
  {
    TailsAre(a, n, size, tail, i, j, k);
    IndexFits(k, n, size);
    ProductNat(k, size);
    hide *;
    RecordOf(a, b, n, size, i, j, k, p, q, k * size);
    RecordOf(a, b, n, size, i, j, i, p, q, p);
    RecordOf(a, b, n, size, i, j, j, p, q, q);
  }

  lemma TailsAre(a: seq<byte>, n: nat, size: nat, tail: seq<byte>, i: nat, j: nat, k: nat)
    requires Fits(|a|, n, size) && SameTails(a, n, size, tail) && i < n && j < n && k < n
    ensures size > 0 && RecordAt(a, n, size, i)[1..] == tail
    ensures RecordAt(a, n, size, j)[1..] == tail && RecordAt(a, n, size, k)[1..] == tail
  {
    hide RecordAt;
  }

  lemma SwappedRecords(a: seq<byte>, b: seq<byte>, n: nat, size: nat, i: nat, j: nat)
    requires Fits(|a|, n, size) && Fits(|b|, n, size) && i < n && j < n
    requires forall k :: 0 <= k < n ==>
               RecordAt(b, n, size, k) == RecordAt(a, n, size, if k == i then j else if k == j then i else k)
    ensures Records(b, n, size) == Swapped(Records(a, n, size), i, j)
  {
    hide RecordAt;
  }

  lemma {:induction false} OddSift(a: seq<byte>, n: nat, size: nat, root: nat, end: nat, cmp: Comparator,
                                   tail: seq<byte>)
    requires Fits(|a|, n, size) && end <= n && size % 2 == 1 && SameTails(a, n, size, tail)
    ensures SameTails(ByteSift(a, n, size, root, end, cmp), n, size, tail)
    ensures Records(ByteSift(a, n, size, root, end, cmp), n, size) == Sift(Records(a, n, size), root, end, cmp)
    decreases end - root
  {
    if 2 * root + 1 < end {
      var child := ByteChild(a, n, size, root, end, cmp);
      OddSwap(a, n, size, root, child, tail);
      OddSift(SwapRecords(a, n, size, root, child), n, size, child, end, cmp, tail);
      hide SameTails, RecordAt, SwapRecords;
    }
  }

  /** The byte algorithm is then the heapsort. */
  lemma {:induction false} OddRun(a: seq<byte>, n: nat, size: nat, start: nat, end: nat, cmp: Comparator,
                                  tail: seq<byte>)
    requires Fits(|a|, n, size) && end <= n && size % 2 == 1 && SameTails(a, n, size, tail)
    ensures Records(ByteRun(a, n, size, start, end, cmp), n, size) == Run(Records(a, n, size), start, end, cmp)
    decreases start + end
  {
    if end > 1 {
      if start > 0 {
        OddSift(a, n, size, start - 1, end, cmp, tail);
        OddRun(ByteSift(a, n, size, start - 1, end, cmp), n, size, start - 1, end, cmp, tail);
      } else {
        var b := SwapRecords(a, n, size, end - 1, 0);
        OddSwap(a, n, size, end - 1, 0, tail);
        OddSift(b, n, size, 0, end - 1, cmp, tail);
        OddRun(ByteSift(b, n, size, 0, end - 1, cmp), n, size, 0, end - 1, cmp, tail);
      }
    }
  }

  /** Inputs of an odd record size whose records differ in their first bytes only are sorted. */
  lemma OddSorts(a: seq<byte>, n: nat, size: nat, cmp: Comparator, tail: seq<byte>)
    requires Fits(|a|, n, size) && size % 2 == 1 && SameTails(a, n, size, tail) && Preorder(cmp, size)
    ensures Sorts(a, n, size, cmp)
  {
    var r := Records(a, n, size);
    AllSized(a, n, size);
    SortedIs(a, n, size, cmp);
    OddRun(a, n, size, n / 2, n, cmp, tail);
    HeapsortCorrect(r, cmp, size);
    hide ByteRun, Run, SameTails, Preorder, RecordAt;
  }

  lemma AllSized(a: seq<byte>, n: nat, size: nat)
    requires Fits(|a|, n, size)
    ensures |Records(a, n, size)| == n && Sized(Records(a, n, size), size)
  {
    forall i | 0 <= i < n
      ensures |Records(a, n, size)[i]| == size
    {
      IndexFits(i, n, size);
    }
  }

  // ----- when qsort sorts

  /** The records come out in ascending order, and are the records that went in. */
  ghost predicate Sorts(a: seq<byte>, n: nat, size: nat, cmp: Comparator)
    requires Fits(|a|, n, size)
  {
    var r := Records(Sorted(a, n, size, cmp), n, size);
    Ascending(r, cmp) && multiset(r) == multiset(Records(a, n, size))
  }

  /** A size for which `qsort` does its job on every input. */
  ghost predicate AlwaysSorts(size: nat)
  {
    forall a: seq<byte>, n: nat, cmp: Comparator {:trigger Sorts(a, n, size, cmp)} ::
      Fits(|a|, n, size) && Preorder(cmp, size) ==> Sorts(a, n, size, cmp)
  }

  lemma OneByteSorts(a: seq<byte>, cmp: Comparator)
    requires Preorder(cmp, 1)
    ensures Sorts(a, |a|, 1, cmp)
  {
    OddSorts(a, |a|, 1, cmp, []);
  }

  lemma NoBytesSort(n: nat, cmp: Comparator)
    requires Preorder(cmp, 0)
    ensures Sorts([], n, 0, cmp)
  {
    EvenRun([], n, 0, n / 2, n, cmp);
    var r := Records([], n, 0);
    forall i, k | 0 <= i < k < n
      ensures Leq(cmp, r[i], r[k])
    {
      assert r[i] == [] && r[k] == [];
      LeqTotal(cmp, 0, [], []);
    }
  }

  function FirstByte(x: Record): int { if x == [] then 0 else x[0] }

  function ByFirstByte(): Comparator { (x: Record, y: Record) => FirstByte(x) - FirstByte(y) }

  lemma FirstBytePreorder(size: nat)
    ensures Preorder(ByFirstByte(), size)
  {
    var cmp := ByFirstByte();
    forall x: Record, y: Record
      ensures Leq(cmp, x, y) <==> FirstByte(x) <= FirstByte(y)
    {
    }
  }

  /** Two records, all ones and all zeros. */
  function Descending(size: nat): seq<byte> { seq(2 * size, i => if i < size then 1 else 0) }

  lemma SwapOnce(size: nat)
    requires size > 0
    ensures var a := Descending(size);
      Sorted(a, 2, size, ByFirstByte()) == SwapRecords(a, 2, size, 1, 0)
  {
    var a, cmp := Descending(size), ByFirstByte();
    var x, y := RecordAt(a, 2, size, 0), RecordAt(a, 2, size, 1);
    assert x[0] == a[0] == 1 && y[0] == a[size] == 0;
    assert ByteSift(a, 2, size, 0, 2, cmp) == a;
    var b := SwapRecords(a, 2, size, 1, 0);
    assert ByteSift(b, 2, size, 0, 1, cmp) == b;
    assert ByteRun(b, 2, size, 0, 1, cmp) == b;
  }

  /** For every larger size there is an input that stays unsorted, or whose records are torn apart. */
  lemma LargerFails(size: nat)
    requires size > 1
    ensures Preorder(ByFirstByte(), size) && !Sorts(Descending(size), 2, size, ByFirstByte())
  {
    var a, cmp := Descending(size), ByFirstByte();
    FirstBytePreorder(size);
    SwapOnce(size);
    var b := SwapRecords(a, 2, size, 1, 0);
    var r, was := Records(b, 2, size), Records(a, 2, size);
    assert Sorted(a, 2, size, cmp) == b;
    assert Ascending(r, cmp) ==> Leq(cmp, r[0], r[1]);
    assert r == Records(Sorted(a, 2, size, cmp), 2, size);
    if size % 2 == 0 {
      assert b == a && r[0][0] == a[0] == 1 && r[1][0] == a[size] == 0;
      assert !Leq(cmp, r[0], r[1]);
    } else {
      TornApart(size, b, r, was);
    }
    NotSorts(a, 2, size, cmp, r);
  }

  lemma NotSorts(a: seq<byte>, n: nat, size: nat, cmp: Comparator, r: seq<Record>)
    requires Fits(|a|, n, size) && r == Records(Sorted(a, n, size, cmp), n, size)
    requires !Ascending(r, cmp) || multiset(r) != multiset(Records(a, n, size))
    ensures !Sorts(a, n, size, cmp)
  {
  }

  lemma TornApart(size: nat, b: seq<byte>, r: seq<Record>, was: seq<Record>)
    requires size > 1 && Fits(2 * size, 2, size) && |b| == 2 * size
    requires b == SwapBytes(Descending(size), size, 0)
    requires r == Records(b, 2, size) && was == Records(Descending(size), 2, size)
    ensures multiset(r) != multiset(was)
  {
    var a := Descending(size);
    assert r[0][0] == b[0] == 0 && r[0][1] == b[1] == 1;
    assert was[0][0] == a[0] == 1 && was[1][1] == a[size + 1] == 0;
    assert r[0] != was[0] && r[0] != was[1];
    NotThere(r, was);
  }

  lemma NotThere(r: seq<Record>, was: seq<Record>)
    requires |r| == |was| == 2 && r[0] != was[0] && r[0] != was[1]
    ensures multiset(r) != multiset(was)
  {
    assert r[0] in multiset(r);
    assert r[0] !in was;
    assert r[0] !in multiset(was);
  }

  /** `qsort` meets its specification exactly for records of at most one byte. */
  lemma WhenQsortSorts(size: nat)
    ensures AlwaysSorts(size) <==> size <= 1
  {
    if size <= 1 {
      forall a: seq<byte>, n: nat, cmp: Comparator | Fits(|a|, n, size) && Preorder(cmp, size)
        ensures Sorts(a, n, size, cmp)
      {
        if size == 1 {
          assert n == |a|;
          OneByteSorts(a, cmp);
        } else {
          assert a == [];
          NoBytesSort(n, cmp);
        }
      }
    } else {
      LargerFails(size);
      assert |Descending(size)| == 2 * size;
    }
  }
}
