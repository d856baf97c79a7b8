/** The heapsort that `qsort` follows, on a sequence of records whose swap does what its name says. */
module Heapsort {
  import opened Words

  type Record = seq<byte>
  type Comparator = (Record, Record) -> int

  /** x may come before y. */
  predicate Leq(cmp: Comparator, x: Record, y: Record) { !(cmp(y, x) < 0) }

  /** The comparator is a total preorder on records of one size. */
  ghost predicate Preorder(cmp: Comparator, size: nat)
  {
    && (forall x, y {:trigger cmp(x, y)} :: |x| == size && |y| == size ==> Leq(cmp, x, y) || Leq(cmp, y, x))
    && (forall x, y, z {:trigger cmp(x, y), cmp(y, z)} :: |x| == size && |y| == size && |z| == size ==>
          Leq(cmp, x, y) && Leq(cmp, y, z) ==> Leq(cmp, x, z))
  }

  lemma LeqTotal(cmp: Comparator, size: nat, x: Record, y: Record)
    requires Preorder(cmp, size) && |x| == size && |y| == size
    ensures Leq(cmp, x, y) || Leq(cmp, y, x)
  {
    var c := cmp(x, y);
  }

  lemma LeqTransitive(cmp: Comparator, size: nat, x: Record, y: Record, z: Record)
    requires Preorder(cmp, size) && |x| == size && |y| == size && |z| == size
    requires Leq(cmp, x, y) && Leq(cmp, y, z)
    ensures Leq(cmp, x, z)
  {
    var c, d := cmp(x, y), cmp(y, z);
  }

  predicate Sized(a: seq<Record>, size: nat) { forall i :: 0 <= i < |a| ==> |a[i]| == size }

  function Swapped(a: seq<Record>, i: nat, j: nat): seq<Record>
    requires i < |a| && j < |a|
  {
    a[i := a[j]][j := a[i]]
  }

  lemma SwapPermutes(a: seq<Record>, i: nat, j: nat)
    requires i < |a| && j < |a|
    ensures multiset(Swapped(a, i, j)) == multiset(a)
  {
  }

  /** The larger child of root. */
  function Child(a: seq<Record>, root: nat, end: nat, cmp: Comparator): nat
    requires end <= |a| && 2 * root + 1 < end
  {
    var child := 2 * root + 1;
    if child + 1 < end && cmp(a[child], a[child + 1]) < 0 then child + 1 else child
  }

  /** Letting the record at root sink to its place. */
  function Sift(a: seq<Record>, root: nat, end: nat, cmp: Comparator): (r: seq<Record>)
    requires end <= |a|
    ensures |r| == |a|
    decreases end - root
  {
    if 2 * root + 1 >= end then a
    else
      var child := Child(a, root, end, cmp);
      if cmp(a[root], a[child]) < 0 then Sift(Swapped(a, root, child), child, end, cmp) else a
  }

  /** The merged loop: building the heap while start > 0, extracting maxima after that. */
  function Run(a: seq<Record>, start: nat, end: nat, cmp: Comparator): (r: seq<Record>)
    requires end <= |a|
    ensures |r| == |a|
    decreases start + end
  {
    if end <= 1 then a
    else if start > 0 then Run(Sift(a, start - 1, end, cmp), start - 1, end, cmp)
    else Run(Sift(Swapped(a, end - 1, 0), 0, end - 1, cmp), 0, end - 1, cmp)
  }

  function Heapsorted(a: seq<Record>, cmp: Comparator): seq<Record> { Run(a, |a| / 2, |a|, cmp) }

  lemma {:induction false} SiftPermutes(a: seq<Record>, root: nat, end: nat, cmp: Comparator)
    requires end <= |a|
    ensures multiset(Sift(a, root, end, cmp)) == multiset(a)
    decreases end - root
  {
    if 2 * root + 1 < end {
      var child := Child(a, root, end, cmp);
      SwapPermutes(a, root, child);
      SiftPermutes(Swapped(a, root, child), child, end, cmp);
    }
  }

  lemma {:induction false} RunPermutes(a: seq<Record>, start: nat, end: nat, cmp: Comparator)
    requires end <= |a|
    ensures multiset(Run(a, start, end, cmp)) == multiset(a)
    decreases start + end
  {
    if end > 1 {
      if start > 0 {
        SiftPermutes(a, start - 1, end, cmp);
        RunPermutes(Sift(a, start - 1, end, cmp), start - 1, end, cmp);
      } else {
        SwapPermutes(a, end - 1, 0);
        SiftPermutes(Swapped(a, end - 1, 0), 0, end - 1, cmp);
        RunPermutes(Sift(Swapped(a, end - 1, 0), 0, end - 1, cmp), 0, end - 1, cmp);
      }
    }
  }

  lemma PermutationSized(a: seq<Record>, b: seq<Record>, size: nat)
    requires multiset(a) == multiset(b) && Sized(a, size)
    ensures Sized(b, size)
  {
    forall i | 0 <= i < |b|
      ensures |b[i]| == size
    {
      assert b[i] in multiset(b);
      assert b[i] in a;
    }
  }

  // ----- the heap order

  function Parent(c: nat): nat
    requires c > 0
  {
    (c - 1) / 2
  }

  /** Below end, no record with a parent from start on exceeds that parent. */
  ghost predicate Heap(a: seq<Record>, start: nat, end: nat, cmp: Comparator)
    requires end <= |a|
  {
    forall c {:trigger a[c]} :: 0 < c < end && Parent(c) >= start ==> Leq(cmp, a[c], a[Parent(c)])
  }

  /** A heap but for root, whose children do not exceed root's own parent. */
  ghost predicate HeapBut(a: seq<Record>, start: nat, end: nat, root: nat, cmp: Comparator)
    requires end <= |a|
  {
    && (forall c {:trigger a[c]} :: 0 < c < end && Parent(c) >= start && Parent(c) != root ==>
          Leq(cmp, a[c], a[Parent(c)]))
    && (forall c {:trigger a[c]} :: 0 < c < end && Parent(c) == root && root > 0 && Parent(root) >= start ==>
          Leq(cmp, a[c], a[Parent(root)]))
  }

  lemma Children(root: nat, c: nat)
    ensures c > 0 && Parent(c) == root <==> c == 2 * root + 1 || c == 2 * root + 2
  {
  }

  /** The chosen child is not below its sibling. */
  lemma ChildLargest(a: seq<Record>, root: nat, end: nat, cmp: Comparator, size: nat, c: nat)
    requires end <= |a| && 2 * root + 1 < end && Sized(a, size) && Preorder(cmp, size)
    requires 0 < c < end && Parent(c) == root
    ensures var child := Child(a, root, end, cmp); 0 < child < end && Parent(child) == root && Leq(cmp, a[c], a[child])
  {
    Children(root, c);
    LeqTotal(cmp, size, a[2 * root + 1], a[2 * root + 1]);
    LeqTotal(cmp, size, a[c], a[c]);
    if 2 * root + 2 < end { LeqTotal(cmp, size, a[2 * root + 1], a[2 * root + 2]); }
  }

  /** Swapping with the larger child moves the gap down. */
  lemma SwapDown(a: seq<Record>, start: nat, root: nat, end: nat, cmp: Comparator, size: nat)
    requires start <= root && end <= |a| && 2 * root + 1 < end && Sized(a, size) && Preorder(cmp, size)
    requires HeapBut(a, start, end, root, cmp) && cmp(a[root], a[Child(a, root, end, cmp)]) < 0
    ensures HeapBut(Swapped(a, root, Child(a, root, end, cmp)), start, end, Child(a, root, end, cmp), cmp)
  {
    var child := Child(a, root, end, cmp);
    var b := Swapped(a, root, child);
    LeqTotal(cmp, size, a[root], a[child]);
    forall c {:trigger b[c]} | 0 < c < end && Parent(c) >= start && Parent(c) != child
      ensures Leq(cmp, b[c], b[Parent(c)])
    {
      Children(root, c);
      if Parent(c) == root {
        ChildLargest(a, root, end, cmp, size, c);
      } else if c == root {
        assert Parent(child) == root;
        assert Leq(cmp, a[child], a[Parent(root)]);
      } else {
        assert b[c] == a[c] && b[Parent(c)] == a[Parent(c)];
      }
    }
    forall c {:trigger b[c]} | 0 < c < end && Parent(c) == child && Parent(child) >= start
      ensures Leq(cmp, b[c], b[Parent(child)])
    {
      assert b[c] == a[c] && b[Parent(child)] == a[child];
    }
  }

  lemma {:induction false} SiftHeap(a: seq<Record>, start: nat, root: nat, end: nat, cmp: Comparator, size: nat)
    requires start <= root && end <= |a| && Sized(a, size) && Preorder(cmp, size)
    requires HeapBut(a, start, end, root, cmp)
    ensures Heap(Sift(a, root, end, cmp), start, end, cmp)
    decreases end - root
  {
    if 2 * root + 1 >= end {
      assert forall c :: 0 < c < end ==> Parent(c) != root;
    } else {
      var child := Child(a, root, end, cmp);
      if cmp(a[root], a[child]) < 0 {
        SwapDown(a, start, root, end, cmp, size);
        SiftHeap(Swapped(a, root, child), start, child, end, cmp, size);
      } else {
        forall c {:trigger a[c]} | 0 < c < end && Parent(c) == root
          ensures Leq(cmp, a[c], a[root])
        {
          ChildLargest(a, root, end, cmp, size, c);
          LeqTransitive(cmp, size, a[c], a[child], a[root]);
        }
      }
    }
  }

  /** Sifting below end leaves the rest alone, and respects every upper bound. */
  lemma {:induction false} SiftWithin(a: seq<Record>, root: nat, end: nat, cmp: Comparator)
    requires end <= |a|
    ensures forall k :: end <= k < |a| ==> Sift(a, root, end, cmp)[k] == a[k]
    decreases end - root
  {
    if 2 * root + 1 < end {
      var child := Child(a, root, end, cmp);
      if cmp(a[root], a[child]) < 0 { SiftWithin(Swapped(a, root, child), child, end, cmp); }
    }
  }

  ghost predicate Bounded(a: seq<Record>, end: nat, x: Record, cmp: Comparator)
    requires end <= |a|
  {
    forall i :: 0 <= i < end ==> Leq(cmp, a[i], x)
  }

  lemma {:induction false} SiftBounded(a: seq<Record>, root: nat, end: nat, x: Record, cmp: Comparator)
    requires end <= |a| && Bounded(a, end, x, cmp)
    ensures Bounded(Sift(a, root, end, cmp), end, x, cmp)
    decreases end - root
  {
    if 2 * root + 1 < end {
      var child := Child(a, root, end, cmp);
      if cmp(a[root], a[child]) < 0 { SiftBounded(Swapped(a, root, child), child, end, x, cmp); }
    }
  }

  /** The root of a heap is a maximum. */
  lemma {:induction false} HeapMax(a: seq<Record>, end: nat, i: nat, cmp: Comparator, size: nat)
    requires end <= |a| && i < end && Sized(a, size) && Preorder(cmp, size) && Heap(a, 0, end, cmp)
    ensures Leq(cmp, a[i], a[0])
    decreases i
  {
    if i == 0 {
      LeqTotal(cmp, size, a[0], a[0]);
    } else {
      HeapMax(a, end, Parent(i), cmp, size);
      LeqTransitive(cmp, size, a[i], a[Parent(i)], a[0]);
    }
  }

  // ----- sorting

  /** From end on the records are in place: none before exceeds one of them. */
  ghost predicate Tail(a: seq<Record>, end: nat, cmp: Comparator)
  {
    forall i, k :: 0 <= i < k < |a| && end <= k ==> Leq(cmp, a[i], a[k])
  }

  ghost predicate Ascending(a: seq<Record>, cmp: Comparator)
  {
    forall i, k :: 0 <= i < k < |a| ==> Leq(cmp, a[i], a[k])
  }

  lemma SiftTail(a: seq<Record>, root: nat, end: nat, cmp: Comparator)
    requires end <= |a| && Tail(a, end, cmp)
    ensures Tail(Sift(a, root, end, cmp), end, cmp)
  {
    var b := Sift(a, root, end, cmp);
    SiftWithin(a, root, end, cmp);
    forall i, k | 0 <= i < k < |b| && end <= k
      ensures Leq(cmp, b[i], b[k])
    {
      assert Bounded(a, end, a[k], cmp);
      SiftBounded(a, root, end, a[k], cmp);
    }
  }

  /** Moving the maximum behind the heap. */
  lemma Extract(a: seq<Record>, end: nat, cmp: Comparator, size: nat)
    requires 1 < end <= |a| && Sized(a, size) && Preorder(cmp, size) && Heap(a, 0, end, cmp) && Tail(a, end, cmp)
    ensures HeapBut(Swapped(a, end - 1, 0), 0, end - 1, 0, cmp) && Tail(Swapped(a, end - 1, 0), end - 1, cmp)
  {
    var b := Swapped(a, end - 1, 0);
    forall c {:trigger b[c]} | 0 < c < end - 1 && Parent(c) != 0
      ensures Leq(cmp, b[c], b[Parent(c)])
    {
      assert b[c] == a[c] && b[Parent(c)] == a[Parent(c)];
    }
    forall i, k | 0 <= i < k < |b| && end - 1 <= k
      ensures Leq(cmp, b[i], b[k])
    {
      if k == end - 1 { HeapMax(a, end, if i == 0 then end - 1 else i, cmp, size); }
    }
  }

  lemma {:induction false} RunSorts(a: seq<Record>, start: nat, end: nat, cmp: Comparator, size: nat)
    requires end <= |a| && Sized(a, size) && Preorder(cmp, size) && Heap(a, start, end, cmp) && Tail(a, end, cmp)
    ensures Ascending(Run(a, start, end, cmp), cmp)
    decreases start + end
  {
    RunStep(a, start, end, cmp);
    if end > 1 {
      hide *;
      if start > 0 {
        Build(a, start, end, cmp, size);
        RunSorts(Sift(a, start - 1, end, cmp), start - 1, end, cmp, size);
      } else {
        TakeMax(a, end, cmp, size);
        RunSorts(Sift(Swapped(a, end - 1, 0), 0, end - 1, cmp), 0, end - 1, cmp, size);
      }
    } else {
      hide Leq, Sift, Heap;
    }
  }

  /** One more record in the heap. */
  lemma Build(a: seq<Record>, start: nat, end: nat, cmp: Comparator, size: nat)
    requires 0 < start && end <= |a| && Sized(a, size) && Preorder(cmp, size)
    requires Heap(a, start, end, cmp) && Tail(a, end, cmp)
    ensures var b := Sift(a, start - 1, end, cmp);
      Sized(b, size) && Heap(b, start - 1, end, cmp) && Tail(b, end, cmp)
  {
    Gap(a, start, end, cmp);
    hide *;
    SiftHeap(a, start - 1, start - 1, end, cmp, size);
    SiftTail(a, start - 1, end, cmp);
    SiftPermutes(a, start - 1, end, cmp);
    PermutationSized(a, Sift(a, start - 1, end, cmp), size);
  }

  /** The maximum goes behind the heap. */
  lemma TakeMax(a: seq<Record>, end: nat, cmp: Comparator, size: nat)
    requires 1 < end <= |a| && Sized(a, size) && Preorder(cmp, size) && Heap(a, 0, end, cmp) && Tail(a, end, cmp)
    ensures |Swapped(a, end - 1, 0)| == |a|
    ensures var b := Sift(Swapped(a, end - 1, 0), 0, end - 1, cmp);
      Sized(b, size) && Heap(b, 0, end - 1, cmp) && Tail(b, end - 1, cmp)
  {
    var c := Swapped(a, end - 1, 0);
    assert |c| == |a|;
    hide *;
    Extract(a, end, cmp, size);
    SwapPermutes(a, end - 1, 0);
    PermutationSized(a, c, size);
    SiftHeap(c, 0, 0, end - 1, cmp, size);
    SiftTail(c, 0, end - 1, cmp);
    SiftPermutes(c, 0, end - 1, cmp);
    PermutationSized(c, Sift(c, 0, end - 1, cmp), size);
  }

  lemma RunStep(a: seq<Record>, start: nat, end: nat, cmp: Comparator)
    requires end <= |a|
    ensures end <= 1 ==> Run(a, start, end, cmp) == a
    ensures end > 1 && start > 0 ==>
              Run(a, start, end, cmp) == Run(Sift(a, start - 1, end, cmp), start - 1, end, cmp)
    ensures end > 1 && start == 0 ==>
              Run(a, start, end, cmp) == Run(Sift(Swapped(a, end - 1, 0), 0, end - 1, cmp), 0, end - 1, cmp)
  {
    hide Sift, Swapped;
  }

  /** A heap from start on is one from start - 1 on but for start - 1 itself. */
  lemma Gap(a: seq<Record>, start: nat, end: nat, cmp: Comparator)
    requires end <= |a| && start > 0 && Heap(a, start, end, cmp)
    ensures HeapBut(a, start - 1, end, start - 1, cmp)
  {
  }

  /** The algorithm sorts, for every comparator that is a total preorder. */
  lemma HeapsortCorrect(a: seq<Record>, cmp: Comparator, size: nat)
    requires Sized(a, size) && Preorder(cmp, size)
    ensures Ascending(Heapsorted(a, cmp), cmp) && multiset(Heapsorted(a, cmp)) == multiset(a)
  {
    RunSorts(a, |a| / 2, |a|, cmp, size);
    RunPermutes(a, |a| / 2, |a|, cmp);
  }
}
