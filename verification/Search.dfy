/**
  The symbol search list: a breadth-first walk of the dependencies, whose queue, threaded through the
  objects, is at the same time the result.
 */
module Search {
  import opened LinkerObjects

  /** x is n dependency edges away from root, along some path. */
  ghost predicate ReachedIn(all: set<Object>, root: Object, x: Object, n: nat)
  {
    if n == 0 then x == root else exists y :: y in all && x in y.dependencies && ReachedIn(all, root, y, n - 1)
  }

  /** The list threaded through searchNext. */
  ghost predicate Threaded(list: seq<Object>)
    reads list`searchNext
  {
    forall i {:trigger list[i].searchNext} :: 0 <= i < |list| ==>
      list[i].searchNext == if i + 1 < |list| then list[i + 1] else null
  }

  /** The dependencies of x are in the list, at most one level deeper. */
  ghost predicate Expanded(x: Object, depth: map<Object, nat>, n: nat)
    requires x in depth && n <= |x.dependencies|
  {
    forall j :: 0 <= j < n ==> x.dependencies[j] in depth && depth[x.dependencies[j]] <= depth[x] + 1
  }

  /** The list starts at root, and holds each object once, with a distance at which it is reached. */
  ghost predicate Listing(all: set<Object>, rank: map<Object, nat>, root: Object, list: seq<Object>,
                          depth: map<Object, nat>)
  {
    && all <= rank.Keys && root in all && list != [] && list[0] == root && Distinct(list)
    && (forall x :: x in list ==> x in all && x in depth && rank[x] <= rank[root] && ReachedIn(all, root, x, depth[x]))
    && (forall x :: x in depth ==> x in list)
  }

  /** The list is in order of distance. */
  ghost predicate Levels(list: seq<Object>, depth: map<Object, nat>)
    requires forall x :: x in list ==> x in depth
  {
    forall i, j :: 0 <= i <= j < |list| ==> depth[list[i]] <= depth[list[j]]
  }

  /** The first k objects are expanded, and of the next one the first n dependencies. */
  ghost predicate ExpandedTo(list: seq<Object>, depth: map<Object, nat>, k: nat, n: nat)
    requires forall x :: x in list ==> x in depth
  {
    && k <= |list|
    && (forall i :: 0 <= i < k ==> Expanded(list[i], depth, |list[i].dependencies|))
    && (k < |list| ==>
          n <= |list[k].dependencies| && Expanded(list[k], depth, n) && depth[list[|list| - 1]] <= depth[list[k]] + 1)
  }

  /** A walk in progress. */
  ghost predicate Walk(all: set<Object>, rank: map<Object, nat>, root: Object, list: seq<Object>,
                       depth: map<Object, nat>,
                       k: nat, n: nat)
  {
    Ranked(all, rank) && Listing(all, rank, root, list, depth) && Levels(list, depth) && ExpandedTo(list, depth, k, n)
  }

  /** The marks say what is in the list, except that the root is never marked. */
  ghost predicate Marks(all: set<Object>, root: Object, list: seq<Object>, id: nat)
    reads all`searchId
  {
    forall o :: o in all ==> o.searchId <= id && (o.searchId == id <==> o != root && o in list)
  }

  lemma Start(all: set<Object>, rank: map<Object, nat>, root: Object)
    requires Ranked(all, rank) && root in all
    ensures Walk(all, rank, root, [root], map[root := 0], 0, 0)
  {
  }

  /** A dependency that is listed already is no deeper than one level below. */
  lemma Skip(all: set<Object>, rank: map<Object, nat>, root: Object, list: seq<Object>, depth: map<Object, nat>,
             k: nat, n: nat)
    requires Walk(all, rank, root, list, depth, k, n) && k < |list| && n < |list[k].dependencies|
    requires list[k].dependencies[n] in list
    ensures Walk(all, rank, root, list, depth, k, n + 1)
  {
    var d := list[k].dependencies[n];
    var i :| 0 <= i < |list| && list[i] == d;
    assert depth[list[i]] <= depth[list[|list| - 1]];
  }

  /** A new dependency goes to the end, one level below. */
  lemma Append(all: set<Object>, rank: map<Object, nat>, root: Object, list: seq<Object>, depth: map<Object, nat>,
               k: nat, n: nat)
    requires Walk(all, rank, root, list, depth, k, n) && k < |list| && n < |list[k].dependencies|
    requires list[k].dependencies[n] !in list
    ensures var d := list[k].dependencies[n];
      && d in all && d != root
      && Walk(all, rank, root, list + [d], depth[d := depth[list[k]] + 1], k, n + 1)
  {
    hide Ranked, ReachedIn, Expanded, Levels, Distinct;
    var x := list[k];
    var d := x.dependencies[n];
    assert x in list && x in all;
    Ranks(all, rank, x, d);
    assert d in all && rank[d] < rank[x] <= rank[root];
    OneFurther(all, root, x, d, depth[x]);
    AppendListing(all, rank, root, list, depth, d, depth[x] + 1);
    AppendLevels(list, depth, d, depth[x] + 1);
    AppendExpanded(list, depth, k, n, d);
  }

  lemma Ranks(all: set<Object>, rank: map<Object, nat>, x: Object, d: Object)
    requires Ranked(all, rank) && x in all && d in x.dependencies
    ensures d in all && d in rank && x in rank && rank[d] < rank[x]
  {
  }

  lemma AppendListing(all: set<Object>, rank: map<Object, nat>, root: Object, list: seq<Object>,
                      depth: map<Object, nat>,
                      d: Object, n: nat)
    requires Listing(all, rank, root, list, depth) && d in all && d !in list && rank[d] <= rank[root]
    requires ReachedIn(all, root, d, n)
    ensures Listing(all, rank, root, list + [d], depth[d := n])
  {
    hide ReachedIn;
  }

  lemma AppendLevels(list: seq<Object>, depth: map<Object, nat>, d: Object, n: nat)
    requires list != [] && d !in list && (forall x :: x in list ==> x in depth) && Levels(list, depth)
    requires depth[list[|list| - 1]] <= n
    ensures forall x :: x in list + [d] ==> x in depth[d := n]
    ensures Levels(list + [d], depth[d := n])
  {
  }

  lemma AppendExpanded(list: seq<Object>, depth: map<Object, nat>, k: nat, n: nat, d: Object)
    requires list != [] && d !in list && d !in depth && (forall x :: x in list ==> x in depth)
    requires ExpandedTo(list, depth, k, n)
    requires k < |list| && n < |list[k].dependencies| && d == list[k].dependencies[n]
    ensures forall x :: x in list + [d] ==> x in depth[d := depth[list[k]] + 1]
    ensures ExpandedTo(list + [d], depth[d := depth[list[k]] + 1], k, n + 1)
  {
    var x := list[k];
    var list', depth' := list + [d], depth[d := depth[x] + 1];
    forall i | 0 <= i < k
      ensures Expanded(list'[i], depth', |list'[i].dependencies|)
    {
      assert Expanded(list[i], depth, |list[i].dependencies|) && list[i] in list;
      StillExpanded(list[i], depth, d, depth[x] + 1, |list[i].dependencies|);
    }
    StillExpanded(x, depth, d, depth[x] + 1, n);
  }

  lemma OneFurther(all: set<Object>, root: Object, x: Object, d: Object, n: nat)
    requires x in all && d in x.dependencies && ReachedIn(all, root, x, n)
    ensures ReachedIn(all, root, d, n + 1)
  {
  }

  lemma StillExpanded(x: Object, depth: map<Object, nat>, d: Object, n: nat, k: nat)
    requires x in depth && d !in depth && k <= |x.dependencies| && Expanded(x, depth, k)
    ensures Expanded(x, depth[d := n], k)
  {
  }

  lemma NextObject(all: set<Object>, rank: map<Object, nat>, root: Object, list: seq<Object>, depth: map<Object, nat>,
                   k: nat)
    requires k < |list| && Walk(all, rank, root, list, depth, k, |list[k].dependencies|)
    ensures Walk(all, rank, root, list, depth, k + 1, 0)
  {
    if k + 1 < |list| { assert depth[list[k]] <= depth[list[k + 1]]; }
  }

  /** A finished walk has found everything that can be reached, at its least distance. */
  lemma {:induction false} Complete(all: set<Object>, rank: map<Object, nat>, root: Object, list: seq<Object>,
                                    depth: map<Object, nat>, x: Object, n: nat)
    requires Walk(all, rank, root, list, depth, |list|, 0) && ReachedIn(all, root, x, n)
    ensures x in list && x in depth && depth[x] <= n
    decreases n
  {
    if n > 0 {
      var y :| y in all && x in y.dependencies && ReachedIn(all, root, y, n - 1);
      Complete(all, rank, root, list, depth, y, n - 1);
      var i :| 0 <= i < |list| && list[i] == y;
      assert Expanded(list[i], depth, |y.dependencies|);
    } else {
      assert depth[root] <= 0 by { RootFirst(all, rank, root, list, depth); }
    }
  }

  lemma RootFirst(all: set<Object>, rank: map<Object, nat>, root: Object, list: seq<Object>, depth: map<Object, nat>)
    requires Walk(all, rank, root, list, depth, |list|, 0)
    ensures depth[root] == 0
  {
    if depth[root] > 0 {
      var y :| y in all && root in y.dependencies && ReachedIn(all, root, y, depth[root] - 1);
      OnPath(all, rank, root, y, depth[root] - 1);
    }
  }

  /** Nothing that is reached from root has a rank above it, so no path leads back. */
  lemma {:induction false} OnPath(all: set<Object>, rank: map<Object, nat>, root: Object, y: Object, n: nat)
    requires Ranked(all, rank) && root in all && y in all && ReachedIn(all, root, y, n)
    ensures rank[y] <= rank[root]
  {
    if n > 0 {
      var z :| z in all && y in z.dependencies && ReachedIn(all, root, z, n - 1);
      OnPath(all, rank, root, z, n - 1);
    }
  }

  lemma {:induction false} ListBound(list: seq<Object>, all: set<Object>)
    requires Distinct(list) && forall x :: x in list ==> x in all
    ensures |list| <= |all|
    decreases |list|
  {
    if list != [] {
      ListBound(list[1..], all - {list[0]});
    }
  }

  lemma Inside(all: set<Object>, rank: map<Object, nat>, root: Object, list: seq<Object>, depth: map<Object, nat>,
               k: nat, n: nat)
    requires Walk(all, rank, root, list, depth, k, n)
    ensures |list| <= |all| && Distinct(list) && forall x :: x in list ==> x in all && x in depth
    ensures k < |list| ==> forall d :: d in list[k].dependencies ==> d in all && d != root
  {
    ListBound(list, all);
    if k < |list| { assert list[k] in list; }
  }

  // ----- the order within a level

  /** Dependency n of object k comes before dependency n' of object k'. */
  predicate Before(k: nat, n: nat, k': nat, n': nat) { k < k' || (k == k' && n < n') }

  predicate IsEdge(list: seq<Object>, k: nat, n: nat, x: Object)
  {
    k < |list| && n < |list[k].dependencies| && list[k].dependencies[n] == x
  }

  /** Of all dependency entries of listed objects, in the order of the list, this is the first that names x. */
  ghost predicate FirstNamed(list: seq<Object>, x: Object, k: nat, n: nat)
  {
    IsEdge(list, k, n, x) && forall k', n' :: IsEdge(list, k', n', x) ==> !Before(k', n', k, n)
  }

  /** What is named before dependency n of object k is listed. */
  ghost predicate Covered(list: seq<Object>, k: nat, n: nat)
  {
    forall k': nat, n': nat {:trigger list[k'].dependencies[n']} ::
      k' < |list| && n' < |list[k'].dependencies| && Before(k', n', k, n) ==> list[k'].dependencies[n'] in list
  }

  ghost predicate IsNamed(list: seq<Object>, x: Object)
  {
    exists k: nat, n: nat :: FirstNamed(list, x, k, n)
  }

  ghost predicate NamedBefore(list: seq<Object>, x: Object, k: nat, n: nat)
  {
    exists k': nat, n': nat :: FirstNamed(list, x, k', n') && Before(k', n', k, n)
  }

  /** And nothing else is, but the first object. */
  ghost predicate AllNamed(list: seq<Object>, k: nat, n: nat)
  {
    forall j :: 1 <= j < |list| ==> NamedBefore(list, list[j], k, n)
  }

  /** The objects are listed in the order in which they are first named. */
  ghost predicate InOrder(list: seq<Object>)
  {
    forall i, j, k: nat, n: nat, k': nat, n': nat
      {:trigger FirstNamed(list, list[i], k, n), FirstNamed(list, list[j], k', n')} ::
      1 <= i < j < |list| && FirstNamed(list, list[i], k, n) && FirstNamed(list, list[j], k', n') ==>
        Before(k, n, k', n')
  }

  ghost predicate Discovered(list: seq<Object>, k: nat, n: nat)
  {
    Covered(list, k, n) && AllNamed(list, k, n) && InOrder(list)
  }

  lemma NothingNamed(root: Object)
    ensures Discovered([root], 0, 0)
  {
  }

  lemma NamedLater(list: seq<Object>, k: nat, n: nat, k': nat, n': nat)
    requires AllNamed(list, k, n) && Before(k, n, k', n')
    ensures AllNamed(list, k', n')
  {
    forall j | 1 <= j < |list|
      ensures NamedBefore(list, list[j], k', n')
    {
      assert NamedBefore(list, list[j], k, n);
      var k0: nat, n0: nat :| FirstNamed(list, list[j], k0, n0) && Before(k0, n0, k, n);
      assert Before(k0, n0, k', n');
    }
  }

  lemma NamedAgain(list: seq<Object>, k: nat, n: nat)
    requires Discovered(list, k, n) && k < |list| && n < |list[k].dependencies| && list[k].dependencies[n] in list
    ensures Discovered(list, k, n + 1)
  {
    hide FirstNamed, InOrder, AllNamed;
    NamedLater(list, k, n, k, n + 1);
  }

  lemma ObjectDone(list: seq<Object>, k: nat)
    requires k < |list| && Discovered(list, k, |list[k].dependencies|)
    ensures Discovered(list, k + 1, 0)
  {
    hide FirstNamed, InOrder, AllNamed;
    NamedLater(list, k, |list[k].dependencies|, k + 1, 0);
  }

  /** An object that is not listed yet is named for the first time. */
  lemma NamedFirst(list: seq<Object>, k: nat, n: nat)
    requires Discovered(list, k, n) && k < |list| && n < |list[k].dependencies| && list[k].dependencies[n] !in list
    ensures Discovered(list + [list[k].dependencies[n]], k, n + 1)
  {
    var d := list[k].dependencies[n];
    FirstOfNew(list, k, n);
    CoveredLonger(list, k, n);
    hide Covered, FirstNamed, InOrder;
    AllNamedLonger(list, d, k, n);
    hide AllNamed;
    InOrderLonger(list, d, k, n);
  }

  lemma FirstOfNew(list: seq<Object>, k: nat, n: nat)
    requires Covered(list, k, n) && k < |list| && n < |list[k].dependencies| && list[k].dependencies[n] !in list
    ensures FirstNamed(list + [list[k].dependencies[n]], list[k].dependencies[n], k, n)
  {
    var d := list[k].dependencies[n];
    var longer := list + [d];
    assert IsEdge(longer, k, n, d);
    forall k': nat, n': nat | IsEdge(longer, k', n', d)
      ensures !Before(k', n', k, n)
    {
      if Before(k', n', k, n) { CoveredAt(list, d, k, n, k', n'); }
    }
  }

  lemma CoveredAt(list: seq<Object>, d: Object, k: nat, n: nat, k': nat, n': nat)
    requires Covered(list, k, n) && k < |list| && Before(k', n', k, n) && IsEdge(list + [d], k', n', d)
    ensures d in list
  {
    assert (list + [d])[k'] == list[k'];
  }

  lemma CoveredLonger(list: seq<Object>, k: nat, n: nat)
    requires Covered(list, k, n) && k < |list| && n < |list[k].dependencies|
    ensures Covered(list + [list[k].dependencies[n]], k, n + 1)
  {
    var longer := list + [list[k].dependencies[n]];
    forall k': nat, n': nat {:trigger longer[k'].dependencies[n']}
        | k' < |longer| && n' < |longer[k'].dependencies| && Before(k', n', k, n + 1)
      ensures longer[k'].dependencies[n'] in longer
    {
      assert longer[k'] == list[k'];
      if Before(k', n', k, n) {
        assert list[k'].dependencies[n'] in list;
      } else {
        assert longer[|list|] == list[k'].dependencies[n'];
      }
    }
  }

  lemma AllNamedLonger(list: seq<Object>, d: Object, k: nat, n: nat)
    requires AllNamed(list, k, n) && FirstNamed(list + [d], d, k, n)
    ensures AllNamed(list + [d], k, n + 1)
  {
    var longer := list + [d];
    forall j | 1 <= j < |longer|
      ensures NamedBefore(longer, longer[j], k, n + 1)
    {
      if j < |list| {
        NamedStill(list, d, list[j], k, n);
      } else {
        assert Before(k, n, k, n + 1);
      }
    }
  }

  lemma NamedStill(list: seq<Object>, d: Object, x: Object, k: nat, n: nat)
    requires NamedBefore(list, x, k, n)
    ensures NamedBefore(list + [d], x, k, n) && NamedBefore(list + [d], x, k, n + 1)
  {
    hide FirstNamed;
    var k': nat, n': nat :| FirstNamed(list, x, k', n') && Before(k', n', k, n);
    StillFirst(list, d, x, k', n');
    assert Before(k', n', k, n + 1);
  }

  lemma InOrderLonger(list: seq<Object>, d: Object, k: nat, n: nat)
    requires AllNamed(list, k, n) && InOrder(list) && FirstNamed(list + [d], d, k, n)
    ensures InOrder(list + [d])
  {
    hide FirstNamed, NamedBefore;
    var longer := list + [d];
    forall i, j, k1: nat, n1: nat, k2: nat, n2: nat
        {:trigger FirstNamed(longer, longer[i], k1, n1), FirstNamed(longer, longer[j], k2, n2)}
        | 1 <= i < j < |longer| && FirstNamed(longer, longer[i], k1, n1) && FirstNamed(longer, longer[j], k2, n2)
      ensures Before(k1, n1, k2, n2)
    {
      OldFirst(list, d, list[i], k, n, k1, n1);
      if j < |list| {
        OldFirst(list, d, list[j], k, n, k2, n2);
      } else {
        OneFirst(longer, d, k, n, k2, n2);
      }
    }
  }

  lemma OldFirst(list: seq<Object>, d: Object, x: Object, k: nat, n: nat, k': nat, n': nat)
    requires NamedBefore(list, x, k, n) && FirstNamed(list + [d], x, k', n')
    ensures FirstNamed(list, x, k', n') && Before(k', n', k, n)
  {
    hide FirstNamed;
    var k0: nat, n0: nat :| FirstNamed(list, x, k0, n0) && Before(k0, n0, k, n);
    StillFirst(list, d, x, k0, n0);
    OneFirst(list + [d], x, k0, n0, k', n');
  }

  lemma StillFirst(list: seq<Object>, d: Object, x: Object, k: nat, n: nat)
    requires FirstNamed(list, x, k, n)
    ensures FirstNamed(list + [d], x, k, n)
  {
    assert IsEdge(list + [d], k, n, x);
    forall k': nat, n': nat | IsEdge(list + [d], k', n', x)
      ensures !Before(k', n', k, n)
    {
      if k' <= k { assert IsEdge(list, k', n', x); }
    }
  }

  lemma OneFirst(list: seq<Object>, x: Object, k: nat, n: nat, k': nat, n': nat)
    requires FirstNamed(list, x, k, n) && FirstNamed(list, x, k', n')
    ensures k == k' && n == n'
  {
    assert IsEdge(list, k, n, x) && IsEdge(list, k', n', x);
  }

  /** What `build_search_list` promises. */
  ghost predicate BreadthFirst(all: set<Object>, root: Object, list: seq<Object>, depth: map<Object, nat>)
  {
    && list != [] && list[0] == root && Distinct(list)
    && (forall x :: x in list ==> x in all && x in depth && ReachedIn(all, root, x, depth[x]))
    && (forall x, n {:trigger ReachedIn(all, root, x, n)} :: x in all && n >= 0 && ReachedIn(all, root, x, n) ==>
          x in list && x in depth && depth[x] <= n)
    && (forall i, j :: 0 <= i <= j < |list| ==>
          list[i] in depth && list[j] in depth && depth[list[i]] <= depth[list[j]])
  }

  /** The threaded walk as the outer loop sees it. */
  ghost predicate Queue(all: set<Object>, rank: map<Object, nat>, root: Object, list: seq<Object>,
                        depth: map<Object, nat>,
                        k: nat, n: nat, id: nat)
    reads all`searchId, all`searchNext
  {
    && Walk(all, rank, root, list, depth, k, n) && (forall x :: x in list ==> x in all)
    && Threaded(list) && Marks(all, root, list, id) && Discovered(list, k, n)
  }

  lemma QueueFacts(all: set<Object>, rank: map<Object, nat>, root: Object, list: seq<Object>, depth: map<Object, nat>,
                   k: nat, n: nat, id: nat)
    requires Queue(all, rank, root, list, depth, k, n, id)
    ensures list != [] && list[0] == root && k <= |list| <= |all|
    ensures k < |list| ==>
              && list[k] in all && list[k] in depth && n <= |list[k].dependencies|
              && list[k].searchNext == if k + 1 < |list| then list[k + 1] else null
    ensures forall o :: o in all ==> o.searchId <= id
  {
    Inside(all, rank, root, list, depth, k, n);
    hide Walk, Discovered;
  }

  /** One dependency (lines 828-834). */
  method Visit(cur: Object, i: nat, tail: Object, id: nat, ghost all: set<Object>, ghost rank: map<Object, nat>,
               ghost root: Object, ghost list: seq<Object>, ghost depth: map<Object, nat>, ghost k: nat)
      returns (last: Object, ghost longer: seq<Object>, ghost deeper: map<Object, nat>)
    requires Queue(all, rank, root, list, depth, k, i, id) && k < |list| && cur == list[k]
    requires list != [] && tail == list[|list| - 1] && i < |cur.dependencies|
    modifies all`searchId, all`searchNext
    ensures Queue(all, rank, root, longer, deeper, k, i + 1, id) && k < |longer| && cur == longer[k]
    ensures last == longer[|longer| - 1]
  {
    hide *;
    var dep := cur.dependencies[i];
    AtDependency(all, rank, root, list, depth, k, i, id);
    if dep.searchId == id {
      last, longer, deeper := tail, list, depth;
      Skip(all, rank, root, list, depth, k, i);
      NamedAgain(list, k, i);
      IsQueue(all, rank, root, list, depth, k, i + 1, id);
    } else {
      last, longer, deeper := dep, list + [dep], depth[dep := depth[list[k]] + 1];
      assert longer[k] == list[k] && longer[|longer| - 1] == dep;
      Enqueue(tail, dep, id, all, rank, root, list, depth, k, i);
    }
  }

  /** Marking an object and appending it to the queue (lines 831-834). */
  method Enqueue(tail: Object, dep: Object, id: nat, ghost all: set<Object>, ghost rank: map<Object, nat>,
                 ghost root: Object, ghost list: seq<Object>, ghost depth: map<Object, nat>, ghost k: nat, ghost n: nat)
    requires Queue(all, rank, root, list, depth, k, n, id) && k < |list| && n < |list[k].dependencies|
    requires dep == list[k].dependencies[n] && dep !in list && dep in all && tail in all && tail == list[|list| - 1]
    modifies dep`searchId, dep`searchNext, tail`searchNext
    ensures list[k] in depth && Queue(all, rank, root, list + [dep], depth[dep := depth[list[k]] + 1], k, n + 1, id)
  {
    hide *;
    AtDependency(all, rank, root, list, depth, k, n, id);
    Append(all, rank, root, list, depth, k, n);
    NamedFirst(list, k, n);
    ThreadedMeans(list);
    MarksMean(all, root, list, id);
    dep.searchId := id;
    dep.searchNext := null;
    tail.searchNext := dep;
    IsThreaded(list, dep);
    IsMarked(all, root, list, dep, id);
    IsQueue(all, rank, root, list + [dep], depth[dep := depth[list[k]] + 1], k, n + 1, id);
  }

  lemma ThreadedMeans(list: seq<Object>)
    requires Threaded(list) && list != [] && Distinct(list)
    ensures forall i :: 0 <= i < |list| - 1 ==> list[i] != list[|list| - 1]
    ensures forall i {:trigger list[i].searchNext} :: 0 <= i < |list| ==>
              list[i].searchNext == if i + 1 < |list| then list[i + 1] else null
  {
  }

  lemma IsThreaded(list: seq<Object>, dep: Object)
    requires list != [] && dep.searchNext == null && list[|list| - 1].searchNext == dep
    requires forall i {:trigger list[i].searchNext} :: 0 <= i < |list| - 1 ==> list[i].searchNext == list[i + 1]
    ensures Threaded(list + [dep])
  {
  }

  lemma MarksMean(all: set<Object>, root: Object, list: seq<Object>, id: nat)
    requires Marks(all, root, list, id)
    ensures forall o :: o in all ==> o.searchId <= id && (o.searchId == id <==> o != root && o in list)
  {
  }

  lemma IsMarked(all: set<Object>, root: Object, list: seq<Object>, dep: Object, id: nat)
    requires dep != root && dep.searchId == id
    requires forall o :: o in all && o != dep ==> o.searchId <= id && (o.searchId == id <==> o != root && o in list)
    ensures Marks(all, root, list + [dep], id)
  {
  }

  lemma AtDependency(all: set<Object>, rank: map<Object, nat>, root: Object, list: seq<Object>, depth: map<Object, nat>,
                     k: nat, n: nat, id: nat)
    requires Queue(all, rank, root, list, depth, k, n, id) && k < |list| && n < |list[k].dependencies|
    ensures var dep := list[k].dependencies[n];
      && dep in all && dep != root && (dep.searchId == id <==> dep in list)
      && list[k] in depth && list[|list| - 1] in all && Distinct(list)
    ensures Walk(all, rank, root, list, depth, k, n) && (forall x :: x in list ==> x in all)
    ensures Threaded(list) && Marks(all, root, list, id) && Discovered(list, k, n)
  {
    Inside(all, rank, root, list, depth, k, n);
    hide Discovered, Walk;
    assert list[k] in list && list[|list| - 1] in list;
  }

  lemma IsQueue(all: set<Object>, rank: map<Object, nat>, root: Object, list: seq<Object>, depth: map<Object, nat>,
                k: nat, n: nat, id: nat)
    requires Walk(all, rank, root, list, depth, k, n) && (forall x :: x in list ==> x in all)
    requires Threaded(list) && Marks(all, root, list, id) && Discovered(list, k, n)
    ensures Queue(all, rank, root, list, depth, k, n, id)
  {
  }

  /** All dependencies of one object (lines 827-835). */
  method Expand(cur: Object, tail: Object, id: nat, ghost all: set<Object>, ghost rank: map<Object, nat>,
                ghost root: Object, ghost list: seq<Object>, ghost depth: map<Object, nat>, ghost k: nat)
      returns (last: Object, ghost longer: seq<Object>, ghost deeper: map<Object, nat>)
    requires Queue(all, rank, root, list, depth, k, 0, id) && k < |list| && cur == list[k]
    requires tail == list[|list| - 1]
    modifies all`searchId, all`searchNext
    ensures Queue(all, rank, root, longer, deeper, k + 1, 0, id) && k < |longer| && last == longer[|longer| - 1]
    ensures cur.searchNext == if k + 1 < |longer| then longer[k + 1] else null
  {
    hide *;
    last, longer, deeper := tail, list, depth;
    var i := 0;
    while i < |cur.dependencies|
      invariant i <= |cur.dependencies|
      invariant Queue(all, rank, root, longer, deeper, k, i, id) && k < |longer| && cur == longer[k]
      invariant last == longer[|longer| - 1]
    {
      last, longer, deeper := Visit(cur, i, last, id, all, rank, root, longer, deeper, k);
      i := i + 1;
    }
    QueueFacts(all, rank, root, longer, deeper, k, i, id);
    QueueNext(all, rank, root, longer, deeper, k, id);
  }

  /** The queue that holds the root alone. */
  lemma StartQueue(all: set<Object>, rank: map<Object, nat>, root: Object, id: nat)
    requires Ranked(all, rank) && root in all && root.searchNext == null && forall o :: o in all ==> o.searchId < id
    ensures Queue(all, rank, root, [root], map[root := 0], 0, 0, id)
  {
    Start(all, rank, root);
    NothingNamed(root);
    hide Walk, Ranked, Discovered;
  }

  class Searcher {
    var nextSearchId: nat

    /** `build_search_list` (object.c:818-837) */
    method BuildSearchList(root: Object, ghost all: set<Object>, ghost rank: map<Object, nat>)
        returns (head: Object, tail: Object, ghost list: seq<Object>, ghost depth: map<Object, nat>)
      requires Ranked(all, rank) && root in all
      requires forall o :: o in all ==> o.searchId < nextSearchId
      modifies this`nextSearchId, all`searchId, all`searchNext
      ensures head == root && list != [] && tail == list[|list| - 1] && Threaded(list)
      ensures BreadthFirst(all, root, list, depth)
      ensures forall j :: 1 <= j < |list| ==> IsNamed(list, list[j])
      ensures forall i, j, k: nat, n: nat, k': nat, n': nat
                {:trigger FirstNamed(list, list[i], k, n), FirstNamed(list, list[j], k', n')} ::
                1 <= i < j < |list| && FirstNamed(list, list[i], k, n) && FirstNamed(list, list[j], k', n') ==>
                  k < k' || (k == k' && n < n')
      ensures nextSearchId == old(nextSearchId) + 1
      ensures forall o :: o in all ==> o.searchId < nextSearchId
    {
      hide *;
      var id := nextSearchId;
      nextSearchId := nextSearchId + 1;
      head, tail := root, root;
      root.searchNext := null;
      list, depth := [root], map[root := 0];
      StartQueue(all, rank, root, id);
      var cur: Object? := head;
      ghost var k := 0;
      while cur != null
        invariant nextSearchId == id + 1 && Queue(all, rank, root, list, depth, k, 0, id)
        invariant k <= |list| && cur == (if k < |list| then list[k] else null)
        invariant list != [] && tail == list[|list| - 1]
        decreases |all| - k
      {
        QueueFacts(all, rank, root, list, depth, k, 0, id);
        tail, list, depth := Expand(cur, tail, id, all, rank, root, list, depth, k);
        cur := cur.searchNext;
        k := k + 1;
      }
      QueueFacts(all, rank, root, list, depth, k, 0, id);
      QueueDone(all, rank, root, list, depth, id);
      DiscoveredMeans(list);
    }
  }

  lemma QueueNext(all: set<Object>, rank: map<Object, nat>, root: Object, list: seq<Object>, depth: map<Object, nat>,
                  k: nat, id: nat)
    requires k < |list| && Queue(all, rank, root, list, depth, k, |list[k].dependencies|, id)
    ensures Queue(all, rank, root, list, depth, k + 1, 0, id)
  {
    hide Walk, Threaded, Marks, Discovered;
    NextObject(all, rank, root, list, depth, k);
    ObjectDone(list, k);
  }

  lemma QueueDone(all: set<Object>, rank: map<Object, nat>, root: Object, list: seq<Object>, depth: map<Object, nat>,
                  id: nat)
    requires Queue(all, rank, root, list, depth, |list|, 0, id)
    ensures BreadthFirst(all, root, list, depth) && Threaded(list) && Discovered(list, |list|, 0)
  {
    hide Walk, Discovered, BreadthFirst;
    Finished(all, rank, root, list, depth);
  }

  lemma DiscoveredMeans(list: seq<Object>)
    requires Discovered(list, |list|, 0)
    ensures forall j :: 1 <= j < |list| ==> IsNamed(list, list[j])
    ensures forall i, j, k: nat, n: nat, k': nat, n': nat
              {:trigger FirstNamed(list, list[i], k, n), FirstNamed(list, list[j], k', n')} ::
              1 <= i < j < |list| && FirstNamed(list, list[i], k, n) && FirstNamed(list, list[j], k', n') ==>
                k < k' || (k == k' && n < n')
  {
    hide FirstNamed, IsEdge;
    forall j | 1 <= j < |list|
      ensures IsNamed(list, list[j])
    {
      assert NamedBefore(list, list[j], |list|, 0);
      var k: nat, n: nat :| FirstNamed(list, list[j], k, n) && Before(k, n, |list|, 0);
    }
  }

  lemma Finished(all: set<Object>, rank: map<Object, nat>, root: Object, list: seq<Object>, depth: map<Object, nat>)
    requires Walk(all, rank, root, list, depth, |list|, 0)
    ensures BreadthFirst(all, root, list, depth)
  {
    forall x, n {:trigger ReachedIn(all, root, x, n)} | x in all && n >= 0 && ReachedIn(all, root, x, n)
      ensures x in list && x in depth && depth[x] <= n
    {
      Complete(all, rank, root, list, depth, x, n);
    }
  }
}
