/** Running constructors: depth first over the dependency graph, each object after everything it depends on. */
module Initialisation {
  import opened LinkerObjects

  // ----- reachability

  /** x can be reached from o along dependencies. */
  ghost predicate Reaches(all: set<Object>, rank: map<Object, nat>, o: Object, x: Object)
    requires Ranked(all, rank) && o in all
    decreases rank[o]
  {
    x == o || exists d :: d in o.dependencies && Reaches(all, rank, d, x)
  }

  /** A set that holds the dependencies of its members holds whatever they reach. */
  lemma {:induction false} ReachesInside(all: set<Object>, rank: map<Object, nat>, inside: set<Object>, o: Object,
                                         x: Object)
    requires Ranked(all, rank) && o in all && Closed(inside) && o in inside && Reaches(all, rank, o, x)
    ensures x in inside
    decreases rank[o]
  {
    if x != o {
      var d :| d in o.dependencies && Reaches(all, rank, d, x);
      ReachesInside(all, rank, inside, d, x);
    }
  }

  // ----- events

  function PreinitUpTo(o: Object, n: nat): seq<Event>
  {
    if n == 0 then [] else PreinitUpTo(o, n - 1) + [Preinit(o, n - 1)]
  }

  function InitArrayUpTo(o: Object, n: nat): seq<Event>
  {
    if n == 0 then [] else InitArrayUpTo(o, n - 1) + [InitArray(o, n - 1)]
  }

  /** An object's constructors: the single function, then the array in order. */
  function InitEvents(o: Object): seq<Event>
  {
    (if o.init then [Init(o)] else []) + InitArrayUpTo(o, o.initArray)
  }

  function AllInitEvents(order: seq<Object>): seq<Event>
  {
    if order == [] then [] else AllInitEvents(order[..|order| - 1]) + InitEvents(order[|order| - 1])
  }

  /** A trace without the preinit calls of the root object. */
  function Constructors(trace: seq<Event>): seq<Event>
  {
    if trace == [] then []
    else Constructors(trace[..|trace| - 1]) + if trace[|trace| - 1].Preinit? then [] else [trace[|trace| - 1]]
  }

  lemma {:induction false} ConstructorsAppend(a: seq<Event>, b: seq<Event>)
    ensures Constructors(a + b) == Constructors(a) + Constructors(b)
    decreases |b|
  {
    if b == [] {
      assert a + b == a;
    } else {
      assert (a + b)[..|a + b| - 1] == a + b[..|b| - 1];
      ConstructorsAppend(a, b[..|b| - 1]);
    }
  }

  lemma {:induction false} PreinitDropped(o: Object, n: nat)
    ensures Constructors(PreinitUpTo(o, n)) == []
  {
    if n > 0 {
      PreinitDropped(o, n - 1);
      assert PreinitUpTo(o, n)[..|PreinitUpTo(o, n)| - 1] == PreinitUpTo(o, n - 1);
    }
  }

  lemma {:induction false} InitArrayKept(o: Object, n: nat)
    ensures Constructors(InitArrayUpTo(o, n)) == InitArrayUpTo(o, n)
  {
    if n > 0 {
      InitArrayKept(o, n - 1);
      assert InitArrayUpTo(o, n)[..|InitArrayUpTo(o, n)| - 1] == InitArrayUpTo(o, n - 1);
    }
  }

  lemma InitKept(o: Object)
    ensures Constructors(InitEvents(o)) == InitEvents(o)
  {
    InitArrayKept(o, o.initArray);
    var first := if o.init then [Init(o)] else [];
    assert first != [] ==> first[..|first| - 1] == [];
    assert Constructors(first) == first;
    ConstructorsAppend(first, InitArrayUpTo(o, o.initArray));
  }

  lemma EventsStep(s: seq<Object>, x: Object)
    ensures AllInitEvents([]) == [] && AllInitEvents(s + [x]) == AllInitEvents(s) + InitEvents(x)
  {
    assert (s + [x])[..|s + [x]| - 1] == s;
  }

  lemma {:induction false} EventsAppend(a: seq<Object>, b: seq<Object>)
    ensures AllInitEvents(a + b) == AllInitEvents(a) + AllInitEvents(b)
    decreases |b|
  {
    if b == [] {
      assert a + b == a;
    } else {
      var rest, x := b[..|b| - 1], b[|b| - 1];
      assert a + b == (a + rest) + [x] && b == rest + [x];
      hide *;
      EventsAppend(a, rest);
      EventsStep(a + rest, x);
      EventsStep(rest, x);
      EventsAssociate(AllInitEvents(a), AllInitEvents(rest), InitEvents(x));
    }
  }

  lemma {:induction false} PreinitAt(o: Object, n: nat)
    ensures |PreinitUpTo(o, n)| == n && forall k :: 0 <= k < n ==> PreinitUpTo(o, n)[k] == Preinit(o, k)
  {
    if n > 0 { PreinitAt(o, n - 1); }
  }

  lemma {:induction false} InitArrayAt(o: Object, n: nat)
    ensures |InitArrayUpTo(o, n)| == n && forall k :: 0 <= k < n ==> InitArrayUpTo(o, n)[k] == InitArray(o, k)
  {
    if n > 0 { InitArrayAt(o, n - 1); }
  }

  /** One object's constructors, by position: the single function comes first, then the array in order. */
  lemma InitEventsAt(o: Object)
    ensures |InitEvents(o)| == o.initArray + (if o.init then 1 else 0)
    ensures o.init ==> InitEvents(o)[0] == Init(o)
    ensures forall k :: (if o.init then 1 else 0) <= k < |InitEvents(o)| ==>
              InitEvents(o)[k] == InitArray(o, if o.init then k - 1 else k)
  {
    InitArrayAt(o, o.initArray);
  }

  /** Leaving out the preinit calls keeps every other call. */
  lemma ConstructorsAre(e: Event)
    ensures Constructors([]) == [] && Constructors([e]) == if e.Preinit? then [] else [e]
  {
    assert [e][..0] == [];
  }

  // ----- the order

  /** The path takes these dependencies, by index, from o to x. */
  ghost predicate Leads(o: Object, path: seq<nat>, x: Object)
  {
    if path == [] then o == x
    else path[0] < |o.dependencies| && Leads(o.dependencies[path[0]], path[1..], x)
  }

  /** p takes an earlier dependency than q where they part. */
  ghost predicate Below(p: seq<nat>, q: seq<nat>)
  {
    exists k :: 0 <= k < |p| && k < |q| && p[..k] == q[..k] && p[k] < q[k]
  }

  /** Each object with the path that takes the earliest dependencies, and the objects by path, the longer ones first. */
  ghost predicate DepthFirst(o: Object, order: seq<Object>, paths: seq<seq<nat>>)
  {
    && |paths| == |order| && LongerFirst(paths)
    && forall k :: 0 <= k < |order| ==> FirstPath(o, paths[k], order[k])
  }

  /** Of all paths from o to x, this is the one that takes the earliest dependencies. */
  ghost predicate FirstPath(o: Object, first: seq<nat>, x: Object)
  {
    Leads(o, first, x) && forall path :: Leads(o, path, x) ==> path == first || Below(first, path)
  }

  ghost predicate LongerFirst(paths: seq<seq<nat>>)
  {
    forall k, l :: 0 <= k < l < |paths| ==> Below(paths[k], paths[l]) || paths[l] < paths[k]
  }

  lemma DepthFirstMeans(o: Object, order: seq<Object>, paths: seq<seq<nat>>)
    requires DepthFirst(o, order, paths)
    ensures |paths| == |order| && forall k :: 0 <= k < |order| ==> Leads(o, paths[k], order[k])
    ensures forall k, path :: 0 <= k < |order| && Leads(o, path, order[k]) ==>
              path == paths[k] || Below(paths[k], path)
    ensures forall k, l :: 0 <= k < l < |order| ==> Below(paths[k], paths[l]) || paths[l] < paths[k]
  {
    forall k | 0 <= k < |order|
      ensures Leads(o, paths[k], order[k])
      ensures forall path :: Leads(o, path, order[k]) ==> path == paths[k] || Below(paths[k], path)
    {
      assert FirstPath(o, paths[k], order[k]);
    }
  }

  /** All paths start with one of the first i dependencies. */
  ghost predicate Through(paths: seq<seq<nat>>, i: nat)
  {
    forall k :: 0 <= k < |paths| ==> |paths[k]| > 0 && paths[k][0] < i
  }

  function Under(i: nat, paths: seq<seq<nat>>): (under: seq<seq<nat>>)
    ensures |under| == |paths| && forall k :: 0 <= k < |paths| ==> under[k] == [i] + paths[k]
  {
    seq(|paths|, k requires 0 <= k < |paths| => [i] + paths[k])
  }

  lemma LeadsOn(o: Object, i: nat, path: seq<nat>, x: Object)
    requires i < |o.dependencies| && Leads(o.dependencies[i], path, x)
    ensures Leads(o, [i] + path, x)
  {
    assert ([i] + path)[1..] == path;
  }

  lemma BelowUnder(i: nat, p: seq<nat>, q: seq<nat>)
    requires Below(p, q)
    ensures Below([i] + p, [i] + q)
  {
    var k :| 0 <= k < |p| && k < |q| && p[..k] == q[..k] && p[k] < q[k];
    assert ([i] + p)[..k + 1] == ([i] + q)[..k + 1];
  }

  lemma BelowAtOnce(p: seq<nat>, q: seq<nat>)
    requires |p| > 0 && |q| > 0 && p[0] < q[0]
    ensures Below(p, q)
  {
    assert p[..0] == q[..0];
  }

  lemma {:induction false} LeadsInside(inside: set<Object>, o: Object, path: seq<nat>, x: Object)
    requires Closed(inside) && o in inside && Leads(o, path, x)
    ensures x in inside
    decreases |path|
  {
    if path != [] {
      assert o.dependencies[path[0]] in o.dependencies;
      LeadsInside(inside, o.dependencies[path[0]], path[1..], x);
    }
  }

  lemma {:induction false} LeadsDown(all: set<Object>, rank: map<Object, nat>, o: Object, path: seq<nat>, x: Object)
    requires Ranked(all, rank) && o in all && Leads(o, path, x)
    ensures x in all && rank[x] + |path| <= rank[o]
    decreases |path|
  {
    if path != [] {
      assert o.dependencies[path[0]] in o.dependencies;
      LeadsDown(all, rank, o.dependencies[path[0]], path[1..], x);
    }
  }

  /** The first path to x is through the i-th dependency if the earlier ones do not reach it. */
  lemma FirstThrough(all: set<Object>, rank: map<Object, nat>, mid: set<Object>, o: Object, i: nat, first: seq<nat>,
                     x: Object)
    requires Ranked(all, rank) && o in all && i < |o.dependencies| && Closed(mid) && x !in mid
    requires forall j :: 0 <= j < i ==> o.dependencies[j] in mid
    requires x in all && rank[x] < rank[o] && FirstPath(o.dependencies[i], first, x)
    ensures FirstPath(o, [i] + first, x)
  {
    LeadsOn(o, i, first, x);
    forall path | Leads(o, path, x)
      ensures path == [i] + first || Below([i] + first, path)
    {
      var j, rest := path[0], path[1..];
      assert path == [j] + rest;
      if j < i {
        LeadsInside(mid, o.dependencies[j], rest, x);
      } else if j == i {
        if rest != first { BelowUnder(i, first, rest); }
      } else {
        BelowAtOnce([i] + first, path);
      }
    }
  }

  lemma LongerFirstThen(i: nat, paths1: seq<seq<nat>>, paths2: seq<seq<nat>>)
    requires LongerFirst(paths1) && Through(paths1, i) && LongerFirst(paths2)
    ensures LongerFirst(paths1 + Under(i, paths2)) && Through(paths1 + Under(i, paths2), i + 1)
  {
    var paths, n := paths1 + Under(i, paths2), |paths1|;
    forall k, l | 0 <= k < l < |paths|
      ensures Below(paths[k], paths[l]) || paths[l] < paths[k]
    {
      if k < n <= l {
        BelowAtOnce(paths[k], paths[l]);
      } else if n <= k {
        assert paths[k] == [i] + paths2[k - n] && paths[l] == [i] + paths2[l - n];
        if Below(paths2[k - n], paths2[l - n]) { BelowUnder(i, paths2[k - n], paths2[l - n]); }
      }
    }
  }

  lemma DepthFirstThen(all: set<Object>, rank: map<Object, nat>, mid: set<Object>, o: Object, i: nat,
                       first: seq<Object>, paths1: seq<seq<nat>>, second: seq<Object>, paths2: seq<seq<nat>>)
    requires Ranked(all, rank) && o in all && i < |o.dependencies| && Closed(mid)
    requires forall j :: 0 <= j < i ==> o.dependencies[j] in mid
    requires forall x :: x in second ==> x in all && x !in mid && rank[x] < rank[o]
    requires DepthFirst(o, first, paths1) && Through(paths1, i) && DepthFirst(o.dependencies[i], second, paths2)
    ensures DepthFirst(o, first + second, paths1 + Under(i, paths2))
    ensures Through(paths1 + Under(i, paths2), i + 1)
  {
    LongerFirstThen(i, paths1, paths2);
    hide FirstPath, LongerFirst, Ranked, Closed;
    var order, paths, n := first + second, paths1 + Under(i, paths2), |first|;
    forall k | 0 <= k < |order|
      ensures FirstPath(o, paths[k], order[k])
    {
      if k < n {
        assert FirstPath(o, paths1[k], first[k]);
      } else {
        assert second[k - n] in second;
        FirstThrough(all, rank, mid, o, i, paths2[k - n], second[k - n]);
      }
    }
  }

  /** The object itself comes last. */
  lemma DepthFirstLast(all: set<Object>, rank: map<Object, nat>, o: Object, order: seq<Object>, paths: seq<seq<nat>>,
                       i: nat)
    requires Ranked(all, rank) && o in all && DepthFirst(o, order, paths) && Through(paths, i)
    ensures DepthFirst(o, order + [o], paths + [[]])
  {
    forall path | Leads(o, path, o)
      ensures path == []
    {
      LeadsDown(all, rank, o, path, o);
    }
  }

  lemma NoPaths(o: Object)
    ensures DepthFirst(o, [], []) && Through([], 0)
  {
  }

  // ----- the state

  ghost predicate Marked(all: set<Object>, inited: set<Object>)
    reads all`initialized
  {
    forall o :: o in all ==> (o.initialized <==> o in inited)
  }

  /** Every object of order comes after its dependencies, those initialised before aside. */
  ghost predicate DependenciesFirst(before: set<Object>, order: seq<Object>)
  {
    forall i, d :: 0 <= i < |order| && d in order[i].dependencies ==> d in before || d in order[..i]
  }

  /** What the calls below o have initialised so far. */
  ghost predicate Initialised(all: set<Object>, rank: map<Object, nat>, before: set<Object>, inited: set<Object>,
                              order: seq<Object>, bound: nat)
  {
    && before <= inited <= all && Closed(inited) && Distinct(order) && DependenciesFirst(before, order)
    && (forall x :: x in order ==> x in inited && x !in before && x in rank && rank[x] < bound)
    && (forall x :: x in inited && x !in before ==> x in order)
  }

  /** One stretch of initialisation after another. */
  lemma Combine(all: set<Object>, rank: map<Object, nat>, before: set<Object>, mid: set<Object>, after: set<Object>,
                first: seq<Object>, second: seq<Object>, low: nat, bound: nat)
    requires Initialised(all, rank, before, mid, first, bound) && Initialised(all, rank, mid, after, second, low)
    requires low <= bound
    ensures Initialised(all, rank, before, after, first + second, bound)
  {
    var order := first + second;
    forall i, j | 0 <= i < j < |order|
      ensures order[i] != order[j]
    {
      if i < |first| <= j { assert first[i] in first && second[j - |first|] in second; }
    }
    forall i, d | 0 <= i < |order| && d in order[i].dependencies
      ensures d in before || d in order[..i]
    {
      if i < |first| {
        assert first[i] in first && order[i] == first[i] && order[..i] == first[..i];
      } else {
        assert order[i] == second[i - |first|] && order[..i] == first + second[..i - |first|];
      }
    }
  }

  /** The object itself comes last. */
  lemma Finish(all: set<Object>, rank: map<Object, nat>, before: set<Object>, mid: set<Object>,
               order: seq<Object>, o: Object)
    requires Ranked(all, rank) && o in all && o !in before && Initialised(all, rank, before, mid, order, rank[o])
    requires forall d :: d in o.dependencies ==> d in mid
    ensures Initialised(all, rank, before, mid + {o}, order + [o], rank[o] + 1)
  {
    var longer := order + [o];
    forall i, d | 0 <= i < |longer| && d in longer[i].dependencies
      ensures d in before || d in longer[..i]
    {
      if i < |order| {
        assert longer[i] == order[i] && longer[..i] == order[..i];
      } else {
        assert longer[..i] == order;
      }
    }
  }

  lemma ClosedAfter(all: set<Object>, rank: map<Object, nat>, before: set<Object>, after: set<Object>,
                    order: seq<Object>, bound: nat)
    requires Initialised(all, rank, before, after, order, bound)
    ensures before <= after <= all && Closed(after)
    ensures forall x :: x in order ==> x in after && x !in before && x in rank && rank[x] < bound
  {
  }

  lemma AtObject(all: set<Object>, inited: set<Object>, o: Object)
    requires Marked(all, inited) && o in all
    ensures o.initialized <==> o in inited
  {
  }

  lemma ReachesThrough(all: set<Object>, rank: map<Object, nat>, o: Object, d: Object, order: seq<Object>)
    requires Ranked(all, rank) && o in all && d in o.dependencies
    requires forall x :: x in order ==> Reaches(all, rank, d, x)
    ensures forall x :: x in order ==> Reaches(all, rank, o, x)
  {
  }

  /** An object is never initialised on its own behalf. */
  lemma NotYet(all: set<Object>, rank: map<Object, nat>, before: set<Object>, after: set<Object>,
               order: seq<Object>, o: Object)
    requires o in rank && o !in before && Initialised(all, rank, before, after, order, rank[o])
    ensures o !in order && o !in after
  {
  }

  lemma NothingYet(all: set<Object>, rank: map<Object, nat>, before: set<Object>, o: Object)
    requires Ranked(all, rank) && o in all && before <= all && Closed(before)
    ensures all <= rank.Keys
    ensures Initialised(all, rank, before, before, [], rank[o])
    ensures Initialised(all, rank, before, before, [], rank[o] + 1)
    ensures forall d :: d in o.dependencies ==> d in all && rank[d] < rank[o]
  {
  }

  /** What is appended to the trace while the objects of order are initialised. */
  ghost predicate Ran(start: seq<Event>, end: seq<Event>, root: Object?, order: seq<Object>)
  {
    && Constructors(end) == Constructors(start) + AllInitEvents(order)
    && (root !in order ==> end == start + AllInitEvents(order))
  }

  lemma RanNothing(start: seq<Event>, root: Object?)
    ensures Ran(start, start, root, [])
  {
  }

  lemma RanThen(start: seq<Event>, mid: seq<Event>, end: seq<Event>, root: Object?, first: seq<Object>,
                second: seq<Object>)
    requires Ran(start, mid, root, first) && Ran(mid, end, root, second)
    ensures Ran(start, end, root, first + second)
  {
    hide *;
    EventsAppend(first, second);
    NamedRan(start, mid, root, first);
    NamedRan(mid, end, root, second);
    NamedRan(start, end, root, first + second);
    EventsAssociate(Constructors(start), AllInitEvents(first), AllInitEvents(second));
    EventsAssociate(start, AllInitEvents(first), AllInitEvents(second));
  }

  lemma RanSelf(start: seq<Event>, preinit: seq<Event>, mid: seq<Event>, root: Object?, order: seq<Object>, o: Object)
    requires preinit == start + (if o == root then PreinitUpTo(o, o.preinitArray) else [])
    requires Ran(preinit, mid, root, order) && o !in order
    ensures var end := mid + InitEvents(o);
      && Ran(start, end, root, order + [o])
      && (o == root && root !in order ==> end == start + PreinitUpTo(o, o.preinitArray) + AllInitEvents(order + [o]))
  {
    var p, e, longer := if o == root then PreinitUpTo(o, o.preinitArray) else [], InitEvents(o), order + [o];
    PreinitDropped(o, o.preinitArray);
    ConstructorsAppend(start, p);
    ConstructorsAppend(mid, e);
    InitKept(o);
    assert longer[..|longer| - 1] == order;
    assert AllInitEvents(longer) == AllInitEvents(order) + e;
    assert start + [] == start && Constructors([]) == [];
    assert Constructors(preinit) == Constructors(start);
    assert Constructors(mid + e) == Constructors(start) + AllInitEvents(order) + e;
    assert root !in order ==> mid == preinit + AllInitEvents(order);
    EventsAssociate(Constructors(start), AllInitEvents(order), e);
    EventsAssociate(preinit, AllInitEvents(order), e);
    NamedRan(start, mid + e, root, longer);
    hide *;
  }

  lemma NamedRan(start: seq<Event>, end: seq<Event>, root: Object?, order: seq<Object>)
    ensures Ran(start, end, root, order) <==>
              && Constructors(end) == Constructors(start) + AllInitEvents(order)
              && (root !in order ==> end == start + AllInitEvents(order))
  {
  }

  class Initialiser {
    var rootObject: Object?
    var trace: seq<Event>

    /** `call_init_array` on the preinit array */
    method CallPreinitArray(o: Object)
      modifies this`trace
      ensures trace == old(trace) + PreinitUpTo(o, o.preinitArray)
    {
      var i := 0;
      while i < o.preinitArray
        invariant i <= o.preinitArray && trace == old(trace) + PreinitUpTo(o, i)
      {
        trace := trace + [Preinit(o, i)];
        i := i + 1;
      }
    }

    /** `call_init_array` */
    method CallInitArray(o: Object)
      modifies this`trace
      ensures trace == old(trace) + InitArrayUpTo(o, o.initArray)
    {
      var i := 0;
      while i < o.initArray
        invariant i <= o.initArray && trace == old(trace) + InitArrayUpTo(o, i)
      {
        trace := trace + [InitArray(o, i)];
        i := i + 1;
      }
    }

    /** The loop over the dependencies (lines 993-995). */
    method InitDependencies(o: Object, ghost all: set<Object>, ghost rank: map<Object, nat>, ghost before: set<Object>)
        returns (ghost order: seq<Object>, ghost after: set<Object>, ghost paths: seq<seq<nat>>)
      requires Ranked(all, rank) && o in all && Marked(all, before) && before <= all && Closed(before)
      modifies this`trace, all`initialized
      decreases rank[o], 0
      ensures Marked(all, after) && forall d :: d in o.dependencies ==> d in after
      ensures Initialised(all, rank, before, after, order, rank[o])
      ensures forall x :: x in order ==> Reaches(all, rank, o, x)
      ensures Ran(old(trace), trace, rootObject, order)
      ensures DepthFirst(o, order, paths) && Through(paths, |o.dependencies|)
    {
      hide *;
      order, after, paths := [], before, [];
      NothingYet(all, rank, before, o);
      RanNothing(trace, rootObject);
      NoPaths(o);
      var i := 0;
      while i < |o.dependencies|
        invariant i <= |o.dependencies|
        invariant Marked(all, after) && Initialised(all, rank, before, after, order, rank[o])
        invariant forall j :: 0 <= j < i ==> o.dependencies[j] in after
        invariant forall x :: x in order ==> Reaches(all, rank, o, x)
        invariant Ran(old(trace), trace, rootObject, order)
        invariant DepthFirst(o, order, paths) && Through(paths, i)
      {
        order, after, paths := InitDependency(o, i, all, rank, before, order, after, paths, old(trace));
        i := i + 1;
      }
    }

    method InitDependency(o: Object, i: nat, ghost all: set<Object>, ghost rank: map<Object, nat>,
                          ghost before: set<Object>, ghost first: seq<Object>, ghost mid: set<Object>,
                          ghost paths1: seq<seq<nat>>, ghost start: seq<Event>)
        returns (ghost order: seq<Object>, ghost after: set<Object>, ghost paths: seq<seq<nat>>)
      requires Ranked(all, rank) && o in all && i < |o.dependencies|
      requires var d := o.dependencies[i]; d in all && d in rank && rank[d] < rank[o]
      requires forall j :: 0 <= j < i ==> o.dependencies[j] in mid
      requires DepthFirst(o, first, paths1) && Through(paths1, i)
      requires Marked(all, mid) && Initialised(all, rank, before, mid, first, rank[o])
      requires Ran(start, trace, rootObject, first)
      requires forall x :: x in first ==> Reaches(all, rank, o, x)
      modifies this`trace, all`initialized
      decreases rank[o.dependencies[i]], 2
      ensures Marked(all, after) && mid <= after && o.dependencies[i] in after
      ensures Initialised(all, rank, before, after, order, rank[o]) && Ran(start, trace, rootObject, order)
      ensures forall x :: x in order ==> Reaches(all, rank, o, x)
      ensures DepthFirst(o, order, paths) && Through(paths, i + 1)
    {
      var d := o.dependencies[i];
      ClosedAfter(all, rank, before, mid, first, rank[o]);
      hide *;
      ghost var second, paths2;
      second, after, paths2 := CallInitFunctions(d, all, rank, mid);
      order, paths := first + second, paths1 + Under(i, paths2);
      Combine(all, rank, before, mid, after, first, second, rank[d] + 1, rank[o]);
      RanThen(start, old(trace), trace, rootObject, first, second);
      ClosedAfter(all, rank, mid, after, second, rank[d] + 1);
      ReachesThrough(all, rank, o, d, second);
      DepthFirstThen(all, rank, mid, o, i, first, paths1, second, paths2);
    }

    /** `call_init_functions` (object.c:988-1001) */
    method CallInitFunctions(o: Object, ghost all: set<Object>, ghost rank: map<Object, nat>, ghost before: set<Object>)
        returns (ghost order: seq<Object>, ghost after: set<Object>, ghost paths: seq<seq<nat>>)
      requires Ranked(all, rank) && o in all && Marked(all, before) && before <= all && Closed(before)
      modifies this`trace, all`initialized
      decreases rank[o], 1
      ensures Marked(all, after) && o in after
      ensures Initialised(all, rank, before, after, order, rank[o] + 1)
      ensures forall x :: x in order ==> Reaches(all, rank, o, x)
      ensures Ran(old(trace), trace, rootObject, order)
      ensures o == rootObject && o !in before ==>
                trace == old(trace) + PreinitUpTo(o, o.preinitArray) + AllInitEvents(order)
      ensures DepthFirst(o, order, paths)
    {
      order, after, paths := [], before, [];
      NoPaths(o);
      NothingYet(all, rank, before, o);
      RanNothing(trace, rootObject);
      AtObject(all, before, o);
      if o.initialized { return; }
      assert Reaches(all, rank, o, o);
      hide *;
      if o == rootObject { CallPreinitArray(o); }
      ghost var preinit := trace;
      order, after, paths := InitDependencies(o, all, rank, before);
      NotYet(all, rank, before, after, order, o);
      RanSelf(old(trace), preinit, trace, rootObject, order, o);
      RunOwn(o);
      Mark(o, all, after);
      Finish(all, rank, before, after, order, o);
      DepthFirstLast(all, rank, o, order, paths, |o.dependencies|);
      order, after, paths := order + [o], after + {o}, paths + [[]];
    }

    method Mark(o: Object, ghost all: set<Object>, ghost inited: set<Object>)
      requires Marked(all, inited) && o in all
      modifies o`initialized
      ensures Marked(all, inited + {o})
    {
      o.initialized := true;
    }

    /** The object's own constructors (lines 997-998). */
    method RunOwn(o: Object)
      modifies this`trace
      ensures trace == old(trace) + InitEvents(o)
    {
      if o.init { trace := trace + [Init(o)]; }
      CallInitArray(o);
    }
  }

  /** A call initialises exactly what the object reaches and was not initialised before. */
  lemma ExactlyReachable(all: set<Object>, rank: map<Object, nat>, before: set<Object>, after: set<Object>,
                         order: seq<Object>, o: Object)
    requires Ranked(all, rank) && o in all && o in after && Initialised(all, rank, before, after, order, rank[o] + 1)
    requires forall x :: x in order ==> Reaches(all, rank, o, x)
    ensures forall x :: x in all ==> (x in order <==> x !in before && Reaches(all, rank, o, x))
    ensures forall x :: x in all && Reaches(all, rank, o, x) ==> x in after
  {
    forall x | x in all && Reaches(all, rank, o, x)
      ensures x in after
    {
      ReachesInside(all, rank, after, o, x);
    }
  }
}
