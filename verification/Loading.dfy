/**
  Loading an object with its dependencies: each new object goes to the front of the list of objects before its
  dependencies are loaded, and every dependency found counts one more unterminated dependent.
 */
module Loading {
  import opened LinkerObjects
  import opened Finalisation
  import Initialisation

  // ----- edges recorded so far

  /** How many dependencies of each listed object have been recorded. */
  ghost predicate Recording(objects: seq<Object>, rec: map<Object, nat>)
  {
    forall x :: x in objects ==> x in rec && rec[x] <= |x.dependencies|
  }

  function Recorded(x: Object, rec: map<Object, nat>): seq<Object>
    requires x in rec && rec[x] <= |x.dependencies|
  {
    x.dependencies[..rec[x]]
  }

  /** The recorded dependency edges to o. */
  ghost function EdgesSoFar(objects: seq<Object>, rec: map<Object, nat>, o: Object): nat
    requires Recording(objects, rec)
  {
    if objects == [] then 0 else Mult(Recorded(objects[0], rec), o) + EdgesSoFar(objects[1..], rec, o)
  }

  lemma {:induction false} SoFarSame(objects: seq<Object>, rec: map<Object, nat>, rec': map<Object, nat>, o: Object)
    requires Recording(objects, rec) && Recording(objects, rec') && forall x :: x in objects ==> rec'[x] == rec[x]
    ensures EdgesSoFar(objects, rec', o) == EdgesSoFar(objects, rec, o)
  {
    if objects != [] { SoFarSame(objects[1..], rec, rec', o); }
  }

  /** A new object at the front has no recorded dependencies yet. */
  lemma SoFarPush(objects: seq<Object>, rec: map<Object, nat>, x: Object, o: Object)
    requires Recording(objects, rec) && x !in objects
    ensures Recording([x] + objects, rec[x := 0])
    ensures EdgesSoFar([x] + objects, rec[x := 0], o) == EdgesSoFar(objects, rec, o)
  {
    SoFarSame(objects, rec, rec[x := 0], o);
    assert ([x] + objects)[1..] == objects;
    assert Recorded(x, rec[x := 0]) == [];
  }

  /** Recording one more dependency of x adds one edge. */
  lemma {:induction false} SoFarStep(objects: seq<Object>, rec: map<Object, nat>, x: Object, o: Object)
    requires Recording(objects, rec) && Distinct(objects) && x in objects && rec[x] < |x.dependencies|
    ensures Recording(objects, rec[x := rec[x] + 1])
    ensures EdgesSoFar(objects, rec[x := rec[x] + 1], o)
            == EdgesSoFar(objects, rec, o) + if x.dependencies[rec[x]] == o then 1 else 0
  {
    var rec', rest := rec[x := rec[x] + 1], objects[1..];
    if objects[0] == x {
      assert x !in rest;
      SoFarSame(rest, rec, rec', o);
      MultStep(x.dependencies, rec[x]);
    } else {
      SoFarStep(rest, rec, x, o);
    }
  }

  /** Once everything is recorded, the recorded edges are the dependency edges. */
  lemma {:induction false} SoFarAll(objects: seq<Object>, rec: map<Object, nat>, o: Object)
    requires Recording(objects, rec) && forall x :: x in objects ==> rec[x] == |x.dependencies|
    ensures EdgesSoFar(objects, rec, o) == Edges(objects, {}, o)
  {
    if objects != [] {
      SoFarAll(objects[1..], rec, o);
      var x := objects[0];
      assert x.dependencies[..|x.dependencies|] == x.dependencies;
    }
  }

  // ----- the state

  ghost predicate CountedSoFar(universe: set<Object>, objects: seq<Object>, rec: map<Object, nat>)
    requires Recording(objects, rec)
    reads universe`terminated, universe`unterminatedDependents
  {
    forall o :: o in universe ==> !o.terminated && o.unterminatedDependents == EdgesSoFar(objects, rec, o)
  }

  /** The list holds the registered objects, each once, and what is recorded of their dependencies. */
  ghost predicate Consistent(universe: set<Object>, registered: set<Object>, objects: seq<Object>,
                             rec: map<Object, nat>)
  {
    && Distinct(objects) && Recording(objects, rec)
    && registered == (set o | o in objects) && registered <= universe
    && forall x, d :: x in objects && d in Recorded(x, rec) ==> d in registered
  }

  /** All dependencies of all listed objects are recorded. */
  ghost predicate Complete(objects: seq<Object>, rec: map<Object, nat>)
  {
    forall x :: x in objects ==> x in rec && rec[x] == |x.dependencies|
  }

  /**
    What loading o has added so far: objects in front of the old ones, all of which o reaches, and all of whose
    dependencies are recorded; of o itself n are.
   */
  ghost predicate Grown(universe: set<Object>, rank: map<Object, nat>, o: Object, n: nat,
                        objects: seq<Object>, rec: map<Object, nat>, objects': seq<Object>, rec': map<Object, nat>)
    requires Ranked(universe, rank) && o in universe
  {
    && |objects| <= |objects'| && objects'[|objects'| - |objects|..] == objects
    && (forall x :: x in objects ==> x in rec && x in rec' && rec'[x] == rec[x])
    && (forall x :: x in objects' && x !in objects ==>
          && x in rec' && rec'[x] == (if x == o then n else |x.dependencies|)
          && Initialisation.Reaches(universe, rank, o, x))
    && o in objects' && o !in objects
  }

  /** Loading a dependency in between. */
  lemma GrownThen(universe: set<Object>, rank: map<Object, nat>, o: Object, n: nat, d: Object,
                  objects: seq<Object>, rec: map<Object, nat>, mid: seq<Object>, rec1: map<Object, nat>,
                  objects': seq<Object>, rec': map<Object, nat>)
    requires Ranked(universe, rank) && o in universe && d in o.dependencies && d in universe
    requires Grown(universe, rank, o, n, objects, rec, mid, rec1)
    requires Grown(universe, rank, d, |d.dependencies|, mid, rec1, objects', rec')
    ensures Grown(universe, rank, o, n, objects, rec, objects', rec')
  {
    var k, m := |objects'| - |mid|, |mid| - |objects|;
    assert objects'[k + m..] == objects'[k..][m..];
    assert forall x :: x in mid ==> x in objects' by {
      assert forall i :: 0 <= i < |mid| ==> objects'[k + i] == mid[i];
    }
    assert forall x :: x in objects ==> x in mid by {
      assert forall i :: 0 <= i < |objects| ==> mid[m + i] == objects[i];
    }
    forall x | x in objects' && x !in mid
      ensures Initialisation.Reaches(universe, rank, o, x)
    {
    }
  }

  /** One more dependency of o is recorded. */
  lemma GrownStep(universe: set<Object>, rank: map<Object, nat>, o: Object, n: nat,
                  objects: seq<Object>, rec: map<Object, nat>, objects': seq<Object>, rec': map<Object, nat>)
    requires Ranked(universe, rank) && o in universe && Grown(universe, rank, o, n, objects, rec, objects', rec')
    ensures o in rec' && rec'[o] == n
    ensures Grown(universe, rank, o, n + 1, objects, rec, objects', rec'[o := n + 1])
  {
  }

  // ----- the order of the list

  /** The longer paths and the later ones first. */
  ghost predicate LaterFirst(paths: seq<seq<nat>>)
  {
    forall k, l :: 0 <= k < l < |paths| ==> Initialisation.Below(paths[l], paths[k]) || paths[l] < paths[k]
  }

  /** The objects in front of the last n are listed by their first paths from o. */
  ghost predicate ListedBy(o: Object, objects: seq<Object>, n: nat, paths: seq<seq<nat>>)
  {
    && |paths| + n == |objects| && LaterFirst(paths)
    && forall k :: 0 <= k < |paths| ==> Initialisation.FirstPath(o, paths[k], objects[k])
  }

  /** No path starts with the i-th dependency or a later one. */
  ghost predicate NoneThrough(paths: seq<seq<nat>>, i: nat)
  {
    forall k :: 0 <= k < |paths| ==> paths[k] == [] || paths[k][0] < i
  }

  /** What this says of each new object: it determines its place. */
  lemma ListedByMeans(o: Object, objects: seq<Object>, n: nat, paths: seq<seq<nat>>)
    requires ListedBy(o, objects, n, paths)
    ensures |paths| + n == |objects|
    ensures forall k :: 0 <= k < |paths| ==> Initialisation.Leads(o, paths[k], objects[k])
    ensures forall k, path :: 0 <= k < |paths| && Initialisation.Leads(o, path, objects[k]) ==>
              path == paths[k] || Initialisation.Below(paths[k], path)
    ensures forall k, l :: 0 <= k < l < |paths| ==> Initialisation.Below(paths[l], paths[k]) || paths[l] < paths[k]
  {
    forall k | 0 <= k < |paths|
      ensures Initialisation.Leads(o, paths[k], objects[k])
      ensures forall path :: Initialisation.Leads(o, path, objects[k]) ==>
                path == paths[k] || Initialisation.Below(paths[k], path)
    {
      assert Initialisation.FirstPath(o, paths[k], objects[k]);
    }
  }

  lemma NoneThroughMore(paths: seq<seq<nat>>, i: nat)
    requires NoneThrough(paths, i) || NoneThrough(paths, i + 1)
    ensures NoneThrough(paths, i + 1)
  {
  }

  lemma ListedFirst(universe: set<Object>, rank: map<Object, nat>, o: Object, objects: seq<Object>)
    requires Ranked(universe, rank) && o in universe
    ensures ListedBy(o, [o] + objects, |objects|, [[]]) && NoneThrough([[]], 0)
  {
    forall path | Initialisation.Leads(o, path, o)
      ensures path == []
    {
      Initialisation.LeadsDown(universe, rank, o, path, o);
    }
    assert Initialisation.FirstPath(o, [], o);
  }

  /** Everything of a lower rank has its dependencies recorded. */
  ghost predicate DoneBelow(rank: map<Object, nat>, objects: seq<Object>, rec: map<Object, nat>, n: nat)
  {
    forall x :: x in objects && x in rank && rank[x] < n ==> x in rec && rec[x] == |x.dependencies|
  }

  lemma NothingDone(rank: map<Object, nat>, n: nat)
    ensures DoneBelow(rank, [], map[], n)
  {
  }

  lemma StillDone(universe: set<Object>, rank: map<Object, nat>, o: Object, i: nat, n: nat,
                  objects: seq<Object>, rec: map<Object, nat>, objects': seq<Object>, rec': map<Object, nat>)
    requires Ranked(universe, rank) && o in universe && n <= rank[o] && DoneBelow(rank, objects, rec, rank[o])
    requires Grown(universe, rank, o, i, objects, rec, objects', rec')
    ensures DoneBelow(rank, objects', rec', n)
  {
  }

  /** The objects of a lower rank depend on each other only, and the dependencies recorded for o are among them. */
  lemma ClosedBelow(universe: set<Object>, rank: map<Object, nat>, o: Object, i: nat, registered: set<Object>,
                    objects: seq<Object>, rec: map<Object, nat>) returns (below: set<Object>)
    requires Ranked(universe, rank) && o in universe && Consistent(universe, registered, objects, rec)
    requires DoneBelow(rank, objects, rec, rank[o]) && o in objects && rec[o] == i <= |o.dependencies|
    ensures Closed(below) && forall x :: x in below ==> x in objects
    ensures forall j :: 0 <= j < i ==> o.dependencies[j] in below
  {
    below := set x | x in registered && x in rank && rank[x] < rank[o];
    forall x, d | x in below && d in x.dependencies
      ensures d in below
    {
      assert x.dependencies[..|x.dependencies|] == x.dependencies;
      assert d in Recorded(x, rec);
    }
    forall j | 0 <= j < i
      ensures o.dependencies[j] in below
    {
      assert Recorded(o, rec)[j] == o.dependencies[j];
    }
  }

  lemma {:induction false} ReachesDown(universe: set<Object>, rank: map<Object, nat>, o: Object, x: Object)
    requires Ranked(universe, rank) && o in universe && Initialisation.Reaches(universe, rank, o, x)
    ensures x in universe && rank[x] <= rank[o]
    decreases rank[o]
  {
    if x != o {
      var d :| d in o.dependencies && Initialisation.Reaches(universe, rank, d, x);
      ReachesDown(universe, rank, d, x);
    }
  }

  lemma LaterFirstThen(i: nat, paths1: seq<seq<nat>>, paths2: seq<seq<nat>>)
    requires LaterFirst(paths1) && NoneThrough(paths1, i) && LaterFirst(paths2)
    ensures LaterFirst(Initialisation.Under(i, paths2) + paths1)
    ensures NoneThrough(Initialisation.Under(i, paths2) + paths1, i + 1)
  {
    var paths, n := Initialisation.Under(i, paths2) + paths1, |paths2|;
    forall k, l | 0 <= k < l < |paths|
      ensures Initialisation.Below(paths[l], paths[k]) || paths[l] < paths[k]
    {
      if k < n <= l {
        if paths[l] != [] { Initialisation.BelowAtOnce(paths[l], paths[k]); }
      } else if l < n {
        assert paths[k] == [i] + paths2[k] && paths[l] == [i] + paths2[l];
        if Initialisation.Below(paths2[l], paths2[k]) { Initialisation.BelowUnder(i, paths2[l], paths2[k]); }
      }
    }
  }

  /** What a dependency brings comes in front. */
  lemma ListedThen(universe: set<Object>, rank: map<Object, nat>, o: Object, i: nat, registered: set<Object>, n: nat,
                   mid: seq<Object>, rec1: map<Object, nat>, paths1: seq<seq<nat>>,
                   objects': seq<Object>, rec': map<Object, nat>, paths2: seq<seq<nat>>)
    requires Ranked(universe, rank) && o in universe && i < |o.dependencies| && o.dependencies[i] in universe
    requires Consistent(universe, registered, mid, rec1) && DoneBelow(rank, mid, rec1, rank[o])
    requires o in mid && rec1[o] == i && ListedBy(o, mid, n, paths1) && NoneThrough(paths1, i)
    requires rank[o.dependencies[i]] < rank[o]
    requires Grown(universe, rank, o.dependencies[i], |o.dependencies[i].dependencies|, mid, rec1, objects', rec')
    requires ListedBy(o.dependencies[i], objects', |mid|, paths2)
    requires Distinct(objects')
    ensures ListedBy(o, objects', n, Initialisation.Under(i, paths2) + paths1)
    ensures NoneThrough(Initialisation.Under(i, paths2) + paths1, i + 1)
  {
    hide *;
    var d, m, paths := o.dependencies[i], |objects'| - |mid|, Initialisation.Under(i, paths2) + paths1;
    ListedLengths(o, mid, n, paths1);
    ListedLengths(d, objects', |mid|, paths2);
    LaterFirstThen(i, paths1, paths2);
    forall k | 0 <= k < |paths|
      ensures Initialisation.FirstPath(o, paths[k], objects'[k])
    {
      if k < m {
        NewFirst(universe, rank, o, i, registered, mid, rec1, objects', rec', paths2, k);
      } else {
        OldFirst(universe, rank, o, n, d, |d.dependencies|, mid, rec1, paths1, objects', rec', k);
      }
    }
    IsListed(o, objects', n, paths);
  }

  lemma ListedLengths(o: Object, objects: seq<Object>, n: nat, paths: seq<seq<nat>>)
    requires ListedBy(o, objects, n, paths)
    ensures |paths| + n == |objects| && LaterFirst(paths)
  {
  }

  lemma IsListed(o: Object, objects: seq<Object>, n: nat, paths: seq<seq<nat>>)
    requires |paths| + n == |objects| && LaterFirst(paths)
    requires forall k :: 0 <= k < |paths| ==> Initialisation.FirstPath(o, paths[k], objects[k])
    ensures ListedBy(o, objects, n, paths)
  {
  }

  lemma NewFirst(universe: set<Object>, rank: map<Object, nat>, o: Object, i: nat, registered: set<Object>,
                 mid: seq<Object>, rec1: map<Object, nat>, objects': seq<Object>, rec': map<Object, nat>,
                 paths2: seq<seq<nat>>, k: nat)
    requires Ranked(universe, rank) && o in universe && i < |o.dependencies| && o.dependencies[i] in universe
    requires Consistent(universe, registered, mid, rec1) && DoneBelow(rank, mid, rec1, rank[o])
    requires o in mid && rec1[o] == i && rank[o.dependencies[i]] < rank[o] && Distinct(objects')
    requires Grown(universe, rank, o.dependencies[i], |o.dependencies[i].dependencies|, mid, rec1, objects', rec')
    requires ListedBy(o.dependencies[i], objects', |mid|, paths2) && k < |paths2|
    ensures k < |objects'| && Initialisation.FirstPath(o, [i] + paths2[k], objects'[k])
  {
    assert Initialisation.FirstPath(o.dependencies[i], paths2[k], objects'[k]);
    var below := ClosedBelow(universe, rank, o, i, registered, mid, rec1);
    NewReached(universe, rank, o.dependencies[i], mid, rec1, objects', rec', k);
    hide *;
    Initialisation.FirstThrough(universe, rank, below, o, i, paths2[k], objects'[k]);
  }

  lemma OldFirst(universe: set<Object>, rank: map<Object, nat>, o: Object, n: nat, d: Object, j: nat,
                 mid: seq<Object>, rec1: map<Object, nat>, paths1: seq<seq<nat>>,
                 objects': seq<Object>, rec': map<Object, nat>, k: nat)
    requires Ranked(universe, rank) && d in universe && Grown(universe, rank, d, j, mid, rec1, objects', rec')
    requires ListedBy(o, mid, n, paths1) && |objects'| - |mid| <= k < |objects'| - n
    ensures Initialisation.FirstPath(o, paths1[k - (|objects'| - |mid|)], objects'[k])
  {
    var m := |objects'| - |mid|;
    assert objects'[m..][k - m] == objects'[k];
    hide Initialisation.FirstPath, Ranked, LaterFirst;
  }

  lemma NewReached(universe: set<Object>, rank: map<Object, nat>, d: Object, mid: seq<Object>, rec1: map<Object, nat>,
                   objects': seq<Object>, rec': map<Object, nat>, k: nat)
    requires Ranked(universe, rank) && d in universe && Distinct(objects')
    requires Grown(universe, rank, d, |d.dependencies|, mid, rec1, objects', rec') && k + |mid| < |objects'|
    ensures var x := objects'[k]; x !in mid && x in universe && x in rank && rank[x] <= rank[d]
  {
    NewIsNew(objects', mid, k);
    ReachesDown(universe, rank, d, objects'[k]);
  }

  lemma NewIsNew(objects: seq<Object>, mid: seq<Object>, k: nat)
    requires Distinct(objects) && |mid| <= |objects| && objects[|objects| - |mid|..] == mid && k + |mid| < |objects|
    ensures objects[k] in objects && objects[k] !in mid
  {
    var m := |objects| - |mid|;
    forall j | 0 <= j < |mid|
      ensures mid[j] != objects[k]
    {
      assert objects[m..][j] == objects[m + j];
    }
  }

  lemma ConsistentStep(universe: set<Object>, registered: set<Object>, objects: seq<Object>, rec: map<Object, nat>,
                       o: Object)
    requires Consistent(universe, registered, objects, rec) && o in objects && rec[o] < |o.dependencies|
    requires o.dependencies[rec[o]] in registered
    ensures Consistent(universe, registered, objects, rec[o := rec[o] + 1])
  {
    var rec' := rec[o := rec[o] + 1];
    forall d | d in Recorded(o, rec')
      ensures d in registered
    {
      if d != o.dependencies[rec[o]] {
        var i :| 0 <= i < rec'[o] && o.dependencies[i] == d;
        assert Recorded(o, rec)[i] == d;
      }
    }
  }

  lemma ConsistentPush(universe: set<Object>, registered: set<Object>, objects: seq<Object>, rec: map<Object, nat>,
                       o: Object)
    requires Consistent(universe, registered, objects, rec) && o in universe && o !in registered
    ensures Consistent(universe, registered + {o}, [o] + objects, rec[o := 0])
  {
    assert o !in objects;
    assert Recorded(o, rec[o := 0]) == [];
  }

  lemma ConsistentMeans(universe: set<Object>, registered: set<Object>, objects: seq<Object>, rec: map<Object, nat>)
    requires Consistent(universe, registered, objects, rec)
    ensures Distinct(objects) && Recording(objects, rec) && registered <= universe
    ensures forall o :: o in registered <==> o in objects
  {
  }

  lemma GrownStart(universe: set<Object>, rank: map<Object, nat>, o: Object, objects: seq<Object>,
                   rec: map<Object, nat>)
    requires Ranked(universe, rank) && o in universe && Recording(objects, rec) && o !in objects
    ensures Grown(universe, rank, o, 0, objects, rec, [o] + objects, rec[o := 0])
  {
  }

  lemma GrownMeans(universe: set<Object>, rank: map<Object, nat>, o: Object, n: nat,
                   objects: seq<Object>, rec: map<Object, nat>, objects': seq<Object>, rec': map<Object, nat>)
    requires Ranked(universe, rank) && o in universe && Grown(universe, rank, o, n, objects, rec, objects', rec')
    ensures o in objects' && o in rec' && rec'[o] == n
  {
  }

  lemma Dependency(universe: set<Object>, rank: map<Object, nat>, o: Object, i: nat)
    requires Ranked(universe, rank) && o in universe && i < |o.dependencies|
    ensures var d := o.dependencies[i];
      d in universe && d in o.dependencies && d in rank && o in rank && rank[d] < rank[o]
  {
    assert o.dependencies[i] in o.dependencies;
  }

  /** What `prev` holds: nothing in the first object, and in every other one the object itself. */
  ghost predicate SelfLinked(objects: seq<Object>)
    reads objects`prev
  {
    forall i {:trigger objects[i].prev} :: 0 <= i < |objects| ==> objects[i].prev == if i == 0 then null else objects[i]
  }

  /** What it holds after removals: the object before, or still the object itself. */
  ghost predicate BackLinked(objects: seq<Object>)
    reads objects`prev
  {
    && (objects != [] ==> objects[0].prev == null)
    && forall i {:trigger objects[i].prev} :: 0 < i < |objects| ==>
         objects[i].prev == objects[i - 1] || objects[i].prev == objects[i]
  }

  lemma SelfIsBack(objects: seq<Object>)
    requires SelfLinked(objects)
    ensures BackLinked(objects)
  {
  }

  class Loader {
    var objectList: Object?
    /** The objects that a name finds. */
    var registered: set<Object>

    constructor ()
      ensures objectList == null && registered == {}
    {
      objectList, registered := null, {};
    }

    /** The state with these objects in the list. */
    ghost predicate Holds(universe: set<Object>, objects: seq<Object>, rec: map<Object, nat>)
      reads this, universe`next, universe`terminated, universe`unterminatedDependents, objects`next, objects`prev
    {
      && Consistent(universe, registered, objects, rec) && Listed(objectList, objects) && SelfLinked(objects)
      && Recording(objects, rec) && CountedSoFar(universe, objects, rec)
    }

    /** `create_object`, as far as the list and the counters go (object.c:565-569 and 637-659). */
    method CreateObject(o: Object, ghost universe: set<Object>, ghost rank: map<Object, nat>,
                        ghost objects: seq<Object>, ghost rec: map<Object, nat>)
        returns (ghost objects': seq<Object>, ghost rec': map<Object, nat>, ghost paths: seq<seq<nat>>)
      requires Ranked(universe, rank) && o in universe && o !in registered && Holds(universe, objects, rec)
      requires o in rank && DoneBelow(rank, objects, rec, rank[o])
      modifies this, universe`next, universe`prev, universe`unterminatedDependents
      decreases rank[o]
      ensures Holds(universe, objects', rec')
      ensures Grown(universe, rank, o, |o.dependencies|, objects, rec, objects', rec')
      ensures ListedBy(o, objects', |objects|, paths)
    {
      hide *;
      objects', rec' := Push(o, universe, rank, objects, rec);
      ListedFirst(universe, rank, o, objects);
      paths := [[]];
      var i := 0;
      while i < |o.dependencies|
        invariant i <= |o.dependencies|
        invariant Holds(universe, objects', rec') && Grown(universe, rank, o, i, objects, rec, objects', rec')
        invariant ListedBy(o, objects', |objects|, paths) && NoneThrough(paths, i)
      {
        Dependency(universe, rank, o, i);
        var dep := o.dependencies[i];
        if dep !in registered {
          ghost var mid, rec1 := objects', rec';
          StillDone(universe, rank, o, i, rank[dep], objects, rec, mid, rec1);
          StillDone(universe, rank, o, i, rank[o], objects, rec, mid, rec1);
          HoldsMeans(universe, mid, rec1);
          GrownMeans(universe, rank, o, i, objects, rec, mid, rec1);
          ghost var registered1, paths2 := registered, [];
          objects', rec', paths2 := CreateObject(dep, universe, rank, mid, rec1);
          HoldsMeans(universe, objects', rec');
          ListedThen(universe, rank, o, i, registered1, |objects|, mid, rec1, paths, objects', rec', paths2);
          paths := Initialisation.Under(i, paths2) + paths;
          GrownThen(universe, rank, o, i, dep, objects, rec, mid, rec1, objects', rec');
          NowRegistered(universe, rank, dep, |dep.dependencies|, mid, rec1, objects', rec');
        }
        GrownMeans(universe, rank, o, i, objects, rec, objects', rec');
        Count(o, dep, universe, objects', rec');
        GrownStep(universe, rank, o, i, objects, rec, objects', rec');
        rec' := rec'[o := i + 1];
        NoneThroughMore(paths, i);
        i := i + 1;
      }
    }

    lemma NowRegistered(universe: set<Object>, rank: map<Object, nat>, o: Object, n: nat,
                        objects: seq<Object>, rec: map<Object, nat>, objects': seq<Object>, rec': map<Object, nat>)
      requires Ranked(universe, rank) && o in universe && Grown(universe, rank, o, n, objects, rec, objects', rec')
      requires Holds(universe, objects', rec')
      ensures o in registered
    {
      GrownMeans(universe, rank, o, n, objects, rec, objects', rec');
      hide Listed, CountedSoFar, Grown, Ranked;
    }

    /** The new object becomes the first of the list (lines 566-569), whatever was removed before. */
    method Link(o: Object, ghost objects: seq<Object>)
      requires Listed(objectList, objects) && Distinct(objects) && BackLinked(objects) && o !in objects
      modifies this`objectList, o`next, o`prev, objects`prev
      ensures Listed(objectList, [o] + objects) && Distinct([o] + objects) && BackLinked([o] + objects)
      ensures old(SelfLinked(objects)) ==> SelfLinked([o] + objects)
    {
      o.prev := null;
      o.next := objectList;
      if o.next != null { o.next.prev := objectList; }
      objectList := o;
    }

    /** The new object is linked and can be found from now on. */
    method Push(o: Object, ghost universe: set<Object>, ghost rank: map<Object, nat>,
                ghost objects: seq<Object>, ghost rec: map<Object, nat>)
        returns (ghost objects': seq<Object>, ghost rec': map<Object, nat>)
      requires Ranked(universe, rank) && o in universe && o !in registered && Holds(universe, objects, rec)
      modifies this, o`next, universe`prev
      ensures Holds(universe, objects', rec') && Grown(universe, rank, o, 0, objects, rec, objects', rec')
      ensures objects' == [o] + objects
    {
      HoldsMeans(universe, objects, rec);
      hide Edges, EdgesSoFar, Mult, Ranked, Grown, Consistent, Recording, Holds, Distinct;
      Link(o, objects);
      registered := registered + {o};
      objects', rec' := [o] + objects, rec[o := 0];
      ConsistentPush(universe, old(registered), objects, rec, o);
      ConsistentMeans(universe, registered, objects', rec');
      GrownStart(universe, rank, o, objects, rec);
      forall x | x in universe
        ensures EdgesSoFar(objects', rec', x) == EdgesSoFar(objects, rec, x)
      {
        SoFarPush(objects, rec, o, x);
      }
      assert Listed(objectList, objects');
      assert SelfLinked(objects');
      IsHeld(universe, objects', rec');
    }

    /** One more dependent (line 658). */
    method Count(o: Object, dep: Object, ghost universe: set<Object>, ghost objects: seq<Object>,
                 ghost rec: map<Object, nat>)
      requires Holds(universe, objects, rec) && o in objects && o in rec && rec[o] < |o.dependencies|
      requires dep == o.dependencies[rec[o]] && dep in registered && dep in universe
      modifies dep`unterminatedDependents
      ensures Holds(universe, objects, rec[o := rec[o] + 1])
    {
      HoldsMeans(universe, objects, rec);
      hide Edges, EdgesSoFar, Mult, Consistent, Recording, Holds, Distinct, Listed, SelfLinked;
      dep.unterminatedDependents := dep.unterminatedDependents + 1;
      ConsistentStep(universe, registered, objects, rec, o);
      ConsistentMeans(universe, registered, objects, rec[o := rec[o] + 1]);
      forall x | x in universe
        ensures EdgesSoFar(objects, rec[o := rec[o] + 1], x) == EdgesSoFar(objects, rec, x) + if dep == x then 1 else 0
      {
        SoFarStep(objects, rec, o, x);
      }
      IsHeld(universe, objects, rec[o := rec[o] + 1]);
    }

    lemma HoldsMeans(universe: set<Object>, objects: seq<Object>, rec: map<Object, nat>)
      requires Holds(universe, objects, rec)
      ensures Consistent(universe, registered, objects, rec) && Listed(objectList, objects) && SelfLinked(objects)
      ensures Recording(objects, rec) && CountedSoFar(universe, objects, rec)
      ensures Distinct(objects) && registered <= universe && forall o :: o in registered <==> o in objects
      ensures BackLinked(objects)
    {
      SelfIsBack(objects);
    }

    lemma IsHeld(universe: set<Object>, objects: seq<Object>, rec: map<Object, nat>)
      requires Consistent(universe, registered, objects, rec) && Listed(objectList, objects) && SelfLinked(objects)
      requires Recording(objects, rec) && CountedSoFar(universe, objects, rec)
      ensures Holds(universe, objects, rec)
    {
    }

    /** The assignments: the object before, or the object itself, and the object behind get a new link. */
    method Bypass(o: Object, ghost objects: seq<Object>, ghost i: nat)
      requires Listed(objectList, objects) && Distinct(objects) && BackLinked(objects)
      requires i < |objects| && objects[i] == o
      modifies this`objectList, objects`next, objects`prev
      ensures objectList == if i == 0 then old(o.next) else old(objectList)
      ensures forall j {:trigger objects[j].next} :: 0 <= j < |objects| ==>
                objects[j].next == if i > 0 && j == i - 1 && old(o.prev) != o then old(o.next) else old(objects[j].next)
      ensures forall j {:trigger objects[j].prev} :: 0 <= j < |objects| ==>
                objects[j].prev == if j == i + 1 then old(o.prev) else old(objects[j].prev)
    {
      if o.prev != null { o.prev.next := o.next; } else { objectList := o.next; }
      if o.next != null { o.next.prev := o.prev; }
    }

    /**
      The end of `remove_object` (lines 176-179).  An object leaves the list if it is the first one, or if its own link
      leads to the one before it; a removal in vain repairs that link of the next object.
     */
    method Unlist(o: Object, ghost objects: seq<Object>, ghost i: nat)
      requires Listed(objectList, objects) && Distinct(objects) && BackLinked(objects)
      requires i < |objects| && objects[i] == o
      modifies this`objectList, objects`next, objects`prev
      ensures var rest := if i == 0 || old(o.prev) != o then Without(objects, i) else objects;
        Listed(objectList, rest) && Distinct(rest) && BackLinked(rest)
      ensures old(SelfLinked(objects)) && i == 0 ==> SelfLinked(objects[1..])
      ensures i + 1 < |objects| && i > 0 ==> objects[i + 1].prev == old(o.prev)
    {
      hide Without;
      Bypass(o, objects, i);
      if i == 0 || old(o.prev) != o {
        RestListed(objectList, objects, i);
        RestLinked(objects, i);
        WithoutDistinct(objects, i);
      }
    }
  }

  /** The list without one object. */
  function Without(objects: seq<Object>, i: nat): seq<Object>
    requires i < |objects|
  {
    objects[..i] + objects[i + 1..]
  }

  lemma WithoutAt(objects: seq<Object>, i: nat, j: nat)
    requires i < |objects| && j < |objects| - 1
    ensures |Without(objects, i)| == |objects| - 1
    ensures Without(objects, i)[j] == objects[if j < i then j else j + 1]
  {
  }

  lemma WithoutDistinct(objects: seq<Object>, i: nat)
    requires Distinct(objects) && i < |objects|
    ensures |Without(objects, i)| == |objects| - 1 && Distinct(Without(objects, i))
    ensures i == 0 ==> Without(objects, i) == objects[1..]
  {
  }

  /** The links forward, past the one that was taken off. */
  lemma RestListed(head: Object?, objects: seq<Object>, i: nat)
    requires i < |objects|
    requires head == if i > 0 then objects[0] else if 1 < |objects| then objects[1] else null
    requires forall j {:trigger objects[j].next} :: 0 <= j < |objects| && j != i ==>
               objects[j].next == if After(i, j) < |objects| then objects[After(i, j)] else null
    ensures Listed(head, Without(objects, i))
  {
    var rest := Without(objects, i);
    assert |rest| == |objects| - 1;
    hide Without;
    if rest != [] { WithoutAt(objects, i, 0); }
    forall j {:trigger rest[j].next} | 0 <= j < |rest|
      ensures rest[j].next == if j + 1 < |rest| then rest[j + 1] else null
    {
      WithoutAt(objects, i, j);
      if j + 1 < |rest| { WithoutAt(objects, i, j + 1); }
    }
  }

  /** The links back. */
  lemma RestLinked(objects: seq<Object>, i: nat)
    requires i < |objects|
    requires forall j {:trigger objects[j].prev} :: 0 <= j < |objects| && j != i ==>
               if j == 0 || (j == 1 && i == 0) then objects[j].prev == null
               else objects[j].prev == objects[j] || objects[j].prev == objects[if j == i + 1 then j - 2 else j - 1]
    ensures BackLinked(Without(objects, i))
  {
    var rest := Without(objects, i);
    assert |rest| == |objects| - 1;
    hide Without;
    if rest != [] { WithoutAt(objects, i, 0); }
    forall j {:trigger rest[j].prev} | 0 < j < |rest|
      ensures rest[j].prev == rest[j - 1] || rest[j].prev == rest[j]
    {
      WithoutAt(objects, i, j - 1);
      WithoutAt(objects, i, j);
    }
  }

  /** The place of the next object, when the one at i is left out. */
  function After(i: nat, j: nat): nat { if j + 1 == i then j + 2 else j + 1 }

  // ----- what loading establishes

  /** A loader without objects, and objects that have just been made. */
  lemma NothingLoaded(loader: Loader, universe: set<Object>)
    requires loader.objectList == null && loader.registered == {}
    requires forall o :: o in universe ==> !o.terminated && o.unterminatedDependents == 0
    ensures loader.Holds(universe, [], map[]) && Complete([], map[])
  {
  }

  /** Loading completes what it adds, so that after each call everything is recorded. */
  lemma StaysComplete(universe: set<Object>, rank: map<Object, nat>, o: Object,
                      objects: seq<Object>, rec: map<Object, nat>, objects': seq<Object>, rec': map<Object, nat>)
    requires Ranked(universe, rank) && o in universe && Complete(objects, rec)
    requires Grown(universe, rank, o, |o.dependencies|, objects, rec, objects', rec')
    ensures Complete(objects', rec')
  {
  }

  /** What finalisation starts from: the counters count exactly the dependency edges of the loaded objects. */
  lemma ReadyToFinalise(loader: Loader, universe: set<Object>, rank: map<Object, nat>, objects: seq<Object>,
                        rec: map<Object, nat>)
    requires Ranked(universe, rank) && loader.Holds(universe, objects, rec) && Complete(objects, rec)
    ensures Listed(loader.objectList, objects) && Distinct(objects) && loader.registered == (set o | o in objects)
    ensures Counted(objects, {}) && Ranked(loader.registered, rank)
  {
    loader.HoldsMeans(universe, objects, rec);
    forall o | o in objects
      ensures EdgesSoFar(objects, rec, o) == Edges(objects, {}, o)
    {
      SoFarAll(objects, rec, o);
    }
    forall x, d | x in loader.registered && d in x.dependencies
      ensures d in loader.registered
    {
      assert Recorded(x, rec) == x.dependencies;
    }
    hide EdgesSoFar, Edges;
  }

  /** Loading o registers exactly what o reaches, beside what was registered before. */
  lemma ExactlyLoaded(loader: Loader, universe: set<Object>, rank: map<Object, nat>, o: Object,
                      objects: seq<Object>, rec: map<Object, nat>, objects': seq<Object>, rec': map<Object, nat>)
    requires Ranked(universe, rank) && o in universe && loader.Holds(universe, objects', rec')
    requires Complete(objects, rec) && Grown(universe, rank, o, |o.dependencies|, objects, rec, objects', rec')
    ensures forall x :: x in universe ==>
              (x in loader.registered <==> x in objects || Initialisation.Reaches(universe, rank, o, x))
  {
    StaysComplete(universe, rank, o, objects, rec, objects', rec');
    ReadyToFinalise(loader, universe, rank, objects', rec');
    assert o in loader.registered;
    forall x | x in universe && Initialisation.Reaches(universe, rank, o, x)
      ensures x in loader.registered
    {
      Initialisation.ReachesInside(universe, rank, loader.registered, o, x);
    }
    var k := |objects'| - |objects|;
    assert forall i :: 0 <= i < |objects| ==> objects'[k + i] == objects[i];
  }

  /** A program's life, constructors aside: loading the root object and what it needs, and finalising everything. */
  method LoadAndFinalise(root: Object, ghost universe: set<Object>, ghost rank: map<Object, nat>)
      returns (linker: Linker, ghost objects: seq<Object>, ghost paths: seq<seq<nat>>, ghost run: Run,
               ghost at: seq<nat>)
    requires Ranked(universe, rank) && root in universe
    requires forall o :: o in universe ==> !o.terminated && o.unterminatedDependents == 0
    modifies universe
    ensures ListedBy(root, objects, 0, paths) && InPasses(objects, run)
    ensures Distinct(run.order) && AllRun([], linker.trace, run.order, at)
    ensures forall x :: x in universe ==> (x in run.order <==> Initialisation.Reaches(universe, rank, root, x))
    ensures forall i, x :: 0 <= i < |run.order| && x in run.order && run.order[i] in x.dependencies ==>
              x in run.order[..i]
  {
    var loader := new Loader();
    NothingLoaded(loader, universe);
    NothingDone(rank, rank[root]);
    ghost var rec;
    objects, rec, paths := loader.CreateObject(root, universe, rank, [], map[]);
    StaysComplete(universe, rank, root, [], map[], objects, rec);
    ReadyToFinalise(loader, universe, rank, objects, rec);
    ExactlyLoaded(loader, universe, rank, root, [], map[], objects, rec);
    ghost var all := loader.registered;
    linker := new Linker(loader.objectList);
    hide Listed, Counted, Ranked, Grown, Complete, AllRun, InPasses, Initialisation.Reaches;
    run, at := linker.RunFiniFunctions(objects, all, rank, {});
  }
}
