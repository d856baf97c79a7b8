/**
  Termination of the loaded objects: each object counts its unterminated dependents, and objects without any
  are finalised, pass after pass over the list of objects, until a pass finds none.
 */
module Finalisation {
  import opened LinkerObjects

  // ----- dependency edges

  /** How often o occurs in s. */
  function Mult(s: seq<Object>, o: Object): nat
  {
    if s == [] then 0 else Mult(s[..|s| - 1], o) + if s[|s| - 1] == o then 1 else 0
  }

  lemma {:induction false} MultPositive(s: seq<Object>, o: Object)
    ensures Mult(s, o) > 0 <==> o in s
  {
    if s != [] { MultPositive(s[..|s| - 1], o); }
  }

  lemma {:induction false} MultPrefix(s: seq<Object>, k: nat, o: Object)
    requires k <= |s|
    ensures Mult(s[..k], o) <= Mult(s, o)
    decreases |s| - k
  {
    if k < |s| {
      MultPrefix(s, k + 1, o);
      assert s[..k + 1][..k] == s[..k];
    } else {
      assert s[..k] == s;
    }
  }

  lemma NoMult()
    ensures forall o :: Mult([], o) == 0
  {
  }

  lemma MultStep(s: seq<Object>, i: nat)
    requires i < |s|
    ensures forall o :: Mult(s[..i + 1], o) == Mult(s[..i], o) + if s[i] == o then 1 else 0
  {
    assert s[..i + 1][..i] == s[..i];
  }

  lemma DependencyListed(objects: seq<Object>, all: set<Object>, x: Object, d: Object)
    requires all == (set o | o in objects) && Closed(all) && x in objects && d in x.dependencies
    ensures d in objects && d in all
  {
    assert x in all;
    assert d in x.dependencies;
    assert d in all;
  }

  /** The dependency edges to o from those objects that are not in term. */
  function Edges(objects: seq<Object>, term: set<Object>, o: Object): nat
  {
    if objects == [] then 0
    else (if objects[0] in term then 0 else Mult(objects[0].dependencies, o)) + Edges(objects[1..], term, o)
  }

  lemma {:induction false} EdgesBound(objects: seq<Object>, term: set<Object>, x: Object, o: Object)
    requires x in objects && x !in term
    ensures Edges(objects, term, o) >= Mult(x.dependencies, o)
  {
    if objects[0] != x { EdgesBound(objects[1..], term, x, o); }
  }

  lemma {:induction false} EdgesSame(objects: seq<Object>, term: set<Object>, x: Object, o: Object)
    requires x !in objects
    ensures Edges(objects, term + {x}, o) == Edges(objects, term, o)
  {
    if objects != [] { EdgesSame(objects[1..], term, x, o); }
  }

  /** Terminating x takes away exactly its own edges. */
  lemma {:induction false} EdgesDrop(objects: seq<Object>, term: set<Object>, x: Object, o: Object)
    requires Distinct(objects) && x in objects && x !in term
    ensures Edges(objects, term + {x}, o) == Edges(objects, term, o) - Mult(x.dependencies, o)
  {
    if objects[0] == x {
      EdgesSame(objects[1..], term, x, o);
    } else {
      EdgesDrop(objects[1..], term, x, o);
    }
  }

  /** An object that no unterminated object depends on exists as long as any is left. */
  lemma FreeObject(objects: seq<Object>, all: set<Object>, term: set<Object>, rank: map<Object, nat>, open: set<Object>)
    returns (x: Object)
    requires all == (set o | o in objects) && Ranked(all, rank) && open != {} && open <= all - term
    requires forall o, d :: o in all - term && d in o.dependencies && d in open ==> o in open
    ensures x in open && forall o :: o in all - term ==> x !in o.dependencies
    decreases open
  {
    x :| x in open;
    var above := set o | o in open && rank[o] > rank[x];
    if above != {} {
      x := FreeObject(objects, all, term, rank, above);
    } else {
      forall o | o in all - term
        ensures x !in o.dependencies
      {
        assert x in o.dependencies ==> o in above;
      }
    }
  }

  lemma NoEdges(objects: seq<Object>, term: set<Object>, o: Object)
    requires forall x :: x in objects && x !in term ==> o !in x.dependencies
    ensures Edges(objects, term, o) == 0
  {
    if objects != [] {
      MultPositive(objects[0].dependencies, o);
      NoEdges(objects[1..], term, o);
    }
  }

  /** A pass that finds nothing to do leaves nothing to do. */
  lemma AllTerminated(objects: seq<Object>, all: set<Object>, term: set<Object>, rank: map<Object, nat>)
    requires all == (set o | o in objects) && Ranked(all, rank)
    requires forall o :: o in objects && o !in term ==> Edges(objects, term, o) > 0
    ensures all <= term
  {
    if !(all <= term) {
      assert all - term != {} by {
        var o :| o in all && o !in term;
        assert o in all - term;
      }
      var x := FreeObject(objects, all, term, rank, all - term);
      NoEdges(objects, term, x);
    }
  }

  // ----- events

  /** Between a and b stand the calls that finalise o: its array from the last entry to the first, then its function. */
  ghost predicate RunsAt(s: seq<Event>, a: nat, b: nat, o: Object)
  {
    && a + o.finiArray <= b <= |s| && b == a + o.finiArray + (if o.fini then 1 else 0)
    && (forall k :: a <= k < a + o.finiArray ==> s[k] == FiniArray(o, o.finiArray - 1 - (k - a)))
    && (o.fini ==> s[b - 1] == Fini(o))
  }

  /** After the events of start stand those of the objects of order, the i-th object's from at[i] to at[i + 1]. */
  ghost predicate AllRun(start: seq<Event>, s: seq<Event>, order: seq<Object>, at: seq<nat>)
  {
    && start <= s && |at| == |order| + 1 && at[0] == |start| && at[|order|] == |s|
    && forall i :: 0 <= i < |order| ==> RunsAt(s, at[i], at[i + 1], order[i])
  }

  lemma NothingRun(start: seq<Event>)
    ensures AllRun(start, start, [], [|start|])
  {
  }

  lemma AllRunLonger(start: seq<Event>, s: seq<Event>, order: seq<Object>, at: seq<nat>, s': seq<Event>, o: Object)
    requires AllRun(start, s, order, at) && s <= s' && RunsAt(s', |s|, |s'|, o)
    ensures AllRun(start, s', order + [o], at + [|s'|])
  {
    var longer, at' := order + [o], at + [|s'|];
    forall i | 0 <= i < |longer|
      ensures RunsAt(s', at'[i], at'[i + 1], longer[i])
    {
      if i < |order| { assert RunsAt(s, at[i], at[i + 1], order[i]); }
    }
  }

  /** What the trace holds, by position. */
  lemma AllRunMeans(start: seq<Event>, s: seq<Event>, order: seq<Object>, at: seq<nat>)
    requires AllRun(start, s, order, at)
    ensures start <= s && |at| == |order| + 1 && at[0] == |start| && at[|order|] == |s|
    ensures forall i :: 0 <= i < |order| ==>
              at[i + 1] == at[i] + order[i].finiArray + (if order[i].fini then 1 else 0) <= |s|
    ensures forall i, k :: 0 <= i < |order| && at[i] <= k < at[i] + order[i].finiArray ==>
              s[k] == FiniArray(order[i], order[i].finiArray - 1 - (k - at[i]))
    ensures forall i :: 0 <= i < |order| && order[i].fini ==> s[at[i + 1] - 1] == Fini(order[i])
  {
    forall i | 0 <= i < |order|
      ensures at[i + 1] == at[i] + order[i].finiArray + (if order[i].fini then 1 else 0) <= |s|
      ensures forall k :: at[i] <= k < at[i] + order[i].finiArray ==>
                s[k] == FiniArray(order[i], order[i].finiArray - 1 - (k - at[i]))
      ensures order[i].fini ==> s[at[i + 1] - 1] == Fini(order[i])
    {
      assert RunsAt(s, at[i], at[i + 1], order[i]);
    }
  }

  // ----- the state

  /** The list links the objects in this order. */
  ghost predicate Listed(head: Object?, objects: seq<Object>)
    reads objects`next
  {
    && head == (if objects == [] then null else objects[0])
    && forall i {:trigger objects[i].next} :: 0 <= i < |objects| ==>
         objects[i].next == if i + 1 < |objects| then objects[i + 1] else null
  }

  /** The flags mark the objects of term, and each counter counts the edges from the others. */
  ghost predicate Counted(objects: seq<Object>, term: set<Object>)
    reads objects`terminated, objects`unterminatedDependents
  {
    forall o :: o in objects ==>
      (o.terminated <==> o in term) && o.unterminatedDependents == Edges(objects, term, o)
  }

  /** Every object of order comes after all of its dependents that were not terminated before. */
  ghost predicate DependentsFirst(objects: seq<Object>, before: set<Object>, order: seq<Object>)
  {
    forall i, x :: 0 <= i < |order| && x in objects && order[i] in x.dependencies ==> x in before || x in order[..i]
  }

  /** The objects terminated since `before`, in order. */
  ghost predicate Finalised(objects: seq<Object>, before: set<Object>, term: set<Object>, order: seq<Object>)
  {
    && before <= term && Distinct(order)
    && (forall o :: o in order ==> o in term && o !in before)
    && (forall o :: o in term && o !in before ==> o in order)
    && DependentsFirst(objects, before, order)
  }

  // ----- passes

  /** The objects in the order they are finalised, their places in the list, and the pass each is finalised in. */
  datatype Run = Run(order: seq<Object>, places: seq<nat>, passes: seq<nat>)
  {
    ghost predicate Even() { |places| == |order| == |passes| }

    function Then(o: Object, k: nat, n: nat): Run { Run(order + [o], places + [k], passes + [n]) }
  }

  /** One of the first j finalised is a dependent of o, in pass n or in the one before at a place behind m. */
  ghost predicate HeldBack(run: Run, j: nat, o: Object, m: nat, n: nat)
    requires run.Even() && j <= |run.order|
  {
    exists i :: 0 <= i < j && o in run.order[i].dependencies
                && (run.passes[i] == n || (run.passes[i] + 1 == n && m < run.places[i]))
  }

  /** An object was left to a later pass only because of a dependent that was finalised too late for an earlier one. */
  ghost predicate NoneLate(run: Run)
    requires run.Even()
  {
    forall j :: 0 <= j < |run.order| && run.passes[j] > 0 ==>
      HeldBack(run, j, run.order[j], run.places[j], run.passes[j])
  }

  /** The passes follow each other, each goes through the list from its head, and no object is left out needlessly. */
  ghost predicate InPasses(objects: seq<Object>, run: Run)
  {
    && run.Even()
    && (forall i :: 0 <= i < |run.order| ==>
          run.places[i] < |objects| && objects[run.places[i]] == run.order[i])
    && (forall i, j :: 0 <= i < j < |run.order| ==>
          run.passes[i] < run.passes[j] || (run.passes[i] == run.passes[j] && run.places[i] < run.places[j]))
    && NoneLate(run)
  }

  /** Why the j-th object was not finalised in an earlier pass. */
  lemma WhyLate(objects: seq<Object>, run: Run, j: nat) returns (i: nat)
    requires InPasses(objects, run) && j < |run.order| && run.passes[j] > 0
    ensures i < j && run.order[j] in run.order[i].dependencies
    ensures run.passes[i] == run.passes[j] || (run.passes[i] + 1 == run.passes[j] && run.places[j] < run.places[i])
  {
    LateMeans(objects, run, j);
    hide NoneLate, InPasses;
    i :| 0 <= i < j && run.order[j] in run.order[i].dependencies
         && (run.passes[i] == run.passes[j] || (run.passes[i] + 1 == run.passes[j] && run.places[j] < run.places[i]));
  }

  lemma LateMeans(objects: seq<Object>, run: Run, j: nat)
    requires InPasses(objects, run) && j < |run.order| && run.passes[j] > 0
    ensures run.Even() && HeldBack(run, j, run.order[j], run.places[j], run.passes[j])
  {
    hide HeldBack;
  }

  ghost predicate Waits(objects: seq<Object>, term: set<Object>, o: Object)
  {
    exists x :: x in objects && x !in term && o in x.dependencies
  }

  /** When pass n has come to place k, the m-th object is finalised or has to wait, or the first pass will reach it. */
  ghost predicate MustWait(objects: seq<Object>, term: set<Object>, run: Run, m: nat, n: nat, k: nat)
    requires m < |objects| && run.Even()
  {
    || objects[m] in term || (n == 0 && k <= m) || Waits(objects, term, objects[m])
    || HeldBack(run, |run.order|, objects[m], m, if m < k then n + 1 else n)
  }

  /** Pass n has come to place k: what it has left behind must wait, and what it has not reached had to. */
  ghost predicate InPass(objects: seq<Object>, term: set<Object>, run: Run, n: nat, k: nat)
  {
    && InPasses(objects, run)
    && (forall i :: 0 <= i < |run.order| ==> run.passes[i] < n || (run.passes[i] == n && run.places[i] < k))
    && (forall m :: 0 <= m < |objects| ==> MustWait(objects, term, run, m, n, k))
  }

  lemma NextPass(objects: seq<Object>, term: set<Object>, run: Run, n: nat)
    requires InPass(objects, term, run, n, |objects|)
    ensures InPass(objects, term, run, n + 1, 0)
  {
    var n' := n + 1;
    hide NoneLate, HeldBack, Waits;
    forall m | 0 <= m < |objects|
      ensures MustWait(objects, term, run, m, n', 0)
    {
      assert MustWait(objects, term, run, m, n, |objects|);
    }
  }

  /** The k-th object is passed over. */
  lemma PassOver(objects: seq<Object>, term: set<Object>, run: Run, n: nat, k: nat)
    requires InPass(objects, term, run, n, k) && k < |objects|
    requires objects[k] in term || Edges(objects, term, objects[k]) > 0
    ensures InPass(objects, term, run, n, k + 1)
  {
    if objects[k] !in term { EdgesWait(objects, term, objects[k]); }
    var k' := k + 1;
    hide Edges, NoneLate, HeldBack, Waits;
    forall m | 0 <= m < |objects|
      ensures MustWait(objects, term, run, m, n, k')
    {
      assert MustWait(objects, term, run, m, n, k);
    }
  }

  lemma EdgesWait(objects: seq<Object>, term: set<Object>, o: Object)
    requires Edges(objects, term, o) > 0
    ensures Waits(objects, term, o)
  {
    if !Waits(objects, term, o) { NoEdges(objects, term, o); }
  }

  /** The k-th object is finalised. */
  lemma PassTakes(objects: seq<Object>, term: set<Object>, run: Run, n: nat, k: nat)
    requires InPass(objects, term, run, n, k) && k < |objects| && objects[k] !in term
    requires Edges(objects, term, objects[k]) == 0
    ensures InPass(objects, term + {objects[k]}, run.Then(objects[k], k, n), n, k + 1)
  {
    var longer, k' := run.Then(objects[k], k, n), k + 1;
    NoneLateLonger(objects, term, run, n, k);
    InPassesLonger(objects, term, run, n, k);
    hide Edges, MustWait, NoneLate, InPasses;
    forall m | 0 <= m < |objects|
      ensures MustWait(objects, term + {objects[k]}, longer, m, n, k')
    {
      StillWaits(objects, term, run, k, n, m);
    }
  }

  lemma NoneLateLonger(objects: seq<Object>, term: set<Object>, run: Run, n: nat, k: nat)
    requires InPass(objects, term, run, n, k) && k < |objects| && objects[k] !in term
    requires Edges(objects, term, objects[k]) == 0
    ensures NoneLate(run.Then(objects[k], k, n))
  {
    NoDependents(objects, term, objects[k]);
    assert MustWait(objects, term, run, k, n, k);
    hide Edges, HeldBack;
    var longer := run.Then(objects[k], k, n);
    forall j | 0 <= j < |longer.order| && longer.passes[j] > 0
      ensures HeldBack(longer, j, longer.order[j], longer.places[j], longer.passes[j])
    {
      StillHeldBack(run, objects[k], k, n, j, longer.order[j], longer.places[j], longer.passes[j]);
    }
  }

  lemma InPassesLonger(objects: seq<Object>, term: set<Object>, run: Run, n: nat, k: nat)
    requires InPass(objects, term, run, n, k) && k < |objects| && NoneLate(run.Then(objects[k], k, n))
    ensures run.Even() && run.Then(objects[k], k, n).Even() && InPasses(objects, run.Then(objects[k], k, n))
  {
    hide MustWait, NoneLate;
  }

  lemma StillHeldBack(run: Run, x: Object, k: nat, n: nat, j: nat, o: Object, m: nat, n': nat)
    requires run.Even() && j <= |run.order| && HeldBack(run, j, o, m, n')
    ensures HeldBack(run.Then(x, k, n), j, o, m, n') && HeldBack(run.Then(x, k, n), |run.order| + 1, o, m, n')
  {
    var i :| 0 <= i < j && o in run.order[i].dependencies
             && (run.passes[i] == n' || (run.passes[i] + 1 == n' && m < run.places[i]));
    assert run.Then(x, k, n).order[i] == run.order[i];
  }

  lemma StillWaits(objects: seq<Object>, term: set<Object>, run: Run, k: nat, n: nat, m: nat)
    requires k < |objects| && m < |objects| && run.Even() && MustWait(objects, term, run, m, n, k)
    ensures MustWait(objects, term + {objects[k]}, run.Then(objects[k], k, n), m, n, k + 1)
  {
    var x, o, n' := objects[k], objects[m], if m < k then n + 1 else n;
    var longer := run.Then(x, k, n);
    if m == k || o in term || (n == 0 && k <= m) {
    } else if HeldBack(run, |run.order|, o, m, n') {
      StillHeldBack(run, x, k, n, |run.order|, o, m, n');
    } else {
      var y :| y in objects && y !in term && o in y.dependencies;
      if y == x { assert longer.order[|run.order|] == x && longer.places[|run.order|] == k; }
    }
  }

  /** What holds in pass n before place k: what is finalised, in which order, and in which passes. */
  ghost predicate Progress(objects: seq<Object>, all: set<Object>, before: set<Object>, term: set<Object>, run: Run,
                           n: nat, k: nat)
  {
    term <= all && Finalised(objects, before, term, run.order) && InPass(objects, term, run, n, k)
  }

  lemma NoProgress(objects: seq<Object>, all: set<Object>, before: set<Object>)
    requires before <= all
    ensures Progress(objects, all, before, before, Run([], [], []), 0, 0)
  {
  }

  lemma ProgressPast(objects: seq<Object>, all: set<Object>, before: set<Object>, term: set<Object>, run: Run,
                     n: nat, k: nat)
    requires Progress(objects, all, before, term, run, n, k) && k < |objects|
    requires objects[k] in term || Edges(objects, term, objects[k]) > 0
    ensures Progress(objects, all, before, term, run, n, k + 1)
  {
    hide Edges, InPass, Finalised;
    PassOver(objects, term, run, n, k);
  }

  lemma ProgressWith(objects: seq<Object>, all: set<Object>, before: set<Object>, term: set<Object>, run: Run,
                     n: nat, k: nat)
    requires Progress(objects, all, before, term, run, n, k) && k < |objects|
    requires objects[k] in all && objects[k] !in term && Edges(objects, term, objects[k]) == 0
    ensures Progress(objects, all, before, term + {objects[k]}, run.Then(objects[k], k, n), n, k + 1)
  {
    hide Edges, InPass, Finalised;
    PassTakes(objects, term, run, n, k);
    Extend(objects, before, term, run.order, objects[k]);
  }

  lemma ProgressAgain(objects: seq<Object>, all: set<Object>, before: set<Object>, term: set<Object>, run: Run, n: nat)
    requires Progress(objects, all, before, term, run, n, |objects|)
    ensures Progress(objects, all, before, term, run, n + 1, 0)
  {
    hide InPass, Finalised;
    NextPass(objects, term, run, n);
  }

  lemma ProgressMeans(objects: seq<Object>, all: set<Object>, before: set<Object>, term: set<Object>, run: Run,
                      n: nat, k: nat)
    requires Progress(objects, all, before, term, run, n, k)
    ensures term <= all && Finalised(objects, before, term, run.order) && InPasses(objects, run)
  {
  }

  /** None of the first k objects can be finalised. */
  ghost predicate Stuck(objects: seq<Object>, term: set<Object>, k: nat)
  {
    forall j :: 0 <= j < k && j < |objects| && objects[j] !in term ==> Edges(objects, term, objects[j]) > 0
  }

  lemma StuckLonger(objects: seq<Object>, term: set<Object>, k: nat)
    requires Stuck(objects, term, k)
    requires k < |objects| ==> objects[k] in term || Edges(objects, term, objects[k]) > 0
    ensures Stuck(objects, term, k + 1)
  {
  }

  lemma StuckNowhere(objects: seq<Object>, term: set<Object>)
    ensures Stuck(objects, term, 0)
  {
  }

  lemma StuckEverywhere(objects: seq<Object>, term: set<Object>)
    requires Stuck(objects, term, |objects|)
    ensures forall o :: o in objects && o !in term ==> Edges(objects, term, o) > 0
  {
  }

  lemma ListHead(head: Object?, objects: seq<Object>)
    requires Listed(head, objects)
    ensures head == if objects == [] then null else objects[0]
  {
  }

  /** What the loop sees at the k-th object. */
  lemma Step(head: Object?, objects: seq<Object>, term: set<Object>, k: nat)
    requires Listed(head, objects) && Counted(objects, term) && k < |objects|
    ensures objects[k].next == if k + 1 < |objects| then objects[k + 1] else null
    ensures (objects[k].terminated <==> objects[k] in term)
    ensures objects[k].unterminatedDependents == Edges(objects, term, objects[k])
  {
    assert objects[k] in objects;
  }

  class Linker {
    var objectList: Object?
    var trace: seq<Event>

    constructor (objectList: Object?)
      ensures this.objectList == objectList && trace == []
    {
      this.objectList, trace := objectList, [];
    }

    /** `call_fini_array` (object.c:980-986) */
    method CallFiniArray(o: Object)
      modifies this`trace
      ensures old(trace) <= trace && |trace| == |old(trace)| + o.finiArray
      ensures forall k :: |old(trace)| <= k < |trace| ==>
                trace[k] == FiniArray(o, o.finiArray - 1 - (k - |old(trace)|))
    {
      var i: nat := o.finiArray;
      while i > 0
        invariant i <= o.finiArray && old(trace) <= trace && |trace| == |old(trace)| + o.finiArray - i
        invariant forall k :: |old(trace)| <= k < |trace| ==>
                    trace[k] == FiniArray(o, o.finiArray - 1 - (k - |old(trace)|))
      {
        trace := trace + [FiniArray(o, i - 1)];
        i := i - 1;
      }
    }

    /** The calls that finalise one object (lines 1570-1571). */
    method CallFini(o: Object)
      modifies this`trace
      ensures old(trace) <= trace && RunsAt(trace, |old(trace)|, |trace|, o)
    {
      CallFiniArray(o);
      if o.fini { trace := trace + [Fini(o)]; }
    }

    /** `obj_ref` (object.c:1527-1530): adds two. */
    method Ref(o: Object)
      modifies o`references
      ensures o.references == old(o.references) + 2
    {
      o.references := o.references + 1;
      o.references := o.references + 1;
    }

    /** Finalising one object (lines 1567-1580).  The matching `obj_deref` never brings the count to 0. */
    method Terminate(cur: Object, ghost objects: seq<Object>, ghost term: set<Object>, ghost all: set<Object>)
      requires Distinct(objects) && all == (set o | o in objects) && Closed(all) && Counted(objects, term)
      requires cur in objects && cur !in term
      modifies this`trace, all`terminated, all`unterminatedDependents, all`references
      ensures Counted(objects, term + {cur})
      ensures old(trace) <= trace && |trace| == |old(trace)| + cur.finiArray + (if cur.fini then 1 else 0)
      ensures forall k :: |old(trace)| <= k < |old(trace)| + cur.finiArray ==>
                trace[k] == FiniArray(cur, cur.finiArray - 1 - (k - |old(trace)|))
      ensures cur.fini ==> trace[|trace| - 1] == Fini(cur)
      ensures forall o :: o in all ==> o.references == old(o.references) + if o == cur then 1 else 0
    {
      hide Edges, Mult, Closed, Distinct;
      cur.terminated := true;
      Ref(cur);
      CallFini(cur);
      ReleaseDependencies(cur, objects, term, all);
      cur.references := cur.references - 1;
    }

    /** The object no longer counts as a dependent (lines 1573-1575). */
    method ReleaseDependencies(cur: Object, ghost objects: seq<Object>, ghost term: set<Object>,
                               ghost all: set<Object>)
      requires Distinct(objects) && all == (set o | o in objects) && Closed(all)
      requires cur in objects && cur !in term
      requires forall o :: o in objects ==>
                 (o.terminated <==> o in term + {cur}) && o.unterminatedDependents == Edges(objects, term, o)
      modifies all`unterminatedDependents
      ensures Counted(objects, term + {cur})
    {
      hide Edges, Mult, Closed, Distinct;
      NoMult();
      var i := 0;
      ghost var deps := cur.dependencies;
      while i < |cur.dependencies|
        invariant i <= |deps|
        invariant forall o :: o in objects ==>
                    o.unterminatedDependents + Mult(deps[..i], o) == Edges(objects, term, o)
      {
        var d := cur.dependencies[i];
        DependencyListed(objects, all, cur, d);
        EdgesBound(objects, term, cur, d);
        MultPrefix(deps, i + 1, d);
        MultStep(deps, i);
        d.unterminatedDependents := d.unterminatedDependents - 1;
        i := i + 1;
      }
      assert deps[..i] == deps;
      forall o | o in objects
        ensures o.unterminatedDependents == Edges(objects, term + {cur}, o)
      {
        EdgesDrop(objects, term, cur, o);
      }
    }

    /** What finalising the k-th object means for the whole. */
    method FinaliseNext(cur: Object, ghost objects: seq<Object>, ghost all: set<Object>, ghost before: set<Object>,
                        ghost start: seq<Event>, ghost term: set<Object>, ghost run: Run, ghost at: seq<nat>,
                        ghost n: nat, ghost k: nat)
      requires Distinct(objects) && all == (set o | o in objects) && Closed(all) && Counted(objects, term)
      requires k < |objects| && objects[k] == cur && cur !in term && Edges(objects, term, cur) == 0
      requires Progress(objects, all, before, term, run, n, k) && AllRun(start, trace, run.order, at)
      modifies this`trace, all`terminated, all`unterminatedDependents, all`references
      ensures cur in all && Counted(objects, term + {cur})
      ensures Progress(objects, all, before, term + {cur}, run.Then(cur, k, n), n, k + 1)
      ensures AllRun(start, trace, run.order + [cur], at + [|trace|])
    {
      ProgressWith(objects, all, before, term, run, n, k);
      hide Progress, Edges, AllRun, Counted, Closed, Distinct;
      Terminate(cur, objects, term, all);
      AllRunLonger(start, old(trace), run.order, at, trace, cur);
    }

    /** One pass over the list (lines 1562-1584). */
    method Pass(ghost objects: seq<Object>, ghost all: set<Object>, ghost before: set<Object>,
                ghost start: seq<Event>, ghost term0: set<Object>, ghost run0: Run, ghost at0: seq<nat>, ghost n: nat)
        returns (done: bool, ghost term: set<Object>, ghost run: Run, ghost at: seq<nat>)
      requires Listed(objectList, objects) && Distinct(objects) && all == (set o | o in objects) && Closed(all)
      requires Counted(objects, term0) && Progress(objects, all, before, term0, run0, n, 0)
      requires AllRun(start, trace, run0.order, at0)
      modifies this`trace, all`terminated, all`unterminatedDependents, all`references
      ensures Listed(objectList, objects) && Counted(objects, term)
      ensures Progress(objects, all, before, term, run, n, |objects|) && AllRun(start, trace, run.order, at)
      ensures if done then term == term0 && Stuck(objects, term, |objects|) else |all - term| < |all - term0|
    {
      hide *;
      done := true;
      term, run, at := term0, run0, at0;
      var cur := objectList;
      ghost var k := 0;
      ListHead(objectList, objects);
      StuckNowhere(objects, term);
      while cur != null
        invariant k <= |objects| && cur == (if k < |objects| then objects[k] else null)
        invariant Listed(objectList, objects) && Counted(objects, term)
        invariant Progress(objects, all, before, term, run, n, k) && AllRun(start, trace, run.order, at)
        invariant term0 <= term
        invariant if done then term == term0 && Stuck(objects, term, k) else |all - term| < |all - term0|
        decreases |objects| - k
      {
        Step(objectList, objects, term, k);
        if !cur.terminated && cur.unterminatedDependents == 0 {
          FinaliseNext(cur, objects, all, before, start, term, run, at, n, k);
          Fewer(all, term0, term, cur);
          ThenOrder(run, cur, k, n);
          term, run, at := term + {cur}, run.Then(cur, k, n), at + [|trace|];
          done := false;
        } else {
          ProgressPast(objects, all, before, term, run, n, k);
          if done { StuckLonger(objects, term, k); }
        }
        cur := cur.next;
        k := k + 1;
      }
    }

    /** `run_fini_functions` (object.c:1560-1588) */
    method RunFiniFunctions(ghost objects: seq<Object>, ghost all: set<Object>, ghost rank: map<Object, nat>,
                            ghost before: set<Object>)
        returns (ghost run: Run, ghost at: seq<nat>)
      requires Listed(objectList, objects) && Distinct(objects) && all == (set o | o in objects)
      requires Ranked(all, rank) && Counted(objects, before) && before <= all
      modifies this`trace, all`terminated, all`unterminatedDependents, all`references
      ensures Distinct(run.order) && DependentsFirst(objects, before, run.order)
      ensures forall o :: o in run.order ==> o in all && o !in before
      ensures forall o :: o in all && o !in before ==> o in run.order
      ensures InPasses(objects, run) && AllRun(old(trace), trace, run.order, at)
      ensures Counted(objects, all)
    {
      assert Closed(all);
      hide *;
      ghost var term, n := before, 0;
      run, at := Run([], [], []), [|trace|];
      NoProgress(objects, all, before);
      NothingRun(trace);
      var done := false;
      while !done
        invariant Listed(objectList, objects) && Counted(objects, term)
        invariant Progress(objects, all, before, term, run, n, 0) && AllRun(old(trace), trace, run.order, at)
        invariant done ==> Stuck(objects, term, |objects|)
        decreases |all - term|, if done then 0 else 1
      {
        ghost var term0 := term;
        done, term, run, at := Pass(objects, all, before, old(trace), term, run, at, n);
        ProgressAgain(objects, all, before, term, run, n);
        n := n + 1;
      }
      StuckEverywhere(objects, term);
      AllTerminated(objects, all, term, rank);
      ProgressMeans(objects, all, before, term, run, n, 0);
      assert term == all;
      WhatFinalisedMeans(objects, before, all, run.order);
    }
  }

  lemma ThenOrder(run: Run, o: Object, k: nat, n: nat)
    ensures run.Then(o, k, n).order == run.order + [o]
  {
  }

  lemma WhatFinalisedMeans(objects: seq<Object>, before: set<Object>, term: set<Object>, order: seq<Object>)
    requires Finalised(objects, before, term, order)
    ensures Distinct(order) && DependentsFirst(objects, before, order)
    ensures forall o :: o in order ==> o in term && o !in before
    ensures forall o :: o in term && o !in before ==> o in order
  {
  }

  lemma NoDependents(objects: seq<Object>, term: set<Object>, o: Object)
    requires Edges(objects, term, o) == 0
    ensures forall x :: x in objects && o in x.dependencies ==> x in term
  {
    forall x | x in objects && o in x.dependencies && x !in term
      ensures false
    {
      EdgesBound(objects, term, x, o);
      MultPositive(x.dependencies, o);
    }
  }

  lemma Fewer(all: set<Object>, start: set<Object>, term: set<Object>, o: Object)
    requires o in all && o !in term && start <= term
    ensures |all - (term + {o})| < |all - start|
  {
    Smaller(all - (term + {o}), all - start, o);
  }

  lemma {:induction false} Smaller(a: set<Object>, b: set<Object>, o: Object)
    requires a <= b && o in b && o !in a
    ensures |a| < |b|
  {
    var rest := b - {o};
    assert b == rest + {o} && a <= rest;
    SmallerOrEqual(a, rest);
  }

  lemma {:induction false} SmallerOrEqual(a: set<Object>, b: set<Object>)
    requires a <= b
    ensures |a| <= |b|
    decreases a
  {
    if a != {} {
      var x :| x in a;
      SmallerOrEqual(a - {x}, b - {x});
    }
  }

  lemma Extend(objects: seq<Object>, before: set<Object>, term: set<Object>, order: seq<Object>, o: Object)
    requires Finalised(objects, before, term, order) && o !in term && Edges(objects, term, o) == 0
    ensures Finalised(objects, before, term + {o}, order + [o])
  {
    NoDependents(objects, term, o);
    hide Edges;
    var longer := order + [o];
    forall i, x | 0 <= i < |longer| && x in objects && longer[i] in x.dependencies
      ensures x in before || x in longer[..i]
    {
      if i < |order| { assert longer[..i] == order[..i]; } else { assert longer[..i] == order; }
    }
  }
}
