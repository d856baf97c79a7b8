/** The dynamic linker's record of a loaded object, and its dependency graph. */
module LinkerObjects {
  import opened Words

  class Object {
    const soname: seq<byte>
    const hash: u64
    const dependencies: seq<Object>

    // how many constructors and destructors the object has
    const preinitArray: nat
    const init: bool
    const initArray: nat
    const fini: bool
    const finiArray: nat

    // the chain of the soname table
    var objectsNext: Object?
    var objectsPrev: Object?

    // the list of all objects
    var next: Object?
    var prev: Object?

    // the breadth-first search
    var searchNext: Object?
    var searchId: nat

    // initialisation and termination
    var initialized: bool
    var terminated: bool
    var unterminatedDependents: nat
    var references: nat

    constructor (soname: seq<byte>, hash: u64, dependencies: seq<Object>,
                 preinitArray: nat, init: bool, initArray: nat, fini: bool, finiArray: nat)
      ensures this.soname == soname && this.hash == hash && this.dependencies == dependencies
      ensures this.preinitArray == preinitArray && this.init == init && this.initArray == initArray
      ensures this.fini == fini && this.finiArray == finiArray
      ensures searchId == 0 && !initialized && !terminated && unterminatedDependents == 0 && references == 0
    {
      this.soname := soname;
      this.hash := hash;
      this.dependencies := dependencies;
      this.preinitArray := preinitArray;
      this.init := init;
      this.initArray := initArray;
      this.fini := fini;
      this.finiArray := finiArray;
      objectsNext, objectsPrev, next, prev, searchNext := null, null, null, null, null;
      searchId := 0;
      initialized, terminated := false, false;
      unterminatedDependents, references := 0, 0;
    }
  }

  ghost predicate Distinct(s: seq<Object>) { forall i, j :: 0 <= i < j < |s| ==> s[i] != s[j] }

  /** The objects of a closed set depend only on each other. */
  ghost predicate Closed(objects: set<Object>)
  {
    forall o, d :: o in objects && d in o.dependencies ==> d in objects
  }

  /** Acyclic: every object has a higher rank than its dependencies. */
  ghost predicate Ranked(objects: set<Object>, rank: map<Object, nat>)
  {
    && Closed(objects) && objects <= rank.Keys
    && forall o, d :: o in objects && d in o.dependencies ==> rank[d] < rank[o]
  }

  /** A call of a constructor or destructor. */
  datatype Event = Preinit(owner: Object, index: nat) | Init(owner: Object) | InitArray(owner: Object, index: nat)
                 | FiniArray(owner: Object, index: nat) | Fini(owner: Object)

  lemma EventsAssociate(a: seq<Event>, b: seq<Event>, c: seq<Event>)
    ensures a + b + c == a + (b + c)
  {
  }
}
