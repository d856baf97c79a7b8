/**
  The dynamic linker's table of loaded objects by soname: an array of doubly linked chains threaded through
  the objects, which doubles when it is three quarters full.
 */
module Registry {
  import opened Words
  import opened LinkerObjects

  // ----- hash_blob

  const HASH_OFFSET: u64 := 0xcbf2_9ce4_8422_2325
  const HASH_PRIME: u64 := 0x100_0000_01b3

  /** One round: multiply, then mix in a byte. */
  function Mix(h: u64, c: byte): u64
  {
    TwoTo64();
    Pow2Mono(8, 64);
    XorBound(h * HASH_PRIME % W64, c, 64);
    Xor(h * HASH_PRIME % W64, c)
  }

  function Hash(name: seq<byte>): u64
  {
    if name == [] then HASH_OFFSET else Mix(Hash(name[..|name| - 1]), name[|name| - 1])
  }

  /** One more byte: the hash is multiplied first, and then the byte is mixed in. */
  lemma HashStep(name: seq<byte>, c: byte)
    ensures Hash([]) == 0xcbf2_9ce4_8422_2325
    ensures Hash(name + [c]) == Xor(Hash(name) * 0x100_0000_01b3 % 0x1_0000_0000_0000_0000, c)
  {
    assert (name + [c])[..|name|] == name;
    hide Xor;
  }

  /** The hash of the name "a". */
  lemma HashOfA()
    ensures Hash([97]) == 0xaf63_bd4c_8601_b7be
  {
    hide *;
    HashStep([], 97);
    assert [] + [97] == [97];
    XorOfA();
  }

  /** Seven halvings. */
  lemma XorOfA()
    ensures Xor(0xaf63_bd4c_8601_b7df, 97) == 0xaf63_bd4c_8601_b7be
  {
    hide Xor;
    XorStep(0xaf63_bd4c_8601_b7df, 97);
    XorStep(0x57b1_dea6_4300_dbef, 48);
    XorStep(0x2bd8_ef53_2180_6df7, 24);
    XorStep(0x15ec_77a9_90c0_36fb, 12);
    XorStep(0xaf6_3bd4_c860_1b7d, 6);
    XorStep(0x57b_1dea_6430_0dbe, 3);
    XorStep(0x2bd_8ef5_3218_06df, 1);
    XorNothing(0x15e_c77a_990c_036f);
  }

  lemma XorNothing(a: nat)
    ensures Xor(a, 0) == a
  {
  }

  method HashBlob(name: seq<byte>) returns (hash: u64)
    ensures hash == Hash(name)
  {
    hash := HASH_OFFSET;
    var i := 0;
    while i < |name|
      invariant i <= |name| && hash == Hash(name[..i])
    {
      assert name[..i + 1][..i] == name[..i];
      hash := Mix(hash, name[i]);
      i := i + 1;
    }
    assert name[..|name|] == name;
  }

  // ----- chains

  /** The objects of s are linked in this order, in both directions, and head is the first. */
  ghost predicate Chain(head: Object?, s: seq<Object>)
    reads s
  {
    && head == (if s == [] then null else s[0])
    && (forall i {:trigger s[i].objectsNext} :: 0 <= i < |s| ==>
          s[i].objectsNext == if i + 1 < |s| then s[i + 1] else null)
    && (forall i {:trigger s[i].objectsPrev} :: 0 <= i < |s| ==>
          s[i].objectsPrev == if i > 0 then s[i - 1] else null)
  }

  /** Every object of chain b hashes to bucket b. */
  ghost predicate InBuckets(chains: seq<seq<Object>>)
  {
    forall b, o :: 0 <= b < |chains| && o in chains[b] ==> o.hash % |chains| == b
  }

  /** The chains hold exactly the objects of members, each once. */
  ghost predicate Holds(chains: seq<seq<Object>>, members: set<Object>)
  {
    && (forall b :: 0 <= b < |chains| ==> Distinct(chains[b]))
    && (forall b, o :: 0 <= b < |chains| && o in chains[b] ==> o in members)
    && (forall o :: o in members ==> |chains| > 0 && o in chains[o.hash % |chains|])
  }

  ghost predicate Table(table: array<Object?>, chains: seq<seq<Object>>, members: set<Object>)
    reads table, members
  {
    && table.Length == |chains| && InBuckets(chains) && Holds(chains, members)
    && forall b :: 0 <= b < |chains| ==> Chain(table[b], chains[b])
  }

  /** Adding o in front of its bucket. */
  function Pushed(chains: seq<seq<Object>>, o: Object): seq<seq<Object>>
    requires |chains| > 0
  {
    var b := o.hash % |chains|;
    chains[b := [o] + chains[b]]
  }

  // what the predicates say, and how they come about

  lemma ChainMeans(head: Object?, s: seq<Object>)
    requires Chain(head, s)
    ensures head == if s == [] then null else s[0]
    ensures forall i {:trigger s[i].objectsNext} :: 0 <= i < |s| ==>
              s[i].objectsNext == if i + 1 < |s| then s[i + 1] else null
    ensures forall i {:trigger s[i].objectsPrev} :: 0 <= i < |s| ==>
              s[i].objectsPrev == if i > 0 then s[i - 1] else null
  {
  }

  lemma TableMeans(table: array<Object?>, chains: seq<seq<Object>>, members: set<Object>)
    requires Table(table, chains, members)
    ensures table.Length == |chains| && InBuckets(chains) && Holds(chains, members)
    ensures forall b :: 0 <= b < |chains| ==> Chain(table[b], chains[b])
    ensures forall b, m :: 0 <= b < |chains| && m in chains[b] ==> m in members && m.hash % |chains| == b
    ensures forall m :: m in members ==> |chains| > 0 && m in chains[m.hash % |chains|]
  {
  }

  lemma IsTable(table: array<Object?>, chains: seq<seq<Object>>, members: set<Object>)
    requires table.Length == |chains| && InBuckets(chains) && Holds(chains, members)
    requires forall b :: 0 <= b < |chains| ==> Chain(table[b], chains[b])
    ensures Table(table, chains, members)
  {
  }

  lemma BucketRange(h: u64, n: nat)
    requires n > 0
    ensures 0 <= h % n < n
  {
  }

  lemma Apart(s: seq<Object>)
    requires Distinct(s)
    ensures forall i, j :: 0 <= i < |s| && 0 <= j < |s| && i != j ==> s[i] != s[j]
  {
  }

  lemma BucketApart(chains: seq<seq<Object>>, members: set<Object>, b: nat, o: Object)
    requires Holds(chains, members) && o !in members && b < |chains|
    ensures forall i :: 0 <= i < |chains[b]| ==>
              chains[b][i] in members && chains[b][i] != o && (i > 0 ==> chains[b][i] != chains[b][0])
  {
  }

  lemma HashBuckets(members: set<Object>, n: nat)
    ensures n > 0 ==> forall m :: m in members ==> 0 <= m.hash % n < n
  {
  }

  lemma PushedHolds(chains: seq<seq<Object>>, members: set<Object>, o: Object)
    requires |chains| > 0 && InBuckets(chains) && Holds(chains, members) && o !in members
    ensures 0 <= o.hash % |chains| < |chains|
    ensures Pushed(chains, o) == chains[o.hash % |chains| := [o] + chains[o.hash % |chains|]]
    ensures InBuckets(Pushed(chains, o)) && Holds(Pushed(chains, o), members + {o})
  {
    var b := o.hash % |chains|;
    assert Pushed(chains, o)[b][1..] == chains[b];
  }

  /** Linking an object in front of its bucket's chain (lines 109-113 and 581-585). */
  method Push(table: array<Object?>, o: Object, ghost chains: seq<seq<Object>>, ghost members: set<Object>)
    requires table.Length > 0 && Table(table, chains, members) && o !in members
    modifies table, o, members
    ensures |chains| > 0 && var b := o.hash % |chains|;
              Table(table, chains[b := [o] + chains[b]], members + {o})
    ensures forall m :: m in members && m != old(table[o.hash % table.Length]) ==>
              m.objectsNext == old(m.objectsNext) && m.objectsPrev == old(m.objectsPrev)
  {
    hide *;
    TableMeans(table, chains, members);
    BucketRange(o.hash, table.Length);
    PushedHolds(chains, members, o);
    var bucket := o.hash % table.Length;
    ghost var before := chains[bucket];
    ghost var after := [o] + before;
    ChainMeans(table[bucket], before);
    BucketApart(chains, members, bucket, o);
    o.objectsPrev := null;
    o.objectsNext := table[bucket];
    if o.objectsNext != null { o.objectsNext.objectsPrev := o; }
    table[bucket] := o;
    PushedChain(o, before);
    forall b | 0 <= b < |chains| && b != bucket
      ensures Chain(table[b], chains[b])
    {
      assert old(Chain(table[b], chains[b]));
    }
    IsTable(table, Pushed(chains, o), members + {o});
  }

  lemma PushedChain(o: Object, before: seq<Object>)
    requires o.objectsPrev == null && o.objectsNext == if before == [] then null else before[0]
    requires before != [] ==> before[0].objectsPrev == o
    requires forall i {:trigger before[i].objectsNext} :: 0 <= i < |before| ==>
               before[i].objectsNext == if i + 1 < |before| then before[i + 1] else null
    requires forall i {:trigger before[i].objectsPrev} :: 1 <= i < |before| ==> before[i].objectsPrev == before[i - 1]
    ensures Chain(o, [o] + before)
  {
    var after := [o] + before;
    forall i | 0 <= i < |after|
      ensures after[i].objectsNext == (if i + 1 < |after| then after[i + 1] else null)
      ensures after[i].objectsPrev == (if i > 0 then after[i - 1] else null)
    {
      if i > 0 { assert after[i] == before[i - 1]; }
    }
  }

  // ----- which of two comes first

  ghost predicate Precedes(c: seq<Object>, x: Object, y: Object)
  {
    exists p, q :: 0 <= p < q < |c| && c[p] == x && c[q] == y
  }

  ghost predicate KeepsOrder(chains: seq<seq<Object>>, chains': seq<seq<Object>>)
  {
    |chains| == |chains'|
    && forall b, x, y :: 0 <= b < |chains| && x in chains[b] && y in chains[b] && Precedes(chains[b], x, y) ==>
         x in chains'[b] && y in chains'[b] && Precedes(chains'[b], x, y)
  }

  /** Of the first k objects of a chain, those that share a bucket stand there in the opposite order. */
  ghost predicate Reversed(chain: seq<Object>, chains: seq<seq<Object>>, k: nat)
  {
    |chains| > 0 && forall i, j :: 0 <= i < j < k && j < |chain| ==> Follows(chains, chain[j], chain[i])
  }

  ghost predicate Follows(chains: seq<seq<Object>>, x: Object, y: Object)
    requires |chains| > 0
  {
    x.hash % |chains| == y.hash % |chains| ==> Precedes(chains[x.hash % |chains|], x, y)
  }

  ghost predicate AllReversed(chains: seq<seq<Object>>, chains': seq<seq<Object>>)
  {
    forall b :: 0 <= b < |chains| ==> Reversed(chains[b], chains', |chains[b]|)
  }

  /** What happens to two objects of one old chain that share a new one. */
  lemma AllReversedMeans(chains: seq<seq<Object>>, chains': seq<seq<Object>>, b: nat, i: nat, j: nat)
      returns (p: nat, q: nat)
    requires AllReversed(chains, chains') && b < |chains| && i < j < |chains[b]| && |chains'| > 0
    requires chains[b][i].hash % |chains'| == chains[b][j].hash % |chains'|
    ensures var c := chains'[chains[b][i].hash % |chains'|];
      p < q < |c| && c[p] == chains[b][j] && c[q] == chains[b][i]
  {
    var x, y := chains[b][j], chains[b][i];
    assert Reversed(chains[b], chains', |chains[b]|);
    assert Follows(chains', x, y);
    p, q :| 0 <= p < q < |chains'[x.hash % |chains'|]|
            && chains'[x.hash % |chains'|][p] == x && chains'[x.hash % |chains'|][q] == y;
  }

  lemma NothingReversed(chains: seq<seq<Object>>, chain: seq<Object>)
    requires |chains| > 0
    ensures KeepsOrder(chains, chains) && Reversed(chain, chains, 0)
  {
  }

  lemma StillReversed(chain: seq<Object>, chains: seq<seq<Object>>, chains': seq<seq<Object>>, k: nat)
    requires Reversed(chain, chains, k) && KeepsOrder(chains, chains')
    ensures Reversed(chain, chains', k)
  {
    forall i, j | 0 <= i < j < k && j < |chain|
      ensures Follows(chains', chain[j], chain[i])
    {
      assert Follows(chains, chain[j], chain[i]);
      if chain[i].hash % |chains| == chain[j].hash % |chains| {
        PrecedesIn(chains[chain[j].hash % |chains|], chain[j], chain[i]);
      }
    }
  }

  lemma PrecedesIn(c: seq<Object>, x: Object, y: Object)
    requires Precedes(c, x, y)
    ensures x in c && y in c
  {
  }

  lemma OrderKept(a: seq<seq<Object>>, b: seq<seq<Object>>, c: seq<seq<Object>>)
    requires KeepsOrder(a, b) && KeepsOrder(b, c)
    ensures KeepsOrder(a, c)
  {
    hide Precedes;
  }

  lemma PushKeeps(chains: seq<seq<Object>>, o: Object)
    requires |chains| > 0
    ensures var b := o.hash % |chains|; KeepsOrder(chains, chains[b := [o] + chains[b]])
  {
    var n := o.hash % |chains|;
    var c := chains[n];
    forall x, y | x in c && y in c && Precedes(c, x, y)
      ensures x in [o] + c && y in [o] + c && Precedes([o] + c, x, y)
    {
      var p, q :| 0 <= p < q < |c| && c[p] == x && c[q] == y;
      assert ([o] + c)[p + 1] == x && ([o] + c)[q + 1] == y;
    }
    hide Precedes;
  }

  /** The k-th object of a chain comes before the earlier ones. */
  lemma PushFlips(start: seq<seq<Object>>, chains: seq<seq<Object>>, moved: set<Object>, chain: seq<Object>, k: nat)
    requires KeepsOrder(start, chains) && Reversed(chain, chains, k) && k < |chain|
    requires Holds(chains, moved) && forall i :: 0 <= i < k ==> chain[i] in moved
    ensures var b := chain[k].hash % |chains|; var chains' := chains[b := [chain[k]] + chains[b]];
      KeepsOrder(start, chains') && Reversed(chain, chains', k + 1)
  {
    var o, b := chain[k], chain[k].hash % |chains|;
    var chains' := chains[b := [o] + chains[b]];
    PushKeeps(chains, o);
    OrderKept(start, chains, chains');
    StillReversed(chain, chains, chains', k);
    forall i | 0 <= i < k
      ensures Follows(chains', o, chain[i])
    {
      if chain[i].hash % |chains| == b {
        var q := IndexOf(chains[b], chain[i]);
        assert chains'[b][0] == o && chains'[b][q + 1] == chain[i];
      }
    }
    hide Follows, KeepsOrder, Holds;
  }

  /** Another old chain has been moved. */
  lemma MoreReversed(old': seq<seq<Object>>, i: nat, chains: seq<seq<Object>>, chains': seq<seq<Object>>)
    requires i < |old'| && KeepsOrder(chains, chains') && Reversed(old'[i], chains', |old'[i]|)
    requires forall b :: 0 <= b < i ==> Reversed(old'[b], chains, |old'[b]|)
    ensures forall b :: 0 <= b < i + 1 ==> Reversed(old'[b], chains', |old'[b]|)
  {
    forall b | 0 <= b < i
      ensures Reversed(old'[b], chains', |old'[b]|)
    {
      StillReversed(old'[b], chains, chains', |old'[b]|);
    }
    hide Reversed, KeepsOrder;
  }

  lemma PushKeepsReversed(old': seq<seq<Object>>, chains: seq<seq<Object>>, o: Object)
    requires |chains| > 0
    ensures var b := o.hash % |chains|;
      AllReversed(old', chains) ==> AllReversed(old', chains[b := [o] + chains[b]])
  {
    var b := o.hash % |chains|;
    var chains' := chains[b := [o] + chains[b]];
    PushKeeps(chains, o);
    if AllReversed(old', chains) {
      forall d | 0 <= d < |old'|
        ensures Reversed(old'[d], chains', |old'[d]|)
      {
        StillReversed(old'[d], chains, chains', |old'[d]|);
      }
    }
    hide Reversed;
  }

  /** The table with a new object, which comes first in its chain. */
  lemma AfterPush(start: seq<seq<Object>>, chains: seq<seq<Object>>, o: Object)
    requires |chains| > 0
    ensures |Pushed(chains, o)| == |chains|
    ensures var b := o.hash % |chains|; Pushed(chains, o) == chains[b := [o] + chains[b]]
    ensures exists b :: 0 <= b < |Pushed(chains, o)| && Pushed(chains, o)[b] != [] && Pushed(chains, o)[b][0] == o
    ensures AllReversed(start, chains) ==> AllReversed(start, Pushed(chains, o))
  {
    var b := o.hash % |chains|;
    assert Pushed(chains, o)[b] == [o] + chains[b];
    PushKeepsReversed(start, chains, o);
    hide AllReversed;
  }

  // ----- the table

  /** Chains without objects. */
  lemma EmptyTable(table: array<Object?>, chains: seq<seq<Object>>)
    requires table.Length == |chains|
    requires forall b :: 0 <= b < |chains| ==> table[b] == null && chains[b] == []
    ensures Table(table, chains, {})
  {
  }

  /** Moving the objects of one old chain into the new table (lines 106-116). */
  method MoveChain(newTable: array<Object?>, head: Object?, ghost newChains: seq<seq<Object>>, ghost done: set<Object>,
                   ghost chain: seq<Object>, ghost all: set<Object>)
      returns (ghost chains: seq<seq<Object>>)
    requires newTable.Length > 0 && Table(newTable, newChains, done)
    requires Chain(head, chain) && Distinct(chain) && all == (set o | o in chain) && done !! all
    modifies newTable, done + all
    ensures Table(newTable, chains, done + all)
    ensures KeepsOrder(newChains, chains) && Reversed(chain, chains, |chain|)
  {
    hide *;
    ChainMeans(head, chain);
    Apart(chain);
    TableSize(newTable, newChains, done);
    var cur := head;
    ghost var k := 0;
    ghost var moved: set<Object> := done;
    chains := newChains;
    NothingReversed(chains, chain);
    while cur != null
      invariant k <= |chain| && cur == (if k < |chain| then chain[k] else null)
      invariant Table(newTable, chains, moved) && |chains| == newTable.Length
      invariant done <= moved <= done + all
      invariant KeepsOrder(newChains, chains) && Reversed(chain, chains, k)
      invariant forall j :: 0 <= j < |chain| ==> (chain[j] in moved <==> j < k)
      invariant forall j {:trigger chain[j].objectsNext} :: k <= j < |chain| ==>
                  chain[j].objectsNext == (if j + 1 < |chain| then chain[j + 1] else null)
      decreases |chain| - k
    {
      var next := cur.objectsNext;
      assert chain[k] in all;
      ghost var b := cur.hash % |chains|;
      TableMeans(newTable, chains, moved);
      Push(newTable, cur, chains, moved);
      PushFlips(newChains, chains, moved, chain, k);
      chains := chains[b := [cur] + chains[b]];
      moved := moved + {cur};
      TableSize(newTable, chains, moved);
      cur := next;
      k := k + 1;
    }
    assert moved == done + all;
  }

  /** Moving all objects (lines 103-117). */
  method Rehash(table: array<Object?>, newTable: array<Object?>, ghost chains: seq<seq<Object>>,
                ghost members: set<Object>)
      returns (ghost newChains: seq<seq<Object>>)
    requires Table(table, chains, members) && newTable != table && newTable.Length > 0
    requires forall b :: 0 <= b < newTable.Length ==> newTable[b] == null
    modifies newTable, members
    ensures Table(newTable, newChains, members) && AllReversed(chains, newChains)
  {
    hide *;
    newChains := seq(newTable.Length, i => []);
    ghost var done: set<Object> := {};
    EmptyTable(newTable, newChains);
    TableMeans(table, chains, members);
    ghost var buckets := ByBucket(chains, members);
    HashBuckets(members, |chains|);
    var i := 0;
    while i < table.Length
      invariant i <= table.Length
      invariant Table(newTable, newChains, done)
      invariant forall b :: 0 <= b < i ==> Reversed(chains[b], newChains, |chains[b]|)
      invariant forall o :: o in done <==> o in members && o.hash % |chains| < i
      invariant forall b :: i <= b < table.Length ==> Chain(table[b], chains[b])
    {
      label before:
      ghost var earlier := newChains;
      newChains := MoveChain(newTable, table[i], newChains, done, chains[i], buckets[i]);
      MoreReversed(chains, i, earlier, newChains);
      done := done + buckets[i];
      forall b | i < b < table.Length
        ensures Chain(table[b], chains[b])
      {
        assert old@before(Chain(table[b], chains[b]));
        assert forall m :: m in chains[b] ==> m in buckets[b];
      }
      i := i + 1;
    }
    assert done == members;
    AreReversed(chains, newChains);
  }

  lemma AreReversed(chains: seq<seq<Object>>, chains': seq<seq<Object>>)
    requires forall b :: 0 <= b < |chains| ==> Reversed(chains[b], chains', |chains[b]|)
    ensures AllReversed(chains, chains')
  {
  }

  /** The objects by bucket. */
  lemma ByBucket(chains: seq<seq<Object>>, members: set<Object>) returns (buckets: seq<set<Object>>)
    requires InBuckets(chains) && Holds(chains, members)
    ensures |buckets| == |chains|
    ensures forall b :: 0 <= b < |chains| ==> Distinct(chains[b]) && buckets[b] == set o | o in chains[b]
    ensures forall b, o :: 0 <= b < |chains| ==> (o in buckets[b] <==> o in members && o.hash % |chains| == b)
  {
    buckets := seq(|chains|, b requires 0 <= b < |chains| => set o | o in chains[b]);
  }

  lemma TableSize(table: array<Object?>, chains: seq<seq<Object>>, members: set<Object>)
    requires Table(table, chains, members)
    ensures table.Length == |chains|
  {
  }

  class ObjectTable {
    var table: array<Object?>
    var count: nat
    ghost var chains: seq<seq<Object>>
    ghost var members: set<Object>

    ghost predicate Valid()
      reads this, table, members
    {
      && Table(table, chains, members)
      && count == |members| && count <= table.Length - table.Length / 4
      && forall o :: o in members ==> o.hash == Hash(o.soname)
    }

    lemma ValidMeans()
      requires Valid()
      ensures Table(table, chains, members)
      ensures count == |members| && count <= table.Length - table.Length / 4
      ensures forall o :: o in members ==> o.hash == Hash(o.soname)
    {
    }

    lemma IsValid()
      requires Table(table, chains, members)
      requires count == |members| && count <= table.Length - table.Length / 4
      requires forall o :: o in members ==> o.hash == Hash(o.soname)
      ensures Valid()
    {
    }

    /** Program start: no table. */
    constructor ()
      ensures Valid() && members == {} && table.Length == 0
    {
      table := new Object?[0];
      count := 0;
      chains := [];
      members := {};
    }

    /** `get_object` (object.c:69-79) */
    method GetObject(name: seq<byte>) returns (found: Object?)
      requires Valid()
      ensures found == null <==> forall o :: o in members ==> o.soname != name
      ensures found != null ==> found in members && found.soname == name && |chains| > 0
      // of several objects with this name, the first of their chain
      ensures found != null ==>
                var c := chains[found.hash % |chains|];
                exists k :: 0 <= k < |c| && c[k] == found && forall i :: 0 <= i < k ==> c[i].soname != name
    {
      if count == 0 {
        assert members == {};
        return null;
      }
      var hash := HashBlob(name);
      assert table.Length > 0 by {
        var o :| o in members;
      }
      var bucket := hash % table.Length;
      var cur := table[bucket];
      ghost var k := 0;
      while true
        invariant k <= |chains[bucket]|
        invariant cur == (if k < |chains[bucket]| then chains[bucket][k] else null)
        invariant forall i :: 0 <= i < k ==> chains[bucket][i].soname != name
        decreases |chains[bucket]| - k
      {
        if cur == null {
          assert forall o :: o in members && o.soname == name ==> o in chains[bucket];
          return null;
        }
        if cur.hash == hash && cur.soname == name {
          assert chains[bucket][k] == cur;
          return cur;
        }
        cur := cur.objectsNext;
        k := k + 1;
      }
    }

    /** `maybe_expand_objects` (object.c:93-123): rehashing into twice the space. */
    method MaybeExpandObjects(outOfMemory: bool) returns (ok: bool)
      requires Valid()
      modifies this`table, this`chains, members
      ensures Valid()
      ensures ok <==> old(count < table.Length - table.Length / 4) || !outOfMemory
      ensures ok ==> count < table.Length - table.Length / 4 && table.Length > 0
      ensures ok && old(count >= table.Length - table.Length / 4) ==>
                && table.Length == (if old(table.Length) == 0 then 8 else 2 * old(table.Length))
                && AllReversed(old(chains), chains)
      ensures !ok || old(count < table.Length - table.Length / 4) ==> table == old(table) && chains == old(chains)
      ensures table == old(table) || fresh(table)
      ensures members == old(members) && count == old(count)
    {
      var capacity := table.Length;
      if count < capacity - capacity / 4 { return true; }
      if outOfMemory { return false; }
      var newCap := if capacity != 0 then capacity * 2 else 8;
      var newTable := new Object?[newCap](i => null);
      ghost var newChains := Rehash(table, newTable, chains, members);
      table := newTable;
      chains := newChains;
      ok := true;
    }

    /** Entering a new object (object.c:571-588). */
    method Insert(o: Object, outOfMemory: bool) returns (ok: bool)
      requires Valid() && o !in members && o.hash == Hash(o.soname)
      modifies this, table, members, o
      ensures Valid()
      ensures ok <==> old(count < table.Length - table.Length / 4) || !outOfMemory
      ensures members == if ok then old(members) + {o} else old(members)
      ensures !ok ==> chains == old(chains)
      // the new object comes first in its chain
      ensures ok ==> exists b :: 0 <= b < |chains| && chains[b] != [] && chains[b][0] == o
      ensures old(count < table.Length - table.Length / 4) ==>
                |old(chains)| > 0 && chains == Pushed(old(chains), o)
      ensures ok && old(count >= table.Length - table.Length / 4) ==>
                |chains| == (if |old(chains)| == 0 then 8 else 2 * |old(chains)|) && AllReversed(old(chains), chains)
    {
      hide *;
      ValidMeans();
      TableSize(table, chains, members);
      ok := MaybeExpandObjects(outOfMemory);
      if !ok { return; }
      ValidMeans();
      TableSize(table, chains, members);
      AfterPush(old(chains), chains, o);
      Enter(o);
    }

    /** The object is linked and counted (lines 581-587). */
    method Enter(o: Object)
      requires Valid() && o !in members && o.hash == Hash(o.soname) && count < table.Length - table.Length / 4
      modifies this`chains, this`members, this`count, table, members, o
      ensures Valid() && members == old(members) + {o} && |old(chains)| > 0 && chains == Pushed(old(chains), o)
    {
      hide *;
      ValidMeans();
      TableSize(table, chains, members);
      AfterPush(chains, chains, o);
      Push(table, o, chains, members);
      chains := Pushed(chains, o);
      members := members + {o};
      count := count + 1;
      IsValid();
    }

    /** The soname part of `remove_object` (object.c:157-165). */
    method RemoveObject(o: Object) returns (ghost k: nat)
      requires Valid() && o in members
      modifies this`chains, this`members, this`count, table, members
      ensures Valid() && members == old(members) - {o} && table == old(table)
      ensures |old(chains)| > 0 && var c := old(chains)[o.hash % |old(chains)|];
                k < |c| && c[k] == o && chains == old(chains)[o.hash % |old(chains)| := c[..k] + c[k + 1..]]
    {
      hide *;
      ValidMeans();
      TableMeans(table, chains, members);
      BucketRange(o.hash, table.Length);
      ghost var b := o.hash % table.Length;
      k := IndexOf(chains[b], o);
      Unlink(table, o, chains, members, k);
      chains := chains[b := chains[b][..k] + chains[b][k + 1..]];
      members := members - {o};
      count := count - 1;
      IsValid();
    }
  }

  lemma IndexOf(s: seq<Object>, o: Object) returns (k: nat)
    requires o in s
    ensures k < |s| && s[k] == o
  {
    k :| k < |s| && s[k] == o;
  }

  /** Taking an object out of its chain (lines 159-162). */
  method Unlink(table: array<Object?>, o: Object, ghost chains: seq<seq<Object>>, ghost members: set<Object>,
                ghost k: nat)
    requires Table(table, chains, members) && o in members
    requires var c := chains[o.hash % |chains|]; k < |c| && c[k] == o
    modifies table, members
    ensures var b := o.hash % |chains|;
      Table(table, chains[b := chains[b][..k] + chains[b][k + 1..]], members - {o})
  {
    hide *;
    TableMeans(table, chains, members);
    BucketRange(o.hash, table.Length);
    ghost var b := o.hash % |chains|;
    ghost var c := chains[b];
    ghost var c' := c[..k] + c[k + 1..];
    ChainMeans(table[b], c);
    BucketDistinct(chains, members, b);
    Shorter(chains, members, b, k, o);
    if o.objectsPrev != null {
      o.objectsPrev.objectsNext := o.objectsNext;
    } else {
      table[o.hash % table.Length] := o.objectsNext;
    }
    if o.objectsNext != null { o.objectsNext.objectsPrev := o.objectsPrev; }
    ShorterChain(table[b], c, k);
    forall d | 0 <= d < |chains| && d != b
      ensures Chain(table[d], chains[d])
    {
      assert old(Chain(table[d], chains[d]));
    }
    IsTable(table, chains[b := c'], members - {o});
  }

  /** The chain once its k-th object is left out. */
  lemma ShorterChain(head: Object?, c: seq<Object>, k: nat)
    requires k < |c|
    requires head == if k > 0 then c[0] else if |c| > 1 then c[1] else null
    requires forall i {:trigger c[i].objectsNext} :: 0 <= i < |c| && i != k ==>
               c[i].objectsNext == if i + 1 == k then (if k + 1 < |c| then c[k + 1] else null)
                                   else if i + 1 < |c| then c[i + 1] else null
    requires forall i {:trigger c[i].objectsPrev} :: 0 <= i < |c| && i != k ==>
               c[i].objectsPrev == if i == k + 1 then (if k > 0 then c[k - 1] else null)
                                   else if i > 0 then c[i - 1] else null
    ensures Chain(head, c[..k] + c[k + 1..])
  {
    var c' := c[..k] + c[k + 1..];
    forall i | 0 <= i < |c'|
      ensures c'[i].objectsNext == (if i + 1 < |c'| then c'[i + 1] else null)
      ensures c'[i].objectsPrev == (if i > 0 then c'[i - 1] else null)
    {
      var j := if i < k then i else i + 1;
      assert c'[i] == c[j];
    }
  }

  lemma BucketDistinct(chains: seq<seq<Object>>, members: set<Object>, b: nat)
    requires Holds(chains, members) && b < |chains|
    ensures forall i, j :: 0 <= i < |chains[b]| && 0 <= j < |chains[b]| && i != j ==> chains[b][i] != chains[b][j]
    ensures forall i :: 0 <= i < |chains[b]| ==> chains[b][i] in members && chains[b][i] in chains[b]
  {
    Apart(chains[b]);
  }

  lemma Shorter(chains: seq<seq<Object>>, members: set<Object>, b: nat, k: nat, o: Object)
    requires InBuckets(chains) && Holds(chains, members) && b < |chains| && k < |chains[b]| && chains[b][k] == o
    ensures var chains' := chains[b := chains[b][..k] + chains[b][k + 1..]];
      InBuckets(chains') && Holds(chains', members - {o})
  {
    var c := chains[b];
    var c' := c[..k] + c[k + 1..];
    assert forall m :: m in c' ==> m in c && m != o;
    forall m | m in c && m != o
      ensures m in c'
    {
      var j := IndexOf(c, m);
      assert if j < k then c'[j] == m else c'[j - 1] == m;
    }
  }
}
