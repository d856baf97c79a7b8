/** Symbol lookup: the ELF hash section of one object, and resolution over a scope of objects. */
module Symbols {
  import opened Words

  // ----- elf_hash

  const TOP: u32 := 0xf000_0000

  function Not32(x: u32): u32 { W32 - 1 - x }

  /** One round of the hash of the System V gABI: the four bits that leave at the top come back in at bit 4. */
  function Round(h: nat, c: byte): nat
  {
    var s := (16 * h + c) % W32;
    Xor(s % 0x1000_0000, s / 0x1000_0000 * 16)
  }

  function ElfHash(name: seq<byte>): nat
  {
    if name == [] then 0 else Round(ElfHash(name[..|name| - 1]), name[|name| - 1])
  }

  lemma {:induction false} XorLow(a: nat, b: nat, k: nat)
    requires b < Pow2(k)
    ensures Xor(a, b) == a - a % Pow2(k) + Xor(a % Pow2(k), b)
    decreases k
  {
    if k > 0 {
      var p := Pow2(k - 1);
      LowStep(a, k);
      DivModSpec(a, Pow2(k));
      XorLow(a / 2, b / 2, k - 1);
      XorStep(a, b);
      XorStep(a % Pow2(k), b);
      LowHalf(a, k);
    }
  }

  lemma LowHalf(a: nat, k: nat)
    requires k > 0
    ensures a % Pow2(k) / 2 == a / 2 % Pow2(k - 1) && a % Pow2(k) % 2 == a % 2
  {
    LowStep(a, k);
  }

  /** A number and its complement share no bit. */
  lemma {:induction false} AndComplement(n: nat, k: nat)
    requires n < Pow2(k)
    ensures And(n, Pow2(k) - 1 - n) == 0
    decreases k
  {
    if k > 0 {
      var p := Pow2(k - 1);
      AndComplement(n / 2, k - 1);
      var m := 2 * p - 1 - n;
      assert m / 2 == p - 1 - n / 2 && (m % 2 == 1 <==> n % 2 == 0);
      AndStep(n, m);
    }
  }

  /** Clearing the bits that are set above bit k. */
  lemma {:induction false} ClearHigh(n: nat, l: nat, k: nat, p: nat, np: nat)
    requires n < 16 && p == Pow2(k) && l < p && np == n * p
    ensures np <= 15 * p && And(np + l, 16 * p - 1 - np) == l
    decreases k
  {
    hide *;
    MulMono(n, 15, p);
    if k == 0 {
      ClearLowest(n, l, p, np);
    } else {
      PowDoubles(k - 1);
      var q := Pow2(k - 1);
      var nq := n * q;
      TwiceProduct(n, q);
      ClearHigh(n, l / 2, k - 1, q, nq);
      ClearStep(l, q, nq);
    }
  }

  lemma ClearLowest(n: nat, l: nat, p: nat, np: nat)
    requires n < 16 && p == Pow2(0) && l < p && np == n * p
    ensures np == n && l == 0 && p == 1 && And(n, 15 - n) == 0
  {
    TwoTo12();
    assert Pow2(4) == 16;
    AndComplement(n, 4);
  }

  lemma ClearStep(l: nat, p: nat, np: nat)
    requires l < 2 * p && np <= 15 * p && And(np + l / 2, 16 * p - 1 - np) == l / 2
    ensures And(2 * np + l, 32 * p - 1 - 2 * np) == l
  {
    hide *;
    AndHalves(np, l, 16 * p - 1 - np);
    SplitParity(l);
  }

  lemma AndHalves(m: nat, l: nat, z: nat)
    ensures And(2 * m + l, 2 * z + 1) == 2 * And(m + l / 2, z) + l % 2
  {
    hide *;
    HalfOf(2 * m + l, m, l);
    AndOdd(2 * m + l, z);
  }

  lemma SplitParity(l: nat)
    ensures 2 * (l / 2) + l % 2 == l
  {
  }

  lemma HalfOf(x: nat, m: nat, l: nat)
    requires x == 2 * m + l
    ensures x / 2 == m + l / 2 && x % 2 == l % 2
  {
    DivModUnique(x, 2, m + l / 2, l % 2);
  }

  /** The bit operations of lines 719-723 are one round. */
  lemma RoundIs(h: u32, c: byte)
    ensures var s := Add32(Shl32(h, 4), c); var top := And(s, TOP);
      top < W32 && And(if top != 0 then Xor(s, Shr(top, 24)) else s, Not32(top)) == Round(h, c) < 0x1000_0000
  {
    ShiftAdd(h, c);
    Rotated(Add32(Shl32(h, 4), c));
  }

  /** Moving the top four bits of a word down to bit 4. */
  lemma Rotated(s: u32)
    ensures var top := And(s, TOP);
      top < W32
      && And(if top != 0 then Xor(s, Shr(top, 24)) else s, Not32(top))
         == Xor(s % 0x1000_0000, s / 0x1000_0000 * 16) < 0x1000_0000
  {
    var low, n := s % 0x1000_0000, s / 0x1000_0000;
    Powers();
    AndField(s, 28, 32);
    LowSmall(s, 32);
    XorLow(s, n * 16, 28);
    XorBound(low, n * 16, 28);
    ClearHigh(n, Xor(low, n * 16), 28, 0x1000_0000, n * 0x1000_0000);
    XorStep(s, 0);
    var top := And(s, TOP);
    assert top == n * 0x1000_0000 && n < 16;
    assert Shr(top, 24) == n * 16;
    assert Xor(s, 0) == s;
    hide *;
  }

  lemma Powers()
    ensures Pow2(4) == 16 && Pow2(8) == 256 && Pow2(24) == 0x100_0000
    ensures Pow2(28) == 0x1000_0000 && Pow2(32) == 0x1_0000_0000
  {
    TwoTo12();
    TwoTo21();
    TwoTo32();
    Pow2Add(12, 12);
    Pow2Add(20, 8);
  }

  lemma ShiftAdd(h: u32, c: byte)
    ensures Add32(Shl32(h, 4), c) == (16 * h + c) % W32
  {
    assert Pow2(4) == 16;
    ModAddMultiple(h * 16 % W32 + c, h * 16 / W32, W32);
    DivModSpec(h * 16, W32);
  }

  /** `elf_hash` (object.c:713-727) */
  method ComputeElfHash(name: seq<byte>) returns (hash: u32)
    ensures hash == ElfHash(name) < 0x1000_0000
  {
    hash := 0;
    var i := 0;
    while i < |name|
      invariant i <= |name| && hash == ElfHash(name[..i]) < 0x1000_0000
    {
      assert name[..i + 1][..i] == name[..i];
      RoundIs(hash, name[i]);
      hash := Add32(Shl32(hash, 4), name[i]);
      var top := And(hash, TOP);
      var mixed := if top != 0 then Xor(hash, Shr(top, 24)) else hash;
      hash := And(mixed, Not32(top));
      i := i + 1;
    }
    assert name[..|name|] == name;
  }

  /** A short name is a number in base 16 whose digits are its bytes, the first one the most significant. */
  function InBase16(name: seq<byte>): nat
  {
    if name == [] then 0 else
      ProductNat(name[0], Pow2(4 * (|name| - 1)));
      name[0] * Pow2(4 * (|name| - 1)) + InBase16(name[1..])
  }

  lemma InBase16Is(name: seq<byte>)
    ensures InBase16([]) == 0
    ensures name != [] ==> InBase16(name) == name[0] * Pow2(4 * (|name| - 1)) + InBase16(name[1..])
  {
  }

  lemma {:induction false} InBase16Step(name: seq<byte>, c: byte)
    ensures InBase16(name + [c]) == 16 * InBase16(name) + c
  {
    hide *;
    InBase16Is(name);
    InBase16Is(name + [c]);
    if name == [] {
      assert ([] + [c])[1..] == [];
      TwoTo12();
    } else {
      assert (name + [c])[1..] == name[1..] + [c];
      InBase16Step(name[1..], c);
      SixteenTimes(name[0], |name| - 1);
    }
  }

  lemma SixteenTimes(d: nat, n: nat)
    ensures d * Pow2(4 * (n + 1)) == 16 * (d * Pow2(4 * n))
  {
    Powers();
    Pow2Add(4, 4 * n);
    MulAssociates(d, 16, Pow2(4 * n));
    MulAssociates(16, d, Pow2(4 * n));
    hide *;
  }

  /** Up to five bytes nothing leaves at the top. */
  lemma {:induction false} ShortHash(name: seq<byte>)
    requires |name| <= 5
    ensures ElfHash(name) == InBase16(name) <= 17 * Pow2(4 * |name|) - 17
  {
    Powers();
    if name != [] {
      var rest, c := name[..|name| - 1], name[|name| - 1];
      assert name == rest + [c];
      ShortHash(rest);
      InBase16Step(rest, c);
      Pow2Add(4, 4 * |rest|);
      SmallHash(|rest|);
      NoFold(ElfHash(rest), c);
    }
  }

  lemma SmallHash(n: nat)
    requires n <= 4
    ensures 17 * Pow2(4 * n) - 17 <= 0x11_0000
  {
    Powers();
    Pow2Order(4 * n, 16);
    Pow2Add(8, 8);
  }

  lemma NoFold(h: nat, c: byte)
    requires 16 * h + c < 0x1000_0000
    ensures Round(h, c) == 16 * h + c
  {
    var s := 16 * h + c;
    assert s % W32 == s && s / 0x1000_0000 == 0 && s % 0x1000_0000 == s;
    XorStep(s, 0);
  }

  /** A name of seven letters, whose four top bits come back in: the hash of syscall is 0xb09985c. */
  lemma FoldedHash()
    ensures ElfHash([115, 121, 115, 99, 97, 108, 108]) == 0xb09985c
  {
    FiveLetters();
    OneMore([115, 121, 115, 99, 97], 108);
    OneMore([115, 121, 115, 99, 97] + [108], 108);
    assert [115, 121, 115, 99, 97] + [108] + [108] == [115, 121, 115, 99, 97, 108, 108];
    hide *;
    NoFold(0x7b0991, 108);
    Folds();
  }

  lemma FiveLetters()
    ensures ElfHash([115, 121, 115, 99, 97]) == 0x7b0991
  {
    hide *;
    var two, four := [115, 121], [115, 121, 115, 99];
    assert [] + [115] == [115] && [115] + [121] == two;
    InBase16Is([]);
    InBase16Step([], 115);
    InBase16Step([115], 121);
    assert two + [115] + [99] == four && four + [97] == [115, 121, 115, 99, 97];
    InBase16Step(two, 115);
    InBase16Step(two + [115], 99);
    InBase16Step(four, 97);
    ShortHash([115, 121, 115, 99, 97]);
  }

  lemma OneMore(name: seq<byte>, c: byte)
    ensures ElfHash(name + [c]) == Round(ElfHash(name), c)
  {
    assert (name + [c])[..|name|] == name;
  }

  lemma Folds()
    ensures Round(0x7b0997c, 108) == 0xb09985c
  {
    assert (16 * 0x7b0997c + 108) % W32 == 0x7b09982c;
    assert Pow2(7) == 128;
    XorLow(0xb09982c, 0x70, 7);
    assert Xor(0x2c, 0x70) == 0x5c;
  }

  // ----- lookup in one object

  const SHN_UNDEF: nat := 0
  const STN_UNDEF: nat := 0
  const STB_WEAK: nat := 2

  datatype Symbol = Symbol(name: seq<byte>, sectionIndex: nat, value: nat, bind: nat)

  /** An object's symbol table with its hash section. */
  datatype SymbolTable = SymbolTable(symbols: seq<Symbol>, buckets: seq<nat>, chain: seq<nat>)

  /** Following the chain from index visits exactly the symbols of list, and ends. */
  predicate Walks(t: SymbolTable, index: nat, list: seq<nat>)
    decreases |list|
  {
    if list == [] then index == STN_UNDEF
    else
      && index == list[0] && index != STN_UNDEF && index < |t.symbols| && index < |t.chain|
      && Walks(t, t.chain[index], list[1..])
  }

  /** The chains of the hash section are lists, and every symbol is on the chain of its hash. */
  ghost predicate Hashed(t: SymbolTable, lists: seq<seq<nat>>)
  {
    && |lists| == |t.buckets|
    && (forall b :: 0 <= b < |lists| ==> Walks(t, t.buckets[b], lists[b]))
    && (|t.buckets| > 0 ==>
          forall i :: 1 <= i < |t.symbols| ==> i in lists[ElfHash(t.symbols[i].name) % |t.buckets|])
  }

  /** The hash section covers the symbol table, whose names are unique. */
  ghost predicate WellFormed(t: SymbolTable)
  {
    && (exists lists :: Hashed(t, lists))
    && (forall i, j :: 1 <= i < j < |t.symbols| ==> t.symbols[i].name != t.symbols[j].name)
  }

  /** The first symbol of that name from index i on, or STN_UNDEF. */
  function Scan(symbols: seq<Symbol>, name: seq<byte>, i: nat): nat
    decreases |symbols| - i
  {
    if i >= |symbols| then STN_UNDEF else if symbols[i].name == name then i else Scan(symbols, name, i + 1)
  }

  /** Linear lookup; an object without a hash section defines nothing. */
  function Lookup(t: SymbolTable, name: seq<byte>): nat
  {
    if t.buckets == [] then STN_UNDEF else Scan(t.symbols, name, 1)
  }

  lemma {:induction false} ScanFinds(symbols: seq<Symbol>, name: seq<byte>, i: nat)
    requires i > 0
    ensures var r := Scan(symbols, name, i);
      if r == STN_UNDEF then forall k :: i <= k < |symbols| ==> symbols[k].name != name
      else i <= r < |symbols| && symbols[r].name == name && forall k :: i <= k < r ==> symbols[k].name != name
    decreases |symbols| - i
  {
    if i < |symbols| && symbols[i].name != name { ScanFinds(symbols, name, i + 1); }
  }

  /** `get_symbol_in_object` (object.c:729-746) */
  method GetSymbolInObject(t: SymbolTable, name: seq<byte>) returns (index: nat)
    requires WellFormed(t)
    ensures index == Lookup(t, name)
  {
    ScanFinds(t.symbols, name, 1);
    if t.buckets == [] { return STN_UNDEF; }
    var hash := ComputeElfHash(name);
    var b := hash % |t.buckets|;
    ghost var lists :| Hashed(t, lists);
    ghost var list := lists[b];
    index := t.buckets[b];
    ghost var rest := list;
    while index != STN_UNDEF
      invariant Walks(t, index, rest)
      invariant forall i :: i in list ==> i in rest || i >= |t.symbols| || t.symbols[i].name != name
      decreases |rest|
    {
      if t.symbols[index].name == name { return; }
      assert rest == [index] + rest[1..];
      rest := rest[1..];
      index := t.chain[index];
    }
    assert rest == [];
    assert forall i :: 1 <= i < |t.symbols| && t.symbols[i].name == name ==> i in list;
  }

  // ----- resolution

  /** `is_real_symbol` (object.c:748-750) */
  predicate IsReal(s: Symbol) { s.sectionIndex != SHN_UNDEF || s.value != 0 }

  predicate IsWeak(s: Symbol) { s.bind == STB_WEAK }

  datatype Module = Module(table: SymbolTable, symbolic: bool)

  /** A symbol of an object, or nothing. */
  datatype Resolution = Unresolved | Resolved(owner: nat, symbol: nat)

  ghost predicate Sound(objects: seq<Module>, scope: seq<nat>)
  {
    forall i :: 0 <= i < |scope| ==> scope[i] < |objects| && WellFormed(objects[scope[i]].table)
  }

  /** The object defines the name with a real symbol of this strength. */
  predicate Defines(o: Module, name: seq<byte>, weak: bool)
  {
    var index := Lookup(o.table, name);
    && index != STN_UNDEF && index < |o.table.symbols|
    && IsReal(o.table.symbols[index]) && IsWeak(o.table.symbols[index]) == weak
  }

  /** The first definition of this strength in scope order. */
  function First(objects: seq<Module>, scope: seq<nat>, name: seq<byte>, weak: bool): Resolution
    requires forall i :: 0 <= i < |scope| ==> scope[i] < |objects|
  {
    if scope == [] then Unresolved
    else if Defines(objects[scope[0]], name, weak) then Resolved(scope[0], Lookup(objects[scope[0]].table, name))
    else First(objects, scope[1..], name, weak)
  }

  /** First is the definition with the least place in the scope, and fails only when there is none. */
  lemma {:induction false} FirstFinds(objects: seq<Module>, scope: seq<nat>, name: seq<byte>, weak: bool)
    requires forall i :: 0 <= i < |scope| ==> scope[i] < |objects|
    ensures First(objects, scope, name, weak) == Unresolved <==>
              forall i :: 0 <= i < |scope| ==> !Defines(objects[scope[i]], name, weak)
    ensures First(objects, scope, name, weak) != Unresolved ==>
              exists i :: 0 <= i < |scope| && Defines(objects[scope[i]], name, weak)
                && First(objects, scope, name, weak) == Resolved(scope[i], Lookup(objects[scope[i]].table, name))
                && forall k :: 0 <= k < i ==> !Defines(objects[scope[k]], name, weak)
  {
    if scope != [] && !Defines(objects[scope[0]], name, weak) {
      var rest := scope[1..];
      FirstFinds(objects, rest, name, weak);
      assert forall k :: 1 <= k < |scope| ==> scope[k] == rest[k - 1];
      if First(objects, rest, name, weak) != Unresolved {
        var i :| 0 <= i < |rest| && Defines(objects[rest[i]], name, weak)
          && First(objects, rest, name, weak) == Resolved(rest[i], Lookup(objects[rest[i]].table, name))
          && forall k :: 0 <= k < i ==> !Defines(objects[rest[k]], name, weak);
        assert scope[i + 1] == rest[i];
      }
    }
  }

  /** A definition in terms of the symbol table: the first symbol of that name, if there is a hash section. */
  lemma DefinesMeans(o: Module, name: seq<byte>, weak: bool, index: nat)
    requires 0 < index < |o.table.symbols| && o.table.symbols[index].name == name
    requires forall k :: 1 <= k < index ==> o.table.symbols[k].name != name
    ensures var s := o.table.symbols[index];
      && (Defines(o, name, weak)
          <==> o.table.buckets != [] && (s.sectionIndex != 0 || s.value != 0) && (s.bind == 2 <==> weak))
      && (Defines(o, name, weak) ==> Lookup(o.table, name) == index)
  {
    ScanFinds(o.table.symbols, name, 1);
  }

  lemma NamelessDefines(o: Module, name: seq<byte>, weak: bool)
    requires forall k :: 1 <= k < |o.table.symbols| ==> o.table.symbols[k].name != name
    ensures !Defines(o, name, weak)
  {
    ScanFinds(o.table.symbols, name, 1);
  }

  /** The reference that is being resolved: the object and symbol it comes from, if any. */
  datatype Source = NoSource | Source(owner: nat, symbol: nat)

  predicate SourceOk(objects: seq<Module>, src: Source)
  {
    src.Source? ==> src.owner < |objects| && src.symbol < |objects[src.owner].table.symbols|
  }

  function SourceSymbol(objects: seq<Module>, src: Source): Symbol
    requires src.Source? && SourceOk(objects, src)
  {
    objects[src.owner].table.symbols[src.symbol]
  }

  predicate RealSource(objects: seq<Module>, src: Source)
    requires SourceOk(objects, src)
  {
    src.Source? && IsReal(SourceSymbol(objects, src))
  }

  /**
    The order of preference: the object's own strong symbol if it is bound symbolically, else the first strong
    definition in scope, else its own weak symbol if bound symbolically, else the first weak definition, else
    its own symbol.
   */
  function Resolve(objects: seq<Module>, scope: seq<nat>, name: seq<byte>, src: Source): Resolution
    requires SourceOk(objects, src) && forall i :: 0 <= i < |scope| ==> scope[i] < |objects|
  {
    var isReal := RealSource(objects, src);
    var own := if isReal then Resolved(src.owner, src.symbol) else Unresolved;
    var symbolic := isReal && objects[src.owner].symbolic;
    if symbolic && !IsWeak(SourceSymbol(objects, src)) then own
    else if First(objects, scope, name, false) != Unresolved then First(objects, scope, name, false)
    else if symbolic then own
    else if First(objects, scope, name, true) != Unresolved then First(objects, scope, name, true)
    else own
  }

  /** Object i of the scope defines the name, and none before it does, with this strength. */
  ghost predicate FirstDefines(objects: seq<Module>, scope: seq<nat>, name: seq<byte>, weak: bool, i: nat)
    requires forall i :: 0 <= i < |scope| ==> scope[i] < |objects|
  {
    && i < |scope| && Defines(objects[scope[i]], name, weak)
    && forall k :: 0 <= k < i ==> !Defines(objects[scope[k]], name, weak)
  }

  ghost predicate NoneDefines(objects: seq<Module>, scope: seq<nat>, name: seq<byte>, weak: bool)
    requires forall i :: 0 <= i < |scope| ==> scope[i] < |objects|
  {
    forall i :: 0 <= i < |scope| ==> !Defines(objects[scope[i]], name, weak)
  }

  lemma FirstIs(objects: seq<Module>, scope: seq<nat>, name: seq<byte>, weak: bool)
    requires forall i :: 0 <= i < |scope| ==> scope[i] < |objects|
    ensures First(objects, scope, name, weak) == Unresolved <==> NoneDefines(objects, scope, name, weak)
    ensures forall i: nat :: FirstDefines(objects, scope, name, weak, i) ==>
              First(objects, scope, name, weak) == Resolved(scope[i], Lookup(objects[scope[i]].table, name))
  {
    FirstFinds(objects, scope, name, weak);
    hide First, Defines, Lookup;
  }

  /**
    Which symbol is the answer.  A strong symbol of a symbolic object is its own answer.  Otherwise the first strong
    definition in scope is; without one, a weak symbol of a symbolic object is its own answer; without that, the
    first weak definition; and without any definition the symbol itself, if it is real.
   */
  lemma Preference(objects: seq<Module>, scope: seq<nat>, name: seq<byte>, src: Source, i: nat)
    requires SourceOk(objects, src) && forall i :: 0 <= i < |scope| ==> scope[i] < |objects|
    ensures var r, isReal := Resolve(objects, scope, name, src), RealSource(objects, src);
      && (isReal && objects[src.owner].symbolic && SourceSymbol(objects, src).bind != STB_WEAK ==>
            r == Resolved(src.owner, src.symbol))
      && (!(isReal && objects[src.owner].symbolic && SourceSymbol(objects, src).bind != STB_WEAK) ==>
            && (FirstDefines(objects, scope, name, false, i) ==>
                  r == Resolved(scope[i], Lookup(objects[scope[i]].table, name)))
            && (NoneDefines(objects, scope, name, false) ==>
                  && (isReal && objects[src.owner].symbolic ==> r == Resolved(src.owner, src.symbol))
                  && (!(isReal && objects[src.owner].symbolic) ==>
                        && (FirstDefines(objects, scope, name, true, i) ==>
                              r == Resolved(scope[i], Lookup(objects[scope[i]].table, name)))
                        && (NoneDefines(objects, scope, name, true) ==>
                              r == if isReal then Resolved(src.owner, src.symbol) else Unresolved))))
      && (r == Unresolved
          <==> !isReal && NoneDefines(objects, scope, name, false) && NoneDefines(objects, scope, name, true))
  {
    FirstIs(objects, scope, name, false);
    FirstIs(objects, scope, name, true);
    SomeDefines(objects, scope, name, false, i);
    SomeDefines(objects, scope, name, true, i);
    hide First, FirstDefines, NoneDefines, Lookup, Defines;
  }

  lemma SomeDefines(objects: seq<Module>, scope: seq<nat>, name: seq<byte>, weak: bool, i: nat)
    requires forall i :: 0 <= i < |scope| ==> scope[i] < |objects|
    ensures FirstDefines(objects, scope, name, weak, i) ==> !NoneDefines(objects, scope, name, weak) && i < |scope|
  {
    hide Defines;
  }

  /** What a real source symbol is. */
  lemma RealSourceMeans(objects: seq<Module>, src: Source)
    requires SourceOk(objects, src)
    ensures RealSource(objects, src) <==>
              && src.Source?
              && var s := objects[src.owner].table.symbols[src.symbol]; s.sectionIndex != 0 || s.value != 0
  {
  }

  /** What the loop over one list does with a candidate found so far. */
  function Better(objects: seq<Module>, scope: seq<nat>, name: seq<byte>, current: Resolution,
                  haveWeak: bool): Resolution
    requires forall i :: 0 <= i < |scope| ==> scope[i] < |objects|
  {
    if First(objects, scope, name, false) != Unresolved then First(objects, scope, name, false)
    else if haveWeak || First(objects, scope, name, true) == Unresolved then current
    else First(objects, scope, name, true)
  }

  /** What the loop learns from one object. */
  lemma OneObject(objects: seq<Module>, scope: seq<nat>, name: seq<byte>, i: nat, current: Resolution, haveWeak: bool)
    requires (forall k :: 0 <= k < |scope| ==> scope[k] < |objects|) && i < |scope|
    ensures forall k :: 0 <= k < |scope[i..]| ==> scope[i..][k] < |objects|
    ensures var rest := scope[i + 1..]; forall k :: 0 <= k < |rest| ==> rest[k] < |objects|
    ensures var o, rest := objects[scope[i]], scope[i + 1..];
      var here := Resolved(scope[i], Lookup(o.table, name));
      && First(objects, scope[i..], name, false)
         == (if Defines(o, name, false) then here else First(objects, rest, name, false))
      && First(objects, scope[i..], name, true)
         == (if Defines(o, name, true) then here else First(objects, rest, name, true))
      && Better(objects, scope[i..], name, current, haveWeak)
         == if Defines(o, name, false) then here
            else if Defines(o, name, true) && !haveWeak then Better(objects, rest, name, here, true)
            else Better(objects, rest, name, current, haveWeak)
  {
    assert scope[i..][0] == scope[i] && scope[i..][1..] == scope[i + 1..];
    hide Defines, Lookup;
  }

  lemma NothingLeft(objects: seq<Module>, scope: seq<nat>, name: seq<byte>, i: nat, current: Resolution, haveWeak: bool)
    requires i == |scope|
    ensures forall k :: 0 <= k < |scope[i..]| ==> scope[i..][k] < |objects|
    ensures First(objects, scope[i..], name, false) == First(objects, scope[i..], name, true) == Unresolved
    ensures Better(objects, scope[i..], name, current, haveWeak) == current
  {
  }

  /** What a symbol that was looked up is. */
  lemma DefinesBy(o: Module, name: seq<byte>, index: nat)
    requires index == Lookup(o.table, name)
    ensures index < |o.table.symbols| || index == STN_UNDEF
    ensures index == STN_UNDEF ==> !Defines(o, name, false) && !Defines(o, name, true)
    ensures index != STN_UNDEF ==>
              var s := o.table.symbols[index];
              && (Defines(o, name, false) <==> IsReal(s) && !IsWeak(s))
              && (Defines(o, name, true) <==> IsReal(s) && IsWeak(s))
  {
    ScanFinds(o.table.symbols, name, 1);
  }

  lemma SoundAt(objects: seq<Module>, scope: seq<nat>)
    requires Sound(objects, scope)
    ensures forall i :: 0 <= i < |scope| ==> scope[i] < |objects| && WellFormed(objects[scope[i]].table)
    ensures scope[0..] == scope
  {
  }

  /** One of the two loops (lines 775-784 and 787-796). */
  method SearchList(objects: seq<Module>, scope: seq<nat>, name: seq<byte>, current: Resolution, weakSoFar: bool)
      returns (found: Resolution, done: bool, haveWeak: bool)
    requires Sound(objects, scope)
    ensures found == Better(objects, scope, name, current, weakSoFar)
    ensures done <==> First(objects, scope, name, false) != Unresolved
    ensures !done ==> (haveWeak <==> weakSoFar || First(objects, scope, name, true) != Unresolved)
  {
    SoundAt(objects, scope);
    hide *;
    found, done, haveWeak := current, false, weakSoFar;
    var i := 0;
    while i < |scope|
      invariant i <= |scope| && !done
      invariant First(objects, scope, name, false) == First(objects, scope[i..], name, false)
      invariant Better(objects, scope, name, current, weakSoFar) == Better(objects, scope[i..], name, found, haveWeak)
      invariant (weakSoFar || First(objects, scope, name, true) != Unresolved)
                <==> (haveWeak || First(objects, scope[i..], name, true) != Unresolved)
    {
      var obj := scope[i];
      OneObject(objects, scope, name, i, found, haveWeak);
      var sym := GetSymbolInObject(objects[obj].table, name);
      DefinesBy(objects[obj], name, sym);
      if sym != STN_UNDEF && IsReal(objects[obj].table.symbols[sym]) {
        var weak := IsWeak(objects[obj].table.symbols[sym]);
        if !(weak && haveWeak) {
          found := Resolved(obj, sym);
          if !weak {
            done := true;
            return;
          }
          haveWeak := true;
        }
      }
      i := i + 1;
    }
    NothingLeft(objects, scope, name, i, found, haveWeak);
  }

  lemma {:induction false} FirstAppend(objects: seq<Module>, a: seq<nat>, b: seq<nat>, name: seq<byte>, weak: bool)
    requires forall i :: 0 <= i < |a| ==> a[i] < |objects|
    requires forall i :: 0 <= i < |b| ==> b[i] < |objects|
    ensures forall i :: 0 <= i < |a + b| ==> (a + b)[i] < |objects|
    ensures First(objects, a + b, name, weak)
            == if First(objects, a, name, weak) != Unresolved then First(objects, a, name, weak)
               else First(objects, b, name, weak)
  {
    if a == [] {
      assert a + b == b;
    } else {
      assert (a + b)[1..] == a[1..] + b;
      FirstAppend(objects, a[1..], b, name, weak);
    }
  }

  /** `resolve_symbol` (object.c:752-804) */
  method ResolveSymbol(objects: seq<Module>, globals: seq<nat>, search: seq<nat>, name: seq<byte>, src: Source,
                       includeGlobal: bool)
      returns (r: Resolution)
    requires Sound(objects, globals) && Sound(objects, search) && SourceOk(objects, src)
    ensures forall i :: 0 <= i < |globals + search| ==> (globals + search)[i] < |objects|
    ensures r == Resolve(objects, if includeGlobal then globals + search else search, name, src)
  {
    var current, haveWeak := Unresolved, false;
    FirstAppend(objects, globals, search, name, false);
    FirstAppend(objects, globals, search, name, true);
    if src.Source? && IsReal(SourceSymbol(objects, src)) {
      current := Resolved(src.owner, src.symbol);
      if objects[src.owner].symbolic {
        if !IsWeak(SourceSymbol(objects, src)) { return current; }
        haveWeak := true;
      }
    }
    var done := false;
    if includeGlobal {
      current, done, haveWeak := SearchList(objects, globals, name, current, haveWeak);
      if done { return current; }
    }
    current, done, haveWeak := SearchList(objects, search, name, current, haveWeak);
    return current;
  }
}
