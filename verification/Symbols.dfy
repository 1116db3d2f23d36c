/** Symbol tables with their SysV hash index, and the search over a scope of libraries. */
module Symbols {
  import opened Base
  import opened ElfHash

  const STB_GLOBAL: nat := 1
  const STB_WEAK: nat := 2
  const SHN_UNDEF: nat := 0

  // An Elf32_Sym with st_name already resolved against the string table.
  datatype Sym = Sym(name: Name, value: Word, size: Word, bind: nat, shndx: nat)

  datatype SymTable = SymTable(syms: seq<Sym>, bucket: seq<nat>, chain: seq<nat>)

  // ------------------------------------------------------ one library's index

  /** A global or weak definition of a name: what the chain walk is looking for. */
  predicate Defines(s: Sym, name: Name) {
    s.name == name && (s.bind == STB_GLOBAL || s.bind == STB_WEAK) && s.shndx != SHN_UNDEF
  }

  /** The chain that starts at n stays inside the tables and ends within the fuel. */
  predicate Ends(t: SymTable, n: nat, fuel: nat)
    decreases fuel
  {
    n == 0 || (fuel > 0 && n < |t.syms| && n < |t.chain| && Ends(t, t.chain[n], fuel - 1))
  }

  /** Entry n lies on the chain that starts at m. */
  predicate OnChain(t: SymTable, m: nat, n: nat, fuel: nat)
    decreases fuel
  {
    m != 0 && (m == n || (fuel > 0 && m < |t.chain| && OnChain(t, t.chain[m], n, fuel - 1)))
  }

  /** First entry of the chain from n that defines the name. */
  function Search(t: SymTable, n: nat, fuel: nat, name: Name): Option<nat>
    decreases fuel
  {
    if n == 0 || fuel == 0 || n >= |t.syms| || n >= |t.chain| then None
    else if Defines(t.syms[n], name) then Some(n)
    else Search(t, t.chain[n], fuel - 1, name)
  }

  function Head(t: SymTable, hash: nat): nat
    requires |t.bucket| > 0
  {
    t.bucket[hash % |t.bucket|]
  }

  function Lookup(t: SymTable, name: Name): Option<nat> {
    if |t.bucket| == 0 then None
    else Search(t, Head(t, HashCode(name)), |t.chain|, name)
  }

  /** A DT_HASH of the gABI: every bucket's chain ends, and every definition hangs on the
      chain of its own name's bucket. */
  predicate WellFormed(t: SymTable) {
    && |t.bucket| > 0
    && (forall b :: 0 <= b < |t.bucket| ==> Ends(t, t.bucket[b], |t.chain|))
    && (forall n :: 1 <= n < |t.syms| && Defines(t.syms[n], t.syms[n].name) ==>
          OnChain(t, t.bucket[ReferenceHash(t.syms[n].name) as nat % |t.bucket|], n, |t.chain|))
  }

  lemma BucketEnds(t: SymTable, hash: nat)
    requires WellFormed(t)
    ensures |t.bucket| > 0 && Ends(t, Head(t, hash), |t.chain|)
  {
    hide Ends, OnChain, ReferenceHash;
  }

  method ElfLookup(t: SymTable, hash: nat, name: Name) returns (found: Option<nat>)
    requires |t.bucket| > 0
    requires Ends(t, Head(t, hash), |t.chain|)
    ensures found == Search(t, Head(t, hash), |t.chain|, name)
  {
    var n := t.bucket[hash % |t.bucket|];
    ghost var fuel: nat := |t.chain|;
    while n != 0
      invariant Ends(t, n, fuel)
      invariant Search(t, n, fuel, name) == Search(t, Head(t, hash), |t.chain|, name)
      decreases fuel
    {
      var s := t.syms[n];
      if s.name == name && (s.bind == STB_GLOBAL || s.bind == STB_WEAK) && s.shndx != SHN_UNDEF {
        return Some(n);
      }
      n, fuel := t.chain[n], fuel - 1;
    }
    return None;
  }

  /** dlsym_handle_lookup: hash the name, then walk the chain of its bucket. */
  method HandleLookup(t: SymTable, name: Name) returns (found: Option<nat>)
    requires WellFormed(t)
    ensures found == Lookup(t, name)
    ensures found == None <==> forall n :: 1 <= n < |t.syms| ==> !Defines(t.syms[n], name)
  {
    var h := Compute(name);
    found := ElfLookup(t, h, name);
    LookupRefinesScan(t, name);
  }

  /** Position of the first definition of the name in table order, entry 0 being reserved. */
  function Scan(t: SymTable, name: Name, from: nat): (r: Option<nat>)
    requires from <= |t.syms|
    ensures r.Some? ==> from <= r.value < |t.syms| && Defines(t.syms[r.value], name)
    ensures r.Some? ==> forall n :: from <= n < r.value ==> !Defines(t.syms[n], name)
    ensures r.None? ==> forall n :: from <= n < |t.syms| ==> !Defines(t.syms[n], name)
    decreases |t.syms| - from
  {
    if from == |t.syms| then None
    else if Defines(t.syms[from], name) then Some(from)
    else Scan(t, name, from + 1)
  }

  lemma {:induction false} SearchFindsChain(t: SymTable, m: nat, n: nat, fuel: nat, name: Name)
    requires Ends(t, m, fuel) && OnChain(t, m, n, fuel)
    requires n < |t.syms| && Defines(t.syms[n], name)
    ensures Search(t, m, fuel, name).Some?
    decreases fuel
  {
    if m != n && !Defines(t.syms[m], name) {
      SearchFindsChain(t, t.chain[m], n, fuel - 1, name);
    }
  }

  lemma {:induction false} SearchIsSound(t: SymTable, m: nat, fuel: nat, name: Name)
    ensures var r := Search(t, m, fuel, name);
            r.Some? ==> 1 <= r.value < |t.syms| && Defines(t.syms[r.value], name)
    decreases fuel
  {
    if m != 0 && fuel != 0 && m < |t.syms| && m < |t.chain| && !Defines(t.syms[m], name) {
      SearchIsSound(t, t.chain[m], fuel - 1, name);
    }
  }

  /** The hash index refines the linear scan: it finds a definition iff the table holds one,
      and finds the scan's own answer when no other entry defines the same name. */
  lemma LookupRefinesScan(t: SymTable, name: Name)
    requires WellFormed(t)
    ensures var r := Lookup(t, name);
            && (r.Some? <==> exists n :: 1 <= n < |t.syms| && Defines(t.syms[n], name))
            && (r.Some? ==> 1 <= r.value < |t.syms| && Defines(t.syms[r.value], name))
            && ((forall i, j :: 1 <= i < j < |t.syms| ==>
                   !(Defines(t.syms[i], name) && Defines(t.syms[j], name))) && |t.syms| > 0 ==>
                  r == Scan(t, name, 1))
  {
    var head := Head(t, HashCode(name));
    SearchIsSound(t, head, |t.chain|, name);
    if exists n :: 1 <= n < |t.syms| && Defines(t.syms[n], name) {
      var n :| 1 <= n < |t.syms| && Defines(t.syms[n], name);
      assert Defines(t.syms[n], t.syms[n].name);
      SearchFindsChain(t, head, n, |t.chain|, name);
    }
  }

  // ------------------------------------------------------------ search scopes

  /** The first table of a scope with a definition, and the entry its own index finds. */
  function FindInScope(scope: seq<SymTable>, name: Name): (r: Option<(nat, nat)>)
    ensures r.Some? ==> r.value.0 < |scope| && Lookup(scope[r.value.0], name) == Some(r.value.1)
    ensures r.Some? ==> forall i :: 0 <= i < r.value.0 ==> Lookup(scope[i], name) == None
    ensures r.None? ==> forall i :: 0 <= i < |scope| ==> Lookup(scope[i], name) == None
  {
    if scope == [] then None
    else match Lookup(scope[0], name)
      case Some(n) => Some((0, n))
      case None =>
        match FindInScope(scope[1..], name)
        case None => None
        case Some(p) => Some((p.0 + 1, p.1))
  }

  /** The local part of the scope: the searching library and the main executable, ordered by
      DT_SYMBOLIC, and nothing when either is null. */
  function LocalScope(self: Option<SymTable>, main: Option<SymTable>, symbolic: bool): seq<SymTable> {
    if self.None? || main.None? then []
    else if self == main then [self.value]
    else if symbolic then [self.value, main.value]
    else [main.value, self.value]
  }

  /** The flattened scope of soinfo_do_lookup: local scope, preloads, direct dependencies. */
  function FlatScope(self: Option<SymTable>, main: Option<SymTable>, symbolic: bool,
                     preloads: seq<SymTable>, needed: seq<SymTable>): seq<SymTable> {
    LocalScope(self, main, symbolic) + (preloads + needed)
  }

  method SearchList(list: seq<SymTable>, h: nat, name: Name) returns (found: Option<(nat, nat)>)
    requires forall i :: 0 <= i < |list| ==> WellFormed(list[i])
    requires h == HashCode(name)
    ensures found == FindInScope(list, name)
  {
    for i := 0 to |list|
      invariant forall k :: 0 <= k < i ==> Lookup(list[k], name) == None
    {
      BucketEnds(list[i], h);
      var n := ElfLookup(list[i], h, name);
      if n.Some? {
        return Some((i, n.value));
      }
    }
    return None;
  }

  method SearchLocal(self: Option<SymTable>, main: Option<SymTable>, symbolic: bool, h: nat, name: Name)
    returns (found: Option<(nat, nat)>)
    requires self.Some? ==> WellFormed(self.value)
    requires main.Some? ==> WellFormed(main.value)
    requires h == HashCode(name)
    ensures found == FindInScope(LocalScope(self, main, symbolic), name)
  {
    if self.Some? && main.Some? {
      if self == main {
        found := SearchList([self.value], h, name);
      } else if !symbolic {
        found := SearchList([main.value, self.value], h, name);
      } else {
        found := SearchList([self.value, main.value], h, name);
      }
    } else {
      found := None;
    }
  }

  lemma FirstHit(scope: seq<SymTable>, name: Name, i: nat, n: nat)
    requires i < |scope| && Lookup(scope[i], name) == Some(n)
    requires forall k :: 0 <= k < i ==> Lookup(scope[k], name) == None
    ensures FindInScope(scope, name) == Some((i, n))
  {
    var r := FindInScope(scope, name);
    assert r.Some? && r.value.0 == i;
  }

  lemma FoundOnTheLeft(a: seq<SymTable>, b: seq<SymTable>, name: Name)
    requires FindInScope(a, name).Some?
    ensures FindInScope(a + b, name) == FindInScope(a, name)
  {
    var (i, n) := FindInScope(a, name).value;
    forall k | 0 <= k <= i
      ensures (a + b)[k] == a[k]
    {
    }
    FirstHit(a + b, name, i, n);
  }

  lemma FoundOnTheRight(a: seq<SymTable>, b: seq<SymTable>, name: Name)
    requires FindInScope(a, name).None? && FindInScope(b, name).Some?
    ensures FindInScope(a + b, name) ==
            Some((|a| + FindInScope(b, name).value.0, FindInScope(b, name).value.1))
  {
    var (i, n) := FindInScope(b, name).value;
    forall k | 0 <= k < |a| + i
      ensures Lookup((a + b)[k], name) == None
    {
      if k < |a| {
        assert (a + b)[k] == a[k];
      } else {
        assert (a + b)[k] == b[k - |a|];
      }
    }
    assert (a + b)[|a| + i] == b[i];
    FirstHit(a + b, name, |a| + i, n);
  }

  lemma NotFound(a: seq<SymTable>, b: seq<SymTable>, name: Name)
    requires FindInScope(a, name).None? && FindInScope(b, name).None?
    ensures FindInScope(a + b, name).None?
  {
    forall k | 0 <= k < |a + b|
      ensures Lookup((a + b)[k], name) == None
    {
      assert (a + b)[k] == if k < |a| then a[k] else b[k - |a|];
    }
  }

  method SearchGlobal(preloads: seq<SymTable>, needed: seq<SymTable>, h: nat, name: Name)
    returns (found: Option<(nat, nat)>)
    requires forall i :: 0 <= i < |preloads| ==> WellFormed(preloads[i])
    requires forall i :: 0 <= i < |needed| ==> WellFormed(needed[i])
    requires h == HashCode(name)
    ensures found == FindInScope(preloads + needed, name)
  {
    found := SearchList(preloads, h, name);
    if found.Some? {
      FoundOnTheLeft(preloads, needed, name);
      return;
    }
    found := SearchList(needed, h, name);
    if found.Some? {
      FoundOnTheRight(preloads, needed, name);
      found := Some((|preloads| + found.value.0, found.value.1));
    } else {
      NotFound(preloads, needed, name);
    }
  }

  /** The main executable comes first, unless the library was linked with -Bsymbolic. */
  lemma LocalOrder(self: Option<SymTable>, main: Option<SymTable>, symbolic: bool, rest: seq<SymTable>)
    ensures var scope := LocalScope(self, main, symbolic) + rest;
            match (self, main)
            case (Some(s), Some(e)) =>
              |LocalScope(self, main, symbolic)| == (if s == e then 1 else 2) &&
              scope == (if s == e then [s] else if symbolic then [s, e] else [e, s]) + rest
            case _ => LocalScope(self, main, symbolic) == [] && scope == rest
  {
    assert [] + rest == rest;
  }

  /** soinfo_do_lookup. The pair is the position in the flattened scope and the entry there. */
  method DoLookup(self: Option<SymTable>, main: Option<SymTable>, symbolic: bool,
                  preloads: seq<SymTable>, needed: seq<SymTable>, name: Name)
    returns (found: Option<(nat, nat)>)
    requires self.Some? ==> WellFormed(self.value)
    requires main.Some? ==> WellFormed(main.value)
    requires forall i :: 0 <= i < |preloads| ==> WellFormed(preloads[i])
    requires forall i :: 0 <= i < |needed| ==> WellFormed(needed[i])
    ensures found == FindInScope(FlatScope(self, main, symbolic, preloads, needed), name)
    ensures self.None? || main.None? ==> found == FindInScope(preloads + needed, name)
    ensures self.Some? && self == main ==> found == FindInScope([self.value] + (preloads + needed), name)
    ensures self.Some? && main.Some? && self != main && symbolic ==>
              found == FindInScope([self.value, main.value] + (preloads + needed), name)
    ensures self.Some? && main.Some? && self != main && !symbolic ==>
              found == FindInScope([main.value, self.value] + (preloads + needed), name)
  {
    hide WellFormed, Lookup, LocalScope, FindInScope;
    var h := Compute(name);
    ghost var local, global := LocalScope(self, main, symbolic), preloads + needed;
    LocalOrder(self, main, symbolic, global);
    found := SearchLocal(self, main, symbolic, h, name);
    if found.Some? {
      FoundOnTheLeft(local, global, name);
      return;
    }
    found := SearchGlobal(preloads, needed, h, name);
    if found.Some? {
      var skipped := if self.None? || main.None? then 0 else if self == main then 1 else 2;
      FoundOnTheRight(local, global, name);
      found := Some((skipped + found.value.0, found.value.1));
    } else {
      NotFound(local, global, name);
    }
  }
}
