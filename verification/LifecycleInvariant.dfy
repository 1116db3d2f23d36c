/** What every operation of the life cycle keeps. */
module LifecycleInvariant {
  import opened Base
  import opened Symbols
  import opened Segments
  import opened Lifecycle

  // ------------------------------------------------------------ counts on edges

  predicate Known(order: seq<nat>, libs: map<nat, Lib>) {
    forall i :: 0 <= i < |order| ==> order[i] in libs
  }

  /** The counts held through needed arrays, with multiplicity. */
  ghost function Held(order: seq<nat>, libs: map<nat, Lib>): multiset<nat>
    requires Known(order, libs)
  {
    if order == [] then multiset{}
    else
      assert Known(order[1..], libs);
      multiset(libs[order[0]].scope) + Held(order[1..], libs)
  }

  lemma {:induction false} HeldSame(order: seq<nat>, a: map<nat, Lib>, b: map<nat, Lib>)
    requires Known(order, a) && Known(order, b)
    requires forall i :: 0 <= i < |order| ==> a[order[i]].scope == b[order[i]].scope
    ensures Held(order, a) == Held(order, b)
  {
    if order != [] {
      assert Known(order[1..], a) && Known(order[1..], b);
      HeldSame(order[1..], a, b);
    }
  }

  lemma {:induction false} HeldAppend(order: seq<nat>, libs: map<nat, Lib>, id: nat)
    requires Known(order, libs) && id in libs
    ensures Known(order + [id], libs)
    ensures Held(order + [id], libs) == Held(order, libs) + multiset(libs[id].scope)
  {
    if order == [] {
      assert order + [id] == [id];
      assert [id][1..] == [];
    } else {
      assert Known(order[1..], libs);
      HeldAppend(order[1..], libs, id);
      assert (order + [id])[1..] == order[1..] + [id];
    }
  }

  lemma {:induction false} HeldWithout(order: seq<nat>, libs: map<nat, Lib>, id: nat)
    requires Known(order, libs) && Distinct(order) && id in order
    ensures Known(Without(order, id), libs)
    ensures Held(order, libs) == multiset(libs[id].scope) + Held(Without(order, id), libs)
  {
    assert Known(order[1..], libs);
    if order[0] == id {
      assert id !in order[1..];
      WithoutAbsent(order[1..], id);
    } else {
      assert Distinct(order[1..]);
      HeldWithout(order[1..], libs, id);
      var rest := Without(order[1..], id);
      assert Without(order, id) == [order[0]] + rest;
      assert ([order[0]] + rest)[1..] == rest;
      forall i | 0 <= i < |Without(order, id)|
        ensures Without(order, id)[i] in libs
      {
        assert Without(order, id)[i] in order;
      }
    }
  }

  lemma {:induction false} WithoutAbsent(order: seq<nat>, id: nat)
    requires id !in order
    ensures Without(order, id) == order
  {
    if order != [] {
      WithoutAbsent(order[1..], id);
    }
  }

  lemma {:induction false} WithoutDistinct(order: seq<nat>, id: nat)
    requires Distinct(order)
    ensures Distinct(Without(order, id))
    ensures order != [] && order[0] != id ==> Without(order, id) != [] && Without(order, id)[0] == order[0]
  {
    if order != [] {
      assert Distinct(order[1..]);
      WithoutDistinct(order[1..], id);
      var rest := Without(order[1..], id);
      assert order[0] !in rest by {
        assert order[0] !in order[1..];
      }
      assert Without(order, id) == if order[0] == id then rest else [order[0]] + rest;
    }
  }

  /** Adding to one needed array adds one count. */
  lemma HeldPush(order: seq<nat>, libs: map<nat, Lib>, id: nat, lib: Lib, dep: nat)
    requires Known(order, libs) && Distinct(order) && id in order && lib.scope == libs[id].scope + [dep]
    ensures Known(order, libs[id := lib])
    ensures Held(order, libs[id := lib]) == Held(order, libs) + multiset{dep}
  {
    var libs' := libs[id := lib];
    HeldWithout(order, libs, id);
    HeldWithout(order, libs', id);
    HeldSame(Without(order, id), libs, libs');
    assert multiset(lib.scope) == multiset(libs[id].scope) + multiset{dep};
  }

  /** Emptying one needed array gives back what it held. */
  lemma HeldClear(order: seq<nat>, libs: map<nat, Lib>, id: nat, lib: Lib)
    requires Known(order, libs) && Distinct(order) && id in order && lib.scope == []
    ensures Known(order, libs[id := lib])
    ensures Held(order, libs) == Held(order, libs[id := lib]) + multiset(libs[id].scope)
  {
    var libs' := libs[id := lib];
    HeldWithout(order, libs, id);
    HeldWithout(order, libs', id);
    HeldSame(Without(order, id), libs, libs');
    assert multiset(lib.scope) == multiset{};
  }

  lemma {:induction false} HeldHas(order: seq<nat>, libs: map<nat, Lib>, id: nat, dep: nat)
    requires Known(order, libs) && id in order && dep in libs[id].scope
    ensures dep in Held(order, libs)
  {
    assert Known(order[1..], libs);
    if order[0] != id {
      HeldHas(order[1..], libs, id, dep);
    }
  }

  lemma {:induction false} HeldFrom(order: seq<nat>, libs: map<nat, Lib>, dep: nat) returns (id: nat)
    requires Known(order, libs) && dep in Held(order, libs)
    ensures id in order && id in libs && dep in libs[id].scope
  {
    assert Known(order[1..], libs);
    if dep in libs[order[0]].scope {
      id := order[0];
    } else {
      id := HeldFrom(order[1..], libs, dep);
    }
  }

  // -------------------------------------------------------------- invariant

  predicate Shape(st: State) {
    && Listed(st) && Distinct(st.order) && |st.order| > 0 && st.order[0] == LIBDL
    && 0 < st.nextId && 0 < st.nextRank
    && (forall id :: id in st.libs ==> st.libs[id].id == id && st.libs[id].rank < st.nextRank)
    && (forall a, b :: a in st.libs && b in st.libs && a != b ==> st.libs[a].name != st.libs[b].name)
    && var dl := st.libs[LIBDL];
       dl.name == "libdl.so" && dl.linked && dl.rank == 0 && dl.image.needed == [] && dl.scope == [] &&
       dl.bindings == [] && dl.base == 0 && dl.size == 0 && dl.bias == 0
  }

  /** The i-th entry of a needed array is the loaded, linked library that DT_NEEDED names. */
  predicate DepAt(st: State, id: nat, i: nat)
    requires id in st.libs && i < |st.libs[id].scope|
  {
    var lib, dep := st.libs[id], st.libs[id].scope[i];
    && i < |lib.image.needed| && dep in st.libs && st.libs[dep].linked
    && st.libs[dep].name == Basename(lib.image.needed[i])
    && (lib.linked ==> st.libs[dep].rank < lib.rank)
  }

  predicate Deps(st: State) {
    forall id, i :: id in st.libs && 0 <= i < |st.libs[id].scope| ==> DepAt(st, id, i)
  }

  predicate Complete(lib: Lib) {
    |lib.scope| == |lib.image.needed|
  }

  /** Linked libraries, but those being unloaded, have their whole needed array. */
  predicate Full(st: State, busy: set<nat>) {
    forall id :: id in st.libs && st.libs[id].linked && id !in busy ==> Complete(st.libs[id])
  }

  function BaseCount(id: nat): nat {
    if id == LIBDL then LIBDL_REFS else 0
  }

  /** How many owners a count of the library has: handles, needed arrays, failed links, and the
      callers in progress that are owed one. */
  ghost function Shares(st: State, owed: multiset<nat>, id: nat): nat
    requires Known(st.order, st.libs)
  {
    st.handles[id] + st.leaked[id] + owed[id] + Held(st.order, st.libs)[id]
  }

  /** The count of a library is its base value plus its owners; only linked libraries are owned. */
  ghost predicate CountedAt(st: State, owed: multiset<nat>, id: nat)
    requires Known(st.order, st.libs)
  {
    && (id in st.libs ==> st.libs[id].refCount == BaseCount(id) + Shares(st, owed, id))
    && (Shares(st, owed, id) > 0 ==> id in st.libs && st.libs[id].linked)
  }

  /** Reference-count conservation. */
  ghost predicate Counted(st: State, owed: multiset<nat>)
    requires Known(st.order, st.libs)
  {
    forall id: nat :: CountedAt(st, owed, id)
  }

  predicate RangesApart(a: Lib, b: Lib) {
    a.base as int + a.size <= b.base || b.base as int + b.size <= a.base
  }

  /** A whole basename: no directory, and short enough to be stored uncut. */
  predicate IsBasename(name: string) {
    '/' !in name && |name| < SOINFO_NAME_LEN
  }

  /** Size and bias are what the reader computed from the program headers, the name is whole. */
  predicate AsLoaded(lib: Lib) {
    && IsBasename(lib.name)
    && lib.size == LoadSize(lib.image.phdrs)
    && lib.bias == Sub32(lib.base, MinVaddr(lib.image.phdrs))
  }

  predicate Placed(st: State) {
    && (forall id :: id in st.libs && id != LIBDL ==>
          && 0 < st.libs[id].base && 0 < st.libs[id].size
          && st.libs[id].base as int + st.libs[id].size <= WORDS
          && AsLoaded(st.libs[id])
          && Range(st.libs[id].base, st.libs[id].size) in st.mapped)
    && (forall a, b :: a in st.libs && b in st.libs && a != LIBDL && b != LIBDL && a != b ==>
          RangesApart(st.libs[a], st.libs[b]))
  }

  /** What was bound is the run-time address of a symbol of a library in the needed array. */
  predicate BindingLive(st: State, lib: Lib, b: Binding) {
    && b.provider in lib.scope && b.provider in st.libs
    && b.sym < |st.libs[b.provider].image.table.syms|
    && b.value == Add32(st.libs[b.provider].image.table.syms[b.sym].value, st.libs[b.provider].bias)
  }

  predicate Bound(st: State) {
    forall id, i :: id in st.libs && 0 <= i < |st.libs[id].bindings| && Complete(st.libs[id]) ==>
      BindingLive(st, st.libs[id], st.libs[id].bindings[i])
  }

  /** Every linked library but libdl and the newborn is counted by somebody. */
  predicate Alive(st: State, newborn: int) {
    forall id :: id in st.libs && id != LIBDL && id != newborn && st.libs[id].linked ==> st.libs[id].refCount >= 1
  }

  predicate OnlyLinkedConstructed(st: State) {
    forall id :: id in st.libs && st.libs[id].constructed ==> st.libs[id].linked
  }

  function RangeOf(lib: Lib): Range {
    Range(lib.base, lib.size)
  }

  predicate ListedRange(st: State, r: Range) {
    exists id :: id in st.libs && id != LIBDL && r == RangeOf(st.libs[id])
  }

  predicate InRanges(mapped: set<Range>, a: int) {
    exists r :: r in mapped && r.start <= a < r.start + r.size
  }

  /** The address space is accounted for: a range is that of a listed library or of a load that failed
      half-way, never both, and bytes are in ranges only. */
  predicate Accounted(st: State) {
    && (forall r :: r in st.mapped ==> r in st.stranded || ListedRange(st, r))
    && st.stranded <= st.mapped
    && (forall id :: id in st.libs && id != LIBDL ==> RangeOf(st.libs[id]) !in st.stranded)
    && (forall a :: a in st.bytes ==> InRanges(st.mapped, a))
  }

  /** The part of the invariant that says nothing about counts. */
  ghost predicate Sound(st: State, busy: set<nat>) {
    && Shape(st) && Deps(st) && Full(st, busy) && Placed(st) && Accounted(st) && Bound(st)
    && OnlyLinkedConstructed(st)
  }

  ghost predicate Inv(st: State, owed: multiset<nat>, newborn: int, busy: set<nat>) {
    Sound(st, busy) && Counted(st, owed) && Alive(st, newborn)
  }

  // ------------------------------------------------------------------ loading

  lemma InitIsInvariant(table: SymTable)
    ensures Inv(Init(table), multiset{}, -1, {})
  {
    var st := Init(table);
    assert st.order[1..] == [];
    assert Held(st.order, st.libs) == multiset{};
  }

  lemma CountedSame(s: State, t: State, owed: multiset<nat>)
    requires Shape(s) && Shape(t) && Counted(s, owed)
    requires t.order == s.order && t.libs.Keys == s.libs.Keys && t.handles == s.handles && t.leaked == s.leaked
    requires forall id :: id in s.libs ==>
               && t.libs[id].scope == s.libs[id].scope && t.libs[id].refCount == s.libs[id].refCount
               && (s.libs[id].linked ==> t.libs[id].linked)
    ensures Counted(t, owed)
  {
    HeldSame(s.order, s.libs, t.libs);
    forall x: nat
      ensures CountedAt(t, owed, x)
    {
      assert CountedAt(s, owed, x);
    }
  }

  predicate SameButMarks(a: Lib, b: Lib) {
    a.(refCount := b.refCount, constructed := b.constructed) == b
  }

  /** What is new in the address space was stranded there. */
  predicate Strands(s: State, t: State) {
    && s.mapped <= t.mapped && s.stranded <= t.stranded
    && (forall r :: r in t.mapped ==> r in s.mapped || r in t.stranded)
    && (forall r :: r in t.stranded ==> r in s.stranded || (r in t.mapped && r !in s.mapped))
    && (forall a :: a in t.bytes ==> a in s.bytes || InRanges(t.mapped, a))
  }

  /** The libraries are the same but for their counts and their constructor flags. */
  predicate SameFrame(s: State, t: State) {
    && t.order == s.order && t.libs.Keys == s.libs.Keys
    && t.nextId == s.nextId && t.nextRank == s.nextRank && Strands(s, t)
    && forall id :: id in s.libs ==> SameButMarks(s.libs[id], t.libs[id])
  }

  lemma SameShape(s: State, t: State)
    requires SameFrame(s, t) && Shape(s)
    ensures Shape(t)
  {
    assert SameButMarks(s.libs[LIBDL], t.libs[LIBDL]);
  }

  lemma SameDeps(s: State, t: State)
    requires SameFrame(s, t) && Deps(s)
    ensures Deps(t)
  {
    forall x, i | x in t.libs && 0 <= i < |t.libs[x].scope|
      ensures DepAt(t, x, i)
    {
      assert SameButMarks(s.libs[x], t.libs[x]) && DepAt(s, x, i);
      assert SameButMarks(s.libs[s.libs[x].scope[i]], t.libs[t.libs[x].scope[i]]);
    }
  }

  lemma SameBound(s: State, t: State)
    requires SameFrame(s, t) && Bound(s)
    ensures Bound(t)
  {
    forall x, i | x in t.libs && 0 <= i < |t.libs[x].bindings| && Complete(t.libs[x])
      ensures BindingLive(t, t.libs[x], t.libs[x].bindings[i])
    {
      assert SameButMarks(s.libs[x], t.libs[x]);
      assert BindingLive(s, s.libs[x], s.libs[x].bindings[i]);
      var p := s.libs[x].bindings[i].provider;
      assert SameButMarks(s.libs[p], t.libs[p]);
    }
  }

  lemma SamePlaced(s: State, t: State)
    requires SameFrame(s, t) && Placed(s)
    ensures Placed(t)
  {
    forall a, b | a in t.libs && b in t.libs && a != LIBDL && b != LIBDL && a != b
      ensures RangesApart(t.libs[a], t.libs[b])
    {
      assert SameButMarks(s.libs[a], t.libs[a]) && SameButMarks(s.libs[b], t.libs[b]);
      assert RangesApart(s.libs[a], s.libs[b]);
    }
  }

  lemma SameAccounted(s: State, t: State)
    requires SameFrame(s, t) && Placed(s) && Accounted(s)
    ensures Accounted(t)
  {
    forall r | r in t.mapped && r !in t.stranded
      ensures ListedRange(t, r)
    {
      assert ListedRange(s, r);
      var id :| id in s.libs && id != LIBDL && r == RangeOf(s.libs[id]);
      assert SameButMarks(s.libs[id], t.libs[id]);
    }
    forall id | id in t.libs && id != LIBDL
      ensures RangeOf(t.libs[id]) !in t.stranded
    {
      assert SameButMarks(s.libs[id], t.libs[id]);
    }
    BytesStayInRanges(s, t);
  }

  lemma BytesStayInRanges(s: State, t: State)
    requires forall a :: a in s.bytes ==> InRanges(s.mapped, a)
    requires s.mapped <= t.mapped && forall a :: a in t.bytes ==> a in s.bytes || InRanges(t.mapped, a)
    ensures forall a :: a in t.bytes ==> InRanges(t.mapped, a)
  {
    forall a | a in t.bytes
      ensures InRanges(t.mapped, a)
    {
      if a in s.bytes {
        var r :| r in s.mapped && r.start <= a < r.start + r.size;
        assert r in t.mapped;
      }
    }
  }

  lemma SameFull(s: State, t: State, busy: set<nat>)
    requires SameFrame(s, t) && Full(s, busy)
    ensures Full(t, busy)
  {
    forall id | id in t.libs && t.libs[id].linked && id !in busy
      ensures Complete(t.libs[id])
    {
      assert SameButMarks(s.libs[id], t.libs[id]);
    }
  }

  lemma SameSound(s: State, t: State, busy: set<nat>)
    requires SameFrame(s, t) && Sound(s, busy) && OnlyLinkedConstructed(t)
    ensures Sound(t, busy)
  {
    hide Shape, Deps, Placed, Accounted, Bound, Counted;
    SameShape(s, t);
    SameDeps(s, t);
    SameBound(s, t);
    SamePlaced(s, t);
    SameAccounted(s, t);
    SameFull(s, t, busy);
  }

  /** The address space is the same but for the values of its bytes. */
  predicate SameSpace(s: State, t: State) {
    t.mapped == s.mapped && t.stranded == s.stranded && t.bytes.Keys == s.bytes.Keys
  }

  // Library id of s has got one more count in t.
  predicate Referenced(s: State, t: State, id: nat) {
    && id in s.libs && t.order == s.order && t.libs == s.libs[id := s.libs[id].(refCount := s.libs[id].refCount + 1)]
    && t.handles == s.handles && t.leaked == s.leaked
    && t.nextId == s.nextId && t.nextRank == s.nextRank && SameSpace(s, t)
  }

  lemma ReferencedCountedAt(s: State, t: State, owed: multiset<nat>, id: nat, x: nat)
    requires Known(s.order, s.libs) && Known(t.order, t.libs) && CountedAt(s, owed, x)
    requires Referenced(s, t, id) && s.libs[id].linked && Held(t.order, t.libs) == Held(s.order, s.libs)
    ensures CountedAt(t, owed + multiset{id}, x)
  {
  }

  lemma ReferencedCounted(s: State, t: State, owed: multiset<nat>, id: nat)
    requires Shape(s) && Counted(s, owed) && Referenced(s, t, id) && s.libs[id].linked
    ensures Known(t.order, t.libs) && Counted(t, owed + multiset{id})
  {
    HeldSame(s.order, s.libs, t.libs);
    forall x: nat {
      ReferencedCountedAt(s, t, owed, id, x);
    }
  }

  lemma ReferencedKeeps(s: State, t: State, owed: multiset<nat>, newborn: int, busy: set<nat>, id: nat)
    requires Inv(s, owed, newborn, busy) && Referenced(s, t, id) && s.libs[id].linked
    requires newborn == -1 || newborn == id
    ensures Inv(t, owed + multiset{id}, -1, busy)
  {
    hide Shape, Deps, Placed, Accounted, Bound, Counted;
    SameSound(s, t, busy);
    ReferencedCounted(s, t, owed, id);
  }

  // Library dep of s has been added to the needed array of id in t.
  predicate Extended(s: State, t: State, id: nat, dep: nat) {
    && id in s.libs && t.order == s.order && t.libs == s.libs[id := s.libs[id].(scope := s.libs[id].scope + [dep])]
    && t.handles == s.handles && t.leaked == s.leaked
    && t.nextId == s.nextId && t.nextRank == s.nextRank && SameSpace(s, t)
    && !s.libs[id].linked && s.libs[id].bindings == []
    && dep in s.libs && s.libs[dep].linked && |s.libs[id].scope| < |s.libs[id].image.needed|
    && s.libs[dep].name == Basename(s.libs[id].image.needed[|s.libs[id].scope|])
  }

  lemma ExtendedDeps(s: State, t: State, id: nat, dep: nat)
    requires Deps(s) && Extended(s, t, id, dep)
    ensures Deps(t)
  {
    forall x, i | x in t.libs && 0 <= i < |t.libs[x].scope|
      ensures DepAt(t, x, i)
    {
      if x != id || i < |s.libs[id].scope| {
        assert DepAt(s, x, i);
      }
    }
  }

  lemma ExtendedBound(s: State, t: State, id: nat, dep: nat)
    requires Bound(s) && Extended(s, t, id, dep)
    ensures Bound(t)
  {
    forall x, i | x in t.libs && 0 <= i < |t.libs[x].bindings| && Complete(t.libs[x])
      ensures BindingLive(t, t.libs[x], t.libs[x].bindings[i])
    {
      assert BindingLive(s, s.libs[x], s.libs[x].bindings[i]);
    }
  }

  lemma ExtendedPlaced(s: State, t: State, id: nat, dep: nat)
    requires Placed(s) && Extended(s, t, id, dep)
    ensures Placed(t)
  {
    forall a, b | a in t.libs && b in t.libs && a != LIBDL && b != LIBDL && a != b
      ensures RangesApart(t.libs[a], t.libs[b])
    {
      assert RangesApart(s.libs[a], s.libs[b]);
    }
  }

  lemma ExtendedAccounted(s: State, t: State, id: nat, dep: nat)
    requires Accounted(s) && Extended(s, t, id, dep)
    ensures Accounted(t)
  {
    SpaceAccounted(s, t);
  }

  /** Only the ranges of the libraries matter. */
  lemma SpaceAccounted(s: State, t: State)
    requires Accounted(s) && SameSpace(s, t) && t.libs.Keys == s.libs.Keys
    requires forall id :: id in s.libs ==> RangeOf(t.libs[id]) == RangeOf(s.libs[id])
    ensures Accounted(t)
  {
    forall r | r in t.mapped && r !in t.stranded
      ensures ListedRange(t, r)
    {
      assert ListedRange(s, r);
      var id :| id in s.libs && id != LIBDL && r == RangeOf(s.libs[id]);
      assert r == RangeOf(t.libs[id]);
    }
    BytesStayInRanges(s, t);
  }

  lemma ExtendedCountedAt(s: State, t: State, owed: multiset<nat>, id: nat, dep: nat, x: nat)
    requires Known(s.order, s.libs) && Known(t.order, t.libs) && CountedAt(s, owed + multiset{dep}, x)
    requires Extended(s, t, id, dep) && Held(t.order, t.libs) == Held(s.order, s.libs) + multiset{dep}
    ensures CountedAt(t, owed, x)
  {
  }

  lemma ExtendedCounted(s: State, t: State, owed: multiset<nat>, id: nat, dep: nat)
    requires Shape(s) && Counted(s, owed + multiset{dep}) && Extended(s, t, id, dep)
    ensures Known(t.order, t.libs) && Counted(t, owed)
  {
    HeldPush(s.order, s.libs, id, t.libs[id], dep);
    forall x: nat {
      ExtendedCountedAt(s, t, owed, id, dep, x);
    }
  }

  lemma ExtendedShape(s: State, t: State, id: nat, dep: nat)
    requires Shape(s) && Extended(s, t, id, dep)
    ensures Shape(t)
  {
  }

  lemma ExtendedKeeps(s: State, t: State, owed: multiset<nat>, busy: set<nat>, id: nat, dep: nat)
    requires Inv(s, owed + multiset{dep}, -1, busy) && Extended(s, t, id, dep)
    ensures Inv(t, owed, -1, busy)
  {
    hide Shape, Deps, Placed, Accounted, Bound, Counted;
    ExtendedShape(s, t, id, dep);
    ExtendedDeps(s, t, id, dep);
    ExtendedBound(s, t, id, dep);
    ExtendedPlaced(s, t, id, dep);
    ExtendedAccounted(s, t, id, dep);
    ExtendedCounted(s, t, owed, id, dep);
  }

  // A library that has just been entered on the list.
  predicate Entered(s: State, t: State, lib: Lib) {
    && lib.id == s.nextId && t.order == s.order + [lib.id] && t.libs == s.libs[lib.id := lib]
    && t.nextId == s.nextId + 1 && t.nextRank == s.nextRank
    && t.handles == s.handles && t.leaked == s.leaked && t.trace == s.trace
    && !lib.linked && lib.refCount == 0 && !lib.constructed && lib.rank == 0 && lib.scope == [] && lib.bindings == []
    && lib.name !in Names(s)
    && 0 < lib.base && 0 < lib.size && lib.base as int + lib.size <= WORDS && AsLoaded(lib)
    && t.mapped == s.mapped + {RangeOf(lib)} && t.stranded == s.stranded
    && (forall a :: a in t.bytes ==> a in s.bytes || Within(a, lib.base, lib.size))
    && (forall r :: r in s.mapped ==> lib.base as int + lib.size <= r.start || r.start + r.size <= lib.base)
  }

  lemma EnteredListed(s: State, t: State, lib: Lib)
    requires Shape(s) && Entered(s, t, lib)
    ensures Listed(t) && Distinct(t.order)
  {
    hide Names, AsLoaded;
    forall id | id in t.libs
      ensures id in t.order
    {
      if id == lib.id {
        assert t.order[|s.order|] == id;
      } else {
        assert id in s.order;
      }
    }
  }

  lemma EnteredShape(s: State, t: State, lib: Lib)
    requires Shape(s) && Entered(s, t, lib)
    ensures Shape(t)
  {
    EnteredListed(s, t, lib);
    forall a, b | a in t.libs && b in t.libs && a != b
      ensures t.libs[a].name != t.libs[b].name
    {
      if a == lib.id {
        assert s.libs[b].name in Names(s);
      } else if b == lib.id {
        assert s.libs[a].name in Names(s);
      }
    }
  }

  lemma EnteredDeps(s: State, t: State, lib: Lib)
    requires Shape(s) && Deps(s) && Entered(s, t, lib)
    ensures Deps(t)
  {
    forall x, i | x in t.libs && 0 <= i < |t.libs[x].scope|
      ensures DepAt(t, x, i)
    {
      assert DepAt(s, x, i);
    }
  }

  lemma EnteredBound(s: State, t: State, lib: Lib)
    requires Shape(s) && Bound(s) && Entered(s, t, lib)
    ensures Bound(t)
  {
    forall x, i | x in t.libs && 0 <= i < |t.libs[x].bindings| && Complete(t.libs[x])
      ensures BindingLive(t, t.libs[x], t.libs[x].bindings[i])
    {
      assert BindingLive(s, s.libs[x], s.libs[x].bindings[i]);
    }
  }

  lemma EnteredApart(s: State, t: State, lib: Lib, a: nat)
    requires Placed(s) && Entered(s, t, lib) && a in s.libs && a != LIBDL
    ensures RangesApart(s.libs[a], lib) && RangesApart(lib, s.libs[a])
  {
    assert Range(s.libs[a].base, s.libs[a].size) in s.mapped;
  }

  lemma EnteredPlaced(s: State, t: State, lib: Lib)
    requires Shape(s) && Placed(s) && Entered(s, t, lib)
    ensures Placed(t)
  {
    hide Names, AsLoaded, RangesApart, Listed, Within;
    forall a, b | a in t.libs && b in t.libs && a != LIBDL && b != LIBDL && a != b
      ensures RangesApart(t.libs[a], t.libs[b])
    {
      if a == lib.id {
        EnteredApart(s, t, lib, b);
      } else if b == lib.id {
        EnteredApart(s, t, lib, a);
      } else {
        assert RangesApart(s.libs[a], s.libs[b]);
      }
    }
  }

  lemma EnteredAccounted(s: State, t: State, lib: Lib)
    requires Shape(s) && Accounted(s) && Entered(s, t, lib)
    ensures Accounted(t)
  {
    forall r | r in t.mapped && r !in t.stranded
      ensures ListedRange(t, r)
    {
      if r in s.mapped {
        assert ListedRange(s, r);
        var id :| id in s.libs && id != LIBDL && r == RangeOf(s.libs[id]);
        assert r == RangeOf(t.libs[id]);
      } else {
        assert r == RangeOf(t.libs[lib.id]);
      }
    }
    forall a | a in t.bytes && Within(a, lib.base, lib.size)
      ensures InRanges(t.mapped, a)
    {
      assert RangeOf(lib) in t.mapped;
    }
    BytesStayInRanges(s, t);
  }

  lemma EnteredCountedAt(s: State, t: State, owed: multiset<nat>, lib: Lib, x: nat)
    requires Known(s.order, s.libs) && Known(t.order, t.libs) && lib.id !in s.libs
    requires CountedAt(s, owed, x) && Entered(s, t, lib) && Held(t.order, t.libs) == Held(s.order, s.libs)
    requires lib.id != LIBDL
    ensures CountedAt(t, owed, x)
  {
  }

  lemma EnteredHeld(s: State, t: State, lib: Lib)
    requires Known(s.order, s.libs) && lib.id !in s.libs && Entered(s, t, lib)
    ensures Known(t.order, t.libs) && Held(t.order, t.libs) == Held(s.order, s.libs)
  {
    assert Known(s.order, t.libs);
    HeldAppend(s.order, t.libs, lib.id);
    HeldSame(s.order, s.libs, t.libs);
    assert multiset(lib.scope) == multiset{};
  }

  lemma EnteredCounted(s: State, t: State, owed: multiset<nat>, lib: Lib)
    requires Shape(s) && Counted(s, owed) && Entered(s, t, lib)
    ensures Known(t.order, t.libs) && Counted(t, owed)
  {
    EnteredHeld(s, t, lib);
    forall x: nat {
      EnteredCountedAt(s, t, owed, lib, x);
    }
  }

  lemma EnteredKeeps(s: State, t: State, owed: multiset<nat>, busy: set<nat>, lib: Lib)
    requires Inv(s, owed, -1, busy) && Entered(s, t, lib)
    ensures Inv(t, owed, -1, busy)
  {
    hide Shape, Deps, Placed, Accounted, Bound, Counted;
    EnteredShape(s, t, lib);
    EnteredDeps(s, t, lib);
    EnteredBound(s, t, lib);
    EnteredPlaced(s, t, lib);
    EnteredAccounted(s, t, lib);
    EnteredCounted(s, t, owed, lib);
  }

  // Library id of s has been relocated and marked as linked.
  predicate Linked(s: State, t: State, id: nat) {
    && id in s.libs && !s.libs[id].linked && Complete(s.libs[id])
    && t.order == s.order && t.nextId == s.nextId && t.nextRank == s.nextRank + 1 && SameSpace(s, t)
    && t.handles == s.handles && t.leaked == s.leaked && id in t.libs
    && t.libs == s.libs[id := s.libs[id].(linked := true, rank := s.nextRank, bindings := t.libs[id].bindings)]
    && forall i :: 0 <= i < |t.libs[id].bindings| ==>
         BoundIn(ContextOf(s, s.libs[id]), s.libs[id].scope, t.libs[id].bindings[i])
  }

  lemma LinkedShape(s: State, t: State, id: nat)
    requires Shape(s) && Linked(s, t, id)
    ensures Shape(t)
  {
  }

  lemma LinkedDeps(s: State, t: State, id: nat)
    requires Shape(s) && Deps(s) && Linked(s, t, id)
    ensures Deps(t)
  {
    forall x, i | x in t.libs && 0 <= i < |t.libs[x].scope|
      ensures DepAt(t, x, i)
    {
      assert DepAt(s, x, i);
    }
  }

  lemma LinkedBound(s: State, t: State, id: nat)
    requires Deps(s) && Bound(s) && Linked(s, t, id)
    ensures Bound(t)
  {
    forall x, i | x in t.libs && 0 <= i < |t.libs[x].bindings| && Complete(t.libs[x])
      ensures BindingLive(t, t.libs[x], t.libs[x].bindings[i])
    {
      if x == id {
        var b, scope, ctx := t.libs[id].bindings[i], s.libs[id].scope, ContextOf(s, s.libs[id]);
        assert BoundIn(ctx, scope, b);
        var k :| 0 <= k < |scope| && BoundTo(ctx, scope, b, k);
        assert DepAt(s, id, k);
      } else {
        assert BindingLive(s, s.libs[x], s.libs[x].bindings[i]);
      }
    }
  }

  lemma LinkedPlaced(s: State, t: State, id: nat)
    requires Placed(s) && Linked(s, t, id)
    ensures Placed(t)
  {
    forall a, b | a in t.libs && b in t.libs && a != LIBDL && b != LIBDL && a != b
      ensures RangesApart(t.libs[a], t.libs[b])
    {
      assert RangesApart(s.libs[a], s.libs[b]);
    }
  }

  lemma LinkedKeeps(s: State, t: State, owed: multiset<nat>, busy: set<nat>, id: nat)
    requires Inv(s, owed, -1, busy) && Linked(s, t, id)
    ensures Inv(t, owed, id, busy)
  {
    hide Shape, Deps, Placed, Accounted, Bound, Counted;
    LinkedShape(s, t, id);
    LinkedDeps(s, t, id);
    LinkedBound(s, t, id);
    LinkedPlaced(s, t, id);
    SpaceAccounted(s, t);
    CountedSame(s, t, owed);
  }

  // Library id of s has been unmapped and freed; nobody but the caller had a count on it.
  predicate Discarded(s: State, t: State, owed: multiset<nat>, id: nat) {
    && id in s.libs && id != LIBDL && t == Discard(s, id)
    && s.libs[id].refCount == owed[id]
  }

  lemma NotNeeded(s: State, owed: multiset<nat>, id: nat, x: nat)
    requires Shape(s) && Counted(s, owed) && id in s.libs && id != LIBDL && s.libs[id].refCount == owed[id]
    requires x in s.libs
    ensures id !in s.libs[x].scope
  {
    assert CountedAt(s, owed, id);
    assert Shares(s, owed, id) == owed[id];
    if id in s.libs[x].scope {
      HeldHas(s.order, s.libs, x, id);
    }
  }

  lemma DiscardedShape(s: State, t: State, owed: multiset<nat>, id: nat)
    requires Shape(s) && Discarded(s, t, owed, id)
    ensures Shape(t)
  {
    DiscardIsListed(s, id);
    WithoutDistinct(s.order, id);
  }

  lemma DiscardedDeps(s: State, t: State, owed: multiset<nat>, id: nat)
    requires Shape(s) && Deps(s) && Counted(s, owed) && Discarded(s, t, owed, id)
    ensures Deps(t)
  {
    forall x, i | x in t.libs && 0 <= i < |t.libs[x].scope|
      ensures DepAt(t, x, i)
    {
      assert DepAt(s, x, i);
      NotNeeded(s, owed, id, x);
    }
  }

  lemma DiscardedBound(s: State, t: State, owed: multiset<nat>, id: nat)
    requires Shape(s) && Bound(s) && Counted(s, owed) && Discarded(s, t, owed, id)
    ensures Bound(t)
  {
    forall x, i | x in t.libs && 0 <= i < |t.libs[x].bindings| && Complete(t.libs[x])
      ensures BindingLive(t, t.libs[x], t.libs[x].bindings[i])
    {
      assert BindingLive(s, s.libs[x], s.libs[x].bindings[i]);
      NotNeeded(s, owed, id, x);
    }
  }

  lemma DiscardedPlaced(s: State, t: State, owed: multiset<nat>, id: nat)
    requires Placed(s) && Discarded(s, t, owed, id)
    ensures Placed(t)
  {
    forall x | x in t.libs && x != LIBDL
      ensures Range(t.libs[x].base, t.libs[x].size) in t.mapped
    {
      assert RangesApart(s.libs[x], s.libs[id]);
    }
    forall a, b | a in t.libs && b in t.libs && a != LIBDL && b != LIBDL && a != b
      ensures RangesApart(t.libs[a], t.libs[b])
    {
      assert RangesApart(s.libs[a], s.libs[b]);
    }
  }

  lemma DiscardedAccounted(s: State, t: State, owed: multiset<nat>, id: nat)
    requires Placed(s) && Accounted(s) && Discarded(s, t, owed, id)
    ensures Accounted(t)
  {
    hide AsLoaded, RangesApart;
    forall r | r in t.mapped && r !in t.stranded
      ensures ListedRange(t, r)
    {
      assert ListedRange(s, r);
      var x :| x in s.libs && x != LIBDL && r == RangeOf(s.libs[x]);
      assert x != id && r == RangeOf(t.libs[x]);
    }
    forall a | a in t.bytes
      ensures InRanges(t.mapped, a)
    {
      assert InRanges(s.mapped, a);
      var r :| r in s.mapped && r.start <= a < r.start + r.size;
      assert r != RangeOf(s.libs[id]) && r in t.mapped;
    }
  }

  lemma DiscardedHeld(s: State, t: State, id: nat)
    requires Known(s.order, s.libs) && Distinct(s.order) && id in s.order
    requires t.order == Without(s.order, id) && t.libs == s.libs - {id} && Known(t.order, t.libs)
    ensures Held(s.order, s.libs) == multiset(s.libs[id].scope) + Held(t.order, t.libs)
  {
    HeldWithout(s.order, s.libs, id);
    HeldSame(t.order, s.libs, t.libs);
  }

  lemma DiscardedCountedAt(s: State, t: State, owed: multiset<nat>, id: nat, x: nat)
    requires Known(s.order, s.libs) && Known(t.order, t.libs) && Discarded(s, t, owed, id)
    requires Held(s.order, s.libs) == multiset(s.libs[id].scope) + Held(t.order, t.libs)
    requires CountedAt(s, owed, id) && CountedAt(s, owed, x)
    ensures CountedAt(t, owed[id := 0], x)
  {
    assert Shares(s, owed, id) == owed[id];
    assert t.leaked[x] == s.leaked[x] + multiset(s.libs[id].scope)[x];
  }

  lemma DiscardedCounted(s: State, t: State, owed: multiset<nat>, id: nat)
    requires Shape(s) && Shape(t) && Counted(s, owed) && Discarded(s, t, owed, id)
    ensures Counted(t, owed[id := 0])
  {
    DiscardedHeld(s, t, id);
    var rest := owed[id := 0];
    forall x: nat
      ensures CountedAt(t, rest, x)
    {
      assert CountedAt(s, owed, id) && CountedAt(s, owed, x);
      DiscardedCountedAt(s, t, owed, id, x);
    }
  }

  lemma DiscardedKeeps(s: State, t: State, owed: multiset<nat>, newborn: int, busy: set<nat>, id: nat)
    requires Inv(s, owed, newborn, busy) && Discarded(s, t, owed, id) && (newborn == -1 || newborn == id)
    ensures Inv(t, owed[id := 0], -1, busy)
  {
    hide Shape, Deps, Placed, Accounted, Bound, Counted;
    DiscardedShape(s, t, owed, id);
    DiscardedDeps(s, t, owed, id);
    DiscardedBound(s, t, owed, id);
    DiscardedPlaced(s, t, owed, id);
    DiscardedAccounted(s, t, owed, id);
    DiscardedCounted(s, t, owed, id);
  }
}
