/** What the invariant means for a user of dlopen and dlclose. */
module LifecycleTheorems {
  import opened Base
  import opened Symbols
  import opened Lifecycle
  import opened LifecycleInvariant
  import opened LifecycleSteps
  import opened Callbacks
  import opened LoadingInvariant
  import opened Traces
  import opened ConstructorInvariant
  import opened UnloadInvariant
  import opened Runs

  // ----------------------------------------------- reference-count conservation

  /** DT_NEEDED entries that name the library, with multiplicity. */
  function Naming(needed: seq<string>, name: string): nat {
    if needed == [] then 0
    else (if Basename(needed[0]) == name then 1 else 0) + Naming(needed[1..], name)
  }

  function NeededEntries(order: seq<nat>, libs: map<nat, Lib>, name: string): nat
    requires Known(order, libs)
  {
    if order == [] then 0
    else
      assert Known(order[1..], libs);
      Naming(libs[order[0]].image.needed, name) + NeededEntries(order[1..], libs, name)
  }

  lemma {:induction false} ScopeNames(st: State, needed: seq<string>, scope: seq<nat>, id: nat)
    requires Shape(st) && id in st.libs && |scope| == |needed|
    requires forall i :: 0 <= i < |scope| ==> scope[i] in st.libs && st.libs[scope[i]].name == Basename(needed[i])
    ensures multiset(scope)[id] == Naming(needed, st.libs[id].name)
  {
    if scope != [] {
      assert scope == [scope[0]] + scope[1..];
      assert multiset(scope)[id] == (if scope[0] == id then 1 else 0) + multiset(scope[1..])[id];
      ScopeNames(st, needed[1..], scope[1..], id);
    }
  }

  lemma {:induction false} HeldIsNamed(st: State, order: seq<nat>, id: nat)
    requires Ready(st) && id in st.libs && Known(order, st.libs)
    ensures Held(order, st.libs)[id] == NeededEntries(order, st.libs, st.libs[id].name)
  {
    if order != [] {
      assert Known(order[1..], st.libs);
      var lib := st.libs[order[0]];
      forall i | 0 <= i < |lib.scope|
        ensures lib.scope[i] in st.libs && st.libs[lib.scope[i]].name == Basename(lib.image.needed[i])
      {
        assert DepAt(st, order[0], i);
      }
      ScopeNames(st, lib.image.needed, lib.scope, id);
      HeldIsNamed(st, order[1..], id);
    }
  }

  /** After any run, the count of every library on solist is its base value, plus its
      outstanding handles, plus the DT_NEEDED entries of listed libraries that name it, plus the
      counts that failed links took and never gave back. */
  lemma CountsAreConserved(table: SymTable, ops: seq<Op>)
    requires Legal(Init(table), ops)
    ensures Run(Init(table), ops).Some?
    ensures var st := Run(Init(table), ops).value;
            forall id :: id in st.libs ==>
              Known(st.order, st.libs) &&
              st.libs[id].refCount == (if st.libs[id].name == "libdl.so" then 0xffffff else 0)
                + st.handles[id] + NeededEntries(st.order, st.libs, st.libs[id].name) + st.leaked[id]
  {
    hide Rest, Run, Legal, NeededEntries;
    InitRest(table);
    RunsAreSafe(Init(table), ops);
    var st := Run(Init(table), ops).value;
    RestIsListed(st);
    forall id | id in st.libs
      ensures st.libs[id].refCount == (if st.libs[id].name == "libdl.so" then 0xffffff else 0)
                + st.handles[id] + NeededEntries(st.order, st.libs, st.libs[id].name) + st.leaked[id]
    {
      CountIsConserved(st, id);
    }
  }

  lemma CountIsConserved(st: State, id: nat)
    requires Rest(st) && id in st.libs
    ensures st.libs[id].refCount == (if st.libs[id].name == "libdl.so" then 0xffffff else 0)
              + st.handles[id] + NeededEntries(st.order, st.libs, st.libs[id].name) + st.leaked[id]
  {
    RestIsReady(st);
    HeldIsNamed(st, st.order, id);
    assert CountedAt(st, multiset{}, id);
    assert st.libs[LIBDL].name == "libdl.so";
  }

  // ------------------------------------------------------ no dangling bindings

  /** The bytes of a library's reservation are still mapped. */
  predicate StillMapped(st: State, id: nat)
    requires id in st.libs
  {
    id == LIBDL || Range(st.libs[id].base, st.libs[id].size) in st.mapped
  }

  /** After any run, every address that a relocation of a listed library was given at link time is
      still the run-time address of a symbol of a library that is on solist, linked, and not
      unmapped. What the words in memory hold is said in LiveSlots. */
  lemma NoDanglingBindings(table: SymTable, ops: seq<Op>, id: nat, i: nat)
    requires Legal(Init(table), ops) && Run(Init(table), ops).Some?
    requires var st := Run(Init(table), ops).value; id in st.libs && i < |st.libs[id].bindings|
    ensures var st := Run(Init(table), ops).value;
            var b := st.libs[id].bindings[i];
            && b.provider in st.order && b.provider in st.libs && st.libs[b.provider].linked
            && st.libs[b.provider].refCount >= 1 && StillMapped(st, b.provider)
            && b.sym < |st.libs[b.provider].image.table.syms|
            && b.value == Add32(st.libs[b.provider].image.table.syms[b.sym].value, st.libs[b.provider].bias)
  {
    InitRest(table);
    RunsAreSafe(Init(table), ops);
    BindingIsLive(Run(Init(table), ops).value, id, i);
  }

  lemma BindingIsLive(st: State, id: nat, i: nat)
    requires Rest(st) && id in st.libs && i < |st.libs[id].bindings|
    ensures var b := st.libs[id].bindings[i];
            && BindingLive(st, st.libs[id], b) && b.provider in st.order && st.libs[b.provider].linked
            && st.libs[b.provider].refCount >= 1 && StillMapped(st, b.provider)
  {
    assert BindingLive(st, st.libs[id], st.libs[id].bindings[i]);
    var p := st.libs[id].bindings[i].provider;
    HeldHas(st.order, st.libs, id, p);
    assert CountedAt(st, multiset{}, p);
  }

  // ------------------------------------------------------------------ acyclicity

  /** Library b is the loaded library that some DT_NEEDED entry of a names. */
  predicate DependsOn(st: State, a: nat, b: nat)
    requires Listed(st)
  {
    a in st.libs &&
    exists i :: 0 <= i < |st.libs[a].image.needed| && FindLoaded(st, st.libs[a].image.needed[i]) == Some(b)
  }

  predicate Path(st: State, p: seq<nat>)
    requires Listed(st)
  {
    |p| >= 1 && p[0] in st.libs && forall k :: 0 <= k < |p| - 1 ==> DependsOn(st, p[k], p[k + 1])
  }

  lemma DependencyRanks(st: State, a: nat, b: nat)
    requires Ready(st) && DependsOn(st, a, b)
    ensures b in st.libs && b in st.libs[a].scope && st.libs[b].rank < st.libs[a].rank
  {
    var i :| 0 <= i < |st.libs[a].image.needed| && FindLoaded(st, st.libs[a].image.needed[i]) == Some(b);
    assert DepAt(st, a, i);
    NeededIsLoaded(st, a, i);
  }

  lemma {:induction false} PathDescends(st: State, p: seq<nat>)
    requires Ready(st) && Path(st, p)
    ensures p[|p| - 1] in st.libs
    ensures |p| >= 2 ==> st.libs[p[|p| - 1]].rank < st.libs[p[0]].rank
  {
    if |p| >= 2 {
      assert DependsOn(st, p[0], p[1]);
      DependencyRanks(st, p[0], p[1]);
      assert Path(st, p[1..]) by {
        forall k | 0 <= k < |p[1..]| - 1
          ensures DependsOn(st, p[1..][k], p[1..][k + 1])
        {
          assert DependsOn(st, p[k + 1], p[k + 1 + 1]);
        }
      }
      PathDescends(st, p[1..]);
    }
  }

  /** After any run every listed library is linked and its DT_NEEDED names are all loaded, and
      no library reaches itself: a library on a cycle is never linked. */
  lemma GraphIsAcyclic(table: SymTable, ops: seq<Op>, p: seq<nat>)
    requires Legal(Init(table), ops) && Run(Init(table), ops).Some?
    ensures var st := Run(Init(table), ops).value;
            && (forall id :: id in st.order ==> id in st.libs && st.libs[id].linked)
            && (forall id, i :: id in st.libs && 0 <= i < |st.libs[id].image.needed| ==>
                  FindLoaded(st, st.libs[id].image.needed[i]).Some?)
            && (Path(st, p) && |p| >= 2 ==> p[0] != p[|p| - 1])
  {
    InitRest(table);
    RunsAreSafe(Init(table), ops);
    var st := Run(Init(table), ops).value;
    RestIsReady(st);
    forall id, i | id in st.libs && 0 <= i < |st.libs[id].image.needed|
      ensures FindLoaded(st, st.libs[id].image.needed[i]).Some?
    {
      assert DepAt(st, id, i);
      NeededIsLoaded(st, id, i);
    }
    if Path(st, p) {
      PathDescends(st, p);
    }
  }

  // ----------------------------------------------------------- what calls return

  /** find_library_internal returns a library exactly when, afterwards, the name is listed and
      linked, and then it returns that one. When it fails the name is listed as it was before:
      a library that came and did not link is gone. */
  lemma SearchOutcome(env: Env, name: string, st: State, owed: multiset<nat>, busy: set<nat>)
    requires Listed(st) && Inv(st, owed, -1, busy)
    ensures var (s, r) := FindInternal(env, name, st);
            && (r.Some? ==> FindLoaded(s, name) == r && s.libs[r.value].linked)
            && (r.None? ==> FindLoaded(s, name) == FindLoaded(st, name))
            && (r.None? && FindLoaded(s, name).Some? ==> !s.libs[FindLoaded(s, name).value].linked)
  {
    hide Inv, FindInternal, LinkImage, LoadLibrary, Opens, Entered;
    FindInternalKeeps(env, name, st, owed, busy);
    var (s, r) := FindInternal(env, name, st);
    if r.Some? {
      InvHasShape(s, owed, r.value, busy);
      NameIsFound(s, name, r.value);
    } else if FindLoaded(st, name).Some? {
      ListedOutcome(env, name, st);
    } else {
      FindInternalStep(env, name, st);
      LoadedIsNew(env, name, st, owed, busy);
      var (t, loaded) := LoadLibrary(env, name, st);
      if loaded.Some? {
        LinkImageKeeps(env, loaded.value, t, owed, busy);
        var u := LinkImage(env, loaded.value, t).0;
        InvHasShape(u, owed, loaded.value, busy);
        DiscardedName(u, loaded.value, name);
      } else {
        NothingEntered(env, name, st);
      }
    }
  }

  lemma InvHasShape(st: State, owed: multiset<nat>, newborn: int, busy: set<nat>)
    requires Inv(st, owed, newborn, busy)
    ensures Shape(st)
  {
  }

  lemma ListedOutcome(env: Env, name: string, st: State)
    requires Listed(st) && FindLoaded(st, name).Some? && FindInternal(env, name, st).1.None?
    ensures FindInternal(env, name, st).0 == st && !st.libs[FindLoaded(st, name).value].linked
  {
  }

  lemma NothingEntered(env: Env, name: string, st: State)
    requires Listed(st) && FindLoaded(st, name).None? && LoadLibrary(env, name, st).1.None?
    ensures FindLoaded(LoadLibrary(env, name, st).0, name).None?
  {
    hide LoadLibrary;
    LoadLibraryEnters(env, name, st);
  }

  lemma DiscardedName(st: State, id: nat, name: string)
    requires Shape(st) && id in st.libs && st.libs[id].name == Basename(name)
    ensures Listed(Discard(st, id)) && FindLoaded(Discard(st, id), name).None?
  {
    DiscardIsListed(st, id);
  }

  /** Giving back a count takes the library off the list exactly when it was the last one. */
  lemma UnloadRemovesIffLast(st: State, id: nat, owed: multiset<nat>, busy: set<nat>)
    requires Steady(st, owed + multiset{id}, busy) && id in st.libs && BusyAbove(st, busy, st.libs[id].rank)
    ensures Unload(st, id).Some?
    ensures id !in Unload(st, id).value.libs <==> st.libs[id].refCount == 1
  {
    hide Unload, UnloadNeeded;
    UnloadKeeps(st, id, owed, busy);
    UnloadStep(st, id);
  }

  // ---------------------------------------------------------------- balance

  /** Besides libdl, the library linked last is needed by nobody: a handle or a leak keeps it. */
  lemma Unneeded(st: State) returns (id: nat)
    requires Rest(st) && (exists x :: x in st.libs && x != LIBDL)
    ensures id in st.libs && id != LIBDL && st.handles[id] + st.leaked[id] >= 1
  {
    ListIsAll(st);
    id := Highest(st, st.order);
    forall x, i | x in st.libs && 0 <= i < |st.libs[x].scope|
      ensures st.libs[x].scope[i] != id
    {
      assert DepAt(st, x, i);
    }
    if id in Held(st.order, st.libs) {
      var x := HeldFrom(st.order, st.libs, id);
    }
    assert CountedAt(st, multiset{}, id);
  }

  lemma {:induction false} Highest(st: State, order: seq<nat>) returns (id: nat)
    requires Shape(st) && Known(order, st.libs) && (exists x :: x in order && x != LIBDL)
    ensures id in order && id != LIBDL
    ensures forall x :: x in order && x != LIBDL ==> st.libs[x].rank <= st.libs[id].rank
  {
    assert Known(order[1..], st.libs);
    assert forall x :: x in order <==> x == order[0] || x in order[1..];
    if exists x :: x in order[1..] && x != LIBDL {
      id := Highest(st, order[1..]);
      if order[0] != LIBDL && st.libs[order[0]].rank > st.libs[id].rank {
        id := order[0];
      }
    } else {
      id := order[0];
    }
  }

  /** solist is back to libdl_info alone, with its original count, exactly when no handle is
      outstanding and no failed link has leaked a count. */
  lemma BalancedIffNothingHeld(table: SymTable, ops: seq<Op>)
    requires Legal(Init(table), ops) && Run(Init(table), ops).Some?
    ensures var st := Run(Init(table), ops).value;
            st.order == [LIBDL] && LIBDL in st.libs && st.libs[LIBDL].refCount == LIBDL_REFS
            <==> st.handles == multiset{} && st.leaked == multiset{}
  {
    InitRest(table);
    RunsAreSafe(Init(table), ops);
    RestIffNothingHeld(Run(Init(table), ops).value);
  }

  lemma RestIffNothingHeld(st: State)
    requires Rest(st)
    ensures st.order == [LIBDL] && st.libs[LIBDL].refCount == LIBDL_REFS
            <==> st.handles == multiset{} && st.leaked == multiset{}
  {
    if st.handles == multiset{} && st.leaked == multiset{} {
      NothingHeldEmpties(st);
    }
    if st.order == [LIBDL] && st.libs[LIBDL].refCount == LIBDL_REFS {
      EmptyHoldsNothing(st);
    }
  }

  lemma AloneOnList(order: seq<nat>)
    requires Distinct(order) && |order| > 0 && forall i :: 0 <= i < |order| ==> order[i] == LIBDL
    ensures order == [LIBDL]
  {
    assert order[|order| - 1] == order[0];
  }

  lemma NothingHeldEmpties(st: State)
    requires Rest(st) && st.handles == multiset{} && st.leaked == multiset{}
    ensures st.order == [LIBDL] && st.libs[LIBDL].refCount == LIBDL_REFS
  {
    if exists x :: x in st.libs && x != LIBDL {
      var id := Unneeded(st);
    }
    AloneOnList(st.order);
    assert CountedAt(st, multiset{}, LIBDL);
    assert st.order[1..] == [] && Held(st.order, st.libs) == multiset([]);
  }

  lemma EmptyHoldsNothing(st: State)
    requires Rest(st) && st.order == [LIBDL] && st.libs[LIBDL].refCount == LIBDL_REFS
    ensures st.handles == multiset{} && st.leaked == multiset{}
  {
    ListIsAll(st);
    assert CountedAt(st, multiset{}, LIBDL);
    forall x: nat
      ensures st.handles[x] == 0 && st.leaked[x] == 0
    {
      assert CountedAt(st, multiset{}, x);
    }
  }

  /** Every open of the run came back with a handle. */
  predicate FailureFree(st: State, ops: seq<Op>)
    requires Listed(st)
    decreases |ops|
  {
    ops == [] ||
    (&& (ops[0].Open? ==>
           var r := DoDlopen(ops[0].env, ops[0].name, ops[0].flags, st); r.Some? && r.value.1.Some?)
     && var s := Step(st, ops[0]); s.Some? ==> FailureFree(s.value, ops[1..]))
  }

  lemma {:induction false} FailureFreeLosesNothing(st: State, ops: seq<Op>)
    requires Rest(st) && Legal(st, ops) && FailureFree(st, ops)
    ensures Run(st, ops).Some? && NothingLost(st, Run(st, ops).value)
    decreases |ops|
  {
    hide Deps, Placed, Accounted, Bound, Counted, Traced, FlagsClosed, DoDlopen, DoDlclose;
    if ops != [] {
      StepRest(st, ops[0]);
      match ops[0] {
        case Close(id) => CloseRest(st, id);
        case Open(env, name, flags) => OpenRest(env, name, flags, st);
      }
      FailureFreeLosesNothing(Step(st, ops[0]).value, ops[1..]);
    }
  }

  /** A failure-free run that closes every handle it was given restores the initial list, and leaves
      nothing mapped and no byte behind. */
  lemma BalancedRunRestores(table: SymTable, ops: seq<Op>)
    requires Legal(Init(table), ops) && FailureFree(Init(table), ops)
    requires Run(Init(table), ops).Some? && Run(Init(table), ops).value.handles == multiset{}
    ensures var st := Run(Init(table), ops).value;
            && st.order == [LIBDL] && LIBDL in st.libs && st.libs[LIBDL].refCount == 0xffffff
            && st.mapped == {} && st.bytes == map[]
  {
    hide Rest, Run, Legal, FailureFree;
    InitRest(table);
    FailureFreeLosesNothing(Init(table), ops);
    BalancedIffNothingHeld(table, ops);
    RunsAreSafe(Init(table), ops);
    EmptyListIsUnmapped(Run(Init(table), ops).value);
  }

  /** When only libdl is listed, all that is mapped is what loads that failed half-way left. */
  lemma EmptyListIsUnmapped(st: State)
    requires Rest(st) && st.order == [LIBDL]
    ensures st.mapped == st.stranded
    ensures st.stranded == {} ==> st.bytes == map[]
  {
    hide Deps, Placed, Bound, Counted, Traced, FlagsClosed;
    ListIsAll(st);
    forall r | r in st.mapped
      ensures r in st.stranded
    {
      assert ListedRange(st, r) ==> exists id :: id in st.libs && id != LIBDL;
    }
    if st.stranded == {} {
      forall a
        ensures a !in st.bytes
      {
        assert a in st.bytes ==> InRanges(st.mapped, a);
      }
    }
  }

  // ------------------------------------------------------------- failed opens

  /** A library that a failed open brought in and left behind is kept by a leaked count. */
  lemma {:induction false} HighestNew(s: State, t: State, order: seq<nat>) returns (id: nat)
    requires Shape(t) && Known(order, t.libs) && (exists x :: x in order && x !in s.libs)
    ensures id in order && id !in s.libs
    ensures forall x :: x in order && x !in s.libs ==> t.libs[x].rank <= t.libs[id].rank
  {
    assert Known(order[1..], t.libs);
    assert forall x :: x in order <==> x == order[0] || x in order[1..];
    if exists x :: x in order[1..] && x !in s.libs {
      id := HighestNew(s, t, order[1..]);
      if order[0] !in s.libs && t.libs[order[0]].rank > t.libs[id].rank {
        id := order[0];
      }
    } else {
      id := order[0];
    }
  }

  lemma NewIsLeaked(s: State, t: State) returns (id: nat)
    requires Rest(s) && Rest(t) && Grows(s, t, -1) && t.handles == s.handles
    requires exists x :: x in t.libs && x !in s.libs
    ensures id in t.libs && id !in s.libs && t.leaked[id] >= 1 && s.leaked[id] == 0
  {
    hide Placed, Accounted, Bound, Traced, FlagsClosed;
    id := HighestNew(s, t, t.order);
    forall x, i | x in t.libs && 0 <= i < |t.libs[x].scope|
      ensures t.libs[x].scope[i] != id
    {
      assert DepAt(t, x, i);
      if x in s.libs {
        assert Same(s.libs[x], t.libs[x]) && DepAt(s, x, i);
      }
    }
    if id in Held(t.order, t.libs) {
      var x := HeldFrom(t.order, t.libs, id);
    }
    assert CountedAt(t, multiset{}, id) && CountedAt(s, multiset{}, id);
  }

  lemma FailedFindRestores(env: Env, name: string, st: State)
    requires Rest(st) && FindLibrary(env, name, st).1 == None
    ensures var t := FindLibrary(env, name, st).0;
            t.order == st.order && t.libs == st.libs <==> t.leaked == st.leaked
  {
    FindLibraryKeeps(env, name, st, multiset{}, {});
    var t := FindLibrary(env, name, st).0;
    OpenedRest(st, t, None);
    FailureRestores(st, t);
  }

  lemma FailureRestores(s: State, t: State)
    requires Rest(s) && Rest(t) && Grows(s, t, -1) && t.handles == s.handles && s.leaked <= t.leaked
    ensures t.order == s.order && t.libs == s.libs <==> t.leaked == s.leaked
  {
    if t.order == s.order && t.libs == s.libs {
      forall x: nat
        ensures t.leaked[x] == s.leaked[x]
      {
        assert CountedAt(s, multiset{}, x) && CountedAt(t, multiset{}, x);
      }
    }
    if t.leaked == s.leaked {
      NoLeakRestores(s, t);
    }
  }

  lemma NoLeakRestores(s: State, t: State)
    requires Rest(s) && Rest(t) && Grows(s, t, -1) && t.handles == s.handles && t.leaked == s.leaked
    ensures t.order == s.order && t.libs == s.libs
  {
    hide Deps, Placed, Bound, Traced, FlagsClosed;
    NoneIsNew(s, t);
    HeldRestored(s, t);
    forall x | x in s.libs
      ensures t.libs[x] == s.libs[x]
    {
      CountRestored(s, t, x);
    }
  }

  lemma NoneIsNew(s: State, t: State)
    requires Rest(s) && Rest(t) && Grows(s, t, -1) && t.handles == s.handles && t.leaked == s.leaked
    ensures t.order == s.order && t.libs.Keys == s.libs.Keys
  {
    hide Deps, Placed, Accounted, Bound, Counted, Traced, FlagsClosed;
    if exists x :: x in t.libs && x !in s.libs {
      var id := NewIsLeaked(s, t);
    }
    ListIsAll(s);
    ListIsAll(t);
    PrefixIsWhole(s.order, t.order);
  }

  lemma HeldRestored(s: State, t: State)
    requires Known(s.order, s.libs) && Known(t.order, t.libs) && t.order == s.order && Grows(s, t, -1)
    ensures Held(t.order, t.libs) == Held(s.order, s.libs)
  {
    forall i | 0 <= i < |s.order|
      ensures s.libs[s.order[i]].scope == t.libs[s.order[i]].scope
    {
      assert Same(s.libs[s.order[i]], t.libs[s.order[i]]);
    }
    HeldSame(s.order, s.libs, t.libs);
  }

  lemma CountRestored(s: State, t: State, x: nat)
    requires Known(s.order, s.libs) && Known(t.order, t.libs) && Held(t.order, t.libs) == Held(s.order, s.libs)
    requires Counted(s, multiset{}) && Counted(t, multiset{}) && t.handles == s.handles && t.leaked == s.leaked
    requires x in s.libs && x in t.libs && Same(s.libs[x], t.libs[x])
    ensures t.libs[x] == s.libs[x]
  {
    assert CountedAt(s, multiset{}, x) && CountedAt(t, multiset{}, x);
  }

  lemma PrefixIsWhole(a: seq<nat>, b: seq<nat>)
    requires a <= b && Distinct(b) && forall x :: x in b ==> x in a
    ensures b == a
  {
    if b != [] {
      var last := |b| - 1;
      assert b[last] in b;
      var k :| 0 <= k < |a| && a[k] == b[last];
      assert b[k] == b[last];
    }
  }

  // ------------------------------------------------------------ trace order

  /** After any run: each load of a library is constructed, destructed and unmapped in this
      order, each at most once and with the same dependencies; constructors run after those of the dependencies,
      destructors before those of the dependencies; flags are closed under DT_NEEDED, and a flag
      is set exactly when the constructors of that load have run, with the library's functions. */
  lemma TraceIsInOrder(table: SymTable, ops: seq<Op>)
    requires Legal(Init(table), ops) && Run(Init(table), ops).Some?
    ensures var st := Run(Init(table), ops).value;
            && LifeLines(st.trace) && DepsFirst(st.trace) && ParentsFirst(st.trace)
            && (forall id :: id in st.libs ==> (st.libs[id].constructed <==> RanBefore(st.trace, |st.trace|, id)))
            && (forall i :: 0 <= i < |st.trace| && st.trace[i].id in st.libs ==>
                  st.trace[i].Constructed? && st.trace[i].deps == st.libs[st.trace[i].id].scope &&
                  st.trace[i].calls == InitCalls(st.libs[st.trace[i].id].image))
            && (forall a, b :: a in st.libs && st.libs[a].constructed && DependsOn(st, a, b) ==>
                  b in st.libs && st.libs[b].constructed)
  {
    hide Placed, Accounted, Bound, Counted;
    InitRest(table);
    RunsAreSafe(Init(table), ops);
    var st := Run(Init(table), ops).value;
    RestIsReady(st);
    forall i | 0 <= i < |st.trace| && st.trace[i].id in st.libs
      ensures EventFits(st.trace[i], st.libs[st.trace[i].id], {}, {})
    {
    }
    forall id | id in st.libs
      ensures st.libs[id].constructed <==> RanBefore(st.trace, |st.trace|, id)
    {
    }
    forall a, b | a in st.libs && st.libs[a].constructed && DependsOn(st, a, b)
      ensures b in st.libs && st.libs[b].constructed
    {
      DependencyRanks(st, a, b);
    }
  }

  /** The chain leads from each library to one of its dependencies, as the trace shows them. */
  predicate Chain(trace: seq<Event>, p: seq<nat>) {
    forall k :: 0 <= k < |p| - 1 ==> NeedsInTrace(trace, p[k], p[k + 1])
  }

  predicate NeedsInTrace(trace: seq<Event>, a: nat, b: nat) {
    forall i :: 0 <= i < |trace| && trace[i].Constructed? && trace[i].id == a ==> b in trace[i].deps
  }

  /** Constructors run after those of the whole DT_NEEDED closure, however long the chain. */
  lemma {:induction false} ClosureFirst(trace: seq<Event>, i: nat, p: seq<nat>)
    requires DepsFirst(trace) && i < |trace| && trace[i].Constructed?
    requires |p| >= 2 && p[0] == trace[i].id && Chain(trace, p)
    ensures RanBefore(trace, i, p[|p| - 1])
  {
    assert NeedsInTrace(trace, p[0], p[1]);
    assert RanBefore(trace, i, p[1]);
    if |p| > 2 {
      var k :| 0 <= k < i && trace[k].Constructed? && trace[k].id == p[1];
      assert Chain(trace, p[1..]) by {
        forall j | 0 <= j < |p[1..]| - 1
          ensures NeedsInTrace(trace, p[1..][j], p[1..][j + 1])
        {
          assert NeedsInTrace(trace, p[j + 1], p[j + 1 + 1]);
        }
      }
      ClosureFirst(trace, k, p[1..]);
      RanBeforeExtends(trace, trace, k, i, p[|p| - 1]);
    }
  }

  predicate Destructs(trace: seq<Event>, i: int, id: nat) {
    0 <= i < |trace| && trace[i].Destructed? && trace[i].id == id
  }

  /** The chain leads from each library to one of its dependencies, and all have been unloaded. */
  predicate UnloadedChain(trace: seq<Event>, p: seq<nat>) {
    && (forall k :: 0 <= k < |p| ==> Unloaded(trace, p[k]))
    && (forall k :: 0 <= k < |p| - 1 ==> NeededAtEnd(trace, p[k], p[k + 1]))
  }

  predicate Unloaded(trace: seq<Event>, id: nat) {
    exists i :: 0 <= i < |trace| && Destructs(trace, i, id)
  }

  predicate NeededAtEnd(trace: seq<Event>, a: nat, b: nat) {
    forall i :: 0 <= i < |trace| && trace[i].Destructed? && trace[i].id == a ==> b in trace[i].deps
  }

  /** Destructors run before those of everything that is unloaded on the library's account, however
      long the chain. */
  lemma {:induction false} ClosureLast(trace: seq<Event>, i: nat, j: nat, p: seq<nat>)
    requires ParentsFirst(trace) && UnloadedChain(trace, p) && |p| >= 2
    requires Destructs(trace, i, p[0]) && Destructs(trace, j, p[|p| - 1])
    ensures i < j
    decreases |p|
  {
    assert NeededAtEnd(trace, p[0], p[1]);
    if |p| > 2 {
      assert Unloaded(trace, p[1]);
      var k :| 0 <= k < |trace| && Destructs(trace, k, p[1]);
      assert UnloadedChain(trace, p[1..]) by {
        forall n | 0 <= n < |p[1..]| - 1
          ensures NeededAtEnd(trace, p[1..][n], p[1..][n + 1])
        {
          assert NeededAtEnd(trace, p[n + 1], p[n + 1 + 1]);
        }
      }
      ClosureLast(trace, k, j, p[1..]);
    }
  }

  /** The list itself: libdl first, every entry once, names whole basenames and distinct,
      reservations disjoint. */
  lemma ListIsWellShaped(table: SymTable, ops: seq<Op>)
    requires Legal(Init(table), ops) && Run(Init(table), ops).Some?
    ensures var st := Run(Init(table), ops).value;
            && |st.order| >= 1 && st.order[0] == LIBDL && Distinct(st.order)
            && (forall id :: id in st.order <==> id in st.libs)
            && (forall a, b :: a in st.libs && b in st.libs && a != b ==> st.libs[a].name != st.libs[b].name)
            && (forall id :: id in st.libs ==> IsBasename(st.libs[id].name))
            && (forall a, b :: a in st.libs && b in st.libs && a != LIBDL && b != LIBDL && a != b ==>
                  RangesApart(st.libs[a], st.libs[b]))
  {
    InitRest(table);
    RunsAreSafe(Init(table), ops);
    RestNames(Run(Init(table), ops).value);
  }

  lemma RestNames(st: State)
    requires Rest(st)
    ensures forall id :: id in st.libs ==> IsBasename(st.libs[id].name)
  {
    assert st.libs[LIBDL].name == "libdl.so" && IsBasename("libdl.so");
  }

  // -------------------------------------------------------------- the skip lists

  predicate SkippedAtOpen(name: string) {
    name == "libc.so" || name == "libstdc++.so" || name == "libz.so" || name == "libm.so" || name == "liblog.so"
  }

  predicate SkippedAtClose(name: string) {
    || name == "libc.so" || name == "libstdc++.so" || name == "libm.so" || name == "libz.so"
    || name == "libdl.so" || name == "liblog.so"
  }

  lemma SkippedIff(name: string)
    ensures name in NO_CONSTRUCTORS <==> SkippedAtOpen(name)
    ensures name in NO_DESTRUCTORS <==> SkippedAtClose(name)
  {
  }

  /** After a successful open the library's constructors have run, exactly when its name is not on
      the skip list of do_dlopen or they had run before. */
  lemma OpenConstructsUnlessSkipped(env: Env, name: string, flags: int, st: State)
    requires Rest(st) && DoDlopen(env, Some(name), flags, st).Some?
    requires DoDlopen(env, Some(name), flags, st).value.1.Some?
    ensures var r := DoDlopen(env, Some(name), flags, st).value;
            var t, id := r.0, r.1.value;
            && id in t.libs
            && (t.libs[id].constructed <==>
                  !SkippedAtOpen(Basename(name)) || (id in st.libs && st.libs[id].constructed))
  {
    hide Rest, DoDlopen, SkippedAtOpen;
    SkippedIff(Basename(name));
    OpenConstructs(env, name, flags, st);
  }

  lemma OpenConstructs(env: Env, name: string, flags: int, st: State)
    requires Rest(st) && DoDlopen(env, Some(name), flags, st).Some?
    requires DoDlopen(env, Some(name), flags, st).value.1.Some?
    ensures var r := DoDlopen(env, Some(name), flags, st).value;
            var t, id := r.0, r.1.value;
            && id in t.libs
            && (t.libs[id].constructed <==>
                  Basename(name) !in NO_CONSTRUCTORS || (id in st.libs && st.libs[id].constructed))
  {
    var (s, r) := FindLibrary(env, name, st);
    FindLibraryKeeps(env, name, st, multiset{}, {});
    assert DoDlopen(env, Some(name), flags, st) == HandOut(s, r);
    HandOutConstructs(st, s, r.value);
  }

  lemma HandOutConstructs(st: State, s: State, id: nat)
    requires Rest(st) && Listed(s) && Grows(st, s, -1) && Takes(st, s, Some(id), multiset{}, {}) && id in s.libs
    ensures var r := HandOut(s, Some(id));
            && r.Some? && r.value.1 == Some(id) && id in r.value.0.libs
            && (r.value.0.libs[id].constructed <==>
                  s.libs[id].name !in NO_CONSTRUCTORS || (id in st.libs && st.libs[id].constructed))
  {
    OpenedRest(st, s, Some(id));
    var t := s.(handles := s.handles + multiset{id});
    if s.libs[id].name !in NO_CONSTRUCTORS {
      ConstructorsRest(t, id);
    } else if id in st.libs {
      assert Same(st.libs[id], s.libs[id]);
    }
  }

  /** The functions called: none for six names, else DT_FINI_ARRAY from its last entry to its first, and
      then DT_FINI, null and -1 left out. */
  predicate Destroys(name: string, image: Image, calls: seq<Word>) {
    if SkippedAtClose(name) then calls == []
    else
      var n := if image.finiArray.Some? then |image.finiArray.value| else 0;
      calls == Callable(seq(n, i requires 0 <= i < n => image.finiArray.value[n - 1 - i]) + [image.fini])
  }

  lemma DestructorsAreDestroyed(lib: Lib)
    ensures Destroys(lib.name, lib.image, DestructorCalls(lib))
  {
    hide SkippedAtClose;
    SkippedIff(lib.name);
    var image := lib.image;
    var n := if image.finiArray.Some? then |image.finiArray.value| else 0;
    var backwards := seq(n, i requires 0 <= i < n => image.finiArray.value[n - 1 - i]);
    CallableAppend(backwards, [image.fini]);
    assert image.finiArray.Some? ==> backwards == Reversed(image.finiArray.value);
  }

  /** The last close of a library begins with its destructors, of which none is left out unless
      its name is on the skip list of soinfo_unload; nothing asks whether its constructors have
      run, and they have exactly when its flag is set. */
  lemma LastCloseRunsDestructors(st: State, id: nat)
    requires Rest(st) && id in st.handles
    ensures id in st.libs && DoDlclose(st, id).Some?
    ensures var t := DoDlclose(st, id).value;
            && st.trace <= t.trace
            && if st.libs[id].refCount > 1 then t.trace == st.trace
               else
                 && |t.trace| > |st.trace|
                 && BeginsUnload(t.trace[|st.trace|], st.libs[id])
                 && (RanBefore(t.trace, |st.trace|, id) <==> st.libs[id].constructed)
  {
    hide Steady, DoDlclose, RanBefore, Destroys, DestructorCalls;
    RestIsListed(st);
    CloseLogs(st, id);
    RestIds(st, id);
    DestructorsAreDestroyed(st.libs[id]);
    if st.libs[id].refCount <= 1 {
      FlagIsHistory(st, id);
      SamePast(st.trace, DoDlclose(st, id).value.trace, id);
    }
  }

  /** The first event of an unload: the destructors of the library, with its needed array. */
  predicate BeginsUnload(e: Event, lib: Lib) {
    e.Destructed? && e.id == lib.id && e.deps == lib.scope && Destroys(lib.name, lib.image, e.calls)
  }

  lemma RestIds(st: State, id: nat)
    requires Rest(st) && id in st.libs
    ensures st.libs[id].id == id
  {
  }

  lemma CloseLogs(st: State, id: nat)
    requires Rest(st) && id in st.handles
    ensures id in st.libs && DoDlclose(st, id).Some?
    ensures var t := DoDlclose(st, id).value;
            if st.libs[id].refCount > 1 then t.trace == st.trace
            else st.trace + [Destructed(id, st.libs[id].scope, DestructorCalls(st.libs[id]))] <= t.trace
  {
    hide Deps, Placed, Accounted, Bound, DestructorCalls, Traced, FlagsClosed;
    HandleIsOwed(st, id);
    var s := st.(handles := st.handles - multiset{id});
    OwedIsLoaded(s, multiset{} + multiset{id}, id);
    if st.libs[id].refCount == 1 {
      LastUnload(s, id, multiset{}, {});
    }
  }

  lemma FlagIsHistory(st: State, id: nat)
    requires Rest(st) && id in st.libs
    ensures st.libs[id].constructed <==> RanBefore(st.trace, |st.trace|, id)
  {
    forall i | 0 <= i < |st.trace| && st.trace[i].id in st.libs
      ensures EventFits(st.trace[i], st.libs[st.trace[i].id], {}, {})
    {
    }
  }

  lemma SamePast(s: seq<Event>, t: seq<Event>, id: nat)
    requires s <= t
    ensures RanBefore(t, |s|, id) <==> RanBefore(s, |s|, id)
  {
    assert forall k :: 0 <= k < |s| ==> t[k] == s[k];
  }

  lemma LastUnload(st: State, id: nat, owed: multiset<nat>, busy: set<nat>)
    requires Steady(st, owed + multiset{id}, busy) && id in st.libs && BusyAbove(st, busy, st.libs[id].rank)
    requires st.libs[id].refCount == 1
    ensures Unload(st, id).Some?
    ensures st.trace + [Destructed(id, st.libs[id].scope, DestructorCalls(st.libs[id]))] <= Unload(st, id).value.trace
  {
    var s := Release(st, id);
    var lib := st.libs[id];
    OwedIsLoaded(st, owed + multiset{id}, id);
    ReleasedKeeps(st, s, owed + multiset{id}, busy, id);
    ReleasedOwes(st, s, id, busy);
    UnloadNeededKeeps(s, lib.rank, lib.image.needed, lib.scope, owed + multiset{id}, busy + {id});
    var t := UnloadNeeded(s, lib.rank, lib.image.needed).value;
    OwedIsLoaded(t, owed + multiset{id}, id);
    assert Unload(st, id) == Some(Discard(t, id));
  }
}
