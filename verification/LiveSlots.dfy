/** What the memory of the listed libraries holds, over whole runs. */
module LiveSlots {
  import opened Base
  import opened ElfHash
  import opened Symbols
  import opened Memory
  import opened Segments
  import opened Relocation
  import opened RelocationTheorems
  import opened BoundSlots
  import opened UnloadInvariant
  import opened Lifecycle
  import opened LifecycleInvariant
  import opened LifecycleSteps
  import opened LoadingInvariant
  import opened Runs
  import opened LifecycleTheorems
  import opened MemoryInvariant

  // ------------------------------------------------------------------ opening

  lemma InvIsPlaced(st: State, owed: multiset<nat>, newborn: int, busy: set<nat>)
    requires Inv(st, owed, newborn, busy)
    ensures Placed(st) && Listed(st) && Deps(st)
  {
  }

  /** find_library keeps every library's image in memory. */
  lemma {:induction false} FindLibraryIntact(env: Env, name: string, st: State, owed: multiset<nat>, busy: set<nat>)
    requires Listed(st) && Inv(st, owed, -1, busy) && Intact(env.backend, st) && AllSelfContained(env)
    ensures Intact(env.backend, FindLibrary(env, name, st).0)
    decreases Room(env, st), 1, 0
  {
    hide Inv, Intact, FindLibrary, FindInternal;
    FindLibraryStep(env, name, st);
    FindInternalIntact(env, name, st, owed, busy);
    var (s, r) := FindInternal(env, name, st);
    if r.Some? {
      MarksIntact(env.backend, s, AddRef(s, r.value));
    }
  }

  lemma {:induction false} FindInternalIntact(env: Env, name: string, st: State, owed: multiset<nat>, busy: set<nat>)
    requires Listed(st) && Inv(st, owed, -1, busy) && Intact(env.backend, st) && AllSelfContained(env)
    ensures Intact(env.backend, FindInternal(env, name, st).0)
    decreases Room(env, st), 0, 1
  {
    hide Inv, Intact, LoadLibrary, FindInternal, LinkImage, Entered, Opens, Deps, Placed;
    if FindLoaded(st, name).Some? {
      ListedIntact(env, name, st);
    } else {
      FindInternalStep(env, name, st);
      InvIsPlaced(st, owed, -1, busy);
      LoadLibraryIntact(env, name, st);
      LoadedIsNew(env, name, st, owed, busy);
      var (s, r) := LoadLibrary(env, name, st);
      if r.Some? {
        RoomShrinks(env, name, st, s, r.value);
        NewLinkIntact(env, s, r.value, owed, busy);
      }
    }
  }

  lemma ListedIntact(env: Env, name: string, st: State)
    requires Listed(st) && FindLoaded(st, name).Some?
    ensures FindInternal(env, name, st).0 == st
  {
  }

  /** A library just entered is linked, or discarded again. */
  lemma {:induction false} NewLinkIntact(env: Env, s: State, id: nat, owed: multiset<nat>, busy: set<nat>)
    requires Listed(s) && Inv(s, owed, -1, busy) && Intact(env.backend, s) && AllSelfContained(env)
    requires id in s.libs && id != LIBDL && !s.libs[id].linked && s.libs[id].bindings == []
    ensures var (u, ok) := LinkImage(env, id, s);
            id in u.libs && Intact(env.backend, if ok then u else Discard(u, id))
    decreases Room(env, s), 4, 0
  {
    hide Inv, IntactBut, LinkImage, Discard, Opens;
    LinkImageIntact(env, id, s, owed, busy);
    LinkImageKeeps(env, id, s, owed, busy);
    var (u, ok) := LinkImage(env, id, s);
    if !ok {
      InvIsPlaced(u, owed, id, busy);
      UnlinkedUncounted(s, owed, busy, id);
      DiscardHasDeps(u, owed, busy, id);
      DiscardIntact(env.backend, u, id);
    }
  }

  lemma DiscardHasDeps(st: State, owed: multiset<nat>, busy: set<nat>, id: nat)
    requires Inv(st, owed, id, busy) && id in st.libs && id != LIBDL && st.libs[id].refCount == owed[id]
    ensures Deps(Discard(st, id))
  {
    hide Deps, Placed, Accounted, Bound;
    DiscardedDeps(st, Discard(st, id), owed, id);
  }

  lemma {:induction false} LinkImageIntact(env: Env, id: nat, s: State, owed: multiset<nat>, busy: set<nat>)
    requires Listed(s) && Inv(s, owed, -1, busy) && Intact(env.backend, s) && AllSelfContained(env)
    requires id in s.libs && id != LIBDL && !s.libs[id].linked && s.libs[id].bindings == []
    ensures var (u, ok) := LinkImage(env, id, s);
            LinkIntact(env.backend, u, id) && (ok ==> id in u.libs && u.libs[id].linked)
    decreases Room(env, s), 3, 0
  {
    hide Inv, IntactBut, LinkImage, LoadNeeded, FinishLink, Opens;
    LinkImageKeeps(env, id, s, owed, busy);
    LinkImageStep(env, id, s);
    if Linkable(s.libs[id].image) {
      LoadNeededIntact(env, id, s, owed, busy);
      LoadNeededKeeps(env, id, s, owed, busy);
      var (t, ok) := LoadNeeded(env, id, s);
      if ok {
        InvIsPlaced(t, owed, -1, busy);
        FinishLinkIntact(env.backend, env, id, t);
      } else {
        LessIntact(env.backend, t, id);
      }
    } else {
      LessIntact(env.backend, s, id);
    }
  }

  lemma {:induction false} LoadNeededIntact(env: Env, id: nat, s: State, owed: multiset<nat>, busy: set<nat>)
    requires Listed(s) && Inv(s, owed, -1, busy) && Intact(env.backend, s) && AllSelfContained(env)
    requires id in s.libs && id != LIBDL && !s.libs[id].linked && s.libs[id].bindings == []
    ensures Intact(env.backend, LoadNeeded(env, id, s).0)
    decreases Room(env, s), 2, |s.libs[id].image.needed| - |s.libs[id].scope|
  {
    hide Inv, Intact, LoadNeeded, FindLibrary, AddNeeded, Takes, Opens, AllSelfContained;
    var lib := s.libs[id];
    if |lib.scope| >= |lib.image.needed| {
      LoadNeededDone(env, id, s);
    } else {
      LoadNeededStep(env, id, s);
      var name := lib.image.needed[|lib.scope|];
      FindLibraryIntact(env, name, s, owed, busy);
      FindLibraryKeeps(env, name, s, owed, busy);
      var (t, dep) := FindLibrary(env, name, s);
      assert Same(lib, t.libs[id]);
      if dep.Some? {
        OneMoreNeeded(env, s, t, id, dep.value);
        NeededIsAdded(s, t, id, dep.value, owed, busy);
        AddNeededIntact(env.backend, t, id, dep.value);
        LoadNeededIntact(env, id, AddNeeded(t, id, dep.value), owed, busy);
      }
    }
  }

  lemma AddNeededIntact(b: Backend, s: State, id: nat, dep: nat)
    requires Listed(s) && Intact(b, s) && id in s.libs && !s.libs[id].linked
    ensures Intact(b, AddNeeded(s, id, dep))
  {
    hide Intact;
    MarksIntact(b, s, AddNeeded(s, id, dep));
  }

  // ------------------------------------------------------------------ closing

  lemma PreservesStep(s: State, t: State, u: State)
    requires Preserves(s, t) && Preserves(t, u)
    ensures Preserves(s, u)
  {
    hide BytesKept;
    forall id | id in u.libs && id != LIBDL
      ensures PreservesAt(s, u, id)
    {
      assert PreservesAt(t, u, id) && PreservesAt(s, t, id);
      BytesKeptStep(s.libs[id].base, s.libs[id].size, s.bytes, t.bytes, u.bytes);
    }
  }

  lemma PreservesSpread(s: State, t: State)
    requires Spread(s) && Preserves(s, t)
    ensures Spread(t)
  {
    hide BytesKept;
    forall a, b | a in t.libs && b in t.libs && a != LIBDL && b != LIBDL && a != b
      ensures RangesApart(t.libs[a], t.libs[b])
    {
      assert PreservesAt(s, t, a) && PreservesAt(s, t, b);
      assert RangesApart(s.libs[a], s.libs[b]);
    }
  }

  /** soinfo_unload takes its libraries out of memory and leaves the others as they were. */
  lemma {:induction false} UnloadPreserves(st: State, id: nat)
    requires Listed(st) && Spread(st) && Unload(st, id).Some?
    ensures Preserves(st, Unload(st, id).value)
    decreases RankOf(st, id), 1, 0
  {
    hide Preserves, Spread, Unload, UnloadNeeded;
    UnloadStep(st, id);
    if st.libs[id].refCount != 1 {
      MarksPreserve(st, DropRef(st, id));
    } else {
      var s := Release(st, id);
      MarksPreserve(st, s);
      PreservesSpread(st, s);
      UnloadNeededPreserves(s, st.libs[id].rank, st.libs[id].image.needed);
      var t := UnloadNeeded(s, st.libs[id].rank, st.libs[id].image.needed).value;
      PreservesSpread(s, t);
      DiscardPreserves(t, id);
      PreservesStep(st, s, t);
      PreservesStep(st, t, Discard(t, id));
    }
  }

  lemma {:induction false} UnloadNeededPreserves(st: State, rank: nat, names: seq<string>)
    requires Listed(st) && Spread(st) && UnloadNeeded(st, rank, names).Some?
    ensures Preserves(st, UnloadNeeded(st, rank, names).value)
    decreases rank, 0, |names|
  {
    hide Preserves, Spread, Unload, UnloadNeeded;
    UnloadNeededStep(st, rank, names);
    if names == [] {
      MarksPreserve(st, st);
    } else {
      var dep := FindLoaded(st, names[0]).value;
      UnloadPreserves(st, dep);
      var s := Unload(st, dep).value;
      PreservesSpread(st, s);
      UnloadNeededPreserves(s, rank, names[1..]);
      PreservesStep(st, s, UnloadNeeded(s, rank, names[1..]).value);
    }
  }

  lemma ShrinksKeepsScope(s: State, t: State, rank: nat, id: nat)
    requires Preserves(s, t) && Shrinks(s, t, rank) && Deps(t)
    ensures ScopeKept(s, t, id)
  {
    hide BytesKept;
    if id in t.libs && id in s.libs && t.libs[id].linked {
      assert Same(s.libs[id], t.libs[id]);
      forall j | 0 <= j < |s.libs[id].scope|
        ensures ProviderKept(s, t, s.libs[id].scope[j])
      {
        assert DepAt(t, id, j);
        assert Same(s.libs[s.libs[id].scope[j]], t.libs[s.libs[id].scope[j]]);
      }
    }
  }

  lemma ShrinksIntact(b: Backend, s: State, t: State, rank: nat)
    requires Intact(b, s) && Preserves(s, t) && Shrinks(s, t, rank) && Deps(t)
    ensures Intact(b, t)
  {
    hide ImageIn, Shrinks, Deps, ScopeKept, PreservesAt;
    forall id | id != LIBDL
      ensures PreservesAt(s, t, id) && ScopeKept(s, t, id)
    {
      ShrinksKeepsScope(s, t, rank, id);
    }
    KeptIntact(b, s, t, -1);
  }

  // --------------------------------------------------------------------- runs

  lemma InitIntact(b: Backend, table: SymTable)
    ensures Intact(b, Init(table))
  {
  }

  lemma FlagsIntact(b: Backend, s: State, t: State)
    requires Intact(b, s) && OnlyFlags(s, t)
    ensures Intact(b, t)
  {
    hide Intact;
    forall id | id in t.libs
      ensures SameImage(s.libs[id], t.libs[id])
    {
    }
    MarksIntact(b, s, t);
  }

  lemma HandOutIntact(b: Backend, s: State, id: nat)
    requires Listed(s) && Intact(b, s) && id in s.libs && HandOut(s, Some(id)).Some?
    ensures Intact(b, HandOut(s, Some(id)).value.0)
  {
    hide Intact, HandOut, CallConstructors;
    HandOutStep(s, id);
    var t := s.(handles := s.handles + multiset{id});
    MarksIntact(b, s, t);
    if s.libs[id].name !in NO_CONSTRUCTORS {
      FlagsIntact(b, t, CallConstructors(t, id).value);
    }
  }

  lemma OpenIntact(env: Env, name: Option<string>, flags: int, st: State)
    requires Rest(st) && Intact(env.backend, st) && AllSelfContained(env) && DoDlopen(env, name, flags, st).Some?
    ensures Intact(env.backend, DoDlopen(env, name, flags, st).value.0)
  {
    hide Intact, FindLibrary, HandOut;
    if ValidFlags(flags) && name.Some? {
      FindLibraryIntact(env, name.value, st, multiset{}, {});
      DoDlopenStep(env, name.value, flags, st);
      var (s, r) := FindLibrary(env, name.value, st);
      if r.Some? {
        HandOutIntact(env.backend, s, r.value);
      }
    }
  }

  lemma CloseIntact(b: Backend, st: State, id: nat)
    requires Rest(st) && Intact(b, st) && id in st.handles
    ensures DoDlclose(st, id).Some? && Intact(b, DoDlclose(st, id).value)
  {
    hide Intact, Unload, Steady, OnlyMarks, SameScopes;
    var s := st.(handles := st.handles - multiset{id});
    HandleIsOwed(st, id);
    SteadyParts(st, multiset{}, {});
    assert OnlyHandles(st, s);
    HandlesIntact(b, st, s);
    UnloadIntact(b, s, id);
  }

  predicate OnlyHandles(s: State, t: State) {
    t == s.(handles := t.handles)
  }

  lemma HandlesIntact(b: Backend, s: State, t: State)
    requires Intact(b, s) && OnlyHandles(s, t)
    ensures Intact(b, t)
  {
    hide Intact;
    MarksIntact(b, s, t);
  }

  lemma UnloadIntact(b: Backend, s: State, id: nat)
    requires Listed(s) && Steady(s, multiset{} + multiset{id}, {}) && Intact(b, s) && id in s.libs
    ensures Unload(s, id).Some? && Intact(b, Unload(s, id).value)
  {
    hide Intact, Unload, Steady, Preserves, Shrinks, Deps, Spread;
    UnloadKeeps(s, id, multiset{}, {});
    SteadyParts(s, multiset{} + multiset{id}, {});
    UnloadPreserves(s, id);
    SteadyParts(Unload(s, id).value, multiset{}, {});
    ShrinksIntact(b, s, Unload(s, id).value, s.libs[id].rank + 1);
  }

  lemma SteadyParts(st: State, owed: multiset<nat>, busy: set<nat>)
    requires Steady(st, owed, busy)
    ensures Listed(st) && Deps(st) && Spread(st)
  {
  }

  /** Every file that the run could open is self-contained, and the linker was built with this s_mmap. */
  predicate RunSelfContained(b: Backend, ops: seq<Op>) {
    forall i :: 0 <= i < |ops| && ops[i].Open? ==> ops[i].env.backend == b && AllSelfContained(ops[i].env)
  }

  lemma {:induction false} RunIntact(b: Backend, st: State, ops: seq<Op>)
    requires Rest(st) && Legal(st, ops) && Intact(b, st) && RunSelfContained(b, ops)
    ensures Run(st, ops).Some? && Rest(Run(st, ops).value) && Intact(b, Run(st, ops).value)
    decreases |ops|
  {
    hide Intact, AllSelfContained, DoDlopen, DoDlclose, Deps, Placed, Accounted, Bound, Counted;
    if ops != [] {
      StepRest(st, ops[0]);
      match ops[0] {
        case Close(id) => CloseIntact(b, st, id);
        case Open(env, name, flags) => OpenIntact(env, name, flags, st);
      }
      RunIntact(b, Step(st, ops[0]).value, ops[1..]);
    }
  }

  lemma RunFromInit(b: Backend, table: SymTable, ops: seq<Op>)
    requires Legal(Init(table), ops) && RunSelfContained(b, ops)
    ensures Run(Init(table), ops).Some?
    ensures Rest(Run(Init(table), ops).value) && Intact(b, Run(Init(table), ops).value)
  {
    hide Rest, Intact, Legal, RunSelfContained;
    InitRest(table);
    InitIntact(b, table);
    RunIntact(b, Init(table), ops);
  }

  // ------------------------------------------------------------ what this means

  /** The library's image, as its providers are now. */
  function ImageNow(b: Backend, st: State, id: nat): Mem
    requires id in st.libs
  {
    LinkedImage(b, st.libs[id], ContextOf(st, st.libs[id]))
  }

  /** After any run over self-contained files, the reservation of every listed library holds, byte for
      byte, the file as it was loaded with its entries applied, for the libraries that it needs as
      they are now. */
  lemma ImagesHold(b: Backend, table: SymTable, ops: seq<Op>, id: nat)
    requires Legal(Init(table), ops) && RunSelfContained(b, ops)
    ensures Run(Init(table), ops).Some?
    ensures var st := Run(Init(table), ops).value;
            id in st.libs && id != LIBDL ==>
              && (forall a :: Within(a, st.libs[id].base, st.libs[id].size) <==> a in ImageNow(b, st, id))
              && PartOf(ImageNow(b, st, id), st.bytes)
  {
    hide Rest, Intact, Legal, Run, RunSelfContained, PartOf;
    RunFromInit(b, table, ops);
    var st := Run(Init(table), ops).value;
    if id in st.libs && id != LIBDL {
      RestImage(b, st, id);
      ImageKeys(b, st.libs[id], ContextOf(st, st.libs[id]));
    }
  }

  // What is known of a listed library between two operations.
  ghost predicate InPlace(b: Backend, st: State, id: nat)
    requires id in st.libs
  {
    var lib, ctx := st.libs[id], ContextOf(st, st.libs[id]);
    && At(lib) && SelfContained(lib.image) && LinkedAs(lib, ctx) && AllFit(ctx, Entries(lib.image), FreshImage(b, lib))
    && PlacesDisjoint(ctx, Entries(lib.image)) && PartOf(ImageNow(b, st, id), st.bytes)
  }

  lemma RestImage(b: Backend, st: State, id: nat)
    requires Rest(st) && Intact(b, st) && id in st.libs && id != LIBDL
    ensures InPlace(b, st, id)
  {
    hide PartOf, Accepts, Bindings, AfterPasses, SelfContained, PlacesDisjoint, AllFit, Present, FreshImage;
    RestIsListed(st);
    assert ImageIn(b, st, id);
    var lib, ctx := st.libs[id], ContextOf(st, st.libs[id]);
    FreshPresent(b, lib);
    PlacesFit(lib, ctx, FreshImage(b, lib));
    PlacesApart(lib, ctx);
  }

  /** Entry i of a listed library, one that patches a word. */
  predicate IsEntry(st: State, id: nat, i: nat) {
    && id in st.libs && id != LIBDL && i < |Entries(st.libs[id].image)|
    && Entries(st.libs[id].image)[i].kind != R_ARM_NONE
  }

  /** A JUMP_SLOT or GLOB_DAT entry for a symbol. */
  predicate IsSlotEntry(st: State, id: nat, i: nat) {
    IsEntry(st, id, i) && SlotKind(Entries(st.libs[id].image)[i].kind) && Entries(st.libs[id].image)[i].sym != 0
  }

  /** The word at the place of an entry is what the entry makes of the word that was loaded there. */
  predicate WordIs(b: Backend, st: State, id: nat, i: nat)
    requires id in st.libs && i < |Entries(st.libs[id].image)|
  {
    var lib, ctx, rel := st.libs[id], ContextOf(st, st.libs[id]), Entries(st.libs[id].image)[i];
    var p, f := Place(ctx, rel), FreshImage(b, st.libs[id]);
    && rel.sym < |ctx.table.syms| && Acceptable(ctx, rel) && HasWord(f, p) && HasWord(st.bytes, p)
    && ReadWord(st.bytes, p) == NewWord(ctx, rel, ReadWord(f, p))
  }

  /** After any run over self-contained files every entry of every listed library has been applied to
      the word loaded at its place, and has stayed so: JUMP_SLOT and GLOB_DAT, ABS32, REL32 and
      RELATIVE alike. */
  lemma WordsHold(b: Backend, table: SymTable, ops: seq<Op>, id: nat, i: nat)
    requires Legal(Init(table), ops) && RunSelfContained(b, ops)
    ensures Run(Init(table), ops).Some?
    ensures var st := Run(Init(table), ops).value;
            IsEntry(st, id, i) ==> WordIs(b, st, id, i)
  {
    hide Rest, Intact, Legal, Run, RunSelfContained, WordIs;
    RunFromInit(b, table, ops);
    var st := Run(Init(table), ops).value;
    if IsEntry(st, id, i) {
      RestImage(b, st, id);
      WordHolds(b, st, id, i);
    }
  }

  lemma WordHolds(b: Backend, st: State, id: nat, i: nat)
    requires IsEntry(st, id, i) && InPlace(b, st, id)
    ensures WordIs(b, st, id, i)
  {
    hide SelfContained, PartOf, Bindings, FreshImage, PlacesDisjoint;
    var lib, ctx := st.libs[id], ContextOf(st, st.libs[id]);
    var rels, f := Entries(lib.image), FreshImage(b, lib);
    assert Acceptable(ctx, rels[i]) && Fits(ctx, rels[i], f);
    AcceptsIsAllAcceptable(ctx, rels, f);
    RelocationResult(ctx, rels, f, i);
    PartWord(Relocate(ctx, rels, f).0, st.bytes, Place(ctx, rels[i]));
  }

  lemma PartWord(f: Mem, m: Mem, p: int)
    requires PartOf(f, m) && HasWord(f, p)
    ensures HasWord(m, p) && ReadWord(m, p) == ReadWord(f, p)
  {
    assert SameByteAt(f, m, p) && SameByteAt(f, m, p + 1) && SameByteAt(f, m, p + 2) && SameByteAt(f, m, p + 3);
  }

  /** The provider is on solist, linked, counted, and not unmapped. */
  predicate IsLive(st: State, p: nat) {
    p in st.order && p in st.libs && st.libs[p].linked && st.libs[p].refCount >= 1 && StillMapped(st, p)
  }

  /** The word at the place of the entry is the address of the first definition of the entry's own
      symbol in the libraries that are needed, or 0 if it is weak and there is none. */
  predicate SlotIs(st: State, id: nat, i: nat)
    requires id in st.libs && i < |Entries(st.libs[id].image)|
  {
    var lib, ctx, rel := st.libs[id], ContextOf(st, st.libs[id]), Entries(st.libs[id].image)[i];
    && rel.sym < |ctx.table.syms| && HasWord(st.bytes, Place(ctx, rel))
    && var word := ReadWord(st.bytes, Place(ctx, rel));
       match Definition(ctx, rel.sym)
       case None => word == 0 && ctx.table.syms[rel.sym].bind == STB_WEAK
       case Some(def) =>
         && word == DefinedAddress(ctx, def) && |lib.scope| == |ctx.scope| && IsLive(st, lib.scope[def.0])
         && ctx.scope[def.0] == ProviderOf(st, lib.scope[def.0])
         && Defines(ctx.scope[def.0].table.syms[def.1], ctx.table.syms[rel.sym].name)
  }

  /** After any run over self-contained files, every JUMP_SLOT and GLOB_DAT word of every listed
      library is the run-time address of the definition of its own symbol, in a library that is on
      solist, linked, counted and not unmapped; or 0 for an unresolved weak reference. */
  lemma SlotsHoldDefinitions(b: Backend, table: SymTable, ops: seq<Op>, id: nat, i: nat)
    requires Legal(Init(table), ops) && RunSelfContained(b, ops)
    ensures Run(Init(table), ops).Some?
    ensures var st := Run(Init(table), ops).value;
            IsSlotEntry(st, id, i) ==> SlotIs(st, id, i)
  {
    hide Rest, Intact, Legal, Run, RunSelfContained, WordIs, SlotIs;
    RunFromInit(b, table, ops);
    WordsHold(b, table, ops, id, i);
    var st := Run(Init(table), ops).value;
    if IsSlotEntry(st, id, i) {
      WordIsSlot(b, st, id, i);
    }
  }

  lemma WordIsSlot(b: Backend, st: State, id: nat, i: nat)
    requires Rest(st) && IsSlotEntry(st, id, i) && WordIs(b, st, id, i)
    ensures SlotIs(st, id, i)
  {
    hide Rest;
    var lib, ctx, rel := st.libs[id], ContextOf(st, st.libs[id]), Entries(st.libs[id].image)[i];
    var def := Definition(ctx, rel.sym);
    if def.Some? {
      NeededIsLive(st, id, def.value.0);
      DefinitionDefines(ctx, rel.sym);
    }
  }

  lemma DefinitionDefines(ctx: Context, sym: nat)
    requires sym < |ctx.table.syms| && Definition(ctx, sym).Some?
    ensures var def := Definition(ctx, sym).value;
            Defines(ctx.scope[def.0].table.syms[def.1], ctx.table.syms[sym].name)
  {
    var name, def := ctx.table.syms[sym].name, Definition(ctx, sym).value;
    var t := ctx.scope[def.0].table;
    SearchIsSound(t, Head(t, HashCode(name)), |t.chain|, name);
  }

  lemma NeededIsLive(st: State, id: nat, j: nat)
    requires Rest(st) && id in st.libs && j < |st.libs[id].scope|
    ensures IsLive(st, st.libs[id].scope[j])
  {
    var p := st.libs[id].scope[j];
    assert DepAt(st, id, j);
    HeldHas(st.order, st.libs, id, p);
    assert CountedAt(st, multiset{}, p);
  }

  /** A byte of a listed library that none of its entries covers. */
  predicate IsUnpatched(st: State, id: nat, a: int) {
    && id in st.libs && id != LIBDL && Within(a, st.libs[id].base, st.libs[id].size)
    && forall i :: 0 <= i < |Entries(st.libs[id].image)| ==>
         !Covers(ContextOf(st, st.libs[id]), Entries(st.libs[id].image)[i], a)
  }

  /** After any run over self-contained files a byte of a listed library that no entry covers is what
      was loaded there. */
  lemma LoadedBytesHold(b: Backend, table: SymTable, ops: seq<Op>, id: nat, a: int)
    requires Legal(Init(table), ops) && RunSelfContained(b, ops)
    ensures Run(Init(table), ops).Some?
    ensures var st := Run(Init(table), ops).value;
            IsUnpatched(st, id, a) ==> a in st.bytes && SameByteAt(FreshImage(b, st.libs[id]), st.bytes, a)
  {
    hide Rest, Intact, Legal, Run, RunSelfContained;
    RunFromInit(b, table, ops);
    var st := Run(Init(table), ops).value;
    if IsUnpatched(st, id, a) {
      RestImage(b, st, id);
      ByteHolds(b, st, id, a);
    }
  }

  lemma ByteHolds(b: Backend, st: State, id: nat, a: int)
    requires IsUnpatched(st, id, a) && InPlace(b, st, id)
    ensures a in st.bytes && SameByteAt(FreshImage(b, st.libs[id]), st.bytes, a)
  {
    hide SelfContained, Bindings, Accepts, PlacesDisjoint, AllFit;
    var lib, ctx := st.libs[id], ContextOf(st, st.libs[id]);
    ImageKeys(b, lib, ctx);
    UncoveredByte(ctx, Entries(lib.image), FreshImage(b, lib), a);
    assert SameByteAt(ImageNow(b, st, id), st.bytes, a);
  }

  // ------------------------------------------------------------------ bindings

  /** The words at the places that were bound hold the addresses that the life cycle recorded. */
  lemma SlotsHoldLiveAddresses(b: Backend, table: SymTable, ops: seq<Op>, id: nat, i: nat)
    requires Legal(Init(table), ops) && RunSelfContained(b, ops) && Run(Init(table), ops).Some?
    requires var st := Run(Init(table), ops).value;
             id in st.libs && i < |st.libs[id].bindings| && SlotKind(st.libs[id].bindings[i].kind)
    ensures var st := Run(Init(table), ops).value;
            var s := st.libs[id].bindings[i];
            && HasWord(st.bytes, s.place) && ReadWord(st.bytes, s.place) == s.value
            && IsLive(st, s.provider) && s.sym < |st.libs[s.provider].image.table.syms|
            && s.value == Add32(st.libs[s.provider].image.table.syms[s.sym].value, st.libs[s.provider].bias)
  {
    hide Rest, Legal, Run, Intact, RunSelfContained;
    RunFromInit(b, table, ops);
    NoDanglingBindings(table, ops, id, i);
    BoundWordHolds(b, Run(Init(table), ops).value, id, i);
  }

  lemma BoundWordHolds(b: Backend, st: State, id: nat, i: nat)
    requires Rest(st) && Intact(b, st) && id in st.libs && i < |st.libs[id].bindings|
    requires SlotKind(st.libs[id].bindings[i].kind)
    ensures var s := st.libs[id].bindings[i];
            HasWord(st.bytes, s.place) && ReadWord(st.bytes, s.place) == s.value
  {
    hide Steady, Intact, SelfContained, PartOf, Accepts, AllFit, PlacesDisjoint;
    RootHasNone(st);
    RestImage(b, st, id);
    var lib, ctx := st.libs[id], ContextOf(st, st.libs[id]);
    var j := BindingHasEntry(ctx, lib.scope, Entries(lib.image), i);
    WordHolds(b, st, id, j);
  }

  lemma RootHasNone(st: State)
    requires Rest(st)
    ensures LIBDL in st.libs && st.libs[LIBDL].bindings == []
  {
  }

  predicate HasDefinition(st: State, id: nat, i: nat) {
    IsEntry(st, id, i) && IsSlot(ContextOf(st, st.libs[id]), Entries(st.libs[id].image)[i])
  }

  function SlotBindingOf(st: State, id: nat, i: nat): Binding
    requires HasDefinition(st, id, i)
  {
    SlotBinding(ContextOf(st, st.libs[id]), st.libs[id].scope, Entries(st.libs[id].image)[i])
  }

  /** And no entry with a definition, weak or not, goes unrecorded. */
  lemma EverySlotIsBound(b: Backend, table: SymTable, ops: seq<Op>, id: nat, i: nat)
    requires Legal(Init(table), ops) && RunSelfContained(b, ops)
    ensures Run(Init(table), ops).Some?
    ensures var st := Run(Init(table), ops).value;
            HasDefinition(st, id, i) ==> SlotBindingOf(st, id, i) in st.libs[id].bindings
  {
    hide Rest, Legal, Run, Intact, RunSelfContained, IsSlot, Bindings;
    RunFromInit(b, table, ops);
    var st := Run(Init(table), ops).value;
    if HasDefinition(st, id, i) {
      RestImage(b, st, id);
      SlotIsRecorded(ContextOf(st, st.libs[id]), st.libs[id].scope, Entries(st.libs[id].image), i);
    }
  }
}
