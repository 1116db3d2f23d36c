/** Which failed opens leak, as a guard on the files and the list, and what that means for whole
    runs. */
module Leaks {
  import opened Base
  import opened Symbols
  import opened Segments
  import opened HeaderTable
  import opened Inputs
  import opened Lifecycle
  import opened LifecycleInvariant
  import opened LifecycleSteps
  import opened LoadingInvariant
  import opened Runs
  import opened LifecycleTheorems
  import opened FailedLinks

  /** Opening the name comes to nothing before any count has been taken: it is listed already, it
      does not load, or it stops linking before a count is taken. */
  predicate TakesNothing(env: Env, name: string, st: State)
    requires Listed(st)
    decreases Room(env, st), 0
  {
    FindLoaded(st, name).Some? ||
    var (s, r) := LoadLibrary(env, name, st);
    r.None? || (RoomShrinks(env, name, st, s, r.value); LinkTakesNothing(env, r.value, s))
  }

  /** It cannot be linked or needs nothing, or the first library that it needs cannot be had and
      itself takes nothing. */
  predicate LinkTakesNothing(env: Env, id: nat, s: State)
    requires Listed(s) && id in s.libs
    decreases Room(env, s), 1
  {
    var image := s.libs[id].image;
    !Linkable(image) || image.needed == [] ||
    (FindLibrary(env, image.needed[0], s).1.None? && TakesNothing(env, image.needed[0], s))
  }

  // ------------------------------------------------------------ one open

  // The library that load_library entered, before it is linked.
  ghost predicate Fresh(st: State, s: State, id: nat, owed: multiset<nat>, busy: set<nat>) {
    && Inv(s, owed, -1, busy) && id in s.libs && id != LIBDL && s.leaked == st.leaked
    && s.libs[id].scope == [] && s.libs[id].bindings == [] && !s.libs[id].linked
  }

  lemma LoadedIsFresh(env: Env, name: string, st: State, owed: multiset<nat>, busy: set<nat>)
    requires Inv(st, owed, -1, busy) && FindLoaded(st, name).None?
    ensures var (s, r) := LoadLibrary(env, name, st);
            s.leaked == st.leaked && (r.Some? ==> Fresh(st, s, r.value, owed, busy))
  {
    LoadLibraryKeeps(env, name, st, owed, busy);
  }

  /** The needed array is only ever extended. */
  lemma {:induction false} ScopeKept(env: Env, id: nat, s: State)
    requires Listed(s) && id in s.libs
    ensures id in LoadNeeded(env, id, s).0.libs && s.libs[id].scope <= LoadNeeded(env, id, s).0.libs[id].scope
    decreases |s.libs[id].image.needed| - |s.libs[id].scope|
  {
    if |s.libs[id].scope| < |s.libs[id].image.needed| {
      LoadNeededStep(env, id, s);
      var (t, dep) := FindLibrary(env, s.libs[id].image.needed[|s.libs[id].scope|], s);
      if dep.Some? {
        ScopeKept(env, id, AddNeeded(t, id, dep.value));
      }
    } else {
      LoadNeededDone(env, id, s);
    }
  }

  lemma FinishKeepsScope(env: Env, id: nat, s: State)
    requires Listed(s) && id in s.libs
    ensures var r := FinishLink(env, id, s);
            id in r.0.libs && r.0.libs[id].scope == s.libs[id].scope && r.0.leaked == s.leaked
  {
    FinishLinkCases(env, id, s);
  }

  /** Linking what cannot be linked, or needs nothing, takes no count. */
  lemma NothingNeeded(env: Env, id: nat, s: State)
    requires Listed(s) && id in s.libs && s.libs[id].scope == []
    requires !Linkable(s.libs[id].image) || s.libs[id].image.needed == []
    ensures var u := LinkImage(env, id, s).0;
            id in u.libs && u.leaked == s.leaked && u.libs[id].scope == []
  {
    LinkImageStep(env, id, s);
    if Linkable(s.libs[id].image) {
      LoadNeededDone(env, id, s);
      FinishKeepsScope(env, id, s);
    }
  }

  /** Linking that stops at the first dependency leaves what the search for that one left. */
  lemma FirstFails(env: Env, id: nat, s: State)
    requires Listed(s) && id in s.libs && s.libs[id].scope == [] && Linkable(s.libs[id].image)
    requires s.libs[id].image.needed != [] && FindLibrary(env, s.libs[id].image.needed[0], s).1.None?
    ensures var t := FindLibrary(env, s.libs[id].image.needed[0], s).0;
            LinkImage(env, id, s) == (t, false) && id in t.libs && t.libs[id].scope == []
  {
    LoadNeededStep(env, id, s);
    LinkImageStep(env, id, s);
  }

  /** Once the first dependency is had, its count is taken, whatever happens next. */
  lemma FirstTaken(env: Env, id: nat, s: State)
    requires Listed(s) && id in s.libs && s.libs[id].scope == [] && Linkable(s.libs[id].image)
    requires s.libs[id].image.needed != [] && FindLibrary(env, s.libs[id].image.needed[0], s).1.Some?
    ensures var u := LinkImage(env, id, s).0; id in u.libs && |u.libs[id].scope| >= 1
  {
    var (t, dep) := FindLibrary(env, s.libs[id].image.needed[0], s);
    LoadNeededStep(env, id, s);
    LinkImageStep(env, id, s);
    ScopeKept(env, id, AddNeeded(t, id, dep.value));
    var (n, ok) := LoadNeeded(env, id, s);
    if ok {
      FinishKeepsScope(env, id, n);
    }
  }

  lemma MoreIsLeaked(before: multiset<nat>, taken: multiset<nat>, scope: seq<nat>)
    requires before <= taken && |scope| >= 1
    ensures taken + multiset(scope) != before
  {
    assert scope[0] in multiset(scope);
    assert (taken + multiset(scope))[scope[0]] > before[scope[0]];
  }

  /** A search that finds nothing leaks nothing exactly when it takes nothing. */
  lemma {:induction false} LeaksUnlessNothingTaken(env: Env, name: string, st: State, owed: multiset<nat>,
                                                   busy: set<nat>)
    requires Inv(st, owed, -1, busy) && FindLibrary(env, name, st).1.None?
    ensures FindLibrary(env, name, st).0.leaked == st.leaked <==> TakesNothing(env, name, st)
    decreases Room(env, st), 0
  {
    if FindLoaded(st, name).Some? {
      ListedTakesNothing(env, name, st);
    } else {
      LoadedIsFresh(env, name, st, owed, busy);
      FailedFindIs(env, name, st);
      var (s, r) := LoadLibrary(env, name, st);
      if r.Some? {
        RoomShrinks(env, name, st, s, r.value);
        FailedLinkLeaksUnless(env, name, st, s, r.value, owed, busy);
      }
      LeaksAsLinked(env, name, st, s, r);
    }
  }

  /** The search leaks as its own link does. */
  lemma LeaksAsLinked(env: Env, name: string, st: State, s: State, r: Option<nat>)
    requires Listed(st) && FindLoaded(st, name).None? && LoadLibrary(env, name, st) == (s, r)
    requires r.None? ==> FindLibrary(env, name, st).0 == s && s.leaked == st.leaked
    requires r.Some? ==> LinkImage(env, r.value, s).1 == false && r.value in LinkImage(env, r.value, s).0.libs
    requires r.Some? ==> FindLibrary(env, name, st).0 == Discard(LinkImage(env, r.value, s).0, r.value)
    requires r.Some? ==>
               (Discard(LinkImage(env, r.value, s).0, r.value).leaked == st.leaked <==>
                LinkTakesNothing(env, r.value, s))
    ensures FindLibrary(env, name, st).0.leaked == st.leaked <==> TakesNothing(env, name, st)
  {
  }

  lemma ListedTakesNothing(env: Env, name: string, st: State)
    requires Listed(st) && FindLoaded(st, name).Some? && FindLibrary(env, name, st).1.None?
    ensures FindLibrary(env, name, st).0 == st
  {
    FindLibraryStep(env, name, st);
  }

  lemma FailedFindIs(env: Env, name: string, st: State)
    requires Listed(st) && FindLoaded(st, name).None? && FindLibrary(env, name, st).1.None?
    ensures var (s, r) := LoadLibrary(env, name, st);
            if r.None? then FindLibrary(env, name, st).0 == s
            else
              var (u, ok) := LinkImage(env, r.value, s);
              !ok && r.value in u.libs && FindLibrary(env, name, st).0 == Discard(u, r.value)
  {
    FindLibraryStep(env, name, st);
    FindInternalStep(env, name, st);
  }

  /** The same for the library that was loaded under the name and did not link. */
  lemma {:induction false} FailedLinkLeaksUnless(env: Env, name: string, st: State, s: State, id: nat,
                                                 owed: multiset<nat>, busy: set<nat>)
    requires Fresh(st, s, id, owed, busy) && !LinkImage(env, id, s).1
    ensures var u := LinkImage(env, id, s).0;
            id in u.libs &&
            (Discard(u, id).leaked == st.leaked <==> LinkTakesNothing(env, id, s))
    decreases Room(env, s), 1
  {
    var image := s.libs[id].image;
    LinkImageKeeps(env, id, s, owed, busy);
    if !Linkable(image) || image.needed == [] {
      NothingNeeded(env, id, s);
    } else if FindLibrary(env, image.needed[0], s).1.None? {
      FirstFails(env, id, s);
      LeaksUnlessNothingTaken(env, image.needed[0], s, owed, busy);
    } else {
      FirstTaken(env, id, s);
      var u := LinkImage(env, id, s).0;
      MoreIsLeaked(st.leaked, u.leaked, u.libs[id].scope);
    }
  }

  // ---------------------------------------------------------------- whole runs

  /** The open fails, if it does, before it has taken a count. */
  predicate OpenTakesNothing(env: Env, name: Option<string>, flags: int, st: State)
    requires Listed(st)
  {
    ValidFlags(flags) && name.Some? && FindLibrary(env, name.value, st).1.None? ==> TakesNothing(env, name.value, st)
  }

  lemma OpenLeaksUnless(env: Env, name: Option<string>, flags: int, st: State)
    requires Rest(st)
    ensures Opened(st, DoDlopen(env, name, flags, st))
    ensures DoDlopen(env, name, flags, st).value.0.leaked == st.leaked <==> OpenTakesNothing(env, name, flags, st)
  {
    OpenRest(env, name, flags, st);
    if ValidFlags(flags) && name.Some? {
      DoDlopenStep(env, name.value, flags, st);
      if FindLibrary(env, name.value, st).1.None? {
        LeaksUnlessNothingTaken(env, name.value, st, multiset{}, {});
      } else {
        OpenFound(env, name.value, flags, st);
      }
    }
  }

  lemma OpenFound(env: Env, name: string, flags: int, st: State)
    requires Rest(st) && ValidFlags(flags) && FindLibrary(env, name, st).1.Some?
    ensures var r := DoDlopen(env, Some(name), flags, st); r.Some? && r.value.1.Some?
  {
    OpenRest(env, Some(name), flags, st);
    DoDlopenStep(env, name, flags, st);
    var (s, r) := FindLibrary(env, name, st);
    HandOutStep(s, r.value);
  }

  /** A failed open leaves every library and every count as it was exactly when it took nothing. */
  lemma FailedOpenRestoresIff(env: Env, name: string, st: State)
    requires Rest(st) && FindLibrary(env, name, st).1.None?
    ensures var t := FindLibrary(env, name, st).0;
            t.order == st.order && t.libs == st.libs <==> TakesNothing(env, name, st)
  {
    FailedFindRestores(env, name, st);
    LeaksUnlessNothingTaken(env, name, st, multiset{}, {});
  }

  /** Every open of the run that failed took nothing. */
  predicate FailuresTakeNothing(st: State, ops: seq<Op>)
    requires Listed(st)
    decreases |ops|
  {
    ops == [] ||
    (&& (ops[0].Open? ==> OpenTakesNothing(ops[0].env, ops[0].name, ops[0].flags, st))
     && var s := Step(st, ops[0]); s.Some? ==> FailuresTakeNothing(s.value, ops[1..]))
  }

  lemma StepLeaksUnless(st: State, op: Op)
    requires Rest(st) && (op.Close? ==> op.id in st.handles)
    ensures Step(st, op).Some? && Rest(Step(st, op).value) && st.leaked <= Step(st, op).value.leaked
    ensures Step(st, op).value.leaked == st.leaked <==>
            (op.Open? ==> OpenTakesNothing(op.env, op.name, op.flags, st))
  {
    hide Rest, DoDlopen, DoDlclose, OpenTakesNothing;
    StepRest(st, op);
    match op
    case Close(id) => CloseRest(st, id);
    case Open(env, name, flags) => OpenLeaksUnless(env, name, flags, st);
  }

  /** What leaks never comes back: a run leaks nothing exactly when each of its failed opens took
      nothing. */
  lemma {:induction false} RunLeaksUnless(st: State, ops: seq<Op>)
    requires Rest(st) && Legal(st, ops)
    ensures Run(st, ops).Some? && st.leaked <= Run(st, ops).value.leaked
    ensures Run(st, ops).value.leaked == st.leaked <==> FailuresTakeNothing(st, ops)
    decreases |ops|
  {
    if ops != [] {
      StepLeaksUnless(st, ops[0]);
      RunLeaksUnless(Step(st, ops[0]).value, ops[1..]);
    }
  }

  /** solist is back to libdl_info alone, with its original count, exactly when every handle has
      been closed and every failed open took nothing; and then all that is still mapped is what loads
      that failed half-way left. */
  lemma RunRestoresIff(table: SymTable, ops: seq<Op>)
    requires Legal(Init(table), ops)
    ensures Run(Init(table), ops).Some?
    ensures var st := Run(Init(table), ops).value;
            && (st.order == [LIBDL] && LIBDL in st.libs && st.libs[LIBDL].refCount == 0xffffff
                <==> st.handles == multiset{} && FailuresTakeNothing(Init(table), ops))
            && (st.order == [LIBDL] ==> st.mapped == st.stranded)
  {
    hide Rest, Run, Legal, FailuresTakeNothing;
    InitRest(table);
    RunLeaksUnless(Init(table), ops);
    BalancedIffNothingHeld(table, ops);
    RunsAreSafe(Init(table), ops);
    if Run(Init(table), ops).value.order == [LIBDL] {
      EmptyListIsUnmapped(Run(Init(table), ops).value);
    }
  }

  // ------------------------------------------------------------------- an input

  // One page, linkable, and two DT_NEEDED entries.
  const NEEDY := PageImage(0).(table := SymTable([], [0], []), needed := ["libdl.so", "x"])

  const ENV: Env := Env(map["a" := NEEDY], Posix, t => true, t => 0x10000)

  lemma NeedyLoads(table: SymTable)
    ensures var st := Init(table);
            && FindLoaded(st, "a").None? && LoadLibrary(ENV, "a", st).1 == Some(1)
            && MissingSecond(ENV, "a", st, LIBDL)
  {
    hide WithImage, Placed, ElfFile;
    PlainName("a", 1);
    PlainName("x", 1);
    PlainName("libdl.so", 8);
    PageIsFile(0);
  }

  /** The file "a" needs libdl.so and "x", which is missing: opening it in the initial state fails,
      and leaves libdl.so with a count that no close will take back. */
  lemma MissingFileLeaks(table: SymTable)
    ensures var st := Init(table);
            var (t, r) := FindLibrary(ENV, "a", st);
            && IsFile(NEEDY) && MissingSecond(ENV, "a", st, LIBDL) && !TakesNothing(ENV, "a", st)
            && r == None && t.order == [LIBDL] && LIBDL in t.libs && t.libs[LIBDL].refCount == LIBDL_REFS + 1
            && t.handles == multiset{}
  {
    hide Rest, Inv, MissingSecond, FindLibrary, LoadLibrary, TakesNothing, IsFile;
    PageIsFile(0);
    SameFile(PageImage(0), NEEDY);
    var st := Init(table);
    InitRest(table);
    InitIsInvariant(table);
    NeedyLoads(table);
    FailedLinkLeaks(ENV, "a", st, LIBDL);
    LeaksUnlessNothingTaken(ENV, "a", st, multiset{}, {});
  }
}
