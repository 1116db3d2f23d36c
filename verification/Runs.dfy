/** Whole runs: any sequence of opens, successful or not, and of closes of held handles. */
module Runs {
  import opened Base
  import opened Symbols
  import opened Lifecycle
  import opened LifecycleInvariant
  import opened LoadingInvariant
  import opened Traces
  import opened ConstructorInvariant
  import opened UnloadInvariant

  datatype Op = Open(env: Env, name: Option<string>, flags: int) | Close(id: nat)

  /** What every state between two operations satisfies. */
  ghost predicate Rest(st: State) {
    Steady(st, multiset{}, {})
  }

  function Step(st: State, op: Op): (r: Option<State>)
    requires Listed(st)
    ensures r.Some? ==> Listed(r.value)
  {
    match op
    case Close(id) => DoDlclose(st, id)
    case Open(env, name, flags) =>
      match DoDlopen(env, name, flags, st)
      case None => None
      case Some(r) => Some(r.0)
  }

  function Run(st: State, ops: seq<Op>): (r: Option<State>)
    requires Listed(st)
    ensures r.Some? ==> Listed(r.value)
    decreases |ops|
  {
    if ops == [] then Some(st)
    else match Step(st, ops[0])
      case None => None
      case Some(s) => Run(s, ops[1..])
  }

  /** Only handles that are held are closed. */
  predicate Legal(st: State, ops: seq<Op>)
    requires Listed(st)
    decreases |ops|
  {
    ops == [] ||
    ((ops[0].Close? ==> ops[0].id in st.handles) &&
     var s := Step(st, ops[0]); s.Some? ==> Legal(s.value, ops[1..]))
  }

  // ------------------------------------------------------------- one open

  // The count owed to the caller of do_dlopen has become a handle.
  predicate Handed(s: State, t: State, id: nat) {
    t == s.(handles := s.handles + multiset{id})
  }

  lemma HandedCountedAt(s: State, t: State, id: nat, x: nat)
    requires Known(s.order, s.libs) && CountedAt(s, multiset{} + multiset{id}, x) && Handed(s, t, id)
    ensures CountedAt(t, multiset{}, x)
  {
  }

  lemma HandedKeeps(s: State, t: State, id: nat)
    requires Inv(s, multiset{} + multiset{id}, -1, {}) && Handed(s, t, id)
    ensures Inv(t, multiset{}, -1, {})
  {
    SameSound(s, t, {});
    forall x: nat {
      HandedCountedAt(s, t, id, x);
    }
  }

  lemma RestIsReady(st: State)
    requires Rest(st)
    ensures Ready(st) && InOrder(st, {})
  {
  }

  lemma RestIsListed(st: State)
    requires Rest(st)
    ensures Listed(st) && forall id :: id in st.libs ==> st.libs[id].linked
  {
  }

  lemma RunIsRest(s: State, t: State)
    requires Rest(s) && OnlyFlags(s, t) && InOrder(t, {})
    ensures Rest(t)
  {
    hide Deps, Placed, Accounted, Bound, Counted;
    FlagsSameFrame(s, t);
    SameSound(s, t, {});
    CountedSame(s, t, multiset{});
  }

  lemma ConstructorsRest(s: State, id: nat)
    requires Rest(s) && id in s.libs
    ensures CallConstructors(s, id).Some? && Rest(CallConstructors(s, id).value)
    ensures CallConstructors(s, id).value.libs[id].constructed
  {
    hide Rest, Ready, InOrder, OnlyFlags, CallConstructors;
    RestIsListed(s);
    RestIsReady(s);
    ConstructorsRun(s, id, {});
    RunIsRest(s, CallConstructors(s, id).value);
  }

  /** From rest, find_library and the handle it becomes lead to rest. */
  lemma OpenedRest(st: State, s: State, r: Option<nat>)
    requires Rest(st) && Listed(s) && Grows(st, s, -1) && Takes(st, s, r, multiset{}, {})
    ensures r.None? ==> Rest(s)
    ensures r.Some? ==> Rest(s.(handles := s.handles + multiset{r.value}))
  {
    OpensTraced(st, s);
    OpensFlagsClosed(st, s);
    OpensNoneUnlinked(st, s);
    if r.Some? {
      HandedRest(s, s.(handles := s.handles + multiset{r.value}), r.value);
    }
  }

  lemma OpensNoneUnlinked(st: State, s: State)
    requires NoneUnlinked(st) && Grows(st, s, -1) && Opens(st, s, -1)
    ensures NoneUnlinked(s)
  {
    forall id | id in s.libs
      ensures s.libs[id].linked
    {
      assert id in st.libs ==> Same(st.libs[id], s.libs[id]);
    }
  }

  lemma HandedRest(s: State, t: State, id: nat)
    requires Inv(s, multiset{} + multiset{id}, -1, {}) && NoneUnlinked(s) && FlagsClosed(s, {}) && Traced(s, {}, {})
    requires Handed(s, t, id)
    ensures Rest(t)
  {
    HandedKeeps(s, t, id);
  }

  /** An open that ended at rest. On success the handle is held once more and nothing has
      been lost; on failure the handles are as before. */
  ghost predicate Opened(st: State, r: Option<(State, Option<nat>)>) {
    && r.Some? && Rest(r.value.0)
    && match r.value.1
       case None => r.value.0.handles == st.handles && st.leaked <= r.value.0.leaked
       case Some(id) =>
         r.value.0.handles == st.handles + multiset{id} && NothingLost(st, r.value.0) && id in r.value.0.libs
  }

  lemma HandOutRest(st: State, s: State, r: Option<nat>)
    requires Rest(st) && Listed(s) && Grows(st, s, -1) && Takes(st, s, r, multiset{}, {})
    ensures Opened(st, HandOut(s, r))
  {
    OpenedRest(st, s, r);
    if r.Some? {
      HandleRest(st, s, s.(handles := s.handles + multiset{r.value}), r.value);
    }
  }

  lemma HandleRest(st: State, s: State, t: State, id: nat)
    requires Listed(s) && id in s.libs && s.handles == st.handles && NothingLost(st, s)
    requires Handed(s, t, id) && Rest(t)
    ensures Opened(st, HandOut(s, Some(id)))
  {
    hide Steady;
    if t.libs[id].name !in NO_CONSTRUCTORS {
      ConstructorsRest(t, id);
    }
  }

  lemma OpenRest(env: Env, name: Option<string>, flags: int, st: State)
    requires Rest(st)
    ensures Opened(st, DoDlopen(env, name, flags, st))
  {
    if ValidFlags(flags) && name.Some? {
      FindLibraryKeeps(env, name.value, st, multiset{}, {});
      var (s, r) := FindLibrary(env, name.value, st);
      HandOutRest(st, s, r);
      assert DoDlopen(env, name, flags, st) == HandOut(s, r);
    }
  }

  // ------------------------------------------------------------ one close

  lemma HandleIsOwed(st: State, id: nat)
    requires Rest(st) && id in st.handles
    ensures Steady(st.(handles := st.handles - multiset{id}), multiset{} + multiset{id}, {})
    ensures id in st.libs
  {
    hide AsLoaded, Held;
    hide Deps, Placed, Accounted, Bound;
    var s := st.(handles := st.handles - multiset{id});
    SameSound(st, s, {});
    forall x: nat
      ensures CountedAt(s, multiset{} + multiset{id}, x)
    {
      assert CountedAt(st, multiset{}, x);
    }
    assert CountedAt(st, multiset{}, id);
  }

  /** A close of a held handle ends at rest and gives back that handle, and nothing leaks. */
  lemma CloseRest(st: State, id: nat)
    requires Rest(st) && id in st.handles
    ensures var r := DoDlclose(st, id);
            r.Some? && Rest(r.value) && r.value.handles == st.handles - multiset{id} && NothingLost(st, r.value)
  {
    HandleIsOwed(st, id);
    UnloadKeeps(st.(handles := st.handles - multiset{id}), id, multiset{}, {});
  }

  // ---------------------------------------------------------------- runs

  lemma InitRest(table: SymTable)
    ensures Rest(Init(table))
  {
    InitIsInvariant(table);
  }

  /** No run ever dereferences a null pointer or recurses without end, and every run ends in a
      state at rest. */
  lemma {:induction false} RunsAreSafe(st: State, ops: seq<Op>)
    requires Rest(st) && Legal(st, ops)
    ensures Run(st, ops).Some? && Rest(Run(st, ops).value)
    decreases |ops|
  {
    if ops != [] {
      StepRest(st, ops[0]);
      RunsAreSafe(Step(st, ops[0]).value, ops[1..]);
    }
  }

  lemma StepRest(st: State, op: Op)
    requires Rest(st) && (op.Close? ==> op.id in st.handles)
    ensures Step(st, op).Some? && Rest(Step(st, op).value)
  {
    hide Rest, DoDlopen, DoDlclose;
    match op
    case Close(id) => CloseRest(st, id);
    case Open(env, name, flags) => OpenRest(env, name, flags, st);
  }
}
