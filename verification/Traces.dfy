/** The trace of constructor and destructor runs, and what keeps it in order. */
module Traces {
  import opened Lifecycle
  import opened LifecycleInvariant
  import opened LoadingInvariant

  function Stage(e: Event): nat {
    if e.Constructed? then 0 else if e.Destructed? then 1 else 2
  }

  /** Each load of a library is constructed, destructed and unmapped in this order, and each at
      most once; it is destructed with the dependencies that it was constructed with. */
  predicate LifeLines(trace: seq<Event>) {
    forall i, j :: 0 <= i < j < |trace| && trace[i].id == trace[j].id ==> Follows(trace[i], trace[j])
  }

  predicate Follows(e: Event, f: Event) {
    Stage(e) < Stage(f) && (e.Constructed? && f.Destructed? ==> e.deps == f.deps)
  }

  /** The constructors of the library ran before position n. */
  predicate RanBefore(trace: seq<Event>, n: nat, id: nat) {
    exists k :: 0 <= k < n && k < |trace| && trace[k].Constructed? && trace[k].id == id
  }

  /** Constructors run after those of every direct dependency. */
  predicate DepsFirst(trace: seq<Event>) {
    forall i, d :: 0 <= i < |trace| && trace[i].Constructed? && d in trace[i].deps ==> RanBefore(trace, i, d)
  }

  /** Destructors run before those of every direct dependency. */
  predicate ParentsFirst(trace: seq<Event>) {
    forall i, j :: 0 <= j <= i < |trace| && trace[i].Destructed? && trace[j].Destructed? ==>
                     trace[j].id !in trace[i].deps
  }

  /** What the trace says about libraries on the list: those whose flag is set and that are not
      running now have run; those being unloaded, and only those, have run their destructors.
      A constructor event shows the library's needed array and its functions. */
  predicate Reflects(st: State, running: set<nat>, busy: set<nat>) {
    && (forall i :: 0 <= i < |st.trace| ==> st.trace[i].id < st.nextId)
    && (forall i :: 0 <= i < |st.trace| && st.trace[i].id in st.libs ==>
          EventFits(st.trace[i], st.libs[st.trace[i].id], running, busy))
    && (forall id :: id in st.libs && st.libs[id].constructed && id !in running ==>
          RanBefore(st.trace, |st.trace|, id))
  }

  predicate EventFits(e: Event, lib: Lib, running: set<nat>, busy: set<nat>) {
    match e
    case Constructed(id, deps, calls) =>
      lib.constructed && id !in running && calls == InitCalls(lib.image) && (id in busy || deps == lib.scope)
    case Destructed(id, _, _) => id in busy
    case Unmapped(_) => false
  }

  predicate Traced(st: State, running: set<nat>, busy: set<nat>) {
    LifeLines(st.trace) && DepsFirst(st.trace) && ParentsFirst(st.trace) && Reflects(st, running, busy)
  }

  /** Flags are closed under DT_NEEDED, but for the libraries whose constructors run now. */
  predicate FlagsClosed(st: State, running: set<nat>) {
    forall id, d :: id in st.libs && st.libs[id].constructed && d in st.libs && d in st.libs[id].scope ==>
      id in running || st.libs[d].constructed
  }

  // --------------------------------------------------------------- extending

  lemma RanBeforeExtends(s: seq<Event>, t: seq<Event>, n: nat, m: nat, id: nat)
    requires s <= t && n <= m && n <= |s| && RanBefore(s, n, id)
    ensures RanBefore(t, m, id)
  {
    var k :| 0 <= k < n && k < |s| && s[k].Constructed? && s[k].id == id;
    assert t[k] == s[k];
  }

  lemma DepsFirstExtends(s: seq<Event>, e: Event)
    requires DepsFirst(s) && (e.Constructed? ==> forall d :: d in e.deps ==> RanBefore(s, |s|, d))
    ensures DepsFirst(s + [e])
  {
    var t := s + [e];
    forall i, d | 0 <= i < |t| && t[i].Constructed? && d in t[i].deps
      ensures RanBefore(t, i, d)
    {
      if i < |s| {
        RanBeforeExtends(s, t, i, i, d);
      } else {
        RanBeforeExtends(s, t, |s|, |s|, d);
      }
    }
  }

  lemma QuietDepsFirst(s: State, t: State)
    requires Quiet(s, t) && DepsFirst(s.trace)
    ensures DepsFirst(t.trace)
  {
    forall i, d | 0 <= i < |t.trace| && t.trace[i].Constructed? && d in t.trace[i].deps
      ensures RanBefore(t.trace, i, d)
    {
      assert i < |s.trace| && t.trace[i] == s.trace[i];
      RanBeforeExtends(s.trace, t.trace, i, i, d);
    }
  }

  /** A load leaves the trace in order. */
  lemma OpensTraced(s: State, t: State)
    requires Listed(s) && Listed(t) && Grows(s, t, -1) && Opens(s, t, -1) && Traced(s, {}, {})
    ensures Traced(t, {}, {})
  {
    assert forall i :: 0 <= i < |s.trace| ==> t.trace[i] == s.trace[i];
    QuietDepsFirst(s, t);
    assert ParentsFirst(t.trace);
    assert LifeLines(t.trace);
    forall i | 0 <= i < |t.trace| && t.trace[i].id in t.libs
      ensures EventFits(t.trace[i], t.libs[t.trace[i].id], {}, {})
    {
      assert i < |s.trace|;
      assert s.trace[i].id in s.libs;
      assert Same(s.libs[s.trace[i].id], t.libs[s.trace[i].id]);
    }
    forall id | id in t.libs && t.libs[id].constructed
      ensures RanBefore(t.trace, |t.trace|, id)
    {
      RanBeforeExtends(s.trace, t.trace, |s.trace|, |t.trace|, id);
    }
  }

  lemma OpensFlagsClosed(s: State, t: State)
    requires Grows(s, t, -1) && Opens(s, t, -1) && FlagsClosed(s, {}) && Deps(s)
    ensures FlagsClosed(t, {})
  {
    forall id, d | id in t.libs && t.libs[id].constructed && d in t.libs && d in t.libs[id].scope
      ensures t.libs[d].constructed
    {
      assert id in s.libs && Same(s.libs[id], t.libs[id]);
      var i :| 0 <= i < |s.libs[id].scope| && s.libs[id].scope[i] == d;
      assert DepAt(s, id, i);
      assert d in s.libs && Same(s.libs[d], t.libs[d]);
    }
  }
}
