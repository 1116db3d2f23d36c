/** Constructors run to the end, dependencies first, once each. */
module ConstructorInvariant {
  import opened Base
  import opened Lifecycle
  import opened LifecycleInvariant
  import opened Traces

  /** Between operations every library on the list is linked, with its whole needed array. */
  predicate AllLinked(st: State) {
    forall id :: id in st.libs ==> st.libs[id].linked && Complete(st.libs[id])
  }

  predicate Ready(st: State) {
    Shape(st) && Deps(st) && AllLinked(st)
  }

  lemma FlagsSameFrame(s: State, t: State)
    requires OnlyFlags(s, t)
    ensures SameFrame(s, t)
  {
  }

  lemma ReadyStays(s: State, t: State)
    requires Ready(s) && OnlyFlags(s, t)
    ensures Ready(t)
  {
    FlagsSameFrame(s, t);
    SameShape(s, t);
    SameDeps(s, t);
    forall id | id in t.libs
      ensures t.libs[id].linked && Complete(t.libs[id])
    {
      assert SameButMarks(s.libs[id], t.libs[id]);
    }
  }

  /** find_loaded_library finds, for the i-th DT_NEEDED name, the library bound at link time. */
  lemma NeededIsLoaded(st: State, id: nat, i: nat)
    requires Shape(st) && id in st.libs && i < |st.libs[id].scope| && DepAt(st, id, i)
    ensures FindLoaded(st, st.libs[id].image.needed[i]) == Some(st.libs[id].scope[i])
  {
    var dep, name := st.libs[id].scope[i], st.libs[id].image.needed[i];
    assert st.libs[dep].name == Basename(name);
    assert Basename(name) in Names(st);
  }

  /** The libraries whose constructors are under way, all linked after the given one. */
  predicate RunningAbove(st: State, running: set<nat>, id: nat)
    requires id in st.libs
  {
    forall x :: x in running ==> x in st.libs && st.libs[x].rank >= st.libs[id].rank
  }

  /** Flags and trace agree and are in order. */
  predicate InOrder(st: State, running: set<nat>) {
    FlagsClosed(st, running) && Traced(st, running, {})
  }

  lemma StartRunning(st: State, running: set<nat>, id: nat)
    requires id in st.libs && !st.libs[id].constructed && InOrder(st, running)
    ensures InOrder(SetConstructed(st, id), running + {id})
  {
    var s := SetConstructed(st, id);
    forall i | 0 <= i < |s.trace| && s.trace[i].id in s.libs
      ensures EventFits(s.trace[i], s.libs[s.trace[i].id], running + {id}, {})
    {
      assert EventFits(st.trace[i], st.libs[st.trace[i].id], running, {});
    }
  }

  lemma StopRunning(st: State, running: set<nat>, id: nat)
    requires Listed(st) && id in st.libs && st.libs[id].constructed && id !in running
    requires InOrder(st, running + {id})
    requires forall d :: d in st.libs[id].scope ==> d in st.libs && st.libs[d].constructed && d !in running && d != id
    ensures InOrder(LogConstructed(st, id), running)
  {
    var t := LogConstructed(st, id);
    var e := t.trace[|st.trace|];
    DepsFirstExtends(st.trace, e);
    assert forall i :: 0 <= i < |st.trace| ==> t.trace[i] == st.trace[i];
    forall i | 0 <= i < |t.trace| && t.trace[i].id in t.libs
      ensures EventFits(t.trace[i], t.libs[t.trace[i].id], running, {})
    {
      if i < |st.trace| {
        assert EventFits(st.trace[i], st.libs[st.trace[i].id], running + {id}, {});
      }
    }
    forall i | 0 <= i < |st.trace|
      ensures st.trace[i].id != id
    {
      assert st.trace[i].id in st.libs ==> EventFits(st.trace[i], st.libs[st.trace[i].id], running + {id}, {});
    }
    forall x | x in t.libs && t.libs[x].constructed && x !in running
      ensures RanBefore(t.trace, |t.trace|, x)
    {
      if x == id {
        assert t.trace[|st.trace|].id == id;
      } else {
        RanBeforeExtends(st.trace, t.trace, |st.trace|, |t.trace|, x);
      }
    }
  }

  /** A run of constructors below the ones under way: it meets no null pointer, and leaves flags
      and trace in order. */
  predicate Ran(st: State, r: Option<State>, running: set<nat>) {
    r.Some? && OnlyFlags(st, r.value) && Ready(r.value) && InOrder(r.value, running)
  }

  lemma RanStep(st: State, s: State, r: Option<State>, running: set<nat>)
    requires OnlyFlags(st, s) && Ran(s, r, running)
    ensures Ran(st, r, running)
  {
    FlagsStep(st, s, r.value);
  }

  predicate Constructed(st: State, ids: seq<nat>) {
    forall j :: 0 <= j < |ids| ==> ids[j] in st.libs && st.libs[ids[j]].constructed
  }

  /** CallConstructors sets the flag of the library and of its whole needed array. */
  lemma {:induction false} ConstructorsRun(st: State, id: nat, running: set<nat>)
    requires Ready(st) && InOrder(st, running) && id in st.libs && RunningAbove(st, running, id)
    requires id !in running
    ensures Ran(st, CallConstructors(st, id), running)
    ensures CallConstructors(st, id).value.libs[id].constructed
    decreases |Unset(st)|, 0, 0
  {
    hide ConstructNeeded, CallConstructors, InOrder;
    ConstructorsUnfold(st, id);
    if !st.libs[id].constructed {
      var s := SetConstructed(st, id);
      FlagsListed(st, s);
      UnsetShrinks(st, id);
      ReadyStays(st, s);
      StartRunning(st, running, id);
      NeededRun(s, id, 0, running + {id});
      var t := ConstructNeeded(s, id, 0).value;
      RunCompletes(st, s, t, id, running);
    }
  }

  lemma ConstructorsUnfold(st: State, id: nat)
    requires Listed(st) && id in st.libs
    ensures var s := SetConstructed(st, id);
            if st.libs[id].constructed then CallConstructors(st, id) == Some(st)
            else
              Listed(s) && (ConstructNeeded(s, id, 0).Some? ==>
                id in ConstructNeeded(s, id, 0).value.libs &&
                CallConstructors(st, id) == Some(LogConstructed(ConstructNeeded(s, id, 0).value, id)))
  {
    FlagsListed(st, SetConstructed(st, id));
  }

  lemma RunCompletes(st: State, s: State, t: State, id: nat, running: set<nat>)
    requires OnlyFlags(st, s) && OnlyFlags(s, t) && Ready(st) && Ready(t) && InOrder(t, running + {id})
    requires id in st.libs && id !in running && RunningAbove(st, running, id)
    requires s.libs[id].constructed && Constructed(t, t.libs[id].scope)
    ensures Ran(st, Some(LogConstructed(t, id)), running)
  {
    var u := LogConstructed(t, id);
    FlagsStep(st, s, t);
    FlagsStep(st, t, u);
    ReadyStays(st, u);
    DepsBelow(st, id, running);
    forall d | d in t.libs[id].scope
      ensures t.libs[d].constructed
    {
      var j :| 0 <= j < |t.libs[id].scope| && t.libs[id].scope[j] == d;
    }
    StopRunning(t, running, id);
  }

  lemma DepsBelow(st: State, id: nat, running: set<nat>)
    requires Ready(st) && id in st.libs && RunningAbove(st, running, id)
    ensures forall d :: d in st.libs[id].scope ==> d in st.libs && d !in running && d != id
  {
    forall d | d in st.libs[id].scope
      ensures d in st.libs && d !in running && d != id
    {
      var i :| 0 <= i < |st.libs[id].scope| && st.libs[id].scope[i] == d;
      assert DepAt(st, id, i);
    }
  }

  lemma {:induction false} NeededRun(st: State, id: nat, i: nat, running: set<nat>)
    requires Ready(st) && InOrder(st, running) && id in st.libs && RunningAbove(st, running, id)
    requires i <= |st.libs[id].scope| && Constructed(st, st.libs[id].scope[..i])
    ensures Ran(st, ConstructNeeded(st, id, i), running)
    ensures var t := ConstructNeeded(st, id, i).value; Constructed(t, t.libs[id].scope)
    decreases |Unset(st)|, 1, |st.libs[id].image.needed| - i
  {
    hide Deps, InOrder, RunningAbove, ConstructNeeded, CallConstructors;
    var scope := st.libs[id].scope;
    NeededUnfolds(st, id, i);
    if i == |scope| {
      assert scope[..i] == scope;
    } else {
      NextRuns(st, id, i, running);
      var s := CallConstructors(st, scope[i]).value;
      NeededRun(s, id, i + 1, running);
      RanStep(st, s, ConstructNeeded(s, id, i + 1), running);
    }
  }

  lemma NeededUnfolds(st: State, id: nat, i: nat)
    requires Listed(st) && id in st.libs && i <= |st.libs[id].image.needed|
    ensures if i == |st.libs[id].image.needed| then ConstructNeeded(st, id, i) == Some(st)
            else
              var dep := FindLoaded(st, st.libs[id].image.needed[i]);
              dep.Some? && CallConstructors(st, dep.value).Some? ==>
                var s := CallConstructors(st, dep.value).value;
                id in s.libs && ConstructNeeded(st, id, i) == ConstructNeeded(s, id, i + 1)
  {
  }

  lemma {:induction false} NextRuns(st: State, id: nat, i: nat, running: set<nat>)
    requires Ready(st) && InOrder(st, running) && id in st.libs && RunningAbove(st, running, id)
    requires i < |st.libs[id].scope| && Constructed(st, st.libs[id].scope[..i])
    ensures var dep := st.libs[id].scope[i];
            && FindLoaded(st, st.libs[id].image.needed[i]) == Some(dep) && dep in st.libs
            && Ran(st, CallConstructors(st, dep), running)
            && var s := CallConstructors(st, dep).value;
               && RunningAbove(s, running, id) && Constructed(s, st.libs[id].scope[..i + 1])
               && s.libs[id].scope == st.libs[id].scope && s.libs[id].image == st.libs[id].image
               && |Unset(s)| <= |Unset(st)|
    decreases |Unset(st)|, 0, 1
  {
    var scope := st.libs[id].scope;
    assert DepAt(st, id, i);
    NeededIsLoaded(st, id, i);
    DepRunsBelow(st, id, scope[i], running);
    ConstructorsRun(st, scope[i], running);
    var s := CallConstructors(st, scope[i]).value;
    FlagsListed(st, s);
    OneMoreConstructed(st, s, scope, i);
    RunningStays(st, s, id, running);
  }

  lemma DepRunsBelow(st: State, id: nat, dep: nat, running: set<nat>)
    requires Ready(st) && id in st.libs && RunningAbove(st, running, id) && dep in st.libs[id].scope
    ensures dep in st.libs && RunningAbove(st, running, dep) && dep !in running
  {
    var i :| 0 <= i < |st.libs[id].scope| && st.libs[id].scope[i] == dep;
    assert DepAt(st, id, i);
  }

  lemma OneMoreConstructed(st: State, s: State, scope: seq<nat>, i: nat)
    requires OnlyFlags(st, s) && i < |scope| && Constructed(st, scope[..i])
    requires scope[i] in s.libs && s.libs[scope[i]].constructed
    ensures Constructed(s, scope[..i + 1])
  {
    assert scope[..i + 1] == scope[..i] + [scope[i]];
  }

  lemma RunningStays(st: State, s: State, id: nat, running: set<nat>)
    requires OnlyFlags(st, s) && id in st.libs && RunningAbove(st, running, id)
    ensures RunningAbove(s, running, id) && s.libs[id].scope == st.libs[id].scope
    ensures s.libs[id].image == st.libs[id].image
  {
  }
}
