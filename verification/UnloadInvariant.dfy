/** Closing a handle keeps the invariant and gives back exactly one count. */
module UnloadInvariant {
  import opened Base
  import opened Lifecycle
  import opened LifecycleInvariant
  import opened LoadingInvariant
  import opened Traces

  predicate NoneUnlinked(st: State) {
    forall id :: id in st.libs ==> st.libs[id].linked
  }

  /** The state of a close in progress: counts owed to the callers, libraries being unloaded. */
  ghost predicate Steady(st: State, owed: multiset<nat>, busy: set<nat>) {
    Inv(st, owed, -1, busy) && NoneUnlinked(st) && FlagsClosed(st, {}) && Traced(st, {}, busy)
  }

  /** Libraries of the given rank and later ones stay, those that stay change in nothing but their
      counts, and no count goes up. */
  predicate Shrinks(s: State, t: State, rank: nat) {
    && t.handles == s.handles && NothingLost(s, t) && t.nextId == s.nextId && t.nextRank == s.nextRank
    && s.trace <= t.trace
    && (forall x :: x in t.libs ==>
          x in s.libs && Same(s.libs[x], t.libs[x]) && t.libs[x].refCount <= s.libs[x].refCount)
    && (forall x :: x in s.libs && s.libs[x].rank >= rank ==> x in t.libs)
  }

  lemma ShrinksStep(s: State, t: State, u: State, a: nat, b: nat, c: nat)
    requires Shrinks(s, t, a) && Shrinks(t, u, b) && a <= c && b <= c
    ensures Shrinks(s, u, c)
  {
    forall x | x in s.libs && s.libs[x].rank >= c
      ensures x in u.libs
    {
      assert x in t.libs && Same(s.libs[x], t.libs[x]);
    }
    forall x | x in u.libs
      ensures x in s.libs && Same(s.libs[x], u.libs[x]) && u.libs[x].refCount <= s.libs[x].refCount
    {
      assert Same(t.libs[x], u.libs[x]) && Same(s.libs[x], t.libs[x]);
    }
  }

  // ---------------------------------------------------------- giving back a count

  // Library id of s has one count less in t.
  predicate Dropped(s: State, t: State, id: nat) {
    && id in s.libs && s.libs[id].refCount > 1
    && t == s.(libs := s.libs[id := s.libs[id].(refCount := s.libs[id].refCount - 1)])
  }

  lemma DroppedCountedAt(s: State, t: State, owed: multiset<nat>, id: nat, x: nat)
    requires Known(s.order, s.libs) && Known(t.order, t.libs) && CountedAt(s, owed + multiset{id}, x)
    requires Dropped(s, t, id) && Held(t.order, t.libs) == Held(s.order, s.libs)
    ensures CountedAt(t, owed, x)
  {
  }

  lemma DroppedCounted(s: State, t: State, owed: multiset<nat>, id: nat)
    requires Shape(s) && Counted(s, owed + multiset{id}) && Dropped(s, t, id)
    ensures Known(t.order, t.libs) && Counted(t, owed)
  {
    HeldSame(s.order, s.libs, t.libs);
    forall x: nat {
      DroppedCountedAt(s, t, owed, id, x);
    }
  }

  lemma DroppedTraced(s: State, t: State, id: nat, busy: set<nat>)
    requires Dropped(s, t, id) && FlagsClosed(s, {}) && Traced(s, {}, busy)
    ensures FlagsClosed(t, {}) && Traced(t, {}, busy)
  {
    forall i | 0 <= i < |t.trace| && t.trace[i].id in t.libs
      ensures EventFits(t.trace[i], t.libs[t.trace[i].id], {}, busy)
    {
      assert EventFits(s.trace[i], s.libs[s.trace[i].id], {}, busy);
    }
  }

  lemma DroppedKeeps(s: State, t: State, owed: multiset<nat>, busy: set<nat>, id: nat)
    requires Steady(s, owed + multiset{id}, busy) && Dropped(s, t, id)
    ensures Steady(t, owed, busy)
  {
    hide Shape, Deps, Placed, Accounted, Bound, Counted, Traced, FlagsClosed;
    SameSound(s, t, busy);
    DroppedCounted(s, t, owed, id);
    DroppedTraced(s, t, id, busy);
  }

  // ------------------------------------------------------------- starting to unload

  // The destructors of library id have run and its needed array is about to be given back.
  predicate Released(s: State, t: State, id: nat) {
    && id in s.libs && Complete(s.libs[id])
    && t == s.(libs := s.libs[id := s.libs[id].(scope := [])],
               trace := s.trace + [Destructed(id, s.libs[id].scope, DestructorCalls(s.libs[id]))])
  }

  lemma ReleasedShape(s: State, t: State, id: nat)
    requires Shape(s) && Released(s, t, id)
    ensures Shape(t)
  {
  }

  lemma ReleasedDeps(s: State, t: State, id: nat)
    requires Deps(s) && Released(s, t, id)
    ensures Deps(t)
  {
    forall x, i | x in t.libs && 0 <= i < |t.libs[x].scope|
      ensures DepAt(t, x, i)
    {
      assert DepAt(s, x, i);
    }
  }

  lemma ReleasedBound(s: State, t: State, id: nat)
    requires Bound(s) && Released(s, t, id)
    ensures Bound(t)
  {
    forall x, i | x in t.libs && 0 <= i < |t.libs[x].bindings| && Complete(t.libs[x])
      ensures BindingLive(t, t.libs[x], t.libs[x].bindings[i])
    {
      assert BindingLive(s, s.libs[x], s.libs[x].bindings[i]);
    }
  }

  lemma ReleasedPlaced(s: State, t: State, id: nat)
    requires Placed(s) && Released(s, t, id)
    ensures Placed(t)
  {
    forall a, b | a in t.libs && b in t.libs && a != LIBDL && b != LIBDL && a != b
      ensures RangesApart(t.libs[a], t.libs[b])
    {
      assert RangesApart(s.libs[a], s.libs[b]);
    }
  }

  lemma ReleasedCountedAt(s: State, t: State, owed: multiset<nat>, id: nat, x: nat)
    requires Known(s.order, s.libs) && Known(t.order, t.libs) && CountedAt(s, owed, x) && Released(s, t, id)
    requires Held(s.order, s.libs) == Held(t.order, t.libs) + multiset(s.libs[id].scope)
    ensures CountedAt(t, owed + multiset(s.libs[id].scope), x)
  {
  }

  lemma ReleasedCounted(s: State, t: State, owed: multiset<nat>, id: nat)
    requires Shape(s) && Counted(s, owed) && Released(s, t, id)
    ensures Known(t.order, t.libs) && Counted(t, owed + multiset(s.libs[id].scope))
  {
    HeldClear(s.order, s.libs, id, t.libs[id]);
    forall x: nat {
      ReleasedCountedAt(s, t, owed, id, x);
    }
  }

  /** Every library being unloaded was linked after the given one. */
  predicate BusyAbove(st: State, busy: set<nat>, rank: nat) {
    forall x :: x in busy ==> x in st.libs && st.libs[x].rank > rank
  }

  lemma ReleasedTraced(s: State, t: State, id: nat, busy: set<nat>)
    requires Shape(s) && Deps(s) && NoneUnlinked(s) && Traced(s, {}, busy) && Released(s, t, id)
    requires BusyAbove(s, busy, s.libs[id].rank)
    ensures Traced(t, {}, busy + {id})
  {
    assert id !in busy;
    hide Deps, NoneUnlinked, BusyAbove;
    var e := t.trace[|s.trace|];
    DepsFirstExtends(s.trace, e);
    assert forall i :: 0 <= i < |s.trace| ==> t.trace[i] == s.trace[i];
    forall i | 0 <= i < |t.trace| && t.trace[i].id in t.libs
      ensures EventFits(t.trace[i], t.libs[t.trace[i].id], {}, busy + {id})
    {
      assert i < |s.trace| ==> EventFits(s.trace[i], s.libs[s.trace[i].id], {}, busy);
    }
    forall j | 0 <= j <= |s.trace| && t.trace[j].Destructed?
      ensures t.trace[j].id !in e.deps
    {
      DepsBelowBusy(s, id, busy);
      assert j < |s.trace| && s.trace[j].id in s.libs ==> EventFits(s.trace[j], s.libs[s.trace[j].id], {}, busy);
    }
    forall j | 0 <= j < |s.trace| && t.trace[j].id == id
      ensures t.trace[j].Constructed? && t.trace[j].deps == e.deps
    {
      assert EventFits(s.trace[j], s.libs[s.trace[j].id], {}, busy);
    }
    forall x | x in t.libs && t.libs[x].constructed
      ensures RanBefore(t.trace, |t.trace|, x)
    {
      RanBeforeExtends(s.trace, t.trace, |s.trace|, |t.trace|, x);
    }
  }

  lemma DepsBelowBusy(st: State, id: nat, busy: set<nat>)
    requires Deps(st) && NoneUnlinked(st) && id in st.libs && BusyAbove(st, busy, st.libs[id].rank)
    ensures forall d :: d in st.libs[id].scope ==>
              d in st.libs && st.libs[d].rank < st.libs[id].rank && d !in busy && d != id
  {
    forall d | d in st.libs[id].scope
      ensures d in st.libs && st.libs[d].rank < st.libs[id].rank && d !in busy && d != id
    {
      var i :| 0 <= i < |st.libs[id].scope| && st.libs[id].scope[i] == d;
      assert DepAt(st, id, i);
    }
  }

  lemma ReleasedFlags(s: State, t: State, id: nat)
    requires FlagsClosed(s, {}) && Released(s, t, id)
    ensures FlagsClosed(t, {})
  {
  }

  lemma ReleasedSound(s: State, t: State, busy: set<nat>, id: nat)
    requires Sound(s, busy) && Released(s, t, id)
    ensures Sound(t, busy + {id})
  {
    hide Shape, Deps, Placed, Accounted, Bound;
    ReleasedShape(s, t, id);
    ReleasedDeps(s, t, id);
    ReleasedBound(s, t, id);
    ReleasedPlaced(s, t, id);
    SpaceAccounted(s, t);
  }

  lemma ReleasedKeeps(s: State, t: State, owed: multiset<nat>, busy: set<nat>, id: nat)
    requires Steady(s, owed, busy) && Released(s, t, id) && BusyAbove(s, busy, s.libs[id].rank)
    ensures Steady(t, owed + multiset(s.libs[id].scope), busy + {id})
  {
    hide Shape, Deps, Placed, Accounted, Bound, Counted, Traced, FlagsClosed;
    ReleasedSound(s, t, busy, id);
    ReleasedCounted(s, t, owed, id);
    ReleasedTraced(s, t, id, busy);
    ReleasedFlags(s, t, id);
  }

  // -------------------------------------------------------------- finishing

  lemma DiscardTraced(s: State, t: State, id: nat, busy: set<nat>)
    requires Listed(s) && id in s.libs && t == Discard(s, id)
    requires FlagsClosed(s, {}) && Traced(s, {}, busy + {id})
    ensures FlagsClosed(t, {}) && Traced(t, {}, busy)
  {
    DepsFirstExtends(s.trace, Unmapped(id));
    assert forall i :: 0 <= i < |s.trace| ==> t.trace[i] == s.trace[i];
    forall i | 0 <= i < |t.trace| && t.trace[i].id in t.libs
      ensures EventFits(t.trace[i], t.libs[t.trace[i].id], {}, busy)
    {
      assert EventFits(s.trace[i], s.libs[s.trace[i].id], {}, busy + {id});
    }
    forall j | 0 <= j < |s.trace| && s.trace[j].id == id
      ensures !s.trace[j].Unmapped?
    {
      assert EventFits(s.trace[j], s.libs[s.trace[j].id], {}, busy + {id});
    }
    forall x | x in t.libs && t.libs[x].constructed
      ensures RanBefore(t.trace, |t.trace|, x)
    {
      RanBeforeExtends(s.trace, t.trace, |s.trace|, |t.trace|, x);
    }
  }

  lemma DiscardKeeps(s: State, t: State, owed: multiset<nat>, busy: set<nat>, id: nat)
    requires id in s.libs && id != LIBDL && t == Discard(s, id)
    requires Steady(s, owed + multiset{id}, busy + {id})
    requires s.libs[id].refCount <= 1
    ensures Steady(t, owed, busy)
  {
    var o := owed + multiset{id};
    assert CountedAt(s, o, id);
    assert o[id := 0] == owed;
    DiscardedKeeps(s, t, o, -1, busy + {id}, id);
    DiscardTraced(s, t, id, busy);
  }

  // ------------------------------------------------------------ the recursion

  /** A close that meets no null pointer, gives back what it was owed, and spares the libraries
      of the given rank and later ones. */
  ghost predicate Closes(st: State, r: Option<State>, rank: nat, owed: multiset<nat>, busy: set<nat>) {
    r.Some? && Steady(r.value, owed, busy) && Shrinks(st, r.value, rank)
  }

  lemma OwedIsLoaded(st: State, owed: multiset<nat>, id: nat)
    requires Known(st.order, st.libs) && Counted(st, owed) && id in owed
    ensures id in st.libs && st.libs[id].refCount >= 1
    ensures id == LIBDL ==> st.libs[id].refCount > LIBDL_REFS
  {
    assert CountedAt(st, owed, id);
  }

  lemma {:induction false} UnloadKeeps(st: State, id: nat, owed: multiset<nat>, busy: set<nat>)
    requires Steady(st, owed + multiset{id}, busy) && id in st.libs && BusyAbove(st, busy, st.libs[id].rank)
    ensures Closes(st, Unload(st, id), st.libs[id].rank + 1, owed, busy)
    decreases RankOf(st, id), 1, 0
  {
    OwedIsLoaded(st, owed + multiset{id}, id);
    if st.libs[id].refCount != 1 {
      UnloadOne(st, id, owed, busy);
    } else {
      UnloadLast(st, id, owed, busy);
    }
  }

  /** Not the last count: only the count changes. */
  lemma UnloadOne(st: State, id: nat, owed: multiset<nat>, busy: set<nat>)
    requires Listed(st) && Steady(st, owed + multiset{id}, busy) && id in st.libs && st.libs[id].refCount > 1
    ensures Closes(st, Unload(st, id), st.libs[id].rank + 1, owed, busy)
  {
    hide Steady;
    DroppedKeeps(st, DropRef(st, id), owed, busy, id);
    assert Unload(st, id) == Some(DropRef(st, id));
  }

  /** The libraries that a needed array names, each with one of the counts owed. */
  predicate Owes(st: State, rank: nat, names: seq<string>, deps: seq<nat>) {
    && |deps| == |names|
    && forall i :: 0 <= i < |deps| ==>
         deps[i] in st.libs && st.libs[deps[i]].rank < rank && st.libs[deps[i]].name == Basename(names[i])
  }

  predicate BusyFrom(st: State, busy: set<nat>, rank: nat) {
    forall x :: x in busy ==> x in st.libs && st.libs[x].rank >= rank
  }

  lemma ReleasedOwes(st: State, s: State, id: nat, busy: set<nat>)
    requires Sound(st, busy) && NoneUnlinked(st) && Released(st, s, id) && BusyAbove(st, busy, st.libs[id].rank)
    ensures Owes(s, st.libs[id].rank, st.libs[id].image.needed, st.libs[id].scope)
    ensures BusyFrom(s, busy + {id}, st.libs[id].rank)
    ensures Shrinks(st, s.(libs := st.libs), 0)
  {
    hide Placed, Accounted, Bound, OnlyLinkedConstructed;
    forall i | 0 <= i < |st.libs[id].scope|
      ensures st.libs[id].scope[i] in s.libs
      ensures s.libs[st.libs[id].scope[i]].rank < st.libs[id].rank
      ensures s.libs[st.libs[id].scope[i]].name == Basename(st.libs[id].image.needed[i])
    {
      assert DepAt(st, id, i);
    }
  }

  /** The last count: destructors, then the dependencies, then unmapping. */
  lemma {:induction false} UnloadLast(st: State, id: nat, owed: multiset<nat>, busy: set<nat>)
    requires Steady(st, owed + multiset{id}, busy) && id in st.libs && BusyAbove(st, busy, st.libs[id].rank)
    requires st.libs[id].refCount == 1
    ensures Closes(st, Unload(st, id), st.libs[id].rank + 1, owed, busy)
    decreases RankOf(st, id), 0, 1 + |st.libs[id].image.needed|
  {
    var s := Release(st, id);
    var lib := st.libs[id];
    OwedIsLoaded(st, owed + multiset{id}, id);
    ReleasedKeeps(st, s, owed + multiset{id}, busy, id);
    ReleasedOwes(st, s, id, busy);
    UnloadNeededKeeps(s, lib.rank, lib.image.needed, lib.scope, owed + multiset{id}, busy + {id});
    var t := UnloadNeeded(s, lib.rank, lib.image.needed).value;
    OwedIsLoaded(t, owed + multiset{id}, id);
    DiscardKeeps(t, Discard(t, id), owed, busy, id);
    DiscardShrinks(st, s, t, id);
    assert Unload(st, id) == Some(Discard(t, id));
  }

  lemma DiscardShrinks(st: State, s: State, t: State, id: nat)
    requires Released(st, s, id) && Shrinks(s, t, st.libs[id].rank) && id in t.libs
    ensures Shrinks(st, Discard(t, id), st.libs[id].rank + 1)
  {
    var u := Discard(t, id);
    assert Same(s.libs[id], t.libs[id]);
    assert multiset(t.libs[id].scope) == multiset{};
    forall x | x in u.libs
      ensures x in st.libs && Same(st.libs[x], u.libs[x]) && u.libs[x].refCount <= st.libs[x].refCount
    {
      assert Same(s.libs[x], t.libs[x]);
    }
  }

  lemma SteadyIsListed(st: State, owed: multiset<nat>, busy: set<nat>)
    requires Steady(st, owed, busy)
    ensures Listed(st)
  {
  }

  lemma {:induction false} UnloadNeededKeeps(st: State, rank: nat, names: seq<string>, deps: seq<nat>,
                                             owed: multiset<nat>, busy: set<nat>)
    requires Steady(st, owed + multiset(deps), busy) && Owes(st, rank, names, deps) && BusyFrom(st, busy, rank)
    ensures Closes(st, UnloadNeeded(st, rank, names), rank, owed, busy)
    decreases rank, 0, |names|
  {
    hide Steady, Closes, BusyFrom, Unload;
    SteadyIsListed(st, owed + multiset(deps), busy);
    if names == [] {
      NothingOwed(st, rank, deps, owed, busy);
    } else {
      FirstUnloaded(st, rank, names, deps, owed, busy);
      var s := Unload(st, deps[0]).value;
      UnloadNeededKeeps(s, rank, names[1..], deps[1..], owed, busy);
      ClosesStep(st, s, UnloadNeeded(s, rank, names[1..]), rank, owed, busy);
      assert UnloadNeeded(st, rank, names) == UnloadNeeded(s, rank, names[1..]);
    }
  }

  lemma {:induction false} FirstUnloaded(st: State, rank: nat, names: seq<string>, deps: seq<nat>,
                                         owed: multiset<nat>, busy: set<nat>)
    requires Steady(st, owed + multiset(deps), busy) && Owes(st, rank, names, deps) && BusyFrom(st, busy, rank)
    requires names != []
    ensures FindLoaded(st, names[0]) == Some(deps[0]) && st.libs[deps[0]].rank < rank
    ensures Closes(st, Unload(st, deps[0]), rank, owed + multiset(deps[1..]), busy)
    ensures Owes(Unload(st, deps[0]).value, rank, names[1..], deps[1..])
    ensures BusyFrom(Unload(st, deps[0]).value, busy, rank)
    decreases rank, 0, 0
  {
    var dep, rest := deps[0], owed + multiset(deps[1..]);
    FirstOwed(deps, owed);
    NameIsFound(st, names[0], dep);
    UnloadKeeps(st, dep, rest, busy);
    var s := Unload(st, dep).value;
    ShrinksStep(st, s, s, st.libs[dep].rank + 1, rank, rank);
    StillOwes(st, s, rank, names, deps, rest, busy);
  }

  lemma NameIsFound(st: State, name: string, id: nat)
    requires Shape(st) && id in st.libs && st.libs[id].name == Basename(name)
    ensures FindLoaded(st, name) == Some(id)
  {
    assert Basename(name) in Names(st);
  }

  lemma NothingOwed(st: State, rank: nat, deps: seq<nat>, owed: multiset<nat>, busy: set<nat>)
    requires deps == [] && Steady(st, owed + multiset(deps), busy)
    ensures Closes(st, Some(st), rank, owed, busy)
  {
    assert owed + multiset(deps) == owed;
  }

  lemma FirstOwed(deps: seq<nat>, owed: multiset<nat>)
    requires deps != []
    ensures owed + multiset(deps) == owed + multiset(deps[1..]) + multiset{deps[0]}
  {
    assert deps == [deps[0]] + deps[1..];
  }

  lemma ClosesStep(st: State, s: State, r: Option<State>, rank: nat, owed: multiset<nat>, busy: set<nat>)
    requires Shrinks(st, s, rank) && Closes(s, r, rank, owed, busy)
    ensures Closes(st, r, rank, owed, busy)
  {
    ShrinksStep(st, s, r.value, rank, rank, rank);
  }

  lemma StillOwes(st: State, s: State, rank: nat, names: seq<string>, deps: seq<nat>, rest: multiset<nat>,
                  busy: set<nat>)
    requires Owes(st, rank, names, deps) && BusyFrom(st, busy, rank) && deps != []
    requires Known(s.order, s.libs) && Counted(s, rest) && multiset(deps[1..]) <= rest
    requires Shrinks(st, s, st.libs[deps[0]].rank + 1)
    ensures Owes(s, rank, names[1..], deps[1..]) && BusyFrom(s, busy, rank)
  {
    forall i | 0 <= i < |deps[1..]|
      ensures deps[1..][i] in s.libs && s.libs[deps[1..][i]].rank < rank
      ensures s.libs[deps[1..][i]].name == Basename(names[1..][i])
    {
      var d := deps[i + 1];
      assert deps[1..][i] == d && d in multiset(deps[1..]);
      OwedIsLoaded(s, rest, d);
      assert Same(st.libs[d], s.libs[d]);
    }
    forall x | x in busy
      ensures x in s.libs && s.libs[x].rank >= rank
    {
      assert x in s.libs && Same(st.libs[x], s.libs[x]);
    }
  }
}
