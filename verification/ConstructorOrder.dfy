/** The order of constructors: a depth-first walk of the DT_NEEDED graph, in post-order. */
module ConstructorOrder {
  import opened Base
  import opened Lifecycle
  import opened LifecycleInvariant
  import opened LifecycleSteps
  import opened ConstructorInvariant
  import opened LoadingInvariant
  import opened UnloadInvariant
  import opened Runs
  import opened LifecycleTheorems

  // The libraries that each library needs, in the order of its DT_NEEDED entries.
  type Graph = map<nat, seq<nat>>

  /** What a walk from the node visits that was not seen before, every node after what it leads to. */
  function PostOrder(g: Graph, n: nat, seen: set<nat>): seq<nat>
    decreases |g.Keys - seen|, 0, 0
  {
    if n in seen || n !in g then []
    else
      SubsetSize(g.Keys - (seen + {n}), g.Keys - seen);
      assert n in g.Keys - seen && n !in g.Keys - (seen + {n});
      PostOrderAll(g, g[n], seen + {n}) + [n]
  }

  function PostOrderAll(g: Graph, ns: seq<nat>, seen: set<nat>): seq<nat>
    decreases |g.Keys - seen|, 1, |ns|
  {
    if ns == [] then []
    else
      var first := PostOrder(g, ns[0], seen);
      SubsetSize(g.Keys - (seen + Members(first)), g.Keys - seen);
      first + PostOrderAll(g, ns[1..], seen + Members(first))
  }

  function Members(s: seq<nat>): set<nat> {
    set n | n in s
  }

  function GraphOf(st: State): Graph {
    map id | id in st.libs :: st.libs[id].scope
  }

  function Flagged(st: State): set<nat> {
    set id | id in st.libs && st.libs[id].constructed
  }

  /** The constructor runs of these libraries, one after the other. */
  function Logged(st: State, ids: seq<nat>): (r: seq<Event>)
    requires forall n :: n in ids ==> n in st.libs
    ensures |r| == |ids|
  {
    if ids == [] then []
    else [Constructed(ids[0], st.libs[ids[0]].scope, InitCalls(st.libs[ids[0]].image))] + Logged(st, ids[1..])
  }

  // From s to t the constructors of these libraries have run, in this order.
  ghost predicate Logs(s: State, t: State, ids: seq<nat>) {
    && OnlyFlags(s, t) && (forall n :: n in ids ==> n in s.libs)
    && t.trace == s.trace + Logged(s, ids) && Flagged(t) == Flagged(s) + Members(ids)
  }

  lemma {:induction false} SameLogged(s: State, t: State, ids: seq<nat>)
    requires OnlyFlags(s, t) && forall n :: n in ids ==> n in s.libs
    ensures Logged(t, ids) == Logged(s, ids) && GraphOf(t) == GraphOf(s)
  {
    if ids != [] {
      SameLogged(s, t, ids[1..]);
    }
  }

  lemma {:induction false} LoggedAppend(s: State, a: seq<nat>, b: seq<nat>)
    requires forall n :: n in a + b ==> n in s.libs
    ensures (forall n :: n in a ==> n in s.libs) && forall n :: n in b ==> n in s.libs
    ensures Logged(s, a + b) == Logged(s, a) + Logged(s, b)
  {
    forall n | n in a || n in b
      ensures n in a + b
    {
    }
    if a == [] {
      assert a + b == b;
    } else {
      assert (a + b)[1..] == a[1..] + b;
      LoggedAppend(s, a[1..], b);
    }
  }

  lemma LogsStep(s: State, t: State, u: State, a: seq<nat>, b: seq<nat>)
    requires Logs(s, t, a) && Logs(t, u, b)
    ensures Logs(s, u, a + b)
  {
    hide Flagged, OnlyFlags, Members, Logged;
    KeysKept(s, t);
    MembersAppend(a, b);
    FlagsStep(s, t, u);
    SameLogged(s, t, b);
    LoggedAppend(s, a, b);
  }

  lemma KeysKept(s: State, t: State)
    requires OnlyFlags(s, t)
    ensures t.libs.Keys == s.libs.Keys
  {
  }

  /** CallConstructors runs what the walk from the library visits, libraries that are flagged already
      having been seen. */
  lemma {:induction false} RunsInPostOrder(st: State, id: nat)
    requires Ready(st) && id in st.libs && CallConstructors(st, id).Some?
    ensures Logs(st, CallConstructors(st, id).value, PostOrder(GraphOf(st), id, Flagged(st)))
    decreases |Unset(st)|, 0, 0
  {
    hide Ready, CallConstructors, ConstructNeeded, PostOrderAll, Logs, SetConstructed, GraphOf, Flagged, Listed;
    Walk(st, id);
    ReadyIsListed(st);
    CallConstructorsStep(st, id);
    if st.libs[id].constructed {
      NothingLogged(st);
    } else {
      FlagIsSet(st, id);
      var s := SetConstructed(st, id);
      FlagsListed(st, s);
      UnsetShrinks(st, id);
      ReadyStays(st, s);
      NeededInPostOrder(s, id, 0);
      var t := ConstructNeeded(s, id, 0).value;
      assert st.libs[id].scope[0..] == st.libs[id].scope;
      OwnRunIsLast(st, s, t, id, PostOrderAll(GraphOf(st), st.libs[id].scope, Flagged(st) + {id}));
    }
  }

  lemma Walk(st: State, id: nat)
    requires id in st.libs
    ensures PostOrder(GraphOf(st), id, Flagged(st)) ==
            if st.libs[id].constructed then []
            else PostOrderAll(GraphOf(st), st.libs[id].scope, Flagged(st) + {id}) + [id]
  {
  }

  lemma RunsOn(st: State, s: State, ids: seq<nat>, id: nat)
    requires Ready(st) && Logs(st, s, ids) && id in st.libs
    ensures Ready(s) && |Unset(s)| <= |Unset(st)|
    ensures GraphOf(s) == GraphOf(st) && Flagged(s) == Flagged(st) + Members(ids)
    ensures id in s.libs && s.libs[id].scope == st.libs[id].scope && s.libs[id].image == st.libs[id].image
  {
    ReadyStays(st, s);
    FlagsListed(st, s);
    SameLogged(st, s, []);
  }

  lemma ReadyIsListed(st: State)
    requires Ready(st)
    ensures Listed(st) && forall id :: id in st.libs ==> |st.libs[id].scope| == |st.libs[id].image.needed|
  {
  }

  lemma NothingLogged(st: State)
    ensures Logs(st, st, [])
  {
  }

  lemma FlagIsSet(st: State, id: nat)
    requires id in st.libs
    ensures var s := SetConstructed(st, id);
            && OnlyFlags(st, s) && s.trace == st.trace && s.libs[id].scope == st.libs[id].scope
            && GraphOf(s) == GraphOf(st) && Flagged(s) == Flagged(st) + {id}
  {
    assert Flagged(SetConstructed(st, id)) == Flagged(st) + {id};
  }

  lemma OwnRunIsLast(st: State, s: State, t: State, id: nat, below: seq<nat>)
    requires id in st.libs && s == SetConstructed(st, id) && Logs(s, t, below) && id in t.libs
    ensures Logs(st, LogConstructed(t, id), below + [id])
  {
    hide Flagged, SetConstructed, OnlyFlags, Members;
    FlagIsSet(st, id);
    OwnEvent(st, s, t, id);
    SameLogged(st, s, below);
    LoggedAppend(st, below, [id]);
    MembersAppend(below, [id]);
  }

  lemma OwnEvent(st: State, s: State, t: State, id: nat)
    requires OnlyFlags(st, s) && OnlyFlags(s, t) && id in st.libs && id in t.libs
    ensures var u := LogConstructed(t, id);
            OnlyFlags(st, u) && u.trace == t.trace + Logged(st, [id]) && Flagged(u) == Flagged(t)
    ensures Members([id]) == {id}
  {
    FlagsStep(st, s, t);
    FlagsStep(st, t, LogConstructed(t, id));
    assert Logged(st, [id]) == [Constructed(id, st.libs[id].scope, InitCalls(st.libs[id].image))];
  }

  lemma MembersAppend(a: seq<nat>, b: seq<nat>)
    ensures Members(a + b) == Members(a) + Members(b)
    ensures forall n :: n in a + b <==> n in a || n in b
  {
  }

  lemma NextNeeded(st: State, id: nat, i: nat)
    requires Ready(st) && id in st.libs && i < |st.libs[id].scope|
    ensures FindLoaded(st, st.libs[id].image.needed[i]) == Some(st.libs[id].scope[i])
    ensures st.libs[id].scope[i] in st.libs
  {
    assert DepAt(st, id, i);
    NeededIsLoaded(st, id, i);
  }

  /** The rest of the DT_NEEDED loop runs what the walk from the rest of the needed array visits. */
  lemma {:induction false} NeededInPostOrder(st: State, id: nat, i: nat)
    requires Ready(st) && id in st.libs && i <= |st.libs[id].scope|
    requires Listed(st) && ConstructNeeded(st, id, i).Some?
    ensures Logs(st, ConstructNeeded(st, id, i).value,
                 PostOrderAll(GraphOf(st), st.libs[id].scope[i..], Flagged(st)))
    decreases |Unset(st)|, 1, |st.libs[id].image.needed| - i
  {
    hide CallConstructors, ConstructNeeded, PostOrder, Logs, GraphOf, Flagged, Ready;
    var scope := st.libs[id].scope;
    ReadyIsListed(st);
    ConstructNeededStep(st, id, i);
    if i == |scope| {
      NothingLogged(st);
    } else {
      NextNeeded(st, id, i);
      RunsInPostOrder(st, scope[i]);
      var s := CallConstructors(st, scope[i]).value;
      RunsOn(st, s, PostOrder(GraphOf(st), scope[i], Flagged(st)), id);
      NeededInPostOrder(s, id, i + 1);
      var first := PostOrder(GraphOf(st), scope[i], Flagged(st));
      assert scope[i..][1..] == scope[i + 1..];
      LogsStep(st, s, ConstructNeeded(st, id, i).value, first,
               PostOrderAll(GraphOf(st), scope[i + 1..], Flagged(st) + Members(first)));
    }
  }

  /** A successful open, once the library has been found, runs the constructors of what the walk from it
      visits, and none if its name is on the list of do_dlopen. */
  lemma OpenRunsInPostOrder(env: Env, name: string, flags: int, st: State)
    requires Rest(st) && DoDlopen(env, Some(name), flags, st).Some?
    requires DoDlopen(env, Some(name), flags, st).value.1.Some?
    ensures var r := DoDlopen(env, Some(name), flags, st).value;
            var s, id := FindLibrary(env, name, st).0, r.1.value;
            Logs(s.(handles := s.handles + multiset{id}), r.0,
                 if SkippedAtOpen(Basename(name)) then [] else PostOrder(GraphOf(s), id, Flagged(s)))
  {
    hide Rest, FindLibrary, PostOrder, HandOut, SkippedAtOpen, Logs, DoDlopen, Listed;
    SkippedIff(Basename(name));
    RestIsListed(st);
    FoundIsHandle(env, name, flags, st);
    FoundRests(env, name, st);
    var (s, r) := FindLibrary(env, name, st);
    if !SkippedAtOpen(Basename(name)) {
      HandedRuns(s, r.value);
    } else {
      HandedSkips(s, r.value);
    }
  }

  lemma FoundIsHandle(env: Env, name: string, flags: int, st: State)
    requires Listed(st) && DoDlopen(env, Some(name), flags, st).Some?
    requires DoDlopen(env, Some(name), flags, st).value.1.Some?
    ensures var (s, r) := FindLibrary(env, name, st);
            && r.Some? && DoDlopen(env, Some(name), flags, st) == HandOut(s, r)
            && DoDlopen(env, Some(name), flags, st).value.1 == r
  {
    hide FindLibrary, CallConstructors;
  }

  lemma FoundRests(env: Env, name: string, st: State)
    requires Rest(st) && Listed(st) && FindLibrary(env, name, st).1.Some?
    ensures var (s, r) := FindLibrary(env, name, st);
            && Listed(s) && r.value in s.libs && s.libs[r.value].name == Basename(name)
            && Rest(s.(handles := s.handles + multiset{r.value}))
  {
    hide Steady, FindLibrary, Takes, Grows;
    RestIsInv(st);
    var (s, r) := FindLibrary(env, name, st);
    FindLibraryKeeps(env, name, st, multiset{}, {});
    OpenedRest(st, s, r);
  }

  lemma RestIsInv(st: State)
    requires Rest(st)
    ensures Inv(st, multiset{}, -1, {})
  {
  }

  lemma HandedSkips(s: State, id: nat)
    requires Listed(s) && id in s.libs && s.libs[id].name in NO_CONSTRUCTORS
    ensures HandOut(s, Some(id)).Some? && HandOut(s, Some(id)).value.1 == Some(id)
    ensures Logs(s.(handles := s.handles + multiset{id}), HandOut(s, Some(id)).value.0, [])
  {
    NothingLogged(s.(handles := s.handles + multiset{id}));
  }

  lemma HandedRuns(s: State, id: nat)
    requires Listed(s) && id in s.libs && Rest(s.(handles := s.handles + multiset{id}))
    requires s.libs[id].name !in NO_CONSTRUCTORS && HandOut(s, Some(id)).Some?
    ensures Logs(s.(handles := s.handles + multiset{id}), HandOut(s, Some(id)).value.0,
                 PostOrder(GraphOf(s), id, Flagged(s)))
  {
    hide Rest, PostOrder, CallConstructors, Logs, Ready;
    var t := s.(handles := s.handles + multiset{id});
    RestIsReady(t);
    RunsInPostOrder(t, id);
    assert GraphOf(t) == GraphOf(s) && Flagged(t) == Flagged(s);
  }
}
