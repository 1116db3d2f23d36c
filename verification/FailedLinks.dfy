/** How a failed open leaks: the counts it had taken for the library that failed stay taken. */
module FailedLinks {
  import opened Base
  import opened Lifecycle
  import opened LifecycleInvariant
  import opened LifecycleSteps
  import opened LoadingInvariant
  import opened Runs

  /** The first DT_NEEDED entry of the file names a listed library, the second one nothing that is
      listed or can be opened. */
  predicate MissingSecond(env: Env, name: string, st: State, d: nat)
    requires Listed(st)
  {
    && name in env.files && Linkable(env.files[name]) && |env.files[name].needed| >= 2
    && FindLoaded(st, env.files[name].needed[0]) == Some(d)
    && env.files[name].needed[1] !in env.files
    && Basename(env.files[name].needed[1]) !in Names(st)
    && Basename(env.files[name].needed[1]) != Basename(name)
  }

  /** find_library of a listed, linked library counts once more. */
  lemma FindListed(env: Env, name: string, st: State, d: nat)
    requires Listed(st) && FindLoaded(st, name) == Some(d) && st.libs[d].linked
    ensures FindLibrary(env, name, st) == (AddRef(st, d), Some(d))
  {
  }

  /** find_library of a name that is neither listed nor openable does nothing. */
  lemma FindNothing(env: Env, name: string, st: State)
    requires Listed(st) && FindLoaded(st, name).None? && name !in env.files
    ensures FindLibrary(env, name, st) == (st, None)
  {
    assert FindInternal(env, name, st) == (st, None);
  }

  lemma StillFound(s: State, t: State, name: string, id: nat, d: nat)
    requires Listed(s) && Listed(t) && t.order == s.order + [id] && t.libs.Keys == s.libs.Keys + {id}
    requires forall x :: x in s.libs ==> t.libs[x].name == s.libs[x].name
    requires FindLoaded(s, name) == Some(d)
    ensures FindLoaded(t, name) == Some(d)
  {
    FoundInPrefix(s.order, s.libs, t.order, t.libs, Basename(name), d);
  }

  lemma {:induction false} FoundInPrefix(a: seq<nat>, libs: map<nat, Lib>, b: seq<nat>, libs': map<nat, Lib>,
                                         name: string, d: nat)
    requires a <= b && (forall i :: 0 <= i < |a| ==> a[i] in libs) && (forall i :: 0 <= i < |b| ==> b[i] in libs')
    requires forall i :: 0 <= i < |a| ==> libs'[a[i]].name == libs[a[i]].name
    requires FindIn(a, libs, name) == Some(d)
    ensures FindIn(b, libs', name) == Some(d)
  {
    assert b[0] == a[0] && a[1..] <= b[1..];
    if libs[a[0]].name != name {
      FoundInPrefix(a[1..], libs, b[1..], libs', name, d);
    }
  }

  lemma NotAdded(s: State, t: State, name: string)
    requires Listed(s) && Listed(t) && t.libs.Keys == s.libs.Keys
    requires forall x :: x in s.libs ==> t.libs[x].name == s.libs[x].name
    requires Basename(name) !in Names(s)
    ensures FindLoaded(t, name).None?
  {
  }

  /** The next entry of library id's DT_NEEDED loop. */
  predicate Next(s: State, id: nat, name: string) {
    && Listed(s) && id in s.libs && |s.libs[id].scope| < |s.libs[id].image.needed|
    && s.libs[id].image.needed[|s.libs[id].scope|] == name
  }

  lemma TakesListed(env: Env, id: nat, s: State, name: string, d: nat)
    requires Next(s, id, name) && FindLoaded(s, name) == Some(d) && s.libs[d].linked
    ensures Listed(AddRef(s, d)) && LoadNeeded(env, id, s) == LoadNeeded(env, id, AddNeeded(AddRef(s, d), id, d))
  {
    FindListed(env, name, s, d);
    LoadNeededStep(env, id, s);
  }

  lemma StopsAtMissing(env: Env, id: nat, s: State, name: string)
    requires Next(s, id, name) && name !in env.files && FindLoaded(s, name).None?
    ensures LoadNeeded(env, id, s) == (s, false)
  {
    FindNothing(env, name, s);
    LoadNeededStep(env, id, s);
  }

  // Library id of s is fresh from load_library, and its first two DT_NEEDED entries are the
  // listed library d and one that is missing.
  predicate Doomed(env: Env, s: State, id: nat, d: nat) {
    && Listed(s) && id in s.libs && d in s.libs
    && s.libs[id].scope == [] && !s.libs[id].linked && s.libs[d].linked
    && Linkable(s.libs[id].image) && |s.libs[id].image.needed| >= 2
    && FindLoaded(s, s.libs[id].image.needed[0]) == Some(d)
    && s.libs[id].image.needed[1] !in env.files && Basename(s.libs[id].image.needed[1]) !in Names(s)
  }

  /** The DT_NEEDED loop takes the first dependency and stops at the second. */
  lemma StopsAtSecond(env: Env, id: nat, s: State, d: nat)
    requires Doomed(env, s, id, d)
    ensures Listed(AddRef(s, d)) && LoadNeeded(env, id, s) == (AddNeeded(AddRef(s, d), id, d), false)
  {
    var needed := s.libs[id].image.needed;
    TakesListed(env, id, s, needed[0], d);
    AfterFirst(env, id, s, d, needed[1]);
    StopsAtMissing(env, id, AddNeeded(AddRef(s, d), id, d), needed[1]);
  }

  lemma AfterFirst(env: Env, id: nat, s: State, d: nat, name: string)
    requires Doomed(env, s, id, d) && name == s.libs[id].image.needed[1]
    ensures Listed(AddRef(s, d))
    ensures var u := AddNeeded(AddRef(s, d), id, d);
            Next(u, id, name) && FindLoaded(u, name).None?
  {
    var t := AddRef(s, d);
    assert Listed(t);
    NotAdded(s, AddNeeded(t, id, d), name);
  }

  lemma DoomedFails(env: Env, id: nat, s: State, d: nat)
    requires Doomed(env, s, id, d)
    ensures Listed(AddRef(s, d)) && LinkImage(env, id, s) == (AddNeeded(AddRef(s, d), id, d), false)
  {
    StopsAtSecond(env, id, s, d);
    LinkImageStep(env, id, s);
  }

  lemma LoadedIsDoomed(env: Env, name: string, st: State, d: nat)
    requires Rest(st) && FindLoaded(st, name).None? && LoadLibrary(env, name, st).1.Some?
    requires MissingSecond(env, name, st, d)
    ensures var (s, r) := LoadLibrary(env, name, st);
            Entered(st, s, s.libs[r.value]) && r.value == st.nextId && Doomed(env, s, r.value, d) && d in st.libs
  {
    hide Rest, LoadLibrary;
    RestIsListed(st);
    var (s, r) := LoadLibrary(env, name, st);
    LoadLibraryEnters(env, name, st);
    NewNames(st, s, s.libs[r.value], env.files[name].needed[1]);
    StillFound(st, s, env.files[name].needed[0], r.value, d);
  }

  /** An open that fails at the second dependency leaves the list as it was, but for the count of
      the first, which nobody will ever give back. */
  lemma FailedLinkLeaks(env: Env, name: string, st: State, d: nat)
    requires Rest(st) && FindLoaded(st, name).None? && LoadLibrary(env, name, st).1.Some?
    requires MissingSecond(env, name, st, d)
    ensures var (t, r) := FindLibrary(env, name, st);
            && r == None && t.order == st.order && t.libs == AddRef(st, d).libs
            && t.leaked == st.leaked + multiset{d} && t.handles == st.handles
  {
    var (s, loaded) := LoadLibrary(env, name, st);
    LoadedIsDoomed(env, name, st, d);
    DoomedFails(env, loaded.value, s, d);
    DiscardLast(st, s, loaded.value, d);
    FailedFind(env, name, st, s, loaded.value, AddNeeded(AddRef(s, d), loaded.value, d));
  }

  lemma FailedFind(env: Env, name: string, st: State, s: State, id: nat, t: State)
    requires Listed(st) && FindLoaded(st, name).None? && LoadLibrary(env, name, st) == (s, Some(id))
    requires LinkImage(env, id, s) == (t, false) && id in t.libs
    ensures FindLibrary(env, name, st) == (Discard(t, id), None)
  {
    FindInternalStep(env, name, st);
    FindLibraryStep(env, name, st);
  }

  lemma NewNames(s: State, t: State, lib: Lib, name: string)
    requires Entered(s, t, lib) && Basename(name) !in Names(s) && Basename(name) != lib.name
    ensures Basename(name) !in Names(t)
  {
  }

  lemma AddedThenRemoved(libs: map<nat, Lib>, id: nat, d: nat, added: Lib, counted: Lib, extended: Lib)
    requires id !in libs && d in libs
    ensures libs[id := added][d := counted][id := extended] - {id} == libs[d := counted]
  {
  }

  lemma DiscardLast(st: State, s: State, id: nat, d: nat)
    requires Listed(st) && Listed(s) && id in s.libs && Entered(st, s, s.libs[id]) && id == st.nextId
    requires d in st.libs && Listed(AddRef(s, d))
    ensures var t := Discard(AddNeeded(AddRef(s, d), id, d), id);
            && t.order == st.order && t.libs == AddRef(st, d).libs
            && t.leaked == st.leaked + multiset{d} && t.handles == st.handles
  {
    assert id !in st.libs && id !in st.order;
    hide Listed, Names, AsLoaded;
    WithoutLast(st.order, id);
    AddedThenRemoved(st.libs, id, d, s.libs[id], AddRef(st, d).libs[d], AddNeeded(AddRef(s, d), id, d).libs[id]);
    assert multiset([d]) == multiset{d};
  }

  lemma {:induction false} WithoutLast(order: seq<nat>, id: nat)
    requires id !in order
    ensures Without(order + [id], id) == order
  {
    if order == [] {
      assert order + [id] == [id];
    } else {
      assert (order + [id])[1..] == order[1..] + [id] && (order + [id])[0] == order[0];
      WithoutLast(order[1..], id);
    }
  }
}
