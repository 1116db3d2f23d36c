/** How the recursions of the life cycle unfold, one call at a time. */
module LifecycleSteps {
  import opened Base
  import opened Lifecycle

  predicate FirstNamed(order: seq<nat>, libs: map<nat, Lib>, k: nat, name: string)
    requires forall i :: 0 <= i < |order| ==> order[i] in libs
  {
    k < |order| && libs[order[k]].name == name && forall j :: 0 <= j < k ==> libs[order[j]].name != name
  }

  lemma {:induction false} FindInIsFirst(order: seq<nat>, libs: map<nat, Lib>, name: string) returns (k: nat)
    requires (forall i :: 0 <= i < |order| ==> order[i] in libs) && FindIn(order, libs, name).Some?
    ensures FirstNamed(order, libs, k, name) && order[k] == FindIn(order, libs, name).value
  {
    k := 0;
    if libs[order[0]].name != name {
      k := FindInIsFirst(order[1..], libs, name);
      k := k + 1;
    }
  }

  /** find_loaded_library finds the first library of solist that has the basename of the name, and
      fails only if none has. */
  lemma FindLoadedIsFirst(st: State, name: string)
    requires Listed(st)
    ensures match FindLoaded(st, name)
            case None => Basename(name) !in Names(st)
            case Some(id) =>
              exists k: nat :: FirstNamed(st.order, st.libs, k, Basename(name)) && st.order[k] == id
  {
    ListIsAll(st);
    if FindLoaded(st, name).Some? {
      var k := FindInIsFirst(st.order, st.libs, Basename(name));
    }
  }

  /** What one more DT_NEEDED entry does to the recursion of the specification. */
  lemma LoadNeededStep(env: Env, id: nat, s: State)
    requires Listed(s) && id in s.libs && |s.libs[id].scope| < |s.libs[id].image.needed|
    ensures var (t, dep) := FindLibrary(env, s.libs[id].image.needed[|s.libs[id].scope|], s);
            && s.order <= t.order && s.nextId <= t.nextId <= LoadNeeded(env, id, s).0.nextId && id in t.libs
            && t.libs[id].image == s.libs[id].image && t.libs[id].scope == s.libs[id].scope
            && LoadNeeded(env, id, s) ==
               if dep.None? then (t, false) else LoadNeeded(env, id, AddNeeded(t, id, dep.value))
  {
    var (t, dep) := FindLibrary(env, s.libs[id].image.needed[|s.libs[id].scope|], s);
    assert Same(s.libs[id], t.libs[id]);
  }

  lemma LoadNeededDone(env: Env, id: nat, s: State)
    requires Listed(s) && id in s.libs && |s.libs[id].scope| >= |s.libs[id].image.needed|
    ensures LoadNeeded(env, id, s) == (s, true)
  {
  }

  /** soinfo_link_image stops at its own checks, at a dependency that cannot be had, or comes to the
      relocation passes with all of them. */
  lemma LinkImageStep(env: Env, id: nat, s: State)
    requires Listed(s) && id in s.libs
    ensures var (t, ok) := LoadNeeded(env, id, s);
            var r := LinkImage(env, id, s);
            && s.nextId <= t.nextId && id in t.libs
            && if !Linkable(s.libs[id].image) then r == (s, false)
               else t.nextId <= r.0.nextId && r == if ok then FinishLink(env, id, t) else (t, false)
  {
  }

  /** find_library_internal of a name that is not listed: nothing loaded, or the library linked, or
      the library discarded again after its link failed. */
  lemma FindInternalStep(env: Env, name: string, s: State)
    requires Listed(s) && FindLoaded(s, name).None?
    ensures s.nextId <= FindInternal(env, name, s).0.nextId
    ensures var (t, r) := LoadLibrary(env, name, s);
            var f := FindInternal(env, name, s);
            && s.order <= t.order && s.nextId <= t.nextId
            && match r
               case None => f == (t, None)
               case Some(id) =>
                 var (u, ok) := LinkImage(env, id, t);
                 && t.nextId <= u.nextId && id in u.libs && s.nextId < t.nextId
                 && f == (if ok then (u, Some(id)) else (Discard(u, id), None))
                 && f.0.nextId == u.nextId
  {
    var (t, r) := LoadLibrary(env, name, s);
    if r.Some? {
      assert FindInternal(env, name, s) == LinkLoaded(env, name, s, t, r.value);
    }
  }

  /** find_library counts once what find_library_internal found. */
  lemma FindLibraryStep(env: Env, name: string, s: State)
    requires Listed(s)
    ensures var (t, r) := FindInternal(env, name, s);
            var f := FindLibrary(env, name, s);
            && s.nextId <= t.nextId == f.0.nextId && f.1 == r
            && (r.Some? ==> r.value in t.libs) && f.0 == if r.None? then t else AddRef(t, r.value)
  {
  }

  /** One step of the recursion of CallConstructors. */
  lemma CallConstructorsStep(s: State, id: nat)
    requires Listed(s) && id in s.libs && CallConstructors(s, id).Some?
    ensures var r, u := CallConstructors(s, id).value, SetConstructed(s, id);
            && |s.trace| <= |r.trace|
            && if s.libs[id].constructed then r == s
               else
                 && Listed(u) && u.trace == s.trace && ConstructNeeded(u, id, 0).Some?
                 && var t := ConstructNeeded(u, id, 0).value;
                    id in t.libs && r == LogConstructed(t, id) && |t.trace| + 1 == |r.trace|
  {
    if !s.libs[id].constructed {
      FlagsListed(s, SetConstructed(s, id));
    }
  }

  lemma ConstructNeededStep(s: State, id: nat, i: nat)
    requires Listed(s) && id in s.libs && ConstructNeeded(s, id, i).Some?
    ensures var t := ConstructNeeded(s, id, i).value;
            && |s.trace| <= |t.trace| && t.order == s.order
            && if i >= |s.libs[id].image.needed| then t == s
               else
                 var dep := FindLoaded(s, s.libs[id].image.needed[i]);
                 && dep.Some? && CallConstructors(s, dep.value).Some?
                 && var u := CallConstructors(s, dep.value).value;
                    && u.order == s.order && |s.trace| <= |u.trace| <= |t.trace|
                    && id in u.libs && u.libs[id].image == s.libs[id].image
                    && ConstructNeeded(u, id, i + 1) == Some(t)
  {
  }

  /** One step of soinfo_unload: a count less, or the destructors, the dependencies, and then the
      library itself. */
  lemma UnloadStep(s: State, id: nat)
    requires Listed(s) && Unload(s, id).Some?
    ensures id in s.libs
    ensures if s.libs[id].refCount != 1 then Unload(s, id) == Some(DropRef(s, id))
            else
              var lib := s.libs[id];
              var t := UnloadNeeded(Release(s, id), lib.rank, lib.image.needed);
              id != LIBDL && t.Some? && id in t.value.libs && Unload(s, id) == Some(Discard(t.value, id))
  {
  }

  lemma UnloadNeededStep(s: State, rank: nat, names: seq<string>)
    requires Listed(s) && UnloadNeeded(s, rank, names).Some?
    ensures if names == [] then UnloadNeeded(s, rank, names) == Some(s)
            else
              var dep := FindLoaded(s, names[0]);
              && dep.Some? && s.libs[dep.value].rank < rank && Unload(s, dep.value).Some?
              && UnloadNeeded(s, rank, names) ==
                 UnloadNeeded(Unload(s, dep.value).value, rank, names[1..])
  {
  }

  lemma DoDlopenStep(env: Env, name: string, flags: int, s: State)
    requires Listed(s) && ValidFlags(flags)
    ensures var (t, r) := FindLibrary(env, name, s);
            DoDlopen(env, Some(name), flags, s) == if r.None? then Some((t, None)) else HandOut(t, r)
  {
  }

  lemma HandOutStep(s: State, id: nat)
    requires Listed(s) && id in s.libs && HandOut(s, Some(id)).Some?
    ensures var t := s.(handles := s.handles + multiset{id});
            && Listed(t)
            && if s.libs[id].name in NO_CONSTRUCTORS then HandOut(s, Some(id)) == Some((t, Some(id)))
               else CallConstructors(t, id).Some? &&
                    HandOut(s, Some(id)) == Some((CallConstructors(t, id).value, Some(id)))
  {
  }
}
