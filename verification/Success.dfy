/** When an open succeeds: the files, the names on solist and the answers of the operating system that
    it takes, and no others. */
module Success {
  import opened Base
  import opened ElfHash
  import opened Symbols
  import opened Segments
  import opened Relocation
  import opened Verdict
  import opened Lifecycle
  import opened LifecycleSteps

  /** Every request from one point to another was granted. */
  ghost predicate Granting(env: Env, from: nat, to: nat) {
    forall t: nat :: from <= t < to ==> env.ok(t)
  }

  // -------------------------------------------------------------- the end of a link

  /** The end of soinfo_link_image succeeds exactly when every entry of both tables can be applied and every
      request it makes is granted: one for RELRO, and two more, to unprotect the segments and to protect
      them again, for a library with text relocations. */
  lemma FinishLinkSucceedsIff(env: Env, id: nat, st: State)
    requires Listed(st) && id in st.libs && Indexed(ContextOf(st, st.libs[id]).scope)
    ensures var r, image := FinishLink(env, id, st), st.libs[id].image;
            && (r.1 <==>
                  && AllApply(image.table, ContextOf(st, st.libs[id]).scope, Entries(image))
                  && Granting(env, st.clock, r.0.clock))
            && (r.1 ==> r.0.clock == st.clock + if image.textRel then 3 else 1)
  {
    hide AllApply, Accepts, AfterPasses, Bindings, Indexed;
    var u := Unprotected(st, id);
    AcceptsIff(ContextOf(st, st.libs[id]), Entries(st.libs[id].image));
    SameLibsContext(st, u, id);
  }

  lemma SameLibsContext(st: State, u: State, id: nat)
    requires id in st.libs && u == st.(clock := u.clock)
    ensures ContextOf(u, st.libs[id]) == ContextOf(st, st.libs[id])
  {
    var p, q := ProvidersOf(st, st.libs[id].scope), ProvidersOf(u, st.libs[id].scope);
    assert p == q;
  }

  lemma AcceptsIff(ctx: Context, rels: seq<Rel>)
    requires Indexed(ctx.scope)
    ensures Accepts(ctx, rels) <==> AllApply(ctx.table, ctx.scope, rels)
  {
    hide Indexed, Applies, Acceptable;
    forall i | 0 <= i < |rels|
      ensures (rels[i].sym < |ctx.table.syms| && Acceptable(ctx, rels[i])) <==> AppliesAt(ctx.table, ctx.scope, rels, i)
    {
      if rels[i].sym < |ctx.table.syms| {
        AcceptableIff(ctx, rels[i]);
      }
    }
  }

  /** Only the tables of the scope matter. */
  lemma TablesDecide(table: SymTable, a: seq<Provider>, b: seq<Provider>, rels: seq<Rel>)
    requires |a| == |b| && forall i :: 0 <= i < |a| ==> a[i].table == b[i].table
    ensures AllApply(table, a, rels) <==> AllApply(table, b, rels)
  {
    hide DefinedIn;
    forall name: Name
      ensures DefinedInScope(a, name) <==> DefinedInScope(b, name)
    {
    }
    forall i | 0 <= i < |rels|
      ensures AppliesAt(table, a, rels, i) <==> AppliesAt(table, b, rels, i)
    {
    }
  }

  // ------------------------------------------------------------ refused requests

  lemma GrantingStep(env: Env, a: nat, b: nat, c: nat)
    requires Granting(env, a, b) && Granting(env, b, c)
    ensures Granting(env, a, c)
  {
  }

  lemma LoadLibraryGranted(env: Env, name: string, st: State)
    requires Listed(st) && LoadLibrary(env, name, st).1.Some?
    ensures Granting(env, st.clock, LoadLibrary(env, name, st).0.clock)
  {
    hide WithImage, Placeable, Names, Basename, LoadSize, MinVaddr, Sub32;
  }

  lemma FinishLinkGranted(env: Env, id: nat, st: State)
    requires Listed(st) && id in st.libs && FinishLink(env, id, st).1
    ensures Granting(env, st.clock, FinishLink(env, id, st).0.clock)
  {
    hide Accepts, AfterPasses, Bindings;
  }

  /** A search that comes back with a library was refused nothing. */
  lemma {:induction false} FindLibraryGranted(env: Env, name: string, st: State)
    requires Listed(st) && FindLibrary(env, name, st).1.Some?
    ensures Granting(env, st.clock, FindLibrary(env, name, st).0.clock)
    decreases Room(env, st), 1, 0
  {
    hide FindLibrary, FindInternal;
    FindLibraryStep(env, name, st);
    FindInternalGranted(env, name, st);
  }

  lemma {:induction false} FindInternalGranted(env: Env, name: string, st: State)
    requires Listed(st) && FindInternal(env, name, st).1.Some?
    ensures Granting(env, st.clock, FindInternal(env, name, st).0.clock)
    decreases Room(env, st), 0, 1
  {
    hide LoadLibrary, LinkImage, FindInternal, Granting;
    if FindLoaded(st, name).Some? {
      ListedCosts(env, name, st);
      NothingGranted(env, st.clock);
    } else {
      FindInternalStep(env, name, st);
      LoadLibraryGranted(env, name, st);
      var (s, r) := LoadLibrary(env, name, st);
      RoomShrinks(env, name, st, s, r.value);
      LinkImageGranted(env, r.value, s);
      GrantingStep(env, st.clock, s.clock, LinkImage(env, r.value, s).0.clock);
    }
  }

  lemma ListedCosts(env: Env, name: string, st: State)
    requires Listed(st) && FindLoaded(st, name).Some?
    ensures FindInternal(env, name, st).0 == st
  {
  }

  lemma NothingGranted(env: Env, t: nat)
    ensures Granting(env, t, t)
  {
  }

  lemma {:induction false} LinkImageGranted(env: Env, id: nat, s: State)
    requires Listed(s) && id in s.libs && LinkImage(env, id, s).1
    ensures Granting(env, s.clock, LinkImage(env, id, s).0.clock)
    decreases Room(env, s), 3, 0
  {
    hide LinkImage, LoadNeeded, FinishLink, Granting;
    LinkImageStep(env, id, s);
    LoadNeededGranted(env, id, s);
    var t := LoadNeeded(env, id, s).0;
    FinishLinkGranted(env, id, t);
    GrantingStep(env, s.clock, t.clock, FinishLink(env, id, t).0.clock);
  }

  lemma {:induction false} LoadNeededGranted(env: Env, id: nat, s: State)
    requires Listed(s) && id in s.libs && LoadNeeded(env, id, s).1
    ensures Granting(env, s.clock, LoadNeeded(env, id, s).0.clock)
    decreases Room(env, s), 2, |s.libs[id].image.needed| - |s.libs[id].scope|
  {
    hide LoadNeeded, FindLibrary, Granting;
    if |s.libs[id].scope| >= |s.libs[id].image.needed| {
      LoadNeededDone(env, id, s);
      NothingGranted(env, s.clock);
    } else {
      LoadNeededStep(env, id, s);
      var name := s.libs[id].image.needed[|s.libs[id].scope|];
      var (t, dep) := FindLibrary(env, name, s);
      FindLibraryGranted(env, name, s);
      OneMoreNeeded(env, s, t, id, dep.value);
      var u := AddNeeded(t, id, dep.value);
      LoadNeededGranted(env, id, u);
      GrantingStep(env, s.clock, t.clock, LoadNeeded(env, id, u).0.clock);
    }
  }
}
