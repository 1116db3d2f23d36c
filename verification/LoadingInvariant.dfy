/** Opening a library keeps the invariant, whether it succeeds or fails on the way. */
module LoadingInvariant {
  import opened Base
  import opened Memory
  import opened Segments
  import opened Lifecycle
  import opened LifecycleInvariant
  import opened LifecycleSteps

  /** The trace of a load: nothing but the unmapping of libraries that came and went. */
  predicate Quiet(s: State, t: State) {
    && s.trace <= t.trace
    && (forall i :: |s.trace| <= i < |t.trace| ==>
          t.trace[i].Unmapped? && s.nextId <= t.trace[i].id < t.nextId && t.trace[i].id !in t.libs)
    && (forall i, j :: |s.trace| <= i < j < |t.trace| ==> t.trace[i].id != t.trace[j].id)
  }

  /** From s to t libraries were loaded: handles are as before, counts may have leaked, and
      what is new on the list is linked, except library k; no constructor has run. */
  predicate Opens(s: State, t: State, k: int) {
    && t.handles == s.handles && s.leaked <= t.leaked && s.nextRank <= t.nextRank
    && (forall x :: x in t.libs && x !in s.libs && x != k ==> t.libs[x].linked)
    && (forall x :: x in t.libs && t.libs[x].constructed ==> x in s.libs && s.libs[x].constructed)
    && Quiet(s, t)
  }

  lemma OpensStep(s: State, t: State, u: State, k: int)
    requires Listed(t) && Listed(u) && Grows(s, t, k) && Grows(t, u, k)
    requires Opens(s, t, k) && Opens(t, u, k)
    ensures Opens(s, u, k)
  {
    forall i | |s.trace| <= i < |u.trace|
      ensures u.trace[i].Unmapped? && s.nextId <= u.trace[i].id < u.nextId && u.trace[i].id !in u.libs
    {
      if i < |t.trace| {
        assert u.trace[i] == t.trace[i];
      }
    }
    forall i, j | |s.trace| <= i < j < |u.trace|
      ensures u.trace[i].id != u.trace[j].id
    {
      if i < |t.trace| {
        assert u.trace[i] == t.trace[i];
        if j < |t.trace| {
          assert u.trace[j] == t.trace[j];
        }
      }
    }
  }

  lemma MappedMoreKeeps(s: State, t: State, owed: multiset<nat>, busy: set<nat>)
    requires Inv(s, owed, -1, busy) && MappedMore(s, t)
    ensures Inv(t, owed, -1, busy)
  {
    hide Deps, Placed, Accounted, Bound, Counted;
    SameSound(s, t, busy);
    CountedSame(s, t, owed);
  }

  // A library about to be entered: mapped where nothing was reserved, under a new name.
  predicate Enterable(s: State, lib: Lib) {
    && lib == NewLib(s.nextId, lib.name, lib.image, lib.base, lib.size, lib.bias) && lib.name !in Names(s)
    && '/' !in lib.name && 0 < lib.size == LoadSize(lib.image.phdrs)
    && lib.bias == Sub32(lib.base, MinVaddr(lib.image.phdrs)) && Placeable(s.mapped, lib.base, lib.size)
  }

  // What load_library may do short of entering a library.
  predicate MappedMore(s: State, t: State) {
    && Strands(s, t)
    && t == s.(clock := t.clock, mapped := t.mapped, stranded := t.stranded, free := t.free, bytes := t.bytes)
  }

  lemma AllocEnters(env: Env, lib: Lib, s: State, t: State)
    requires Listed(s) && Enterable(s, lib) && t == s.(clock := t.clock, mapped := t.mapped, bytes := t.bytes)
    requires t.mapped == s.mapped + {RangeOf(lib)}
    requires forall a :: a in t.bytes ==> a in s.bytes || Within(a, lib.base, lib.size)
    ensures var (u, r) := Alloc(env, lib, t);
            if r.Some? then Entered(s, u, lib) else MappedMore(s, Strand(u, RangeOf(lib)))
  {
  }

  function Strand(st: State, r: Range): State {
    st.(stranded := st.stranded + {r})
  }

  lemma ImageBytesWithin(b: Backend, image: Image, base: Word, m: Mem)
    ensures forall a :: a in WithImage(b, image, base, m) ==> a in m || Within(a, base, LoadSize(image.phdrs))
  {
  }

  /** Nothing was lost from s to t, neither a count nor a range. */
  predicate NothingLost(s: State, t: State) {
    t.leaked == s.leaked && t.stranded == s.stranded
  }

  /** The file opens, and the operating system grants the reservation and its mappings. */
  predicate Granted(env: Env, name: string, st: State) {
    && name in env.files && LoadSize(env.files[name].phdrs) != 0 && env.ok(st.clock) && env.ok(st.clock + 1)
    && Placeable(st.mapped, env.addr(st.clock), LoadSize(env.files[name].phdrs))
  }

  function MappedLib(env: Env, name: string, st: State): Lib
    requires name in env.files
  {
    var image, base := env.files[name], env.addr(st.clock);
    NewLib(st.nextId, Basename(name), image, base, LoadSize(image.phdrs), Sub32(base, MinVaddr(image.phdrs)))
  }

  function MappedFile(env: Env, name: string, st: State): State
    requires name in env.files
  {
    var image, base := env.files[name], env.addr(st.clock);
    st.(clock := st.clock + 2, mapped := st.mapped + {Range(base, LoadSize(image.phdrs))},
        bytes := WithImage(env.backend, image, base, st.bytes))
  }

  lemma LoadLibraryCases(env: Env, name: string, st: State)
    requires Listed(st)
    ensures if Granted(env, name, st)
            then
              var (s, r) := Alloc(env, MappedLib(env, name, st), MappedFile(env, name, st));
              LoadLibrary(env, name, st) ==
              (if r.Some? then s else Strand(s, RangeOf(MappedLib(env, name, st))), r)
            else
              && LoadLibrary(env, name, st).1.None? && MappedMore(st, LoadLibrary(env, name, st).0)
              && LoadLibrary(env, name, st).0.bytes == st.bytes
  {
    hide WithImage, Names, Alloc, Basename, LoadSize, MinVaddr, Sub32;
  }

  /** load_library either enters one library, or changes nothing but the address space. */
  lemma LoadLibraryEnters(env: Env, name: string, st: State)
    requires Listed(st) && Basename(name) !in Names(st)
    ensures var (s, r) := LoadLibrary(env, name, st);
            && (r.Some? ==> Entered(st, s, s.libs[r.value]) && s.libs[r.value].image == env.files[name])
            && (r.None? ==> MappedMore(st, s))
  {
    hide WithImage, Names, Entered, Alloc, LoadLibrary;
    LoadLibraryCases(env, name, st);
    if Granted(env, name, st) {
      BasenameIsLastComponent(name);
      ImageBytesWithin(env.backend, env.files[name], env.addr(st.clock), st.bytes);
      AllocEnters(env, MappedLib(env, name, st), st, MappedFile(env, name, st));
    }
  }

  lemma LoadLibraryKeeps(env: Env, name: string, st: State, owed: multiset<nat>, busy: set<nat>)
    requires Listed(st) && Inv(st, owed, -1, busy) && Basename(name) !in Names(st)
    ensures var (s, r) := LoadLibrary(env, name, st);
            && Inv(s, owed, -1, busy)
            && (r.Some? ==> Opens(st, s, r.value) && Entered(st, s, s.libs[r.value]))
            && (r.None? ==> Opens(st, s, -1))
            && s.leaked == st.leaked && (r.Some? ==> NothingLost(st, s))
  {
    hide Inv, LoadLibrary, Entered, Opens;
    LoadLibraryEnters(env, name, st);
    var (s, r) := LoadLibrary(env, name, st);
    if r.Some? {
      EnteredKeeps(st, s, owed, busy, s.libs[r.value]);
      EnteredOpens(st, s, r.value);
    } else {
      MappedMoreKeeps(st, s, owed, busy);
      MappedMoreOpens(st, s);
    }
  }

  lemma LoadedIsNew(env: Env, name: string, st: State, owed: multiset<nat>, busy: set<nat>)
    requires Listed(st) && Inv(st, owed, -1, busy) && Basename(name) !in Names(st)
    ensures var (s, r) := LoadLibrary(env, name, st);
            Inv(s, owed, -1, busy) &&
            (r.Some? ==> r.value != LIBDL && !s.libs[r.value].linked && s.libs[r.value].bindings == [])
  {
    hide LoadLibrary;
    LoadLibraryKeeps(env, name, st, owed, busy);
  }

  lemma EnteredOpens(st: State, s: State, id: nat)
    requires Listed(st) && id in s.libs && Entered(st, s, s.libs[id])
    ensures Opens(st, s, id) && NothingLost(st, s)
  {
  }

  lemma MappedMoreOpens(s: State, t: State)
    requires MappedMore(s, t)
    ensures Opens(s, t, -1) && t.leaked == s.leaked
  {
  }

  /** The end of soinfo_link_image either marks the library as linked, its slots busy, or
      changes nothing; it may still fail after the mark is set. */
  predicate Marks(st: State, r: (State, bool), id: nat) {
    && id in st.libs && id in r.0.libs
    && (if r.0.libs[id].linked then Linked(st, r.0, id) else r.0 == st.(clock := r.0.clock, bytes := r.0.bytes))
    && r.0.bytes.Keys == st.bytes.Keys
    && r.0.libs[id].refCount == st.libs[id].refCount && r.0.trace == st.trace
    && NothingLost(st, r.0) && r.0.handles == st.handles
    && (r.1 ==> r.0.libs[id].linked)
  }

  lemma FinishLinkMarks(env: Env, id: nat, st: State)
    requires Listed(st) && id in st.libs && !st.libs[id].linked && Complete(st.libs[id])
    ensures Marks(st, FinishLink(env, id, st), id)
  {
    var u := Unprotected(st, id);
    FinishLinkCases(env, id, st);
    if (st.libs[id].image.textRel && !env.ok(st.clock)) || !Relocatable(u, id) {
      NothingMarks(st, id, FinishLink(env, id, st));
    } else {
      RelocatedMarks(st, u, id, FinishLink(env, id, st));
    }
  }

  lemma FinishLinkCases(env: Env, id: nat, st: State)
    requires Listed(st) && id in st.libs
    ensures var r, u := FinishLink(env, id, st), Unprotected(st, id);
            if (st.libs[id].image.textRel && !env.ok(st.clock)) || !Relocatable(u, id)
            then !r.1 && r.0 == (if st.libs[id].image.textRel && !env.ok(st.clock) then st
                                 else Passed(u, id)).(clock := r.0.clock)
            else r.0 == Relocated(u, id).(clock := r.0.clock)
  {
  }

  lemma NothingMarks(st: State, id: nat, r: (State, bool))
    requires id in st.libs && !st.libs[id].linked && r == (st.(clock := r.0.clock, bytes := r.0.bytes), false)
    requires r.0.bytes.Keys == st.bytes.Keys
    ensures Marks(st, r, id)
  {
  }

  lemma RelocatedMarks(st: State, u: State, id: nat, r: (State, bool))
    requires Listed(st) && id in st.libs && !st.libs[id].linked && Complete(st.libs[id])
    requires u == st.(clock := u.clock) && r.0 == Relocated(u, id).(clock := r.0.clock)
    ensures Marks(st, r, id)
  {
    assert ContextOf(u, st.libs[id]).scope == ContextOf(st, st.libs[id]).scope;
  }

  lemma FinishLinkKeeps(env: Env, id: nat, st: State, owed: multiset<nat>, busy: set<nat>)
    requires Listed(st) && Inv(st, owed, -1, busy) && id in st.libs && !st.libs[id].linked && Complete(st.libs[id])
    ensures var (s, ok) := FinishLink(env, id, st);
            && Inv(s, owed, id, busy) && Opens(st, s, id) && NothingLost(st, s)
            && s.libs[id].refCount == st.libs[id].refCount
            && (ok ==> s.libs[id].linked)
  {
    hide Inv, FinishLink, Linked, Opens;
    FinishLinkMarks(env, id, st);
    var (s, ok) := FinishLink(env, id, st);
    if s.libs[id].linked {
      LinkedKeeps(st, s, owed, busy, id);
      LinkedOpens(st, s, id);
    } else {
      MappedMoreKeeps(st, s, owed, busy);
      MappedMoreOpens(st, s);
      NewbornAllowed(s, owed, busy, id);
      OpensWeaken(st, s, id);
    }
  }

  lemma LinkedOpens(st: State, s: State, id: nat)
    requires Listed(st) && Linked(st, s, id) && s.trace == st.trace
    ensures Opens(st, s, id)
  {
  }

  lemma OpensWeaken(s: State, t: State, k: int)
    requires Opens(s, t, -1)
    ensures Opens(s, t, k)
  {
  }

  lemma NewbornAllowed(st: State, owed: multiset<nat>, busy: set<nat>, id: nat)
    requires Inv(st, owed, -1, busy)
    ensures Inv(st, owed, id, busy)
  {
    hide Sound, Counted;
  }

  // ------------------------------------------------------- the mutual recursion

  /** What a search for a library, started in st, comes back with: nothing, or a linked library
      whose count the caller is about to take, and no count leaked on the way. */
  ghost predicate Finds(st: State, s: State, r: Option<nat>, owed: multiset<nat>, busy: set<nat>) {
    && Opens(st, s, -1)
    && match r
       case None => Inv(s, owed, -1, busy)
       case Some(id) => Inv(s, owed, id, busy) && id in s.libs && s.libs[id].linked && NothingLost(st, s)
  }

  /** The same, the count taken. */
  ghost predicate Takes(st: State, s: State, r: Option<nat>, owed: multiset<nat>, busy: set<nat>) {
    && Opens(st, s, -1)
    && match r
       case None => Inv(s, owed, -1, busy)
       case Some(id) => Inv(s, owed + multiset{id}, -1, busy) && id in s.libs && s.libs[id].linked &&
                        NothingLost(st, s)
  }

  lemma TakeKeeps(st: State, s: State, r: Option<nat>, owed: multiset<nat>, busy: set<nat>)
    requires Listed(s) && Grows(st, s, -1) && Finds(st, s, r, owed, busy)
    ensures Takes(st, Take(st, s, r).0, r, owed, busy)
  {
    hide Inv, Opens, Grows, Listed;
    if r.Some? {
      ReferencedKeeps(s, AddRef(s, r.value), owed, r.value, busy, r.value);
      ReferencedOpens(st, s, r.value);
    }
  }

  lemma ReferencedOpens(st: State, s: State, id: nat)
    requires Opens(st, s, -1) && id in s.libs
    ensures Opens(st, AddRef(s, id), -1)
  {
  }

  /** find_library: on success the caller is owed the count that it returns. */
  lemma FindLibraryKeeps(env: Env, name: string, st: State, owed: multiset<nat>, busy: set<nat>)
    requires Inv(st, owed, -1, busy)
    ensures var (s, r) := FindLibrary(env, name, st); Takes(st, s, r, owed, busy)
    decreases Room(env, st), 1, 0
  {
    FindInternalKeeps(env, name, st, owed, busy);
    var (s, r) := FindInternal(env, name, st);
    TakeKeeps(st, s, r, owed, busy);
  }

  lemma FindInternalKeeps(env: Env, name: string, st: State, owed: multiset<nat>, busy: set<nat>)
    requires Inv(st, owed, -1, busy)
    ensures var (s, r) := FindInternal(env, name, st); Finds(st, s, r, owed, busy)
    decreases Room(env, st), 0, 1
  {
    if FindLoaded(st, name).None? {
      LoadLibraryKeeps(env, name, st, owed, busy);
      var (s, loaded) := LoadLibrary(env, name, st);
      if loaded.Some? {
        LinkLoadedKeeps(env, name, st, s, loaded.value, owed, busy);
      }
    } else {
      LoadedKeeps(env, name, st, owed, busy);
    }
  }

  lemma LoadedKeeps(env: Env, name: string, st: State, owed: multiset<nat>, busy: set<nat>)
    requires Listed(st) && Inv(st, owed, -1, busy) && FindLoaded(st, name).Some?
    ensures var (s, r) := FindInternal(env, name, st); Finds(st, s, r, owed, busy)
  {
    hide Inv;
    NewbornAllowed(st, owed, busy, FindLoaded(st, name).value);
  }

  lemma LinkLoadedKeeps(env: Env, name: string, st: State, s: State, id: nat, owed: multiset<nat>, busy: set<nat>)
    requires Listed(st) && Listed(s) && Inv(s, owed, -1, busy) && Grows(st, s, -1) && Opens(st, s, id)
    requires id in s.libs && Entered(st, s, s.libs[id]) && NothingLost(st, s) && id == st.nextId && id != LIBDL
    requires name in env.files && Basename(name) !in Names(st) && s.libs[id].name == Basename(name)
    ensures var (t, r) := LinkLoaded(env, name, st, s, id); Finds(st, t, r, owed, busy)
    decreases Room(env, st), 0, 0
  {
    hide Inv, Opens, LinkImage, LinkLoaded, Settle, Finds;
    assert id !in st.libs && !s.libs[id].linked && s.libs[id].bindings == [];
    RoomShrinks(env, name, st, s, id);
    UnlinkedUncounted(s, owed, busy, id);
    LinkLoadedSettles(env, name, st, s, id);
    LinkImageKeeps(env, id, s, owed, busy);
    var (t, ok) := LinkImage(env, id, s);
    LinkSettles(st, s, t, id, ok, owed, busy);
  }

  lemma LinkLoadedSettles(env: Env, name: string, st: State, s: State, id: nat)
    requires Listed(st) && Listed(s) && Grows(st, s, -1) && id !in st.libs && id in s.libs
    requires name in env.files && Basename(name) !in Names(st) && s.libs[id].name == Basename(name)
    ensures var (t, ok) := LinkImage(env, id, s);
            id in t.libs && LinkLoaded(env, name, st, s, id) == Settle(st, s, t, id, ok)
  {
    hide LinkImage, Settle;
  }

  lemma LinkSettles(st: State, s: State, t: State, id: nat, ok: bool, owed: multiset<nat>, busy: set<nat>)
    requires Listed(st) && Listed(s) && Listed(t) && Grows(st, s, -1) && Opens(st, s, id)
    requires Grows(s, t, id) && Opens(s, t, id) && Inv(t, owed, id, busy)
    requires id !in st.libs && id in s.libs && st.nextId <= id && id != LIBDL && NothingLost(st, s)
    requires t.libs[id].refCount == 0 == owed[id] && (ok ==> t.libs[id].linked && NothingLost(s, t))
    ensures var (u, r) := Settle(st, s, t, id, ok); Finds(st, u, r, owed, busy)
  {
    GrowsWeaken(st, s, id);
    OpensStep(st, s, t, id);
    if !ok {
      DiscardedKeeps(t, Discard(t, id), owed, id, busy, id);
      assert owed[id := 0] == owed;
      DiscardOpens(st, t, id);
    }
  }

  lemma DiscardOpens(s: State, t: State, id: nat)
    requires Listed(t) && Opens(s, t, id) && id in t.libs && s.nextId <= id
    ensures Opens(s, Discard(t, id), -1)
  {
    var u := Discard(t, id);
    forall i | |s.trace| <= i < |u.trace|
      ensures u.trace[i].Unmapped? && s.nextId <= u.trace[i].id < u.nextId && u.trace[i].id !in u.libs
    {
      if i < |t.trace| {
        assert u.trace[i] == t.trace[i];
      }
    }
    forall i, j | |s.trace| <= i < j < |u.trace|
      ensures u.trace[i].id != u.trace[j].id
    {
      assert u.trace[i] == t.trace[i];
      if j < |t.trace| {
        assert u.trace[j] == t.trace[j];
      }
    }
  }

  /** What linking one library comes to: it is linked, no count leaked, or it is still counted
      by nobody and can be discarded. */
  ghost predicate Links(st: State, s: State, id: nat, ok: bool, owed: multiset<nat>, busy: set<nat>) {
    && Opens(st, s, id) && Inv(s, owed, id, busy) && id in s.libs && s.libs[id].refCount == 0
    && (ok ==> s.libs[id].linked && NothingLost(st, s))
  }

  lemma LinkImageKeeps(env: Env, id: nat, st: State, owed: multiset<nat>, busy: set<nat>)
    requires Inv(st, owed, -1, busy) && id in st.libs && id != LIBDL && !st.libs[id].linked
    requires st.libs[id].bindings == []
    ensures var (s, ok) := LinkImage(env, id, st); Links(st, s, id, ok, owed, busy)
    decreases Room(env, st), 3, 0
  {
    if Linkable(st.libs[id].image) {
      LoadNeededKeeps(env, id, st, owed, busy);
      var (s, ok) := LoadNeeded(env, id, st);
      FinishLoadedKeeps(env, id, st, s, ok, owed, busy);
    } else {
      UnlinkedKeeps(st, id, owed, busy);
    }
  }

  lemma UnlinkedKeeps(st: State, id: nat, owed: multiset<nat>, busy: set<nat>)
    requires Inv(st, owed, -1, busy) && id in st.libs && id != LIBDL && !st.libs[id].linked
    ensures Links(st, st, id, false, owed, busy)
  {
    UnlinkedUncounted(st, owed, busy, id);
  }

  lemma FinishLoadedKeeps(env: Env, id: nat, st: State, s: State, ok: bool, owed: multiset<nat>, busy: set<nat>)
    requires Listed(s) && Grows(st, s, id) && Opens(st, s, id) && Inv(s, owed, -1, busy)
    requires id in s.libs && !s.libs[id].linked && s.libs[id].refCount == 0
    requires ok ==> Complete(s.libs[id]) && NothingLost(st, s)
    ensures var (t, done) := FinishLoaded(env, id, st, s, ok); Links(st, t, id, done, owed, busy)
  {
    if ok {
      FinishLinkKeeps(env, id, s, owed, busy);
      OpensStep(st, s, FinishLink(env, id, s).0, id);
    }
  }

  lemma UnlinkedUncounted(st: State, owed: multiset<nat>, busy: set<nat>, id: nat)
    requires Inv(st, owed, -1, busy) && id in st.libs && id != LIBDL && !st.libs[id].linked
    ensures st.libs[id].refCount == 0 == owed[id]
  {
    assert CountedAt(st, owed, id);
  }

  /** What filling the needed array comes to: the library is still unlinked and uncounted, and no
      count leaked if all of the array is there. */
  ghost predicate Fills(st: State, s: State, id: nat, ok: bool, owed: multiset<nat>, busy: set<nat>) {
    && Opens(st, s, id) && Inv(s, owed, -1, busy)
    && id in s.libs && s.libs[id].refCount == 0 && !s.libs[id].linked
    && (ok ==> Complete(s.libs[id]) && NothingLost(st, s))
  }

  lemma LoadNeededKeeps(env: Env, id: nat, st: State, owed: multiset<nat>, busy: set<nat>)
    requires Listed(st) && Inv(st, owed, -1, busy) && id in st.libs && id != LIBDL && !st.libs[id].linked
    requires st.libs[id].bindings == []
    ensures var (s, ok) := LoadNeeded(env, id, st); Fills(st, s, id, ok, owed, busy)
    decreases Room(env, st), 2, |st.libs[id].image.needed| - |st.libs[id].scope|
  {
    hide Inv, LoadNeeded, Takes, Fills, FindLibrary, AddNeeded;
    var lib := st.libs[id];
    if |lib.scope| >= |lib.image.needed| {
      LoadNeededDone(env, id, st);
      AllThere(st, id, owed, busy);
    } else {
      LoadNeededStep(env, id, st);
      var (s, dep) := FindLibrary(env, lib.image.needed[|lib.scope|], st);
      FindLibraryKeeps(env, lib.image.needed[|lib.scope|], st, owed, busy);
      if dep.None? {
        NotHad(st, s, id, owed, busy);
      } else {
        OneMoreNeeded(env, st, s, id, dep.value);
        NeededIsAdded(st, s, id, dep.value, owed, busy);
        var t := AddNeeded(s, id, dep.value);
        LoadNeededKeeps(env, id, t, owed, busy);
        FillsStep(st, t, id, LoadNeeded(env, id, t), owed, busy);
      }
    }
  }

  lemma AllThere(st: State, id: nat, owed: multiset<nat>, busy: set<nat>)
    requires Inv(st, owed, -1, busy) && id in st.libs && id != LIBDL && !st.libs[id].linked
    requires |st.libs[id].scope| >= |st.libs[id].image.needed|
    ensures Fills(st, st, id, true, owed, busy)
  {
    hide Inv;
    NeededBounded(st, owed, busy, id);
    UnlinkedUncounted(st, owed, busy, id);
  }

  lemma NotHad(st: State, s: State, id: nat, owed: multiset<nat>, busy: set<nat>)
    requires Grows(st, s, -1) && Takes(st, s, None, owed, busy) && id in st.libs && id != LIBDL && !st.libs[id].linked
    ensures Fills(st, s, id, false, owed, busy)
  {
    hide Inv;
    assert Same(st.libs[id], s.libs[id]);
    UnlinkedUncounted(s, owed, busy, id);
  }

  lemma FillsStep(st: State, t: State, id: nat, r: (State, bool), owed: multiset<nat>, busy: set<nat>)
    requires Listed(t) && Listed(r.0) && Grows(st, t, id) && Grows(t, r.0, id)
    requires Opens(st, t, id) && NothingLost(st, t) && Fills(t, r.0, id, r.1, owed, busy)
    ensures Fills(st, r.0, id, r.1, owed, busy)
  {
    hide Inv;
    OpensStep(st, t, r.0, id);
  }

  lemma NeededBounded(st: State, owed: multiset<nat>, busy: set<nat>, id: nat)
    requires Inv(st, owed, -1, busy) && id in st.libs
    ensures |st.libs[id].scope| <= |st.libs[id].image.needed|
  {
    var n := |st.libs[id].scope|;
    assert n == 0 || DepAt(st, id, n - 1);
  }

  lemma NeededIsAdded(st: State, s: State, id: nat, dep: nat, owed: multiset<nat>, busy: set<nat>)
    requires Listed(s) && Grows(st, s, -1) && Takes(st, s, Some(dep), owed, busy)
    requires id in st.libs && !st.libs[id].linked && st.libs[id].bindings == []
    requires |st.libs[id].scope| < |st.libs[id].image.needed|
    requires dep in s.libs && s.libs[dep].name == Basename(st.libs[id].image.needed[|st.libs[id].scope|])
    ensures var t := AddNeeded(s, id, dep);
            && Opens(st, t, id) && Inv(t, owed, -1, busy) && NothingLost(st, t)
            && !t.libs[id].linked && t.libs[id].bindings == []
  {
    hide Inv, Opens;
    assert Same(st.libs[id], s.libs[id]);
    assert Extended(s, AddNeeded(s, id, dep), id, dep);
    hide Extended;
    ExtendedKeeps(s, AddNeeded(s, id, dep), owed, busy, id, dep);
    AddedOpens(st, s, id, dep);
  }

  lemma AddedOpens(st: State, s: State, id: nat, dep: nat)
    requires Listed(s) && Opens(st, s, -1) && id in s.libs && id in st.libs
    ensures Opens(st, AddNeeded(s, id, dep), id)
  {
    hide Listed, Grows;
  }
}
