/** The linker follows the closure of files and names: with every request granted and every reservation
    given a place of its own, it finds, loads and links exactly what resolves. */
module Opening {
  import opened Base
  import opened Symbols
  import opened Segments
  import opened Verdict
  import opened Lifecycle
  import opened LifecycleInvariant
  import opened LifecycleSteps
  import opened LoadingInvariant
  import opened Runs
  import opened Closure
  import opened Success

  // ------------------------------------------------------ the operating system

  /** Whichever files they are for, the addresses from one request to another are places that nothing has
      been given: no mapped range, and no earlier one of these addresses. */
  ghost predicate Spaced(env: Env, mapped: set<Range>, from: nat, to: nat) {
    && (forall t: nat, f {:trigger Reservation(env, t, f)} :: from <= t < to && f in env.files ==>
          Placeable(mapped, env.addr(t), LoadSize(env.files[f].phdrs)))
    && (forall t: nat, u: nat, f, g {:trigger Reservation(env, t, f), Reservation(env, u, g)} ::
          from <= t < u < to && f in env.files && g in env.files ==>
          ApartRanges(Reservation(env, t, f), Reservation(env, u, g)))
  }

  function Reservation(env: Env, t: nat, f: string): Range
    requires f in env.files
  {
    Range(env.addr(t), LoadSize(env.files[f].phdrs))
  }

  predicate ApartRanges(a: Range, b: Range) {
    a.start + a.size <= b.start || b.start + b.size <= a.start
  }

  // Nothing is refused, and places do not run out.
  ghost predicate Obliging(env: Env, first: State, until: nat) {
    Granting(env, first.clock, until) && Spaced(env, first.mapped, first.clock, until)
  }

  // What is mapped was mapped at first, or has been reserved for a file since.
  ghost predicate Since(env: Env, first: State, st: State) {
    && first.clock <= st.clock
    && forall r :: r in st.mapped ==> r in first.mapped || ReservedSince(env, first.clock, st.clock, r)
  }

  ghost predicate ReservedSince(env: Env, from: nat, to: nat, r: Range) {
    exists t: nat, f {:trigger Reservation(env, t, f)} ::
      from <= t < to && f in env.files && r == Reservation(env, t, f)
  }

  lemma StillReserved(env: Env, first: State, st: State, t: State)
    requires Since(env, first, st) && t.mapped <= st.mapped && st.clock <= t.clock
    ensures Since(env, first, t)
  {
    forall r | r in t.mapped
      ensures r in first.mapped || ReservedSince(env, first.clock, t.clock, r)
    {
      if r !in first.mapped {
        var u: nat, f :| first.clock <= u < st.clock && f in env.files && r == Reservation(env, u, f);
      }
    }
  }

  lemma PlaceIsFree(env: Env, first: State, until: nat, st: State, f: string)
    requires Obliging(env, first, until) && Since(env, first, st) && st.clock < until && f in env.files
    ensures Placeable(st.mapped, env.addr(st.clock), LoadSize(env.files[f].phdrs))
  {
    hide LoadSize;
    var s := Reservation(env, st.clock, f);
    forall r | r in st.mapped
      ensures ApartRanges(s, r)
    {
      if r !in first.mapped {
        var t: nat, g :| first.clock <= t < st.clock && g in env.files && r == Reservation(env, t, g);
        assert ApartRanges(Reservation(env, t, g), Reservation(env, st.clock, f));
      }
    }
  }

  // ---------------------------------------------------------------- the shelf

  /** The shelf shows the listed libraries. */
  ghost predicate Shows(shelf: Shelf, st: State) {
    && Listed(st) && shelf.Keys == Names(st)
    && (forall id :: id in st.libs ==> shelf[st.libs[id].name] == BookOf(st.libs[id]))
    && (forall a, b :: a in st.libs && b in st.libs && a != b ==> st.libs[a].name != st.libs[b].name)
  }

  function BookOf(lib: Lib): Book {
    Book(lib.linked, lib.image.table)
  }

  /** The hash tables are as the gABI has them, of the libraries on the shelf and of the files that can
      join them. */
  ghost predicate Hashed(files: map<string, Image>, shelf: Shelf) {
    && (forall n :: n in shelf ==> WellFormed(shelf[n].table))
    && (forall f :: Loadable(files, f) ==> WellFormed(files[f].table))
  }

  ghost predicate Tracks(env: Env, first: State, st: State, shelf: Shelf) {
    Shows(shelf, st) && Hashed(env.files, shelf) && Since(env, first, st)
  }

  // The outcome is the one on the shelf, and the shelf shows what it came to.
  ghost predicate ComesOut(env: Env, first: State, st: State, ok: bool, r: Option<Shelf>) {
    (ok <==> r.Some?) && (ok ==> Tracks(env, first, st, r.value))
  }

  /** The needed array so far: listed libraries with the basenames that DT_NEEDED asks for. */
  predicate Fetched(st: State, id: nat)
    requires id in st.libs
  {
    var lib := st.libs[id];
    && |lib.scope| <= |lib.image.needed|
    && forall i :: 0 <= i < |lib.scope| ==> FetchedAt(st, lib, i)
  }

  predicate FetchedAt(st: State, lib: Lib, i: nat)
    requires i < |lib.scope| <= |lib.image.needed|
  {
    lib.scope[i] in st.libs && st.libs[lib.scope[i]].name == Basename(lib.image.needed[i])
  }

  lemma NamedIsListed(shelf: Shelf, st: State, name: string)
    requires Shows(shelf, st)
    ensures FindLoaded(st, name).Some? <==> Basename(name) in shelf
    ensures FindLoaded(st, name).Some? ==>
              shelf[Basename(name)].linked == st.libs[FindLoaded(st, name).value].linked
  {
    hide Basename;
    var r := FindLoaded(st, name);
    if r.Some? {
      assert st.libs[r.value].name in Names(st);
    }
  }

  // ---------------------------------------------------------------- one load

  lemma LoadLibraryIff(env: Env, name: string, first: State, until: nat, st: State)
    requires Listed(st) && Since(env, first, st) && Obliging(env, first, until)
    requires LoadLibrary(env, name, st).0.clock <= until
    ensures LoadLibrary(env, name, st).1.Some? <==>
            name in env.files && LoadSize(env.files[name].phdrs) != 0 && |Basename(name)| < 128
  {
    hide WithImage, Names, Basename, LoadSize, MinVaddr, Sub32, Placeable, Spaced, Since;
    if name in env.files && LoadSize(env.files[name].phdrs) != 0 {
      assert st.clock < until;
      PlaceIsFree(env, first, until, st, name);
      SinceNow(env, first, st);
    }
  }

  lemma SinceNow(env: Env, first: State, st: State)
    requires Since(env, first, st)
    ensures first.clock <= st.clock
  {
  }

  lemma LoadLibraryTracks(env: Env, name: string, first: State, st: State, shelf: Shelf)
    requires Tracks(env, first, st, shelf) && Basename(name) !in shelf && Loadable(env.files, name)
    requires Listed(st) && LoadLibrary(env, name, st).1.Some?
    ensures var (s, r) := LoadLibrary(env, name, st);
            && Tracks(env, first, s, Entering(shelf, name, env.files[name]))
            && s.libs[r.value].image == env.files[name] && s.libs[r.value].scope == []
  {
    hide LoadLibrary, Basename, Loadable, Names, Since, Hashed, Entered;
    var (s, r) := LoadLibrary(env, name, st);
    LoadLibraryEnters(env, name, st);
    EnteringShows(shelf, st, s, s.libs[r.value], name, env.files[name]);
    NewIsEmpty(st, s, s.libs[r.value]);
    EnteringHashed(env.files, shelf, name);
    LoadReserves(env, name, first, st);
  }

  lemma NewIsEmpty(st: State, s: State, lib: Lib)
    requires Entered(st, s, lib)
    ensures lib.scope == [] && !lib.linked
  {
  }

  lemma LoadReserves(env: Env, name: string, first: State, st: State)
    requires Listed(st) && Since(env, first, st) && LoadLibrary(env, name, st).1.Some?
    ensures Since(env, first, LoadLibrary(env, name, st).0)
  {
    hide WithImage, Names, Basename, LoadSize, MinVaddr, Sub32, Placeable, Since;
    var s := LoadLibrary(env, name, st).0;
    assert s.mapped == st.mapped + {Reservation(env, st.clock, name)} && st.clock < s.clock;
    ReservedNow(env, name, first, st, s);
  }

  lemma ReservedNow(env: Env, name: string, first: State, st: State, s: State)
    requires Since(env, first, st) && name in env.files
    requires s.mapped == st.mapped + {Reservation(env, st.clock, name)} && st.clock < s.clock
    ensures Since(env, first, s)
  {
    StillReserved(env, first, st, st.(clock := s.clock));
  }

  lemma EnteringHashed(files: map<string, Image>, shelf: Shelf, name: string)
    requires Hashed(files, shelf) && Loadable(files, name) && name in files
    ensures Hashed(files, Entering(shelf, name, files[name]))
  {
    hide Loadable, WellFormed, Basename;
  }

  lemma EnteringShows(shelf: Shelf, st: State, s: State, lib: Lib, name: string, image: Image)
    requires Shows(shelf, st) && Entered(st, s, lib) && Listed(s) && lib.name == Basename(name) && lib.image == image
    ensures Shows(Entering(shelf, name, image), s)
  {
    hide Basename, AsLoaded, Names, Listed;
    NextIsNew(st);
    EnteredNames(st, s, lib);
    ListedIsNamed(shelf, st);
    assert Entering(shelf, name, image).Keys == Names(s);
    assert lib.name !in Names(st);
  }

  lemma NextIsNew(st: State)
    requires Listed(st)
    ensures st.nextId !in st.libs
  {
  }

  lemma EnteredNames(st: State, s: State, lib: Lib)
    requires Entered(st, s, lib) && lib.id !in st.libs
    ensures Names(s) == Names(st) + {lib.name}
  {
    hide AsLoaded;
    forall n | n in Names(st)
      ensures n in Names(s)
    {
      var id :| id in st.libs && st.libs[id].name == n;
      assert id in s.libs && s.libs[id].name == n;
    }
    assert lib.id in s.libs && s.libs[lib.id].name == lib.name;
  }

  // -------------------------------------------------------- the end of a link

  /** With the needed array whole, the end of a link looks at the entries alone. */
  lemma FinishLinkIff(env: Env, id: nat, first: State, until: nat, st: State, shelf: Shelf)
    requires Tracks(env, first, st, shelf) && Listed(st) && id in st.libs && Fetched(st, id) && Complete(st.libs[id])
    requires Obliging(env, first, until) && FinishLink(env, id, st).0.clock <= until
    ensures var r, image := FinishLink(env, id, st), st.libs[id].image;
            && (r.1 <==> AllApply(image.table, ScopeOn(shelf, image.needed), Entries(image)))
            && (r.1 ==> Tracks(env, first, r.0, shelf[st.libs[id].name := Book(true, image.table)]))
  {
    hide AllApply, FinishLink, WellFormed, Spaced, Entries, Since;
    var image, ctx := st.libs[id].image, ContextOf(st, st.libs[id]);
    ScopeIsOnShelf(env, first, st, id, shelf);
    FinishLinkSucceedsIff(env, id, st);
    TablesDecide(image.table, ctx.scope, ScopeOn(shelf, image.needed), Entries(image));
    SinceNow(env, first, st);
    if FinishLink(env, id, st).1 {
      FinishLinkTracks(env, id, first, st, shelf);
    }
  }

  lemma ScopeIsOnShelf(env: Env, first: State, st: State, id: nat, shelf: Shelf)
    requires Tracks(env, first, st, shelf) && id in st.libs && Fetched(st, id) && Complete(st.libs[id])
    ensures var scope, on := ContextOf(st, st.libs[id]).scope, ScopeOn(shelf, st.libs[id].image.needed);
            Indexed(scope) && |scope| == |on| && forall i :: 0 <= i < |scope| ==> scope[i].table == on[i].table
  {
    hide WellFormed, Basename;
    var lib, scope := st.libs[id], ContextOf(st, st.libs[id]).scope;
    forall i | 0 <= i < |scope|
      ensures WellFormed(scope[i].table) && scope[i].table == ScopeOn(shelf, lib.image.needed)[i].table
    {
      assert FetchedAt(st, lib, i);
      assert st.libs[lib.scope[i]].name in Names(st);
    }
  }

  lemma FinishLinkTracks(env: Env, id: nat, first: State, st: State, shelf: Shelf)
    requires Tracks(env, first, st, shelf) && Listed(st) && id in st.libs && FinishLink(env, id, st).1
    ensures Tracks(env, first, FinishLink(env, id, st).0,
                   shelf[st.libs[id].name := Book(true, st.libs[id].image.table)])
  {
    hide AfterPasses, Bindings, Accepts, WellFormed, Loadable, Since;
    FinishLinkCases(env, id, st);
    var s := FinishLink(env, id, st).0;
    assert s.mapped == st.mapped;
    StillReserved(env, first, st, s);
    MarkedShows(shelf, st, s, id);
  }

  lemma ShowsAgain(shelf: Shelf, on: Shelf, st: State, s: State)
    requires Shows(shelf, st) && Listed(s) && s.libs.Keys == st.libs.Keys && on.Keys == shelf.Keys
    requires forall x :: x in st.libs ==> s.libs[x].name == st.libs[x].name && st.libs[x].name in on
    requires forall x :: x in st.libs ==> on[st.libs[x].name] == BookOf(s.libs[x])
    ensures Shows(on, s)
  {
    hide Names, BookOf;
    SameNames(st, s);
  }

  lemma ListedIsNamed(shelf: Shelf, st: State)
    requires Shows(shelf, st)
    ensures forall x :: x in st.libs ==> st.libs[x].name in shelf
  {
    ListedNames(st);
  }

  lemma MarkedShows(shelf: Shelf, st: State, s: State, id: nat)
    requires Shows(shelf, st) && Listed(s) && id in st.libs && s.libs.Keys == st.libs.Keys
    requires s.libs[id].linked && s.libs[id].image == st.libs[id].image && s.libs[id].name == st.libs[id].name
    requires forall x :: x in st.libs && x != id ==> s.libs[x] == st.libs[x]
    ensures Shows(shelf[st.libs[id].name := Book(true, st.libs[id].image.table)], s)
    ensures st.libs[id].name in shelf && shelf[st.libs[id].name].table == st.libs[id].image.table
  {
    hide Names, Listed;
    ListedIsNamed(shelf, st);
    ShowsAgain(shelf, shelf[st.libs[id].name := Book(true, st.libs[id].image.table)], st, s);
  }

  lemma SameNames(s: State, t: State)
    requires t.libs.Keys == s.libs.Keys && forall x :: x in s.libs ==> t.libs[x].name == s.libs[x].name
    ensures Names(t) == Names(s)
  {
    forall n | n in Names(s)
      ensures n in Names(t)
    {
      var x :| x in s.libs && s.libs[x].name == n;
      assert t.libs[x].name == n;
    }
    forall n | n in Names(t)
      ensures n in Names(s)
    {
      var x :| x in t.libs && t.libs[x].name == n;
      assert s.libs[x].name == n;
    }
  }

  // -------------------------------------------------------- the mutual recursion

  lemma CountChangesTrack(env: Env, first: State, st: State, shelf: Shelf, id: nat)
    requires Tracks(env, first, st, shelf) && id in st.libs
    ensures Tracks(env, first, AddRef(st, id), shelf)
  {
    hide Hashed, Since, Names;
    StillReserved(env, first, st, AddRef(st, id));
    ListedIsNamed(shelf, st);
    ShowsAgain(shelf, shelf, st, AddRef(st, id));
  }

  lemma NeededTracks(env: Env, first: State, st: State, shelf: Shelf, id: nat, dep: nat)
    requires Tracks(env, first, st, shelf) && Listed(st) && id in st.libs
    ensures Tracks(env, first, AddNeeded(st, id, dep), shelf)
  {
    hide Hashed, Since, Names;
    StillReserved(env, first, st, AddNeeded(st, id, dep));
    ListedIsNamed(shelf, st);
    ShowsAgain(shelf, shelf, st, AddNeeded(st, id, dep));
  }

  lemma NeededFetched(st: State, id: nat, dep: nat)
    requires Listed(st) && id in st.libs && dep in st.libs && Fetched(st, id)
    requires |st.libs[id].scope| < |st.libs[id].image.needed|
    requires st.libs[dep].name == Basename(st.libs[id].image.needed[|st.libs[id].scope|])
    ensures Fetched(AddNeeded(st, id, dep), id)
  {
    hide Basename;
    var t := AddNeeded(st, id, dep);
    forall i | 0 <= i < |t.libs[id].scope|
      ensures FetchedAt(t, t.libs[id], i)
    {
      if i < |st.libs[id].scope| {
        assert FetchedAt(st, st.libs[id], i);
      }
    }
  }

  lemma FetchedGrows(st: State, s: State, id: nat)
    requires id in st.libs && Fetched(st, id) && Grows(st, s, -1)
    ensures id in s.libs && Fetched(s, id)
  {
    hide Basename;
    assert Same(st.libs[id], s.libs[id]);
    forall i | 0 <= i < |s.libs[id].scope|
      ensures FetchedAt(s, s.libs[id], i)
    {
      assert FetchedAt(st, st.libs[id], i);
    }
  }

  /** find_library finds what resolves, and nothing else. */
  lemma {:induction false} FindLibraryFollows(env: Env, name: string, first: State, until: nat, st: State, shelf: Shelf)
    requires Tracks(env, first, st, shelf) && Listed(st)
    requires Obliging(env, first, until) && FindLibrary(env, name, st).0.clock <= until
    ensures var (s, r) := FindLibrary(env, name, st);
            ComesOut(env, first, s, r.Some?, Resolve(env.files, shelf, name))
    decreases Room(env, st), 1, 0
  {
    hide FindLibrary, FindInternal, Tracks, Obliging, Resolve;
    FindLibraryStep(env, name, st);
    FindInternalFollows(env, name, first, until, st, shelf);
    var (s, r) := FindInternal(env, name, st);
    if r.Some? {
      CountChangesTrack(env, first, s, Resolve(env.files, shelf, name).value, r.value);
    }
  }

  lemma {:induction false} FindInternalFollows(env: Env, name: string, first: State, until: nat, st: State,
                                               shelf: Shelf)
    requires Tracks(env, first, st, shelf) && Listed(st)
    requires Obliging(env, first, until) && FindInternal(env, name, st).0.clock <= until
    ensures var (s, r) := FindInternal(env, name, st);
            ComesOut(env, first, s, r.Some?, Resolve(env.files, shelf, name))
    decreases Room(env, st), 0, 1
  {
    hide FindInternal, LoadLibrary, LinkImage, Tracks, Obliging, Resolve, ResolveAll, Loadable, LoadSize, Basename;
    hide AllApply;
    TracksShown(env, first, st, shelf);
    NamedIsListed(shelf, st, name);
    if FindLoaded(st, name).Some? {
      ListedFollows(env, name, first, st, shelf);
    } else {
      FindInternalStep(env, name, st);
      LoadLibraryIff(env, name, first, until, st);
      var (s, r) := LoadLibrary(env, name, st);
      if r.Some? && Loadable(env.files, name) {
        LoadedFollows(env, name, first, until, st, shelf);
      } else {
        NotLoadable(env, name, st, shelf);
      }
    }
  }

  /** What has been loaded is linked, or unmapped again. */
  lemma {:induction false} LoadedFollows(env: Env, name: string, first: State, until: nat, st: State, shelf: Shelf)
    requires Tracks(env, first, st, shelf) && Listed(st) && Basename(name) !in shelf && Loadable(env.files, name)
    requires FindLoaded(st, name).None? && LoadLibrary(env, name, st).1.Some?
    requires Obliging(env, first, until) && FindInternal(env, name, st).0.clock <= until
    ensures var (s, r) := FindInternal(env, name, st);
            ComesOut(env, first, s, r.Some?, Resolve(env.files, shelf, name))
    decreases Room(env, st), 0, 0
  {
    hide FindInternal, LoadLibrary, LinkImage, Tracks, Obliging, Resolve, ResolveAll, Loadable, LoadSize, Basename;
    hide AllApply, Room, Names;
    var (s, r) := LoadLibrary(env, name, st);
    FindInternalStep(env, name, st);
    LoadLibraryTracks(env, name, first, st, shelf);
    LoadableIsFile(env.files, name);
    RoomShrinks(env, name, st, s, r.value);
    LoadableLinks(env.files, name);
    LinkImageFollows(env, r.value, first, until, s, Entering(shelf, name, env.files[name]));
    TimePasses(s, LinkImage(env, r.value, s).0, r.value);
    ResolveStep(env.files, shelf, name);
  }

  lemma LoadableLinks(files: map<string, Image>, name: string)
    requires Loadable(files, name) && name in files
    ensures Linkable(files[name])
  {
  }

  lemma TracksShown(env: Env, first: State, st: State, shelf: Shelf)
    requires Tracks(env, first, st, shelf)
    ensures Shows(shelf, st) && Since(env, first, st)
  {
  }

  lemma ListedFollows(env: Env, name: string, first: State, st: State, shelf: Shelf)
    requires Tracks(env, first, st, shelf) && Listed(st) && FindLoaded(st, name).Some?
    ensures var (s, r) := FindInternal(env, name, st);
            ComesOut(env, first, s, r.Some?, Resolve(env.files, shelf, name))
  {
    hide Tracks, Basename;
    TracksShown(env, first, st, shelf);
    NamedIsListed(shelf, st, name);
  }

  /** A name that is not listed, and cannot be loaded or fails the checks before any dependency. */
  lemma NotLoadable(env: Env, name: string, st: State, shelf: Shelf)
    requires Listed(st) && FindLoaded(st, name).None? && Basename(name) !in shelf
    requires LoadLibrary(env, name, st).1.Some? <==>
             name in env.files && LoadSize(env.files[name].phdrs) != 0 && |Basename(name)| < 128
    requires LoadLibrary(env, name, st).1.None? || !Loadable(env.files, name)
    ensures FindInternal(env, name, st).1.None? && Resolve(env.files, shelf, name).None?
  {
    hide Basename, LoadSize, LoadLibrary, LinkImage, FindInternal;
    FindInternalStep(env, name, st);
    var (s, r) := LoadLibrary(env, name, st);
    if r.Some? {
      LinkImageStep(env, r.value, s);
      LoadsTheFile(env, name, st);
    }
  }

  lemma LoadsTheFile(env: Env, name: string, st: State)
    requires Listed(st) && LoadLibrary(env, name, st).1.Some?
    ensures var (s, r) := LoadLibrary(env, name, st);
            name in env.files && r.value in s.libs && s.libs[r.value].image == env.files[name]
  {
    hide WithImage, Placeable, Names, Basename, LoadSize, MinVaddr, Sub32;
  }

  /** A library links exactly when what it needs resolves, in order, and its entries then apply. */
  lemma {:induction false} LinkImageFollows(env: Env, id: nat, first: State, until: nat, st: State, shelf: Shelf)
    requires Tracks(env, first, st, shelf) && Listed(st) && id in st.libs && st.libs[id].scope == []
    requires Obliging(env, first, until) && LinkImage(env, id, st).0.clock <= until && Linkable(st.libs[id].image)
    ensures var (s, ok) := LinkImage(env, id, st);
            var image, all := st.libs[id].image, ResolveAll(env.files, shelf, st.libs[id].image.needed);
            && (ok <==> all.Some? && AllApply(image.table, ScopeOn(all.value, image.needed), Entries(image)))
            && (ok ==> Tracks(env, first, s, all.value[st.libs[id].name := Book(true, image.table)]))
    decreases Room(env, st), 3, 0
  {
    hide LinkImage, LoadNeeded, FinishLink, Tracks, Obliging, ResolveAll, AllApply, Linkable, Grows;
    LinkImageStep(env, id, st);
    var (s, ok) := LoadNeeded(env, id, st);
    TimePasses(s, FinishLink(env, id, s).0, id);
    LoadNeededFollows(env, id, first, until, st, shelf);
    assert st.libs[id].image.needed[0..] == st.libs[id].image.needed;
    if ok {
      FinishLinkIff(env, id, first, until, s, ResolveAll(env.files, shelf, st.libs[id].image.needed).value);
    }
  }

  lemma TimePasses(s: State, t: State, k: int)
    requires Grows(s, t, k)
    ensures s.clock <= t.clock && forall x :: x in s.libs ==> x in t.libs && t.libs[x].name == s.libs[x].name
  {
  }

  lemma FetchedFits(st: State, id: nat)
    requires id in st.libs && Fetched(st, id)
    ensures |st.libs[id].scope| <= |st.libs[id].image.needed|
  {
  }

  /** The rest of the needed array is filled exactly when it resolves. */
  lemma {:induction false} LoadNeededFollows(env: Env, id: nat, first: State, until: nat, st: State, shelf: Shelf)
    requires Tracks(env, first, st, shelf) && Listed(st) && id in st.libs && Fetched(st, id)
    requires Obliging(env, first, until) && LoadNeeded(env, id, st).0.clock <= until
    ensures var (s, ok) := LoadNeeded(env, id, st);
            var image := st.libs[id].image;
            && ComesOut(env, first, s, ok, ResolveAll(env.files, shelf, image.needed[|st.libs[id].scope|..]))
            && id in s.libs && s.libs[id].image == image && s.libs[id].name == st.libs[id].name
            && (ok ==> Fetched(s, id) && Complete(s.libs[id]))
    decreases Room(env, st), 2, |st.libs[id].image.needed| - |st.libs[id].scope|
  {
    hide LoadNeeded, FindLibrary, Tracks, Obliging, Resolve, Listed, Grows, Basename, Room, Fetched, AddNeeded;
    var lib := st.libs[id];
    FetchedFits(st, id);
    var rest := lib.image.needed[|lib.scope|..];
    if |lib.scope| == |lib.image.needed| {
      LoadNeededDone(env, id, st);
    } else {
      LoadNeededStep(env, id, st);
      var (s, dep) := FindLibrary(env, rest[0], st);
      TimePasses(st, s, -1);
      if dep.None? {
        FindLibraryFollows(env, rest[0], first, until, st, shelf);
      } else {
        var u := AddNeeded(s, id, dep.value);
        TimePasses(s, u, id);
        TimePasses(u, LoadNeeded(env, id, u).0, id);
        FindLibraryFollows(env, rest[0], first, until, st, shelf);
        var on := Resolve(env.files, shelf, rest[0]).value;
        OneMoreNeeded(env, st, s, id, dep.value);
        FetchedGrows(st, s, id);
        NeededTracks(env, first, s, on, id, dep.value);
        NeededFetched(s, id, dep.value);
        LoadNeededFollows(env, id, first, until, u, on);
        assert rest[1..] == lib.image.needed[|lib.scope| + 1..];
      }
    }
  }

  // ------------------------------------------------------------- the entry points

  /** The shelf of a state: what find_loaded_library comes to for every name. */
  function ShelfOf(st: State): Shelf
    requires Listed(st)
  {
    map n | n in Names(st) :: BookNamed(st, n)
  }

  function BookNamed(st: State, name: string): Book
    requires Listed(st)
  {
    var r := FindIn(st.order, st.libs, name);
    if r.Some? then BookOf(st.libs[r.value]) else Book(false, NO_TABLE)
  }

  lemma ShelfShows(st: State)
    requires Rest(st)
    ensures Shows(ShelfOf(st), st)
  {
    hide Rest, Names, BookOf, BookNamed;
    RestIsListed(st);
    NamesAreDistinct(st);
    ListedNames(st);
    forall id | id in st.libs
      ensures BookNamed(st, st.libs[id].name) == BookOf(st.libs[id])
    {
      OwnBook(st, id);
    }
    assert ShelfOf(st).Keys == Names(st);
  }

  lemma ListedNames(st: State)
    ensures forall id :: id in st.libs ==> st.libs[id].name in Names(st)
  {
  }

  lemma OwnBook(st: State, id: nat)
    requires Listed(st) && id in st.libs
    requires forall a, b :: a in st.libs && b in st.libs && a != b ==> st.libs[a].name != st.libs[b].name
    ensures BookNamed(st, st.libs[id].name) == BookOf(st.libs[id])
  {
    hide BookOf;
    ListIsAll(st);
  }

  lemma NamesAreDistinct(st: State)
    requires Rest(st)
    ensures forall a, b :: a in st.libs && b in st.libs && a != b ==> st.libs[a].name != st.libs[b].name
  {
  }

  /** The hash tables of the listed libraries and of the files that can be loaded are as the gABI has them. */
  ghost predicate AllHashed(env: Env, st: State) {
    && (forall id :: id in st.libs ==> WellFormed(st.libs[id].image.table))
    && (forall f :: Loadable(env.files, f) ==> WellFormed(env.files[f].table))
  }

  lemma ShelfHashed(env: Env, st: State)
    requires Rest(st) && AllHashed(env, st)
    ensures Listed(st) && Hashed(env.files, ShelfOf(st))
  {
    hide Rest, WellFormed, Loadable, BookNamed;
    RestIsListed(st);
    NamesAreDistinct(st);
    forall n | n in Names(st)
      ensures WellFormed(BookNamed(st, n).table)
    {
      var id :| id in st.libs && st.libs[id].name == n;
      OwnBook(st, id);
    }
  }

  lemma ShelfLinked(st: State)
    requires Rest(st)
    ensures Listed(st) && forall n :: n in ShelfOf(st) ==> ShelfOf(st)[n].linked
  {
    hide Rest, BookNamed;
    RestIsListed(st);
    NamesAreDistinct(st);
    forall n | n in Names(st)
      ensures BookNamed(st, n).linked
    {
      var id :| id in st.libs && st.libs[id].name == n;
      OwnBook(st, id);
    }
  }

  /** find_library from rest: it comes back with a library exactly when it is refused nothing, and the name
      resolves among the files and the libraries that are listed. */
  lemma SearchSucceedsIff(env: Env, name: string, st: State)
    requires Rest(st) && AllHashed(env, st) && Listed(st)
    requires Spaced(env, st.mapped, st.clock, FindLibrary(env, name, st).0.clock)
    ensures var (s, r) := FindLibrary(env, name, st);
            r.Some? <==> Granting(env, st.clock, s.clock) && Resolve(env.files, ShelfOf(st), name).Some?
  {
    hide Rest, AllHashed, FindLibrary, Resolve, Granting, Spaced, Hashed, Shows;
    ShelfShows(st);
    ShelfHashed(env, st);
    if FindLibrary(env, name, st).1.Some? {
      FindLibraryGranted(env, name, st);
    }
    if Granting(env, st.clock, FindLibrary(env, name, st).0.clock) {
      FindLibraryFollows(env, name, st, FindLibrary(env, name, st).0.clock, st, ShelfOf(st));
    }
  }

  /** The mode's bits are all among RTLD_NOW, RTLD_LAZY, RTLD_LOCAL and RTLD_GLOBAL. */
  lemma ValidFlagsIff(flags: bv32)
    ensures ValidFlags(flags as int) <==> flags & 0xffff_fffc == 0
  {
  }

  /** dlopen returns a handle exactly when no bit of the mode is outside the mask 3, a name is given, every
      request is granted, and the name resolves; the handle is that of a library with the name's basename. */
  lemma OpenSucceedsIff(env: Env, name: Option<string>, flags: bv32, st: State)
    requires Rest(st) && AllHashed(env, st) && Listed(st)
    requires name.Some? ==> Spaced(env, st.mapped, st.clock, FindLibrary(env, name.value, st).0.clock)
    ensures var r := DoDlopen(env, name, flags as int, st);
            && r.Some?
            && (r.value.1.Some? <==>
                  && flags & 0xffff_fffc == 0 && name.Some?
                  && Granting(env, st.clock, FindLibrary(env, name.value, st).0.clock)
                  && Resolve(env.files, ShelfOf(st), name.value).Some?)
            && (r.value.1.Some? ==> r.value.1 == FindLibrary(env, name.value, st).1)
  {
    hide Rest, AllHashed, FindLibrary, Resolve, Granting, Spaced, ValidFlags;
    ValidFlagsIff(flags);
    OpenRest(env, name, flags as int, st);
    if name.Some? {
      SearchSucceedsIff(env, name.value, st);
    }
  }

  /** With names that have no directory: exactly when the name is listed, or its file and those of its whole
      DT_NEEDED closure load and are acceptable. */
  lemma PlainOpenSucceedsIff(env: Env, name: string, flags: bv32, st: State)
    requires Rest(st) && AllHashed(env, st) && Listed(st) && Plain(env.files) && '/' !in name
    requires Spaced(env, st.mapped, st.clock, FindLibrary(env, name, st).0.clock)
    ensures var r := DoDlopen(env, Some(name), flags as int, st);
            && r.Some?
            && (r.value.1.Some? <==>
                  && flags & 0xffff_fffc == 0
                  && Granting(env, st.clock, FindLibrary(env, name, st).0.clock)
                  && LinksSomehow(env.files, ShelfOf(st), name))
  {
    hide Rest, AllHashed, FindLibrary, Resolve, Granting, Spaced, ValidFlags, LinksSomehow, DoDlopen;
    OpenSucceedsIff(env, Some(name), flags, st);
    ShelfLinked(st);
    ResolvesIffLinks(env.files, ShelfOf(st), name);
  }

  /** An open that is refused any request on the way is null, wherever its reservations were to go. */
  lemma RefusedOpenIsNull(env: Env, name: string, flags: int, st: State)
    requires Rest(st) && Listed(st) && !Granting(env, st.clock, FindLibrary(env, name, st).0.clock)
    ensures var r := DoDlopen(env, Some(name), flags, st);
            r.Some? && r.value.1.None?
  {
    hide Rest, FindLibrary, Granting;
    OpenRest(env, Some(name), flags, st);
    if FindLibrary(env, name, st).1.Some? {
      FindLibraryGranted(env, name, st);
    }
  }
}
