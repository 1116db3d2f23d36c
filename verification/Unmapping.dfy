/** What unloading, and a link that failed, give back to the address space. */
module Unmapping {
  import opened Base
  import opened Symbols
  import opened Segments
  import opened Lifecycle
  import opened LifecycleInvariant
  import opened LifecycleSteps
  import opened LoadingInvariant
  import opened UnloadInvariant
  import opened Runs

  // ------------------------------------------------------------------ one library

  /** Discarding a library unmaps its range and nothing else. */
  lemma DiscardUnmaps(st: State, id: nat)
    requires id in st.libs
    ensures var t, lib := Discard(st, id), st.libs[id];
            && (forall r :: r in t.mapped <==> r in st.mapped && r != Range(lib.base, lib.size))
            && (forall a :: a in t.bytes <==> a in st.bytes && !(lib.base <= a < lib.base as int + lib.size))
            && (forall a :: a in t.bytes ==> t.bytes[a] == st.bytes[a])
            && t.stranded == st.stranded
  {
  }

  // -------------------------------------------------------------------- unloading

  /** The range of a library that was listed and is no more. */
  predicate GoneRange(s: State, t: State, r: Range) {
    exists id :: id in s.libs && id !in t.libs && r == Range(s.libs[id].base, s.libs[id].size)
  }

  predicate GoneByte(s: State, t: State, a: int) {
    exists id :: id in s.libs && id !in t.libs && s.libs[id].base <= a < s.libs[id].base as int + s.libs[id].size
  }

  predicate SamePlaces(s: State, t: State) {
    forall id :: id in t.libs ==>
      id in s.libs && t.libs[id].base == s.libs[id].base && t.libs[id].size == s.libs[id].size
  }

  /** From s to t libraries have gone, each with its range and the bytes in it; every other range and
      byte is as it was. */
  ghost predicate OnlyGone(s: State, t: State) {
    && SamePlaces(s, t)
    && (forall r :: r in t.mapped <==> r in s.mapped && !GoneRange(s, t, r))
    && (forall a :: a in t.bytes <==> a in s.bytes && !GoneByte(s, t, a))
    && (forall a :: a in t.bytes ==> a in s.bytes && t.bytes[a] == s.bytes[a])
  }

  lemma NoneGone(s: State, t: State)
    requires SamePlaces(s, t) && t.libs.Keys == s.libs.Keys && t.mapped == s.mapped && t.bytes == s.bytes
    ensures OnlyGone(s, t)
  {
  }

  lemma GoneStep(s: State, t: State, u: State)
    requires SamePlaces(s, t) && SamePlaces(t, u)
    ensures forall r :: GoneRange(s, u, r) <==> GoneRange(s, t, r) || GoneRange(t, u, r)
    ensures forall a :: GoneByte(s, u, a) <==> GoneByte(s, t, a) || GoneByte(t, u, a)
  {
    forall r
      ensures GoneRange(s, u, r) <==> GoneRange(s, t, r) || GoneRange(t, u, r)
    {
      RangesGone(s, t, u, r);
    }
    forall a
      ensures GoneByte(s, u, a) <==> GoneByte(s, t, a) || GoneByte(t, u, a)
    {
      BytesGone(s, t, u, a);
    }
  }

  lemma RangesGone(s: State, t: State, u: State, r: Range)
    requires SamePlaces(s, t) && SamePlaces(t, u)
    ensures GoneRange(s, u, r) <==> GoneRange(s, t, r) || GoneRange(t, u, r)
  {
    if GoneRange(s, u, r) {
      var id :| id in s.libs && id !in u.libs && r == Range(s.libs[id].base, s.libs[id].size);
      assert id in t.libs ==> r == Range(t.libs[id].base, t.libs[id].size);
    }
    if GoneRange(s, t, r) {
      var id :| id in s.libs && id !in t.libs && r == Range(s.libs[id].base, s.libs[id].size);
      assert id !in u.libs;
    }
    if GoneRange(t, u, r) {
      var id :| id in t.libs && id !in u.libs && r == Range(t.libs[id].base, t.libs[id].size);
      assert id in s.libs && r == Range(s.libs[id].base, s.libs[id].size);
    }
  }

  lemma BytesGone(s: State, t: State, u: State, a: int)
    requires SamePlaces(s, t) && SamePlaces(t, u)
    ensures GoneByte(s, u, a) <==> GoneByte(s, t, a) || GoneByte(t, u, a)
  {
    if GoneByte(s, u, a) {
      var id :| id in s.libs && id !in u.libs && s.libs[id].base <= a < s.libs[id].base as int + s.libs[id].size;
      assert id in t.libs ==> t.libs[id].base <= a < t.libs[id].base as int + t.libs[id].size;
    }
    if GoneByte(s, t, a) {
      var id :| id in s.libs && id !in t.libs && s.libs[id].base <= a < s.libs[id].base as int + s.libs[id].size;
      assert id !in u.libs;
    }
    if GoneByte(t, u, a) {
      var id :| id in t.libs && id !in u.libs && t.libs[id].base <= a < t.libs[id].base as int + t.libs[id].size;
      assert id in s.libs;
    }
  }

  lemma OnlyGoneStep(s: State, t: State, u: State)
    requires OnlyGone(s, t) && OnlyGone(t, u)
    ensures OnlyGone(s, u)
  {
    hide GoneRange, GoneByte;
    GoneStep(s, t, u);
  }

  lemma DiscardOnlyGone(st: State, id: nat)
    requires id in st.libs
    ensures OnlyGone(st, Discard(st, id))
  {
    var t, lib := Discard(st, id), st.libs[id];
    DiscardUnmaps(st, id);
    forall r
      ensures GoneRange(st, t, r) <==> r == Range(lib.base, lib.size)
    {
      assert r == Range(lib.base, lib.size) ==> id in st.libs && id !in t.libs;
    }
    forall a
      ensures GoneByte(st, t, a) <==> lib.base <= a < lib.base as int + lib.size
    {
    }
  }

  /** soinfo_unload unmaps the libraries that it takes off the list, and nothing else. */
  lemma {:induction false} UnloadOnlyGone(st: State, id: nat)
    requires Listed(st) && Unload(st, id).Some?
    ensures OnlyGone(st, Unload(st, id).value)
    decreases RankOf(st, id), 1, 0
  {
    hide OnlyGone, Unload, UnloadNeeded, Discard;
    UnloadStep(st, id);
    if st.libs[id].refCount != 1 {
      NoneGone(st, DropRef(st, id));
    } else {
      var s := Release(st, id);
      NoneGone(st, s);
      UnloadNeededOnlyGone(s, st.libs[id].rank, st.libs[id].image.needed);
      var t := UnloadNeeded(s, st.libs[id].rank, st.libs[id].image.needed).value;
      DiscardOnlyGone(t, id);
      OnlyGoneStep(st, s, t);
      OnlyGoneStep(st, t, Discard(t, id));
    }
  }

  lemma {:induction false} UnloadNeededOnlyGone(st: State, rank: nat, names: seq<string>)
    requires Listed(st) && UnloadNeeded(st, rank, names).Some?
    ensures OnlyGone(st, UnloadNeeded(st, rank, names).value)
    decreases rank, 0, |names|
  {
    hide OnlyGone, Unload, UnloadNeeded;
    UnloadNeededStep(st, rank, names);
    if names == [] {
      NoneGone(st, st);
    } else {
      var dep := FindLoaded(st, names[0]).value;
      UnloadOnlyGone(st, dep);
      var s := Unload(st, dep).value;
      UnloadNeededOnlyGone(s, rank, names[1..]);
      OnlyGoneStep(st, s, UnloadNeeded(s, rank, names[1..]).value);
    }
  }

  /** Closing a handle for the last time unmaps the library, and every library that goes with it; a close
      that is not the last unmaps nothing. */
  lemma CloseUnmaps(st: State, id: nat)
    requires Rest(st) && id in st.handles
    ensures id in st.libs && DoDlclose(st, id).Some?
    ensures var t, lib := DoDlclose(st, id).value, st.libs[id];
            && OnlyGone(st, t) && t.stranded == st.stranded
            && if lib.refCount > 1 then t.mapped == st.mapped && t.bytes == st.bytes && t.libs.Keys == st.libs.Keys
               else
                 && id !in t.libs && Range(lib.base, lib.size) !in t.mapped
                 && forall a :: lib.base <= a < lib.base as int + lib.size ==> a !in t.bytes
  {
    hide OnlyGone, Unload, Steady;
    HandleIsOwed(st, id);
    var s := st.(handles := st.handles - multiset{id});
    SteadyIsListed(st, multiset{}, {});
    NoneGone(st, s);
    CloseRest(st, id);
    UnloadOnlyGone(s, id);
    OnlyGoneStep(st, s, DoDlclose(st, id).value);
    UnloadStep(s, id);
    HandleIsCounted(st, id);
    if st.libs[id].refCount == 1 {
      GoneIsUnmapped(st, DoDlclose(st, id).value, id);
    }
  }

  lemma HandleIsCounted(st: State, id: nat)
    requires Rest(st) && id in st.handles
    ensures id in st.libs && st.libs[id].refCount >= 1
  {
    assert CountedAt(st, multiset{}, id);
  }

  lemma GoneIsUnmapped(s: State, t: State, id: nat)
    requires OnlyGone(s, t) && id in s.libs && id !in t.libs
    ensures Range(s.libs[id].base, s.libs[id].size) !in t.mapped
    ensures forall a :: s.libs[id].base <= a < s.libs[id].base as int + s.libs[id].size ==> a !in t.bytes
  {
    assert GoneRange(s, t, Range(s.libs[id].base, s.libs[id].size));
    forall a | s.libs[id].base <= a < s.libs[id].base as int + s.libs[id].size
      ensures a !in t.bytes
    {
      assert GoneByte(s, t, a);
    }
  }

  // ----------------------------------------------------------------- failed links

  /** A library stays where it was loaded while its needed array is filled. */
  lemma {:induction false} FilledInPlace(env: Env, id: nat, s: State)
    requires Listed(s) && id in s.libs
    ensures var t := LoadNeeded(env, id, s).0;
            id in t.libs && t.libs[id].base == s.libs[id].base && t.libs[id].size == s.libs[id].size
    decreases |s.libs[id].image.needed| - |s.libs[id].scope|
  {
    hide LoadNeeded, FindLibrary;
    if |s.libs[id].scope| < |s.libs[id].image.needed| {
      LoadNeededStep(env, id, s);
      var (t, dep) := FindLibrary(env, s.libs[id].image.needed[|s.libs[id].scope|], s);
      assert Same(s.libs[id], t.libs[id]);
      if dep.Some? {
        FilledInPlace(env, id, AddNeeded(t, id, dep.value));
      }
    } else {
      LoadNeededDone(env, id, s);
    }
  }

  lemma LinkedInPlace(env: Env, id: nat, s: State)
    requires Listed(s) && id in s.libs
    ensures var u := LinkImage(env, id, s).0;
            id in u.libs && u.libs[id].base == s.libs[id].base && u.libs[id].size == s.libs[id].size
  {
    hide LinkImage, LoadNeeded, FinishLink;
    LinkImageStep(env, id, s);
    if Linkable(s.libs[id].image) {
      FilledInPlace(env, id, s);
      FinishLinkCases(env, id, LoadNeeded(env, id, s).0);
    }
  }

  /** A library that was loaded and did not link is unmapped again: its range is not mapped, and no byte
      of it is left. */
  lemma FailedLinkUnmaps(env: Env, name: string, st: State)
    requires Listed(st) && FindLoaded(st, name).None?
    requires LoadLibrary(env, name, st).1.Some? && FindInternal(env, name, st).1.None?
    ensures var (s, r) := LoadLibrary(env, name, st);
            var t := FindInternal(env, name, st).0;
            && r.value !in t.libs && Range(s.libs[r.value].base, s.libs[r.value].size) !in t.mapped
            && var lib := s.libs[r.value];
               forall a :: lib.base <= a < lib.base as int + lib.size ==> a !in t.bytes
  {
    hide LoadLibrary, LinkImage, FindInternal;
    FindInternalStep(env, name, st);
    var (s, r) := LoadLibrary(env, name, st);
    LinkedInPlace(env, r.value, s);
    DiscardUnmaps(LinkImage(env, r.value, s).0, r.value);
  }

  // -------------------------------------------------------------------- whole runs

  /** The reservation is granted, and then its mappings are refused or no record can be had. */
  predicate RefusedHalfWay(env: Env, name: string, st: State) {
    && name in env.files && LoadSize(env.files[name].phdrs) != 0 && env.ok(st.clock)
    && Placeable(st.mapped, env.addr(st.clock), LoadSize(env.files[name].phdrs))
    && (!env.ok(st.clock + 1) || |Basename(name)| >= 128 || (st.free == 0 && !env.ok(st.clock + 2)))
  }

  /** load_library strands a range exactly when it is refused half-way, and then that of the reservation. */
  lemma StrandsIffRefusedHalfWay(env: Env, name: string, st: State)
    requires Listed(st)
    ensures LoadLibrary(env, name, st).0.stranded ==
            if RefusedHalfWay(env, name, st)
            then st.stranded + {Range(env.addr(st.clock), LoadSize(env.files[name].phdrs))} else st.stranded
    ensures RefusedHalfWay(env, name, st) ==> LoadLibrary(env, name, st).1.None?
  {
    hide WithImage, Placeable, Names, Basename, LoadSize, MinVaddr, Sub32;
  }

  /** After any run every mapped range is that of a listed library, or of a load that was refused half-way,
      and not both; every listed library has its range; and every byte lies in a mapped range. */
  lemma AddressSpaceIsAccounted(table: SymTable, ops: seq<Op>)
    requires Legal(Init(table), ops)
    ensures Run(Init(table), ops).Some?
    ensures var st := Run(Init(table), ops).value;
            && (forall r :: r in st.mapped <==>
                  r in st.stranded || exists id :: id in st.libs && id != LIBDL && r == RangeOf(st.libs[id]))
            && (forall id :: id in st.libs && id != LIBDL ==> RangeOf(st.libs[id]) !in st.stranded)
            && (forall a :: a in st.bytes ==> exists r :: r in st.mapped && r.start <= a < r.start + r.size)
  {
    hide Rest, Run, Legal;
    InitRest(table);
    RunsAreSafe(Init(table), ops);
    RestIsAccounted(Run(Init(table), ops).value);
  }

  lemma RestIsAccounted(st: State)
    requires Rest(st)
    ensures forall r :: r in st.mapped <==>
              r in st.stranded || exists id :: id in st.libs && id != LIBDL && r == RangeOf(st.libs[id])
    ensures forall id :: id in st.libs && id != LIBDL ==> RangeOf(st.libs[id]) !in st.stranded
    ensures forall a :: a in st.bytes ==> exists r :: r in st.mapped && r.start <= a < r.start + r.size
  {
    hide Deps, Bound, Counted, Shape;
    forall r | r in st.mapped && r !in st.stranded
      ensures exists id :: id in st.libs && id != LIBDL && r == RangeOf(st.libs[id])
    {
      assert ListedRange(st, r);
    }
    forall a | a in st.bytes
      ensures exists r :: r in st.mapped && r.start <= a < r.start + r.size
    {
      assert InRanges(st.mapped, a);
    }
  }
}
