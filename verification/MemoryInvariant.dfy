/** The bytes of the listed libraries: loading, relocating and unmapping one library leaves the images
    of the others as they were. */
module MemoryInvariant {
  import opened Base
  import opened Memory
  import opened Segments
  import opened Extent
  import opened SegmentTheorems
  import opened Relocation
  import opened RelocationTheorems
  import opened RebasedImage
  import opened Lifecycle
  import opened LifecycleInvariant
  import opened LoadingInvariant

  // ------------------------------------------------------ self-contained images

  /** The entry names a symbol of the table, and patches a word of its own library's extent. */
  predicate OwnPlace(image: Image, rel: Rel) {
    && rel.sym < |image.table.syms|
    && (rel.kind != R_ARM_NONE ==>
          && MinVaddr(image.phdrs) <= rel.offset
          && rel.offset as int + 4 <= MinVaddr(image.phdrs) as int + LoadSize(image.phdrs))
  }

  predicate OffsetsApart(r: Rel, s: Rel) {
    r.kind == R_ARM_NONE || s.kind == R_ARM_NONE || r.offset as int + 4 <= s.offset || s.offset as int + 4 <= r.offset
  }

  /** A file that loads as the note at the head of linker_phdr.cpp asks, and whose entries patch
      distinct words of the library itself. */
  predicate SelfContained(image: Image) {
    && AllCongruent(image.phdrs, image.file)
    && (forall i :: 0 <= i < |Entries(image)| ==> OwnPlace(image, Entries(image)[i]))
    && (forall i, j :: 0 <= i < j < |Entries(image)| ==> OffsetsApart(Entries(image)[i], Entries(image)[j]))
  }

  predicate AllSelfContained(env: Env) {
    forall name :: name in env.files ==> SelfContained(env.files[name])
  }

  /** Where the library is, and how it got its bias. */
  predicate At(lib: Lib) {
    && 0 < lib.size && lib.base as int + lib.size <= WORDS
    && lib.size == LoadSize(lib.image.phdrs) && lib.bias == Sub32(lib.base, MinVaddr(lib.image.phdrs))
  }

  lemma PlaceInside(lib: Lib, rel: Rel)
    requires At(lib) && OwnPlace(lib.image, rel) && rel.kind != R_ARM_NONE
    ensures Add32(rel.offset, lib.bias) == lib.base as int - MinVaddr(lib.image.phdrs) + rel.offset
    ensures lib.base <= Add32(rel.offset, lib.bias)
    ensures Add32(rel.offset, lib.bias) as int + 4 <= lib.base as int + lib.size
  {
    WordShift(rel.offset, lib.base, MinVaddr(lib.image.phdrs), 3);
  }

  lemma PlacesApart(lib: Lib, ctx: Context)
    requires At(lib) && SelfContained(lib.image) && ctx.bias == lib.bias
    ensures PlacesDisjoint(ctx, Entries(lib.image))
  {
    var rels := Entries(lib.image);
    forall i, j | 0 <= i < j < |rels|
      ensures RelocationTheorems.Apart(ctx, rels[i], rels[j])
    {
      assert OwnPlace(lib.image, rels[i]) && OwnPlace(lib.image, rels[j]) && OffsetsApart(rels[i], rels[j]);
      if rels[i].kind != R_ARM_NONE && rels[j].kind != R_ARM_NONE {
        PlaceInside(lib, rels[i]);
        PlaceInside(lib, rels[j]);
      }
    }
  }

  /** Every byte of the reservation can be accessed. */
  ghost predicate Present(base: Word, size: Word, m: Mem) {
    forall a :: Within(a, base, size) ==> a in m
  }

  lemma PlacesFit(lib: Lib, ctx: Context, m: Mem)
    requires At(lib) && SelfContained(lib.image) && Present(lib.base, lib.size, m)
    requires ctx.bias == lib.bias && ctx.table == lib.image.table
    ensures AllFit(ctx, Entries(lib.image), m)
  {
    var rels := Entries(lib.image);
    forall i | 0 <= i < |rels|
      ensures Fits(ctx, rels[i], m)
    {
      assert OwnPlace(lib.image, rels[i]);
      if rels[i].kind != R_ARM_NONE {
        PlaceInside(lib, rels[i]);
        WordPresent(lib.base, lib.size, m, Add32(rels[i].offset, lib.bias));
      }
    }
  }

  lemma WordPresent(base: Word, size: Word, m: Mem, a: int)
    requires Present(base, size, m) && base <= a && a + 4 <= base as int + size
    ensures HasWord(m, a)
  {
    assert Within(a, base, size) && Within(a + 1, base, size) && Within(a + 2, base, size) && Within(a + 3, base, size);
  }

  lemma NotCovered(lib: Lib, ctx: Context, a: int)
    requires At(lib) && SelfContained(lib.image) && ctx.bias == lib.bias && !Within(a, lib.base, lib.size)
    ensures forall i :: 0 <= i < |Entries(lib.image)| ==> !Covers(ctx, Entries(lib.image)[i], a)
  {
    var rels := Entries(lib.image);
    forall i | 0 <= i < |rels| && rels[i].kind != R_ARM_NONE
      ensures !Covers(ctx, rels[i], a)
    {
      assert OwnPlace(lib.image, rels[i]);
      PlaceInside(lib, rels[i]);
    }
  }

  // ------------------------------------------------------------- the invariant

  /** One memory is part of another. */
  ghost predicate PartOf(f: Mem, m: Mem) {
    forall a :: a in f ==> SameByteAt(f, m, a)
  }

  predicate SameByteAt(m: Mem, m': Mem, a: int) {
    a in m ==> a in m' && m'[a] == m[a]
  }

  /** The reservation as loading alone leaves it. */
  function FreshImage(b: Backend, lib: Lib): Mem {
    ImageAt(b, lib.image.file, lib.image.phdrs, lib.base)
  }

  /** And once the entries have been applied to it. */
  function LinkedImage(b: Backend, lib: Lib, ctx: Context): Mem {
    AfterPasses(ctx, Entries(lib.image), FreshImage(b, lib))
  }

  /** The library is in memory, byte for byte, as loading and, if it is linked, relocating it made
      it; the bindings recorded are those of its entries. */
  ghost predicate HasImage(b: Backend, lib: Lib, ctx: Context, m: Mem) {
    && At(lib) && SelfContained(lib.image)
    && if lib.linked
       then LinkedAs(lib, ctx) && PartOf(LinkedImage(b, lib, ctx), m)
       else lib.bindings == [] && PartOf(FreshImage(b, lib), m)
  }

  predicate LinkedAs(lib: Lib, ctx: Context) {
    && |lib.scope| == |ctx.scope| && Accepts(ctx, Entries(lib.image))
    && lib.bindings == Bindings(ctx, lib.scope, Entries(lib.image))
  }

  ghost predicate ImageIn(b: Backend, st: State, id: nat)
    requires id in st.libs
  {
    HasImage(b, st.libs[id], ContextOf(st, st.libs[id]), st.bytes)
  }

  /** Every listed library but libdl and library k is in memory as it should be, its providers being
      where they are now. */
  ghost predicate IntactBut(b: Backend, st: State, k: int) {
    forall id :: id in st.libs && id != LIBDL && id != k ==> ImageIn(b, st, id)
  }

  ghost predicate Intact(b: Backend, st: State) {
    IntactBut(b, st, -1)
  }

  // ------------------------------------------------------------------- frames

  predicate SameImage(a: Lib, b: Lib) {
    && a.image == b.image && a.base == b.base && a.size == b.size && a.bias == b.bias
    && a.bindings == b.bindings && a.linked == b.linked
  }

  ghost predicate BytesKept(base: Word, size: Word, m: Mem, m': Mem) {
    forall a :: Within(a, base, size) ==> SameByteAt(m, m', a)
  }

  /** Library id, if it is left, is as it was, and so are its bytes. */
  ghost predicate PreservesAt(s: State, t: State, id: nat) {
    id in t.libs ==>
      && id in s.libs && SameImage(s.libs[id], t.libs[id])
      && BytesKept(s.libs[id].base, s.libs[id].size, s.bytes, t.bytes)
  }

  ghost predicate Preserves(s: State, t: State) {
    forall id :: id != LIBDL ==> PreservesAt(s, t, id)
  }

  /** The needed array of a linked library is as it was, and so are the libraries in it. */
  predicate ScopeKept(s: State, t: State, id: nat) {
    id in t.libs && id in s.libs && t.libs[id].linked ==>
      && t.libs[id].scope == s.libs[id].scope
      && forall j :: 0 <= j < |s.libs[id].scope| ==> ProviderKept(s, t, s.libs[id].scope[j])
  }

  predicate ProviderKept(s: State, t: State, d: nat) {
    ProviderOf(t, d) == ProviderOf(s, d)
  }

  lemma BytesKeptRefl(base: Word, size: Word, m: Mem)
    ensures BytesKept(base, size, m, m)
  {
  }

  lemma BytesKeptStep(base: Word, size: Word, m: Mem, m': Mem, m'': Mem)
    requires BytesKept(base, size, m, m') && BytesKept(base, size, m', m'')
    ensures BytesKept(base, size, m, m'')
  {
    forall a | Within(a, base, size)
      ensures SameByteAt(m, m'', a)
    {
      assert SameByteAt(m, m', a) && SameByteAt(m', m'', a);
    }
  }

  /** The image of a library is a memory of its reservation. */
  lemma ImageKeys(b: Backend, lib: Lib, ctx: Context)
    requires At(lib)
    ensures forall a :: a in FreshImage(b, lib) <==> Within(a, lib.base, lib.size)
    ensures LinkedImage(b, lib, ctx).Keys == FreshImage(b, lib).Keys
  {
  }

  lemma PartKept(f: Mem, base: Word, size: Word, m: Mem, m': Mem)
    requires PartOf(f, m) && BytesKept(base, size, m, m') && forall a :: a in f ==> Within(a, base, size)
    ensures PartOf(f, m')
  {
    forall a | a in f
      ensures SameByteAt(f, m', a)
    {
      assert SameByteAt(f, m, a) && SameByteAt(m, m', a);
    }
  }

  lemma ImageFrame(b: Backend, x: Lib, y: Lib, ctx: Context, m: Mem, m': Mem)
    requires HasImage(b, x, ctx, m) && SameImage(x, y) && (y.linked ==> y.scope == x.scope)
    requires BytesKept(x.base, x.size, m, m')
    ensures HasImage(b, y, ctx, m')
  {
    hide PartOf, BytesKept, Accepts, Bindings, AfterPasses, ImageAt, SelfContained;
    ImageKeys(b, x, ctx);
    PartKept(if x.linked then LinkedImage(b, x, ctx) else FreshImage(b, x), x.base, x.size, m, m');
  }

  lemma ContextKept(s: State, t: State, id: nat)
    requires id in s.libs && id in t.libs && SameImage(s.libs[id], t.libs[id]) && t.libs[id].linked
    requires ScopeKept(s, t, id)
    ensures ContextOf(t, t.libs[id]) == ContextOf(s, s.libs[id])
  {
    var p, q := ProvidersOf(s, s.libs[id].scope), ProvidersOf(t, t.libs[id].scope);
    forall j | 0 <= j < |p|
      ensures p[j] == q[j]
    {
      assert ProviderKept(s, t, s.libs[id].scope[j]);
    }
    assert p == q;
  }

  /** An unlinked library depends on no providers. */
  lemma AnyContext(b: Backend, lib: Lib, ctx: Context, ctx': Context, m: Mem)
    requires HasImage(b, lib, ctx, m) && !lib.linked
    ensures HasImage(b, lib, ctx', m)
  {
  }

  lemma ImageStays(b: Backend, s: State, t: State, id: nat)
    requires id in t.libs && id in s.libs && ImageIn(b, s, id) && PreservesAt(s, t, id) && ScopeKept(s, t, id)
    ensures ImageIn(b, t, id)
  {
    hide HasImage, SameImage, BytesKept, ScopeKept, ContextOf;
    SameImageParts(s.libs[id], t.libs[id]);
    if t.libs[id].linked {
      ContextKept(s, t, id);
      ScopeOfLinked(s, t, id);
    } else {
      AnyContext(b, s.libs[id], ContextOf(s, s.libs[id]), ContextOf(t, t.libs[id]), s.bytes);
    }
    ImageFrame(b, s.libs[id], t.libs[id], ContextOf(t, t.libs[id]), s.bytes, t.bytes);
  }

  lemma SameImageParts(a: Lib, b: Lib)
    requires SameImage(a, b)
    ensures a.linked == b.linked
  {
  }

  lemma ScopeOfLinked(s: State, t: State, id: nat)
    requires id in t.libs && id in s.libs && t.libs[id].linked && ScopeKept(s, t, id)
    ensures t.libs[id].scope == s.libs[id].scope
  {
  }

  /** Libraries other than k that are left stay as they were. */
  lemma KeptIntact(b: Backend, s: State, t: State, k: int)
    requires IntactBut(b, s, k)
    requires forall id :: id != LIBDL && id != k ==> PreservesAt(s, t, id) && ScopeKept(s, t, id)
    ensures IntactBut(b, t, k)
  {
    hide ImageIn, SameImage, BytesKept, ScopeKept;
    forall id | id in t.libs && id != LIBDL && id != k
      ensures ImageIn(b, t, id)
    {
      assert PreservesAt(s, t, id) && ScopeKept(s, t, id);
      ImageStays(b, s, t, id);
    }
  }

  /** Memory is the same, and the libraries of t are those of s but for counts, flags and needed
      arrays. */
  predicate OnlyMarks(s: State, t: State) {
    t.bytes == s.bytes && t.libs.Keys == s.libs.Keys && forall id :: id in t.libs ==> SameImage(s.libs[id], t.libs[id])
  }

  lemma MarksPreserve(s: State, t: State)
    requires OnlyMarks(s, t)
    ensures Preserves(s, t)
  {
    hide BytesKept, SameImage;
    forall id | id in t.libs
      ensures PreservesAt(s, t, id)
    {
      assert id in s.libs;
      BytesKeptRefl(s.libs[id].base, s.libs[id].size, s.bytes);
    }
  }

  /** And the needed arrays of linked libraries are the same too. */
  predicate SameScopes(s: State, t: State) {
    && t.libs.Keys == s.libs.Keys
    && forall id :: id in t.libs && t.libs[id].linked ==> t.libs[id].scope == s.libs[id].scope
  }

  lemma MarksKeepScope(s: State, t: State, id: nat)
    requires OnlyMarks(s, t) && SameScopes(s, t)
    ensures ScopeKept(s, t, id)
  {
    if id in t.libs {
      forall j | 0 <= j < |s.libs[id].scope|
        ensures ProviderKept(s, t, s.libs[id].scope[j])
      {
        var d := s.libs[id].scope[j];
        assert d in t.libs ==> SameImage(s.libs[d], t.libs[d]);
      }
    }
  }

  lemma MarksIntact(b: Backend, s: State, t: State)
    requires Intact(b, s) && OnlyMarks(s, t) && SameScopes(s, t)
    ensures Intact(b, t)
  {
    hide ImageIn, OnlyMarks, SameScopes, ScopeKept, PreservesAt;
    MarksPreserve(s, t);
    forall id | id != LIBDL
      ensures PreservesAt(s, t, id) && ScopeKept(s, t, id)
    {
      MarksKeepScope(s, t, id);
    }
    KeptIntact(b, s, t, -1);
  }

  /** The two ranges have no byte in common. */
  predicate RangesDisjoint(a: int, n: int, b: int, k: int) {
    a + n <= b || b + k <= a
  }

  // ------------------------------------------------------------------ loading

  lemma RoomIsReserved(phdrs: seq<Phdr>, base: Word, file: seq<Byte>)
    requires AllCongruent(phdrs, file) && 0 < LoadSize(phdrs)
    requires base % PAGE_SIZE == 0 && base as int + LoadSize(phdrs) < WORDS
    ensures Reserved(phdrs, base)
  {
    forall i | IsLoad(phdrs, i)
      ensures Bounded(phdrs[i])
    {
      assert Congruent(phdrs[i], file);
    }
    ExtentIsHull(phdrs);
    var low, high := MinVaddr(phdrs) as int, MinVaddr(phdrs) as int + LoadSize(phdrs);
    AlignedShift(LoadSize(phdrs), low);
    AlignedShift(LoadSize(phdrs), base);
    AlignedBound(base as int + LoadSize(phdrs), 0xffff_f000);
  }

  /** Loading an image changes no byte outside its reservation, and makes every byte inside it
      accessible. */
  lemma LoadsInside(b: Backend, image: Image, base: Word, m: Mem, other: Word, n: Word)
    requires SelfContained(image) && 0 < LoadSize(image.phdrs)
    requires base % PAGE_SIZE == 0 && base as int + LoadSize(image.phdrs) < WORDS
    requires RangesDisjoint(other, n, base, LoadSize(image.phdrs))
    ensures BytesKept(other, n, m, WithImage(b, image, base, m))
  {
    var size, bias := LoadSize(image.phdrs), Sub32(base, MinVaddr(image.phdrs));
    RoomIsReserved(image.phdrs, base, image.file);
    LoadedElsewhere(b, image.file, image.phdrs, base, m + Blank(base, size));
    forall a | Within(a, other, n)
      ensures SameByteAt(m, WithImage(b, image, base, m), a)
    {
      assert !Within(a, base, size);
    }
  }

  /** The reservation then holds the image, whatever memory was before. */
  lemma LoadsImage(b: Backend, image: Image, base: Word, m: Mem)
    ensures PartOf(ImageAt(b, image.file, image.phdrs, base), WithImage(b, image, base, m))
  {
    var size := LoadSize(image.phdrs);
    var blank := Blank(base, size);
    forall a | a in ImageAt(b, image.file, image.phdrs, base)
      ensures SameByteAt(ImageAt(b, image.file, image.phdrs, base), WithImage(b, image, base, m), a)
    {
      assert a in blank && (m + blank)[a] == blank[a];
    }
  }

  /** What load_library does to memory: nothing, or the image is loaded into a reservation that
      was free. */
  predicate Implants(env: Env, name: string, st: State, s: State, base: Word) {
    && name in env.files && 0 < LoadSize(env.files[name].phdrs)
    && Placeable(st.mapped, base, LoadSize(env.files[name].phdrs))
    && s.bytes == WithImage(env.backend, env.files[name], base, st.bytes)
  }

  predicate NewAt(lib: Lib, image: Image, base: Word) {
    && lib.image == image && lib.base == base && lib.size == LoadSize(image.phdrs)
    && lib.bias == Sub32(base, MinVaddr(image.phdrs)) && lib.bindings == [] && !lib.linked
  }

  lemma LoadLibraryImplants(env: Env, name: string, st: State)
    requires Listed(st)
    ensures var (s, r) := LoadLibrary(env, name, st);
            && (r.None? ==> s.libs == st.libs)
            && (r.None? ==> s.bytes == st.bytes || Implants(env, name, st, s, env.addr(st.clock)))
            && (r.Some? ==>
                  && r.value == st.nextId && s.libs == st.libs[r.value := s.libs[r.value]]
                  && Implants(env, name, st, s, env.addr(st.clock))
                  && NewAt(s.libs[r.value], env.files[name], env.addr(st.clock)))
  {
    hide WithImage, Placeable, LoadLibrary, LoadSize, MinVaddr, Basename;
    LoadLibraryCases(env, name, st);
  }

  lemma ImplantPreservesAt(env: Env, name: string, st: State, s: State, base: Word, id: nat)
    requires AllSelfContained(env) && Placed(st) && Implants(env, name, st, s, base)
    requires id in st.libs && id != LIBDL && id in s.libs && s.libs[id] == st.libs[id]
    ensures PreservesAt(st, s, id)
  {
    assert Range(st.libs[id].base, st.libs[id].size) in st.mapped;
    LoadsInside(env.backend, env.files[name], base, st.bytes, st.libs[id].base, st.libs[id].size);
  }

  lemma NewHasImage(env: Env, name: string, st: State, s: State, base: Word, lib: Lib, ctx: Context)
    requires AllSelfContained(env) && Implants(env, name, st, s, base) && NewAt(lib, env.files[name], base)
    ensures HasImage(env.backend, lib, ctx, s.bytes)
  {
    LoadsImage(env.backend, env.files[name], base, st.bytes);
  }

  /** The libraries of a needed array were there before the new one. */
  lemma OldScopeKept(st: State, s: State, k: nat, id: nat)
    requires Deps(st) && id in st.libs && k !in st.libs
    requires s.libs == st.libs || (k in s.libs && s.libs == st.libs[k := s.libs[k]])
    ensures ScopeKept(st, s, id)
  {
    forall j | 0 <= j < |st.libs[id].scope|
      ensures ProviderKept(st, s, st.libs[id].scope[j])
    {
      assert DepAt(st, id, j);
    }
  }

  lemma LoadLibraryIntact(env: Env, name: string, st: State)
    requires Listed(st) && Placed(st) && Deps(st) && Intact(env.backend, st) && AllSelfContained(env)
    ensures Intact(env.backend, LoadLibrary(env, name, st).0)
  {
    hide Placed, Deps, Implants, LoadLibrary, HasImage, AllSelfContained, SameImage, BytesKept, ScopeKept;
    LoadLibraryImplants(env, name, st);
    var (s, r) := LoadLibrary(env, name, st);
    var base, k := env.addr(st.clock), st.nextId;
    forall id | id != LIBDL && id != k
      ensures PreservesAt(st, s, id) && ScopeKept(st, s, id)
    {
      OldLibraryKept(env, name, st, s, r, id);
    }
    KeptIntact(env.backend, st, s, k);
    if r.Some? {
      NewHasImage(env, name, st, s, base, s.libs[k], ContextOf(s, s.libs[k]));
    }
  }

  lemma OldLibraryKept(env: Env, name: string, st: State, s: State, r: Option<nat>, id: nat)
    requires Listed(st) && Placed(st) && Deps(st) && AllSelfContained(env) && id != LIBDL && id != st.nextId
    requires r.None? ==> s.libs == st.libs && (s.bytes == st.bytes || Implants(env, name, st, s, env.addr(st.clock)))
    requires r.Some? ==>
               && st.nextId in s.libs && s.libs == st.libs[st.nextId := s.libs[st.nextId]]
               && Implants(env, name, st, s, env.addr(st.clock))
    ensures PreservesAt(st, s, id) && ScopeKept(st, s, id)
  {
    hide Placed, Deps, Implants, AllSelfContained, BytesKept, ScopeKept;
    if id in s.libs {
      OldScopeKept(st, s, st.nextId, id);
      if s.bytes == st.bytes {
        BytesKeptRefl(st.libs[id].base, st.libs[id].size, st.bytes);
      } else {
        ImplantPreservesAt(env, name, st, s, env.addr(st.clock), id);
      }
    } else {
      NoScope(st, s, id);
    }
  }

  lemma NoScope(s: State, t: State, id: nat)
    requires id !in t.libs
    ensures ScopeKept(s, t, id)
  {
  }

  // ------------------------------------------------------------------ linking

  /** Binding i was made for some entry with a definition. */
  lemma {:induction false} BindingHasEntry(ctx: Context, ids: seq<nat>, rels: seq<Rel>, i: nat) returns (j: nat)
    requires |ids| == |ctx.scope| && i < |Bindings(ctx, ids, rels)|
    ensures j < |rels| && rels[j].kind != R_ARM_NONE && 0 < rels[j].sym < |ctx.table.syms|
    ensures Definition(ctx, rels[j].sym).Some?
    ensures var b, def := Bindings(ctx, ids, rels)[i], Definition(ctx, rels[j].sym).value;
            b.kind == rels[j].kind && b.place == Place(ctx, rels[j]) && b.value == DefinedAddress(ctx, def)
  {
    hide Definition, DefinedAddress, Place, BoundIn;
    var rel, rest := rels[0], Bindings(ctx, ids, rels[1..]);
    if rel.kind == R_ARM_NONE || rel.sym == 0 || rel.sym >= |ctx.table.syms| || Definition(ctx, rel.sym).None? {
      j := BindingHasEntry(ctx, ids, rels[1..], i);
      j := j + 1;
    } else if i == 0 {
      j := 0;
    } else {
      j := BindingHasEntry(ctx, ids, rels[1..], i - 1);
      j := j + 1;
    }
  }

  lemma AcceptsIsAllAcceptable(ctx: Context, rels: seq<Rel>, m: Mem)
    requires AllFit(ctx, rels, m)
    ensures AfterPasses(ctx, rels, m) == Relocate(ctx, rels, m).0
    ensures Accepts(ctx, rels) <==> Relocate(ctx, rels, m).1
  {
    SucceedsIffAcceptable(ctx, rels, m);
    assert forall i :: 0 <= i < |rels| ==> Fits(ctx, rels[i], m);
  }

  lemma AfterOne(ctx: Context, rel: Rel, f: Mem, m: Mem)
    requires PartOf(f, m) && Fits(ctx, rel, f)
    ensures Fits(ctx, rel, m) && PartOf(RelocateOne(ctx, rel, f), RelocateOne(ctx, rel, m))
  {
    if rel.kind != R_ARM_NONE {
      var p: int := Place(ctx, rel);
      assert SameByteAt(f, m, p) && SameByteAt(f, m, p + 1) && SameByteAt(f, m, p + 2) && SameByteAt(f, m, p + 3);
      WriteOver(f, m, p, NewWord(ctx, rel, ReadWord(f, p)));
    }
  }

  lemma WriteOver(f: Mem, m: Mem, p: int, w: Word)
    requires PartOf(f, m) && HasWord(f, p) && HasWord(m, p)
    ensures PartOf(WriteWord(f, p, w), WriteWord(m, p, w))
  {
    hide ByteOf;
    forall a | a in WriteWord(f, p, w)
      ensures SameByteAt(WriteWord(f, p, w), WriteWord(m, p, w), a)
    {
      assert SameByteAt(f, m, a);
    }
  }

  /** What a pass does to a part of memory that holds all its places does not depend on the rest. */
  lemma {:induction false} PassOverPart(ctx: Context, rels: seq<Rel>, f: Mem, m: Mem)
    requires PartOf(f, m) && AllFit(ctx, rels, f)
    ensures AllFit(ctx, rels, m) && PartOf(Relocate(ctx, rels, f).0, Relocate(ctx, rels, m).0)
  {
    AllFitOver(ctx, rels, f, m);
    if rels != [] && Acceptable(ctx, rels[0]) {
      var f', m' := RelocateOne(ctx, rels[0], f), RelocateOne(ctx, rels[0], m);
      AfterOne(ctx, rels[0], f, m);
      FitsAfter(ctx, rels, f, f');
      PassOverPart(ctx, rels[1..], f', m');
    }
  }

  lemma AllFitOver(ctx: Context, rels: seq<Rel>, f: Mem, m: Mem)
    requires PartOf(f, m) && AllFit(ctx, rels, f)
    ensures AllFit(ctx, rels, m) && (rels != [] ==> Fits(ctx, rels[0], f))
  {
    forall i | 0 <= i < |rels|
      ensures Fits(ctx, rels[i], m)
    {
      assert Fits(ctx, rels[i], f);
      AfterOne(ctx, rels[i], f, m);
    }
  }

  /** The passes of a library leave the bytes outside its reservation alone. */
  lemma PassesInside(lib: Lib, ctx: Context, m: Mem, other: Word, n: Word)
    requires At(lib) && SelfContained(lib.image) && ctx.bias == lib.bias
    requires RangesDisjoint(other, n, lib.base, lib.size)
    ensures BytesKept(other, n, m, AfterPasses(ctx, Entries(lib.image), m))
  {
    var rels := Entries(lib.image);
    if AllFit(ctx, rels, m) {
      forall a | Within(a, other, n) && a in m
        ensures SameByteAt(m, Relocate(ctx, rels, m).0, a)
      {
        NotCovered(lib, ctx, a);
        UncoveredByte(ctx, rels, m, a);
      }
    }
  }

  // Memory of t is that of s after the passes of library id; only id changed.
  predicate Passes(s: State, t: State, id: nat) {
    && id in s.libs && t.libs.Keys == s.libs.Keys
    && (forall x :: x in s.libs && x != id ==> t.libs[x] == s.libs[x])
    && t.bytes == AfterPasses(ContextOf(s, s.libs[id]), Entries(s.libs[id].image), s.bytes)
  }

  lemma PassesPreserve(b: Backend, s: State, t: State, id: nat, x: nat)
    requires Placed(s) && Intact(b, s) && Passes(s, t, id) && id != LIBDL && x != LIBDL && x != id
    ensures PreservesAt(s, t, x)
  {
    if x in s.libs {
      assert ImageIn(b, s, id);
      assert RangesApart(s.libs[x], s.libs[id]);
      PassesInside(s.libs[id], ContextOf(s, s.libs[id]), s.bytes, s.libs[x].base, s.libs[x].size);
    }
  }

  // The library is the same but for what its link recorded.
  predicate SamePlace(a: Lib, b: Lib) {
    b.image == a.image && b.base == a.base && b.size == a.size && b.bias == a.bias
  }

  lemma PassesKeepScope(s: State, t: State, id: nat, x: nat)
    requires Passes(s, t, id) && SamePlace(s.libs[id], t.libs[id]) && x != id
    ensures ScopeKept(s, t, x)
  {
    if x in t.libs {
      forall j | 0 <= j < |s.libs[x].scope|
        ensures ProviderKept(s, t, s.libs[x].scope[j])
      {
      }
    }
  }

  /** The passes of a library leave the others as they were. */
  lemma PassesIntact(b: Backend, s: State, t: State, id: nat)
    requires Placed(s) && Intact(b, s) && Passes(s, t, id) && id != LIBDL && SamePlace(s.libs[id], t.libs[id])
    ensures IntactBut(b, t, id)
  {
    hide ImageIn, PreservesAt, ScopeKept, Placed, Passes, SamePlace;
    forall x | x != LIBDL && x != id
      ensures PreservesAt(s, t, x) && ScopeKept(s, t, x)
    {
      PassesPreserve(b, s, t, id, x);
      PassesKeepScope(s, t, id, x);
    }
    KeptIntact(b, s, t, id);
  }

  /** The passes make the loaded image the linked one. */
  lemma PassesLink(b: Backend, x: Lib, y: Lib, ctx: Context, m: Mem)
    requires HasImage(b, x, ctx, m) && !x.linked && SamePlace(x, y) && y.linked && LinkedAs(y, ctx)
    requires ctx.bias == x.bias && ctx.table == x.image.table
    ensures HasImage(b, y, ctx, AfterPasses(ctx, Entries(x.image), m))
  {
    hide Accepts, Bindings, SelfContained, PartOf, ImageAt;
    var f := FreshImage(b, x);
    FreshPresent(b, x);
    PlacesFit(x, ctx, f);
    PassOverPart(ctx, Entries(x.image), f, m);
  }

  lemma FreshPresent(b: Backend, lib: Lib)
    requires At(lib)
    ensures Present(lib.base, lib.size, FreshImage(b, lib))
  {
    ImageKeys(b, lib, Context(NO_TABLE, 0, 0, []));
  }

  lemma PassedIntact(b: Backend, st: State, id: nat)
    requires Placed(st) && Intact(b, st) && id in st.libs && id != LIBDL
    ensures IntactBut(b, Passed(st, id), id)
  {
    hide IntactBut, Placed;
    PassesIntact(b, st, Passed(st, id), id);
  }

  lemma SameProviders(s: State, t: State, ids: seq<nat>)
    requires forall d :: ProviderKept(s, t, d)
    ensures ProvidersOf(t, ids) == ProvidersOf(s, ids)
  {
    var p, q := ProvidersOf(s, ids), ProvidersOf(t, ids);
    forall j | 0 <= j < |ids|
      ensures p[j] == q[j]
    {
      assert ProviderKept(s, t, ids[j]);
    }
    assert p == q;
  }

  lemma RelocatedIntact(b: Backend, st: State, id: nat)
    requires Placed(st) && Intact(b, st) && id in st.libs && id != LIBDL && Relocatable(st, id) && !st.libs[id].linked
    ensures Intact(b, Relocated(st, id))
  {
    hide HasImage, PreservesAt, Placed, Accepts, Bindings, AfterPasses, SelfContained;
    var lib, t := st.libs[id], Relocated(st, id);
    var ctx := ContextOf(st, lib);
    assert ImageIn(b, st, id);
    SameProviders(st, t, lib.scope);
    assert ContextOf(t, t.libs[id]) == ctx;
    PassesIntact(b, st, t, id);
    PassesLink(b, lib, t.libs[id], ctx, st.bytes);
    assert ImageIn(b, t, id);
  }

  /** The end of a link leaves the other libraries alone, and this one too if it gets its flag. */
  ghost predicate LinkIntact(b: Backend, st: State, id: nat) {
    IntactBut(b, st, id) && (id in st.libs && st.libs[id].linked ==> Intact(b, st))
  }

  lemma FinishLinkIntact(b: Backend, env: Env, id: nat, st: State)
    requires Listed(st) && Placed(st) && Intact(b, st) && id in st.libs && id != LIBDL && !st.libs[id].linked
    ensures LinkIntact(b, FinishLink(env, id, st).0, id)
  {
    hide IntactBut, Placed, FinishLink, Relocatable, Passed, Relocated;
    FinishLinkCases(env, id, st);
    var u, r := Unprotected(st, id), FinishLink(env, id, st);
    ClockIntact(b, st, u);
    if st.libs[id].image.textRel && !env.ok(st.clock) {
      ClockIntact(b, st, r.0);
      LessIntact(b, r.0, id);
    } else if !Relocatable(u, id) {
      PassedIntact(b, u, id);
      PassedUnlinked(u, id);
      ClockIntactBut(b, Passed(u, id), r.0, id);
    } else {
      RelocatedIntact(b, u, id);
      ClockIntact(b, Relocated(u, id), r.0);
      LessIntact(b, r.0, id);
    }
  }

  lemma PassedUnlinked(st: State, id: nat)
    requires id in st.libs
    ensures Passed(st, id).libs == st.libs
  {
  }

  lemma LessIntact(b: Backend, st: State, k: int)
    requires Intact(b, st)
    ensures IntactBut(b, st, k)
  {
  }

  lemma ClockIntactBut(b: Backend, s: State, t: State, k: int)
    requires t == s.(clock := t.clock) && IntactBut(b, s, k)
    ensures IntactBut(b, t, k)
  {
    hide HasImage;
    forall id | id in t.libs && id != LIBDL && id != k
      ensures ImageIn(b, t, id)
    {
      assert ImageIn(b, s, id);
      forall d
        ensures ProviderKept(s, t, d)
      {
      }
      SameProviders(s, t, t.libs[id].scope);
    }
  }

  lemma ClockIntact(b: Backend, s: State, t: State)
    requires t == s.(clock := t.clock)
    ensures Intact(b, s) ==> Intact(b, t)
    ensures Placed(s) ==> Placed(t)
  {
    hide IntactBut;
    if Intact(b, s) {
      ClockIntactBut(b, s, t, -1);
    }
  }

  // ---------------------------------------------------------------- unmapping

  /** No two libraries share an address. */
  predicate Spread(st: State) {
    forall a, b :: a in st.libs && b in st.libs && a != LIBDL && b != LIBDL && a != b ==>
      RangesApart(st.libs[a], st.libs[b])
  }

  lemma DiscardPreserves(st: State, id: nat)
    requires Spread(st) && id in st.libs && id != LIBDL
    ensures Preserves(st, Discard(st, id))
  {
    var t := Discard(st, id);
    forall x | x in t.libs && x != LIBDL
      ensures BytesKept(st.libs[x].base, st.libs[x].size, st.bytes, t.bytes)
    {
      assert RangesApart(st.libs[x], st.libs[id]);
    }
  }

  lemma DiscardKeepsScope(st: State, id: nat, x: nat)
    requires id in st.libs && Deps(Discard(st, id))
    ensures ScopeKept(st, Discard(st, id), x)
  {
    var t := Discard(st, id);
    if x in t.libs {
      forall j | 0 <= j < |st.libs[x].scope|
        ensures ProviderKept(st, t, st.libs[x].scope[j])
      {
        assert DepAt(t, x, j);
      }
    }
  }

  /** Taking the library out leaves the others, provided that it is in no needed array. */
  lemma DiscardIntact(b: Backend, st: State, id: nat)
    requires Placed(st) && IntactBut(b, st, id) && id in st.libs && id != LIBDL && Deps(Discard(st, id))
    ensures Intact(b, Discard(st, id))
  {
    hide ImageIn, PreservesAt, ScopeKept, Deps;
    DiscardPreserves(st, id);
    forall x | x != LIBDL && x != id
      ensures PreservesAt(st, Discard(st, id), x) && ScopeKept(st, Discard(st, id), x)
    {
      DiscardKeepsScope(st, id, x);
    }
    KeptIntact(b, st, Discard(st, id), id);
  }
}
