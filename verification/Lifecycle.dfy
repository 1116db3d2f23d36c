/** The library life cycle as a state machine over values: what each linker operation does to
    the list of loaded libraries, the address space, the soinfo pool and the trace. */
module Lifecycle {
  import opened Base
  import opened Symbols
  import opened Memory
  import opened Relocation
  import opened Segments

  const SOINFO_NAME_LEN: nat := 128
  const SOINFO_PER_POOL: nat := 14
  const LIBDL_REFS: nat := 0xffffff
  const LIBDL: nat := 0

  // An init or fini array: its size in bytes, a 32-bit word, was divided by four.
  type FunctionArray = s: seq<Word> | |s| < 0x4000_0000 witness []

  // A shared object file, its tables already resolved: what the loader reads from it.
  datatype Image = Image(
    file: seq<Byte>, phdrs: seq<Phdr>,
    dynamic: bool, rela: bool, strtab: bool, symtab: bool, textRel: bool,
    table: SymTable, needed: seq<string>,
    pltRel: seq<Rel>, rel: seq<Rel>,
    init: Word, initArray: Option<FunctionArray>,
    fini: Word, finiArray: Option<FunctionArray>)

  // A symbol bound at link time: the entry for the place found it in the provider, at the value.
  datatype Binding = Binding(kind: nat, place: Word, provider: nat, sym: nat, value: Word)

  // A soinfo on solist. The id numbers the loads of a run; rank numbers the links; scope is the
  // needed array, by id, as far as it has been filled.
  datatype Lib = Lib(
    id: nat, name: string, image: Image, base: Word, size: Word, bias: Word,
    linked: bool, refCount: nat, constructed: bool,
    rank: nat, scope: seq<nat>, bindings: seq<Binding>)

  datatype Range = Range(start: int, size: int)

  datatype Event =
    | Constructed(id: nat, deps: seq<nat>, calls: seq<Word>)
    | Destructed(id: nat, deps: seq<nat>, calls: seq<Word>)
    | Unmapped(id: nat)

  // order is solist; free counts the free list; bytes is the memory of the loaded images; stranded
  // records the reservations of loads that failed half-way, handles and leaked who owns a count.
  datatype State = State(
    order: seq<nat>, libs: map<nat, Lib>, free: nat, mapped: set<Range>, stranded: set<Range>, bytes: Mem,
    trace: seq<Event>,
    clock: nat, nextId: nat, nextRank: nat, handles: multiset<nat>, leaked: multiset<nat>)

  // The files that can be opened, the s_mmap in use, and the answers of the operating system,
  // request by request.
  datatype Env = Env(files: map<string, Image>, backend: Backend, ok: nat -> bool, addr: nat -> Word)

  function Entries(image: Image): seq<Rel> {
    image.pltRel + image.rel
  }

  const NO_TABLE := SymTable([], [], [])

  const LIBDL_IMAGE :=
    Image([], [], false, false, true, true, false, NO_TABLE, [], [], [], 0, None, 0, None)

  function Libdl(table: SymTable): Lib {
    Lib(LIBDL, "libdl.so", LIBDL_IMAGE.(table := table), 0, 0, 0, true, LIBDL_REFS, false, 0, [], [])
  }

  function Init(table: SymTable): State {
    State([LIBDL], map[LIBDL := Libdl(table)], 0, {}, {}, map[], [], 0, 1, 1, multiset{}, multiset{})
  }

  // ---------------------------------------------------------------- the list

  /** Listed libraries are exactly the known ones, and every id was handed out before. */
  predicate Listed(st: State) {
    && (forall i :: 0 <= i < |st.order| ==> st.order[i] in st.libs)
    && (forall id {:trigger id in st.order} :: id in st.libs ==> id in st.order)
    && (forall id :: id in st.libs ==> id < st.nextId)
  }

  function Names(st: State): set<string> {
    set id | id in st.libs :: st.libs[id].name
  }

  function FindIn(order: seq<nat>, libs: map<nat, Lib>, name: string): (r: Option<nat>)
    requires forall i :: 0 <= i < |order| ==> order[i] in libs
    ensures r.Some? ==> r.value in order && libs[r.value].name == name
    ensures r.None? ==> forall i :: 0 <= i < |order| ==> libs[order[i]].name != name
  {
    if order == [] then None
    else if libs[order[0]].name == name then Some(order[0])
    else FindIn(order[1..], libs, name)
  }

  /** find_loaded_library: first entry of solist with the basename of the given name. */
  function FindLoaded(st: State, name: string): (r: Option<nat>)
    requires Listed(st)
    ensures r.Some? ==> r.value in st.libs && st.libs[r.value].name == Basename(name)
    ensures r.None? ==> Basename(name) !in Names(st)
  {
    ListIsAll(st);
    FindIn(st.order, st.libs, Basename(name))
  }

  lemma ListIsAll(st: State)
    requires Listed(st)
    ensures forall id :: id in st.libs <==> id in st.order
  {
    forall id | id in st.libs
      ensures id in st.order
    {
    }
  }

  function Without(order: seq<nat>, id: nat): (r: seq<nat>)
    ensures forall x :: x in r <==> x in order && x != id
  {
    if order == [] then []
    else if order[0] == id then Without(order[1..], id)
    else [order[0]] + Without(order[1..], id)
  }

  function WithoutRange(m: Mem, base: Word, size: Word): Mem {
    map a | a in m && !Within(a, base, size) :: m[a]
  }

  /** Unmap and free: s_munmap, then soinfo_free. The counts taken for it are given up. */
  function Discard(st: State, id: nat): State
    requires id in st.libs
  {
    var lib := st.libs[id];
    st.(order := Without(st.order, id), libs := st.libs - {id}, free := st.free + 1,
        mapped := st.mapped - {Range(lib.base, lib.size)}, bytes := WithoutRange(st.bytes, lib.base, lib.size),
        trace := st.trace + [Unmapped(id)],
        leaked := st.leaked + multiset(lib.scope))
  }

  // -------------------------------------------------------------- growth

  /** Equal but for the count. */
  predicate Same(a: Lib, b: Lib) {
    && a.id == b.id && a.name == b.name && a.image == b.image
    && a.base == b.base && a.size == b.size && a.bias == b.bias
    && a.linked == b.linked && a.constructed == b.constructed && a.rank == b.rank
    && a.scope == b.scope && a.bindings == b.bindings
  }

  /** From s to t libraries are only added, after the old ones; the old ones change in nothing
      but their counts, except library k. */
  predicate Grows(s: State, t: State, k: int) {
    && s.order <= t.order
    && s.nextId <= t.nextId && s.clock <= t.clock
    && (forall id {:trigger id in t.libs} :: id in s.libs ==> id in t.libs)
    && (forall id {:trigger t.libs[id]} :: id in s.libs ==> t.libs[id].name == s.libs[id].name)
    && (forall id {:trigger t.libs[id]} :: id in s.libs && id != k ==> Same(s.libs[id], t.libs[id]))
    && (forall id {:trigger id in t.libs, id in s.libs} :: id in t.libs && id !in s.libs ==> s.nextId <= id)
  }

  lemma GrowsStep(s: State, t: State, u: State, k: int)
    requires Grows(s, t, k) && Grows(t, u, k)
    ensures Grows(s, u, k)
  {
    forall id | id in s.libs
      ensures id in u.libs && u.libs[id].name == s.libs[id].name && (id != k ==> Same(s.libs[id], u.libs[id]))
    {
      assert id in t.libs && t.libs[id].name == s.libs[id].name;
    }
  }

  lemma GrowsWeaken(s: State, t: State, k: int)
    requires Grows(s, t, -1)
    ensures Grows(s, t, k)
  {
  }

  /** What happened to a library that was not there before does not count. */
  lemma GrowsOverNew(s: State, t: State, u: State, k: int)
    requires Grows(s, t, -1) && Grows(t, u, k) && k !in s.libs
    ensures Grows(s, u, -1)
  {
  }

  function Openable(env: Env): set<string> {
    set f | f in env.files :: Basename(f)
  }

  /** How many openable basenames are not loaded: the measure of the recursion. */
  ghost function Room(env: Env, st: State): nat {
    |Openable(env) - Names(st)|
  }

  // --------------------------------------------------------------- loading

  /** The contract of an address-space reservation: page-aligned, in range, not in use. */
  predicate Placeable(mapped: set<Range>, base: Word, size: Word) {
    && base % PAGE_SIZE == 0 && 0 < base && base as int + size < WORDS
    && forall r :: r in mapped ==> base as int + size <= r.start || r.start + r.size <= base
  }

  /** soinfo_alloc, refilling the pool when the free list is empty. */
  function Alloc(env: Env, lib: Lib, st: State): (r: (State, Option<nat>))
    requires Listed(st) && lib.id == st.nextId
    ensures Listed(r.0) && Grows(st, r.0, -1)
    ensures r.1.Some? ==> r.1.value == lib.id && r.0.libs == st.libs[lib.id := lib]
    ensures r.1.None? ==> r.0.libs == st.libs
  {
    if |lib.name| >= SOINFO_NAME_LEN then (st, None)
    else if st.free == 0 && !env.ok(st.clock) then (st.(clock := st.clock + 1), None)
    else
      var s := if st.free > 0 then st.(free := st.free - 1)
               else st.(free := SOINFO_PER_POOL - 1, clock := st.clock + 1);
      (s.(order := st.order + [lib.id], libs := st.libs[lib.id := lib], nextId := st.nextId + 1),
       Some(lib.id))
  }

  /** load_library: open, reserve, map the segments, enter the library on the list. */
  function LoadLibrary(env: Env, name: string, st: State): (r: (State, Option<nat>))
    requires Listed(st)
    ensures Listed(r.0) && Grows(st, r.0, -1)
    ensures r.1.Some? ==> r.1.value == st.nextId && r.1.value in r.0.libs && name in env.files
    ensures r.1.Some? ==> r.0.libs[r.1.value].name == Basename(name)
  {
    if name !in env.files || LoadSize(env.files[name].phdrs) == 0 then (st, None)
    else ReserveLibrary(env, name, env.files[name], st)
  }

  function ReserveLibrary(env: Env, name: string, image: Image, st: State): (r: (State, Option<nat>))
    requires Listed(st)
    ensures Listed(r.0) && Grows(st, r.0, -1)
    ensures r.1.Some? ==> r.1.value == st.nextId && r.1.value in r.0.libs
    ensures r.1.Some? ==> r.0.libs[r.1.value].name == Basename(name)
  {
    var base, size, s := env.addr(st.clock), LoadSize(image.phdrs), st.(clock := st.clock + 1);
    if !env.ok(st.clock) || !Placeable(st.mapped, base, size) then (s, None)
    else MapLibrary(env, name, image, base, size, s)
  }

  /** Memory after the segments have been loaded into a new, zero-filled reservation. */
  function WithImage(b: Backend, image: Image, base: Word, m: Mem): Mem {
    LoadedBytes(b, image.file, image.phdrs, Sub32(base, MinVaddr(image.phdrs)), m + Blank(base, LoadSize(image.phdrs)))
  }

  /** The rest of load_library, once address space has been reserved. */
  function MapLibrary(env: Env, name: string, image: Image, base: Word, size: Word, st: State)
    : (r: (State, Option<nat>))
    requires Listed(st)
    ensures Listed(r.0) && Grows(st, r.0, -1)
    ensures r.1.Some? ==> r.1.value == st.nextId && r.1.value in r.0.libs
    ensures r.1.Some? ==> r.0.libs[r.1.value].name == Basename(name)
  {
    var s := st.(clock := st.clock + 1, mapped := st.mapped + {Range(base, size)});
    if !env.ok(st.clock) then (s.(stranded := s.stranded + {Range(base, size)}), None)
    else
      var bias := Sub32(base, MinVaddr(image.phdrs));
      var (t, id) := Alloc(env, NewLib(st.nextId, Basename(name), image, base, size, bias),
                           s.(bytes := WithImage(env.backend, image, base, st.bytes)));
      (if id.None? then t.(stranded := t.stranded + {Range(base, size)}) else t, id)
  }

  function NewLib(id: nat, name: string, image: Image, base: Word, size: Word, bias: Word): Lib {
    Lib(id, name, image, base, size, bias, false, 0, false, 0, [], [])
  }

  // --------------------------------------------------------------- linking

  function ProviderOf(st: State, id: nat): Provider {
    if id in st.libs then Provider(st.libs[id].image.table, st.libs[id].bias) else Provider(NO_TABLE, 0)
  }

  function ContextOf(st: State, lib: Lib): Context {
    Context(lib.image.table, lib.base, lib.bias, ProvidersOf(st, lib.scope))
  }

  function ProvidersOf(st: State, ids: seq<nat>): (r: seq<Provider>)
    ensures |r| == |ids| && forall i :: 0 <= i < |ids| ==> r[i] == ProviderOf(st, ids[i])
  {
    if ids == [] then [] else [ProviderOf(st, ids[0])] + ProvidersOf(st, ids[1..])
  }

  /** soinfo_relocate's verdict on the plt_rel and rel tables. */
  predicate Accepts(ctx: Context, rels: seq<Rel>) {
    forall i :: 0 <= i < |rels| ==> rels[i].sym < |ctx.table.syms| && Acceptable(ctx, rels[i])
  }

  /** The slot got the address of a symbol of one of the libraries of the scope. */
  predicate BoundIn(ctx: Context, ids: seq<nat>, b: Binding)
    requires |ids| == |ctx.scope|
  {
    exists k :: 0 <= k < |ids| && BoundTo(ctx, ids, b, k)
  }

  predicate BoundTo(ctx: Context, ids: seq<nat>, b: Binding, k: nat)
    requires |ids| == |ctx.scope| && k < |ids|
  {
    b.provider == ids[k] && b.sym < |ctx.scope[k].table.syms| && b.value == DefinedAddress(ctx, (k, b.sym))
  }

  /** The slots that the entries bind, in order. */
  function Bindings(ctx: Context, ids: seq<nat>, rels: seq<Rel>): (r: seq<Binding>)
    requires |ids| == |ctx.scope|
    ensures forall i :: 0 <= i < |r| ==> BoundIn(ctx, ids, r[i])
  {
    if rels == [] then []
    else
      var rest := Bindings(ctx, ids, rels[1..]);
      var rel := rels[0];
      if rel.kind == R_ARM_NONE || rel.sym == 0 || rel.sym >= |ctx.table.syms| then rest
      else match Definition(ctx, rel.sym)
        case None => rest
        case Some(def) =>
          var b := Binding(rel.kind, Place(ctx, rel), ids[def.0], def.1, DefinedAddress(ctx, def));
          assert BoundTo(ctx, ids, b, def.0);
          [b] + rest
  }

  /** The checks of soinfo_link_image before the dependencies are loaded. */
  predicate Linkable(image: Image) {
    image.dynamic && !image.rela && |image.table.bucket| > 0 && image.strtab && image.symtab
  }

  function MarkLinked(st: State, id: nat, bindings: seq<Binding>): State
    requires id in st.libs
  {
    st.(libs := st.libs[id := st.libs[id].(linked := true, rank := st.nextRank, bindings := bindings)],
        nextRank := st.nextRank + 1)
  }

  /** soinfo_relocate of plt_rel and of rel both return 0. */
  predicate Relocatable(st: State, id: nat)
    requires id in st.libs
  {
    Accepts(ContextOf(st, st.libs[id]), st.libs[id].image.pltRel + st.libs[id].image.rel)
  }

  /** What both passes leave in memory, whether or not they succeed. An entry outside all memory
      would fault. */
  function AfterPasses(ctx: Context, rels: seq<Rel>, m: Mem): (r: Mem)
    ensures r.Keys == m.Keys
  {
    if AllFit(ctx, rels, m) then Relocate(ctx, rels, m).0 else m
  }

  function Passed(st: State, id: nat): State
    requires id in st.libs
  {
    var lib := st.libs[id];
    st.(bytes := AfterPasses(ContextOf(st, lib), lib.image.pltRel + lib.image.rel, st.bytes))
  }

  function Relocated(st: State, id: nat): State
    requires id in st.libs
  {
    var lib := st.libs[id];
    MarkLinked(Passed(st, id), id, Bindings(ContextOf(st, lib), lib.scope, lib.image.pltRel + lib.image.rel))
  }

  /** The rest of soinfo_link_image: unprotect, relocate, set FLAG_LINKED, protect, RELRO. */
  function FinishLink(env: Env, id: nat, st: State): (r: (State, bool))
    requires Listed(st) && id in st.libs
    ensures Listed(r.0) && Grows(st, r.0, id) && r.0.libs.Keys == st.libs.Keys && r.0.order == st.order
  {
    var textRel := st.libs[id].image.textRel;
    if textRel && !env.ok(st.clock) then (st.(clock := st.clock + 1), false)
    else
      var s := Unprotected(st, id);
      if Relocatable(s, id) then Protect(env, textRel, Relocated(s, id)) else (Passed(s, id), false)
  }

  /** A library with text relocations has its segments unprotected first. */
  function Unprotected(st: State, id: nat): (r: State)
    requires id in st.libs
    ensures r == st.(clock := r.clock)
  {
    if st.libs[id].image.textRel then st.(clock := st.clock + 1) else st
  }

  /** After relocation: the segments are protected again if they were unprotected, then RELRO. */
  function Protect(env: Env, textRel: bool, st: State): (r: (State, bool))
    ensures r.0 == st.(clock := r.0.clock)
  {
    var t := st.clock;
    if !textRel then (st.(clock := t + 1), env.ok(t))
    else if !env.ok(t) then (st.(clock := t + 1), false)
    else (st.(clock := t + 2), env.ok(t + 1))
  }

  /** find_library_internal. */
  function FindInternal(env: Env, name: string, st: State): (r: (State, Option<nat>))
    requires Listed(st)
    ensures Listed(r.0) && Grows(st, r.0, -1)
    ensures r.1.Some? ==> r.1.value in r.0.libs && r.0.libs[r.1.value].name == Basename(name)
    decreases Room(env, st), 0, 1
  {
    match FindLoaded(st, name)
    case Some(id) => if st.libs[id].linked then (st, Some(id)) else (st, None)
    case None =>
      var (s, loaded) := LoadLibrary(env, name, st);
      if loaded.None? then (s, None) else LinkLoaded(env, name, st, s, loaded.value)
  }

  function LinkLoaded(env: Env, name: string, st: State, s: State, id: nat): (r: (State, Option<nat>))
    requires Listed(st) && Listed(s) && Grows(st, s, -1) && id !in st.libs && id in s.libs
    requires name in env.files && Basename(name) !in Names(st) && s.libs[id].name == Basename(name)
    ensures Listed(r.0) && Grows(st, r.0, -1)
    ensures r.1.Some? ==> r.1.value in r.0.libs && r.0.libs[r.1.value].name == Basename(name)
    decreases Room(env, st), 0, 0
  {
    RoomShrinks(env, name, st, s, id);
    var (t, ok) := LinkImage(env, id, s);
    Settle(st, s, t, id, ok)
  }

  /** A library that failed to link is unmapped and freed again. */
  function Settle(st: State, s: State, t: State, id: nat, ok: bool): (r: (State, Option<nat>))
    requires Listed(st) && Listed(t) && Grows(st, s, -1) && Grows(s, t, id)
    requires id !in st.libs && id in s.libs
    ensures r == if ok then (t, Some(id)) else (Discard(t, id), None)
    ensures Listed(r.0) && Grows(st, r.0, -1)
    ensures ok ==> id in r.0.libs && r.0.libs[id].name == s.libs[id].name
  {
    GrowsOverNew(st, s, t, id);
    if ok then (t, Some(id))
    else
      DiscardKeepsPrefix(st.order, t.order, id);
      DiscardIsListed(t, id);
      (Discard(t, id), None)
  }

  lemma DiscardIsListed(st: State, id: nat)
    requires Listed(st) && id in st.libs
    ensures Listed(Discard(st, id))
  {
    var r := Discard(st, id);
    forall i | 0 <= i < |r.order|
      ensures r.order[i] in r.libs
    {
      assert r.order[i] in st.order;
    }
  }

  /** find_library: one more count on what find_library_internal returns. */
  function FindLibrary(env: Env, name: string, st: State): (r: (State, Option<nat>))
    requires Listed(st)
    ensures Listed(r.0) && Grows(st, r.0, -1)
    ensures r.1.Some? ==> r.1.value in r.0.libs && r.0.libs[r.1.value].name == Basename(name)
    decreases Room(env, st), 1, 0
  {
    var (s, found) := FindInternal(env, name, st);
    Take(st, s, found)
  }

  function Take(st: State, s: State, found: Option<nat>): (r: (State, Option<nat>))
    requires Listed(s) && Grows(st, s, -1) && (found.Some? ==> found.value in s.libs)
    ensures Listed(r.0) && Grows(st, r.0, -1) && r.1 == found
    ensures found.Some? ==> found.value in r.0.libs && r.0.libs[found.value].name == s.libs[found.value].name
  {
    if found.None? then (s, None)
    else
      AddRefGrows(st, s, found.value);
      (AddRef(s, found.value), found)
  }

  function AddRef(st: State, id: nat): State
    requires id in st.libs
  {
    st.(libs := st.libs[id := st.libs[id].(refCount := st.libs[id].refCount + 1)])
  }

  function AddNeeded(st: State, id: nat, dep: nat): (r: State)
    requires Listed(st) && id in st.libs
    ensures Listed(r) && Grows(st, r, id)
  {
    st.(libs := st.libs[id := st.libs[id].(scope := st.libs[id].scope + [dep])])
  }

  /** The DT_NEEDED loop of soinfo_link_image, from the entries already taken. */
  function LoadNeeded(env: Env, id: nat, st: State): (r: (State, bool))
    requires Listed(st) && id in st.libs
    ensures Listed(r.0) && Grows(st, r.0, id)
    decreases Room(env, st), 2, |st.libs[id].image.needed| - |st.libs[id].scope|
  {
    var lib := st.libs[id];
    if |lib.scope| >= |lib.image.needed| then (st, true)
    else
      var (s, dep) := FindLibrary(env, lib.image.needed[|lib.scope|], st);
      if dep.None? then
        GrowsWeaken(st, s, id);
        (s, false)
      else
        var t := AddNeeded(s, id, dep.value);
        OneMoreNeeded(env, st, s, id, dep.value);
        var r := LoadNeeded(env, id, t);
        GrowsStep(st, t, r.0, id);
        r
  }

  /** soinfo_link_image. */
  function LinkImage(env: Env, id: nat, st: State): (r: (State, bool))
    requires Listed(st) && id in st.libs
    ensures Listed(r.0) && Grows(st, r.0, id)
    decreases Room(env, st), 3, 0
  {
    if !Linkable(st.libs[id].image) then (st, false)
    else
      var (s, ok) := LoadNeeded(env, id, st);
      FinishLoaded(env, id, st, s, ok)
  }

  function FinishLoaded(env: Env, id: nat, st: State, s: State, ok: bool): (r: (State, bool))
    requires Listed(s) && Grows(st, s, id) && id in s.libs
    ensures Listed(r.0) && Grows(st, r.0, id)
  {
    if !ok then (s, false)
    else
      var r := FinishLink(env, id, s);
      GrowsStep(st, s, r.0, id);
      r
  }

  // ------------------------------------------------------------ constructors

  /** CallFunction calls nothing for a null function or for -1. */
  function Callable(functions: seq<Word>): seq<Word> {
    if functions == [] then []
    else (if functions[0] == 0 || functions[0] == 0xffff_ffff then [] else [functions[0]]) + Callable(functions[1..])
  }

  function Reversed(s: seq<Word>): (r: seq<Word>)
    ensures |r| == |s| && forall i :: 0 <= i < |s| ==> r[i] == s[|s| - 1 - i]
  {
    if s == [] then [] else Reversed(s[1..]) + [s[0]]
  }

  /** DT_INIT, then DT_INIT_ARRAY. */
  function InitCalls(image: Image): seq<Word> {
    Callable([image.init]) + (if image.initArray.Some? then Callable(image.initArray.value) else [])
  }

  /** DT_FINI_ARRAY backwards, then DT_FINI. */
  function FiniCalls(image: Image): seq<Word> {
    (if image.finiArray.Some? then Callable(Reversed(image.finiArray.value)) else []) + Callable([image.fini])
  }

  /** From s to t constructors have run: flags were set and the trace was extended. */
  predicate OnlyFlags(s: State, t: State) {
    && t == s.(libs := t.libs, trace := t.trace)
    && s.trace <= t.trace
    && t.libs.Keys == s.libs.Keys
    && forall id :: id in s.libs ==>
         && t.libs[id] == s.libs[id].(constructed := t.libs[id].constructed)
         && (s.libs[id].constructed ==> t.libs[id].constructed)
  }

  ghost function Unset(st: State): set<nat> {
    set id | id in st.libs && !st.libs[id].constructed
  }

  function SetConstructed(st: State, id: nat): (r: State)
    requires id in st.libs
    ensures OnlyFlags(st, r)
  {
    st.(libs := st.libs[id := st.libs[id].(constructed := true)])
  }

  function LogConstructed(st: State, id: nat): (r: State)
    requires id in st.libs
    ensures OnlyFlags(st, r)
  {
    st.(trace := st.trace + [Constructed(id, st.libs[id].scope, InitCalls(st.libs[id].image))])
  }

  lemma FlagsListed(s: State, t: State)
    requires Listed(s) && OnlyFlags(s, t)
    ensures Listed(t)
    ensures |Unset(t)| <= |Unset(s)|
  {
    SubsetSize(Unset(t), Unset(s));
  }

  lemma FlagsStep(s: State, t: State, u: State)
    requires OnlyFlags(s, t) && OnlyFlags(t, u)
    ensures OnlyFlags(s, u)
  {
  }

  /** soinfo::CallConstructors. None stands for the dereference of a null pointer. */
  function CallConstructors(st: State, id: nat): (r: Option<State>)
    requires Listed(st) && id in st.libs
    ensures r.Some? ==> OnlyFlags(st, r.value) && Listed(r.value)
    decreases |Unset(st)|, 0, 0
  {
    if st.libs[id].constructed then Some(st)
    else
      var s := SetConstructed(st, id);
      FlagsListed(st, s);
      UnsetShrinks(st, id);
      match ConstructNeeded(s, id, 0)
      case None => None
      case Some(t) =>
        var u := LogConstructed(t, id);
        FlagsStep(st, s, t);
        FlagsStep(st, t, u);
        FlagsListed(st, u);
        Some(u)
  }

  function ConstructNeeded(st: State, id: nat, i: nat): (r: Option<State>)
    requires Listed(st) && id in st.libs
    ensures r.Some? ==> OnlyFlags(st, r.value) && Listed(r.value)
    decreases |Unset(st)|, 1, |st.libs[id].image.needed| - i
  {
    if i >= |st.libs[id].image.needed| then Some(st)
    else match FindLoaded(st, st.libs[id].image.needed[i])
      case None => None
      case Some(dep) =>
        match CallConstructors(st, dep)
        case None => None
        case Some(s) =>
          FlagsListed(st, s);
          match ConstructNeeded(s, id, i + 1)
          case None => None
          case Some(t) =>
            FlagsStep(st, s, t);
            Some(t)
  }

  lemma UnsetShrinks(st: State, id: nat)
    requires id in st.libs && !st.libs[id].constructed
    ensures |Unset(SetConstructed(st, id))| < |Unset(st)|
  {
    assert id in Unset(st) && id !in Unset(SetConstructed(st, id));
    SubsetSize(Unset(SetConstructed(st, id)), Unset(st));
  }

  // --------------------------------------------------------------- unloading

  const NO_CONSTRUCTORS: set<string> := {"libc.so", "libstdc++.so", "libz.so", "libm.so", "liblog.so"}
  const NO_DESTRUCTORS: set<string> := {"libc.so", "libstdc++.so", "libm.so", "libz.so", "libdl.so", "liblog.so"}

  function DestructorCalls(lib: Lib): seq<Word> {
    if lib.name in NO_DESTRUCTORS then [] else FiniCalls(lib.image)
  }

  /** The destructors run and the counts on the dependencies are about to be given back. */
  function Release(st: State, id: nat): (r: State)
    requires Listed(st) && id in st.libs
    ensures Listed(r)
  {
    var lib := st.libs[id];
    st.(libs := st.libs[id := lib.(scope := [])],
        trace := st.trace + [Destructed(id, lib.scope, DestructorCalls(lib))])
  }

  /** --ref_count on an unsigned 32-bit count. */
  function DropRef(st: State, id: nat): (r: State)
    requires Listed(st) && id in st.libs
    ensures Listed(r)
  {
    var n := st.libs[id].refCount;
    st.(libs := st.libs[id := st.libs[id].(refCount := if n == 0 then 0xffff_ffff else n - 1)])
  }

  function RankOf(st: State, id: nat): nat {
    if id in st.libs then st.libs[id].rank else 0
  }

  /** soinfo_unload. None stands for the dereference of a null pointer, or for a recursion that
      comes to a library linked no earlier than the one it came from. The root of the list has no
      dynamic section to walk. */
  function Unload(st: State, id: nat): (r: Option<State>)
    requires Listed(st)
    ensures r.Some? ==> Listed(r.value)
    decreases RankOf(st, id), 1, 0
  {
    if id !in st.libs then None
    else if st.libs[id].refCount != 1 then Some(DropRef(st, id))
    else if id == LIBDL then None
    else match UnloadNeeded(Release(st, id), st.libs[id].rank, st.libs[id].image.needed)
      case None => None
      case Some(t) =>
        if id !in t.libs then None
        else
          DiscardIsListed(t, id);
          Some(Discard(t, id))
  }

  function UnloadNeeded(st: State, rank: nat, names: seq<string>): (r: Option<State>)
    requires Listed(st)
    ensures r.Some? ==> Listed(r.value)
    decreases rank, 0, |names|
  {
    if names == [] then Some(st)
    else match FindLoaded(st, names[0])
      case None => None
      case Some(dep) =>
        if st.libs[dep].rank >= rank then None
        else match Unload(st, dep)
          case None => None
          case Some(s) => UnloadNeeded(s, rank, names[1..])
  }

  // ------------------------------------------------------------- entry points

  /** RTLD_NOW | RTLD_LAZY | RTLD_LOCAL | RTLD_GLOBAL is the mask 3. */
  predicate ValidFlags(flags: int) {
    0 <= flags < 4
  }

  /** do_dlopen: the new state and the handle, null being None. */
  function DoDlopen(env: Env, name: Option<string>, flags: int, st: State): (r: Option<(State, Option<nat>)>)
    requires Listed(st)
    ensures r.Some? ==> Listed(r.value.0)
  {
    if !ValidFlags(flags) then Some((st, None))
    else if name.None? then Some((st, None))      // find_library(NULL) is somain, which is null
    else
      var (s, found) := FindLibrary(env, name.value, st);
      HandOut(s, found)
  }

  /** The rest of do_dlopen: what find_library returned becomes a handle, and the constructors
      run, unless the name is on the skip list. */
  function HandOut(s: State, found: Option<nat>): (r: Option<(State, Option<nat>)>)
    requires Listed(s) && (found.Some? ==> found.value in s.libs)
    ensures r.Some? ==> Listed(r.value.0)
  {
    if found.None? then Some((s, None))
    else
      var t := s.(handles := s.handles + multiset{found.value});
      if t.libs[found.value].name in NO_CONSTRUCTORS then Some((t, found))
      else match CallConstructors(t, found.value)
        case None => None
        case Some(u) => Some((u, found))
  }

  /** do_dlclose of a handle that is held. */
  function DoDlclose(st: State, id: nat): (r: Option<State>)
    requires Listed(st)
    ensures r.Some? ==> Listed(r.value)
  {
    Unload(st.(handles := st.handles - multiset{id}), id)
  }

  // ------------------------------------------------------- termination lemmas

  lemma AddRefGrows(st: State, s: State, id: nat)
    requires Grows(st, s, -1) && Listed(s) && id in s.libs
    ensures Listed(AddRef(s, id)) && Grows(st, AddRef(s, id), -1)
  {
    GrowsStep(st, s, AddRef(s, id), -1);
  }

  lemma OneMoreNeeded(env: Env, st: State, s: State, id: nat, dep: nat)
    requires Listed(st) && Listed(s) && Grows(st, s, -1) && id in st.libs
    ensures var t := AddNeeded(s, id, dep);
            && Grows(st, t, id) && Room(env, t) <= Room(env, st)
            && t.libs[id].image == st.libs[id].image
            && t.libs[id].scope == st.libs[id].scope + [dep]
  {
    var t := AddNeeded(s, id, dep);
    assert Same(st.libs[id], s.libs[id]);
    GrowsWeaken(st, s, id);
    GrowsStep(st, s, t, id);
    RoomNeverGrows(env, st, t, id);
  }

  lemma RoomNeverGrows(env: Env, s: State, t: State, k: int)
    requires Grows(s, t, k)
    ensures Room(env, t) <= Room(env, s)
  {
    NamesKept(s, t, k);
    SubsetSize(Openable(env) - Names(t), Openable(env) - Names(s));
  }

  lemma NamesKept(s: State, t: State, k: int)
    requires Grows(s, t, k)
    ensures Names(s) <= Names(t)
  {
    forall n | n in Names(s)
      ensures n in Names(t)
    {
      var id :| id in s.libs && s.libs[id].name == n;
      assert t.libs[id].name == n;
    }
  }

  lemma SubsetSize<T>(a: set<T>, b: set<T>)
    requires a <= b
    ensures |a| <= |b|
    ensures a != b ==> |a| < |b|
  {
    assert b == a + (b - a);
    assert |b| == |a| + |b - a|;
    if a != b {
      var x :| x in b - a;
    }
  }

  lemma RoomShrinks(env: Env, name: string, s: State, t: State, id: nat)
    requires Grows(s, t, -1) && name in env.files && Basename(name) !in Names(s)
    requires id in t.libs && t.libs[id].name == Basename(name)
    ensures Room(env, t) < Room(env, s)
  {
    NamesKept(s, t, -1);
    assert Basename(name) in Openable(env) - Names(s) && Basename(name) in Names(t);
    SubsetSize(Openable(env) - Names(t), Openable(env) - Names(s));
  }

  lemma {:induction false} DiscardKeepsPrefix(a: seq<nat>, b: seq<nat>, id: nat)
    requires a <= b && id !in a
    ensures a <= Without(b, id)
  {
    if a != [] {
      assert b[0] == a[0] && a[1..] <= b[1..];
      DiscardKeepsPrefix(a[1..], b[1..], id);
    }
  }
}
