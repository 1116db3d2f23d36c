/** An entry that patches a word of another library: what goes wrong with the slots then. */
module StrayEntries {
  import opened Base
  import opened Symbols
  import opened Memory
  import opened Segments
  import opened HeaderTable
  import opened Inputs
  import opened Relocation
  import opened RelocationTheorems
  import opened Lifecycle
  import opened LifecycleSteps
  import opened LoadingInvariant
  import opened FailedLinks
  import opened Runs
  import opened BoundSlots
  import opened MemoryInvariant
  import opened LiveSlots
  import Root = Libdl

  const NULL := Sym([], 0, 0, 0, SHN_UNDEF)

  // One page, in which the word at 0x100 is to get the address of dlopen.
  const VICTIM :=
    PageImage(0).(needed := ["libdl.so"],
                  table := SymTable([NULL, Sym(Root.DLOPEN, 0, 0, STB_GLOBAL, SHN_UNDEF)], [0], [0, 0]),
                  rel := [Rel(0x100, R_ARM_GLOB_DAT, 1)])

  // One page, and an entry for a word 0xff00 bytes before it.
  const STRAY :=
    PageImage(0).(table := SymTable([NULL], [0], [0]), rel := [Rel(0xffff_0100, R_ARM_JUMP_SLOT, 0)])

  const FIRST: Env := Env(map["b" := VICTIM], Posix, t => true, t => 0x10000)
  const SECOND: Env := Env(map["a" := STRAY], Posix, t => true, t => 0x20000)

  lemma VictimIsSelfContained()
    ensures AllSelfContained(FIRST)
  {
    hide ElfFile;
    PageIsFile(0);
    assert Entries(VICTIM) == [Rel(0x100, R_ARM_GLOB_DAT, 1)];
  }

  // --------------------------------------------------------- the first open

  // libdl and the first file are listed, and nothing else is reserved.
  predicate FirstOpened(st: State) {
    && Listed(st) && st.order == [LIBDL, 1] && st.libs.Keys == {LIBDL, 1} && st.nextId == 2 && st.free > 0
    && st.mapped == {Range(0x10000, 0x1000)}
    && st.libs[LIBDL].name == "libdl.so" && st.libs[1].name == "b" && st.libs[1].image == VICTIM
    && st.libs[1].base == 0x10000 && st.libs[1].bias == 0x10000
  }

  // The first file has been loaded and nothing more.
  predicate JustLoaded(s: State, table: SymTable) {
    FirstOpened(s) && s.libs == map[LIBDL := Libdl(table), 1 := NewLib(1, "b", VICTIM, 0x10000, 0x1000, 0x10000)]
  }

  lemma VictimLoads(table: SymTable)
    ensures FindLoaded(Init(table), "b").None?
    ensures LoadLibrary(FIRST, "b", Init(table)).1 == Some(1)
    ensures JustLoaded(LoadLibrary(FIRST, "b", Init(table)).0, table)
  {
    hide WithImage, ElfFile, LoadLibrary;
    PlainName("b", 1);
    PageIsFile(0);
    LoadLibraryCases(FIRST, "b", Init(table));
  }

  lemma VictimNeeds(functions: seq<Word>, s: State)
    requires |functions| == 8 && JustLoaded(s, Root.Table(functions)) && Basename("libdl.so") == "libdl.so"
    ensures Listed(AddRef(s, LIBDL))
    ensures LoadNeeded(FIRST, 1, s) == (AddNeeded(AddRef(s, LIBDL), 1, LIBDL), true)
  {
    TakesListed(FIRST, 1, s, "libdl.so", LIBDL);
    LoadNeededDone(FIRST, 1, AddNeeded(AddRef(s, LIBDL), 1, LIBDL));
  }

  /** "dlopen" is found in libdl, at the address of the linker's own function. */
  lemma DlopenIsDefined(functions: seq<Word>, ctx: Context)
    requires |functions| == 8 && ctx.table == VICTIM.table && ctx.scope == [Provider(Root.Table(functions), 0)]
    ensures Definition(ctx, 1).Some? && DefinedAddress(ctx, Definition(ctx, 1).value) == functions[0]
  {
    var t := Root.Table(functions);
    Root.TableIsWellFormed(functions);
    Root.NamesDiffer();
    FirstDefinition(ctx, 1);
    assert t.syms[1].name == Root.NAMES[0] && Defines(t.syms[1], Root.DLOPEN);
    var def := Definition(ctx, 1).value;
    assert t.syms[def.1].name == Root.NAMES[def.1 - 1];
  }

  // The slot of the first file, bound to this address.
  predicate SlotBoundTo(b: Binding, value: Word) {
    b.kind == R_ARM_GLOB_DAT && b.place == 0x10100 && b.value == value
  }

  predicate VictimBound(st: State, value: Word) {
    1 in st.libs && exists i :: 0 <= i < |st.libs[1].bindings| && SlotBoundTo(st.libs[1].bindings[i], value)
  }

  // The first file's needed array has been filled.
  predicate VictimReady(functions: seq<Word>, n: State)
    requires |functions| == 8
  {
    && FirstOpened(n) && n.libs[1].scope == [LIBDL]
    && n.libs[LIBDL].image.table == Root.Table(functions) && n.libs[LIBDL].bias == 0
  }

  lemma VictimAccepted(functions: seq<Word>, ctx: Context)
    requires |functions| == 8 && ctx.table == VICTIM.table && ctx.scope == [Provider(Root.Table(functions), 0)]
    requires ctx.bias == 0x10000
    ensures Accepts(ctx, Entries(VICTIM))
    ensures SlotIsBound(ctx, functions[0])
  {
    DlopenIsDefined(functions, ctx);
    assert Entries(VICTIM) == [Rel(0x100, R_ARM_GLOB_DAT, 1)];
    assert Acceptable(ctx, Entries(VICTIM)[0]);
    SlotIsRecorded(ctx, [LIBDL], Entries(VICTIM), 0);
    var b := SlotBinding(ctx, [LIBDL], Entries(VICTIM)[0]);
    var i :| 0 <= i < |Bindings(ctx, [LIBDL], Entries(VICTIM))| && Bindings(ctx, [LIBDL], Entries(VICTIM))[i] == b;
    assert SlotBoundTo(Bindings(ctx, [LIBDL], Entries(VICTIM))[i], functions[0]);
  }

  predicate SlotIsBound(ctx: Context, value: Word)
    requires |ctx.scope| == 1
  {
    exists i :: 0 <= i < |Bindings(ctx, [LIBDL], Entries(VICTIM))| &&
      SlotBoundTo(Bindings(ctx, [LIBDL], Entries(VICTIM))[i], value)
  }

  lemma VictimRelocates(functions: seq<Word>, n: State)
    requires |functions| == 8 && VictimReady(functions, n)
    ensures var (u, ok) := FinishLink(FIRST, 1, n); ok && FirstOpened(u) && VictimBound(u, functions[0])
  {
    hide Definition, DefinedAddress, Accepts, Bindings, AfterPasses;
    var ctx := ContextOf(n, n.libs[1]);
    assert ctx.scope == [Provider(Root.Table(functions), 0)];
    VictimAccepted(functions, ctx);
    var r := Relocated(n, 1);
    var i :| 0 <= i < |Bindings(ctx, [LIBDL], Entries(VICTIM))| &&
             SlotBoundTo(Bindings(ctx, [LIBDL], Entries(VICTIM))[i], functions[0]);
    assert r.libs[1].bindings[i] == Bindings(ctx, [LIBDL], Entries(VICTIM))[i];
  }

  lemma VictimFilled(functions: seq<Word>, s: State)
    requires |functions| == 8 && JustLoaded(s, Root.Table(functions)) && Listed(AddRef(s, LIBDL))
    ensures VictimReady(functions, AddNeeded(AddRef(s, LIBDL), 1, LIBDL))
  {
  }

  lemma VictimLinks(functions: seq<Word>, s: State)
    requires |functions| == 8 && JustLoaded(s, Root.Table(functions)) && Basename("libdl.so") == "libdl.so"
    ensures var (u, ok) := LinkImage(FIRST, 1, s); ok && FirstOpened(u) && VictimBound(u, functions[0])
  {
    hide LinkImage, LoadNeeded, FinishLink, AddNeeded, VictimReady, VictimBound;
    VictimNeeds(functions, s);
    LinkImageStep(FIRST, 1, s);
    VictimFilled(functions, s);
    VictimRelocates(functions, AddNeeded(AddRef(s, LIBDL), 1, LIBDL));
  }

  lemma VictimFound(functions: seq<Word>)
    requires |functions| == 8
    ensures var (s, r) := FindLibrary(FIRST, "b", Init(Root.Table(functions)));
            r == Some(1) && FirstOpened(s) && VictimBound(s, functions[0])
  {
    hide FindLibrary, FindInternal, LinkImage, LoadLibrary;
    var st := Init(Root.Table(functions));
    PlainName("libdl.so", 8);
    VictimLoads(Root.Table(functions));
    VictimLinks(functions, LoadLibrary(FIRST, "b", st).0);
    FindInternalStep(FIRST, "b", st);
    FindLibraryStep(FIRST, "b", st);
  }

  lemma HandedOut(s: State, value: Word)
    requires FirstOpened(s) && VictimBound(s, value) && HandOut(s, Some(1)).Some?
    ensures FirstOpened(HandOut(s, Some(1)).value.0) && VictimBound(HandOut(s, Some(1)).value.0, value)
  {
    hide HandOut, CallConstructors;
    HandOutStep(s, 1);
  }

  function FirstOp(): Op {
    Open(FIRST, Some("b"), 0)
  }

  function SecondOp(): Op {
    Open(SECOND, Some("a"), 0)
  }

  lemma FirstStep(functions: seq<Word>)
    requires |functions| == 8
    ensures var st := Init(Root.Table(functions));
            Step(st, FirstOp()).Some? &&
            var t := Step(st, FirstOp()).value;
            Rest(t) && Intact(FIRST.backend, t) && FirstOpened(t) && VictimBound(t, functions[0])
  {
    hide Rest, Intact, FindLibrary, HandOut, FirstOpened, VictimBound, AllSelfContained;
    var st := Init(Root.Table(functions));
    VictimFound(functions);
    InitRest(Root.Table(functions));
    InitIntact(FIRST.backend, Root.Table(functions));
    VictimIsSelfContained();
    StepRest(st, FirstOp());
    OpenIntact(FIRST, Some("b"), 0, st);
    DoDlopenStep(FIRST, "b", 0, st);
    HandedOut(FindLibrary(FIRST, "b", st).0, functions[0]);
  }

  // -------------------------------------------------------- the second open

  lemma StrayLoads(st: State)
    requires FirstOpened(st)
    ensures var (s, r) := LoadLibrary(SECOND, "a", st);
            && FindLoaded(st, "a").None? && r == Some(2) && Listed(s)
            && s.libs == st.libs[2 := NewLib(2, "a", STRAY, 0x20000, 0x1000, 0x20000)]
            && s.bytes == WithImage(Posix, STRAY, 0x20000, st.bytes)
  {
    hide WithImage, ElfFile, LoadLibrary;
    LoadLibraryCases(SECOND, "a", st);
    PlainName("a", 1);
    PageIsFile(0);
  }

  lemma StrayOverwrites(ctx: Context, m: Mem)
    requires ctx.table == STRAY.table && ctx.bias == 0x20000 && HasWord(m, 0x10100)
    ensures var rels := Entries(STRAY);
            && Accepts(ctx, rels) && HasWord(AfterPasses(ctx, rels, m), 0x10100)
            && ReadWord(AfterPasses(ctx, rels, m), 0x10100) == 0
  {
    var rels := Entries(STRAY);
    assert rels == [Rel(0xffff_0100, R_ARM_JUMP_SLOT, 0)];
    assert Fits(ctx, rels[0], m) && Acceptable(ctx, rels[0]);
    SucceedsIffAcceptable(ctx, rels, m);
    RelocationResult(ctx, rels, m, 0);
  }

  lemma StrayLinks(s: State)
    requires Listed(s) && 1 in s.libs && 2 in s.libs && s.libs[2] == NewLib(2, "a", STRAY, 0x20000, 0x1000, 0x20000)
    requires HasWord(s.bytes, 0x10100)
    ensures var (u, ok) := LinkImage(SECOND, 2, s);
            && ok && 1 in u.libs && u.libs[1] == s.libs[1]
            && HasWord(u.bytes, 0x10100) && ReadWord(u.bytes, 0x10100) == 0
  {
    hide LinkImage, LoadNeeded, AfterPasses, Bindings, Accepts;
    LoadNeededDone(SECOND, 2, s);
    LinkImageStep(SECOND, 2, s);
    StrayOverwrites(ContextOf(s, s.libs[2]), s.bytes);
  }

  lemma StrayFound(st: State)
    requires FirstOpened(st) && HasWord(st.bytes, 0x10100)
    ensures var (u, r) := FindLibrary(SECOND, "a", st);
            && r == Some(2) && 1 in u.libs && u.libs[1] == st.libs[1]
            && HasWord(u.bytes, 0x10100) && ReadWord(u.bytes, 0x10100) == 0
  {
    hide FindLibrary, FindInternal, LinkImage, LoadLibrary;
    StrayLoads(st);
    StrayLinks(LoadLibrary(SECOND, "a", st).0);
    FindInternalStep(SECOND, "a", st);
    FindLibraryStep(SECOND, "a", st);
  }

  lemma SecondStep(st: State)
    requires Rest(st) && FirstOpened(st) && HasWord(st.bytes, 0x10100)
    ensures Step(st, SecondOp()).Some?
    ensures var t := Step(st, SecondOp()).value;
            && 1 in t.libs && t.libs[1].bindings == st.libs[1].bindings
            && HasWord(t.bytes, 0x10100) && ReadWord(t.bytes, 0x10100) == 0
  {
    hide Rest, FindLibrary, HandOut;
    StepRest(st, SecondOp());
    StrayFound(st);
    DoDlopenStep(SECOND, "a", 0, st);
    var s := FindLibrary(SECOND, "a", st).0;
    StillOverwritten(s, HandOut(s, Some(2)).value.0);
  }

  lemma StillOverwritten(s: State, r: State)
    requires Listed(s) && 2 in s.libs && 1 in s.libs && HandOut(s, Some(2)).Some? && HandOut(s, Some(2)).value.0 == r
    ensures 1 in r.libs && r.libs[1].bindings == s.libs[1].bindings && r.bytes == s.bytes
  {
    hide HandOut, CallConstructors;
    HandOutStep(s, 2);
  }

  /** A slot whose word in memory is not what was bound. */
  predicate Broken(st: State, b: Binding) {
    SlotKind(b.kind) && HasWord(st.bytes, b.place) && ReadWord(st.bytes, b.place) != b.value
  }

  predicate VictimBroken(st: State) {
    1 in st.libs && exists i :: 0 <= i < |st.libs[1].bindings| && Broken(st, st.libs[1].bindings[i])
  }

  lemma SlotBreaks(s: State, t: State, value: Word)
    requires VictimBound(s, value) && value != 0 && 1 in t.libs && t.libs[1].bindings == s.libs[1].bindings
    requires HasWord(t.bytes, 0x10100) && ReadWord(t.bytes, 0x10100) == 0
    ensures VictimBroken(t)
  {
    var i :| 0 <= i < |s.libs[1].bindings| && SlotBoundTo(s.libs[1].bindings[i], value);
    assert Broken(t, t.libs[1].bindings[i]);
  }

  lemma WordIsThere(st: State)
    requires Intact(FIRST.backend, st) && FirstOpened(st)
    ensures HasWord(st.bytes, 0x10100)
  {
    hide PartOf, Accepts, Bindings, AfterPasses, SelfContained, ElfFile;
    assert ImageIn(FIRST.backend, st, 1);
    var lib, ctx := st.libs[1], ContextOf(st, st.libs[1]);
    var f := if lib.linked then LinkedImage(FIRST.backend, lib, ctx) else FreshImage(FIRST.backend, lib);
    PageIsFile(0);
    ImageKeys(FIRST.backend, lib, ctx);
    assert Within(0x10100, 0x10000, 0x1000) && Within(0x10101, 0x10000, 0x1000);
    assert Within(0x10102, 0x10000, 0x1000) && Within(0x10103, 0x10000, 0x1000);
    PartWord(f, st.bytes, 0x10100);
  }

  /** Two legal opens after which a slot of the first library, bound to dlopen, is a word of zeros:
      the second library's entry has overwritten it. */
  lemma StrayEntryBreaksSlot(functions: seq<Word>)
    requires |functions| == 8 && functions[0] != 0
    ensures var st, ops := Init(Root.Table(functions)), [FirstOp(), SecondOp()];
            && IsFile(VICTIM) && IsFile(STRAY)
            && Legal(st, ops) && Run(st, ops).Some? && VictimBroken(Run(st, ops).value)
  {
    hide Rest, Intact, FirstOpened, VictimBound, VictimBroken, Step, IsFile;
    PageIsFile(0);
    SameFile(PageImage(0), VICTIM);
    SameFile(PageImage(0), STRAY);
    var st, ops := Init(Root.Table(functions)), [FirstOp(), SecondOp()];
    FirstStep(functions);
    var s := Step(st, FirstOp()).value;
    WordIsThere(s);
    SecondStep(s);
    var t := Step(s, SecondOp()).value;
    SlotBreaks(s, t, functions[0]);
    TwoOps(st, FirstOp(), SecondOp(), s, t);
  }

  lemma TwoOps(st: State, a: Op, b: Op, s: State, t: State)
    requires Listed(st) && a.Open? && b.Open? && Step(st, a) == Some(s) && Listed(s) && Step(s, b) == Some(t)
    ensures Legal(st, [a, b]) && Run(st, [a, b]) == Some(t)
  {
    hide Step;
    assert [a, b][1..] == [b] && [b][1..] == [];
    assert Run(t, []) == Some(t) && Run(s, [b]) == Some(t);
    assert Legal(s, [b]);
  }
}
