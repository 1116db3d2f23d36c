/** A library whose lowest page is not page 0: what dladdr makes of the addresses of its symbols. */
module OffPageZero {
  import opened Base
  import opened ElfHash
  import opened Symbols
  import opened Segments
  import opened HeaderTable
  import opened Lifecycle
  import opened LifecycleInvariant
  import opened LifecycleSteps
  import opened LoadingInvariant
  import opened Runs
  import opened Dlfcn
  import opened Inputs
  import Root = Libdl

  // One page at 0x1000, with one symbol 256 bytes into it.
  function OffPageImage(name: Name): Image {
    PageImage(0x1000).(
      table := SymTable([Sym([], 0, 0, 0, SHN_UNDEF), Sym(name, 0x1100, 16, STB_GLOBAL, 1)], [1], [0, 0]))
  }

  function OffPageEnv(name: Name): Env {
    Env(map["a.so" := OffPageImage(name)], Posix, t => true, t => 0x5000)
  }

  function OffPageOp(name: Name): Op {
    Open(OffPageEnv(name), Some("a.so"), 0)
  }

  // The library at 0x5000, whatever has happened to its counts and flags.
  predicate IsOffPage(lib: Lib, name: Name) {
    && lib.image == OffPageImage(name) && lib.base == 0x5000 && lib.size == 0x1000 && lib.bias == 0x4000
  }

  lemma OneChain(t: SymTable)
    requires |t.syms| == 2 && t.bucket == [1] && t.chain == [0, 0]
    ensures WellFormed(t)
  {
    hide HashCode, Head;
    assert Ends(t, 1, 2) && OnChain(t, 1, 1, 2);
    forall h: nat
      ensures Head(t, h) == 1
    {
      Root.OneBucket(t, h);
    }
  }

  lemma OffPageFinds(lib: Lib, name: Name)
    requires IsOffPage(lib, name)
    ensures Tidy(lib) && DlSym(lib, name) == Some(0x5100)
  {
    hide HashCode, WellFormed, ElfFile;
    var t := lib.image.table;
    PageIsFile(0x1000);
    OneChain(t);
    Root.OneBucket(t, HashCode(name));
    assert Search(t, 1, 2, name) == Some(1);
  }

  // ------------------------------------------------------------------ the open

  lemma OffPageLoads(name: Name, table: SymTable)
    ensures var (s, r) := LoadLibrary(OffPageEnv(name), "a.so", Init(table));
            && FindLoaded(Init(table), "a.so").None? && r == Some(1)
            && s.libs == map[LIBDL := Libdl(table),
                             1 := NewLib(1, "a.so", OffPageImage(name), 0x5000, 0x1000, 0x4000)]
  {
    hide WithImage, ElfFile, LoadLibrary;
    PlainName("a.so", 4);
    PageIsFile(0x1000);
    LoadLibraryCases(OffPageEnv(name), "a.so", Init(table));
  }

  lemma OffPageLinks(name: Name, s: State)
    requires Listed(s) && 1 in s.libs
    requires s.libs[1] == NewLib(1, "a.so", OffPageImage(name), 0x5000, 0x1000, 0x4000)
    ensures var (u, ok) := LinkImage(OffPageEnv(name), 1, s); ok && 1 in u.libs && IsOffPage(u.libs[1], name)
  {
    hide LinkImage, LoadNeeded, AfterPasses, ElfFile;
    LoadNeededDone(OffPageEnv(name), 1, s);
    LinkImageStep(OffPageEnv(name), 1, s);
  }

  lemma OffPageFound(name: Name, table: SymTable)
    ensures var (u, r) := FindLibrary(OffPageEnv(name), "a.so", Init(table));
            r == Some(1) && IsOffPage(u.libs[1], name)
  {
    hide FindLibrary, FindInternal, LinkImage, LoadLibrary, ElfFile, Names, Basename, OffPageImage, OffPageEnv;
    var st := Init(table);
    OffPageLoads(name, table);
    OffPageLinks(name, LoadLibrary(OffPageEnv(name), "a.so", st).0);
    FindInternalStep(OffPageEnv(name), "a.so", st);
    FindLibraryStep(OffPageEnv(name), "a.so", st);
  }

  lemma OffPageOpened(name: Name, table: SymTable)
    ensures var st := Init(table);
            && Step(st, OffPageOp(name)).Some?
            && 1 in Step(st, OffPageOp(name)).value.libs && IsOffPage(Step(st, OffPageOp(name)).value.libs[1], name)
  {
    hide Rest, FindLibrary, HandOut, IsOffPage;
    var st := Init(table);
    InitRest(table);
    StepRest(st, OffPageOp(name));
    OffPageFound(name, table);
    DoDlopenStep(OffPageEnv(name), "a.so", 0, st);
    StillOffPage(FindLibrary(OffPageEnv(name), "a.so", st).0, name);
  }

  lemma StillOffPage(s: State, name: Name)
    requires Listed(s) && 1 in s.libs && IsOffPage(s.libs[1], name) && HandOut(s, Some(1)).Some?
    ensures 1 in HandOut(s, Some(1)).value.0.libs && IsOffPage(HandOut(s, Some(1)).value.0.libs[1], name)
  {
    hide HandOut, CallConstructors;
    HandOutStep(s, 1);
  }

  lemma OneOp(st: State, op: Op)
    requires Listed(st) && op.Open? && Step(st, op).Some?
    ensures Legal(st, [op]) && Run(st, [op]) == Step(st, op)
  {
    hide Step;
    var t := Step(st, op).value;
    assert [op][1..] == [];
    assert Legal(t, []) && Run(t, []) == Some(t);
  }

  /** One legal open after which the library's symbol is found by name, and is not what dladdr reports
      for the address that was found. */
  lemma OffPageZeroIsLost(name: Name, table: SymTable)
    ensures IsFile(OffPageImage(name))
    ensures var st, ops := Init(table), [OffPageOp(name)];
            && Legal(st, ops) && Run(st, ops).Some?
            && var t := Run(st, ops).value;
               && Known(t.order, t.libs) && 1 in t.libs && Tidy(t.libs[1])
               && DlSym(t.libs[1], name) == Some(0x5100) && !Reported(t, 1, name, 0)
  {
    hide Legal, Run, Step, Tidy, DlSym, Reported, IsFile, ElfFile;
    var st := Init(table);
    OffPageOpened(name, table);
    OneOp(st, OffPageOp(name));
    var lib := Step(st, OffPageOp(name)).value.libs[1];
    OffPageFinds(lib, name);
    PageIsFile(0x1000);
    SameFile(PageImage(0x1000), OffPageImage(name));
    DladdrOfDlsymIff(table, [OffPageOp(name)], 1, name);
  }
}
