/** The root of the list, libdl_info: a symbol table with a made-up hash index of one bucket. */
module Libdl {
  import opened Base
  import opened ElfHash
  import opened Symbols
  import opened Lifecycle
  import opened Dlfcn

  // The names exported, in ASCII.

  // dlopen
  const DLOPEN: Name := [0x64, 0x6c, 0x6f, 0x70, 0x65, 0x6e]
  // dlclose
  const DLCLOSE: Name := [0x64, 0x6c, 0x63, 0x6c, 0x6f, 0x73, 0x65]
  // dlsym
  const DLSYM: Name := [0x64, 0x6c, 0x73, 0x79, 0x6d]
  // dlerror
  const DLERROR: Name := [0x64, 0x6c, 0x65, 0x72, 0x72, 0x6f, 0x72]
  // dladdr
  const DLADDR: Name := [0x64, 0x6c, 0x61, 0x64, 0x64, 0x72]
  // __cxa_begin_cleanup
  const BEGIN_CLEANUP: Name :=
    [0x5f, 0x5f, 0x63, 0x78, 0x61, 0x5f, 0x62, 0x65, 0x67, 0x69,
     0x6e, 0x5f, 0x63, 0x6c, 0x65, 0x61, 0x6e, 0x75, 0x70]
  // __cxa_call_unexpected
  const CALL_UNEXPECTED: Name :=
    [0x5f, 0x5f, 0x63, 0x78, 0x61, 0x5f, 0x63, 0x61, 0x6c, 0x6c, 0x5f,
     0x75, 0x6e, 0x65, 0x78, 0x70, 0x65, 0x63, 0x74, 0x65, 0x64]
  // dl_unwind_find_exidx
  const UNWIND: Name :=
    [0x64, 0x6c, 0x5f, 0x75, 0x6e, 0x77, 0x69, 0x6e, 0x64, 0x5f,
     0x66, 0x69, 0x6e, 0x64, 0x5f, 0x65, 0x78, 0x69, 0x64, 0x78]

  const NAMES: seq<Name> := [DLOPEN, DLCLOSE, DLSYM, DLERROR, DLADDR, BEGIN_CLEANUP, CALL_UNEXPECTED, UNWIND]

  // nchain is 10, one more than there are symbols: entries 9 and on are zero-initialised.
  const CHAINS: seq<nat> := [0, 2, 3, 4, 5, 6, 7, 8, 0, 0]

  /** gLibDlSymtab for the addresses of the eight functions. */
  function Symtab(functions: seq<Word>): (syms: seq<Sym>)
    requires |functions| == 8
    ensures |syms| == 9
    ensures forall n :: 1 <= n < 9 ==> syms[n] == Sym(NAMES[n - 1], functions[n - 1], 0, STB_GLOBAL, 1)
  {
    [Sym([], 0, 0, 0, SHN_UNDEF)] + seq(8, i requires 0 <= i < 8 => Sym(NAMES[i], functions[i], 0, STB_GLOBAL, 1))
  }

  function Table(functions: seq<Word>): SymTable
    requires |functions| == 8
  {
    SymTable(Symtab(functions), [1], CHAINS)
  }

  // ------------------------------------------------------------ the fake index

  /** From entry n the chain runs through every later entry and then ends. */
  lemma {:induction false} ChainEnds(t: SymTable, n: nat, fuel: nat)
    requires t.chain == CHAINS && |t.syms| == 9 && 1 <= n <= 8 && fuel >= 9 - n
    ensures Ends(t, n, fuel)
    decreases 9 - n
  {
    if n < 8 {
      assert t.chain[n] == n + 1;
      ChainEnds(t, n + 1, fuel - 1);
    } else {
      assert t.chain[8] == 0;
    }
  }

  lemma {:induction false} ChainReaches(t: SymTable, m: nat, n: nat, fuel: nat)
    requires t.chain == CHAINS && 1 <= m <= n <= 8 && fuel >= n - m
    ensures OnChain(t, m, n, fuel)
    decreases n - m
  {
    if m < n {
      assert t.chain[m] == m + 1;
      ChainReaches(t, m + 1, n, fuel - 1);
    }
  }

  /** The single bucket is a well-formed hash index: every name hashes to it. */
  lemma TableIsWellFormed(functions: seq<Word>)
    requires |functions| == 8
    ensures WellFormed(Table(functions))
  {
    var t := Table(functions);
    ChainEnds(t, 1, 10);
    forall n | 1 <= n < |t.syms| && Defines(t.syms[n], t.syms[n].name)
      ensures OnChain(t, Head(t, HashCode(t.syms[n].name)), n, |t.chain|)
    {
      OneBucket(t, HashCode(t.syms[n].name));
      ChainReaches(t, 1, n, 10);
    }
  }

  lemma OneBucket(t: SymTable, hash: nat)
    requires t.bucket == [1]
    ensures Head(t, hash) == 1
  {
  }

  lemma NamesDiffer()
    ensures forall i, j :: 0 <= i < j < 8 ==> NAMES[i] != NAMES[j]
  {
    SameLengthNamesDiffer();
    forall i, j | 0 <= i < j < 8
      ensures NAMES[i] != NAMES[j]
    {
      NameLength(i);
      NameLength(j);
    }
  }

  function LengthOf(k: nat): nat
    requires k < 8
  {
    [6, 7, 5, 7, 6, 19, 21, 20][k]
  }

  lemma NameLength(k: nat)
    requires k < 8
    ensures |NAMES[k]| == LengthOf(k)
  {
  }

  lemma SameLengthNamesDiffer()
    ensures NAMES[0] != NAMES[4] && NAMES[1] != NAMES[3]
  {
    assert DLOPEN[2] != DLADDR[2] && DLCLOSE[2] != DLERROR[2];
  }

  /** dlsym of libdl finds exactly its eight functions, each at its own address; and dladdr never
      reports libdl, whose range is empty. */
  lemma LibdlExports(functions: seq<Word>, name: Name, address: Word)
    requires |functions| == 8
    ensures forall k :: 0 <= k < 8 && name == NAMES[k] ==> DlSym(Libdl(Table(functions)), name) == Some(functions[k])
    ensures name !in NAMES ==> DlSym(Libdl(Table(functions)), name) == None
    ensures !HoldsAddress(Libdl(Table(functions)), address)
  {
    var t := Table(functions);
    TableIsWellFormed(functions);
    LookupRefinesScan(t, name);
    NamesDiffer();
    var r := Lookup(t, name);
    forall k | 0 <= k < 8 && name == NAMES[k]
      ensures r == Some(k + 1)
    {
      assert Defines(t.syms[k + 1], name);
      assert t.syms[r.value].name == NAMES[r.value - 1];
    }
    if r.Some? {
      assert t.syms[r.value].name == NAMES[r.value - 1];
    }
  }
}
