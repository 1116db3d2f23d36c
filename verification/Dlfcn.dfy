/** dlsym and dladdr over the loaded libraries, and the table of libdl itself. */
module Dlfcn {
  import opened Base
  import opened ElfHash
  import opened Symbols
  import opened Segments
  import opened Lifecycle
  import opened LifecycleInvariant
  import opened Runs
  import opened Verdict
  import opened SoinfoList
  import opened LinkerSteps
  import Linkers = Linker

  // ------------------------------------------------------------------- dlsym

  /** An entry that s_dlsym hands out: weak definitions are found, but refused. */
  function Exported(lib: Lib, n: nat): Option<Word> {
    if n < |lib.image.table.syms| && lib.image.table.syms[n].bind == STB_GLOBAL
    then Some(Add32(lib.image.table.syms[n].value, lib.bias))
    else None
  }

  /** s_dlsym of a handle: that library alone is searched. */
  function DlSym(lib: Lib, name: Name): Option<Word> {
    match Lookup(lib.image.table, name)
    case None => None
    case Some(n) => Exported(lib, n)
  }

  /** dlsym_linear_lookup: the first library of the list with a definition, and its entry. */
  function LinearLookup(order: seq<nat>, libs: map<nat, Lib>, name: Name): (r: Option<(nat, nat)>)
    requires Known(order, libs)
    ensures r.Some? ==> r.value.0 in order && Lookup(libs[r.value.0].image.table, name) == Some(r.value.1)
    ensures r.None? ==> forall id :: id in order ==> Lookup(libs[id].image.table, name).None?
  {
    if order == [] then None
    else
      assert Known(order[1..], libs);
      match Lookup(libs[order[0]].image.table, name)
      case Some(n) => Some((order[0], n))
      case None => LinearLookup(order[1..], libs, name)
  }

  /** s_dlsym of RTLD_DEFAULT: the first definition decides, even if it is not exported. */
  function DlSymDefault(st: State, name: Name): Option<Word>
    requires Known(st.order, st.libs)
  {
    match LinearLookup(st.order, st.libs, name)
    case None => None
    case Some(found) => Exported(st.libs[found.0], found.1)
  }

  /** Entry n is a global definition of the name, outside section 0. */
  predicate GlobalAt(t: SymTable, name: Name, n: int) {
    1 <= n < |t.syms| && t.syms[n].name == name && t.syms[n].bind == 1 && t.syms[n].shndx != 0
  }

  /** No two entries of the table define the name. */
  ghost predicate Unique(t: SymTable, name: Name) {
    forall i, j :: DefinedAt(t, name, i) && DefinedAt(t, name, j) ==> i == j
  }

  predicate AddressOf(lib: Lib, n: int, address: Word)
    requires 0 <= n < |lib.image.table.syms|
  {
    address == (lib.image.table.syms[n].value as int + lib.bias) % 0x1_0000_0000
  }

  /** What a library has to offer under the name: the address of a global definition, or nothing. */
  predicate Offers(lib: Lib, name: Name, r: Option<Word>) {
    match r
    case None => forall n :: 1 <= n < |lib.image.table.syms| ==> !GlobalAt(lib.image.table, name, n)
    case Some(address) =>
      exists n :: 1 <= n < |lib.image.table.syms| && GlobalAt(lib.image.table, name, n) && AddressOf(lib, n, address)
  }

  lemma ExportedIff(lib: Lib, name: Name, n: nat)
    requires DefinedAt(lib.image.table, name, n) && Unique(lib.image.table, name)
    ensures Offers(lib, name, Exported(lib, n))
  {
    AddIsModular(lib.image.table.syms[n].value, lib.bias);
    forall k | GlobalAt(lib.image.table, name, k)
      ensures k == n
    {
      assert DefinedAt(lib.image.table, name, k);
    }
    assert Exported(lib, n).Some? ==> GlobalAt(lib.image.table, name, n) && AddressOf(lib, n, Exported(lib, n).value);
  }

  /** s_dlsym of a handle finds a symbol exactly when the library has a global definition of the name,
      and then its address; a weak definition is not handed out. */
  lemma DlSymIff(lib: Lib, name: Name)
    requires WellFormed(lib.image.table) && Unique(lib.image.table, name)
    ensures Offers(lib, name, DlSym(lib, name))
  {
    hide WellFormed, Unique;
    var t := lib.image.table;
    LookupIsDefinition(t, name);
    if Lookup(t, name).Some? {
      ExportedIff(lib, name, Lookup(t, name).value);
    } else {
      assert forall n :: 1 <= n < |t.syms| && GlobalAt(t, name, n) ==> DefinedAt(t, name, n);
    }
  }

  /** The first library of the order with a definition of the name, of whatever binding. */
  ghost predicate FirstWith(order: seq<nat>, libs: map<nat, Lib>, name: Name, k: int)
    requires Known(order, libs)
  {
    && 0 <= k < |order| && DefinedIn(libs[order[k]].image.table, name)
    && forall j :: 0 <= j < k ==> !DefinedIn(libs[order[j]].image.table, name)
  }

  predicate AllIndexed(order: seq<nat>, libs: map<nat, Lib>)
    requires Known(order, libs)
  {
    forall k :: 0 <= k < |order| ==> WellFormed(libs[order[k]].image.table)
  }

  lemma {:induction false} LinearLookupIsFirst(order: seq<nat>, libs: map<nat, Lib>, name: Name) returns (k: int)
    requires Known(order, libs) && AllIndexed(order, libs)
    ensures var r := LinearLookup(order, libs, name);
            match r
            case None => forall j :: 0 <= j < |order| ==> !DefinedIn(libs[order[j]].image.table, name)
            case Some(found) =>
              FirstWith(order, libs, name, k) && found.0 == order[k] &&
              DefinedAt(libs[order[k]].image.table, name, found.1)
  {
    hide WellFormed, DefinedIn, DefinedAt, Lookup;
    k := 0;
    if order != [] {
      assert Known(order[1..], libs) && AllIndexed(order[1..], libs);
      LookupIsDefinition(libs[order[0]].image.table, name);
      if Lookup(libs[order[0]].image.table, name).None? {
        k := LinearLookupIsFirst(order[1..], libs, name);
        k := k + 1;
      }
    }
  }

  /** s_dlsym of RTLD_DEFAULT finds what the first library that has any definition offers: nothing if
      that one's is weak, whatever the libraries after it define. */
  lemma DlSymDefaultIff(st: State, name: Name)
    requires Known(st.order, st.libs) && AllIndexed(st.order, st.libs)
    requires forall k :: 0 <= k < |st.order| ==> Unique(st.libs[st.order[k]].image.table, name)
    ensures var r := DlSymDefault(st, name);
            if forall j :: 0 <= j < |st.order| ==> !DefinedIn(st.libs[st.order[j]].image.table, name) then r == None
            else exists k :: FirstWith(st.order, st.libs, name, k) && Offers(st.libs[st.order[k]], name, r)
  {
    hide DefinedIn, DefinedAt, AllIndexed, Unique, Offers, Exported;
    var k := LinearLookupIsFirst(st.order, st.libs, name);
    if LinearLookup(st.order, st.libs, name).Some? {
      ExportedIff(st.libs[st.order[k]], name, LinearLookup(st.order, st.libs, name).value.1);
    }
  }

  // ------------------------------------------------------------------ dladdr

  predicate HoldsAddress(lib: Lib, address: Word) {
    Within(address, lib.base, lib.size)
  }

  /** find_containing_library. */
  function Containing(order: seq<nat>, libs: map<nat, Lib>, address: Word): (r: Option<nat>)
    requires Known(order, libs)
    ensures r.Some? ==> r.value in order && HoldsAddress(libs[r.value], address)
    ensures r.None? ==> forall id :: id in order ==> !HoldsAddress(libs[id], address)
  {
    if order == [] then None
    else
      assert Known(order[1..], libs);
      if HoldsAddress(libs[order[0]], address) then Some(order[0])
      else Containing(order[1..], libs, address)
  }

  /** A defined symbol whose range, computed in 32 bits, holds the offset. */
  predicate CoversOffset(s: Sym, offset: Word) {
    s.shndx != SHN_UNDEF && s.value <= offset < Add32(s.value, s.size)
  }

  /** dladdr_find_symbol: the first of the nchain entries that covers the offset. */
  function FindSymbol(t: SymTable, offset: Word, from: nat): (r: Option<nat>)
    ensures r.Some? ==> from <= r.value < |t.syms| && r.value < |t.chain| && CoversOffset(t.syms[r.value], offset)
    ensures r.Some? ==> forall n :: from <= n < r.value ==> !CoversOffset(t.syms[n], offset)
    ensures r.None? ==> forall n :: from <= n < |t.syms| && n < |t.chain| ==> !CoversOffset(t.syms[n], offset)
    decreases |t.chain| - from
  {
    if from >= |t.chain| || from >= |t.syms| then None
    else if CoversOffset(t.syms[from], offset) then Some(from)
    else FindSymbol(t, offset, from + 1)
  }

  // A Dl_info; an absent symbol is a null name and a zero address.
  datatype Info = Info(fname: string, fbase: Word, sname: Option<Name>, saddr: Word)

  function DlAddr(st: State, address: Word): Option<Info>
    requires Known(st.order, st.libs)
  {
    match Containing(st.order, st.libs, address)
    case None => None
    case Some(id) => Some(InfoOf(st.libs[id], address))
  }

  function InfoOf(lib: Lib, address: Word): Info {
    match FindSymbol(lib.image.table, Sub32(address, lib.base), 0)
    case None => Info(lib.name, lib.base, None, 0)
    case Some(n) =>
      var s := lib.image.table.syms[n];
      Info(lib.name, lib.base, Some(s.name), Add32(lib.bias, s.value))
  }

  // -------------------------------------------------------------- round trip

  /** Every defined symbol has a size, lies inside the loadable extent, ends below 2^32, and
      overlaps no other. */
  predicate Tidy(lib: Lib) {
    var t, low := lib.image.table, MinVaddr(lib.image.phdrs);
    && WellFormed(t) && |t.chain| == |t.syms|
    && (forall n :: 0 <= n < |t.syms| && t.syms[n].shndx != SHN_UNDEF ==>
          && 0 < t.syms[n].size && t.syms[n].value as int + t.syms[n].size < WORDS
          && low <= t.syms[n].value && t.syms[n].value as int + t.syms[n].size <= low as int + lib.size)
    && (forall m, n :: 0 <= m < n < |t.syms| && t.syms[m].shndx != SHN_UNDEF && t.syms[n].shndx != SHN_UNDEF ==>
          Separate(t.syms[m], t.syms[n]))
  }

  predicate Separate(a: Sym, b: Sym) {
    a.value as int + a.size <= b.value || b.value as int + b.size <= a.value
  }

  lemma FoundIsDefinition(lib: Lib, name: Name)
    requires WellFormed(lib.image.table) && DlSym(lib, name).Some?
    ensures var r := Lookup(lib.image.table, name);
            && r.Some? && r.value < |lib.image.table.syms| && Defines(lib.image.table.syms[r.value], name)
            && DlSym(lib, name).value == Add32(lib.image.table.syms[r.value].value, lib.bias)
  {
    LookupRefinesScan(lib.image.table, name);
  }

  /** No other library of the list holds an address of this one. */
  lemma {:induction false} OnlyContaining(st: State, order: seq<nat>, id: nat, address: Word)
    requires Shape(st) && Placed(st) && Known(order, st.libs) && id in order && id != LIBDL
    requires HoldsAddress(st.libs[id], address)
    ensures Containing(order, st.libs, address) == Some(id)
  {
    assert Known(order[1..], st.libs);
    if order[0] != id {
      assert order[0] == LIBDL || RangesApart(st.libs[order[0]], st.libs[id]);
      OnlyContaining(st, order[1..], id, address);
    }
  }

  /** In a tidy table the entry is the only one that covers its offsets. */
  lemma OnlyCovering(lib: Lib, n: nat, offset: Word)
    requires Tidy(lib) && n < |lib.image.table.syms| && CoversOffset(lib.image.table.syms[n], offset)
    ensures FindSymbol(lib.image.table, offset, 0) == Some(n)
  {
    var t := lib.image.table;
    forall m | 0 <= m < |t.syms| && m != n
      ensures !CoversOffset(t.syms[m], offset)
    {
      assert m < n && t.syms[m].shndx != SHN_UNDEF ==> Separate(t.syms[m], t.syms[n]);
      assert n < m && t.syms[m].shndx != SHN_UNDEF ==> Separate(t.syms[n], t.syms[m]);
    }
  }

  /** What dlsym returned, when it returned something: the size of that symbol. */
  function FoundSize(lib: Lib, name: Name): nat
    requires DlSym(lib, name).Some?
  {
    lib.image.table.syms[Lookup(lib.image.table, name).value].size
  }

  /** dladdr tells of the address k bytes into what dlsym returned that it belongs to that library
      and that name, which is at the very address dlsym returned. */
  predicate Reported(st: State, id: nat, name: Name, k: nat)
    requires Known(st.order, st.libs) && id in st.libs && DlSym(st.libs[id], name).Some?
  {
    var lib, address := st.libs[id], DlSym(st.libs[id], name).value;
    address as int + k < WORDS &&
    DlAddr(st, address + k) == Some(Info(lib.name, lib.base, Some(name), address))
  }

  /** After any run, for tidy symbols: dladdr inverts dlsym exactly from as far into the symbol as
      the library's lowest page is into its address space. */
  lemma DladdrInvertsDlsymIff(table: SymTable, ops: seq<Op>, id: nat, name: Name, k: nat)
    requires Legal(Init(table), ops) && Run(Init(table), ops).Some?
    requires var st := Run(Init(table), ops).value;
             && id in st.libs && id != LIBDL && Tidy(st.libs[id]) && DlSym(st.libs[id], name).Some?
             && k < FoundSize(st.libs[id], name)
    ensures var st := Run(Init(table), ops).value;
            Known(st.order, st.libs) && (Reported(st, id, name, k) <==> MinVaddr(st.libs[id].image.phdrs) <= k)
  {
    hide Tidy, Reported, FoundSize, Run, Legal, DlSym;
    InitRest(table);
    RunsAreSafe(Init(table), ops);
    RoundTrip(Run(Init(table), ops).value, id, name, k);
  }

  /** For the address itself, then, exactly when the lowest page is page 0. */
  lemma DladdrOfDlsymIff(table: SymTable, ops: seq<Op>, id: nat, name: Name)
    requires Legal(Init(table), ops) && Run(Init(table), ops).Some?
    requires var st := Run(Init(table), ops).value;
             id in st.libs && id != LIBDL && Tidy(st.libs[id]) && DlSym(st.libs[id], name).Some?
    ensures var st := Run(Init(table), ops).value;
            Known(st.order, st.libs) && (Reported(st, id, name, 0) <==> MinVaddr(st.libs[id].image.phdrs) == 0)
  {
    FoundIsDefinition(Run(Init(table), ops).value.libs[id], name);
    DladdrInvertsDlsymIff(table, ops, id, name, 0);
  }

  lemma RoundTrip(st: State, id: nat, name: Name, k: nat)
    requires Shape(st) && Placed(st) && Known(st.order, st.libs) && id in st.libs && id != LIBDL
    requires Tidy(st.libs[id]) && DlSym(st.libs[id], name).Some? && k < FoundSize(st.libs[id], name)
    ensures Reported(st, id, name, k) <==> MinVaddr(st.libs[id].image.phdrs) <= k
  {
    hide Tidy, Placed, Shape, InfoOf, Reported, Containing, Known;
    InPlace(st, id);
    SymbolRoundTrip(st.libs[id], name, k);
    FoundThere(st, id, DlSym(st.libs[id], name).value + k);
    ReportedIff(st, id, name, k);
  }

  lemma FoundThere(st: State, id: nat, address: Word)
    requires Shape(st) && Placed(st) && Known(st.order, st.libs) && id in st.libs && id != LIBDL
    requires HoldsAddress(st.libs[id], address)
    ensures Containing(st.order, st.libs, address) == Some(id)
  {
    ListIsAll(st);
    OnlyContaining(st, st.order, id, address);
  }

  lemma ReportedIff(st: State, id: nat, name: Name, k: nat)
    requires Known(st.order, st.libs) && id in st.libs && DlSym(st.libs[id], name).Some?
    requires DlSym(st.libs[id], name).value as int + k < WORDS
    requires Containing(st.order, st.libs, DlSym(st.libs[id], name).value + k) == Some(id)
    ensures var lib, address := st.libs[id], DlSym(st.libs[id], name).value;
            Reported(st, id, name, k) <==> InfoOf(lib, address + k) == Info(lib.name, lib.base, Some(name), address)
  {
  }

  lemma InPlace(st: State, id: nat)
    requires Placed(st) && id in st.libs && id != LIBDL
    ensures AsLoaded(st.libs[id]) && st.libs[id].base as int + st.libs[id].size <= WORDS
  {
  }

  lemma SymbolRoundTrip(lib: Lib, name: Name, k: nat)
    requires Tidy(lib) && AsLoaded(lib) && lib.base as int + lib.size <= WORDS
    requires DlSym(lib, name).Some? && k < FoundSize(lib, name)
    ensures var address := DlSym(lib, name).value;
            && address as int + k < WORDS && HoldsAddress(lib, address + k)
            && (InfoOf(lib, address + k) == Info(lib.name, lib.base, Some(name), address) <==>
                  MinVaddr(lib.image.phdrs) <= k)
  {
    var t, low := lib.image.table, MinVaddr(lib.image.phdrs);
    FoundIsDefinition(lib, name);
    var n := Lookup(t, name).value;
    assert t.syms[n].value as int + t.syms[n].size <= low as int + lib.size;
    Distance(t.syms[n].value, lib.base, low, k);
    var offset: Word := t.syms[n].value - low + k;
    if low <= k {
      OnlyCovering(lib, n, offset);
    } else if FindSymbol(t, offset, 0).Some? {
      NotReported(lib, n, offset, FindSymbol(t, offset, 0).value);
    }
  }

  lemma Distance(value: Word, base: Word, low: Word, k: nat)
    requires low <= value && base as int + (value - low) + k < WORDS
    ensures Add32(value, Sub32(base, low)) == base as int + (value - low)
    ensures Sub32(base as int + (value - low) + k, base) == value - low + k
  {
  }

  /** Below the symbol's own value it is never the one reported at its own address. */
  lemma NotReported(lib: Lib, n: nat, offset: Word, m: nat)
    requires Tidy(lib) && n < |lib.image.table.syms| && lib.image.table.syms[n].shndx != SHN_UNDEF
    requires m < |lib.image.table.syms| && CoversOffset(lib.image.table.syms[m], offset)
    requires offset < lib.image.table.syms[n].value
    ensures Add32(lib.bias, lib.image.table.syms[m].value) != Add32(lib.image.table.syms[n].value, lib.bias)
  {
    var t := lib.image.table;
    assert t.syms[m].value <= offset < t.syms[n].value;
  }

  /** The symbol has a section, and a range that ends below 2^32 and holds the offset. */
  predicate HoldsOffset(s: Sym, offset: int) {
    s.shndx != 0 && s.value <= offset < s.value as int + s.size < 0x1_0000_0000
  }

  lemma CoversIff(s: Sym, offset: Word)
    ensures CoversOffset(s, offset) <==> HoldsOffset(s, offset)
  {
  }

  /** Entry n is the first of those that DT_HASH counts to hold the offset. */
  predicate FirstHolding(t: SymTable, offset: int, n: int) {
    && 0 <= n < |t.syms| && n < |t.chain| && HoldsOffset(t.syms[n], offset)
    && forall k :: 0 <= k < n ==> !HoldsOffset(t.syms[k], offset)
  }

  /** The symbol of the report: the first that holds the offset, at its run-time address, or none. */
  predicate SymbolReport(lib: Lib, offset: int, info: Info) {
    var t := lib.image.table;
    if info.sname.Some? then
      exists n :: 0 <= n < |t.syms| && FirstHolding(t, offset, n) && ReportedSymbol(t.syms[n], lib.bias, info)
    else
      info.saddr == 0 && forall n :: 0 <= n < |t.syms| && n < |t.chain| ==> !HoldsOffset(t.syms[n], offset)
  }

  predicate ReportedSymbol(s: Sym, bias: Word, info: Info) {
    info.sname == Some(s.name) && info.saddr == (s.value as int + bias) % 0x1_0000_0000
  }

  predicate ReportOf(lib: Lib, address: Word, info: Info) {
    && lib.base <= address < lib.base as int + lib.size && info.fname == lib.name && info.fbase == lib.base
    && SymbolReport(lib, address as int - lib.base, info)
  }

  lemma InfoIsReport(lib: Lib, address: Word)
    requires HoldsAddress(lib, address)
    ensures ReportOf(lib, address, InfoOf(lib, address))
  {
    hide CoversOffset, HoldsOffset;
    var t, offset := lib.image.table, Sub32(address, lib.base);
    forall n | 0 <= n < |t.syms|
      ensures CoversOffset(t.syms[n], offset) <==> HoldsOffset(t.syms[n], offset)
    {
      CoversIff(t.syms[n], offset);
    }
    var r := FindSymbol(t, offset, 0);
    if r.Some? {
      AddIsModular(t.syms[r.value].value, lib.bias);
      assert FirstHolding(t, offset, r.value) && ReportedSymbol(t.syms[r.value], lib.bias, InfoOf(lib, address));
    }
  }

  /** s_dladdr: nothing for an address in no library's range, else a report of one that holds it. */
  lemma DlAddrIff(st: State, address: Word)
    requires Listed(st)
    ensures Known(st.order, st.libs)
    ensures match DlAddr(st, address)
            case None =>
              forall id :: id in st.libs ==> !(st.libs[id].base <= address < st.libs[id].base + st.libs[id].size)
            case Some(info) => exists id :: id in st.libs && ReportOf(st.libs[id], address, info)
  {
    hide ReportOf, InfoOf;
    ListIsAll(st);
    var r := Containing(st.order, st.libs, address);
    if r.Some? {
      InfoIsReport(st.libs[r.value], address);
    } else {
      forall id | id in st.libs
        ensures !(st.libs[id].base <= address < st.libs[id].base + st.libs[id].size)
      {
        assert !HoldsAddress(st.libs[id], address);
      }
    }
  }

  /** A symbol without a size covers nothing, itself included. */
  lemma SizelessIsNeverReported(t: SymTable, offset: Word, n: nat)
    requires n < |t.syms| && t.syms[n].size == 0
    ensures FindSymbol(t, offset, 0) != Some(n)
  {
  }

  // ------------------------------------------------------------- the methods

  class DlInfo {
    var fname: string
    var fbase: Word
    var sname: Option<Name>
    var saddr: Word

    constructor ()
    {
      fname, fbase, sname, saddr := "", 0, None, 0;
    }

    function View(): Info
      reads this
    {
      Info(fname, fbase, sname, saddr)
    }
  }

  datatype Handle = Null | Default | Library(si: Soinfo)

  /** What the searches may dereference. */
  predicate Searchable(st: State) {
    forall id :: id in st.libs ==> WellFormed(st.libs[id].image.table)
  }

  /** s_dlsym. */
  method SDlsym(linker: Linkers.Linker, handle: Handle, symbol: Option<Name>) returns (address: Option<Word>)
    requires linker.Models() && Searchable(linker.st) && (handle.Library? ==> handle.si in linker.list.nodes)
    ensures handle.Null? || symbol.None? ==> address == None
    ensures handle.Default? && symbol.Some? ==> address == DlSymDefault(linker.st, symbol.value)
    ensures handle.Library? && symbol.Some? ==>
              handle.si.id in linker.st.libs && address == DlSym(linker.st.libs[handle.si.id], symbol.value)
  {
    if handle.Library? {
      ghost var k := linker.IndexOf(handle.si);
    }
    if handle.Null? || symbol.None? {
      return None;
    }
    if handle.Default? {
      var si, found := DlsymLinearLookup(linker, symbol.value);
      if si == null {
        return None;
      }
      ghost var k := linker.IndexOf(si);
      address := Export(si, symbol.value, found);
    } else {
      var found := HandleLookup(handle.si.image.table, symbol.value);
      if found.None? {
        return None;
      }
      address := Export(handle.si, symbol.value, found.value);
    }
  }

  /** The end of s_dlsym: only a global definition is handed out. */
  method Export(si: Soinfo, name: Name, n: nat) returns (address: Option<Word>)
    requires WellFormed(si.image.table) && Lookup(si.image.table, name) == Some(n)
    ensures address == Exported(si.View(), n)
  {
    LookupRefinesScan(si.image.table, name);
    var sym := si.image.table.syms[n];
    return if sym.bind == STB_GLOBAL && sym.shndx != 0 then Some(Add32(sym.value, si.bias)) else None;
  }

  /** dlsym_linear_lookup from the start of solist. */
  method DlsymLinearLookup(linker: Linkers.Linker, name: Name) returns (si: Soinfo?, entry: nat)
    requires linker.Models() && Searchable(linker.st)
    ensures var r := LinearLookup(linker.st.order, linker.st.libs, name);
            if si == null then r.None? else si in linker.list.nodes && r == Some((si.id, entry))
  {
    var h := Compute(name);
    assert h == HashCode(name);
    hide HashCode, WellFormed, Distinct;
    si := linker.list.libdl;
    ghost var k := 0;
    while si != null
      invariant 0 <= k <= |linker.list.nodes|
      invariant si == (if k < |linker.list.nodes| then linker.list.nodes[k] else null)
      invariant LinearLookup(linker.st.order, linker.st.libs, name) ==
                LinearLookup(linker.st.order[k..], linker.st.libs, name)
      decreases |linker.list.nodes| - k
    {
      assert LinkAt(linker.list.nodes, k) && AgreeAt(linker.list.nodes, linker.st.order, linker.st.libs, k);
      assert linker.st.order[k..][1..] == linker.st.order[k + 1..];
      BucketEnds(si.image.table, h);
      var found := ElfLookup(si.image.table, h, name);
      if found.Some? {
        return si, found.value;
      }
      si := si.next;
      k := k + 1;
    }
    entry := 0;
  }

  /** dladdr_find_symbol. */
  method DladdrFindSymbol(si: Soinfo, address: Word) returns (found: Option<nat>)
    requires |si.image.table.chain| <= |si.image.table.syms|
    ensures found == FindSymbol(si.image.table, Sub32(address, si.base), 0)
  {
    var offset := Sub32(address, si.base);
    var t := si.image.table;
    for i := 0 to |t.chain|
      invariant FindSymbol(t, offset, 0) == FindSymbol(t, offset, i)
    {
      if t.syms[i].shndx != SHN_UNDEF && offset >= t.syms[i].value && offset < Add32(t.syms[i].value, t.syms[i].size) {
        return Some(i);
      }
    }
    return None;
  }

  /** s_dladdr: 0 and nothing written for an address in no library, else the caller's Dl_info. */
  method SDladdr(linker: Linkers.Linker, address: Word, info: DlInfo) returns (ok: bool)
    requires linker.Models()
    requires forall id :: id in linker.st.libs && linker.st.libs[id].size > 0 ==>
               |linker.st.libs[id].image.table.chain| <= |linker.st.libs[id].image.table.syms|
    modifies info
    ensures Known(linker.st.order, linker.st.libs)
    ensures var r := DlAddr(linker.st, address);
            ok == r.Some? && info.View() == if r.Some? then r.value else old(info.View())
  {
    var si := FindContaining(linker, address);
    if si == null {
      return false;
    }
    ghost var k := linker.IndexOf(si);
    info.fname, info.fbase, info.sname, info.saddr := si.name, si.base, None, 0;
    var found := DladdrFindSymbol(si, address);
    if found.Some? {
      var sym := si.image.table.syms[found.value];
      info.sname, info.saddr := Some(sym.name), Add32(si.bias, sym.value);
    }
    return true;
  }

  method FindContaining(linker: Linkers.Linker, address: Word) returns (si: Soinfo?)
    requires linker.Models()
    ensures Known(linker.st.order, linker.st.libs)
    ensures linker.Returned(si, Containing(linker.st.order, linker.st.libs, address))
  {
    si := linker.list.FindContaining(address);
    ghost var st, nodes := linker.st, linker.list.nodes;
    assert Known(st.order, st.libs);
    if si == null {
      forall i | 0 <= i < |st.order|
        ensures !HoldsAddress(st.libs[st.order[i]], address)
      {
        assert AgreeAt(nodes, st.order, st.libs, i) && nodes[i] in nodes;
      }
    } else {
      ghost var k :| 0 <= k < |nodes| && nodes[k] == si && linker.list.NoneBefore(k, address);
      FirstContaining(linker, k, 0, address);
      assert st.order[0..] == st.order;
    }
  }

  lemma {:induction false} FirstContaining(linker: Linkers.Linker, k: nat, from: nat, address: Word)
    requires linker.Models() && from <= k < |linker.list.nodes|
    requires Contains(linker.list.nodes[k], address) && linker.list.NoneBefore(k, address)
    ensures Known(linker.st.order[from..], linker.st.libs)
    ensures Containing(linker.st.order[from..], linker.st.libs, address) == Some(linker.list.nodes[k].id)
    decreases k - from
  {
    var st, nodes := linker.st, linker.list.nodes;
    assert AgreeAt(nodes, st.order, st.libs, from) && AgreeAt(nodes, st.order, st.libs, k);
    assert st.order[from..][1..] == st.order[from + 1..];
    if from < k {
      assert !Contains(nodes[from], address);
      FirstContaining(linker, k, from + 1, address);
    }
  }
}
