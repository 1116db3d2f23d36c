/** The program header table in the loaded segments: where FindPhdr looks for it, what CheckPhdr
    accepts, and that what is found there is the table that was read from the file. */
module HeaderTable {
  import opened Base
  import opened Memory
  import opened Segments
  import opened Extent
  import opened SegmentTheorems

  const EHDR_PHOFF: int := 28
  const EHDR_PHNUM: int := 44

  /** The file part of some loadable segment holds [loaded, end), as CheckPhdr compares it. */
  predicate InFilePart(ph: Phdr, bias: Word, loaded: Word, end: Word) {
    ph.kind == PT_LOAD &&
    Add32(ph.vaddr, bias) <= loaded && end <= Add32(ph.filesz, Add32(ph.vaddr, bias))
  }

  predicate Covered(phdrs: seq<Phdr>, bias: Word, loaded: Word) {
    exists i :: 0 <= i < |phdrs| && InFilePart(phdrs[i], bias, loaded, TableEnd(loaded, |phdrs|))
  }

  function TableEnd(loaded: Word, count: nat): Word {
    Add32(loaded, 32 * count % WORDS)
  }

  /** Where FindPhdr expects the loaded table: PT_PHDR, or else the ELF header at the start of
      the first loadable segment, if that maps the start of the file. */
  function CandidateIn(phdrs: seq<Phdr>, bias: Word, m: Mem): Option<Word> {
    match FirstOf(phdrs, PT_PHDR)
    case Some(i) => Some(Add32(bias, phdrs[i].vaddr))
    case None =>
      match FirstOf(phdrs, PT_LOAD)
      case None => None
      case Some(i) =>
        var elf := Add32(bias, phdrs[i].vaddr);
        if phdrs[i].offset == 0 && HasWord(m, elf + EHDR_PHOFF)
        then Some(Add32(elf, ReadWord(m, elf + EHDR_PHOFF)))
        else None
  }

  /** A first loadable segment that maps the start of the file has a byte at all, and so a page. */
  predicate HeaderMapped(phdrs: seq<Phdr>) {
    var i := FirstOf(phdrs, PT_LOAD);
    FirstOf(phdrs, PT_PHDR).None? && i.Some? && phdrs[i.value].offset == 0 ==> phdrs[i.value].memsz >= 1
  }

  function FirstOf(phdrs: seq<Phdr>, kind: nat): (r: Option<nat>)
    ensures r.Some? ==> r.value < |phdrs| && phdrs[r.value].kind == kind
    ensures r.Some? ==> forall k :: 0 <= k < r.value ==> phdrs[k].kind != kind
    ensures r.None? ==> forall k :: 0 <= k < |phdrs| ==> phdrs[k].kind != kind
  {
    if phdrs == [] then None
    else if phdrs[0].kind == kind then Some(0)
    else match FirstOf(phdrs[1..], kind)
      case None => None
      case Some(k) => Some(k + 1)
  }

  /** Entry i is the first of its kind. */
  predicate FirstKind(phdrs: seq<Phdr>, kind: int, i: int) {
    0 <= i < |phdrs| && phdrs[i].kind == kind && forall k :: 0 <= k < i ==> phdrs[k].kind != kind
  }

  /** The table is at the first PT_PHDR (6). */
  predicate AtPhdr(phdrs: seq<Phdr>, bias: Word, at: Word) {
    exists i :: 0 <= i < |phdrs| && FirstKind(phdrs, 6, i) && at == (phdrs[i].vaddr as int + bias) % 0x1_0000_0000
  }

  /** Or there is none, the first PT_LOAD (1) starts the file, and the word 28 bytes into it says where. */
  predicate AtHeader(phdrs: seq<Phdr>, bias: Word, m: Mem, at: Word) {
    && (forall k :: 0 <= k < |phdrs| ==> phdrs[k].kind != 6)
    && exists i :: 0 <= i < |phdrs| && HeaderAt(phdrs, bias, m, i, at)
  }

  predicate HeaderAt(phdrs: seq<Phdr>, bias: Word, m: Mem, i: int, at: Word)
    requires 0 <= i < |phdrs|
  {
    var elf := (phdrs[i].vaddr as int + bias) % 0x1_0000_0000;
    && FirstKind(phdrs, 1, i) && phdrs[i].offset == 0 && HasWord(m, elf + 28)
    && at == (elf + ReadWord(m, elf + 28)) % 0x1_0000_0000
  }

  /** Where FindPhdr looks, and that it looks nowhere else. */
  lemma CandidateIff(phdrs: seq<Phdr>, bias: Word, m: Mem, at: Word)
    ensures CandidateIn(phdrs, bias, m) == Some(at) <==> AtPhdr(phdrs, bias, at) || AtHeader(phdrs, bias, m, at)
  {
    hide AtPhdr, AtHeader, CandidateIn;
    if FirstOf(phdrs, 6).Some? {
      PhdrDecides(phdrs, bias, m, at, FirstOf(phdrs, 6).value);
    } else {
      HeaderDecides(phdrs, bias, m, at);
    }
  }

  lemma PhdrDecides(phdrs: seq<Phdr>, bias: Word, m: Mem, at: Word, i: nat)
    requires FirstOf(phdrs, 6) == Some(i)
    ensures CandidateIn(phdrs, bias, m) == Some(at) <==> AtPhdr(phdrs, bias, at)
    ensures !AtHeader(phdrs, bias, m, at)
  {
    AddIsModulo(bias, phdrs[i].vaddr);
    assert FirstKind(phdrs, 6, i);
  }

  lemma HeaderDecides(phdrs: seq<Phdr>, bias: Word, m: Mem, at: Word)
    requires FirstOf(phdrs, 6).None?
    ensures CandidateIn(phdrs, bias, m) == Some(at) <==> AtHeader(phdrs, bias, m, at)
    ensures !AtPhdr(phdrs, bias, at)
  {
    hide HeaderAt;
    var l := FirstOf(phdrs, 1);
    if l.Some? {
      OneHeader(phdrs, bias, m, at, l.value);
      forall i | 0 <= i < |phdrs| && HeaderAt(phdrs, bias, m, i, at)
        ensures i == l.value
      {
        HeaderIsFirst(phdrs, bias, m, at, i, l.value);
      }
    } else {
      forall i | 0 <= i < |phdrs|
        ensures !HeaderAt(phdrs, bias, m, i, at)
      {
        NoHeader(phdrs, bias, m, at, i);
      }
    }
  }

  lemma OneHeader(phdrs: seq<Phdr>, bias: Word, m: Mem, at: Word, i: nat)
    requires FirstOf(phdrs, 6).None? && FirstOf(phdrs, 1) == Some(i)
    ensures CandidateIn(phdrs, bias, m) == Some(at) <==> HeaderAt(phdrs, bias, m, i, at)
  {
    var elf: int := Add32(bias, phdrs[i].vaddr);
    AddIsModulo(bias, phdrs[i].vaddr);
    if HasWord(m, elf + 28) {
      AddIsModulo(elf, ReadWord(m, elf + 28));
    }
  }

  lemma HeaderIsFirst(phdrs: seq<Phdr>, bias: Word, m: Mem, at: Word, i: nat, j: nat)
    requires i < |phdrs| && HeaderAt(phdrs, bias, m, i, at) && FirstOf(phdrs, 1) == Some(j)
    ensures i == j
  {
  }

  lemma NoHeader(phdrs: seq<Phdr>, bias: Word, m: Mem, at: Word, i: nat)
    requires i < |phdrs| && FirstOf(phdrs, 1).None?
    ensures !HeaderAt(phdrs, bias, m, i, at)
  {
  }

  lemma AddIsModulo(a: Word, b: Word)
    ensures Add32(a, b) == (b as int + a) % 0x1_0000_0000 == (a as int + b) % 0x1_0000_0000
  {
  }

  lemma FirstOfIs(phdrs: seq<Phdr>, kind: nat, i: nat)
    requires i < |phdrs| && phdrs[i].kind == kind
    requires forall k :: 0 <= k < i ==> phdrs[k].kind != kind
    ensures FirstOf(phdrs, kind) == Some(i)
  {
    var r := FirstOf(phdrs, kind);
    assert r.Some? && r.value == i;
  }

  lemma FirstOfNone(phdrs: seq<Phdr>, kind: nat)
    requires forall k :: 0 <= k < |phdrs| ==> phdrs[k].kind != kind
    ensures FirstOf(phdrs, kind) == None
  {
    var r := FirstOf(phdrs, kind);
    assert r.None?;
  }

  /** e_phoff can be read wherever FindPhdr looks for it. */
  predicate HeaderReadable(phdrs: seq<Phdr>, bias: Word, m: Mem) {
    var i := FirstOf(phdrs, PT_LOAD);
    FirstOf(phdrs, PT_PHDR).None? && i.Some? && phdrs[i.value].offset == 0 ==>
      HasWord(m, Add32(bias, phdrs[i.value].vaddr) + EHDR_PHOFF)
  }

  lemma HeaderIsReadable(file: seq<Byte>, phdrs: seq<Phdr>, start: Word, m: Mem)
    requires AllCongruent(phdrs, file) && Reserved(phdrs, start) && HeaderMapped(phdrs)
    requires forall a :: start <= a < start as int + LoadSize(phdrs) ==> a in m
    ensures HeaderReadable(phdrs, Bias(phdrs, start), m)
  {
    var i := FirstOf(phdrs, PT_LOAD);
    if FirstOf(phdrs, PT_PHDR).None? && i.Some? && phdrs[i.value].offset == 0 {
      FirstPageReserved(file, phdrs, start, i.value);
    }
  }

  /** The page that the start of the file is mapped to is reserved as a whole. */
  lemma FirstPageReserved(file: seq<Byte>, phdrs: seq<Phdr>, start: Word, i: nat)
    requires AllCongruent(phdrs, file) && Reserved(phdrs, start)
    requires i < |phdrs| && phdrs[i].kind == PT_LOAD && phdrs[i].offset == 0 && phdrs[i].memsz >= 1
    ensures start <= Add32(phdrs[i].vaddr, Bias(phdrs, start))
    ensures Add32(phdrs[i].vaddr, Bias(phdrs, start)) as int + PAGE_SIZE <= start as int + LoadSize(phdrs)
  {
    hide AllCongruent, Reserved, LoadSize, Bias, Add32;
    var l := LayoutOf(phdrs[i], Bias(phdrs, start));
    LayoutInReservation(phdrs, start, file, i);
    assert l.segStart == l.pageStart && l.pageStart < l.pageEnd;
    AlignedBound(l.pageStart as int + PAGE_SIZE, l.pageEnd);
  }

  /** Every byte of every segment is as the file and its header demand. */
  predicate Loaded(b: Backend, file: seq<Byte>, phdrs: seq<Phdr>, bias: Word, m: Mem) {
    forall i :: 0 <= i < |phdrs| && phdrs[i].kind == PT_LOAD ==> SegmentLoaded(b, file, phdrs[i], bias, m)
  }

  predicate SegmentLoaded(b: Backend, file: seq<Byte>, ph: Phdr, bias: Word, m: Mem) {
    forall k :: 0 <= k < ph.memsz ==> HasImageByte(b, file, ph, bias, m, k)
  }

  predicate HasImageByte(b: Backend, file: seq<Byte>, ph: Phdr, bias: Word, m: Mem, k: nat) {
    var a := Add32(ph.vaddr, bias) + k;
    a in m && m[a] == Expected(b, file, ph, k)
  }

  // ------------------------------------------------- the loaded header table

  predicate HasBytes(m: Mem, a: int, n: nat) {
    forall k :: a <= k < a + n ==> k in m
  }

  function ProtOf(flags: Word): Prot {
    Prot(flags / 4 % 2 == 1, flags / 2 % 2 == 1, flags % 2 == 1)
  }

  /** The Elf32_Phdr stored at an address. */
  function PhdrAt(m: Mem, a: int): Phdr
    requires HasBytes(m, a, 32)
  {
    Phdr(ReadWord(m, a), ReadWord(m, a + 4), ReadWord(m, a + 8), ReadWord(m, a + 16), ReadWord(m, a + 20),
         ProtOf(ReadWord(m, a + 24)))
  }

  function TableAt(m: Mem, a: int, n: nat): seq<Phdr>
    requires HasBytes(m, a, 32 * n)
  {
    seq(n, i requires 0 <= i < n => PhdrAt(m, a + 32 * i))
  }

  /** The file as a memory from address 0. */
  function FileMem(file: seq<Byte>): Mem {
    map a | 0 <= a < |file| :: file[a]
  }

  /** n bytes from a in one memory are the n bytes from a' in another. */
  predicate SameBytes(m: Mem, a: int, m': Mem, a': int, n: nat) {
    forall x :: a <= x < a + n ==> x in m && x - a + a' in m' && m[x] == m'[x - a + a']
  }

  lemma SameWord(m: Mem, a: int, m': Mem, a': int, n: nat, o: nat)
    requires SameBytes(m, a, m', a', n) && o + 4 <= n
    ensures HasWord(m, a + o) && HasWord(m', a' + o) && ReadWord(m, a + o) == ReadWord(m', a' + o)
  {
    var x := a + o;
    assert x in m && x + 1 in m && x + 2 in m && x + 3 in m;
  }

  lemma SamePhdr(m: Mem, a: int, m': Mem, a': int)
    requires SameBytes(m, a, m', a', 32)
    requires HasBytes(m, a, 32) && HasBytes(m', a', 32)
    ensures PhdrAt(m, a) == PhdrAt(m', a')
  {
    SameWord(m, a, m', a', 32, 0);
    SameWord(m, a, m', a', 32, 4);
    SameWord(m, a, m', a', 32, 8);
    SameWord(m, a, m', a', 32, 16);
    SameWord(m, a, m', a', 32, 20);
    SameWord(m, a, m', a', 32, 24);
  }

  lemma SameTable(m: Mem, a: int, m': Mem, a': int, n: nat)
    requires SameBytes(m, a, m', a', 32 * n)
    requires HasBytes(m, a, 32 * n) && HasBytes(m', a', 32 * n)
    ensures TableAt(m, a, n) == TableAt(m', a', n)
  {
    var s, t := TableAt(m, a, n), TableAt(m', a', n);
    forall i | 0 <= i < n
      ensures s[i] == t[i]
    {
      SameEntry(m, a, m', a', n, i);
    }
  }

  lemma SameEntry(m: Mem, a: int, m': Mem, a': int, n: nat, i: nat)
    requires SameBytes(m, a, m', a', 32 * n) && i < n
    requires HasBytes(m, a, 32 * n) && HasBytes(m', a', 32 * n)
    ensures TableAt(m, a, n)[i] == TableAt(m', a', n)[i]
  {
    var o := 32 * i;
    SamePart(m, a, m', a', 32 * n, o);
    SamePhdr(m, a + o, m', a' + o);
  }

  lemma SamePart(m: Mem, a: int, m': Mem, a': int, n: nat, o: nat)
    requires SameBytes(m, a, m', a', n) && o + 32 <= n
    ensures SameBytes(m, a + o, m', a' + o, 32)
    ensures HasBytes(m, a + o, 32) && HasBytes(m', a' + o, 32)
  {
    forall x | a' + o <= x < a' + o + 32
      ensures x in m'
    {
      assert x - a' + a in m;
    }
  }

  /** A table of n entries at this offset of the file is in the file part of a segment. */
  predicate HoldsTable(ph: Phdr, phoff: int, n: nat) {
    ph.offset <= phoff && phoff + 32 * n <= ph.offset as int + ph.filesz
  }

  lemma LoadedFilePart(b: Backend, file: seq<Byte>, ph: Phdr, bias: Word, m: Mem, k: nat)
    requires SegmentLoaded(b, file, ph, bias, m) && Congruent(ph, file) && k < ph.filesz
    ensures var a := Add32(ph.vaddr, bias) + k;
            a in m && ph.offset + k < |file| && m[a] == file[ph.offset + k]
  {
    assert HasImageByte(b, file, ph, bias, m, k);
  }

  /** A table that the file part of a segment holds is in memory entry for entry, as far into
      the segment as it is into the segment's part of the file. */
  lemma TableSurvives(b: Backend, file: seq<Byte>, ph: Phdr, bias: Word, m: Mem, phoff: nat, n: nat)
    requires SegmentLoaded(b, file, ph, bias, m) && Congruent(ph, file) && HoldsTable(ph, phoff, n)
    ensures var a := Add32(ph.vaddr, bias) + (phoff - ph.offset);
            && HasBytes(m, a, 32 * n) && phoff + 32 * n <= |file|
            && TableAt(m, a, n) == TableAt(FileMem(file), phoff, n)
  {
    var seg, f := Add32(ph.vaddr, bias), FileMem(file);
    var a := seg + (phoff - ph.offset);
    forall x | a <= x < a + 32 * n
      ensures x in m && x - a + phoff in f && m[x] == f[x - a + phoff]
    {
      LoadedFilePart(b, file, ph, bias, m, x - seg);
    }
    FileBytes(file, phoff, 32 * n);
    SameTable(m, a, f, phoff, n);
  }

  lemma FileBytes(file: seq<Byte>, a: nat, n: nat)
    requires a + n <= |file|
    ensures HasBytes(FileMem(file), a, n)
  {
  }

  lemma PhoffSurvives(b: Backend, file: seq<Byte>, ph: Phdr, bias: Word, m: Mem)
    requires SegmentLoaded(b, file, ph, bias, m) && Congruent(ph, file) && ph.offset == 0 && 32 <= ph.filesz
    ensures HasWord(m, Add32(ph.vaddr, bias) + EHDR_PHOFF) && HasWord(FileMem(file), EHDR_PHOFF)
    ensures ReadWord(m, Add32(ph.vaddr, bias) + EHDR_PHOFF) == ReadWord(FileMem(file), EHDR_PHOFF)
  {
    LoadedFilePart(b, file, ph, bias, m, 28);
    LoadedFilePart(b, file, ph, bias, m, 29);
    LoadedFilePart(b, file, ph, bias, m, 30);
    LoadedFilePart(b, file, ph, bias, m, 31);
  }

  /** VerifyElfHeader: the magic number, 32-bit, little-endian, ARM, the current version. */
  predicate Verified(m: Mem) {
    && HasWord(m, 0) && ReadWord(m, 0) == 0x464c_457f
    && HasWord(m, 4) && ReadWord(m, 4) % 0x1_0000 == 0x0101
    && HasWord(m, 16) && ReadWord(m, 16) / 0x1_0000 == 40
    && HasWord(m, 20) && ReadWord(m, 20) == 1
  }

  /** In bytes: 7f 45 4c 46 01 01 at 0, the machine 40 at 18, the version 1 at 20. */
  lemma VerifiedIff(file: seq<Byte>)
    requires 52 <= |file|
    ensures Verified(FileMem(file)) <==>
            && file[0] == 0x7f && file[1] == 0x45 && file[2] == 0x4c && file[3] == 0x46
            && file[4] == 1 && file[5] == 1 && file[18] == 40 && file[19] == 0
            && file[20] == 1 && file[21] == 0 && file[22] == 0 && file[23] == 0
  {
    hide Join;
    Halves(file[0], file[1], file[2], file[3]);
    Halves(file[4], file[5], file[6], file[7]);
    Halves(file[16], file[17], file[18], file[19]);
    Halves(file[20], file[21], file[22], file[23]);
  }

  lemma Halves(b0: Byte, b1: Byte, b2: Byte, b3: Byte)
    ensures Join(b0, b1, b2, b3) % 0x1_0000 == b0 + 0x100 * b1
    ensures Join(b0, b1, b2, b3) / 0x1_0000 == b2 + 0x100 * b3
  {
    var low, high := b0 + 0x100 * b1, b2 + 0x100 * b3;
    assert Join(b0, b1, b2, b3) == low + 0x1_0000 * high;
  }

  /** What ReadElfHeader and ReadProgramHeader found: e_phoff, and e_phnum entries at that offset. */
  predicate ReadFrom(file: seq<Byte>, phoff: nat, phdrs: seq<Phdr>) {
    && 52 <= |file| && phoff + 32 * |phdrs| <= |file| && 1 <= |phdrs| <= 2048 && Verified(FileMem(file))
    && HasWord(FileMem(file), EHDR_PHNUM) && ReadWord(FileMem(file), EHDR_PHNUM) % 0x1_0000 == |phdrs|
    && HasWord(FileMem(file), EHDR_PHOFF) && ReadWord(FileMem(file), EHDR_PHOFF) == phoff
    && HasBytes(FileMem(file), phoff, 32 * |phdrs|) && TableAt(FileMem(file), phoff, |phdrs|) == phdrs
  }

  /** CheckPhdr accepts the address, and the table there is the one that the loader worked from. */
  predicate Survived(phdrs: seq<Phdr>, bias: Word, m: Mem, at: Word) {
    Covered(phdrs, bias, at) && HasBytes(m, at, 32 * |phdrs|) && TableAt(m, at, |phdrs|) == phdrs
  }

  lemma SurvivesInSegment(b: Backend, file: seq<Byte>, phdrs: seq<Phdr>, start: Word, m: Mem, i: nat, phoff: nat,
                          at: int)
    requires AllCongruent(phdrs, file) && Reserved(phdrs, start) && Loaded(b, file, phdrs, Bias(phdrs, start), m)
    requires i < |phdrs| && phdrs[i].kind == PT_LOAD && HoldsTable(phdrs[i], phoff, |phdrs|)
    requires at == Add32(phdrs[i].vaddr, Bias(phdrs, start)) as int + (phoff - phdrs[i].offset)
    requires ReadFrom(file, phoff, phdrs)
    ensures 0 <= at < WORDS && Survived(phdrs, Bias(phdrs, start), m, at)
  {
    var bias, ph, n := Bias(phdrs, start), phdrs[i], |phdrs|;
    SegmentEnd(phdrs, start, file, i);
    TableSurvives(b, file, ph, bias, m, phoff, n);
    FilePartHolds(ph, bias, at, n);
    assert Covered(phdrs, bias, at);
  }

  lemma SegmentEnd(phdrs: seq<Phdr>, start: Word, file: seq<Byte>, i: nat)
    requires AllCongruent(phdrs, file) && Reserved(phdrs, start)
    requires i < |phdrs| && phdrs[i].kind == PT_LOAD
    ensures Add32(phdrs[i].vaddr, Bias(phdrs, start)) as int + phdrs[i].filesz <= 0xffff_f000
  {
    LayoutInReservation(phdrs, start, file, i);
  }

  lemma FilePartHolds(ph: Phdr, bias: Word, at: Word, n: nat)
    requires ph.kind == PT_LOAD && Add32(ph.vaddr, bias) <= at
    requires at as int + 32 * n <= Add32(ph.vaddr, bias) as int + ph.filesz < WORDS
    ensures InFilePart(ph, bias, at, TableEnd(at, n))
  {
  }

  /** The first PT_LOAD starts the file and holds the header and the table. */
  predicate FirstHolds(phdrs: seq<Phdr>, phoff: nat, i: nat) {
    && FirstOf(phdrs, PT_PHDR).None? && FirstOf(phdrs, PT_LOAD) == Some(i) && phdrs[i].offset == 0
    && 32 <= phdrs[i].filesz && HoldsTable(phdrs[i], phoff, |phdrs|)
  }

  /** PT_PHDR names the table, and a PT_LOAD maps it where PT_PHDR says. */
  predicate PtPhdrHolds(phdrs: seq<Phdr>, phoff: nat, j: nat, i: nat) {
    && FirstOf(phdrs, PT_PHDR) == Some(j) && phdrs[j].offset == phoff
    && i < |phdrs| && phdrs[i].kind == PT_LOAD && HoldsTable(phdrs[i], phoff, |phdrs|)
    && phdrs[j].vaddr as int - phdrs[i].vaddr == phoff - phdrs[i].offset
  }

  predicate Consistent(phdrs: seq<Phdr>, phoff: nat) {
    || (exists i :: 0 <= i < |phdrs| && FirstHolds(phdrs, phoff, i))
    || (exists j, i :: 0 <= j < |phdrs| && 0 <= i < |phdrs| && PtPhdrHolds(phdrs, phoff, j, i))
  }

  /** FindPhdr then points at memory with entry for entry the table that was read, by way of the
      loaded header's e_phoff. */
  lemma HeadersFromFirstSegment(b: Backend, file: seq<Byte>, phdrs: seq<Phdr>, start: Word, m: Mem, i: nat, phoff: nat)
    requires AllCongruent(phdrs, file) && Reserved(phdrs, start) && Loaded(b, file, phdrs, Bias(phdrs, start), m)
    requires ReadFrom(file, phoff, phdrs) && FirstHolds(phdrs, phoff, i)
    ensures var at := CandidateIn(phdrs, Bias(phdrs, start), m);
            at.Some? && Survived(phdrs, Bias(phdrs, start), m, at.value)
  {
    var bias, ph := Bias(phdrs, start), phdrs[i];
    var at := Add32(ph.vaddr, bias) as int + phoff;
    assert SegmentLoaded(b, file, ph, bias, m);
    SurvivesInSegment(b, file, phdrs, start, m, i, phoff, at);
    CandidateFromHeader(b, file, phdrs, bias, m, i, at);
  }

  lemma CandidateFromHeader(b: Backend, file: seq<Byte>, phdrs: seq<Phdr>, bias: Word, m: Mem, i: nat, at: Word)
    requires FirstOf(phdrs, PT_PHDR).None? && FirstOf(phdrs, PT_LOAD) == Some(i) && phdrs[i].offset == 0
    requires SegmentLoaded(b, file, phdrs[i], bias, m) && Congruent(phdrs[i], file) && 32 <= phdrs[i].filesz
    requires at == Add32(phdrs[i].vaddr, bias) as int + ReadWord(FileMem(file), EHDR_PHOFF)
    ensures CandidateIn(phdrs, bias, m) == Some(at)
  {
    PhoffSurvives(b, file, phdrs[i], bias, m);
  }

  /** And likewise by way of PT_PHDR. */
  lemma HeadersFromPtPhdr(b: Backend, file: seq<Byte>, phdrs: seq<Phdr>, start: Word, m: Mem, i: nat, j: nat,
                          phoff: nat)
    requires AllCongruent(phdrs, file) && Reserved(phdrs, start) && Loaded(b, file, phdrs, Bias(phdrs, start), m)
    requires ReadFrom(file, phoff, phdrs) && PtPhdrHolds(phdrs, phoff, j, i)
    ensures var at := CandidateIn(phdrs, Bias(phdrs, start), m);
            at.Some? && Survived(phdrs, Bias(phdrs, start), m, at.value)
  {
    var bias, ph := Bias(phdrs, start), phdrs[i];
    var at := Add32(ph.vaddr, bias) as int + (phoff - ph.offset);
    SurvivesInSegment(b, file, phdrs, start, m, i, phoff, at);
    ShiftedAddress(ph.vaddr, phdrs[j].vaddr, bias, at);
  }

  lemma HeadersSurvive(b: Backend, file: seq<Byte>, phdrs: seq<Phdr>, start: Word, m: Mem, phoff: nat)
    requires AllCongruent(phdrs, file) && Reserved(phdrs, start) && Loaded(b, file, phdrs, Bias(phdrs, start), m)
    requires ReadFrom(file, phoff, phdrs) && Consistent(phdrs, phoff)
    ensures var at := CandidateIn(phdrs, Bias(phdrs, start), m);
            at.Some? && Survived(phdrs, Bias(phdrs, start), m, at.value)
  {
    if i :| 0 <= i < |phdrs| && FirstHolds(phdrs, phoff, i) {
      HeadersFromFirstSegment(b, file, phdrs, start, m, i, phoff);
    } else {
      var j, i :| 0 <= j < |phdrs| && 0 <= i < |phdrs| && PtPhdrHolds(phdrs, phoff, j, i);
      HeadersFromPtPhdr(b, file, phdrs, start, m, i, j, phoff);
    }
  }

  lemma ShiftedAddress(v: Word, w: Word, bias: Word, at: int)
    requires v <= w && at == Add32(v, bias) as int + (w - v) && at < WORDS
    ensures Add32(bias, w) == at
  {
  }

  /** The table lies wholly in one segment's file part. */
  predicate TableInside(ph: Phdr, bias: Word, loaded: Word, n: nat) {
    Add32(ph.vaddr, bias) <= loaded && loaded as int + 32 * n <= Add32(ph.vaddr, bias) as int + ph.filesz
  }

  /** What CheckPhdr accepts does lie wholly in a segment's file part exactly when the table's
      end, an unsigned 32-bit sum in the code, does not wrap. */
  lemma AcceptedTableIsInsideIffNoWrap(phdrs: seq<Phdr>, start: Word, file: seq<Byte>, loaded: Word)
    requires AllCongruent(phdrs, file) && Reserved(phdrs, start) && |phdrs| <= 2048
    requires Covered(phdrs, Bias(phdrs, start), loaded)
    ensures (exists i :: 0 <= i < |phdrs| && phdrs[i].kind == PT_LOAD &&
                         TableInside(phdrs[i], Bias(phdrs, start), loaded, |phdrs|))
            <==> loaded as int + 32 * |phdrs| < WORDS
  {
    var bias, n := Bias(phdrs, start), |phdrs|;
    forall i | 0 <= i < n && phdrs[i].kind == PT_LOAD
      ensures TableInside(phdrs[i], bias, loaded, n) ==> loaded as int + 32 * n < WORDS
      ensures loaded as int + 32 * n < WORDS && InFilePart(phdrs[i], bias, loaded, TableEnd(loaded, n)) ==>
              TableInside(phdrs[i], bias, loaded, n)
    {
      SegmentEnd(phdrs, start, file, i);
      InsideIffNoWrap(phdrs[i], bias, loaded, n);
    }
  }

  lemma InsideIffNoWrap(ph: Phdr, bias: Word, loaded: Word, n: nat)
    requires ph.kind == PT_LOAD && n <= 2048 && Add32(ph.vaddr, bias) as int + ph.filesz < WORDS
    ensures TableInside(ph, bias, loaded, n) <==>
            InFilePart(ph, bias, loaded, TableEnd(loaded, n)) && loaded as int + 32 * n < WORDS
  {
  }

  // ------------------------------------------------------- a file for a table

  function WordBytes(w: Word): seq<Byte> {
    [ByteOf(w, 0), ByteOf(w, 1), ByteOf(w, 2), ByteOf(w, 3)]
  }

  function FlagsWord(p: Prot): Word {
    (if p.r then 4 else 0) + (if p.w then 2 else 0) + (if p.x then 1 else 0)
  }

  /** An Elf32_Phdr; p_paddr and p_align, which the loader ignores, are 0. */
  function PhdrWords(ph: Phdr): seq<Word>
    requires ph.kind < WORDS
  {
    [ph.kind, ph.offset, ph.vaddr, 0, ph.filesz, ph.memsz, FlagsWord(ph.flags), 0]
  }

  function WordsOf(phdrs: seq<Phdr>): (r: seq<Word>)
    requires forall i :: 0 <= i < |phdrs| ==> phdrs[i].kind < WORDS
    ensures |r| == 8 * |phdrs|
    ensures forall i, k :: 0 <= i < |phdrs| && 0 <= k < 8 ==> r[8 * i + k] == PhdrWords(phdrs[i])[k]
  {
    if phdrs == [] then [] else PhdrWords(phdrs[0]) + WordsOf(phdrs[1..])
  }

  /** A file of words, little-endian. */
  function BytesOf(words: seq<Word>): (r: seq<Byte>)
    ensures |r| == 4 * |words|
  {
    if words == [] then [] else WordBytes(words[0]) + BytesOf(words[1..])
  }

  lemma {:induction false} ByteOfWord(words: seq<Word>, i: nat, k: nat)
    requires i < |words| && k < 4
    ensures BytesOf(words)[4 * i + k] == ByteOf(words[i], k)
  {
    if i == 0 {
      FirstByte(words[0], k);
    } else {
      ByteOfWord(words[1..], i - 1, k);
      Behind(WordBytes(words[0]), BytesOf(words[1..]), 4 * (i - 1) + k);
    }
  }

  lemma FirstByte(w: Word, k: nat)
    requires k < 4
    ensures WordBytes(w)[k] == ByteOf(w, k)
  {
    hide ByteOf;
  }

  lemma Behind(a: seq<Byte>, b: seq<Byte>, j: nat)
    requires |a| == 4 && j < |b|
    ensures (a + b)[j + 4] == b[j]
  {
  }

  /** Byte k of the word that is to be at a. */
  predicate HasByte(m: Mem, a: int, k: nat, w: Word)
    requires k < 4
  {
    a + k in m && m[a + k] == ByteOf(w, k)
  }

  lemma ByteInFile(words: seq<Word>, file: seq<Byte>, i: nat, k: nat)
    requires i < |words| && k < 4 && BytesOf(words) <= file
    ensures HasByte(FileMem(file), 4 * i, k, words[i])
  {
    hide ByteOf, BytesOf;
    ByteOfWord(words, i, k);
  }

  lemma WordInFile(words: seq<Word>, file: seq<Byte>, i: nat)
    requires i < |words| && BytesOf(words) <= file
    ensures HasWord(FileMem(file), 4 * i) && ReadWord(FileMem(file), 4 * i) == words[i]
  {
    hide HasWord, ReadWord, HasByte, BytesOf, FileMem;
    ByteInFile(words, file, i, 0);
    ByteInFile(words, file, i, 1);
    ByteInFile(words, file, i, 2);
    ByteInFile(words, file, i, 3);
    BytesMakeWord(FileMem(file), 4 * i, words[i]);
  }

  lemma BytesMakeWord(m: Mem, a: int, w: Word)
    requires HasByte(m, a, 0, w) && HasByte(m, a, 1, w) && HasByte(m, a, 2, w) && HasByte(m, a, 3, w)
    ensures HasWord(m, a) && ReadWord(m, a) == w
  {
    hide ByteOf, Join;
    SplitThenJoin(w);
  }

  /** A table that a header can announce. */
  predicate Announceable(phdrs: seq<Phdr>) {
    1 <= |phdrs| <= 2048 && forall i :: 0 <= i < |phdrs| ==> phdrs[i].kind < WORDS
  }

  /** The thirteen words of an ELF header for ARM, and the table. */
  function FileFor(phdrs: seq<Phdr>): seq<Word>
    requires Announceable(phdrs)
  {
    [0x464c_457f, 0x0001_0101, 0, 0, 0x0028_0003, 1, 0, 52, 0, 0, 0x0020_0034, |phdrs|, 0] + WordsOf(phdrs)
  }

  /** A file that is nothing but the header and the table. */
  function ElfFile(phdrs: seq<Phdr>): (file: seq<Byte>)
    requires Announceable(phdrs)
    ensures |file| == 52 + 32 * |phdrs|
  {
    BytesOf(FileFor(phdrs))
  }

  lemma FlagsBack(p: Prot)
    ensures ProtOf(FlagsWord(p)) == p
  {
  }

  /** Word k of entry i is where PhdrAt reads it. */
  lemma WordOfEntry(phdrs: seq<Phdr>, file: seq<Byte>, i: nat, k: nat)
    requires Announceable(phdrs) && ElfFile(phdrs) <= file && i < |phdrs| && k < 8
    ensures var m, a := FileMem(file), 52 + 32 * i + 4 * k;
            HasWord(m, a) && ReadWord(m, a) == PhdrWords(phdrs[i])[k]
  {
    var words, b := FileFor(phdrs), 13 + 8 * i + k;
    assert words[b] == WordsOf(phdrs)[8 * i + k];
    WordInFile(words, file, b);
    assert 4 * b == 52 + 32 * i + 4 * k;
  }

  lemma TableInFile(phdrs: seq<Phdr>, file: seq<Byte>, i: nat)
    requires Announceable(phdrs) && ElfFile(phdrs) <= file && i < |phdrs|
    ensures HasBytes(FileMem(file), 52 + 32 * i, 32) && PhdrAt(FileMem(file), 52 + 32 * i) == phdrs[i]
  {
    hide FileMem, ElfFile, PhdrAt;
    FileBytes(file, 52 + 32 * i, 32);
    EntryWords(FileMem(file), file, 52 + 32 * i, phdrs, i);
  }

  lemma EntryWords(m: Mem, file: seq<Byte>, a: int, phdrs: seq<Phdr>, i: nat)
    requires Announceable(phdrs) && ElfFile(phdrs) <= file && i < |phdrs|
    requires m == FileMem(file) && a == 52 + 32 * i && HasBytes(m, a, 32)
    ensures PhdrAt(m, a) == phdrs[i]
  {
    hide FileMem, ElfFile, ReadWord, HasWord, ProtOf, FlagsWord;
    WordOfEntry(phdrs, file, i, 0);
    WordOfEntry(phdrs, file, i, 1);
    WordOfEntry(phdrs, file, i, 2);
    WordOfEntry(phdrs, file, i, 4);
    WordOfEntry(phdrs, file, i, 5);
    WordOfEntry(phdrs, file, i, 6);
    FlagsBack(phdrs[i].flags);
  }

  lemma HeaderInFile(phdrs: seq<Phdr>, file: seq<Byte>)
    requires Announceable(phdrs) && ElfFile(phdrs) <= file
    ensures Verified(FileMem(file)) && HasWord(FileMem(file), EHDR_PHOFF) && HasWord(FileMem(file), EHDR_PHNUM)
    ensures ReadWord(FileMem(file), EHDR_PHOFF) == 52
    ensures ReadWord(FileMem(file), EHDR_PHNUM) % 0x1_0000 == |phdrs|
  {
    hide ReadWord, BytesOf, FileMem, HasWord, WordsOf;
    WordInFile(FileFor(phdrs), file, 0);
    WordInFile(FileFor(phdrs), file, 1);
    WordInFile(FileFor(phdrs), file, 4);
    WordInFile(FileFor(phdrs), file, 5);
    WordInFile(FileFor(phdrs), file, 7);
    WordInFile(FileFor(phdrs), file, 11);
  }

  /** Every table that a header can announce is what is read from some file, whatever follows it
      there. */
  lemma EveryTableHasAFile(phdrs: seq<Phdr>, tail: seq<Byte>)
    requires Announceable(phdrs)
    ensures ReadFrom(ElfFile(phdrs) + tail, 52, phdrs)
  {
    var file := ElfFile(phdrs) + tail;
    HeaderInFile(phdrs, file);
    FileBytes(file, 52, 32 * |phdrs|);
    var t := TableAt(FileMem(file), 52, |phdrs|);
    forall i | 0 <= i < |phdrs|
      ensures t[i] == phdrs[i]
    {
      TableInFile(phdrs, file, i);
    }
  }

  // ------------------------------------------------------------------- inputs

  // A file of 116 bytes with a PT_PHDR near the top of the address space.
  function WrappedTable(flags: Prot): (phdrs: seq<Phdr>)
    ensures Announceable(phdrs)
  {
    [Phdr(PT_LOAD, 0, 0, 116, 116, flags), Phdr(PT_PHDR, 52, 0xffff_efe0, 64, 64, flags)]
  }

  /** The wrap can be had: there is a file for which FindPhdr accepts an address from which the table
      would run past the end of memory, and no segment holds it. */
  lemma WrappedTableIsAccepted(flags: Prot, m: Mem)
    ensures var phdrs := WrappedTable(flags);
            var file, bias := ElfFile(phdrs), Bias(phdrs, 0x1000);
            && ReadFrom(file, 52, phdrs) && AllCongruent(phdrs, file) && Reserved(phdrs, 0x1000)
            && CandidateIn(phdrs, bias, m) == Some(0xffff_ffe0) && Covered(phdrs, bias, 0xffff_ffe0)
            && forall i :: IsLoad(phdrs, i) ==> !TableInside(phdrs[i], bias, 0xffff_ffe0, |phdrs|)
  {
    var phdrs := WrappedTable(flags);
    EveryTableHasAFile(phdrs, []);
    assert ElfFile(phdrs) + [] == ElfFile(phdrs);
    WrappedTableIsFound(flags, m);
  }

  lemma WrappedTableIsFound(flags: Prot, m: Mem)
    ensures var phdrs := WrappedTable(flags);
            var bias := Bias(phdrs, 0x1000);
            && AllCongruent(phdrs, ElfFile(phdrs)) && Reserved(phdrs, 0x1000)
            && CandidateIn(phdrs, bias, m) == Some(0xffff_ffe0) && Covered(phdrs, bias, 0xffff_ffe0)
            && forall i :: IsLoad(phdrs, i) ==> !TableInside(phdrs[i], bias, 0xffff_ffe0, |phdrs|)
  {
    var phdrs := WrappedTable(flags);
    LoadThenTable(phdrs[0], phdrs[1]);
    FirstOfIs(phdrs, PT_PHDR, 1);
    assert InFilePart(phdrs[0], 0x1000, 0xffff_ffe0, TableEnd(0xffff_ffe0, 2));
  }

  lemma LoadThenTable(load: Phdr, table: Phdr)
    requires load.kind == PT_LOAD && load.vaddr == 0 && load.memsz == 116 && table.kind == PT_PHDR
    ensures MinVaddr([load, table]) == 0 && LoadSize([load, table]) == 4096 && Bias([load, table], 0x1000) == 0x1000
  {
    var phdrs := [load, table];
    OneEntry(load);
    assert phdrs[..1] == [load] && phdrs[0] == load;
  }

  /** The Win32 emulation takes place 0 for no place: after a reservation that was refused but taken for
      granted, the segment at place 0 is left as the memory was, but for the bytes that are cleared. */
  lemma NothingReadAtZero(file: seq<Byte>, phdrs: seq<Phdr>, m: Mem, i: nat, k: nat)
    requires AllCongruent(phdrs, file) && Reserved(phdrs, 0) && PagesDisjoint(phdrs)
    requires i < |phdrs| && phdrs[i].kind == PT_LOAD && PageLow(phdrs[i]) == MinVaddr(phdrs)
    requires k < phdrs[i].memsz && Add32(phdrs[i].vaddr, Bias(phdrs, 0)) as int + k in m
    ensures var bias := Bias(phdrs, 0);
            var a := Add32(phdrs[i].vaddr, bias) + k;
            LoadedBytes(Win32, file, phdrs, bias, m)[a] ==
            if phdrs[i].flags.w && phdrs[i].filesz <= k && OnLastFilePage(phdrs[i], k) then 0 else m[a]
  {
    hide LoadedByte, AllCongruent, Reserved, PagesDisjoint, OnLastFilePage, Bias, MinVaddr, PageLow, Add32;
    var a := Add32(phdrs[i].vaddr, Bias(phdrs, 0)) + k;
    ByteAtZero(file, phdrs, a, i, k, m[a]);
  }

  lemma ByteAtZero(file: seq<Byte>, phdrs: seq<Phdr>, a: int, i: nat, k: nat, was: Byte)
    requires AllCongruent(phdrs, file) && Reserved(phdrs, 0) && PagesDisjoint(phdrs)
    requires i < |phdrs| && phdrs[i].kind == PT_LOAD && PageLow(phdrs[i]) == MinVaddr(phdrs)
    requires k < phdrs[i].memsz && a == Add32(phdrs[i].vaddr, Bias(phdrs, 0)) as int + k
    ensures LoadedByte(Win32, file, phdrs, Bias(phdrs, 0), a, was) ==
            if phdrs[i].flags.w && phdrs[i].filesz <= k && OnLastFilePage(phdrs[i], k) then 0 else was
  {
    hide SegmentByte, PassByte, LoadedByte, AllExact, AllCongruent, PagesDisjoint, InPages, OnLastFilePage;
    hide PageStart, Sub32, LoadSize, MinVaddr;
    var ph, bias, d := phdrs[i], Bias(phdrs, 0), 0 - MinVaddr(phdrs) as int;
    var l := LayoutOf(ph, bias);
    LayoutInReservation(phdrs, 0, file, i);
    ReservationIsExact(phdrs, 0, file);
    OnOwnPages(ph, l, d, k);
    OwnSegment(Win32, file, phdrs, bias, d, i, a, was);
    SameLastPage(ph, l, d, k);
    PassIsSegmentByte(Win32, file, ph, bias, a, was);
    PassAtZero(file, ph, l, d, k, was);
  }

  lemma OnOwnPages(ph: Phdr, l: Layout, d: int, k: nat)
    requires Exact(l, ph, d) && k < ph.memsz && l.pageStart <= l.segStart && l.segEnd <= l.pageEnd
    ensures InPages(ph, d, l.segStart + k)
  {
  }

  lemma PassAtZero(file: seq<Byte>, ph: Phdr, l: Layout, d: int, k: nat, was: Byte)
    requires Exact(l, ph, d) && ph.filesz <= ph.memsz && l.fileEnd <= 0xffff_f000 && l.pageStart == 0
    ensures PassByte(Win32, file, l, ph.flags.w, l.segStart + k, was) ==
            if ph.flags.w && ph.filesz <= k && l.segStart + k < l.filePageEnd then 0 else was
  {
    MapEndsInPages(ph, l, d);
    PageUpAbove(l.fileEnd);
  }

  // A segment of the 84 bytes of header and table and one zero byte more, not writable.
  const TAILED: seq<Phdr> := [Phdr(PT_LOAD, 0, 0, 84, 85, Prot(true, false, false))]

  /** A file in which the header and the table are followed by a byte that is not zero: POSIX leaves
      that byte where the segment's zero should be, and the Win32 emulation does not. */
  lemma BackendsDiffer(m: Mem, start: Word)
    requires start % PAGE_SIZE == 0 && 0 < start <= 0xffff_e000
    requires forall a :: start <= a < start as int + 4096 ==> a in m && m[a] == 0
    ensures var file, bias := ElfFile(TAILED) + [7], Bias(TAILED, start);
            && ReadFrom(file, 52, TAILED)
            && AllCongruent(TAILED, file) && Reserved(TAILED, start) && PagesDisjoint(TAILED)
            && !SameSegment(LoadedBytes(Posix, file, TAILED, bias, m), LoadedBytes(Win32, file, TAILED, bias, m),
                            TAILED, bias, 0)
  {
    var file := ElfFile(TAILED) + [7];
    EveryTableHasAFile(TAILED, [7]);
    OneEntry(TAILED[0]);
    assert LoadSize(TAILED) == 4096;
    assert FileByte(file, 84) == 7 && OnLastFilePage(TAILED[0], 84);
    hide ReadFrom, LoadedBytes;
    BackendsAgreeIff(file, TAILED, start, m, 0);
  }
}
