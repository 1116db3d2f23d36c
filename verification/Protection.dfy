/** Page protections, on a POSIX system: what loading gives each page, what unprotecting and
    protecting do around text relocations, and GNU RELRO. */
module Protection {
  import opened Base
  import opened Memory
  import opened Segments
  import opened Extent
  import opened SegmentTheorems

  // ------------------------------------------------------------- each page

  /** What the s_mmap calls of one pass of LoadSegments make of the page that starts at p; a page
      is mapped when its first byte is in the range, which starts on a page. */
  function MappedProt(ph: Phdr, bias: Word, p: int, was: Prot): Prot {
    var l := LayoutOf(ph, bias);
    if l.pageEnd > l.filePageEnd && l.filePageEnd <= p < l.pageEnd then ph.flags
    else if l.fileLength != 0 && l.pageStart <= p < l.pageStart as int + l.fileLength then ph.flags
    else was
  }

  function LoadedProt(phdrs: seq<Phdr>, bias: Word, p: int, was: Prot): Prot {
    if phdrs == [] then was
    else
      var n := |phdrs| - 1;
      var before := LoadedProt(phdrs[..n], bias, p, was);
      if phdrs[n].kind == PT_LOAD then MappedProt(phdrs[n], bias, p, before) else before
  }

  /** The page is in the range that _phdr_table_set_load_prot and _phdr_table_set_gnu_relro_prot
      compute for an entry. */
  predicate InEntryRange(ph: Phdr, bias: Word, p: int) {
    var start := Add32(PageStart(ph.vaddr), bias);
    var end := Add32(PageEnd(Add32(ph.vaddr, ph.memsz)), bias);
    start <= p < start as int + Sub32(end, start)
  }

  function Or(a: Prot, b: Prot): Prot {
    Prot(a.r || b.r, a.w || b.w, a.x || b.x)
  }

  /** One entry of _phdr_table_set_load_prot. */
  function ReprotectedBy(ph: Phdr, bias: Word, extra: Prot, p: int, was: Prot): Prot {
    if ph.kind == PT_LOAD && !ph.flags.w && InEntryRange(ph, bias, p) then Or(ph.flags, extra) else was
  }

  function Reprotected(phdrs: seq<Phdr>, bias: Word, extra: Prot, p: int, was: Prot): Prot {
    if phdrs == [] then was
    else
      var n := |phdrs| - 1;
      ReprotectedBy(phdrs[n], bias, extra, p, Reprotected(phdrs[..n], bias, extra, p, was))
  }

  function Unprotect(phdrs: seq<Phdr>, bias: Word, p: int, was: Prot): Prot {
    Reprotected(phdrs, bias, Prot(false, true, false), p, was)
  }

  function Protect(phdrs: seq<Phdr>, bias: Word, p: int, was: Prot): Prot {
    Reprotected(phdrs, bias, PROT_NONE, p, was)
  }

  /** _phdr_table_set_gnu_relro_prot with PROT_READ. */
  function Relro(phdrs: seq<Phdr>, bias: Word, p: int, was: Prot): Prot {
    if phdrs == [] then was
    else
      var n := |phdrs| - 1;
      if phdrs[n].kind == PT_GNU_RELRO && InEntryRange(phdrs[n], bias, p) then PROT_READ
      else Relro(phdrs[..n], bias, p, was)
  }

  // ------------------------------------------------------------- the ranges

  /** The pages of an entry inside the reservation, at distance d. */
  ghost predicate RangeIsPages(ph: Phdr, bias: Word, d: int) {
    forall p :: InEntryRange(ph, bias, p) <==> InPages(ph, d, p)
  }

  lemma RangeOfEntry(ph: Phdr, start: Word, low: Word, size: int)
    requires FitsReservation(ph, start, low, size)
    ensures RangeIsPages(ph, Sub32(start, low), start as int - low)
  {
    var end := End(ph);
    PageUpAbove(end);
    AlignedBound(PageUp(end), low as int + size);
    PageStartBelow(ph.vaddr);
    AlignedBound(low, PageStart(ph.vaddr));
    RangeStart(PageStart(ph.vaddr), start, low);
    RangeEnd(end, Add32(ph.vaddr, ph.memsz), start, low);
  }

  lemma RangeStart(first: Word, start: Word, low: Word)
    requires low <= first && start as int - low + first < WORDS
    ensures Add32(first, Sub32(start, low)) == start as int - low + first
  {
    WordShift(first, start, low, 0);
  }

  /** An end in the last page wraps to 0 before the bias is added, and back into place after. */
  lemma RangeEnd(end: int, wrapped: Word, start: Word, low: Word)
    requires 0 <= end <= WORDS && wrapped == (if end == WORDS then 0 else end)
    requires low <= PageUp(end) && 0 <= start as int - low + PageUp(end) < WORDS
    ensures Add32(PageEnd(wrapped), Sub32(start, low)) == start as int - low + PageUp(end)
  {
    if wrapped > 0xffff_f000 {
      PageEndWraps(wrapped);
    } else {
      PageEndAbove(wrapped);
    }
  }

  /** A RELRO entry is part of the loaded image. */
  predicate RelroInside(phdrs: seq<Phdr>) {
    forall i :: 0 <= i < |phdrs| && phdrs[i].kind == PT_GNU_RELRO ==>
      && MinVaddr(phdrs) <= phdrs[i].vaddr
      && phdrs[i].vaddr as int + phdrs[i].memsz <= MinVaddr(phdrs) as int + LoadSize(phdrs)
  }

  ghost predicate RangesExact(phdrs: seq<Phdr>, bias: Word, d: int, kind: nat) {
    forall i :: 0 <= i < |phdrs| && phdrs[i].kind == kind ==> RangeIsPages(phdrs[i], bias, d)
  }

  lemma LoadRanges(phdrs: seq<Phdr>, start: Word, file: seq<Byte>)
    requires AllCongruent(phdrs, file) && Reserved(phdrs, start)
    ensures RangesExact(phdrs, Bias(phdrs, start), start as int - MinVaddr(phdrs), PT_LOAD)
  {
    forall i | 0 <= i < |phdrs| && phdrs[i].kind == PT_LOAD
      ensures RangeIsPages(phdrs[i], Bias(phdrs, start), start as int - MinVaddr(phdrs))
    {
      ExtentFits(phdrs, start, file, i);
      ExtentIsHull(phdrs);
      RangeOfEntry(phdrs[i], start, MinVaddr(phdrs), LoadSize(phdrs));
    }
  }

  lemma RelroRanges(phdrs: seq<Phdr>, start: Word, file: seq<Byte>)
    requires AllCongruent(phdrs, file) && Reserved(phdrs, start) && RelroInside(phdrs)
    ensures RangesExact(phdrs, Bias(phdrs, start), start as int - MinVaddr(phdrs), PT_GNU_RELRO)
  {
    ExtentIsHull(phdrs);
    AlignedShift(LoadSize(phdrs), MinVaddr(phdrs));
    forall i | 0 <= i < |phdrs| && phdrs[i].kind == PT_GNU_RELRO
      ensures RangeIsPages(phdrs[i], Bias(phdrs, start), start as int - MinVaddr(phdrs))
    {
      RangeOfEntry(phdrs[i], start, MinVaddr(phdrs), LoadSize(phdrs));
    }
  }

  // ------------------------------------------------------- protections loaded

  lemma MappedPages(ph: Phdr, l: Layout, bias: Word, d: int, p: int, was: Prot)
    requires l == LayoutOf(ph, bias) && Exact(l, ph, d) && ph.filesz <= ph.memsz && l.fileEnd <= 0xffff_f000
    requires p % PAGE_SIZE == 0
    ensures MappedProt(ph, bias, p, was) == if InPages(ph, d, p) then ph.flags else was
  {
    PagesMeet(ph, l, d);
    if l.fileEnd <= p {
      NextPage(l.fileEnd, p);
    }
  }

  lemma PagesMeet(ph: Phdr, l: Layout, d: int)
    requires Exact(l, ph, d) && ph.filesz <= ph.memsz && l.fileEnd <= 0xffff_f000
    ensures l.pageStart as int + l.fileLength == l.fileEnd && l.pageStart <= l.fileEnd <= l.filePageEnd <= l.pageEnd
    ensures l.fileLength == 0 ==> l.filePageEnd == l.pageStart
  {
    MapEndsInPages(ph, l, d);
    PageUpAbove(l.fileEnd);
  }

  lemma NextPage(x: int, p: int)
    requires x <= p && p % PAGE_SIZE == 0
    ensures PageUp(x) <= p
  {
  }

  /** The protections of the pages of a table of disjoint segments: each page has the flags of
      the segment it belongs to. */
  lemma {:induction false} LoadedPage(phdrs: seq<Phdr>, file: seq<Byte>, bias: Word, d: int, i: nat, p: int, was: Prot)
    requires AllExact(phdrs, file, bias, d) && PagesDisjoint(phdrs) && p % PAGE_SIZE == 0
    requires i < |phdrs| && phdrs[i].kind == PT_LOAD && InPages(phdrs[i], d, p)
    ensures LoadedProt(phdrs, bias, p, was) == phdrs[i].flags
  {
    var n := |phdrs| - 1;
    if phdrs[n].kind == PT_LOAD {
      MappedPages(phdrs[n], LayoutOf(phdrs[n], bias), bias, d, p, LoadedProt(phdrs[..n], bias, p, was));
    }
    if i < n {
      LoadedPage(phdrs[..n], file, bias, d, i, p, was);
    }
  }

  // ------------------------------------------------------------- round trip

  predicate OnReadOnly(phdrs: seq<Phdr>, d: int, p: int) {
    exists i :: 0 <= i < |phdrs| && phdrs[i].kind == PT_LOAD && !phdrs[i].flags.w && InPages(phdrs[i], d, p)
  }

  /** A pass over the table changes exactly the pages of the segments that are not writable. */
  lemma {:induction false} ReprotectedPage(phdrs: seq<Phdr>, bias: Word, d: int, extra: Prot, i: nat, p: int, was: Prot)
    requires RangesExact(phdrs, bias, d, PT_LOAD) && PagesDisjoint(phdrs)
    requires i < |phdrs| && phdrs[i].kind == PT_LOAD && InPages(phdrs[i], d, p)
    ensures Reprotected(phdrs, bias, extra, p, was) == if phdrs[i].flags.w then was else Or(phdrs[i].flags, extra)
  {
    var n := |phdrs| - 1;
    assert phdrs[n].kind == PT_LOAD ==> (InEntryRange(phdrs[n], bias, p) <==> InPages(phdrs[n], d, p));
    if i < n {
      ReprotectedPage(phdrs[..n], bias, d, extra, i, p, was);
    } else {
      ReprotectedElsewhere(phdrs[..n], bias, d, extra, p, was);
    }
  }

  lemma {:induction false} ReprotectedElsewhere(phdrs: seq<Phdr>, bias: Word, d: int, extra: Prot, p: int, was: Prot)
    requires RangesExact(phdrs, bias, d, PT_LOAD) && !OnReadOnly(phdrs, d, p)
    ensures Reprotected(phdrs, bias, extra, p, was) == was
  {
    if phdrs != [] {
      var n := |phdrs| - 1;
      ReprotectedElsewhere(phdrs[..n], bias, d, extra, p, was);
      assert phdrs[n].kind == PT_LOAD ==> (InEntryRange(phdrs[n], bias, p) <==> InPages(phdrs[n], d, p));
    }
  }

  /** While text relocations are applied, every page of every segment is writable: those of the
      writable segments since loading, the others since they were unprotected. */
  lemma UnprotectedIsWritable(phdrs: seq<Phdr>, start: Word, file: seq<Byte>, i: nat, p: int, was: Prot)
    requires AllCongruent(phdrs, file) && Reserved(phdrs, start) && PagesDisjoint(phdrs) && p % PAGE_SIZE == 0
    requires i < |phdrs| && phdrs[i].kind == PT_LOAD && InPages(phdrs[i], start as int - MinVaddr(phdrs), p)
    ensures var bias := Bias(phdrs, start);
            var now := Unprotect(phdrs, bias, p, LoadedProt(phdrs, bias, p, was));
            now.w && now.r == phdrs[i].flags.r && now.x == phdrs[i].flags.x
  {
    var bias, d := Bias(phdrs, start), start as int - MinVaddr(phdrs);
    ReservationIsExact(phdrs, start, file);
    LoadRanges(phdrs, start, file);
    LoadedPage(phdrs, file, bias, d, i, p, was);
    ReprotectedPage(phdrs, bias, d, Prot(false, true, false), i, p, phdrs[i].flags);
  }

  /** Protecting after unprotecting gives back what loading had given, on every page. */
  lemma ProtectRestores(phdrs: seq<Phdr>, start: Word, file: seq<Byte>, p: int, was: Prot)
    requires AllCongruent(phdrs, file) && Reserved(phdrs, start) && PagesDisjoint(phdrs) && p % PAGE_SIZE == 0
    ensures var bias := Bias(phdrs, start);
            var loaded := LoadedProt(phdrs, bias, p, was);
            Protect(phdrs, bias, p, Unprotect(phdrs, bias, p, loaded)) == loaded
  {
    var bias, d := Bias(phdrs, start), start as int - MinVaddr(phdrs);
    var loaded, extra := LoadedProt(phdrs, bias, p, was), Prot(false, true, false);
    ReservationIsExact(phdrs, start, file);
    LoadRanges(phdrs, start, file);
    if OnReadOnly(phdrs, d, p) {
      var i :| 0 <= i < |phdrs| && phdrs[i].kind == PT_LOAD && !phdrs[i].flags.w && InPages(phdrs[i], d, p);
      LoadedPage(phdrs, file, bias, d, i, p, was);
      ReprotectedPage(phdrs, bias, d, PROT_NONE, i, p, Unprotect(phdrs, bias, p, loaded));
    } else {
      ReprotectedElsewhere(phdrs, bias, d, extra, p, loaded);
      ReprotectedElsewhere(phdrs, bias, d, PROT_NONE, p, loaded);
    }
  }

  /** Neither call touches a page of a writable segment, whatever its protection is. */
  lemma WritableUntouched(phdrs: seq<Phdr>, start: Word, file: seq<Byte>, i: nat, p: int, was: Prot)
    requires AllCongruent(phdrs, file) && Reserved(phdrs, start) && PagesDisjoint(phdrs)
    requires i < |phdrs| && phdrs[i].kind == PT_LOAD && phdrs[i].flags.w
    requires InPages(phdrs[i], start as int - MinVaddr(phdrs), p)
    ensures Unprotect(phdrs, Bias(phdrs, start), p, was) == was && Protect(phdrs, Bias(phdrs, start), p, was) == was
  {
    var d := start as int - MinVaddr(phdrs);
    LoadRanges(phdrs, start, file);
    ReprotectedPage(phdrs, Bias(phdrs, start), d, Prot(false, true, false), i, p, was);
    ReprotectedPage(phdrs, Bias(phdrs, start), d, PROT_NONE, i, p, was);
  }

  // ------------------------------------------------------------------ relro

  /** Some byte of a RELRO entry is on the page. */
  predicate TouchedByRelro(phdrs: seq<Phdr>, d: int, p: int) {
    exists i :: 0 <= i < |phdrs| && phdrs[i].kind == 0x6474_e552 && InPages(phdrs[i], d, p)
  }

  lemma {:induction false} RelroPage(phdrs: seq<Phdr>, bias: Word, d: int, p: int, was: Prot)
    requires RangesExact(phdrs, bias, d, PT_GNU_RELRO)
    ensures Relro(phdrs, bias, p, was) == if TouchedByRelro(phdrs, d, p) then Prot(true, false, false) else was
  {
    if phdrs != [] {
      var n := |phdrs| - 1;
      RelroPage(phdrs[..n], bias, d, p, was);
      assert phdrs[n].kind == PT_GNU_RELRO ==> (InEntryRange(phdrs[n], bias, p) <==> InPages(phdrs[n], d, p));
      if TouchedByRelro(phdrs[..n], d, p) {
        var i :| 0 <= i < n && phdrs[..n][i].kind == 0x6474_e552 && InPages(phdrs[..n][i], d, p);
        assert phdrs[i].kind == PT_GNU_RELRO && InPages(phdrs[i], d, p);
      }
    }
  }

  /** The pages of a linked library: read-only exactly where a RELRO entry touches the page, and
      elsewhere as loaded, whether or not text relocations were applied in between. */
  lemma LinkedProtections(phdrs: seq<Phdr>, start: Word, file: seq<Byte>, p: int, was: Prot)
    requires AllCongruent(phdrs, file) && Reserved(phdrs, start) && PagesDisjoint(phdrs) && p % PAGE_SIZE == 0
    requires RelroInside(phdrs)
    ensures var bias, d := Bias(phdrs, start), start as int - MinVaddr(phdrs);
            var loaded := LoadedProt(phdrs, bias, p, was);
            && Relro(phdrs, bias, p, loaded) ==
               (if TouchedByRelro(phdrs, d, p) then Prot(true, false, false) else loaded)
            && Relro(phdrs, bias, p, Protect(phdrs, bias, p, Unprotect(phdrs, bias, p, loaded))) ==
               Relro(phdrs, bias, p, loaded)
  {
    RelroRanges(phdrs, start, file);
    RelroPage(phdrs, Bias(phdrs, start), start as int - MinVaddr(phdrs), p,
              LoadedProt(phdrs, Bias(phdrs, start), p, was));
    ProtectRestores(phdrs, start, file, p, was);
  }

  // ---------------------------------------------------------- the three loops

  /** mprotect over a page range; the operating system may refuse. */
  method MProtect(space: AddressSpace, start: Word, size: Word, prot: Prot, granted: bool) returns (done: bool)
    modifies space`prot
    ensures done == granted && space.prot.Keys == old(space.prot.Keys)
    ensures !done ==> space.prot == old(space.prot)
    ensures done ==> forall p :: p in space.prot ==>
              (space.prot[p] == if start <= p < start as int + size then prot else old(space.prot)[p])
  {
    if granted {
      space.prot := map p | p in space.prot :: if start <= p < start as int + size then prot else space.prot[p];
    }
    return granted;
  }

  /** _phdr_table_set_load_prot. A refusal leaves the entries before it in force. */
  method SetLoadProt(space: AddressSpace, phdrs: seq<Phdr>, bias: Word, extra: Prot, os: nat -> bool)
    returns (done: bool)
    modifies space`prot
    ensures space.prot.Keys == old(space.prot.Keys)
    ensures done ==> forall p :: p in space.prot ==>
              space.prot[p] == Reprotected(phdrs, bias, extra, p, old(space.prot)[p])
    ensures !done ==> exists n ::
              0 <= n < |phdrs| && !os(n) && ReprotectedTo(phdrs[..n], bias, extra, old(space.prot), space.prot)
  {
    ghost var before := space.prot;
    for i := 0 to |phdrs|
      invariant space.prot.Keys == before.Keys
      invariant ReprotectedTo(phdrs[..i], bias, extra, before, space.prot)
    {
      assert phdrs[..i + 1][..i] == phdrs[..i];
      if phdrs[i].kind != PT_LOAD || phdrs[i].flags.w {
        continue;
      }
      var pageStart := Add32(PageStart(phdrs[i].vaddr), bias);
      var pageEnd := Add32(PageEnd(Add32(phdrs[i].vaddr, phdrs[i].memsz)), bias);
      var ok := MProtect(space, pageStart, Sub32(pageEnd, pageStart), Or(phdrs[i].flags, extra), os(i));
      if !ok {
        return false;
      }
    }
    assert phdrs[..|phdrs|] == phdrs;
    return true;
  }

  predicate ReprotectedTo(phdrs: seq<Phdr>, bias: Word, extra: Prot, was: map<int, Prot>, now: map<int, Prot>) {
    forall p :: p in now && p in was ==> now[p] == Reprotected(phdrs, bias, extra, p, was[p])
  }

  /** _phdr_table_set_gnu_relro_prot with PROT_READ. */
  method SetRelroProt(space: AddressSpace, phdrs: seq<Phdr>, bias: Word, os: nat -> bool) returns (done: bool)
    modifies space`prot
    ensures space.prot.Keys == old(space.prot.Keys)
    ensures done ==> forall p :: p in space.prot ==> space.prot[p] == Relro(phdrs, bias, p, old(space.prot)[p])
    ensures !done ==> exists n :: 0 <= n < |phdrs| && !os(n) && RelroTo(phdrs[..n], bias, old(space.prot), space.prot)
  {
    ghost var before := space.prot;
    for i := 0 to |phdrs|
      invariant space.prot.Keys == before.Keys
      invariant RelroTo(phdrs[..i], bias, before, space.prot)
    {
      assert phdrs[..i + 1][..i] == phdrs[..i];
      if phdrs[i].kind != PT_GNU_RELRO {
        continue;
      }
      var pageStart := Add32(PageStart(phdrs[i].vaddr), bias);
      var pageEnd := Add32(PageEnd(Add32(phdrs[i].vaddr, phdrs[i].memsz)), bias);
      var ok := MProtect(space, pageStart, Sub32(pageEnd, pageStart), PROT_READ, os(i));
      if !ok {
        return false;
      }
    }
    assert phdrs[..|phdrs|] == phdrs;
    return true;
  }

  predicate RelroTo(phdrs: seq<Phdr>, bias: Word, was: map<int, Prot>, now: map<int, Prot>) {
    forall p :: p in now && p in was ==> now[p] == Relro(phdrs, bias, p, was[p])
  }
}
