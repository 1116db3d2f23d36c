/** The loaded image: exact bytes, exact extent, and where the two back ends differ. */
module SegmentTheorems {
  import opened Base
  import opened Memory
  import opened Segments
  import opened Extent

  // ------------------------------------------------------------- placement

  /** What the note at the head of linker_phdr.cpp asks of a loadable segment. */
  predicate Congruent(ph: Phdr, file: seq<Byte>) {
    && Bounded(ph) && ph.filesz <= ph.memsz
    && ph.vaddr % PAGE_SIZE == ph.offset % PAGE_SIZE
    && ph.offset as int + ph.filesz <= |file| < WORDS
  }

  predicate AllCongruent(phdrs: seq<Phdr>, file: seq<Byte>) {
    forall i :: 0 <= i < |phdrs| && phdrs[i].kind == PT_LOAD ==> Congruent(phdrs[i], file)
  }

  /** Room for something to load, page-aligned and below the last page. */
  predicate Reserved(phdrs: seq<Phdr>, start: Word) {
    0 < LoadSize(phdrs) && RoomAt(phdrs, start)
  }

  predicate RoomAt(phdrs: seq<Phdr>, start: Word) {
    start % PAGE_SIZE == 0 && start as int + LoadSize(phdrs) <= 0xffff_f000
  }

  /** Under Win32 s_mmap takes place 0 for no place. */
  predicate Usable(b: Backend, start: int) {
    b == Win32 ==> start > 0
  }

  function Bias(phdrs: seq<Phdr>, start: Word): Word {
    Sub32(start, MinVaddr(phdrs))
  }

  /** First page of the segment, and the first page after it, before the bias. */
  function PageLow(ph: Phdr): int {
    PageStart(ph.vaddr)
  }

  function PageHigh(ph: Phdr): int {
    PageUp(ph.vaddr as int + ph.memsz)
  }

  /** The layout that the wrapping sums compute is the segment, moved by the distance d. */
  predicate Exact(l: Layout, ph: Phdr, d: int) {
    && l.segStart == ph.vaddr + d && l.segEnd == l.segStart as int + ph.memsz
    && l.fileEnd == l.segStart as int + ph.filesz
    && l.pageStart == PageLow(ph) + d && l.pageEnd == PageHigh(ph) + d
    && l.filePageEnd == PageUp(l.fileEnd)
    && l.filePageStart == ph.offset - ph.offset % PAGE_SIZE
    && l.fileLength == ph.offset % PAGE_SIZE + ph.filesz
    && l.segStart - l.pageStart == ph.offset % PAGE_SIZE
    && l.pageStart % PAGE_SIZE == 0 && l.pageEnd % PAGE_SIZE == 0
  }

  lemma PageUpShift(x: int, d: int)
    requires d % PAGE_SIZE == 0
    ensures PageUp(x + d) == PageUp(x) + d
  {
    AlignedShift(x, d);
  }

  lemma WordShift(x: Word, start: Word, low: Word, n: int)
    requires low <= x && 0 <= n && start as int - low + x + n < WORDS
    ensures Add32(x, Sub32(start, low)) == start as int - low + x
  {
  }

  lemma FileLength(ph: Phdr, file: seq<Byte>)
    requires Congruent(ph, file)
    ensures Sub32(Add32(ph.offset, ph.filesz), PageStart(ph.offset)) == ph.offset % PAGE_SIZE + ph.filesz
  {
  }

  // The numbers that place one segment inside a reservation.
  predicate FitsReservation(ph: Phdr, start: int, low: int, size: int) {
    && start % PAGE_SIZE == 0 && low % PAGE_SIZE == 0 && size % PAGE_SIZE == 0
    && 0 <= low <= ph.vaddr && ph.vaddr as int + ph.memsz <= low + size
    && 0 <= size && low + size <= WORDS && start + size <= 0xffff_f000
  }

  lemma SegmentStarts(ph: Phdr, start: Word, low: Word, size: int)
    requires FitsReservation(ph, start, low, size) && ph.filesz <= ph.memsz
    ensures var l, d := LayoutOf(ph, Sub32(start, low)), start as int - low;
            && l.segStart == ph.vaddr + d && l.segEnd == l.segStart as int + ph.memsz
            && l.fileEnd == l.segStart as int + ph.filesz && start <= l.segStart && l.segEnd <= start + size
  {
    WordShift(ph.vaddr, start, low, ph.memsz);
  }

  lemma SegmentPages(ph: Phdr, l: Layout, d: int, start: int, size: int)
    requires d % PAGE_SIZE == 0 && start % PAGE_SIZE == 0 && size % PAGE_SIZE == 0 && start + size <= 0xffff_f000
    requires l.segStart == ph.vaddr + d && l.segEnd == l.segStart as int + ph.memsz
    requires l.fileEnd == l.segStart as int + ph.filesz && ph.filesz <= ph.memsz
    requires start <= l.segStart && l.segEnd <= start + size
    requires l.pageStart == PageStart(l.segStart) && l.pageEnd == PageEnd(l.segEnd)
    requires l.filePageEnd == PageEnd(l.fileEnd)
    ensures l.pageStart == PageLow(ph) + d && l.segStart - l.pageStart == ph.vaddr % PAGE_SIZE
    ensures l.pageEnd == PageHigh(ph) + d && l.filePageEnd == PageUp(l.fileEnd)
    ensures l.pageStart % PAGE_SIZE == 0 && l.pageEnd % PAGE_SIZE == 0
    ensures start <= l.pageStart <= l.segStart && l.segEnd <= l.pageEnd <= start + size
    ensures l.fileEnd <= l.filePageEnd <= start + size
  {
    FirstPage(ph.vaddr, l.segStart, d, start);
    LastPage(l.segEnd, start + size);
    PageUpShift(ph.vaddr as int + ph.memsz, d);
    LastPage(l.fileEnd, start + size);
    AlignedShift(size, start);
  }

  lemma FirstPage(v: Word, s: Word, d: int, start: int)
    requires d % PAGE_SIZE == 0 && start % PAGE_SIZE == 0 && s == v + d && start <= s
    ensures PageStart(s) == PageStart(v) + d && s - PageStart(s) == v % PAGE_SIZE
    ensures PageStart(s) % PAGE_SIZE == 0 && start <= PageStart(s)
  {
    PageStartBelow(s);
    AlignedShift(v, d);
    AlignedBound(start, PageStart(s));
  }

  lemma LastPage(x: Word, end: int)
    requires x <= end <= 0xffff_f000 && end % PAGE_SIZE == 0
    ensures x <= PageEnd(x) <= end && PageEnd(x) == PageUp(x) && PageEnd(x) % PAGE_SIZE == 0
  {
    PageEndAbove(x);
    AlignedBound(PageEnd(x), end);
  }

  lemma ExtentFits(phdrs: seq<Phdr>, start: Word, file: seq<Byte>, i: nat)
    requires AllCongruent(phdrs, file) && Reserved(phdrs, start)
    requires i < |phdrs| && phdrs[i].kind == PT_LOAD
    ensures FitsReservation(phdrs[i], start, MinVaddr(phdrs), LoadSize(phdrs))
  {
    assert IsLoad(phdrs, i);
    ExtentIsHull(phdrs);
    var low, high := MinVaddr(phdrs) as int, MinVaddr(phdrs) as int + LoadSize(phdrs);
    AlignedShift(high - low, low);
  }

  /** Everything that LoadSegments maps, clears or zero-maps stays inside the reservation, with
      the bias a 32-bit difference that may itself wrap. */
  lemma LayoutInReservation(phdrs: seq<Phdr>, start: Word, file: seq<Byte>, i: nat)
    requires AllCongruent(phdrs, file) && Reserved(phdrs, start)
    requires i < |phdrs| && phdrs[i].kind == PT_LOAD
    ensures var l, d := LayoutOf(phdrs[i], Bias(phdrs, start)), start as int - MinVaddr(phdrs);
            && Exact(l, phdrs[i], d) && d % PAGE_SIZE == 0
            && start <= l.pageStart <= l.segStart <= l.fileEnd <= l.filePageEnd <= start as int + LoadSize(phdrs)
            && l.fileEnd <= l.segEnd <= l.pageEnd <= start as int + LoadSize(phdrs)
  {
    var ph, low, d := phdrs[i], MinVaddr(phdrs), start as int - MinVaddr(phdrs);
    ExtentFits(phdrs, start, file, i);
    SegmentStarts(ph, start, low, LoadSize(phdrs));
    FileLength(ph, file);
    AlignedShift(d, low);
    SegmentPages(ph, LayoutOf(ph, Bias(phdrs, start)), d, start, LoadSize(phdrs));
  }

  // ------------------------------------------------------------- one segment

  /** A segment's pass touches nothing outside its own pages. */
  lemma SegmentTouchesItsPages(b: Backend, file: seq<Byte>, ph: Phdr, bias: Word, d: int, a: int, was: Byte)
    requires Congruent(ph, file) && Exact(LayoutOf(ph, bias), ph, d) && LayoutOf(ph, bias).fileEnd <= 0xffff_f000
    requires !(PageLow(ph) + d <= a < PageHigh(ph) + d)
    ensures SegmentByte(b, file, ph, bias, a, was) == was
  {
    var l := LayoutOf(ph, bias);
    assert l.pageStart + l.fileLength == l.fileEnd;
    MapEndsInPages(ph, l, d);
  }

  lemma MapEndsInPages(ph: Phdr, l: Layout, d: int)
    requires Exact(l, ph, d) && ph.filesz <= ph.memsz && l.fileEnd <= 0xffff_f000
    ensures l.filePageEnd <= l.pageEnd
    ensures PageOffset(l.fileEnd) > 0 ==> l.fileEnd + (PAGE_SIZE - PageOffset(l.fileEnd)) == l.filePageEnd
  {
    PageUpAbove(l.fileEnd);
    PageUpAbove(ph.vaddr as int + ph.memsz);
    AlignedBound(l.filePageEnd, l.pageEnd);
  }

  /** The byte k of a loaded segment under each back end. */
  function ImageByte(b: Backend, file: seq<Byte>, ph: Phdr, l: Layout, k: nat, was: Byte): Byte {
    if k < ph.filesz then FileByte(file, ph.offset + k)
    else if l.segStart + k < l.filePageEnd then
      if ph.flags.w then 0
      else if b == Posix then FileByte(file, ph.offset + k)
      else was
    else if b == Posix then 0 else was
  }

  lemma SegmentContent(b: Backend, file: seq<Byte>, ph: Phdr, bias: Word, d: int, k: nat, was: Byte)
    requires Usable(b, LayoutOf(ph, bias).pageStart)
    requires Congruent(ph, file) && Exact(LayoutOf(ph, bias), ph, d) && LayoutOf(ph, bias).fileEnd <= 0xffff_f000
    requires k < ph.memsz && (b == Win32 ==> was == 0)
    ensures SegmentByte(b, file, ph, bias, LayoutOf(ph, bias).segStart + k, was) ==
            ImageByte(b, file, ph, LayoutOf(ph, bias), k, was)
  {
    var l := LayoutOf(ph, bias);
    var a := l.segStart + k;
    assert l.pageStart + l.fileLength == l.fileEnd;
    assert l.filePageStart + a - l.pageStart == ph.offset + k;
    MapEndsInPages(ph, l, d);
    assert a < l.pageEnd;
    MappedContent(b, file, ph, l, d, a, k, was);
  }

  lemma MappedContent(b: Backend, file: seq<Byte>, ph: Phdr, l: Layout, d: int, a: int, k: nat, was: Byte)
    requires Usable(b, l.pageStart)
    requires Congruent(ph, file) && Exact(l, ph, d) && a == l.segStart + k && l.filePageEnd <= l.pageEnd
    requires b == Win32 ==> was == 0
    ensures l.fileLength != 0 ==>
              MappedByte(b, file, l.pageStart, l.fileLength, l.filePageStart, a, was) ==
              if a < (if b == Posix then l.filePageEnd else l.fileEnd) then FileByte(file, ph.offset + k) else was
    ensures l.fileLength == 0 ==> l.filePageEnd <= a
  {
    assert l.pageStart + l.fileLength == l.fileEnd;
    assert l.filePageStart + a - l.pageStart == ph.offset + k;
  }

  // ------------------------------------------------------------ whole image

  /** No page belongs to two loadable segments. */
  predicate PagesDisjoint(phdrs: seq<Phdr>) {
    forall i, j :: 0 <= i < j < |phdrs| && phdrs[i].kind == PT_LOAD && phdrs[j].kind == PT_LOAD ==>
                     PageHigh(phdrs[i]) <= PageLow(phdrs[j]) || PageHigh(phdrs[j]) <= PageLow(phdrs[i])
  }

  predicate InPages(ph: Phdr, d: int, a: int) {
    PageLow(ph) + d <= a < PageHigh(ph) + d
  }

  predicate AllExact(phdrs: seq<Phdr>, file: seq<Byte>, bias: Word, d: int) {
    forall i :: 0 <= i < |phdrs| && phdrs[i].kind == PT_LOAD ==>
      Congruent(phdrs[i], file) && Exact(LayoutOf(phdrs[i], bias), phdrs[i], d) &&
      LayoutOf(phdrs[i], bias).fileEnd <= 0xffff_f000
  }

  lemma ReservationIsExact(phdrs: seq<Phdr>, start: Word, file: seq<Byte>)
    requires AllCongruent(phdrs, file) && Reserved(phdrs, start)
    ensures AllExact(phdrs, file, Bias(phdrs, start), start as int - MinVaddr(phdrs))
  {
    forall i | 0 <= i < |phdrs| && phdrs[i].kind == PT_LOAD {
      LayoutInReservation(phdrs, start, file, i);
    }
  }

  /** A byte on no segment's pages keeps its value. */
  lemma {:induction false} UntouchedByte(b: Backend, file: seq<Byte>, phdrs: seq<Phdr>, bias: Word, d: int, a: int,
                                         was: Byte)
    requires AllExact(phdrs, file, bias, d)
    requires forall i :: 0 <= i < |phdrs| && phdrs[i].kind == PT_LOAD ==> !InPages(phdrs[i], d, a)
    ensures LoadedByte(b, file, phdrs, bias, a, was) == was
  {
    if phdrs != [] {
      var n := |phdrs| - 1;
      UntouchedByte(b, file, phdrs[..n], bias, d, a, was);
      if phdrs[n].kind == PT_LOAD {
        SegmentTouchesItsPages(b, file, phdrs[n], bias, d, a, was);
      }
    }
  }

  /** A byte on one segment's pages is made by that segment's pass alone: neither an earlier nor
      a later pass spoils it. */
  lemma {:induction false} OwnSegment(b: Backend, file: seq<Byte>, phdrs: seq<Phdr>, bias: Word, d: int, i: nat, a: int,
                                      was: Byte)
    requires AllExact(phdrs, file, bias, d) && PagesDisjoint(phdrs)
    requires i < |phdrs| && phdrs[i].kind == PT_LOAD && InPages(phdrs[i], d, a)
    ensures LoadedByte(b, file, phdrs, bias, a, was) == SegmentByte(b, file, phdrs[i], bias, a, was)
  {
    var n := |phdrs| - 1;
    if i == n {
      UntouchedByte(b, file, phdrs[..n], bias, d, a, was);
    } else {
      assert phdrs[..n][i] == phdrs[i];
      OwnSegment(b, file, phdrs[..n], bias, d, i, a, was);
      if phdrs[n].kind == PT_LOAD {
        var before := LoadedByte(b, file, phdrs[..n], bias, a, was);
        SegmentTouchesItsPages(b, file, phdrs[n], bias, d, a, before);
      }
    }
  }

  /** Whether byte k of the segment shares the last page of its file part. */
  predicate OnLastFilePage(ph: Phdr, k: int) {
    ph.offset + k < PageUp(ph.offset as int + ph.filesz)
  }

  lemma SameLastPage(ph: Phdr, l: Layout, d: int, k: int)
    requires Exact(l, ph, d) && ph.vaddr % PAGE_SIZE == ph.offset % PAGE_SIZE && d % PAGE_SIZE == 0
    ensures l.segStart + k < l.filePageEnd <==> OnLastFilePage(ph, k)
  {
    var shift := l.segStart as int - ph.offset;
    assert l.segStart - l.pageStart == ph.offset % PAGE_SIZE;
    assert shift % PAGE_SIZE == 0 by {
      var o := ph.offset - ph.offset % PAGE_SIZE;
      assert o % PAGE_SIZE == 0 && shift == l.pageStart - o;
    }
    PageUpShift(ph.offset as int + ph.filesz, shift);
  }

  /** The byte at offset k of a loaded segment, in terms of the file alone. */
  function Expected(b: Backend, file: seq<Byte>, ph: Phdr, k: nat): Byte {
    if k < ph.filesz then FileByte(file, ph.offset + k)
    else if b == Posix && !ph.flags.w && OnLastFilePage(ph, k) then FileByte(file, ph.offset + k)
    else 0
  }

  /** After LoadSegments, with page-disjoint congruent segments and (for the Win32 emulation) a
      zero-filled reservation, every byte of every segment is the file's up to p_filesz and zero
      up to p_memsz, but that POSIX leaves the file's own bytes on the last file page of a
      segment that is not writable. */
  lemma LoadedImage(b: Backend, file: seq<Byte>, phdrs: seq<Phdr>, start: Word, m: Mem, i: nat, k: nat)
    requires Usable(b, start)
    requires AllCongruent(phdrs, file) && Reserved(phdrs, start) && PagesDisjoint(phdrs)
    requires forall a :: start <= a < start as int + LoadSize(phdrs) ==> a in m && (b == Win32 ==> m[a] == 0)
    requires i < |phdrs| && phdrs[i].kind == PT_LOAD && k < phdrs[i].memsz
    ensures var bias := Bias(phdrs, start);
            var a := Add32(phdrs[i].vaddr, bias) + k;
            a in m && LoadedBytes(b, file, phdrs, bias, m)[a] == Expected(b, file, phdrs[i], k)
  {
    var ph, bias, d := phdrs[i], Bias(phdrs, start), start as int - MinVaddr(phdrs);
    var l := LayoutOf(ph, bias);
    LayoutInReservation(phdrs, start, file, i);
    ReservationIsExact(phdrs, start, file);
    var a := l.segStart + k;
    assert InPages(ph, d, a) && a in m;
    OwnSegmentContent(b, file, phdrs, bias, d, i, k, m[a]);
    SameLastPage(ph, l, d, k);
  }

  lemma OwnSegmentContent(b: Backend, file: seq<Byte>, phdrs: seq<Phdr>, bias: Word, d: int, i: nat, k: nat, was: Byte)
    requires i < |phdrs| && Usable(b, LayoutOf(phdrs[i], bias).pageStart)
    requires AllExact(phdrs, file, bias, d) && PagesDisjoint(phdrs)
    requires i < |phdrs| && phdrs[i].kind == PT_LOAD && k < phdrs[i].memsz && (b == Win32 ==> was == 0)
    requires InPages(phdrs[i], d, LayoutOf(phdrs[i], bias).segStart + k)
    ensures LoadedByte(b, file, phdrs, bias, LayoutOf(phdrs[i], bias).segStart + k, was) ==
            ImageByte(b, file, phdrs[i], LayoutOf(phdrs[i], bias), k, was)
  {
    OwnSegment(b, file, phdrs, bias, d, i, LayoutOf(phdrs[i], bias).segStart + k, was);
    SegmentContent(b, file, phdrs[i], bias, d, k, was);
  }

  /** Past the end of the file part, what the last page of the file holds is already zero. */
  predicate TailClean(file: seq<Byte>, ph: Phdr) {
    ph.flags.w || forall k :: ph.filesz <= k < ph.memsz && OnLastFilePage(ph, k) ==> FileByte(file, ph.offset + k) == 0
  }

  /** The two loads leave the same bytes in segment i. */
  predicate SameSegment(m: Mem, m': Mem, phdrs: seq<Phdr>, bias: Word, i: nat)
    requires i < |phdrs|
  {
    forall k :: 0 <= k < phdrs[i].memsz ==> SameAt(m, m', Add32(phdrs[i].vaddr, bias), k)
  }

  predicate SameAt(m: Mem, m': Mem, seg: int, k: int) {
    seg + k in m && seg + k in m' && m[seg + k] == m'[seg + k]
  }

  /** The two back ends leave the same bytes in a segment exactly when it is writable or the
      file's own bytes on its last file page are zero where the segment's zeros should be. */
  lemma BackendsAgreeIff(file: seq<Byte>, phdrs: seq<Phdr>, start: Word, m: Mem, i: nat)
    requires 0 < start
    requires AllCongruent(phdrs, file) && Reserved(phdrs, start) && PagesDisjoint(phdrs)
    requires forall a :: start <= a < start as int + LoadSize(phdrs) ==> a in m && m[a] == 0
    requires i < |phdrs| && phdrs[i].kind == PT_LOAD
    ensures var bias := Bias(phdrs, start);
            SameSegment(LoadedBytes(Posix, file, phdrs, bias, m), LoadedBytes(Win32, file, phdrs, bias, m),
                        phdrs, bias, i)
            <==> TailClean(file, phdrs[i])
  {
    var ph, bias := phdrs[i], Bias(phdrs, start);
    var p, w := LoadedBytes(Posix, file, phdrs, bias, m), LoadedBytes(Win32, file, phdrs, bias, m);
    forall k | 0 <= k < ph.memsz
      ensures SameAt(p, w, Add32(ph.vaddr, bias), k) <==> Expected(Posix, file, ph, k) == Expected(Win32, file, ph, k)
    {
      LoadedImage(Posix, file, phdrs, start, m, i, k);
      LoadedImage(Win32, file, phdrs, start, m, i, k);
    }
    SameIff(file, phdrs, bias, p, w, i);
  }

  lemma SameIff(file: seq<Byte>, phdrs: seq<Phdr>, bias: Word, p: Mem, w: Mem, i: nat)
    requires i < |phdrs| && phdrs[i].filesz <= phdrs[i].memsz
    requires forall k :: 0 <= k < phdrs[i].memsz ==>
               (SameAt(p, w, Add32(phdrs[i].vaddr, bias), k) <==>
                Expected(Posix, file, phdrs[i], k) == Expected(Win32, file, phdrs[i], k))
    ensures SameSegment(p, w, phdrs, bias, i) <==> TailClean(file, phdrs[i])
  {
    var ph := phdrs[i];
    if SameSegment(p, w, phdrs, bias, i) && !ph.flags.w {
      forall k | ph.filesz <= k < ph.memsz && OnLastFilePage(ph, k)
        ensures FileByte(file, ph.offset + k) == 0
      {
        assert SameAt(p, w, Add32(ph.vaddr, bias), k);
      }
    }
  }

  /** In particular when every segment is writable, ends its file part on a page of the file, or
      has no zero part, the two loaders produce the same segment bytes. */
  lemma BackendsEquivalent(file: seq<Byte>, phdrs: seq<Phdr>, start: Word, m: Mem, i: nat, k: nat)
    requires 0 < start
    requires AllCongruent(phdrs, file) && Reserved(phdrs, start) && PagesDisjoint(phdrs)
    requires forall a :: start <= a < start as int + LoadSize(phdrs) ==> a in m && m[a] == 0
    requires i < |phdrs| && phdrs[i].kind == PT_LOAD && k < phdrs[i].memsz
    requires phdrs[i].flags.w || phdrs[i].filesz == phdrs[i].memsz ||
             (phdrs[i].offset as int + phdrs[i].filesz) % PAGE_SIZE == 0
    ensures var bias := Bias(phdrs, start);
            var a := Add32(phdrs[i].vaddr, bias) + k;
            a in m && LoadedBytes(Posix, file, phdrs, bias, m)[a] == LoadedBytes(Win32, file, phdrs, bias, m)[a]
  {
    LoadedImage(Posix, file, phdrs, start, m, i, k);
    LoadedImage(Win32, file, phdrs, start, m, i, k);
  }

  /** Outside the reservation nothing changes, however far loading gets. */
  lemma LoadedElsewhere(b: Backend, file: seq<Byte>, phdrs: seq<Phdr>, start: Word, m: Mem)
    requires AllCongruent(phdrs, file) && Reserved(phdrs, start)
    ensures forall a :: a in m && !(start <= a < start as int + LoadSize(phdrs)) ==>
      LoadedBytes(b, file, phdrs, Bias(phdrs, start), m)[a] == m[a]
  {
    var bias := Bias(phdrs, start);
    forall a | a in m && !(start <= a < start as int + LoadSize(phdrs))
      ensures LoadedByte(b, file, phdrs, bias, a, m[a]) == m[a]
    {
      OutsideByte(b, file, phdrs, start, |phdrs|, a, m[a]);
      assert phdrs[..|phdrs|] == phdrs;
    }
  }

  lemma OutsideByte(b: Backend, file: seq<Byte>, phdrs: seq<Phdr>, start: Word, n: nat, a: int, was: Byte)
    requires AllCongruent(phdrs, file) && Reserved(phdrs, start) && n <= |phdrs|
    requires !(start <= a < start as int + LoadSize(phdrs))
    ensures LoadedByte(b, file, phdrs[..n], Bias(phdrs, start), a, was) == was
    ensures forall i :: 0 <= i < |phdrs| && phdrs[i].kind == PT_LOAD ==>
              !InPages(phdrs[i], start as int - MinVaddr(phdrs), a)
  {
    var d := start as int - MinVaddr(phdrs);
    ReservationIsExact(phdrs, start, file);
    forall i | 0 <= i < |phdrs| && phdrs[i].kind == PT_LOAD
      ensures !InPages(phdrs[i], d, a)
    {
      LayoutInReservation(phdrs, start, file, i);
    }
    UntouchedByte(b, file, phdrs[..n], Bias(phdrs, start), d, a, was);
  }

  // -------------------------------------------------------- loading elsewhere

  // Layout l', e bytes further on.
  predicate LayoutShifted(l: Layout, l': Layout, e: int) {
    && l'.fileEnd == l.fileEnd + e && l'.pageStart == l.pageStart + e && l'.pageEnd == l.pageEnd + e
    && l'.filePageEnd == l.filePageEnd + e && PageOffset(l'.fileEnd) == PageOffset(l.fileEnd)
    && l'.fileLength == l.fileLength && l'.filePageStart == l.filePageStart
    && PageUp(l'.pageStart as int + l'.fileLength) == PageUp(l.pageStart as int + l.fileLength) + e
  }

  lemma LayoutMoves(ph: Phdr, l: Layout, l': Layout, d: int, d': int)
    requires Exact(l, ph, d) && Exact(l', ph, d') && (d' - d) % PAGE_SIZE == 0
    ensures LayoutShifted(l, l', d' - d)
  {
    PageUpShift(l.fileEnd, d' - d);
    AlignedShift(l.fileEnd, d' - d);
    PageUpShift(l.pageStart as int + l.fileLength, d' - d);
  }

  /** One pass in terms of its local variables. */
  function PassByte(b: Backend, file: seq<Byte>, l: Layout, w: bool, a: int, was: Byte): Byte {
    if l.pageEnd > l.filePageEnd && b == Posix && l.filePageEnd <= a < l.pageEnd then 0
    else if w && PageOffset(l.fileEnd) > 0 && l.fileEnd <= a < l.fileEnd + (PAGE_SIZE - PageOffset(l.fileEnd)) then 0
    else if l.fileLength == 0 then was
    else MappedByte(b, file, l.pageStart, l.fileLength, l.filePageStart, a, was)
  }

  lemma PassIsSegmentByte(b: Backend, file: seq<Byte>, ph: Phdr, bias: Word, a: int, was: Byte)
    ensures SegmentByte(b, file, ph, bias, a, was) == PassByte(b, file, LayoutOf(ph, bias), ph.flags.w, a, was)
  {
  }

  lemma PassMovesByte(b: Backend, file: seq<Byte>, l: Layout, l': Layout, w: bool, e: int, a: int, was: Byte)
    requires Usable(b, l.pageStart) && Usable(b, l'.pageStart)
    requires LayoutShifted(l, l', e)
    ensures PassByte(b, file, l, w, a, was) == PassByte(b, file, l', w, a + e, was)
  {
  }

  /** One pass makes of a byte what it makes of the same byte of the image placed elsewhere. */
  lemma SegmentByteMoves(b: Backend, file: seq<Byte>, ph: Phdr, bias: Word, bias': Word, d: int, d': int, a: int,
                         was: Byte)
    requires Usable(b, LayoutOf(ph, bias).pageStart) && Usable(b, LayoutOf(ph, bias').pageStart)
    requires Exact(LayoutOf(ph, bias), ph, d) && Exact(LayoutOf(ph, bias'), ph, d')
    requires (d' - d) % PAGE_SIZE == 0
    ensures SegmentByte(b, file, ph, bias, a, was) == SegmentByte(b, file, ph, bias', a + (d' - d), was)
  {
    hide SegmentByte, PassByte, LayoutShifted;
    LayoutMoves(ph, LayoutOf(ph, bias), LayoutOf(ph, bias'), d, d');
    PassIsSegmentByte(b, file, ph, bias, a, was);
    PassIsSegmentByte(b, file, ph, bias', a + (d' - d), was);
    PassMovesByte(b, file, LayoutOf(ph, bias), LayoutOf(ph, bias'), ph.flags.w, d' - d, a, was);
  }

  lemma {:induction false} LoadedByteMoves(b: Backend, file: seq<Byte>, phdrs: seq<Phdr>, start: Word, start': Word,
                                           n: nat, a: int, was: Byte)
    requires Usable(b, start) && Usable(b, start')
    requires AllCongruent(phdrs, file) && Reserved(phdrs, start) && Reserved(phdrs, start') && n <= |phdrs|
    ensures LoadedByte(b, file, phdrs[..n], Bias(phdrs, start), a, was) ==
            LoadedByte(b, file, phdrs[..n], Bias(phdrs, start'), a + (start' as int - start), was)
  {
    if n > 0 {
      LoadedByteMoves(b, file, phdrs, start, start', n - 1, a, was);
      assert phdrs[..n][..n - 1] == phdrs[..n - 1];
      if phdrs[n - 1].kind == PT_LOAD {
        var before := LoadedByte(b, file, phdrs[..n - 1], Bias(phdrs, start), a, was);
        NextByteMoves(b, file, phdrs, start, start', n - 1, a, before);
      }
    }
  }

  lemma NextByteMoves(b: Backend, file: seq<Byte>, phdrs: seq<Phdr>, start: Word, start': Word, i: nat, a: int,
                      was: Byte)
    requires Usable(b, start) && Usable(b, start')
    requires AllCongruent(phdrs, file) && Reserved(phdrs, start) && Reserved(phdrs, start')
    requires i < |phdrs| && phdrs[i].kind == PT_LOAD
    ensures SegmentByte(b, file, phdrs[i], Bias(phdrs, start), a, was) ==
            SegmentByte(b, file, phdrs[i], Bias(phdrs, start'), a + (start' as int - start), was)
  {
    var low := MinVaddr(phdrs);
    LayoutInReservation(phdrs, start, file, i);
    LayoutInReservation(phdrs, start', file, i);
    StartsAlign(start, start');
    SegmentByteMoves(b, file, phdrs[i], Bias(phdrs, start), Bias(phdrs, start'),
                     start as int - low, start' as int - low, a, was);
  }

  lemma StartsAlign(start: Word, start': Word)
    requires start % PAGE_SIZE == 0 && start' % PAGE_SIZE == 0
    ensures (start' as int - start) % PAGE_SIZE == 0
  {
  }
}
