/** ElfReader: reserve, load the segments, find the loaded program headers. */
module ElfReader {
  import opened Base
  import opened Memory
  import opened Segments
  import opened SegmentTheorems
  import opened HeaderTable
  import opened Protection

  // The answers of the operating system to the reader's requests, in order.
  datatype Answers = Answers(ok: nat -> bool)

  predicate IsPage(p: int) {
    p % PAGE_SIZE == 0
  }

  predicate KeptOutside(was: Mem, now: Mem, start: Word, size: Word) {
    forall a :: a in was && !Within(a, start, size) ==> a in now && now[a] == was[a]
  }

  /** The s_mmap calls of one pass that can be made at all under the back end: the Win32
      emulation rejects a mapping that is executable and nothing else. */
  predicate Mappable(b: Backend, ph: Phdr, bias: Word) {
    var l := LayoutOf(ph, bias);
    b == Win32 && ph.flags == PROT_EXEC ==> l.fileLength == 0 && l.pageEnd <= l.filePageEnd
  }

  /** A byte where a pass was cut short: as before the pass, or mapped and cleared. */
  predicate PartByte(b: Backend, file: seq<Byte>, ph: Phdr, bias: Word, a: int, was: Byte, now: Byte) {
    now == was || now == AfterMap(b, file, ph, bias, a, was) || now == AfterClear(b, file, ph, bias, a, was)
  }

  /** Loading stopped in the pass of segment n: the passes before it are complete. */
  predicate Stopped(b: Backend, file: seq<Byte>, phdrs: seq<Phdr>, bias: Word, n: nat, was: Mem, now: Mem) {
    n < |phdrs| && phdrs[n].kind == PT_LOAD &&
    forall a :: a in was && a in now ==>
      PartByte(b, file, phdrs[n], bias, a, LoadedByte(b, file, phdrs[..n], bias, a, was[a]), now[a])
  }

  predicate AllMappable(b: Backend, phdrs: seq<Phdr>, bias: Word) {
    forall i :: 0 <= i < |phdrs| && phdrs[i].kind == PT_LOAD ==> Mappable(b, phdrs[i], bias)
  }

  class Reader {
    const backend: Backend
    const file: seq<Byte>
    const phdrs: seq<Phdr>
    const space: AddressSpace
    var loadStart: Word
    var loadSize: Word
    var loadBias: Word
    var loadedPhdr: Word
    var clock: nat

    constructor (backend: Backend, file: seq<Byte>, phdrs: seq<Phdr>, space: AddressSpace)
      ensures this.backend == backend && this.file == file && this.phdrs == phdrs && this.space == space
      ensures clock == 0
    {
      this.backend, this.file, this.phdrs, this.space := backend, file, phdrs, space;
      loadStart, loadSize, loadBias, loadedPhdr, clock := 0, 0, 0, 0, 0;
    }

    /** The protection of reserved pages: the Win32 emulation commits them for reading and writing. */
    function UnusedProt(): Prot {
      if backend == Posix then PROT_NONE else Prot(true, true, false)
    }

    /** The reservation: zero-filled pages where the operating system put them. A refusal is an
        error under POSIX; the Win32 emulation returns the null pointer of VirtualAlloc, which is
        not MAP_FAILED, so that the program takes pages from 0 on for its own. */
    method ReserveAddressSpace(os: Answers, start: Word) returns (done: bool)
      modifies this, space
      ensures clock == old(clock) + (if LoadSize(phdrs) == 0 then 0 else 1)
      ensures done <==> LoadSize(phdrs) != 0 && (os.ok(old(clock)) || backend == Win32)
      ensures done ==> loadSize == LoadSize(phdrs) && loadBias == Bias(phdrs, loadStart)
      ensures done ==> loadStart == if os.ok(old(clock)) then start else 0
      ensures done && os.ok(old(clock)) ==> space.bytes == old(space.bytes) + Blank(start, loadSize)
      ensures done && os.ok(old(clock)) ==>
                forall a :: start <= a < start as int + loadSize ==> a in space.bytes && space.bytes[a] == 0
      ensures done && os.ok(old(clock)) ==>
                HasPages(start, loadSize, space.prot, if backend == Posix then PROT_NONE else Prot(true, true, false))
      ensures KeptOutside(old(space.bytes), space.bytes, start, LoadSize(phdrs))
      ensures !os.ok(old(clock)) ==> space.bytes == old(space.bytes) && space.prot == old(space.prot)
    {
      var size, minVaddr, maxVaddr := GetLoadSize(phdrs);
      loadSize := size;
      if loadSize == 0 {
        return false;
      }
      clock := clock + 1;
      if !os.ok(clock - 1) {
        loadStart, loadBias := 0, Sub32(0, minVaddr);
        return backend == Win32;
      }
      var zeros := Blank(start, loadSize);
      var none: map<int, Prot> := map p: int | start <= p < start as int + loadSize && IsPage(p) :: UnusedProt();
      space.bytes, space.prot := space.bytes + zeros, space.prot + none;
      loadStart, loadBias := start, Sub32(start, minVaddr);
      return true;
    }

    /** s_mmap of the file, or of anonymous zero pages, at a fixed address. */
    method MapFixed(os: Answers, start: Word, length: Word, flags: Prot, fromFile: bool, offset: Word)
      returns (done: bool)
      modifies this`clock, space
      ensures done ==> !(backend == Win32 && flags == PROT_EXEC)
      ensures done <== os.ok(old(clock)) && !(backend == Win32 && flags == PROT_EXEC)
      ensures space.bytes.Keys == old(space.bytes.Keys)
      ensures space.prot.Keys == old(space.prot.Keys)
      ensures !done ==> space.bytes == old(space.bytes) && space.prot == old(space.prot)
      ensures done ==> forall p :: p in space.prot ==>
                (space.prot[p] ==
                 if backend == Posix && start <= p < start as int + length then flags else old(space.prot)[p])
      ensures done && fromFile ==> forall a :: a in space.bytes ==>
                (space.bytes[a] == MappedByte(backend, file, start, length, offset, a, old(space.bytes)[a]))
      ensures done && !fromFile ==> forall a :: a in space.bytes ==>
                (space.bytes[a] == ZeroMappedByte(backend, start, start as int + length, a, old(space.bytes)[a]))
    {
      clock := clock + 1;
      if (backend == Win32 && flags == PROT_EXEC) || !os.ok(clock - 1) {
        return false;
      }
      if fromFile {
        space.bytes := map a | a in space.bytes ::
          MappedByte(backend, file, start, length, offset, a, space.bytes[a]);
      } else {
        space.bytes := map a | a in space.bytes ::
          ZeroMappedByte(backend, start, start as int + length, a, space.bytes[a]);
      }
      if backend == Posix {
        space.prot := map p | p in space.prot :: if start <= p < start as int + length then flags else space.prot[p];
      }
      return true;
    }

    /** memset(start, 0, length). */
    method Clear(start: int, length: int)
      modifies space`bytes
      ensures space.bytes.Keys == old(space.bytes.Keys)
      ensures forall a :: a in space.bytes ==>
                space.bytes[a] == if start <= a < start + length then 0 else old(space.bytes)[a]
    {
      space.bytes := map a | a in space.bytes :: if start <= a < start + length then 0 else space.bytes[a];
    }

    /** One pass of the loop of LoadSegments. */
    method LoadSegment(os: Answers, ph: Phdr) returns (done: bool)
      modifies this`clock, space
      ensures space.bytes.Keys == old(space.bytes.Keys)
      ensures done ==> Mappable(backend, ph, loadBias)
      ensures (forall t :: os.ok(t)) && Mappable(backend, ph, loadBias) ==> done
      ensures done ==> forall a :: a in space.bytes ==>
                space.bytes[a] == SegmentByte(backend, file, ph, loadBias, a, old(space.bytes)[a])
      ensures space.prot.Keys == old(space.prot.Keys)
      ensures done && backend == Posix ==> forall p :: p in space.prot ==>
                space.prot[p] == MappedProt(ph, loadBias, p, old(space.prot)[p])
      ensures !done ==> forall a :: a in space.bytes ==>
                PartByte(backend, file, ph, loadBias, a, old(space.bytes)[a], space.bytes[a])
    {
      hide MappedByte, ZeroMappedByte, Add32, Sub32, PageStart, PageEnd;
      ghost var before := space.bytes;
      var segStart := Add32(ph.vaddr, loadBias);
      var segEnd := Add32(segStart, ph.memsz);
      var segPageStart, segPageEnd := PageStart(segStart), PageEnd(segEnd);
      var segFileEnd := Add32(segStart, ph.filesz);
      var fileStart := ph.offset;
      var fileEnd := Add32(fileStart, ph.filesz);
      var filePageStart := PageStart(fileStart);
      var fileLength := Sub32(fileEnd, filePageStart);
      if fileLength != 0 {
        var mapped := MapFixed(os, segPageStart, fileLength, ph.flags, true, filePageStart);
        if !mapped {
          return false;
        }
      }
      assert forall a :: a in space.bytes ==> space.bytes[a] == AfterMap(backend, file, ph, loadBias, a, before[a]);
      if ph.flags.w && PageOffset(segFileEnd) > 0 {
        Clear(segFileEnd, PAGE_SIZE - PageOffset(segFileEnd));
      }
      assert forall a :: a in space.bytes ==> space.bytes[a] == AfterClear(backend, file, ph, loadBias, a, before[a]);
      segFileEnd := PageEnd(segFileEnd);
      if segPageEnd > segFileEnd {
        var mapped := MapFixed(os, segFileEnd, segPageEnd - segFileEnd, ph.flags, false, 0);
        if !mapped {
          return false;
        }
      }
      return true;
    }

    /** LoadSegments succeeds, on an operating system that never refuses, exactly when every
        segment is mappable; success leaves exactly the specified bytes. */
    method LoadSegments(os: Answers) returns (done: bool)
      modifies this`clock, space
      ensures space.bytes.Keys == old(space.bytes.Keys)
      ensures done ==> space.bytes == LoadedBytes(backend, file, phdrs, loadBias, old(space.bytes))
      ensures done ==> AllMappable(backend, phdrs, loadBias)
      ensures space.prot.Keys == old(space.prot.Keys)
      ensures done && backend == Posix ==> forall p :: p in space.prot ==>
                space.prot[p] == LoadedProt(phdrs, loadBias, p, old(space.prot)[p])
      ensures !done ==> exists n ::
                0 <= n < |phdrs| && Stopped(backend, file, phdrs, loadBias, n, old(space.bytes), space.bytes)
      ensures (forall t :: os.ok(t)) && AllMappable(backend, phdrs, loadBias) ==> done
    {
      ghost var before, prot := space.bytes, space.prot;
      for i := 0 to |phdrs|
        invariant space.bytes.Keys == before.Keys && space.prot.Keys == prot.Keys
        invariant backend == Posix ==> forall p :: p in prot ==>
                    space.prot[p] == LoadedProt(phdrs[..i], loadBias, p, prot[p])
        invariant forall a :: a in before ==>
                    space.bytes[a] == LoadedByte(backend, file, phdrs[..i], loadBias, a, before[a])
        invariant forall k :: 0 <= k < i && phdrs[k].kind == PT_LOAD ==> Mappable(backend, phdrs[k], loadBias)
      {
        assert phdrs[..i + 1][..i] == phdrs[..i];
        if phdrs[i].kind != PT_LOAD {
          continue;
        }
        ghost var reached := space.bytes;
        var ok := LoadSegment(os, phdrs[i]);
        if !ok {
          assert forall a :: a in before ==>
              reached[a] == LoadedByte(backend, file, phdrs[..i], loadBias, a, before[a]);
          assert Stopped(backend, file, phdrs, loadBias, i, before, space.bytes);
          return false;
        }
      }
      assert phdrs[..|phdrs|] == phdrs;
      return true;
    }

    /** The table's address is accepted iff some loadable segment's file part holds it. */
    method CheckPhdr(loaded: Word) returns (found: bool)
      modifies this`loadedPhdr
      ensures found <==> Covered(phdrs, loadBias, loaded)
      ensures loadedPhdr == if found then loaded else old(loadedPhdr)
    {
      var loadedEnd := TableEnd(loaded, |phdrs|);
      for i := 0 to |phdrs|
        invariant loadedPhdr == old(loadedPhdr)
        invariant forall k :: 0 <= k < i ==> !InFilePart(phdrs[k], loadBias, loaded, loadedEnd)
      {
        if phdrs[i].kind != PT_LOAD {
          continue;
        }
        var segStart := Add32(phdrs[i].vaddr, loadBias);
        var segEnd := Add32(phdrs[i].filesz, segStart);
        if segStart <= loaded && loadedEnd <= segEnd {
          loadedPhdr := loaded;
          return true;
        }
      }
      return false;
    }

    function Candidate(): Option<Word>
      reads this`loadBias, space`bytes
    {
      CandidateIn(phdrs, loadBias, space.bytes)
    }

    /** The read of e_phoff faults where the header is not mapped. */
    method FindPhdr() returns (found: bool, fault: bool)
      modifies this`loadedPhdr
      ensures fault <==>
                && FirstOf(phdrs, 6).None? && FirstOf(phdrs, 1).Some? && phdrs[FirstOf(phdrs, 1).value].offset == 0
                && !HasWord(space.bytes, Add32(loadBias, phdrs[FirstOf(phdrs, 1).value].vaddr) + 28)
      ensures fault ==> Candidate().None?
      ensures found <==> !fault && Candidate().Some? && Covered(phdrs, loadBias, Candidate().value)
      ensures loadedPhdr == if found then Candidate().value else old(loadedPhdr)
    {
      for i := 0 to |phdrs|
        invariant forall k :: 0 <= k < i ==> phdrs[k].kind != PT_PHDR
        invariant loadedPhdr == old(loadedPhdr)
      {
        if phdrs[i].kind == PT_PHDR {
          FirstOfIs(phdrs, PT_PHDR, i);
          found := CheckPhdr(Add32(loadBias, phdrs[i].vaddr));
          return found, false;
        }
      }
      FirstOfNone(phdrs, PT_PHDR);
      for i := 0 to |phdrs|
        invariant forall k :: 0 <= k < i ==> phdrs[k].kind != PT_LOAD
        invariant loadedPhdr == old(loadedPhdr)
      {
        if phdrs[i].kind == PT_LOAD {
          FirstOfIs(phdrs, PT_LOAD, i);
          if phdrs[i].offset == 0 {
            var elf := Add32(loadBias, phdrs[i].vaddr);
            if !HasWord(space.bytes, elf + EHDR_PHOFF) {
              return false, true;
            }
            found := CheckPhdr(Add32(elf, ReadWord(space.bytes, elf + EHDR_PHOFF)));
            return found, false;
          }
          return false, false;
        }
      }
      FirstOfNone(phdrs, PT_LOAD);
      return false, false;
    }

    /** Load, once the header and the table have been read: reserve, load, find the table. The
        header can be missing only where nothing was loaded for it: in an empty first segment, or
        after a reservation that was refused but taken for granted. */
    method Load(os: Answers, start: Word, ghost phoff: nat) returns (done: bool, fault: bool)
      requires Usable(backend, start)
      requires AllCongruent(phdrs, file) && RoomAt(phdrs, start) && PagesDisjoint(phdrs)
      modifies this, space
      ensures done ==> loadSize == LoadSize(phdrs) && loadBias == Bias(phdrs, loadStart)
      ensures done ==> loadStart == if os.ok(old(clock)) then start else 0
      ensures done ==> Candidate() == Some(loadedPhdr) && Covered(phdrs, loadBias, loadedPhdr)
      ensures done && os.ok(old(clock)) ==> Loaded(backend, file, phdrs, loadBias, space.bytes)
      ensures done && os.ok(old(clock)) && backend == Posix ==>
                ProtectedAsLoaded(phdrs, start as int - MinVaddr(phdrs), space.prot)
      ensures done && os.ok(old(clock)) && ReadFrom(file, phoff, phdrs) && Consistent(phdrs, phoff) ==>
                Survived(phdrs, loadBias, space.bytes, loadedPhdr)
      ensures done || fault ==> os.ok(old(clock)) || backend == Win32
      ensures fault ==> !done && !(os.ok(old(clock)) && HeaderMapped(phdrs))
      ensures (forall t :: os.ok(t)) ==> (done <==>
                LoadSize(phdrs) != 0 && AllMappable(backend, phdrs, Bias(phdrs, start)) &&
                Candidate().Some? && Covered(phdrs, loadBias, Candidate().value))
      ensures KeptOutside(old(space.bytes), space.bytes, if os.ok(old(clock)) then start else 0, LoadSize(phdrs))
    {
      hide Loaded, Survived, ReadFrom, Consistent, HeaderMapped, HeaderReadable, AllCongruent, PagesDisjoint;
      hide AllMappable, ProtectedAsLoaded, LoadedProts, Covered, CandidateIn, LoadedBytes;
      done, fault := false, false;
      var reserved := ReserveAddressSpace(os, start);
      if !reserved {
        return;
      }
      ghost var blank, none := space.bytes, space.prot;
      var loaded := LoadInto(os);
      if !loaded {
        return;
      }
      if os.ok(old(clock)) {
        AfterLoading(file, phdrs, start, blank, none, phoff);
      }
      done, fault := FindPhdr();
    }

    /** LoadSegments, and that it stays inside the reservation. */
    method LoadInto(os: Answers) returns (done: bool)
      requires AllCongruent(phdrs, file) && Reserved(phdrs, loadStart) && loadBias == Bias(phdrs, loadStart)
      modifies this`clock, space
      ensures done ==> space.bytes == LoadedBytes(backend, file, phdrs, loadBias, old(space.bytes))
      ensures done && backend == Posix ==> LoadedProts(phdrs, loadBias, old(space.prot), space.prot)
      ensures done ==> AllMappable(backend, phdrs, loadBias)
      ensures (forall t :: os.ok(t)) && AllMappable(backend, phdrs, loadBias) ==> done
      ensures KeptOutside(old(space.bytes), space.bytes, loadStart, LoadSize(phdrs))
    {
      done := LoadSegments(os);
      if done {
        LoadedElsewhere(backend, file, phdrs, loadStart, old(space.bytes));
      } else {
        StoppedElsewhere(backend, file, phdrs, loadStart, old(space.bytes), space.bytes);
      }
    }

    /** What the segments hold once they are loaded into a reservation that was granted. */
    ghost method AfterLoading(file: seq<Byte>, phdrs: seq<Phdr>, start: Word, blank: Mem, none: map<int, Prot>,
                              phoff: nat)
      requires Usable(backend, start)
      requires file == this.file && phdrs == this.phdrs && loadBias == Bias(phdrs, start)
      requires AllCongruent(phdrs, file) && Reserved(phdrs, start) && PagesDisjoint(phdrs)
      requires forall a :: start <= a < start as int + LoadSize(phdrs) ==> a in blank && blank[a] == 0
      requires HasPages(start, LoadSize(phdrs), none, UnusedProt())
      requires space.bytes == LoadedBytes(backend, file, phdrs, loadBias, blank)
      requires backend == Posix ==> LoadedProts(phdrs, loadBias, none, space.prot)
      ensures Loaded(backend, file, phdrs, loadBias, space.bytes)
      ensures HeaderMapped(phdrs) ==> HeaderReadable(phdrs, loadBias, space.bytes)
      ensures backend == Posix ==> ProtectedAsLoaded(phdrs, start as int - MinVaddr(phdrs), space.prot)
      ensures ReadFrom(file, phoff, phdrs) && Consistent(phdrs, phoff) ==>
                Candidate().Some? && Survived(phdrs, loadBias, space.bytes, Candidate().value)
    {
      if backend == Posix {
        EveryPageProtected(file, phdrs, start, none, space.prot);
      }
      EverySegmentLoaded(backend, file, phdrs, start, blank);
      if HeaderMapped(phdrs) {
        HeaderIsReadable(file, phdrs, start, space.bytes);
      }
      if ReadFrom(file, phoff, phdrs) && Consistent(phdrs, phoff) {
        HeadersSurvive(backend, file, phdrs, start, space.bytes, phoff);
      }
    }
  }

  // ------------------------------------------------------------------ results

  /** Every page of every segment has the protection that its header asks for. */
  ghost predicate ProtectedAsLoaded(phdrs: seq<Phdr>, d: int, prot: map<int, Prot>) {
    forall i, p :: 0 <= i < |phdrs| && phdrs[i].kind == PT_LOAD ==> PageAsLoaded(phdrs[i], d, prot, p)
  }

  predicate PageAsLoaded(ph: Phdr, d: int, prot: map<int, Prot>, p: int) {
    IsPage(p) && InPages(ph, d, p) ==> p in prot && prot[p] == ph.flags
  }

  predicate LoadedProts(phdrs: seq<Phdr>, bias: Word, was: map<int, Prot>, now: map<int, Prot>) {
    was.Keys == now.Keys && forall p :: p in now ==> now[p] == LoadedProt(phdrs, bias, p, was[p])
  }

  /** Every page of the range is there, with this protection. */
  ghost predicate HasPages(start: Word, size: Word, prot: map<int, Prot>, flags: Prot) {
    forall p :: start <= p < start as int + size && IsPage(p) ==> p in prot && prot[p] == flags
  }

  lemma EveryPageProtected(file: seq<Byte>, phdrs: seq<Phdr>, start: Word, was: map<int, Prot>, now: map<int, Prot>)
    requires AllCongruent(phdrs, file) && Reserved(phdrs, start) && PagesDisjoint(phdrs)
    requires LoadedProts(phdrs, Bias(phdrs, start), was, now) && HasPages(start, LoadSize(phdrs), was, PROT_NONE)
    ensures ProtectedAsLoaded(phdrs, start as int - MinVaddr(phdrs), now)
  {
    var d := start as int - MinVaddr(phdrs);
    forall i, p | 0 <= i < |phdrs| && phdrs[i].kind == PT_LOAD
      ensures PageAsLoaded(phdrs[i], d, now, p)
    {
      if IsPage(p) && InPages(phdrs[i], d, p) {
        PageInReservation(phdrs, start, file, i, p);
        ReservationIsExact(phdrs, start, file);
        LoadedPage(phdrs, file, Bias(phdrs, start), d, i, p, was[p]);
      }
    }
  }

  lemma PageInReservation(phdrs: seq<Phdr>, start: Word, file: seq<Byte>, i: nat, p: int)
    requires AllCongruent(phdrs, file) && Reserved(phdrs, start)
    requires i < |phdrs| && phdrs[i].kind == PT_LOAD && InPages(phdrs[i], start as int - MinVaddr(phdrs), p)
    ensures start <= p < start as int + LoadSize(phdrs)
  {
    LayoutInReservation(phdrs, start, file, i);
  }

  lemma EverySegmentLoaded(b: Backend, file: seq<Byte>, phdrs: seq<Phdr>, start: Word, m: Mem)
    requires Usable(b, start)
    requires AllCongruent(phdrs, file) && Reserved(phdrs, start) && PagesDisjoint(phdrs)
    requires forall a :: start <= a < start as int + LoadSize(phdrs) ==> a in m && m[a] == 0
    ensures Loaded(b, file, phdrs, Bias(phdrs, start), LoadedBytes(b, file, phdrs, Bias(phdrs, start), m))
  {
    var bias := Bias(phdrs, start);
    forall i, k | 0 <= i < |phdrs| && phdrs[i].kind == PT_LOAD && 0 <= k < phdrs[i].memsz
      ensures HasImageByte(b, file, phdrs[i], bias, LoadedBytes(b, file, phdrs, bias, m), k)
    {
      LoadedImage(b, file, phdrs, start, m, i, k);
    }
  }

  lemma StoppedElsewhere(b: Backend, file: seq<Byte>, phdrs: seq<Phdr>, start: Word, was: Mem, now: Mem)
    requires AllCongruent(phdrs, file) && Reserved(phdrs, start) && was.Keys == now.Keys
    requires exists n :: 0 <= n < |phdrs| && Stopped(b, file, phdrs, Bias(phdrs, start), n, was, now)
    ensures forall a :: a in was && !Within(a, start, LoadSize(phdrs)) ==> now[a] == was[a]
  {
    var bias, d := Bias(phdrs, start), start as int - MinVaddr(phdrs);
    var n :| 0 <= n < |phdrs| && Stopped(b, file, phdrs, bias, n, was, now);
    ReservationIsExact(phdrs, start, file);
    forall a | a in was && !Within(a, start, LoadSize(phdrs))
      ensures now[a] == was[a]
    {
      OutsideByte(b, file, phdrs, start, n, a, was[a]);
      SegmentPartTouchesItsPages(b, file, phdrs[n], bias, d, a, was[a]);
    }
  }

  lemma SegmentPartTouchesItsPages(b: Backend, file: seq<Byte>, ph: Phdr, bias: Word, d: int, a: int, was: Byte)
    requires Congruent(ph, file) && Exact(LayoutOf(ph, bias), ph, d) && LayoutOf(ph, bias).fileEnd <= 0xffff_f000
    requires !InPages(ph, d, a)
    ensures AfterMap(b, file, ph, bias, a, was) == was && AfterClear(b, file, ph, bias, a, was) == was
  {
    var l := LayoutOf(ph, bias);
    assert l.pageStart + l.fileLength == l.fileEnd;
    MapEndsInPages(ph, l, d);
  }
}
