/** Program headers: the extent to reserve, and how one segment's bytes and protections come
    about under either s_mmap back end. */
module Segments {
  import opened Base
  import opened Memory

  const PT_LOAD: nat := 1
  const PT_PHDR: nat := 6
  const PT_GNU_RELRO: nat := 0x6474e552

  // An Elf32_Phdr; p_flags is split into its bits, which are also the protections mapped.
  datatype Phdr = Phdr(kind: nat, offset: Word, vaddr: Word, filesz: Word, memsz: Word, flags: Prot)

  // Which s_mmap the loader was built with.
  datatype Backend = Posix | Win32

  /** Rounding up to a page without a 32-bit sum. */
  function PageUp(x: int): int {
    if x % PAGE_SIZE == 0 then x else x - x % PAGE_SIZE + PAGE_SIZE
  }

  // ------------------------------------------------------------ extent

  function Lowest(phdrs: seq<Phdr>): Word {
    if phdrs == [] then 0xffff_ffff
    else
      var n := |phdrs| - 1;
      var low := Lowest(phdrs[..n]);
      if phdrs[n].kind == PT_LOAD && phdrs[n].vaddr < low then phdrs[n].vaddr else low
  }

  function Highest(phdrs: seq<Phdr>): Word {
    if phdrs == [] then 0
    else
      var n := |phdrs| - 1;
      var high := Highest(phdrs[..n]);
      var end := Add32(phdrs[n].vaddr, phdrs[n].memsz);
      if phdrs[n].kind == PT_LOAD && end > high then end else high
  }

  predicate HasLoad(phdrs: seq<Phdr>) {
    exists i :: 0 <= i < |phdrs| && phdrs[i].kind == PT_LOAD
  }

  /** First page of the loadable segments, and the number of bytes to reserve from there. */
  function MinVaddr(phdrs: seq<Phdr>): Word {
    if HasLoad(phdrs) then PageStart(Lowest(phdrs)) else 0
  }

  function LoadSize(phdrs: seq<Phdr>): Word {
    Sub32(PageEnd(Highest(phdrs)), MinVaddr(phdrs))
  }

  method GetLoadSize(phdrs: seq<Phdr>) returns (size: Word, minVaddr: Word, maxVaddr: Word)
    ensures size == LoadSize(phdrs) && minVaddr == MinVaddr(phdrs)
    ensures maxVaddr == PageEnd(Highest(phdrs))
  {
    minVaddr, maxVaddr := 0xffff_ffff, 0;
    var found := false;
    for i := 0 to |phdrs|
      invariant minVaddr == Lowest(phdrs[..i]) && maxVaddr == Highest(phdrs[..i])
      invariant found <==> exists k :: 0 <= k < i && phdrs[k].kind == PT_LOAD
    {
      assert phdrs[..i + 1][..i] == phdrs[..i];
      if phdrs[i].kind != PT_LOAD {
        continue;
      }
      found := true;
      if phdrs[i].vaddr < minVaddr {
        minVaddr := phdrs[i].vaddr;
      }
      if Add32(phdrs[i].vaddr, phdrs[i].memsz) > maxVaddr {
        maxVaddr := Add32(phdrs[i].vaddr, phdrs[i].memsz);
      }
    }
    assert phdrs[..|phdrs|] == phdrs;
    if !found {
      minVaddr := 0;
    }
    minVaddr, maxVaddr := PageStart(minVaddr), PageEnd(maxVaddr);
    size := Sub32(maxVaddr, minVaddr);
  }

  // --------------------------------------------------------- one segment

  // The local variables of the loop body of LoadSegments, all unsigned 32-bit.
  datatype Layout = Layout(
    segStart: Word, segEnd: Word, pageStart: Word, pageEnd: Word,
    fileEnd: Word, filePageEnd: Word, filePageStart: Word, fileLength: Word)

  function LayoutOf(ph: Phdr, bias: Word): Layout {
    var segStart := Add32(ph.vaddr, bias);
    var segEnd := Add32(segStart, ph.memsz);
    var fileEnd := Add32(segStart, ph.filesz);
    Layout(segStart, segEnd, PageStart(segStart), PageEnd(segEnd), fileEnd, PageEnd(fileEnd),
           PageStart(ph.offset), Sub32(Add32(ph.offset, ph.filesz), PageStart(ph.offset)))
  }

  function FileByte(file: seq<Byte>, k: int): Byte {
    if 0 <= k < |file| then file[k] else 0
  }

  /** s_mmap of the file at a fixed place: POSIX replaces whole pages, zero past the end of the
      file; the Win32 emulation reads the bytes into place and touches nothing else. It takes place
      0 for no place, and reads them into memory of its own choice. */
  function MappedByte(b: Backend, file: seq<Byte>, start: int, length: int, offset: int, a: int, was: Byte): Byte {
    match b
    case Posix => if start <= a < PageUp(start + length) then FileByte(file, offset + a - start) else was
    case Win32 =>
      if start != 0 && start <= a < start + length && offset + a - start < |file|
      then FileByte(file, offset + a - start) else was
  }

  /** s_mmap of anonymous memory at a fixed place: the Win32 emulation does nothing. */
  function ZeroMappedByte(b: Backend, start: int, end: int, a: int, was: Byte): Byte {
    if b == Posix && start <= a < end then 0 else was
  }

  function AfterMap(b: Backend, file: seq<Byte>, ph: Phdr, bias: Word, a: int, was: Byte): Byte {
    var l := LayoutOf(ph, bias);
    if l.fileLength == 0 then was
    else MappedByte(b, file, l.pageStart, l.fileLength, l.filePageStart, a, was)
  }

  function AfterClear(b: Backend, file: seq<Byte>, ph: Phdr, bias: Word, a: int, was: Byte): Byte {
    var l := LayoutOf(ph, bias);
    if && ph.flags.w && PageOffset(l.fileEnd) > 0
       && l.fileEnd <= a < l.fileEnd + (PAGE_SIZE - PageOffset(l.fileEnd)) then 0
    else AfterMap(b, file, ph, bias, a, was)
  }

  /** One pass of the loop of LoadSegments, byte by byte: map the file part, clear the rest of
      its last page if the segment is writable, map zero pages over what is left. */
  function SegmentByte(b: Backend, file: seq<Byte>, ph: Phdr, bias: Word, a: int, was: Byte): Byte {
    var l := LayoutOf(ph, bias);
    var now := AfterClear(b, file, ph, bias, a, was);
    if l.pageEnd > l.filePageEnd then ZeroMappedByte(b, l.filePageEnd, l.pageEnd, a, now) else now
  }

  /** All passes, in table order. */
  function LoadedByte(b: Backend, file: seq<Byte>, phdrs: seq<Phdr>, bias: Word, a: int, was: Byte): Byte {
    if phdrs == [] then was
    else
      var n := |phdrs| - 1;
      var before := LoadedByte(b, file, phdrs[..n], bias, a, was);
      if phdrs[n].kind == PT_LOAD then SegmentByte(b, file, phdrs[n], bias, a, before) else before
  }

  function LoadedBytes(b: Backend, file: seq<Byte>, phdrs: seq<Phdr>, bias: Word, m: Mem): Mem {
    map a | a in m :: LoadedByte(b, file, phdrs, bias, a, m[a])
  }

  // -------------------------------------------------------- reservations

  predicate Within(a: int, start: Word, size: Word) {
    start <= a < start as int + size
  }

  /** A zero-filled reservation. */
  function Blank(start: Word, size: Word): Mem {
    map a: int | start <= a < start as int + size && Within(a, start, size) :: 0
  }
}
