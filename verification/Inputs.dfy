/** Files that the loader accepts, for the inputs on which a property fails. */
module Inputs {
  import opened Base
  import opened Memory
  import opened Segments
  import opened Extent
  import opened SegmentTheorems
  import opened HeaderTable
  import opened Lifecycle

  // One writable page at this address: the 84 bytes of header and table, and zeros.
  function PageAt(vaddr: Word): (phdrs: seq<Phdr>)
    ensures Announceable(phdrs) && |phdrs| == 1
  {
    [Phdr(PT_LOAD, 0, vaddr, 84, 0x1000, Prot(true, true, false))]
  }

  /** The image of a file that has nothing but that page. */
  function PageImage(vaddr: Word): Image {
    LIBDL_IMAGE.(file := ElfFile(PageAt(vaddr)), phdrs := PageAt(vaddr), dynamic := true)
  }

  /** The headers were read from the file, and its segments are as the loader wants them. */
  predicate IsFile(image: Image) {
    ReadFrom(image.file, 52, image.phdrs) && AllCongruent(image.phdrs, image.file)
  }

  lemma PageIsFile(vaddr: Word)
    requires vaddr % PAGE_SIZE == 0 && vaddr < 0xffff_0000
    ensures IsFile(PageImage(vaddr)) && LoadSize(PageAt(vaddr)) == 0x1000 && MinVaddr(PageAt(vaddr)) == vaddr
  {
    hide ElfFile, ReadFrom;
    var phdrs := PageAt(vaddr);
    EveryTableHasAFile(phdrs, []);
    assert ElfFile(phdrs) + [] == ElfFile(phdrs);
    OneEntry(phdrs[0]);
    AlignedShift(0x1000, vaddr);
  }

  lemma SameFile(a: Image, b: Image)
    requires IsFile(a) && b.file == a.file && b.phdrs == a.phdrs
    ensures IsFile(b)
  {
  }
}
