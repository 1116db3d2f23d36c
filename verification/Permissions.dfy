/** Whether the writes of a relocation pass are permitted by the pages they fall on. */
module Permissions {
  import opened Base
  import opened Memory
  import opened Segments
  import opened Extent
  import opened SegmentTheorems
  import opened Protection
  import opened Relocation
  import opened RelocationTheorems

  function PageOf(a: int): int {
    a - a % PAGE_SIZE
  }

  /** The protection of the page at p while the relocations of a library are applied. */
  function DuringRelocation(phdrs: seq<Phdr>, bias: Word, textRel: bool, p: int, was: Prot): Prot {
    if textRel then Unprotect(phdrs, bias, p, LoadedProt(phdrs, bias, p, was)) else LoadedProt(phdrs, bias, p, was)
  }

  lemma PageInPages(ph: Phdr, d: int, a: int)
    requires d % PAGE_SIZE == 0 && InPages(ph, d, a)
    ensures InPages(ph, d, PageOf(a)) && PageOf(a) % PAGE_SIZE == 0
  {
    PageStartBelow(ph.vaddr);
    AlignedShift(PageLow(ph), d);
    AlignedBound(PageLow(ph) + d, PageOf(a));
  }

  /** A byte of a segment can be written then exactly when the segment is writable or the library
      has text relocations. */
  lemma WritableIff(phdrs: seq<Phdr>, start: Word, file: seq<Byte>, textRel: bool, i: nat, a: int, was: Prot)
    requires AllCongruent(phdrs, file) && Reserved(phdrs, start) && PagesDisjoint(phdrs)
    requires i < |phdrs| && phdrs[i].kind == PT_LOAD && InPages(phdrs[i], start as int - MinVaddr(phdrs), a)
    ensures DuringRelocation(phdrs, Bias(phdrs, start), textRel, PageOf(a), was).w <==> textRel || phdrs[i].flags.w
  {
    var d := start as int - MinVaddr(phdrs);
    LayoutInReservation(phdrs, start, file, i);
    PageInPages(phdrs[i], d, a);
    if textRel {
      UnprotectedIsWritable(phdrs, start, file, i, PageOf(a), was);
    } else {
      ReservationIsExact(phdrs, start, file);
      LoadedPage(phdrs, file, Bias(phdrs, start), d, i, PageOf(a), was);
    }
  }

  /** The byte is on the pages of a segment that may be relocated. */
  predicate InRelocatable(phdrs: seq<Phdr>, d: int, textRel: bool, a: int) {
    exists i :: 0 <= i < |phdrs| && phdrs[i].kind == PT_LOAD && (textRel || phdrs[i].flags.w) && InPages(phdrs[i], d, a)
  }

  /** When every place is on the pages of segments, of writable ones unless the library has text
      relocations, no write of the pass meets a page that forbids it. */
  lemma PassIsPermitted(phdrs: seq<Phdr>, start: Word, file: seq<Byte>, textRel: bool, ctx: Context, rels: seq<Rel>,
                        was: Prot)
    requires AllCongruent(phdrs, file) && Reserved(phdrs, start) && PagesDisjoint(phdrs)
    requires forall i, a :: 0 <= i < |rels| && Covers(ctx, rels[i], a) ==>
               InRelocatable(phdrs, start as int - MinVaddr(phdrs), textRel, a)
    ensures forall i, a :: 0 <= i < |rels| && Covers(ctx, rels[i], a) ==>
              DuringRelocation(phdrs, Bias(phdrs, start), textRel, PageOf(a), was).w
  {
    forall i, a | 0 <= i < |rels| && Covers(ctx, rels[i], a)
      ensures DuringRelocation(phdrs, Bias(phdrs, start), textRel, PageOf(a), was).w
    {
      var d := start as int - MinVaddr(phdrs);
      var k :| 0 <= k < |phdrs| && phdrs[k].kind == PT_LOAD && (textRel || phdrs[k].flags.w) && InPages(phdrs[k], d, a);
      WritableIff(phdrs, start, file, textRel, k, a, was);
    }
  }
}
