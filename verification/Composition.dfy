/** The loops over bytes take the steps that the life cycle specifies for memory. */
module Composition {
  import opened Base
  import opened Symbols
  import opened Memory
  import opened Segments
  import opened SegmentTheorems
  import opened ElfReader
  import opened Relocation
  import opened RelocationTheorems
  import opened Lifecycle
  import opened MemoryInvariant

  /** Reserving and loading: with a reservation that was granted, memory becomes what the life cycle
      calls the memory with the image. */
  method MapImage(reader: Reader, os: Answers, image: Image, start: Word) returns (done: bool)
    requires reader.file == image.file && reader.phdrs == image.phdrs
    requires AllCongruent(image.phdrs, image.file) && RoomAt(image.phdrs, start)
    modifies reader, reader.space
    ensures done && os.ok(old(reader.clock)) ==>
              && reader.space.bytes == WithImage(reader.backend, image, start, old(reader.space.bytes))
              && reader.loadStart == start && reader.loadSize == LoadSize(image.phdrs)
              && reader.loadBias == Sub32(start, MinVaddr(image.phdrs))
    ensures (forall t :: os.ok(t)) ==> (done <==>
              LoadSize(image.phdrs) != 0 && AllMappable(reader.backend, image.phdrs, Bias(image.phdrs, start)))
  {
    done := reader.ReserveAddressSpace(os, start);
    if done {
      done := reader.LoadInto(os);
    }
  }

  /** soinfo_relocate of plt_rel and then of rel: the verdict of the life cycle, and its memory. */
  method RelocateBoth(space: AddressSpace, ctx: Context, plt: seq<Rel>, rel: seq<Rel>) returns (ok: bool)
    requires AllFit(ctx, plt + rel, space.bytes)
    requires forall i :: 0 <= i < |ctx.scope| ==> WellFormed(ctx.scope[i].table)
    modifies space
    ensures ok == Accepts(ctx, plt + rel) && space.bytes == AfterPasses(ctx, plt + rel, old(space.bytes))
    ensures space.prot == old(space.prot)
  {
    TwoPasses(ctx, plt, rel, space.bytes);
    AcceptsIsAllAcceptable(ctx, plt + rel, space.bytes);
    var result := RelocateTable(space, ctx, plt);
    if result == 0 {
      result := RelocateTable(space, ctx, rel);
    }
    ok := result == 0;
  }
}
