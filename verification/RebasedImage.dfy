/** One image, loaded and relocated at two addresses. */
module RebasedImage {
  import opened Base
  import opened Memory
  import opened Symbols
  import opened Segments
  import opened SegmentTheorems
  import opened Relocation
  import opened RelocationTheorems

  /** The reservation once the segments are loaded. */
  function ImageAt(b: Backend, file: seq<Byte>, phdrs: seq<Phdr>, start: Word): Mem {
    LoadedBytes(b, file, phdrs, Bias(phdrs, start), Blank(start, LoadSize(phdrs)))
  }

  /** Loading at another address moves the image, byte for byte. */
  lemma ImageMoves(b: Backend, file: seq<Byte>, phdrs: seq<Phdr>, start: Word, start': Word)
    requires Usable(b, start) && Usable(b, start')
    requires AllCongruent(phdrs, file) && Reserved(phdrs, start) && Reserved(phdrs, start')
    ensures Moved(ImageAt(b, file, phdrs, start), ImageAt(b, file, phdrs, start'), start' as int - start)
    ensures AllWithin(ImageAt(b, file, phdrs, start), start, LoadSize(phdrs))
  {
    var m := ImageAt(b, file, phdrs, start);
    forall a | a in m
      ensures a + (start' as int - start) in ImageAt(b, file, phdrs, start')
      ensures ImageAt(b, file, phdrs, start')[a + (start' as int - start)] == m[a]
    {
      ByteMoves(b, file, phdrs, start, start', a);
    }
  }

  lemma ByteMoves(b: Backend, file: seq<Byte>, phdrs: seq<Phdr>, start: Word, start': Word, a: int)
    requires Usable(b, start) && Usable(b, start')
    requires AllCongruent(phdrs, file) && Reserved(phdrs, start) && Reserved(phdrs, start')
    requires Within(a, start, LoadSize(phdrs))
    ensures a in ImageAt(b, file, phdrs, start)
    ensures a + (start' as int - start) in ImageAt(b, file, phdrs, start')
    ensures ImageAt(b, file, phdrs, start')[a + (start' as int - start)] == ImageAt(b, file, phdrs, start)[a]
  {
    assert Within(a + (start' as int - start), start', LoadSize(phdrs));
    LoadedByteMoves(b, file, phdrs, start, start', |phdrs|, a, 0);
    assert phdrs[..|phdrs|] == phdrs;
  }

  /** The library at its address, with its providers where they are. */
  function ContextAt(phdrs: seq<Phdr>, table: SymTable, scope: seq<Provider>, start: Word): Context {
    Context(table, start, Bias(phdrs, start), scope)
  }

  lemma ContextMoves(phdrs: seq<Phdr>, table: SymTable, scope: seq<Provider>, start: Word, start': Word)
    ensures ContextAt(phdrs, table, scope, start') ==
            Rebased(ContextAt(phdrs, table, scope, start), start' as int - start)
  {
  }

  /** The image loaded and relocated. */
  function LinkedAt(b: Backend, file: seq<Byte>, phdrs: seq<Phdr>, table: SymTable, scope: seq<Provider>,
                    rels: seq<Rel>, start: Word): (Mem, bool)
    requires AllFit(ContextAt(phdrs, table, scope, start), rels, ImageAt(b, file, phdrs, start))
  {
    Relocate(ContextAt(phdrs, table, scope, start), rels, ImageAt(b, file, phdrs, start))
  }

  /** The words at a place and at the place moved by d. */
  predicate DiffersAt(m: Mem, m': Mem, p: int, d: int, relative: bool)
    requires -WORDS < d < WORDS
  {
    HasWord(m, p) && HasWord(m', p + d) &&
    ReadWord(m', p + d) == if relative then Add32(ReadWord(m, p), Wrap(d)) else ReadWord(m, p)
  }

  /** Position by position the images differ by exactly d, mod 2^32, in the words at RELATIVE
      places, and nowhere else. */
  predicate DifferBy(ctx: Context, rels: seq<Rel>, m: Mem, m': Mem, d: int)
    requires -WORDS < d < WORDS
  {
    PatchedDiffer(ctx, rels, m, m', d) && AgreeElsewhere(ctx, rels, m, m', d)
  }

  predicate PatchedDiffer(ctx: Context, rels: seq<Rel>, m: Mem, m': Mem, d: int)
    requires -WORDS < d < WORDS
  {
    forall i :: 0 <= i < |rels| && rels[i].kind != R_ARM_NONE ==>
      DiffersAt(m, m', Place(ctx, rels[i]), d, rels[i].kind == R_ARM_RELATIVE)
  }

  predicate AgreeElsewhere(ctx: Context, rels: seq<Rel>, m: Mem, m': Mem, d: int) {
    forall a :: a in m ==> Patched(ctx, rels, a) || (a + d in m' && m'[a + d] == m[a])
  }

  predicate Patched(ctx: Context, rels: seq<Rel>, a: int) {
    exists i :: 0 <= i < |rels| && Covers(ctx, rels[i], a)
  }

  lemma PassesDiffer(ctx: Context, rels: seq<Rel>, m: Mem, m': Mem, d: int, size: int)
    requires AllFit(ctx, rels, m) && PlacesDisjoint(ctx, rels) && Moved(m, m', d)
    requires AllWithin(m, ctx.base, size) && -WORDS < d < WORDS && 0 <= ctx.base + d && ctx.base + d + size <= WORDS
    ensures AllFit(Rebased(ctx, d), rels, m')
    ensures var r, r' := Relocate(ctx, rels, m), Relocate(Rebased(ctx, d), rels, m');
            r.1 == r'.1 && (r.1 ==> DifferBy(ctx, rels, r.0, r'.0, d))
  {
    PassMoves(ctx, rels, m, m', d, size);
    if Relocate(ctx, rels, m).1 {
      WordsDiffer(ctx, rels, m, m', d, size);
      RestAgrees(ctx, rels, m, m', d, size);
    }
  }

  lemma WordsDiffer(ctx: Context, rels: seq<Rel>, m: Mem, m': Mem, d: int, size: int)
    requires AllFit(ctx, rels, m) && PlacesDisjoint(ctx, rels) && Moved(m, m', d)
    requires AllWithin(m, ctx.base, size) && -WORDS < d < WORDS && 0 <= ctx.base + d && ctx.base + d + size <= WORDS
    requires AllFit(Rebased(ctx, d), rels, m') && Relocate(ctx, rels, m).1
    ensures PatchedDiffer(ctx, rels, Relocate(ctx, rels, m).0, Relocate(Rebased(ctx, d), rels, m').0, d)
  {
    forall i | 0 <= i < |rels| && rels[i].kind != R_ARM_NONE
      ensures DiffersAt(Relocate(ctx, rels, m).0, Relocate(Rebased(ctx, d), rels, m').0, Place(ctx, rels[i]), d,
                        rels[i].kind == R_ARM_RELATIVE)
    {
      RebasedWord(ctx, rels, m, m', d, size, i);
    }
  }

  lemma RestAgrees(ctx: Context, rels: seq<Rel>, m: Mem, m': Mem, d: int, size: int)
    requires AllFit(ctx, rels, m) && PlacesDisjoint(ctx, rels) && Moved(m, m', d)
    requires AllWithin(m, ctx.base, size) && -WORDS < d < WORDS && 0 <= ctx.base + d && ctx.base + d + size <= WORDS
    requires AllFit(Rebased(ctx, d), rels, m')
    ensures AgreeElsewhere(ctx, rels, Relocate(ctx, rels, m).0, Relocate(Rebased(ctx, d), rels, m').0, d)
  {
    forall a | a in m && !Patched(ctx, rels, a)
      ensures a + d in m' && Relocate(Rebased(ctx, d), rels, m').0[a + d] == Relocate(ctx, rels, m).0[a]
    {
      RebasedByte(ctx, rels, m, m', d, size, a);
    }
  }

  /** Loading and relocating one image at two page-aligned addresses, with its providers at the
      same addresses both times: relocation succeeds at both or at neither, and then the two
      images differ by exactly the distance at RELATIVE places and agree elsewhere. */
  lemma LinkedTwice(b: Backend, file: seq<Byte>, phdrs: seq<Phdr>, table: SymTable, scope: seq<Provider>,
                    rels: seq<Rel>, start: Word, start': Word)
    requires Usable(b, start) && Usable(b, start')
    requires AllCongruent(phdrs, file) && Reserved(phdrs, start) && Reserved(phdrs, start')
    requires AllFit(ContextAt(phdrs, table, scope, start), rels, ImageAt(b, file, phdrs, start))
    requires PlacesDisjoint(ContextAt(phdrs, table, scope, start), rels)
    ensures AllFit(ContextAt(phdrs, table, scope, start'), rels, ImageAt(b, file, phdrs, start'))
    ensures var r := LinkedAt(b, file, phdrs, table, scope, rels, start);
            var r' := LinkedAt(b, file, phdrs, table, scope, rels, start');
            && r.1 == r'.1
            && (r.1 ==> DifferBy(ContextAt(phdrs, table, scope, start), rels, r.0, r'.0, start' as int - start))
  {
    var ctx, d := ContextAt(phdrs, table, scope, start), start' as int - start;
    ImageMoves(b, file, phdrs, start, start');
    ContextMoves(phdrs, table, scope, start, start');
    PassesDiffer(ctx, rels, ImageAt(b, file, phdrs, start), ImageAt(b, file, phdrs, start'), d, LoadSize(phdrs));
  }
}
