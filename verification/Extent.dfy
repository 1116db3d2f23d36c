/** phdr_table_get_load_size: what the wrapping sums make of the extent of the loadable segments. */
module Extent {
  import opened Base
  import opened Memory
  import opened Segments

  // ---------------------------------------------------------------- pages

  lemma PageStartBelow(x: Word)
    ensures PageStart(x) <= x < PageStart(x) + PAGE_SIZE && PageStart(x) % PAGE_SIZE == 0
  {
  }

  /** No wrap below the last page: PAGE_END rounds up. */
  lemma PageEndAbove(x: Word)
    requires x <= 0xffff_f000
    ensures x <= PageEnd(x) < x + PAGE_SIZE && PageEnd(x) % PAGE_SIZE == 0
    ensures PageEnd(x) == PageUp(x)
  {
  }

  /** In the last page PAGE_END wraps to 0, which is the true end mod 2^32. */
  lemma PageEndWraps(x: Word)
    requires x > 0xffff_f000
    ensures PageEnd(x) == 0 && PageUp(x) == WORDS
  {
  }

  lemma PageUpAbove(x: int)
    ensures x <= PageUp(x) < x + PAGE_SIZE && PageUp(x) % PAGE_SIZE == 0
    ensures x % PAGE_SIZE > 0 ==> x + (PAGE_SIZE - x % PAGE_SIZE) == PageUp(x)
  {
  }

  lemma AlignedBound(a: int, b: int)
    requires a % PAGE_SIZE == 0 && b % PAGE_SIZE == 0 && a < b + PAGE_SIZE
    ensures a <= b
  {
  }

  lemma AlignedShift(x: int, d: int)
    requires d % PAGE_SIZE == 0
    ensures (x + d) % PAGE_SIZE == x % PAGE_SIZE
  {
  }

  // ------------------------------------------------------------- the true hull

  // Entry i is a PT_LOAD, by its number.
  predicate IsLoad(phdrs: seq<Phdr>, i: int) {
    0 <= i < |phdrs| && phdrs[i].kind == 1
  }

  /** One past the last byte of an entry, in unbounded arithmetic. */
  function End(ph: Phdr): int {
    ph.vaddr as int + ph.memsz
  }

  /** The greatest end of a PT_LOAD entry. */
  function Top(phdrs: seq<Phdr>): int {
    if phdrs == [] then 0
    else
      var n := |phdrs| - 1;
      if phdrs[n].kind == PT_LOAD && End(phdrs[n]) > Top(phdrs[..n]) then End(phdrs[n]) else Top(phdrs[..n])
  }

  lemma {:induction false} TopIsGreatest(phdrs: seq<Phdr>)
    requires HasLoad(phdrs)
    ensures forall i :: IsLoad(phdrs, i) ==> End(phdrs[i]) <= Top(phdrs)
    ensures exists i :: IsLoad(phdrs, i) && End(phdrs[i]) == Top(phdrs)
  {
    var n := |phdrs| - 1;
    if HasLoad(phdrs[..n]) {
      TopIsGreatest(phdrs[..n]);
      var i :| IsLoad(phdrs[..n], i) && End(phdrs[..n][i]) == Top(phdrs[..n]);
      assert IsLoad(phdrs, i) && End(phdrs[i]) == Top(phdrs[..n]);
      assert forall k :: IsLoad(phdrs, k) && k < n ==> IsLoad(phdrs[..n], k);
    } else {
      NoLoadTop(phdrs[..n]);
      assert forall k :: IsLoad(phdrs, k) && k < n ==> IsLoad(phdrs[..n], k);
      assert IsLoad(phdrs, n);
    }
  }

  lemma {:induction false} NoLoadTop(phdrs: seq<Phdr>)
    requires !HasLoad(phdrs)
    ensures Lowest(phdrs) == 0xffff_ffff && Highest(phdrs) == 0 && Top(phdrs) == 0
  {
    if phdrs != [] {
      var n := |phdrs| - 1;
      assert phdrs[n].kind != PT_LOAD;
      NoLoadTop(phdrs[..n]);
    }
  }

  lemma {:induction false} LowestIsLeast(phdrs: seq<Phdr>)
    requires HasLoad(phdrs)
    ensures forall i :: IsLoad(phdrs, i) ==> Lowest(phdrs) <= phdrs[i].vaddr
    ensures exists i :: IsLoad(phdrs, i) && phdrs[i].vaddr == Lowest(phdrs)
  {
    var n := |phdrs| - 1;
    assert forall k :: IsLoad(phdrs, k) && k < n ==> IsLoad(phdrs[..n], k);
    if HasLoad(phdrs[..n]) {
      LowestIsLeast(phdrs[..n]);
      var i :| IsLoad(phdrs[..n], i) && phdrs[..n][i].vaddr == Lowest(phdrs[..n]);
      assert IsLoad(phdrs, i) && phdrs[i].vaddr == Lowest(phdrs[..n]);
    } else {
      NoLoadTop(phdrs[..n]);
      assert IsLoad(phdrs, n);
    }
  }

  /** What the function returns is the page hull: from the page of the lowest entry, by the size,
      to the end of the last page of the highest. */
  predicate IsHull(phdrs: seq<Phdr>) {
    MinVaddr(phdrs) as int + LoadSize(phdrs) == PageUp(Top(phdrs))
  }

  lemma DifferenceIff(low: Word, end: Word, hull: int)
    requires low <= hull
    ensures low as int + Sub32(end, low) == hull <==> hull - low < WORDS && (hull - end) % WORDS == 0
  {
  }

  /** In terms of what the loop has found: the hull is smaller than the address space and rounding
      up the greatest wrapped end misses the hull's end by a multiple of 2^32. */
  lemma HullFromLoop(phdrs: seq<Phdr>)
    requires HasLoad(phdrs)
    ensures IsHull(phdrs) <==>
            && PageUp(Top(phdrs)) - MinVaddr(phdrs) < WORDS
            && (PageUp(Top(phdrs)) - PageEnd(Highest(phdrs))) % WORDS == 0
  {
    LowestIsLeast(phdrs);
    TopIsGreatest(phdrs);
    PageStartBelow(Lowest(phdrs));
    PageUpAbove(Top(phdrs));
    DifferenceIff(MinVaddr(phdrs), PageEnd(Highest(phdrs)), PageUp(Top(phdrs)));
  }

  /** The end of an entry as the loop computes it. */
  function WrappedEnd(ph: Phdr): Word {
    Add32(ph.vaddr, ph.memsz)
  }

  lemma {:induction false} HighestIsGreatest(phdrs: seq<Phdr>)
    requires HasLoad(phdrs)
    ensures forall i :: IsLoad(phdrs, i) ==> WrappedEnd(phdrs[i]) <= Highest(phdrs)
    ensures exists i :: IsLoad(phdrs, i) && WrappedEnd(phdrs[i]) == Highest(phdrs)
  {
    var n := |phdrs| - 1;
    assert forall k :: IsLoad(phdrs, k) && k < n ==> IsLoad(phdrs[..n], k);
    if HasLoad(phdrs[..n]) {
      HighestIsGreatest(phdrs[..n]);
      var i :| IsLoad(phdrs[..n], i) && WrappedEnd(phdrs[..n][i]) == Highest(phdrs[..n]);
      assert IsLoad(phdrs, i) && WrappedEnd(phdrs[i]) == Highest(phdrs[..n]);
    } else {
      NoLoadTop(phdrs[..n]);
      assert IsLoad(phdrs, n);
    }
  }

  /** Some end lies in the last page of the address space, short of its end. */
  ghost predicate EndsInLastPage(phdrs: seq<Phdr>) {
    exists i :: IsLoad(phdrs, i) && 0xffff_f000 < End(phdrs[i]) < WORDS
  }

  ghost predicate EveryEndWraps(phdrs: seq<Phdr>) {
    forall i :: IsLoad(phdrs, i) ==> End(phdrs[i]) >= WORDS
  }

  /** No end comes near the top; or every end wraps, and so all by the same amount; or the last page
      is the end of the hull, and is seen to be. */
  ghost predicate WrapsTogether(phdrs: seq<Phdr>) {
    || Top(phdrs) <= 0xffff_f000
    || EveryEndWraps(phdrs)
    || (Top(phdrs) <= WORDS && EndsInLastPage(phdrs))
  }

  /** The function returns the page hull exactly when the hull is smaller than the address space and
      the ends of the entries wrap together. */
  lemma HullIff(phdrs: seq<Phdr>)
    requires HasLoad(phdrs)
    ensures IsHull(phdrs) <==> PageUp(Top(phdrs)) - MinVaddr(phdrs) < WORDS && WrapsTogether(phdrs)
  {
    HullFromLoop(phdrs);
    if PageUp(Top(phdrs)) - MinVaddr(phdrs) < WORDS {
      if Top(phdrs) <= 0xffff_f000 {
        LowTop(phdrs);
      } else if EveryEndWraps(phdrs) {
        AllWrap(phdrs);
      } else if Top(phdrs) <= WORDS {
        LastPageIff(phdrs);
      } else {
        SomeWrap(phdrs);
      }
    }
  }

  /** Rounding up misses the end of the hull by a multiple of 2^32. */
  predicate RoundsToHull(phdrs: seq<Phdr>) {
    (PageUp(Top(phdrs)) - PageEnd(Highest(phdrs))) % WORDS == 0
  }

  lemma LowTop(phdrs: seq<Phdr>)
    requires HasLoad(phdrs) && Top(phdrs) <= 0xffff_f000
    ensures RoundsToHull(phdrs)
  {
    TopIsGreatest(phdrs);
    HighestIsGreatest(phdrs);
    PageEndAbove(Highest(phdrs));
  }

  lemma AllWrap(phdrs: seq<Phdr>)
    requires HasLoad(phdrs) && EveryEndWraps(phdrs)
    ensures RoundsToHull(phdrs)
  {
    TopIsGreatest(phdrs);
    HighestIsGreatest(phdrs);
    assert Highest(phdrs) == Top(phdrs) - WORDS;
    if Highest(phdrs) > 0xffff_f000 {
      PageEndWraps(Highest(phdrs));
    } else {
      PageEndAbove(Highest(phdrs));
    }
    PageUpByWords(Highest(phdrs));
  }

  lemma PageUpByWords(x: int)
    ensures PageUp(x + WORDS) == PageUp(x) + WORDS
  {
    AlignedShift(x, WORDS);
  }

  /** The hull ends with the address space. */
  lemma LastPageIff(phdrs: seq<Phdr>)
    requires HasLoad(phdrs) && 0xffff_f000 < Top(phdrs) <= WORDS && !EveryEndWraps(phdrs)
    requires PageUp(Top(phdrs)) - MinVaddr(phdrs) < WORDS
    ensures RoundsToHull(phdrs) <==> EndsInLastPage(phdrs)
  {
    hide Lowest, Highest, Top;
    TopIsGreatest(phdrs);
    HighestIsGreatest(phdrs);
    LowestIsLeast(phdrs);
    PageStartBelow(Lowest(phdrs));
    PageUpAbove(Top(phdrs));
    AlignedBound(WORDS, PageUp(Top(phdrs)));
    AlignedBound(PageUp(Top(phdrs)), WORDS);
    if EndsInLastPage(phdrs) {
      PageEndWraps(Highest(phdrs));
    } else {
      var i :| IsLoad(phdrs, i) && End(phdrs[i]) < WORDS;
      assert WrappedEnd(phdrs[i]) == End(phdrs[i]);
      assert Highest(phdrs) <= 0xffff_f000;
      PageEndAbove(Highest(phdrs));
    }
  }

  /** The hull runs past the address space, and some end does not. */
  lemma SomeWrap(phdrs: seq<Phdr>)
    requires HasLoad(phdrs) && WORDS < Top(phdrs) && !EveryEndWraps(phdrs)
    requires PageUp(Top(phdrs)) - MinVaddr(phdrs) < WORDS
    ensures !RoundsToHull(phdrs)
  {
    hide Lowest, Highest, Top;
    TopIsGreatest(phdrs);
    HighestIsGreatest(phdrs);
    LowestIsLeast(phdrs);
    PageStartBelow(Lowest(phdrs));
    PageUpAbove(Top(phdrs));
    var i :| IsLoad(phdrs, i) && End(phdrs[i]) < WORDS;
    assert WrappedEnd(phdrs[i]) == End(phdrs[i]);
    assert PageUp(Top(phdrs)) - WORDS < Highest(phdrs);
    if Highest(phdrs) > 0xffff_f000 {
      PageEndWraps(Highest(phdrs));
    } else {
      PageEndAbove(Highest(phdrs));
    }
  }

  /** An entry whose end is below 2^32. */
  predicate Bounded(ph: Phdr) {
    End(ph) < WORDS
  }

  ghost predicate AllBounded(phdrs: seq<Phdr>) {
    forall i :: IsLoad(phdrs, i) ==> Bounded(phdrs[i])
  }

  lemma {:induction false} HighestIsTop(phdrs: seq<Phdr>)
    requires AllBounded(phdrs)
    ensures Highest(phdrs) == Top(phdrs)
  {
    if phdrs != [] {
      var n := |phdrs| - 1;
      assert forall i :: IsLoad(phdrs[..n], i) ==> IsLoad(phdrs, i);
      HighestIsTop(phdrs[..n]);
      assert phdrs[n].kind == PT_LOAD ==> IsLoad(phdrs, n);
    }
  }

  /** When no end wraps, the only tables that miss the hull are those that span all memory, from
      the first page to the last: they are taken for nothing to load. */
  lemma HullUnlessAllMemory(phdrs: seq<Phdr>)
    requires HasLoad(phdrs) && AllBounded(phdrs)
    ensures IsHull(phdrs) <==> !(MinVaddr(phdrs) == 0 && Highest(phdrs) > 0xffff_f000)
    ensures !IsHull(phdrs) ==> LoadSize(phdrs) == 0
  {
    LowestIsLeast(phdrs);
    TopIsGreatest(phdrs);
    HighestIsTop(phdrs);
    PageStartBelow(Lowest(phdrs));
    var hi := Highest(phdrs);
    if hi > 0xffff_f000 {
      PageEndWraps(hi);
    } else {
      PageEndAbove(hi);
      AlignedBound(MinVaddr(phdrs), PageEnd(hi));
    }
  }

  /** The extent of a table that has something to load: it holds every entry, and both its ends
      are attained. */
  lemma ExtentIsHull(phdrs: seq<Phdr>)
    requires AllBounded(phdrs) && 0 < LoadSize(phdrs)
    ensures var low, high := MinVaddr(phdrs) as int, MinVaddr(phdrs) as int + LoadSize(phdrs);
            && low % PAGE_SIZE == 0 && high % PAGE_SIZE == 0 && high <= WORDS
            && (forall i :: IsLoad(phdrs, i) ==> low <= phdrs[i].vaddr && End(phdrs[i]) <= high)
            && (exists i :: IsLoad(phdrs, i) && PageStart(phdrs[i].vaddr) == low)
            && (exists i :: IsLoad(phdrs, i) && PageUp(End(phdrs[i])) == high)
  {
    if !HasLoad(phdrs) {
      NoLoadTop(phdrs);
    }
    HullUnlessAllMemory(phdrs);
    LowestIsLeast(phdrs);
    TopIsGreatest(phdrs);
    PageStartBelow(Lowest(phdrs));
    PageUpAbove(Top(phdrs));
    var i :| IsLoad(phdrs, i) && phdrs[i].vaddr == Lowest(phdrs);
    var j :| IsLoad(phdrs, j) && End(phdrs[j]) == Top(phdrs);
    assert PageStart(phdrs[i].vaddr) == MinVaddr(phdrs);
    assert PageUp(End(phdrs[j])) == MinVaddr(phdrs) as int + LoadSize(phdrs);
    AlignedBound(PageUp(Top(phdrs)), WORDS);
  }

  // ------------------------------------------------------------------ inputs

  lemma OneEntry(ph: Phdr)
    requires ph.kind == PT_LOAD
    ensures Lowest([ph]) == ph.vaddr && Top([ph]) == End(ph) && HasLoad([ph])
    ensures Highest([ph]) == Add32(ph.vaddr, ph.memsz)
  {
    assert [ph][0] == ph && [ph][..0] == [];
  }

  /** A lone segment of nearly all memory, its end wrapped, is taken for nothing to load. */
  lemma WrappedEndIsLost(flags: Prot)
    ensures var phdrs := [Phdr(PT_LOAD, 0, 0x1000, 0, 0xffff_f800, flags)];
            !IsHull(phdrs) && LoadSize(phdrs) == 0
  {
    OneEntry(Phdr(PT_LOAD, 0, 0x1000, 0, 0xffff_f800, flags));
  }

  /** Another wrapped end does no harm, and neither does an end in the last page. */
  lemma WrappedEndIsKept(flags: Prot)
    ensures IsHull([Phdr(PT_LOAD, 0, 0xffff_e000, 0, 0x3000, flags)])
    ensures IsHull([Phdr(PT_LOAD, 0, 0xffff_e000, 0, 0x1800, flags)])
  {
    OneEntry(Phdr(PT_LOAD, 0, 0xffff_e000, 0, 0x3000, flags));
    OneEntry(Phdr(PT_LOAD, 0, 0xffff_e000, 0, 0x1800, flags));
  }
}
