/** What a pass of relocations does to memory, and what it does not depend on. */
module RelocationTheorems {
  import opened Base
  import opened Symbols
  import opened Memory
  import opened Relocation

  /** Entries i and j patch different words: no byte in common. */
  predicate Apart(ctx: Context, r: Rel, s: Rel) {
    r.kind == R_ARM_NONE || s.kind == R_ARM_NONE ||
    Place(ctx, r) + 4 <= Place(ctx, s) || Place(ctx, s) + 4 <= Place(ctx, r)
  }

  predicate PlacesDisjoint(ctx: Context, rels: seq<Rel>) {
    forall i, j :: 0 <= i < j < |rels| ==> Apart(ctx, rels[i], rels[j])
  }

  predicate Covers(ctx: Context, r: Rel, a: int) {
    r.kind != R_ARM_NONE && Place(ctx, r) <= a < Place(ctx, r) + 4
  }

  predicate AllAcceptable(ctx: Context, rels: seq<Rel>)
    requires forall i :: 0 <= i < |rels| ==> rels[i].sym < |ctx.table.syms|
  {
    forall i :: 0 <= i < |rels| ==> Acceptable(ctx, rels[i])
  }

  lemma FitsAfter(ctx: Context, rels: seq<Rel>, m: Mem, m': Mem)
    requires AllFit(ctx, rels, m) && m'.Keys == m.Keys && |rels| > 0
    ensures AllFit(ctx, rels[1..], m')
  {
    forall i | 0 <= i < |rels[1..]|
      ensures Fits(ctx, rels[1..][i], m')
    {
      assert Fits(ctx, rels[i + 1], m);
    }
  }

  lemma OneStep(ctx: Context, r: Rel, m: Mem)
    requires Fits(ctx, r, m)
    ensures var m' := RelocateOne(ctx, r, m);
            && m'.Keys == m.Keys
            && (r.kind != R_ARM_NONE ==>
                  ReadWord(m', Place(ctx, r)) == NewWord(ctx, r, ReadWord(m, Place(ctx, r))))
            && (forall a :: a in m && !Covers(ctx, r, a) ==> m'[a] == m[a])
  {
    if r.kind != R_ARM_NONE {
      WriteThenRead(m, Place(ctx, r), NewWord(ctx, r, ReadWord(m, Place(ctx, r))));
    }
  }

  /** A byte that no entry covers is never written, whether or not the pass succeeds. */
  lemma {:induction false} UncoveredByte(ctx: Context, rels: seq<Rel>, m: Mem, a: int)
    requires AllFit(ctx, rels, m) && a in m
    requires forall i :: 0 <= i < |rels| ==> !Covers(ctx, rels[i], a)
    ensures Relocate(ctx, rels, m).0[a] == m[a]
  {
    if rels != [] && Acceptable(ctx, rels[0]) {
      assert Fits(ctx, rels[0], m);
      OneStep(ctx, rels[0], m);
      FitsAfter(ctx, rels, m, RelocateOne(ctx, rels[0], m));
      UncoveredByte(ctx, rels[1..], RelocateOne(ctx, rels[0], m), a);
    }
  }

  lemma UncoveredWord(ctx: Context, rels: seq<Rel>, m: Mem, r: Rel)
    requires AllFit(ctx, rels, m) && Fits(ctx, r, m) && r.kind != R_ARM_NONE
    requires forall i :: 0 <= i < |rels| ==> Apart(ctx, r, rels[i])
    ensures ReadWord(Relocate(ctx, rels, m).0, Place(ctx, r)) == ReadWord(m, Place(ctx, r))
  {
    var p: int := Place(ctx, r);
    forall i, a | 0 <= i < |rels| && p <= a < p + 4
      ensures !Covers(ctx, rels[i], a)
    {
      assert Apart(ctx, r, rels[i]);
    }
    UncoveredByte(ctx, rels, m, p);
    UncoveredByte(ctx, rels, m, p + 1);
    UncoveredByte(ctx, rels, m, p + 2);
    UncoveredByte(ctx, rels, m, p + 3);
  }

  /** The pass returns 0 iff every entry is acceptable by itself. */
  lemma {:induction false} SucceedsIffAcceptable(ctx: Context, rels: seq<Rel>, m: Mem)
    requires AllFit(ctx, rels, m)
    ensures (forall i :: 0 <= i < |rels| ==> Fits(ctx, rels[i], m)) &&
            (Relocate(ctx, rels, m).1 <==> AllAcceptable(ctx, rels))
  {
    if rels != [] {
      assert Fits(ctx, rels[0], m);
      if Acceptable(ctx, rels[0]) {
        var m' := RelocateOne(ctx, rels[0], m);
        FitsAfter(ctx, rels, m, m');
        SucceedsIffAcceptable(ctx, rels[1..], m');
        assert forall i :: 1 <= i < |rels| ==> rels[i] == rels[1..][i - 1];
      }
    }
  }

  lemma UncoveredByOne(ctx: Context, r: Rel, s: Rel, m: Mem)
    requires Fits(ctx, r, m) && Fits(ctx, s, m) && s.kind != R_ARM_NONE && Apart(ctx, r, s)
    ensures ReadWord(RelocateOne(ctx, r, m), Place(ctx, s)) == ReadWord(m, Place(ctx, s))
  {
    OneStep(ctx, r, m);
    var p: int := Place(ctx, s);
    assert !Covers(ctx, r, p) && !Covers(ctx, r, p + 1) && !Covers(ctx, r, p + 2) && !Covers(ctx, r, p + 3);
  }

  /** After a successful pass over disjoint places every place holds its new word, computed
      from the word that was there before the pass. */
  lemma {:induction false} RelocationResult(ctx: Context, rels: seq<Rel>, m: Mem, i: nat)
    requires AllFit(ctx, rels, m) && PlacesDisjoint(ctx, rels) && Relocate(ctx, rels, m).1
    requires i < |rels| && rels[i].kind != R_ARM_NONE
    ensures Fits(ctx, rels[i], m)
    ensures ReadWord(Relocate(ctx, rels, m).0, Place(ctx, rels[i])) ==
            NewWord(ctx, rels[i], ReadWord(m, Place(ctx, rels[i])))
  {
    assert Fits(ctx, rels[0], m) && Fits(ctx, rels[i], m);
    var m' := RelocateOne(ctx, rels[0], m);
    OneStep(ctx, rels[0], m);
    FitsAfter(ctx, rels, m, m');
    if i == 0 {
      forall k | 0 <= k < |rels[1..]|
        ensures Apart(ctx, rels[0], rels[1..][k])
      {
        assert Apart(ctx, rels[0], rels[k + 1]);
      }
      UncoveredWord(ctx, rels[1..], m', rels[0]);
    } else {
      assert PlacesDisjoint(ctx, rels[1..]) by {
        forall j, k | 0 <= j < k < |rels[1..]|
          ensures Apart(ctx, rels[1..][j], rels[1..][k])
        {
          assert Apart(ctx, rels[j + 1], rels[k + 1]);
        }
      }
      assert Apart(ctx, rels[0], rels[i]);
      UncoveredByOne(ctx, rels[0], rels[i], m);
      assert rels[1..][i - 1] == rels[i];
      RelocationResult(ctx, rels[1..], m', i - 1);
    }
  }

  // ------------------------------------------------------------ symbol values

  /** With well-formed indices, the address bound is that of the first library of the scope
      whose symbol table, scanned from end to end, holds a definition. */
  lemma FirstDefinition(ctx: Context, sym: nat)
    requires sym < |ctx.table.syms|
    requires forall i :: 0 <= i < |ctx.scope| ==> WellFormed(ctx.scope[i].table)
    ensures var name, r := ctx.table.syms[sym].name, Definition(ctx, sym);
            && (r.None? ==> forall i, n :: 0 <= i < |ctx.scope| && 1 <= n < |ctx.scope[i].table.syms| ==>
                  !Defines(ctx.scope[i].table.syms[n], name))
            && (r.Some? ==> Defines(ctx.scope[r.value.0].table.syms[r.value.1], name))
            && (r.Some? ==> forall i, n :: 0 <= i < r.value.0 && 1 <= n < |ctx.scope[i].table.syms| ==>
                  !Defines(ctx.scope[i].table.syms[n], name))
  {
    var name := ctx.table.syms[sym].name;
    forall i | 0 <= i < |ctx.scope| {
      LookupRefinesScan(ctx.scope[i].table, name);
    }
  }

  /** A JUMP_SLOT or GLOB_DAT word ends as the address of the first definition, or as zero for
      an unresolved weak reference; the word that was there plays no part. */
  lemma BoundWord(ctx: Context, rels: seq<Rel>, m: Mem, i: nat)
    requires AllFit(ctx, rels, m) && PlacesDisjoint(ctx, rels) && Relocate(ctx, rels, m).1
    requires i < |rels| && rels[i].kind in {R_ARM_JUMP_SLOT, R_ARM_GLOB_DAT} && rels[i].sym != 0
    ensures Fits(ctx, rels[i], m)
    ensures var sym, w := rels[i].sym, ReadWord(Relocate(ctx, rels, m).0, Place(ctx, rels[i]));
            match Definition(ctx, sym)
            case Some(def) => w == DefinedAddress(ctx, def)
            case None => w == 0 && ctx.table.syms[sym].bind == STB_WEAK
  {
    RelocationResult(ctx, rels, m, i);
    SucceedsIffAcceptable(ctx, rels, m);
    assert Acceptable(ctx, rels[i]);
  }

  // ------------------------------------------------------- order independence

  /** The plt_rel pass followed by the rel pass is one pass over both tables. */
  lemma {:induction false} TwoPasses(ctx: Context, plt: seq<Rel>, rel: seq<Rel>, m: Mem)
    requires AllFit(ctx, plt + rel, m)
    ensures AllFit(ctx, plt, m) && AllFit(ctx, rel, Relocate(ctx, plt, m).0)
    ensures Relocate(ctx, plt + rel, m) ==
            if Relocate(ctx, plt, m).1 then Relocate(ctx, rel, Relocate(ctx, plt, m).0)
            else Relocate(ctx, plt, m)
  {
    assert forall i :: 0 <= i < |plt| ==> plt[i] == (plt + rel)[i];
    forall i | 0 <= i < |rel|
      ensures Fits(ctx, rel[i], m)
    {
      assert (plt + rel)[|plt| + i] == rel[i];
    }
    if plt == [] {
      assert plt + rel == rel;
    } else if Acceptable(ctx, plt[0]) {
      assert (plt + rel)[1..] == plt[1..] + rel;
      var m' := RelocateOne(ctx, plt[0], m);
      FitsAfter(ctx, plt + rel, m, m');
      TwoPasses(ctx, plt[1..], rel, m');
    }
  }

  /** A pass that comes to an entry it rejects fails, and leaves what the entries before it have made. */
  lemma RejectedPass(ctx: Context, before: seq<Rel>, rel: Rel, after: seq<Rel>, m: Mem)
    requires AllFit(ctx, before + ([rel] + after), m) && Fits(ctx, rel, m) && !Acceptable(ctx, rel)
    ensures AllFit(ctx, before, m)
    ensures Relocate(ctx, before + ([rel] + after), m) == (Relocate(ctx, before, m).0, false)
  {
    TwoPasses(ctx, before, [rel] + after, m);
  }

  lemma TwoOccurrences(s: seq<Rel>, i: nat, j: nat)
    requires i < j < |s| && s[i] == s[j]
    ensures multiset(s)[s[i]] >= 2
  {
    assert s == s[..j] + s[j..];
    assert s[i] in s[..j] && s[j] == s[j..][0];
  }

  lemma OccurrencesApart(s: seq<Rel>, r: Rel) returns (i: nat, j: nat)
    requires multiset(s)[r] >= 2
    ensures i < j < |s| && s[i] == r && s[j] == r
  {
    var k :| 0 <= k < |s| && s[k] == r;
    assert s == s[..k] + [s[k]] + s[k + 1..];
    if r in s[..k] {
      i, j :| 0 <= i < k && s[i] == r && j == k;
    } else {
      assert r in s[k + 1..];
      var n :| 0 <= n < |s[k + 1..]| && s[k + 1..][n] == r;
      i, j := k, n + k + 1;
    }
  }

  lemma PermutationDisjoint(ctx: Context, a: seq<Rel>, b: seq<Rel>)
    requires multiset(a) == multiset(b) && PlacesDisjoint(ctx, a)
    ensures PlacesDisjoint(ctx, b)
  {
    forall i, j | 0 <= i < j < |b|
      ensures Apart(ctx, b[i], b[j])
    {
      if b[i] == b[j] {
        TwoOccurrences(b, i, j);
        var k, n := OccurrencesApart(a, b[i]);
        assert Apart(ctx, a[k], a[n]);
      } else {
        assert b[i] in multiset(a) && b[j] in multiset(a);
        var k :| 0 <= k < |a| && a[k] == b[i];
        var n :| 0 <= n < |a| && a[n] == b[j];
        assert if k < n then Apart(ctx, a[k], a[n]) else Apart(ctx, a[n], a[k]);
      }
    }
  }

  lemma PermutationFits(ctx: Context, a: seq<Rel>, b: seq<Rel>, m: Mem)
    requires multiset(a) == multiset(b) && AllFit(ctx, a, m)
    ensures AllFit(ctx, b, m)
  {
    forall i | 0 <= i < |b|
      ensures Fits(ctx, b[i], m)
    {
      assert b[i] in multiset(a);
    }
  }

  lemma SameWord(ctx: Context, a: seq<Rel>, b: seq<Rel>, m: Mem, i: nat, j: nat)
    requires AllFit(ctx, a, m) && AllFit(ctx, b, m) && PlacesDisjoint(ctx, a) && PlacesDisjoint(ctx, b)
    requires Relocate(ctx, a, m).1 && Relocate(ctx, b, m).1
    requires i < |a| && j < |b| && a[i] == b[j] && a[i].kind != R_ARM_NONE
    ensures Fits(ctx, a[i], m)
    ensures ReadWord(Relocate(ctx, a, m).0, Place(ctx, a[i])) == ReadWord(Relocate(ctx, b, m).0, Place(ctx, a[i]))
  {
    RelocationResult(ctx, a, m, i);
    RelocationResult(ctx, b, m, j);
  }

  lemma SameByte(ctx: Context, a: seq<Rel>, b: seq<Rel>, m: Mem, x: int)
    requires AllFit(ctx, a, m) && AllFit(ctx, b, m) && x in m
    requires PlacesDisjoint(ctx, a) && PlacesDisjoint(ctx, b) && multiset(a) == multiset(b)
    requires Relocate(ctx, a, m).1 && Relocate(ctx, b, m).1
    ensures Relocate(ctx, a, m).0[x] == Relocate(ctx, b, m).0[x]
  {
    if i :| 0 <= i < |a| && Covers(ctx, a[i], x) {
      assert a[i] in multiset(b);
      var j :| 0 <= j < |b| && b[j] == a[i];
      SameWord(ctx, a, b, m, i, j);
      SameWordSameByte(Relocate(ctx, a, m).0, Relocate(ctx, b, m).0, Place(ctx, a[i]), x);
    } else {
      forall j | 0 <= j < |b|
        ensures !Covers(ctx, b[j], x)
      {
        assert b[j] in multiset(a);
      }
      UncoveredByte(ctx, a, m, x);
      UncoveredByte(ctx, b, m, x);
    }
  }

  /** Any rearrangement of the entries over the two tables gives the same verdict, and the same
      memory when it is success. */
  lemma OrderIndependence(ctx: Context, plt: seq<Rel>, rel: seq<Rel>, plt': seq<Rel>, rel': seq<Rel>, m: Mem)
    requires AllFit(ctx, plt + rel, m) && PlacesDisjoint(ctx, plt + rel)
    requires multiset(plt + rel) == multiset(plt' + rel')
    ensures AllFit(ctx, plt' + rel', m)
    ensures var r, r' := Relocate(ctx, plt + rel, m), Relocate(ctx, plt' + rel', m);
            r.1 == r'.1 && (r.1 ==> r == r')
  {
    var a, b := plt + rel, plt' + rel';
    PermutationFits(ctx, a, b, m);
    PermutationDisjoint(ctx, a, b);
    SucceedsIffAcceptable(ctx, a, m);
    SucceedsIffAcceptable(ctx, b, m);
    forall i | 0 <= i < |b|
      ensures b[i] in a
    {
      assert b[i] in multiset(a);
    }
    forall i | 0 <= i < |a|
      ensures a[i] in b
    {
      assert a[i] in multiset(b);
    }
    assert AllAcceptable(ctx, a) <==> AllAcceptable(ctx, b);
    if Relocate(ctx, a, m).1 {
      forall x | x in m
        ensures Relocate(ctx, a, m).0[x] == Relocate(ctx, b, m).0[x]
      {
        SameByte(ctx, a, b, m, x);
      }
      assert Relocate(ctx, a, m).0 == Relocate(ctx, b, m).0;
    }
  }

  // ----------------------------------------------------------------- rebasing

  /** m' holds m, moved by d bytes. */
  predicate Moved(m: Mem, m': Mem, d: int) {
    forall a :: a in m ==> a + d in m' && m'[a + d] == m[a]
  }

  predicate AllWithin(m: Mem, base: int, size: int) {
    0 <= base && base + size <= WORDS && forall a :: a in m ==> base <= a < base + size
  }

  function Rebased(ctx: Context, d: int): Context
    requires -WORDS < d < WORDS
  {
    ctx.(base := Add32(ctx.base, Wrap(d)), bias := Add32(ctx.bias, Wrap(d)))
  }

  lemma PlaceMoves(ctx: Context, r: Rel, m: Mem, d: int, size: int)
    requires Fits(ctx, r, m) && r.kind != R_ARM_NONE
    requires AllWithin(m, ctx.base, size) && -WORDS < d < WORDS && 0 <= ctx.base + d && ctx.base + d + size <= WORDS
    ensures Place(Rebased(ctx, d), r) == Place(ctx, r) + d
  {
    var p := Place(ctx, r);
    assert p in m;
  }

  lemma FitsMoves(ctx: Context, r: Rel, m: Mem, m': Mem, d: int, size: int)
    requires Fits(ctx, r, m) && Moved(m, m', d)
    requires AllWithin(m, ctx.base, size) && -WORDS < d < WORDS && 0 <= ctx.base + d && ctx.base + d + size <= WORDS
    ensures Fits(Rebased(ctx, d), r, m')
  {
    if r.kind != R_ARM_NONE {
      PlaceMoves(ctx, r, m, d, size);
      var p := Place(ctx, r);
      assert p + d in m' && p + 1 + d in m' && p + 2 + d in m' && p + 3 + d in m';
    }
  }

  /** The preconditions of a pass survive the move, and so does the verdict. */
  lemma PassMoves(ctx: Context, rels: seq<Rel>, m: Mem, m': Mem, d: int, size: int)
    requires AllFit(ctx, rels, m) && PlacesDisjoint(ctx, rels) && Moved(m, m', d)
    requires AllWithin(m, ctx.base, size) && -WORDS < d < WORDS && 0 <= ctx.base + d && ctx.base + d + size <= WORDS
    ensures AllFit(Rebased(ctx, d), rels, m') && PlacesDisjoint(Rebased(ctx, d), rels)
    ensures Relocate(Rebased(ctx, d), rels, m').1 == Relocate(ctx, rels, m).1
  {
    var ctx' := Rebased(ctx, d);
    forall i | 0 <= i < |rels|
      ensures Fits(ctx', rels[i], m') && Acceptable(ctx', rels[i]) == Acceptable(ctx, rels[i])
      ensures rels[i].kind != R_ARM_NONE ==> Place(ctx', rels[i]) == Place(ctx, rels[i]) + d
    {
      assert Fits(ctx, rels[i], m);
      FitsMoves(ctx, rels[i], m, m', d, size);
      if rels[i].kind != R_ARM_NONE {
        PlaceMoves(ctx, rels[i], m, d, size);
      }
    }
    forall i, j | 0 <= i < j < |rels|
      ensures Apart(ctx', rels[i], rels[j])
    {
      assert Apart(ctx, rels[i], rels[j]);
    }
    SucceedsIffAcceptable(ctx, rels, m);
    SucceedsIffAcceptable(ctx', rels, m');
  }

  lemma WordMoves(m: Mem, m': Mem, d: int, p: int)
    requires Moved(m, m', d) && HasWord(m, p)
    ensures HasWord(m', p + d) && ReadWord(m', p + d) == ReadWord(m, p)
  {
    assert m'[p + d] == m[p] && m'[p + 1 + d] == m[p + 1] && m'[p + 2 + d] == m[p + 2] && m'[p + 3 + d] == m[p + 3];
  }

  lemma NewWordMoves(ctx: Context, r: Rel, w: Word, d: int)
    requires r.sym < |ctx.table.syms| && -WORDS < d < WORDS
    ensures NewWord(Rebased(ctx, d), r, w) ==
            if r.kind == R_ARM_RELATIVE then Add32(NewWord(ctx, r, w), Wrap(d)) else NewWord(ctx, r, w)
  {
    assert SymbolAddress(Rebased(ctx, d), r) == SymbolAddress(ctx, r);
  }

  /** One image relocated at two bases, its providers at the same addresses: the words at
      RELATIVE places differ by exactly the distance, all other patched words agree, REL32
      included, since it subtracts the entry's offset and not its address. */
  lemma RebasedWord(ctx: Context, rels: seq<Rel>, m: Mem, m': Mem, d: int, size: int, i: nat)
    requires AllFit(ctx, rels, m) && PlacesDisjoint(ctx, rels) && Moved(m, m', d)
    requires AllWithin(m, ctx.base, size) && -WORDS < d < WORDS && 0 <= ctx.base + d && ctx.base + d + size <= WORDS
    requires Relocate(ctx, rels, m).1
    requires i < |rels| && rels[i].kind != R_ARM_NONE
    ensures Fits(ctx, rels[i], m)
    ensures AllFit(Rebased(ctx, d), rels, m') && HasWord(m', Place(ctx, rels[i]) + d)
    ensures var w := ReadWord(Relocate(ctx, rels, m).0, Place(ctx, rels[i]));
            var w' := ReadWord(Relocate(Rebased(ctx, d), rels, m').0, Place(ctx, rels[i]) + d);
            w' == if rels[i].kind == R_ARM_RELATIVE then Add32(w, Wrap(d)) else w
  {
    var before := CommonOrigin(ctx, rels, m, m', d, size, i);
    NewWordMoves(ctx, rels[i], before, d);
  }

  lemma CommonOrigin(ctx: Context, rels: seq<Rel>, m: Mem, m': Mem, d: int, size: int, i: nat) returns (before: Word)
    requires AllFit(ctx, rels, m) && PlacesDisjoint(ctx, rels) && Moved(m, m', d)
    requires AllWithin(m, ctx.base, size) && -WORDS < d < WORDS && 0 <= ctx.base + d && ctx.base + d + size <= WORDS
    requires Relocate(ctx, rels, m).1
    requires i < |rels| && rels[i].kind != R_ARM_NONE
    ensures Fits(ctx, rels[i], m)
    ensures AllFit(Rebased(ctx, d), rels, m') && HasWord(m', Place(ctx, rels[i]) + d)
    ensures ReadWord(Relocate(ctx, rels, m).0, Place(ctx, rels[i])) == NewWord(ctx, rels[i], before)
    ensures ReadWord(Relocate(Rebased(ctx, d), rels, m').0, Place(ctx, rels[i]) + d) ==
            NewWord(Rebased(ctx, d), rels[i], before)
  {
    PassMoves(ctx, rels, m, m', d, size);
    RelocationResult(ctx, rels, m, i);
    before := ReadWord(m, Place(ctx, rels[i]));
    MovedPlace(ctx, rels[i], m, m', d, size);
    RebasedResult(Rebased(ctx, d), rels, m', i, Place(ctx, rels[i]) + d);
  }

  lemma MovedPlace(ctx: Context, r: Rel, m: Mem, m': Mem, d: int, size: int)
    requires Fits(ctx, r, m) && r.kind != R_ARM_NONE && Moved(m, m', d)
    requires AllWithin(m, ctx.base, size) && -WORDS < d < WORDS && 0 <= ctx.base + d && ctx.base + d + size <= WORDS
    ensures Place(Rebased(ctx, d), r) == Place(ctx, r) + d
    ensures HasWord(m', Place(ctx, r) + d)
    ensures ReadWord(m', Place(ctx, r) + d) == ReadWord(m, Place(ctx, r))
  {
    PlaceMoves(ctx, r, m, d, size);
    WordMoves(m, m', d, Place(ctx, r));
  }

  lemma RebasedResult(ctx: Context, rels: seq<Rel>, m: Mem, i: nat, p: int)
    requires AllFit(ctx, rels, m) && PlacesDisjoint(ctx, rels) && Relocate(ctx, rels, m).1
    requires i < |rels| && rels[i].kind != R_ARM_NONE && Place(ctx, rels[i]) == p
    ensures Fits(ctx, rels[i], m)
    ensures ReadWord(Relocate(ctx, rels, m).0, p) == NewWord(ctx, rels[i], ReadWord(m, p))
  {
    RelocationResult(ctx, rels, m, i);
  }

  /** Outside the patched words the two images agree byte for byte. */
  lemma RebasedByte(ctx: Context, rels: seq<Rel>, m: Mem, m': Mem, d: int, size: int, a: int)
    requires AllFit(ctx, rels, m) && PlacesDisjoint(ctx, rels) && Moved(m, m', d)
    requires AllWithin(m, ctx.base, size) && -WORDS < d < WORDS && 0 <= ctx.base + d && ctx.base + d + size <= WORDS
    requires a in m && forall i :: 0 <= i < |rels| ==> !Covers(ctx, rels[i], a)
    ensures AllFit(Rebased(ctx, d), rels, m') && a + d in m'
    ensures Relocate(Rebased(ctx, d), rels, m').0[a + d] == Relocate(ctx, rels, m).0[a]
  {
    forall i | 0 <= i < |rels|
      ensures !Covers(Rebased(ctx, d), rels[i], a + d)
    {
      assert Fits(ctx, rels[i], m);
      if rels[i].kind != R_ARM_NONE {
        PlaceMoves(ctx, rels[i], m, d, size);
        assert !Covers(ctx, rels[i], a);
      }
    }
    PassMoves(ctx, rels, m, m', d, size);
    UncoveredByte(ctx, rels, m, a);
    UncoveredByte(Rebased(ctx, d), rels, m', a + d);
  }

  // ------------------------------------------- where the code leaves the ARM ABI

  /** The ARM ABI's R_ARM_REL32 is S + A - P, P being the address of the place. The code
      computes that, whatever the addend, exactly when the load bias is zero. */
  lemma Rel32IsPlaceRelativeIffUnbiased(ctx: Context, r: Rel, addend: Word)
    requires r.sym < |ctx.table.syms| && r.kind == R_ARM_REL32
    ensures NewWord(ctx, r, addend) == Sub32(Add32(SymbolAddress(ctx, r), addend), Place(ctx, r))
            <==> ctx.bias == 0
  {
    WordsCancel(SymbolAddress(ctx, r), addend, r.offset, ctx.bias);
  }

  lemma WordsCancel(s: Word, a: Word, o: Word, b: Word)
    ensures Add32(a, Sub32(s, o)) == Sub32(Add32(s, a), Add32(o, b)) <==> b == 0
  {
  }

  /** R_ARM_RELATIVE moves an address of the file by the load bias, as every other address of
      the library, exactly when base and bias coincide: when the lowest loaded page is page 0. */
  lemma RelativeFollowsBiasIffBaseIsBias(ctx: Context, r: Rel, addend: Word)
    requires r.sym < |ctx.table.syms| && r.kind == R_ARM_RELATIVE
    ensures NewWord(ctx, r, addend) == Add32(addend, ctx.bias) <==> ctx.base == ctx.bias
  {
    assert NewWord(ctx, r, addend) == Add32(addend, ctx.base);
  }
}
