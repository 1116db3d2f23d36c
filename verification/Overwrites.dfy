/** When the passes of one library leave the slots of the others intact, wherever its places lie. */
module Overwrites {
  import opened Base
  import opened Memory
  import opened Relocation
  import opened RelocationTheorems
  import opened Lifecycle
  import opened LoadingInvariant
  import opened BoundSlots
  import opened MemoryInvariant

  // ----------------------------------------------------------------- one word

  /** What the entry writes over byte a. */
  function NewByte(ctx: Context, rel: Rel, m: Mem, a: int): Byte
    requires Fits(ctx, rel, m) && Covers(ctx, rel, a)
  {
    ByteOf(NewWord(ctx, rel, ReadWord(m, Place(ctx, rel))), a - Place(ctx, rel))
  }

  /** The entry does not touch byte a, or writes there what is there already. */
  predicate Spares(ctx: Context, rel: Rel, m: Mem, a: int)
    requires Fits(ctx, rel, m)
  {
    Covers(ctx, rel, a) ==> a in m && NewByte(ctx, rel, m, a) == m[a]
  }

  predicate AllSpare(ctx: Context, rels: seq<Rel>, m: Mem, a: int)
    requires AllFit(ctx, rels, m)
  {
    forall i :: 0 <= i < |rels| ==> FitsAt(ctx, rels, m, i) && Spares(ctx, rels[i], m, a)
  }

  predicate FitsAt(ctx: Context, rels: seq<Rel>, m: Mem, i: nat)
    requires i < |rels|
  {
    Fits(ctx, rels[i], m)
  }

  lemma CoveredByte(ctx: Context, rels: seq<Rel>, m: Mem, i: nat, a: int)
    requires AllFit(ctx, rels, m) && PlacesDisjoint(ctx, rels) && Relocate(ctx, rels, m).1
    requires i < |rels| && Covers(ctx, rels[i], a)
    ensures Fits(ctx, rels[i], m) && a in m && Relocate(ctx, rels, m).0[a] == NewByte(ctx, rels[i], m, a)
  {
    hide ByteOf, ReadWord, NewWord, PlacesDisjoint, Relocate;
    RelocationResult(ctx, rels, m, i);
    WordByte(Relocate(ctx, rels, m).0, Place(ctx, rels[i]), a);
  }

  lemma WordByte(m: Mem, p: int, a: int)
    requires HasWord(m, p) && p <= a < p + 4
    ensures m[a] == ByteOf(ReadWord(m, p), a - p)
  {
    JoinThenSplit(m[p], m[p + 1], m[p + 2], m[p + 3]);
  }

  /** A byte survives a successful pass over disjoint places exactly when all entries spare it. */
  lemma ByteSurvivesIff(ctx: Context, rels: seq<Rel>, m: Mem, a: int)
    requires AllFit(ctx, rels, m) && PlacesDisjoint(ctx, rels) && Relocate(ctx, rels, m).1 && a in m
    ensures Relocate(ctx, rels, m).0[a] == m[a] <==> AllSpare(ctx, rels, m, a)
  {
    hide NewByte, NewWord;
    forall i | 0 <= i < |rels|
      ensures FitsAt(ctx, rels, m, i)
    {
      assert Fits(ctx, rels[i], m);
    }
    if i :| 0 <= i < |rels| && Covers(ctx, rels[i], a) {
      CoveredByte(ctx, rels, m, i, a);
      forall j | 0 <= j < |rels| && j != i
        ensures !Covers(ctx, rels[j], a)
      {
        assert if i < j then Apart(ctx, rels[i], rels[j]) else Apart(ctx, rels[j], rels[i]);
      }
    } else {
      UncoveredByte(ctx, rels, m, a);
    }
  }

  // ------------------------------------------------------------- failing passes

  /** The entries that the pass applies: those before the first that it rejects. */
  function Taken(ctx: Context, rels: seq<Rel>): (r: seq<Rel>)
    ensures r <= rels
  {
    if rels == [] || rels[0].sym >= |ctx.table.syms| || !Acceptable(ctx, rels[0]) then []
    else [rels[0]] + Taken(ctx, rels[1..])
  }

  /** A pass, failing or not, is the successful pass over those. */
  lemma {:induction false} PassIsTaken(ctx: Context, rels: seq<Rel>, m: Mem)
    requires AllFit(ctx, rels, m)
    ensures AllFit(ctx, Taken(ctx, rels), m)
    ensures Relocate(ctx, Taken(ctx, rels), m) == (Relocate(ctx, rels, m).0, true)
  {
    if rels != [] {
      assert Fits(ctx, rels[0], m);
      if Acceptable(ctx, rels[0]) {
        var m' := RelocateOne(ctx, rels[0], m);
        FitsAfter(ctx, rels, m, m');
        PassIsTaken(ctx, rels[1..], m');
        TakenFits(ctx, rels, m);
        assert Taken(ctx, rels)[1..] == Taken(ctx, rels[1..]);
      }
    }
  }

  lemma TakenFits(ctx: Context, rels: seq<Rel>, m: Mem)
    requires AllFit(ctx, rels, m)
    ensures AllFit(ctx, Taken(ctx, rels), m)
  {
    forall i | 0 <= i < |Taken(ctx, rels)|
      ensures Fits(ctx, Taken(ctx, rels)[i], m)
    {
      assert Taken(ctx, rels)[i] == rels[i] && Fits(ctx, rels[i], m);
    }
  }

  lemma TakenDisjoint(ctx: Context, rels: seq<Rel>)
    requires PlacesDisjoint(ctx, rels)
    ensures PlacesDisjoint(ctx, Taken(ctx, rels))
  {
    forall i, j | 0 <= i < j < |Taken(ctx, rels)|
      ensures Apart(ctx, Taken(ctx, rels)[i], Taken(ctx, rels)[j])
    {
      assert Apart(ctx, rels[i], rels[j]);
    }
  }

  /** Every entry that the pass applies spares the four bytes of the word. */
  predicate WordSpared(ctx: Context, rels: seq<Rel>, m: Mem, p: int)
    requires AllFit(ctx, Taken(ctx, rels), m)
  {
    var taken := Taken(ctx, rels);
    AllSpare(ctx, taken, m, p) && AllSpare(ctx, taken, m, p + 1) &&
    AllSpare(ctx, taken, m, p + 2) && AllSpare(ctx, taken, m, p + 3)
  }

  lemma SameWordIff(m: Mem, m': Mem, p: int)
    requires HasWord(m, p) && HasWord(m', p)
    ensures ReadWord(m', p) == ReadWord(m, p) <==>
            m'[p] == m[p] && m'[p + 1] == m[p + 1] && m'[p + 2] == m[p + 2] && m'[p + 3] == m[p + 3]
  {
    JoinThenSplit(m[p], m[p + 1], m[p + 2], m[p + 3]);
    JoinThenSplit(m'[p], m'[p + 1], m'[p + 2], m'[p + 3]);
  }

  /** A word survives a pass over disjoint places, successful or not, exactly when the entries applied
      write into it, if anything, the bytes that it has. */
  lemma WordSurvivesIff(ctx: Context, rels: seq<Rel>, m: Mem, p: int)
    requires AllFit(ctx, rels, m) && PlacesDisjoint(ctx, rels) && HasWord(m, p)
    ensures AllFit(ctx, Taken(ctx, rels), m) && HasWord(Relocate(ctx, rels, m).0, p)
    ensures ReadWord(Relocate(ctx, rels, m).0, p) == ReadWord(m, p) <==> WordSpared(ctx, rels, m, p)
  {
    hide Relocate, Taken, AllFit, PlacesDisjoint, AllSpare, ReadWord;
    var taken := Taken(ctx, rels);
    PassIsTaken(ctx, rels, m);
    TakenDisjoint(ctx, rels);
    ByteSurvivesIff(ctx, taken, m, p);
    ByteSurvivesIff(ctx, taken, m, p + 1);
    ByteSurvivesIff(ctx, taken, m, p + 2);
    ByteSurvivesIff(ctx, taken, m, p + 3);
    SameWordIff(m, Relocate(ctx, rels, m).0, p);
  }

  // ----------------------------------------------------------- the other libraries

  // Slot i of library x.
  predicate IsSlotOf(st: State, x: nat, i: nat) {
    x in st.libs && i < |st.libs[x].bindings| && SlotKind(st.libs[x].bindings[i].kind)
  }

  predicate SlotHolds(st: State, x: nat, i: nat) {
    IsSlotOf(st, x, i) ==>
      var b := st.libs[x].bindings[i];
      HasWord(st.bytes, b.place) && ReadWord(st.bytes, b.place) == b.value
  }

  /** Every slot of every library but id holds the address that it was given. */
  ghost predicate OthersHold(st: State, id: nat) {
    forall x, i :: x != id ==> SlotHolds(st, x, i)
  }

  function RelsOf(st: State, id: nat): seq<Rel>
    requires id in st.libs
  {
    Entries(st.libs[id].image)
  }

  predicate SlotSpared(st: State, id: nat, x: nat, i: nat)
    requires id in st.libs
    requires AllFit(ContextOf(st, st.libs[id]), Taken(ContextOf(st, st.libs[id]), RelsOf(st, id)), st.bytes)
  {
    IsSlotOf(st, x, i) ==>
      WordSpared(ContextOf(st, st.libs[id]), RelsOf(st, id), st.bytes, st.libs[x].bindings[i].place)
  }

  /** No entry of library id changes a byte of a slot of another library. */
  ghost predicate OthersSpared(st: State, id: nat)
    requires id in st.libs
    requires AllFit(ContextOf(st, st.libs[id]), Taken(ContextOf(st, st.libs[id]), RelsOf(st, id)), st.bytes)
  {
    forall x, i :: x != id ==> SlotSpared(st, id, x, i)
  }

  // Library id can be relocated: its entries are on memory, and on distinct words.
  predicate Applicable(st: State, id: nat) {
    && id in st.libs && AllFit(ContextOf(st, st.libs[id]), RelsOf(st, id), st.bytes)
    && PlacesDisjoint(ContextOf(st, st.libs[id]), RelsOf(st, id))
  }

  // Memory of t is that of s after the passes of library id, and the slots of the others are those
  // of s.
  predicate PassesOf(s: State, t: State, id: nat) {
    && id in s.libs && t.libs.Keys == s.libs.Keys
    && (forall x :: x in s.libs && x != id ==> t.libs[x].bindings == s.libs[x].bindings)
    && t.bytes == AfterPasses(ContextOf(s, s.libs[id]), RelsOf(s, id), s.bytes)
  }

  lemma SlotSurvivesIff(s: State, t: State, id: nat, x: nat, i: nat)
    requires Applicable(s, id) && PassesOf(s, t, id) && x != id && SlotHolds(s, x, i)
    ensures AllFit(ContextOf(s, s.libs[id]), Taken(ContextOf(s, s.libs[id]), RelsOf(s, id)), s.bytes)
    ensures SlotHolds(t, x, i) <==> SlotSpared(s, id, x, i)
  {
    hide WordSpared, AllFit, PlacesDisjoint, Taken;
    var ctx := ContextOf(s, s.libs[id]);
    PassIsTaken(ctx, RelsOf(s, id), s.bytes);
    if IsSlotOf(s, x, i) {
      WordSurvivesIff(ctx, RelsOf(s, id), s.bytes, s.libs[x].bindings[i].place);
    }
  }

  lemma PassesSpareIff(s: State, t: State, id: nat)
    requires Applicable(s, id) && PassesOf(s, t, id) && OthersHold(s, id)
    ensures AllFit(ContextOf(s, s.libs[id]), Taken(ContextOf(s, s.libs[id]), RelsOf(s, id)), s.bytes)
    ensures OthersHold(t, id) <==> OthersSpared(s, id)
  {
    hide SlotHolds, SlotSpared, AllFit, PlacesDisjoint, PassesOf;
    PassIsTaken(ContextOf(s, s.libs[id]), RelsOf(s, id), s.bytes);
    forall x: nat, i: nat | x != id
      ensures SlotHolds(t, x, i) <==> SlotSpared(s, id, x, i)
    {
      assert SlotHolds(s, x, i);
      SlotSurvivesIff(s, t, id, x, i);
    }
  }

  lemma FinishIsPasses(env: Env, id: nat, st: State)
    requires Listed(st) && id in st.libs && (st.libs[id].image.textRel ==> env.ok(st.clock))
    ensures PassesOf(st, FinishLink(env, id, st).0, id)
  {
    hide FinishLink, AfterPasses, Relocatable, Bindings;
    var u := Unprotected(st, id);
    FinishLinkCases(env, id, st);
    forall d
      ensures ProviderKept(st, u, d)
    {
    }
    SameProviders(st, u, st.libs[id].scope);
    assert ContextOf(u, st.libs[id]) == ContextOf(st, st.libs[id]);
  }

  /** Whatever the entries of a library patch: once its link has come to the passes, and whether or not
      they or what follows them fail, the slots of all other libraries hold what they held exactly when
      no entry that was applied changes a byte of one. */
  lemma LinkSparesSlotsIff(env: Env, id: nat, st: State)
    requires Listed(st) && Applicable(st, id) && OthersHold(st, id)
    requires st.libs[id].image.textRel ==> env.ok(st.clock)
    ensures AllFit(ContextOf(st, st.libs[id]), Taken(ContextOf(st, st.libs[id]), RelsOf(st, id)), st.bytes)
    ensures OthersHold(FinishLink(env, id, st).0, id) <==> OthersSpared(st, id)
  {
    hide OthersHold, OthersSpared, FinishLink, Taken, AllFit, PlacesDisjoint, PassesOf;
    FinishIsPasses(env, id, st);
    PassesSpareIff(st, FinishLink(env, id, st).0, id);
  }
}
