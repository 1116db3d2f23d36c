/** The bindings that the life cycle records are what relocation leaves in memory, and they point
    into their providers. */
module BoundSlots {
  import opened Base
  import opened Memory
  import opened Symbols
  import opened Segments
  import opened SegmentTheorems
  import opened Relocation
  import opened RelocationTheorems
  import opened Lifecycle
  import opened Runs
  import opened LifecycleTheorems

  predicate SlotKind(kind: nat) {
    kind == R_ARM_JUMP_SLOT || kind == R_ARM_GLOB_DAT
  }

  /** A JUMP_SLOT or GLOB_DAT entry whose symbol some library of the scope defines. */
  predicate IsSlot(ctx: Context, rel: Rel) {
    SlotKind(rel.kind) && 0 < rel.sym < |ctx.table.syms| && Definition(ctx, rel.sym).Some?
  }

  function SlotBinding(ctx: Context, ids: seq<nat>, rel: Rel): Binding
    requires |ids| == |ctx.scope| && IsSlot(ctx, rel)
  {
    var def := Definition(ctx, rel.sym).value;
    Binding(rel.kind, Place(ctx, rel), ids[def.0], def.1, DefinedAddress(ctx, def))
  }

  lemma {:induction false} SlotIsRecorded(ctx: Context, ids: seq<nat>, rels: seq<Rel>, i: nat)
    requires |ids| == |ctx.scope| && i < |rels| && IsSlot(ctx, rels[i])
    ensures SlotBinding(ctx, ids, rels[i]) in Bindings(ctx, ids, rels)
  {
    if i > 0 {
      SlotIsRecorded(ctx, ids, rels[1..], i - 1);
    }
  }

  /** When the two relocation passes of a link have run over memory, at disjoint places, every
      slot holds the value of the binding recorded for it, which names the first library of the
      scope that defines the symbol. */
  lemma SlotsMatchMemory(st: State, id: nat, m: Mem, i: nat)
    requires id in st.libs && Relocatable(st, id)
    requires var lib := st.libs[id];
             var ctx, rels := ContextOf(st, lib), lib.image.pltRel + lib.image.rel;
             AllFit(ctx, rels, m) && PlacesDisjoint(ctx, rels) && i < |rels| && IsSlot(ctx, rels[i])
    ensures var lib := st.libs[id];
            var ctx, rels := ContextOf(st, lib), lib.image.pltRel + lib.image.rel;
            var b := SlotBinding(ctx, lib.scope, rels[i]);
            && Relocate(ctx, rels, m).1 && b in Relocated(st, id).libs[id].bindings
            && HasWord(m, b.place) && ReadWord(Relocate(ctx, rels, m).0, b.place) == b.value
  {
    var lib := st.libs[id];
    var ctx, rels := ContextOf(st, lib), lib.image.pltRel + lib.image.rel;
    SlotIsRecorded(ctx, lib.scope, rels, i);
    SucceedsIffAcceptable(ctx, rels, m);
    assert Relocation.Fits(ctx, rels[i], m);
    RelocationResult(ctx, rels, m, i);
  }

  lemma AddressInside(value: Word, base: Word, low: Word, size: Word)
    requires low <= value < low as int + size && base as int + size <= WORDS
    ensures base <= Add32(value, Sub32(base, low)) < base as int + size
  {
    WordShift(value, base, low, 0);
  }

  /** After any run, a slot bound to a symbol of the provider's loadable extent points into the
      provider's own reservation, which is still mapped (libdl's symbols are the linker's own). */
  lemma BindingsPointInside(table: SymTable, ops: seq<Op>, id: nat, i: nat)
    requires Legal(Init(table), ops) && Run(Init(table), ops).Some?
    requires var st := Run(Init(table), ops).value;
             && id in st.libs && i < |st.libs[id].bindings|
             && var b := st.libs[id].bindings[i];
                b.provider in st.libs && b.provider != LIBDL && b.sym < |st.libs[b.provider].image.table.syms| &&
                InExtent(st.libs[b.provider].image, st.libs[b.provider].image.table.syms[b.sym].value)
    ensures var st := Run(Init(table), ops).value;
            var b := st.libs[id].bindings[i];
            var p := st.libs[b.provider];
            && b.provider in st.order && Range(p.base, p.size) in st.mapped
            && p.base <= b.value < p.base as int + p.size
  {
    InitRest(table);
    RunsAreSafe(Init(table), ops);
    BindingPointsInside(Run(Init(table), ops).value, id, i);
  }

  predicate InExtent(image: Image, value: Word) {
    MinVaddr(image.phdrs) <= value < MinVaddr(image.phdrs) as int + LoadSize(image.phdrs)
  }

  lemma BindingPointsInside(st: State, id: nat, i: nat)
    requires Rest(st) && id in st.libs && i < |st.libs[id].bindings|
    requires var b := st.libs[id].bindings[i];
             b.provider in st.libs && b.provider != LIBDL && b.sym < |st.libs[b.provider].image.table.syms| &&
             InExtent(st.libs[b.provider].image, st.libs[b.provider].image.table.syms[b.sym].value)
    ensures var b := st.libs[id].bindings[i];
            var p := st.libs[b.provider];
            && b.provider in st.order && Range(p.base, p.size) in st.mapped
            && p.base <= b.value < p.base as int + p.size
  {
    var b := st.libs[id].bindings[i];
    var p := st.libs[b.provider];
    BindingIsLive(st, id, i);
    AddressInside(p.image.table.syms[b.sym].value, p.base, MinVaddr(p.image.phdrs), p.size);
  }
}
