/** What soinfo_relocate accepts and what it writes, in terms of symbol tables and the numbers of the
    ARM ABI alone. */
module Verdict {
  import opened Base
  import opened ElfHash
  import opened Symbols
  import opened Memory
  import opened Relocation
  import opened RelocationTheorems

  /** Entry n of the table is a global or weak definition of the name, outside section 0. */
  predicate DefinedAt(t: SymTable, name: Name, n: int) {
    && 1 <= n < |t.syms| && t.syms[n].name == name
    && (t.syms[n].bind == 1 || t.syms[n].bind == 2) && t.syms[n].shndx != 0
  }

  predicate DefinedIn(t: SymTable, name: Name) {
    exists n :: 1 <= n < |t.syms| && DefinedAt(t, name, n)
  }

  predicate DefinedInScope(scope: seq<Provider>, name: Name) {
    exists k :: 0 <= k < |scope| && DefinedIn(scope[k].table, name)
  }

  predicate Indexed(scope: seq<Provider>) {
    forall k :: 0 <= k < |scope| ==> WellFormed(scope[k].table)
  }

  lemma LookupIsDefinition(t: SymTable, name: Name)
    requires WellFormed(t)
    ensures Lookup(t, name).Some? <==> DefinedIn(t, name)
    ensures Lookup(t, name).Some? ==> DefinedAt(t, name, Lookup(t, name).value)
  {
    LookupRefinesScan(t, name);
    assert Lookup(t, name).Some? ==> DefinedAt(t, name, Lookup(t, name).value);
    if DefinedIn(t, name) {
      var n :| 1 <= n < |t.syms| && DefinedAt(t, name, n);
      assert Defines(t.syms[n], name);
    }
  }

  /** The first table of the scope that defines the name. */
  predicate FirstDefiner(scope: seq<Provider>, name: Name, k: int) {
    0 <= k < |scope| && DefinedIn(scope[k].table, name) && forall j :: 0 <= j < k ==> !DefinedIn(scope[j].table, name)
  }

  lemma DefinitionIsFirst(ctx: Context, sym: nat)
    requires sym < |ctx.table.syms| && Indexed(ctx.scope)
    ensures var name, r := ctx.table.syms[sym].name, Definition(ctx, sym);
            && (r.Some? <==> DefinedInScope(ctx.scope, name))
            && (r.Some? ==> FirstDefiner(ctx.scope, name, r.value.0) &&
                            DefinedAt(ctx.scope[r.value.0].table, name, r.value.1))
  {
    hide WellFormed, DefinedIn, Lookup;
    var name := ctx.table.syms[sym].name;
    forall k | 0 <= k < |ctx.scope|
      ensures Lookup(ctx.scope[k].table, name).Some? <==> DefinedIn(ctx.scope[k].table, name)
      ensures Lookup(ctx.scope[k].table, name).Some? ==>
                DefinedAt(ctx.scope[k].table, name, Lookup(ctx.scope[k].table, name).value)
    {
      LookupIsDefinition(ctx.scope[k].table, name);
    }
  }

  // ---------------------------------------------------------------- the verdict

  /** An entry that can be applied: none at all, or without a symbol, or with one that some library of
      the scope defines, or with a weak one that none defines, each with the kinds that go with it.
      The kinds are JUMP_SLOT (22), GLOB_DAT (21), ABS32 (2), REL32 (3) and RELATIVE (23). */
  predicate Applies(table: SymTable, scope: seq<Provider>, rel: Rel)
    requires rel.sym < |table.syms|
  {
    var name := table.syms[rel.sym].name;
    || rel.kind == 0
    || (rel.sym == 0 && rel.kind in {22, 21, 2, 3, 23})
    || (rel.sym != 0 && DefinedInScope(scope, name) && rel.kind in {22, 21, 2, 3})
    || (rel.sym != 0 && !DefinedInScope(scope, name) && table.syms[rel.sym].bind == 2 && rel.kind in {22, 21, 2})
  }

  lemma AcceptableIff(ctx: Context, rel: Rel)
    requires rel.sym < |ctx.table.syms| && Indexed(ctx.scope)
    ensures Acceptable(ctx, rel) <==> Applies(ctx.table, ctx.scope, rel)
  {
    hide Indexed, DefinedInScope;
    DefinitionIsFirst(ctx, rel.sym);
  }

  predicate AllApply(table: SymTable, scope: seq<Provider>, rels: seq<Rel>) {
    forall i :: 0 <= i < |rels| ==> AppliesAt(table, scope, rels, i)
  }

  predicate AppliesAt(table: SymTable, scope: seq<Provider>, rels: seq<Rel>, i: nat)
    requires i < |rels|
  {
    rels[i].sym < |table.syms| && Applies(table, scope, rels[i])
  }

  /** soinfo_relocate returns 0 exactly when every entry can be applied. */
  lemma RelocatesIff(ctx: Context, rels: seq<Rel>, m: Mem)
    requires AllFit(ctx, rels, m) && Indexed(ctx.scope)
    ensures Relocate(ctx, rels, m).1 <==> AllApply(ctx.table, ctx.scope, rels)
  {
    hide Indexed, Acceptable, Applies;
    SucceedsIffAcceptable(ctx, rels, m);
    forall i | 0 <= i < |rels|
      ensures rels[i].sym < |ctx.table.syms| && (Acceptable(ctx, rels[i]) <==> AppliesAt(ctx.table, ctx.scope, rels, i))
    {
      assert Fits(ctx, rels[i], m);
      AcceptableIff(ctx, rels[i]);
    }
  }

  /** A table of JUMP_SLOT, GLOB_DAT and ABS32 entries is relocated exactly when every strong reference
      is defined in some library of the scope. */
  lemma StrongReferencesDecide(ctx: Context, rels: seq<Rel>, m: Mem)
    requires AllFit(ctx, rels, m) && Indexed(ctx.scope)
    requires forall i :: 0 <= i < |rels| ==> rels[i].kind in {22, 21, 2}
    ensures Relocate(ctx, rels, m).1 <==>
            forall i :: 0 <= i < |rels| ==> Fits(ctx, rels[i], m) && StrongDefined(ctx, rels[i])
  {
    hide Indexed, DefinedInScope;
    RelocatesIff(ctx, rels, m);
    forall i | 0 <= i < |rels|
      ensures Fits(ctx, rels[i], m) && (AppliesAt(ctx.table, ctx.scope, rels, i) <==> StrongDefined(ctx, rels[i]))
    {
      assert Fits(ctx, rels[i], m);
    }
  }

  predicate StrongDefined(ctx: Context, rel: Rel)
    requires rel.sym < |ctx.table.syms|
  {
    rel.sym != 0 && ctx.table.syms[rel.sym].bind != 2 ==> DefinedInScope(ctx.scope, ctx.table.syms[rel.sym].name)
  }

  // ------------------------------------------------------------------ the words

  /** The address that the symbol comes to: value plus bias of a definition in the first library that
      has one, or 0. */
  predicate ResolvesTo(ctx: Context, sym: nat, address: Word)
    requires sym < |ctx.table.syms|
  {
    var name := ctx.table.syms[sym].name;
    if sym == 0 || !DefinedInScope(ctx.scope, name) then address == 0
    else
      exists k, n :: 0 <= k < |ctx.scope| && 1 <= n < |ctx.scope[k].table.syms| && AddressAt(ctx, name, k, n, address)
  }

  predicate AddressAt(ctx: Context, name: Name, k: int, n: int, address: Word)
    requires 0 <= k < |ctx.scope| && 1 <= n < |ctx.scope[k].table.syms|
  {
    && FirstDefiner(ctx.scope, name, k) && DefinedAt(ctx.scope[k].table, name, n)
    && address == (ctx.scope[k].table.syms[n].value as int + ctx.scope[k].bias) % 0x1_0000_0000
  }

  /** What the entry makes of the word, for a symbol at this address. */
  function Patch(ctx: Context, rel: Rel, address: Word, was: Word): int {
    if rel.kind == 22 || rel.kind == 21 then address
    else if rel.kind == 2 then (was as int + address) % 0x1_0000_0000
    else if rel.kind == 3 then (was as int + address - rel.offset) % 0x1_0000_0000
    else (was as int + ctx.base) % 0x1_0000_0000
  }

  lemma SymbolResolves(ctx: Context, rel: Rel)
    requires rel.sym < |ctx.table.syms| && Indexed(ctx.scope)
    ensures ResolvesTo(ctx, rel.sym, SymbolAddress(ctx, rel))
  {
    hide Indexed, DefinedInScope, FirstDefiner;
    if rel.sym != 0 {
      DefinitionIsFirst(ctx, rel.sym);
      var r := Definition(ctx, rel.sym);
      if r.Some? {
        AddIsModular(ctx.scope[r.value.0].table.syms[r.value.1].value, ctx.scope[r.value.0].bias);
        assert AddressAt(ctx, ctx.table.syms[rel.sym].name, r.value.0, r.value.1, DefinedAddress(ctx, r.value));
      }
    }
  }

  lemma AddIsModular(a: Word, b: Word)
    ensures Add32(a, b) == (a as int + b) % 0x1_0000_0000
  {
  }

  lemma NewWordIsPatch(ctx: Context, rel: Rel, was: Word)
    requires rel.sym < |ctx.table.syms| && rel.kind in {22, 21, 2, 3, 23}
    ensures NewWord(ctx, rel, was) == Patch(ctx, rel, SymbolAddress(ctx, rel), was)
  {
    hide SymbolAddress;
    var s := SymbolAddress(ctx, rel);
    AddIsModular(was, s);
    AddIsModular(was, ctx.base);
    SubThenAdd(was, s, rel.offset);
  }

  lemma SubThenAdd(was: Word, s: Word, o: Word)
    ensures Add32(was, Sub32(s, o)) == (was as int + s - o) % 0x1_0000_0000
  {
  }

  /** After a successful pass over disjoint places, the word r_offset bytes past the bias is what the
      entry's kind makes of the word that was there and the address of its symbol. */
  lemma PatchedWord(ctx: Context, rels: seq<Rel>, m: Mem, i: nat)
    requires AllFit(ctx, rels, m) && PlacesDisjoint(ctx, rels) && Indexed(ctx.scope) && Relocate(ctx, rels, m).1
    requires i < |rels| && rels[i].kind != 0
    ensures var p := (rels[i].offset as int + ctx.bias) % 0x1_0000_0000;
            && rels[i].sym < |ctx.table.syms| && HasWord(m, p)
            && exists address: Word ::
                 ResolvesTo(ctx, rels[i].sym, address) &&
                 ReadWord(Relocate(ctx, rels, m).0, p) == Patch(ctx, rels[i], address, ReadWord(m, p))
  {
    hide Indexed, ResolvesTo, Applies, SymbolAddress, PlacesDisjoint, Patch;
    RelocatesIff(ctx, rels, m);
    assert Fits(ctx, rels[i], m) && AppliesAt(ctx.table, ctx.scope, rels, i);
    KindIsKnown(ctx.table, ctx.scope, rels[i]);
    RelocationResult(ctx, rels, m, i);
    AddIsModular(rels[i].offset, ctx.bias);
    NewWordIsPatch(ctx, rels[i], ReadWord(m, Place(ctx, rels[i])));
    SymbolResolves(ctx, rels[i]);
  }

  lemma KindIsKnown(table: SymTable, scope: seq<Provider>, rel: Rel)
    requires rel.sym < |table.syms| && Applies(table, scope, rel)
    ensures rel.kind in {0, 22, 21, 2, 3, 23}
  {
  }
}
