/** soinfo_relocate: the ARM relocation loop over one library's memory. */
module Relocation {
  import opened Base
  import opened ElfHash
  import opened Symbols
  import opened Memory

  const R_ARM_NONE: int := 0
  const R_ARM_ABS32: int := 2
  const R_ARM_REL32: int := 3
  const R_ARM_COPY: int := 20
  const R_ARM_GLOB_DAT: int := 21
  const R_ARM_JUMP_SLOT: int := 22
  const R_ARM_RELATIVE: int := 23

  // An Elf32_Rel with r_info split by ELF32_R_TYPE (the low byte) and ELF32_R_SYM.
  datatype Rel = Rel(offset: Word, kind: nat, sym: nat)

  // A library of the search scope.
  datatype Provider = Provider(table: SymTable, bias: Word)

  // The library being relocated and its flattened search scope.
  datatype Context = Context(table: SymTable, base: Word, bias: Word, scope: seq<Provider>)

  function Tables(scope: seq<Provider>): (tables: seq<SymTable>)
    ensures |tables| == |scope|
    ensures forall i :: 0 <= i < |scope| ==> tables[i] == scope[i].table
  {
    seq(|scope|, i requires 0 <= i < |scope| => scope[i].table)
  }

  /** The word that the entry patches. */
  function Place(ctx: Context, rel: Rel): Word {
    Add32(rel.offset, ctx.bias)
  }

  /** Provider and symbol of the first definition in the scope; indices are into the scope and
      into the provider's table. */
  function Definition(ctx: Context, sym: nat): (r: Option<(nat, nat)>)
    requires sym < |ctx.table.syms|
    ensures r.Some? ==> r.value.0 < |ctx.scope| && 1 <= r.value.1 < |ctx.scope[r.value.0].table.syms|
  {
    var r := FindInScope(Tables(ctx.scope), ctx.table.syms[sym].name);
    LookupInRange(ctx, sym);
    r
  }

  lemma LookupInRange(ctx: Context, sym: nat)
    requires sym < |ctx.table.syms|
    ensures var r := FindInScope(Tables(ctx.scope), ctx.table.syms[sym].name);
            r.Some? ==> 1 <= r.value.1 < |ctx.scope[r.value.0].table.syms|
  {
    var name := ctx.table.syms[sym].name;
    var r := FindInScope(Tables(ctx.scope), name);
    if r.Some? {
      var t := ctx.scope[r.value.0].table;
      SearchIsSound(t, Head(t, HashCode(name)), |t.chain|, name);
    }
  }

  function DefinedAddress(ctx: Context, def: (nat, nat)): Word
    requires def.0 < |ctx.scope| && def.1 < |ctx.scope[def.0].table.syms|
  {
    Add32(ctx.scope[def.0].table.syms[def.1].value, ctx.scope[def.0].bias)
  }

  /** sym_addr: zero without a symbol and for an unresolved weak reference. */
  function SymbolAddress(ctx: Context, rel: Rel): Word
    requires rel.sym < |ctx.table.syms|
  {
    if rel.sym == 0 then 0
    else match Definition(ctx, rel.sym)
      case None => 0
      case Some(def) => DefinedAddress(ctx, def)
  }

  /** An entry that the loop does not reject; it depends on nothing that the loop writes. */
  predicate Acceptable(ctx: Context, rel: Rel)
    requires rel.sym < |ctx.table.syms|
  {
    var t, sym := rel.kind, rel.sym;
    if t == R_ARM_NONE then true
    else if sym == 0 then t in {R_ARM_JUMP_SLOT, R_ARM_GLOB_DAT, R_ARM_ABS32, R_ARM_REL32, R_ARM_RELATIVE}
    else if Definition(ctx, sym).Some? then t in {R_ARM_JUMP_SLOT, R_ARM_GLOB_DAT, R_ARM_ABS32, R_ARM_REL32}
    else ctx.table.syms[sym].bind == STB_WEAK && t in {R_ARM_JUMP_SLOT, R_ARM_GLOB_DAT, R_ARM_ABS32}
  }

  /** The new content of the place, given the old one. */
  function NewWord(ctx: Context, rel: Rel, old_: Word): Word
    requires rel.sym < |ctx.table.syms|
  {
    var t, s := rel.kind, SymbolAddress(ctx, rel);
    if t == R_ARM_JUMP_SLOT || t == R_ARM_GLOB_DAT then s
    else if t == R_ARM_ABS32 then Add32(old_, s)
    else if t == R_ARM_REL32 then Add32(old_, Sub32(s, rel.offset))
    else if t == R_ARM_RELATIVE then Add32(old_, ctx.base)
    else old_
  }

  /** What the loop dereferences: symbol entries, and a mapped word at every place. */
  predicate Fits(ctx: Context, rel: Rel, m: Mem) {
    rel.sym < |ctx.table.syms| && (rel.kind != R_ARM_NONE ==> HasWord(m, Place(ctx, rel)))
  }

  predicate AllFit(ctx: Context, rels: seq<Rel>, m: Mem) {
    forall i :: 0 <= i < |rels| ==> Fits(ctx, rels[i], m)
  }

  function RelocateOne(ctx: Context, rel: Rel, m: Mem): (m': Mem)
    requires Fits(ctx, rel, m)
    ensures m'.Keys == m.Keys
  {
    if rel.kind == R_ARM_NONE then m
    else
      var p := Place(ctx, rel);
      WriteWord(m, p, NewWord(ctx, rel, ReadWord(m, p)))
  }

  /** The loop: stop at the first entry rejected, keeping what was written before it. */
  function Relocate(ctx: Context, rels: seq<Rel>, m: Mem): (r: (Mem, bool))
    requires AllFit(ctx, rels, m)
    ensures r.0.Keys == m.Keys
  {
    if rels == [] then (m, true)
    else if !Acceptable(ctx, rels[0]) then (m, false)
    else
      var m' := RelocateOne(ctx, rels[0], m);
      assert AllFit(ctx, rels[1..], m') by {
        forall i | 0 <= i < |rels[1..]|
          ensures Fits(ctx, rels[1..][i], m')
        {
          assert Fits(ctx, rels[i + 1], m);
        }
      }
      Relocate(ctx, rels[1..], m')
  }

  method RelocateTable(space: AddressSpace, ctx: Context, rels: seq<Rel>) returns (result: int)
    requires AllFit(ctx, rels, space.bytes)
    requires forall i :: 0 <= i < |ctx.scope| ==> WellFormed(ctx.scope[i].table)
    modifies space
    ensures (space.bytes, result == 0) == Relocate(ctx, rels, old(space.bytes))
    ensures result == 0 || result == -1
    ensures space.prot == old(space.prot)
  {
    var tables := Tables(ctx.scope);
    for idx := 0 to |rels|
      invariant space.bytes.Keys == old(space.bytes.Keys) && space.prot == old(space.prot)
      invariant AllFit(ctx, rels[idx..], space.bytes)
      invariant Relocate(ctx, rels[idx..], space.bytes) == Relocate(ctx, rels, old(space.bytes))
    {
      var rel := rels[idx];
      assert rels[idx..][0] == rel && rels[idx..][1..] == rels[idx + 1..];
      assert Fits(ctx, rel, space.bytes);
      var ok := RelocateEntry(space, ctx, tables, rel);
      if !ok {
        return -1;
      }
    }
    return 0;
  }

  method RelocateEntry(space: AddressSpace, ctx: Context, tables: seq<SymTable>, rel: Rel) returns (ok: bool)
    requires Fits(ctx, rel, space.bytes)
    requires tables == Tables(ctx.scope)
    requires forall i :: 0 <= i < |ctx.scope| ==> WellFormed(ctx.scope[i].table)
    modifies space
    ensures ok == Acceptable(ctx, rel)
    ensures space.bytes == if ok then RelocateOne(ctx, rel, old(space.bytes)) else old(space.bytes)
    ensures space.prot == old(space.prot)
  {
    var t, sym, reloc := rel.kind, rel.sym, Place(ctx, rel);
    var symAddr: Word := 0;
    if t == R_ARM_NONE {
      return true;
    }
    if sym != 0 {
      // somain is null and there are no preloads, so the needed list is the whole scope.
      var found := ResolveNeeded(tables, ctx.table.syms[sym].name);
      assert found == Definition(ctx, sym);
      if found.None? {
        if ctx.table.syms[sym].bind != STB_WEAK {
          return false;
        }
        if t != R_ARM_JUMP_SLOT && t != R_ARM_GLOB_DAT && t != R_ARM_ABS32 && t != R_ARM_RELATIVE {
          return false;
        }
      } else {
        symAddr := DefinedAddress(ctx, found.value);
      }
    }
    if t == R_ARM_JUMP_SLOT || t == R_ARM_GLOB_DAT {
      space.bytes := WriteWord(space.bytes, reloc, symAddr);
    } else if t == R_ARM_ABS32 {
      space.bytes := WriteWord(space.bytes, reloc, Add32(ReadWord(space.bytes, reloc), symAddr));
    } else if t == R_ARM_REL32 {
      space.bytes := WriteWord(space.bytes, reloc,
                               Add32(ReadWord(space.bytes, reloc), Sub32(symAddr, rel.offset)));
    } else if t == R_ARM_RELATIVE {
      if sym != 0 {
        return false;
      }
      space.bytes := WriteWord(space.bytes, reloc, Add32(ReadWord(space.bytes, reloc), ctx.base));
    } else {
      // R_ARM_COPY is for executables only, and FLAG_EXE is never set; the rest is unknown.
      return false;
    }
    return true;
  }

  method ResolveNeeded(needed: seq<SymTable>, name: Name) returns (found: Option<(nat, nat)>)
    requires forall i :: 0 <= i < |needed| ==> WellFormed(needed[i])
    ensures found == FindInScope(needed, name)
  {
    found := DoLookup(None, None, false, [], needed, name);
    assert FlatScope(None, None, false, [], needed) == needed;
  }
}
