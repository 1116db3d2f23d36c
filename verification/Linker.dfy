/** The linker itself: soinfo records in memory, updated in place. Its state is tied to the state
    machine of the life cycle: every operation takes the step that is specified there. */
module Linker {
  import opened Base
  import opened Symbols
  import opened Memory
  import opened Relocation
  import opened Segments
  import opened SoinfoList
  import opened LinkerSteps
  import opened LifecycleSteps
  import opened Callbacks
  import Spec = Lifecycle
  import opened Runs

  class Linker {
    const list: List
    var clock: nat                       // requests made to the operating system so far
    var mapped: set<Spec.Range>          // its reservations
    var bytes: Mem                       // the memory of the loaded images
    ghost var st: Spec.State

    /** The records in memory are the libraries of the state, in the same order. */
    ghost predicate Models()
      reads this, list, list.nodes, list.pool`next
    {
      && list.Valid()
      && Spec.Listed(st) && Distinct(st.order)
      && st.free == |list.pool| && st.clock == clock && st.mapped == mapped && st.bytes == bytes
      && Agree(list.nodes, st.order, st.libs) && st.order[0] == Spec.LIBDL
    }

    /** What a call returned is the library that the specification names. */
    ghost predicate Returned(si: Soinfo?, r: Option<nat>)
      reads this, list, si
    {
      if si == null then r.None? else r == Some(si.id) && si in list.nodes
    }

    /** Records are only added, after the old ones. */
    twostate predicate Extends()
      reads list
    {
      && old(list.repr) <= list.repr && fresh(list.repr - old(list.repr))
      && old(list.nodes) <= list.nodes
    }

    constructor (table: SymTable)
      ensures Models() && st == Spec.Init(table) && Rest(st) && fresh(list) && fresh(list.repr)
    {
      var root := new Soinfo.Root(table);
      list := new List(root);
      clock, mapped, bytes, st := 0, {}, map[], Spec.Init(table);
      new;
      assert Stands(root, Spec.LIBDL, st.libs);
      InitRest(table);
    }

    lemma IndexOf(si: Soinfo) returns (k: nat)
      requires Models() && si in list.nodes
      ensures k < |list.nodes| && list.nodes[k] == si && Stands(si, st.order[k], st.libs)
      ensures si.id in st.libs && st.libs[si.id] == si.View()
      ensures AgreeBut(list.nodes, st.order, st.libs, k) && OnlyAt(list.nodes, k) && OnlyAt(st.order, k)
      ensures si in list.repr && NodeIs(list.nodes, st.order, si, si.id)
    {
      OwnedMember(list.nodes, list.repr, si);
      ChainIsAcyclic(list.nodes, list.libdl);
      k :| 0 <= k < |list.nodes| && list.nodes[k] == si;
      assert AgreeAt(list.nodes, st.order, st.libs, k);
    }

    lemma Node(si: Soinfo, id: nat)
      requires Models() && NodeIs(list.nodes, st.order, si, id)
      ensures si in list.nodes && si in list.repr && si.id == id && id in st.libs && st.libs[id] == si.View()
    {
      var j :| 0 <= j < |list.nodes| && j < |st.order| && list.nodes[j] == si && st.order[j] == id;
      assert AgreeAt(list.nodes, st.order, st.libs, j);
      OwnedMember(list.nodes, list.repr, si);
    }

    /** What load_library entered was not on the list before. */
    lemma NewRecord(env: Spec.Env, name: string, s: Spec.State, nodes: seq<Soinfo>, si: Soinfo)
      requires Models() && Spec.Listed(s) && s.order != [] && s.order[0] == Spec.LIBDL && si in list.nodes
      requires nodes <= list.nodes && |nodes| == |s.order|
      requires (st, Some(si.id)) == Spec.LoadLibrary(env, name, s)
      ensures si.id in st.libs && si.id != Spec.LIBDL && st.libs[si.id].scope == [] && si !in nodes
      ensures NodeIs(list.nodes, st.order, si, si.id)
    {
      var k := IndexOf(si);
      assert Spec.LIBDL in s.libs;
      forall i | 0 <= i < |nodes|
        ensures nodes[i] != si
      {
        assert AgreeAt(list.nodes, st.order, st.libs, i) && s.order[i] in s.libs;
      }
    }

    // ------------------------------------------------------------ one field

    /** The state follows the records. */
    ghost method Restate(t: Spec.State)
      requires list.Valid() && Spec.Listed(st) && Distinct(st.order) && Agree(list.nodes, t.order, t.libs)
      requires |st.order| > 0 && st.order[0] == Spec.LIBDL
      requires st.free == |list.pool| && st.clock == clock && st.mapped == mapped && st.bytes == bytes
      requires t.order == st.order && t.libs.Keys == st.libs.Keys && t.free == st.free && t.nextId == st.nextId
      requires t.clock == st.clock && t.mapped == st.mapped && t.bytes == st.bytes
      modifies this`st
      ensures Models() && st == t
    {
      st := t;
    }

    method AddRef(si: Soinfo)
      requires Models() && si in list.nodes && si.id in st.libs
      modifies this`st, si`refCount
      ensures Models() && st == Spec.AddRef(old(st), si.id)
    {
      ghost var k := IndexOf(si);
      si.refCount := si.refCount + 1;
      PutBack(list.nodes, st.order, st.libs, k);
      Restate(Spec.AddRef(st, si.id));
    }

    /** An unsigned 32-bit count: 0 wraps around. */
    method DropRef(si: Soinfo)
      requires Models() && si in list.nodes && si.id in st.libs
      modifies this`st, si`refCount
      ensures Models() && st == Spec.DropRef(old(st), si.id)
    {
      ghost var k := IndexOf(si);
      si.refCount := if si.refCount == 0 then 0xffff_ffff else si.refCount - 1;
      PutBack(list.nodes, st.order, st.libs, k);
      Restate(Spec.DropRef(st, si.id));
    }

    method SetConstructed(si: Soinfo)
      requires Models() && si in list.nodes && si.id in st.libs
      modifies this`st, si`constructed
      ensures Models() && st == Spec.SetConstructed(old(st), si.id)
    {
      ghost var k := IndexOf(si);
      si.constructed := true;
      PutBack(list.nodes, st.order, st.libs, k);
      Restate(Spec.SetConstructed(st, si.id));
    }

    ghost method AddNeeded(si: Soinfo, dep: nat)
      requires Models() && si in list.nodes && si.id in st.libs
      modifies this`st, si`scope
      ensures Models() && st == Spec.AddNeeded(old(st), si.id, dep)
    {
      var k := IndexOf(si);
      si.scope := si.scope + [dep];
      PutBack(list.nodes, st.order, st.libs, k);
      Restate(Spec.AddNeeded(st, si.id, dep));
    }

    method SetLinked(si: Soinfo, ghost bindings: seq<Spec.Binding>)
      requires Models() && si in list.nodes && si.id in st.libs
      modifies this`st, si`linked, si`rank, si`bindings
      ensures Models() && st == Spec.MarkLinked(old(st), si.id, bindings)
    {
      hide Distinct, Spec.Listed, OnlyAt, AgreeBut;
      ghost var k := IndexOf(si);
      ghost var lib := st.libs[si.id].(linked := true, rank := st.nextRank, bindings := bindings);
      si.linked, si.rank, si.bindings := true, st.nextRank, bindings;
      assert si.View() == lib;
      PutBack(list.nodes, st.order, st.libs, k);
      Restate(Spec.MarkLinked(st, si.id, bindings));
    }

    /** The destructors of a library have been called. */
    ghost method Release(si: Soinfo, calls: seq<Word>)
      requires Models() && si in list.nodes && si.id in st.libs
      requires calls == Spec.DestructorCalls(st.libs[si.id])
      modifies this`st, si`scope
      ensures Models() && st == Spec.Release(old(st), si.id)
    {
      var k := IndexOf(si);
      si.scope := [];
      PutBack(list.nodes, st.order, st.libs, k);
      Restate(Spec.Release(st, si.id));
    }

    /** n more requests have been made to the operating system. */
    method Tick(n: nat)
      requires Models()
      modifies this`st, this`clock
      ensures Models() && clock == old(clock) + n && st == old(st).(clock := old(clock) + n)
    {
      clock := clock + n;
      st := st.(clock := clock);
    }

    // -------------------------------------------------------------- the list

    /** find_loaded_library: by basename, in list order. */
    method FindLoadedLibrary(name: string) returns (si: Soinfo?)
      requires Models()
      ensures Returned(si, Spec.FindLoaded(st, name))
    {
      var bname := Basename(name);
      si := list.libdl;
      ghost var k := 0;
      while si != null
        invariant 0 <= k <= |list.nodes| && si == (if k < |list.nodes| then list.nodes[k] else null)
        invariant Spec.FindLoaded(st, name) == Spec.FindIn(st.order[k..], st.libs, bname)
        decreases |list.nodes| - k
      {
        assert LinkAt(list.nodes, k) && AgreeAt(list.nodes, st.order, st.libs, k);
        assert st.order[k..][1..] == st.order[k + 1..];
        if si.name == bname {
          return;
        }
        si := si.next;
        k := k + 1;
      }
    }

    method FreeRecord(si: Soinfo) returns (ghost k: nat)
      requires list.Valid() && Agree(list.nodes, st.order, st.libs) && si in list.nodes && si != list.libdl
      modifies list, list.repr`next
      ensures list.Valid() && list.repr == old(list.repr) && list.pool == [si] + old(list.pool)
      ensures Agree(old(list.nodes), st.order, st.libs)
      ensures 0 < k < |old(list.nodes)| && old(list.nodes)[k] == si
      ensures list.nodes == old(list.nodes)[..k] + old(list.nodes)[k + 1..] && si !in list.nodes && si in list.repr
    {
      ghost var nodes := list.nodes;
      ChainIsAcyclic(nodes, list.libdl);
      OwnedMember(nodes, list.repr, si);
      list.Free(si);
      k :| 0 < k < |nodes| && nodes[k] == si && list.nodes == nodes[..k] + nodes[k + 1..];
      forall i | 0 <= i < |nodes|
        ensures AgreeAt(nodes, st.order, st.libs, i)
      {
        assert old(AgreeAt(nodes, st.order, st.libs, i));
      }
    }

    /** s_munmap. */
    method Unmap(si: Soinfo)
      requires Models() && si in list.nodes
      modifies this`st, this`mapped, this`bytes
      ensures Models()
      ensures st == old(st).(mapped := old(mapped) - {Spec.Range(si.base, si.size)},
                             bytes := Spec.WithoutRange(old(bytes), si.base, si.size))
    {
      mapped, bytes := mapped - {Spec.Range(si.base, si.size)}, Spec.WithoutRange(bytes, si.base, si.size);
      st := st.(mapped := mapped, bytes := bytes);
    }

    /** soinfo_free takes the k-th record off the list. */
    ghost method TakeOff(s: Spec.State, nodes: seq<Soinfo>, k: nat)
      requires list.Valid() && Spec.Listed(st) && Distinct(st.order) && 0 < k < |st.order| && st.order[0] == Spec.LIBDL
      requires Agree(nodes, st.order, st.libs) && list.nodes == nodes[..k] + nodes[k + 1..]
      requires st.clock == clock && st.mapped == mapped && st.bytes == bytes && |list.pool| == st.free + 1
      requires st.order[k] in s.libs && st == s.(mapped := st.mapped, bytes := st.bytes)
      requires Spec.Discard(s, st.order[k]).mapped == mapped && Spec.Discard(s, st.order[k]).bytes == bytes
      modifies this`st
      ensures Models() && st == Spec.Discard(s, old(st).order[k])
      ensures st.order == old(st).order[..k] + old(st).order[k + 1..]
    {
      OneOut(s, k);
      TakeOut(nodes, st.order, st.libs, k);
      st := Spec.Discard(s, st.order[k]);
    }

    /** s_munmap and soinfo_free. */
    method Discard(si: Soinfo)
      requires Models() && si in list.nodes && si != list.libdl && si.id in st.libs
      modifies this, list, list.repr`next
      ensures Models() && st == Spec.Discard(old(st), si.id)
      ensures list.repr == old(list.repr) && RemovedFrom(old(list.nodes), si, list.nodes)
      ensures Left(old(list.nodes), old(st).order, list.nodes, st.order) && si !in list.nodes && si in list.repr
    {
      hide Agree, Left, Spec.WithoutRange, Spec.Listed, Distinct;
      ghost var nodes, s := list.nodes, st;
      ghost var i := IndexOf(si);
      Unmap(si);
      ghost var k := FreeRecord(si);
      assert s.order[k] == si.id;
      LeftCut(nodes, s.order, k);
      TakeOff(s, nodes, k);
    }

    // --------------------------------------------------------------- loading

    method AllocRecord(name: string, granted: bool) returns (si: Soinfo?)
      requires Models()
      modifies list, list.pool, list.sonext`next
      ensures list.Valid() && fresh(list.repr - old(list.repr)) && old(list.repr) <= list.repr
      ensures si != null <==> |name| < Spec.SOINFO_NAME_LEN && (old(|list.pool|) > 0 || granted)
      ensures si == null ==> list.nodes == old(list.nodes) && |list.pool| == old(|list.pool|)
      ensures si != null ==> list.nodes == old(list.nodes) + [si] && si !in old(list.nodes)
      ensures si != null ==>
                |list.pool| == (if old(|list.pool|) > 0 then old(|list.pool|) else Spec.SOINFO_PER_POOL) - 1
      ensures si != null ==> si.name == name && !si.linked && si.refCount == 0 && !si.constructed
      ensures Agree(old(list.nodes), st.order, st.libs)
    {
      ghost var nodes := list.nodes;
      DisjointMembers(nodes, list.pool);
      si := list.Alloc(name, granted);
      forall i | 0 <= i < |nodes|
        ensures AgreeAt(nodes, st.order, st.libs, i)
      {
        assert nodes[i] in nodes && old(AgreeAt(nodes, st.order, st.libs, i));
      }
    }

    ghost method Enlist(si: Soinfo, nodes: seq<Soinfo>, lib: Spec.Lib)
      requires list.Valid() && list.nodes == nodes + [si] && Agree(nodes, st.order, st.libs)
      requires Spec.Listed(st) && Distinct(st.order) && |st.order| > 0 && st.order[0] == Spec.LIBDL
      requires st.clock == clock && st.mapped == mapped && st.bytes == bytes && si.id == st.nextId && lib == si.View()
      modifies this`st
      ensures Models() && st == OneMore(old(st), lib, |list.pool|)
    {
      OneMoreListed(st, lib, |list.pool|);
      PutLast(nodes, st.order, st.libs, si);
      st := OneMore(st, lib, |list.pool|);
    }

    /** A new record for a library that has been mapped, if there is one to be had. */
    method EnterRecord(name: string, image: Spec.Image, base: Word, size: Word, bias: Word, granted: bool)
      returns (si: Soinfo?)
      requires Models()
      modifies this`st, list, list.repr
      ensures Models() && Extends()
      ensures si != null <==> |name| < Spec.SOINFO_NAME_LEN && (old(st).free > 0 || granted)
      ensures si == null ==> st == old(st)
      ensures si != null ==> si in list.nodes && si.id == old(st).nextId
      ensures si != null ==> st == OneMore(old(st), Spec.NewLib(old(st).nextId, name, image, base, size, bias),
                                           (if old(st).free > 0 then old(st).free else Spec.SOINFO_PER_POOL) - 1)
    {
      hide Distinct, Spec.Listed, Agree;
      ghost var nodes := list.nodes;
      OwnedMembers(list.pool, list.repr);
      OwnedMember(nodes, list.repr, list.sonext);
      si := AllocRecord(name, granted);
      if si == null {
        Restate(st);
      } else {
        OwnedMember(list.nodes, list.repr, si);
        si.Fill(image, base, size, bias, st.nextId);
        Enlist(si, nodes, Spec.NewLib(st.nextId, name, image, base, size, bias));
      }
    }

    /** load_library: open, read and map the file, enter it on the list. */
    method LoadLibrary(env: Spec.Env, name: string) returns (si: Soinfo?)
      requires Models()
      modifies this, list, list.repr
      ensures Models() && Extends()
      ensures var r := Spec.LoadLibrary(env, name, old(st));
              st == r.0 && Returned(si, r.1)
      ensures si != null ==>
                On(si, si.id) && st.libs[si.id].scope == [] && si.id != Spec.LIBDL && si !in old(list.nodes)
    {
      if name !in env.files {
        return null;
      }
      var image := env.files[name];
      var size, minVaddr, maxVaddr := GetLoadSize(image.phdrs);
      if size == 0 {
        return null;
      }
      si := ReserveLibrary(env, name, image, size, minVaddr);
      ReservesIsReserveLibrary(env, name, image, old(st), st, si != null);
      if si != null {
        NewRecord(env, name, old(st), old(list.nodes), si);
      }
    }

    method ReserveLibrary(env: Spec.Env, name: string, image: Spec.Image, size: Word, minVaddr: Word)
      returns (si: Soinfo?)
      requires Models() && size == LoadSize(image.phdrs) && minVaddr == MinVaddr(image.phdrs)
      modifies this, list, list.repr
      ensures Models() && Extends()
      ensures si != null ==> si in list.nodes && si.id == old(st).nextId
      ensures Reserves(env, name, image, old(st), st, si != null)
    {
      hide Agree, Distinct, Spec.Listed, Spec.WithImage, Spec.Placeable, Basename, Sub32;
      var t, bname := clock, Basename(name);
      var base := env.addr(t);
      var ranges: set<Spec.Range>, requests, contents := {}, 1, bytes;
      si := null;
      if env.ok(t) && Spec.Placeable(mapped, base, size) {
        ranges, requests := {Spec.Range(base, size)}, 2;
        if env.ok(t + 1) {
          var pool := |bname| < Spec.SOINFO_NAME_LEN && list.freeList == null;
          si := EnterRecord(bname, image, base, size, Sub32(base, minVaddr), !pool || env.ok(t + 2));
          requests := if pool then 3 else 2;
          contents := Spec.WithImage(env.backend, image, base, bytes);
        }
      }
      Map(ranges, if si == null then ranges else {}, contents, requests);
    }

    /** After n requests to the operating system the ranges are reserved, with these contents; nobody
        will unmap those lost. */
    method Map(ranges: set<Spec.Range>, ghost lost: set<Spec.Range>, contents: Mem, n: nat)
      requires Models()
      modifies this`st, this`mapped, this`bytes, this`clock
      ensures Models()
      ensures st == old(st).(clock := old(st).clock + n, mapped := old(st).mapped + ranges,
                             stranded := old(st).stranded + lost, bytes := contents)
    {
      mapped, bytes, clock := mapped + ranges, contents, clock + n;
      st := st.(mapped := mapped, stranded := st.stranded + lost, bytes := bytes, clock := clock);
    }

    // --------------------------------------------------------------- linking

    lemma ContextFromRecords(si: Soinfo, needed: seq<Soinfo>)
      requires Models() && si in list.nodes && Matches(list.nodes, st.order, needed, si.scope)
      ensures si.id in st.libs && ContextFrom(si, needed) == Spec.ContextOf(st, st.libs[si.id])
    {
      var k := IndexOf(si);
      var a, b := ContextFrom(si, needed).scope, Spec.ContextOf(st, st.libs[si.id]).scope;
      forall i | 0 <= i < |needed|
        ensures a[i] == b[i]
      {
        Node(needed[i], si.scope[i]);
      }
      assert a == b;
    }

    /** What the two passes write. */
    method RunPasses(si: Soinfo, ctx: Context)
      requires Models() && si in list.nodes && si.id in st.libs && ctx == Spec.ContextOf(st, st.libs[si.id])
      modifies this`st, this`bytes
      ensures Models() && st == Spec.Passed(old(st), si.id) && st.libs == old(st).libs
    {
      ghost var k := IndexOf(si);
      bytes := Spec.AfterPasses(ctx, si.image.pltRel + si.image.rel, bytes);
      st := Spec.Passed(st, si.id);
    }

    /** Both soinfo_relocate calls, and FLAG_LINKED. */
    method RelocateTables(si: Soinfo, needed: seq<Soinfo>) returns (ok: bool)
      requires Models() && si in list.nodes && si.id in st.libs && Matches(list.nodes, st.order, needed, si.scope)
      modifies this`st, this`bytes, si`linked, si`rank, si`bindings
      ensures Models() && ok == Spec.Relocatable(old(st), si.id)
      ensures st == if ok then Spec.Relocated(old(st), si.id) else Spec.Passed(old(st), si.id)
    {
      hide Agree, Distinct, Spec.Listed, Spec.Passed, Spec.Bindings, Spec.Accepts;
      ghost var k := IndexOf(si);
      var ctx := ContextFrom(si, needed);
      ContextFromRecords(si, needed);
      AcceptsBoth(ctx, si.image.pltRel, si.image.rel);
      RunPasses(si, ctx);
      if !Spec.Accepts(ctx, si.image.pltRel) || !Spec.Accepts(ctx, si.image.rel) {
        return false;
      }
      SetLinked(si, Spec.Bindings(ctx, si.scope, si.image.pltRel + si.image.rel));
      return true;
    }

    /** The end of soinfo_link_image: unprotect, relocate both tables, set FLAG_LINKED, protect
        again, RELRO. */
    method FinishLink(env: Spec.Env, si: Soinfo, needed: seq<Soinfo>) returns (ok: bool)
      requires Models() && si in list.nodes && si.id in st.libs && Matches(list.nodes, st.order, needed, si.scope)
      modifies this, si`linked, si`rank, si`bindings
      ensures Models() && (st, ok) == Spec.FinishLink(env, si.id, old(st))
    {
      hide Agree, Distinct, Spec.Listed;
      ghost var k := IndexOf(si);
      var textRel := si.image.textRel;
      if textRel {
        var unprotected := env.ok(clock);
        Tick(1);
        if !unprotected {
          return false;
        }
      }
      ok := RelocateTables(si, needed);
      if ok {
        ok := Protect(env, textRel);
      }
    }

    method Protect(env: Spec.Env, textRel: bool) returns (ok: bool)
      requires Models()
      modifies this`st, this`clock
      ensures Models() && (st, ok) == Spec.Protect(env, textRel, old(st))
    {
      ok := env.ok(clock);
      Tick(1);
      if ok && textRel {
        ok := env.ok(clock);
        Tick(1);
      }
    }

    method AddDependency(si: Soinfo, needed: seq<Soinfo>, dep: Soinfo, ghost id: nat)
      requires Models() && NodeIs(list.nodes, st.order, si, id) && id in st.libs && dep in list.nodes
      requires Matches(list.nodes, st.order, needed, st.libs[id].scope)
      modifies this`st, si`scope
      ensures Models() && NodeIs(list.nodes, st.order, si, id) && id in st.libs
      ensures st == Spec.AddNeeded(old(st), id, dep.id) && st.nextId == old(st).nextId
      ensures Matches(list.nodes, st.order, needed + [dep], st.libs[id].scope)
    {
      Node(si, id);
      ghost var k := IndexOf(dep);
      AddNeeded(si, dep.id);
    }

    /** The state now: what Filling says about it is looked into only where it is named. */
    ghost predicate Current(t: Spec.State)
      reads this`st
    {
      t == st
    }

    /** The DT_NEEDED loop has filled the needed array this far, and comes to r from here. */
    ghost predicate Filling(env: Spec.Env, si: Soinfo, needed: seq<Soinfo>, count: nat, id: nat, r: (Spec.State, bool))
      reads this, list, list.nodes, list.pool`next
    {
      forall t {:trigger Current(t)} :: Current(t) ==>
        && On(si, id) && Matches(list.nodes, t.order, needed, t.libs[id].scope)
        && count == |t.libs[id].image.needed| && Spec.LoadNeeded(env, id, t) == r
    }

    /** One DT_NEEDED entry of soinfo_link_image. */
    method TakeNeeded(env: Spec.Env, si: Soinfo, needed: seq<Soinfo>, ghost count: nat, ghost id: nat,
                      ghost r: (Spec.State, bool))
      returns (dep: Soinfo?)
      requires Filling(env, si, needed, count, id, r) && |needed| < count
      modifies this, list, list.repr
      ensures Extends() && old(st).nextId <= st.nextId
      ensures dep == null ==> On(si, id) && r == (st, false)
      ensures dep != null ==> Filling(env, si, needed + [dep], count, id, r)
      decreases Span(st, r.0), 3
    {
      hide Agree, Distinct, Spec.Listed, Spec.LoadNeeded, Spec.FindLibrary, Spec.AddNeeded;
      ghost var s, nodes := st, list.nodes;
      assert Current(st);
      Node(si, id);
      LoadNeededStep(env, id, s);
      dep := FindLibrary(env, si.image.needed[|needed|]);
      NodeStays(nodes, s.order, list.nodes, st.order, si, id);
      if dep != null {
        Took(env, si, needed, dep, count, id, r, nodes, s.order);
      }
    }

    method Took(env: Spec.Env, si: Soinfo, needed: seq<Soinfo>, dep: Soinfo, ghost count: nat, ghost id: nat,
                ghost r: (Spec.State, bool), ghost nodes: seq<Soinfo>, ghost order: seq<nat>)
      requires On(si, id) && dep in list.nodes && Matches(nodes, order, needed, st.libs[id].scope)
      requires nodes <= list.nodes && order <= st.order
      requires count == |st.libs[id].image.needed| && Spec.LoadNeeded(env, id, Spec.AddNeeded(st, id, dep.id)) == r
      modifies this`st, si`scope
      ensures Filling(env, si, needed + [dep], count, id, r) && st.nextId == old(st).nextId
    {
      hide Agree, Spec.Listed, Spec.LoadNeeded;
      Node(si, id);
      MatchesOn(nodes, order, list.nodes, st.order, needed, st.libs[id].scope);
      AddDependency(si, needed, dep, id);
    }

    /** The DT_NEEDED loop of soinfo_link_image. */
    method LoadNeeded(env: Spec.Env, si: Soinfo, ghost id: nat, ghost r: (Spec.State, bool))
      returns (needed: seq<Soinfo>, ok: bool)
      requires Filling(env, si, [], |si.image.needed|, id, r)
      modifies this, list, list.repr
      ensures Extends()
      ensures if ok then Filling(env, si, needed, |needed|, id, r) else On(si, id) && r == (st, false)
      decreases Span(st, r.0), 4
    {
      var count := |si.image.needed|;
      needed := [];
      while |needed| < count
        invariant Filling(env, si, needed, count, id, r) && |needed| <= count
        invariant Extends() && old(st).nextId <= st.nextId
        decreases count - |needed|
      {
        var dep := TakeNeeded(env, si, needed, count, id, r);
        if dep == null {
          return needed, false;
        }
        needed := needed + [dep];
      }
      ok := true;
    }

    lemma Filled(env: Spec.Env, si: Soinfo, needed: seq<Soinfo>, id: nat, r: (Spec.State, bool))
      requires Filling(env, si, needed, |needed|, id, r)
      ensures Needs(si, needed, id) && (st, true) == r
    {
      assert Current(st);
      LoadNeededDone(env, id, st);
    }

    ghost predicate On(si: Soinfo, id: nat)
      reads this, list, list.nodes, list.pool`next
    {
      Models() && NodeIs(list.nodes, st.order, si, id) && id in st.libs
    }

    /** The record is on the list, and its needed array is this. */
    ghost predicate Needs(si: Soinfo, needed: seq<Soinfo>, id: nat)
      reads this, list, list.nodes, list.pool`next
    {
      Models() && NodeIs(list.nodes, st.order, si, id) && id in st.libs &&
      Matches(list.nodes, st.order, needed, st.libs[id].scope)
    }

    /** soinfo_link_image. */
    method LinkImage(env: Spec.Env, si: Soinfo, ghost id: nat) returns (ok: bool)
      requires On(si, id) && st.libs[id].scope == []
      modifies this, list, list.repr
      ensures On(si, id) && Extends()
      ensures (st, ok) == Spec.LinkImage(env, id, old(st))
      decreases Spec.LinkImage(env, id, st).0.nextId - st.nextId, 5
    {
      hide Agree, Distinct, Spec.Listed, Spec.LinkImage, Spec.LoadNeeded;
      Node(si, id);
      LinkImageStep(env, id, st);
      if !Spec.Linkable(si.image) {
        return false;
      }
      var needed;
      ghost var r := Spec.LoadNeeded(env, id, st);
      needed, ok := LoadNeeded(env, si, id, r);
      if ok {
        ok := FinishFilled(env, si, needed, id, r);
      }
    }

    method FinishFilled(env: Spec.Env, si: Soinfo, needed: seq<Soinfo>, ghost id: nat, ghost r: (Spec.State, bool))
      returns (ok: bool)
      requires Filling(env, si, needed, |needed|, id, r)
      modifies this, si`linked, si`rank, si`bindings
      ensures On(si, id) && r.1 && Spec.Listed(r.0) && id in r.0.libs && (st, ok) == Spec.FinishLink(env, id, r.0)
    {
      Filled(env, si, needed, id, r);
      Node(si, id);
      ok := FinishLink(env, si, needed);
    }

    /** A library just entered is linked; if that fails it is unmapped and freed again. */
    method LinkNew(env: Spec.Env, loaded: Soinfo, ghost id: nat, ghost nodes: seq<Soinfo>) returns (si: Soinfo?)
      requires On(loaded, id) && st.libs[id].scope == [] && id != Spec.LIBDL && nodes <= list.nodes && loaded !in nodes
      modifies this, list, list.repr
      ensures Models() && old(list.repr) <= list.repr && fresh(list.repr - old(list.repr)) && nodes <= list.nodes
      ensures var (t, linked) := Spec.LinkImage(env, id, old(st));
              && id in t.libs && st == (if linked then t else Spec.Discard(t, id))
              && Returned(si, if linked then Some(id) else None)
      decreases Spec.LinkImage(env, id, st).0.nextId - st.nextId, 6
    {
      var ok := LinkImage(env, loaded, id);
      Node(loaded, id);
      si := loaded;
      if !ok {
        DiscardNew(loaded, id, nodes);
        si := null;
      }
    }

    method DiscardNew(si: Soinfo, ghost id: nat, ghost nodes: seq<Soinfo>)
      requires On(si, id) && id != Spec.LIBDL && nodes <= list.nodes && si !in nodes
      modifies this, list, list.repr`next
      ensures Models() && st == Spec.Discard(old(st), id) && list.repr == old(list.repr) && nodes <= list.nodes
    {
      Node(si, id);
      LibdlIsFirst();
      Discard(si);
    }

    lemma LibdlIsFirst()
      requires Models()
      ensures list.libdl == list.nodes[0] && list.libdl.id == Spec.LIBDL && Spec.LIBDL in st.libs
    {
      assert AgreeAt(list.nodes, st.order, st.libs, 0);
    }

    /** The part of find_library_internal for a name that is not on the list. */
    method LoadAndLink(env: Spec.Env, name: string, ghost r: (Spec.State, Option<nat>)) returns (si: Soinfo?)
      requires Models() && Spec.FindLoaded(st, name).None? && Spec.FindInternal(env, name, st) == r
      modifies this, list, list.repr
      ensures Models() && Extends()
      ensures st == r.0 && Returned(si, r.1)
      decreases r.0.nextId - st.nextId, 0
    {
      hide Agree, Distinct, Spec.Listed, Spec.LinkImage, Spec.LoadLibrary, Spec.FindInternal, Spec.Discard;
      ghost var nodes := list.nodes;
      FindInternalStep(env, name, st);
      si := LoadLibrary(env, name);
      if si != null {
        si := LinkNew(env, si, si.id, nodes);
      }
    }

    /** When libdl is alone on solist, every pool slot is on the free list. */
    lemma AloneIsWholePool()
      requires Models() && st.order == [Spec.LIBDL]
      ensures list.nodes == [list.libdl]
      ensures forall n :: n in list.repr && n != list.libdl <==> n in list.pool
    {
      LibdlIsFirst();
      ChainIsAcyclic(list.nodes, list.libdl);
      ChainIsAcyclic(list.pool, list.freeList);
      EverySlotIsListed(list.nodes, list.pool, list.repr);
      DisjointMember(list.nodes, list.pool, list.libdl);
    }

    /** find_library_internal. */
    method FindLibraryInternal(env: Spec.Env, name: string) returns (si: Soinfo?)
      requires Models()
      modifies this, list, list.repr
      ensures Models() && Extends()
      ensures var r := Spec.FindInternal(env, name, old(st));
              st == r.0 && Returned(si, r.1)
      decreases Spec.FindInternal(env, name, st).0.nextId - st.nextId, 1
    {
      si := FindLoadedLibrary(name);
      if si != null {
        ghost var k := IndexOf(si);
        return if si.linked then si else null;
      }
      si := LoadAndLink(env, name, Spec.FindInternal(env, name, st));
    }

    /** find_library: a count is taken for the caller. */
    method FindLibrary(env: Spec.Env, name: string) returns (si: Soinfo?)
      requires Models()
      modifies this, list, list.repr
      ensures Models() && Extends()
      ensures var r := Spec.FindLibrary(env, name, old(st));
              st == r.0 && Returned(si, r.1)
      decreases Spec.FindLibrary(env, name, st).0.nextId - st.nextId, 2
    {
      hide Distinct, Spec.Listed, Agree, Spec.FindLibrary, Spec.FindInternal;
      FindLibraryStep(env, name, st);
      si := FindLibraryInternal(env, name);
      if si != null {
        OwnedMember(list.nodes, list.repr, si);
        AddRef(si);
      }
    }

    // ------------------------------------------------------------ constructors

    ghost method LogConstructed(id: nat, calls: seq<Word>)
      requires Models() && id in st.libs && calls == Spec.InitCalls(st.libs[id].image)
      modifies this`st
      ensures Models() && st == Spec.LogConstructed(old(st), id)
    {
      Restate(Spec.LogConstructed(st, id));
    }

    /** The dependencies of CallConstructors from the i-th on come to t. */
    ghost predicate Constructing(si: Soinfo, count: nat, i: nat, id: nat, t: Spec.State)
      reads this, list, list.nodes, list.pool`next
    {
      On(si, id) && i <= count && count == |st.libs[id].image.needed| && Spec.ConstructNeeded(st, id, i) == Some(t)
    }

    /** soinfo::CallConstructors; r is the state that it comes to. */
    method CallConstructors(si: Soinfo, ghost id: nat, ghost r: Spec.State)
      requires On(si, id) && Spec.CallConstructors(st, id) == Some(r)
      modifies this`st, list.repr`constructed
      ensures Models() && st == r
      decreases |r.trace| - |st.trace|, 1
    {
      hide Agree, Distinct, Spec.Listed, Spec.CallConstructors, Spec.SetConstructed, Spec.LogConstructed;
      Node(si, id);
      CallConstructorsStep(st, id);
      if si.constructed {
        return;
      }
      SetConstructed(si);
      ghost var t := Spec.ConstructNeeded(st, id, 0).value;
      ConstructDependencies(si, id, t);
      RunAndLog(si, id);
    }

    /** DT_INIT and DT_INIT_ARRAY of one library. */
    method RunAndLog(si: Soinfo, ghost id: nat)
      requires On(si, id)
      modifies this`st
      ensures Models() && st == Spec.LogConstructed(old(st), id)
    {
      Node(si, id);
      var calls := RunConstructors(si.image);
      LogConstructed(id, calls);
    }

    /** The DT_NEEDED loop of CallConstructors. */
    method ConstructDependencies(si: Soinfo, ghost id: nat, ghost t: Spec.State)
      requires On(si, id) && Spec.ConstructNeeded(st, id, 0) == Some(t)
      modifies this`st, list.repr`constructed
      ensures On(si, id) && st == t
      decreases |t.trace| - |st.trace|, 3
    {
      hide Agree, Distinct, Spec.Listed;
      Node(si, id);
      ConstructNeededStep(st, id, 0);
      var i, count := 0, |si.image.needed|;
      while i < count
        invariant Constructing(si, count, i, id, t) && |old(st).trace| <= |st.trace|
      {
        ConstructDependency(si, count, i, id, t);
        i := i + 1;
      }
      ConstructNeededStep(st, id, count);
    }

    method ConstructDependency(si: Soinfo, ghost count: nat, i: nat, ghost id: nat, ghost t: Spec.State)
      requires Constructing(si, count, i, id, t) && i < count
      modifies this`st, list.repr`constructed
      ensures Constructing(si, count, i + 1, id, t) && |old(st).trace| <= |st.trace|
      decreases |t.trace| - |st.trace|, 2
    {
      hide Agree, Distinct, Spec.Listed, Spec.ConstructNeeded, Spec.CallConstructors;
      Node(si, id);
      ConstructNeededStep(st, id, i);
      var dep := FindLoadedLibrary(si.image.needed[i]);
      ghost var k := IndexOf(dep);
      CallConstructors(dep, dep.id, Spec.CallConstructors(st, dep.id).value);
    }

    // --------------------------------------------------------------- unloading

    /** The dependencies of soinfo_unload from the i-th on come to t; what is left on the list was
        there when the loop began. */
    ghost predicate Unloading(nodes: seq<Soinfo>, order: seq<nat>, rank: nat, names: seq<string>, t: Spec.State)
      reads this, list, list.nodes, list.pool`next
    {
      Models() && Left(nodes, order, list.nodes, st.order) && Spec.UnloadNeeded(st, rank, names) == Some(t)
    }

    /** soinfo_unload; r is the state that it comes to. */
    method Unload(si: Soinfo, ghost id: nat, ghost r: Spec.State)
      requires On(si, id) && Spec.Unload(st, id) == Some(r)
      modifies this, list, list.repr
      ensures Models() && st == r && list.repr == old(list.repr)
      ensures Left(old(list.nodes), old(st).order, list.nodes, st.order)
      decreases st.libs[id].rank, 2
    {
      Node(si, id);
      UnloadStep(st, id);
      LeftAll(list.nodes, st.order);
      if si.refCount != 1 {
        DropRef(si);
        return;
      }
      var calls := [];
      if si.name !in Spec.NO_DESTRUCTORS {
        calls := RunDestructors(si.image);
      }
      var needed := si.image.needed;
      ghost var rank := st.libs[id].rank;
      Release(si, calls);
      UnloadDependencies(needed, rank, Spec.UnloadNeeded(st, rank, needed).value);
      ghost var nodes, order := list.nodes, st.order;
      Spec.ListIsAll(st);
      NodeLeft(old(list.nodes), old(st).order, nodes, order, si, id);
      DropRecord(si, id);
      LeftTwice(old(list.nodes), old(st).order, nodes, order, list.nodes, st.order);
    }

    /** The DT_NEEDED loop of soinfo_unload. */
    method UnloadDependencies(needed: seq<string>, ghost rank: nat, ghost t: Spec.State)
      requires Models() && Spec.UnloadNeeded(st, rank, needed) == Some(t)
      modifies this, list, list.repr
      ensures Models() && st == t && list.repr == old(list.repr)
      ensures Left(old(list.nodes), old(st).order, list.nodes, st.order)
      decreases rank, 1
    {
      LeftAll(list.nodes, st.order);
      for i := 0 to |needed|
        invariant Unloading(old(list.nodes), old(st).order, rank, needed[i..], t) && list.repr == old(list.repr)
      {
        UnloadDependency(needed[i..], rank, t, old(list.nodes), old(st).order);
        assert needed[i..][1..] == needed[i + 1..];
      }
      UnloadNeededStep(st, rank, needed[|needed|..]);
    }

    method UnloadDependency(names: seq<string>, ghost rank: nat, ghost t: Spec.State,
                            ghost nodes: seq<Soinfo>, ghost order: seq<nat>)
      requires Unloading(nodes, order, rank, names, t) && names != []
      modifies this, list, list.repr
      ensures Unloading(nodes, order, rank, names[1..], t) && list.repr == old(list.repr)
      decreases rank, 0
    {
      ghost var nodes', order' := list.nodes, st.order;
      UnloadNeededStep(st, rank, names);
      var dep := FindLoadedLibrary(names[0]);
      ghost var k := IndexOf(dep);
      Unload(dep, dep.id, Spec.Unload(st, dep.id).value);
      LeftTwice(nodes, order, nodes', order', list.nodes, st.order);
    }

    /** The end of soinfo_unload: s_munmap, soinfo_free, and a count of 0. */
    method DropRecord(si: Soinfo, ghost id: nat)
      requires On(si, id) && id != Spec.LIBDL
      modifies this, list, list.repr
      ensures Models() && st == Spec.Discard(old(st), id) && list.repr == old(list.repr)
      ensures Left(old(list.nodes), old(st).order, list.nodes, st.order)
    {
      Node(si, id);
      LibdlIsFirst();
      Discard(si);
      si.refCount := 0;
    }

    // ------------------------------------------------------------ entry points

    /** do_dlopen, from a state at rest: the step of the specification is taken, no null pointer
        is met, and the state is at rest again. The handle is the record that is returned. */
    method DoDlopen(env: Spec.Env, name: Option<string>, flags: int) returns (si: Soinfo?)
      requires Models() && Rest(st)
      modifies this, list, list.repr
      ensures Models() && Rest(st) && old(list.repr) <= list.repr && fresh(list.repr - old(list.repr))
      ensures Spec.DoDlopen(env, name, flags, old(st)).Some?
      ensures var r := Spec.DoDlopen(env, name, flags, old(st)).value;
              st == r.0 && Returned(si, r.1)
    {
      ghost var r := Spec.DoDlopen(env, name, flags, st);
      OpenRest(env, name, flags, st);
      si := OpenNamed(env, name, flags, r.value);
    }

    method OpenNamed(env: Spec.Env, name: Option<string>, flags: int, ghost r: (Spec.State, Option<nat>))
      returns (si: Soinfo?)
      requires Models() && Spec.DoDlopen(env, name, flags, st) == Some(r)
      modifies this, list, list.repr
      ensures Models() && old(list.repr) <= list.repr && fresh(list.repr - old(list.repr))
      ensures st == r.0 && Returned(si, r.1)
    {
      hide Agree, Distinct, Spec.Listed, Spec.FindLibrary, Spec.HandOut;
      if !Spec.ValidFlags(flags) || name.None? {
        return null;
      }
      DoDlopenStep(env, name.value, flags, st);
      si := FindLibrary(env, name.value);
      if si != null {
        HandOut(si, si.id, Some(r));
      }
    }

    /** What find_library returned becomes a handle, and the constructors run. */
    method HandOut(si: Soinfo, ghost id: nat, ghost r: Option<(Spec.State, Option<nat>)>)
      requires Models() && si in list.nodes && si.id == id && id in st.libs
      requires Spec.HandOut(st, Some(id)) == r && r.Some?
      modifies this`st, list.repr`constructed
      ensures Models() && r == Some((st, Some(id)))
    {
      ghost var k := IndexOf(si);
      HandOutStep(st, id);
      Restate(st.(handles := st.handles + multiset{id}));
      if si.name !in Spec.NO_CONSTRUCTORS {
        CallConstructors(si, id, r.value.0);
      }
    }

    /** do_dlclose of a handle that is held, likewise. */
    method DoDlclose(si: Soinfo)
      requires Models() && Rest(st) && si in list.nodes && si.id in st.handles
      modifies this, list, list.repr
      ensures Models() && Rest(st) && list.repr == old(list.repr)
      ensures Spec.DoDlclose(old(st), old(si.id)) == Some(st)
    {
      ghost var id, r := si.id, Spec.DoDlclose(st, si.id);
      CloseRest(st, id);
      ghost var k := IndexOf(si);
      Restate(st.(handles := st.handles - multiset{id}));
      Unload(si, id, r.value);
    }
  }
}
