/** What ties records in memory to libraries of the state. */
module LinkerSteps {
  import opened Base
  import opened Relocation
  import opened Segments
  import opened SoinfoList
  import opened LifecycleInvariant
  import Spec = Lifecycle

  // ------------------------------------------------- records and libraries

  /** The record is the library of that id. */
  ghost predicate Stands(n: Soinfo, id: nat, libs: map<nat, Spec.Lib>)
    reads n
  {
    n.id == id && id in libs && libs[id] == n.View()
  }

  /** The records are the libraries of the list, one by one. */
  ghost predicate Agree(nodes: seq<Soinfo>, order: seq<nat>, libs: map<nat, Spec.Lib>)
    reads nodes
  {
    |nodes| == |order| && forall i :: 0 <= i < |nodes| ==> AgreeAt(nodes, order, libs, i)
  }

  ghost predicate AgreeAt(nodes: seq<Soinfo>, order: seq<nat>, libs: map<nat, Spec.Lib>, i: nat)
    requires i < |nodes| == |order|
    reads nodes[i]
  {
    Stands(nodes[i], order[i], libs)
  }

  /** All records but the k-th are. */
  ghost predicate AgreeBut(nodes: seq<Soinfo>, order: seq<nat>, libs: map<nat, Spec.Lib>, k: nat)
    requires k < |nodes|
    reads set n | n in nodes && n != nodes[k]
  {
    |nodes| == |order| &&
    forall i :: 0 <= i < |nodes| && i != k ==> nodes[i] != nodes[k] && AgreeAt(nodes, order, libs, i)
  }

  predicate OnlyAt<T(==)>(s: seq<T>, k: nat)
    requires k < |s|
  {
    forall i :: 0 <= i < |s| && i != k ==> s[i] != s[k]
  }

  lemma PutBack(nodes: seq<Soinfo>, order: seq<nat>, libs: map<nat, Spec.Lib>, k: nat)
    requires k < |nodes| && AgreeBut(nodes, order, libs, k) && order[k] == nodes[k].id
    requires OnlyAt(nodes, k) && OnlyAt(order, k)
    ensures Agree(nodes, order, libs[nodes[k].id := nodes[k].View()])
  {
    var t := libs[nodes[k].id := nodes[k].View()];
    forall i | 0 <= i < |nodes|
      ensures AgreeAt(nodes, order, t, i)
    {
      if i != k {
        assert nodes[i] != nodes[k] && order[i] != order[k];
        assert AgreeAt(nodes, order, libs, i);
      }
    }
  }

  lemma TakeOut(nodes: seq<Soinfo>, order: seq<nat>, libs: map<nat, Spec.Lib>, k: nat)
    requires Agree(nodes, order, libs) && Distinct(order) && k < |nodes|
    ensures Agree(nodes[..k] + nodes[k + 1..], order[..k] + order[k + 1..], libs - {order[k]})
  {
    var ns, os := nodes[..k] + nodes[k + 1..], order[..k] + order[k + 1..];
    forall i | 0 <= i < |ns|
      ensures AgreeAt(ns, os, libs - {order[k]}, i)
    {
      var j := if i < k then i else i + 1;
      assert AgreeAt(nodes, order, libs, j) && order[j] != order[k];
    }
  }

  lemma PutLast(nodes: seq<Soinfo>, order: seq<nat>, libs: map<nat, Spec.Lib>, n: Soinfo)
    requires Agree(nodes, order, libs) && n.id !in order
    ensures Agree(nodes + [n], order + [n.id], libs[n.id := n.View()])
  {
    var ns, os, t := nodes + [n], order + [n.id], libs[n.id := n.View()];
    forall i | 0 <= i < |ns|
      ensures AgreeAt(ns, os, t, i)
    {
      if i < |nodes| {
        assert AgreeAt(nodes, order, libs, i) && order[i] in order;
      }
    }
  }

  lemma {:induction false} WithoutAt(order: seq<nat>, k: nat)
    requires Distinct(order) && k < |order|
    ensures Spec.Without(order, order[k]) == order[..k] + order[k + 1..]
  {
    if k == 0 {
      WithoutAbsent(order[1..], order[0]);
    } else {
      WithoutAt(order[1..], k - 1);
    }
  }

  function OneMore(st: Spec.State, lib: Spec.Lib, free: nat): Spec.State {
    st.(order := st.order + [lib.id], libs := st.libs[lib.id := lib], nextId := st.nextId + 1, free := free)
  }

  lemma OneMoreListed(st: Spec.State, lib: Spec.Lib, free: nat)
    requires Spec.Listed(st) && Distinct(st.order) && |st.order| > 0 && lib.id == st.nextId
    ensures var t := OneMore(st, lib, free);
            Spec.Listed(t) && Distinct(t.order) && t.order[0] == st.order[0] && lib.id !in st.order
  {
    var t := OneMore(st, lib, free);
    forall i, j | 0 <= i < j < |t.order|
      ensures t.order[i] != t.order[j]
    {
      assert st.order[i] in st.libs;
    }
  }

  lemma OneOut(st: Spec.State, k: nat)
    requires Spec.Listed(st) && Distinct(st.order) && 0 < k < |st.order|
    ensures var t := Spec.Discard(st, st.order[k]);
            && Spec.Listed(t) && Distinct(t.order) && t.order == st.order[..k] + st.order[k + 1..]
            && t.order[0] == st.order[0]
  {
    WithoutAt(st.order, k);
    Spec.DiscardIsListed(st, st.order[k]);
    WithoutDistinct(st.order, st.order[k]);
  }

  /** The record is on the list, at the place of this id. */
  ghost predicate NodeIs(nodes: seq<Soinfo>, order: seq<nat>, n: Soinfo, id: nat) {
    exists j :: 0 <= j < |nodes| && j < |order| && nodes[j] == n && order[j] == id
  }

  lemma NodeStays(nodes: seq<Soinfo>, order: seq<nat>, nodes': seq<Soinfo>, order': seq<nat>, n: Soinfo, id: nat)
    requires NodeIs(nodes, order, n, id) && nodes <= nodes' && order <= order'
    ensures NodeIs(nodes', order', n, id)
  {
    var j :| 0 <= j < |nodes| && j < |order| && nodes[j] == n && order[j] == id;
    assert nodes'[j] == n && order'[j] == id;
  }

  /** The needed array holds the records of the ids in scope. */
  ghost predicate Matches(nodes: seq<Soinfo>, order: seq<nat>, needed: seq<Soinfo>, scope: seq<nat>) {
    |needed| == |scope| && forall i :: 0 <= i < |needed| ==> NodeIs(nodes, order, needed[i], scope[i])
  }

  lemma MatchesOn(nodes: seq<Soinfo>, order: seq<nat>, nodes': seq<Soinfo>, order': seq<nat>,
                needed: seq<Soinfo>, scope: seq<nat>)
    requires Matches(nodes, order, needed, scope) && nodes <= nodes' && order <= order'
    ensures Matches(nodes', order', needed, scope)
  {
    forall i | 0 <= i < |needed|
      ensures NodeIs(nodes', order', needed[i], scope[i])
    {
      NodeStays(nodes, order, nodes', order', needed[i], scope[i]);
    }
  }

  /** How many libraries are loaded on the way from s to t: the measure of the recursion. */
  ghost function Span(s: Spec.State, t: Spec.State): nat {
    if s.nextId <= t.nextId then t.nextId - s.nextId else 0
  }

  /** The records left, with their ids, were all there before. */
  ghost predicate Left(nodes: seq<Soinfo>, order: seq<nat>, nodes': seq<Soinfo>, order': seq<nat>) {
    |nodes'| == |order'| && forall j :: 0 <= j < |nodes'| ==> LeftAt(nodes, order, nodes', order', j)
  }

  ghost predicate LeftAt(nodes: seq<Soinfo>, order: seq<nat>, nodes': seq<Soinfo>, order': seq<nat>, j: nat)
    requires j < |nodes'| && j < |order'|
  {
    NodeIs(nodes, order, nodes'[j], order'[j])
  }

  lemma LeftAll(nodes: seq<Soinfo>, order: seq<nat>)
    requires |nodes| == |order|
    ensures Left(nodes, order, nodes, order)
  {
    forall j | 0 <= j < |nodes|
      ensures LeftAt(nodes, order, nodes, order, j)
    {
    }
  }

  lemma LeftTwice(n: seq<Soinfo>, o: seq<nat>, n': seq<Soinfo>, o': seq<nat>, n'': seq<Soinfo>, o'': seq<nat>)
    requires Left(n, o, n', o') && Left(n', o', n'', o'')
    ensures Left(n, o, n'', o'')
  {
    forall j | 0 <= j < |n''|
      ensures LeftAt(n, o, n'', o'', j)
    {
      assert LeftAt(n', o', n'', o'', j);
      var i :| 0 <= i < |n'| && i < |o'| && n'[i] == n''[j] && o'[i] == o''[j];
      assert LeftAt(n, o, n', o', i);
    }
  }

  lemma LeftCut(nodes: seq<Soinfo>, order: seq<nat>, k: nat)
    requires k < |nodes| == |order|
    ensures Left(nodes, order, nodes[..k] + nodes[k + 1..], order[..k] + order[k + 1..])
  {
    var n, o := nodes[..k] + nodes[k + 1..], order[..k] + order[k + 1..];
    forall j | 0 <= j < |n|
      ensures LeftAt(nodes, order, n, o, j)
    {
      var i := if j < k then j else j + 1;
      assert nodes[i] == n[j] && order[i] == o[j];
    }
  }

  /** A library that is left is still held by its record. */
  lemma NodeLeft(nodes: seq<Soinfo>, order: seq<nat>, nodes': seq<Soinfo>, order': seq<nat>, n: Soinfo, id: nat)
    requires Left(nodes, order, nodes', order') && Distinct(order) && NodeIs(nodes, order, n, id) && id in order'
    ensures NodeIs(nodes', order', n, id)
  {
    var j :| 0 <= j < |order'| && order'[j] == id;
    assert LeftAt(nodes, order, nodes', order', j);
    var i :| 0 <= i < |nodes| && i < |order| && nodes[i] == nodes'[j] && order[i] == id;
    var k :| 0 <= k < |nodes| && k < |order| && nodes[k] == n && order[k] == id;
    assert i == k;
  }

  /** Reserving address space, loading into it and entering a record, from state s to state t. */
  predicate Reserves(env: Spec.Env, name: string, image: Spec.Image, s: Spec.State, t: Spec.State, found: bool) {
    var base, size := env.addr(s.clock), LoadSize(image.phdrs);
    var bname, mapped := Basename(name), s.mapped + {Spec.Range(base, size)};
    var pool := |bname| < Spec.SOINFO_NAME_LEN && s.free == 0;
    if !env.ok(s.clock) || !Spec.Placeable(s.mapped, base, size) then t == s.(clock := s.clock + 1) && !found
    else if !env.ok(s.clock + 1) then
      t == s.(clock := s.clock + 2, mapped := mapped, stranded := s.stranded + {Spec.Range(base, size)}) && !found
    else
      && found == (|bname| < Spec.SOINFO_NAME_LEN && (!pool || env.ok(s.clock + 2)))
      && var u := s.(clock := s.clock + (if pool then 3 else 2), mapped := mapped,
                     bytes := Spec.WithImage(env.backend, image, base, s.bytes));
         t == if !found then u.(stranded := s.stranded + {Spec.Range(base, size)})
              else OneMore(u, Spec.NewLib(s.nextId, bname, image, base, size, Sub32(base, MinVaddr(image.phdrs))),
                           (if pool then Spec.SOINFO_PER_POOL else s.free) - 1)
  }

  lemma ReservesIsReserveLibrary(env: Spec.Env, name: string, image: Spec.Image, s: Spec.State, t: Spec.State,
                                 found: bool)
    requires Spec.Listed(s) && Reserves(env, name, image, s, t, found)
    ensures Spec.ReserveLibrary(env, name, image, s) == (t, if found then Some(s.nextId) else None)
  {
    hide Spec.WithImage, Spec.Placeable, Basename, Sub32, LoadSize, MinVaddr;
  }

  lemma AcceptsBoth(ctx: Context, a: seq<Rel>, b: seq<Rel>)
    ensures Spec.Accepts(ctx, a + b) <==> Spec.Accepts(ctx, a) && Spec.Accepts(ctx, b)
  {
    var ab := a + b;
    if Spec.Accepts(ctx, ab) {
      forall i | 0 <= i < |a|
        ensures a[i].sym < |ctx.table.syms| && Acceptable(ctx, a[i])
      {
        assert ab[i] == a[i];
      }
      forall i | 0 <= i < |b|
        ensures b[i].sym < |ctx.table.syms| && Acceptable(ctx, b[i])
      {
        assert ab[|a| + i] == b[i];
      }
    }
  }

  function ContextFrom(si: Soinfo, needed: seq<Soinfo>): Context
    reads si, needed
  {
    Context(si.image.table, si.base, si.bias, Providers(needed))
  }

  function Providers(needed: seq<Soinfo>): (r: seq<Provider>)
    reads needed
    ensures |r| == |needed|
    ensures forall i :: 0 <= i < |r| ==> r[i] == Provider(needed[i].image.table, needed[i].bias)
  {
    if needed == [] then []
    else Providers(needed[..|needed| - 1]) + [Provider(needed[|needed| - 1].image.table, needed[|needed| - 1].bias)]
  }
}
