/** The soinfo records in memory: solist, a singly linked list that starts at libdl_info and ends
    at sonext, and the free list of pool slots. */
module SoinfoList {
  import opened Base
  import opened Segments
  import opened Symbols
  import opened Lifecycle

  class Soinfo {
    var name: string
    var image: Image
    var base: Word
    var size: Word
    var bias: Word
    var linked: bool
    var refCount: nat
    var constructed: bool
    var next: Soinfo?
    // Which load of the run this record stands for, which link, and what was bound then.
    ghost var id: nat
    ghost var rank: nat
    ghost var scope: seq<nat>
    ghost var bindings: seq<Binding>

    /** libdl_info. */
    constructor Root(table: SymTable)
      ensures next == null && View() == Libdl(table)
    {
      name, image := "libdl.so", LIBDL_IMAGE.(table := table);
      base, size, bias, linked, refCount, constructed := 0, 0, 0, true, LIBDL_REFS, false;
      next := null;
      id, rank, scope, bindings := LIBDL, 0, [], [];
    }

    constructor ()
      ensures next == null
    {
      name, image := "", LIBDL_IMAGE;
      base, size, bias, linked, refCount, constructed := 0, 0, 0, false, 0, false;
      next := null;
      id, rank, scope, bindings := 0, 0, [], [];
    }

    method Clear(name: string)
      modifies this`name, this`linked, this`refCount, this`constructed
      ensures this.name == name && !linked && refCount == 0 && !constructed
    {
      this.name, linked, refCount, constructed := name, false, 0, false;
    }

    /** The fields that load_library sets, from what the reader found. */
    method Fill(image: Image, base: Word, size: Word, bias: Word, ghost id: nat)
      modifies this
      ensures View() ==
              Lib(id, old(name), image, base, size, bias, old(linked), old(refCount), old(constructed), 0, [], [])
      ensures next == old(next)
    {
      this.image, this.base, this.size, this.bias := image, base, size, bias;
      this.id, rank, scope, bindings := id, 0, [], [];
    }

    /** The record as a value. */
    ghost function View(): Lib
      reads this`id, this`name, this`image, this`base, this`size, this`bias, this`linked, this`refCount,
            this`constructed, this`rank, this`scope, this`bindings
    {
      Lib(id, name, image, base, size, bias, linked, refCount, constructed, rank, scope, bindings)
    }
  }

  /** The nodes are chained from head to a null pointer. */
  ghost predicate Chained(s: seq<Soinfo>, head: Soinfo?)
    reads s`next
  {
    head == Nth(s, 0) && forall i :: 0 <= i < |s| ==> LinkAt(s, i)
  }

  ghost predicate LinkAt(s: seq<Soinfo>, i: nat)
    requires i < |s|
    reads s`next
  {
    s[i].next == Nth(s, i + 1)
  }

  ghost function Nth(s: seq<Soinfo>, i: nat): Soinfo? {
    if i < |s| then s[i] else null
  }

  /** A chain that ends is acyclic: no node is on it twice. */
  lemma ChainIsAcyclic(s: seq<Soinfo>, head: Soinfo?)
    requires Chained(s, head)
    ensures Distinct(s)
  {
    forall i, j | 0 <= i < j < |s|
      ensures s[i] != s[j]
    {
      ApartFromEnd(s, head, i, j);
    }
  }

  lemma {:induction false} ApartFromEnd(s: seq<Soinfo>, head: Soinfo?, i: nat, j: nat)
    requires Chained(s, head) && i < j < |s|
    ensures s[i] != s[j]
    decreases |s| - j
  {
    if j + 1 < |s| {
      ApartFromEnd(s, head, i + 1, j + 1);
    }
    assert LinkAt(s, i) && LinkAt(s, j);
  }

  lemma ChainTail(s: seq<Soinfo>, head: Soinfo?)
    requires Chained(s, head) && s != []
    ensures Chained(s[1..], s[0].next) && s[0] !in s[1..]
  {
    ChainIsAcyclic(s, head);
    assert LinkAt(s, 0);
    forall i | 0 <= i < |s[1..]|
      ensures LinkAt(s[1..], i)
    {
      assert LinkAt(s, i + 1);
    }
  }

  lemma ChainPush(n: Soinfo, s: seq<Soinfo>, head: Soinfo?)
    requires Chained(s, head) && n.next == head
    ensures Chained([n] + s, n)
  {
    var t := [n] + s;
    forall i | 0 <= i < |t|
      ensures LinkAt(t, i)
    {
      if i > 0 {
        assert LinkAt(s, i - 1);
      }
    }
  }

  // ------------------------------------------------------------ who owns what

  /** Every slot is on exactly one of the two lists: both are made of slots, no slot is on both,
      and there are as many slots as there are list entries. */
  ghost predicate Partition(nodes: seq<Soinfo>, pool: seq<Soinfo>, slots: set<Soinfo>) {
    Owned(nodes, slots) && Owned(pool, slots) && DisjointLists(nodes, pool) && |slots| == |nodes| + |pool|
  }

  ghost predicate Owned(s: seq<Soinfo>, slots: set<Soinfo>) {
    forall i :: 0 <= i < |s| ==> OwnedAt(s, slots, i)
  }

  ghost predicate OwnedAt(s: seq<Soinfo>, slots: set<Soinfo>, i: nat)
    requires i < |s|
  {
    s[i] in slots
  }

  ghost predicate DisjointLists(a: seq<Soinfo>, b: seq<Soinfo>) {
    forall i, j :: 0 <= i < |a| && 0 <= j < |b| ==> DifferAt(a, b, i, j)
  }

  ghost predicate DifferAt(a: seq<Soinfo>, b: seq<Soinfo>, i: nat, j: nat)
    requires i < |a| && j < |b|
  {
    a[i] != b[j]
  }

  lemma OwnedMember(s: seq<Soinfo>, slots: set<Soinfo>, n: Soinfo)
    requires Owned(s, slots) && n in s
    ensures n in slots
  {
    var i :| 0 <= i < |s| && s[i] == n;
    assert OwnedAt(s, slots, i);
  }

  lemma OwnedMembers(s: seq<Soinfo>, slots: set<Soinfo>)
    requires Owned(s, slots)
    ensures forall n :: n in s ==> n in slots
  {
    forall n | n in s
      ensures n in slots
    {
      OwnedMember(s, slots, n);
    }
  }

  lemma DisjointMembers(a: seq<Soinfo>, b: seq<Soinfo>)
    requires DisjointLists(a, b)
    ensures forall n :: n in a ==> n !in b
  {
    forall n | n in a
      ensures n !in b
    {
      DisjointMember(a, b, n);
    }
  }

  lemma DisjointMember(a: seq<Soinfo>, b: seq<Soinfo>, n: Soinfo)
    requires DisjointLists(a, b) && n in a
    ensures n !in b
  {
    var i :| 0 <= i < |a| && a[i] == n;
    forall j | 0 <= j < |b|
      ensures b[j] != n
    {
      assert DifferAt(a, b, i, j);
    }
  }

  lemma OwnedFrom(s: seq<Soinfo>, slots: set<Soinfo>)
    requires forall n :: n in s ==> n in slots
    ensures Owned(s, slots)
  {
  }

  lemma DisjointFrom(a: seq<Soinfo>, b: seq<Soinfo>)
    requires forall n :: n in a ==> n !in b
    ensures DisjointLists(a, b)
  {
    forall i, j | 0 <= i < |a| && 0 <= j < |b|
      ensures DifferAt(a, b, i, j)
    {
      assert a[i] in a;
    }
  }

  /** The two lists hold every slot there is. */
  lemma EverySlotIsListed(nodes: seq<Soinfo>, pool: seq<Soinfo>, slots: set<Soinfo>)
    requires Partition(nodes, pool, slots) && Distinct(nodes) && Distinct(pool)
    ensures forall n :: n in slots <==> n in nodes || n in pool
  {
    var a, b := set n | n in nodes, set n | n in pool;
    Elements(nodes, slots, a);
    Elements(pool, slots, b);
    forall n | n in a
      ensures n !in b
    {
      DisjointMember(nodes, pool, n);
    }
    assert |a + b| == |a| + |b|;
    SameSizeSubset(a + b, slots);
  }

  lemma Elements(s: seq<Soinfo>, slots: set<Soinfo>, a: set<Soinfo>)
    requires Owned(s, slots) && Distinct(s) && a == set n | n in s
    ensures a <= slots && |a| == |s|
  {
    forall n | n in s
      ensures n in slots
    {
      OwnedMember(s, slots, n);
    }
    ElementCount(s, a);
  }

  lemma {:induction false} ElementCount(s: seq<Soinfo>, a: set<Soinfo>)
    requires Distinct(s) && a == set n | n in s
    ensures |a| == |s|
  {
    if s != [] {
      var b := set n | n in s[1..];
      ElementCount(s[1..], b);
      assert s == [s[0]] + s[1..];
      assert a == b + {s[0]} && s[0] !in b;
    } else {
      assert a == {};
    }
  }

  lemma SameSizeSubset(a: set<Soinfo>, b: set<Soinfo>)
    requires a <= b && |a| == |b|
    ensures a == b
  {
    SubsetSize(a, b);
  }

  lemma PartitionTake(nodes: seq<Soinfo>, pool: seq<Soinfo>, slots: set<Soinfo>)
    requires Partition(nodes, pool, slots) && pool != [] && pool[0] !in pool[1..]
    ensures Partition(nodes, pool[1..], slots - {pool[0]}) && pool[0] !in nodes && pool[0] in slots
  {
    var n, rest := pool[0], pool[1..];
    OwnedMember(pool, slots, n);
    forall m | m in nodes
      ensures m in slots - {n} && m !in rest
    {
      OwnedMember(nodes, slots, m);
      DisjointMember(nodes, pool, m);
    }
    forall m | m in rest
      ensures m in slots - {n}
    {
      OwnedMember(pool, slots, m);
    }
    OwnedFrom(nodes, slots - {n});
    OwnedFrom(rest, slots - {n});
    DisjointFrom(nodes, rest);
  }

  lemma PartitionAppend(nodes: seq<Soinfo>, pool: seq<Soinfo>, slots: set<Soinfo>, n: Soinfo)
    requires Partition(nodes, pool, slots) && n !in slots
    ensures Partition(nodes + [n], pool, slots + {n}) && Partition(nodes, [n] + pool, slots + {n})
    ensures n !in nodes && n !in pool
  {
    forall m | m in nodes
      ensures m in slots && m !in pool
    {
      OwnedMember(nodes, slots, m);
      DisjointMember(nodes, pool, m);
    }
    forall m | m in pool
      ensures m in slots
    {
      OwnedMember(pool, slots, m);
    }
    OwnedFrom(nodes + [n], slots + {n});
    OwnedFrom(nodes, slots + {n});
    OwnedFrom(pool, slots + {n});
    OwnedFrom([n] + pool, slots + {n});
    DisjointFrom(nodes + [n], pool);
    DisjointFrom(nodes, [n] + pool);
  }

  lemma PartitionCut(nodes: seq<Soinfo>, pool: seq<Soinfo>, slots: set<Soinfo>, k: nat)
    requires Partition(nodes, pool, slots) && Distinct(nodes) && k < |nodes|
    ensures Partition(nodes[..k] + nodes[k + 1..], pool, slots - {nodes[k]})
    ensures nodes[k] in slots && nodes[k] !in pool
  {
    var n, rest := nodes[k], nodes[..k] + nodes[k + 1..];
    OwnedMember(nodes, slots, n);
    DisjointMember(nodes, pool, n);
    forall m | m in rest
      ensures m in slots - {n} && m !in pool
    {
      OwnedMember(nodes, slots, m);
      DisjointMember(nodes, pool, m);
    }
    forall m | m in pool
      ensures m in slots - {n}
    {
      OwnedMember(pool, slots, m);
    }
    OwnedFrom(rest, slots - {n});
    OwnedFrom(pool, slots - {n});
    DisjointFrom(rest, pool);
  }

  class List {
    const libdl: Soinfo
    var sonext: Soinfo
    var freeList: Soinfo?
    ghost var nodes: seq<Soinfo>      // solist, in order
    ghost var pool: seq<Soinfo>       // the free list, in order
    ghost var repr: set<Soinfo>       // libdl_info and every pool slot ever allocated

    /** solist starts at libdl_info, is acyclic and ends at sonext with a null next; it and the
        free list are disjoint, and together they are all the slots. */
    ghost predicate Valid()
      reads this, nodes`next, pool`next
    {
      && Partition(nodes, pool, repr)
      && Chained(nodes, libdl) && |nodes| > 0 && sonext == nodes[|nodes| - 1]
      && Chained(pool, freeList)
    }

    constructor (root: Soinfo)
      requires root.next == null
      ensures Valid() && libdl == root && nodes == [root] && pool == [] && repr == {root}
    {
      libdl, sonext, freeList := root, root, null;
      nodes, pool, repr := [root], [], {root};
    }

    /** ensure_free_list_non_empty: a new pool, chained from its last slot back to its first. */
    method EnsureFreeListNonEmpty(granted: bool) returns (ok: bool)
      requires Valid()
      modifies this`freeList, this`pool, this`repr
      ensures Valid() && fresh(repr - old(repr)) && old(repr) <= repr
      ensures ok <==> |pool| > 0
      ensures |pool| == if old(|pool|) > 0 || !granted then old(|pool|) else 14
      ensures old(|pool|) > 0 ==> pool == old(pool)
      ensures old(|pool|) == 0 ==> forall i :: 0 <= i < |pool| ==> fresh(pool[i])
    {
      if freeList != null {
        return true;
      }
      if !granted {
        return false;
      }
      var next: Soinfo? := null;
      var i := SOINFO_PER_POOL;
      while i > 0
        invariant 0 <= i <= SOINFO_PER_POOL && |pool| == SOINFO_PER_POOL - i
        invariant fresh(repr - old(repr)) && old(repr) <= repr
        invariant forall i :: 0 <= i < |pool| ==> fresh(pool[i])
        invariant Partition(nodes, pool, repr)
        invariant Chained(nodes, libdl) && Chained(pool, next)
      {
        i := i - 1;
        var slot := new Soinfo();
        slot.next := next;
        ChainPush(slot, pool, next);
        PartitionAppend(nodes, pool, repr, slot);
        next := slot;
        pool := [slot] + pool;
        repr := repr + {slot};
      }
      freeList := next;
      return true;
    }

    /** The head element of the free list. */
    method Take() returns (si: Soinfo)
      requires Valid() && |pool| > 0
      modifies this`freeList, this`pool, this`repr
      ensures si == old(pool)[0] && pool == old(pool)[1..] && repr == old(repr) - {si}
      ensures Valid() && si !in nodes
    {
      ChainTail(pool, freeList);
      PartitionTake(nodes, pool, repr);
      si := freeList;
      freeList := freeList.next;
      pool := pool[1..];
      repr := repr - {si};
    }

    /** A record that is on neither list becomes the last of solist. */
    method Append(si: Soinfo)
      requires Valid() && si !in repr
      modifies this`sonext, this`nodes, this`repr, si`next, sonext`next
      ensures Valid() && nodes == old(nodes) + [si] && repr == old(repr) + {si}
    {
      ghost var was := nodes;
      ChainIsAcyclic(nodes, libdl);
      PartitionAppend(nodes, pool, repr, si);
      DisjointMember(nodes, pool, sonext);
      si.next := null;
      sonext.next := si;
      sonext := si;
      nodes := nodes + [si];
      repr := repr + {si};
      forall i | 0 <= i < |nodes|
        ensures LinkAt(nodes, i)
      {
        assert i < |was| - 1 ==> old(LinkAt(was, i));
      }
    }

    /** soinfo_alloc: the head of the free list is cleared and appended to solist. */
    method Alloc(name: string, granted: bool) returns (si: Soinfo?)
      requires Valid()
      modifies this, pool, sonext`next
      ensures Valid() && fresh(repr - old(repr)) && old(repr) <= repr
      ensures si != null <==> |name| < 128 && (old(|pool|) > 0 || granted)
      ensures si == null ==> nodes == old(nodes) && |pool| == old(|pool|)
      ensures si != null ==> nodes == old(nodes) + [si] && si !in old(nodes)
      ensures si != null ==> |pool| == (if old(|pool|) > 0 then old(|pool|) else 14) - 1
      ensures si != null ==> si.name == name && !si.linked && si.refCount == 0 && !si.constructed
    {
      if |name| >= SOINFO_NAME_LEN {
        return null;
      }
      var ready := EnsureFreeListNonEmpty(granted);
      if !ready {
        return null;
      }
      si := Take();
      si.Clear(name);
      Append(si);
    }

    /** soinfo_free: unlink a record of solist, wherever it is, and put it on the free list. A
        record that is not on solist is left alone. */
    method Free(si: Soinfo)
      requires Valid() && si != libdl
      modifies this, repr`next
      ensures Valid() && repr == old(repr)
      ensures si !in old(nodes) ==> nodes == old(nodes) && pool == old(pool)
      ensures si in old(nodes) ==> pool == [si] + old(pool) && RemovedFrom(old(nodes), si, nodes)
    {
      var prev: Soinfo? := null;
      var trav: Soinfo? := libdl;
      ghost var k := 0;
      while trav != null && trav != si
        invariant 0 <= k <= |nodes| && trav == (if k < |nodes| then nodes[k] else null)
        invariant prev == if k > 0 then nodes[k - 1] else null
        invariant si !in nodes[..k]
        decreases |nodes| - k
      {
        assert LinkAt(nodes, k);
        prev := trav;
        trav := trav.next;
        k := k + 1;
      }
      if trav == null {
        return;
      }
      assert RemovedFrom(nodes, si, nodes[..k] + nodes[k + 1..]);
      OwnedMember(nodes, repr, prev);
      OwnedMember(nodes, repr, si);
      Unlink(prev, si, k);
      Push(si);
    }

    method Push(si: Soinfo)
      requires Valid() && si !in repr
      modifies this`freeList, this`pool, this`repr, si`next
      ensures Valid() && pool == [si] + old(pool) && repr == old(repr) + {si}
    {
      PartitionAppend(nodes, pool, repr, si);
      si.next := freeList;
      ChainPush(si, pool, freeList);
      freeList := si;
      pool, repr := [si] + pool, repr + {si};
    }

    method Unlink(prev: Soinfo, si: Soinfo, ghost k: nat)
      requires Valid() && 0 < k < |nodes| && nodes[k - 1] == prev && nodes[k] == si
      modifies this`sonext, this`nodes, this`repr, prev`next
      ensures Valid() && nodes == old(nodes)[..k] + old(nodes)[k + 1..] && repr == old(repr) - {si}
    {
      ghost var was := nodes;
      ChainIsAcyclic(nodes, libdl);
      PartitionCut(nodes, pool, repr, k);
      DisjointMember(nodes, pool, prev);
      assert LinkAt(nodes, k);
      prev.next := si.next;
      if si == sonext {
        sonext := prev;
      }
      nodes := nodes[..k] + nodes[k + 1..];
      repr := repr - {si};
      forall i | 0 <= i < |pool|
        ensures LinkAt(pool, i)
      {
        assert pool[i] in pool && old(LinkAt(pool, i));
      }
      forall i | 0 <= i < |nodes|
        ensures LinkAt(nodes, i)
      {
        assert i < k - 1 ==> old(LinkAt(was, i));
        assert i >= k ==> old(LinkAt(was, i + 1));
      }
    }

    ghost predicate NoneBefore(k: nat, address: Word)
      reads this, nodes
    {
      forall j :: 0 <= j < k && j < |nodes| ==> !Contains(nodes[j], address)
    }

    /** find_containing_library: the first record of solist whose range holds the address. */
    method FindContaining(address: Word) returns (si: Soinfo?)
      requires Valid()
      ensures si == null ==> forall n :: n in nodes ==> !Contains(n, address)
      ensures si != null ==>
                Contains(si, address) && exists k :: 0 <= k < |nodes| && nodes[k] == si && NoneBefore(k, address)
    {
      si := libdl;
      ghost var k := 0;
      while si != null
        invariant 0 <= k <= |nodes| && si == (if k < |nodes| then nodes[k] else null)
        invariant NoneBefore(k, address)
        decreases |nodes| - k
      {
        assert LinkAt(nodes, k);
        if address >= si.base && address - si.base < si.size {
          return si;
        }
        si := si.next;
        k := k + 1;
      }
    }
  }

  predicate Contains(si: Soinfo, address: Word)
    reads si
  {
    Within(address, si.base, si.size)
  }

  /** t is s without its one occurrence of x, which is not the first element. */
  ghost predicate RemovedFrom(s: seq<Soinfo>, x: Soinfo, t: seq<Soinfo>) {
    exists k :: 0 < k < |s| && s[k] == x && t == s[..k] + s[k + 1..]
  }
}
