/** Which files can be opened, as a matter of files and names alone: no counts, addresses or requests. */
module Closure {
  import opened Base
  import opened Symbols
  import opened Segments
  import opened Relocation
  import opened Verdict
  import opened Lifecycle

  // What is known of a listed library: whether it is linked, and its symbol table.
  datatype Book = Book(linked: bool, table: SymTable)

  // The listed libraries, by name.
  type Shelf = map<string, Book>

  /** The file opens, has something to load, a name short enough, and all that linking asks for before it
      looks at dependencies. */
  predicate Loadable(files: map<string, Image>, name: string) {
    && name in files && LoadSize(files[name].phdrs) != 0 && |Basename(name)| < 128
    && files[name].dynamic && !files[name].rela && |files[name].table.bucket| != 0
    && files[name].strtab && files[name].symtab
  }

  /** The tables that the needed names stand for on the shelf. */
  function ScopeOn(shelf: Shelf, needed: seq<string>): (r: seq<Provider>)
    ensures |r| == |needed|
    ensures forall i :: 0 <= i < |needed| ==> r[i] == ProviderOn(shelf, needed[i])
  {
    seq(|needed|, i requires 0 <= i < |needed| => ProviderOn(shelf, needed[i]))
  }

  function ProviderOn(shelf: Shelf, name: string): Provider {
    Provider(if Basename(name) in shelf then shelf[Basename(name)].table else NO_TABLE, 0)
  }

  function Missing(files: map<string, Image>, shelf: Shelf): set<string> {
    Bases(files) - shelf.Keys
  }

  function Bases(files: map<string, Image>): set<string> {
    set f | f in files :: Basename(f)
  }

  /** What is on the shelf stays as it is. */
  predicate Kept(s: Shelf, t: Shelf) {
    s.Keys <= t.Keys && forall n :: n in s ==> t[n] == s[n]
  }

  function Entering(shelf: Shelf, name: string, image: Image): Shelf {
    shelf[Basename(name) := Book(false, image.table)]
  }

  /** The end of a link, once the needed libraries are on the shelf. */
  function Linking(shelf: Shelf, name: string, image: Image, filled: Option<Shelf>): (r: Option<Shelf>)
    requires Basename(name) !in shelf && (filled.Some? ==> Kept(Entering(shelf, name, image), filled.value))
    ensures r.Some? ==> Kept(shelf, r.value)
  {
    if filled.Some? && AllApply(image.table, ScopeOn(filled.value, image.needed), Entries(image))
    then Some(filled.value[Basename(name) := Book(true, image.table)]) else None
  }

  /** The shelf after the name has been found or loaded and linked, its dependencies before it in the order
      of DT_NEEDED; None when that fails. */
  function Resolve(files: map<string, Image>, shelf: Shelf, name: string): (r: Option<Shelf>)
    ensures r.Some? ==> Kept(shelf, r.value)
    decreases |Missing(files, shelf)|, 0, 0
  {
    if Basename(name) in shelf then (if shelf[Basename(name)].linked then Some(shelf) else None)
    else if !Loadable(files, name) then None
    else
      var entered := Entering(shelf, name, files[name]);
      OneMissingLess(files, shelf, name, entered);
      Linking(shelf, name, files[name], ResolveAll(files, entered, files[name].needed))
  }

  lemma ResolveStep(files: map<string, Image>, shelf: Shelf, name: string)
    requires Basename(name) !in shelf && Loadable(files, name)
    ensures var image := files[name];
            var entered := Entering(shelf, name, image);
            && |Missing(files, entered)| < |Missing(files, shelf)|
            && (Resolve(files, shelf, name).Some? <==>
                  && ResolveAll(files, entered, image.needed).Some?
                  && AllApply(image.table, ScopeOn(ResolveAll(files, entered, image.needed).value, image.needed),
                              Entries(image)))
            && (Resolve(files, shelf, name).Some? ==>
                  Resolve(files, shelf, name).value ==
                  ResolveAll(files, entered, image.needed).value[Basename(name) := Book(true, image.table)])
  {
    hide Basename;
    hide Kept, AllApply;
    OneMissingLess(files, shelf, name, Entering(shelf, name, files[name]));
  }

  function ResolveAll(files: map<string, Image>, shelf: Shelf, names: seq<string>): (r: Option<Shelf>)
    ensures r.Some? ==> Kept(shelf, r.value)
    decreases |Missing(files, shelf)|, 1, |names|
  {
    if names == [] then Some(shelf)
    else match Resolve(files, shelf, names[0])
      case None => None
      case Some(s) =>
        NoMoreMissing(files, shelf, s);
        ResolveAll(files, s, names[1..])
  }

  lemma OneMissingLess(files: map<string, Image>, shelf: Shelf, name: string, t: Shelf)
    requires name in files && Basename(name) !in shelf && t.Keys == shelf.Keys + {Basename(name)}
    ensures |Missing(files, t)| < |Missing(files, shelf)|
  {
    assert Basename(name) in Missing(files, shelf) && Basename(name) !in Missing(files, t);
    SubsetSize(Missing(files, t), Missing(files, shelf));
  }

  lemma NoMoreMissing(files: map<string, Image>, s: Shelf, t: Shelf)
    requires s.Keys <= t.Keys
    ensures |Missing(files, t)| <= |Missing(files, s)|
  {
    SubsetSize(Missing(files, t), Missing(files, s));
  }

  // ------------------------------------------------------------------ the closure

  /** The name is that of a linked library; or of a file that can be loaded, whose DT_NEEDED names all link
      within a depth less one, and whose entries apply to the tables that these stand for. */
  predicate LinksWithin(files: map<string, Image>, shelf: Shelf, name: string, depth: nat)
    decreases depth
  {
    if name in shelf then shelf[name].linked
    else
      && depth > 0 && Loadable(files, name)
      && (forall i :: 0 <= i < |files[name].needed| ==> LinksWithin(files, shelf, files[name].needed[i], depth - 1))
      && AllApply(files[name].table, ScopeOf(files, shelf, files[name].needed), Entries(files[name]))
  }

  function ScopeOf(files: map<string, Image>, shelf: Shelf, needed: seq<string>): (r: seq<Provider>)
    ensures |r| == |needed|
    ensures forall i :: 0 <= i < |needed| ==> r[i] == ProviderIn(files, shelf, needed[i])
  {
    seq(|needed|, i requires 0 <= i < |needed| => ProviderIn(files, shelf, needed[i]))
  }

  function ProviderIn(files: map<string, Image>, shelf: Shelf, name: string): Provider {
    Provider(if name in shelf then shelf[name].table else if name in files then files[name].table else NO_TABLE, 0)
  }

  /** No name has a directory. */
  predicate Plain(files: map<string, Image>) {
    forall f :: f in files ==> '/' !in f && forall i :: 0 <= i < |files[f].needed| ==> '/' !in files[f].needed[i]
  }

  lemma OwnBasename(name: string)
    requires '/' !in name
    ensures Basename(name) == name
  {
    PlainName(name, |name|);
  }

  lemma {:induction false} LinksDeeper(files: map<string, Image>, shelf: Shelf, name: string, d: nat, e: nat)
    requires LinksWithin(files, shelf, name, d) && d <= e
    ensures LinksWithin(files, shelf, name, e)
    decreases d
  {
    if name !in shelf {
      forall i | 0 <= i < |files[name].needed|
        ensures LinksWithin(files, shelf, files[name].needed[i], e - 1)
      {
        LinksDeeper(files, shelf, files[name].needed[i], d - 1, e - 1);
      }
    }
  }

  // Everything on the shelf was on the first one, or is a file of this name.
  predicate Grown(files: map<string, Image>, first: Shelf, s: Shelf) {
    && Kept(first, s)
    && forall n :: n in s && n !in first ==> n in files && s[n].table == files[n].table
  }

  lemma SameScope(files: map<string, Image>, first: Shelf, s: Shelf, needed: seq<string>)
    requires Grown(files, first, s)
    requires forall i :: 0 <= i < |needed| ==> '/' !in needed[i] && needed[i] in s
    ensures ScopeOn(s, needed) == ScopeOf(files, first, needed)
  {
    var a, b := ScopeOn(s, needed), ScopeOf(files, first, needed);
    forall i | 0 <= i < |needed|
      ensures a[i] == b[i]
    {
      OwnBasename(needed[i]);
    }
    assert a == b;
  }

  // -------------------------------------------------- what resolves is in the closure

  // What has been linked beyond the first shelf links within some depth.
  ghost predicate Proved(files: map<string, Image>, first: Shelf, s: Shelf) {
    Grown(files, first, s) && forall n :: n in s && s[n].linked ==> LinksSomehow(files, first, n)
  }

  ghost predicate LinksSomehow(files: map<string, Image>, first: Shelf, name: string) {
    exists d: nat :: LinksWithin(files, first, name, d)
  }

  lemma NeedsLoadable(files: map<string, Image>, s: Shelf, name: string)
    requires Basename(name) !in s && Resolve(files, s, name).Some?
    ensures Loadable(files, name) && name in files
  {
  }

  lemma AlreadyThere(files: map<string, Image>, s: Shelf, name: string)
    requires Basename(name) in s && Resolve(files, s, name).Some?
    ensures s[Basename(name)].linked && Resolve(files, s, name) == Some(s)
  {
  }

  lemma {:induction false} ResolvedLinks(files: map<string, Image>, first: Shelf, s: Shelf, name: string)
    requires Plain(files) && '/' !in name && Proved(files, first, s) && Resolve(files, s, name).Some?
    ensures Proved(files, first, Resolve(files, s, name).value) && LinksSomehow(files, first, name)
    ensures name in Resolve(files, s, name).value && Resolve(files, s, name).value[name].linked
    decreases |Missing(files, s)|, 0, 0
  {
    hide Resolve, ResolveAll, AllApply, Missing, Entries, Basename, Loadable, Proved, LinksSomehow;
    OwnBasename(name);
    if name in s {
      AlreadyThere(files, s, name);
      ProvedLinks(files, first, s, name);
    } else {
      NeedsLoadable(files, s, name);
      var image := files[name];
      var entered := Entering(s, name, image);
      ResolveStep(files, s, name);
      EnteredProved(files, first, s, name);
      AllResolvedLink(files, first, entered, image.needed);
      var filled := ResolveAll(files, entered, image.needed).value;
      NowProved(files, first, s, name, filled);
    }
  }

  lemma ProvedLinks(files: map<string, Image>, first: Shelf, s: Shelf, name: string)
    requires Proved(files, first, s) && name in s && s[name].linked
    ensures LinksSomehow(files, first, name)
  {
  }

  lemma EnteredProved(files: map<string, Image>, first: Shelf, s: Shelf, name: string)
    requires Proved(files, first, s) && '/' !in name && name !in s && name in files
    ensures Proved(files, first, Entering(s, name, files[name]))
  {
    hide Basename, LinksSomehow;
    OwnBasename(name);
  }

  lemma NowProved(files: map<string, Image>, first: Shelf, s: Shelf, name: string, filled: Shelf)
    requires Plain(files) && Proved(files, first, s) && name !in s && Loadable(files, name) && '/' !in name
    requires Proved(files, first, filled) && Kept(Entering(s, name, files[name]), filled)
    requires forall i :: 0 <= i < |files[name].needed| ==>
               files[name].needed[i] in filled && LinksSomehow(files, first, files[name].needed[i])
    requires AllApply(files[name].table, ScopeOn(filled, files[name].needed), Entries(files[name]))
    ensures LinksSomehow(files, first, name)
    ensures Proved(files, first, filled[name := Book(true, files[name].table)])
  {
    hide Basename, AllApply, Entries;
    OwnBasename(name);
    SameScope(files, first, filled, files[name].needed);
    var d := CommonDepth(files, first, files[name].needed);
    assert name !in first;
    assert LinksWithin(files, first, name, d + 1);
  }

  lemma {:induction false} AllResolvedLink(files: map<string, Image>, first: Shelf, s: Shelf, names: seq<string>)
    requires Plain(files) && Proved(files, first, s) && ResolveAll(files, s, names).Some?
    requires forall i :: 0 <= i < |names| ==> '/' !in names[i]
    ensures Proved(files, first, ResolveAll(files, s, names).value)
    ensures forall i :: 0 <= i < |names| ==>
              names[i] in ResolveAll(files, s, names).value && LinksSomehow(files, first, names[i])
    decreases |Missing(files, s)|, 1, |names|
  {
    hide Resolve, AllApply, Missing, Proved, LinksSomehow;
    if names != [] {
      ResolvedLinks(files, first, s, names[0]);
      var t := Resolve(files, s, names[0]).value;
      NoMoreMissing(files, s, t);
      AllResolvedLink(files, first, t, names[1..]);
      forall i | 0 <= i < |names|
        ensures names[i] in ResolveAll(files, s, names).value && LinksSomehow(files, first, names[i])
      {
        assert i > 0 ==> names[i] == names[1..][i - 1];
      }
    }
  }

  lemma {:induction false} CommonDepth(files: map<string, Image>, first: Shelf, names: seq<string>) returns (d: nat)
    requires forall i :: 0 <= i < |names| ==> LinksSomehow(files, first, names[i])
    ensures forall i :: 0 <= i < |names| ==> LinksWithin(files, first, names[i], d)
  {
    d := 0;
    if names != [] {
      assert LinksSomehow(files, first, names[0]);
      var a: nat :| LinksWithin(files, first, names[0], a);
      var b := CommonDepth(files, first, names[1..]);
      d := if a < b then b else a;
      forall i | 0 <= i < |names|
        ensures LinksWithin(files, first, names[i], d)
      {
        if i == 0 {
          LinksDeeper(files, first, names[0], a, d);
        } else {
          assert names[i] == names[1..][i - 1];
          LinksDeeper(files, first, names[i], b, d);
        }
      }
    }
  }

  // ------------------------------------------------ what is in the closure resolves

  // No library that is still being linked could be reached within this depth.
  predicate OutOfReach(files: map<string, Image>, first: Shelf, s: Shelf, d: nat) {
    Grown(files, first, s) && forall n :: n in s && !s[n].linked ==> !LinksWithin(files, first, n, d)
  }

  lemma {:induction false} LeastDepth(files: map<string, Image>, first: Shelf, name: string, d: nat) returns (e: nat)
    requires LinksWithin(files, first, name, d)
    ensures e <= d && LinksWithin(files, first, name, e) && (e > 0 ==> !LinksWithin(files, first, name, e - 1))
    decreases d
  {
    if d == 0 || !LinksWithin(files, first, name, d - 1) {
      e := d;
    } else {
      e := LeastDepth(files, first, name, d - 1);
    }
  }

  lemma LinksStep(files: map<string, Image>, first: Shelf, name: string, d: nat)
    requires name !in first && LinksWithin(files, first, name, d)
    ensures d > 0 && Loadable(files, name)
    ensures forall i :: 0 <= i < |files[name].needed| ==> LinksWithin(files, first, files[name].needed[i], d - 1)
    ensures AllApply(files[name].table, ScopeOf(files, first, files[name].needed), Entries(files[name]))
  {
  }

  /** Below its least depth the library itself is out of reach. */
  lemma EnteredOutOfReach(files: map<string, Image>, first: Shelf, s: Shelf, name: string, e: nat, d: nat)
    requires OutOfReach(files, first, s, d) && 0 < e <= d && !LinksWithin(files, first, name, e - 1)
    requires name !in s && name in files && '/' !in name
    ensures OutOfReach(files, first, Entering(s, name, files[name]), e - 1)
  {
    hide LinksWithin, Basename;
    OwnBasename(name);
    var entered := Entering(s, name, files[name]);
    forall n | n in entered && !entered[n].linked
      ensures !LinksWithin(files, first, n, e - 1)
    {
      if n != name && LinksWithin(files, first, n, e - 1) {
        LinksDeeper(files, first, n, e - 1, d);
      }
    }
  }

  lemma OutOfReachIsLinked(files: map<string, Image>, first: Shelf, s: Shelf, name: string, d: nat)
    requires OutOfReach(files, first, s, d) && LinksWithin(files, first, name, d) && name in s && '/' !in name
    ensures Resolve(files, s, name) == Some(s)
  {
    hide LinksWithin, Basename;
    OwnBasename(name);
  }

  lemma {:induction false} LinkedResolves(files: map<string, Image>, first: Shelf, s: Shelf, name: string, d: nat)
    requires Plain(files) && '/' !in name && OutOfReach(files, first, s, d) && LinksWithin(files, first, name, d)
    ensures Resolve(files, s, name).Some? && OutOfReach(files, first, Resolve(files, s, name).value, d)
    ensures name in Resolve(files, s, name).value
    decreases d, 0, 0
  {
    hide Resolve, ResolveAll, AllApply, Missing, Entries, LinksWithin, Loadable, Basename;
    if name in s {
      OutOfReachIsLinked(files, first, s, name, d);
    } else {
      OwnBasename(name);
      assert name !in first;
      var e := LeastDepth(files, first, name, d);
      LinksStep(files, first, name, e);
      LoadableIsFile(files, name);
      EnteredOutOfReach(files, first, s, name, e, d);
      var entered := Entering(s, name, files[name]);
      ResolveStep(files, s, name);
      AllLinkedResolve(files, first, entered, files[name].needed, e - 1);
      var filled := ResolveAll(files, entered, files[name].needed).value;
      SameScope(files, first, filled, files[name].needed);
      StillOutOfReach(files, first, s, name, filled, d);
    }
  }

  lemma LoadableIsFile(files: map<string, Image>, name: string)
    requires Loadable(files, name)
    ensures name in files
  {
  }

  /** The new library is linked in the end, and those that were being linked still are. */
  lemma StillOutOfReach(files: map<string, Image>, first: Shelf, s: Shelf, name: string, filled: Shelf, d: nat)
    requires OutOfReach(files, first, s, d) && name !in s && name in files && Grown(files, first, filled)
    requires name in filled && filled[name].table == files[name].table
    requires forall n :: n in filled && !filled[n].linked ==> n == name || (n in s && !s[n].linked)
    ensures OutOfReach(files, first, filled[name := Book(true, files[name].table)], d)
  {
  }

  lemma {:induction false} AllLinkedResolve(files: map<string, Image>, first: Shelf, s: Shelf, names: seq<string>,
                                            d: nat)
    requires Plain(files) && OutOfReach(files, first, s, d)
    requires forall i :: 0 <= i < |names| ==> '/' !in names[i] && LinksWithin(files, first, names[i], d)
    ensures ResolveAll(files, s, names).Some? && OutOfReach(files, first, ResolveAll(files, s, names).value, d)
    ensures forall i :: 0 <= i < |names| ==> names[i] in ResolveAll(files, s, names).value
    ensures forall n :: n in ResolveAll(files, s, names).value && !ResolveAll(files, s, names).value[n].linked ==>
              n in s && !s[n].linked
    decreases d, 1, |names|
  {
    if names != [] {
      LinkedResolves(files, first, s, names[0], d);
      NothingPending(files, s, names[0]);
      var t := Resolve(files, s, names[0]).value;
      forall i | 0 <= i < |names[1..]|
        ensures '/' !in names[1..][i] && LinksWithin(files, first, names[1..][i], d)
      {
        assert names[1..][i] == names[i + 1];
      }
      AllLinkedResolve(files, first, t, names[1..], d);
      forall i | 0 <= i < |names|
        ensures names[i] in ResolveAll(files, s, names).value
      {
        assert i > 0 ==> names[i] == names[1..][i - 1];
      }
    }
  }

  /** What a resolution adds is linked. */
  lemma {:induction false} NothingPending(files: map<string, Image>, s: Shelf, name: string)
    requires Resolve(files, s, name).Some?
    ensures var t := Resolve(files, s, name).value;
            forall n :: n in t && !t[n].linked ==> n in s && !s[n].linked
    decreases |Missing(files, s)|, 0, 0
  {
    hide ResolveAll, AllApply, Missing, Entries;
    if Basename(name) !in s {
      var entered := Entering(s, name, files[name]);
      ResolveStep(files, s, name);
      NonePending(files, entered, files[name].needed);
    }
  }

  lemma {:induction false} NonePending(files: map<string, Image>, s: Shelf, names: seq<string>)
    requires ResolveAll(files, s, names).Some?
    ensures var t := ResolveAll(files, s, names).value;
            forall n :: n in t && !t[n].linked ==> n in s && !s[n].linked
    decreases |Missing(files, s)|, 1, |names|
  {
    if names != [] {
      NothingPending(files, s, names[0]);
      var t := Resolve(files, s, names[0]).value;
      NoMoreMissing(files, s, t);
      NonePending(files, t, names[1..]);
    }
  }

  /** From a shelf of linked libraries, with names that have no directory, a name resolves exactly when it
      is linked, or its file and those of its whole DT_NEEDED closure load and are acceptable, at some
      depth: so that no chain of needed names that are not listed comes back to itself. */
  lemma ResolvesIffLinks(files: map<string, Image>, shelf: Shelf, name: string)
    requires Plain(files) && '/' !in name && forall n :: n in shelf ==> shelf[n].linked
    ensures Resolve(files, shelf, name).Some? <==> LinksSomehow(files, shelf, name)
  {
    if Resolve(files, shelf, name).Some? {
      forall n | n in shelf
        ensures LinksSomehow(files, shelf, n)
      {
        assert LinksWithin(files, shelf, n, 0);
      }
      ResolvedLinks(files, shelf, shelf, name);
    }
    if LinksSomehow(files, shelf, name) {
      var d: nat :| LinksWithin(files, shelf, name, d);
      LinkedResolves(files, shelf, shelf, name, d);
    }
  }
}
