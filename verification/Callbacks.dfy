/** soinfo::CallFunction and soinfo::CallArray: which constructors and destructors are called,
    and in which order. */
module Callbacks {
  import opened Base
  import opened Lifecycle

  /** A size_t as the int that the loop variables of CallArray hold. */
  function AsInt(w: Word): int {
    if w < 0x8000_0000 then w else w - WORDS
  }

  lemma {:induction false} CallableAppend(s: seq<Word>, t: seq<Word>)
    ensures Callable(s + t) == Callable(s) + Callable(t)
  {
    if s == [] {
      assert s + t == t;
    } else {
      CallableAppend(s[1..], t);
      assert (s + t)[1..] == s[1..] + t && (s + t)[0] == s[0];
      CallableStep(s);
      CallableStep(s + t);
    }
  }

  lemma CallableStep(s: seq<Word>)
    requires s != []
    ensures Callable(s) == Callable([s[0]]) + Callable(s[1..])
  {
  }

  /** The calls are made in the order of the array, null and -1 left out. */
  lemma CalledInOrder(s: seq<Word>, f: Word)
    ensures Callable([]) == []
    ensures Callable(s + [f]) == Callable(s) + (if f == 0 || f == 0xffff_ffff then [] else [f])
  {
    CallableAppend(s, [f]);
  }

  lemma {:induction false} ReversedAppend(s: seq<Word>, t: seq<Word>)
    ensures Reversed(s + t) == Reversed(t) + Reversed(s)
  {
    if s == [] {
      assert s + t == t;
    } else {
      ReversedAppend(s[1..], t);
      assert (s + t)[1..] == s[1..] + t && (s + t)[0] == s[0];
    }
  }

  /** The functions that a backward walk calls are those of the forward walk, last one first. */
  lemma {:induction false} BackwardIsReversed(s: seq<Word>)
    ensures Callable(Reversed(s)) == Reversed(Callable(s))
  {
    if s != [] {
      BackwardIsReversed(s[1..]);
      CallableAppend(Reversed(s[1..]), [s[0]]);
      ReversedAppend(Callable([s[0]]), Callable(s[1..]));
      assert Callable(s) == Callable([s[0]]) + Callable(s[1..]);
      assert Reversed(Callable([s[0]])) == Callable([s[0]]);
    }
  }

  /** CallFunction: the calls so far, and this one unless the function is null or -1. */
  method CallFunction(f: Word, before: seq<Word>) returns (calls: seq<Word>)
    ensures calls == before + Callable([f])
  {
    if f == 0 || f == 0xffff_ffff {
      return before;
    }
    return before + [f];
  }

  /** CallArray: the functions of an array, forwards or backwards. Backwards from count - 1 to
      -1, where count - 1 is an unsigned difference that an int takes for -1 when count is 0. */
  method CallArray(functions: Option<FunctionArray>, reverse: bool, before: seq<Word>) returns (calls: seq<Word>)
    ensures calls == before + match functions
                              case None => []
                              case Some(s) => Callable(if reverse then Reversed(s) else s)
  {
    calls := before;
    if functions.None? {
      return;
    }
    var s := functions.value;
    var count := |s|;
    var begin := if reverse then AsInt(Sub32(count, 1)) else 0;
    var end := if reverse then -1 else AsInt(count);
    var step := if reverse then -1 else 1;
    ghost var walk := if reverse then Reversed(s) else s;
    ghost var done := 0;
    var i := begin;
    while i != end
      invariant 0 <= done <= count && i == (if reverse then count - 1 - done else done)
      invariant calls == before + Callable(walk[..done])
      decreases count - done
    {
      calls := CallFunction(s[i], calls);
      CallableAppend(walk[..done], [walk[done]]);
      assert walk[..done + 1] == walk[..done] + [walk[done]];
      i, done := i + step, done + 1;
    }
    assert walk[..done] == walk;
  }

  /** The calls of CallConstructors for one library: DT_INIT before DT_INIT_ARRAY. */
  method RunConstructors(image: Image) returns (calls: seq<Word>)
    ensures calls == InitCalls(image)
  {
    calls := CallFunction(image.init, []);
    calls := CallArray(image.initArray, false, calls);
  }

  /** The calls of CallDestructors: DT_FINI_ARRAY backwards before DT_FINI. */
  method RunDestructors(image: Image) returns (calls: seq<Word>)
    ensures calls == FiniCalls(image)
  {
    calls := CallArray(image.finiArray, true, []);
    calls := CallFunction(image.fini, calls);
  }

  predicate IsCallable(f: Word) {
    f != 0 && f != 0xffff_ffff
  }

  /** Every function of an array is called as often as it is listed, null and -1 excepted. */
  lemma {:induction false} CalledAsListed(s: seq<Word>, f: Word)
    ensures multiset(Callable(s))[f] == if IsCallable(f) then multiset(s)[f] else 0
  {
    if s != [] {
      CalledAsListed(s[1..], f);
      CallableStep(s);
      assert s == [s[0]] + s[1..];
      assert multiset(Callable(s)) == multiset(Callable([s[0]])) + multiset(Callable(s[1..]));
      assert multiset(s) == multiset([s[0]]) + multiset(s[1..]);
    }
  }

  /** DT_INIT is the first constructor to be called, DT_FINI the last destructor. */
  lemma InitFirstFiniLast(image: Image)
    ensures IsCallable(image.init) ==> InitCalls(image) != [] && InitCalls(image)[0] == image.init
    ensures IsCallable(image.fini) ==> FiniCalls(image) != [] && FiniCalls(image)[|FiniCalls(image)| - 1] == image.fini
  {
    assert IsCallable(image.init) ==> Callable([image.init]) == [image.init];
    assert IsCallable(image.fini) ==> Callable([image.fini]) == [image.fini];
  }

  /** What destructors see is the mirror image of what the same functions would see as
      constructors: each of them, in exactly the opposite order. */
  lemma DestructorsMirrorConstructors(image: Image)
    ensures FiniCalls(image) == Reversed(InitCalls(image.(init := image.fini, initArray := image.finiArray)))
  {
    var tail := if image.finiArray.Some? then Callable(image.finiArray.value) else [];
    ReversedAppend(Callable([image.fini]), tail);
    if image.finiArray.Some? {
      BackwardIsReversed(image.finiArray.value);
    }
    assert Reversed(Callable([image.fini])) == Callable([image.fini]);
  }
}
