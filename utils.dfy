/**
 * utils.js: `Array.prototype.removeOneByValue`, and `Barrier`, the counting join that
 * fan-out code waits on.  A JavaScript error value is `Some(e)` when it is truthy and `None`
 * when it is falsy (undefined, null); the end callback a caller registers is known by an
 * identity of its own.
 */
module Utils {

  import opened Wrappers

  // ---------------------------------------------------------------------------
  // removeOneByValue

  /** Where the loop of removeOneByValue stops: the last index holding v, or -1. */
  function LastIndexOf<T(==)>(xs: seq<T>, v: T): (i: int)
    ensures -1 <= i < |xs|
    ensures i == -1 <==> v !in xs
    ensures 0 <= i ==> xs[i] == v && forall j :: i < j < |xs| ==> xs[j] != v
  {
    if xs == [] then -1
    else if xs[|xs| - 1] == v then |xs| - 1
    else LastIndexOf(xs[..|xs| - 1], v)
  }

  /** The array's contents after `removeOneByValue(v)`. */
  function WithoutLast<T(==)>(xs: seq<T>, v: T): seq<T>
  {
    var i := LastIndexOf(xs, v);
    if i < 0 then xs else xs[..i] + xs[i + 1..]
  }

  /** The backward scan of removeOneByValue: the first match from the end is spliced out. */
  method RemoveOneByValue<T(==)>(xs: seq<T>, v: T) returns (ys: seq<T>)
    ensures ys == WithoutLast(xs, v)
  {
    var i: int := |xs| - 1;
    while i >= 0
      invariant -1 <= i < |xs|
      invariant LastIndexOf(xs, v) <= i
    {
      if xs[i] == v {
        return xs[..i] + xs[i + 1..];
      }
      i := i - 1;
    }
    return xs;
  }

  predicate NoDuplicates<T(==)>(xs: seq<T>) {
    forall i, j :: 0 <= i < j < |xs| ==> xs[i] != xs[j]
  }

  /** An absent value leaves the contents alone; a present one costs exactly one element, one
      copy of v, and nothing else. */
  lemma WithoutLastFacts<T>(xs: seq<T>, v: T)
    ensures v !in xs ==> WithoutLast(xs, v) == xs
    ensures |WithoutLast(xs, v)| == |xs| - 1 <==> v in xs
    ensures v in xs ==> multiset(WithoutLast(xs, v)) == multiset(xs) - multiset{v}
    ensures forall x :: x != v ==> (x in WithoutLast(xs, v) <==> x in xs)
  {
    var i := LastIndexOf(xs, v);
    if i >= 0 {
      assert xs == xs[..i] + [v] + xs[i + 1..];
      assert multiset(xs) == multiset(xs[..i]) + multiset{v} + multiset(xs[i + 1..]);
      forall x | x != v
        ensures x in WithoutLast(xs, v) <==> x in xs
      {
        assert x in xs <==> x in multiset(xs);
        assert x in WithoutLast(xs, v) <==> x in multiset(WithoutLast(xs, v));
      }
    }
  }

  /** The elements kept stay in their order: removal is a deletion at the last occurrence. */
  lemma WithoutLastOrder<T>(xs: seq<T>, v: T)
    requires v in xs
    ensures |WithoutLast(xs, v)| == |xs| - 1
    ensures forall j :: 0 <= j < LastIndexOf(xs, v) ==> WithoutLast(xs, v)[j] == xs[j]
    ensures forall j :: LastIndexOf(xs, v) <= j < |xs| - 1 ==> WithoutLast(xs, v)[j] == xs[j + 1]
  {
    var i := LastIndexOf(xs, v);
    var ys := xs[..i] + xs[i + 1..];
    assert WithoutLast(xs, v) == ys;
    forall j | 0 <= j < i
      ensures ys[j] == xs[j]
    {
      SpliceIndex(xs, i, j);
    }
    forall j | i <= j < |xs| - 1
      ensures ys[j] == xs[j + 1]
    {
      SpliceIndex(xs, i, j);
    }
  }

  lemma SpliceIndex<T>(xs: seq<T>, i: nat, j: nat)
    requires i < |xs| && j < |xs| - 1
    ensures |xs[..i] + xs[i + 1..]| == |xs| - 1
    ensures (xs[..i] + xs[i + 1..])[j] == if j < i then xs[j] else xs[j + 1]
  {
    if i <= j {
      assert (xs[..i] + xs[i + 1..])[j] == xs[i + 1..][j - i];
    }
  }

  /** A list without duplicates loses v altogether and stays free of duplicates. */
  lemma WithoutLastNoDuplicates<T>(xs: seq<T>, v: T)
    requires NoDuplicates(xs)
    ensures NoDuplicates(WithoutLast(xs, v)) && v !in WithoutLast(xs, v)
  {
    var i := LastIndexOf(xs, v);
    if i >= 0 {
      var ys := WithoutLast(xs, v);
      forall j | 0 <= j < |ys|
        ensures ys[j] != v
      {
        if j < i {
          assert ys[j] == xs[j];
        } else {
          assert ys[j] == xs[j + 1];
        }
      }
      forall a, b | 0 <= a < b < |ys|
        ensures ys[a] != ys[b]
      {
        var a', b' := if a < i then a else a + 1, if b < i then b else b + 1;
        assert ys[a] == xs[a'] && ys[b] == xs[b'] && a' < b';
      }
    }
  }

  // ---------------------------------------------------------------------------
  // Barrier

  /** A truthy JavaScript error value. */
  datatype Err = Err(message: string)

  /** The identity of an end callback handed to `wait`. */
  type CallbackId = nat

  /** A call of the end callback, with its argument. */
  datatype Call = Call(callback: CallbackId, arg: Option<Err>)

  /** The pending count, the error slot and the registered end callback. */
  datatype BarrierState = BarrierState(counter: int, err: Option<Err>, endCallback: Option<CallbackId>)

  /** What `tick()` does before it returns its handler. */
  function AfterTick(s: BarrierState): BarrierState
  {
    s.(counter := s.counter + 1)
  }

  /** A handler called with `err`: the new state and the call of the end callback, if any. */
  function AfterHandler(s: BarrierState, err: Option<Err>): (BarrierState, Option<Call>)
  {
    var s' := s.(counter := s.counter - 1, err := if err.Some? then err else s.err);
    (s', if s'.counter == 0 && s'.endCallback.Some? then Some(Call(s'.endCallback.value, err)) else None)
  }

  /** `wait(endcb)`. */
  function AfterWait(s: BarrierState, cb: CallbackId): (BarrierState, Option<Call>)
  {
    (s.(endCallback := Some(cb)), if s.counter == 0 then Some(Call(cb, s.err)) else None)
  }

  /** `clear()`. */
  function AfterClear(s: BarrierState): BarrierState
  {
    s.(endCallback := None, err := None)
  }

  class Barrier {
    var counter: int
    var err: Option<Err>
    var endCallback: Option<CallbackId>

    function State(): BarrierState
      reads this
    {
      BarrierState(counter, err, endCallback)
    }

    /** `new Barrier()`: the count is 0; err and the end callback are unset. */
    constructor ()
      ensures State() == BarrierState(0, None, None)
    {
      counter := 0;
      err := None;
      endCallback := None;
    }

    /** `tick()`; calling the handler it returns is `Handler`. */
    method Tick()
      modifies this
      ensures State() == AfterTick(old(State()))
    {
      counter := counter + 1;
    }

    /** The handler `tick()` returns, called with `e`. */
    method Handler(e: Option<Err>) returns (fired: Option<Call>)
      modifies this
      ensures (State(), fired) == AfterHandler(old(State()), e)
    {
      counter := counter - 1;
      if e.Some? {
        err := e;
      }
      if counter == 0 && endCallback.Some? {
        fired := Some(Call(endCallback.value, e));
      } else {
        fired := None;
      }
    }

    method Wait(cb: CallbackId) returns (fired: Option<Call>)
      modifies this
      ensures (State(), fired) == AfterWait(old(State()), cb)
    {
      endCallback := Some(cb);
      if counter == 0 {
        fired := Some(Call(cb, err));
      } else {
        fired := None;
      }
    }

    method Clear()
      modifies this
      ensures State() == AfterClear(old(State()))
    {
      endCallback := None;
      err := None;
    }
  }

  /** A run of handler calls, in order: the final state and what each call fired. */
  function Handlers(s: BarrierState, errs: seq<Option<Err>>): (r: (BarrierState, seq<Option<Call>>))
    ensures |r.1| == |errs|
    decreases |errs|
  {
    if errs == [] then (s, [])
    else
      var first := AfterHandler(s, errs[0]);
      var rest := Handlers(first.0, errs[1..]);
      (rest.0, [first.1] + rest.1)
  }

  /** The last truthy error among errs, or d when there is none. */
  function LastTruthy(errs: seq<Option<Err>>, d: Option<Err>): Option<Err>
  {
    if errs == [] then d
    else if errs[|errs| - 1].Some? then errs[|errs| - 1]
    else LastTruthy(errs[..|errs| - 1], d)
  }

  lemma {:induction false} LastTruthyCons(e: Option<Err>, errs: seq<Option<Err>>, d: Option<Err>)
    ensures LastTruthy([e] + errs, d) == LastTruthy(errs, if e.Some? then e else d)
    decreases |errs|
  {
    if errs != [] {
      assert ([e] + errs)[..|errs|] == [e] + errs[..|errs| - 1];
      LastTruthyCons(e, errs[..|errs| - 1], d);
    } else {
      assert ([e] + errs)[..0] == [];
    }
  }

  /** Each handler call takes one off the count, the error slot ends up holding the last
      truthy error, and the end callback registration is never touched. */
  lemma {:induction false} HandlersState(s: BarrierState, errs: seq<Option<Err>>)
    ensures Handlers(s, errs).0.counter == s.counter - |errs|
    ensures Handlers(s, errs).0.err == LastTruthy(errs, s.err)
    ensures Handlers(s, errs).0.endCallback == s.endCallback
    decreases |errs|
  {
    if errs != [] {
      var s1 := AfterHandler(s, errs[0]).0;
      HandlersState(s1, errs[1..]);
      LastTruthyCons(errs[0], errs[1..], s.err);
      assert [errs[0]] + errs[1..] == errs;
    }
  }

  /** With n handlers outstanding and an end callback registered, n handler calls fire the
      callback exactly once, on the last call, with that call's own error argument. */
  lemma {:induction false} FiresOnceAtEnd(s: BarrierState, errs: seq<Option<Err>>)
    requires s.counter == |errs| > 0 && s.endCallback.Some?
    ensures var fired := Handlers(s, errs).1;
      (forall k :: 0 <= k < |errs| - 1 ==> fired[k].None?) &&
      fired[|errs| - 1] == Some(Call(s.endCallback.value, errs[|errs| - 1]))
    decreases |errs|
  {
    var (s1, f) := AfterHandler(s, errs[0]);
    if |errs| > 1 {
      FiresOnceAtEnd(s1, errs[1..]);
      var fired := Handlers(s, errs).1;
      assert fired == [f] + Handlers(s1, errs[1..]).1;
      forall k | 0 <= k < |errs| - 1
        ensures fired[k].None?
      {
        if k > 0 {
          assert fired[k] == Handlers(s1, errs[1..]).1[k - 1];
        }
      }
    }
  }

  /** Not the recorded error: when an earlier handler failed and the last one succeeded, the
      end callback is called without an error although the barrier has recorded one. */
  lemma EndCallbackGetsOwnError(cb: CallbackId, e: Err)
    ensures var s := BarrierState(2, None, Some(cb));
      var (end, fired) := Handlers(s, [Some(e), None]);
      end.err == Some(e) && fired == [None, Some(Call(cb, None))]
  {
    var s := BarrierState(2, None, Some(cb));
    var errs: seq<Option<Err>> := [Some(e), None];
    var s1 := BarrierState(1, Some(e), Some(cb));
    assert AfterHandler(s, Some(e)) == (s1, None);
    var s2 := BarrierState(0, Some(e), Some(cb));
    assert AfterHandler(s1, None) == (s2, Some(Call(cb, None)));
    var tail: seq<Option<Err>> := [None];
    assert errs[1..] == tail && tail[1..] == [];
    assert errs[0] == Some(e) && tail[0] == None;
    assert Handlers(s2, []) == (s2, []);
    var one: seq<Option<Call>> := [Some(Call(cb, None))];
    assert Handlers(s2, tail[1..]) == (s2, []);
    assert one + [] == one;
    assert Handlers(s1, tail) == (s2, one);
    var none: seq<Option<Call>> := [None];
    assert Handlers(s, errs) == (s2, none + one);
    assert none + one == [None, Some(Call(cb, None))];
  }

  /** `wait` on a settled barrier calls back at once with the recorded error; otherwise it
      only registers the callback. */
  lemma WaitFacts(s: BarrierState, cb: CallbackId)
    ensures AfterWait(s, cb).0.counter == s.counter && AfterWait(s, cb).0.err == s.err
    ensures AfterWait(s, cb).0.endCallback == Some(cb)
    ensures AfterWait(s, cb).1.Some? <==> s.counter == 0
    ensures s.counter == 0 ==> AfterWait(s, cb).1 == Some(Call(cb, s.err))
  {
  }

  /** After `clear` the count is unchanged, the error slot is unset, and no run of handler
      calls fires anything until `wait` registers a callback again. */
  lemma {:induction false} ClearSilences(s: BarrierState, errs: seq<Option<Err>>)
    ensures AfterClear(s).counter == s.counter && AfterClear(s).err.None?
    ensures forall k :: 0 <= k < |errs| ==> Handlers(AfterClear(s), errs).1[k].None?
  {
    Silent(AfterClear(s), errs);
  }

  lemma {:induction false} Silent(s: BarrierState, errs: seq<Option<Err>>)
    requires s.endCallback.None?
    ensures forall k :: 0 <= k < |errs| ==> Handlers(s, errs).1[k].None?
    decreases |errs|
  {
    if errs != [] {
      var s1 := AfterHandler(s, errs[0]).0;
      Silent(s1, errs[1..]);
      var fired := Handlers(s, errs).1;
      assert fired == [AfterHandler(s, errs[0]).1] + Handlers(s1, errs[1..]).1;
    }
  }

  /** A tick and a call of its handler leave the count where it was. */
  lemma TickThenHandler(s: BarrierState, e: Option<Err>)
    ensures AfterHandler(AfterTick(s), e).0.counter == s.counter
  {
  }
}
