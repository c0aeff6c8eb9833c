/** The object `jQuery.Callbacks` returns, with the closure's variables as fields. Each method
    is proved to do to the state what the operation of the same name in `Callbacks` says. */
module CallbackList {
  import opened Dom
  import opened Callbacks
  import Facts = CallbackFacts

  /** `jQuery.inArray`: the first place from `from` on, or -1. */
  method InArray<F(==)>(fn: F, es: seq<Entry<F>>, from: nat) returns (index: int)
    requires from <= |es|
    ensures index == -1 || from <= index < |es|
    ensures index == -1 ==> NoneFrom(es, fn, from)
    ensures index != -1 ==> NextIs(es, fn, from, index)
  {
    index := from;
    while index < |es|
      invariant from <= index <= |es|
      invariant forall i :: from <= i < index ==> es[i].fn != fn
    {
      if es[index].fn == fn {
        return;
      }
      index := index + 1;
    }
    index := -1;
  }

  /** A stretch without the function is kept whole. */
  lemma {:induction false} WithoutNone<F>(es: seq<Entry<F>>, fn: F, k: nat, m: nat)
    requires k <= m <= |es| && forall i :: k <= i < m ==> es[i].fn != fn
    ensures Without(es[..m], fn) == Without(es[..k], fn) + es[k..m]
    decreases m
  {
    if k < m {
      WithoutNone(es, fn, k, m - 1);
      assert es[..m][..m - 1] == es[..m - 1];
      assert es[k..m] == es[k..m - 1] + [es[m - 1]];
    }
  }

  lemma WithoutOne<F>(es: seq<Entry<F>>, fn: F, m: nat)
    requires m < |es| && es[m].fn == fn
    ensures Without(es[..m + 1], fn) == Without(es[..m], fn)
  {
    assert es[..m + 1][..m] == es[..m];
  }

  ghost predicate NextIs<F>(es: seq<Entry<F>>, fn: F, from: nat, index: int) {
    from <= index < |es| && es[index].fn == fn && forall i :: from <= i < index ==> es[i].fn != fn
  }

  ghost predicate NoneFrom<F>(es: seq<Entry<F>>, fn: F, from: nat) {
    forall i :: from <= i < |es| ==> es[i].fn != fn
  }

  /** Where the firing index `at` has moved once the first `k` entries have been searched. */
  ghost function IndexAfter<F>(es: seq<Entry<F>>, fn: F, k: nat, at: int): int
    requires k <= |es| && -1 <= at < |es|
  {
    if k <= at + 1 then at - (k - |Without(es[..k], fn)|) else |Without(es[..at + 1], fn)| - 1
  }

  /** The first `k` entries of `es` have been searched, and `index` is the next to splice. */
  ghost predicate Searching<F>(cur: seq<Entry<F>>, es: seq<Entry<F>>, fn: F, k: nat, index: int)
    requires k <= |es|
  {
    && cur == Without(es[..k], fn) + es[k..]
    && (if index == -1 then NoneFrom(cur, fn, |Without(es[..k], fn)|) else NextIs(cur, fn, |Without(es[..k], fn)|, index))
  }

  /** The entries from `k` on up to the next with the function are kept. */
  lemma NextPlace<F>(es: seq<Entry<F>>, fn: F, k: nat, index: int)
    requires k <= |es| && NextIs(Without(es[..k], fn) + es[k..], fn, |Without(es[..k], fn)|, index)
    ensures var m := k + (index - |Without(es[..k], fn)|);
      k <= m < |es| && es[m].fn == fn && forall i :: k <= i < m ==> es[i].fn != fn
  {
    var p := |Without(es[..k], fn)|;
    var cur, m := Without(es[..k], fn) + es[k..], k + (index - p);
    assert es[m] == cur[index];
    forall i | k <= i < m ensures es[i].fn != fn {
      assert es[i] == cur[p + (i - k)];
    }
  }

  /** One splice, seen from the list before any. */
  lemma SpliceStep<F>(es: seq<Entry<F>>, fn: F, k: nat, index: int) returns (next: nat)
    requires k <= |es| && NextIs(Without(es[..k], fn) + es[k..], fn, |Without(es[..k], fn)|, index)
    ensures k < next <= |es| && next == k + (index - |Without(es[..k], fn)|) + 1
    ensures var cur := Without(es[..k], fn) + es[k..];
      cur[..index] + cur[index + 1..] == Without(es[..next], fn) + es[next..]
    ensures |Without(es[..next], fn)| == index
  {
    var p := |Without(es[..k], fn)|;
    var cur, m := Without(es[..k], fn) + es[k..], k + (index - p);
    NextPlace(es, fn, k, index);
    WithoutNone(es, fn, k, m);
    WithoutOne(es, fn, m);
    assert cur[..index] == Without(es[..k], fn) + es[k..m];
    assert cur[index + 1..] == es[m + 1..];
    next := m + 1;
  }

  lemma SpliceIndex<F>(es: seq<Entry<F>>, fn: F, k: nat, index: int, at: int, next: nat)
    requires k <= |es| && NextIs(Without(es[..k], fn) + es[k..], fn, |Without(es[..k], fn)|, index)
    requires -1 <= at < |es|
    requires next <= |es| && next == k + (index - |Without(es[..k], fn)|) + 1 && |Without(es[..next], fn)| == index
    ensures var before := IndexAfter(es, fn, k, at);
      IndexAfter(es, fn, next, at) == before - (if index <= before then 1 else 0)
  {
    NextPlace(es, fn, k, index);
    if k <= at + 1 < next {
      WithoutNone(es, fn, k, at + 1);
    }
    if at + 1 < k {
      WithoutSplit(es[..k], fn, at + 1);
      assert es[..k][..at + 1] == es[..at + 1];
    }
  }

  lemma SpliceEnd<F>(es: seq<Entry<F>>, fn: F, k: nat, at: int)
    requires k <= |es|
    requires NoneFrom(Without(es[..k], fn) + es[k..], fn, |Without(es[..k], fn)|)
    ensures Without(es, fn) == Without(es[..k], fn) + es[k..]
    ensures -1 <= at < |es| ==> IndexAfter(es, fn, k, at) == |Without(es[..at + 1], fn)| - 1
  {
    var p := |Without(es[..k], fn)|;
    var cur := Without(es[..k], fn) + es[k..];
    forall i | k <= i < |es| ensures es[i].fn != fn {
      var n := p + (i - k);
      assert n < |cur| && cur[n].fn != fn;
      assert es[i] == cur[n];
    }
    WithoutNone(es, fn, k, |es|);
    assert es[..|es|] == es && es[k..|es|] == es[k..];
    if -1 <= at < |es| && k <= at + 1 {
      WithoutNone(es, fn, k, at + 1);
    }
  }

  lemma SpliceStart<F>(es: seq<Entry<F>>, fn: F, index: int, at: int)
    requires if index == -1 then NoneFrom(es, fn, 0) else NextIs(es, fn, 0, index)
    ensures Searching(es, es, fn, 0, index)
    ensures -1 <= at < |es| ==> IndexAfter(es, fn, 0, at) == at
  {
    assert es[..0] == [] && es[0..] == es && Without(es[..0], fn) + es[0..] == es;
  }

  lemma SpliceDone<F>(cur: seq<Entry<F>>, es: seq<Entry<F>>, fn: F, k: nat, at: int)
    requires k <= |es| && Searching(cur, es, fn, k, -1)
    ensures cur == Without(es, fn)
    ensures -1 <= at < |es| ==> IndexAfter(es, fn, k, at) == |Without(es[..at + 1], fn)| - 1
  {
    SpliceEnd(es, fn, k, at);
  }

  lemma FireKeeps<F, D>(s: State<F, D>, data: D, again: bool, from: nat)
    ensures CanBegin(s, data, again, from) ==> Valid(Fire(s, data, again, from))
  {
    hide CanBegin, Valid, Fire;
    if CanBegin(s, data, again, from) {
      FireValid(s, data, again, from);
    }
  }

  class CallbackList<F(==), D> {
    const options: Options
    var memory: Option<D>
    var fired: bool
    var firing: bool
    var firingStart: nat
    var firingLength: int
    var firingIndex: int
    var list: Option<seq<Entry<F>>>
    var stack: Option<seq<D>>
    var added: nat
    var accepted: seq<D>
    var log: seq<Batch<F, D>>
    var faulted: bool

    function Now(): State<F, D>
      reads this
    {
      State(options, memory, fired, firing, firingStart, firingLength, firingIndex, list, stack, added, accepted, log, faulted)
    }

    constructor (options: Options)
      ensures Now() == New(options) && Valid(Now())
    {
      this.options := options;
      memory, fired, firing := None, false, false;
      firingStart, firingLength, firingIndex := 0, 0, 0;
      list, stack := Some([]), if options.once then None else Some([]);
      added, accepted, log, faulted := 0, [], [], false;
    }

    /** `fire`: the indices are set, a batch begins, and its first callback is called. */
    method FireData(data: D, again: bool, from: nat)
      requires list.Some?
      modifies this
      ensures Now() == Fire(old(Now()), data, again, from)
      ensures CanBegin(old(Now()), data, again, from) ==> Valid(Now())
      decreases Waiting(Now()), 2
    {
      hide CanBegin, Valid, Loop, Finish;
      FireKeeps(Now(), data, again, from);
      memory := if options.memory then Some(data) else None;
      fired := true;
      firingIndex := firingStart;
      firingStart := 0;
      firingLength := |list.value|;
      firing := true;
      log := log + [Batch(data, again, from, [], None)];
      Continue();
    }

    /** The loop of `fire` from its condition to the next call, or to what follows the loop. */
    method Continue()
      requires log != []
      modifies this
      ensures Now() == Loop(old(Now()))
      decreases Waiting(Now()), 1
    {
      var b := log[|log| - 1];
      if list.Some? && firingIndex < firingLength {
        if !(0 <= firingIndex < |list.value|) {
          faulted := true;
          return;
        }
        log := log[|log| - 1 := b.(calls := b.calls + [list.value[firingIndex]])];
      } else {
        log := log[|log| - 1 := b.(left := if list.Some? then Some(From(list.value, b.from)) else None)];
        AfterLoop();
      }
    }

    method AfterLoop()
      modifies this
      ensures Now() == Finish(old(Now()))
      ensures Histories(old(Now())) && Settings(old(Now())) && old(firingStart) == 0 ==> Valid(Now())
      decreases Waiting(Now()), 0
    {
      if Histories(Now()) && Settings(Now()) && firingStart == 0 {
        FinishValid(Now());
      }
      firing := false;
      if list.Some? {
        if stack.Some? {
          if stack.value != [] {
            var data := stack.value[0];
            stack := Some(stack.value[1..]);
            FireData(data, false, 0);
          }
        } else if memory.Some? {
          list := Some([]);
        } else {
          this.Disable();
        }
      }
    }

    /** The running callback returns. */
    method Return(isFalse: bool)
      requires firing && !faulted && log != []
      modifies this
      ensures Now() == Callbacks.Return(old(Now()), isFalse)
      ensures Valid(old(Now())) ==> Valid(Now())
    {
      if Valid(Now()) {
        ReturnValid(Now(), isFalse);
      }
      if isFalse && options.stopOnFalse {
        memory := None;
        AfterLoop();
      } else {
        firingIndex := firingIndex + 1;
        Continue();
      }
    }

    method Add(fns: seq<F>)
      requires Valid(Now())
      modifies this
      ensures Now() == Callbacks.Add(old(Now()), fns) && Valid(Now())
    {
      AddValid(Now(), fns);
      if list.Some? {
        var start := |list.value|;
        var from := added;
        PushNew(fns);
        if firing {
          firingLength := |list.value|;
        } else if memory.Some? {
          firingStart := start;
          FireData(memory.value, true, from);
        }
      }
    }

    /** The inner `add`, on the functions found in the arguments. */
    method PushNew(fns: seq<F>)
      requires list.Some?
      modifies this`list, this`added
      ensures Now() == Push(old(Now()), fns)
    {
      var i := 0;
      while i < |fns|
        invariant 0 <= i <= |fns|
        invariant list.Some? && Now() == old(Now()).(list := list, added := added)
        invariant Push(old(Now()), fns) == Push(Now(), fns[i..])
      {
        assert fns[i..][1..] == fns[i + 1..];
        var index := InArray(fns[i], list.value, 0);
        assert index != -1 <==> Has(Now(), fns[i]);
        if !options.unique || index == -1 {
          list := Some(list.value + [Entry(fns[i], added)]);
          added := added + 1;
        }
        i := i + 1;
      }
    }

    method Remove(fns: seq<F>)
      requires Valid(Now())
      modifies this
      ensures Now() == Callbacks.Remove(old(Now()), fns) && Valid(Now())
      ensures Facts.Removed(old(Now()), fns, Now())
    {
      ghost var at := Facts.RemoveLeaves(Now(), fns);
      RemoveValid(Now(), fns);
      var i := 0;
      while i < |fns|
        invariant 0 <= i <= |fns| && Valid(Now())
        invariant Callbacks.Remove(old(Now()), fns) == Callbacks.Remove(Now(), fns[i..])
      {
        assert fns[i..][1..] == fns[i + 1..];
        RemoveArg(fns[i]);
        i := i + 1;
      }
    }

    method RemoveArg(fn: F)
      requires Valid(Now())
      modifies this
      ensures Now() == RemoveOne(old(Now()), fn) && Valid(Now())
    {
      RemoveOneValid(Now(), fn);
      if list.Some? {
        WithoutKeeps(list.value, fn);
        RemoveAll(fn);
      }
    }

    /** `list.splice( index, 1 )` and the firing indices. */
    method SpliceOut(index: nat)
      requires list.Some? && index < |list.value|
      modifies this`list, this`firingLength, this`firingIndex
      ensures list == Some(old(list.value)[..index] + old(list.value)[index + 1..])
      ensures firing ==>
        && firingLength == old(firingLength) - (if index <= old(firingLength) then 1 else 0)
        && firingIndex == old(firingIndex) - (if index <= old(firingIndex) then 1 else 0)
      ensures !firing ==> firingLength == old(firingLength) && firingIndex == old(firingIndex)
    {
      list := Some(list.value[..index] + list.value[index + 1..]);
      if firing {
        if index <= firingLength {
          firingLength := firingLength - 1;
        }
        if index <= firingIndex {
          firingIndex := firingIndex - 1;
        }
      }
    }

    /** One round of the loop: splice, then search on from the same place. */
    method RemoveNext(fn: F, index: int, ghost es: seq<Entry<F>>, ghost k: nat, ghost at: int) returns (following: int, ghost next: nat)
      requires k <= |es| && list.Some? && index != -1 && Searching(list.value, es, fn, k, index)
      requires firing ==> -1 <= at < |es| && firingLength == |list.value| && firingIndex == IndexAfter(es, fn, k, at)
      modifies this`list, this`firingLength, this`firingIndex
      ensures k < next <= |es| && list.Some? && following >= -1 && Searching(list.value, es, fn, next, following)
      ensures firing ==> firingLength == |list.value| && firingIndex == IndexAfter(es, fn, next, at)
      ensures !firing ==> firingLength == old(firingLength) && firingIndex == old(firingIndex)
    {
      next := SpliceStep(es, fn, k, index);
      if firing {
        SpliceIndex(es, fn, k, index, at, next);
      }
      SpliceOut(index);
      following := InArray(fn, list.value, index);
    }

    /** Splice out every entry with the function, keeping the firing indices in step. */
    method RemoveAll(fn: F)
      requires list.Some? && (firing ==> firingLength == |list.value| && -1 <= firingIndex < firingLength)
      modifies this`list, this`firingLength, this`firingIndex
      ensures list == Some(Without(old(list.value), fn))
      ensures firing ==> firingLength == |list.value|
      ensures firing ==> firingIndex == |Without(old(list.value)[..old(firingIndex) + 1], fn)| - 1
      ensures !firing ==> firingLength == old(firingLength) && firingIndex == old(firingIndex)
    {
      hide Searching, IndexAfter, Without, NextIs, NoneFrom;
      ghost var es, at := list.value, firingIndex;
      ghost var k: nat := 0;
      var index := InArray(fn, list.value, 0);
      SpliceStart(es, fn, index, at);
      while index > -1
        invariant k <= |es| && list.Some? && index >= -1 && Searching(list.value, es, fn, k, index)
        invariant firing ==> firingLength == |list.value| && firingIndex == IndexAfter(es, fn, k, at)
        invariant !firing ==> firingLength == old(firingLength) && firingIndex == at
        decreases |es| - k
      {
        index, k := RemoveNext(fn, index, es, k, at);
      }
      SpliceDone(list.value, es, fn, k, at);
    }

    method Empty()
      modifies this
      ensures Now() == Callbacks.Empty(old(Now()))
      ensures Valid(old(Now())) && !firing ==> Valid(Now())
    {
      if Valid(Now()) {
        EmptyValid(Now());
      }
      list := Some([]);
    }

    method Disable()
      modifies this
      ensures Now() == Callbacks.Disable(old(Now()))
      ensures Valid(old(Now())) ==> Valid(Now())
    {
      if Valid(Now()) {
        LockValid(Now());
      }
      list, stack, memory := None, None, None;
    }

    method Lock()
      modifies this
      ensures Now() == Callbacks.Lock(old(Now()))
      ensures Valid(old(Now())) ==> Valid(Now()) && (list.Some? ==> Owed(Now()) == Owed(old(Now())))
    {
      if Valid(Now()) {
        LockValid(Now());
      }
      stack := None;
      if memory == None {
        this.Disable();
      }
    }

    method FireWith(data: D)
      requires Valid(Now())
      modifies this
      ensures Now() == Callbacks.FireWith(old(Now()), data) && Valid(Now())
    {
      FireWithValid(Now(), data);
      if list.Some? && (!fired || stack.Some?) {
        accepted := accepted + [data];
        if firing {
          stack := Some(stack.value + [data]);
        } else {
          FireData(data, false, 0);
        }
      }
    }
  }
}
