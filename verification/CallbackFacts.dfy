/** What removing, adding, locking and stopping come to for a callback list, said on the list,
    the data and the calls alone. */
module CallbackFacts {
  import opened Dom
  import opened Callbacks
  import opened CallbackSteps

  /** Strictly increasing places. */
  ghost predicate Ascending(at: seq<nat>) {
    forall i, j :: 0 <= i < j < |at| ==> at[i] < at[j]
  }

  /* ----- removing ----- */

  /** `rest` are the entries at the places `at` of `es`, in order, and those are the places of
      the functions not among `fns`. */
  ghost predicate LeftAt<F>(es: seq<Entry<F>>, fns: seq<F>, rest: seq<Entry<F>>, at: seq<nat>) {
    && Ascending(at) && |at| == |rest|
    && (forall i :: 0 <= i < |at| ==> at[i] < |es| && rest[i] == es[at[i]])
    && (forall k :: 0 <= k < |es| ==> (k in at <==> es[k].fn !in fns))
  }

  lemma LeftMore<F>(es: seq<Entry<F>>, fns: seq<F>, rest: seq<Entry<F>>, at: seq<nat>, e: Entry<F>, n: nat)
    requires LeftAt(es, fns, rest, at) && n == |es|
    ensures if e.fn in fns then LeftAt(es + [e], fns, rest, at) else LeftAt(es + [e], fns, rest + [e], at + [n])
  {
    if e.fn in fns {
      forall k | 0 <= k < |es + [e]| ensures k in at <==> (es + [e])[k].fn !in fns {
        assert forall i :: 0 <= i < |at| ==> at[i] != n;
      }
    } else {
      forall k | 0 <= k < |es + [e]| ensures k in at + [n] <==> (es + [e])[k].fn !in fns {
      }
    }
  }

  lemma {:induction false} WithoutLeft<F>(es: seq<Entry<F>>, fn: F) returns (at: seq<nat>)
    ensures LeftAt(es, [fn], Without(es, fn), at)
  {
    at := [];
    if es != [] {
      var n: nat := |es| - 1;
      var before := WithoutLeft(es[..n], fn);
      LeftMore(es[..n], [fn], Without(es[..n], fn), before, es[n], n);
      assert es[..n] + [es[n]] == es;
      hide LeftAt;
      if es[n].fn == fn {
        assert Without(es[..n], fn) + [] == Without(es[..n], fn);
        at := before;
      } else {
        at := before + [n];
      }
    }
  }

  lemma LeftTwice<F>(
      es: seq<Entry<F>>, a: seq<F>, mid: seq<Entry<F>>, at: seq<nat>, b: seq<F>, rest: seq<Entry<F>>, at': seq<nat>)
    returns (both: seq<nat>)
    requires LeftAt(es, a, mid, at) && LeftAt(mid, b, rest, at')
    ensures LeftAt(es, a + b, rest, both)
  {
    both := seq(|at'|, i requires 0 <= i < |at'| => at[at'[i]]);
    forall k | 0 <= k < |es| ensures k in both <==> es[k].fn !in a + b {
      BothPlaces(es, a, mid, at, b, rest, at', both, k);
    }
  }

  lemma BothPlaces<F>(
      es: seq<Entry<F>>, a: seq<F>, mid: seq<Entry<F>>, at: seq<nat>, b: seq<F>, rest: seq<Entry<F>>, at': seq<nat>,
      both: seq<nat>, k: nat)
    requires LeftAt(es, a, mid, at) && LeftAt(mid, b, rest, at') && k < |es|
    requires |both| == |at'| && forall i :: 0 <= i < |at'| ==> both[i] == at[at'[i]]
    ensures k in both <==> es[k].fn !in a + b
  {
    hide Ascending;
    if k in both {
      var i :| 0 <= i < |both| && both[i] == k;
      assert at[at'[i]] in at && at'[i] in at';
    }
    if es[k].fn !in a + b {
      assert k in at;
      var j :| 0 <= j < |at| && at[j] == k;
      assert j in at';
      var i :| 0 <= i < |at'| && at'[i] == j;
      assert both[i] == k;
    }
  }

  ghost predicate Removed<F, D>(s: State<F, D>, fns: seq<F>, t: State<F, D>) {
    && t == s.(list := t.list, firingLength := t.firingLength, firingIndex := t.firingIndex)
    && (t.list.Some? <==> s.list.Some?)
    && (s.list.Some? ==> exists at: seq<nat> :: LeftAt(s.list.value, fns, t.list.value, at))
  }

  /** Whether the list is firing or at rest: no entry that is left has one of the functions, and
      every other entry is, in the old order. Nothing but the firing indices changes besides. */
  lemma {:induction false} RemoveLeaves<F, D>(s: State<F, D>, fns: seq<F>) returns (at: seq<nat>)
    ensures s.list.Some? ==> Remove(s, fns).list.Some? && LeftAt(s.list.value, fns, Remove(s, fns).list.value, at)
    ensures Removed(s, fns, Remove(s, fns))
    decreases |fns|
  {
    hide Without;
    at := [];
    if s.list.Some? {
      if fns == [] {
        at := seq(|s.list.value|, i requires 0 <= i < |s.list.value| => i);
        forall k: nat | k < |s.list.value| ensures k in at {
          assert at[k] == k;
        }
      } else {
        var u := RemoveOne(s, fns[0]);
        var first := WithoutLeft(s.list.value, fns[0]);
        var more := RemoveLeaves(u, fns[1..]);
        hide LeftAt;
        assert [fns[0]] + fns[1..] == fns;
        at := LeftTwice(s.list.value, [fns[0]], u.list.value, first, fns[1..], Remove(u, fns[1..]).list.value, more);
      }
    } else if fns != [] {
      var more := RemoveLeaves(s, fns[1..]);
    }
  }

  /* ----- adding without repetition ----- */

  /** The functions at the places `at` are those that are new: neither in the list nor before
      in the arguments. */
  ghost predicate NewAt<F>(es: seq<Entry<F>>, fns: seq<F>, at: seq<nat>) {
    && Ascending(at) && (forall i :: 0 <= i < |at| ==> at[i] < |fns|)
    && forall k :: 0 <= k < |fns| ==> (k in at <==> !Among(es, fns[k]) && fns[k] !in fns[..k])
  }

  ghost predicate Among<F>(es: seq<Entry<F>>, fn: F) {
    exists i :: 0 <= i < |es| && es[i].fn == fn
  }

  lemma AmongMore<F>(es: seq<Entry<F>>, e: Entry<F>)
    ensures forall fn :: Among(es + [e], fn) <==> Among(es, fn) || fn == e.fn
  {
    forall fn ensures Among(es + [e], fn) <==> Among(es, fn) || fn == e.fn {
      if Among(es, fn) {
        var i :| 0 <= i < |es| && es[i].fn == fn;
        assert (es + [e])[i].fn == fn;
      }
      if fn == e.fn {
        assert (es + [e])[|es|].fn == fn;
      }
    }
  }

  /** The entries for the functions at the places `at`. */
  function Entries<F>(fns: seq<F>, at: seq<nat>, added: nat): seq<Entry<F>>
    requires forall i :: 0 <= i < |at| ==> at[i] < |fns|
  {
    seq(|at|, i requires 0 <= i < |at| => Entry(fns[at[i]], added + i))
  }

  function Shift(at: seq<nat>): (r: seq<nat>)
    ensures |r| == |at| && forall i :: 0 <= i < |r| ==> r[i] == at[i] + 1
  {
    seq(|at|, i requires 0 <= i < |at| => at[i] + 1)
  }

  lemma NewBehind<F>(es: seq<Entry<F>>, e: Entry<F>, fns: seq<F>, at: seq<nat>)
    requires fns != [] && e.fn == fns[0] && !Among(es, fns[0]) && NewAt(es + [e], fns[1..], at)
    ensures NewAt(es, fns, [0] + Shift(at))
  {
    AmongMore(es, e);
    NewPlaces(es + [e], fns, at);
    var r := [0] + Shift(at);
    forall k | 0 <= k < |fns| ensures k in r <==> !Among(es, fns[k]) && fns[k] !in fns[..k] {
      if k > 0 {
        assert fns[0] in fns[..k];
      }
    }
  }

  lemma NewPast<F>(es: seq<Entry<F>>, fns: seq<F>, at: seq<nat>)
    requires fns != [] && Among(es, fns[0]) && NewAt(es, fns[1..], at)
    ensures NewAt(es, fns, Shift(at))
  {
    NewPlaces(es, fns, at);
  }

  /** Places behind the first argument. */
  lemma NewPlaces<F>(es: seq<Entry<F>>, fns: seq<F>, at: seq<nat>)
    requires fns != [] && NewAt(es, fns[1..], at)
    ensures 0 !in Shift(at)
    ensures forall k :: 0 < k < |fns| ==> (k in Shift(at) <==> !Among(es, fns[k]) && fns[k] !in fns[1..k])
  {
    forall k | 0 < k < |fns| ensures k in Shift(at) <==> !Among(es, fns[k]) && fns[k] !in fns[1..k] {
      var j: nat := k - 1;
      assert fns[1..][j] == fns[k] && fns[1..][..j] == fns[1..k];
      assert k in Shift(at) <==> j in at by {
        if j in at {
          var i :| 0 <= i < |at| && at[i] == j;
          assert Shift(at)[i] == k;
        }
      }
    }
  }

  lemma InRange<F>(es: seq<Entry<F>>, fns: seq<F>, at: seq<nat>)
    requires NewAt(es, fns, at)
    ensures forall i :: 0 <= i < |at| ==> at[i] < |fns|
  {
  }

  lemma EntriesPast<F>(fns: seq<F>, at: seq<nat>, added: nat)
    requires fns != [] && forall i :: 0 <= i < |at| ==> at[i] < |fns[1..]|
    ensures Entries(fns, Shift(at), added) == Entries(fns[1..], at, added)
  {
  }

  lemma EntriesBehind<F>(es: seq<Entry<F>>, fns: seq<F>, at: seq<nat>, added: nat)
    requires fns != [] && forall i :: 0 <= i < |at| ==> at[i] < |fns[1..]|
    ensures es + Entries(fns, [0] + Shift(at), added) == es + [Entry(fns[0], added)] + Entries(fns[1..], at, added + 1)
  {
    assert Entries(fns, [0] + Shift(at), added) == [Entry(fns[0], added)] + Entries(fns[1..], at, added + 1);
  }

  /** With `unique` exactly the new functions are appended, each once, in order. */
  lemma {:induction false} UniqueAdds<F, D>(s: State<F, D>, fns: seq<F>) returns (at: seq<nat>)
    requires s.list.Some? && s.options.unique
    ensures NewAt(s.list.value, fns, at)
    ensures forall i :: 0 <= i < |at| ==> at[i] < |fns|
    ensures Push(s, fns) == s.(list := Some(s.list.value + Entries(fns, at, s.added)), added := s.added + |at|)
    decreases |fns|
  {
    if fns == [] {
      at := [];
      assert s.list.value + Entries(fns, at, s.added) == s.list.value;
    } else {
      hide NewAt, Entries, Shift;
      var es := s.list.value;
      assert Has(s, fns[0]) <==> Among(es, fns[0]);
      hide Has, Among;
      if Has(s, fns[0]) {
        var more := UniqueAdds(s, fns[1..]);
        NewPast(es, fns, more);
        EntriesPast(fns, more, s.added);
        at := Shift(more);
      } else {
        var e := Entry(fns[0], s.added);
        var u := s.(list := Some(es + [e]), added := s.added + 1);
        var more := UniqueAdds(u, fns[1..]);
        NewBehind(es, e, fns, more);
        EntriesBehind(es, fns, more, s.added);
        at := [0] + Shift(more);
      }
      InRange(es, fns, at);
    }
  }

  /* ----- firing ----- */

  /** Data is taken exactly while the list is neither disabled nor, once it has fired, locked
      or only to fire once; a firing list keeps it for later, and a list at rest starts on it
      at once. */
  lemma FireWithExactly<F, D>(s: State<F, D>, data: D)
    requires Valid(s)
    ensures var t, taken := FireWith(s, data), s.list.Some? && (!s.fired || s.stack.Some?);
      && (!taken ==> t == s)
      && (taken ==> t.accepted == s.accepted + [data])
      && (taken && s.firing ==> s.stack.Some? && t == s.(accepted := t.accepted, stack := Some(s.stack.value + [data])))
      && (taken && !s.firing ==>
           |t.log| > |s.log| && t.log[..|s.log|] == s.log && t.log[|s.log|].data == data && !t.log[|s.log|].again)
  {
    var u := s.(accepted := s.accepted + [data]);
    FireShape(u, data, false, 0);
    FireLog(u, data, false, 0);
    hide Fire, LogFits, Started, Increasing, Below;
  }

  /** A callback that returns false ends its batch, if the list stops on false: the callbacks
      still owed are not called with its data, and callbacks added later are not either. Data
      that waits is fired all the same. */
  lemma StopForgets<F, D>(s: State<F, D>)
    requires Valid(s) && s.firing && s.options.stopOnFalse
    ensures var t := Return(s, true);
      && |t.log| >= |s.log| && t.log[..|s.log|] == s.log
      && (s.list.Some? && Waiting(s) > 0 ==> |t.log| > |s.log| && t.log[|s.log|].data == s.stack.value[0])
      && (s.list == None || Waiting(s) == 0 ==> t.log == s.log && !t.firing && t.memory == None)
      && (s.list.Some? && s.stack == None ==> t.list == None)
  {
    FinishLog(s.(memory := None));
    if s.list == None || Waiting(s) == 0 {
      FinishRests(s.(memory := None));
    }
    hide Finish, LogFits, Started, Increasing, Below;
  }

  lemma FinishRests<F, D>(s: State<F, D>)
    requires s.list == None || Waiting(s) == 0
    ensures var t := Finish(s);
      && !t.firing && t.log == s.log && (s.memory == None ==> t.memory == None)
      && (s.list.Some? && s.stack == None ==> t.list == if s.memory.Some? then Some([]) else None)
  {
  }

  /** A list that may not fire again is emptied when its loop ends if it has a memory, so that
      what is added later can be called, and is disabled if it has none. */
  lemma LastBatchEnds<F, D>(s: State<F, D>)
    requires Valid(s) && s.firing && s.list.Some? && s.stack == None && Owed(s) == []
    ensures var t := Return(s, false);
      && !t.firing && t.memory == s.memory && t.stack == None
      && t.list == if s.memory.Some? then Some([]) else None
  {
    var n := |s.log| - 1;
    var v := s.(firingIndex := s.firingIndex + 1, log := s.log[n := s.log[n].(left := Some(From(s.list.value, s.log[n].from)))]);
    FinishRests(v);
    assert Return(s, false) == Finish(v);
  }

  /* ----- locking ----- */

  /** Locking a list with a memory leaves all but the waiting data: the running batch goes on,
      what is added is called with the remembered data, and no more data is taken. Without a
      memory the list is disabled: nothing is added and nothing fired any more. */
  lemma LockKeeps<F, D>(s: State<F, D>, data: D, fns: seq<F>)
    requires Valid(s)
    ensures var t := Lock(s);
      && Valid(t) && FireWith(t, data) == t
      && (s.memory.Some? ==> t.list == s.list && t.memory == s.memory && t.firing == s.firing && t.log == s.log && Owed(t) == Owed(s))
      && (s.memory.Some? && t.list.Some? && !t.firing && !t.options.unique && fns != [] ==>
           |Add(t, fns).log| == |t.log| + 1
           && Add(t, fns).log[|t.log|] == Batch(t.memory.value, true, t.added, [Entry(fns[0], t.added)], None)
           && Fns(Owed(Add(t, fns))) == fns[1..])
      && (s.memory == None ==> t.list == None && Add(t, fns) == t)
  {
    LockValid(s);
    var t := Lock(s);
    MemoryFired(s);
    hide Valid, Add, Fns, Owed;
    if t.memory.Some? && t.list.Some? && !t.firing && !t.options.unique && fns != [] {
      AddRemembered(t, fns);
    }
    DisabledAdds(t, fns);
  }

  lemma MemoryFired<F, D>(s: State<F, D>)
    requires Valid(s)
    ensures s.memory.Some? ==> s.fired && s.list.Some?
  {
  }

  lemma DisabledAdds<F, D>(s: State<F, D>, fns: seq<F>)
    ensures s.list == None ==> Add(s, fns) == s
  {
  }

  /** Disabling ends everything: the running batch calls nothing more, whatever waited is
      forgotten, and nothing is added or fired any more. */
  lemma DisableStops<F, D>(s: State<F, D>, data: D, fns: seq<F>, isFalse: bool)
    requires Valid(s)
    ensures var t := Disable(s);
      && Valid(t) && t.log == s.log && Add(t, fns) == t && FireWith(t, data) == t
      && !Return(t, isFalse).firing && Return(t, isFalse).list == None
      && (s.firing ==>
           |Return(t, isFalse).log| == |s.log|
           && Return(t, isFalse).log[|s.log| - 1].calls == s.log[|s.log| - 1].calls)
  {
    LockValid(s);
    hide LogFits, Started, Increasing, Below, Remembered;
    var t := Disable(s);
    if s.firing && !(isFalse && s.options.stopOnFalse) {
      var n := |s.log| - 1;
      var v := t.(firingIndex := t.firingIndex + 1, log := s.log[n := s.log[n].(left := None)]);
      assert Return(t, isFalse) == Finish(v);
    }
  }

  /** What is added to a list that is at rest and has nothing to remember waits in the list. */
  lemma AddWaits<F, D>(s: State<F, D>, fns: seq<F>)
    requires s.list.Some? && !s.firing && s.memory == None && !s.options.unique
    ensures var t := Add(s, fns);
      && t == s.(list := t.list, added := s.added + |fns|) && t.list.Some? && |t.list.value| >= |s.list.value|
      && t.list.value[..|s.list.value|] == s.list.value && Fns(t.list.value[|s.list.value|..]) == fns
  {
    PushAll(s, fns);
    PushLeaves(s, fns);
    AddedCount(s, fns);
    var more := seq(|fns|, i requires 0 <= i < |fns| => Entry(fns[i], s.added + i));
    assert (s.list.value + more)[|s.list.value|..] == more;
    assert Fns(more) == fns;
  }

  lemma {:induction false} AddedCount<F, D>(s: State<F, D>, fns: seq<F>)
    requires s.list.Some? && !s.options.unique
    ensures Push(s, fns).added == s.added + |fns|
    decreases |fns|
  {
    if fns != [] {
      AddedCount(s.(list := Some(s.list.value + [Entry(fns[0], s.added)]), added := s.added + 1), fns[1..]);
    }
  }
}
