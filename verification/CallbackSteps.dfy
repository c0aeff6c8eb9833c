/** What one operation on a firing list does: what the running batch still owes, and what
    stays as it was. */
module CallbackSteps {
  import opened Dom
  import opened Callbacks

  /** A batch with something to call begins with calling it. */
  lemma FireBegins<F, D>(s: State<F, D>, data: D, again: bool, from: nat)
    requires s.list.Some? && s.firingStart < |s.list.value|
    ensures Fire(s, data, again, from) ==
      s.(memory := if s.options.memory then Some(data) else None,
         fired := true,
         firingIndex := s.firingStart,
         firingStart := 0,
         firingLength := |s.list.value|,
         firing := true,
         log := s.log + [Batch(data, again, from, [s.list.value[s.firingStart]], None)])
  {
    var e := s.list.value[s.firingStart];
    var log := s.log + [Batch(data, again, from, [], None)];
    assert [] + [e] == [e];
    assert log[|s.log| := log[|s.log|].(calls := [e])] == s.log + [Batch(data, again, from, [e], None)];
  }

  /* ----- what the running batch still owes ----- */

  /** Callbacks added while the loop runs join the batch behind the others. */
  lemma OwedAdd<F, D>(s: State<F, D>, fns: seq<F>)
    requires Valid(s) && s.firing && s.list.Some?
    ensures Owed(Add(s, fns)) == Owed(s) + Push(s, fns).list.value[|s.list.value|..]
    ensures Add(s, fns).log == s.log
    ensures !s.options.unique ==> Fns(Push(s, fns).list.value[|s.list.value|..]) == fns
  {
    hide Valid, Push, Increasing, Below;
    InFiring(s);
    PushValid(s, fns);
    var es := Push(s, fns).list.value;
    assert es == s.list.value + es[|s.list.value|..];
    if !s.options.unique {
      PushAll(s, fns);
    }
  }

  /** While the loop runs the indices agree with the list. */
  lemma InFiring<F, D>(s: State<F, D>)
    requires Valid(s) && s.firing && s.list.Some?
    ensures s.firingLength == |s.list.value| && -1 <= s.firingIndex < s.firingLength && s.log != []
    ensures Increasing(s.list.value) && Below(s.list.value, s.added)
  {
  }

  lemma {:induction false} PushAll<F, D>(s: State<F, D>, fns: seq<F>)
    requires s.list.Some? && !s.options.unique
    ensures Push(s, fns).list.value == s.list.value + seq(|fns|, i requires 0 <= i < |fns| => Entry(fns[i], s.added + i))
    decreases |fns|
  {
    if fns != [] {
      PushAll(s.(list := Some(s.list.value + [Entry(fns[0], s.added)]), added := s.added + 1), fns[1..]);
    }
  }

  /** When a callback returns, the first one owed is called with the same data; when none is
      owed the batch is over, and the data queued first starts the next one. */
  lemma OwedReturn<F, D>(s: State<F, D>, isFalse: bool)
    requires Valid(s) && s.firing && s.list.Some? && !(isFalse && s.options.stopOnFalse)
    ensures var t, n := Return(s, isFalse), |s.log| - 1;
      && |t.log| >= |s.log| && t.log[..n] == s.log[..n] && t.log[n].data == s.log[n].data
      && (Owed(s) != [] ==>
           t.firing && |t.log| == |s.log| && t.log[n].calls == s.log[n].calls + [Owed(s)[0]] && Owed(t) == Owed(s)[1..])
      && (Owed(s) == [] ==>
           && t.log[n] == s.log[n].(left := Some(From(s.list.value, s.log[n].from)))
           && (|t.log| == |s.log| <==> Waiting(s) == 0)
           && (Waiting(s) > 0 ==> t.log[n + 1].data == s.stack.value[0] && !t.log[n + 1].again))
  {
    var u := s.(firingIndex := s.firingIndex + 1);
    if Owed(s) == [] {
      var n := |s.log| - 1;
      var v := u.(log := s.log[n := s.log[n].(left := Some(From(s.list.value, s.log[n].from)))]);
      FinishLog(v);
    }
  }

  lemma ReturnCalls<F, D>(s: State<F, D>, isFalse: bool)
    requires Valid(s) && s.firing && s.list.Some? && !(isFalse && s.options.stopOnFalse) && Owed(s) != []
    ensures var n := |s.log| - 1;
      Return(s, isFalse) ==
        s.(firingIndex := s.firingIndex + 1, log := s.log[n := s.log[n].(calls := s.log[n].calls + [Owed(s)[0]])])
  {
  }

  /** Going on never changes the batches already over, and a running one keeps its data. */
  lemma {:induction false} LoopLog<F, D>(s: State<F, D>)
    requires s.log != []
    ensures var t, n := Loop(s), |s.log| - 1;
      |t.log| > n && t.log[..n] == s.log[..n] && t.log[n].data == s.log[n].data && t.log[n].again == s.log[n].again
    decreases Waiting(s), 1
  {
    var n := |s.log| - 1;
    if !PastEnd(s) && !(s.list.Some? && s.firingIndex < s.firingLength) {
      var left := if s.list.Some? then Some(From(s.list.value, s.log[n].from)) else None;
      var u := s.(log := s.log[n := s.log[n].(left := left)]);
      FinishLog(u);
      assert Finish(u).log[..n] == u.log[..n];
    }
  }

  lemma {:induction false} FinishLog<F, D>(s: State<F, D>)
    ensures s.log <= Finish(s).log
    ensures var queued := s.list.Some? && Waiting(s) > 0;
      && (queued <==> |Finish(s).log| > |s.log|)
      && (queued ==> Finish(s).log[|s.log|].data == s.stack.value[0] && !Finish(s).log[|s.log|].again)
    decreases Waiting(s), 0
  {
    if s.list.Some? && Waiting(s) > 0 {
      FireLog(s.(firing := false, stack := Some(s.stack.value[1..])), s.stack.value[0], false, 0);
    }
  }

  lemma {:induction false} FireLog<F, D>(s: State<F, D>, data: D, again: bool, from: nat)
    ensures var t, n := Fire(s, data, again, from), |s.log|;
      |t.log| > n && t.log[..n] == s.log && t.log[n].data == data && t.log[n].again == again
    decreases Waiting(s), 2
  {
    var u := Begin(s, data, again, from);
    assert u.log[..|s.log|] == s.log;
    LoopLog(u);
  }

  /** What going on and firing leave alone. */
  ghost predicate SameShape<F, D>(s: State<F, D>, t: State<F, D>) {
    && t.options == s.options && t.accepted == s.accepted && t.added == s.added
    && (s.fired ==> t.fired)
    && (s.stack == None ==> t.stack == None)
    && (s.list == None ==> t.list == None)
    && (s.stack.Some? && s.list.Some? ==> t.stack.Some? && t.list.Some?)
  }

  lemma {:induction false} LoopShape<F, D>(s: State<F, D>)
    ensures SameShape(s, Loop(s))
    decreases Waiting(s), 1
  {
    if !PastEnd(s) && !(s.list.Some? && s.firingIndex < s.firingLength && s.log != []) {
      if s.log != [] {
        var n := |s.log| - 1;
        FinishShape(s.(log := s.log[n := s.log[n].(left := if s.list.Some? then Some(From(s.list.value, s.log[n].from)) else None)]));
      } else {
        FinishShape(s);
      }
    }
  }

  lemma {:induction false} FinishShape<F, D>(s: State<F, D>)
    ensures SameShape(s, Finish(s))
    decreases Waiting(s), 0
  {
    if s.list.Some? && Waiting(s) > 0 {
      FireShape(s.(firing := false, stack := Some(s.stack.value[1..])), s.stack.value[0], false, 0);
    }
  }

  lemma {:induction false} FireShape<F, D>(s: State<F, D>, data: D, again: bool, from: nat)
    ensures SameShape(s, Fire(s, data, again, from)) && Fire(s, data, again, from).fired
    decreases Waiting(s), 2
  {
    LoopShape(Begin(s, data, again, from));
  }

  lemma AtRest<F, D>(s: State<F, D>)
    requires Valid(s) && s.list.Some?
    ensures s.firingStart == 0 && Increasing(s.list.value) && Below(s.list.value, s.added)
    ensures s.memory.Some? ==> s.options.memory && s.fired
  {
  }

  /** What is added after the list has fired is called at once with the remembered data. */
  lemma AddRemembered<F, D>(s: State<F, D>, fns: seq<F>)
    requires Valid(s) && !s.firing && s.list.Some? && s.memory.Some? && !s.options.unique && fns != []
    ensures var t, u := Add(s, fns), Push(s, fns);
      && t == u.(firingIndex := |s.list.value|, firingLength := |u.list.value|, firing := true,
                 log := s.log + [Batch(s.memory.value, true, s.added, [Entry(fns[0], s.added)], None)])
      && Fns(Owed(t)) == fns[1..]
  {
    hide Valid, Push, Increasing, Below, Fire;
    AtRest(s);
    PushValid(s, fns);
    PushAll(s, fns);
    var es := Push(s, fns).list.value;
    assert es[|s.list.value|] == Entry(fns[0], s.added);
    assert Fns(es[|s.list.value| + 1..]) == fns[1..];
    FireBegins(Push(s, fns).(firingStart := |s.list.value|), s.memory.value, true, s.added);
  }

  /** What comes of emptying the list from a callback: when that callback returns, the loop
      calls a place the list no longer has exactly when the callback was not the last one,
      and did not stop the loop; otherwise the batch ends as it should. */
  lemma EmptyThenReturn<F, D>(s: State<F, D>, isFalse: bool)
    requires Valid(s) && s.firing
    ensures var t := Return(Empty(s), isFalse);
      && (t.faulted <==> s.firingIndex + 1 < s.firingLength && !(isFalse && s.options.stopOnFalse))
      && (!t.faulted ==> Valid(t))
  {
    hide LogFits, Started, Whole;
    var u := Empty(s);
    if isFalse && s.options.stopOnFalse {
      FinishValid(u.(memory := None));
    } else if s.firingIndex + 1 >= s.firingLength {
      LeaveValid(u.(firingIndex := u.firingIndex + 1));
    }
  }

  /** A batch that begins with the first callback does not call past the list. */
  lemma {:induction false} FireSafe<F, D>(s: State<F, D>, data: D, again: bool, from: nat)
    requires !s.faulted && s.list.Some? && s.firingStart == 0
    ensures !Fire(s, data, again, from).faulted
    decreases Waiting(s), 1
  {
    var u := Begin(s, data, again, from);
    if s.list.value == [] {
      FinishSafe(u.(log := u.log[|s.log| := u.log[|s.log|].(left := Some(From(s.list.value, from)))]));
    }
  }

  lemma {:induction false} FinishSafe<F, D>(s: State<F, D>)
    requires !s.faulted && s.firingStart == 0
    ensures !Finish(s).faulted
    decreases Waiting(s), 0
  {
    if s.list.Some? && Waiting(s) > 0 {
      FireSafe(s.(firing := false, stack := Some(s.stack.value[1..])), s.stack.value[0], false, 0);
    }
  }

  /** What comes of emptying the list and adding to it from the same callback: nothing past
      the list is called, but as many of the callbacks added as have been called before, this
      one among them, are skipped. */
  lemma EmptyAddSkips<F, D>(s: State<F, D>, fns: seq<F>, isFalse: bool)
    requires Valid(s) && s.firing && s.list.Some? && !s.options.unique
    ensures var t := Add(Empty(s), fns);
      && t.list.Some? && Fns(t.list.value) == fns
      && Fns(Owed(t)) == (if s.firingIndex + 1 <= |fns| then fns[s.firingIndex + 1..] else [])
      && !Return(t, isFalse).faulted
  {
    hide Valid, Add, Return, Fns;
    EmptyFacts(s);
    EmptyAddIs(s, fns);
    var t := Add(Empty(s), fns);
    FnsBehind(t.list.value, fns);
    ReturnSafe(t, isFalse);
  }

  lemma EmptyAddIs<F, D>(s: State<F, D>, fns: seq<F>)
    requires s.firing && !s.options.unique
    ensures var t := Add(Empty(s), fns);
      && t.list.Some? && Fns(t.list.value) == fns && |t.list.value| == |fns|
      && t == s.(list := t.list, added := t.added, firingLength := |fns|)
  {
    hide Push;
    PushAll(Empty(s), fns);
    PushLeaves(Empty(s), fns);
    var es := Push(Empty(s), fns).list.value;
    assert |es| == |fns| && forall i :: 0 <= i < |fns| ==> es[i].fn == fns[i];
  }

  lemma FnsBehind<F>(es: seq<Entry<F>>, fns: seq<F>)
    requires Fns(es) == fns
    ensures |es| == |fns| && Fns<F>([]) == [] && forall k :: 0 <= k <= |es| ==> Fns(es[k..]) == fns[k..]
  {
  }

  /** Where the length is that of the list, the loop stays within it. */
  lemma ReturnSafe<F, D>(t: State<F, D>, isFalse: bool)
    requires t.firing && !t.faulted && t.firingStart == 0 && t.log != [] && t.firingIndex >= -1
    requires t.list.Some? && t.firingLength == |t.list.value|
    ensures !Return(t, isFalse).faulted
  {
    hide Finish, From;
    if isFalse && t.options.stopOnFalse {
      FinishSafe(t.(memory := None));
    } else if t.firingIndex + 1 >= t.firingLength {
      var u := t.(firingIndex := t.firingIndex + 1);
      var b := u.log[|u.log| - 1];
      FinishSafe(u.(log := u.log[|u.log| - 1 := b.(left := Some(From(u.list.value, b.from)))]));
    }
  }

  lemma EmptyFacts<F, D>(s: State<F, D>)
    requires Valid(s) && s.firing && s.list.Some?
    ensures !s.faulted && s.firingStart == 0 && s.log != [] && s.firingIndex >= -1
  {
  }

  lemma {:induction false} PushLeaves<F, D>(s: State<F, D>, fns: seq<F>)
    requires s.list.Some?
    ensures var t := Push(s, fns); t == s.(list := t.list, added := t.added)
    decreases |fns|
  {
    hide Has;
    if fns != [] {
      if s.options.unique && Has(s, fns[0]) {
        PushLeaves(s, fns[1..]);
      } else {
        PushLeaves(s.(list := Some(s.list.value + [Entry(fns[0], s.added)]), added := s.added + 1), fns[1..]);
      }
    }
  }

  /** An input: the only callback empties the list and adds another, which is not called. */
  lemma AddedSkipped()
    ensures var s := FireWith(Add(New<int, int>(Options(false, false, false, false)), [1]), 7);
      var t := Add(Empty(s), [2]);
      Valid(s) && s.firing && Fns(t.list.value) == [2] && Owed(t) == [] && !Return(t, false).faulted
  {
    hide Valid, Owed, Return;
    OneRunning();
    var s := FireWith(Add(New<int, int>(Options(false, false, false, false)), [1]), 7);
    EmptyAddSkips(s, [2], false);
    assert |Fns(Owed(Add(Empty(s), [2])))| == |Owed(Add(Empty(s), [2]))|;
  }

  lemma OneRunning()
    ensures var s := FireWith(Add(New<int, int>(Options(false, false, false, false)), [1]), 7);
      Valid(s) && s.firing && s.list.Some? && s.firingIndex == 0 && !s.options.unique
  {
    hide Valid, Histories, Settings;
    var s0 := New<int, int>(Options(false, false, false, false));
    NewValid<int, int>(s0.options);
    PushAll(s0, [1]);
    PushLeaves(s0, [1]);
    AddValid(s0, [1]);
    var s := Add(s0, [1]);
    FireWithValid(s, 7);
    FireBegins(s.(accepted := s.accepted + [7]), 7, false, 0);
  }

  /** An input: of two callbacks the first empties the list, and its return calls what is not there. */
  lemma EmptyBreaks()
    ensures var s := FireWith(Add(New<int, int>(Options(false, false, false, false)), [1, 2]), 7);
            Valid(s) && s.firing && !Valid(Empty(s)) && Return(Empty(s), false).faulted
  {
    var s0 := New<int, int>(Options(false, false, false, false));
    NewValid<int, int>(s0.options);
    PushAll(s0, [1, 2]);
    AddValid(s0, [1, 2]);
    var s := Add(s0, [1, 2]);
    FireWithValid(s, 7);
    FireBegins(s.(accepted := s.accepted + [7]), 7, false, 0);
    EmptyValid(FireWith(s, 7));
    EmptyThenReturn(FireWith(s, 7), false);
  }
}
