/** What becomes of a Deferred's notifications, said on the operations made and the handlers
    called: which are accepted, which have been delivered, and to whom. */
module Notifications {
  import opened Dom
  import opened Deferred
  import C = Callbacks
  import T = CallbackSteps

  type Log<D> = seq<C.Batch<Fn, D>>

  /* ----- what decides, and what is accepted ----- */

  /** The first operation to settle decides. */
  function Decision<D>(ops: seq<Op<D>>): Outcome<D>
    decreases |ops|
  {
    if |ops| == 0 then Open
    else if ops[0].DoWith? && ops[0].side == Done then Closed(Resolved, ops[0].data)
    else if ops[0].DoWith? && ops[0].side == Fail then Closed(Rejected, ops[0].data)
    else Decision(ops[1..])
  }

  /** The data of the notifications made before anything settles. */
  function Notified<D>(ops: seq<Op<D>>): seq<D>
    decreases |ops|
  {
    if |ops| == 0 || (ops[0].DoWith? && ops[0].side != Progress) then []
    else (if ops[0].DoWith? then [ops[0].data] else []) + Notified(ops[1..])
  }

  /** What each operation does to the list of progress handlers. */
  lemma StepProgress<D>(s: State<D>, op: Op<D>)
    requires Valid(s)
    ensures Step(s, op).progress == match op
      case DoWith(side, data) =>
        if s.status != Pending then s.progress
        else if side == Progress then C.FireWith(s.progress, data)
        else C.Lock(s.progress)
      case DoOn(side, ids) => if side == Progress then C.Add(s.progress, Handlers(ids)) else s.progress
      case DoReturn =>
        if s.calls != [] && s.calls[|s.calls| - 1] == Progress then C.Return(s.progress, false) else s.progress
  {
    hide C.FireWith, C.Add, C.Return, C.Lock, Lists, Stack, RunOwn;
    match op
    case DoWith(side, data) =>
      if s.status != Pending {
        WithSettled(s, side, data);
      } else if side == Progress {
        OwnNone(s.(progress := C.FireWith(s.progress, data)), side, |OWN|);
      } else {
        SettleValid(s, side, data);
      }
    case DoOn(side, ids) =>
      if side == Progress {
        OwnNone(s.(progress := C.Add(s.progress, Handlers(ids))), side, |OWN|);
      } else {
        var m := OnSettling(s, side, ids);
      }
    case DoReturn =>
      if s.calls != [] {
        InnermostFires(s);
        ReturnLists(s, s.calls[|s.calls| - 1]);
      }
  }

  lemma InnermostFires<D>(s: State<D>)
    requires Valid(s) && s.calls != []
    ensures Lists(s) && Get(s, s.calls[|s.calls| - 1]).firing
  {
    hide Lists;
    assert s.calls[|s.calls| - 1] in s.calls;
  }

  /** What each operation does to the status and to what is accepted. */
  lemma StepOutcome<D>(s: State<D>, op: Op<D>)
    requires Valid(s)
    ensures var t := Step(s, op);
      && (s.status != Pending ==> Result(t) == Result(s) && t.progress.accepted == s.progress.accepted)
      && (s.status == Pending ==>
           if op.DoWith? && op.side != Progress then
             Result(t) == Closed(if op.side == Done then Resolved else Rejected, op.data) && t.progress.accepted == s.progress.accepted
           else
             t.status == Pending && t.progress.accepted == s.progress.accepted + (if op.DoWith? then [op.data] else []))
  {
    hide Valid, With, On, Return, Result;
    StepValid(s, op);
    if s.status == Pending {
      match op
      case DoWith(side, data) =>
        if side == Progress {
          NotifyValid(s, data);
        } else {
          OpenIs(s);
          WithResult(s, side, data);
          SettleValid(s, side, data);
        }
      case DoOn(side, ids) =>
        OnValid(s, side, ids);
      case DoReturn => ReturnValid(s);
    }
  }

  lemma OpenIs<D>(s: State<D>)
    ensures s.status == Pending ==> Result(s) == Open
  {
  }

  /** Over every run the first settling operation decides, and the notifications accepted are
      those made before it, in order. */
  lemma {:induction false} RunOutcome<D>(s: State<D>, ops: seq<Op<D>>)
    requires Valid(s)
    ensures Valid(Run(s, ops))
    ensures s.status != Pending ==>
      Result(Run(s, ops)) == Result(s) && Run(s, ops).progress.accepted == s.progress.accepted
    ensures s.status == Pending ==>
      Result(Run(s, ops)) == Decision(ops) && Run(s, ops).progress.accepted == s.progress.accepted + Notified(ops)
    decreases |ops|
  {
    hide Valid, Step;
    if ops == [] {
      OpenIs(s);
    } else {
      StepValid(s, ops[0]);
      StepOutcome(s, ops[0]);
      RunOutcome(Step(s, ops[0]), ops[1..]);
      ResultStatus(s);
      ResultStatus(Step(s, ops[0]));
    }
  }

  lemma ResultStatus<D>(s: State<D>)
    requires Valid(s)
    ensures s.status == Pending <==> Result(s) == Open
  {
  }

  /* ----- who is called ----- */

  /** A batch calls consecutive registrations: from the first on, or, if `add` started it, from
      the first of those it added. */
  ghost predicate Part<D>(b: C.Batch<Fn, D>, regs: seq<nat>) {
    && b.from + |b.calls| <= |regs|
    && (forall j :: 0 <= j < |b.calls| ==> b.calls[j] == C.Entry(Handler(regs[b.from + j]), b.from + j))
    && (!b.again ==> b.from == 0)
  }

  /** A batch that has begun after `early` registrations were made has missed none of them by
      its end, unless `add` started it for later ones. */
  ghost predicate Reaches<D>(b: C.Batch<Fn, D>, early: nat, over: bool) {
    (over ==> b.from + |b.calls| >= early) && (b.again ==> b.from >= early)
  }

  /** The list holds the last of the registrations. */
  ghost predicate Tail(es: Entries, regs: seq<nat>) {
    && |es| <= |regs|
    && forall j :: 0 <= j < |es| ==> es[j] == C.Entry(Handler(regs[|regs| - |es| + j]), |regs| - |es| + j)
  }

  /** The batches from place `begun` on began after the first `early` registrations. */
  ghost predicate Logged<D>(log: Log<D>, regs: seq<nat>, begun: nat, early: nat, running: bool) {
    && begun <= |log| && early <= |regs|
    && (forall i :: 0 <= i < |log| ==> Part(log[i], regs))
    && (forall i :: begun <= i < |log| ==> Reaches(log[i], early, i < |log| - 1 || !running))
  }

  ghost predicate Holding<D>(l: List<D>, regs: seq<nat>) {
    && l.options == MEMORY && l.firingStart == 0
    && (l.log != [] ==> l.memory.Some? && l.list.Some?)
    && (l.list.Some? ==>
         && l.added == |regs| && Tail(l.list.value, regs)
         && (l.stack.Some? ==> |l.list.value| == |regs|))
  }

  /** The running batch has come to place `next` of the list. */
  ghost predicate AtPlace<D>(l: List<D>, regs: seq<nat>, next: int) {
    && l.list.Some? && l.firing && l.firingLength == |l.list.value| && 0 <= next <= |l.list.value|
    && l.log != []
    && var b := l.log[|l.log| - 1]; b.from + |b.calls| == |regs| - |l.list.value| + next
  }

  ghost predicate InStep<D>(l: List<D>, regs: seq<nat>, begun: nat, early: nat) {
    && Holding(l, regs) && Logged(l.log, regs, begun, early, l.firing)
    && (l.firing ==> AtPlace(l, regs, l.firingIndex + 1) && l.log[|l.log| - 1].calls != [])
  }

  ghost predicate Looping<D>(l: List<D>, regs: seq<nat>, begun: nat, early: nat) {
    && Holding(l, regs) && l.memory.Some? && Logged(l.log, regs, begun, early, true)
    && AtPlace(l, regs, l.firingIndex)
  }

  lemma CallNext<D>(l: List<D>, regs: seq<nat>, begun: nat, early: nat)
    requires Looping(l, regs, begun, early) && l.firingIndex < l.firingLength
    ensures InStep(C.Loop(l), regs, begun, early)
  {
    var n := |l.log| - 1;
    var b := l.log[n];
    var e := l.list.value[l.firingIndex];
    var b' := b.(calls := b.calls + [e]);
    assert Part(b, regs);
    assert e == C.Entry(Handler(regs[b.from + |b.calls|]), b.from + |b.calls|);
    assert Part(b', regs);
    assert begun <= n ==> Reaches(b, early, false);
    ChangeLast(l.log, regs, begun, early, b', true);
    assert C.Loop(l) == l.(log := l.log[n := b']);
  }

  lemma ChangeLast<D>(log: Log<D>, regs: seq<nat>, begun: nat, early: nat, b: C.Batch<Fn, D>, running: bool)
    requires log != [] && Logged(log, regs, begun, early, true) && Part(b, regs)
    requires begun < |log| ==> Reaches(b, early, !running)
    ensures Logged(log[|log| - 1 := b], regs, begun, early, running)
  {
    hide Part, Reaches;
    var log', n := log[|log| - 1 := b], |log| - 1;
    forall i | begun <= i < |log'| ensures Reaches(log'[i], early, i < |log'| - 1 || !running) {
      if i < n {
        assert Reaches(log[i], early, i < |log| - 1 || !true);
      }
    }
  }

  lemma {:induction false} LoopInStep<D>(l: List<D>, regs: seq<nat>, begun: nat, early: nat)
    requires Looping(l, regs, begun, early)
    ensures InStep(C.Loop(l), regs, begun, early)
    decreases C.Waiting(l), 1
  {
    hide Logged, Part, Tail, Reaches;
    if l.firingIndex < l.firingLength {
      CallNext(l, regs, begun, early);
    } else {
      var n := |l.log| - 1;
      var b' := l.log[n].(left := Some(C.From(l.list.value, l.log[n].from)));
      LeaveLast(l, regs, begun, early, b');
      var u := l.(log := l.log[n := b']);
      assert C.Loop(l) == C.Finish(u);
      FinishInStep(u, regs, begun, early);
    }
  }

  lemma LeaveLast<D>(l: List<D>, regs: seq<nat>, begun: nat, early: nat, b: C.Batch<Fn, D>)
    requires Looping(l, regs, begun, early) && l.firingIndex == l.firingLength
    requires b == l.log[|l.log| - 1].(left := b.left)
    ensures Logged(l.log[|l.log| - 1 := b], regs, begun, early, false)
  {
    var last := l.log[|l.log| - 1];
    assert Part(last, regs) && (begun < |l.log| ==> Reaches(last, early, false));
    ChangeLast(l.log, regs, begun, early, b, false);
  }

  lemma {:induction false} FinishInStep<D>(l: List<D>, regs: seq<nat>, begun: nat, early: nat)
    requires Holding(l, regs) && l.memory.Some? && l.list.Some? && Logged(l.log, regs, begun, early, false)
    ensures InStep(C.Finish(l), regs, begun, early)
    decreases C.Waiting(l), 0
  {
    hide Logged, Part, Reaches;
    if C.Waiting(l) > 0 {
      var t := l.(firing := false, stack := Some(l.stack.value[1..]));
      FireInStep(t, l.stack.value[0], regs, begun, early);
    }
  }

  lemma {:induction false} FireInStep<D>(l: List<D>, data: D, regs: seq<nat>, begun: nat, early: nat)
    requires Holding(l, regs) && !l.firing && l.list.Some? && |l.list.value| == |regs|
    requires Logged(l.log, regs, begun, early, false)
    ensures InStep(C.Fire(l, data, false, 0), regs, begun, early)
    decreases C.Waiting(l), 2
  {
    var b := C.Batch(data, false, 0, [], None);
    BeginLast(l.log, regs, begun, early, b);
    hide Logged, Part, Tail, Reaches;
    LoopInStep(C.Begin(l, data, false, 0), regs, begun, early);
  }

  lemma BeginLast<D>(log: Log<D>, regs: seq<nat>, begun: nat, early: nat, b: C.Batch<Fn, D>)
    requires Logged(log, regs, begun, early, false) && Part(b, regs) && Reaches(b, early, false)
    ensures Logged(log + [b], regs, begun, early, true)
  {
    hide Part, Reaches;
    var log' := log + [b];
    forall i | begun <= i < |log'| ensures Reaches(log'[i], early, i < |log'| - 1 || !true) {
      if i < |log| {
        assert Reaches(log[i], early, i < |log| - 1 || !false);
        OverStays(log[i], early);
      }
    }
  }

  lemma OverStays<D>(b: C.Batch<Fn, D>, early: nat)
    ensures Reaches(b, early, true) ==> Reaches(b, early, false)
  {
  }

  /* ----- each operation on the list ----- */

  lemma LoggedMore<D>(log: Log<D>, regs: seq<nat>, more: seq<nat>, begun: nat, early: nat, running: bool)
    requires Logged(log, regs, begun, early, running)
    ensures Logged(log, regs + more, begun, early, running)
  {
    forall i | 0 <= i < |log| ensures Part(log[i], regs + more) {
      assert Part(log[i], regs);
    }
  }

  lemma TailMore(es: Entries, regs: seq<nat>, more: seq<nat>)
    requires Tail(es, regs)
    ensures Tail(es + Later(|regs|, more), regs + more)
  {
    var all, r := es + Later(|regs|, more), regs + more;
    forall j | 0 <= j < |all| ensures all[j] == C.Entry(Handler(r[|r| - |all| + j]), |r| - |all| + j) {
      if j < |es| {
        assert all[j] == es[j];
      } else {
        assert all[j] == Later(|regs|, more)[j - |es|];
      }
    }
  }

  lemma PushInStep<D>(l: List<D>, regs: seq<nat>, more: seq<nat>)
    requires Holding(l, regs) && l.list.Some?
    ensures var t := C.Push(l, Handlers(more));
      && t == l.(list := t.list, added := l.added + |more|)
      && t.list.Some? && t.list.value == l.list.value + Later(|regs|, more)
      && Holding(t, regs + more)
  {
    T.PushAll(l, Handlers(more));
    PushRest(l, Handlers(more));
    TailMore(l.list.value, regs, more);
    assert C.Push(l, Handlers(more)).list.value == l.list.value + Later(|regs|, more);
  }

  lemma AddInStep<D>(l: List<D>, regs: seq<nat>, more: seq<nat>, begun: nat, early: nat)
    requires InStep(l, regs, begun, early)
    ensures InStep(C.Add(l, Handlers(more)), regs + more, begun, early)
  {
    hide C.Push, Logged, Tail, Part, Reaches;
    LoggedMore(l.log, regs, more, begun, early, l.firing);
    if l.list.Some? {
      PushInStep(l, regs, more);
      if !l.firing && l.memory.Some? {
        AddAgain(l, regs, more, begun, early);
      }
    }
  }

  lemma AddAgain<D>(l: List<D>, regs: seq<nat>, more: seq<nat>, begun: nat, early: nat)
    requires InStep(l, regs, begun, early) && l.list.Some? && !l.firing && l.memory.Some?
    ensures var t := C.Push(l, Handlers(more)).(firingStart := |l.list.value|);
      InStep(C.Fire(t, l.memory.value, true, l.added), regs + more, begun, early)
  {
    hide C.Push, Tail;
    PushInStep(l, regs, more);
    LoggedMore(l.log, regs, more, begun, early, false);
    var t := C.Push(l, Handlers(more)).(firingStart := |l.list.value|);
    var b := C.Batch(l.memory.value, true, l.added, [], None);
    BeginLast(l.log, regs + more, begun, early, b);
    hide Logged, Part, Reaches;
    LoopInStep(C.Begin(t, l.memory.value, true, l.added), regs + more, begun, early);
  }

  lemma FireWithInStep<D>(l: List<D>, data: D, regs: seq<nat>, begun: nat, early: nat)
    requires InStep(l, regs, begun, early) && l.stack.Some?
    ensures InStep(C.FireWith(l, data), regs, begun, early)
  {
    hide Logged, Tail, Part, Reaches;
    if l.list.Some? && !l.firing {
      FireInStep(l.(accepted := l.accepted + [data]), data, regs, begun, early);
    }
  }

  lemma ReturnInStep<D>(l: List<D>, regs: seq<nat>, begun: nat, early: nat)
    requires InStep(l, regs, begun, early) && !l.faulted
    ensures InStep(C.Return(l, false), regs, begun, early)
  {
    hide Logged, Tail, Part, Reaches;
    if l.firing {
      LoopInStep(l.(firingIndex := l.firingIndex + 1), regs, begun, early);
    }
  }

  lemma LockInStep<D>(l: List<D>, regs: seq<nat>, begun: nat, early: nat)
    requires InStep(l, regs, begun, early)
    ensures InStep(C.Lock(l), regs, begun, early)
  {
    hide Logged, Tail, Part, Reaches;
  }

  /* ----- every run ----- */

  lemma AddedNext<D>(op: Op<D>, rest: seq<Op<D>>, side: Side)
    ensures Added([op] + rest, side) == Added([op], side) + Added(rest, side)
    ensures Added([op], side) == if op.DoOn? && op.side == side then op.ids else []
  {
    assert ([op] + rest)[1..] == rest && [op][1..] == [];
  }

  lemma StepInStep<D>(s: State<D>, op: Op<D>, regs: seq<nat>, begun: nat, early: nat)
    requires Valid(s) && InStep(s.progress, regs, begun, early)
    ensures InStep(Step(s, op).progress, regs + Added([op], Progress), begun, early)
  {
    StepProgress(s, op);
    AddedNext(op, [], Progress);
    StackWhilePending(s);
    hide Valid, Step, InStep;
    assert regs + [] == regs;
    match op
    case DoWith(side, data) =>
      if s.status == Pending && side == Progress {
        FireWithInStep(s.progress, data, regs, begun, early);
      } else if s.status == Pending {
        LockInStep(s.progress, regs, begun, early);
      }
    case DoOn(side, ids) =>
      if side == Progress {
        AddInStep(s.progress, regs, ids, begun, early);
      }
    case DoReturn =>
      ReturnInStep(s.progress, regs, begun, early);
  }

  lemma StackWhilePending<D>(s: State<D>)
    requires Valid(s)
    ensures !s.progress.faulted && (s.status == Pending ==> s.progress.stack.Some? && s.progress.list.Some?)
    ensures C.Valid(s.progress)
  {
  }

  lemma {:induction false} RunInStep<D>(s: State<D>, ops: seq<Op<D>>, regs: seq<nat>, begun: nat, early: nat)
    requires Valid(s) && InStep(s.progress, regs, begun, early)
    ensures InStep(Run(s, ops).progress, regs + Added(ops, Progress), begun, early)
    decreases |ops|
  {
    hide Valid, Step, InStep;
    if ops == [] {
      assert regs + Added(ops, Progress) == regs;
    } else {
      StepValid(s, ops[0]);
      StepInStep(s, ops[0], regs, begun, early);
      RunInStep(Step(s, ops[0]), ops[1..], regs + Added([ops[0]], Progress), begun, early);
      AddedNext(ops[0], ops[1..], Progress);
      assert ops == [ops[0]] + ops[1..];
      Grouped(regs, Added([ops[0]], Progress), Added(ops[1..], Progress));
    }
  }

  lemma Grouped(a: seq<nat>, b: seq<nat>, c: seq<nat>)
    ensures a + b + c == a + (b + c)
  {
  }

  lemma {:induction false} RunConcat<D>(s: State<D>, a: seq<Op<D>>, b: seq<Op<D>>)
    ensures Run(s, a + b) == Run(Run(s, a), b)
    decreases |a|
  {
    hide Step;
    if a == [] {
      assert a + b == b;
    } else {
      assert (a + b)[1..] == a[1..] + b;
      RunConcat(Step(s, a[0]), a[1..], b);
    }
  }

  lemma {:induction false} AddedConcat<D>(a: seq<Op<D>>, b: seq<Op<D>>, side: Side)
    ensures Added(a + b, side) == Added(a, side) + Added(b, side)
    decreases |a|
  {
    if a == [] {
      assert a + b == b;
    } else {
      assert (a + b)[1..] == a[1..] + b;
      AddedConcat(a[1..], b, side);
    }
  }

  /** From here on the batches that begin reach all registered by now. */
  lemma FromHere<D>(l: List<D>, regs: seq<nat>)
    requires InStep(l, regs, 0, 0)
    ensures InStep(l, regs, |l.log|, |regs|)
  {
  }

  lemma NewInStep<D>()
    ensures InStep(New<D>().progress, [], 0, 0)
  {
  }

  /** In every run: the outcome is that of the first settling operation; the notifications
      accepted are those made before it, in order; and while nothing has settled all of them
      have been started, one batch for each, but for those that wait for a running batch. */
  lemma EveryNotification<D>(ops: seq<Op<D>>)
    ensures var s := Run(New(), ops);
      && Result(s) == Decision(ops)
      && s.progress.accepted == Notified(ops)
      && C.Started(s.progress.log) <= Notified(ops)
      && (Decision(ops) == Open && !s.progress.firing ==> C.Started(s.progress.log) == Notified(ops))
      && (Decision(ops) == Open && s.progress.firing ==>
           (s.progress.stack.Some? && C.Started(s.progress.log) + s.progress.stack.value == Notified(ops)))
  {
    NewValid<D>();
    RunOutcome(New(), ops);
    var s := Run(New(), ops);
    ResultStatus(s);
    StackWhilePending(s);
    assert s.progress.accepted == [] + Notified(ops) == Notified(ops);
    StartedAre(s.progress);
  }

  lemma StartedAre<D>(l: List<D>)
    requires C.Valid(l)
    ensures C.Started(l.log) <= l.accepted
    ensures l.stack.Some? ==> l.accepted == C.Started(l.log) + l.stack.value && (!l.firing ==> l.stack.value == [])
    ensures l.stack.Some? && !l.firing ==> l.accepted == C.Started(l.log)
  {
  }

  /** And who hears of them: whatever was done first, a batch that begins afterwards calls
      handlers one after the other in the order they were registered, each with the batch's
      data; a notification's begins with the first and has called, once it is over, all
      registered before it began; one that `progress` starts, for handlers registered late,
      calls none of the earlier ones. */
  lemma EveryoneNotified<D>(before: seq<Op<D>>, after: seq<Op<D>>)
    ensures var first, s, regs := Run(New(), before), Run(New(), before + after), Added(before + after, Progress);
      && |first.progress.log| <= |s.progress.log|
      && Added(before, Progress) <= regs
      && (forall i :: 0 <= i < |s.progress.log| ==> Part(s.progress.log[i], regs))
      && (forall i :: |first.progress.log| <= i < |s.progress.log| ==>
           Reaches(s.progress.log[i], |Added(before, Progress)|, i < |s.progress.log| - 1 || !s.progress.firing))
      && (s.progress.firing ==> s.progress.log != [] && s.progress.log[|s.progress.log| - 1].calls != [])
  {
    hide Run, Valid, InStep, Added, Part, Reaches;
    var first := Run(New(), before);
    NewValid<D>();
    NewInStep<D>();
    RunValid(New(), before);
    RunInStep(New(), before, [], 0, 0);
    var regs := Added(before, Progress);
    assert [] + regs == regs;
    FromHere(first.progress, regs);
    RunInStep(first, after, regs, |first.progress.log|, |regs|);
    RunConcat(New(), before, after);
    AddedConcat(before, after, Progress);
    InStepSays(Run(first, after).progress, regs + Added(after, Progress), |first.progress.log|, |regs|);
  }

  lemma InStepSays<D>(l: List<D>, regs: seq<nat>, begun: nat, early: nat)
    requires InStep(l, regs, begun, early)
    ensures begun <= |l.log|
    ensures forall i :: 0 <= i < |l.log| ==> Part(l.log[i], regs)
    ensures forall i :: begun <= i < |l.log| ==> Reaches(l.log[i], early, i < |l.log| - 1 || !l.firing)
    ensures l.firing ==> l.log != [] && l.log[|l.log| - 1].calls != []
  {
    hide Part, Reaches, Tail;
  }

  /* ----- going on ----- */

  /** A running list calls the next one owed, or starts the next batch, or comes to rest. */
  ghost predicate GoesOn<D>(l: List<D>, m: List<D>) {
    var n := |l.log| - 1;
    && n >= 0 && |m.log| > n && m.log[..n] == l.log[..n] && m.log[n].data == l.log[n].data
    && (C.Owed(l) != [] ==>
         && |m.log| == n + 1 && m.log[n].calls == l.log[n].calls + [C.Owed(l)[0]]
         && C.Owed(m) == C.Owed(l)[1..] && m.firing)
    && (C.Owed(l) == [] ==> m.log[n].left.Some? && m.log[n].calls == l.log[n].calls)
    && (C.Owed(l) == [] && C.Waiting(l) > 0 ==> |m.log| > n + 1 && m.log[n + 1].data == l.stack.value[0])
    && (C.Owed(l) == [] && C.Waiting(l) == 0 ==> |m.log| == n + 1 && !m.firing)
  }

  lemma ListGoesOn<D>(l: List<D>)
    requires C.Valid(l) && l.firing && l.list.Some?
    ensures GoesOn(l, C.Return(l, false))
  {
    T.OwedReturn(l, false);
    T.InFiring(l);
    if C.Owed(l) == [] && C.Waiting(l) == 0 {
      LastReturn(l);
    }
    hide C.Valid, C.Return, C.Owed;
  }

  /** With nothing owed and nothing waiting the list comes to rest. */
  lemma LastReturn<D>(l: List<D>)
    requires C.Valid(l) && l.firing && l.list.Some? && C.Owed(l) == [] && C.Waiting(l) == 0
    ensures !C.Return(l, false).firing
  {
    var n := |l.log| - 1;
    var u := l.(firingIndex := l.firingIndex + 1);
    var v := u.(log := l.log[n := l.log[n].(left := Some(C.From(l.list.value, l.log[n].from)))]);
    assert C.Loop(u) == C.Finish(v);
  }

  /** In every run, when the innermost handler returns, its list goes on, and the others are
      left alone. */
  lemma ReturnGoesOn<D>(ops: seq<Op<D>>)
    requires Run(New(), ops).calls != []
    ensures var s, t := Run(New(), ops), Run(New(), ops + [DoReturn]);
      var side := s.calls[|s.calls| - 1];
      && Get(s, side).firing && GoesOn(Get(s, side), Get(t, side))
      && (forall other :: other != side ==> Get(t, other) == Get(s, other))
      && t.calls == if Get(t, side).firing then s.calls else s.calls[..|s.calls| - 1]
  {
    hide Valid, InStep, GoesOn, Return;
    NewValid<D>();
    NewInStep<D>();
    RunValid(New(), ops);
    RunInStep(New(), ops, [], 0, 0);
    var last: seq<Op<D>> := [DoReturn];
    RunConcat(New(), ops, last);
    var s := Run(New(), ops);
    assert last[1..] == [] && Run(s, last) == Return(s);
    ReturnStep(s, [] + Added(ops, Progress));
  }

  lemma ReturnStep<D>(s: State<D>, regs: seq<nat>)
    requires Valid(s) && InStep(s.progress, regs, 0, 0) && s.calls != []
    ensures var side, t := s.calls[|s.calls| - 1], Return(s);
      && Get(s, side).firing && GoesOn(Get(s, side), Get(t, side))
      && (forall other :: other != side ==> Get(t, other) == Get(s, other))
      && t.calls == if Get(t, side).firing then s.calls else s.calls[..|s.calls| - 1]
  {
    hide Valid, InStep, Return, C.Return, GoesOn, Lists, RunOwn, C.Valid;
    var side := s.calls[|s.calls| - 1];
    InnermostFires(s);
    ReturnIs(s);
    ListFacts(s, side, regs);
    ListGoesOn(Get(s, side));
  }

  lemma ReturnIs<D>(s: State<D>)
    requires Valid(s) && s.calls != []
    ensures var side := s.calls[|s.calls| - 1];
      var t := Put(s, side, C.Return(Get(s, side), false));
      Return(s) == if Get(t, side).firing then t else t.(calls := s.calls[..|s.calls| - 1])
  {
    InnermostFires(s);
    ReturnLists(s, s.calls[|s.calls| - 1]);
  }

  lemma ListFacts<D>(s: State<D>, side: Side, regs: seq<nat>)
    requires Valid(s) && InStep(s.progress, regs, 0, 0) && Get(s, side).firing
    ensures C.Valid(Get(s, side)) && Get(s, side).list.Some?
  {
    hide C.Increasing, C.LogFits, C.Started;
  }

  /** An input: one progress handler, then one notification. */
  lemma OneNotified()
    ensures var s := Run(New<int>(), [DoOn(Progress, [1]), DoWith(Progress, 5)]);
      && s.status == Pending
      && s.progress.log == [C.Batch(5, false, 0, [C.Entry(Handler(1), 0)], None)]
  {
    hide Step, Lists, Stack;
    var ops: seq<Op<int>> := [DoOn(Progress, [1]), DoWith(Progress, 5)];
    var s0 := New<int>();
    var s1 := Step(s0, ops[0]);
    assert ops[1..] == [ops[1]] && ops[1..][1..] == [];
    assert Run(s0, ops) == Run(s1, ops[1..]) == Step(s1, ops[1]);
    NewValid<int>();
    StepValid(s0, ops[0]);
    StepProgress(s0, ops[0]);
    StepOutcome(s0, ops[0]);
    StepProgress(s1, ops[1]);
    StepOutcome(s1, ops[1]);
    CalledOnce(s0.progress);
  }

  lemma CalledOnce(l: List<int>)
    requires l == C.New(MEMORY)
    ensures C.FireWith(C.Add(l, Handlers([1])), 5).log == [C.Batch(5, false, 0, [C.Entry(Handler(1), 0)], None)]
  {
    T.PushAll(l, Handlers([1]));
    PushRest(l, Handlers([1]));
    var m := C.Add(l, Handlers([1]));
    assert m.list.value == [C.Entry(Handler(1), 0)];
    T.FireBegins(m.(accepted := m.accepted + [5]), 5, false, 0);
  }
}
