/** Every run of a callback list, with any operation inside any running callback. */
module CallbackRuns {
  import opened Dom
  import opened Callbacks
  import opened CallbackSteps

  datatype Op<F, D> =
    | DoAdd(fns: seq<F>)
    | DoRemove(fns: seq<F>)
    | DoEmpty
    | DoDisable
    | DoLock
    | DoFireWith(data: D)
    | DoReturn(isFalse: bool)

  function Step<F(==), D>(s: State<F, D>, op: Op<F, D>): State<F, D> {
    match op
    case DoAdd(fns) => Add(s, fns)
    case DoRemove(fns) => Remove(s, fns)
    case DoEmpty => Empty(s)
    case DoDisable => Disable(s)
    case DoLock => Lock(s)
    case DoFireWith(data) => FireWith(s, data)
    case DoReturn(isFalse) => Return(s, isFalse)
  }

  function Run<F(==), D>(s: State<F, D>, ops: seq<Op<F, D>>): State<F, D>
    decreases |ops|
  {
    if |ops| == 0 then s else Run(Step(s, ops[0]), ops[1..])
  }

  /** `empty` is called only where it keeps the invariant: outside a firing, or from the last
      callback once that has removed itself. */
  predicate Careful<F(==), D>(s: State<F, D>, ops: seq<Op<F, D>>)
    decreases |ops|
  {
    ops == [] || ((ops[0].DoEmpty? ==> MayEmpty(s)) && Careful(Step(s, ops[0]), ops[1..]))
  }

  lemma StepValid<F, D>(s: State<F, D>, op: Op<F, D>)
    requires Valid(s) && (op.DoEmpty? ==> MayEmpty(s))
    ensures Valid(Step(s, op))
  {
    match op
    case DoAdd(fns) => AddValid(s, fns);
    case DoRemove(fns) => RemoveValid(s, fns);
    case DoEmpty => EmptyValid(s);
    case DoDisable => LockValid(s);
    case DoLock => LockValid(s);
    case DoFireWith(data) => FireWithValid(s, data);
    case DoReturn(isFalse) => ReturnValid(s, isFalse);
  }

  lemma {:induction false} RunValid<F, D>(s: State<F, D>, ops: seq<Op<F, D>>)
    requires Valid(s) && Careful(s, ops)
    ensures Valid(Run(s, ops))
    decreases |ops|
  {
    if ops != [] {
      StepValid(s, ops[0]);
      RunValid(Step(s, ops[0]), ops[1..]);
    }
  }

  /** Over any run from a new list: while the loop runs the indices agree with the list; in
      every batch each callback is called at most once, in registration order, and none still
      registered at its end was skipped; the batches begun are the accepted data, in order; and
      no place past the list is ever called. */
  lemma RunTheorem<F, D>(options: Options, ops: seq<Op<F, D>>)
    requires Careful(New(options), ops)
    ensures var s := Run(New(options), ops);
      && !s.faulted
      && (s.firing && s.list.Some? ==> s.firingLength == |s.list.value| && -1 <= s.firingIndex < s.firingLength)
      && (forall i :: 0 <= i < |s.log| ==> Whole(s.log[i]) && s.log[i].data in s.accepted)
      && Started(s.log) <= s.accepted
      && (s.stack.Some? ==> s.accepted == Started(s.log) + s.stack.value && (s.stack.value != [] ==> s.firing))
  {
    NewValid<F, D>(options);
    RunValid(New(options), ops);
    var s := Run(New(options), ops);
    forall i | 0 <= i < |s.log| ensures Whole(s.log[i]) && s.log[i].data in s.accepted {
      assert Fits(s.log[i], s.added);
      DataAccepted(s.log, i);
    }
  }

  /* ----- what is accepted ----- */

  predicate Ending<F, D>(op: Op<F, D>) {
    op.DoLock? || op.DoDisable?
  }

  /** The data fired in a run. */
  function Data<F, D>(ops: seq<Op<F, D>>): seq<D>
    decreases |ops|
  {
    if |ops| == 0 then [] else (if ops[0].DoFireWith? then [ops[0].data] else []) + Data(ops[1..])
  }

  /** A list that may fire more than once takes whatever is fired, and one that may fire once
      has fired or is as new. */
  ghost predicate Taking<F, D>(s: State<F, D>) {
    if s.options.once then !s.fired ==> s.list.Some? else s.list.Some? && s.stack.Some?
  }

  lemma {:induction false} RemoveTakes<F, D>(s: State<F, D>, fns: seq<F>)
    ensures var t := Remove(s, fns);
      && t.options == s.options && t.accepted == s.accepted && t.fired == s.fired && t.stack == s.stack
      && (t.list.Some? <==> s.list.Some?)
    decreases |fns|
  {
    if fns != [] {
      RemoveTakes(RemoveOne(s, fns[0]), fns[1..]);
    }
  }

  lemma AddTakes<F, D>(s: State<F, D>, fns: seq<F>)
    requires Valid(s) && Taking(s)
    ensures var t := Add(s, fns); Taking(t) && t.options == s.options && t.accepted == s.accepted && t.fired == s.fired
  {
    hide Valid, Push;
    if s.list.Some? {
      AtRest(s);
      PushLeaves(s, fns);
      if !s.firing && s.memory.Some? {
        FireShape(Push(s, fns).(firingStart := |s.list.value|), s.memory.value, true, s.added);
      }
    }
  }

  lemma ReturnTakes<F, D>(s: State<F, D>, isFalse: bool)
    requires Valid(s) && Taking(s)
    ensures var t := Return(s, isFalse); Taking(t) && t.options == s.options && t.accepted == s.accepted && t.fired == s.fired
  {
    if s.firing {
      HasFired(s);
      hide Valid, Loop, Finish;
      FinishShape(s.(memory := None));
      LoopShape(s.(firingIndex := s.firingIndex + 1));
    }
  }

  lemma HasFired<F, D>(s: State<F, D>)
    requires Valid(s)
    ensures s.firing ==> s.fired
    ensures s.fired <==> s.accepted != []
    ensures s.options.once ==> s.stack == None
  {
  }

  lemma FireWithTakes<F, D>(s: State<F, D>, data: D)
    requires Valid(s) && Taking(s)
    ensures var t := FireWith(s, data);
      && Taking(t) && t.options == s.options && t.fired
      && t.accepted == if s.options.once && s.fired then s.accepted else s.accepted + [data]
  {
    HasFired(s);
    hide Valid, Fire;
    FireShape(s.(accepted := s.accepted + [data]), data, false, 0);
  }

  lemma StepAccepts<F, D>(s: State<F, D>, op: Op<F, D>)
    requires Valid(s) && Taking(s) && !Ending(op) && (op.DoEmpty? ==> MayEmpty(s))
    ensures var t := Step(s, op);
      && Valid(t) && Taking(t) && t.options == s.options && t.fired == (s.fired || op.DoFireWith?)
      && t.accepted == if op.DoFireWith? && !(s.options.once && s.fired) then s.accepted + [op.data] else s.accepted
  {
    hide Valid, Add, Remove, Return, FireWith;
    StepValid(s, op);
    match op {
      case DoAdd(fns) => AddTakes(s, fns);
      case DoRemove(fns) => RemoveTakes(s, fns);
      case DoFireWith(data) => FireWithTakes(s, data);
      case DoReturn(isFalse) => ReturnTakes(s, isFalse);
      case DoEmpty =>
      case DoDisable =>
      case DoLock =>
    }
  }

  /** What of the data is accepted from here on. */
  function Accepted<D>(once: bool, fired: bool, data: seq<D>): seq<D> {
    if !once then data else if fired || data == [] then [] else [data[0]]
  }

  lemma AcceptedNext<D>(once: bool, fired: bool, before: seq<D>, first: D, rest: seq<D>)
    ensures (if once && fired then before else before + [first]) + Accepted(once, true, rest) ==
      before + Accepted(once, fired, [first] + rest)
  {
  }

  lemma {:induction false} RunAccepts<F, D>(s: State<F, D>, ops: seq<Op<F, D>>)
    requires Valid(s) && Taking(s) && Careful(s, ops)
    requires forall i :: 0 <= i < |ops| ==> !Ending(ops[i])
    ensures Valid(Run(s, ops)) && Taking(Run(s, ops)) && Run(s, ops).options == s.options
    ensures Run(s, ops).accepted == s.accepted + Accepted(s.options.once, s.fired, Data(ops))
    decreases |ops|
  {
    hide Valid, Taking, Step, Accepted, MayEmpty;
    if ops == [] {
      NothingAccepted<D>(s.options.once, s.fired);
      assert s.accepted + [] == s.accepted;
    } else {
      assert !Ending(ops[0]);
      StepAccepts(s, ops[0]);
      RunAccepts(Step(s, ops[0]), ops[1..]);
      if ops[0].DoFireWith? {
        AcceptedNext(s.options.once, s.fired, s.accepted, ops[0].data, Data(ops[1..]));
      } else {
        assert [] + Data(ops[1..]) == Data(ops[1..]);
      }
    }
  }

  lemma NothingAccepted<D>(once: bool, fired: bool)
    ensures Accepted<D>(once, fired, []) == []
  {
  }

  /** As long as a list is neither locked nor disabled, whatever is fired is accepted, in order,
      or for a list that fires once the first alone; and a list at rest has started on it. */
  lemma AcceptedExactly<F, D>(options: Options, ops: seq<Op<F, D>>)
    requires Careful(New(options), ops) && forall i :: 0 <= i < |ops| ==> !Ending(ops[i])
    ensures var s, data := Run(New(options), ops), Data(ops);
      && s.accepted == (if options.once && data != [] then [data[0]] else data)
      && (!options.once && !s.firing ==> Started(s.log) == data)
  {
    var s0 := New<F, D>(options);
    NewValid<F, D>(options);
    RunAccepts(s0, ops);
    assert s0.accepted + Accepted(options.once, false, Data(ops)) == Accepted(options.once, false, Data(ops));
    AtRestStarted(Run(s0, ops));
  }

  lemma AtRestStarted<F, D>(s: State<F, D>)
    requires Valid(s) && Taking(s)
    ensures !s.options.once && !s.firing ==> Started(s.log) == s.accepted
  {
  }
}
