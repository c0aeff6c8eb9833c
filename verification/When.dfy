/** `jQuery.when`: one master Deferred for any number of subordinates. */
module When {
  import opened Dom
  import D = Deferred

  /** An argument or a value passed on: nothing, some value, a promise among the arguments, or
      the array made of several arguments. */
  datatype Val = Undefined | Atom(id: nat) | PromiseAt(index: nat) | Array(items: seq<Val>)

  type Args = seq<Val>

  /** How a subordinate stands when its handlers are attached. A settled one calls them at once,
      and one that has notified calls its progress handler with the last notification. */
  datatype Input = Plain(value: Val) | Promise(settled: Outcome, noted: Option<Args>)

  /** What has become of an argument. */
  datatype Outcome = Waiting | Done(args: Args) | Failed(args: Args)

  /** `arguments.length > 1 ? core_slice.call( arguments ) : value`. */
  function Packed(args: Args): Val {
    if |args| > 1 then Array(args) else if |args| == 1 then args[0] else Undefined
  }

  /** Several arguments become an array, which no single one is. */
  lemma PackedIs(args: Args)
    ensures |args| > 1 <==> Packed(args) == Array(args)
    ensures |args| == 1 ==> [Packed(args)] == args
    ensures |args| == 0 ==> Packed(args) == Undefined
  {
    if |args| == 1 {
      assert args[0] < Array(args);
    }
  }

  function Argument(input: Input, i: nat): Val {
    match input
    case Plain(v) => v
    case Promise(_, _) => PromiseAt(i)
  }

  /** The outcomes not yet `Done`. */
  function Unresolved(os: seq<Outcome>): nat {
    if os == [] then 0 else Unresolved(os[..|os| - 1]) + (if os[|os| - 1].Done? then 0 else 1)
  }

  lemma {:induction false} UnresolvedUpdate(os: seq<Outcome>, i: nat, o: Outcome)
    requires i < |os| && !os[i].Done?
    ensures Unresolved(os[i := o]) == Unresolved(os) - (if o.Done? then 1 else 0)
  {
    var n := |os| - 1;
    if i == n {
      assert os[i := o][..n] == os[..n];
    } else {
      UnresolvedUpdate(os[..n], i, o);
      assert os[i := o][..n] == os[..n][i := o];
    }
  }

  lemma {:induction false} NoneUnresolved(os: seq<Outcome>)
    ensures Unresolved(os) == 0 <==> forall i :: 0 <= i < |os| ==> os[i].Done?
  {
    if os != [] {
      NoneUnresolved(os[..|os| - 1]);
    }
  }

  function Values(os: seq<Outcome>): Args {
    seq(|os|, i requires 0 <= i < |os| => if os[i].Done? then Packed(os[i].args) else Undefined)
  }

  predicate AllDone(os: seq<Outcome>) {
    forall i :: 0 <= i < |os| ==> os[i].Done?
  }

  /** What the master must have come to: rejected as the first subordinate to fail was, or
      resolved with the values in argument order, or neither. */
  function Verdict(os: seq<Outcome>, firstFailure: Option<nat>): D.Outcome<Args>
    requires firstFailure.Some? ==> firstFailure.value < |os| && os[firstFailure.value].Failed?
  {
    if firstFailure.Some? then D.Closed(D.Rejected, os[firstFailure.value].args)
    else if AllDone(os) then D.Closed(D.Resolved, Values(os))
    else D.Open
  }

  /** What the functions made in one call of `when` share. A plain argument counts as done
      once the loop has passed it. */
  class When {
    var resolveValues: Args
    var progressValues: Args
    var remaining: int
    var master: D.State<Args>
    ghost var outcomes: seq<Outcome>
    ghost var firstFailure: Option<nat>

    ghost predicate Valid()
      reads this
    {
      Counted() && D.Result(master) == Verdict(outcomes, firstFailure)
    }

    ghost predicate Counted()
      reads this
    {
      && D.Valid(master)
      && |resolveValues| == |progressValues| == |outcomes|
      && remaining == Unresolved(outcomes)
      && (forall i :: 0 <= i < |outcomes| && outcomes[i].Done? ==> resolveValues[i] == Packed(outcomes[i].args))
      && (firstFailure.Some? ==> firstFailure.value < |outcomes| && outcomes[firstFailure.value].Failed?)
      && (firstFailure == None ==> forall i :: 0 <= i < |outcomes| ==> !outcomes[i].Failed?)
    }

    /** The function attached with `done` to the subordinate at place `i`. */
    method Update(i: nat, args: Args)
      requires Valid() && i < |outcomes| && outcomes[i] == Waiting
      modifies this
      ensures Valid()
      ensures outcomes == old(outcomes)[i := Done(args)] && firstFailure == old(firstFailure)
      ensures resolveValues == old(resolveValues)[i := Packed(args)] && progressValues == old(progressValues)
      ensures master.progress.accepted == old(master).progress.accepted
    {
      hide D.Valid, D.With, D.Result;
      UnresolvedUpdate(outcomes, i, Done(args));
      resolveValues := resolveValues[i := Packed(args)];
      outcomes := outcomes[i := Done(args)];
      remaining := remaining - 1;
      NoneUnresolved(outcomes);
      NoneUnresolved(old(outcomes));
      if remaining == 0 {
        ResolveMaster();
      }
    }

    /** `deferred.reject`, attached with `fail`. */
    method Reject(i: nat, args: Args)
      requires Valid() && i < |outcomes| && outcomes[i] == Waiting
      modifies this
      ensures Valid()
      ensures outcomes == old(outcomes)[i := Failed(args)]
      ensures firstFailure == if old(firstFailure) == None then Some(i) else old(firstFailure)
      ensures resolveValues == old(resolveValues) && progressValues == old(progressValues)
      ensures master.progress.accepted == old(master).progress.accepted
    {
      hide D.Valid, D.With, D.Result;
      UnresolvedUpdate(outcomes, i, Failed(args));
      D.WithResult(master, D.Fail, args);
      outcomes := outcomes[i := Failed(args)];
      if firstFailure == None {
        firstFailure := Some(i);
      }
      master := D.With(master, D.Fail, args);
    }

    /** `deferred.resolveWith( resolveContexts, resolveValues )`. */
    method ResolveMaster()
      requires Counted() && remaining == 0
      requires D.Result(master) == D.Open || D.Result(master) == Verdict(outcomes, firstFailure)
      modifies this`master
      ensures Valid()
      ensures master.progress.accepted == old(master).progress.accepted
    {
      hide D.Valid, D.With, D.Result;
      NoneUnresolved(outcomes);
      assert resolveValues == Values(outcomes);
      D.WithResult(master, D.Done, resolveValues);
      master := D.With(master, D.Done, resolveValues);
    }

    /** The function attached with `progress`. */
    method Progress(i: nat, args: Args)
      requires Valid() && i < |outcomes|
      modifies this`progressValues, this`master
      ensures Valid()
      ensures progressValues == old(progressValues)[i := Packed(args)]
      ensures master == D.With(old(master), D.Progress, progressValues)
      ensures master.progress.accepted == old(master).progress.accepted +
        (if D.Result(old(master)) == D.Open then [progressValues] else [])
      ensures D.Result(old(master)) != D.Open ==> master == old(master)
    {
      hide D.Valid, D.With, D.Result;
      progressValues := progressValues[i := Packed(args)];
      D.NotifyResult(master, progressValues);
      master := D.With(master, D.Progress, progressValues);
    }

    /** Whatever is done with the promise `when` returns, or in a handler of it, leaves the
        outcome of the master alone. */
    method OnMaster(side: D.Side, ids: seq<nat>)
      requires Valid()
      modifies this`master
      ensures Valid() && master == D.On(old(master), side, ids)
    {
      D.OnValid(master, side, ids);
      master := D.On(master, side, ids);
    }

    method MasterReturns()
      requires Valid()
      modifies this`master
      ensures Valid() && master == D.Return(old(master))
    {
      D.ReturnValid(master);
      master := D.Return(master);
    }

    /** The variables before the loop. */
    constructor (inputs: seq<Input>)
      ensures D.Result(master) == D.Open && Counted()
      ensures resolveValues == seq(|inputs|, i requires 0 <= i < |inputs| => Argument(inputs[i], i))
      ensures progressValues == seq(|inputs|, _ => Undefined)
      ensures outcomes == seq(|inputs|, _ => Waiting) && firstFailure == None
      ensures master == D.New()
    {
      resolveValues := seq(|inputs|, i requires 0 <= i < |inputs| => Argument(inputs[i], i));
      progressValues := seq(|inputs|, _ => Undefined);
      remaining := |inputs|;
      master := D.New();
      outcomes := seq(|inputs|, _ => Waiting);
      firstFailure := None;
      D.NewValid<Args>();
      AllWaiting(|inputs|);
    }
  }

  lemma {:induction false} AllWaiting(n: nat)
    ensures Unresolved(seq(n, _ => Waiting)) == n
  {
    if n > 0 {
      AllWaiting(n - 1);
      assert seq(n, _ => Waiting)[..n - 1] == seq(n - 1, _ => Waiting);
    }
  }

  function Begun(input: Input): Outcome {
    match input
    case Plain(v) => Done([v])
    case Promise(settled, _) => settled
  }

  function BegunAll(inputs: seq<Input>, n: nat): seq<Outcome>
    requires n <= |inputs|
  {
    seq(|inputs|, i requires 0 <= i < |inputs| => if i < n then Begun(inputs[i]) else Waiting)
  }

  /** The first of the arguments that had failed already. */
  predicate FirstFailed(inputs: seq<Input>, n: nat, first: Option<nat>)
    requires n <= |inputs|
  {
    match first
    case None => forall i :: 0 <= i < n ==> !Begun(inputs[i]).Failed?
    case Some(f) => f < n && Begun(inputs[f]).Failed? && forall i :: 0 <= i < f ==> !Begun(inputs[i]).Failed?
  }

  function Noted(input: Input): Option<Args> {
    if input.Promise? then input.noted else None
  }

  /** The values the progress handlers have set once `n` arguments have been attached to. */
  function NotedValues(inputs: seq<Input>, n: nat): Args
    requires n <= |inputs|
  {
    seq(|inputs|, i requires 0 <= i < |inputs| => if i < n && Noted(inputs[i]).Some? then Packed(Noted(inputs[i]).value) else Undefined)
  }

  /** None of the first `n` arguments had failed, and something is left to wait for. */
  predicate StillOpen(inputs: seq<Input>, n: nat)
    requires n <= |inputs|
  {
    && (forall i :: 0 <= i < n ==> !Begun(inputs[i]).Failed?)
    && (n < |inputs| || exists i :: 0 <= i < n && Begun(inputs[i]) == Waiting)
  }

  /** What the master is notified with at once, for arguments that had notified already: all
      values so far, as long as it is open. */
  function Sent(inputs: seq<Input>, n: nat): seq<Args>
    requires n <= |inputs|
  {
    if n == 0 then []
    else Sent(inputs, n - 1) + (if Noted(inputs[n - 1]).Some? && StillOpen(inputs, n) then [NotedValues(inputs, n)] else [])
  }

  /** `jQuery.when`. A single promise is returned as it is; `None` stands for that. */
  method Start(inputs: seq<Input>) returns (w: When?)
    ensures w == null <==> |inputs| == 1 && inputs[0].Promise?
    ensures w != null ==>
      && fresh(w) && w.Valid()
      && w.outcomes == BegunAll(inputs, |inputs|)
      && FirstFailed(inputs, |inputs|, w.firstFailure)
      && w.progressValues == NotedValues(inputs, |inputs|) && w.master.progress.accepted == Sent(inputs, |inputs|)
  {
    hide D.Valid, D.With, D.Result;
    if |inputs| == 1 && inputs[0].Promise? {
      return null;
    }
    w := new When(inputs);
    if |inputs| == 1 {
      Single(w, inputs[0].value);
    } else {
      AttachAll(w, inputs);
    }
    NoneUnresolved(w.outcomes);
    if w.remaining == 0 {
      w.ResolveMaster();
    }
  }

  /** A single plain argument: nothing to wait for. */
  method Single(w: When, v: Val)
    requires w.Counted() && D.Result(w.master) == D.Open && w.outcomes == [Waiting] && w.resolveValues == [v]
    requires w.firstFailure == None
    modifies w`remaining, w`outcomes
    ensures w.Counted() && w.outcomes == [Done([v])] && w.firstFailure == None && D.Result(w.master) == D.Open
  {
    hide D.Valid, D.Result;
    UnresolvedUpdate(w.outcomes, 0, Done([v]));
    w.remaining := 0;
    w.outcomes := [Done([v])];
  }

  method AttachAll(w: When, inputs: seq<Input>)
    requires w.Counted() && D.Result(w.master) == D.Open && |inputs| != 1
    requires w.resolveValues == seq(|inputs|, i requires 0 <= i < |inputs| => Argument(inputs[i], i))
    requires w.outcomes == seq(|inputs|, _ => Waiting) && w.firstFailure == None
    requires w.progressValues == NotedValues(inputs, 0) && w.master.progress.accepted == []
    modifies w
    ensures w.progressValues == NotedValues(inputs, |inputs|) && w.master.progress.accepted == Sent(inputs, |inputs|)
    ensures w.Counted() && w.outcomes == BegunAll(inputs, |inputs|) && FirstFailed(inputs, |inputs|, w.firstFailure)
    ensures w.Valid() || (D.Result(w.master) == D.Open && AllDone(w.outcomes))
  {
    hide D.Valid, D.Result;
    var i := 0;
    assert w.outcomes == BegunAll(inputs, 0);
    while i < |inputs|
      invariant 0 <= i <= |inputs|
      invariant w.Counted() && w.outcomes == BegunAll(inputs, i) && FirstFailed(inputs, i, w.firstFailure)
      invariant forall j :: i <= j < |inputs| ==> w.resolveValues[j] == Argument(inputs[j], j)
      invariant i < |inputs| ==> w.Valid()
      invariant w.progressValues == NotedValues(inputs, i) && w.master.progress.accepted == Sent(inputs, i)
      invariant w.Valid() || (D.Result(w.master) == D.Open && AllDone(w.outcomes))
    {
      Attach(w, inputs, i);
      i := i + 1;
    }
  }

  lemma OpenExactly(inputs: seq<Input>, n: nat, first: Option<nat>)
    requires n <= |inputs| && FirstFailed(inputs, n, first)
    ensures Verdict(BegunAll(inputs, n), first) == D.Open <==> StillOpen(inputs, n)
  {
    var os := BegunAll(inputs, n);
    if n < |inputs| {
      assert os[n] == Waiting;
    }
    assert forall i :: 0 <= i < n ==> os[i] == Begun(inputs[i]);
  }

  /** What one more argument adds. */
  lemma NotedMore(inputs: seq<Input>, i: nat)
    requires i < |inputs|
    ensures NotedValues(inputs, i + 1) ==
      if Noted(inputs[i]).Some? then NotedValues(inputs, i)[i := Packed(Noted(inputs[i]).value)] else NotedValues(inputs, i)
    ensures Sent(inputs, i + 1) ==
      if Noted(inputs[i]).Some? && StillOpen(inputs, i + 1) then Sent(inputs, i) + [NotedValues(inputs, i + 1)] else Sent(inputs, i)
    ensures BegunAll(inputs, i + 1) == BegunAll(inputs, i)[i := Begun(inputs[i])]
  {
    hide StillOpen, Packed;
    assert Sent(inputs, i) + [] == Sent(inputs, i);
  }

  /** One round of the loop. */
  method Attach(w: When, inputs: seq<Input>, i: nat)
    requires i < |inputs| && w.Valid() && w.outcomes == BegunAll(inputs, i) && FirstFailed(inputs, i, w.firstFailure)
    requires forall j :: i <= j < |inputs| ==> w.resolveValues[j] == Argument(inputs[j], j)
    requires w.progressValues == NotedValues(inputs, i) && w.master.progress.accepted == Sent(inputs, i)
    modifies w
    ensures w.progressValues == NotedValues(inputs, i + 1) && w.master.progress.accepted == Sent(inputs, i + 1)
    ensures w.Counted() && w.outcomes == BegunAll(inputs, i + 1) && FirstFailed(inputs, i + 1, w.firstFailure)
    ensures forall j :: i < j < |inputs| ==> w.resolveValues[j] == old(w.resolveValues)[j]
    ensures w.Valid() || (D.Result(w.master) == D.Open && AllDone(w.outcomes))
    ensures i + 1 < |inputs| ==> w.Valid()
  {
    hide D.Valid, D.With, D.Result, NotedValues, Sent, StillOpen;
    NotedMore(inputs, i);
    match inputs[i] {
      case Plain(v) =>
        UnresolvedUpdate(w.outcomes, i, Done([v]));
        w.remaining := w.remaining - 1;
        w.outcomes := w.outcomes[i := Done([v])];
      case Promise(settled, noted) =>
        AttachPromise(w, inputs, i, settled);
        OpenExactly(inputs, i + 1, w.firstFailure);
        if noted.Some? {
          w.Progress(i, noted.value);
        }
    }
  }

  /** `done` and `fail` of a promise. */
  method AttachPromise(w: When, inputs: seq<Input>, i: nat, settled: Outcome)
    requires i < |inputs| && w.Valid() && w.outcomes == BegunAll(inputs, i) && FirstFailed(inputs, i, w.firstFailure)
    requires inputs[i].Promise? && inputs[i].settled == settled
    modifies w
    ensures w.Valid() && w.progressValues == old(w.progressValues)
    ensures w.master.progress.accepted == old(w.master).progress.accepted
    ensures w.outcomes == BegunAll(inputs, i)[i := Begun(inputs[i])] && FirstFailed(inputs, i + 1, w.firstFailure)
    ensures forall j :: 0 <= j < |inputs| && j != i ==> w.resolveValues[j] == old(w.resolveValues)[j]
  {
    hide D.Valid, D.With, D.Result;
    match settled {
      case Waiting =>
      case Done(args) => w.Update(i, args);
      case Failed(args) => w.Reject(i, args);
    }
  }
}
