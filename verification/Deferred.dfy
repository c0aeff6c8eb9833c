/** `jQuery.Deferred`: three callback lists, of which the first two settle it. */
module Deferred {
  import opened Dom
  import C = Callbacks
  import T = CallbackSteps

  /** What the lists hold: the three callbacks a Deferred adds itself, and the users'. */
  datatype Fn = SetState | DisableOther | LockProgress | Handler(id: nat)

  datatype Side = Done | Fail | Progress

  datatype Status = Pending | Resolved | Rejected

  type List<D> = C.State<Fn, D>

  /** `calls` are the lists whose loops are running, innermost last; `onDone` and `onFail` are
      the users' registrations so far. */
  datatype State<D> = State(status: Status, done: List<D>, fail: List<D>, progress: List<D>, calls: seq<Side>,
                            onDone: seq<nat>, onFail: seq<nat>)

  const OWN := [SetState, DisableOther, LockProgress]
  const ONCE_MEMORY := C.Options(true, true, false, false)
  const MEMORY := C.Options(false, true, false, false)

  function New<D>(): State<D> {
    var l := C.Add(C.New(ONCE_MEMORY), OWN);
    State(Pending, l, l, C.New(MEMORY), [], [], [])
  }

  function Get<D>(s: State<D>, side: Side): List<D> {
    match side
    case Done => s.done
    case Fail => s.fail
    case Progress => s.progress
  }

  function Put<D>(s: State<D>, side: Side, l: List<D>): State<D> {
    match side
    case Done => s.(done := l)
    case Fail => s.(fail := l)
    case Progress => s.(progress := l)
  }

  function Other(side: Side): Side {
    match side
    case Done => Fail
    case Fail => Done
    case Progress => Progress
  }

  /** The callback a running list is in. */
  function Running<D>(l: List<D>): Option<Fn> {
    if l.firing && l.list.Some? && 0 <= l.firingIndex < |l.list.value| then Some(l.list.value[l.firingIndex].fn) else None
  }

  /** The bodies of the Deferred's own callbacks. */
  function Own<D>(s: State<D>, side: Side, fn: Fn): State<D> {
    match fn
    case SetState => s.(status := if side == Done then Resolved else Rejected)
    case DisableOther => Put(s, Other(side), C.Disable(Get(s, Other(side))))
    case LockProgress => s.(progress := C.Lock(s.progress))
    case Handler(_) => s
  }

  /** The list has called: its own callbacks run through, up to `n` of them, until a user's
      handler is running or the list is at rest. */
  function RunOwn<D>(s: State<D>, side: Side, n: nat): (t: State<D>)
    ensures t.calls == s.calls
    decreases n
  {
    var running := Running(Get(s, side));
    if side == Progress || running == None || running.value.Handler? || n == 0 then s
    else
      var t := Own(s, side, running.value);
      RunOwn(Put(t, side, C.Return(Get(t, side), false)), side, n - 1)
  }

  /** A list that has begun to run has been called from the innermost running one. */
  function Entered<D>(s: State<D>, t: State<D>, side: Side): State<D> {
    if !Get(s, side).firing && Get(t, side).firing then t.(calls := t.calls + [side]) else t
  }

  /** `resolveWith`, `rejectWith`, `notifyWith`. */
  function With<D>(s: State<D>, side: Side, data: D): State<D> {
    Entered(s, RunOwn(Put(s, side, C.FireWith(Get(s, side), data)), side, |OWN|), side)
  }

  function Handlers(ids: seq<nat>): seq<Fn> {
    seq(|ids|, i requires 0 <= i < |ids| => Handler(ids[i]))
  }

  /** `done`, `fail`, `progress`. */
  function On<D>(s: State<D>, side: Side, ids: seq<nat>): State<D> {
    var t := Put(s, side, C.Add(Get(s, side), Handlers(ids)));
    var u := match side
      case Done => t.(onDone := t.onDone + ids)
      case Fail => t.(onFail := t.onFail + ids)
      case Progress => t;
    Entered(s, RunOwn(u, side, |OWN|), side)
  }

  /** The innermost running handler returns. */
  function Return<D>(s: State<D>): State<D> {
    if s.calls == [] then s
    else
      var side := s.calls[|s.calls| - 1];
      var t := RunOwn(Put(s, side, C.Return(Get(s, side), false)), side, |OWN|);
      if Get(t, side).firing then t else t.(calls := t.calls[..|t.calls| - 1])
  }

  datatype Op<D> = DoWith(side: Side, data: D) | DoOn(side: Side, ids: seq<nat>) | DoReturn

  function Step<D>(s: State<D>, op: Op<D>): State<D> {
    match op
    case DoWith(side, data) => With(s, side, data)
    case DoOn(side, ids) => On(s, side, ids)
    case DoReturn => Return(s)
  }

  function Run<D>(s: State<D>, ops: seq<Op<D>>): State<D>
    decreases |ops|
  {
    if |ops| == 0 then s else Run(Step(s, ops[0]), ops[1..])
  }

  /* ----- one settling list ----- */

  type Entries = seq<C.Entry<Fn>>

  function Flat<D>(log: seq<C.Batch<Fn, D>>): Entries {
    if log == [] then [] else Flat(log[..|log| - 1]) + log[|log| - 1].calls
  }

  /** The registrations of a list to which `ids` have been added. */
  function Registered(ids: seq<nat>): (r: Entries)
    ensures |r| == |OWN| + |ids|
  {
    var fns := OWN + Handlers(ids);
    seq(|fns|, i requires 0 <= i < |fns| => C.Entry(fns[i], i))
  }

  /** Nothing has been fired: the registrations wait in the list. */
  ghost predicate Fresh<D>(l: List<D>, ids: seq<nat>) {
    && l.options == ONCE_MEMORY && l.list.Some? && l.list.value == Registered(ids) && l.added == |Registered(ids)|
    && l.memory == None && !l.fired && !l.firing && l.firingStart == 0 && l.stack == None
    && l.accepted == [] && l.log == [] && !l.faulted
  }

  /** Fired with `data`: the calls made and the ones owed are the registrations, each once, in
      order; a running loop is in the callback called last. */
  ghost predicate Fired<D>(l: List<D>, data: D, ids: seq<nat>) {
    && l.options == ONCE_MEMORY && C.Valid(l) && l.list.Some? && l.added == |Registered(ids)|
    && l.memory == Some(data) && l.fired && l.stack == None && l.accepted == [data]
    && Flat(l.log) + C.Owed(l) == Registered(ids)
    && (l.firing ==>
         && 0 <= l.firingIndex && l.log[|l.log| - 1].calls != []
         && l.list.value[l.firingIndex] == Flat(l.log)[|Flat(l.log)| - 1])
    && (!l.firing ==> l.list == Some([]))
  }

  /** Disabled before it was fired. */
  ghost predicate Dead<D>(l: List<D>) {
    l.list == None && l.memory == None && l.stack == None && !l.fired && !l.firing && l.log == [] && l.accepted == [] && !l.faulted
  }

  lemma FlatEnd<D>(log: seq<C.Batch<Fn, D>>, b: C.Batch<Fn, D>)
    ensures Flat(log + [b]) == Flat(log) + b.calls
  {
    assert (log + [b])[..|log|] == log;
  }

  /** Registrations of handlers after `n` others. */
  function Later(n: nat, more: seq<nat>): Entries {
    seq(|more|, i requires 0 <= i < |more| => C.Entry(Handler(more[i]), n + i))
  }

  lemma RegisteredMore(ids: seq<nat>, more: seq<nat>)
    ensures Registered(ids + more) ==
      Registered(ids) + Later(|Registered(ids)|, more)
  {
  }

  /** Registrations made before the list is fired wait. */
  lemma FreshAdd<D>(l: List<D>, ids: seq<nat>, more: seq<nat>)
    requires Fresh(l, ids)
    ensures Fresh(C.Add(l, Handlers(more)), ids + more)
  {
    T.PushAll(l, Handlers(more));
    PushRest(l, Handlers(more));
    RegisteredMore(ids, more);
  }

  lemma {:induction false} PushRest<D>(l: List<D>, fns: seq<Fn>)
    requires l.list.Some? && !l.options.unique
    ensures C.Push(l, fns) == l.(list := C.Push(l, fns).list, added := l.added + |fns|)
    decreases |fns|
  {
    if fns != [] {
      PushRest(l.(list := Some(l.list.value + [C.Entry(fns[0], l.added)]), added := l.added + 1), fns[1..]);
    }
  }

  lemma FreshValid<D>(l: List<D>, ids: seq<nat>)
    requires Fresh(l, ids)
    ensures C.Valid(l)
  {
  }

  /** Firing calls the first registration. */
  lemma FreshFire<D>(l: List<D>, ids: seq<nat>, data: D)
    requires Fresh(l, ids)
    ensures var t := C.FireWith(l, data); Fired(t, data, ids) && t.firing && |Flat(t.log)| == 1
  {
    FreshValid(l, ids);
    C.FireWithValid(l, data);
    var m := l.(accepted := l.accepted + [data]);
    T.FireBegins(m, data, false, 0);
    var b := C.Batch(data, false, 0, [Registered(ids)[0]], None);
    assert l.log + [b] == [] + [b];
    FlatEnd(l.log, b);
  }

  /** Registrations made while the list runs are owed, those made later are called at once. */
  lemma FiredAdd<D>(l: List<D>, data: D, ids: seq<nat>, more: seq<nat>)
    requires Fired(l, data, ids)
    ensures var t := C.Add(l, Handlers(more));
      && Fired(t, data, ids + more)
      && |Flat(t.log)| >= |Flat(l.log)| && (l.firing ==> t.firing)
      && (!l.firing && t.firing ==> |Flat(t.log)| > |Registered(ids)|)
  {
    if l.firing {
      AddRunning(l, data, ids, more);
    } else if more != [] {
      AddRest(l, data, ids, more);
    } else {
      C.AddValid(l, []);
      AddNone(l, data);
      assert Handlers(more) == [] && ids + more == ids;
    }
  }

  lemma AddRunning<D>(l: List<D>, data: D, ids: seq<nat>, more: seq<nat>)
    requires Fired(l, data, ids) && l.firing
    ensures var t := C.Add(l, Handlers(more)); Fired(t, data, ids + more) && t.log == l.log && t.firing
  {
    hide C.Valid, C.Owed, C.Push, C.Add;
    C.AddValid(l, Handlers(more));
    AddRunningOwed(l, data, ids, more);
    IndexInList(l);
    assert C.Add(l, Handlers(more)).added == |Registered(ids + more)| by {
      RegisteredMore(ids, more);
    }
  }

  lemma IndexInList<D>(l: List<D>)
    requires C.Valid(l) && l.firing && l.list.Some?
    ensures l.firingIndex < |l.list.value|
  {
  }

  lemma AddRunningOwed<D>(l: List<D>, data: D, ids: seq<nat>, more: seq<nat>)
    requires Fired(l, data, ids) && l.firing
    ensures var t := C.Add(l, Handlers(more));
      && t == l.(list := t.list, added := l.added + |more|, firingLength := t.firingLength)
      && t.list.Some? && |t.list.value| >= |l.list.value| && t.list.value[..|l.list.value|] == l.list.value
      && Flat(t.log) + C.Owed(t) == Registered(ids + more)
  {
    hide C.Valid, C.Owed, C.Push, Flat, Registered, Later, Handlers;
    var fns, es := Handlers(more), Later(|Registered(ids)|, more);
    PushLater(l, ids, more);
    RegisteredMore(ids, more);
    T.OwedAdd(l, fns);
    assert C.Push(l, fns).list.value[|l.list.value|..] == es;
    Joined(Flat(l.log), C.Owed(l), es);
  }

  lemma Joined(called: Entries, owed: Entries, more: Entries)
    ensures called + (owed + more) == called + owed + more
  {
  }

  lemma PushLater<D>(l: List<D>, ids: seq<nat>, more: seq<nat>)
    requires l.list.Some? && !l.options.unique && l.added == |Registered(ids)|
    ensures var t := C.Push(l, Handlers(more));
      && t == l.(list := t.list, added := l.added + |more|)
      && t.list.value == l.list.value + Later(|Registered(ids)|, more)
  {
    T.PushAll(l, Handlers(more));
    PushRest(l, Handlers(more));
  }

  lemma AddRest<D>(l: List<D>, data: D, ids: seq<nat>, more: seq<nat>)
    requires Fired(l, data, ids) && !l.firing && more != []
    ensures var t := C.Add(l, Handlers(more));
      Fired(t, data, ids + more) && t.firing && |Flat(t.log)| == |Registered(ids)| + 1
  {
    C.AddValid(l, Handlers(more));
    AddRestCalls(l, data, ids, more);
  }

  lemma AddRestCalls<D>(l: List<D>, data: D, ids: seq<nat>, more: seq<nat>)
    requires Fired(l, data, ids) && !l.firing && more != []
    ensures var t, es := C.Add(l, Handlers(more)), Later(|Registered(ids)|, more);
      && Flat(t.log) == Registered(ids) + [es[0]] && C.Owed(t) == es[1..]
      && Flat(t.log) + C.Owed(t) == Registered(ids + more)
      && t == l.(list := t.list, added := l.added + |more|, firingIndex := 0, firingLength := |more|, firing := true, log := t.log)
      && t.log != [] && t.log[|t.log| - 1].calls == [es[0]] && t.list.Some? && t.list.value == es
  {
    var fns, es := Handlers(more), Later(|Registered(ids)|, more);
    T.PushAll(l, fns);
    PushRest(l, fns);
    RegisteredMore(ids, more);
    T.AddRemembered(l, fns);
    var t := C.Add(l, fns);
    assert C.Push(l, fns).list.value == es;
    FlatEnd(l.log, C.Batch(data, true, l.added, [es[0]], None));
    assert C.Owed(t) == es[1..];
    MovesOver(Registered(ids), es, Flat(t.log), C.Owed(t));
  }

  /** Adding no function to a list at rest runs an empty batch. */
  lemma AddNone<D>(l: List<D>, data: D)
    requires l.list == Some([]) && !l.firing && l.firingStart == 0
    requires l.memory == Some(data) && l.stack == None && l.options == ONCE_MEMORY
    ensures var t, b := C.Add(l, []), C.Batch(data, true, l.added, [], Some([]));
      && t == l.(fired := true, firingIndex := 0, firingLength := 0, log := l.log + [b])
      && Flat(t.log) == Flat(l.log)
  {
    var b := C.Batch(data, true, l.added, [], Some([]));
    var u := C.Begin(l, data, true, l.added);
    assert C.Push(l, []) == l && l.(firingStart := 0) == l;
    assert C.Add(l, []) == C.Fire(l, data, true, l.added) == C.Loop(u);
    var log := u.log[|l.log| := u.log[|l.log|].(left := Some([]))];
    assert log == l.log + [b];
    assert C.Loop(u) == C.Finish(u.(log := log));
    FlatEnd(l.log, b);
  }

  /** A callback returns: the next one owed is called, or the list comes to rest. */
  lemma FiredReturn<D>(l: List<D>, data: D, ids: seq<nat>)
    requires Fired(l, data, ids) && l.firing
    ensures var t := C.Return(l, false);
      && Fired(t, data, ids)
      && (t.firing <==> |Flat(l.log)| < |Registered(ids)|)
      && |Flat(t.log)| == |Flat(l.log)| + (if t.firing then 1 else 0)
  {
    if C.Owed(l) == [] {
      ReturnLast(l, data, ids);
    } else {
      ReturnMore(l, data, ids);
    }
  }

  lemma ReturnMore<D>(l: List<D>, data: D, ids: seq<nat>)
    requires Fired(l, data, ids) && l.firing && C.Owed(l) != []
    ensures var t := C.Return(l, false);
      && Fired(t, data, ids) && t.firing
      && |Flat(l.log)| < |Registered(ids)| && |Flat(t.log)| == |Flat(l.log)| + 1
  {
    hide C.Valid;
    var n, e := |l.log| - 1, C.Owed(l)[0];
    C.ReturnValid(l, false);
    var b := l.log[n].(calls := l.log[n].calls + [e]);
    var t := l.(firingIndex := l.firingIndex + 1, log := l.log[n := b]);
    T.ReturnCalls(l, false);
    FlatLast(l.log, b);
    MovesOver(Flat(l.log), C.Owed(l), Flat(t.log), C.Owed(t));
  }

  lemma MovesOver(called: Entries, owed: Entries, called': Entries, owed': Entries)
    requires owed != [] && called' == called + [owed[0]] && owed' == owed[1..]
    ensures called' + owed' == called + owed
  {
  }

  /** Changing the last batch changes the end of the calls. */
  lemma FlatLast<D>(log: seq<C.Batch<Fn, D>>, b: C.Batch<Fn, D>)
    requires log != []
    ensures var n := |log| - 1;
      Flat(log) == Flat(log[..n]) + log[n].calls && Flat(log[n := b]) == Flat(log[..n]) + b.calls
  {
    var n := |log| - 1;
    FlatEnd(log[..n], log[n]);
    FlatEnd(log[..n], b);
    assert log == log[..n] + [log[n]] && log[n := b] == log[..n] + [b];
  }

  lemma ReturnLast<D>(l: List<D>, data: D, ids: seq<nat>)
    requires Fired(l, data, ids) && l.firing && C.Owed(l) == []
    ensures var t := C.Return(l, false);
      && Fired(t, data, ids) && !t.firing
      && Flat(l.log) == Registered(ids) && Flat(t.log) == Flat(l.log)
  {
    var n := |l.log| - 1;
    C.ReturnValid(l, false);
    RestAfter(l);
    var b := l.log[n].(left := Some(C.From(l.list.value, l.log[n].from)));
    FlatLast(l.log, b);
  }

  /** The once list empties itself when its loop ends. */
  lemma RestAfter<D>(l: List<D>)
    requires C.Valid(l) && l.firing && l.list.Some? && l.memory.Some? && l.stack == None && C.Owed(l) == []
    ensures var n := |l.log| - 1;
      C.Return(l, false) == l.(firingIndex := l.firingIndex + 1, firing := false, list := Some([]),
                               log := l.log[n := l.log[n].(left := Some(C.From(l.list.value, l.log[n].from)))])
  {
    var n := |l.log| - 1;
    var u := l.(firingIndex := l.firingIndex + 1);
    var v := u.(log := l.log[n := l.log[n].(left := Some(C.From(l.list.value, l.log[n].from)))]);
    assert C.Loop(u) == C.Finish(v);
  }

  /* ----- the Deferred ----- */

  datatype Outcome<D> = Open | Closed(status: Status, data: D)

  function Result<D>(s: State<D>): Outcome<D> {
    match s.status
    case Pending => Open
    case Resolved => if s.done.memory.Some? then Closed(Resolved, s.done.memory.value) else Open
    case Rejected => if s.fail.memory.Some? then Closed(Rejected, s.fail.memory.value) else Open
  }

  /** The Deferred's own callbacks are over. */
  ghost predicate Settled<D>(l: List<D>, data: D, ids: seq<nat>) {
    Fired(l, data, ids) && (l.firing ==> |Flat(l.log)| > |OWN|)
  }

  ghost predicate Locked<D>(l: List<D>) {
    l.stack == None && (l.fired || l.list == None)
  }

  /** What the three lists are in each state. */
  ghost predicate Lists<D>(s: State<D>) {
    && C.Valid(s.progress)
    && match s.status
       case Pending =>
         && Fresh(s.done, s.onDone) && Fresh(s.fail, s.onFail)
         && s.progress.list.Some? && s.progress.stack.Some?
       case Resolved =>
         s.done.memory.Some? && Settled(s.done, s.done.memory.value, s.onDone) && Dead(s.fail) && Locked(s.progress)
       case Rejected =>
         s.fail.memory.Some? && Settled(s.fail, s.fail.memory.value, s.onFail) && Dead(s.done) && Locked(s.progress)
  }

  /** The running lists are called from one another in some order. */
  ghost predicate Stack<D>(s: State<D>) {
    && (forall side :: side in s.calls <==> Get(s, side).firing)
    && (forall i, j :: 0 <= i < j < |s.calls| ==> s.calls[i] != s.calls[j])
  }

  ghost predicate Valid<D>(s: State<D>) {
    Lists(s) && Stack(s)
  }

  /** Only `side` may have begun to run. */
  lemma EnteredStack<D>(s: State<D>, t: State<D>, side: Side)
    requires Stack(s) && t.calls == s.calls
    requires forall other :: other != side ==> Get(t, other).firing == Get(s, other).firing
    requires Get(s, side).firing ==> Get(t, side).firing
    ensures Stack(Entered(s, t, side))
  {
    var u := Entered(s, t, side);
    forall other ensures other in u.calls <==> Get(u, other).firing {
      assert Get(u, other) == Get(t, other);
      assert u.calls == s.calls || u.calls == s.calls + [side];
    }
  }

  /** The innermost list has come to rest. */
  lemma LeftStack<D>(s: State<D>, t: State<D>, side: Side)
    requires Stack(s) && s.calls != [] && side == s.calls[|s.calls| - 1] && t.calls == s.calls[..|s.calls| - 1]
    requires forall other :: other != side ==> Get(t, other).firing == Get(s, other).firing
    requires !Get(t, side).firing
    ensures Stack(t)
  {
    assert s.calls == t.calls + [side];
  }

  lemma {:induction false} Quiet<D>(s: State<D>, side: Side, data: D, ids: seq<nat>, n: nat)
    requires Settled(Get(s, side), data, ids)
    ensures RunOwn(s, side, n) == s
  {
    if Get(s, side).firing {
      RunningIs(Get(s, side), data, ids);
    }
  }

  lemma NewFresh<D>()
    ensures Fresh(C.Add(C.New<Fn, D>(ONCE_MEMORY), OWN), [])
  {
    var l := C.New<Fn, D>(ONCE_MEMORY);
    T.PushAll(l, OWN);
    PushRest(l, OWN);
    assert C.Add(l, OWN).list.value == Registered([]);
  }

  lemma NewValid<D>()
    ensures Valid(New<D>())
  {
    NewFresh<D>();
    C.NewValid<Fn, D>(MEMORY);
    hide C.Add, C.Valid, Registered;
  }

  /** A running list is in the registration that is as far along as the calls made. */
  lemma RunningIs<D>(l: List<D>, data: D, ids: seq<nat>)
    requires Fired(l, data, ids) && l.firing
    ensures 0 < |Flat(l.log)| <= |Registered(ids)|
    ensures Running(l) == Some(Registered(ids)[|Flat(l.log)| - 1].fn)
    ensures |Flat(l.log)| > |OWN| ==> Running(l).value.Handler?
  {
    FlatLast(l.log, l.log[|l.log| - 1]);
    var k := |Flat(l.log)| - 1;
    assert (Flat(l.log) + C.Owed(l))[k] == Flat(l.log)[k];
  }

  /** One of the Deferred's own callbacks runs and returns. */
  lemma OwnStep<D>(s: State<D>, side: Side, n: nat, fn: Fn)
    requires side != Progress && n > 0 && Running(Get(s, side)) == Some(fn) && !fn.Handler?
    ensures RunOwn(s, side, n) == RunOwn(Put(Own(s, side, fn), side, C.Return(Get(s, side), false)), side, n - 1)
  {
    hide C.Return, C.Lock;
    assert Get(Own(s, side, fn), side) == Get(s, side);
  }

  /** While no more callbacks have been called than the Deferred's own, one of those is running. */
  lemma OwnRunning<D>(l: List<D>, data: D, ids: seq<nat>)
    requires Fired(l, data, ids) && l.firing && |Flat(l.log)| <= |OWN|
    ensures var k, m := |Flat(l.log)|, C.Return(l, false);
      && k > 0 && Running(l) == Some(OWN[k - 1])
      && Fired(m, data, ids) && m.memory == Some(data) && (m.firing <==> k < |Registered(ids)|)
      && (m.firing ==> |Flat(m.log)| == k + 1)
  {
    hide C.Valid, C.Return;
    RunningIs(l, data, ids);
    FiredReturn(l, data, ids);
    FiredFacts(C.Return(l, false), data, ids);
  }

  lemma OwnNone<D>(s: State<D>, side: Side, n: nat)
    requires n == 0 || side == Progress
    ensures RunOwn(s, side, n) == s
  {
  }

  /** The three of them run to their end before anything else happens. */
  lemma OwnRun<D>(s: State<D>, side: Side, data: D, ids: seq<nat>) returns (l: List<D>)
    requires side != Progress && Fresh(Get(s, side), ids)
    ensures Settled(l, data, ids) && l.memory == Some(data)
    ensures RunOwn(Put(s, side, C.FireWith(Get(s, side), data)), side, |OWN|) ==
            Put(OwnThree(s, side), side, l)
  {
    hide Fired, C.FireWith, C.Return, RunOwn, Flat, Registered, Running, C.Lock;
    FreshFire(Get(s, side), ids, data);
    var s1 := Put(s, side, C.FireWith(Get(s, side), data));
    OwnRunning(Get(s1, side), data, ids);
    OwnStep(s1, side, 3, SetState);
    var s2 := Put(Own(s1, side, SetState), side, C.Return(Get(s1, side), false));
    OwnRunning(Get(s2, side), data, ids);
    OwnStep(s2, side, 2, DisableOther);
    var s3 := Put(Own(s2, side, DisableOther), side, C.Return(Get(s2, side), false));
    OwnRunning(Get(s3, side), data, ids);
    OwnStep(s3, side, 1, LockProgress);
    l := C.Return(Get(s3, side), false);
    OwnNone(Put(Own(s3, side, LockProgress), side, l), side, 0);
    Commute(s, side, Get(s1, side), Get(s2, side), Get(s3, side), l);
  }

  lemma Commute<D>(s: State<D>, side: Side, l1: List<D>, l2: List<D>, l3: List<D>, l4: List<D>)
    requires side != Progress
    ensures Put(Own(Put(Own(Put(Own(Put(s, side, l1), side, SetState), side, l2), side, DisableOther), side, l3), side, LockProgress), side, l4)
      == Put(OwnThree(s, side), side, l4)
  {
  }

  /** Resolving or rejecting a pending Deferred settles it with that data. */
  lemma SettleValid<D>(s: State<D>, side: Side, data: D)
    requires Valid(s) && s.status == Pending && side != Progress
    ensures var t := With(s, side, data);
      && Valid(t) && t.status == (if side == Done then Resolved else Rejected)
      && Get(t, side).memory == Some(data)
      && t.progress == C.Lock(s.progress) && t.progress.accepted == s.progress.accepted
      && t.onDone == s.onDone && t.onFail == s.onFail
  {
    hide Fired, Fresh, C.FireWith, C.Valid, RunOwn, Flat, Registered;
    var ids := if side == Done then s.onDone else s.onFail;
    var l := OwnRun(s, side, data, ids);
    var t := Put(OwnThree(s, side), side, l);
    ThreeLists(s, side, data, ids, l);
    hide Lists, Settled;
    EnteredStack(s, t, side);
  }

  function OwnThree<D>(s: State<D>, side: Side): State<D> {
    Own(Own(Own(s, side, SetState), side, DisableOther), side, LockProgress)
  }

  lemma ThreeLists<D>(s: State<D>, side: Side, data: D, ids: seq<nat>, l: List<D>)
    requires Lists(s) && s.status == Pending && side != Progress && ids == (if side == Done then s.onDone else s.onFail)
    requires Settled(l, data, ids) && l.memory == Some(data)
    ensures var t := Put(OwnThree(s, side), side, l);
      && Lists(t) && t.status == (if side == Done then Resolved else Rejected)
      && Get(t, side) == l && t.progress == C.Lock(s.progress)
      && t.progress.accepted == s.progress.accepted && t.progress.firing == s.progress.firing
      && !Get(t, Other(side)).firing && !Get(s, side).firing && !Get(s, Other(side)).firing
      && t.calls == s.calls && t.onDone == s.onDone && t.onFail == s.onFail
  {
    C.LockValid(s.progress);
    assert s.progress.memory.Some? ==> s.progress.fired;
    hide Fired, C.Valid, Registered;
    var t := Put(OwnThree(s, side), side, l);
    assert t.progress == C.Lock(s.progress);
    assert Dead(Get(t, Other(side)));
  }

  /** A list that has settled, or is dead, takes no more data. */
  lemma WithSettled<D>(s: State<D>, side: Side, data: D)
    requires Valid(s) && s.status != Pending
    ensures With(s, side, data) == s
  {
    if Get(s, side).firing && side != Progress {
      var ids := if side == Done then s.onDone else s.onFail;
      RunningIs(Get(s, side), Get(s, side).memory.value, ids);
    }
  }

  lemma NotifyValid<D>(s: State<D>, data: D)
    requires Valid(s) && s.status == Pending
    ensures var t := With(s, Progress, data);
      && Valid(t) && t.status == Pending && t.onDone == s.onDone && t.onFail == s.onFail
      && t.progress.accepted == s.progress.accepted + [data]
  {
    C.FireWithValid(s.progress, data);
    T.FireShape(s.progress.(accepted := s.progress.accepted + [data]), data, false, 0);
    EnteredStack(s, s.(progress := C.FireWith(s.progress, data)), Progress);
  }

  lemma OnValid<D>(s: State<D>, side: Side, ids: seq<nat>)
    requires Valid(s)
    ensures var t := On(s, side, ids);
      && Valid(t) && t.status == s.status && t.progress.accepted == s.progress.accepted
      && Result(t) == Result(s)
      && t.onDone == s.onDone + (if side == Done then ids else [])
      && t.onFail == s.onFail + (if side == Fail then ids else [])
  {
    hide C.Valid, Fired, C.Add, RunOwn, Fresh;
    assert s.onDone + [] == s.onDone && s.onFail + [] == s.onFail;
    if side == Progress {
      ProgressAdd(s.progress, Handlers(ids));
      var t := s.(progress := C.Add(s.progress, Handlers(ids)));
      OwnNone(t, side, |OWN|);
      EnteredStack(s, t, side);
    } else {
      var m := OnSettling(s, side, ids);
      var t := if side == Done then s.(done := m, onDone := s.onDone + ids) else s.(fail := m, onFail := s.onFail + ids);
      assert On(s, side, ids) == Entered(s, t, side);
      EnteredStack(s, t, side);
    }
  }

  /** Adding to one of the two settling lists. */
  lemma OnSettling<D>(s: State<D>, side: Side, ids: seq<nat>) returns (m: List<D>)
    requires Valid(s) && side != Progress
    ensures m == C.Add(Get(s, side), Handlers(ids))
    ensures var t := if side == Done then s.(done := m, onDone := s.onDone + ids) else s.(fail := m, onFail := s.onFail + ids);
      Lists(t) && RunOwn(t, side, |OWN|) == t && Result(t) == Result(s)
    ensures Get(s, side).firing ==> m.firing
  {
    var l, before := Get(s, side), if side == Done then s.onDone else s.onFail;
    m := C.Add(l, Handlers(ids));
    if s.status == Pending {
      FreshAdd(l, before, ids);
    } else if l.memory.Some? {
      FiredAdd(l, l.memory.value, before, ids);
      var t := if side == Done then s.(done := m, onDone := s.onDone + ids) else s.(fail := m, onFail := s.onFail + ids);
      Quiet(t, side, l.memory.value, before + ids, |OWN|);
    }
  }

  lemma ProgressAdd<D>(l: List<D>, fns: seq<Fn>)
    requires C.Valid(l)
    ensures var m := C.Add(l, fns);
      && C.Valid(m) && m.accepted == l.accepted && (l.firing ==> m.firing)
      && (l.list.Some? && l.stack.Some? ==> m.list.Some? && m.stack.Some?)
      && (Locked(l) ==> Locked(m))
  {
    C.AddValid(l, fns);
    if l.list.Some? {
      C.PushValid(l, fns);
      if !l.firing && l.memory.Some? {
        T.FireShape(C.Push(l, fns).(firingStart := |l.list.value|), l.memory.value, true, l.added);
      }
    }
  }

  lemma CallsApart<D>(s: State<D>, calls: seq<Side>)
    ensures Lists(s.(calls := calls)) == Lists(s) && Result(s.(calls := calls)) == Result(s)
  {
    hide C.Valid, Settled, Fresh;
  }

  lemma ReturnLists<D>(s: State<D>, side: Side)
    requires Lists(s) && Get(s, side).firing
    ensures var t := Put(s, side, C.Return(Get(s, side), false));
      && Lists(t) && RunOwn(t, side, |OWN|) == t && Result(t) == Result(s)
      && t.progress.accepted == s.progress.accepted
  {
    var l := Get(s, side);
    if side == Progress {
      ReturnProgress(s.progress);
      hide C.Valid, C.Return, Settled, Fresh;
      OwnNone(s.(progress := C.Return(l, false)), side, |OWN|);
    } else {
      var ids := if side == Done then s.onDone else s.onFail;
      hide C.Valid, C.Return, RunOwn;
      FiredReturn(l, l.memory.value, ids);
      FiredFacts(C.Return(l, false), l.memory.value, ids);
      hide Fired, Flat;
      Quiet(Put(s, side, C.Return(l, false)), side, l.memory.value, ids, |OWN|);
    }
  }

  lemma FiredFacts<D>(l: List<D>, data: D, ids: seq<nat>)
    requires Fired(l, data, ids)
    ensures l.memory == Some(data)
  {
  }

  lemma ReturnProgress<D>(l: List<D>)
    requires C.Valid(l) && l.firing
    ensures var m := C.Return(l, false);
      C.Valid(m) && T.SameShape(l, m)
  {
    C.ReturnValid(l, false);
    T.LoopShape(l.(firingIndex := l.firingIndex + 1));
  }

  lemma ReturnValid<D>(s: State<D>)
    requires Valid(s)
    ensures var t := Return(s);
      Valid(t) && t.status == s.status && t.progress.accepted == s.progress.accepted && Result(t) == Result(s)
      && t.onDone == s.onDone && t.onFail == s.onFail
  {
    hide Lists, C.Return, RunOwn, Result;
    if s.calls != [] {
      var side := s.calls[|s.calls| - 1];
      var l := Get(s, side);
      var m := C.Return(l, false);
      var t := Put(s, side, m);
      ReturnLists(s, side);
      if m.firing {
        EnteredStack(s, t, side);
      } else {
        CallsApart(t, s.calls[..|s.calls| - 1]);
        LeftStack(s, t.(calls := s.calls[..|s.calls| - 1]), side);
      }
    }
  }

  /** The first data a settling side gets decides; all later data is ignored. */
  lemma WithResult<D>(s: State<D>, side: Side, data: D)
    requires Valid(s) && side != Progress
    ensures Valid(With(s, side, data))
    ensures Result(s) == Open ==> Result(With(s, side, data)) == Closed(if side == Done then Resolved else Rejected, data)
    ensures Result(s) != Open ==> With(s, side, data) == s
    ensures With(s, side, data).progress.accepted == s.progress.accepted
  {
    if s.status == Pending {
      SettleValid(s, side, data);
    } else {
      WithSettled(s, side, data);
    }
  }

  lemma NotifyResult<D>(s: State<D>, data: D)
    requires Valid(s)
    ensures Valid(With(s, Progress, data)) && Result(With(s, Progress, data)) == Result(s)
    ensures Result(s) == Open ==> With(s, Progress, data).progress.accepted == s.progress.accepted + [data]
    ensures Result(s) != Open ==> With(s, Progress, data) == s
  {
    if s.status == Pending {
      NotifyValid(s, data);
    } else {
      WithSettled(s, Progress, data);
    }
  }

  lemma StepValid<D>(s: State<D>, op: Op<D>)
    requires Valid(s)
    ensures var t := Step(s, op);
      && Valid(t)
      && t.onDone == s.onDone + Added([op], Done) && t.onFail == s.onFail + Added([op], Fail)
      && (s.status != Pending ==>
           t.status == s.status && Result(t) == Result(s) && t.progress.accepted == s.progress.accepted)
  {
    hide Valid, With, On, Return, Result;
    assert Added([op], Done) == (if op == DoOn(Done, Ids(op)) then Ids(op) else []) + Added([op][1..], Done);
    assert Added([op], Fail) == (if op == DoOn(Fail, Ids(op)) then Ids(op) else []) + Added([op][1..], Fail);
    match op
    case DoWith(side, data) =>
      if s.status != Pending {
        WithSettled(s, side, data);
      } else if side == Progress {
        NotifyValid(s, data);
      } else {
        SettleValid(s, side, data);
      }
    case DoOn(side, ids) => OnValid(s, side, ids);
    case DoReturn => ReturnValid(s);
  }

  function Ids<D>(op: Op<D>): seq<nat> {
    if op.DoOn? then op.ids else []
  }

  /** The handlers registered on one side in a run. */
  function Added<D>(ops: seq<Op<D>>, side: Side): seq<nat>
    decreases |ops|
  {
    if |ops| == 0 then []
    else (if ops[0].DoOn? && ops[0].side == side then ops[0].ids else []) + Added(ops[1..], side)
  }

  lemma {:induction false} RunValid<D>(s: State<D>, ops: seq<Op<D>>)
    requires Valid(s)
    ensures var t := Run(s, ops);
      && Valid(t)
      && t.onDone == s.onDone + Added(ops, Done) && t.onFail == s.onFail + Added(ops, Fail)
      && (s.status != Pending ==>
           t.status == s.status && Result(t) == Result(s) && t.progress.accepted == s.progress.accepted)
    decreases |ops|
  {
    hide Valid, Step, Result;
    if ops != [] {
      StepValid(s, ops[0]);
      RunValid(Step(s, ops[0]), ops[1..]);
    }
  }

  /** A finished callback list of the winning side. */
  ghost predicate Delivered<D>(l: List<D>, data: D, ids: seq<nat>) {
    && Flat(l.log) + C.Owed(l) == Registered(ids)
    && (!l.firing ==> Flat(l.log) == Registered(ids))
    && forall i :: 0 <= i < |l.log| ==> l.log[i].data == data
  }

  lemma FiredDelivers<D>(l: List<D>, data: D, ids: seq<nat>)
    requires Fired(l, data, ids)
    ensures Delivered(l, data, ids)
  {
    forall i | 0 <= i < |l.log| ensures l.log[i].data == data {
      C.DataAccepted(l.log, i);
    }
    if !l.firing {
      assert C.Owed(l) == [];
      assert Flat(l.log) + [] == Flat(l.log);
    }
  }

  /** In every run, whatever its handlers do: while the Deferred is pending no settling handler
      has run; once resolved, the handlers registered with `done` before, during or after are
      each called once, in order, with the resolving data, and no `fail` handler ever was or
      will be; and the same with the sides exchanged. */
  lemma EveryRun<D>(ops: seq<Op<D>>)
    ensures var s := Run(New(), ops);
      match s.status
      case Pending => s.done.log == [] && s.fail.log == []
      case Resolved => s.fail.log == [] && s.done.memory.Some? && Delivered(s.done, s.done.memory.value, Added(ops, Done))
      case Rejected => s.done.log == [] && s.fail.memory.Some? && Delivered(s.fail, s.fail.memory.value, Added(ops, Fail))
  {
    var s := Run(New(), ops);
    NewValid<D>();
    RunValid(New(), ops);
    assert s.onDone == [] + Added(ops, Done) == Added(ops, Done);
    assert s.onFail == [] + Added(ops, Fail) == Added(ops, Fail);
    match s.status
    case Pending =>
    case Resolved => FiredDelivers(s.done, s.done.memory.value, s.onDone);
    case Rejected => FiredDelivers(s.fail, s.fail.memory.value, s.onFail);
  }

  /** Once a run has settled it stays so with the same data, and the notifications ever
      delivered are, one for one and in order, among those accepted before it settled. */
  lemma SettledForever<D>(before: seq<Op<D>>, after: seq<Op<D>>)
    requires Run(New(), before).status != Pending
    ensures var s, t := Run(New(), before), Run(Run(New(), before), after);
      && t.status == s.status && Result(t) == Result(s) && Result(s).Closed?
      && C.Started(t.progress.log) <= s.progress.accepted
      && forall i :: 0 <= i < |t.progress.log| ==> t.progress.log[i].data in s.progress.accepted
  {
    var s := Run(New(), before);
    NewValid<D>();
    RunValid(New(), before);
    RunValid(s, after);
    var l := Run(s, after).progress;
    forall i | 0 <= i < |l.log| ensures l.log[i].data in l.accepted {
      C.DataAccepted(l.log, i);
    }
  }
}
