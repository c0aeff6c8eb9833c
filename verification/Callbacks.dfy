/** `jQuery.Callbacks`: a list of callbacks that may be changed, fired, locked or disabled
    from inside the callbacks it is running. A callback's body is a sequence of such
    operations, so the firing loop is told as steps: each ends where a callback is called
    or the list comes to rest, and `Return` goes on after the callback. */
module Callbacks {
  import opened Dom

  datatype Options = Options(once: bool, memory: bool, unique: bool, stopOnFalse: bool)

  /** A registration: the function, and how many registrations came before it. */
  datatype Entry<F> = Entry(fn: F, ticket: nat)

  /** One run of the firing loop. `again` marks the runs `add` starts with the remembered
      data, which call only entries with tickets from `from` on. When the loop ends with the
      list neither disabled nor stopped, `left` is what it then held from `from` on. */
  datatype Batch<F, D> = Batch(data: D, again: bool, from: nat, calls: seq<Entry<F>>, left: Option<seq<Entry<F>>>)

  /** The closure's variables, in the source's names, and three histories: the number of
      registrations, the data of the accepted `fireWith` calls, and the batches. `faulted`
      once the loop has called what is past the end of the list: the exception leaves `fire`
      and no callback is running any more. */
  datatype State<F, D> = State(
    options: Options,
    memory: Option<D>,
    fired: bool,
    firing: bool,
    firingStart: nat,
    firingLength: int,
    firingIndex: int,
    list: Option<seq<Entry<F>>>,
    stack: Option<seq<D>>,
    added: nat,
    accepted: seq<D>,
    log: seq<Batch<F, D>>,
    faulted: bool)

  function New<F, D>(options: Options): State<F, D> {
    State(options, None, false, false, 0, 0, 0, Some([]), if options.once then None else Some([]), 0, [], [], false)
  }

  /* ----- the operations ----- */

  function Fns<F>(es: seq<Entry<F>>): seq<F> {
    seq(|es|, i requires 0 <= i < |es| => es[i].fn)
  }

  predicate Has<F(==), D>(s: State<F, D>, fn: F) {
    s.list.Some? && exists i :: 0 <= i < |s.list.value| && s.list.value[i].fn == fn
  }

  function Push<F(==), D>(s: State<F, D>, fns: seq<F>): (t: State<F, D>)
    requires s.list.Some?
    ensures t.list.Some? && |t.list.value| >= |s.list.value|
    decreases |fns|
  {
    if fns == [] then s
    else if s.options.unique && Has(s, fns[0]) then Push(s, fns[1..])
    else Push(s.(list := Some(s.list.value + [Entry(fns[0], s.added)]), added := s.added + 1), fns[1..])
  }

  function Add<F(==), D>(s: State<F, D>, fns: seq<F>): State<F, D> {
    if s.list == None then s
    else
      var start, t := |s.list.value|, Push(s, fns);
      if t.firing then t.(firingLength := |t.list.value|)
      else if t.memory.Some? then Fire(t.(firingStart := start), t.memory.value, true, s.added)
      else t
  }

  function Waiting<F, D>(s: State<F, D>): nat {
    if s.stack.Some? then |s.stack.value| else 0
  }

  /** What `fire(data)` does before its loop. */
  function Begin<F, D>(s: State<F, D>, data: D, again: bool, from: nat): State<F, D> {
    s.(memory := if s.options.memory then Some(data) else None,
       fired := true,
       firingIndex := s.firingStart,
       firingStart := 0,
       firingLength := if s.list.Some? then |s.list.value| else 0,
       firing := true,
       log := s.log + [Batch(data, again, from, [], None)])
  }

  /** `fire(data)`, up to its first callback or its end. */
  function Fire<F, D>(s: State<F, D>, data: D, again: bool, from: nat): State<F, D>
    decreases Waiting(s), 2
  {
    Loop(Begin(s, data, again, from))
  }

  /** The loop goes on to call a place the list does not have. */
  predicate PastEnd<F, D>(s: State<F, D>) {
    s.list.Some? && s.firingIndex < s.firingLength && !(0 <= s.firingIndex < |s.list.value|)
  }

  /** The loop's condition: call the next callback, or leave the loop. */
  function Loop<F, D>(s: State<F, D>): State<F, D>
    decreases Waiting(s), 1
  {
    if PastEnd(s) then s.(faulted := true)
    else if s.list.Some? && s.firingIndex < s.firingLength && 0 <= s.firingIndex < |s.list.value| && s.log != [] then
      var b := s.log[|s.log| - 1];
      s.(log := s.log[|s.log| - 1 := b.(calls := b.calls + [s.list.value[s.firingIndex]])])
    else if s.log != [] then
      var b := s.log[|s.log| - 1];
      var left := if s.list.Some? then Some(From(s.list.value, b.from)) else None;
      Finish(s.(log := s.log[|s.log| - 1 := b.(left := left)]))
    else Finish(s)
  }

  function From<F>(es: seq<Entry<F>>, from: nat): seq<Entry<F>> {
    if es == [] then [] else (if es[0].ticket >= from then [es[0]] else []) + From(es[1..], from)
  }

  /** What `fire` does after its loop. */
  function Finish<F, D>(s: State<F, D>): State<F, D>
    decreases Waiting(s), 0
  {
    var t := s.(firing := false);
    if t.list == None then t
    else if t.stack.Some? then
      if t.stack.value == [] then t
      else Fire(t.(stack := Some(t.stack.value[1..])), t.stack.value[0], false, 0)
    else if t.memory.Some? then t.(list := Some([]))
    else Disable(t)
  }

  /** The running callback returns; `isFalse` if it returns false. */
  function Return<F, D>(s: State<F, D>, isFalse: bool): State<F, D> {
    if !s.firing || s.faulted then s
    else if isFalse && s.options.stopOnFalse then Finish(s.(memory := None))
    else Loop(s.(firingIndex := s.firingIndex + 1))
  }

  function Without<F(==)>(es: seq<Entry<F>>, fn: F): seq<Entry<F>> {
    if es == [] then []
    else Without(es[..|es| - 1], fn) + (if es[|es| - 1].fn == fn then [] else [es[|es| - 1]])
  }

  function RemoveOne<F(==), D>(s: State<F, D>, fn: F): State<F, D> {
    if s.list == None then s
    else
      var es := s.list.value;
      var t := s.(list := Some(Without(es, fn)));
      if !s.firing || !(-1 <= s.firingIndex < |es|) then t
      else t.(firingLength := s.firingLength - (|es| - |Without(es, fn)|),
              firingIndex := |Without(es[..s.firingIndex + 1], fn)| - 1)
  }

  function Remove<F(==), D>(s: State<F, D>, fns: seq<F>): State<F, D>
    decreases |fns|
  {
    if fns == [] then s else Remove(RemoveOne(s, fns[0]), fns[1..])
  }

  function Empty<F, D>(s: State<F, D>): State<F, D> {
    s.(list := Some([]))
  }

  function Disable<F, D>(s: State<F, D>): State<F, D> {
    s.(list := None, stack := None, memory := None)
  }

  function Lock<F, D>(s: State<F, D>): State<F, D> {
    var t := s.(stack := None);
    if t.memory == None then Disable(t) else t
  }

  function FireWith<F, D>(s: State<F, D>, data: D): State<F, D> {
    if s.list.Some? && (!s.fired || s.stack.Some?) then
      var t := s.(accepted := s.accepted + [data]);
      if t.firing then t.(stack := if t.stack.Some? then Some(t.stack.value + [data]) else None)
      else Fire(t, data, false, 0)
    else s
  }

  /* ----- what every operation keeps ----- */

  function Started<F, D>(log: seq<Batch<F, D>>): seq<D> {
    if log == [] then []
    else Started(log[..|log| - 1]) + (if log[|log| - 1].again then [] else [log[|log| - 1].data])
  }

  ghost predicate Increasing<F>(es: seq<Entry<F>>) {
    forall i, j :: 0 <= i < j < |es| ==> es[i].ticket < es[j].ticket
  }

  ghost predicate Below<F>(es: seq<Entry<F>>, ticket: nat) {
    forall i :: 0 <= i < |es| ==> es[i].ticket < ticket
  }

  /** No callback is called twice in a batch, calls are in registration order, and no
      callback still registered when the loop ended was skipped. */
  ghost predicate Whole<F, D>(b: Batch<F, D>) {
    && Increasing(b.calls)
    && (forall i :: 0 <= i < |b.calls| ==> b.calls[i].ticket >= b.from)
    && (b.left.Some? ==> forall i :: 0 <= i < |b.left.value| ==> b.left.value[i] in b.calls)
  }

  ghost predicate Fits<F, D>(b: Batch<F, D>, added: nat) {
    Whole(b) && Below(b.calls, added) && b.from <= added
  }

  /** A batch `add` starts has the data of the batch before it. */
  ghost predicate Remembered<F, D>(log: seq<Batch<F, D>>) {
    forall i :: 0 <= i < |log| && log[i].again ==> i > 0 && log[i].data == log[i - 1].data
  }

  /** So every batch runs on data some `fireWith` brought. */
  lemma {:induction false} DataAccepted<F, D>(log: seq<Batch<F, D>>, i: nat)
    requires Remembered(log) && i < |log|
    ensures log[i].data in Started(log)
    decreases |log|
  {
    var front := log[..|log| - 1];
    if i < |front| {
      DataAccepted(front, i);
    } else if log[i].again {
      DataAccepted(front, i - 1);
    }
  }

  ghost predicate LogFits<F, D>(log: seq<Batch<F, D>>, added: nat) {
    (forall i :: 0 <= i < |log| ==> Fits(log[i], added)) && Remembered(log)
  }

  lemma LogFitsLast<F, D>(log: seq<Batch<F, D>>, added: nat, b: Batch<F, D>)
    requires log != [] && LogFits(log, added) && Fits(b, added)
    requires b.again == log[|log| - 1].again && b.data == log[|log| - 1].data
    ensures LogFits(log[|log| - 1 := b], added)
  {
  }

  lemma LogFitsMore<F, D>(log: seq<Batch<F, D>>, added: nat, more: nat)
    requires LogFits(log, added) && added <= more
    ensures LogFits(log, more)
  {
    forall i | 0 <= i < |log| ensures Fits(log[i], more) {
      assert Fits(log[i], added);
    }
  }

  ghost predicate Histories<F, D>(s: State<F, D>) {
    && (s.list.Some? ==> Increasing(s.list.value) && Below(s.list.value, s.added))
    && LogFits(s.log, s.added)
    && Started(s.log) <= s.accepted
    && (s.stack.Some? ==> s.accepted == Started(s.log) + s.stack.value)
  }

  ghost predicate Settings<F, D>(s: State<F, D>) {
    && !s.faulted
    && (s.options.once ==> s.stack == None)
    && (s.memory.Some? ==> s.options.memory && s.fired && s.log != [] && s.log[|s.log| - 1].data == s.memory.value)
    && (s.list == None ==> s.memory == None && s.stack == None)
    && (s.fired <==> s.log != [])
    && (s.fired <==> s.accepted != [])
  }

  /** The first `next` entries have had the current data, as far as they are due it, and the
      others are still to get it. */
  ghost predicate Progress<F, D>(s: State<F, D>, next: int) {
    && s.log != [] && s.log[|s.log| - 1].left == None
    && (s.list.Some? ==>
      var es, b := s.list.value, s.log[|s.log| - 1];
      && 0 <= next <= |es| == s.firingLength
      && (forall i :: 0 <= i < next && es[i].ticket >= b.from ==> es[i] in b.calls)
      && (forall i :: next <= i < |es| ==> es[i].ticket >= b.from && Below(b.calls, es[i].ticket)))
  }

  ghost predicate Valid<F, D>(s: State<F, D>) {
    && Histories(s) && Settings(s) && s.firingStart == 0
    && (s.firing ==> Progress(s, s.firingIndex + 1))
    && (!s.firing && s.stack.Some? ==> s.stack.value == [])
  }

  /** What is still owed the current data. */
  function Owed<F, D>(s: State<F, D>): seq<Entry<F>> {
    if s.firing && s.list.Some? && -1 <= s.firingIndex < |s.list.value| then s.list.value[s.firingIndex + 1..] else []
  }

  lemma NewValid<F, D>(options: Options)
    ensures Valid(New<F, D>(options))
  {
  }

  ghost predicate ReadyToLoop<F, D>(s: State<F, D>) {
    Histories(s) && Settings(s) && s.firingStart == 0 && s.firing && Progress(s, s.firingIndex)
  }

  lemma LogEnd<F, D>(s: State<F, D>, b: Batch<F, D>)
    requires s.log != []
    requires b.again == s.log[|s.log| - 1].again && b.data == s.log[|s.log| - 1].data
    ensures var log := s.log[|s.log| - 1 := b]; Started(log) == Started(s.log) && log[..|log| - 1] == s.log[..|s.log| - 1]
  {
    var log := s.log[|s.log| - 1 := b];
    assert log[..|log| - 1] == s.log[..|s.log| - 1];
  }

  lemma CallProgress<F, D>(es: seq<Entry<F>>, k: nat, b: Batch<F, D>, e: Entry<F>)
    requires Increasing(es) && k < |es| && es[k] == e
    requires forall i :: k <= i < |es| ==> Below(b.calls, es[i].ticket)
    ensures forall i :: k < i < |es| ==> Below(b.calls + [e], es[i].ticket)
  {
  }

  /** The batch with the next call noted. */
  function Called<F, D>(s: State<F, D>): Batch<F, D>
    requires s.log != [] && s.list.Some? && 0 <= s.firingIndex < |s.list.value|
  {
    var b := s.log[|s.log| - 1];
    b.(calls := b.calls + [s.list.value[s.firingIndex]])
  }

  lemma CallFits<F, D>(s: State<F, D>)
    requires ReadyToLoop(s) && s.list.Some? && s.firingIndex < s.firingLength
    ensures Fits(Called(s), s.added)
  {
    hide Started, Settings, Remembered;
    assert Fits(s.log[|s.log| - 1], s.added);
  }

  lemma CallHistories<F, D>(s: State<F, D>)
    requires ReadyToLoop(s) && s.list.Some? && s.firingIndex < s.firingLength
    ensures var t := s.(log := s.log[|s.log| - 1 := Called(s)]); Histories(t) && Settings(t)
  {
    hide LogFits, Started, Fits, Increasing, Below;
    CallFits(s);
    LogEnd(s, Called(s));
    LogFitsLast(s.log, s.added, Called(s));
  }

  lemma CallValid<F, D>(s: State<F, D>)
    requires ReadyToLoop(s) && s.list.Some? && s.firingIndex < s.firingLength
    ensures Valid(Loop(s))
  {
    hide Histories, Settings, LogFits, Started, Whole;
    CallHistories(s);
    ListIncreasing(s);
    CallProgress(s.list.value, s.firingIndex, s.log[|s.log| - 1], s.list.value[s.firingIndex]);
  }

  lemma ListIncreasing<F, D>(s: State<F, D>)
    requires Histories(s) && s.list.Some?
    ensures Increasing(s.list.value)
  {
  }

  lemma {:induction false} LoopValid<F, D>(s: State<F, D>)
    requires ReadyToLoop(s)
    ensures Valid(Loop(s))
    decreases Waiting(s), 1, 1
  {
    if s.list.Some? && s.firingIndex < s.firingLength {
      CallValid(s);
    } else {
      LeaveValid(s);
    }
  }

  /** Leaving the loop when every entry due the data has had it. */
  lemma {:induction false} LeaveValid<F, D>(s: State<F, D>)
    requires Histories(s) && Settings(s) && s.firingStart == 0 && s.log != []
    requires s.list.Some? ==> s.firingIndex >= s.firingLength
    requires s.list.Some? ==>
      var b := s.log[|s.log| - 1];
      forall i :: 0 <= i < |s.list.value| && s.list.value[i].ticket >= b.from ==> s.list.value[i] in b.calls
    ensures Valid(Loop(s))
    decreases Waiting(s), 1, 0
  {
    var b := s.log[|s.log| - 1];
    var b' := b.(left := if s.list.Some? then Some(From(s.list.value, b.from)) else None);
    assert Fits(b, s.added);
    LogEnd(s, b');
    if s.list.Some? {
      FromIn(s.list.value, b.from, b.calls);
    }
    LogFitsLast(s.log, s.added, b');
    hide LogFits, Whole;
    FinishValid(s.(log := s.log[|s.log| - 1 := b']));
  }

  lemma {:induction false} FromIn<F>(es: seq<Entry<F>>, from: nat, calls: seq<Entry<F>>)
    requires forall i :: 0 <= i < |es| && es[i].ticket >= from ==> es[i] in calls
    ensures forall i :: 0 <= i < |From(es, from)| ==> From(es, from)[i] in calls
  {
    if es != [] {
      FromIn(es[1..], from, calls);
    }
  }

  lemma {:induction false} FinishValid<F, D>(s: State<F, D>)
    requires Histories(s) && Settings(s) && s.firingStart == 0
    ensures Valid(Finish(s))
    decreases Waiting(s), 0
  {
    var t := s.(firing := false);
    if t.list.Some? && t.stack.Some? && t.stack.value != [] {
      FireValid(t.(stack := Some(t.stack.value[1..])), t.stack.value[0], false, 0);
    }
  }

  /** A batch may begin: the entries from `firingStart` on are those with tickets from `from`
      on, and its data is the next accepted or, again, that of the last batch. */
  ghost predicate CanBegin<F, D>(s: State<F, D>, data: D, again: bool, from: nat) {
    && s.list.Some? && !s.firing && !s.faulted && s.firingStart <= |s.list.value| && from <= s.added
    && (forall i :: 0 <= i < |s.list.value| ==> (s.list.value[i].ticket >= from <==> i >= s.firingStart))
    && Increasing(s.list.value) && Below(s.list.value, s.added)
    && LogFits(s.log, s.added) && (again ==> s.log != [] && s.log[|s.log| - 1].data == data)
    && (s.options.once ==> s.stack == None)
    && var begun := Started(s.log) + (if again then [] else [data]);
       begun <= s.accepted && (s.stack.Some? ==> s.accepted == begun + s.stack.value)
  }

  lemma BeginHistories<F, D>(s: State<F, D>, data: D, again: bool, from: nat)
    requires CanBegin(s, data, again, from)
    ensures Histories(Begin(s, data, again, from))
    ensures |Begin(s, data, again, from).accepted| > 0
  {
    var u := Begin(s, data, again, from);
    assert u.log[..|u.log| - 1] == s.log;
    if again {
      DataAccepted(s.log, |s.log| - 1);
    }
    assert Fits(u.log[|s.log|], s.added);
    assert LogFits(u.log, s.added);
    hide LogFits, Fits;
    assert Started(u.log) == Started(s.log) + (if again then [] else [data]);
  }

  lemma {:induction false} FireValid<F, D>(s: State<F, D>, data: D, again: bool, from: nat)
    requires CanBegin(s, data, again, from)
    ensures Valid(Fire(s, data, again, from))
    decreases Waiting(s), 2
  {
    BeginHistories(s, data, again, from);
    LoopValid(Begin(s, data, again, from));
  }

  lemma {:induction false} PushValid<F, D>(s: State<F, D>, fns: seq<F>)
    requires s.list.Some? && Increasing(s.list.value) && Below(s.list.value, s.added)
    ensures var t := Push(s, fns);
      && t.list.Some? && Increasing(t.list.value) && Below(t.list.value, t.added) && t.added >= s.added
      && |t.list.value| >= |s.list.value| && t.list.value[..|s.list.value|] == s.list.value
      && (forall i :: |s.list.value| <= i < |t.list.value| ==> t.list.value[i].ticket >= s.added)
      && t == s.(list := t.list, added := t.added)
    decreases |fns|
  {
    hide Has;
    if fns != [] {
      if s.options.unique && Has(s, fns[0]) {
        PushValid(s, fns[1..]);
      } else {
        var u := s.(list := Some(s.list.value + [Entry(fns[0], s.added)]), added := s.added + 1);
        OneMore(s.list.value, Entry(fns[0], s.added), s.added);
        PushValid(u, fns[1..]);
        PrefixOf(s.list.value, Entry(fns[0], s.added), Push(u, fns[1..]).list.value);
      }
    }
  }

  lemma OneMore<F>(es: seq<Entry<F>>, e: Entry<F>, ticket: nat)
    requires Increasing(es) && Below(es, ticket) && e.ticket == ticket
    ensures Increasing(es + [e]) && Below(es + [e], ticket + 1)
  {
  }

  lemma PrefixOf<F>(es: seq<Entry<F>>, e: Entry<F>, more: seq<Entry<F>>)
    requires |es| < |more| && more[..|es| + 1] == es + [e]
    ensures more[..|es|] == es && more[|es|] == e
  {
    assert more[..|es|] == more[..|es| + 1][..|es|];
    assert more[|es|] == more[..|es| + 1][|es|];
  }

  lemma AddValid<F, D>(s: State<F, D>, fns: seq<F>)
    requires Valid(s)
    ensures Valid(Add(s, fns))
  {
    if s.list.Some? {
      var n, t := |s.list.value|, Push(s, fns);
      PushValid(s, fns);
      LogFitsMore(s.log, s.added, t.added);
      assert forall i :: 0 <= i < n ==> t.list.value[i] == t.list.value[..n][i];
      if s.firing {
        assert Fits(s.log[|s.log| - 1], s.added);
      }
      hide LogFits, Push, Started;
      if !s.firing && s.memory.Some? {
        FireValid(t.(firingStart := n), t.memory.value, true, s.added);
      }
    }
  }

  lemma ReturnValid<F, D>(s: State<F, D>, isFalse: bool)
    requires Valid(s)
    ensures Valid(Return(s, isFalse))
  {
    if s.firing {
      if isFalse && s.options.stopOnFalse {
        FinishValid(s.(memory := None));
      } else {
        LoopValid(s.(firingIndex := s.firingIndex + 1));
      }
    }
  }

  lemma {:induction false} WithoutSplit<F>(es: seq<Entry<F>>, fn: F, k: nat)
    requires k <= |es|
    ensures Without(es, fn) == Without(es[..k], fn) + Without(es[k..], fn)
  {
    if k == |es| {
      assert es[..k] == es;
    } else {
      var n := |es| - 1;
      WithoutSplit(es[..n], fn, k);
      assert es[..n][..k] == es[..k] && es[..n][k..] == es[k..][..|es[k..]| - 1];
    }
  }

  lemma {:induction false} WithoutKeeps<F>(es: seq<Entry<F>>, fn: F)
    ensures Increasing(es) ==> Increasing(Without(es, fn))
    ensures forall i :: 0 <= i < |Without(es, fn)| ==> Without(es, fn)[i] in es
    ensures |Without(es, fn)| <= |es|
  {
    hide Increasing;
    if es != [] {
      var n := |es| - 1;
      WithoutKeeps(es[..n], fn);
      assert es == es[..n] + [es[n]];
      assert Without(es[..n], fn) + [] == Without(es[..n], fn);
      Appended(Without(es[..n], fn), es, n);
    }
  }

  lemma Appended<F>(front: seq<Entry<F>>, es: seq<Entry<F>>, n: nat)
    requires n < |es| && forall i :: 0 <= i < |front| ==> front[i] in es[..n]
    ensures Increasing(es) ==> Increasing(es[..n])
    ensures Increasing(es) && Increasing(front) ==> Increasing(front + [es[n]])
  {
  }

  lemma {:induction false} RemoveValid<F, D>(s: State<F, D>, fns: seq<F>)
    requires Valid(s)
    ensures Valid(Remove(s, fns))
    decreases |fns|
  {
    if fns != [] {
      RemoveOneValid(s, fns[0]);
      RemoveValid(RemoveOne(s, fns[0]), fns[1..]);
    }
  }

  lemma RemoveOneValid<F, D>(s: State<F, D>, fn: F)
    requires Valid(s)
    ensures Valid(RemoveOne(s, fn))
    ensures s.firing && s.list.Some? ==> Owed(RemoveOne(s, fn)) == Without(Owed(s), fn)
  {
    hide LogFits, Started;
    if s.list.Some? {
      var es := s.list.value;
      WithoutKeeps(es, fn);
      WithoutBelow(es, fn, s.added);
      if s.firing {
        var k := s.firingIndex + 1;
        WithoutSplit(es, fn, k);
        WithoutKeeps(es[..k], fn);
        WithoutKeeps(es[k..], fn);
        RemoveProgress(s, fn);
      }
    }
  }

  lemma WithoutBelow<F>(es: seq<Entry<F>>, fn: F, ticket: nat)
    requires Below(es, ticket)
    ensures Below(Without(es, fn), ticket)
  {
    WithoutKeeps(es, fn);
  }

  /** What is left of the entries that have had the data has had it, and what is left of the
      others is still owed it. */
  lemma RemoveProgress<F, D>(s: State<F, D>, fn: F)
    requires Valid(s) && s.firing && s.list.Some?
    ensures var t := RemoveOne(s, fn); Progress(t, t.firingIndex + 1)
  {
    hide LogFits, Started, Increasing;
    var es, k, b := s.list.value, s.firingIndex + 1, s.log[|s.log| - 1];
    var front, back := Without(es[..k], fn), Without(es[k..], fn);
    WithoutSplit(es, fn, k);
    WithoutKeeps(es[..k], fn);
    WithoutKeeps(es[k..], fn);
    StillOwed(es, k, b, front, back);
    hide Without, Below;
  }

  lemma StillOwed<F, D>(es: seq<Entry<F>>, k: nat, b: Batch<F, D>, front: seq<Entry<F>>, back: seq<Entry<F>>)
    requires k <= |es|
    requires forall i :: 0 <= i < k && es[i].ticket >= b.from ==> es[i] in b.calls
    requires forall i :: k <= i < |es| ==> es[i].ticket >= b.from && Below(b.calls, es[i].ticket)
    requires forall i :: 0 <= i < |front| ==> front[i] in es[..k]
    requires forall i :: 0 <= i < |back| ==> back[i] in es[k..]
    ensures var r := front + back;
      && (forall i :: 0 <= i < |front| && r[i].ticket >= b.from ==> r[i] in b.calls)
      && (forall i :: |front| <= i < |r| ==> r[i].ticket >= b.from && Below(b.calls, r[i].ticket))
  {
    hide Below;
    var r := front + back;
    forall i | |front| <= i < |r| ensures r[i].ticket >= b.from && Below(b.calls, r[i].ticket) {
      assert r[i] == back[i - |front|];
      var j :| 0 <= j < |es[k..]| && es[k..][j] == r[i];
      assert es[k + j] == r[i];
    }
  }

  lemma FireWithValid<F, D>(s: State<F, D>, data: D)
    requires Valid(s)
    ensures Valid(FireWith(s, data))
  {
    if s.list.Some? && (!s.fired || s.stack.Some?) && !s.firing {
      assert !s.fired ==> Started(s.log) == [];
      FireValid(s.(accepted := s.accepted + [data]), data, false, 0);
    }
  }

  lemma LockValid<F, D>(s: State<F, D>)
    requires Valid(s)
    ensures Valid(Lock(s)) && Valid(Disable(s))
    ensures Lock(s).list.Some? ==> Owed(Lock(s)) == Owed(s)
  {
    hide LogFits, Started, Increasing, Below;
  }

  predicate MayEmpty<F, D>(s: State<F, D>) {
    !s.firing || (s.firingLength == 0 && s.firingIndex == -1)
  }

  /** `empty` does not touch the firing indices. Called from a callback it leaves them
      pointing past the list, unless the callback running was the last one and has removed
      itself. `CallbackSteps.EmptyThenReturn` says when that does harm. */
  lemma EmptyValid<F, D>(s: State<F, D>)
    requires Valid(s)
    ensures Valid(Empty(s)) <==> MayEmpty(s)
  {
  }
}
