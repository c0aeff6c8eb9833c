/** The list of handlers jQuery keeps for one event type on one element: delegated handlers in
    front, direct ones behind, and the queue a dispatch makes of it. */
module Events {
  import opened Dom

  /** The parts of a `handleObj` that binding, unbinding and dispatching look at. */
  datatype HandleObj = HandleObj(guid: nat, origType: string, namespace: string, selector: Option<string>)

  type Handlers = seq<HandleObj>

  /** What `remove` is asked to remove; `None` stands for an argument not given. */
  datatype Request = Request(
    mappedTypes: bool, origType: string, guid: Option<nat>, namespaceTest: Option<string -> bool>, selector: Option<string>)

  /** The condition of lines 2836-2839. */
  predicate Asked(r: Request, h: HandleObj) {
    && (r.mappedTypes || r.origType == h.origType)
    && (r.guid == None || r.guid.value == h.guid)
    && (r.namespaceTest == None || r.namespaceTest.value(h.namespace))
    && (r.selector == None || r.selector == h.selector || (r.selector == Some("**") && h.selector.Some?))
  }

  function Delegated(hs: Handlers): Handlers {
    if hs == [] then []
    else Delegated(hs[..|hs| - 1]) + (if hs[|hs| - 1].selector.Some? then [hs[|hs| - 1]] else [])
  }

  function Direct(hs: Handlers): Handlers {
    if hs == [] then []
    else Direct(hs[..|hs| - 1]) + (if hs[|hs| - 1].selector.Some? then [] else [hs[|hs| - 1]])
  }

  function Without(hs: Handlers, r: Request): Handlers {
    if hs == [] then []
    else Without(hs[..|hs| - 1], r) + (if Asked(r, hs[|hs| - 1]) then [] else [hs[|hs| - 1]])
  }

  /** Strictly increasing places. */
  ghost predicate Ascending(at: seq<nat>) {
    forall i, j :: 0 <= i < j < |at| ==> at[i] < at[j]
  }

  /** `hs` are the handlers at the places `at` of `bound`, in order, and those are the places
      of the wanted ones. */
  ghost predicate PicksAt(bound: Handlers, hs: Handlers, want: HandleObj -> bool, at: seq<nat>) {
    && Ascending(at) && |at| == |hs|
    && (forall i :: 0 <= i < |at| ==> at[i] < |bound| && hs[i] == bound[at[i]])
    && (forall k :: 0 <= k < |bound| ==> (k in at <==> want(bound[k])))
  }

  /** `hs` are exactly the wanted ones of `bound`, in order. */
  ghost predicate Picks(bound: Handlers, hs: Handlers, want: HandleObj -> bool) {
    exists at: seq<nat> :: PicksAt(bound, hs, want, at)
  }

  lemma PicksNone(want: HandleObj -> bool)
    ensures Picks([], [], want)
  {
    assert PicksAt([], [], want, []);
  }

  lemma PicksMore(bound: Handlers, hs: Handlers, want: HandleObj -> bool, h: HandleObj)
    requires Picks(bound, hs, want)
    ensures Picks(bound + [h], hs + (if want(h) then [h] else []), want)
  {
    var at: seq<nat> :| PicksAt(bound, hs, want, at);
    if want(h) {
      PicksLast(bound, hs, want, h, at, |bound|);
    } else {
      PicksSame(bound, hs, want, h, at);
      assert hs + [] == hs;
    }
  }

  lemma PicksLast(bound: Handlers, hs: Handlers, want: HandleObj -> bool, h: HandleObj, at: seq<nat>, n: nat)
    requires PicksAt(bound, hs, want, at) && want(h) && n == |bound|
    ensures PicksAt(bound + [h], hs + [h], want, at + [n])
  {
    forall k | 0 <= k < |bound + [h]| ensures k in at + [n] <==> want((bound + [h])[k]) {
    }
  }

  lemma PicksSame(bound: Handlers, hs: Handlers, want: HandleObj -> bool, h: HandleObj, at: seq<nat>)
    requires PicksAt(bound, hs, want, at) && !want(h)
    ensures PicksAt(bound + [h], hs, want, at)
  {
    forall k | 0 <= k < |bound + [h]| ensures k in at <==> want((bound + [h])[k]) {
      assert forall i :: 0 <= i < |at| ==> at[i] < |bound|;
    }
  }

  /** Nothing is picked exactly where nothing is wanted. */
  lemma PicksAny(bound: Handlers, hs: Handlers, want: HandleObj -> bool)
    requires Picks(bound, hs, want)
    ensures hs != [] <==> exists h :: h in bound && want(h)
  {
    var at: seq<nat> :| PicksAt(bound, hs, want, at);
    if hs != [] {
      assert at[0] in at && hs[0] == bound[at[0]];
    }
  }

  /** One of the things the request names is otherwise. */
  predicate Spared(r: Request, h: HandleObj) {
    || (!r.mappedTypes && h.origType != r.origType)
    || (r.guid.Some? && h.guid != r.guid.value)
    || (r.namespaceTest.Some? && !r.namespaceTest.value(h.namespace))
    || (r.selector.Some? && (h.selector == None || (r.selector.value != "**" && h.selector.value != r.selector.value)))
  }

  function SparedBy(r: Request): HandleObj -> bool {
    h => Spared(r, h)
  }

  function NotDelegated(): HandleObj -> bool {
    (h: HandleObj) => h.selector == None
  }

  lemma {:induction false} WithoutPicks(hs: Handlers, r: Request)
    ensures Picks(hs, Without(hs, r), SparedBy(r))
  {
    var want := SparedBy(r);
    if hs == [] {
      PicksNone(want);
    } else {
      var n := |hs| - 1;
      WithoutPicks(hs[..n], r);
      PicksMore(hs[..n], Without(hs[..n], r), want, hs[n]);
      assert hs[..n] + [hs[n]] == hs;
      hide Picks;
    }
  }

  lemma {:induction false} DirectPicks(hs: Handlers)
    ensures Picks(hs, Direct(hs), NotDelegated())
  {
    var want := NotDelegated();
    if hs == [] {
      PicksNone(want);
    } else {
      var n := |hs| - 1;
      DirectPicks(hs[..n]);
      PicksMore(hs[..n], Direct(hs[..n]), want, hs[n]);
      assert hs[..n] + [hs[n]] == hs;
      hide Picks;
    }
  }

  lemma {:induction false} DelegatedAre(hs: Handlers)
    ensures forall i :: 0 <= i < |Delegated(hs)| ==> Delegated(hs)[i].selector.Some?
    ensures forall i :: 0 <= i < |Direct(hs)| ==> Direct(hs)[i].selector == None
  {
    if hs != [] {
      DelegatedAre(hs[..|hs| - 1]);
    }
  }

  lemma WithoutMore(hs: Handlers, h: HandleObj, r: Request)
    ensures Without(hs + [h], r) == Without(hs, r) + (if Asked(r, h) then [] else [h])
  {
    assert (hs + [h])[..|hs|] == hs;
  }

  lemma {:induction false} WithoutConcat(a: Handlers, b: Handlers, r: Request)
    ensures Without(a + b, r) == Without(a, r) + Without(b, r)
    decreases |b|
  {
    hide Without;
    if b == [] {
      NoParts(r);
      assert a + b == a && Without(a, r) + [] == Without(a, r);
    } else {
      var n := |b| - 1;
      var front := b[..n];
      WithoutConcat(a, front, r);
      WithoutMore(a + front, b[n], r);
      WithoutMore(front, b[n], r);
      assert b == front + [b[n]] && a + b == a + front + [b[n]];
    }
  }

  /** Unbinding and sorting into the two parts can be done in either order. */
  lemma {:induction false} WithoutParts(hs: Handlers, r: Request)
    ensures Without(Delegated(hs), r) == Delegated(Without(hs, r))
    ensures Without(Direct(hs), r) == Direct(Without(hs, r))
  {
    hide Delegated, Direct, Without;
    if hs == [] {
      NoParts(r);
    } else {
      var n := |hs| - 1;
      WithoutParts(hs[..n], r);
      assert hs == hs[..n] + [hs[n]];
      PartsStep(hs[..n], hs[n], r);
    }
  }

  lemma NoParts(r: Request)
    ensures Without([], r) == [] && Delegated([]) == [] && Direct([]) == []
  {
  }

  lemma PartsStep(hs: Handlers, h: HandleObj, r: Request)
    requires Without(Delegated(hs), r) == Delegated(Without(hs, r)) && Without(Direct(hs), r) == Direct(Without(hs, r))
    ensures Without(Delegated(hs + [h]), r) == Delegated(Without(hs + [h], r))
    ensures Without(Direct(hs + [h]), r) == Direct(Without(hs + [h], r))
  {
    hide Delegated, Direct, Without;
    PartsMore(hs, h);
    WithoutMore(hs, h, r);
    WithoutMore(Delegated(hs), h, r);
    WithoutMore(Direct(hs), h, r);
    PartsMore(Without(hs, r), h);
    Nothing(Delegated(hs));
    Nothing(Direct(hs));
    Nothing(Without(hs, r));
    Nothing(Delegated(Without(hs, r)));
    Nothing(Direct(Without(hs, r)));
  }

  lemma Nothing(hs: Handlers)
    ensures hs + [] == hs
  {
  }

  lemma PartsMore(hs: Handlers, h: HandleObj)
    ensures Delegated(hs + [h]) == Delegated(hs) + (if h.selector.Some? then [h] else [])
    ensures Direct(hs + [h]) == Direct(hs) + (if h.selector.Some? then [] else [h])
  {
    assert (hs + [h])[..|hs|] == hs;
  }

  /** `events[ type ]`. `bound` is the history: what is bound, in the order of binding. */
  class HandlerList {
    var handlers: Handlers
    var delegateCount: int
    ghost var bound: Handlers

    /** The first `delegateCount` handlers are exactly the delegated ones, and each part is in
        the order of binding. */
    ghost predicate Valid()
      reads this
    {
      handlers == Delegated(bound) + Direct(bound) && delegateCount == |Delegated(bound)|
    }

    constructor ()
      ensures Valid() && bound == []
    {
      handlers, delegateCount, bound := [], 0, [];
    }

    method Add(h: HandleObj)
      requires Valid()
      modifies this
      ensures Valid() && bound == old(bound) + [h]
    {
      PartsMore(bound, h);
      if h.selector.Some? {
        handlers := handlers[..delegateCount] + [h] + handlers[delegateCount..];
        delegateCount := delegateCount + 1;
      } else {
        handlers := handlers + [h];
      }
      bound := bound + [h];
    }

    method Remove(r: Request)
      requires Valid()
      modifies this
      ensures Valid() && bound == Without(old(bound), r)
      ensures Picks(old(bound), bound, SparedBy(r))
    {
      hide Delegated, Direct, Without;
      WithoutPicks(bound, r);
      ghost var first := Delegated(bound);
      DelegatedAre(bound);
      Splice(r, first);
      WithoutConcat(first, Direct(bound), r);
      WithoutParts(bound, r);
      bound := Without(bound, r);
    }

    /** Lines 2829-2848: from the last handler back to the first. */
    method Splice(r: Request, ghost first: Handlers)
      requires first <= handlers && delegateCount == |first|
      requires forall i :: 0 <= i < |handlers| ==> (handlers[i].selector.Some? <==> i < |first|)
      modifies this`handlers, this`delegateCount
      ensures handlers == Without(old(handlers), r) && delegateCount == |Without(first, r)|
    {
      hide Delegated, Direct, Without;
      ghost var all := handlers;
      EmptyRest(all, first, r);
      var j := |handlers|;
      while j > 0
        invariant 0 <= j <= |all|
        invariant handlers == all[..j] + Without(all[j..], r)
        invariant delegateCount == (if j < |first| then j else |first|) + Kept(first, j, r)
      {
        j := j - 1;
        var handleObj := handlers[j];
        assert handleObj == all[j];
        RemoveStep(all, first, j, r);
        if Asked(r, handleObj) {
          handlers := handlers[..j] + handlers[j + 1..];
          if handleObj.selector.Some? {
            delegateCount := delegateCount - 1;
          }
        }
      }
      assert all[0..] == all && first[0..] == first;
    }
  }

  /** How many of the delegated handlers from place `j` on are kept. */
  function Kept(first: Handlers, j: nat, r: Request): nat {
    if j < |first| then |Without(first[j..], r)| else 0
  }

  lemma EmptyRest(all: Handlers, first: Handlers, r: Request)
    requires |first| <= |all|
    ensures Without(all[|all|..], r) == [] && all[..|all|] == all && Kept(first, |all|, r) == 0
    ensures first == [] ==> Without(first, r) == []
  {
    assert all[|all|..] == [];
  }

  /** One step back of the loop in `remove`. */
  lemma RemoveStep(all: Handlers, first: Handlers, j: nat, r: Request)
    requires j < |all| && first <= all
    ensures Without(all[j..], r) == (if Asked(r, all[j]) then [] else [all[j]]) + Without(all[j + 1..], r)
    ensures Kept(first, j, r) == Kept(first, j + 1, r) + (if j < |first| && !Asked(r, all[j]) then 1 else 0)
  {
    assert all[j..] == [all[j]] + all[j + 1..];
    WithoutConcat([all[j]], all[j + 1..], r);
    WithoutMore([], all[j], r);
    assert [] + [all[j]] == [all[j]];
    if j < |first| {
      assert first[j] == all[j] && first[j..] == [all[j]] + first[j + 1..];
      WithoutConcat([all[j]], first[j + 1..], r);
      assert j + 1 == |first| ==> first[j + 1..] == [];
    }
  }

  /* ----- dispatch ----- */

  datatype Matched = Matched(elem: Path, handlers: Handlers)

  /** What a dispatch looks at: the element listened on, the event, which elements are
      disabled, and whether an element matches a selector. */
  datatype Scene = Scene(
    this_: Path, target: Path, targetIsNode: bool, isClick: bool, button: bool,
    disabled: Path -> bool, test: (string, Path) -> bool)

  /** The elements from `cur` up to, not including, the one listened on. */
  function Climb(sc: Scene, cur: Path): seq<Path>
    decreases |cur|
  {
    if cur == sc.this_ then [] else [cur] + (if cur == [] then [] else Climb(sc, Up(cur)))
  }

  function Matching(sc: Scene, hs: Handlers, cur: Path): Handlers
    requires forall i :: 0 <= i < |hs| ==> hs[i].selector.Some?
  {
    if hs == [] then []
    else
      var h := hs[|hs| - 1];
      Matching(sc, hs[..|hs| - 1], cur) + (if sc.test(h.selector.value, cur) then [h] else [])
  }

  /** Whether delegated handlers are considered at all, and for one element. */
  predicate Considered(sc: Scene) {
    sc.targetIsNode && (!sc.button || !sc.isClick)
  }

  predicate Live(sc: Scene, cur: Path) {
    !sc.disabled(cur) || !sc.isClick
  }

  /** For each element from the innermost out, its matching delegated handlers. */
  function DelegateQueue(sc: Scene, delegates: Handlers, path: seq<Path>): seq<Matched>
    requires forall i :: 0 <= i < |delegates| ==> delegates[i].selector.Some?
  {
    if path == [] then []
    else
      var ms := if Live(sc, path[0]) then Matching(sc, delegates, path[0]) else [];
      (if ms == [] then [] else [Matched(path[0], ms)]) + DelegateQueue(sc, delegates, path[1..])
  }

  /** The queue: delegated handlers innermost element first, then all direct ones. */
  function Queue(sc: Scene, delegates: Handlers, direct: Handlers): seq<Matched>
    requires forall i :: 0 <= i < |delegates| ==> delegates[i].selector.Some?
  {
    (if Considered(sc) then DelegateQueue(sc, delegates, Climb(sc, sc.target)) else [])
    + (if direct == [] then [] else [Matched(sc.this_, direct)])
  }

  /** Lines 3080-3095, with the results kept by selector. */
  method FindMatches(sc: Scene, delegates: Handlers, cur: Path) returns (matches: Handlers)
    requires forall i :: 0 <= i < |delegates| ==> delegates[i].selector.Some?
    ensures matches == Matching(sc, delegates, cur)
  {
    matches := [];
    var known: map<string, bool> := map[];
    var i := 0;
    while i < |delegates|
      invariant 0 <= i <= |delegates|
      invariant forall sel :: sel in known ==> known[sel] == sc.test(sel, cur)
      invariant matches == Matching(sc, delegates[..i], cur)
    {
      var handleObj := delegates[i];
      var sel := handleObj.selector.value;
      if sel !in known {
        known := known[sel := sc.test(sel, cur)];
      }
      assert delegates[..i + 1][..i] == delegates[..i];
      if known[sel] {
        matches := matches + [handleObj];
      }
      i := i + 1;
    }
    assert delegates[..i] == delegates;
  }

  lemma {:induction false} EmptyDelegates(sc: Scene, path: seq<Path>)
    ensures DelegateQueue(sc, [], path) == []
  {
    if path != [] {
      EmptyDelegates(sc, path[1..]);
    }
  }

  method MakeQueue(sc: Scene, list: HandlerList) returns (queue: seq<Matched>)
    requires list.Valid()
    ensures forall i :: 0 <= i < |Delegated(list.bound)| ==> Delegated(list.bound)[i].selector.Some?
    ensures queue == Queue(sc, Delegated(list.bound), Direct(list.bound))
    ensures Dispatches(sc, list.bound, queue)
  {
    QueueDispatches(sc, list.bound);
    hide Delegated, Direct, Matching, Climb, DelegateQueue, Dispatches;
    DelegatedAre(list.bound);
    ghost var delegates, direct := Delegated(list.bound), Direct(list.bound);
    var n := list.delegateCount;
    Parts(list, n);
    EmptyDelegates(sc, Climb(sc, sc.target));
    queue := [];
    if n != 0 && Considered(sc) {
      queue := Walk(sc, list.handlers[..n]);
    }
    if n < |list.handlers| {
      queue := queue + [Matched(sc.this_, list.handlers[n..])];
    }
  }

  lemma Parts(list: HandlerList, n: nat)
    requires list.Valid() && n == list.delegateCount
    ensures n <= |list.handlers| && list.handlers[..n] == Delegated(list.bound) && list.handlers[n..] == Direct(list.bound)
  {
  }

  /** The loop up from the target. */
  method Walk(sc: Scene, delegates: Handlers) returns (queue: seq<Matched>)
    requires forall i :: 0 <= i < |delegates| ==> delegates[i].selector.Some?
    ensures queue == DelegateQueue(sc, delegates, Climb(sc, sc.target))
  {
    queue := [];
    var cur := sc.target;
    var there := cur == sc.this_;
    while !there
      invariant there || cur != sc.this_
      invariant DelegateQueue(sc, delegates, Climb(sc, sc.target)) ==
        queue + DelegateQueue(sc, delegates, if there then [] else Climb(sc, cur))
      decreases if there then 0 else |cur| + 1
    {
      WalkStep(sc, delegates, cur, queue);
      if !sc.disabled(cur) || !sc.isClick {
        var matches := FindMatches(sc, delegates, cur);
        if matches != [] {
          queue := queue + [Matched(cur, matches)];
        }
      }
      if cur == [] {
        there := true;
      } else {
        cur := Up(cur);
        there := cur == sc.this_;
      }
    }
  }

  lemma WalkStep(sc: Scene, delegates: Handlers, cur: Path, queue: seq<Matched>)
    requires forall i :: 0 <= i < |delegates| ==> delegates[i].selector.Some?
    requires cur != sc.this_
    ensures var rest := if cur == [] then [] else Climb(sc, Up(cur));
      var ms := if Live(sc, cur) then Matching(sc, delegates, cur) else [];
      queue + DelegateQueue(sc, delegates, Climb(sc, cur)) ==
        (if ms == [] then queue else queue + [Matched(cur, ms)]) + DelegateQueue(sc, delegates, rest)
  {
    ClimbStep(sc, cur);
    hide Climb;
    var rest := Climb(sc, cur)[1..];
    var ms := if Live(sc, cur) then Matching(sc, delegates, cur) else [];
    QueueStep(sc, delegates, Climb(sc, cur));
    hide DelegateQueue, Matching;
    Regroup(queue, if ms == [] then [] else [Matched(cur, ms)], DelegateQueue(sc, delegates, rest));
    assert queue + [] == queue;
  }

  lemma ClimbStep(sc: Scene, cur: Path)
    requires cur != sc.this_
    ensures Climb(sc, cur) != [] && Climb(sc, cur)[0] == cur
    ensures Climb(sc, cur)[1..] == if cur == [] then [] else Climb(sc, Up(cur))
  {
  }

  lemma QueueStep(sc: Scene, delegates: Handlers, path: seq<Path>)
    requires path != [] && forall i :: 0 <= i < |delegates| ==> delegates[i].selector.Some?
    ensures var ms := if Live(sc, path[0]) then Matching(sc, delegates, path[0]) else [];
      DelegateQueue(sc, delegates, path) ==
        (if ms == [] then [] else [Matched(path[0], ms)]) + DelegateQueue(sc, delegates, path[1..])
  {
  }

  lemma Regroup(a: seq<Matched>, b: seq<Matched>, c: seq<Matched>)
    ensures a + (b + c) == a + b + c
  {
  }

  /** A handler is queued for an element exactly when it is delegated, the element is between
      the target and the one listened on and is live, and it matches. */
  lemma {:induction false} QueuedExactly(sc: Scene, delegates: Handlers, path: seq<Path>, elem: Path, h: HandleObj)
    requires forall i :: 0 <= i < |delegates| ==> delegates[i].selector.Some?
    ensures (exists q :: q in DelegateQueue(sc, delegates, path) && q.elem == elem && h in q.handlers)
      <==> elem in path && Live(sc, elem) && h in delegates && sc.test(h.selector.value, elem)
  {
    if path != [] {
      QueuedExactly(sc, delegates, path[1..], elem, h);
      MatchingExactly(sc, delegates, path[0], h);
      var ms := if Live(sc, path[0]) then Matching(sc, delegates, path[0]) else [];
      var front := if ms == [] then [] else [Matched(path[0], ms)];
      var rest := DelegateQueue(sc, delegates, path[1..]);
      assert DelegateQueue(sc, delegates, path) == front + rest;
      assert forall q :: q in front + rest <==> q in front || q in rest;
      if elem == path[0] && h in ms {
        assert Matched(elem, ms) in front + rest;
      }
    }
  }

  lemma {:induction false} MatchingExactly(sc: Scene, delegates: Handlers, cur: Path, h: HandleObj)
    requires forall i :: 0 <= i < |delegates| ==> delegates[i].selector.Some?
    ensures h in Matching(sc, delegates, cur) <==> h in delegates && sc.test(h.selector.value, cur)
  {
    if delegates != [] {
      MatchingExactly(sc, delegates[..|delegates| - 1], cur, h);
      assert delegates == delegates[..|delegates| - 1] + [delegates[|delegates| - 1]];
    }
  }

  /** The matching handlers are those at the matching places, in the order they were bound. */
  lemma {:induction false} MatchingInOrder(sc: Scene, hs: Handlers, cur: Path) returns (at: seq<nat>)
    requires forall i :: 0 <= i < |hs| ==> hs[i].selector.Some?
    ensures Ascending(at) && |at| == |Matching(sc, hs, cur)|
    ensures forall i :: 0 <= i < |at| ==> at[i] < |hs| && Matching(sc, hs, cur)[i] == hs[at[i]]
    ensures forall k :: 0 <= k < |hs| ==> (k in at <==> sc.test(hs[k].selector.value, cur))
  {
    if hs == [] {
      at := [];
    } else {
      var n := |hs| - 1;
      var before := MatchingInOrder(sc, hs[..n], cur);
      at := before + (if sc.test(hs[n].selector.value, cur) then [n] else []);
    }
  }

  lemma {:induction false} ClimbAt(sc: Scene, cur: Path, k: nat)
    requires k < |Climb(sc, cur)|
    ensures k <= |cur| && Climb(sc, cur)[k] == cur[..|cur| - k]
    decreases k
  {
    if k > 0 {
      ClimbAt(sc, Up(cur), k - 1);
      assert Up(cur)[..|cur| - k] == cur[..|cur| - k];
    } else {
      assert cur[..|cur|] == cur;
    }
  }

  /** The entries of a queue are for live elements of the path, in its order, each with the
      element's matching handlers. */
  ghost predicate Follows(sc: Scene, delegates: Handlers, path: seq<Path>, queue: seq<Matched>, at: seq<nat>)
    requires forall i :: 0 <= i < |delegates| ==> delegates[i].selector.Some?
  {
    && Ascending(at) && |at| == |queue|
    && forall i :: 0 <= i < |at| ==>
         at[i] < |path| && queue[i] == Matched(path[at[i]], Matching(sc, delegates, path[at[i]])) && Live(sc, path[at[i]])
  }

  function Later(at: seq<nat>): (r: seq<nat>)
    ensures |r| == |at| && forall i :: 0 <= i < |r| ==> r[i] == at[i] + 1
  {
    seq(|at|, i requires 0 <= i < |at| => at[i] + 1)
  }

  lemma FollowsLater(sc: Scene, delegates: Handlers, path: seq<Path>, queue: seq<Matched>, at: seq<nat>)
    requires forall i :: 0 <= i < |delegates| ==> delegates[i].selector.Some?
    requires path != [] && Follows(sc, delegates, path[1..], queue, at)
    ensures Follows(sc, delegates, path, queue, Later(at))
  {
    hide Matching, Live;
    forall i | 0 <= i < |at| ensures path[Later(at)[i]] == path[1..][at[i]] {
    }
  }

  lemma FollowsFirst(sc: Scene, delegates: Handlers, path: seq<Path>, queue: seq<Matched>, at: seq<nat>)
    requires forall i :: 0 <= i < |delegates| ==> delegates[i].selector.Some?
    requires path != [] && Live(sc, path[0]) && Follows(sc, delegates, path, queue, Later(at))
    ensures Follows(sc, delegates, path, [Matched(path[0], Matching(sc, delegates, path[0]))] + queue, [0] + Later(at))
  {
    hide Matching, Live;
  }

  /** The entries of the queue follow the way up. */
  lemma {:induction false} QueueAt(sc: Scene, delegates: Handlers, path: seq<Path>) returns (at: seq<nat>)
    requires forall i :: 0 <= i < |delegates| ==> delegates[i].selector.Some?
    ensures Follows(sc, delegates, path, DelegateQueue(sc, delegates, path), at)
  {
    hide Matching, Later;
    if path == [] {
      at := [];
    } else {
      var behind := QueueAt(sc, delegates, path[1..]);
      var rest := DelegateQueue(sc, delegates, path[1..]);
      FollowsLater(sc, delegates, path, rest, behind);
      hide Follows;
      QueueStep(sc, delegates, path);
      if Live(sc, path[0]) && Matching(sc, delegates, path[0]) != [] {
        FollowsFirst(sc, delegates, path, rest, behind);
        at := [0] + Later(behind);
      } else {
        assert [] + rest == rest;
        at := Later(behind);
      }
    }
  }

  /** Innermost element first: every entry is for an ancestor of the elements before it, and
      holds the element's matching handlers. */
  lemma QueueInOrder(sc: Scene, delegates: Handlers)
    requires forall i :: 0 <= i < |delegates| ==> delegates[i].selector.Some?
    ensures var queue := DelegateQueue(sc, delegates, Climb(sc, sc.target));
      && (forall i, j :: 0 <= i < j < |queue| ==>
            |queue[j].elem| < |queue[i].elem| && queue[j].elem == queue[i].elem[..|queue[j].elem|])
      && (forall i :: 0 <= i < |queue| ==> queue[i].handlers == Matching(sc, delegates, queue[i].elem))
  {
    hide DelegateQueue, Climb, Matching;
    var path := Climb(sc, sc.target);
    var queue := DelegateQueue(sc, delegates, path);
    var at := QueueAt(sc, delegates, path);
    forall i | 0 <= i < |queue| ensures at[i] <= |sc.target| && queue[i].elem == sc.target[..|sc.target| - at[i]] {
      ClimbAt(sc, sc.target, at[i]);
    }
    forall i, j | 0 <= i < j < |queue|
      ensures |queue[j].elem| < |queue[i].elem| && queue[j].elem == queue[i].elem[..|queue[j].elem|]
    {
      assert at[i] < at[j];
    }
  }

  /* ----- the whole queue, as the handlers bound have it ----- */

  /** The target or an element above it that comes before the one listened on. */
  predicate OnWay(sc: Scene, elem: Path) {
    && |elem| <= |sc.target| && elem == sc.target[..|elem|]
    && forall k :: |elem| <= k <= |sc.target| ==> sc.target[..k] != sc.this_
  }

  /** Bound with a selector the element matches. */
  predicate Wanted(sc: Scene, elem: Path, h: HandleObj) {
    h.selector.Some? && sc.test(h.selector.value, elem)
  }

  function WantedAt(sc: Scene, elem: Path): HandleObj -> bool {
    h => Wanted(sc, elem, h)
  }

  /** The delegated part of a queue, innermost element first: for each live element on the way
      with matching handlers, those in the order they were bound. */
  ghost predicate Outward(sc: Scene, bound: Handlers, queue: seq<Matched>) {
    && (forall i :: 0 <= i < |queue| ==>
         && OnWay(sc, queue[i].elem) && !(sc.isClick && sc.disabled(queue[i].elem))
         && queue[i].handlers != [] && Picks(bound, queue[i].handlers, WantedAt(sc, queue[i].elem)))
    && (forall i, j :: 0 <= i < j < |queue| ==> |queue[j].elem| < |queue[i].elem|)
    && (forall elem, h :: OnWay(sc, elem) && !(sc.isClick && sc.disabled(elem)) && h in bound && Wanted(sc, elem, h) ==>
         exists i :: 0 <= i < |queue| && queue[i].elem == elem)
  }

  /** What a dispatch queues: the delegated part, unless the target is no node or the event a
      click with a button; and then, for the element listened on, all direct handlers. */
  ghost predicate Dispatches(sc: Scene, bound: Handlers, queue: seq<Matched>) {
    var direct := if exists h :: h in bound && h.selector == None then 1 else 0;
    && direct <= |queue|
    && (direct == 1 ==>
         (queue[|queue| - 1].elem == sc.this_ && Picks(bound, queue[|queue| - 1].handlers, NotDelegated())))
    && if sc.targetIsNode && !(sc.isClick && sc.button) then Outward(sc, bound, queue[..|queue| - direct])
       else |queue| == direct
  }

  lemma {:induction false} MatchingPicks(sc: Scene, bound: Handlers, cur: Path)
    ensures forall i :: 0 <= i < |Delegated(bound)| ==> Delegated(bound)[i].selector.Some?
    ensures Picks(bound, Matching(sc, Delegated(bound), cur), WantedAt(sc, cur))
  {
    hide Picks, Matching, Delegated, Wanted;
    DelegatedAre(bound);
    if bound == [] {
      NoMatching(sc, cur);
    } else {
      var n := |bound| - 1;
      DelegatedAre(bound[..n]);
      MatchingPicks(sc, bound[..n], cur);
      PicksMore(bound[..n], Matching(sc, Delegated(bound[..n]), cur), WantedAt(sc, cur), bound[n]);
      assert bound[..n] + [bound[n]] == bound;
      MatchingMore(sc, bound[..n], bound[n], cur);
    }
  }

  lemma NoMatching(sc: Scene, cur: Path)
    ensures Delegated([]) == [] && Picks([], Matching(sc, [], cur), WantedAt(sc, cur))
  {
    PicksNone(WantedAt(sc, cur));
  }

  lemma MatchingMore(sc: Scene, hs: Handlers, h: HandleObj, cur: Path)
    requires forall i :: 0 <= i < |Delegated(hs)| ==> Delegated(hs)[i].selector.Some?
    requires forall i :: 0 <= i < |Delegated(hs + [h])| ==> Delegated(hs + [h])[i].selector.Some?
    ensures Matching(sc, Delegated(hs + [h]), cur) ==
      Matching(sc, Delegated(hs), cur) + (if Wanted(sc, cur, h) then [h] else [])
  {
    PartsMore(hs, h);
    var ds := Delegated(hs);
    if h.selector.Some? {
      assert (ds + [h])[..|ds|] == ds;
    } else {
      assert ds + [] == ds;
    }
    hide Delegated;
  }

  lemma {:induction false} ClimbIs(sc: Scene, cur: Path, elem: Path)
    ensures elem in Climb(sc, cur) <==>
      |elem| <= |cur| && elem == cur[..|elem|] && forall k :: |elem| <= k <= |cur| ==> cur[..k] != sc.this_
    decreases |cur|
  {
    assert cur[..|cur|] == cur;
    if cur != sc.this_ && cur != [] {
      var up := Up(cur);
      ClimbIs(sc, up, elem);
      forall k | 0 <= k <= |up| ensures up[..k] == cur[..k] {
      }
    }
  }

  lemma QueueDispatches(sc: Scene, bound: Handlers)
    ensures forall i :: 0 <= i < |Delegated(bound)| ==> Delegated(bound)[i].selector.Some?
    ensures Dispatches(sc, bound, Queue(sc, Delegated(bound), Direct(bound)))
  {
    hide Delegated, Direct, DelegateQueue, Climb, Picks, Outward, Dispatches;
    DelegatedAre(bound);
    DirectPicks(bound);
    PicksAny(bound, Direct(bound), NotDelegated());
    OutwardQueue(sc, bound);
    var front := if Considered(sc) then DelegateQueue(sc, Delegated(bound), Climb(sc, sc.target)) else [];
    Assembled(sc, bound, front, Direct(bound));
  }

  lemma Assembled(sc: Scene, bound: Handlers, front: seq<Matched>, direct: Handlers)
    requires if sc.targetIsNode && !(sc.isClick && sc.button) then Outward(sc, bound, front) else front == []
    requires Picks(bound, direct, NotDelegated()) && (direct != [] <==> exists h :: h in bound && NotDelegated()(h))
    ensures Dispatches(sc, bound, front + (if direct == [] then [] else [Matched(sc.this_, direct)]))
  {
    hide Picks, Outward;
    assert forall h :: NotDelegated()(h) <==> h.selector == None;
    if direct == [] {
      assert front + [] == front && front[..|front|] == front;
    } else {
      assert (front + [Matched(sc.this_, direct)])[..|front|] == front;
    }
  }

  lemma OutwardQueue(sc: Scene, bound: Handlers)
    ensures forall i :: 0 <= i < |Delegated(bound)| ==> Delegated(bound)[i].selector.Some?
    ensures Outward(sc, bound, DelegateQueue(sc, Delegated(bound), Climb(sc, sc.target)))
  {
    hide Picks, Climb, Matching, DelegateQueue, Delegated, OnWay;
    DelegatedAre(bound);
    var delegates, path := Delegated(bound), Climb(sc, sc.target);
    var queue := DelegateQueue(sc, delegates, path);
    QueueInOrder(sc, delegates);
    forall i | 0 <= i < |queue|
      ensures OnWay(sc, queue[i].elem) && !(sc.isClick && sc.disabled(queue[i].elem))
      ensures queue[i].handlers != [] && Picks(bound, queue[i].handlers, WantedAt(sc, queue[i].elem))
    {
      MatchingPicks(sc, bound, queue[i].elem);
      Queued(sc, delegates, path, i);
      WayIs(sc, queue[i].elem);
    }
    forall elem, h | OnWay(sc, elem) && !(sc.isClick && sc.disabled(elem)) && h in bound && Wanted(sc, elem, h)
      ensures exists i :: 0 <= i < |queue| && queue[i].elem == elem
    {
      WayIs(sc, elem);
      DelegatedIn(bound, h);
      QueuedExactly(sc, delegates, path, elem, h);
      var q :| q in queue && q.elem == elem && h in q.handlers;
    }
  }

  /** For an event inside the element listened on these are the nodes strictly below it. */
  lemma WayBelow(sc: Scene, elem: Path)
    requires |sc.this_| <= |sc.target| && sc.target[..|sc.this_|] == sc.this_
    ensures OnWay(sc, elem) <==> |sc.this_| < |elem| <= |sc.target| && elem == sc.target[..|elem|]
  {
    if |elem| <= |sc.this_| {
      assert sc.target[..|sc.this_|] == sc.this_;
    }
  }

  lemma WayIs(sc: Scene, elem: Path)
    ensures OnWay(sc, elem) <==> elem in Climb(sc, sc.target)
  {
    ClimbIs(sc, sc.target, elem);
  }

  lemma {:induction false} DelegatedIn(hs: Handlers, h: HandleObj)
    requires h in hs && h.selector.Some?
    ensures h in Delegated(hs)
  {
    var n := |hs| - 1;
    if h != hs[n] {
      DelegatedIn(hs[..n], h);
    }
  }

  /** Every entry has handlers and is for a live element of the path. */
  lemma {:induction false} Queued(sc: Scene, delegates: Handlers, path: seq<Path>, i: nat)
    requires forall i :: 0 <= i < |delegates| ==> delegates[i].selector.Some?
    requires i < |DelegateQueue(sc, delegates, path)|
    ensures var q := DelegateQueue(sc, delegates, path)[i]; q.elem in path && Live(sc, q.elem) && q.handlers != []
  {
    hide Matching, Live;
    if path != [] {
      QueueStep(sc, delegates, path);
      var ms := if Live(sc, path[0]) then Matching(sc, delegates, path[0]) else [];
      var front := if ms == [] then [] else [Matched(path[0], ms)];
      if i >= |front| {
        Queued(sc, delegates, path[1..], i - |front|);
        assert forall e :: e in path[1..] ==> e in path;
      }
    }
  }
}
