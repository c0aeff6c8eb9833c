/** `:nth-child(an+b)` and `:nth-last-child(an+b)` with the positions remembered between calls. */
module NthChild {
  import opened Arithmetic
  import opened Dom

  function Kids(t: Tree, parent: Path): seq<Tree>
    requires In(t, parent)
  {
    At(t, parent).kids
  }

  /** How many of the children from place `lo` up to, not including, place `hi` are elements. */
  function Elements(kids: seq<Tree>, lo: nat, hi: nat): nat
    requires lo <= hi <= |kids|
    decreases hi
  {
    if lo == hi then 0
    else Elements(kids, lo, hi - 1) + (if kids[hi - 1].nodeType == ELEMENT_NODE then 1 else 0)
  }

  lemma {:induction false} ElementsSplit(kids: seq<Tree>, lo: nat, mid: nat, hi: nat)
    requires lo <= mid <= hi <= |kids|
    ensures Elements(kids, lo, hi) == Elements(kids, lo, mid) + Elements(kids, mid, hi)
    decreases hi
  {
    if mid < hi {
      ElementsSplit(kids, lo, mid, hi - 1);
    }
  }

  /** The place of an element among its element siblings, counted from 1. */
  function Position(t: Tree, p: Path): nat
    requires p != [] && In(t, p)
  {
    InByParent(t, p);
    Elements(Kids(t, Up(p)), 0, Last(p) + 1)
  }

  /** The same, counted from the last sibling. */
  function PositionFromLast(t: Tree, p: Path): nat
    requires p != [] && In(t, p)
  {
    InByParent(t, p);
    var kids := Kids(t, Up(p));
    Elements(kids, Last(p), |kids|)
  }

  /** Section 6.6.5.2 of Selectors Level 3: position a*n+b for some n >= 0. */
  ghost predicate Cycle(position: int, a: int, b: int) {
    exists n: nat :: position == a * n + b
  }

  /* ----- the final test ----- */

  function Abs(x: int): nat {
    if x < 0 then -x else x
  }

  /** The source language's `%`: the sign is that of the dividend. */
  function Remainder(x: int, y: int): int
    requires y != 0
  {
    if x >= 0 then x % Abs(y) else -((-x) % Abs(y))
  }

  /** `diff === first || (diff % first === 0 && diff / first >= 0)`, where a remainder by zero is not a number. */
  predicate CycleTest(diff: int, first: int) {
    diff == first || (first != 0 && Remainder(diff, first) == 0 && diff as real / first as real >= 0.0)
  }

  lemma CycleTestIsCycle(position: int, first: int, last: int)
    ensures CycleTest(position - last, first) <==> Cycle(position, first, last)
  {
    var diff := position - last;
    if first == 0 {
      assert diff == 0 ==> position == 0 * 0 + last;
    } else {
      if CycleTest(diff, first) {
        var n := Quotient(diff, first);
        assert position == first * n + last;
      }
      if Cycle(position, first, last) {
        var n: nat :| position == first * n + last;
        Multiple(first, n);
      }
    }
  }

  lemma Quotient(diff: int, first: int) returns (n: nat)
    requires first != 0 && CycleTest(diff, first)
    ensures diff == first * n
  {
    if diff == first {
      n := 1;
    } else {
      var d, f := diff as real, first as real;
      SignOfQuotient(d, f);
      n := Abs(diff) / Abs(first);
      assert Abs(diff) == Abs(first) * n + Abs(diff) % Abs(first);
    }
  }

  lemma SignOfQuotient(d: real, f: real)
    requires f != 0.0
    ensures d / f >= 0.0 <==> d == 0.0 || (d > 0.0 <==> f > 0.0)
  {
    var q := d / f;
    assert q * f == d;
    if q > 0.0 && f > 0.0 { assert q * f > 0.0; }
    if q > 0.0 && f < 0.0 { assert q * (-f) > 0.0; }
    if q < 0.0 && f > 0.0 { assert (-q) * f > 0.0; }
    if q < 0.0 && f < 0.0 { assert (-q) * (-f) > 0.0; }
  }

  lemma Multiple(first: int, n: nat)
    requires first != 0
    ensures CycleTest(first * n, first)
  {
    var diff := first * n;
    MultipleSize(first, n, diff);
    assert Remainder(diff, first) == 0;
    SignOfQuotient(diff as real, first as real);
  }

  lemma MultipleSize(first: int, n: nat, diff: int)
    requires first != 0 && diff == first * n
    ensures Abs(diff) % Abs(first) == 0
    ensures diff == 0 || (diff > 0 <==> first > 0)
  {
    var m := Abs(first);
    assert (-first) * n == -(first * n);
    assert Abs(diff) == n * m;
    DivMod(m, n, 0);
    if n > 0 {
      AtLeast(n, m);
    }
  }

  /* ----- the seek loops ----- */

  /** What `:nth-child` keeps on a parent: the place and the position of the element found last. */
  datatype ParentEntry = ParentEntry(run: nat, nodeIndex: nat, diff: nat)

  /** What `:nth-last-child` keeps on each element it passes. */
  datatype ElementEntry = ElementEntry(run: nat, diff: nat)

  lemma Counted(t: Tree, parent: Path, i: nat)
    requires In(t, parent) && i < |Kids(t, parent)|
    ensures var p: Path := parent + [i];
            In(t, p) && Up(p) == parent
            && Elements(Kids(t, parent), i, |Kids(t, parent)|)
               == Elements(Kids(t, parent), i + 1, |Kids(t, parent)|) + (if IsElement(t, p) then 1 else 0)
            && PositionFromLast(t, p) == Elements(Kids(t, parent), i, |Kids(t, parent)|)
  {
    var p: Path := parent + [i];
    assert Up(p) == parent;
    InByParent(t, p);
    ElementsSplit(Kids(t, parent), i, i + 1, |Kids(t, parent)|);
  }

  lemma NoElements(kids: seq<Tree>)
    ensures Elements(kids, 0, 0) == 0
  {
  }

  /** The children of a node, seen from the front. */
  lemma Ahead(t: Tree, parent: Path, i: nat)
    requires In(t, parent)
    ensures var p: Path, kids := parent + [i], Kids(t, parent);
      && Up(p) == parent && (In(t, p) <==> i < |kids|)
      && NextSibling(t, p) == (if i + 1 < |kids| then Some(parent + [i + 1]) else None)
      && (i < |kids| ==> Elements(kids, 0, i + 1) == Elements(kids, 0, i) + (if IsElement(t, p) then 1 else 0))
  {
    var p: Path, q: Path := parent + [i], parent + [i + 1];
    assert Up(p) == parent && Up(q) == parent;
    InByParent(t, p);
    InByParent(t, q);
  }

  /** The loop's condition: the next sibling, or else the start once, with both counts at zero. */
  method Seek(t: Tree, ghost parent: Path, node: Option<Path>, nodeIndex: nat, diff: nat, start: Option<Path>)
    returns (node': Option<Path>, nodeIndex': nat, diff': nat, start': Option<Path>)
    requires In(t, parent) && (node.Some? ==> node.value == parent + [nodeIndex])
    ensures node.Some? && nodeIndex + 1 < |Kids(t, parent)| ==>
      node' == Some(parent + [nodeIndex + 1]) && nodeIndex' == nodeIndex + 1 && diff' == diff && start' == start
    ensures !(node.Some? && nodeIndex + 1 < |Kids(t, parent)|) ==>
      node' == start && nodeIndex' == 0 && diff' == 0 && start' == None
  {
    node', nodeIndex', diff', start' := None, nodeIndex + 1, diff, start;
    if node.Some? {
      Ahead(t, parent, nodeIndex);
      node' := NextSibling(t, node.value);
    }
    if node' == None {
      diff', nodeIndex' := 0, 0;
      node', start' := start, None;
    }
  }

  /** The loop of lines 4708-4718, from a remembered place and its count, or from place 0. */
  method Find(t: Tree, parent: Path, elem: Path, known: nat, count: nat) returns (nodeIndex: nat, diff: nat, ghost restarts: nat)
    requires In(t, parent) && elem != [] && elem == parent + [Last(elem)] && IsElement(t, elem)
    requires known > 0 ==> known < |Kids(t, parent)| && count == Elements(Kids(t, parent), 0, known + 1)
    ensures nodeIndex == Last(elem) < |Kids(t, parent)| && diff == Elements(Kids(t, parent), 0, nodeIndex + 1)
    ensures restarts <= 1
  {
    ghost var kids := Kids(t, parent);
    Ahead(t, parent, 0);
    Ahead(t, parent, Last(elem));
    NoElements(kids);
    nodeIndex, diff, restarts := known, count, 0;
    var start := if In(t, parent + [0]) then Some(parent + [0]) else None;
    var node := if nodeIndex != 0 then Some(parent + [nodeIndex]) else None;
    hide Elements, In, At;
    while true
      invariant start == None || start == Some(parent + [0])
      invariant restarts == if start == None then 1 else 0
      invariant node.Some? ==> node == Some(parent + [nodeIndex]) && nodeIndex < |kids|
                               && diff == Elements(kids, 0, nodeIndex + 1)
      invariant start == None ==> node.Some? && nodeIndex < Last(elem)
      decreases if start == None then 0 else 1, |kids| - nodeIndex, if node.Some? then 1 else 0
    {
      if !(node.Some? && nodeIndex + 1 < |kids|) {
        restarts := restarts + 1;
      }
      node, nodeIndex, diff, start := Seek(t, parent, node, nodeIndex, diff, start);
      if node == None {
        break;
      }
      Ahead(t, parent, nodeIndex);
      if IsElement(t, node.value) {
        diff := diff + 1;
        if node.value == elem {
          assert nodeIndex == Last(elem);
          break;
        }
      }
    }
  }

  class Positions {
    var dirruns: nat
    var onParent: map<Path, ParentEntry>
    var onElement: map<Path, ElementEntry>

    constructor ()
    {
      dirruns, onParent, onElement := 0, map[], map[];
    }

    /** What this run has written is right for the tree, and no entry is from a run to come. */
    ghost predicate Valid(t: Tree)
      reads this
    {
      && NoneAhead()
      && (forall p :: p in onParent && onParent[p].run == dirruns ==>
           In(t, p) && var e := onParent[p];
           e.nodeIndex < |Kids(t, p)| && e.diff == Elements(Kids(t, p), 0, e.nodeIndex + 1))
      && (forall p :: p in onElement && onElement[p].run == dirruns ==>
           p != [] && In(t, p) && onElement[p].diff == PositionFromLast(t, p))
    }

    ghost predicate NoneAhead()
      reads this
    {
      && (forall p :: p in onParent ==> onParent[p].run <= dirruns)
      && (forall p :: p in onElement ==> onElement[p].run <= dirruns)
    }

    /** A new run of the matcher: whatever earlier runs have left is silent, for any tree, so
        the document may have changed in between. */
    method NextRun()
      requires NoneAhead()
      modifies this`dirruns
      ensures dirruns == old(dirruns) + 1 && forall t :: Valid(t)
    {
      dirruns := dirruns + 1;
    }

    /** Lines 4700-4718; `restarts` counts the falls back to the first child. */
    method SeekForward(t: Tree, elem: Path) returns (diff: nat, ghost restarts: nat)
      requires Valid(t) && elem != [] && IsElement(t, elem)
      modifies this`onParent
      ensures Valid(t)
      ensures diff == Position(t, elem)
      ensures restarts <= 1
      ensures onParent == old(onParent)[Up(elem) := ParentEntry(dirruns, Last(elem), diff)]
    {
      var parent: Path := Up(elem);
      InByParent(t, elem);
      assert elem == parent + [Last(elem)];
      ghost var kids := Kids(t, parent);
      assert Position(t, elem) == Elements(kids, 0, Last(elem) + 1);
      var hit := parent in onParent && onParent[parent].run == dirruns;
      var nodeIndex: nat := if hit then onParent[parent].nodeIndex else 0;
      diff := if hit then onParent[parent].diff else 0;
      nodeIndex, diff, restarts := Find(t, parent, elem, nodeIndex, diff);
      onParent := onParent[parent := ParentEntry(dirruns, nodeIndex, diff)];
    }

    /** Line 4733: the position kept on an element that is passed. */
    method Keep(t: Tree, p: Path, diff: nat)
      requires Valid(t) && p != [] && In(t, p) && diff == PositionFromLast(t, p)
      modifies this`onElement
      ensures Valid(t) && onElement == old(onElement)[p := ElementEntry(dirruns, diff)]
    {
      hide Elements, In, PositionFromLast;
      onElement := onElement[p := ElementEntry(dirruns, diff)];
    }

    /** Lines 4721-4740 for `:nth-last-child`: the position kept on the element, or a walk
        back from the last sibling that keeps one on every element it passes. */
    method SeekBackward(t: Tree, elem: Path) returns (diff: nat)
      requires Valid(t) && elem != [] && IsElement(t, elem)
      modifies this`onElement
      ensures Valid(t)
      ensures diff == PositionFromLast(t, elem)
      ensures forall p :: p in old(onElement) ==> p in onElement
      ensures elem in onElement && onElement[elem] == ElementEntry(dirruns, diff)
    {
      if elem in onElement && onElement[elem].run == dirruns {
        return onElement[elem].diff;
      }
      var parent: Path := Up(elem);
      InByParent(t, elem);
      assert elem == parent + [Last(elem)];
      ghost var kids := Kids(t, parent);
      var lastChild: Path := parent + [|At(t, parent).kids| - 1];
      var node := Some(lastChild);
      ghost var i := |kids| - 1;
      diff := 0;
      assert PositionFromLast(t, elem) == Elements(kids, Last(elem), |kids|);
      hide Elements, In, At, PositionFromLast;
      while node.Some?
        invariant Valid(t)
        invariant Last(elem) <= i < |kids| && node == Some(parent + [i]) && diff == Elements(kids, i + 1, |kids|)
        invariant forall p :: p in old(onElement) ==> p in onElement
        decreases i
      {
        Counted(t, parent, i);
        if IsElement(t, node.value) {
          diff := diff + 1;
          Keep(t, node.value, diff);
          if node.value == elem {
            break;
          }
        }
        node := PreviousSibling(node.value);
        i := i - 1;
      }
    }

    /** The matcher for `:nth-child(first n + last)`, or `:nth-last-child` if not `forward`. */
    method Child(t: Tree, elem: Path, forward: bool, first: int, last: int) returns (r: bool)
      requires Valid(t) && IsElement(t, elem)
      modifies this`onParent, this`onElement
      ensures Valid(t)
      ensures r <==> elem != [] && Cycle(if forward then Position(t, elem) else PositionFromLast(t, elem), first, last)
    {
      if first == 1 && last == 0 {
        if elem != [] {
          var n := if forward then Position(t, elem) else PositionFromLast(t, elem);
          assert n == 1 * n + 0;
        }
        return elem != [];
      }
      if elem == [] {
        return false;
      }
      var diff: int;
      if forward {
        ghost var restarts;
        diff, restarts := SeekForward(t, elem);
      } else {
        diff := SeekBackward(t, elem);
      }
      CycleTestIsCycle(diff, first, last);
      diff := diff - last;
      r := CycleTest(diff, first);
    }
  }
}
