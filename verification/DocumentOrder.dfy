/** Sizzle's fallback comparator, by ancestor chains, and `uniqueSort`. */
module DocumentOrder {
  import opened Dom

  /** The nodes of the tree in preorder. */
  function Preorder(t: Tree): seq<Path> {
    [[]] + Below(t, |t.kids|)
  }

  /** The nodes below the first `n` children of the root, in preorder. */
  function Below(t: Tree, n: nat): seq<Path>
    requires n <= |t.kids|
    decreases t, n
  {
    if n == 0 then [] else Below(t, n - 1) + Under(n - 1, Preorder(t.kids[n - 1]))
  }

  function Under(k: nat, ps: seq<Path>): (r: seq<Path>)
    ensures |r| == |ps| && forall i :: 0 <= i < |ps| ==> r[i] == [k] + ps[i]
  {
    if ps == [] then [] else [[k] + ps[0]] + Under(k, ps[1..])
  }

  /** A node comes before what is below it, and what is below a child before what is below a later one. */
  predicate Precedes(a: Path, b: Path) {
    b != [] && (a == [] || a[0] < b[0] || (a[0] == b[0] && Precedes(a[1..], b[1..])))
  }

  lemma {:induction false} PrecedesTotal(a: Path, b: Path)
    ensures a == b <==> !Precedes(a, b) && !Precedes(b, a)
    ensures !(Precedes(a, b) && Precedes(b, a))
  {
    if a != [] && b != [] {
      assert a == [a[0]] + a[1..] && b == [b[0]] + b[1..];
      PrecedesTotal(a[1..], b[1..]);
    }
  }

  lemma {:induction false} PrecedesTransitive(a: Path, b: Path, c: Path)
    requires Precedes(a, b) && Precedes(b, c)
    ensures Precedes(a, c)
  {
    if a != [] && a[0] == b[0] == c[0] {
      PrecedesTransitive(a[1..], b[1..], c[1..]);
    }
  }

  ghost predicate InOrder(ps: seq<Path>) {
    forall i, j :: 0 <= i < j < |ps| ==> Precedes(ps[i], ps[j])
  }

  lemma ConcatInOrder(front: seq<Path>, back: seq<Path>)
    requires InOrder(front) && InOrder(back)
    requires forall p, q :: p in front && q in back ==> Precedes(p, q)
    ensures InOrder(front + back)
  {
    forall i, j | 0 <= i < |front| && 0 <= j < |back| ensures Precedes(front[i], back[j]) {
      assert front[i] in front && back[j] in back;
    }
  }

  /** `ps` holds exactly the nodes of `t`. */
  ghost predicate Complete(ps: seq<Path>, t: Tree) {
    forall p :: p in ps <==> In(t, p)
  }

  /** `ps` holds exactly the nodes below the first `n` children of `t`. */
  ghost predicate Covers(ps: seq<Path>, t: Tree, n: nat) {
    forall p :: p in ps <==> p != [] && p[0] < n && In(t, p)
  }

  lemma UnderInOrder(t: Tree, k: nat, ps: seq<Path>)
    requires InOrder(ps) && k < |t.kids| && Complete(ps, t.kids[k])
    ensures InOrder(Under(k, ps))
    ensures forall p :: p in Under(k, ps) <==> p != [] && p[0] == k && In(t, p)
  {
    var r := Under(k, ps);
    forall i, j | 0 <= i < j < |r| ensures Precedes(r[i], r[j]) {
      assert r[i][1..] == ps[i] && r[j][1..] == ps[j];
    }
    UnderMembers(t, k, ps);
  }

  lemma UnderMembers(t: Tree, k: nat, ps: seq<Path>)
    requires k < |t.kids| && Complete(ps, t.kids[k])
    ensures forall p :: p in Under(k, ps) <==> p != [] && p[0] == k && In(t, p)
  {
    var r := Under(k, ps);
    forall p ensures p in r <==> p != [] && p[0] == k && In(t, p) {
      if p in r {
        var i :| 0 <= i < |r| && r[i] == p;
        assert p[1..] == ps[i];
      }
      if p != [] && p[0] == k && In(t, p) {
        assert p[1..] in ps;
        var i :| 0 <= i < |ps| && ps[i] == p[1..];
        assert r[i] == p;
      }
    }
  }

  lemma Join(t: Tree, n: nat, front: seq<Path>, ps: seq<Path>)
    requires 0 < n <= |t.kids| && InOrder(front) && Covers(front, t, n - 1)
    requires InOrder(ps) && Complete(ps, t.kids[n - 1])
    ensures InOrder(front + Under(n - 1, ps)) && Covers(front + Under(n - 1, ps), t, n)
  {
    UnderInOrder(t, n - 1, ps);
    hide In, InOrder, Complete, Under;
    ConcatInOrder(front, Under(n - 1, ps));
  }

  /** The preorder list holds exactly the nodes of the tree, and `Precedes` is its order. */
  lemma {:induction false} PreorderIsPrecedes(t: Tree)
    ensures Complete(Preorder(t), t)
    ensures InOrder(Preorder(t))
    decreases t, |t.kids| + 1
  {
    BelowIsPrecedes(t, |t.kids|);
    var root: Path := [];
    forall p ensures p in Preorder(t) <==> In(t, p) {
      assert p in Preorder(t) <==> p == root || p in Below(t, |t.kids|);
    }
    ConcatInOrder([root], Below(t, |t.kids|));
  }

  lemma {:induction false} BelowIsPrecedes(t: Tree, n: nat)
    requires n <= |t.kids|
    ensures Covers(Below(t, n), t, n)
    ensures InOrder(Below(t, n))
    decreases t, n
  {
    hide *;
    BelowStep(t, n);
    if n > 0 {
      BelowIsPrecedes(t, n - 1);
      PreorderIsPrecedes(t.kids[n - 1]);
      Join(t, n, Below(t, n - 1), Preorder(t.kids[n - 1]));
    }
  }

  lemma BelowStep(t: Tree, n: nat)
    requires n <= |t.kids|
    ensures n == 0 ==> Covers(Below(t, n), t, n) && InOrder(Below(t, n))
    ensures n > 0 ==> Below(t, n) == Below(t, n - 1) + Under(n - 1, Preorder(t.kids[n - 1]))
  {
  }

  /* ----- the comparator ----- */

  /** What the comparator is called with: the tree, and whether its root is the document. */
  datatype Scene = Scene(tree: Tree, rootIsDoc: bool)

  /** In a detached tree, whose root is not the document, the root sorts last. */
  predicate Earlier(sc: Scene, a: Path, b: Path) {
    if sc.rootIsDoc || (a != [] && b != []) then Precedes(a, b) else a != []
  }

  function Order(sc: Scene, a: Path, b: Path): int {
    if a == b then 0 else if Earlier(sc, a, b) then -1 else 1
  }

  /** Where two nodes' paths part, that place decides. */
  lemma {:induction false} PartingDecides(a: Path, b: Path, k: nat)
    requires a != b && k <= |a| && k <= |b| && a[..k] == b[..k]
    requires k == |a| || k == |b| || a[k] != b[k]
    ensures Precedes(a, b) <==> k == |a| || (k < |b| && a[k] < b[k])
  {
    if k == 0 {
    } else {
      assert a[0] == a[..k][0] == b[..k][0] == b[0];
      assert a[1..][..k - 1] == a[..k][1..] && b[1..][..k - 1] == b[..k][1..];
      assert a == [a[0]] + a[1..] && b == [b[0]] + b[1..];
      PartingDecides(a[1..], b[1..], k - 1);
    }
  }

  lemma {:induction false} PrefixIn(t: Tree, p: Path, n: nat)
    requires n <= |p| && In(t, p)
    ensures In(t, p[..n])
    decreases |p| - n
  {
    if n == |p| {
      assert p[..n] == p;
    } else {
      PrefixIn(t, p, n + 1);
      InByParent(t, p[..n + 1]);
      assert Up(p[..n + 1]) == p[..n];
    }
  }

  /** `siblingCheck` on two children of one parent, or on a node and a missing one. */
  method SiblingCheck(t: Tree, a: Option<Path>, b: Option<Path>) returns (r: int)
    requires a.Some? || b.Some?
    requires a.Some? && b.Some? ==>
      a != b && a.value != [] && b.value != [] && Up(a.value) == Up(b.value) && In(t, a.value) && In(t, b.value)
    ensures r == -1 || r == 1
    ensures a == None ==> r == -1
    ensures b == None ==> r == 1
    ensures a.Some? && b.Some? ==> (r == -1 <==> Last(a.value) < Last(b.value))
  {
    if a.Some? && b.Some? {
      var up := Up(a.value);
      InByParent(t, a.value);
      InByParent(t, b.value);
      assert a.value == up + [Last(a.value)] && b.value == up + [Last(b.value)];
      ghost var kids := |At(t, up).kids|;
      var cur := NextSibling(t, a.value);
      ghost var k := Last(a.value) + 1;
      InByParent(t, up + [k]);
      while cur.Some?
        invariant Last(a.value) < k <= kids && cur == (if k < kids then Some(up + [k]) else None)
        invariant Last(b.value) < k ==> Last(b.value) < Last(a.value)
        decreases kids - k
      {
        if cur == b {
          return -1;
        }
        InByParent(t, up + [k + 1]);
        assert Up(up + [k]) == up;
        cur := NextSibling(t, cur.value);
        k := k + 1;
      }
    }
    r := if a.Some? then 1 else -1;
  }

  /** The chain of ancestors of `p`, from the root down to `p` itself. */
  function Chain(p: Path): (c: seq<Path>)
    ensures |c| == |p| + 1
    ensures forall i :: 0 <= i <= |p| ==> c[i] == p[..i]
  {
    seq(|p| + 1, i requires 0 <= i <= |p| => p[..i])
  }

  /** The loops that collect the ancestors with `unshift`. */
  method Ancestors(p: Path) returns (chain: seq<Path>)
    ensures chain == Chain(p)
  {
    chain := [p];
    var cur := p;
    while cur != []
      invariant |cur| <= |p| && cur == p[..|cur|]
      invariant |chain| == |p| - |cur| + 1
      invariant forall i :: |cur| <= i <= |p| ==> chain[i - |cur|] == p[..i]
      decreases |cur|
    {
      cur := Up(cur);
      chain := [cur] + chain;
    }
  }

  function Entry(ps: seq<Path>, i: nat): Option<Path> {
    if i < |ps| then Some(ps[i]) else None
  }

  method SortOrder(sc: Scene, a: Path, b: Path) returns (r: int, identical: bool)
    requires In(sc.tree, a) && In(sc.tree, b)
    ensures r == Order(sc, a, b)
    ensures identical <==> a == b
  {
    hide In, At;
    identical := a == b;
    if a == b {
      return 0, true;
    } else if a == [] || b == [] {
      return
        if a == [] && sc.rootIsDoc then -1
        else if b == [] && sc.rootIsDoc then 1
        else if a != [] then -1
        else if b != [] then 1
        else 0, false;
    } else if Up(a) == Up(b) {
      r := SiblingCheck(sc.tree, Some(a), Some(b));
      PartingDecides(a, b, |a| - 1);
      return;
    }
    var ap := Ancestors(a);
    var bp := Ancestors(b);
    var i := 0;
    while Entry(ap, i) == Entry(bp, i)
      invariant 0 <= i <= |a| + 1 && i <= |b| + 1
      invariant i > 0 ==> a[..i - 1] == b[..i - 1]
      decreases |a| + 1 - i
    {
      assert a == a[..|a|] && b == b[..|b|];
      i := i + 1;
    }
    assert ap[0] == bp[0] == [] && i > 0;
    Discrepancy(sc.tree, a, b, i);
    r := SiblingCheck(sc.tree, Entry(ap, i), Entry(bp, i));
  }

  /** The chains agree before place `i` and differ there. */
  lemma Discrepancy(t: Tree, a: Path, b: Path, i: nat)
    requires In(t, a) && In(t, b) && a != b && 0 < i <= |a| + 1 && i <= |b| + 1
    requires a[..i - 1] == b[..i - 1] && Entry(Chain(a), i) != Entry(Chain(b), i)
    ensures i <= |a| || i <= |b|
    ensures i <= |a| ==> In(t, a[..i]) && Up(a[..i]) == a[..i - 1] && Last(a[..i]) == a[i - 1]
    ensures i <= |b| ==> In(t, b[..i]) && Up(b[..i]) == b[..i - 1] && Last(b[..i]) == b[i - 1]
    ensures Precedes(a, b) <==> i == |a| + 1 || (i <= |b| && a[i - 1] < b[i - 1])
  {
    hide In, Precedes, Chain, Entry, Up, Last;
    EntriesDiffer(a, b, i);
    if i <= |a| {
      OnChain(t, a, i);
    }
    if i <= |b| {
      OnChain(t, b, i);
    }
    PartingDecides(a, b, i - 1);
  }

  lemma EntriesDiffer(a: Path, b: Path, i: nat)
    requires 0 < i <= |a| + 1 && i <= |b| + 1
    requires a[..i - 1] == b[..i - 1] && Entry(Chain(a), i) != Entry(Chain(b), i)
    ensures i <= |a| || i <= |b|
    ensures i <= |a| && i <= |b| ==> a[i - 1] != b[i - 1]
  {
    if i <= |a| && i <= |b| {
      assert a[..i] == a[..i - 1] + [a[i - 1]] && b[..i] == b[..i - 1] + [b[i - 1]];
    }
  }

  lemma OnChain(t: Tree, p: Path, i: nat)
    requires In(t, p) && 0 < i <= |p|
    ensures In(t, p[..i]) && Up(p[..i]) == p[..i - 1] && Last(p[..i]) == p[i - 1]
  {
    PrefixIn(t, p, i);
    assert p[..i][..i - 1] == p[..i - 1];
  }

  /** Negative exactly when the first node is earlier in preorder; in a detached tree this
      fails exactly for the pairs with its root. */
  lemma OrderIsPreorder(sc: Scene, i: nat, j: nat)
    requires i < |Preorder(sc.tree)| && j < |Preorder(sc.tree)| && i != j
    ensures var a, b := Preorder(sc.tree)[i], Preorder(sc.tree)[j];
            (Order(sc, a, b) < 0 <==> i < j) <==> sc.rootIsDoc || (a != [] && b != [])
  {
    var a, b := Preorder(sc.tree)[i], Preorder(sc.tree)[j];
    PreorderIsPrecedes(sc.tree);
    PrecedesTotal(a, b);
  }

  /** An input: the root of a detached tree is put after its child. */
  lemma DetachedRoot()
    ensures var t := Node(ELEMENT_NODE, [Node(ELEMENT_NODE, [])]);
            Preorder(t) == [[], [0]] && Order(Scene(t, false), [], [0]) > 0
  {
    var leaf := Node(ELEMENT_NODE, []);
    var t := Node(ELEMENT_NODE, [leaf]);
    assert Below(t, 0) == [] && Preorder(leaf) == [[]];
    var none: Path := [];
    assert [0] + none == [0];
    assert Under(0, [none])[0] == [0] && Under(0, [none]) == [[0]];
    assert Below(t, 1) == [] + [[0]];
  }

  /** A strict total order in either kind of tree. */
  lemma OrderIsTotal(sc: Scene, a: Path, b: Path, c: Path)
    ensures Order(sc, a, b) == 0 <==> a == b
    ensures Order(sc, a, b) == -Order(sc, b, a)
    ensures Order(sc, a, b) < 0 && Order(sc, b, c) < 0 ==> Order(sc, a, c) < 0
  {
    PrecedesTotal(a, b);
    PrecedesTotal(b, c);
    PrecedesTotal(a, c);
    if Precedes(a, b) && Precedes(b, c) {
      PrecedesTransitive(a, b, c);
    }
  }

  /* ----- uniqueSort ----- */

  ghost predicate Ordered(sc: Scene, ps: seq<Path>) {
    forall i, j :: 0 <= i < j < |ps| ==> Order(sc, ps[i], ps[j]) <= 0
  }

  ghost predicate Increasing(sc: Scene, ps: seq<Path>) {
    forall i, j :: 0 <= i < j < |ps| ==> Order(sc, ps[i], ps[j]) < 0
  }

  /** The nodes of `ps` that are in `keep`, in the order of `ps`. */
  function Keep(ps: seq<Path>, keep: set<Path>): seq<Path> {
    if ps == [] then [] else (if ps[0] in keep then [ps[0]] else []) + Keep(ps[1..], keep)
  }

  /** `sorted` is what the engine's `sort` makes of the results with this comparator, and
      `hasDuplicate` says whether it may have met two identical nodes while comparing. */
  method UniqueSort(sc: Scene, sorted: seq<Path>, hasDuplicate: bool) returns (results: seq<Path>)
    requires Ordered(sc, sorted)
    requires (exists i, j :: 0 <= i < j < |sorted| && sorted[i] == sorted[j]) ==> hasDuplicate
    ensures Increasing(sc, results)
    ensures forall p :: p in results <==> p in sorted
    ensures sc.rootIsDoc && (forall p :: p in sorted ==> In(sc.tree, p)) ==>
      results == Keep(Preorder(sc.tree), set p | p in sorted)
  {
    results := sorted;
    if hasDuplicate {
      results := RemoveDuplicates(sorted);
      CompactIncreasing(sc, sorted, 0);
    } else {
      forall i, j | 0 <= i < j < |sorted| ensures Order(sc, sorted[i], sorted[j]) < 0 {
        OrderIsTotal(sc, sorted[i], sorted[j], sorted[j]);
      }
    }
    if sc.rootIsDoc && forall p :: p in sorted ==> In(sc.tree, p) {
      KeptPreorder(sc, results, set p | p in sorted);
    }
  }

  /** The two loops of `uniqueSort`: note the places to drop, then splice from the back. */
  method RemoveDuplicates(sorted: seq<Path>) returns (results: seq<Path>)
    ensures results == Compact(sorted, 0)
  {
    hide RepeatsUpTo, Compact, Repeats;
    results := sorted;
    var duplicates: seq<nat> := [];
    var i := 1;
    NoneYet(sorted);
    while i < |results|
      invariant 1 <= i <= (if |sorted| == 0 then 1 else |sorted|) && results == sorted
      invariant RepeatsUpTo(sorted, i, duplicates)
    {
      OneMorePlace(sorted, i, duplicates);
      if results[i] == results[i - 1] {
        duplicates := duplicates + [i];
      }
      i := i + 1;
    }
    var j := |duplicates|;
    ghost var m := |sorted|;
    NothingLeft(sorted);
    while j > 0
      invariant 0 <= j <= |duplicates|
      invariant m == (if j < |duplicates| then duplicates[j] else |sorted|)
      invariant m <= |sorted| && results == sorted[..m] + Compact(sorted, m)
    {
      j := j - 1;
      SpliceDuplicate(sorted, duplicates, j, m);
      SplicePlace(sorted, duplicates, j, m);
      results := results[..duplicates[j]] + results[duplicates[j] + 1..];
      m := duplicates[j];
    }
    NoneBefore(sorted, duplicates, m);
    CompactRun(sorted, 0, m);
  }

  lemma NoneYet(s: seq<Path>)
    ensures RepeatsUpTo(s, 1, [])
  {
  }

  lemma OneMorePlace(s: seq<Path>, n: nat, duplicates: seq<nat>)
    requires 1 <= n < |s| && RepeatsUpTo(s, n, duplicates)
    ensures RepeatsUpTo(s, n + 1, if s[n] == s[n - 1] then duplicates + [n] else duplicates)
  {
    hide Repeats;
    RepeatsAt(s, n);
    var more := if s[n] == s[n - 1] then duplicates + [n] else duplicates;
    forall d | 0 <= d < n + 1 && Repeats(s, d) ensures d in more {
      if d == n {
        assert more[|duplicates|] == n;
      } else {
        var k :| 0 <= k < |duplicates| && duplicates[k] == d;
        assert more[k] == d;
      }
    }
  }

  lemma RepeatsAt(s: seq<Path>, n: nat)
    requires 1 <= n < |s|
    ensures Repeats(s, n) <==> s[n] == s[n - 1]
  {
  }

  lemma NothingLeft(s: seq<Path>)
    ensures s[..|s|] + Compact(s, |s|) == s
  {
  }

  lemma SplicePlace(s: seq<Path>, duplicates: seq<nat>, j: nat, m: nat)
    requires RepeatsUpTo(s, if |s| == 0 then 1 else |s|, duplicates) && j < |duplicates|
    ensures duplicates[j] < |s|
  {
  }

  lemma NoneBefore(s: seq<Path>, duplicates: seq<nat>, m: nat)
    requires RepeatsUpTo(s, if |s| == 0 then 1 else |s|, duplicates)
    requires m == (if 0 < |duplicates| then duplicates[0] else |s|)
    ensures m <= |s| && forall d :: 0 <= d < m ==> !Repeats(s, d)
  {
  }

  predicate Repeats(s: seq<Path>, d: nat) {
    1 <= d < |s| && s[d] == s[d - 1]
  }

  /** From place `k` on, the entries that do not repeat the one before. */
  function Compact(s: seq<Path>, k: nat): seq<Path>
    requires k <= |s|
    decreases |s| - k
  {
    if k == |s| then [] else (if Repeats(s, k) then [] else [s[k]]) + Compact(s, k + 1)
  }

  /** `duplicates` lists, in increasing order, the places below `n` that repeat the one before. */
  ghost predicate RepeatsUpTo(s: seq<Path>, n: nat, duplicates: seq<nat>) {
    && (forall k :: 0 <= k < |duplicates| ==> duplicates[k] < n && Repeats(s, duplicates[k]))
    && (forall d :: 0 <= d < n && Repeats(s, d) ==> d in duplicates)
    && (forall k, l :: 0 <= k < l < |duplicates| ==> duplicates[k] < duplicates[l])
  }

  /** Where nothing repeats nothing is dropped. */
  lemma {:induction false} CompactRun(s: seq<Path>, lo: nat, hi: nat)
    requires lo <= hi <= |s| && forall d :: lo <= d < hi ==> !Repeats(s, d)
    ensures Compact(s, lo) == s[lo..hi] + Compact(s, hi)
    decreases hi - lo
  {
    if lo < hi {
      CompactRun(s, lo + 1, hi);
      assert s[lo..hi] == [s[lo]] + s[lo + 1..hi];
      Regroup(s[lo], s[lo + 1..hi], Compact(s, hi));
    }
  }

  lemma Between(s: seq<Path>, duplicates: seq<nat>, j: nat, m: nat)
    requires RepeatsUpTo(s, if |s| == 0 then 1 else |s|, duplicates) && j < |duplicates|
    requires m == (if j + 1 < |duplicates| then duplicates[j + 1] else |s|) && m <= |s|
    ensures duplicates[j] < m && duplicates[j] < |s| && Repeats(s, duplicates[j])
    ensures forall d :: duplicates[j] < d < m ==> !Repeats(s, d)
  {
    assert forall k :: 0 <= k < j ==> duplicates[k] < duplicates[j];
    assert forall k :: j + 1 < k < |duplicates| ==> duplicates[k] > m;
  }

  lemma SpliceDuplicate(s: seq<Path>, duplicates: seq<nat>, j: nat, m: nat)
    requires RepeatsUpTo(s, if |s| == 0 then 1 else |s|, duplicates) && j < |duplicates|
    requires m == (if j + 1 < |duplicates| then duplicates[j + 1] else |s|) && m <= |s|
    ensures duplicates[j] < m
    ensures var r := s[..m] + Compact(s, m);
            r[..duplicates[j]] + r[duplicates[j] + 1..] == s[..duplicates[j]] + Compact(s, duplicates[j])
  {
    hide RepeatsUpTo, Compact, Repeats;
    var lo := duplicates[j];
    Between(s, duplicates, j, m);
    CompactRun(s, lo + 1, m);
    CompactSkips(s, lo);
    var front, mid, back := s[..lo], s[lo + 1..m], Compact(s, m);
    TakeApart(s, lo, m);
    DropAt(s[..m] + back, front, s[lo], mid, back);
  }

  lemma CompactSkips(s: seq<Path>, d: nat)
    requires Repeats(s, d)
    ensures d < |s| && Compact(s, d) == Compact(s, d + 1)
  {
  }

  lemma TakeApart(s: seq<Path>, lo: nat, m: nat)
    requires lo < m <= |s|
    ensures s[..m] == s[..lo] + [s[lo]] + s[lo + 1..m]
  {
  }

  lemma DropAt(r: seq<Path>, front: seq<Path>, p: Path, mid: seq<Path>, back: seq<Path>)
    requires r == front + [p] + mid + back
    ensures r[..|front|] + r[|front| + 1..] == front + (mid + back)
  {
    assert r[..|front|] == front;
    assert r[|front| + 1..] == mid + back;
  }

  lemma Regroup(p: Path, mid: seq<Path>, back: seq<Path>)
    ensures [p] + (mid + back) == [p] + mid + back
  {
  }

  lemma IncreasingCons(sc: Scene, p: Path, ps: seq<Path>)
    requires Increasing(sc, ps) && forall q :: q in ps ==> Order(sc, p, q) < 0
    ensures Increasing(sc, [p] + ps)
  {
    assert forall j :: 0 <= j < |ps| ==> ps[j] in ps;
  }

  lemma {:induction false} CompactIncreasing(sc: Scene, s: seq<Path>, k: nat)
    requires k <= |s| && Ordered(sc, s)
    ensures Increasing(sc, Compact(s, k))
    ensures forall p :: p in Compact(s, k) ==> p in s[k..] && (k > 0 ==> Order(sc, s[k - 1], p) < 0)
    ensures forall p :: p in s[k..] ==> p in Compact(s, k) || (k > 0 && p == s[k - 1])
    decreases |s| - k
  {
    if k < |s| {
      CompactIncreasing(sc, s, k + 1);
      assert s[k..] == [s[k]] + s[k + 1..];
      IncreasingCons(sc, s[k], Compact(s, k + 1));
      if k > 0 {
        OrderIsTotal(sc, s[k - 1], s[k], s[k]);
        forall p | p in Compact(s, k) ensures Order(sc, s[k - 1], p) < 0 {
          OrderIsTotal(sc, s[k - 1], s[k], p);
        }
      }
    }
  }

  /** Nodes of the tree in strict document order are the kept part of the preorder list. */
  lemma KeptPreorder(sc: Scene, ps: seq<Path>, keep: set<Path>)
    requires sc.rootIsDoc && Increasing(sc, ps)
    requires forall p :: p in ps <==> p in keep
    requires forall p :: p in keep ==> In(sc.tree, p)
    ensures ps == Keep(Preorder(sc.tree), keep)
  {
    var all := Preorder(sc.tree);
    PreorderIsPrecedes(sc.tree);
    forall i, j | 0 <= i < j < |all| ensures Order(sc, all[i], all[j]) < 0 {
      PrecedesTotal(all[i], all[j]);
    }
    KeepIncreasing(sc, all, keep);
    SameIncreasing(sc, ps, Keep(all, keep));
  }

  lemma {:induction false} KeepIncreasing(sc: Scene, ps: seq<Path>, keep: set<Path>)
    requires Increasing(sc, ps)
    ensures Increasing(sc, Keep(ps, keep))
    ensures forall p :: p in Keep(ps, keep) <==> p in ps && p in keep
  {
    if ps != [] {
      KeepIncreasing(sc, ps[1..], keep);
      IncreasingCons(sc, ps[0], Keep(ps[1..], keep));
    }
  }

  lemma {:induction false} SameIncreasing(sc: Scene, s: seq<Path>, t: seq<Path>)
    requires Increasing(sc, s) && Increasing(sc, t)
    requires forall p :: p in s <==> p in t
    ensures s == t
  {
    assert t != [] ==> t[0] in s;
    if s != [] {
      assert s[0] in t;
      assert s[0] in t && t[0] in s;
      OrderIsTotal(sc, s[0], t[0], s[0]);
      assert s[0] == t[0];
      forall p ensures p in s[1..] <==> p in t[1..] {
        assert p in s[1..] ==> p in s && Order(sc, s[0], p) < 0;
        assert p in t[1..] ==> p in t && Order(sc, t[0], p) < 0;
        OrderIsTotal(sc, s[0], s[0], p);
      }
      SameIncreasing(sc, s[1..], t[1..]);
      assert s == [s[0]] + s[1..] && t == [t[0]] + t[1..];
    }
  }
}
