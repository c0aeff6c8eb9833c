/** When the short text of an IPv6 address is the one sections 4.2.2 and 4.2.3 of RFC 5952
    recommend: the first of the longest runs of zero groups is replaced, and no single group. */
module IPv6Canonical {
  import IPv6
  import opened IPv6Text
  import opened IPv6Short

  /* ----- the run to replace ----- */

  predicate Block(g: Address, s: int, e: int) {
    0 <= s < e <= |g| && forall i :: s <= i < e ==> g[i] == 0
  }

  lemma BlockAt(g: Address, s: int, e: int, k: int)
    requires Block(g, s, e)
    ensures s <= k < e ==> g[k] == 0
  {
  }

  lemma BlockGrows(g: Address, s: int, e: int)
    requires Block(g, s, e)
    ensures s > 0 && g[s - 1] == 0 ==> Block(g, s - 1, e)
    ensures e < |g| && g[e] == 0 ==> Block(g, s, e + 1)
  {
  }

  /** The first of the longest runs, at least two groups long; (0, 0) if there is none. */
  ghost predicate Best(g: Address, s: int, e: int) {
    if s == e then s == 0 && forall c, d :: Block(g, c, d) ==> d - c < 2
    else
      && Block(g, s, e) && e - s >= 2
      && forall c, d :: Block(g, c, d) ==> d - c < e - s || (d - c == e - s && s <= c)
  }

  /** The first longest run from place `k` on, if longer than the one found. */
  function FirstLongest(g: Address, k: nat, i: nat, j: nat): (nat, nat)
    requires k <= |g|
    decreases |g| - k
  {
    var n := NextZero(g, k);
    if n == |g| then (i, j)
    else
      var e := ZeroEnd(g, n);
      if e - n > j - i then FirstLongest(g, e, n, e) else FirstLongest(g, e, i, j)
  }

  function Recommended(g: Address): (nat, nat) {
    var (s, e) := FirstLongest(g, 0, 0, 0);
    if e - s < 2 then (0, 0) else (s, e)
  }

  lemma {:induction false} FirstLongestIs(g: Address, k: nat, i: nat, j: nat)
    requires k <= |g|
    requires (i == j == 0) || (Block(g, i, j) && j <= k)
    requires 0 < k < |g| ==> g[k - 1] != 0 || g[k] != 0
    requires forall c, d :: Block(g, c, d) && c < k && d <= k ==> d - c < j - i || (d - c == j - i && i <= c)
    ensures var (s, e) := FirstLongest(g, k, i, j);
      && ((s == e == 0) || Block(g, s, e))
      && forall c, d :: Block(g, c, d) ==> d - c < e - s || (d - c == e - s && s <= c)
    decreases |g| - k
  {
    var n := NextZero(g, k);
    if n == |g| {
      forall c, d | Block(g, c, d) ensures c < k && d <= k {
        assert g[d - 1] == 0;
      }
    } else {
      var e := ZeroEnd(g, n);
      assert Block(g, n, e);
      forall c, d | Block(g, c, d) && c < e && d <= e ensures d <= k || n <= c {
        var first := if d <= k then c else if c < k then k else c;
        assert g[first] == 0;
        BlockAt(g, c, d, k - 1);
      }
      if e - n > j - i {
        FirstLongestIs(g, e, n, e);
      } else {
        FirstLongestIs(g, e, i, j);
      }
    }
  }

  lemma RecommendedIsBest(g: Address)
    ensures Best(g, Recommended(g).0, Recommended(g).1) && Recommended(g).0 <= Recommended(g).1 <= |g|
  {
    FirstLongestIs(g, 0, 0, 0);
  }

  lemma BestIsOne(g: Address, s: int, e: int, c: int, d: int)
    requires Best(g, s, e) && Best(g, c, d)
    ensures s == c && e == d
  {
  }

  /* ----- the run the program replaces ----- */

  /** The run that is cut out, with a zero in front of it that the last rewrite takes away. */
  function Effective(g: Address): (nat, nat)
    requires |g| == 8
  {
    var (a, b) := Cut(g);
    if a == 1 && g[0] == 0 then (0, b) else (a, b)
  }

  ghost predicate NoneBehind(g: Address) {
    forall k :: 1 <= k < |g| ==> g[k] != 0
  }

  /** All the zero groups around. */
  predicate Whole(g: Address, s: int, e: int) {
    Block(g, s, e) && (s > 0 ==> g[s - 1] != 0) && (e < |g| ==> g[e] != 0)
  }

  /** The run is two groups or more, and longer than every other even without the first group
      of the address, which the search never looks at. */
  ghost predicate Outdoes(g: Address, s: int, e: int) {
    && Whole(g, s, e) && e - s >= 2
    && forall c, d :: Block(g, c, d) && (d <= s || e <= c) ==> d - c < e - (if s == 0 then 1 else s)
  }

  lemma Apart(g: Address, s: int, e: int, c: int, d: int)
    requires Whole(g, s, e) && Block(g, c, d)
    ensures d <= s || e <= c || (s <= c && d <= e)
  {
    BlockAt(g, c, d, s - 1);
    BlockAt(g, c, d, e);
  }

  /** The program replaces the recommended run exactly when no zero group stands behind the
      first, or some run outdoes all others. */
  lemma CutIsBest(g: Address)
    requires |g| == 8
    ensures Best(g, Effective(g).0, Effective(g).1) <==> NoneBehind(g) || exists s, e :: Outdoes(g, s, e)
  {
    hide Longest;
    CutIsRun(g);
    var (a, b) := Cut(g);
    if NoneBehind(g) {
      NothingCut(g);
    } else if s, e :| Outdoes(g, s, e) {
      OutdoesIsCut(g, s, e);
    } else if Best(g, Effective(g).0, Effective(g).1) {
      BestOutdoes(g);
    }
  }

  lemma NoRun(g: Address, a: int, b: int)
    requires NoneBehind(g)
    ensures !ZeroRun(g, a, b)
  {
    if ZeroRun(g, a, b) {
      RunAt(g, a, b);
    }
  }

  lemma RunAt(g: Address, a: int, b: int)
    requires ZeroRun(g, a, b)
    ensures 1 <= a < |g| && g[a] == 0
  {
  }

  lemma NothingCut(g: Address)
    requires |g| == 8 && NoneBehind(g)
    ensures Effective(g) == (0, 0) && Best(g, 0, 0)
  {
    hide Longest;
    CutIsRun(g);
    var (a, b) := Cut(g);
    NoRun(g, a, b);
    forall c, d | Block(g, c, d) ensures d - c < 2 {
      BlockAt(g, c, d, c + 1);
    }
  }

  lemma OutdoesIsCut(g: Address, s: int, e: int)
    requires |g| == 8 && Outdoes(g, s, e)
    ensures Effective(g) == (s, e) && Best(g, s, e)
  {
    hide Longest;
    CutIsRun(g);
    var (a, b) := Cut(g);
    var from := if s == 0 then 1 else s;
    assert ZeroRun(g, from, e);
    assert ZeroRun(g, a, b) && Block(g, a, b);
    Apart(g, s, e, a, b);
    assert a == from && b == e;
    forall c, d | Block(g, c, d) ensures d - c < e - s || (d - c == e - s && s <= c) {
      Apart(g, s, e, c, d);
    }
  }

  lemma BestOutdoes(g: Address)
    requires |g| == 8 && !NoneBehind(g) && Best(g, Effective(g).0, Effective(g).1)
    ensures Outdoes(g, Effective(g).0, Effective(g).1)
  {
    hide Longest;
    CutIsRun(g);
    var (a, b) := Cut(g);
    var (s, e) := Effective(g);
    var k :| 1 <= k < 8 && g[k] == 0;
    assert ZeroRun(g, k, k + 1);
    assert a < b;
    BlockGrows(g, s, e);
    forall c, d | Block(g, c, d) && (d <= s || e <= c) ensures d - c < e - (if s == 0 then 1 else s) {
      if c >= 1 {
        assert ZeroRun(g, c, d);
      }
    }
  }

  /* ----- the texts ----- */

  /** The text with the groups from `s` to `e` replaced, or with all groups. */
  function Compressed(ts: seq<string>, s: nat, e: nat): string
    requires s <= e <= |ts|
  {
    if s == e then Join(ts) else Gap(ts[..s], ts[e..])
  }

  lemma EffectiveFits(g: Address)
    requires |g| == 8
    ensures Effective(g).0 <= Effective(g).1 <= 8 && (Effective(g).0 == Effective(g).1 ==> Effective(g) == (0, 0))
  {
    hide Longest;
    CutIsRun(g);
  }

  /** What the program prints. */
  lemma PrintsEffective(g: Address)
    requires IPv6.IsGroups(g)
    ensures Effective(g).0 <= Effective(g).1 <= 8
    ensures Shortened(Join(Texts(g))) == Compressed(Texts(g), Effective(g).0, Effective(g).1)
  {
    hide Longest, Shortened, Join, Texts;
    CutIsRun(g);
    ShortText(g);
    EffectiveFits(g);
    var ts := Texts(g);
    assert ts[..0] == [];
  }

  /** The pieces of a text with a gap: an empty one for it, and one more at either end. */
  function GapPieces(left: seq<string>, right: seq<string>): seq<string> {
    (if left == [] then [""] else left) + [""] + (if right == [] then [""] else right)
  }

  lemma GapIsJoin(left: seq<string>, right: seq<string>)
    ensures Gap(left, right) == Join(GapPieces(left, right))
  {
    hide Join;
    JoinEmpty();
    JoinNone();
    var l, r := if left == [] then [""] else left, if right == [] then [""] else right;
    JoinConcat(l + [""], r);
    JoinConcat(l, [""]);
    Colons(Join(l), Join(r));
  }

  lemma JoinNone()
    ensures Join([]) == "" && Join([""]) == ""
  {
  }

  lemma Colons(a: string, b: string)
    ensures a + ":" + "" + ":" + b == a + "::" + b
  {
  }

  /** How many pieces there are before the first empty one. */
  function Front(ps: seq<string>): nat {
    if ps == [] || ps[0] == "" then 0 else 1 + Front(ps[1..])
  }

  lemma {:induction false} FrontOf(a: seq<string>, b: seq<string>)
    requires (forall i :: 0 <= i < |a| ==> a[i] != "") && (b != [] ==> b[0] == "")
    ensures Front(a + b) == |a|
  {
    if a == [] {
      assert a + b == b;
    } else {
      assert (a + b)[1..] == a[1..] + b;
      FrontOf(a[1..], b);
    }
  }

  lemma PiecesOfText(ts: seq<string>, s: nat, e: nat)
    requires s <= e <= |ts| && ts != [] && NoColons(ts) && forall i :: 0 <= i < |ts| ==> ts[i] != ""
    ensures var ps := Pieces(Compressed(ts, s, e));
      if s == e then ps == ts && Front(ps) == |ts|
      else ps == GapPieces(ts[..s], ts[e..]) && Front(ps) == s
  {
    hide Join, Pieces, Front;
    if s == e {
      PiecesJoin(ts);
      FrontOf(ts, []);
      assert ts + [] == ts;
    } else {
      var left, right := ts[..s], ts[e..];
      var ps := GapPieces(left, right);
      GapIsJoin(left, right);
      PiecesJoin(ps);
      FrontOf(left, ps[s..]);
      assert left + ps[s..] == ps;
    }
  }

  /** Different runs give different texts. */
  lemma TextsDiffer(ts: seq<string>, s: nat, e: nat, c: nat, d: nat)
    requires ts != [] && NoColons(ts) && forall i :: 0 <= i < |ts| ==> ts[i] != ""
    requires s <= e <= |ts| && c <= d <= |ts| && (s == e ==> s == 0) && (c == d ==> c == 0)
    requires Compressed(ts, s, e) == Compressed(ts, c, d)
    ensures s == c && e == d
  {
    hide Pieces, Compressed, Front;
    PiecesOfText(ts, s, e);
    PiecesOfText(ts, c, d);
    if s < e && c < d {
      SameRight(ts[..s], ts[e..], ts[d..]);
    }
  }

  lemma SameRight(left: seq<string>, a: seq<string>, b: seq<string>)
    requires GapPieces(left, a) == GapPieces(left, b)
    requires (forall i :: 0 <= i < |a| ==> a[i] != "") && (forall i :: 0 <= i < |b| ==> b[i] != "")
    ensures |a| == |b|
  {
    var ps, qs := GapPieces(left, a), GapPieces(left, b);
    var n := |if left == [] then [""] else left| + 1;
    var x, y := if a == [] then [""] else a, if b == [] then [""] else b;
    assert ps[n..] == x && qs[n..] == y;
    assert x[0] == y[0];
  }

  /** The text printed is the recommended one exactly when no zero group stands behind the
      first, or some run outdoes all others. */
  lemma PrintsRecommended(g: Address)
    requires IPv6.IsGroups(g)
    ensures Recommended(g).0 <= Recommended(g).1 <= 8
    ensures Shortened(Join(Texts(g))) == Compressed(Texts(g), Recommended(g).0, Recommended(g).1)
            <==> NoneBehind(g) || exists s, e :: Outdoes(g, s, e)
  {
    hide Shortened, Join, Texts, Compressed, Effective, Outdoes, NoneBehind;
    PrintsEffective(g);
    EffectiveFits(g);
    CutIsBest(g);
    RecommendedIsBest(g);
    var ts := Texts(g);
    var (a, b) := Effective(g);
    var (s, e) := Recommended(g);
    AllTexts(g);
    if Best(g, a, b) {
      BestIsOne(g, a, b, s, e);
    }
    if Compressed(ts, a, b) == Compressed(ts, s, e) {
      TextsDiffer(ts, a, b, s, e);
    }
  }

  /* ----- inputs ----- */

  lemma {:induction false} Next(g: Address, k: nat, n: nat)
    requires k <= n <= |g| && (n < |g| ==> g[n] == 0) && forall i :: k <= i < n ==> g[i] != 0
    ensures NextZero(g, k) == n
    decreases n - k
  {
    if k < n {
      Next(g, k + 1, n);
    }
  }

  lemma {:induction false} End(g: Address, k: nat, n: nat)
    requires k <= n <= |g| && (n < |g| ==> g[n] != 0) && forall i :: k <= i < n ==> g[i] == 0
    ensures ZeroEnd(g, k) == n
    decreases n - k
  {
    if k < n {
      End(g, k + 1, n);
    }
  }

  /** One run is looked at by both searches. */
  lemma Search(g: Address, k: nat, n: nat, e: nat, i: nat, j: nat)
    requires k <= n < e <= |g| && (e < |g| ==> g[e] != 0)
    requires forall m :: k <= m < n ==> g[m] != 0
    requires forall m :: n <= m < e ==> g[m] == 0
    ensures Longest(g, k, i, j) == if e - n >= j - i then Longest(g, e, n, e) else Longest(g, e, i, j)
    ensures FirstLongest(g, k, i, j) == if e - n > j - i then FirstLongest(g, e, n, e) else FirstLongest(g, e, i, j)
  {
    hide NextZero, ZeroEnd;
    Next(g, k, n);
    End(g, n, e);
  }

  lemma SearchEnds(g: Address, k: nat, i: nat, j: nat)
    requires k <= |g| && forall m :: k <= m < |g| ==> g[m] != 0
    ensures Longest(g, k, i, j) == FirstLongest(g, k, i, j) == (i, j)
  {
    hide NextZero, ZeroEnd;
    Next(g, k, |g|);
  }

  /** A single zero group is replaced. */
  lemma SingleGroup()
    ensures var g := [1, 0, 1, 1, 1, 1, 1, 1]; Effective(g) == (1, 2) && Recommended(g) == (0, 0)
  {
    hide Longest, FirstLongest;
    var g := [1, 0, 1, 1, 1, 1, 1, 1];
    Search(g, 0, 1, 2, 0, 0);
    Search(g, 1, 1, 2, 0, 0);
    SearchEnds(g, 2, 1, 2);
  }

  /** Of two equal runs the last one is replaced. */
  lemma EqualRuns()
    ensures var g := [1, 0, 0, 1, 1, 0, 0, 1]; Effective(g) == (5, 7) && Recommended(g) == (1, 3)
  {
    hide Longest, FirstLongest;
    var g := [1, 0, 0, 1, 1, 0, 0, 1];
    Search(g, 0, 1, 3, 0, 0);
    Search(g, 1, 1, 3, 0, 0);
    Search(g, 3, 5, 7, 1, 3);
    SearchEnds(g, 7, 1, 3);
    SearchEnds(g, 7, 5, 7);
  }

  /** The longest run is missed when it begins with the first group. */
  lemma FirstGroupMissed()
    ensures var g := [0, 0, 0, 1, 0, 0, 1, 1]; Effective(g) == (4, 6) && Recommended(g) == (0, 3)
  {
    hide Longest, FirstLongest;
    var g := [0, 0, 0, 1, 0, 0, 1, 1];
    Search(g, 0, 0, 3, 0, 0);
    Search(g, 1, 1, 3, 0, 0);
    Search(g, 3, 4, 6, 0, 3);
    Search(g, 3, 4, 6, 1, 3);
    SearchEnds(g, 6, 0, 3);
    SearchEnds(g, 6, 4, 6);
  }
}
