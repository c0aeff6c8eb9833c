/** The short text form of an IPv6 address: the longest run of `:0` after the first group is
    replaced by `::`, and reading gives the address back. */
module IPv6Short {
  import opened Dom
  import IPv6
  import opened Numerals
  import opened IPv6Text

  type Address = seq<nat>

  /** Each group with `%x`. */
  function Texts(g: Address): (ts: seq<string>)
    ensures |ts| == |g| && forall i :: 0 <= i < |g| ==> ts[i] == Numeral(g[i], Hex)
  {
    seq(|g|, i requires 0 <= i < |g| => Numeral(g[i], Hex))
  }

  method IntsToShortString(g: Address) returns (r: string)
    ensures r == Join(Texts(g))
  {
    var ts := Texts(g);
    r := "";
    var i := 0;
    while i < |g|
      invariant 0 <= i <= |g| && r == Join(ts[..i])
    {
      assert ts[..i + 1][..i] == ts[..i];
      if i > 0 {
        r := r + ":";
      }
      r := r + Numeral(g[i], Hex);
      i := i + 1;
    }
    assert ts[..i] == ts;
  }

  /* ----- the pattern (:0)+ ----- */

  predicate ColonZero(x: string, p: nat) {
    p + 1 < |x| && x[p] == ':' && x[p + 1] == '0'
  }

  /** Where the next match from `p` on starts. */
  function Find(x: string, p: nat): (m: Option<nat>)
    requires p <= |x|
    ensures m.Some? ==> p <= m.value && ColonZero(x, m.value)
    decreases |x| - p
  {
    if p == |x| then None else if ColonZero(x, p) then Some(p) else Find(x, p + 1)
  }

  /** Where a match at `p` ends: the repetition is greedy. */
  function RunEnd(x: string, p: nat): (e: nat)
    requires p <= |x|
    ensures p <= e <= |x| && (ColonZero(x, p) ==> e > p)
    decreases |x| - p
  {
    if ColonZero(x, p) then RunEnd(x, p + 2) else p
  }

  /** The longest match from `p` on, the last of equals, if at least as long as the one at hand. */
  function Scan(x: string, p: nat, start: nat, end: nat): (nat, nat)
    requires p <= |x|
    decreases |x| - p
  {
    match Find(x, p)
    case None => (start, end)
    case Some(m) =>
      var e := RunEnd(x, m);
      if e - m >= end - start then Scan(x, e, m, e) else Scan(x, e, start, end)
  }

  lemma {:induction false} ScanInside(x: string, p: nat, start: nat, end: nat)
    requires p <= |x| && start <= end <= |x|
    ensures var (s, e) := Scan(x, p, start, end); s <= e <= |x|
    decreases |x| - p
  {
    var m := Find(x, p);
    if m.Some? {
      var e := RunEnd(x, m.value);
      ScanInside(x, e, m.value, e);
      ScanInside(x, e, start, end);
    }
  }

  /** The text after the loop and the two rewrites. */
  function Shortened(x: string): string {
    ScanInside(x, 0, 0, 0);
    var (start, end) := Scan(x, 0, 0, 0);
    var y := if start > 0 then x[..start] + "::" + (if end != |x| then x[end + 1..] else "") else x;
    ReplaceLeading(y, "0::", "::")
  }

  method IntegerToShortString(g: Address) returns (r: string)
    ensures r == Shortened(Join(Texts(g)))
  {
    var x := IntsToShortString(g);
    var start: nat, end: nat := 0, 0;
    var p: nat := 0;
    var result := Find(x, p);
    while result.Some?
      invariant p <= |x| && start <= end <= |x| && result == Find(x, p)
      invariant Scan(x, 0, 0, 0) == Scan(x, p, start, end)
      decreases |x| - p
    {
      var m := result.value;
      var e := RunEnd(x, m);
      if e - m >= end - start {
        start := m;
        end := e;
      }
      p := e;
      result := Find(x, p);
    }
    if start > 0 {
      var z := "";
      if end != |x| {
        z := x[end + 1..];
      }
      x := x[..start] + "::" + z;
    }
    r := ReplaceLeading(x, "0::", "::");
  }

  /* ----- the same on groups ----- */

  function NextZero(g: Address, k: nat): (n: nat)
    requires k <= |g|
    ensures k <= n <= |g| && (n < |g| ==> g[n] == 0) && forall i :: k <= i < n ==> g[i] != 0
    decreases |g| - k
  {
    if k == |g| || g[k] == 0 then k else NextZero(g, k + 1)
  }

  function ZeroEnd(g: Address, k: nat): (n: nat)
    requires k <= |g|
    ensures k <= n <= |g| && (n < |g| ==> g[n] != 0) && forall i :: k <= i < n ==> g[i] == 0
    decreases |g| - k
  {
    if k < |g| && g[k] == 0 then ZeroEnd(g, k + 1) else k
  }

  function Longest(g: Address, k: nat, i: nat, j: nat): (nat, nat)
    requires k <= |g|
    decreases |g| - k
  {
    var n := NextZero(g, k);
    if n == |g| then (i, j)
    else
      var e := ZeroEnd(g, n);
      if e - n >= j - i then Longest(g, e, n, e) else Longest(g, e, i, j)
  }

  /** A run of zero groups after the first group. */
  predicate ZeroRun(g: Address, a: int, b: int) {
    1 <= a < b <= |g| && forall i :: a <= i < b ==> g[i] == 0
  }

  /** The run found is as long as any, and the last of those as long. */
  lemma {:induction false} LongestIsLongest(g: Address, k: nat, i: nat, j: nat)
    requires 1 <= k <= |g|
    requires (i == j == 0) || (ZeroRun(g, i, j) && j <= k)
    requires k < |g| && k > 1 ==> g[k - 1] != 0 || g[k] != 0
    requires forall a, b :: ZeroRun(g, a, b) && a < k && b <= k ==> b - a < j - i || (b - a == j - i && a <= i)
    ensures var (s, e) := Longest(g, k, i, j);
      && ((s == e == 0) || ZeroRun(g, s, e))
      && forall a, b :: ZeroRun(g, a, b) ==> b - a < e - s || (b - a == e - s && a <= s)
    decreases |g| - k
  {
    var n := NextZero(g, k);
    if n == |g| {
      forall a, b | ZeroRun(g, a, b) ensures a < k && b <= k {
        assert g[b - 1] == 0;
      }
    } else {
      var e := ZeroEnd(g, n);
      assert ZeroRun(g, n, e);
      forall a, b | ZeroRun(g, a, b) && a < e && b <= e ensures b <= k || n <= a {
        var first := if b <= k then a else if a < k then k else a;
        assert g[first] == 0;
      }
      if e - n >= j - i {
        LongestIsLongest(g, e, n, e);
      } else {
        LongestIsLongest(g, e, i, j);
      }
    }
  }

  /* ----- the text and its groups ----- */

  /** Where the text of the first `k` groups ends. */
  function Off(ts: seq<string>, k: nat): nat
    requires k <= |ts|
  {
    |Join(ts[..k])|
  }

  lemma {:induction false} JoinPrefix(ts: seq<string>, k: nat, n: nat)
    requires k <= n <= |ts|
    ensures Join(ts[..k]) <= Join(ts[..n])
    decreases n
  {
    if k < n {
      JoinPrefix(ts, k, n - 1);
      assert ts[..n][..n - 1] == ts[..n - 1];
      if n == 1 {
        assert ts[..k] == [];
      }
    }
  }

  /** A group after the first: a colon and its text. */
  lemma OffStep(ts: seq<string>, k: nat)
    requires 1 <= k < |ts|
    ensures var x := Join(ts);
      && Off(ts, k) + 1 + |ts[k]| == Off(ts, k + 1) <= |x|
      && x[Off(ts, k)] == ':'
      && x[Off(ts, k) + 1..Off(ts, k + 1)] == ts[k]
  {
    hide Join;
    JoinPrefix(ts, k + 1, |ts|);
    assert ts[..|ts|] == ts;
    JoinLast(ts, k);
    AtPrefix(Join(ts), Join(ts[..k]), ts[k]);
  }

  lemma JoinLast(ts: seq<string>, k: nat)
    requires 1 <= k < |ts|
    ensures Join(ts[..k + 1]) == Join(ts[..k]) + ":" + ts[k]
  {
    assert ts[..k + 1][..k] == ts[..k];
  }

  lemma AtPrefix(x: string, a: string, t: string)
    requires a + ":" + t <= x
    ensures x[|a|] == ':' && x[|a| + 1..|a| + 1 + |t|] == t
  {
    var y := a + ":" + t;
    assert y[|a|] == ':' && y[|a| + 1..] == t;
    assert x[..|y|] == y;
  }

  lemma OffEnd(ts: seq<string>)
    ensures Off(ts, |ts|) == |Join(ts)|
  {
    assert ts[..|ts|] == ts;
  }

  lemma {:induction false} FindSkips(x: string, p: nat, q: nat)
    requires p <= q <= |x| && forall i :: p <= i < q ==> x[i] != ':'
    ensures Find(x, p) == Find(x, q)
    decreases q - p
  {
    if p < q {
      FindSkips(x, p + 1, q);
    }
  }

  /** A text without a colon is passed over. */
  lemma SkipText(x: string, p: nat, t: string)
    requires p + |t| <= |x| && x[p..p + |t|] == t && ':' !in t
    ensures Find(x, p) == Find(x, p + |t|)
  {
    forall i | p <= i < p + |t| ensures x[i] != ':' {
      assert x[i] == t[i - p];
    }
    FindSkips(x, p, p + |t|);
  }

  lemma TextOf(g: Address, k: nat)
    requires IPv6.IsGroups(g) && k < 8
    ensures var t := Texts(g)[k]; GroupText(t) && Value(t, Hex) == g[k] && ':' !in t
    ensures Texts(g)[k][0] == '0' <==> g[k] == 0
    ensures g[k] == 0 ==> Texts(g)[k] == "0"
  {
    hide Numeral, Value, AllDigits, GroupText;
    NumeralValue(g[k], Hex);
    HexLength(g[k]);
    Facts(g, k);
  }

  lemma Facts(g: Address, k: nat)
    requires IPv6.IsGroups(g) && k < 8
    requires var t := Numeral(g[k], Hex); 1 <= |t| <= 4 && AllDigits(t, Hex) && Value(t, Hex) == g[k]
    ensures var t := Texts(g)[k]; t == Numeral(g[k], Hex) && GroupText(t) && Value(t, Hex) == g[k] && ':' !in t
  {
    GroupParses(Numeral(g[k], Hex));
  }

  /** The next match starts at the next zero group. */
  lemma {:induction false} FindIsNextZero(g: Address, k: nat)
    requires IPv6.IsGroups(g) && 1 <= k <= 8
    ensures var ts, x, n := Texts(g), Join(Texts(g)), NextZero(g, k);
      Off(ts, k) <= |x| && Find(x, Off(ts, k)) == if n == 8 then None else Some(Off(ts, n))
    decreases 8 - k
  {
    hide Join, Texts, Off;
    var ts, x := Texts(g), Join(Texts(g));
    if k == 8 {
      OffEnd(ts);
    } else {
      OffStep(ts, k);
      TextOf(g, k);
      var p := Off(ts, k);
      assert x[p + 1] == ts[k][0];
      if g[k] != 0 {
        FindIsNextZero(g, k + 1);
        SkipText(x, p + 1, ts[k]);
      }
    }
  }

  /** A match runs to the end of the zero groups. */
  lemma {:induction false} RunEndIsZeroEnd(g: Address, k: nat)
    requires IPv6.IsGroups(g) && 1 <= k <= 8
    ensures var ts, x := Texts(g), Join(Texts(g));
      Off(ts, k) <= |x| && RunEnd(x, Off(ts, k)) == Off(ts, ZeroEnd(g, k))
      && Off(ts, ZeroEnd(g, k)) == Off(ts, k) + 2 * (ZeroEnd(g, k) - k)
    decreases 8 - k
  {
    hide Join, Texts;
    var ts, x := Texts(g), Join(Texts(g));
    if k == 8 {
      OffEnd(ts);
    } else {
      OffStep(ts, k);
      TextOf(g, k);
      assert x[Off(ts, k) + 1] == ts[k][0];
      if g[k] == 0 {
        RunEndIsZeroEnd(g, k + 1);
      }
    }
  }

  /** The loop over matches is the loop over runs of zero groups. */
  lemma {:induction false} ScanIsLongest(g: Address, k: nat, i: nat, j: nat)
    requires IPv6.IsGroups(g) && 1 <= k <= 8 && i <= j <= 8
    requires Off(Texts(g), j) - Off(Texts(g), i) == 2 * (j - i)
    ensures var ts, x := Texts(g), Join(Texts(g));
      && Off(ts, k) <= |x|
      && var (a, b) := Longest(g, k, i, j);
         a <= b <= 8 && Scan(x, Off(ts, k), Off(ts, i), Off(ts, j)) == (Off(ts, a), Off(ts, b))
    decreases 8 - k
  {
    hide Join, Texts, Find, RunEnd, Off, NextZero, ZeroEnd;
    var ts, x := Texts(g), Join(Texts(g));
    FindIsNextZero(g, k);
    var n := NextZero(g, k);
    if n < 8 {
      RunEndIsZeroEnd(g, n);
      var e := ZeroEnd(g, n);
      assert e > n;
      ScanIsLongest(g, e, n, e);
      ScanIsLongest(g, e, i, j);
    }
  }

  /** The groups before and after the longest run; all of them before when there is none. */
  function Cut(g: Address): (nat, nat)
    requires |g| == 8
  {
    Longest(g, 1, 0, 0)
  }

  lemma CutIsRun(g: Address)
    requires |g| == 8
    ensures var (a, b) := Cut(g);
      && ((a == b == 0) || ZeroRun(g, a, b))
      && forall c, d :: ZeroRun(g, c, d) ==> d - c < b - a || (d - c == b - a && c <= a)
  {
    LongestIsLongest(g, 1, 0, 0);
  }

  lemma AllTexts(g: Address)
    requires IPv6.IsGroups(g)
    ensures GroupTexts(Texts(g)) && NoColons(Texts(g)) && forall i :: 0 <= i < 8 ==> Texts(g)[i] != ""
    ensures GroupValues(Texts(g)) == g
  {
    hide Texts, Value, AllDigits;
    var ts := Texts(g);
    forall i | 0 <= i < 8 ensures GroupText(ts[i]) && Value(ts[i], Hex) == g[i] && ':' !in ts[i] && ts[i] != "" {
      TextOf(g, i);
    }
  }

  /** The search finds nothing in the first group. */
  lemma ScanFromSecond(g: Address)
    requires IPv6.IsGroups(g)
    ensures var ts, x := Texts(g), Join(Texts(g));
      Off(ts, 1) <= |x| && Scan(x, 0, 0, 0) == Scan(x, Off(ts, 1), 0, 0)
  {
    hide Texts;
    var ts, x := Texts(g), Join(Texts(g));
    FindIsNextZero(g, 1);
    TextOf(g, 0);
    JoinPrefix(ts, 1, 8);
    assert ts[..8] == ts && ts[..1] == [ts[0]];
    forall i | 0 <= i < Off(ts, 1) ensures x[i] != ':' {
      assert x[i] == ts[0][i];
    }
    FindSkips(x, 0, Off(ts, 1));
  }

  /** The text before the run and the text after it. */
  lemma Sides(ts: seq<string>, a: nat, b: nat)
    requires 1 <= a <= b <= |ts| && forall i :: 0 <= i < |ts| ==> ts[i] != ""
    ensures var x := Join(ts);
      && 0 < Off(ts, a) <= Off(ts, b) <= |x|
      && x[..Off(ts, a)] == Join(ts[..a])
      && (Off(ts, b) == |x| <==> b == |ts|)
      && (if Off(ts, b) != |x| then x[Off(ts, b) + 1..] else "") == Join(ts[b..])
  {
    hide Join;
    var x := Join(ts);
    assert ts[..|ts|] == ts;
    JoinPrefix(ts, a, |ts|);
    JoinPrefix(ts, a, b);
    NotEmpty(ts, a);
    if b < |ts| {
      JoinConcat(ts[..b], ts[b..]);
      assert ts == ts[..b] + ts[b..];
      AtPrefix(x, Join(ts[..b]), Join(ts[b..]));
    } else {
      JoinEmpty();
      assert ts[b..] == [];
    }
  }

  lemma NotEmpty(ts: seq<string>, a: nat)
    requires 1 <= a <= |ts| && forall i :: 0 <= i < |ts| ==> ts[i] != ""
    ensures Join(ts[..a]) != ""
  {
  }

  /** Before the last rewrite. */
  function Inner(ts: seq<string>, a: nat, b: nat): string
    requires a <= b <= |ts|
  {
    if a > 0 then Gap(ts[..a], ts[b..]) else Join(ts)
  }

  lemma InnerIs(g: Address)
    requires IPv6.IsGroups(g)
    ensures var ts, x := Texts(g), Join(Texts(g)); var (a, b) := Cut(g);
      && a <= b <= 8
      && Shortened(x) == ReplaceLeading(Inner(ts, a, b), "0::", "::")
  {
    hide Texts, Join, Scan, Longest, ReplaceLeading;
    var ts, x := Texts(g), Join(Texts(g));
    var (a, b) := Cut(g);
    CutIsRun(g);
    AllTexts(g);
    ScanFromSecond(g);
    JoinEmpty();
    assert ts[..0] == [];
    ScanIsLongest(g, 1, 0, 0);
    ScanInside(x, 0, 0, 0);
    if a > 0 {
      Sides(ts, a, b);
    }
  }

  /** A text that begins with one whole group and a colon, and goes on with a digit. */
  lemma NotLeading(y: string, t: string)
    requires |y| > |t| + 1 && t != "" && y[..|t|] == t && ':' !in t && y[|t| + 1] != ':'
    ensures ReplaceLeading(y, "0::", "::") == y
  {
    ZeroPrefix(y);
    assert t[0] == y[0] && (|t| > 1 ==> t[1] == y[1]);
  }

  lemma ZeroPrefix(y: string)
    ensures "0::" <= y <==> |y| >= 3 && y[0] == '0' && y[1] == ':' && y[2] == ':'
  {
    var p := "0::";
    assert p[0] == '0' && p[1] == ':' && p[2] == ':';
    if |y| >= 3 && y[0] == '0' && y[1] == ':' && y[2] == ':' {
      assert y[..3] == p;
    }
  }

  /** The whole text: the last rewrite only takes away a lone leading zero group. */
  lemma ShortText(g: Address)
    requires IPv6.IsGroups(g)
    ensures var ts := Texts(g); var (a, b) := Cut(g);
      && a <= b <= 8
      && Shortened(Join(ts)) == (if a == 1 && g[0] == 0 then Gap([], ts[b..]) else Inner(ts, a, b))
  {
    hide Texts, Join, Shortened, Longest;
    var ts := Texts(g);
    var (a, b) := Cut(g);
    CutIsRun(g);
    InnerIs(g);
    AllTexts(g);
    TextOf(g, 0);
    TextOf(g, 1);
    if a == 1 {
      JoinOne(ts);
      LoneGroup(ts[0], Join(ts[b..]));
    } else {
      Opening(ts, a, b);
      NotLeading(Inner(ts, a, b), ts[0]);
    }
  }

  lemma JoinOne(ts: seq<string>)
    requires |ts| > 0
    ensures Join(ts[..1]) == ts[0]
  {
    assert ts[..1] == [ts[0]];
  }

  lemma LoneGroup(t: string, rest: string)
    requires t != "" && ':' !in t && (t[0] == '0' ==> t == "0")
    ensures ReplaceLeading(t + "::" + rest, "0::", "::") == (if t == "0" then Gap([], []) + rest else t + "::" + rest)
    ensures Gap([], []) + rest == "" + "::" + rest
  {
    JoinEmpty();
    assert Gap([], []) == "::";
    if t == "0" {
      LoneZero(rest);
    } else {
      var y := t + "::" + rest;
      assert y[0] == t[0];
      ZeroPrefix(y);
    }
  }

  lemma LoneZero(rest: string)
    ensures ReplaceLeading("0" + "::" + rest, "0::", "::") == "::" + rest
  {
    var y := "0" + "::" + rest;
    assert y[..3] == "0::" && y[3..] == rest;
  }

  /** With two groups or more before the gap, the text begins with them. */
  lemma Opening(ts: seq<string>, a: nat, b: nat)
    requires a != 1 && a <= b <= |ts| && 2 <= |ts|
    requires ts[0] != "" && ts[1] != "" && ':' !in ts[1]
    ensures var y := Inner(ts, a, b);
      |y| > |ts[0]| + 1 && y[..|ts[0]|] == ts[0] && y[|ts[0]| + 1] != ':'
  {
    hide Join;
    var n := if a == 0 then |ts| else a;
    JoinPrefix(ts, 2, n);
    JoinOne(ts);
    JoinLast(ts, 1);
    assert ts[..|ts|] == ts;
    var two := Join(ts[..2]);
    assert two == ts[0] + ":" + ts[1];
    assert two[|ts[0]| + 1] == ts[1][0] && ts[1][0] in ts[1];
    assert two <= Join(ts[..n]) && Join(ts[..n]) <= Inner(ts, a, b);
    assert Inner(ts, a, b)[..|two|] == two;
  }

  /** Reading the short form of an address gives back the address. */
  lemma RoundTrip(g: Address)
    requires IPv6.IsGroups(g)
    ensures Read(Shortened(Join(Texts(g)))) == Some(g)
  {
    hide Texts, Join, Shortened, Longest, Read, Gap;
    var ts := Texts(g);
    var (a, b) := Cut(g);
    CutIsRun(g);
    ShortText(g);
    AllTexts(g);
    if a == 0 {
      ReadFull(ts);
    } else if a == 1 && g[0] == 0 {
      ReadGap([], ts[b..]);
      Filled(g, ts, 0, b);
    } else {
      ReadGap(ts[..a], ts[b..]);
      Filled(g, ts, a, b);
    }
  }

  /** Zeros where the run was. */
  lemma Filled(g: Address, ts: seq<string>, a: nat, b: nat)
    requires IPv6.IsGroups(g) && |ts| == 8 && GroupTexts(ts) && GroupValues(ts) == g
    requires a <= b <= 8 && forall i :: a <= i < b ==> g[i] == 0
    ensures GroupTexts(ts[..a]) && GroupTexts(ts[b..])
    ensures GroupValues(ts[..a]) + Repeat(b - a) + GroupValues(ts[b..]) == g
  {
  }
}
