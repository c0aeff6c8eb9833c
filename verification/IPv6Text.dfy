/** Reading and writing the text forms of IPv6 addresses. */
module IPv6Text {
  import opened Dom
  import opened Numerals

  /* ----- the string library ----- */

  /** The texts with a colon between each and the next. */
  function Join(ps: seq<string>): string {
    if |ps| == 0 then "" else if |ps| == 1 then ps[0] else Join(ps[..|ps| - 1]) + ":" + ps[|ps| - 1]
  }

  /** The pieces between colons, empty ones among them. */
  function Pieces(s: string): (ps: seq<string>)
    ensures ps != []
  {
    if s == [] then [""]
    else
      var rest := Pieces(s[1..]);
      if s[0] == ':' then [""] + rest else [[s[0]] + rest[0]] + rest[1..]
  }

  function DropEmpty(ps: seq<string>): seq<string> {
    if ps != [] && ps[|ps| - 1] == "" then DropEmpty(ps[..|ps| - 1]) else ps
  }

  /** `s.split(":")`: without the empty pieces at the end, but whole if there is no colon. */
  function Split(s: string): seq<string> {
    if ':' !in s then [s] else DropEmpty(Pieces(s))
  }

  /** `s.replaceAll("^from", to)`. */
  function ReplaceLeading(s: string, from: string, to: string): string {
    if from <= s then to + s[|from|..] else s
  }

  /** `Integer.parseInt(s, 16)`. */
  function ParseInt(s: string): Option<int> {
    var v := Parse(s, Hex);
    if v.Some? && -0x8000_0000 <= v.value < 0x8000_0000 then v else None
  }

  /* ----- reading ----- */

  function Repeat(n: int): (z: seq<int>)
    ensures |z| == (if n < 0 then 0 else n) && forall i :: 0 <= i < |z| ==> z[i] == 0
  {
    if n <= 0 then [] else [0] + Repeat(n - 1)
  }

  /** What the pieces from `k` on add to the groups so far; `None` is an exception, for a piece
      that is not a number or a ninth group. */
  function Expand(ps: seq<string>, k: nat, out: seq<int>): Option<seq<int>>
    requires k <= |ps|
    decreases |ps| - k
  {
    if |out| > 8 then None
    else if k == |ps| then Some(out + Repeat(8 - |out|))
    else if ps[k] == "" then Expand(ps, k + 1, out + Repeat(9 - |ps|))
    else
      var v := ParseInt(ps[k]);
      if v == None then None else Expand(ps, k + 1, out + [v.value])
  }

  /** The groups a text stands for. */
  function Read(text: string): Option<seq<int>> {
    Expand(Split(ReplaceLeading(text, "::", "0::")), 0, [])
  }

  /** The inner loop: zeros until `n` are written, or an exception at a ninth group. */
  method PutZeros(rt: array<int>, olen: nat, n: int) returns (r: Option<nat>)
    requires rt.Length == 8 && olen <= 8
    modifies rt
    ensures r == None <==> olen + |Repeat(n)| > 8
    ensures r.Some? ==> r.value == olen + |Repeat(n)| && rt[..r.value] == old(rt[..olen]) + Repeat(n)
  {
    var at := olen;
    var j := 0;
    while j < n
      invariant 0 <= j <= |Repeat(n)| && at == olen + j <= 8
      invariant rt[..olen] == old(rt[..olen])
      invariant forall i :: olen <= i < at ==> rt[i] == 0
    {
      if at == 8 {
        return None;
      }
      rt[at] := 0;
      at := at + 1;
      j := j + 1;
    }
    r := Some(at);
  }

  method StringToInts(text: string) returns (r: Option<seq<int>>)
    ensures r == Read(text)
  {
    var ps := Split(ReplaceLeading(text, "::", "0::"));
    var rt := new int[8](_ => 0);
    var olen: nat := 0;
    hide Split, ParseInt, ReplaceLeading, Repeat;
    var i := 0;
    assert rt[..0] == [];
    while i < |ps|
      invariant 0 <= i <= |ps| && olen <= 8
      invariant Expand(ps, 0, []) == Expand(ps, i, rt[..olen])
    {
      ghost var out := rt[..olen];
      if ps[i] == "" {
        var filled := PutZeros(rt, olen, 9 - |ps|);
        if filled == None {
          return None;
        }
        olen := filled.value;
      } else {
        var v := ParseInt(ps[i]);
        if v == None || olen == 8 {
          return None;
        }
        rt[olen] := v.value;
        olen := olen + 1;
        assert rt[..olen] == out + [v.value];
      }
      i := i + 1;
    }
    FillRest(rt, olen);
    r := Some(rt[..]);
  }

  /** The last loop: zeros in what is left. */
  method FillRest(rt: array<int>, from: nat)
    requires rt.Length == 8 && from <= 8
    modifies rt
    ensures rt[..] == old(rt[..from]) + Repeat(8 - from)
  {
    var olen := from;
    while olen < 8
      invariant from <= olen <= 8 && rt[..from] == old(rt[..from])
      invariant forall j :: from <= j < olen ==> rt[j] == 0
    {
      rt[olen] := 0;
      olen := olen + 1;
    }
  }

  /* ----- what reading gives ----- */

  /** One to four hexadecimal digits, form 1 of section 2.2 of RFC 4291. */
  predicate GroupText(s: string) {
    1 <= |s| <= 4 && AllDigits(s, Hex)
  }

  predicate GroupTexts(ps: seq<string>) {
    forall i :: 0 <= i < |ps| ==> GroupText(ps[i])
  }

  function GroupValues(ps: seq<string>): (r: seq<int>)
    requires GroupTexts(ps)
    ensures |r| == |ps|
  {
    seq(|ps|, i requires 0 <= i < |ps| => Value(ps[i], Hex))
  }

  lemma GroupParses(s: string)
    requires GroupText(s)
    ensures s != "" && ':' !in s && ParseInt(s) == Some(Value(s, Hex)) && 0 <= Value(s, Hex) < 0x1_0000
  {
    assert s != "" && forall i :: 0 <= i < |s| ==> IsDigit(s[i], Hex);
    ValueBelow(s);
  }

  lemma ValueBelow(s: string)
    requires |s| <= 4 && AllDigits(s, Hex)
    ensures Value(s, Hex) < 0x1_0000
  {
    if |s| > 0 {
      var a := s[..|s| - 1];
      if |a| > 0 {
        var b := a[..|a| - 1];
        if |b| > 0 {
          var c := b[..|b| - 1];
          assert |c| > 0 ==> c[..|c| - 1] == [];
        }
      }
    }
  }

  /** Group texts one after another add their values. */
  lemma {:induction false} ExpandTexts(ps: seq<string>, k: nat, m: nat, out: seq<int>)
    requires k <= m <= |ps| && GroupTexts(ps[k..m]) && |out| + (m - k) <= 8
    ensures Expand(ps, k, out) == Expand(ps, m, out + GroupValues(ps[k..m]))
    decreases m - k
  {
    if k == m {
      assert out + GroupValues(ps[k..m]) == out;
    } else {
      assert ps[k] == ps[k..m][0];
      GroupParses(ps[k]);
      assert ps[k + 1..m] == ps[k..m][1..];
      ExpandTexts(ps, k + 1, m, out + [Value(ps[k], Hex)]);
      assert out + GroupValues(ps[k..m]) == out + [Value(ps[k], Hex)] + GroupValues(ps[k + 1..m]);
    }
  }

  /** Pieces around one empty piece: the zeros fill the address up to eight groups. */
  lemma ExpandAround(left: seq<string>, right: seq<string>)
    requires GroupTexts(left) && GroupTexts(right) && 1 <= |left| && |left| + |right| <= 8
    ensures Expand(left + [""] + right, 0, []) ==
      Some(GroupValues(left) + Repeat(8 - |left| - |right|) + GroupValues(right))
  {
    hide *;
    SplitPieces(left, right);
    ExpandPieces(left + [""] + right, |left|, left, right);
  }

  lemma ExpandPieces(ps: seq<string>, n: nat, left: seq<string>, right: seq<string>)
    requires n < |ps| && ps[0..n] == left && ps[n] == "" && ps[n + 1..|ps|] == right
    requires GroupTexts(left) && GroupTexts(right) && |left| + |right| <= 8
    ensures Expand(ps, 0, []) == Some(GroupValues(left) + Repeat(8 - |left| - |right|) + GroupValues(right))
  {
    hide Expand, GroupTexts, GroupValues, Repeat;
    var zeros := Repeat(8 - |left| - |right|);
    PiecesBefore(ps, n, left, zeros);
    PiecesAfter(ps, n + 1, right, GroupValues(left) + zeros);
  }

  lemma PiecesBefore(ps: seq<string>, n: nat, left: seq<string>, zeros: seq<int>)
    requires n < |ps| && ps[0..n] == left && ps[n] == "" && GroupTexts(left) && n <= 8
    requires zeros == Repeat(9 - |ps|)
    ensures Expand(ps, 0, []) == Expand(ps, n + 1, GroupValues(left) + zeros)
  {
    hide Expand, GroupTexts, GroupValues, Repeat;
    ExpandTexts(ps, 0, n, []);
    EmptyFirst(GroupValues(left));
    ExpandEmpty(ps, n, GroupValues(left));
  }

  lemma PiecesAfter(ps: seq<string>, k: nat, right: seq<string>, out: seq<int>)
    requires k <= |ps| && ps[k..|ps|] == right && GroupTexts(right) && |out| + |right| == 8
    ensures Expand(ps, k, out) == Some(out + GroupValues(right))
  {
    hide Expand, GroupTexts, GroupValues, Repeat;
    ExpandTexts(ps, k, |ps|, out);
    ExpandEnd(ps, out + GroupValues(right));
    NoMore(out + GroupValues(right));
  }

  lemma EmptyFirst(a: seq<int>)
    ensures [] + a == a
  {
  }

  lemma ExpandEmpty(ps: seq<string>, k: nat, out: seq<int>)
    requires k < |ps| && ps[k] == "" && |out| <= 8
    ensures Expand(ps, k, out) == Expand(ps, k + 1, out + Repeat(9 - |ps|))
  {
  }

  lemma ExpandEnd(ps: seq<string>, out: seq<int>)
    requires |out| <= 8
    ensures Expand(ps, |ps|, out) == Some(out + Repeat(8 - |out|))
  {
  }

  lemma SplitPieces(left: seq<string>, right: seq<string>)
    ensures var ps := left + [""] + right;
      ps[0..|left|] == left && ps[|left|] == "" && ps[|left| + 1..|ps|] == right
  {
  }

  lemma NoMore(out: seq<int>)
    ensures out + Repeat(0) == out
  {
  }

  lemma ExpandLeft(left: seq<string>)
    requires GroupTexts(left) && |left| <= 8
    ensures Expand(left, 0, []) == Some(GroupValues(left) + Repeat(8 - |left|))
  {
    assert left[0..|left|] == left;
    ExpandTexts(left, 0, |left|, []);
    assert [] + GroupValues(left) == GroupValues(left);
  }

  /* ----- splitting ----- */

  lemma {:induction false} PiecesOf(s: string, rest: string)
    requires ':' !in s
    ensures Pieces(s) == [s] && Pieces(s + ":" + rest) == [s] + Pieces(rest)
  {
    if s == "" {
      assert s + ":" + rest == ":" + rest;
    } else {
      PiecesOf(s[1..], rest);
      assert (s + ":" + rest)[1..] == s[1..] + ":" + rest;
      assert [s[0]] + s[1..] == s;
    }
  }

  /** Joining from the front. */
  lemma {:induction false} JoinFront(ps: seq<string>)
    requires |ps| > 1
    ensures Join(ps) == ps[0] + ":" + Join(ps[1..])
  {
    var n := |ps| - 1;
    if n > 1 {
      JoinFront(ps[..n]);
      assert ps[..n][1..] == ps[1..][..n - 1];
      Regroup(ps[0], Join(ps[..n][1..]), ps[n]);
    }
  }

  lemma Regroup(a: string, b: string, c: string)
    ensures a + ":" + b + ":" + c == a + ":" + (b + ":" + c)
  {
  }

  lemma {:induction false} JoinConcat(a: seq<string>, b: seq<string>)
    requires a != [] && b != []
    ensures Join(a + b) == Join(a) + ":" + Join(b)
    decreases |b|
  {
    var n := |b| - 1;
    assert (a + b)[..|a| + n] == a + b[..n];
    if n == 0 {
      assert a + b[..0] == a;
    } else {
      JoinConcat(a, b[..n]);
      Regroup(Join(a), Join(b[..n]), b[n]);
    }
  }

  predicate NoColons(ps: seq<string>) {
    forall i :: 0 <= i < |ps| ==> ':' !in ps[i]
  }

  /** Splitting undoes joining. */
  lemma {:induction false} PiecesJoin(ps: seq<string>)
    requires ps != [] && NoColons(ps)
    ensures Pieces(Join(ps)) == ps
  {
    if |ps| == 1 {
      PiecesOf(ps[0], "");
    } else {
      JoinFront(ps);
      PiecesOf(ps[0], Join(ps[1..]));
      PiecesJoin(ps[1..]);
      assert ps == [ps[0]] + ps[1..];
    }
  }

  lemma {:induction false} ColonIn(ps: seq<string>)
    requires |ps| > 1
    ensures ':' in Join(ps)
  {
    JoinFront(ps);
    assert Join(ps)[|ps[0]|] == ':';
  }

  lemma SplitJoin(ps: seq<string>)
    requires ps != [] && NoColons(ps) && ps[|ps| - 1] != ""
    ensures Split(Join(ps)) == ps
  {
    PiecesJoin(ps);
    if |ps| > 1 {
      ColonIn(ps);
    }
  }

  /** The text with a gap between the two lists of groups. */
  function Gap(left: seq<string>, right: seq<string>): string {
    Join(left) + "::" + Join(right)
  }

  lemma TextsHaveNoColons(ps: seq<string>)
    requires GroupTexts(ps)
    ensures NoColons(ps) && forall i :: 0 <= i < |ps| ==> ps[i] != ""
  {
    forall i | 0 <= i < |ps| ensures ':' !in ps[i] && ps[i] != "" {
      GroupParses(ps[i]);
    }
  }

  lemma SplitGap(left: seq<string>, right: seq<string>)
    requires left != [] && GroupTexts(left) && GroupTexts(right)
    ensures Split(Gap(left, right)) == if right == [] then left else left + [""] + right
  {
    TextsHaveNoColons(left);
    TextsHaveNoColons(right);
    if right == [] {
      GapAtEnd(left);
    } else {
      var ps := left + [""] + right;
      GapInside(left, right);
      assert NoColons(ps) && ps[|ps| - 1] != "";
      SplitJoin(ps);
    }
  }

  lemma GapInside(left: seq<string>, right: seq<string>)
    requires left != [] && right != []
    ensures Gap(left, right) == Join(left + [""] + right)
  {
    hide Join;
    JoinConcat(left + [""], right);
    JoinConcat(left, [""]);
    JoinEmpty();
    assert Join(left) + ":" + "" + ":" + Join(right) == Join(left) + "::" + Join(right);
  }

  lemma JoinEmpty()
    ensures Join([""]) == "" && Join(["", ""]) == ":" && Join([]) == ""
  {
    assert ["", ""][..1] == [""];
  }

  lemma GapAtEnd(left: seq<string>)
    requires left != [] && NoColons(left) && left[|left| - 1] != ""
    ensures Split(Gap(left, [])) == left
  {
    var ps := left + ["", ""];
    hide Join, Pieces;
    JoinConcat(left, ["", ""]);
    JoinEmpty();
    assert Gap(left, []) == Join(ps);
    PiecesJoin(ps);
    ColonIn(ps);
    DropOne(left + [""]);
    DropOne(left);
    assert ps == left + [""] + [""];
  }

  lemma DropOne(ps: seq<string>)
    ensures DropEmpty(ps + [""]) == DropEmpty(ps)
  {
    assert (ps + [""])[..|ps|] == ps;
  }

  lemma {:induction false} JoinStarts(ps: seq<string>)
    requires ps != [] && ps[0] != "" && ps[0][0] != ':'
    ensures Join(ps) != "" && Join(ps)[0] == ps[0][0]
  {
    if |ps| > 1 {
      JoinFront(ps);
    }
  }

  lemma StartsWithDigit(ps: seq<string>)
    requires ps != [] && GroupTexts(ps)
    ensures Join(ps) != "" && Join(ps)[0] != ':' && ps[0] != "" && Join(ps)[0] == ps[0][0]
  {
    GroupParses(ps[0]);
    assert ps[0][0] in ps[0];
    JoinStarts(ps);
  }

  /** Eight groups, form 1 of section 2.2 of RFC 4291. */
  lemma ReadFull(ps: seq<string>)
    requires |ps| == 8 && GroupTexts(ps)
    ensures Read(Join(ps)) == Some(GroupValues(ps))
  {
    StartsWithDigit(ps);
    TextsHaveNoColons(ps);
    SplitJoin(ps);
    ExpandLeft(ps);
    assert GroupValues(ps) + Repeat(0) == GroupValues(ps);
  }

  /** Groups before and after one `::`, at most seven in all, form 2 of that section. */
  lemma ReadGap(left: seq<string>, right: seq<string>)
    requires GroupTexts(left) && GroupTexts(right) && |left| + |right| <= 7
    ensures Read(Gap(left, right)) ==
      Some(GroupValues(left) + Repeat(8 - |left| - |right|) + GroupValues(right))
  {
    hide Split, Expand, ReplaceLeading, GroupValues, GroupTexts, Join, Repeat;
    if left == [] {
      ReadLeadingGap(right);
    } else {
      StartsWithDigit(left);
      NoLeading(Gap(left, right));
      SplitGap(left, right);
      ExpandGap(left, right);
    }
  }

  lemma NoLeading(s: string)
    requires s != "" && s[0] != ':'
    ensures ReplaceLeading(s, "::", "0::") == s
  {
  }

  lemma ExpandGap(left: seq<string>, right: seq<string>)
    requires left != [] && GroupTexts(left) && GroupTexts(right) && |left| + |right| <= 8
    ensures Expand(if right == [] then left else left + [""] + right, 0, []) ==
      Some(GroupValues(left) + Repeat(8 - |left| - |right|) + GroupValues(right))
  {
    if right == [] {
      ExpandLeft(left);
      assert GroupValues(left) + Repeat(8 - |left|) + GroupValues(right) == GroupValues(left) + Repeat(8 - |left|);
    } else {
      ExpandAround(left, right);
    }
  }

  lemma ReadLeadingGap(right: seq<string>)
    requires GroupTexts(right) && |right| <= 7
    ensures Read(Gap([], right)) == Some(GroupValues([]) + Repeat(8 - |right|) + GroupValues(right))
  {
    hide *;
    var zero := ["0"];
    ZerosFirst(right);
    LeadingZero(right);
    SplitGap(zero, right);
    ReadSplit(Gap([], right), Gap(zero, right));
    ExpandGap(zero, right);
  }

  lemma ReadSplit(text: string, xlate: string)
    requires ReplaceLeading(text, "::", "0::") == xlate
    ensures Read(text) == Expand(Split(xlate), 0, [])
  {
  }

  lemma LeadingZero(right: seq<string>)
    ensures ReplaceLeading(Gap([], right), "::", "0::") == Gap(["0"], right)
  {
    var r := Join(right);
    assert Gap([], right) == "::" + r;
    assert ("::" + r)[2..] == r;
    assert "0" + "::" + r == "0::" + r;
  }

  lemma ZerosFirst(right: seq<string>)
    requires GroupTexts(right) && |right| <= 7
    ensures GroupTexts(["0"]) && GroupTexts([])
    ensures GroupValues(["0"]) + Repeat(8 - 1 - |right|) + GroupValues(right) == GroupValues([]) + Repeat(8 - |right|) + GroupValues(right)
  {
    ZeroText();
    assert GroupValues(["0"]) == [0];
    assert [0] + Repeat(7 - |right|) == Repeat(8 - |right|);
    assert GroupValues([]) + Repeat(8 - |right|) == Repeat(8 - |right|);
  }

  lemma ZeroText()
    ensures GroupText("0") && Value("0", Hex) == 0
  {
    assert "0"[..0] == [];
  }
}
