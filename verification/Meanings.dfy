/** What the combinators of a selector come to on an HTML page, spelled out on the places of
    its nodes: which nodes a leading combinator reaches from the node searched from, which
    step each other combinator takes, and what the answer to a search lists. */
module Meanings {
  import opened Dom
  import opened Matcher
  import opened Selector
  import opened Select
  import opened Search
  import DocumentOrder

  const CHILD := Relative(Parents, true)
  const ADJACENT := Relative(Siblings, true)
  const SIBLING := Relative(Siblings, false)

  /** `q` is an element before `p` under the same parent. */
  predicate Elder(t: Tree, q: Path, p: Path) {
    p != [] && q != [] && Up(q) == Up(p) && Last(q) < Last(p) && IsElement(t, q)
  }

  /** `q` is the element just before `p`; other nodes may stand in between. */
  predicate JustBefore(t: Tree, q: Path, p: Path) {
    Elder(t, q, p) && forall k :: Last(q) < k < Last(p) ==> !IsElement(t, Up(p) + [k])
  }

  /* ----- one step up or back ----- */

  lemma AboveIs(p: Path, q: Path)
    ensures Ahead(Parents, p, q) <==> Below(q, p)
    ensures p != [] ==> Below(Up(p), p) && (Below(q, p) <==> q == Up(p) || Below(q, Up(p)))
    ensures p == [] ==> !Below(q, p)
  {
    if p != [] && |q| < |p| {
      assert Up(p)[..|q|] == p[..|q|];
    }
  }

  /** The nearest node above is the parent. */
  lemma NearestAbove(p: Path, q: Path)
    ensures (Ahead(Parents, p, q) && forall m :: Ahead(Parents, p, m) ==> m == q || Ahead(Parents, q, m))
      <==> p != [] && q == Up(p)
  {
    AboveIs(p, q);
    if p != [] {
      forall m ensures Ahead(Parents, p, m) <==> m == Up(p) || Ahead(Parents, Up(p), m) {
        AboveIs(p, m);
        AboveIs(Up(p), m);
      }
      if q == Up(p) {
        assert Ahead(Parents, p, q);
      }
      if Ahead(Parents, p, q) && forall m :: Ahead(Parents, p, m) ==> m == q || Ahead(Parents, q, m) {
        assert Ahead(Parents, p, Up(p));
      }
    }
  }

  /** The nearest element among the siblings in front. */
  lemma NearestBefore(t: Tree, p: Path, q: Path)
    ensures (Ahead(Siblings, p, q) && IsElement(t, q)
             && forall m :: Ahead(Siblings, p, m) && IsElement(t, m) ==> m == q || Ahead(Siblings, q, m))
      <==> JustBefore(t, q, p)
  {
    if Elder(t, q, p) {
      forall m | Ahead(Siblings, p, m) ensures m == Up(p) + [Last(m)] {
      }
      assert q == Up(p) + [Last(q)];
      if JustBefore(t, q, p) {
        forall m | Ahead(Siblings, p, m) && IsElement(t, m) ensures m == q || Ahead(Siblings, q, m) {
          assert m == Up(p) + [Last(m)];
        }
      }
      if forall m :: Ahead(Siblings, p, m) && IsElement(t, m) ==> m == q || Ahead(Siblings, q, m) {
        forall k | Last(q) < k < Last(p) ensures !IsElement(t, Up(p) + [k]) {
          var m := Up(p) + [k];
          assert Up(m) == Up(p) && Last(m) == k;
          assert Ahead(Siblings, p, m);
        }
      }
    }
  }

  /* ----- a leading combinator, and none ----- */

  /** A leading `>` takes the children of the node searched from, the document among them. */
  lemma LeadingChild(sc: Scene, c: Path, tokens: seq<Token>, p: Path)
    requires Page(sc, c) && tokens != [] && tokens[0] == Relation(CHILD)
    ensures Denotes(sc, tokens, 1, p) <==> p != [] && Up(p) == c
  {
    NearestAbove(p, c);
    assert Holds(sc, InContext, c) && forall q :: Holds(sc, InContext, q) ==> q == c;
    assert Related(sc, CHILD, true, p, c) <==> p != [] && Up(p) == c;
  }

  /** A leading white space takes all that lies below it. */
  lemma LeadingDescendant(sc: Scene, c: Path, tokens: seq<Token>, p: Path)
    requires Page(sc, c) && tokens != [] && tokens[0] == Relation(DESCENDANT)
    ensures Denotes(sc, tokens, 1, p) <==> Below(c, p)
  {
    AboveIs(p, c);
    assert Holds(sc, InContext, c) && forall q :: Holds(sc, InContext, q) ==> q == c;
    assert Related(sc, DESCENDANT, true, p, c) <==> Below(c, p);
  }

  /** A leading `+` takes what the element searched from stands just before. */
  lemma LeadingAdjacent(sc: Scene, c: Path, tokens: seq<Token>, p: Path)
    requires Page(sc, c) && tokens != [] && tokens[0] == Relation(ADJACENT)
    ensures Denotes(sc, tokens, 1, p) <==> JustBefore(sc.tree, c, p)
  {
    NearestBefore(sc.tree, p, c);
    assert Holds(sc, InContext, c) && forall q :: Holds(sc, InContext, q) ==> q == c;
    assert Related(sc, ADJACENT, true, p, c) <==> JustBefore(sc.tree, c, p);
  }

  /** A leading `~` takes the siblings behind it. */
  lemma LeadingSibling(sc: Scene, c: Path, tokens: seq<Token>, p: Path)
    requires Page(sc, c) && tokens != [] && tokens[0] == Relation(SIBLING)
    ensures Denotes(sc, tokens, 1, p) <==> Elder(sc.tree, c, p)
  {
    assert Holds(sc, InContext, c) && forall q :: Holds(sc, InContext, q) ==> q == c;
    assert Related(sc, SIBLING, true, p, c) <==> Elder(sc.tree, c, p);
  }

  /** Without a leading combinator the search takes all below an element, or the whole page. */
  lemma NoneLeading(sc: Scene, c: Path, tokens: seq<Token>, p: Path)
    requires Page(sc, c) && !Leading(tokens)
    ensures Denotes(sc, tokens, 0, p) <==> sc.isDocument || Below(c, p)
  {
    AboveIs(p, c);
    assert Holds(sc, InContext, c) && forall q :: Holds(sc, InContext, q) ==> q == c;
    assert Related(sc, DESCENDANT, true, p, c) <==> Below(c, p);
  }

  /** A leading combinator and one filter: the nodes so reached that pass. */
  lemma LeadingFilter(sc: Scene, c: Path, rel: Relative, f: Path -> bool, p: Path)
    requires Page(sc, c)
    ensures Denotes(sc, [Relation(rel), Simple(f)], 2, p) <==> f(p) && match rel
      case Relative(Parents, true) => p != [] && Up(p) == c
      case Relative(Parents, false) => Below(c, p)
      case Relative(Siblings, true) => JustBefore(sc.tree, c, p)
      case Relative(Siblings, false) => Elder(sc.tree, c, p)
  {
    var tokens := [Relation(rel), Simple(f)];
    match rel
    case Relative(Parents, true) => LeadingChild(sc, c, tokens, p);
    case Relative(Parents, false) => LeadingDescendant(sc, c, tokens, p);
    case Relative(Siblings, true) => LeadingAdjacent(sc, c, tokens, p);
    case Relative(Siblings, false) => LeadingSibling(sc, c, tokens, p);
  }

  /** One filter alone. */
  lemma FilterAlone(sc: Scene, c: Path, f: Path -> bool, p: Path)
    requires Page(sc, c)
    ensures Denotes(sc, [Simple(f)], 1, p) <==> f(p) && (sc.isDocument || Below(c, p))
  {
    NoneLeading(sc, c, [Simple(f)], p);
  }

  /** A selector matched against several nodes describes what it describes for any of them. */
  lemma {:induction false} AnyContext(sc: Scene, cs: seq<Path>, tokens: seq<Token>, n: nat, p: Path)
    requires sc.context == Many(cs) && cs != [] && Start(tokens) <= n <= |tokens|
    ensures Denotes(sc, tokens, n, p) <==> exists c :: c in cs && Denotes(sc.(context := One(c)), tokens, n, p)
    decreases n
  {
    if n == Start(tokens) {
      assert cs[0] in cs;
      forall c ensures Holds(sc.(context := One(c)), InContext, c) && (Holds(sc, InContext, c) <==> c in cs) {
      }
      var rel := if Leading(tokens) then tokens[0].rel else DESCENDANT;
      forall c, q ensures Related(sc.(context := One(c)), rel, true, p, q) <==> Related(sc, rel, true, p, q) {
      }
    } else {
      var k := n - 1;
      forall q ensures Denotes(sc, tokens, k, q) <==> exists c :: c in cs && Denotes(sc.(context := One(c)), tokens, k, q) {
        AnyContext(sc, cs, tokens, k, q);
      }
      if tokens[k].Relation? {
        var rel := tokens[k].rel;
        forall c, q ensures Related(sc.(context := One(c)), rel, false, p, q) <==> Related(sc, rel, false, p, q) {
        }
        if Denotes(sc, tokens, n, p) {
          var q :| Related(sc, rel, false, p, q) && Denotes(sc, tokens, k, q);
          var c :| c in cs && Denotes(sc.(context := One(c)), tokens, k, q);
          assert Related(sc.(context := One(c)), rel, false, p, q);
          assert Denotes(sc.(context := One(c)), tokens, n, p);
        }
        forall c | c in cs && Denotes(sc.(context := One(c)), tokens, n, p) ensures Denotes(sc, tokens, n, p) {
          var q :| Related(sc.(context := One(c)), rel, false, p, q) && Denotes(sc.(context := One(c)), tokens, k, q);
          assert Related(sc, rel, false, p, q) && Denotes(sc, tokens, k, q);
        }
      }
    }
  }

  /* ----- a combinator after other tokens ----- */

  /** `a > b`: the parent is an element that the tokens before describe. */
  lemma ChildStep(sc: Scene, c: Path, tokens: seq<Token>, n: nat, p: Path)
    requires Page(sc, c) && In(sc.tree, p) && Start(tokens) < n <= |tokens| && tokens[n - 1] == Relation(CHILD)
    ensures Denotes(sc, tokens, n, p) <==>
      p != [] && IsElement(sc.tree, Up(p)) && Denotes(sc, tokens, n - 1, Up(p))
  {
    forall q | Related(sc, CHILD, false, p, q) ensures p != [] && q == Up(p) {
      NearestElementAbove(sc, c, p, q);
    }
    if p != [] && IsElement(sc.tree, Up(p)) {
      NearestAbove(p, Up(p));
      assert Related(sc, CHILD, false, p, Up(p));
    }
  }

  /** On a page only the root may be a parent that is not an element. */
  lemma NearestElementAbove(sc: Scene, c: Path, p: Path, q: Path)
    requires Page(sc, c) && In(sc.tree, p) && Related(sc, CHILD, false, p, q)
    ensures p != [] && q == Up(p)
  {
    var up := Up(p);
    AboveIs(p, q);
    if q != up {
      AboveIs(up, q);
      Prefix(sc.tree, p, |up|);
      assert up != [];
      assert IsElement(sc.tree, up);
      assert Ahead(Parents, p, up);
    }
  }

  /** `a b`: some element above. */
  lemma DescendantStep(sc: Scene, tokens: seq<Token>, n: nat, p: Path)
    requires Start(tokens) < n <= |tokens| && tokens[n - 1] == Relation(DESCENDANT)
    ensures Denotes(sc, tokens, n, p) <==>
      exists q :: Below(q, p) && IsElement(sc.tree, q) && Denotes(sc, tokens, n - 1, q)
  {
    forall q ensures Related(sc, DESCENDANT, false, p, q) <==> Below(q, p) && IsElement(sc.tree, q) {
      AboveIs(p, q);
    }
  }

  /** `a + b`: the element just before. */
  lemma AdjacentStep(sc: Scene, tokens: seq<Token>, n: nat, p: Path)
    requires Start(tokens) < n <= |tokens| && tokens[n - 1] == Relation(ADJACENT)
    ensures Denotes(sc, tokens, n, p) <==>
      exists q :: JustBefore(sc.tree, q, p) && Denotes(sc, tokens, n - 1, q)
  {
    forall q ensures Related(sc, ADJACENT, false, p, q) <==> JustBefore(sc.tree, q, p) {
      NearestBefore(sc.tree, p, q);
    }
  }

  /** `a ~ b`: some element before under the same parent. */
  lemma SiblingStep(sc: Scene, tokens: seq<Token>, n: nat, p: Path)
    requires Start(tokens) < n <= |tokens| && tokens[n - 1] == Relation(SIBLING)
    ensures Denotes(sc, tokens, n, p) <==>
      exists q :: Elder(sc.tree, q, p) && Denotes(sc, tokens, n - 1, q)
  {
    forall q ensures Related(sc, SIBLING, false, p, q) <==> Elder(sc.tree, q, p) {
    }
  }

  /** A filter is passed besides. */
  lemma FilterStep(sc: Scene, tokens: seq<Token>, n: nat, f: Path -> bool, p: Path)
    requires Start(tokens) < n <= |tokens| && tokens[n - 1] == Simple(f)
    ensures Denotes(sc, tokens, n, p) <==> f(p) && Denotes(sc, tokens, n - 1, p)
  {
  }

  /* ----- the answer ----- */

  lemma FirstInOrder(p: Path, rest: seq<Path>)
    requires DocumentOrder.InOrder(rest) && forall q :: q in rest ==> DocumentOrder.Precedes(p, q)
    ensures DocumentOrder.InOrder([p] + rest) && [] + rest == rest
  {
    DocumentOrder.ConcatInOrder([p], rest);
  }

  lemma {:induction false} KeptInOrder(ps: seq<Path>, test: Path -> bool)
    requires DocumentOrder.InOrder(ps)
    ensures DocumentOrder.InOrder(Kept(ps, test))
  {
    if ps != [] {
      KeptInOrder(ps[1..], test);
      KeptMembers(ps[1..], test);
      FirstInOrder(ps[0], Kept(ps[1..], test));
    }
  }

  lemma {:induction false} DescribedAre(sc: Scene, groups: seq<seq<Token>>, ps: seq<Path>)
    ensures forall p :: p in Described(sc, groups, ps) <==> p in ps && Chosen(sc, groups, p)
    ensures DocumentOrder.InOrder(ps) ==> DocumentOrder.InOrder(Described(sc, groups, ps))
  {
    hide Chosen;
    if ps != [] {
      DescribedAre(sc, groups, ps[1..]);
      if DocumentOrder.InOrder(ps) {
        FirstInOrder(ps[0], Described(sc, groups, ps[1..]));
      }
    }
  }

  /** The answer lists the elements of the page that some group describes, each once, in
      document order. */
  lemma AnswerIs(sc: Scene, groups: seq<seq<Token>>)
    ensures var r := Answer(sc, groups);
      && (forall p :: p in r <==>
           IsElement(sc.tree, p) && exists g :: 0 <= g < |groups| && Denotes(sc, groups[g], |groups[g]|, p))
      && (forall i, j :: 0 <= i < j < |r| ==> r[i] != r[j] && DocumentOrder.Precedes(r[i], r[j]))
  {
    var t := sc.tree;
    var all := p => IsElement(t, p);
    DocumentOrder.PreorderIsPrecedes(t);
    KeptMembers(DocumentOrder.Preorder(t), all);
    KeptInOrder(DocumentOrder.Preorder(t), all);
    DescribedAre(sc, groups, Elements(t));
    var r := Answer(sc, groups);
    forall i, j | 0 <= i < j < |r| ensures r[i] != r[j] && DocumentOrder.Precedes(r[i], r[j]) {
      DocumentOrder.PrecedesTotal(r[i], r[j]);
    }
  }

  /** The element an id stands for is the first with it in document order. */
  lemma FirstOfIs(t: Tree, test: Path -> bool, p: Path)
    requires !IsElement(t, [])
    ensures FirstOf(t, test)(p) <==>
      && IsElement(t, p) && test(p)
      && forall q :: IsElement(t, q) && test(q) && q != p ==> DocumentOrder.Precedes(p, q)
  {
    var found := Find(t, [], test);
    var f := p => IsElement(t, p) && Select.Below([], p) && test(p);
    DocumentOrder.PreorderIsPrecedes(t);
    KeptMembers(DocumentOrder.Preorder(t), f);
    KeptInOrder(DocumentOrder.Preorder(t), f);
    forall q ensures q in found <==> IsElement(t, q) && test(q) {
    }
    if found != [] {
      forall q | q in found && q != found[0] ensures DocumentOrder.Precedes(found[0], q) {
      }
      DocumentOrder.PrecedesTotal(found[0], p);
    }
  }

  lemma {:induction false} SeedPlaceIs(isDocument: bool, canFind: Kind -> bool, ts: seq<Lexeme>, n: nat, i: nat)
    requires n <= |ts|
    ensures SeedPlace(isDocument, canFind, ts, n) == Some(i) <==>
      && i < n && Findable(isDocument, canFind, ts[i])
      && (forall j :: i <= j < n ==> ts[j].token.Simple?)
      && (forall j :: i < j < n ==> !Findable(isDocument, canFind, ts[j]))
  {
    hide Findable;
    if n > 0 {
      SeedPlaceIs(isDocument, canFind, ts, n - 1, i);
    }
  }

  /** The one token that comes to mean the first element only: an id at the start, before a
      combinator and at least one more token, or else one behind the last combinator, if the
      document's finder for ids serves, no token behind it has a finder, and the selector needs
      no context. */
  lemma PinnedExactly(sc: Scene, canFind: Kind -> bool, needsContext: string -> bool, ts: seq<Lexeme>, i: nat)
    requires i < |ts|
    ensures |Meant(sc, canFind, needsContext, ts)| == |ts|
    ensures var shortcut := sc.isDocument && |ts| > 2 && ts[0].kind == Id && ts[0].token.Simple? && ts[1].token.Relation?;
      var seed := sc.isDocument && !needsContext(ToSelector(ts)) && ts[i].kind == Id && canFind(Id)
        && (forall j :: i <= j < |ts| ==> ts[j].token.Simple?)
        && (forall j :: i < j < |ts| ==> ts[j].kind == Other || !canFind(ts[j].kind));
      Meant(sc, canFind, needsContext, ts)[i] ==
        if ts[i].token.Simple? && (if shortcut then i == 0 else seed) then Simple(FirstOf(sc.tree, ts[i].token.holds)) else ts[i].token
  {
    hide FirstOf, ToSelector, SeedPlace;
    SeedPlaceIs(sc.isDocument, canFind, ts, |ts|, i);
    var place := SeedPlace(sc.isDocument, canFind, ts, |ts|);
    if place.Some? {
      SeedPlaceIs(sc.isDocument, canFind, ts, |ts|, place.value);
    }
  }

  /* ----- an input: a child combinator at the document ----- */

  /** A document and its one element. */
  function LonePage(): Tree {
    Node(9, [Node(ELEMENT_NODE, [])])
  }

  lemma LonePageIs(sc: Scene)
    requires sc == Scene(LonePage(), One([]), true, false)
    ensures Page(sc, [])
    ensures forall p :: IsElement(sc.tree, p) <==> p == [0]
  {
    var t, leaf: Path := LonePage(), [];
    InFirst(t, 0, leaf);
    assert [0] + leaf == [0];
    forall p | In(t, p) && p != [] ensures p == [0] {
      assert In(t.kids[p[0]], p[1..]) && t.kids[p[0]].kids == [];
    }
  }

  /** `> html` searched from the document finds the document's element. */
  lemma DocumentChild(sc: Scene, f: Path -> bool)
    requires sc == Scene(LonePage(), One([]), true, false)
    ensures Answer(sc, [[Relation(CHILD), Simple(f)]]) == if f([0]) then [[0]] else []
  {
    hide Answer, Denotes, Page;
    var tokens := [Relation(CHILD), Simple(f)];
    var groups := [tokens];
    LonePageIs(sc);
    AnswerIs(sc, groups);
    var r := Answer(sc, groups);
    forall p ensures p in r <==> p == [0] && f(p) {
      LeadingFilter(sc, [], CHILD, f, p);
      assert groups[0] == tokens;
    }
    OneAtMost(r, [0]);
  }

  lemma OneAtMost(r: seq<Path>, p: Path)
    requires forall q :: q in r ==> q == p
    requires forall i, j :: 0 <= i < j < |r| ==> r[i] != r[j]
    ensures r == if p in r then [p] else []
  {
    assert |r| > 1 ==> r[0] != r[1];
    AllAre(r, p);
    assert r != [] ==> r == [p] && r[0] in r;
  }

  lemma AllAre(r: seq<Path>, p: Path)
    requires forall q :: q in r ==> q == p
    ensures forall i :: 0 <= i < |r| ==> r[i] == p
  {
    forall i | 0 <= i < |r| ensures r[i] == p {
      assert r[i] in r;
    }
  }

  /** And so does the engine, whatever its caches hold. */
  method SelectDocumentChild(z: Sizzle, sc: Scene, selector: string, f: Path -> bool, canFind: Kind -> bool, needsContext: string -> bool)
    returns (results: Option<seq<Path>>)
    requires z.Valid() && sc == Scene(LonePage(), One([]), true, false)
    requires var ts := [Lexeme(">", Other, Relation(CHILD)), Lexeme("html", TagName, Simple(f))];
      && selector == ">html" && z.tokenizer.parse(selector) == Some([ts])
      && Rereads(z.tokenizer.parse, Left(true, canFind, needsContext, ts))
    modifies z.tokenizer`outers, z.tokenizer`lists, z.tokenizer.tokenCache, z.compilerCache, z.compilerCache.values.Values, z.compiler, z.engine
    ensures z.Valid()
    ensures results == Some(if f([0]) then [[0]] else [])
  {
    hide Answer, Denotes, Page;
    LonePageIs(sc);
    TwoTokens(sc, f, canFind, needsContext);
    DocumentChild(sc, f);
    results := z.Select(sc, [], selector, canFind, needsContext, []);
    ghost var found := if f([0]) then [[0]] else [];
    assert [] + found == found;
  }

  lemma TwoTokens(sc: Scene, f: Path -> bool, canFind: Kind -> bool, needsContext: string -> bool)
    ensures var ts := [Lexeme(">", Other, Relation(CHILD)), Lexeme("html", TagName, Simple(f))];
      && Reading(">html", [ts])
      && MeantGroups(sc, canFind, needsContext, [ts]) == [[Relation(CHILD), Simple(f)]]
  {
    var html := Lexeme("html", TagName, Simple(f));
    var ts := [Lexeme(">", Other, Relation(CHILD)), html];
    assert ts[1..] == [html] && [html][1..] == [];
    assert ToSelector([html]) == "html" + "" == "html";
    assert ToSelector(ts) == ">html";
    assert Plain([html]) == [Simple(f)] + [] == [Simple(f)];
    assert Plain(ts) == [Relation(CHILD), Simple(f)];
  }
}
