/** Sizzle's `select`: starting from a seed set, or from the element an ID names, with fewer
    tokens left to match, finds exactly the nodes a full scan of the document would. */
module Select {
  import opened Dom
  import opened Matcher
  import opened Selector
  import DocumentOrder

  /** The token types with a finder in `Expr.find`, and the others. */
  datatype Kind = Id | Class | TagName | Other

  /** A token as `tokenize` makes it: the text it was read from, its type and its meaning. */
  datatype Lexeme = Lexeme(text: string, kind: Kind, token: Token)

  /* ----- token lists and their text ----- */

  /** `rsibling`. */
  predicate HasSibling(s: string) {
    '+' in s || '~' in s
  }

  predicate BySibling(l: Lexeme) {
    l.token.Relation? && l.token.rel.dir == Siblings
  }

  predicate Lexed(l: Lexeme) {
    && l.text != ""
    && (l.kind != Other ==> l.token.Simple?)
    && (BySibling(l) ==> HasSibling(l.text))
  }

  function ToSelector(tokens: seq<Lexeme>): string {
    if tokens == [] then "" else tokens[0].text + ToSelector(tokens[1..])
  }

  ghost predicate AllLexed(tokens: seq<Lexeme>) {
    forall i :: 0 <= i < |tokens| ==> Lexed(tokens[i])
  }

  /** A leading sibling combinator shows in the text. */
  ghost predicate Shows(tokens: seq<Lexeme>, text: string) {
    tokens != [] && BySibling(tokens[0]) ==> HasSibling(text)
  }

  /** What `tokenize` promises of the groups it reads from a text. */
  ghost predicate Reading(text: string, groups: seq<seq<Lexeme>>) {
    && (forall g :: 0 <= g < |groups| ==> AllLexed(groups[g]) && Shows(groups[g], text))
    && (|groups| == 1 ==> ToSelector(groups[0]) == text)
  }

  lemma {:induction false} LexedShows(tokens: seq<Lexeme>)
    requires AllLexed(tokens)
    ensures Shows(tokens, ToSelector(tokens))
    ensures ToSelector(tokens) == "" <==> tokens == []
  {
  }

  function Plain(tokens: seq<Lexeme>): (r: seq<Token>)
    ensures |r| == |tokens| && forall i :: 0 <= i < |r| ==> r[i] == tokens[i].token
  {
    if tokens == [] then [] else [tokens[0].token] + Plain(tokens[1..])
  }

  function PlainGroups(groups: seq<seq<Lexeme>>): (r: seq<seq<Token>>)
    ensures |r| == |groups| && forall i :: 0 <= i < |r| ==> r[i] == Plain(groups[i])
  {
    if groups == [] then [] else [Plain(groups[0])] + PlainGroups(groups[1..])
  }

  /* ----- the page ----- */

  predicate Below(root: Path, p: Path) {
    |root| < |p| && p[..|root|] == root
  }

  /** An HTML page searched from `c`: the document or an element. Only the root can be a node
      with children that is not an element. */
  ghost predicate Page(sc: Scene, c: Path) {
    && sc.context == One(c) && !sc.xml
    && (if sc.isDocument then c == [] && !IsElement(sc.tree, []) else IsElement(sc.tree, c))
    && forall p :: In(sc.tree, p) && p != [] && At(sc.tree, p).kids != [] ==> IsElement(sc.tree, p)
  }

  function Kept(ps: seq<Path>, test: Path -> bool): seq<Path> {
    if ps == [] then [] else (if test(ps[0]) then [ps[0]] else []) + Kept(ps[1..], test)
  }

  /** The elements of the page in document order. */
  function Elements(t: Tree): seq<Path> {
    Kept(DocumentOrder.Preorder(t), p => IsElement(t, p))
  }

  /** What the document's finders give: the elements below `root` that pass, in document order. */
  function Find(t: Tree, root: Path, test: Path -> bool): seq<Path> {
    Kept(DocumentOrder.Preorder(t), p => IsElement(t, p) && Below(root, p) && test(p))
  }

  /** No two elements pass, as for a page's ids. */
  ghost predicate Unique(t: Tree, test: Path -> bool) {
    forall p, q :: IsElement(t, p) && IsElement(t, q) && test(p) && test(q) ==> p == q
  }

  /** Where a search starts: a leading sibling combinator needs the context's own siblings. */
  function SearchRoot(c: Path, sibling: bool): Path {
    if sibling && c != [] then Up(c) else c
  }

  /* ----- what is described lies below the search root ----- */

  lemma {:induction false} DenotesBelow(sc: Scene, tokens: seq<Token>, n: nat, p: Path)
    requires Start(tokens) <= n <= |tokens| && sc.context.One? && !sc.xml
    requires Leading(tokens) || !sc.isDocument
    requires Denotes(sc, tokens, n, p)
    ensures var c := sc.context.node;
            if Leading(tokens) && tokens[0].rel.dir == Siblings then c != [] && Below(Up(c), p) else Below(c, p)
    decreases n
  {
    if n == Start(tokens) {
    } else {
      match tokens[n - 1]
      case Simple(f) => DenotesBelow(sc, tokens, n - 1, p);
      case Relation(rel) =>
        var q :| Related(sc, rel, false, p, q) && Denotes(sc, tokens, n - 1, q);
        DenotesBelow(sc, tokens, n - 1, q);
        var c := sc.context.node;
        BelowRelated(if Leading(tokens) && tokens[0].rel.dir == Siblings then Up(c) else c, rel.dir, p, q);
    }
  }

  lemma BelowRelated(root: Path, dir: Dir, p: Path, q: Path)
    requires Below(root, q) && Ahead(dir, p, q)
    ensures Below(root, p)
  {
    if dir == Parents {
      assert p[..|root|] == q[..|root|];
    } else {
      assert p[..|root|] == Up(p)[..|root|] == Up(q)[..|root|] == q[..|root|];
    }
  }

  lemma Reach(sc: Scene, c: Path, tokens: seq<Token>, p: Path, sibling: bool)
    requires Page(sc, c) && IsElement(sc.tree, p) && Denotes(sc, tokens, |tokens|, p)
    requires Leading(tokens) && tokens[0].rel.dir == Siblings ==> sibling
    ensures Below(SearchRoot(c, sibling), p)
  {
    if Leading(tokens) || !sc.isDocument {
      DenotesBelow(sc, tokens, |tokens|, p);
      if sibling && c != [] && Below(c, p) {
        assert p[..|Up(c)|] == c[..|Up(c)|];
      }
    }
  }

  /* ----- a filter of the last compound may be tested first ----- */

  function Cut<T>(s: seq<T>, i: nat): (r: seq<T>)
    requires i < |s|
    ensures |r| == |s| - 1
    ensures forall j :: 0 <= j < |r| ==> r[j] == if j < i then s[j] else s[j + 1]
  {
    s[..i] + s[i + 1..]
  }

  lemma {:induction false} DenotesPrefix(sc: Scene, a: seq<Token>, b: seq<Token>, n: nat, p: Path)
    requires n <= |a| && n <= |b| && a[..n] == b[..n]
    requires Leading(a) == Leading(b) && Start(a) <= n
    ensures Denotes(sc, a, n, p) <==> Denotes(sc, b, n, p)
    decreases n
  {
    if n == Start(a) {
      assert Leading(a) ==> a[..n][0] == b[..n][0];
    } else {
      assert a[n - 1] == a[..n][n - 1] == b[n - 1];
      var k := n - 1;
      assert a[..k] == a[..n][..k] == b[..k];
      forall q ensures Denotes(sc, a, k, q) <==> Denotes(sc, b, k, q) {
        DenotesPrefix(sc, a, b, k, q);
      }
    }
  }

  /** Filters after the last combinator commute: taking one out and testing it apart keeps
      the meaning. */
  lemma {:induction false} SeedKeeps(sc: Scene, tokens: seq<Token>, i: nat, n: nat, p: Path)
    requires Start(tokens) <= i < n <= |tokens|
    requires forall j :: i <= j < n ==> tokens[j].Simple?
    requires i == 0 && |tokens| > 1 ==> tokens[1].Simple?
    ensures Denotes(sc, tokens, n, p) <==>
            tokens[i].holds(p) && Start(Cut(tokens, i)) <= n - 1 && Denotes(sc, Cut(tokens, i), n - 1, p)
    decreases n
  {
    var cut := Cut(tokens, i);
    assert Leading(cut) == Leading(tokens);
    if n == i + 1 {
      assert tokens[..i] == cut[..i];
      DenotesPrefix(sc, tokens, cut, i, p);
    } else {
      assert tokens[n - 1] == cut[n - 2];
      SeedKeeps(sc, tokens, i, n - 1, p);
    }
  }

  /* ----- starting at the element an ID names ----- */

  function Rooted(sc: Scene, el: Path): Scene {
    sc.(context := One(el), isDocument := false)
  }

  /** For a node of the page and an element, the combinator as written and the leading
      combinator of the shortened list say the same. */
  lemma LeadingRelated(sc: Scene, rel: Relative, p: Path, el: Path)
    requires Page(sc, []) && sc.isDocument && IsElement(sc.tree, p) && IsElement(sc.tree, el)
    ensures Related(sc, rel, false, p, el) <==> Related(Rooted(sc, el), rel, true, p, el)
  {
    if Ahead(rel.dir, p, el) && rel.dir == Parents {
      forall m | Ahead(Parents, p, m) ensures IsElement(sc.tree, m) || Ahead(Parents, el, m) {
        Prefix(sc.tree, p, |m|);
      }
    }
  }

  /** A node above one of the tree is in the tree and has children. */
  lemma {:induction false} Prefix(t: Tree, p: Path, k: nat)
    requires In(t, p) && k < |p|
    ensures In(t, p[..k]) && At(t, p[..k]).kids != []
  {
    if k > 0 {
      Prefix(t.kids[p[0]], p[1..], k - 1);
      assert p[..k][1..] == p[1..][..k - 1];
    }
  }

  lemma {:induction false} IdShortcut(sc: Scene, tokens: seq<Token>, n: nat, el: Path, p: Path)
    requires Page(sc, []) && sc.isDocument
    requires 2 <= n <= |tokens| && tokens[0].Simple? && tokens[1].Relation?
    requires IsElement(sc.tree, el) && tokens[0].holds(el) && Unique(sc.tree, tokens[0].holds)
    requires IsElement(sc.tree, p)
    ensures Denotes(sc, tokens, n, p) <==> Denotes(Rooted(sc, el), tokens[1..], n - 1, p)
    decreases n
  {
    var short, sc1 := tokens[1..], Rooted(sc, el);
    if n == 2 {
      ShortcutBase(sc, tokens, el, p);
    } else {
      assert tokens[n - 1] == short[n - 2];
      forall q | IsElement(sc.tree, q) ensures Denotes(sc, tokens, n - 1, q) <==> Denotes(sc1, short, n - 2, q) {
        IdShortcut(sc, tokens, n - 1, el, q);
      }
      if tokens[n - 1].Relation? {
        var rel := tokens[n - 1].rel;
        forall q ensures Related(sc, rel, false, p, q) <==> Related(sc1, rel, false, p, q) {
        }
      }
    }
  }

  lemma ShortcutBase(sc: Scene, tokens: seq<Token>, el: Path, p: Path)
    requires Page(sc, []) && sc.isDocument
    requires 2 <= |tokens| && tokens[0].Simple? && tokens[1].Relation?
    requires IsElement(sc.tree, el) && tokens[0].holds(el) && Unique(sc.tree, tokens[0].holds)
    requires IsElement(sc.tree, p)
    ensures Denotes(sc, tokens, 2, p) <==> Denotes(Rooted(sc, el), tokens[1..], 1, p)
  {
    var short, sc1, rel := tokens[1..], Rooted(sc, el), tokens[1].rel;
    LeadingRelated(sc, rel, p, el);
    assert Denotes(sc, tokens, 2, p) <==> Related(sc, rel, false, p, el) by {
      forall q ensures Denotes(sc, tokens, 1, q) <==> tokens[0].holds(q) {
        assert Denotes(sc, tokens, 0, q);
      }
    }
    assert Denotes(sc1, short, 1, p) <==> Related(sc1, rel, true, p, el) by {
      assert Holds(sc1, InContext, el);
    }
  }

  /** An ID no element has, with a combinator behind it, describes nothing. */
  lemma {:induction false} NoHolder(sc: Scene, tokens: seq<Token>, n: nat, p: Path)
    requires 2 <= n <= |tokens| && tokens[0].Simple? && tokens[1].Relation?
    requires forall q :: IsElement(sc.tree, q) ==> !tokens[0].holds(q)
    ensures !Denotes(sc, tokens, n, p)
    decreases n
  {
    if n > 2 {
      var k := n - 1;
      forall q ensures !Denotes(sc, tokens, k, q) {
        NoHolder(sc, tokens, k, q);
      }
    }
  }

  /* ----- lists of nodes ----- */

  lemma {:induction false} KeptMembers(ps: seq<Path>, test: Path -> bool)
    ensures forall p :: p in Kept(ps, test) <==> p in ps && test(p)
  {
    if ps != [] {
      KeptMembers(ps[1..], test);
    }
  }

  ghost predicate Distinct(ps: seq<Path>) {
    forall i, j :: 0 <= i < j < |ps| ==> ps[i] != ps[j]
  }

  lemma {:induction false} KeptDistinct(ps: seq<Path>, test: Path -> bool)
    requires Distinct(ps)
    ensures Distinct(Kept(ps, test))
  {
    if ps != [] {
      KeptDistinct(ps[1..], test);
      KeptMembers(ps[1..], test);
    }
  }

  /** Finders miss nothing, and find a unique node once. */
  lemma Found(t: Tree, root: Path, test: Path -> bool)
    ensures forall p :: p in Find(t, root, test) <==> IsElement(t, p) && Below(root, p) && test(p)
    ensures Unique(t, test) ==> |Find(t, root, test)| <= 1
  {
    var all, f := DocumentOrder.Preorder(t), p => IsElement(t, p) && Below(root, p) && test(p);
    DocumentOrder.PreorderIsPrecedes(t);
    KeptMembers(all, f);
    assert Distinct(all) by {
      forall i, j | 0 <= i < j < |all| ensures all[i] != all[j] {
        DocumentOrder.PrecedesTotal(all[i], all[j]);
      }
    }
    KeptDistinct(all, f);
    var r := Find(t, root, test);
    if |r| > 1 {
      assert r[0] in r && r[1] in r && r[0] != r[1];
    }
  }

  lemma DescribedKept(sc: Scene, groups: seq<seq<Token>>, ps: seq<Path>, test: Path -> bool)
    requires ps != []
    ensures Described(sc, groups, Kept(ps, test)) ==
            (if test(ps[0]) && Chosen(sc, groups, ps[0]) then [ps[0]] else []) + Described(sc, groups, Kept(ps[1..], test))
  {
    hide Chosen, Described;
    if test(ps[0]) {
      assert Kept(ps, test) == [ps[0]] + Kept(ps[1..], test);
      DescribedFirst(sc, groups, ps[0], Kept(ps[1..], test));
    } else {
      assert Kept(ps, test) == Kept(ps[1..], test);
    }
  }

  lemma DescribedFirst(sc: Scene, groups: seq<seq<Token>>, p: Path, rest: seq<Path>)
    ensures Described(sc, groups, [p] + rest) == (if Chosen(sc, groups, p) then [p] else []) + Described(sc, groups, rest)
  {
    hide Chosen;
    assert ([p] + rest)[1..] == rest;
  }

  /** Fewer nodes with fewer tokens, or all of them with all tokens. */
  lemma {:induction false} SameDescribed(
      sc: Scene, groups: seq<seq<Token>>, sc1: Scene, groups1: seq<seq<Token>>,
      ps: seq<Path>, all: Path -> bool, some: Path -> bool)
    requires forall p :: all(p) && Chosen(sc, groups, p) <==> some(p) && Chosen(sc1, groups1, p)
    ensures Described(sc, groups, Kept(ps, all)) == Described(sc1, groups1, Kept(ps, some))
  {
    if ps != [] {
      SameDescribed(sc, groups, sc1, groups1, ps[1..], all, some);
      assert all(ps[0]) && Chosen(sc, groups, ps[0]) <==> some(ps[0]) && Chosen(sc1, groups1, ps[0]);
      DescribedKept(sc, groups, ps, all);
      DescribedKept(sc1, groups1, ps, some);
    }
  }

  lemma {:induction false} AllDescribed(sc: Scene, groups: seq<seq<Token>>, ps: seq<Path>)
    requires forall p :: p in ps ==> Chosen(sc, groups, p)
    ensures Described(sc, groups, ps) == ps
  {
    if ps != [] {
      AllDescribed(sc, groups, ps[1..]);
    }
  }

  /** The elements of the page the selector list describes, in document order. */
  ghost function Answer(sc: Scene, groups: seq<seq<Token>>): seq<Path> {
    Described(sc, groups, Elements(sc.tree))
  }

  lemma OneChosen(sc: Scene, tokens: seq<Token>, p: Path)
    ensures Chosen(sc, [tokens], p) <==> Denotes(sc, tokens, |tokens|, p)
  {
    assert [tokens][0] == tokens;
  }

  /** Scanning below the search root gives the whole answer. */
  lemma ScanIsAnswer(sc: Scene, c: Path, groups: seq<seq<Lexeme>>, text: string)
    requires Page(sc, c)
    requires forall g :: 0 <= g < |groups| ==> Shows(groups[g], text)
    ensures Described(sc, PlainGroups(groups), Find(sc.tree, SearchRoot(c, HasSibling(text)), p => true))
            == Answer(sc, PlainGroups(groups))
  {
    var plain, root, t := PlainGroups(groups), SearchRoot(c, HasSibling(text)), sc.tree;
    var all, some := p => IsElement(t, p), p => IsElement(t, p) && Below(root, p) && (q => true)(p);
    forall p ensures all(p) && Chosen(sc, plain, p) <==> some(p) && Chosen(sc, plain, p) {
      if all(p) && Chosen(sc, plain, p) {
        var g :| 0 <= g < |plain| && Denotes(sc, plain[g], |plain[g]|, p);
        assert Shows(groups[g], text);
        Reach(sc, c, plain[g], p, HasSibling(text));
      }
    }
    SameDescribed(sc, plain, sc, plain, DocumentOrder.Preorder(t), all, some);
  }

  /* ----- a seed set instead of the whole page ----- */

  predicate BySiblings(tokens: seq<Token>) {
    Leading(tokens) && tokens[0].rel.dir == Siblings
  }

  /** The seeds the remaining tokens describe are the nodes all tokens describe. */
  lemma SeedIsAnswer(sc: Scene, c: Path, tokens: seq<Token>, i: nat)
    requires Page(sc, c) && i < |tokens| && forall j :: i <= j < |tokens| ==> tokens[j].Simple?
    ensures var seeds := Find(sc.tree, SearchRoot(c, BySiblings(tokens)), tokens[i].holds);
            && Described(sc, [Cut(tokens, i)], seeds) == Answer(sc, [tokens])
            && (Cut(tokens, i) == [] ==> seeds == Answer(sc, [tokens]))
  {
    hide Page, Denotes, Chosen, Described, Kept;
    var t, cut, root, test := sc.tree, Cut(tokens, i), SearchRoot(c, BySiblings(tokens)), tokens[i].holds;
    var all, some := p => IsElement(t, p), p => IsElement(t, p) && Below(root, p) && test(p);
    forall p ensures all(p) && Chosen(sc, [tokens], p) <==> some(p) && Chosen(sc, [cut], p) {
      if IsElement(t, p) {
        SeedAt(sc, c, tokens, i, p);
      }
    }
    SameDescribed(sc, [tokens], sc, [cut], DocumentOrder.Preorder(t), all, some);
    if cut == [] {
      var seeds := Find(t, root, test);
      Found(t, root, test);
      forall p | p in seeds ensures Chosen(sc, [cut], p) {
        OneChosen(sc, cut, p);
        EmptyDenotes(sc, c, p);
      }
      AllDescribed(sc, [cut], seeds);
    }
  }

  lemma SeedAt(sc: Scene, c: Path, tokens: seq<Token>, i: nat, p: Path)
    requires Page(sc, c) && i < |tokens| && IsElement(sc.tree, p)
    requires forall j :: i <= j < |tokens| ==> tokens[j].Simple?
    ensures Chosen(sc, [tokens], p) <==>
            Below(SearchRoot(c, BySiblings(tokens)), p) && tokens[i].holds(p) && Chosen(sc, [Cut(tokens, i)], p)
  {
    hide Page, Denotes, Chosen, Below;
    OneChosen(sc, tokens, p);
    OneChosen(sc, Cut(tokens, i), p);
    SeedKeeps(sc, tokens, i, |tokens|, p);
    if Chosen(sc, [tokens], p) {
      Reach(sc, c, tokens, p, BySiblings(tokens));
    }
  }

  /** No tokens describe every node below the context. */
  lemma EmptyDenotes(sc: Scene, c: Path, p: Path)
    requires Page(sc, c) && Below(c, p)
    ensures Denotes(sc, [], 0, p)
  {
    if !sc.isDocument {
      assert Related(sc, DESCENDANT, true, p, c) && Holds(sc, InContext, c);
    }
  }

  lemma NothingIsAnswer(sc: Scene, tokens: seq<Token>)
    requires forall p :: IsElement(sc.tree, p) ==> !Denotes(sc, tokens, |tokens|, p)
    ensures Answer(sc, [tokens]) == []
  {
    KeptMembers(DocumentOrder.Preorder(sc.tree), p => IsElement(sc.tree, p));
    forall p | IsElement(sc.tree, p) ensures !Chosen(sc, [tokens], p) {
      OneChosen(sc, tokens, p);
    }
    NoneDescribed(sc, [tokens], Elements(sc.tree));
  }

  lemma {:induction false} NoneDescribed(sc: Scene, groups: seq<seq<Token>>, ps: seq<Path>)
    requires forall p :: p in ps ==> !Chosen(sc, groups, p)
    ensures Described(sc, groups, ps) == []
  {
    if ps != [] {
      NoneDescribed(sc, groups, ps[1..]);
    }
  }

  lemma SameAnswer(sc: Scene, tokens: seq<Token>, sc1: Scene, tokens1: seq<Token>)
    requires sc1.tree == sc.tree
    requires forall p :: IsElement(sc.tree, p) ==> (Denotes(sc, tokens, |tokens|, p) <==> Denotes(sc1, tokens1, |tokens1|, p))
    ensures Answer(sc, [tokens]) == Answer(sc1, [tokens1])
  {
    forall p | IsElement(sc.tree, p) ensures Chosen(sc, [tokens], p) <==> Chosen(sc1, [tokens1], p) {
      OneChosen(sc, tokens, p);
      OneChosen(sc1, tokens1, p);
    }
    var all := p => IsElement(sc.tree, p);
    SameDescribed(sc, [tokens], sc1, [tokens1], DocumentOrder.Preorder(sc.tree), all, all);
  }

  /* ----- ids that occur more than once ----- */

  /** The first element of the page, in document order, that passes. */
  function FirstOf(t: Tree, test: Path -> bool): Path -> bool {
    var found := Find(t, [], test);
    p => found != [] && p == found[0]
  }

  lemma NonEmpty(ps: seq<Path>)
    ensures ps != [] ==> exists p :: p in ps
  {
    if ps != [] {
      assert ps[0] in ps;
    }
  }

  lemma FirstFound(t: Tree, test: Path -> bool)
    ensures var found := Find(t, [], test);
      && Unique(t, FirstOf(t, test))
      && Find(t, [], FirstOf(t, test)) == (if found == [] then [] else [found[0]])
      && (found != [] ==> IsElement(t, found[0]) && test(found[0]) && FirstOf(t, test)(found[0]))
  {
    hide Kept;
    var found, first := Find(t, [], test), FirstOf(t, test);
    Found(t, [], test);
    Found(t, [], first);
    if found != [] {
      assert found[0] in found;
      assert found[0] in Find(t, [], first);
    } else {
      NonEmpty(Find(t, [], first));
    }
  }

  /** A token that accepts only the element found first. */
  function Pinned(t: Tree, token: Token): Token
    requires token.Simple?
  {
    Simple(FirstOf(t, token.holds))
  }

  /** Whatever the ids, the shortened list means the list whose first token accepts only the
      element found; where none is found nothing is described. */
  lemma ShortcutPins(sc: Scene, tokens: seq<Token>, p: Path)
    requires Page(sc, []) && sc.isDocument && IsElement(sc.tree, p)
    requires 2 <= |tokens| && tokens[0].Simple? && tokens[1].Relation?
    ensures var found := Find(sc.tree, [], tokens[0].holds);
      Denotes(sc, tokens[0 := Pinned(sc.tree, tokens[0])], |tokens|, p) <==>
      found != [] && Denotes(Rooted(sc, found[0]), tokens[1..], |tokens| - 1, p)
  {
    hide Denotes, Page, Find, FirstOf;
    var found, pinned := Find(sc.tree, [], tokens[0].holds), tokens[0 := Pinned(sc.tree, tokens[0])];
    assert pinned[1..] == tokens[1..];
    FirstFound(sc.tree, tokens[0].holds);
    if found != [] {
      IdShortcut(sc, pinned, |pinned|, found[0], p);
    } else {
      NonePinned(sc.tree, tokens[0]);
      NoHolder(sc, pinned, |pinned|, p);
    }
  }

  lemma NonePinned(t: Tree, token: Token)
    requires token.Simple? && Find(t, [], token.holds) == []
    ensures forall q :: !Pinned(t, token).holds(q)
  {
  }

  /** Tests that agree on the elements of the page are as good as each other. */
  lemma {:induction false} SameTests(sc: Scene, a: seq<Token>, i: nat, test: Path -> bool, n: nat, p: Path)
    requires i < |a| && a[i].Simple? && Start(a) <= n <= |a|
    requires forall q :: IsElement(sc.tree, q) ==> (test(q) <==> a[i].holds(q))
    requires IsElement(sc.tree, p)
    ensures Denotes(sc, a, n, p) <==> Denotes(sc, a[i := Simple(test)], n, p)
    decreases n
  {
    var b := a[i := Simple(test)];
    if n > Start(a) {
      assert n - 1 != i ==> b[n - 1] == a[n - 1];
      forall q | IsElement(sc.tree, q) ensures Denotes(sc, a, n - 1, q) <==> Denotes(sc, b, n - 1, q) {
        SameTests(sc, a, i, test, n - 1, q);
      }
      if a[n - 1].Relation? {
        forall q | Related(sc, a[n - 1].rel, false, p, q) ensures IsElement(sc.tree, q) {
        }
      }
    } else {
      assert Leading(a) ==> a[0] == b[0];
    }
  }

  /** With unique ids pinning changes nothing. */
  lemma UniquePins(sc: Scene, tokens: seq<Token>, i: nat)
    requires Page(sc, []) && sc.isDocument && i < |tokens| && tokens[i].Simple? && Unique(sc.tree, tokens[i].holds)
    ensures Answer(sc, [tokens[i := Pinned(sc.tree, tokens[i])]]) == Answer(sc, [tokens])
  {
    var test, first := tokens[i].holds, FirstOf(sc.tree, tokens[i].holds);
    var pinned := tokens[i := Simple(first)];
    assert !IsElement(sc.tree, []);
    hide Page, Denotes, Answer, Find, FirstOf;
    FirstIsTest(sc.tree, test);
    forall p | IsElement(sc.tree, p) ensures Denotes(sc, pinned, |pinned|, p) <==> Denotes(sc, tokens, |tokens|, p) {
      SameTests(sc, tokens, i, first, |tokens|, p);
    }
    SameAnswer(sc, pinned, sc, tokens);
  }

  lemma FirstIsTest(t: Tree, test: Path -> bool)
    requires Unique(t, test) && !IsElement(t, [])
    ensures forall q :: IsElement(t, q) ==> (FirstOf(t, test)(q) <==> test(q))
  {
    hide Kept;
    FirstFound(t, test);
    Found(t, [], test);
    forall q | IsElement(t, q) && test(q) ensures FirstOf(t, test)(q) {
      assert q in Find(t, [], test);
    }
  }

  /** Every element the combinator relates to some element with the id is related to `el`. */
  ghost predicate Covers(sc: Scene, test: Path -> bool, rel: Relative, el: Path) {
    forall p, h :: IsElement(sc.tree, p) && test(h) && Related(sc, rel, false, p, h) ==> Related(sc, rel, false, p, el)
  }

  /** Starting at `el` instead of at all elements with the id agrees, whatever stands behind
      the combinator, exactly when `el` covers the others. */
  lemma ShortcutExactly(sc: Scene, test: Path -> bool, rel: Relative, el: Path)
    requires Page(sc, []) && sc.isDocument && IsElement(sc.tree, el) && test(el)
    ensures (forall more: seq<Token>, p: Path :: IsElement(sc.tree, p) ==> Agree(sc, test, rel, el, more, p))
            <==> Covers(sc, test, rel, el)
  {
    if Covers(sc, test, rel, el) {
      forall more: seq<Token>, p: Path | IsElement(sc.tree, p) ensures Agree(sc, test, rel, el, more, p) {
        CoveredAgree(sc, test, rel, el, more, |more|, p);
        assert more[..|more|] == more;
      }
    } else {
      var p, h :| IsElement(sc.tree, p) && test(h) && Related(sc, rel, false, p, h) && !Related(sc, rel, false, p, el);
      WithNoMore(sc, test, rel, el, p);
      assert !Agree(sc, test, rel, el, [], p);
    }
  }

  ghost predicate Agree(sc: Scene, test: Path -> bool, rel: Relative, el: Path, more: seq<Token>, p: Path) {
    Denotes(sc, [Simple(test), Relation(rel)] + more, 2 + |more|, p) <==>
    Denotes(Rooted(sc, el), [Relation(rel)] + more, 1 + |more|, p)
  }

  lemma WithNoMore(sc: Scene, test: Path -> bool, rel: Relative, el: Path, p: Path)
    requires Page(sc, []) && sc.isDocument && IsElement(sc.tree, el) && test(el) && IsElement(sc.tree, p)
    ensures Denotes(sc, [Simple(test), Relation(rel)] + [], 2, p) <==> exists h :: test(h) && Related(sc, rel, false, p, h)
    ensures Denotes(Rooted(sc, el), [Relation(rel)] + [], 1, p) <==> Related(sc, rel, false, p, el)
  {
    var tokens := [Simple(test), Relation(rel)] + [];
    forall q ensures Denotes(sc, tokens, 1, q) <==> test(q) {
      assert Denotes(sc, tokens, 0, q);
    }
    LeadingRelated(sc, rel, p, el);
    var short := [Relation(rel)] + [];
    assert Denotes(Rooted(sc, el), short, 1, p) <==> Related(Rooted(sc, el), rel, true, p, el) by {
      assert Holds(Rooted(sc, el), InContext, el);
    }
  }

  lemma {:induction false} CoveredAgree(sc: Scene, test: Path -> bool, rel: Relative, el: Path, more: seq<Token>, n: nat, p: Path)
    requires Page(sc, []) && sc.isDocument && IsElement(sc.tree, el) && test(el) && IsElement(sc.tree, p)
    requires Covers(sc, test, rel, el) && n <= |more|
    ensures Agree(sc, test, rel, el, more[..n], p)
    decreases n
  {
    var whole, short, sc1 := [Simple(test), Relation(rel)] + more[..n], [Relation(rel)] + more[..n], Rooted(sc, el);
    if n == 0 {
      WithNoMore(sc, test, rel, el, p);
    } else {
      var w, s := [Simple(test), Relation(rel)] + more[..n - 1], [Relation(rel)] + more[..n - 1];
      assert whole[n + 1] == more[n - 1] == short[n];
      forall q | IsElement(sc.tree, q) ensures Denotes(sc, whole, n + 1, q) <==> Denotes(sc1, short, n, q) {
        CoveredAgree(sc, test, rel, el, more, n - 1, q);
        assert whole[..n + 1] == w[..n + 1] && short[..n] == s[..n];
        DenotesPrefix(sc, whole, w, n + 1, q);
        DenotesPrefix(sc1, short, s, n, q);
      }
      if more[n - 1].Relation? {
        var r := more[n - 1].rel;
        forall q ensures Related(sc, r, false, p, q) <==> Related(sc1, r, false, p, q) {
        }
      }
    }
  }

  ghost predicate AgreeSeed(sc: Scene, test: Path -> bool, before: seq<Token>, p: Path) {
    Denotes(sc, before + [Simple(test)], |before| + 1, p) <==>
    Denotes(sc, before + [Simple(FirstOf(sc.tree, test))], |before| + 1, p)
  }

  /** Where the ID is the seed, taking the first element with it agrees, whatever stands before
      it, exactly when there is no other. */
  lemma SeedExactly(sc: Scene, test: Path -> bool)
    requires Page(sc, []) && sc.isDocument
    ensures (forall before: seq<Token>, p: Path :: IsElement(sc.tree, p) ==> AgreeSeed(sc, test, before, p))
            <==> Unique(sc.tree, test)
  {
    var first := FirstOf(sc.tree, test);
    if Unique(sc.tree, test) {
      forall before: seq<Token>, p: Path | IsElement(sc.tree, p) ensures AgreeSeed(sc, test, before, p) {
        var a := before + [Simple(test)];
        FirstIsTest(sc.tree, test);
        SameTests(sc, a, |before|, first, |a|, p);
        assert a[|before| := Simple(first)] == before + [Simple(first)];
      }
    } else {
      var p, q :| IsElement(sc.tree, p) && IsElement(sc.tree, q) && test(p) && test(q) && p != q;
      Lone(sc, test, p);
      Lone(sc, test, q);
      Lone(sc, first, p);
      Lone(sc, first, q);
      assert !AgreeSeed(sc, test, [], p) || !AgreeSeed(sc, test, [], q);
    }
  }

  lemma Lone(sc: Scene, test: Path -> bool, p: Path)
    requires sc.isDocument
    ensures Denotes(sc, [] + [Simple(test)], 1, p) <==> test(p)
  {
    var tokens := [] + [Simple(test)];
    assert Denotes(sc, tokens, 0, p);
  }

  /** An input: two elements with the id, each with a child. Whichever of the two the search
      starts at, the child of the other is described and not found. */
  lemma DuplicateIds(sc: Scene, test: Path -> bool)
    requires sc == Scene(TwoHolders(), One([]), true, false) && forall p :: test(p) <==> p == [0, 0] || p == [0, 1]
    ensures Page(sc, []) && IsElement(sc.tree, [0, 0]) && IsElement(sc.tree, [0, 1])
    ensures forall el :: test(el) ==> !Covers(sc, test, Relative(Parents, true), el)
  {
    HoldersPage(sc);
    var rel := Relative(Parents, true);
    Child(sc, [0, 0]);
    Child(sc, [0, 1]);
    assert Related(sc, rel, false, [0, 0, 0], [0, 0]) && !Related(sc, rel, false, [0, 0, 0], [0, 1]);
    assert Related(sc, rel, false, [0, 1, 0], [0, 1]) && !Related(sc, rel, false, [0, 1, 0], [0, 0]);
  }

  /** A document, its element, two elements below that and one below each. */
  function TwoHolders(): Tree {
    Node(9, [Node(ELEMENT_NODE, [Node(ELEMENT_NODE, [Node(ELEMENT_NODE, [])]), Node(ELEMENT_NODE, [Node(ELEMENT_NODE, [])])])])
  }

  lemma HoldersPage(sc: Scene)
    requires sc == Scene(TwoHolders(), One([]), true, false)
    ensures Page(sc, [])
    ensures forall p :: p in {[0], [0, 0], [0, 1], [0, 0, 0], [0, 1, 0]} ==> IsElement(sc.tree, p)
  {
    var t := TwoHolders();
    var body := t.kids[0];
    forall p | In(t, p) && p != [] ensures IsElement(t, p) {
      AllElements(body, p[1..]);
    }
    var leaf: Path := [];
    InFirst(t, 0, leaf);
    InFirst(body, 0, leaf);
    InFirst(body, 1, leaf);
    InFirst(body.kids[0], 0, leaf);
    InFirst(body.kids[1], 0, leaf);
    InFirst(body, 0, [0]);
    InFirst(body, 1, [0]);
    InFirst(t, 0, [0]);
    InFirst(t, 0, [1]);
    InFirst(t, 0, [0, 0]);
    InFirst(t, 0, [1, 0]);
  }

  lemma InFirst(t: Tree, k: nat, p: Path)
    ensures In(t, [k] + p) <==> k < |t.kids| && In(t.kids[k], p)
    ensures In(t, [k] + p) ==> At(t, [k] + p) == At(t.kids[k], p)
  {
    assert ([k] + p)[1..] == p;
  }

  predicate Elementary(t: Tree) {
    t.nodeType == ELEMENT_NODE && forall k :: 0 <= k < |t.kids| ==> Elementary(t.kids[k])
  }

  lemma {:induction false} AllElements(t: Tree, p: Path)
    requires Elementary(t) && In(t, p)
    ensures IsElement(t, p)
    decreases |p|
  {
    if p != [] {
      AllElements(t.kids[p[0]], p[1..]);
    }
  }

  /** A parent is the nearest node above. */
  lemma Child(sc: Scene, el: Path)
    requires IsElement(sc.tree, el)
    ensures forall q :: Related(sc, Relative(Parents, true), false, el + [0], q) <==> q == el
  {
    var p, rel := el + [0], Relative(Parents, true);
    assert p[..|el|] == el;
    forall m | Ahead(Parents, p, m) ensures m == el || Ahead(Parents, el, m) {
      if |m| < |el| {
        assert m == p[..|m|] == el[..|m|];
      }
    }
    forall q | Related(sc, rel, false, p, q) ensures q == el {
      assert Ahead(Parents, p, el) && Eligible(sc, rel, false, el);
    }
  }
}
