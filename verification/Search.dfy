/** Sizzle's `select` with its two caches: the nodes it finds are exactly those the selector
    describes, whatever earlier searches have left in the caches and on the nodes. */
module Search {
  import opened Dom
  import opened Matcher
  import opened Selector
  import opened Select
  import TC = TokenCache

  /* ----- what the selector comes to mean where an id is not unique ----- */

  predicate Shortcuts(isDocument: bool, ts: seq<Lexeme>) {
    |ts| > 2 && ts[0].kind == Id && ts[0].token.Simple? && isDocument && ts[1].token.Relation?
  }

  /** A finder serves: that for ids is the document's. */
  predicate Findable(isDocument: bool, canFind: Kind -> bool, l: Lexeme) {
    l.kind != Other && canFind(l.kind) && (l.kind == Id ==> isDocument)
  }

  /** The rightmost of the first `n` tokens with a finder, after the last combinator. Behind it
      stands no tag name, whose text could run into the text before it. */
  function SeedPlace(isDocument: bool, canFind: Kind -> bool, ts: seq<Lexeme>, n: nat): (i: Option<nat>)
    requires n <= |ts|
    ensures i.Some? ==> i.value < n && forall j :: i.value <= j < n ==> ts[j].token.Simple?
    ensures i.Some? ==> Findable(isDocument, canFind, ts[i.value])
    ensures i.Some? && canFind(TagName) ==> (forall j :: i.value < j < n ==> ts[j].kind != TagName)
  {
    if n == 0 || ts[n - 1].token.Relation? then None
    else if Findable(isDocument, canFind, ts[n - 1]) then Some(n - 1)
    else SeedPlace(isDocument, canFind, ts, n - 1)
  }

  /** What is left of the tokens once the seeds are found. */
  function AfterSeed(isDocument: bool, canFind: Kind -> bool, needsContext: bool, ts: seq<Lexeme>): seq<Lexeme> {
    var i := SeedPlace(isDocument, canFind, ts, |ts|);
    if !needsContext && i.Some? then Cut(ts, i.value) else ts
  }

  /** The tokens `select` compiles in the end, and stores under their text. */
  function Left(isDocument: bool, canFind: Kind -> bool, needsContext: string -> bool, ts: seq<Lexeme>): seq<Lexeme> {
    if Shortcuts(isDocument, ts) then AfterSeed(false, canFind, needsContext(ToSelector(ts[1..])), ts[1..])
    else AfterSeed(isDocument, canFind, needsContext(ToSelector(ts)), ts)
  }

  /** The text of the tokens reads back as these tokens, if there are any. */
  ghost predicate Rereads(parse: string -> Option<seq<seq<Lexeme>>>, ts: seq<Lexeme>) {
    ts != [] ==> parse(ToSelector(ts)) == Some([ts])
  }

  /** Nothing is asked where the selector is not shortened. */
  lemma WholeRereads(parse: string -> Option<seq<seq<Lexeme>>>, selector: string, ts: seq<Lexeme>)
    requires parse(selector) == Some([ts]) && Reading(selector, [ts])
    ensures Rereads(parse, ts)
  {
    assert [ts][0] == ts;
  }

  /** Where the seeds come from the finder for ids, its token means the first element with the id. */
  function Seeded(sc: Scene, canFind: Kind -> bool, needsContext: bool, ts: seq<Lexeme>): (r: seq<Token>)
    ensures |r| == |ts|
  {
    var i := SeedPlace(sc.isDocument, canFind, ts, |ts|);
    if !needsContext && i.Some? && ts[i.value].kind == Id
    then Plain(ts)[i.value := Pinned(sc.tree, ts[i.value].token)]
    else Plain(ts)
  }

  /** What a list of tokens comes to mean: at most one ID in it stands for the first element
      with that id only. */
  function Meant(sc: Scene, canFind: Kind -> bool, needsContext: string -> bool, ts: seq<Lexeme>): seq<Token> {
    if Shortcuts(sc.isDocument, ts) then Plain(ts)[0 := Pinned(sc.tree, ts[0].token)]
    else Seeded(sc, canFind, needsContext(ToSelector(ts)), ts)
  }

  function MeantGroups(sc: Scene, canFind: Kind -> bool, needsContext: string -> bool, groups: seq<seq<Lexeme>>): seq<seq<Token>> {
    if |groups| == 1 then [Meant(sc, canFind, needsContext, groups[0])] else PlainGroups(groups)
  }

  /** No two elements share an id the selector names. */
  ghost predicate IdsUnique(t: Tree, tokens: seq<Lexeme>) {
    forall i :: 0 <= i < |tokens| && tokens[i].kind == Id && tokens[i].token.Simple? ==> Unique(t, tokens[i].token.holds)
  }

  /** On a page with unique ids the search finds what the selector describes. */
  lemma UniqueMeans(sc: Scene, c: Path, canFind: Kind -> bool, needsContext: string -> bool, groups: seq<seq<Lexeme>>)
    requires Page(sc, c) && forall g :: 0 <= g < |groups| ==> IdsUnique(sc.tree, groups[g])
    ensures Answer(sc, MeantGroups(sc, canFind, needsContext, groups)) == Answer(sc, PlainGroups(groups))
  {
    if |groups| == 1 {
      var ts := groups[0];
      assert PlainGroups(groups) == [Plain(ts)];
      var i := SeedPlace(sc.isDocument, canFind, ts, |ts|);
      if Shortcuts(sc.isDocument, ts) {
        UniquePins(sc, Plain(ts), 0);
      } else if !needsContext(ToSelector(ts)) && i.Some? && ts[i.value].kind == Id {
        UniquePins(sc, Plain(ts), i.value);
      }
    }
  }

  /* ----- the search ----- */

  /** `toSelector`. */
  method Text(tokens: TC.TokenList<Lexeme>) returns (text: string)
    ensures text == ToSelector(tokens.tokens)
  {
    text := "";
    var i := 0;
    while i < |tokens.tokens|
      invariant 0 <= i <= |tokens.tokens|
      invariant text + ToSelector(tokens.tokens[i..]) == ToSelector(tokens.tokens)
    {
      text := text + tokens.tokens[i].text;
      i := i + 1;
    }
  }

  function Contents(lists: seq<TC.TokenList<Lexeme>>): seq<seq<Lexeme>>
    reads lists
  {
    if lists == [] then [] else [lists[0].tokens] + Contents(lists[1..])
  }

  lemma {:induction false} ContentsAre(g: TC.GroupList<Lexeme>, value: seq<seq<Lexeme>>)
    requires TC.Holds(g, value)
    ensures Contents(g.groups) == value
  {
    ContentsOf(g.groups, value);
  }

  lemma {:induction false} ContentsOf(lists: seq<TC.TokenList<Lexeme>>, value: seq<seq<Lexeme>>)
    requires |lists| == |value| && forall i :: 0 <= i < |value| ==> lists[i].tokens == value[i]
    ensures Contents(lists) == value
  {
    if lists != [] {
      ContentsOf(lists[1..], value[1..]);
    }
  }

  ghost predicate MeansGroups(m: Compiled, groups: seq<seq<Token>>) {
    AllNamed(m.groups) && forall sc, p :: SomeMatches(sc, m.groups, p) <==> Chosen(sc, groups, p)
  }

  /** Where the search goes on from; `Nowhere` if it is over. */
  datatype Begin = Nowhere | From(scene: Scene, context: Path, text: string)

  /** The whole list means at the start what the rest of it means from where the search goes on. */
  ghost predicate Continues(sc: Scene, whole: seq<Token>, sc1: Scene, rest: seq<Token>) {
    sc1.tree == sc.tree
    && forall p :: IsElement(sc.tree, p) ==> (Denotes(sc, whole, |whole|, p) <==> Denotes(sc1, rest, |rest|, p))
  }

  ghost predicate DescribesNone(sc: Scene, tokens: seq<Token>) {
    forall p :: IsElement(sc.tree, p) ==> !Denotes(sc, tokens, |tokens|, p)
  }

  /** Lines 5445-5457: when the first token is an ID, start at its element instead. */
  method Shortcut(sc: Scene, c: Path, tokens: TC.TokenList<Lexeme>, text: string) returns (r: Begin)
    requires Page(sc, c) && AllLexed(tokens.tokens) && ToSelector(tokens.tokens) == text
    modifies tokens
    ensures !Shortcuts(sc.isDocument, old(tokens.tokens)) ==> r == From(sc, c, text) && tokens.tokens == old(tokens.tokens)
    ensures Shortcuts(sc.isDocument, old(tokens.tokens)) ==>
      var ts := old(tokens.tokens);
      var pinned := Plain(ts)[0 := Pinned(sc.tree, ts[0].token)];
      if r.Nowhere? then DescribesNone(sc, pinned)
      else
        && tokens.tokens == ts[1..] && r.text == ToSelector(ts[1..])
        && Page(r.scene, r.context) && !r.scene.isDocument
        && Continues(sc, pinned, r.scene, Plain(ts[1..]))
  {
    hide Page, Continues, DescribesNone, Find, Below;
    var ts := tokens.tokens;
    if |ts| > 2 && ts[0].kind == Id && sc.isDocument && ts[1].token.Relation? {
      DocumentContext(sc, c);
      var found := Find(sc.tree, c, ts[0].token.holds);
      ShortcutGoesOn(sc, ts);
      if found == [] {
        return Nowhere;
      }
      tokens.tokens := ts[1..];
      return From(Rooted(sc, found[0]), found[0], text[|ts[0].text|..]);
    }
    r := From(sc, c, text);
  }

  lemma DocumentContext(sc: Scene, c: Path)
    requires Page(sc, c) && sc.isDocument
    ensures c == []
  {
  }

  lemma ShortcutGoesOn(sc: Scene, ts: seq<Lexeme>)
    requires Page(sc, []) && Shortcuts(sc.isDocument, ts)
    ensures var found, pinned := Find(sc.tree, [], ts[0].token.holds), Plain(ts)[0 := Pinned(sc.tree, ts[0].token)];
      if found == [] then DescribesNone(sc, pinned)
      else Page(Rooted(sc, found[0]), found[0]) && Continues(sc, pinned, Rooted(sc, found[0]), Plain(ts[1..]))
  {
    hide Denotes, Find, Below;
    var found, plain := Find(sc.tree, [], ts[0].token.holds), Plain(ts);
    assert plain[1..] == Plain(ts[1..]);
    FirstFound(sc.tree, ts[0].token.holds);
    forall p | IsElement(sc.tree, p)
      ensures Denotes(sc, plain[0 := Pinned(sc.tree, plain[0])], |plain|, p) <==>
              found != [] && Denotes(Rooted(sc, found[0]), plain[1..], |plain| - 1, p)
    {
      ShortcutPins(sc, plain, p);
    }
  }

  /** Lines 5459-5485: the rightmost filter with a finder, if no combinator comes before it
      from the right, yields a seed set and leaves the list. */
  method Seed(sc: Scene, c: Path, tokens: TC.TokenList<Lexeme>, needsContext: bool, canFind: Kind -> bool) returns (seed: Option<seq<Path>>)
    requires Page(sc, c) && AllLexed(tokens.tokens)
    modifies tokens
    ensures AllLexed(tokens.tokens) && tokens.tokens == AfterSeed(sc.isDocument, canFind, needsContext, old(tokens.tokens))
    ensures seed.None? ==> tokens.tokens == old(tokens.tokens) && Seeded(sc, canFind, needsContext, tokens.tokens) == Plain(tokens.tokens)
    ensures seed.Some? ==>
      var meant := [Seeded(sc, canFind, needsContext, old(tokens.tokens))];
      && Described(sc, [Plain(tokens.tokens)], seed.value) == Answer(sc, meant)
      && (tokens.tokens == [] ==> seed.value == Answer(sc, meant))
  {
    hide Page, Chosen, Described, Denotes, Kept, Below, Pinned, Answer, Find, Seeded, SeedPlace;
    var ts := tokens.tokens;
    var i := SeedIndex(sc, ts, needsContext, canFind);
    if i.Some? {
      var l := ts[i.value];
      seed := Some(FindSeeds(sc, SearchRoot(c, BySibling(ts[0])), l));
      tokens.tokens := Cut(ts, i.value);
      SeedFound(sc, c, canFind, ts, i.value);
    } else {
      NotSeeded(sc, canFind, needsContext, ts);
      seed := None;
    }
  }

  /** `find`: the finder for ids gives one element at most. */
  function FindSeeds(sc: Scene, root: Path, l: Lexeme): seq<Path>
    requires l.token.Simple?
  {
    var found := Find(sc.tree, root, l.token.holds);
    if l.kind == Id && found != [] then [found[0]] else found
  }

  /** The loop's search for the token. */
  method SeedIndex(sc: Scene, ts: seq<Lexeme>, needsContext: bool, canFind: Kind -> bool) returns (at: Option<nat>)
    ensures at == if needsContext then None else SeedPlace(sc.isDocument, canFind, ts, |ts|)
  {
    var i := if needsContext then -1 else |ts| - 1;
    while i >= 0
      invariant -1 <= i < |ts|
      invariant if needsContext then i == -1 else SeedPlace(sc.isDocument, canFind, ts, |ts|) == SeedPlace(sc.isDocument, canFind, ts, i + 1)
    {
      if ts[i].token.Relation? {
        return None;
      }
      if Findable(sc.isDocument, canFind, ts[i]) {
        return Some(i);
      }
      i := i - 1;
    }
    at := None;
  }

  ghost predicate AllSimple(ts: seq<Lexeme>, i: nat) {
    forall j :: i <= j < |ts| ==> ts[j].token.Simple?
  }

  lemma NotSeeded(sc: Scene, canFind: Kind -> bool, needsContext: bool, ts: seq<Lexeme>)
    requires needsContext || SeedPlace(sc.isDocument, canFind, ts, |ts|) == None
    ensures Seeded(sc, canFind, needsContext, ts) == Plain(ts)
  {
  }

  lemma SeedFound(sc: Scene, c: Path, canFind: Kind -> bool, ts: seq<Lexeme>, i: nat)
    requires Page(sc, c) && AllLexed(ts) && SeedPlace(sc.isDocument, canFind, ts, |ts|) == Some(i)
    ensures var seeds, meant := FindSeeds(sc, SearchRoot(c, BySibling(ts[0])), ts[i]), [Seeded(sc, canFind, false, ts)];
      && Described(sc, [Plain(Cut(ts, i))], seeds) == Answer(sc, meant)
      && (Cut(ts, i) == [] ==> seeds == Answer(sc, meant))
  {
    hide Chosen, Described, Denotes, Kept, Answer, Find, Page, FirstOf, Below, Seeded, SeedPlace, Plain, Cut, AllSimple;
    SeededIs(sc, canFind, ts, i);
    SeedIs(sc, c, ts, i, SeedTest(sc, ts[i]));
    if ts[i].kind == Id {
      DocumentContext(sc, c);
      FirstFound(sc.tree, ts[i].token.holds);
    }
  }

  /** The test the seeds pass. */
  function SeedTest(sc: Scene, l: Lexeme): Path -> bool
    requires l.token.Simple?
  {
    if l.kind == Id then FirstOf(sc.tree, l.token.holds) else l.token.holds
  }

  lemma SeededIs(sc: Scene, canFind: Kind -> bool, ts: seq<Lexeme>, i: nat)
    requires SeedPlace(sc.isDocument, canFind, ts, |ts|) == Some(i)
    ensures i < |ts| && AllSimple(ts, i) && (ts[i].kind == Id ==> sc.isDocument)
    ensures Seeded(sc, canFind, false, ts) == Plain(ts)[i := Simple(SeedTest(sc, ts[i]))]
  {
    hide FirstOf, SeedPlace;
    assert Plain(ts)[i := Simple(ts[i].token.holds)] == Plain(ts);
  }

  lemma SeedIs(sc: Scene, c: Path, ts: seq<Lexeme>, i: nat, test: Path -> bool)
    requires Page(sc, c) && i < |ts| && AllSimple(ts, i)
    ensures var seeds, meant := Find(sc.tree, SearchRoot(c, BySibling(ts[0])), test), [Plain(ts)[i := Simple(test)]];
      && Described(sc, [Plain(Cut(ts, i))], seeds) == Answer(sc, meant)
      && (Cut(ts, i) == [] ==> seeds == Answer(sc, meant))
  {
    hide Chosen, Described, Denotes, Kept, Answer, Find, Page, Cut, BySibling, BySiblings;
    var tokens := Plain(ts)[i := Simple(test)];
    PlainCut(ts, i, test);
    SeedIsAnswer(sc, c, tokens, i);
  }

  lemma PlainCut(ts: seq<Lexeme>, i: nat, test: Path -> bool)
    requires i < |ts| && AllSimple(ts, i)
    ensures var tokens := Plain(ts)[i := Simple(test)];
      && Cut(tokens, i) == Plain(Cut(ts, i)) && (Cut(tokens, i) == [] <==> Cut(ts, i) == [])
      && BySiblings(tokens) == BySibling(ts[0])
      && forall j :: i <= j < |tokens| ==> tokens[j].Simple?
  {
    CutPlain(ts, i, Simple(test));
    hide Cut, Plain;
  }

  lemma CutPlain(ts: seq<Lexeme>, i: nat, token: Token)
    requires i < |ts|
    ensures Cut(Plain(ts)[i := token], i) == Plain(Cut(ts, i))
  {
    CutUpdated(Plain(ts), i, token);
    CutIsPlain(ts, i);
  }

  lemma CutUpdated<T>(s: seq<T>, i: nat, x: T)
    requires i < |s|
    ensures Cut(s[i := x], i) == Cut(s, i)
  {
    assert s[i := x][..i] == s[..i] && s[i := x][i + 1..] == s[i + 1..];
  }

  lemma {:induction false} CutIsPlain(ts: seq<Lexeme>, i: nat)
    requires i < |ts|
    ensures Cut(Plain(ts), i) == Plain(Cut(ts, i))
  {
    PlainConcat(ts[..i], ts[i + 1..]);
    PlainConcat(ts[..i], ts[i..]);
    assert ts[..i] + ts[i..] == ts;
    var front, back := Plain(ts[..i]), Plain(ts[i..]);
    assert Plain(ts) == front + back && back[1..] == Plain(ts[i + 1..]);
    assert Plain(ts)[..i] == front && Plain(ts)[i + 1..] == back[1..];
  }

  lemma {:induction false} PlainConcat(a: seq<Lexeme>, b: seq<Lexeme>)
    ensures Plain(a + b) == Plain(a) + Plain(b)
  {
    if a == [] {
      assert a + b == b;
    } else {
      assert (a + b)[1..] == a[1..] + b;
      PlainConcat(a[1..], b);
    }
  }

  /** The engine with its two caches; `parse` is `tokenize` without a cache. */
  class Sizzle {
    const tokenizer: TC.Tokenizer<Lexeme>
    const compilerCache: TC.Cache<Compiled>
    const compiler: Compiler
    const engine: Engine

    constructor (parse: string -> Option<seq<seq<Lexeme>>>, cacheLength: nat)
      requires cacheLength > 0
      ensures Valid() && tokenizer.parse == parse
    {
      tokenizer := new TC.Tokenizer(parse, cacheLength);
      compilerCache := new TC.Cache(cacheLength);
      compiler := new Compiler();
      engine := new Engine();
    }

    ghost predicate Valid()
      reads this, tokenizer, tokenizer.tokenCache, tokenizer.outers, tokenizer.lists, compilerCache, engine
    {
      && (compilerCache as object) != tokenizer.tokenCache
      && tokenizer.Valid() && engine.Valid() && CompiledRight()
    }

    /** Every compiled selector means what a fresh tokenizing of its key says. */
    ghost predicate CompiledRight()
      reads this, compilerCache
    {
      && TC.Sound(compilerCache.Now(), compilerCache.cacheLength) && compilerCache.cacheLength > 0
      && forall k :: k in compilerCache.values ==> Right(k, compilerCache.values[k])
    }

    ghost predicate Right(k: string, m: Compiled)
    {
      && k != "" && tokenizer.parse(k[..|k| - 1]).Some?
      && MeansGroups(m, PlainGroups(tokenizer.parse(k[..|k| - 1]).value))
    }

    /** `compile` for a text and the tokens it is read as, given or not: a hit is as good as a
        fresh matcher. */
    method Compile(selector: string, groups: seq<seq<Lexeme>>) returns (m: Compiled)
      requires CompiledRight() && tokenizer.parse(selector) == Some(groups)
      modifies compilerCache, compiler
      ensures CompiledRight() && MeansGroups(m, PlainGroups(groups))
      ensures fresh(m) || m in old(compilerCache.values.Values)
    {
      hide TC.Sound, TC.Put;
      var key := selector + " ";
      assert key[..|key| - 1] == selector;
      if key in compilerCache.values {
        assert Right(key, compilerCache.values[key]);
        return compilerCache.values[key];
      }
      m := compiler.Compile(PlainGroups(groups));
      assert Right(key, m);
      compilerCache.Keep(selector, m);
    }

    /** Run a matcher over candidates with whatever earlier searches left on the nodes. */
    method Scan(m: Compiled, ghost groups: seq<seq<Token>>, sc: Scene, elems: seq<Path>, given: seq<Path>) returns (results: seq<Path>)
      requires engine.Valid() && MeansGroups(m, groups)
      modifies engine, m
      ensures engine.Valid() && results == given + Described(sc, groups, elems)
    {
      results := engine.SuperMatcher(m, sc, elems, given);
      SelectedIsDescribed(sc, m.groups, groups, elems);
    }

    /** Lines 5489-5497: compile what is left and run it on the seeds, or on everything. */
    method Finish(sc: Scene, c: Path, text: string, tokens: TC.TokenList<Lexeme>, seed: Option<seq<Path>>, given: seq<Path>)
      returns (results: seq<Path>)
      requires Valid() && Page(sc, c) && AllLexed(tokens.tokens)
      requires ToSelector(tokens.tokens) == text && tokenizer.parse(text) == Some([tokens.tokens])
      modifies compilerCache, compilerCache.values.Values, compiler, engine
      ensures Valid()
      ensures results == given + if seed.Some? then Described(sc, [Plain(tokens.tokens)], seed.value) else Answer(sc, [Plain(tokens.tokens)])
    {
      hide TC.Sound, TC.Put, TC.Tokenizer.Valid, CompiledRight, Page, Chosen, Described, Denotes;
      var m := Compile(text, [tokens.tokens]);
      assert PlainGroups([tokens.tokens]) == [Plain(tokens.tokens)];
      var elems := if seed.Some? then seed.value else Find(sc.tree, SearchRoot(c, HasSibling(text)), p => true);
      if seed.None? {
        LexedShows(tokens.tokens);
        ScanIsAnswer(sc, c, [tokens.tokens], text);
      }
      results := Scan(m, [Plain(tokens.tokens)], sc, elems, given);
    }

    /** The search from the place the shortcut has left it at. */
    method Proceed(sc: Scene, c: Path, text: string, tokens: TC.TokenList<Lexeme>, canFind: Kind -> bool, needsContext: string -> bool, given: seq<Path>)
      returns (results: seq<Path>)
      requires Valid() && Page(sc, c) && tokens !in tokenizer.lists
      requires AllLexed(tokens.tokens) && ToSelector(tokens.tokens) == text
      requires tokens.tokens == [] ==> tokenizer.parse(text) == Some([tokens.tokens])
      requires Rereads(tokenizer.parse, AfterSeed(sc.isDocument, canFind, needsContext(text), tokens.tokens))
      modifies tokens, compilerCache, compilerCache.values.Values, compiler, engine
      ensures Valid() && results == given + Answer(sc, [Seeded(sc, canFind, needsContext(text), old(tokens.tokens))])
    {
      hide TC.Sound, TC.Put, TC.Tokenizer.Valid, CompiledRight, Page, Chosen, Described, Denotes, Seeded, AfterSeed, Answer;
      var seed := Seed(sc, c, tokens, needsContext(text), canFind);
      var left := text;
      if seed.Some? {
        left := "";
        LexedShows(tokens.tokens);
        if seed.value != [] {
          left := Text(tokens);
        }
        if left == "" {
          NoneDescribed(sc, [Plain(tokens.tokens)], []);
          return given + seed.value;
        }
      }
      results := Finish(sc, c, left, tokens, seed, given);
    }

    /** The part of `select` for a selector without commas; `tokens` is the copy it cuts up. */
    method SelectOne(sc: Scene, c: Path, selector: string, tokens: TC.TokenList<Lexeme>, canFind: Kind -> bool, needsContext: string -> bool, given: seq<Path>)
      returns (results: seq<Path>)
      requires Valid() && Page(sc, c) && tokens !in tokenizer.lists
      requires tokenizer.parse(selector) == Some([tokens.tokens]) && Reading(selector, [tokens.tokens])
      requires Rereads(tokenizer.parse, Left(sc.isDocument, canFind, needsContext, tokens.tokens))
      modifies tokens, compilerCache, compilerCache.values.Values, compiler, engine
      ensures Valid() && results == given + Answer(sc, [Meant(sc, canFind, needsContext, old(tokens.tokens))])
    {
      hide TC.Sound, TC.Put, TC.Tokenizer.Valid, CompiledRight, Page, Seeded, Answer, Pinned, Meant, Left, AfterSeed, Continues, DescribesNone, Shortcuts, Plain;
      ghost var ts := tokens.tokens;
      MeantIs(sc, canFind, needsContext, ts);
      ReadingOne(selector, ts);
      var start := Shortcut(sc, c, tokens, selector);
      if start.Nowhere? {
        NoneIsAnswer(sc, Meant(sc, canFind, needsContext, ts));
        return given;
      }
      var From(sc1, c1, text) := start;
      if Shortcuts(sc.isDocument, ts) {
        ContinuesAnswer(sc, Meant(sc, canFind, needsContext, ts), sc1, Plain(ts[1..]));
        NotSeededById(sc1, canFind, needsContext(text), ts[1..]);
      }
      results := Proceed(sc1, c1, text, tokens, canFind, needsContext, given);
    }

    /** `select` for a list of several groups: no shortcut, everything is a candidate. */
    method SelectMany(sc: Scene, c: Path, selector: string, groups: seq<seq<Lexeme>>, given: seq<Path>) returns (results: seq<Path>)
      requires Valid() && Page(sc, c)
      requires tokenizer.parse(selector) == Some(groups) && Reading(selector, groups)
      modifies compilerCache, compilerCache.values.Values, compiler, engine
      ensures Valid() && results == given + Answer(sc, PlainGroups(groups))
    {
      hide TC.Sound, TC.Put, TC.Tokenizer.Valid, CompiledRight, Page, Chosen, Described, Denotes;
      var m := Compile(selector, groups);
      ScanIsAnswer(sc, c, groups, selector);
      results := Scan(m, PlainGroups(groups), sc, Find(sc.tree, SearchRoot(c, HasSibling(selector)), p => true), given);
    }

    /** `select` without given seeds, from line 5437 on. */
    method Select(sc: Scene, c: Path, selector: string, canFind: Kind -> bool, needsContext: string -> bool, given: seq<Path>)
      returns (results: Option<seq<Path>>)
      requires Valid() && Page(sc, c)
      requires tokenizer.parse(selector).Some? ==>
        var groups := tokenizer.parse(selector).value;
        && Reading(selector, groups)
        && (|groups| == 1 ==> Rereads(tokenizer.parse, Left(sc.isDocument, canFind, needsContext, groups[0])))
      modifies tokenizer`outers, tokenizer`lists, tokenizer.tokenCache, compilerCache, compilerCache.values.Values, compiler, engine
      ensures Valid()
      ensures results == match tokenizer.parse(selector)
                         case None => None
                         case Some(groups) => Some(given + Answer(sc, MeantGroups(sc, canFind, needsContext, groups)))
    {
      hide TC.Sound, TC.Put, Page, CompiledRight, Chosen, Described, Denotes, Meant, Answer;
      var r := tokenizer.Tokenize(selector);
      if r.None? {
        return None;
      }
      var groups := Contents(r.value.groups);
      ContentsAre(r.value, tokenizer.parse(selector).value);
      if |groups| != 1 {
        var list := SelectMany(sc, c, selector, groups, given);
        return Some(list);
      }
      var tokens := new TC.TokenList(r.value.groups[0].tokens);
      r.value.groups := r.value.groups[0 := tokens];
      assert groups == [tokens.tokens];
      var list := SelectOne(sc, c, selector, tokens, canFind, needsContext, given);
      results := Some(list);
    }
  }

  lemma MeantIs(sc: Scene, canFind: Kind -> bool, needsContext: string -> bool, ts: seq<Lexeme>)
    ensures if Shortcuts(sc.isDocument, ts) then
        && |ts| > 2 && ts[0].token.Simple?
        && Meant(sc, canFind, needsContext, ts) == Plain(ts)[0 := Pinned(sc.tree, ts[0].token)]
        && Left(sc.isDocument, canFind, needsContext, ts) == AfterSeed(false, canFind, needsContext(ToSelector(ts[1..])), ts[1..])
      else
        && Meant(sc, canFind, needsContext, ts) == Seeded(sc, canFind, needsContext(ToSelector(ts)), ts)
        && Left(sc.isDocument, canFind, needsContext, ts) == AfterSeed(sc.isDocument, canFind, needsContext(ToSelector(ts)), ts)
  {
  }

  lemma ReadingOne(text: string, ts: seq<Lexeme>)
    requires Reading(text, [ts])
    ensures ToSelector(ts) == text && AllLexed(ts) && (|ts| > 0 ==> AllLexed(ts[1..]))
  {
    hide Lexed, ToSelector, Shows;
    var groups := [ts];
    assert groups[0] == ts;
  }

  lemma NoneIsAnswer(sc: Scene, tokens: seq<Token>)
    requires DescribesNone(sc, tokens)
    ensures Answer(sc, [tokens]) == []
  {
    NothingIsAnswer(sc, tokens);
  }

  lemma ContinuesAnswer(sc: Scene, whole: seq<Token>, sc1: Scene, rest: seq<Token>)
    requires Continues(sc, whole, sc1, rest)
    ensures Answer(sc, [whole]) == Answer(sc1, [rest])
  {
    SameAnswer(sc, whole, sc1, rest);
  }

  /** Away from the document no seeds come from the finder for ids. */
  lemma NotSeededById(sc: Scene, canFind: Kind -> bool, needsContext: bool, ts: seq<Lexeme>)
    requires !sc.isDocument
    ensures Seeded(sc, canFind, needsContext, ts) == Plain(ts)
  {
  }
}
