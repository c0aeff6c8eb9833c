/** The tokenizer's regular expressions for selectors of tag names, classes, ids and combinators,
    and that a list `select` has shortened reads back from its text. */
module Lexer {
  import opened Dom
  import opened Matcher
  import opened Selector
  import opened Select
  import opened Search

  /* ----- the regular expressions ----- */

  predicate White(c: char) {
    c == ' ' || c == '\t' || c == '\r' || c == '\n' || c == 0xc as char
  }

  predicate Operator(c: char) {
    c == '>' || c == '+' || c == '~'
  }

  /** `[\w-]` and `[^\x00-\xa0]`; `*` is allowed in tag names. */
  predicate NameChar(c: char, star: bool) {
    'a' <= c <= 'z' || 'A' <= c <= 'Z' || '0' <= c <= '9' || c == '_' || c == '-' || c > 0xa0 as char || (star && c == '*')
  }

  /** What `.` does not match. */
  predicate LineEnd(c: char) {
    c == '\n' || c == '\r' || c == 0x2028 as char || c == 0x2029 as char
  }

  /** The length `characterEncoding` matches at the start. */
  function NameLength(s: string, star: bool): (n: nat)
    ensures n <= |s|
  {
    if s == "" then 0
    else if s[0] == '\\' then (if |s| > 1 && !LineEnd(s[1]) then 2 + NameLength(s[2..], star) else 0)
    else if NameChar(s[0], star) then 1 + NameLength(s[1..], star)
    else 0
  }

  function WhiteLength(s: string): (n: nat)
    ensures n <= |s| && (n < |s| ==> !White(s[n])) && forall i :: 0 <= i < n ==> White(s[i])
  {
    if s == "" || !White(s[0]) then 0 else 1 + WhiteLength(s[1..])
  }

  /** The length `rcombinators` matches: an operator with white space around it, or white space. */
  function CombinatorLength(s: string): (n: nat)
    ensures n <= |s|
  {
    var w := WhiteLength(s);
    if w < |s| && Operator(s[w]) then w + 1 + WhiteLength(s[w + 1..]) else w
  }

  predicate Prefixed(s: string) {
    s != "" && (s[0] == '.' || s[0] == '#')
  }

  /** The length of the token at the start, 0 if there is none. */
  function Length(s: string): (n: nat)
    ensures n <= |s|
  {
    if s == "" then 0
    else if Prefixed(s) then (var n := NameLength(s[1..], false); if n == 0 then 0 else n + 1)
    else if White(s[0]) || Operator(s[0]) then CombinatorLength(s)
    else NameLength(s, true)
  }

  /** What a name means: the test for a class, an id or a tag name. */
  type Meaning = (Kind, string) -> Path -> bool

  function RelativeOf(text: string): Relative {
    if '>' in text then Relative(Parents, true)
    else if '+' in text then Relative(Siblings, true)
    else if '~' in text then Relative(Siblings, false)
    else DESCENDANT
  }

  function LexemeOf(means: Meaning, text: string): Lexeme
    requires text != ""
  {
    if text[0] == '.' then Lexeme(text, Class, Simple(means(Class, text[1..])))
    else if text[0] == '#' then Lexeme(text, Id, Simple(means(Id, text[1..])))
    else if White(text[0]) || Operator(text[0]) then Lexeme(text, Other, Relation(RelativeOf(text)))
    else Lexeme(text, TagName, Simple(means(TagName, text)))
  }

  /** One group: token after token; `None` where none matches. */
  function Lex(means: Meaning, s: string): Option<seq<Lexeme>>
    decreases |s|
  {
    var n := Length(s);
    if s == "" then Some([])
    else if n == 0 then None
    else
      match Lex(means, s[n..])
      case None => None
      case Some(rest) => Some([LexemeOf(means, s[..n])] + rest)
  }

  /** `tokenize` without its cache, for selectors without commas, brackets and colons. */
  function Parse(means: Meaning): string -> Option<seq<seq<Lexeme>>> {
    s => if s == "" then Some([])
         else match Lex(means, s)
           case None => None
           case Some(ts) => Some([ts])
  }

  /* ----- the loop ----- */

  /** The tokens so far and the tokens of what is left are those of the selector. */
  ghost predicate SoFar(means: Meaning, selector: string, tokens: seq<Lexeme>, soFar: string) {
    Lex(means, selector) ==
      match Lex(means, soFar)
      case None => None
      case Some(rest) => Some(tokens + rest)
  }

  lemma SoFarMore(means: Meaning, selector: string, tokens: seq<Lexeme>, soFar: string)
    requires SoFar(means, selector, tokens, soFar) && Length(soFar) > 0
    ensures SoFar(means, selector, tokens + [LexemeOf(means, soFar[..Length(soFar)])], soFar[Length(soFar)..])
  {
    var n := Length(soFar);
    if Lex(means, soFar[n..]).Some? {
      var first, rest := LexemeOf(means, soFar[..n]), Lex(means, soFar[n..]).value;
      assert tokens + ([first] + rest) == tokens + [first] + rest;
    }
  }

  /** The length an expression matches: of combinators (`Other`), or of names of a kind. */
  function Try(kind: Kind, s: string): nat {
    match kind
    case Other => CombinatorLength(s)
    case TagName => NameLength(s, true)
    case Class => if s != "" && s[0] == '.' && NameLength(s[1..], false) > 0 then 1 + NameLength(s[1..], false) else 0
    case Id => if s != "" && s[0] == '#' && NameLength(s[1..], false) > 0 then 1 + NameLength(s[1..], false) else 0
  }

  /** At most one of the expressions matches, and the token is as long as it says. */
  lemma TryIsLength(s: string)
    ensures forall kind :: Try(kind, s) > 0 ==> Try(kind, s) == Length(s)
    ensures (forall kind :: Try(kind, s) == 0) ==> Length(s) == 0
  {
    if s != "" && !Prefixed(s) {
      assert Try(TagName, s) == NameLength(s, true) && Try(Other, s) == CombinatorLength(s);
    }
    if Prefixed(s) {
      assert Try(Class, s) > 0 || Try(Id, s) > 0 || NameLength(s[1..], false) == 0;
    }
  }

  /** `tokenize` without its cache: in each round a combinator, then each filter in turn. */
  method Tokenize(means: Meaning, selector: string) returns (r: Option<seq<Lexeme>>)
    ensures r == Lex(means, selector)
  {
    hide Length, LexemeOf, Lex, SoFar, Try;
    var soFar := selector;
    var tokens: seq<Lexeme> := [];
    AtStart(means, selector);
    while soFar != ""
      invariant SoFar(means, selector, tokens, soFar)
      decreases |soFar|
    {
      var before := soFar;
      var types := [Other, TagName, Class, Id];
      var i := 0;
      while i < 4
        invariant 0 <= i <= 4 && SoFar(means, selector, tokens, soFar) && |soFar| <= |before|
        invariant |soFar| == |before| ==> soFar == before && forall k :: 0 <= k < i ==> Try(types[k], before) == 0
      {
        TryIsLength(soFar);
        var n := Try(types[i], soFar);
        if n > 0 {
          SoFarMore(means, selector, tokens, soFar);
          tokens := tokens + [LexemeOf(means, soFar[..n])];
          soFar := soFar[n..];
        }
        i := i + 1;
      }
      if soFar == before {
        assert Try(types[0], soFar) == Try(types[1], soFar) == Try(types[2], soFar) == Try(types[3], soFar) == 0;
        NoToken(means, selector, tokens, soFar);
        return None;
      }
    }
    AtFinish(means, selector, tokens);
    r := Some(tokens);
  }

  lemma AtStart(means: Meaning, selector: string)
    ensures SoFar(means, selector, [], selector)
  {
    if Lex(means, selector).Some? {
      assert [] + Lex(means, selector).value == Lex(means, selector).value;
    }
  }

  lemma AtFinish(means: Meaning, selector: string, tokens: seq<Lexeme>)
    requires SoFar(means, selector, tokens, "")
    ensures Lex(means, selector) == Some(tokens)
  {
    assert tokens + [] == tokens;
  }

  lemma NoToken(means: Meaning, selector: string, tokens: seq<Lexeme>, soFar: string)
    requires SoFar(means, selector, tokens, soFar) && soFar != ""
    requires Try(Other, soFar) == Try(TagName, soFar) == Try(Class, soFar) == Try(Id, soFar) == 0
    ensures Lex(means, selector) == None
  {
    TryIsLength(soFar);
    forall kind ensures Try(kind, soFar) == 0 {
      match kind
      case Other =>
      case TagName =>
      case Class =>
      case Id =>
    }
  }

  /* ----- what a token is followed by ----- */

  /** The end of the text, or a class or an id. */
  predicate Stop(s: string) {
    s == "" || Prefixed(s)
  }

  /** `r` ends a token as `x` does: it is a stop, or begins in the same way. */
  predicate Like(x: string, r: string) {
    Stop(r) || (x != "" && r != "" && x[0] == r[0] && (x[0] == '\\' ==> |x| > 1 && |r| > 1 && x[1] == r[1]))
  }

  lemma {:induction false} NameStops(a: string, x: string, r: string, star: bool)
    requires NameLength(a + x, star) == |a| && Like(x, r)
    ensures NameLength(a + r, star) == |a|
    decreases |a|
  {
    if a == "" {
      assert a + x == x && a + r == r;
    } else if a[0] == '\\' {
      assert (a + x)[2..] == a[2..] + x && (a + r)[2..] == a[2..] + r;
      NameStops(a[2..], x, r, star);
    } else {
      assert (a + x)[1..] == a[1..] + x && (a + r)[1..] == a[1..] + r;
      NameStops(a[1..], x, r, star);
    }
  }

  /** Whether white space goes on behind `a` is up to the next character. */
  lemma {:induction false} WhiteFront(a: string, x: string)
    ensures WhiteLength(a) < |a| ==> WhiteLength(a + x) == WhiteLength(a)
    ensures WhiteLength(a) == |a| ==> WhiteLength(a + x) == |a| + WhiteLength(x)
  {
    if a == "" {
      assert a + x == x;
    } else {
      assert (a + x)[1..] == a[1..] + x;
      WhiteFront(a[1..], x);
    }
  }

  lemma CombinatorStops(a: string, x: string, r: string)
    requires a != "" && CombinatorLength(a + x) == |a| && Like(x, r)
    ensures CombinatorLength(a + r) == |a|
  {
    var w := WhiteLength(a);
    WhiteFront(a, x);
    WhiteFront(a, r);
    if w < |a| {
      assert (a + x)[w] == a[w] == (a + r)[w];
      assert (a + x)[w + 1..] == a[w + 1..] + x && (a + r)[w + 1..] == a[w + 1..] + r;
      WhiteFront(a[w + 1..], x);
      WhiteFront(a[w + 1..], r);
    } else {
      assert x != "" ==> (a + x)[w] == x[0];
      assert r != "" ==> (a + r)[w] == r[0];
    }
  }

  /** A token that is followed by another is as long before what is like it. */
  lemma LengthStops(a: string, x: string, r: string)
    requires a != "" && Length(a + x) == |a| && Like(x, r)
    ensures Length(a + r) == |a|
  {
    assert (a + x)[0] == a[0] == (a + r)[0];
    if Prefixed(a) {
      assert (a + x)[1..] == a[1..] + x && (a + r)[1..] == a[1..] + r;
      NameStops(a[1..], x, r, false);
    } else if White(a[0]) || Operator(a[0]) {
      CombinatorStops(a, x, r);
    } else {
      NameStops(a, x, r, true);
    }
  }

  /** Texts that begin with one token begin alike. */
  lemma SameToken(t: string, y: string, z: string)
    requires t != "" && Length(t + y) == |t|
    ensures Like(t + y, t + z)
  {
    assert (t + y)[0] == t[0] == (t + z)[0];
    if t[0] == '\\' {
      assert |t| >= 2;
      assert (t + y)[1] == t[1] == (t + z)[1];
    }
  }

  /* ----- reading and reading back ----- */

  lemma LexFirst(means: Meaning, text: string, rest: string)
    requires text != "" && Length(text + rest) == |text| && Lex(means, rest).Some?
    ensures Lex(means, text + rest) == Some([LexemeOf(means, text)] + Lex(means, rest).value)
  {
    assert (text + rest)[..|text|] == text && (text + rest)[|text|..] == rest;
  }

  /** The texts of the tokens make up the text, and each token reads back from its own. */
  lemma {:induction false} LexText(means: Meaning, s: string)
    requires Lex(means, s).Some?
    ensures var ts := Lex(means, s).value;
      && ToSelector(ts) == s
      && (s != "" ==>
           && ts != [] && ts[0].text == s[..Length(s)] && ts[0] == LexemeOf(means, ts[0].text)
           && Length(s) > 0 && Lex(means, s[Length(s)..]) == Some(ts[1..]))
    decreases |s|
  {
    if s != "" {
      var n := Length(s);
      LexText(means, s[n..]);
      var ts := Lex(means, s).value;
      assert ts[1..] == Lex(means, s[n..]).value;
      assert s == s[..n] + s[n..];
    }
  }

  /* ----- what each text means ----- */

  ghost predicate AllWhite(s: string) {
    forall i :: 0 <= i < |s| ==> White(s[i])
  }

  lemma {:induction false} WhiteThen(s: string, rest: string)
    requires AllWhite(s) && (rest != "" ==> !White(rest[0]))
    ensures WhiteLength(s + rest) == |s|
  {
    if s == "" {
      assert s + rest == rest;
    } else {
      assert (s + rest)[1..] == s[1..] + rest;
      WhiteThen(s[1..], rest);
    }
  }

  /** `>` is the parent and `+` the element just before; `~` is any element before. White space
      around them does not count. */
  lemma CombinatorMeans(means: Meaning, before: string, op: char, after: string, rest: string)
    requires AllWhite(before) && Operator(op) && AllWhite(after)
    requires (rest != "" ==> !White(rest[0])) && Lex(means, rest).Some?
    ensures var text := before + [op] + after;
      var rel := if op == '>' then Relative(Parents, true) else Relative(Siblings, op == '+');
      Lex(means, text + rest) == Some([Lexeme(text, Other, Relation(rel))] + Lex(means, rest).value)
  {
    hide Lex, Length, LexemeOf, WhiteLength, White;
    var text := before + [op] + after;
    CombinatorEnds(before, op, after, rest);
    CombinatorToken(means, before, op, after);
    LexFirst(means, text, rest);
  }

  lemma CombinatorEnds(before: string, op: char, after: string, rest: string)
    requires AllWhite(before) && Operator(op) && AllWhite(after) && (rest != "" ==> !White(rest[0]))
    ensures Length(before + [op] + after + rest) == |before + [op] + after|
  {
    hide WhiteLength;
    var s := before + ([op] + after + rest);
    WhiteThen(before, [op] + after + rest);
    WhiteThen(after, rest);
    assert before + [op] + after + rest == s;
    assert s[|before|] == op && s[|before| + 1..] == after + rest;
    assert before != "" ==> s[0] == before[0];
  }

  lemma CombinatorToken(means: Meaning, before: string, op: char, after: string)
    requires AllWhite(before) && Operator(op) && AllWhite(after)
    ensures var text := before + [op] + after;
      var rel := if op == '>' then Relative(Parents, true) else Relative(Siblings, op == '+');
      LexemeOf(means, text) == Lexeme(text, Other, Relation(rel))
  {
    var text := before + [op] + after;
    forall i | 0 <= i < |text| && i != |before| ensures White(text[i]) {
      assert i > |before| ==> text[i] == after[i - |before| - 1];
    }
    assert text[|before|] == op;
  }

  /** White space alone is any element above. */
  lemma WhiteMeans(means: Meaning, text: string, rest: string)
    requires text != "" && AllWhite(text)
    requires (rest != "" ==> !White(rest[0]) && !Operator(rest[0])) && Lex(means, rest).Some?
    ensures Lex(means, text + rest) == Some([Lexeme(text, Other, Relation(Relative(Parents, false)))] + Lex(means, rest).value)
  {
    hide Lex;
    WhiteThen(text, rest);
    assert (text + rest)[0] == text[0] && (rest != "" ==> (text + rest)[|text|] == rest[0]);
    LexFirst(means, text, rest);
  }

  /** White space is a blank, a tab, a return, a line feed or a form feed. */
  lemma WhiteExactly(c: char, rest: string)
    ensures WhiteLength([c] + rest) == if c as nat in {0x20, 0x9, 0xd, 0xa, 0xc} then 1 + WhiteLength(rest) else 0
  {
    assert ([c] + rest)[1..] == rest;
  }

  /** A name goes on over letters, digits, `_`, `-`, whatever is above 0xa0 and, for tags, `*`;
      a backslash takes any character with it but the four that end a line. */
  lemma NameExactly(c: char, rest: string, star: bool)
    requires c != '\\'
    ensures var n := c as nat;
      NameLength([c] + rest, star) ==
        if 0x30 <= n <= 0x39 || 0x41 <= n <= 0x5a || 0x61 <= n <= 0x7a || n == 0x5f || n == 0x2d || n > 0xa0 || (star && n == 0x2a)
        then 1 + NameLength(rest, star) else 0
    ensures NameLength(['\\', c] + rest, star) ==
      if c as nat in {0xa, 0xd, 0x2028, 0x2029} then 0 else 2 + NameLength(rest, star)
  {
    assert ([c] + rest)[1..] == rest && (['\\', c] + rest)[2..] == rest;
  }

  ghost predicate AllName(s: string, star: bool) {
    forall i :: 0 <= i < |s| ==> NameChar(s[i], star)
  }

  lemma {:induction false} NameThen(s: string, rest: string, star: bool)
    requires AllName(s, star) && (rest != "" ==> !NameChar(rest[0], star) && rest[0] != '\\')
    ensures NameLength(s + rest, star) == |s|
  {
    if s == "" {
      assert s + rest == rest;
    } else {
      assert (s + rest)[1..] == s[1..] + rest;
      NameThen(s[1..], rest, star);
    }
  }

  /** A name behind a dot is a class, behind a hash sign an id. */
  lemma PrefixMeans(means: Meaning, prefix: char, name: string, rest: string)
    requires (prefix == '.' || prefix == '#') && name != "" && AllName(name, false)
    requires (rest != "" ==> !NameChar(rest[0], false) && rest[0] != '\\') && Lex(means, rest).Some?
    ensures var text, kind := [prefix] + name, if prefix == '.' then Class else Id;
      Lex(means, text + rest) == Some([Lexeme(text, kind, Simple(means(kind, name)))] + Lex(means, rest).value)
  {
    hide Lex, NameLength, AllName, NameChar;
    NameThen(name, rest, false);
    var text := [prefix] + name;
    assert text + rest == [prefix] + (name + rest);
    assert (text + rest)[1..] == name + rest && text[1..] == name;
    LexFirst(means, text, rest);
  }

  /** A name alone is that of a tag. */
  lemma NameMeans(means: Meaning, name: string, rest: string)
    requires name != "" && AllName(name, true)
    requires (rest != "" ==> !NameChar(rest[0], true) && rest[0] != '\\') && Lex(means, rest).Some?
    ensures Lex(means, name + rest) == Some([Lexeme(name, TagName, Simple(means(TagName, name)))] + Lex(means, rest).value)
  {
    hide Lex, NameLength;
    NameThen(name, rest, true);
    assert (name + rest)[0] == name[0] && NameChar(name[0], true);
    LexFirst(means, name, rest);
  }

  lemma RelativeShows(text: string)
    ensures RelativeOf(text).dir == Siblings ==> HasSibling(text)
  {
  }

  lemma {:induction false} LexLexed(means: Meaning, s: string)
    requires Lex(means, s).Some?
    ensures AllLexed(Lex(means, s).value)
    decreases |s|
  {
    if s != "" {
      LexText(means, s);
      LexLexed(means, s[Length(s)..]);
      var ts := Lex(means, s).value;
      RelativeShows(ts[0].text);
      forall i | 0 <= i < |ts| ensures Lexed(ts[i]) {
        assert i > 0 ==> ts[i] == ts[1..][i - 1];
      }
    }
  }

  /** Taking out a token behind which stands the end, a class or an id leaves the others as
      they were. */
  lemma {:induction false} CutReads(means: Meaning, s: string, i: nat)
    requires Lex(means, s).Some? && i < |Lex(means, s).value|
    requires Stop(ToSelector(Lex(means, s).value[i + 1..]))
    ensures var us := Cut(Lex(means, s).value, i); Lex(means, ToSelector(us)) == Some(us)
    decreases |s|
  {
    hide Lex, Length, ToSelector, Stop, Cut, Like;
    LexEmpty(means);
    LexText(means, s);
    var ts, n := Lex(means, s).value, Length(s);
    LexText(means, s[n..]);
    CutFirst(ts, i);
    if i > 0 {
      TailOf(ts, i);
      CutReads(means, s[n..], i - 1);
      CutLike(means, s[n..], i - 1);
      LexBefore(means, s, Cut(ts[1..], i - 1));
    }
  }

  lemma LexEmpty(means: Meaning)
    ensures Lex(means, "") == Some([])
  {
  }

  lemma CutFirst(ts: seq<Lexeme>, i: nat)
    requires i < |ts|
    ensures i == 0 ==> Cut(ts, i) == ts[1..]
    ensures i > 0 ==> Cut(ts, i) == [ts[0]] + Cut(ts[1..], i - 1)
  {
    if i > 0 {
      assert ts[1..][..i - 1] == ts[1..i] && ts[..i] == [ts[0]] + ts[1..i];
      assert ts[1..][i..] == ts[i + 1..];
    }
  }

  lemma TailOf(ts: seq<Lexeme>, i: nat)
    requires 0 < i < |ts|
    ensures ts[1..][i - 1 + 1..] == ts[i + 1..]
  {
  }

  /** The text after the cut begins like the text before it, or is a stop. */
  lemma CutLike(means: Meaning, s: string, i: nat)
    requires Lex(means, s).Some? && i < |Lex(means, s).value|
    requires Stop(ToSelector(Lex(means, s).value[i + 1..]))
    ensures Like(s, ToSelector(Cut(Lex(means, s).value, i)))
  {
    hide Lex, Length, Cut;
    LexEmpty(means);
    LexText(means, s);
    var ts, n := Lex(means, s).value, Length(s);
    CutFirst(ts, i);
    if i > 0 {
      var vs := Cut(ts[1..], i - 1);
      assert ([ts[0]] + vs)[1..] == vs;
      assert s == s[..n] + s[n..];
      SameToken(s[..n], s[n..], ToSelector(vs));
    }
  }

  /** The first token of a text before other tokens that read back. */
  lemma LexBefore(means: Meaning, s: string, vs: seq<Lexeme>)
    requires s != "" && Lex(means, s).Some? && Lex(means, ToSelector(vs)) == Some(vs)
    requires Like(s[Length(s)..], ToSelector(vs))
    ensures var us := [Lex(means, s).value[0]] + vs; Lex(means, ToSelector(us)) == Some(us)
  {
    hide Lex, Length, Like;
    LexText(means, s);
    var n := Length(s);
    var text, rest, first := s[..n], s[n..], Lex(means, s).value[0];
    assert s == text + rest;
    LengthStops(text, rest, ToSelector(vs));
    LexFirst(means, text, ToSelector(vs));
    assert ([first] + vs)[1..] == vs;
  }

  /* ----- what `select` asks of the tokenizer ----- */

  lemma {:induction false} StopsHere(ts: seq<Lexeme>, means: Meaning, s: string)
    requires Lex(means, s) == Some(ts) && (ts != [] ==> ts[0].token.Simple? && ts[0].kind != TagName)
    ensures Stop(ToSelector(ts))
  {
    LexText(means, s);
  }

  lemma {:induction false} LexBehind(means: Meaning, s: string, k: nat)
    requires Lex(means, s).Some? && k <= |Lex(means, s).value|
    ensures var rest := Lex(means, s).value[k..]; Lex(means, ToSelector(rest)) == Some(rest)
    decreases |s|
  {
    LexText(means, s);
    var ts := Lex(means, s).value;
    if k == 0 {
      assert ts[0..] == ts;
    } else {
      LexBehind(means, s[Length(s)..], k - 1);
      assert ts[1..][k - 1..] == ts[k..];
    }
  }

  lemma {:induction false} SeedRereads(means: Meaning, s: string, isDocument: bool, canFind: Kind -> bool, needsContext: bool)
    requires Lex(means, s).Some? && canFind(TagName)
    ensures Rereads(Parse(means), AfterSeed(isDocument, canFind, needsContext, Lex(means, s).value))
  {
    var ts := Lex(means, s).value;
    var i := SeedPlace(isDocument, canFind, ts, |ts|);
    LexText(means, s);
    if !needsContext && i.Some? {
      LexBehind(means, s, i.value + 1);
      StopsHere(ts[i.value + 1..], means, ToSelector(ts[i.value + 1..]));
      CutReads(means, s, i.value);
      TextReads(means, Cut(ts, i.value));
    } else {
      TextReads(means, ts);
    }
  }

  lemma TextReads(means: Meaning, ts: seq<Lexeme>)
    requires Lex(means, ToSelector(ts)) == Some(ts)
    ensures Rereads(Parse(means), ts)
  {
    LexText(means, ToSelector(ts));
  }

  /** For these selectors nothing is left to ask: whatever list `select` shortens, its text
      reads back, because the finder for tag names always serves. */
  lemma AlwaysRereads(means: Meaning, selector: string, isDocument: bool, canFind: Kind -> bool, needsContext: string -> bool)
    requires Parse(means)(selector).Some? && canFind(TagName)
    ensures var groups := Parse(means)(selector).value;
      && Reading(selector, groups) && |groups| <= 1
      && (|groups| == 1 ==> Rereads(Parse(means), Left(isDocument, canFind, needsContext, groups[0])))
  {
    if selector != "" {
      var ts := Lex(means, selector).value;
      LexText(means, selector);
      LexLexed(means, selector);
      LexedShows(ts);
      if Shortcuts(isDocument, ts) {
        SeedRereads(means, selector[Length(selector)..], false, canFind, needsContext(ToSelector(ts[1..])));
      } else {
        SeedRereads(means, selector, isDocument, canFind, needsContext(ToSelector(ts)));
      }
    }
  }

  /** An input: without the finder for tag names the class would be cut out of `p.a*`, and
      what is left reads as one tag name. */
  lemma TagRunsOn(means: Meaning, canFind: Kind -> bool)
    requires forall k :: canFind(k) <==> k == Class
    ensures var ts := Lex(means, "p.a*");
      && ts == Some([LexemeOf(means, "p"), LexemeOf(means, ".a"), LexemeOf(means, "*")])
      && !Rereads(Parse(means), AfterSeed(true, canFind, false, ts.value))
  {
    ThreeTokens(means);
    OneToken(means);
    Kinds(means);
    hide Lex, LexemeOf, Cut, ToSelector;
    var p, a, star := LexemeOf(means, "p"), LexemeOf(means, ".a"), LexemeOf(means, "*");
    LeftOf(p, a, star);
    assert SeedPlace(true, canFind, [p, a, star], 3) == SeedPlace(true, canFind, [p, a, star], 2) == Some(1);
    assert |[p, star]| == 2;
  }

  lemma Kinds(means: Meaning)
    ensures LexemeOf(means, "p").kind == TagName && LexemeOf(means, ".a").kind == Class && LexemeOf(means, "*").kind == TagName
    ensures LexemeOf(means, "p").text + LexemeOf(means, "*").text == "p*"
    ensures forall text :: text in ["p", ".a", "*"] ==> LexemeOf(means, text).token.Simple?
  {
  }

  lemma ThreeTokens(means: Meaning)
    ensures Lex(means, "p.a*") == Some([LexemeOf(means, "p"), LexemeOf(means, ".a"), LexemeOf(means, "*")])
  {
    hide LexemeOf, Lex, Length;
    Names();
    LexEmpty(means);
    assert "p" + ".a*" == "p.a*" && "*" + "" == "*" && ".a" + "*" == ".a*";
    LexFirst(means, "*", "");
    LexFirst(means, ".a", "*");
    LexFirst(means, "p", ".a*");
    var p, a, star := LexemeOf(means, "p"), LexemeOf(means, ".a"), LexemeOf(means, "*");
    assert [star] + [] == [star] && [a] + [star] == [a, star] && [p] + [a, star] == [p, a, star];
  }

  lemma OneToken(means: Meaning)
    ensures Parse(means)("p*") == Some([[LexemeOf(means, "p*")]])
  {
    hide LexemeOf, Lex, Length;
    Names();
    LexEmpty(means);
    assert "p*" + "" == "p*";
    LexFirst(means, "p*", "");
    assert [LexemeOf(means, "p*")] + [] == [LexemeOf(means, "p*")];
  }

  lemma LeftOf(p: Lexeme, a: Lexeme, star: Lexeme)
    ensures Cut([p, a, star], 1) == [p, star] && ToSelector([p, star]) == p.text + star.text
  {
    assert [p, star][1..] == [star] && [star][1..] == [];
    assert ToSelector([star]) == star.text + "" == star.text;
  }

  lemma Names()
    ensures Length("*" + "") == 1 && Length(".a" + "*") == 2 && Length("p" + ".a*") == 1 && Length("p*" + "") == 2
  {
    assert "*" + "" == "*" && ".a" + "*" == ".a*" && "p" + ".a*" == "p.a*" && "p*" + "" == "p*";
    assert ".a*"[1..] == "a*" && "a*"[1..] == "*" && "p.a*"[1..] == ".a*" && "p*"[1..] == "*";
    assert NameLength("*", true) == 1 && NameLength("*", false) == 0 && NameLength("a*", false) == 1;
    assert NameLength(".a*", true) == 0;
  }
}
