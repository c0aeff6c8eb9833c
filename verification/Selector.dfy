/** What a token list means, said without matchers, and that compiling keeps the meaning. */
module Selector {
  import opened Dom
  import opened Matcher

  datatype Token = Relation(rel: Relative) | Simple(holds: Path -> bool)

  const DESCENDANT := Relative(Parents, false)

  /** `q` is an ancestor, or an earlier sibling, of `p`. */
  predicate Ahead(dir: Dir, p: Path, q: Path) {
    match dir
    case Parents => |q| < |p| && q == p[..|q|]
    case Siblings => p != [] && q != [] && Up(q) == Up(p) && Last(q) < Last(p)
  }

  /** `q` stands in the combinator's relation to `p`: any such node, or for a `first`
      combinator the one with no other in between. */
  ghost predicate Related(sc: Scene, rel: Relative, base: bool, p: Path, q: Path) {
    && Ahead(rel.dir, p, q)
    && Eligible(sc, rel, base, q)
    && (rel.first ==> forall m :: Ahead(rel.dir, p, m) && Eligible(sc, rel, base, m) ==> m == q || Ahead(rel.dir, q, m))
  }

  predicate Leading(tokens: seq<Token>) {
    tokens != [] && tokens[0].Relation?
  }

  function Start(tokens: seq<Token>): nat {
    if Leading(tokens) then 1 else 0
  }

  /** The first `n` tokens describe `p`, read from the right. */
  ghost predicate Denotes(sc: Scene, tokens: seq<Token>, n: nat, p: Path)
    requires Start(tokens) <= n <= |tokens|
    decreases n
  {
    if n == Start(tokens) then
      (!Leading(tokens) && (sc.xml || sc.isDocument))
      || exists q :: Related(sc, if Leading(tokens) then tokens[0].rel else DESCENDANT, true, p, q) && Holds(sc, InContext, q)
    else match tokens[n - 1]
      case Simple(f) => f(p) && Denotes(sc, tokens, n - 1, p)
      case Relation(rel) => exists q :: Related(sc, rel, false, p, q) && Denotes(sc, tokens, n - 1, q)
  }

  /** The walk finds a node exactly when a related node matches. */
  lemma {:induction false} WalkIsExists(sc: Scene, l: Lead, p: Path)
    requires l.Back?
    ensures Walk(sc, l, p) <==> exists q :: Related(sc, l.rel, l.base, p, q) && Matches(sc, l.inner, q)
    decreases |p|, Position(p)
  {
    match Go(l.rel.dir, p)
    case None =>
    case Some(e) =>
      AheadOf(l.rel.dir, p, e);
      WalkIsExists(sc, l, e);
      if Eligible(sc, l.rel, l.base, e) {
        assert Eligible(sc, l.rel, l.base, e);
        forall q | Related(sc, l.rel, l.base, p, q) && l.rel.first ensures q == e {
          assert Ahead(l.rel.dir, p, e);
        }
        assert Related(sc, l.rel, l.base, p, e);
        forall q | q != e && !l.rel.first
          ensures Related(sc, l.rel, l.base, p, q) <==> Related(sc, l.rel, l.base, e, q) {
        }
      } else {
        forall q ensures Related(sc, l.rel, l.base, p, q) <==> Related(sc, l.rel, l.base, e, q) {
        }
      }
  }

  /** One step of the walk reaches the nearest of the nodes ahead. */
  lemma AheadOf(dir: Dir, p: Path, e: Path)
    requires Go(dir, p) == Some(e)
    ensures forall q :: Ahead(dir, p, q) <==> q == e || Ahead(dir, e, q)
  {
    forall q ensures Ahead(dir, p, q) <==> q == e || Ahead(dir, e, q) {
      if dir == Parents {
        if Ahead(dir, p, q) && q != e {
          assert |q| < |e| && e[..|q|] == p[..|q|];
        }
        if Ahead(dir, e, q) {
          assert e[..|q|] == p[..|q|];
        }
      } else if Ahead(dir, p, q) && Last(q) == Last(e) {
        assert q == Up(q) + [Last(q)] && e == Up(e) + [Last(e)];
      }
    }
  }

  /* ----- compiling ----- */

  /** Combinators among the tokens after a leading one. */
  function Relations(tokens: seq<Token>, n: nat): (c: nat)
    requires Start(tokens) <= n <= |tokens|
    decreases n
  {
    if n == Start(tokens) then 0 else Relations(tokens, n - 1) + (if tokens[n - 1].Relation? then 1 else 0)
  }

  function Foundation(tokens: seq<Token>, done: nat): Lead {
    var rel := if Leading(tokens) then tokens[0].rel else DESCENDANT;
    Base(Leading(tokens),
         Back(rel, true, done, Step(Anything, [InContext])),
         Back(rel, true, done + 1, Step(Anything, [InContext])))
  }

  /** The matcher after the first `n` tokens; `done` is the counter's value at the start. */
  function Build(tokens: seq<Token>, n: nat, done: nat): Step
    requires Start(tokens) <= n <= |tokens|
    decreases n
  {
    if n == Start(tokens) then Step(Foundation(tokens, done), [])
    else
      var s := Build(tokens, n - 1, done);
      match tokens[n - 1]
      case Simple(f) => Step(s.lead, s.tests + [Filter(f)])
      case Relation(rel) => Step(Back(rel, false, done + 2 + Relations(tokens, n - 1), s), [])
  }

  lemma {:induction false} BuildNames(tokens: seq<Token>, n: nat, done: nat)
    requires Start(tokens) <= n <= |tokens|
    ensures Named(Build(tokens, n, done).lead)
    ensures forall x :: x in Names(Build(tokens, n, done).lead) ==> done <= x < done + 2 + Relations(tokens, n)
    decreases n
  {
    if n == Start(tokens) {
    } else {
      BuildNames(tokens, n - 1, done);
    }
  }

  lemma ContextDenotes(sc: Scene, l: Lead, p: Path)
    requires l.Back? && l.base && l.inner == Step(Anything, [InContext])
    ensures Walk(sc, l, p) <==> exists q :: Related(sc, l.rel, true, p, q) && Holds(sc, InContext, q)
  {
    WalkIsExists(sc, l, p);
    forall q ensures Matches(sc, l.inner, q) <==> Holds(sc, InContext, q) {
      assert l.inner.tests[0] == InContext;
    }
  }

  /** Compiling keeps the meaning. */
  lemma {:induction false} BuildDenotes(sc: Scene, tokens: seq<Token>, n: nat, done: nat, p: Path)
    requires Start(tokens) <= n <= |tokens|
    ensures Matches(sc, Build(tokens, n, done), p) <==> Denotes(sc, tokens, n, p)
    decreases n
  {
    var s := Build(tokens, n, done);
    if n == Start(tokens) {
      ContextDenotes(sc, s.lead.matchContext, p);
      ContextDenotes(sc, s.lead.matchAnyContext, p);
      assert Matches(sc, s, p) == LeadMatches(sc, s.lead, p);
      assert LeadMatches(sc, s.lead.matchContext, p) == Walk(sc, s.lead.matchContext, p);
      assert LeadMatches(sc, s.lead.matchAnyContext, p) == Walk(sc, s.lead.matchAnyContext, p);
    } else {
      var before := Build(tokens, n - 1, done);
      match tokens[n - 1]
      case Simple(f) =>
        BuildDenotes(sc, tokens, n - 1, done, p);
        assert s.tests[|before.tests|] == Filter(f);
        assert forall i :: 0 <= i < |before.tests| ==> s.tests[i] == before.tests[i];
      case Relation(rel) =>
        WalkIsExists(sc, s.lead, p);
        forall q ensures Matches(sc, before, q) <==> Denotes(sc, tokens, n - 1, q) {
          BuildDenotes(sc, tokens, n - 1, done, q);
        }
    }
  }

  class Compiler {
    var done: nat

    constructor ()
    {
      done := 0;
    }

    /** `addCombinator` takes the next name from the shared counter. */
    method AddCombinator(inner: Step, rel: Relative, base: bool) returns (l: Lead)
      modifies this
      ensures l == Back(rel, base, old(done), inner) && done == old(done) + 1
    {
      l := Back(rel, base, done, inner);
      done := done + 1;
    }

    method MatcherFromTokens(tokens: seq<Token>) returns (s: Step)
      modifies this
      ensures s == Build(tokens, |tokens|, old(done))
      ensures done == old(done) + 2 + Relations(tokens, |tokens|)
    {
      var leading := tokens != [] && tokens[0].Relation?;
      var implicit := if leading then tokens[0].rel else DESCENDANT;
      var i := if leading then 1 else 0;
      var one := AddCombinator(Step(Anything, [InContext]), implicit, true);
      var any := AddCombinator(Step(Anything, [InContext]), implicit, true);
      s := Step(Base(leading, one, any), []);
      while i < |tokens|
        invariant Start(tokens) <= i <= |tokens|
        invariant s == Build(tokens, i, old(done))
        invariant done == old(done) + 2 + Relations(tokens, i)
      {
        match tokens[i] {
          case Relation(rel) =>
            var l := AddCombinator(s, rel, false);
            s := Step(l, []);
          case Simple(f) =>
            s := Step(s.lead, s.tests + [Filter(f)]);
        }
        i := i + 1;
      }
    }

    /** `compile` on a cache miss, for groups without positional selectors. */
    method Compile(groups: seq<seq<Token>>) returns (m: Compiled)
      modifies this
      ensures fresh(m) && AllNamed(m.groups) && m.matcherCachedRuns == 0
      ensures forall sc, p :: SomeMatches(sc, m.groups, p) <==> Chosen(sc, groups, p)
    {
      var elementMatchers: seq<Step> := [];
      var i := |groups|;
      while i > 0
        invariant 0 <= i <= |groups| && |elementMatchers| == |groups| - i
        invariant AllNamed(elementMatchers)
        invariant forall g, x :: 0 <= g < |elementMatchers| && x in Names(elementMatchers[g].lead) ==> x < done
        invariant forall g :: 0 <= g < |elementMatchers| ==> Means(elementMatchers[g], groups[|groups| - 1 - g])
      {
        i := i - 1;
        BuildMeans(groups[i], done);
        var s := MatcherFromTokens(groups[i]);
        elementMatchers := elementMatchers + [s];
      }
      m := new Compiled(elementMatchers);
      GroupsMean(elementMatchers, groups);
    }
  }

  ghost predicate Means(s: Step, tokens: seq<Token>) {
    forall sc, p :: Matches(sc, s, p) <==> Denotes(sc, tokens, |tokens|, p)
  }

  lemma BuildMeans(tokens: seq<Token>, done: nat)
    ensures var s := Build(tokens, |tokens|, done);
            Means(s, tokens) && Named(s.lead)
            && forall x :: x in Names(s.lead) ==> done <= x < done + 2 + Relations(tokens, |tokens|)
  {
    var s := Build(tokens, |tokens|, done);
    BuildNames(tokens, |tokens|, done);
    forall sc, p ensures Matches(sc, s, p) <==> Denotes(sc, tokens, |tokens|, p) {
      BuildDenotes(sc, tokens, |tokens|, done, p);
    }
  }

  /** The order of the groups does not matter. */
  lemma GroupsMean(steps: seq<Step>, groups: seq<seq<Token>>)
    requires |steps| == |groups|
    requires forall g :: 0 <= g < |steps| ==> Means(steps[g], groups[|groups| - 1 - g])
    ensures forall sc, p :: SomeMatches(sc, steps, p) <==> Chosen(sc, groups, p)
  {
    forall sc, p ensures SomeMatches(sc, steps, p) <==> Chosen(sc, groups, p) {
      if SomeMatches(sc, steps, p) {
        var g :| 0 <= g < |steps| && Matches(sc, steps[g], p);
        assert Denotes(sc, groups[|groups| - 1 - g], |groups[|groups| - 1 - g]|, p);
      }
      if Chosen(sc, groups, p) {
        var h :| 0 <= h < |groups| && Denotes(sc, groups[h], |groups[h]|, p);
        var g := |groups| - 1 - h;
        assert Means(steps[g], groups[h]);
        assert Matches(sc, steps[g], p);
      }
    }
  }

  /** Some group of the selector describes the node. */
  ghost predicate Chosen(sc: Scene, groups: seq<seq<Token>>, p: Path) {
    exists g :: 0 <= g < |groups| && Denotes(sc, groups[g], |groups[g]|, p)
  }

  /** The nodes a selector list describes, in the order of the candidates. */
  ghost function Described(sc: Scene, groups: seq<seq<Token>>, elems: seq<Path>): seq<Path> {
    if elems == [] then []
    else (if Chosen(sc, groups, elems[0]) then [elems[0]] else []) + Described(sc, groups, elems[1..])
  }

  lemma {:induction false} SelectedIsDescribed(sc: Scene, steps: seq<Step>, groups: seq<seq<Token>>, elems: seq<Path>)
    requires forall p :: SomeMatches(sc, steps, p) <==> Chosen(sc, groups, p)
    ensures Selected(sc, steps, elems) == Described(sc, groups, elems)
  {
    if elems != [] {
      SelectedIsDescribed(sc, steps, groups, elems[1..]);
    }
  }
}
