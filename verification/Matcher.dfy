/** Sizzle's compiled matchers: combinators that remember, on the nodes they pass, what they
    found there, against the plain walk that remembers nothing. */
module Matcher {
  import opened Dom

  datatype Dir = Parents | Siblings

  /** An entry of `Expr.relative`; `first` stops at the nearest node. */
  datatype Relative = Relative(dir: Dir, first: bool)

  /** What a selector is matched against: one node, or several. */
  datatype Context = One(node: Path) | Many(nodes: seq<Path>)

  /** A simple filter, or the test a foundational matcher makes. */
  datatype Test = Filter(holds: Path -> bool) | InContext

  /** `elementMatcher(matchers)`: `lead` is `matchers[0]`, evaluated last. */
  datatype Step = Step(lead: Lead, tests: seq<Test>)

  /** `Back` is what `addCombinator` returns; `Base` is the foundational matcher. */
  datatype Lead =
    | Anything
    | Back(rel: Relative, base: bool, doneName: nat, inner: Step)
    | Base(leadingRelative: bool, matchContext: Lead, matchAnyContext: Lead)

  /** What every matcher reads: the tree, the context and whether the document is XML. */
  datatype Scene = Scene(tree: Tree, context: Context, isDocument: bool, xml: bool)

  predicate Holds(sc: Scene, test: Test, p: Path) {
    match test
    case Filter(f) => f(p)
    case InContext => match sc.context
      case One(c) => p == c
      case Many(cs) => p in cs
  }

  function Go(dir: Dir, p: Path): Option<Path> {
    match dir
    case Parents => ParentNode(p)
    case Siblings => PreviousSibling(p)
  }

  function Position(p: Path): nat {
    if p == [] then 0 else Last(p)
  }

  /** `elem.nodeType === 1 || checkNonElements`. */
  predicate Eligible(sc: Scene, rel: Relative, base: bool, p: Path) {
    IsElement(sc.tree, p) || (base && rel.dir == Parents)
  }

  /* ----- the plain walk ----- */

  predicate Matches(sc: Scene, s: Step, p: Path)
    decreases s
  {
    (forall i :: 0 <= i < |s.tests| ==> Holds(sc, s.tests[i], p)) && LeadMatches(sc, s.lead, p)
  }

  predicate LeadMatches(sc: Scene, l: Lead, p: Path)
    decreases l, |p| + 1
  {
    match l
    case Anything => true
    case Back(_, _, _, _) => Walk(sc, l, p)
    case Base(leading, one, any) =>
      if !leading && (sc.xml || sc.isDocument) then true
      else if sc.context.One? then LeadMatches(sc, one, p)
      else LeadMatches(sc, any, p)
  }

  predicate Walk(sc: Scene, l: Lead, p: Path)
    requires l.Back?
    decreases l, |p|, Position(p)
  {
    match Go(l.rel.dir, p)
    case None => false
    case Some(q) =>
      if !Eligible(sc, l.rel, l.base, q) then Walk(sc, l, q)
      else if l.rel.first then Matches(sc, l.inner, q)
      else Matches(sc, l.inner, q) || Walk(sc, l, q)
  }

  /* ----- what a node remembers ----- */

  datatype Slot = Slot(node: Path, dir: Dir)

  /** `cache[1]`: not yet written, `true`, or the value of `cachedruns` when the matcher failed. */
  datatype Verdict = Pending | Yes | No(at: nat)

  /** `outerCache[dir]`: `run` and `name` together are the `dirkey`. */
  datatype Entry = Entry(run: nat, name: nat, verdict: Verdict)

  type Cache = map<Slot, Entry>

  /** Strictly nearer the root, or an earlier position on the same level. */
  predicate Before(p: Path, q: Path) {
    |p| < |q| || (|p| == |q| && Position(p) < Position(q))
  }

  function Names(l: Lead): set<nat> {
    match l
    case Anything => {}
    case Back(_, _, name, inner) => {name} + Names(inner.lead)
    case Base(_, one, any) => Names(one) + Names(any)
  }

  /** `done++` gives every combinator a name of its own. */
  predicate Named(l: Lead) {
    match l
    case Anything => true
    case Back(_, _, name, inner) => name !in Names(inner.lead) && Named(inner.lead)
    case Base(_, one, any) => Names(one) !! Names(any) && Named(one) && Named(any)
  }

  /** An entry of combinator `l` made in this run tells the truth, and one made for the
      current seed says besides that the walk from its node on finds nothing. */
  ghost predicate Truthful(sc: Scene, l: Lead, e: Entry, seed: nat, node: Path)
    requires l.Back?
  {
    match e.verdict
    case Pending => false
    case Yes => Matches(sc, l.inner, node)
    case No(at) => at <= seed && !Matches(sc, l.inner, node) && (at == seed ==> !Walk(sc, l, node))
  }

  predicate Mine(l: Lead, run: nat, k: Slot, c: Cache)
    requires l.Back?
  {
    k in c && k.dir == l.rel.dir && c[k].run == run && c[k].name == l.doneName
  }

  ghost predicate AllTruthful(sc: Scene, c: Cache, run: nat, seed: nat, l: Lead)
    requires l.Back?
  {
    forall k :: Mine(l, run, k, c) ==> Truthful(sc, l, c[k], seed, k.node)
  }

  ghost predicate Sound(sc: Scene, c: Cache, run: nat, seed: nat, l: Lead) {
    match l
    case Anything => true
    case Back(_, _, _, inner) => AllTruthful(sc, c, run, seed, l) && Sound(sc, c, run, seed, inner.lead)
    case Base(_, one, any) => Sound(sc, c, run, seed, one) && Sound(sc, c, run, seed, any)
  }

  /** While `l` walks and has come to `cur`, the nodes it has passed on this walk are only
      known to find something if the rest of the walk does. */
  ghost predicate Walking(sc: Scene, c: Cache, run: nat, seed: nat, l: Lead, cur: Path)
    requires l.Back?
  {
    forall k :: Mine(l, run, k, c) ==>
      match c[k].verdict
      case Pending => false
      case Yes => Matches(sc, l.inner, k.node)
      case No(at) =>
        && at <= seed
        && !Matches(sc, l.inner, k.node)
        && (at == seed ==>
              || !Walk(sc, l, k.node)
              || (!Before(k.node, cur) && (Walk(sc, l, k.node) ==> Walk(sc, l, cur))))
  }

  /** `c'` differs from `c` only in entries of this run with a name among `names`,
      on nodes before `p`. */
  predicate Touches(c: Cache, c': Cache, run: nat, names: set<nat>, p: Path) {
    && (forall k :: k in c ==> k in c')
    && (forall k :: k in c' ==>
         (k in c && c'[k] == c[k]) || (c'[k].run == run && c'[k].name in names && Before(k.node, p)))
  }

  lemma TouchesMore(c: Cache, c': Cache, c'': Cache, run: nat, names: set<nat>, q: Path, p: Path)
    requires Touches(c, c', run, names, p) && Touches(c', c'', run, names, q) && (q == p || Before(q, p))
    ensures Touches(c, c'', run, names, p)
  {
  }

  /** No entry with a name among `names` is new in `c'`. */
  predicate Spares(c: Cache, c': Cache, names: set<nat>) {
    forall k :: k in c' && c'[k].name in names ==> k in c && c'[k] == c[k]
  }

  /** Entries of other combinators may overwrite the entries of `l`, never falsify them. */
  lemma {:induction false} SoundFrame(sc: Scene, c: Cache, c': Cache, run: nat, seed: nat, l: Lead)
    requires Sound(sc, c, run, seed, l) && Spares(c, c', Names(l))
    ensures Sound(sc, c', run, seed, l)
  {
    match l
    case Anything =>
    case Back(_, _, _, inner) =>
      SoundFrame(sc, c, c', run, seed, inner.lead);
      assert forall k :: Mine(l, run, k, c') ==> Mine(l, run, k, c) && c[k] == c'[k];
    case Base(_, one, any) =>
      SoundFrame(sc, c, c', run, seed, one);
      SoundFrame(sc, c, c', run, seed, any);
  }

  lemma OwnFrame(sc: Scene, c: Cache, c': Cache, run: nat, seed: nat, l: Lead, p: Path)
    requires l.Back? && l.doneName !in Names(l.inner.lead)
    requires AllTruthful(sc, c, run, seed, l) && Touches(c, c', run, Names(l.inner.lead), p)
    ensures AllTruthful(sc, c', run, seed, l)
  {
    assert forall k :: Mine(l, run, k, c') ==> Mine(l, run, k, c) && c[k] == c'[k];
  }

  /** What held for one seed holds for the next. */
  lemma {:induction false} SoundNext(sc: Scene, c: Cache, run: nat, seed: nat, l: Lead)
    requires Sound(sc, c, run, seed, l)
    ensures Sound(sc, c, run, seed + 1, l)
  {
    match l
    case Anything =>
    case Back(_, _, _, inner) => SoundNext(sc, c, run, seed, inner.lead);
    case Base(_, one, any) =>
      SoundNext(sc, c, run, seed, one);
      SoundNext(sc, c, run, seed, any);
  }

  /** Passing `e`, which was found not to match: it may now be remembered as failing. */
  lemma WalkingPast(sc: Scene, c: Cache, c': Cache, run: nat, seed: nat, l: Lead, cur: Path, e: Path)
    requires l.Back? && !l.rel.first && Go(l.rel.dir, cur) == Some(e)
    requires Eligible(sc, l.rel, l.base, e) ==> !Matches(sc, l.inner, e)
    requires Walking(sc, c, run, seed, l, cur)
    requires forall k :: Mine(l, run, k, c') ==>
      (Mine(l, run, k, c) && c[k] == c'[k]) || (k.node == e && c'[k].verdict == No(seed) && Eligible(sc, l.rel, l.base, e))
    ensures Walking(sc, c', run, seed, l, e)
  {
    assert Walk(sc, l, cur) == Walk(sc, l, e);
    forall k | Mine(l, run, k, c')
      ensures match c'[k].verdict
              case Pending => false
              case Yes => Matches(sc, l.inner, k.node)
              case No(at) => at <= seed && !Matches(sc, l.inner, k.node) && (at == seed ==>
                !Walk(sc, l, k.node) || (!Before(k.node, e) && (Walk(sc, l, k.node) ==> Walk(sc, l, e))))
    {
      if Mine(l, run, k, c) && c[k] == c'[k] && c[k].verdict.No? {
        assert !Before(k.node, cur) ==> !Before(k.node, e);
      }
    }
  }

  /** The walk found its node: the seed is done, and for the next one all entries are true. */
  lemma WalkingFound(sc: Scene, c: Cache, c': Cache, run: nat, seed: nat, l: Lead, cur: Path, e: Path)
    requires l.Back?
    requires Walking(sc, c, run, seed, l, cur)
    requires forall k :: Mine(l, run, k, c') ==>
      (Mine(l, run, k, c) && c[k] == c'[k]) || (k.node == e && c'[k].verdict == Yes && Matches(sc, l.inner, e))
    ensures AllTruthful(sc, c', run, seed + 1, l)
  {
  }

  /** The walk found nothing: neither would it from any node it passed. */
  lemma WalkingDone(sc: Scene, c: Cache, run: nat, seed: nat, l: Lead, cur: Path)
    requires l.Back? && Walking(sc, c, run, seed, l, cur) && !Walk(sc, l, cur)
    ensures AllTruthful(sc, c, run, seed, l)
  {
  }

  /** Sizzle's shared variables and the data hung on nodes. */
  class Engine {
    var cache: Cache
    var dirruns: nat
    var cachedruns: nat

    constructor ()
      ensures cache == map[] && dirruns == 0
    {
      cache, dirruns, cachedruns := map[], 0, 0;
    }

    /** The closure `elementMatcher` returns. */
    method Element(sc: Scene, s: Step, p: Path) returns (r: bool)
      requires Named(s.lead) && Sound(sc, cache, dirruns, cachedruns, s.lead)
      modifies this`cache
      ensures r == Matches(sc, s, p)
      ensures Sound(sc, cache, dirruns, if r then cachedruns + 1 else cachedruns, s.lead)
      ensures Touches(old(cache), cache, dirruns, Names(s.lead), p)
      decreases s
    {
      var i := |s.tests|;
      while i > 0
        invariant 0 <= i <= |s.tests|
        invariant forall j :: i <= j < |s.tests| ==> Holds(sc, s.tests[j], p)
      {
        i := i - 1;
        if !Holds(sc, s.tests[i], p) {
          return false;
        }
      }
      r := First(sc, s.lead, p);
    }

    /** `matchers[0]`. */
    method First(sc: Scene, l: Lead, p: Path) returns (r: bool)
      requires Named(l) && Sound(sc, cache, dirruns, cachedruns, l)
      modifies this`cache
      ensures r == LeadMatches(sc, l, p)
      ensures Sound(sc, cache, dirruns, if r then cachedruns + 1 else cachedruns, l)
      ensures Touches(old(cache), cache, dirruns, Names(l), p)
      decreases l, 1, 0
    {
      match l
      case Anything => r := true;
      case Back(rel, _, _, _) =>
        if rel.first || sc.xml {
          r := PlainCombinator(sc, l, p);
        } else {
          r := Combinator(sc, l, p);
        }
      case Base(leading, one, any) =>
        if !leading && (sc.xml || sc.isDocument) {
          r := true;
          SoundNext(sc, cache, dirruns, cachedruns, l);
        } else if sc.context.One? {
          r := First(sc, one, p);
          SoundFrame(sc, old(cache), cache, dirruns, cachedruns, any);
          SoundNext(sc, cache, dirruns, cachedruns, any);
        } else {
          r := First(sc, any, p);
          SoundFrame(sc, old(cache), cache, dirruns, cachedruns, one);
          SoundNext(sc, cache, dirruns, cachedruns, one);
        }
    }

    /** Lines 5092-5100 and the `first` closure: the walk without memory. */
    method PlainCombinator(sc: Scene, l: Lead, p: Path) returns (r: bool)
      requires l.Back? && (l.rel.first || sc.xml)
      requires Named(l) && Sound(sc, cache, dirruns, cachedruns, l)
      modifies this`cache
      ensures r == Walk(sc, l, p)
      ensures Sound(sc, cache, dirruns, if r then cachedruns + 1 else cachedruns, l)
      ensures Touches(old(cache), cache, dirruns, Names(l), p)
      decreases l, 0, 2
    {
      var elem := Go(l.rel.dir, p);
      ghost var cur := p;
      while elem.Some?
        invariant elem == Go(l.rel.dir, cur) && (cur == p || Before(cur, p))
        invariant Walk(sc, l, p) == Walk(sc, l, cur)
        invariant Sound(sc, cache, dirruns, cachedruns, l)
        invariant Touches(old(cache), cache, dirruns, Names(l), p)
        decreases |cur|, Position(cur)
      {
        var e := elem.value;
        if Eligible(sc, l.rel, l.base, e) {
          ghost var before := cache;
          var found := Plain(sc, l, e);
          TouchesMore(old(cache), before, cache, dirruns, Names(l), e, p);
          if found {
            return true;
          } else if l.rel.first {
            return false;
          }
        }
        cur := e;
        elem := Go(l.rel.dir, e);
      }
      r := false;
    }

    /** Match one node on the walk without memory. */
    method Plain(sc: Scene, l: Lead, e: Path) returns (found: bool)
      requires l.Back? && Named(l) && Sound(sc, cache, dirruns, cachedruns, l)
      modifies this`cache
      ensures found == Matches(sc, l.inner, e)
      ensures Sound(sc, cache, dirruns, if found then cachedruns + 1 else cachedruns, l)
      ensures Touches(old(cache), cache, dirruns, Names(l), e)
      decreases l, 0, 1
    {
      ghost var before := cache;
      found := Element(sc, l.inner, e);
      OwnFrame(sc, before, cache, dirruns, cachedruns, l, e);
      if found {
        SoundNext(sc, before, dirruns, cachedruns, l);
        OwnFrame(sc, before, cache, dirruns, cachedruns + 1, l, e);
      }
    }

    /** Lines 5110-5115: match a node not yet known to this combinator, and remember. */
    method Visit(sc: Scene, l: Lead, slot: Slot) returns (found: bool)
      requires l.Back? && slot.dir == l.rel.dir && Named(l)
      requires !Mine(l, dirruns, slot, cache)
      requires Sound(sc, cache, dirruns, cachedruns, l.inner.lead)
      modifies this`cache
      ensures found == Matches(sc, l.inner, slot.node)
      ensures Sound(sc, cache, dirruns, if found then cachedruns + 1 else cachedruns, l.inner.lead)
      ensures forall k :: k in old(cache) ==> k in cache
      ensures forall k :: k in cache && k != slot ==>
        (k in old(cache) && cache[k] == old(cache)[k])
        || (cache[k].run == dirruns && cache[k].name in Names(l.inner.lead) && Before(k.node, slot.node))
      ensures slot in cache && cache[slot] == Entry(dirruns, l.doneName, if found then Yes else No(cachedruns))
      decreases l, 0, 0
    {
      ghost var c0 := cache;
      cache := cache[slot := Entry(dirruns, l.doneName, Pending)];
      SoundFrame(sc, c0, cache, dirruns, cachedruns, l.inner.lead);
      ghost var c1 := cache;
      found := Element(sc, l.inner, slot.node);
      assert cache[slot] == c1[slot];
      ghost var c2 := cache;
      cache := cache[slot := cache[slot].(verdict := if found then Yes else No(cachedruns))];
      SoundFrame(sc, c2, cache, dirruns, if found then cachedruns + 1 else cachedruns, l.inner.lead);
    }

    /** Lines 5103-5116, for one node that counts: answer from memory, or match and remember. */
    method Consult(sc: Scene, l: Lead, ghost cur: Path, e: Path) returns (answer: Option<bool>)
      requires l.Back? && !l.rel.first && Named(l)
      requires Go(l.rel.dir, cur) == Some(e) && Eligible(sc, l.rel, l.base, e)
      requires Walking(sc, cache, dirruns, cachedruns, l, cur)
      requires Sound(sc, cache, dirruns, cachedruns, l.inner.lead)
      modifies this`cache
      ensures answer.Some? ==> answer.value == Walk(sc, l, cur)
      ensures answer.Some? ==> Sound(sc, cache, dirruns, if answer.value then cachedruns + 1 else cachedruns, l)
      ensures answer == None ==>
        && Walk(sc, l, cur) == Walk(sc, l, e)
        && Walking(sc, cache, dirruns, cachedruns, l, e)
        && Sound(sc, cache, dirruns, cachedruns, l.inner.lead)
      ensures Touches(old(cache), cache, dirruns, Names(l), cur)
      decreases l, 0, 1
    {
      ghost var c := cache;
      var slot := Slot(e, l.rel.dir);
      if slot in cache && cache[slot].run == dirruns && cache[slot].name == l.doneName {
        assert Mine(l, dirruns, slot, cache);
        var data := cache[slot].verdict;
        if data == Yes || data == No(cachedruns) {
          if data == Yes {
            WalkingFound(sc, cache, cache, dirruns, cachedruns, l, cur, e);
            SoundNext(sc, cache, dirruns, cachedruns, l.inner.lead);
          } else {
            WalkingDone(sc, cache, dirruns, cachedruns, l, cur);
          }
          return Some(data == Yes);
        }
      } else {
        var found := Visit(sc, l, slot);
        if found {
          WalkingFound(sc, c, cache, dirruns, cachedruns, l, cur, e);
          return Some(true);
        }
      }
      WalkingPast(sc, c, cache, dirruns, cachedruns, l, cur, e);
      answer := None;
    }

    /** Lines 5101-5118: the walk that reads and writes the nodes' memory. */
    method Combinator(sc: Scene, l: Lead, p: Path) returns (r: bool)
      requires l.Back? && !l.rel.first && !sc.xml
      requires Named(l) && Sound(sc, cache, dirruns, cachedruns, l)
      modifies this`cache
      ensures r == Walk(sc, l, p)
      ensures Sound(sc, cache, dirruns, if r then cachedruns + 1 else cachedruns, l)
      ensures Touches(old(cache), cache, dirruns, Names(l), p)
      decreases l, 0, 2
    {
      var elem := Go(l.rel.dir, p);
      ghost var cur := p;
      while elem.Some?
        invariant elem == Go(l.rel.dir, cur) && (cur == p || Before(cur, p))
        invariant Walk(sc, l, p) == Walk(sc, l, cur)
        invariant Walking(sc, cache, dirruns, cachedruns, l, cur)
        invariant Sound(sc, cache, dirruns, cachedruns, l.inner.lead)
        invariant Touches(old(cache), cache, dirruns, Names(l), p)
        decreases |cur|, Position(cur)
      {
        var e := elem.value;
        ghost var c := cache;
        if Eligible(sc, l.rel, l.base, e) {
          var answer := Consult(sc, l, cur, e);
          TouchesMore(old(cache), c, cache, dirruns, Names(l), cur, p);
          if answer.Some? {
            return answer.value;
          }
        } else {
          WalkingPast(sc, c, cache, dirruns, cachedruns, l, cur, e);
        }
        cur := e;
        elem := Go(l.rel.dir, e);
      }
      WalkingDone(sc, cache, dirruns, cachedruns, l, cur);
      r := false;
    }

    /** No entry is from a run still to come. */
    ghost predicate Valid()
      reads this
    {
      forall k :: k in cache ==> cache[k].run <= dirruns
    }

    /** `superMatcher` with element matchers only, at the outermost level. */
    method SuperMatcher(m: Compiled, sc: Scene, elems: seq<Path>, given: seq<Path>) returns (results: seq<Path>)
      requires Valid() && AllNamed(m.groups)
      modifies this, m
      ensures results == given + Selected(sc, m.groups, elems)
      ensures Valid() && dirruns == old(dirruns) + 1
      ensures m.matcherCachedRuns == old(m.matcherCachedRuns) + |elems|
    {
      results := given;
      dirruns := dirruns + 1;
      cachedruns := m.matcherCachedRuns;
      FreshRun(sc, cache, dirruns, cachedruns, m.groups);
      var i := 0;
      while i < |elems|
        invariant 0 <= i <= |elems| && dirruns == old(dirruns) + 1 && Valid()
        invariant cachedruns == m.matcherCachedRuns == old(m.matcherCachedRuns) + i
        invariant results == given + Selected(sc, m.groups, elems[..i])
        invariant forall g :: 0 <= g < |m.groups| ==> Sound(sc, cache, dirruns, cachedruns, m.groups[g].lead)
      {
        var hit := Candidate(m, sc, elems[i]);
        assert elems[..i + 1] == elems[..i] + [elems[i]];
        SelectedMore(sc, m.groups, elems[..i], elems[i]);
        if hit {
          results := results + [elems[i]];
        }
        m.matcherCachedRuns := m.matcherCachedRuns + 1;
        cachedruns := m.matcherCachedRuns;
        i := i + 1;
      }
      assert elems[..i] == elems;
    }

    /** Lines 5328-5333: try the groups on one candidate until one matches. */
    method Candidate(m: Compiled, sc: Scene, elem: Path) returns (hit: bool)
      requires Valid() && AllNamed(m.groups)
      requires forall g :: 0 <= g < |m.groups| ==> Sound(sc, cache, dirruns, cachedruns, m.groups[g].lead)
      modifies this`cache
      ensures Valid() && hit == SomeMatches(sc, m.groups, elem)
      ensures forall g :: 0 <= g < |m.groups| ==> Sound(sc, cache, dirruns, cachedruns + 1, m.groups[g].lead)
    {
      var j := 0;
      while j < |m.groups|
        invariant 0 <= j <= |m.groups| && Valid()
        invariant forall g :: 0 <= g < j ==> !Matches(sc, m.groups[g], elem)
        invariant forall g :: 0 <= g < |m.groups| ==> Sound(sc, cache, dirruns, cachedruns, m.groups[g].lead)
      {
        ghost var c := cache;
        hit := Element(sc, m.groups[j], elem);
        forall g | 0 <= g < |m.groups|
          ensures Sound(sc, cache, dirruns, cachedruns + 1, m.groups[g].lead)
          ensures !hit ==> Sound(sc, cache, dirruns, cachedruns, m.groups[g].lead)
        {
          if g != j {
            SoundFrame(sc, c, cache, dirruns, cachedruns, m.groups[g].lead);
          }
          if g != j || !hit {
            SoundNext(sc, cache, dirruns, cachedruns, m.groups[g].lead);
          }
        }
        if hit {
          return;
        }
        j := j + 1;
      }
      forall g | 0 <= g < |m.groups| {
        SoundNext(sc, cache, dirruns, cachedruns, m.groups[g].lead);
      }
      hit := false;
    }
  }

  /** A compiled selector: what `matcherFromGroupMatchers` closes over. */
  class Compiled {
    const groups: seq<Step>
    var matcherCachedRuns: nat

    constructor (groups: seq<Step>)
      ensures this.groups == groups && matcherCachedRuns == 0
    {
      this.groups, matcherCachedRuns := groups, 0;
    }
  }

  ghost predicate AllNamed(groups: seq<Step>) {
    && (forall g :: 0 <= g < |groups| ==> Named(groups[g].lead))
    && (forall g, h :: 0 <= g < h < |groups| ==> Names(groups[g].lead) !! Names(groups[h].lead))
  }

  predicate SomeMatches(sc: Scene, groups: seq<Step>, p: Path) {
    exists g :: 0 <= g < |groups| && Matches(sc, groups[g], p)
  }

  function Selected(sc: Scene, groups: seq<Step>, elems: seq<Path>): seq<Path> {
    if elems == [] then []
    else (if SomeMatches(sc, groups, elems[0]) then [elems[0]] else []) + Selected(sc, groups, elems[1..])
  }

  lemma {:induction false} SelectedMore(sc: Scene, groups: seq<Step>, elems: seq<Path>, p: Path)
    ensures Selected(sc, groups, elems + [p]) ==
            Selected(sc, groups, elems) + (if SomeMatches(sc, groups, p) then [p] else [])
  {
    if elems == [] {
    } else {
      SelectedMore(sc, groups, elems[1..], p);
      assert (elems + [p])[1..] == elems[1..] + [p];
    }
  }

  /** Whatever earlier runs left behind is silent in a new one. */
  lemma FreshRun(sc: Scene, c: Cache, run: nat, seed: nat, groups: seq<Step>)
    requires forall k :: k in c ==> c[k].run < run
    ensures forall g :: 0 <= g < |groups| ==> Sound(sc, c, run, seed, groups[g].lead)
  {
    forall g | 0 <= g < |groups| {
      FreshLead(sc, c, run, seed, groups[g].lead);
    }
  }

  lemma FreshLead(sc: Scene, c: Cache, run: nat, seed: nat, l: Lead)
    requires forall k :: k in c ==> c[k].run < run
    ensures Sound(sc, c, run, seed, l)
  {
    match l
    case Anything =>
    case Back(_, _, _, inner) => FreshLead(sc, c, run, seed, inner.lead);
    case Base(_, one, any) => FreshLead(sc, c, run, seed, one); FreshLead(sc, c, run, seed, any);
  }
}
