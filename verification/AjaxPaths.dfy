/** When the walk of `ajaxConvert` comes to an end, and what its results mean: chains of
    intermediate types, and paths of converters. */
module AjaxPaths {
  import opened Dom
  import opened AjaxConvert

  /* ----- chains of intermediate types ----- */

  /** The type the walk inserts on its way from `from` to `to`. */
  function Hop(t: Table, from: TypeName, to: TypeName): Option<TypeName> {
    if from == Auto || from == to then None
    else match Search(t, from, to)
      case Onward(_, via) => Some(via)
      case _ => None
  }

  /** The type reached after `n` insertions. */
  function Chain(t: Table, from: TypeName, to: TypeName, n: nat): Option<TypeName>
    decreases n
  {
    if n == 0 then Some(from)
    else match Hop(t, from, to)
      case None => None
      case Some(via) => Chain(t, via, to, n - 1)
  }

  /** Some type comes twice. */
  ghost predicate Repeats(t: Table, from: TypeName, to: TypeName) {
    exists i, j :: 0 <= i < j && Chain(t, from, to, i).Some? && Chain(t, from, to, i) == Chain(t, from, to, j)
  }

  /** The chain comes to a type from which nothing leads on. */
  ghost predicate Stuck(t: Table, from: TypeName, to: TypeName) {
    exists n :: Chain(t, from, to, n).Some? && Dead(t, Chain(t, from, to, n).value, to)
  }

  predicate Dead(t: Table, from: TypeName, to: TypeName) {
    from != Auto && from != to && Search(t, from, to).Nothing?
  }

  lemma {:induction false} ChainAdd(t: Table, from: TypeName, to: TypeName, m: nat, n: nat)
    ensures Chain(t, from, to, m + n) ==
            (var x := Chain(t, from, to, m); if x == None then None else Chain(t, x.value, to, n))
    decreases m
  {
    hide Hop;
    if m > 0 && Hop(t, from, to).Some? {
      ChainAdd(t, Hop(t, from, to).value, to, m - 1, n);
    }
  }

  /** A chain in which a type comes twice has no end. */
  lemma {:induction false} RepeatsForever(t: Table, from: TypeName, to: TypeName, i: nat, j: nat, n: nat)
    requires i < j && Chain(t, from, to, i).Some? && Chain(t, from, to, i) == Chain(t, from, to, j)
    ensures Chain(t, from, to, n).Some?
    decreases n
  {
    hide Chain;
    if n <= j {
      ChainAdd(t, from, to, n, j - n);
    } else {
      ChainAdd(t, from, to, j, n - j);
      ChainAdd(t, from, to, i, n - j);
      RepeatsForever(t, from, to, i, j, i + (n - j));
    }
  }

  function Inputs(t: Table): (s: set<TypeName>)
    ensures |s| <= |t| && forall i :: 0 <= i < |t| ==> t[i].from in s
  {
    if t == [] then {}
    else
      assert forall i :: 0 < i < |t| ==> t[i] == t[1..][i - 1];
      {t[0].from} + Inputs(t[1..])
  }

  /** Every type inserted is the input of some row. */
  lemma ChainInput(t: Table, from: TypeName, to: TypeName, n: nat)
    requires n > 0 && Chain(t, from, to, n).Some?
    ensures Chain(t, from, to, n).value in Inputs(t)
  {
    hide Hop;
    ChainAdd(t, from, to, n - 1, 1);
    var x := Chain(t, from, to, n - 1).value;
    ChainOne(t, x, to);
    HopInput(t, x, to);
  }

  lemma ChainOne(t: Table, from: TypeName, to: TypeName)
    ensures Chain(t, from, to, 1) == Hop(t, from, to)
  {
    hide Hop;
    var h := Hop(t, from, to);
    assert h.Some? ==> Chain(t, h.value, to, 0) == h;
  }

  lemma HopInput(t: Table, from: TypeName, to: TypeName)
    requires Hop(t, from, to).Some?
    ensures Hop(t, from, to).value in Inputs(t)
  {
    hide Inputs, Direct, Pair;
    var m := Pair(t, from, to, 0).value;
    assert t[m].from in Inputs(t);
  }

  /** More places than values: two places hold the same. */
  lemma {:induction false} Pigeonhole<T>(xs: seq<T>, s: set<T>)
    requires |xs| > |s| && forall i :: 0 <= i < |xs| ==> xs[i] in s
    ensures exists i, j :: 0 <= i < j < |xs| && xs[i] == xs[j]
  {
    var x, rest := xs[0], xs[1..];
    if j :| 0 < j < |xs| && xs[j] == x {
      assert xs[0] == xs[j];
    } else {
      forall i | 0 <= i < |rest| ensures rest[i] in s - {x} {
        assert rest[i] == xs[i + 1];
      }
      Pigeonhole(rest, s - {x});
      var i, j :| 0 <= i < j < |rest| && rest[i] == rest[j];
      assert xs[i + 1] == xs[j + 1];
    }
  }

  lemma {:induction false} ChainShorter(t: Table, from: TypeName, to: TypeName, k: nat, n: nat)
    requires k <= n && Chain(t, from, to, n).Some?
    ensures Chain(t, from, to, k).Some?
  {
    ChainAdd(t, from, to, k, n - k);
  }

  lemma LongRepeats(t: Table, from: TypeName, to: TypeName, n: nat)
    requires n > |t| && Chain(t, from, to, n).Some?
    ensures Repeats(t, from, to)
  {
    hide Chain;
    forall k: nat | k <= n ensures Chain(t, from, to, k).Some? {
      ChainShorter(t, from, to, k, n);
    }
    var xs := seq(n, k requires 0 <= k < n => Chain(t, from, to, k + 1).value);
    forall k | 0 <= k < n ensures xs[k] in Inputs(t) {
      ChainInput(t, from, to, k + 1);
    }
    Pigeonhole(xs, Inputs(t));
    var i, j :| 0 <= i < j < n && xs[i] == xs[j];
    assert Chain(t, from, to, i + 1) == Chain(t, from, to, j + 1);
  }

  /** A type comes twice exactly in the chains longer than the table. */
  lemma RepeatsIfLong(t: Table, from: TypeName, to: TypeName)
    ensures Repeats(t, from, to) <==> Chain(t, from, to, |t| + 1).Some?
  {
    hide Chain;
    if Chain(t, from, to, |t| + 1).Some? {
      LongRepeats(t, from, to, |t| + 1);
    }
    if i, j :| 0 <= i < j && Chain(t, from, to, i).Some? && Chain(t, from, to, i) == Chain(t, from, to, j) {
      RepeatsForever(t, from, to, i, j, |t| + 1);
    }
  }

  /* ----- when the walk ends ----- */

  /** On the way through the types, up to the first step nothing leads over, no chain of
      intermediate types repeats. */
  ghost predicate Finite(t: Table, prev: TypeName, types: seq<TypeName>)
    decreases |types|
  {
    if |types| == 0 then true
    else if types[0] == Auto then Finite(t, prev, types[1..])
    else !Repeats(t, prev, types[0]) && (Stuck(t, prev, types[0]) || Finite(t, types[0], types[1..]))
  }

  lemma EndsOver<D(!new)>(e: Env<D>, prev: TypeName, types: seq<TypeName>, data: D)
    requires types != [] && types[0] != Auto && (prev == Auto || prev == types[0])
    requires Ends(e, types[0], types[1..], data)
    ensures Ends(e, prev, types, data)
  {
    var fuel: nat :| Convert(e, types[0], types[1..], data, fuel).Some?;
    assert Convert(e, prev, types, data, fuel).Some?;
  }

  lemma EndsStraight<D(!new)>(e: Env<D>, prev: TypeName, types: seq<TypeName>, data: D)
    requires types != [] && types[0] != Auto && prev != Auto && prev != types[0] && !Search(e.table, prev, types[0]).Onward?
    requires var f := Search(e.table, prev, types[0]);
      f.Straight? && Call(e, f.conv, data).Some? ==> Ends(e, types[0], types[1..], Call(e, f.conv, data).value)
    ensures Ends(e, prev, types, data)
  {
    var f := Search(e.table, prev, types[0]);
    if f.Straight? && Call(e, f.conv, data).Some? {
      var fuel: nat :| Convert(e, types[0], types[1..], Call(e, f.conv, data).value, fuel).Some?;
      assert Convert(e, prev, types, data, fuel).Some?;
    } else {
      assert Convert(e, prev, types, data, 0).Some?;
    }
  }

  lemma EndsOnward<D(!new)>(e: Env<D>, prev: TypeName, types: seq<TypeName>, data: D)
    requires types != [] && types[0] != Auto && prev != Auto && prev != types[0] && Search(e.table, prev, types[0]).Onward?
    requires var f := Search(e.table, prev, types[0]);
      Call(e, Fn(f.id), data).Some? ==> Ends(e, f.via, types, Call(e, Fn(f.id), data).value)
    ensures Ends(e, prev, types, data)
  {
    var f := Search(e.table, prev, types[0]);
    if Call(e, Fn(f.id), data).Some? {
      var fuel: nat :| Convert(e, f.via, types, Call(e, Fn(f.id), data).value, fuel).Some?;
      assert Convert(e, prev, types, data, fuel + 1).Some?;
    } else {
      assert Convert(e, prev, types, data, 1).Some?;
    }
  }

  /** A step whose chain has an end comes to an end, if the steps behind it do. */
  lemma {:induction false} StepEnds<D(!new)>(e: Env<D>, prev: TypeName, types: seq<TypeName>, data: D, n: nat)
    requires types != [] && types[0] != Auto && Chain(e.table, prev, types[0], n) == None
    requires Stuck(e.table, prev, types[0]) || forall d :: Ends(e, types[0], types[1..], d)
    ensures Ends(e, prev, types, data)
    decreases n
  {
    hide Ends, Search, Stuck;
    var t, to := e.table, types[0];
    if prev == Auto || prev == to {
      NotStuck(t, prev, to);
      EndsOver(e, prev, types, data);
    } else if Search(t, prev, to).Onward? {
      var f := Search(t, prev, to);
      StuckFrom(t, prev, to, f.via);
      if Call(e, Fn(f.id), data).Some? {
        StepEnds(e, f.via, types, Call(e, Fn(f.id), data).value, n - 1);
      }
      EndsOnward(e, prev, types, data);
    } else {
      if Search(t, prev, to).Straight? {
        NotStuck(t, prev, to);
      }
      EndsStraight(e, prev, types, data);
    }
  }

  /** Where nothing is inserted and something leads on, the chain is not stuck. */
  lemma NotStuck(t: Table, from: TypeName, to: TypeName)
    requires Hop(t, from, to) == None && !Dead(t, from, to)
    ensures !Stuck(t, from, to)
  {
    forall n: nat | Chain(t, from, to, n).Some? ensures Chain(t, from, to, n) == Some(from) {
    }
  }

  /** A chain is stuck if and only if it is stuck one type further. */
  lemma StuckFrom(t: Table, from: TypeName, to: TypeName, via: TypeName)
    requires Hop(t, from, to) == Some(via)
    ensures Stuck(t, from, to) <==> Stuck(t, via, to)
  {
    if Stuck(t, from, to) {
      var n: nat :| Chain(t, from, to, n).Some? && Dead(t, Chain(t, from, to, n).value, to);
      assert n > 0 && Chain(t, via, to, n - 1) == Chain(t, from, to, n);
    }
    if Stuck(t, via, to) {
      var n: nat :| Chain(t, via, to, n).Some? && Dead(t, Chain(t, via, to, n).value, to);
      assert Chain(t, from, to, n + 1) == Chain(t, via, to, n);
    }
  }

  /** Where no chain repeats the walk ends, whatever the converters do. */
  lemma {:induction false} FiniteEnds<D(!new)>(e: Env<D>, prev: TypeName, types: seq<TypeName>, data: D)
    requires Finite(e.table, prev, types)
    ensures Ends(e, prev, types, data)
    decreases |types|
  {
    if |types| == 0 {
      assert Convert(e, prev, types, data, 0).Some?;
    } else if types[0] == Auto {
      FiniteEnds(e, prev, types[1..], data);
      var fuel :| Convert(e, prev, types[1..], data, fuel).Some?;
      assert Convert(e, prev, types, data, fuel).Some?;
    } else {
      if !Stuck(e.table, prev, types[0]) {
        forall d ensures Ends(e, types[0], types[1..], d) {
          FiniteEnds(e, types[0], types[1..], d);
        }
      }
      RepeatsIfLong(e.table, prev, types[0]);
      StepEnds(e, prev, types, data, |e.table| + 1);
    }
  }

  /** No converter throws. */
  ghost predicate Calm<D(!new)>(e: Env<D>) {
    forall id, d :: e.call(id, d).Some?
  }

  /** A step whose chain has no end takes more insertions than any number. */
  lemma {:induction false} EndlessStep<D(!new)>(e: Env<D>, prev: TypeName, types: seq<TypeName>, data: D, fuel: nat)
    requires Calm(e) && types != [] && types[0] != Auto
    requires forall n :: Chain(e.table, prev, types[0], n).Some?
    ensures Convert(e, prev, types, data, fuel) == None
    decreases fuel
  {
    var t, to := e.table, types[0];
    assert Chain(t, prev, to, 1).Some?;
    var f := Search(t, prev, to);
    if fuel > 0 {
      assert e.call(f.id, data).Some?;
      forall n: nat ensures Chain(t, f.via, to, n).Some? {
        assert Chain(t, prev, to, n + 1).Some?;
      }
      EndlessStep(e, f.via, types, e.call(f.id, data).value, fuel - 1);
    }
  }

  /** A step the walk gets over, with no end behind it. */
  lemma {:induction false} EndlessBehind<D(!new)>(e: Env<D>, prev: TypeName, types: seq<TypeName>, data: D, fuel: nat)
    requires Calm(e) && types != [] && types[0] != Auto && !Stuck(e.table, prev, types[0])
    requires forall d, n :: Convert(e, types[0], types[1..], d, n) == None
    ensures Convert(e, prev, types, data, fuel) == None
    decreases fuel
  {
    var t, to := e.table, types[0];
    DeadIsStuck(t, prev, to);
    hide Stuck, Search;
    if prev != Auto && prev != to && Search(t, prev, to).Onward? && fuel > 0 {
      var f := Search(t, prev, to);
      assert e.call(f.id, data).Some?;
      StuckFrom(t, prev, to, f.via);
      EndlessBehind(e, f.via, types, e.call(f.id, data).value, fuel - 1);
    }
  }

  lemma DeadIsStuck(t: Table, from: TypeName, to: TypeName)
    ensures Dead(t, from, to) ==> Stuck(t, from, to)
  {
    assert Chain(t, from, to, 0) == Some(from);
  }

  lemma {:induction false} NotFiniteEndless<D(!new)>(e: Env<D>, prev: TypeName, types: seq<TypeName>, data: D, fuel: nat)
    requires Calm(e) && !Finite(e.table, prev, types)
    ensures Convert(e, prev, types, data, fuel) == None
    decreases |types|
  {
    var t := e.table;
    if types[0] == Auto {
      NotFiniteEndless(e, prev, types[1..], data, fuel);
    } else if Repeats(t, prev, types[0]) {
      var i, j :| 0 <= i < j && Chain(t, prev, types[0], i).Some? && Chain(t, prev, types[0], i) == Chain(t, prev, types[0], j);
      forall n: nat ensures Chain(t, prev, types[0], n).Some? {
        RepeatsForever(t, prev, types[0], i, j, n);
      }
      EndlessStep(e, prev, types, data, fuel);
    } else {
      forall d, n ensures Convert(e, types[0], types[1..], d, n) == None {
        NotFiniteEndless(e, types[0], types[1..], d, n);
      }
      EndlessBehind(e, prev, types, data, fuel);
    }
  }

  /** The walk ends exactly when no chain it comes to repeats a type; only a converter that
      throws can end it otherwise. */
  lemma EndsExactly<D(!new)>(e: Env<D>, prev: TypeName, types: seq<TypeName>, data: D)
    requires Calm(e)
    ensures Ends(e, prev, types, data) <==> Finite(e.table, prev, types)
  {
    if Finite(e.table, prev, types) {
      FiniteEnds(e, prev, types, data);
    } else {
      forall fuel: nat ensures Convert(e, prev, types, data, fuel) == None {
        NotFiniteEndless(e, prev, types, data, fuel);
      }
    }
  }

  /** An input: beside a converter from anything to text, `text json: false`. The walk comes
      back to where it was and does not end. */
  lemma FalsyConverter<D(!new)>(e: Env<D>, data: D)
    requires Calm(e)
    requires e.table == [Row(Auto, Named("text"), Fn(0)), Row(Named("text"), Named("json"), Falsy)]
    ensures Search(e.table, Named("text"), Named("json")) == Onward(0, Named("text"))
    ensures !Ends(e, Named("text"), [Named("json")], data)
  {
    var t, text, json := e.table, Named("text"), Named("json");
    assert t[1..] == [t[1]] && t[1..][1..] == [];
    assert Lookup(t, text, json) == Some(Falsy) && Lookup(t, Auto, json) == None && Lookup(t, text, text) == None;
    assert Direct(t, text, json) == None && Direct(t, text, text) == Some(Fn(0));
    assert Pair(t, text, json, 0) == Pair(t, text, json, 1) == Some(1);
    assert Chain(t, text, json, 1) == Chain(t, text, json, 0) == Some(text);
    assert Repeats(t, text, json);
    assert [json][0] == json;
    EndsExactly(e, text, [json], data);
  }

  /* ----- tables of truthy converters ----- */

  predicate Truthy(t: Table) {
    forall i :: 0 <= i < |t| ==> t[i].conv != Falsy
  }

  lemma TruthyHop(t: Table, from: TypeName, to: TypeName)
    requires Truthy(t) && Hop(t, from, to).Some?
    ensures Direct(t, Hop(t, from, to).value, to).Some?
  {
    var n := Pair(t, from, to, 0).value;
    assert Lookup(t, t[n].from, to).Some?;
    var c := Lookup(t, t[n].from, to).value;
    assert Row(t[n].from, to, c) in t;
  }

  /** Without falsy values no chain repeats. */
  lemma {:induction false} TruthyFinite(t: Table, prev: TypeName, types: seq<TypeName>)
    requires Truthy(t)
    ensures Finite(t, prev, types)
    decreases |types|
  {
    if types != [] {
      var to := types[0];
      forall i, j | 0 <= i < j && Chain(t, prev, to, i).Some? && Chain(t, prev, to, j).Some?
        ensures i == 0 && j == 1 && Chain(t, prev, to, 1) != Some(prev)
      {
        TruthyChain(t, prev, to, j);
      }
      TruthyFinite(t, prev, types[1..]);
      TruthyFinite(t, to, types[1..]);
    }
  }

  lemma TruthyChain(t: Table, prev: TypeName, to: TypeName, j: nat)
    requires Truthy(t) && j > 0 && Chain(t, prev, to, j).Some?
    ensures j == 1 && Chain(t, prev, to, 1) != Some(prev)
  {
    TruthyHop(t, prev, to);
    var via := Hop(t, prev, to).value;
    assert Hop(t, via, to) == None;
    assert Chain(t, prev, to, j) == Chain(t, via, to, j - 1);
  }

  /** And at most one type is inserted for each original step. */
  lemma {:induction false} TruthyInserts<D(!new)>(e: Env<D>, prev: TypeName, types: seq<TypeName>, data: D, fuel: nat)
    requires Truthy(e.table) && Convert(e, prev, types, data, fuel).Some?
    ensures Convert(e, prev, types, data, fuel).value.inserted <= |types|
    ensures types != [] && Hop(e.table, prev, types[0]) == None ==> Convert(e, prev, types, data, fuel).value.inserted < |types|
    decreases fuel, |types|
  {
    if |types| == 0 {
    } else if types[0] == Auto {
      TruthyInserts(e, prev, types[1..], data, fuel);
    } else if prev == Auto || prev == types[0] {
      TruthyInserts(e, types[0], types[1..], data, fuel);
    } else {
      match Search(e.table, prev, types[0])
      case Nothing =>
      case Straight(conv) =>
        if Call(e, conv, data).Some? {
          TruthyInserts(e, types[0], types[1..], Call(e, conv, data).value, fuel);
        }
      case Onward(id, via) =>
        TruthyHop(e.table, prev, types[0]);
        if Call(e, Fn(id), data).Some? {
          TruthyInserts(e, via, types, Call(e, Fn(id), data).value, fuel - 1);
        }
    }
  }

  /* ----- what a conversion is ----- */

  /** The rows lead from one type to another; a row from `*` takes anything. */
  predicate Path(t: Table, from: TypeName, to: TypeName, rows: seq<Row>)
    decreases |rows|
  {
    if |rows| == 0 then from == to
    else
      && rows[0] in t && rows[0].conv != Falsy && (rows[0].from == from || rows[0].from == Auto)
      && Path(t, rows[0].to, to, rows[1..])
  }

  function Fns(c: Converter): seq<nat> {
    if c.Fn? then [c.id] else []
  }

  function Functions(rows: seq<Row>): seq<nat> {
    if rows == [] then [] else Fns(rows[0].conv) + Functions(rows[1..])
  }

  function AllFunctions(legs: seq<seq<Row>>): seq<nat> {
    if legs == [] then [] else Functions(legs[0]) + AllFunctions(legs[1..])
  }

  function Apply<D>(e: Env<D>, fns: seq<nat>, data: D): Option<D> {
    if fns == [] then Some(data)
    else match e.call(fns[0], data)
      case None => None
      case Some(d) => Apply(e, fns[1..], d)
  }

  lemma {:induction false} ApplyConcat<D>(e: Env<D>, a: seq<nat>, b: seq<nat>, data: D)
    ensures Apply(e, a + b, data) == (var d := Apply(e, a, data); if d == None then None else Apply(e, b, d.value))
  {
    if a == [] {
      assert a + b == b;
    } else {
      assert (a + b)[1..] == a[1..] + b;
      if e.call(a[0], data).Some? {
        ApplyConcat(e, a[1..], b, e.call(a[0], data).value);
      }
    }
  }

  lemma ApplyCall<D>(e: Env<D>, c: Converter, data: D)
    ensures Apply(e, Fns(c), data) == Call(e, c, data)
  {
    if c.Fn? {
      assert Fns(c)[1..] == [];
    }
  }

  /** One leg for each type: empty for `*` and after it, and otherwise leading to the type, or
      to `*`, which serves as any type. */
  ghost predicate Through(t: Table, prev: TypeName, types: seq<TypeName>, legs: seq<seq<Row>>)
    decreases |types|
  {
    && |legs| == |types|
    && (|types| > 0 ==>
      if types[0] == Auto then legs[0] == [] && Through(t, prev, types[1..], legs[1..])
      else Leg(t, prev, types[0], legs[0]) && Through(t, types[0], types[1..], legs[1..]))
  }

  predicate Leg(t: Table, prev: TypeName, to: TypeName, leg: seq<Row>) {
    Path(t, prev, to, leg) || Path(t, prev, Auto, leg)
  }

  /** A row that serves for converting from `from`. */
  lemma DirectRow(t: Table, from: TypeName, to: TypeName) returns (row: Row)
    requires Direct(t, from, to).Some?
    ensures row in t && row.conv != Falsy && (row.from == from || row.from == Auto) && row.to == to && Some(row.conv) == Direct(t, from, to)
  {
    var c := Direct(t, from, to).value;
    row := if Lookup(t, from, to) == Some(c) then Row(from, to, c) else Row(Auto, to, c);
  }

  lemma OneRow(t: Table, from: TypeName, r: Row)
    requires r in t && r.conv != Falsy && (r.from == from || r.from == Auto)
    ensures Path(t, from, r.to, [r]) && Functions([r]) == Fns(r.conv)
  {
    assert [r][1..] == [];
    assert Fns(r.conv) + [] == Fns(r.conv);
  }

  lemma RowBefore(t: Table, from: TypeName, to: TypeName, r: Row, rows: seq<Row>)
    requires r in t && r.conv != Falsy && (r.from == from || r.from == Auto) && Path(t, r.to, to, rows)
    ensures Path(t, from, to, [r] + rows) && Functions([r] + rows) == Fns(r.conv) + Functions(rows)
  {
    assert ([r] + rows)[1..] == rows;
  }

  /** A converter that serves is a path of one or two rows. */
  lemma StraightIsPath(t: Table, from: TypeName, to: TypeName) returns (rows: seq<Row>)
    requires Search(t, from, to).Straight?
    ensures 1 <= |rows| <= 2 && Path(t, from, to, rows) && Functions(rows) == Fns(Search(t, from, to).conv)
    ensures Direct(t, from, to).Some? ==> |rows| == 1
  {
    if Direct(t, from, to).Some? {
      var r := DirectRow(t, from, to);
      OneRow(t, from, r);
      rows := [r];
    } else {
      var n := Pair(t, from, to, 0).value;
      var r := DirectRow(t, from, t[n].from);
      OneRow(t, t[n].from, t[n]);
      RowBefore(t, from, to, r, [t[n]]);
      rows := [r] + [t[n]];
      assert Fns(Same) + Fns(t[n].conv) == Fns(t[n].conv) && Fns(r.conv) + Fns(Same) == Fns(r.conv);
    }
  }

  lemma OnwardNotDirect(t: Table, from: TypeName, to: TypeName)
    requires Search(t, from, to).Onward?
    ensures Direct(t, from, to) == None
  {
  }

  /** An insertion is one row, put before the rest of the leg. */
  lemma OnwardIsPath(t: Table, from: TypeName, to: TypeName, leg: seq<Row>) returns (rows: seq<Row>)
    requires from != Auto && from != to && Search(t, from, to).Onward? && Leg(t, Search(t, from, to).via, to, leg)
    ensures Leg(t, from, to, rows) && |rows| == |leg| + 1
    ensures Functions(rows) == [Search(t, from, to).id] + Functions(leg)
  {
    var r := DirectRow(t, from, Search(t, from, to).via);
    if Path(t, r.to, to, leg) {
      RowBefore(t, from, to, r, leg);
    } else {
      RowBefore(t, from, Auto, r, leg);
    }
    rows := [r] + leg;
  }

  lemma LegsFirst(legs: seq<seq<Row>>, leg: seq<Row>)
    ensures ([leg] + legs)[1..] == legs && AllFunctions([leg] + legs) == Functions(leg) + AllFunctions(legs)
  {
  }

  lemma Joined(a: seq<nat>, b: seq<nat>, c: seq<nat>)
    ensures (a + b) + c == a + (b + c) && [] + a == a
  {
  }

  /** On success the response is what the converters along a path through every type other
      than `*`, in order, make of it; without falsy values no leg is longer than two. */
  lemma {:induction false} SuccessIsPath<D(!new)>(e: Env<D>, prev: TypeName, types: seq<TypeName>, data: D, fuel: nat) returns (legs: seq<seq<Row>>)
    requires Convert(e, prev, types, data, fuel).Some? && Convert(e, prev, types, data, fuel).value.result.Success?
    ensures Through(e.table, prev, types, legs)
    ensures Apply(e, AllFunctions(legs), data) == Some(Convert(e, prev, types, data, fuel).value.result.data)
    ensures Truthy(e.table) ==> Short(e.table, prev, types, legs)
    decreases fuel, |types|
  {
    if |types| == 0 {
      legs := [];
    } else {
      var t, to, rest := e.table, types[0], types[1..];
      if to == Auto {
        var more := SuccessIsPath(e, prev, rest, data, fuel);
        legs := [[]] + more;
        LegsFirst(more, []);
        Joined(AllFunctions(more), [], []);
      } else if prev == Auto || prev == to {
        var more := SuccessIsPath(e, to, rest, data, fuel);
        legs := [[]] + more;
        LegsFirst(more, []);
        Joined(AllFunctions(more), [], []);
        assert Leg(t, prev, to, []);
      } else if Search(t, prev, to).Straight? {
        legs := SuccessStraight(e, prev, types, data, fuel);
      } else {
        legs := SuccessOnward(e, prev, types, data, fuel);
      }
    }
  }

  /** No leg is longer than two rows, and the first is no longer than one if a converter
      leads straight over. */
  ghost predicate Short(t: Table, prev: TypeName, types: seq<TypeName>, legs: seq<seq<Row>>) {
    && (forall i :: 0 <= i < |legs| ==> |legs[i]| <= 2)
    && (types != [] && |legs| > 0 && (prev == Auto || prev == types[0] || Direct(t, prev, types[0]).Some?) ==> |legs[0]| <= 1)
  }

  lemma {:induction false} SuccessStraight<D(!new)>(e: Env<D>, prev: TypeName, types: seq<TypeName>, data: D, fuel: nat) returns (legs: seq<seq<Row>>)
    requires Convert(e, prev, types, data, fuel).Some? && Convert(e, prev, types, data, fuel).value.result.Success?
    requires types != [] && types[0] != Auto && prev != Auto && prev != types[0] && Search(e.table, prev, types[0]).Straight?
    ensures Through(e.table, prev, types, legs)
    ensures Apply(e, AllFunctions(legs), data) == Some(Convert(e, prev, types, data, fuel).value.result.data)
    ensures Truthy(e.table) ==> Short(e.table, prev, types, legs)
    decreases fuel, |types|, 0
  {
    var t, to, rest := e.table, types[0], types[1..];
    var conv := Search(t, prev, to).conv;
    var d := Call(e, conv, data).value;
    var leg := StraightIsPath(t, prev, to);
    var more := SuccessIsPath(e, to, rest, d, fuel);
    legs := [leg] + more;
    LegsFirst(more, leg);
    ApplyCall(e, conv, data);
    ApplyConcat(e, Fns(conv), AllFunctions(more), data);
  }

  lemma {:induction false} SuccessOnward<D(!new)>(e: Env<D>, prev: TypeName, types: seq<TypeName>, data: D, fuel: nat) returns (legs: seq<seq<Row>>)
    requires Convert(e, prev, types, data, fuel).Some? && Convert(e, prev, types, data, fuel).value.result.Success?
    requires types != [] && types[0] != Auto && prev != Auto && prev != types[0] && Search(e.table, prev, types[0]).Onward?
    ensures Through(e.table, prev, types, legs)
    ensures Apply(e, AllFunctions(legs), data) == Some(Convert(e, prev, types, data, fuel).value.result.data)
    ensures Truthy(e.table) ==> Short(e.table, prev, types, legs)
    decreases fuel, |types|, 0
  {
    hide Search, Direct, Path;
    var t, to := e.table, types[0];
    var f := Search(t, prev, to);
    var d := Call(e, Fn(f.id), data).value;
    var behind := SuccessIsPath(e, f.via, types, d, fuel - 1);
    LegsFirst(behind[1..], behind[0]);
    assert behind == [behind[0]] + behind[1..];
    var leg := OnwardIsPath(t, prev, to, behind[0]);
    legs := [leg] + behind[1..];
    LegsFirst(behind[1..], leg);
    Joined([f.id], Functions(behind[0]), AllFunctions(behind[1..]));
    ApplyCall(e, Fn(f.id), data);
    ApplyConcat(e, Fns(Fn(f.id)), AllFunctions(behind), data);
    OnwardNotDirect(t, prev, to);
    if Truthy(t) {
      TruthyHop(t, prev, to);
    }
  }

  /** Before the first row that would serve there is a falsy one, reached by an equivalence. */
  predicate Hides(t: Table, from: TypeName, to: TypeName) {
    exists i, j :: 0 <= i < j < |t| && t[i].to == t[j].to == to
      && Direct(t, from, t[i].from) == Some(Same) && t[i].conv == Falsy
      && Direct(t, from, t[j].from).Some? && t[j].conv != Falsy
  }

  /** `No conversion` is reported at a step nothing found leads over. */
  lemma {:induction false} NoConversionIsDead<D(!new)>(e: Env<D>, prev: TypeName, types: seq<TypeName>, data: D, fuel: nat)
    requires Convert(e, prev, types, data, fuel).Some? && Convert(e, prev, types, data, fuel).value.result.NoConversion?
    ensures var r := Convert(e, prev, types, data, fuel).value.result; r.to in types && r.to != Auto && Dead(e.table, r.from, r.to)
    decreases fuel, |types|
  {
    if types[0] == Auto {
      NoConversionIsDead(e, prev, types[1..], data, fuel);
    } else if prev == Auto || prev == types[0] {
      NoConversionIsDead(e, types[0], types[1..], data, fuel);
    } else {
      match Search(e.table, prev, types[0])
      case Nothing =>
      case Straight(conv) => NoConversionIsDead(e, types[0], types[1..], Call(e, conv, data).value, fuel);
      case Onward(id, via) => NoConversionIsDead(e, via, types, Call(e, Fn(id), data).value, fuel - 1);
    }
  }

  /** The report is right, in that no one or two converters join the types, exactly when no
      falsy row hides one that serves. */
  lemma DeadIsNoPath(t: Table, from: TypeName, to: TypeName)
    requires Distinct(t) && Dead(t, from, to) && to != Auto
    ensures (forall rows :: 1 <= |rows| <= 2 ==> !Path(t, from, to, rows)) <==> !Hides(t, from, to)
  {
    hide Search, Path, Lookup;
    if Hides(t, from, to) {
      var i, j :| 0 <= i < j < |t| && t[i].to == t[j].to == to
        && Direct(t, from, t[i].from) == Some(Same) && t[i].conv == Falsy
        && Direct(t, from, t[j].from).Some? && t[j].conv != Falsy;
      var r := DirectRow(t, from, t[j].from);
      OneRow(t, t[j].from, t[j]);
      RowBefore(t, from, to, r, [t[j]]);
      assert |[r] + [t[j]]| == 2;
    } else {
      forall rows | 1 <= |rows| <= 2 ensures !Path(t, from, to, rows) {
        if Path(t, from, to, rows) {
          PathIsFound(t, from, to, rows);
        }
      }
    }
  }

  /** A row of the table that takes `from` is found when looked for. */
  lemma RowIsDirect(t: Table, from: TypeName, row: Row)
    requires Distinct(t) && row in t && row.conv != Falsy && (row.from == from || row.from == Auto)
    ensures Direct(t, from, row.to).Some?
  {
    var i :| 0 <= i < |t| && t[i] == row;
    LookupRow(t, i);
  }

  lemma PathIsFound(t: Table, from: TypeName, to: TypeName, rows: seq<Row>)
    requires Distinct(t) && Dead(t, from, to) && to != Auto
    requires 1 <= |rows| <= 2 && Path(t, from, to, rows)
    ensures Hides(t, from, to)
  {
    hide Path, Lookup, Direct;
    LastRow(t, from, to, rows);
    RowIsDirect(t, from, rows[0]);
    if |rows| == 1 {
      assert false;
    } else {
      if rows[1].from == Auto {
        RowIsDirect(t, from, rows[1]);
        assert false;
      }
      var j :| 0 <= j < |t| && t[j] == rows[1];
      assert Pair(t, from, to, 0).Some?;
      var n := Pair(t, from, to, 0).value;
      assert n < j;
    }
  }

  lemma LastRow(t: Table, from: TypeName, to: TypeName, rows: seq<Row>)
    requires 1 <= |rows| <= 2 && Path(t, from, to, rows)
    ensures rows[|rows| - 1].to == to && rows[0] in t && rows[0].conv != Falsy && (rows[0].from == from || rows[0].from == Auto)
    ensures |rows| == 2 ==> rows[1] in t && rows[1].conv != Falsy && (rows[1].from == rows[0].to || rows[1].from == Auto)
  {
    if |rows| == 2 {
      assert rows[1..][0] == rows[1] && rows[1..][1..] == [];
      assert Path(t, rows[1].to, to, rows[1..][1..]);
    } else {
      assert Path(t, rows[0].to, to, rows[1..]);
    }
  }

  /** An input: the equivalence of text and mid, with `mid json: false` behind it, hides the
      two functions that would lead from text to json. */
  lemma HiddenPath()
    ensures var text, mid, other, json := Named("text"), Named("mid"), Named("other"), Named("json");
      var t := [Row(text, mid, Same), Row(mid, json, Falsy), Row(text, other, Fn(0)), Row(other, json, Fn(1))];
      Dead(t, text, json) && Path(t, text, json, [t[2], t[3]])
  {
    var text, mid, other, json := Named("text"), Named("mid"), Named("other"), Named("json");
    var t := [Row(text, mid, Same), Row(mid, json, Falsy), Row(text, other, Fn(0)), Row(other, json, Fn(1))];
    assert t[1..] == [t[1], t[2], t[3]] && t[1..][1..] == [t[2], t[3]] && t[1..][1..][1..] == [t[3]] && t[1..][1..][1..][1..] == [];
    assert Lookup(t, text, json) == None && Lookup(t, Auto, json) == None && Lookup(t, text, mid) == Some(Same);
    assert Pair(t, text, json, 0) == Pair(t, text, json, 1) == Some(1);
    assert [t[2], t[3]][1..] == [t[3]] && [t[3]][1..] == [];
  }
}
