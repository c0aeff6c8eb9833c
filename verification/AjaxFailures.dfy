/** How a conversion of `ajaxConvert` fails: which converters are called, which of them throws,
    and what is made of the exception. */
module AjaxFailures {
  import opened Dom
  import opened AjaxConvert
  import opened AjaxPaths

  /** The functions called one after the other as long as none throws. */
  function Taken(t: Table, prev: TypeName, types: seq<TypeName>, fuel: nat): seq<nat>
    decreases fuel, |types|
  {
    if |types| == 0 then []
    else if types[0] == Auto then Taken(t, prev, types[1..], fuel)
    else if prev == Auto || prev == types[0] then Taken(t, types[0], types[1..], fuel)
    else
      match Search(t, prev, types[0])
      case Nothing => []
      case Straight(conv) => Fns(conv) + Taken(t, types[0], types[1..], fuel)
      case Onward(id, via) => if fuel == 0 then [] else [id] + Taken(t, via, types, fuel - 1)
  }

  /** One leg for each of the first types, as in `Through`, but the last leg may lead anywhere. */
  ghost predicate PartWay(t: Table, prev: TypeName, types: seq<TypeName>, legs: seq<seq<Row>>)
    decreases |types|
  {
    && |legs| <= |types|
    && (|legs| > 0 ==>
      if types[0] == Auto then legs[0] == [] && PartWay(t, prev, types[1..], legs[1..])
      else if |legs| == 1 then exists to :: AjaxPaths.Path(t, prev, to, legs[0])
      else Leg(t, prev, types[0], legs[0]) && PartWay(t, types[0], types[1..], legs[1..]))
  }

  lemma FirstLeg(t: Table, prev: TypeName, types: seq<TypeName>, leg: seq<Row>, more: seq<seq<Row>>)
    requires types != [] && types[0] != Auto && Leg(t, prev, types[0], leg) && PartWay(t, types[0], types[1..], more)
    ensures PartWay(t, prev, types, [leg] + more)
  {
    assert ([leg] + more)[1..] == more && ([leg] + more)[0] == leg;
    assert AjaxPaths.Path(t, prev, types[0], leg) || AjaxPaths.Path(t, prev, Auto, leg);
  }

  /** They lie along a path through the types. */
  lemma {:induction false} TakenIsPath(t: Table, prev: TypeName, types: seq<TypeName>, fuel: nat) returns (legs: seq<seq<Row>>)
    ensures PartWay(t, prev, types, legs) && AllFunctions(legs) == Taken(t, prev, types, fuel)
    decreases fuel, |types|, 1
  {
    legs := [];
    if |types| > 0 {
      var to, rest := types[0], types[1..];
      if to == Auto {
        var more := TakenIsPath(t, prev, rest, fuel);
        legs := [[]] + more;
        LegsFirst(more, []);
      } else if prev == Auto || prev == to {
        var more := TakenIsPath(t, to, rest, fuel);
        assert Leg(t, prev, to, []);
        FirstLeg(t, prev, types, [], more);
        legs := [[]] + more;
        LegsFirst(more, []);
      } else if Search(t, prev, to).Straight? {
        var leg := StraightIsPath(t, prev, to);
        var more := TakenIsPath(t, to, rest, fuel);
        FirstLeg(t, prev, types, leg, more);
        legs := [leg] + more;
        LegsFirst(more, leg);
      } else if Search(t, prev, to).Onward? && fuel > 0 {
        legs := TakenOnward(t, prev, types, fuel);
      }
    }
  }

  lemma {:induction false} TakenOnward(t: Table, prev: TypeName, types: seq<TypeName>, fuel: nat) returns (legs: seq<seq<Row>>)
    requires types != [] && types[0] != Auto && prev != Auto && prev != types[0]
    requires Search(t, prev, types[0]).Onward? && fuel > 0
    ensures PartWay(t, prev, types, legs) && AllFunctions(legs) == Taken(t, prev, types, fuel)
    decreases fuel, |types|, 0
  {
    hide Search, Direct, AjaxPaths.Path, Lookup;
    var f := Search(t, prev, types[0]);
    var behind := TakenIsPath(t, f.via, types, fuel - 1);
    var r := OnwardRow(t, prev, types[0]);
    if behind == [] {
      OneRow(t, prev, r);
      legs := [[r]];
      assert legs == [[r]] + [];
      LegsFirst([], [r]);
    } else {
      var leg, more := behind[0], behind[1..];
      assert behind == [leg] + more;
      LegsFirst(more, leg);
      LegsFirst(more, [r] + leg);
      legs := [[r] + leg] + more;
      LongerLeg(t, prev, types, f.via, r, leg, more);
      Joined([f.id], Functions(leg), AllFunctions(more));
    }
  }

  lemma OnwardRow(t: Table, from: TypeName, to: TypeName) returns (r: Row)
    requires Search(t, from, to).Onward?
    ensures r in t && r.conv != Falsy && (r.from == from || r.from == Auto) && r.to == Search(t, from, to).via
    ensures Fns(r.conv) == [Search(t, from, to).id]
  {
    r := DirectRow(t, from, Search(t, from, to).via);
  }

  /** A row in front of the first leg. */
  lemma LongerLeg(t: Table, prev: TypeName, types: seq<TypeName>, via: TypeName, r: Row, leg: seq<Row>, more: seq<seq<Row>>)
    requires types != [] && types[0] != Auto && PartWay(t, via, types, [leg] + more)
    requires r in t && r.conv != Falsy && (r.from == prev || r.from == Auto) && r.to == via
    ensures PartWay(t, prev, types, [[r] + leg] + more) && Functions([r] + leg) == Fns(r.conv) + Functions(leg)
  {
    hide AjaxPaths.Path;
    var legs := [[r] + leg] + more;
    assert legs[0] == [r] + leg && legs[1..] == more && ([leg] + more)[0] == leg && ([leg] + more)[1..] == more;
    assert [r] + leg != [] && ([r] + leg)[1..] == leg;
    if more == [] {
      var to :| AjaxPaths.Path(t, via, to, leg);
      RowBefore(t, prev, to, r, leg);
    } else if AjaxPaths.Path(t, via, types[0], leg) {
      RowBefore(t, prev, types[0], r, leg);
    } else {
      RowBefore(t, prev, Auto, r, leg);
    }
  }

  /** A chain of calls gives nothing exactly when one of them throws. */
  lemma {:induction false} ApplyFails<D>(e: Env<D>, fns: seq<nat>, data: D)
    ensures Apply(e, fns, data) == None <==> exists k: nat :: ThrowsAt(e, fns, data, k)
  {
    if fns == [] {
      assert forall k: nat :: !ThrowsAt(e, fns, data, k);
    } else {
      var d := e.call(fns[0], data);
      if d == None {
        assert ThrowsAt(e, fns, data, 0);
      } else {
        ApplyFails(e, fns[1..], d.value);
        assert !ThrowsAt(e, fns, data, 0);
        forall k: nat ensures ThrowsAt(e, fns, data, k + 1) <==> ThrowsAt(e, fns[1..], d.value, k) {
          if k + 1 < |fns| {
            assert fns[..k + 1][0] == fns[0] && fns[..k + 1][1..] == fns[1..][..k];
          }
        }
        forall k: nat | ThrowsAt(e, fns, data, k) ensures exists j: nat :: ThrowsAt(e, fns[1..], d.value, j) {
          var j: nat := k - 1;
          assert ThrowsAt(e, fns, data, j + 1);
          assert ThrowsAt(e, fns[1..], d.value, j);
        }
      }
    }
  }

  /** The function at place `k` throws on what those before it have made of the data. */
  predicate ThrowsAt<D>(e: Env<D>, fns: seq<nat>, data: D, k: nat) {
    k < |fns| && Apply(e, fns[..k], data).Some? && e.call(fns[k], Apply(e, fns[..k], data).value) == None
  }

  /** What a result says of the calls, `d` being what all of them together give. */
  ghost predicate Tells<D(!new)>(e: Env<D>, r: Result<D>, d: Option<D>) {
    match r
    case Success(x) => d == Some(x)
    case NoConversion(_, _) => d.Some?
    case ParserError => d == None && !e.throws
    case Thrown => d == None && e.throws
  }

  /** A step that calls `fns`, with what is called behind it. */
  lemma CallThen<D(!new)>(e: Env<D>, c: Converter, rest: seq<nat>, data: D)
    ensures Apply(e, Fns(c) + rest, data) == match Call(e, c, data) case None => None case Some(d) => Apply(e, rest, d)
    ensures Call(e, c, data) == None ==> Tells(e, Failure(e), Apply(e, Fns(c) + rest, data))
  {
    ApplyCall(e, c, data);
    ApplyConcat(e, Fns(c), rest, data);
  }

  lemma {:induction false} WalkApplies<D(!new)>(e: Env<D>, prev: TypeName, types: seq<TypeName>, data: D, fuel: nat)
    requires Convert(e, prev, types, data, fuel).Some?
    ensures Tells(e, Convert(e, prev, types, data, fuel).value.result, Apply(e, Taken(e.table, prev, types, fuel), data))
    decreases fuel, |types|
  {
    hide Search, Fns, Call, Failure;
    if |types| > 0 {
      var t, to, rest := e.table, types[0], types[1..];
      if to == Auto {
        WalkApplies(e, prev, rest, data, fuel);
      } else if prev == Auto || prev == to {
        WalkApplies(e, to, rest, data, fuel);
      } else {
        match Search(t, prev, to)
        case Nothing =>
        case Straight(conv) =>
          hide Tells, Apply;
          CallThen(e, conv, Taken(t, to, rest, fuel), data);
          if Call(e, conv, data).Some? {
            WalkApplies(e, to, rest, Call(e, conv, data).value, fuel);
          }
        case Onward(id, via) =>
          hide Tells, Apply;
          OneFunction(id);
          CallThen(e, Fn(id), Taken(t, via, types, fuel - 1), data);
          if Call(e, Fn(id), data).Some? {
            WalkApplies(e, via, types, Call(e, Fn(id), data).value, fuel - 1);
          }
      }
    }
  }

  lemma OneFunction(id: nat)
    ensures Fns(Fn(id)) == [id]
  {
  }

  /** A conversion fails exactly when a converter on the path taken throws on what those before
      it have made of the response; the exception leaves `ajaxConvert` exactly when the
      settings let errors bubble, and is a parser error otherwise. */
  lemma FailsExactly<D(!new)>(e: Env<D>, prev: TypeName, types: seq<TypeName>, data: D, fuel: nat) returns (legs: seq<seq<Row>>)
    requires Convert(e, prev, types, data, fuel).Some?
    ensures PartWay(e.table, prev, types, legs)
    ensures var r := Convert(e, prev, types, data, fuel).value.result;
      && (r.Thrown? || r.ParserError? <==> exists k: nat :: ThrowsAt(e, AllFunctions(legs), data, k))
      && (r.Thrown? ==> e.throws)
      && (r.ParserError? ==> !e.throws)
  {
    legs := TakenIsPath(e.table, prev, types, fuel);
    WalkApplies(e, prev, types, data, fuel);
    ApplyFails(e, Taken(e.table, prev, types, fuel), data);
  }

  /** An input: a malformed response, where a function leads from text to json. */
  lemma Malformed<D(!new)>(e: Env<D>, data: D)
    requires e.table == [Row(Named("text"), Named("json"), Fn(0))] && e.call(0, data) == None
    ensures Convert(e, Named("text"), [Named("json")], data, 0) == Some(End(if e.throws then Thrown else ParserError, 0))
  {
    var text, json := Named("text"), Named("json");
    assert Lookup(e.table, text, json) == Some(Fn(0));
    assert Search(e.table, text, json) == Straight(Fn(0));
  }

  /** The converter named for the two types comes first, then that from `*`; one that counts
      as false is passed over. */
  lemma ConverterIs(t: Table, from: TypeName, to: TypeName, c: Converter)
    requires Distinct(t)
    ensures Direct(t, from, to) == Some(c) <==>
      && c != Falsy
      && (Row(from, to, c) in t || (Row(Auto, to, c) in t && forall d :: Row(from, to, d) in t ==> d == Falsy))
  {
    LookupIs(t, from, to);
    LookupIs(t, Auto, to);
    hide Lookup;
  }

  lemma LookupIs(t: Table, from: TypeName, to: TypeName)
    requires Distinct(t)
    ensures forall c :: Lookup(t, from, to) == Some(c) <==> Row(from, to, c) in t
  {
    forall c | Row(from, to, c) in t ensures Lookup(t, from, to) == Some(c) {
      var i :| 0 <= i < |t| && t[i] == Row(from, to, c);
      LookupRow(t, i);
    }
  }

  /** `n` is the first property for `to` whose input `from` can be converted to. */
  ghost predicate FirstPair(t: Table, from: TypeName, to: TypeName, n: nat) {
    && n < |t| && t[n].to == to && Direct(t, from, t[n].from).Some?
    && forall j :: 0 <= j < n && t[j].to == to ==> Direct(t, from, t[j].from) == None
  }

  /** A type is inserted exactly when no converter leads straight over and the first pair that
      does consists of two functions, or of a function and a value that counts as false. */
  lemma InsertsExactly(t: Table, from: TypeName, to: TypeName, id: nat, via: TypeName)
    ensures Search(t, from, to) == Onward(id, via) <==>
      && Direct(t, from, to) == None
      && exists n: nat :: FirstPair(t, from, to, n) && t[n].conv != Same && t[n].from == via && Direct(t, from, via) == Some(Fn(id))
  {
    hide Direct;
    var p := Pair(t, from, to, 0);
    if p.Some? {
      assert FirstPair(t, from, to, p.value);
      forall n: nat | FirstPair(t, from, to, n) ensures n == p.value {
      }
    } else {
      assert forall n: nat :: !FirstPair(t, from, to, n);
    }
  }
}
