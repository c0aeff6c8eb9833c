/** `ajaxConvert`: chain conversions through a list of data types, splicing an intermediate
    type into the list being walked when only a pair of converters leads on. */
module AjaxConvert {
  import opened Dom

  /** A data type; `Auto` is `*`. */
  datatype TypeName = Auto | Named(name: string)

  /** A converter: `true`, for types that are the same, a function, or a value such as `false`
      that counts as no converter where converters are looked up by name. */
  datatype Converter = Same | Fn(id: nat) | Falsy

  /** A property of the converters object: its name is `from to`. */
  datatype Row = Row(from: TypeName, to: TypeName, conv: Converter)

  /** The properties in the order `for in` meets them. */
  type Table = seq<Row>

  predicate Distinct(t: Table) {
    forall i, j :: 0 <= i < j < |t| ==> t[i].from != t[j].from || t[i].to != t[j].to
  }

  /** The converters, and what calling one gives; `None` is a throw. */
  datatype Env<!D> = Env(table: Table, call: (nat, D) -> Option<D>, throws: bool)

  /** How the conversion ends; `Thrown` leaves `ajaxConvert` by its exception. */
  datatype Result<D> = Success(data: D) | NoConversion(from: TypeName, to: TypeName) | ParserError | Thrown

  function Lookup(t: Table, from: TypeName, to: TypeName): (c: Option<Converter>)
    ensures c.Some? <==> exists i :: 0 <= i < |t| && t[i].from == from && t[i].to == to
    ensures c.Some? ==> Row(from, to, c.value) in t
  {
    if t == [] then None
    else if t[0].from == from && t[0].to == to then Some(t[0].conv)
    else
      var c := Lookup(t[1..], from, to);
      assert c.Some? ==> Row(from, to, c.value) in t[1..];
      c
  }

  lemma {:induction false} LookupRow(t: Table, i: nat)
    requires Distinct(t) && i < |t|
    ensures Lookup(t, t[i].from, t[i].to) == Some(t[i].conv)
  {
    if i > 0 {
      assert t[0].from != t[i].from || t[0].to != t[i].to;
      LookupRow(t[1..], i - 1);
    }
  }

  /** `converters[ from + " " + to ] || converters[ "* " + to ]`, if that is truthy. */
  function Direct(t: Table, from: TypeName, to: TypeName): (c: Option<Converter>)
    ensures c != Some(Falsy)
  {
    var c, d := Lookup(t, from, to), Lookup(t, Auto, to);
    if c.Some? && c.value != Falsy then c
    else if d.Some? && d.value != Falsy then d
    else None
  }

  /** The first row from place `n` on whose input `from` can be converted to. */
  function Pair(t: Table, from: TypeName, to: TypeName, n: nat): (r: Option<nat>)
    requires n <= |t|
    ensures r.Some? ==> n <= r.value < |t| && t[r.value].to == to && Direct(t, from, t[r.value].from).Some?
    ensures var end := if r.Some? then r.value else |t|;
            forall j :: n <= j < end && t[j].to == to ==> Direct(t, from, t[j].from) == None
    decreases |t| - n
  {
    if n == |t| then None
    else if t[n].to == to && Direct(t, from, t[n].from).Some? then Some(n)
    else Pair(t, from, to, n + 1)
  }

  /** What a search for a converter comes to: nothing, a converter that serves, or a function
      to an intermediate type, from which the walk goes on. */
  datatype Found = Nothing | Straight(conv: Converter) | Onward(id: nat, via: TypeName)

  function Search(t: Table, from: TypeName, to: TypeName): (f: Found)
    ensures f.Straight? ==> f.conv != Falsy
  {
    var d := Direct(t, from, to);
    if d.Some? then Straight(d.value)
    else
      match Pair(t, from, to, 0)
      case None => Nothing
      case Some(n) =>
        match Direct(t, from, t[n].from).value
        case Same => if t[n].conv == Falsy then Nothing else Straight(t[n].conv)
        case Fn(id) => if t[n].conv == Same then Straight(Fn(id)) else Onward(id, t[n].from)
  }

  /** Calling a converter, if it is a function. */
  function Call<D>(e: Env<D>, c: Converter, data: D): Option<D> {
    if c.Fn? then e.call(c.id, data) else Some(data)
  }

  function Failure<D>(e: Env<D>): Result<D> {
    if e.throws then Thrown else ParserError
  }

  /** How the walk ends, and how many types it has inserted. */
  datatype End<D> = End(result: Result<D>, inserted: nat)

  /** The conversion from type to type with at most `fuel` insertions; `None` if it needs more. */
  function Convert<D>(e: Env<D>, prev: TypeName, types: seq<TypeName>, data: D, fuel: nat): Option<End<D>>
    decreases fuel, |types|
  {
    if |types| == 0 then Some(End(Success(data), 0))
    else if types[0] == Auto then Convert(e, prev, types[1..], data, fuel)
    else if prev == Auto || prev == types[0] then Convert(e, types[0], types[1..], data, fuel)
    else
      match Search(e.table, prev, types[0])
      case Nothing => Some(End(NoConversion(prev, types[0]), 0))
      case Straight(conv) =>
        (match Call(e, conv, data)
         case None => Some(End(Failure(e), 0))
         case Some(d) => Convert(e, types[0], types[1..], d, fuel))
      case Onward(id, via) =>
        if fuel == 0 then None
        else
          match Call(e, Fn(id), data)
          case None => Some(End(Failure(e), 1))
          case Some(d) =>
            match Convert(e, via, types, d, fuel - 1)
            case None => None
            case Some(end) => Some(End(end.result, end.inserted + 1))
  }

  /** The walk comes to an end. */
  ghost predicate Ends<D(!new)>(e: Env<D>, prev: TypeName, types: seq<TypeName>, data: D) {
    exists fuel :: Convert(e, prev, types, data, fuel).Some?
  }

  /** More fuel changes nothing. */
  lemma {:induction false} MoreFuel<D(!new)>(e: Env<D>, prev: TypeName, types: seq<TypeName>, data: D, fuel: nat, more: nat)
    requires Convert(e, prev, types, data, fuel).Some? && fuel <= more
    ensures Convert(e, prev, types, data, more) == Convert(e, prev, types, data, fuel)
    decreases fuel, |types|
  {
    if |types| == 0 {
    } else if types[0] == Auto {
      MoreFuel(e, prev, types[1..], data, fuel, more);
    } else if prev == Auto || prev == types[0] {
      MoreFuel(e, types[0], types[1..], data, fuel, more);
    } else {
      match Search(e.table, prev, types[0])
      case Nothing =>
      case Straight(conv) =>
        if Call(e, conv, data).Some? {
          MoreFuel(e, types[0], types[1..], Call(e, conv, data).value, fuel, more);
        }
      case Onward(id, via) =>
        if Call(e, Fn(id), data).Some? {
          MoreFuel(e, via, types, Call(e, Fn(id), data).value, fuel - 1, more - 1);
        }
    }
  }

  /* ----- the walk ----- */

  /** Lines 8156-8185: the converter for this step, and whether an intermediate type is due. */
  method Seek(t: Table, prev: TypeName, current: TypeName) returns (conv: Option<Converter>, insert: bool, via: TypeName)
    requires Distinct(t)
    ensures Search(t, prev, current) ==
      if insert && conv.Some? && conv.value.Fn? then Onward(conv.value.id, via)
      else if conv.Some? && conv.value != Falsy then Straight(conv.value)
      else Nothing
    ensures insert ==> conv.Some? && conv.value.Fn?
    ensures !insert ==> via == current
  {
    hide Lookup, Direct;
    via, insert := current, false;
    conv := Direct(t, prev, current);
    if conv == None {
      var n := 0;
      while n < |t|
        invariant 0 <= n <= |t| && conv == None && via == current && !insert
        invariant Pair(t, prev, current, 0) == Pair(t, prev, current, n)
      {
        if t[n].to == current {
          conv := Direct(t, prev, t[n].from);
          if conv.Some? {
            LookupRow(t, n);
            assert Pair(t, prev, current, 0) == Some(n);
            if conv == Some(Same) {
              conv := Some(t[n].conv);
            } else if t[n].conv != Same {
              via, insert := t[n].from, true;
            }
            break;
          }
        }
        n := n + 1;
      }
    }
  }

  /** Where the loop stands: the rest of the list is the rest of the types from place `k` on,
      with the type just inserted in front if one was, and converting that rest brings the
      walk to its end. */
  ghost predicate Standing<D(!new)>(
      e: Env<D>, types: seq<TypeName>, total: End<D>, dataTypes: seq<TypeName>, i: nat, prev: TypeName, data: D,
      front: seq<TypeName>, k: nat, fuel: nat)
  {
    && i < |dataTypes| && 1 <= k <= |types| <= |dataTypes| && (front == [] || front == [prev])
    && dataTypes[i + 1..] == front + types[k..]
    && var r := Convert(e, prev, types[k..], data, fuel);
       r.Some? && total == End(r.value.result, |dataTypes| - |types| + r.value.inserted)
  }

  lemma Taken(ts: seq<TypeName>, i: nat)
    requires i < |ts|
    ensures ts[i..] == [ts[i]] + ts[i + 1..] && ts[i..][0] == ts[i] && ts[i..][1..] == ts[i + 1..]
  {
  }

  lemma Start<D(!new)>(e: Env<D>, types: seq<TypeName>, data: D, fuel: nat)
    requires types != [] && Convert(e, types[0], types[1..], data, fuel).Some?
    ensures Standing(e, types, Convert(e, types[0], types[1..], data, fuel).value, types, 0, types[0], data, [], 1, fuel)
  {
  }

  lemma AtEnd<D(!new)>(
      e: Env<D>, types: seq<TypeName>, total: End<D>, dataTypes: seq<TypeName>, i: nat, prev: TypeName, data: D,
      front: seq<TypeName>, k: nat, fuel: nat)
    requires Standing(e, types, total, dataTypes, i, prev, data, front, k, fuel) && i + 1 >= |dataTypes|
    ensures total == End(Success(data), |dataTypes| - |types|)
  {
    assert types[k..] == [];
  }

  /** A type just inserted is taken over as it is. */
  lemma TakeInserted<D(!new)>(
      e: Env<D>, types: seq<TypeName>, total: End<D>, dataTypes: seq<TypeName>, i: nat, prev: TypeName, data: D,
      front: seq<TypeName>, k: nat, fuel: nat)
    requires Standing(e, types, total, dataTypes, i, prev, data, front, k, fuel) && i + 1 < |dataTypes| && front != []
    ensures dataTypes[i + 1] == prev
    ensures Standing(e, types, total, dataTypes, i + 1, prev, data, [], k, fuel)
  {
    hide Convert;
    Taken(dataTypes, i + 1);
    assert dataTypes[i + 2..] == types[k..];
  }

  lemma NextType<D(!new)>(
      e: Env<D>, types: seq<TypeName>, total: End<D>, dataTypes: seq<TypeName>, i: nat, prev: TypeName, data: D, k: nat, fuel: nat)
    requires Standing(e, types, total, dataTypes, i, prev, data, [], k, fuel) && i + 1 < |dataTypes|
    ensures k < |types| && dataTypes[i + 1] == types[k] && dataTypes[i + 1..] == types[k..]
    ensures dataTypes[i + 2..] == types[k + 1..] && types[k..][0] == types[k] && types[k..][1..] == types[k + 1..]
  {
    hide Convert;
    assert dataTypes[i + 1..] == types[k..];
    Taken(dataTypes, i + 1);
    Taken(types, k);
  }

  /** A type the walk takes over without converting. */
  lemma TakeOver<D(!new)>(
      e: Env<D>, types: seq<TypeName>, total: End<D>, dataTypes: seq<TypeName>, i: nat, prev: TypeName, data: D, k: nat, fuel: nat)
    requires Standing(e, types, total, dataTypes, i, prev, data, [], k, fuel) && i + 1 < |dataTypes|
    requires dataTypes[i + 1] == Auto || prev == Auto || prev == dataTypes[i + 1]
    ensures k < |types|
    ensures Standing(e, types, total, dataTypes, i + 1, if dataTypes[i + 1] == Auto then prev else dataTypes[i + 1], data, [], k + 1, fuel)
  {
    NextType(e, types, total, dataTypes, i, prev, data, k, fuel);
  }

  /** A step the search serves, or cannot serve. */
  lemma TakeStraight<D(!new)>(
      e: Env<D>, types: seq<TypeName>, total: End<D>, dataTypes: seq<TypeName>, i: nat, prev: TypeName, data: D, k: nat, fuel: nat)
    requires Standing(e, types, total, dataTypes, i, prev, data, [], k, fuel) && i + 1 < |dataTypes|
    requires dataTypes[i + 1] != Auto && prev != Auto && prev != dataTypes[i + 1]
    ensures k < |types|
    ensures var to := dataTypes[i + 1];
      match Search(e.table, prev, to)
      case Nothing => total == End(NoConversion(prev, to), |dataTypes| - |types|)
      case Onward(_, _) => true
      case Straight(conv) =>
        match Call(e, conv, data)
        case None => total == End(Failure(e), |dataTypes| - |types|)
        case Some(d) => Standing(e, types, total, dataTypes, i + 1, to, d, [], k + 1, fuel)
  {
    NextType(e, types, total, dataTypes, i, prev, data, k, fuel);
  }

  lemma Spliced(ts: seq<TypeName>, i: nat, via: TypeName)
    requires 0 < i < |ts|
    ensures (ts[..i] + [via] + ts[i..])[i..] == [via] + ts[i..]
    ensures |ts[..i] + [via] + ts[i..]| == |ts| + 1
  {
  }

  /** A step that leads on: the intermediate type goes into the list before its place. */
  lemma TakeOnward<D(!new)>(
      e: Env<D>, types: seq<TypeName>, total: End<D>, dataTypes: seq<TypeName>, i: nat, prev: TypeName, data: D, k: nat, fuel: nat)
    requires Standing(e, types, total, dataTypes, i, prev, data, [], k, fuel) && i + 1 < |dataTypes|
    requires dataTypes[i + 1] != Auto && prev != Auto && prev != dataTypes[i + 1]
    requires Search(e.table, prev, dataTypes[i + 1]).Onward?
    ensures var f := Search(e.table, prev, dataTypes[i + 1]);
      var ts := dataTypes[..i + 1] + [f.via] + dataTypes[i + 1..];
      && fuel > 0
      && match Call(e, Fn(f.id), data)
         case None => total == End(Failure(e), |ts| - |types|)
         case Some(d) => Standing(e, types, total, ts, i, f.via, d, [f.via], k, fuel - 1)
  {
    NextType(e, types, total, dataTypes, i, prev, data, k, fuel);
    Spliced(dataTypes, i + 1, Search(e.table, prev, dataTypes[i + 1]).via);
  }

  /** Lines 8156-8200 but for the splice: convert to `current`, or to a type on the way. */
  method Turn<D(!new)>(e: Env<D>, prev: TypeName, current: TypeName, data: D)
    returns (next: Option<D>, insert: bool, via: TypeName, failure: Result<D>)
    requires Distinct(e.table)
    ensures match Search(e.table, prev, current)
            case Nothing => next == None && !insert && failure == NoConversion(prev, current)
            case Straight(conv) => next == Call(e, conv, data) && !insert && via == current && (next == None ==> failure == Failure(e))
            case Onward(id, x) => next == Call(e, Fn(id), data) && insert && via == x && (next == None ==> failure == Failure(e))
  {
    hide Search;
    var conv;
    conv, insert, via := Seek(e.table, prev, current);
    next, failure := None, NoConversion(prev, current);
    if conv != None && conv != Some(Falsy) {
      next, failure := Call(e, conv.value, data), Failure(e);
    }
  }

  /** Ends exactly where the original does, as `Convert` says, having inserted as many types. */
  method AjaxConvert<D(!new)>(e: Env<D>, types: seq<TypeName>, response: D) returns (r: Result<D>, dataTypes: seq<TypeName>)
    requires Distinct(e.table)
    requires types != [] ==> Ends(e, types[0], types[1..], response)
    ensures |dataTypes| >= |types|
    ensures types == [] ==> r == Success(response) && dataTypes == types
    ensures types != [] ==>
      exists fuel :: Convert(e, types[0], types[1..], response, fuel) == Some(End(r, |dataTypes| - |types|))
  {
    hide Convert, Search, Standing;
    dataTypes := types;
    if types == [] {
      return Success(response), dataTypes;
    }
    var data := response;
    var prev := dataTypes[0];
    var i := 0;
    ghost var fuel0: nat :| Convert(e, types[0], types[1..], response, fuel0).Some?;
    ghost var total := Convert(e, types[0], types[1..], response, fuel0).value;
    ghost var k: nat, front: seq<TypeName>, fuel: nat := 1, [], fuel0;
    Start(e, types, response, fuel0);
    while i + 1 < |dataTypes|
      invariant |types| <= |dataTypes| && i < |dataTypes| && k <= |types|
      invariant Standing(e, types, total, dataTypes, i, prev, data, front, k, fuel)
      decreases fuel, |types| - k, |front|
    {
      if front != [] {
        TakeInserted(e, types, total, dataTypes, i, prev, data, front, k, fuel);
      } else if dataTypes[i + 1] == Auto || prev == Auto || prev == dataTypes[i + 1] {
        TakeOver(e, types, total, dataTypes, i, prev, data, k, fuel);
      } else {
        TakeStraight(e, types, total, dataTypes, i, prev, data, k, fuel);
      }
      i := i + 1;
      var current := dataTypes[i];
      if current != Auto && prev != Auto && prev != current {
        var next, insert, via, failure := Turn(e, prev, current, data);
        if insert {
          TakeOnward(e, types, total, dataTypes, i - 1, prev, data, k, fuel);
          dataTypes := dataTypes[..i] + [via] + dataTypes[i..];
          i := i - 1;
          current := via;
          front, fuel := [via], fuel - 1;
        } else {
          k := k + 1;
        }
        if next == None {
          return failure, dataTypes;
        }
        data := next.value;
        prev := current;
      } else {
        if front != [] {
          front := [];
        } else {
          k := k + 1;
        }
        if current != Auto {
          prev := current;
        }
      }
    }
    AtEnd(e, types, total, dataTypes, i, prev, data, front, k, fuel);
    r := Success(data);
  }
}
