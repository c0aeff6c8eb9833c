/** A slider with several handles: each is snapped to an allowed value, and none passes its
    neighbours. */
module Slider {
  import opened Dom

  function Distance(a: real, b: real): real {
    if a < b then b - a else a - b
  }

  ghost predicate Sorted(vs: seq<real>) {
    forall i, j :: 0 <= i <= j < |vs| ==> vs[i] <= vs[j]
  }

  /** The values a handle may have: a sorted list, or a range. */
  datatype Choice = Values(vs: seq<real>) | Range(start: real, end: real)
  {
    ghost predicate Good() {
      match this
      case Values(vs) => vs != [] && Sorted(vs)
      case Range(s, e) => s <= e
    }

    predicate Has(v: real) {
      match this
      case Values(vs) => v in vs
      case Range(s, e) => s <= v <= e
    }
  }

  /** The allowed value nearest to `v`, the greater one of two. */
  ghost predicate Nearest(c: Choice, v: real, r: real) {
    && c.Has(r)
    && forall x :: c.Has(x) ==> Distance(r, v) < Distance(x, v) || (Distance(r, v) == Distance(x, v) && x <= r)
  }

  lemma NearestHas(c: Choice, v: real, r: real)
    requires Nearest(c, v, r)
    ensures c.Has(r)
  {
  }

  /** A greater value is never snapped to a smaller one. */
  lemma NearestMonotone(c: Choice, v: real, w: real, r: real, q: real)
    requires Nearest(c, v, r) && Nearest(c, w, q) && v <= w
    ensures r <= q
  {
  }

  function Max(vs: seq<real>): (m: real)
    requires vs != []
    ensures m in vs && forall x :: x in vs ==> x <= m
  {
    assert vs == [vs[0]] + vs[1..];
    if |vs| == 1 then vs[0] else var m := Max(vs[1..]); if vs[0] > m then vs[0] else m
  }

  function Min(vs: seq<real>): (m: real)
    requires vs != []
    ensures m in vs && forall x :: x in vs ==> m <= x
  {
    assert vs == [vs[0]] + vs[1..];
    if |vs| == 1 then vs[0] else var m := Min(vs[1..]); if vs[0] < m then vs[0] else m
  }

  /** `r` is nearest to `v` among the first `n` values. */
  ghost predicate NearestOf(vs: seq<real>, n: nat, v: real, r: real)
    requires n <= |vs|
  {
    forall j :: 0 <= j < n ==> Distance(r, v) < Distance(vs[j], v) || (Distance(r, v) == Distance(vs[j], v) && vs[j] <= r)
  }

  lemma NextOf(vs: seq<real>, n: nat, v: real, r: real)
    requires Sorted(vs) && n < |vs| && r in vs && NearestOf(vs, n, v, r)
    requires n > 0 ==> r <= vs[n - 1]
    requires n == 0 ==> r == vs[0]
    ensures var x := if Distance(vs[n], v) <= Distance(r, v) then vs[n] else r;
            x in vs && x <= vs[n] && NearestOf(vs, n + 1, v, x)
  {
  }

  lemma NearestOfAll(vs: seq<real>, v: real, r: real)
    requires r in vs && NearestOf(vs, |vs|, v, r)
    ensures Nearest(Values(vs), v, r)
  {
    forall x | x in vs ensures Distance(r, v) < Distance(x, v) || (Distance(r, v) == Distance(x, v) && x <= r) {
      var j :| 0 <= j < |vs| && vs[j] == x;
    }
  }

  method GetNearestAllowed(vs: seq<real>, value: real) returns (r: real)
    requires Values(vs).Good()
    ensures Nearest(Values(vs), value, r)
  {
    if value >= Max(vs) {
      return Max(vs);
    }
    if value <= Min(vs) {
      return Min(vs);
    }
    hide Distance, Sorted, Max, Min, NearestOf, Nearest;
    var offset := Distance(vs[0], value);
    r := vs[0];
    var i := 0;
    NoneOf(vs, value, r);
    while i < |vs|
      invariant 0 <= i <= |vs|
      invariant r in vs && offset == Distance(r, value) && NearestOf(vs, i, value, r)
      invariant if i == 0 then r == vs[0] else r <= vs[i - 1]
    {
      NextOf(vs, i, value, r);
      var v := vs[i];
      var currentOffset := Distance(v, value);
      if currentOffset <= offset {
        r, offset := v, currentOffset;
      }
      i := i + 1;
    }
    NearestOfAll(vs, value, r);
  }

  lemma NoneOf(vs: seq<real>, v: real, r: real)
    ensures NearestOf(vs, 0, v, r)
  {
  }

  method GetNearestValue(c: Choice, value: real) returns (r: real)
    requires c.Good()
    ensures Nearest(c, value, r)
  {
    match c {
      case Values(vs) =>
        r := GetNearestAllowed(vs, value);
      case Range(s, e) =>
        if value > e {
          return e;
        }
        if value < s {
          return s;
        }
        return value;
    }
  }

  /* ----- handles ----- */

  ghost predicate Allowed(c: Choice, vs: seq<real>) {
    forall i :: 0 <= i < |vs| ==> c.Has(vs[i])
  }

  /** What a restricted slider keeps: every handle allowed, none past its neighbour. */
  ghost predicate Placed(c: Choice, vs: seq<real>) {
    Allowed(c, vs) && Sorted(vs)
  }

  /** The allowed value between two others that is nearest to `v`. */
  ghost predicate NearestWithin(c: Choice, vs: seq<real>, i: nat, v: real, r: real)
    requires i < |vs|
  {
    && c.Has(r) && Within(vs, i, r)
    && forall x :: c.Has(x) && Within(vs, i, x) ==>
         Distance(r, v) < Distance(x, v) || (Distance(r, v) == Distance(x, v) && x <= r)
  }

  predicate Within(vs: seq<real>, i: nat, x: real)
    requires i < |vs|
  {
    (i > 0 ==> vs[i - 1] <= x) && (i + 1 < |vs| ==> x <= vs[i + 1])
  }

  /** A value moved between those of the neighbours. */
  function Clamp(vs: seq<real>, i: nat, v: real): real
    requires i < |vs|
  {
    var w := if i > 0 && v < vs[i - 1] then vs[i - 1] else v;
    if i + 1 < |vs| && w > vs[i + 1] then vs[i + 1] else w
  }

  /** Clamping before snapping picks the best value between the neighbours. */
  lemma ClampedNearest(c: Choice, vs: seq<real>, i: nat, v: real, r: real)
    requires Placed(c, vs) && i < |vs| && Nearest(c, Clamp(vs, i, v), r)
    ensures NearestWithin(c, vs, i, v, r)
  {
    var w := Clamp(vs, i, v);
    if i > 0 {
      assert c.Has(vs[i - 1]);
    }
    if i + 1 < |vs| {
      assert c.Has(vs[i + 1]);
    }
  }

  lemma AllowedUpdate(c: Choice, vs: seq<real>, i: nat, r: real)
    requires Allowed(c, vs) && i < |vs| && c.Has(r)
    ensures Allowed(c, vs[i := r])
  {
  }

  lemma PlacedUpdate(c: Choice, vs: seq<real>, i: nat, r: real)
    requires Placed(c, vs) && i < |vs| && c.Has(r) && Within(vs, i, r)
    ensures Placed(c, vs[i := r])
  {
  }

  class Slider {
    const choice: Choice
    const restricted: bool
    var values: seq<real>
    var value: real
    var active: bool
    var activeHandleIdx: nat
    var initialized: bool
    /** Whether the handles were in order when the slider was made. */
    ghost var ordered: bool

    ghost predicate Valid()
      reads this
    {
      && choice.Good() && values != [] && activeHandleIdx < |values|
      && (initialized ==> Allowed(choice, values) && value == values[0])
      && (initialized && restricted && ordered ==> Sorted(values))
    }

    /** The handle a call means: a given index other than 0, or else the active one. */
    function Target(handleIdx: Option<nat>): nat
      reads this
    {
      if handleIdx.Some? && handleIdx.value != 0 then handleIdx.value
      else if active then activeHandleIdx
      else 0
    }

    /** Lines 132-137: a restricted slider keeps a value between the neighbours' values. */
    method Restrict(sliderValue: real, idx: nat) returns (v: real)
      requires idx < |values|
      ensures v == if initialized && restricted then Clamp(values, idx, sliderValue) else sliderValue
    {
      v := sliderValue;
      if initialized && restricted {
        if idx > 0 && v < values[idx - 1] {
          v := values[idx - 1];
        }
        if idx < |values| - 1 && v > values[idx + 1] {
          v := values[idx + 1];
        }
      }
    }

    method SetValue(sliderValue: real, handleIdx: Option<nat>)
      requires Valid() && (handleIdx.Some? ==> handleIdx.value < |values|)
      modifies this`values, this`value, this`activeHandleIdx
      ensures Valid() && |values| == |old(values)|
      ensures forall j :: 0 <= j < |values| && j != old(Target(handleIdx)) ==> values[j] == old(values)[j]
      ensures active && (handleIdx == None || handleIdx == Some(0)) ==>
        forall j :: 0 <= j < |values| && j != old(activeHandleIdx) ==> values[j] == old(values)[j]
      ensures activeHandleIdx == if active then old(activeHandleIdx) else old(Target(handleIdx))
      ensures value == values[0] && choice.Has(values[old(Target(handleIdx))])
      ensures !(initialized && restricted) ==> Nearest(choice, sliderValue, values[old(Target(handleIdx))])
      ensures initialized && restricted && ordered ==>
        NearestWithin(choice, old(values), old(Target(handleIdx)), sliderValue, values[old(Target(handleIdx))])
    {
      hide Distance, Sorted, Nearest, Within, NearestWithin, Allowed, Clamp;
      var given := if handleIdx.Some? then handleIdx.value else 0;
      if !active {
        activeHandleIdx := given;
      }
      var idx := if given != 0 then given else activeHandleIdx;
      var v := Restrict(sliderValue, idx);
      var r := GetNearestValue(choice, v);
      NearestHas(choice, v, r);
      if initialized && restricted && ordered {
        ClampedNearest(choice, values, idx, sliderValue, r);
        PlacedUpdate(choice, values, idx, r);
      }
      if initialized {
        AllowedUpdate(choice, values, idx, r);
      }
      values := values[idx := r];
      value := values[0];
    }

    /** The constructor's part about values: `sliderValue` may be missing, and a missing value
        and a zero alike mean the start of the range. */
    constructor (choice: Choice, restricted: bool, start: real, handles: nat, sliderValue: seq<Option<real>>)
      requires choice.Good() && handles > 0 && |sliderValue| == handles
      ensures Valid() && initialized && this.restricted == restricted && this.choice == choice
      ensures |values| == handles && Allowed(choice, values)
      ensures forall i :: 0 <= i < handles ==> Nearest(choice, Effective(start, sliderValue[i]), values[i])
      ensures (forall i, j :: 0 <= i <= j < handles ==> Effective(start, sliderValue[i]) <= Effective(start, sliderValue[j]))
              ==> ordered
    {
      this.choice, this.restricted := choice, restricted;
      values := seq(handles, _ => 0.0);
      value, active, activeHandleIdx, initialized, ordered := 0.0, false, 0, false, false;
      new;
      var n := 0;
      while n < handles
        invariant 0 <= n <= handles == |values| && Valid() && !active && !initialized
        invariant forall i :: handles - n <= i < handles ==> Nearest(choice, Effective(start, sliderValue[i]), values[i])
        invariant n == handles ==> value == values[0]
      {
        var i := handles - 1 - n;
        SetValue(Effective(start, sliderValue[i]), Some(i));
        n := n + 1;
      }
      forall i, j | 0 <= i <= j < handles && Effective(start, sliderValue[i]) <= Effective(start, sliderValue[j])
        ensures values[i] <= values[j]
      {
        NearestMonotone(choice, Effective(start, sliderValue[i]), Effective(start, sliderValue[j]), values[i], values[j]);
      }
      initialized := true;
      ordered := Sorted(values);
    }
  }

  /** An index other than 0 is the handle meant; index 0 is, unless another handle is active:
      then that one is, as it is where no index is given. Without an active handle no index
      means the first. */
  lemma TargetIs(slider: Slider, i: nat)
    ensures slider.Target(Some(i)) == i <==> i != 0 || !slider.active || slider.activeHandleIdx == 0
    ensures slider.active ==> slider.Target(None) == slider.Target(Some(0)) == slider.activeHandleIdx
    ensures !slider.active ==> slider.Target(None) == 0
  {
  }

  /** A missing option is read as the start of the range, and so is zero, and no other. */
  lemma EffectiveIs(start: real, given: Option<real>)
    ensures Effective(start, Some(0.0)) == Effective(start, None) == start
    ensures given.Some? ==> (Effective(start, given) == given.value <==> given.value != 0.0 || start == 0.0)
  {
  }

  function Effective(start: real, given: Option<real>): real {
    if given.None? || given.value == 0.0 then start else given.value
  }
}
