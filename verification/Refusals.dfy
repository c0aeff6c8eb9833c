/** Which texts the readers of addresses and interface names take, refuse, or leave alone. */
module Refusals {
  import opened Dom
  import opened Numerals
  import V4 = IPv4
  import V6 = IPv6Text
  import Keys = InterfaceKeys

  /* ----- numbers ----- */

  /** Digits of either case, at least one, behind at most one sign; a minus sign negates. */
  lemma ParsedExactly(s: string, r: Radix)
    ensures var signed := s != "" && (s[0] == '+' || s[0] == '-');
      var body := if signed then s[1..] else s;
      Parse(s, r) ==
        if body == "" || !AllDigits(body, r) then None
        else (var v: int := Value(body, r); Some(if signed && s[0] == '-' then -v else v))
  {
    if s != "" && (s[0] == '+' || s[0] == '-') {
      assert !IsDigit(s[0], r);
    }
  }

  /** The digits of each base. */
  lemma DigitsAre(c: char, r: Radix)
    ensures IsDigit(c, r) <==> '0' <= c <= '9' || (r == Hex && ('a' <= c <= 'f' || 'A' <= c <= 'F'))
    ensures IsDigit(c, r) ==> c == DIGITS[DigitValue(c).value] || c == "0123456789ABCDEF"[DigitValue(c).value]
  {
  }

  /** Of the numbers the Java library writes, `Integer.parseInt` takes those of 32 bits. */
  lemma IntExactly(n: nat)
    ensures V6.ParseInt(Numeral(n, Hex)) == if n <= 0x7fff_ffff then Some(n) else None
    ensures V6.ParseInt("-" + Numeral(n, Hex)) == (var m: int := n; if m <= 0x8000_0000 then Some(-m) else None)
  {
    hide Numeral, Parse, Value;
    NumeralValue(n, Hex);
    ParsedExactly(Numeral(n, Hex), Hex);
    ParsedExactly("-" + Numeral(n, Hex), Hex);
    ParseNumeral(n, Hex);
    assert ("-" + Numeral(n, Hex))[1..] == Numeral(n, Hex);
  }

  /** A `long` keeps the value modulo 2^64. */
  lemma LongIs(x: int, y: int)
    ensures V4.Long(x) == y <==>
      -0x8000_0000_0000_0000 <= y < 0x8000_0000_0000_0000 && (x - y) % 0x1_0000_0000_0000_0000 == 0
  {
  }

  /* ----- dotted addresses ----- */

  /** The parts between dots, empty ones among them. */
  function Parts(t: string): (ps: seq<string>)
    ensures ps != []
  {
    if t == [] then [""]
    else
      var rest := Parts(t[1..]);
      if t[0] == '.' then [""] + rest else [[t[0]] + rest[0]] + rest[1..]
  }

  predicate OctetText(s: string) {
    var v := Parse(s, Dec); v.Some? && 0 <= v.value <= 255
  }

  ghost predicate AllOctets(ps: seq<string>) {
    forall i :: 0 <= i < |ps| ==> OctetText(ps[i])
  }

  lemma AllOctetsFirst(p: string, rest: seq<string>)
    ensures AllOctets([p] + rest) <==> OctetText(p) && AllOctets(rest)
  {
    hide OctetText;
    var ps := [p] + rest;
    if AllOctets(ps) {
      assert OctetText(ps[0]);
      forall i | 0 <= i < |rest| ensures OctetText(rest[i]) {
        assert ps[i + 1] == rest[i];
      }
    }
  }

  lemma {:induction false} FirstPart(t: string)
    ensures var n := V4.IndexOf(t, '.');
      && -1 <= n < |t|
      && (n == -1 ==> Parts(t) == [t])
      && (n >= 0 ==> Parts(t) == [t[..n]] + Parts(t[n + 1..]))
  {
    hide Parts;
    if t == [] || t[0] == '.' {
      PartsStep(t);
    } else {
      FirstPart(t[1..]);
      StepBack(t, t[1..], V4.IndexOf(t[1..], '.'));
    }
  }

  lemma StepBack(t: string, u: string, m: int)
    requires t != [] && t[0] != '.' && u == t[1..] && -1 <= m < |u|
    requires m == -1 ==> Parts(u) == [u]
    requires m >= 0 ==> Parts(u) == [u[..m]] + Parts(u[m + 1..])
    ensures m == -1 ==> Parts(t) == [t]
    ensures m >= 0 ==> Parts(t) == [t[..m + 1]] + Parts(t[m + 2..])
  {
    hide Parts;
    PartsStep(t);
    if m >= 0 {
      Slices(t, u, m);
      Prepend(t[0], u[..m], Parts(u[m + 1..]));
    } else {
      Alone(t, u);
    }
  }

  lemma Slices(t: string, u: string, m: nat)
    requires t != [] && u == t[1..] && m < |u|
    ensures [t[0]] + u[..m] == t[..m + 1] && u[m + 1..] == t[m + 2..]
  {
  }

  lemma Alone(t: string, u: string)
    requires t != [] && u == t[1..]
    ensures [[t[0]] + [u][0]] + [u][1..] == [t]
  {
    assert [t[0]] + u == t && [u][0] == u && [u][1..] == [];
  }

  lemma PartsStep(t: string)
    ensures t != [] && t[0] == '.' ==> Parts(t) == [t[..0]] + Parts(t[1..])
    ensures t != [] && t[0] != '.' ==> Parts(t) == [[t[0]] + Parts(t[1..])[0]] + Parts(t[1..])[1..]
    ensures t == [] ==> Parts(t) == [t]
  {
  }

  lemma Prepend(c: char, first: string, rest: seq<string>)
    ensures var ps := [first] + rest; [[c] + ps[0]] + ps[1..] == [[c] + first] + rest
  {
  }

  /** A dot is no digit. */
  lemma NotDotted(t: string)
    requires t != [] && t[0] == '.'
    ensures Parse(t, Dec) == None && Parse("", Dec) == None
  {
  }

  /** What the parts make, each shifted in behind those before it. */
  function Joined(ps: seq<string>, acc: int): int
    requires AllOctets(ps)
  {
    if ps == [] then acc else Joined(ps[1..], V4.Long(acc * 256 + Parse(ps[0], Dec).value))
  }

  /** A text is taken exactly when every part between its dots is a number up to 255. */
  lemma {:induction false} TakenExactly(t: string, acc: int)
    ensures V4.Octets(t, acc).Some? <==> AllOctets(Parts(t))
    ensures V4.Octets(t, acc).Some? ==> V4.Octets(t, acc).value == Joined(Parts(t), acc)
    decreases |t|
  {
    hide Parse, V4.Long, V4.IndexOf, AllOctets;
    FirstPart(t);
    var n := V4.IndexOf(t, '.');
    if n > 0 {
      var first, rest := t[..n], t[n + 1..];
      AllOctetsFirst(first, Parts(rest));
      assert ([first] + Parts(rest))[1..] == Parts(rest);
      if OctetText(first) {
        TakenExactly(rest, V4.Long(acc * 256 + Parse(first, Dec).value));
      }
    } else if n == 0 {
      NotDotted(t);
      AllOctetsFirst(t[..0], Parts(t[1..]));
    } else {
      AllOctetsFirst(t, []);
      assert [t] + [] == [t] && [t][1..] == [];
      NoParts();
    }
  }

  lemma NoParts()
    ensures AllOctets([])
  {
  }

  /** Four parts make the address of their numbers. */
  lemma FourParts(t: string)
    requires |Parts(t)| == 4
    ensures var ps := Parts(t);
      if AllOctets(ps) then
        V4.Octets(t, 0) == Some(V4.Address(Parse(ps[0], Dec).value, Parse(ps[1], Dec).value, Parse(ps[2], Dec).value, Parse(ps[3], Dec).value))
      else V4.Octets(t, 0) == None
  {
    hide Parse, V4.Octets, Parts;
    TakenExactly(t, 0);
    var ps := Parts(t);
    if AllOctets(ps) {
      assert OctetText(ps[0]) && OctetText(ps[1]) && OctetText(ps[2]) && OctetText(ps[3]);
      JoinedFour(ps);
    }
  }

  lemma JoinedFour(ps: seq<string>)
    requires |ps| == 4 && AllOctets(ps)
    ensures Joined(ps, 0) ==
      V4.Address(Parse(ps[0], Dec).value, Parse(ps[1], Dec).value, Parse(ps[2], Dec).value, Parse(ps[3], Dec).value)
  {
    hide Parse, V4.Long, Joined;
    assert OctetText(ps[0]) && OctetText(ps[1]) && OctetText(ps[2]) && OctetText(ps[3]);
    assert ps[1..][1..] == ps[2..] && ps[2..][1..] == ps[3..] && ps[3..][1..] == [];
    var a, b, c, d := Parse(ps[0], Dec).value, Parse(ps[1], Dec).value, Parse(ps[2], Dec).value, Parse(ps[3], Dec).value;
    JoinedStep(ps, 0);
    JoinedStep(ps[1..], a);
    JoinedStep(ps[2..], a * 256 + b);
    JoinedStep(ps[3..], (a * 256 + b) * 256 + c);
  }

  lemma JoinedStep(ps: seq<string>, acc: nat)
    requires ps != [] && AllOctets(ps) && acc < 0x100_0000
    ensures AllOctets(ps[1..]) && OctetText(ps[0])
    ensures var n := acc * 256 + Parse(ps[0], Dec).value;
      Joined(ps, acc) == Joined(ps[1..], n) && (|ps| == 1 ==> Joined(ps, acc) == n)
  {
    hide Parse;
    assert OctetText(ps[0]);
    var n := acc * 256 + Parse(ps[0], Dec).value;
    assert V4.Long(n) == n;
  }

  /* ----- groups of hexadecimal digits ----- */

  ghost predicate GroupsParse(ps: seq<string>, k: nat) {
    forall i :: k <= i < |ps| && ps[i] != "" ==> V6.ParseInt(ps[i]).Some?
  }

  /** The groups the pieces from `k` on put down: one each, and for each empty one what is
      missing to nine pieces. */
  function Put(ps: seq<string>, k: nat): nat
    requires k <= |ps|
    decreases |ps| - k
  {
    if k == |ps| then 0 else (if ps[k] == "" then |V6.Repeat(9 - |ps|)| else 1) + Put(ps, k + 1)
  }

  function Empties(ps: seq<string>, k: nat): (n: nat)
    requires k <= |ps|
    ensures n <= |ps| - k
    decreases |ps| - k
  {
    if k == |ps| then 0 else (if ps[k] == "" then 1 else 0) + Empties(ps, k + 1)
  }

  lemma {:induction false} PutCount(ps: seq<string>, k: nat)
    requires k <= |ps|
    ensures Put(ps, k) == |ps| - k - Empties(ps, k) + Empties(ps, k) * |V6.Repeat(9 - |ps|)|
    decreases |ps| - k
  {
    if k < |ps| {
      PutCount(ps, k + 1);
      var z := |V6.Repeat(9 - |ps|)|;
      assert (Empties(ps, k + 1) + 1) * z == Empties(ps, k + 1) * z + z;
    }
  }

  lemma {:induction false} ExpandExactly(ps: seq<string>, k: nat, out: seq<int>)
    requires k <= |ps|
    ensures V6.Expand(ps, k, out).Some? <==> GroupsParse(ps, k) && |out| + Put(ps, k) <= 8
    ensures V6.Expand(ps, k, out).Some? ==> |V6.Expand(ps, k, out).value| == 8
    decreases |ps| - k
  {
    hide V6.ParseInt;
    if k < |ps| && |out| <= 8 {
      if ps[k] == "" {
        ExpandExactly(ps, k + 1, out + V6.Repeat(9 - |ps|));
      } else if V6.ParseInt(ps[k]).Some? {
        ExpandExactly(ps, k + 1, out + [V6.ParseInt(ps[k]).value]);
      }
    }
  }

  /** A text is taken exactly when every piece between its colons that is not empty is a number,
      at most eight are not empty, and at most one is empty unless there are eight pieces or
      more. So a second `::` is refused, and a ninth group. */
  lemma ReadExactly(text: string)
    ensures var ps := V6.Split(V6.ReplaceLeading(text, "::", "0::"));
      V6.Read(text).Some? <==>
        GroupsParse(ps, 0) && |ps| - Empties(ps, 0) <= 8 && (Empties(ps, 0) <= 1 || |ps| >= 8)
    ensures V6.Read(text).Some? ==> |V6.Read(text).value| == 8
  {
    hide V6.Split, V6.ReplaceLeading, V6.ParseInt, V6.Expand;
    var ps := V6.Split(V6.ReplaceLeading(text, "::", "0::"));
    ExpandExactly(ps, 0, []);
    PutCount(ps, 0);
    Balance(|ps|, Empties(ps, 0));
  }

  lemma Balance(n: nat, e: nat)
    requires e <= n
    ensures n - e + e * |V6.Repeat(9 - n)| <= 8 <==> n - e <= 8 && (e <= 1 || n >= 8)
  {
    var z := |V6.Repeat(9 - n)|;
    if n >= 9 {
      assert e * z == 0;
    } else if e >= 2 {
      assert e * z >= 2 * z;
    } else if e == 1 {
      assert e * z == z;
    }
    if n == 8 {
      assert e * z == e;
    }
    if n < 8 && e >= 2 {
      Times(e, z);
    }
  }

  lemma Times(e: nat, z: nat)
    requires e >= 2 && z >= 2
    ensures e * z >= 2 * z + 2 * e - 4
  {
    var a, b := e - 2, z - 2;
    assert (a + 2) * (b + 2) == a * b + 2 * a + 2 * b + 4;
    assert a * b >= 0;
  }

  /** Nine groups, or one that is no number, are refused. */
  lemma TooMany(ps: seq<string>)
    requires ps != [] && V6.NoColons(ps) && ps[0] != "" && forall i :: 0 <= i < |ps| ==> ps[i] != ""
    ensures V6.Read(V6.Join(ps)).Some? <==> |ps| <= 8 && GroupsParse(ps, 0)
  {
    hide V6.Read, V6.Split, V6.ReplaceLeading, V6.ParseInt, GroupsParse;
    var text := V6.Join(ps);
    FirstIsFirst(ps);
    V6.NoLeading(text);
    V6.SplitJoin(ps);
    ReadExactly(text);
    NoEmpties(ps, 0);
  }

  lemma FirstIsFirst(ps: seq<string>)
    requires ps != [] && V6.NoColons(ps) && ps[0] != ""
    ensures V6.Join(ps) != "" && V6.Join(ps)[0] != ':'
  {
    V6.JoinStarts(ps);
    assert ps[0][0] in ps[0];
  }

  lemma {:induction false} NoEmpties(ps: seq<string>, k: nat)
    requires k <= |ps| && forall i :: 0 <= i < |ps| ==> ps[i] != ""
    ensures Empties(ps, k) == 0
    decreases |ps| - k
  {
    if k < |ps| {
      NoEmpties(ps, k + 1);
    }
  }

  /* ----- interface names ----- */

  /** The core lies between the first digit and the last. */
  lemma CoreIs(iface: string) returns (a: nat, b: nat)
    ensures a <= b <= |iface| && Keys.Core(iface) == iface[a..b]
    ensures Keys.NoDigit(iface[..a]) && Keys.NoDigit(iface[b..])
    ensures a < b ==> Keys.Digit(iface[a]) && Keys.Digit(iface[b - 1])
  {
    a := FrontIs(iface);
    var back := iface[a..];
    var m := BackIs(back);
    b := a + m;
    assert back[..m] == iface[a..b] && back[m..] == iface[b..];
    assert m > 0 ==> back[0] == iface[a] && back[m - 1] == iface[b - 1];
  }

  lemma {:induction false} FrontIs(s: string) returns (a: nat)
    ensures a <= |s| && Keys.DropFront(s) == s[a..] && Keys.NoDigit(s[..a]) && (a < |s| ==> Keys.Digit(s[a]))
  {
    if s == [] || Keys.Digit(s[0]) {
      a := 0;
    } else {
      var m := FrontIs(s[1..]);
      a := m + 1;
      assert s[1..][m..] == s[a..] && s[..a] == [s[0]] + s[1..][..m];
    }
  }

  lemma {:induction false} BackIs(s: string) returns (m: nat)
    ensures m <= |s| && Keys.DropBack(s) == s[..m] && Keys.NoDigit(s[m..]) && (m > 0 ==> Keys.Digit(s[m - 1]))
    ensures s != [] && Keys.Digit(s[0]) ==> m > 0
  {
    m := |s|;
    if s == [] || Keys.Digit(s[|s| - 1]) {
      assert s[..m] == s && s[m..] == [];
    } else {
      var n := |s| - 1;
      m := BackIs(s[..n]);
      Shorter(s, n, m);
    }
  }

  lemma Shorter(s: string, n: nat, m: nat)
    requires n + 1 == |s| && m <= n
    ensures s[..n][..m] == s[..m] && s[m..] == s[..n][m..] + [s[n]]
    ensures m > 0 ==> s[..n][m - 1] == s[m - 1]
  {
  }

  /** Between two digits of the name stands a character that is neither digit nor separator. */
  ghost predicate Mixed(iface: string) {
    exists i, j, k :: 0 <= i < j < k < |iface| && Keys.Digit(iface[i]) && Keys.Digit(iface[k])
      && !Keys.Digit(iface[j]) && iface[j] != '.' && iface[j] != '/'
  }

  /** A name sorts as it is exactly when it has no digit, or a character other than a separator
      between two digits. */
  lemma KeptExactly(iface: string)
    ensures Keys.Sorting(iface).AsItIs? <==> Keys.NoDigit(iface) || Mixed(iface)
    ensures Keys.Sorting(iface).AsItIs? ==> Keys.Sorting(iface).name == iface
  {
    hide Keys.Core, Keys.Pieces, Keys.Numbers, Keys.Numbered, Keys.NoDigit, Mixed;
    var a, b := CoreIs(iface);
    DigitsBetween(iface, a, b);
    CoreNumbered(iface, a, b);
  }

  lemma CoreNumbered(iface: string, a: nat, b: nat)
    requires a <= b <= |iface| && (a < b ==> Keys.Digit(iface[a]) && Keys.Digit(iface[b - 1]))
    requires forall i :: 0 <= i < |iface| && Keys.Digit(iface[i]) ==> a <= i < b
    requires a == b ==> Keys.NoDigit(iface)
    ensures !Keys.Numbered(iface[a..b]) <==> Keys.NoDigit(iface) || Mixed(iface)
  {
    hide Keys.Digit;
    if a < b && !Keys.Numbered(iface[a..b]) {
      OddInside(iface, a, b);
    }
    if Mixed(iface) {
      OddFound(iface, a, b);
    }
  }

  lemma OddInside(iface: string, a: nat, b: nat)
    requires a < b <= |iface| && Keys.Digit(iface[a]) && Keys.Digit(iface[b - 1]) && !Keys.Numbered(iface[a..b])
    ensures Mixed(iface)
  {
    hide Keys.Digit;
    var core := iface[a..b];
    var n :| 0 <= n < |core| && !Keys.Digit(core[n]) && !Keys.Separator(core[n]);
    var j, k := a + n, b - 1;
    assert iface[j] == core[n] && a < j < k;
  }

  lemma OddFound(iface: string, a: nat, b: nat)
    requires a <= b <= |iface| && Mixed(iface)
    requires forall i :: 0 <= i < |iface| && Keys.Digit(iface[i]) ==> a <= i < b
    ensures !Keys.Numbered(iface[a..b])
  {
    hide Keys.Digit;
    var i, j, k :| 0 <= i < j < k < |iface| && Keys.Digit(iface[i]) && Keys.Digit(iface[k])
      && !Keys.Digit(iface[j]) && iface[j] != '.' && iface[j] != '/';
    assert a <= j < b && iface[a..b][j - a] == iface[j];
  }

  lemma DigitsBetween(iface: string, a: nat, b: nat)
    requires a <= b <= |iface| && Keys.NoDigit(iface[..a]) && Keys.NoDigit(iface[b..])
    ensures forall i :: 0 <= i < |iface| && Keys.Digit(iface[i]) ==> a <= i < b
    ensures a == b ==> Keys.NoDigit(iface)
  {
    hide Keys.Digit;
    forall i | 0 <= i < a ensures !Keys.Digit(iface[i]) {
      assert iface[..a][i] == iface[i];
    }
    forall i | b <= i < |iface| ensures !Keys.Digit(iface[i]) {
      assert iface[b..][i - b] == iface[i];
    }
  }

  lemma {:induction false} NumbersFail(pieces: seq<string>)
    ensures Keys.Numbers(pieces) == None <==>
      exists i :: 0 <= i < |pieces| && Unreadable(pieces[i])
  {
    hide Unreadable;
    if pieces != [] {
      NumbersFail(pieces[1..]);
      assert Keys.ParseInt(pieces[0]) == None <==> Unreadable(pieces[0]) by {
        ReadableIs(pieces[0]);
      }
      forall i | 0 < i < |pieces| ensures pieces[i] == pieces[1..][i - 1] {
      }
      if exists i :: 0 <= i < |pieces[1..]| && Unreadable(pieces[1..][i]) {
        var i :| 0 <= i < |pieces[1..]| && Unreadable(pieces[1..][i]);
        assert pieces[i + 1] == pieces[1..][i];
      }
    }
  }

  lemma ReadableIs(piece: string)
    ensures Keys.ParseInt(piece) == None <==> Unreadable(piece)
  {
  }

  /** No number, or one too large for an `int`. */
  predicate Unreadable(piece: string) {
    piece == "" || !AllDigits(piece, Dec) || Value(piece, Dec) > 2147483647
  }

  /** And of the other names those are refused that have, between two separators from the first
      digit to the last, nothing or a number too large for an `int`. */
  lemma RefusedExactly(iface: string)
    ensures Keys.Sorting(iface).NotANumber? <==>
      && !Keys.NoDigit(iface) && !Mixed(iface)
      && var ps := Keys.Pieces(Keys.Core(iface)); exists i :: 0 <= i < |ps| && Unreadable(ps[i])
  {
    hide *;
    KeptExactly(iface);
    SortingCases(iface);
    NumbersFail(Keys.Pieces(Keys.Core(iface)));
  }

  lemma SortingCases(iface: string)
    ensures Keys.Sorting(iface).NotANumber? <==>
      !Keys.Sorting(iface).AsItIs? && Keys.Numbers(Keys.Pieces(Keys.Core(iface))) == None
  {
    hide Keys.Core, Keys.Pieces, Keys.Numbers, Keys.Key;
  }
}
