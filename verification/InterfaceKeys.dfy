/** Sort keys for network interface names: text order that is the numeric order. */
module InterfaceKeys {
  import opened Arithmetic
  import opened Dom
  import opened Numerals

  /* ----- reading a name ----- */

  predicate Digit(c: char) {
    '0' <= c <= '9'
  }

  predicate Separator(c: char) {
    c == '.' || c == '/'
  }

  function DropFront(s: string): (r: string)
    ensures r != [] ==> Digit(r[0])
  {
    if s == [] || Digit(s[0]) then s else DropFront(s[1..])
  }

  function DropBack(s: string): (r: string)
    ensures r != [] ==> Digit(r[|r| - 1])
    ensures s != [] && Digit(s[0]) ==> r != [] && r[0] == s[0]
  {
    if s == [] || Digit(s[|s| - 1]) then s else DropBack(s[..|s| - 1])
  }

  /** The name from its first digit to its last. */
  function Core(iface: string): string {
    DropBack(DropFront(iface))
  }

  predicate Numbered(core: string) {
    core != [] && forall i :: 0 <= i < |core| ==> Digit(core[i]) || Separator(core[i])
  }

  /** The pieces between separators. */
  function Pieces(s: string): (r: seq<string>)
    ensures r != []
  {
    if s == [] then [[]]
    else if Separator(s[0]) then [[]] + Pieces(s[1..])
    else
      var rest := Pieces(s[1..]);
      [[s[0]] + rest[0]] + rest[1..]
  }

  const MAX_INT := 0x7fff_ffff

  /** `Integer.parseInt` of a piece without a sign. */
  function ParseInt(s: string): Option<nat> {
    if s == [] || !AllDigits(s, Dec) || Value(s, Dec) > MAX_INT then None else Some(Value(s, Dec))
  }

  /** The components of a name; `None` when one of the pieces is no number. */
  function Numbers(pieces: seq<string>): Option<seq<nat>> {
    if pieces == [] then Some([])
    else match (ParseInt(pieces[0]), Numbers(pieces[1..]))
      case (Some(n), Some(rest)) => Some([n] + rest)
      case _ => None
  }

  /* ----- keys ----- */

  /** At least five digits, as `DecimalFormat("00000")` writes them. */
  function Padded(n: nat): string {
    Zeros(5 - |Numeral(n, Dec)|) + Numeral(n, Dec)
  }

  function Key(ns: seq<nat>): string {
    if ns == [] then [] else Padded(ns[0]) + "." + Key(ns[1..])
  }

  datatype Outcome = AsItIs(name: string) | Keyed(key: string) | NotANumber

  function Sorting(iface: string): Outcome {
    if !Numbered(Core(iface)) then AsItIs(iface)
    else match Numbers(Pieces(Core(iface)))
      case None => NotANumber
      case Some(ns) => Keyed(Key(ns))
  }

  /** The numbers a name that sorts by a key is read as. */
  function Components(iface: string): seq<nat>
    requires Sorting(iface).Keyed?
  {
    Numbers(Pieces(Core(iface))).value
  }

  method NumericInterface(in_iface: string) returns (r: Outcome)
    ensures r == Sorting(in_iface)
  {
    var iface := DropBack(DropFront(in_iface));
    if !Numbered(iface) {
      return AsItIs(in_iface);
    }
    var elems := Pieces(iface);
    hide Key, Padded, Pieces, ParseInt;
    var rv := "";
    var i := 0;
    while i < |elems|
      invariant 0 <= i <= |elems| && Ends(rv, elems[i..], elems)
    {
      Step(rv, elems[i..], elems);
      assert elems[i..][1..] == elems[i + 1..];
      var n := ParseInt(elems[i]);
      if n == None {
        return NotANumber;
      }
      rv := rv + Padded(n.value) + ".";
      i := i + 1;
    }
    KeyOfNone();
    r := Keyed(rv);
  }

  /** The key so far and the pieces still to come make the key of all pieces. */
  ghost predicate Ends(rv: string, rest: seq<string>, elems: seq<string>) {
    match Numbers(rest)
    case None => Numbers(elems) == None
    case Some(ns) => Numbers(elems).Some? && rv + Key(ns) == Key(Numbers(elems).value)
  }

  lemma Step(rv: string, rest: seq<string>, elems: seq<string>)
    requires rest != [] && Ends(rv, rest, elems)
    ensures match ParseInt(rest[0])
            case None => Numbers(elems) == None
            case Some(n) => Ends(rv + Padded(n) + ".", rest[1..], elems)
  {
    hide Padded, ParseInt;
    if ParseInt(rest[0]).Some? && Numbers(rest[1..]).Some? {
      var n, ns := ParseInt(rest[0]).value, Numbers(rest[1..]).value;
      assert ([n] + ns)[1..] == ns;
      assert rv + Key([n] + ns) == rv + Padded(n) + "." + Key(ns);
    }
  }

  lemma KeyOfNone()
    ensures Numbers([]) == Some([]) && Key([]) == []
  {
  }

  /* ----- the key of a written name ----- */

  /** Digit texts with a separator between each two. */
  function Written(ds: seq<string>, seps: seq<char>): string
    requires |ds| == |seps| + 1
  {
    if |ds| == 1 then ds[0] else ds[0] + [seps[0]] + Written(ds[1..], seps[1..])
  }

  predicate NoDigit(s: string) {
    forall i :: 0 <= i < |s| ==> !Digit(s[i])
  }

  lemma {:induction false} DropsFront(front: string, s: string)
    requires NoDigit(front) && s != [] && Digit(s[0])
    ensures DropFront(front + s) == s
  {
    if front == [] {
      assert front + s == s;
    } else {
      DropsFront(front[1..], s);
      assert (front + s)[1..] == front[1..] + s;
    }
  }

  lemma {:induction false} DropsBack(s: string, back: string)
    requires NoDigit(back) && s != [] && Digit(s[|s| - 1])
    ensures DropBack(s + back) == s
  {
    if back == [] {
      assert s + back == s;
    } else {
      var n := |back| - 1;
      DropsBack(s, back[..n]);
      assert (s + back)[..|s| + n] == s + back[..n];
      assert (s + back)[|s| + n] == back[n];
    }
  }

  lemma {:induction false} PiecesOfDigits(s: string, tail: string)
    requires Digits(s)
    ensures var rest := Pieces(tail); Pieces(s + tail) == [s + rest[0]] + rest[1..]
  {
    if s == [] {
      var rest := Pieces(tail);
      assert s + tail == tail && s + rest[0] == rest[0] && rest == [rest[0]] + rest[1..];
    } else {
      PiecesOfDigits(s[1..], tail);
      assert (s + tail)[1..] == s[1..] + tail && !Separator(s[0]);
      var rest, p := Pieces(tail), Pieces(s[1..] + tail);
      assert p[0] == s[1..] + rest[0] && p[1..] == rest[1..];
      assert [s[0]] + p[0] == s + rest[0];
    }
  }

  /** Digits, perhaps with zeros in front, of a number the program can hold. */
  ghost predicate Readable(ds: seq<string>) {
    forall i :: 0 <= i < |ds| ==> ParseInt(ds[i]).Some?
  }

  function ValuesOf(ds: seq<string>): (ns: seq<nat>)
    requires Readable(ds)
    ensures |ns| == |ds|
  {
    seq(|ds|, i requires 0 <= i < |ds| => ParseInt(ds[i]).value)
  }

  predicate Separators(seps: seq<char>) {
    forall i :: 0 <= i < |seps| ==> Separator(seps[i])
  }

  lemma ReadableDigits(s: string)
    requires ParseInt(s).Some?
    ensures s != [] && Digits(s)
  {
    AllDigitsAre(s);
  }

  lemma {:induction false} WrittenNumbers(ds: seq<string>, seps: seq<char>)
    requires |ds| == |seps| + 1 && Readable(ds) && Separators(seps)
    ensures Numbers(Pieces(Written(ds, seps))) == Some(ValuesOf(ds))
    ensures Numbered(Written(ds, seps))
    ensures Digit(Written(ds, seps)[0]) && Digit(Written(ds, seps)[|Written(ds, seps)| - 1])
  {
    hide ParseInt, Value, AllDigits, Numbers, Pieces;
    var first := ds[0];
    ReadableDigits(first);
    if |ds| == 1 {
      PiecesOfDigits(first, []);
      NoPieces();
      assert first + [] == first;
      NumbersFirst(first, []);
      assert ValuesOf(ds) == [ParseInt(first).value] + [];
    } else {
      WrittenNumbers(ds[1..], seps[1..]);
      var more := Written(ds[1..], seps[1..]);
      PiecesOfDigits(first, [seps[0]] + more);
      PiecesAfter(seps[0], more);
      assert Written(ds, seps) == first + ([seps[0]] + more);
      NumbersFirst(first, Pieces(more));
      assert ValuesOf(ds) == [ParseInt(first).value] + ValuesOf(ds[1..]);
    }
  }

  lemma NoPieces()
    ensures Pieces([]) == [[]] && Numbers([]) == Some([])
  {
  }

  lemma PiecesAfter(sep: char, s: string)
    requires Separator(sep)
    ensures Pieces([sep] + s) == [[]] + Pieces(s)
  {
    assert ([sep] + s)[1..] == s;
  }

  lemma NumbersFirst(first: string, rest: seq<string>)
    requires ParseInt(first).Some? && Numbers(rest).Some?
    ensures Numbers([first + []] + rest) == Some([ParseInt(first).value] + Numbers(rest).value)
  {
    assert ([first + []] + rest)[1..] == rest && first + [] == first;
  }

  /** Whatever stands before the first and after the last digit, and whichever separators stand
      between, the key of a name is the key of the numbers written in it. */
  lemma WrittenKey(front: string, ds: seq<string>, seps: seq<char>, back: string)
    requires |ds| == |seps| + 1 && Readable(ds) && Separators(seps)
    requires NoDigit(front) && NoDigit(back)
    ensures var name := front + (Written(ds, seps) + back);
      Sorting(name) == Keyed(Key(ValuesOf(ds))) && Components(name) == ValuesOf(ds)
  {
    var core := Written(ds, seps);
    WrittenNumbers(ds, seps);
    DropsFront(front, core + back);
    DropsBack(core, back);
  }

  /* ----- order ----- */

  /** Lexicographic order: a proper prefix comes first. */
  predicate Lex<T(==)>(less: (T, T) -> bool, a: seq<T>, b: seq<T>) {
    b != [] && (a == [] || less(a[0], b[0]) || (a[0] == b[0] && Lex(less, a[1..], b[1..])))
  }

  const CHARS := (c: char, d: char) => c < d
  const NUMBERS := (m: nat, n: nat) => m < n

  /** `String.compareTo` is negative. */
  predicate Earlier(s: string, t: string) {
    Lex(CHARS, s, t)
  }

  lemma {:induction false} BlockFirst(a: string, b: string, s: string, t: string)
    requires |a| == |b|
    ensures Earlier(a + s, b + t) <==> Earlier(a, b) || (a == b && Earlier(s, t))
    ensures a + s == b + t <==> a == b && s == t
  {
    if a == [] {
      assert a + s == s && b + t == t;
    } else {
      assert (a + s)[0] == a[0] && (b + t)[0] == b[0];
      assert (a + s)[1..] == a[1..] + s && (b + t)[1..] == b[1..] + t;
      BlockFirst(a[1..], b[1..], s, t);
      assert a == [a[0]] + a[1..] && b == [b[0]] + b[1..];
    }
  }

  lemma OneChar(c: char, d: char)
    ensures Earlier([c], [d]) <==> c < d
  {
    assert !Lex(CHARS, [c][1..], [d][1..]);
  }

  predicate Digits(s: string) {
    forall i :: 0 <= i < |s| ==> Digit(s[i])
  }

  /** Texts of equally many digits are in the order of their values. */
  lemma {:induction false} DigitsOrder(a: string, b: string)
    requires |a| == |b| && Digits(a) && Digits(b)
    ensures AllDigits(a, Dec) && AllDigits(b, Dec)
    ensures Earlier(a, b) <==> Value(a, Dec) < Value(b, Dec)
    ensures a == b <==> Value(a, Dec) == Value(b, Dec)
  {
    hide Earlier;
    EarlierTotal(a, b);
    if a != [] {
      var n := |a| - 1;
      assert a == a[..n] + [a[n]] && b == b[..n] + [b[n]];
      DigitsOrder(a[..n], b[..n]);
      BlockFirst(a[..n], b[..n], [a[n]], [b[n]]);
      OneChar(a[n], b[n]);
    }
  }

  lemma PaddedValue(n: nat)
    ensures |Padded(n)| == (if |Numeral(n, Dec)| < 5 then 5 else |Numeral(n, Dec)|)
    ensures Digits(Padded(n)) && AllDigits(Padded(n), Dec) && Value(Padded(n), Dec) == n
  {
    hide Numeral, Value;
    NumeralValue(n, Dec);
    ZerosValue(5 - |Numeral(n, Dec)|, Numeral(n, Dec), Dec);
    AllDigitsAre(Padded(n));
  }

  lemma AllDigitsAre(s: string)
    requires AllDigits(s, Dec)
    ensures Digits(s)
  {
    forall i | 0 <= i < |s| ensures Digit(s[i]) {
      assert IsDigit(s[i], Dec);
    }
  }

  lemma {:induction false} LongerNumeral(m: nat, n: nat)
    requires m <= n
    ensures |Numeral(m, Dec)| <= |Numeral(n, Dec)|
    decreases n
  {
    if m >= 10 {
      LongerNumeral(m / 10, n / 10);
    }
  }

  lemma NumeralShort(n: nat)
    requires n < 100000
    ensures |Numeral(n, Dec)| <= 5
  {
    assert n / 10 < 10000 && n / 10 / 10 < 1000 && n / 10 / 10 / 10 < 100 && n / 10 / 10 / 10 / 10 < 10;
    assert |Numeral(n / 10 / 10 / 10 / 10, Dec)| == 1;
    assert |Numeral(n / 10 / 10 / 10, Dec)| <= 2;
    assert |Numeral(n / 10 / 10, Dec)| <= 3;
    assert |Numeral(n / 10, Dec)| <= 4;
  }

  /** `n` without its last `k` digits. */
  function Leading(n: nat, k: nat): nat {
    if k == 0 then n else Leading(n / 10, k - 1)
  }

  function Pow10(k: nat): (p: nat)
    ensures p > 0
  {
    if k == 0 then 1 else 10 * Pow10(k - 1)
  }

  /** That is `n` divided by a power of ten. */
  lemma {:induction false} LeadingIsQuotient(n: nat, k: nat)
    ensures Leading(n, k) == n / Pow10(k)
  {
    if k > 0 {
      LeadingIsQuotient(n / 10, k - 1);
      QuotientTwice(n, 10, Pow10(k - 1));
    }
  }

  lemma QuotientTwice(n: nat, a: nat, b: nat)
    requires a > 0 && b > 0
    ensures a * b > 0 && n / a / b == n / (a * b)
  {
    var q, r, x := n / a / b, n / a % b, n % a;
    assert n / a == q * b + r;
    assert n == n / a * a + x;
    Distribute(q, b, r, a);
    BelowProduct(r, x, a, b);
    DivMod(a * b, q, r * a + x);
  }

  lemma Distribute(q: nat, b: nat, r: nat, a: nat)
    ensures (q * b + r) * a == q * (a * b) + r * a
  {
    assert (q * b + r) * a == q * b * a + r * a;
    assert q * b * a == q * (b * a);
  }

  lemma BelowProduct(r: nat, x: nat, a: nat, b: nat)
    requires r < b && x < a
    ensures r * a + x < a * b
  {
    var d := b - r;
    assert a * b == r * a + d * a;
    AtLeast(d, a);
  }

  lemma {:induction false} FrontValue(s: string, k: nat)
    requires k <= |s| && AllDigits(s, Dec)
    ensures AllDigits(s[..k], Dec) && Value(s[..k], Dec) == Leading(Value(s, Dec), |s| - k)
    decreases |s|
  {
    if k < |s| {
      var n := |s| - 1;
      FrontValue(s[..n], k);
      assert s[..n][..k] == s[..k];
      assert Value(s, Dec) / 10 == Value(s[..n], Dec);
    } else {
      assert s[..k] == s;
    }
  }

  /** Of two different numbers the smaller goes first exactly when it is no greater than the
      leading digits of the other, as many as it has. */
  predicate Kept(m: nat, n: nat)
    requires m < n
  {
    m <= Leading(n, Extra(m, n))
  }

  function Extra(m: nat, n: nat): nat {
    if |Padded(n)| < |Padded(m)| then 0 else |Padded(n)| - |Padded(m)|
  }

  /** The order of two components in keys. */
  predicate Goes(m: nat, n: nat) {
    if m < n then Kept(m, n) else n < m && !Kept(n, m)
  }

  const GOES := (m: nat, n: nat) => Goes(m, n)

  /** Digit texts of any length, each ended by a point. */
  lemma EndedOrder(a: string, b: string)
    requires Digits(a) && Digits(b) && |a| <= |b| && a != b
    ensures AllDigits(a, Dec) && AllDigits(b, Dec)
    ensures Earlier(a + ".", b + ".") <==> Value(a, Dec) <= Leading(Value(b, Dec), |b| - |a|)
  {
    hide Earlier, Value, AllDigits, Digits;
    var w := |a|;
    DigitsPart(b, w);
    DigitsOrder(b, b);
    FrontValue(b, w);
    DigitsOrder(a, b[..w]);
    BlockFirst(a, b[..w], ".", b[w..] + ".");
    assert b[..w] + (b[w..] + ".") == b + ".";
    DotFirst(b[w..]);
    if w == |b| {
      assert b[..w] == b;
    }
  }

  lemma PaddedOrder(m: nat, n: nat)
    requires m < n
    ensures Earlier(Padded(m) + ".", Padded(n) + ".") <==> m <= n / Pow10(Extra(m, n))
    ensures Kept(m, n) <==> m <= n / Pow10(Extra(m, n))
    ensures |Padded(m)| <= |Padded(n)|
  {
    hide Padded, Earlier, Value, AllDigits, Digits, Numeral;
    PaddedValue(m);
    PaddedValue(n);
    LongerNumeral(m, n);
    LeadingIsQuotient(n, Extra(m, n));
    EndedOrder(Padded(m), Padded(n));
  }

  lemma DigitsPart(s: string, k: nat)
    requires k <= |s| && Digits(s)
    ensures Digits(s[..k]) && Digits(s[k..])
  {
  }

  lemma DotFirst(s: string)
    requires Digits(s)
    ensures Earlier(".", s + ".") <==> s != []
  {
    if s == [] {
      assert s + "." == ".";
      OneChar('.', '.');
    } else {
      assert (s + ".")[0] == s[0];
    }
  }

  lemma {:induction false} EarlierTotal(s: string, t: string)
    ensures s != t ==> (Earlier(s, t) <==> !Earlier(t, s))
    ensures s == t ==> !Earlier(s, t)
  {
    if s != [] && t != [] {
      EarlierTotal(s[1..], t[1..]);
      assert s == [s[0]] + s[1..] && t == [t[0]] + t[1..];
    }
  }

  /** Two different digit texts, each ended by a point, decide the order of what begins with them. */
  lemma {:induction false} Decided(x: string, y: string, s: string, t: string)
    requires Digits(x) && Digits(y) && x != y
    ensures x + "." != y + "." && x + "." + s != y + "." + t
    ensures Earlier(x + "." + s, y + "." + t) <==> Earlier(x + ".", y + ".")
  {
    var xs, ys := x + "." + s, y + "." + t;
    if x == [] || y == [] {
      assert xs[0] == (x + ".")[0] && ys[0] == (y + ".")[0];
    } else {
      assert xs[0] == x[0] && ys[0] == y[0] && (x + ".")[0] == x[0] && (y + ".")[0] == y[0];
      if x[0] == y[0] {
        assert x == [x[0]] + x[1..] && y == [y[0]] + y[1..];
        Decided(x[1..], y[1..], s, t);
        assert xs[1..] == x[1..] + "." + s && ys[1..] == y[1..] + "." + t;
        assert (x + ".")[1..] == x[1..] + "." && (y + ".")[1..] == y[1..] + ".";
      }
    }
  }

  lemma PaddedGoes(m: nat, n: nat, s: string, t: string)
    requires m != n
    ensures Padded(m) + "." + s != Padded(n) + "." + t
    ensures Earlier(Padded(m) + "." + s, Padded(n) + "." + t) <==> Goes(m, n)
  {
    hide Padded, Earlier, Value, AllDigits, Digits, Kept;
    PaddedValue(m);
    PaddedValue(n);
    Decided(Padded(m), Padded(n), s, t);
    if m < n {
      PaddedOrder(m, n);
    } else {
      PaddedOrder(n, m);
      EarlierTotal(Padded(m) + ".", Padded(n) + ".");
    }
  }

  /** For all components the text order of keys is the lexicographic order by `Goes`. */
  lemma {:induction false} KeyOrder(a: seq<nat>, b: seq<nat>)
    ensures Earlier(Key(a), Key(b)) <==> Lex(GOES, a, b)
  {
    hide Padded, Kept;
    if a != [] && b != [] {
      KeyOrder(a[1..], b[1..]);
      if a[0] == b[0] {
        var block := Padded(a[0]) + ".";
        BlockFirst(block, block, Key(a[1..]), Key(b[1..]));
        EarlierTotal(block, block);
      } else {
        PaddedGoes(a[0], b[0], Key(a[1..]), Key(b[1..]));
      }
    }
  }

  /** Equal keys mean equal components. */
  lemma {:induction false} KeyEqual(a: seq<nat>, b: seq<nat>)
    ensures Key(a) == Key(b) <==> a == b
  {
    hide Padded;
    if a != [] && b != [] {
      KeyEqual(a[1..], b[1..]);
      assert a == [a[0]] + a[1..] && b == [b[0]] + b[1..];
      if a[0] == b[0] {
        var block := Padded(a[0]) + ".";
        BlockFirst(block, block, Key(a[1..]), Key(b[1..]));
      } else {
        PaddedGoes(a[0], b[0], Key(a[1..]), Key(b[1..]));
      }
    }
  }

  /** At the first place where the components differ, the smaller is greater than as many
      leading digits of the greater. */
  predicate Crossed(a: seq<nat>, b: seq<nat>) {
    a != [] && b != [] &&
    if a[0] == b[0] then Crossed(a[1..], b[1..])
    else if a[0] < b[0] then !Kept(a[0], b[0])
    else !Kept(b[0], a[0])
  }

  /** The text order of keys is the numeric order exactly for components that do not cross. */
  lemma {:induction false} NumericOrder(a: seq<nat>, b: seq<nat>)
    ensures (Earlier(Key(a), Key(b)) <==> Lex(NUMBERS, a, b)) <==> !Crossed(a, b)
  {
    hide Kept, Key, Earlier;
    KeyOrder(a, b);
    LexCrossed(a, b);
  }

  lemma {:induction false} LexCrossed(a: seq<nat>, b: seq<nat>)
    ensures (Lex(GOES, a, b) <==> Lex(NUMBERS, a, b)) <==> !Crossed(a, b)
  {
    hide Kept;
    if a != [] && b != [] && a[0] == b[0] {
      LexCrossed(a[1..], b[1..]);
    }
  }

  ghost predicate Small(ns: seq<nat>) {
    forall i :: 0 <= i < |ns| ==> ns[i] < 100000
  }

  /** Components below 100000 do not cross. */
  lemma {:induction false} SmallOrder(a: seq<nat>, b: seq<nat>)
    requires Small(a) && Small(b)
    ensures !Crossed(a, b)
    ensures Earlier(Key(a), Key(b)) <==> Lex(NUMBERS, a, b)
  {
    NumericOrder(a, b);
    hide Padded, Earlier, Key;
    if a != [] && b != [] {
      if a[0] == b[0] {
        SmallOrder(a[1..], b[1..]);
      } else {
        PaddedValue(a[0]);
        PaddedValue(b[0]);
        NumeralShort(a[0]);
        NumeralShort(b[0]);
      }
    }
  }

  /** Names that sort by keys are in the order of the numbers read from them. */
  lemma NameOrder(s: string, t: string)
    requires Sorting(s).Keyed? && Sorting(t).Keyed?
    ensures Earlier(Sorting(s).key, Sorting(t).key) <==> Lex(GOES, Components(s), Components(t))
    ensures Sorting(s).key == Sorting(t).key <==> Components(s) == Components(t)
    ensures (Earlier(Sorting(s).key, Sorting(t).key) <==> Lex(NUMBERS, Components(s), Components(t)))
            <==> !Crossed(Components(s), Components(t))
  {
    KeyOrder(Components(s), Components(t));
    KeyEqual(Components(s), Components(t));
    NumericOrder(Components(s), Components(t));
  }

  /** An input: 100000 goes before 99999, and after 10000. */
  lemma WideComponent()
    ensures Earlier(Key([100000]), Key([99999])) && Crossed([99999], [100000])
    ensures Earlier(Key([10000]), Key([100000])) && !Crossed([10000], [100000])
  {
    hide Key, Padded, Earlier;
    Widths();
    KeyOrder([100000], [99999]);
    KeyOrder([10000], [100000]);
    assert Leading(100000, 1) == Leading(10000, 0) == 10000;
  }

  lemma Widths()
    ensures |Padded(100000)| == 6 && |Padded(99999)| == |Padded(10000)| == 5
  {
    assert |Numeral(1, Dec)| == |Numeral(9, Dec)| == 1;
    assert |Numeral(10, Dec)| == |Numeral(99, Dec)| == 2;
    assert |Numeral(100, Dec)| == |Numeral(999, Dec)| == 3;
    assert |Numeral(1000, Dec)| == |Numeral(9999, Dec)| == 4;
  }
}
