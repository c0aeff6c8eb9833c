/** Percent encoding in two passes: one that counts, one that writes. */
module UrlEncode {
  import opened Dom
  import opened Numerals

  /** What a string of single bytes holds before its terminator. */
  predicate SingleByte(s: string) {
    forall i :: 0 <= i < |s| ==> 0 < s[i] as nat < 0x100
  }

  /** `*src < 0x1f || *src > 0x7f` for a signed `char`: control characters, and those above
      0x7f, which are negative. */
  predicate Low(c: char) {
    c < 0x1f as char || c > 0x7f as char
  }

  predicate Printable(s: string) {
    forall i :: 0 <= i < |s| ==> !Low(s[i])
  }

  const SPECIAL := "$&+,/:;=?@ \"<>#%{}|\\^'~[]`"

  predicate Special(c: char) {
    c in SPECIAL
  }

  /* ----- section 2.1 of RFC 3986 ----- */

  function Unit(c: char): (r: string)
    requires (c as nat) < 0x100
    ensures r != []
  {
    if Special(c) || Low(c) then ['%', DIGITS[c as nat / 16], DIGITS[c as nat % 16]] else [c]
  }

  predicate Letter(c: char) {
    'a' <= c <= 'z' || 'A' <= c <= 'Z' || '0' <= c <= '9'
  }

  /** Letters, digits and seven marks stay as they are, and with them two control characters. */
  lemma StaysExactly(c: char)
    requires 0 < c as nat < 0x100
    ensures Unit(c) == [c] <==>
      Letter(c) || c in {'-', '_', '.', '!', '*', '(', ')'} || c == 0x1f as char || c == 0x7f as char
    ensures Unit(c) == [c] || (|Unit(c)| == 3 && Unit(c)[0] == '%')
  {
    if !Low(c) {
      Marks(c);
    }
  }

  lemma Marks(c: char)
    requires 0x1f as char <= c <= 0x7f as char
    ensures Special(c) <==>
      !(Letter(c) || c in {'-', '_', '.', '!', '*', '(', ')'} || c == 0x1f as char || c == 0x7f as char)
  {
    var n := c as nat;
    assert n < 0x30 ==> (Special(c) <==> n in {0x20, 0x22, 0x23, 0x24, 0x25, 0x26, 0x27, 0x2b, 0x2c, 0x2f});
    assert 0x30 <= n < 0x40 ==> (Special(c) <==> n >= 0x3a);
    assert 0x40 <= n < 0x60 ==> (Special(c) <==> n in {0x40, 0x5b, 0x5c, 0x5d, 0x5e});
    assert 0x60 <= n ==> (Special(c) <==> n in {0x60, 0x7b, 0x7c, 0x7d, 0x7e});
  }

  function Encoded(s: string): string
    requires SingleByte(s)
  {
    if s == [] then [] else Unit(s[0]) + Encoded(s[1..])
  }

  /** Percent-decoding: `%` and two hexadecimal digits of either case, or a plain character. */
  function Decoded(text: string): Option<string> {
    if text == [] then Some([])
    else if text[0] != '%' then
      match Decoded(text[1..])
      case None => None
      case Some(rest) => Some([text[0]] + rest)
    else if |text| < 3 || !IsDigit(text[1], Hex) || !IsDigit(text[2], Hex) then None
    else
      match Decoded(text[3..])
      case None => None
      case Some(rest) => Some([(DigitValue(text[1]).value * 16 + DigitValue(text[2]).value) as char] + rest)
  }

  lemma UnitDecoded(c: char, rest: string)
    requires (c as nat) < 0x100 && Decoded(rest).Some?
    ensures Decoded(Unit(c) + rest) == Some([c] + Decoded(rest).value)
  {
    PercentSpecial();
    hide Special, IsDigit, DigitValue, Decoded;
    if Special(c) || Low(c) {
      var n := c as nat;
      assert n == n / 16 * 16 + n % 16;
      DigitOf(n / 16, Hex);
      DigitOf(n % 16, Hex);
      UnitFirst(DIGITS[n / 16], DIGITS[n % 16], rest);
    } else {
      PlainFirst(c, rest);
    }
  }

  lemma PlainFirst(c: char, rest: string)
    requires Decoded(rest).Some? && c != '%'
    ensures Decoded([c] + rest) == Some([c] + Decoded(rest).value)
  {
    assert ([c] + rest)[1..] == rest;
  }

  lemma UnitFirst(d: char, e: char, rest: string)
    requires Decoded(rest).Some? && IsDigit(d, Hex) && IsDigit(e, Hex)
    ensures Decoded(['%', d, e] + rest) == Some([(DigitValue(d).value * 16 + DigitValue(e).value) as char] + Decoded(rest).value)
  {
    hide DigitValue;
    assert (['%', d, e] + rest)[3..] == rest;
  }

  lemma PercentSpecial()
    ensures Special('%')
  {
  }

  /** Decoding what was encoded gives back the text. */
  lemma {:induction false} RoundTrip(s: string)
    requires SingleByte(s)
    ensures Decoded(Encoded(s)) == Some(s)
  {
    hide Special;
    if s != [] {
      RoundTrip(s[1..]);
      UnitDecoded(s[0], Encoded(s[1..]));
      assert [s[0]] + s[1..] == s;
    }
  }

  /** Nothing special is left but the percent signs of the units. */
  lemma {:induction false} NothingSpecial(s: string)
    requires SingleByte(s)
    ensures forall c :: c in Encoded(s) && Special(c) ==> c == '%'
  {
    hide Special;
    if s != [] {
      NothingSpecial(s[1..]);
      if Special(s[0]) || Low(s[0]) {
        DigitPlain(s[0] as nat / 16);
        DigitPlain(s[0] as nat % 16);
      }
    }
  }

  lemma DigitPlain(d: nat)
    requires d < 16
    ensures !Special(DIGITS[d])
  {
  }

  lemma {:induction false} EncodedConcat(a: string, b: string)
    requires SingleByte(a) && SingleByte(b)
    ensures SingleByte(a + b) && Encoded(a + b) == Encoded(a) + Encoded(b)
  {
    hide Unit;
    if a == [] {
      assert a + b == b;
    } else {
      assert (a + b)[1..] == a[1..] + b;
      EncodedConcat(a[1..], b);
    }
  }

  lemma EncodedMore(s: string, i: nat)
    requires SingleByte(s) && i < |s|
    ensures Encoded(s[..i + 1]) == Encoded(s[..i]) + Unit(s[i])
    ensures |Encoded(s[..i + 1])| <= |Encoded(s)|
  {
    hide Unit;
    assert s[..i + 1] == s[..i] + [s[i]];
    EncodedConcat(s[..i], [s[i]]);
    assert Encoded([s[i]]) == Unit(s[i]);
    assert s == s[..i + 1] + s[i + 1..];
    EncodedConcat(s[..i + 1], s[i + 1..]);
  }

  /* ----- what the counting pass counts ----- */

  /** Three for a special character, one for any other. */
  function Counted(s: string): nat {
    if s == [] then 0 else (if Special(s[0]) then 3 else 1) + Counted(s[1..])
  }

  /** The count is the length of the encoding exactly for texts without control characters and
      characters above 0x7f; otherwise it is too small. */
  lemma {:induction false} CountedExactly(s: string)
    requires SingleByte(s)
    ensures Counted(s) <= |Encoded(s)|
    ensures Counted(s) == |Encoded(s)| <==> Printable(s)
  {
    if s != [] {
      NotBoth(s[0]);
      hide Special, Low;
      CountedExactly(s[1..]);
      assert Printable(s) <==> !Low(s[0]) && Printable(s[1..]) by {
        assert s == [s[0]] + s[1..];
      }
    }
  }

  /** An input: a control character is counted as one and written as three. */
  lemma ControlCharacter()
    ensures var s := [0x1 as char]; SingleByte(s) && Counted(s) == 1 && Encoded(s) == "%01"
  {
    var s := [0x1 as char];
    assert s[1..] == "";
    assert !Special(0x1 as char);
  }

  lemma NotBoth(c: char)
    ensures !(Special(c) && Low(c))
  {
  }

  lemma {:induction false} CountedConcat(a: string, b: string)
    ensures Counted(a + b) == Counted(a) + Counted(b)
  {
    hide Special;
    if a == [] {
      assert a + b == b;
    } else {
      assert (a + b)[1..] == a[1..] + b;
      CountedConcat(a[1..], b);
    }
  }

  lemma CountedMore(s: string, i: nat)
    requires i < |s|
    ensures Counted(s[..i + 1]) == Counted(s[..i]) + (if Special(s[i]) then 3 else 1)
    ensures Counted(s[..i + 1]) <= Counted(s)
  {
    hide Special;
    assert s[..i + 1] == s[..i] + [s[i]];
    CountedConcat(s[..i], [s[i]]);
    assert Counted([s[i]]) == if Special(s[i]) then 3 else 1;
    assert s == s[..i + 1] + s[i + 1..];
    CountedConcat(s[..i + 1], s[i + 1..]);
  }

  /* ----- the program ----- */

  /** The longest prefix the count of which leaves room for the terminator. */
  ghost predicate Fits(s: string, k: nat, size: nat) {
    k <= |s| && Counted(s[..k]) < size && (k == |s| || size <= Counted(s[..k + 1]))
  }

  ghost predicate Text(dst: seq<char>, text: string) {
    |text| < |dst| && dst[..|text|] == text && dst[|text|] == '\0'
  }

  /** Write one character, as it is or as a unit. */
  method WriteUnit(dst: array<char>, o: nat, c: char, encode: bool) returns (after: nat)
    requires (c as nat) < 0x100 && encode == (Special(c) || Low(c)) && o + |Unit(c)| < dst.Length
    modifies dst
    ensures after == o + |Unit(c)| && dst[..after] == old(dst[..o]) + Unit(c)
    ensures forall j :: after <= j < dst.Length ==> dst[j] == old(dst[j])
  {
    hide Special;
    if encode {
      dst[o] := '%';
      dst[o + 1] := DIGITS[c as nat / 16];
      dst[o + 2] := DIGITS[c as nat % 16];
      after := o + 3;
    } else {
      dst[o] := c;
      after := o + 1;
    }
    assert dst[..o] == old(dst[..o]);
  }

  lemma NothingYet()
    ensures Encoded([]) == [] && Counted([]) == 0
  {
  }

  /** The first `i` characters are counted and encoded. */
  ghost predicate Written(src: string, i: nat, count: nat, o: nat)
    requires i <= |src| && SingleByte(src)
  {
    && count == Counted(src[..i]) && o == |Encoded(src[..i])|
    && (Printable(src) ==> o == count)
  }

  lemma WrittenMore(src: string, i: nat, count: nat, o: nat)
    requires i < |src| && SingleByte(src) && Written(src, i, count, o)
    ensures Encoded(src[..i + 1]) == Encoded(src[..i]) + Unit(src[i])
    ensures Written(src, i + 1, count + (if Special(src[i]) then 3 else 1), o + |Unit(src[i])|)
    ensures o + |Unit(src[i])| <= |Encoded(src)|
    ensures count + (if Special(src[i]) then 3 else 1) <= Counted(src)
  {
    hide Special, Unit, Encoded, Counted;
    EncodedMore(src, i);
    CountedMore(src, i);
    CountedExactly(src[..i + 1]);
    if Printable(src) {
      assert Printable(src[..i + 1]);
    }
  }

  /** `dst` may be missing; the second result is what is left in `*dstsz`. A buffer must be
      large enough for what is written: `*dstsz` says so for the texts the count is right for. */
  method URLEncode(src: string, dst: Option<array<char>>, dstsz: nat) returns (ok: bool, size: nat)
    requires SingleByte(src)
    requires dst.Some? ==> 1 <= dstsz <= dst.value.Length && (Printable(src) || |Encoded(src)| < dst.value.Length)
    modifies if dst.Some? then {dst.value} else {}
    ensures dst.None? && dstsz <= 1 ==> !ok && size == 0
    ensures dst.None? && dstsz > 1 ==> ok && size == Counted(src) + 1
    ensures dst.Some? ==> (ok <==> Counted(src) + 1 <= dstsz)
    ensures dst.Some? && ok ==> size == Counted(src) + 1 && Text(dst.value[..], Encoded(src))
    ensures dst.Some? && !ok ==> size == dstsz && exists k: nat :: Fits(src, k, dstsz) && Text(dst.value[..], Encoded(src[..k]))
    ensures dst.Some? && Printable(src) ==> forall j :: dstsz <= j < dst.value.Length ==> dst.value[j] == old(dst.value[j])
  {
    hide Special, Encoded, Counted, Unit, Printable;
    if dst.None? && dstsz <= 1 {
      return false, 0;
    }
    NothingYet();
    assert src[..0] == [];
    CountedExactly(src);
    var i: nat, count: nat, o: nat := 0, 0, 0;
    while i < |src|
      invariant 0 <= i <= |src| && count == Counted(src[..i]) <= Counted(src)
      invariant dst.Some? ==> count < dstsz && Written(src, i, count, o)
      invariant dst.Some? ==> o < dst.value.Length && dst.value[..o] == Encoded(src[..i])
      invariant dst.Some? && Printable(src) ==> forall j :: dstsz <= j < dst.value.Length ==> dst.value[j] == old(dst.value[j])
    {
      CountedMore(src, i);
      var c := src[i];
      var encode := Low(c);
      count := count + 1;
      if Special(c) {
        encode := true;
        count := count + 2;
      }
      if dst.None? {
        i := i + 1;
        continue;
      }
      if count >= dstsz {
        dst.value[o] := '\0';
        assert Fits(src, i, dstsz) && Text(dst.value[..], Encoded(src[..i]));
        return false, dstsz;
      }
      WrittenMore(src, i, Counted(src[..i]), o);
      o := WriteUnit(dst.value, o, c, encode);
      i := i + 1;
    }
    assert src[..i] == src;
    if dst.Some? {
      dst.value[o] := '\0';
    }
    return true, count + 1;
  }
}
