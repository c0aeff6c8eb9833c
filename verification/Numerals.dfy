/** Decimal and hexadecimal numerals, as the string conversions of the Java library write and read them. */
module Numerals {
  import opened Dom

  const DIGITS := "0123456789abcdef"

  datatype Radix = Dec | Hex
  {
    function Size(): nat {
      if Dec? then 10 else 16
    }

    function Times(n: nat): nat {
      if Dec? then 10 * n else 16 * n
    }

    function Quotient(n: nat): nat {
      if Dec? then n / 10 else n / 16
    }

    function Rest(n: nat): nat {
      if Dec? then n % 10 else n % 16
    }
  }

  function Numeral(n: nat, r: Radix): (s: string)
    ensures s != []
    decreases n
  {
    if n < r.Size() then [DIGITS[n]] else Numeral(r.Quotient(n), r) + [DIGITS[r.Rest(n)]]
  }

  /** The value of one digit, either case. */
  function DigitValue(c: char): Option<nat> {
    if '0' <= c <= '9' then Some((c - '0') as nat)
    else if 'a' <= c <= 'f' then Some((c - 'a') as nat + 10)
    else if 'A' <= c <= 'F' then Some((c - 'A') as nat + 10)
    else None
  }

  predicate IsDigit(c: char, r: Radix) {
    DigitValue(c).Some? && DigitValue(c).value < r.Size()
  }

  predicate AllDigits(s: string, r: Radix) {
    forall i :: 0 <= i < |s| ==> IsDigit(s[i], r)
  }

  function Value(s: string, r: Radix): nat
    requires AllDigits(s, r)
  {
    if s == [] then 0 else r.Times(Value(s[..|s| - 1], r)) + DigitValue(s[|s| - 1]).value
  }

  /** Digits with an optional sign; anything else is refused. */
  function Parse(s: string, r: Radix): Option<int> {
    if s != [] && AllDigits(s, r) then Some(Value(s, r))
    else if |s| > 1 && s[0] == '+' && AllDigits(s[1..], r) then Some(Value(s[1..], r))
    else if |s| > 1 && s[0] == '-' && AllDigits(s[1..], r) then var v: int := Value(s[1..], r); Some(-v)
    else None
  }

  lemma DigitOf(d: nat, r: Radix)
    requires d < r.Size()
    ensures IsDigit(DIGITS[d], r) && DigitValue(DIGITS[d]) == Some(d)
    ensures DIGITS[d] == '0' <==> d == 0
  {
  }

  lemma ValueMore(s: string, c: char, r: Radix)
    requires AllDigits(s, r) && IsDigit(c, r)
    ensures AllDigits(s + [c], r) && Value(s + [c], r) == r.Times(Value(s, r)) + DigitValue(c).value
  {
    assert (s + [c])[..|s|] == s;
  }

  lemma ValueOne(c: char, r: Radix)
    requires IsDigit(c, r)
    ensures AllDigits([c], r) && Value([c], r) == DigitValue(c).value
  {
    assert [c][..0] == [];
  }

  /** Reading a numeral gives back the number; only zero is written with a leading zero. */
  lemma {:induction false} NumeralValue(n: nat, r: Radix)
    ensures AllDigits(Numeral(n, r), r) && Value(Numeral(n, r), r) == n
    ensures Numeral(n, r)[0] == '0' <==> n == 0
    ensures n == 0 ==> Numeral(n, r) == "0"
    decreases n
  {
    hide Value, AllDigits;
    if n < r.Size() {
      DigitOf(n, r);
      ValueOne(DIGITS[n], r);
    } else {
      DigitOf(r.Rest(n), r);
      NumeralValue(r.Quotient(n), r);
      ValueMore(Numeral(r.Quotient(n), r), DIGITS[r.Rest(n)], r);
    }
  }

  lemma ParseNumeral(n: nat, r: Radix)
    ensures Parse(Numeral(n, r), r) == Some(n)
  {
    NumeralValue(n, r);
  }

  lemma HexLength(n: nat)
    requires n < 0x1_0000
    ensures 1 <= |Numeral(n, Hex)| <= 4
  {
    assert n / 16 < 0x1000 && n / 16 / 16 < 0x100 && n / 16 / 16 / 16 < 16;
    assert |Numeral(n / 16 / 16 / 16, Hex)| == 1;
    assert |Numeral(n / 16 / 16, Hex)| <= 2;
    assert |Numeral(n / 16, Hex)| <= 3;
  }

  /* ----- leading zeros ----- */

  function Zeros(k: int): (s: string)
    ensures |s| == (if k < 0 then 0 else k) && forall i :: 0 <= i < |s| ==> s[i] == '0'
  {
    if k <= 0 then [] else "0" + Zeros(k - 1)
  }

  /** Leading zeros do not change the value. */
  lemma {:induction false} ZerosValue(k: int, s: string, r: Radix)
    requires AllDigits(s, r)
    ensures AllDigits(Zeros(k) + s, r) && Value(Zeros(k) + s, r) == Value(s, r)
    decreases |s|, k
  {
    if s != [] {
      var n := |s| - 1;
      ZerosValue(k, s[..n], r);
      assert Zeros(k) + s == (Zeros(k) + s[..n]) + [s[n]];
      ValueMore(Zeros(k) + s[..n], s[n], r);
      assert s == s[..n] + [s[n]];
    } else if k > 0 {
      ZerosOnly(k, r);
      assert Zeros(k) + s == Zeros(k);
    }
  }

  lemma {:induction false} ZerosOnly(k: nat, r: Radix)
    ensures AllDigits(Zeros(k), r) && Value(Zeros(k), r) == 0
  {
    if k > 0 {
      ZerosOnly(k - 1, r);
      ZerosSame(k - 1);
      ValueMore(Zeros(k - 1), '0', r);
    }
  }

  lemma {:induction false} ZerosSame(k: nat)
    ensures Zeros(k + 1) == Zeros(k) + "0"
  {
    if k > 0 {
      ZerosSame(k - 1);
    }
  }
}
