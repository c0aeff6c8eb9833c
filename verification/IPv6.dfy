/** IPv6 addresses as eight groups of 16 bits and as one number: masks, bases, last addresses. */
module IPv6 {
  import opened Bits
  import opened Dom
  import opened Numerals

  predicate IsGroups(g: seq<nat>) {
    |g| == 8 && forall i :: 0 <= i < 8 ==> g[i] < 0x1_0000
  }

  /** The number the groups spell, first group first. */
  function Number(g: seq<nat>): nat {
    if g == [] then 0 else Shl(Number(g[..|g| - 1]), 16) + g[|g| - 1]
  }

  /** The last `n` groups of a number. */
  function Groups(x: nat, n: nat): (g: seq<nat>)
    ensures |g| == n
    decreases n
  {
    if n == 0 then [] else Groups(Shr(x, 16), n - 1) + [Low(x, 16)]
  }

  lemma Power16()
    ensures Pow2(16) == 0x1_0000
  {
    Powers();
  }

  lemma {:induction false} GroupsAt(x: nat, n: nat, i: nat)
    requires i < n
    ensures Groups(x, n)[n - 1 - i] == Low(Shr(x, 16 * i), 16) && Groups(x, n)[n - 1 - i] < 0x1_0000
    decreases n
  {
    hide Shr, Low, Pow2;
    Power16();
    if i == 0 {
      ShrNone(x);
      HighAndLow(x, 16);
    } else {
      GroupsAt(Shr(x, 16), n - 1, i - 1);
      ShrShr(x, 16, 16 * (i - 1));
    }
  }

  lemma ShrNone(x: nat)
    ensures Shr(x, 0) == x
  {
  }

  /** From groups to the number and back. */
  lemma {:induction false} GroupsOfNumber(g: seq<nat>)
    requires forall i :: 0 <= i < |g| ==> g[i] < 0x1_0000
    ensures Groups(Number(g), |g|) == g
  {
    if g != [] {
      var n := |g| - 1;
      GroupsOfNumber(g[..n]);
      GroupsMore(g, n, Number(g[..n]));
    }
  }

  lemma GroupsMore(g: seq<nat>, n: nat, x: nat)
    requires |g| == n + 1 && x == Number(g[..n]) && g[n] < 0x1_0000 && Groups(x, n) == g[..n]
    ensures Groups(Number(g), n + 1) == g
  {
    hide Shr, Low, Shl, Pow2;
    Power16();
    ShrOf(x, g[n], 16);
    assert Groups(Number(g), n + 1) == Groups(x, n) + [g[n]];
  }

  /** From a number to its groups and back. */
  lemma {:induction false} NumberOfGroups(x: nat, n: nat)
    requires x < Pow2(16 * n)
    ensures Number(Groups(x, n)) == x
    decreases n
  {
    hide Shr, Low, Shl;
    if n > 0 {
      ShrBelow(x, 16 * (n - 1), 16);
      NumberOfGroups(Shr(x, 16), n - 1);
      HighAndLow(x, 16);
      var g := Groups(Shr(x, 16), n - 1);
      assert (g + [Low(x, 16)])[..|g|] == g;
    }
  }

  /** `BigIntToIntArray`. */
  method BigIntToIntArray(x: nat) returns (rv: array<nat>)
    ensures fresh(rv) && rv[..] == Groups(x, 8)
    ensures forall k :: 0 <= k < 8 ==> rv[k] < 0x1_0000
  {
    hide *;
    rv := new nat[8](_ => 0);
    var i := 0;
    while i < rv.Length
      invariant 0 <= i <= 8
      invariant forall k :: 8 - i <= k < 8 ==> rv[k] == Groups(x, 8)[k] && rv[k] < 0x1_0000
    {
      GroupsAt(x, 8, i);
      LowWord(Shr(x, 16 * i));
      rv[7 - i] := And(Low(Shr(x, 16 * i), 32), 0xffff);
      i := i + 1;
    }
  }

  /** `intValue() & 0xFFFF`. */
  lemma LowWord(x: nat)
    ensures And(Low(x, 32), 0xffff) == Low(x, 16)
  {
    hide *;
    Word();
    AndLow(Low(x, 32), 16);
    LowLow(x, 32, 16);
  }

  lemma Word()
    ensures Ones(16, 0) == 0xffff
  {
    hide *;
    OnesValue(16, 0);
    Powers();
  }

  /* ----- hexadecimal text ----- */

  /** `String.format("%04x", n)`. */
  function FourDigits(n: nat): string {
    Zeros(4 - |Numeral(n, Hex)|) + Numeral(n, Hex)
  }

  function HexString(g: seq<nat>): string {
    if g == [] then "" else HexString(g[..|g| - 1]) + FourDigits(g[|g| - 1])
  }

  method IntsToHexString(g: seq<nat>) returns (r: string)
    ensures r == HexString(g)
  {
    r := "";
    var i := 0;
    while i < |g|
      invariant 0 <= i <= |g| && r == HexString(g[..i])
    {
      assert g[..i + 1][..i] == g[..i];
      r := r + FourDigits(g[i]);
      i := i + 1;
    }
    assert g[..i] == g;
  }

  /** Four digits more shift the value by sixteen bits. */
  lemma {:induction false} ValueConcat(s: string, t: string)
    requires AllDigits(s, Hex) && AllDigits(t, Hex)
    ensures AllDigits(s + t, Hex) && Value(s + t, Hex) == Shl(Value(s, Hex), 4 * |t|) + Value(t, Hex)
    decreases |t|
  {
    hide Value, Shl;
    if t == [] {
      assert s + t == s;
      ValueNothing(Value(s, Hex));
    } else {
      var n := |t| - 1;
      var front := t[..n];
      assert t == front + [t[n]] && s + t == (s + front) + [t[n]];
      ValueConcat(s, front);
      ValueMore(front, t[n], Hex);
      ValueMore(s + front, t[n], Hex);
      Shl4(Value(s, Hex), 4 * n);
    }
  }

  lemma ValueNothing(x: nat)
    ensures Value([], Hex) == 0 && Shl(x, 0) == x
  {
  }

  lemma Shl4(x: nat, k: nat)
    ensures Shl(x, k + 4) == 16 * Shl(x, k)
  {
    assert Shl(x, k + 4) == 2 * Shl(x, k + 3) == 4 * Shl(x, k + 2);
  }

  lemma FourDigitsValue(n: nat)
    requires n < 0x1_0000
    ensures |FourDigits(n)| == 4 && AllDigits(FourDigits(n), Hex) && Value(FourDigits(n), Hex) == n
  {
    NumeralValue(n, Hex);
    HexLength(n);
    var s := Numeral(n, Hex);
    ZerosValue(4 - |s|, s, Hex);
  }

  /** `new BigInteger(IntsToHexString(g), 16)` is the number of the groups. */
  lemma {:induction false} HexStringValue(g: seq<nat>)
    requires forall i :: 0 <= i < |g| ==> g[i] < 0x1_0000
    ensures AllDigits(HexString(g), Hex) && Value(HexString(g), Hex) == Number(g)
  {
    if g != [] {
      var n := |g| - 1;
      HexStringValue(g[..n]);
      FourDigitsValue(g[n]);
      ValueConcat(HexString(g[..n]), FourDigits(g[n]));
    }
  }

  /* ----- masks ----- */

  /** `BitsToMask`. */
  method BitsToMask(bits: nat) returns (rv: array<nat>)
    requires bits <= 128
    ensures fresh(rv) && rv[..] == Groups(Ones(bits, 128 - bits), 8)
    ensures Number(rv[..]) == Ones(bits, 128 - bits)
  {
    hide Shl, And, Groups, Ones, Number;
    rv := new nat[8](_ => 0);
    var full := bits / 16;
    var i := 0;
    while i < full
      invariant 0 <= i <= full
      invariant forall j :: 0 <= j < 8 ==> rv[j] == if j < i then 0xffff else 0
    {
      rv[i] := 0xffff;
      i := i + 1;
    }
    if full < rv.Length {
      rv[full] := And(Shl(0xffff, 16 - bits % 16), 0xffff);
    }
    forall j | 0 <= j < 8 ensures rv[j] == Groups(Ones(bits, 128 - bits), 8)[j] {
      MaskGroup(bits, j);
    }
    assert rv[..] == Groups(Ones(bits, 128 - bits), 8);
    MaskFits(bits);
    NumberOfGroups(Ones(bits, 128 - bits), 8);
  }

  lemma MaskFits(bits: nat)
    requires bits <= 128
    ensures Ones(bits, 128 - bits) < Pow2(128)
  {
    hide *;
    OnesValue(bits, 128 - bits);
  }

  /** One group of the mask. */
  lemma MaskGroup(bits: nat, j: nat)
    requires bits <= 128 && j < 8
    ensures Groups(Ones(bits, 128 - bits), 8)[j] ==
      if j < bits / 16 then 0xffff
      else if j == bits / 16 then And(Shl(0xffff, 16 - bits % 16), 0xffff)
      else 0
  {
    hide Shr, Low, Groups, Ones, And, Shl;
    var k := 128 - bits;
    var m := 16 * (7 - j);
    GroupsAt(Ones(bits, k), 8, 7 - j);
    ShrOnes(bits, k, m);
    Word();
    if j < bits / 16 {
      assert m >= k;
      LowOnes(bits + k - m, 0, 16);
    } else if j == bits / 16 {
      assert k - m == 16 - bits % 16;
      var r := 16 - bits % 16;
      OnesShifted(16, r);
      AndLow(Ones(16, r), 16);
      LowOnes(16, r, 16);
      LowOnes(bits, r, 16);
    } else {
      LowOnesZero(bits, k - m, 16);
    }
  }

  /* ----- blocks ----- */

  /** An address with its prefix length; -1 when none was given. */
  datatype Block = Block(ip: seq<nat>, bits: int)
  {
    predicate Valid() {
      IsGroups(ip) && bits <= 128
    }

    /** `toBigInteger`. */
    function ToBigInteger(): nat
      requires Valid()
    {
      HexStringValue(ip);
      Value(HexString(ip), Hex)
    }

    /** `BitsToBigInt`; `None` is the exception. */
    function BitsToBigInt(): Option<nat>
      requires Valid()
    {
      if bits < 0 then None
      else
        HexStringValue(MaskGroups(bits));
        Some(Value(HexString(MaskGroups(bits)), Hex))
    }

    function Size(): Option<nat>
      requires Valid()
    {
      if bits < 0 then None else Some(Pow2(128 - bits))
    }

    function BaseLong(): Option<nat>
      requires Valid()
    {
      if bits < 0 then None else Some(And(ToBigInteger(), BitsToBigInt().value))
    }

    function LastLong(): Option<int>
      requires Valid()
    {
      if bits < 0 then None else Some(BaseLong().value + Size().value - 1)
    }

    /** `contains`, for an address already read from its text. */
    function Contains(address: seq<nat>): Option<bool>
      requires Valid() && IsGroups(address)
    {
      if bits < 0 then None
      else
        HexStringValue(address);
        var inbig := Value(HexString(address), Hex);
        Some(inbig >= BaseLong().value && inbig <= LastLong().value)
    }
  }

  /** What `BitsToMask` puts in its array. */
  function MaskGroups(bits: nat): (g: seq<nat>)
    requires bits <= 128
    ensures forall i :: 0 <= i < |g| ==> g[i] < 0x1_0000
  {
    var g := Groups(Ones(bits, 128 - bits), 8);
    InRange(Ones(bits, 128 - bits), g);
    g
  }

  lemma InRange(x: nat, g: seq<nat>)
    requires g == Groups(x, 8)
    ensures forall i :: 0 <= i < 8 ==> g[i] < 0x1_0000
  {
    hide *;
    forall i | 0 <= i < 8 ensures g[i] < 0x1_0000 {
      GroupsAt(x, 8, 7 - i);
      assert g[8 - 1 - (7 - i)] == g[i];
    }
  }

  lemma {:induction false} NumberFits(g: seq<nat>)
    requires forall i :: 0 <= i < |g| ==> g[i] < 0x1_0000
    ensures Number(g) < Pow2(16 * |g|)
  {
    hide Shl, Pow2;
    Power16();
    if g != [] {
      var n := |g| - 1;
      NumberFits(g[..n]);
      var x := Number(g[..n]);
      ShlIsProduct(x, 16);
      Pow2Add(16 * n, 16);
    } else {
      Powers();
    }
  }

  /** The mask denotes 2^128 - 2^(128 - bits), the base is the address rounded down to a
      multiple of 2^(128 - bits), and the range test is agreement in the first `bits` bits. */
  lemma BlockRange(b: Block, address: seq<nat>)
    requires b.Valid() && b.bits >= 0 && IsGroups(address)
    ensures b.BitsToBigInt().value + Pow2(128 - b.bits) == Pow2(128)
    ensures b.BaseLong() == Some(Base(Number(b.ip), 128 - b.bits))
    ensures b.Contains(address) == Some(SameBlock(Number(b.ip), Number(address), 128 - b.bits))
  {
    hide HexString, Value, And, Ones, Pow2, Base, Groups, Number, Shr;
    var k: nat := 128 - b.bits;
    HexStringValue(b.ip);
    HexStringValue(address);
    HexStringValue(MaskGroups(b.bits));
    MaskFits(b.bits);
    NumberOfGroups(Ones(b.bits, k), 8);
    OnesValue(b.bits, k);
    NumberFits(b.ip);
    AndMask(Number(b.ip), b.bits, k);
    InBlock(Number(b.ip), Number(address), k);
  }

  /** Two blocks are disjoint, or the one with the longer prefix lies within the other. */
  lemma BlocksLaminar(b: Block, c: Block)
    requires b.Valid() && c.Valid() && 0 <= c.bits <= b.bits
    ensures (forall a: seq<nat> :: Within(b, a) ==> Within(c, a))
         || (forall a: seq<nat> :: !(Within(b, a) && Within(c, a)))
  {
    hide Number, SameBlock, Within;
    Laminar(Number(b.ip), 128 - b.bits, Number(c.ip), 128 - c.bits);
    forall a: seq<nat>
      ensures Within(b, a) <==> IsGroups(a) && SameBlock(Number(b.ip), Number(a), 128 - b.bits)
      ensures Within(c, a) <==> IsGroups(a) && SameBlock(Number(c.ip), Number(a), 128 - c.bits)
    {
      WithinIs(b, a);
      WithinIs(c, a);
    }
  }

  lemma WithinIs(b: Block, a: seq<nat>)
    requires b.Valid() && b.bits >= 0
    ensures Within(b, a) <==> IsGroups(a) && SameBlock(Number(b.ip), Number(a), 128 - b.bits)
  {
    hide Number, SameBlock;
    if IsGroups(a) {
      BlockRange(b, a);
    }
  }

  predicate Within(b: Block, a: seq<nat>)
    requires b.Valid()
  {
    IsGroups(a) && b.Contains(a) == Some(true)
  }
}
