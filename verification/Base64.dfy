/** Base64: the two tables, the encoder that fills its buffer, and decoding through the table. */
module Base64 {
  import opened Arithmetic
  import opened Bits
  import opened Dom

  type Byte = n: nat | n < 256

  /** Characters a signed `char` holds without a sign; `SignedIndexes` says why no others. */
  predicate Plain(s: seq<Byte>) {
    forall i :: 0 <= i < |s| ==> s[i] < 128
  }

  /* ----- section 4 of RFC 4648 ----- */

  /** Table 1. */
  function Symbol(k: nat): char
    requires k < 64
  {
    if k < 26 then 'A' + k as char
    else if k < 52 then 'a' + (k - 26) as char
    else if k < 62 then '0' + (k - 52) as char
    else if k == 62 then '+'
    else '/'
  }

  /** Table 1 from right to left. */
  function Code(c: char): Option<nat> {
    if 'A' <= c <= 'Z' then Some((c - 'A') as nat)
    else if 'a' <= c <= 'z' then Some((c - 'a') as nat + 26)
    else if '0' <= c <= '9' then Some((c - '0') as nat + 52)
    else if c == '+' then Some(62)
    else if c == '/' then Some(63)
    else None
  }

  lemma SymbolCode(k: nat)
    requires k < 64
    ensures Code(Symbol(k)) == Some(k) && Symbol(k) != '=' && Symbol(k) < 128 as char
  {
  }

  /** Three bytes as one number of 24 bits. */
  function Join(a: nat, b: nat, c: nat): nat {
    a * 0x1_0000 + b * 0x100 + c
  }

  /** The 24 bits as four symbols. */
  function Symbols(n: nat): (r: seq<char>)
    requires n < 0x100_0000
    ensures |r| == 4
  {
    [Symbol(n / 0x4_0000), Symbol(n / 0x1000 % 64), Symbol(n / 64 % 64), Symbol(n % 64)]
  }

  /** The text of up to three bytes: missing bits are zero, missing symbols are pads. */
  function Group(s: seq<Byte>): (r: seq<char>)
    requires 1 <= |s|
    ensures |r| == 4
  {
    if |s| == 1 then Symbols(Join(s[0], 0, 0))[..2] + "=="
    else if |s| == 2 then Symbols(Join(s[0], s[1], 0))[..3] + "="
    else Symbols(Join(s[0], s[1], s[2]))
  }

  lemma SymbolsCode(n: nat)
    requires n < 0x100_0000
    ensures '=' !in Symbols(n)
    ensures Code(Symbols(n)[1]) == Some(n / 0x1000 % 64) && Code(Symbols(n)[2]) == Some(n / 64 % 64)
  {
    SymbolCode(n / 0x4_0000);
    SymbolCode(n / 0x1000 % 64);
    SymbolCode(n / 64 % 64);
    SymbolCode(n % 64);
    hide Code, Symbol;
  }

  lemma MissingBits(a: nat, b: nat)
    ensures Join(a, 0, 0) / 0x1000 % 64 % 16 == 0
    ensures Join(a, b, 0) / 64 % 64 % 4 == 0
  {
    DivMod(0x1000, 16 * a, 0);
    DivMod(64, 4 * (256 * a + b), 0);
    FourZeros(a);
    TwoZeros(256 * a + b);
  }

  lemma FourZeros(x: nat)
    ensures 16 * x % 64 % 16 == 0
  {
    var q, r := x / 4, x % 4;
    assert 16 * x == q * 64 + 16 * r;
    DivMod(64, q, 16 * r);
    DivMod(16, r, 0);
  }

  lemma TwoZeros(x: nat)
    ensures 4 * x % 64 % 4 == 0
  {
    var q, r := x / 16, x % 16;
    assert 4 * x == q * 64 + 4 * r;
    DivMod(64, q, 4 * r);
    DivMod(4, r, 0);
  }

  /** A last group of one byte or two ends in pads, and the bits of its last symbol that no byte
      gives are zero (section 3.5 of RFC 4648). */
  lemma GroupEnds(s: seq<Byte>)
    requires 1 <= |s|
    ensures |s| == 1 ==> Group(s)[2..] == "==" && Code(Group(s)[1]).Some? && Code(Group(s)[1]).value % 16 == 0
    ensures |s| == 2 ==> Group(s)[3..] == "=" && Code(Group(s)[2]).Some? && Code(Group(s)[2]).value % 4 == 0
    ensures '=' !in (if |s| < 3 then Group(s)[..|s| + 1] else Group(s))
  {
    hide Code, Symbols, Join;
    var n := Join(s[0], if |s| > 1 then s[1] else 0, if |s| > 2 then s[2] else 0);
    JoinBelow(s[0], if |s| > 1 then s[1] else 0, if |s| > 2 then s[2] else 0);
    SymbolsCode(n);
    if |s| == 1 {
      MissingBits(s[0], 0);
    } else if |s| == 2 {
      MissingBits(s[0], s[1]);
    }
  }

  lemma JoinBelow(a: Byte, b: Byte, c: Byte)
    ensures Join(a, b, c) < 0x100_0000
  {
  }

  /** What is left after the first three bytes. */
  function Rest(s: seq<Byte>): seq<Byte> {
    if |s| <= 3 then [] else s[3..]
  }

  function Encoded(s: seq<Byte>): seq<char>
    decreases |s|
  {
    if s == [] then [] else Group(s) + Encoded(Rest(s))
  }

  lemma {:induction false} EncodedLength(s: seq<Byte>)
    ensures |Encoded(s)| == 4 * ((|s| + 2) / 3)
    decreases |s|
  {
    hide Group;
    if s != [] {
      EncodedLength(Rest(s));
    }
  }

  /* ----- decoding ----- */

  const PAD: Byte := 0
  const NONE: Byte := 0xff

  /** What the decode table holds for a character. */
  function Entry(c: char): Byte {
    if Code(c).Some? then Code(c).value else if c == '=' then PAD else NONE
  }

  ghost predicate IsDecodeTable(decode: seq<Byte>) {
    |decode| == 256 && forall c: char :: (c as nat) < 256 ==> decode[c as nat] == Entry(c)
  }

  /** Four sextets as one number of 24 bits. */
  function Joined(a: nat, b: nat, c: nat, d: nat): nat {
    a * 0x4_0000 + b * 0x1000 + c * 64 + d
  }

  /** Four characters through the table: pads at the end drop bytes. */
  function Bytes(decode: seq<Byte>, q: seq<char>): Option<seq<Byte>>
    requires |decode| == 256 && |q| == 4
  {
    if exists i :: 0 <= i < 4 && ((q[i] as nat) >= 256 || decode[q[i] as nat] >= 64) then None
    else
      var n := Joined(decode[q[0] as nat], decode[q[1] as nat], decode[q[2] as nat], decode[q[3] as nat]);
      Some(if q[2] == '=' then [n / 0x1_0000]
           else if q[3] == '=' then [n / 0x1_0000, n / 0x100 % 0x100]
           else [n / 0x1_0000, n / 0x100 % 0x100, n % 0x100])
  }

  function Decoded(decode: seq<Byte>, text: seq<char>): Option<seq<Byte>>
    requires |decode| == 256
  {
    if text == [] then Some([])
    else if |text| < 4 then None
    else match (Bytes(decode, text[..4]), Decoded(decode, text[4..]))
      case (Some(front), Some(back)) => Some(front + back)
      case _ => None
  }

  /** Splitting 24 bits into sextets, and putting them together again. */
  lemma Sextets(a: nat, b: nat, c: nat)
    requires a < 256 && b < 256 && c < 256
    ensures var n := Join(a, b, c);
            && n < 0x100_0000
            && n / 0x4_0000 == a / 4 && n / 0x1000 % 64 == a % 4 * 16 + b / 16
            && n / 64 % 64 == b % 16 * 4 + c / 64 && n % 64 == c % 64
            && n / 0x1_0000 == a && n / 0x100 % 0x100 == b && n % 0x100 == c
            && Joined(a / 4, a % 4 * 16 + b / 16, b % 16 * 4 + c / 64, c % 64) == n
  {
    Parts(a, b, c);
    DivMod(0x4_0000, a / 4, a % 4 * 0x1_0000 + b * 0x100 + c);
    DivMod(0x1000, a * 16 + b / 16, b % 16 * 0x100 + c);
    DivMod(64, a / 4, a % 4 * 16 + b / 16);
    DivMod(64, a * 1024 + b * 4 + c / 64, c % 64);
    DivMod(64, a * 16 + b / 16, b % 16 * 4 + c / 64);
  }

  lemma Parts(a: nat, b: nat, c: nat)
    requires a < 256 && b < 256 && c < 256
    ensures var n := Join(a, b, c); n / 0x1_0000 == a && n / 0x100 % 0x100 == b && n % 0x100 == c
  {
    DivMod(0x1_0000, a, b * 0x100 + c);
    DivMod(0x100, a * 0x100 + b, c);
    DivMod(0x100, a, b);
  }

  lemma SymbolEntry(decode: seq<Byte>, k: nat)
    requires IsDecodeTable(decode) && k < 64
    ensures (Symbol(k) as nat) < 256 && decode[Symbol(k) as nat] == k && Symbol(k) != '='
  {
    SymbolCode(k);
    assert decode[Symbol(k) as nat] == Entry(Symbol(k));
  }

  lemma PadEntry(decode: seq<Byte>)
    requires IsDecodeTable(decode)
    ensures |decode| == 256 && decode['=' as nat] == PAD
  {
    assert decode['=' as nat] == Entry('=');
  }

  /** Four sextets through the table. */
  lemma SextetBytes(decode: seq<Byte>, a: nat, b: nat, c: nat)
    requires IsDecodeTable(decode) && a < 256 && b < 256 && c < 256
    ensures Join(a, b, c) < 0x100_0000
    ensures var q := Symbols(Join(a, b, c));
            && (forall i :: 0 <= i < 4 ==> (q[i] as nat) < 256 && decode[q[i] as nat] < 64 && q[i] != '=')
            && Joined(decode[q[0] as nat], decode[q[1] as nat], decode[q[2] as nat], decode[q[3] as nat]) == Join(a, b, c)
            && (c == 0 ==> decode[q[3] as nat] == 0)
            && (b == c == 0 ==> decode[q[2] as nat] == 0)
  {
    hide Symbol, IsDecodeTable, Join, Joined;
    Sextets(a, b, c);
    SymbolEntry(decode, a / 4);
    SymbolEntry(decode, a % 4 * 16 + b / 16);
    SymbolEntry(decode, b % 16 * 4 + c / 64);
    SymbolEntry(decode, c % 64);
    var q := Symbols(Join(a, b, c));
    assert q == [Symbol(a / 4), Symbol(a % 4 * 16 + b / 16), Symbol(b % 16 * 4 + c / 64), Symbol(c % 64)];
  }

  lemma BytesOf(decode: seq<Byte>, q: seq<char>, n: nat)
    requires |decode| == 256 && |q| == 4 && n < 0x100_0000
    requires forall i :: 0 <= i < 4 ==> (q[i] as nat) < 256 && decode[q[i] as nat] < 64
    requires Joined(decode[q[0] as nat], decode[q[1] as nat], decode[q[2] as nat], decode[q[3] as nat]) == n
    ensures Bytes(decode, q) ==
      Some(if q[2] == '=' then [n / 0x1_0000]
           else if q[3] == '=' then [n / 0x1_0000, n / 0x100 % 0x100]
           else [n / 0x1_0000, n / 0x100 % 0x100, n % 0x100])
  {
    hide Joined;
  }

  lemma GroupBytes(decode: seq<Byte>, s: seq<Byte>)
    requires IsDecodeTable(decode) && s != []
    ensures Bytes(decode, Group(s)) == Some(s[..|s| - |Rest(s)|])
  {
    hide Symbol, IsDecodeTable, Symbols, Join, Joined, Bytes;
    var a, b, c := s[0], if |s| > 1 then s[1] else 0, if |s| > 2 then s[2] else 0;
    SextetBytes(decode, a, b, c);
    Sextets(a, b, c);
    PadEntry(decode);
    var full, q := Symbols(Join(a, b, c)), Group(s);
    assert q[0] == full[0] && q[1] == full[1];
    assert q[2] == if |s| > 1 then full[2] else '=';
    assert q[3] == if |s| > 2 then full[3] else '=';
    assert forall i :: 0 <= i < 4 ==> (q[i] as nat) < 256 && decode[q[i] as nat] < 64;
    assert Joined(decode[q[0] as nat], decode[q[1] as nat], decode[q[2] as nat], decode[q[3] as nat]) == Join(a, b, c);
    BytesOf(decode, q, Join(a, b, c));
    var front := s[..|s| - |Rest(s)|];
    if |s| == 1 {
      assert front == [a];
    } else if |s| == 2 {
      assert front == [a, b];
    } else {
      assert front == [a, b, c];
    }
  }

  /** Decoding what was encoded gives back the bytes. */
  lemma {:induction false} RoundTrip(decode: seq<Byte>, s: seq<Byte>)
    requires IsDecodeTable(decode)
    ensures Decoded(decode, Encoded(s)) == Some(s)
    decreases |s|
  {
    hide Group, Bytes;
    if s != [] {
      GroupBytes(decode, s);
      RoundTrip(decode, Rest(s));
      assert Encoded(s)[..4] == Group(s) && Encoded(s)[4..] == Encoded(Rest(s));
      assert s[..|s| - |Rest(s)|] + Rest(s) == s;
    }
  }

  /* ----- the program ----- */

  class Tables {
    const encode: array<char>
    const decode: array<Byte>
    var initted: bool

    ghost predicate Shaped() {
      encode.Length == 64 && decode.Length == 256
    }

    ghost predicate Built()
      reads this, encode, decode
    {
      && Shaped()
      && (forall k :: 0 <= k < 64 ==> encode[k] == Symbol(k))
      && IsDecodeTable(decode[..])
    }

    constructor ()
      ensures Shaped() && !initted && fresh(encode) && fresh(decode)
    {
      encode := new char[64](_ => '\0');
      decode := new Byte[256](_ => 0);
      initted := false;
    }

    method Init()
      requires Shaped()
      modifies this, encode, decode
      ensures Built() && initted
    {
      var i := 0;
      while i < 256
        invariant 0 <= i <= 256
        invariant forall c :: 0 <= c < i ==> decode[c] == NONE
      {
        decode[i] := NONE;
        i := i + 1;
      }
      Letters();
      i := 0;
      while i <= 9
        invariant 0 <= i <= 10
        invariant forall k :: 0 <= k < 52 + i ==> encode[k] == Symbol(k)
        invariant forall c :: 0 <= c < 256 ==> decode[c] == Stage(c, 26, i)
      {
        encode[52 + i] := '0' + i as char;
        decode['0' as nat + i] := 52 + i;
        i := i + 1;
      }
      encode[62] := '+';
      decode['+' as nat] := 62;
      encode[63] := '/';
      decode['/' as nat] := 63;
      decode['=' as nat] := 0;
      initted := true;
    }

    method Letters()
      requires Shaped() && forall c :: 0 <= c < 256 ==> decode[c] == NONE
      modifies encode, decode
      ensures forall k :: 0 <= k < 52 ==> encode[k] == Symbol(k)
      ensures forall c :: 0 <= c < 256 ==> decode[c] == Stage(c, 26, 0)
    {
      var i := 0;
      while i < 26
        invariant 0 <= i <= 26
        invariant forall k :: 0 <= k < i ==> encode[k] == Symbol(k)
        invariant forall k :: 26 <= k < 26 + i ==> encode[k] == Symbol(k)
        invariant forall c :: 0 <= c < 256 ==> decode[c] == Stage(c, i, 0)
      {
        encode[i] := 'A' + i as char;
        decode['A' as nat + i] := i;
        encode[26 + i] := 'a' + i as char;
        decode['a' as nat + i] := 26 + i;
        i := i + 1;
      }
    }

    /** The decode table after some of the letters and digits are in. */
    ghost function Stage(c: nat, letters: nat, digits: nat): nat {
      if 65 <= c < 65 + letters then c - 65
      else if 97 <= c < 97 + letters then c - 97 + 26
      else if 48 <= c < 48 + digits then c - 48 + 52
      else NONE
    }

    /** The four characters of one turn of the encoder's loop. */
    method Turn(input: seq<Byte>, i: nat) returns (q: seq<char>)
      requires Built() && i < |input|
      ensures q == Group(input[i..])
    {
      hide Group, Join, Shr, Shl, And, Or, Symbol, IsDecodeTable;
      var size := |input|;
      var b, c := if i + 1 < size then input[i + 1] else 0, if i + 2 < size then input[i + 2] else 0;
      Masks(input[i], b, c);
      Sextets(input[i], b, c);
      var first := encode[Shr(input[i], 2)];
      var second := encode[Or(Shl(And(input[i], 3), 4), Shr(b, 4))];
      var third := if i + 1 < size then encode[Or(Shl(And(b, 0xf), 2), Shr(c, 6))] else '=';
      var fourth := if i + 2 < size then encode[And(c, 0x3f)] else '=';
      q := [first, second, third, fourth];
      Shifts(input[i..], q);
    }

    /** One turn of the loop: its characters go to the next four places. */
    method Four(out: array<char>, o: nat, input: seq<Byte>, i: nat)
      requires Built() && out != encode && i < |input| && o + 4 <= out.Length
      modifies out
      ensures out[..o] == old(out[..o]) && out[o..o + 4] == Group(input[i..])
    {
      hide Group, Symbol, IsDecodeTable;
      var q := Turn(input, i);
      out[o], out[o + 1], out[o + 2], out[o + 3] := q[0], q[1], q[2], q[3];
    }

    method Encode(input: seq<Byte>) returns (buf: Option<array<char>>)
      requires if initted then Built() else Shaped()
      requires Plain(input)
      modifies this, encode, decode
      ensures Built() && initted
      ensures buf.None? <==> input == []
      ensures buf.Some? ==>
        && fresh(buf.value) && buf.value.Length == (|input| / 3 + 1) * 4 + 3
        && |Encoded(input)| == 4 * ((|input| + 2) / 3) < buf.value.Length
        && buf.value[..|Encoded(input)|] == Encoded(input)
        && buf.value[|Encoded(input)|] == '\0'
    {
      hide Group, Encoded, Symbol, IsDecodeTable, Rest;
      if !initted {
        Init();
      }
      var size := |input|;
      if size < 1 {
        return None;
      }
      EncodedLength(input);
      var out := new char[(size / 3 + 1) * 4 + 3];
      var i, o := 0, 0;
      while i < size
        invariant 0 <= i <= size + 2 && i % 3 == 0 && o == 4 * (i / 3)
        invariant Built() && initted && fresh(out) && out.Length == (size / 3 + 1) * 4 + 3
        invariant out[..o] + Encoded(input[Min(i, size)..]) == Encoded(input)
      {
        ghost var before := out[..o];
        Four(out, o, input, i);
        RestOf(input, i);
        assert out[..o + 4] == before + Group(input[i..]);
        EncodedStep(before, input[i..]);
        i, o := i + 3, o + 4;
      }
      assert input[size..] == [];
      EncodedNone();
      out[o] := '\0';
      return Some(out);
    }
  }

  lemma EncodedStep(before: seq<char>, s: seq<Byte>)
    requires s != []
    ensures before + Group(s) + Encoded(Rest(s)) == before + Encoded(s)
  {
    hide Group, Rest;
  }

  lemma RestOf(s: seq<Byte>, i: nat)
    requires i < |s|
    ensures s[Min(i, |s|)..] == s[i..] && s[Min(i + 3, |s|)..] == Rest(s[i..])
  {
  }

  lemma EncodedNone()
    ensures Encoded([]) == []
  {
  }

  function Min(a: nat, b: nat): nat {
    if a < b then a else b
  }

  /** The four table indexes of a turn, as the sextets of the three bytes. */
  lemma Masks(a: nat, b: nat, c: nat)
    requires a < 256 && b < 256 && c < 256
    ensures Shr(a, 2) == a / 4
    ensures Or(Shl(And(a, 3), 4), Shr(b, 4)) == a % 4 * 16 + b / 16
    ensures Or(Shl(And(b, 0xf), 2), Shr(c, 6)) == b % 16 * 4 + c / 64
    ensures And(c, 0x3f) == c % 64
  {
    SmallMasks();
    hide Shr, Shl, And, Or, Pow2, Ones, Low;
    ShiftIsDivision(a, 2);
    ShiftIsDivision(b, 4);
    ShiftIsDivision(c, 6);
    AndLow(a, 2);
    AndLow(b, 4);
    AndLow(c, 6);
    OrDisjoint(a % 4, b / 16, 4);
    OrDisjoint(b % 16, c / 64, 2);
    ShlIsProduct(a % 4, 4);
    ShlIsProduct(b % 16, 2);
  }

  lemma SmallMasks()
    ensures Ones(2, 0) == 3 && Ones(4, 0) == 0xf && Ones(6, 0) == 0x3f
    ensures Pow2(2) == 4 && Pow2(4) == 16 && Pow2(6) == 64
  {
    assert Pow2(1) == 2 && Pow2(3) == 8 && Pow2(5) == 32;
    assert Ones(1, 0) == 1 && Ones(3, 0) == 7 && Ones(5, 0) == 31;
  }

  /* ----- characters with a sign ----- */

  /** `a | b` where `b` may be negative, in two's complement. */
  function SignedOr(a: nat, b: int): int {
    if b >= 0 then Or(a, b) else -1 - (-1 - b - And(-1 - b, a))
  }

  predicate InTable(index: int) {
    0 <= index < 64
  }

  /** The indexes of one turn for characters with a sign: `>>` rounds down, `&` takes the last bits. */
  predicate IndexesInTable(x: int, y: int, z: int) {
    InTable(x / 4) && InTable(SignedOr(x % 4 * 16, y / 16)) && InTable(SignedOr(y % 16 * 4, z / 64)) && InTable(z % 64)
  }

  /** A turn stays within the encode table exactly when none of its characters is negative. */
  lemma SignedIndexes(x: int, y: int, z: int)
    requires -128 <= x < 128 && -128 <= y < 128 && -128 <= z < 128
    ensures IndexesInTable(x, y, z) <==> x >= 0 && y >= 0 && z >= 0
  {
    hide Or, And;
    if x >= 0 {
      if y < 0 {
        AndBelow(-1 - y / 16, x % 4 * 16);
      } else if z < 0 {
        AndBelow(-1 - z / 64, y % 16 * 4);
      } else {
        OrFour(x % 4, y / 16);
        OrTwo(y % 16, z / 64);
      }
    }
  }

  /** An input: -1, the byte 0xff, in each place. */
  lemma NegativeCharacter()
    ensures !IndexesInTable(-1, 0, 0) && !IndexesInTable(0, -1, 0) && !IndexesInTable(0, 0, -1)
  {
    SignedIndexes(-1, 0, 0);
    SignedIndexes(0, -1, 0);
    SignedIndexes(0, 0, -1);
  }

  lemma OrFour(a: nat, b: nat)
    requires b < 16
    ensures Or(a * 16, b) == a * 16 + b
  {
    SmallMasks();
    hide Or, Shl, Pow2;
    ShlIsProduct(a, 4);
    OrDisjoint(a, b, 4);
  }

  lemma OrTwo(a: nat, b: nat)
    requires b < 4
    ensures Or(a * 4, b) == a * 4 + b
  {
    SmallMasks();
    hide Or, Shl, Pow2;
    ShlIsProduct(a, 2);
    OrDisjoint(a, b, 2);
  }

  /** The shifts and masks of the loop pick the four sextets of the 24 bits. */
  lemma Shifts(s: seq<Byte>, q: seq<char>)
    requires 1 <= |s| && |q| == 4
    requires var b, c := if 1 < |s| then s[1] else 0, if 2 < |s| then s[2] else 0;
             && q[0] == Symbol(s[0] / 4)
             && q[1] == Symbol(s[0] % 4 * 16 + b / 16)
             && q[2] == (if 1 < |s| then Symbol(b % 16 * 4 + c / 64) else '=')
             && q[3] == (if 2 < |s| then Symbol(c % 64) else '=')
    ensures q == Group(s)
  {
    Sextets(s[0], if 1 < |s| then s[1] else 0, if 2 < |s| then s[2] else 0);
  }
}
