/** IPv4 addresses: text, netmasks, membership in a network. */
module IPv4 {
  import opened Bits
  import opened Dom
  import opened Numerals

  const ADDRESSES := 0x1_0000_0000

  predicate IsAddress(ip: nat) {
    ip < ADDRESSES
  }

  /** Lines 151-161, on 64-bit patterns. */
  function BitsToNetmask(bits: nat): nat
    requires bits <= 32
  {
    And(Low(Shl(0xffff_ffff, 32 - bits), 64), 0xffff_ffff)
  }

  /** A run of 32 ones, shifted and cut back to 32 bits. */
  lemma ShiftedMask(full: nat, bits: nat)
    requires full == Ones(32, 0) && bits <= 32
    ensures And(Low(Shl(full, 32 - bits), 64), full) == Ones(bits, 32 - bits)
  {
    hide Shl, Low, And, Ones;
    var k := 32 - bits;
    OnesShifted(32, k);
    AndLow(Low(Shl(full, k), 64), 32);
    LowLow(Ones(32, k), 64, 32);
    LowOnes(32, k, 32);
  }

  lemma FullMask()
    ensures Ones(32, 0) == 0xffff_ffff
  {
    hide *;
    OnesValue(32, 0);
    Powers();
  }

  /** The mask is `bits` ones and zeros after them, that is 2^32 - 2^(32 - bits). */
  lemma NetmaskIsOnes(bits: nat)
    requires bits <= 32
    ensures BitsToNetmask(bits) == Ones(bits, 32 - bits)
    ensures BitsToNetmask(bits) + Pow2(32 - bits) == ADDRESSES
  {
    hide Pow2, Shl, Low, And, Ones;
    FullMask();
    ShiftedMask(0xffff_ffff, bits);
    OnesValue(bits, 32 - bits);
    Powers();
  }

  function NetworkOfIp(ip: nat, bits: nat): nat
    requires bits <= 32
  {
    And(ip, BitsToNetmask(bits))
  }

  predicate IsIpInNetwork(net: nat, bits: nat, ip: nat)
    requires bits <= 32
  {
    NetworkOfIp(net, bits) == NetworkOfIp(ip, bits)
  }

  /** The mask comparison is membership in the range from the network's first address on. */
  lemma InNetworkIsInRange(net: nat, bits: nat, ip: nat)
    requires IsAddress(net) && IsAddress(ip) && bits <= 32
    ensures var base := NetworkOfIp(net, bits);
      && base == Base(net, 32 - bits)
      && (IsIpInNetwork(net, bits, ip) <==> base <= ip < base + Pow2(32 - bits))
      && (IsIpInNetwork(net, bits, ip) <==> SameBlock(net, ip, 32 - bits))
  {
    Powers();
    hide Pow2;
    NetmaskIsOnes(bits);
    AndMask(net, bits, 32 - bits);
    AndMask(ip, bits, 32 - bits);
    InBlock(net, ip, 32 - bits);
  }

  /** Two networks are disjoint, or the longer prefix lies within the shorter. */
  lemma NetworksLaminar(net1: nat, bits1: nat, net2: nat, bits2: nat)
    requires IsAddress(net1) && IsAddress(net2) && bits2 <= bits1 <= 32
    ensures (forall ip: nat | IsAddress(ip) :: IsIpInNetwork(net1, bits1, ip) ==> IsIpInNetwork(net2, bits2, ip))
         || (forall ip: nat | IsAddress(ip) :: !(IsIpInNetwork(net1, bits1, ip) && IsIpInNetwork(net2, bits2, ip)))
  {
    Laminar(net1, 32 - bits1, net2, 32 - bits2);
    hide IsIpInNetwork, SameBlock;
    forall ip: nat | IsAddress(ip)
      ensures IsIpInNetwork(net1, bits1, ip) <==> SameBlock(net1, ip, 32 - bits1)
      ensures IsIpInNetwork(net2, bits2, ip) <==> SameBlock(net2, ip, 32 - bits2)
    {
      InNetworkIsInRange(net1, bits1, ip);
      InNetworkIsInRange(net2, bits2, ip);
    }
  }

  predicate IsIp1918Space(ip: nat) {
    IsIpInNetwork(0xA00_0000, 8, ip) || IsIpInNetwork(0xAC10_0000, 12, ip) || IsIpInNetwork(0xC0A8_0000, 16, ip)
  }

  function Address(a: nat, b: nat, c: nat, d: nat): nat {
    ((a * 256 + b) * 256 + c) * 256 + d
  }

  /** The three ranges of section 3 of RFC 1918. */
  lemma Rfc1918(ip: nat)
    requires IsAddress(ip)
    ensures IsIp1918Space(ip) <==>
      || Address(10, 0, 0, 0) <= ip <= Address(10, 255, 255, 255)
      || Address(172, 16, 0, 0) <= ip <= Address(172, 31, 255, 255)
      || Address(192, 168, 0, 0) <= ip <= Address(192, 168, 255, 255)
  {
    hide Pow2, Shl, Shr, IsIpInNetwork, Base;
    Powers();
    Range(10, 8, 0xA00_0000, ip);
    Range(0xAC1, 12, 0xAC10_0000, ip);
    Range(0xC0A8, 16, 0xC0A8_0000, ip);
  }

  /** The network whose first `bits` bits are `s`. */
  lemma Range(s: nat, bits: nat, net: nat, ip: nat)
    requires bits <= 32 && net == s * Pow2(32 - bits) && IsAddress(net) && IsAddress(ip)
    ensures IsIpInNetwork(net, bits, ip) <==> net <= ip < net + Pow2(32 - bits)
  {
    var k := 32 - bits;
    hide Pow2, Shl, Shr, IsIpInNetwork;
    ShlIsProduct(s, k);
    ShrOf(s, 0, k);
    InNetworkIsInRange(net, bits, ip);
  }

  /* ----- text ----- */

  /** `ipaddr & 0xff000000` and so on: the first mask is a negative `int` and is extended with ones. */
  function LongToString(ip: nat): string {
    Dotted(Shr(And(ip, Ones(40, 24)), 24), Shr(And(ip, Ones(8, 16)), 16), Shr(And(ip, Ones(8, 8)), 8), And(ip, Ones(8, 0)))
  }

  function Dotted(a: nat, b: nat, c: nat, d: nat): string {
    Numeral(a, Dec) + "." + (Numeral(b, Dec) + "." + (Numeral(c, Dec) + "." + Numeral(d, Dec)))
  }

  function IndexOf(s: string, c: char): int {
    if s == [] then -1
    else if s[0] == c then 0
    else var i := IndexOf(s[1..], c); if i == -1 then -1 else i + 1
  }

  lemma {:induction false} IndexOfIs(s: string, c: char)
    ensures -1 <= IndexOf(s, c) < |s|
    ensures IndexOf(s, c) >= 0 ==> s[IndexOf(s, c)] == c
  {
    if s != [] {
      IndexOfIs(s[1..], c);
    }
  }

  /** A 64-bit `long`. */
  function Long(x: int): int {
    (x + 0x8000_0000_0000_0000) % 0x1_0000_0000_0000_0000 - 0x8000_0000_0000_0000
  }

  /** The octets of the text from here on, shifted in behind `acc`; `None` is the exception. */
  function Octets(t: string, acc: int): Option<int>
    decreases |t|
  {
    IndexOfIs(t, '.');
    var n := IndexOf(t, '.');
    var octet := Parse(if n > 0 then t[..n] else t, Dec);
    if octet == None || octet.value < 0 || octet.value > 255 then None
    else if n > 0 then Octets(t[n + 1..], Long(acc * 256 + octet.value))
    else Some(Long(acc * 256 + octet.value))
  }

  method StringToLong(ipaddr: string) returns (r: Option<int>)
    ensures r == Octets(ipaddr, 0)
  {
    hide Parse, Long, IndexOf;
    var ipaddress := 0;
    var t := ipaddr;
    var done := false;
    while !done
      invariant !done ==> Octets(ipaddr, 0) == Octets(t, ipaddress)
      invariant done ==> Octets(ipaddr, 0) == Some(ipaddress)
      decreases !done, |t|
    {
      IndexOfIs(t, '.');
      var n := IndexOf(t, '.');
      var cur := t;
      ghost var before := t;
      if n > 0 {
        cur := t[..n];
        t := t[n + 1..];
      } else {
        done := true;
      }
      var octet := Parse(cur, Dec);
      if octet == None || octet.value < 0 || octet.value > 255 {
        return None;
      }
      ipaddress := Long(ipaddress * 256 + octet.value);
    }
    r := Some(ipaddress);
  }

  lemma {:induction false} IndexOfDot(s: string, rest: string)
    requires AllDigits(s, Dec)
    ensures IndexOf(s + "." + rest, '.') == |s| && IndexOf(s, '.') == -1
  {
    if s == [] {
      assert s + "." + rest == "." + rest;
    } else {
      assert (s + "." + rest)[1..] == s[1..] + "." + rest;
      IndexOfDot(s[1..], rest);
    }
  }

  lemma TakeDot(s: string, rest: string)
    ensures (s + "." + rest)[..|s|] == s && (s + "." + rest)[|s| + 1..] == rest
  {
  }

  lemma OctetThen(n: nat, rest: string, acc: int)
    requires n < 256
    ensures Octets(Numeral(n, Dec) + "." + rest, acc) == Octets(rest, Long(acc * 256 + n))
    ensures Octets(Numeral(n, Dec), acc) == Some(Long(acc * 256 + n))
  {
    hide Numeral, Parse, IndexOf, Long;
    var s := Numeral(n, Dec);
    NumeralValue(n, Dec);
    ParseNumeral(n, Dec);
    IndexOfDot(s, rest);
    TakeDot(s, rest);
  }

  /** The four octets of an address. */
  lemma OctetsOf(ip: nat)
    requires IsAddress(ip)
    ensures var a, b, c, d := ip / 0x100_0000, ip / 0x1_0000 % 256, ip / 0x100 % 256, ip % 256;
      && a < 256 && ip == Address(a, b, c, d)
      && Shr(And(ip, Ones(40, 24)), 24) == a && Shr(And(ip, Ones(8, 16)), 16) == b
      && Shr(And(ip, Ones(8, 8)), 8) == c && And(ip, Ones(8, 0)) == d
  {
    hide Pow2, Shl, Shr, Low, And, Ones;
    FourOctets(ip);
    Powers();
    Field(ip, 40, 24);
    Field(ip, 8, 16);
    Field(ip, 8, 8);
    Field(ip, 8, 0);
    Pow2Grows(8, 40);
    LowWhole(ip / 0x100_0000, 40);
    ShiftIsDivision(And(ip, Ones(8, 0)), 0);
  }

  lemma FourOctets(ip: nat)
    requires IsAddress(ip)
    ensures ip / 0x100_0000 < 256
    ensures ip == Address(ip / 0x100_0000, ip / 0x1_0000 % 256, ip / 0x100 % 256, ip % 256)
  {
    assert ip / 0x1_0000 == (ip / 0x100) / 0x100;
    assert ip / 0x100_0000 == (ip / 0x1_0000) / 0x100;
  }

  lemma {:induction false} Pow2Grows(m: nat, n: nat)
    requires m <= n
    ensures Pow2(m) <= Pow2(n)
  {
    if m < n {
      Pow2Grows(m, n - 1);
    }
  }

  lemma Field(ip: nat, b: nat, k: nat)
    ensures Shr(And(ip, Ones(b, k)), k) == Low(ip / Pow2(k), b) == ip / Pow2(k) % Pow2(b)
  {
    AndOnes(ip, b, k);
    ShrOf(Low(Shr(ip, k), b), 0, k);
    ShiftIsDivision(ip, k);
    ShiftIsDivision(Shr(ip, k), b);
  }

  /** Reading the text of an address gives back the address. */
  lemma RoundTrip(ip: nat)
    requires IsAddress(ip)
    ensures Octets(LongToString(ip), 0) == Some(ip)
  {
    hide And, Shr, Ones, Octets, Dotted, Numeral, Pow2, Long;
    OctetsOf(ip);
    FourTexts(ip / 0x100_0000, ip / 0x1_0000 % 256, ip / 0x100 % 256, ip % 256);
  }

  lemma FourTexts(a: nat, b: nat, c: nat, d: nat)
    requires a < 256 && b < 256 && c < 256 && d < 256
    ensures Octets(Dotted(a, b, c, d), 0) == Some(Address(a, b, c, d))
  {
    hide Octets, Numeral, Long;
    LongSmall(a);
    LongSmall(a * 256 + b);
    LongSmall((a * 256 + b) * 256 + c);
    LongSmall(Address(a, b, c, d));
    var sd := Numeral(d, Dec);
    var sc := Numeral(c, Dec) + "." + sd;
    var sb := Numeral(b, Dec) + "." + sc;
    OctetThen(a, sb, 0);
    OctetThen(b, sc, a);
    OctetThen(c, sd, a * 256 + b);
    OctetThen(d, "", (a * 256 + b) * 256 + c);
  }

  lemma LongSmall(x: nat)
    requires x < ADDRESSES
    ensures Long(x) == x
  {
  }
}
