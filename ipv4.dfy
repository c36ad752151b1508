/**
 * IPv4 addresses as PHP's ip2long and long2ip see them (dotted-quad text against
 * an integer in 0 .. 2^32 - 1), and the subnet arithmetic wakeOnLan uses to turn
 * an address and a CIDR prefix length into the subnet's broadcast address.
 * PHP integers are 64 bits wide here, so every value below fits without wrap-around.
 */
module Ipv4 {
  import opened Results
  import opened PhpStrings

  const AddressSpace: nat := 0x1_0000_0000

  /** pow(2, k). */
  function Pow2(k: nat): (r: nat)
    ensures r >= 1
  {
    if k == 0 then 1 else 2 * Pow2(k - 1)
  }

  lemma {:induction false} Pow2Add(a: nat, b: nat)
    ensures Pow2(a + b) == Pow2(a) * Pow2(b)
  {
    if a > 0 {
      Pow2Add(a - 1, b);
      assert Pow2(a + b) == 2 * Pow2(a - 1 + b);
    }
  }

  lemma Pow2Of32()
    ensures Pow2(32) == AddressSpace
  {
    Pow2Add(16, 16);
    Pow2Add(8, 8);
    Pow2Add(4, 4);
  }

  // ---------------------------------------------------------------------------
  // ip2long and long2ip

  /** The four bytes of n, most significant first (network byte order). */
  function Octets(n: nat): (o: seq<nat>)
    requires n < AddressSpace
    ensures |o| == 4 && forall i | 0 <= i < 4 :: o[i] < 256
  {
    [n / 0x100_0000, n / 0x1_0000 % 256, n / 0x100 % 256, n % 256]
  }

  function FromOctets(o: seq<nat>): nat
    requires |o| == 4
  {
    ((o[0] * 256 + o[1]) * 256 + o[2]) * 256 + o[3]
  }

  /** Splitting into bytes and putting them together again is the identity, both ways. */
  lemma OctetsRoundTrip(n: nat)
    requires n < AddressSpace
    ensures FromOctets(Octets(n)) == n
  {
    var x1 := n / 0x100;
    var x2 := n / 0x1_0000;
    var x3 := n / 0x100_0000;
    assert n == x1 * 0x100 + n % 0x100;
    assert x1 == x2 * 0x100 + x1 % 0x100;
    assert x2 == x3 * 0x100 + x2 % 0x100;
  }

  lemma FromOctetsRoundTrip(o: seq<nat>)
    requires |o| == 4 && forall i | 0 <= i < 4 :: o[i] < 256
    ensures FromOctets(o) < AddressSpace
    ensures Octets(FromOctets(o)) == o
  {
  }

  /** One dotted-quad component as inet_pton accepts it: digits, no leading zero, at most 255. */
  predicate IsOctetText(s: string) {
    IsCanonicalDecimal(s) && DecimalValue(s) <= 255
  }

  /** ip2long: the address of a dotted quad, or None (PHP's false) for any other text. */
  function Ip2Long(s: string): Option<nat> {
    var parts := Explode('.', s);
    if IsDottedQuad(parts) then Some(FromOctets(OctetValues(parts))) else None
  }

  /** Exactly four components, each a valid octet text. */
  predicate IsDottedQuad(parts: seq<string>) {
    |parts| == 4 && forall i | 0 <= i < 4 :: IsOctetText(parts[i])
  }

  function OctetValues(parts: seq<string>): (o: seq<nat>)
    requires IsDottedQuad(parts)
  {
    [DecimalValue(parts[0]), DecimalValue(parts[1]), DecimalValue(parts[2]), DecimalValue(parts[3])]
  }

  /** The dotted-quad text of four byte values. */
  function DottedQuad(o: seq<nat>): string
    requires |o| == 4
  {
    Implode('.', OctetTexts(o))
  }

  function OctetTexts(o: seq<nat>): seq<string>
    requires |o| == 4
  {
    [NatToDecimal(o[0]), NatToDecimal(o[1]), NatToDecimal(o[2]), NatToDecimal(o[3])]
  }

  /** long2ip: the dotted quad of the low 32 bits of n (so a negative mask prints as its two's complement). */
  function Long2Ip(n: int): string {
    DottedQuad(Octets(n % AddressSpace))
  }

  lemma OctetTextValid(v: nat)
    requires v < 256
    ensures IsOctetText(NatToDecimal(v)) && DecimalValue(NatToDecimal(v)) == v
    ensures '.' !in NatToDecimal(v)
  {
    NatToDecimalValue(v);
  }

  /** Four byte values print as a dotted quad whose components ip2long reads back. */
  lemma {:induction false} DottedQuadParses(o: seq<nat>)
    requires |o| == 4 && forall i | 0 <= i < 4 :: o[i] < 256
    ensures Explode('.', DottedQuad(o)) == OctetTexts(o)
    ensures IsDottedQuad(OctetTexts(o)) && OctetValues(OctetTexts(o)) == o
  {
    var texts := OctetTexts(o);
    OctetTextValid(o[0]);
    OctetTextValid(o[1]);
    OctetTextValid(o[2]);
    OctetTextValid(o[3]);
    ExplodeImplode('.', texts);
  }

  /** Every address in range prints as a dotted quad that ip2long reads back. */
  lemma {:induction false} Long2IpRoundTrip(n: nat)
    requires n < AddressSpace
    ensures Ip2Long(Long2Ip(n)) == Some(n)
  {
    var o := Octets(n);
    assert n % AddressSpace == n;
    assert Long2Ip(n) == DottedQuad(o);
    DottedQuadParses(o);
    OctetsRoundTrip(n);
  }

  /** Every text ip2long accepts is exactly what long2ip prints for its value. */
  lemma {:induction false} Ip2LongRoundTrip(s: string)
    requires Ip2Long(s).Some?
    ensures Ip2Long(s).value < AddressSpace
    ensures Long2Ip(Ip2Long(s).value) == s
  {
    var parts := Explode('.', s);
    assert IsDottedQuad(parts);
    var o := OctetValues(parts);
    var n := FromOctets(o);
    assert Ip2Long(s) == Some(n);
    FromOctetsRoundTrip(o);
    assert n % AddressSpace == n;
    assert Long2Ip(n) == DottedQuad(o);
    assert OctetTexts(o) == parts by {
      DecimalValueToText(parts[0]);
      DecimalValueToText(parts[1]);
      DecimalValueToText(parts[2]);
      DecimalValueToText(parts[3]);
    }
    ImplodeExplode('.', s);
  }

  // ---------------------------------------------------------------------------
  // Subnet arithmetic

  /**
   * ip & (-1 << k) for 0 <= ip < 2^32: in two's complement the mask -2^k has
   * every bit from k upwards set, so the AND clears the k low bits of ip.
   */
  function ClearLowBits(ip: nat, k: nat): nat {
    var p := Pow2(k);
    var q := ip / p;
    MulMonotone(0, q, p);
    q * p
  }

  /** The network address of ip under a prefix of length cidr. */
  function NetworkAddress(ip: nat, cidr: nat): nat
    requires cidr <= 32
  {
    ClearLowBits(ip, 32 - cidr)
  }

  /** Network address + number of addresses in the subnet - 1. */
  function BroadcastAddress(ip: nat, cidr: nat): nat
    requires cidr <= 32
  {
    NetworkAddress(ip, cidr) + Pow2(32 - cidr) - 1
  }

  lemma DivModUnique(x: nat, p: nat, q: nat, r: nat)
    requires p > 0 && x == q * p + r && r < p
    ensures x / p == q && x % p == r
  {
    var q', r' := x / p, x % p;
    if q' < q {
      MulStep(q', q, p);
      assert false;
    } else if q < q' {
      MulStep(q, q', p);
      assert false;
    }
  }

  /** A larger factor is larger by at least one whole p. */
  lemma MulStep(a: nat, b: nat, p: nat)
    requires a < b
    ensures a * p + p <= b * p
  {
    MulMonotone(a + 1, b, p);
    MulPred(a + 1, p);
  }

  lemma MulMonotone(a: nat, b: nat, p: nat)
    requires a <= b
    ensures a * p <= b * p
  {
  }

  /**
   * The broadcast address keeps the top cidr bits of ip and sets all lower bits:
   * network <= ip <= broadcast <= 2^32 - 1.
   */
  lemma {:induction false} BroadcastKeepsPrefix(ip: nat, cidr: nat)
    requires ip < AddressSpace && cidr <= 32
    ensures NetworkAddress(ip, cidr) <= ip <= BroadcastAddress(ip, cidr) < AddressSpace
    ensures NetworkAddress(ip, cidr) % Pow2(32 - cidr) == 0
    ensures BroadcastAddress(ip, cidr) / Pow2(32 - cidr) == ip / Pow2(32 - cidr)
    ensures BroadcastAddress(ip, cidr) % Pow2(32 - cidr) == Pow2(32 - cidr) - 1
  {
    var p := Pow2(32 - cidr);
    var q := ip / p;
    assert NetworkAddress(ip, cidr) == q * p;
    assert BroadcastAddress(ip, cidr) == q * p + (p - 1);
    assert q * p <= ip < q * p + p by {
      assert ip == q * p + ip % p;
    }
    DivModUnique(q * p, p, q, 0);
    DivModUnique(q * p + (p - 1), p, q, p - 1);
    Pow2Add(cidr, 32 - cidr);
    Pow2Of32();
    QuotientBelow(ip, p, Pow2(cidr));
  }

  /** When x < m * p, the quotient q = x / p has (q + 1) * p <= m * p. */
  lemma QuotientBelow(x: nat, p: nat, m: nat)
    requires p > 0 && x < m * p
    ensures x / p * p + p <= m * p
  {
    var q := x / p;
    assert q * p <= x;
    if q + 1 > m {
      MulMonotone(m, q, p);
      assert false;
    }
    MulMonotone(q + 1, m, p);
    MulPred(q + 1, p);
  }

  /** A /32 prefix leaves the address itself. */
  lemma BroadcastOfHostPrefix(ip: nat)
    requires ip < AddressSpace
    ensures BroadcastAddress(ip, 32) == ip
  {
  }

  /** The dotted quad written out: four decimal texts with a '.' between neighbours. */
  lemma DottedQuadText(o: seq<nat>)
    requires |o| == 4
    ensures DottedQuad(o) == NatToDecimal(o[0]) + "." + NatToDecimal(o[1]) + "."
                           + NatToDecimal(o[2]) + "." + NatToDecimal(o[3])
  {
    var t := OctetTexts(o);
    assert Implode('.', t[3..]) == t[3];
    assert Implode('.', t[2..]) == t[2] + "." + t[3] by {
      assert t[2..][1..] == t[3..];
    }
    assert Implode('.', t[1..]) == t[1] + "." + t[2] + "." + t[3] by {
      assert t[1..][1..] == t[2..];
    }
  }

  lemma Text255()
    ensures NatToDecimal(255) == "255"
  {
  }

  /** A /0 prefix gives 255.255.255.255 whatever the address. */
  lemma BroadcastOfEmptyPrefix(ip: nat)
    requires ip < AddressSpace
    ensures BroadcastAddress(ip, 0) == AddressSpace - 1
    ensures Long2Ip(BroadcastAddress(ip, 0)) == "255.255.255.255"
  {
    Pow2Of32();
    assert ip / AddressSpace == 0;
    assert Octets(AddressSpace - 1) == [255, 255, 255, 255];
    DottedQuadText([255, 255, 255, 255]);
    Text255();
  }

  lemma TextsOfClassC()
    ensures NatToDecimal(192) == "192" && NatToDecimal(168) == "168"
    ensures NatToDecimal(1) == "1" && NatToDecimal(10) == "10"
  {
  }

  lemma PrintClassCHost()
    ensures Long2Ip(3232235786) == "192.168.1.10"
  {
    assert Octets(3232235786) == [192, 168, 1, 10];
    DottedQuadText([192, 168, 1, 10]);
    TextsOfClassC();
  }

  lemma PrintClassCBroadcast()
    ensures Long2Ip(3232236031) == "192.168.1.255"
  {
    assert Octets(3232236031) == [192, 168, 1, 255];
    DottedQuadText([192, 168, 1, 255]);
    TextsOfClassC();
    Text255();
  }

  lemma Pow2Of8()
    ensures Pow2(8) == 256
  {
  }

  lemma Pow2Of24()
    ensures Pow2(24) == 0x100_0000
  {
    Pow2Add(8, 16);
    Pow2Add(8, 8);
    Pow2Of8();
  }

  lemma ParseClassCHost()
    ensures Ip2Long("192.168.1.10") == Some(3232235786)
  {
    PrintClassCHost();
    Long2IpRoundTrip(3232235786);
  }

  lemma BroadcastClassC()
    ensures BroadcastAddress(3232235786, 24) == 3232236031
  {
    Pow2Of8();
    assert ClearLowBits(3232235786, 8) == 3232235776;
  }

  /** 192.168.1.10/24 broadcasts to 192.168.1.255. */
  lemma ExampleClassC()
    ensures Ip2Long("192.168.1.10") == Some(3232235786)
    ensures BroadcastAddress(3232235786, 24) == 3232236031
    ensures Long2Ip(3232236031) == "192.168.1.255"
  {
    ParseClassCHost();
    BroadcastClassC();
    PrintClassCBroadcast();
  }

  lemma PrintClassAHost()
    ensures Long2Ip(167772161) == "10.0.0.1"
  {
    assert Octets(167772161) == [10, 0, 0, 1];
    DottedQuadText([10, 0, 0, 1]);
    TextsOfClassC();
  }

  lemma PrintClassABroadcast()
    ensures Long2Ip(184549375) == "10.255.255.255"
  {
    assert Octets(184549375) == [10, 255, 255, 255];
    DottedQuadText([10, 255, 255, 255]);
    TextsOfClassC();
    Text255();
  }

  lemma ParseClassAHost()
    ensures Ip2Long("10.0.0.1") == Some(167772161)
  {
    PrintClassAHost();
    Long2IpRoundTrip(167772161);
  }

  lemma BroadcastClassA()
    ensures BroadcastAddress(167772161, 8) == 184549375
  {
    Pow2Of24();
    assert ClearLowBits(167772161, 24) == 167772160;
  }

  /** 10.0.0.1/8 broadcasts to 10.255.255.255. */
  lemma ExampleClassA()
    ensures Ip2Long("10.0.0.1") == Some(167772161)
    ensures BroadcastAddress(167772161, 8) == 184549375
    ensures Long2Ip(184549375) == "10.255.255.255"
  {
    ParseClassAHost();
    BroadcastClassA();
    PrintClassABroadcast();
  }
}
