/** Three netmask constructions (shifted word, byte fill, CIDR argument), the dotted form and the
    routing helper's contiguity test. */
module Netmask {
  import opened Prelude
  import opened Ipv4

  /** Bit i of a host-order word, counted from the most significant one. */
  predicate LeadingBit(mask: bv32, i: bv32)
  {
    i < 32 && mask & ((0x8000_0000 as bv32) >> i) != 0
  }

  /** netMaskFromIpWithSubnet: (0xFFFFFFFF << (32 - prefix)) & 0xFFFFFFFF. */
  function Shifted(p: bv32): bv32
    requires 1 <= p <= 32
  {
    ((0xffff_ffff as bv32) << (32 - p)) & 0xffff_ffff
  }

  /** A prefix length as a shift operand. */
  function Bits(p: nat): (b: bv32)
    requires 1 <= p <= 32
    ensures 1 <= b <= 32
  {
    p as bv32
  }

  /** Exactly p leading ones. */
  lemma ShiftedLeadingOnes(p: bv32, i: bv32)
    requires 1 <= p <= 32 && i < 32
    ensures LeadingBit(Shifted(p), i) <==> i < p
  {}

  function Htonl(x: bv32): bv32
  {
    (x << 24) | ((x & 0xff00) << 8) | ((x >> 8) & 0xff00) | (x >> 24)
  }

  /** inet_makenetandmask with a CIDR length: the word it stores in network order. */
  function CidrMask(bits: bv32): bv32
    requires bits <= 32
  {
    Htonl(if bits != 0 then (0xffff_ffff as bv32) << (32 - bits) else 0)
  }

  /** Byte k of the address that prefixlen fills: 0xff below len/8, the partial byte, then zero. */
  function FilledByte(len: bv32, k: bv32): bv8
    requires len <= 32 && k < 4
  {
    var q, r := len >> 3, len & 7;
    if k < q then 0xff
    else if k == q && r > 0 then (((0xff00 as bv32) >> r) & 0xff) as bv8
    else 0
  }

  /** Four bytes in memory order, read as a host-order (big-endian) address. */
  function FromBytes(b0: bv8, b1: bv8, b2: bv8, b3: bv8): bv32
  {
    ((b0 as bv32) << 24) | ((b1 as bv32) << 16) | ((b2 as bv32) << 8) | (b3 as bv32)
  }

  function ByteFilled(len: bv32): bv32
    requires len <= 32
  {
    FromBytes(FilledByte(len, 0), FilledByte(len, 1), FilledByte(len, 2), FilledByte(len, 3))
  }

  /** The three constructions denote one mask. */
  lemma SameMask(p: bv32)
    requires 1 <= p <= 32
    ensures ByteFilled(p) == Shifted(p)
    ensures Htonl(CidrMask(p)) == Shifted(p)
  {}

  // ---- contiguity ----

  /** The helper's test of one bit of a mask kept in network order. */
  predicate TestBit(stored: bv32, i: bv32)
  {
    stored & Htonl((1 as bv32) << (i & 31)) != 0
  }

  /** Zeros below some position, ones from there on. */
  ghost predicate ContiguousFrom(stored: bv32, t: bv32)
  {
    t <= 32 && forall k: bv32 :: k < 32 ==> (TestBit(stored, k) <==> t <= k)
  }

  /** The scan in newroute: skip low zeros, then insist on ones. */
  method MaskAccepted(stored: bv32) returns (ok: bool)
    ensures ok <==> exists t :: ContiguousFrom(stored, t)
  {
    var i: bv32 := 0;
    while i < 32
      invariant i <= 32 && forall k: bv32 :: k < i ==> !TestBit(stored, k)
      decreases 32 - i
    {
      if TestBit(stored, i) { break; }
      i := i + 1;
    }
    ghost var t := i;
    while i < 32
      invariant t <= i <= 32 && (t < 32 ==> t < i || TestBit(stored, t))
      invariant forall k: bv32 :: k < t ==> !TestBit(stored, k)
      invariant forall k: bv32 :: t <= k < i ==> TestBit(stored, k)
      decreases 32 - i
    {
      if !TestBit(stored, i) {
        assert TestBit(stored, t) && t < i;
        return false;
      }
      i := i + 1;
    }
    assert ContiguousFrom(stored, t);
    return true;
  }

  lemma BuiltBit(p: bv32, k: bv32)
    requires 1 <= p <= 32 && k < 32
    ensures TestBit(CidrMask(p), k) <==> 32 - p <= k
  {}

  /** Every mask the builders produce, by shift, by byte fill or from a CIDR length, passes the
      helper's test once stored in network order. */
  lemma BuiltMasksPass(p: bv32)
    requires 1 <= p <= 32
    ensures ContiguousFrom(CidrMask(p), 32 - p)
    ensures ContiguousFrom(Htonl(ByteFilled(p)), 32 - p)
    ensures ContiguousFrom(Htonl(Shifted(p)), 32 - p)
  {
    forall k: bv32 | k < 32 ensures TestBit(CidrMask(p), k) <==> 32 - p <= k { BuiltBit(p, k); }
    SameMask(p);
    HtonlTwice(CidrMask(p));
  }

  /** Network order reverses the four bytes. */
  lemma HtonlReverses(a: bv8, b: bv8, c: bv8, d: bv8)
    ensures Htonl(FromBytes(a, b, c, d)) == FromBytes(d, c, b, a)
  {}

  /** The helper's bit k of a stored mask is the mask's bit 31 - k from the top. */
  lemma StoredBit(mask: bv32, k: bv32)
    requires k < 32
    ensures TestBit(Htonl(mask), k) <==> LeadingBit(mask, 31 - k)
  {}

  /** So the helper accepts exactly the masks that are ones and then zeros. */
  lemma ContiguousIffLeadingOnes(mask: bv32, p: bv32)
    requires p <= 32
    ensures ContiguousFrom(Htonl(mask), 32 - p) <==> forall i: bv32 :: i < 32 ==> (LeadingBit(mask, i) <==> i < p)
  {
    forall k: bv32 | k < 32 ensures TestBit(Htonl(mask), k) <==> LeadingBit(mask, 31 - k) { StoredBit(mask, k); }
    if forall i: bv32 :: i < 32 ==> (LeadingBit(mask, i) <==> i < p) {
      forall k: bv32 | k < 32 ensures TestBit(Htonl(mask), k) <==> 32 - p <= k { assert 31 - k < p <==> 32 - p <= k; }
    }
    if ContiguousFrom(Htonl(mask), 32 - p) {
      forall i: bv32 | i < 32 ensures LeadingBit(mask, i) <==> i < p {
        var k := 31 - i;
        assert 31 - k == i && k < 32;
        assert TestBit(Htonl(mask), k) <==> 32 - p <= k;
        assert 32 - p <= 31 - i <==> i < p;
      }
    }
  }

  lemma HtonlTwice(x: bv32)
    ensures Htonl(Htonl(x)) == x
  {}

  // ---- dotted form ----

  function Octet(mask: bv32, k: bv32): bv8
    requires k < 4
  {
    ((mask >> (24 - 8 * k)) & 0xff) as bv8
  }

  function Val(b: bv8): (n: nat)
    ensures n < 0x100
  {
    b as nat
  }

  lemma OctetsRebuild(mask: bv32)
    ensures FromBytes(Octet(mask, 0), Octet(mask, 1), Octet(mask, 2), Octet(mask, 3)) == mask
  {}

  function MaskText(mask: bv32): string
  {
    Dotted(Val(Octet(mask, 0)), Val(Octet(mask, 1)), Val(Octet(mask, 2)), Val(Octet(mask, 3)))
  }

  function MaskValue(mask: bv32): nat
  {
    Val(Octet(mask, 0)) * 0x100_0000 + Val(Octet(mask, 1)) * 0x1_0000 + Val(Octet(mask, 2)) * 0x100 + Val(Octet(mask, 3))
  }

  /** The dotted form of any mask parses, and to a number that no other mask has. */
  lemma MaskTextParses(mask: bv32, other: bv32)
    ensures ParseIpv4(MaskText(mask)) == Some(MaskValue(mask))
    ensures ParseIpv4(MaskText(other)) == ParseIpv4(MaskText(mask)) <==> other == mask
  {
    TextValue(mask);
    TextValue(other);
    if MaskValue(other) == MaskValue(mask) { MaskValueInjective(other, mask); }
  }

  lemma TextValue(mask: bv32)
    ensures ParseIpv4(MaskText(mask)) == Some(MaskValue(mask))
  {
    QuadParses(mask, Val(Octet(mask, 0)), Val(Octet(mask, 1)), Val(Octet(mask, 2)), Val(Octet(mask, 3)));
  }

  lemma QuadParses(mask: bv32, a: nat, b: nat, c: nat, d: nat)
    requires a < 256 && b < 256 && c < 256 && d < 256 && MaskText(mask) == Dotted(a, b, c, d)
    requires MaskValue(mask) == a * 0x100_0000 + b * 0x1_0000 + c * 0x100 + d
    ensures ParseIpv4(MaskText(mask)) == Some(MaskValue(mask))
  {
    DottedParses(a, b, c, d);
  }

  lemma MaskValueInjective(m1: bv32, m2: bv32)
    requires MaskValue(m1) == MaskValue(m2)
    ensures m1 == m2
  {
    SameOctets(Octet(m1, 0), Octet(m1, 1), Octet(m1, 2), Octet(m1, 3), Octet(m2, 0), Octet(m2, 1), Octet(m2, 2), Octet(m2, 3));
    OctetsRebuild(m1);
    OctetsRebuild(m2);
  }

  lemma SameOctets(a: bv8, b: bv8, c: bv8, d: bv8, e: bv8, f: bv8, g: bv8, h: bv8)
    requires Val(a) * 0x100_0000 + Val(b) * 0x1_0000 + Val(c) * 0x100 + Val(d)
          == Val(e) * 0x100_0000 + Val(f) * 0x1_0000 + Val(g) * 0x100 + Val(h)
    ensures a == e && b == f && c == g && d == h
  {
    SameDigits(Val(a), Val(b), Val(c), Val(d), Val(e), Val(f), Val(g), Val(h));
    SameByte(a, e); SameByte(b, f); SameByte(c, g); SameByte(d, h);
  }

  lemma SameDigits(a: nat, b: nat, c: nat, d: nat, e: nat, f: nat, g: nat, h: nat)
    requires b < 0x100 && c < 0x100 && d < 0x100 && f < 0x100 && g < 0x100 && h < 0x100
    requires a * 0x100_0000 + b * 0x1_0000 + c * 0x100 + d == e * 0x100_0000 + f * 0x1_0000 + g * 0x100 + h
    ensures a == e && b == f && c == g && d == h
  {
    LastDigit(a * 0x1_0000 + b * 0x100 + c, d, e * 0x1_0000 + f * 0x100 + g, h);
    LastDigit(a * 0x100 + b, c, e * 0x100 + f, g);
    LastDigit(a, b, e, f);
  }

  lemma LastDigit(q: nat, r: nat, q': nat, r': nat)
    requires q * 0x100 + r == q' * 0x100 + r' && r < 0x100 && r' < 0x100
    ensures q == q' && r == r'
  {}

  lemma SameByte(a: bv8, b: bv8)
    requires Val(a) == Val(b)
    ensures a == b
  {
    assert Val(a) as bv8 == a && Val(b) as bv8 == b;
  }

  /** The mask text of `ip/p` is that of the mask with p leading ones. */
  lemma NetMaskText(ip: string, digits: string, p: nat)
    requires '/' !in ip && '/' !in digits && ParseDecimal(digits) == Some(p) && 1 <= p <= 32
    ensures '/' in ip + "/" + digits && Split(ip + "/" + digits, '/') == [ip, digits]
    ensures NetMaskFromIpWithSubnet(ip + "/" + digits) == MaskText(Shifted(Bits(p)))
  {
    SplitSlash(ip, digits);
  }

  /** Without a prefix, or with one that is not a number, the mask is that of a single host. */
  lemma HostMaskText(ip: string, digits: string)
    requires '/' !in ip && '/' !in digits && ParseDecimal(digits).None?
    ensures NetMaskFromIpWithSubnet(ip) == "255.255.255.255"
    ensures '/' in ip + "/" + digits && Split(ip + "/" + digits, '/') == [ip, digits]
    ensures NetMaskFromIpWithSubnet(ip + "/" + digits) == "255.255.255.255"
  {
    SplitSlash(ip, digits);
  }

  /** From text to the kernel: the mask text of `ip/p` parses to a number that exactly one mask has,
      that mask has exactly p leading ones, and it passes the helper's test whichever way it is built. */
  lemma TextToKernel(ip: string, digits: string, p: nat, mask: bv32)
    requires '/' !in ip && '/' !in digits && ParseDecimal(digits) == Some(p) && 1 <= p <= 32
    ensures '/' in ip + "/" + digits && Split(ip + "/" + digits, '/') == [ip, digits]
    ensures ParseIpv4(NetMaskFromIpWithSubnet(ip + "/" + digits)) == Some(MaskValue(mask)) <==> mask == Shifted(Bits(p))
    ensures ParseIpv4(NetMaskFromIpWithSubnet(ip + "/" + digits)) == Some(MaskValue(mask)) ==>
              && (forall i: bv32 :: i < 32 ==> (LeadingBit(mask, i) <==> i < Bits(p)))
              && mask == ByteFilled(Bits(p)) && ContiguousFrom(Htonl(mask), 32 - Bits(p))
  {
    NetMaskText(ip, digits, p);
    BuiltFrom(Bits(p), mask);
  }

  lemma BuiltFrom(p: bv32, mask: bv32)
    requires 1 <= p <= 32
    ensures ParseIpv4(MaskText(Shifted(p))) == Some(MaskValue(mask)) <==> mask == Shifted(p)
    ensures forall i: bv32 :: i < 32 ==> (LeadingBit(Shifted(p), i) <==> i < p)
    ensures Shifted(p) == ByteFilled(p) && ContiguousFrom(Htonl(Shifted(p)), 32 - p)
  {
    MaskTextParses(mask, Shifted(p));
    forall i: bv32 | i < 32 ensures LeadingBit(Shifted(p), i) <==> i < p { ShiftedLeadingOnes(p, i); }
    SameMask(p);
    BuiltMasksPass(p);
  }

  /** netMaskFromIpWithSubnet on text; a prefix of 0 or above 32 would shift out of range. */
  function NetMaskFromIpWithSubnet(ip: string): string
    requires '/' in ip ==> (var v := ParseDecimal(Split(ip, '/')[1]); v.Some? ==> 1 <= v.value <= 32)
  {
    if '/' !in ip then "255.255.255.255"
    else match ParseDecimal(Split(ip, '/')[1])
         case None => "255.255.255.255"
         case Some(p) => MaskText(Shifted(Bits(p)))
  }
}
