/**
 The address classifier: octet patterns and segment masks on one side, blocks of addresses with a
 common prefix (CIDR) on the other. The special-purpose blocks are those of section 2.2.2 of
 RFC 6890 with the later additions that the crate documents.
 */
module Addresses {
  type Ipv4 = bv32

  type Ipv6 = bv128

  datatype IpAddr = V4(v4: Ipv4) | V6(v6: Ipv6)

  // ---- IPv4 by octets -----------------------------------------------------------

  datatype Octets = Octets(a: bv8, b: bv8, c: bv8, d: bv8)

  /** `Ipv4Addr::octets`, the most significant first. */
  function OctetsOf(ip: Ipv4): Octets {
    Octets((ip >> 24) as bv8, ((ip >> 16) & 0xFF) as bv8, ((ip >> 8) & 0xFF) as bv8,
           (ip & 0xFF) as bv8)
  }

  /** The octet patterns of `is_public_ipv4`. */
  predicate IsSpecialPattern(o: Octets) {
    || o.a == 0
    || o.a == 10
    || (o.a == 100 && 64 <= o.b <= 127)
    || o.a == 127
    || (o.a == 169 && o.b == 254)
    || (o.a == 172 && 16 <= o.b <= 31)
    || (o.a == 192 && o.b == 0 && o.c == 0)
    || (o.a == 192 && o.b == 0 && o.c == 2)
    || (o.a == 192 && o.b == 88 && o.c == 99)
    || (o.a == 192 && o.b == 168)
    || (o.a == 198 && 18 <= o.b <= 19)
    || (o.a == 198 && o.b == 51 && o.c == 100)
    || (o.a == 203 && o.b == 0 && o.c == 113)
    || 224 <= o.a
  }

  predicate IsPublicIpv4(ip: Ipv4) {
    !IsSpecialPattern(OctetsOf(ip))
  }

  // ---- IPv4 by blocks ----------------------------------------------------------------

  /** A block of addresses: those that read `net` under the prefix mask. */
  datatype Block = Block(net: Ipv4, mask: Ipv4)

  predicate Contains(block: Block, ip: Ipv4) {
    ip & block.mask == block.net
  }

  /** The documented blocks, in the documented order. */
  const BLOCKS: seq<Block> := [
    Block(0x0000_0000, 0xFF00_0000),  // 0.0.0.0/8       this network
    Block(0x0A00_0000, 0xFF00_0000),  // 10.0.0.0/8      private
    Block(0x6440_0000, 0xFFC0_0000),  // 100.64.0.0/10   shared address space
    Block(0x7F00_0000, 0xFF00_0000),  // 127.0.0.0/8     loopback
    Block(0xA9FE_0000, 0xFFFF_0000),  // 169.254.0.0/16  link-local
    Block(0xAC10_0000, 0xFFF0_0000),  // 172.16.0.0/12   private
    Block(0xC000_0000, 0xFFFF_FF00),  // 192.0.0.0/24    IETF protocol assignments
    Block(0xC000_0200, 0xFFFF_FF00),  // 192.0.2.0/24    TEST-NET-1
    Block(0xC058_6300, 0xFFFF_FF00),  // 192.88.99.0/24  6to4 relay anycast
    Block(0xC0A8_0000, 0xFFFF_0000),  // 192.168.0.0/16  private
    Block(0xC612_0000, 0xFFFE_0000),  // 198.18.0.0/15   benchmarking
    Block(0xC633_6400, 0xFFFF_FF00),  // 198.51.100.0/24 TEST-NET-2
    Block(0xCB00_7100, 0xFFFF_FF00),  // 203.0.113.0/24  TEST-NET-3
    Block(0xE000_0000, 0xE000_0000)   // 224.0.0.0/3     multicast, reserved, broadcast
  ]

  ghost predicate InSomeBlock(ip: Ipv4) {
    exists i :: 0 <= i < |BLOCKS| && InBlock(i, ip)
  }

  predicate InBlock(i: int, ip: Ipv4)
    requires 0 <= i < |BLOCKS|
  {
    Contains(BLOCKS[i], ip)
  }

  /** For every IPv4 address the octet patterns say the same as the table of blocks. */
  lemma PublicIpv4Exact(ip: Ipv4)
    ensures IsPublicIpv4(ip) <==> !InSomeBlock(ip)
  {
    PatternsAreListed(ip);
    ListIsTable(ip);
  }

  lemma PatternsAreListed(ip: Ipv4)
    ensures IsPublicIpv4(ip) <==> !InListedBlock(ip)
  {
    Pattern8(ip);
    Pattern24(ip);
  }

  predicate InListedBlock(ip: Ipv4) {
    || InBlock(0, ip) || InBlock(1, ip) || InBlock(2, ip) || InBlock(3, ip) || InBlock(4, ip)
    || InBlock(5, ip) || InBlock(6, ip) || InBlock(7, ip) || InBlock(8, ip) || InBlock(9, ip)
    || InBlock(10, ip) || InBlock(11, ip) || InBlock(12, ip) || InBlock(13, ip)
  }

  lemma OneOfFourteen(p: int -> bool)
    ensures (exists i :: 0 <= i < 14 && p(i)) <==>
      || p(0) || p(1) || p(2) || p(3) || p(4) || p(5) || p(6)
      || p(7) || p(8) || p(9) || p(10) || p(11) || p(12) || p(13)
  {
  }

  lemma ListIsTable(ip: Ipv4)
    ensures InSomeBlock(ip) <==> InListedBlock(ip)
  {
    assert |BLOCKS| == 14;
    var p := (i: int) => 0 <= i < 14 && InBlock(i, ip);
    OneOfFourteen(p);
    if i :| 0 <= i < |BLOCKS| && InBlock(i, ip) {
      assert p(i);
    }
    if i :| 0 <= i < 14 && p(i) {
      assert InBlock(i, ip);
    }
  }

  lemma Pattern8(ip: Ipv4)
    ensures var o := OctetsOf(ip);
      && (o.a == 0 <==> Contains(BLOCKS[0], ip))
      && (o.a == 10 <==> Contains(BLOCKS[1], ip))
      && (o.a == 100 && 64 <= o.b <= 127 <==> Contains(BLOCKS[2], ip))
      && (o.a == 127 <==> Contains(BLOCKS[3], ip))
      && (o.a == 169 && o.b == 254 <==> Contains(BLOCKS[4], ip))
      && (o.a == 172 && 16 <= o.b <= 31 <==> Contains(BLOCKS[5], ip))
      && (o.a == 192 && o.b == 168 <==> Contains(BLOCKS[9], ip))
      && (o.a == 198 && 18 <= o.b <= 19 <==> Contains(BLOCKS[10], ip))
      && (224 <= o.a <==> Contains(BLOCKS[13], ip))
  {
  }

  lemma Pattern24(ip: Ipv4)
    ensures var o := OctetsOf(ip);
      && (o.a == 192 && o.b == 0 && o.c == 0 <==> Contains(BLOCKS[6], ip))
      && (o.a == 192 && o.b == 0 && o.c == 2 <==> Contains(BLOCKS[7], ip))
      && (o.a == 192 && o.b == 88 && o.c == 99 <==> Contains(BLOCKS[8], ip))
      && (o.a == 198 && o.b == 51 && o.c == 100 <==> Contains(BLOCKS[11], ip))
      && (o.a == 203 && o.b == 0 && o.c == 113 <==> Contains(BLOCKS[12], ip))
  {
  }

  predicate IsInterval(block: Block, first: Ipv4, last: Ipv4, ip: Ipv4) {
    Contains(block, ip) <==> first <= ip <= last
  }

  lemma LowIntervals(ip: Ipv4)
    ensures IsInterval(BLOCKS[0], 0x0000_0000, 0x00FF_FFFF, ip)
    ensures IsInterval(BLOCKS[1], 0x0A00_0000, 0x0AFF_FFFF, ip)
    ensures IsInterval(BLOCKS[2], 0x6440_0000, 0x647F_FFFF, ip)
    ensures IsInterval(BLOCKS[3], 0x7F00_0000, 0x7FFF_FFFF, ip)
  {
  }

  lemma MiddleIntervals(ip: Ipv4)
    ensures IsInterval(BLOCKS[4], 0xA9FE_0000, 0xA9FE_FFFF, ip)
    ensures IsInterval(BLOCKS[5], 0xAC10_0000, 0xAC1F_FFFF, ip)
    ensures IsInterval(BLOCKS[6], 0xC000_0000, 0xC000_00FF, ip)
  {
  }

  lemma TestNetIntervals(ip: Ipv4)
    ensures IsInterval(BLOCKS[7], 0xC000_0200, 0xC000_02FF, ip)
    ensures IsInterval(BLOCKS[8], 0xC058_6300, 0xC058_63FF, ip)
  {
  }

  lemma HighIntervals(ip: Ipv4)
    ensures IsInterval(BLOCKS[9], 0xC0A8_0000, 0xC0A8_FFFF, ip)
    ensures IsInterval(BLOCKS[10], 0xC612_0000, 0xC613_FFFF, ip)
    ensures IsInterval(BLOCKS[11], 0xC633_6400, 0xC633_64FF, ip)
    ensures IsInterval(BLOCKS[12], 0xCB00_7100, 0xCB00_71FF, ip)
  {
  }

  lemma TopInterval(ip: Ipv4)
    ensures IsInterval(BLOCKS[13], 0xE000_0000, 0xFFFF_FFFF, ip)
  {
  }

  /** The public addresses as what lies between the documented ranges. */
  lemma PublicIpv4Ranges(ip: Ipv4)
    ensures IsPublicIpv4(ip) <==>
      || 0x0100_0000 <= ip < 0x0A00_0000 || 0x0B00_0000 <= ip < 0x6440_0000
      || 0x6480_0000 <= ip < 0x7F00_0000 || 0x8000_0000 <= ip < 0xA9FE_0000
      || 0xA9FF_0000 <= ip < 0xAC10_0000 || 0xAC20_0000 <= ip < 0xC000_0000
      || 0xC000_0100 <= ip < 0xC000_0200 || 0xC000_0300 <= ip < 0xC058_6300
      || 0xC058_6400 <= ip < 0xC0A8_0000 || 0xC0A9_0000 <= ip < 0xC612_0000
      || 0xC614_0000 <= ip < 0xC633_6400 || 0xC633_6500 <= ip < 0xCB00_7100
      || 0xCB00_7200 <= ip < 0xE000_0000
  {
    Pattern8(ip);
    Pattern24(ip);
    LowIntervals(ip);
    MiddleIntervals(ip);
    TestNetIntervals(ip);
    HighIntervals(ip);
    TopInterval(ip);
  }

  // ---- IPv6 ------------------------------------------------------------------------------

  /** Segment `i` of `Ipv6Addr::segments`, the most significant first. */
  datatype Segments = Segments(
    s0: bv16, s1: bv16, s2: bv16, s3: bv16, s4: bv16, s5: bv16, s6: bv16, s7: bv16)

  function SegmentsOf(ip: Ipv6): Segments {
    Segments(
      (ip >> 112) as bv16, ((ip >> 96) & 0xFFFF) as bv16, ((ip >> 80) & 0xFFFF) as bv16,
      ((ip >> 64) & 0xFFFF) as bv16, ((ip >> 48) & 0xFFFF) as bv16, ((ip >> 32) & 0xFFFF) as bv16,
      ((ip >> 16) & 0xFFFF) as bv16, (ip & 0xFFFF) as bv16)
  }

  /** The segment pattern under which `Ipv6Addr::to_ipv4` yields an address. */
  predicate EmbedsIpv4(s: Segments) {
    && s.s0 == 0 && s.s1 == 0 && s.s2 == 0 && s.s3 == 0 && s.s4 == 0
    && (s.s5 == 0 || s.s5 == 0xFFFF)
  }

  function EmbeddedIpv4(s: Segments): Ipv4 {
    (s.s6 as bv32 << 16) | s.s7 as bv32
  }

  predicate IsPublicIpv6(ip: Ipv6) {
    var s := SegmentsOf(ip);
    if EmbedsIpv4(s) then IsPublicIpv4(EmbeddedIpv4(s))
    else s.s0 & 0xE000 == 0x2000 && !(s.s0 == 0x2001 && s.s1 == 0x0DB8)
  }

  predicate IsPublicIp(ip: IpAddr) {
    match ip
    case V4(v4) => IsPublicIpv4(v4)
    case V6(v6) => IsPublicIpv6(v6)
  }

  // ---- IPv6 by prefixes ------------------------------------------------------------------

  /** The two embeddings of section 2.5.5 of RFC 4291. */
  function Compatible(v4: Ipv4): Ipv6 { v4 as bv128 }

  function Mapped(v4: Ipv4): Ipv6 { 0xFFFF_0000_0000 | v4 as bv128 }

  predicate IsGlobalUnicast(ip: Ipv6) { ip >> 125 == 1 }            // 2000::/3

  predicate IsDocumentation(ip: Ipv6) { ip >> 96 == 0x2001_0DB8 }   // 2001:db8::/32

  predicate IsUniqueLocal(ip: Ipv6) { ip >> 121 == 0x7E }           // fc00::/7

  predicate IsLinkLocal(ip: Ipv6) { ip >> 118 == 0x3FA }            // fe80::/10

  predicate IsMulticast(ip: Ipv6) { ip >> 120 == 0xFF }             // ff00::/8

  lemma EmbeddingHighBits(ip: Ipv6)
    ensures EmbedsIpv4(SegmentsOf(ip)) <==> ip >> 32 == 0 || ip >> 32 == 0xFFFF
  {
  }

  lemma EmbeddingLowBits(ip: Ipv6)
    ensures EmbeddedIpv4(SegmentsOf(ip)) == (ip & 0xFFFF_FFFF) as bv32
  {
  }

  lemma LowPart(ip: Ipv6)
    ensures ip >> 32 == 0 ==> ip == Compatible((ip & 0xFFFF_FFFF) as bv32)
    ensures ip >> 32 == 0xFFFF ==> ip == Mapped((ip & 0xFFFF_FFFF) as bv32)
  {
  }

  lemma CompatibleBits(v4: Ipv4)
    ensures Compatible(v4) >> 32 == 0 && Compatible(v4) & 0xFFFF_FFFF == v4 as bv128
  {
  }

  lemma MappedBits(v4: Ipv4)
    ensures Mapped(v4) >> 32 == 0xFFFF && Mapped(v4) & 0xFFFF_FFFF == v4 as bv128
  {
  }

  lemma WideningIsLossless(v4: Ipv4)
    ensures (v4 as bv128) as bv32 == v4
  {
  }

  /** Exactly the two embeddings of `v4` are read as embedding `v4`. */
  lemma EmbeddingExact(ip: Ipv6, v4: Ipv4)
    ensures EmbedsIpv4(SegmentsOf(ip)) && EmbeddedIpv4(SegmentsOf(ip)) == v4 <==>
            ip == Compatible(v4) || ip == Mapped(v4)
  {
    EmbeddingHighBits(ip);
    EmbeddingLowBits(ip);
    LowPart(ip);
    CompatibleBits(v4);
    MappedBits(v4);
    WideningIsLossless(v4);
  }

  lemma GlobalUnicastExact(ip: Ipv6)
    ensures SegmentsOf(ip).s0 & 0xE000 == 0x2000 <==> IsGlobalUnicast(ip)
    ensures SegmentsOf(ip).s0 == 0x2001 && SegmentsOf(ip).s1 == 0x0DB8 <==> IsDocumentation(ip)
    ensures IsGlobalUnicast(ip) ==> !EmbedsIpv4(SegmentsOf(ip))
  {
  }

  /**
   An IPv6 address is public exactly when it embeds a public IPv4 address in either form, or is
   global unicast outside the documentation prefix.
   */
  lemma PublicIpv6Exact(ip: Ipv6)
    ensures IsPublicIpv6(ip) <==>
      || (exists v4 :: IsPublicIpv4(v4) && (ip == Compatible(v4) || ip == Mapped(v4)))
      || (IsGlobalUnicast(ip) && !IsDocumentation(ip))
  {
    GlobalUnicastExact(ip);
    forall v4 ensures EmbedsIpv4(SegmentsOf(ip)) && EmbeddedIpv4(SegmentsOf(ip)) == v4 <==>
                      ip == Compatible(v4) || ip == Mapped(v4) {
      EmbeddingExact(ip, v4);
    }
  }

  /** Either embedding of an IPv4 address gets exactly the IPv4 verdict. */
  lemma EmbeddingsKeepTheVerdict(v4: Ipv4)
    ensures IsPublicIpv6(Mapped(v4)) == IsPublicIpv6(Compatible(v4)) == IsPublicIpv4(v4)
  {
    EmbeddingExact(Mapped(v4), v4);
    EmbeddingExact(Compatible(v4), v4);
  }

  /** No loopback, unspecified, unique-local, link-local or multicast address is public. */
  lemma SpecialIpv6IsNeverPublic(ip: Ipv6)
    requires ip == 0 || ip == 1 || IsUniqueLocal(ip) || IsLinkLocal(ip) || IsMulticast(ip)
    ensures !IsPublicIpv6(ip)
  {
    if ip == 0 || ip == 1 {
      SmallIpv6IsNeverPublic(ip);
    } else {
      HighPrefixesAreApart(ip);
    }
  }

  lemma SmallIpv6IsNeverPublic(ip: Ipv6)
    requires ip == 0 || ip == 1
    ensures !IsPublicIpv6(ip)
  {
    EmbeddingExact(ip, if ip == 0 then 0 else 1);
  }

  lemma HighPrefixesAreApart(ip: Ipv6)
    requires IsUniqueLocal(ip) || IsLinkLocal(ip) || IsMulticast(ip)
    ensures !EmbedsIpv4(SegmentsOf(ip)) && SegmentsOf(ip).s0 & 0xE000 != 0x2000
  {
  }

  // ---- Either kind ---------------------------------------------------------------------------

  /** Outside all documented blocks. */
  ghost predicate IsRoutableV4(v4: Ipv4) {
    !InSomeBlock(v4)
  }

  /** Embeds such an address in either form, or is global unicast outside the documentation prefix. */
  ghost predicate IsRoutableV6(v6: Ipv6) {
    || (exists v4 :: IsRoutableV4(v4) && (v6 == Compatible(v4) || v6 == Mapped(v4)))
    || (IsGlobalUnicast(v6) && !IsDocumentation(v6))
  }

  /** The check of `ensure_public_ip`, for each kind of address. */
  lemma PublicIpExact(v4: Ipv4, v6: Ipv6)
    ensures IsPublicIp(V4(v4)) <==> IsRoutableV4(v4)
    ensures IsPublicIp(V6(v6)) <==> IsRoutableV6(v6)
  {
    PublicIpv4Exact(v4);
    PublicIpv6Exact(v6);
    forall x: Ipv4 ensures IsPublicIpv4(x) <==> IsRoutableV4(x) {
      PublicIpv4Exact(x);
    }
  }
}
