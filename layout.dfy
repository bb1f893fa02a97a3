/** Fixed offsets and read-only field views of the frames the proxy reads
    and writes: an Ethernet header (14 octets), an IPv6 fixed header
    (section 3 of RFC 8200, 40 octets) and an ICMPv6 Neighbor Discovery
    message (sections 4.3 and 4.4 of RFC 4861). Offsets are from the start
    of the Ethernet frame. */
module Layout {
  import opened Bytes
  import opened Bits

  const ETHERNET_HEADER_LEN: nat := 14
  const IPV6_HEADER_LEN: nat := 40
  /** Offset of the ICMPv6 message: Ethernet header plus IPv6 header. */
  const ICMPV6_OFFSET: nat := 54
  /** Smallest ICMPv6 message: type, code and checksum. */
  const ICMPV6_HEADER_LEN: nat := 4
  /** Smallest Neighbor Solicitation: ICMPv6 header, reserved word, target. */
  const SOLICIT_LEN: nat := 24
  /** A Neighbor Advertisement with one Target Link-Layer Address option. */
  const ADVERT_LEN: nat := 32
  /** The reply frame: 14 + 40 + 32 octets. */
  const REPLY_LEN: nat := 86

  const ETHERTYPE_IPV6: nat := 0x86DD
  const NEXT_HEADER_ICMPV6: byte := 58
  const NEIGHBOR_SOLICIT: byte := 135
  const NEIGHBOR_ADVERT: byte := 136
  /** Option type of the Target Link-Layer Address option. */
  const TARGET_LL_ADDR: byte := 2
  /** Neighbor Advertisement flags, in the octet after the checksum. */
  const FLAG_ROUTER: byte := 0x80
  const FLAG_SOLICITED: byte := 0x40
  const FLAG_OVERRIDE: byte := 0x20
  /** Hop limit that Neighbor Discovery messages must carry. */
  const NDP_HOP_LIMIT: byte := 255

  // Ethernet header

  function EthDestination(f: seq<byte>): MacAddr
    requires |f| >= ETHERNET_HEADER_LEN
  {
    f[0..6]
  }

  function EthSource(f: seq<byte>): MacAddr
    requires |f| >= ETHERNET_HEADER_LEN
  {
    f[6..12]
  }

  function EtherType(f: seq<byte>): nat
    requires |f| >= ETHERNET_HEADER_LEN
  {
    Word(f[12], f[13])
  }

  // IPv6 fixed header, at offset 14

  predicate HasIpv6Header(f: seq<byte>)
  {
    |f| >= ETHERNET_HEADER_LEN + IPV6_HEADER_LEN
  }

  /** The version, the top four bits of the first header octet. */
  function Ipv6Version(f: seq<byte>): byte
    requires HasIpv6Header(f)
  {
    Shr(f[14], 4)
  }

  /** Traffic class and flow label: the 28 bits after the version. */
  function Ipv6TrafficClassAndFlowLabel(f: seq<byte>): seq<byte>
    requires HasIpv6Header(f)
  {
    [And(f[14], 0x0F)] + f[15..18]
  }

  function Ipv6PayloadLength(f: seq<byte>): nat
    requires HasIpv6Header(f)
  {
    Word(f[18], f[19])
  }

  function Ipv6NextHeader(f: seq<byte>): byte
    requires HasIpv6Header(f)
  {
    f[20]
  }

  function Ipv6HopLimit(f: seq<byte>): byte
    requires HasIpv6Header(f)
  {
    f[21]
  }

  function Ipv6Source(f: seq<byte>): Ipv6Addr
    requires HasIpv6Header(f)
  {
    f[22..38]
  }

  function Ipv6Destination(f: seq<byte>): Ipv6Addr
    requires HasIpv6Header(f)
  {
    f[38..54]
  }

  /** The IPv6 payload: every octet after the fixed header. */
  function Ipv6Payload(f: seq<byte>): seq<byte>
    requires HasIpv6Header(f)
  {
    f[ICMPV6_OFFSET..]
  }

  // ICMPv6 message, at offset 54

  predicate HasIcmpv6Header(f: seq<byte>)
  {
    |f| >= ICMPV6_OFFSET + ICMPV6_HEADER_LEN
  }

  function Icmpv6Type(f: seq<byte>): byte
    requires HasIcmpv6Header(f)
  {
    f[54]
  }

  function Icmpv6Code(f: seq<byte>): byte
    requires HasIcmpv6Header(f)
  {
    f[55]
  }

  function Icmpv6ChecksumField(f: seq<byte>): nat
    requires HasIcmpv6Header(f)
  {
    Word(f[56], f[57])
  }

  // Neighbor Solicitation / Advertisement body

  predicate HasNeighborMessage(f: seq<byte>)
  {
    |f| >= ICMPV6_OFFSET + SOLICIT_LEN
  }

  /** The flags octet of a Neighbor Advertisement (R, S, O from the top). */
  function AdvertFlags(f: seq<byte>): byte
    requires HasNeighborMessage(f)
  {
    f[58]
  }

  /** The three reserved octets after the flags (the reserved word of a
      Solicitation is the flags octet and these). */
  function NeighborReserved(f: seq<byte>): seq<byte>
    requires HasNeighborMessage(f)
  {
    f[59..62]
  }

  /** The target address, octets 8 to 24 of the message. */
  function NeighborTarget(f: seq<byte>): Ipv6Addr
    requires HasNeighborMessage(f)
  {
    f[62..78]
  }

  /** The options, from octet 24 of the message on. */
  function NeighborOptions(f: seq<byte>): seq<byte>
    requires HasNeighborMessage(f)
  {
    f[78..]
  }
}
