/** The reply frame: an Ethernet frame carrying an IPv6 packet whose payload
    is a Neighbor Advertisement (section 4.4 of RFC 4861) with one Target
    Link-Layer Address option (section 4.6.1 of RFC 4861). The layered
    definition `AdvertisementFrame` is what the reply must be;
    `BuildAdvertisement` writes it field by field into a zeroed 86-octet
    buffer, the way the proxy does. */
module Advertisement {
  import opened Bytes
  import opened Bits
  import opened Checksum
  import opened Layout

  /** Ethernet header: destination, source, ethertype. */
  function EthernetHeader(dst: MacAddr, src: MacAddr, etherType: nat): seq<byte>
    requires etherType < 0x10000
  {
    dst + src + U16Be(etherType)
  }

  /** IPv6 fixed header with version 6 and zero traffic class and flow label. */
  function Ipv6Header(payloadLength: nat, nextHeader: byte, hopLimit: byte, src: Ipv6Addr, dst: Ipv6Addr): seq<byte>
    requires payloadLength < 0x10000
  {
    [0x60, 0, 0, 0] + U16Be(payloadLength) + [nextHeader, hopLimit] + src + dst
  }

  /** Target Link-Layer Address option: type 2, length 1 (in units of eight
      octets), the link-layer address. */
  function TargetLinkLayerOption(mac: MacAddr): seq<byte>
  {
    [TARGET_LL_ADDR, 1] + mac
  }

  /** The Neighbor Advertisement message answering for `target`, flags
      Solicited and Override, with `checksum` in its checksum field. */
  function AdvertMessage(target: Ipv6Addr, mac: MacAddr, checksum: nat): seq<byte>
    requires checksum <= 0xFFFF
  {
    [NEIGHBOR_ADVERT, 0] + U16Be(checksum) + [Or(FLAG_SOLICITED, FLAG_OVERRIDE), 0, 0, 0]
      + target + TargetLinkLayerOption(mac)
  }

  /** The reply the proxy sends, as `mac`, for the address `target` to the
      soliciting host at link-layer address `peerMac` and IPv6 address
      `peerAddr`. The checksum covers the message with a zero checksum field
      and the pseudo-header from `target` to `peerAddr`. */
  function AdvertisementFrame(mac: MacAddr, peerMac: MacAddr, target: Ipv6Addr, peerAddr: Ipv6Addr): seq<byte>
  {
    var checksum := Icmpv6Checksum(target, peerAddr, AdvertMessage(target, mac, 0));
    EthernetHeader(peerMac, mac, ETHERTYPE_IPV6)
      + Ipv6Header(ADVERT_LEN, NEXT_HEADER_ICMPV6, NDP_HOP_LIMIT, target, peerAddr)
      + AdvertMessage(target, mac, checksum)
  }

  /** Reading the reply back through the field views gives exactly the values
      it was built from, and every octet not written is zero. */
  lemma AdvertisementFields(mac: MacAddr, peerMac: MacAddr, target: Ipv6Addr, peerAddr: Ipv6Addr)
    ensures var f := AdvertisementFrame(mac, peerMac, target, peerAddr);
      |f| == REPLY_LEN &&
      EthDestination(f) == peerMac && EthSource(f) == mac && EtherType(f) == ETHERTYPE_IPV6 &&
      Ipv6Version(f) == 6 && Ipv6TrafficClassAndFlowLabel(f) == Zeros(4) &&
      Ipv6PayloadLength(f) == ADVERT_LEN && Ipv6NextHeader(f) == NEXT_HEADER_ICMPV6 &&
      Ipv6HopLimit(f) == NDP_HOP_LIMIT &&
      Ipv6Source(f) == target && Ipv6Destination(f) == peerAddr &&
      Icmpv6Type(f) == NEIGHBOR_ADVERT && Icmpv6Code(f) == 0 &&
      And(AdvertFlags(f), FLAG_ROUTER) == 0 &&
      And(AdvertFlags(f), FLAG_SOLICITED) != 0 && And(AdvertFlags(f), FLAG_OVERRIDE) != 0 &&
      AdvertFlags(f) == 0x60 && NeighborReserved(f) == Zeros(3) &&
      NeighborTarget(f) == target &&
      NeighborOptions(f) == [TARGET_LL_ADDR, 1] + mac &&
      Icmpv6ChecksumField(f) == Icmpv6Checksum(target, peerAddr, AdvertMessage(target, mac, 0))
  {
    var f := AdvertisementFrame(mac, peerMac, target, peerAddr);
    var checksum := Icmpv6Checksum(target, peerAddr, AdvertMessage(target, mac, 0));
    var e := EthernetHeader(peerMac, mac, ETHERTYPE_IPV6);
    var h := Ipv6Header(ADVERT_LEN, NEXT_HEADER_ICMPV6, NDP_HOP_LIMIT, target, peerAddr);
    var m := AdvertMessage(target, mac, checksum);
    assert f == e + h + m;
    assert f[..14] == e && f[14..54] == h && f[54..] == m;
    EthernetFields(f, peerMac, mac);
    Ipv6Fields(f, target, peerAddr);
    MessageFields(f, target, mac, checksum);
  }

  /** The Ethernet header read back through its views. */
  lemma EthernetFields(f: seq<byte>, dst: MacAddr, src: MacAddr)
    requires |f| >= ETHERNET_HEADER_LEN && f[..14] == EthernetHeader(dst, src, ETHERTYPE_IPV6)
    ensures EthDestination(f) == dst && EthSource(f) == src && EtherType(f) == ETHERTYPE_IPV6
  {
    assert f[0..6] == f[..14][0..6];
    assert f[6..12] == f[..14][6..12];
    assert f[12] == f[..14][12] && f[13] == f[..14][13];
  }

  /** The IPv6 header of the reply read back through its views. */
  lemma Ipv6Fields(f: seq<byte>, src: Ipv6Addr, dst: Ipv6Addr)
    requires HasIpv6Header(f) && f[14..54] == Ipv6Header(ADVERT_LEN, NEXT_HEADER_ICMPV6, NDP_HOP_LIMIT, src, dst)
    ensures Ipv6Version(f) == 6 && Ipv6TrafficClassAndFlowLabel(f) == Zeros(4)
    ensures Ipv6PayloadLength(f) == ADVERT_LEN && Ipv6NextHeader(f) == NEXT_HEADER_ICMPV6
    ensures Ipv6HopLimit(f) == NDP_HOP_LIMIT && Ipv6Source(f) == src && Ipv6Destination(f) == dst
  {
    var h := f[14..54];
    assert h == [0x60, 0, 0, 0] + U16Be(ADVERT_LEN) + [NEXT_HEADER_ICMPV6, NDP_HOP_LIMIT] + src + dst;
    assert f[14] == h[0] == 0x60;
    assert f[15] == h[1] == 0 && f[16] == h[2] == 0 && f[17] == h[3] == 0;
    assert [And(f[14], 0x0F)] + f[15..18] == Zeros(4) by {
      assert And(96, 15) == 0;
    }
    assert f[18] == h[4] && f[19] == h[5] && f[20] == h[6] && f[21] == h[7];
    assert f[22..38] == h[8..24];
    assert f[38..54] == h[24..40];
    assert Shr(12, 1) == 6 && Shr(24, 2) == 6 && Shr(48, 3) == 6 && Shr(96, 4) == 6;
    assert And(6, 0) == 0 && And(12, 1) == 0 && And(24, 3) == 0 && And(48, 7) == 0 && And(96, 15) == 0;
  }

  /** The Neighbor Advertisement of the reply read back through its views. */
  lemma MessageFields(f: seq<byte>, target: Ipv6Addr, mac: MacAddr, checksum: nat)
    requires checksum <= 0xFFFF
    requires |f| == REPLY_LEN && f[54..] == AdvertMessage(target, mac, checksum)
    ensures Icmpv6Type(f) == NEIGHBOR_ADVERT && Icmpv6Code(f) == 0
    ensures AdvertFlags(f) == 0x60 && And(AdvertFlags(f), FLAG_ROUTER) == 0
    ensures And(AdvertFlags(f), FLAG_SOLICITED) != 0 && And(AdvertFlags(f), FLAG_OVERRIDE) != 0
    ensures NeighborReserved(f) == Zeros(3) && NeighborTarget(f) == target
    ensures NeighborOptions(f) == [TARGET_LL_ADDR, 1] + mac
    ensures Icmpv6ChecksumField(f) == checksum
  {
    var m := f[54..];
    assert f[54] == m[0] && f[55] == m[1] && f[58] == m[4];
    assert f[56] == m[2] && f[57] == m[3];
    assert f[59..62] == m[5..8];
    assert f[62..78] == m[8..24];
    assert f[78..] == m[24..];
    FlagValues();
  }

  /** The flags octet the proxy writes, Solicited | Override, has the
      Solicited and Override bits set and the Router bit clear. */
  lemma FlagValues()
    ensures Or(FLAG_SOLICITED, FLAG_OVERRIDE) == 0x60
    ensures And(0x60, FLAG_ROUTER) == 0 && And(0x60, FLAG_SOLICITED) != 0 && And(0x60, FLAG_OVERRIDE) != 0
  {
    OrSolicitedOverride();
    AndRouter();
    AndSolicited();
    AndOverride();
  }

  // Each of the following steps halves both operands once.

  lemma OrSolicitedOverride()
    ensures Or(64, 32) == 96
  {
    assert Or(1, 0) == 1 && Or(2, 1) == 3 && Or(4, 2) == 6 && Or(8, 4) == 12;
    assert Or(16, 8) == 24 && Or(32, 16) == 48;
  }

  lemma AndRouter()
    ensures And(96, 128) == 0
  {
    assert And(1, 2) == 0 && And(3, 4) == 0 && And(6, 8) == 0 && And(12, 16) == 0;
    assert And(24, 32) == 0 && And(48, 64) == 0;
  }

  lemma AndSolicited()
    ensures And(96, 64) == 64
  {
    assert And(1, 1) == 1 && And(3, 2) == 2 && And(6, 4) == 4 && And(12, 8) == 8;
    assert And(24, 16) == 16 && And(48, 32) == 32;
  }

  lemma AndOverride()
    ensures And(96, 32) == 32
  {
    assert And(3, 1) == 1 && And(6, 2) == 2 && And(12, 4) == 4 && And(24, 8) == 8;
    assert And(48, 16) == 16;
  }

  /** The checksum of the reply verifies against the pseudo-header made from
      the reply's own IPv6 source, destination and payload. */
  lemma AdvertisementChecksumValid(mac: MacAddr, peerMac: MacAddr, target: Ipv6Addr, peerAddr: Ipv6Addr)
    ensures var f := AdvertisementFrame(mac, peerMac, target, peerAddr);
      HasIpv6Header(f) && |Ipv6Payload(f)| == ADVERT_LEN &&
      ChecksumValid(Ipv6Source(f), Ipv6Destination(f), Ipv6Payload(f))
  {
    var f := AdvertisementFrame(mac, peerMac, target, peerAddr);
    var unsummed := AdvertMessage(target, mac, 0);
    var checksum := Icmpv6Checksum(target, peerAddr, unsummed);
    AdvertisementFields(mac, peerMac, target, peerAddr);
    assert Ipv6Payload(f) == AdvertMessage(target, mac, checksum);
    AdvertChecksumField(target, mac, checksum);
    ChecksumValidates(target, peerAddr, unsummed);
  }

  /** Storing a checksum into the unsummed message gives the message with
      that checksum. */
  lemma AdvertChecksumField(target: Ipv6Addr, mac: MacAddr, checksum: nat)
    requires checksum <= 0xFFFF
    ensures WithChecksum(AdvertMessage(target, mac, 0), checksum) == AdvertMessage(target, mac, checksum)
  {
  }

  /** Copies `value` into `buf` at `offset` (the setters of the packet views). */
  method SetBytes(buf: array<byte>, offset: nat, value: seq<byte>)
    requires offset + |value| <= buf.Length
    modifies buf
    ensures forall i :: 0 <= i < |value| ==> buf[offset + i] == value[i]
    ensures forall i :: 0 <= i < buf.Length && !(offset <= i < offset + |value|) ==> buf[i] == old(buf[i])
  {
    for k := 0 to |value|
      invariant forall i :: 0 <= i < k ==> buf[offset + i] == value[i]
      invariant forall i :: 0 <= i < buf.Length && !(offset <= i < offset + k) ==> buf[i] == old(buf[i])
    {
      buf[offset + k] := value[k];
    }
  }

  /** The Ethernet setters: ethertype, source, destination. */
  method WriteEthernetHeader(buf: array<byte>, dst: MacAddr, src: MacAddr)
    requires buf.Length == REPLY_LEN
    modifies buf
    ensures buf[..14] == EthernetHeader(dst, src, ETHERTYPE_IPV6)
    ensures forall i :: 14 <= i < buf.Length ==> buf[i] == old(buf[i])
  {
    SetBytes(buf, 12, U16Be(ETHERTYPE_IPV6));
    SetBytes(buf, 6, src);
    SetBytes(buf, 0, dst);
  }

  /** The IPv6 setters, on a zeroed header: version, next header, source,
      destination, hop limit, payload length. */
  method WriteIpv6Header(buf: array<byte>, src: Ipv6Addr, dst: Ipv6Addr)
    requires buf.Length == REPLY_LEN
    requires forall i :: 14 <= i < 54 ==> buf[i] == 0
    modifies buf
    ensures buf[14..54] == Ipv6Header(ADVERT_LEN, NEXT_HEADER_ICMPV6, NDP_HOP_LIMIT, src, dst)
    ensures forall i :: 0 <= i < buf.Length && !(14 <= i < 54) ==> buf[i] == old(buf[i])
  {
    // The version goes into the top four bits of the first header octet.
    buf[14] := Or(And(buf[14], 0x0F), Shl8(6, 4));
    buf[20] := NEXT_HEADER_ICMPV6;
    SetBytes(buf, 22, src);
    SetBytes(buf, 38, dst);
    buf[21] := NDP_HOP_LIMIT;
    SetBytes(buf, 18, U16Be(ADVERT_LEN));
  }

  /** The option, assembled in its own zeroed 8-octet buffer. */
  method BuildOption(mac: MacAddr) returns (option: seq<byte>)
    ensures option == TargetLinkLayerOption(mac)
  {
    var buf := new byte[8](_ => 0);
    buf[0] := TARGET_LL_ADDR;
    buf[1] := 1;
    SetBytes(buf, 2, mac);
    option := buf[..];
  }

  /** The Neighbor Advertisement setters, on a zeroed message: type, code,
      flags, target, options. The checksum field is left zero. */
  method WriteAdvertMessage(buf: array<byte>, target: Ipv6Addr, mac: MacAddr)
    requires buf.Length == REPLY_LEN
    requires forall i :: 54 <= i < 86 ==> buf[i] == 0
    modifies buf
    ensures buf[54..86] == AdvertMessage(target, mac, 0)
    ensures forall i :: 0 <= i < 54 ==> buf[i] == old(buf[i])
  {
    var option := BuildOption(mac);
    buf[54] := NEIGHBOR_ADVERT;
    buf[55] := 0;
    buf[58] := Or(FLAG_SOLICITED, FLAG_OVERRIDE);
    SetBytes(buf, 62, target);
    SetBytes(buf, 78, option);
  }

  /** The checksum setter: the big-endian checksum at octets 2 and 3 of the
      ICMPv6 message. */
  method WriteChecksum(buf: array<byte>, checksum: nat)
    requires buf.Length == REPLY_LEN && checksum <= 0xFFFF
    modifies buf
    ensures buf[54..86] == WithChecksum(old(buf[54..86]), checksum)
    ensures buf[..54] == old(buf[..54])
  {
    SetBytes(buf, 56, U16Be(checksum));
    assert buf[54..86] == old(buf[54..56]) + U16Be(checksum) + old(buf[58..86]);
  }

  /** The reply-building part of `process_ipv6`: a zeroed 86-octet buffer is
      filled in at the fixed offsets in the order the proxy writes them, and
      the checksum is computed over the finished message and stored last. */
  method BuildAdvertisement(mac: MacAddr, peerMac: MacAddr, target: Ipv6Addr, peerAddr: Ipv6Addr)
    returns (frame: seq<byte>)
    ensures frame == AdvertisementFrame(mac, peerMac, target, peerAddr)
  {
    var buf := new byte[REPLY_LEN](_ => 0);
    WriteEthernetHeader(buf, peerMac, mac);
    WriteIpv6Header(buf, target, peerAddr);
    WriteAdvertMessage(buf, target, mac);
    ghost var headers := buf[..54];
    var checksum := Icmpv6Checksum(target, peerAddr, buf[54..86]);
    WriteChecksum(buf, checksum);
    assert buf[..54] == headers;
    AdvertChecksumField(target, mac, checksum);
    frame := buf[..];
    assert frame == buf[..14] + buf[14..54] + buf[54..86];
  }
}
