/** The packet processor of the proxy: for each inbound Ethernet frame,
    decide whether it is a Neighbor Solicitation for an address inside the
    configured prefix and, if so, produce the one Neighbor Advertisement that
    answers it (`process_ethernet` and `process_ipv6`). */
module Processor {
  import opened Bytes
  import opened Bits
  import opened Mask
  import opened Checksum
  import opened Layout
  import opened Advertisement

  /** The startup configuration: the link-layer address to advertise, the
      proxied prefix and its length. The length is the `u8` as parsed; it is
      never checked against 128. */
  datatype Configuration = Configuration(targetMacAddress: MacAddr, prefix: Ipv6Addr, prefixLength: u8)

  /** Why a well-formed frame was passed over. */
  datatype Skip = NotIpv6 | NotIcmpv6 | NotNeighborSolicit | OutsidePrefix

  /** The points where the proxy unwraps a failed parse or indexes past its
      mask buffer; each is a panic in the proxy and yields no reply. */
  datatype Panic =
    | ShortEthernetFrame      // EthernetPacket::new(..).unwrap()
    | BadEthernetPayload      // Ipv6Packet::new(..).expect(..)
    | BadIcmpv6Payload        // Icmpv6Packet::new(..).expect(..)
    | BadNdpPayload           // NeighborSolicitPacket::new(..).expect(..)
    | PrefixLengthOutOfRange  // mask_ipv6_addr with a length above 128

  /** What handling one frame comes to: one reply frame, or none. */
  datatype Outcome = Reply(frame: seq<byte>) | Skipped(why: Skip) | Aborted(at: Panic)

  /** Specification of `process_ethernet`, decision by decision. */
  function ProcessFrame(config: Configuration, frame: seq<byte>): Outcome
  {
    if |frame| < ETHERNET_HEADER_LEN then Aborted(ShortEthernetFrame)
    else if EtherType(frame) != ETHERTYPE_IPV6 then Skipped(NotIpv6)
    else if !HasIpv6Header(frame) then Aborted(BadEthernetPayload)
    else if Ipv6NextHeader(frame) != NEXT_HEADER_ICMPV6 then Skipped(NotIcmpv6)
    else if !HasIcmpv6Header(frame) then Aborted(BadIcmpv6Payload)
    else if Icmpv6Type(frame) != NEIGHBOR_SOLICIT then Skipped(NotNeighborSolicit)
    else if !HasNeighborMessage(frame) then Aborted(BadNdpPayload)
    else if config.prefixLength > 128 then Aborted(PrefixLengthOutOfRange)
    else if Masked(config.prefix, config.prefixLength) != Masked(NeighborTarget(frame), config.prefixLength)
    then Skipped(OutsidePrefix)
    else Reply(AdvertisementFrame(config.targetMacAddress, EthSource(frame), NeighborTarget(frame), Ipv6Source(frame)))
  }

  /** A frame the proxy must answer: a complete Neighbor Solicitation in IPv6
      over Ethernet whose target address lies inside the configured prefix. */
  predicate IsProxiedSolicitation(config: Configuration, frame: seq<byte>)
  {
    HasNeighborMessage(frame) &&
    EtherType(frame) == ETHERTYPE_IPV6 &&
    Ipv6NextHeader(frame) == NEXT_HEADER_ICMPV6 &&
    Icmpv6Type(frame) == NEIGHBOR_SOLICIT &&
    config.prefixLength <= 128 &&
    SamePrefix(config.prefix, NeighborTarget(frame), config.prefixLength)
  }

  /** A reply is produced exactly for the frames the proxy must answer; every
      other frame, truncated ones included, produces none. */
  lemma ReplyIff(config: Configuration, frame: seq<byte>)
    ensures ProcessFrame(config, frame).Reply? <==> IsProxiedSolicitation(config, frame)
  {
    if HasNeighborMessage(frame) && config.prefixLength <= 128 {
      MaskMatchIff(config.prefix, NeighborTarget(frame), config.prefixLength);
    }
  }

  /** The reply to a proxied solicitation: 86 octets addressed back to the
      soliciting host, from the configured link-layer address and from the
      solicited target address, advertising that target with Solicited and
      Override set and Router clear, carrying the configured link-layer
      address in its option, with a checksum that verifies. */
  lemma ReplyContents(config: Configuration, frame: seq<byte>)
    requires IsProxiedSolicitation(config, frame)
    ensures ProcessFrame(config, frame).Reply?
    ensures var r := ProcessFrame(config, frame).frame;
      |r| == REPLY_LEN &&
      EthDestination(r) == EthSource(frame) && EthSource(r) == config.targetMacAddress &&
      EtherType(r) == ETHERTYPE_IPV6 &&
      Ipv6Version(r) == 6 && Ipv6TrafficClassAndFlowLabel(r) == Zeros(4) &&
      Ipv6PayloadLength(r) == ADVERT_LEN && Ipv6NextHeader(r) == NEXT_HEADER_ICMPV6 &&
      Ipv6HopLimit(r) == NDP_HOP_LIMIT &&
      Ipv6Source(r) == NeighborTarget(frame) && Ipv6Destination(r) == Ipv6Source(frame) &&
      Icmpv6Type(r) == NEIGHBOR_ADVERT && Icmpv6Code(r) == 0 &&
      AdvertFlags(r) == Or(FLAG_SOLICITED, FLAG_OVERRIDE) && NeighborReserved(r) == Zeros(3) &&
      NeighborTarget(r) == NeighborTarget(frame) &&
      NeighborOptions(r) == [TARGET_LL_ADDR, 1] + config.targetMacAddress &&
      Icmpv6ChecksumField(r) ==
        Icmpv6Checksum(NeighborTarget(frame), Ipv6Source(frame), AdvertMessage(NeighborTarget(frame), config.targetMacAddress, 0)) &&
      ChecksumValid(Ipv6Source(r), Ipv6Destination(r), Ipv6Payload(r))
  {
    ReplyIff(config, frame);
    var mac, peerMac, target, peerAddr :=
      config.targetMacAddress, EthSource(frame), NeighborTarget(frame), Ipv6Source(frame);
    AdvertisementFields(mac, peerMac, target, peerAddr);
    AdvertisementChecksumValid(mac, peerMac, target, peerAddr);
  }

  /** The proxy never answers a frame in its own reply layout, so it cannot
      answer itself. */
  lemma IgnoresAdvertisements(config: Configuration, mac: MacAddr, peerMac: MacAddr, target: Ipv6Addr, peerAddr: Ipv6Addr)
    ensures ProcessFrame(config, AdvertisementFrame(mac, peerMac, target, peerAddr)) == Skipped(NotNeighborSolicit)
  {
    AdvertisementFields(mac, peerMac, target, peerAddr);
  }

  /** No Neighbor Advertisement, from any host and with any flags, options
      or length, is ever answered; one that arrives in IPv6 as ICMPv6 is
      skipped as not a Solicitation. */
  lemma NeverAnswersAdvertisements(config: Configuration, frame: seq<byte>)
    requires HasIcmpv6Header(frame) && Icmpv6Type(frame) == NEIGHBOR_ADVERT
    ensures !ProcessFrame(config, frame).Reply?
    ensures EtherType(frame) == ETHERTYPE_IPV6 && Ipv6NextHeader(frame) == NEXT_HEADER_ICMPV6 ==>
      ProcessFrame(config, frame) == Skipped(NotNeighborSolicit)
  {
  }

  /** `process_ethernet` with `process_ipv6`: the same chain of decisions,
      masking with the loop of `mask_ipv6_addr` and building the reply in a
      buffer. */
  method ProcessEthernet(config: Configuration, packetIn: seq<byte>) returns (outcome: Outcome)
    ensures outcome == ProcessFrame(config, packetIn)
  {
    if |packetIn| < ETHERNET_HEADER_LEN {
      return Aborted(ShortEthernetFrame);
    }
    if EtherType(packetIn) != ETHERTYPE_IPV6 {
      return Skipped(NotIpv6);
    }
    if !HasIpv6Header(packetIn) {
      return Aborted(BadEthernetPayload);
    }
    if Ipv6NextHeader(packetIn) != NEXT_HEADER_ICMPV6 {
      return Skipped(NotIcmpv6);
    }
    if !HasIcmpv6Header(packetIn) {
      return Aborted(BadIcmpv6Payload);
    }
    if Icmpv6Type(packetIn) != NEIGHBOR_SOLICIT {
      return Skipped(NotNeighborSolicit);
    }
    if !HasNeighborMessage(packetIn) {
      return Aborted(BadNdpPayload);
    }
    var target := NeighborTarget(packetIn);
    if config.prefixLength > 128 {
      return Aborted(PrefixLengthOutOfRange);
    }
    var maskedPrefix := MaskAddress(config.prefix, config.prefixLength);
    var maskedTarget := MaskAddress(target, config.prefixLength);
    if maskedPrefix != maskedTarget {
      return Skipped(OutsidePrefix);
    }
    var reply := BuildAdvertisement(config.targetMacAddress, EthSource(packetIn), target, Ipv6Source(packetIn));
    return Reply(reply);
  }

  // The processor thread over a sequence of inbound frames

  /** The replies one frame contributes: none or one. */
  function ReplyOf(o: Outcome): (rs: seq<seq<byte>>)
    ensures |rs| <= 1
    ensures |rs| == 1 <==> o.Reply?
  {
    if o.Reply? then [o.frame] else []
  }

  /** The replies sent for `frames`, in order, when every frame is handled
      on its own and a frame that fails to parse is dropped. */
  function Replies(config: Configuration, frames: seq<seq<byte>>): seq<seq<byte>>
  {
    if frames == [] then []
    else ReplyOf(ProcessFrame(config, frames[0])) + Replies(config, frames[1..])
  }

  /** How many of `frames` the proxy must answer. */
  function CountProxied(config: Configuration, frames: seq<seq<byte>>): nat
  {
    if frames == [] then 0
    else (if IsProxiedSolicitation(config, frames[0]) then 1 else 0) + CountProxied(config, frames[1..])
  }

  /** Handling is stateless: the replies to two runs of frames are the
      replies to each, in order. */
  lemma {:induction false} RepliesConcat(config: Configuration, a: seq<seq<byte>>, b: seq<seq<byte>>)
    ensures Replies(config, a + b) == Replies(config, a) + Replies(config, b)
  {
    if a == [] {
      assert a + b == b;
    } else {
      assert (a + b)[1..] == a[1..] + b;
      RepliesConcat(config, a[1..], b);
    }
  }

  /** Exactly one reply per frame that must be answered, so at most one per
      frame. */
  lemma {:induction false} RepliesCount(config: Configuration, frames: seq<seq<byte>>)
    ensures |Replies(config, frames)| == CountProxied(config, frames) <= |frames|
  {
    if frames != [] {
      ReplyIff(config, frames[0]);
      RepliesCount(config, frames[1..]);
    }
  }

  /** A frame that gets no reply, malformed or not, leaves the replies to
      the frames around it as they are. */
  lemma DroppedFrameHarmless(config: Configuration, before: seq<seq<byte>>, dropped: seq<byte>, after: seq<seq<byte>>)
    requires !ProcessFrame(config, dropped).Reply?
    ensures Replies(config, before + [dropped] + after) == Replies(config, before + after)
  {
    RepliesConcat(config, before + [dropped], after);
    RepliesConcat(config, before, [dropped]);
    RepliesConcat(config, before, after);
    RepliesSingle(config, dropped);
  }

  lemma RepliesSnoc(config: Configuration, frames: seq<seq<byte>>, i: nat)
    requires i < |frames|
    ensures Replies(config, frames[..i + 1]) == Replies(config, frames[..i]) + ReplyOf(ProcessFrame(config, frames[i]))
  {
    assert frames[..i + 1] == frames[..i] + [frames[i]];
    RepliesConcat(config, frames[..i], [frames[i]]);
    RepliesSingle(config, frames[i]);
  }

  lemma RepliesSingle(config: Configuration, frame: seq<byte>)
    ensures Replies(config, [frame]) == ReplyOf(ProcessFrame(config, frame))
  {
    assert [frame][1..] == [];
  }

  /** The processor thread's loop, over a finite run of inbound frames:
      each frame from the inbound queue is processed and its reply, if any,
      appended to the outbound queue. */
  method RunProcessor(config: Configuration, frames: seq<seq<byte>>) returns (sent: seq<seq<byte>>)
    ensures sent == Replies(config, frames)
  {
    sent := [];
    var i := 0;
    while i < |frames|
      invariant 0 <= i <= |frames|
      invariant sent == Replies(config, frames[..i])
    {
      var outcome := ProcessEthernet(config, frames[i]);
      RepliesSnoc(config, frames, i);
      if outcome.Reply? {
        sent := sent + [outcome.frame];
      }
      i := i + 1;
    }
    assert frames[..i] == frames;
  }

  /** The processor thread as written: a panic ends the thread, and nothing
      after the frame that caused it is ever answered. */
  function RepliesAsWritten(config: Configuration, frames: seq<seq<byte>>): seq<seq<byte>>
  {
    if frames == [] then []
    else
      var o := ProcessFrame(config, frames[0]);
      if o.Aborted? then [] else ReplyOf(o) + RepliesAsWritten(config, frames[1..])
  }

  /** One truncated frame (fewer than 14 octets) silences the proxy: the
      solicitation after it goes unanswered, where dropping the bad frame
      answers it. */
  lemma RuntFrameSilencesProxy(config: Configuration, runt: seq<byte>, solicitation: seq<byte>)
    requires |runt| < ETHERNET_HEADER_LEN
    requires IsProxiedSolicitation(config, solicitation)
    ensures RepliesAsWritten(config, [runt, solicitation]) == []
    ensures ProcessFrame(config, solicitation).Reply?
    ensures Replies(config, [runt, solicitation]) == [ProcessFrame(config, solicitation).frame]
  {
    ReplyIff(config, solicitation);
    assert [runt, solicitation][1..] == [solicitation];
    RepliesSingle(config, solicitation);
  }

  /** Apart from panics the two agree: with no aborting frame the thread as
      written sends exactly the replies of the corrected processor. */
  lemma {:induction false} AsWrittenWithoutPanics(config: Configuration, frames: seq<seq<byte>>)
    requires forall i :: 0 <= i < |frames| ==> !ProcessFrame(config, frames[i]).Aborted?
    ensures RepliesAsWritten(config, frames) == Replies(config, frames)
  {
    if frames != [] {
      assert !ProcessFrame(config, frames[0]).Aborted?;
      AsWrittenWithoutPanics(config, frames[1..]);
    }
  }

  // The concrete exchange: prefix 2001:db8::/64, proxy MAC 02:00:00:00:00:01,
  // a solicitation from aa:bb:cc:dd:ee:ff / fe80::1.

  const ExampleMac: MacAddr := [0x02, 0x00, 0x00, 0x00, 0x00, 0x01]
  const ExamplePrefix: Ipv6Addr := [0x20, 0x01, 0x0d, 0xb8] + Zeros(12)
  const ExampleConfig: Configuration := Configuration(ExampleMac, ExamplePrefix, 64)
  const PeerMac: MacAddr := [0xaa, 0xbb, 0xcc, 0xdd, 0xee, 0xff]
  const PeerAddr: Ipv6Addr := [0xfe, 0x80] + Zeros(13) + [0x01]
  /** 2001:db8::1, inside the prefix. */
  const InsideTarget: Ipv6Addr := [0x20, 0x01, 0x0d, 0xb8] + Zeros(11) + [0x01]
  /** 2001:db9::1, outside the prefix. */
  const OutsideTarget: Ipv6Addr := [0x20, 0x01, 0x0d, 0xb9] + Zeros(11) + [0x01]

  /** A Neighbor Solicitation for `target` from the example peer, sent to
      the target's solicited-node multicast group. Its checksum field is
      left zero: the proxy does not read it. */
  function ExampleSolicitation(target: Ipv6Addr): seq<byte>
  {
    var group: Ipv6Addr := [0xff, 0x02] + Zeros(9) + [0x01, 0xff] + target[13..];
    var groupMac: MacAddr := [0x33, 0x33] + group[12..];
    EthernetHeader(groupMac, PeerMac, ETHERTYPE_IPV6)
      + Ipv6Header(SOLICIT_LEN, NEXT_HEADER_ICMPV6, NDP_HOP_LIMIT, PeerAddr, group)
      + [NEIGHBOR_SOLICIT, 0, 0, 0, 0, 0, 0, 0] + target
  }

  lemma ExampleSolicitationFields(target: Ipv6Addr)
    ensures var f := ExampleSolicitation(target);
      HasNeighborMessage(f) && EthSource(f) == PeerMac && EtherType(f) == ETHERTYPE_IPV6 &&
      Ipv6NextHeader(f) == NEXT_HEADER_ICMPV6 && Ipv6Source(f) == PeerAddr &&
      Icmpv6Type(f) == NEIGHBOR_SOLICIT && NeighborTarget(f) == target
  {
    var f := ExampleSolicitation(target);
    assert f[6..12] == PeerMac;
    assert f[22..38] == PeerAddr;
    assert f[62..78] == target;
  }

  /** A solicitation for 2001:db8::1 is answered from 02:00:00:00:00:01 to
      aa:bb:cc:dd:ee:ff, from 2001:db8::1 to fe80::1, Solicited and Override. */
  lemma ExampleInsidePrefix()
    ensures var o := ProcessFrame(ExampleConfig, ExampleSolicitation(InsideTarget));
      o.Reply? &&
      EthSource(o.frame) == ExampleMac && EthDestination(o.frame) == PeerMac &&
      Ipv6Source(o.frame) == InsideTarget && Ipv6Destination(o.frame) == PeerAddr &&
      AdvertFlags(o.frame) == Or(FLAG_SOLICITED, FLAG_OVERRIDE)
  {
    var f := ExampleSolicitation(InsideTarget);
    ExampleSolicitationFields(InsideTarget);
    assert Masked(ExamplePrefix, 64) == Masked(InsideTarget, 64);
    MaskMatchIff(ExamplePrefix, InsideTarget, 64);
    ReplyContents(ExampleConfig, f);
  }

  /** A solicitation for 2001:db9::1 is not answered. */
  lemma ExampleOutsidePrefix()
    ensures ProcessFrame(ExampleConfig, ExampleSolicitation(OutsideTarget)) == Skipped(OutsidePrefix)
  {
    ExampleSolicitationFields(OutsideTarget);
    assert Masked(ExamplePrefix, 64)[3] != Masked(OutsideTarget, 64)[3];
  }
}
