# proxy-ndp: a verified model of the Neighbor Discovery proxy's packet processor

proxy-ndp answers IPv6 Neighbor Solicitations on behalf of every address in a
configured prefix. For each inbound Ethernet frame it checks four things: the
ethertype is IPv6, the next header is ICMPv6, the message is a Neighbor
Solicitation, and the solicited target lies inside the prefix. If all four hold,
it sends one Neighbor Advertisement that binds the target to a configured MAC
address.

This Dafny project models that per-frame filter-and-transform in
`src/main.rs`. The modules are:

- `Bytes` (bytes.dfy): Rust's `u8` as the integers 0..255, used both for the
  octets of a frame and for the prefix length. Also 16-octet IPv6 addresses,
  6-octet MAC addresses, and big-endian 16- and 32-bit encodings.
- `Bits` (bits.dfy): `&`, `|` and `<<` on `u8` as the source uses them, and
  `>>` to read the version nibble back, all defined on the numeric value of
  an octet. Facts about single bits that the masking proofs need.
- `Mask` (mask.dfy): `mask_ipv6_addr` as a method with a loop over a 16-octet
  array, the specification function `Masked`, and a bit-level account of what
  masking keeps and clears.
- `Checksum` (checksum.dfy): the ICMPv6 checksum (section 2.3 of RFC 4443) over
  the IPv6 pseudo-header (section 8.1 of RFC 8200). It is computed the RFC 1071
  way, as a wide sum with the carries folded back in, and proved equal to
  word-by-word one's-complement addition. A message that carries its computed
  checksum passes the receiver's check.
- `Layout` (layout.dfy): read-only views of the fixed fields of Ethernet, IPv6
  (section 3 of RFC 8200) and Neighbor Discovery messages (sections 4.3 and 4.4
  of RFC 4861), each at its offset from the start of the frame.
- `Advertisement` (advertisement.dfy): the reply. `AdvertisementFrame` defines
  it as a stack of layers. `BuildAdvertisement` writes it field by field into a
  zeroed 86-octet array, as the source does, and is proved to produce exactly
  `AdvertisementFrame`.
- `Processor` (processor.dfy): the configuration, the outcome of one frame
  (`ProcessFrame`, with the method `ProcessEthernet` that follows the source's
  control flow), and the processor thread's loop over a run of frames.

The source never parses the Ethernet, IPv6 or ICMPv6 layers with a recoverable
error. Each `unwrap`/`expect` on a too-short buffer is a panic. The model makes
each one an explicit `Aborted` outcome that sends no reply:

| outcome | frame length | source line |
|---|---|---|
| `ShortEthernetFrame` | fewer than 14 octets | 181 |
| `BadEthernetPayload` | fewer than 54 octets | 130 |
| `BadIcmpv6Payload` | fewer than 58 octets | 133 |
| `BadNdpPayload` | fewer than 78 octets | 135 |

The prefix length is a `u8` that is never range-checked (lines 55-56). With a
length above 128, `mask_ipv6_addr` indexes past its 16-octet buffer. This is a
panic, and it happens only once a frame has passed every check before the mask
at line 141. It is modelled as the outcome `PrefixLengthOutOfRange` at that same
point. The usage text gives no range for the length, and the code never
checks it; the model follows the code.

Frames are finite octet sequences, and the threads and queues are left out. The
processor thread is modelled as a loop that takes a finite sequence of inbound
frames and appends the replies to an outbound sequence, in order.

## Model

| member | source | states |
|---|---|---|
| `Bytes.U16Be` | src/main.rs:146 | the two octets of a 16-bit value, most significant first, read back as that value |
| `Bytes.U32Be` | src/main.rs:168 | the four octets of a 32-bit value, most significant first, read back as that value |
| `Bits.AndBit` | src/main.rs:124 | a bit of `a & b` is set exactly when it is set in both operands |
| `Bits.OrBit` | src/main.rs:164 | a bit of the bitwise or of `a` and `b` is set exactly when it is set in either operand |
| `Bits.HighMaskBits` | src/main.rs:124 | for every shift k up to 8, the model's `Shl8(0xff, k)`, which is Rust's `u8 <<` for k below 8, has exactly the bits k through 7 set |
| `Bits.BitsDetermine` | src/main.rs:116-127 | a number below 2^n is determined by its bits 0..n-1 |
| `Mask.KeepTopBits` | src/main.rs:123-125 | `b & (0xff << (8 - r))` on `u8` keeps bits 0..r-1 (from the top) of the octet and clears the other 8 - r |
| `Mask.MaskAddress` | src/main.rs:116-127 | for a length L ≤ 128: octets before L/8 are copied unchanged; if L mod 8 ≠ 0, octet L/8 is `addr[L/8] & (0xff << (8 - L mod 8))`; every later octet is 0; the result equals `Masked(addr, L)` |
| `Mask.MaskedBits` | src/main.rs:116-127 | every bit of the masked address at a position < L equals the address's bit, and every bit at a position ≥ L is 0 |
| `Mask.MaskBoundaries` | src/main.rs:116-127 | masking with length 0 gives the all-zero address; masking with length 128 gives the address itself |
| `Mask.MaskIdempotent` | src/main.rs:116-127 | masking twice with the same length gives the same result as masking once |
| `Mask.MaskMatchIff` | src/main.rs:141-143 | `mask(prefix, L) == mask(target, L)` holds exactly when the first L bits of prefix and target agree, in both directions |
| `Checksum.Words` | src/main.rs:168 | the message read as ⌈n/2⌉ 16-bit words, each below 2^16 |
| `Checksum.Fold` | src/main.rs:168 | folding carries gives a 16-bit value that is congruent to the sum modulo 2^16 - 1 and is zero exactly when the sum is zero |
| `Checksum.OnesAdd` | src/main.rs:168 | one's-complement addition stays within 16 bits, is congruent to the plain sum modulo 2^16 - 1, and is zero only for 0 + 0 |
| `Checksum.OnesSum` | src/main.rs:168 | the one's-complement sum of a word sequence is 16-bit, congruent to the plain sum modulo 2^16 - 1, and zero exactly when the plain sum is zero |
| `Checksum.PseudoHeader` | src/main.rs:168 | pseudo-header of RFC 8200 section 8.1: 40 octets holding source, destination, the 32-bit upper-layer length, three zero octets and the next header |
| `Checksum.WithChecksum` | src/main.rs:167-168 | storing a checksum keeps the message's length, and octets 2 and 3 then read back as that checksum |
| `Checksum.WithChecksumOthers` | src/main.rs:167-168 | storing a checksum leaves every octet other than 2 and 3 unchanged |
| `Checksum.Icmpv6Checksum` | src/main.rs:168 | the checksum is a 16-bit value (its meaning is stated by `ChecksumValidates`) |
| `Checksum.FoldIsOnesSum` | src/main.rs:168 | the carry-folding computation equals word-by-word one's-complement addition on every word sequence |
| `Checksum.ChecksumFieldSum` | src/main.rs:168 | over the pseudo-header and the message, a checksum value c in the field adds c to the word sum taken with the field zero, and that sum is at least 58 |
| `Checksum.AllOnes` | src/main.rs:168 | a word sum that is a positive multiple of 2^16 - 1 has one's-complement sum 0xFFFF |
| `Checksum.ChecksumValidates` | src/main.rs:167-168 | a message carrying its computed checksum re-sums with its pseudo-header (next header 58) to 0xFFFF |
| `Advertisement.AdvertisementFields` | src/main.rs:144-166 | the reply is 86 octets, and its fields read back through the views (see the list below this table) |
| `Advertisement.EthernetFields` | src/main.rs:145-148 | a frame that starts with the reply's Ethernet header reads back its destination, source and ethertype 0x86DD |
| `Advertisement.Ipv6Fields` | src/main.rs:149-155 | a frame holding the reply's IPv6 header at octets 14..54 reads back version 6, zero traffic class and flow label, payload length 32, next header 58, hop limit 255, and its source and destination |
| `Advertisement.MessageFields` | src/main.rs:161-166 | a frame holding the Advertisement at octets 54..86 reads back type 136, code 0, flags 0x60 with Router clear and Solicited and Override set, zero reserved octets, the target, the option, and the checksum it was built with in the checksum field |
| `Advertisement.FlagValues` | src/main.rs:164 | the bitwise or of Solicited and Override is 0x60, and in it the Router bit is clear and the Solicited and Override bits are set |
| `Advertisement.AdvertChecksumField` | src/main.rs:167-168 | storing checksum c into the message built with a zero checksum gives the message built with c |
| `Advertisement.AdvertisementChecksumValid` | src/main.rs:167-168 | the reply's ICMPv6 payload is 32 octets and its checksum verifies against the reply's own IPv6 source and destination |
| `Advertisement.SetBytes` | src/main.rs:147-148 | a field setter: the value lands at its offset, and every other octet is unchanged |
| `Advertisement.WriteEthernetHeader` | src/main.rs:145-148 | octets 0..14 become destination, source and ethertype 0x86DD; the rest is unchanged |
| `Advertisement.WriteIpv6Header` | src/main.rs:149-155 | on a zeroed header, octets 14..54 become version 6, zero traffic class and flow label, payload length 32, next header 58, hop limit 255, source, destination |
| `Advertisement.BuildOption` | src/main.rs:156-160 | the 8-octet option buffer holds type 2, length 1 and the MAC |
| `Advertisement.WriteAdvertMessage` | src/main.rs:161-166 | on a zeroed message, octets 54..86 become the Advertisement with a zero checksum; the headers are unchanged |
| `Advertisement.WriteChecksum` | src/main.rs:167-168 | the checksum is stored at message octets 2..4, and nothing else changes |
| `Advertisement.BuildAdvertisement` | src/main.rs:144-168 | filling the zeroed 86-octet buffer in the source's order produces exactly `AdvertisementFrame` |
| `Processor.ProcessEthernet` | src/main.rs:129-186 | the imperative pipeline (loop-based mask, buffer-built reply) yields exactly the outcome `ProcessFrame` assigns to the frame |
| `Processor.ReplyIff` | src/main.rs:129-186 | a reply is produced exactly when the frame has at least 78 octets, ethertype 0x86DD, next header 58, ICMPv6 type 135, L ≤ 128, and a target that agrees with the prefix on its first L bits; otherwise there is no reply |
| `Processor.ReplyContents` | src/main.rs:137-170 | the reply to a proxied solicitation matches the field list below this table, with every field taken from the inbound frame or the configuration |
| `Processor.NeverAnswersAdvertisements` | src/main.rs:134 | no frame carrying a Neighbor Advertisement (ICMPv6 type 136), from any host and with any flags, options or length, gets a reply; one that arrives as ICMPv6 in IPv6 is skipped as not a Solicitation |
| `Processor.IgnoresAdvertisements` | src/main.rs:134 | every frame in the proxy's own reply layout is skipped as not a Solicitation, so the proxy never answers itself |
| `Processor.ReplyOf` | src/main.rs:170 | one frame gives at most one reply, and gives one exactly when its outcome is a reply |
| `Processor.RepliesConcat` | src/main.rs:94-98 | the processor keeps no state: the replies to two runs of frames are the replies to each run, in order |
| `Processor.RepliesCount` | src/main.rs:94-98 | the number of replies equals the number of frames that must be answered, so it is at most the number of frames |
| `Processor.DroppedFrameHarmless` | src/main.rs:94-98 | a frame with no reply, whether skipped or malformed, leaves the replies to the frames around it unchanged |
| `Processor.RunProcessor` | src/main.rs:94-98 | the processor loop over a run of frames sends exactly `Replies(config, frames)` |
| `Processor.RuntFrameSilencesProxy` | src/main.rs:94-98 | as written, one frame shorter than 14 octets makes a later solicitation go unanswered; dropping the bad frame answers it |
| `Processor.AsWrittenWithoutPanics` | src/main.rs:94-98 | with no aborting frame, the thread as written sends the same replies as the corrected loop |
| `Processor.ExampleInsidePrefix` | src/main.rs:141-168 | example: 2001:db8::/64 with proxy MAC 02:00:00:00:00:01; a solicitation for 2001:db8::1 from aa:bb:cc:dd:ee:ff / fe80::1 gets a reply with those addresses and flags S+O |
| `Processor.ExampleOutsidePrefix` | src/main.rs:141-143 | example: with the same configuration, a solicitation for 2001:db9::1 is skipped as outside the prefix |

Each row's "states" column is a summary of the member's contract. Two of the
rows cover more fields than fit in a cell.

`Advertisement.AdvertisementFields` reads these fields back from the 86-octet
reply:

- Ethernet: destination is the peer MAC, source is the proxy MAC, ethertype is
  0x86DD.
- IPv6: version 6, zero traffic class and flow label, payload length 32, next
  header 58, hop limit 255, source is the target, destination is the peer
  address.
- Advertisement: type 136, code 0, flags 0x60 (Router clear, Solicited and
  Override set), zero reserved octets, the target, and the option 2, 1
  followed by the MAC. The checksum field holds the checksum of the message
  built with a zero checksum field, over the pseudo-header from the target
  to the peer address.

`Processor.ReplyContents` states that the reply to a proxied solicitation has
these fields:

- The length is 86 octets.
- The Ethernet destination is the inbound Ethernet source.
- The Ethernet source is the configured MAC.
- The ethertype is 0x86DD.
- IPv6: version 6, zero traffic class and flow label, payload length 32, next
  header 58, hop limit 255.
- The IPv6 source is the solicited target.
- The IPv6 destination is the inbound IPv6 source.
- The Advertisement carries type 136, code 0, flags Solicited|Override, zero
  reserved octets, the same target, and the option 2, 1 followed by the MAC.
- The checksum field holds the checksum of that message with a zero checksum
  field, over the pseudo-header from the solicited target to the inbound IPv6
  source.
- The checksum verifies.

## Left out

- Argument parsing, the usage message and the parse errors of `main`
  (src/main.rs:41-59): one-shot startup glue. The model takes a
  `Configuration` as given.
- Interface lookup and datalink channel creation (src/main.rs:60-71): calls
  into the OS and a foreign library.
- The receiver and sender threads, the two `mpsc` queues, the `Mutex`
  wrappers and `join` (src/main.rs:72-113): concurrency and transport I/O. The
  processor thread is modelled as a loop over a finite sequence of frames. A
  sequence preserves order, as the FIFO queues do.
- `rx0.next()` and `tx0.send_to` (src/main.rs:80, 107): transport I/O.
- The `println!` diagnostics (src/main.rs:136, 169): logging only.
- The packet library's internals, which are not part of this model. Names of
  layers and minimum sizes follow RFC 8200 and RFC 4861.
  - The IPv6 payload is taken to be every octet after the 40-octet header. The
    library's bounding of the payload by the declared payload-length field is
    not modelled.
  - The library skips the checksum word when summing. The model instead sums
    the message with that field set to zero, which gives the same result.
  - The library adds the upper-layer length as a single number. The model adds
    it as two 16-bit words, which gives the same result for lengths below
    2^16.
- The process-abort semantics of a panic. Each panic point is an `Aborted`
  outcome with no reply. `RepliesAsWritten` models only what this means for
  later frames, which is that none of them is answered.
- `Checksum.Icmpv6Checksum`: its own contract only bounds the value to 16
  bits. What the checksum means is stated by `Checksum.ChecksumValidates` and
  `Advertisement.AdvertisementChecksumValid`.
- The Neighbor Solicitation's own checksum, hop limit, destination and options
  are not checked by the source, so the model does not read them either.

## Findings

| source | as written | input that shows it | evidently intended | confidence | as-written member | corrected member |
|---|---|---|---|---|---|---|
| src/main.rs:94-98, 130, 133, 135, 181 | a frame too short for any layer makes `unwrap`/`expect` panic inside the processor thread's loop; the thread ends and no later frame is processed | a 10-octet frame followed by a Neighbor Solicitation for an address inside the prefix: no reply is ever sent | drop the malformed frame and go on with the next one | medium, not executed | `Processor.RepliesAsWritten`, shown by `Processor.RuntFrameSilencesProxy` | `Processor.Replies` with `Processor.RunProcessor` and `Processor.DroppedFrameHarmless` |
