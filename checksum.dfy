/** The ICMPv6 checksum of section 2.3 of RFC 4443: the 16-bit one's
    complement of the one's-complement sum of the IPv6 pseudo-header
    (section 8.1 of RFC 8200) and the ICMPv6 message. It is computed here as
    section 4.1 of RFC 1071 describes it, summing the words into a wide
    accumulator and then folding the carries back in, and is proved equal to
    the reference definition, word-by-word one's-complement addition. */
module Checksum {
  import opened Bytes
  import opened Layout

  /** One's-complement arithmetic on 16 bits is arithmetic modulo 2^16 - 1. */
  const M: nat := 0xFFFF

  /** The big-endian 16-bit words of `s`; an odd last octet is padded with a
      zero octet. */
  function Words(s: seq<byte>): (ws: seq<nat>)
    ensures |ws| == (|s| + 1) / 2
    ensures forall i :: 0 <= i < |ws| ==> ws[i] <= 0xFFFF
    decreases |s|
  {
    if |s| == 0 then []
    else if |s| == 1 then [s[0] as int * 256]
    else [s[0] as int * 256 + s[1] as int] + Words(s[2..])
  }

  /** Plain sum of the words. */
  function Sum(ws: seq<nat>): nat
  {
    if ws == [] then 0 else ws[0] + Sum(ws[1..])
  }

  /** End-around carry: while the accumulator has bits above bit 15, add them
      back in at bit 0. The folded value is a 16-bit word congruent to `x`
      modulo 2^16 - 1, and it is zero only if `x` is. */
  function Fold(x: nat): (r: nat)
    ensures r <= 0xFFFF
    ensures r % M == x % M
    ensures r == 0 <==> x == 0
    decreases x
  {
    if x <= 0xFFFF then x
    else
      FoldStep(x);
      Fold(x / 0x10000 + x % 0x10000)
  }

  /** One's-complement addition of two 16-bit words: a carry out of bit 15 is
      added back in at bit 0. */
  function OnesAdd(a: nat, b: nat): (r: nat)
    requires a <= 0xFFFF && b <= 0xFFFF
    ensures r <= 0xFFFF
    ensures r % M == (a + b) % M
    ensures r == 0 <==> a == 0 && b == 0
  {
    if a + b > 0xFFFF then a + b - 0x10000 + 1 else a + b
  }

  /** Reference definition: the one's-complement sum of a sequence of words. */
  function OnesSum(ws: seq<nat>): (r: nat)
    requires forall i :: 0 <= i < |ws| ==> ws[i] <= 0xFFFF
    ensures r <= 0xFFFF
    ensures r % M == Sum(ws) % M
    ensures r == 0 <==> Sum(ws) == 0
  {
    if ws == [] then 0
    else
      var rest := OnesSum(ws[1..]);
      ModSum(ws[0], rest, Sum(ws[1..]));
      OnesAdd(ws[0], rest)
  }

  /** The IPv6 pseudo-header of section 8.1 of RFC 8200: source address,
      destination address, 32-bit upper-layer packet length, three zero
      octets and the next-header value. */
  function PseudoHeader(src: Ipv6Addr, dst: Ipv6Addr, length: nat, nextHeader: byte): (h: seq<byte>)
    requires length < 0x1_0000_0000
    ensures |h| == 40
    ensures h[..16] == src && h[16..32] == dst && h[36..39] == [0, 0, 0] && h[39] == nextHeader
    ensures h[32] as int * 0x100_0000 + h[33] as int * 0x1_0000 + h[34] as int * 0x100 + h[35] as int == length
  {
    src + dst + U32Be(length) + [0, 0, 0, nextHeader]
  }

  /** The ICMPv6 message with `c` in its checksum field (octets 2 and 3). */
  function WithChecksum(message: seq<byte>, c: nat): (m: seq<byte>)
    requires |message| >= 4 && c <= 0xFFFF
    ensures |m| == |message|
    ensures m[2] as int * 256 + m[3] as int == c
  {
    message[..2] + U16Be(c) + message[4..]
  }

  /** Storing a checksum leaves every octet other than 2 and 3 as it was. */
  lemma WithChecksumOthers(message: seq<byte>, c: nat, i: nat)
    requires |message| >= 4 && c <= 0xFFFF
    requires i < |message| && i != 2 && i != 3
    ensures WithChecksum(message, c)[i] == message[i]
  {
    if i >= 4 {
      assert WithChecksum(message, c)[i] == message[4..][i - 4];
    }
  }

  /** `icmpv6::checksum(packet, source, destination)`: the one's complement
      of the folded sum of the pseudo-header and the message whose checksum
      field is taken as zero. */
  function Icmpv6Checksum(src: Ipv6Addr, dst: Ipv6Addr, message: seq<byte>): (c: nat)
    requires 4 <= |message| < 0x1_0000_0000
    ensures c <= 0xFFFF
  {
    M - Fold(Sum(Words(PseudoHeader(src, dst, |message|, NEXT_HEADER_ICMPV6) + WithChecksum(message, 0))))
  }

  /** What a receiver checks: the one's-complement sum of the pseudo-header
      and the message as received is all ones. */
  predicate ChecksumValid(src: Ipv6Addr, dst: Ipv6Addr, message: seq<byte>)
    requires |message| < 0x1_0000_0000
  {
    OnesSum(Words(PseudoHeader(src, dst, |message|, NEXT_HEADER_ICMPV6) + message)) == 0xFFFF
  }

  /** Folding the wide sum gives the one's-complement sum: the carry-folding
      computation agrees with word-by-word one's-complement addition. */
  lemma FoldIsOnesSum(ws: seq<nat>)
    requires forall i :: 0 <= i < |ws| ==> ws[i] <= 0xFFFF
    ensures Fold(Sum(ws)) == OnesSum(ws)
  {
    Canonical(Fold(Sum(ws)), OnesSum(ws));
  }

  /** A message carrying the checksum computed for it passes the receiver's
      check against the same pseudo-header. */
  lemma ChecksumValidates(src: Ipv6Addr, dst: Ipv6Addr, message: seq<byte>)
    requires 4 <= |message| < 0x1_0000_0000
    ensures ChecksumValid(src, dst, WithChecksum(message, Icmpv6Checksum(src, dst, message)))
  {
    var c := Icmpv6Checksum(src, dst, message);
    var p := PseudoHeader(src, dst, |message|, NEXT_HEADER_ICMPV6);
    var s0 := Sum(Words(p + WithChecksum(message, 0)));
    ChecksumFieldSum(src, dst, message, c);
    ModCancel(s0, Fold(s0));
    AllOnes(Words(p + WithChecksum(message, c)));
  }

  /** Over the pseudo-header and the message, the checksum field adds its
      value to the sum taken with the field zero, and that sum counts at
      least the pseudo-header's next-header word. */
  lemma ChecksumFieldSum(src: Ipv6Addr, dst: Ipv6Addr, message: seq<byte>, c: nat)
    requires 4 <= |message| < 0x1_0000_0000 && c <= 0xFFFF
    ensures Sum(Words(PseudoHeader(src, dst, |message|, NEXT_HEADER_ICMPV6) + WithChecksum(message, c)))
      == Sum(Words(PseudoHeader(src, dst, |message|, NEXT_HEADER_ICMPV6) + WithChecksum(message, 0))) + c
    ensures Sum(Words(PseudoHeader(src, dst, |message|, NEXT_HEADER_ICMPV6) + WithChecksum(message, 0))) >= 58
  {
    var p := PseudoHeader(src, dst, |message|, NEXT_HEADER_ICMPV6);
    SumSplit(p, WithChecksum(message, 0));
    SumSplit(p, WithChecksum(message, c));
    SumWithChecksum(message, 0);
    SumWithChecksum(message, c);
    PseudoHeaderSum(src, dst, |message|);
  }

  /** A word sum that is a positive multiple of 2^16 - 1 folds to all ones. */
  lemma AllOnes(ws: seq<nat>)
    requires forall i :: 0 <= i < |ws| ==> ws[i] <= 0xFFFF
    requires Sum(ws) % M == 0 && Sum(ws) > 0
    ensures OnesSum(ws) == 0xFFFF
  {
  }

  // Helper lemmas on words and sums

  /** Splitting an even-length prefix off splits the words. */
  lemma {:induction false} WordsConcat(a: seq<byte>, b: seq<byte>)
    requires |a| % 2 == 0
    ensures Words(a + b) == Words(a) + Words(b)
    decreases |a|
  {
    if |a| == 0 {
      assert a + b == b;
    } else {
      var w := a[0] as int * 256 + a[1] as int;
      assert (a + b)[2..] == a[2..] + b;
      assert (a + b)[0] == a[0] && (a + b)[1] == a[1];
      WordsConcat(a[2..], b);
      AppendAssoc([w], Words(a[2..]), Words(b));
    }
  }

  lemma AppendAssoc<T>(x: seq<T>, y: seq<T>, z: seq<T>)
    ensures x + (y + z) == (x + y) + z
  {
  }

  lemma WordsOfPair(a: seq<byte>)
    requires |a| == 2
    ensures Words(a) == [a[0] as int * 256 + a[1] as int]
  {
    assert a[2..] == [];
  }

  lemma {:induction false} SumConcat(a: seq<nat>, b: seq<nat>)
    ensures Sum(a + b) == Sum(a) + Sum(b)
  {
    if a == [] {
      assert a + b == b;
    } else {
      assert (a + b)[1..] == a[1..] + b;
      SumConcat(a[1..], b);
    }
  }

  /** The pseudo-header of an ICMPv6 message sums to at least its
      next-header word, 58. */
  lemma PseudoHeaderSum(src: Ipv6Addr, dst: Ipv6Addr, length: nat)
    requires length < 0x1_0000_0000
    ensures Sum(Words(PseudoHeader(src, dst, length, NEXT_HEADER_ICMPV6))) >= 58
  {
    var p := PseudoHeader(src, dst, length, NEXT_HEADER_ICMPV6);
    assert p == p[..38] + p[38..];
    WordsConcat(p[..38], p[38..]);
    WordsOfPair(p[38..]);
    SumConcat(Words(p[..38]), Words(p[38..]));
  }

  /** An even-length prefix contributes its own word sum. */
  lemma SumSplit(p: seq<byte>, m: seq<byte>)
    requires |p| % 2 == 0
    ensures Sum(Words(p + m)) == Sum(Words(p)) + Sum(Words(m))
  {
    WordsConcat(p, m);
    SumConcat(Words(p), Words(m));
  }

  /** The word sum of the message with `c` in its checksum field: the sum of
      its other words plus `c`. */
  lemma SumWithChecksum(message: seq<byte>, c: nat)
    requires |message| >= 4 && c <= 0xFFFF
    ensures Sum(Words(WithChecksum(message, c)))
      == message[0] as int * 256 + message[1] as int + c + Sum(Words(message[4..]))
  {
    var head, w, tail := message[..2], U16Be(c), message[4..];
    assert WithChecksum(message, c) == (head + w) + tail;
    WordsConcat(head + w, tail);
    WordsConcat(head, w);
    WordsOfPair(head);
    WordsOfPair(w);
    SumConcat(Words(head), Words(w));
    SumConcat(Words(head) + Words(w), Words(tail));
  }

  // Helper lemmas on arithmetic modulo M

  lemma FoldStep(x: nat)
    requires x > 0xFFFF
    ensures 0 < x / 0x10000 + x % 0x10000 < x
    ensures (x / 0x10000 + x % 0x10000) % M == x % M
  {
    var q, r := x / 0x10000, x % 0x10000;
    assert x == 0x10000 * q + r;
    assert q >= 1;
    ModAddMultiple(q + r, q);
    assert x == (q + r) + M * q;
  }

  lemma {:induction false} ModAddMultiple(y: nat, q: nat)
    ensures (y + M * q) % M == y % M
  {
    if q > 0 {
      ModAddMultiple(y, q - 1);
      assert y + M * q == (y + M * (q - 1)) + M;
    }
  }

  lemma ModSum(a: nat, b: nat, s: nat)
    requires b % M == s % M
    ensures (a + b) % M == (a + s) % M
  {
    var qb, qs := b / M, s / M;
    assert b == M * qb + b % M;
    assert s == M * qs + s % M;
    ModAddMultiple(a + b % M, qb);
    ModAddMultiple(a + s % M, qs);
    assert a + b == (a + b % M) + M * qb;
    assert a + s == (a + s % M) + M * qs;
  }

  lemma ModCancel(s: nat, f: nat)
    requires f <= M && f % M == s % M
    ensures (s + (M - f)) % M == 0
  {
    var q := s / M;
    assert s == M * q + s % M;
    ModAddMultiple(s % M + (M - f), q);
    assert s + (M - f) == (s % M + (M - f)) + M * q;
    if f == M {
      assert s % M == 0;
    } else {
      assert s % M == f;
    }
  }

  /** Two 16-bit values in one's-complement canonical form that are congruent
      modulo M and agree on being zero are equal. */
  lemma Canonical(a: nat, b: nat)
    requires a <= M && b <= M && a % M == b % M && (a == 0 <==> b == 0)
    ensures a == b
  {
  }
}
