/** Prefix masking of IPv6 addresses (`mask_ipv6_addr`) and the prefix-match
    test built from it. Bits are numbered from the most significant bit of
    the first octet, so bit `k` of an address is bit `k % 8` of octet `k / 8`. */
module Mask {
  import opened Bytes
  import opened Bits

  /** Bit `j` of an octet, counting from the most significant bit (0x80). */
  predicate BitOf(b: byte, j: nat)
    requires j < 8
  {
    Bit(b, 7 - j)
  }

  /** Bit `k` of an address, counting from the most significant bit. */
  predicate AddrBit(a: Ipv6Addr, k: nat)
    requires k < 128
  {
    BitOf(a[k / 8], k % 8)
  }

  /** The first `len` bits of `p` and `t` agree: `t` lies in `p/len`. */
  predicate SamePrefix(p: Ipv6Addr, t: Ipv6Addr, len: nat)
    requires len <= 128
  {
    forall k :: 0 <= k < len ==> AddrBit(p, k) == AddrBit(t, k)
  }

  /** The octet at a prefix boundary that falls inside it, computed as the
      source does, `b & (0xff << (8 - r))` on `u8` (bits shifted past bit 7
      are dropped). It keeps the top `r` bits and clears the others. */
  function KeepTopBits(b: byte, r: nat): (m: byte)
    requires 0 < r < 8
    ensures forall j :: 0 <= j < 8 ==> BitOf(m, j) == (j < r && BitOf(b, j))
  {
    var m := And(b, Shl8(0xFF, 8 - r));
    forall j | 0 <= j < 8
      ensures BitOf(m, j) == (j < r && BitOf(b, j))
    {
      AndBit(b, Shl8(0xFF, 8 - r), 7 - j);
      HighMaskBits(8 - r, 7 - j);
    }
    m
  }

  /** The address `a` with every bit from position `len` on cleared, octet by
      octet: whole prefix octets copied, the boundary octet cut, the rest zero. */
  function Masked(a: Ipv6Addr, len: nat): Ipv6Addr
    requires len <= 128
  {
    seq(16, i requires 0 <= i < 16 =>
      if i < len / 8 then a[i]
      else if i == len / 8 && len % 8 != 0 then KeepTopBits(a[i], len % 8)
      else 0)
  }

  /** `mask_ipv6_addr`: a zeroed 16-octet buffer, a loop copying the
      `prefixLength / 8` whole octets, then the cut boundary octet. A length
      above 128 would index past the buffer, so the caller must rule it out. */
  method MaskAddress(addr: Ipv6Addr, prefixLength: u8) returns (result: Ipv6Addr)
    requires prefixLength <= 128
    ensures forall i :: 0 <= i < prefixLength / 8 ==> result[i] == addr[i]
    ensures prefixLength % 8 != 0 ==>
      result[prefixLength / 8] == And(addr[prefixLength / 8], Shl8(0xFF, 8 - prefixLength % 8))
    ensures forall i :: (prefixLength + 7) / 8 <= i < 16 ==> result[i] == 0
    ensures result == Masked(addr, prefixLength)
  {
    var buf := new byte[16](_ => 0);
    var i := 0;
    while i < prefixLength / 8
      invariant 0 <= i <= prefixLength / 8
      invariant forall k :: 0 <= k < i ==> buf[k] == addr[k]
      invariant forall k :: i <= k < 16 ==> buf[k] == 0
    {
      buf[i] := addr[i];
      i := i + 1;
    }
    if prefixLength % 8 != 0 {
      buf[i] := KeepTopBits(addr[i], prefixLength % 8);
    }
    result := buf[..];
  }

  /** Masking keeps exactly the bits before `len` and clears every other bit. */
  lemma MaskedBits(a: Ipv6Addr, len: nat)
    requires len <= 128
    ensures forall k :: 0 <= k < 128 ==> AddrBit(Masked(a, len), k) == (k < len && AddrBit(a, k))
  {
    var m := Masked(a, len);
    forall k | 0 <= k < 128
      ensures AddrBit(m, k) == (k < len && AddrBit(a, k))
    {
      var i, j := k / 8, k % 8;
      if i < len / 8 {
        assert k < len;
      } else if i == len / 8 && len % 8 != 0 {
        assert m[i] == KeepTopBits(a[i], len % 8);
        assert (j < len % 8) == (k < len);
      } else {
        assert m[i] == 0;
        assert len <= k;
        ZeroHasNoBits(7 - j);
      }
    }
  }

  /** An octet is determined by its eight bits. */
  lemma OctetFromBits(b: byte, c: byte)
    requires forall j :: 0 <= j < 8 ==> BitOf(b, j) == BitOf(c, j)
    ensures b == c
  {
    forall i | 0 <= i < 8
      ensures Bit(b, i) == Bit(c, i)
    {
      assert BitOf(b, 7 - i) == BitOf(c, 7 - i);
    }
    assert Pow2(8) == 256;
    BitsDetermine(b, c, 8);
  }

  /** An address is determined by its 128 bits. */
  lemma AddressFromBits(a: Ipv6Addr, b: Ipv6Addr)
    requires forall k :: 0 <= k < 128 ==> AddrBit(a, k) == AddrBit(b, k)
    ensures a == b
  {
    forall i | 0 <= i < 16
      ensures a[i] == b[i]
    {
      forall j | 0 <= j < 8
        ensures BitOf(a[i], j) == BitOf(b[i], j)
      {
        var k := 8 * i + j;
        assert k / 8 == i && k % 8 == j;
        assert AddrBit(a, k) == AddrBit(b, k);
      }
      OctetFromBits(a[i], b[i]);
    }
  }

  /** Length 0 masks everything away (every address matches); length 128
      keeps the address whole. */
  lemma MaskBoundaries(a: Ipv6Addr)
    ensures Masked(a, 0) == Zeros(16)
    ensures Masked(a, 128) == a
  {
    assert Masked(a, 128) == a by {
      forall i | 0 <= i < 16
        ensures Masked(a, 128)[i] == a[i]
      {
      }
    }
  }

  /** Masking twice with the same length is masking once. */
  lemma MaskIdempotent(a: Ipv6Addr, len: nat)
    requires len <= 128
    ensures Masked(Masked(a, len), len) == Masked(a, len)
  {
    var m := Masked(a, len);
    MaskedBits(a, len);
    MaskedBits(m, len);
    AddressFromBits(Masked(m, len), m);
  }

  /** The test the proxy applies, equal masks of prefix and target, holds
      exactly when the first `len` bits of the two addresses agree. */
  lemma MaskMatchIff(p: Ipv6Addr, t: Ipv6Addr, len: nat)
    requires len <= 128
    ensures Masked(p, len) == Masked(t, len) <==> SamePrefix(p, t, len)
  {
    MaskedBits(p, len);
    MaskedBits(t, len);
    if SamePrefix(p, t, len) {
      AddressFromBits(Masked(p, len), Masked(t, len));
    } else {
      var k :| 0 <= k < len && AddrBit(p, k) != AddrBit(t, k);
      assert AddrBit(Masked(p, len), k) != AddrBit(Masked(t, len), k);
    }
  }
}
