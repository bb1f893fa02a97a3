/** Octets, fixed-size addresses and big-endian 16-bit words: the value types
    that every layer of the Neighbor Discovery proxy is built from. */
module Bytes {

  /** Rust `u8`: an octet of a frame, or a small number such as the
      configured prefix length. Its bit operators are in module `Bits`. */
  type u8 = x: int | 0 <= x < 256

  /** One octet of a frame. */
  type byte = u8

  /** A 128-bit IPv6 address as its 16 octets in network order. */
  type Ipv6Addr = s: seq<byte> | |s| == 16 witness Zeros(16)

  /** A 48-bit Ethernet MAC address as its 6 octets. */
  type MacAddr = s: seq<byte> | |s| == 6 witness Zeros(6)

  /** `n` zero octets. */
  function Zeros(n: nat): (z: seq<byte>)
    ensures |z| == n
    ensures forall i :: 0 <= i < n ==> z[i] == 0
  {
    seq(n, _ => 0)
  }

  /** The 16-bit value of the big-endian octet pair `hi`, `lo`. */
  function Word(hi: byte, lo: byte): (w: nat)
    ensures w < 0x10000
  {
    hi * 256 + lo
  }

  /** The two octets of a 16-bit value, most significant first. */
  function U16Be(w: nat): (s: seq<byte>)
    requires w < 0x10000
    ensures |s| == 2 && s[0] as int * 256 + s[1] as int == w
  {
    [w / 256, w % 256]
  }

  /** The four octets of a 32-bit value, most significant first. */
  function U32Be(w: nat): (s: seq<byte>)
    requires w < 0x1_0000_0000
    ensures |s| == 4
    ensures s[0] as int * 0x100_0000 + s[1] as int * 0x1_0000 + s[2] as int * 0x100 + s[3] as int == w
  {
    U16Be(w / 0x10000) + U16Be(w % 0x10000)
  }
}
