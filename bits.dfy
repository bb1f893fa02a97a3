/** The Rust `u8` bit operators `&`, `|` and `<<` as the proxy uses them,
    and `>>` to read the IPv6 version nibble back, defined on the numeric
    value of an octet, together with the facts about single bits that the
    masking proofs need. Bits are numbered here from the least significant
    bit, position 0. */
module Bits {

  function Pow2(n: nat): (p: nat)
    ensures p >= 1
  {
    if n == 0 then 1 else 2 * Pow2(n - 1)
  }

  /** Bit `n` of `x`, counting from the least significant bit. */
  predicate Bit(x: nat, n: nat)
  {
    if n == 0 then x % 2 == 1 else Bit(x / 2, n - 1)
  }

  /** `a & b`. */
  function And(a: nat, b: nat): (r: nat)
    ensures r <= a && r <= b
    decreases a
  {
    if a == 0 || b == 0 then 0
    else 2 * And(a / 2, b / 2) + (if a % 2 == 1 && b % 2 == 1 then 1 else 0)
  }

  /** `a | b`. */
  function Or(a: nat, b: nat): (r: nat)
    ensures a <= r && b <= r && r <= a + b
    decreases a
  {
    if a == 0 then b
    else if b == 0 then a
    else 2 * Or(a / 2, b / 2) + (if a % 2 == 1 || b % 2 == 1 then 1 else 0)
  }

  /** `x << n` on `u8` for a shift `n` below 8 (the only shifts the proxy
      makes): bits shifted past bit 7 are dropped. */
  function Shl8(x: nat, n: nat): (r: nat)
    ensures r < 256
  {
    (x * Pow2(n)) % 256
  }

  /** `x >> n`. */
  function Shr(x: nat, n: nat): (r: nat)
    ensures r <= x
  {
    if n == 0 then x else Shr(x / 2, n - 1)
  }

  /** Zero has no bit set. */
  lemma {:induction false} ZeroHasNoBits(n: nat)
    ensures !Bit(0, n)
  {
    if n > 0 {
      ZeroHasNoBits(n - 1);
    }
  }

  /** A bit of `a & b` is set exactly when it is set in both. */
  lemma {:induction false} AndBit(a: nat, b: nat, n: nat)
    ensures Bit(And(a, b), n) == (Bit(a, n) && Bit(b, n))
    decreases n
  {
    if a == 0 || b == 0 {
      ZeroHasNoBits(n);
    } else if n > 0 {
      var c := if a % 2 == 1 && b % 2 == 1 then 1 else 0;
      assert And(a, b) / 2 == And(a / 2, b / 2) by {
        assert And(a, b) == 2 * And(a / 2, b / 2) + c;
      }
      AndBit(a / 2, b / 2, n - 1);
    }
  }

  /** A bit of `a | b` is set exactly when it is set in either. */
  lemma {:induction false} OrBit(a: nat, b: nat, n: nat)
    ensures Bit(Or(a, b), n) == (Bit(a, n) || Bit(b, n))
    decreases n
  {
    if a == 0 {
      ZeroHasNoBits(n);
    } else if b == 0 {
      ZeroHasNoBits(n);
    } else if n > 0 {
      var c := if a % 2 == 1 || b % 2 == 1 then 1 else 0;
      assert Or(a, b) / 2 == Or(a / 2, b / 2) by {
        assert Or(a, b) == 2 * Or(a / 2, b / 2) + c;
      }
      OrBit(a / 2, b / 2, n - 1);
    }
  }

  /** A number below `2^n` is determined by its bits `0 .. n - 1`. */
  lemma {:induction false} BitsDetermine(x: nat, y: nat, n: nat)
    requires x < Pow2(n) && y < Pow2(n)
    requires forall i :: 0 <= i < n ==> Bit(x, i) == Bit(y, i)
    ensures x == y
    decreases n
  {
    if n > 0 {
      assert Bit(x, 0) == Bit(y, 0);
      forall i | 0 <= i < n - 1
        ensures Bit(x / 2, i) == Bit(y / 2, i)
      {
        assert Bit(x, i + 1) == Bit(y, i + 1);
      }
      BitsDetermine(x / 2, y / 2, n - 1);
    }
  }

  /** The bits of `x = 2^w - 2^k` are exactly the positions `k .. w - 1`. */
  lemma {:induction false} RangeBits(w: nat, k: nat, x: nat, n: nat)
    requires k <= w && x + Pow2(k) == Pow2(w)
    ensures Bit(x, n) == (k <= n < w)
    decreases w
  {
    if k == w {
      ZeroHasNoBits(n);
    } else if k > 0 {
      assert x == 2 * (Pow2(w - 1) - Pow2(k - 1));
      if n > 0 {
        RangeBits(w - 1, k - 1, x / 2, n - 1);
      }
    } else {
      // 2^w - 1: every bit below w is set.
      assert x == 2 * (Pow2(w - 1) - 1) + 1;
      if n > 0 {
        RangeBits(w - 1, 0, x / 2, n - 1);
      }
    }
  }

  /** `0xff << k` on `u8` has exactly the bits `k .. 7` set. */
  lemma HighMaskBits(k: nat, n: nat)
    requires k <= 8
    ensures Bit(Shl8(0xFF, k), n) == (k <= n < 8)
  {
    var p := Pow2(k);
    PowMonotone(k, 8);
    assert Pow2(8) == 256;
    assert 0xFF * p == 256 * (p - 1) + (256 - p);
    if k == 8 {
      assert Shl8(0xFF, k) == 0;
      ZeroHasNoBits(n);
    } else {
      RangeBits(8, k, Shl8(0xFF, k), n);
    }
  }

  lemma {:induction false} PowMonotone(i: nat, j: nat)
    requires i <= j
    ensures Pow2(i) <= Pow2(j)
    decreases j
  {
    if i < j {
      PowMonotone(i, j - 1);
    }
  }
}
