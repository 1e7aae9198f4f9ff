/**
 * Bitwise arithmetic on naturals, formed from the least significant bit
 * upwards: the C and JavaScript operators `&`, `|`, `^`, `~`, `<<` and `>>`
 * on values that the callers keep inside a fixed width.
 */
module Bits {

  /** 2 raised to the power `k`, the value of `1 << k`. */
  function Pow2(k: nat): (p: nat)
    ensures p >= 1
  {
    if k == 0 then 1 else 2 * Pow2(k - 1)
  }

  /** The powers of two that delimit the fields of an instruction word and the width of a register. */
  lemma Pow2Values()
    ensures Pow2(2) == 4 && Pow2(3) == 8 && Pow2(4) == 16
    ensures Pow2(6) == 64 && Pow2(9) == 512 && Pow2(12) == 0x1000
    ensures Pow2(16) == 0x10000
  {
    assert Pow2(3) == 8;
    assert Pow2(6) == 64;
    assert Pow2(9) == 512;
    assert Pow2(12) == 0x1000;
  }

  /** Bit `k` of `x`, bit 0 being the least significant. */
  function Bit(x: nat, k: nat): bool
  {
    if k == 0 then x % 2 == 1 else Bit(x / 2, k - 1)
  }

  /** `x >> k`: the bits of `x` from bit `k` upwards. */
  function ShiftRight(x: nat, k: nat): nat
  {
    if k == 0 then x else ShiftRight(x / 2, k - 1)
  }

  /** `a | b`. */
  function NatOr(a: nat, b: nat): nat
    decreases a + b
  {
    if a == 0 then b
    else if b == 0 then a
    else 2 * NatOr(a / 2, b / 2) + (if a % 2 == 1 || b % 2 == 1 then 1 else 0)
  }

  /** `a & b`. */
  function NatAnd(a: nat, b: nat): nat
    decreases a + b
  {
    if a == 0 || b == 0 then 0
    else 2 * NatAnd(a / 2, b / 2) + (if a % 2 == 1 && b % 2 == 1 then 1 else 0)
  }

  /** `a ^ b`. */
  function NatXor(a: nat, b: nat): nat
    decreases a + b
  {
    if a == 0 then b
    else if b == 0 then a
    else 2 * NatXor(a / 2, b / 2) + (if (a % 2 == 1) != (b % 2 == 1) then 1 else 0)
  }

  /** `~x` on an unsigned value of `n` bits. */
  function Not(x: nat, n: nat): nat
    requires x < Pow2(n)
  {
    Pow2(n) - 1 - x
  }

  // ---------------------------------------------------------------------------
  // Each operator, bit by bit
  // ---------------------------------------------------------------------------

  lemma {:induction false} BitOfZero(k: nat)
    ensures !Bit(0, k)
  {
    if k > 0 {
      BitOfZero(k - 1);
    }
  }

  /** Shifting right by `k` and reading bit 0 reads bit `k`. */
  lemma {:induction false} ShiftRightBit(x: nat, k: nat)
    ensures Bit(x, k) == (ShiftRight(x, k) % 2 == 1)
  {
    if k > 0 {
      ShiftRightBit(x / 2, k - 1);
    }
  }

  lemma {:induction false} BitOfOr(a: nat, b: nat, k: nat)
    ensures Bit(NatOr(a, b), k) == (Bit(a, k) || Bit(b, k))
    decreases a + b
  {
    if a == 0 {
      BitOfZero(k);
    } else if b == 0 {
      BitOfZero(k);
    } else if k > 0 {
      var r := NatOr(a, b);
      assert r / 2 == NatOr(a / 2, b / 2);
      BitOfOr(a / 2, b / 2, k - 1);
    }
  }

  lemma {:induction false} BitOfAnd(a: nat, b: nat, k: nat)
    ensures Bit(NatAnd(a, b), k) == (Bit(a, k) && Bit(b, k))
    decreases a + b
  {
    if a == 0 || b == 0 {
      BitOfZero(k);
    } else if k > 0 {
      var r := NatAnd(a, b);
      assert r / 2 == NatAnd(a / 2, b / 2);
      BitOfAnd(a / 2, b / 2, k - 1);
    }
  }

  lemma {:induction false} BitOfXor(a: nat, b: nat, k: nat)
    ensures Bit(NatXor(a, b), k) == (Bit(a, k) != Bit(b, k))
    decreases a + b
  {
    if a == 0 {
      BitOfZero(k);
    } else if b == 0 {
      BitOfZero(k);
    } else if k > 0 {
      var r := NatXor(a, b);
      assert r / 2 == NatXor(a / 2, b / 2);
      BitOfXor(a / 2, b / 2, k - 1);
    }
  }

  /** `1 << j` has exactly bit `j` set. */
  lemma {:induction false} BitOfPow2(j: nat, k: nat)
    ensures Bit(Pow2(j), k) == (j == k)
  {
    if j == 0 {
      if k > 0 {
        BitOfZero(k - 1);
      }
    } else if k > 0 {
      assert Pow2(j) / 2 == Pow2(j - 1);
      BitOfPow2(j - 1, k - 1);
    }
  }

  /** A value below 2^n has no bit at or above `n`. */
  lemma {:induction false} BitAbove(x: nat, n: nat, k: nat)
    requires x < Pow2(n) && n <= k
    ensures !Bit(x, k)
  {
    if n == 0 {
      BitOfZero(k);
    } else {
      BitAbove(x / 2, n - 1, k - 1);
    }
  }

  /** `~x` on `n` bits flips each of the `n` low bits and has none above. */
  lemma {:induction false} BitOfNot(x: nat, n: nat, k: nat)
    requires x < Pow2(n)
    ensures Bit(Not(x, n), k) == (k < n && !Bit(x, k))
  {
    if n == 0 {
      BitOfZero(k);
    } else {
      var p := Pow2(n - 1);
      var y := Not(x, n);
      assert y == 2 * (p - 1 - x / 2) + (1 - x % 2);
      if k > 0 {
        assert y / 2 == Not(x / 2, n - 1);
        BitOfNot(x / 2, n - 1, k - 1);
      } else {
        assert y % 2 == 1 - x % 2;
      }
    }
  }

  /** Two values below 2^n that agree on their `n` low bits are equal. */
  lemma {:induction false} BitsDetermine(x: nat, y: nat, n: nat)
    requires x < Pow2(n) && y < Pow2(n)
    requires forall k: nat :: k < n ==> Bit(x, k) == Bit(y, k)
    ensures x == y
  {
    if n > 0 {
      assert Bit(x, 0) == Bit(y, 0);
      forall k: nat | k < n - 1
        ensures Bit(x / 2, k) == Bit(y / 2, k)
      {
        assert Bit(x, k + 1) == Bit(y, k + 1);
      }
      BitsDetermine(x / 2, y / 2, n - 1);
    }
  }

  // ---------------------------------------------------------------------------
  // Widths
  // ---------------------------------------------------------------------------

  /** `a | b` of two `n`-bit values is an `n`-bit value. */
  lemma {:induction false} OrBelow(a: nat, b: nat, n: nat)
    requires a < Pow2(n) && b < Pow2(n)
    ensures NatOr(a, b) < Pow2(n)
    decreases a + b
  {
    if a != 0 && b != 0 {
      OrBelow(a / 2, b / 2, n - 1);
    }
  }

  /** `a & b` is at most `a`. */
  lemma {:induction false} AndAtMost(a: nat, b: nat)
    ensures NatAnd(a, b) <= a
    decreases a + b
  {
    if a != 0 && b != 0 {
      AndAtMost(a / 2, b / 2);
    }
  }

  /** `a ^ b` of two `n`-bit values is an `n`-bit value. */
  lemma {:induction false} XorBelow(a: nat, b: nat, n: nat)
    requires a < Pow2(n) && b < Pow2(n)
    ensures NatXor(a, b) < Pow2(n)
    decreases a + b
  {
    if a != 0 && b != 0 {
      XorBelow(a / 2, b / 2, n - 1);
    }
  }

  /** OR-ing a value confined to the k low bits into a multiple of 2^k is addition. */
  lemma {:induction false} NatOrDisjoint(h: nat, p: nat, k: nat)
    requires p < Pow2(k)
    ensures NatOr(h * Pow2(k), p) == h * Pow2(k) + p
    decreases k
  {
    if k > 0 && h != 0 && p != 0 {
      var a := h * Pow2(k);
      assert a == 2 * (h * Pow2(k - 1));
      assert a / 2 == h * Pow2(k - 1) && a % 2 == 0;
      NatOrDisjoint(h, p / 2, k - 1);
    } else if k == 0 {
      assert p == 0;
    }
  }

  // ---------------------------------------------------------------------------
  // Masks and shifts as arithmetic
  // ---------------------------------------------------------------------------

  lemma {:induction false} MulAtLeast(d: nat, m: nat)
    requires m >= 1
    ensures d * m >= d
  {
    if m > 1 {
      MulAtLeast(d, m - 1);
      assert d * m == d * (m - 1) + d;
    }
  }

  /** Quotient and remainder are the only ones. */
  lemma DivModUnique(x: nat, d: nat, t: nat, s: nat)
    requires d >= 1 && x == d * t + s && s < d
    ensures x / d == t && x % d == s
  {
    var q, r := x / d, x % d;
    assert x == d * q + r;
    if t > q {
      MulAtLeast(d, t - q);
    } else if q > t {
      MulAtLeast(d, q - t);
    }
  }

  /** Dividing by 2p is halving and then dividing by p. */
  lemma DivModHalves(x: nat, p: nat)
    requires p >= 1
    ensures x / (2 * p) == (x / 2) / p
    ensures x % (2 * p) == 2 * ((x / 2) % p) + x % 2
  {
    var q, r := x / 2, x % 2;
    var t, u := q / p, q % p;
    assert q == p * t + u;
    assert x == (2 * p) * t + (2 * u + r);
    DivModUnique(x, 2 * p, t, 2 * u + r);
  }

  lemma {:induction false} ShiftRightZero(k: nat)
    ensures ShiftRight(0, k) == 0
  {
    if k > 0 {
      ShiftRightZero(k - 1);
    }
  }

  /** `x >> k` is the quotient by 2^k. */
  lemma {:induction false} ShiftRightDivides(x: nat, k: nat)
    ensures ShiftRight(x, k) == x / Pow2(k)
  {
    if k > 0 {
      ShiftRightDivides(x / 2, k - 1);
      DivModHalves(x, Pow2(k - 1));
    }
  }

  /** And with an odd mask: the low bit of `x` and the rest masked by the higher bits. */
  lemma AndOdd(x: nat, q: nat)
    ensures NatAnd(x, 2 * q + 1) == 2 * NatAnd(x / 2, q) + x % 2
  {
    assert (2 * q + 1) / 2 == q && (2 * q + 1) % 2 == 1;
  }

  /** `x & (2^n - 1)` is the remainder by 2^n. */
  lemma {:induction false} LowMask(x: nat, n: nat)
    ensures NatAnd(x, Pow2(n) - 1) == x % Pow2(n)
  {
    if n == 0 {
      assert Pow2(n) - 1 == 0;
    } else if x == 0 {
      assert NatAnd(x, Pow2(n) - 1) == 0;
    } else {
      var p := Pow2(n - 1);
      var q := p - 1;
      assert Pow2(n) == 2 * p;
      calc {
        NatAnd(x, Pow2(n) - 1);
        NatAnd(x, 2 * q + 1);
        { AndOdd(x, q); }
        2 * NatAnd(x / 2, q) + x % 2;
        { LowMask(x / 2, n - 1); }
        2 * ((x / 2) % p) + x % 2;
        { DivModHalves(x, p); }
        x % (2 * p);
      }
    }
  }

  /** Shifting right distributes over `&`. */
  lemma {:induction false} ShiftRightAnd(a: nat, b: nat, k: nat)
    ensures ShiftRight(NatAnd(a, b), k) == NatAnd(ShiftRight(a, k), ShiftRight(b, k))
  {
    if k > 0 {
      if a == 0 || b == 0 {
        ShiftRightZero(k);
        ShiftRightZero(k - 1);
      } else {
        assert NatAnd(a, b) / 2 == NatAnd(a / 2, b / 2);
        ShiftRightAnd(a / 2, b / 2, k - 1);
      }
    }
  }

  /**
   * `(x & (m << k)) >> k` with `m = 2^w - 1`: the field of `w` bits at bit
   * `k`, that is the quotient by 2^k reduced modulo 2^w.
   */
  lemma FieldExtract(x: nat, k: nat, w: nat)
    ensures ShiftRight(NatAnd(x, (Pow2(w) - 1) * Pow2(k)), k) == (x / Pow2(k)) % Pow2(w)
  {
    var p, m := Pow2(k), Pow2(w) - 1;
    var mask := m * p;
    ShiftRightAnd(x, mask, k);
    ShiftRightDivides(x, k);
    ShiftRightDivides(mask, k);
    DivModUnique(mask, p, m, 0);
    assert ShiftRight(mask, k) == m;
    LowMask(x / p, w);
  }
}
