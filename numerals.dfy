/**
 * Positional numerals in base 10 and base 16, as produced by JavaScript's
 * `Number.prototype.toString(radix)` on integers and by C's `%i` conversion,
 * together with their inverse.
 */
module Numerals {

  /** Lower-case digit character for a digit value below 16. */
  function DigitChar(d: nat): (c: char)
    requires d < 16
    ensures DigitValue(c) == d
  {
    if d < 10 then ('0' as int + d) as char else ('a' as int + (d - 10)) as char
  }

  /** Value of a digit character ('0'..'9', 'a'..'f'); other characters have no value. */
  function DigitValue(c: char): int
  {
    if '0' <= c <= '9' then c as int - '0' as int
    else if 'a' <= c <= 'f' then c as int - 'a' as int + 10
    else -1
  }

  predicate IsDigitIn(c: char, base: nat)
  {
    0 <= DigitValue(c) < base
  }

  predicate AllDigitsIn(s: string, base: nat)
  {
    forall i :: 0 <= i < |s| ==> IsDigitIn(s[i], base)
  }

  /** The shortest numeral of `n` in `base`: no leading zeros, "0" for zero. */
  function ToBase(n: nat, base: nat): (s: string)
    requires 2 <= base <= 16
    ensures |s| >= 1 && AllDigitsIn(s, base)
    ensures |s| > 1 ==> s[0] != '0'
    decreases n
  {
    if n < base then [DigitChar(n)]
    else
      var q, d := n / base, n % base;
      assert q < n && d < base && q >= 1 by { DivModBounds(n, base); }
      ToBase(q, base) + [DigitChar(d)]
  }

  lemma DivModBounds(n: nat, base: nat)
    requires 2 <= base <= n
    ensures n / base < n && n % base < base && n / base >= 1
  {
  }

  lemma DivMod(n: nat, base: nat)
    requires base >= 1
    ensures (n / base) * base + n % base == n
  {
  }

  /** The value of a numeral whose characters are all digits of `base`. */
  function FromBase(s: string, base: nat): nat
    requires 2 <= base <= 16 && AllDigitsIn(s, base)
  {
    if s == [] then 0 else FromBase(s[..|s| - 1], base) * base + DigitValue(s[|s| - 1])
  }

  /** Reading back a numeral gives the number it was written from. */
  lemma {:induction false} FromToBase(n: nat, base: nat)
    requires 2 <= base <= 16
    ensures FromBase(ToBase(n, base), base) == n
    decreases n
  {
    var s := ToBase(n, base);
    if n >= base {
      var q, d := n / base, n % base;
      DivModBounds(n, base);
      FromToBase(q, base);
      assert s == ToBase(q, base) + [DigitChar(d)];
      assert s[..|s| - 1] == ToBase(q, base);
      assert FromBase(s, base) == q * base + d;
      DivMod(n, base);
    }
  }

  /** Signed numeral: a minus sign in front of the magnitude's numeral for negative numbers. */
  function SignedToBase(n: int, base: nat): (s: string)
    requires 2 <= base <= 16
    ensures |s| >= 1
    ensures n < 0 <==> s[0] == '-'
  {
    if n < 0 then "-" + ToBase(-n, base) else ToBase(n, base)
  }

  /** Decimal numeral of `n`, as C's `%i` prints an `int`. */
  function Decimal(n: int): string
  {
    SignedToBase(n, 10)
  }

  /** Lower-case hexadecimal numeral of `n`, as JavaScript's `n.toString(16)` writes an integer. */
  function Hex(n: int): string
  {
    SignedToBase(n, 16)
  }

  /** `base` raised to the power `k`. */
  function Power(base: nat, k: nat): nat
  {
    if k == 0 then 1 else base * Power(base, k - 1)
  }

  /** A number below base^k is written with at most k digits. */
  lemma {:induction false} ToBaseLength(n: nat, base: nat, k: nat)
    requires 2 <= base <= 16 && 1 <= k && n < Power(base, k)
    ensures |ToBase(n, base)| <= k
    decreases k
  {
    if n >= base && k > 1 {
      assert n / base < Power(base, k - 1) by {
        assert n < base * Power(base, k - 1);
        DivBelow(n, base, Power(base, k - 1));
      }
      ToBaseLength(n / base, base, k - 1);
    }
  }

  lemma DivBelow(n: nat, base: nat, p: nat)
    requires base >= 1 && n < base * p
    ensures n / base < p
  {
  }

  /** `m` copies of the digit '0'. */
  function Zeros(m: nat): (s: string)
    ensures |s| == m && forall i :: 0 <= i < m ==> s[i] == '0'
  {
    if m == 0 then "" else "0" + Zeros(m - 1)
  }

  /** Leading zeros do not change the value of a numeral. */
  lemma {:induction false} LeadingZeros(m: nat, s: string, base: nat)
    requires 2 <= base <= 16 && AllDigitsIn(s, base)
    ensures AllDigitsIn(Zeros(m) + s, base)
    ensures FromBase(Zeros(m) + s, base) == FromBase(s, base)
    decreases |s|, m
  {
    var z := Zeros(m) + s;
    assert AllDigitsIn(z, base) by {
      forall i | 0 <= i < |z| ensures IsDigitIn(z[i], base) {
        if i >= m { assert z[i] == s[i - m]; }
      }
    }
    if |s| > 0 {
      assert z[..|z| - 1] == Zeros(m) + s[..|s| - 1];
      LeadingZeros(m, s[..|s| - 1], base);
    } else if m > 0 {
      assert z[..|z| - 1] == Zeros(m - 1);
      assert Zeros(m - 1) + "" == Zeros(m - 1);
      LeadingZeros(m - 1, "", base);
    }
  }
}
