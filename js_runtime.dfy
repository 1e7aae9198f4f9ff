/**
 * The JavaScript built-ins the assembler relies on, on integer-valued data:
 * `String.prototype.trim`, `toLowerCase`, `split`, `startsWith`,
 * `endsWith`, `substring`, `Array.prototype.join`, the `Number(...)`
 * conversion of a token and the `|` operator on 32-bit integers.
 */
module JsRuntime {
  import opened Wrappers
  import Numerals
  import opened Bits

  // ---------------------------------------------------------------------------
  // Whitespace and trimming
  // ---------------------------------------------------------------------------

  /** The characters `trim` removes: ECMAScript WhiteSpace and LineTerminator. */
  predicate IsSpace(c: char)
  {
    || c == ' ' || c == '\t' || c == '\n' || c == '\U{B}' || c == '\U{C}' || c == '\r'
    || c == '\U{A0}' || c == '\U{1680}' || ('\U{2000}' <= c <= '\U{200A}')
    || c == '\U{2028}' || c == '\U{2029}' || c == '\U{202F}' || c == '\U{205F}'
    || c == '\U{3000}' || c == '\U{FEFF}'
  }

  /** `s` with its leading whitespace removed: a suffix of `s` that starts with a non-space. */
  function TrimStart(s: string): (r: string)
    ensures |r| <= |s| && r == s[|s| - |r|..]
    ensures |r| > 0 ==> !IsSpace(r[0])
  {
    if |s| > 0 && IsSpace(s[0]) then TrimStart(s[1..]) else s
  }

  /** `s` with its trailing whitespace removed: a prefix of `s` that ends with a non-space. */
  function TrimEnd(s: string): (r: string)
    ensures |r| <= |s| && r == s[..|r|]
    ensures |r| > 0 ==> !IsSpace(r[|r| - 1])
  {
    if |s| > 0 && IsSpace(s[|s| - 1]) then TrimEnd(s[..|s| - 1]) else s
  }

  /** Everything `TrimStart` drops is whitespace. */
  lemma {:induction false} TrimStartDropsSpaces(s: string)
    ensures forall i :: 0 <= i < |s| - |TrimStart(s)| ==> IsSpace(s[i])
    decreases |s|
  {
    if |s| > 0 && IsSpace(s[0]) {
      TrimStartDropsSpaces(s[1..]);
      assert forall i :: 1 <= i < |s| ==> s[1..][i - 1] == s[i];
    }
  }

  /** Everything `TrimEnd` drops is whitespace. */
  lemma {:induction false} TrimEndDropsSpaces(s: string)
    ensures forall i :: |TrimEnd(s)| <= i < |s| ==> IsSpace(s[i])
    decreases |s|
  {
    if |s| > 0 && IsSpace(s[|s| - 1]) {
      TrimEndDropsSpaces(s[..|s| - 1]);
      assert forall i :: 0 <= i < |s| - 1 ==> s[..|s| - 1][i] == s[i];
    }
  }

  /** `String.prototype.trim`. */
  function Trim(s: string): string
  {
    TrimEnd(TrimStart(s))
  }

  /** A string that neither starts nor ends with whitespace is its own trim. */
  lemma TrimNoSpace(s: string)
    requires |s| > 0 ==> !IsSpace(s[0]) && !IsSpace(s[|s| - 1])
    ensures Trim(s) == s
  {
  }

  /** Trimming a string that starts with spaces before a word gives the word. */
  lemma TrimLeadingSpace(s: string)
    requires |s| > 0 && !IsSpace(s[0]) && !IsSpace(s[|s| - 1])
    ensures Trim(" " + s) == s
  {
    var t := " " + s;
    assert t[0] == ' ' && t[1..] == s;
    assert TrimStart(t) == TrimStart(s) == s;
    assert TrimEnd(s) == s;
  }

  // ---------------------------------------------------------------------------
  // Case
  // ---------------------------------------------------------------------------

  /** Lower-case of one character (the ASCII letters 'A'..'Z'). */
  function LowerChar(c: char): char
  {
    if 'A' <= c <= 'Z' then (c as int - 'A' as int + 'a' as int) as char else c
  }

  /** `String.prototype.toLowerCase` on the ASCII letters. */
  function ToLower(s: string): (r: string)
    ensures |r| == |s|
  {
    seq(|s|, i requires 0 <= i < |s| => LowerChar(s[i]))
  }

  /** A string with no upper-case ASCII letter. */
  predicate IsLower(s: string)
  {
    forall i :: 0 <= i < |s| ==> !('A' <= s[i] <= 'Z')
  }

  // ---------------------------------------------------------------------------
  // Prefixes, suffixes, substrings
  // ---------------------------------------------------------------------------

  predicate StartsWith(s: string, p: string)
  {
    |p| <= |s| && s[..|p|] == p
  }

  predicate EndsWith(s: string, p: string)
  {
    |p| <= |s| && s[|s| - |p|..] == p
  }

  /** `s.substring(start)` for a non-negative `start`: empty once `start` passes the end. */
  function SubstringFrom(s: string, start: nat): string
  {
    if start <= |s| then s[start..] else ""
  }

  // ---------------------------------------------------------------------------
  // split and join on a one-character separator
  // ---------------------------------------------------------------------------

  /**
   * `s.split(sep)`: the pieces between occurrences of `sep`. Like JavaScript,
   * the empty string splits into one empty piece and adjacent separators
   * give empty pieces.
   */
  function Split(s: string, sep: char): (parts: seq<string>)
    ensures |parts| >= 1
    decreases |s|
  {
    if |s| == 0 then [""]
    else
      var rest := Split(s[1..], sep);
      if s[0] == sep then [""] + rest else [[s[0]] + rest[0]] + rest[1..]
  }

  /** `parts.join(sep)`. */
  function Join(parts: seq<string>, sep: char): string
  {
    if |parts| == 0 then ""
    else if |parts| == 1 then parts[0]
    else parts[0] + [sep] + Join(parts[1..], sep)
  }

  /** Joining the pieces of a split restores the string. */
  lemma {:induction false} JoinSplit(s: string, sep: char)
    ensures Join(Split(s, sep), sep) == s
    decreases |s|
  {
    if |s| > 0 {
      var rest := Split(s[1..], sep);
      JoinSplit(s[1..], sep);
      if s[0] == sep {
        assert ([""] + rest)[1..] == rest;
      } else {
        var parts := [[s[0]] + rest[0]] + rest[1..];
        if |rest| > 1 {
          assert parts[1..] == rest[1..];
          assert Join(rest, sep) == rest[0] + [sep] + Join(rest[1..], sep);
        }
      }
    }
  }

  /** Splitting a join of separator-free pieces gives the pieces back. */
  lemma {:induction false} SplitJoin(parts: seq<string>, sep: char)
    requires |parts| >= 1
    requires forall i :: 0 <= i < |parts| ==> sep !in parts[i]
    ensures Split(Join(parts, sep), sep) == parts
    decreases |parts|, |parts[0]|
  {
    var p := parts[0];
    if |p| == 0 {
      if |parts| > 1 {
        SplitJoin(parts[1..], sep);
        assert Join(parts, sep) == [sep] + Join(parts[1..], sep);
        assert (Join(parts, sep))[1..] == Join(parts[1..], sep);
        assert parts == [""] + parts[1..];
      }
    } else {
      var tail := [p[1..]] + parts[1..];
      assert forall i :: 0 <= i < |tail| ==> sep !in tail[i] by {
        forall i | 0 <= i < |tail| ensures sep !in tail[i] {
          if i == 0 {
            assert forall k :: 0 <= k < |p[1..]| ==> p[1..][k] == p[k + 1];
          } else {
            assert tail[i] == parts[i];
          }
        }
      }
      SplitJoin(tail, sep);
      assert tail[1..] == parts[1..];
      var j := Join(parts, sep);
      assert j == [p[0]] + Join(tail, sep) by {
        if |parts| == 1 {
          assert j == p;
        } else {
          assert j == p + [sep] + Join(parts[1..], sep);
          assert Join(tail, sep) == p[1..] + [sep] + Join(parts[1..], sep);
        }
      }
      assert j[0] == p[0] && j[1..] == Join(tail, sep);
      assert p[0] != sep by { assert p[0] in p; }
      assert [p[0]] + p[1..] == p;
    }
  }

  /** A string without the separator is one piece. */
  lemma {:induction false} SplitNoSeparator(x: string, sep: char)
    requires sep !in x
    ensures Split(x, sep) == [x]
    decreases |x|
  {
    if |x| > 0 {
      assert x[0] in x;
      assert forall k :: 0 <= k < |x[1..]| ==> x[1..][k] == x[k + 1];
      SplitNoSeparator(x[1..], sep);
      assert [x[0]] + x[1..] == x;
    }
  }

  /** A separator-free piece in front of a separator is the first element of the split. */
  lemma {:induction false} SplitCons(x: string, rest: string, sep: char)
    requires sep !in x
    ensures Split(x + [sep] + rest, sep) == [x] + Split(rest, sep)
    decreases |x|
  {
    var s := x + [sep] + rest;
    if |x| == 0 {
      assert s[1..] == rest;
    } else {
      assert x[0] in x;
      assert forall k :: 0 <= k < |x[1..]| ==> x[1..][k] == x[k + 1];
      assert s[1..] == x[1..] + [sep] + rest;
      SplitCons(x[1..], rest, sep);
      assert [x[0]] + x[1..] == x;
    }
  }

  /** `args[k]`: the element, or `undefined` past the end. */
  function Arg(args: seq<string>, k: nat): (r: Option<string>)
    ensures r.Some? <==> k < |args|
    ensures r.Some? ==> r.value == args[k]
  {
    if k < |args| then Some(args[k]) else None
  }

  /** A JavaScript template substitution `${x}`: `undefined` prints as "undefined". */
  function Substituted(x: Option<string>): string
  {
    match x
    case None => "undefined"
    case Some(s) => s
  }

  // ---------------------------------------------------------------------------
  // Number(token)
  // ---------------------------------------------------------------------------

  /**
   * An integer-valued JavaScript Number, or NaN. NaN compares false with
   * everything (itself included) and reads as 0 under the bitwise operators.
   */
  datatype Number = Int(i: int) | NaN

  /** True when every character of `s` is a decimal digit. */
  predicate IsDecimalNumeral(s: string)
  {
    |s| > 0 && Numerals.AllDigitsIn(s, 10)
  }

  /**
   * `Number(token)` on the forms this model interprets: surrounding whitespace
   * is ignored, the empty string is 0, and an optionally signed run of decimal
   * digits is its value. Every other token reads as NaN.
   */
  function ParseNumber(token: string): Number
  {
    var t := Trim(token);
    if t == "" then Int(0)
    else if t[0] == '-' || t[0] == '+' then
      if IsDecimalNumeral(t[1..]) then
        var v: int := Numerals.FromBase(t[1..], 10);
        Int(if t[0] == '-' then -v else v)
      else NaN
    else if IsDecimalNumeral(t) then Int(Numerals.FromBase(t, 10))
    else NaN
  }

  /** `Number(x)` where `x` may be `undefined`, which converts to NaN. */
  function ParseArgument(token: Option<string>): Number
  {
    match token
    case None => NaN
    case Some(t) => ParseNumber(t)
  }

  /** The decimal numeral of a number reads back as that number. */
  lemma ParseDecimal(n: int)
    ensures ParseNumber(Numerals.Decimal(n)) == Int(n)
  {
    var m: nat := if n < 0 then -n else n;
    var digits := Numerals.ToBase(m, 10);
    Numerals.FromToBase(m, 10);
    DigitNotSpace(digits[0]);
    DigitNotSpace(digits[|digits| - 1]);
    assert IsDecimalNumeral(digits);
    var s := Numerals.Decimal(n);
    if n < 0 {
      assert s == "-" + digits;
      assert s[1..] == digits && s[0] == '-' && s[|s| - 1] == digits[|digits| - 1];
    } else {
      assert s == digits;
    }
    TrimNoSpace(s);
  }

  /** A decimal digit is neither whitespace nor a sign. */
  lemma DigitNotSpace(c: char)
    requires Numerals.IsDigitIn(c, 10)
    ensures !IsSpace(c) && c != '-' && c != '+'
  {
  }

  /** ToInt32 of a Number before reduction modulo 2^32: NaN becomes 0. */
  function BitOperand(n: Number): int
  {
    if n.NaN? then 0 else n.i
  }

  /** `a == b` on two Numbers: NaN equals nothing. */
  predicate LooseEquals(a: Number, b: Number)
  {
    a.Int? && b.Int? && a.i == b.i
  }

  // ---------------------------------------------------------------------------
  // The `|` operator
  // ---------------------------------------------------------------------------

  const TWO_31: int := 0x8000_0000
  const TWO_32: int := 0x1_0000_0000

  /**
   * `a | b` on integer-valued Numbers: both sides are reduced to 32 bits
   * (ToInt32), combined bit by bit, and the result is read as a signed 32-bit integer.
   */
  function BitOr(a: int, b: int): int
  {
    var r := NatOr(a % TWO_32, b % TWO_32);
    if r >= TWO_31 then r - TWO_32 else r
  }

  /** `a | b` for operands that are already unsigned 32-bit values. */
  lemma BitOrSmall(a: int, b: int)
    requires 0 <= a < TWO_32 && 0 <= b < TWO_32
    ensures BitOr(a, b) == if NatOr(a, b) >= TWO_31 then NatOr(a, b) - TWO_32 else NatOr(a, b)
  {
    assert a % TWO_32 == a;
    assert b % TWO_32 == b;
  }

  /**
   * OR-ing a field below 2^k into a word `w = h * 2^k`, whose k low bits are
   * clear, places the field in those bits and keeps the rest, as long as the
   * sum stays a non-negative 32-bit signed integer.
   */
  lemma OrLowBits(w: nat, h: nat, field: int, k: nat)
    requires w == h * Pow2(k)
    requires 0 <= field < Pow2(k) && w + field < TWO_31
    ensures BitOr(w, field) == w + field
  {
    NatOrDisjoint(h, field, k);
    BitOrSmall(w, field);
  }

  /** The address field of an instruction word: 12 low bits below an opcode nibble. */
  lemma OrLow12(opcode: nat, field: int)
    requires opcode < 16 && 0 <= field < 0x1000
    ensures BitOr(opcode * 0x1000, field) == opcode * 0x1000 + field
  {
    Pow2Values();
    OrLowBits(opcode * 0x1000, opcode, field, 12);
  }

  /** OR with zero leaves a 32-bit non-negative value as it is. */
  lemma OrZero(word: int)
    requires 0 <= word < TWO_31
    ensures BitOr(word, 0) == word
  {
  }
}
