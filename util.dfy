/**
 * The generic helpers of the emulator: single bits of a 16-bit register,
 * in-place lower-casing and comparison of C strings, and the dynamic vector
 * of pointers that grows by doubling.
 */
module Util {
  import opened Bits

  // ---------------------------------------------------------------------------
  // Bits of a uint16_t
  // ---------------------------------------------------------------------------

  /** A `uint16_t`. */
  type Word = x: int | 0 <= x < 0x10000

  /** `getBit(value, bit)`: `(value >> bit) & 1`, bit 0 being the least significant. */
  function GetBit(value: Word, bit: nat): (r: bool)
    ensures r == Bit(value, bit)
  {
    ShiftRightBit(value, bit);
    ShiftRight(value, bit) % 2 == 1
  }

  /**
   * `setBit(reg, bit, value)`: the value `*reg` holds after the call, the bit
   * cleared first and then OR-ed with `value << bit`.
   */
  function SetBit(reg: Word, bit: nat, value: bool): (r: Word)
    requires bit < 16
  {
    Pow2Values();
    var cleared := NatAnd(reg, Not(Pow2(bit), 16));
    AndAtMost(reg, Not(Pow2(bit), 16));
    var placed := if value then Pow2(bit) else 0;
    assert Pow2(bit) < Pow2(16) by { Pow2Grows(bit, 16); }
    OrBelow(cleared, placed, 16);
    NatOr(cleared, placed)
  }

  /** 2^j < 2^n when j < n. */
  lemma {:induction false} Pow2Grows(j: nat, n: nat)
    requires j < n
    ensures Pow2(j) < Pow2(n)
    decreases n
  {
    if j < n - 1 {
      Pow2Grows(j, n - 1);
    }
  }

  /** After `setBit`, bit `bit` holds `value` and every other bit is as it was. */
  lemma SetBitEffect(reg: Word, bit: nat, value: bool, k: nat)
    requires bit < 16
    ensures GetBit(SetBit(reg, bit, value), k) == if k == bit then value else GetBit(reg, k)
  {
    Pow2Values();
    Pow2Grows(bit, 16);
    var mask := Not(Pow2(bit), 16);
    var cleared := NatAnd(reg, mask);
    var placed := if value then Pow2(bit) else 0;
    BitOfOr(cleared, placed, k);
    BitOfAnd(reg, mask, k);
    BitOfNot(Pow2(bit), 16, k);
    BitOfPow2(bit, k);
    BitOfZero(k);
    if k >= 16 {
      BitAbove(reg, 16, k);
    }
  }

  /** A 16-bit value is determined by its sixteen bits. */
  lemma WordsEqual(x: Word, y: Word)
    requires forall k: nat :: k < 16 ==> GetBit(x, k) == GetBit(y, k)
    ensures x == y
  {
    Pow2Values();
    forall k: nat | k < 16
      ensures Bit(x, k) == Bit(y, k)
    {
      assert GetBit(x, k) == GetBit(y, k);
    }
    BitsDetermine(x, y, 16);
  }

  /** Setting a bit to the value it already has changes nothing. */
  lemma SetBitIdle(reg: Word, bit: nat)
    requires bit < 16
    ensures SetBit(reg, bit, GetBit(reg, bit)) == reg
  {
    var r := SetBit(reg, bit, GetBit(reg, bit));
    forall k: nat | k < 16
      ensures GetBit(r, k) == GetBit(reg, k)
    {
      SetBitEffect(reg, bit, GetBit(reg, bit), k);
    }
    WordsEqual(r, reg);
  }

  /** Setting the same bit twice keeps only the second value. */
  lemma SetBitTwice(reg: Word, bit: nat, v: bool, w: bool)
    requires bit < 16
    ensures SetBit(SetBit(reg, bit, v), bit, w) == SetBit(reg, bit, w)
  {
    var r1 := SetBit(SetBit(reg, bit, v), bit, w);
    var r2 := SetBit(reg, bit, w);
    forall k: nat | k < 16
      ensures GetBit(r1, k) == GetBit(r2, k)
    {
      SetBitEffect(SetBit(reg, bit, v), bit, w, k);
      SetBitEffect(reg, bit, v, k);
      SetBitEffect(reg, bit, w, k);
    }
    WordsEqual(r1, r2);
  }

  /** Setting two different bits gives the same value in either order. */
  lemma SetBitsCommute(reg: Word, b1: nat, v1: bool, b2: nat, v2: bool)
    requires b1 < 16 && b2 < 16 && b1 != b2
    ensures SetBit(SetBit(reg, b1, v1), b2, v2) == SetBit(SetBit(reg, b2, v2), b1, v1)
  {
    var r1 := SetBit(SetBit(reg, b1, v1), b2, v2);
    var r2 := SetBit(SetBit(reg, b2, v2), b1, v1);
    forall k: nat | k < 16
      ensures GetBit(r1, k) == GetBit(r2, k)
    {
      SetBitEffect(SetBit(reg, b1, v1), b2, v2, k);
      SetBitEffect(reg, b1, v1, k);
      SetBitEffect(SetBit(reg, b2, v2), b1, v1, k);
      SetBitEffect(reg, b2, v2, k);
    }
    WordsEqual(r1, r2);
  }

  // ---------------------------------------------------------------------------
  // C strings
  // ---------------------------------------------------------------------------

  const NUL: char := '\0'

  /** `tolower` of the C locale: only 'A'..'Z' change. */
  function LowerChar(c: char): (r: char)
    ensures 'A' <= c <= 'Z' ==> 'a' <= r <= 'z' && r as int - c as int == 32
    ensures !('A' <= c <= 'Z') ==> r == c
  {
    if 'A' <= c <= 'Z' then (c as int + 32) as char else c
  }

  /** The number of characters before the first NUL, or all of them if there is none. */
  function Length(s: seq<char>): (n: nat)
    ensures n <= |s| && (n < |s| ==> s[n] == NUL)
    ensures forall k :: 0 <= k < n ==> s[k] != NUL
  {
    if s == [] || s[0] == NUL then 0 else 1 + Length(s[1..])
  }

  /** The text of a C string: the characters before its terminator. */
  function Text(s: seq<char>): (t: seq<char>)
    ensures NUL !in t
  {
    s[..Length(s)]
  }

  /** A character buffer holding a terminated C string. */
  predicate Terminated(s: seq<char>)
  {
    NUL in s
  }

  /** The buffer after `toLowerCase`: the text lower-cased, the terminator and what follows it untouched. */
  function Lowered(s: seq<char>): (r: seq<char>)
    ensures |r| == |s| && Length(r) == Length(s)
  {
    var n := Length(s);
    var r := seq(|s|, k requires 0 <= k < |s| => if k < n then LowerChar(s[k]) else s[k]);
    LengthAt(r, n);
    r
  }

  /** The length of a C string is the index of its first NUL. */
  lemma {:induction false} LengthAt(s: seq<char>, n: nat)
    requires n <= |s| && (n < |s| ==> s[n] == NUL)
    requires forall k :: 0 <= k < n ==> s[k] != NUL
    ensures Length(s) == n
  {
    if n > 0 {
      LengthAt(s[1..], n - 1);
    }
  }

  /** Lower-casing keeps the length of the text and leaves no upper-case letter in it. */
  lemma LoweredText(s: seq<char>)
    ensures |Text(Lowered(s))| == |Text(s)|
    ensures forall k :: 0 <= k < |Text(s)| ==> Text(Lowered(s))[k] == LowerChar(Text(s)[k])
    ensures forall k :: 0 <= k < |Text(s)| ==> !('A' <= Text(Lowered(s))[k] <= 'Z')
  {
  }

  /** `toLowerCase(str)`: lower-cases the string in place, stopping at its terminator. */
  method ToLowerCase(str: array<char>)
    modifies str
    ensures str[..] == Lowered(old(str[..]))
  {
    ghost var before := str[..];
    ghost var n := Length(before);
    var i := 0;
    while i < str.Length && str[i] != NUL
      invariant 0 <= i <= n
      invariant forall k :: 0 <= k < i ==> str[k] == LowerChar(before[k])
      invariant forall k :: i <= k < str.Length ==> str[k] == before[k]
    {
      str[i] := LowerChar(str[i]);
      i := i + 1;
    }
    assert i == n;
    forall k | 0 <= k < str.Length
      ensures str[..][k] == Lowered(before)[k]
    {
    }
    assert str[..] == Lowered(before);
  }

  /** The walk of `strcmp` from index `i`: whether both strings agree up to and including a terminator. */
  function SameFrom(a: seq<char>, b: seq<char>, i: nat): (r: bool)
    requires i <= |a| && i <= |b| && Terminated(a[i..]) && Terminated(b[i..])
    ensures r <==> a[i..][..Length(a[i..])] == b[i..][..Length(b[i..])]
    decreases |a| - i
  {
    if a[i] != b[i] then
      assert a[i..][0] != b[i..][0];
      false
    else if a[i] == NUL then
      true
    else
      assert a[i..][1..] == a[i + 1..] && b[i..][1..] == b[i + 1..];
      SameFrom(a, b, i + 1)
  }

  /** `strEquals(a, b)`: `strcmp(a, b) == 0`. */
  function StrEquals(a: seq<char>, b: seq<char>): (r: bool)
    requires Terminated(a) && Terminated(b)
  {
    assert a[0..] == a && b[0..] == b;
    SameFrom(a, b, 0)
  }

  /** Two C strings are equal exactly when their texts are. */
  lemma StrEqualsText(a: seq<char>, b: seq<char>)
    requires Terminated(a) && Terminated(b)
    ensures StrEquals(a, b) <==> Text(a) == Text(b)
  {
    assert a[0..] == a && b[0..] == b;
  }

  // ---------------------------------------------------------------------------
  // Vector
  // ---------------------------------------------------------------------------

  /** `Vector`: `size` elements at the front of an allocation of `capacity` slots. */
  class Vector<T(0)> {
    var items: array<T>
    var size: int
    var capacity: int

    ghost predicate Valid()
      reads this
    {
      items.Length == capacity && 0 <= size <= capacity && capacity >= 1
    }

    /** The elements in index order. */
    ghost function Elements(): (e: seq<T>)
      reads this, items
      requires Valid()
      ensures |e| == size
    {
      items[..size]
    }

    /** `vecInit`: room for one element, none stored. */
    constructor Init()
      ensures Valid() && fresh(items)
      ensures size == 0 && capacity == 1 && Elements() == []
    {
      items := new T[1];
      capacity := 1;
      size := 0;
    }

    /** `vecGrow`: twice the capacity, the elements kept (realloc copies them). */
    method Grow()
      requires Valid()
      modifies this
      ensures Valid() && fresh(items)
      ensures capacity == 2 * old(capacity) && size == old(size)
      ensures Elements() == old(Elements())
    {
      var grown := new T[capacity * 2];
      var i := 0;
      while i < size
        invariant Valid() && items == old(items) && size == old(size) && capacity == old(capacity)
        invariant grown.Length == 2 * capacity && 0 <= i <= size
        invariant forall k :: 0 <= k < i ==> grown[k] == items[k]
      {
        grown[i] := items[i];
        i := i + 1;
      }
      assert grown[..size] == items[..size];
      items, capacity := grown, capacity * 2;
    }

    /** `vecAdd`: the element goes after the others, the vector growing first when it is full. */
    method Add(elem: T)
      requires Valid()
      modifies this, items
      ensures Valid()
      ensures Elements() == old(Elements()) + [elem]
      ensures capacity == if old(size) == old(capacity) then 2 * old(capacity) else old(capacity)
    {
      if capacity == size {
        Grow();
      }
      items[size] := elem;
      size := size + 1;
    }

    /** `vecRemove`: the element at `index` leaves, the later ones shift down one slot in order. */
    method Remove(index: int)
      requires Valid() && 0 <= index < size
      modifies this, items
      ensures Valid() && items == old(items) && capacity == old(capacity)
      ensures Elements() == old(Elements())[..index] + old(Elements())[index + 1..]
    {
      ghost var before := items[..size];
      var i := index;
      while i < size - 1
        invariant Valid() && items == old(items) && size == old(size) && capacity == old(capacity)
        invariant index <= i <= size - 1
        invariant forall k :: 0 <= k < index ==> items[k] == before[k]
        invariant forall k :: index <= k < i ==> items[k] == before[k + 1]
        invariant forall k :: i <= k < size ==> items[k] == before[k]
      {
        items[i] := items[i + 1];
        i := i + 1;
      }
      size := size - 1;
      assert items[..size] == before[..index] + before[index + 1..];
    }
  }
}
