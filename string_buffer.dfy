/**
 * The growable character buffer of the emulator (src/StringBuffer.c): a C
 * string together with its length (`size`) and the number of cells
 * allocated for it (`capacity`), formatted appends that grow the
 * allocation, the concatenation of two buffers, and the translation of the
 * `§X` colour markers into ANSI escape sequences.
 *
 * A `char` of the model is one C byte. Allocation is bookkeeping: the
 * contents are the characters before the terminator, and the invariant
 * keeps one cell free behind them for that terminator.
 */
module StringBuffers {
  import opened Wrappers
  import Numerals
  import Util

  // ---------------------------------------------------------------------------
  // Growth
  // ---------------------------------------------------------------------------

  /** The number of cells `stbGrow(sb, minRequiredSize)` adds: twice the request, and never fewer than 8. */
  function Growth(minRequiredSize: nat): (g: nat)
    ensures g >= 8 && g >= 2 * minRequiredSize
    ensures g == 8 || g == 2 * minRequiredSize
  {
    var growthAmount := minRequiredSize * 2;
    if growthAmount < 8 then 8 else growthAmount
  }

  // ---------------------------------------------------------------------------
  // Appending a buffer: the capacity test
  // ---------------------------------------------------------------------------

  /** The test `stbAppendBuffer` applies before copying: grow only when the capacity is below the new size. */
  predicate AppendBufferGrowsAsWritten(capacity: nat, newSize: nat)
  {
    capacity < newSize
  }

  /** The test the copy needs: grow unless there is a cell for the terminator behind the new contents. */
  predicate AppendBufferGrows(capacity: nat, newSize: nat)
  {
    capacity <= newSize
  }

  /** The capacity once the test has been applied. */
  function CapacityFor(capacity: nat, newSize: nat, grows: bool): nat
  {
    if grows then capacity + Growth(newSize) else capacity
  }

  /**
   * As written, a buffer whose capacity equals the new size is not grown, and
   * `strcpy` then writes the terminator one cell past the allocation: a fresh
   * buffer (size 0, capacity 2) receiving a buffer that holds "ab".
   */
  lemma AppendBufferOverflowAsWritten()
    ensures var capacity, size, appended := 2, 0, 2;
            var grows := AppendBufferGrowsAsWritten(capacity, size + appended);
            !grows && CapacityFor(capacity, size + appended, grows) < size + appended + 1
  {
  }

  /** The as-written test misses exactly the case where the capacity equals the new size. */
  lemma AppendBufferAsWrittenMisses(capacity: nat, newSize: nat)
    ensures CapacityFor(capacity, newSize, AppendBufferGrowsAsWritten(capacity, newSize)) <= newSize
            <==> capacity == newSize
  {
  }

  /** With the corrected test there is always a cell for the terminator. */
  lemma AppendBufferRoom(capacity: nat, newSize: nat)
    ensures CapacityFor(capacity, newSize, AppendBufferGrows(capacity, newSize)) > newSize
  {
  }

  // ---------------------------------------------------------------------------
  // Colour markers
  // ---------------------------------------------------------------------------

  /**
   * The bytes of the delimiter string "§" that `strtok` is given: the marker
   * is the UTF-8 sequence C2 A7, and `strtok` splits at either byte.
   */
  predicate IsMarkerByte(c: char)
  {
    c == '\U{C2}' || c == '\U{A7}'
  }

  /** The number of leading bytes of `s` before a marker byte. */
  function RunLength(s: seq<char>): (n: nat)
    ensures n <= |s|
    ensures forall k :: 0 <= k < n ==> !IsMarkerByte(s[k])
    ensures n < |s| ==> IsMarkerByte(s[n])
  {
    if s == [] || IsMarkerByte(s[0]) then 0 else 1 + RunLength(s[1..])
  }

  predicate Unmarked(t: seq<char>)
  {
    forall k :: 0 <= k < |t| ==> !IsMarkerByte(t[k])
  }

  /**
   * The successive results of `strtok(s, "§")`: the maximal non-empty runs
   * of bytes between marker bytes, in order.
   */
  function Tokens(s: seq<char>): (toks: seq<seq<char>>)
    ensures forall i :: 0 <= i < |toks| ==> toks[i] != [] && Unmarked(toks[i])
    ensures Util.NUL !in s ==> forall i :: 0 <= i < |toks| ==> Util.NUL !in toks[i]
    decreases |s|
  {
    if s == [] then []
    else if IsMarkerByte(s[0]) then Tokens(s[1..])
    else
      var n := RunLength(s);
      [s[..n]] + Tokens(s[n..])
  }

  /** The value of a byte read as a (signed) C `char`. */
  function CharValue(c: char): int
  {
    var b := c as int % 256;
    if b >= 128 then b - 256 else b
  }

  /** The escape sequence the colour code `c` is translated to. */
  function Escape(c: char): string
  {
    var color := CharValue(c);
    if color == 'R' as int then "\U{1B}[0m"
    else if color >= '8' as int then
      var shifted := if color >= 'A' as int then color - ('A' as int - 2) else color - '8' as int;
      "\U{1B}[1;" + Numerals.Decimal(30 + shifted) + "m"
    else
      "\U{1B}[0;" + Numerals.Decimal(30 + color - '0' as int) + "m"
  }

  function Digit(d: nat): char
    requires d < 10
  {
    ('0' as int + d) as char
  }

  /** `%i` of 30 to 39. */
  lemma DecimalThirties(d: nat)
    requires d < 10
    ensures Numerals.Decimal(30 + d) == "3" + [Digit(d)]
  {
    var n := 30 + d;
    assert n / 10 == 3 && n % 10 == d;
    assert Numerals.ToBase(n, 10) == Numerals.ToBase(3, 10) + [Numerals.DigitChar(d)];
  }

  /**
   * The colour codes of the emulator's messages: 'R' resets, '0'..'7' are
   * the eight foreground colours 30-37, and '8', '9', 'A'..'F' the same
   * eight colours in bold.
   */
  lemma EscapeCodes(c: char)
    ensures c == 'R' ==> Escape(c) == "\U{1B}[0m"
    ensures '0' <= c <= '7' ==> Escape(c) == "\U{1B}[0;3" + [c] + "m"
    ensures '8' <= c <= '9' ==> Escape(c) == "\U{1B}[1;3" + [Digit(c as int - '8' as int)] + "m"
    ensures 'A' <= c <= 'F' ==> Escape(c) == "\U{1B}[1;3" + [Digit(c as int - 'A' as int + 2)] + "m"
  {
    if c as int < 128 {
      assert CharValue(c) == c as int;
    }
    if '0' <= c <= '7' {
      DecimalThirties(c as int - '0' as int);
      assert Digit(c as int - '0' as int) == c;
    } else if '8' <= c <= '9' {
      DecimalThirties(c as int - '8' as int);
    } else if 'A' <= c <= 'F' {
      DecimalThirties(c as int - 'A' as int + 2);
    }
  }

  /**
   * What one token after a marker contributes: its escape sequence (when
   * colours are on) and the rest of it. `strtok` yields no empty token.
   */
  function Piece(tok: seq<char>, outputColors: bool): string
  {
    if tok == [] then "" else (if outputColors then Escape(tok[0]) else "") + tok[1..]
  }

  /** The pieces of a run of tokens, in order. */
  function Rendered(toks: seq<seq<char>>, outputColors: bool): string
  {
    if toks == [] then ""
    else Rendered(toks[..|toks| - 1], outputColors) + Piece(toks[|toks| - 1], outputColors)
  }

  /** The capacity after `stbAppendv` of `text` into `capacity` cells holding `size` characters. */
  function AppendvCapacity(capacity: nat, size: nat, text: string): nat
  {
    if |text| < capacity - size then capacity else capacity + Growth(|text|)
  }

  /** The capacity after the appends of one pass of the loop of `stbColorize`. */
  function PieceCapacity(capacity: nat, size: nat, tok: seq<char>, outputColors: bool): nat
    requires tok != []
  {
    if outputColors then
      AppendvCapacity(AppendvCapacity(capacity, size, Escape(tok[0])), size + |Escape(tok[0])|, tok[1..])
    else AppendvCapacity(capacity, size, tok[1..])
  }

  /** The capacity after the pieces of a run of tokens, appended in order. */
  function RenderedCapacity(capacity: nat, size: nat, toks: seq<seq<char>>, outputColors: bool): nat
    requires forall j :: 0 <= j < |toks| ==> toks[j] != []
  {
    if toks == [] then capacity
    else
      var init := toks[..|toks| - 1];
      PieceCapacity(RenderedCapacity(capacity, size, init, outputColors),
                    size + |Rendered(init, outputColors)|, toks[|toks| - 1], outputColors)
  }

  /** The capacity `stbColorize` leaves: a fresh two-cell buffer grown by each append. */
  function ColorizedCapacity(s: seq<char>, outputColors: bool): nat
    requires Tokens(s) != []
  {
    var toks := Tokens(s);
    if !IsMarkerByte(s[0]) then RenderedCapacity(AppendvCapacity(2, 0, toks[0]), |toks[0]|, toks[1..], outputColors)
    else RenderedCapacity(2, 0, toks, outputColors)
  }

  /** The text `stbColorize` leaves in the buffer. */
  function Colorized(s: seq<char>, outputColors: bool): string
    requires Tokens(s) != []
  {
    var toks := Tokens(s);
    if !IsMarkerByte(s[0]) then toks[0] + Rendered(toks[1..], outputColors)
    else Rendered(toks, outputColors)
  }

  // ---------------------------------------------------------------------------
  // Colours off: a reference definition
  // ---------------------------------------------------------------------------

  /** `s` with every marker and the code byte after it removed. */
  function Plain(s: seq<char>): string
    decreases |s|
  {
    if s == [] then ""
    else if IsMarkerByte(s[0]) then AfterMarker(s[1..])
    else [s[0]] + Plain(s[1..])
  }

  /** The rest of a text just after a marker byte: further marker bytes, then the code byte, are dropped. */
  function AfterMarker(s: seq<char>): string
    decreases |s|
  {
    if s == [] then ""
    else if IsMarkerByte(s[0]) then AfterMarker(s[1..])
    else Plain(s[1..])
  }

  lemma {:induction false} RenderedCons(t: seq<char>, ts: seq<seq<char>>, outputColors: bool)
    ensures Rendered([t] + ts, outputColors) == Piece(t, outputColors) + Rendered(ts, outputColors)
    decreases |ts|
  {
    var all := [t] + ts;
    if ts != [] {
      assert all[..|all| - 1] == [t] + ts[..|ts| - 1];
      RenderedCons(t, ts[..|ts| - 1], outputColors);
    }
  }

  /** Bytes before the first marker are copied as they are. */
  lemma {:induction false} PlainRun(s: seq<char>, m: nat)
    requires m <= |s| && forall k :: 0 <= k < m ==> !IsMarkerByte(s[k])
    ensures Plain(s) == s[..m] + Plain(s[m..])
    decreases m
  {
    if m > 0 {
      PlainRun(s[1..], m - 1);
      assert s[1..][m - 1..] == s[m..];
      assert s[..m] == [s[0]] + s[1..][..m - 1];
    }
  }

  lemma {:induction false} AfterMarkerRendered(s: seq<char>)
    ensures AfterMarker(s) == Rendered(Tokens(s), false)
    decreases |s|
  {
    if s != [] {
      if IsMarkerByte(s[0]) {
        AfterMarkerRendered(s[1..]);
      } else {
        var n := RunLength(s);
        var tok, rest := s[..n], s[n..];
        assert Piece(tok, false) == tok[1..] by {
          assert tok != [];
        }
        // The code byte goes, the rest of the run is copied, and the text goes on after the run.
        calc {
          AfterMarker(s);
          Plain(s[1..]);
          { PlainRun(s[1..], n - 1); RunSlices(s, n); }
          tok[1..] + Plain(rest);
          { PlainAtMarker(rest); AfterMarkerRendered(rest); }
          Piece(tok, false) + Rendered(Tokens(rest), false);
          { RenderedCons(tok, Tokens(rest), false); }
          Rendered([tok] + Tokens(rest), false);
        }
      }
    }
  }

  lemma RunSlices(s: seq<char>, n: nat)
    requires 1 <= n <= |s|
    ensures s[1..][n - 1..] == s[n..] && s[1..][..n - 1] == s[..n][1..]
  {
  }

  /** At a marker (or the end) the text and the text after a marker read the same. */
  lemma PlainAtMarker(s: seq<char>)
    requires s != [] ==> IsMarkerByte(s[0])
    ensures Plain(s) == AfterMarker(s)
  {
  }

  /** With colours off, `stbColorize` removes the markers and their code bytes and nothing else. */
  lemma ColorizedPlain(s: seq<char>)
    requires Tokens(s) != []
    ensures Colorized(s, false) == Plain(s)
  {
    if IsMarkerByte(s[0]) {
      AfterMarkerRendered(s[1..]);
    } else {
      var n := RunLength(s);
      var rest := s[n..];
      PlainRun(s, n);
      AfterMarkerRendered(rest);
      PlainAtMarker(rest);
      assert Tokens(s)[1..] == Tokens(rest);
    }
  }

  /** Text before the first marker heads the result unchanged. */
  lemma ColorizedKeepsHead(s: seq<char>, outputColors: bool)
    requires Tokens(s) != [] && !IsMarkerByte(s[0])
    ensures s[..RunLength(s)] <= Colorized(s, outputColors)
  {
  }

  // ---------------------------------------------------------------------------
  // The buffer
  // ---------------------------------------------------------------------------

  /** `StringBuffer`: `array` (here: whether it is allocated, and the text it holds), `size` and `capacity`. */
  class StringBuffer {
    var hasArray: bool
    var contents: seq<char>
    var size: int
    var capacity: int

    /**
     * An hasArray buffer holds a C string of `size` characters with a cell
     * left for its terminator; a freed one has no array and both counts 0.
     */
    ghost predicate Valid()
      reads this
    {
      if hasArray then |contents| == size && size < capacity && Util.NUL !in contents
      else contents == [] && size == 0 && capacity == 0
    }

    /** `stbInit`: two cells, the empty string. */
    method Init()
      modifies this
      ensures Valid() && hasArray
      ensures contents == [] && size == 0 && capacity == 2
    {
      capacity := 2;
      size := 0;
      hasArray, contents := true, [];
    }

    /** `stbFree`: the array released, both counts 0. */
    method Free()
      modifies this
      ensures Valid() && !hasArray
      ensures contents == [] && size == 0 && capacity == 0
    {
      hasArray, contents := false, [];
      size := 0;
      capacity := 0;
    }

    /** `stbGrow(sb, minRequiredSize)`: more cells, the text unchanged. */
    method Grow(minRequiredSize: nat)
      requires Valid() && hasArray
      modifies this
      ensures Valid() && hasArray
      ensures capacity == old(capacity) + Growth(minRequiredSize)
      ensures contents == old(contents) && size == old(size)
    {
      var growthAmount := Growth(minRequiredSize);
      capacity := capacity + growthAmount;
    }

    /**
     * `stbAppendv`: `formatted` is what `vsnprintf` produces for the format
     * and its arguments, `None` when it reports an error. The text is tried
     * in the room left; when it does not fit the buffer grows once and the
     * text is written again, and it then fits.
     */
    method Appendv(formatted: Option<string>) returns (ok: bool)
      requires Valid() && hasArray
      requires formatted.Some? ==> Util.NUL !in formatted.value
      modifies this
      ensures Valid() && hasArray
      ensures ok <==> formatted.Some?
      ensures ok ==> contents == old(contents) + formatted.value && size == old(size) + |formatted.value|
      ensures !ok ==> contents == old(contents) && size == old(size) && capacity == old(capacity)
      ensures ok && |formatted.value| < old(capacity) - old(size) ==> capacity == old(capacity)
      ensures ok && |formatted.value| >= old(capacity) - old(size) ==>
                capacity == old(capacity) + Growth(|formatted.value|)
      ensures ok ==> capacity == AppendvCapacity(old(capacity), old(size), formatted.value)
    {
      var remaining := capacity - size;
      if formatted.None? {
        return false;
      }
      var strSize := |formatted.value|;
      if strSize < remaining {
        contents := contents + formatted.value;
        size := size + strSize;
        return true;
      }
      Grow(strSize);
      remaining := capacity - size;
      assert strSize < remaining;
      contents := contents + formatted.value;
      size := size + strSize;
      return true;
    }

    /**
     * `stbAppendBuffer(sb, buffer)`: the text of `buffer` is copied behind
     * this one. The capacity test is the corrected one (see
     * `AppendBufferGrows`).
     */
    method AppendBuffer(buffer: StringBuffer)
      requires Valid() && hasArray && buffer.Valid() && buffer.hasArray && buffer != this
      modifies this
      ensures Valid() && hasArray
      ensures contents == old(contents) + buffer.contents && size == old(size) + buffer.size
      ensures capacity == CapacityFor(old(capacity), old(size) + buffer.size,
                                      AppendBufferGrows(old(capacity), old(size) + buffer.size))
    {
      var newSize := size + buffer.size;
      if capacity <= newSize {
        Grow(newSize);
      }
      AppendBufferRoom(old(capacity), newSize);
      contents := contents + buffer.contents;
      size := size + buffer.size;
    }

    /**
     * `stbColorize(buffer, outputColors)`: the text is taken out, the buffer
     * starts afresh, and the `strtok` tokens of the taken text are appended:
     * the first one as it is when the text does not open with a marker, and
     * then, for every further token, the escape of its code byte (when
     * colours are on) and the rest of the token.
     */
    method Colorize(outputColors: bool)
      requires Valid() && hasArray && Tokens(contents) != []
      modifies this
      ensures Valid() && hasArray
      ensures contents == Colorized(old(contents), outputColors)
      ensures capacity == ColorizedCapacity(old(contents), outputColors)
    {
      var taken := contents;
      Free();
      Init();
      var tokens := Tokens(taken);
      FirstToken(taken);
      var i := 0;
      if taken[0] == tokens[0][0] {
        var written := Appendv(Some(tokens[0]));
        i := 1;
      }
      ghost var head := contents;
      ghost var headCapacity := capacity;
      assert headCapacity == if i == 1 then AppendvCapacity(2, 0, tokens[0]) else 2;
      AppendPieces(tokens, i, outputColors);
      ColorizedFrom(taken, outputColors, head, i);
      assert tokens[i..|tokens|] == tokens[i..];
    }

    /** The loop of `stbColorize` over the tokens from index `start` on. */
    method AppendPieces(tokens: seq<seq<char>>, start: nat, outputColors: bool)
      requires Valid() && hasArray && start <= |tokens|
      requires forall j :: 0 <= j < |tokens| ==> tokens[j] != [] && Util.NUL !in tokens[j]
      modifies this
      ensures Valid() && hasArray
      ensures contents == old(contents) + Rendered(tokens[start..|tokens|], outputColors)
      ensures capacity == RenderedCapacity(old(capacity), |old(contents)|, tokens[start..|tokens|], outputColors)
    {
      var i := start;
      assert tokens[start..i] == [];
      assert size == |contents|;
      while i < |tokens|
        invariant Valid() && hasArray
        invariant start <= i <= |tokens|
        invariant contents == old(contents) + Rendered(tokens[start..i], outputColors)
        invariant capacity == RenderedCapacity(old(capacity), |old(contents)|, tokens[start..i], outputColors)
      {
        AppendNext(tokens, start, i, outputColors, old(contents), old(capacity));
        i := i + 1;
      }
    }

    /** One pass of that loop, after the tokens from `start` to `i` were appended to `base`. */
    method AppendNext(tokens: seq<seq<char>>, start: nat, i: nat, outputColors: bool, ghost base: string, ghost baseCapacity: nat)
      requires Valid() && hasArray && start <= i < |tokens|
      requires forall j :: 0 <= j < |tokens| ==> tokens[j] != [] && Util.NUL !in tokens[j]
      requires contents == base + Rendered(tokens[start..i], outputColors)
      requires capacity == RenderedCapacity(baseCapacity, |base|, tokens[start..i], outputColors)
      modifies this
      ensures Valid() && hasArray
      ensures contents == base + Rendered(tokens[start..i + 1], outputColors)
      ensures capacity == RenderedCapacity(baseCapacity, |base|, tokens[start..i + 1], outputColors)
    {
      ghost var before := capacity;
      ghost var sizeBefore := size;
      AppendPiece(tokens[i], outputColors);
      RenderedStep(tokens, start, i, outputColors, base, contents);
      RenderedCapacityStep(tokens, start, i, outputColors, baseCapacity, |base|, before, sizeBefore, capacity);
    }

    /** One pass of the loop of `stbColorize`: the escape of the token's code byte, then the rest of the token. */
    method AppendPiece(token: seq<char>, outputColors: bool)
      requires Valid() && hasArray && token != [] && Util.NUL !in token
      modifies this
      ensures Valid() && hasArray
      ensures contents == old(contents) + Piece(token, outputColors)
      ensures capacity == PieceCapacity(old(capacity), old(size), token, outputColors)
    {
      if outputColors {
        EscapeHasNoNul(token[0]);
        var written := Appendv(Some(Escape(token[0])));
      }
      var written := Appendv(Some(token[1..]));
    }
  }

  /** One more piece appended to the buffer extends the rendered run by one token. */
  lemma RenderedStep(toks: seq<seq<char>>, start: nat, i: nat, outputColors: bool, before: string, after: string)
    requires start <= i < |toks|
    requires after == before + Rendered(toks[start..i], outputColors) + Piece(toks[i], outputColors)
    ensures after == before + Rendered(toks[start..i + 1], outputColors)
  {
    RenderedLast(toks, start, i, outputColors);
    Associate(before, Rendered(toks[start..i], outputColors), Piece(toks[i], outputColors));
  }

  lemma RenderedLast(toks: seq<seq<char>>, start: nat, i: nat, outputColors: bool)
    requires start <= i < |toks|
    ensures Rendered(toks[start..i + 1], outputColors) == Rendered(toks[start..i], outputColors) + Piece(toks[i], outputColors)
  {
    SliceLast(toks, start, i);
  }

  /** One more piece appended moves the capacity on by that piece's appends. */
  lemma RenderedCapacityStep(toks: seq<seq<char>>, start: nat, i: nat, outputColors: bool,
                             capacity: nat, size: nat, before: nat, sizeBefore: nat, after: nat)
    requires start <= i < |toks| && forall j :: 0 <= j < |toks| ==> toks[j] != []
    requires before == RenderedCapacity(capacity, size, toks[start..i], outputColors)
    requires sizeBefore == size + |Rendered(toks[start..i], outputColors)|
    requires after == PieceCapacity(before, sizeBefore, toks[i], outputColors)
    ensures after == RenderedCapacity(capacity, size, toks[start..i + 1], outputColors)
  {
    SliceLast(toks, start, i);
  }

  lemma SliceLast<T>(s: seq<T>, start: nat, i: nat)
    requires start <= i < |s|
    ensures |s[start..i + 1]| == i + 1 - start
    ensures s[start..i + 1][i - start] == s[i] && s[start..i + 1][..i - start] == s[start..i]
  {
  }

  lemma Associate(a: string, b: string, c: string)
    ensures a + b + c == a + (b + c)
  {
  }

  /** The text the loop of `stbColorize` builds is `Colorized`. */
  lemma ColorizedFrom(s: seq<char>, outputColors: bool, head: string, start: nat)
    requires Tokens(s) != []
    requires start == (if !IsMarkerByte(s[0]) then 1 else 0)
    requires head == if start == 1 then Tokens(s)[0] else ""
    ensures Colorized(s, outputColors) == head + Rendered(Tokens(s)[start..], outputColors)
  {
  }

  /** The first token starts at the first byte exactly when that byte is not a marker. */
  lemma FirstToken(s: seq<char>)
    requires Tokens(s) != []
    ensures s[0] == Tokens(s)[0][0] <==> !IsMarkerByte(s[0])
  {
  }

  /** An escape sequence holds no terminator. */
  lemma EscapeHasNoNul(c: char)
    ensures Util.NUL !in Escape(c)
  {
    var color := CharValue(c);
    var n := if color == 'R' as int then 0
      else if color >= '8' as int then 30 + (if color >= 'A' as int then color - ('A' as int - 2) else color - '8' as int)
      else 30 + color - '0' as int;
    var digits := Numerals.Decimal(n);
    assert forall k :: 0 <= k < |digits| ==> digits[k] != Util.NUL by {
      if n < 0 {
        assert digits == "-" + Numerals.ToBase(-n, 10);
        forall k | 1 <= k < |digits| ensures digits[k] != Util.NUL {
          assert Numerals.IsDigitIn(Numerals.ToBase(-n, 10)[k - 1], 10);
        }
      } else {
        forall k | 0 <= k < |digits| ensures digits[k] != Util.NUL {
          assert Numerals.IsDigitIn(Numerals.ToBase(n, 10)[k], 10);
        }
      }
    }
  }
}
