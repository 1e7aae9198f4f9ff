/**
 * The `Compilation` class of the assembler (Assembler/scripts.js): a
 * single pass over the lines of the source text that writes words behind a
 * forward-only write head, resolves forward label references through a
 * ledger of fixups, and reports the first assembling error with its line.
 *
 * The semantics is given twice: as functions on an `Asm` value (the
 * specification), and as the class with the source's fields, whose methods
 * are proved to follow those functions.
 */
module AsmCompilation {
  import opened Wrappers
  import opened JsRuntime
  import opened AsmEncoding

  /** `fillPattern`, fixed at 0x0000 by the constructor. */
  const FILL_PATTERN: Number := Int(0)

  /** The fields of a `Compilation`. */
  datatype Asm = Asm(
    lineNo: nat,
    position: nat,
    memory: seq<Number>,
    labels: map<string, nat>,
    fixups: map<string, seq<nat>>)

  /** The state the constructor builds. */
  const INITIAL: Asm := Asm(1, 0, [], map[], map[])

  /** Offsets in strictly increasing order. */
  predicate Increasing(offsets: seq<nat>)
  {
    forall i, j :: 0 <= i < j < |offsets| ==> offsets[i] < offsets[j]
  }

  /**
   * What holds between lines: nothing is written at or past the write head,
   * a label with pending fixups is not defined yet, and every pending offset
   * is a written cell, each list in the order the references were met.
   */
  predicate Consistent(s: Asm)
  {
    |s.memory| <= s.position
    && (forall name :: name in s.fixups ==> name !in s.labels)
    && (forall name :: name in s.fixups ==> Increasing(s.fixups[name]))
    && (forall name, k :: name in s.fixups && 0 <= k < |s.fixups[name]| ==> s.fixups[name][k] < |s.memory|)
  }

  // ---------------------------------------------------------------------------
  // emit, moveHeadTo, advanceHead
  // ---------------------------------------------------------------------------

  /**
   * `emit(hex, times)`: the gap between the end of memory and the write head
   * is filled with the fill pattern, `times` copies of `hex` follow, and the
   * head moves past them.
   */
  function Emitted(s: Asm, hex: Number, times: nat): Asm
    requires |s.memory| <= s.position && times >= 1
  {
    s.(memory := s.memory + Repeat(FILL_PATTERN, s.position - |s.memory|) + Repeat(hex, times),
       position := s.position + times)
  }

  /** The three effects of `emit` on memory and the head; nothing else changes. */
  lemma EmitEffects(s: Asm, hex: Number, times: nat)
    requires |s.memory| <= s.position && times >= 1
    ensures var r := Emitted(s, hex, times);
      && r.position == s.position + times && |r.memory| == r.position
      && (forall k :: 0 <= k < |s.memory| ==> r.memory[k] == s.memory[k])
      && (forall k :: |s.memory| <= k < s.position ==> r.memory[k] == FILL_PATTERN)
      && (forall k :: s.position <= k < s.position + times ==> r.memory[k] == hex)
      && r.lineNo == s.lineNo && r.labels == s.labels && r.fixups == s.fixups
  {
    var gap := Repeat(FILL_PATTERN, s.position - |s.memory|);
    var m := s.memory + gap + Repeat(hex, times);
    assert forall k :: |s.memory| <= k < s.position ==> m[k] == gap[k - |s.memory|];
    assert forall k :: s.position <= k < s.position + times ==> m[k] == Repeat(hex, times)[k - s.position];
  }

  /** Emitting keeps the state consistent. */
  lemma EmitConsistent(s: Asm, hex: Number, times: nat)
    requires Consistent(s) && times >= 1
    ensures Consistent(Emitted(s, hex, times))
  {
    EmitEffects(s, hex, times);
  }

  /** `moveHeadTo(location)`: the head may only move forward. */
  function HeadMovedTo(s: Asm, location: int): (r: Outcome<Asm>)
    ensures r.Raised? <==> location < s.position
    ensures r.Raised? ==> r.exc == HeadMovedBackwards
    ensures r.Ok? ==> r.value.position == location && r.value.memory == s.memory
  {
    if location < s.position then Raised(HeadMovedBackwards) else Ok(s.(position := location))
  }

  /** `advanceHead(increment)`: a negative increment is refused. */
  function HeadAdvanced(s: Asm, increment: int): (r: Outcome<Asm>)
    ensures r.Raised? <==> increment < 0
    ensures r.Raised? ==> r.exc == HeadMovedBackwards
    ensures r.Ok? ==> r.value.position == s.position + increment && r.value.memory == s.memory
  {
    if increment < 0 then Raised(HeadMovedBackwards) else Ok(s.(position := s.position + increment))
  }

  /** Moving the head forward keeps the state consistent. */
  lemma HeadMovesConsistent(s: Asm, location: int, increment: int)
    requires Consistent(s)
    ensures HeadMovedTo(s, location).Ok? ==> Consistent(HeadMovedTo(s, location).value)
    ensures HeadAdvanced(s, increment).Ok? ==> Consistent(HeadAdvanced(s, increment).value)
  {
  }

  // ---------------------------------------------------------------------------
  // getTarget and label definitions
  // ---------------------------------------------------------------------------

  /**
   * `getTarget(target)`: a `:label` operand is the label's position when it
   * is defined, and otherwise 0 with the current position recorded as a
   * fixup; any other operand is an address. A missing operand is
   * `undefined`, whose `startsWith` throws.
   */
  function Target(s: Asm, target: Option<string>): Outcome<(Number, Asm)>
  {
    match target
    case None => Raised(UndefinedOperand)
    case Some(t) =>
      if StartsWith(t, ":") then
        var name := SubstringFrom(t, 1);
        if name in s.labels then Ok((Int(s.labels[name]), s))
        else
          var fixList := if name in s.fixups then s.fixups[name] else [];
          Ok((Int(0), s.(fixups := s.fixups[name := fixList + [s.position]])))
      else
        match ToAddress(t)
        case Raised(e) => Raised(e)
        case Ok(address) => Ok((address, s))
  }

  /** The three cases of `getTarget`. */
  lemma TargetCases(s: Asm, t: string)
    ensures var r := Target(s, Some(t));
      var name := SubstringFrom(t, 1);
      && (StartsWith(t, ":") && name in s.labels ==> r == Ok((Int(s.labels[name]), s)))
      && (StartsWith(t, ":") && name !in s.labels ==>
            r.Ok? && r.value.0 == Int(0)
            && r.value.1 == s.(fixups := r.value.1.fixups)
            && name in r.value.1.fixups
            && r.value.1.fixups[name] == (if name in s.fixups then s.fixups[name] else []) + [s.position]
            && (forall other :: other != name ==>
                  (other in r.value.1.fixups <==> other in s.fixups)
                  && (other in s.fixups ==> r.value.1.fixups[other] == s.fixups[other])))
      && (!StartsWith(t, ":") ==>
            match ToAddress(t)
            case Raised(e) => r == Raised(e)
            case Ok(a) => r == Ok((a, s)))
  {
  }

  /** `memory[fix] |= position` for every offset, in order. */
  function Patched(memory: seq<Number>, fixes: seq<nat>, position: nat): (r: seq<Number>)
    requires forall k :: 0 <= k < |fixes| ==> fixes[k] < |memory|
    ensures |r| == |memory|
    decreases |fixes|
  {
    if fixes == [] then memory
    else
      var m := Patched(memory, fixes[..|fixes| - 1], position);
      var fix := fixes[|fixes| - 1];
      m[fix := Int(BitOr(BitOperand(m[fix]), position))]
  }

  /** Each listed offset has the position OR-ed in once; every other cell is unchanged. */
  lemma {:induction false} PatchedCells(memory: seq<Number>, fixes: seq<nat>, position: nat)
    requires forall k :: 0 <= k < |fixes| ==> fixes[k] < |memory|
    requires Increasing(fixes)
    ensures forall k :: 0 <= k < |memory| ==>
      Patched(memory, fixes, position)[k] ==
        if k in fixes then Int(BitOr(BitOperand(memory[k]), position)) else memory[k]
    decreases |fixes|
  {
    if fixes != [] {
      var init := fixes[..|fixes| - 1];
      var fix := fixes[|fixes| - 1];
      PatchedCells(memory, init, position);
      assert fix !in init;
      forall k | 0 <= k < |memory|
        ensures k in fixes <==> k in init || k == fix
      {
        if k in fixes {
          var j :| 0 <= j < |fixes| && fixes[j] == k;
          if j < |fixes| - 1 { assert init[j] == k; }
        }
      }
    }
  }

  /** A label definition `name:` at the current position. */
  function LabelDefined(s: Asm, name: string): Asm
    requires Consistent(s)
  {
    var s1 := s.(labels := s.labels[name := s.position]);
    if name in s.fixups then
      s1.(memory := Patched(s.memory, s.fixups[name], s.position), fixups := s.fixups - {name})
    else s1
  }

  /**
   * Defining a label records its position, OR-s the position into every
   * cell waiting for it, drops its ledger entry and keeps the state consistent.
   */
  lemma LabelDefinedEffects(s: Asm, name: string)
    requires Consistent(s)
    ensures var r := LabelDefined(s, name);
      && r.labels == s.labels[name := s.position]
      && r.fixups == s.fixups - {name}
      && r.position == s.position && r.lineNo == s.lineNo && |r.memory| == |s.memory|
      && (forall k :: 0 <= k < |s.memory| ==>
            r.memory[k] ==
              if name in s.fixups && k in s.fixups[name] then Int(BitOr(BitOperand(s.memory[k]), s.position))
              else s.memory[k])
      && Consistent(r)
  {
    if name in s.fixups {
      PatchedCells(s.memory, s.fixups[name], s.position);
    }
  }

  /**
   * The placeholder of a forward reference is the bare opcode; the patch
   * turns it into the opcode with the 12-bit position as its address.
   */
  lemma PatchResolves(opcode: nat, position: nat)
    requires 1 <= opcode <= 4 && position < 0x1000
    ensures BitOr(opcode * 0x1000, BitOperand(Int(0))) == opcode * 0x1000
    ensures BitOr(BitOperand(Int(opcode * 0x1000)), position) == opcode * 0x1000 + position
  {
    OrZero(opcode * 0x1000);
    OrLow12(opcode, position);
  }

  // ---------------------------------------------------------------------------
  // dw and times
  // ---------------------------------------------------------------------------

  /** The message of the data-directive error (thrown without `new`, so a TypeError). */
  function BadDataDirective(mnemonic: string): string
  {
    "Bad data directive: " + mnemonic
  }

  /**
   * `interpretDataDirective(line)`: `dw N` emits N, refusing numbers above
   * 0xFFFF; NaN fails that comparison and is emitted as it is.
   */
  function DataDirective(s: Asm, line: string): (r: Outcome<Asm>)
    requires |s.memory| <= s.position
  {
    var tokens := Split(line, ' ');
    if tokens[0] == "dw" then
      var number := ParseArgument(Arg(tokens, 1));
      if number.Int? && number.i > 0xFFFF then Raised(Assembling(NumberExceedsWordSize))
      else Ok(Emitted(s, number, 1))
    else Raised(ConstructorCalledWithoutNew(BadDataDirective(tokens[0])))
  }

  /** The word a data directive emits, when it emits one; it does not depend on the state. */
  function DataWord(line: string): Option<Number>
  {
    var tokens := Split(line, ' ');
    var number := ParseArgument(Arg(tokens, 1));
    if tokens[0] == "dw" && !(number.Int? && number.i > 0xFFFF) then Some(number) else None
  }

  /** A data directive either emits its word or throws the same exception in every state. */
  lemma DataDirectiveCases(s: Asm, line: string)
    requires |s.memory| <= s.position
    ensures DataWord(line).Some? ==> DataDirective(s, line) == Ok(Emitted(s, DataWord(line).value, 1))
    ensures DataWord(line).None? ==> DataDirective(s, line).Raised?
    ensures DataWord(line).None? ==> forall t: Asm {:trigger DataDirective(t, line)} ::
      |t.memory| <= t.position ==> DataDirective(t, line) == DataDirective(s, line)
  {
  }

  /** The iteration count of `for (let i = 0; i < times; i++)`: NaN and negatives run no iteration. */
  function TimesCount(times: Number): nat
  {
    if times.Int? && times.i > 0 then times.i else 0
  }

  /** `n` iterations of a data directive. */
  function Repeated(s: Asm, line: string, n: nat): (r: Outcome<Asm>)
    requires |s.memory| <= s.position
    ensures r.Ok? ==> |r.value.memory| <= r.value.position
    decreases n
  {
    if n == 0 then Ok(s)
    else
      match Repeated(s, line, n - 1)
      case Raised(e) => Raised(e)
      case Ok(s1) => DataDirective(s1, line)
  }

  /**
   * `times N directive` emits the directive's word N times, one after the
   * other; when the directive throws, it throws before emitting anything.
   */
  lemma {:induction false} RepeatedEmits(s: Asm, line: string, n: nat)
    requires |s.memory| <= s.position
    ensures n == 0 ==> Repeated(s, line, n) == Ok(s)
    ensures n >= 1 && DataWord(line).Some? ==> Repeated(s, line, n) == Ok(Emitted(s, DataWord(line).value, n))
    ensures n >= 1 && DataWord(line).None? ==> Repeated(s, line, n) == DataDirective(s, line)
    decreases n
  {
    DataDirectiveCases(s, line);
    if n > 1 {
      RepeatedEmits(s, line, n - 1);
      if DataWord(line).Some? {
        var v := DataWord(line).value;
        var s1 := Emitted(s, v, n - 1);
        DataDirectiveCases(s1, line);
        EmittedTwice(s, v, n - 1);
      }
    }
  }

  /** Emitting a word n times and then once more is emitting it n + 1 times. */
  lemma EmittedTwice(s: Asm, hex: Number, n: nat)
    requires |s.memory| <= s.position && n >= 1
    ensures Emitted(Emitted(s, hex, n), hex, 1) == Emitted(s, hex, n + 1)
  {
    var gap := Repeat(FILL_PATTERN, s.position - |s.memory|);
    var r1 := Emitted(s, hex, n);
    assert r1.position - |r1.memory| == 0;
    assert Repeat(FILL_PATTERN, 0) == [];
    assert Repeat(hex, n) + Repeat(hex, 1) == Repeat(hex, n + 1);
    assert r1.memory + [] + Repeat(hex, 1) == s.memory + gap + Repeat(hex, n + 1);
  }

  // ---------------------------------------------------------------------------
  // One line
  // ---------------------------------------------------------------------------

  /** The opcode nibble of the memory-reference mnemonics. */
  function MemoryOpcode(mnemonic: string): (r: Option<nat>)
    ensures r.Some? ==> 1 <= r.value <= 4
  {
    if mnemonic == "lda" then Some(1)
    else if mnemonic == "sta" then Some(2)
    else if mnemonic == "jmp" then Some(3)
    else if mnemonic == "jnz" then Some(4)
    else None
  }

  /** Emits the result of an encoder, or passes its exception on. */
  function EmitWord(s: Asm, word: Outcome<int>): (r: Outcome<Asm>)
    requires |s.memory| <= s.position
  {
    match word
    case Raised(e) => Raised(e)
    case Ok(w) => Ok(Emitted(s, Int(w), 1))
  }

  /** `times N directive`: the directive after the count, run N times. */
  function TimesDirective(s: Asm, tokens: seq<string>): Outcome<Asm>
    requires |s.memory| <= s.position
  {
    var rest := if |tokens| >= 2 then tokens[2..] else [];
    Repeated(s, Join(rest, ' '), TimesCount(ParseArgument(Arg(tokens, 1))))
  }

  /** `lda`, `sta`, `jmp` and `jnz`: the opcode OR-ed with the target address. */
  function MemoryReference(s: Asm, opcode: nat, target: Option<string>): Outcome<Asm>
    requires |s.memory| <= s.position
  {
    match Target(s, target)
    case Raised(e) => Raised(e)
    case Ok((address, s1)) => Ok(Emitted(s1, Int(BitOr(opcode * 0x1000, BitOperand(address))), 1))
  }

  /**
   * The `switch` on the first space-separated token of a trimmed,
   * lower-cased, non-blank line that is not a label definition.
   */
  function Instruction(s: Asm, line: string): (r: Outcome<Asm>)
    requires |s.memory| <= s.position
  {
    var tokens := Split(line, ' ');
    var mnemonic := tokens[0];
    if mnemonic == "dw" then DataDirective(s, line)
    else if mnemonic == "times" then TimesDirective(s, tokens)
    else if mnemonic == "nop" then Ok(Emitted(s, Int(0), 1))
    else if MemoryOpcode(mnemonic).Some? then MemoryReference(s, MemoryOpcode(mnemonic).value, Arg(tokens, 1))
    else if mnemonic == "arit" then EmitWord(s, InterpretArit(line))
    else if mnemonic == "calc" then EmitWord(s, InterpretCalc(line))
    else if mnemonic == "hlt" then Ok(Emitted(s, Int(0xFFFF), 1))
    else Raised(Assembling(UnknownMnemonic(mnemonic)))
  }

  /** The text of a source line as the loop examines it. */
  function Cleaned(raw: string): string
  {
    ToLower(Trim(raw))
  }

  /** The body of the loop of `perform` on a cleaned line: blank lines, label definitions, instructions. */
  function Line(s: Asm, line: string): (r: Outcome<Asm>)
    requires Consistent(s)
  {
    if line == "" then Ok(s)
    else if EndsWith(line, ":") then Ok(LabelDefined(s, line[..|line| - 1]))
    else Instruction(s, line)
  }

  /** The ledger after a forward reference to `name` at the current position. */
  function Pushed(s: Asm, name: string): Asm
  {
    var list := if name in s.fixups then s.fixups[name] else [];
    s.(fixups := s.fixups[name := list + [s.position]])
  }

  /** A forward reference followed by the emit of its word keeps the state consistent. */
  lemma PushedConsistent(s: Asm, name: string, word: Number)
    requires Consistent(s) && name !in s.labels
    ensures Consistent(Emitted(Pushed(s, name), word, 1))
  {
    var s1 := Pushed(s, name);
    var r := Emitted(s1, word, 1);
    var list := if name in s.fixups then s.fixups[name] else [];
    assert |r.memory| == s.position + 1 && r.fixups == s1.fixups && r.labels == s.labels;
    forall n | n in r.fixups
      ensures n !in r.labels && Increasing(r.fixups[n])
      ensures forall k :: 0 <= k < |r.fixups[n]| ==> r.fixups[n][k] < |r.memory|
    {
      if n == name {
        assert forall k :: 0 <= k < |list| ==> list[k] < s.position;
        assert r.fixups[n] == list + [s.position];
      } else {
        assert r.fixups[n] == s.fixups[n];
      }
    }
  }

  /** A reference followed by the emit of its instruction keeps the state consistent. */
  lemma TargetConsistent(s: Asm, target: Option<string>, word: Number)
    requires Consistent(s) && Target(s, target).Ok?
    ensures var s1 := Target(s, target).value.1;
      |s1.memory| <= s1.position && s1.lineNo == s.lineNo && Consistent(Emitted(s1, word, 1))
  {
    var t := target.value;
    var name := SubstringFrom(t, 1);
    if StartsWith(t, ":") && name !in s.labels {
      assert Target(s, target).value.1 == Pushed(s, name);
      PushedConsistent(s, name, word);
    } else {
      assert Target(s, target).value.1 == s;
      EmitConsistent(s, word, 1);
    }
  }

  /** Each handler of an instruction keeps the state consistent and the line number unchanged. */
  lemma HandlersConsistent(s: Asm, line: string, tokens: seq<string>, opcode: nat, target: Option<string>, word: Outcome<int>)
    requires Consistent(s)
    ensures var r := DataDirective(s, line); r.Ok? ==> Consistent(r.value) && r.value.lineNo == s.lineNo
    ensures var r := TimesDirective(s, tokens); r.Ok? ==> Consistent(r.value) && r.value.lineNo == s.lineNo
    ensures var r := MemoryReference(s, opcode, target); r.Ok? ==> Consistent(r.value) && r.value.lineNo == s.lineNo
    ensures var r := EmitWord(s, word); r.Ok? ==> Consistent(r.value) && r.value.lineNo == s.lineNo
    ensures forall w :: Consistent(Emitted(s, w, 1)) && Emitted(s, w, 1).lineNo == s.lineNo
  {
    forall w ensures Consistent(Emitted(s, w, 1)) && Emitted(s, w, 1).lineNo == s.lineNo {
      EmitConsistent(s, w, 1);
    }
    DataDirectiveCases(s, line);
    var rest := if |tokens| >= 2 then tokens[2..] else [];
    var directive := Join(rest, ' ');
    var n := TimesCount(ParseArgument(Arg(tokens, 1)));
    RepeatedEmits(s, directive, n);
    if n >= 1 && DataWord(directive).Some? {
      EmitConsistent(s, DataWord(directive).value, n);
    }
    DataDirectiveCases(s, directive);
    if Target(s, target).Ok? {
      var w := Int(BitOr(opcode * 0x1000, BitOperand(Target(s, target).value.0)));
      TargetConsistent(s, target, w);
    }
  }

  /** An instruction line keeps the state consistent and the line number unchanged. */
  lemma InstructionConsistent(s: Asm, line: string)
    requires Consistent(s)
    ensures var r := Instruction(s, line);
      r.Ok? ==> Consistent(r.value) && r.value.lineNo == s.lineNo
  {
    var tokens := Split(line, ' ');
    var mnemonic := tokens[0];
    var opcode := MemoryOpcode(mnemonic);
    var word := if mnemonic == "arit" then InterpretArit(line) else InterpretCalc(line);
    HandlersConsistent(s, line, tokens, if opcode.Some? then opcode.value else 0, Arg(tokens, 1), word);
    var r := Instruction(s, line);
    if mnemonic == "dw" {
      assert r == DataDirective(s, line);
    } else if mnemonic == "times" {
      assert r == TimesDirective(s, tokens);
    } else if mnemonic == "nop" {
      assert r == Ok(Emitted(s, Int(0), 1));
    } else if opcode.Some? {
      assert r == MemoryReference(s, opcode.value, Arg(tokens, 1));
    } else if mnemonic == "arit" || mnemonic == "calc" {
      assert r == EmitWord(s, word);
    } else if mnemonic == "hlt" {
      assert r == Ok(Emitted(s, Int(0xFFFF), 1));
    }
  }

  /** A line keeps the state consistent and the line number unchanged. */
  lemma LineConsistent(s: Asm, line: string)
    requires Consistent(s)
    ensures var r := Line(s, line);
      r.Ok? ==> Consistent(r.value) && r.value.lineNo == s.lineNo
  {
    if line != "" {
      if EndsWith(line, ":") {
        LabelDefinedEffects(s, line[..|line| - 1]);
      } else {
        InstructionConsistent(s, line);
      }
    }
  }

  // ---------------------------------------------------------------------------
  // perform
  // ---------------------------------------------------------------------------

  /**
   * How `perform` ends: it returns true, or it catches an `AssemblingError`
   * and returns false with the line it was at, or an exception of any other
   * kind escapes it.
   */
  datatype Verdict = Assembled | Failed(lineNo: nat, error: AsmError) | Escaped(exc: Exception)

  /** The `catch` of `perform`: an `AssemblingError` is reported with the line, anything else is rethrown. */
  function Caught(lineNo: nat, exc: Exception): Verdict
  {
    if exc.Assembling? then Failed(lineNo, exc.error) else Escaped(exc)
  }

  /** The loop of `perform` from the current line on, and the check of the ledger after it. */
  function Run(s: Asm, lines: seq<string>): (Verdict, Asm)
    requires Consistent(s) && s.lineNo >= 1
    decreases |lines| - s.lineNo, 3
  {
    if s.lineNo < |lines| then Iteration(s, lines)
    else if s.fixups != map[] then (Failed(s.lineNo, IncompleteFixups), s)
    else (Assembled, s)
  }

  /** One pass of the loop: the current line, trimmed and lower-cased. */
  function Iteration(s: Asm, lines: seq<string>): (Verdict, Asm)
    requires Consistent(s) && 1 <= s.lineNo < |lines|
    decreases |lines| - s.lineNo, 2
  {
    Attempt(s, Cleaned(lines[s.lineNo - 1]), lines)
  }

  /** The body of the loop on the cleaned `line`, inside the `try`. */
  function Attempt(s: Asm, line: string, lines: seq<string>): (Verdict, Asm)
    requires Consistent(s) && 1 <= s.lineNo < |lines|
    decreases |lines| - s.lineNo, 1
  {
    LineConsistent(s, line);
    Resume(s, Line(s, line), lines)
  }

  /**
   * What the loop does with the outcome `o` of the current line: an
   * `AssemblingError` is caught and reported with the line, any other
   * exception escapes, and a line that went through moves on to the next.
   */
  function Resume(s: Asm, o: Outcome<Asm>, lines: seq<string>): (Verdict, Asm)
    requires Consistent(s) && 1 <= s.lineNo < |lines|
    requires o.Ok? ==> Consistent(o.value) && o.value.lineNo == s.lineNo
    decreases |lines| - s.lineNo, 0
  {
    match o
    case Raised(exc) => (Caught(s.lineNo, exc), s)
    case Ok(s1) => Run(s1.(lineNo := s.lineNo + 1), lines)
  }

  /** `perform()` on the text of the editor: its lines are the pieces between newlines. */
  function Performed(s: Asm, text: string): (Verdict, Asm)
    requires Consistent(s) && s.lineNo >= 1
  {
    Run(s, Split(text, '\n'))
  }

  /** The three kinds of line. */
  lemma LineCases(s: Asm, line: string)
    requires Consistent(s)
    ensures line == "" ==> Line(s, line) == Ok(s)
    ensures line != "" && EndsWith(line, ":") ==> Line(s, line) == Ok(LabelDefined(s, line[..|line| - 1]))
    ensures line != "" && !EndsWith(line, ":") ==> Line(s, line) == Instruction(s, line)
  {
  }

  /** One iteration of the loop, as an equation. */
  lemma RunStep(s: Asm, lines: seq<string>, line: string, o: Outcome<Asm>)
    requires Consistent(s) && 1 <= s.lineNo < |lines|
    requires line == Cleaned(lines[s.lineNo - 1]) && o == Line(s, line)
    ensures o.Ok? ==> Consistent(o.value) && o.value.lineNo == s.lineNo
    ensures Run(s, lines) == Resume(s, o, lines)
  {
    LineConsistent(s, line);
    assert Run(s, lines) == Iteration(s, lines);
    assert Iteration(s, lines) == Attempt(s, line, lines);
  }

  /** How a run over `lines` may end: with verdict `v` in state `t`. */
  predicate Ended(lines: seq<string>, v: Verdict, t: Asm)
  {
    && Consistent(t)
    && (v == Assembled ==> t.fixups == map[] && t.lineNo >= |lines|)
    && (t.lineNo >= |lines| && t.fixups != map[] ==> v == Failed(t.lineNo, IncompleteFixups))
    && (v.Failed? ==> v.lineNo == t.lineNo)
  }

  /**
   * The loop stops at the last line or at the first throw, in a consistent
   * state; it succeeds only with an empty ledger, and a loop that ran to the
   * end with references still pending fails on that line, even though every
   * line was encoded.
   */
  lemma {:induction false} RunEnds(s: Asm, lines: seq<string>)
    requires Consistent(s) && s.lineNo >= 1
    ensures Ended(lines, Run(s, lines).0, Run(s, lines).1) && Run(s, lines).1.lineNo >= s.lineNo
    decreases |lines| - s.lineNo, 1
  {
    if s.lineNo < |lines| {
      var line := Cleaned(lines[s.lineNo - 1]);
      var o := Line(s, line);
      RunStep(s, lines, line, o);
      ResumeEnds(s, o, lines);
    }
  }

  /** The same for the rest of the loop after a line with outcome `o`. */
  lemma {:induction false} ResumeEnds(s: Asm, o: Outcome<Asm>, lines: seq<string>)
    requires Consistent(s) && 1 <= s.lineNo < |lines|
    requires o.Ok? ==> Consistent(o.value) && o.value.lineNo == s.lineNo
    ensures Ended(lines, Resume(s, o, lines).0, Resume(s, o, lines).1) && Resume(s, o, lines).1.lineNo >= s.lineNo
    decreases |lines| - s.lineNo, 0
  {
    if o.Ok? {
      var next := o.value.(lineNo := s.lineNo + 1);
      assert Consistent(next);
      var r := Run(next, lines);
      assert Resume(s, o, lines) == r;
      RunEnds(next, lines);
      assert Ended(lines, r.0, r.1) && r.1.lineNo >= s.lineNo;
    } else {
      ResumeStops(s, o, lines);
    }
  }

  /** A line that went through moves the loop on to the next line. */
  lemma ResumeGoesOn(s: Asm, o: Outcome<Asm>, lines: seq<string>)
    requires Consistent(s) && 1 <= s.lineNo < |lines| && o.Ok?
    requires Consistent(o.value) && o.value.lineNo == s.lineNo
    ensures Resume(s, o, lines) == Run(o.value.(lineNo := s.lineNo + 1), lines)
  {
  }

  /** What one pass of the loop, seen from the class, does to the run. */
  lemma LineRun(s: Asm, lines: seq<string>, line: string, thrown: Option<Exception>, t: Asm)
    requires Consistent(s)
    requires 1 <= s.lineNo < |lines|
    requires line == Cleaned(lines[s.lineNo - 1])
    requires Follows(Line(s, line), s, t, thrown)
    ensures thrown.Some? ==> t == s
    ensures thrown.Some? ==> Run(s, lines) == (Caught(s.lineNo, thrown.value), s)
    ensures thrown.None? ==> Consistent(t) && t.lineNo == s.lineNo
    ensures thrown.None? ==> Run(s, lines) == Run(t.(lineNo := s.lineNo + 1), lines)
  {
    var o := Line(s, line);
    RunStep(s, lines, line, o);
    if o.Ok? {
      ResumeGoesOn(s, o, lines);
    } else {
      ResumeStops(s, o, lines);
    }
  }

  /** A throw stops the loop on the line it happened, in the state before that line. */
  lemma ResumeStops(s: Asm, o: Outcome<Asm>, lines: seq<string>)
    requires Consistent(s) && 1 <= s.lineNo < |lines| && o.Raised?
    ensures var (v, t) := Resume(s, o, lines);
      t == s && (if o.exc.Assembling? then v == Failed(s.lineNo, o.exc.error) else v == Escaped(o.exc))
  {
  }

  /** The last piece of the text is never processed: `lineNo` stops one short of `lines.length`. */
  lemma {:induction false} LastLineIgnored(s: Asm, lines: seq<string>, x: string, y: string)
    requires Consistent(s) && s.lineNo >= 1
    ensures Run(s, lines + [x]) == Run(s, lines + [y])
    decreases |lines| + 1 - s.lineNo, 1
  {
    var a, b := lines + [x], lines + [y];
    if s.lineNo < |a| {
      var line := Cleaned(a[s.lineNo - 1]);
      assert line == Cleaned(b[s.lineNo - 1]);
      var o := Line(s, line);
      RunStep(s, a, line, o);
      RunStep(s, b, line, o);
      ResumeIgnoresLast(s, o, lines, x, y);
    }
  }

  /** The same for the rest of the loop after a line with outcome `o`. */
  lemma {:induction false} ResumeIgnoresLast(s: Asm, o: Outcome<Asm>, lines: seq<string>, x: string, y: string)
    requires Consistent(s) && 1 <= s.lineNo < |lines| + 1
    requires o.Ok? ==> Consistent(o.value) && o.value.lineNo == s.lineNo
    ensures Resume(s, o, lines + [x]) == Resume(s, o, lines + [y])
    decreases |lines| + 1 - s.lineNo, 0
  {
    if o.Ok? {
      var next := o.value.(lineNo := s.lineNo + 1);
      assert Consistent(next);
      assert Resume(s, o, lines + [x]) == Run(next, lines + [x]);
      assert Resume(s, o, lines + [y]) == Run(next, lines + [y]);
      LastLineIgnored(next, lines, x, y);
    }
  }

  // ---------------------------------------------------------------------------
  // The class
  // ---------------------------------------------------------------------------

  /** How a step that may throw relates the states before and after it to its specification. */
  predicate Follows(o: Outcome<Asm>, before: Asm, after: Asm, thrown: Option<Exception>)
  {
    match o
    case Ok(s1) => thrown == None && after == s1
    case Raised(e) => thrown == Some(e) && after == before
  }

  /** `Array.prototype.fill(v, from, to)` on a range inside the array. */
  function Fill(m: seq<Number>, v: Number, from: nat, to: nat): (r: seq<Number>)
    requires from <= to <= |m|
    ensures |r| == |m|
    ensures forall k :: 0 <= k < |m| ==> r[k] == if from <= k < to then v else m[k]
  {
    m[..from] + Repeat(v, to - from) + m[to..]
  }

  /**
   * `m[index] = v` at or past the end of a JavaScript array: the array grows
   * to `index + 1`; the cells skipped over are holes, stood in for here by
   * `hole` (every caller overwrites them at once).
   */
  function Stored(m: seq<Number>, index: nat, v: Number, hole: Number): (r: seq<Number>)
    requires |m| <= index
    ensures |r| == index + 1 && r[index] == v
    ensures forall k :: 0 <= k < |m| ==> r[k] == m[k]
  {
    m + Repeat(hole, index - |m|) + [v]
  }

  /** The state of an assembly run: the fields of the JavaScript class `Compilation`. */
  class Compilation {
    var lineNo: nat
    var position: nat
    var fillPattern: Number
    var memory: seq<Number>
    var labels: map<string, nat>
    var fixups: map<string, seq<nat>>

    /** The fields as a value, for the specification functions. */
    function State(): Asm
      reads this
    {
      Asm(lineNo, position, memory, labels, fixups)
    }

    predicate Valid()
      reads this
    {
      fillPattern == FILL_PATTERN && Consistent(State())
    }

    constructor()
      ensures Valid() && State() == INITIAL
    {
      lineNo := 1;
      position := 0;
      fillPattern := Int(0);
      memory := [];
      labels := map[];
      fixups := map[];
    }

    /** `emit(hex, times)`. */
    method Emit(hex: Number, times: nat)
      requires |memory| <= position && times >= 1 && fillPattern == FILL_PATTERN
      modifies this
      ensures State() == Emitted(old(State()), hex, times)
      ensures fillPattern == old(fillPattern)
    {
      var currentPointer := |memory|;
      memory := Stored(memory, position + times - 1, hex, fillPattern);
      memory := Fill(memory, hex, position, position + times);
      memory := Fill(memory, fillPattern, currentPointer, position);
      ghost var spec := Emitted(old(State()), hex, times);
      EmitEffects(old(State()), hex, times);
      assert memory == spec.memory;
      position := position + times;
    }

    /** `moveHeadTo(location)`. */
    method MoveHeadTo(location: int) returns (thrown: Option<Exception>)
      modifies this
      ensures Follows(HeadMovedTo(old(State()), location), old(State()), State(), thrown)
      ensures fillPattern == old(fillPattern)
    {
      if location < position {
        return Some(HeadMovedBackwards);
      }
      position := location;
      return None;
    }

    /** `advanceHead(increment)`. */
    method AdvanceHead(increment: int) returns (thrown: Option<Exception>)
      modifies this
      ensures Follows(HeadAdvanced(old(State()), increment), old(State()), State(), thrown)
      ensures fillPattern == old(fillPattern)
    {
      if increment < 0 {
        return Some(HeadMovedBackwards);
      }
      position := position + increment;
      return None;
    }

    /** `getTarget(target)`: the address, and the fixup it may record. */
    method GetTarget(target: Option<string>) returns (address: Outcome<Number>)
      modifies this
      ensures match Target(old(State()), target)
        case Ok((a, s1)) => address == Ok(a) && State() == s1
        case Raised(e) => address == Raised(e) && State() == old(State())
      ensures fillPattern == old(fillPattern)
    {
      if target.None? {
        return Raised(UndefinedOperand);
      }
      var t := target.value;
      if StartsWith(t, ":") {
        var labelName := SubstringFrom(t, 1);
        if labelName in labels {
          return Ok(Int(labels[labelName]));
        }
        var fixList := if labelName in fixups then fixups[labelName] else [];
        fixups := fixups[labelName := fixList + [position]];
        return Ok(Int(0));
      }
      address := ToAddress(t);
    }

    /** A label definition `labelName:`: record it and patch every reference waiting for it. */
    method DefineLabel(labelName: string)
      requires Valid()
      modifies this
      ensures State() == LabelDefined(old(State()), labelName) && Valid()
    {
      ghost var spec := LabelDefined(State(), labelName);
      LabelDefinedEffects(State(), labelName);
      var position := this.position;
      labels := labels[labelName := position];
      if labelName in fixups {
        var fixes := fixups[labelName];
        assert forall k :: 0 <= k < |fixes| ==> fixes[k] < |old(memory)|;
        var i := 0;
        while i < |fixes|
          invariant 0 <= i <= |fixes|
          invariant memory == Patched(old(memory), fixes[..i], position) && |memory| == |old(memory)|
          invariant labels == old(labels)[labelName := position] && fixups == old(fixups)
          invariant this.position == position && lineNo == old(lineNo) && fillPattern == old(fillPattern)
        {
          assert fixes[..i + 1][..i] == fixes[..i];
          var fix := fixes[i];
          memory := memory[fix := Int(BitOr(BitOperand(memory[fix]), position))];
          i := i + 1;
        }
        assert fixes[..i] == fixes;
        fixups := fixups - {labelName};
      }
      assert State() == spec;
    }

    /** `interpretDataDirective(line)`. */
    method InterpretDataDirective(line: string) returns (thrown: Option<Exception>)
      requires |memory| <= position && fillPattern == FILL_PATTERN
      modifies this
      ensures Follows(DataDirective(old(State()), line), old(State()), State(), thrown)
      ensures fillPattern == old(fillPattern)
    {
      var tokens := Split(line, ' ');
      if tokens[0] == "dw" {
        var number := ParseArgument(Arg(tokens, 1));
        if number.Int? && number.i > 0xFFFF {
          return Some(Assembling(NumberExceedsWordSize));
        }
        Emit(number, 1);
        return None;
      }
      return Some(ConstructorCalledWithoutNew(BadDataDirective(tokens[0])));
    }

    /** `times N directive`: the directive, N times over; NaN and negative counts run it never. */
    method InterpretTimes(tokens: seq<string>) returns (thrown: Option<Exception>)
      requires |memory| <= position && fillPattern == FILL_PATTERN
      modifies this
      ensures Follows(TimesDirective(old(State()), tokens), old(State()), State(), thrown)
      ensures fillPattern == old(fillPattern)
    {
      var times := ParseArgument(Arg(tokens, 1));
      var directive := Join(if |tokens| >= 2 then tokens[2..] else [], ' ');
      var count := TimesCount(times);
      ghost var start := State();
      RepeatedEmits(start, directive, count);
      var i := 0;
      while i < count
        invariant 0 <= i <= count && |memory| <= position && fillPattern == FILL_PATTERN
        invariant Repeated(start, directive, i) == Ok(State())
        invariant i > 0 ==> DataWord(directive).Some?
      {
        ghost var before := State();
        DataDirectiveCases(before, directive);
        thrown := InterpretDataDirective(directive);
        if thrown.Some? {
          RepeatedEmits(start, directive, i);
          return;
        }
        i := i + 1;
      }
      thrown := None;
    }

    /** A memory-reference instruction: the opcode OR-ed with the target address. */
    method InterpretReference(opcode: nat, target: Option<string>) returns (thrown: Option<Exception>)
      requires |memory| <= position && fillPattern == FILL_PATTERN
      modifies this
      ensures Follows(MemoryReference(old(State()), opcode, target), old(State()), State(), thrown)
      ensures fillPattern == old(fillPattern)
    {
      var address := GetTarget(target);
      match address
      case Raised(e) => return Some(e);
      case Ok(a) =>
        Emit(Int(BitOr(opcode * 0x1000, BitOperand(a))), 1);
        return None;
    }

    /** Emits the word an encoder built, or passes its exception on. */
    method EmitEncoded(word: Outcome<int>) returns (thrown: Option<Exception>)
      requires |memory| <= position && fillPattern == FILL_PATTERN
      modifies this
      ensures Follows(EmitWord(old(State()), word), old(State()), State(), thrown)
      ensures fillPattern == old(fillPattern)
    {
      match word
      case Raised(e) => return Some(e);
      case Ok(w) =>
        Emit(Int(w), 1);
        return None;
    }

    /** The `switch` of `perform` on the first token of an instruction line. */
    method InterpretInstruction(line: string) returns (thrown: Option<Exception>)
      requires |memory| <= position && fillPattern == FILL_PATTERN
      modifies this
      ensures Follows(Instruction(old(State()), line), old(State()), State(), thrown)
      ensures fillPattern == old(fillPattern)
    {
      var tokens := Split(line, ' ');
      var instr := tokens[0];
      ghost var s := State();
      if instr == "dw" {
        thrown := InterpretDataDirective(line);
        assert Instruction(s, line) == DataDirective(s, line);
      } else if instr == "times" {
        thrown := InterpretTimes(tokens);
        assert Instruction(s, line) == TimesDirective(s, tokens);
      } else if instr == "nop" {
        Emit(Int(0x0000), 1);
        thrown := None;
        assert Instruction(s, line) == Ok(Emitted(s, Int(0), 1));
      } else if MemoryOpcode(instr).Some? {
        thrown := InterpretReference(MemoryOpcode(instr).value, Arg(tokens, 1));
        assert Instruction(s, line) == MemoryReference(s, MemoryOpcode(instr).value, Arg(tokens, 1));
      } else if instr == "arit" {
        thrown := EmitEncoded(InterpretArit(line));
        assert Instruction(s, line) == EmitWord(s, InterpretArit(line));
      } else if instr == "calc" {
        thrown := EmitEncoded(InterpretCalc(line));
        assert Instruction(s, line) == EmitWord(s, InterpretCalc(line));
      } else if instr == "hlt" {
        Emit(Int(0xFFFF), 1);
        thrown := None;
        assert Instruction(s, line) == Ok(Emitted(s, Int(0xFFFF), 1));
      } else {
        thrown := Some(Assembling(UnknownMnemonic(instr)));
        assert Instruction(s, line) == Raised(Assembling(UnknownMnemonic(instr)));
      }
    }

    /** The body of the loop of `perform` on a cleaned line: blank, label definition or instruction. */
    method InterpretLine(line: string) returns (thrown: Option<Exception>)
      requires Valid()
      modifies this
      ensures Follows(Line(old(State()), line), old(State()), State(), thrown)
      ensures Valid()
    {
      ghost var s := State();
      LineCases(s, line);
      LineConsistent(s, line);
      if line == "" {
        return None;
      }
      if EndsWith(line, ":") {
        DefineLabel(line[..|line| - 1]);
        return None;
      }
      thrown := InterpretInstruction(line);
    }

    /**
     * One pass of the loop of `perform` on `lines`: either the line throws and
     * the pass ends `perform` with the outcome of the whole run, or it goes
     * through and the run from the next line has that outcome.
     */
    method PerformLine(lines: seq<string>, ghost outcome: (Verdict, Asm)) returns (done: bool, verdict: Verdict)
      requires Valid() && 1 <= lineNo < |lines| && Run(State(), lines) == outcome
      modifies this
      ensures Valid()
      ensures done ==> (verdict, State()) == outcome
      ensures !done ==> lineNo == old(lineNo) + 1 && Run(State(), lines) == outcome
    {
      ghost var s := State();
      var line := Cleaned(lines[lineNo - 1]);
      assert Consistent(s);
      assert line == Cleaned(lines[s.lineNo - 1]);
      var thrown := InterpretLine(line);
      ghost var t := State();
      LineRun(s, lines, line, thrown, t);
      if thrown.Some? {
        done := true;
        verdict := Caught(lineNo, thrown.value);
        return;
      }
      done, verdict := false, Assembled;
      lineNo := lineNo + 1;
      assert State() == t.(lineNo := s.lineNo + 1);
    }

    /** `perform()` on the editor's text: the verdict and the final state are those of `Performed`. */
    method Perform(text: string) returns (verdict: Verdict)
      requires Valid() && lineNo >= 1
      modifies this
      ensures Valid() && (verdict, State()) == Performed(old(State()), text)
    {
      var lines := Split(text, '\n');
      ghost var outcome := Run(State(), lines);
      while lineNo < |lines|
        invariant Valid() && lineNo >= 1
        invariant Run(State(), lines) == outcome
        decreases |lines| - lineNo
      {
        var done;
        done, verdict := PerformLine(lines, outcome);
        if done {
          return;
        }
      }
      if fixups != map[] {
        verdict := Failed(lineNo, IncompleteFixups);
      } else {
        verdict := Assembled;
      }
    }

    /** `output()`: bundling is the constant `false`, so every word is written out on its own. */
    method Output() returns (output: string)
      ensures output == FlatImage(memory)
    {
      var bundling := false;
      output := Serialise(memory, bundling);
    }
  }
}
