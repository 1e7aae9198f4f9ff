/**
 * Forward references in the assembler (Assembler/scripts.js). A reference
 * `lda`, `sta`, `jmp` or `jnz` to a label not yet defined emits the bare
 * opcode and queues the cell under the label; the label's definition OR-s
 * its position into every queued cell. This module proves that the cell then
 * holds the opcode with the label's address, however many lines lie between
 * the reference and the definition.
 */
module AsmFixups {
  import opened Wrappers
  import opened JsRuntime
  import opened AsmEncoding
  import opened AsmCompilation

  // ---------------------------------------------------------------------------
  // The ledger's promise
  // ---------------------------------------------------------------------------

  /** The word a forward reference leaves behind: the bare opcode of lda, sta, jmp or jnz. */
  predicate Placeholder(v: Number)
  {
    v.Int? && v.i in {0x1000, 0x2000, 0x3000, 0x4000}
  }

  /**
   * What the ledger promises beyond `Consistent`: every queued cell still
   * holds its placeholder, and no cell is queued under two labels.
   */
  predicate Resolvable(s: Asm)
  {
    && Consistent(s)
    && (forall name, k :: name in s.fixups && 0 <= k < |s.fixups[name]| ==> Placeholder(s.memory[s.fixups[name][k]]))
    && (forall a, b, i, j ::
          (a in s.fixups && b in s.fixups && 0 <= i < |s.fixups[a]| && 0 <= j < |s.fixups[b]|
           && s.fixups[a][i] == s.fixups[b][j]) ==> a == b)
  }

  /** Cell `offset` is queued under `name` and holds `v`. */
  predicate Awaits(s: Asm, name: string, offset: nat, v: Number)
  {
    name in s.fixups && offset in s.fixups[name] && offset < |s.memory| && s.memory[offset] == v
  }

  /** Cell `offset` holds `w` and is queued under no label. */
  predicate Settled(s: Asm, offset: nat, w: Number)
  {
    && offset < |s.memory| && s.memory[offset] == w
    && (forall name, k :: name in s.fixups && 0 <= k < |s.fixups[name]| ==> s.fixups[name][k] != offset)
  }

  /**
   * What an instruction line does to the state: the labels stay, the written
   * cells stay, each queue only grows at its end, and every newly queued
   * cell lies past the old end of memory.
   */
  predicate Extends(s: Asm, t: Asm)
  {
    && t.labels == s.labels
    && |s.memory| <= |t.memory|
    && (forall k :: 0 <= k < |s.memory| ==> t.memory[k] == s.memory[k])
    && (forall name :: name in s.fixups ==> name in t.fixups && s.fixups[name] <= t.fixups[name])
    && (forall name, k :: name in t.fixups && 0 <= k < |t.fixups[name]| ==>
          t.fixups[name][k] >= |s.memory| || (name in s.fixups && k < |s.fixups[name]|))
  }

  /** The constructor's ledger is empty. */
  lemma InitialResolvable()
    ensures Resolvable(INITIAL)
  {
  }

  /** An extension keeps every queued cell queued with its word, every settled cell settled, and the labels. */
  lemma ExtendsKeeps(s: Asm, t: Asm)
    requires Consistent(s) && Extends(s, t)
    ensures forall name, offset, v :: Awaits(s, name, offset, v) ==> Awaits(t, name, offset, v)
    ensures forall offset, w :: Settled(s, offset, w) ==> Settled(t, offset, w)
    ensures forall name :: name in s.labels ==> name in t.labels && t.labels[name] == s.labels[name]
  {
    forall name, offset, v | Awaits(s, name, offset, v)
      ensures Awaits(t, name, offset, v)
    {
      var i :| 0 <= i < |s.fixups[name]| && s.fixups[name][i] == offset;
      assert t.fixups[name][i] == offset;
    }
    forall offset, w | Settled(s, offset, w)
      ensures Settled(t, offset, w)
    {
      forall name, k | name in t.fixups && 0 <= k < |t.fixups[name]|
        ensures t.fixups[name][k] != offset
      {
        if t.fixups[name][k] < |s.memory| {
          assert t.fixups[name][k] == s.fixups[name][k];
        }
      }
    }
  }

  // ---------------------------------------------------------------------------
  // Instruction lines
  // ---------------------------------------------------------------------------

  /** Emitting writes only past the end of memory and leaves the ledger as it is. */
  lemma EmitExtends(s: Asm, hex: Number, times: nat)
    requires Resolvable(s) && times >= 1
    ensures Extends(s, Emitted(s, hex, times)) && Resolvable(Emitted(s, hex, times))
  {
    EmitEffects(s, hex, times);
    EmitConsistent(s, hex, times);
  }

  /**
   * A reference to `name`, not yet defined, leaves the bare opcode at the
   * write head and queues that cell under `name`.
   */
  lemma PushedAwaits(s: Asm, name: string, opcode: nat)
    requires Consistent(s) && name !in s.labels && 1 <= opcode <= 4
    ensures var r := Emitted(Pushed(s, name), Int(opcode * 0x1000), 1);
      && Consistent(r)
      && Awaits(r, name, s.position, Int(opcode * 0x1000))
      && r.fixups[name] == (if name in s.fixups then s.fixups[name] else []) + [s.position]
      && (forall other :: other != name ==>
            (other in r.fixups <==> other in s.fixups) && (other in s.fixups ==> r.fixups[other] == s.fixups[other]))
  {
    var w := Int(opcode * 0x1000);
    PushedConsistent(s, name, w);
    EmitEffects(Pushed(s, name), w, 1);
  }

  /** The queues after a forward reference: the old ones, with the write head added under `name`. */
  lemma PushedQueues(s: Asm, name: string)
    requires Consistent(s)
    ensures var p := Pushed(s, name);
      && (forall n, k :: n in p.fixups && 0 <= k < |p.fixups[n]| ==>
            (n == name && p.fixups[n][k] == s.position)
            || (n in s.fixups && k < |s.fixups[n]| && p.fixups[n][k] == s.fixups[n][k]))
      && (forall n :: n in s.fixups ==> n in p.fixups && s.fixups[n] <= p.fixups[n])
  {
    var p := Pushed(s, name);
    var list := if name in s.fixups then s.fixups[name] else [];
    assert p.fixups[name] == list + [s.position];
  }

  /** The bare opcode of a memory reference is a placeholder. */
  lemma OpcodePlaceholder(opcode: nat)
    requires 1 <= opcode <= 4
    ensures Placeholder(Int(opcode * 0x1000))
  {
    assert opcode == 1 || opcode == 2 || opcode == 3 || opcode == 4;
  }

  /** The same reference keeps the ledger resolvable and extends the state. */
  lemma PushedExtends(s: Asm, name: string, opcode: nat)
    requires Resolvable(s) && name !in s.labels && 1 <= opcode <= 4
    ensures var r := Emitted(Pushed(s, name), Int(opcode * 0x1000), 1);
      Extends(s, r) && Resolvable(r)
  {
    var w := Int(opcode * 0x1000);
    var p := Pushed(s, name);
    var r := Emitted(p, w, 1);
    PushedAwaits(s, name, opcode);
    PushedQueues(s, name);
    EmitEffects(p, w, 1);
    OpcodePlaceholder(opcode);
    assert r.fixups == p.fixups && r.labels == s.labels && |s.memory| <= s.position;
    forall n, k | n in r.fixups && 0 <= k < |r.fixups[n]|
      ensures Placeholder(r.memory[r.fixups[n][k]])
      ensures r.fixups[n][k] == s.position ==> n == name
      ensures r.fixups[n][k] != s.position ==> n in s.fixups && k < |s.fixups[n]| && r.fixups[n][k] == s.fixups[n][k]
    {
      if !(n == name && r.fixups[n][k] == s.position) {
        assert s.fixups[n][k] < |s.memory|;
      }
    }
    forall a, b, i, j | a in r.fixups && b in r.fixups && 0 <= i < |r.fixups[a]| && 0 <= j < |r.fixups[b]|
        && r.fixups[a][i] == r.fixups[b][j]
      ensures a == b
    {
      if r.fixups[a][i] != s.position {
        assert s.fixups[a][i] == s.fixups[b][j];
      }
    }
    assert Resolvable(r);
  }

  /** A memory reference keeps the ledger resolvable and extends the state. */
  lemma ReferenceExtends(s: Asm, opcode: nat, target: Option<string>)
    requires Resolvable(s) && 1 <= opcode <= 4
    ensures var r := MemoryReference(s, opcode, target);
      r.Ok? ==> Extends(s, r.value) && Resolvable(r.value)
  {
    if Target(s, target).Ok? {
      var (address, s1) := Target(s, target).value;
      var word := Int(BitOr(opcode * 0x1000, BitOperand(address)));
      var t := target.value;
      var name := SubstringFrom(t, 1);
      if StartsWith(t, ":") && name !in s.labels {
        assert s1 == Pushed(s, name) && address == Int(0);
        PatchResolves(opcode, 0);
        PushedExtends(s, name, opcode);
      } else {
        assert s1 == s;
        EmitExtends(s, word, 1);
      }
    }
  }

  /** `dw` keeps the ledger resolvable and extends the state. */
  lemma DataExtends(s: Asm, line: string)
    requires Resolvable(s)
    ensures var r := DataDirective(s, line); r.Ok? ==> Extends(s, r.value) && Resolvable(r.value)
  {
    DataDirectiveCases(s, line);
    if DataWord(line).Some? {
      EmitExtends(s, DataWord(line).value, 1);
    }
  }

  /** `times` keeps the ledger resolvable and extends the state. */
  lemma TimesExtends(s: Asm, tokens: seq<string>)
    requires Resolvable(s)
    ensures var r := TimesDirective(s, tokens); r.Ok? ==> Extends(s, r.value) && Resolvable(r.value)
  {
    var rest := if |tokens| >= 2 then tokens[2..] else [];
    var directive := Join(rest, ' ');
    var n := TimesCount(ParseArgument(Arg(tokens, 1)));
    RepeatedEmits(s, directive, n);
    DataDirectiveCases(s, directive);
    if n >= 1 && DataWord(directive).Some? {
      EmitExtends(s, DataWord(directive).value, n);
    }
  }

  /** Emitting an encoder's word keeps the ledger resolvable and extends the state. */
  lemma WordExtends(s: Asm, word: Outcome<int>)
    requires Resolvable(s)
    ensures var r := EmitWord(s, word); r.Ok? ==> Extends(s, r.value) && Resolvable(r.value)
  {
    if word.Ok? {
      EmitExtends(s, Int(word.value), 1);
    }
  }

  /** Every instruction line keeps the ledger resolvable and extends the state. */
  lemma InstructionExtends(s: Asm, line: string)
    requires Resolvable(s)
    ensures var r := Instruction(s, line); r.Ok? ==> Extends(s, r.value) && Resolvable(r.value)
  {
    var tokens := Split(line, ' ');
    var mnemonic := tokens[0];
    var opcode := MemoryOpcode(mnemonic);
    var word := if mnemonic == "arit" then InterpretArit(line) else InterpretCalc(line);
    var r := Instruction(s, line);
    if mnemonic == "dw" {
      assert r == DataDirective(s, line);
      DataExtends(s, line);
    } else if mnemonic == "times" {
      assert r == TimesDirective(s, tokens);
      TimesExtends(s, tokens);
    } else if mnemonic == "nop" {
      assert r == Ok(Emitted(s, Int(0), 1));
      EmitExtends(s, Int(0), 1);
    } else if opcode.Some? {
      assert r == MemoryReference(s, opcode.value, Arg(tokens, 1));
      ReferenceExtends(s, opcode.value, Arg(tokens, 1));
    } else if mnemonic == "arit" || mnemonic == "calc" {
      assert r == EmitWord(s, word);
      WordExtends(s, word);
    } else if mnemonic == "hlt" {
      assert r == Ok(Emitted(s, Int(0xFFFF), 1));
      EmitExtends(s, Int(0xFFFF), 1);
    }
  }

  // ---------------------------------------------------------------------------
  // Label definitions
  // ---------------------------------------------------------------------------

  /**
   * Defining a label touches no cell queued under another label and no
   * settled cell, keeps the other labels, and keeps the ledger resolvable.
   */
  lemma LabelKeeps(s: Asm, defined: string)
    requires Resolvable(s)
    ensures var r := LabelDefined(s, defined);
      && Resolvable(r)
      && (forall offset, w :: Settled(s, offset, w) ==> Settled(r, offset, w))
      && (forall name, offset, v :: name != defined && Awaits(s, name, offset, v) ==> Awaits(r, name, offset, v))
      && (forall name :: name != defined && name in s.labels ==> name in r.labels && r.labels[name] == s.labels[name])
  {
    LabelDefinedEffects(s, defined);
    var r := LabelDefined(s, defined);
    forall name, k | name in s.fixups && name != defined && 0 <= k < |s.fixups[name]|
      ensures r.memory[s.fixups[name][k]] == s.memory[s.fixups[name][k]]
    {
      var f := s.fixups[name][k];
      if defined in s.fixups {
        forall j | 0 <= j < |s.fixups[defined]|
          ensures s.fixups[defined][j] != f
        {
        }
      }
    }
    forall name, offset, v | name != defined && Awaits(s, name, offset, v)
      ensures Awaits(r, name, offset, v)
    {
      var i :| 0 <= i < |s.fixups[name]| && s.fixups[name][i] == offset;
      assert r.memory[s.fixups[name][i]] == s.memory[s.fixups[name][i]];
    }
  }

  /**
   * Defining a label completes a reference queued under it: the cell held a
   * placeholder, it leaves the queue holding that placeholder OR-ed with the
   * label's position, and for a 12-bit position that is the opcode with the
   * position as its address.
   */
  lemma LabelResolves(s: Asm, name: string, offset: nat, v: Number)
    requires Resolvable(s) && Awaits(s, name, offset, v)
    ensures Placeholder(v)
    ensures var r := LabelDefined(s, name);
      && Settled(r, offset, Int(BitOr(BitOperand(v), s.position)))
      && name in r.labels && r.labels[name] == s.position
      && (s.position < 0x1000 ==> r.memory[offset] == Int(v.i + s.position))
  {
    LabelDefinedEffects(s, name);
    var j :| 0 <= j < |s.fixups[name]| && s.fixups[name][j] == offset;
    assert Placeholder(s.memory[s.fixups[name][j]]);
    var r := LabelDefined(s, name);
    assert r.memory[offset] == Int(BitOr(BitOperand(v), s.position));
    forall n, k | n in r.fixups && 0 <= k < |r.fixups[n]|
      ensures r.fixups[n][k] != offset
    {
      assert r.fixups[n][k] == s.fixups[n][k];
    }
    if s.position < 0x1000 {
      PlaceholderResolves(v, s.position);
    }
  }

  /** OR-ing a 12-bit position into a placeholder is adding it. */
  lemma PlaceholderResolves(v: Number, position: nat)
    requires Placeholder(v) && position < 0x1000
    ensures BitOr(BitOperand(v), position) == v.i + position
  {
    if v.i == 0x1000 {
      PatchResolves(1, position);
    } else if v.i == 0x2000 {
      PatchResolves(2, position);
    } else if v.i == 0x3000 {
      PatchResolves(3, position);
    } else {
      PatchResolves(4, position);
    }
  }

  /**
   * Under a resolvable ledger, defining `name` at a 12-bit position puts the
   * opcode with that address into every cell queued under `name`.
   */
  lemma LabelCompletesQueue(s: Asm, name: string)
    requires Resolvable(s) && name in s.fixups && s.position < 0x1000
    ensures forall k :: 0 <= k < |s.fixups[name]| ==>
      var offset := s.fixups[name][k];
      && Placeholder(s.memory[offset])
      && LabelDefined(s, name).memory[offset] == Int(s.memory[offset].i + s.position)
  {
    forall k | 0 <= k < |s.fixups[name]|
      ensures Placeholder(s.memory[s.fixups[name][k]])
      ensures LabelDefined(s, name).memory[s.fixups[name][k]] == Int(s.memory[s.fixups[name][k]].i + s.position)
    {
      var offset := s.fixups[name][k];
      LabelResolves(s, name, offset, s.memory[offset]);
    }
  }

  // ---------------------------------------------------------------------------
  // Lines
  // ---------------------------------------------------------------------------

  /**
   * Every line keeps the ledger resolvable and every settled cell settled;
   * a line other than `name:` keeps each cell queued under `name` queued
   * with its word, and keeps the position of `name` when it is defined.
   */
  lemma LineKeeps(s: Asm, line: string, name: string)
    requires Resolvable(s)
    ensures var r := Line(s, line); r.Ok? ==>
      && Resolvable(r.value)
      && (forall offset, w :: Settled(s, offset, w) ==> Settled(r.value, offset, w))
      && (line != name + ":" ==>
            && (forall offset, v :: Awaits(s, name, offset, v) ==> Awaits(r.value, name, offset, v))
            && (name in s.labels ==> name in r.value.labels && r.value.labels[name] == s.labels[name]))
  {
    LineCases(s, line);
    if line != "" {
      if EndsWith(line, ":") {
        var defined := line[..|line| - 1];
        assert line == defined + ":";
        LabelKeeps(s, defined);
      } else {
        InstructionExtends(s, line);
        if Instruction(s, line).Ok? {
          ExtendsKeeps(s, Instruction(s, line).value);
        }
      }
    }
  }

  /**
   * `lda`, `sta`, `jmp` or `jnz` with the operand `:name`, for a label not
   * yet defined, goes through, and leaves its cell, at the write head,
   * holding the bare opcode and queued under `name`.
   */
  lemma ForwardReference(s: Asm, mnemonic: string, name: string)
    requires Consistent(s) && name !in s.labels && MemoryOpcode(mnemonic).Some?
    requires ' ' !in name && name != "" && name[|name| - 1] != ':'
    ensures var r := Line(s, mnemonic + " :" + name);
      r.Ok? && Awaits(r.value, name, s.position, Int(MemoryOpcode(mnemonic).value * 0x1000))
  {
    var opcode := MemoryOpcode(mnemonic).value;
    var line := mnemonic + " :" + name;
    var target := ":" + name;
    assert line == mnemonic + [' '] + target;
    assert ' ' !in mnemonic;
    assert ' ' !in target by {
      assert forall k :: 0 < k < |target| ==> target[k] == name[k - 1];
    }
    SplitCons(mnemonic, target, ' ');
    SplitNoSeparator(target, ' ');
    assert Split(line, ' ') == [mnemonic, target];
    assert line[|line| - 1] == name[|name| - 1];
    assert !EndsWith(line, ":");
    LineCases(s, line);
    assert Line(s, line) == MemoryReference(s, opcode, Some(target));
    assert StartsWith(target, ":") && SubstringFrom(target, 1) == name;
    PatchResolves(opcode, 0);
    PushedAwaits(s, name, opcode);
  }

  // ---------------------------------------------------------------------------
  // The loop of perform
  // ---------------------------------------------------------------------------

  /** Line `i` (counting from 0) of the text, as the loop examines it, defines `name`. */
  predicate Defines(lines: seq<string>, i: int, name: string)
  {
    0 <= i < |lines| && Cleaned(lines[i]) == name + ":"
  }

  /** Among the lines from `from` that the loop reaches, at most one defines `name`. */
  predicate DefinedAtMostOnce(lines: seq<string>, from: nat, name: string)
  {
    forall i, j :: from <= i < |lines| - 1 && from <= j < |lines| - 1 && Defines(lines, i, name) && Defines(lines, j, name) ==> i == j
  }

  /**
   * A settled cell stays settled, and a defined label keeps its position,
   * through every later line that does not redefine it.
   */
  lemma {:induction false} RunKeepsSettled(s: Asm, lines: seq<string>, name: string, offset: nat, w: Number)
    requires Resolvable(s) && s.lineNo >= 1
    requires Settled(s, offset, w) && name in s.labels
    requires forall i :: s.lineNo - 1 <= i < |lines| - 1 ==> !Defines(lines, i, name)
    ensures var (verdict, t) := Run(s, lines);
      verdict == Assembled ==> Settled(t, offset, w) && name in t.labels && t.labels[name] == s.labels[name]
    decreases |lines| - s.lineNo
  {
    if s.lineNo < |lines| {
      var line := Cleaned(lines[s.lineNo - 1]);
      var o := Line(s, line);
      RunStep(s, lines, line, o);
      LineKeeps(s, line, name);
      assert !Defines(lines, s.lineNo - 1, name);
      if o.Ok? {
        ResumeGoesOn(s, o, lines);
        RunKeepsSettled(o.value.(lineNo := s.lineNo + 1), lines, name, offset, w);
      } else {
        ResumeStops(s, o, lines);
      }
    }
  }

  /**
   * A cell queued under `name` with word `v` is completed by the rest of the
   * text. When the loop assembles it, and `name` is defined on at most one of
   * the remaining lines, the label is defined and the cell holds `v` OR-ed
   * with the label's position, which for a 12-bit position is the opcode
   * with that address. When no remaining line defines `name`, the text does
   * not assemble.
   */
  lemma {:induction false} RunCompletesReference(s: Asm, lines: seq<string>, name: string, offset: nat, v: Number)
    requires Resolvable(s) && s.lineNo >= 1 && Awaits(s, name, offset, v)
    requires DefinedAtMostOnce(lines, s.lineNo - 1, name)
    ensures var (verdict, t) := Run(s, lines);
      verdict == Assembled ==>
        && name in t.labels && offset < |t.memory|
        && t.memory[offset] == Int(BitOr(BitOperand(v), t.labels[name]))
        && (t.labels[name] < 0x1000 ==> t.memory[offset] == Int(v.i + t.labels[name]))
    ensures (forall i :: s.lineNo - 1 <= i < |lines| - 1 ==> !Defines(lines, i, name)) ==> Run(s, lines).0 != Assembled
    decreases |lines| - s.lineNo
  {
    if s.lineNo < |lines| {
      var line := Cleaned(lines[s.lineNo - 1]);
      if line == name + ":" {
        assert Defines(lines, s.lineNo - 1, name);
        DefinitionCompletes(s, lines, name, offset, v);
      } else if Run(s, lines).0 == Assembled {
        var o := Line(s, line);
        OtherLineStep(s, lines, line, o, name, offset, v);
        RunCompletesReference(o.value.(lineNo := s.lineNo + 1), lines, name, offset, v);
      }
    } else {
      assert name in s.fixups;
    }
  }

  /**
   * A line other than `name:` that lets the text assemble goes through,
   * keeps the cell waiting, and hands the run to the next line.
   */
  lemma OtherLineStep(s: Asm, lines: seq<string>, line: string, o: Outcome<Asm>, name: string, offset: nat, v: Number)
    requires Resolvable(s) && 1 <= s.lineNo < |lines| && Awaits(s, name, offset, v)
    requires line == Cleaned(lines[s.lineNo - 1]) && o == Line(s, line)
    requires line != name + ":" && Run(s, lines).0 == Assembled
    ensures o.Ok?
    ensures Resolvable(o.value.(lineNo := s.lineNo + 1)) && Awaits(o.value.(lineNo := s.lineNo + 1), name, offset, v)
    ensures Run(s, lines) == Run(o.value.(lineNo := s.lineNo + 1), lines)
  {
    RunStep(s, lines, line, o);
    LineKeeps(s, line, name);
    if o.Ok? {
      ResumeGoesOn(s, o, lines);
    } else {
      ResumeStops(s, o, lines);
    }
  }

  /** The definition of `name` on the current line, and the lines after it. */
  lemma DefinitionCompletes(s: Asm, lines: seq<string>, name: string, offset: nat, v: Number)
    requires Resolvable(s) && 1 <= s.lineNo < |lines| && Awaits(s, name, offset, v)
    requires DefinedAtMostOnce(lines, s.lineNo - 1, name) && Defines(lines, s.lineNo - 1, name)
    ensures var (verdict, t) := Run(s, lines);
      verdict == Assembled ==>
        && name in t.labels && offset < |t.memory|
        && t.memory[offset] == Int(BitOr(BitOperand(v), t.labels[name]))
        && (t.labels[name] < 0x1000 ==> t.memory[offset] == Int(v.i + t.labels[name]))
  {
    var line := Cleaned(lines[s.lineNo - 1]);
    var o := Line(s, line);
    var w := Int(BitOr(BitOperand(v), s.position));
    var next := LabelDefined(s, name).(lineNo := s.lineNo + 1);
    LabelLine(s, name);
    RunStep(s, lines, line, o);
    ResumeGoesOn(s, o, lines);
    LabelStep(s, name, offset, v);
    RunKeepsSettled(next, lines, name, offset, w);
  }

  /** The state after the line `name:`, as the loop hands it to the next line. */
  lemma LabelStep(s: Asm, name: string, offset: nat, v: Number)
    requires Resolvable(s) && Awaits(s, name, offset, v)
    ensures var next := LabelDefined(s, name).(lineNo := s.lineNo + 1);
      var w := Int(BitOr(BitOperand(v), s.position));
      && Resolvable(next) && Settled(next, offset, w)
      && name in next.labels && next.labels[name] == s.position && next.lineNo == s.lineNo + 1
      && (s.position < 0x1000 ==> w == Int(v.i + s.position))
  {
    LabelKeeps(s, name);
    LabelResolves(s, name, offset, v);
  }

  /** The line `name:` defines `name`. */
  lemma LabelLine(s: Asm, name: string)
    requires Consistent(s)
    ensures Line(s, name + ":") == Ok(LabelDefined(s, name))
  {
    var line := name + ":";
    assert line[..|line| - 1] == name;
    assert EndsWith(line, ":");
  }

  /**
   * `jmp :l` (or `lda`, `sta`, `jnz`) before the definition of `l`: when
   * the text assembles with `l:` on at most one later line and at a 12-bit
   * position, the reference's cell holds the opcode with the position of
   * `l` as its address; with no later `l:`, the text does not assemble.
   */
  lemma ForwardReferenceRun(s: Asm, lines: seq<string>, mnemonic: string, name: string)
    requires Resolvable(s) && 1 <= s.lineNo < |lines|
    requires name !in s.labels && MemoryOpcode(mnemonic).Some?
    requires ' ' !in name && name != "" && name[|name| - 1] != ':'
    requires Cleaned(lines[s.lineNo - 1]) == mnemonic + " :" + name
    requires DefinedAtMostOnce(lines, s.lineNo, name)
    ensures var (verdict, t) := Run(s, lines);
      verdict == Assembled ==>
        && name in t.labels && s.position < |t.memory|
        && (t.labels[name] < 0x1000 ==>
              t.memory[s.position] == Int(MemoryOpcode(mnemonic).value * 0x1000 + t.labels[name]))
    ensures (forall i :: s.lineNo <= i < |lines| - 1 ==> !Defines(lines, i, name)) ==> Run(s, lines).0 != Assembled
  {
    var line := Cleaned(lines[s.lineNo - 1]);
    var o := Line(s, line);
    var v := Int(MemoryOpcode(mnemonic).value * 0x1000);
    ReferenceLineKeeps(s, mnemonic, name);
    RunStep(s, lines, line, o);
    ResumeGoesOn(s, o, lines);
    var next := o.value.(lineNo := s.lineNo + 1);
    assert Resolvable(next) && Awaits(next, name, s.position, v);
    RunCompletesReference(next, lines, name, s.position, v);
  }

  /** The reference line keeps the ledger resolvable and queues its cell. */
  lemma ReferenceLineKeeps(s: Asm, mnemonic: string, name: string)
    requires Resolvable(s) && name !in s.labels && MemoryOpcode(mnemonic).Some?
    requires ' ' !in name && name != "" && name[|name| - 1] != ':'
    ensures var r := Line(s, mnemonic + " :" + name);
      r.Ok? && Resolvable(r.value) && Awaits(r.value, name, s.position, Int(MemoryOpcode(mnemonic).value * 0x1000))
  {
    ForwardReference(s, mnemonic, name);
    LineKeeps(s, mnemonic + " :" + name, name);
  }
}
