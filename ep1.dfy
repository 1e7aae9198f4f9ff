/**
 * The first, smaller processor loop (`processa` in EP1.c): NOP, LDA, JNZ,
 * an ARIT that does nothing, and HLT, over a memory it only reads. Its
 * fault path prints and waits for a key, then carries on, so here it
 * changes nothing.
 */
module Ep1 {
  import opened Util
  import opened Cpu
  import opened Emulador

  /**
   * A pass of the loop: the registers after it, and whether it left the loop
   * at a HLT; or the registers at an LDA whose address lies outside memory,
   * where the read after the failed check is undefined in C and the run stops.
   */
  datatype Cycle = Cycle(regs: Registers, halted: bool) | OutOfBounds(regs: Registers)

  /** The instruction reads memory only inside it. */
  predicate LoadInRange(memory: seq<Word>, instruction: Word)
  {
    OpcodeOf(instruction) == 0x1 ==> ArgumentOf(instruction) < |memory|
  }

  /** One pass of the `do ... while` body of `processa`. */
  function Next(memory: seq<Word>, r: Registers): Cycle
    requires r.PC < |memory|
  {
    var fetched := r.(RI := memory[r.PC]);
    var opcode := OpcodeOf(fetched.RI);
    if opcode == 0xF then Cycle(fetched, true)
    else if !LoadInRange(memory, fetched.RI) then OutOfBounds(fetched)
    else
      var executed := Switch(memory, fetched);
      Cycle(executed.(PC := AdvancedPC(executed.PC, |memory|)), false)
  }

  /** The `switch` on the opcode of the instruction in RI. */
  function Switch(memory: seq<Word>, r: Registers): Registers
    requires LoadInRange(memory, r.RI)
  {
    var opcode := OpcodeOf(r.RI);
    var argument := ArgumentOf(r.RI);
    if opcode == 0x1 then r.(A := memory[argument])
    else if opcode == 0x4 && r.A != 0 then r.(R := Wrap(r.PC + 1), PC := Wrap(argument - 1))
    else r
  }

  /** HLT leaves the loop with only RI loaded: no register changes and PC is not incremented. */
  lemma HaltStopsAtOnce(memory: seq<Word>, r: Registers)
    requires r.PC < |memory|
    requires OpcodeOf(memory[r.PC]) == 0xF
    ensures Next(memory, r) == Cycle(r.(RI := memory[r.PC]), true)
  {
  }

  /** An LDA of an address outside memory stops the run with only RI loaded. */
  lemma LoadOutOfBounds(memory: seq<Word>, r: Registers)
    requires r.PC < |memory|
    requires OpcodeOf(memory[r.PC]) == 0x1 && ArgumentOf(memory[r.PC]) >= |memory|
    ensures Next(memory, r) == OutOfBounds(r.(RI := memory[r.PC]))
  {
  }

  /** Any other instruction loads RI, moves PC on (back to 0 at the end of memory) unless JNZ jumps, and continues. */
  lemma NextCycle(memory: seq<Word>, r: Registers)
    requires r.PC < |memory|
    requires OpcodeOf(memory[r.PC]) != 0xF && LoadInRange(memory, memory[r.PC])
    ensures var ri := memory[r.PC];
            var after := Next(memory, r).regs;
            Next(memory, r).Cycle? && !Next(memory, r).halted && after.RI == ri && after.PC < |memory| &&
            after.B == r.B && after.C == r.C && after.D == r.D && after.PSW == r.PSW &&
            (OpcodeOf(ri) == 0x1 ==> after.A == memory[ArgumentOf(ri)] && after.R == r.R &&
                                     after.PC == AdvancedPC(r.PC, |memory|)) &&
            (OpcodeOf(ri) == 0x4 && r.A != 0 ==>
               after.A == r.A && after.R == Wrap(r.PC + 1) &&
               after.PC == AdvancedPC(Wrap(ArgumentOf(ri) - 1), |memory|)) &&
            (OpcodeOf(ri) != 0x1 && !(OpcodeOf(ri) == 0x4 && r.A != 0) ==>
               after.A == r.A && after.R == r.R && after.PC == AdvancedPC(r.PC, |memory|))
  {
  }

  /** A JNZ that is taken lands on its argument, when that lies inside memory. */
  lemma JnzLands(memory: seq<Word>, r: Registers)
    requires r.PC < |memory| && |memory| <= 0x10000
    requires OpcodeOf(memory[r.PC]) == 0x4 && r.A != 0 && ArgumentOf(memory[r.PC]) < |memory|
    ensures Next(memory, r).regs.PC == ArgumentOf(memory[r.PC])
  {
    var argument := ArgumentOf(memory[r.PC]);
    if argument == 0 {
      assert Wrap(argument as int - 1) == 0xFFFF;
    }
  }

  /**
   * On NOP, LDA, JNZ and HLT with addresses inside memory, a pass of this loop
   * is a fetch, an `emuExecute` and (unless halted) an `emuAdvance` of the
   * full emulator.
   */
  lemma AgreesWithEmulador(memory: seq<Word>, r: Registers)
    requires r.PC < |memory|
    requires var ri := memory[r.PC];
             OpcodeOf(ri) in {0x0, 0x1, 0x4, 0xF} && (OpcodeOf(ri) in {0x1, 0x4} ==> ArgumentOf(ri) < |memory|)
    ensures var fetched := r.(RI := memory[r.PC]);
            var e := ExecuteOn(fetched, memory, fetched.RI);
            !e.faulted && e.memory == memory && Next(memory, r).Cycle? &&
            (e.result == EmuHalt <==> Next(memory, r).halted) &&
            Next(memory, r).regs == if e.result == EmuHalt then e.regs else e.regs.(PC := AdvancedPC(e.regs.PC, |memory|))
  {
  }

  /** A pass after which the loop does not go on. */
  predicate Stops(c: Cycle)
  {
    c.OutOfBounds? || c.halted
  }

  /** `n` passes of the loop from `r`, with the registers when it stopped or ran out of passes. */
  function RunFrom(memory: seq<Word>, r: Registers, n: nat): Cycle
    requires r.PC < |memory|
    decreases n
  {
    if n == 0 then Cycle(r, false)
    else
      var c := Next(memory, r);
      if Stops(c) then c else RunFrom(memory, c.regs, n - 1)
  }

  /** A run that halts ends on a HLT in RI. */
  lemma {:induction false} HaltedOnHlt(memory: seq<Word>, r: Registers, n: nat)
    requires r.PC < |memory|
    requires RunFrom(memory, r, n).Cycle? && RunFrom(memory, r, n).halted
    ensures OpcodeOf(RunFrom(memory, r, n).regs.RI) == 0xF
    decreases n
  {
    var c := Next(memory, r);
    if n > 0 && !Stops(c) {
      NextCycle(memory, r);
      HaltedOnHlt(memory, c.regs, n - 1);
    }
  }

  /**
   * `processa(memory, memSize)` for at most `fuel` passes: registers start at
   * 0 and the loop runs until a HLT ends it, or an LDA reads outside memory.
   */
  method Processa(memory: array<Word>, fuel: nat) returns (c: Cycle)
    requires memory.Length >= 1
    ensures c == RunFrom(memory[..], Cleared, fuel)
  {
    c := Cycle(Registers(0, 0, 0, 0, 0, 0, 0, 0), false);
    var left := fuel;
    while !Stops(c) && left > 0
      invariant c.regs.PC < memory.Length
      invariant Stops(c) ==> c == RunFrom(memory[..], Cleared, fuel)
      invariant !Stops(c) ==> RunFrom(memory[..], c.regs, left) == RunFrom(memory[..], Cleared, fuel)
      decreases left, if Stops(c) then 0 else 1
    {
      ghost var before := c.regs;
      c := Pass(memory, c.regs);
      if Stops(c) {
        RunHalts(memory[..], before, left);
      } else {
        RunGoesOn(memory[..], before, left);
        left := left - 1;
      }
    }
  }

  /** The body of the `do ... while` loop of `processa`. */
  method Pass(memory: array<Word>, r0: Registers) returns (c: Cycle)
    requires r0.PC < memory.Length
    ensures c == Next(memory[..], r0)
  {
    var r := r0.(RI := memory[r0.PC]);
    var opcode := OpcodeOf(r.RI);
    var argument := ArgumentOf(r.RI);
    if opcode == 0xF {
      return Cycle(r, true);
    }
    assert memory[..][r0.PC] == r.RI;
    ghost var fetched := r;
    if opcode == 0x1 {
      if argument >= memory.Length {
        return OutOfBounds(r);
      }
      r := r.(A := memory[argument]);
    } else if opcode == 0x4 {
      if r.A != 0 {
        r := r.(R := Wrap(r.PC as int + 1));
        r := r.(PC := Wrap(argument as int - 1));
      }
    }
    assert r == Switch(memory[..], fetched);
    r := r.(PC := Wrap(r.PC as int + 1));
    if r.PC >= memory.Length {
      r := r.(PC := 0);
    }
    c := Cycle(r, false);
  }

  lemma RunHalts(memory: seq<Word>, r: Registers, n: nat)
    requires r.PC < |memory| && n > 0 && Stops(Next(memory, r))
    ensures RunFrom(memory, r, n) == Next(memory, r)
  {
  }

  lemma RunGoesOn(memory: seq<Word>, r: Registers, n: nat)
    requires r.PC < |memory| && n > 0 && !Stops(Next(memory, r))
    ensures Next(memory, r).regs.PC < |memory|
    ensures RunFrom(memory, r, n) == RunFrom(memory, Next(memory, r).regs, n - 1)
  {
  }
}
