/**
 * The step semantics of the full emulator (src/Emulador.c): fetching,
 * executing and advancing over a memory of 16-bit words, the ARIT unit and
 * its flags, reset to the initial snapshot, and the breakpoint bookkeeping
 * that decides when control passes to the command prompt.
 *
 * The build flags are fixed to the values the source sets: DUMMY_MODE 0,
 * START_IN_BREAKING_MODE 1, BREAK_AT_FAULTS 1, BREAK_AT_HALT 1 and
 * FAULT_ON_LOOP_AROUND 1.
 */
module Emulador {
  import opened Wrappers
  import opened Bits
  import opened Util
  import opened Cpu

  const OPCODE_NOP: nat := 0x0
  const OPCODE_LDA: nat := 0x1
  const OPCODE_STA: nat := 0x2
  const OPCODE_JMP: nat := 0x3
  const OPCODE_JNZ: nat := 0x4
  const OPCODE_RET: nat := 0x5
  const OPCODE_ARIT: nat := 0x6
  const OPCODE_HLT: nat := 0xF

  const ARIT_SET0: nat := 0
  const ARIT_SETF: nat := 1
  const ARIT_NOT: nat := 2
  const ARIT_AND: nat := 3
  const ARIT_OR: nat := 4
  const ARIT_XOR: nat := 5
  const ARIT_ADD: nat := 6
  const ARIT_SUB: nat := 7

  /** `EmuResult`. */
  datatype EmuResult = EmuOk | EmuHalt | EmuFault

  /** The registers an ARIT code can name: `{ A, B, C, D, _, _, R, PSW }`. */
  datatype Reg = RegA | RegB | RegC | RegD | RegR | RegPSW

  /** `Breakpoint`: an address and the hits left, -1 meaning without end. */
  datatype Breakpoint = Breakpoint(address: Word, hits: int)

  // ---------------------------------------------------------------------------
  // Registers
  // ---------------------------------------------------------------------------

  /** `emuGetRegister(code)`: the register a 3-bit code names, `None` for NULL. */
  function RegisterFor(code: nat): Option<Reg>
  {
    if code == 0x0 then Some(RegA)
    else if code == 0x1 then Some(RegB)
    else if code == 0x2 then Some(RegC)
    else if code == 0x3 then Some(RegD)
    else if code == 0x6 then Some(RegR)
    else if code == 0x7 then Some(RegPSW)
    else None
  }

  /** The code of a register, the inverse of `RegisterFor`. */
  function CodeOf(reg: Reg): (code: nat)
    ensures code < 8 && RegisterFor(code) == Some(reg)
  {
    match reg
    case RegA => 0
    case RegB => 1
    case RegC => 2
    case RegD => 3
    case RegR => 6
    case RegPSW => 7
  }

  /** Every code that names a register is that register's code; 4, 5 and codes above 7 name none. */
  lemma RegisterCodes(code: nat)
    ensures RegisterFor(code).Some? ==> CodeOf(RegisterFor(code).value) == code
    ensures RegisterFor(code).None? <==> code == 4 || code == 5 || code >= 8
  {
  }

  function Get(regs: Registers, reg: Reg): Word
  {
    match reg
    case RegA => regs.A
    case RegB => regs.B
    case RegC => regs.C
    case RegD => regs.D
    case RegR => regs.R
    case RegPSW => regs.PSW
  }

  /** A write through the pointer `emuGetRegister` returns: that register changes and no other. */
  function Put(regs: Registers, reg: Reg, value: Word): (r: Registers)
    ensures Get(r, reg) == value
    ensures forall other :: other != reg ==> Get(r, other) == Get(regs, other)
    ensures r.RI == regs.RI && r.PC == regs.PC
  {
    match reg
    case RegA => regs.(A := value)
    case RegB => regs.(B := value)
    case RegC => regs.(C := value)
    case RegD => regs.(D := value)
    case RegR => regs.(R := value)
    case RegPSW => regs.(PSW := value)
  }

  // ---------------------------------------------------------------------------
  // The ARIT unit
  // ---------------------------------------------------------------------------

  /** `(argument & (0b111 << k)) >> k`: the 3-bit field of an ARIT argument at bit `k`. */
  function AritField(argument: nat, k: nat): (f: nat)
    ensures f == (argument / Pow2(k)) % 8
  {
    Pow2Values();
    FieldExtract(argument, k, 3);
    ShiftRight(NatAnd(argument, 7 * Pow2(k)), k)
  }

  /** `bitsOp2 & 0b100` and `bitsOp2 & 0b011` on a 3-bit field. */
  lemma SecondOperandBits(bits: nat)
    requires bits < 8
    ensures NatAnd(bits, 4) == 0 <==> bits < 4
    ensures NatAnd(bits, 3) == bits % 4
  {
    Pow2Values();
    LowMask(bits, 2);
    if bits == 0 {
      assert NatAnd(bits, 4) == 0;
    } else if bits == 1 {
      assert NatAnd(bits, 4) == 0;
    } else if bits == 2 {
      assert NatAnd(bits, 4) == 0;
    } else if bits == 3 {
      assert NatAnd(bits, 4) == 0;
    } else if bits == 4 {
      assert NatAnd(bits, 4) == 4;
    } else if bits == 5 {
      assert NatAnd(bits, 4) == 4;
    } else if bits == 6 {
      assert NatAnd(bits, 4) == 4;
    } else {
      assert NatAnd(bits, 4) == 4;
    }
  }

  /** The value of the second operand: 0 when bit 2 of its field is clear, otherwise register A..D. */
  function SecondOperand(regs: Registers, bits: nat): (v: Option<Word>)
    requires bits < 8
    ensures bits < 4 ==> v == Some(0)
    ensures bits >= 4 ==> v == Some(Get(regs, RegisterFor(bits - 4).value))
  {
    SecondOperandBits(bits);
    if NatAnd(bits, 4) == 0 then Some(0)
    else match RegisterFor(NatAnd(bits, 3))
      case None => None
      case Some(reg) => Some(Get(regs, reg))
  }

  /** What an ARIT operation stores in the destination register. */
  function AritValue(op: nat, op1: Word, op2: Word): (r: Word)
    requires op < 8
  {
    Pow2Values();
    if op == ARIT_SET0 then 0x0000
    else if op == ARIT_SETF then 0xFFFF
    else if op == ARIT_NOT then Not(op1, 16)
    else if op == ARIT_AND then AndAtMost(op1, op2); NatAnd(op1, op2)
    else if op == ARIT_OR then OrBelow(op1, op2, 16); NatOr(op1, op2)
    else if op == ARIT_XOR then XorBelow(op1, op2, 16); NatXor(op1, op2)
    else if op == ARIT_ADD then Wrap(op1 + op2)
    else Wrap(op1 - op2)
  }

  /** SET0, SETF, NOT, AND, OR and XOR, bit by bit. */
  lemma AritValueBits(op1: Word, op2: Word, k: nat)
    requires k < 16
    ensures !Bit(AritValue(ARIT_SET0, op1, op2), k)
    ensures Bit(AritValue(ARIT_SETF, op1, op2), k)
    ensures Bit(AritValue(ARIT_NOT, op1, op2), k) == !Bit(op1, k)
    ensures Bit(AritValue(ARIT_AND, op1, op2), k) == (Bit(op1, k) && Bit(op2, k))
    ensures Bit(AritValue(ARIT_OR, op1, op2), k) == (Bit(op1, k) || Bit(op2, k))
    ensures Bit(AritValue(ARIT_XOR, op1, op2), k) == (Bit(op1, k) != Bit(op2, k))
  {
    Pow2Values();
    BitOfZero(k);
    BitOfNot(0, 16, k);
    assert Not(0, 16) == 0xFFFF;
    BitOfNot(op1, 16, k);
    BitOfAnd(op1, op2, k);
    BitOfOr(op1, op2, k);
    BitOfXor(op1, op2, k);
  }

  /**
   * The PSW after an ARIT operation on `psw`: ADD sets bit 15 to whether the
   * sum overflows, SUB bit 14 to whether it borrows, and every operation sets
   * bits 13, 12 and 11 to op1 < op2, op1 == op2 and op1 > op2.
   */
  function AritFlags(psw: Word, op: nat, op1: Word, op2: Word): Word
  {
    var carried :=
      if op == ARIT_ADD then SetBit(psw, 15, op1 + op2 > 0xFFFF)
      else if op == ARIT_SUB then SetBit(psw, 14, op2 > op1)
      else psw;
    SetBit(SetBit(SetBit(carried, 13, op1 < op2), 12, op1 == op2), 11, op1 > op2)
  }

  /** The flag bits `AritFlags` sets, and the others it keeps. */
  lemma AritFlagBits(psw: Word, op: nat, op1: Word, op2: Word, k: nat)
    ensures GetBit(AritFlags(psw, op, op1, op2), k) ==
      if k == 15 && op == ARIT_ADD then op1 + op2 > 0xFFFF
      else if k == 14 && op == ARIT_SUB then op2 > op1
      else if k == 13 then op1 < op2
      else if k == 12 then op1 == op2
      else if k == 11 then op1 > op2
      else GetBit(psw, k)
  {
    var carried :=
      if op == ARIT_ADD then SetBit(psw, 15, op1 + op2 > 0xFFFF)
      else if op == ARIT_SUB then SetBit(psw, 14, op2 > op1)
      else psw;
    var less := SetBit(carried, 13, op1 < op2);
    var equal := SetBit(less, 12, op1 == op2);
    SetBitEffect(equal, 11, op1 > op2, k);
    SetBitEffect(less, 12, op1 == op2, k);
    SetBitEffect(carried, 13, op1 < op2, k);
    if op == ARIT_ADD {
      SetBitEffect(psw, 15, op1 + op2 > 0xFFFF, k);
    } else if op == ARIT_SUB {
      SetBitEffect(psw, 14, op2 > op1, k);
    }
  }

  /**
   * `emuDoArit(argument)` on the registers: `None` when the destination or
   * the first operand names no register (a fault, nothing written);
   * otherwise both operands are read, the result goes to the destination,
   * and then the flags are set in PSW.
   */
  function AritOn(regs: Registers, argument: nat): Option<Registers>
  {
    var op := AritField(argument, 9);
    var dst := AritField(argument, 6);
    var src := AritField(argument, 3);
    var second := argument % 8;
    match RegisterFor(dst)
    case None => None
    case Some(regDst) =>
      match RegisterFor(src)
      case None => None
      case Some(regOp1) =>
        match SecondOperand(regs, second)
        case None => None
        case Some(op2) =>
          var op1 := Get(regs, regOp1);
          var written := Put(regs, regDst, AritValue(op, op1, op2));
          Some(written.(PSW := AritFlags(written.PSW, op, op1, op2)))
  }

  /** The fields of an ARIT argument. */
  lemma AritFieldsOf(argument: nat)
    ensures AritField(argument, 9) == argument / 512 % 8
    ensures AritField(argument, 6) == argument / 64 % 8
    ensures AritField(argument, 3) == argument / 8 % 8
  {
    Pow2Values();
  }

  /** A destination or first-operand code of 4 or 5 faults and writes no register. */
  lemma AritBadRegister(regs: Registers, argument: nat)
    requires RegisterFor(argument / 64 % 8).None? || RegisterFor(argument / 8 % 8).None?
    ensures AritOn(regs, argument).None?
  {
    AritFieldsOf(argument);
  }

  /** With valid codes ARIT always completes, and its operands are the registers the codes name. */
  lemma AritCompletes(regs: Registers, argument: nat)
    requires RegisterFor(argument / 64 % 8).Some? && RegisterFor(argument / 8 % 8).Some?
    ensures AritOn(regs, argument).Some?
    ensures var dst := RegisterFor(argument / 64 % 8).value;
            var op1 := Get(regs, RegisterFor(argument / 8 % 8).value);
            var op2 := SecondOperand(regs, argument % 8).value;
            var r := AritOn(regs, argument).value;
            r.RI == regs.RI && r.PC == regs.PC &&
            (forall other :: other != dst && other != RegPSW ==> Get(r, other) == Get(regs, other)) &&
            (dst != RegPSW ==> Get(r, dst) == AritValue(argument / 512 % 8, op1, op2)) &&
            r.PSW == AritFlags(Get(Put(regs, dst, AritValue(argument / 512 % 8, op1, op2)), RegPSW),
                               argument / 512 % 8, op1, op2)
  {
    AritFieldsOf(argument);
    var second := argument % 8;
    assert SecondOperand(regs, second).Some?;
  }

  /**
   * ADD: the destination gets the sum modulo 2^16 and PSW bit 15 says
   * whether it exceeded 0xFFFF; SUB: the difference modulo 2^16, and bit 14
   * says whether op2 > op1. Bits 13, 12 and 11 compare the operands.
   */
  lemma AddSubFlags(op: nat, op1: Word, op2: Word, old_psw: Word)
    requires op == ARIT_ADD || op == ARIT_SUB
    ensures op == ARIT_ADD ==> AritValue(op, op1, op2) == (op1 + op2) % 0x10000
    ensures op == ARIT_ADD ==> GetBit(AritFlags(old_psw, op, op1, op2), 15) == (op1 + op2 > 0xFFFF)
    ensures op == ARIT_SUB ==> AritValue(op, op1, op2) == (op1 - op2) % 0x10000
    ensures op == ARIT_SUB ==> GetBit(AritFlags(old_psw, op, op1, op2), 14) == (op2 > op1)
    ensures GetBit(AritFlags(old_psw, op, op1, op2), 13) == (op1 < op2)
    ensures GetBit(AritFlags(old_psw, op, op1, op2), 12) == (op1 == op2)
    ensures GetBit(AritFlags(old_psw, op, op1, op2), 11) == (op1 > op2)
  {
    AritFlagBits(old_psw, op, op1, op2, 15);
    AritFlagBits(old_psw, op, op1, op2, 14);
    AritFlagBits(old_psw, op, op1, op2, 13);
    AritFlagBits(old_psw, op, op1, op2, 12);
    AritFlagBits(old_psw, op, op1, op2, 11);
  }

  // ---------------------------------------------------------------------------
  // One instruction
  // ---------------------------------------------------------------------------

  /** What `emuExecute` does: its result, the registers and memory after it, and whether it faulted. */
  datatype Executed = Executed(result: EmuResult, regs: Registers, memory: seq<Word>, faulted: bool)

  /** `emuExecute(instruction)` on a memory of `|memory|` words. */
  function ExecuteOn(regs: Registers, memory: seq<Word>, instruction: Word): Executed
  {
    var opcode := OpcodeOf(instruction);
    var argument := ArgumentOf(instruction);
    var fault := Executed(EmuFault, regs, memory, true);
    if opcode == OPCODE_NOP then Executed(EmuOk, regs, memory, false)
    else if opcode == OPCODE_LDA then
      if argument >= |memory| then fault
      else Executed(EmuOk, regs.(A := memory[argument]), memory, false)
    else if opcode == OPCODE_STA then
      if argument >= |memory| then fault
      else Executed(EmuOk, regs, memory[argument := regs.A], false)
    else if opcode == OPCODE_JMP then
      if argument >= |memory| then fault
      else Executed(EmuOk, regs.(R := Wrap(regs.PC + 1), PC := Wrap(argument - 1)), memory, false)
    else if opcode == OPCODE_JNZ then
      if argument >= |memory| then fault
      else if regs.A != 0 then Executed(EmuOk, regs.(R := Wrap(regs.PC + 1), PC := Wrap(argument - 1)), memory, false)
      else Executed(EmuOk, regs, memory, false)
    else if opcode == OPCODE_RET then
      if regs.R >= |memory| then fault
      else Executed(EmuOk, regs.(PC := Wrap(regs.R - 1), R := Wrap(regs.PC + 1)), memory, false)
    else if opcode == OPCODE_ARIT then
      match AritOn(regs, argument)
      case None => Executed(EmuOk, regs, memory, true)
      case Some(r) => Executed(EmuOk, r, memory, false)
    else if opcode == OPCODE_HLT then Executed(EmuHalt, regs, memory, false)
    else fault
  }

  /** HLT returns EMU_HALT and changes nothing; opcodes 7 to 14 fault and change nothing. */
  lemma ExecuteHaltAndUnknown(regs: Registers, memory: seq<Word>, instruction: Word)
    ensures OpcodeOf(instruction) == OPCODE_HLT ==>
              ExecuteOn(regs, memory, instruction) == Executed(EmuHalt, regs, memory, false)
    ensures 7 <= OpcodeOf(instruction) <= 14 ==>
              ExecuteOn(regs, memory, instruction) == Executed(EmuFault, regs, memory, true)
  {
  }

  /** LDA, STA, JMP and JNZ with an argument beyond the memory fault and change nothing. */
  lemma ExecuteGuarded(regs: Registers, memory: seq<Word>, instruction: Word)
    requires 1 <= OpcodeOf(instruction) <= 4 && ArgumentOf(instruction) >= |memory|
    ensures ExecuteOn(regs, memory, instruction) == Executed(EmuFault, regs, memory, true)
  {
  }

  /** STA then LDA at the same address: memory holds A there and A keeps its value. */
  lemma StoreThenLoad(regs: Registers, memory: seq<Word>, address: nat)
    requires address < |memory| && address < 0x1000
    ensures var stored := ExecuteOn(regs, memory, OPCODE_STA * 0x1000 + address);
            var loaded := ExecuteOn(stored.regs, stored.memory, OPCODE_LDA * 0x1000 + address);
            stored.result == EmuOk && loaded.result == EmuOk &&
            loaded.regs == regs && loaded.memory[address] == regs.A &&
            forall k :: 0 <= k < |memory| && k != address ==> loaded.memory[k] == memory[k]
  {
    FieldsDetermine(OPCODE_STA, address);
    FieldsDetermine(OPCODE_LDA, address);
  }

  /** LDA then STA at the same address leaves memory as it was and A holding that cell. */
  lemma LoadThenStore(regs: Registers, memory: seq<Word>, address: nat)
    requires address < |memory| && address < 0x1000
    ensures var loaded := ExecuteOn(regs, memory, OPCODE_LDA * 0x1000 + address);
            var stored := ExecuteOn(loaded.regs, loaded.memory, OPCODE_STA * 0x1000 + address);
            stored.memory == memory && stored.regs == regs.(A := memory[address])
  {
    FieldsDetermine(OPCODE_STA, address);
    FieldsDetermine(OPCODE_LDA, address);
  }

  /** JNZ with A == 0 falls through; with A != 0 it jumps as JMP does. */
  lemma JnzIsConditionalJmp(regs: Registers, memory: seq<Word>, address: nat)
    requires address < 0x1000
    ensures regs.A == 0 ==> ExecuteOn(regs, memory, OPCODE_JNZ * 0x1000 + address).regs == regs
    ensures regs.A != 0 ==>
              ExecuteOn(regs, memory, OPCODE_JNZ * 0x1000 + address) ==
              ExecuteOn(regs, memory, OPCODE_JMP * 0x1000 + address)
  {
    FieldsDetermine(OPCODE_JNZ, address);
    FieldsDetermine(OPCODE_JMP, address);
  }

  // ---------------------------------------------------------------------------
  // Advancing
  // ---------------------------------------------------------------------------

  /** `emuAdvance` on the program counter: one word on, back to 0 past the end of memory. */
  function AdvancedPC(pc: Word, memorySize: int): (next: Word)
    requires memorySize >= 1
    ensures next < memorySize
    ensures pc + 1 < memorySize && pc + 1 < 0x10000 ==> next == pc + 1
    ensures Wrap(pc + 1) >= memorySize ==> next == 0
  {
    var incremented := Wrap(pc + 1);
    if incremented >= memorySize then 0 else incremented
  }

  /** Whether `emuAdvance` loops around (and faults, FAULT_ON_LOOP_AROUND being set). */
  predicate LoopsAround(pc: Word, memorySize: int)
  {
    Wrap(pc + 1) >= memorySize
  }

  /**
   * A JMP to a subroutine and a RET as its first instruction bring the
   * program back to the word after the JMP, with R pointing past the RET.
   */
  lemma CallReturn(regs: Registers, memory: seq<Word>, address: nat)
    requires 1 <= address < |memory| && address < 0x1000
    requires regs.PC + 1 < |memory| && |memory| <= 0x10000
    requires memory[address] == OPCODE_RET * 0x1000
    ensures var called := ExecuteOn(regs, memory, OPCODE_JMP * 0x1000 + address);
            var entry := called.regs.(PC := AdvancedPC(called.regs.PC, |memory|));
            var returned := ExecuteOn(entry, memory, memory[entry.PC]);
            entry.PC == address &&
            AdvancedPC(returned.regs.PC, |memory|) == regs.PC + 1 &&
            returned.regs.R == address + 1
  {
    FieldsDetermine(OPCODE_JMP, address);
    FieldsDetermine(OPCODE_RET, 0);
  }

  /** Where `emuSetBreakpoint` and `emuGetBreakpoint` find a breakpoint: the first one at that address. */
  function FirstAt(bps: seq<Breakpoint>, addr: Word): (r: Option<nat>)
    ensures r.Some? ==> r.value < |bps| && bps[r.value].address == addr
    ensures r.Some? ==> forall j :: 0 <= j < r.value ==> bps[j].address != addr
    ensures r.None? ==> forall j :: 0 <= j < |bps| ==> bps[j].address != addr
  {
    if bps == [] then None
    else if bps[|bps| - 1].address == addr && FirstAt(bps[..|bps| - 1], addr).None? then Some(|bps| - 1)
    else FirstAt(bps[..|bps| - 1], addr)
  }

  /** The hits left of the breakpoint at `addr`, if there is one. */
  function HitsAt(bps: seq<Breakpoint>, addr: Word): Option<int>
  {
    match FirstAt(bps, addr)
    case None => None
    case Some(i) => Some(bps[i].hits)
  }

  /** No two breakpoints share an address. */
  predicate UniqueAddresses(bps: seq<Breakpoint>)
  {
    forall i, j :: 0 <= i < j < |bps| ==> bps[i].address != bps[j].address
  }

  /** The breakpoints after `emuSetBreakpoint(addr, hits)`. */
  function WithBreakpoint(bps: seq<Breakpoint>, addr: Word, hits: int): seq<Breakpoint>
  {
    match FirstAt(bps, addr)
    case Some(i) => bps[i := bps[i].(hits := hits)]
    case None => bps + [Breakpoint(addr, hits)]
  }

  /** After `emuSetBreakpoint(addr, hits)` the breakpoint at `addr` has `hits` left. */
  lemma SetBreakpointSets(bps: seq<Breakpoint>, addr: Word, hits: int)
    ensures HitsAt(WithBreakpoint(bps, addr, hits), addr) == Some(hits)
  {
    var r := WithBreakpoint(bps, addr, hits);
    match FirstAt(bps, addr)
    case Some(i) =>
      assert r[i].address == addr;
      FirstAtIs(r, addr, i);
    case None =>
      FirstAtIs(r, addr, |bps|);
  }

  /** `emuSetBreakpoint(addr, hits)` leaves the breakpoints at other addresses as they were. */
  lemma SetBreakpointKeepsOthers(bps: seq<Breakpoint>, addr: Word, hits: int, other: Word)
    requires other != addr
    ensures HitsAt(WithBreakpoint(bps, addr, hits), other) == HitsAt(bps, other)
  {
    var r := WithBreakpoint(bps, addr, hits);
    match FirstAt(bps, other)
    case Some(i) =>
      FirstAtIs(r, other, i);
    case None =>
      assert forall j :: 0 <= j < |r| ==> r[j].address != other;
      FirstAtNone(r, other);
  }

  /** `emuSetBreakpoint` keeps at most one breakpoint per address. */
  lemma SetBreakpointUnique(bps: seq<Breakpoint>, addr: Word, hits: int)
    requires UniqueAddresses(bps)
    ensures UniqueAddresses(WithBreakpoint(bps, addr, hits))
    ensures |WithBreakpoint(bps, addr, hits)| == if HitsAt(bps, addr).Some? then |bps| else |bps| + 1
  {
  }

  /** A search that finds `addr` at `i` and nowhere before. */
  lemma FirstAtIs(bps: seq<Breakpoint>, addr: Word, i: nat)
    requires i < |bps| && bps[i].address == addr
    requires forall j :: 0 <= j < i ==> bps[j].address != addr
    ensures FirstAt(bps, addr) == Some(i)
  {
  }

  lemma FirstAtNone(bps: seq<Breakpoint>, addr: Word)
    requires forall j :: 0 <= j < |bps| ==> bps[j].address != addr
    ensures FirstAt(bps, addr).None?
  {
  }

  /** The breakpoints after `emuCheckBreakpoints` at `pc`: a hit on a positive count takes one off. */
  function AfterHit(bps: seq<Breakpoint>, pc: Word): seq<Breakpoint>
  {
    match FirstAt(bps, pc)
    case Some(i) => if bps[i].hits > 0 then bps[i := bps[i].(hits := bps[i].hits - 1)] else bps
    case None => bps
  }

  /**
   * Whether `emuCheckBreakpoints` stops the emulator: an enabled breakpoint
   * at `pc`, or else a HLT in the instruction register (BREAK_AT_HALT).
   */
  predicate Stops(bps: seq<Breakpoint>, pc: Word, ri: Word)
  {
    match HitsAt(bps, pc)
    case Some(h) => h != 0 || OpcodeOf(ri) == OPCODE_HLT
    case None => OpcodeOf(ri) == OPCODE_HLT
  }

  /** A hit counts a positive breakpoint down by one; -1 stays without end, 0 stays disabled; others keep theirs. */
  lemma HitCountsDown(bps: seq<Breakpoint>, pc: Word, addr: Word)
    ensures addr == pc && HitsAt(bps, pc).Some? ==>
              HitsAt(AfterHit(bps, pc), pc) ==
                Some(if HitsAt(bps, pc).value > 0 then HitsAt(bps, pc).value - 1 else HitsAt(bps, pc).value)
    ensures addr != pc || HitsAt(bps, pc).None? ==> HitsAt(AfterHit(bps, pc), addr) == HitsAt(bps, addr)
  {
    var r := AfterHit(bps, pc);
    match FirstAt(bps, pc)
    case None =>
    case Some(i) =>
      FirstAtIs(r, pc, i);
      match FirstAt(bps, addr)
      case None =>
        if addr != pc {
          FirstAtNone(r, addr);
        }
      case Some(j) =>
        FirstAtIs(r, addr, j);
  }

  /** `n` checks in a row at the same `pc`. */
  function HitTimes(bps: seq<Breakpoint>, pc: Word, n: nat): seq<Breakpoint>
  {
    if n == 0 then bps else AfterHit(HitTimes(bps, pc, n - 1), pc)
  }

  /**
   * A breakpoint set with `h` > 0 hits stops the emulator on each of the next
   * `h` checks at its address and is then disabled; with -1 it never is.
   */
  lemma {:induction false} BreakpointCountdown(bps: seq<Breakpoint>, pc: Word, h: int, n: nat)
    requires HitsAt(bps, pc) == Some(h) && (h == -1 || n <= h)
    ensures HitsAt(HitTimes(bps, pc, n), pc) == Some(if h == -1 then -1 else h - n)
  {
    if n > 0 {
      BreakpointCountdown(bps, pc, h, n - 1);
      HitCountsDown(HitTimes(bps, pc, n - 1), pc, pc);
    }
  }

  // ---------------------------------------------------------------------------
  // The emulator
  // ---------------------------------------------------------------------------

  /** `Emul`: the registers, the live memory and its initial snapshot, and the debugger state. */
  class Emulator {
    var regs: Registers
    const memory: array<Word>
    const snapshot: array<Word>
    const memorySize: int
    var breaking: bool
    var stepsLeft: int
    const breakOnFaults: bool
    var breakpoints: seq<Breakpoint>

    ghost predicate Valid()
      reads this
    {
      memory.Length == memorySize && snapshot.Length == memorySize && memorySize >= 1 && memory != snapshot
    }

    /**
     * `emuInitialize(memory, memSize)`: the given memory is the live memory,
     * a copy of it the snapshot; the emulator starts in step-through mode,
     * breaking on faults, with no breakpoints, and then resets.
     */
    constructor Initialize(mem: array<Word>)
      requires mem.Length >= 1
      ensures Valid() && memory == mem && fresh(snapshot)
      ensures snapshot[..] == old(mem[..]) && mem[..] == old(mem[..])
      ensures regs == Cleared && breaking && stepsLeft == 0 && breakOnFaults && breakpoints == []
      modifies mem
    {
      memory := mem;
      memorySize := mem.Length;
      snapshot := new Word[mem.Length](i requires 0 <= i < mem.Length reads mem => mem[i]);
      stepsLeft := 0;
      breaking := true;
      breakOnFaults := true;
      breakpoints := [];
      new;
      Reset();
    }

    /** `emuFault`: when breaking on faults, step-through mode and no steps left. */
    method Fault()
      modifies this
      ensures regs == old(regs) && breakpoints == old(breakpoints)
      ensures (breaking, stepsLeft) == FaultControl(old(breaking), old(stepsLeft), breakOnFaults, true)
    {
      if breakOnFaults {
        breaking := true;
        stepsLeft := 0;
      }
    }

    /** `emuGuardAddress(addr)`: an address beyond memory faults, and the answer is whether it did. */
    method GuardAddress(addr: Word) returns (bad: bool)
      modifies this
      ensures bad <==> addr >= memorySize
      ensures regs == old(regs) && breakpoints == old(breakpoints)
      ensures (breaking, stepsLeft) == FaultControl(old(breaking), old(stepsLeft), breakOnFaults, bad)
    {
      if addr >= memorySize {
        Fault();
        return true;
      }
      return false;
    }

    /** `emuReset`: every register 0, the snapshot copied back into memory. */
    method Reset()
      requires Valid()
      modifies this, memory
      ensures Valid() && regs == Cleared && memory[..] == snapshot[..] && snapshot[..] == old(snapshot[..])
      ensures breaking == old(breaking) && stepsLeft == old(stepsLeft) && breakpoints == old(breakpoints)
    {
      regs := Cleared;
      var i := 0;
      while i < memorySize
        invariant 0 <= i <= memorySize
        invariant regs == Cleared && breaking == old(breaking) && stepsLeft == old(stepsLeft)
        invariant breakpoints == old(breakpoints)
        invariant snapshot[..] == old(snapshot[..])
        invariant forall k :: 0 <= k < i ==> memory[k] == snapshot[k]
      {
        memory[i] := snapshot[i];
        i := i + 1;
      }
      assert memory[..] == snapshot[..];
    }

    /** `emuFetch`: the word at PC, kept in RI. */
    method Fetch() returns (instruction: Word)
      requires Valid() && regs.PC < memorySize
      modifies this
      ensures instruction == memory[old(regs.PC)] && regs == old(regs).(RI := instruction)
      ensures breaking == old(breaking) && stepsLeft == old(stepsLeft) && breakpoints == old(breakpoints)
    {
      instruction := memory[regs.PC];
      regs := regs.(RI := instruction);
    }

    /** `emuAdvance`: PC one word on, back to 0 (with a fault) past the end of memory. */
    method Advance()
      requires Valid()
      modifies this
      ensures regs == old(regs).(PC := AdvancedPC(old(regs.PC), memorySize)) && breakpoints == old(breakpoints)
      ensures (breaking, stepsLeft) ==
                FaultControl(old(breaking), old(stepsLeft), breakOnFaults, LoopsAround(old(regs.PC), memorySize))
    {
      regs := regs.(PC := Wrap(regs.PC + 1));
      if regs.PC >= memorySize {
        Fault();
        regs := regs.(PC := 0);
      }
    }

    /** `emuDoArit(argument)`. */
    method DoArit(argument: nat)
      modifies this
      ensures AritOn(old(regs), argument).None? ==> regs == old(regs)
      ensures AritOn(old(regs), argument).Some? ==> regs == AritOn(old(regs), argument).value
      ensures breakpoints == old(breakpoints)
      ensures (breaking, stepsLeft) ==
                FaultControl(old(breaking), old(stepsLeft), breakOnFaults, AritOn(old(regs), argument).None?)
    {
      var bitsOpr := AritField(argument, 9);
      var bitsDst := AritField(argument, 6);
      var bitsOp1 := AritField(argument, 3);
      Pow2Values();
      LowMask(argument, 3);
      var bitsOp2 := NatAnd(argument, 7);
      var regDst := RegisterFor(bitsDst);
      if regDst.None? {
        Fault();
        return;
      }
      var regOp1 := RegisterFor(bitsOp1);
      if regOp1.None? {
        Fault();
        return;
      }
      var op2 := SecondOperand(regs, bitsOp2);
      if op2.None? {
        Fault();
        return;
      }
      var op1 := Get(regs, regOp1.value);
      regs := Put(regs, regDst.value, AritValue(bitsOpr, op1, op2.value));
      regs := regs.(PSW := AritFlags(regs.PSW, bitsOpr, op1, op2.value));
    }

    /** `emuExecute(instruction)`. */
    method Execute(instruction: Word) returns (result: EmuResult)
      requires Valid()
      modifies this, memory
      ensures Valid()
      ensures var e := ExecuteOn(old(regs), old(memory[..]), instruction);
              result == e.result && regs == e.regs && memory[..] == e.memory && breakpoints == old(breakpoints) &&
              (breaking, stepsLeft) == FaultControl(old(breaking), old(stepsLeft), breakOnFaults, e.faulted)
    {
      var opcode := OpcodeOf(instruction);
      var argument := ArgumentOf(instruction);
      if opcode == OPCODE_NOP {
        result := EmuOk;
      } else if opcode == OPCODE_LDA {
        var bad := GuardAddress(argument);
        if bad {
          return EmuFault;
        }
        regs := regs.(A := memory[argument]);
        result := EmuOk;
      } else if opcode == OPCODE_STA {
        var bad := GuardAddress(argument);
        if bad {
          return EmuFault;
        }
        memory[argument] := regs.A;
        result := EmuOk;
      } else if opcode == OPCODE_JMP {
        var bad := GuardAddress(argument);
        if bad {
          return EmuFault;
        }
        regs := regs.(R := Wrap(regs.PC as int + 1));
        regs := regs.(PC := Wrap(argument as int - 1));
        result := EmuOk;
      } else if opcode == OPCODE_JNZ {
        var bad := GuardAddress(argument);
        if bad {
          return EmuFault;
        }
        if regs.A != 0 {
          regs := regs.(R := Wrap(regs.PC as int + 1));
          regs := regs.(PC := Wrap(argument as int - 1));
        }
        result := EmuOk;
      } else if opcode == OPCODE_RET {
        var bad := GuardAddress(regs.R);
        if bad {
          return EmuFault;
        }
        var pc := regs.PC;
        regs := regs.(PC := Wrap(regs.R as int - 1));
        regs := regs.(R := Wrap(pc as int + 1));
        result := EmuOk;
      } else if opcode == OPCODE_ARIT {
        DoArit(argument);
        result := EmuOk;
      } else if opcode == OPCODE_HLT {
        result := EmuHalt;
      } else {
        Fault();
        result := EmuFault;
      }
    }

    /** `emuGetBreakpoint(addr)`: the index of the breakpoint at `addr`, `None` for NULL. */
    method GetBreakpoint(addr: Word) returns (index: Option<nat>)
      ensures index == FirstAt(breakpoints, addr)
    {
      var i := 0;
      while i < |breakpoints|
        invariant 0 <= i <= |breakpoints|
        invariant forall j :: 0 <= j < i ==> breakpoints[j].address != addr
      {
        if breakpoints[i].address == addr {
          FirstAtIs(breakpoints, addr, i);
          return Some(i);
        }
        i := i + 1;
      }
      FirstAtNone(breakpoints, addr);
      return None;
    }

    /** `emuSetBreakpoint(addr, hits)`: a breakpoint at `addr` gets the new count; otherwise one is added. */
    method SetBreakpoint(addr: Word, hits: int)
      modifies this
      ensures breakpoints == WithBreakpoint(old(breakpoints), addr, hits)
      ensures regs == old(regs) && breaking == old(breaking) && stepsLeft == old(stepsLeft)
    {
      var i := 0;
      while i < |breakpoints|
        invariant 0 <= i <= |breakpoints| && breakpoints == old(breakpoints)
        invariant regs == old(regs) && breaking == old(breaking) && stepsLeft == old(stepsLeft)
        invariant forall j :: 0 <= j < i ==> breakpoints[j].address != addr
      {
        if breakpoints[i].address == addr {
          FirstAtIs(breakpoints, addr, i);
          breakpoints := breakpoints[i := breakpoints[i].(hits := hits)];
          return;
        }
        i := i + 1;
      }
      FirstAtNone(breakpoints, addr);
      breakpoints := breakpoints + [Breakpoint(addr, hits)];
    }

    /** `emuCheckBreakpoints`: stop at an enabled breakpoint at PC, counting it down, or at a HLT. */
    method CheckBreakpoints()
      modifies this
      ensures regs == old(regs)
      ensures breakpoints == AfterHit(old(breakpoints), old(regs.PC))
      ensures Stops(old(breakpoints), regs.PC, regs.RI) ==> breaking && stepsLeft == 0
      ensures !Stops(old(breakpoints), regs.PC, regs.RI) ==> breaking == old(breaking) && stepsLeft == old(stepsLeft)
    {
      var pc := regs.PC;
      var bp := GetBreakpoint(pc);
      if bp.Some? && breakpoints[bp.value].hits != 0 {
        stepsLeft := 0;
        breaking := true;
        if breakpoints[bp.value].hits > 0 {
          breakpoints := breakpoints[bp.value := breakpoints[bp.value].(hits := breakpoints[bp.value].hits - 1)];
        }
      } else {
        var opcode := OpcodeOf(regs.RI);
        if opcode == OPCODE_HLT {
          stepsLeft := 0;
          breaking := true;
        }
      }
    }

    /**
     * `cliBeforeExecute` up to the command prompt: after the breakpoint check,
     * a step still owed is used up; otherwise the prompt is reached in
     * step-through mode. The answer is whether the prompt is reached.
     */
    method BeforeExecute() returns (prompts: bool)
      modifies this
      ensures regs == old(regs) && breakpoints == AfterHit(old(breakpoints), old(regs.PC))
      ensures Stops(old(breakpoints), regs.PC, regs.RI) ==> prompts && stepsLeft == 0
      ensures !Stops(old(breakpoints), regs.PC, regs.RI) ==>
                breaking == old(breaking) &&
                (if old(stepsLeft) > 0 then !prompts && stepsLeft == old(stepsLeft) - 1
                 else prompts == breaking && stepsLeft == old(stepsLeft))
    {
      CheckBreakpoints();
      if stepsLeft > 0 {
        stepsLeft := stepsLeft - 1;
        return false;
      }
      return breaking;
    }
  }

  /** The debugger state after a fault: step-through mode and no steps left, when breaking on faults. */
  function FaultControl(breaking: bool, stepsLeft: int, breakOnFaults: bool, faulted: bool): (bool, int)
  {
    if faulted && breakOnFaults then (true, 0) else (breaking, stepsLeft)
  }
}
