/**
 * What the two CPU loops (EP1.c and src/Emulador.c) share: the register
 * file of the processor and the layout of a 16-bit instruction word, a
 * 4-bit opcode above a 12-bit argument.
 */
module Cpu {
  import opened Bits
  import opened Util

  /** `Registers`: the instruction register, the program counter and the six named registers. */
  datatype Registers = Registers(RI: Word, PC: Word, A: Word, B: Word, C: Word, D: Word, R: Word, PSW: Word)

  /** Every register 0. */
  const Cleared: Registers := Registers(0, 0, 0, 0, 0, 0, 0, 0)

  /** `uint16_t` arithmetic: a value reduced modulo 2^16. */
  function Wrap(x: int): (w: Word)
    ensures 0 <= x < 0x10000 ==> w == x
    ensures (w - x) % 0x10000 == 0
  {
    x % 0x10000
  }

  /** `(instruction & 0xF000) >> 12`: the opcode, the four high bits. */
  function OpcodeOf(instruction: Word): (op: nat)
    ensures op == instruction / 0x1000 && op < 16
  {
    Pow2Values();
    FieldExtract(instruction, 12, 4);
    ShiftRight(NatAnd(instruction, 0xF000), 12)
  }

  /** `instruction & 0x0FFF`: the argument, the twelve low bits. */
  function ArgumentOf(instruction: Word): (arg: nat)
    ensures arg == instruction % 0x1000
  {
    Pow2Values();
    LowMask(instruction, 12);
    NatAnd(instruction, 0x0FFF)
  }

  /** The opcode and the argument together make up the instruction. */
  lemma InstructionFields(instruction: Word)
    ensures instruction == OpcodeOf(instruction) * 0x1000 + ArgumentOf(instruction)
    ensures ArgumentOf(instruction) < 0x1000
  {
  }

  /** An instruction is read back from its opcode and argument. */
  lemma FieldsDetermine(op: nat, arg: nat)
    requires op < 16 && arg < 0x1000
    ensures OpcodeOf(op * 0x1000 + arg) == op && ArgumentOf(op * 0x1000 + arg) == arg
  {
  }
}
