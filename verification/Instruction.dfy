/** The fields of an instruction word, as the get_bit and get_bits calls of the decoders cut them out. */
module Instruction {
  import opened Words
  import Arith

  type Reg4 = n: nat | n < 16

  function Cond(ins: Word): nat { ins / 0x1000_0000 }
  function Group(ins: Word): nat { (ins / 0x200_0000) % 8 }
  function Opcode(ins: Word): Reg4 { (ins / 0x20_0000) % 16 }
  function Rn(ins: Word): Reg4 { (ins / 0x1_0000) % 16 }
  function Rd(ins: Word): Reg4 { (ins / 0x1000) % 16 }
  function Rs(ins: Word): Reg4 { (ins / 0x100) % 16 }
  function Rm(ins: Word): Reg4 { ins % 16 }
  function Imm8(ins: Word): Byte { ins % 0x100 }
  function Imm12(ins: Word): Word { ins % 0x1000 }
  function Imm24(ins: Word): Word { ins % 0x100_0000 }
  function ShiftImm(ins: Word): nat { (ins / 0x80) % 32 }
  function ShiftKind(ins: Word): nat { (ins / 0x20) % 4 }

  predicate Bit4(ins: Word) { (ins / 0x10) % 2 == 1 }
  predicate Bit5(ins: Word) { (ins / 0x20) % 2 == 1 }
  predicate Bit6(ins: Word) { (ins / 0x40) % 2 == 1 }
  predicate Bit7(ins: Word) { (ins / 0x80) % 2 == 1 }
  predicate Bit20(ins: Word) { (ins / 0x10_0000) % 2 == 1 }
  predicate Bit21(ins: Word) { (ins / 0x20_0000) % 2 == 1 }
  predicate Bit22(ins: Word) { (ins / 0x40_0000) % 2 == 1 }
  predicate Bit23(ins: Word) { (ins / 0x80_0000) % 2 == 1 }
  predicate Bit24(ins: Word) { (ins / 0x100_0000) % 2 == 1 }
  predicate Bit25(ins: Word) { (ins / 0x200_0000) % 2 == 1 }
  predicate Bit26(ins: Word) { (ins / 0x400_0000) % 2 == 1 }

  /** Register i is in the list of a load or store multiple. */
  predicate Listed(ins: Word, i: nat) { Bit(ins, i) == 1 }

  // ---- The condition flags in the CPSR -----------------------------------------------------------

  predicate FlagN(cpsr: Word) { (cpsr / 0x8000_0000) % 2 == 1 }
  predicate FlagZ(cpsr: Word) { (cpsr / 0x4000_0000) % 2 == 1 }
  predicate FlagC(cpsr: Word) { (cpsr / 0x2000_0000) % 2 == 1 }
  predicate FlagV(cpsr: Word) { (cpsr / 0x1000_0000) % 2 == 1 }

  /** albit of arm_data_processing.c for the four flag positions. */
  function PutN(cpsr: Word, b: bool): Word {
    cpsr - (cpsr / 0x8000_0000) * 0x8000_0000 + (if b then 0x8000_0000 else 0)
  }

  function PutZ(cpsr: Word, b: bool): Word {
    cpsr - ((cpsr / 0x4000_0000) % 2) * 0x4000_0000 + (if b then 0x4000_0000 else 0)
  }

  function PutC(cpsr: Word, b: bool): Word {
    cpsr - ((cpsr / 0x2000_0000) % 2) * 0x2000_0000 + (if b then 0x2000_0000 else 0)
  }

  function PutV(cpsr: Word, b: bool): Word {
    cpsr - ((cpsr / 0x1000_0000) % 2) * 0x1000_0000 + (if b then 0x1000_0000 else 0)
  }

  function Weight(b: bool, w: int): int { if b then w else 0 }

  type Low28 = x: int | 0 <= x < 0x1000_0000

  /** The word with the given flags above the given 28 low bits. */
  function Pack(n: bool, z: bool, c: bool, v: bool, low: Low28): Word {
    Weight(n, 0x8000_0000) + Weight(z, 0x4000_0000) + Weight(c, 0x2000_0000) + Weight(v, 0x1000_0000) + low
  }

  lemma CpsrParts(cpsr: Word)
    ensures cpsr == Pack(FlagN(cpsr), FlagZ(cpsr), FlagC(cpsr), FlagV(cpsr), cpsr % 0x1000_0000)
  {
    var q := cpsr / 0x1000_0000;
    assert cpsr == 0x1000_0000 * q + cpsr % 0x1000_0000;
    assert cpsr / 0x2000_0000 == q / 2;
    assert cpsr / 0x4000_0000 == q / 4;
    assert cpsr / 0x8000_0000 == q / 8;
  }

  lemma PartsCpsr(n: bool, z: bool, c: bool, v: bool, low: Low28)
    ensures var x := Pack(n, z, c, v, low);
            FlagN(x) == n && FlagZ(x) == z && FlagC(x) == c && FlagV(x) == v && x % 0x1000_0000 == low
  {
    var x := Pack(n, z, c, v, low);
    var q1 := Weight(n, 1);
    var q2 := 2 * q1 + Weight(z, 1);
    var q3 := 2 * q2 + Weight(c, 1);
    var q4 := 2 * q3 + Weight(v, 1);
    Arith.DivisionIsUnique(x, 0x8000_0000, q1, x - 0x8000_0000 * q1);
    Arith.DivisionIsUnique(x, 0x4000_0000, q2, x - 0x4000_0000 * q2);
    Arith.DivisionIsUnique(x, 0x2000_0000, q3, x - 0x2000_0000 * q3);
    Arith.DivisionIsUnique(x, 0x1000_0000, q4, low);
  }

  lemma PutNZ(n: bool, z: bool, c: bool, v: bool, low: Low28, b: bool)
    ensures PutN(Pack(n, z, c, v, low), b) == Pack(b, z, c, v, low)
    ensures PutZ(Pack(n, z, c, v, low), b) == Pack(n, b, c, v, low)
  {
    PartsCpsr(n, z, c, v, low);
  }

  lemma PutCV(n: bool, z: bool, c: bool, v: bool, low: Low28, b: bool)
    ensures PutC(Pack(n, z, c, v, low), b) == Pack(n, z, b, v, low)
    ensures PutV(Pack(n, z, c, v, low), b) == Pack(n, z, c, b, low)
  {
    PartsCpsr(n, z, c, v, low);
  }

  /** Setting flags one after the other: they read back, and the 28 low bits are kept. */
  lemma SetFlags(cpsr: Word, n: bool, z: bool, c: bool, v: bool)
    ensures PutC(PutZ(PutN(cpsr, n), z), c) == Pack(n, z, c, FlagV(cpsr), cpsr % 0x1000_0000)
    ensures PutV(PutC(PutZ(PutN(cpsr, n), z), c), v) == Pack(n, z, c, v, cpsr % 0x1000_0000)
  {
    CpsrParts(cpsr);
    var low := cpsr % 0x1000_0000;
    var oldZ, oldC, oldV := FlagZ(cpsr), FlagC(cpsr), FlagV(cpsr);
    PutNZ(FlagN(cpsr), oldZ, oldC, oldV, low, n);
    PutNZ(n, oldZ, oldC, oldV, low, z);
    PutCV(n, z, oldC, oldV, low, c);
    PutCV(n, z, c, oldV, low, v);
  }

  /** conditionPassed of arm_instruction.c, on the CPSR and the condition field. */
  predicate ConditionPassed(cpsr: Word, cond: nat) {
    match cond
    case 0 => FlagZ(cpsr)
    case 1 => !FlagZ(cpsr)
    case 2 => FlagC(cpsr)
    case 3 => !FlagC(cpsr)
    case 4 => FlagN(cpsr)
    case 5 => !FlagN(cpsr)
    case 6 => FlagV(cpsr)
    case 7 => !FlagV(cpsr)
    case 8 => FlagC(cpsr) && !FlagZ(cpsr)
    case 9 => !FlagC(cpsr) || FlagZ(cpsr)
    case 10 => FlagV(cpsr) == FlagN(cpsr)
    case 11 => FlagV(cpsr) != FlagN(cpsr)
    case 12 => !FlagZ(cpsr) && FlagV(cpsr) == FlagN(cpsr)
    case 13 => FlagZ(cpsr) || FlagV(cpsr) != FlagN(cpsr)
    case 14 => true
    case _ => false
  }
}
