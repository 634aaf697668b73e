/**
 * Instruction words as an assembler writes them: sums of weighted fields after the encoding
 * diagrams of chapter A3 of the ARM Architecture Reference Manual. Every field function of
 * `Instruction` gives back the field that was written.
 */
module Encoding {
  import opened Words
  import opened Instruction
  import Arith
  import Bitwise

  type Octal = n: nat | n < 8
  type Kind = n: nat | n < 4
  type Amount = n: nat | n < 32
  type Low12 = n: nat | n < 0x1000
  type Low24 = n: nat | n < 0x100_0000
  type List16 = n: nat | n < 0x1_0000

  // ---- One field --------------------------------------------------------------------------------------------

  /** The field f of size k above weight w, with hi above it and lo below it. */
  lemma Field(x: nat, w: nat, k: nat, hi: nat, f: nat, lo: nat)
    requires w > 0 && f < k && lo < w && x == (hi * k + f) * w + lo
    ensures x / w == hi * k + f && (x / w) % k == f
  {
    Arith.DivisionIsUnique(x, w, hi * k + f, lo);
    Arith.DivisionIsUnique(hi * k + f, k, hi, f);
  }

  // ---- The upper fields ---------------------------------------------------------------------------------------

  /** Condition, bits 27 to 25, bits 24 to 20 one by one, and the two register fields. */
  datatype Head = Head(cond: Reg4, group: Octal, b24: bool, b23: bool, b22: bool, b21: bool, b20: bool, rn: Reg4, rd: Reg4)

  function Five(h: Head): (n: nat)
    ensures n < 32
  {
    Weight(h.b24, 16) + Weight(h.b23, 8) + Weight(h.b22, 4) + Weight(h.b21, 2) + Weight(h.b20, 1)
  }

  /** The word with these upper fields and twelve bits below them. */
  function Assemble(h: Head, low: Low12): Word {
    h.cond * 0x1000_0000 + h.group * 0x200_0000 + Five(h) * 0x10_0000 + h.rn * 0x1_0000 + h.rd * 0x1000 + low
  }

  lemma GroupFields(h: Head, low: Low12)
    ensures var ins := Assemble(h, low);
            && Cond(ins) == h.cond && Group(ins) == h.group
            && (Bit25(ins) <==> h.group % 2 == 1) && (Bit26(ins) <==> (h.group / 2) % 2 == 1)
  {
    var ins := Assemble(h, low);
    var rest := Five(h) * 0x10_0000 + h.rn * 0x1_0000 + h.rd * 0x1000 + low;
    hide Five;
    Arith.DivisionIsUnique(ins, 0x1000_0000, h.cond, h.group * 0x200_0000 + rest);
    Field(ins, 0x200_0000, 8, h.cond, h.group, rest);
    GroupBits(h, low, rest);
    hide Assemble;
  }

  lemma GroupBits(h: Head, low: Low12, rest: nat)
    requires rest < 0x200_0000 && Assemble(h, low) == h.cond * 0x1000_0000 + h.group * 0x200_0000 + rest
    ensures var ins := Assemble(h, low); (Bit25(ins) <==> h.group % 2 == 1) && (Bit26(ins) <==> (h.group / 2) % 2 == 1)
  {
    var ins := Assemble(h, low);
    hide Assemble;
    var q := h.group / 2;
    assert h.group == 2 * q + h.group % 2 && q == 2 * (q / 2) + q % 2;
    Field(ins, 0x200_0000, 2, h.cond * 4 + q, h.group % 2, rest);
    Field(ins, 0x400_0000, 2, h.cond * 2 + q / 2, q % 2, (h.group % 2) * 0x200_0000 + rest);
  }

  lemma FieldsAboveOpcodes(h: Head, low: Low12)
    ensures var ins := Assemble(h, low); (Bit24(ins) <==> h.b24) && (Bit23(ins) <==> h.b23) && (Bit22(ins) <==> h.b22)
  {
    var ins := Assemble(h, low);
    var top, rest := h.cond * 8 + h.group, h.rn * 0x1_0000 + h.rd * 0x1000 + low;
    var l22 := Weight(h.b21, 1) * 0x20_0000 + Weight(h.b20, 1) * 0x10_0000 + rest;
    var l23 := Weight(h.b22, 1) * 0x40_0000 + l22;
    var h23 := top * 2 + Weight(h.b24, 1);
    Field(ins, 0x100_0000, 2, top, Weight(h.b24, 1), Weight(h.b23, 1) * 0x80_0000 + l23);
    Field(ins, 0x80_0000, 2, h23, Weight(h.b23, 1), l23);
    Field(ins, 0x40_0000, 2, h23 * 2 + Weight(h.b23, 1), Weight(h.b22, 1), l22);
  }

  lemma FieldsAboveRegisters(h: Head, low: Low12)
    ensures var ins := Assemble(h, low); (Bit21(ins) <==> h.b21) && (Bit20(ins) <==> h.b20)
  {
    var ins := Assemble(h, low);
    var rest := h.rn * 0x1_0000 + h.rd * 0x1000 + low;
    var h21 := (h.cond * 8 + h.group) * 8 + Weight(h.b24, 4) + Weight(h.b23, 2) + Weight(h.b22, 1);
    Field(ins, 0x20_0000, 2, h21, Weight(h.b21, 1), Weight(h.b20, 1) * 0x10_0000 + rest);
    Field(ins, 0x10_0000, 2, h21 * 2 + Weight(h.b21, 1), Weight(h.b20, 1), rest);
  }

  lemma MiddleFields(h: Head, low: Low12)
    ensures var ins := Assemble(h, low);
            && (Bit24(ins) <==> h.b24) && (Bit23(ins) <==> h.b23) && (Bit22(ins) <==> h.b22)
            && (Bit21(ins) <==> h.b21) && (Bit20(ins) <==> h.b20)
  {
    hide Assemble;
    FieldsAboveOpcodes(h, low);
    FieldsAboveRegisters(h, low);
  }

  lemma RegisterFields(h: Head, low: Low12)
    ensures var ins := Assemble(h, low);
            && Rn(ins) == h.rn && Rd(ins) == h.rd && Imm12(ins) == low
            && Opcode(ins) == Weight(h.b24, 8) + Weight(h.b23, 4) + Weight(h.b22, 2) + Weight(h.b21, 1)
  {
    var ins := Assemble(h, low);
    var top := h.cond * 8 + h.group;
    var op := Weight(h.b24, 8) + Weight(h.b23, 4) + Weight(h.b22, 2) + Weight(h.b21, 1);
    Field(ins, 0x20_0000, 16, top, op, Weight(h.b20, 1) * 0x10_0000 + h.rn * 0x1_0000 + h.rd * 0x1000 + low);
    Field(ins, 0x1_0000, 16, top * 32 + Five(h), h.rn, h.rd * 0x1000 + low);
    Field(ins, 0x1000, 16, (top * 32 + Five(h)) * 16 + h.rn, h.rd, low);
    Field(ins, 1, 0x1000, ((top * 32 + Five(h)) * 16 + h.rn) * 16 + h.rd, low, 0);
  }

  /** The head of a data-processing instruction: the opcode in bits 24 to 21, bit 20 sets flags. */
  function OpcodeHead(cond: Reg4, group: Octal, op: Reg4, setFlags: bool, rn: Reg4, rd: Reg4): Head {
    Head(cond, group, op / 8 == 1, (op / 4) % 2 == 1, (op / 2) % 2 == 1, op % 2 == 1, setFlags, rn, rd)
  }

  lemma OpcodeField(cond: Reg4, group: Octal, op: Reg4, setFlags: bool, rn: Reg4, rd: Reg4, low: Low12)
    ensures Opcode(Assemble(OpcodeHead(cond, group, op, setFlags, rn, rd), low)) == op
  {
    RegisterFields(OpcodeHead(cond, group, op, setFlags, rn, rd), low);
  }

  /** Every word is assembled from its own fields. */
  lemma Disassembled(ins: Word)
    ensures var h := Head(Cond(ins), Group(ins), Bit24(ins), Bit23(ins), Bit22(ins), Bit21(ins), Bit20(ins), Rn(ins), Rd(ins));
            Assemble(h, Imm12(ins)) == ins
  {
    LowerDigits(ins);
    UpperDigits(ins);
    hide Cond, Group, Bit24, Bit23, Bit22, Bit21, Bit20, Rn, Rd, Imm12;
  }

  lemma LowerDigits(ins: Word)
    ensures ins == (ins / 0x10_0000) * 0x10_0000 + Rn(ins) * 0x1_0000 + Rd(ins) * 0x1000 + Imm12(ins)
  {
    Arith.DivMod(ins, 0x1000);
    Digit(ins, 0x1000, 16);
    Digit(ins, 0x1_0000, 16);
  }

  lemma UpperDigits(ins: Word)
    ensures ins / 0x10_0000 ==
            Cond(ins) * 0x100 + Group(ins) * 0x20 + Weight(Bit24(ins), 16) + Weight(Bit23(ins), 8) + Weight(Bit22(ins), 4)
            + Weight(Bit21(ins), 2) + Weight(Bit20(ins), 1)
  {
    Digit(ins, 0x200_0000, 8);
    MiddleDigits(ins);
    hide Bit24, Bit23, Bit22, Bit21, Bit20;
  }

  lemma MiddleDigits(ins: Word)
    ensures ins / 0x10_0000 ==
            (ins / 0x200_0000) * 32 + Weight(Bit24(ins), 16) + Weight(Bit23(ins), 8) + Weight(Bit22(ins), 4)
            + Weight(Bit21(ins), 2) + Weight(Bit20(ins), 1)
  {
    Digit(ins, 0x10_0000, 2);
    Digit(ins, 0x20_0000, 2);
    Digit(ins, 0x40_0000, 2);
    Digit(ins, 0x80_0000, 2);
    Digit(ins, 0x100_0000, 2);
  }

  /** A digit and what is above it. */
  lemma Digit(x: nat, w: nat, k: nat)
    requires w > 0 && k > 0
    ensures w * k > 0 && x / w == (x / (w * k)) * k + (x / w) % k
  {
    var q, f, lo := x / w / k, (x / w) % k, x % w;
    Arith.DivMod(x, w);
    Arith.DivMod(x / w, k);
    Arith.MulAtLeast(w, k);
    Arith.Distribute(q * k, f, w);
    Arith.Reassociate(q, k, w);
    Arith.Commute(k, w);
    Arith.MulNonNegative(f, w);
    Arith.Distribute(k - 1, f, w);
    Arith.MulNonNegative(k - 1 - f, w);
    Arith.Distribute(k, 1, w);
    Arith.DivisionIsUnique(x, w * k, q, f * w + lo);
  }

  // ---- The low twelve bits --------------------------------------------------------------------------------------

  /** The part of a word above its twelve low bits. */
  function Above12(h: Head): nat {
    (((h.cond * 8 + h.group) * 32 + Five(h)) * 16 + h.rn) * 16 + h.rd
  }

  /** An immediate of eight bits and its rotation by twice the four above them. */
  function RotatedImmediate(rot: Reg4, imm: Byte): Low12 {
    rot * 0x100 + imm
  }

  lemma RotatedImmediateFields(h: Head, rot: Reg4, imm: Byte)
    ensures var ins := Assemble(h, RotatedImmediate(rot, imm)); Rs(ins) == rot && Imm8(ins) == imm
  {
    var ins, a := Assemble(h, RotatedImmediate(rot, imm)), Above12(h);
    Field(ins, 0x100, 16, a, rot, imm);
    Field(ins, 1, 0x100, a * 16 + rot, imm, 0);
  }

  /** A register shifted by an amount in bits 11 to 7. */
  function ShiftedByAmount(rm: Reg4, kind: Kind, amount: Amount): Low12 {
    amount * 0x80 + kind * 0x20 + rm
  }

  lemma ShiftedByAmountFields(h: Head, rm: Reg4, kind: Kind, amount: Amount)
    ensures var ins := Assemble(h, ShiftedByAmount(rm, kind, amount));
            Rm(ins) == rm && ShiftKind(ins) == kind && ShiftImm(ins) == amount && !Bit4(ins)
  {
    var ins, a := Assemble(h, ShiftedByAmount(rm, kind, amount)), Above12(h);
    Field(ins, 0x80, 32, a, amount, kind * 0x20 + rm);
    Field(ins, 0x20, 4, a * 32 + amount, kind, rm);
    Field(ins, 0x10, 2, (a * 32 + amount) * 4 + kind, 0, rm);
    Field(ins, 1, 16, ((a * 32 + amount) * 4 + kind) * 2, rm, 0);
  }

  /** A register shifted by the low byte of another: bit 4 set, bit 7 clear. */
  function ShiftedByRegister(rm: Reg4, kind: Kind, rs: Reg4): Low12 {
    rs * 0x100 + kind * 0x20 + 0x10 + rm
  }

  lemma ShiftedByRegisterFields(h: Head, rm: Reg4, kind: Kind, rs: Reg4)
    ensures var ins := Assemble(h, ShiftedByRegister(rm, kind, rs));
            Rm(ins) == rm && ShiftKind(ins) == kind && Rs(ins) == rs && Bit4(ins) && !Bit7(ins)
  {
    var ins, a := Assemble(h, ShiftedByRegister(rm, kind, rs)), Above12(h);
    Field(ins, 0x100, 16, a, rs, kind * 0x20 + 0x10 + rm);
    Field(ins, 0x80, 2, a * 16 + rs, 0, kind * 0x20 + 0x10 + rm);
    Field(ins, 0x20, 4, (a * 16 + rs) * 2, kind, 0x10 + rm);
    Field(ins, 0x10, 2, (a * 16 + rs) * 8 + kind, 1, rm);
    Field(ins, 1, 16, ((a * 16 + rs) * 8 + kind) * 2 + 1, rm, 0);
  }

  /** The extra loads and stores: bits 7 and 4 set, two bits between them, a split immediate or a register. */
  function ExtraTransfer(high: Reg4, b6: bool, b5: bool, rm: Reg4): Low12 {
    high * 0x100 + 0x80 + Weight(b6, 0x40) + Weight(b5, 0x20) + 0x10 + rm
  }

  lemma ExtraTransferFields(h: Head, high: Reg4, b6: bool, b5: bool, rm: Reg4)
    ensures var ins := Assemble(h, ExtraTransfer(high, b6, b5, rm));
            Rs(ins) == high && Rm(ins) == rm && Bit7(ins) && Bit4(ins) && (Bit6(ins) <==> b6) && (Bit5(ins) <==> b5)
  {
    var ins, a := Assemble(h, ExtraTransfer(high, b6, b5, rm)), Above12(h);
    var w6, w5 := Weight(b6, 1), Weight(b5, 1);
    Field(ins, 0x100, 16, a, high, 0x80 + w6 * 0x40 + w5 * 0x20 + 0x10 + rm);
    Field(ins, 0x80, 2, a * 16 + high, 1, w6 * 0x40 + w5 * 0x20 + 0x10 + rm);
    Field(ins, 0x40, 2, (a * 16 + high) * 2 + 1, w6, w5 * 0x20 + 0x10 + rm);
    Field(ins, 0x20, 2, ((a * 16 + high) * 2 + 1) * 2 + w6, w5, 0x10 + rm);
    Field(ins, 0x10, 2, (((a * 16 + high) * 2 + 1) * 2 + w6) * 2 + w5, 1, rm);
    Field(ins, 1, 16, ((((a * 16 + high) * 2 + 1) * 2 + w6) * 2 + w5) * 2 + 1, rm, 0);
  }

  // ---- Register lists ---------------------------------------------------------------------------------------------

  /** A load or store multiple: the list takes the sixteen low bits, the Rd field among them. */
  function AssembleList(cond: Reg4, p: bool, u: bool, usr: bool, w: bool, load: bool, rn: Reg4, list: List16): Word {
    Assemble(Head(cond, 4, p, u, usr, w, load, rn, list / 0x1000), list % 0x1000)
  }

  lemma ListFields(cond: Reg4, p: bool, u: bool, usr: bool, w: bool, load: bool, rn: Reg4, list: List16, i: nat)
    requires i < 16
    ensures var ins := AssembleList(cond, p, u, usr, w, load, rn, list);
            && Cond(ins) == cond && Group(ins) == 4 && Rn(ins) == rn
            && Bit24(ins) == p && Bit23(ins) == u && Bit22(ins) == usr && Bit21(ins) == w && Bit20(ins) == load
            && (Listed(ins, i) <==> Bit(list, i) == 1)
  {
    var h, low := Head(cond, 4, p, u, usr, w, load, rn, list / 0x1000), list % 0x1000;
    GroupFields(h, low);
    MiddleFields(h, low);
    RegisterFields(h, low);
    assert Pow2(16) == 0x1_0000 by { assert Pow2(8) == 0x100; Pow2Adds(8, 8); }
    var q := ((h.cond * 8 + h.group) * 32 + Five(h)) * 16 + h.rn;
    assert Assemble(h, low) == q * 0x1_0000 + list;
    Bitwise.LowBits(Assemble(h, low), q, list, 16, i);
  }

  // ---- Branches and software interrupts -----------------------------------------------------------------------------

  /** Bits 27 to 25, bit 24 and twenty-four bits: branches (5) and software interrupts (7, bit 24 set). */
  function Assemble24(cond: Reg4, group: Octal, b24: bool, low: Low24): Word {
    cond * 0x1000_0000 + group * 0x200_0000 + Weight(b24, 0x100_0000) + low
  }

  lemma Fields24(cond: Reg4, group: Octal, b24: bool, low: Low24)
    ensures var ins := Assemble24(cond, group, b24, low);
            Cond(ins) == cond && Group(ins) == group && Bit24(ins) == b24 && Imm24(ins) == low
  {
    var ins, w := Assemble24(cond, group, b24, low), Weight(b24, 1);
    Arith.DivisionIsUnique(ins, 0x1000_0000, cond, group * 0x200_0000 + w * 0x100_0000 + low);
    Field(ins, 0x200_0000, 8, cond, group, w * 0x100_0000 + low);
    Field(ins, 0x100_0000, 2, cond * 8 + group, w, low);
    Field(ins, 1, 0x100_0000, (cond * 8 + group) * 2 + w, low, 0);
  }
}
