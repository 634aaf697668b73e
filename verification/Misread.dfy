/**
 * Words of the instruction set (chapters A3 and A4 of the ARM Architecture Reference Manual) that
 * the decoder takes for other instructions: what they do instead, and when that is right.
 */
module Misread {
  import opened Words
  import opened Banking
  import opened Memory
  import opened Instruction
  import opened Machine
  import Alu
  import DP = DataProcessing
  import Bitwise
  import Single

  // ---- Tests without bit 20: the control instructions ---------------------------------------------------

  /** Opcodes 8 to 11 without bit 20, outside the multiplies: status registers, BX, BLX, CLZ, BKPT and others. */
  predicate IsControl(ins: Word) {
    Group(ins) == 0 && Bit24(ins) && !Bit23(ins) && !Bit20(ins) && !(Bit7(ins) && Bit4(ins))
  }

  /** BX, BLX, CLZ, saturating arithmetic and BKPT have bit 4 set. They are executed as TST, TEQ, CMP or CMN. */
  lemma ControlIsExecutedAsTest(s: State, ins: Word)
    requires IsControl(ins) && Bit4(ins)
    ensures var operand := ShifterOperand(s, ins);
            var after := Alu.NewCpsr(Opcode(ins), ReadCpsr(s), ReadReg(s, Rn(ins)), operand.value, operand.carry);
            && Execute(s, ins) == Outcome(Done(0), WriteCpsr(s, after))
            && after % 0x1000_0000 == ReadCpsr(s) % 0x1000_0000
  {
    DP.OpcodeOfTest(ins);
    hide ShifterOperand, Alu.NewCpsr, Opcode, Rn, ReadReg, Bit24, Bit23, Bit20, Bit7, Bit4;
    var operand := ShifterOperand(s, ins);
    Alu.SimpleFlagsAreRight(Opcode(ins), ReadCpsr(s), ReadReg(s, Rn(ins)), operand.value, operand.carry);
  }

  // ---- Branch and exchange ----------------------------------------------------------------------------------

  predicate IsBranchExchange(ins: Word) {
    IsControl(ins) && !Bit22(ins) && Bit21(ins) && !Bit7(ins) && !Bit6(ins) && !Bit5(ins) && Bit4(ins)
  }

  /** Bit 5 of the CPSR, T, set to b. */
  function WithThumb(cpsr: Word, b: bool): Word {
    cpsr - ((cpsr / 0x20) % 2) * 0x20 + (if b then 0x20 else 0)
  }

  /** BX: the PC takes the register without its low bit, and T that bit. */
  function PrescribedBranchExchange(s: State, ins: Word): State {
    var rm := ReadReg(s, Rm(ins));
    WriteReg(WriteCpsr(s, WithThumb(ReadCpsr(s), rm % 2 == 1)), 15, rm - rm % 2)
  }

  lemma ThumbAlone(cpsr: Word, after: Word, b: bool)
    requires after % 0x1000_0000 == cpsr % 0x1000_0000
    ensures after == WithThumb(cpsr, b) <==> after == cpsr && ((cpsr / 0x20) % 2 == 1) == b
  {
    var x := WithThumb(cpsr, b);
    assert x == cpsr || x == cpsr + 0x20 || x == cpsr - 0x20;
  }

  /**
   * BX never branches. It does what the manual says only if it has nothing to do: the next
   * instruction is the target, T is right already, and the test it is executed as moves no flag.
   */
  lemma BranchExchangeRightIff(s: State, ins: Word)
    requires IsBranchExchange(ins)
    ensures Execute(s, ins).s.cells[CellFor(s.mode, 15)] == s.cells[CellFor(s.mode, 15)]
    ensures var rm, cpsr := ReadReg(s, Rm(ins)), ReadCpsr(s);
            Execute(s, ins) == Outcome(Done(0), PrescribedBranchExchange(s, ins)) <==>
              && s.cells[CellFor(s.mode, 15)] == rm - rm % 2
              && ((cpsr / 0x20) % 2 == 1) == (rm % 2 == 1)
              && ReadCpsr(Execute(s, ins).s) == cpsr
  {
    ControlIsExecutedAsTest(s, ins);
    hide Execute, ShifterOperand, Alu.NewCpsr, IsBranchExchange, Opcode, Rn, Rm, ReadReg;
    var after := ReadCpsr(Execute(s, ins).s);
    ThumbAlone(ReadCpsr(s), after, ReadReg(s, Rm(ins)) % 2 == 1);
    hide WithThumb;
    var mine, right := Execute(s, ins).s.cells, PrescribedBranchExchange(s, ins).cells;
    assert CellFor(s.mode, 15) == 30 && CellFor(s.mode, 16) == 31;
    assert mine == s.cells[31 := after];
    assert mine == right ==> mine[30] == right[30] && mine[31] == right[31];
    assert mine[30] == right[30] && mine[31] == right[31] ==> mine == right;
  }

  /** bx lr, from any instruction but the one just before the address in r14. */
  lemma ReturnDoesNotBranch(s: State)
    requires var lr := ReadReg(s, 14); s.cells[CellFor(s.mode, 15)] != lr - lr % 2
    ensures Execute(s, 0xE12F_FF1E) != Outcome(Done(0), PrescribedBranchExchange(s, 0xE12F_FF1E))
  {
    var ins: Word := 0xE12F_FF1E;
    assert Group(ins) == 0 && Bit24(ins) && !Bit23(ins) && !Bit20(ins) && !Bit7(ins) && Bit4(ins);
    assert !Bit22(ins) && Bit21(ins) && !Bit6(ins) && !Bit5(ins) && Rm(ins) == 14;
    hide Group, Bit24, Bit23, Bit22, Bit21, Bit20, Bit7, Bit6, Bit5, Bit4, Rm, Execute, ReadReg, PrescribedBranchExchange;
    BranchExchangeRightIff(s, ins);
  }

  // ---- Writing the status register --------------------------------------------------------------------------

  /** MSR from a register, to the CPSR; bits 15 to 12 are set in its encoding. */
  predicate IsMsr(ins: Word) {
    IsControl(ins) && !Bit22(ins) && Bit21(ins) && !Bit7(ins) && !Bit6(ins) && !Bit5(ins) && !Bit4(ins) && Rd(ins) == 15
  }

  /** The byte of weight w comes from `written` if its field is selected. */
  function FieldByte(selected: bool, written: Word, was: Word, w: int): int
    requires w > 0
  {
    (((if selected then written else was) / w) % 0x100) * w
  }

  /** The CPSR after MSR: only a privileged mode writes more than the flags field. */
  function Merged(ins: Word, privileged: bool, written: Word, was: Word): Word {
    FieldByte(privileged && (ins / 0x1_0000) % 2 == 1, written, was, 1) +
    FieldByte(privileged && (ins / 0x2_0000) % 2 == 1, written, was, 0x100) +
    FieldByte(privileged && (ins / 0x4_0000) % 2 == 1, written, was, 0x1_0000) +
    FieldByte((ins / 0x8_0000) % 2 == 1, written, was, 0x100_0000)
  }

  /** MSR: the CPSR is merged, and a control field written puts its mode in force. */
  function PrescribedMsr(s: State, ins: Word, written: Word): State {
    var merged := Merged(ins, s.mode != USR, written, ReadCpsr(s));
    if s.mode != USR && (ins / 0x1_0000) % 2 == 1 then DP.Restored(s, merged) else WriteCpsr(s, merged)
  }

  /**
   * MSR from a register is executed as MRS to the PC: it jumps to the CPSR and never changes it.
   * It is right only if the next instruction lies there already and the write would change nothing.
   */
  lemma MsrRightIff(s: State, ins: Word)
    requires IsMsr(ins)
    ensures Execute(s, ins) == Outcome(Done(0), WriteReg(s, 15, ReadCpsr(s)))
    ensures var cpsr := ReadCpsr(s);
            Execute(s, ins) == Outcome(Done(0), PrescribedMsr(s, ins, ReadReg(s, Rm(ins)))) <==>
              && s.cells[CellFor(s.mode, 15)] == cpsr
              && Merged(ins, s.mode != USR, ReadReg(s, Rm(ins)), cpsr) == cpsr
              && (s.mode != USR && (ins / 0x1_0000) % 2 == 1 ==> cpsr % 32 == s.mode)
  {
    var cpsr, merged := ReadCpsr(s), Merged(ins, s.mode != USR, ReadReg(s, Rm(ins)), ReadCpsr(s));
    assert Execute(s, ins) == Outcome(Done(0), WriteReg(s, 15, cpsr));
    hide Execute, IsMsr, Merged, Rm, ReadReg;
    assert CellFor(s.mode, 15) == 30 && CellFor(s.mode, 16) == 31;
    var mine, right := s.cells[30 := cpsr], s.cells[31 := merged];
    assert mine == right ==> mine[30] == right[30] && mine[31] == right[31];
    assert s.cells[30] == cpsr && merged == cpsr ==> mine == s.cells && right == s.cells;
  }

  /** msr cpsr_f, #0xF0000000 is executed as a test of r8: with r8 zero it clears Z instead of setting it. */
  const MSR_FLAGS: Word := 0xE328_F20F

  lemma MsrImmediateFails(s: State)
    requires ReadReg(s, 8) == 0
    ensures Execute(s, MSR_FLAGS).status == Done(0)
    ensures !FlagZ(ReadCpsr(Execute(s, MSR_FLAGS).s)) && FlagZ(ReadCpsr(PrescribedMsr(s, MSR_FLAGS, 0xF000_0000)))
  {
    var ins := MSR_FLAGS;
    hide Group, Opcode, Rn, Bit25, Rs, Imm8, ReadReg, ReadCpsr, FlagZ, FlagC, Merged, Alu.NewCpsr, ShifterOperand,
         Alu.Result, WriteCpsr, Execute;
    MsrFields();
    MergedFlags(ins, s.mode != USR, ReadCpsr(s));
    WrittenCpsr(s, Merged(ins, s.mode != USR, 0xF000_0000, ReadCpsr(s)));
    RotatedImmediate(s, ins);
    var operand := ShifterOperand(s, ins);
    var after := Alu.NewCpsr(9, ReadCpsr(s), 0, operand.value, operand.carry);
    ImmediateIsExecutedAsTest(s, ins);
    WrittenCpsr(s, after);
    Alu.SimpleFlagsAreRight(9, ReadCpsr(s), 0, operand.value, operand.carry);
    XorOfZero(operand.value);
  }

  lemma MsrFields()
    ensures var ins := MSR_FLAGS;
            && Group(ins) == 1 && Opcode(ins) == 9 && Rn(ins) == 8 && Bit25(ins) && Rs(ins) == 2 && Imm8(ins) == 15
            && (ins / 0x8_0000) % 2 == 1
  {
  }

  lemma WrittenCpsr(s: State, v: Word)
    ensures ReadCpsr(WriteCpsr(s, v)) == v && ReadCpsr(WriteCpsr(s, v).(mode := v % 32)) == v
  {
  }

  lemma ImmediateIsExecutedAsTest(s: State, ins: Word)
    requires Group(ins) == 1 && Opcode(ins) == 9
    ensures var operand := ShifterOperand(s, ins);
            Execute(s, ins) ==
            Outcome(Done(0), WriteCpsr(s, Alu.NewCpsr(9, ReadCpsr(s), ReadReg(s, Rn(ins)), operand.value, operand.carry)))
  {
    hide ShifterOperand, Alu.NewCpsr, Rn, ReadReg, Opcode, Group;
  }

  lemma MergedFlags(ins: Word, privileged: bool, was: Word)
    requires (ins / 0x8_0000) % 2 == 1
    ensures FlagZ(Merged(ins, privileged, 0xF000_0000, was))
  {
    var low := FieldByte(privileged && (ins / 0x1_0000) % 2 == 1, 0xF000_0000, was, 1) +
               FieldByte(privileged && (ins / 0x2_0000) % 2 == 1, 0xF000_0000, was, 0x100) +
               FieldByte(privileged && (ins / 0x4_0000) % 2 == 1, 0xF000_0000, was, 0x1_0000);
    assert Merged(ins, privileged, 0xF000_0000, was) == 0xF000_0000 + low && 0 <= low < 0x100_0000;
  }

  lemma RotatedImmediate(s: State, ins: Word)
    requires Bit25(ins) && Rs(ins) == 2 && Imm8(ins) == 15
    ensures ShifterOperand(s, ins).value == 0xF000_0000
  {
    hide Bit25, Rs, Imm8, ReadReg, FlagC;
    assert Pow2(4) == 16 && Pow2(14) == 0x4000;
    Pow2Adds(14, 14);
  }

  lemma XorOfZero(v: Word)
    requires v != 0
    ensures Alu.Result(9, 0, v, true) == Alu.Result(9, 0, v, false) != 0
  {
    Bitwise.XorItself(0);
    hide XorWord;
    Bitwise.XorShows(0, v, 0);
  }

  // ---- Multiplies, swaps and double words: executed as half-word transfers ------------------------------------

  /** MUL: the destination is in bits 19 to 16, where a transfer has its base. */
  predicate IsMul(ins: Word) {
    Group(ins) == 0 && Bit7(ins) && Bit4(ins) && !Bit6(ins) && !Bit5(ins) && ins / 0x10_0000 % 0x20 == 0
  }

  function PrescribedMul(s: State, ins: Word): State {
    WriteReg(s, Rn(ins), Wrap(ReadReg(s, Rm(ins)) * ReadReg(s, Rs(ins))))
  }

  lemma PutHalfKeepsIff(ram: Ram, big: bool, a: nat, v: Half)
    requires a + 2 <= |ram|
    ensures PutHalf(ram, big, a, v) == ram <==> HalfAt(ram, big, a) == v
  {
    var r := PutHalf(ram, big, a, v);
    Single.HalfRoundTrip(ram, big, a, v);
    var (b0, b1) := HostHalfBytes(big, v);
    assert r[a] == b0 && r[a + 1] == b1;
    if HalfAt(ram, big, a) == v {
      HalfBytesAre(big, ram[a], ram[a + 1]);
      assert r == ram[a := ram[a]][a + 1 := ram[a + 1]] == ram;
    }
  }

  lemma HalfBytesAre(big: bool, b0: Byte, b1: Byte)
    ensures HostHalfBytes(big, HostHalf(big, b0, b1)) == (b0, b1)
  {
  }

  /**
   * MUL stores the half-word of the register in bits 15 to 12 at its destination, and subtracts
   * from the destination the number that its operand fields form. It is right exactly when the
   * difference happens to be the product and memory holds that half-word there already.
   */
  lemma MulRightIff(s: State, ins: Word)
    requires IsMul(ins) && Rn(ins) != 15
    ensures var a := ReadReg(s, Rn(ins));
            Execute(s, ins) == Outcome(Done(0), PrescribedMul(s, ins)) <==>
              && Wrap(a - (Rs(ins) * 16 + Rm(ins))) == Wrap(ReadReg(s, Rm(ins)) * ReadReg(s, Rs(ins)))
              && a + 2 <= |s.ram| && HalfAt(s.ram, s.big, a) == ReadReg(s, Rd(ins)) % 0x1_0000
  {
    MulIsStore(s, ins);
    hide Execute, IsMul, ReadReg, Wrap, Rn, Rm, Rs, Rd, HalfAt, PutHalf;
    var a, product := ReadReg(s, Rn(ins)), Wrap(ReadReg(s, Rm(ins)) * ReadReg(s, Rs(ins)));
    var k := CellFor(s.mode, Rn(ins));
    assert s.cells[k := Wrap(a - (Rs(ins) * 16 + Rm(ins)))][k] == Wrap(a - (Rs(ins) * 16 + Rm(ins)));
    assert s.cells[k := product][k] == product;
    if a + 2 <= |s.ram| { PutHalfKeepsIff(s.ram, s.big, a, ReadReg(s, Rd(ins)) % 0x1_0000); }
  }

  lemma MulIsStore(s: State, ins: Word)
    requires IsMul(ins)
    ensures var a, v := ReadReg(s, Rn(ins)), ReadReg(s, Rd(ins)) % 0x1_0000;
            Execute(s, ins) ==
            Outcome(Done(if a + 2 <= |s.ram| then 0 else DATA_ABORT),
                    WriteReg(if a + 2 <= |s.ram| then s.(ram := PutHalf(s.ram, s.big, a, v)) else s,
                             Rn(ins), Wrap(a - (Rs(ins) * 16 + Rm(ins)))))
  {
    Single.ExecutesHalfAccess(s, ins);
    MulBits(ins);
    hide Execute, ReadReg, Bit20, Bit21, Bit22, Bit23, Bit24, Rn, Rm, Rs, Rd, PutHalf, IsMul;
  }

  lemma MulBits(ins: Word)
    requires ins / 0x10_0000 % 0x20 == 0
    ensures !Bit20(ins) && !Bit21(ins) && !Bit22(ins) && !Bit23(ins) && !Bit24(ins)
  {
    var q := ins / 0x10_0000;
    assert ins / 0x20_0000 == q / 2 && ins / 0x40_0000 == q / 4 && ins / 0x80_0000 == q / 8 && ins / 0x100_0000 == q / 16;
  }

  /** SWP and SWPB: bits 27 to 23 are 00010, bits 21 and 20 clear. */
  predicate IsSwap(ins: Word) {
    && Group(ins) == 0 && Bit7(ins) && Bit4(ins) && !Bit6(ins) && !Bit5(ins)
    && Bit24(ins) && !Bit23(ins) && !Bit21(ins) && !Bit20(ins)
  }

  /** LDRD and STRD: bit 6 without bit 20. */
  predicate IsDouble(ins: Word) {
    Group(ins) == 0 && Bit7(ins) && Bit4(ins) && Bit6(ins) && !Bit20(ins)
  }

  /** Swaps load nothing: no register changes, so the destination is right only if it held the word before. */
  lemma SwapLoadsNothing(s: State, ins: Word)
    requires IsSwap(ins)
    ensures Execute(s, ins).s.cells == s.cells
  {
    Single.ExecutesHalfAccess(s, ins);
    hide Execute, ReadReg, Single.PrescribedIndexed, Single.PrescribedAddress, PutHalf, DecodeOffH;
  }

  /** LDRD loads nothing and STRD stores a quarter: both store one half-word, and move the base only. */
  lemma DoublesStoreAHalf(s: State, ins: Word, c: nat)
    requires IsDouble(ins) && c < |s.ram|
    ensures var off := DecodeOffH(s, ins);
            var a := Single.PrescribedAddress(s, ins, off);
            var o := Execute(s, ins);
            && o.status == Done(if a + 2 <= |s.ram| then 0 else 5)
            && o.s == Single.Based(s, ins, Single.PrescribedIndexed(s, ins, off)).(ram := o.s.ram)
            && |o.s.ram| == |s.ram| && (c < a || a + 2 <= c ==> o.s.ram[c] == s.ram[c])
  {
    Single.ExecutesTransfer(s, ins);
    Single.StoreEffect(s, ins, DecodeOffH(s, ins), SizeHalf, c);
    Single.GroupTellsBit26(ins);
    hide Execute, Store, DecodeOffH, Bit26, Single.Based, Single.PrescribedIndexed, Single.PrescribedAddress;
  }

  // ---- Undefined and unconditional words ------------------------------------------------------------------------

  /** A register offset with bit 4 set is undefined in the manual; here it is a load or store all the same. */
  lemma UndefinedIsExecuted(s: State, ins: Word)
    requires Group(ins) == 3 && Bit4(ins)
    ensures Execute(s, ins) == LoadStore(s, ins)
    ensures Execute(s, ins).status == Done(0) || Execute(s, ins).status == Done(DATA_ABORT)
  {
    hide DecodeOff, DecodeOffH, Indexed, AccessAddress, WriteBack, StoreSized, LoadSized, ReadReg;
  }

  /** Condition 15 selects instructions of its own, BLX to an address among them; here it never passes. */
  lemma UnconditionalIsSkipped(s: State, ins: Word)
    requires LoadWord(s.ram, s.big, FetchAddress(s)) == Some(ins) && Cond(ins) == 15
    ensures Step(s) == Outcome(Done(0), Fetched(s))
  {
    hide Execute, Fetched, FetchAddress, LoadWord, ReadCpsr;
  }
}
