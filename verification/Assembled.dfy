/**
 * Instructions as they are written, field by field, and what executing the assembled word does:
 * stated in the fields alone, for all their values. Sections A3 to A5 of the ARM Architecture
 * Reference Manual.
 */
module Assembled {
  import opened Words
  import opened Banking
  import opened Memory
  import opened Instruction
  import opened Encoding
  import opened Machine
  import Alu
  import Arith
  import DP = DataProcessing
  import Multiple
  import Shifter
  import Single

  // ---- Registers by name ------------------------------------------------------------------------------------

  /** The cell of a register number is that of the architectural register the current mode gives it. */
  lemma RegistersAreNamed(s: State, r: Reg4, v: Word)
    ensures NameOf(s.mode, r).Some? && NameOf(USR, r).Some?
    ensures var k := CellOf(NameOf(s.mode, r).value);
            r < 15 ==> ReadReg(s, r) == s.cells[k] && WriteReg(s, r, v).cells == s.cells[k := v]
    ensures var k := CellOf(NameOf(USR, r).value);
            r < 15 ==> ReadUsrReg(s, r) == s.cells[k] && WriteUsrReg(s, r, v).cells == s.cells[k := v]
  {
    SlotReachesName(s.mode, r);
    SlotReachesName(USR, r);
  }

  /** The program counter of an aligned next instruction reads as that plus 4, and is written as it is. */
  lemma PcIsNamed(s: State, a: nat, v: Word)
    requires s.cells[CellOf(Pc)] == a && a % 4 == 0 && a + 4 < 0x1_0000_0000
    ensures ReadReg(s, 15) == a + 4 && ReadUsrReg(s, 15) == a + 4 && WriteReg(s, 15, v).cells == s.cells[CellOf(Pc) := v]
  {
    Single.PcReadAligned(a);
    hide PcRead;
  }

  // ---- Data processing --------------------------------------------------------------------------------------

  /** The second operand of section A5.1. */
  datatype Operand2 =
    | Immediate(rot: Reg4, imm: Byte)
    | ByAmount(rm: Reg4, kind: Kind, amount: Amount)
    | ByRegister(rm: Reg4, kind: Kind, rs: Reg4)

  function OperandBits(o: Operand2): Low12 {
    match o
    case Immediate(rot, imm) => RotatedImmediate(rot, imm)
    case ByAmount(rm, kind, amount) => ShiftedByAmount(rm, kind, amount)
    case ByRegister(rm, kind, rs) => ShiftedByRegister(rm, kind, rs)
  }

  datatype DataInstruction = DataInstruction(cond: Reg4, op: Reg4, setFlags: bool, rn: Reg4, rd: Reg4, operand: Operand2)

  function DataHead(i: DataInstruction): Head {
    OpcodeHead(i.cond, if i.operand.Immediate? then 1 else 0, i.op, i.setFlags, i.rn, i.rd)
  }

  function AssembleData(i: DataInstruction): Word {
    Assemble(DataHead(i), OperandBits(i.operand))
  }

  /** A register shifted by an amount; the amount 0 means 32 for LSR and ASR, and RRX for ROR. */
  function ByAmountMeans(rm: Word, kind: Kind, amount: Amount, c: bool): Shifter.Operand {
    if amount > 0 || kind == 0 then Shifter.Shifted(kind, rm, amount, c)
    else if kind < 3 then Shifter.Shifted(kind, rm, 32, c)
    else Shifter.Operand((if c then 0x8000_0000 else 0) + rm / 2, rm % 2 == 1)
  }

  /** The value and carry that the manual gives the operand. */
  function Meaning(s: State, o: Operand2): Shifter.Operand {
    var c := FlagC(ReadCpsr(s));
    match o
    case Immediate(rot, imm) => Shifter.Shifted(3, imm, 2 * rot, c)
    case ByAmount(rm, kind, amount) => ByAmountMeans(ReadReg(s, rm), kind, amount, c)
    case ByRegister(rm, kind, rs) => Shifter.Shifted(kind, ReadReg(s, rm), ReadReg(s, rs) % 0x100, c)
  }

  lemma DataFields(i: DataInstruction)
    ensures var ins := AssembleData(i);
            && Cond(ins) == i.cond && Group(ins) == (if i.operand.Immediate? then 1 else 0) && Opcode(ins) == i.op
            && Bit20(ins) == i.setFlags && Rn(ins) == i.rn && Rd(ins) == i.rd && Bit25(ins) == i.operand.Immediate?
  {
    var h, low := DataHead(i), OperandBits(i.operand);
    GroupFields(h, low);
    FieldsAboveRegisters(h, low);
    RegisterFields(h, low);
    OpcodeField(i.cond, h.group, i.op, i.setFlags, i.rn, i.rd, low);
    hide Assemble, OperandBits, Cond, Group, Opcode, Bit20, Rn, Rd, Bit25;
  }

  lemma OperandFields(i: DataInstruction)
    ensures var ins := AssembleData(i);
            match i.operand
            case Immediate(rot, imm) => Rs(ins) == rot && Imm8(ins) == imm
            case ByAmount(rm, kind, amount) => Rm(ins) == rm && ShiftKind(ins) == kind && ShiftImm(ins) == amount && !Bit4(ins)
            case ByRegister(rm, kind, rs) => Rm(ins) == rm && ShiftKind(ins) == kind && Rs(ins) == rs && Bit4(ins) && !Bit7(ins)
  {
    hide Assemble, DataHead, RotatedImmediate, ShiftedByAmount, ShiftedByRegister, Rs, Rm, Imm8, ShiftKind, ShiftImm,
         Bit4, Bit7;
    match i.operand
    case Immediate(rot, imm) => RotatedImmediateFields(DataHead(i), rot, imm);
    case ByAmount(rm, kind, amount) => ShiftedByAmountFields(DataHead(i), rm, kind, amount);
    case ByRegister(rm, kind, rs) => ShiftedByRegisterFields(DataHead(i), rm, kind, rs);
  }

  /** The family that decode_so gets wrong: LSR and ASR by a register whose low byte is 0. */
  predicate RightByZero(s: State, o: Operand2) {
    o.ByRegister? && (o.kind == 1 || o.kind == 2) && ReadReg(s, o.rs) % 0x100 == 0
  }

  /** The operand of the word is the operand that was written. */
  lemma OperandIsAsWritten(s: State, i: DataInstruction)
    ensures DP.PrescribedOperand(s, AssembleData(i)) == Meaning(s, i.operand)
    ensures Shifter.RightByZeroRegister(AssembleData(i), ReadReg(s, Rs(AssembleData(i)))) == RightByZero(s, i.operand)
  {
    DataFields(i);
    OperandFields(i);
    hide AssembleData, Shifter.Shifted, ReadReg, FlagC, Rs, Rm, Imm8, ShiftKind, ShiftImm, Bit4, Bit7, Bit25;
  }

  /** decode_so computes the operand that was written, exactly outside that family or where it does not show. */
  lemma OperandIsComputedIff(s: State, i: DataInstruction)
    ensures ShifterOperand(s, AssembleData(i)) == Meaning(s, i.operand) <==>
            (RightByZero(s, i.operand) ==>
               var rm, c := ReadReg(s, i.operand.rm), FlagC(ReadCpsr(s));
               (rm == 0 && !c) || (rm == 0xFFFF_FFFF && c && i.operand.kind == 2))
  {
    var ins := AssembleData(i);
    OperandIsAsWritten(s, i);
    OperandFields(i);
    Shifter.DecodeSoIsPrescribedIff(ins, ReadReg(s, Rm(ins)), ReadReg(s, Rs(ins)), FlagC(ReadCpsr(s)));
    hide AssembleData, Shifter.DecodeSo, Shifter.Prescribed, Shifter.RightByZeroRegister, Meaning, ReadReg, FlagC, Rs, Rm,
         ShiftKind, ShiftImm, Bit4, Bit7;
  }

  /** The exact condition of DataProcessing.InstructionIsPrescribedIff, in the fields. */
  predicate DataIsRight(s: State, i: DataInstruction) {
    var c, rn := FlagC(ReadCpsr(s)), ReadReg(s, i.rn);
    var test := 8 <= i.op <= 11;
    var sets := test || (i.setFlags && i.rd != 15);
    var restores := !test && i.setFlags && i.rd == 15 && HasSpsr(s);
    if !RightByZero(s, i.operand) then
      && (sets ==> DP.FlagsAreRight(i.op, rn, Meaning(s, i.operand).value, c))
      && (restores ==> ReadSpsr(s) % 32 == s.mode)
    else
      var rm := ReadReg(s, i.operand.rm);
      var fill := if i.operand.kind == 2 && rm >= 0x8000_0000 then 0xFFFF_FFFF else 0;
      if test then DP.TestSurvives(i.op, rn, rm, fill, c)
      else
        && DP.ResultSurvives(i.op, rn, rm, fill)
        && (sets ==> if Alu.IsLogical(i.op) then c == Alu.Negative(rm) else DP.FlagsAreRight(i.op, rn, rm, c))
        && (restores ==> ReadSpsr(s) % 32 == s.mode)
  }

  /**
   * Every data-processing instruction, as written, in any state: the state after executing its
   * word is the one the manual prescribes for its fields exactly under that condition.
   */
  lemma DataInstructionIsPrescribedIff(s: State, i: DataInstruction)
    requires 8 <= i.op <= 11 ==> i.setFlags
    ensures Execute(s, AssembleData(i)) ==
            Outcome(Done(0), DP.Operated(s, i.op, i.setFlags, i.rd, ReadReg(s, i.rn), Meaning(s, i.operand)))
            <==> DataIsRight(s, i)
  {
    var ins := AssembleData(i);
    DataFields(i);
    OperandFields(i);
    OperandIsAsWritten(s, i);
    DataWordIsOne(i);
    DP.InstructionIsPrescribedIff(s, ins);
    hide AssembleData, Execute, DP.Operated, Meaning, ReadReg, FlagC, Rs, Rm, Rn, Rd, Imm8, ShiftKind, ShiftImm,
         Bit4, Bit7,
         Bit20, Bit25, Group, Cond, Opcode, DP.FlagsAreRight, DP.TestSurvives, DP.ResultSurvives, Shifter.RightByZeroRegister,
         DP.PrescribedOperand, RightByZero, DP.IsDataProcessing;
    if RightByZero(s, i.operand) { RightByZeroIsByRegister(s, i.operand); }
  }

  lemma RightByZeroIsByRegister(s: State, o: Operand2)
    requires RightByZero(s, o)
    ensures o.ByRegister?
  {
  }

  lemma DataWordIsOne(i: DataInstruction)
    requires 8 <= i.op <= 11 ==> i.setFlags
    ensures DP.IsDataProcessing(AssembleData(i))
  {
    DataFields(i);
    OperandFields(i);
    hide AssembleData, Group, Opcode, Bit20, Bit4, Bit7;
  }

  /** And every data-processing word is written that way. */
  function DisassembleData(ins: Word): DataInstruction {
    DataInstruction(Cond(ins), Opcode(ins), Bit20(ins), Rn(ins), Rd(ins),
                    if Group(ins) == 1 then Immediate(Rs(ins), Imm8(ins))
                    else if Bit4(ins) then ByRegister(Rm(ins), ShiftKind(ins), Rs(ins))
                    else ByAmount(Rm(ins), ShiftKind(ins), ShiftImm(ins)))
  }

  lemma EveryDataWordIsAssembled(ins: Word)
    requires DP.IsDataProcessing(ins)
    ensures AssembleData(DisassembleData(ins)) == ins
  {
    Disassembled(ins);
    LowOfWord(ins);
    OpcodeBits(ins);
    hide Assemble, Imm12, Cond, Group, Bit24, Bit23, Bit22, Bit21, Bit20, Rn, Rd, Rs, Rm, Imm8, ShiftKind, ShiftImm,
         Opcode, Bit7, Bit4;
  }

  lemma OpcodeBits(ins: Word)
    ensures var op := Opcode(ins);
            && (op / 8 == 1) == Bit24(ins) && ((op / 4) % 2 == 1) == Bit23(ins)
            && ((op / 2) % 2 == 1) == Bit22(ins) && (op % 2 == 1) == Bit21(ins)
  {
    var q := ins / 0x20_0000;
    assert ins / 0x40_0000 == q / 2 && ins / 0x80_0000 == q / 4 && ins / 0x100_0000 == q / 8;
    NibbleBits(q);
  }

  lemma NibbleBits(q: nat)
    ensures var op := q % 16;
            && (op / 8 == 1) == ((q / 8) % 2 == 1) && ((op / 4) % 2 == 1) == ((q / 4) % 2 == 1)
            && ((op / 2) % 2 == 1) == ((q / 2) % 2 == 1) && (op % 2 == 1) == (q % 2 == 1)
  {
    Digit(q, 1, 2);
    Digit(q, 2, 2);
    Digit(q, 4, 2);
    Digit(q, 8, 2);
    var low := ((q / 8) % 2) * 8 + ((q / 4) % 2) * 4 + ((q / 2) % 2) * 2 + q % 2;
    Arith.DivisionIsUnique(q, 16, q / 16, low);
  }

  /** The twelve low bits from the fields they are cut into. */
  lemma LowOfWord(ins: Word)
    ensures Imm12(ins) == Rs(ins) * 0x100 + Imm8(ins)
    ensures !Bit4(ins) ==> Imm12(ins) == ShiftImm(ins) * 0x80 + ShiftKind(ins) * 0x20 + Rm(ins)
    ensures Bit4(ins) && !Bit7(ins) ==> Imm12(ins) == Rs(ins) * 0x100 + ShiftKind(ins) * 0x20 + 0x10 + Rm(ins)
  {
    var top := ins / 0x1000;
    Arith.DivMod(ins, 0x1000);
    Arith.DivMod(ins, 0x100);
    Digit(ins, 0x100, 16);
    Arith.DivMod(ins, 16);
    Digit(ins, 0x10, 2);
    Digit(ins, 0x20, 4);
    Digit(ins, 0x80, 2);
    Digit(ins, 0x80, 32);
  }

  // ---- Words and bytes to and from memory -----------------------------------------------------------------------

  datatype Offset = Number(n: Low12) | Scaled(rm: Reg4, kind: Kind, amount: Amount)

  /** LDR, LDRB, STR and STRB: pre-indexed or not, up or down, byte or word, with write-back or not. */
  datatype Transfer = Transfer(cond: Reg4, p: bool, u: bool, b: bool, w: bool, load: bool, rn: Reg4, rd: Reg4, offset: Offset)

  function TransferHead(i: Transfer): Head {
    Head(i.cond, if i.offset.Number? then 2 else 3, i.p, i.u, i.b, i.w, i.load, i.rn, i.rd)
  }

  function OffsetBits(o: Offset): Low12 {
    match o
    case Number(n) => n
    case Scaled(rm, kind, amount) => ShiftedByAmount(rm, kind, amount)
  }

  function AssembleTransfer(i: Transfer): Word {
    Assemble(TransferHead(i), OffsetBits(i.offset))
  }

  function OffsetMeans(s: State, o: Offset): Word {
    match o
    case Number(n) => n
    case Scaled(rm, kind, amount) => ByAmountMeans(ReadReg(s, rm), kind, amount, FlagC(ReadCpsr(s))).value
  }

  function TransferSize(i: Transfer): Size { if i.b then SizeByte else SizeWord }

  /** The base plus or minus the offset, modulo 2^32. */
  function Moved(base: Word, u: bool, off: nat): Word {
    Wrap(if u then base + off else base - off)
  }

  /** The base register after a transfer: unchanged exactly for an offset address, P without W. */
  function BaseAfter(s: State, p: bool, w: bool, rn: Reg4, moved: Word): State {
    if p && !w then s else WriteReg(s, rn, moved)
  }

  lemma TransferGroup(i: Transfer)
    ensures var ins := AssembleTransfer(i); Single.IsTransfer(ins) && Bit26(ins) && (Bit25(ins) <==> i.offset.Scaled?)
  {
    GroupFields(TransferHead(i), OffsetBits(i.offset));
    hide Assemble, OffsetBits, Group, Bit26, Bit25, Bit7, Bit4;
  }

  lemma OffsetFields(i: Transfer)
    ensures var ins := AssembleTransfer(i);
            && (i.offset.Number? ==> Imm12(ins) == i.offset.n)
            && (i.offset.Scaled? ==>
                  Rm(ins) == i.offset.rm && ShiftKind(ins) == i.offset.kind && ShiftImm(ins) == i.offset.amount)
  {
    hide Assemble, TransferHead, ShiftedByAmount, Imm12, Rm, ShiftKind, ShiftImm, Bit4;
    match i.offset
    case Number(n) => RegisterFields(TransferHead(i), n);
    case Scaled(rm, kind, amount) => ShiftedByAmountFields(TransferHead(i), rm, kind, amount);
  }

  lemma TransferFields(i: Transfer)
    ensures var ins := AssembleTransfer(i);
            && Single.IsTransfer(ins) && Bit26(ins) && (Bit25(ins) <==> i.offset.Scaled?)
            && Bit24(ins) == i.p && Bit23(ins) == i.u && Bit22(ins) == i.b && Bit21(ins) == i.w && Bit20(ins) == i.load
            && Rn(ins) == i.rn && Rd(ins) == i.rd
  {
    hide Assemble, OffsetBits, Bit26, Bit25, Bit24, Bit23, Bit22, Bit21, Bit20, Rn, Rd, Single.IsTransfer;
    TransferGroup(i);
    MiddleFields(TransferHead(i), OffsetBits(i.offset));
    RegisterFields(TransferHead(i), OffsetBits(i.offset));
  }

  lemma OffsetIsAsWritten(s: State, i: Transfer)
    ensures Single.DecodedOffset(s, AssembleTransfer(i)) == OffsetMeans(s, i.offset)
  {
    var ins := AssembleTransfer(i);
    TransferFields(i);
    OffsetFields(i);
    hide AssembleTransfer, ReadReg, FlagC, Bit26, Bit25, Imm12, Rm, ShiftKind, ShiftImm, Single.IsTransfer,
         Shifter.Shifted,
         Shifter.ShiftLeft, Shifter.ShiftRight, Shifter.Asr, Shifter.Ror;
    if i.offset.Scaled? { Single.ScaledOffsetIsPrescribed(s, ins); }
  }

  lemma TransferAddresses(s: State, i: Transfer)
    ensures var ins, base, off := AssembleTransfer(i), ReadReg(s, i.rn), OffsetMeans(s, i.offset);
            && Single.PrescribedIndexed(s, ins, off) == Moved(base, i.u, off)
            && Single.PrescribedAddress(s, ins, off) == (if i.p then Moved(base, i.u, off) else base)
            && Single.Based(s, ins, Moved(base, i.u, off)) == BaseAfter(s, i.p, i.w, i.rn, Moved(base, i.u, off))
            && Single.DecodedSize(ins) == TransferSize(i)
  {
    TransferFields(i);
    hide AssembleTransfer, ReadReg, OffsetMeans, Bit26, Bit25, Bit24, Bit23, Bit22, Bit21, Rn, Single.IsTransfer,
         WriteReg;
  }

  /**
   * LDR and LDRB: the address is the base moved by the offset, or the base alone without P. Outside
   * memory the load aborts (code 5). Otherwise the register receives the word or byte there, the
   * PC without its two low bits. The base moves unless P is set and W is not.
   */
  lemma LoadTransfers(s: State, i: Transfer)
    requires i.load
    ensures var base, moved := ReadReg(s, i.rn), Moved(ReadReg(s, i.rn), i.u, OffsetMeans(s, i.offset));
            var a, t := if i.p then moved else base, BaseAfter(s, i.p, i.w, i.rn, moved);
            Execute(s, AssembleTransfer(i)) ==
            if i.b then
              if a >= |s.ram| then Outcome(Done(5), t) else Outcome(Done(0), WriteReg(t, i.rd, s.ram[a]))
            else if a + 4 > |s.ram| then Outcome(Done(5), t)
            else
              var v := WordAt(s.ram, s.big, a);
              Outcome(Done(0), WriteReg(t, i.rd, if i.rd == 15 then v - v % 4 else v))
  {
    var ins, off := AssembleTransfer(i), OffsetMeans(s, i.offset);
    TransferFields(i);
    OffsetIsAsWritten(s, i);
    TransferAddresses(s, i);
    Single.ExecutesTransfer(s, ins);
    Single.LoadEffect(s, ins, off, TransferSize(i));
    hide AssembleTransfer, Execute, Load, Bit26, Bit25, Bit24, Bit23, Bit22, Bit21, Bit20, ReadReg, OffsetMeans,
         Moved, BaseAfter, WordAt, Single.DecodedOffset, Single.DecodedSize,
         Single.PrescribedAddress, Single.PrescribedIndexed, Single.Based, WriteReg, Rd, Rn, Single.IsTransfer;
  }

  /**
   * STR and STRB: at the same address memory receives the register or its low byte, and no other
   * byte changes; outside memory the store aborts (code 5) and none does. The base moves as above,
   * and nothing else changes.
   */
  lemma StoreTransfers(s: State, i: Transfer, c: nat)
    requires !i.load && c < |s.ram|
    ensures var base, moved := ReadReg(s, i.rn), Moved(ReadReg(s, i.rn), i.u, OffsetMeans(s, i.offset));
            var a, v, o := if i.p then moved else base, ReadReg(s, i.rd), Execute(s, AssembleTransfer(i));
            var inside := a + (if i.b then 1 else 4) <= |s.ram|;
            && o.status == Done(if inside then 0 else 5)
            && o.s == BaseAfter(s, i.p, i.w, i.rn, moved).(ram := o.s.ram) && |o.s.ram| == |s.ram|
            && (inside && i.b ==> o.s.ram[a] == v % 0x100)
            && (inside && !i.b ==> WordAt(o.s.ram, s.big, a) == v)
            && (!inside || c < a || a + (if i.b then 1 else 4) <= c ==> o.s.ram[c] == s.ram[c])
  {
    var ins, off := AssembleTransfer(i), OffsetMeans(s, i.offset);
    TransferFields(i);
    OffsetIsAsWritten(s, i);
    TransferAddresses(s, i);
    Single.ExecutesTransfer(s, ins);
    Single.StoreEffect(s, ins, off, TransferSize(i), c);
    hide AssembleTransfer, Execute, Store, ReadReg, OffsetMeans, Moved, BaseAfter, WordAt, Single.DecodedOffset,
         Single.DecodedSize,
         Single.PrescribedAddress, Single.PrescribedIndexed, Single.Based, WriteReg, Rd, Rn, Single.IsTransfer;
  }

  // ---- Half-words -----------------------------------------------------------------------------------------------

  /** The extra transfers: bit 22 set, as this program reads it, for a register offset. */
  datatype Extra =
    Extra(cond: Reg4, p: bool, u: bool, b22: bool, w: bool, load: bool, rn: Reg4, rd: Reg4,
          high: Reg4, b6: bool, b5: bool, low: Reg4)

  function AssembleExtra(i: Extra): Word {
    Assemble(Head(i.cond, 0, i.p, i.u, i.b22, i.w, i.load, i.rn, i.rd), ExtraTransfer(i.high, i.b6, i.b5, i.low))
  }

  function ExtraOffset(s: State, i: Extra): Word {
    if i.b22 then ReadReg(s, i.low) else 16 * i.high + i.low
  }

  lemma ExtraFields(i: Extra)
    ensures var ins := AssembleExtra(i);
            && Group(ins) == 0 && Bit7(ins) && Bit4(ins) && Bit6(ins) == i.b6 && Bit5(ins) == i.b5
            && Bit24(ins) == i.p && Bit23(ins) == i.u && Bit22(ins) == i.b22 && Bit21(ins) == i.w && Bit20(ins) == i.load
            && Rn(ins) == i.rn && Rd(ins) == i.rd && Rs(ins) == i.high && Rm(ins) == i.low
  {
    var h, low := Head(i.cond, 0, i.p, i.u, i.b22, i.w, i.load, i.rn, i.rd), ExtraTransfer(i.high, i.b6, i.b5, i.low);
    GroupFields(h, low);
    MiddleFields(h, low);
    RegisterFields(h, low);
    ExtraTransferFields(h, i.high, i.b6, i.b5, i.low);
    hide Assemble, ExtraTransfer, Group, Bit24, Bit23, Bit22, Bit21, Bit20, Bit7, Bit6, Bit5, Bit4, Rn, Rd, Rs, Rm;
  }

  lemma ExtraAddresses(s: State, i: Extra)
    ensures var ins, base, off := AssembleExtra(i), ReadReg(s, i.rn), ExtraOffset(s, i);
            && DecodeOffH(s, ins) == off
            && Single.PrescribedIndexed(s, ins, off) == Moved(base, i.u, off)
            && Single.PrescribedAddress(s, ins, off) == (if i.p then Moved(base, i.u, off) else base)
            && (Single.WritesBack(ins) <==> !(i.p && !i.w))
  {
    ExtraFields(i);
    hide AssembleExtra, ReadReg, Group, Bit24, Bit23, Bit22, Bit21, Bit20, Bit7, Bit6, Bit5, Bit4, Rn, Rd, Rs, Rm;
  }

  /**
   * Every extra transfer, whatever bits 6 and 5 say, moves an unsigned half-word, with the offset
   * that bit 22 selects the other way round; Single.HalfAccessRightIff says when that is right.
   */
  lemma ExtraTransfers(s: State, i: Extra)
    ensures var base, moved := ReadReg(s, i.rn), Moved(ReadReg(s, i.rn), i.u, ExtraOffset(s, i));
            var a, t := if i.p then moved else base, BaseAfter(s, i.p, i.w, i.rn, moved);
            Execute(s, AssembleExtra(i)) ==
            if a + 2 > |s.ram| then Outcome(Done(5), t)
            else if i.load then Outcome(Done(0), WriteReg(t, i.rd, HalfAt(s.ram, s.big, a)))
            else Outcome(Done(0), t.(ram := PutHalf(s.ram, s.big, a, ReadReg(s, i.rd) % 0x1_0000)))
  {
    var ins := AssembleExtra(i);
    ExtraFields(i);
    Single.ExecutesHalfAccess(s, ins);
    ExtraAddresses(s, i);
    hide AssembleExtra, Execute, ReadReg, HalfAt, PutHalf, Group, Bit24, Bit23, Bit22, Bit21, Bit20, Bit7, Bit6,
         Bit5, Bit4,
         Rn, Rd, Rs, Rm, CellFor, Moved, ExtraOffset, DecodeOffH, Single.PrescribedAddress, Single.PrescribedIndexed,
         Single.WritesBack;
  }

  // ---- Load and store multiple -----------------------------------------------------------------------------------

  /** How many registers below i are in the list. */
  function RankIn(list: List16, i: nat): (n: nat)
    ensures n <= i
  {
    if i == 0 then 0 else RankIn(list, i - 1) + Bit(list, i - 1)
  }

  lemma {:induction false} RanksAgree(cond: Reg4, p: bool, u: bool, usr: bool, w: bool, load: bool, rn: Reg4, list: List16, i: nat)
    requires i <= 16
    ensures Multiple.Rank(AssembleList(cond, p, u, usr, w, load, rn, list), i) == RankIn(list, i)
    decreases i
  {
    hide AssembleList, Bit;
    if i > 0 {
      RanksAgree(cond, p, u, usr, w, load, rn, list, i - 1);
      ListFields(cond, p, u, usr, w, load, rn, list, i - 1);
    }
  }

  /** Where this program keeps register j of a list: four bytes a rank from the base, one further with P. */
  function PlaceIn(base: Word, p: bool, u: bool, list: List16, j: Reg4): Word {
    var k := RankIn(list, j) + (if p then 1 else 0);
    Wrap(if u then base + 4 * k else base - 4 * k)
  }

  lemma PlacesAgree(s: State, cond: Reg4, p: bool, u: bool, usr: bool, w: bool, load: bool, rn: Reg4, list: List16, j: Reg4)
    ensures var ins := AssembleList(cond, p, u, usr, w, load, rn, list);
            Multiple.Place(Multiple.Start(s, ins), ins, 0, u, j) == PlaceIn(ReadReg(s, rn), p, u, list, j)
  {
    var ins, base, k := AssembleList(cond, p, u, usr, w, load, rn, list), ReadReg(s, rn), RankIn(list, j);
    hide AssembleList, ReadReg, RankIn;
    assert Multiple.Rank(ins, 0) == 0;
    assert PlaceIn(base, p, u, list, j) == Multiple.Addr(base, u, k + (if p then 1 else 0));
    hide Rn, Multiple.Rank, Multiple.Addr, PlaceIn, Bit24, Bit23, Bit22, Bit21, Bit20, Group, Cond, Listed, NextAddress;
    ListFields(cond, p, u, usr, w, load, rn, list, j);
    RanksAgree(cond, p, u, usr, w, load, rn, list, j);
    if p { Multiple.NextIsAddr(base, u, k); }
  }

  /** STM, in all its forms: each listed register whose place is inside memory is there afterwards. */
  lemma StmStores(s: State, cond: Reg4, p: bool, u: bool, usr: bool, w: bool, rn: Reg4, list: List16, j: Reg4)
    requires Bit(list, j) == 1 && PlaceIn(ReadReg(s, rn), p, u, list, j) + 4 <= |s.ram|
    ensures var o := Execute(s, AssembleList(cond, p, u, usr, w, false, rn, list));
            var a := PlaceIn(ReadReg(s, rn), p, u, list, j);
            |o.s.ram| == |s.ram| && WordAt(o.s.ram, s.big, a) == if usr then ReadUsrReg(s, j) else ReadReg(s, j)
  {
    var ins := AssembleList(cond, p, u, usr, w, false, rn, list);
    ListFields(cond, p, u, usr, w, false, rn, list, j);
    PlacesAgree(s, cond, p, u, usr, w, false, rn, list, j);
    hide AssembleList, Execute, ReadReg, ReadUsrReg, Rn, PlaceIn, Multiple.Place, Bit, Bit24, Bit23, Bit22, Bit21,
         Bit20, Group,
         Cond, Listed, WordAt;
    Multiple.StoreMultipleStores(s, ins, j);
  }

  /** STM changes no register but a base written back, which moves by four bytes a listed register. */
  lemma StmMovesBase(s: State, cond: Reg4, p: bool, u: bool, usr: bool, w: bool, rn: Reg4, list: List16)
    ensures var o := Execute(s, AssembleList(cond, p, u, usr, w, false, rn, list));
            o.s == (if w then WriteReg(s, rn, Moved(ReadReg(s, rn), u, 4 * RankIn(list, 16))) else s).(ram := o.s.ram)
  {
    var ins, base, n := AssembleList(cond, p, u, usr, w, false, rn, list), ReadReg(s, rn), RankIn(list, 16);
    hide AssembleList, Execute, ReadReg, Rn, Multiple.Rank, RankIn, Bit24, Bit23, Bit22, Bit21, Bit20, Group, Cond,
         Listed,
         Multiple.Inside;
    assert Multiple.Addr(base, u, n) == Moved(base, u, 4 * n);
    ListFields(cond, p, u, usr, w, false, rn, list, 0);
    RanksAgree(cond, p, u, usr, w, false, rn, list, 16);
    assert Multiple.IsStm(ins);
    hide Multiple.IsStm, Multiple.Addr, Moved, Multiple.Start, CellFor;
    Multiple.StoreMultipleEffect(s, ins);
  }

  /** The mode whose row LDM loads into: the user bank with bit 22. */
  function LoadedMode(s: State, usr: bool): Byte { if usr then USR else s.mode }

  /**
   * LDM, but for its return form: each listed register of the current mode, or with bit 22 of the
   * user bank, whose place is inside memory receives the word there, if no base replaces it.
   */
  lemma LdmLoads(s: State, cond: Reg4, p: bool, u: bool, usr: bool, w: bool, rn: Reg4, list: List16, j: Reg4)
    requires Bit(list, j) == 1 && !(usr && Bit(list, 15) == 1)
    requires PlaceIn(ReadReg(s, rn), p, u, list, j) + 4 <= |s.ram|
    requires w ==> CellFor(LoadedMode(s, usr), j) != CellFor(s.mode, rn)
    ensures var o := Execute(s, AssembleList(cond, p, u, usr, w, true, rn, list));
            var v := WordAt(s.ram, s.big, PlaceIn(ReadReg(s, rn), p, u, list, j));
            o.s.cells[CellFor(LoadedMode(s, usr), j)] == if j == 15 then v - v % 4 else v
  {
    var ins := AssembleList(cond, p, u, usr, w, true, rn, list);
    ListFields(cond, p, u, usr, w, true, rn, list, j);
    ListFields(cond, p, u, usr, w, true, rn, list, 15);
    PlacesAgree(s, cond, p, u, usr, w, true, rn, list, j);
    hide AssembleList, Execute, ReadReg, Rn, PlaceIn, Multiple.Place, Multiple.LastRead, Bit, Bit24, Bit23, Bit22,
         Bit21, Bit20,
         Group, Cond, Listed, WordAt, CellFor;
    Multiple.LoadMultipleLoads(s, ins, j);
  }

  // ---- Branches, status reads and software interrupts ------------------------------------------------------------

  /** B and BL at a: to a + 8 and four times the signed field, with a + 4 in r14 if linked. */
  lemma BranchGoes(s: State, cond: Reg4, link: bool, field: Low24, a: nat)
    requires s.cells[CellFor(s.mode, 15)] == a + 4 && a % 4 == 0 && a + 8 < 0x1_0000_0000
    ensures var pc := Wrap(a + 8 + 4 * (if field < 0x80_0000 then field else field - 0x100_0000));
            Execute(s, Assemble24(cond, 5, link, field)) ==
            Outcome(Done(0), WriteReg(if link then WriteReg(s, 14, a + 4) else s, 15, pc))
  {
    var ins := Assemble24(cond, 5, link, field);
    Fields24(cond, 5, link, field);
    Single.BranchIsRelative(s, ins, a);
    hide Assemble24, Branch, Group, Imm24, Bit24, WriteReg;
  }

  /** MRS of the CPSR or the SPSR, to any register. */
  lemma MrsReads(s: State, cond: Reg4, spsr: bool, rd: Reg4)
    ensures Execute(s, Assemble(Head(cond, 0, true, false, spsr, false, false, 15, rd), 0)) ==
            if !spsr then Outcome(Done(0), WriteReg(s, rd, ReadCpsr(s)))
            else if HasSpsr(s) then Outcome(Done(0), WriteReg(s, rd, ReadSpsr(s)))
            else Outcome(Crash, s)
  {
    var h := Head(cond, 0, true, false, spsr, false, false, 15, rd);
    var ins := Assemble(h, 0);
    GroupFields(h, 0);
    MiddleFields(h, 0);
    RegisterFields(h, 0);
    assert !Bit4(ins) by { Field(ins, 0x10, 2, Above12(h) * 0x80, 0, 0); }
    hide Assemble, Group, Bit24, Bit23, Bit22, Bit20, Bit7, Bit4, Rd, WriteReg, ReadCpsr, ReadSpsr, HasSpsr;
  }

  /** SWI leaves the simulator with the number 0x123456; with any other it returns code 3 and changes nothing. */
  lemma SwiInterrupts(s: State, cond: Reg4, number: Low24)
    ensures Execute(s, Assemble24(cond, 7, true, number)) == Outcome(if number == 0x12_3456 then Exit else Done(3), s)
  {
    Fields24(cond, 7, true, number);
    hide Assemble24, Group, Imm24, Bit24;
  }

  /** Coprocessor instructions, of either group, return code 2 and change nothing. */
  lemma CoprocessorIsUndefined(s: State, cond: Reg4, b24: bool, low: Low24)
    ensures Execute(s, Assemble24(cond, 6, b24, low)) == Outcome(Done(2), s)
    ensures Execute(s, Assemble24(cond, 7, false, low)) == Outcome(Done(2), s)
  {
    Fields24(cond, 6, b24, low);
    Fields24(cond, 7, false, low);
    hide Assemble24, Group, Imm24, Bit24;
  }

  // ---- Steps ----------------------------------------------------------------------------------------------------

  /**
   * A step at word address a: the word there is executed, with the PC four further and a cycle
   * counted, if its condition passes; where there is no word the code is -1. Either way the PC has moved.
   */
  lemma StepExecutes(s: State, a: nat)
    requires s.cells[CellFor(s.mode, 15)] == a && a % 4 == 0 && a + 8 < 0x1_0000_0000
    ensures var t := s.(cells := s.cells[CellFor(s.mode, 15) := a + 4], cycles := Wrap(s.cycles + 1));
            Step(s) ==
            if a + 4 > |s.ram| then Outcome(Done(-1), t)
            else
              var ins := WordAt(s.ram, s.big, a);
              if ConditionPassed(ReadCpsr(s), Cond(ins)) then Execute(t, ins) else Outcome(Done(0), t)
  {
    hide Execute, WordAt, ConditionPassed, Cond, FetchAddress, Fetched, ReadCpsr, CellFor, Step;
    StepNeverResets(s);
    FetchedAt(s, a);
  }

  lemma FetchedAt(s: State, a: nat)
    requires s.cells[CellFor(s.mode, 15)] == a && a % 4 == 0 && a + 8 < 0x1_0000_0000
    ensures FetchAddress(s) == a && ReadCpsr(Fetched(s)) == ReadCpsr(s)
    ensures Fetched(s) == s.(cells := s.cells[CellFor(s.mode, 15) := a + 4], cycles := Wrap(s.cycles + 1))
  {
    Single.PcReadAligned(a);
    hide PcRead;
    assert CellFor(s.mode, 15) == 30 && CellFor(s.mode, 16) == 31;
  }
}
