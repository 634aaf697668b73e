/**
 * A whole data-processing instruction, operand, result, flags and mode together, against sections
 * A3.4, A4.1 and A5.1 of the ARM Architecture Reference Manual.
 */
module DataProcessing {
  import opened Words
  import opened Banking
  import opened Instruction
  import opened Bitwise
  import M = Machine
  import Alu
  import Arith
  import Shifter

  // ---- What the manual prescribes ----------------------------------------------------------------------

  /**
   * The manual's data-processing instructions: those of the two groups that are no multiplies or
   * extra loads and stores. TST, TEQ, CMP and CMN have bit 20 set; without it the same opcodes are
   * status register, branch exchange and other instructions (see module Misread).
   */
  predicate IsDataProcessing(ins: Word) {
    && (Group(ins) == 1 || (Group(ins) == 0 && !(Bit7(ins) && Bit4(ins))))
    && (Alu.IsTest(Opcode(ins)) ==> Bit20(ins))
  }

  /** The operand the manual prescribes in a state. */
  function PrescribedOperand(s: M.State, ins: Word): Shifter.Operand {
    Shifter.Prescribed(ins, M.ReadReg(s, Rm(ins)), M.ReadReg(s, Rs(ins)), FlagC(M.ReadCpsr(s)))
  }

  /** The CPSR the manual prescribes: N and Z from the result, C and V exact, the other bits kept. */
  function PrescribedCpsr(op: Reg4, cpsr: Word, rn: Word, so: Word, carry: bool): Word {
    var c := FlagC(cpsr);
    var res := Alu.TrueResult(op, rn, so, c);
    Pack(Signed(res) < 0, res == 0,
         if Alu.IsLogical(op) then carry else Alu.TrueC(op, rn, so, c),
         if Alu.IsLogical(op) then FlagV(cpsr) else Alu.TrueV(op, rn, so, c),
         cpsr % 0x1000_0000)
  }

  /** A status word put back into the CPSR also puts its mode in force. */
  function Restored(s: M.State, status: Word): M.State {
    M.WriteCpsr(s, status).(mode := status % 32)
  }

  /** The state the manual prescribes after operation op of rn and a given operand. */
  function Operated(s: M.State, op: Reg4, setFlags: bool, rd: Reg4, rn: Word, operand: Shifter.Operand): M.State {
    var cpsr := M.ReadCpsr(s);
    var after := PrescribedCpsr(op, cpsr, rn, operand.value, operand.carry);
    if 8 <= op <= 11 then M.WriteCpsr(s, after)
    else
      var t := M.WriteReg(s, rd, Alu.TrueResult(op, rn, operand.value, FlagC(cpsr)));
      if !setFlags then t
      else if rd != 15 then M.WriteCpsr(t, after)
      else if M.HasSpsr(t) then Restored(t, M.ReadSpsr(t))
      else t
  }

  /** The state the manual prescribes after an instruction word. */
  function Prescribed(s: M.State, ins: Word): M.State {
    Operated(s, Opcode(ins), Bit20(ins), Rd(ins), M.ReadReg(s, Rn(ins)), PrescribedOperand(s, ins))
  }

  // ---- When the program's state is that one ---------------------------------------------------------------

  /** The instruction computes its flags: a comparison or test, or bit 20 with another destination than the PC. */
  predicate SetsFlags(ins: Word) {
    Alu.IsTest(Opcode(ins)) || (Bit20(ins) && Rd(ins) != 15)
  }

  /** The instruction returns from an exception: the SPSR goes to the CPSR. */
  predicate CopiesSpsr(s: M.State, ins: Word) {
    !Alu.IsTest(Opcode(ins)) && Bit20(ins) && Rd(ins) == 15 && M.HasSpsr(s)
  }

  /** The program keeps the mode, so the SPSR has to name the mode in force. */
  predicate ModeIsRight(s: M.State, ins: Word) {
    CopiesSpsr(s, ins) ==> M.ReadSpsr(s) % 32 == s.mode
  }

  /** The arithmetic flags are the manual's: see Alu.FlagsRightIff. */
  predicate FlagsAreRight(op: Reg4, rn: Word, so: Word, c: bool) {
    Alu.IsLogical(op) || (Alu.CarryIsRight(op, rn, so, c) && Alu.OverflowIsRight(op, rn, so, c))
  }

  /** Where decode_so is wrong it yields this instead of rm: copies of the sign for ASR, zeros for LSR. */
  function Fill(ins: Word, rm: Word): (m: Word)
    ensures IsMask(m) && (m != 0 ==> rm >= 0x8000_0000)
  {
    if ShiftKind(ins) == 2 && rm >= 0x8000_0000 then 0xFFFF_FFFF else 0
  }

  /** The operation gives the same result with the fill as with rm. */
  predicate ResultSurvives(op: Reg4, rn: Word, rm: Word, fill: Word) {
    match op
    case 0 => AndWord(rn, rm) == if fill == 0 then 0 else rn
    case 12 => OrWord(rn, rm) == if fill == 0 then rn else 0xFFFF_FFFF
    case 14 => AndWord(rn, NotWord(rm)) == if fill == 0 then rn else 0
    case _ => rm == fill
  }

  predicate SameSignAndZero(a: Word, b: Word) {
    Alu.Negative(a) == Alu.Negative(b) && (a == 0 <==> b == 0)
  }

  /** CMP sets the same flags with the fill as the manual does with rm. */
  predicate CompareSurvives(rn: Word, rm: Word, fill: Word) {
    if fill == 0 then rm == 0 || rm < if Alu.Negative(rn) then rn - 0x7FFF_FFFF else rn
    else rm == 0xFFFF_FFFF || rm > if rn < 0x7FFF_FFFF then rn + 0x8000_0000 else rn
  }

  /** CMN sets the same flags with the fill as the manual does with rm; the program's V is in it. */
  predicate AddCompareSurvives(rn: Word, rm: Word, fill: Word) {
    if fill == 0 then rm == 0 || (rn != 0 && rn + rm < if Alu.Negative(rn) then 0x1_0000_0000 else 0x8000_0000)
    else if rn <= 1 then rn == 0 || rm == 0xFFFF_FFFF
    else if rn < 0x8000_0000 then rn + rm > 0x1_0000_0000
    else 0x8000_0000 < rn < 0xFFFF_FFFF && rn + rm >= 0x1_8000_0000
  }

  /** A test sets the same flags with the fill as the manual does with rm. */
  predicate TestSurvives(op: Reg4, rn: Word, rm: Word, fill: Word, c: bool) {
    match op
    case 8 => SameSignAndZero(AndWord(rn, rm), if fill == 0 then 0 else rn) && c == Alu.Negative(rm)
    case 9 => SameSignAndZero(XorWord(rn, rm), XorWord(rn, fill)) && c == Alu.Negative(rm)
    case 10 => CompareSurvives(rn, rm, fill)
    case _ => AddCompareSurvives(rn, rm, fill)
  }

  /** The exact condition, for an operand that decode_so gets right and for one that it gets wrong. */
  predicate InstructionIsRight(s: M.State, ins: Word) {
    var op, c := Opcode(ins), FlagC(M.ReadCpsr(s));
    var rn, rm := M.ReadReg(s, Rn(ins)), M.ReadReg(s, Rm(ins));
    if !Shifter.RightByZeroRegister(ins, M.ReadReg(s, Rs(ins))) then
      (SetsFlags(ins) ==> FlagsAreRight(op, rn, PrescribedOperand(s, ins).value, c)) && ModeIsRight(s, ins)
    else if Alu.IsTest(op) then
      TestSurvives(op, rn, rm, Fill(ins, rm), c)
    else
      && ResultSurvives(op, rn, rm, Fill(ins, rm))
      && (SetsFlags(ins) ==> if Alu.IsLogical(op) then c == Alu.Negative(rm) else FlagsAreRight(op, rn, rm, c))
      && ModeIsRight(s, ins)
  }

  // ---- The parts ------------------------------------------------------------------------------------------

  lemma OperandParts(s: M.State, ins: Word)
    ensures var rm := M.ReadReg(s, Rm(ins));
            if Shifter.RightByZeroRegister(ins, M.ReadReg(s, Rs(ins))) then
              && M.ShifterOperand(s, ins) == Shifter.Operand(Fill(ins, rm), Alu.Negative(rm))
              && PrescribedOperand(s, ins) == Shifter.Operand(rm, FlagC(M.ReadCpsr(s)))
            else M.ShifterOperand(s, ins) == PrescribedOperand(s, ins)
  {
    var rm, rs, c := M.ReadReg(s, Rm(ins)), M.ReadReg(s, Rs(ins)), FlagC(M.ReadCpsr(s));
    Shifter.DecodeSoIsPrescribedIff(ins, rm, rs, c);
    hide M.ReadReg, FlagC, Bit25, Bit4, ShiftKind, Rm, Rs;
  }

  lemma PackIsInjective(n: bool, z: bool, c: bool, v: bool, n1: bool, z1: bool, c1: bool, v1: bool, low: Low28)
    ensures Pack(n, z, c, v, low) == Pack(n1, z1, c1, v1, low) <==> n == n1 && z == z1 && c == c1 && v == v1
  {
    PartsCpsr(n, z, c, v, low);
    PartsCpsr(n1, z1, c1, v1, low);
  }

  /** With the same operands the two CPSRs agree exactly when C and V are right. */
  lemma CpsrsAgreeIff(op: Reg4, cpsr: Word, rn: Word, so: Word, carry: bool)
    ensures Alu.NewCpsr(op, cpsr, rn, so, carry) == PrescribedCpsr(op, cpsr, rn, so, carry) <==>
            FlagsAreRight(op, rn, so, FlagC(cpsr))
  {
    hide Alu.NewCpsr, Pack, Alu.Result, FlagC, FlagV, Alu.TrueC, Alu.TrueV, Alu.ProgramC, Alu.ProgramV,
         Alu.CarryIsRight, Alu.OverflowIsRight, Alu.TrueResult, Wrap;
    var c := FlagC(cpsr);
    var res := Alu.Result(op, rn, so, c);
    Alu.ResultIsTrue(op, rn, so, c);
    Alu.FlagsOfNewCpsr(op, cpsr, rn, so, carry);
    if !Alu.IsLogical(op) {
      Alu.CarryRightIff(op, rn, so, c);
      Alu.OverflowRightIff(op, rn, so, c);
      PackIsInjective(Alu.Negative(res), res == 0, Alu.ProgramC(op, rn, so, c), Alu.ProgramV(op, rn, so, c),
                      Alu.Negative(res), res == 0, Alu.TrueC(op, rn, so, c), Alu.TrueV(op, rn, so, c),
                      cpsr % 0x1000_0000);
    }
  }

  lemma CarryInCpsr(op: Reg4, cpsr: Word, rn: Word, so: Word, carry: bool, other: bool)
    ensures PrescribedCpsr(op, cpsr, rn, so, carry) == PrescribedCpsr(op, cpsr, rn, so, other) <==>
            !Alu.IsLogical(op) || carry == other
  {
    hide Alu.TrueResult, FlagV, Pack;
    if Alu.IsLogical(op) {
      var res := Alu.TrueResult(op, rn, so, FlagC(cpsr));
      PackIsInjective(Signed(res) < 0, res == 0, carry, FlagV(cpsr),
                      Signed(res) < 0, res == 0, other, FlagV(cpsr), cpsr % 0x1000_0000);
    }
  }

  lemma WriteCpsrIsInjective(s: M.State, a: Word, b: Word)
    ensures M.WriteCpsr(s, a) == M.WriteCpsr(s, b) <==> a == b
  {
    assert M.ReadCpsr(M.WriteCpsr(s, a)) == a && M.ReadCpsr(M.WriteCpsr(s, b)) == b;
  }

  // ---- Results with a wrong operand -------------------------------------------------------------------------

  lemma ArithmeticShowsOperand(op: Reg4, rn: Word, a: Word, b: Word, c: bool)
    requires !Alu.IsLogical(op)
    ensures Alu.Result(op, rn, a, c) == Alu.Result(op, rn, b, c) <==> a == b
  {
    hide Wrap, Alu.Result;
    Alu.ResultIsTrue(op, rn, a, c);
    Alu.ResultIsTrue(op, rn, b, c);
    WrapsApart(Alu.Exact(op, rn, a, c), Alu.Exact(op, rn, b, c));
  }

  lemma ResultSurvivesIff(op: Reg4, rn: Word, rm: Word, fill: Word, c: bool)
    requires !Alu.IsTest(op) && IsMask(fill)
    ensures Alu.Result(op, rn, fill, c) == Alu.Result(op, rn, rm, c) <==> ResultSurvives(op, rn, rm, fill)
  {
    hide AndWord, OrWord, XorWord, Wrap;
    if !Alu.IsLogical(op) {
      ArithmeticShowsOperand(op, rn, fill, rm, c);
    } else if op == 1 {
      XorShows(rn, fill, rm);
    } else if op == 12 {
      OrMask(rn, fill);
    } else {
      AndMask(rn, fill);
      AndMask(rn, NotWord(fill));
    }
  }

  // ---- Tests with a wrong operand -------------------------------------------------------------------------

  lemma CompareSurvivesIff(rn: Word, rm: Word, fill: Word, c: bool)
    requires IsMask(fill) && (fill != 0 ==> Alu.Negative(rm))
    ensures && SameSignAndZero(Wrap(rn - fill), Wrap(rn - rm))
            && Alu.ProgramC(10, rn, fill, c) == Alu.TrueC(10, rn, rm, c)
            && Alu.ProgramV(10, rn, fill, c) == Alu.TrueV(10, rn, rm, c)
            <==> CompareSurvives(rn, rm, fill)
  {
    Alu.SubOverflow(rn, fill);
  }

  lemma AddCompareSurvivesIff(rn: Word, rm: Word, fill: Word, c: bool)
    requires IsMask(fill) && (fill != 0 ==> Alu.Negative(rm))
    ensures && SameSignAndZero(Wrap(rn + fill), Wrap(rn + rm))
            && Alu.ProgramC(11, rn, fill, c) == Alu.TrueC(11, rn, rm, c)
            && Alu.ProgramV(11, rn, fill, c) == Alu.TrueV(11, rn, rm, c)
            <==> AddCompareSurvives(rn, rm, fill)
  {
    Alu.AddOverflowMeaning(rn, fill);
  }

  /** The four flags of a test, the program's from the fill and the manual's from rm. */
  lemma TestFlagsIff(op: Reg4, rn: Word, rm: Word, fill: Word, c: bool)
    requires Alu.IsTest(op) && IsMask(fill) && (fill != 0 ==> Alu.Negative(rm))
    ensures && SameSignAndZero(Alu.Result(op, rn, fill, c), Alu.Result(op, rn, rm, c))
            && (if Alu.IsLogical(op) then Alu.Negative(rm) == c
                else Alu.ProgramC(op, rn, fill, c) == Alu.TrueC(op, rn, rm, c)
                     && Alu.ProgramV(op, rn, fill, c) == Alu.TrueV(op, rn, rm, c))
            <==> TestSurvives(op, rn, rm, fill, c)
  {
    hide AndWord, XorWord, Wrap, SameSignAndZero, CompareSurvives, AddCompareSurvives, Alu.TrueV;
    if op == 8 {
      AndMask(rn, fill);
      SameSignIsSymmetric(AndWord(rn, fill), AndWord(rn, rm));
    } else if op == 9 {
      SameSignIsSymmetric(XorWord(rn, fill), XorWord(rn, rm));
    } else if op == 10 {
      CompareSurvivesIff(rn, rm, fill, c);
    } else {
      AddCompareSurvivesIff(rn, rm, fill, c);
    }
  }

  lemma SameSignIsSymmetric(a: Word, b: Word)
    ensures SameSignAndZero(a, b) == SameSignAndZero(b, a)
  {
  }

  lemma TestCpsrsAgreeIff(op: Reg4, cpsr: Word, rn: Word, rm: Word, fill: Word)
    requires Alu.IsTest(op) && IsMask(fill) && (fill != 0 ==> Alu.Negative(rm))
    ensures Alu.NewCpsr(op, cpsr, rn, fill, Alu.Negative(rm)) == PrescribedCpsr(op, cpsr, rn, rm, FlagC(cpsr)) <==>
            TestSurvives(op, rn, rm, fill, FlagC(cpsr))
  {
    hide Alu.NewCpsr, Pack, Alu.Result, FlagC, FlagV, Alu.TrueC, Alu.TrueV, Alu.ProgramC, Alu.ProgramV, TestSurvives,
         Alu.TrueResult;
    var c := FlagC(cpsr);
    var mine, right := Alu.Result(op, rn, fill, c), Alu.Result(op, rn, rm, c);
    Alu.ResultIsTrue(op, rn, rm, c);
    TestFlagsIff(op, rn, rm, fill, c);
    Alu.FlagsOfNewCpsr(op, cpsr, rn, fill, Alu.Negative(rm));
    PackIsInjective(Alu.Negative(mine), mine == 0,
                    if Alu.IsLogical(op) then Alu.Negative(rm) else Alu.ProgramC(op, rn, fill, c),
                    if Alu.IsLogical(op) then FlagV(cpsr) else Alu.ProgramV(op, rn, fill, c),
                    Alu.Negative(right), right == 0,
                    if Alu.IsLogical(op) then c else Alu.TrueC(op, rn, rm, c),
                    if Alu.IsLogical(op) then FlagV(cpsr) else Alu.TrueV(op, rn, rm, c), cpsr % 0x1000_0000);
  }

  // ---- The whole instruction ----------------------------------------------------------------------------------

  lemma ExecutesDataProcessing(s: M.State, ins: Word)
    requires IsDataProcessing(ins)
    ensures M.Execute(s, ins) == M.Outcome(M.Done(0), M.DataProcessing(s, ins))
  {
    hide M.DataProcessing;
    if Group(ins) == 0 && Bit24(ins) && !Bit23(ins) {
      OpcodeOfTest(ins);
    }
  }

  /** Bits 24 and 23 are the two high bits of the opcode. */
  lemma OpcodeOfTest(ins: Word)
    requires Bit24(ins) && !Bit23(ins)
    ensures Alu.IsTest(Opcode(ins))
  {
    var q := ins / 0x20_0000;
    assert ins / 0x100_0000 == q / 8 && ins / 0x80_0000 == q / 4;
    LowNibble(q);
  }

  lemma LowNibble(q: nat)
    requires (q / 8) % 2 == 1 && (q / 4) % 2 == 0
    ensures 8 <= q % 16 <= 11
  {
    var h, t := q / 4, q / 8 / 2;
    assert q / 8 == h / 2;
    assert h == 4 * t + 2;
    Arith.DivisionIsUnique(q, 16, t, 8 + q % 4);
  }

  /** The destination holds the result at the end, whatever is done to the CPSR and the mode. */
  lemma DestinationHoldsResult(s: M.State, ins: Word)
    requires !Alu.IsTest(Opcode(ins))
    ensures var op, rd, rn, c := Opcode(ins), Rd(ins), M.ReadReg(s, Rn(ins)), FlagC(M.ReadCpsr(s));
            && M.DataProcessing(s, ins).cells[M.CellFor(s.mode, rd)] ==
               Alu.Result(op, rn, M.ShifterOperand(s, ins).value, c)
            && Prescribed(s, ins).cells[M.CellFor(s.mode, rd)] ==
               Alu.TrueResult(op, rn, PrescribedOperand(s, ins).value, c)
  {
    hide M.ShifterOperand, PrescribedOperand, Alu.NewCpsr, PrescribedCpsr, Alu.Result, Alu.TrueResult,
         M.ReadReg, M.ReadCpsr, M.HasSpsr, M.ReadSpsr, FlagC, Opcode, Rd, Rn, Bit20;
  }

  /** What is left to compare once the results agree: the flags, or the mode. */
  lemma RestIsRightIff(s: M.State, ins: Word)
    requires var op, rn, c := Opcode(ins), M.ReadReg(s, Rn(ins)), FlagC(M.ReadCpsr(s));
             Alu.IsTest(op) ||
             Alu.Result(op, rn, M.ShifterOperand(s, ins).value, c) ==
             Alu.TrueResult(op, rn, PrescribedOperand(s, ins).value, c)
    ensures var op, cpsr, rn := Opcode(ins), M.ReadCpsr(s), M.ReadReg(s, Rn(ins));
            var mine, right := M.ShifterOperand(s, ins), PrescribedOperand(s, ins);
            M.DataProcessing(s, ins) == Prescribed(s, ins) <==>
              && (SetsFlags(ins) ==>
                    Alu.NewCpsr(op, cpsr, rn, mine.value, mine.carry) ==
                    PrescribedCpsr(op, cpsr, rn, right.value, right.carry))
              && ModeIsRight(s, ins)
  {
    hide M.ShifterOperand, PrescribedOperand, Alu.NewCpsr, PrescribedCpsr, Alu.Result, Alu.TrueResult,
         M.ReadReg, M.ReadCpsr, M.WriteCpsr, FlagC, Opcode, Rd, Rn, Bit20;
    var op, cpsr, rn := Opcode(ins), M.ReadCpsr(s), M.ReadReg(s, Rn(ins));
    var mine, right := M.ShifterOperand(s, ins), PrescribedOperand(s, ins);
    var program := Alu.NewCpsr(op, cpsr, rn, mine.value, mine.carry);
    var manual := PrescribedCpsr(op, cpsr, rn, right.value, right.carry);
    var t := M.WriteReg(s, Rd(ins), Alu.TrueResult(op, rn, right.value, FlagC(cpsr)));
    WriteCpsrIsInjective(s, program, manual);
    WriteCpsrIsInjective(t, program, manual);
    if CopiesSpsr(s, ins) { SpsrStays(s, Rd(ins), Alu.TrueResult(op, rn, right.value, FlagC(cpsr))); }
  }

  lemma SpsrStays(s: M.State, rd: Reg4, v: Word)
    requires M.HasSpsr(s)
    ensures var t := M.WriteReg(s, rd, v);
            M.HasSpsr(t) && M.ReadSpsr(t) == M.ReadSpsr(s) && M.WriteCpsr(t, M.ReadSpsr(t)).mode == s.mode
  {
  }

  /**
   * Every data-processing instruction of the manual, with any operand, in any state: the whole
   * state after it -- registers, flags, bits below the flags, SPSR copy, mode and memory -- is the
   * manual's exactly under the condition above.
   */
  lemma InstructionIsPrescribedIff(s: M.State, ins: Word)
    requires IsDataProcessing(ins)
    ensures M.Execute(s, ins) == M.Outcome(M.Done(0), Prescribed(s, ins)) <==> InstructionIsRight(s, ins)
  {
    hide M.Execute, M.DataProcessing, Prescribed, M.ShifterOperand, PrescribedOperand, Alu.NewCpsr, PrescribedCpsr,
         Alu.Result, Alu.TrueResult, M.ReadReg, M.ReadCpsr, FlagC, FlagsAreRight, ModeIsRight, TestSurvives,
         ResultSurvives, Fill, Opcode, Rd, Rn, Rm, Rs, Bit20, Shifter.RightByZeroRegister, IsDataProcessing;
    var op, cpsr, rn, rm := Opcode(ins), M.ReadCpsr(s), M.ReadReg(s, Rn(ins)), M.ReadReg(s, Rm(ins));
    var mine, right, c := M.ShifterOperand(s, ins), PrescribedOperand(s, ins), FlagC(cpsr);
    ExecutesDataProcessing(s, ins);
    OperandParts(s, ins);
    Alu.ResultIsTrue(op, rn, right.value, c);
    if mine == right {
      RestIsRightIff(s, ins);
      CpsrsAgreeIff(op, cpsr, rn, right.value, right.carry);
    }
    if Shifter.RightByZeroRegister(ins, M.ReadReg(s, Rs(ins))) {
      WrongOperandIsRightIff(s, ins);
    }
  }

  lemma WrongOperandIsRightIff(s: M.State, ins: Word)
    requires Shifter.RightByZeroRegister(ins, M.ReadReg(s, Rs(ins)))
    ensures M.DataProcessing(s, ins) == Prescribed(s, ins) <==> InstructionIsRight(s, ins)
  {
    hide M.DataProcessing, Prescribed, M.ShifterOperand, PrescribedOperand, Alu.NewCpsr, PrescribedCpsr,
         Alu.Result, Alu.TrueResult, M.ReadReg, M.ReadCpsr, FlagC, FlagsAreRight, TestSurvives,
         ResultSurvives, Fill, Opcode, Rd, Rn, Rm, Rs, Bit20, Shifter.RightByZeroRegister;
    var op, cpsr, rn, rm := Opcode(ins), M.ReadCpsr(s), M.ReadReg(s, Rn(ins)), M.ReadReg(s, Rm(ins));
    var fill, c := Fill(ins, rm), FlagC(cpsr);
    OperandParts(s, ins);
    if Alu.IsTest(op) {
      RestIsRightIff(s, ins);
      TestCpsrsAgreeIff(op, cpsr, rn, rm, fill);
    } else {
      Alu.ResultIsTrue(op, rn, rm, c);
      ResultSurvivesIff(op, rn, rm, fill, c);
      DestinationHoldsResult(s, ins);
      if ResultSurvives(op, rn, rm, fill) {
        RestIsRightIff(s, ins);
        SurvivingCpsrsAgreeIff(op, cpsr, rn, rm, fill, Alu.Negative(rm));
      }
    }
  }

  /** A surviving result comes with a surviving CPSR if the carry or the arithmetic flags are right. */
  lemma SurvivingCpsrsAgreeIff(op: Reg4, cpsr: Word, rn: Word, rm: Word, fill: Word, carry: bool)
    requires !Alu.IsTest(op) && IsMask(fill) && ResultSurvives(op, rn, rm, fill)
    ensures var c := FlagC(cpsr);
            Alu.NewCpsr(op, cpsr, rn, fill, carry) == PrescribedCpsr(op, cpsr, rn, rm, c) <==>
            if Alu.IsLogical(op) then c == carry else FlagsAreRight(op, rn, rm, c)
  {
    hide Alu.NewCpsr, Pack, Alu.Result, FlagC, FlagV, Alu.TrueC, Alu.TrueV, Alu.ProgramC, Alu.ProgramV,
         Alu.CarryIsRight, Alu.OverflowIsRight, AndWord, OrWord, NotWord;
    var c := FlagC(cpsr);
    if Alu.IsLogical(op) {
      ResultSurvivesIff(op, rn, rm, fill, c);
      hide ResultSurvives, Alu.TrueResult;
      Alu.ResultIsTrue(op, rn, rm, c);
      Alu.FlagsOfNewCpsr(op, cpsr, rn, fill, carry);
      var res := Alu.Result(op, rn, rm, c);
      PackIsInjective(Alu.Negative(res), res == 0, carry, FlagV(cpsr),
                      Alu.Negative(res), res == 0, c, FlagV(cpsr), cpsr % 0x1000_0000);
    } else {
      hide PrescribedCpsr, Alu.TrueResult;
      CpsrsAgreeIff(op, cpsr, rn, rm, carry);
      CarryInCpsr(op, cpsr, rn, rm, carry, c);
    }
  }

  // ---- Inputs on which it fails -----------------------------------------------------------------------------

  /** movs pc, lr in SVC with an SPSR of another mode: the CPSR changes and the mode in force does not. */
  const MOVS_PC_LR: Word := 0xE1B0_F00E

  lemma ReturnKeepsMode(s: M.State)
    requires s.mode == SVC && M.ReadSpsr(s) % 32 != SVC
    ensures IsDataProcessing(MOVS_PC_LR)
    ensures M.Execute(s, MOVS_PC_LR) != M.Outcome(M.Done(0), Prescribed(s, MOVS_PC_LR))
    ensures M.Execute(s, MOVS_PC_LR).s.mode == SVC && Prescribed(s, MOVS_PC_LR).mode == M.ReadSpsr(s) % 32
  {
    var ins := MOVS_PC_LR;
    assert Group(ins) == 0 && !Bit7(ins) && !Bit4(ins) && Opcode(ins) == 13 && Bit20(ins) && Rd(ins) == 15;
    hide Group, Bit7, Bit4, Opcode, Bit20, Rd, M.Execute, M.ShifterOperand, PrescribedOperand, Alu.Result,
         Alu.TrueResult, M.ReadReg, FlagC, Alu.NewCpsr, PrescribedCpsr;
    ExecutesDataProcessing(s, ins);
    SpsrStays(s, 15, Alu.TrueResult(13, M.ReadReg(s, Rn(ins)), PrescribedOperand(s, ins).value, FlagC(M.ReadCpsr(s))));
  }
}
