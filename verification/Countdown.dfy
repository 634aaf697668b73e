/**
 * Examples/example1.s, as the machine code the simulator fetches and decodes: a subroutine that
 * decrements r0, called until r0 reaches zero.
 */
module Countdown {
  import opened Words
  import opened Banking
  import opened Memory
  import opened Instruction
  import opened Machine
  import Alu
  import Shifter
  import Single

  // ---- The program -----------------------------------------------------------------------------------

  const SUBS_R0_R0_1: Word := 0xE250_0001
  const MOV_PC_LR: Word := 0xE1A0_F00E
  const MOV_R0_5: Word := 0xE3A0_0005
  const BL_DECR: Word := 0xEBFF_FFFB
  const BNE_LOOP: Word := 0x1AFF_FFFD
  const SWI_EXIT: Word := 0xEF12_3456

  /** The four bytes at a are those of an instruction word, in the memory's byte order. */
  predicate HasWord(ram: Ram, big: bool, a: nat, w: Word)
    requires a + 4 <= |ram|
  {
    (ram[a], ram[a + 1], ram[a + 2], ram[a + 3]) == HostBytes(big, w)
  }

  /** The program lies at a word address b: decr at b, main at b+8, loop at b+12, end at b+20. */
  predicate Loaded(ram: Ram, big: bool, b: nat) {
    && b % 4 == 0 && b + 24 <= |ram| && b + 28 < 0x1_0000_0000
    && HasWord(ram, big, b, SUBS_R0_R0_1)
    && HasWord(ram, big, b + 4, MOV_PC_LR)
    && HasWord(ram, big, b + 8, MOV_R0_5)
    && HasWord(ram, big, b + 12, BL_DECR)
    && HasWord(ram, big, b + 16, BNE_LOOP)
    && HasWord(ram, big, b + 20, SWI_EXIT)
  }

  // ---- The registers the program uses -------------------------------------------------------------------

  function R0(s: State): Word { s.cells[0] }
  function Lr(s: State): Word { s.cells[CellFor(s.mode, 14)] }
  function PcOf(s: State): Word { s.cells[30] }
  function Flags(s: State): Word { s.cells[31] }

  /** The state with new values in r0, the current mode's r14, the CPSR and the PC, and n more cycles. */
  function With(s: State, r0: Word, lr: Word, cpsr: Word, pc: Word, n: nat): State {
    s.(cells := s.cells[0 := r0][CellFor(s.mode, 14) := lr][31 := cpsr][30 := pc], cycles := Wrap(s.cycles + n))
  }

  lemma CellsOfProgram(mode: Byte)
    ensures CellFor(mode, 0) == 0 && CellFor(mode, 15) == 30 && CellFor(mode, 16) == 31
    ensures CellFor(mode, 14) != 0 && CellFor(mode, 14) != 30 && CellFor(mode, 14) != 31
  {
  }

  lemma WithItself(s: State)
    ensures With(s, R0(s), Lr(s), Flags(s), PcOf(s), 0) == s
  {
    assert s.cells[0 := R0(s)][CellFor(s.mode, 14) := Lr(s)][31 := Flags(s)][30 := PcOf(s)] == s.cells;
  }

  lemma WithShows(s: State, r0: Word, lr: Word, cpsr: Word, pc: Word, n: nat)
    ensures var t := With(s, r0, lr, cpsr, pc, n);
            && R0(t) == r0 && Lr(t) == lr && Flags(t) == cpsr && PcOf(t) == pc
            && t.ram == s.ram && t.big == s.big && t.mode == s.mode
  {
    CellsOfProgram(s.mode);
  }

  /** Changing again replaces the earlier change. */
  lemma WithAgain(s: State, r0: Word, lr: Word, cpsr: Word, pc: Word, n: nat, r1: Word, lr1: Word, cpsr1: Word, pc1: Word, n1: nat)
    ensures With(With(s, r0, lr, cpsr, pc, n), r1, lr1, cpsr1, pc1, n1) == With(s, r1, lr1, cpsr1, pc1, n + n1)
  {
    CellsOfProgram(s.mode);
    var k := CellFor(s.mode, 14);
    assert s.cells[0 := r0][k := lr][31 := cpsr][30 := pc][0 := r1][k := lr1][31 := cpsr1][30 := pc1] ==
           s.cells[0 := r1][k := lr1][31 := cpsr1][30 := pc1];
  }

  // ---- One instruction at a time -----------------------------------------------------------------------------

  /** Fetching at a word address leaves the PC four bytes further and the instruction's view of it at eight. */
  lemma FetchAt(s: State, a: nat)
    requires PcOf(s) == a && a % 4 == 0 && a + 8 < 0x1_0000_0000
    ensures FetchAddress(s) == a && Fetched(s) == With(s, R0(s), Lr(s), Flags(s), a + 4, 1)
    ensures ReadReg(Fetched(s), 15) == a + 8
  {
    hide PcRead;
    Single.PcReadAligned(a);
    Single.PcReadAligned(a + 4);
    CellsOfProgram(s.mode);
    assert s.cells == s.cells[0 := R0(s)][CellFor(s.mode, 14) := Lr(s)][31 := Flags(s)];
  }

  /** A step whose instruction is known: fetch, and execute if the condition passes. */
  lemma StepIs(s: State, a: nat, ins: Word)
    requires PcOf(s) == a && a % 4 == 0 && a + 8 < 0x1_0000_0000
    requires a + 4 <= |s.ram| && HasWord(s.ram, s.big, a, ins)
    ensures ReadReg(Fetched(s), 15) == a + 8
    ensures Fetched(s) == With(s, R0(s), Lr(s), Flags(s), a + 4, 1)
    ensures Step(s) == if ConditionPassed(Flags(s), Cond(ins)) then Execute(Fetched(s), ins) else Outcome(Done(0), Fetched(s))
  {
    hide Execute;
    WordBytesRoundTrip(s.big, ins);
    assert LoadWord(s.ram, s.big, a) == Some(ins);
    hide WordAt, HostBytes, HostWord;
    FetchAt(s, a);
    StepNeverResets(s);
    CellsOfProgram(s.mode);
    WithShows(s, R0(s), Lr(s), Flags(s), a + 4, 1);
  }

  /** The CPSR after subtracting 1 from rn: all four flags, and the 28 bits below them kept. */
  function AfterSubs(cpsr: Word, rn: Word): Word {
    Pack(rn == 0 || rn > 0x8000_0000, rn == 1, rn >= 1, rn == 0x8000_0000, cpsr % 0x1000_0000)
  }

  lemma SubsFlags(cpsr: Word, rn: Word, carry: bool)
    ensures Alu.NewCpsr(2, cpsr, rn, 1, carry) == AfterSubs(cpsr, rn)
  {
    hide Alu.NewCpsr, Pack, FlagC, FlagV;
    Alu.FlagsOfNewCpsr(2, cpsr, rn, 1, carry);
  }

  lemma AfterSubsZ(cpsr: Word, rn: Word)
    ensures FlagZ(AfterSubs(cpsr, rn)) <==> rn == 1
    ensures AfterSubs(cpsr, rn) % 0x1000_0000 == cpsr % 0x1000_0000
  {
    PartsCpsr(rn == 0 || rn > 0x8000_0000, rn == 1, rn >= 1, rn == 0x8000_0000, cpsr % 0x1000_0000);
  }

  /** A branch at a: r14 takes the next address if bit 24 is set, the PC the target. */
  lemma ExecuteBranch(t: State, ins: Word, a: nat)
    requires Group(ins) == 5 && PcOf(t) == a + 4 && ReadReg(t, 15) == a + 8 && a + 8 < 0x1_0000_0000
    ensures Execute(t, ins) ==
            Outcome(Done(0), With(t, R0(t), if Bit24(ins) then a + 4 else Lr(t), Flags(t),
                                  Wrap(a + 8 + BranchOffset(ins)), 0))
  {
    hide PcRead, BranchOffset, Bit24;
    CellsOfProgram(t.mode);
    var u := Linked(t, ins);
    assert ReadReg(u, 15) == a + 8;
    assert Branch(t, ins).cells ==
           With(t, R0(t), if Bit24(ins) then a + 4 else Lr(t), Flags(t), Wrap(a + 8 + BranchOffset(ins)), 0).cells;
  }

  lemma BranchFields()
    ensures Group(BL_DECR) == 5 && Bit24(BL_DECR) && BranchOffset(BL_DECR) == 0xFFFF_FFEC
    ensures Group(BNE_LOOP) == 5 && !Bit24(BNE_LOOP) && BranchOffset(BNE_LOOP) == 0xFFFF_FFF4
  {
  }

  lemma ExecuteBl(t: State, a: nat)
    requires PcOf(t) == a + 4 && ReadReg(t, 15) == a + 8 && a % 4 == 0 && 12 <= a && a + 8 < 0x1_0000_0000
    ensures Execute(t, BL_DECR) == Outcome(Done(0), With(t, R0(t), a + 4, Flags(t), a - 12, 0))
  {
    hide Execute, Group, Bit24, BranchOffset, With, ReadReg;
    BranchFields();
    ExecuteBranch(t, BL_DECR, a);
  }

  lemma ExecuteBne(t: State, a: nat)
    requires PcOf(t) == a + 4 && ReadReg(t, 15) == a + 8 && a % 4 == 0 && 4 <= a && a + 8 < 0x1_0000_0000
    ensures Execute(t, BNE_LOOP) == Outcome(Done(0), With(t, R0(t), Lr(t), Flags(t), a - 4, 0))
  {
    hide Execute, Group, Bit24, BranchOffset, With, ReadReg;
    BranchFields();
    ExecuteBranch(t, BNE_LOOP, a);
  }

  /** Group 1, and group 0 outside its special cases, is data processing. */
  lemma ExecuteDataProcessing(t: State, ins: Word)
    requires Group(ins) == 1 || (Group(ins) == 0 && !Bit4(ins) && Bit23(ins))
    ensures Execute(t, ins) == Outcome(Done(0), DataProcessing(t, ins))
  {
    hide DataProcessing;
  }

  /** An immediate without rotation is itself. */
  lemma PlainImmediate(t: State, ins: Word)
    requires Bit25(ins) && Rs(ins) == 0
    ensures ShifterOperand(t, ins).value == Imm8(ins)
  {
    Shifter.RorIsRotation(Imm8(ins), 0);
    Shifter.WholeRotation(Imm8(ins));
  }

  lemma OperateSubs(t: State, carry: bool)
    ensures Operate(t, 2, 0, R0(t), 1, carry, true) ==
            With(t, Wrap(R0(t) - 1), Lr(t), AfterSubs(Flags(t), R0(t)), PcOf(t), 0)
  {
    CellsOfProgram(t.mode);
    SubsFlags(Flags(t), R0(t), carry);
    assert Operate(t, 2, 0, R0(t), 1, carry, true).cells ==
           With(t, Wrap(R0(t) - 1), Lr(t), AfterSubs(Flags(t), R0(t)), PcOf(t), 0).cells;
  }

  lemma OperateMov(t: State, rd: Reg4, rn: Word, so: Word, carry: bool)
    requires rd == 0 || rd == 15
    ensures Operate(t, 13, rd, rn, so, carry, false) ==
            With(t, if rd == 0 then so else R0(t), Lr(t), Flags(t), if rd == 15 then so else PcOf(t), 0)
  {
    CellsOfProgram(t.mode);
    assert Operate(t, 13, rd, rn, so, carry, false).cells ==
           With(t, if rd == 0 then so else R0(t), Lr(t), Flags(t), if rd == 15 then so else PcOf(t), 0).cells;
  }

  /** The fields of the three data-processing instructions. */
  lemma SubsFields()
    ensures var ins := SUBS_R0_R0_1;
            && Group(ins) == 1 && Opcode(ins) == 2 && Rd(ins) == 0 && Rn(ins) == 0
            && Bit20(ins) && Bit25(ins) && Rs(ins) == 0 && Imm8(ins) == 1
  {
  }

  lemma MovFields()
    ensures var ins := MOV_R0_5;
            && Group(ins) == 1 && Opcode(ins) == 13 && Rd(ins) == 0
            && !Bit20(ins) && Bit25(ins) && Rs(ins) == 0 && Imm8(ins) == 5
  {
  }

  lemma ReturnFields()
    ensures var ins := MOV_PC_LR;
            && Group(ins) == 0 && Opcode(ins) == 13 && Rd(ins) == 15 && Rm(ins) == 14
            && !Bit4(ins) && Bit23(ins) && !Bit20(ins) && !Bit25(ins) && ShiftKind(ins) == 0 && ShiftImm(ins) == 0
  {
  }

  /** Without shift the operand is the register. */
  lemma PlainRegister(t: State, ins: Word)
    requires !Bit25(ins) && !Bit4(ins) && ShiftKind(ins) == 0 && ShiftImm(ins) == 0
    ensures ShifterOperand(t, ins).value == ReadReg(t, Rm(ins))
  {
    hide ReadReg, Bit25, Bit4, ShiftKind, ShiftImm;
  }

  lemma ExecuteSubs(t: State)
    ensures Execute(t, SUBS_R0_R0_1) ==
            Outcome(Done(0), With(t, Wrap(R0(t) - 1), Lr(t), AfterSubs(Flags(t), R0(t)), PcOf(t), 0))
  {
    hide Execute, Operate, ShifterOperand, With, AfterSubs;
    hide Group, Opcode, Rd, Rn, Bit20, Bit25, Rs, Imm8;
    var ins := SUBS_R0_R0_1;
    SubsFields();
    ExecuteDataProcessing(t, ins);
    PlainImmediate(t, ins);
    CellsOfProgram(t.mode);
    OperateSubs(t, ShifterOperand(t, ins).carry);
  }

  lemma ExecuteMov(t: State)
    ensures Execute(t, MOV_R0_5) == Outcome(Done(0), With(t, 5, Lr(t), Flags(t), PcOf(t), 0))
  {
    hide Execute, Operate, ShifterOperand, With, ReadReg;
    hide Group, Opcode, Rd, Rn, Bit20, Bit25, Rs, Imm8;
    var ins := MOV_R0_5;
    MovFields();
    ExecuteDataProcessing(t, ins);
    PlainImmediate(t, ins);
    OperateMov(t, 0, ReadReg(t, Rn(ins)), 5, ShifterOperand(t, ins).carry);
  }

  lemma ExecuteReturn(t: State)
    ensures Execute(t, MOV_PC_LR) == Outcome(Done(0), With(t, R0(t), Lr(t), Flags(t), Lr(t), 0))
  {
    hide Execute, Operate, ShifterOperand, With;
    hide Group, Opcode, Rd, Rn, Rm, Bit4, Bit20, Bit23, Bit25, ShiftKind, ShiftImm;
    var ins := MOV_PC_LR;
    ReturnFields();
    ExecuteDataProcessing(t, ins);
    PlainRegister(t, ins);
    assert ReadReg(t, 14) == Lr(t);
    OperateMov(t, 15, ReadReg(t, Rn(ins)), Lr(t), ShifterOperand(t, ins).carry);
  }

  lemma ExecuteSwi(t: State)
    ensures Execute(t, SWI_EXIT) == Outcome(Exit, t)
  {
    assert Group(SWI_EXIT) == 7 && Bit24(SWI_EXIT) && Imm24(SWI_EXIT) == 0x12_3456;
  }

  /** The two conditions the program uses: always, and Z clear. */
  lemma ConditionsUsed(cpsr: Word)
    ensures ConditionPassed(cpsr, 14) && (ConditionPassed(cpsr, 1) <==> !FlagZ(cpsr))
  {
  }

  // ---- Each instruction of the program, from any values of the registers it uses ---------------------------------

  /** bl decr: r14 takes the address of bne, the PC that of decr. */
  lemma StepBl(s: State, b: nat, r0: Word, lr: Word, cpsr: Word, n: nat)
    requires Loaded(s.ram, s.big, b)
    ensures Step(With(s, r0, lr, cpsr, b + 12, n)) == Outcome(Done(0), With(s, r0, b + 16, cpsr, b, n + 1))
  {
    hide Execute, Step, With, Fetched, ReadReg, FlagZ, ConditionPassed, HasWord;
    var t := With(s, r0, lr, cpsr, b + 12, n);
    WithShows(s, r0, lr, cpsr, b + 12, n);
    StepIs(t, b + 12, BL_DECR);
    WithShows(t, r0, lr, cpsr, b + 16, 1);
    assert Cond(BL_DECR) == 14;
    ConditionsUsed(cpsr);
    ExecuteBl(Fetched(t), b + 12);
    WithAgain(t, r0, lr, cpsr, b + 16, 1, r0, b + 16, cpsr, b, 0);
    WithAgain(s, r0, lr, cpsr, b + 12, n, r0, b + 16, cpsr, b, 1);
  }

  /** subs r0, r0, #1 */
  lemma StepSubs(s: State, b: nat, r0: Word, lr: Word, cpsr: Word, n: nat)
    requires Loaded(s.ram, s.big, b)
    ensures Step(With(s, r0, lr, cpsr, b, n)) ==
            Outcome(Done(0), With(s, Wrap(r0 - 1), lr, AfterSubs(cpsr, r0), b + 4, n + 1))
  {
    hide Execute, Step, With, Fetched, ReadReg, FlagZ, ConditionPassed, HasWord, AfterSubs;
    var t := With(s, r0, lr, cpsr, b, n);
    WithShows(s, r0, lr, cpsr, b, n);
    StepIs(t, b, SUBS_R0_R0_1);
    WithShows(t, r0, lr, cpsr, b + 4, 1);
    assert Cond(SUBS_R0_R0_1) == 14;
    ConditionsUsed(cpsr);
    ExecuteSubs(Fetched(t));
    WithAgain(t, r0, lr, cpsr, b + 4, 1, Wrap(r0 - 1), lr, AfterSubs(cpsr, r0), b + 4, 0);
    WithAgain(s, r0, lr, cpsr, b, n, Wrap(r0 - 1), lr, AfterSubs(cpsr, r0), b + 4, 1);
  }

  /** mov pc, lr leaves the flags alone, so that bne can use those of subs. */
  lemma StepReturn(s: State, b: nat, r0: Word, lr: Word, cpsr: Word, n: nat)
    requires Loaded(s.ram, s.big, b)
    ensures Step(With(s, r0, lr, cpsr, b + 4, n)) == Outcome(Done(0), With(s, r0, lr, cpsr, lr, n + 1))
  {
    hide Execute, Step, With, Fetched, ReadReg, FlagZ, ConditionPassed, HasWord;
    var t := With(s, r0, lr, cpsr, b + 4, n);
    WithShows(s, r0, lr, cpsr, b + 4, n);
    StepIs(t, b + 4, MOV_PC_LR);
    WithShows(t, r0, lr, cpsr, b + 8, 1);
    assert Cond(MOV_PC_LR) == 14;
    ConditionsUsed(cpsr);
    ExecuteReturn(Fetched(t));
    WithAgain(t, r0, lr, cpsr, b + 8, 1, r0, lr, cpsr, lr, 0);
    WithAgain(s, r0, lr, cpsr, b + 4, n, r0, lr, cpsr, lr, 1);
  }

  /** bne loop: back to bl while Z is clear. */
  lemma StepBne(s: State, b: nat, r0: Word, lr: Word, cpsr: Word, n: nat)
    requires Loaded(s.ram, s.big, b)
    ensures Step(With(s, r0, lr, cpsr, b + 16, n)) ==
            Outcome(Done(0), With(s, r0, lr, cpsr, if FlagZ(cpsr) then b + 20 else b + 12, n + 1))
  {
    hide Execute, Step, With, Fetched, ReadReg, FlagZ, ConditionPassed, HasWord;
    var t := With(s, r0, lr, cpsr, b + 16, n);
    WithShows(s, r0, lr, cpsr, b + 16, n);
    StepIs(t, b + 16, BNE_LOOP);
    WithShows(t, r0, lr, cpsr, b + 20, 1);
    assert Cond(BNE_LOOP) == 1;
    ConditionsUsed(cpsr);
    if FlagZ(cpsr) {
      WithAgain(s, r0, lr, cpsr, b + 16, n, r0, lr, cpsr, b + 20, 1);
    } else {
      ExecuteBne(Fetched(t), b + 16);
      WithAgain(t, r0, lr, cpsr, b + 20, 1, r0, lr, cpsr, b + 12, 0);
      WithAgain(s, r0, lr, cpsr, b + 16, n, r0, lr, cpsr, b + 12, 1);
    }
  }

  /** mov r0, #5 */
  lemma StepMov(s: State, b: nat, r0: Word, lr: Word, cpsr: Word, n: nat)
    requires Loaded(s.ram, s.big, b)
    ensures Step(With(s, r0, lr, cpsr, b + 8, n)) == Outcome(Done(0), With(s, 5, lr, cpsr, b + 12, n + 1))
  {
    hide Execute, Step, With, Fetched, ReadReg, FlagZ, ConditionPassed, HasWord;
    var t := With(s, r0, lr, cpsr, b + 8, n);
    WithShows(s, r0, lr, cpsr, b + 8, n);
    StepIs(t, b + 8, MOV_R0_5);
    WithShows(t, r0, lr, cpsr, b + 12, 1);
    assert Cond(MOV_R0_5) == 14;
    ConditionsUsed(cpsr);
    ExecuteMov(Fetched(t));
    WithAgain(t, r0, lr, cpsr, b + 12, 1, 5, lr, cpsr, b + 12, 0);
    WithAgain(s, r0, lr, cpsr, b + 8, n, 5, lr, cpsr, b + 12, 1);
  }

  /** swi 0x123456 leaves the simulator. */
  lemma StepSwi(s: State, b: nat, r0: Word, lr: Word, cpsr: Word, n: nat)
    requires Loaded(s.ram, s.big, b)
    ensures Step(With(s, r0, lr, cpsr, b + 20, n)).status == Exit
  {
    hide Execute, Step, With, Fetched, ReadReg, FlagZ, ConditionPassed, HasWord;
    var t := With(s, r0, lr, cpsr, b + 20, n);
    WithShows(s, r0, lr, cpsr, b + 20, n);
    StepIs(t, b + 20, SWI_EXIT);
    assert Cond(SWI_EXIT) == 14;
    ConditionsUsed(cpsr);
    ExecuteSwi(Fetched(t));
  }

  // ---- Runs -------------------------------------------------------------------------------------------------

  /** n steps, or fewer if one of them does not return normally. */
  function Steps(s: State, n: nat): Outcome {
    if n == 0 then Outcome(Done(0), s)
    else
      var o := Steps(s, n - 1);
      if o.status == Done(0) then Step(o.s) else o
  }

  lemma {:induction false} StepsCompose(s: State, m: nat, n: nat)
    requires Steps(s, m).status == Done(0)
    ensures Steps(s, m + n) == Steps(Steps(s, m).s, n)
    decreases n
  {
    hide Step;
    if n > 0 { StepsCompose(s, m, n - 1); }
  }

  lemma FourSteps(s: State, s1: State, s2: State, s3: State)
    requires Step(s) == Outcome(Done(0), s1) && Step(s1) == Outcome(Done(0), s2) && Step(s2) == Outcome(Done(0), s3)
    ensures Steps(s, 4) == Step(s3)
  {
    hide Step;
    assert Steps(s, 0) == Outcome(Done(0), s);
    assert Steps(s, 1) == Step(s);
    assert Steps(s, 2) == Step(s1);
    assert Steps(s, 3) == Step(s2);
  }

  /** Where the PC is after an iteration that started with r0: past the loop after the decrement of 1. */
  function NextPc(b: nat, r0: Word): Word
    requires b + 24 < 0x1_0000_0000
  {
    if r0 == 1 then b + 20 else b + 12
  }

  /** One iteration of the loop is four steps. */
  lemma OneIteration(s: State, b: nat, r0: Word, lr: Word, cpsr: Word, n: nat)
    requires Loaded(s.ram, s.big, b)
    ensures Steps(With(s, r0, lr, cpsr, b + 12, n), 4) ==
            Outcome(Done(0), With(s, Wrap(r0 - 1), b + 16, AfterSubs(cpsr, r0), NextPc(b, r0), n + 4))
  {
    hide Step, With, AfterSubs, Loaded, FlagZ, Steps;
    var r1, cpsr1 := Wrap(r0 - 1), AfterSubs(cpsr, r0);
    assert b + 24 < 0x1_0000_0000 by { LoadedFits(s.ram, s.big, b); }
    StepBl(s, b, r0, lr, cpsr, n);
    StepSubs(s, b, r0, b + 16, cpsr, n + 1);
    StepReturn(s, b, r1, b + 16, cpsr1, n + 2);
    StepBne(s, b, r1, b + 16, cpsr1, n + 3);
    AfterSubsZ(cpsr, r0);
    FourSteps(With(s, r0, lr, cpsr, b + 12, n), With(s, r0, b + 16, cpsr, b, n + 1),
              With(s, r1, b + 16, cpsr1, b + 4, n + 2), With(s, r1, b + 16, cpsr1, b + 16, n + 3));
  }

  lemma LoadedFits(ram: Ram, big: bool, b: nat)
    requires Loaded(ram, big, b)
    ensures b + 24 < 0x1_0000_0000
  {
  }

  /** The number of iterations from n: n itself, and 2^32 from zero. */
  function Iterations(n: Word): nat {
    if n == 0 then 0x1_0000_0000 else n
  }

  /** The CPSR does not depend on the flags that were there before. */
  lemma FlagsForget(cpsr: Word, was: Word, rn: Word)
    ensures AfterSubs(AfterSubs(cpsr, was), rn) == AfterSubs(cpsr, rn)
  {
    AfterSubsZ(cpsr, was);
  }

  /** Counting down from n in 32 bits meets 1 before the last iteration and not sooner. */
  lemma CountsDown(n: Word, m: nat)
    requires 1 <= m <= Iterations(n)
    ensures Wrap(Wrap(n - (m - 1)) - 1) == Wrap(n - m)
    ensures Wrap(n - (m - 1)) == 1 <==> m == Iterations(n)
  {
  }

  /** The state after m iterations that started at loop with r0 = r: the flags are the last subtraction's. */
  function AfterIterations(s: State, b: nat, r: Word, cpsr: Word, c: nat, m: nat): State
    requires 1 <= m && b + 24 < 0x1_0000_0000
  {
    With(s, Wrap(r - m), b + 16, AfterSubs(cpsr, Wrap(r - (m - 1))), if m == Iterations(r) then b + 20 else b + 12, c + 4 * m)
  }

  /** Every iteration up to the last, exactly. */
  lemma {:induction false} LoopUnrolls(s: State, b: nat, r: Word, lr: Word, cpsr: Word, c: nat, m: nat)
    requires Loaded(s.ram, s.big, b) && b + 24 < 0x1_0000_0000 && 1 <= m <= Iterations(r)
    ensures Steps(With(s, r, lr, cpsr, b + 12, c), 4 * m) == Outcome(Done(0), AfterIterations(s, b, r, cpsr, c, m))
    decreases m
  {
    hide Step, With, AfterSubs, Loaded, Steps;
    var rn := Wrap(r - (m - 1));
    CountsDown(r, m);
    if m == 1 {
      assert rn == r;
      OneIteration(s, b, r, lr, cpsr, c);
    } else {
      LoopUnrolls(s, b, r, lr, cpsr, c, m - 1);
      var was := Wrap(r - (m - 2));
      StepsCompose(With(s, r, lr, cpsr, b + 12, c), 4 * (m - 1), 4);
      OneIteration(s, b, rn, b + 16, AfterSubs(cpsr, was), c + 4 * (m - 1));
      FlagsForget(cpsr, was, rn);
    }
  }

  /**
   * The countdown: from loop, in any mode and with any r0 = r and any other contents, the machine
   * reaches end after exactly r iterations of four instructions (2^32 if r is 0). Then r0 is 0,
   * the flags are those of 1 - 1, and nothing has changed but r0, the current mode's r14, the
   * CPSR's flags, the PC and the cycle count. The next step leaves the simulator.
   */
  lemma CountdownReachesEnd(s: State, b: nat)
    requires Loaded(s.ram, s.big, b) && PcOf(s) == b + 12
    ensures var k := Iterations(R0(s));
            && Steps(s, 4 * k) ==
                 Outcome(Done(0), With(s, 0, b + 16, Pack(false, true, true, false, Flags(s) % 0x1000_0000), b + 20, 4 * k))
            && Steps(s, 4 * k + 1).status == Exit
  {
    hide Step, With, Loaded;
    var r, lr, cpsr := R0(s), Lr(s), Flags(s);
    var k := Iterations(r);
    LoadedFits(s.ram, s.big, b);
    WithItself(s);
    LoopUnrolls(s, b, r, lr, cpsr, 0, k);
    CountsDown(r, k);
    assert Wrap(r - k) == 0;
    StepSwi(s, b, 0, b + 16, AfterSubs(cpsr, 1), 4 * k);
    assert Steps(s, 4 * k + 1) == Step(Steps(s, 4 * k).s);
  }

  /** Inside an iteration the PC goes from bl to subs, mov and bne. */
  lemma InsideIteration(s: State, b: nat, r0: Word, lr: Word, cpsr: Word, c: nat, q: nat)
    requires Loaded(s.ram, s.big, b) && q < 4
    ensures var o := Steps(With(s, r0, lr, cpsr, b + 12, c), q);
            o.status == Done(0) && PcOf(o.s) == if q == 0 then b + 12 else b + 4 * (if q == 3 then 4 else q - 1)
  {
    hide Step, With, AfterSubs, Loaded, Steps;
    LoadedFits(s.ram, s.big, b);
    var start := With(s, r0, lr, cpsr, b + 12, c);
    var r1, cpsr1 := Wrap(r0 - 1), AfterSubs(cpsr, r0);
    StepBl(s, b, r0, lr, cpsr, c);
    StepSubs(s, b, r0, b + 16, cpsr, c + 1);
    StepReturn(s, b, r1, b + 16, cpsr1, c + 2);
    FirstSteps(start, With(s, r0, b + 16, cpsr, b, c + 1), With(s, r1, b + 16, cpsr1, b + 4, c + 2));
    WithShows(s, r0, lr, cpsr, b + 12, c);
    WithShows(s, r0, b + 16, cpsr, b, c + 1);
    WithShows(s, r1, b + 16, cpsr1, b + 4, c + 2);
    WithShows(s, r1, b + 16, cpsr1, b + 16, c + 3);
  }

  lemma FirstSteps(s: State, s1: State, s2: State)
    requires Step(s) == Outcome(Done(0), s1) && Step(s1) == Outcome(Done(0), s2)
    ensures Steps(s, 0) == Outcome(Done(0), s) && Steps(s, 1) == Outcome(Done(0), s1)
    ensures Steps(s, 2) == Outcome(Done(0), s2) && Steps(s, 3) == Step(s2)
  {
    hide Step;
    assert Steps(s, 0) == Outcome(Done(0), s);
    assert Steps(s, 1) == Step(s);
    assert Steps(s, 2) == Step(s1);
  }

  /** The state of the loop after every smaller number of iterations. */
  lemma LoopState(s: State, b: nat, m: nat) returns (lr: Word, cpsr: Word)
    requires Loaded(s.ram, s.big, b) && PcOf(s) == b + 12 && m < Iterations(R0(s)) && b + 24 < 0x1_0000_0000
    ensures Steps(s, 4 * m) == Outcome(Done(0), With(s, Wrap(R0(s) - m), lr, cpsr, b + 12, 4 * m))
  {
    hide Step, With, Loaded, AfterSubs;
    var r := R0(s);
    WithItself(s);
    if m == 0 {
      lr, cpsr := Lr(s), Flags(s);
    } else {
      lr, cpsr := b + 16, AfterSubs(Flags(s), Wrap(r - (m - 1)));
      LoopUnrolls(s, b, r, Lr(s), Flags(s), 0, m);
    }
  }

  /** Not sooner: after every smaller number m of iterations the machine is back at loop, with r0 = r - m. */
  lemma CountdownNotSooner(s: State, b: nat, m: nat)
    requires Loaded(s.ram, s.big, b) && PcOf(s) == b + 12 && m < Iterations(R0(s))
    ensures var o := Steps(s, 4 * m);
            && o.status == Done(0) && PcOf(o.s) == b + 12 && o.s.ram == s.ram
            && R0(o.s) == Wrap(R0(s) - m) && (m > 0 ==> R0(o.s) != 0)
  {
    hide Step, With, Loaded;
    LoadedFits(s.ram, s.big, b);
    var lr, cpsr := LoopState(s, b, m);
    WithShows(s, Wrap(R0(s) - m), lr, cpsr, b + 12, 4 * m);
  }

  /** No step before the last reaches end: there the PC is first after 4 * Iterations(r0) steps. */
  lemma EndNotReachedBefore(s: State, b: nat, n: nat)
    requires Loaded(s.ram, s.big, b) && PcOf(s) == b + 12 && n < 4 * Iterations(R0(s))
    ensures Steps(s, n).status == Done(0) && PcOf(Steps(s, n).s) != b + 20
  {
    hide Step, With, Loaded, Steps, Iterations;
    LoadedFits(s.ram, s.big, b);
    var m, q := n / 4, n % 4;
    var lr, cpsr := LoopState(s, b, m);
    StepsCompose(s, 4 * m, q);
    InsideIteration(s, b, Wrap(R0(s) - m), lr, cpsr, 4 * m, q);
  }

  /** The whole program from main: it exits at the 22nd step, with r0 = 0. */
  lemma ProgramExits(s: State, b: nat)
    requires Loaded(s.ram, s.big, b) && PcOf(s) == b + 8
    ensures Steps(s, 21).status == Done(0) && R0(Steps(s, 21).s) == 0
    ensures Steps(s, 22).status == Exit
  {
    hide Step, With, Loaded;
    LoadedFits(s.ram, s.big, b);
    WithItself(s);
    StepMov(s, b, R0(s), Lr(s), Flags(s), 0);
    var t := With(s, 5, Lr(s), Flags(s), b + 12, 1);
    WithShows(s, 5, Lr(s), Flags(s), b + 12, 1);
    assert Steps(s, 0) == Outcome(Done(0), s);
    assert Steps(s, 1) == Outcome(Done(0), t);
    CountdownReachesEnd(t, b);
    StepsCompose(s, 1, 20);
    StepsCompose(s, 1, 21);
    WithShows(t, 0, b + 16, Pack(false, true, true, false, Flags(t) % 0x1000_0000), b + 20, 20);
  }
}
