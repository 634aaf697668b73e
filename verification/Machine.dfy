/**
 * The simulated processor as a transition function: arm_core.c, arm_instruction.c,
 * arm_data_processing.c, arm_load_store.c, arm_branch_other.c and arm_exception.c on values.
 */
module Machine {
  import opened Words
  import opened Banking
  import opened Memory
  import opened Instruction
  import Shifter
  import Alu

  const UNDEFINED_INSTRUCTION: int := 2
  const SOFTWARE_INTERRUPT: int := 3
  const DATA_ABORT: int := 5

  datatype State = State(mode: Byte, cells: Cells, ram: Ram, big: bool, cycles: Word)

  /**
   * How an instruction ends: with a result code (0 is success), by leaving the simulator, or by
   * following the NULL pointer of a mode without an SPSR.
   */
  datatype Status = Done(code: int) | Exit | Crash

  datatype Outcome = Outcome(status: Status, s: State)

  // ---- Registers --------------------------------------------------------------------------------

  type RealReg = n: nat | n <= 16

  function CellFor(mode: Byte, reg: RealReg): (k: nat)
    ensures k < 37
  {
    Slot(ModeNum(mode), reg).value
  }

  /** What a read of the program counter yields: the next instruction plus 4, bit 1 cleared. */
  function PcRead(raw: Word): Word {
    var x := Wrap(raw + 4);
    x - ((x / 2) % 2) * 2
  }

  function ReadReg(s: State, reg: Reg4): Word {
    var raw := s.cells[CellFor(s.mode, reg)];
    if reg == 15 then PcRead(raw) else raw
  }

  function ReadUsrReg(s: State, reg: Reg4): Word {
    var raw := s.cells[CellFor(USR, reg)];
    if reg == 15 then PcRead(raw) else raw
  }

  function ReadCpsr(s: State): Word {
    s.cells[CellFor(s.mode, 16)]
  }

  predicate HasSpsr(s: State) {
    Slot(ModeNum(s.mode), 17).Some?
  }

  function ReadSpsr(s: State): Word
    requires HasSpsr(s)
  {
    s.cells[Slot(ModeNum(s.mode), 17).value]
  }

  function WriteReg(s: State, reg: Reg4, v: Word): State {
    s.(cells := s.cells[CellFor(s.mode, reg) := v])
  }

  function WriteUsrReg(s: State, reg: Reg4, v: Word): State {
    s.(cells := s.cells[CellFor(USR, reg) := v])
  }

  function WriteCpsr(s: State, v: Word): State {
    s.(cells := s.cells[CellFor(s.mode, 16) := v])
  }

  // ---- Fetch --------------------------------------------------------------------------------------

  /** arm_fetch: the word at the program counter, if readable, and the state with it advanced. */
  function FetchAddress(s: State): Word {
    Wrap(ReadReg(s, 15) - 4)
  }

  function Fetched(s: State): State {
    WriteReg(s.(cycles := Wrap(s.cycles + 1)), 15, Wrap(FetchAddress(s) + 4))
  }

  // ---- Data processing ------------------------------------------------------------------------------

  function ShifterOperand(s: State, ins: Word): Shifter.Operand {
    Shifter.DecodeSo(ins, ReadReg(s, Rm(ins)), ReadReg(s, Rs(ins)), FlagC(ReadCpsr(s)))
  }

  /** One of the sixteen operations, once its operands are known. */
  function Operate(s: State, op: Reg4, rd: Reg4, rn: Word, so: Word, carry: bool, sBit: bool): State {
    var cpsr := ReadCpsr(s);
    if Alu.IsTest(op) then WriteCpsr(s, Alu.NewCpsr(op, cpsr, rn, so, carry))
    else
      var t := WriteReg(s, rd, Alu.Result(op, rn, so, FlagC(cpsr)));
      if !sBit then t
      else if rd != 15 then WriteCpsr(t, Alu.NewCpsr(op, cpsr, rn, so, carry))
      else if HasSpsr(t) then WriteCpsr(t, ReadSpsr(t))
      else t
  }

  function DataProcessing(s: State, ins: Word): State {
    var operand := ShifterOperand(s, ins);
    Operate(s, Opcode(ins), Rd(ins), ReadReg(s, Rn(ins)), operand.value, operand.carry, Bit20(ins))
  }

  // ---- Branches, status reads, coprocessor space -----------------------------------------------------

  function BranchOffset(ins: Word): Word {
    Wrap(4 * (if Imm24(ins) >= 0x80_0000 then Imm24(ins) + 0xFF00_0000 else Imm24(ins)))
  }

  /** The link register takes the address of the next instruction when bit 24 is set. */
  function Linked(s: State, ins: Word): State {
    if Bit24(ins) then WriteReg(s, 14, Wrap(ReadReg(s, 15) - 4)) else s
  }

  function Branch(s: State, ins: Word): State {
    var t := Linked(s, ins);
    WriteReg(t, 15, Wrap(ReadReg(t, 15) + BranchOffset(ins)))
  }

  function Miscellaneous(s: State, ins: Word): Outcome {
    if !Bit22(ins) then Outcome(Done(0), WriteReg(s, Rd(ins), ReadCpsr(s)))
    else if HasSpsr(s) then Outcome(Done(0), WriteReg(s, Rd(ins), ReadSpsr(s)))
    else Outcome(Crash, s)
  }

  function CoprocessorOrSwi(s: State, ins: Word): Outcome {
    if !Bit24(ins) then Outcome(Done(UNDEFINED_INSTRUCTION), s)
    else if Imm24(ins) == 0x12_3456 then Outcome(Exit, s)
    else Outcome(Done(SOFTWARE_INTERRUPT), s)
  }

  // ---- Single loads and stores -----------------------------------------------------------------------

  datatype Size = SizeWord | SizeHalf | SizeByte

  function DecodeOff(s: State, ins: Word): Word {
    if !Bit25(ins) then Imm12(ins)
    else
      var rm := ReadReg(s, Rm(ins));
      var k := ShiftImm(ins);
      if (ins / 0x10) % 0x100 == 0 then rm
      else if ShiftKind(ins) == 0 then Shifter.ShiftLeft(rm, k)
      else if ShiftKind(ins) == 1 then (if k == 0 then 0 else Shifter.ShiftRight(rm, k))
      else if ShiftKind(ins) == 2 then
        (if k == 0 then (if rm >= 0x8000_0000 then 0xFFFF_FFFF else 0) else Shifter.Asr(rm, k))
      else
        (if k == 0 then (if FlagC(ReadCpsr(s)) then 0x8000_0000 else 0) + rm / 2 else Shifter.Ror(rm, k))
  }

  /** The offset of a half-word access: an immediate exactly when bit 22 is clear. */
  function DecodeOffH(s: State, ins: Word): Word {
    if !Bit22(ins) then Rs(ins) * 16 + Rm(ins) else ReadReg(s, Rm(ins))
  }

  function Indexed(s: State, ins: Word, off: Word): Word {
    Wrap(if Bit23(ins) then ReadReg(s, Rn(ins)) + off else ReadReg(s, Rn(ins)) - off)
  }

  /** The address accessed: the indexed one, or the base for post-indexing. */
  function AccessAddress(s: State, ins: Word, off: Word): Word {
    if Bit24(ins) then Indexed(s, ins, off) else ReadReg(s, Rn(ins))
  }

  /** The base register is updated whether or not the access succeeds. */
  function WriteBack(s: State, ins: Word, indexed: Word): State {
    if !Bit24(ins) || Bit21(ins) then WriteReg(s, Rn(ins), indexed) else s
  }

  function StoreSized(s: State, size: Size, a: Word, v: Word): Option<Ram> {
    match size
    case SizeWord => StoreWord(s.ram, s.big, a, v)
    case SizeHalf => StoreHalf(s.ram, s.big, a, v % 0x1_0000)
    case SizeByte => StoreByte(s.ram, a, v % 0x100)
  }

  function LoadSized(s: State, size: Size, a: Word): Option<Word> {
    match size
    case SizeWord => LoadWord(s.ram, s.big, a)
    case SizeHalf => LoadHalf(s.ram, s.big, a)
    case SizeByte => LoadByte(s.ram, a)
  }

  function Store(s: State, ins: Word, off: Word, size: Size): Outcome {
    var stored := StoreSized(s, size, AccessAddress(s, ins, off), ReadReg(s, Rd(ins)));
    var t := if stored.Some? then s.(ram := stored.value) else s;
    Outcome(Done(if stored.Some? then 0 else DATA_ABORT), WriteBack(t, ins, Indexed(s, ins, off)))
  }

  function Load(s: State, ins: Word, off: Word, size: Size): Outcome {
    var loaded := LoadSized(s, size, AccessAddress(s, ins, off));
    var t := WriteBack(s, ins, Indexed(s, ins, off));
    if loaded.None? then Outcome(Done(DATA_ABORT), t)
    else
      var v := loaded.value;
      Outcome(Done(0), WriteReg(t, Rd(ins), if size == SizeWord && Rd(ins) == 15 then v - v % 4 else v))
  }

  function LoadStore(s: State, ins: Word): Outcome {
    if Bit26(ins) then
      var off := DecodeOff(s, ins);
      var size := if Bit22(ins) then SizeByte else SizeWord;
      if Bit20(ins) then Load(s, ins, off, size) else Store(s, ins, off, size)
    else
      var off := DecodeOffH(s, ins);
      if Bit20(ins) then Load(s, ins, off, SizeHalf) else Store(s, ins, off, SizeHalf)
  }

  // ---- Multiple loads and stores ----------------------------------------------------------------------

  /** The next address: up or down by one word. */
  function NextAddress(up: bool, a: Word): Word {
    Wrap(if up then a + 4 else a - 4)
  }

  /** A run over the register list: the state reached, the address reached, and whether all went well. */
  datatype Walk = Walk(s: State, a: Word, ok: bool)

  /** The storing loop from register i on; all sixteen registers in ascending order. */
  function StoreList(w: Walk, ins: Word, i: nat, up: bool, usr: bool): Walk
    requires i <= 16
    decreases 16 - i
  {
    if i == 16 then w
    else if !Listed(ins, i) then StoreList(w, ins, i + 1, up, usr)
    else
      var v := if usr then ReadUsrReg(w.s, i) else ReadReg(w.s, i);
      var stored := StoreWord(w.s.ram, w.s.big, w.a, v);
      var t := if stored.Some? then w.s.(ram := stored.value) else w.s;
      StoreList(Walk(t, NextAddress(up, w.a), w.ok && stored.Some?), ins, i + 1, up, usr)
  }

  /** One register of a load multiple; the program counter loses its two low bits. */
  function WriteLoaded(s: State, i: Reg4, v: Word, usr: bool): State {
    var kept := if i == 15 then v - v % 4 else v;
    if usr then WriteUsrReg(s, i, kept) else WriteReg(s, i, kept)
  }

  /** The loading loop from register i on. A failed load repeats the last value read. */
  function LoadList(w: Walk, last: Word, ins: Word, i: nat, up: bool, usr: bool): Walk
    requires i <= 16
    decreases 16 - i
  {
    if i == 16 then w
    else if !Listed(ins, i) then LoadList(w, last, ins, i + 1, up, usr)
    else
      var loaded := LoadWord(w.s.ram, w.s.big, w.a);
      var v := if loaded.Some? then loaded.value else last;
      var t := WriteLoaded(w.s, i, v, usr);
      LoadList(Walk(t, NextAddress(up, w.a), w.ok && loaded.Some?), v, ins, i + 1, up, usr)
  }

  /** The first address: the base, or one word away from it when bit 24 is set. */
  function FirstAddress(ins: Word, base: Word): Word {
    if Bit24(ins) then NextAddress(Bit23(ins), base) else base
  }

  /** The address written back to the base undoes the step taken for bit 24. */
  function FinishMultiple(w: Walk, ins: Word): Outcome {
    var final := if Bit24(ins) then NextAddress(!Bit23(ins), w.a) else w.a;
    var t := if Bit21(ins) then WriteReg(w.s, Rn(ins), final) else w.s;
    Outcome(Done(if w.ok then 0 else DATA_ABORT), t)
  }

  function StoreMultiple(s: State, ins: Word): Outcome {
    var start := Walk(s, FirstAddress(ins, ReadReg(s, Rn(ins))), true);
    FinishMultiple(StoreList(start, ins, 0, Bit23(ins), Bit22(ins)), ins)
  }

  /** With bits 22 and 15 set nothing is loaded: the CPSR is replaced by the SPSR instead. */
  function LoadMultiple(s: State, ins: Word): Outcome {
    var first := FirstAddress(ins, ReadReg(s, Rn(ins)));
    if Bit22(ins) && Listed(ins, 15) then
      if HasSpsr(s) then FinishMultiple(Walk(WriteCpsr(s, ReadSpsr(s)), first, true), ins)
      else Outcome(Crash, s)
    else
      FinishMultiple(LoadList(Walk(s, first, true), 0, ins, 0, Bit23(ins), Bit22(ins)), ins)
  }

  // ---- Dispatch ------------------------------------------------------------------------------------------

  function Execute(s: State, ins: Word): Outcome {
    match Group(ins)
    case 0 =>
      if Bit7(ins) && Bit4(ins) then LoadStore(s, ins)
      else if Bit24(ins) && !Bit23(ins) && !Bit20(ins) && !Bit4(ins) then Miscellaneous(s, ins)
      else Outcome(Done(0), DataProcessing(s, ins))
    case 1 => Outcome(Done(0), DataProcessing(s, ins))
    case 2 => LoadStore(s, ins)
    case 3 => LoadStore(s, ins)
    case 4 => if Bit20(ins) then LoadMultiple(s, ins) else StoreMultiple(s, ins)
    case 5 => Outcome(Done(0), Branch(s, ins))
    case 7 => CoprocessorOrSwi(s, ins)
    case _ => Outcome(Done(UNDEFINED_INSTRUCTION), s)
  }

  /** arm_exception: only RESET (1) does anything. */
  function Exception(s: State, code: Byte): State {
    if code == 1 then WriteUsrReg(WriteCpsr(s, 0x1d3), 15, 0) else s
  }

  /** arm_create over a memory: the register file of registers_create, reset. */
  function Created(ram: Ram, big: bool): State {
    Exception(State(SYS, seq(37, _ => 0), ram, big, 0), 1)
  }

  /** arm_execute_instruction: fetch, test the condition, execute. */
  function ExecuteInstruction(s: State): Outcome {
    var fetched := LoadWord(s.ram, s.big, FetchAddress(s));
    var t := Fetched(s);
    if fetched.None? then Outcome(Done(-1), t)
    else if ConditionPassed(ReadCpsr(t), Cond(fetched.value)) then Execute(t, fetched.value)
    else Outcome(Done(0), t)
  }

  /** arm_step: a result code other than 0 is passed to arm_exception as a byte. */
  function Step(s: State): Outcome {
    Delivered(ExecuteInstruction(s))
  }

  function Delivered(o: Outcome): Outcome {
    if o.status.Done? && o.status.code != 0 then o.(s := Exception(o.s, o.status.code % 0x100)) else o
  }

  /** The codes instructions return; none of them is RESET. */
  predicate HarmlessStatus(status: Status) {
    status.Done? ==> status.code == -1 || status.code == 0 || 2 <= status.code <= 5
  }

  lemma DeliveryIsIdle(o: Outcome)
    requires HarmlessStatus(o.status)
    ensures Delivered(o) == o
  {
  }

  lemma ExecuteIsHarmless(s: State, ins: Word)
    ensures HarmlessStatus(Execute(s, ins).status)
  {
  }

  lemma InstructionIsHarmless(s: State)
    ensures HarmlessStatus(ExecuteInstruction(s).status)
  {
    var fetched := LoadWord(s.ram, s.big, FetchAddress(s));
    if fetched.Some? {
      ExecuteIsHarmless(Fetched(s), fetched.value);
    }
  }

  /** No instruction returns the code of RESET, so arm_exception never acts after a step. */
  lemma StepNeverResets(s: State)
    ensures Step(s) == ExecuteInstruction(s)
  {
    InstructionIsHarmless(s);
    DeliveryIsIdle(ExecuteInstruction(s));
  }
}
