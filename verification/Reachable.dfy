/**
 * What every run of the simulator keeps, for every program: the mode, the banks of the modes it
 * is not in, and (from reset) a CPSR that names another mode than the one in force.
 */
module Reachable {
  import opened Words
  import opened Banking
  import opened Memory
  import opened Instruction
  import opened Machine
  import Alu

  /** A cell private to an exception mode other than the current one. */
  predicate Foreign(mode: Byte, cell: nat)
    requires cell < 37
  {
    match NameAt(cell)
    case FiqGeneral(_) => mode != FIQ
    case Banked(e, _) => mode != ModeOf(e)
    case Spsr(e) => mode != ModeOf(e)
    case _ => false
  }

  /** What no instruction changes. */
  ghost predicate Keeps(s: State, t: State) {
    && t.mode == s.mode && t.big == s.big && |t.ram| == |s.ram|
    && (forall k: nat :: k < 37 && Foreign(s.mode, k) ==> t.cells[k] == s.cells[k])
    && (ExcOf(s.mode).None? ==> ReadCpsr(t) % 0x1000_0000 == ReadCpsr(s) % 0x1000_0000)
  }

  lemma KeepsTransitively(s: State, t: State, u: State)
    requires Keeps(s, t) && Keeps(t, u)
    ensures Keeps(s, u)
  {
  }

  /** No register number reaches a foreign cell, in the mode's own row or in the USR row. */
  lemma NoNumberReachesForeign(mode: Byte, reg: VirtReg)
    ensures Slot(ModeNum(mode), reg).Some? ==> !Foreign(mode, Slot(ModeNum(mode), reg).value)
    ensures Slot(0, reg).Some? ==> !Foreign(mode, Slot(0, reg).value)
  {
    SlotReachesName(mode, reg);
    SlotReachesName(USR, reg);
    if NameOf(mode, reg).Some? { CellsAreNames(NameOf(mode, reg).value, 0); }
    if NameOf(USR, reg).Some? { CellsAreNames(NameOf(USR, reg).value, 0); }
  }

  lemma WriteRegKeeps(s: State, reg: Reg4, v: Word)
    ensures Keeps(s, WriteReg(s, reg, v)) && Keeps(s, WriteUsrReg(s, reg, v))
  {
    hide Foreign;
    NoNumberReachesForeign(s.mode, reg);
  }

  lemma WriteCpsrKeeps(s: State, v: Word)
    requires ExcOf(s.mode).None? ==> v % 0x1000_0000 == ReadCpsr(s) % 0x1000_0000
    ensures Keeps(s, WriteCpsr(s, v))
  {
    NoNumberReachesForeign(s.mode, 16);
  }

  lemma SpsrNeedsExceptionMode(s: State)
    ensures HasSpsr(s) <==> ExcOf(s.mode).Some?
  {
    DefinedSlots(s.mode, 17);
  }

  lemma OperateKeeps(s: State, op: Reg4, rd: Reg4, rn: Word, so: Word, carry: bool, sBit: bool)
    ensures Keeps(s, Operate(s, op, rd, rn, so, carry, sBit))
  {
    var cpsr := ReadCpsr(s);
    Alu.SimpleFlagsAreRight(op, cpsr, rn, so, carry);
    if Alu.IsTest(op) {
      WriteCpsrKeeps(s, Alu.NewCpsr(op, cpsr, rn, so, carry));
    } else {
      var t := WriteReg(s, rd, Alu.Result(op, rn, so, FlagC(cpsr)));
      WriteRegKeeps(s, rd, Alu.Result(op, rn, so, FlagC(cpsr)));
      if sBit && rd != 15 {
        WriteCpsrKeeps(t, Alu.NewCpsr(op, cpsr, rn, so, carry));
      } else if sBit {
        SpsrNeedsExceptionMode(t);
        if HasSpsr(t) { WriteCpsrKeeps(t, ReadSpsr(t)); }
      }
    }
  }

  lemma LinkKeeps(s: State, ins: Word)
    ensures Keeps(s, Linked(s, ins))
  {
    hide Foreign, ReadReg, WriteReg;
    WriteRegKeeps(s, 14, Wrap(ReadReg(s, 15) - 4));
  }

  lemma BranchKeeps(s: State, ins: Word)
    ensures Keeps(s, Branch(s, ins))
  {
    var t := Linked(s, ins);
    LinkKeeps(s, ins);
    var target := Wrap(ReadReg(t, 15) + BranchOffset(ins));
    WriteRegKeeps(t, 15, target);
    KeepsTransitively(s, t, WriteReg(t, 15, target));
  }

  lemma MiscellaneousKeeps(s: State, ins: Word)
    ensures Keeps(s, Miscellaneous(s, ins).s)
  {
    WriteRegKeeps(s, Rd(ins), ReadCpsr(s));
    if HasSpsr(s) { WriteRegKeeps(s, Rd(ins), ReadSpsr(s)); }
  }

  lemma WriteBackKeeps(s: State, ins: Word, indexed: Word)
    ensures Keeps(s, WriteBack(s, ins, indexed))
  {
    WriteRegKeeps(s, Rn(ins), indexed);
  }

  lemma StoreKeeps(s: State, ins: Word, off: Word, size: Size)
    ensures Keeps(s, Store(s, ins, off, size).s)
  {
    var stored := StoreSized(s, size, AccessAddress(s, ins, off), ReadReg(s, Rd(ins)));
    var t := if stored.Some? then s.(ram := stored.value) else s;
    assert Keeps(s, t);
    WriteBackKeeps(t, ins, Indexed(s, ins, off));
  }

  lemma LoadKeeps(s: State, ins: Word, off: Word, size: Size)
    ensures Keeps(s, Load(s, ins, off, size).s)
  {
    hide Keeps, LoadSized, AccessAddress, Indexed, WriteBack, WriteReg;
    var loaded := LoadSized(s, size, AccessAddress(s, ins, off));
    var t := WriteBack(s, ins, Indexed(s, ins, off));
    WriteBackKeeps(s, ins, Indexed(s, ins, off));
    if loaded.Some? {
      var v := if size == SizeWord && Rd(ins) == 15 then loaded.value - loaded.value % 4 else loaded.value;
      WriteRegKeeps(t, Rd(ins), v);
      KeepsTransitively(s, t, WriteReg(t, Rd(ins), v));
    }
  }

  lemma LoadStoreKeeps(s: State, ins: Word)
    ensures Keeps(s, LoadStore(s, ins).s)
  {
    var off := if Bit26(ins) then DecodeOff(s, ins) else DecodeOffH(s, ins);
    var size := if !Bit26(ins) then SizeHalf else if Bit22(ins) then SizeByte else SizeWord;
    LoadKeeps(s, ins, off, size);
    StoreKeeps(s, ins, off, size);
  }

  lemma {:induction false} StoreListKeeps(w: Walk, ins: Word, i: nat, up: bool, usr: bool)
    requires i <= 16
    ensures Keeps(w.s, StoreList(w, ins, i, up, usr).s)
    decreases 16 - i
  {
    if i < 16 {
      if !Listed(ins, i) {
        StoreListKeeps(w, ins, i + 1, up, usr);
      } else {
        var v := if usr then ReadUsrReg(w.s, i) else ReadReg(w.s, i);
        var stored := StoreWord(w.s.ram, w.s.big, w.a, v);
        var t := if stored.Some? then w.s.(ram := stored.value) else w.s;
        var next := Walk(t, NextAddress(up, w.a), w.ok && stored.Some?);
        assert Keeps(w.s, t);
        StoreListKeeps(next, ins, i + 1, up, usr);
        KeepsTransitively(w.s, t, StoreList(next, ins, i + 1, up, usr).s);
      }
    }
  }

  lemma WriteLoadedKeeps(s: State, i: Reg4, v: Word, usr: bool)
    ensures Keeps(s, WriteLoaded(s, i, v, usr))
  {
    WriteRegKeeps(s, i, if i == 15 then v - v % 4 else v);
  }

  lemma {:induction false} LoadListKeeps(w: Walk, last: Word, ins: Word, i: nat, up: bool, usr: bool)
    requires i <= 16
    ensures Keeps(w.s, LoadList(w, last, ins, i, up, usr).s)
    decreases 16 - i
  {
    if i < 16 {
      if !Listed(ins, i) {
        LoadListKeeps(w, last, ins, i + 1, up, usr);
      } else {
        var loaded := LoadWord(w.s.ram, w.s.big, w.a);
        var v := if loaded.Some? then loaded.value else last;
        var t := WriteLoaded(w.s, i, v, usr);
        WriteLoadedKeeps(w.s, i, v, usr);
        var next := Walk(t, NextAddress(up, w.a), w.ok && loaded.Some?);
        LoadListKeeps(next, v, ins, i + 1, up, usr);
        KeepsTransitively(w.s, t, LoadList(next, v, ins, i + 1, up, usr).s);
      }
    }
  }

  lemma FinishKeeps(w: Walk, ins: Word)
    ensures Keeps(w.s, FinishMultiple(w, ins).s)
  {
    WriteRegKeeps(w.s, Rn(ins), if Bit24(ins) then NextAddress(!Bit23(ins), w.a) else w.a);
  }

  lemma StoreMultipleKeeps(s: State, ins: Word)
    ensures Keeps(s, StoreMultiple(s, ins).s)
  {
    var start := Walk(s, FirstAddress(ins, ReadReg(s, Rn(ins))), true);
    var w := StoreList(start, ins, 0, Bit23(ins), Bit22(ins));
    StoreListKeeps(start, ins, 0, Bit23(ins), Bit22(ins));
    FinishKeeps(w, ins);
    KeepsTransitively(s, w.s, FinishMultiple(w, ins).s);
  }

  lemma LoadMultipleKeeps(s: State, ins: Word)
    ensures Keeps(s, LoadMultiple(s, ins).s)
  {
    var first := FirstAddress(ins, ReadReg(s, Rn(ins)));
    SpsrNeedsExceptionMode(s);
    if Bit22(ins) && Listed(ins, 15) {
      if HasSpsr(s) {
        var t := WriteCpsr(s, ReadSpsr(s));
        WriteCpsrKeeps(s, ReadSpsr(s));
        FinishKeeps(Walk(t, first, true), ins);
        KeepsTransitively(s, t, FinishMultiple(Walk(t, first, true), ins).s);
      }
    } else {
      var w := LoadList(Walk(s, first, true), 0, ins, 0, Bit23(ins), Bit22(ins));
      LoadListKeeps(Walk(s, first, true), 0, ins, 0, Bit23(ins), Bit22(ins));
      FinishKeeps(w, ins);
      KeepsTransitively(s, w.s, FinishMultiple(w, ins).s);
    }
  }

  lemma DataProcessingKeeps(s: State, ins: Word)
    ensures Keeps(s, DataProcessing(s, ins))
  {
    var operand := ShifterOperand(s, ins);
    OperateKeeps(s, Opcode(ins), Rd(ins), ReadReg(s, Rn(ins)), operand.value, operand.carry, Bit20(ins));
  }

  lemma ExecuteKeeps(s: State, ins: Word)
    ensures Keeps(s, Execute(s, ins).s)
  {
    match Group(ins)
    case 0 =>
      if Bit7(ins) && Bit4(ins) {
        LoadStoreKeeps(s, ins);
      } else if Bit24(ins) && !Bit23(ins) && !Bit20(ins) && !Bit4(ins) {
        MiscellaneousKeeps(s, ins);
      } else {
        DataProcessingKeeps(s, ins);
      }
    case 1 => DataProcessingKeeps(s, ins);
    case 2 => LoadStoreKeeps(s, ins);
    case 3 => LoadStoreKeeps(s, ins);
    case 4 =>
      if Bit20(ins) {
        LoadMultipleKeeps(s, ins);
      } else {
        StoreMultipleKeeps(s, ins);
      }
    case 5 => BranchKeeps(s, ins);
    case _ =>
  }

  lemma FetchKeeps(s: State)
    ensures Keeps(s, Fetched(s))
  {
    WriteRegKeeps(s.(cycles := Wrap(s.cycles + 1)), 15, Wrap(FetchAddress(s) + 4));
  }

  /** One step, of any program in any mode, keeps the mode and every other mode's private registers. */
  lemma StepKeeps(s: State)
    ensures Keeps(s, Step(s).s)
  {
    StepNeverResets(s);
    FetchKeeps(s);
    var fetched := LoadWord(s.ram, s.big, FetchAddress(s));
    if fetched.Some? {
      ExecuteKeeps(Fetched(s), fetched.value);
      KeepsTransitively(s, Fetched(s), Execute(Fetched(s), fetched.value).s);
    }
  }

  // ---- Runs ------------------------------------------------------------------------------------------

  /** A step of the processor, or an exception code sent from outside. */
  datatype Event = Tick | Irq(code: Byte)

  /** The state after a run that has neither left the simulator nor crashed. */
  function Run(s: State, events: seq<Event>): Option<State> {
    if events == [] then Some(s)
    else
      var before := Run(s, events[..|events| - 1]);
      if before.None? then None
      else
        match events[|events| - 1]
        case Irq(code) => Some(Exception(before.value, code))
        case Tick =>
          var o := Step(before.value);
          if o.status.Done? then Some(o.s) else None
  }

  /** The state of the register file that no run from reset can leave. */
  ghost predicate StuckInSys(s: State) {
    && s.mode == SYS
    && ReadCpsr(s) % 0x1000_0000 == 0x1d3
    && forall k: nat :: k < 37 && Foreign(SYS, k) ==> s.cells[k] == 0
  }

  lemma ExceptionKeeps(s: State, code: Byte)
    requires StuckInSys(s)
    ensures StuckInSys(Exception(s, code)) && |Exception(s, code).ram| == |s.ram|
  {
    if code == 1 {
      NoNumberReachesForeign(s.mode, 16);
      NoNumberReachesForeign(s.mode, 15);
    }
  }

  /** A reset writes the CPSR and clears the PC, and nothing else; no other code does anything. */
  lemma ExceptionIsReset(s: State, code: Byte)
    ensures Exception(s, code) ==
            if code == 1 then s.(cells := s.cells[CellOf(Cpsr) := 0x1d3][CellOf(Pc) := 0]) else s
  {
  }

  /** A new core is in SYS, with the PC at 0, the CPSR of a reset, every other register 0 and no cycle counted. */
  lemma CreatedIsReset(ram: Ram, big: bool, k: nat)
    requires k < 37
    ensures var s := Created(ram, big);
            && s == State(SYS, s.cells, ram, big, 0)
            && s.cells[k] == if k == CellOf(Cpsr) then 0x1d3 else 0
  {
  }

  /** So after a reset event, anywhere in a run, the PC is 0. */
  lemma ResetClearsPc(s: State, events: seq<Event>)
    requires Run(s, events).Some?
    ensures Run(s, events + [Event.Irq(1)]).Some? && Run(s, events + [Event.Irq(1)]).value.cells[CellOf(Pc)] == 0
  {
    var more := events + [Event.Irq(1)];
    assert more[..|more| - 1] == events && more[|more| - 1] == Event.Irq(1);
    ExceptionIsReset(Run(s, events).value, 1);
    hide Exception;
    assert Run(s, more) == Some(Exception(Run(s, events).value, 1));
  }

  lemma CreatedIsStuck(ram: Ram, big: bool)
    ensures var s := Created(ram, big); StuckInSys(s) && s.ram == ram && s.big == big
  {
    NoNumberReachesForeign(SYS, 16);
    NoNumberReachesForeign(SYS, 15);
  }

  /**
   * From arm_create, whatever the memory holds, whatever instructions are executed and whatever
   * exception codes arrive: the register file stays in SYS with every exception mode's bank
   * still zero, although the CPSR's mode field says SVC.
   */
  lemma {:induction false} RunsStayInSys(ram: Ram, big: bool, events: seq<Event>)
    ensures var r := Run(Created(ram, big), events);
            r.Some? ==>
              && StuckInSys(r.value)
              && ReadCpsr(r.value) % 32 == SVC
              && r.value.big == big && |r.value.ram| == |ram|
    decreases |events|
  {
    if events == [] {
      CreatedIsStuck(ram, big);
    } else {
      RunsStayInSys(ram, big, events[..|events| - 1]);
      var before := Run(Created(ram, big), events[..|events| - 1]);
      if before.Some? {
        match events[|events| - 1]
        case Irq(code) => ExceptionKeeps(before.value, code);
        case Tick => StepKeeps(before.value);
      }
    }
    var r := Run(Created(ram, big), events);
    if r.Some? { LowBits(ReadCpsr(r.value)); }
  }

  lemma LowBits(x: Word)
    requires x % 0x1000_0000 == 0x1d3
    ensures x % 32 == 0x13
  {
    assert x == 0x1000_0000 * (x / 0x1000_0000) + 0x1d3;
  }

  // ---- The missing SPSR ------------------------------------------------------------------------------

  /**
   * The words on which the SPSR is used without asking whether there is one: whatever is executed
   * as MRS of the SPSR, MSR to the SPSR among it, and the return form of LDM.
   */
  predicate NeedsSpsr(ins: Word) {
    || (Group(ins) == 0 && !(Bit7(ins) && Bit4(ins)) &&
        Bit24(ins) && !Bit23(ins) && !Bit20(ins) && !Bit4(ins) && Bit22(ins))
    || (Group(ins) == 4 && Bit20(ins) && Bit22(ins) && Listed(ins, 15))
  }

  /**
   * A step follows NULL exactly when it executes an MRS of the SPSR, or a word taken for one such
   * as msr spsr_f, r0, or a load multiple with the PC and bit 22, in a mode without an SPSR.
   */
  lemma StepCrashesIff(s: State)
    ensures Step(s).status == Crash <==>
            var fetched := LoadWord(s.ram, s.big, FetchAddress(s));
            && fetched.Some?
            && ConditionPassed(ReadCpsr(Fetched(s)), Cond(fetched.value))
            && NeedsSpsr(fetched.value)
            && ExcOf(s.mode).None?
  {
    StepNeverResets(s);
    var fetched := LoadWord(s.ram, s.big, FetchAddress(s));
    if fetched.Some? {
      SpsrNeedsExceptionMode(Fetched(s));
      ExecuteCrashesIff(Fetched(s), fetched.value);
    }
  }

  lemma ExecuteCrashesIff(s: State, ins: Word)
    ensures Execute(s, ins).status == Crash <==> NeedsSpsr(ins) && !HasSpsr(s)
  {
  }
}
