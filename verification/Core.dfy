/**
 * The simulated processor in place: arm_core.c and the instruction decoders as methods on a
 * register file and a memory. Every method is shown to make the transition of `Machine`.
 */
module Core {
  import opened Words
  import opened Banking
  import opened Memory
  import opened Instruction
  import opened RegisterFile
  import Shifter
  import Alu
  import M = Machine

  class ArmCore {
    var cycleCount: Word
    const reg: Registers
    const mem: MemoryData
    const hostBig: bool

    ghost predicate Valid()
      reads reg.table
    {
      reg.Valid() && mem.Valid()
    }

    ghost function State(): M.State
      requires Valid()
      reads this, reg, reg.table, reg.cells, mem.bytes
    {
      M.State(reg.mode, reg.Contents(), mem.Contents(), mem.isBigEndian, cycleCount)
    }

    /** arm_create: a new register file, reset, over a given memory. */
    constructor (m: MemoryData, host: bool)
      requires m.Valid()
      ensures Valid() && mem == m && fresh(reg) && fresh(reg.cells) && fresh(reg.table)
      ensures State() == M.Created(m.Contents(), m.isBigEndian)
    {
      var r := new Registers();
      reg := r;
      mem := m;
      hostBig := host;
      cycleCount := 0;
      new;
      Exception(1);
    }

    // ---- Register access -------------------------------------------------------------------------

    method ReadRegister(r: Reg4) returns (v: Word)
      requires Valid()
      ensures v == M.ReadReg(State(), r)
    {
      v := reg.ReadRegister(r);
      if r == 15 {
        v := (v + 4) % 0x1_0000_0000;
        v := v - ((v / 2) % 2) * 2;
      }
    }

    method ReadUsrRegister(r: Reg4) returns (v: Word)
      requires Valid()
      ensures v == M.ReadUsrReg(State(), r)
    {
      v := reg.ReadUsrRegister(r);
      if r == 15 {
        v := (v + 4) % 0x1_0000_0000;
        v := v - ((v / 2) % 2) * 2;
      }
    }

    method ReadCpsr() returns (v: Word)
      requires Valid()
      ensures v == M.ReadCpsr(State())
    {
      v := reg.ReadCpsr();
    }

    method CurrentModeHasSpsr() returns (b: bool)
      requires Valid()
      ensures b == M.HasSpsr(State())
    {
      b := reg.CurrentModeHasSpsr();
    }

    method ReadSpsr() returns (v: Word)
      requires Valid() && M.HasSpsr(State())
      ensures v == M.ReadSpsr(State())
    {
      v := reg.ReadSpsr();
    }

    method WriteRegister(r: Reg4, v: Word)
      requires Valid()
      modifies reg.cells
      ensures Valid() && State() == M.WriteReg(old(State()), r, v)
    {
      reg.WriteRegister(r, v);
    }

    method WriteUsrRegister(r: Reg4, v: Word)
      requires Valid()
      modifies reg.cells
      ensures Valid() && State() == M.WriteUsrReg(old(State()), r, v)
    {
      reg.WriteUsrRegister(r, v);
    }

    method WriteCpsr(v: Word)
      requires Valid()
      modifies reg.cells
      ensures Valid() && State() == M.WriteCpsr(old(State()), v)
    {
      reg.WriteCpsr(v);
    }

    /** arm_fetch: the program counter moves on even when the word cannot be read. */
    method Fetch() returns (ins: Option<Word>)
      requires Valid()
      modifies this`cycleCount, reg.cells
      ensures Valid() && State() == M.Fetched(old(State()))
      ensures ins == LoadWord(old(State()).ram, old(State()).big, M.FetchAddress(old(State())))
    {
      cycleCount := (cycleCount + 1) % 0x1_0000_0000;
      var pc: int := ReadRegister(15);
      var address: int := Wrap(pc - 4);
      ins := mem.ReadWord(hostBig, address);
      WriteRegister(15, Wrap(address + 4));
    }

    method Exception(code: Byte)
      requires Valid()
      modifies reg.cells
      ensures Valid() && State() == M.Exception(old(State()), code)
    {
      if code == 1 {
        WriteCpsr(0x1d3);
        WriteUsrRegister(15, 0);
      }
    }

    // ---- Data processing ---------------------------------------------------------------------------

    method DecodeSo(ins: Word) returns (operand: Shifter.Operand)
      requires Valid()
      ensures operand == M.ShifterOperand(State(), ins)
    {
      var rm := ReadRegister(Rm(ins));
      var rs := ReadRegister(Rs(ins));
      var cpsr := ReadCpsr();
      operand := Shifter.DecodeSo(ins, rm, rs, FlagC(cpsr));
    }

    /** update_flags1, of the logical operations: N, Z and C, one bit at a time; V and the rest stay. */
    method UpdateFlags1(res: Word, carry: bool)
      requires Valid()
      modifies reg.cells
      ensures Valid()
      ensures var was := M.ReadCpsr(old(State()));
              State() == M.WriteCpsr(old(State()),
                                     Pack(Alu.Negative(res), res == 0, carry, FlagV(was), was % 0x1000_0000))
    {
      var cpsr := ReadCpsr();
      SetFlags(cpsr, Alu.Negative(res), res == 0, carry, false);
      cpsr := PutN(cpsr, Alu.Negative(res));
      cpsr := PutZ(cpsr, res == 0);
      cpsr := PutC(cpsr, carry);
      WriteCpsr(cpsr);
    }

    /** update_flags2, of the subtractions rn - so. */
    method UpdateFlags2(res: Word, rn: Word, so: Word)
      requires Valid()
      modifies reg.cells
      ensures Valid()
      ensures var was := M.ReadCpsr(old(State()));
              State() == M.WriteCpsr(old(State()),
                                     Pack(Alu.Negative(res), res == 0, rn >= so,
                                          Alu.OverflowFrom(rn, so, false), was % 0x1000_0000))
    {
      var cpsr := ReadCpsr();
      SetFlags(cpsr, Alu.Negative(res), res == 0, rn >= so, Alu.OverflowFrom(rn, so, false));
      hide Alu.OverflowFrom, Alu.Negative, Pack, PutN, PutZ, PutC, PutV;
      cpsr := PutN(cpsr, Alu.Negative(res));
      cpsr := PutZ(cpsr, res == 0);
      cpsr := PutC(cpsr, !Alu.BorrowFrom(rn, so));
      cpsr := PutV(cpsr, Alu.OverflowFrom(rn, so, false));
      WriteCpsr(cpsr);
    }

    /** update_flags3, of the additions rn + so. */
    method UpdateFlags3(res: Word, rn: Word, so: Word)
      requires Valid()
      modifies reg.cells
      ensures Valid()
      ensures var was := M.ReadCpsr(old(State()));
              State() == M.WriteCpsr(old(State()),
                                     Pack(Alu.Negative(res), res == 0, rn + so >= 0x1_0000_0000,
                                          Alu.OverflowFrom(rn, so, true), was % 0x1000_0000))
    {
      var cpsr := ReadCpsr();
      SetFlags(cpsr, Alu.Negative(res), res == 0, Alu.CarryFrom(rn, so), Alu.OverflowFrom(rn, so, true));
      assert Alu.CarryFrom(rn, so) <==> rn + so >= 0x1_0000_0000;
      hide Alu.CarryFrom, Alu.OverflowFrom, Alu.Negative, Pack, PutN, PutZ, PutC, PutV;
      cpsr := PutN(cpsr, Alu.Negative(res));
      cpsr := PutZ(cpsr, res == 0);
      cpsr := PutC(cpsr, Alu.CarryFrom(rn, so));
      cpsr := PutV(cpsr, Alu.OverflowFrom(rn, so, true));
      WriteCpsr(cpsr);
    }

    /** The flag updates inside adc, sbc and rsc, which read the old C from the register at each use. */
    method UpdateFlagsWithCarry(op: Reg4, res: Word, rn: Word, so: Word)
      requires Valid() && 5 <= op <= 7
      modifies reg.cells
      ensures Valid()
      ensures var was := M.ReadCpsr(old(State()));
              State() == M.WriteCpsr(old(State()),
                                     Pack(Alu.Negative(res), res == 0, Alu.ProgramC(op, rn, so, FlagC(was)),
                                          Alu.ProgramV(op, rn, so, FlagC(was)), was % 0x1000_0000))
    {
      var cpsr := ReadCpsr();
      var firstRead := ReadCpsr();
      var secondRead := ReadCpsr();
      SetFlags(cpsr, Alu.Negative(res), res == 0, Alu.ProgramC(op, rn, so, FlagC(firstRead)),
               Alu.ProgramV(op, rn, so, FlagC(secondRead)));
      cpsr := PutN(cpsr, Alu.Negative(res));
      cpsr := PutZ(cpsr, res == 0);
      cpsr := PutC(cpsr, Alu.ProgramC(op, rn, so, FlagC(firstRead)));
      cpsr := PutV(cpsr, Alu.ProgramV(op, rn, so, FlagC(secondRead)));
      WriteCpsr(cpsr);
    }

    /** The update each operation makes; rsb and rsc exchange their operands. */
    method UpdateFlags(op: Reg4, res: Word, rn: Word, so: Word, carry: bool)
      requires Valid() && res == Alu.Result(op, rn, so, FlagC(M.ReadCpsr(State())))
      modifies reg.cells
      ensures Valid()
      ensures State() ==
              M.WriteCpsr(old(State()), Alu.NewCpsr(op, M.ReadCpsr(old(State())), rn, so, carry))
    {
      Alu.FlagsByKind(op, M.ReadCpsr(State()), rn, so, carry);
      hide Alu.NewCpsr, Alu.Result, Alu.OverflowFrom, Alu.ProgramC, Alu.ProgramV, Alu.Negative, Pack, FlagC, FlagV;
      hide M.ReadCpsr, M.WriteCpsr, State, Valid;
      match op {
        case 2 => UpdateFlags2(res, rn, so);
        case 3 => UpdateFlags2(res, so, rn);
        case 4 => UpdateFlags3(res, rn, so);
        case 5 => UpdateFlagsWithCarry(op, res, rn, so);
        case 6 => UpdateFlagsWithCarry(op, res, rn, so);
        case 7 => UpdateFlagsWithCarry(op, res, rn, so);
        case 10 => UpdateFlags2(res, rn, so);
        case 11 => UpdateFlags3(res, rn, so);
        case _ => UpdateFlags1(res, carry);
      }
    }

    method Operate(op: Reg4, rd: Reg4, rn: Word, so: Word, carry: bool, sBit: bool)
      requires Valid()
      modifies reg.cells
      ensures Valid() && State() == M.Operate(old(State()), op, rd, rn, so, carry, sBit)
    {
      hide Alu.NewCpsr, Alu.Result;
      var cpsr := ReadCpsr();
      var res := Alu.Result(op, rn, so, FlagC(cpsr));
      if Alu.IsTest(op) {
        UpdateFlags(op, res, rn, so, carry);
        return;
      }
      WriteRegister(rd, res);
      if sBit && rd == 15 {
        HandleRd15();
      } else if sBit {
        UpdateFlags(op, res, rn, so, carry);
      }
    }

    /** handle_rd15: the CPSR takes the SPSR's value if the mode has one. */
    method HandleRd15()
      requires Valid()
      modifies reg.cells
      ensures Valid()
      ensures State() ==
              if M.HasSpsr(old(State())) then M.WriteCpsr(old(State()), M.ReadSpsr(old(State()))) else old(State())
    {
      var has := CurrentModeHasSpsr();
      if has {
        var spsr := ReadSpsr();
        WriteCpsr(spsr);
      }
    }

    method DataProcessing(ins: Word)
      requires Valid()
      modifies reg.cells
      ensures Valid() && State() == M.DataProcessing(old(State()), ins)
    {
      var rn := ReadRegister(Rn(ins));
      var operand := DecodeSo(ins);
      Operate(Opcode(ins), Rd(ins), rn, operand.value, operand.carry, Bit20(ins));
    }

    // ---- Branches, status reads, coprocessor space --------------------------------------------------

    method Branch(ins: Word)
      requires Valid()
      modifies reg.cells
      ensures Valid() && State() == M.Branch(old(State()), ins)
    {
      if Bit24(ins) {
        var next: int := ReadRegister(15);
        WriteRegister(14, Wrap(next - 4));
      }
      var pc: int := ReadRegister(15);
      WriteRegister(15, Wrap(pc + M.BranchOffset(ins)));
    }

    method Miscellaneous(ins: Word) returns (status: M.Status)
      requires Valid()
      modifies reg.cells
      ensures Valid() && M.Outcome(status, State()) == M.Miscellaneous(old(State()), ins)
    {
      var v;
      if Bit22(ins) {
        var has := CurrentModeHasSpsr();
        if !has { return M.Crash; }
        v := ReadSpsr();
      } else {
        v := ReadCpsr();
      }
      WriteRegister(Rd(ins), v);
      status := M.Done(0);
    }

    /** swi 0x123456 leaves the simulator. */
    method CoprocessorOrSwi(ins: Word) returns (status: M.Status)
      requires Valid()
      ensures M.Outcome(status, State()) == M.CoprocessorOrSwi(State(), ins)
    {
      if Bit24(ins) {
        if Imm24(ins) == 0x12_3456 { return M.Exit; }
        return M.Done(M.SOFTWARE_INTERRUPT);
      }
      status := M.Done(M.UNDEFINED_INSTRUCTION);
    }

    // ---- Single loads and stores ---------------------------------------------------------------------

    method ReadSized(size: M.Size, address: Word) returns (r: Option<Word>)
      requires Valid()
      ensures r == M.LoadSized(State(), size, address)
    {
      match size {
        case SizeWord => r := mem.ReadWord(hostBig, address);
        case SizeHalf => var h := mem.ReadHalf(hostBig, address); r := h;
        case SizeByte => var b := mem.ReadByte(address); r := b;
      }
    }

    method WriteSized(size: M.Size, address: Word, v: Word) returns (ok: bool)
      requires Valid()
      modifies mem.bytes
      ensures Valid()
      ensures var stored := M.StoreSized(old(State()), size, address, v);
              && ok == stored.Some?
              && State() == if ok then old(State()).(ram := stored.value) else old(State())
    {
      match size {
        case SizeWord => ok := mem.WriteWord(hostBig, address, v);
        case SizeHalf => ok := mem.WriteHalf(hostBig, address, v % 0x1_0000);
        case SizeByte => ok := mem.WriteByte(address, v % 0x100);
      }
    }

    /** The indexed address, and the address to access. */
    method Addresses(ins: Word, off: Word) returns (indexed: Word, address: Word)
      requires Valid()
      ensures indexed == M.Indexed(State(), ins, off) && address == M.AccessAddress(State(), ins, off)
    {
      var base: int := ReadRegister(Rn(ins));
      indexed := Wrap(if Bit23(ins) then base + off else base - off);
      address := if Bit24(ins) then indexed else base;
    }

    method WriteBack(ins: Word, indexed: Word)
      requires Valid()
      modifies reg.cells
      ensures Valid() && State() == M.WriteBack(old(State()), ins, indexed)
    {
      if !Bit24(ins) || Bit21(ins) {
        WriteRegister(Rn(ins), indexed);
      }
    }

    method Store(ins: Word, off: Word, size: M.Size) returns (status: M.Status)
      requires Valid()
      modifies reg.cells, mem.bytes
      ensures Valid() && M.Outcome(status, State()) == M.Store(old(State()), ins, off, size)
    {
      hide M.StoreSized, M.ReadReg, M.Indexed, M.AccessAddress, Rd;
      var v := ReadRegister(Rd(ins));
      var indexed, address := Addresses(ins, off);
      var ok := WriteSized(size, address, v);
      WriteBack(ins, indexed);
      status := M.Done(if ok then 0 else M.DATA_ABORT);
    }

    method Load(ins: Word, off: Word, size: M.Size) returns (status: M.Status)
      requires Valid()
      modifies reg.cells
      ensures Valid() && M.Outcome(status, State()) == M.Load(old(State()), ins, off, size)
    {
      hide M.LoadSized, M.WriteReg, M.WriteBack, M.Indexed, M.AccessAddress, State, Valid, Rd;
      var indexed, address := Addresses(ins, off);
      var loaded := ReadSized(size, address);
      WriteBack(ins, indexed);
      if loaded.None? { return M.Done(M.DATA_ABORT); }
      var v: int := loaded.value;
      if size == M.SizeWord && Rd(ins) == 15 {
        v := v - v % 4;
      }
      WriteRegister(Rd(ins), v);
      status := M.Done(0);
    }

    method DecodeOff(ins: Word) returns (off: Word)
      requires Valid()
      ensures off == M.DecodeOff(State(), ins)
    {
      if !Bit25(ins) { return Imm12(ins); }
      var rm := ReadRegister(Rm(ins));
      var k := ShiftImm(ins);
      if (ins / 0x10) % 0x100 == 0 { return rm; }
      if ShiftKind(ins) == 0 {
        off := Shifter.ShiftLeft(rm, k);
      } else if ShiftKind(ins) == 1 {
        off := if k == 0 then 0 else Shifter.ShiftRight(rm, k);
      } else if ShiftKind(ins) == 2 {
        off := if k == 0 then (if rm >= 0x8000_0000 then 0xFFFF_FFFF else 0) else Shifter.Asr(rm, k);
      } else if k == 0 {
        var cpsr := ReadCpsr();
        off := (if FlagC(cpsr) then 0x8000_0000 else 0) + rm / 2;
      } else {
        off := Shifter.Ror(rm, k);
      }
    }

    method LoadStore(ins: Word) returns (status: M.Status)
      requires Valid()
      modifies reg.cells, mem.bytes
      ensures Valid() && M.Outcome(status, State()) == M.LoadStore(old(State()), ins)
    {
      var off;
      var size := M.SizeHalf;
      if Bit26(ins) {
        off := DecodeOff(ins);
        size := if Bit22(ins) then M.SizeByte else M.SizeWord;
      } else if Bit22(ins) {
        off := ReadRegister(Rm(ins));
      } else {
        off := Rs(ins) * 16 + Rm(ins);
      }
      if Bit20(ins) {
        status := Load(ins, off, size);
      } else {
        status := Store(ins, off, size);
      }
    }

    // ---- Multiple loads and stores --------------------------------------------------------------------

    /** The storing loops of stm. */
    method StoreList(ins: Word, first: Word, up: bool, usr: bool) returns (address: Word, ok: bool)
      requires Valid()
      modifies mem.bytes
      ensures Valid()
      ensures M.Walk(State(), address, ok) == M.StoreList(M.Walk(old(State()), first, true), ins, 0, up, usr)
    {
      address, ok := first, true;
      for i := 0 to 16
        invariant Valid()
        invariant M.StoreList(M.Walk(State(), address, ok), ins, i, up, usr) ==
                  M.StoreList(M.Walk(old(State()), first, true), ins, 0, up, usr)
      {
        if Listed(ins, i) {
          var v;
          if usr { v := ReadUsrRegister(i); } else { v := ReadRegister(i); }
          var stored := WriteSized(M.SizeWord, address, v);
          ok := ok && stored;
          address := M.NextAddress(up, address);
        }
      }
    }

    /** The loading loops of ldm; a failed load leaves the last value in place. */
    method LoadList(ins: Word, first: Word, up: bool, usr: bool) returns (address: Word, ok: bool)
      requires Valid()
      modifies reg.cells
      ensures Valid()
      ensures M.Walk(State(), address, ok) == M.LoadList(M.Walk(old(State()), first, true), 0, ins, 0, up, usr)
    {
      address, ok := first, true;
      var value: Word := 0;
      for i := 0 to 16
        invariant Valid()
        invariant M.LoadList(M.Walk(State(), address, ok), value, ins, i, up, usr) ==
                  M.LoadList(M.Walk(old(State()), first, true), 0, ins, 0, up, usr)
      {
        if Listed(ins, i) {
          var loaded := mem.ReadWord(hostBig, address);
          if loaded.Some? { value := loaded.value; }
          ok := ok && loaded.Some?;
          WriteLoaded(i, value, usr);
          address := M.NextAddress(up, address);
        }
      }
    }

    method WriteLoaded(i: Reg4, value: Word, usr: bool)
      requires Valid()
      modifies reg.cells
      ensures Valid() && State() == M.WriteLoaded(old(State()), i, value, usr)
    {
      var kept: int := value;
      if i == 15 { kept := kept - kept % 4; }
      if usr { WriteUsrRegister(i, kept); } else { WriteRegister(i, kept); }
    }

    method FinishMultiple(ins: Word, address: Word, ok: bool) returns (status: M.Status)
      requires Valid()
      modifies reg.cells
      ensures Valid()
      ensures M.Outcome(status, State()) == M.FinishMultiple(M.Walk(old(State()), address, ok), ins)
    {
      if Bit21(ins) {
        WriteRegister(Rn(ins), if Bit24(ins) then M.NextAddress(!Bit23(ins), address) else address);
      }
      status := M.Done(if ok then 0 else M.DATA_ABORT);
    }

    method StoreMultiple(ins: Word) returns (status: M.Status)
      requires Valid()
      modifies reg.cells, mem.bytes
      ensures Valid() && M.Outcome(status, State()) == M.StoreMultiple(old(State()), ins)
    {
      var base := ReadRegister(Rn(ins));
      var address, ok := StoreList(ins, M.FirstAddress(ins, base), Bit23(ins), Bit22(ins));
      status := FinishMultiple(ins, address, ok);
    }

    method LoadMultiple(ins: Word) returns (status: M.Status)
      requires Valid()
      modifies reg.cells
      ensures Valid() && M.Outcome(status, State()) == M.LoadMultiple(old(State()), ins)
    {
      var base := ReadRegister(Rn(ins));
      var address, ok := M.FirstAddress(ins, base), true;
      if Bit22(ins) && Listed(ins, 15) {
        var has := CurrentModeHasSpsr();
        if !has { return M.Crash; }
        var spsr := ReadSpsr();
        WriteCpsr(spsr);
      } else {
        address, ok := LoadList(ins, address, Bit23(ins), Bit22(ins));
      }
      status := FinishMultiple(ins, address, ok);
    }

    // ---- Dispatch ---------------------------------------------------------------------------------------

    method Execute(ins: Word) returns (status: M.Status)
      requires Valid()
      modifies reg.cells, mem.bytes
      ensures Valid() && M.Outcome(status, State()) == M.Execute(old(State()), ins)
    {
      status := M.Done(0);
      match Group(ins) {
        case 0 =>
          if Bit7(ins) && Bit4(ins) {
            status := LoadStore(ins);
          } else if Bit24(ins) && !Bit23(ins) && !Bit20(ins) && !Bit4(ins) {
            status := Miscellaneous(ins);
          } else {
            DataProcessing(ins);
          }
        case 1 => DataProcessing(ins);
        case 2 => status := LoadStore(ins);
        case 3 => status := LoadStore(ins);
        case 4 =>
          if Bit20(ins) {
            status := LoadMultiple(ins);
          } else {
            status := StoreMultiple(ins);
          }
        case 5 => Branch(ins);
        case 7 => status := CoprocessorOrSwi(ins);
        case _ => status := M.Done(M.UNDEFINED_INSTRUCTION);
      }
    }

    /** arm_execute_instruction. */
    method ExecuteInstruction() returns (status: M.Status)
      requires Valid()
      modifies this`cycleCount, reg.cells, mem.bytes
      ensures Valid() && M.Outcome(status, State()) == M.ExecuteInstruction(old(State()))
    {
      var fetched := Fetch();
      if fetched.None? { return M.Done(-1); }
      var cpsr := ReadCpsr();
      if !ConditionPassed(cpsr, Cond(fetched.value)) { return M.Done(0); }
      status := Execute(fetched.value);
    }

    /** arm_step. */
    method Step() returns (status: M.Status)
      requires Valid()
      modifies this`cycleCount, reg.cells, mem.bytes
      ensures Valid() && M.Outcome(status, State()) == M.Step(old(State()))
    {
      status := ExecuteInstruction();
      if status.Done? && status.code != 0 {
        Exception(status.code % 0x100);
      }
    }
  }
}
