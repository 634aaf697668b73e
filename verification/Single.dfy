/** Branches and single loads and stores: what each does, and a store undone by its load. */
module Single {
  import opened Words
  import opened Banking
  import opened Memory
  import opened Instruction
  import opened Machine
  import Shifter
  import Arith

  // ---- Branches --------------------------------------------------------------------------------------

  /** The 24-bit field as a two's complement number. */
  function Signed24(ins: Word): int {
    if Imm24(ins) >= 0x80_0000 then Imm24(ins) - 0x100_0000 else Imm24(ins)
  }

  lemma OffsetIsSigned(ins: Word)
    ensures BranchOffset(ins) == Wrap(4 * Signed24(ins))
  {
    if Imm24(ins) >= 0x80_0000 {
      Arith.DivShifts(4 * Signed24(ins), 0x1_0000_0000, 4);
    }
  }

  /**
   * A branch at word address a, fetched so that the PC is at a + 4, goes four times the signed
   * field beyond a + 8; with the link bit r14 holds a + 4. Nothing else changes.
   */
  lemma BranchIsRelative(s: State, ins: Word, a: nat)
    requires s.cells[CellFor(s.mode, 15)] == a + 4 && a % 4 == 0 && a + 8 < 0x1_0000_0000
    ensures var pc := Wrap(a + 8 + 4 * Signed24(ins));
            Branch(s, ins) ==
            if Bit24(ins) then WriteReg(WriteReg(s, 14, a + 4), 15, pc) else WriteReg(s, 15, pc)
  {
    hide PcRead, BranchOffset, Imm24;
    OffsetIsSigned(ins);
    Arith.ModAbsorbs(a + 8, 4 * Signed24(ins), 0x1_0000_0000);
    PcReadAligned(a + 4);
    assert ReadReg(s, 15) == a + 8;
    assert ReadReg(WriteReg(s, 14, a + 4), 15) == a + 8;
  }

  lemma PcReadAligned(raw: Word)
    requires raw % 4 == 0 && raw + 4 < 0x1_0000_0000
    ensures PcRead(raw) == raw + 4
  {
  }

  // ---- Offsets ---------------------------------------------------------------------------------------

  /** A scaled register offset is the shifter operand of the same fields, so it is the architecture's. */
  lemma ScaledOffsetIsPrescribed(s: State, ins: Word)
    requires Bit25(ins)
    ensures var c := FlagC(ReadCpsr(s));
            var rm := ReadReg(s, Rm(ins));
            && DecodeOff(s, ins) == Shifter.DecodeImmediateShift(ShiftKind(ins), ShiftImm(ins), rm, c).value
            && (ShiftKind(ins) < 3 || ShiftImm(ins) > 0 ==>
                  DecodeOff(s, ins) ==
                  Shifter.Shifted(ShiftKind(ins), rm, if ShiftImm(ins) == 0 && ShiftKind(ins) != 0 then 32 else ShiftImm(ins), c).value)
  {
    var rm, kind, k := ReadReg(s, Rm(ins)), ShiftKind(ins), ShiftImm(ins);
    if (ins / 0x10) % 0x100 == 0 {
      ZeroFields(ins);
    }
    if k == 0 {
      assert Shifter.ShiftLeft(rm, 0) == rm;
    }
    if kind < 3 || k > 0 {
      Shifter.ImmediateShiftIsPrescribed(kind, k, rm, FlagC(ReadCpsr(s)));
    }
  }

  lemma ZeroFields(ins: Word)
    requires (ins / 0x10) % 0x100 == 0
    ensures ShiftKind(ins) == 0 && ShiftImm(ins) == 0
  {
    hide ShiftKind, ShiftImm;
    Arith.DivMod(ins, 0x10);
    Arith.DivMod(ins / 0x10, 0x100);
    var m, r := ins / 0x10 / 0x100, ins % 0x10;
    assert ins == 0x1000 * m + r;
    ZeroShiftKind(ins, m, r);
    ZeroShiftImm(ins, m, r);
  }

  lemma ZeroShiftKind(ins: Word, m: nat, r: nat)
    requires r < 0x10 && ins == 0x1000 * m + r
    ensures ShiftKind(ins) == 0
  {
    Arith.DivisionIsUnique(ins, 0x20, 128 * m, r);
    Arith.DivisionIsUnique(128 * m, 4, 32 * m, 0);
  }

  lemma ZeroShiftImm(ins: Word, m: nat, r: nat)
    requires r < 0x10 && ins == 0x1000 * m + r
    ensures ShiftImm(ins) == 0
  {
    Arith.DivisionIsUnique(ins, 0x80, 32 * m, r);
    Arith.DivisionIsUnique(32 * m, 32, m, 0);
  }

  // ---- Addresses -------------------------------------------------------------------------------------

  /** The indexed address of sections A5.2 and A5.3: the base plus or minus the offset, modulo 2^32. */
  function PrescribedIndexed(s: State, ins: Word, off: Word): Word {
    var base := ReadReg(s, Rn(ins));
    if Bit23(ins) then Wrap(base + off) else Wrap(base - off)
  }

  /** The address accessed: the indexed one with bit 24, whatever bit 21 says, and the base without it. */
  function PrescribedAddress(s: State, ins: Word, off: Word): Word {
    if Bit24(ins) then PrescribedIndexed(s, ins, off) else ReadReg(s, Rn(ins))
  }

  /** The base is written except for an offset address: bit 24 without bit 21. */
  predicate WritesBack(ins: Word) { !(Bit24(ins) && !Bit21(ins)) }

  function Based(s: State, ins: Word, indexed: Word): State {
    if WritesBack(ins) then WriteReg(s, Rn(ins), indexed) else s
  }

  /** The program's addresses are those, for all four settings of bits 24 and 21. */
  lemma AddressesArePrescribed(s: State, t: State, ins: Word, off: Word)
    ensures Indexed(s, ins, off) == PrescribedIndexed(s, ins, off)
    ensures AccessAddress(s, ins, off) == PrescribedAddress(s, ins, off)
    ensures WriteBack(t, ins, off) == Based(t, ins, off)
  {
    hide ReadReg, Rn, Bit21, Bit23, Bit24, Wrap, WriteReg;
  }

  // ---- Half-word accesses ------------------------------------------------------------------------------

  /** The offset of a half-word access as section A5.3 of the manual has it: an immediate when bit 22 is set. */
  function PrescribedOffH(s: State, ins: Word): Word {
    if Bit22(ins) then Rs(ins) * 16 + Rm(ins) else ReadReg(s, Rm(ins))
  }

  /** The program takes bit 22 the other way round, so it is right only if both readings agree. */
  lemma HalfOffsetRightIff(s: State, ins: Word)
    ensures DecodeOffH(s, ins) == PrescribedOffH(s, ins) <==> ReadReg(s, Rm(ins)) == Rs(ins) * 16 + Rm(ins)
  {
  }

  /** ldrh r0, [r1, #2] with r2 = 0: the program adds r2, the manual 2. */
  lemma HalfOffsetFails(s: State)
    requires ReadReg(s, 2) == 0
    ensures DecodeOffH(s, 0xE1D1_00B2) == 0 && PrescribedOffH(s, 0xE1D1_00B2) == 2
  {
    hide ReadReg;
    var ins: Word := 0xE1D1_00B2;
    assert Bit22(ins) && Rm(ins) == 2 && Rs(ins) == 0;
  }

  /**
   * Addressing mode 3 in its single forms: STRH, LDRH, LDRSB and LDRSH. Bit 5 tells a half-word
   * from a byte, bit 6 a signed load; with neither the word is a multiply or a swap, and bit 6
   * without bit 20 makes a double-word transfer (see module Misread).
   */
  predicate IsHalfAccess(ins: Word) {
    && Group(ins) == 0 && Bit7(ins) && Bit4(ins)
    && (Bit5(ins) || Bit6(ins)) && (Bit6(ins) ==> Bit20(ins))
  }

  /** What the manual's load of address a yields: a half-word or a signed byte or half-word. */
  function PrescribedLoaded(s: State, ins: Word, a: Word): Option<Word> {
    if Bit5(ins) then
      if a + 2 > |s.ram| then None
      else
        var v := HalfAt(s.ram, s.big, a);
        Some(if Bit6(ins) && v >= 0x8000 then v + 0xFFFF_0000 else v)
    else if a >= |s.ram| then None
    else
      var v: int := s.ram[a];
      Some(if v >= 0x80 then v + 0xFFFF_FF00 else v)
  }

  /** The manual's outcome, with the base written back before an abort as the program does. */
  function PrescribedHalfAccess(s: State, ins: Word): Outcome {
    var off := PrescribedOffH(s, ins);
    var a, indexed := PrescribedAddress(s, ins, off), PrescribedIndexed(s, ins, off);
    if Bit20(ins) then AfterLoad(s, ins, indexed, PrescribedLoaded(s, ins, a)) else AfterStoreHalf(s, ins, indexed, a)
  }

  /** The outcome of storing the low half of the register in bits 15 to 12 at an address. */
  function AfterStoreHalf(s: State, ins: Word, indexed: Word, a: Word): Outcome {
    if a + 2 > |s.ram| then Outcome(Done(DATA_ABORT), Based(s, ins, indexed))
    else
      var ram := PutHalf(s.ram, s.big, a, ReadReg(s, Rd(ins)) % 0x1_0000);
      Outcome(Done(0), Based(s.(ram := ram), ins, indexed))
  }

  /** The outcome of a load that yields a given value, or none. */
  function AfterLoad(s: State, ins: Word, indexed: Word, loaded: Option<Word>): Outcome {
    var t := Based(s, ins, indexed);
    if loaded.None? then Outcome(Done(DATA_ABORT), t) else Outcome(Done(0), WriteReg(t, Rd(ins), loaded.value))
  }

  lemma ExecutesHalfAccess(s: State, ins: Word)
    requires Group(ins) == 0 && Bit7(ins) && Bit4(ins)
    ensures var off := DecodeOffH(s, ins);
            var a, indexed := PrescribedAddress(s, ins, off), PrescribedIndexed(s, ins, off);
            Execute(s, ins) ==
            if Bit20(ins) then AfterLoad(s, ins, indexed, LoadHalf(s.ram, s.big, a)) else AfterStoreHalf(s, ins, indexed, a)
  {
    GroupTellsBit26(ins);
    var off := DecodeOffH(s, ins);
    AddressesArePrescribed(s, s, ins, off);
    AddressesArePrescribed(s, s, ins, Indexed(s, ins, off));
    hide Bit26, Bit7, Bit4, Bit20, DecodeOff, DecodeOffH, Indexed, AccessAddress, PrescribedAddress, PrescribedIndexed,
         WriteReg, ReadReg, PutHalf, HalfAt;
  }

  lemma IndexedShowsOffset(s: State, ins: Word, off: Word, other: Word)
    ensures PrescribedIndexed(s, ins, off) == PrescribedIndexed(s, ins, other) <==> off == other
  {
    var base := ReadReg(s, Rn(ins));
    WrapsApart(base + off, base + other);
    WrapsApart(base - off, base - other);
  }

  /** Two loads agree iff they yield the same and, unless the loaded value replaces it, write the same base back. */
  lemma AfterLoadsAgreeIff(s: State, ins: Word, indexed: Word, loaded: Option<Word>, other: Word, right: Option<Word>)
    ensures AfterLoad(s, ins, indexed, loaded) == AfterLoad(s, ins, other, right) <==>
            loaded == right && (WritesBack(ins) && (Rd(ins) != Rn(ins) || loaded.None?) ==> indexed == other)
  {
    hide Bit24, Bit21;
    var n, d := CellFor(s.mode, Rn(ins)), CellFor(s.mode, Rd(ins));
    if Rd(ins) != Rn(ins) { TargetsApart(s.mode, Rd(ins), Rn(ins)); }
    hide CellFor, Rd, Rn;
    var mine, manual := AfterLoad(s, ins, indexed, loaded).s.cells, AfterLoad(s, ins, other, right).s.cells;
    assert WritesBack(ins) && (n != d || loaded.None?) ==> mine[n] == indexed;
    assert WritesBack(ins) && (n != d || right.None?) ==> manual[n] == other;
    assert loaded.Some? ==> mine[d] == loaded.value;
    assert right.Some? ==> manual[d] == right.value;
    if n == d && loaded.Some? {
      assert s.cells[n := indexed][n := loaded.value] == s.cells[n := loaded.value];
      assert s.cells[n := other][n := loaded.value] == s.cells[n := loaded.value];
    }
  }

  lemma TargetsApart(mode: Byte, i: Reg4, j: Reg4)
    requires i != j
    ensures CellFor(mode, i) != CellFor(mode, j)
  {
  }

  /**
   * Every load of addressing mode 3: the whole outcome is the manual's exactly when the half-word
   * at the program's address is the value of the manual's load and the same base is written back.
   */
  lemma HalfLoadRightIff(s: State, ins: Word)
    requires IsHalfAccess(ins) && Bit20(ins)
    ensures var mine, right := DecodeOffH(s, ins), PrescribedOffH(s, ins);
            var loaded := LoadHalf(s.ram, s.big, PrescribedAddress(s, ins, mine));
            Execute(s, ins) == PrescribedHalfAccess(s, ins) <==>
              && loaded == PrescribedLoaded(s, ins, PrescribedAddress(s, ins, right))
              && (WritesBack(ins) && (Rd(ins) != Rn(ins) || loaded.None?) ==>
                    ReadReg(s, Rm(ins)) == Rs(ins) * 16 + Rm(ins))
  {
    var mine, right := DecodeOffH(s, ins), PrescribedOffH(s, ins);
    ExecutesHalfAccess(s, ins);
    HalfOffsetRightIff(s, ins);
    IndexedShowsOffset(s, ins, mine, right);
    hide Execute, DecodeOffH, PrescribedOffH, PrescribedLoaded, LoadHalf, PrescribedIndexed, PrescribedAddress, ReadReg,
         WritesBack, AfterLoad, AfterStoreHalf, Rd, Rn, Rm, Rs, Bit20, IsHalfAccess;
    AfterLoadsAgreeIff(s, ins, PrescribedIndexed(s, ins, mine), LoadHalf(s.ram, s.big, PrescribedAddress(s, ins, mine)),
                       PrescribedIndexed(s, ins, right), PrescribedLoaded(s, ins, PrescribedAddress(s, ins, right)));
  }

  /** The half-word at a is the value of the signed load: it is not negative, and holds no more than the byte. */
  predicate SignIsHarmless(s: State, ins: Word, a: Word) {
    Bit6(ins) ==>
      if Bit5(ins) then a + 2 <= |s.ram| ==> HalfAt(s.ram, s.big, a) < 0x8000
      else a < |s.ram| ==> a + 1 < |s.ram| && s.ram[a + 1] == 0 && s.ram[a] < if s.big then 1 else 0x80
  }

  lemma SameAddressYieldsIff(s: State, ins: Word, a: Word)
    requires IsHalfAccess(ins)
    ensures LoadHalf(s.ram, s.big, a) == PrescribedLoaded(s, ins, a) <==> SignIsHarmless(s, ins, a)
  {
    hide Group, Bit4, Bit5, Bit6, Bit7, Bit20;
  }

  /** At two offsets that differ the same holds of STRH, as long as the base is written back. */
  lemma StoredBaseShows(s: State, ins: Word, off: Word, other: Word)
    requires WritesBack(ins)
    ensures (AfterStoreHalf(s, ins, PrescribedIndexed(s, ins, off), PrescribedAddress(s, ins, off)) ==
             AfterStoreHalf(s, ins, PrescribedIndexed(s, ins, other), PrescribedAddress(s, ins, other))) <==> off == other
  {
    IndexedShowsOffset(s, ins, off, other);
    hide PrescribedIndexed, PrescribedAddress, PutHalf, ReadReg, WritesBack;
    var n := CellFor(s.mode, Rn(ins));
    var x, y := PrescribedIndexed(s, ins, off), PrescribedIndexed(s, ins, other);
    assert AfterStoreHalf(s, ins, x, PrescribedAddress(s, ins, off)).s.cells[n] == x;
    assert AfterStoreHalf(s, ins, y, PrescribedAddress(s, ins, other)).s.cells[n] == y;
  }

  /**
   * A half-word or signed access that writes its base back, and does not load it, ends in the
   * manual's state exactly when the two readings of bit 22 give the same offset and no sign is lost.
   */
  lemma HalfAccessRightIff(s: State, ins: Word)
    requires IsHalfAccess(ins) && WritesBack(ins) && (Bit20(ins) ==> Rd(ins) != Rn(ins))
    ensures Execute(s, ins) == PrescribedHalfAccess(s, ins) <==>
            && ReadReg(s, Rm(ins)) == Rs(ins) * 16 + Rm(ins)
            && SignIsHarmless(s, ins, PrescribedAddress(s, ins, PrescribedOffH(s, ins)))
  {
    var mine, right := DecodeOffH(s, ins), PrescribedOffH(s, ins);
    HalfOffsetRightIff(s, ins);
    SameAddressYieldsIff(s, ins, PrescribedAddress(s, ins, right));
    ExecutesHalfAccess(s, ins);
    hide Execute, DecodeOffH, PrescribedOffH, PrescribedLoaded, LoadHalf, PrescribedIndexed, PrescribedAddress, ReadReg,
         WritesBack, AfterLoad, AfterStoreHalf, Rd, Rn, Rm, Rs, Bit20, Bit5, Bit6, Group, Bit7, Bit4, HalfAt;
    if Bit20(ins) {
      HalfLoadRightIff(s, ins);
    } else {
      StoredBaseShows(s, ins, mine, right);
    }
  }

  /** ldrsh r0, [r1], #2, with the offset right because r2 is 2: a negative half-word loses its sign. */
  const LDRSH_R0_R1_2: Word := 0xE0D1_00F2

  lemma SignIsLost(s: State, v: Half)
    requires ReadReg(s, 2) == 2 && LoadHalf(s.ram, s.big, ReadReg(s, 1)) == Some(v) && v >= 0x8000
    ensures IsHalfAccess(LDRSH_R0_R1_2)
    ensures ReadReg(Execute(s, LDRSH_R0_R1_2).s, 0) == v
    ensures ReadReg(PrescribedHalfAccess(s, LDRSH_R0_R1_2).s, 0) == v + 0xFFFF_0000
  {
    var ins := LDRSH_R0_R1_2;
    assert Group(ins) == 0 && Bit7(ins) && Bit4(ins) && Bit5(ins) && Bit6(ins) && Bit20(ins) && !Bit24(ins);
    assert Rn(ins) == 1 && Rd(ins) == 0;
    hide Group, Bit7, Bit4, Bit5, Bit6, Bit20, Bit24, Rn, Rd, Execute, DecodeOffH, PrescribedOffH, PrescribedIndexed;
    ExecutesHalfAccess(s, ins);
  }

  // ---- Stores and loads --------------------------------------------------------------------------------

  function Width(size: Size): nat {
    match size case SizeWord => 4 case SizeHalf => 2 case SizeByte => 1
  }

  /** The part of a register a store of this size transfers. */
  function Narrow(size: Size, v: Word): Word {
    match size case SizeWord => v case SizeHalf => v % 0x1_0000 case SizeByte => v % 0x100
  }

  lemma HalfRoundTrip(ram: Ram, big: bool, a: nat, v: Half)
    requires a + 2 <= |ram|
    ensures HalfAt(PutHalf(ram, big, a, v), big, a) == v
  {
    var (b0, b1) := HostHalfBytes(big, v);
    assert HostHalf(big, b0, b1) == v;
    var r := PutHalf(ram, big, a, v);
    assert r[a] == b0 && r[a + 1] == b1;
  }

  /** What is stored with a size is what a load of that size gives back, narrowed. */
  lemma SizedRoundTrip(s: State, size: Size, a: Word, v: Word)
    requires a + Width(size) <= |s.ram|
    ensures StoreSized(s, size, a, v).Some?
    ensures LoadSized(s.(ram := StoreSized(s, size, a, v).value), size, a) == Some(Narrow(size, v))
  {
    match size
    case SizeWord => ReadAfterWrite(s.ram, s.big, a, v, a);
    case SizeHalf => HalfRoundTrip(s.ram, s.big, a, v % 0x1_0000);
    case SizeByte =>
  }

  /** What memory holds at an address, by size; a byte is itself. */
  function ValueAt(ram: Ram, big: bool, size: Size, a: nat): Word
    requires a + Width(size) <= |ram|
  {
    match size case SizeWord => WordAt(ram, big, a) case SizeHalf => HalfAt(ram, big, a) case SizeByte => ram[a]
  }

  /**
   * A store aborts (code 5) exactly when its bytes are not all in memory. Otherwise memory holds
   * the register, narrowed to the size, at the address. Only those bytes change, and only in a
   * store that does not abort; the base register is written back in either case.
   */
  lemma StoreEffect(s: State, ins: Word, off: Word, size: Size, c: nat)
    requires c < |s.ram|
    ensures var o := Store(s, ins, off, size);
            var a := PrescribedAddress(s, ins, off);
            && o.status == Done(if a + Width(size) <= |s.ram| then 0 else 5)
            && o.s == Based(s, ins, PrescribedIndexed(s, ins, off)).(ram := o.s.ram) && |o.s.ram| == |s.ram|
            && (a + Width(size) <= |s.ram| ==> ValueAt(o.s.ram, s.big, size, a) == Narrow(size, ReadReg(s, Rd(ins))))
            && (o.status != Done(0) || c < a || a + Width(size) <= c ==> o.s.ram[c] == s.ram[c])
  {
    AddressesArePrescribed(s, s, ins, off);
    AddressesArePrescribed(s, s, ins, Indexed(s, ins, off));
    hide Indexed, AccessAddress, PrescribedIndexed, PrescribedAddress, WriteBack, ReadReg;
    var a, v := PrescribedAddress(s, ins, off), ReadReg(s, Rd(ins));
    StoredEffect(s, size, a, v, c);
    hide StoreSized, ValueAt, Narrow;
    BasedLater(s, StoreSized(s, size, a, v), ins, Indexed(s, ins, off));
  }

  lemma StoredEffect(s: State, size: Size, a: Word, v: Word, c: nat)
    requires c < |s.ram|
    ensures var stored := StoreSized(s, size, a, v);
            && (stored.Some? <==> a + Width(size) <= |s.ram|)
            && (stored.Some? ==>
                  && |stored.value| == |s.ram|
                  && ValueAt(stored.value, s.big, size, a) == Narrow(size, v)
                  && (c < a || a + Width(size) <= c ==> stored.value[c] == s.ram[c]))
  {
    if a + Width(size) <= |s.ram| { SizedRoundTrip(s, size, a, v); }
  }

  /** Memory and base are written independently. */
  lemma BasedLater(s: State, stored: Option<Ram>, ins: Word, indexed: Word)
    ensures var t := if stored.Some? then s.(ram := stored.value) else s;
            WriteBack(t, ins, indexed) == Based(s, ins, indexed).(ram := t.ram)
  {
    hide Bit24, Bit21, CellFor, Rn;
  }

  /** The register a load fills, from the value at the address: a word in the PC loses its two low bits. */
  function Filled(size: Size, rd: Reg4, v: Word): Word {
    if size == SizeWord && rd == 15 then v - v % 4 else v
  }

  /**
   * A load aborts (code 5) exactly when its bytes are not all in memory. Otherwise the register
   * receives the value at the address. The base is written back in either case, before the
   * register; no other register and nothing in memory changes.
   */
  lemma LoadEffect(s: State, ins: Word, off: Word, size: Size)
    ensures var o := Load(s, ins, off, size);
            var a := PrescribedAddress(s, ins, off);
            var t := Based(s, ins, PrescribedIndexed(s, ins, off));
            o == if a + Width(size) <= |s.ram|
                 then Outcome(Done(0), WriteReg(t, Rd(ins), Filled(size, Rd(ins), ValueAt(s.ram, s.big, size, a))))
                 else Outcome(Done(5), t)
  {
    AddressesArePrescribed(s, s, ins, off);
    AddressesArePrescribed(s, s, ins, Indexed(s, ins, off));
    hide Indexed, AccessAddress, PrescribedIndexed, PrescribedAddress, WriteBack, Based, ReadReg, Rd, WordAt, HalfAt;
  }

  /**
   * A pre-indexed store with write-back, undone by the post-indexed load in the other direction
   * with the same offset: the base returns and the register receives the stored value, narrowed
   * to the size of the access, whatever happened to the registers in between.
   */
  lemma TransferReturns(s: State, st: Word, t: State, ld: Word, off: Word, size: Size)
    requires Bit24(st) && Bit21(st) && !Bit24(ld) && Bit23(ld) != Bit23(st)
    requires Rn(st) == Rn(ld) && Rn(st) != 15 && Rd(ld) != Rn(ld) && Rd(ld) != 15
    requires Store(s, st, off, size).status == Done(0)
    requires var after := Store(s, st, off, size).s;
             t.mode == s.mode && t.big == s.big && t.ram == after.ram && ReadReg(t, Rn(ld)) == ReadReg(after, Rn(ld))
    ensures var o := Load(t, ld, off, size);
            && o.status == Done(0)
            && ReadReg(o.s, Rd(ld)) == Narrow(size, ReadReg(s, Rd(st)))
            && ReadReg(o.s, Rn(ld)) == ReadReg(s, Rn(st))
  {
    var a := Indexed(s, st, off);
    StoreAddressFits(s, st, off, size);
    SizedRoundTrip(s, size, a, ReadReg(s, Rd(st)));
    WrittenBack(s, st, off, size);
    assert AccessAddress(t, ld, off) == a;
    assert LoadSized(t, size, a) == Some(Narrow(size, ReadReg(s, Rd(st))));
    IndexReturns(ReadReg(s, Rn(st)), off, Bit23(st));
    LoadResult(t, ld, off, size, Narrow(size, ReadReg(s, Rd(st))));
  }

  lemma StoreAddressFits(s: State, st: Word, off: Word, size: Size)
    requires Store(s, st, off, size).status == Done(0)
    ensures AccessAddress(s, st, off) + Width(size) <= |s.ram|
  {
  }

  lemma WrittenBack(s: State, st: Word, off: Word, size: Size)
    requires Bit24(st) && Bit21(st) && Rn(st) != 15
    ensures ReadReg(Store(s, st, off, size).s, Rn(st)) == Indexed(s, st, off)
  {
  }

  /** Adding and subtracting the same offset modulo 2^32 gives the base back. */
  lemma IndexReturns(base: Word, off: Word, up: bool)
    ensures var there: int := Wrap(if up then base + off else base - off);
            Wrap(if up then there - off else there + off) == base
  {
  }

  lemma LoadResult(t: State, ld: Word, off: Word, size: Size, v: Word)
    requires !Bit24(ld) && Rn(ld) != 15 && Rd(ld) != Rn(ld) && Rd(ld) != 15
    requires LoadSized(t, size, AccessAddress(t, ld, off)) == Some(v)
    ensures var o := Load(t, ld, off, size);
            o.status == Done(0) && ReadReg(o.s, Rd(ld)) == v && ReadReg(o.s, Rn(ld)) == Indexed(t, ld, off)
  {
  }

  // ---- The same at the level of instructions ---------------------------------------------------------------

  /** The size that a single transfer's bits select. */
  function DecodedSize(ins: Word): Size {
    if !Bit26(ins) then SizeHalf else if Bit22(ins) then SizeByte else SizeWord
  }

  /** The offset that a single transfer's bits and registers select. */
  function DecodedOffset(s: State, ins: Word): Word {
    if Bit26(ins) then DecodeOff(s, ins) else DecodeOffH(s, ins)
  }

  /** Single transfers: the two groups of words and bytes, and the extra ones in group 0. */
  predicate IsTransfer(ins: Word) {
    Group(ins) == 2 || Group(ins) == 3 || (Group(ins) == 0 && Bit7(ins) && Bit4(ins))
  }

  lemma GroupTellsBit26(ins: Word)
    ensures (Group(ins) == 0 ==> !Bit26(ins)) && (Group(ins) == 2 || Group(ins) == 3 ==> Bit26(ins))
  {
    var q := ins / 0x200_0000;
    assert ins / 0x400_0000 == q / 2;
  }

  /** A single transfer is executed as the load or store that bit 20 names, of the size and offset its bits select. */
  lemma ExecutesTransfer(s: State, ins: Word)
    requires IsTransfer(ins)
    ensures Execute(s, ins) ==
            if Bit20(ins) then Load(s, ins, DecodedOffset(s, ins), DecodedSize(ins))
            else Store(s, ins, DecodedOffset(s, ins), DecodedSize(ins))
  {
    GroupTellsBit26(ins);
    hide Load, Store, DecodeOff, DecodeOffH, Bit26, Bit22, Bit20, Bit7, Bit4;
  }

  /**
   * A store instruction undone by a load instruction: pre-indexed with write-back, then
   * post-indexed in the other direction, with the same size and an offset of the same value. The
   * base returns and the loaded register receives the stored value, narrowed to the size.
   */
  lemma StoreThenLoad(s: State, st: Word, t: State, ld: Word)
    requires IsTransfer(st) && IsTransfer(ld) && !Bit20(st) && Bit20(ld) && DecodedSize(st) == DecodedSize(ld)
    requires DecodedOffset(s, st) == DecodedOffset(t, ld)
    requires Bit24(st) && Bit21(st) && !Bit24(ld) && Bit23(ld) != Bit23(st)
    requires Rn(st) == Rn(ld) && Rn(st) != 15 && Rd(ld) != Rn(ld) && Rd(ld) != 15
    requires Execute(s, st).status == Done(0)
    requires var after := Execute(s, st).s;
             t.mode == s.mode && t.big == s.big && t.ram == after.ram && ReadReg(t, Rn(ld)) == ReadReg(after, Rn(ld))
    ensures var o := Execute(t, ld);
            && o.status == Done(0)
            && ReadReg(o.s, Rd(ld)) == Narrow(DecodedSize(st), ReadReg(s, Rd(st)))
            && ReadReg(o.s, Rn(ld)) == ReadReg(s, Rn(st))
  {
    hide Execute, Load, Store, DecodedOffset, DecodedSize, ReadReg;
    ExecutesTransfer(s, st);
    ExecutesTransfer(t, ld);
    TransferReturns(s, st, t, ld, DecodedOffset(s, st), DecodedSize(st));
  }
}
