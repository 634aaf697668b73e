/**
 * Where load and store multiple put the words, against section A5.4 of the ARM Architecture
 * Reference Manual: the lowest register at the lowest address, in all four addressing modes.
 */
module Layout {
  import opened Words
  import opened Banking
  import opened Memory
  import opened Instruction
  import opened Machine
  import opened Multiple
  import DP = DataProcessing

  // ---- Addresses -------------------------------------------------------------------------------------

  /**
   * The manual's address for the register of rank r among n: ascending from the base (IA) or one
   * word above it (IB); or ending at the base (DA) or one word below it (DB).
   */
  function PrescribedAddr(up: bool, before: bool, base: Word, n: nat, r: int): Word {
    if up then Wrap(base + (if before then 4 else 0) + 4 * r)
    else Wrap(base - 4 * n + (if before then 0 else 4) + 4 * r)
  }

  /** The two low bits of an address are ignored (section A4.1). */
  function Aligned(a: Word): Word {
    a - a % 4
  }

  function PrescribedPlace(s: State, ins: Word, j: nat): Word {
    Aligned(PrescribedAddr(Bit23(ins), Bit24(ins), ReadReg(s, Rn(ins)), Count(ins), Rank(ins, j)))
  }

  predicate BaseAligned(s: State, ins: Word) {
    ReadReg(s, Rn(ins)) % 4 == 0
  }

  /** An address of the list has the two low bits of the base. */
  lemma LowBitsOfAddr(up: bool, before: bool, base: Word, n: nat, r: int)
    ensures PrescribedAddr(up, before, base, n, r) % 4 == base % 4
  {
    var k := (if before == up then 1 else 0) + r - (if up then 0 else n);
    assert PrescribedAddr(up, before, base, n, r) == Wrap(base + 4 * k);
    Arith.DivMod(base + 4 * k, 0x1_0000_0000);
    Arith.DivShifts(base, 4, k - 0x4000_0000 * ((base + 4 * k) / 0x1_0000_0000));
  }

  /** The program's address for rank r, in closed form. */
  function ProgramAddr(up: bool, before: bool, base: Word, r: int): Word {
    Addr(if before then NextAddress(up, base) else base, up, r)
  }

  lemma ProgramAddrClosed(up: bool, before: bool, base: Word, r: int)
    ensures var k := r + (if before then 1 else 0);
            ProgramAddr(up, before, base, r) == Wrap(if up then base + 4 * k else base - 4 * k)
  {
    if before { NextIsAddr(base, up, r); }
  }

  /** The manual's place of rank r is the program's place of r when ascending, and of n - 1 - r when descending. */
  lemma PrescribedIsMirrored(up: bool, before: bool, base: Word, n: nat, r: int)
    ensures PrescribedAddr(up, before, base, n, r) == ProgramAddr(up, before, base, if up then r else n - 1 - r)
  {
    ProgramAddrClosed(up, before, base, if up then r else n - 1 - r);
  }

  /** Two of at most sixteen program addresses coincide only for the same rank. */
  lemma SameAddrSameRank(up: bool, before: bool, base: Word, a: int, b: int)
    requires -16 <= a - b <= 16
    ensures ProgramAddr(up, before, base, a) == ProgramAddr(up, before, base, b) <==> a == b
  {
    if a != b {
      AddressesApart(if before then NextAddress(up, base) else base, up, a, b);
    }
  }

  /** The place of a register of the list is the program's address for its rank. */
  lemma PlaceIsProgramAddr(s: State, ins: Word, j: nat)
    ensures Place(Start(s, ins), ins, 0, Bit23(ins), j) ==
            ProgramAddr(Bit23(ins), Bit24(ins), ReadReg(s, Rn(ins)), Rank(ins, j))
  {
    hide Addr, NextAddress, ReadReg;
    assert Rank(ins, 0) == 0;
  }

  /**
   * One register of an STM or LDM has the manual's address exactly when the base is word aligned
   * and the mode ascends or the register is the middle one of the list.
   */
  lemma PlaceIsPrescribedIff(s: State, ins: Word, j: Reg4)
    requires Listed(ins, j)
    ensures Place(Start(s, ins), ins, 0, Bit23(ins), j) == PrescribedPlace(s, ins, j) <==>
            BaseAligned(s, ins) && (Bit23(ins) || 2 * Rank(ins, j) == Count(ins) - 1)
  {
    var n, r := Count(ins), Rank(ins, j);
    var base, up, before := ReadReg(s, Rn(ins)), Bit23(ins), Bit24(ins);
    assert Rank(ins, 0) == 0;
    hide Rank, Place, Start, ProgramAddr, PrescribedAddr, Aligned, Listed, ReadReg, Rn, Bit23, Bit24;
    RankMonotone(ins, 0, 16);
    RankMonotone(ins, j, 16);
    PlaceIsProgramAddr(s, ins, j);
    var mirror := if up then r else n - 1 - r;
    PrescribedIsMirrored(up, before, base, n, r);
    PrescribedIsMirrored(up, before, base, n, mirror);
    LowBitsOfAddr(up, before, base, n, r);
    LowBitsOfAddr(up, before, base, n, mirror);
    AlignedIff(ProgramAddr(up, before, base, r), ProgramAddr(up, before, base, mirror));
    SameAddrSameRank(up, before, base, r, mirror);
  }

  lemma AlignedIff(a: Word, b: Word)
    requires a % 4 == b % 4
    ensures a == Aligned(b) <==> a == b && a % 4 == 0
  {
  }

  /** With an aligned base the program's place of j is the manual's place of j, or of its mirror. */
  lemma PrescribedOfMirror(s: State, ins: Word, j: Reg4, m: Reg4)
    requires BaseAligned(s, ins) && (if Bit23(ins) then m == j else Mirrored(ins, j, m))
    ensures PrescribedPlace(s, ins, m) == Place(Start(s, ins), ins, 0, Bit23(ins), j)
  {
    var up, before, base, n := Bit23(ins), Bit24(ins), ReadReg(s, Rn(ins)), Count(ins);
    LowBitsOfAddr(up, before, base, n, Rank(ins, m));
    PrescribedIsMirrored(up, before, base, n, Rank(ins, m));
    hide ProgramAddr, PrescribedAddr, Place, Start, ReadReg, Rank, Listed, Rn, Bit23, Bit24;
    PlaceIsProgramAddr(s, ins, j);
  }

  /** The register whose place in the program is the manual's place of j. */
  lemma PrescribedIsPlaceOf(s: State, ins: Word, j: Reg4) returns (m: Reg4)
    requires Listed(ins, j) && BaseAligned(s, ins)
    ensures Listed(ins, m) && (if Bit23(ins) then m == j else Mirrored(ins, j, m))
    ensures PrescribedPlace(s, ins, j) == Place(Start(s, ins), ins, 0, Bit23(ins), m)
  {
    m := j;
    if !Bit23(ins) { m := MirrorOf(ins, j); }
    PrescribedOfMirror(s, ins, m, j);
  }

  // ---- Storing -----------------------------------------------------------------------------------------

  /** The places as a set are the manual's, so all of them are in memory together. */
  lemma PlacesAreInside(s: State, ins: Word)
    requires BaseAligned(s, ins)
    ensures (forall j: Reg4 :: Listed(ins, j) ==> Inside(Start(s, ins), ins, 0, Bit23(ins), j)) <==>
            (forall j: Reg4 :: Listed(ins, j) ==> PrescribedPlace(s, ins, j) + 4 <= |s.ram|)
  {
    var up, w := Bit23(ins), Start(s, ins);
    hide Rank, Addr, FirstAddress, PrescribedPlace;
    if forall j: Reg4 :: Listed(ins, j) ==> Inside(w, ins, 0, up, j) {
      forall j: Reg4 | Listed(ins, j) ensures PrescribedPlace(s, ins, j) + 4 <= |s.ram| {
        var m := PrescribedIsPlaceOf(s, ins, j);
        assert Inside(w, ins, 0, up, m);
      }
    }
    if forall j: Reg4 :: Listed(ins, j) ==> PrescribedPlace(s, ins, j) + 4 <= |s.ram| {
      forall j: Reg4 | Listed(ins, j) ensures Inside(w, ins, 0, up, j) {
        var m := j;
        if !up { m := MirrorOf(ins, j); }
        PrescribedOfMirror(s, ins, j, m);
      }
    }
  }

  /** All the manual's addresses are in memory. */
  ghost predicate AllInside(s: State, ins: Word) {
    forall j: Reg4 :: Listed(ins, j) ==> PrescribedPlace(s, ins, j) + 4 <= |s.ram|
  }

  /**
   * STM aborts exactly when one of the manual's addresses is outside memory, and so does LDM; the
   * return form looks at no address and succeeds in every mode with an SPSR.
   */
  lemma AbortsAsPrescribed(s: State, ins: Word)
    requires BaseAligned(s, ins) && (IsStm(ins) || IsLdm(ins))
    ensures Execute(s, ins).status == Done(0) <==>
            if IsLdm(ins) && ReturnForm(ins) then HasSpsr(s) else AllInside(s, ins)
  {
    hide Execute, Inside, PrescribedPlace;
    PlacesAreInside(s, ins);
    if IsLdm(ins) { LoadMultipleSucceedsIff(s, ins); } else { StoreMultipleEffect(s, ins); }
  }

  /** What memory holds at the manual's place of j after a successful STM. */
  lemma StoredAtPrescribed(s: State, ins: Word, j: Reg4, m: Reg4)
    requires IsStm(ins) && Execute(s, ins).status == Done(0) && BaseAligned(s, ins)
    requires Listed(ins, j) && (if Bit23(ins) then m == j else Mirrored(ins, j, m))
    ensures var a := PrescribedPlace(s, ins, j);
            && a + 4 <= |Execute(s, ins).s.ram|
            && WordAt(Execute(s, ins).s.ram, s.big, a) == Source(s, Bit22(ins), m)
  {
    hide Execute, WordAt, Source, PrescribedPlace, Place, Start, Rank;
    PrescribedOfMirror(s, ins, m, j);
    StoreMultipleEffect(s, ins);
    StoreMultipleStores(s, ins, m);
  }

  /** After a successful STM every listed register's value is at its address in the manual. */
  ghost predicate StoredAsPrescribed(s: State, ins: Word) {
    var ram := Execute(s, ins).s.ram;
    forall j: Reg4 :: Listed(ins, j) ==>
      && PrescribedPlace(s, ins, j) + 4 <= |ram|
      && WordAt(ram, s.big, PrescribedPlace(s, ins, j)) == Source(s, Bit22(ins), j)
  }

  /** The values of the list read the same in both directions. */
  ghost predicate SourcesSymmetric(s: State, ins: Word) {
    forall j: Reg4, m: Reg4 :: Mirrored(ins, j, m) ==> Source(s, Bit22(ins), j) == Source(s, Bit22(ins), m)
  }

  /** From an aligned base STM lays memory out as the manual does exactly when it ascends or the values are symmetric. */
  lemma StoredAsPrescribedIff(s: State, ins: Word)
    requires IsStm(ins) && Execute(s, ins).status == Done(0) && BaseAligned(s, ins)
    ensures StoredAsPrescribed(s, ins) <==> Bit23(ins) || SourcesSymmetric(s, ins)
  {
    if Bit23(ins) || SourcesSymmetric(s, ins) {
      forall j: Reg4 | Listed(ins, j)
        ensures var ram := Execute(s, ins).s.ram;
                && PrescribedPlace(s, ins, j) + 4 <= |ram|
                && WordAt(ram, s.big, PrescribedPlace(s, ins, j)) == Source(s, Bit22(ins), j)
      {
        var m := PrescribedIsPlaceOf(s, ins, j);
        StoredAtPrescribed(s, ins, j, m);
      }
    }
    if StoredAsPrescribed(s, ins) && !Bit23(ins) {
      forall j: Reg4, m: Reg4 | Mirrored(ins, j, m)
        ensures Source(s, Bit22(ins), j) == Source(s, Bit22(ins), m)
      {
        StoredAtPrescribed(s, ins, j, m);
      }
    }
  }

  // ---- Loading -----------------------------------------------------------------------------------------

  /** The cell LDM loads register j into: the user bank's with bit 22, the current one's in the return form. */
  function LoadedCell(t: State, ins: Word, j: Reg4): (k: nat)
    ensures k < 37
  {
    Target(t, Bit22(ins) && !ReturnForm(ins), j)
  }

  /** No listed register is the base of a load that writes its base back. */
  ghost predicate BaseNotLoaded(t: State, ins: Word) {
    Bit21(ins) ==> forall j: Reg4 :: Listed(ins, j) ==> LoadedCell(t, ins, j) != BaseCell(t, ins)
  }

  /** The word at the program's place of j. */
  function PlacedWord(t: State, ins: Word, j: Reg4): Word
    requires Inside(Start(t, ins), ins, 0, Bit23(ins), j)
  {
    WordAt(t.ram, t.big, Place(Start(t, ins), ins, 0, Bit23(ins), j))
  }

  /** These registers hold the words from their addresses in the manual. */
  ghost predicate HoldPrescribed(t: State, ins: Word, cells: Cells) {
    forall j: Reg4 :: Listed(ins, j) ==>
      && PrescribedPlace(t, ins, j) + 4 <= |t.ram|
      && cells[LoadedCell(t, ins, j)] == Kept(j, WordAt(t.ram, t.big, PrescribedPlace(t, ins, j)))
  }

  /** The words in memory read the same in both directions, up to the bits the program counter drops. */
  ghost predicate WordsSymmetric(t: State, ins: Word)
    requires forall j: Reg4 :: Listed(ins, j) ==> Inside(Start(t, ins), ins, 0, Bit23(ins), j)
  {
    forall j: Reg4, m: Reg4 :: Mirrored(ins, j, m) ==> Kept(j, PlacedWord(t, ins, j)) == Kept(j, PlacedWord(t, ins, m))
  }

  lemma LoadIsInside(t: State, ins: Word)
    requires IsLdm(ins) && !ReturnForm(ins) && Execute(t, ins).status == Done(0)
    ensures forall j: Reg4 :: Listed(ins, j) ==> Inside(Start(t, ins), ins, 0, Bit23(ins), j)
  {
    LoadMultipleSucceedsIff(t, ins);
  }

  /**
   * After a successful LDM from an aligned base, the listed registers hold what the manual loads
   * exactly when the mode ascends or the words are symmetric; in the return form, which loads
   * nothing, exactly when they held it before.
   */
  lemma LoadedAsPrescribedIff(t: State, ins: Word)
    requires IsLdm(ins) && Execute(t, ins).status == Done(0) && BaseAligned(t, ins) && BaseNotLoaded(t, ins)
    ensures !ReturnForm(ins) ==> forall j: Reg4 :: Listed(ins, j) ==> Inside(Start(t, ins), ins, 0, Bit23(ins), j)
    ensures HoldPrescribed(t, ins, Execute(t, ins).s.cells) <==>
            if ReturnForm(ins) then HoldPrescribed(t, ins, t.cells) else Bit23(ins) || WordsSymmetric(t, ins)
  {
    if ReturnForm(ins) {
      ReturnFormKeepsRegisters(t, ins);
    } else {
      LoadIsInside(t, ins);
      LoadingFormIff(t, ins);
    }
  }

  lemma ReturnFormKeepsRegisters(t: State, ins: Word)
    requires IsLdm(ins) && ReturnForm(ins) && HasSpsr(t) && BaseNotLoaded(t, ins)
    ensures HoldPrescribed(t, ins, Execute(t, ins).s.cells) <==> HoldPrescribed(t, ins, t.cells)
  {
    ReturnFormLoadsNothing(t, ins);
    hide Execute, PrescribedPlace, Kept, WordAt, ReadReg, ReadSpsr;
    forall j: Reg4 | Listed(ins, j)
      ensures Execute(t, ins).s.cells[LoadedCell(t, ins, j)] == t.cells[LoadedCell(t, ins, j)]
    {
    }
  }

  lemma LoadingFormIff(t: State, ins: Word)
    requires IsLdm(ins) && !ReturnForm(ins) && BaseAligned(t, ins) && BaseNotLoaded(t, ins)
    requires forall j: Reg4 :: Listed(ins, j) ==> Inside(Start(t, ins), ins, 0, Bit23(ins), j)
    ensures HoldPrescribed(t, ins, Execute(t, ins).s.cells) <==> Bit23(ins) || WordsSymmetric(t, ins)
  {
    hide Execute, PrescribedPlace, BaseAligned;
    forall j: Reg4 | Listed(ins, j)
      ensures Execute(t, ins).s.cells[LoadedCell(t, ins, j)] == Kept(j, PlacedWord(t, ins, j))
    {
      LoadMultipleLoads(t, ins, j);
    }
    if Bit23(ins) || WordsSymmetric(t, ins) {
      forall j: Reg4 | Listed(ins, j)
        ensures PrescribedPlace(t, ins, j) + 4 <= |t.ram|
        ensures Kept(j, PlacedWord(t, ins, j)) == Kept(j, WordAt(t.ram, t.big, PrescribedPlace(t, ins, j)))
      {
        var m := PrescribedIsPlaceOf(t, ins, j);
      }
    }
    if HoldPrescribed(t, ins, Execute(t, ins).s.cells) && !Bit23(ins) {
      forall j: Reg4, m: Reg4 | Mirrored(ins, j, m)
        ensures Kept(j, PlacedWord(t, ins, j)) == Kept(j, PlacedWord(t, ins, m))
      {
        PrescribedOfMirror(t, ins, m, j);
      }
    }
  }

  // ---- The return form -----------------------------------------------------------------------------------

  /** What the manual's return loads: the PC drops one bit if the status restored selects Thumb, two if not. */
  function ReturnWord(j: Reg4, status: Word, v: Word): Word {
    if j != 15 then v else if (status / 0x20) % 2 == 1 then v - v % 2 else v - v % 4
  }

  /** The state with the listed registers below i loaded as the manual's return loads them. */
  function ReturnLoaded(t: State, ins: Word, i: nat): State
    requires i <= 16 && HasSpsr(t)
  {
    if i == 0 then t
    else
      var u := ReturnLoaded(t, ins, i - 1);
      var w := LoadWord(t.ram, t.big, PrescribedPlace(t, ins, i - 1));
      if Listed(ins, i - 1) && w.Some? then WriteReg(u, i - 1, ReturnWord(i - 1, ReadSpsr(t), w.value)) else u
  }

  /** LDM (3): the registers, the base if it is written back, the CPSR and the mode. */
  function PrescribedReturn(t: State, ins: Word): State
    requires HasSpsr(t)
  {
    var u := ReturnLoaded(t, ins, 16);
    var base := Addr(ReadReg(t, Rn(ins)), Bit23(ins), Count(ins));
    DP.Restored(if Bit21(ins) then WriteReg(u, Rn(ins), base) else u, ReadSpsr(t))
  }

  /** Register j is not listed or already holds what the return loads. */
  predicate AlreadyLoaded(t: State, ins: Word, j: Reg4)
    requires HasSpsr(t)
  {
    var w := LoadWord(t.ram, t.big, PrescribedPlace(t, ins, j));
    Listed(ins, j) && w.Some? ==> t.cells[CellFor(t.mode, j)] == ReturnWord(j, ReadSpsr(t), w.value)
  }

  /** The loading touches exactly the cells of the listed registers. */
  lemma {:induction false} ReturnLoadedCell(t: State, ins: Word, i: nat, j: Reg4)
    requires i <= 16 && HasSpsr(t)
    ensures var u := ReturnLoaded(t, ins, i);
            && u == t.(cells := u.cells)
            && (j >= i ==> u.cells[CellFor(t.mode, j)] == t.cells[CellFor(t.mode, j)])
            && (j < i ==> (u.cells[CellFor(t.mode, j)] == t.cells[CellFor(t.mode, j)] <==> AlreadyLoaded(t, ins, j)))
    decreases i
  {
    hide PrescribedPlace, LoadWord, ReturnWord, ReadSpsr, CellFor, Listed;
    if i > 0 {
      ReturnLoadedCell(t, ins, i - 1, j);
      if i - 1 != j { CellsApart(t.mode, i - 1, j); }
    }
  }

  lemma CellsApart(mode: Byte, i: Reg4, j: Reg4)
    requires i != j
    ensures CellFor(mode, i) != CellFor(mode, j)
  {
  }

  lemma {:induction false} NothingToLoad(t: State, ins: Word, i: nat)
    requires i <= 16 && HasSpsr(t) && forall j: Reg4 :: AlreadyLoaded(t, ins, j)
    ensures ReturnLoaded(t, ins, i) == t
    decreases i
  {
    hide PrescribedPlace, LoadWord, ReturnWord, ReadSpsr, CellFor, Listed;
    if i > 0 {
      NothingToLoad(t, ins, i - 1);
      assert AlreadyLoaded(t, ins, i - 1);
    }
  }

  /** The program does what the manual's return does. */
  ghost predicate ReturnsAsPrescribed(t: State, ins: Word)
    requires HasSpsr(t)
  {
    AllInside(t, ins) && Execute(t, ins) == Outcome(Done(0), PrescribedReturn(t, ins))
  }

  /**
   * The return form is the manual's exactly when there is nothing to do but to copy the SPSR: all
   * addresses are in memory, the base is not written back, every listed register already holds
   * its word, and the SPSR names the mode in force.
   */
  lemma ReturnsAsPrescribedIff(t: State, ins: Word)
    requires IsLdm(ins) && ReturnForm(ins) && HasSpsr(t) && Rn(ins) != 15
    ensures ReturnsAsPrescribed(t, ins) <==>
            && AllInside(t, ins) && !Bit21(ins) && ReadSpsr(t) % 32 == t.mode
            && forall j: Reg4 :: AlreadyLoaded(t, ins, j)
  {
    ReturnFormLoadsNothing(t, ins);
    hide Execute, AllInside, AlreadyLoaded, ReturnLoaded, ReturnForm;
    if Bit21(ins) {
      BaseMoves(t, ins);
    } else {
      if forall j: Reg4 :: AlreadyLoaded(t, ins, j) { NothingToLoad(t, ins, 16); }
      if Execute(t, ins) == Outcome(Done(0), PrescribedReturn(t, ins)) {
        forall j: Reg4 ensures AlreadyLoaded(t, ins, j) {
          RegisterAfterReturn(t, ins, j);
        }
      }
    }
  }

  /** Without write-back register j ends as the loading left it. */
  lemma RegisterAfterReturn(t: State, ins: Word, j: Reg4)
    requires HasSpsr(t) && !Bit21(ins)
    requires PrescribedReturn(t, ins).cells == WriteCpsr(t, ReadSpsr(t)).cells
    ensures AlreadyLoaded(t, ins, j)
  {
    hide AlreadyLoaded, ReturnLoaded, ReadSpsr;
    ReturnLoadedCell(t, ins, 16, j);
    var k := CellFor(t.mode, j);
    assert PrescribedReturn(t, ins).cells[k] == ReturnLoaded(t, ins, 16).cells[k];
    assert WriteCpsr(t, ReadSpsr(t)).cells[k] == t.cells[k];
  }

  /** With write-back the manual's base moves by at least one word, the PC's. */
  lemma BaseMoves(t: State, ins: Word)
    requires ReturnForm(ins) && HasSpsr(t) && Rn(ins) != 15 && Bit21(ins)
    ensures PrescribedReturn(t, ins).cells != WriteCpsr(t, ReadSpsr(t)).cells
  {
    var base := ReadReg(t, Rn(ins));
    RankMonotone(ins, 0, 16);
    RankMonotone(ins, 15, 16);
    AddressesApart(base, Bit23(ins), 0, Count(ins));
    NextIsAddr(base, Bit23(ins), 0);
    ReturnLoadedCell(t, ins, 16, 0);
    hide ReturnLoaded, ReadSpsr, Addr, Rank, Listed, Bit23;
    assert PrescribedReturn(t, ins).cells[BaseCell(t, ins)] == Addr(base, Bit23(ins), Count(ins));
    assert WriteCpsr(t, ReadSpsr(t)).cells[BaseCell(t, ins)] == base;
  }

  /** ldmia r13!, {r0, pc}^, the usual return from an exception. */
  const RETURN_R0_PC: Word := 0xE8FD_8001

  lemma ReturnFields()
    ensures var ins := RETURN_R0_PC;
            IsLdm(ins) && Rn(ins) == 13 && Bit21(ins) && ReturnForm(ins)
  {
    assert Pow2(15) == 0x8000;
  }

  /** In SVC, whatever is on the stack, it loads neither register and does not pop. */
  lemma ReturnFails(t: State)
    requires t.mode == SVC
    ensures Execute(t, RETURN_R0_PC) == Outcome(Done(0), WriteCpsr(t, ReadSpsr(t)))
    ensures !ReturnsAsPrescribed(t, RETURN_R0_PC)
  {
    ReturnFields();
    hide IsLdm, Rn, Bit21, ReturnForm, Execute, ReturnsAsPrescribed;
    ReturnFormLoadsNothing(t, RETURN_R0_PC);
    ReturnsAsPrescribedIff(t, RETURN_R0_PC);
  }

  // ---- One register, and two -----------------------------------------------------------------------------

  /** A list of one register is always laid out as the manual has it. */
  lemma OneRegisterAsPrescribed(s: State, ins: Word)
    requires IsStm(ins) && Count(ins) == 1 && Execute(s, ins).status == Done(0) && BaseAligned(s, ins)
    ensures StoredAsPrescribed(s, ins)
  {
    forall j: Reg4, m: Reg4 | Mirrored(ins, j, m) ensures j == m {
      if j < m {
        RankMonotone(ins, j, m);
      } else if m < j {
        RankMonotone(ins, m, j);
      }
    }
    StoredAsPrescribedIff(s, ins);
  }

  /** The fields of the push: r13 with write-back, descending, before. */
  lemma PushBits()
    ensures var ins := PUSH_R0_R1; IsStm(ins) && Rn(ins) == 13 && Bit21(ins) && !Bit22(ins) && !Bit23(ins) && Bit24(ins)
  {
  }

  /** The fields of the push, and its list: the mirrored pair r0, r1. */
  lemma PushFields()
    ensures var ins := PUSH_R0_R1;
            && IsStm(ins) && Rn(ins) == 13 && Bit21(ins) && !Bit22(ins) && !Bit23(ins) && Bit24(ins)
            && Listed(ins, 0) && Listed(ins, 1) && Mirrored(ins, 0, 1)
            && Rank(ins, 0) == 0 && Rank(ins, 1) == 1 && Count(ins) == 2
  {
    hide Rn, Bit21, Bit22, Bit23, Bit24, Listed, Rank, IsStm;
    PushBits();
    TwoListed(PUSH_R0_R1, 0);
    TwoListed(PUSH_R0_R1, 1);
    TwoRanked(PUSH_R0_R1, 0);
    TwoRanked(PUSH_R0_R1, 1);
    TwoRanked(PUSH_R0_R1, 16);
  }

  /**
   * stmdb r13!, {r0, r1}: the word the new stack pointer points at, where the manual puts r0,
   * is r1. So ldr r2, [r13] right after it reads r1.
   */
  lemma TopOfPushIsTheHighest(s: State)
    requires Execute(s, PUSH_R0_R1).status == Done(0)
    ensures var t := Execute(s, PUSH_R0_R1).s;
            && Aligned(ReadReg(t, 13)) == PrescribedPlace(s, PUSH_R0_R1, 0)
            && ReadReg(t, 13) + 4 <= |t.ram|
            && WordAt(t.ram, t.big, ReadReg(t, 13)) == ReadReg(s, 1)
  {
    hide Execute, WordAt, Mirrored, Listed, Rank, IsStm;
    PushFields();
    StoreMultipleEffect(s, PUSH_R0_R1);
    hide Rn, Bit21, Bit22, Bit23, Bit24;
    StoreMultipleStores(s, PUSH_R0_R1, 1);
    NextIsAddr(ReadReg(s, 13), false, 1);
  }

  /** A state on which it fails: r0 = 1, r1 = 2, the stack pointer at 64 in a memory of 128 bytes. */
  const PUSHING: State :=
    State(SYS, seq(37, _ => 0)[0 := 1][1 := 2][18 := 64], seq(128, _ => 0), false, 0)

  lemma PushingValues()
    ensures ReadReg(PUSHING, 13) == 64 && ReadReg(PUSHING, 0) == 1 && ReadReg(PUSHING, 1) == 2
    ensures |PUSHING.ram| == 128
  {
  }

  lemma PushingSucceeds()
    ensures Execute(PUSHING, PUSH_R0_R1).status == Done(0)
  {
    hide Execute, Mirrored, Listed, ReadReg;
    var s, ins := PUSHING, PUSH_R0_R1;
    PushFields();
    PushingValues();
    StoreMultipleEffect(s, ins);
    forall j: Reg4 | Listed(ins, j) ensures Inside(Start(s, ins), ins, 0, Bit23(ins), j) {
      TwoListed(ins, j);
      TwoRanked(ins, j);
      assert Place(Start(s, ins), ins, 0, false, j) == 60 - 4 * j;
    }
  }

  /** There the words are not laid out as the manual has it. */
  lemma PushFailsToLayOut()
    ensures Execute(PUSHING, PUSH_R0_R1).status == Done(0)
    ensures !StoredAsPrescribed(PUSHING, PUSH_R0_R1)
  {
    hide Execute, StoredAsPrescribed, Mirrored, Listed, Rank, ReadReg;
    PushFields();
    PushingValues();
    PushingSucceeds();
    StoredAsPrescribedIff(PUSHING, PUSH_R0_R1);
  }

  /** stmia r13, {r0, r1} from a stack pointer of 65: ascending, but the manual stores from 64 on. */
  const STORE_R0_R1: Word := 0xE88D_0003
  const UNALIGNED: State :=
    State(SYS, seq(37, _ => 0)[0 := 1][1 := 2][18 := 65], seq(128, _ => 0), false, 0)

  lemma UnalignedValues()
    ensures ReadReg(UNALIGNED, 13) == 65 && ReadReg(UNALIGNED, 0) == 1
    ensures |UNALIGNED.ram| == 128 && UNALIGNED.ram[64] == 0 && !UNALIGNED.big
  {
  }

  lemma StoreBits()
    ensures var ins := STORE_R0_R1; IsStm(ins) && Rn(ins) == 13 && !Bit22(ins) && Bit23(ins) && !Bit24(ins)
  {
  }

  lemma UnalignedPlace(j: Reg4)
    requires j < 2
    ensures Place(Start(UNALIGNED, STORE_R0_R1), STORE_R0_R1, 0, true, j) == 65 + 4 * j
    ensures PrescribedPlace(UNALIGNED, STORE_R0_R1, j) == 64 + 4 * j
  {
    hide Rank, ReadReg, Rn, Bit22, Bit23, Bit24, Place, Start, ProgramAddr, IsStm, Count;
    UnalignedValues();
    StoreBits();
    TwoRanked(STORE_R0_R1, j);
    PlaceIsProgramAddr(UNALIGNED, STORE_R0_R1, j);
    ProgramAddrClosed(true, false, 65, j);
  }

  /** The word at 64 is not r0, whose low byte went to 65. */
  lemma UnalignedStoreFails()
    ensures Execute(UNALIGNED, STORE_R0_R1).status == Done(0)
    ensures !StoredAsPrescribed(UNALIGNED, STORE_R0_R1)
  {
    var s, ins := UNALIGNED, STORE_R0_R1;
    StoreBits();
    hide IsStm, Execute, ReadReg, Rn, Rank, Place, PrescribedPlace, Bit21, Bit22, Bit23, Bit24, Listed;
    UnalignedValues();
    forall j: Reg4 | Listed(ins, j)
      ensures Inside(Start(s, ins), ins, 0, true, j) && 64 < Place(Start(s, ins), ins, 0, true, j)
    {
      TwoListed(ins, j);
      UnalignedPlace(j);
    }
    StoreMultipleEffect(s, ins);
    StoreMultipleFrame(s, ins, 64);
    TwoListed(ins, 0);
    UnalignedPlace(0);
    assert WordAt(Execute(s, ins).s.ram, false, 64) % 0x100 == 0;
  }
}
