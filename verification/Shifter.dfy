/**
 * The shifter operand of a data-processing instruction: decode_so of arm_data_processing.c, and
 * an arithmetic definition after section A5.1 of the ARM Architecture Reference Manual.
 */
module Shifter {
  import opened Words
  import opened Instruction
  import opened Arith

  datatype Operand = Operand(value: Word, carry: bool)

  // ---- The C operators --------------------------------------------------------------------------

  function ShiftLeft(v: Word, k: nat): Word {
    Wrap(v * Pow2(k))
  }

  function ShiftRight(v: Word, k: nat): Word {
    Wrap(v / Pow2(k))
  }

  /** asr of util.c, for shifts of 1 to 31; the two halves have no bit in common. */
  function Asr(v: Word, k: nat): Word
    requires 1 <= k <= 31
  {
    Wrap(v / Pow2(k) + (if v >= 0x8000_0000 then 0x1_0000_0000 - Pow2(32 - k) else 0))
  }

  /** ror of util.c; the two halves have no bit in common, and for 0 the result is the word itself. */
  function Ror(v: Word, k: nat): Word
    requires k <= 31
  {
    Wrap(v / Pow2(k) + Wrap(v * Pow2(32 - k)))
  }

  /** decode_so, given the contents of Rm and Rs and the carry flag. */
  function DecodeSo(ins: Word, rm: Word, rs: Word, c: bool): Operand {
    if Bit25(ins) then
      var result := Ror(Imm8(ins), 2 * Rs(ins));
      Operand(result, if Rs(ins) == 0 then c else result >= 0x8000_0000)
    else if !Bit4(ins) then
      DecodeImmediateShift(ShiftKind(ins), ShiftImm(ins), rm, c)
    else
      DecodeRegisterShift(ShiftKind(ins), rs % 0x100, rm, c)
  }

  function DecodeImmediateShift(kind: nat, imm: nat, rm: Word, c: bool): Operand
    requires imm <= 31
  {
    if kind == 0 then
      if imm == 0 then Operand(rm, c) else Operand(ShiftLeft(rm, imm), Bit(rm, 32 - imm) == 1)
    else if kind == 1 then
      if imm == 0 then Operand(0, rm >= 0x8000_0000) else Operand(ShiftRight(rm, imm), Bit(rm, imm - 1) == 1)
    else if kind == 2 then
      if imm == 0 then (if rm < 0x8000_0000 then Operand(0, false) else Operand(0xFFFF_FFFF, true))
      else Operand(Asr(rm, imm), Bit(rm, imm - 1) == 1)
    else
      if imm == 0 then Operand((if c then 0x8000_0000 else 0) + rm / 2, rm % 2 == 1)
      else Operand(Ror(rm, imm), Bit(rm, imm - 1) == 1)
  }

  function DecodeRegisterShift(kind: nat, amount: Byte, rm: Word, c: bool): Operand {
    if kind == 0 then
      if amount == 32 then Operand(0, rm % 2 == 1)
      else if amount > 32 then Operand(0, false)
      else if amount == 0 then Operand(rm, c)
      else Operand(ShiftLeft(rm, amount), Bit(rm, 32 - amount) == 1)
    else if kind == 1 then
      if amount == 32 then Operand(0, rm >= 0x8000_0000)
      else if amount > 32 then Operand(0, false)
      else if amount == 0 then Operand(0, rm >= 0x8000_0000)
      else Operand(ShiftRight(rm, amount), Bit(rm, amount - 1) == 1)
    else if kind == 2 then
      if amount >= 32 then (if rm < 0x8000_0000 then Operand(0, false) else Operand(0xFFFF_FFFF, true))
      else if amount == 0 then (if rm < 0x8000_0000 then Operand(0, false) else Operand(0xFFFF_FFFF, true))
      else Operand(Asr(rm, amount), Bit(rm, amount - 1) == 1)
    else
      if amount == 0 then Operand(rm, c)
      else if amount % 32 == 0 then Operand(rm, rm >= 0x8000_0000)
      else Operand(Ror(rm, amount % 32), Bit(rm, amount % 32 - 1) == 1)
  }

  // ---- The architecture's definition -------------------------------------------------------------

  /**
   * A shift or rotation by any amount: multiplication and floor division by a power of two, on
   * the unsigned value for LSL and LSR, on the signed value for ASR, and on the word written
   * twice for ROR. The carry is the last bit shifted out.
   */
  function Shifted(kind: nat, rm: Word, k: nat, c: bool): Operand {
    if k == 0 then Operand(rm, c)
    else if kind == 0 then Operand(Wrap(rm * Pow2(k)), (rm * Pow2(k) / 0x1_0000_0000) % 2 == 1)
    else if kind == 1 then Operand(Wrap(rm / Pow2(k)), (rm / Pow2(k - 1)) % 2 == 1)
    else if kind == 2 then Operand(Wrap(Signed(rm) / Pow2(k)), (Signed(rm) / Pow2(k - 1)) % 2 == 1)
    else Operand(Rotated(rm, k % 32), Rotated(rm, k % 32) >= 0x8000_0000)
  }

  /** The low half of the word written twice, after a shift right by k. */
  function Rotated(rm: Word, k: nat): Word {
    Wrap(rm * 0x1_0000_0001 / Pow2(k))
  }

  /** The operand the architecture prescribes; the immediate encodings LSR #0, ASR #0 mean 32, ROR #0 is RRX. */
  function Prescribed(ins: Word, rm: Word, rs: Word, c: bool): Operand {
    if Bit25(ins) then Shifted(3, Imm8(ins), 2 * Rs(ins), c)
    else if Bit4(ins) then Shifted(ShiftKind(ins), rm, rs % 0x100, c)
    else if ShiftImm(ins) > 0 || ShiftKind(ins) == 0 then Shifted(ShiftKind(ins), rm, ShiftImm(ins), c)
    else if ShiftKind(ins) <= 2 then Shifted(ShiftKind(ins), rm, 32, c)
    else Operand((if c then 0x8000_0000 else 0) + rm / 2, rm % 2 == 1)
  }

  // ---- Arithmetic of powers of two ---------------------------------------------------------------

  lemma {:induction false} Pow2Monotone(a: nat, b: nat)
    requires a <= b
    ensures Pow2(a) <= Pow2(b)
    decreases b - a
  {
    if a < b { Pow2Monotone(a, b - 1); }
  }

  /** 2^32 split at k. */
  lemma Pow2Split(k: nat)
    requires k <= 32
    ensures Pow2(k) * Pow2(32 - k) == 0x1_0000_0000
  {
    Pow2Of32();
    Pow2Adds(k, 32 - k);
  }

  // ---- Each kind of shift ------------------------------------------------------------------------

  lemma LeftByUpTo31(rm: Word, k: nat)
    requires 1 <= k <= 31
    ensures (rm * Pow2(k) / 0x1_0000_0000) % 2 == Bit(rm, 32 - k)
  {
    Pow2Split(k);
    DivCancels(rm, Pow2(k), Pow2(32 - k), 0x1_0000_0000);
  }

  lemma LeftByLarge(rm: Word, k: nat)
    requires 32 <= k
    ensures Wrap(rm * Pow2(k)) == 0
    ensures (rm * Pow2(k) / 0x1_0000_0000) % 2 == if k == 32 then rm % 2 else 0
  {
    Pow2Of32();
    Pow2Adds(k - 32, 32);
    Reassociate(rm, Pow2(k - 32), 0x1_0000_0000);
    DivisionIsUnique(rm * Pow2(k), 0x1_0000_0000, rm * Pow2(k - 32), 0);
    if k > 32 {
      Reassociate(rm, 2, Pow2(k - 33));
      DivisionIsUnique(rm * Pow2(k - 32), 2, rm * Pow2(k - 33), 0);
    } else {
      assert Pow2(0) == 1;
    }
  }

  lemma RightByLarge(rm: Word, k: nat)
    requires 32 <= k
    ensures rm / Pow2(k) == 0
    ensures Signed(rm) / Pow2(k) == if rm >= 0x8000_0000 then -1 else 0
  {
    Pow2Of32();
    Pow2Monotone(32, k);
    DivisionIsUnique(rm, Pow2(k), 0, rm);
    if rm >= 0x8000_0000 {
      DivisionIsUnique(Signed(rm), Pow2(k), -1, Signed(rm) + Pow2(k));
    }
  }

  lemma ArithmeticRight(rm: Word, k: nat)
    requires k <= 32
    ensures Signed(rm) / Pow2(k) == rm / Pow2(k) - (if rm >= 0x8000_0000 then Pow2(32 - k) else 0)
  {
    if rm >= 0x8000_0000 {
      Pow2Split(k);
      DivOfNegative(rm, Pow2(k), Pow2(32 - k), 0x1_0000_0000);
    }
  }

  lemma AsrIsFloorDivision(rm: Word, k: nat)
    requires 1 <= k <= 31
    ensures Asr(rm, k) == Wrap(Signed(rm) / Pow2(k))
    ensures (Signed(rm) / Pow2(k - 1)) % 2 == Bit(rm, k - 1)
  {
    var q := Pow2(32 - k);
    ArithmeticRight(rm, k);
    DivShifts(rm / Pow2(k) - q, 0x1_0000_0000, 1);
    ArithmeticRight(rm, k - 1);
    assert Pow2(32 - (k - 1)) == 2 * q;
    DivShifts(rm / Pow2(k - 1), 2, -q);
  }

  lemma AsrByLarge(rm: Word, k: nat)
    requires 32 <= k
    ensures Wrap(Signed(rm) / Pow2(k)) == if rm >= 0x8000_0000 then 0xFFFF_FFFF else 0
    ensures ((Signed(rm) / Pow2(k - 1)) % 2 == 1) <==> rm >= 0x8000_0000
  {
    RightByLarge(rm, k);
    if k == 32 {
      Pow2Of32();
    } else {
      RightByLarge(rm, k - 1);
    }
  }

  lemma RorIsRotation(rm: Word, k: nat)
    requires k <= 31
    ensures Ror(rm, k) == Rotated(rm, k)
  {
    Pow2Split(k);
    var p, q := Pow2(k), Pow2(32 - k);
    RotationParts(rm, p, q, 0x1_0000_0000);
    ModAbsorbs(rm / p, rm * q, 0x1_0000_0000);
  }

  /** A rotation by 0 (or a multiple of 32) gives the word back. */
  lemma WholeRotation(rm: Word)
    ensures Rotated(rm, 0) == rm
  {
    assert rm * 0x1_0000_0001 == rm + rm * 0x1_0000_0000;
    DivShifts(rm, 0x1_0000_0000, rm);
  }

  lemma RorTopBit(rm: Word, k: nat)
    requires 1 <= k <= 31
    ensures Ror(rm, k) >= 0x8000_0000 <==> Bit(rm, k - 1) == 1
  {
    Pow2Split(k);
    var h, q := Pow2(k - 1), Pow2(32 - k);
    assert Pow2(k) == 2 * h;
    Reassociate(2, h, q);
    RotationTop(rm, h, q, 0x1_0000_0000);
  }

  // ---- The theorem -------------------------------------------------------------------------------

  lemma RotationIsPrescribed(imm: nat, rm: Word)
    requires 1 <= imm <= 31
    ensures Operand(Ror(rm, imm), Bit(rm, imm - 1) == 1) == Operand(Rotated(rm, imm), Rotated(rm, imm) >= 0x8000_0000)
  {
    RorIsRotation(rm, imm);
    RorTopBit(rm, imm);
  }

  lemma AsrIsPrescribed(imm: nat, rm: Word, c: bool)
    requires 1 <= imm <= 31
    ensures Operand(Asr(rm, imm), Bit(rm, imm - 1) == 1) == Shifted(2, rm, imm, c)
  {
    AsrIsFloorDivision(rm, imm);
  }

  lemma LslIsPrescribed(imm: nat, rm: Word, c: bool)
    requires 1 <= imm <= 31
    ensures Operand(ShiftLeft(rm, imm), Bit(rm, 32 - imm) == 1) == Shifted(0, rm, imm, c)
  {
    LeftByUpTo31(rm, imm);
  }

  lemma By32IsPrescribed(rm: Word, c: bool)
    ensures Shifted(1, rm, 32, c) == Operand(0, rm >= 0x8000_0000)
    ensures Shifted(2, rm, 32, c) ==
            if rm >= 0x8000_0000 then Operand(0xFFFF_FFFF, true) else Operand(0, false)
  {
    Pow2Of32();
    RightByLarge(rm, 32);
    AsrByLarge(rm, 32);
  }

  lemma ImmediateShiftIsPrescribed(kind: nat, imm: nat, rm: Word, c: bool)
    requires imm <= 31 && kind <= 3 && (kind == 3 ==> imm > 0)
    ensures DecodeImmediateShift(kind, imm, rm, c) ==
            Shifted(kind, rm, if imm == 0 && kind != 0 then 32 else imm, c)
  {
    if imm == 0 {
      By32IsPrescribed(rm, c);
    } else if kind == 0 {
      LslIsPrescribed(imm, rm, c);
    } else if kind == 2 {
      AsrIsPrescribed(imm, rm, c);
    } else if kind == 3 {
      assert imm % 32 == imm;
      RotationIsPrescribed(imm, rm);
    }
  }

  lemma RegisterRotationIsPrescribed(amount: Byte, rm: Word, c: bool)
    requires amount > 0
    ensures DecodeRegisterShift(3, amount, rm, c) == Shifted(3, rm, amount, c)
  {
    var k := amount % 32;
    if k == 0 {
      WholeRotation(rm);
    } else {
      RotationIsPrescribed(k, rm);
    }
  }

  lemma RegisterShiftIsPrescribed(kind: nat, amount: Byte, rm: Word, c: bool)
    requires kind <= 3 && (amount == 0 ==> kind == 0 || kind == 3)
    ensures DecodeRegisterShift(kind, amount, rm, c) == Shifted(kind, rm, amount, c)
  {
    if amount == 0 {
    } else if kind == 3 {
      RegisterRotationIsPrescribed(amount, rm, c);
    } else if amount < 32 {
      ImmediateShiftIsPrescribed(kind, amount, rm, c);
    } else if kind == 0 {
      LeftByLarge(rm, amount);
    } else if kind == 1 {
      RightByLarge(rm, amount);
      if amount == 32 { Pow2Of32(); } else { RightByLarge(rm, amount - 1); }
    } else {
      AsrByLarge(rm, amount);
    }
  }

  /** A shift right by a register whose low byte is 0: the one family decode_so gets wrong. */
  predicate RightByZeroRegister(ins: Word, rs: Word) {
    !Bit25(ins) && Bit4(ins) && (ShiftKind(ins) == 1 || ShiftKind(ins) == 2) && rs % 0x100 == 0
  }

  /** Operands on which the answer of that family happens to be right. */
  predicate RightByZeroHarmless(ins: Word, rm: Word, c: bool) {
    (rm == 0 && !c) || (rm == 0xFFFF_FFFF && c && ShiftKind(ins) == 2)
  }

  /** mov r0, r1, lsr r2 with r1 = 1 and r2 = 0 yields 0 instead of 1. */
  lemma RightByZeroFails()
    ensures DecodeSo(0xE1A0_0231, 1, 0, false).value == 0
    ensures Prescribed(0xE1A0_0231, 1, 0, false).value == 1
  {
    var ins: Word := 0xE1A0_0231;
    assert !Bit25(ins) && Bit4(ins) && ShiftKind(ins) == 1;
  }

  lemma ImmediateOperandIsPrescribed(ins: Word, rm: Word, rs: Word, c: bool)
    requires Bit25(ins)
    ensures DecodeSo(ins, rm, rs, c) == Prescribed(ins, rm, rs, c)
  {
    hide Pow2, Rotated, Ror;
    var v, k := Imm8(ins), 2 * Rs(ins);
    RorIsRotation(v, k);
    if k == 0 {
      WholeRotation(v);
    } else {
      assert k % 32 == k;
    }
  }

  lemma ShiftedByImmediateIsPrescribed(ins: Word, rm: Word, rs: Word, c: bool)
    requires !Bit25(ins) && !Bit4(ins)
    ensures DecodeSo(ins, rm, rs, c) == Prescribed(ins, rm, rs, c)
  {
    var kind, imm := ShiftKind(ins), ShiftImm(ins);
    if kind < 3 || imm > 0 {
      ImmediateShiftIsPrescribed(kind, imm, rm, c);
    }
  }

  lemma ShiftedByRegisterIsPrescribedIff(ins: Word, rm: Word, rs: Word, c: bool)
    requires !Bit25(ins) && Bit4(ins)
    ensures DecodeSo(ins, rm, rs, c) == Prescribed(ins, rm, rs, c) <==>
            (RightByZeroRegister(ins, rs) ==> RightByZeroHarmless(ins, rm, c))
  {
    var kind, amount := ShiftKind(ins), rs % 0x100;
    if !(amount == 0 && (kind == 1 || kind == 2)) {
      RegisterShiftIsPrescribed(kind, amount, rm, c);
    }
  }

  /** The value alone is right also where only the carry is lost: zero, and -1 shifted arithmetically. */
  predicate RightByZeroKeepsValue(ins: Word, rm: Word) {
    rm == 0 || (rm == 0xFFFF_FFFF && ShiftKind(ins) == 2)
  }

  lemma ValueIsPrescribedIff(ins: Word, rm: Word, rs: Word, c: bool)
    ensures DecodeSo(ins, rm, rs, c).value == Prescribed(ins, rm, rs, c).value <==>
            (RightByZeroRegister(ins, rs) ==> RightByZeroKeepsValue(ins, rm))
  {
    if RightByZeroRegister(ins, rs) {
      hide Bit25, Bit4, ShiftKind, Ror, Rotated;
    } else {
      DecodeSoIsPrescribedIff(ins, rm, rs, c);
      hide DecodeSo, Prescribed;
    }
  }

  /** decode_so computes the architecture's shifter operand and carry exactly outside that family. */
  lemma DecodeSoIsPrescribedIff(ins: Word, rm: Word, rs: Word, c: bool)
    ensures DecodeSo(ins, rm, rs, c) == Prescribed(ins, rm, rs, c) <==>
            (RightByZeroRegister(ins, rs) ==> RightByZeroHarmless(ins, rm, c))
  {
    if Bit25(ins) {
      ImmediateOperandIsPrescribed(ins, rm, rs, c);
    } else if Bit4(ins) {
      ShiftedByRegisterIsPrescribedIff(ins, rm, rs, c);
    } else {
      ShiftedByImmediateIsPrescribed(ins, rm, rs, c);
    }
  }
}
