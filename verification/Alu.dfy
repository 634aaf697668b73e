/**
 * The sixteen data-processing operations of arm_data_processing.c: their results, their flags,
 * and exactly when the flags are those of section A4.1 of the ARM Architecture Reference Manual.
 */
module Alu {
  import opened Words
  import opened Instruction
  import Arith
  import Bitwise

  function B2I(b: bool): int { if b then 1 else 0 }

  predicate Negative(x: Word) { x >= 0x8000_0000 }

  // ---- The program --------------------------------------------------------------------------------

  predicate BorrowFrom(rn: Word, rm: Word) { rn < rm }

  predicate CarryFrom(rn: Word, rm: Word) { Wrap(rn + rm) < rn }

  /** overflowFrom: the test for additions also looks at the difference of its arguments. */
  predicate OverflowFrom(rn: Word, rm: Word, add: bool) {
    if add then Negative(rn) == Negative(rm) && Negative(Wrap(rn - rm)) != Negative(rn)
    else Negative(rn) != Negative(rm) && Negative(rn) != Negative(Wrap(rn - rm))
  }

  /** The value computed by operation `op`; TST, TEQ, CMP and CMN only use it for the flags. */
  function Result(op: Reg4, rn: Word, so: Word, c: bool): Word {
    if op == 0 || op == 8 then AndWord(rn, so)
    else if op == 1 || op == 9 then XorWord(rn, so)
    else if op == 2 || op == 10 then Wrap(rn - so)
    else if op == 3 then Wrap(so - rn)
    else if op == 4 || op == 11 then Wrap(rn + so)
    else if op == 5 then Wrap(rn + so + B2I(c))
    else if op == 6 then Wrap(rn - so - B2I(!c))
    else if op == 7 then Wrap(so - rn - B2I(!c))
    else if op == 12 then OrWord(rn, so)
    else if op == 13 then so
    else if op == 14 then AndWord(rn, NotWord(so))
    else NotWord(so)
  }

  /** TST, TEQ, CMP and CMN. */
  predicate IsTest(op: Reg4) { 8 <= op <= 11 }

  predicate IsLogical(op: Reg4) { op <= 1 || 8 <= op <= 9 || op >= 12 }

  /** The program's C flag for the arithmetic operations. */
  predicate ProgramC(op: Reg4, rn: Word, so: Word, c: bool) {
    if op == 2 || op == 10 then !BorrowFrom(rn, so)
    else if op == 3 then !BorrowFrom(so, rn)
    else if op == 4 || op == 11 then CarryFrom(rn, so)
    else if op == 5 then CarryFrom(rn, so) || CarryFrom(Wrap(rn + so), B2I(c))
    else if op == 6 then !BorrowFrom(rn, so) || !BorrowFrom(Wrap(rn - so), B2I(!c))
    else !BorrowFrom(so, rn) || !BorrowFrom(Wrap(so - rn), B2I(!c))
  }

  /** The program's V flag for the arithmetic operations. */
  predicate ProgramV(op: Reg4, rn: Word, so: Word, c: bool) {
    if op == 2 || op == 10 then OverflowFrom(rn, so, false)
    else if op == 3 then OverflowFrom(so, rn, false)
    else if op == 4 || op == 11 then OverflowFrom(rn, so, true)
    else if op == 5 then OverflowFrom(rn, so, true) || OverflowFrom(Wrap(rn + so), B2I(c), true)
    else if op == 6 then OverflowFrom(rn, so, false) || OverflowFrom(Wrap(rn - so), B2I(!c), false)
    else OverflowFrom(so, rn, false) || OverflowFrom(Wrap(so - rn), B2I(!c), false)
  }

  /** The CPSR after the operation has set its flags; `carry` is the shifter's carry out. */
  function NewCpsr(op: Reg4, cpsr: Word, rn: Word, so: Word, carry: bool): Word {
    var c := FlagC(cpsr);
    var res := Result(op, rn, so, c);
    var nz := PutZ(PutN(cpsr, Negative(res)), res == 0);
    if IsLogical(op) then PutC(nz, carry)
    else PutV(PutC(nz, ProgramC(op, rn, so, c)), ProgramV(op, rn, so, c))
  }

  // ---- The architecture ---------------------------------------------------------------------------

  /** The exact sum or difference, on either reading of the operands. */
  function Exact(op: Reg4, a: int, b: int, c: bool): int {
    if op == 2 || op == 10 then a - b
    else if op == 3 then b - a
    else if op == 4 || op == 11 then a + b
    else if op == 5 then a + b + B2I(c)
    else if op == 6 then a - b - B2I(!c)
    else b - a - B2I(!c)
  }

  /** C: an addition exceeds 32 bits, a subtraction does not go below zero. */
  predicate TrueC(op: Reg4, rn: Word, so: Word, c: bool) {
    if op == 4 || op == 5 || op == 11 then Exact(op, rn, so, c) >= 0x1_0000_0000
    else Exact(op, rn, so, c) >= 0
  }

  /** V: the exact signed result does not fit in 32 bits. */
  predicate TrueV(op: Reg4, rn: Word, so: Word, c: bool) {
    !(-0x8000_0000 <= Exact(op, Signed(rn), Signed(so), c) < 0x8000_0000)
  }

  /** One bit of the result of a bitwise operation, from the bits of its operands: section A4.1, operation by operation. */
  function LogicalBit(op: Reg4, a: nat, b: nat): (r: nat)
    requires IsLogical(op) && a < 2 && b < 2
    ensures r < 2
  {
    match op
    case 0 => if a == 1 && b == 1 then 1 else 0
    case 8 => if a == 1 && b == 1 then 1 else 0
    case 1 => if a != b then 1 else 0
    case 9 => if a != b then 1 else 0
    case 12 => if a == 1 || b == 1 then 1 else 0
    case 13 => b
    case 14 => if a == 1 && b == 0 then 1 else 0
    case _ => if b == 0 then 1 else 0
  }

  /** The number whose n lowest bits are those. */
  function FromBits(op: Reg4, rn: Word, so: Word, n: nat): (r: nat)
    requires IsLogical(op)
    ensures r < Pow2(n)
  {
    if n == 0 then 0
    else
      var b := LogicalBit(op, Bit(rn, n - 1), Bit(so, n - 1));
      FromBits(op, rn, so, n - 1) + (if b == 1 then Pow2(n - 1) else 0)
  }

  /** The result of section A4.1: bit by bit, or the exact sum or difference modulo 2^32. */
  function TrueResult(op: Reg4, rn: Word, so: Word, c: bool): Word {
    Pow2Of32();
    if IsLogical(op) then FromBits(op, rn, so, 32) else Wrap(Exact(op, rn, so, c))
  }

  /** Every bit of AND, EOR, ORR, MOV, BIC, MVN, TST and TEQ. */
  lemma LogicalResultBit(op: Reg4, rn: Word, so: Word, c: bool, i: nat)
    requires IsLogical(op) && i < 32
    ensures Bit(Result(op, rn, so, c), i) == LogicalBit(op, Bit(rn, i), Bit(so, i))
  {
    hide AndWord, OrWord, XorWord, NotWord, Bit;
    Bitwise.AndBit(rn, so, i);
    Bitwise.OrBit(rn, so, i);
    Bitwise.XorBit(rn, so, i);
    Bitwise.NotBit(so, i);
    Bitwise.AndBit(rn, NotWord(so), i);
  }

  lemma {:induction false} FromBitsBit(op: Reg4, rn: Word, so: Word, n: nat, i: nat)
    requires IsLogical(op) && i < n <= 32
    ensures FromBits(op, rn, so, n) < 0x1_0000_0000
    ensures Bit(FromBits(op, rn, so, n), i) == LogicalBit(op, Bit(rn, i), Bit(so, i))
    decreases n
  {
    Bitwise.Pow2Grows(n);
    Bitwise.Pow2Grows(n - 1);
    var q := LogicalBit(op, Bit(rn, n - 1), Bit(so, n - 1));
    var l := FromBits(op, rn, so, n - 1);
    var x: Word := FromBits(op, rn, so, n);
    assert x == q * Pow2(n - 1) + l;
    if i < n - 1 {
      FromBitsBit(op, rn, so, n - 1, i);
      hide FromBits, LogicalBit, Bit, Pow2;
      Bitwise.LowBits(x, q, l, n - 1, i);
    } else {
      Arith.DivisionIsUnique(FromBits(op, rn, so, n), Pow2(n - 1), q, l);
    }
  }

  /** So every result is the architecture's. */
  lemma ResultIsTrue(op: Reg4, rn: Word, so: Word, c: bool)
    ensures Result(op, rn, so, c) == TrueResult(op, rn, so, c)
  {
    if IsLogical(op) {
      hide Result, FromBits, LogicalBit, Bit;
      Pow2Of32();
      forall i | 0 <= i < 32 ensures Bit(Result(op, rn, so, c), i) == Bit(TrueResult(op, rn, so, c), i) {
        LogicalResultBit(op, rn, so, c, i);
        FromBitsBit(op, rn, so, 32, i);
      }
      Bitwise.BitsDecide(Result(op, rn, so, c), TrueResult(op, rn, so, c));
    } else {
      hide Result;
      ResultIsExact(op, rn, so, c);
    }
  }

  // ---- Exactly when the program's flags are right ------------------------------------------------------

  /** SBC and RSC without a borrow; the program sets C whether or not there was one. */
  predicate CarryIsRight(op: Reg4, rn: Word, so: Word, c: bool) {
    match op
    case 6 => rn >= so + B2I(!c)
    case 7 => so >= rn + B2I(!c)
    case _ => true
  }

  /** The least second operand for which an addition to rn, of the same sign and with carry c, passes the sign. */
  function Threshold(rn: Word, c: bool): int {
    (if Negative(rn) then 0x1_8000_0000 else 0x8000_0000) - rn - B2I(c)
  }

  /**
   * Where an addition's V is wrong because the difference of the operands is looked at: with
   * equal signs, exactly when the second operand lies between the first and the threshold; with
   * a carry also for 0 + 0 and for operands that cancel.
   */
  predicate AddOverflowIsWrong(rn: Word, so: Word, c: bool) {
    if Negative(rn) != Negative(so) then c && rn + so == 0x1_0000_0000
    else if c && rn == 0 && so == 0 then true
    else Threshold(rn, c) <= so <= rn || rn < so < Threshold(rn, c)
  }

  predicate OverflowIsRight(op: Reg4, rn: Word, so: Word, c: bool) {
    match op
    case 4 => !AddOverflowIsWrong(rn, so, false)
    case 11 => !AddOverflowIsWrong(rn, so, false)
    case 5 => !AddOverflowIsWrong(rn, so, c)
    case 6 => c || Signed(rn) - Signed(so) != 0x8000_0000
    case 7 => c || Signed(so) - Signed(rn) != 0x8000_0000
    case _ => true
  }

  /** Numbers a whole number of turns apart are the same word. */
  lemma SameWord(x: int, y: int, turns: int)
    requires x == y + turns * 0x1_0000_0000
    ensures Wrap(x) == Wrap(y)
  {
    Arith.DivShifts(y, 0x1_0000_0000, turns);
  }

  lemma ResultIsExact(op: Reg4, rn: Word, so: Word, c: bool)
    requires !IsLogical(op)
    ensures Result(op, rn, so, c) == Wrap(Exact(op, rn, so, c)) == Wrap(Exact(op, Signed(rn), Signed(so), c))
  {
    var m, n := B2I(Negative(rn)), B2I(Negative(so));
    var turns := if op == 3 || op == 7 then n - m else if op == 4 || op == 5 || op == 11 then m + n else m - n;
    SameWord(Exact(op, rn, so, c), Exact(op, Signed(rn), Signed(so), c), turns);
  }

  lemma CarryRightIff(op: Reg4, rn: Word, so: Word, c: bool)
    requires !IsLogical(op)
    ensures ProgramC(op, rn, so, c) == TrueC(op, rn, so, c) <==> CarryIsRight(op, rn, so, c)
    ensures op == 6 || op == 7 ==> ProgramC(op, rn, so, c)
  {
  }

  lemma SubOverflow(rn: Word, so: Word)
    ensures OverflowFrom(rn, so, false) <==> !(-0x8000_0000 <= Signed(rn) - Signed(so) < 0x8000_0000)
  {
  }

  /** An addition's program test, in terms of the two words. */
  lemma AddOverflowMeaning(rn: Word, so: Word)
    ensures OverflowFrom(rn, so, true) <==>
            Negative(rn) == Negative(so) && (if Negative(rn) then rn >= so else rn < so)
  {
  }

  lemma AddOverflow(rn: Word, so: Word)
    ensures OverflowFrom(rn, so, true) == !(-0x8000_0000 <= Signed(rn) + Signed(so) < 0x8000_0000)
            <==> !AddOverflowIsWrong(rn, so, false)
  {
    AddOverflowMeaning(rn, so);
  }

  lemma AddWithCarryOverflow(rn: Word, so: Word, c: bool)
    ensures (OverflowFrom(rn, so, true) || OverflowFrom(Wrap(rn + so), B2I(c), true)) ==
            !(-0x8000_0000 <= Signed(rn) + Signed(so) + B2I(c) < 0x8000_0000)
            <==> !AddOverflowIsWrong(rn, so, c)
  {
    AddOverflowMeaning(rn, so);
    AddOverflowMeaning(Wrap(rn + so), B2I(c));
    assert OverflowFrom(Wrap(rn + so), B2I(c), true) <==> c && Wrap(rn + so) == 0;
    assert Wrap(rn + so) == 0 <==> rn + so == 0 || rn + so == 0x1_0000_0000;
  }

  lemma SubWithCarryOverflow(rn: Word, so: Word, c: bool)
    ensures (OverflowFrom(rn, so, false) || OverflowFrom(Wrap(rn - so), B2I(!c), false)) ==
            !(-0x8000_0000 <= Signed(rn) - Signed(so) - B2I(!c) < 0x8000_0000)
            <==> c || Signed(rn) - Signed(so) != 0x8000_0000
  {
    SubOverflow(rn, so);
    SubOverflow(Wrap(rn - so), B2I(!c));
    assert OverflowFrom(Wrap(rn - so), B2I(!c), false) <==> !c && Wrap(rn - so) == 0x8000_0000;
    var d := Signed(rn) - Signed(so);
    assert Wrap(rn - so) == Wrap(d);
    assert Wrap(d) == 0x8000_0000 <==> d == 0x8000_0000 || d == -0x8000_0000;
  }

  lemma OverflowRightIff(op: Reg4, rn: Word, so: Word, c: bool)
    requires !IsLogical(op)
    ensures ProgramV(op, rn, so, c) == TrueV(op, rn, so, c) <==> OverflowIsRight(op, rn, so, c)
  {
    hide OverflowFrom, AddOverflowIsWrong, Signed;
    if op == 2 || op == 10 {
      SubOverflow(rn, so);
    } else if op == 3 {
      SubOverflow(so, rn);
    } else if op == 4 || op == 11 {
      AddOverflow(rn, so);
    } else if op == 5 {
      AddWithCarryOverflow(rn, so, c);
    } else if op == 6 {
      SubWithCarryOverflow(rn, so, c);
    } else {
      SubWithCarryOverflow(so, rn, c);
    }
  }

  /** The flags after an operation, and the 28 bits below them. */
  lemma FlagsOfNewCpsr(op: Reg4, cpsr: Word, rn: Word, so: Word, carry: bool)
    ensures var c := FlagC(cpsr);
            var res := Result(op, rn, so, c);
            NewCpsr(op, cpsr, rn, so, carry) ==
            Pack(Negative(res), res == 0,
                 if IsLogical(op) then carry else ProgramC(op, rn, so, c),
                 if IsLogical(op) then FlagV(cpsr) else ProgramV(op, rn, so, c),
                 cpsr % 0x1000_0000)
  {
    var c := FlagC(cpsr);
    var res := Result(op, rn, so, c);
    var pc := if IsLogical(op) then carry else ProgramC(op, rn, so, c);
    var pv := if IsLogical(op) then FlagV(cpsr) else ProgramV(op, rn, so, c);
    SetFlags(cpsr, Negative(res), res == 0, pc, pv);
  }

  /** The same, one kind of operation at a time: logical, subtraction, reversed, addition, with carry. */
  lemma FlagsByKind(op: Reg4, cpsr: Word, rn: Word, so: Word, carry: bool)
    ensures var c := FlagC(cpsr);
            var res := Result(op, rn, so, c);
            var low := cpsr % 0x1000_0000;
            var r := NewCpsr(op, cpsr, rn, so, carry);
            && (op <= 1 || 8 <= op <= 9 || op >= 12 ==> r == Pack(Negative(res), res == 0, carry, FlagV(cpsr), low))
            && (op == 2 || op == 10 ==> r == Pack(Negative(res), res == 0, rn >= so, OverflowFrom(rn, so, false), low))
            && (op == 3 ==> r == Pack(Negative(res), res == 0, so >= rn, OverflowFrom(so, rn, false), low))
            && (op == 4 || op == 11 ==>
                  r == Pack(Negative(res), res == 0, rn + so >= 0x1_0000_0000, OverflowFrom(rn, so, true), low))
            && (5 <= op <= 7 ==>
                  r == Pack(Negative(res), res == 0, ProgramC(op, rn, so, c), ProgramV(op, rn, so, c), low))
  {
    FlagsOfNewCpsr(op, cpsr, rn, so, carry);
    hide NewCpsr, Result, OverflowFrom, Pack, FlagC, FlagV;
  }

  /** N and Z of every operation, the bits below the flags, and C and V of the logical operations. */
  lemma SimpleFlagsAreRight(op: Reg4, cpsr: Word, rn: Word, so: Word, carry: bool)
    ensures var res := Result(op, rn, so, FlagC(cpsr));
            var r := NewCpsr(op, cpsr, rn, so, carry);
            && r % 0x1000_0000 == cpsr % 0x1000_0000
            && (FlagN(r) <==> Signed(res) < 0) && (FlagZ(r) <==> res == 0)
            && (IsLogical(op) ==> FlagC(r) == carry && FlagV(r) == FlagV(cpsr))
            && (!IsLogical(op) ==>
                  FlagC(r) == ProgramC(op, rn, so, FlagC(cpsr)) && FlagV(r) == ProgramV(op, rn, so, FlagC(cpsr)))
  {
    FlagsOfNewCpsr(op, cpsr, rn, so, carry);
    var c := FlagC(cpsr);
    var res := Result(op, rn, so, c);
    PartsCpsr(Negative(res), res == 0,
              if IsLogical(op) then carry else ProgramC(op, rn, so, c),
              if IsLogical(op) then FlagV(cpsr) else ProgramV(op, rn, so, c),
              cpsr % 0x1000_0000);
  }

  /**
   * Every arithmetic operation on every operand: the result is the exact one modulo 2^32, and C
   * and V are the architecture's exactly under the two conditions above.
   */
  lemma FlagsRightIff(op: Reg4, cpsr: Word, rn: Word, so: Word, carry: bool)
    requires !IsLogical(op)
    ensures var c := FlagC(cpsr);
            var r := NewCpsr(op, cpsr, rn, so, carry);
            && Result(op, rn, so, c) == Wrap(Exact(op, rn, so, c))
            && (FlagC(r) == TrueC(op, rn, so, c) <==> CarryIsRight(op, rn, so, c))
            && (FlagV(r) == TrueV(op, rn, so, c) <==> OverflowIsRight(op, rn, so, c))
  {
    SimpleFlagsAreRight(op, cpsr, rn, so, carry);
    ResultIsExact(op, rn, so, FlagC(cpsr));
    CarryRightIff(op, rn, so, FlagC(cpsr));
    OverflowRightIff(op, rn, so, FlagC(cpsr));
  }

  /**
   * The concrete failures: 1 + 2 sets V, 2^31-1 + 1 clears it, 0 - 1 with carry in sets C although
   * it borrows, and 0 - (-2^31) - 1 sets V although it fits.
   */
  lemma FlagFailures()
    ensures ProgramV(4, 1, 2, false) && !TrueV(4, 1, 2, false)
    ensures !ProgramV(4, 0x7FFF_FFFF, 1, false) && TrueV(4, 0x7FFF_FFFF, 1, false)
    ensures ProgramV(6, 0, 0x8000_0000, false) && !TrueV(6, 0, 0x8000_0000, false)
    ensures ProgramV(7, 0x8000_0000, 0, false) && !TrueV(7, 0x8000_0000, 0, false)
    ensures ProgramC(6, 0, 1, true) && !TrueC(6, 0, 1, true)
  {
  }

  /** After a subtraction, N and V together tell the signed order. */
  lemma SignOfDifference(rn: Word, so: Word)
    ensures Negative(Wrap(rn - so)) == OverflowFrom(rn, so, false) <==> Signed(rn) >= Signed(so)
    ensures Wrap(rn - so) == 0 <==> rn == so
  {
  }

  /**
   * What a comparison is for: after CMP (or SUBS) each condition code decides the order of the
   * two operands it stands for, unsigned for CS/CC/HI/LS and signed for GE/LT/GT/LE.
   */
  lemma ComparisonDecidesOrder(op: Reg4, cpsr: Word, rn: Word, so: Word, carry: bool, cond: nat)
    requires op == 2 || op == 10
    ensures var a, b := Signed(rn), Signed(so);
            var passed := ConditionPassed(NewCpsr(op, cpsr, rn, so, carry), cond);
            && (cond == 0 ==> (passed <==> rn == so)) && (cond == 1 ==> (passed <==> rn != so))
            && (cond == 2 ==> (passed <==> rn >= so)) && (cond == 3 ==> (passed <==> rn < so))
            && (cond == 8 ==> (passed <==> rn > so)) && (cond == 9 ==> (passed <==> rn <= so))
            && (cond == 10 ==> (passed <==> a >= b)) && (cond == 11 ==> (passed <==> a < b))
            && (cond == 12 ==> (passed <==> a > b)) && (cond == 13 ==> (passed <==> a <= b))
  {
    SimpleFlagsAreRight(op, cpsr, rn, so, carry);
    SignOfDifference(rn, so);
  }

  /** After any operation, of any kind, MI and PL tell the sign of its result and EQ and NE whether it is zero. */
  lemma SignDecidesConditions(op: Reg4, cpsr: Word, rn: Word, so: Word, carry: bool)
    ensures var res := TrueResult(op, rn, so, FlagC(cpsr));
            var after := NewCpsr(op, cpsr, rn, so, carry);
            && (ConditionPassed(after, 4) <==> Signed(res) < 0) && (ConditionPassed(after, 5) <==> Signed(res) >= 0)
            && (ConditionPassed(after, 0) <==> res == 0) && (ConditionPassed(after, 1) <==> res != 0)
  {
    SimpleFlagsAreRight(op, cpsr, rn, so, carry);
    ResultIsTrue(op, rn, so, FlagC(cpsr));
    hide NewCpsr, Result, TrueResult, FlagN, FlagZ, FlagC, FlagV;
  }

  /** After a comparison or SUBS, VS and VC tell whether the exact signed difference fits in 32 bits. */
  lemma ComparisonDecidesOverflow(op: Reg4, cpsr: Word, rn: Word, so: Word, carry: bool)
    requires op == 2 || op == 10
    ensures var fits := -0x8000_0000 <= Signed(rn) - Signed(so) < 0x8000_0000;
            var after := NewCpsr(op, cpsr, rn, so, carry);
            (ConditionPassed(after, 6) <==> !fits) && (ConditionPassed(after, 7) <==> fits)
  {
    SimpleFlagsAreRight(op, cpsr, rn, so, carry);
    SubOverflow(rn, so);
    hide NewCpsr, Result, OverflowFrom, FlagN, FlagZ, FlagC, FlagV;
  }

  /** After a bitwise operation CS, CC, VS and VC tell the shifter's carry and the V there was. */
  lemma LogicalConditions(op: Reg4, cpsr: Word, rn: Word, so: Word, carry: bool)
    requires IsLogical(op)
    ensures var after := NewCpsr(op, cpsr, rn, so, carry);
            && (ConditionPassed(after, 2) <==> carry) && (ConditionPassed(after, 3) <==> !carry)
            && (ConditionPassed(after, 6) <==> FlagV(cpsr)) && (ConditionPassed(after, 7) <==> !FlagV(cpsr))
  {
    SimpleFlagsAreRight(op, cpsr, rn, so, carry);
    hide NewCpsr, Result, FlagN, FlagZ, FlagC, FlagV;
  }
}
