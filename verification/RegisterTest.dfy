/**
 * registers_test.c as a decision procedure: for an arbitrary pointer table, what exactly does
 * a run of the test without an error message establish?
 */
module RegisterTest {
  import opened Words
  import opened Banking
  import opened RegisterFile

  /** A pointer table: 7 rows of 18 entries, each NULL or one of the 37 words. */
  type Table = t: seq<Option<nat>> | |t| == 126 && forall k :: 0 <= k < 126 && t[k].Some? ==> t[k].value < 37
    witness seq(126, _ => None)

  function At(t: Table, row: Row, reg: VirtReg): Option<nat> {
    t[row * 18 + reg]
  }

  ghost function TableOf(r: Registers): Table
    requires r.Shaped()
    reads r.table
  {
    r.table[..]
  }

  /** What the test asks of the values read by a register in two modes j < k. */
  datatype Rule = Same | SameOutsideFiq | DistinctOutsideUser | Distinct

  /** The test's `if` conditions: is the pair (j, k), reading x and y, an error? */
  predicate IsError<T(==)>(rule: Rule, j: int, k: int, x: T, y: T) {
    match rule
    case Same => y != x
    case SameOutsideFiq => y != x && ModeFromNum(j) != FIQ && ModeFromNum(k) != FIQ
    case DistinctOutsideUser => y == x && (ModeFromNum(j) != USR || ModeFromNum(k) != SYS)
    case Distinct => y == x
  }

  /** The loop bounds of the test: four groups of register numbers. */
  function RuleFor(reg: VirtReg): Rule {
    if reg < 8 then Same
    else if reg < 13 then SameOutsideFiq
    else if reg < 15 then DistinctOutsideUser
    else if reg < 17 then Same
    else Distinct
  }

  /** The pointers the test follows without checking. */
  ghost predicate Readable(t: Table) {
    && (forall row: Row, reg: VirtReg :: reg <= 16 ==> At(t, row, reg).Some?)
    && (forall row: Row :: 1 <= row <= 5 ==> At(t, row, 17).Some?)
  }

  /** Row j of one register obeys the rule against every later row below hi. */
  ghost predicate RowObeys(t: Table, rule: Rule, reg: VirtReg, j: Row, hi: int) {
    forall k: Row :: j < k < hi ==> !IsError(rule, j, k, At(t, j, reg), At(t, k, reg))
  }

  /** Rows lo to hi-1 of one register obey a rule on every ordered pair. */
  ghost predicate Obeys(t: Table, rule: Rule, reg: VirtReg, lo: int, hi: int) {
    forall j: Row :: lo <= j < hi ==> RowObeys(t, rule, reg, j, hi)
  }

  /** The array in which each word holds its own index, so that values identify cells. */
  ghost predicate Identity(r: Registers)
    reads r.cells
  {
    r.cells.Length == 37 && forall i :: 0 <= i < 37 ==> r.cells[i] == i
  }

  lemma ModeRoundTrip(row: Row)
    ensures ModeNum(ModeFromNum(row)) == row
  {
  }

  /** The inner loop: one row against all later ones. */
  method CompareRow(r: Registers, rule: Rule, reg: VirtReg, j: Row, hi: nat) returns (errors: nat)
    requires r.Shaped() && Identity(r) && j < hi <= 7
    requires forall row: Row :: j <= row < hi ==> At(TableOf(r), row, reg).Some?
    modifies r`mode
    ensures errors == 0 <==> RowObeys(TableOf(r), rule, reg, j, hi)
  {
    ghost var t := TableOf(r);
    r.mode := ModeFromNum(j);
    ModeRoundTrip(j);
    assert r.Entry(j, reg) == At(t, j, reg);
    var value := r.ReadRegister(reg);
    errors := 0;
    for k := j + 1 to hi
      invariant errors == 0 <==> RowObeys(t, rule, reg, j, k)
    {
      r.mode := ModeFromNum(k);
      ModeRoundTrip(k);
      assert r.Entry(k, reg) == At(t, k, reg);
      var other := r.ReadRegister(reg);
      if IsError(rule, j, k, value, other) {
        errors := errors + 1;
      }
    }
    assert TableOf(r) == t;
  }

  /** The nested loops over j and k that the test repeats for each register number. */
  method ComparePairs(r: Registers, rule: Rule, reg: VirtReg, lo: Row, hi: nat) returns (errors: nat)
    requires r.Shaped() && Identity(r) && lo <= hi <= 7
    requires forall row: Row :: lo <= row < hi ==> At(TableOf(r), row, reg).Some?
    modifies r`mode
    ensures errors == 0 <==> Obeys(TableOf(r), rule, reg, lo, hi)
  {
    ghost var t := TableOf(r);
    errors := 0;
    for j := lo to hi
      invariant (errors == 0) == (forall a: Row :: lo <= a < j ==> RowObeys(t, rule, reg, a, hi))
    {
      assert TableOf(r) == t;
      var more := CompareRow(r, rule, reg, j, hi);
      errors := errors + more;
    }
    assert TableOf(r) == t;
  }

  /** Everything the test checks, in the order and with the pairs its loops visit. */
  ghost predicate PassesTest(t: Table) {
    && (forall reg: VirtReg :: reg <= 16 ==> Obeys(t, RuleFor(reg), reg, 0, 7))
    && At(t, 0, 17).None? && At(t, 6, 17).None?
    && Obeys(t, Distinct, 17, 1, 6)
  }

  /** The test's main: it reports no error exactly when the table passes. */
  method RunTest(r: Registers) returns (errors: nat)
    requires r.Shaped() && Readable(TableOf(r))
    modifies r`mode, r.cells
    ensures errors == 0 <==> PassesTest(TableOf(r))
  {
    ghost var t := TableOf(r);
    for i := 0 to 37
      invariant r.Shaped() && TableOf(r) == t
      invariant forall k :: 0 <= k < i ==> r.cells[k] == k
    {
      r.cells[i] := i;
    }
    errors := 0;
    for i := 0 to 17
      invariant Identity(r)
      invariant (errors == 0) == (forall reg: VirtReg :: reg < i ==> Obeys(t, RuleFor(reg), reg, 0, 7))
    {
      var more := ComparePairs(r, RuleFor(i), i, 0, 7);
      errors := errors + more;
    }
    var spsrErrors := CheckSpsrPresence(r);
    var more := ComparePairs(r, Distinct, 17, 1, 6);
    errors := errors + spsrErrors + more;
  }

  method CheckSpsrPresence(r: Registers) returns (errors: nat)
    requires r.Shaped()
    modifies r`mode
    ensures errors == 0 <==> At(TableOf(r), 0, 17).None? && At(TableOf(r), 6, 17).None?
  {
    ghost var t := TableOf(r);
    errors := 0;
    for j := 0 to 7
      invariant (errors == 0) == (forall row: Row :: row < j && (row == 0 || row == 6) ==> At(t, row, 17).None?)
    {
      r.mode := ModeFromNum(j);
      ModeRoundTrip(j);
      assert r.Entry(j, 17) == At(t, j, 17);
      var has := r.CurrentModeHasSpsr();
      if has && (r.mode == USR || r.mode == SYS) {
        errors := errors + 1;
      }
    }
  }

  // ---- What a passing table is ---------------------------------------------------------------

  /** Entries exist where the architecture has a register, and are equal exactly for the same one. */
  ghost predicate AliasesCorrectly(t: Table) {
    && (forall j: Row, r: VirtReg :: At(t, j, r).Some? <==> NameOf(ModeFromNum(j), r).Some?)
    && (forall j: Row, r: VirtReg, k: Row, s: VirtReg ::
          At(t, j, r) == At(t, k, s) <==> NameOf(ModeFromNum(j), r) == NameOf(ModeFromNum(k), s))
  }

  /**
   * What the test never looks at: sharing between different numbers, FIQ's r8-r12 sharing with
   * the other modes, and USR and SYS not sharing r13 and r14.
   */
  ghost predicate UncheckedPartHolds(t: Table) {
    && (forall j: Row, r: VirtReg, k: Row, s: VirtReg :: r != s && At(t, j, r).Some? ==> At(t, j, r) != At(t, k, s))
    && (forall r: VirtReg, k: Row :: 8 <= r <= 12 && k != 1 ==> At(t, 1, r) != At(t, k, r))
    && At(t, 0, 13) == At(t, 6, 13) && At(t, 0, 14) == At(t, 6, 14)
  }

  /** A passing table, one pair of rows at a time and in either order. */
  lemma PassingPair(t: Table, reg: VirtReg, j: Row, k: Row)
    requires Readable(t) && PassesTest(t) && j != k
    requires reg <= 16 || (1 <= j <= 5 && 1 <= k <= 5)
    ensures reg < 8 || 15 <= reg <= 16 || (8 <= reg <= 12 && j != 1 && k != 1) ==> At(t, j, reg) == At(t, k, reg)
    ensures 13 <= reg <= 14 && !(j == 0 && k == 6) && !(j == 6 && k == 0) ==> At(t, j, reg) != At(t, k, reg)
    ensures reg == 17 ==> At(t, j, reg) != At(t, k, reg)
  {
    var a, b := if j < k then j else k, if j < k then k else j;
    if reg <= 16 {
      assert Obeys(t, RuleFor(reg), reg, 0, 7);
      assert RowObeys(t, RuleFor(reg), reg, a, 7);
      assert !IsError(RuleFor(reg), a, b, At(t, a, reg), At(t, b, reg));
    } else {
      assert RowObeys(t, Distinct, 17, a, 6);
      assert !IsError(Distinct, a, b, At(t, a, reg), At(t, b, reg));
    }
  }

  /** The conditions on all pairs of modes, in either order and without the test's loops. */
  ghost predicate AllPairs(t: Table) {
    && (forall reg: VirtReg, j: Row, k: Row :: reg < 8 || 15 <= reg <= 16 ==> At(t, j, reg) == At(t, k, reg))
    && (forall reg: VirtReg, j: Row, k: Row :: 8 <= reg <= 12 && j != 1 && k != 1 ==> At(t, j, reg) == At(t, k, reg))
    && (forall reg: VirtReg, j: Row, k: Row :: 13 <= reg <= 14 && j != k && !(j == 0 && k == 6) && !(j == 6 && k == 0) ==>
          At(t, j, reg) != At(t, k, reg))
    && (forall j: Row :: At(t, j, 17).Some? <==> 1 <= j <= 5)
    && (forall j: Row, k: Row :: 1 <= j <= 5 && 1 <= k <= 5 && j != k ==> At(t, j, 17) != At(t, k, 17))
  }

  lemma AllPairsPass(t: Table, reg: VirtReg, j: Row, k: Row)
    requires AllPairs(t) && j < k && (reg <= 16 || 1 <= j < k <= 5)
    ensures !IsError(RuleFor(reg), j, k, At(t, j, reg), At(t, k, reg))
  {
  }

  /**
   * The test passes exactly when r0-r7, the PC and the CPSR are shared by all modes, r8-r12 by
   * all but FIQ, r13-r14 by none but possibly USR and SYS, and the SPSR is absent in USR and SYS
   * and different everywhere else.
   */
  lemma PassesTestMeans(t: Table)
    requires Readable(t)
    ensures PassesTest(t) <==> AllPairs(t)
  {
    if PassesTest(t) {
      forall reg: VirtReg, j: Row, k: Row | j != k && (reg <= 16 || (1 <= j <= 5 && 1 <= k <= 5))
        ensures reg < 8 || 15 <= reg <= 16 || (8 <= reg <= 12 && j != 1 && k != 1) ==> At(t, j, reg) == At(t, k, reg)
        ensures 13 <= reg <= 14 && !(j == 0 && k == 6) && !(j == 6 && k == 0) ==> At(t, j, reg) != At(t, k, reg)
        ensures reg == 17 ==> At(t, j, reg) != At(t, k, reg)
      {
        PassingPair(t, reg, j, k);
      }
    }
    if AllPairs(t) {
      forall reg: VirtReg, j: Row, k: Row | j < k && (reg <= 16 || 1 <= j < k <= 5)
        ensures !IsError(RuleFor(reg), j, k, At(t, j, reg), At(t, k, reg))
      {
        AllPairsPass(t, reg, j, k);
      }
      assert forall reg: VirtReg :: reg <= 16 ==> Obeys(t, RuleFor(reg), reg, 0, 7);
      assert Obeys(t, RuleFor(17), 17, 1, 6);
    }
  }

  /** One pair of rows of a correct table, under the test's rule. */
  lemma CorrectPair(t: Table, reg: VirtReg, j: Row, k: Row)
    requires j < k && (reg <= 16 || 1 <= j < k <= 5)
    requires At(t, j, reg) == At(t, k, reg) <==> NameOf(ModeFromNum(j), reg) == NameOf(ModeFromNum(k), reg)
    ensures !IsError(RuleFor(reg), j, k, At(t, j, reg), At(t, k, reg))
  {
  }

  /** A correct table passes, and the unchecked part holds of it. */
  lemma CorrectTablePasses(t: Table)
    requires Readable(t) && AliasesCorrectly(t)
    ensures PassesTest(t)
  {
    forall reg: VirtReg, j: Row, k: Row | j < k && (reg <= 16 || 1 <= j < k <= 5)
      ensures !IsError(RuleFor(reg), j, k, At(t, j, reg), At(t, k, reg))
    {
      CorrectPair(t, reg, j, k);
    }
    assert forall reg: VirtReg :: reg <= 16 ==> Obeys(t, RuleFor(reg), reg, 0, 7);
    assert Obeys(t, RuleFor(17), 17, 1, 6);
  }

  lemma NameExists(j: Row, r: VirtReg)
    ensures NameOf(ModeFromNum(j), r).Some? <==> r <= 16 || 1 <= j <= 5
  {
  }

  lemma NumbersNameApart(j: Row, r: VirtReg, k: Row, s: VirtReg)
    requires r != s
    ensures NameOf(ModeFromNum(j), r).Some? || NameOf(ModeFromNum(k), s).Some?
    ensures NameOf(ModeFromNum(j), r) != NameOf(ModeFromNum(k), s)
  {
  }

  lemma FiqNamesApart(r: VirtReg, k: Row)
    requires 8 <= r <= 12 && k != 1
    ensures NameOf(ModeFromNum(1), r) != NameOf(ModeFromNum(k), r)
  {
  }

  lemma UserSystemNamesAgree(r: VirtReg)
    ensures NameOf(ModeFromNum(0), r) == NameOf(ModeFromNum(6), r)
  {
  }

  lemma CorrectTableUnchecked(t: Table)
    requires AliasesCorrectly(t)
    ensures UncheckedPartHolds(t)
  {
    hide NameOf, ModeFromNum;
    forall j: Row, r: VirtReg, k: Row, s: VirtReg | r != s && At(t, j, r).Some?
      ensures At(t, j, r) != At(t, k, s)
    {
      NumbersNameApart(j, r, k, s);
    }
    forall r: VirtReg, k: Row | 8 <= r <= 12 && k != 1
      ensures At(t, 1, r) != At(t, k, r)
    {
      FiqNamesApart(r, k);
    }
    UserSystemNamesAgree(13);
    UserSystemNamesAgree(14);
  }

  /** A passing table for which the unchecked part holds is correct. */
  lemma PassingTableIsCorrect(t: Table, j: Row, r: VirtReg, k: Row, s: VirtReg)
    requires Readable(t) && PassesTest(t) && UncheckedPartHolds(t)
    ensures At(t, j, r).Some? <==> NameOf(ModeFromNum(j), r).Some?
    ensures At(t, j, r) == At(t, k, s) <==> NameOf(ModeFromNum(j), r) == NameOf(ModeFromNum(k), s)
  {
    NameExists(j, r);
    NameExists(k, s);
    if r != s {
      assert At(t, j, r).Some? ==> At(t, j, r) != At(t, k, s);
      assert At(t, k, s).Some? ==> At(t, k, s) != At(t, j, r);
      NumbersNameApart(j, r, k, s);
    } else if j != k && (r <= 16 || (1 <= j <= 5 && 1 <= k <= 5)) {
      PassingPair(t, r, j, k);
    }
  }

  /** The test accepts exactly the correct tables, up to the part it never looks at. */
  lemma TestDecidesLayout(t: Table)
    requires Readable(t)
    ensures AliasesCorrectly(t) <==> PassesTest(t) && UncheckedPartHolds(t)
  {
    if AliasesCorrectly(t) {
      CorrectTablePasses(t);
      CorrectTableUnchecked(t);
    }
    if PassesTest(t) && UncheckedPartHolds(t) {
      forall j: Row, r: VirtReg, k: Row, s: VirtReg
        ensures At(t, j, r).Some? <==> NameOf(ModeFromNum(j), r).Some?
        ensures At(t, j, r) == At(t, k, s) <==> NameOf(ModeFromNum(j), r) == NameOf(ModeFromNum(k), s)
      {
        PassingTableIsCorrect(t, j, r, k, s);
      }
    }
  }

  function LayoutTable(): Table {
    seq(126, k requires 0 <= k < 126 => Slot(k / 18, k % 18))
  }

  lemma LayoutEntry(j: Row, r: VirtReg)
    ensures At(LayoutTable(), j, r) == Slot(j, r)
  {
    assert (j * 18 + r) / 18 == j && (j * 18 + r) % 18 == r;
  }

  lemma RowsAlias(j: Row, r: VirtReg, k: Row, s: VirtReg)
    ensures Slot(j, r).Some? <==> NameOf(ModeFromNum(j), r).Some?
    ensures Slot(j, r) == Slot(k, s) <==> NameOf(ModeFromNum(j), r) == NameOf(ModeFromNum(k), s)
  {
    ModeRoundTrip(j);
    ModeRoundTrip(k);
    SlotReachesName(ModeFromNum(j), r);
    SlotsAliasIffSameName(ModeFromNum(j), r, ModeFromNum(k), s);
  }

  /** The table of registers_create is correct. */
  lemma LayoutTableAliases()
    ensures Readable(LayoutTable()) && AliasesCorrectly(LayoutTable())
  {
    var t := LayoutTable();
    forall j: Row, r: VirtReg, k: Row, s: VirtReg
      ensures At(t, j, r).Some? <==> NameOf(ModeFromNum(j), r).Some?
      ensures At(t, j, r) == At(t, k, s) <==> NameOf(ModeFromNum(j), r) == NameOf(ModeFromNum(k), s)
    {
      LayoutEntry(j, r);
      LayoutEntry(k, s);
      RowsAlias(j, r, k, s);
    }
    forall j: Row, r: VirtReg | r <= 16 || 1 <= j <= 5 ensures At(t, j, r).Some? {
      LayoutEntry(j, r);
    }
  }

  /** So it passes its own test. */
  lemma LayoutTablePasses()
    ensures Readable(LayoutTable()) && PassesTest(LayoutTable())
  {
    LayoutTableAliases();
    CorrectTablePasses(LayoutTable());
  }

  /** The created table, except that FIQ's r8 points at the r8 of the other modes. */
  function SharedFiqTable(): Table {
    LayoutTable()[26 := Some(8)]
  }

  lemma SharedFiqEntry(j: Row, r: VirtReg)
    ensures At(SharedFiqTable(), j, r) == if j == 1 && r == 8 then Some(8) else At(LayoutTable(), j, r)
  {
  }

  lemma SharedFiqPair(reg: VirtReg, j: Row, k: Row)
    requires j < k && reg <= 16
    ensures !IsError(RuleFor(reg), j, k, At(SharedFiqTable(), j, reg), At(SharedFiqTable(), k, reg))
  {
    LayoutTablePasses();
    assert Obeys(LayoutTable(), RuleFor(reg), reg, 0, 7);
    assert RowObeys(LayoutTable(), RuleFor(reg), reg, j, 7);
    SharedFiqEntry(j, reg);
    SharedFiqEntry(k, reg);
  }

  /** The test is not sufficient: with FIQ's r8 shared with the other modes it still passes. */
  lemma TestAcceptsASharedFiqBank()
    ensures Readable(SharedFiqTable()) && PassesTest(SharedFiqTable()) && !AliasesCorrectly(SharedFiqTable())
  {
    LayoutTablePasses();
    var t, broken := LayoutTable(), SharedFiqTable();
    forall j: Row, r: VirtReg ensures At(broken, j, r) == if j == 1 && r == 8 then Some(8) else At(t, j, r) {
      SharedFiqEntry(j, r);
    }
    forall reg: VirtReg, j: Row, k: Row | j < k && reg <= 16
      ensures !IsError(RuleFor(reg), j, k, At(broken, j, reg), At(broken, k, reg))
    {
      SharedFiqPair(reg, j, k);
    }
    assert forall j: Row :: 1 <= j < 6 ==> RowObeys(t, Distinct, 17, j, 6) ==> RowObeys(broken, Distinct, 17, j, 6);
    LayoutEntry(0, 8);
    assert At(broken, 1, 8) == At(broken, 0, 8);
    assert NameOf(ModeFromNum(1), 8) != NameOf(ModeFromNum(0), 8);
  }
}
