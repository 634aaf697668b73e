/**
 * Whole runs of the register file: any finite sequence of accessor calls, interleaved with
 * mode switches made by the environment.
 */
module RegisterRuns {
  import opened Words
  import opened Banking
  import opened RegisterFile

  datatype File = File(mode: Byte, cells: Cells)

  /** The state that registers_create returns. */
  const CREATED: File := File(SYS, seq(37, _ => 0))

  datatype Op =
    | SetMode(mode: Byte)
    | Read(reg: VirtReg)
    | ReadUsr(reg: VirtReg)
    | ReadCpsr
    | ReadSpsr
    | Write(reg: VirtReg, value: Word)
    | WriteUsr(reg: VirtReg, value: Word)
    | WriteCpsr(value: Word)
    | WriteSpsr(value: Word)
  {
    predicate IsWrite() {
      Write? || WriteUsr? || WriteCpsr? || WriteSpsr?
    }

    predicate IsRead() {
      Read? || ReadUsr? || ReadCpsr? || ReadSpsr?
    }

    /** The register number the call indexes the table with. */
    function Number(): VirtReg
      requires !SetMode?
    {
      match this
      case Read(r) => r
      case ReadUsr(r) => r
      case Write(r, _) => r
      case WriteUsr(r, _) => r
      case ReadCpsr => 16
      case WriteCpsr(_) => 16
      case _ => 17
    }

    /** The mode whose row the call indexes. */
    function RowMode(current: Byte): Byte {
      if ReadUsr? || WriteUsr? then USR else current
    }
  }

  // ---- The implementation: through the pointer table ----------------------------------------

  /** The pointer an accessor follows; NULL is None. */
  function Pointer(mode: Byte, op: Op): (p: Option<nat>)
    requires !op.SetMode?
    ensures p.Some? ==> p.value < 37
  {
    Slot(ModeNum(op.RowMode(mode)), op.Number())
  }

  predicate Defined(mode: Byte, op: Op) {
    op.SetMode? || Pointer(mode, op).Some?
  }

  function Apply(f: File, op: Op): File
    requires Defined(f.mode, op)
  {
    if op.SetMode? then f.(mode := op.mode)
    else if op.IsWrite() then f.(cells := f.cells[Pointer(f.mode, op).value := op.value])
    else f
  }

  function Returned(f: File, op: Op): Word
    requires op.IsRead() && Defined(f.mode, op)
  {
    f.cells[Pointer(f.mode, op).value]
  }

  /** The state after a run, or None if some access follows a NULL pointer. */
  function Exec(f: File, ops: seq<Op>): Option<File> {
    if ops == [] then Some(f)
    else
      var before := Exec(f, ops[..|ops| - 1]);
      var op := ops[|ops| - 1];
      if before.Some? && Defined(before.value.mode, op) then Some(Apply(before.value, op)) else None
  }

  lemma ExecExtends(f: File, ops: seq<Op>, op: Op)
    ensures Exec(f, ops + [op]) ==
            var before := Exec(f, ops);
            if before.Some? && Defined(before.value.mode, op) then Some(Apply(before.value, op)) else None
  {
    assert (ops + [op])[..|ops|] == ops;
  }

  // ---- The class carries out these operations -----------------------------------------------

  ghost function FileOf(r: Registers): File
    requires r.Shaped()
    reads r, r.cells, r.table
  {
    File(r.mode, r.Contents())
  }

  method Perform(r: Registers, op: Op) returns (v: Option<Word>)
    requires r.Valid() && Defined(r.mode, op)
    modifies r`mode, r.cells
    ensures r.Valid()
    ensures FileOf(r) == Apply(old(FileOf(r)), op)
    ensures v == if op.IsRead() then Some(Returned(old(FileOf(r)), op)) else None
  {
    v := None;
    match op {
      case SetMode(m) => r.mode := m;
      case Read(reg) => var w := r.ReadRegister(reg); v := Some(w);
      case ReadUsr(reg) => var w := r.ReadUsrRegister(reg); v := Some(w);
      case ReadCpsr => var w := r.ReadCpsr(); v := Some(w);
      case ReadSpsr => var w := r.ReadSpsr(); v := Some(w);
      case Write(reg, value) => r.WriteRegister(reg, value);
      case WriteUsr(reg, value) => r.WriteUsrRegister(reg, value);
      case WriteCpsr(value) => r.WriteCpsr(value);
      case WriteSpsr(value) => r.WriteSpsr(value);
    }
  }

  /** A whole run on the class; it ends in the state `Exec` gives and keeps the layout. */
  method PerformAll(r: Registers, ops: seq<Op>)
    requires r.Valid() && Exec(FileOf(r), ops).Some?
    modifies r`mode, r.cells
    ensures r.Valid()
    ensures Some(FileOf(r)) == Exec(old(FileOf(r)), ops)
  {
    ghost var start := FileOf(r);
    for i := 0 to |ops|
      invariant r.Valid()
      invariant Some(FileOf(r)) == Exec(start, ops[..i])
    {
      assert ops[..i + 1] == ops[..i] + [ops[i]];
      PrefixDefined(start, ops, i + 1);
      ExecExtends(start, ops[..i], ops[i]);
      var _ := Perform(r, ops[i]);
    }
    assert ops[..|ops|] == ops;
  }

  lemma {:induction false} PrefixDefined(f: File, ops: seq<Op>, k: nat)
    requires k <= |ops| && Exec(f, ops).Some?
    ensures Exec(f, ops[..k]).Some?
    decreases |ops|
  {
    if k == |ops| {
      assert ops[..k] == ops;
    } else {
      PrefixDefined(f, ops[..|ops| - 1], k);
      assert ops[..|ops| - 1][..k] == ops[..k];
    }
  }

  // ---- The specification: architectural registers and the order of writes -------------------

  /** The mode in force before operation `k`: the last switch before it. */
  function ModeBefore(start: Byte, ops: seq<Op>, k: nat): Byte
    requires k <= |ops|
  {
    if k == 0 then start
    else if ops[k - 1].SetMode? then ops[k - 1].mode
    else ModeBefore(start, ops, k - 1)
  }

  /** The architectural register operation `k` is about. */
  function Target(start: Byte, ops: seq<Op>, k: nat): (name: Option<RegName>)
    requires k < |ops|
    ensures name.Some? ==> name.value.Exists()
  {
    if ops[k].SetMode? then None
    else NameOf(ops[k].RowMode(ModeBefore(start, ops, k)), ops[k].Number())
  }

  predicate WritesTo(start: Byte, ops: seq<Op>, k: nat, name: RegName)
    requires k < |ops|
  {
    ops[k].IsWrite() && Target(start, ops, k) == Some(name)
  }

  /** `v` is the last value written to `name` before operation `k`, or `init` if none was. */
  ghost predicate LastWritten(start: Byte, ops: seq<Op>, k: nat, name: RegName, init: Word, v: Word)
    requires k <= |ops|
  {
    || (v == init && forall j :: 0 <= j < k ==> !WritesTo(start, ops, j, name))
    || (exists i :: 0 <= i < k && WritesTo(start, ops, i, name) && ops[i].value == v &&
                    forall j :: i < j < k ==> !WritesTo(start, ops, j, name))
  }

  /** The word an architectural register holds. */
  function View(f: File, name: RegName): Word
    requires name.Exists()
  {
    f.cells[CellOf(name)]
  }

  lemma {:induction false} ModeOfRun(f: File, ops: seq<Op>, k: nat)
    requires k <= |ops| && Exec(f, ops[..k]).Some?
    ensures Exec(f, ops[..k]).value.mode == ModeBefore(f.mode, ops, k)
    decreases k
  {
    if k > 0 {
      assert ops[..k] == ops[..k - 1] + [ops[k - 1]];
      ExecExtends(f, ops[..k - 1], ops[k - 1]);
      ModeOfRun(f, ops, k - 1);
    }
  }

  /** One operation, seen by architectural name. */
  lemma ApplyByName(f: File, op: Op, name: RegName)
    requires Defined(f.mode, op) && name.Exists()
    ensures !op.SetMode? ==>
              var target := NameOf(op.RowMode(f.mode), op.Number());
              target.Some? && Pointer(f.mode, op) == Some(CellOf(target.value))
    ensures View(Apply(f, op), name) ==
            if op.IsWrite() && NameOf(op.RowMode(f.mode), op.Number()) == Some(name)
            then op.value else View(f, name)
  {
    if !op.SetMode? {
      SlotReachesName(op.RowMode(f.mode), op.Number());
      var target := NameOf(op.RowMode(f.mode), op.Number()).value;
      CellsAreNames(name, 0);
      CellsAreNames(target, 0);
    }
  }

  /** One more operation: the last value written is the new one, or what it was. */
  lemma LastWrittenExtends(start: Byte, ops: seq<Op>, k: nat, name: RegName, init: Word, v: Word)
    requires k < |ops| && LastWritten(start, ops, k, name, init, v)
    ensures LastWritten(start, ops, k + 1, name, init, if WritesTo(start, ops, k, name) then ops[k].value else v)
  {
  }

  /** In every run, every architectural register holds the last value written to it. */
  lemma {:induction false} RunRefinesNames(f: File, ops: seq<Op>, k: nat, name: RegName)
    requires k <= |ops| && Exec(f, ops[..k]).Some? && name.Exists()
    ensures LastWritten(f.mode, ops, k, name, View(f, name), View(Exec(f, ops[..k]).value, name))
    decreases k
  {
    if k > 0 {
      assert ops[..k] == ops[..k - 1] + [ops[k - 1]];
      ExecExtends(f, ops[..k - 1], ops[k - 1]);
      RunRefinesNames(f, ops, k - 1, name);
      ModeOfRun(f, ops, k - 1);
      var g := Exec(f, ops[..k - 1]).value;
      ApplyByName(g, ops[k - 1], name);
      LastWrittenExtends(f.mode, ops, k - 1, name, View(f, name), View(g, name));
    }
  }

  /** At most one value can be the last one written, so `LastWritten` pins each read down. */
  lemma LastWrittenIsUnique(start: Byte, ops: seq<Op>, k: nat, name: RegName, init: Word, v: Word, w: Word)
    requires k <= |ops|
    requires LastWritten(start, ops, k, name, init, v) && LastWritten(start, ops, k, name, init, w)
    ensures v == w
  {
  }

  /** In a defined run, operation k runs in the mode `ModeBefore` gives and reaches its target. */
  lemma StepOfRun(f: File, ops: seq<Op>, k: nat)
    requires k < |ops| && Exec(f, ops).Some?
    ensures Exec(f, ops[..k]).Some?
    ensures var g := Exec(f, ops[..k]).value;
            && g.mode == ModeBefore(f.mode, ops, k)
            && Defined(g.mode, ops[k])
  {
    PrefixDefined(f, ops, k);
    PrefixDefined(f, ops, k + 1);
    assert ops[..k + 1] == ops[..k] + [ops[k]];
    ExecExtends(f, ops[..k], ops[k]);
    ModeOfRun(f, ops, k);
  }

  /**
   * Trace refinement. In any run from creation, the read at position k returns the last value
   * written to the same architectural register, under any mode's name for it, and 0 if none was.
   */
  lemma ReadsReturnLastWrite(ops: seq<Op>, k: nat)
    requires k < |ops| && Exec(CREATED, ops).Some? && ops[k].IsRead()
    ensures Exec(CREATED, ops[..k]).Some?
    ensures var f := Exec(CREATED, ops[..k]).value;
            && Defined(f.mode, ops[k])
            && Target(SYS, ops, k).Some?
            && LastWritten(SYS, ops, k, Target(SYS, ops, k).value, 0, Returned(f, ops[k]))
  {
    StepOfRun(CREATED, ops, k);
    var f := Exec(CREATED, ops[..k]).value;
    ApplyByName(f, ops[k], Pc);
    RunRefinesNames(CREATED, ops, k, Target(SYS, ops, k).value);
  }

  /** The accesses C leaves undefined: an SPSR access outside the five exception modes. */
  predicate FollowsNull(mode: Byte, op: Op) {
    !op.SetMode? && op.Number() == 17 && ExcOf(op.RowMode(mode)).None?
  }

  lemma DefinedIff(mode: Byte, op: Op)
    ensures Defined(mode, op) <==> !FollowsNull(mode, op)
  {
    if !op.SetMode? { DefinedSlots(op.RowMode(mode), op.Number()); }
  }

  /** A run reaches a real word at every access iff no access asks for a missing SPSR. */
  lemma {:induction false} RunDefinedIff(f: File, ops: seq<Op>)
    ensures Exec(f, ops).Some? <==>
            forall k :: 0 <= k < |ops| ==> !FollowsNull(ModeBefore(f.mode, ops, k), ops[k])
    decreases |ops|
  {
    hide Defined, FollowsNull, Apply, ModeBefore;
    if ops != [] {
      var n := |ops| - 1;
      var init := ops[..n];
      RunDefinedIff(f, init);
      forall k | 0 <= k < n
        ensures FollowsNull(ModeBefore(f.mode, init, k), init[k]) == FollowsNull(ModeBefore(f.mode, ops, k), ops[k])
      {
        ModeBeforePrefix(f.mode, ops, n, k);
      }
      if Exec(f, init).Some? {
        ModeOfRun(f, ops, n);
        DefinedIff(Exec(f, init).value.mode, ops[n]);
      }
    }
  }

  lemma {:induction false} ModeBeforePrefix(start: Byte, ops: seq<Op>, n: nat, k: nat)
    requires k <= n <= |ops|
    ensures ModeBefore(start, ops[..n], k) == ModeBefore(start, ops, k)
    decreases k
  {
    if k > 0 { ModeBeforePrefix(start, ops, n, k - 1); }
  }

  /** No accessor, whatever it writes to the CPSR, ever changes the mode: only the environment does. */
  lemma {:induction false} AccessorsKeepMode(f: File, ops: seq<Op>)
    requires Exec(f, ops).Some? && forall k :: 0 <= k < |ops| ==> !ops[k].SetMode?
    ensures Exec(f, ops).value.mode == f.mode
    decreases |ops|
  {
    if ops != [] { AccessorsKeepMode(f, ops[..|ops| - 1]); }
  }

  // ---- Bank isolation ------------------------------------------------------------------------

  /** The registers private to an exception mode. */
  predicate InBank(e: Exc, name: RegName) {
    || (name.Banked? && name.exc == e)
    || (name.Spsr? && name.exc == e)
    || (name.FiqGeneral? && e == Fiq)
  }

  /** A write, issued in mode `mode`, by the exception mode `e` to a register of its own bank. */
  predicate OwnWrite(e: Exc, mode: Byte, op: Op) {
    && op.IsWrite()
    && mode == ModeOf(e)
    && !op.WriteUsr?
    && op.Number() != 15 && op.Number() != 16
    && (op.Number() >= 13 || (e == Fiq && op.Number() >= 8))
  }

  /** The subsequence of a run's own writes of `e`: register number and value. */
  function OwnWrites(e: Exc, start: Byte, ops: seq<Op>): seq<(VirtReg, Word)> {
    if ops == [] then []
    else
      var n := |ops| - 1;
      OwnWrites(e, start, ops[..n]) +
      (if OwnWrite(e, ModeBefore(start, ops, n), ops[n]) then [(ops[n].Number(), ops[n].value)] else [])
  }

  /** Only a mode's own writes reach its bank, and they reach nothing else. */
  lemma BankWritersAreOwners(e: Exc, mode: Byte, op: Op)
    requires op.IsWrite()
    ensures var target := NameOf(op.RowMode(mode), op.Number());
            OwnWrite(e, mode, op) <==> target.Some? && InBank(e, target.value)
    ensures OwnWrite(e, mode, op) ==>
              NameOf(op.RowMode(mode), op.Number()) == NameOf(ModeOf(e), op.Number())
  {
  }

  /** The value a bank register has after a list of own writes. */
  function Replay(e: Exc, writes: seq<(VirtReg, Word)>, name: RegName, init: Word): Word {
    if writes == [] then init
    else
      var (reg, v) := writes[|writes| - 1];
      if NameOf(ModeOf(e), reg) == Some(name) then v else Replay(e, writes[..|writes| - 1], name, init)
  }

  lemma {:induction false} BankIsReplay(e: Exc, f: File, ops: seq<Op>, name: RegName)
    requires Exec(f, ops).Some? && name.Exists() && InBank(e, name)
    ensures View(Exec(f, ops).value, name) == Replay(e, OwnWrites(e, f.mode, ops), name, View(f, name))
    decreases |ops|
  {
    if ops != [] {
      var n := |ops| - 1;
      var init := ops[..n];
      BankIsReplay(e, f, init, name);
      assert init[..n] == init;
      ModeOfRun(f, init, n);
      ModeBeforePrefix(f.mode, ops, n, n);
      var g := Exec(f, init).value;
      ApplyByName(g, ops[n], name);
      var own := OwnWrites(e, f.mode, init);
      if ops[n].IsWrite() {
        BankWritersAreOwners(e, g.mode, ops[n]);
        if OwnWrite(e, g.mode, ops[n]) {
          var w := (ops[n].Number(), ops[n].value);
          assert (own + [w])[..|own|] == own;
        }
      }
      assert own + [] == own;
    }
  }

  /**
   * Isolation inwards: whatever the two runs otherwise do, if the exception mode issues the same
   * own writes in both, its private registers end up the same.
   */
  lemma BankDependsOnOwnWritesOnly(e: Exc, f: File, g: File, ops1: seq<Op>, ops2: seq<Op>)
    requires Exec(f, ops1).Some? && Exec(g, ops2).Some?
    requires OwnWrites(e, f.mode, ops1) == OwnWrites(e, g.mode, ops2)
    requires forall name: RegName :: name.Exists() && InBank(e, name) ==> View(f, name) == View(g, name)
    ensures forall name: RegName :: name.Exists() && InBank(e, name) ==>
              View(Exec(f, ops1).value, name) == View(Exec(g, ops2).value, name)
  {
    forall name: RegName | name.Exists() && InBank(e, name)
      ensures View(Exec(f, ops1).value, name) == View(Exec(g, ops2).value, name)
    {
      BankIsReplay(e, f, ops1, name);
      BankIsReplay(e, g, ops2, name);
    }
  }

  /** The run with every own write of `e` taken out. */
  function Erase(e: Exc, start: Byte, ops: seq<Op>): seq<Op> {
    if ops == [] then []
    else
      var n := |ops| - 1;
      Erase(e, start, ops[..n]) +
      (if OwnWrite(e, ModeBefore(start, ops, n), ops[n]) then [] else [ops[n]])
  }

  lemma {:induction false} EraseKeepsTheRest(e: Exc, f: File, ops: seq<Op>, name: RegName)
    requires Exec(f, ops).Some? && name.Exists() && !InBank(e, name)
    ensures var r := Exec(f, Erase(e, f.mode, ops));
            && r.Some?
            && r.value.mode == Exec(f, ops).value.mode
            && View(r.value, name) == View(Exec(f, ops).value, name)
    decreases |ops|
  {
    if ops != [] {
      var n := |ops| - 1;
      var init := ops[..n];
      EraseKeepsTheRest(e, f, init, name);
      assert init[..n] == init;
      ModeOfRun(f, init, n);
      ModeBeforePrefix(f.mode, ops, n, n);
      var g := Exec(f, init).value;
      ApplyByName(g, ops[n], name);
      if OwnWrite(e, g.mode, ops[n]) {
        BankWritersAreOwners(e, g.mode, ops[n]);
        assert Erase(e, f.mode, init) + [] == Erase(e, f.mode, init);
      } else {
        var h := Exec(f, Erase(e, f.mode, init)).value;
        ExecExtends(f, Erase(e, f.mode, init), ops[n]);
        ApplyByName(h, ops[n], name);
      }
    }
  }

  /**
   * Isolation outwards: taking every own write of an exception mode out of a run changes nothing
   * that any other mode reads afterwards, under any register number.
   */
  lemma OwnWritesAreInvisibleOutside(e: Exc, f: File, ops: seq<Op>, mode: Byte, reg: VirtReg)
    requires Exec(f, ops).Some? && mode != ModeOf(e) && Slot(ModeNum(mode), reg).Some?
    ensures var r := Exec(f, Erase(e, f.mode, ops));
            && r.Some?
            && r.value.cells[Slot(ModeNum(mode), reg).value] == Exec(f, ops).value.cells[Slot(ModeNum(mode), reg).value]
  {
    SlotReachesName(mode, reg);
    EraseKeepsTheRest(e, f, ops, NameOf(mode, reg).value);
  }

  // ---- Reordering ----------------------------------------------------------------------------

  /** The values a run writes to one architectural register, in order. */
  function ValuesFor(name: RegName, start: Byte, ops: seq<Op>): seq<Word> {
    if ops == [] then []
    else
      var n := |ops| - 1;
      ValuesFor(name, start, ops[..n]) + (if WritesTo(start, ops, n, name) then [ops[n].value] else [])
  }

  lemma {:induction false} ViewIsLastValue(name: RegName, f: File, ops: seq<Op>)
    requires Exec(f, ops).Some? && name.Exists()
    ensures var vs := ValuesFor(name, f.mode, ops);
            View(Exec(f, ops).value, name) == if vs == [] then View(f, name) else vs[|vs| - 1]
    decreases |ops|
  {
    if ops != [] {
      var n := |ops| - 1;
      var init := ops[..n];
      ViewIsLastValue(name, f, init);
      assert init[..n] == init;
      ModeOfRun(f, init, n);
      ModeBeforePrefix(f.mode, ops, n, n);
      ApplyByName(Exec(f, init).value, ops[n], name);
    }
  }

  /** Files that agree on every architectural register agree on all 37 words. */
  lemma SameViewsSameCells(c: Cells, d: Cells)
    requires forall name: RegName :: name.Exists() ==> c[CellOf(name)] == d[CellOf(name)]
    ensures c == d
  {
    forall k | 0 <= k < 37 ensures c[k] == d[k] {
      CellsAreNames(Pc, k);
      assert NameAt(k).Exists();
    }
  }

  /**
   * Two runs that write the same values in the same order to each architectural register leave
   * the same storage, however the registers' writes are interleaved and named.
   */
  lemma ReorderingIsHarmless(f: File, ops1: seq<Op>, ops2: seq<Op>)
    requires Exec(f, ops1).Some? && Exec(f, ops2).Some?
    requires forall name: RegName :: name.Exists() ==> ValuesFor(name, f.mode, ops1) == ValuesFor(name, f.mode, ops2)
    ensures Exec(f, ops1).value.cells == Exec(f, ops2).value.cells
  {
    var c, d := Exec(f, ops1).value, Exec(f, ops2).value;
    forall name: RegName | name.Exists() ensures c.cells[CellOf(name)] == d.cells[CellOf(name)] {
      ViewIsLastValue(name, f, ops1);
      ViewIsLastValue(name, f, ops2);
      assert View(c, name) == View(d, name);
    }
    SameViewsSameCells(c.cells, d.cells);
  }

  /** The storage after a write to number `reg` in `mode`. */
  function Put(c: Cells, mode: Byte, reg: VirtReg, v: Word): Cells
    requires Slot(ModeNum(mode), reg).Some?
  {
    c[Slot(ModeNum(mode), reg).value := v]
  }

  /** Two writes commute in every state exactly when they do not alias or write the same value. */
  lemma WritesCommuteIff(m1: Byte, r1: VirtReg, v1: Word, m2: Byte, r2: VirtReg, v2: Word)
    requires Slot(ModeNum(m1), r1).Some? && Slot(ModeNum(m2), r2).Some?
    ensures (forall c: Cells :: Put(Put(c, m1, r1, v1), m2, r2, v2) == Put(Put(c, m2, r2, v2), m1, r1, v1))
            <==> NameOf(m1, r1) != NameOf(m2, r2) || v1 == v2
  {
    SlotsAliasIffSameName(m1, r1, m2, r2);
    var k1, k2 := Slot(ModeNum(m1), r1).value, Slot(ModeNum(m2), r2).value;
    if k1 == k2 && v1 != v2 {
      var c := CREATED.cells;
      assert Put(Put(c, m1, r1, v1), m2, r2, v2)[k1] == v2;
      assert Put(Put(c, m2, r2, v2), m1, r1, v1)[k1] == v1;
    } else {
      forall c: Cells ensures Put(Put(c, m1, r1, v1), m2, r2, v2) == Put(Put(c, m2, r2, v2), m1, r1, v1) {
        if k1 == k2 {
          assert c[k1 := v1][k1 := v2] == c[k1 := v2][k1 := v1];
        } else {
          assert c[k1 := v1][k2 := v2] == c[k2 := v2][k1 := v1];
        }
      }
    }
  }

  // ---- Dump and reload -----------------------------------------------------------------------

  /** The calls that write into a file the values another file shows at the listed places. */
  function ReloadOps(source: Cells, places: seq<(Byte, VirtReg)>): seq<Op>
    requires forall p :: p in places ==> Slot(ModeNum(p.0), p.1).Some?
  {
    if places == [] then []
    else
      var n := |places| - 1;
      var (mode, reg) := places[n];
      ReloadOps(source, places[..n]) + [SetMode(mode)] + [Write(reg, source[Slot(ModeNum(mode), reg).value])]
  }

  /** Some listed place points at cell k. */
  ghost predicate Covers(places: seq<(Byte, VirtReg)>, k: nat) {
    exists i :: 0 <= i < |places| && Slot(ModeNum(places[i].0), places[i].1) == Some(k)
  }

  lemma CoversExtends(places: seq<(Byte, VirtReg)>, k: nat)
    requires places != []
    ensures var n := |places| - 1;
            Covers(places, k) <==> Covers(places[..n], k) || Slot(ModeNum(places[n].0), places[n].1) == Some(k)
  {
    var n := |places| - 1;
    if Covers(places[..n], k) {
      var i :| 0 <= i < n && Slot(ModeNum(places[..n][i].0), places[..n][i].1) == Some(k);
      assert Slot(ModeNum(places[i].0), places[i].1) == Some(k);
    }
    if Covers(places, k) && Slot(ModeNum(places[n].0), places[n].1) != Some(k) {
      var i :| 0 <= i < |places| && Slot(ModeNum(places[i].0), places[i].1) == Some(k);
      assert places[..n][i] == places[i];
    }
  }

  lemma ReloadExtends(f: File, source: Cells, places: seq<(Byte, VirtReg)>)
    requires places != [] && forall p :: p in places ==> Slot(ModeNum(p.0), p.1).Some?
    requires Exec(f, ReloadOps(source, places[..|places| - 1])).Some?
    ensures var (mode, reg) := places[|places| - 1];
            var cell := Slot(ModeNum(mode), reg).value;
            var before := Exec(f, ReloadOps(source, places[..|places| - 1])).value;
            Exec(f, ReloadOps(source, places)) == Some(File(mode, before.cells[cell := source[cell]]))
  {
    var (mode, reg) := places[|places| - 1];
    var ops := ReloadOps(source, places[..|places| - 1]);
    ExecExtends(f, ops, SetMode(mode));
    ExecExtends(f, ops + [SetMode(mode)], Write(reg, source[Slot(ModeNum(mode), reg).value]));
  }

  lemma {:induction false} ReloadSoFar(f: File, source: Cells, places: seq<(Byte, VirtReg)>)
    requires forall p :: p in places ==> Slot(ModeNum(p.0), p.1).Some?
    ensures Exec(f, ReloadOps(source, places)).Some?
    ensures forall k :: 0 <= k < 37 ==>
              Exec(f, ReloadOps(source, places)).value.cells[k] == if Covers(places, k) then source[k] else f.cells[k]
    decreases |places|
  {
    if places != [] {
      ReloadSoFar(f, source, places[..|places| - 1]);
      ReloadExtends(f, source, places);
      forall k | 0 <= k < 37
        ensures Exec(f, ReloadOps(source, places)).value.cells[k] == if Covers(places, k) then source[k] else f.cells[k]
      {
        CoversExtends(places, k);
      }
    }
  }

  /**
   * Round trip: writing what a file shows, at any list of places that covers every architectural
   * register and in any order, into a newly created file reproduces all 37 words.
   */
  lemma DumpAndReload(source: Cells, places: seq<(Byte, VirtReg)>)
    requires forall p :: p in places ==> Slot(ModeNum(p.0), p.1).Some?
    requires forall name: RegName :: name.Exists() ==> exists p :: p in places && NameOf(p.0, p.1) == Some(name)
    ensures Exec(CREATED, ReloadOps(source, places)).Some?
    ensures Exec(CREATED, ReloadOps(source, places)).value.cells == source
  {
    ReloadSoFar(CREATED, source, places);
    var r := Exec(CREATED, ReloadOps(source, places)).value;
    forall k | 0 <= k < 37 ensures r.cells[k] == source[k] {
      CellsAreNames(Pc, k);
      assert NameAt(k).Exists();
      var p :| p in places && NameOf(p.0, p.1) == Some(NameAt(k));
      var i :| 0 <= i < |places| && places[i] == p;
      SlotReachesName(p.0, p.1);
      assert Slot(ModeNum(places[i].0), places[i].1) == Some(k);
      assert Covers(places, k);
    }
  }

  /** Files that agree on every defined read in every mode are identical in storage. */
  lemma SameReadsSameCells(c: Cells, d: Cells)
    requires forall mode: Byte, reg: VirtReg :: Slot(ModeNum(mode), reg).Some? ==>
               c[Slot(ModeNum(mode), reg).value] == d[Slot(ModeNum(mode), reg).value]
    ensures c == d
  {
    forall name: RegName | name.Exists() ensures c[CellOf(name)] == d[CellOf(name)] {
      EveryNameIsVisible(name);
      SlotReachesName(ModeShowing(name), NumberOf(name));
    }
    SameViewsSameCells(c, d);
  }

  // ---- User-bank access ----------------------------------------------------------------------

  /** The same operation, except that a switch to USR may be a switch to SYS and vice versa. */
  predicate UserAlike(op1: Op, op2: Op) {
    || op1 == op2
    || (op1.SetMode? && op2.SetMode? && ExcOf(op1.mode).None? && ExcOf(op2.mode).None?)
  }

  lemma {:induction false} UserAndSystemAlike(f: File, g: File, ops1: seq<Op>, ops2: seq<Op>)
    requires |ops1| == |ops2| && forall k :: 0 <= k < |ops1| ==> UserAlike(ops1[k], ops2[k])
    requires f.cells == g.cells && ExcOf(f.mode) == ExcOf(g.mode)
    ensures var r, s := Exec(f, ops1), Exec(g, ops2);
            && (r.Some? <==> s.Some?)
            && (r.Some? ==> r.value.cells == s.value.cells && ExcOf(r.value.mode) == ExcOf(s.value.mode))
    decreases |ops1|
  {
    if ops1 != [] {
      var n := |ops1| - 1;
      UserAndSystemAlike(f, g, ops1[..n], ops2[..n]);
      assert UserAlike(ops1[n], ops2[n]);
      var r, s := Exec(f, ops1[..n]), Exec(g, ops2[..n]);
      if r.Some? && !ops1[n].SetMode? {
        SlotReachesName(ops1[n].RowMode(r.value.mode), ops1[n].Number());
        SlotReachesName(ops1[n].RowMode(s.value.mode), ops1[n].Number());
      }
    }
  }

  /** Replacing USR by SYS anywhere in a run changes no value that any read of the run returns. */
  lemma UserAndSystemReadAlike(f: File, ops1: seq<Op>, ops2: seq<Op>, k: nat)
    requires |ops1| == |ops2| && forall i :: 0 <= i < |ops1| ==> UserAlike(ops1[i], ops2[i])
    requires Exec(f, ops1).Some? && k < |ops1| && ops1[k].IsRead()
    ensures ops2[k] == ops1[k]
    ensures var r, s := Exec(f, ops1[..k]), Exec(f, ops2[..k]);
            && r.Some? && s.Some?
            && Defined(r.value.mode, ops1[k]) && Defined(s.value.mode, ops1[k])
            && Returned(r.value, ops1[k]) == Returned(s.value, ops1[k])
  {
    assert UserAlike(ops1[k], ops2[k]);
    StepOfRun(f, ops1, k);
    UserAndSystemAlike(f, f, ops1[..k], ops2[..k]);
    var r, s := Exec(f, ops1[..k]).value, Exec(f, ops2[..k]).value;
    SlotReachesName(ops1[k].RowMode(r.mode), ops1[k].Number());
    SlotReachesName(ops1[k].RowMode(s.mode), ops1[k].Number());
  }

  /**
   * read_usr_register and write_usr_register act as a switch to USR, the ordinary access and a
   * switch back, from any mode; on number 17 both sides follow NULL.
   */
  lemma UserAccessIsASwitch(f: File, reg: VirtReg, v: Word)
    ensures Exec(f, [WriteUsr(reg, v)]) == Exec(f, [SetMode(USR), Write(reg, v), SetMode(f.mode)])
    ensures Defined(f.mode, ReadUsr(reg)) ==>
              Returned(f, ReadUsr(reg)) == Returned(f.(mode := USR), Read(reg))
  {
    var ops := [SetMode(USR), Write(reg, v), SetMode(f.mode)];
    assert ops == [SetMode(USR), Write(reg, v)] + [SetMode(f.mode)];
    ExecExtends(f, [SetMode(USR), Write(reg, v)], SetMode(f.mode));
    assert [SetMode(USR), Write(reg, v)] == [SetMode(USR)] + [Write(reg, v)];
    ExecExtends(f, [SetMode(USR)], Write(reg, v));
    assert [SetMode(USR)] == [] + [SetMode(USR)];
    ExecExtends(f, [], SetMode(USR));
    assert [WriteUsr(reg, v)] == [] + [WriteUsr(reg, v)];
    ExecExtends(f, [], WriteUsr(reg, v));
  }
}
