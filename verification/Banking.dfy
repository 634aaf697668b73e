/**
 * The register banks: the architectural names of the ARM Architecture Reference Manual
 * (sections A2.2 to A2.5), and the physical layout chosen by registers.c.
 */
module Banking {
  import opened Words

  const USR: Byte := 0x10
  const FIQ: Byte := 0x11
  const IRQ: Byte := 0x12
  const SVC: Byte := 0x13
  const ABT: Byte := 0x17
  const UND: Byte := 0x1b
  const SYS: Byte := 0x1f

  type Cells = s: seq<Word> | |s| == 37 witness seq(37, _ => 0)
  type Row = n: nat | n < 7
  type VirtReg = n: nat | n < 18

  /** get_mode_num of registers.c: every byte that is not one of six modes counts as SYS. */
  function ModeNum(mode: Byte): Row {
    if mode == 0x10 then 0
    else if mode == 0x11 then 1
    else if mode == 0x12 then 2
    else if mode == 0x13 then 3
    else if mode == 0x17 then 4
    else if mode == 0x1b then 5
    else 6
  }

  /** get_mode_from_num of registers_test.c. */
  function ModeFromNum(num: int): Byte {
    if num == 0 then USR
    else if num == 1 then FIQ
    else if num == 2 then IRQ
    else if num == 3 then SVC
    else if num == 4 then ABT
    else if num == 5 then UND
    else SYS
  }

  // ---- The architecture's view -------------------------------------------------------------

  /** The five exception modes, each with a bank of its own. */
  datatype Exc = Fiq | Irq | Svc | Abt | Und

  /**
   * One constructor for each family of registers the architecture defines. `Shared` is r0-r7,
   * `General` r8-r12 outside FIQ, `FiqGeneral` r8-r12 in FIQ, `User` r13-r14 of USR and SYS,
   * `Banked` r13-r14 of an exception mode.
   */
  datatype RegName =
    | Shared(n: nat)
    | General(n: nat)
    | FiqGeneral(n: nat)
    | User(n: nat)
    | Banked(exc: Exc, n: nat)
    | Pc
    | Cpsr
    | Spsr(exc: Exc)
  {
    predicate Exists() {
      match this
      case Shared(n) => n <= 7
      case General(n) => 8 <= n <= 12
      case FiqGeneral(n) => 8 <= n <= 12
      case User(n) => 13 <= n <= 14
      case Banked(_, n) => 13 <= n <= 14
      case _ => true
    }
  }

  /** The exception mode a mode byte stands for, if any. */
  function ExcOf(mode: Byte): Option<Exc> {
    if mode == FIQ then Some(Fiq)
    else if mode == IRQ then Some(Irq)
    else if mode == SVC then Some(Svc)
    else if mode == ABT then Some(Abt)
    else if mode == UND then Some(Und)
    else None
  }

  /** The architectural register that number `reg` denotes in a mode; 16 is CPSR, 17 is SPSR. */
  function NameOf(mode: Byte, reg: VirtReg): (name: Option<RegName>)
    ensures name.Some? ==> name.value.Exists()
  {
    var exc := ExcOf(mode);
    if reg <= 7 then Some(Shared(reg))
    else if reg <= 12 then Some(if exc == Some(Fiq) then FiqGeneral(reg) else General(reg))
    else if reg <= 14 then Some(if exc.Some? then Banked(exc.value, reg) else User(reg))
    else if reg == 15 then Some(Pc)
    else if reg == 16 then Some(Cpsr)
    else if exc.Some? then Some(Spsr(exc.value))
    else None
  }

  // ---- The physical layout ------------------------------------------------------------------

  /**
   * One row of virtual_regs as registers_create fills it: r8-r12 are displaced by `mid`,
   * r13-r14 by `high`, and `spsr` is the last slot.
   */
  function RowSlot(reg: VirtReg, mid: nat, high: nat, spsr: Option<nat>): Option<nat> {
    if reg <= 7 then Some(reg)
    else if reg <= 12 then Some(reg + mid)
    else if reg <= 14 then Some(reg + high)
    else if reg <= 16 then Some(reg + 15)
    else spsr
  }

  /**
   * The whole 7 x 18 table: only FIQ displaces r8-r12, every exception mode displaces r13-r14
   * by two more cells than the one before, and SYS is filled like USR.
   */
  function Slot(row: Row, reg: VirtReg): (slot: Option<nat>)
    ensures slot.Some? ==> slot.value < 37
  {
    RowSlot(reg,
            if row == 1 then 5 else 0,
            if row == 6 then 5 else 5 + 2 * row,
            if 1 <= row <= 5 then Some(31 + row) else None)
  }

  function ExcRank(e: Exc): nat {
    match e case Fiq => 0 case Irq => 1 case Svc => 2 case Abt => 3 case Und => 4
  }

  function ExcAt(k: nat): Exc
    requires k < 5
  {
    if k == 0 then Fiq else if k == 1 then Irq else if k == 2 then Svc else if k == 3 then Abt else Und
  }

  /** The cell in which an architectural register lives. */
  function CellOf(name: RegName): (cell: nat)
    requires name.Exists()
    ensures cell < 37
  {
    match name
    case Shared(n) => n
    case General(n) => n
    case FiqGeneral(n) => n + 5
    case User(n) => n + 5
    case Banked(e, n) => n + 7 + 2 * ExcRank(e)
    case Pc => 30
    case Cpsr => 31
    case Spsr(e) => 32 + ExcRank(e)
  }

  /** The architectural register that lives in a cell: the inverse of `CellOf`. */
  function NameAt(cell: nat): (name: RegName)
    requires cell < 37
    ensures name.Exists()
  {
    if cell <= 7 then Shared(cell)
    else if cell <= 12 then General(cell)
    else if cell <= 17 then FiqGeneral(cell - 5)
    else if cell <= 19 then User(cell - 5)
    else if cell <= 29 then Banked(ExcAt((cell - 20) / 2), 13 + cell % 2)
    else if cell == 30 then Pc
    else if cell == 31 then Cpsr
    else Spsr(ExcAt(cell - 32))
  }

  /** The 37 architectural registers and the 37 cells correspond one to one, none left over. */
  lemma CellsAreNames(name: RegName, cell: nat)
    requires name.Exists() && cell < 37
    ensures NameAt(CellOf(name)) == name
    ensures CellOf(NameAt(cell)) == cell
  {
    match name
    case Banked(e, n) => assert (n + 7 + 2 * ExcRank(e) - 20) / 2 == ExcRank(e);
    case _ =>
  }

  /** The table reaches, in every mode byte, exactly the cell of the architectural register. */
  lemma SlotReachesName(mode: Byte, reg: VirtReg)
    ensures Slot(ModeNum(mode), reg) ==
            (if NameOf(mode, reg).Some? then Some(CellOf(NameOf(mode, reg).value)) else None)
  {
  }

  /** Two slots hold the same pointer exactly when they name the same architectural register. */
  lemma SlotsAliasIffSameName(m1: Byte, r1: VirtReg, m2: Byte, r2: VirtReg)
    ensures Slot(ModeNum(m1), r1) == Slot(ModeNum(m2), r2) <==> NameOf(m1, r1) == NameOf(m2, r2)
  {
    SlotReachesName(m1, r1);
    SlotReachesName(m2, r2);
    if NameOf(m1, r1).Some? && NameOf(m2, r2).Some? {
      CellsAreNames(NameOf(m1, r1).value, 0);
      CellsAreNames(NameOf(m2, r2).value, 0);
    }
  }

  /** Every architectural register is visible from some mode, under its own number. */
  function ModeShowing(name: RegName): Byte {
    match name
    case FiqGeneral(_) => FIQ
    case Banked(e, _) => ModeOf(e)
    case Spsr(e) => ModeOf(e)
    case _ => USR
  }

  function NumberOf(name: RegName): VirtReg
    requires name.Exists()
  {
    match name
    case Shared(n) => n
    case General(n) => n
    case FiqGeneral(n) => n
    case User(n) => n
    case Banked(_, n) => n
    case Pc => 15
    case Cpsr => 16
    case Spsr(_) => 17
  }

  function ModeOf(e: Exc): Byte {
    match e case Fiq => FIQ case Irq => IRQ case Svc => SVC case Abt => ABT case Und => UND
  }

  lemma EveryNameIsVisible(name: RegName)
    requires name.Exists()
    ensures NameOf(ModeShowing(name), NumberOf(name)) == Some(name)
  {
  }

  /** Numbers 0 to 16 are defined in every mode; 17 exactly in the five exception modes. */
  lemma DefinedSlots(mode: Byte, reg: VirtReg)
    ensures Slot(ModeNum(mode), reg).Some? <==> reg <= 16 || ExcOf(mode).Some?
  {
  }
}
