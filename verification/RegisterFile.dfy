/** The register file of registers.c: 37 words reached through a table of 7 x 18 pointers. */
module RegisterFile {
  import opened Words
  import opened Banking

  class Registers {
    var mode: Byte
    const cells: array<Word>
    const table: array<Option<nat>>

    /** Every pointer is NULL or points at one of the 37 words. */
    ghost predicate Shaped()
      reads table
    {
      && cells.Length == 37
      && table.Length == 126
      && forall k :: 0 <= k < 126 && table[k].Some? ==> table[k].value < 37
    }

    /** The pointer for register number `reg` in row `row`. */
    function Entry(row: Row, reg: VirtReg): (e: Option<nat>)
      requires Shaped()
      reads table
      ensures e.Some? ==> e.value < 37
    {
      table[row * 18 + reg]
    }

    /** The pointers are those of the layout. */
    ghost predicate Valid()
      reads table
    {
      Shaped() && RowsFilled(7)
    }

    /** The first `n` rows hold the layout. */
    ghost predicate RowsFilled(n: nat)
      requires Shaped()
      reads table
    {
      forall row: Row, reg: VirtReg :: row < n ==> Entry(row, reg) == Slot(row, reg)
    }

    ghost function Contents(): Cells
      requires Shaped()
      reads cells, table
    {
      cells[..]
    }

    /** registers_create: fill the seven rows, then clear the words. */
    constructor ()
      ensures Valid() && fresh(cells) && fresh(table)
      ensures mode == SYS
      ensures Contents() == seq(37, _ => 0)
    {
      mode := SYS;
      cells := new Word[37];
      table := new Option<nat>[126](_ => None);
      new;
      FillTable();
      ClearCells();
    }

    method ClearCells()
      requires cells.Length == 37
      modifies cells
      ensures cells[..] == seq(37, _ => 0)
    {
      for i := 0 to 37
        invariant forall k :: 0 <= k < i ==> cells[k] == 0
      {
        cells[i] := 0;
      }
    }

    /** The seven blocks of registers_create: USR, FIQ, IRQ, SVC, ABT, UND, SYS. */
    method FillTable()
      requires Shaped()
      modifies table
      ensures Valid()
    {
      AddRow(0, 0, 5, None);
      AddRow(1, 5, 7, Some(32));
      AddRow(2, 0, 9, Some(33));
      AddRow(3, 0, 11, Some(34));
      AddRow(4, 0, 13, Some(35));
      AddRow(5, 0, 15, Some(36));
      AddRow(6, 0, 5, None);
    }

    /** Fill one more row, with the displacements the layout gives it. */
    method AddRow(row: Row, mid: nat, high: nat, spsr: Option<nat>)
      requires Shaped() && RowsFilled(row)
      requires mid <= 5 && high <= 15 && (spsr.Some? ==> spsr.value < 37)
      requires forall reg: VirtReg :: RowSlot(reg, mid, high, spsr) == Slot(row, reg)
      modifies table
      ensures Shaped() && RowsFilled(row + 1)
    {
      FillRow(row * 18, mid, high, spsr);
      forall r: Row, reg: VirtReg | r <= row
        ensures Entry(r, reg) == Slot(r, reg)
      {
        if r < row {
          assert old(Entry(r, reg)) == Slot(r, reg);
          assert r * 18 + reg < row * 18;
        }
      }
    }

    /** The three loops and three assignments that registers_create repeats for each mode. */
    method FillRow(base: nat, mid: nat, high: nat, spsr: Option<nat>)
      requires Shaped() && base + 18 <= 126
      requires mid <= 5 && high <= 15 && (spsr.Some? ==> spsr.value < 37)
      modifies table
      ensures Shaped()
      ensures forall k :: base <= k < base + 18 ==> table[k] == RowSlot(k - base, mid, high, spsr)
      ensures forall k :: 0 <= k < 126 && !(base <= k < base + 18) ==> table[k] == old(table[k])
    {
      FillRange(base, 0, 8, 0);
      FillRange(base, 8, 13, mid);
      FillRange(base, 13, 15, high);
      table[base + 15] := Some(15 + 5 + 5 * 2);
      table[base + 16] := Some(16 + 5 + 5 * 2);
      table[base + 17] := spsr;
    }

    /** One of the loops of registers_create: numbers lo to hi-1 point at their own cell plus `shift`. */
    method FillRange(base: nat, lo: nat, hi: nat, shift: nat)
      requires Shaped() && lo <= hi && base + hi <= 126 && hi + shift <= 37
      modifies table
      ensures Shaped()
      ensures forall k :: base + lo <= k < base + hi ==> table[k] == Some(k - base + shift)
      ensures forall k :: 0 <= k < 126 && !(base + lo <= k < base + hi) ==> table[k] == old(table[k])
    {
      for i := lo to hi
        invariant Shaped()
        invariant forall k :: base + lo <= k < base + i ==> table[k] == Some(k - base + shift)
        invariant forall k :: 0 <= k < 126 && !(base + lo <= k < base + i) ==> table[k] == old(table[k])
      {
        table[base + i] := Some(i + shift);
      }
    }

    method CurrentModeHasSpsr() returns (b: bool)
      requires Shaped()
      ensures b <==> Entry(ModeNum(mode), 17).Some?
    {
      b := table[ModeNum(mode) * 18 + 17] != None;
    }

    method InAPrivilegedMode() returns (b: bool)
      ensures b <==> mode != USR
    {
      b := ModeNum(mode) != 0;
    }

    /** The C function follows the pointer; a NULL pointer is the caller's error. */
    method ReadRegister(reg: VirtReg) returns (v: Word)
      requires Shaped() && Entry(ModeNum(mode), reg).Some?
      ensures v == Contents()[Entry(ModeNum(mode), reg).value]
    {
      v := cells[table[ModeNum(mode) * 18 + reg].value];
    }

    method ReadUsrRegister(reg: VirtReg) returns (v: Word)
      requires Shaped() && Entry(0, reg).Some?
      ensures v == Contents()[Entry(0, reg).value]
    {
      v := cells[table[reg].value];
    }

    method ReadCpsr() returns (v: Word)
      requires Shaped() && Entry(ModeNum(mode), 16).Some?
      ensures v == Contents()[Entry(ModeNum(mode), 16).value]
    {
      v := cells[table[ModeNum(mode) * 18 + 16].value];
    }

    method ReadSpsr() returns (v: Word)
      requires Shaped() && Entry(ModeNum(mode), 17).Some?
      ensures v == Contents()[Entry(ModeNum(mode), 17).value]
    {
      v := cells[table[ModeNum(mode) * 18 + 17].value];
    }

    method WriteRegister(reg: VirtReg, value: Word)
      requires Shaped() && Entry(ModeNum(mode), reg).Some?
      modifies cells
      ensures Contents() == old(Contents())[Entry(ModeNum(mode), reg).value := value]
    {
      cells[table[ModeNum(mode) * 18 + reg].value] := value;
    }

    method WriteUsrRegister(reg: VirtReg, value: Word)
      requires Shaped() && Entry(0, reg).Some?
      modifies cells
      ensures Contents() == old(Contents())[Entry(0, reg).value := value]
    {
      cells[table[reg].value] := value;
    }

    method WriteCpsr(value: Word)
      requires Shaped() && Entry(ModeNum(mode), 16).Some?
      modifies cells
      ensures Contents() == old(Contents())[Entry(ModeNum(mode), 16).value := value]
    {
      cells[table[ModeNum(mode) * 18 + 16].value] := value;
    }

    method WriteSpsr(value: Word)
      requires Shaped() && Entry(ModeNum(mode), 17).Some?
      modifies cells
      ensures Contents() == old(Contents())[Entry(ModeNum(mode), 17).value := value]
    {
      cells[table[ModeNum(mode) * 18 + 17].value] := value;
    }
  }
}
