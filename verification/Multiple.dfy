/**
 * Load and store multiple over every register list: where the words go, when a transfer aborts,
 * what a save and restore gives back, and why push and pop reverse the registers.
 */
module Multiple {
  import opened Words
  import opened Banking
  import opened Memory
  import opened Instruction
  import opened Machine
  import Arith

  // ---- The register list ---------------------------------------------------------------------------

  /** How many registers below i are listed. */
  function Rank(ins: Word, i: nat): nat {
    if i == 0 then 0 else Rank(ins, i - 1) + (if Listed(ins, i - 1) then 1 else 0)
  }

  /** The number of registers in the list. */
  function Count(ins: Word): nat { Rank(ins, 16) }

  lemma {:induction false} RankMonotone(ins: Word, i: nat, j: nat)
    requires i <= j
    ensures Rank(ins, i) <= Rank(ins, j) <= Rank(ins, i) + (j - i)
    ensures i < j && Listed(ins, i) ==> Rank(ins, i) < Rank(ins, j)
    decreases j - i
  {
    if i < j { RankMonotone(ins, i, j - 1); }
  }

  /** Listed registers at mirrored places of the list. */
  predicate Mirrored(ins: Word, j: Reg4, m: Reg4) {
    Listed(ins, j) && Listed(ins, m) && Rank(ins, j) + Rank(ins, m) == Count(ins) - 1
  }

  /** Every rank below the count belongs to a listed register. */
  lemma {:induction false} RegisterOfRank(ins: Word, k: nat, n: nat) returns (j: nat)
    requires n <= 16 && k < Rank(ins, n)
    ensures j < n && Listed(ins, j) && Rank(ins, j) == k
    decreases n
  {
    if k < Rank(ins, n - 1) {
      j := RegisterOfRank(ins, k, n - 1);
    } else {
      j := n - 1;
    }
  }

  // ---- Addresses -------------------------------------------------------------------------------------

  /** The address k steps away from the first one. */
  function Addr(first: Word, up: bool, k: int): Word {
    Wrap(if up then first + 4 * k else first - 4 * k)
  }

  lemma NextIsAddr(a: Word, up: bool, k: int)
    ensures Addr(NextAddress(up, a), up, k) == Addr(a, up, k + 1)
    ensures Addr(a, up, 0) == a && Addr(a, up, 1) == NextAddress(up, a)
  {
    Arith.ModAbsorbs(if up then 4 * k else -4 * k, if up then a + 4 else a - 4, 0x1_0000_0000);
  }

  /** Different places of a list of at most sixteen lie at least a word apart. */
  lemma AddressesApart(first: Word, up: bool, k: int, l: int)
    requires k != l && -16 <= k - l <= 16
    ensures Addr(first, up, k) + 4 <= Addr(first, up, l) || Addr(first, up, l) + 4 <= Addr(first, up, k)
  {
  }

  /** The word for register j of the list, seen from register i. */
  function Place(w: Walk, ins: Word, i: nat, up: bool, j: nat): Word {
    Addr(w.a, up, Rank(ins, j) - Rank(ins, i))
  }

  predicate Inside(w: Walk, ins: Word, i: nat, up: bool, j: nat) {
    Place(w, ins, i, up, j) + 4 <= |w.s.ram|
  }

  // ---- The storing loop --------------------------------------------------------------------------------

  function Source(s: State, usr: bool, j: Reg4): Word {
    if usr then ReadUsrReg(s, j) else ReadReg(s, j)
  }

  /** One turn of the storing loop. */
  function StoreTurn(w: Walk, j: Reg4, up: bool, usr: bool): Walk {
    var stored := StoreWord(w.s.ram, w.s.big, w.a, Source(w.s, usr, j));
    Walk(if stored.Some? then w.s.(ram := stored.value) else w.s, NextAddress(up, w.a), w.ok && stored.Some?)
  }

  lemma StoreListUnfolds(w: Walk, ins: Word, i: nat, up: bool, usr: bool)
    requires i < 16
    ensures StoreList(w, ins, i, up, usr) ==
            StoreList(if Listed(ins, i) then StoreTurn(w, i, up, usr) else w, ins, i + 1, up, usr)
  {
  }

  /** The walk after turn i sees the later places where they were. */
  lemma PlaceShifts(w: Walk, next: Walk, ins: Word, i: nat, up: bool, j: nat)
    requires next.a == if Listed(ins, i) then NextAddress(up, w.a) else w.a
    ensures Place(next, ins, i + 1, up, j) == Place(w, ins, i, up, j)
  {
    if Listed(ins, i) { NextIsAddr(w.a, up, Rank(ins, j) - Rank(ins, i) - 1); }
  }

  /** The storing loop changes memory only. */
  lemma {:induction false} StoreListKeepsRegisters(w: Walk, ins: Word, i: nat, up: bool, usr: bool)
    requires i <= 16
    ensures var r := StoreList(w, ins, i, up, usr);
            r.s == w.s.(ram := r.s.ram) && |r.s.ram| == |w.s.ram|
    decreases 16 - i
  {
    if i < 16 {
      StoreListUnfolds(w, ins, i, up, usr);
      StoreListKeepsRegisters(if Listed(ins, i) then StoreTurn(w, i, up, usr) else w, ins, i + 1, up, usr);
    }
  }

  /** The storing loop ends one step after the last place. */
  lemma {:induction false} StoreListEnds(w: Walk, ins: Word, i: nat, up: bool, usr: bool)
    requires i <= 16
    ensures StoreList(w, ins, i, up, usr).a == Place(w, ins, i, up, 16)
    decreases 16 - i
  {
    if i < 16 {
      var next := if Listed(ins, i) then StoreTurn(w, i, up, usr) else w;
      StoreListUnfolds(w, ins, i, up, usr);
      StoreListEnds(next, ins, i + 1, up, usr);
      PlaceShifts(w, next, ins, i, up, 16);
    } else {
      NextIsAddr(w.a, up, 0);
    }
  }

  /** The storing loop succeeds iff every listed register's place is inside the memory. */
  lemma {:induction false} StoreListSucceedsIff(w: Walk, ins: Word, i: nat, up: bool, usr: bool)
    requires i <= 16
    ensures StoreList(w, ins, i, up, usr).ok <==>
            w.ok && forall j :: i <= j < 16 && Listed(ins, j) ==> Inside(w, ins, i, up, j)
    decreases 16 - i
  {
    if i < 16 {
      var next := if Listed(ins, i) then StoreTurn(w, i, up, usr) else w;
      StoreListUnfolds(w, ins, i, up, usr);
      StoreListSucceedsIff(next, ins, i + 1, up, usr);
      NextIsAddr(w.a, up, 0);
      forall j | i <= j < 16 ensures j > i ==> (Inside(next, ins, i + 1, up, j) <==> Inside(w, ins, i, up, j)) {
        PlaceShifts(w, next, ins, i, up, j);
      }
    }
  }

  lemma StoreTurnFrame(w: Walk, j: Reg4, up: bool, usr: bool, c: nat)
    requires c < |w.s.ram| && (w.a + 4 <= c || c < w.a)
    ensures var next := StoreTurn(w, j, up, usr);
            |next.s.ram| == |w.s.ram| && next.s.ram[c] == w.s.ram[c]
  {
    hide Source;
  }

  /** A byte outside every place stored to is not touched, whether or not some store fails. */
  lemma {:induction false} StoreListFrame(w: Walk, ins: Word, i: nat, up: bool, usr: bool, c: nat)
    requires i <= 16 && c < |w.s.ram|
    requires forall j :: i <= j < 16 && Listed(ins, j) ==>
               Place(w, ins, i, up, j) + 4 <= c || c < Place(w, ins, i, up, j)
    ensures var r := StoreList(w, ins, i, up, usr);
            |r.s.ram| == |w.s.ram| && r.s.ram[c] == w.s.ram[c]
    decreases 16 - i
  {
    if i < 16 {
      var next := if Listed(ins, i) then StoreTurn(w, i, up, usr) else w;
      StoreListUnfolds(w, ins, i, up, usr);
      hide StoreTurn;
      StoreTurnWalks(w, i, up, usr);
      forall j | i + 1 <= j < 16 && Listed(ins, j)
        ensures Place(next, ins, i + 1, up, j) + 4 <= c || c < Place(next, ins, i + 1, up, j)
      {
        PlaceShifts(w, next, ins, i, up, j);
      }
      if Listed(ins, i) {
        NextIsAddr(w.a, up, 0);
        assert Place(w, ins, i, up, i) == w.a;
        StoreTurnFrame(w, i, up, usr, c);
      }
      StoreListFrame(next, ins, i + 1, up, usr, c);
    }
  }

  lemma StoreTurnWalks(w: Walk, j: Reg4, up: bool, usr: bool)
    ensures var next := StoreTurn(w, j, up, usr);
            next.a == NextAddress(up, w.a) && |next.s.ram| == |w.s.ram| && next.s.big == w.s.big
  {
    hide Source;
  }

  /** A byte of the word stored in turn i survives the later turns. */
  lemma StoredByteSurvives(w: Walk, ins: Word, i: nat, up: bool, usr: bool, c: nat)
    requires i < 16 && Listed(ins, i) && w.a + 4 <= |w.s.ram| && w.a <= c < w.a + 4
    ensures var next := StoreTurn(w, i, up, usr);
            var r := StoreList(next, ins, i + 1, up, usr);
            |r.s.ram| == |next.s.ram| == |w.s.ram| && r.s.ram[c] == next.s.ram[c]
  {
    var next := StoreTurn(w, i, up, usr);
    StoreTurnWalks(w, i, up, usr);
    hide StoreTurn;
    NextIsAddr(w.a, up, 0);
    forall l | i + 1 <= l < 16 && Listed(ins, l)
      ensures Place(next, ins, i + 1, up, l) + 4 <= c || c < Place(next, ins, i + 1, up, l)
    {
      PlaceShifts(w, next, ins, i, up, l);
      RankMonotone(ins, i, l);
      AddressesApart(w.a, up, 0, Rank(ins, l) - Rank(ins, i));
    }
    StoreListFrame(next, ins, i + 1, up, usr, c);
  }

  lemma StoreTurnStores(w: Walk, j: Reg4, up: bool, usr: bool)
    requires w.a + 4 <= |w.s.ram|
    ensures |StoreTurn(w, j, up, usr).s.ram| == |w.s.ram|
    ensures WordAt(StoreTurn(w, j, up, usr).s.ram, w.s.big, w.a) == Source(w.s, usr, j)
  {
    hide Source;
    ReadAfterWrite(w.s.ram, w.s.big, w.a, Source(w.s, usr, j), w.a);
  }

  /** The word stored in turn i survives the later turns. */
  lemma StoredWordSurvives(w: Walk, ins: Word, i: nat, up: bool, usr: bool)
    requires i < 16 && Listed(ins, i) && w.a + 4 <= |w.s.ram|
    ensures var r := StoreList(StoreTurn(w, i, up, usr), ins, i + 1, up, usr);
            w.a + 4 <= |r.s.ram| && WordAt(r.s.ram, w.s.big, w.a) == Source(w.s, usr, i)
  {
    hide StoreTurn, Source, HostWord;
    StoreTurnStores(w, i, up, usr);
    StoredByteSurvives(w, ins, i, up, usr, w.a);
    StoredByteSurvives(w, ins, i, up, usr, w.a + 1);
    StoredByteSurvives(w, ins, i, up, usr, w.a + 2);
    StoredByteSurvives(w, ins, i, up, usr, w.a + 3);
  }

  /** After the storing loop each listed register whose place is inside the memory has its word there. */
  lemma {:induction false} StoreListStores(w: Walk, ins: Word, i: nat, up: bool, usr: bool, j: nat)
    requires i <= j < 16 && Listed(ins, j) && Inside(w, ins, i, up, j)
    ensures var r := StoreList(w, ins, i, up, usr);
            && Place(w, ins, i, up, j) + 4 <= |r.s.ram|
            && WordAt(r.s.ram, w.s.big, Place(w, ins, i, up, j)) == Source(w.s, usr, j)
    decreases 16 - i
  {
    StoreListUnfolds(w, ins, i, up, usr);
    if i < j {
      var next := if Listed(ins, i) then StoreTurn(w, i, up, usr) else w;
      StoreTurnWalks(w, i, up, usr);
      PlaceShifts(w, next, ins, i, up, j);
      StoreListStores(next, ins, i + 1, up, usr, j);
    } else {
      NextIsAddr(w.a, up, 0);
      StoredWordSurvives(w, ins, i, up, usr);
    }
  }

  // ---- The loading loop --------------------------------------------------------------------------------

  /** What a register receives: the program counter loses its two low bits. */
  function Kept(j: nat, v: Word): Word {
    if j == 15 then v - v % 4 else v
  }

  function Target(s: State, usr: bool, j: Reg4): (k: nat)
    ensures k < 37
  {
    CellFor(if usr then USR else s.mode, j)
  }

  lemma TargetsDiffer(s: State, usr: bool, i: Reg4, j: Reg4)
    requires i != j
    ensures Target(s, usr, i) != Target(s, usr, j)
  {
  }

  /** One turn of the loading loop. */
  function LoadTurn(w: Walk, last: Word, j: Reg4, up: bool, usr: bool): Walk {
    var loaded := LoadWord(w.s.ram, w.s.big, w.a);
    var v := if loaded.Some? then loaded.value else last;
    Walk(w.s.(cells := w.s.cells[Target(w.s, usr, j) := Kept(j, v)]), NextAddress(up, w.a), w.ok && loaded.Some?)
  }

  function LastAfter(w: Walk, last: Word): Word {
    var loaded := LoadWord(w.s.ram, w.s.big, w.a);
    if loaded.Some? then loaded.value else last
  }

  lemma LoadListUnfolds(w: Walk, last: Word, ins: Word, i: nat, up: bool, usr: bool)
    requires i < 16
    ensures LoadList(w, last, ins, i, up, usr) ==
            if Listed(ins, i) then LoadList(LoadTurn(w, last, i, up, usr), LastAfter(w, last), ins, i + 1, up, usr)
            else LoadList(w, last, ins, i + 1, up, usr)
  {
  }

  /** The loading loop changes registers only. */
  lemma {:induction false} LoadListKeepsMemory(w: Walk, last: Word, ins: Word, i: nat, up: bool, usr: bool)
    requires i <= 16
    ensures var r := LoadList(w, last, ins, i, up, usr); r.s == w.s.(cells := r.s.cells)
    decreases 16 - i
  {
    if i < 16 {
      LoadListUnfolds(w, last, ins, i, up, usr);
      if Listed(ins, i) {
        LoadListKeepsMemory(LoadTurn(w, last, i, up, usr), LastAfter(w, last), ins, i + 1, up, usr);
      } else {
        LoadListKeepsMemory(w, last, ins, i + 1, up, usr);
      }
    }
  }

  /** The loading loop ends one step after the last place. */
  lemma {:induction false} LoadListEnds(w: Walk, last: Word, ins: Word, i: nat, up: bool, usr: bool)
    requires i <= 16
    ensures LoadList(w, last, ins, i, up, usr).a == Place(w, ins, i, up, 16)
    decreases 16 - i
  {
    if i < 16 {
      LoadListUnfolds(w, last, ins, i, up, usr);
      var next := if Listed(ins, i) then LoadTurn(w, last, i, up, usr) else w;
      var v := if Listed(ins, i) then LastAfter(w, last) else last;
      LoadListEnds(next, v, ins, i + 1, up, usr);
      PlaceShifts(w, next, ins, i, up, 16);
    } else {
      NextIsAddr(w.a, up, 0);
    }
  }

  /** The loading loop succeeds iff every listed register's place is inside the memory. */
  lemma {:induction false} LoadListSucceedsIff(w: Walk, last: Word, ins: Word, i: nat, up: bool, usr: bool)
    requires i <= 16
    ensures LoadList(w, last, ins, i, up, usr).ok <==>
            w.ok && forall j :: i <= j < 16 && Listed(ins, j) ==> Inside(w, ins, i, up, j)
    decreases 16 - i
  {
    if i < 16 {
      LoadListUnfolds(w, last, ins, i, up, usr);
      var next := if Listed(ins, i) then LoadTurn(w, last, i, up, usr) else w;
      var v := if Listed(ins, i) then LastAfter(w, last) else last;
      LoadListSucceedsIff(next, v, ins, i + 1, up, usr);
      NextIsAddr(w.a, up, 0);
      forall j | i <= j < 16 ensures j > i ==> (Inside(next, ins, i + 1, up, j) <==> Inside(w, ins, i, up, j)) {
        PlaceShifts(w, next, ins, i, up, j);
      }
    }
  }

  /** Cells that belong to no listed register are not touched. */
  lemma {:induction false} LoadListFrame(w: Walk, last: Word, ins: Word, i: nat, up: bool, usr: bool, k: nat)
    requires i <= 16 && k < 37
    requires forall j :: i <= j < 16 && Listed(ins, j) ==> Target(w.s, usr, j) != k
    ensures LoadList(w, last, ins, i, up, usr).s.cells[k] == w.s.cells[k]
    decreases 16 - i
  {
    if i < 16 {
      LoadListUnfolds(w, last, ins, i, up, usr);
      var next := if Listed(ins, i) then LoadTurn(w, last, i, up, usr) else w;
      var v := if Listed(ins, i) then LastAfter(w, last) else last;
      forall j | i + 1 <= j < 16 && Listed(ins, j) ensures Target(next.s, usr, j) != k {
        assert Target(w.s, usr, j) != k;
      }
      LoadListFrame(next, v, ins, i + 1, up, usr, k);
    }
  }

  lemma LoadTurnWalks(w: Walk, last: Word, j: Reg4, up: bool, usr: bool)
    ensures var next := LoadTurn(w, last, j, up, usr);
            && next.a == NextAddress(up, w.a) && next.s == w.s.(cells := next.s.cells)
            && next.s.cells[Target(w.s, usr, j)] == Kept(j, LastAfter(w, last))
  {
    hide WordAt;
  }

  /**
   * The last word read up to register j: the one at j's place, or if j is not listed or its place
   * is outside memory the last one read before it.
   */
  function LastRead(w: Walk, last: Word, ins: Word, i: nat, up: bool, j: int): Word
    requires j < 16
    decreases j - i
  {
    if j < i then last
    else if Listed(ins, j) && Inside(w, ins, i, up, j) then WordAt(w.s.ram, w.s.big, Place(w, ins, i, up, j))
    else LastRead(w, last, ins, i, up, j - 1)
  }

  /** A turn of the loop leaves the last words read up to later registers what they are. */
  lemma {:induction false} LastReadShifts(w: Walk, last: Word, next: Walk, v: Word, ins: Word, i: nat, up: bool, j: int)
    requires i <= j < 16
    requires next.a == (if Listed(ins, i) then NextAddress(up, w.a) else w.a)
    requires next.s.ram == w.s.ram && next.s.big == w.s.big && v == (if Listed(ins, i) then LastAfter(w, last) else last)
    ensures LastRead(next, v, ins, i + 1, up, j) == LastRead(w, last, ins, i, up, j)
    decreases j
  {
    PlaceShifts(w, next, ins, i, up, j);
    if j > i {
      LastReadShifts(w, last, next, v, ins, i, up, j - 1);
    } else {
      NextIsAddr(w.a, up, 0);
      assert LastRead(w, last, ins, i, up, i - 1) == last;
    }
  }

  /** After the loading loop each listed register holds the last word read up to it, whether or not a load failed. */
  lemma {:induction false} LoadListLoads(w: Walk, last: Word, ins: Word, i: nat, up: bool, usr: bool, j: nat)
    requires i <= j < 16 && Listed(ins, j)
    ensures LoadList(w, last, ins, i, up, usr).s.cells[Target(w.s, usr, j)] == Kept(j, LastRead(w, last, ins, i, up, j))
    decreases 16 - i
  {
    LoadListUnfolds(w, last, ins, i, up, usr);
    var next := if Listed(ins, i) then LoadTurn(w, last, i, up, usr) else w;
    var v := if Listed(ins, i) then LastAfter(w, last) else last;
    LoadTurnWalks(w, last, i, up, usr);
    LastReadShifts(w, last, next, v, ins, i, up, j);
    assert i == j ==> LastRead(next, v, ins, i + 1, up, j) == v;
    hide LoadTurn, LastAfter, LastRead, LoadList, WordAt, Kept, CellFor;
    if i < j {
      LoadListLoads(next, v, ins, i + 1, up, usr, j);
    } else {
      forall l | i + 1 <= l < 16 && Listed(ins, l) ensures Target(next.s, usr, l) != Target(w.s, usr, i) {
        TargetsDiffer(w.s, usr, i, l);
      }
      LoadListFrame(next, v, ins, i + 1, up, usr, Target(w.s, usr, i));
    }
  }

  // ---- Whole instructions --------------------------------------------------------------------------------

  /** STM and LDM, by bits 27 to 25 and bit 20. */
  predicate IsStm(ins: Word) { Group(ins) == 4 && !Bit20(ins) }

  predicate IsLdm(ins: Word) { Group(ins) == 4 && Bit20(ins) }

  lemma ExecutesMultiple(s: State, ins: Word)
    ensures IsStm(ins) ==> Execute(s, ins) == StoreMultiple(s, ins)
    ensures IsLdm(ins) ==> Execute(s, ins) == LoadMultiple(s, ins)
  {
    hide StoreMultiple, LoadMultiple, Bit20;
  }

  /** The walk an instruction starts: at its first address, with nothing gone wrong. */
  function Start(s: State, ins: Word): Walk {
    Walk(s, FirstAddress(ins, ReadReg(s, Rn(ins))), true)
  }

  function BaseCell(s: State, ins: Word): (k: nat)
    ensures k < 37
  {
    CellFor(s.mode, Rn(ins))
  }

  /** Addresses compose: a steps one way and b steps back. */
  lemma AddrComposes(x: Word, up: bool, a: int, b: int)
    ensures Addr(Addr(x, up, a), up, b) == Addr(x, up, a + b)
    ensures Addr(Addr(x, up, a), !up, b) == Addr(x, up, a - b)
  {
    Arith.ModAbsorbs(if up then 4 * b else -4 * b, if up then x + 4 * a else x - 4 * a, 0x1_0000_0000);
    Arith.ModAbsorbs(if up then -4 * b else 4 * b, if up then x + 4 * a else x - 4 * a, 0x1_0000_0000);
  }

  /** The step taken for bit 24 is undone: the address written back is n words from the base. */
  lemma FinalAddress(ins: Word, base: Word, n: nat)
    ensures var a := Addr(FirstAddress(ins, base), Bit23(ins), n);
            (if Bit24(ins) then NextAddress(!Bit23(ins), a) else a) == Addr(base, Bit23(ins), n)
  {
    var up := Bit23(ins);
    if Bit24(ins) {
      NextIsAddr(base, up, n);
      var a := Addr(NextAddress(up, base), up, n);
      NextIsAddr(a, !up, 0);
      AddrComposes(base, up, n + 1, 1);
    }
  }

  /**
   * STM aborts (code 5) iff some listed register's place is outside. Aborted or not, the base moves
   * by the count if it is written back, and nothing else changes but memory.
   */
  lemma StoreMultipleEffect(s: State, ins: Word)
    requires IsStm(ins)
    ensures var o := Execute(s, ins);
            && (o.status == Done(0) <==>
                  forall j :: 0 <= j < 16 && Listed(ins, j) ==> Inside(Start(s, ins), ins, 0, Bit23(ins), j))
            && (o.status == Done(0) || o.status == Done(5))
            && o.s == s.(ram := o.s.ram, cells := o.s.cells) && |o.s.ram| == |s.ram|
            && o.s.cells == if Bit21(ins) then s.cells[BaseCell(s, ins) := Addr(ReadReg(s, Rn(ins)), Bit23(ins), Count(ins))]
                            else s.cells
  {
    ExecutesMultiple(s, ins);
    hide Execute;
    var up, usr := Bit23(ins), Bit22(ins);
    StoreListSucceedsIff(Start(s, ins), ins, 0, up, usr);
    StoreListKeepsRegisters(Start(s, ins), ins, 0, up, usr);
    StoreListEnds(Start(s, ins), ins, 0, up, usr);
    FinalAddress(ins, ReadReg(s, Rn(ins)), Count(ins));
  }

  /** Every listed register whose place is inside memory is stored there, even if another place is not. */
  lemma StoreMultipleStores(s: State, ins: Word, j: Reg4)
    requires IsStm(ins) && Listed(ins, j) && Inside(Start(s, ins), ins, 0, Bit23(ins), j)
    ensures var a := Place(Start(s, ins), ins, 0, Bit23(ins), j);
            && a + 4 <= |s.ram| && |Execute(s, ins).s.ram| == |s.ram|
            && WordAt(Execute(s, ins).s.ram, s.big, a) == Source(s, Bit22(ins), j)
  {
    ExecutesMultiple(s, ins);
    hide Execute;
    StoreListStores(Start(s, ins), ins, 0, Bit23(ins), Bit22(ins), j);
    StoreListKeepsRegisters(Start(s, ins), ins, 0, Bit23(ins), Bit22(ins));
    StoreListEnds(Start(s, ins), ins, 0, Bit23(ins), Bit22(ins));
  }

  /** STM changes no byte outside the listed places, whether or not it aborts. */
  lemma StoreMultipleFrame(s: State, ins: Word, c: nat)
    requires IsStm(ins) && c < |s.ram|
    requires forall j :: 0 <= j < 16 && Listed(ins, j) ==>
               var a := Place(Start(s, ins), ins, 0, Bit23(ins), j);
               a + 4 <= c || c < a
    ensures |Execute(s, ins).s.ram| == |s.ram| && Execute(s, ins).s.ram[c] == s.ram[c]
  {
    ExecutesMultiple(s, ins);
    hide Execute;
    StoreListFrame(Start(s, ins), ins, 0, Bit23(ins), Bit22(ins), c);
  }

  /** The return form of LDM, LDM (3) of section A4.1 of the manual: bit 22 with the PC in the list. */
  predicate ReturnForm(ins: Word) {
    Bit22(ins) && Listed(ins, 15)
  }

  /**
   * The return form loads nothing and never aborts: in a mode with an SPSR it only copies that to
   * the CPSR. A base written back gets the value it had (r15 that of a read).
   */
  lemma ReturnFormLoadsNothing(t: State, ins: Word)
    requires IsLdm(ins) && ReturnForm(ins)
    ensures Execute(t, ins) ==
            if !HasSpsr(t) then Outcome(Crash, t)
            else
              var u := WriteCpsr(t, ReadSpsr(t));
              Outcome(Done(0), if Bit21(ins) then WriteReg(u, Rn(ins), ReadReg(t, Rn(ins))) else u)
    ensures HasSpsr(t) && Rn(ins) != 15 ==> Execute(t, ins) == Outcome(Done(0), WriteCpsr(t, ReadSpsr(t)))
  {
    ExecutesMultiple(t, ins);
    hide Execute;
    FinalAddress(ins, ReadReg(t, Rn(ins)), 0);
    NextIsAddr(FirstAddress(ins, ReadReg(t, Rn(ins))), Bit23(ins), 0);
    NextIsAddr(ReadReg(t, Rn(ins)), Bit23(ins), 0);
    hide NextAddress, Addr, Bit21, Bit22, Bit23, Bit24, Listed;
    if HasSpsr(t) && Rn(ins) != 15 {
      var u := WriteCpsr(t, ReadSpsr(t));
      assert WriteReg(u, Rn(ins), ReadReg(t, Rn(ins))) == u;
    }
  }

  /** LDM aborts iff some listed register's place is outside; the return form fails only without an SPSR. */
  lemma LoadMultipleSucceedsIff(t: State, ins: Word)
    requires IsLdm(ins)
    ensures Execute(t, ins).status == Done(0) <==>
            if ReturnForm(ins) then HasSpsr(t)
            else forall j :: 0 <= j < 16 && Listed(ins, j) ==> Inside(Start(t, ins), ins, 0, Bit23(ins), j)
    ensures !ReturnForm(ins) ==> Execute(t, ins).status == Done(0) || Execute(t, ins).status == Done(5)
  {
    ExecutesMultiple(t, ins);
    hide Execute;
    if ReturnForm(ins) {
      ReturnFormLoadsNothing(t, ins);
    } else {
      LoadListSucceedsIff(Start(t, ins), 0, ins, 0, Bit23(ins), Bit22(ins));
    }
  }

  /**
   * LDM, for a listed register that is not a base written back. The return form leaves it as it
   * is. Otherwise it gets the word from its place; if that is outside memory, the transfer aborts
   * and the register gets the last word read before it, or 0.
   */
  lemma LoadMultipleLoads(t: State, ins: Word, j: Reg4)
    requires IsLdm(ins) && Listed(ins, j)
    requires Bit21(ins) ==> Target(t, Bit22(ins), j) != BaseCell(t, ins)
    ensures var now := Execute(t, ins).s.cells[Target(t, Bit22(ins), j)];
            var w, up := Start(t, ins), Bit23(ins);
            if ReturnForm(ins) then now == t.cells[Target(t, Bit22(ins), j)]
            else
              && now == Kept(j, LastRead(w, 0, ins, 0, up, j))
              && (Inside(w, ins, 0, up, j) ==> now == Kept(j, WordAt(t.ram, t.big, Place(w, ins, 0, up, j))))
  {
    if ReturnForm(ins) {
      ReturnFormLoadsNothing(t, ins);
      hide Execute;
    } else {
      ExecutesMultiple(t, ins);
      hide Execute, WordAt, Kept, CellFor, NextAddress, Addr, Rank, LoadList, Listed;
      LoadListLoads(Start(t, ins), 0, ins, 0, Bit23(ins), Bit22(ins), j);
      LoadListKeepsMemory(Start(t, ins), 0, ins, 0, Bit23(ins), Bit22(ins));
      LoadListEnds(Start(t, ins), 0, ins, 0, Bit23(ins), Bit22(ins));
    }
  }

  /** LDM changes nothing but registers, and no cell but the listed registers', the base and in the return form the CPSR. */
  lemma LoadMultipleFrame(t: State, ins: Word, k: nat)
    requires IsLdm(ins) && k < 37 && (Bit21(ins) ==> k != BaseCell(t, ins))
    requires if ReturnForm(ins) then k != CellFor(t.mode, 16)
             else forall j :: 0 <= j < 16 && Listed(ins, j) ==> Target(t, Bit22(ins), j) != k
    ensures Execute(t, ins).s == t.(cells := Execute(t, ins).s.cells) && Execute(t, ins).s.cells[k] == t.cells[k]
  {
    if ReturnForm(ins) {
      ReturnFormLoadsNothing(t, ins);
      hide Execute;
    } else {
      ExecutesMultiple(t, ins);
      hide Execute;
      LoadListFrame(Start(t, ins), 0, ins, 0, Bit23(ins), Bit22(ins), k);
      LoadListKeepsMemory(Start(t, ins), 0, ins, 0, Bit23(ins), Bit22(ins));
    }
  }

  /** The base written back moves by the count of the list; in the return form it does not move. */
  lemma LoadMultipleBase(t: State, ins: Word)
    requires IsLdm(ins) && Bit21(ins) && (ReturnForm(ins) ==> HasSpsr(t))
    ensures Execute(t, ins).s.cells[BaseCell(t, ins)] ==
            Addr(ReadReg(t, Rn(ins)), Bit23(ins), if ReturnForm(ins) then 0 else Count(ins))
  {
    if ReturnForm(ins) {
      ReturnFormLoadsNothing(t, ins);
      NextIsAddr(ReadReg(t, Rn(ins)), Bit23(ins), 0);
    } else {
      ExecutesMultiple(t, ins);
      hide Execute;
      LoadListKeepsMemory(Start(t, ins), 0, ins, 0, Bit23(ins), Bit22(ins));
      LoadListEnds(Start(t, ins), 0, ins, 0, Bit23(ins), Bit22(ins));
      FinalAddress(ins, ReadReg(t, Rn(ins)), Count(ins));
    }
  }

  /** A store and a load multiple that name the same base register and the same list. */
  ghost predicate SameTransfer(st: Word, ld: Word) {
    IsStm(st) && IsLdm(ld) && Rn(st) == Rn(ld) && Bit22(st) == Bit22(ld) && forall i :: 0 <= i < 16 ==> Listed(st, i) == Listed(ld, i)
  }

  lemma {:induction false} SameRanks(st: Word, ld: Word, i: nat)
    requires i <= 16 && forall j :: 0 <= j < 16 ==> Listed(st, j) == Listed(ld, j)
    ensures Rank(st, i) == Rank(ld, i)
    decreases i
  {
    if i > 0 { SameRanks(st, ld, i - 1); }
  }

  // ---- Save and restore ----------------------------------------------------------------------------------

  /**
   * Saving a list and loading it back in the same addressing mode from the same base restores
   * every listed register, of the current mode or (with bit 22) of the user bank, whatever
   * happened to the registers in between; the program counter comes back word aligned. A load
   * with write-back restores all but its own base register, and the return form restores nothing.
   */
  lemma SaveAndRestore(s: State, st: Word, t: State, ld: Word, j: Reg4)
    requires SameTransfer(st, ld) && Bit23(ld) == Bit23(st) && Bit24(ld) == Bit24(st)
    requires Bit21(ld) ==> Target(t, Bit22(ld), j) != BaseCell(t, ld)
    requires Execute(s, st).status == Done(0)
    requires t.mode == s.mode && t.big == s.big && t.ram == Execute(s, st).s.ram
    requires ReadReg(t, Rn(ld)) == ReadReg(s, Rn(st))
    requires Listed(ld, j)
    ensures Execute(t, ld).status == Done(0) <==> (ReturnForm(ld) ==> HasSpsr(t))
    ensures Execute(t, ld).status == Done(0) ==>
              Execute(t, ld).s.cells[Target(s, Bit22(st), j)] ==
              if ReturnForm(ld) then t.cells[Target(s, Bit22(st), j)] else Kept(j, Source(s, Bit22(st), j))
  {
    var up := Bit23(st);
    StoreMultipleEffect(s, st);
    forall i: Reg4 ensures Place(Start(t, ld), ld, 0, up, i) == Place(Start(s, st), st, 0, up, i) {
      SameRanks(st, ld, i);
    }
    forall i: Reg4 | Listed(ld, i) ensures Inside(Start(t, ld), ld, 0, up, i) {
      assert Inside(Start(s, st), st, 0, up, i);
    }
    LoadMultipleSucceedsIff(t, ld);
    hide Execute;
    StoreMultipleStores(s, st, j);
    if Execute(t, ld).status == Done(0) { LoadMultipleLoads(t, ld, j); }
  }

  // ---- Push and pop --------------------------------------------------------------------------------------

  /** A push with writeback, and the pop that undoes its movement: opposite direction, opposite bit 24. */
  ghost predicate PushAndPop(st: Word, ld: Word) {
    && SameTransfer(st, ld) && !Bit22(st)
    && Bit21(st) && Bit21(ld) && Bit23(ld) != Bit23(st) && Bit24(ld) != Bit24(st)
    && Rn(st) != 15 && !Listed(st, Rn(st))
  }

  /** State t comes after the push, with the stack and the stack pointer as the push left them. */
  ghost predicate StackIntact(s: State, st: Word, t: State) {
    var after := Execute(s, st).s;
    t.mode == s.mode && t.big == s.big && t.ram == after.ram &&
    t.cells[BaseCell(s, st)] == after.cells[BaseCell(s, st)]
  }

  /** The pop's k-th address is the push's (n-1-k)-th. */
  lemma PopRetraces(st: Word, ld: Word, base: Word, n: nat, k: int)
    requires Bit23(ld) != Bit23(st) && Bit24(ld) != Bit24(st)
    ensures Addr(FirstAddress(ld, Addr(base, Bit23(st), n)), Bit23(ld), k) ==
            Addr(FirstAddress(st, base), Bit23(st), n - 1 - k)
  {
    var up := Bit23(st);
    NextIsAddr(base, up, n - 1 - k);
    var top := Addr(base, up, n);
    NextIsAddr(top, !up, k);
    AddrComposes(base, up, n, k);
    AddrComposes(base, up, n, k + 1);
  }

  lemma PopPlace(s: State, st: Word, t: State, ld: Word, j: Reg4, m: Reg4)
    requires PushAndPop(st, ld) && StackIntact(s, st, t)
    requires Mirrored(st, j, m)
    ensures Place(Start(t, ld), ld, 0, Bit23(ld), j) == Place(Start(s, st), st, 0, Bit23(st), m)
  {
    hide Execute, Listed, Addr, FirstAddress;
    StoreMultipleEffect(s, st);
    SameRanks(st, ld, j);
    var base, n := ReadReg(s, Rn(st)), Count(st);
    assert ReadReg(t, Rn(ld)) == Addr(base, Bit23(st), n);
    PopRetraces(st, ld, base, n, Rank(ld, j));
  }

  /** The listed register with the mirrored rank. */
  lemma MirrorOf(ins: Word, j: Reg4) returns (m: Reg4)
    requires Listed(ins, j)
    ensures Mirrored(ins, j, m)
  {
    RankMonotone(ins, j, 16);
    m := RegisterOfRank(ins, Count(ins) - 1 - Rank(ins, j), 16);
  }

  lemma PopSucceeds(s: State, st: Word, t: State, ld: Word)
    requires PushAndPop(st, ld) && StackIntact(s, st, t) && Execute(s, st).status == Done(0)
    ensures Execute(t, ld).status == Done(0)
  {
    StoreMultipleEffect(s, st);
    forall j: Reg4 | Listed(ld, j) ensures Inside(Start(t, ld), ld, 0, Bit23(ld), j) {
      var m := MirrorOf(st, j);
      assert Inside(Start(s, st), st, 0, Bit23(st), m);
      PopPlace(s, st, t, ld, j, m);
    }
    LoadMultipleSucceedsIff(t, ld);
  }

  /**
   * A push followed by its pop, in any of the four stack disciplines: the stack pointer returns,
   * and each listed register receives what the register at the mirrored place of the list held.
   */
  lemma PushThenPopReverses(s: State, st: Word, t: State, ld: Word, j: Reg4, m: Reg4)
    requires PushAndPop(st, ld) && StackIntact(s, st, t) && Execute(s, st).status == Done(0)
    requires Mirrored(st, j, m)
    ensures Execute(t, ld).status == Done(0)
    ensures Execute(t, ld).s.cells[CellFor(s.mode, j)] == Kept(j, ReadReg(s, m))
    ensures Execute(t, ld).s.cells[BaseCell(s, st)] == s.cells[BaseCell(s, st)]
  {
    hide Execute;
    PopSucceeds(s, st, t, ld);
    StoreMultipleEffect(s, st);
    PopPlace(s, st, t, ld, j, m);
    StoreMultipleStores(s, st, m);
    TargetsDiffer(t, false, j, Rn(st));
    LoadMultipleLoads(t, ld, j);
    LoadMultipleBase(t, ld);
    SameRanks(st, ld, 16);
    AddrComposes(ReadReg(s, Rn(st)), Bit23(st), Count(st), Count(st));
    NextIsAddr(ReadReg(s, Rn(st)), Bit23(st), 0);
  }

  function RegValue(s: State, mode: Byte, j: Reg4): Word {
    s.cells[CellFor(mode, j)]
  }

  lemma PushThenPopMirrors(s: State, st: Word, t: State, ld: Word, j: Reg4, m: Reg4)
    requires PushAndPop(st, ld) && StackIntact(s, st, t) && Execute(s, st).status == Done(0)
    requires !Listed(st, 15) && Mirrored(st, j, m)
    ensures RegValue(Execute(t, ld).s, s.mode, j) == RegValue(s, s.mode, m)
  {
    PushThenPopReverses(s, st, t, ld, j, m);
  }

  /**
   * So push and pop restore the registers exactly when the list of values reads the same in both
   * directions; the architecture, which keeps the lowest register at the lowest address, promises
   * it always.
   */
  lemma PushThenPopRestoresIff(s: State, st: Word, t: State, ld: Word)
    requires PushAndPop(st, ld) && StackIntact(s, st, t) && Execute(s, st).status == Done(0)
    requires !Listed(st, 15)
    ensures (forall j: Reg4 :: Listed(st, j) ==> RegValue(Execute(t, ld).s, s.mode, j) == RegValue(s, s.mode, j))
            <==>
            (forall j: Reg4, m: Reg4 :: Mirrored(st, j, m) ==> RegValue(s, s.mode, j) == RegValue(s, s.mode, m))
  {
    var u := Execute(t, ld).s;
    forall j: Reg4, m: Reg4 | Mirrored(st, j, m)
      ensures RegValue(u, s.mode, j) == RegValue(s, s.mode, m)
    {
      PushThenPopMirrors(s, st, t, ld, j, m);
    }
    MirrorsDecide(st, seq(16, j requires 0 <= j < 16 => RegValue(s, s.mode, j)),
                      seq(16, j requires 0 <= j < 16 => RegValue(u, s.mode, j)));
  }

  /** If every register's new value is its mirror's old one, the values survive iff they are symmetric. */
  lemma MirrorsDecide(ins: Word, was: seq<Word>, now: seq<Word>)
    requires |was| == |now| == 16
    requires forall j: Reg4, m: Reg4 :: Mirrored(ins, j, m) ==> now[j] == was[m]
    ensures (forall j: Reg4 :: Listed(ins, j) ==> now[j] == was[j]) <==>
            (forall j: Reg4, m: Reg4 :: Mirrored(ins, j, m) ==> was[j] == was[m])
  {
    forall j: Reg4 | Listed(ins, j) ensures exists m: Reg4 :: Mirrored(ins, j, m) {
      var m := MirrorOf(ins, j);
    }
  }

  // ---- A push and pop that fails to restore ---------------------------------------------------------------

  /** stmdb r13!, {r0, r1} and ldmia r13!, {r0, r1}: the usual push and pop of two registers. */
  const PUSH_R0_R1: Word := 0xE92D_0003
  const POP_R0_R1: Word := 0xE8BD_0003

  lemma HighBitsClear(x: Word, q: Word, i: nat)
    requires x == 0x1_0000 * q + 3 && 2 <= i < 16
    ensures Bit(x, i) == 0
  {
    assert Pow2(16) == 0x1_0000 by { assert Pow2(8) == 0x100; Pow2Adds(8, 8); }
    assert Pow2(16 - i) == 2 * Pow2(15 - i);
    hide Pow2;
    Pow2Adds(i, 16 - i);
    var m := q * Pow2(16 - i);
    Arith.Reassociate(q, Pow2(16 - i), Pow2(i));
    Arith.Commute(Pow2(i), Pow2(16 - i));
    Pow2Exceeds(i);
    Arith.DivisionIsUnique(x, Pow2(i), m, 3);
    Arith.Reassociate(q, 2, Pow2(15 - i));
    Arith.DivisionIsUnique(m, 2, q * Pow2(15 - i), 0);
  }

  lemma {:induction false} Pow2Exceeds(i: nat)
    requires i >= 2
    ensures Pow2(i) > 3
  {
    if i > 2 { Pow2Exceeds(i - 1); } else { assert Pow2(1) == 2; }
  }

  /** A list whose sixteen bits are 3 holds r0 and r1 and nothing else. */
  lemma TwoListed(ins: Word, i: nat)
    requires ins == 0x1_0000 * (ins / 0x1_0000) + 3 && i < 16
    ensures Listed(ins, i) <==> i < 2
  {
    if i >= 2 {
      HighBitsClear(ins, ins / 0x1_0000, i);
    } else {
      assert Pow2(0) == 1 && Pow2(1) == 2;
    }
  }

  lemma {:induction false} TwoRanked(ins: Word, i: nat)
    requires ins == 0x1_0000 * (ins / 0x1_0000) + 3 && i <= 16
    ensures Rank(ins, i) == if i < 2 then i else 2
  {
    if i > 0 {
      TwoRanked(ins, i - 1);
      TwoListed(ins, i - 1);
    }
  }

  lemma PushAndPopBits()
    ensures var st, ld := PUSH_R0_R1, POP_R0_R1;
            && IsStm(st) && IsLdm(ld) && Rn(st) == Rn(ld) == 13 && !Bit22(st) && !Bit22(ld) && Bit21(st) && Bit21(ld)
            && Bit23(ld) != Bit23(st) && Bit24(ld) != Bit24(st)
  {
  }

  lemma TwoArePushAndPop()
    ensures PushAndPop(PUSH_R0_R1, POP_R0_R1)
  {
    hide Rn, Bit21, Bit22, Bit23, Bit24, Listed, IsStm, IsLdm;
    PushAndPopBits();
    forall i | 0 <= i < 16 ensures Listed(PUSH_R0_R1, i) == Listed(POP_R0_R1, i) == (i < 2) {
      TwoListed(PUSH_R0_R1, i);
      TwoListed(POP_R0_R1, i);
    }
  }

  /** Pushing r0 and r1 and popping them at once exchanges the two registers. */
  lemma PushThenPopOfTwoSwaps(s: State)
    requires Execute(s, PUSH_R0_R1).status == Done(0)
    ensures var u := Execute(Execute(s, PUSH_R0_R1).s, POP_R0_R1).s;
            u.cells[0] == s.cells[1] && u.cells[1] == s.cells[0]
  {
    hide Execute, PushAndPop, Rank, Listed, IsStm, IsLdm, Rn, Bit21, Bit22, Bit23, Bit24;
    PushAndPopBits();
    TwoArePushAndPop();
    StoreMultipleEffect(s, PUSH_R0_R1);
    TwoListed(PUSH_R0_R1, 0);
    TwoListed(PUSH_R0_R1, 1);
    TwoRanked(PUSH_R0_R1, 0);
    TwoRanked(PUSH_R0_R1, 1);
    TwoRanked(PUSH_R0_R1, 16);
    var t := Execute(s, PUSH_R0_R1).s;
    PushThenPopReverses(s, PUSH_R0_R1, t, POP_R0_R1, 0, 1);
    PushThenPopReverses(s, PUSH_R0_R1, t, POP_R0_R1, 1, 0);
  }
}
