/** Words as rows of bits: what the bitwise operators do to each bit, and that the bits decide the word. */
module Bitwise {
  import opened Words
  import Arith

  // ---- Bits ----------------------------------------------------------------------------------------------

  lemma DivDiv(x: nat, p: nat)
    requires p > 0
    ensures x / (2 * p) == (x / 2) / p
  {
    var q, r := (x / 2) / p, (x / 2) % p;
    Arith.DivMod(x / 2, p);
    Arith.Reassociate(q, 2, p);
    Arith.DivisionIsUnique(x, 2 * p, q, 2 * r + x % 2);
  }

  /** The bits of a word are its lowest one and those of its half. */
  lemma BitOfHalf(x: Word, i: nat)
    ensures Bit(x, 0) == x % 2 && Bit(x, i + 1) == Bit(x / 2, i)
  {
    DivDiv(x, Pow2(i));
    assert Pow2(0) == 1 && Pow2(i + 1) == 2 * Pow2(i);
  }

  lemma HalfFits(x: nat, n: nat)
    requires n > 0 && x < Pow2(n)
    ensures x / 2 < Pow2(n - 1)
  {
  }

  lemma {:induction false} Pow2Grows(n: nat)
    requires n <= 32
    ensures Pow2(n) <= 0x1_0000_0000
    decreases 32 - n
  {
    if n < 32 { Pow2Grows(n + 1); } else { Pow2Of32(); }
  }

  lemma ThroughHalf(g: Gate, x: nat, y: nat, n: nat)
    requires 0 < n <= 32
    ensures Through(g, x, y, n) < 0x1_0000_0000
    ensures Through(g, x, y, n) / 2 == Through(g, x / 2, y / 2, n - 1)
    ensures Through(g, x, y, n) % 2 == Gated(g, x % 2, y % 2)
  {
    Pow2Grows(n);
    hide Gated;
    Arith.DivisionIsUnique(Through(g, x, y, n), 2, Through(g, x / 2, y / 2, n - 1), Gated(g, x % 2, y % 2));
  }

  /** Bit i of the combination is the combination of the bits i. */
  lemma {:induction false} ThroughBit(g: Gate, x: Word, y: Word, n: nat, i: nat)
    requires i < n <= 32
    ensures Through(g, x, y, n) < 0x1_0000_0000
    ensures Bit(Through(g, x, y, n), i) == Gated(g, Bit(x, i), Bit(y, i))
    decreases n
  {
    hide Through, Gated, Bit;
    ThroughHalf(g, x, y, n);
    var r: Word := Through(g, x, y, n);
    if i == 0 {
      BitOfHalf(r, 0);
      BitOfHalf(x, 0);
      BitOfHalf(y, 0);
    } else {
      ThroughBit(g, x / 2, y / 2, n - 1, i - 1);
      BitOfHalf(r, i - 1);
      BitOfHalf(x, i - 1);
      BitOfHalf(y, i - 1);
    }
  }

  lemma AndBit(x: Word, y: Word, i: nat)
    requires i < 32
    ensures Bit(AndWord(x, y), i) == if Bit(x, i) == 1 && Bit(y, i) == 1 then 1 else 0
  {
    ThroughBit(And, x, y, 32, i);
  }

  lemma OrBit(x: Word, y: Word, i: nat)
    requires i < 32
    ensures Bit(OrWord(x, y), i) == if Bit(x, i) == 1 || Bit(y, i) == 1 then 1 else 0
  {
    ThroughBit(Or, x, y, 32, i);
  }

  lemma XorBit(x: Word, y: Word, i: nat)
    requires i < 32
    ensures Bit(XorWord(x, y), i) == if Bit(x, i) != Bit(y, i) then 1 else 0
  {
    ThroughBit(Xor, x, y, 32, i);
  }

  /** Bits of the complement within n bits. */
  lemma {:induction false} ComplementBit(x: Word, n: nat, i: nat)
    requires i < n <= 32 && x < Pow2(n)
    ensures 0 <= Pow2(n) - 1 - x < 0x1_0000_0000
    ensures Bit(Pow2(n) - 1 - x, i) == 1 - Bit(x, i)
    decreases n
  {
    Pow2Grows(n);
    var r: Word := Pow2(n) - 1 - x;
    BitOfHalf(r, i);
    BitOfHalf(x, i);
    if i > 0 {
      HalfFits(x, n);
      assert r / 2 == Pow2(n - 1) - 1 - x / 2;
      ComplementBit(x / 2, n - 1, i - 1);
      BitOfHalf(r, i - 1);
      BitOfHalf(x, i - 1);
    }
  }

  lemma NotBit(x: Word, i: nat)
    requires i < 32
    ensures Bit(NotWord(x), i) == 1 - Bit(x, i)
  {
    Pow2Of32();
    ComplementBit(x, 32, i);
  }

  lemma HalfOfSum(x: nat, q: nat, p: nat, l: nat)
    requires x == q * (2 * p) + l
    ensures x / 2 == q * p + l / 2 && x % 2 == l % 2
  {
    var m := q * p;
    Arith.Reassociate(q, p, 2);
    Arith.Commute(2, p);
    assert x == m * 2 + l;
    Arith.DivShifts(l, 2, m);
  }

  /** Bits below n do not depend on what is above. */
  lemma {:induction false} LowBits(x: Word, q: nat, l: Word, n: nat, i: nat)
    requires i < n && l < Pow2(n) && x == q * Pow2(n) + l
    ensures Bit(x, i) == Bit(l, i)
    decreases n
  {
    HalfOfSum(x, q, Pow2(n - 1), l);
    HalfFits(l, n);
    hide Pow2, Bit;
    if i > 0 {
      LowBits(x / 2, q, l / 2, n - 1, i - 1);
      BitOfHalf(x, i - 1);
      BitOfHalf(l, i - 1);
    } else {
      BitOfHalf(x, 0);
      BitOfHalf(l, 0);
    }
  }

  // ---- Words are decided by their bits -------------------------------------------------------------------

  lemma {:induction false} SameBits(x: Word, y: Word, n: nat)
    requires x < Pow2(n) && y < Pow2(n) && forall i :: 0 <= i < n ==> Bit(x, i) == Bit(y, i)
    ensures x == y
    decreases n
  {
    if n > 0 {
      HalfFits(x, n);
      HalfFits(y, n);
      forall i | 0 <= i < n - 1 ensures Bit(x / 2, i) == Bit(y / 2, i) {
        BitOfHalf(x, i);
        BitOfHalf(y, i);
        assert Bit(x, i + 1) == Bit(y, i + 1);
      }
      SameBits(x / 2, y / 2, n - 1);
      BitOfHalf(x, 0);
      BitOfHalf(y, 0);
      assert Bit(x, 0) == Bit(y, 0);
    }
  }

  lemma BitsDecide(x: Word, y: Word)
    requires forall i :: 0 <= i < 32 ==> Bit(x, i) == Bit(y, i)
    ensures x == y
  {
    Pow2Of32();
    SameBits(x, y, 32);
  }

  // ---- Masks and the exclusive or ------------------------------------------------------------------------

  /** Thirty-two equal bits. */
  predicate IsMask(m: Word) { m == 0 || m == 0xFFFF_FFFF }

  lemma {:induction false} ZeroBit(i: nat)
    ensures Bit(0, i) == 0
  {
    if i > 0 {
      ZeroBit(i - 1);
      BitOfHalf(0, i - 1);
    } else {
      BitOfHalf(0, 0);
    }
  }

  lemma MaskBit(m: Word, i: nat)
    requires IsMask(m) && i < 32
    ensures Bit(m, i) == if m == 0 then 0 else 1
  {
    ZeroBit(i);
    NotBit(0, i);
  }

  lemma AndMask(x: Word, m: Word)
    requires IsMask(m)
    ensures AndWord(x, m) == if m == 0 then 0 else x
  {
    hide AndWord, Bit;
    forall i | 0 <= i < 32 ensures Bit(AndWord(x, m), i) == Bit(if m == 0 then 0 else x, i) {
      AndBit(x, m, i);
      MaskBit(m, i);
    }
    BitsDecide(AndWord(x, m), if m == 0 then 0 else x);
  }

  lemma OrMask(x: Word, m: Word)
    requires IsMask(m)
    ensures OrWord(x, m) == if m == 0 then x else 0xFFFF_FFFF
  {
    hide OrWord, Bit;
    forall i | 0 <= i < 32 ensures Bit(OrWord(x, m), i) == Bit(if m == 0 then x else 0xFFFF_FFFF, i) {
      OrBit(x, m, i);
      MaskBit(m, i);
    }
    BitsDecide(OrWord(x, m), if m == 0 then x else 0xFFFF_FFFF);
  }

  /** An exclusive or tells its second operand. */
  lemma XorShows(x: Word, y: Word, z: Word)
    ensures XorWord(x, y) == XorWord(x, z) <==> y == z
  {
    hide XorWord, Bit;
    if XorWord(x, y) == XorWord(x, z) {
      forall i | 0 <= i < 32 ensures Bit(y, i) == Bit(z, i) {
        XorBit(x, y, i);
        XorBit(x, z, i);
      }
      BitsDecide(y, z);
    }
  }

  lemma XorItself(x: Word)
    ensures XorWord(x, x) == 0
  {
    hide XorWord, Bit;
    forall i | 0 <= i < 32 ensures Bit(XorWord(x, x), i) == Bit(0, i) {
      XorBit(x, x, i);
      ZeroBit(i);
    }
    BitsDecide(XorWord(x, x), 0);
  }
}
