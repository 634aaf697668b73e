/** Machine words: unsigned 32-bit values as bounded integers, with the wrap-around written out. */
module Words {
  import Arith

  type Word = x: int | 0 <= x < 0x1_0000_0000
  type Byte = x: int | 0 <= x < 0x100

  datatype Option<+T> = None | Some(value: T)

  /** Reduction modulo 2^32: what C does to every uint32_t result. */
  function Wrap(x: int): Word {
    x % 0x1_0000_0000
  }

  function Pow2(n: nat): (p: int)
    ensures p >= 1
  {
    if n == 0 then 1 else 2 * Pow2(n - 1)
  }

  /** get_bit of util.h. */
  function Bit(x: Word, i: nat): (b: int)
    ensures b == 0 || b == 1
  {
    (x / Pow2(i)) % 2
  }

  /** The value of a word read as a two's complement number. */
  function Signed(x: Word): (s: int)
    ensures -0x8000_0000 <= s < 0x8000_0000
    ensures Wrap(s) == x
  {
    if x < 0x8000_0000 then x else x - 0x1_0000_0000
  }

  /** What &, | and ^ do to one bit of each operand. */
  datatype Gate = And | Or | Xor

  function Gated(g: Gate, a: nat, b: nat): (r: nat)
    requires a < 2 && b < 2
    ensures r < 2
  {
    match g
    case And => if a == 1 then b else 0
    case Or => if a == 1 then 1 else b
    case Xor => if a == b then 0 else 1
  }

  /** The n lowest bits of two numbers through a gate, the lowest bit first. */
  function Through(g: Gate, x: nat, y: nat, n: nat): (r: nat)
    ensures r < Pow2(n)
  {
    if n == 0 then 0 else 2 * Through(g, x / 2, y / 2, n - 1) + Gated(g, x % 2, y % 2)
  }

  lemma Pow2Of32()
    ensures Pow2(31) == 0x8000_0000 && Pow2(32) == 0x1_0000_0000
  {
    assert Pow2(8) == 0x100;
    Pow2Adds(8, 8);
    Pow2Adds(16, 16);
    assert Pow2(32) == 2 * Pow2(31);
  }

  /** C's &, | and ^ on uint32_t. */
  function AndWord(x: Word, y: Word): Word {
    Pow2Of32();
    Through(And, x, y, 32)
  }

  function OrWord(x: Word, y: Word): Word {
    Pow2Of32();
    Through(Or, x, y, 32)
  }

  function XorWord(x: Word, y: Word): Word {
    Pow2Of32();
    Through(Xor, x, y, 32)
  }

  /** C's ~ on uint32_t. */
  function NotWord(x: Word): Word {
    0xFFFF_FFFF - x
  }

  /** Numbers less than 2^32 apart are the same word only if they are equal. */
  lemma WrapsApart(x: int, y: int)
    requires -0x1_0000_0000 < x - y < 0x1_0000_0000
    ensures Wrap(x) == Wrap(y) <==> x == y
  {
    Arith.DivMod(x, 0x1_0000_0000);
    Arith.DivMod(y, 0x1_0000_0000);
  }

  lemma {:induction false} Pow2Adds(a: nat, b: nat)
    ensures Pow2(a + b) == Pow2(a) * Pow2(b)
  {
    if a > 0 {
      assert Pow2(a) == 2 * Pow2(a - 1) && Pow2(a + b) == 2 * Pow2(a - 1 + b);
      hide Pow2;
      Pow2Adds(a - 1, b);
      Arith.Reassociate(2, Pow2(a - 1), Pow2(b));
    } else {
      assert Pow2(0) == 1;
    }
  }
}
