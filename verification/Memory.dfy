/**
 * The simulated memory of memory.c: bytes, with half-word and word accesses whose byte order is
 * the memory's own whatever the byte order of the host.
 */
module Memory {
  import opened Words

  type Half = x: int | 0 <= x < 0x1_0000

  /** A memory for which the bounds tests of memory.c are sound; see `WordGuardSoundIff`. */
  type Ram = s: seq<Byte> | 3 <= |s| witness [0, 0, 0]

  // ---- The bounds tests ------------------------------------------------------------------------

  /** mem->size - k in size_t arithmetic. */
  function SizeMinus(size: nat, k: nat): nat {
    (size - k) % 0x1_0000_0000_0000_0000
  }

  /** The test of memory_read_word and memory_write_word lets the address through. */
  predicate WordAccepted(size: nat, a: Word) {
    a < SizeMinus(size, 3)
  }

  /** Every word address let through has all its four bytes inside, iff the size is at least 3. */
  lemma WordGuardSoundIff(size: nat)
    requires size < 0x1_0000_0000_0000_0000
    ensures (forall a: Word :: WordAccepted(size, a) ==> a + 4 <= size) <==> 3 <= size
  {
    if size < 3 {
      assert WordAccepted(size, 0);
    }
  }

  // ---- Host accesses and byte reversal ---------------------------------------------------------

  /** A uint32_t access through a pointer on a host of the given byte order. */
  function HostWord(hostBig: bool, b0: Byte, b1: Byte, b2: Byte, b3: Byte): Word {
    if hostBig then ((b0 * 256 + b1) * 256 + b2) * 256 + b3 else ((b3 * 256 + b2) * 256 + b1) * 256 + b0
  }

  function HostBytes(hostBig: bool, v: Word): (Byte, Byte, Byte, Byte) {
    var c0, c1, c2, c3 := v % 256, (v / 0x100) % 256, (v / 0x1_0000) % 256, v / 0x100_0000;
    if hostBig then (c3, c2, c1, c0) else (c0, c1, c2, c3)
  }

  /** reverse_4 of util.h. */
  function Reverse4(v: Word): Word {
    (v % 256) * 0x100_0000 + ((v / 0x100) % 256) * 0x1_0000 + ((v / 0x1_0000) % 256) * 0x100 + (v / 0x100_0000) % 256
  }

  function HostHalf(hostBig: bool, b0: Byte, b1: Byte): Half {
    if hostBig then b0 * 256 + b1 else b1 * 256 + b0
  }

  function HostHalfBytes(hostBig: bool, v: Half): (Byte, Byte) {
    if hostBig then (v / 256, v % 256) else (v % 256, v / 256)
  }

  /** reverse_2 of util.h. */
  function Reverse2(v: Half): Half {
    (v % 256) * 0x100 + (v / 0x100) % 256
  }

  // ---- What an access means --------------------------------------------------------------------

  /** The word at an address: first byte most significant if the memory is big endian. */
  function WordAt(ram: Ram, big: bool, a: nat): Word
    requires a + 4 <= |ram|
  {
    HostWord(big, ram[a], ram[a + 1], ram[a + 2], ram[a + 3])
  }

  function HalfAt(ram: Ram, big: bool, a: nat): Half
    requires a + 2 <= |ram|
  {
    HostHalf(big, ram[a], ram[a + 1])
  }

  /** The word at an address is the sum of its bytes by weight, from the first one down or up. */
  lemma WordIsSumOfBytes(ram: Ram, big: bool, a: nat)
    requires a + 4 <= |ram|
    ensures var b0: int, b1: int, b2: int, b3: int := ram[a], ram[a + 1], ram[a + 2], ram[a + 3];
            && WordAt(ram, big, a) == (if big then 0x100_0000 * b0 + 0x1_0000 * b1 + 0x100 * b2 + b3
                                       else b0 + 0x100 * b1 + 0x1_0000 * b2 + 0x100_0000 * b3)
            && HalfAt(ram, big, a) == (if big then 0x100 * b0 + b1 else b0 + 0x100 * b1)
  {
  }

  function PutWord(ram: Ram, big: bool, a: nat, v: Word): Ram
    requires a + 4 <= |ram|
  {
    var (b0, b1, b2, b3) := HostBytes(big, v);
    ram[a := b0][a + 1 := b1][a + 2 := b2][a + 3 := b3]
  }

  function PutHalf(ram: Ram, big: bool, a: nat, v: Half): Ram
    requires a + 2 <= |ram|
  {
    var (b0, b1) := HostHalfBytes(big, v);
    ram[a := b0][a + 1 := b1]
  }

  lemma WordBytesRoundTrip(big: bool, v: Word)
    ensures var (b0, b1, b2, b3) := HostBytes(big, v); HostWord(big, b0, b1, b2, b3) == v
  {
    var c1, c2 := v / 0x100, v / 0x1_0000;
    assert c1 == 256 * c2 + c1 % 256;
    assert c2 == 256 * (v / 0x100_0000) + c2 % 256;
  }

  /** The base-256 digits of a number put together from four bytes. */
  lemma Digits(c0: Byte, c1: Byte, c2: Byte, c3: Byte)
    ensures var v := ((c3 * 256 + c2) * 256 + c1) * 256 + c0;
            v % 256 == c0 && (v / 0x100) % 256 == c1 && (v / 0x1_0000) % 256 == c2 && v / 0x100_0000 == c3
  {
    var v := ((c3 * 256 + c2) * 256 + c1) * 256 + c0;
    assert v / 0x100 == (c3 * 256 + c2) * 256 + c1;
    assert v / 0x1_0000 == c3 * 256 + c2;
    assert v / 0x100_0000 == c3;
  }

  /** Reading through a host of the other byte order and reversing is reading in the memory's order. */
  lemma ReverseUndoesHost(hostBig: bool, b0: Byte, b1: Byte, b2: Byte, b3: Byte)
    ensures Reverse4(HostWord(hostBig, b0, b1, b2, b3)) == HostWord(!hostBig, b0, b1, b2, b3)
  {
    if hostBig {
      Digits(b3, b2, b1, b0);
    } else {
      Digits(b0, b1, b2, b3);
    }
  }

  lemma ReverseUndoesHostHalf(hostBig: bool, b0: Byte, b1: Byte)
    ensures Reverse2(HostHalf(hostBig, b0, b1)) == HostHalf(!hostBig, b0, b1)
  {
    HalfDigits(b0, b1);
    HalfDigits(b1, b0);
  }

  lemma HalfDigits(c0: Byte, c1: Byte)
    ensures (c1 * 256 + c0) % 256 == c0 && (c1 * 256 + c0) / 0x100 == c1
  {
  }

  lemma ReverseSwapsBytes(hostBig: bool, v: Word)
    ensures HostBytes(hostBig, Reverse4(v)) == HostBytes(!hostBig, v)
  {
    Digits((v / 0x100_0000) % 256, (v / 0x1_0000) % 256, (v / 0x100) % 256, v % 256);
  }

  lemma ReverseSwapsHalf(hostBig: bool, v: Half)
    ensures HostHalfBytes(hostBig, Reverse2(v)) == HostHalfBytes(!hostBig, v)
  {
  }

  /** A word written is read back, and every word that does not overlap it is as before. */
  lemma ReadAfterWrite(ram: Ram, big: bool, a: nat, v: Word, c: nat)
    requires a + 4 <= |ram| && c + 4 <= |ram|
    ensures c == a ==> WordAt(PutWord(ram, big, a, v), big, c) == v
    ensures c + 4 <= a || a + 4 <= c ==> WordAt(PutWord(ram, big, a, v), big, c) == WordAt(ram, big, c)
  {
    WordBytesRoundTrip(big, v);
  }

  // ---- The accesses of memory.c ------------------------------------------------------------------

  /** None is the failure status -1. */
  function LoadWord(ram: Ram, big: bool, a: Word): Option<Word> {
    if a + 4 <= |ram| then Some(WordAt(ram, big, a)) else None
  }

  function LoadHalf(ram: Ram, big: bool, a: Word): Option<Half> {
    if a + 2 <= |ram| then Some(HalfAt(ram, big, a)) else None
  }

  function LoadByte(ram: Ram, a: Word): Option<Byte> {
    if a < |ram| then Some(ram[a]) else None
  }

  function StoreWord(ram: Ram, big: bool, a: Word, v: Word): Option<Ram> {
    if a + 4 <= |ram| then Some(PutWord(ram, big, a, v)) else None
  }

  function StoreHalf(ram: Ram, big: bool, a: Word, v: Half): Option<Ram> {
    if a + 2 <= |ram| then Some(PutHalf(ram, big, a, v)) else None
  }

  function StoreByte(ram: Ram, a: Word, v: Byte): Option<Ram> {
    if a < |ram| then Some(ram[a := v]) else None
  }

  class MemoryData {
    const isBigEndian: bool
    const bytes: array<Byte>

    ghost predicate Valid() {
      3 <= bytes.Length < 0x1_0000_0000_0000_0000
    }

    ghost function Contents(): Ram
      requires Valid()
      reads bytes
    {
      bytes[..]
    }

    constructor (size: nat, big: bool)
      requires 3 <= size < 0x1_0000_0000_0000_0000
      ensures Valid() && bytes.Length == size && isBigEndian == big && fresh(bytes)
    {
      isBigEndian := big;
      bytes := new Byte[size];
    }

    method ReadByte(address: Word) returns (r: Option<Byte>)
      requires Valid()
      ensures r == LoadByte(Contents(), address)
    {
      if address >= bytes.Length { return None; }
      r := Some(bytes[address]);
    }

    method ReadHalf(hostBig: bool, address: Word) returns (r: Option<Half>)
      requires Valid()
      ensures r == LoadHalf(Contents(), isBigEndian, address)
    {
      if address >= SizeMinus(bytes.Length, 1) { return None; }
      var host := HostHalf(hostBig, bytes[address], bytes[address + 1]);
      if hostBig == isBigEndian {
        r := Some(host);
      } else {
        ReverseUndoesHostHalf(hostBig, bytes[address], bytes[address + 1]);
        r := Some(Reverse2(host));
      }
    }

    method ReadWord(hostBig: bool, address: Word) returns (r: Option<Word>)
      requires Valid()
      ensures r == LoadWord(Contents(), isBigEndian, address)
    {
      if address >= SizeMinus(bytes.Length, 3) { return None; }
      var host := HostWord(hostBig, bytes[address], bytes[address + 1], bytes[address + 2], bytes[address + 3]);
      if hostBig == isBigEndian {
        r := Some(host);
      } else {
        ReverseUndoesHost(hostBig, bytes[address], bytes[address + 1], bytes[address + 2], bytes[address + 3]);
        r := Some(Reverse4(host));
      }
    }

    method WriteByte(address: Word, value: Byte) returns (ok: bool)
      requires Valid()
      modifies bytes
      ensures ok == StoreByte(old(Contents()), address, value).Some?
      ensures Contents() == if ok then StoreByte(old(Contents()), address, value).value else old(Contents())
    {
      if address >= bytes.Length { return false; }
      bytes[address] := value;
      ok := true;
    }

    method WriteHalf(hostBig: bool, address: Word, value: Half) returns (ok: bool)
      requires Valid()
      modifies bytes
      ensures ok == StoreHalf(old(Contents()), isBigEndian, address, value).Some?
      ensures Contents() ==
              if ok then StoreHalf(old(Contents()), isBigEndian, address, value).value else old(Contents())
    {
      if address >= SizeMinus(bytes.Length, 1) { return false; }
      ReverseSwapsHalf(hostBig, value);
      var (b0, b1) := HostHalfBytes(hostBig, if hostBig == isBigEndian then value else Reverse2(value));
      bytes[address] := b0;
      bytes[address + 1] := b1;
      ok := true;
    }

    method WriteWord(hostBig: bool, address: Word, value: Word) returns (ok: bool)
      requires Valid()
      modifies bytes
      ensures ok == StoreWord(old(Contents()), isBigEndian, address, value).Some?
      ensures Contents() ==
              if ok then StoreWord(old(Contents()), isBigEndian, address, value).value else old(Contents())
    {
      if address >= SizeMinus(bytes.Length, 3) { return false; }
      ReverseSwapsBytes(hostBig, value);
      var (b0, b1, b2, b3) := HostBytes(hostBig, if hostBig == isBigEndian then value else Reverse4(value));
      bytes[address] := b0;
      bytes[address + 1] := b1;
      bytes[address + 2] := b2;
      bytes[address + 3] := b3;
      ok := true;
    }
  }
}
