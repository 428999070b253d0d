/**
 Physical memory as bytes.
 */
module Ram {
  import opened Words

  const PAGE_SIZE: nat := 4096
  const PHYS_SIZE: nat := 0x1_0000_0000   // what 32-bit paging without PAE can address
  const PHYS_PAGES: nat := 0x10_0000
  const BOOT_PAGES: nat := 1024           // pages that boot.S maps at their own address
  const BOOT_REACH: nat := 0x40_0000      // the same in bytes

  /** Nothing changed outside lo .. hi. */
  ghost predicate SameOutside(m: seq<u8>, m': seq<u8>, lo: nat, hi: nat) {
    |m| == |m'| && forall a: nat :: a < |m| && !(lo <= a < hi) ==> m'[a] == m[a]
  }

  /** Memories m and m' hold the same bytes from lo to hi. */
  ghost predicate Agree(m: seq<u8>, m': seq<u8>, lo: nat, hi: nat) {
    |m| == |m'| && hi <= |m| && forall a: nat :: lo <= a < hi ==> m'[a] == m[a]
  }

  /** The little-endian number in bytes a .. end. */
  function Little(m: seq<u8>, a: nat, end: nat): (r: nat)
    requires a <= end <= |m|
    ensures r < Pow256(end - a)
    decreases end - a
  {
    if a == end then 0 else m[a] + 256 * Little(m, a + 1, end)
  }

  function Pow256(n: nat): (p: nat)
    ensures p > 0
  {
    if n == 0 then 1 else 256 * Pow256(n - 1)
  }

  /** Little-endian 32-bit word at address a. */
  function Word(m: seq<u8>, a: nat): (w: u32)
    requires a + 4 <= |m|
  {
    assert Pow256(4) == U32;
    Little(m, a, a + 4)
  }

  /** Little-endian 64-bit word at address a. */
  function Long(m: seq<u8>, a: nat): (w: u64)
    requires a + 8 <= |m|
  {
    assert Pow256(8) == U64;
    Little(m, a, a + 8)
  }

  lemma {:induction false} LittleAgrees(m: seq<u8>, m': seq<u8>, a: nat, end: nat)
    requires a <= end && Agree(m, m', a, end)
    ensures Little(m', a, end) == Little(m, a, end)
    decreases end - a
  {
    if a < end {
      LittleAgrees(m, m', a + 1, end);
    }
  }

  /** Four unchanged bytes read as the same word. */
  lemma WordKept(m: seq<u8>, m': seq<u8>, a: nat)
    requires a + 4 <= |m| == |m'| && m'[a] == m[a] && m'[a + 1] == m[a + 1] && m'[a + 2] == m[a + 2]
             && m'[a + 3] == m[a + 3]
    ensures Word(m', a) == Word(m, a)
  {
    LittleAgrees(m, m', a, a + 4);
  }

  lemma ZeroWord(m: seq<u8>, a: nat)
    requires a + 4 <= |m| && m[a] == 0 && m[a + 1] == 0 && m[a + 2] == 0 && m[a + 3] == 0
    ensures Word(m, a) == 0
  {
    assert Little(m, a + 4, a + 4) == 0;
    assert Little(m, a + 3, a + 4) == 0;
    assert Little(m, a + 2, a + 4) == 0;
    assert Little(m, a + 1, a + 4) == 0;
  }

  /** Four bytes of v, low byte first, read back as v. */
  lemma WordOfBytes(m: seq<u8>, a: nat, v: u32)
    requires a + 4 <= |m|
    requires m[a] == v % 0x100 && m[a + 1] == v / 0x100 % 0x100 && m[a + 2] == v / 0x1_0000 % 0x100
             && m[a + 3] == v / 0x100_0000
    ensures Word(m, a) == v
  {
    Digits(v);
    assert Little(m, a + 4, a + 4) == 0;
    assert Little(m, a + 3, a + 4) == v / 0x100_0000;
    assert Little(m, a + 2, a + 4) == v / 0x1_0000;
    assert Little(m, a + 1, a + 4) == v / 0x100;
  }

  /** A 64-bit word is two 32-bit words, the low one first. */
  lemma LongWords(m: seq<u8>, a: nat)
    requires a + 8 <= |m|
    ensures Long(m, a) == Word(m, a) + 0x1_0000_0000 * Word(m, a + 4)
  {
    LowFour(m, a, a + 8);
    LowFour(m, a, a + 4);
  }

  lemma LowFour(m: seq<u8>, a: nat, end: nat)
    requires a + 4 <= end <= |m|
    ensures Little(m, a, end) == m[a] as int + 0x100 * m[a + 1] as int + 0x1_0000 * m[a + 2] as int
                                 + 0x100_0000 * m[a + 3] as int + 0x1_0000_0000 * Little(m, a + 4, end)
  {
    assert Little(m, a + 3, end) == m[a + 3] + 256 * Little(m, a + 4, end);
    assert Little(m, a + 2, end) == m[a + 2] + 256 * Little(m, a + 3, end);
    assert Little(m, a + 1, end) == m[a + 1] + 256 * Little(m, a + 2, end);
  }

  /** The digits of v to base 256. */
  lemma Digits(v: u32)
    ensures v == v % 0x100 + 256 * (v / 0x100)
    ensures v / 0x100 == v / 0x100 % 0x100 + 256 * (v / 0x1_0000)
    ensures v / 0x1_0000 == v / 0x1_0000 % 0x100 + 256 * (v / 0x100_0000)
  {
    assert v / 0x100 / 0x100 == v / 0x1_0000;
    assert v / 0x1_0000 / 0x100 == v / 0x100_0000;
  }

  /** A 32-bit store. */
  method StoreWord(ram: array<u8>, a: nat, v: u32)
    requires a + 4 <= ram.Length
    modifies ram
    ensures Word(ram[..], a) == v && SameOutside(old(ram[..]), ram[..], a, a + 4)
  {
    ram[a] := v % 0x100;
    ram[a + 1] := v / 0x100 % 0x100;
    ram[a + 2] := v / 0x1_0000 % 0x100;
    ram[a + 3] := v / 0x100_0000;
    WordOfBytes(ram[..], a, v);
  }

  /** memset(p, v, len) */
  method Fill(ram: array<u8>, from: nat, len: nat, v: u8)
    requires from + len <= ram.Length
    modifies ram
    ensures forall a :: from <= a < from + len ==> ram[a] == v
    ensures SameOutside(old(ram[..]), ram[..], from, from + len)
  {
    var i := 0;
    while i < len
      invariant 0 <= i <= len
      invariant forall a :: from <= a < from + i ==> ram[a] == v
      invariant SameOutside(old(ram[..]), ram[..], from, from + len)
    {
      ram[from + i] := v;
      i := i + 1;
    }
  }
}
