/**
 The boot information blob in RAM: a sequence of tags, as the Multiboot2 specification
 (section 3.6) lays it out, and what the boot code reads from it.
 */
module Multiboot {
  import opened Words
  import opened Ram

  const TAG_END: nat := 0
  const TAG_MODULE: nat := 3
  const TAG_BASIC_MEMINFO: nat := 4
  const TAG_MMAP: nat := 6
  const TAG_FRAMEBUFFER: nat := 8
  const MEMORY_AVAILABLE: nat := 1

  /** The tag after the one at t: sizes are padded to 8 bytes. */
  function NextTag(m: seq<u8>, t: nat): nat
    requires t + 8 <= |m|
  {
    t + (Word(m, t + 4) as int + 7) / 8 * 8
  }

  datatype Region = Region(base: nat, len: nat)

  function ModuleAt(m: seq<u8>, t: nat): Region
    requires t + 16 <= |m| && Word(m, t + 8) <= Word(m, t + 12)
  {
    Region(Word(m, t + 8), Word(m, t + 12) as int - Word(m, t + 8) as int)
  }

  /** Steps of `step` bytes from p end exactly at `end`. */
  predicate Whole(p: nat, end: nat, step: nat)
    requires step > 0
    decreases end - p
  {
    p == end || (p + step <= end && Whole(p + step, end, step))
  }

  /** A tag of a kind the boot code reads is long enough for what it reads. */
  ghost predicate TagOk(m: seq<u8>, t: nat)
    requires t + 8 <= |m|
  {
    var size := Word(m, t + 4) as int;
    && size >= 8
    && t + size <= |m|
    && (Word(m, t) == TAG_MODULE ==> size >= 16 && Word(m, t + 8) <= Word(m, t + 12))
    && (Word(m, t) == TAG_BASIC_MEMINFO ==> size >= 16)
    && (Word(m, t) == TAG_FRAMEBUFFER ==> size >= 32)
    && (Word(m, t) == TAG_MMAP ==> size >= 16 && Word(m, t + 8) >= 24 && Whole(t + 16, t + size, Word(m, t + 8)))
  }

  /** From tag t on, tags are well formed and the end tag comes before `end`. */
  ghost predicate TagsOk(m: seq<u8>, t: nat, end: nat)
    decreases end - t
  {
    && t + 8 <= end <= |m|
    && (Word(m, t) == TAG_END || (TagOk(m, t) && t < NextTag(m, t) < end && TagsOk(m, NextTag(m, t), end)))
  }

  /** First tag of a type from tag t on, or 0. */
  ghost function Find(m: seq<u8>, t: nat, end: nat, kind: nat): (r: nat)
    requires TagsOk(m, t, end)
    ensures r != 0 ==> t <= r && r + 8 <= end && r + Word(m, r + 4) <= end && TagOk(m, r) && Word(m, r) == kind
    decreases end - t
  {
    if Word(m, t) == TAG_END then 0
    else if Word(m, t) == kind then t
    else Find(m, NextTag(m, t), end, kind)
  }

  /** The modules listed from tag t on. */
  ghost function Modules(m: seq<u8>, t: nat, end: nat): seq<Region>
    requires TagsOk(m, t, end)
    decreases end - t
  {
    if Word(m, t) == TAG_END then []
    else if Word(m, t) == TAG_MODULE then [ModuleAt(m, t)] + Modules(m, NextTag(m, t), end)
    else Modules(m, NextTag(m, t), end)
  }

  /** AVAILABLE entries of a memory map, from the entry at p. */
  ghost function Entries(m: seq<u8>, p: nat, end: nat, step: nat): seq<Region>
    requires end <= |m| && step >= 24 && Whole(p, end, step)
    decreases end - p
  {
    if p >= end then [] else
      var rest := Entries(m, p + step, end, step);
      if Word(m, p + 16) == MEMORY_AVAILABLE then [Region(Long(m, p), Long(m, p + 8))] + rest else rest
  }

  /** The blob at `mbi`: header of 8 bytes, then tags up to total_size. */
  ghost predicate BlobOk(m: seq<u8>, mbi: nat) {
    && mbi + 8 <= |m|
    && mbi + Word(m, mbi) < U32
    && TagsOk(m, mbi + 8, mbi + Word(m, mbi))
  }

  function BlobSize(m: seq<u8>, mbi: nat): nat
    requires mbi + 8 <= |m|
  {
    Word(m, mbi)
  }

  ghost function FindTag(m: seq<u8>, mbi: nat, kind: nat): nat
    requires BlobOk(m, mbi)
  {
    Find(m, mbi + 8, mbi + BlobSize(m, mbi), kind)
  }

  ghost function AllModules(m: seq<u8>, mbi: nat): seq<Region>
    requires BlobOk(m, mbi)
  {
    Modules(m, mbi + 8, mbi + BlobSize(m, mbi))
  }

  /** The AVAILABLE entries of the memory map tag at t. */
  ghost function MapRegions(m: seq<u8>, t: nat): seq<Region>
    requires t + 8 <= |m| && TagOk(m, t) && Word(m, t) == TAG_MMAP
  {
    Entries(m, t + 16, t + Word(m, t + 4), Word(m, t + 8))
  }

  /** Lower and upper memory of the basic memory tag at t, given there in KiB. */
  ghost function BasicRegions(m: seq<u8>, t: nat): seq<Region>
    requires t + 8 <= |m| && TagOk(m, t) && Word(m, t) == TAG_BASIC_MEMINFO
  {
    [Region(0, 1024 * Word(m, t + 8) as int), Region(0x10_0000, 1024 * Word(m, t + 12) as int)]
  }

  /** What the machine has: the AVAILABLE entries of the memory map or, without one, the two basic sizes. */
  ghost function Available(m: seq<u8>, mbi: nat): seq<Region>
    requires BlobOk(m, mbi)
  {
    if FindTag(m, mbi, TAG_MMAP) != 0 then MapRegions(m, FindTag(m, mbi, TAG_MMAP))
    else if FindTag(m, mbi, TAG_BASIC_MEMINFO) != 0 then BasicRegions(m, FindTag(m, mbi, TAG_BASIC_MEMINFO))
    else []
  }

  // ---------------------------------------------------------------- reading again

  lemma WordAgrees(m: seq<u8>, m': seq<u8>, lo: nat, hi: nat, a: nat)
    requires Agree(m, m', lo, hi) && lo <= a && a + 4 <= hi
    ensures Word(m', a) == Word(m, a)
  {
    LittleAgrees(m, m', a, a + 4);
  }

  lemma {:induction false} TagsAgree(m: seq<u8>, m': seq<u8>, t: nat, end: nat, kind: nat)
    requires TagsOk(m, t, end) && Agree(m, m', t, end)
    ensures TagsOk(m', t, end)
    ensures Find(m', t, end, kind) == Find(m, t, end, kind)
    ensures Modules(m', t, end) == Modules(m, t, end)
    decreases end - t
  {
    WordAgrees(m, m', t, end, t);
    if Word(m, t) != TAG_END {
      WordAgrees(m, m', t, end, t + 4);
      TagAgrees(m, m', t, end);
      TagsAgree(m, m', NextTag(m, t), end, kind);
    }
  }

  lemma TagAgrees(m: seq<u8>, m': seq<u8>, t: nat, end: nat)
    requires t + 8 <= end <= |m| && TagOk(m, t) && NextTag(m, t) < end && Agree(m, m', t, end)
    ensures TagOk(m', t) && Word(m', t) == Word(m, t) && NextTag(m', t) == NextTag(m, t)
    ensures Word(m, t) == TAG_MODULE ==> ModuleAt(m', t) == ModuleAt(m, t)
  {
    WordAgrees(m, m', t, end, t);
    WordAgrees(m, m', t, end, t + 4);
    if Word(m, t + 4) >= 16 {
      WordAgrees(m, m', t, end, t + 8);
      WordAgrees(m, m', t, end, t + 12);
    }
  }

  /** Everything a walk reads at one tag. */
  lemma TagReadAgain(m: seq<u8>, m': seq<u8>, t: nat, end: nat)
    requires TagsOk(m, t, end) && Agree(m, m', t, end)
    ensures TagsOk(m', t, end) && Word(m', t) == Word(m, t)
    ensures Word(m, t) != TAG_END ==> TagOk(m', t) && NextTag(m', t) == NextTag(m, t)
    ensures Word(m, t) == TAG_MODULE ==> ModuleAt(m', t) == ModuleAt(m, t)
  {
    TagsAgree(m, m', t, end, 0);
    WordAgrees(m, m', t, end, t);
    if Word(m, t) != TAG_END { TagAgrees(m, m', t, end); }
  }

  lemma EntryAgrees(m: seq<u8>, m': seq<u8>, p: nat, end: nat)
    requires Agree(m, m', p, end) && p + 24 <= end
    ensures Word(m', p + 16) == Word(m, p + 16) && Long(m', p) == Long(m, p) && Long(m', p + 8) == Long(m, p + 8)
  {
    LittleAgrees(m, m', p, p + 8);
    LittleAgrees(m, m', p + 8, p + 16);
    LittleAgrees(m, m', p + 16, p + 20);
  }

  lemma {:induction false} EntriesAgree(m: seq<u8>, m': seq<u8>, p: nat, end: nat, step: nat)
    requires end <= |m| && step >= 24 && Whole(p, end, step) && Agree(m, m', p, end)
    ensures Entries(m', p, end, step) == Entries(m, p, end, step)
    decreases end - p
  {
    if p < end {
      EntryAgrees(m, m', p, end);
      EntriesAgree(m, m', p + step, end, step);
    }
  }

  lemma RegionsAgree(m: seq<u8>, m': seq<u8>, t: nat, end: nat)
    requires t + 8 <= end <= |m| && TagOk(m, t) && t + Word(m, t + 4) <= end && Agree(m, m', t, end)
    requires TagOk(m', t) && Word(m', t) == Word(m, t)
    ensures Word(m, t) == TAG_MMAP ==> MapRegions(m', t) == MapRegions(m, t)
    ensures Word(m, t) == TAG_BASIC_MEMINFO ==> BasicRegions(m', t) == BasicRegions(m, t)
  {
    if Word(m, t) == TAG_MMAP {
      WordAgrees(m, m', t, end, t + 4);
      WordAgrees(m, m', t, end, t + 8);
      EntriesAgree(m, m', t + 16, t + Word(m, t + 4), Word(m, t + 8));
    } else if Word(m, t) == TAG_BASIC_MEMINFO {
      WordAgrees(m, m', t, end, t + 8);
      WordAgrees(m, m', t, end, t + 12);
    }
  }

  lemma BlobRoom(m: seq<u8>, mbi: nat)
    requires BlobOk(m, mbi)
    ensures BlobSize(m, mbi) >= 16
  {
  }

  lemma FindAgrees(m: seq<u8>, m': seq<u8>, mbi: nat, kind: nat)
    requires BlobOk(m, mbi) && Agree(m, m', mbi, mbi + BlobSize(m, mbi))
    ensures BlobOk(m', mbi) && BlobSize(m', mbi) == BlobSize(m, mbi)
    ensures AllModules(m', mbi) == AllModules(m, mbi) && FindTag(m', mbi, kind) == FindTag(m, mbi, kind)
  {
    hide TagsOk, Find, Modules, Word;
    BlobRoom(m, mbi);
    WordAgrees(m, m', mbi, mbi + BlobSize(m, mbi), mbi);
    TagsAgree(m, m', mbi + 8, mbi + BlobSize(m, mbi), kind);
  }

  /** A memory that keeps the blob's bytes says the same about modules and available memory. */
  lemma BlobAgrees(m: seq<u8>, m': seq<u8>, mbi: nat)
    requires BlobOk(m, mbi) && Agree(m, m', mbi, mbi + BlobSize(m, mbi))
    ensures BlobOk(m', mbi) && BlobSize(m', mbi) == BlobSize(m, mbi)
    ensures AllModules(m', mbi) == AllModules(m, mbi) && Available(m', mbi) == Available(m, mbi)
  {
    hide TagsOk, Find, Modules;
    FindAgrees(m, m', mbi, TAG_MMAP);
    FindAgrees(m, m', mbi, TAG_BASIC_MEMINFO);
    var end, mm, info := mbi + BlobSize(m, mbi), FindTag(m, mbi, TAG_MMAP), FindTag(m, mbi, TAG_BASIC_MEMINFO);
    if mm != 0 { RegionsAgree(m, m', mm, end); }
    if info != 0 { RegionsAgree(m, m', info, end); }
  }

  // ---------------------------------------------------------------- what is in the blob, word by word

  /** Tags start at the least multiple of 8 at or past the end of the one before. */
  lemma NextTagExact(m: seq<u8>, t: nat)
    requires t + 8 <= |m| && t % 8 == 0
    ensures var next, end := NextTag(m, t), t + Word(m, t + 4);
            end <= next && next % 8 == 0 && forall a: nat :: end <= a && a % 8 == 0 ==> next <= a
  {
    RoundUp8(t, Word(m, t + 4));
  }

  lemma RoundUp8(t: nat, size: nat)
    requires t % 8 == 0
    ensures var next := t + (size + 7) / 8 * 8;
            t + size <= next && next % 8 == 0 && forall a: nat :: t + size <= a && a % 8 == 0 ==> next <= a
  {
    var n := (size + 7) / 8;
    assert t + n * 8 == 8 * (t / 8 + n);
    forall a: nat | t + size <= a && a % 8 == 0 ensures t + n * 8 <= a {
      assert a == 8 * (a / 8);
    }
  }

  /** Tag t is met on the way from tag `from` to the end tag. */
  ghost predicate Met(m: seq<u8>, from: nat, end: nat, t: nat)
    requires TagsOk(m, from, end)
    ensures Met(m, from, end, t) ==> from <= t && TagsOk(m, t, end) && Word(m, t) != 0
    decreases end - from
  {
    Word(m, from) != TAG_END && (t == from || Met(m, NextTag(m, from), end, t))
  }

  /** The first tag of a kind is met, has that kind, and no tag met before it has; without one, none has. */
  lemma {:induction false} FindExact(m: seq<u8>, from: nat, end: nat, kind: nat)
    requires TagsOk(m, from, end) && 0 < from && kind != 0
    ensures var t := Find(m, from, end, kind);
            && (t != 0 ==> Met(m, from, end, t) && Word(m, t) == kind
                           && forall b: nat :: Met(m, from, end, b) && b < t ==> Word(m, b) != kind)
            && (t == 0 ==> forall b: nat :: Met(m, from, end, b) ==> Word(m, b) != kind)
    decreases end - from
  {
    if Word(m, from) != TAG_END && Word(m, from) != kind {
      FindExact(m, NextTag(m, from), end, kind);
    }
  }

  /** Tag t is met, has type 3, and says in words 2 and 3 where region r starts and ends. */
  ghost predicate ModuleTag(m: seq<u8>, from: nat, end: nat, t: nat, r: Region)
    requires TagsOk(m, from, end)
  {
    Met(m, from, end, t) && Word(m, t) == 3 && r.base == Word(m, t + 8) && r.base + r.len == Word(m, t + 12)
  }

  /** The modules are exactly those of the tags met that have type 3. */
  lemma {:induction false} ModulesExact(m: seq<u8>, from: nat, end: nat, r: Region)
    requires TagsOk(m, from, end)
    ensures r in Modules(m, from, end) <==> exists t: nat :: ModuleTag(m, from, end, t, r)
    decreases end - from
  {
    hide Word, Find;
    if Word(m, from) != TAG_END {
      var next := NextTag(m, from);
      ModulesExact(m, next, end, r);
      forall t: nat | t != from ensures ModuleTag(m, from, end, t, r) == ModuleTag(m, next, end, t, r) {}
      assert !ModuleTag(m, next, end, from, r);
      if Word(m, from) == TAG_MODULE && r == ModuleAt(m, from) { assert ModuleTag(m, from, end, from, r); }
    }
  }

  /** The same of the whole blob. */
  ghost predicate BlobModule(m: seq<u8>, mbi: nat, t: nat, r: Region)
    requires BlobOk(m, mbi)
  {
    ModuleTag(m, mbi + 8, mbi + BlobSize(m, mbi), t, r)
  }

  lemma AllModulesExact(m: seq<u8>, mbi: nat, r: Region)
    requires BlobOk(m, mbi)
    ensures r in AllModules(m, mbi) <==> exists t: nat :: BlobModule(m, mbi, t, r)
  {
    hide TagsOk, Modules, ModuleTag;
    var first, end := mbi + 8, mbi + BlobSize(m, mbi);
    ModulesExact(m, first, end, r);
    if t: nat :| ModuleTag(m, first, end, t, r) { assert BlobModule(m, mbi, t, r); }
    if t: nat :| BlobModule(m, mbi, t, r) { assert ModuleTag(m, first, end, t, r); }
  }

  /** Entry k of the map tag at t lies inside the tag, is of type 1, and says where region r is. */
  ghost predicate MapEntry(m: seq<u8>, t: nat, k: nat, r: Region)
    requires t + 8 <= |m| && TagOk(m, t) && Word(m, t) == TAG_MMAP
  {
    var e := t + 16 + k * Word(m, t + 8);
    && e + Word(m, t + 8) <= t + Word(m, t + 4)
    && Word(m, e + 16) == 1 && r.base == Long(m, e) && r.len == Long(m, e + 8)
  }

  lemma {:induction false} EntriesExact(m: seq<u8>, p: nat, end: nat, step: nat, r: Region)
    requires end <= |m| && step >= 24 && Whole(p, end, step)
    ensures r in Entries(m, p, end, step) <==> exists k: nat :: EntryFrom(m, p, end, step, k, r)
    decreases end - p
  {
    if p < end {
      var next := p + step;
      EntriesExact(m, next, end, step, r);
      if k: nat :| EntryFrom(m, next, end, step, k, r) {
        EntryShift(m, p, end, step, k, r);
        assert EntryFrom(m, p, end, step, k + 1, r);
      }
      if k: nat :| EntryFrom(m, p, end, step, k, r) {
        if k > 0 {
          EntryShift(m, p, end, step, k - 1, r);
        } else {
          assert r == Region(Long(m, p), Long(m, p + 8));
        }
      }
      if Word(m, p + 16) == 1 && r == Region(Long(m, p), Long(m, p + 8)) { assert EntryFrom(m, p, end, step, 0, r); }
    }
  }

  lemma EntryShift(m: seq<u8>, p: nat, end: nat, step: nat, k: nat, r: Region)
    requires end <= |m| && step >= 24
    ensures EntryFrom(m, p, end, step, k + 1, r) == EntryFrom(m, p + step, end, step, k, r)
  {
    assert (k + 1) * step == k * step + step;
  }

  ghost predicate EntryFrom(m: seq<u8>, p: nat, end: nat, step: nat, k: nat, r: Region)
    requires end <= |m| && step >= 24
  {
    var e := p + k * step;
    e + step <= end && Word(m, e + 16) == 1 && r.base == Long(m, e) && r.len == Long(m, e + 8)
  }

  /** The available regions of a map are exactly those of its entries of type 1, whole tag and nothing past it. */
  lemma MapRegionsExact(m: seq<u8>, t: nat, r: Region)
    requires t + 8 <= |m| && TagOk(m, t) && Word(m, t) == TAG_MMAP
    ensures r in MapRegions(m, t) <==> exists k: nat :: MapEntry(m, t, k, r)
  {
    var p, end, step := t + 16, t + Word(m, t + 4), Word(m, t + 8);
    EntriesExact(m, p, end, step, r);
    forall k: nat ensures MapEntry(m, t, k, r) == EntryFrom(m, p, end, step, k, r) {}
  }
}
