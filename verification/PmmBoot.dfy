/**
 Boot: two passes over the memory map turn it into the allocator's bitmap, which lives
 in the same RAM as the map being read.
 */
module PmmBoot {
  import opened Words
  import opened Ram
  import opened PmmModule
  import opened Multiboot

  const ONE_MIB: nat := 0x10_0000
  const FOUR_GIB: nat := 0x1_0000_0000

  function Max(a: nat, b: nat): nat { if a < b then b else a }

  /** Page p touches one of the regions. */
  predicate TouchesAny(p: nat, rs: seq<Region>) {
    rs != [] && (Touches(p, rs[0].base, rs[0].len) || TouchesAny(p, rs[1..]))
  }

  /** Page p lies wholly inside one of the regions. */
  predicate InsideAny(p: nat, rs: seq<Region>) {
    rs != [] && (Inside(p, rs[0].base, rs[0].len) || InsideAny(p, rs[1..]))
  }

  lemma {:induction false} InsideAnyIsExists(p: nat, rs: seq<Region>)
    ensures InsideAny(p, rs) <==> exists r :: r in rs && Inside(p, r.base, r.len)
  {
    if rs != [] {
      InsideAnyIsExists(p, rs[1..]);
      assert rs == [rs[0]] + rs[1..];
    }
  }

  lemma {:induction false} TouchesAnyIsExists(p: nat, rs: seq<Region>)
    ensures TouchesAny(p, rs) <==> exists r :: r in rs && Touches(p, r.base, r.len)
  {
    if rs != [] {
      TouchesAnyIsExists(p, rs[1..]);
      assert rs == [rs[0]] + rs[1..];
    }
  }

  /** Page numbers of the regions fit what pmm_reserve and pmm_free_region truncate to. */
  predicate Fits(r: Region) { r.base + r.len + PAGE_SIZE < ADDR_LIMIT }

  ghost predicate AllFit(rs: seq<Region>) { forall r :: r in rs ==> Fits(r) }

  /** Highest end among the regions, each capped at 4 GiB, and start. */
  function CappedEnd(start: nat, rs: seq<Region>): nat
    decreases |rs|
  {
    if rs == [] then start else CappedEnd(Max(start, Min(rs[0].base + rs[0].len, FOUR_GIB)), rs[1..])
  }

  /** Highest end among the regions, and start. */
  function HighestEnd(start: nat, rs: seq<Region>): nat
    decreases |rs|
  {
    if rs == [] then start else HighestEnd(Max(start, rs[0].base + rs[0].len), rs[1..])
  }

  lemma {:induction false} HighestEndBounds(start: nat, rs: seq<Region>)
    ensures start <= HighestEnd(start, rs)
    ensures forall r :: r in rs ==> r.base + r.len <= HighestEnd(start, rs)
    ensures HighestEnd(start, rs) == start || exists r :: r in rs && HighestEnd(start, rs) == r.base + r.len
    decreases |rs|
  {
    if rs != [] {
      HighestEndBounds(Max(start, rs[0].base + rs[0].len), rs[1..]);
      assert rs == [rs[0]] + rs[1..];
    }
  }

  /** mmap_max_available */
  ghost function MaxAvailable(m: seq<u8>, mbi: nat): nat
    requires BlobOk(m, mbi)
  {
    var info := FindTag(m, mbi, TAG_BASIC_MEMINFO);
    if FindTag(m, mbi, TAG_MMAP) != 0 then CappedEnd(0, MapRegions(m, FindTag(m, mbi, TAG_MMAP)))
    else if info == 0 then 0
    else ONE_MIB + 1024 * Word(m, info + 12) as int
  }

  /** mb2_find_tag, in RAM that still holds the blob as memory m does. */
  method FindTagIn(ram: array<u8>, mbi: nat, kind: nat, ghost m: seq<u8>) returns (t: nat)
    requires BlobOk(m, mbi) && Agree(m, ram[..], mbi, mbi + BlobSize(m, mbi))
    ensures t == FindTag(m, mbi, kind)
  {
    ghost var end := mbi + BlobSize(m, mbi);
    t := mbi + 8;
    TagReadAgain(m, ram[..], t, end);
    while Word(ram[..], t) != TAG_END
      invariant mbi < t && TagsOk(m, t, end) && Word(ram[..], t) == Word(m, t)
      invariant Find(m, t, end, kind) == FindTag(m, mbi, kind)
      decreases end - t
    {
      if Word(ram[..], t) == kind {
        return;
      }
      TagReadAgain(m, ram[..], t, end);
      t := NextTag(ram[..], t);
      TagReadAgain(m, ram[..], t, end);
    }
    t := 0;
  }

  method MmapMaxAvailable(ram: array<u8>, mbi: nat) returns (maxAddr: nat)
    requires BlobOk(ram[..], mbi)
    ensures maxAddr == MaxAvailable(ram[..], mbi)
  {
    var mm := FindTagIn(ram, mbi, TAG_MMAP, ram[..]);
    if mm == 0 {
      var mi := FindTagIn(ram, mbi, TAG_BASIC_MEMINFO, ram[..]);
      return if mi == 0 then 0 else ONE_MIB + 1024 * Word(ram[..], mi + 12) as int;
    }
    maxAddr := MapMax(ram, mm);
  }

  /** The loop of mmap_max_available, over the map tag at mm. */
  method MapMax(ram: array<u8>, mm: nat) returns (maxAddr: nat)
    requires mm + 8 <= ram.Length && TagOk(ram[..], mm) && Word(ram[..], mm) == TAG_MMAP
    ensures maxAddr == CappedEnd(0, MapRegions(ram[..], mm))
  {
    maxAddr := 0;
    ghost var m := ram[..];
    var end, step := mm + Word(ram[..], mm + 4), Word(ram[..], mm + 8);
    var p := mm + 16;
    while p < end
      invariant p <= end && Whole(p, end, step)
      invariant CappedEnd(maxAddr, Entries(m, p, end, step)) == CappedEnd(0, MapRegions(m, mm))
      decreases end - p
    {
      if Word(ram[..], p + 16) == MEMORY_AVAILABLE {
        var e := Long(ram[..], p) as int + Long(ram[..], p + 8) as int;
        if e > FOUR_GIB {
          e := FOUR_GIB;
        }
        if e > maxAddr {
          maxAddr := e;
        }
      }
      p := p + step;
    }
  }

  method BootDataEnd(ram: array<u8>, mbi: nat, kernelEnd: nat) returns (end: nat)
    requires BlobOk(ram[..], mbi)
    ensures end == HighestEnd(Max(kernelEnd, mbi + BlobSize(ram[..], mbi)), AllModules(ram[..], mbi))
  {
    ghost var m, stop := ram[..], mbi + BlobSize(ram[..], mbi);
    end := kernelEnd;
    var v := mbi + BlobSize(ram[..], mbi);
    if v > end {
      end := v;
    }
    var tag := mbi + 8;
    while Word(ram[..], tag) != TAG_END
      invariant TagsOk(m, tag, stop)
      invariant HighestEnd(end, Modules(m, tag, stop)) == HighestEnd(Max(kernelEnd, stop), AllModules(m, mbi))
      decreases stop - tag
    {
      if Word(ram[..], tag) == TAG_MODULE {
        var modEnd := Word(ram[..], tag + 12);
        if modEnd > end {
          end := modEnd;
        }
      }
      tag := NextTag(ram[..], tag);
    }
  }

  /** Pages of the allocator inside one of the regions. */
  ghost function Covered(npages: nat, rs: seq<Region>): set<nat> {
    set p: nat | p < npages && InsideAny(p, rs)
  }

  /** Pages of a set that touch none of the regions. */
  ghost function Uncovered(s: set<nat>, rs: seq<Region>): set<nat> {
    set p | p in s && !TouchesAny(p, rs)
  }

  lemma CoveredStep(npages: nat, rs: seq<Region>)
    requires rs != []
    ensures Covered(npages, rs) == Within(npages, rs[0].base, rs[0].len) + Covered(npages, rs[1..])
  {
  }

  lemma UncoveredStep(s: set<nat>, rs: seq<Region>)
    requires rs != []
    ensures Uncovered(s, rs) == Uncovered(Untouched(s, rs[0].base, rs[0].len), rs[1..])
  {
  }

  /** Releases the AVAILABLE entries while reading them from the RAM the bitmap is in; m is RAM before that. */
  method FreeMap(pmm: Pmm, mm: nat, ghost m: seq<u8>, ghost stop: nat)
    requires pmm.Valid() && pmm.OnlyBitmap(m) && stop <= pmm.bitmap && mm + 8 <= stop <= |m|
    requires TagOk(m, mm) && Word(m, mm) == TAG_MMAP && mm + Word(m, mm + 4) <= stop && AllFit(MapRegions(m, mm))
    modifies pmm.ram, pmm`npagesFree, pmm`free
    ensures pmm.Valid() && pmm.OnlyBitmap(m)
    ensures pmm.free == old(pmm.free) + Covered(pmm.npagesTotal, MapRegions(m, mm))
  {
    hide Entries, Covered, AllFit, Pmm.Valid;
    WordAgrees(m, pmm.ram[..], mm, stop, mm + 4);
    WordAgrees(m, pmm.ram[..], mm, stop, mm + 8);
    var end, step := mm + Word(pmm.ram[..], mm + 4), Word(pmm.ram[..], mm + 8);
    NoEntries(m, end, step, pmm.npagesTotal);
    var p := mm + 16;
    ghost var goal := pmm.free + Covered(pmm.npagesTotal, MapRegions(m, mm));
    while p < end
      invariant mm < p <= end && Whole(p, end, step)
      invariant pmm.Valid() && pmm.OnlyBitmap(m)
      invariant AllFit(Entries(m, p, end, step))
      invariant pmm.free + Covered(pmm.npagesTotal, Entries(m, p, end, step)) == goal
      decreases end - p
    {
      FreeEntry(pmm, p, m, end, step);
      p := p + step;
    }
  }

  lemma NoEntries(m: seq<u8>, end: nat, step: nat, npages: nat)
    requires end <= |m| && step >= 24
    ensures Covered(npages, Entries(m, end, end, step)) == {}
  {
  }

  /** One map entry, read from RAM as it is now, which at this entry is RAM as it was at first. */
  method FreeEntry(pmm: Pmm, p: nat, ghost m: seq<u8>, ghost end: nat, ghost step: nat)
    requires pmm.Valid() && step >= 24 && p < end <= |m| && Whole(p, end, step)
    requires Agree(m, pmm.ram[..], p, end) && AllFit(Entries(m, p, end, step))
    modifies pmm.ram, pmm`npagesFree, pmm`free
    ensures pmm.Valid() && pmm.OnlyBitmap(old(pmm.ram[..]))
    ensures AllFit(Entries(m, p + step, end, step))
    ensures pmm.free + Covered(pmm.npagesTotal, Entries(m, p + step, end, step))
         == old(pmm.free) + Covered(pmm.npagesTotal, Entries(m, p, end, step))
  {
    ghost var now := Entries(m, p, end, step);
    EntryAgrees(m, pmm.ram[..], p, end);
    if Word(pmm.ram[..], p + 16) == MEMORY_AVAILABLE {
      CoveredStep(pmm.npagesTotal, now);
      assert now[0] in now && now[1..] == Entries(m, p + step, end, step);
      pmm.FreeRegion(Long(pmm.ram[..], p), Long(pmm.ram[..], p + 8));
    }
  }

  method MmapFreeAvailable(pmm: Pmm, mbi: nat, ghost m: seq<u8>)
    requires pmm.Valid() && pmm.OnlyBitmap(m) && BlobOk(m, mbi) && mbi + BlobSize(m, mbi) <= pmm.bitmap
    requires AllFit(Available(m, mbi))
    modifies pmm.ram, pmm`npagesFree, pmm`free
    ensures pmm.Valid() && pmm.OnlyBitmap(m)
    ensures pmm.free == old(pmm.free) + Covered(pmm.npagesTotal, Available(m, mbi))
  {
    WhereAvailable(m, mbi);
    ghost var stop := mbi + BlobSize(m, mbi);
    var mm := FindTagIn(pmm.ram, mbi, TAG_MMAP, m);
    if mm == 0 {
      var mi := FindTagIn(pmm.ram, mbi, TAG_BASIC_MEMINFO, m);
      if mi != 0 {
        FreeBasic(pmm, mi, m, stop);
      } else {
        assert Covered(pmm.npagesTotal, []) == {};
      }
      return;
    }
    FreeMap(pmm, mm, m, stop);
  }

  lemma WhereAvailable(m: seq<u8>, mbi: nat)
    requires BlobOk(m, mbi)
    ensures var mm, mi, stop := FindTag(m, mbi, TAG_MMAP), FindTag(m, mbi, TAG_BASIC_MEMINFO), mbi + BlobSize(m, mbi);
            && (mm != 0 ==> mm + 8 <= |m| && TagOk(m, mm) && Word(m, mm) == TAG_MMAP && mm + Word(m, mm + 4) <= stop
                            && Available(m, mbi) == MapRegions(m, mm))
            && (mi != 0 ==>
                  && mi + 8 <= |m| && TagOk(m, mi) && Word(m, mi) == TAG_BASIC_MEMINFO
                  && mi + Word(m, mi + 4) <= stop)
            && (mm == 0 && mi != 0 ==> Available(m, mbi) == BasicRegions(m, mi))
            && (mm == 0 && mi == 0 ==> Available(m, mbi) == [])
  {
  }

  /** Without a memory map: lower memory from 0, upper memory from 1 MiB. */
  method FreeBasic(pmm: Pmm, mi: nat, ghost m: seq<u8>, ghost stop: nat)
    requires pmm.Valid() && pmm.OnlyBitmap(m) && stop <= pmm.bitmap && mi + 8 <= stop <= |m|
    requires TagOk(m, mi) && Word(m, mi) == TAG_BASIC_MEMINFO && mi + Word(m, mi + 4) <= stop
             && AllFit(BasicRegions(m, mi))
    modifies pmm.ram, pmm`npagesFree, pmm`free
    ensures pmm.Valid() && pmm.OnlyBitmap(m)
    ensures pmm.free == old(pmm.free) + Covered(pmm.npagesTotal, BasicRegions(m, mi))
  {
    ghost var rs := BasicRegions(m, mi);
    assert rs[0] in rs && rs[1] in rs;
    CoveredStep(pmm.npagesTotal, rs);
    CoveredStep(pmm.npagesTotal, rs[1..]);
    WordAgrees(m, pmm.ram[..], mi, stop, mi + 8);
    pmm.FreeRegion(0, Word(pmm.ram[..], mi + 8) as int * 1024);
    WordAgrees(m, pmm.ram[..], mi, stop, mi + 12);
    pmm.FreeRegion(ONE_MIB, Word(pmm.ram[..], mi + 12) as int * 1024);
  }

  /** Reserves the blob and then every module listed in it. */
  method ReserveBootData(pmm: Pmm, mbi: nat, ghost m: seq<u8>)
    requires pmm.Valid() && pmm.OnlyBitmap(m) && BlobOk(m, mbi) && mbi + BlobSize(m, mbi) <= pmm.bitmap
    modifies pmm.ram, pmm`npagesFree, pmm`free
    ensures pmm.Valid() && pmm.OnlyBitmap(m)
    ensures pmm.free == Uncovered(Untouched(old(pmm.free), mbi, BlobSize(m, mbi)), AllModules(m, mbi))
  {
    hide Untouched, Uncovered, PagesIn, Pmm.Valid;
    ghost var stop := mbi + BlobSize(m, mbi);
    WordAgrees(m, pmm.ram[..], mbi, stop, mbi);
    pmm.Reserve(mbi, BlobSize(pmm.ram[..], mbi));
    ReserveModules(pmm, mbi + 8, m, stop);
  }

  /** The walk of reserve_boot_data. */
  method ReserveModules(pmm: Pmm, first: nat, ghost m: seq<u8>, ghost stop: nat)
    requires pmm.Valid() && TagsOk(m, first, stop) && pmm.OnlyBitmap(m) && stop <= pmm.bitmap
    modifies pmm.ram, pmm`npagesFree, pmm`free
    ensures pmm.Valid() && pmm.OnlyBitmap(m)
    ensures pmm.free == Uncovered(old(pmm.free), Modules(m, first, stop))
  {
    hide PagesIn, Untouched;
    var tag := first;
    TagReadAgain(m, pmm.ram[..], tag, stop);
    while Word(pmm.ram[..], tag) != TAG_END
      invariant first <= tag && pmm.Valid() && pmm.OnlyBitmap(m)
      invariant TagsOk(m, tag, stop) && tag + 4 <= pmm.ram.Length && Word(pmm.ram[..], tag) == Word(m, tag)
      invariant Uncovered(pmm.free, Modules(m, tag, stop)) == Uncovered(old(pmm.free), Modules(m, first, stop))
      decreases stop - tag
    {
      TagReadAgain(m, pmm.ram[..], tag, stop);
      var next := NextTag(pmm.ram[..], tag);
      if Word(pmm.ram[..], tag) == TAG_MODULE {
        ReserveModule(pmm, tag, m, stop);
      }
      tag := next;
      TagReadAgain(m, pmm.ram[..], tag, stop);
    }
  }

  method ReserveModule(pmm: Pmm, tag: nat, ghost m: seq<u8>, ghost stop: nat)
    requires pmm.Valid() && TagsOk(m, tag, stop) && Word(m, tag) == TAG_MODULE
    requires tag + 16 <= pmm.ram.Length && Word(pmm.ram[..], tag + 8) <= Word(pmm.ram[..], tag + 12)
    requires ModuleAt(pmm.ram[..], tag) == ModuleAt(m, tag)
    modifies pmm.ram, pmm`npagesFree, pmm`free
    ensures pmm.Valid() && pmm.OnlyBitmap(old(pmm.ram[..]))
    ensures Uncovered(pmm.free, Modules(m, NextTag(m, tag), stop)) == Uncovered(old(pmm.free), Modules(m, tag, stop))
  {
    UncoveredStep(pmm.free, Modules(m, tag, stop));
    pmm.Reserve(Word(pmm.ram[..], tag + 8), Word(pmm.ram[..], tag + 12) as int - Word(pmm.ram[..], tag + 8) as int);
  }

  // ---------------------------------------------------------------- where the bitmap goes

  function AlignUp(a: nat): nat { (a + PAGE_SIZE - 1) / PAGE_SIZE * PAGE_SIZE }

  function PagesFor(bytes: nat): nat { (bytes + PAGE_SIZE - 1) / PAGE_SIZE }

  lemma RoundUp(a: nat)
    ensures a <= AlignUp(a) < a + PAGE_SIZE && AlignUp(a) % PAGE_SIZE == 0 && AlignUp(a) == PagesFor(a) * PAGE_SIZE
  {
    var q := (a + PAGE_SIZE - 1) / PAGE_SIZE;
    assert AlignUp(a) == PAGE_SIZE * q;
  }

  /** End of everything the boot loader left near the kernel. */
  ghost function BootEnd(m: seq<u8>, mbi: nat, kernelEnd: nat): nat
    requires BlobOk(m, mbi)
  {
    HighestEnd(Max(kernelEnd, mbi + BlobSize(m, mbi)), AllModules(m, mbi))
  }

  ghost function BitmapAddr(m: seq<u8>, mbi: nat, kernelEnd: nat): nat
    requires BlobOk(m, mbi)
  {
    AlignUp(BootEnd(m, mbi, kernelEnd))
  }

  ghost function TotalPages(m: seq<u8>, mbi: nat): nat
    requires BlobOk(m, mbi)
  {
    PagesFor(MaxAvailable(m, mbi))
  }

  /** Bytes of RAM set aside for the bitmap, whole pages. */
  function BitmapRoom(npages: nat): nat { PagesFor(BitmapBytes(npages)) * PAGE_SIZE }

  /** What the code relies on the boot loader for. */
  ghost predicate BootOk(m: seq<u8>, mbi: nat, kernelStart: nat, kernelEnd: nat) {
    && |m| == PHYS_SIZE
    && BlobOk(m, mbi)
    && kernelStart <= kernelEnd
    && AllFit(Available(m, mbi))
    && MaxAvailable(m, mbi) <= FOUR_GIB
    && BootEnd(m, mbi, kernelEnd) + PAGE_SIZE <= U32
    && mbi + BlobSize(m, mbi) <= BOOT_REACH
  }

  /** The bitmap fits below the top of available memory. */
  ghost predicate BitmapFits(m: seq<u8>, mbi: nat, kernelEnd: nat)
    requires BlobOk(m, mbi)
  {
    BitmapAddr(m, mbi, kernelEnd) + BitmapRoom(TotalPages(m, mbi)) <= MaxAvailable(m, mbi)
  }

  /** It ends inside the memory that is mapped at its own address this early. */
  ghost predicate BitmapReached(m: seq<u8>, mbi: nat, kernelEnd: nat)
    requires BlobOk(m, mbi)
  {
    BitmapAddr(m, mbi, kernelEnd) + BitmapBytes(TotalPages(m, mbi)) <= BOOT_REACH
  }

  /** A running allocator, the panic for want of RAM, or a fault on the bitmap, which is filled at its physical
      address. */
  datatype BootResult = Ready(pmm: Pmm) | TooSmall | Unreachable

  lemma {:induction false} CappedAt4G(start: nat, rs: seq<Region>)
    requires start <= FOUR_GIB
    ensures CappedEnd(start, rs) <= FOUR_GIB
    decreases |rs|
  {
    if rs != [] {
      CappedAt4G(Max(start, Min(rs[0].base + rs[0].len, FOUR_GIB)), rs[1..]);
    }
  }

  /** It is no lower than any capped end, and is one of them unless it is the start. */
  lemma {:induction false} CappedEndExact(start: nat, rs: seq<Region>)
    ensures start <= CappedEnd(start, rs)
    ensures forall r :: r in rs ==> Min(r.base + r.len, FOUR_GIB) <= CappedEnd(start, rs)
    ensures CappedEnd(start, rs) == start
            || exists r :: r in rs && CappedEnd(start, rs) == Min(r.base + r.len, FOUR_GIB)
    decreases |rs|
  {
    if rs != [] {
      CappedEndExact(Max(start, Min(rs[0].base + rs[0].len, FOUR_GIB)), rs[1..]);
      assert rs == [rs[0]] + rs[1..];
    }
  }

  /** What mmap_max_available finds, in the words of the blob: the highest end of a map entry of type 1, none counted
      past 4 GiB, or, without a map, the end of upper memory. */
  lemma MaxAvailableExact(m: seq<u8>, mbi: nat)
    requires BlobOk(m, mbi)
    ensures var map_, info, max := FindTag(m, mbi, 6), FindTag(m, mbi, 4), MaxAvailable(m, mbi);
            if map_ != 0 then
              && (forall k: nat, r :: MapEntry(m, map_, k, r) ==> Min(r.base + r.len, 0x1_0000_0000) <= max)
              && (max == 0 || exists k: nat, r :: MapEntry(m, map_, k, r) && max == Min(r.base + r.len, 0x1_0000_0000))
            else max == if info != 0 then 0x10_0000 + 1024 * Word(m, info + 12) as int else 0
  {
    hide TagsOk, Entries, CappedEnd, Find, MapEntry;
    var map_, max := FindTag(m, mbi, 6), MaxAvailable(m, mbi);
    if map_ != 0 {
      var rs := MapRegions(m, map_);
      CappedEndExact(0, rs);
      forall k: nat, r | MapEntry(m, map_, k, r) ensures Min(r.base + r.len, 0x1_0000_0000) <= max {
        MapRegionsExact(m, map_, r);
      }
      if r :| r in rs && max == Min(r.base + r.len, FOUR_GIB) { MapRegionsExact(m, map_, r); }
    }
  }

  /** The 4 GiB bound holds of every memory map; without one it is the boot loader's mem_upper that decides. */
  lemma MaxAvailableBounded(m: seq<u8>, mbi: nat)
    requires BlobOk(m, mbi)
    ensures var info := FindTag(m, mbi, TAG_BASIC_MEMINFO);
            MaxAvailable(m, mbi) <= FOUR_GIB <==>
              FindTag(m, mbi, TAG_MMAP) != 0 || info == 0 || Word(m, info + 12) <= 0x3f_fc00
  {
    if FindTag(m, mbi, TAG_MMAP) != 0 {
      CappedAt4G(0, MapRegions(m, FindTag(m, mbi, TAG_MMAP)));
    }
  }

  /** A blob without a memory map whose mem_upper says one KiB too much. */
  function BigBlob(): (m: seq<u8>)
    ensures |m| == 32
  {
    [32, 0, 0, 0, 0, 0, 0, 0] + [4, 0, 0, 0, 16, 0, 0, 0, 0x80, 2, 0, 0, 0x01, 0xfc, 0x3f, 0] + [0, 0, 0, 0, 8, 0, 0, 0]
  }

  /** On it the bound fails. */
  lemma BeyondFourGib()
    ensures BlobOk(BigBlob(), 0) && MaxAvailable(BigBlob(), 0) == FOUR_GIB + 1024
  {
    var m := BigBlob();
    WordOfBytes(m, 0, 32);
    WordOfBytes(m, 8, 4);
    WordOfBytes(m, 12, 16);
    WordOfBytes(m, 20, 0x3f_fc01);
    WordOfBytes(m, 24, 0);
    assert NextTag(m, 8) == 24;
    assert TagsOk(m, 24, 32);
    assert TagsOk(m, 8, 32);
    assert Find(m, 24, 32, TAG_MMAP) == 0;
    assert FindTag(m, 0, TAG_MMAP) == 0 && FindTag(m, 0, TAG_BASIC_MEMINFO) == 8;
  }

  /** The bitmap starts after the kernel, the blob and every module, and holds its bits. */
  lemma BitmapClear(m: seq<u8>, mbi: nat, kernelEnd: nat)
    requires BlobOk(m, mbi)
    ensures var b := BitmapAddr(m, mbi, kernelEnd);
            && kernelEnd <= b && mbi + BlobSize(m, mbi) <= b
            && (forall r :: r in AllModules(m, mbi) ==> r.base + r.len <= b)
            && b % PAGE_SIZE == 0 && b < BootEnd(m, mbi, kernelEnd) + PAGE_SIZE
    ensures BitmapBytes(TotalPages(m, mbi)) <= BitmapRoom(TotalPages(m, mbi))
  {
    HighestEndBounds(Max(kernelEnd, mbi + BlobSize(m, mbi)), AllModules(m, mbi));
    RoundUp(BootEnd(m, mbi, kernelEnd));
    RoundUp(BitmapBytes(TotalPages(m, mbi)));
  }

  /** In figures: as many pages as cover the highest address, one bit for each, in as many pages as hold these; and what
      it means that they fit below the highest address, or below 4 MiB. */
  lemma PlacementExact(m: seq<u8>, mbi: nat, kernelEnd: nat)
    requires BlobOk(m, mbi)
    ensures var max, total, b := MaxAvailable(m, mbi), TotalPages(m, mbi), BitmapAddr(m, mbi, kernelEnd);
            var room := BitmapRoom(total);
            && 4096 * total >= max && (total > 0 ==> 4096 * (total - 1) < max)
            && room % 4096 == 0 && 8 * room >= total && (room > 0 ==> 8 * (room - 4096) < total)
            && (BitmapFits(m, mbi, kernelEnd) <==> b + room <= max)
            && (BitmapReached(m, mbi, kernelEnd) <==> total <= 8 * (0x40_0000 - b))
  {
    hide BlobOk, MaxAvailable, BootEnd;
    RoundUp(MaxAvailable(m, mbi));
    RoundUp(BitmapBytes(TotalPages(m, mbi)));
  }

  /** When the bitmap fits below the top of available memory, it fits what pmm_init is given. */
  lemma TotalFits(m: seq<u8>, mbi: nat, kernelEnd: nat)
    requires BlobOk(m, mbi) && MaxAvailable(m, mbi) <= FOUR_GIB
    requires BitmapFits(m, mbi, kernelEnd)
    ensures TotalPages(m, mbi) <= PHYS_PAGES
    ensures BitmapAddr(m, mbi, kernelEnd) + BitmapBytes(TotalPages(m, mbi)) <= PHYS_SIZE
  {
    RoundUp(BitmapBytes(TotalPages(m, mbi)));
  }

  /** Whatever the allocator writes into its bitmap, kernel, blob and modules keep their bytes, and reading
      the map again gives what the first pass read. */
  lemma SecondPassReadsTheSame(m: seq<u8>, m': seq<u8>, mbi: nat, kernelEnd: nat)
    requires BlobOk(m, mbi)
    requires var b := BitmapAddr(m, mbi, kernelEnd); SameOutside(m, m', b, b + BitmapRoom(TotalPages(m, mbi)))
    ensures BlobOk(m', mbi) && Available(m', mbi) == Available(m, mbi) && AllModules(m', mbi) == AllModules(m, mbi)
    ensures forall a: nat :: a < kernelEnd && a < |m| ==> m'[a] == m[a]
    ensures forall r, a: nat :: r in AllModules(m, mbi) && a < r.base + r.len && a < |m| ==> m'[a] == m[a]
  {
    BitmapClear(m, mbi, kernelEnd);
    BlobAgrees(m, m', mbi);
  }

  /** The pages the allocator is left with. */
  ghost function BootFree(m: seq<u8>, mbi: nat, kernelStart: nat, kernelEnd: nat): set<nat>
    requires BlobOk(m, mbi) && kernelStart <= kernelEnd
  {
    var b := BitmapAddr(m, mbi, kernelEnd);
    var afterMap := Covered(TotalPages(m, mbi), Available(m, mbi));
    var low := Untouched(afterMap, 0, ONE_MIB);
    var kernel := Untouched(low, kernelStart, kernelEnd - kernelStart);
    var bitmap := Untouched(kernel, b, BitmapRoom(TotalPages(m, mbi)));
    Uncovered(Untouched(bitmap, mbi, BlobSize(m, mbi)), AllModules(m, mbi))
  }

  /** Page p lies wholly in the memory that the blob says the machine has: in one entry of type 1 of the first map or,
      without a map, in lower or upper memory, in KiB in words 2 and 3 of the first tag of type 4. */
  ghost predicate HasPage(m: seq<u8>, mbi: nat, p: nat)
    requires BlobOk(m, mbi)
  {
    var map_, info := FindTag(m, mbi, 6), FindTag(m, mbi, 4);
    if map_ != 0 then exists k: nat, r :: MapEntry(m, map_, k, r) && Inside(p, r.base, r.len)
    else info != 0 && (Inside(p, 0, 1024 * Word(m, info + 8)) || Inside(p, 0x10_0000, 1024 * Word(m, info + 12)))
  }

  /** A byte of page p belongs to a module: the blob has a tag of type 3 for it. */
  ghost predicate ModulePage(m: seq<u8>, mbi: nat, p: nat)
    requires BlobOk(m, mbi)
  {
    exists t: nat, r :: BlobModule(m, mbi, t, r) && Touches(p, r.base, r.len)
  }

  lemma HasPageExact(m: seq<u8>, mbi: nat, p: nat)
    requires BlobOk(m, mbi)
    ensures HasPage(m, mbi, p) <==> exists r :: r in Available(m, mbi) && Inside(p, r.base, r.len)
  {
    hide TagsOk, Entries, Find, MapEntry, Inside;
    var map_, info := FindTag(m, mbi, 6), FindTag(m, mbi, 4);
    if map_ != 0 {
      var rs := MapRegions(m, map_);
      forall r ensures r in rs <==> exists k: nat :: MapEntry(m, map_, k, r) { MapRegionsExact(m, map_, r); }
    } else if info != 0 {
      var rs := BasicRegions(m, info);
      assert rs[0] in rs && rs[1] in rs;
    }
  }

  lemma ModulePageExact(m: seq<u8>, mbi: nat, p: nat)
    requires BlobOk(m, mbi)
    ensures ModulePage(m, mbi, p) <==> exists r :: r in AllModules(m, mbi) && Touches(p, r.base, r.len)
  {
    hide TagsOk, Modules, BlobModule, Touches;
    var rs := AllModules(m, mbi);
    forall r ensures r in rs <==> exists t: nat :: BlobModule(m, mbi, t, r) { AllModulesExact(m, mbi, r); }
  }

  /** A page is free after boot exactly when one AVAILABLE region holds it whole and nothing in use touches it. */
  lemma FreeAfterBoot(m: seq<u8>, mbi: nat, kernelStart: nat, kernelEnd: nat, p: nat)
    requires BlobOk(m, mbi) && kernelStart <= kernelEnd
    ensures var b := BitmapAddr(m, mbi, kernelEnd);
            p in BootFree(m, mbi, kernelStart, kernelEnd) <==>
              && p < TotalPages(m, mbi)
              && HasPage(m, mbi, p)
              && !Touches(p, 0, 0x10_0000)
              && !Touches(p, kernelStart, kernelEnd - kernelStart)
              && !Touches(p, b, BitmapRoom(TotalPages(m, mbi)))
              && !Touches(p, mbi, BlobSize(m, mbi))
              && !ModulePage(m, mbi, p)
  {
    hide HasPage, ModulePage, TagsOk, TagOk, Touches, Inside;
    InsideAnyIsExists(p, Available(m, mbi));
    TouchesAnyIsExists(p, AllModules(m, mbi));
    HasPageExact(m, mbi, p);
    ModulePageExact(m, mbi, p);
  }

  /** Every available page below 4 GiB is counted: with a memory map always, and without one as long as mem_lower
      does not reach past the end of mem_upper. */
  lemma AvailableCounted(m: seq<u8>, mbi: nat, r: Region, p: nat)
    requires BlobOk(m, mbi) && r in Available(m, mbi) && Inside(p, r.base, r.len) && p < PHYS_PAGES
    requires var info := FindTag(m, mbi, TAG_BASIC_MEMINFO);
             FindTag(m, mbi, TAG_MMAP) == 0 && info != 0 ==> Word(m, info + 8) <= 1024 + Word(m, info + 12)
    ensures p < TotalPages(m, mbi)
  {
    if FindTag(m, mbi, TAG_MMAP) != 0 { CappedEndExact(0, MapRegions(m, FindTag(m, mbi, TAG_MMAP))); }
    assert (p + 1) * PAGE_SIZE <= MaxAvailable(m, mbi);
    RoundUp(MaxAvailable(m, mbi));
  }

  /** So there membership needs no bound on the page number. */
  lemma FreeBelow4G(m: seq<u8>, mbi: nat, kernelStart: nat, kernelEnd: nat, p: nat)
    requires BlobOk(m, mbi) && kernelStart <= kernelEnd && p < PHYS_PAGES
    requires var info := FindTag(m, mbi, TAG_BASIC_MEMINFO);
             FindTag(m, mbi, TAG_MMAP) == 0 && info != 0 ==> Word(m, info + 8) <= 1024 + Word(m, info + 12)
    ensures var b := BitmapAddr(m, mbi, kernelEnd);
            p in BootFree(m, mbi, kernelStart, kernelEnd) <==>
              && HasPage(m, mbi, p)
              && !Touches(p, 0, 0x10_0000)
              && !Touches(p, kernelStart, kernelEnd - kernelStart)
              && !Touches(p, b, BitmapRoom(TotalPages(m, mbi)))
              && !Touches(p, mbi, BlobSize(m, mbi))
              && !ModulePage(m, mbi, p)
  {
    hide HasPage, ModulePage, TagsOk, TagOk, BootFree;
    FreeAfterBoot(m, mbi, kernelStart, kernelEnd, p);
    HasPageExact(m, mbi, p);
    if r :| r in Available(m, mbi) && Inside(p, r.base, r.len) { AvailableCounted(m, mbi, r, p); }
  }

  /** The address that pmm_alloc forms for page p, cut to 32 bits. */
  function CutAddress(p: nat): nat { p * PAGE_SIZE % U32 }

  /** A page beyond 4 GiB shares its cut address with a page below. */
  lemma CutAddressBelow(p: nat)
    ensures CutAddress(p) == p % PHYS_PAGES * PAGE_SIZE
  {
    var q, r := p / PHYS_PAGES, p % PHYS_PAGES;
    assert p * PAGE_SIZE == q * U32 + r * PAGE_SIZE by { assert p == q * PHYS_PAGES + r; }
  }

  /** Without a memory map, and with this much memory, pages are free that 32 bits do not address. */
  ghost predicate TooMuch(m: seq<u8>, mbi: nat)
    requires BlobOk(m, mbi)
  {
    var info := FindTag(m, mbi, TAG_BASIC_MEMINFO);
    && FindTag(m, mbi, TAG_MMAP) == 0 && info != 0
    && Word(m, info + 12) > 0x3f_fc00 && (Word(m, info + 12) >= 0x3f_fc04 || Word(m, info + 8) >= 0x40_0004)
  }

  /** On exactly these machines a free page lies beyond 4 GiB; the first such has the address of page 0, which is
      reserved. */
  lemma FreeBeyond(m: seq<u8>, mbi: nat, kernelStart: nat, kernelEnd: nat)
    requires BlobOk(m, mbi) && kernelStart <= kernelEnd && BootEnd(m, mbi, kernelEnd) + PAGE_SIZE <= U32
    requires BitmapReached(m, mbi, kernelEnd)
    ensures var s := BootFree(m, mbi, kernelStart, kernelEnd);
            && (TooMuch(m, mbi) <==> exists p :: p in s && p >= PHYS_PAGES)
            && (TooMuch(m, mbi) ==> PHYS_PAGES in s && CutAddress(PHYS_PAGES) == 0 && 0 !in s)
  {
    hide BootFree, TagsOk, TagOk, BitmapReached, CutAddress;
    var s := BootFree(m, mbi, kernelStart, kernelEnd);
    CutAddressBelow(PHYS_PAGES);
    FreeAfterBoot(m, mbi, kernelStart, kernelEnd, 0);
    if TooMuch(m, mbi) {
      ThereBeyond(m, mbi, kernelStart, kernelEnd);
    }
    if p :| p in s && p >= PHYS_PAGES {
      FreeAfterBoot(m, mbi, kernelStart, kernelEnd, p);
      HasPageExact(m, mbi, p);
      BeyondMeans(m, mbi, p);
    }
  }

  lemma BeyondMeans(m: seq<u8>, mbi: nat, p: nat)
    requires BlobOk(m, mbi) && PHYS_PAGES <= p < TotalPages(m, mbi)
    requires exists r :: r in Available(m, mbi) && Inside(p, r.base, r.len)
    ensures TooMuch(m, mbi)
  {
    hide TagsOk, TagOk;
    MaxAvailableBounded(m, mbi);
    RoundUp(MaxAvailable(m, mbi));
    WhereAvailable(m, mbi);
  }

  lemma ThereBeyond(m: seq<u8>, mbi: nat, kernelStart: nat, kernelEnd: nat)
    requires BlobOk(m, mbi) && kernelStart <= kernelEnd && BootEnd(m, mbi, kernelEnd) + PAGE_SIZE <= U32
    requires BitmapReached(m, mbi, kernelEnd) && TooMuch(m, mbi)
    ensures PHYS_PAGES in BootFree(m, mbi, kernelStart, kernelEnd)
  {
    hide BootFree, TagsOk, TagOk;
    var info := FindTag(m, mbi, TAG_BASIC_MEMINFO);
    WhereAvailable(m, mbi);
    var lower, upper := BasicRegions(m, info)[0], BasicRegions(m, info)[1];
    var r := if Word(m, info + 12) >= 0x3f_fc04 then upper else lower;
    assert r in Available(m, mbi) && Inside(PHYS_PAGES, r.base, r.len);
    BitmapClear(m, mbi, kernelEnd);
    RoundUp(MaxAvailable(m, mbi));
    RoundUp(BitmapBytes(TotalPages(m, mbi)));
    FreeAfterBoot(m, mbi, kernelStart, kernelEnd, PHYS_PAGES);
    HasPageExact(m, mbi, PHYS_PAGES);
    ModulePageExact(m, mbi, PHYS_PAGES);
  }

  method PmmBootstrap(ram: array<u8>, mbi: nat, kernelStart: nat, kernelEnd: nat) returns (r: BootResult)
    requires BootOk(ram[..], mbi, kernelStart, kernelEnd)
    modifies ram
    ensures var m := old(ram[..]);
            && (r.TooSmall? <==> !BitmapFits(m, mbi, kernelEnd))
            && (r.Unreachable? <==> BitmapFits(m, mbi, kernelEnd) && !BitmapReached(m, mbi, kernelEnd))
            && (r.TooSmall? ==> ram[..] == m)
            && (r.Ready? ==>
                  var pmm := r.pmm;
                  && fresh(pmm) && pmm.ram == ram && pmm.Valid() && pmm.allocCursor == 0
                  && pmm.bitmap == BitmapAddr(m, mbi, kernelEnd) && pmm.npagesTotal == TotalPages(m, mbi)
                  && pmm.free == BootFree(m, mbi, kernelStart, kernelEnd)
                  && pmm.OnlyBitmap(m))
  {
    ghost var m := ram[..];
    var maxAddr, totalPages, bitmapPages, bitmapPhys := PlaceBitmap(ram, mbi, kernelEnd);
    if bitmapPhys + bitmapPages * PAGE_SIZE > maxAddr {
      return TooSmall;
    }
    if bitmapPhys + BitmapBytes(totalPages) > BOOT_REACH {
      return Unreachable;
    }
    TotalFits(m, mbi, kernelEnd);
    var pmm := new Pmm(ram, bitmapPhys, totalPages);
    FillPmm(pmm, mbi, kernelStart, kernelEnd, bitmapPages, m);
    r := Ready(pmm);
  }

  /** The first pass: how many pages there are and where their bitmap goes. */
  method PlaceBitmap(ram: array<u8>, mbi: nat, kernelEnd: nat)
    returns (maxAddr: nat, totalPages: nat, bitmapPages: nat, bitmapPhys: nat)
    requires BlobOk(ram[..], mbi)
    ensures maxAddr == MaxAvailable(ram[..], mbi) && totalPages == TotalPages(ram[..], mbi)
    ensures bitmapPages * PAGE_SIZE == BitmapRoom(totalPages) && bitmapPhys == BitmapAddr(ram[..], mbi, kernelEnd)
  {
    maxAddr := MmapMaxAvailable(ram, mbi);
    totalPages := (maxAddr + PAGE_SIZE - 1) / PAGE_SIZE;
    var bitmapBytes := (totalPages + 7) / 8;
    bitmapPages := (bitmapBytes + PAGE_SIZE - 1) / PAGE_SIZE;
    var bootEnd := BootDataEnd(ram, mbi, kernelEnd);
    bitmapPhys := AlignUp(bootEnd);
  }

  /** The calls after pmm_init. */
  method FillPmm(pmm: Pmm, mbi: nat, kernelStart: nat, kernelEnd: nat, bitmapPages: nat, ghost m: seq<u8>)
    requires BootOk(m, mbi, kernelStart, kernelEnd)
    requires pmm.Valid() && pmm.free == {} && pmm.OnlyBitmap(m)
    requires pmm.bitmap == BitmapAddr(m, mbi, kernelEnd) && pmm.npagesTotal == TotalPages(m, mbi)
    requires bitmapPages * PAGE_SIZE == BitmapRoom(pmm.npagesTotal)
    modifies pmm.ram, pmm`npagesFree, pmm`free
    ensures pmm.Valid() && pmm.OnlyBitmap(m)
    ensures pmm.free == BootFree(m, mbi, kernelStart, kernelEnd)
  {
    BitmapClear(m, mbi, kernelEnd);
    MmapFreeAvailable(pmm, mbi, m);
    assert pmm.free == Covered(TotalPages(m, mbi), Available(m, mbi));
    ReserveFixed(pmm, kernelStart, kernelEnd - kernelStart, bitmapPages * PAGE_SIZE);
    assert pmm.OnlyBitmap(m);
    ReserveBootData(pmm, mbi, m);
  }

  /** Low memory, the kernel and the bitmap itself. */
  method ReserveFixed(pmm: Pmm, kernelStart: nat, kernelLen: nat, bitmapLen: nat)
    requires pmm.Valid()
    requires kernelStart + kernelLen + PAGE_SIZE < ADDR_LIMIT && pmm.bitmap + bitmapLen + PAGE_SIZE < ADDR_LIMIT
    modifies pmm.ram, pmm`npagesFree, pmm`free
    ensures pmm.Valid() && pmm.OnlyBitmap(old(pmm.ram[..]))
    ensures pmm.free == Untouched(Untouched(Untouched(old(pmm.free), 0, ONE_MIB), kernelStart, kernelLen), pmm.bitmap,
            bitmapLen)
  {
    pmm.Reserve(0, ONE_MIB);
    pmm.Reserve(kernelStart, kernelLen);
    pmm.Reserve(pmm.bitmap, bitmapLen);
  }
}
