/**
 The kernel's tables in use, taken as a value: which frames are free, which are nobody's
 but one page's, and what giving a new page a frame of its own does and leaves alone.
 */
module AddressSpace {
  import opened Words
  import opened Ram
  import opened PmmModule
  import opened PageTables
  import opened PmapModule

  const KERNEL_RW: u32 := 3                // PAGE_PRESENT | PAGE_WRITE

  /** RAM, the directory's address, the bitmap's bounds, and the allocator's free pages, cursor and total. */
  datatype Space = Space(m: seq<u8>, pgdir: nat, lo: nat, hi: nat, free: set<nat>, cursor: nat, npages: nat) {
    ghost predicate Sized() { |m| == PHYS_SIZE && pgdir + PAGE_SIZE <= PHYS_SIZE }

    ghost function Map(): (f: seq<Option<Mapping>>)
      requires Sized()
    {
      Flat(m, pgdir)
    }

    ghost function Dir(): (d: seq<u32>)
      requires Sized()
    {
      Directory(m, pgdir)
    }

    /** Frame behind page q, when there is one. */
    ghost function FrameAt(q: nat): nat
      requires Sized() && q < VPAGES
    {
      match Map()[q] case Some(w) => w.frame case None => 0
    }

    /** Frame f is no table, not the directory, not the bitmap. */
    ghost predicate Plain(f: nat)
      requires Sized()
    {
      && f < PHYS_PAGES && f != FrameOf(pgdir) && PageClear(f * PAGE_SIZE, lo, hi)
      && forall i :: 0 <= i < ENTRIES && Present(Dir()[i]) ==> FrameOf(Dir()[i]) != f
    }

    /** Nor is it free. */
    ghost predicate Private(f: nat)
      requires Sized()
    {
      f !in free && Plain(f)
    }

    /** Nothing the code works on is at page q, now or later: it is unmapped, or the frame of that number is
        private. */
    ghost predicate Spare(q: nat)
      requires Sized() && q < VPAGES
    {
      Map()[q] == None || Private(q)
    }

    /** Frame f is mapped at its own address. */
    ghost predicate Reaches(f: nat)
      requires Sized()
    {
      f < VPAGES && match Map()[f] case Some(w) => w.frame == f case None => false
    }

    /** What giving page q a new frame comes to: a frame for the page, and one more in reach if it needs a table. */
    ghost function Outcome(q: nat): MapOutcome
      requires Sized() && q < VPAGES && (free != {} ==> cursor < npages)
    {
      if free == {} then NoFrame
      else if Present(Dir()[q / ENTRIES]) then Mapped
      else if free == {Next()} then NoFrame
      else if Reaches(TableNext()) then Mapped
      else Unreachable
    }

    function Next(): nat
      requires cursor < npages
    {
      NextFree(free, cursor, npages)
    }

    /** The frame after that. */
    function TableNext(): nat
      requires cursor < npages
    {
      NextFree(free - {Next()}, After(Next(), npages), npages)
    }
  }

  ghost function Snap(pm: Pmap): Space
    reads pm, pm.pmm, pm.pmm.ram
  {
    Space(pm.pmm.ram[..], pm.pgdir, pm.pmm.bitmap, pm.BitmapEnd(), pm.pmm.free, pm.pmm.allocCursor, pm.pmm.npagesTotal)
  }

  /** The tables are in use and the code reaches all it works on. */
  ghost predicate Running(pm: Pmap)
    reads pm, pm.pmm, pm.pmm.ram
  {
    pm.Valid() && pm.loaded && pm.Reachable()
  }

  /** Every frame that is not bitmap, directory or table by now, free ones included, holds the bytes it held. */
  ghost predicate BytesKept(v: Space, v': Space)
    requires v'.Sized()
  {
    |v.m| == |v'.m| && forall f: nat :: v'.Plain(f) ==> Agree(v.m, v'.m, f * PAGE_SIZE, (f + 1) * PAGE_SIZE)
  }

  ghost predicate SamePlaces(v: Space, v': Space) {
    v'.pgdir == v.pgdir && v'.lo == v.lo && v'.hi == v.hi && v'.npages == v.npages
  }

  /** Directory entries are as they were or over frames that were free. */
  ghost predicate Grown(d: seq<u32>, d': seq<u32>, free: set<nat>) {
    |d| == |d'| == ENTRIES && forall i :: 0 <= i < ENTRIES && Present(d'[i]) ==> d'[i] == d[i] || FrameOf(d'[i]) in free
  }

  /** Page q now goes to the frame that was next, kernel read-write, over a table that was there or in the frame
      after that; every other page goes where it went, and frames that hold no structure keep their bytes. */
  ghost predicate PageAdded(v: Space, v': Space, q: nat)
    requires v.Sized() && v'.Sized() && q < VPAGES
  {
    && v.cursor < v.npages && SamePlaces(v, v')
    && v.Next() in v.free && v'.Map() == v.Map()[q := Some(Mapping(v.Next(), true, false))]
    && (if Present(v.Dir()[q / ENTRIES]) then
          v'.Dir() == v.Dir() && v'.free == v.free - {v.Next()} && v'.cursor == After(v.Next(), v.npages)
        else
          && v.TableNext() in v.free - {v.Next()} && v.TableNext() < PHYS_PAGES
          && v'.Dir() == v.Dir()[q / ENTRIES := PdeFor(v.TableNext())]
          && v'.free == v.free - {v.Next(), v.TableNext()} && v'.cursor == After(v.TableNext(), v.npages))
    && BytesKept(v, v')
  }

  /** Writes that reach only bitmap and tables keep the bytes of all other frames. */
  lemma OthersAreKept(v: Space, v': Space)
    requires v.Sized() && v'.Sized() && SamePlaces(v, v') && OthersKept(v.m, v'.m, v.pgdir, v.lo, v.hi)
    ensures BytesKept(v, v')
  {
    AllDirectory(v'.m, v.pgdir);
    forall f: nat | v'.Plain(f) ensures Agree(v.m, v'.m, f * PAGE_SIZE, (f + 1) * PAGE_SIZE) {
      var t := f * PAGE_SIZE;
      assert FrameOf(t) == f;
      forall i | 0 <= i < ENTRIES && Present(Entry(v'.m, v.pgdir, i)) ensures TableAt(Entry(v'.m, v.pgdir, i)) != t {
        assert FrameOf(TableAt(v'.Dir()[i])) == FrameOf(v'.Dir()[i]);
      }
      assert OutsideTree(v'.m, v.pgdir, t);
    }
  }

  /** A private frame stays private when frames leave the free list for tables or pages, and so keeps its bytes. */
  lemma PrivateKept(v: Space, v': Space, f: nat)
    requires v.Sized() && v'.Sized() && SamePlaces(v, v') && v.Private(f) && v'.free <= v.free
             && Grown(v.Dir(), v'.Dir(), v.free)
    ensures v'.Private(f)
  {
  }

  /** The tables of d are those of d' too. */
  predicate Extends(d: seq<u32>, d': seq<u32>) {
    |d| == |d'| == ENTRIES && forall i :: 0 <= i < ENTRIES && Present(d[i]) ==> d'[i] == d[i]
  }

  lemma PlainBefore(v: Space, v': Space, f: nat)
    requires v.Sized() && v'.Sized() && SamePlaces(v, v') && Extends(v.Dir(), v'.Dir()) && v'.Plain(f)
    ensures v.Plain(f)
  {
  }

  lemma BytesKeptTwice(v: Space, v1: Space, v2: Space)
    requires v1.Sized() && v2.Sized() && SamePlaces(v1, v2) && Extends(v1.Dir(), v2.Dir())
    requires BytesKept(v, v1) && BytesKept(v1, v2)
    ensures BytesKept(v, v2)
  {
    forall f: nat | v2.Plain(f) ensures Agree(v.m, v2.m, f * PAGE_SIZE, (f + 1) * PAGE_SIZE) {
      PlainBefore(v1, v2, f);
    }
  }

  /** Nothing the code works on is at a spare page after a table was made either. */
  lemma SpareHarmless(v: Space, v': Space, q: nat, i: nat, t: nat)
    requires v.Sized() && v'.Sized() && SamePlaces(v, v') && q < VPAGES && i < ENTRIES && t < PHYS_PAGES
    requires AllReached(v.m, v.pgdir, true, v.lo, v.hi) && v.Spare(q)
    requires v'.Dir() == v.Dir()
             || (t in v.free && AtItsAddress(v.m, v.pgdir, true, t) && v'.Dir() == v.Dir()[i := PdeFor(t)])
    ensures !Structural(v'.m, v'.pgdir, v'.lo, v'.hi, q)
  {
    FlatAt(v.m, v.pgdir, q);
    AllDirectory(v.m, v.pgdir);
    AllDirectory(v'.m, v.pgdir);
    if v.Map()[q] == None {
      assert !AtItsAddress(v.m, v.pgdir, true, q);
      assert !Structural(v.m, v.pgdir, v.lo, v.hi, q);
    }
  }

  lemma PageNumber(q: nat)
    requires q < VPAGES
    ensures q * PAGE_SIZE < U32 && q * PAGE_SIZE / PAGE_SIZE == q
    ensures Writable(KERNEL_RW) && !UserBit(KERNEL_RW)
  {
  }

  /** What the allocator's part leaves: the same tables, and the frame no longer free. */
  ghost predicate FrameTaken(v: Space, v1: Space)
    requires v.Sized()
  {
    && v.cursor < v.npages && v1.Sized() && SamePlaces(v, v1) && v1.Map() == v.Map() && v1.Dir() == v.Dir()
    && v.Next() in v.free && v1.free == v.free - {v.Next()} && v1.cursor == After(v.Next(), v.npages)
    && BytesKept(v, v1)
  }

  /** pmm_alloc */
  method TakeNext(pm: Pmap, ghost v: Space) returns (pa: nat)
    requires Running(pm) && v == Snap(pm)
    modifies pm.pmm.ram, pm.pmm`npagesFree, pm.pmm`allocCursor, pm.pmm`free
    ensures Running(pm) && v.Sized() && (v.free != {} ==> v.cursor < v.npages)
    ensures (pa == ENOMEM <==> v.free == {}) && (pa == ENOMEM ==> Snap(pm) == v)
    ensures pa != ENOMEM ==> FrameTaken(v, Snap(pm)) && pa % PAGE_SIZE == 0 && pa < U32 && pa / PAGE_SIZE == v.Next()
  {
    pa := pm.TakeFrame();
    OthersAreKept(v, Snap(pm));
  }

  /** vmm_map of a page where nothing is that the code works on, to a frame in hand. */
  method MapNew(pm: Pmap, q: nat, pa: u32, ghost v: Space) returns (r: MapOutcome)
    requires Running(pm) && v == Snap(pm) && q < VPAGES && v.Sized() && v.Spare(q) && pa % PAGE_SIZE == 0
    modifies pm.pmm.ram, pm.pmm`npagesFree, pm.pmm`allocCursor, pm.pmm`free
    ensures pm.Valid() && Snap(pm).Sized() && (v.free != {} ==> v.cursor < v.npages)
    ensures r == if Present(v.Dir()[q / ENTRIES]) then Mapped else if v.free == {} then NoFrame
                 else if v.Reaches(v.Next()) then Mapped else Unreachable
    ensures r == Mapped ==> Running(pm) && MappedOver(v, Snap(pm), q, pa / PAGE_SIZE)
  {
    hide AllReached, Structural, TreeOwned, FreeClear, Space.Private, Space.Plain, Space.Spare, BytesKept, PteFlags;
    PageNumber(q);
    DirectoryAt(v.m, v.pgdir, q / ENTRIES);
    ReachesAt(pm, v);
    r := pm.VmmMap(q * PAGE_SIZE, pa, KERNEL_RW);
    if r == Mapped {
      OthersAreKept(v, Snap(pm));
      SpareHarmless(v, Snap(pm), q, q / ENTRIES, if v.free == {} then 0 else v.Next());
    }
  }

  /** The page goes to frame f, over a table that was there or in the frame that was next. */
  ghost predicate MappedOver(v: Space, v': Space, q: nat, f: nat)
    requires v.Sized() && v'.Sized() && q < VPAGES
  {
    && SamePlaces(v, v') && v'.Map() == v.Map()[q := Some(Mapping(f, true, false))]
    && (if Present(v.Dir()[q / ENTRIES]) then v'.Dir() == v.Dir() && v'.free == v.free && v'.cursor == v.cursor
        else
          && v.cursor < v.npages && v.Next() in v.free && v.Next() < PHYS_PAGES
          && v'.Dir() == v.Dir()[q / ENTRIES := PdeFor(v.Next())]
          && v'.free == v.free - {v.Next()} && v'.cursor == After(v.Next(), v.npages))
    && BytesKept(v, v')
  }

  lemma StillSpare(v: Space, v1: Space, q: nat)
    requires v.Sized() && FrameTaken(v, v1) && q < VPAGES && v.Spare(q)
    ensures v1.Spare(q)
  {
  }

  lemma ReachesAt(pm: Pmap, v: Space)
    requires Running(pm) && v == Snap(pm)
    ensures v.Sized() && forall f: nat :: v.Reaches(f) == pm.Reaches(f)
  {
    AllFlat(v.m, v.pgdir);
  }

  lemma Both(v: Space, v1: Space, v2: Space, q: nat)
    requires v.Sized() && v1.Sized() && v2.Sized() && q < VPAGES && FrameTaken(v, v1) && MappedOver(v1, v2, q, v.Next())
    ensures PageAdded(v, v2, q)
  {
    BytesKeptTwice(v, v1, v2);
  }

  /** One page of kernel memory: pmm_alloc, then vmm_map(va, pa, PAGE_PRESENT | PAGE_WRITE). */
  method MapFresh(pm: Pmap, q: nat, ghost v: Space) returns (r: MapOutcome)
    requires Running(pm) && v == Snap(pm) && q < VPAGES && v.Sized() && v.Spare(q)
    modifies pm.pmm.ram, pm.pmm`npagesFree, pm.pmm`allocCursor, pm.pmm`free
    ensures pm.Valid() && Snap(pm).Sized() && (v.free != {} ==> v.cursor < v.npages)
    ensures r == v.Outcome(q)
    ensures r == Mapped ==> Running(pm) && PageAdded(v, Snap(pm), q)
  {
    var pa := TakeNext(pm, v);
    if pa == ENOMEM {
      return NoFrame;
    }
    ghost var v1 := Snap(pm);
    StillSpare(v, v1, q);
    r := MapNew(pm, q, pa, v1);
    if r == Mapped {
      Both(v, v1, Snap(pm), q);
    }
  }
}
