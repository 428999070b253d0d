/**
 pmap and vmm: mapping, unmapping and extraction over page tables built on demand from
 allocator frames, in the RAM that also holds the allocator's bitmap.
 */
module PmapModule {
  import opened Words
  import opened Ram
  import opened PmmModule
  import opened PageTables

  /** What pt_for comes to: a table, NULL, the panic for want of a frame, or a fault on a frame that is not mapped. */
  datatype PtResult = Table(addr: nat) | Missing | NoTable | OutOfReach

  datatype MapOutcome = Mapped | NoFrame | Unreachable

  /** PTE_ADDR(pa) | (flags & 0xfff) | PTE_PRESENT */
  function MakeEntry(pa: u32, flags: u32): (e: u32)
    ensures Present(e) && FrameOf(e) == pa / PAGE_SIZE
    ensures Writable(e) == Writable(flags) && UserBit(e) == UserBit(flags)
  {
    var low := flags % PAGE_SIZE / 2 * 2 + 1;
    EntryBits(pa / PAGE_SIZE, flags / PAGE_SIZE, flags % PAGE_SIZE / 2, flags);
    pa / PAGE_SIZE * PAGE_SIZE + low
  }

  lemma Halved(x: nat, h: nat, b: nat)
    requires x == 2 * h + b && b < 2
    ensures x / 2 == h && x % 2 == b && x / 4 == h / 2
  {
  }

  lemma EvenPart(x: nat, k: nat, h: nat)
    requires x == 2048 * k + h
    ensures x % 2 == h % 2 && x / 2 % 2 == h / 2 % 2
  {
    Halved(x, 1024 * k + h / 2, h % 2);
    Halved(1024 * k + h / 2, 512 * k + h / 4, h / 2 % 2);
  }

  lemma EntryBits(f: nat, g: nat, h: nat, flags: u32)
    requires h < 2048 && flags / 2 == 2048 * g + h && f < 0x10_0000
    ensures var e := f * PAGE_SIZE + h * 2 + 1;
            e < U32 && e % 2 == 1 && e / PAGE_SIZE == f && e / 2 % 2 == flags / 2 % 2 && e / 4 % 2 == flags / 4 % 2
  {
    var e := f * PAGE_SIZE + h * 2 + 1;
    Halved(e, 2048 * f + h, 1);
    Halved(flags, flags / 2, flags % 2);
    EvenPart(e / 2, f, h);
    EvenPart(flags / 2, g, h);
  }

  /** pte_flags: the portable write and user bits, and no other, in the processor's places. */
  function PteFlags(flags: u32): (f: u32)
    ensures Writable(f) == Writable(flags) && UserBit(f) == UserBit(flags) && f % 2 == 0 && f < 8
  {
    (if Writable(flags) then 2 else 0) + if UserBit(flags) then 4 else 0
  }

  /** The tables of m' mean what those of m mean, except that page q now means w. */
  ghost predicate MapsLike(m: seq<u8>, m': seq<u8>, dir: nat, q: nat, w: Option<Mapping>)
    requires |m| == PHYS_SIZE == |m'| && dir + PAGE_SIZE <= PHYS_SIZE && q < VPAGES
  {
    Flat(m', dir) == Flat(m, dir)[q := w]
  }

  ghost predicate SameMap(m: seq<u8>, m': seq<u8>, dir: nat)
    requires |m| == PHYS_SIZE == |m'| && dir + PAGE_SIZE <= PHYS_SIZE
  {
    Flat(m', dir) == Flat(m, dir)
  }

  /** The page at t keeps clear of lo .. hi. */
  predicate PageClear(t: nat, lo: nat, hi: nat) { t + PAGE_SIZE <= lo || hi <= t }

  /** No page that could be handed out overlaps the bitmap itself. */
  ghost predicate FreeClear(free: set<nat>, lo: nat, hi: nat) {
    forall p :: p in free ==> PageClear(p * PAGE_SIZE, lo, hi)
  }

  /** Directory and tables are allocated pages that keep clear of the bitmap. */
  ghost predicate TreeOwned(m: seq<u8>, dir: nat, free: set<nat>, lo: nat, hi: nat)
    requires dir + PAGE_SIZE <= |m|
  {
    && FrameOf(dir) !in free && PageClear(dir, lo, hi)
    && forall i :: 0 <= i < ENTRIES && Present(Entry(m, dir, i)) ==>
         FrameOf(Entry(m, dir, i)) !in free && PageClear(TableAt(Entry(m, dir, i)), lo, hi)
  }

  /** Frame f is the page of a present table. */
  ghost predicate TableFrame(m: seq<u8>, dir: nat, f: nat)
    requires dir + PAGE_SIZE <= |m|
  {
    exists i :: 0 <= i < ENTRIES && Present(Entry(m, dir, i)) && FrameOf(Entry(m, dir, i)) == f
  }

  /** Every page that is neither bitmap nor part of the tree of m' is as in m. */
  ghost predicate OthersKept(m: seq<u8>, m': seq<u8>, dir: nat, lo: nat, hi: nat)
    requires dir + PAGE_SIZE <= |m'|
  {
    |m| == |m'| &&
    forall t: nat :: t % PAGE_SIZE == 0 && t + PAGE_SIZE <= |m| && OutsideTree(m', dir, t) && PageClear(t, lo, hi)
      ==> Agree(m, m', t, t + PAGE_SIZE)
  }

  /** A frame the allocator would hand out is not part of the tree. */
  lemma FreeOutsideTree(m: seq<u8>, dir: nat, free: set<nat>, lo: nat, hi: nat, t: nat)
    requires Tree(m, dir) && TreeOwned(m, dir, free, lo, hi) && t % PAGE_SIZE == 0 && FrameOf(t) in free
    ensures OutsideTree(m, dir, t)
  {
    forall i | 0 <= i < ENTRIES && Present(Entry(m, dir, i)) ensures TableAt(Entry(m, dir, i)) != t {
      assert TableAt(Entry(m, dir, i)) / PAGE_SIZE == FrameOf(Entry(m, dir, i));
    }
  }

  lemma OutsideUnchanged(m: seq<u8>, m': seq<u8>, dir: nat, t: nat)
    requires |m| == PHYS_SIZE == |m'| && dir + PAGE_SIZE <= PHYS_SIZE && Directory(m', dir) == Directory(m, dir)
    ensures OutsideTree(m', dir, t) == OutsideTree(m, dir, t)
  {
    AllDirectory(m, dir);
    AllDirectory(m', dir);
  }

  lemma OwnedUnchanged(m: seq<u8>, m': seq<u8>, dir: nat, free: set<nat>, free': set<nat>, lo: nat, hi: nat)
    requires |m| == PHYS_SIZE == |m'| && dir + PAGE_SIZE <= PHYS_SIZE && Directory(m', dir) == Directory(m, dir)
    requires TreeOwned(m, dir, free, lo, hi) && free' <= free
    ensures TreeOwned(m', dir, free', lo, hi)
  {
    AllDirectory(m, dir);
    AllDirectory(m', dir);
  }

  /** Bitmap writes do not reach the tree. */
  lemma BitmapMissesTree(m: seq<u8>, m': seq<u8>, dir: nat, free: set<nat>, lo: nat, hi: nat)
    requires Tree(m, dir) && TreeOwned(m, dir, free, lo, hi) && SameOutside(m, m', lo, hi)
    ensures TreeSame(m, m', dir)
  {
    forall i | 0 <= i < ENTRIES && Present(Entry(m, dir, i))
      ensures Agree(m, m', TableAt(Entry(m, dir, i)), TableAt(Entry(m, dir, i)) + PAGE_SIZE)
    {
      assert PageClear(TableAt(Entry(m, dir, i)), lo, hi);
    }
  }

  /** Nor do writes to a page outside it. */
  lemma PageMissesTree(m: seq<u8>, m': seq<u8>, dir: nat, t: nat)
    requires Tree(m, dir) && t % PAGE_SIZE == 0 && OutsideTree(m, dir, t) && SameOutside(m, m', t, t + PAGE_SIZE)
    ensures TreeSame(m, m', dir)
  {
    PagesApart(t, dir);
    forall i | 0 <= i < ENTRIES && Present(Entry(m, dir, i))
      ensures Agree(m, m', TableAt(Entry(m, dir, i)), TableAt(Entry(m, dir, i)) + PAGE_SIZE)
    {
      PagesApart(t, TableAt(Entry(m, dir, i)));
    }
  }

  /** The three writes behind a new table: bitmap bit, zeroed frame, directory entry. */
  ghost predicate TableWrites(m0: seq<u8>, m1: seq<u8>, m2: seq<u8>, m3: seq<u8>, dir: nat, i: nat, t: nat, lo: nat,
      hi: nat) {
    && i < ENTRIES && t % PAGE_SIZE == 0 && t + PAGE_SIZE <= PHYS_SIZE == |m0|
    && SameOutside(m0, m1, lo, hi)
    && SameOutside(m1, m2, t, t + PAGE_SIZE) && (forall a: nat :: t <= a < t + PAGE_SIZE ==> m2[a] == 0)
    && SameOutside(m2, m3, dir + 4 * i, dir + 4 * i + 4) && dir + PAGE_SIZE <= |m0| && Word(m3, dir + 4 * i) == t + 7
  }

  lemma NewTableTree(m0: seq<u8>, m1: seq<u8>, m2: seq<u8>, m3: seq<u8>, dir: nat, i: nat, t: nat, free: set<nat>,
      lo: nat, hi: nat)
    requires Tree(m0, dir) && TreeOwned(m0, dir, free, lo, hi) && FrameOf(t) in free
    requires TableWrites(m0, m1, m2, m3, dir, i, t, lo, hi) && !Present(Entry(m0, dir, i))
    ensures Tree(m3, dir) && t + 7 < U32 && Present(t + 7) && TableAt(t + 7) == t
    ensures Directory(m3, dir) == Directory(m0, dir)[i := t + 7] && SameMap(m0, m3, dir)
  {
    BitmapMissesTree(m0, m1, dir, free, lo, hi);
    TreeUnchanged(m0, m1, dir);
    FreeOutsideTree(m0, dir, free, lo, hi, t);
    OutsideUnchanged(m0, m1, dir, t);
    PageMissesTree(m1, m2, dir, t);
    TreeUnchanged(m1, m2, dir);
    OutsideUnchanged(m1, m2, dir, t);
    DirectoryAt(m0, dir, i);
    DirectoryAt(m2, dir, i);
    HangTable(m2, m3, dir, i, t);
    assert (t + 7) % PAGE_SIZE == 7;
    GrantsAll(t + 7);
  }

  lemma NewTableOwned(m0: seq<u8>, m3: seq<u8>, dir: nat, i: nat, t: nat, free: set<nat>, lo: nat, hi: nat)
    requires Tree(m0, dir) && TreeOwned(m0, dir, free, lo, hi) && FreeClear(free, lo, hi)
    requires i < ENTRIES && FrameOf(t) in free && t % PAGE_SIZE == 0 && |m3| == |m0|
    requires |m0| == PHYS_SIZE && t + 7 < U32 && TableAt(t + 7) == t
             && Directory(m3, dir) == Directory(m0, dir)[i := t + 7]
    ensures TreeOwned(m3, dir, free - {FrameOf(t)}, lo, hi)
    ensures FreeClear(free - {FrameOf(t)}, lo, hi) && PageClear(t, lo, hi)
  {
    AllDirectory(m0, dir);
    AllDirectory(m3, dir);
    assert t == FrameOf(t) * PAGE_SIZE;
    assert FrameOf(Entry(m3, dir, i)) == FrameOf(t);
  }

  lemma NewTableKept(m0: seq<u8>, m1: seq<u8>, m2: seq<u8>, m3: seq<u8>, dir: nat, i: nat, t: nat, lo: nat, hi: nat)
    requires dir % PAGE_SIZE == 0 && hi <= |m0| && PageClear(dir, lo, hi) && PageClear(t, lo, hi)
    requires TableWrites(m0, m1, m2, m3, dir, i, t, lo, hi)
    requires Present(Entry(m3, dir, i)) && TableAt(Entry(m3, dir, i)) == t
    ensures OthersKept(m0, m3, dir, lo, hi)
    ensures Agree(m1, m3, lo, hi)
  {
    forall s: nat | s % PAGE_SIZE == 0 && s + PAGE_SIZE <= |m0| && OutsideTree(m3, dir, s) && PageClear(s, lo, hi)
      ensures Agree(m0, m3, s, s + PAGE_SIZE)
    {
      assert s != t;
      PagesApart(s, t);
      PagesApart(s, dir);
    }
  }

  /** The table in frame f hung into directory entry i, with every right granted. */
  ghost predicate Hung(m: seq<u8>, m': seq<u8>, dir: nat, i: nat, f: nat)
    requires |m| == PHYS_SIZE == |m'| && dir + PAGE_SIZE <= PHYS_SIZE && i < ENTRIES
  {
    f < PHYS_PAGES && Directory(m', dir) == Directory(m, dir)[i := PdeFor(f)]
  }

  // ---------------------------------------------------------------- what the code can touch

  /** Frame f can be touched at its own address: by boot.S's tables at first, by these once they are loaded. */
  predicate AtItsAddress(m: seq<u8>, dir: nat, loaded: bool, f: nat)
    requires |m| == PHYS_SIZE && dir + PAGE_SIZE <= PHYS_SIZE
  {
    if !loaded then f < BOOT_PAGES
    else f < VPAGES && match Walk(m, dir, f) case Some(w) => w.frame == f case None => false
  }

  /** Page f holds the directory, a table or a part of the bitmap. */
  ghost predicate Structural(m: seq<u8>, dir: nat, lo: nat, hi: nat, f: nat)
    requires dir + PAGE_SIZE <= |m|
  {
    f == FrameOf(dir) || TableFrame(m, dir, f) || !PageClear(f * PAGE_SIZE, lo, hi)
  }

  ghost predicate AllReached(m: seq<u8>, dir: nat, loaded: bool, lo: nat, hi: nat)
    requires |m| == PHYS_SIZE && dir + PAGE_SIZE <= PHYS_SIZE
  {
    forall f: nat :: Structural(m, dir, lo, hi, f) ==> AtItsAddress(m, dir, loaded, f)
  }

  lemma ReachedUnchanged(m: seq<u8>, m': seq<u8>, dir: nat, loaded: bool, lo: nat, hi: nat)
    requires |m| == PHYS_SIZE == |m'| && dir + PAGE_SIZE <= PHYS_SIZE
    requires AllReached(m, dir, loaded, lo, hi) && SameMap(m, m', dir) && Directory(m', dir) == Directory(m, dir)
    ensures AllReached(m', dir, loaded, lo, hi)
  {
    AllFlat(m, dir);
    AllFlat(m', dir);
    AllDirectory(m, dir);
    AllDirectory(m', dir);
    forall g: nat | Structural(m', dir, lo, hi, g) ensures AtItsAddress(m', dir, loaded, g) {
      assert Structural(m, dir, lo, hi, g);
    }
  }

  /** A new table keeps everything in reach exactly when its own frame is. */
  lemma ReachedWithTable(m: seq<u8>, m': seq<u8>, dir: nat, i: nat, e: u32, loaded: bool, lo: nat, hi: nat)
    requires |m| == PHYS_SIZE == |m'| && dir + PAGE_SIZE <= PHYS_SIZE && i < ENTRIES
    requires AllReached(m, dir, loaded, lo, hi) && AtItsAddress(m, dir, loaded, FrameOf(e)) && SameMap(m, m', dir)
    requires Directory(m', dir) == Directory(m, dir)[i := e]
    ensures AllReached(m', dir, loaded, lo, hi)
  {
    AllFlat(m, dir);
    AllFlat(m', dir);
    AllDirectory(m, dir);
    AllDirectory(m', dir);
    forall g: nat | Structural(m', dir, lo, hi, g) ensures AtItsAddress(m', dir, loaded, g) {
      assert g == FrameOf(e) || Structural(m, dir, lo, hi, g);
    }
  }

  /** So does a change of one page that holds none of the structures, or is mapped to itself. */
  lemma ReachedWithPage(m: seq<u8>, m': seq<u8>, dir: nat, q: nat, w: Option<Mapping>, loaded: bool, lo: nat, hi: nat)
    requires |m| == PHYS_SIZE == |m'| && dir + PAGE_SIZE <= PHYS_SIZE && q < VPAGES
    requires AllReached(m, dir, loaded, lo, hi) && MapsLike(m, m', dir, q, w) && Directory(m', dir) == Directory(m, dir)
    requires !loaded || (w.Some? && w.value.frame == q) || !Structural(m', dir, lo, hi, q)
    ensures AllReached(m', dir, loaded, lo, hi)
  {
    AllFlat(m, dir);
    AllFlat(m', dir);
    AllDirectory(m, dir);
    AllDirectory(m', dir);
    forall g: nat | Structural(m', dir, lo, hi, g) ensures AtItsAddress(m', dir, loaded, g) {
      assert Structural(m, dir, lo, hi, g);
    }
  }

  /** Writes to the bitmap leave map, tables and all other pages alone. */
  lemma BitmapOnly(m: seq<u8>, m': seq<u8>, dir: nat, free: set<nat>, free': set<nat>, loaded: bool, lo: nat, hi: nat)
    requires Tree(m, dir) && TreeOwned(m, dir, free, lo, hi) && SameOutside(m, m', lo, hi) && free' <= free
    requires AllReached(m, dir, loaded, lo, hi)
    ensures Tree(m', dir) && TreeOwned(m', dir, free', lo, hi) && AllReached(m', dir, loaded, lo, hi)
    ensures SameMap(m, m', dir) && Directory(m', dir) == Directory(m, dir) && OthersKept(m, m', dir, lo, hi)
    ensures forall f: nat :: AtItsAddress(m', dir, loaded, f) == AtItsAddress(m, dir, loaded, f)
  {
    BitmapMissesTree(m, m', dir, free, lo, hi);
    TreeUnchanged(m, m', dir);
    OwnedUnchanged(m, m', dir, free, free', lo, hi);
    ReachedUnchanged(m, m', dir, loaded, lo, hi);
    AllFlat(m, dir);
    AllFlat(m', dir);
  }

  /** The three writes of a new table together. */
  lemma TableHung(m0: seq<u8>, m1: seq<u8>, m2: seq<u8>, m3: seq<u8>, dir: nat, i: nat, t: nat,
                  free: set<nat>, loaded: bool, lo: nat, hi: nat)
    requires Tree(m0, dir) && TreeOwned(m0, dir, free, lo, hi) && FreeClear(free, lo, hi) && FrameOf(t) in free
             && hi <= PHYS_SIZE
    requires TableWrites(m0, m1, m2, m3, dir, i, t, lo, hi) && !Present(Entry(m0, dir, i))
    requires AllReached(m0, dir, loaded, lo, hi) && AtItsAddress(m0, dir, loaded, FrameOf(t))
    ensures Tree(m3, dir) && TreeOwned(m3, dir, free - {FrameOf(t)}, lo, hi) && FreeClear(free - {FrameOf(t)}, lo, hi)
    ensures Hung(m0, m3, dir, i, FrameOf(t)) && SameMap(m0, m3, dir) && AllReached(m3, dir, loaded, lo, hi)
    ensures OthersKept(m0, m3, dir, lo, hi) && Agree(m1, m3, lo, hi)
  {
    assert PdeFor(FrameOf(t)) == t + 7;
    NewTableTree(m0, m1, m2, m3, dir, i, t, free, lo, hi);
    NewTableOwned(m0, m3, dir, i, t, free, lo, hi);
    DirectoryAt(m3, dir, i);
    NewTableKept(m0, m1, m2, m3, dir, i, t, lo, hi);
    ReachedWithTable(m0, m3, dir, i, t + 7, loaded, lo, hi);
  }

  class Pmap {
    const pmm: Pmm
    var pgdir: nat
    var loaded: bool     // cr3 holds pgdir

    constructor (pmm: Pmm, pgdir: nat)
      ensures this.pmm == pmm && this.pgdir == pgdir && !loaded
    {
      this.pmm := pmm;
      this.pgdir := pgdir;
      loaded := false;
    }

    ghost function BitmapEnd(): nat
      reads this, pmm
    {
      pmm.bitmap + BitmapBytes(pmm.npagesTotal)
    }

    ghost predicate Valid()
      reads this, pmm, pmm.ram
    {
      && pmm.Valid()
      && FreeClear(pmm.free, pmm.bitmap, BitmapEnd())
      && Tree(pmm.ram[..], pgdir)
      && TreeOwned(pmm.ram[..], pgdir, pmm.free, pmm.bitmap, BitmapEnd())
    }

    /** The code can touch every page it works on here: directory, tables and bitmap. */
    ghost predicate Reachable()
      requires Valid()
      reads this, pmm, pmm.ram
    {
      AllReached(pmm.ram[..], pgdir, loaded, pmm.bitmap, BitmapEnd())
    }

    /** Frame f can be touched at its own address, as pt_for touches a table it makes. */
    predicate Reaches(f: nat)
      requires pmm.ram.Length == PHYS_SIZE && pgdir + PAGE_SIZE <= PHYS_SIZE
      reads this, pmm, pmm.ram
    {
      AtItsAddress(pmm.ram[..], pgdir, loaded, f)
    }

    /** The flat map the tables stand for. */
    ghost function Map(): seq<Option<Mapping>>
      requires pmm.ram.Length == PHYS_SIZE && pgdir + PAGE_SIZE <= PHYS_SIZE
      reads this, pmm, pmm.ram
    {
      Flat(pmm.ram[..], pgdir)
    }

    ghost function Dir(): seq<u32>
      requires pmm.ram.Length == PHYS_SIZE && pgdir + PAGE_SIZE <= PHYS_SIZE
      reads this, pmm, pmm.ram
    {
      Directory(pmm.ram[..], pgdir)
    }

    ghost function Lookup(q: nat): Option<Mapping>
      requires Valid() && q < VPAGES
      reads this, pmm, pmm.ram
    {
      Walk(pmm.ram[..], pgdir, q)
    }

    /** A directory entry of the machine as it is. */
    function Pde(i: nat): u32
      requires i < ENTRIES && pgdir + PAGE_SIZE <= pmm.ram.Length
      reads this, pmm, pmm.ram
    {
      Entry(pmm.ram[..], pgdir, i)
    }

    /** What mapping page q comes to: it fails only for want of a table, or of one the code can touch. */
    ghost function Outcome(q: nat): MapOutcome
      requires Valid() && q < VPAGES
      reads this, pmm, pmm.ram
    {
      if Present(Pde(q / ENTRIES)) then Mapped
      else if pmm.free == {} then NoFrame
      else if Reaches(pmm.Next()) then Mapped
      else Unreachable
    }

    /** pmm_alloc seen from here: the tables mean what they meant, and the frame handed out is not theirs. */
    method TakeFrame() returns (pa: nat)
      requires Valid() && Reachable()
      modifies pmm.ram, pmm`npagesFree, pmm`allocCursor, pmm`free
      ensures Valid() && Reachable()
      ensures pa == ENOMEM <==> old(pmm.free) == {}
      ensures pa == ENOMEM ==>
        pmm.free == old(pmm.free) && pmm.allocCursor == old(pmm.allocCursor)
            && pmm.npagesFree == old(pmm.npagesFree) == 0
      ensures pa == ENOMEM ==> pmm.ram[..] == old(pmm.ram[..])
      ensures pmm.OnlyBitmap(old(pmm.ram[..]))
      ensures pa != ENOMEM ==>
                && pa % PAGE_SIZE == 0 && pa + PAGE_SIZE <= PHYS_SIZE && FrameOf(pa) == old(pmm.Next())
                && old(pmm.Next()) in old(pmm.free) && pmm.free == old(pmm.free) - {old(pmm.Next())}
                && pmm.allocCursor == After(old(pmm.Next()), pmm.npagesTotal)
                   && pmm.npagesFree == old(pmm.npagesFree) - 1
                && OutsideTree(pmm.ram[..], pgdir, pa) && PageClear(pa, pmm.bitmap, BitmapEnd())
      ensures SameMap(old(pmm.ram[..]), pmm.ram[..], pgdir)
      ensures Directory(pmm.ram[..], pgdir) == old(Directory(pmm.ram[..], pgdir))
      ensures forall f: nat :: Reaches(f) == old(Reaches(f))
      ensures OthersKept(old(pmm.ram[..]), pmm.ram[..], pgdir, pmm.bitmap, BitmapEnd())
    {
      ghost var m := pmm.ram[..];
      pa := pmm.Alloc();
      BitmapOnly(m, pmm.ram[..], pgdir, old(pmm.free), pmm.free, loaded, pmm.bitmap, BitmapEnd());
      if pa != ENOMEM {
        FreeOutsideTree(m, pgdir, old(pmm.free), pmm.bitmap, BitmapEnd(), pa);
        OutsideUnchanged(m, pmm.ram[..], pgdir, pa);
        assert PageClear(FrameOf(pa) * PAGE_SIZE, pmm.bitmap, BitmapEnd());
      }
    }

    /** pt_for's slow path: a zeroed frame of the allocator becomes the table of entry i. */
    method NewTable(i: nat) returns (r: PtResult)
      requires Valid() && Reachable() && i < ENTRIES && !Present(Pde(i))
      modifies pmm.ram, pmm`npagesFree, pmm`allocCursor, pmm`free
      ensures Valid()
      ensures !r.Missing?
      ensures r.NoTable? <==> old(pmm.free) == {}
      ensures r.OutOfReach? <==> old(pmm.free) != {} && !old(Reaches(pmm.Next()))
      ensures r.NoTable? ==>
                pmm.ram[..] == old(pmm.ram[..]) && pmm.free == {} && pmm.allocCursor == old(pmm.allocCursor)
      ensures r.Table? ==>
                && Reachable() && r.addr == old(pmm.Next()) * PAGE_SIZE && old(pmm.Next()) in old(pmm.free)
                && pmm.free == old(pmm.free) - {old(pmm.Next())}
                && pmm.allocCursor == After(old(pmm.Next()), pmm.npagesTotal)
                   && pmm.npagesFree == old(pmm.npagesFree) - 1
                && Hung(old(pmm.ram[..]), pmm.ram[..], pgdir, i, old(pmm.Next()))
                && SameMap(old(pmm.ram[..]), pmm.ram[..], pgdir)
      ensures OthersKept(old(pmm.ram[..]), pmm.ram[..], pgdir, pmm.bitmap, BitmapEnd())
    {
      ghost var m0 := pmm.ram[..];
      var t := TakeFrame();
      if t == ENOMEM {
        return NoTable;
      }
      if !Reaches(t / PAGE_SIZE) {
        return OutOfReach;
      }
      DirectoryAt(m0, pgdir, i);
      HangTableAt(i, t, m0, old(pmm.free));
      r := Table(t);
    }

    /** The frame just taken, zeroed and hung in. */
    method HangTableAt(i: nat, t: nat, ghost m0: seq<u8>, ghost free0: set<nat>)
      requires Valid() && Reachable() && i < ENTRIES && t % PAGE_SIZE == 0 && t + PAGE_SIZE <= PHYS_SIZE
      requires Tree(m0, pgdir) && TreeOwned(m0, pgdir, free0, pmm.bitmap, BitmapEnd())
               && FreeClear(free0, pmm.bitmap, BitmapEnd())
      requires !Present(Entry(m0, pgdir, i)) && pmm.OnlyBitmap(m0) && SameMap(m0, pmm.ram[..], pgdir)
      requires AllReached(m0, pgdir, loaded, pmm.bitmap, BitmapEnd())
      requires Directory(pmm.ram[..], pgdir) == Directory(m0, pgdir)
      requires FrameOf(t) in free0 && pmm.free == free0 - {FrameOf(t)} && AtItsAddress(m0, pgdir, loaded, FrameOf(t))
      modifies pmm.ram
      ensures Valid() && Reachable()
      ensures |m0| == |pmm.ram[..]| && Hung(m0, pmm.ram[..], pgdir, i, FrameOf(t)) && SameMap(m0, pmm.ram[..], pgdir)
      ensures OthersKept(m0, pmm.ram[..], pgdir, pmm.bitmap, BitmapEnd())
    {
      ghost var m1 := pmm.ram[..];
      Fill(pmm.ram, t, PAGE_SIZE, 0);
      ghost var m2 := pmm.ram[..];
      StoreWord(pmm.ram, pgdir + 4 * i, t + 7);   // pt_phys | PTE_PRESENT | PTE_RW | PTE_USER
      TableHung(m0, m1, m2, pmm.ram[..], pgdir, i, t, free0, loaded, pmm.bitmap, BitmapEnd());
      pmm.ValidElsewhere(m1);
    }

    /** pt_for */
    method PtFor(i: nat, create: bool) returns (r: PtResult)
      requires Valid() && Reachable() && i < ENTRIES
      modifies pmm.ram, pmm`npagesFree, pmm`allocCursor, pmm`free
      ensures Valid()
      ensures r.NoTable? <==> create && !Present(old(Pde(i))) && old(pmm.free) == {}
      ensures r.OutOfReach? <==> create && !Present(old(Pde(i))) && old(pmm.free) != {} && !old(Reaches(pmm.Next()))
      ensures r.Missing? <==> !create && !Present(old(Pde(i)))
      ensures r.Table? ==> Reachable() && Present(Pde(i)) && r.addr == TableAt(Pde(i))
      ensures Present(old(Pde(i))) || r.Missing? || r.NoTable? ==>
                SameState(old(pmm.ram[..]), old(pmm.free), old(pmm.allocCursor), old(pmm.npagesFree))
      ensures r.Table? ==> PlacedAt(old(pmm.ram[..]), old(Present(Pde(i))), i,
                                    old(pmm.Next()), old(pmm.free), old(pmm.allocCursor), old(pmm.npagesFree))
      ensures r.Table? ==> SameMap(old(pmm.ram[..]), pmm.ram[..], pgdir)
      ensures OthersKept(old(pmm.ram[..]), pmm.ram[..], pgdir, pmm.bitmap, BitmapEnd())
    {
      if Present(Pde(i)) {
        return Table(TableAt(Pde(i)));
      }
      if !create {
        return Missing;
      }
      r := NewTable(i);
      if r.Table? {
        DirectoryAt(pmm.ram[..], pgdir, i);
        assert TableAt(PdeFor(old(pmm.Next()))) == r.addr;
      }
    }

    /** RAM and the allocator are as given. */
    ghost predicate SameState(m: seq<u8>, free: set<nat>, cursor: nat, npagesFree: nat)
      reads this, pmm, pmm.ram
    {
      pmm.ram[..] == m && pmm.free == free && pmm.allocCursor == cursor && pmm.npagesFree == npagesFree
    }

    /** Sending page q to frame f cuts the code off from nothing: these tables are not in use yet, or q goes to itself,
        or nothing the code works on is there. */
    ghost predicate Harmless(q: nat, f: nat)
      requires pgdir + PAGE_SIZE <= pmm.ram.Length
      reads this, pmm, pmm.ram
    {
      !loaded || f == q || !Structural(pmm.ram[..], pgdir, pmm.bitmap, BitmapEnd(), q)
    }

    /** pmap_map */
    method MapAt(va: u32, pa: u32, flags: u32) returns (r: MapOutcome)
      requires Valid() && Reachable()
      modifies pmm.ram, pmm`npagesFree, pmm`allocCursor, pmm`free
      ensures Valid() && r == old(Outcome(va / PAGE_SIZE))
      ensures r == NoFrame ==> SameState(old(pmm.ram[..]), old(pmm.free), old(pmm.allocCursor), old(pmm.npagesFree))
      ensures r == Mapped ==> MapsLike(old(pmm.ram[..]), pmm.ram[..], pgdir, va / PAGE_SIZE,
                                       Some(Mapping(pa / 4096, rw := flags / 2 % 2 == 1, user := flags / 4 % 2 == 1)))
      ensures r == Mapped ==> PlacedAt(old(pmm.ram[..]), old(Present(Pde(va / PAGE_SIZE / ENTRIES))),
              va / PAGE_SIZE / ENTRIES,
                                       old(pmm.Next()), old(pmm.free), old(pmm.allocCursor), old(pmm.npagesFree))
      ensures r == Mapped && Harmless(va / PAGE_SIZE, pa / PAGE_SIZE) ==> Reachable()
      ensures OthersKept(old(pmm.ram[..]), pmm.ram[..], pgdir, pmm.bitmap, BitmapEnd())
    {
      var q := va / PAGE_SIZE;
      var t := PtFor(q / ENTRIES, true);
      if t.NoTable? {
        return NoFrame;
      }
      if t.OutOfReach? {
        return Unreachable;
      }
      ghost var m := pmm.ram[..];
      SetPte(q, t.addr, MakeEntry(pa, flags));
      OthersKeptTwice(old(pmm.ram[..]), m, pmm.ram[..], pgdir, pmm.bitmap, BitmapEnd());
      return Mapped;
    }

    /** A mapping under directory entry i took a table exactly when there was none: the frame that was next. */
    ghost predicate PlacedAt(m: seq<u8>, had: bool, i: nat, next: nat, free: set<nat>, cursor: nat, npagesFree: nat)
      requires i < ENTRIES && pgdir + PAGE_SIZE <= |m| == pmm.ram.Length
      reads this, pmm, pmm.ram
    {
      && |m| == PHYS_SIZE
      && if had then Directory(pmm.ram[..], pgdir) == Directory(m, pgdir) && pmm.free == free
         && pmm.allocCursor == cursor && pmm.npagesFree == npagesFree
         else Hung(m, pmm.ram[..], pgdir, i, next) && next in free && pmm.free == free - {next}
              && pmm.allocCursor == After(next, pmm.npagesTotal) && pmm.npagesFree == npagesFree - 1
    }

    /** pmap_unmap */
    method Unmap(va: u32)
      requires Valid() && Reachable()
      modifies pmm.ram, pmm`npagesFree, pmm`allocCursor, pmm`free
      ensures Valid()
      ensures MapsLike(old(pmm.ram[..]), pmm.ram[..], pgdir, va / PAGE_SIZE, None)
      ensures Directory(pmm.ram[..], pgdir) == old(Directory(pmm.ram[..], pgdir))
      ensures pmm.free == old(pmm.free) && pmm.allocCursor == old(pmm.allocCursor)
              && pmm.npagesFree == old(pmm.npagesFree)
      ensures Harmless(va / PAGE_SIZE, VPAGES) ==> Reachable()
      ensures OthersKept(old(pmm.ram[..]), pmm.ram[..], pgdir, pmm.bitmap, BitmapEnd())
    {
      var q := va / PAGE_SIZE;
      var r := PtFor(q / ENTRIES, false);
      if r.Missing? {
        FlatAt(pmm.ram[..], pgdir, q);
        assert Flat(pmm.ram[..], pgdir)[q := None] == Flat(pmm.ram[..], pgdir);
        return;
      }
      SetPte(q, r.addr, 0);
    }

    /** The physical address behind va, or 0. The answer 0 means unmapped exactly when it is not physical address 0. */
    method Extract(va: u32) returns (pa: u32)
      requires Valid() && Reachable()
      ensures var w := Lookup(va / PAGE_SIZE);
              && (w.None? ==> pa == 0)
              && (w.Some? ==> pa == w.value.frame * PAGE_SIZE + va % PAGE_SIZE)
              && (pa == 0 <==> w.None? || (w.value.frame == 0 && va % PAGE_SIZE == 0))
    {
      hide TreeOwned, AllReached, FreeClear;
      var q := va / PAGE_SIZE;
      if !Present(Pde(q / ENTRIES)) {
        return 0;
      }
      var e := Entry(pmm.ram[..], TableAt(Pde(q / ENTRIES)), q % ENTRIES);
      return if !Present(e) then 0 else FrameOf(e) * PAGE_SIZE + va % PAGE_SIZE;
    }

    /** vmm_map: the effective rights are exactly the portable flags given. */
    method VmmMap(va: u32, pa: u32, flags: u32) returns (r: MapOutcome)
      requires Valid() && Reachable()
      modifies pmm.ram, pmm`npagesFree, pmm`allocCursor, pmm`free
      ensures Valid() && r == old(Outcome(va / PAGE_SIZE))
      ensures r == NoFrame ==> SameState(old(pmm.ram[..]), old(pmm.free), old(pmm.allocCursor), old(pmm.npagesFree))
      ensures r == Mapped ==> MapsLike(old(pmm.ram[..]), pmm.ram[..], pgdir, va / PAGE_SIZE,
                                       Some(Mapping(pa / 4096, rw := flags / 2 % 2 == 1, user := flags / 4 % 2 == 1)))
      ensures r == Mapped ==> PlacedAt(old(pmm.ram[..]), old(Present(Pde(va / PAGE_SIZE / ENTRIES))),
              va / PAGE_SIZE / ENTRIES,
                                       old(pmm.Next()), old(pmm.free), old(pmm.allocCursor), old(pmm.npagesFree))
      ensures r == Mapped && Harmless(va / PAGE_SIZE, pa / PAGE_SIZE) ==> Reachable()
      ensures OthersKept(old(pmm.ram[..]), pmm.ram[..], pgdir, pmm.bitmap, BitmapEnd())
    {
      r := MapAt(va, pa, PteFlags(flags));
    }

    /** Write one entry of table t, which belongs to the directory entry of page q. */
    method SetPte(q: nat, t: nat, e: u32)
      requires Valid() && Reachable() && q < VPAGES && Present(Pde(q / ENTRIES)) && t == TableAt(Pde(q / ENTRIES))
      modifies pmm.ram
      ensures Valid()
      ensures Directory(pmm.ram[..], pgdir) == old(Directory(pmm.ram[..], pgdir))
      ensures pmm.ram.Length == PHYS_SIZE && MapsLike(old(pmm.ram[..]), pmm.ram[..], pgdir, q, Leaf(e))
      ensures Harmless(q, if Present(e) then FrameOf(e) else VPAGES) ==> Reachable()
      ensures OthersKept(old(pmm.ram[..]), pmm.ram[..], pgdir, pmm.bitmap, BitmapEnd())
    {
      ghost var m := pmm.ram[..];
      StoreWord(pmm.ram, t + 4 * (q % ENTRIES), e);
      SetEntryFlat(m, pmm.ram[..], pgdir, q, e);
      SetPteKept(m, pmm.ram[..], pgdir, q / ENTRIES, q % ENTRIES, pmm.free, pmm.bitmap, BitmapEnd());
      pmm.ValidElsewhere(m);
      SetPteReached(m, pmm.ram[..], pgdir, q, e, loaded, pmm.bitmap, BitmapEnd());
    }
  }

  /** Two changes in a row, the second leaving the directory alone. */
  lemma OthersKeptTwice(m: seq<u8>, m': seq<u8>, m'': seq<u8>, dir: nat, lo: nat, hi: nat)
    requires dir + PAGE_SIZE <= |m| == |m'| == |m''|
    requires |m| == PHYS_SIZE && OthersKept(m, m', dir, lo, hi) && OthersKept(m', m'', dir, lo, hi)
    requires Directory(m'', dir) == Directory(m', dir)
    ensures OthersKept(m, m'', dir, lo, hi)
  {
    AllDirectory(m', dir);
    AllDirectory(m'', dir);
    forall s: nat | s % PAGE_SIZE == 0 && s + PAGE_SIZE <= |m| && OutsideTree(m'', dir, s) && PageClear(s, lo, hi)
      ensures Agree(m, m'', s, s + PAGE_SIZE)
    {
      assert OutsideTree(m', dir, s);
    }
  }

  lemma SetPteReached(m: seq<u8>, m': seq<u8>, dir: nat, q: nat, e: u32, loaded: bool, lo: nat, hi: nat)
    requires |m| == PHYS_SIZE == |m'| && dir + PAGE_SIZE <= PHYS_SIZE && q < VPAGES
    requires AllReached(m, dir, loaded, lo, hi) && MapsLike(m, m', dir, q, Leaf(e))
             && Directory(m', dir) == Directory(m, dir)
    ensures !loaded || (Present(e) && FrameOf(e) == q) || !Structural(m', dir, lo, hi, q) ==>
            AllReached(m', dir, loaded, lo, hi)
  {
    if !loaded || (Present(e) && FrameOf(e) == q) || !Structural(m', dir, lo, hi, q) {
      ReachedWithPage(m, m', dir, q, Leaf(e), loaded, lo, hi);
    }
  }

  lemma SetPteKept(m: seq<u8>, m': seq<u8>, dir: nat, i: nat, k: nat, free: set<nat>, lo: nat, hi: nat)
    requires Tree(m, dir) && TreeOwned(m, dir, free, lo, hi) && hi <= |m|
    requires i < ENTRIES && k < ENTRIES && Present(Entry(m, dir, i))
    requires var a := TableAt(Entry(m, dir, i)) + 4 * k; SameOutside(m, m', a, a + 4)
    ensures Tree(m', dir) && TreeOwned(m', dir, free, lo, hi) && Directory(m', dir) == Directory(m, dir)
    ensures OthersKept(m, m', dir, lo, hi) && Agree(m, m', lo, hi)
  {
    var t := TableAt(Entry(m, dir, i));
    SetEntryTree(m, m', dir, i, k);
    OwnedUnchanged(m, m', dir, free, free, lo, hi);
    assert FrameOf(Entry(m, dir, i)) !in free && PageClear(t, lo, hi);
    hide Tree, TreeOwned, Entry, FrameOf;
    TableAligned(Entry(m, dir, i));
    forall s: nat | s % PAGE_SIZE == 0 && s + PAGE_SIZE <= |m| && OutsideTree(m', dir, s) && PageClear(s, lo, hi)
      ensures Agree(m, m', s, s + PAGE_SIZE)
    {
      OutsideUnchanged(m, m', dir, s);
      assert s != t;
      PagesApart(s, t);
    }
  }
}
