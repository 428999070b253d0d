/**
 The kernel's definitive tables: what pmap_init maps, what it needs for that, and that
 nothing else is mapped.
 */
module PmapInit {
  import opened Words
  import opened Ram
  import opened PmmModule
  import opened FrameOrder
  import opened PageTables
  import opened PmapModule

  const KERNBASE: nat := 0xC000_0000
  const PMAP_LOW_END: nat := 0x80_0000
  const KERN_PAGE: nat := 0xC_0000        // KERNBASE / PAGE_SIZE
  const PTE_RW: nat := 2

  /** Kernel read-write, not user. */
  function KernelPage(f: nat): Option<Mapping> { Some(Mapping(f, true, false)) }

  /** Identity from page 1 up to `low`, kernel pages ks .. ke again at KERNBASE, nothing else. */
  function Layout(low: nat, ks: nat, ke: nat, p: nat): Option<Mapping> {
    if 1 <= p < low then KernelPage(p)
    else if KERN_PAGE + ks <= p < KERN_PAGE + ke then KernelPage(p - KERN_PAGE)
    else None
  }

  /** Pages of identity map: all of RAM below 8 MiB. */
  function LowPages(npages: nat): nat { Min(npages, PMAP_LOW_END / PAGE_SIZE) }

  lemma LowEndPages(npages: nat)
    ensures var lowEnd := Min(npages * PAGE_SIZE, PMAP_LOW_END);
            lowEnd % PAGE_SIZE == 0 && lowEnd / PAGE_SIZE == LowPages(npages) && PagesUpTo(lowEnd) == LowPages(npages)
  {
    var lowEnd := Min(npages * PAGE_SIZE, PMAP_LOW_END);
    assert lowEnd == LowPages(npages) * PAGE_SIZE;
  }

  function PagesUpTo(a: nat): nat { (a + PAGE_SIZE - 1) / PAGE_SIZE }

  // ---------------------------------------------------------------- one range of pages

  /** Directory entry i serves one of the pages a .. b. */
  predicate Serves(i: nat, a: nat, b: nat) { a < b && a / ENTRIES <= i <= (b - 1) / ENTRIES }

  /** The map f is f0 with pages a .. b mapped kernel read-write, each `off` pages above its frame; the directory d has
      the tables that takes over d0. */
  ghost predicate RangeMapped(f0: seq<Option<Mapping>>, d0: seq<u32>, f: seq<Option<Mapping>>, d: seq<u32>, a: nat,
      b: nat, off: nat)
    requires off <= a
  {
    && |f0| == |f| == VPAGES && |d0| == |d| == ENTRIES
    && (forall p :: 0 <= p < VPAGES ==> f[p] == if a <= p < b then KernelPage(p - off) else f0[p])
    && (forall i :: 0 <= i < ENTRIES ==> (Present(d[i]) <==> Present(d0[i]) || Serves(i, a, b)))
  }

  /** In figures: within the range every page goes `off` pages down, for the kernel to read and write, not for user
      mode; outside it nothing changes. */
  lemma RangeExact(f0: seq<Option<Mapping>>, d0: seq<u32>, f: seq<Option<Mapping>>, d: seq<u32>, a: nat, b: nat,
      off: nat)
    requires off <= a && RangeMapped(f0, d0, f, d, a, b, off)
    ensures |f| == |f0| == 0x10_0000
    ensures forall p {:trigger f[p]} :: 0 <= p < 0x10_0000 ==>
              f[p] == if a <= p < b then Some(Mapping(p - off, rw := true, user := false)) else f0[p]
  {
  }

  /** Tables that mapping pages a .. b makes under directory d. */
  function NewTables(d: seq<u32>, a: nat, b: nat): nat
    requires b <= VPAGES && |d| == ENTRIES
    decreases b
  {
    if b <= a then 0
    else
      var q := b - 1;
      NewTables(d, a, q) + if (q == a || q % ENTRIES == 0) && !Present(d[q / ENTRIES]) then 1 else 0
  }

  lemma {:induction false} NewTablesGrows(d: seq<u32>, a: nat, b: nat, c: nat)
    requires b <= c <= VPAGES && |d| == ENTRIES
    ensures NewTables(d, a, b) <= NewTables(d, a, c)
    decreases c
  {
    if b < c { NewTablesGrows(d, a, b, c - 1); }
  }

  lemma SamePde(q: nat)
    requires 0 < q
    ensures q / ENTRIES == (q - 1) / ENTRIES + if q % ENTRIES == 0 then 1 else 0
  {
  }

  /** The next page needs a table exactly when its directory entry is absent by now. */
  lemma NewTablesStep(f0: seq<Option<Mapping>>, d0: seq<u32>, f: seq<Option<Mapping>>, d: seq<u32>, a: nat, q: nat,
      off: nat)
    requires off <= a <= q < VPAGES && RangeMapped(f0, d0, f, d, a, q, off)
    ensures NewTables(d0, a, q + 1) == NewTables(d0, a, q) + if Present(d[q / ENTRIES]) then 0 else 1
  {
    if a < q { SamePde(q); }
  }

  lemma RangeStep(f0: seq<Option<Mapping>>, d0: seq<u32>, f: seq<Option<Mapping>>, d: seq<u32>, d': seq<u32>, a: nat,
      q: nat, off: nat)
    requires off <= a <= q < VPAGES && RangeMapped(f0, d0, f, d, a, q, off) && |d'| == ENTRIES
    requires forall i :: 0 <= i < ENTRIES ==> (Present(d'[i]) <==> Present(d[i]) || i == q / ENTRIES)
    ensures RangeMapped(f0, d0, f[q := KernelPage(q - off)], d', a, q + 1, off)
  {
    if a < q { SamePde(q); }
    forall i | 0 <= i < ENTRIES ensures Present(d'[i]) <==> Present(d0[i]) || Serves(i, a, q + 1) {
      assert Serves(i, a, q + 1) <==> Serves(i, a, q) || i == q / ENTRIES;
    }
  }

  /** Directory and tables lie in frames of s. */
  ghost predicate AllFrom(m: seq<u8>, dir: nat, s: set<nat>)
    requires |m| == PHYS_SIZE && dir + PAGE_SIZE <= |m|
  {
    FrameOf(dir) in s
    && forall i :: 0 <= i < ENTRIES && Present(Directory(m, dir)[i]) ==> FrameOf(Directory(m, dir)[i]) in s
  }

  /** Pages that are neither bitmap nor in s hold what they held. */
  ghost predicate ReservedKept(m: seq<u8>, m': seq<u8>, s: set<nat>, lo: nat, hi: nat) {
    |m| == |m'| &&
    forall t: nat :: t % PAGE_SIZE == 0 && t + PAGE_SIZE <= |m| && FrameOf(t) !in s && PageClear(t, lo, hi)
      ==> Agree(m, m', t, t + PAGE_SIZE)
  }

  lemma ReservedKeptTrans(m: seq<u8>, m': seq<u8>, m'': seq<u8>, s: set<nat>, lo: nat, hi: nat)
    requires ReservedKept(m, m', s, lo, hi) && ReservedKept(m', m'', s, lo, hi)
    ensures ReservedKept(m, m'', s, lo, hi)
  {
    forall t: nat | t % PAGE_SIZE == 0 && t + PAGE_SIZE <= |m| && FrameOf(t) !in s && PageClear(t, lo, hi)
      ensures Agree(m, m'', t, t + PAGE_SIZE)
    {
      assert Agree(m, m', t, t + PAGE_SIZE) && Agree(m', m'', t, t + PAGE_SIZE);
    }
  }

  /** Of the pages s that could be handed out, only those handed out by now have been written to; the others, and all
      pages that were never free, hold what they held in m. */
  ghost predicate OnlyTaken(pm: Pmap, m: seq<u8>, s: set<nat>)
    reads pm, pm.pmm, pm.pmm.ram
  {
    ReservedKept(m, pm.pmm.ram[..], s - pm.pmm.free, pm.pmm.bitmap, pm.BitmapEnd())
  }

  /** Changes confined to bitmap and tables do not reach reserved pages, when the tables come from s. */
  lemma OthersAreReserved(m: seq<u8>, m': seq<u8>, dir: nat, s: set<nat>, lo: nat, hi: nat)
    requires |m'| == PHYS_SIZE && dir + PAGE_SIZE <= |m'| && OthersKept(m, m', dir, lo, hi) && AllFrom(m', dir, s)
    ensures ReservedKept(m, m', s, lo, hi)
  {
    AllDirectory(m', dir);
    forall t: nat | t % PAGE_SIZE == 0 && t + PAGE_SIZE <= |m| && FrameOf(t) !in s && PageClear(t, lo, hi)
      ensures Agree(m, m', t, t + PAGE_SIZE)
    {
      forall i | 0 <= i < ENTRIES && Present(Entry(m', dir, i)) ensures TableAt(Entry(m', dir, i)) != t {
        assert FrameOf(TableAt(Entry(m', dir, i))) == FrameOf(Entry(m', dir, i));
      }
      assert OutsideTree(m', dir, t);
    }
  }

  /** Frame f can be touched at its own address, under boot.S's map or under f. */
  predicate InReach(map_: seq<Option<Mapping>>, loaded: bool, f: nat) {
    if !loaded then f < BOOT_PAGES else f < |map_| && map_[f].Some? && map_[f].value.frame == f
  }

  lemma ReachIsInReach(m: seq<u8>, dir: nat, loaded: bool, f: nat)
    requires |m| == PHYS_SIZE && dir + PAGE_SIZE <= PHYS_SIZE
    ensures AtItsAddress(m, dir, loaded, f) == InReach(Flat(m, dir), loaded, f)
  {
    if f < VPAGES { FlatAt(m, dir, f); }
  }

  /** Where a loop that maps pages stands: what it has mapped, and that its tables are the next frames of s in order. */
  ghost predicate Stage(f0: seq<Option<Mapping>>, d0: seq<u32>, f: seq<Option<Mapping>>, d: seq<u32>, loaded: bool,
                        a: nat, q: nat, off: nat, s: set<nat>, g: nat, taken: nat, limit: nat)
  {
    && off <= a <= q <= VPAGES && RangeMapped(f0, d0, f, d, a, q, off)
    && Below(s, g) == taken + NewTables(d0, a, q)
    && (forall i :: 0 <= i < ENTRIES && Present(d[i]) ==> FrameOf(d[i]) in s)
    && (forall x :: x in s ==> (InReach(f, loaded, x) <==> x < limit))
  }

  ghost predicate Along(pm: Pmap, m0: seq<u8>, a: nat, q: nat, off: nat, s: set<nat>, g: nat, taken: nat, limit: nat)
    reads pm, pm.pmm, pm.pmm.ram
  {
    && pm.Valid() && pm.Reachable() && |m0| == PHYS_SIZE && FrameOf(pm.pgdir) in s
    && Ascending(s, pm.pmm.free, pm.pmm.allocCursor, pm.pmm.npagesTotal, g)
    && Stage(Flat(m0, pm.pgdir), Directory(m0, pm.pgdir), pm.Map(), pm.Dir(), pm.loaded, a, q, off, s, g, taken, limit)
  }

  /** Below the limit s has enough frames for the tables that pages a .. b take. */
  ghost predicate Enough(d: seq<u32>, a: nat, b: nat, s: set<nat>, taken: nat, limit: nat)
    requires b <= VPAGES && |d| == ENTRIES
  {
    NewTables(d, a, b) == 0 || Below(s, limit) >= taken + NewTables(d, a, b)
  }

  function Max(a: nat, b: nat): nat { if a < b then b else a }

  /** pmap_map(va, pa, PTE_RW) by page numbers. */
  method MapOne(pm: Pmap, q: nat, f: nat) returns (r: MapOutcome)
    requires pm.Valid() && pm.Reachable() && q < VPAGES && f < VPAGES
    modifies pm.pmm.ram, pm.pmm`npagesFree, pm.pmm`allocCursor, pm.pmm`free
    ensures pm.Valid() && r == old(pm.Outcome(q))
    ensures r == NoFrame ==>
      pm.SameState(old(pm.pmm.ram[..]), old(pm.pmm.free), old(pm.pmm.allocCursor), old(pm.pmm.npagesFree))
    ensures r == Mapped ==> pm.Map() == old(pm.Map())[q := KernelPage(f)]
    ensures r == Mapped ==>
              if old(Present(pm.Dir()[q / ENTRIES])) then
                pm.Dir() == old(pm.Dir()) && pm.pmm.free == old(pm.pmm.free)
                && pm.pmm.allocCursor == old(pm.pmm.allocCursor) && pm.pmm.npagesFree == old(pm.pmm.npagesFree)
              else
                var next := old(pm.pmm.Next());
                && next < PHYS_PAGES && pm.Dir() == old(pm.Dir())[q / ENTRIES := PdeFor(next)]
                && next in old(pm.pmm.free) && pm.pmm.free == old(pm.pmm.free) - {next}
                && pm.pmm.allocCursor == After(next, pm.pmm.npagesTotal)
                   && pm.pmm.npagesFree == old(pm.pmm.npagesFree) - 1
    ensures r == Mapped && pm.Harmless(q, f) ==> pm.Reachable()
    ensures OthersKept(old(pm.pmm.ram[..]), pm.pmm.ram[..], pm.pgdir, pm.pmm.bitmap, pm.BitmapEnd())
  {
    PageNumbers(q, f);
    DirectoryAt(pm.pmm.ram[..], pm.pgdir, q / ENTRIES);
    r := pm.MapAt(q * PAGE_SIZE, f * PAGE_SIZE, PTE_RW);
  }

  lemma AllBelow(s: set<nat>, free: set<nat>, cursor: nat, npages: nat, g: nat)
    requires Ascending(s, free, cursor, npages, g)
    ensures free <= s && forall p :: p in s ==> p < npages
  {
  }

  /** The lowest frame of s left, if the page needs a table: what mapping it takes from s. */
  lemma NextFrame(pm: Pmap, q: nat, s: set<nat>, g: nat, limit: nat)
    requires pm.Valid() && q < VPAGES
    requires Ascending(s, pm.pmm.free, pm.pmm.allocCursor, pm.pmm.npagesTotal, g)
    requires forall x :: x in s ==> (InReach(pm.Map(), pm.loaded, x) <==> x < limit)
    ensures pm.Dir()[q / ENTRIES] == pm.Pde(q / ENTRIES)
    ensures pm.pmm.free == {} <==> Below(s, g) == |s|
    ensures Below(s, limit) <= |s|
    ensures pm.pmm.free != {} ==>
              var p := pm.pmm.Next();
              && p in s && Below(s, p + 1) == Below(s, g) + 1
              && Ascending(s, pm.pmm.free - {p}, After(p, pm.pmm.npagesTotal), pm.pmm.npagesTotal, p + 1)
              && (pm.Reaches(p) <==> Below(s, limit) >= Below(s, g) + 1)
  {
    hide Ascending, TreeOwned, FreeClear, NextFree, InReach, Below;
    var free, cursor, n := pm.pmm.free, pm.pmm.allocCursor, pm.pmm.npagesTotal;
    AllBelow(s, free, cursor, n, g);
    DirectoryAt(pm.pmm.ram[..], pm.pgdir, q / ENTRIES);
    AscendingEmpty(s, free, cursor, n, g);
    BelowAtMost(s, limit, n);
    if free != {} {
      AscendingNext(s, free, cursor, n, g, limit);
      ReachIsInReach(pm.pmm.ram[..], pm.pgdir, pm.loaded, pm.pmm.Next());
    }
  }

  /** Mapping one page while frames come in order: it fails exactly when a table is needed and s has none below the
      limit. */
  method MapNext(pm: Pmap, q: nat, f: nat, ghost s: set<nat>, ghost g: nat, ghost limit: nat)
      returns (r: MapOutcome, ghost g': nat)
    requires pm.Valid() && pm.Reachable() && q < VPAGES && f < VPAGES && (pm.loaded ==> f == q)
    requires Ascending(s, pm.pmm.free, pm.pmm.allocCursor, pm.pmm.npagesTotal, g)
    requires forall x :: x in s ==> (InReach(pm.Map(), pm.loaded, x) <==> x < limit)
    modifies pm.pmm.ram, pm.pmm`npagesFree, pm.pmm`allocCursor, pm.pmm`free
    ensures pm.Valid()
    ensures r == Mapped <==> old(Present(pm.Dir()[q / ENTRIES])) || Below(s, limit) >= Below(s, g) + 1
    ensures r == NoFrame <==> !old(Present(pm.Dir()[q / ENTRIES])) && Below(s, g) == |s|
    ensures r == Mapped ==>
              && pm.Reachable() && pm.Map() == old(pm.Map())[q := KernelPage(f)]
              && Ascending(s, pm.pmm.free, pm.pmm.allocCursor, pm.pmm.npagesTotal, g')
              && NewEntry(old(pm.Dir()), pm.Dir(), q / ENTRIES, s, g, g') && pm.pmm.free <= old(pm.pmm.free)
    ensures OthersKept(old(pm.pmm.ram[..]), pm.pmm.ram[..], pm.pgdir, pm.pmm.bitmap, pm.BitmapEnd())
  {
    hide Below, Ascending, TreeOwned, AllReached, FreeClear, NextFree;
    ghost var d, next := pm.Dir(), pm.pmm.Next();
    NextFrame(pm, q, s, g, limit);
    r := MapOne(pm, q, f);
    g' := if Present(d[q / ENTRIES]) then g else next + 1;
  }

  /** Directory entry i is there: as before, or over the next frame of s. */
  ghost predicate NewEntry(d: seq<u32>, d': seq<u32>, i: nat, s: set<nat>, g: nat, g': nat) {
    |d| == ENTRIES && i < ENTRIES &&
    if Present(d[i]) then d' == d && g' == g
    else exists t :: t in s && t < PHYS_PAGES && d' == d[i := PdeFor(t)] && Below(s, g') == Below(s, g) + 1
  }

  /** One page further, under a table that was there or over the next frame of s. */
  lemma StageStep(f0: seq<Option<Mapping>>, d0: seq<u32>, f: seq<Option<Mapping>>, f': seq<Option<Mapping>>,
                  d: seq<u32>, d': seq<u32>, loaded: bool, a: nat, q: nat, off: nat, s: set<nat>, g: nat, g': nat,
                      taken: nat, limit: nat)
    requires q < VPAGES && Stage(f0, d0, f, d, loaded, a, q, off, s, g, taken, limit) && (loaded ==> q !in s)
    requires NewEntry(d, d', q / ENTRIES, s, g, g')
    requires f' == f[q := KernelPage(q - off)]
    ensures Stage(f0, d0, f', d', loaded, a, q + 1, off, s, g', taken, limit)
  {
    NewTablesStep(f0, d0, f, d, a, q, off);
    RangeStep(f0, d0, f, d, d', a, q, off);
    forall x | x in s ensures InReach(f', loaded, x) == InReach(f, loaded, x) {
      if loaded { assert x != q; }
    }
  }

  /** One round: the page is mapped exactly when it needs no table or the next frame of s is below the limit. */
  method MapPage(pm: Pmap, q: nat, off: nat, ghost m0: seq<u8>, ghost a: nat, ghost s: set<nat>, ghost g: nat,
                 ghost taken: nat, ghost limit: nat) returns (r: MapOutcome, ghost g': nat)
    requires q < VPAGES && Along(pm, m0, a, q, off, s, g, taken, limit)
    requires pm.loaded ==> off == 0 && q !in s
    modifies pm.pmm.ram, pm.pmm`npagesFree, pm.pmm`allocCursor, pm.pmm`free
    ensures pm.pgdir + PAGE_SIZE <= |m0| == PHYS_SIZE
    ensures r == Mapped ==> Along(pm, m0, a, q + 1, off, s, g', taken, limit) && pm.pmm.free <= old(pm.pmm.free)
    ensures var d0 := Directory(m0, pm.pgdir);
            && (r == Mapped <==>
                  || NewTables(d0, a, q + 1) == NewTables(d0, a, q)
                  || Below(s, limit) >= taken + NewTables(d0, a, q + 1))
            && (r == NoFrame <==> NewTables(d0, a, q + 1) != NewTables(d0, a, q) && Below(s, g) == |s|)
    ensures OthersKept(old(pm.pmm.ram[..]), pm.pmm.ram[..], pm.pgdir, pm.pmm.bitmap, pm.BitmapEnd())
  {
    hide RangeMapped, NewTables, Below, Ascending, AllReached, NewEntry, InReach;
    ghost var f0, d0, f, d := Flat(m0, pm.pgdir), Directory(m0, pm.pgdir), pm.Map(), pm.Dir();
    NewTablesStep(f0, d0, f, d, a, q, off);
    r, g' := MapNext(pm, q, q - off, s, g, limit);
    if r == Mapped {
      StageStep(f0, d0, f, pm.Map(), d, pm.Dir(), pm.loaded, a, q, off, s, g, g', taken, limit);
    }
  }

  /** What a loop over pages a .. b comes to, known from its round at page q. */
  lemma RangeOutcome(d0: seq<u32>, a: nat, q: nat, b: nat, s: set<nat>, taken: nat, limit: nat)
    requires |d0| == ENTRIES && a <= q < b <= VPAGES
    requires NewTables(d0, a, q + 1) != NewTables(d0, a, q) && Below(s, limit) < taken + NewTables(d0, a, q + 1)
    requires NewTables(d0, a, q) == 0 || Below(s, limit) >= taken + NewTables(d0, a, q)
    ensures !Enough(d0, a, b, s, taken, limit)
    ensures taken + NewTables(d0, a, q) == Max(Below(s, limit), taken)
  {
    NewTablesGrows(d0, a, q + 1, b);
  }

  lemma ReservedStep(pm: Pmap, m: seq<u8>, m1: seq<u8>, s: set<nat>, free: set<nat>)
    requires pm.Valid() && AllFrom(pm.pmm.ram[..], pm.pgdir, s) && pm.pmm.free <= free
    requires OthersKept(m1, pm.pmm.ram[..], pm.pgdir, pm.pmm.bitmap, pm.BitmapEnd())
    requires ReservedKept(m, m1, s - free, pm.pmm.bitmap, pm.BitmapEnd())
    ensures OnlyTaken(pm, m, s)
  {
    AllDirectory(pm.pmm.ram[..], pm.pgdir);
    OthersAreReserved(m1, pm.pmm.ram[..], pm.pgdir, s - pm.pmm.free, pm.pmm.bitmap, pm.BitmapEnd());
    ReservedKeptTrans(m, m1, pm.pmm.ram[..], s - pm.pmm.free, pm.pmm.bitmap, pm.BitmapEnd());
  }

  /** The loop over pages a .. b has come to q. */
  ghost predicate Progress(pm: Pmap, m: seq<u8>, m0: seq<u8>, a: nat, q: nat, off: nat, s: set<nat>, g: nat, taken: nat,
      limit: nat)
    reads pm, pm.pmm, pm.pmm.ram
  {
    && Along(pm, m0, a, q, off, s, g, taken, limit) && OnlyTaken(pm, m, s)
    && Enough(Directory(m0, pm.pgdir), a, q, s, taken, limit)
  }

  /** One round of it; a failing one decides the whole. */
  method MapReserved(pm: Pmap, q: nat, off: nat, ghost m: seq<u8>, ghost m0: seq<u8>, ghost a: nat, ghost b: nat,
      ghost s: set<nat>, ghost g: nat, ghost taken: nat, ghost limit: nat) returns (r: MapOutcome, ghost g': nat)
    requires q < b <= VPAGES && Progress(pm, m, m0, a, q, off, s, g, taken, limit)
    requires pm.loaded ==> off == 0 && q !in s
    modifies pm.pmm.ram, pm.pmm`npagesFree, pm.pmm`allocCursor, pm.pmm`free
    ensures pm.pgdir + PAGE_SIZE <= |m0| == PHYS_SIZE
    ensures r == Mapped ==> Progress(pm, m, m0, a, q + 1, off, s, g', taken, limit)
    ensures r != Mapped ==> !Enough(Directory(m0, pm.pgdir), a, b, s, taken, limit)
    ensures r != Mapped ==> (r == NoFrame <==> |s| == Max(Below(s, limit), taken))
  {
    hide Along, Stage, AllFrom, ReservedKept, Below, NewTables, OthersKept, Pmap.Valid;
    ghost var m1, free := pm.pmm.ram[..], pm.pmm.free;
    FromStage(pm, m0, a, q, off, s, g, taken, limit);
    assert ReservedKept(m, m1, s - free, pm.pmm.bitmap, pm.BitmapEnd());
    r, g' := MapPage(pm, q, off, m0, a, s, g, taken, limit);
    if r == Mapped {
      FromStage(pm, m0, a, q + 1, off, s, g', taken, limit);
      ReservedStep(pm, m, m1, s, free);
    } else {
      RangeOutcome(Directory(m0, pm.pgdir), a, q, b, s, taken, limit);
    }
  }

  lemma FromStage(pm: Pmap, m0: seq<u8>, a: nat, q: nat, off: nat, s: set<nat>, g: nat, taken: nat, limit: nat)
    requires Along(pm, m0, a, q, off, s, g, taken, limit)
    ensures pm.Valid() && AllFrom(pm.pmm.ram[..], pm.pgdir, s)
    ensures a <= q <= VPAGES && |m0| == PHYS_SIZE && Below(s, g) == taken + NewTables(Directory(m0, pm.pgdir), a, q)
  {
  }

  lemma ProgressStart(pm: Pmap, m: seq<u8>, m0: seq<u8>, a: nat, off: nat, s: set<nat>, g: nat, taken: nat, limit: nat)
    requires Along(pm, m0, a, a, off, s, g, taken, limit) && m0 == pm.pmm.ram[..] && OnlyTaken(pm, m, s)
    ensures Progress(pm, m, m0, a, a, off, s, g, taken, limit) && |m0| == PHYS_SIZE && pm.pgdir + PAGE_SIZE <= PHYS_SIZE
  {
  }

  /** The loop that maps page after page up to an address, each `off` pages above its frame: pmap_init runs it for the
      low range and for the kernel, kmain for the framebuffer. It succeeds exactly when s has frames enough for the new
      tables below the limit. */
  method MapRange(pm: Pmap, first: nat, to: nat, off: nat, ghost last: nat, ghost m: seq<u8>, ghost m0: seq<u8>,
                  ghost s: set<nat>, ghost g: nat, ghost taken: nat, ghost limit: nat)
    returns (r: MapOutcome, ghost g': nat, ghost end: nat)
    requires last == PagesUpTo(to) && off + last <= VPAGES && off + first <= VPAGES && m0 == pm.pmm.ram[..]
    requires Along(pm, m0, off + first, off + first, off, s, g, taken, limit) && OnlyTaken(pm, m, s)
    requires pm.loaded ==> off == 0 && forall q :: first <= q < last ==> q !in s
    modifies pm.pmm.ram, pm.pmm`npagesFree, pm.pmm`allocCursor, pm.pmm`free
    ensures |m0| == PHYS_SIZE && pm.pgdir + PAGE_SIZE <= PHYS_SIZE && end == Max(off + first, off + last)
    ensures r == Mapped ==> Progress(pm, m, m0, off + first, end, off, s, g', taken, limit)
    ensures r == Mapped ==> forall p {:trigger pm.Map()[p]} :: 0 <= p < 0x10_0000 ==>
              pm.Map()[p] == if off + first <= p < off + last then Some(Mapping(p - off, rw := true, user := false))
                             else Flat(m0, pm.pgdir)[p]
    ensures r != Mapped ==> !Enough(Directory(m0, pm.pgdir), off + first, off + last, s, taken, limit)
    ensures r != Mapped ==> (r == NoFrame <==> |s| == Max(Below(s, limit), taken))
  {
    hide Along, Progress, Enough, NewTables;
    ghost var a, b := off + first, off + last;
    var addr, q := first * PAGE_SIZE, off + first;
    g', end := g, Max(a, b);
    ProgressStart(pm, m, m0, a, off, s, g, taken, limit);
    while addr < to
      invariant addr == (q - off) * PAGE_SIZE && (addr < to <==> q < b) && a <= q <= Max(a, b)
      invariant Progress(pm, m, m0, a, q, off, s, g', taken, limit)
    {
      r, g' := MapReserved(pm, q, off, m, m0, a, b, s, g', taken, limit);
      if r != Mapped {
        return;
      }
      addr, q := addr + PAGE_SIZE, q + 1;
    }
    end := q;
    r := Mapped;
    ProgressExact(pm, m, m0, a, q, off, s, g', taken, limit);
  }

  lemma ProgressExact(pm: Pmap, m: seq<u8>, m0: seq<u8>, a: nat, q: nat, off: nat, s: set<nat>, g: nat, taken: nat,
      limit: nat)
    requires Progress(pm, m, m0, a, q, off, s, g, taken, limit)
    ensures |m0| == PHYS_SIZE && pm.pgdir + PAGE_SIZE <= PHYS_SIZE && off <= a && pm.Valid()
    ensures forall p {:trigger pm.Map()[p]} :: 0 <= p < 0x10_0000 ==>
              pm.Map()[p] == if a <= p < q then Some(Mapping(p - off, rw := true, user := false))
                             else Flat(m0, pm.pgdir)[p]
  {
    hide NewTables, Below, Enough, OnlyTaken, Ascending, RangeMapped, InReach;
    RangeExact(Flat(m0, pm.pgdir), Directory(m0, pm.pgdir), pm.Map(), pm.Dir(), a, q, off);
  }

  /** Frames have come from s in order, those below the limit are in reach, and none beyond it has been used yet. */
  ghost predicate Underway(pm: Pmap, s: set<nat>, g: nat, limit: nat)
    reads pm, pm.pmm, pm.pmm.ram
  {
    && pm.Valid() && pm.Reachable() && AllFrom(pm.pmm.ram[..], pm.pgdir, s)
    && Ascending(s, pm.pmm.free, pm.pmm.allocCursor, pm.pmm.npagesTotal, g) && Below(s, g) <= Below(s, limit)
    && forall x :: x in s ==> (InReach(pm.Map(), pm.loaded, x) <==> x < limit)
  }

  /** A loop about to start, over the memory as it is. */
  lemma AtStart(pm: Pmap, m0: seq<u8>, a: nat, off: nat, s: set<nat>, g: nat, limit: nat)
    requires Underway(pm, s, g, limit) && m0 == pm.pmm.ram[..] && off <= a <= VPAGES
    ensures Along(pm, m0, a, a, off, s, g, Below(s, g), limit)
    ensures |m0| == PHYS_SIZE && pm.pgdir + PAGE_SIZE <= PHYS_SIZE && Below(s, g) <= Below(s, limit)
  {
  }

  /** What the whole loop comes to. */
  lemma RangeEnd(pm: Pmap, m: seq<u8>, m0: seq<u8>, a: nat, b: nat, off: nat, s: set<nat>, g: nat, taken: nat,
      limit: nat)
    requires a <= VPAGES && b <= VPAGES && Progress(pm, m, m0, a, Max(a, b), off, s, g, taken, limit)
             && taken <= Below(s, limit)
    ensures Underway(pm, s, g, limit) && |m0| == PHYS_SIZE && off <= a
    ensures RangeMapped(Flat(m0, pm.pgdir), Directory(m0, pm.pgdir), pm.Map(), pm.Dir(), a, b, off)
    ensures OnlyTaken(pm, m, s)
    ensures Below(s, g) == taken + NewTables(Directory(m0, pm.pgdir), a, b) <= Below(s, limit)
  {
    var d0, d := Directory(m0, pm.pgdir), pm.Dir();
    EmptyRange(d0, a, b);
    forall i | 0 <= i < ENTRIES ensures Present(d[i]) <==> Present(d0[i]) || Serves(i, a, b) {
      assert Serves(i, a, Max(a, b)) <==> Serves(i, a, b);
    }
  }

  lemma EmptyRange(d: seq<u32>, a: nat, b: nat)
    requires |d| == ENTRIES && a <= VPAGES && b <= VPAGES
    ensures NewTables(d, a, Max(a, b)) == NewTables(d, a, b)
  {
    assert b < a ==> NewTables(d, a, b) == 0 == NewTables(d, a, a);
  }

  /** A failure means too few frames of s below the limit. */
  lemma TooFew(d: seq<u32>, a: nat, b: nat, s: set<nat>, taken: nat, limit: nat)
    requires |d| == ENTRIES && b <= VPAGES && taken <= Below(s, limit) && !Enough(d, a, b, s, taken, limit)
    ensures Below(s, limit) < taken + NewTables(d, a, b) && Max(Below(s, limit), taken) == Below(s, limit)
  {
  }

  /** The loop as a whole: it fails exactly when s has not frames enough for the new tables below the limit. */
  method MapPages(pm: Pmap, first: nat, to: nat, off: nat, ghost b: nat, ghost m: seq<u8>, ghost m0: seq<u8>,
      ghost s: set<nat>, ghost g: nat, ghost limit: nat) returns (r: MapOutcome, ghost g': nat)
    requires b == off + PagesUpTo(to) <= VPAGES && off + first <= VPAGES && m0 == pm.pmm.ram[..]
    requires Underway(pm, s, g, limit) && OnlyTaken(pm, m, s)
    requires pm.loaded ==> off == 0 && forall q :: first <= q < b ==> q !in s
    modifies pm.pmm.ram, pm.pmm`npagesFree, pm.pmm`allocCursor, pm.pmm`free
    ensures |m0| == PHYS_SIZE && pm.pgdir + PAGE_SIZE <= PHYS_SIZE
    ensures var n := NewTables(Directory(m0, pm.pgdir), off + first, b);
            && (r == Mapped <==> Below(s, limit) >= Below(s, g) + n)
            && (r == NoFrame <==> Below(s, limit) < Below(s, g) + n && |s| == Below(s, limit))
            && (r == Mapped ==> Below(s, g') == Below(s, g) + n)
    ensures r == Mapped ==>
              && Underway(pm, s, g', limit)
              && RangeMapped(Flat(m0, pm.pgdir), Directory(m0, pm.pgdir), pm.Map(), pm.Dir(), off + first, b, off)
              && OnlyTaken(pm, m, s)
    ensures r == Mapped ==> forall p {:trigger pm.Map()[p]} :: 0 <= p < 0x10_0000 ==>
              pm.Map()[p] == if off + first <= p < b then Some(Mapping(p - off, rw := true, user := false))
                             else Flat(m0, pm.pgdir)[p]
  {
    hide Along, Progress, Enough, NewTables, Underway, RangeMapped, OnlyTaken;
    ghost var a, end, taken := off + first, 0, Below(s, g);
    AtStart(pm, m0, a, off, s, g, limit);
    r, g', end := MapRange(pm, first, to, off, b - off, m, m0, s, g, taken, limit);
    if r == Mapped {
      RangeEnd(pm, m, m0, a, b, off, s, g', taken, limit);
      RangeExact(Flat(m0, pm.pgdir), Directory(m0, pm.pgdir), pm.Map(), pm.Dir(), a, b, off);
    } else {
      TooFew(Directory(m0, pm.pgdir), a, b, s, taken, limit);
    }
  }

  lemma PageNumbers(q: nat, f: nat)
    requires q < VPAGES && f < VPAGES
    ensures q * PAGE_SIZE / PAGE_SIZE == q && f * PAGE_SIZE / PAGE_SIZE == f && q * PAGE_SIZE < U32
            && f * PAGE_SIZE < U32
    ensures Writable(PTE_RW) && !UserBit(PTE_RW)
  {
  }

  // ---------------------------------------------------------------- pmap_init

  /** Directory entries that pages a .. b need. */
  function TablesFor(a: nat, b: nat): nat { if b <= a then 0 else (b - 1) / ENTRIES - a / ENTRIES + 1 }

  /** Tables of the definitive layout. */
  function LayoutTables(low: nat, ks: nat, ke: nat): nat {
    TablesFor(1, low) + TablesFor(KERN_PAGE + ks, KERN_PAGE + ke)
  }

  /** Where none of them is there yet, all of them are new. */
  lemma {:induction false} AllNew(d: seq<u32>, a: nat, b: nat)
    requires |d| == ENTRIES && b <= VPAGES && forall i :: 0 <= i < ENTRIES && Serves(i, a, b) ==> !Present(d[i])
    ensures NewTables(d, a, b) == TablesFor(a, b)
    decreases b
  {
    if a < b {
      var q := b - 1;
      assert Serves(q / ENTRIES, a, b);
      if a < q {
        SamePde(q);
        assert forall i :: Serves(i, a, q) ==> Serves(i, a, b);
      }
      AllNew(d, a, q);
    }
  }

  /** memset(pgdir, 0, PAGE_SIZE) on a frame just allocated: a tree that maps nothing. */
  method EmptyDirectory(pm: Pmap, ghost s: set<nat>)
    requires pm.pmm.Valid() && pm.pgdir % PAGE_SIZE == 0 && pm.pgdir + PAGE_SIZE <= PHYS_SIZE && !pm.loaded
    requires FreeClear(s, pm.pmm.bitmap, pm.BitmapEnd()) && FrameOf(pm.pgdir) in s
    requires pm.pmm.free == s - {FrameOf(pm.pgdir)}
    requires FrameOf(pm.pgdir) < BOOT_PAGES && pm.BitmapEnd() <= BOOT_REACH
    modifies pm.pmm.ram
    ensures pm.Valid() && pm.Reachable()
    ensures Blank(pm.Map(), pm.Dir())
    ensures SameOutside(old(pm.pmm.ram[..]), pm.pmm.ram[..], pm.pgdir, pm.pgdir + PAGE_SIZE)
  {
    ghost var m := pm.pmm.ram[..];
    Fill(pm.pmm.ram, pm.pgdir, PAGE_SIZE, 0);
    assert PageClear(FrameOf(pm.pgdir) * PAGE_SIZE, pm.pmm.bitmap, pm.BitmapEnd());
    pm.pmm.ValidElsewhere(m);
    ZeroDirectory(pm.pmm.ram[..], pm.pgdir);
  }

  /** Nothing is mapped and there are no tables. */
  ghost predicate Blank(f: seq<Option<Mapping>>, d: seq<u32>) {
    && |f| == VPAGES && |d| == ENTRIES
    && (forall i :: 0 <= i < ENTRIES ==> !Present(d[i])) && (forall p :: 0 <= p < VPAGES ==> f[p] == None)
  }

  lemma ZeroDirectory(m: seq<u8>, dir: nat)
    requires |m| == PHYS_SIZE && dir % PAGE_SIZE == 0 && dir + PAGE_SIZE <= PHYS_SIZE
    requires forall a :: dir <= a < dir + PAGE_SIZE ==> m[a] == 0
    ensures Tree(m, dir) && (forall i :: 0 <= i < ENTRIES ==> Entry(m, dir, i) == 0 == Directory(m, dir)[i])
    ensures forall p :: 0 <= p < VPAGES ==> Flat(m, dir)[p] == None
  {
    forall i | 0 <= i < ENTRIES ensures Entry(m, dir, i) == 0 == Directory(m, dir)[i] {
      ZeroWord(m, dir + 4 * i);
      DirectoryAt(m, dir, i);
    }
    forall p | 0 <= p < VPAGES ensures Flat(m, dir)[p] == None { FlatAt(m, dir, p); }
  }

  /** What pmap_init needs of the allocator it is given: page 0 taken, frames handed out from the lowest up, and the
      bitmap in RAM that both boot.S's tables and the identity map reach. */
  ghost predicate Ready(pmm: Pmm)
    reads pmm, pmm.ram
  {
    var end := pmm.bitmap + BitmapBytes(pmm.npagesTotal);
    && pmm.Valid() && FreeClear(pmm.free, pmm.bitmap, end) && 0 !in pmm.free && pmm.allocCursor == 0
    && PAGE_SIZE <= pmm.bitmap && end <= BOOT_REACH && end <= pmm.npagesTotal * PAGE_SIZE
  }

  /** The frame for the directory: the lowest free one, if there is one and boot.S's tables reach it. */
  method FirstTaken(pmm: Pmm, ghost s: set<nat>) returns (r: MapOutcome, pd: nat, ghost g: nat)
    requires Ready(pmm) && s == pmm.free
    modifies pmm.ram, pmm`npagesFree, pmm`allocCursor, pmm`free
    ensures pmm.Valid() && pmm.OnlyBitmap(old(pmm.ram[..]))
    ensures r == Mapped <==> Below(s, BOOT_PAGES) >= 1
    ensures r == NoFrame <==> |s| == 0
    ensures r == Mapped ==>
              && pd % PAGE_SIZE == 0 && pd + PAGE_SIZE <= PHYS_SIZE && FrameOf(pd) < BOOT_PAGES && FrameOf(pd) in s
              && pmm.free == s - {FrameOf(pd)} && Below(s, g) == 1
                 && Ascending(s, pmm.free, pmm.allocCursor, pmm.npagesTotal, g)
  {
    hide Below, Ascending;
    g := pmm.Next() + 1;
    FirstFrame(pmm, s);
    pd := pmm.Alloc();
    r := if pd == ENOMEM then NoFrame else if pd / PAGE_SIZE >= BOOT_PAGES then Unreachable else Mapped;
  }

  /** The directory: that frame, zeroed. */
  method NewDirectory(pmm: Pmm, ghost s: set<nat>) returns (r: MapOutcome, pm: Pmap?, ghost g: nat)
    requires Ready(pmm) && s == pmm.free
    modifies pmm.ram, pmm`npagesFree, pmm`allocCursor, pmm`free
    ensures pm != null <==> r == Mapped
    ensures r == Mapped <==> Below(s, BOOT_PAGES) >= 1
    ensures r == NoFrame <==> |s| == 0
    ensures r == Mapped ==>
              && fresh(pm) && pm.pmm == pmm && !pm.loaded && Below(s, g) == 1
              && Underway(pm, s, g, BOOT_PAGES) && Blank(pm.Map(), pm.Dir())
              && OnlyTaken(pm, old(pmm.ram[..]), s)
  {
    hide Underway, Below, Ascending, Blank, ReservedKept, Pmap.Valid, Pmap.Reachable, SameOutside, FreeClear,
         BitmapBytes, Pmm.Valid;
    pm := null;
    var pd;
    r, pd, g := FirstTaken(pmm, s);
    if r == Mapped {
      ghost var m1 := pmm.ram[..];
      pm := new Pmap(pmm, pd);
      EmptyDirectory(pm, s);
      UnderwayBlank(pm, s, g);
      DirectoryKept(old(pmm.ram[..]), m1, pmm.ram[..], pd, s - pmm.free, pmm.bitmap, pm.BitmapEnd());
    }
  }

  /** With an empty directory, every frame below 4 MiB is in reach, and no other. */
  lemma UnderwayBlank(pm: Pmap, s: set<nat>, g: nat)
    requires pm.Valid() && pm.Reachable() && !pm.loaded && FrameOf(pm.pgdir) in s && Blank(pm.Map(), pm.Dir())
    requires Ascending(s, pm.pmm.free, pm.pmm.allocCursor, pm.pmm.npagesTotal, g) && Below(s, g) <= Below(s, BOOT_PAGES)
    ensures Underway(pm, s, g, BOOT_PAGES)
  {
  }

  /** The first frame handed out is the lowest of all. */
  lemma FirstFrame(pmm: Pmm, s: set<nat>)
    requires pmm.Valid() && pmm.allocCursor == 0 && s == pmm.free
    ensures s == {} ==> Below(s, BOOT_PAGES) == 0 == |s|
    ensures s != {} ==>
              && |s| > 0 && pmm.Next() in s && Below(s, pmm.Next() + 1) == 1
              && (pmm.Next() < BOOT_PAGES <==> Below(s, BOOT_PAGES) >= 1)
              && Ascending(s, s - {pmm.Next()}, After(pmm.Next(), pmm.npagesTotal), pmm.npagesTotal, pmm.Next() + 1)
  {
    hide Pmm.Valid, NextFree, Ascending;
    pmm.FreeCount();
    WholeAscending(s, pmm.npagesTotal);
    BelowAtMost(s, BOOT_PAGES, pmm.npagesTotal);
    if s != {} { AscendingNext(s, s, 0, pmm.npagesTotal, 0, BOOT_PAGES); }
  }

  lemma WholeAscending(s: set<nat>, npages: nat)
    requires forall p :: p in s ==> p < npages
    ensures Ascending(s, s, 0, npages, 0) && Below(s, 0) == 0
  {
  }

  lemma DirectoryKept(m: seq<u8>, m1: seq<u8>, m': seq<u8>, dir: nat, s: set<nat>, lo: nat, hi: nat)
    requires dir % PAGE_SIZE == 0 && FrameOf(dir) in s
    requires SameOutside(m, m1, lo, hi) && SameOutside(m1, m', dir, dir + PAGE_SIZE)
    ensures ReservedKept(m, m', s, lo, hi)
  {
    forall t: nat | t % PAGE_SIZE == 0 && t + PAGE_SIZE <= |m| && FrameOf(t) !in s && PageClear(t, lo, hi)
      ensures Agree(m, m', t, t + PAGE_SIZE)
    {
      PagesApart(t, dir);
    }
  }

  predicate LayoutMap(f: seq<Option<Mapping>>, low: nat, ks: nat, ke: nat) {
    |f| == VPAGES && forall p :: 0 <= p < VPAGES ==> f[p] == Layout(low, ks, ke, p)
  }

  /** In figures: pages 1 .. low at their own address, the kernel's pages again 0xc0000 pages up, all of them for the
      kernel to read and write and none for user mode; page 0 and everything else unmapped. */
  lemma LayoutExact(f: seq<Option<Mapping>>, low: nat, ks: nat, ke: nat)
    requires LayoutMap(f, low, ks, ke)
    ensures |f| == 0x10_0000 && forall p {:trigger f[p]} :: 0 <= p < 0x10_0000 ==>
              f[p] == if 1 <= p < low then Some(Mapping(p, rw := true, user := false))
                      else if 0xc_0000 + ks <= p < 0xc_0000 + ke then
                        Some(Mapping(p - 0xc_0000, rw := true, user := false))
                      else None
  {
  }

  predicate LayoutDir(d: seq<u32>, low: nat, ks: nat, ke: nat) {
    |d| == ENTRIES && forall i :: 0 <= i < ENTRIES ==>
      (Present(d[i]) <==> Serves(i, 1, low) || Serves(i, KERN_PAGE + ks, KERN_PAGE + ke))
  }

  /** The low range and then the kernel, over a directory that was empty, make the layout and take all its tables. */
  lemma LayoutStarts(f0: seq<Option<Mapping>>, d0: seq<u32>, low: nat)
    requires Blank(f0, d0) && low <= VPAGES
    ensures NewTables(d0, 1, low) == TablesFor(1, low)
  {
    AllNew(d0, 1, low);
  }

  lemma LayoutHalf(f0: seq<Option<Mapping>>, d0: seq<u32>, f1: seq<Option<Mapping>>, d1: seq<u32>, low: nat, ks: nat,
      ke: nat)
    requires Blank(f0, d0) && low <= PMAP_LOW_END / PAGE_SIZE && KERN_PAGE + ke <= VPAGES
             && RangeMapped(f0, d0, f1, d1, 1, low, 0)
    ensures NewTables(d1, KERN_PAGE + ks, KERN_PAGE + ke) == TablesFor(KERN_PAGE + ks, KERN_PAGE + ke)
  {
    AllNew(d1, KERN_PAGE + ks, KERN_PAGE + ke);
  }

  lemma LayoutWhole(f0: seq<Option<Mapping>>, d0: seq<u32>, f1: seq<Option<Mapping>>, d1: seq<u32>,
                    f2: seq<Option<Mapping>>, d2: seq<u32>, low: nat, ks: nat, ke: nat)
    requires Blank(f0, d0) && low <= PMAP_LOW_END / PAGE_SIZE
    requires RangeMapped(f0, d0, f1, d1, 1, low, 0)
             && RangeMapped(f1, d1, f2, d2, KERN_PAGE + ks, KERN_PAGE + ke, KERN_PAGE)
    ensures LayoutMap(f2, low, ks, ke) && LayoutDir(d2, low, ks, ke)
  {
  }

  /** The two loops of pmap_init, over a directory that is still empty. */
  method MapLayout(pm: Pmap, lowEnd: nat, kernelStart: nat, kernelEnd: nat, ghost m: seq<u8>, ghost s: set<nat>,
      ghost g: nat)
    returns (r: MapOutcome, ghost g': nat)
    requires Underway(pm, s, g, BOOT_PAGES) && !pm.loaded && Below(s, g) == 1
    requires Blank(pm.Map(), pm.Dir()) && OnlyTaken(pm, m, s)
    requires lowEnd <= PMAP_LOW_END
    requires kernelStart % PAGE_SIZE == 0 && kernelStart <= kernelEnd && KERNBASE + kernelEnd + PAGE_SIZE <= U32
    modifies pm.pmm.ram, pm.pmm`npagesFree, pm.pmm`allocCursor, pm.pmm`free
    ensures var low, ks, ke := PagesUpTo(lowEnd), kernelStart / PAGE_SIZE, PagesUpTo(kernelEnd);
            var need := 1 + LayoutTables(low, ks, ke);
            && (r == Mapped <==> Below(s, BOOT_PAGES) >= need)
            && (r == NoFrame <==> Below(s, BOOT_PAGES) < need && |s| == Below(s, BOOT_PAGES))
            && (r == Mapped ==>
                  && Underway(pm, s, g', BOOT_PAGES) && Below(s, g') == need
                  && LayoutMap(pm.Map(), low, ks, ke) && LayoutDir(pm.Dir(), low, ks, ke)
                  && OnlyTaken(pm, m, s))
  {
    hide Underway, RangeMapped, NewTables, Blank, LayoutMap, LayoutDir, OnlyTaken, Below, TablesFor, Pmap.Valid,
         Pmap.Reachable;
    ghost var low, ks, ke := PagesUpTo(lowEnd), kernelStart / PAGE_SIZE, PagesUpTo(kernelEnd);
    UnderwayShape(pm, s, g, BOOT_PAGES);
    ghost var m0, f0, d0 := pm.pmm.ram[..], pm.Map(), pm.Dir();
    LayoutStarts(f0, d0, low);
    r, g' := MapPages(pm, 1, lowEnd, 0, low, m, m0, s, g, BOOT_PAGES);
    if r != Mapped {
      return;
    }
    ghost var m1, f1, d1 := pm.pmm.ram[..], pm.Map(), pm.Dir();
    LayoutHalf(f0, d0, f1, d1, low, ks, ke);
    r, g' := MapPages(pm, kernelStart / PAGE_SIZE, kernelEnd, KERN_PAGE, KERN_PAGE + ke, m, m1, s, g',
                      BOOT_PAGES);
    if r == Mapped {
      LayoutWhole(f0, d0, f1, d1, pm.Map(), pm.Dir(), low, ks, ke);
    }
  }

  lemma UnderwayShape(pm: Pmap, s: set<nat>, g: nat, limit: nat)
    requires Underway(pm, s, g, limit)
    ensures pm.pmm.ram.Length == PHYS_SIZE && pm.pgdir + PAGE_SIZE <= PHYS_SIZE && pm.Valid() && pm.Reachable()
    ensures Below(s, g) <= Below(s, limit)
  {
  }

  // ---------------------------------------------------------------- the switch to the new tables

  /** Once the definitive tables are in use, what is in reach is what they identity-map. */
  lemma Switched(m: seq<u8>, dir: nat, s: set<nat>, lo: nat, hi: nat, low: nat, ks: nat, ke: nat, npages: nat)
    requires |m| == PHYS_SIZE && dir + PAGE_SIZE <= PHYS_SIZE && dir % PAGE_SIZE == 0
    requires AllFrom(m, dir, s) && AllReached(m, dir, false, lo, hi) && LayoutMap(Flat(m, dir), low, ks, ke)
    requires low == LowPages(npages) && KERN_PAGE + ke <= VPAGES && forall p :: p in s ==> 0 < p < npages
    requires PAGE_SIZE <= lo && hi <= BOOT_REACH && hi <= npages * PAGE_SIZE
    ensures AllReached(m, dir, true, lo, hi)
    ensures forall x :: x in s ==> (InReach(Flat(m, dir), true, x) <==> x < low)
  {
    AllDirectory(m, dir);
    forall f: nat | Structural(m, dir, lo, hi, f) ensures AtItsAddress(m, dir, true, f) {
      assert AtItsAddress(m, dir, false, f);
      if f == FrameOf(dir) || TableFrame(m, dir, f) {
        assert f in s;
      }
      assert 1 <= f < low;
      FlatAt(m, dir, f);
    }
  }

  /** The tables in use: what they map, what they are made of, and that the code still reaches them. */
  ghost predicate Done(pm: Pmap, m: seq<u8>, s: set<nat>, g: nat, kernelStart: nat, kernelEnd: nat)
    reads pm, pm.pmm, pm.pmm.ram
  {
    var low, ks, ke := LowPages(pm.pmm.npagesTotal), kernelStart / PAGE_SIZE, PagesUpTo(kernelEnd);
    && pm.loaded && Underway(pm, s, g, low)
    && LayoutMap(pm.Map(), low, ks, ke) && LayoutDir(pm.Dir(), low, ks, ke)
    && OnlyTaken(pm, m, s)
  }

  /** The directory is loaded into cr3: from here on the new tables decide what is in reach. */
  method LoadTables(pm: Pmap, ghost m: seq<u8>, ghost s: set<nat>, ghost g: nat, ghost kernelStart: nat,
      ghost kernelEnd: nat)
    requires Underway(pm, s, g, BOOT_PAGES) && !pm.loaded && kernelEnd + KERNBASE + PAGE_SIZE <= U32
    requires 0 !in s && PAGE_SIZE <= pm.pmm.bitmap && pm.BitmapEnd() <= BOOT_REACH
             && pm.BitmapEnd() <= pm.pmm.npagesTotal * PAGE_SIZE
    requires var low, ks, ke := LowPages(pm.pmm.npagesTotal), kernelStart / PAGE_SIZE, PagesUpTo(kernelEnd);
             LayoutMap(pm.Map(), low, ks, ke) && LayoutDir(pm.Dir(), low, ks, ke)
    requires OnlyTaken(pm, m, s)
    modifies pm`loaded
    ensures Done(pm, m, s, g, kernelStart, kernelEnd)
  {
    hide ReservedKept, LayoutDir;
    ghost var low := LowPages(pm.pmm.npagesTotal);
    Switched(pm.pmm.ram[..], pm.pgdir, s, pm.pmm.bitmap, pm.BitmapEnd(),
             low, kernelStart / PAGE_SIZE, PagesUpTo(kernelEnd), pm.pmm.npagesTotal);
    BelowLow(s, g, low, pm.pmm.npagesTotal);
    pm.loaded := true;
  }

  /** All of the 4 MiB of boot.S that is RAM lies in the low range. */
  lemma BelowLow(s: set<nat>, g: nat, low: nat, npages: nat)
    requires Below(s, g) <= Below(s, BOOT_PAGES) && low == LowPages(npages) && forall p :: p in s ==> p < npages
    ensures Below(s, g) <= Below(s, low)
  {
    if BOOT_PAGES <= low {
      BelowMonotone(s, BOOT_PAGES, low);
    } else {
      BelowGap(s, low, BOOT_PAGES);
    }
  }

  /** pmap_init. It succeeds exactly when the directory and the tables of the layout, which take the lowest free frames,
      lie in boot.S's 4 MiB; it panics exactly when there are not even that many frames in all. */
  method Init(pmm: Pmm, kernelStart: nat, kernelEnd: nat) returns (r: MapOutcome, pm: Pmap?, ghost g: nat)
    requires Ready(pmm)
    requires kernelStart % PAGE_SIZE == 0 && kernelStart <= kernelEnd && KERNBASE + kernelEnd + PAGE_SIZE <= U32
    modifies pmm.ram, pmm`npagesFree, pmm`allocCursor, pmm`free
    ensures pm != null <==> r == Mapped
    ensures var s, low := old(pmm.free), LowPages(pmm.npagesTotal);
            var need := 1 + LayoutTables(low, kernelStart / PAGE_SIZE, PagesUpTo(kernelEnd));
            && (r == Mapped <==> Below(s, BOOT_PAGES) >= need)
            && (r == NoFrame <==> Below(s, BOOT_PAGES) < need && |s| == Below(s, BOOT_PAGES))
            && (r == Mapped ==> fresh(pm) && pm.pmm == pmm && Below(s, g) == need)
    ensures r == Mapped ==> Done(pm, old(pmm.ram[..]), old(pmm.free), g, kernelStart, kernelEnd)
    ensures r == Mapped ==> pm.Valid() && forall p {:trigger pm.Map()[p]} :: 0 <= p < 0x10_0000 ==>
              pm.Map()[p] == if 1 <= p < Min(pmm.npagesTotal, 2048) then Some(Mapping(p, rw := true, user := false))
                             else if 0xc_0000 + kernelStart / 4096 <= p < 0xc_0000 + (kernelEnd + 4095) / 4096 then
                               Some(Mapping(p - 0xc_0000, rw := true, user := false))
                             else None
  {
    hide Underway, LayoutMap, LayoutDir, OnlyTaken, Blank, Done, Below, LayoutTables, FreeClear, Pmm.Valid, Pmap.Valid,
         BitmapBytes;
    ghost var s, m := pmm.free, pmm.ram[..];
    r, pm, g := NewDirectory(pmm, s);
    if r != Mapped {
      return;
    }
    var ramBytes := pmm.npagesTotal * PAGE_SIZE;
    var lowEnd := if ramBytes < PMAP_LOW_END then ramBytes else PMAP_LOW_END;
    LowEndPages(pmm.npagesTotal);
    r, g := MapLayout(pm, lowEnd, kernelStart, kernelEnd, m, s, g);
    if r != Mapped {
      return r, null, g;
    }
    LoadTables(pm, m, s, g, kernelStart, kernelEnd);
    DoneExact(pm, m, s, g, kernelStart, kernelEnd);
  }

  lemma DoneExact(pm: Pmap, m: seq<u8>, s: set<nat>, g: nat, kernelStart: nat, kernelEnd: nat)
    requires Done(pm, m, s, g, kernelStart, kernelEnd)
    ensures pm.Valid() && forall p {:trigger pm.Map()[p]} :: 0 <= p < 0x10_0000 ==>
              pm.Map()[p] == if 1 <= p < Min(pm.pmm.npagesTotal, 2048) then Some(Mapping(p, rw := true, user := false))
                             else if 0xc_0000 + kernelStart / 4096 <= p < 0xc_0000 + (kernelEnd + 4095) / 4096 then
                               Some(Mapping(p - 0xc_0000, rw := true, user := false))
                             else None
  {
    hide LayoutDir, OnlyTaken, Underway;
    UnderwayShape(pm, s, g, LowPages(pm.pmm.npagesTotal));
    LayoutExact(pm.Map(), LowPages(pm.pmm.npagesTotal), kernelStart / PAGE_SIZE, PagesUpTo(kernelEnd));
  }

}
