/**
 The boot sequence of kmain put together: allocator, definitive page tables, framebuffer,
 trial mapping, heap window. It is shown from which inputs it goes through, and what it
 leaves of the memory that the boot loader handed over.
 */
module KernelBoot {
  import opened Words
  import opened Ram
  import opened PmmModule
  import opened FrameOrder
  import opened Multiboot
  import PmmBoot
  import opened PageTables
  import opened PmapModule
  import opened PmapInit
  import opened AddressSpace
  import opened KernelVm
  import opened KernelMemory
  import opened Framebuffer
  import opened VmmTrial

  /** Booted, a panic for want of memory, or a page fault. */
  datatype BootOutcome = Booted | NoMemory | Fault

  /** After boot no free page overlaps the bitmap, and page 0 is not free. */
  lemma BootFreeClear(m: seq<u8>, mbi: nat, kernelStart: nat, kernelEnd: nat)
    requires BlobOk(m, mbi) && kernelStart <= kernelEnd
    ensures var b := PmmBoot.BitmapAddr(m, mbi, kernelEnd);
            FreeClear(PmmBoot.BootFree(m, mbi, kernelStart, kernelEnd), b, b + BitmapBytes(PmmBoot.TotalPages(m, mbi)))
    ensures 0 !in PmmBoot.BootFree(m, mbi, kernelStart, kernelEnd)
  {
    var b := PmmBoot.BitmapAddr(m, mbi, kernelEnd);
    PmmBoot.BitmapClear(m, mbi, kernelEnd);
    forall p | p in PmmBoot.BootFree(m, mbi, kernelStart, kernelEnd)
      ensures PageClear(p * PAGE_SIZE, b, b + BitmapBytes(PmmBoot.TotalPages(m, mbi))) && p != 0
    {
      PmmBoot.FreeAfterBoot(m, mbi, kernelStart, kernelEnd, p);
    }
  }

  /** Byte a belongs to the kernel image, the boot blob or a module. */
  ghost predicate InBootData(m: seq<u8>, mbi: nat, kernelStart: nat, kernelEnd: nat, a: nat)
    requires BlobOk(m, mbi)
  {
    || kernelStart <= a < kernelEnd
    || mbi <= a < mbi + BlobSize(m, mbi)
    || exists t: nat, r :: BlobModule(m, mbi, t, r) && r.base <= a < r.base + r.len
  }

  /** The page of such a byte is not free and ends before the bitmap. */
  lemma BootDataReserved(m: seq<u8>, mbi: nat, kernelStart: nat, kernelEnd: nat, a: nat)
    requires BlobOk(m, mbi) && kernelStart <= kernelEnd && InBootData(m, mbi, kernelStart, kernelEnd, a)
    ensures a / PAGE_SIZE !in PmmBoot.BootFree(m, mbi, kernelStart, kernelEnd)
    ensures a / PAGE_SIZE * PAGE_SIZE + PAGE_SIZE <= PmmBoot.BitmapAddr(m, mbi, kernelEnd)
  {
    var p, b := a / PAGE_SIZE, PmmBoot.BitmapAddr(m, mbi, kernelEnd);
    hide TagsOk, BlobModule, PmmBoot.BootFree, PmmBoot.BitmapAddr;
    PmmBoot.FreeAfterBoot(m, mbi, kernelStart, kernelEnd, p);
    PmmBoot.BitmapClear(m, mbi, kernelEnd);
    if t: nat, r :| BlobModule(m, mbi, t, r) && r.base <= a < r.base + r.len { AllModulesExact(m, mbi, r); }
    assert a < b;
    PageBelow(a, b);
    if t: nat, r :| BlobModule(m, mbi, t, r) && r.base <= a < r.base + r.len {
      assert Touches(p, r.base, r.len);
    }
  }

  lemma PageBelow(a: nat, b: nat)
    requires a < b && b % PAGE_SIZE == 0
    ensures a / PAGE_SIZE * PAGE_SIZE + PAGE_SIZE <= b
  {
    assert b == PAGE_SIZE * (b / PAGE_SIZE);
  }

  /** Bytes of kernel, blob and modules survive when, beside the bitmap, only pages that were free were written. */
  lemma BootDataKept(m: seq<u8>, m': seq<u8>, mbi: nat, kernelStart: nat, kernelEnd: nat, taken: set<nat>, a: nat)
    requires BlobOk(m, mbi) && kernelStart <= kernelEnd && |m| == PHYS_SIZE && a < PHYS_SIZE
    requires InBootData(m, mbi, kernelStart, kernelEnd, a)
    requires var lo := PmmBoot.BitmapAddr(m, mbi, kernelEnd); var hi := lo + BitmapBytes(PmmBoot.TotalPages(m, mbi));
             taken <= PmmBoot.BootFree(m, mbi, kernelStart, kernelEnd) && ReservedKept(m, m', taken, lo, hi)
    ensures m'[a] == m[a]
  {
    hide InBootData, TagsOk, TagOk, PmmBoot.BootFree, PmmBoot.BitmapAddr, PmmBoot.TotalPages;
    BootDataReserved(m, mbi, kernelStart, kernelEnd, a);
    var t := a / PAGE_SIZE * PAGE_SIZE;
    assert t % PAGE_SIZE == 0 && FrameOf(t) == a / PAGE_SIZE && t + PAGE_SIZE <= |m|;
    assert Agree(m, m', t, t + PAGE_SIZE);
  }

  // ---------------------------------------------------------------- what boot needs

  /** What kmain is given: the blob, and where the linker put the kernel. */
  datatype Given = Given(m: seq<u8>, mbi: nat, kernelStart: nat, kernelEnd: nat) {
    /** Kernel and blob lie in what boot.S maps. */
    ghost predicate Ok() {
      && PmmBoot.BootOk(m, mbi, kernelStart, kernelEnd)
      && kernelStart % PAGE_SIZE == 0 && kernelEnd <= BOOT_REACH
    }

    /** A framebuffer is a device: neither memory that could be handed out, nor where the kernel itself runs. */
    ghost predicate Device()
      requires BlobOk(m, mbi) && kernelStart <= kernelEnd
    {
      && ScreenOk(Display(), Free())
      && forall q: nat :: OnScreen(Display(), q) ==> !(KernelLo() <= q < KernelHi())
    }

    ghost function Free(): set<nat>
      requires BlobOk(m, mbi) && kernelStart <= kernelEnd
    {
      PmmBoot.BootFree(m, mbi, kernelStart, kernelEnd)
    }

    ghost function Display(): Option<Framebuffer.Screen>
      requires BlobOk(m, mbi)
    {
      ScreenOf(m, mbi)
    }

    ghost function Low(): nat
      requires BlobOk(m, mbi)
    {
      LowPages(PmmBoot.TotalPages(m, mbi))
    }

    function KernelLo(): nat { KERN_PAGE + kernelStart / PAGE_SIZE }

    function KernelHi(): nat { KERN_PAGE + PagesUpTo(kernelEnd) }

    /** Pages taken by the directory and the tables of pmap_init. */
    ghost function Tables(): nat
      requires BlobOk(m, mbi)
    {
      1 + LayoutTables(Low(), kernelStart / PAGE_SIZE, PagesUpTo(kernelEnd))
    }

    /** The same with the framebuffer's tables. */
    ghost function TablesAndScreen(): nat
      requires BlobOk(m, mbi)
    {
      Tables() + ScreenTables(Display(), LayoutEntries(Low(), kernelStart / PAGE_SIZE, PagesUpTo(kernelEnd)))
    }

    /** 1 when table i has to be made for a page mapped after the framebuffer, 0 when it is there. */
    ghost function Missing(i: nat): (r: nat)
      requires BlobOk(m, mbi)
      ensures r <= 1
    {
      if TableServed(Low(), kernelStart / PAGE_SIZE, PagesUpTo(kernelEnd), i)
         || Serves(i, FirstPage(Display()), EndPage(Display())) then 0 else 1
    }

    /** The allocator's bitmap fits and is within reach; the tables get frames within reach of the code that fills
        them; and there are 256 frames for the heap. */
    ghost predicate Bootable()
      requires BlobOk(m, mbi) && kernelStart <= kernelEnd
    {
      var s, low, n, t, h := Free(), Low(), TablesAndScreen(), Missing(TEST_TABLE), Missing(HEAP_TABLE);
      && PmmBoot.BitmapFits(m, mbi, kernelEnd) && PmmBoot.BitmapReached(m, mbi, kernelEnd)
      && Below(s, BOOT_PAGES) >= Tables()
      && Below(s, low) >= n + (if h == 1 then 3 + t else if t == 1 then 2 else 0)
      && |s| >= n + t + h + HEAP_PAGES
    }

    /** What boot comes to. */
    ghost function Outcome(): BootOutcome
      requires BlobOk(m, mbi) && kernelStart <= kernelEnd
    {
      if !PmmBoot.BitmapFits(m, mbi, kernelEnd) then NoMemory
      else if !PmmBoot.BitmapReached(m, mbi, kernelEnd) then Fault
      else if Below(Free(), BOOT_PAGES) < Tables() then Short(BOOT_PAGES)
      else if Below(Free(), Low()) < TablesAndScreen() then Short(Low())
      else AfterScreen()
    }

    /** Tables want more frames than there are below the limit: a panic when there are none beyond it, else a fault. */
    ghost function Short(limit: nat): BootOutcome
      requires BlobOk(m, mbi) && kernelStart <= kernelEnd
    {
      if |Free()| == Below(Free(), limit) then NoMemory else Fault
    }

    /** What the trial mapping and the heap window come to, from the frames left and those of them within reach. When
        two are left at last, the heap's table goes into the frame that the trial gave back. */
    ghost function AfterScreen(): BootOutcome
      requires BlobOk(m, mbi) && kernelStart <= kernelEnd
    {
      var t, h, left := Missing(TEST_TABLE), Missing(HEAP_TABLE), |Free()| - TablesAndScreen();
      var near := Below(Free(), Low()) - TablesAndScreen();
      if left <= t then NoMemory
      else if t == 1 && near < 2 then Fault
      else if h == 1 && left - t < 2 then NoMemory
      else if h == 1 && near < (if left - t == 2 then 1 else 3 + t) then Fault
      else if left - t >= HEAP_PAGES + h then Booted
      else NoMemory
    }

    /** Word o of frame f, of those the heap gets: as the boot loader left it, but for the word of the trial mapping. */
    ghost function Left(f: nat, o: nat): u32
      requires BlobOk(m, mbi) && kernelStart <= kernelEnd
    {
      if o == 0 && f in Free() && Below(Free(), f) == TablesAndScreen() then TEST_WORD else FrameWord(m, f, o)
    }
  }

  /** Word o of frame f. */
  function FrameWord(m: seq<u8>, f: nat, o: nat): u32 {
    if f * PAGE_SIZE + 4 * o + 4 <= |m| then Word(m, f * PAGE_SIZE + 4 * o) else 0
  }

  lemma GivenShape(i: Given)
    requires i.Ok()
    ensures EndPage(i.Display()) <= VPAGES && i.Low() <= PMAP_LOW_END / PAGE_SIZE && i.KernelHi() <= HEAP_PAGE
    ensures i.KernelHi() <= VPAGES
  {
  }

  // ---------------------------------------------------------------- allocator and tables

  /** pmm_bootstrap leaves what pmap_init needs. */
  lemma AllocatorReady(i: Given, pmm: Pmm)
    requires i.Ok() && PmmBoot.BitmapFits(i.m, i.mbi, i.kernelEnd) && PmmBoot.BitmapReached(i.m, i.mbi, i.kernelEnd)
    requires pmm.Valid() && pmm.allocCursor == 0 && pmm.free == i.Free()
    requires pmm.bitmap == PmmBoot.BitmapAddr(i.m, i.mbi, i.kernelEnd)
             && pmm.npagesTotal == PmmBoot.TotalPages(i.m, i.mbi)
    ensures PmapInit.Ready(pmm)
  {
    hide PmmBoot.BootFree, PmmBoot.BitmapAddr, PmmBoot.TotalPages, BitmapBytes, PmmBoot.BitmapFits, TagsOk, TagOk;
    BootFreeClear(i.m, i.mbi, i.kernelStart, i.kernelEnd);
    BitmapPlace(i);
  }

  lemma BitmapPlace(i: Given)
    requires i.Ok() && PmmBoot.BitmapFits(i.m, i.mbi, i.kernelEnd)
    ensures var b := PmmBoot.BitmapAddr(i.m, i.mbi, i.kernelEnd);
            var total := PmmBoot.TotalPages(i.m, i.mbi);
            PAGE_SIZE <= b && b + BitmapBytes(total) <= total * PAGE_SIZE
  {
    hide PmmBoot.BootFree, PmmBoot.MaxAvailable, PmmBoot.BootEnd, PmmBoot.HighestEnd, BitmapBytes,
         PmmBoot.PagesFor, PmmBoot.AlignUp;
    PmmBoot.BitmapClear(i.m, i.mbi, i.kernelEnd);
    PmmBoot.RoundUp(PmmBoot.MaxAvailable(i.m, i.mbi));
    PageBelow(0, PmmBoot.BitmapAddr(i.m, i.mbi, i.kernelEnd));
  }

  /** The stage after pmap_init. */
  ghost predicate TablesUp(i: Given, pm: Pmap, g: nat)
    requires i.Ok()
    reads pm, pm.pmm, pm.pmm.ram
  {
    && pm.pmm.bitmap == PmmBoot.BitmapAddr(i.m, i.mbi, i.kernelEnd)
    && pm.pmm.npagesTotal == PmmBoot.TotalPages(i.m, i.mbi) && pm.BitmapEnd() <= BOOT_REACH
    && pm.loaded && Underway(pm, i.Free(), g, i.Low()) && Below(i.Free(), g) == i.Tables()
    && LayoutMap(pm.Map(), i.Low(), i.kernelStart / PAGE_SIZE, PagesUpTo(i.kernelEnd))
    && LayoutDir(pm.Dir(), i.Low(), i.kernelStart / PAGE_SIZE, PagesUpTo(i.kernelEnd))
    && OnlyTaken(pm, i.m, i.Free())
  }

  /** Kernel, blob and modules hold what they held. */
  ghost predicate DataKept(i: Given, m: seq<u8>)
    requires BlobOk(i.m, i.mbi)
  {
    |m| == |i.m| && forall a: nat :: a < |m| && InBootData(i.m, i.mbi, i.kernelStart, i.kernelEnd, a) ==> m[a] == i.m[a]
  }

  lemma OnlyTakenKeepsData(i: Given, pm: Pmap)
    requires i.Ok() && OnlyTaken(pm, i.m, i.Free()) && pm.pmm.bitmap == PmmBoot.BitmapAddr(i.m, i.mbi, i.kernelEnd)
    requires pm.pmm.npagesTotal == PmmBoot.TotalPages(i.m, i.mbi)
    ensures DataKept(i, pm.pmm.ram[..])
  {
    hide InBootData, TagsOk, TagOk, PmmBoot.BootFree, PmmBoot.BitmapAddr, PmmBoot.TotalPages;
    var m := pm.pmm.ram[..];
    forall a: nat | a < |m| && InBootData(i.m, i.mbi, i.kernelStart, i.kernelEnd, a) ensures m[a] == i.m[a] {
      BootDataKept(i.m, m, i.mbi, i.kernelStart, i.kernelEnd, i.Free() - pm.pmm.free, a);
    }
  }

  /** The bitmap's writes first, and then the tables'. */
  lemma OnlyTakenSince(i: Given, pm: Pmap, m1: seq<u8>)
    requires i.Ok() && OnlyTaken(pm, m1, i.Free()) && SameOutside(i.m, m1, pm.pmm.bitmap, pm.BitmapEnd())
    ensures OnlyTaken(pm, i.m, i.Free())
  {
    ReservedKeptTrans(i.m, m1, pm.pmm.ram[..], i.Free() - pm.pmm.free, pm.pmm.bitmap, pm.BitmapEnd());
  }

  lemma BitmapNear(i: Given, pm: Pmap)
    requires i.Ok() && PmmBoot.BitmapReached(i.m, i.mbi, i.kernelEnd)
    requires pm.pmm.bitmap == PmmBoot.BitmapAddr(i.m, i.mbi, i.kernelEnd)
             && pm.pmm.npagesTotal == PmmBoot.TotalPages(i.m, i.mbi)
    ensures pm.BitmapEnd() <= BOOT_REACH
  {
  }

  /** pmm_bootstrap and pmap_init in a row. */
  method BootTables(ram: array<u8>, mbi: nat, kernelStart: nat, kernelEnd: nat, ghost i: Given)
    returns (r: BootOutcome, pm: Pmap?, ghost g: nat)
    requires i == Given(ram[..], mbi, kernelStart, kernelEnd) && i.Ok()
    modifies ram
    ensures var s := i.Free();
            && (r == Booted <==> PmmBoot.BitmapFits(i.m, mbi, kernelEnd) && PmmBoot.BitmapReached(i.m, mbi, kernelEnd)
                                 && Below(s, BOOT_PAGES) >= i.Tables())
            && (r == NoMemory <==> !PmmBoot.BitmapFits(i.m, mbi, kernelEnd)
                                   || (PmmBoot.BitmapReached(i.m, mbi, kernelEnd)
                                       && Below(s, BOOT_PAGES) < i.Tables() && |s| == Below(s, BOOT_PAGES)))
    ensures r == Booted <==> pm != null
    ensures r == Booted ==> fresh(pm) && fresh(pm.pmm) && pm.pmm.ram == ram && TablesUp(i, pm, g)
  {
    hide Underway, LayoutMap, LayoutDir, OnlyTaken, PmmBoot.BitmapFits, PmmBoot.BitmapReached, Ready, DataKept,
         TagsOk, TagOk, PmmBoot.BootFree, PmmBoot.BitmapAddr, PmmBoot.TotalPages, Below, LayoutTables, InBootData;
    g, pm := 0, null;
    var boot := PmmBoot.PmmBootstrap(ram, mbi, kernelStart, kernelEnd);
    if boot.TooSmall? {
      return NoMemory, null, 0;
    } else if boot.Unreachable? {
      return Fault, null, 0;
    }
    var pmm := boot.pmm;
    AllocatorReady(i, pmm);
    ghost var m1 := ram[..];
    var t;
    t, pm, g := Init(pmm, kernelStart, kernelEnd);
    r := Of(t);
    if r == Booted {
      OnlyTakenSince(i, pm, m1);
      BitmapNear(i, pm);
    }
  }

  function Of(r: MapOutcome): BootOutcome {
    match r case Mapped => Booted case NoFrame => NoMemory case Unreachable => Fault
  }

  // ---------------------------------------------------------------- framebuffer

  /** The stage after the framebuffer loop. */
  ghost predicate ScreenUp(i: Given, pm: Pmap, g: nat)
    requires i.Ok()
    reads pm, pm.pmm, pm.pmm.ram
  {
    && pm.pmm.bitmap == PmmBoot.BitmapAddr(i.m, i.mbi, i.kernelEnd)
    && pm.pmm.npagesTotal == PmmBoot.TotalPages(i.m, i.mbi) && pm.BitmapEnd() <= BOOT_REACH
    && pm.loaded && Underway(pm, i.Free(), g, i.Low()) && Below(i.Free(), g) == i.TablesAndScreen()
    && BootMap(pm.Map(), i.Low(), i.kernelStart / PAGE_SIZE, PagesUpTo(i.kernelEnd), i.Display())
    && BootDir(pm.Dir(), i.Low(), i.kernelStart / PAGE_SIZE, PagesUpTo(i.kernelEnd), i.Display())
    && OnlyTaken(pm, i.m, i.Free())
  }

  lemma LayoutEntriesSame(d: seq<u32>, low: nat, ks: nat, ke: nat, screen: Option<Framebuffer.Screen>)
    requires LayoutDir(d, low, ks, ke) && EndPage(screen) <= VPAGES
    ensures ScreenTables(screen, d) == ScreenTables(screen, LayoutEntries(low, ks, ke))
  {
    NewTablesSame(d, LayoutEntries(low, ks, ke), FirstPage(screen), EndPage(screen));
  }

  lemma BlobThere(i: Given, m: seq<u8>)
    requires i.Ok() && DataKept(i, m)
    ensures Agree(i.m, m, i.mbi, i.mbi + BlobSize(i.m, i.mbi))
  {
  }

  method BootScreen(pm: Pmap, mbi: nat, ghost i: Given, ghost g: nat) returns (r: BootOutcome, ghost g': nat)
    requires i.Ok() && i.Device() && mbi == i.mbi && TablesUp(i, pm, g)
    modifies pm.pmm.ram, pm.pmm`npagesFree, pm.pmm`allocCursor, pm.pmm`free
    ensures r == if Below(i.Free(), i.Low()) < i.TablesAndScreen() then i.Short(i.Low()) else Booted
    ensures r == Booted ==> ScreenUp(i, pm, g')
  {
    hide Underway, LayoutMap, LayoutDir, OnlyTaken, DataKept, BootMap, BootDir, RangeMapped, NewTables, ScreenTables,
         ScreenOk, ScreenOf, TagsOk, TagOk, PmmBoot.BootFree, PmmBoot.BitmapAddr, PmmBoot.TotalPages, LayoutTables;
    GivenShape(i);
    ghost var ks, ke := i.kernelStart / PAGE_SIZE, PagesUpTo(i.kernelEnd);
    UnderwayShape(pm, i.Free(), g, i.Low());
    ghost var m0, f0, d0 := pm.pmm.ram[..], pm.Map(), pm.Dir();
    OnlyTakenKeepsData(i, pm);
    BlobThere(i, m0);
    LayoutEntriesSame(d0, i.Low(), ks, ke, i.Display());
    var screen := ReadScreen(pm.pmm.ram, mbi, i.m);
    var t;
    t, g' := MapScreen(pm, screen, i.m, m0, i.Free(), g, i.Low());
    r := Of(t);
    if r == Booted {
      ScreenOnTop(f0, d0, pm.Map(), pm.Dir(), i.Low(), ks, ke, screen);
    }
  }

  // ---------------------------------------------------------------- trial mapping and heap window

  /** Of s, the pages below g are gone, and those in reach are the ones below `low`. */
  ghost predicate InOrder(v: Space, s: set<nat>, g: nat, low: nat)
    requires v.Sized()
  {
    Ascending(s, v.free, v.cursor, v.npages, g) && forall x :: x in s ==> (v.Reaches(x) <==> x < low)
  }

  /** The frame of the trial is the next of s; one for the table has to be there and in reach. */
  lemma TrialOutcome(v: Space, s: set<nat>, g: nat, low: nat)
    requires v.Sized() && InOrder(v, s, g, low) && v.free != {}
    ensures v.cursor < v.npages && v.Next() in s && v.Next() in v.free && Below(s, v.Next()) == Below(s, g)
    ensures |v.free| == |s| - Below(s, g)
    ensures v.Outcome(TEST_PAGE) ==
            if Present(v.Dir()[TEST_TABLE]) then Mapped
            else if |v.free| == 1 then NoFrame
            else if Below(s, low) >= Below(s, g) + 2 then Mapped
            else Unreachable
  {
    var p := v.Next();
    AscendingEmpty(s, v.free, v.cursor, v.npages, g);
    AscendingNext(s, v.free, v.cursor, v.npages, g, low);
    assert |v.free - {p}| == |v.free| - 1;
    if |v.free| > 1 {
      assert v.free - {p} != {};
      AscendingNext(s, v.free - {p}, After(p, v.npages), v.npages, p + 1, low);
      assert v.TableNext() in s;
    } else {
      assert v.free - {p} == {};
    }
  }

  /** It leaves the pages in order, but for the one it gave back. */
  lemma AfterTrial(v: Space, v': Space, s: set<nat>, g: nat, low: nat) returns (g': nat)
    requires v.Sized() && v'.Sized() && InOrder(v, s, g, low) && v.free != {} && Tried(v, v')
    ensures AscendingFrom(s, v'.free, v'.cursor, v'.npages, g') && v'.free <= s && v.Next() < g' && v.Next() in v'.free
    ensures var t := if Present(v.Dir()[TEST_TABLE]) then 0 else 1;
            Below(s, g') == Below(s, g) + 1 + t && |v'.free| == |s| - Below(s, g) - t
  {
    var p := v.Next();
    AscendingEmpty(s, v.free, v.cursor, v.npages, g);
    AscendingNext(s, v.free, v.cursor, v.npages, g, low);
    g' := p + 1;
    if !Present(v.Dir()[TEST_TABLE]) {
      AscendingNext(s, v.free - {p}, After(p, v.npages), v.npages, p + 1, low);
      g' := v.TableNext() + 1;
      assert |v.free - {v.TableNext()}| == |v.free| - 1;
    }
  }

  /** The heap's table goes into the second page in order, or into the one p given back when only two are left. */
  lemma HeapTableFrame(v: Space, s: set<nat>, g: nat, low: nat, p: nat)
    requires v.Sized() && AscendingFrom(s, v.free, v.cursor, v.npages, g) && |v.free| == |s| - Below(s, g) + 1
    requires p in v.free && p in s && p < g && |v.free| >= 2
    requires forall x :: x in s ==> (v.Reaches(x) <==> x < low)
    ensures v.cursor < v.npages
    ensures v.Reaches(v.TableNext()) <==> Below(s, low) >= if |v.free| == 2 then Below(s, p) + 1 else Below(s, g) + 2
  {
    hide AscendingFrom, NextFree, Space.Reaches, Space.Next, Space.TableNext;
    NextFrom(s, v.free, v.cursor, v.npages, g, low);
    var y := SecondFrame(v, s, g, low, p);
    assert v.Reaches(y) <==> y < low;
    if |v.free| == 2 { PlaceInOrder(s, p, low); }
  }

  lemma SecondFrame(v: Space, s: set<nat>, g: nat, low: nat, p: nat) returns (y: nat)
    requires v.Sized() && AscendingFrom(s, v.free, v.cursor, v.npages, g) && |v.free| == |s| - Below(s, g) + 1
    requires p in v.free && p in s && p < g && |v.free| >= 2
    ensures v.cursor < v.npages && y == v.TableNext() && y in s
    ensures if |v.free| == 2 then y == p else y < low <==> Below(s, low) >= Below(s, g) + 2
  {
    hide AscendingFrom, NextFree;
    NextFrom(s, v.free, v.cursor, v.npages, g, low);
    var x := v.Next();
    var rest, c := v.free - {x}, After(x, v.npages);
    y := NextFree(rest, c, v.npages);
    OneFewer(v.free, x);
    if |rest| == 1 {
      OneLeft(rest, p, c, v.npages);
    } else {
      NextFrom(s, rest, c, v.npages, x + 1, low);
    }
  }

  lemma OneFewer(s: set<nat>, x: nat)
    requires x in s
    ensures |s - {x}| == |s| - 1
  {
  }

  /** The only page left is the next one. */
  lemma OneLeft(rest: set<nat>, p: nat, cursor: nat, npages: nat)
    requires p in rest && |rest| == 1 && cursor < npages && p < npages
    ensures NextFree(rest, cursor, npages) == p
  {
    OneFewer(rest, p);
    var none := rest - {p};
    assert none == {};
    forall q | q in rest ensures q == p { assert q == p || q in none; }
    PagesInMember(0, npages, p);
    NextFreeFirst(rest, cursor, npages);
  }

  /** A page of s lies below a limit exactly when more pages of s do than lie below it. */
  lemma PlaceInOrder(s: set<nat>, p: nat, low: nat)
    requires p in s
    ensures p < low <==> Below(s, low) >= Below(s, p) + 1
  {
    if p < low { BelowMonotone(s, p + 1, low); } else { BelowMonotone(s, low, p); }
  }

  /** What kheap_init comes to after the trial. */
  lemma HeapAfterTrial(v: Space, v1: Space, s: set<nat>, g: nat, low: nat)
    requires v.Sized() && v1.Sized() && InOrder(v, s, g, low) && v.free != {} && Tried(v, v1) && low <= TEST_PAGE
    ensures v1.free != {} && v1.cursor < v1.npages
    ensures var t := if Present(v.Dir()[TEST_TABLE]) then 0 else 1;
            var h := if Present(v.Dir()[HEAP_TABLE]) then 0 else 1;
            var left, near := |s| - Below(s, g) - t, Below(s, low) - Below(s, g);
            HeapOutcome(v1) ==
              if h == 1 && left < 2 then NoFrame
              else if h == 1 && near < (if left == 2 then 1 else 3 + t) then Unreachable
              else if left >= HEAP_PAGES + h then Mapped
              else NoFrame
  {
    hide InOrder, Tried, AscendingFrom, Ascending;
    TrialOutcome(v, s, g, low);
    var g' := AfterTrial(v, v1, s, g, low);
    HeapStart(v, v1, s, g, g', low);
    if |v1.free| >= 2 { HeapTableFrame(v1, s, g', low, v.Next()); }
  }

  lemma HeapStart(v: Space, v1: Space, s: set<nat>, g: nat, g': nat, low: nat)
    requires v.Sized() && v1.Sized() && InOrder(v, s, g, low) && Tried(v, v1) && low <= TEST_PAGE
    requires AscendingFrom(s, v1.free, v1.cursor, v1.npages, g') && v.Next() in v1.free
    ensures v1.cursor < v1.npages && Present(v1.Dir()[HEAP_TABLE]) == Present(v.Dir()[HEAP_TABLE])
    ensures forall x :: x in s ==> (v1.Reaches(x) <==> x < low)
  {
  }

  // ---------------------------------------------------------------- whose frames those are

  /** Directory, tables and all that is still free are pages the boot map left free; the bitmap is in reach of boot.S's
      tables; kernel, blob and modules are intact. */
  ghost predicate Placed(i: Given, v: Space)
    requires i.Ok() && v.Sized()
  {
    && v.lo == PmmBoot.BitmapAddr(i.m, i.mbi, i.kernelEnd) && v.hi == v.lo + BitmapBytes(PmmBoot.TotalPages(i.m, i.mbi))
    && v.hi <= BOOT_REACH
    && v.free <= i.Free() && FrameOf(v.pgdir) in i.Free()
    && (forall j :: 0 <= j < ENTRIES && Present(v.Dir()[j]) ==> FrameOf(v.Dir()[j]) in i.Free())
    && DataKept(i, v.m)
  }

  /** Free pages hold what they held when the boot loader handed over. */
  ghost predicate FreeLeft(i: Given, v: Space) {
    forall f: nat :: f in v.free ==> f < PHYS_PAGES && Agree(i.m, v.m, f * PAGE_SIZE, (f + 1) * PAGE_SIZE)
  }

  /** The frame of a byte of boot data is private. */
  lemma DataPrivate(i: Given, v: Space, a: nat)
    requires i.Ok() && v.Sized() && Placed(i, v) && a < PHYS_SIZE
             && InBootData(i.m, i.mbi, i.kernelStart, i.kernelEnd, a)
    ensures v.Private(a / PAGE_SIZE) && a / PAGE_SIZE * PAGE_SIZE <= a < (a / PAGE_SIZE + 1) * PAGE_SIZE
  {
    BootDataReserved(i.m, i.mbi, i.kernelStart, i.kernelEnd, a);
  }

  lemma TrialKeepsPlaced(i: Given, v: Space, v': Space)
    requires i.Ok() && v.Sized() && v'.Sized() && Placed(i, v) && Tried(v, v')
    ensures Placed(i, v')
  {
    hide TagsOk, TagOk, PmmBoot.BootFree, PmmBoot.BitmapAddr, PmmBoot.TotalPages, NextFree, InBootData;
    if !Present(v.Dir()[TEST_TABLE]) { assert FrameOf(PdeFor(v.TableNext())) == v.TableNext(); }
    forall a: nat | a < |v'.m| && InBootData(i.m, i.mbi, i.kernelStart, i.kernelEnd, a) ensures v'.m[a] == i.m[a] {
      DataPrivate(i, v, a);
      PrivateKept(v, v', a / PAGE_SIZE);
    }
  }

  lemma HeapKeepsData(i: Given, v: Space, v': Space, k: nat)
    requires i.Ok() && v.Sized() && v'.Sized() && Placed(i, v) && HeapMapped(v, v', k)
    ensures DataKept(i, v'.m)
  {
    hide TagsOk, TagOk, PmmBoot.BootFree, PmmBoot.BitmapAddr, PmmBoot.TotalPages, InBootData;
    forall a: nat | a < |v'.m| && InBootData(i.m, i.mbi, i.kernelStart, i.kernelEnd, a) ensures v'.m[a] == i.m[a] {
      DataPrivate(i, v, a);
      PrivateKept(v, v', a / PAGE_SIZE);
    }
  }

  /** A page of the framebuffer's address beyond low memory is nobody's frame. */
  lemma ScreenPrivate(i: Given, v: Space, q: nat)
    requires i.Ok() && i.Device() && v.Sized() && Placed(i, v) && OnScreen(i.Display(), q) && BOOT_PAGES <= q < VPAGES
    ensures v.Private(q)
  {
  }

  /** So nothing is in the way of the trial mapping, framebuffer or not. */
  lemma TestPageSpare(i: Given, v: Space)
    requires i.Ok() && i.Device() && v.Sized() && Placed(i, v)
    requires BootMap(v.Map(), i.Low(), i.kernelStart / PAGE_SIZE, PagesUpTo(i.kernelEnd), i.Display())
    ensures v.Spare(TEST_PAGE)
  {
    GivenShape(i);
    if OnScreen(i.Display(), TEST_PAGE) { ScreenPrivate(i, v, TEST_PAGE); }
  }

  /** The kernel's own pages are backed by its own frames; the windows can be mapped, whether pages of the framebuffer
      lie in them or not. */
  lemma KernelWindows(i: Given, v: Space)
    requires i.Ok() && i.Device() && v.Sized() && Placed(i, v)
    requires || BootMap(v.Map(), i.Low(), i.kernelStart / PAGE_SIZE, PagesUpTo(i.kernelEnd), i.Display())
             || TriedMap(v.Map(), i.Low(), i.kernelStart / PAGE_SIZE, PagesUpTo(i.kernelEnd), i.Display())
    ensures Windows(v, v.Map(), Win(i.KernelLo(), i.KernelHi(), 0, 0))
  {
    hide DataKept, TagsOk, TagOk, ScreenOk, Space.Private, PmmBoot.BootFree, PmmBoot.BitmapAddr, PmmBoot.TotalPages;
    GivenShape(i);
    var win := Win(i.KernelLo(), i.KernelHi(), 0, 0);
    forall q | q in win ensures q < VPAGES && v.FrameAt(q) == q - KERN_PAGE && Backed(v, q) {
      assert i.KernelLo() <= q < i.KernelHi();
      KernelFrame(i, v, q - KERN_PAGE);
    }
    forall q: nat | q < VPAGES && KernelVm.Region(q) && q !in win ensures Untaken(v, v.Map(), q) {
      if OnScreen(i.Display(), q) { ScreenPrivate(i, v, q); }
    }
  }

  lemma KernelFrame(i: Given, v: Space, f: nat)
    requires i.Ok() && v.Sized() && Placed(i, v) && i.kernelStart / PAGE_SIZE <= f < PagesUpTo(i.kernelEnd)
    ensures v.Private(f)
  {
    var a := if f * PAGE_SIZE >= i.kernelStart then f * PAGE_SIZE else i.kernelStart;
    assert i.kernelStart <= a < i.kernelEnd && a / PAGE_SIZE == f;
    DataPrivate(i, v, a);
  }

  // ---------------------------------------------------------------- what the heap's frames hold

  lemma {:induction false} NthUnique(s: set<nat>, f: nat, p: nat)
    requires f in s && p in s && Below(s, f) == Below(s, p)
    ensures f == p
  {
    if f < p { BelowMonotone(s, f + 1, p); }
    if p < f { BelowMonotone(s, p + 1, f); }
  }

  /** After the trial free pages hold what the boot loader left, but for the word it wrote. */
  ghost predicate TriedLeft(i: Given, v: Space)
    requires i.Ok()
  {
    forall f: nat, o: nat :: f in v.free && o < PAGE_WORDS ==> f < PHYS_PAGES && FrameWord(v.m, f, o) == i.Left(f, o)
  }

  lemma WordOfFrame(m: seq<u8>, m': seq<u8>, f: nat, o: nat, from: nat)
    requires f < PHYS_PAGES && o < PAGE_WORDS && |m| == PHYS_SIZE && from <= f * PAGE_SIZE + 4 * o
    requires Agree(m, m', from, (f + 1) * PAGE_SIZE)
    ensures FrameWord(m', f, o) == FrameWord(m, f, o)
  {
    WordKept(m, m', f * PAGE_SIZE + 4 * o);
  }

  /** A free frame holds no structure. */
  lemma FreePlain(v: Space, f: nat)
    requires v.Sized() && FreeClear(v.free, v.lo, v.hi) && TreeNotFree(v) && f in v.free && f < PHYS_PAGES
    ensures v.Plain(f)
  {
  }

  lemma TrialLeaves(i: Given, v: Space, v1: Space, g: nat)
    requires i.Ok() && v.Sized() && v1.Sized() && FreeLeft(i, v) && v.free != {} && Tried(v, v1)
    requires InOrder(v, i.Free(), g, i.Low()) && Below(i.Free(), g) == i.TablesAndScreen()
    requires FreeClear(v1.free, v1.lo, v1.hi) && TreeNotFree(v1) && v1.free <= i.Free() && |i.m| == PHYS_SIZE
    ensures TriedLeft(i, v1)
  {
    hide Given.TablesAndScreen, InOrder, Given.Left, FrameWord, Space.Plain;
    TrialOutcome(v, i.Free(), g, i.Low());
    forall f: nat, o: nat | f in v1.free && o < PAGE_WORDS
      ensures f < PHYS_PAGES && FrameWord(v1.m, f, o) == i.Left(f, o)
    {
      assert f in v.free;
      FreePlain(v1, f);
      TrialWord(i, v, v1, f, o);
    }
  }

  lemma TrialWord(i: Given, v: Space, v1: Space, f: nat, o: nat)
    requires i.Ok() && v.Sized() && v1.Sized() && |i.m| == PHYS_SIZE && o < PAGE_WORDS && f < PHYS_PAGES
    requires Agree(i.m, v.m, f * PAGE_SIZE, (f + 1) * PAGE_SIZE) && v1.Plain(f) && f in i.Free()
    requires v.cursor < v.npages && v.Next() in i.Free() && Below(i.Free(), v.Next()) == i.TablesAndScreen()
    requires WordLeft(v, v1, v.Next(), TEST_WORD)
    ensures FrameWord(v1.m, f, o) == i.Left(f, o)
  {
    hide Given.Free, Given.TablesAndScreen, NextFree, Below, Space.Plain;
    WordOfFrame(i.m, v.m, f, o, f * PAGE_SIZE);
    if f != v.Next() {
      if Below(i.Free(), f) == i.TablesAndScreen() { NthUnique(i.Free(), f, v.Next()); }
      WordOfFrame(v.m, v1.m, f, o, f * PAGE_SIZE);
    } else if o > 0 {
      WordOfFrame(v.m, v1.m, f, o, f * PAGE_SIZE + 4);
    }
  }

  /** The heap's frames hold what they held before they were mapped. */
  lemma HeapLeaves(i: Given, v: Space, v': Space, win: set<nat>)
    requires i.Ok() && v.Sized() && v'.Sized() && TriedLeft(i, v) && HeapMapped(v, v', HEAP_PAGES) && Backings(v', win)
    requires forall q :: HEAP_PAGE <= q < HEAP_PAGE + HEAP_PAGES ==> q in win
    ensures HeapHolds(i, v')
  {
    forall q: nat, o: nat | HEAP_PAGE <= q < HEAP_PAGE + HEAP_PAGES && o < PAGE_WORDS
      ensures FrameWord(v'.m, v'.FrameAt(q), o) == i.Left(v'.FrameAt(q), o)
    {
      var f := v'.FrameAt(q);
      assert q in win && Backed(v', q) && f in v.free;
      WordOfFrame(v.m, v'.m, f, o, f * PAGE_SIZE);
    }
  }

  /** The words of the heap window, in the frames behind it. */
  ghost predicate HeapHolds(i: Given, v: Space)
    requires i.Ok() && v.Sized()
  {
    forall q: nat, o: nat :: HEAP_PAGE <= q < HEAP_PAGE + HEAP_PAGES && o < PAGE_WORDS ==>
      FrameWord(v.m, v.FrameAt(q), o) == i.Left(v.FrameAt(q), o)
  }

  /** What boot leaves: the layout, with the framebuffer on top, the test page unmapped and the heap window in frames
      that were free; the words in these are those of the boot loader, but for that of the trial. */
  ghost predicate Up(i: Given, v: Space)
    requires i.Ok() && v.Sized()
  {
    && Placed(i, v) && HeapHolds(i, v)
    && (forall q :: 0 <= q < VPAGES && !(HEAP_PAGE <= q < HEAP_PAGE + HEAP_PAGES) ==>
          v.Map()[q] == TriedPage(i.Low(), i.kernelStart / PAGE_SIZE, PagesUpTo(i.kernelEnd), i.Display(), q))
    && (forall q :: HEAP_PAGE <= q < HEAP_PAGE + HEAP_PAGES ==>
          v.Map()[q] == KernelRw(v.FrameAt(q)) && v.FrameAt(q) in i.Free())
  }

  lemma HeapUp(i: Given, v: Space, v': Space)
    requires i.Ok() && v.Sized() && v'.Sized() && Placed(i, v) && HeapMapped(v, v', HEAP_PAGES) && TriedLeft(i, v)
    requires Backings(v', Win(i.KernelLo(), i.KernelHi(), HEAP_PAGES, 0))
    requires TriedMap(v.Map(), i.Low(), i.kernelStart / PAGE_SIZE, PagesUpTo(i.kernelEnd), i.Display())
    ensures Up(i, v')
  {
    hide TriedLeft, HeapHolds, DataKept, TagsOk, TagOk, PmmBoot.BootFree, PmmBoot.BitmapAddr, PmmBoot.TotalPages,
         Backings;
    HeapKeepsData(i, v, v', HEAP_PAGES);
    HeapLeaves(i, v, v', Win(i.KernelLo(), i.KernelHi(), HEAP_PAGES, 0));
  }

  // ---------------------------------------------------------------- the stages after the framebuffer

  /** What the last two steps start from. */
  ghost predicate Counted(i: Given, v: Space, g: nat)
    requires i.Ok()
  {
    && v.Sized() && Placed(i, v) && FreeLeft(i, v) && InOrder(v, i.Free(), g, i.Low())
    && BootMap(v.Map(), i.Low(), i.kernelStart / PAGE_SIZE, PagesUpTo(i.kernelEnd), i.Display())
    && (forall j :: 0 <= j < ENTRIES ==> (Present(v.Dir()[j]) <==> i.Missing(j) == 0))
    && Below(i.Free(), g) == i.TablesAndScreen() && |v.free| == |i.Free()| - Below(i.Free(), g)
  }

  lemma UnderwayMeans(pm: Pmap, s: set<nat>, g: nat, low: nat)
    requires pm.loaded && Underway(pm, s, g, low)
    ensures var v := Snap(pm);
            && Running(pm) && v.Sized() && v.Map() == pm.Map() && v.Dir() == pm.Dir()
            && InOrder(v, s, g, low) && v.free <= s && FrameOf(v.pgdir) in s
            && (forall j :: 0 <= j < ENTRIES && Present(v.Dir()[j]) ==> FrameOf(v.Dir()[j]) in s)
            && |v.free| == |s| - Below(s, g)
            && FreeClear(v.free, v.lo, v.hi) && forall f :: f in v.free ==> f < PHYS_PAGES
  {
    UnderwayShape(pm, s, g, low);
    AscendingEmpty(s, pm.pmm.free, pm.pmm.allocCursor, pm.pmm.npagesTotal, g);
    FreePagesBelow(pm.pmm.ram[..], pm.pmm.bitmap, pm.pmm.npagesTotal);
  }

  lemma FreeKept(i: Given, pm: Pmap)
    requires i.Ok() && OnlyTaken(pm, i.m, i.Free())
    requires FreeClear(pm.pmm.free, pm.pmm.bitmap, pm.BitmapEnd()) && forall f :: f in pm.pmm.free ==> f < PHYS_PAGES
    ensures FreeLeft(i, Snap(pm))
  {
    var m := pm.pmm.ram[..];
    forall f: nat | f in pm.pmm.free ensures Agree(i.m, m, f * PAGE_SIZE, (f + 1) * PAGE_SIZE) {
      var t := f * PAGE_SIZE;
      assert t % PAGE_SIZE == 0 && FrameOf(t) == f && t + PAGE_SIZE <= |i.m|;
      assert FrameOf(t) !in i.Free() - pm.pmm.free && PageClear(t, pm.pmm.bitmap, pm.BitmapEnd());
    }
  }

  lemma ScreenFacts(i: Given, pm: Pmap, g: nat)
    requires i.Ok() && ScreenUp(i, pm, g)
    ensures Running(pm) && Counted(i, Snap(pm), g)
  {
    hide BootMap, BootDir, DataKept, Underway, Running, OnlyTaken, FreeLeft, InOrder, Given.TablesAndScreen,
         Given.Missing, TagsOk, TagOk, PmmBoot.BootFree, PmmBoot.BitmapAddr, PmmBoot.TotalPages;
    UnderwayMeans(pm, i.Free(), g, i.Low());
    OnlyTakenKeepsData(i, pm);
    FreeKept(i, pm);
    MissingTables(i, pm.Dir());
  }

  lemma MissingTables(i: Given, d: seq<u32>)
    requires i.Ok() && BootDir(d, i.Low(), i.kernelStart / PAGE_SIZE, PagesUpTo(i.kernelEnd), i.Display())
    ensures forall j :: 0 <= j < ENTRIES ==> (Present(d[j]) <==> i.Missing(j) == 0)
  {
  }

  /** A failing trial decides the whole. */
  lemma TrialDecides(i: Given, v: Space, g: nat)
    requires i.Ok() && Counted(i, v, g) && v.free != {}
    ensures v.cursor < v.npages
    ensures v.Outcome(TEST_PAGE) != Mapped ==> i.AfterScreen() == Of(v.Outcome(TEST_PAGE))
  {
    hide Placed, BootMap, FreeLeft, Space.Outcome, InOrder, Given.TablesAndScreen, Given.Missing;
    TrialOutcome(v, i.Free(), g, i.Low());
  }

  /** After it, so does kheap_init. */
  lemma HeapDecides(i: Given, v: Space, v1: Space, g: nat)
    requires i.Ok() && Counted(i, v, g) && v1.Sized() && (v.free != {} ==> v.cursor < v.npages)
    requires if v.free == {} then v1 == v else v.Outcome(TEST_PAGE) == Mapped && Tried(v, v1)
    ensures v1.free != {} ==> v1.cursor < v1.npages
    ensures Of(HeapOutcome(v1)) == i.AfterScreen()
  {
    hide Placed, BootMap, FreeLeft, Given.TablesAndScreen, Space.Outcome, Tried, HeapOutcome, InOrder, Given.Missing;
    GivenShape(i);
    if v.free == {} {
      NoHeap(v);
      assert |v.free| == 0;
    } else {
      TrialOutcome(v, i.Free(), g, i.Low());
      HeapAfterTrial(v, v1, i.Free(), g, i.Low());
    }
  }

  lemma NoHeap(v: Space)
    requires v.Sized() && v.free == {}
    ensures HeapOutcome(v) == NoFrame
  {
    assert |v.free| == 0;
  }

  /** What kheap_init finds. */
  lemma AfterTrialPlaced(i: Given, pm: Pmap, v: Space, v1: Space, g: nat)
    requires i.Ok() && i.Device() && Counted(i, v, g) && Running(pm) && v1 == Snap(pm) && v1.Sized()
    requires if v.free == {} then v1 == v else Tried(v, v1)
    ensures Placed(i, v1) && Windows(v1, v1.Map(), Win(i.KernelLo(), i.KernelHi(), 0, 0))
    ensures v.free == {} ==> HeapOutcome(v1) == NoFrame
    ensures v.free != {} ==> TriedLeft(i, v1)
    ensures v.free != {} ==> TriedMap(v1.Map(), i.Low(), i.kernelStart / PAGE_SIZE, PagesUpTo(i.kernelEnd), i.Display())
  {
    hide TriedLeft, FreeLeft, InOrder, Windows, DataKept, Running, ScreenOk, Given.TablesAndScreen, TagsOk, TagOk,
         PmmBoot.BootFree, PmmBoot.BitmapAddr, PmmBoot.TotalPages, HeapOutcome, WordLeft, Space.Next, Given.Missing;
    GivenShape(i);
    RunningShape(pm);
    if v.free == {} {
      NoHeap(v);
    } else {
      TrialKeepsPlaced(i, v, v1);
      TrialLeaves(i, v, v1, g);
    }
    KernelWindows(i, v1);
  }

  /** kheap_init after the trial. */
  method BootHeap(pm: Pmap, ghost i: Given, ghost v: Space, ghost g: nat) returns (r: BootOutcome, vm: Kvm?)
    requires i.Ok() && i.Device() && Counted(i, v, g) && Running(pm) && Snap(pm).Sized()
             && (v.free != {} ==> v.cursor < v.npages)
    requires if v.free == {} then Snap(pm) == v else v.Outcome(TEST_PAGE) == Mapped && Tried(v, Snap(pm))
    modifies pm.pmm.ram, pm.pmm`npagesFree, pm.pmm`allocCursor, pm.pmm`free
    ensures r == i.AfterScreen() && (r == Booted <==> vm != null)
    ensures r == Booted ==> fresh(vm) && vm.pm == pm && KernelUp(i, vm)
  {
    hide Placed, Up, Windows, HeapOutcome, HeapMapped, PagesKept, Tried, TriedMap, TriedLeft, Space.Outcome, Running,
         Counted, Given.Ok, Given.Device, Given.AfterScreen;
    ghost var v1 := Snap(pm);
    GivenShape(i);
    HeapDecides(i, v, v1, g);
    AfterTrialPlaced(i, pm, v, v1, g);
    vm := new Kvm(pm, i.KernelLo(), i.KernelHi());
    var t := vm.KheapInit();
    r := Of(t);
    if t != Mapped {
      return r, null;
    }
    Backed256(vm);
    HeapUp(i, v1, Snap(pm));
  }

  lemma Backed256(vm: Kvm)
    requires vm.Valid()
    ensures Snap(vm.pm).Sized() && Backings(Snap(vm.pm), vm.Pages())
  {
  }

  /** The kernel's address space once boot is through. */
  ghost predicate KernelUp(i: Given, vm: Kvm)
    requires i.Ok()
    reads vm, vm.pm, vm.pm.pmm, vm.pm.pmm.ram
  {
    && vm.Valid() && vm.heapPages == HEAP_PAGES && vm.threads == 0
    && vm.kernelLo == i.KernelLo() && vm.kernelHi == i.KernelHi() && Snap(vm.pm).Sized() && Up(i, Snap(vm.pm))
    && TriedMap(vm.base, i.Low(), i.kernelStart / PAGE_SIZE, PagesUpTo(i.kernelEnd), i.Display())
  }

  /** The trial mapping and kheap_init, from the framebuffer stage. */
  method BootWindows(pm: Pmap, ghost i: Given, ghost g: nat) returns (r: BootOutcome, vm: Kvm?)
    requires i.Ok() && i.Device() && ScreenUp(i, pm, g)
    modifies pm.pmm.ram, pm.pmm`npagesFree, pm.pmm`allocCursor, pm.pmm`free
    ensures r == i.AfterScreen() && (r == Booted <==> vm != null)
    ensures r == Booted ==> fresh(vm) && vm.pm == pm && KernelUp(i, vm)
  {
    hide ScreenUp, Placed, Up, Windows, HeapOutcome, HeapMapped, PagesKept, Tried, Space.Outcome, BootMap, Running,
         Given.Ok, Given.Device, Given.AfterScreen, FreeLeft, KernelUp;
    ScreenFacts(i, pm, g);
    ghost var v := Snap(pm);
    TestPageSpare(i, v);
    if v.free != {} { TrialDecides(i, v, g); } else { HeapDecides(i, v, v, g); NoHeap(v); }
    var t := Trial(pm, v);
    r, vm := Of(t), null;
    if r == Booted {
      r, vm := BootHeap(pm, i, v, g);
    }
  }

  /** Boot goes through exactly on the bootable inputs. */
  lemma BootsExactly(i: Given)
    requires i.Ok()
    ensures i.Outcome() == Booted <==> i.Bootable()
  {
  }

  /** The layout with the framebuffer on top and the test page unmapped, and the heap window in frames that were
      free. */
  ghost predicate MapUp(i: Given, f: seq<Option<Mapping>>)
    requires i.Ok()
  {
    |f| == VPAGES && forall q :: 0 <= q < VPAGES ==>
      if HEAP_PAGE <= q < HEAP_PAGE + HEAP_PAGES then
        f[q].Some? && f[q].value.rw && !f[q].value.user && f[q].value.frame in i.Free()
      else f[q] == TriedPage(i.Low(), i.kernelStart / PAGE_SIZE, PagesUpTo(i.kernelEnd), i.Display(), q)
  }

  /** In figures: the heap window from page 0xd1000 on in frames that were free, the framebuffer and pages 1 .. 8 MiB of
      what RAM there is at their own address, the kernel's pages again at 0xc0000000; every page for the kernel to read
      and write, none for user mode; page 0, the test page and everything else unmapped. */
  lemma MapUpExact(i: Given, f: seq<Option<Mapping>>, p: nat)
    requires i.Ok() && MapUp(i, f) && p < 0x10_0000
    ensures f[p].Some? ==> f[p].value.rw && !f[p].value.user
    ensures if 0xd_1000 <= p < 0xd_1100 then f[p].Some? && f[p].value.frame in i.Free()
            else if p == 0xd_0000 then f[p] == None
            else if OnScreen(i.Display(), p) || 1 <= p < i.Low() then f[p].Some? && f[p].value.frame == p
            else if 0xc_0000 + i.kernelStart / 4096 <= p < 0xc_0000 + (i.kernelEnd + 4095) / 4096 then
              f[p].Some? && f[p].value.frame == p - 0xc_0000
            else f[p] == None
    ensures i.Low() == if PmmBoot.TotalPages(i.m, i.mbi) < 2048 then PmmBoot.TotalPages(i.m, i.mbi) else 2048
  {
    hide Given.Free, Given.Display, PmmBoot.TotalPages;
    TriedExact(i.Low(), i.kernelStart / PAGE_SIZE, PagesUpTo(i.kernelEnd), i.Display(), p);
  }

  lemma KernelOnly(i: Given, f: seq<Option<Mapping>>)
    requires i.Ok() && MapUp(i, f)
    ensures |f| == 0x10_0000 && forall p :: 0 <= p < |f| && f[p].Some? ==> f[p].value.rw && !f[p].value.user
  {
    hide Given.Free, Given.Display, Given.Low;
    forall p | 0 <= p < VPAGES && f[p].Some? ensures f[p].value.rw && !f[p].value.user { MapUpExact(i, f, p); }
  }

  lemma UpMap(i: Given, v: Space)
    requires i.Ok() && v.Sized() && Up(i, v)
    ensures MapUp(i, v.Map())
  {
    hide Given.Free, Given.Low, Given.Display, Placed, HeapHolds;
  }

  /** The kernel's tables once boot is through. */
  lemma KernelUpMap(i: Given, vm: Kvm)
    requires i.Ok() && KernelUp(i, vm)
    ensures Snap(vm.pm).Sized() && MapUp(i, Snap(vm.pm).Map())
    ensures forall p {:trigger Snap(vm.pm).Map()[p]} :: 0 <= p < 0x10_0000 && Snap(vm.pm).Map()[p].Some? ==>
              Snap(vm.pm).Map()[p].value.rw && !Snap(vm.pm).Map()[p].value.user
  {
    hide Up, MapUp, Kvm.Valid;
    UpMap(i, Snap(vm.pm));
    KernelOnly(i, Snap(vm.pm).Map());
  }

  /** kmain up to kheap_init: booted, panic or page fault, each exactly when; booted, it leaves the kernel's address
      space up. */
  method Boot(ram: array<u8>, mbi: nat, kernelStart: nat, kernelEnd: nat, ghost i: Given)
      returns (r: BootOutcome, vm: Kvm?)
    requires i == Given(ram[..], mbi, kernelStart, kernelEnd) && i.Ok() && i.Device()
    modifies ram
    ensures r == i.Outcome() && (r == Booted <==> i.Bootable()) && (r == Booted <==> vm != null)
    ensures r == Booted ==>
      fresh(vm) && fresh(vm.pm) && fresh(vm.pm.pmm) && vm.pm.pmm.ram == ram && KernelUp(i, vm)
    ensures r == Booted ==>
      && Snap(vm.pm).Sized() && MapUp(i, Snap(vm.pm).Map())
      && forall p {:trigger Snap(vm.pm).Map()[p]} :: 0 <= p < 0x10_0000 && Snap(vm.pm).Map()[p].Some? ==>
           Snap(vm.pm).Map()[p].value.rw && !Snap(vm.pm).Map()[p].value.user
  {
    hide Given.Ok, Given.Device, TablesUp, ScreenUp, KernelUp, Given.Bootable, Given.TablesAndScreen, Given.Tables,
         Given.Free, Given.Low, PmmBoot.BitmapFits, PmmBoot.BitmapReached, Below, EndPage, Given.Display,
         Given.AfterScreen, MapUp;
    BootsExactly(i);
    var pm;
    ghost var g;
    vm := null;
    r, pm, g := BootTables(ram, mbi, kernelStart, kernelEnd, i);
    if r != Booted {
      return;
    }
    r, g := BootScreen(pm, mbi, i, g);
    if r != Booted {
      return;
    }
    r, vm := BootWindows(pm, i, g);
    if r == Booted { KernelUpMap(i, vm); }
  }

  /** Without a framebuffer: one table for the trial mapping, one for the heap, and 256 pages. */
  lemma BootableWithoutScreen(i: Given)
    requires i.Ok() && i.Display() == None
    ensures i.Bootable() <==>
              && PmmBoot.BitmapFits(i.m, i.mbi, i.kernelEnd) && PmmBoot.BitmapReached(i.m, i.mbi, i.kernelEnd)
              && Below(i.Free(), BOOT_PAGES) >= i.Tables()
              && Below(i.Free(), i.Low()) >= i.Tables() + 4
              && |i.Free()| >= i.Tables() + 2 + HEAP_PAGES
  {
    GivenShape(i);
    var ks, ke := i.kernelStart / PAGE_SIZE, PagesUpTo(i.kernelEnd);
    assert ke <= BOOT_PAGES;
    assert !TableServed(i.Low(), ks, ke, TEST_TABLE) && !TableServed(i.Low(), ks, ke, HEAP_TABLE);
    assert ScreenTables(i.Display(), LayoutEntries(i.Low(), ks, ke)) == 0;
  }

  // ---------------------------------------------------------------- guard pages

  /** Both guard pages of the j-th stack are unmapped. */
  ghost predicate Guarded(v: Space, j: nat)
    requires v.Sized() && j < MAX_THREADS
  {
    v.Map()[STACK_PAGE + 3 * j] == None && v.Map()[STACK_PAGE + 3 * j + 2] == None
  }

  /** The guards of the first n stacks hold, then and after any number of stacks, exactly when the framebuffer keeps
      clear of them. */
  lemma GuardsHold(i: Given, vm: Kvm, n: nat)
    requires i.Ok() && vm.Valid() && vm.kernelHi == i.KernelHi() && n <= MAX_THREADS
    requires TriedMap(vm.base, i.Low(), i.kernelStart / PAGE_SIZE, PagesUpTo(i.kernelEnd), i.Display())
    ensures Snap(vm.pm).Sized()
    ensures (forall j: nat :: j < n ==> Guarded(Snap(vm.pm), j)) <==> ClearOfGuards(i.Display(), n)
  {
    hide Kvm.Valid, Windows;
    GivenShape(i);
    InState(vm);
    var v := Snap(vm.pm);
    forall j: nat, q: nat | j < n && GuardPage(q, j)
      ensures q < VPAGES && (v.Map()[q] == None <==> !OnScreen(i.Display(), q))
    {
      GuardsAsBefore(v, vm.base, vm.kernelLo, vm.kernelHi, vm.heapPages, vm.threads, j, q);
    }
    forall j: nat | j < n && ClearOfGuards(i.Display(), n) ensures Guarded(v, j) {
      assert GuardPage(STACK_PAGE + 3 * j, j) && GuardPage(STACK_PAGE + 3 * j + 2, j);
    }
    forall j: nat, q: nat | j < n && GuardPage(q, j) && Guarded(v, j) ensures !OnScreen(i.Display(), q) {}
  }

  lemma InState(vm: Kvm)
    requires vm.Valid()
    ensures var v := Snap(vm.pm);
            && v.Sized() && vm.heapPages <= HEAP_PAGES && |vm.base| == VPAGES
            && Windows(v, vm.base, Win(vm.kernelLo, vm.kernelHi, vm.heapPages, vm.threads))
  {
  }
}
