/**
 The linear framebuffer of the boot loader, mapped page by page at its own address, and
 when that leaves the heap and stack windows empty.
 */
module Framebuffer {
  import opened Words
  import opened Ram
  import opened PmmModule
  import opened FrameOrder
  import opened Multiboot
  import PmmBoot
  import opened PageTables
  import opened PmapModule
  import opened PmapInit
  import KernelVm

  const FB_TYPE_RGB: nat := 1
  const TEST_PAGE: nat := 0xd_0000         // the page of kmain's trial mapping

  /** First byte, and the byte past the last, in 32 bits. */
  datatype Screen = Screen(base: u32, end: u32)

  /** The framebuffer kmain maps: the first such tag, if it is RGB and below 4 GiB. */
  ghost function ScreenOf(m: seq<u8>, mbi: nat): Option<Screen>
    requires BlobOk(m, mbi)
  {
    var t := FindTag(m, mbi, TAG_FRAMEBUFFER);
    if t == 0 || m[t + 29] != FB_TYPE_RGB || Long(m, t + 8) >= U32 then None
    else
      var base := Long(m, t + 8);
      var len := Word(m, t + 16) as int * Word(m, t + 24) as int % U32;
      Some(Screen(base, (base + len) % U32))
  }

  /** In figures: the first tag of type 8, if byte 29 of it is 1 and its words 2 and 3 are a 32-bit address; the end is
      that address and the product of words 4 and 6, in 32 bits. */
  lemma ScreenExact(m: seq<u8>, mbi: nat)
    requires BlobOk(m, mbi)
    ensures var t, s := FindTag(m, mbi, 8), ScreenOf(m, mbi);
            && (s.Some? <==> t != 0 && m[t + 29] == 1 && Word(m, t + 12) == 0)
            && (s.Some? ==>
                  && s.value.base == Word(m, t + 8)
                  && s.value.end == (Word(m, t + 8) as int + Word(m, t + 16) * Word(m, t + 24)) % 0x1_0000_0000)
  {
    hide TagsOk, Find, Word, Long;
    var t := FindTag(m, mbi, 8);
    if t != 0 {
      LongWords(m, t + 8);
      CutSum(Word(m, t + 8), Word(m, t + 16) as int * Word(m, t + 24) as int);
    }
  }

  lemma CutSum(a: nat, b: nat)
    ensures (a + b % U32) % U32 == (a + b) % U32
  {
    var q := b / U32;
    assert b == q * U32 + b % U32;
    assert a + b == (a + b % U32) + q * U32;
  }

  /** Its pages, from the first up to one past the last; none when there is no framebuffer. */
  function FirstPage(s: Option<Screen>): nat { match s case Some(x) => x.base / PAGE_SIZE case None => 0 }

  function EndPage(s: Option<Screen>): nat { match s case Some(x) => PagesUpTo(x.end) case None => 0 }

  predicate OnScreen(s: Option<Screen>, q: nat) { FirstPage(s) <= q < EndPage(s) }

  /** The loop's 32-bit address does not run past the end of memory, and the device is not memory that could be
      handed out. */
  ghost predicate ScreenOk(s: Option<Screen>, free: set<nat>) {
    (s.Some? ==> s.value.end + PAGE_SIZE <= U32) && forall q: nat :: OnScreen(s, q) ==> q !in free
  }

  /** A tag's fields, read in RAM as it is now. */
  lemma ScreenAgrees(m: seq<u8>, m': seq<u8>, mbi: nat)
    requires BlobOk(m, mbi) && Agree(m, m', mbi, mbi + BlobSize(m, mbi))
    ensures var t := FindTag(m, mbi, TAG_FRAMEBUFFER);
            t != 0 ==>
              && t + 30 <= |m'| && m'[t + 29] == m[t + 29] && Long(m', t + 8) == Long(m, t + 8)
              && Word(m', t + 16) == Word(m, t + 16) && Word(m', t + 24) == Word(m, t + 24)
  {
    var t, end := FindTag(m, mbi, TAG_FRAMEBUFFER), mbi + BlobSize(m, mbi);
    if t != 0 {
      WordAgrees(m, m', t, end, t + 16);
      WordAgrees(m, m', t, end, t + 24);
      LittleAgrees(m, m', t + 8, t + 16);
    }
  }

  /** What the tag says, read from RAM that still holds the blob. */
  method ReadScreen(ram: array<u8>, mbi: nat, ghost m: seq<u8>) returns (s: Option<Screen>)
    requires BlobOk(m, mbi) && Agree(m, ram[..], mbi, mbi + BlobSize(m, mbi))
    ensures s == ScreenOf(m, mbi)
  {
    var t := PmmBoot.FindTagIn(ram, mbi, TAG_FRAMEBUFFER, m);
    ScreenAgrees(m, ram[..], mbi);
    if t == 0 || ram[t + 29] != FB_TYPE_RGB || Long(ram[..], t + 8) >= U32 {
      return None;
    }
    var base, pitch, height := Long(ram[..], t + 8), Word(ram[..], t + 16), Word(ram[..], t + 24);
    s := Some(Screen(base, (base as int + pitch as int * height as int % U32) % U32));
  }

  /** Tables that the framebuffer's pages take. */
  ghost function ScreenTables(s: Option<Screen>, d: seq<u32>): nat
    requires |d| == ENTRIES && EndPage(s) <= VPAGES
  {
    NewTables(d, FirstPage(s), EndPage(s))
  }

  /** The loop of kmain that maps each page of the framebuffer at its own address. */
  method MapScreen(pm: Pmap, screen: Option<Screen>, ghost m: seq<u8>, ghost m0: seq<u8>, ghost s: set<nat>,
      ghost g: nat, ghost limit: nat)
    returns (r: MapOutcome, ghost g': nat)
    requires Underway(pm, s, g, limit) && OnlyTaken(pm, m, s)
    requires pm.loaded && ScreenOk(screen, s) && m0 == pm.pmm.ram[..]
    modifies pm.pmm.ram, pm.pmm`npagesFree, pm.pmm`allocCursor, pm.pmm`free
    ensures |m0| == PHYS_SIZE && pm.pgdir + PAGE_SIZE <= PHYS_SIZE && EndPage(screen) <= VPAGES
    ensures var n := ScreenTables(screen, Directory(m0, pm.pgdir));
            && (r == Mapped <==> Below(s, limit) >= Below(s, g) + n)
            && (r == NoFrame <==> Below(s, limit) < Below(s, g) + n && |s| == Below(s, limit))
            && (r == Mapped ==> Below(s, g') == Below(s, g) + n)
    ensures r == Mapped ==>
              && Underway(pm, s, g', limit)
              && RangeMapped(Flat(m0, pm.pgdir), Directory(m0, pm.pgdir), pm.Map(), pm.Dir(), FirstPage(screen),
                 EndPage(screen), 0)
              && OnlyTaken(pm, m, s)
    ensures r == Mapped ==> forall p {:trigger pm.Map()[p]} :: 0 <= p < 0x10_0000 ==>
              pm.Map()[p] == if screen.Some? && screen.value.base / 4096 <= p < (screen.value.end as int + 4095) / 4096
                             then Some(Mapping(p, rw := true, user := false)) else Flat(m0, pm.pgdir)[p]
  {
    hide Underway, RangeMapped, OnlyTaken, NewTables, Below, Pmap.Valid, Pmap.Reachable;
    UnderwayShape(pm, s, g, limit);
    if screen.None? {
      NothingMapped(Flat(m0, pm.pgdir), Directory(m0, pm.pgdir));
      return Mapped, g;
    }
    r, g' := MapPages(pm, screen.value.base / PAGE_SIZE, screen.value.end, 0, EndPage(screen), m, m0, s, g,
                      limit);
  }

  lemma NothingMapped(f: seq<Option<Mapping>>, d: seq<u32>)
    requires |f| == VPAGES && |d| == ENTRIES
    ensures RangeMapped(f, d, f, d, 0, 0, 0) && NewTables(d, 0, 0) == 0
  {
  }

  // ---------------------------------------------------------------- what is mapped then

  /** The layout of pmap_init, and the framebuffer on top of it. */
  ghost predicate BootMap(f: seq<Option<Mapping>>, low: nat, ks: nat, ke: nat, screen: Option<Screen>) {
    |f| == VPAGES && forall p :: 0 <= p < VPAGES ==>
        f[p] == if OnScreen(screen, p) then KernelPage(p) else Layout(low, ks, ke, p)
  }

  /** Tables are there for the layout and for the framebuffer. */
  ghost predicate BootDir(d: seq<u32>, low: nat, ks: nat, ke: nat, screen: Option<Screen>) {
    |d| == ENTRIES && forall i :: 0 <= i < ENTRIES ==>
      (Present(d[i]) <==> TableServed(low, ks, ke, i) || Serves(i, FirstPage(screen), EndPage(screen)))
  }

  predicate TableServed(low: nat, ks: nat, ke: nat, i: nat) {
    Serves(i, 1, low) || Serves(i, KERN_PAGE + ks, KERN_PAGE + ke)
  }

  lemma ScreenOnTop(f0: seq<Option<Mapping>>, d0: seq<u32>, f: seq<Option<Mapping>>, d: seq<u32>,
                    low: nat, ks: nat, ke: nat, screen: Option<Screen>)
    requires LayoutMap(f0, low, ks, ke) && LayoutDir(d0, low, ks, ke)
    requires RangeMapped(f0, d0, f, d, FirstPage(screen), EndPage(screen), 0)
    ensures BootMap(f, low, ks, ke, screen) && BootDir(d, low, ks, ke, screen)
  {
  }

  /** The tables of the layout, as presence bits. */
  function LayoutEntries(low: nat, ks: nat, ke: nat): (d: seq<u32>)
    ensures |d| == ENTRIES
  {
    seq(ENTRIES, i requires 0 <= i < ENTRIES => if TableServed(low, ks, ke, i) then 1 else 0)
  }

  /** How many tables are new depends only on which are there. */
  lemma {:induction false} NewTablesSame(d: seq<u32>, d': seq<u32>, a: nat, b: nat)
    requires |d| == ENTRIES == |d'| && b <= VPAGES && forall i :: 0 <= i < ENTRIES ==>
             (Present(d[i]) <==> Present(d'[i]))
    ensures NewTables(d', a, b) == NewTables(d, a, b)
    decreases b
  {
    if a < b { NewTablesSame(d, d', a, b - 1); }
  }

  /** The same once the trial mapping has been undone. */
  ghost predicate TriedMap(f: seq<Option<Mapping>>, low: nat, ks: nat, ke: nat, screen: Option<Screen>) {
    |f| == VPAGES && forall p :: 0 <= p < VPAGES ==> f[p] == TriedPage(low, ks, ke, screen, p)
  }

  function TriedPage(low: nat, ks: nat, ke: nat, screen: Option<Screen>, p: nat): Option<Mapping> {
    if p == TEST_PAGE then None else if OnScreen(screen, p) then KernelPage(p) else Layout(low, ks, ke, p)
  }

  /** In figures: the framebuffer's pages and pages 1 .. low at their own address, the kernel's again 0xc0000 pages up,
      all of them for the kernel to read and write and none for user mode; the test page and everything else
      unmapped. */
  lemma TriedExact(low: nat, ks: nat, ke: nat, screen: Option<Screen>, p: nat)
    ensures TriedPage(low, ks, ke, screen, p)
            == if p == 0xd_0000 then None
               else if || (screen.Some? && screen.value.base / 4096 <= p < (screen.value.end as int + 4095) / 4096)
                       || 1 <= p < low then Some(Mapping(p, rw := true, user := false))
               else if 0xc_0000 + ks <= p < 0xc_0000 + ke then Some(Mapping(p - 0xc_0000, rw := true, user := false))
               else None
  {
  }

  // ---------------------------------------------------------------- guard pages

  /** The framebuffer covers no guard page of the first n stack windows. */
  ghost predicate ClearOfGuards(screen: Option<Screen>, n: nat) {
    forall j: nat, q: nat :: j < n && KernelVm.GuardPage(q, j) ==> !OnScreen(screen, q)
  }

  /** In figures: there are no windows, or it has no pages, or all of them lie below the windows or above them, or its
      one page is where a stack goes. */
  lemma ClearExactly(screen: Option<Screen>, n: nat)
    ensures var a, b := FirstPage(screen), EndPage(screen);
            ClearOfGuards(screen, n) <==>
              || n == 0 || b <= a || b <= KernelVm.STACK_PAGE || KernelVm.STACK_PAGE + 3 * n <= a
              || (b == a + 1 && KernelVm.StackPage(a, n))
  {
    var a, b, base := FirstPage(screen), EndPage(screen), KernelVm.STACK_PAGE;
    forall j: nat, q: nat | j < n && KernelVm.GuardPage(q, j) && b == a + 1 && KernelVm.StackPage(a, n)
      ensures q != a
    {
    }
    if n > 0 && a < b && b > base && base + 3 * n > a && !(b == a + 1 && KernelVm.StackPage(a, n)) {
      var q := if a < base then base else if (a - base) % 3 == 1 then a + 1 else a;
      var j := (q - base) / 3;
      assert OnScreen(screen, q) && KernelVm.GuardPage(q, j) && j < n;
    }
  }

}
