/**
 A machine from which boot goes through although its framebuffer lies where the thread
 stacks go: nothing in kmain looks, and the guard page of the first stack is the screen.
 */
module ScreenClash {
  import opened Words
  import opened Ram
  import opened PmmModule
  import opened FrameOrder
  import opened Multiboot
  import PmmBoot
  import opened PageTables
  import opened PmapInit
  import opened AddressSpace
  import opened KernelVm
  import opened Framebuffer
  import opened VmmTrial
  import opened KernelBoot

  /** The bytes of a blob at address 0: 639 KiB and 31 MiB of memory, and a framebuffer of 1024 by 768 pixels at
      0xe0000000. */
  function BlobByte(a: nat): u8 {
    match a
    case 0 => 64
    case 8 => 4                       // basic memory
    case 12 => 16
    case 16 => 0x7f
    case 17 => 2
    case 21 => 0x7c
    case 24 => 8                      // framebuffer
    case 28 => 32
    case 35 => 0xe0
    case 41 => 0x10
    case 45 => 4
    case 49 => 3
    case 52 => 32
    case 53 => 1
    case 60 => 8                      // end
    case _ => 0
  }

  function ClashMemory(): (m: seq<u8>)
    ensures |m| == PHYS_SIZE && forall a :: 0 <= a < PHYS_SIZE ==> m[a] == BlobByte(a)
  {
    seq(PHYS_SIZE, a requires 0 <= a < PHYS_SIZE => BlobByte(a))
  }

  /** That memory, and a kernel of 256 KiB from 1 MiB on. */
  function ClashGiven(): Given { Given(ClashMemory(), 0, 0x10_0000, 0x14_0000) }

  lemma WordThere(a: nat, v: u32)
    requires a + 4 <= 64 && BlobByte(a) == v % 0x100 && BlobByte(a + 1) == v / 0x100 % 0x100
             && BlobByte(a + 2) == v / 0x1_0000 % 0x100 && BlobByte(a + 3) == v / 0x100_0000
    ensures Word(ClashMemory(), a) == v
  {
    hide BlobByte;
    WordOfBytes(ClashMemory(), a, v);
  }

  lemma BlobWords()
    ensures var m := ClashMemory();
            && Word(m, 0) == 64 && Word(m, 8) == TAG_BASIC_MEMINFO && Word(m, 12) == 16 && Word(m, 16) == 639
            && Word(m, 20) == 0x7c00 && Word(m, 24) == TAG_FRAMEBUFFER && Word(m, 28) == 32 && Word(m, 40) == 4096
            && Word(m, 48) == 768 && m[53] == 1 && Word(m, 56) == TAG_END
  {
    hide ClashMemory, Word;
    WordThere(0, 64);
    WordThere(8, 4);
    WordThere(12, 16);
    WordThere(16, 639);
    WordThere(20, 0x7c00);
    WordThere(24, 8);
    WordThere(28, 32);
    WordThere(40, 4096);
    WordThere(48, 768);
    WordThere(56, 0);
  }

  lemma BlobBase()
    ensures var m := ClashMemory(); Long(m, 32) == 0xe000_0000
  {
    var m := ClashMemory();
    assert Little(m, 40, 40) == 0;
    assert Little(m, 39, 40) == 0;
    assert Little(m, 38, 40) == 0;
    assert Little(m, 37, 40) == 0;
    assert Little(m, 36, 40) == 0;
    assert Little(m, 35, 40) == 0xe0;
    assert Little(m, 34, 40) == 0xe000;
    assert Little(m, 33, 40) == 0xe0_0000;
  }

  lemma BlobTags()
    ensures var m := ClashMemory();
            && BlobOk(m, 0) && BlobSize(m, 0) == 64 && AllModules(m, 0) == []
            && FindTag(m, 0, TAG_MMAP) == 0 && FindTag(m, 0, TAG_BASIC_MEMINFO) == 8
            && FindTag(m, 0, TAG_FRAMEBUFFER) == 24
  {
    hide ClashMemory, Word;
    BlobWords();
    var m := ClashMemory();
    assert NextTag(m, 8) == 24 && NextTag(m, 24) == 56;
    assert TagsOk(m, 56, 64);
    assert TagsOk(m, 24, 64);
    assert TagsOk(m, 8, 64);
    assert Modules(m, 56, 64) == [] && Modules(m, 24, 64) == [];
    forall kind: nat | kind == TAG_MMAP || kind == TAG_BASIC_MEMINFO || kind == TAG_FRAMEBUFFER
      ensures Find(m, 56, 64, kind) == 0 && Find(m, 24, 64, kind) == if kind == TAG_FRAMEBUFFER then 24 else 0
    {
      assert Find(m, 56, 64, kind) == 0;
    }
  }

  /** The figures that boot works with. */
  lemma Figures()
    ensures var i := ClashGiven();
            && i.Ok() && i.Display() == Some(Screen(0xe000_0000, 0xe030_0000)) && i.Low() == 2048
            && PmmBoot.TotalPages(i.m, 0) == 8192 && PmmBoot.BitmapAddr(i.m, 0, i.kernelEnd) == 0x14_0000
            && PmmBoot.BitmapFits(i.m, 0, i.kernelEnd) && PmmBoot.BitmapReached(i.m, 0, i.kernelEnd)
    ensures Available(ClashGiven().m, 0) == [Region(0, 1024 * 639), Region(0x10_0000, 1024 * 0x7c00)]
  {
    BlobTags();
    BlobWords();
    BlobBase();
    hide ClashMemory, Word, Long, TagsOk, TagOk, Find;
    var i := ClashGiven();
    assert PmmBoot.MaxAvailable(i.m, 0) == 0x200_0000;
    assert PmmBoot.BootEnd(i.m, 0, i.kernelEnd) == 0x14_0000;
    assert PmmBoot.AllFit(Available(i.m, 0));
  }

  /** Everything from page 321 up to 32 MiB is free. */
  lemma FreeThere(p: nat)
    requires 321 <= p < 8192
    ensures ClashGiven().Ok() && p in ClashGiven().Free()
  {
    hide ClashMemory, TagsOk, TagOk, PmmBoot.BootFree, PmmBoot.BitmapAddr, PmmBoot.TotalPages, Find, Modules, Available,
         PmmBoot.HasPage, PmmBoot.ModulePage;
    Figures();
    BlobTags();
    var i := ClashGiven();
    PmmBoot.FreeAfterBoot(i.m, i.mbi, i.kernelStart, i.kernelEnd, p);
    PmmBoot.HasPageExact(i.m, i.mbi, p);
    PmmBoot.ModulePageExact(i.m, i.mbi, p);
    assert Region(0x10_0000, 1024 * 0x7c00) in Available(i.m, 0) && Inside(p, 0x10_0000, 1024 * 0x7c00);
    assert !Touches(p, 0, 0x10_0000) && !Touches(p, 0x10_0000, 0x4_0000) && !Touches(p, 0, 64);
    assert PmmBoot.BitmapRoom(8192) == PAGE_SIZE && !Touches(p, 0x14_0000, PAGE_SIZE);
  }

  lemma {:induction false} RangeBelow(s: set<nat>, j: nat, k: nat)
    requires j <= k && forall p: nat :: j <= p < k ==> p in s
    ensures Below(s, k) >= k - j
    decreases k
  {
    if j < k { RangeBelow(s, j, k - 1); }
  }

  /** The framebuffer takes one table, which serves neither the test page nor the heap. */
  lemma ScreenThere()
    ensures var screen := Some(Screen(0xe000_0000, 0xe030_0000));
            && FirstPage(screen) == 0xe_0000 && EndPage(screen) == 0xe_0300
            && ScreenTables(screen, LayoutEntries(2048, 0x100, 0x140)) == 1
            && !Serves(TEST_TABLE, 0xe_0000, 0xe_0300) && !Serves(HEAP_TABLE, 0xe_0000, 0xe_0300)
  {
    AllNew(LayoutEntries(2048, 0x100, 0x140), 0xe_0000, 0xe_0300);
  }

  /** Tables wanted: three and the directory for the layout, one for the framebuffer. */
  lemma TablesThere()
    ensures var i := ClashGiven();
            && i.Ok() && i.Tables() == 4 && i.TablesAndScreen() == 5
            && i.Missing(TEST_TABLE) == 1 == i.Missing(HEAP_TABLE)
  {
    hide ClashMemory, TagsOk, TagOk, PmmBoot.BootFree, PmmBoot.BitmapAddr, PmmBoot.TotalPages, Find, Modules, Available,
         Given.Low, Given.Display, Given.Ok, ScreenTables, LayoutEntries, FirstPage, EndPage, PmmBoot.BitmapFits,
         PmmBoot.BitmapReached;
    Figures();
    ScreenThere();
    var i := ClashGiven();
    assert i.kernelStart / PAGE_SIZE == 0x100 && PagesUpTo(i.kernelEnd) == 0x140;
    assert LayoutTables(2048, 0x100, 0x140) == 3;
  }

  /** Frames there are: at least as many as boot wants, low enough. */
  lemma FramesThere()
    ensures var i := ClashGiven();
            && i.Ok() && Below(i.Free(), BOOT_PAGES) >= 703 && Below(i.Free(), 2048) >= 1727 && |i.Free()| >= 1727
  {
    hide ClashGiven, Given.Free;
    FreeBounded();
    var s := ClashGiven().Free();
    forall p: nat | 321 <= p < 8192 ensures p in s { FreeThere(p); }
    RangeBelow(s, 321, BOOT_PAGES);
    RangeBelow(s, 321, 2048);
    BelowAtMost(s, 2048, 8192);
  }

  lemma DeviceThere()
    ensures ClashGiven().Ok() && ClashGiven().Device()
  {
    hide ClashMemory, TagsOk, TagOk, Find, Modules, Available, Given.Free;
    Figures();
    FreeBounded();
  }

  /** Boot goes through, and the framebuffer covers the guard page of the first stack. */
  lemma BootsOnClash()
    ensures var i := ClashGiven();
            && i.Ok() && i.Device() && i.Bootable()
            && OnScreen(i.Display(), STACK_PAGE) && !ClearOfGuards(i.Display(), 1)
  {
    hide ClashMemory, TagsOk, TagOk, Find, Modules, Available, Given.Free, Given.Device, Given.Tables,
         Given.TablesAndScreen, Given.Missing, PmmBoot.BitmapFits, PmmBoot.BitmapReached, Below;
    Figures();
    TablesThere();
    FramesThere();
    DeviceThere();
    assert GuardPage(STACK_PAGE, 0);
  }

  lemma FreeBounded()
    ensures ClashGiven().Ok() && forall p :: p in ClashGiven().Free() ==> p < 8192
  {
    hide ClashMemory, TagsOk, TagOk, PmmBoot.BootFree, PmmBoot.BitmapAddr, PmmBoot.TotalPages, Find, Modules, Available,
         PmmBoot.HasPage, PmmBoot.ModulePage;
    Figures();
    var i := ClashGiven();
    forall p | p in i.Free() ensures p < 8192 {
      PmmBoot.FreeAfterBoot(i.m, i.mbi, i.kernelStart, i.kernelEnd, p);
    }
  }

  /** So there the first guard page is mapped once boot is through, and after any number of stacks. */
  lemma GuardLost(vm: Kvm)
    requires vm.Valid() && vm.kernelHi == ClashGiven().KernelHi() && BlobOk(ClashGiven().m, 0)
    requires var i := ClashGiven();
             TriedMap(vm.base, i.Low(), i.kernelStart / PAGE_SIZE, PagesUpTo(i.kernelEnd), i.Display())
    ensures Snap(vm.pm).Sized() && !Guarded(Snap(vm.pm), 0)
  {
    hide ClashMemory, TagsOk, TagOk, Kvm.Valid, Guarded, TriedMap, Given.Ok, Given.Bootable, Given.Device,
         ClearOfGuards, Given.Display, Given.Low, BlobOk, OnScreen;
    BootsOnClash();
    GuardsHold(ClashGiven(), vm, 1);
  }
}
