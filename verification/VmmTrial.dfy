/**
 The trial mapping of kmain: a fresh frame is mapped at the test page, written through,
 unmapped and given back. It leaves one table, a word in that frame, and the page unmapped.
 */
module VmmTrial {
  import opened Words
  import opened Ram
  import opened PmmModule
  import opened PageTables
  import opened PmapModule
  import opened AddressSpace
  import opened KernelVm
  import opened KernelMemory
  import opened Framebuffer

  const TEST_TABLE: nat := TEST_PAGE / ENTRIES
  const TEST_WORD: u32 := 0xcafe_f00d

  /** Frames that hold no structure keep their bytes, but for the first word of frame f, which is x now. */
  ghost predicate WordLeft(v: Space, v': Space, f: nat, x: u32)
    requires v'.Sized()
  {
    && |v.m| == |v'.m| && v'.Plain(f)
    && (forall p: nat :: v'.Plain(p) && p != f ==> Agree(v.m, v'.m, p * PAGE_SIZE, (p + 1) * PAGE_SIZE))
    && Agree(v.m, v'.m, f * PAGE_SIZE + 4, (f + 1) * PAGE_SIZE) && Word(v'.m, f * PAGE_SIZE) == x
  }

  /** The test page is unmapped and nothing else is; its table is there now, in the frame that was second in line. */
  ghost predicate Tried(v: Space, v': Space)
    requires v.Sized() && v'.Sized()
  {
    && v.cursor < v.npages && SamePlaces(v, v') && v'.Map() == v.Map()[TEST_PAGE := None] && v.Next() in v.free
    && (if Present(v.Dir()[TEST_TABLE]) then
          v'.Dir() == v.Dir() && v'.free == v.free && v'.cursor == After(v.Next(), v.npages)
        else
          && v.TableNext() in v.free - {v.Next()} && v.TableNext() < PHYS_PAGES
          && v'.Dir() == v.Dir()[TEST_TABLE := PdeFor(v.TableNext())]
          && v'.free == v.free - {v.TableNext()} && v'.cursor == After(v.TableNext(), v.npages))
    && WordLeft(v, v', v.Next(), TEST_WORD)
  }

  lemma WordThenKept(v: Space, v1: Space, v2: Space, f: nat, x: u32)
    requires v1.Sized() && v2.Sized() && SamePlaces(v1, v2) && v2.Dir() == v1.Dir()
    requires WordLeft(v, v1, f, x) && BytesKept(v1, v2)
    ensures WordLeft(v, v2, f, x)
  {
    forall p: nat | v2.Plain(p) && p != f ensures Agree(v.m, v2.m, p * PAGE_SIZE, (p + 1) * PAGE_SIZE) {
      PlainBefore(v1, v2, p);
    }
    PlainBefore(v2, v1, f);
    WordKept(v1.m, v2.m, f * PAGE_SIZE);
  }

  lemma KeptThenWord(v: Space, v1: Space, v2: Space, f: nat, x: u32)
    requires v1.Sized() && v2.Sized() && SamePlaces(v1, v2) && v2.Dir() == v1.Dir()
    requires BytesKept(v, v1) && WordLeft(v1, v2, f, x)
    ensures WordLeft(v, v2, f, x)
  {
    forall p: nat | v2.Plain(p) && p != f ensures Agree(v.m, v2.m, p * PAGE_SIZE, (p + 1) * PAGE_SIZE) {
      PlainBefore(v1, v2, p);
    }
    PlainBefore(v1, v2, f);
  }

  /** The store through the test page, which lands in the frame at pa. */
  method Touch(pm: Pmap, pa: nat, x: u32, ghost v: Space, ghost f: nat)
    requires Running(pm) && v == Snap(pm) && v.Sized() && v.Private(f) && pa == f * PAGE_SIZE
    modifies pm.pmm.ram
    ensures Running(pm) && Snap(pm).Sized() && WordStored(v, Snap(pm), pa) && WordLeft(v, Snap(pm), f, x)
  {
    StoreWord(pm.pmm.ram, pa, x);
    pm.pmm.ValidElsewhere(v.m);
    StoreHarmless(pm, v, f, pa);
    PlainBefore(Snap(pm), v, f);
  }

  /** vmm_unmap of a page that holds nothing the code works on. */
  method Unmap(pm: Pmap, q: nat, ghost v: Space)
    requires Running(pm) && v == Snap(pm) && q < VPAGES && !Structural(v.m, v.pgdir, v.lo, v.hi, q)
    modifies pm.pmm.ram, pm.pmm`npagesFree, pm.pmm`allocCursor, pm.pmm`free
    ensures Running(pm) && v.Sized() && Snap(pm).Sized() && Snap(pm) == v.(m := pm.pmm.ram[..])
    ensures pm.Map() == v.Map()[q := None] && pm.Dir() == v.Dir() && BytesKept(v, Snap(pm))
  {
    PageNumber(q);
    pm.Unmap(q * PAGE_SIZE);
    SameStructures(v.m, pm.pmm.ram[..], v.pgdir, v.lo, v.hi, q);
    OthersAreKept(v, Snap(pm));
  }

  lemma SameStructures(m: seq<u8>, m': seq<u8>, dir: nat, lo: nat, hi: nat, q: nat)
    requires |m| == PHYS_SIZE == |m'| && dir + PAGE_SIZE <= PHYS_SIZE && Directory(m', dir) == Directory(m, dir)
    ensures Structural(m', dir, lo, hi, q) == Structural(m, dir, lo, hi, q)
  {
    AllDirectory(m, dir);
    AllDirectory(m', dir);
  }

  /** pmm_free of a frame that is nobody's. */
  method GiveBack(pm: Pmap, pa: nat, ghost v: Space, ghost f: nat)
    requires Running(pm) && v == Snap(pm) && v.Sized() && v.Private(f) && pa == f * PAGE_SIZE && f < v.npages
    modifies pm.pmm.ram, pm.pmm`npagesFree, pm.pmm`free
    ensures Running(pm) && Snap(pm).Sized() && Snap(pm) == v.(m := pm.pmm.ram[..], free := v.free + {f})
    ensures pm.Map() == v.Map() && pm.Dir() == v.Dir() && BytesKept(v, Snap(pm))
  {
    pm.pmm.FreePage(pa);
    BitmapOnly(v.m, pm.pmm.ram[..], v.pgdir, v.free, v.free, true, v.lo, v.hi);
    assert pa / PAGE_SIZE == f;
    Released(v, pm.pmm.ram[..], f);
    OthersAreKept(v, Snap(pm));
  }

  lemma Released(v: Space, m': seq<u8>, f: nat)
    requires v.Sized() && |m'| == PHYS_SIZE && v.Private(f) && Directory(m', v.pgdir) == v.Dir()
    requires FreeClear(v.free, v.lo, v.hi) && TreeOwned(m', v.pgdir, v.free, v.lo, v.hi)
    ensures FreeClear(v.free + {f}, v.lo, v.hi) && TreeOwned(m', v.pgdir, v.free + {f}, v.lo, v.hi)
  {
    AllDirectory(m', v.pgdir);
  }

  lemma TestPage(v: Space)
    ensures TEST_PAGE < VPAGES && TEST_PAGE / ENTRIES == TEST_TABLE
  {
  }

  /** Nothing the code works on is at the test page, before or after its table is made. */
  lemma NotStructural(v: Space, v2: Space, v3: Space)
    requires v.Sized() && v2.Sized() && v3.Sized() && AllReached(v.m, v.pgdir, true, v.lo, v.hi)
             && v.Spare(TEST_PAGE)
    requires PageAdded(v, v2, TEST_PAGE) && (Present(v.Dir()[TEST_TABLE]) || v.Reaches(v.TableNext()))
    requires SamePlaces(v2, v3) && v3.Dir() == v2.Dir()
    ensures !Structural(v3.m, v3.pgdir, v3.lo, v3.hi, TEST_PAGE)
  {
    TestPage(v);
    var t := if Present(v.Dir()[TEST_TABLE]) then 0 else v.TableNext();
    AllFlat(v.m, v.pgdir);
    SpareHarmless(v, v3, TEST_PAGE, TEST_TABLE, t);
  }

  /** Mapped, written, unmapped, given back. */
  lemma AllTried(v: Space, v2: Space, v3: Space, v4: Space, v5: Space)
    requires v.Sized() && v2.Sized() && v3.Sized() && v4.Sized() && v5.Sized()
    requires PageAdded(v, v2, TEST_PAGE) && TEST_PAGE / ENTRIES == TEST_TABLE
    requires v3 == v2.(m := v3.m) && v3.Map() == v2.Map() && v3.Dir() == v2.Dir()
             && WordLeft(v2, v3, v.Next(), TEST_WORD)
    requires v4 == v3.(m := v4.m) && v4.Map() == v3.Map()[TEST_PAGE := None] && v4.Dir() == v3.Dir()
             && BytesKept(v3, v4)
    requires v5 == v4.(m := v5.m, free := v4.free + {v.Next()}) && v5.Map() == v4.Map() && v5.Dir() == v4.Dir()
    requires BytesKept(v4, v5)
    ensures Tried(v, v5)
  {
    assert v5.Map() == v.Map()[TEST_PAGE := None];
    KeptThenWord(v, v2, v3, v.Next(), TEST_WORD);
    WordThenKept(v, v3, v4, v.Next(), TEST_WORD);
    WordThenKept(v, v4, v5, v.Next(), TEST_WORD);
  }

  /** The block of kmain that tries the mapping calls; without a free page it is skipped. */
  method Trial(pm: Pmap, ghost v: Space) returns (r: MapOutcome)
    requires Running(pm) && v == Snap(pm) && v.Sized() && v.Spare(TEST_PAGE)
    modifies pm.pmm.ram, pm.pmm`npagesFree, pm.pmm`allocCursor, pm.pmm`free
    ensures v.free != {} ==> v.cursor < v.npages && r == v.Outcome(TEST_PAGE)
    ensures v.free == {} ==> r == Mapped
    ensures r == Mapped ==>
              Running(pm) && Snap(pm).Sized() && if v.free == {} then Snap(pm) == v else Tried(v, Snap(pm))
  {
    hide PageAdded, MappedOver, Tried, WordLeft, Space.Private, Space.Spare, Structural, Running, BytesKept;
    TestPage(v);
    Shape(pm, v);
    var pa := TakeNext(pm, v);
    if pa == ENOMEM {
      return Mapped;
    }
    ghost var v1 := Snap(pm);
    StillSpare(v, v1, TEST_PAGE);
    r := MapNew(pm, TEST_PAGE, pa, v1);
    if r == Mapped {
      ghost var v2 := Snap(pm);
      Both(v, v1, v2, TEST_PAGE);
      UseAndReturn(pm, pa, v, v2);
    }
  }

  lemma Shape(pm: Pmap, v: Space)
    requires Running(pm) && v == Snap(pm)
    ensures v.Sized() && FreeClear(v.free, v.lo, v.hi) && TreeNotFree(v) && AllReached(v.m, v.pgdir, true, v.lo, v.hi)
    ensures v.free != {} ==> v.cursor < v.npages && v.Next() in v.free && v.Next() < PHYS_PAGES && v.Next() < v.npages
  {
    RunningShape(pm);
    pm.pmm.FreeCount();
  }

  /** The rest of the trial, once the page is mapped. */
  method UseAndReturn(pm: Pmap, pa: nat, ghost v: Space, ghost v2: Space)
    requires Running(pm) && v2 == Snap(pm) && v.Sized() && v2.Sized() && v.Spare(TEST_PAGE)
    requires PageAdded(v, v2, TEST_PAGE) && (Present(v.Dir()[TEST_TABLE]) || v.Reaches(v.TableNext()))
    requires FreeClear(v.free, v.lo, v.hi) && TreeNotFree(v) && AllReached(v.m, v.pgdir, true, v.lo, v.hi)
    requires v.cursor < v.npages && v.Next() in v.free && v.Next() < PHYS_PAGES && v.Next() < v.npages
             && pa == v.Next() * PAGE_SIZE
    modifies pm.pmm.ram, pm.pmm`npagesFree, pm.pmm`allocCursor, pm.pmm`free
    ensures Running(pm) && Snap(pm).Sized() && Tried(v, Snap(pm))
  {
    hide PageAdded, Tried, WordLeft, Space.Private, Space.Spare, Structural, Running, BytesKept, TreeNotFree, FreeClear,
         AllReached;
    ghost var f := v.Next();
    TestPage(v);
    NextPrivate(v, v2, TEST_PAGE);
    PlacesSame(v, v2);
    Touch(pm, pa, TEST_WORD, v2, f);
    ghost var v3 := Snap(pm);
    NotStructural(v, v2, v3);
    Unmap(pm, TEST_PAGE, v3);
    ghost var v4 := Snap(pm);
    StillPrivate(v2, v4, f);
    GiveBack(pm, pa, v4, f);
    AllTried(v, v2, v3, v4, Snap(pm));
  }

  lemma PlacesSame(v: Space, v2: Space)
    requires v.Sized() && v2.Sized() && PageAdded(v, v2, TEST_PAGE)
    ensures v2.npages == v.npages
  {
  }

  lemma StillPrivate(v2: Space, v4: Space, f: nat)
    requires v2.Sized() && v4.Sized() && v2.Private(f) && v4 == v2.(m := v4.m) && v4.Dir() == v2.Dir()
    ensures v4.Private(f)
  {
  }
}
