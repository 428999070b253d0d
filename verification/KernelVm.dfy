/**
 The kernel's own address space after boot: its image at KERNBASE, the heap window and the
 thread stacks with their guard pages, each page of them backed by a frame of its own.
 */
module KernelVm {
  import opened Words
  import opened Ram
  import opened PmmModule
  import opened PageTables
  import opened PmapModule
  import opened AddressSpace

  const HEAP_PAGE: nat := 0xd_1000         // HEAP_BASE / PAGE_SIZE
  const HEAP_PAGES: nat := 256
  const HEAP_TABLE: nat := HEAP_PAGE / ENTRIES   // the one directory entry the heap window lies under
  const STACK_PAGE: nat := 0xe_0000        // THREAD_VA_BASE / PAGE_SIZE
  const THREAD_VA_BASE: nat := 0xe000_0000
  const THREAD_STRIDE: nat := 0x3000       // guard, stack, and one page on
  const MAX_THREADS: nat := 43690          // windows that fit below 4 GiB without wrapping

  /** next_thread_va after n threads, in 32 bits. */
  function NextThreadVa(n: nat): nat { (THREAD_VA_BASE + n * THREAD_STRIDE) % U32 }

  /** Pages that belong to the heap or the stack windows, mapped or not. */
  predicate Region(q: nat) { HEAP_PAGE <= q < HEAP_PAGE + HEAP_PAGES || STACK_PAGE <= q < VPAGES }

  function KernelRw(f: nat): Option<Mapping> { Some(Mapping(f, true, false)) }

  /** Page q is mapped, kernel read-write, to a private frame. */
  ghost predicate Backed(v: Space, q: nat)
    requires v.Sized() && q < VPAGES
  {
    v.Map()[q] == KernelRw(v.FrameAt(q)) && v.Private(v.FrameAt(q))
  }

  /** The pages of win are mapped, each to a private frame of its own. */
  ghost predicate Backings(v: Space, win: set<nat>)
    requires v.Sized()
  {
    && (forall q :: q in win ==> q < VPAGES && Backed(v, q))
    && (forall q, r :: q in win && r in win && q != r ==> v.FrameAt(q) != v.FrameAt(r))
  }

  /** Page q still goes where it went in the map `base`, and can be mapped without harm. */
  ghost predicate Untaken(v: Space, base: seq<Option<Mapping>>, q: nat)
    requires v.Sized() && q < VPAGES == |base|
  {
    v.Map()[q] == base[q] && v.Spare(q)
  }

  /** Of the windows, the pages of win are backed and the others are as they were in `base`, the map to begin with. */
  ghost predicate Windows(v: Space, base: seq<Option<Mapping>>, win: set<nat>)
    requires v.Sized()
  {
    && Backings(v, win) && |base| == VPAGES
    && forall q: nat :: q < VPAGES && Region(q) && q !in win ==> Untaken(v, base, q)
  }

  /** The pages of win keep their frames, and these the bytes they held. */
  ghost predicate PagesKept(v: Space, v': Space, win: set<nat>)
    requires v.Sized() && v'.Sized()
  {
    forall q :: q in win && q < VPAGES ==>
      v'.FrameAt(q) == v.FrameAt(q) && Agree(v.m, v'.m, v.FrameAt(q) * PAGE_SIZE, (v.FrameAt(q) + 1) * PAGE_SIZE)
  }

  /** A page given a fresh frame joins the windows; every page there keeps its frame and its bytes. */
  lemma PageJoins(v: Space, v': Space, base: seq<Option<Mapping>>, win: set<nat>, q: nat)
    requires v.Sized() && v'.Sized() && Windows(v, base, win) && q < VPAGES && Region(q) && q !in win
    requires PageAdded(v, v', q) && FreeClear(v.free, v.lo, v.hi) && TreeNotFree(v) && v.Next() < PHYS_PAGES
    ensures Windows(v', base, win + {q}) && PagesKept(v, v', win)
  {
    GrownByPage(v, v', q);
    forall p | p in win
      ensures p < VPAGES && Backed(v', p) && v'.FrameAt(p) == v.FrameAt(p) && v.FrameAt(p) != v.Next()
      ensures Agree(v.m, v'.m, v.FrameAt(p) * PAGE_SIZE, (v.FrameAt(p) + 1) * PAGE_SIZE)
    {
      assert Backed(v, p);
      PrivateKept(v, v', v.FrameAt(p));
    }
    NextPrivate(v, v', q);
    forall p: nat | p < VPAGES && Region(p) && p !in win + {q} ensures Untaken(v', base, p) {
      assert Untaken(v, base, p);
      if v.Private(p) { PrivateKept(v, v', p); }
    }
  }

  lemma GrownByPage(v: Space, v': Space, q: nat)
    requires v.Sized() && v'.Sized() && q < VPAGES && PageAdded(v, v', q)
    ensures Grown(v.Dir(), v'.Dir(), v.free) && Extends(v.Dir(), v'.Dir()) && v'.free <= v.free
  {
    if !Present(v.Dir()[q / ENTRIES]) { assert FrameOf(PdeFor(v.TableNext())) == v.TableNext(); }
  }

  /** No part of the tree is free. */
  ghost predicate TreeNotFree(v: Space)
    requires v.Sized()
  {
    FrameOf(v.pgdir) !in v.free && forall i :: 0 <= i < ENTRIES && Present(v.Dir()[i]) ==>
        FrameOf(v.Dir()[i]) !in v.free
  }

  /** The frame just given is nobody else's. */
  lemma NextPrivate(v: Space, v': Space, q: nat)
    requires v.Sized() && v'.Sized() && q < VPAGES && PageAdded(v, v', q)
    requires FreeClear(v.free, v.lo, v.hi) && TreeNotFree(v) && v.Next() < PHYS_PAGES
    ensures v'.Private(v.Next())
  {
    assert PageClear(v.Next() * PAGE_SIZE, v.lo, v.hi);
    if !Present(v.Dir()[q / ENTRIES]) { assert FrameOf(PdeFor(v.TableNext())) == v.TableNext(); }
  }

  /** What the allocator and the tables promise, seen from a Space. */
  lemma RunningShape(pm: Pmap)
    requires Running(pm)
    ensures var v := Snap(pm);
            && v.Sized() && FreeClear(v.free, v.lo, v.hi) && TreeNotFree(v) && v.Map() == pm.Map()
               && v.Dir() == pm.Dir()
            && (v.free != {} ==> v.cursor < v.npages && v.Next() in v.free && v.Next() < PHYS_PAGES)
  {
    AllDirectory(pm.pmm.ram[..], pm.pgdir);
    pm.pmm.FreeCount();
    if pm.pmm.free != {} {
      var x :| x in pm.pmm.free;
      FreePagesBelow(pm.pmm.ram[..], pm.pmm.bitmap, pm.pmm.npagesTotal);
      NextFreeFirst(pm.pmm.free, pm.pmm.allocCursor, pm.pmm.npagesTotal);
    }
  }

  // ---------------------------------------------------------------- which pages

  /** Stack pages of the first n threads: the middle page of each window of three. */
  predicate StackPage(q: nat, n: nat) { STACK_PAGE <= q < STACK_PAGE + 3 * n && (q - STACK_PAGE) % 3 == 1 }

  /** The kernel's pages a .. b, and what is mapped of the windows once k heap pages and n stacks are. */
  ghost function Win(a: nat, b: nat, k: nat, n: nat): set<nat> {
    set q: nat | q < VPAGES && (a <= q < b || HEAP_PAGE <= q < HEAP_PAGE + k || StackPage(q, n))
  }

  lemma WinHeapStep(a: nat, b: nat, k: nat, n: nat)
    requires k < HEAP_PAGES && b <= HEAP_PAGE
    ensures Region(HEAP_PAGE + k) && HEAP_PAGE + k !in Win(a, b, k, n)
    ensures Win(a, b, k + 1, n) == Win(a, b, k, n) + {HEAP_PAGE + k}
  {
  }

  lemma WinStackStep(a: nat, b: nat, k: nat, n: nat)
    requires k <= HEAP_PAGES && n < MAX_THREADS && b <= HEAP_PAGE
    ensures var q := StackPageOf(n);
            q < VPAGES && Region(q) && q !in Win(a, b, k, n) && Win(a, b, k, n + 1) == Win(a, b, k, n) + {q}
  {
  }

  function StackPageOf(n: nat): nat { STACK_PAGE + 3 * n + 1 }

  /** The page below the j-th stack, or the page above it. */
  predicate GuardPage(q: nat, j: nat) { q == STACK_PAGE + 3 * j || q == STACK_PAGE + 3 * j + 2 }

  /** Guard pages go where they went to begin with: unmapped exactly if they were, after any number of stacks. */
  lemma GuardsAsBefore(v: Space, base: seq<Option<Mapping>>, a: nat, b: nat, k: nat, n: nat, j: nat, q: nat)
    requires v.Sized() && Windows(v, base, Win(a, b, k, n)) && k <= HEAP_PAGES && b <= HEAP_PAGE
    requires j < MAX_THREADS && GuardPage(q, j)
    ensures q < VPAGES && v.Map()[q] == base[q]
    ensures var s := StackPageOf(j); s < VPAGES && if j < n then Backed(v, s) else v.Map()[s] == base[s]
  {
    var s, w := StackPageOf(j), Win(a, b, k, n);
    assert Region(q) && q !in w && Untaken(v, base, q);
    assert j < n <==> s in w;
    if j >= n { assert Region(s) && Untaken(v, base, s); }
  }

  /** That is exactly up to the 43690th window. */
  lemma ThreadVaNoWrap(n: nat)
    ensures NextThreadVa(n) == THREAD_VA_BASE + n * THREAD_STRIDE <==> n <= MAX_THREADS
  {
    if n > MAX_THREADS { assert THREAD_VA_BASE + n * THREAD_STRIDE >= U32; }
  }

  lemma WindowAddress(n: nat)
    requires n < MAX_THREADS
    ensures var s := NextThreadVa(n) + PAGE_SIZE;
            && s == StackPageOf(n) * PAGE_SIZE && s / PAGE_SIZE == StackPageOf(n)
            && (s + PAGE_SIZE + PAGE_SIZE) % U32 == NextThreadVa(n + 1)
  {
    PageNumber(StackPageOf(n));
  }

  // ---------------------------------------------------------------- the heap window

  /** The first k pages of the heap window are mapped, each to a frame that was free; every other page goes where it
      went, one table at most was made, and frames that hold no structure keep their bytes. */
  ghost predicate HeapMapped(v: Space, v': Space, k: nat)
    requires v.Sized() && v'.Sized()
  {
    && SamePlaces(v, v') && k <= HEAP_PAGES && v'.free <= v.free
    && (forall q :: 0 <= q < VPAGES && !(HEAP_PAGE <= q < HEAP_PAGE + k) ==> v'.Map()[q] == v.Map()[q])
    && (forall q :: HEAP_PAGE <= q < HEAP_PAGE + k ==>
       v'.Map()[q] == KernelRw(v'.FrameAt(q)) && v'.FrameAt(q) in v.free)
    && (forall i :: 0 <= i < ENTRIES && i != HEAP_TABLE ==> v'.Dir()[i] == v.Dir()[i])
    && Grown(v.Dir(), v'.Dir(), v.free) && (Present(v'.Dir()[HEAP_TABLE]) <==> k > 0 || Present(v.Dir()[HEAP_TABLE]))
    && |v'.free| + k + (if k > 0 && !Present(v.Dir()[HEAP_TABLE]) then 1 else 0) == |v.free|
    && BytesKept(v, v')
  }

  /** What kheap_init comes to: 256 frames and, unless there is one already, a table in reach. */
  ghost function HeapOutcome(v: Space): MapOutcome
    requires v.Sized() && (v.free != {} ==> v.cursor < v.npages)
  {
    if Present(v.Dir()[HEAP_TABLE]) then (if |v.free| >= HEAP_PAGES then Mapped else NoFrame)
    else if |v.free| < 2 then NoFrame
    else if !v.Reaches(v.TableNext()) then Unreachable
    else if |v.free| >= HEAP_PAGES + 1 then Mapped else NoFrame
  }

  lemma HeapStep(v: Space, v1: Space, v2: Space, k: nat)
    requires v.Sized() && v1.Sized() && v2.Sized() && k < HEAP_PAGES && HeapMapped(v, v1, k)
             && PageAdded(v1, v2, HEAP_PAGE + k)
    ensures HeapMapped(v, v2, k + 1)
  {
    GrownByPage(v1, v2, HEAP_PAGE + k);
    var q := HEAP_PAGE + k;
    assert v2.FrameAt(q) == v1.Next();
    forall p | HEAP_PAGE <= p < q ensures v2.FrameAt(p) == v1.FrameAt(p) {}
    BytesKeptTwice(v, v1, v2);
  }

  /** A round fails exactly when the whole does. */
  lemma HeapRound(v: Space, v1: Space, k: nat)
    requires v.Sized() && v1.Sized() && k < HEAP_PAGES && HeapMapped(v, v1, k) && (k == 0 ==> v1 == v)
    requires (v.free != {} ==> v.cursor < v.npages && v.Next() in v.free) && (v1.free != {} ==> v1.cursor < v1.npages)
    requires k > 0 && !Present(v.Dir()[HEAP_TABLE]) ==> |v.free| >= 2 && v.Reaches(v.TableNext())
    ensures var r := v1.Outcome(HEAP_PAGE + k);
            && (r != Mapped ==> r == HeapOutcome(v))
            && (r == Mapped && !Present(v.Dir()[HEAP_TABLE]) ==> |v.free| >= 2 && v.Reaches(v.TableNext()))
            && (r == Mapped && k + 1 == HEAP_PAGES ==> HeapOutcome(v) == Mapped)
  {
    if k == 0 && v.free != {} {
      assert |v.free - {v.Next()}| == |v.free| - 1;
      assert v.free == {v.Next()} <==> |v.free - {v.Next()}| == 0;
    } else {
      assert v1.free == {} <==> |v1.free| == 0;
    }
  }

  class Kvm {
    const pm: Pmap
    var nextThreadVa: nat
    ghost const kernelLo: nat    // the kernel's own pages
    ghost const kernelHi: nat
    ghost const base: seq<Option<Mapping>>   // where pages went before there were windows
    ghost var heapPages: nat
    ghost var threads: nat

    ghost function Pages(): set<nat>
      reads this
    {
      Win(kernelLo, kernelHi, heapPages, threads)
    }

    ghost predicate Valid()
      reads this, pm, pm.pmm, pm.pmm.ram
    {
      && Running(pm) && Snap(pm).Sized()
      && kernelHi <= HEAP_PAGE && heapPages <= HEAP_PAGES && threads <= MAX_THREADS
      && nextThreadVa == NextThreadVa(threads)
      && Windows(Snap(pm), base, Pages())
    }

    constructor (pm: Pmap, ghost kernelLo: nat, ghost kernelHi: nat)
      requires Running(pm) && Snap(pm).Sized() && kernelHi <= HEAP_PAGE
               && Windows(Snap(pm), pm.Map(), Win(kernelLo, kernelHi, 0, 0))
      ensures Valid() && this.pm == pm && base == pm.Map() && heapPages == 0 && threads == 0
      ensures this.kernelLo == kernelLo && this.kernelHi == kernelHi
    {
      this.pm, this.kernelLo, this.kernelHi, base := pm, kernelLo, kernelHi, pm.Map();
      nextThreadVa, heapPages, threads := THREAD_VA_BASE, 0, 0;
    }

    /** One page of the two windows, as thread_stack_alloc and the rounds of kheap_init map it. */
    method MapPage(q: nat, ghost v: Space, ghost win: set<nat>) returns (r: MapOutcome)
      requires Running(pm) && v == Snap(pm) && v.Sized() && Windows(v, base, win) && q < VPAGES && Region(q)
               && q !in win
      modifies pm.pmm.ram, pm.pmm`npagesFree, pm.pmm`allocCursor, pm.pmm`free
      ensures pm.Valid() && Snap(pm).Sized() && (v.free != {} ==> v.cursor < v.npages && v.Next() in v.free)
      ensures r == v.Outcome(q)
      ensures r == Mapped ==>
        && Running(pm) && PageAdded(v, Snap(pm), q) && PagesKept(v, Snap(pm), win)
        && Windows(Snap(pm), base, win + {q})
    {
      hide PageAdded, Windows, PagesKept, TreeNotFree, FreeClear, Space.Spare;
      RunningShape(pm);
      WindowSpare(v, base, win, q);
      r := MapFresh(pm, q, v);
      if r == Mapped {
        PageJoins(v, Snap(pm), base, win, q);
      }
    }

    /** kheap_init: the whole heap window, a fresh frame for each page. */
    method KheapInit() returns (r: MapOutcome)
      requires Valid() && heapPages == 0
      modifies this`heapPages, pm.pmm.ram, pm.pmm`npagesFree, pm.pmm`allocCursor, pm.pmm`free
      ensures Snap(pm).Sized() && old(Snap(pm)).Sized()
              && (old(Snap(pm)).free != {} ==> old(Snap(pm)).cursor < old(Snap(pm)).npages)
      ensures r == HeapOutcome(old(Snap(pm)))
      ensures r == Mapped ==>
        && Valid() && heapPages == HEAP_PAGES && HeapMapped(old(Snap(pm)), Snap(pm), HEAP_PAGES)
        && PagesKept(old(Snap(pm)), Snap(pm), old(Pages()))
    {
      hide HeapMapped, PagesKept, Windows, HeapOutcome, Win, Running;
      ghost var v, win, reached := Snap(pm), Pages(), false;
      Started(v, win);
      var va := HEAP_PAGE * PAGE_SIZE;
      while va < (HEAP_PAGE + HEAP_PAGES) * PAGE_SIZE
        invariant heapPages <= HEAP_PAGES && va == (HEAP_PAGE + heapPages) * PAGE_SIZE
        invariant Progress(v, win)
      {
        PageNumber(HEAP_PAGE + heapPages);
        r := MapHeapPage(va / PAGE_SIZE, v, win);
        if r != Mapped {
          return;
        }
        va := va + PAGE_SIZE;
      }
      r := Mapped;
    }

    /** Where the loop of kheap_init stands. */
    ghost predicate Progress(v: Space, win: set<nat>)
      requires v.Sized()
      reads this, pm, pm.pmm, pm.pmm.ram
    {
      && Valid() && (v.free != {} ==> v.cursor < v.npages && v.Next() in v.free)
      && HeapMapped(v, Snap(pm), heapPages) && (heapPages == 0 ==> Snap(pm) == v) && PagesKept(v, Snap(pm), win)
         && win <= Pages()
      && (heapPages > 0 && !Present(v.Dir()[HEAP_TABLE]) ==> |v.free| >= 2 && v.Reaches(v.TableNext()))
      && (heapPages == HEAP_PAGES ==> HeapOutcome(v) == Mapped)
    }

    lemma Started(v: Space, win: set<nat>)
      requires Valid() && heapPages == 0 && v == Snap(pm) && win == Pages()
      ensures Progress(v, win)
    {
      RunningShape(pm);
    }

    /** Before a round: the page is unmapped, and what the round comes to decides the whole when it fails. */
    lemma RoundStarts(v: Space, win: set<nat>)
      requires v.Sized() && Progress(v, win) && heapPages < HEAP_PAGES
      ensures var q, v1 := HEAP_PAGE + heapPages, Snap(pm);
              && Running(pm) && v1.Sized() && Windows(v1, base, Pages()) && Region(q) && q !in Pages()
              && (v.free != {} ==> v.cursor < v.npages) && (v1.free != {} ==> v1.cursor < v1.npages)
              && (v1.Outcome(q) != Mapped ==> v1.Outcome(q) == HeapOutcome(v))
    {
      RunningShape(pm);
      WinHeapStep(kernelLo, kernelHi, heapPages, threads);
      HeapRound(v, Snap(pm), heapPages);
    }

    /** After a round that mapped its page. */
    lemma RoundEnds(v: Space, v1: Space, win: set<nat>, win1: set<nat>, k: nat)
      requires v.Sized() && v1.Sized() && Snap(pm).Sized() && k < HEAP_PAGES && heapPages == k + 1
      requires HeapMapped(v, v1, k) && (k == 0 ==> v1 == v) && PagesKept(v, v1, win) && win <= win1
      requires v.free != {} ==> v.cursor < v.npages && v.Next() in v.free
      requires k > 0 && !Present(v.Dir()[HEAP_TABLE]) ==> |v.free| >= 2 && v.Reaches(v.TableNext())
      requires (v1.free != {} ==> v1.cursor < v1.npages) && v1.Outcome(HEAP_PAGE + k) == Mapped
      requires Running(pm) && kernelHi <= HEAP_PAGE && threads <= MAX_THREADS && nextThreadVa == NextThreadVa(threads)
      requires win1 == Win(kernelLo, kernelHi, k, threads) && Windows(Snap(pm), base, win1 + {HEAP_PAGE + k})
      requires PageAdded(v1, Snap(pm), HEAP_PAGE + k) && PagesKept(v1, Snap(pm), win1)
      ensures Progress(v, win)
    {
      hide Windows, PageAdded, HeapMapped, PagesKept;
      WinHeapStep(kernelLo, kernelHi, k, threads);
      HeapRound(v, v1, k);
      HeapStep(v, v1, Snap(pm), k);
      PagesKeptTwice(v, v1, Snap(pm), win, win1);
    }

    method MapHeapPage(q: nat, ghost v: Space, ghost win: set<nat>) returns (r: MapOutcome)
      requires v.Sized() && Progress(v, win) && heapPages < HEAP_PAGES && q == HEAP_PAGE + heapPages
      modifies this`heapPages, pm.pmm.ram, pm.pmm`npagesFree, pm.pmm`allocCursor, pm.pmm`free
      ensures Snap(pm).Sized() && (v.free != {} ==> v.cursor < v.npages)
      ensures r == Mapped ==> Progress(v, win) && heapPages == old(heapPages) + 1
      ensures r != Mapped ==> r == HeapOutcome(v)
    {
      hide HeapMapped, PagesKept, Windows, HeapOutcome, Win, PageAdded, Space.Outcome, Space.TableNext, Space.Next,
           Space.Reaches;
      ghost var v1, win1 := Snap(pm), Pages();
      RoundStarts(v, win);
      r := MapPage(q, v1, win1);
      if r == Mapped {
        heapPages := heapPages + 1;
        RoundEnds(v, v1, win, win1, heapPages - 1);
      }
    }

    /** thread_stack_alloc: a guard page left unmapped, then the stack's page with a fresh frame. */
    method ThreadStackAlloc() returns (r: MapOutcome, stackVa: nat)
      requires Valid() && threads < MAX_THREADS
      modifies this`nextThreadVa, this`threads, pm.pmm.ram, pm.pmm`npagesFree, pm.pmm`allocCursor, pm.pmm`free
      ensures Snap(pm).Sized() && old(Snap(pm)).Sized()
              && (old(Snap(pm)).free != {} ==> old(Snap(pm)).cursor < old(Snap(pm)).npages)
      ensures stackVa == StackPageOf(old(threads)) * PAGE_SIZE == 0xe000_1000 + 0x3000 * old(threads)
              && StackPageOf(old(threads)) < VPAGES
      ensures r == old(Snap(pm)).Outcome(StackPageOf(old(threads)))
      ensures r == Mapped ==>
        && Valid() && threads == old(threads) + 1
        && PageAdded(old(Snap(pm)), Snap(pm), StackPageOf(old(threads)))
           && PagesKept(old(Snap(pm)), Snap(pm), old(Pages()))
    {
      hide PageAdded, Windows, PagesKept, Win, Running, Space.Outcome, NextThreadVa;
      WindowAddress(threads);
      WinStackStep(kernelLo, kernelHi, heapPages, threads);
      var guardVa := nextThreadVa;
      stackVa := guardVa + PAGE_SIZE;
      r := MapPage(stackVa / PAGE_SIZE, Snap(pm), Pages());
      if r == Mapped {
        nextThreadVa := (stackVa + PAGE_SIZE + PAGE_SIZE) % U32;
        threads := threads + 1;
      }
    }
  }

  lemma PagesKeptTwice(v: Space, v1: Space, v2: Space, win: set<nat>, win1: set<nat>)
    requires v.Sized() && v1.Sized() && v2.Sized() && win <= win1
    requires PagesKept(v, v1, win) && PagesKept(v1, v2, win1)
    ensures PagesKept(v, v2, win)
  {
    forall q | q in win && q < VPAGES
      ensures v2.FrameAt(q) == v.FrameAt(q)
              && Agree(v.m, v2.m, v.FrameAt(q) * PAGE_SIZE, (v.FrameAt(q) + 1) * PAGE_SIZE)
    {
      assert q in win1;
    }
  }

  lemma WindowSpare(v: Space, base: seq<Option<Mapping>>, win: set<nat>, q: nat)
    requires v.Sized() && Windows(v, base, win) && q < VPAGES && Region(q) && q !in win
    ensures v.Spare(q)
  {
    assert Untaken(v, base, q);
  }
}
