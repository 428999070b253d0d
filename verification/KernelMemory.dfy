/**
 The kernel's memory as its code sees it: words at virtual addresses, read through the page
 tables in RAM. A store changes the one word it names, and neither tables nor bitmap.
 */
module KernelMemory {
  import opened Words
  import opened Ram
  import opened PmmModule
  import opened PageTables
  import opened PmapModule
  import opened AddressSpace
  import opened KernelVm

  const PAGE_WORDS: nat := 1024
  const WORDS: nat := 0x4000_0000          // words of a 32-bit address space

  /** Physical address of the word at virtual word address a. */
  ghost function PhysOf(v: Space, a: nat): nat
    requires v.Sized() && a < WORDS
  {
    v.FrameAt(a / PAGE_WORDS) * PAGE_SIZE + 4 * (a % PAGE_WORDS)
  }

  /** The word at virtual word address a. */
  ghost function WordAt(v: Space, a: nat): u32
    requires v.Sized() && a < WORDS
  {
    if PhysOf(v, a) + 4 <= PHYS_SIZE then Word(v.m, PhysOf(v, a)) else 0
  }

  /** What the pages of win show, and 0 elsewhere. */
  ghost function View(v: Space, win: set<nat>): (s: seq<u32>)
    requires v.Sized()
    ensures |s| == WORDS
  {
    seq(WORDS, a requires 0 <= a < WORDS => if a / PAGE_WORDS in win then WordAt(v, a) else 0)
  }

  /** The space after a store of four bytes at p. */
  ghost predicate WordStored(v: Space, v': Space, p: nat)
    requires v.Sized() && v'.Sized()
  {
    && v' == v.(m := v'.m) && v'.Map() == v.Map() && v'.Dir() == v.Dir() && SameOutside(v.m, v'.m, p, p + 4)
  }

  lemma WordBounds(v: Space, win: set<nat>, a: nat)
    requires v.Sized() && Backings(v, win) && a < WORDS && a / PAGE_WORDS in win
    ensures PhysOf(v, a) + 4 <= (v.FrameAt(a / PAGE_WORDS) + 1) * PAGE_SIZE <= PHYS_SIZE
    ensures v.FrameAt(a / PAGE_WORDS) * PAGE_SIZE <= PhysOf(v, a)
  {
    assert Backed(v, a / PAGE_WORDS);
  }

  /** Words at different addresses do not overlap in RAM. */
  lemma WordsApart(v: Space, win: set<nat>, a: nat, b: nat)
    requires v.Sized() && Backings(v, win) && a < WORDS && b < WORDS && a != b && a / PAGE_WORDS in win
             && b / PAGE_WORDS in win
    ensures PhysOf(v, a) + 4 <= PhysOf(v, b) || PhysOf(v, b) + 4 <= PhysOf(v, a)
  {
    WordBounds(v, win, a);
    WordBounds(v, win, b);
    if a / PAGE_WORDS == b / PAGE_WORDS {
      assert a % PAGE_WORDS != b % PAGE_WORDS;
    }
  }

  /** One word stored: the view changes there and nowhere else. */
  lemma StoreShows(v: Space, v': Space, win: set<nat>, a: nat, x: u32)
    requires v.Sized() && v'.Sized() && Backings(v, win) && a < WORDS && a / PAGE_WORDS in win
    requires WordStored(v, v', PhysOf(v, a)) && PhysOf(v, a) + 4 <= PHYS_SIZE && Word(v'.m, PhysOf(v, a)) == x
    ensures View(v', win) == View(v, win)[a := x]
  {
    var s, s' := View(v, win)[a := x], View(v', win);
    forall b | 0 <= b < WORDS ensures s'[b] == s[b] {
      if b / PAGE_WORDS in win {
        assert PhysOf(v', b) == PhysOf(v, b);
        if b != a {
          WordBounds(v, win, b);
          WordsApart(v, win, a, b);
          WordKept(v.m, v'.m, PhysOf(v, b));
        }
      }
    }
  }

  lemma WindowsStored(v: Space, v': Space, base: seq<Option<Mapping>>, win: set<nat>, p: nat)
    requires v.Sized() && v'.Sized() && Windows(v, base, win) && WordStored(v, v', p)
    ensures Windows(v', base, win)
  {
    forall q: nat | q < VPAGES && Region(q) && q !in win ensures Untaken(v', base, q) {
      assert Untaken(v, base, q);
    }
    forall q | q in win ensures q < VPAGES && Backed(v', q) && v'.FrameAt(q) == v.FrameAt(q) {
      assert Backed(v, q);
    }
  }

  /** Pages that keep frame and bytes show what they showed. */
  lemma ViewKept(v: Space, v': Space, win: set<nat>, q: nat)
    requires v.Sized() && v'.Sized() && Backings(v, win) && PagesKept(v, v', win) && q !in win
    ensures forall a :: 0 <= a < WORDS && a / PAGE_WORDS != q ==> View(v', win + {q})[a] == View(v, win)[a]
  {
    forall a | 0 <= a < WORDS && a / PAGE_WORDS != q ensures View(v', win + {q})[a] == View(v, win)[a] {
      if a / PAGE_WORDS in win {
        WordBounds(v, win, a);
        assert PhysOf(v', a) == PhysOf(v, a);
        WordKept(v.m, v'.m, PhysOf(v, a));
      }
    }
  }

  /** A store into a private frame: tables, allocator and what the code reaches are as they were. */
  lemma StoreHarmless(pm: Pmap, v: Space, f: nat, p: nat)
    requires v.Sized() && pm.loaded && v == Snap(pm).(m := v.m) && SameOutside(v.m, pm.pmm.ram[..], p, p + 4)
    requires Tree(v.m, v.pgdir) && TreeOwned(v.m, v.pgdir, v.free, v.lo, v.hi) && FreeClear(v.free, v.lo, v.hi)
    requires AllReached(v.m, v.pgdir, true, v.lo, v.hi) && pm.pmm.Valid()
    requires v.Private(f) && f * PAGE_SIZE <= p && p + 4 <= (f + 1) * PAGE_SIZE
    ensures Running(pm) && Snap(pm).Sized() && WordStored(v, Snap(pm), p)
  {
    var m', dir := pm.pmm.ram[..], pm.pgdir;
    AllDirectory(v.m, dir);
    forall i | 0 <= i < ENTRIES && Present(Entry(v.m, dir, i)) ensures TableAt(Entry(v.m, dir, i)) != f * PAGE_SIZE {
      assert v.Dir()[i] == Entry(v.m, dir, i);
    }
    assert OutsideTree(v.m, dir, f * PAGE_SIZE);
    PageMissesTree(v.m, m', dir, f * PAGE_SIZE);
    TreeUnchanged(v.m, m', dir);
    OwnedUnchanged(v.m, m', dir, v.free, v.free, v.lo, v.hi);
    ReachedUnchanged(v.m, m', dir, true, v.lo, v.hi);
  }

  /** Memory once the heap window is mapped: kernel image, heap and the stacks made so far. */
  class Memory {
    const vm: Kvm
    ghost var words: seq<u32>

    ghost predicate Valid()
      reads this, vm, vm.pm, vm.pm.pmm, vm.pm.pmm.ram
    {
      && vm.Valid() && vm.heapPages == HEAP_PAGES
      && words == View(Snap(vm.pm), vm.Pages())
    }

    /** Where pages go, and the directory's entries. */
    ghost function Tables(): (seq<Option<Mapping>>, seq<u32>)
      reads vm, vm.pm, vm.pm.pmm, vm.pm.pmm.ram
    {
      var v := Snap(vm.pm);
      if v.Sized() then (v.Map(), v.Dir()) else ([], [])
    }

    /** Word a is in a page of the kernel's. */
    ghost predicate Has(a: nat)
      reads vm
    {
      a < WORDS && a / PAGE_WORDS in vm.Pages()
    }

    constructor (vm: Kvm)
      requires vm.Valid() && vm.heapPages == HEAP_PAGES
      ensures Valid() && this.vm == vm
    {
      this.vm := vm;
      words := View(Snap(vm.pm), vm.Pages());
    }

    /** The processor's translation of word address a. */
    function Phys(a: nat): (p: nat)
      requires Valid() && Has(a)
      reads this, vm, vm.pm, vm.pm.pmm, vm.pm.pmm.ram
      ensures p == PhysOf(Snap(vm.pm), a) && p + 4 <= PHYS_SIZE && words[a] == Word(vm.pm.pmm.ram[..], p)
    {
      FlatAt(vm.pm.pmm.ram[..], vm.pm.pgdir, a / PAGE_WORDS);
      WordBounds(Snap(vm.pm), vm.Pages(), a);
      Walk(vm.pm.pmm.ram[..], vm.pm.pgdir, a / PAGE_WORDS).value.frame * PAGE_SIZE + 4 * (a % PAGE_WORDS)
    }

    function Load(a: nat): (x: u32)
      requires Valid() && Has(a)
      reads this, vm, vm.pm, vm.pm.pmm, vm.pm.pmm.ram
      ensures x == words[a]
    {
      Word(vm.pm.pmm.ram[..], Phys(a))
    }

    /** A store at a virtual address: that word changes and no other; tables, bitmap and free pages are as they were. */
    method Store(a: nat, x: u32)
      requires Valid() && Has(a)
      modifies this`words, vm.pm.pmm.ram
      ensures Valid() && words == old(words)[a := x] && Tables() == old(Tables())
      ensures Snap(vm.pm).Sized() && old(Snap(vm.pm)).Sized()
              && WordStored(old(Snap(vm.pm)), Snap(vm.pm), old(PhysOf(Snap(vm.pm), a)))
    {
      hide View, Untaken, Win, WordStored;
      ghost var v, f := Snap(vm.pm), Snap(vm.pm).FrameAt(a / PAGE_WORDS);
      assert Backed(v, a / PAGE_WORDS);
      WordBounds(v, vm.Pages(), a);
      var p := Phys(a);
      StoreWord(vm.pm.pmm.ram, p, x);
      assert f * PAGE_SIZE <= p;
      vm.pm.pmm.ValidElsewhere(v.m);
      StoreHarmless(vm.pm, v, f, p);
      WindowsStored(v, Snap(vm.pm), vm.base, vm.Pages(), p);
      StoreShows(v, Snap(vm.pm), vm.Pages(), a, x);
      words := words[a := x];
    }

    /** thread_stack_alloc: heap, kernel and every other stack show what they showed. */
    method NewStack() returns (r: MapOutcome, stackVa: nat)
      requires Valid() && vm.threads < MAX_THREADS
      modifies this`words, vm`nextThreadVa, vm`threads, vm.pm.pmm.ram, vm.pm.pmm`npagesFree, vm.pm.pmm`allocCursor,
               vm.pm.pmm`free
      ensures old(Snap(vm.pm)).Sized()
              && (old(Snap(vm.pm)).free != {} ==> old(Snap(vm.pm)).cursor < old(Snap(vm.pm)).npages)
      ensures stackVa == StackPageOf(old(vm.threads)) * PAGE_SIZE && StackPageOf(old(vm.threads)) < VPAGES
      ensures r == old(Snap(vm.pm)).Outcome(StackPageOf(old(vm.threads)))
      ensures r == Mapped ==>
        && Valid() && vm.threads == old(vm.threads) + 1 && |words| == |old(words)|
        && forall a :: 0 <= a < WORDS && a / PAGE_WORDS != StackPageOf(old(vm.threads)) ==> words[a] == old(words)[a]
    {
      hide Backings, Untaken, PageAdded, View, Win, Space.Outcome, Running;
      ghost var v, win := Snap(vm.pm), vm.Pages();
      WinStackStep(vm.kernelLo, vm.kernelHi, vm.heapPages, vm.threads);
      r, stackVa := vm.ThreadStackAlloc();
      if r == Mapped {
        ViewKept(v, Snap(vm.pm), win, StackPageOf(old(vm.threads)));
        words := View(Snap(vm.pm), vm.Pages());
      }
    }
  }
}
