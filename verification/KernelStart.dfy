/**
 From the boot loader's memory to a running kernel: kmain up to the point where threads can
 be created.
 */
module KernelStart {
  import opened Words
  import opened PageTables
  import opened AddressSpace
  import opened Framebuffer
  import KernelVm
  import PmapInit
  import Ram
  import opened KernelMemory
  import HeapSpec
  import opened Kmalloc
  import opened Switch
  import opened Kernel
  import opened KernelBoot

  // ---------------------------------------------------------------- what the heap's words are

  /** Page of word w of the heap window. */
  function HeapPageOf(w: nat): (q: nat)
    requires w < HEAP_WORDS
    ensures KernelVm.HEAP_PAGE <= q < KernelVm.HEAP_PAGE + KernelVm.HEAP_PAGES && q < VPAGES
  {
    KernelVm.HEAP_PAGE + w / PAGE_WORDS
  }

  /** Word w of the heap window, in the frame behind it. */
  ghost function HeapWord(v: Space, w: nat): u32
    requires v.Sized() && w < HEAP_WORDS
  {
    FrameWord(v.m, v.FrameAt(HeapPageOf(w)), w % PAGE_WORDS)
  }

  lemma WindowInFrames(mem: Memory, w: nat)
    requires mem.Valid() && w < HEAP_WORDS
    ensures Snap(mem.vm.pm).Sized() && Window(mem.words)[w] == HeapWord(Snap(mem.vm.pm), w)
  {
    hide Window, FrameWord;
    HeapHas(mem, w);
    var v, a := Snap(mem.vm.pm), HEAP_WORD + w;
    assert a / PAGE_WORDS == HeapPageOf(w) && a % PAGE_WORDS == w % PAGE_WORDS;
    WindowAt(mem.words, w);
    FrameWordAt(v, mem.vm.Pages(), a);
  }

  lemma FrameWordAt(v: Space, win: set<nat>, a: nat)
    requires v.Sized() && KernelVm.Backings(v, win) && a < WORDS && a / PAGE_WORDS in win
    ensures WordAt(v, a) == FrameWord(v.m, v.FrameAt(a / PAGE_WORDS), a % PAGE_WORDS)
  {
    WordBounds(v, win, a);
  }

  /** No word of the heap window past the first header is the magic word, going by what the boot loader left in the
      frames that the map f puts there. */
  ghost predicate NoStaleMagic(i: Given, f: seq<Option<Mapping>>)
    requires i.Ok() && MapUp(i, f)
  {
    forall w: nat :: 4 <= w < HEAP_WORDS ==>
      f[HeapPageOf(w)].Some? && i.Left(f[HeapPageOf(w)].value.frame, w % PAGE_WORDS) != HDR_MAGIC
  }

  /** That is so on every machine that starts with no magic word in the memory it has free. */
  lemma CleanMemory(i: Given, f: seq<Option<Mapping>>)
    requires i.Ok() && MapUp(i, f)
    requires forall p: nat, o: nat :: p in i.Free() && o < PAGE_WORDS ==> FrameWord(i.m, p, o) != HDR_MAGIC
    ensures NoStaleMagic(i, f)
  {
    hide Given.Free, FrameWord, Given.TablesAndScreen;
    forall w: nat | 4 <= w < HEAP_WORDS
      ensures f[HeapPageOf(w)].Some? && i.Left(f[HeapPageOf(w)].value.frame, w % PAGE_WORDS) != HDR_MAGIC
    {
      assert f[HeapPageOf(w)].value.frame in i.Free();
    }
  }

  lemma WordsUp(i: Given, v: Space)
    requires i.Ok() && v.Sized() && Up(i, v)
    ensures MapUp(i, v.Map())
    ensures NoStaleMagic(i, v.Map()) <==> forall w: nat :: 4 <= w < HEAP_WORDS ==> HeapWord(v, w) != HDR_MAGIC
  {
    hide Given.Left, FrameWord, Given.Free, Given.Low, Given.Display, Placed, MapUp;
    UpMap(i, v);
    forall w: nat | w < HEAP_WORDS
      ensures v.Map()[HeapPageOf(w)].Some?
      ensures HeapWord(v, w) == i.Left(v.Map()[HeapPageOf(w)].value.frame, w % PAGE_WORDS)
    {
      assert w % PAGE_WORDS < PAGE_WORDS;
    }
  }

  /** The heap's first header, and a scheduler without threads, over the address space; the tables stay as they are. */
  method Assemble(vm: KernelVm.Kvm) returns (k: Machine)
    requires vm.Valid() && vm.heapPages == KernelVm.HEAP_PAGES && vm.threads == 0
    modifies vm.pm.pmm.ram
    ensures k.Valid() && k.heap.blocks == HeapSpec.Initial() && k.held == [] && k.sched.queue.ring == []
    ensures k.sched.queue.current == null && k.heap.mem.vm == vm
    ensures old(Snap(vm.pm)).Sized() && k.heap.mem.Tables().0 == old(Snap(vm.pm)).Map()
    ensures k.heap.MagicExact() <==> forall w: nat :: 4 <= w < HEAP_WORDS ==> HeapWord(old(Snap(vm.pm)), w) != HDR_MAGIC
  {
    hide Memory.Valid, Below, Above, KHeap.MagicExact, HeapWord, Window;
    var mem := new Memory(vm);
    Sized(mem);
    ghost var v, m := Snap(vm.pm), mem.words;
    forall w: nat | w < HEAP_WORDS ensures Window(m)[w] == HeapWord(v, w) { WindowInFrames(mem, w); }
    var heap := new KHeap(mem);
    var cpu := new Cpu(mem);
    k := new Machine(heap, cpu);
  }

  /** Heap and scheduler over the address space that boot leaves, on exactly the inputs from which boot succeeds; the
      magic word is on headers only exactly when the frames that the heap got brought none along. */
  method BringUp(ram: array<u8>, mbi: nat, kernelStart: nat, kernelEnd: nat, ghost i: Given)
    returns (r: BootOutcome, k: Machine?)
    requires i == Given(ram[..], mbi, kernelStart, kernelEnd) && i.Ok() && i.Device()
    modifies ram
    ensures r == Booted <==> k != null
    ensures r == i.Outcome() && (r == Booted <==> i.Bootable())
    ensures r == Booted ==>
      && k.Valid() && k.heap.blocks == HeapSpec.Initial() && k.held == [] && k.sched.queue.ring == []
         && k.sched.queue.current == null
      && k.heap.mem.vm.pm.pmm.ram == ram
      && MapUp(i, k.heap.mem.Tables().0)
      && (forall p :: 0 <= p < 0x10_0000 && k.heap.mem.Tables().0[p].Some? ==>
            k.heap.mem.Tables().0[p].value.rw && !k.heap.mem.Tables().0[p].value.user)
      && (k.heap.MagicExact() <==> NoStaleMagic(i, k.heap.mem.Tables().0))
      && k.heap.mem.vm.kernelHi == i.KernelHi()
      && TriedMap(k.heap.mem.vm.base, i.Low(), i.kernelStart / Ram.PAGE_SIZE, PmapInit.PagesUpTo(i.kernelEnd),
                  i.Display())
  {
    hide Given.Ok, Given.Device, Given.Bootable, Given.Outcome, Up, MapUp, NoStaleMagic, HeapWord, TriedMap,
         KernelVm.Kvm.Valid, Machine.Valid, Memory.Tables, KHeap.MagicExact;
    var vm;
    r, vm := Boot(ram, mbi, kernelStart, kernelEnd, i);
    if r != Booted {
      return r, null;
    }
    WordsUp(i, Snap(vm.pm));
    KernelOnly(i, Snap(vm.pm).Map());
    k := Assemble(vm);
  }
}
