/**
 The capability table over the kernel heap: its slots are an allocation of the heap,
 four words each, copied to a larger one when the table grows.
 */
module Capability {
  import opened Words
  import opened HeapSpec
  import opened Kmalloc
  import opened KernelMemory
  import opened CapSpec

  /** A slot as its four words fit the heap. */
  predicate SlotFits(s: Slot) { s.kind < U32 && s.rights < U32 && s.epoch < U32 && s.obj < U32 }

  /** Slot i of a table whose first slot is at word `at`. */
  function SlotAt(m: seq<u32>, at: nat, i: nat): Slot
    requires at + 4 * i + 3 < |m|
  {
    var w := at + 4 * i;
    Slot(m[w], m[w + 1], m[w + 2], m[w + 3])
  }

  /** The first n slots stored from word `at` are those of v. */
  ghost predicate Stored(m: seq<u32>, at: nat, v: seq<Slot>, n: nat) {
    && n <= |v| && at + 4 * n <= |m|
    && forall i :: 0 <= i < n ==> SlotAt(m, at, i) == v[i]
  }

  /** Memory with slot s written at slot i. */
  function PutSlot(m: seq<u32>, at: nat, i: nat, s: Slot): (r: seq<u32>)
    requires at + 4 * i + 3 < |m| && SlotFits(s)
    ensures |r| == |m|
  {
    var w := at + 4 * i;
    m[w := s.kind][w + 1 := s.rights][w + 2 := s.epoch][w + 3 := s.obj]
  }

  lemma PutSlotStored(m: seq<u32>, at: nat, v: seq<Slot>, n: nat, i: nat, s: Slot)
    requires Stored(m, at, v, n) && i < |v| && at + 4 * i + 3 < |m| && SlotFits(s)
    ensures Stored(PutSlot(m, at, i, s), at, v[i := s], n)
    ensures n == i ==> Stored(PutSlot(m, at, i, s), at, v[i := s], n + 1)
  {
    var m' := PutSlot(m, at, i, s);
    forall j | 0 <= j < n && j != i ensures SlotAt(m', at, j) == v[j] {
      assert SlotAt(m, at, j) == v[j];
    }
  }

  /** Slots stored inside an allocation survive a change that leaves its data alone. */
  lemma StoredKept(m: seq<u32>, m': seq<u32>, b: Block, v: seq<Slot>, n: nat)
    requires DataKept(m, m', b) && n <= b.n && Stored(m, 4 * (b.g + 1), v, n)
    ensures Stored(m', 4 * (b.g + 1), v, n)
  {
    var at := 4 * (b.g + 1);
    forall i: nat | i < n ensures SlotAt(m', at, i) == v[i] {
      var w := at + 4 * i;
      assert SlotAt(m, at, i) == v[i];
      assert DataWord(b, w) && DataWord(b, w + 1) && DataWord(b, w + 2) && DataWord(b, w + 3);
    }
  }

  /** Words outside allocation b are as they were. */
  ghost predicate OnlyWithin(m: seq<u32>, m': seq<u32>, b: Block) {
    |m| == |m'| && forall w: nat :: w < |m| && !DataWord(b, w) ==> m'[w] == m[w]
  }

  lemma PutSlotWithin(m: seq<u32>, at: nat, i: nat, s: Slot, b: Block)
    requires at + 4 * i + 3 < |m| && SlotFits(s) && at == 4 * (b.g + 1) && i < b.n
    ensures OnlyWithin(m, PutSlot(m, at, i, s), b)
  {
  }

  /** Block b holds a table of `cap` slots at address `slots`. */
  ghost predicate Holds(bs: seq<Block>, b: Block, slots: nat, cap: nat) {
    b in Live(bs) && slots == Addr(b.g + 1) && cap <= b.n
  }

  /** A slot of the table lies in the heap. */
  lemma InTable(m: seq<u32>, bs: seq<Block>, b: Block, i: nat)
    requires Inv(bs) && b in Live(bs) && i < b.n
    ensures 4 * (b.g + 1) + 4 * i + 3 < HEAP_WORDS
  {
    var k :| 0 <= k < |bs| && bs[k] == b;
    EndBound(bs, k);
  }

  /** No field of the slot is the heap's magic word. */
  predicate NoMagic(s: Slot) {
    s.kind != HDR_MAGIC && s.rights != HDR_MAGIC && s.epoch != HDR_MAGIC && s.obj != HDR_MAGIC
  }

  /** Slots in an allocation are such while the magic word is on headers only. */
  lemma SlotNoMagic(m: seq<u32>, bs: seq<Block>, b: Block, i: nat)
    requires Tiles(bs) && b in Live(bs) && i < b.n && |m| == HEAP_WORDS && MagicOnly(m, bs)
    ensures 4 * (b.g + 1) + 4 * i + 3 < |m| && NoMagic(SlotAt(m, 4 * (b.g + 1), i))
  {
    var w := 4 * (b.g + 1) + 4 * i;
    DataNoHeader(bs, b, w);
    DataNoHeader(bs, b, w + 1);
    DataNoHeader(bs, b, w + 2);
    DataNoHeader(bs, b, w + 3);
  }

  /** Write the four fields of slot i of the table in allocation b. */
  method StoreSlot(heap: KHeap, base: nat, i: nat, s: Slot, ghost b: Block)
    requires heap.Valid() && b in Live(heap.blocks) && base == 4 * (b.g + 1) && i < b.n && SlotFits(s)
    modifies heap.mem`words, heap.mem.vm.pm.pmm.ram
    ensures Beyond(heap.mem) == old(Beyond(heap.mem))
    ensures heap.Valid() && base + 4 * i + 3 < HEAP_WORDS
    ensures heap.Words() == PutSlot(old(heap.Words()), base, i, s)
    ensures NoMagic(s) && old(heap.MagicExact()) ==> heap.MagicExact()
  {
    hide Memory.Valid, Beyond, Window;
    var w := base + 4 * i;
    DataInHeap(heap.Words(), heap.blocks, b, w + 3);
    heap.Store(w, s.kind, b);
    heap.Store(w + 1, s.rights, b);
    heap.Store(w + 2, s.epoch, b);
    heap.Store(w + 3, s.obj, b);
  }

  /** Every other client's allocation is still held and its data untouched. */
  ghost predicate OthersKept(m: seq<u32>, m': seq<u32>, bs: seq<Block>, bs': seq<Block>, mine: set<Block>) {
    && |m| == |m'|
    && Live(bs) - mine <= Live(bs')
    && forall b :: b in Live(bs) - mine ==> DataKept(m, m', b)
  }

  lemma WithinKeepsOthers(m: seq<u32>, m': seq<u32>, bs: seq<Block>, b: Block)
    requires Tiles(bs) && b in Live(bs) && OnlyWithin(m, m', b)
    ensures OthersKept(m, m', bs, bs, {b})
  {
    forall x | x in Live(bs) - {b} ensures DataKept(m, m', x) {
      LiveDisjoint(bs, x, b);
    }
  }

  /** kfree of a pointer to a live allocation returns, and gives up that allocation only. */
  lemma FreeLive(bs: seq<Block>, b: Block)
    requires Inv(bs) && b in Live(bs)
    ensures Free(bs, b.g).1 == Returned && Live(Free(bs, b.g).0) == Live(bs) - {b}
  {
    FreeEffect(bs, b.g);
    assert IsLive(bs, b.g);
    forall x | x in Live(bs) && x.g == b.g ensures x == b {
      if x != b { LiveDisjoint(bs, x, b); }
    }
  }

  lemma FreePtrLive(bs: seq<Block>, b: Block, ptr: u32)
    requires Inv(bs) && b in Live(bs) && ptr == Addr(b.g + 1)
    ensures ptr >= HEAP_BASE + HEADER && ptr % 16 == 0 && HeaderOf(ptr) == b.g
    ensures ptr <= HEAP_BASE + HEAP_SIZE && PointsAtBlock(bs, ptr)
  {
    AddrArithmetic(ptr, b.g);
    var k :| 0 <= k < |bs| && bs[k] == b;
    EndBound(bs, k);
    assert Find(bs, b.g) <= k;
  }

  lemma OthersKeptTrans(m: seq<u32>, m': seq<u32>, m'': seq<u32>, bs: seq<Block>, cs: seq<Block>, ds: seq<Block>,
                        x: set<Block>, y: set<Block>)
    requires OthersKept(m, m', bs, cs, x) && OthersKept(m', m'', cs, ds, y)
    ensures OthersKept(m, m'', bs, ds, x + y)
  {
    forall b | b in Live(bs) - (x + y) ensures DataKept(m, m'', b) {
      assert DataKept(m, m', b) && DataKept(m', m'', b);
    }
  }

  /** The size product of captbl_grow does not wrap. */
  lemma GrowSize(cap: nat)
    requires CapacityOk(cap)
    ensures NewCap(cap) * 16 % U32 == 16 * NewCap(cap)
  {
    var k :| 0 <= k <= 12 && cap == Capacity(k);
    CapacityBound(k);
    assert NewCap(cap) * 16 < U32;
  }

  /** kmalloc of a table's slots: a new allocation of at least the size asked, or nothing. */
  method AllocSlots(heap: KHeap, size: u32) returns (p: u32, ghost b: Block)
    requires heap.Valid()
    modifies heap`blocks, heap.mem`words, heap.mem.vm.pm.pmm.ram
    ensures Beyond(heap.mem) == old(Beyond(heap.mem))
    ensures heap.Valid()
    ensures p != 0 <==> Malloc(old(heap.blocks), size).1.Some?
    ensures p == 0 ==> heap.blocks == old(heap.blocks)
    ensures p != 0 ==>
              && Live(heap.blocks) == Live(old(heap.blocks)) + {b} && b !in Live(old(heap.blocks))
              && p == Addr(b.g + 1) && size <= 16 * b.n && size <= HEAP_SIZE - HEADER
    ensures OthersKept(old(heap.Words()), heap.Words(), old(heap.blocks), heap.blocks, {})
    ensures old(heap.MagicExact()) ==> heap.MagicExact()
  {
    hide Memory.Valid, Beyond, Window;
    p := heap.KMalloc(size);
    b := Block(0, 0, false);
    if p != 0 {
      b := MallocEffect(old(heap.blocks), size);
    }
  }

  /** kfree of a table's slots: it returns, and leaves every other allocation as it was. */
  method FreeSlots(heap: KHeap, slots: u32, ghost b: Block, ghost mine: set<Block>)
    requires heap.Valid()
    requires if slots == 0 then mine == {} else b in Live(heap.blocks) && slots == Addr(b.g + 1) && mine == {b}
    modifies heap`blocks, heap.mem`words, heap.mem.vm.pm.pmm.ram
    ensures Beyond(heap.mem) == old(Beyond(heap.mem))
    ensures heap.Valid()
    ensures Live(heap.blocks) == Live(old(heap.blocks)) - mine
    ensures OthersKept(old(heap.Words()), heap.Words(), old(heap.blocks), heap.blocks, mine)
    ensures old(heap.MagicExact()) ==> heap.MagicExact()
  {
    hide Memory.Valid, Beyond, Window, KHeap.Words, Headers, MagicOnly, Free, Live;
    if slots != 0 {
      FreePtrLive(heap.blocks, b, slots);
      FreeLive(heap.blocks, b);
      assert FreePtr(heap.blocks, slots) == Free(heap.blocks, b.g);
    }
    var o := heap.KFree(slots);
  }

  class CapTable {
    const heap: KHeap
    var slots: u32
    var cap: nat
    ghost var block: Block      // the allocation behind `slots`, when there is one
    ghost var view: seq<Slot>

    ghost predicate Valid()
      reads this, heap, heap.mem, heap.mem.vm, heap.mem.vm.pm, heap.mem.vm.pm.pmm, heap.mem.vm.pm.pmm.ram
    {
      && heap.Valid()
      && |view| == cap && CapacityOk(cap)
      && (forall s :: s in view ==> SlotFits(s))
      && (cap == 0 <==> slots == 0)
      && (cap > 0 ==> Holds(heap.blocks, block, slots, cap) && Stored(heap.Words(), 4 * (block.g + 1), view, cap))
    }

    constructor (h: KHeap)
      requires h.Valid()
      ensures Valid() && heap == h && view == [] && Caps(view) == map[]
    {
      heap := h;
      slots, cap, view := 0, 0, [];
      block := Block(0, 0, false);
      assert 0 == Capacity(0);
    }

    method Lookup(handle: u32, kind: u32) returns (p: nat)
      requires Valid()
      ensures p == 0 || p == slots + 16 * handle
      ensures p != 0 <==> handle < cap && view[handle].kind == kind
      ensures kind != CAP_NONE ==> (p != 0 <==> handle in Caps(view) && Caps(view)[handle].kind == kind)
    {
      hide Memory.Valid, Beyond, Window;
      if handle >= cap {
        return 0;
      }
      var w := Idx(slots) + 4 * handle;
      assert SlotAt(heap.Words(), 4 * (block.g + 1), handle) == view[handle];
      p := if heap.At(w) == kind then slots + 16 * handle else 0;
    }

    lemma SlotsClean(h: nat)
      requires Valid() && h < cap && heap.MagicExact()
      ensures NoMagic(view[h])
    {
      SlotNoMagic(heap.Words(), heap.blocks, block, h);
      assert SlotAt(heap.Words(), 4 * (block.g + 1), h) == view[h];
    }

    method Delete(handle: u32) returns (r: int)
      requires Valid()
      modifies this`view, heap.mem`words, heap.mem.vm.pm.pmm.ram
      ensures Beyond(heap.mem) == old(Beyond(heap.mem))
      ensures Valid() && (r == 0 || r == -1)
      ensures (view, r == 0) == CapSpec.Delete(old(view), handle)
      ensures OnlyWithin(old(heap.Words()), heap.Words(), block)
      ensures r != 0 ==> heap.Words() == old(heap.Words())
      ensures old(heap.MagicExact()) && (r == 0 ==> view[handle].epoch != HDR_MAGIC) ==> heap.MagicExact()
    {
      hide Memory.Valid, Beyond, Window;
      if handle >= cap {
        return -1;
      }
      var base := Idx(slots);
      assert SlotAt(heap.Words(), base, handle) == view[handle];
      var w := base + 4 * handle;
      if heap.At(w) == CAP_NONE {
        return -1;
      }
      SetSlot(handle, Slot(CAP_NONE, 0, (heap.At(w + 2) + 1) % U32, 0));
      return 0;
    }

    method SetSlot(h: nat, s: Slot)
      requires Valid() && h < cap && SlotFits(s)
      modifies this`view, heap.mem`words, heap.mem.vm.pm.pmm.ram
      ensures Beyond(heap.mem) == old(Beyond(heap.mem))
      ensures Valid() && view == old(view)[h := s]
      ensures OnlyWithin(old(heap.Words()), heap.Words(), block)
      ensures NoMagic(s) && old(heap.MagicExact()) ==> heap.MagicExact()
    {
      hide Memory.Valid, Beyond, Window, Idx, Addr, Inv, Headers;
      IdxOf(block.g + 1);
      var base := Idx(slots);
      StoreSlot(heap, base, h, s, block);
      PutSlotStored(old(heap.Words()), base, view, cap, h, s);
      PutSlotWithin(old(heap.Words()), base, h, s, block);
      view := view[h := s];
    }

    /** The allocations behind this table. */
    ghost function Mine(): set<Block>
      reads this
    {
      if cap == 0 then {} else {block}
    }

    /** captbl_grow: a table twice the size, the old slots copied, the new ones empty. */
    method Grow() returns (ok: bool)
      requires Valid()
      modifies this, heap`blocks, heap.mem`words, heap.mem.vm.pm.pmm.ram
      ensures Beyond(heap.mem) == old(Beyond(heap.mem))
      ensures Valid()
      ensures ok == Malloc(old(heap.blocks), 16 * NewCap(|old(view)|)).1.Some?
      ensures ok ==> Growable(old(view)) && view == Grown(old(view))
      ensures !ok ==> view == old(view) && cap == old(cap) && block == old(block)
      ensures ok ==> block !in Live(old(heap.blocks))
      ensures OthersKept(old(heap.Words()), heap.Words(), old(heap.blocks), heap.blocks, old(Mine()))
      ensures old(heap.MagicExact()) ==> heap.MagicExact()
    {
      hide Memory.Valid, Beyond, Window, KHeap.Words, KHeap.MagicExact;
      var newcap := if cap == 0 then CAPTBL_INITIAL else cap * 2;
      GrowSize(cap);
      ghost var bs, m := heap.blocks, heap.Words();
      var newslots, nb := AllocSlots(heap, newcap * 16 % U32);
      ghost var bs', m' := heap.blocks, heap.Words();
      StillValid(m, m', bs);
      if newslots == 0 {
        return false;
      }
      Adopt(newslots, newcap, nb);
      OthersKeptTrans(m, m', heap.Words(), bs, bs', heap.blocks, {}, {nb} + old(Mine()));
      return true;
    }

    /** The table reads the same after a heap operation that kept its allocation. */
    lemma StillValid(m: seq<u32>, m': seq<u32>, bs: seq<Block>)
      requires heap.Valid() && |view| == cap && CapacityOk(cap) && (forall s :: s in view ==> SlotFits(s))
      requires cap == 0 <==> slots == 0
      requires cap > 0 ==> Holds(bs, block, slots, cap) && Stored(m, 4 * (block.g + 1), view, cap)
      requires m' == heap.Words() && OthersKept(m, m', bs, heap.blocks, {})
      ensures Valid()
    {
      hide Memory.Valid, Window, KHeap.Valid, KHeap.Words;
      if cap > 0 {
        StoredKept(m, m', block, view, cap);
      }
    }

    /** The rest of captbl_grow once the new array exists. */
    method Adopt(newslots: u32, newcap: nat, ghost nb: Block)
      requires Valid() && Growable(view) && newcap == NewCap(cap)
      requires Holds(heap.blocks, nb, newslots, newcap) && (cap > 0 ==> nb != block)
      modifies this, heap`blocks, heap.mem`words, heap.mem.vm.pm.pmm.ram
      ensures Beyond(heap.mem) == old(Beyond(heap.mem))
      ensures Valid() && view == Grown(old(view)) && Mine() == {nb}
      ensures OthersKept(old(heap.Words()), heap.Words(), old(heap.blocks), heap.blocks, {nb} + old(Mine()))
      ensures old(heap.MagicExact()) ==> heap.MagicExact()
    {
      hide Memory.Valid, Beyond, Window, KHeap.MagicExact;
      ghost var grown, m, bs := Grown(view), heap.Words(), heap.blocks;
      GrowthStaysOk(view);
      FillSlots(Idx(newslots), newcap, nb, grown);
      WithinKeepsOthers(m, heap.Words(), bs, nb);
      ghost var m2 := heap.Words();
      ReplaceSlots(newslots, newcap, nb, grown);
      OthersKeptTrans(m, m2, heap.Words(), bs, bs, heap.blocks, {nb}, old(Mine()));
    }

    /** kfree the old slots and adopt the new ones. */
    method ReplaceSlots(newslots: u32, newcap: nat, ghost nb: Block, ghost grown: seq<Slot>)
      requires Valid() && |grown| == newcap > 0 && CapacityOk(newcap) && (forall s :: s in grown ==> SlotFits(s))
      requires Holds(heap.blocks, nb, newslots, newcap) && Stored(heap.Words(), 4 * (nb.g + 1), grown, newcap)
      requires cap > 0 ==> nb != block
      modifies this, heap`blocks, heap.mem`words, heap.mem.vm.pm.pmm.ram
      ensures Beyond(heap.mem) == old(Beyond(heap.mem))
      ensures Valid() && view == grown && Mine() == {nb}
      ensures OthersKept(old(heap.Words()), heap.Words(), old(heap.blocks), heap.blocks, old(Mine()))
      ensures old(heap.MagicExact()) ==> heap.MagicExact()
    {
      hide Memory.Valid, Beyond, Window, KHeap.MagicExact;
      ghost var bs, m := heap.blocks, heap.Words();
      FreeSlots(heap, slots, block, Mine());
      assert nb in Live(heap.blocks) && DataKept(m, heap.Words(), nb);
      StoredKept(m, heap.Words(), nb, grown, newcap);
      slots, cap := newslots, newcap;
      block, view := nb, grown;
    }

    /** The two loops of captbl_grow. */
    method FillSlots(base: nat, newcap: nat, ghost nb: Block, ghost grown: seq<Slot>)
      requires Valid() && newcap == NewCap(cap) && grown == Grown(view)
      requires nb in Live(heap.blocks) && base == 4 * (nb.g + 1) && newcap <= nb.n
      requires cap > 0 ==> nb != block
      modifies heap.mem`words, heap.mem.vm.pm.pmm.ram
      ensures Beyond(heap.mem) == old(Beyond(heap.mem))
      ensures Valid()
      ensures Stored(heap.Words(), base, grown, newcap)
      ensures OnlyWithin(old(heap.Words()), heap.Words(), nb)
      ensures old(heap.MagicExact()) ==> heap.MagicExact()
    {
      hide Memory.Valid, Beyond, Window, KHeap.MagicExact;
      ghost var m := heap.Words();
      var from := if cap == 0 then 0 else Idx(slots);
      DataInHeap(m, heap.blocks, nb, base);
      var i := 0;
      while i < cap
        invariant 0 <= i <= cap
        invariant Valid()
        invariant Stored(heap.Words(), base, grown, i) && OnlyWithin(m, heap.Words(), nb)
        invariant Beyond(heap.mem) == old(Beyond(heap.mem)) && (old(heap.MagicExact()) ==> heap.MagicExact())
      {
        CopySlot(from, base, i, nb, grown);
        i := i + 1;
      }
      while i < newcap
        invariant cap <= i <= newcap
        invariant Valid()
        invariant Stored(heap.Words(), base, grown, i) && OnlyWithin(m, heap.Words(), nb)
        invariant Beyond(heap.mem) == old(Beyond(heap.mem)) && (old(heap.MagicExact()) ==> heap.MagicExact())
      {
        PutNew(base, i, EmptySlot, nb, grown);
        i := i + 1;
      }
    }

    method CopySlot(from: nat, base: nat, i: nat, ghost nb: Block, ghost grown: seq<Slot>)
      requires Valid() && i < cap && from == Idx(slots) && grown == Grown(view)
      requires nb in Live(heap.blocks) && base == 4 * (nb.g + 1) && i < nb.n && nb != block
      requires Stored(heap.Words(), base, grown, i)
      modifies heap.mem`words, heap.mem.vm.pm.pmm.ram
      ensures Beyond(heap.mem) == old(Beyond(heap.mem))
      ensures Valid() && Stored(heap.Words(), base, grown, i + 1)
      ensures OnlyWithin(old(heap.Words()), heap.Words(), nb)
      ensures old(heap.MagicExact()) ==> heap.MagicExact()
    {
      hide Memory.Valid, Beyond, Window, KHeap.MagicExact;
      if heap.MagicExact() { SlotsClean(i); }
      assert SlotAt(heap.Words(), from, i) == view[i];
      var w := from + 4 * i;
      PutNew(base, i, Slot(heap.At(w), heap.At(w + 1), heap.At(w + 2), heap.At(w + 3)), nb, grown);
    }

    method PutNew(base: nat, i: nat, s: Slot, ghost nb: Block, ghost grown: seq<Slot>)
      requires Valid() && i < |grown| && s == grown[i] && SlotFits(s)
      requires nb in Live(heap.blocks) && base == 4 * (nb.g + 1) && i < nb.n && (cap > 0 ==> nb != block)
      requires Stored(heap.Words(), base, grown, i)
      modifies heap.mem`words, heap.mem.vm.pm.pmm.ram
      ensures Beyond(heap.mem) == old(Beyond(heap.mem))
      ensures Valid() && Stored(heap.Words(), base, grown, i + 1)
      ensures OnlyWithin(old(heap.Words()), heap.Words(), nb)
      ensures NoMagic(s) && old(heap.MagicExact()) ==> heap.MagicExact()
    {
      hide Memory.Valid, Beyond, Window, KHeap.MagicExact;
      ghost var m := heap.Words();
      StoreSlot(heap, base, i, s, nb);
      PutSlotStored(m, base, grown, i, i, s);
      assert grown[i := s] == grown;
      PutSlotWithin(m, base, i, s, nb);
      WithinKeepsOthers(m, heap.Words(), heap.blocks, nb);
      if cap > 0 {
        StoredKept(m, heap.Words(), block, view, cap);
      }
    }

    lemma SlotThere(i: nat)
      requires Valid() && i < cap
      ensures slots >= HEAP_BASE && Idx(slots) + 4 * i + 3 < HEAP_WORDS
      ensures heap.Words()[Idx(slots) + 4 * i] == view[i].kind && heap.Words()[Idx(slots) + 4 * i + 2] == view[i].epoch
    {
      hide Idx, Addr, Memory.Valid, Window, Headers, Inv, CapacityOk;
      IdxOf(block.g + 1);
      InTable(heap.Words(), heap.blocks, block, i);
      assert SlotAt(heap.Words(), 4 * (block.g + 1), i) == view[i];
    }

    /** First empty slot, or cap. */
    method FindEmpty() returns (i: nat)
      requires Valid()
      ensures i == FirstEmpty(view)
    {
      hide Memory.Valid, Beyond, Window, KHeap.Words, Headers, Stored, Holds, Inv, CapacityOk;
      i := 0;
      while i < cap
        invariant 0 <= i <= cap
        invariant forall k :: 0 <= k < i ==> view[k].kind != CAP_NONE
      {
        SlotThere(i);
        if heap.At(Idx(slots) + 4 * i) == CAP_NONE {
          break;
        }
        i := i + 1;
      }
    }

    method Insert(kind: u32, rights: u32, obj: u32) returns (handle: nat)
      requires Valid()
      modifies this, heap`blocks, heap.mem`words, heap.mem.vm.pm.pmm.ram
      ensures Beyond(heap.mem) == old(Beyond(heap.mem))
      ensures Valid()
      ensures var room := Malloc(old(heap.blocks), 16 * NewCap(|old(view)|)).1.Some?;
              (view, handle) == CapSpec.Insert(old(view), kind, rights, obj, room)
      ensures Mine() == old(Mine()) || Mine() !! Live(old(heap.blocks))
      ensures OthersKept(old(heap.Words()), heap.Words(), old(heap.blocks), heap.blocks, old(Mine()))
      ensures old(heap.MagicExact()) && kind != HDR_MAGIC && rights != HDR_MAGIC && obj != HDR_MAGIC ==>
              heap.MagicExact()
    {
      hide Memory.Valid, Beyond, Window, KHeap.MagicExact;
      if kind == CAP_NONE {
        return CAP_INVALID;
      }
      var i := FindEmpty();
      if i == cap {
        var ok := Grow();
        if !ok {
          return CAP_INVALID;
        }
      }
      ghost var m := heap.Words();
      SetFields(i, kind, rights, obj);
      OthersKeptTrans(old(heap.Words()), m, heap.Words(), old(heap.blocks), heap.blocks, heap.blocks, old(Mine()),
          {block});
      return i;
    }

    /** Fill slot h and leave its epoch. */
    method SetFields(h: nat, kind: u32, rights: u32, obj: u32)
      requires Valid() && h < cap
      modifies this`view, heap.mem`words, heap.mem.vm.pm.pmm.ram
      ensures Beyond(heap.mem) == old(Beyond(heap.mem))
      ensures Valid() && view == old(view)[h := Slot(kind, rights, old(view)[h].epoch, obj)]
      ensures OthersKept(old(heap.Words()), heap.Words(), heap.blocks, heap.blocks, {block})
      ensures old(heap.MagicExact()) && kind != HDR_MAGIC && rights != HDR_MAGIC && obj != HDR_MAGIC ==>
              heap.MagicExact()
    {
      hide Memory.Valid, Beyond, Window, KHeap.MagicExact, Headers, CapacityOk, Stored, Tiles;
      var base := Idx(slots);
      SlotThere(h);
      if heap.MagicExact() { SlotsClean(h); }
      SetSlot(h, Slot(kind, rights, heap.At(base + 4 * h + 2), obj));
      WithinKeepsOthers(old(heap.Words()), heap.Words(), heap.blocks, block);
    }
  }
}
