/**
 Heap, threads and page tables together over the one RAM: thread structures are heap
 allocations, stacks are pages of their own, and no part disturbs another.
 */
module Kernel {
  import opened Words
  import opened PmapModule
  import opened AddressSpace
  import KernelVm
  import PageTables
  import Ram
  import opened KernelMemory
  import opened HeapSpec
  import opened Kmalloc
  import opened Switch
  import opened ThreadRuns
  import opened Scheduler
  import CapSpec
  import Capability

  const THREAD_SIZE: u32 := 40             // sizeof(struct thread)
  const THREAD_GRANULES: nat := 3

  datatype CreateOutcome = Created | NoHeap | NoStack(why: MapOutcome)

  /** Word of the `context` field, the first of the structure, of a thread whose structure is allocation b. */
  function FieldOf(b: Block): nat { HEAP_WORD + 4 * (b.g + 1) }

  /** The pointer kmalloc returns for the block at granule g. */
  function PtrTo(g: Option<nat>): (p: nat)
    ensures p == 0 <==> g.None?
    ensures g.Some? ==> p == Addr(g.value + 1)
  {
    if g.None? then 0 else Addr(g.value + 1)
  }

  /** Each thread's structure is an allocation of its own. */
  ghost predicate Owned(bs: seq<Block>, held: seq<Block>, ctx: seq<nat>) {
    && |held| == |ctx|
    && (forall t :: 0 <= t < |held| ==>
       held[t] in Live(bs) && held[t].n >= THREAD_GRANULES && ctx[t] == FieldOf(held[t]))
    && (forall i, j :: 0 <= i < j < |held| ==> held[i] != held[j])
  }

  /** The first 40 bytes of a heap of 1 MiB: there is room for 16384 thread structures. */
  lemma ThreadsBounded(bs: seq<Block>, held: seq<Block>, ctx: seq<nat>)
    requires HeapSpec.Inv(bs) && Owned(bs, held, ctx)
    ensures |held| <= HEAP_GRANULES / 4
  {
    var s := set b | b in held;
    DistinctCount(held);
    LargeAllocations(bs, s);
  }

  lemma {:induction false} DistinctCount(s: seq<Block>)
    requires forall i, j :: 0 <= i < j < |s| ==> s[i] != s[j]
    ensures |set b | b in s| == |s|
    decreases |s|
  {
    if s != [] {
      var r := s[..|s| - 1];
      DistinctCount(r);
      assert s == r + [s[|s| - 1]];
      assert (set b | b in s) == (set b | b in r) + {s[|s| - 1]};
    }
  }

  /** All stacks and context fields read the same. */
  ghost predicate ThreadsKept(m: seq<u32>, m': seq<u32>, ctx: seq<nat>) {
    && |m| == WORDS == |m'| && (forall t :: 0 <= t < |ctx| ==> ctx[t] < WORDS && m'[ctx[t]] == m[ctx[t]])
    && forall t, a: nat :: 0 <= t < |ctx| && InStack(a, t) && a < WORDS ==> m'[a] == m[a]
  }

  /** Then every thread stays suspended as it was. */
  lemma StillConsistent(m: seq<u32>, m': seq<u32>, running: Option<nat>, ctx: seq<nat>, saved: seq<Regs>)
    requires Consistent(m, running, ctx, saved) && ThreadsKept(m, m', ctx)
    ensures Consistent(m', running, ctx, saved)
  {
    var but := if running.Some? then running.value else |ctx|;
    forall t | 0 <= t < |ctx| && t != but ensures Suspended(m', ctx, t, saved[t]) {
      SuspendedAt(m, ctx, saved, but, |ctx|, t);
      SuspendedKept(m, m', ctx, t, saved[t]);
    }
    EachSuspended(m', ctx, saved, but, |ctx|);
  }

  lemma FieldBound(bs: seq<Block>, b: Block)
    requires Tiles(bs) && b in Live(bs)
    ensures 4 * (b.g + 1) < HEAP_WORDS && HEAP_WORD < FieldOf(b) < HEAP_WORD + HEAP_WORDS < STACKS
  {
    var k :| 0 <= k < |bs| && bs[k] == b;
    EndBound(bs, k);
  }

  /** Word a of the heap window, seen from the heap and from memory. */
  lemma WindowAt(m: seq<u32>, a: nat)
    requires |m| == WORDS && a < HEAP_WORDS
    ensures Window(m)[a] == m[HEAP_WORD + a]
  {
  }

  /** A heap operation that keeps the data of live allocations keeps the threads. */
  lemma HeapKeepsThreads(m: seq<u32>, m': seq<u32>, bs: seq<Block>, held: seq<Block>, ctx: seq<nat>)
    requires |m| == WORDS == |m'| && Above(m') == Above(m) && Tiles(bs) && Owned(bs, held, ctx)
    requires SameData(Window(m), Window(m'), bs)
    ensures ThreadsKept(m, m', ctx)
  {
    forall t | 0 <= t < |ctx| ensures ctx[t] < WORDS && m'[ctx[t]] == m[ctx[t]] {
      var w := 4 * (held[t].g + 1);
      FieldBound(bs, held[t]);
      assert DataWord(held[t], w);
      WindowAt(m, w);
      WindowAt(m', w);
    }
    forall t, a: nat | 0 <= t < |ctx| && InStack(a, t) && a < WORDS ensures m'[a] == m[a] {
      AboveAt(m, m', a);
    }
  }

  lemma AboveAt(m: seq<u32>, m': seq<u32>, a: nat)
    requires |m| == WORDS == |m'| && Above(m') == Above(m) && HEAP_WORD + HEAP_WORDS <= a < WORDS
    ensures m'[a] == m[a]
  {
    var i := a - (HEAP_WORD + HEAP_WORDS);
    assert m[a] == Above(m)[i] && m'[a] == Above(m')[i];
  }

  /** What a thread's own switch leaves of the heap: one word of its structure. */
  lemma FieldStored(m: seq<u32>, m': seq<u32>, b: Block)
    requires |m| == WORDS == |m'| && 4 * (b.g + 1) < HEAP_WORDS
    requires forall a: nat :: HEAP_WORD <= a < HEAP_WORD + HEAP_WORDS && a != FieldOf(b) ==> m'[a] == m[a]
    ensures Window(m') == Window(m)[4 * (b.g + 1) := m'[FieldOf(b)]]
  {
  }

  /** Storing a context pointer in a thread's structure keeps the heap as it was, stale words included. */
  lemma FieldKeepsHeap(m: seq<u32>, m': seq<u32>, bs: seq<Block>, b: Block)
    requires |m| == WORDS == |m'| && HeapSpec.Inv(bs) && Headers(Window(m), bs) && b in Live(bs)
    requires FieldOf(b) < WORDS && m'[FieldOf(b)] != HDR_MAGIC
    requires forall a: nat :: HEAP_WORD <= a < HEAP_WORD + HEAP_WORDS && a != FieldOf(b) ==> m'[a] == m[a]
    ensures Headers(Window(m'), bs) && (MagicOnly(Window(m), bs) ==> MagicOnly(Window(m'), bs))
  {
    var w := 4 * (b.g + 1);
    FieldBound(bs, b);
    FieldStored(m, m', b);
    StoreKeepsHeaders(Window(m), bs, b, w, m'[FieldOf(b)]);
  }

  /** Another thread's structure: the next one to be created. */
  lemma OwnedMore(bs: seq<Block>, bs': seq<Block>, held: seq<Block>, ctx: seq<nat>, b: Block)
    requires Owned(bs, held, ctx) && Live(bs') == Live(bs) + {b} && b !in Live(bs) && b.n >= THREAD_GRANULES
    requires Tiles(bs')
    ensures Owned(bs', held + [b], ctx + [FieldOf(b)]) && FieldOf(b) !in ctx
    ensures HEAP_WORD < FieldOf(b) < HEAP_WORD + HEAP_WORDS < STACKS
  {
    FieldBound(bs', b);
    forall t | 0 <= t < |ctx| ensures ctx[t] != FieldOf(b) {
      LiveDisjoint(bs', held[t], b);
    }
  }

  lemma OwnedStill(bs: seq<Block>, bs': seq<Block>, held: seq<Block>, ctx: seq<nat>)
    requires Owned(bs, held, ctx) && forall b :: b in held ==> b in Live(bs')
    ensures Owned(bs', held, ctx)
  {
  }

  /** The first 40 bytes of the structure fit in the allocation that kmalloc returns. */
  lemma ThreadMalloc(bs: seq<Block>) returns (b: Block)
    requires HeapSpec.Inv(bs) && Malloc(bs, THREAD_SIZE).1.Some?
    ensures var (after, p) := Malloc(bs, THREAD_SIZE);
            && Live(after) == Live(bs) + {b} && b !in Live(bs) && b.g == p.value && b.n >= THREAD_GRANULES
            && Addr(p.value + 1) / 4 == FieldOf(b)
  {
    b := MallocEffect(bs, THREAD_SIZE);
  }

  lemma Sized(mem: Memory)
    requires mem.Valid()
    ensures |mem.words| == WORDS && Snap(mem.vm.pm).Sized()
    ensures mem.Tables() == (Snap(mem.vm.pm).Map(), Snap(mem.vm.pm).Dir())
  {
  }

  lemma Multiple16(x: nat)
    requires x % 16 == 0
    ensures x % 4 == 0
  {
    assert x == 4 * (4 * (x / 16));
  }

  lemma PtrOfHeader(ptr: u32)
    requires HEAP_BASE + HEADER <= ptr && ptr % 16 == 0
    ensures ptr == Addr(HeaderOf(ptr) + 1)
  {
    hide HeaderOf, Addr, Idx;
    Multiple16(ptr);
    HeaderArithmetic(ptr, HeaderOf(ptr));
  }

  /** The allocation that ptr points at, if any. */
  ghost function PointedAt(bs: seq<Block>, ptr: u32): set<Block> {
    set b | b in Live(bs) && ptr == Addr(b.g + 1)
  }

  lemma FreeKeepsOthers(bs: seq<Block>, ptr: u32)
    requires HeapSpec.Inv(bs) && HEAP_BASE + HEADER <= ptr && PointsAtBlock(bs, ptr)
    ensures Live(bs) - PointedAt(bs, ptr) <= Live(FreePtr(bs, ptr).0)
  {
    hide Free, HeapSpec.Inv;
    FreeEffect(bs, HeaderOf(ptr));
    PtrOfHeader(ptr);
  }

  /** kfree of anything else leaves the threads' structures held. */
  lemma FreeKeepsHeld(bs: seq<Block>, ptr: u32, held: seq<Block>)
    requires HeapSpec.Inv(bs) && HEAP_BASE + HEADER <= ptr && (forall b :: b in held ==> b in Live(bs))
    requires forall t :: 0 <= t < |held| ==> ptr != Addr(held[t].g + 1)
    ensures forall b :: b in held ==> b in Live(FreePtr(bs, ptr).0)
  {
    hide Free, HeapSpec.Inv, Addr, HeaderOf;
    if ptr % 16 == 0 {
      FreeEffect(bs, HeaderOf(ptr));
      PtrOfHeader(ptr);
      forall b | b in held ensures b.g != HeaderOf(ptr) {
        var t :| 0 <= t < |held| && held[t] == b;
      }
    }
  }

  /** A change of one stack page alone is neither the heap's nor another thread's. */
  lemma StackElsewhere(m: seq<u32>, m': seq<u32>, n: nat, ctx: seq<nat>)
    requires |m| == WORDS == |m'| && |ctx| <= n && (forall t :: 0 <= t < |ctx| ==> ctx[t] < STACKS)
    requires forall a :: 0 <= a < WORDS && a / PAGE_WORDS != KernelVm.StackPageOf(n) ==> m'[a] == m[a]
    ensures Window(m') == Window(m) && ThreadsKept(m, m', ctx)
  {
    forall t, a: nat | 0 <= t < |ctx| && InStack(a, t) && a < WORDS ensures m'[a] == m[a] {
      assert a / PAGE_WORDS == KernelVm.StackPageOf(t);
    }
    forall a | 0 <= a < HEAP_WORDS ensures Window(m')[a] == Window(m)[a] {
      WindowAt(m, a);
      WindowAt(m', a);
    }
  }

  /** The window a stack lies in. */
  function WindowOf(va: nat, ghost n: nat): (id: nat)
    requires va == KernelVm.StackPageOf(n) * Ram.PAGE_SIZE
    ensures id == n
  {
    (va / Ram.PAGE_SIZE - KernelVm.STACK_PAGE - 1) / 3
  }

  lemma LastOwned(bs: seq<Block>, held: seq<Block>, b: Block, ctx: seq<nat>)
    requires Owned(bs, held + [b], ctx + [FieldOf(b)]) && Tiles(bs)
    ensures b in Live(bs) && |held| == |ctx|
    ensures 4 * (b.g + 1) < HEAP_WORDS && HEAP_WORD < FieldOf(b) < HEAP_WORD + HEAP_WORDS < STACKS
  {
    assert (held + [b])[|held|] == b;
    FieldBound(bs, b);
  }

  /** The first context of a thread, and the pointer to it in the structure, leave the heap as it was. */
  lemma ContextKeepsHeap(m: seq<u32>, bs: seq<Block>, b: Block, id: nat, trampoline: u32)
    requires |m| == WORDS && HeapSpec.Inv(bs) && Headers(Window(m), bs) && b in Live(bs)
    requires FieldOf(b) < STACKS && id < KernelVm.MAX_THREADS
    ensures var m' := WithContext(m, id, FieldOf(b), trampoline);
            && Headers(Window(m'), bs) && (MagicOnly(Window(m), bs) ==> MagicOnly(Window(m'), bs))
            && forall x :: x in Live(bs) && x != b ==> DataKept(Window(m), Window(m'), x)
  {
    var m' := WithContext(m, id, FieldOf(b), trampoline);
    ContextStores(m, b, id, trampoline);
    FieldBound(bs, b);
    FieldKeepsHeap(m, m', bs, b);
    FieldStored(m, m', b);
    hide WithContext, Headers, MagicOnly, Window;
    forall x | x in Live(bs) && x != b ensures DataKept(Window(m), Window(m'), x) {
      LiveDisjoint(bs, x, b);
    }
  }

  lemma ContextStores(m: seq<u32>, b: Block, id: nat, trampoline: u32)
    requires |m| == WORDS && FieldOf(b) < STACKS && id < KernelVm.MAX_THREADS
    ensures var m' := WithContext(m, id, FieldOf(b), trampoline);
            && m'[FieldOf(b)] != HDR_MAGIC
            && forall a: nat :: HEAP_WORD <= a < HEAP_WORD + HEAP_WORDS && a != FieldOf(b) ==> m'[a] == m[a]
  {
    StacksInMemory(id);
  }

  /** The machine has taken the switch to thread `to`, which goes on as it was suspended. */
  ghost predicate Moved(s: Sys, ctx: seq<nat>, s': Sys, to: nat, ret: u32) {
    && ThreadRuns.Inv(s, ctx) && Allowed(s, ctx, SwitchTo(to, ret)) && s' == Step(s, ctx, SwitchTo(to, ret))
    && s'.regs == s.saved[to]
  }

  /** What a switch writes: the leaving thread's stack, and its context pointer, which is above the heap's magic
      word. */
  lemma SwitchStores(s: Sys, ctx: seq<nat>, to: nat, ret: u32)
    requires ThreadRuns.Inv(s, ctx) && Allowed(s, ctx, SwitchTo(to, ret))
    ensures var m' := Step(s, ctx, SwitchTo(to, ret)).m;
            && |s.m| == WORDS == |m'| && s.cur < |ctx| && ctx[s.cur] < STACKS && m'[ctx[s.cur]] != HDR_MAGIC
            && forall a: nat :: a < STACKS && a != ctx[s.cur] ==> m'[a] == s.m[a]
  {
    hide SwitchOver;
    StacksInMemory(s.cur);
    SuspendedAt(s.m, ctx, s.saved, s.cur, |ctx|, to);
    CallerSuspended(s.m, s.regs, ctx, s.cur, ctx[to], ret);
  }

  /** A switch leaves the heap's headers and every allocation but the leaving thread's structure alone. */
  lemma SwitchKeepsHeap(s: Sys, ctx: seq<nat>, to: nat, ret: u32, bs: seq<Block>, held: seq<Block>)
    requires ThreadRuns.Inv(s, ctx) && Allowed(s, ctx, SwitchTo(to, ret))
    requires HeapSpec.Inv(bs) && Headers(Window(s.m), bs) && Owned(bs, held, ctx)
    ensures var m' := Step(s, ctx, SwitchTo(to, ret)).m;
            && Headers(Window(m'), bs) && (MagicOnly(Window(s.m), bs) ==> MagicOnly(Window(m'), bs))
            && forall b :: b in Live(bs) && b !in held ==> DataKept(Window(s.m), Window(m'), b)
  {
    hide Step, Allowed, ThreadRuns.Inv, Window, Headers, MagicOnly;
    SwitchStores(s, ctx, to, ret);
    var b, m' := held[s.cur], Step(s, ctx, SwitchTo(to, ret)).m;
    FieldBound(bs, b);
    FieldKeepsHeap(s.m, m', bs, b);
    FieldStored(s.m, m', b);
    forall x | x in Live(bs) && x !in held ensures DataKept(Window(s.m), Window(m'), x) {
      LiveDisjoint(bs, x, b);
    }
  }

  lemma BelowFields(bs: seq<Block>, held: seq<Block>, ctx: seq<nat>)
    requires Tiles(bs) && Owned(bs, held, ctx)
    ensures forall t :: 0 <= t < |ctx| ==> HEAP_WORD < ctx[t] < STACKS
  {
    forall t | 0 <= t < |ctx| ensures HEAP_WORD < ctx[t] < STACKS { FieldBound(bs, held[t]); }
  }

  lemma WindowBeside(m: seq<u32>, m': seq<u32>, esp: nat, unused: nat)
    requires |m| == WORDS && WrittenBelow(m, m', esp, unused) && 8 <= esp <= HEAP_WORD && unused < HEAP_WORD
    ensures Window(m') == Window(m)
  {
    forall a | 0 <= a < HEAP_WORDS ensures Window(m')[a] == Window(m)[a] {
      WindowAt(m, a);
      WindowAt(m', a);
    }
  }

  /** A store into the running thread's own stack is an event its neighbours do not notice. */
  lemma StackStored(s: Sys, ctx: seq<nat>, a: nat, x: u32)
    requires Consistent(s.m, Some(s.cur), ctx, s.saved) && s.cur < KernelVm.MAX_THREADS && InStack(a, s.cur)
    ensures a < |s.m| && ThreadRuns.Inv(s, ctx) && Allowed(s, ctx, Store(a, x))
            && Step(s, ctx, Store(a, x)) == s.(m := s.m[a := x])
    ensures Consistent(s.m[a := x], Some(s.cur), ctx, s.saved) && Window(s.m[a := x]) == Window(s.m)
  {
    StacksInMemory(s.cur);
    forall t | 0 <= t < |ctx| && t != s.cur ensures !InStack(a, t) { StacksApart(t, s.cur); }
    StepKeeps(s, ctx, Store(a, x));
    forall i | 0 <= i < HEAP_WORDS ensures Window(s.m[a := x])[i] == Window(s.m)[i] {
      WindowAt(s.m, i);
      WindowAt(s.m[a := x], i);
    }
  }

  /** A store into an allocation that is no thread's structure. */
  lemma DataKeepsThreads(m: seq<u32>, m': seq<u32>, bs: seq<Block>, held: seq<Block>, ctx: seq<nat>, b: Block)
    requires |m| == WORDS == |m'| && Above(m') == Above(m) && Tiles(bs) && Owned(bs, held, ctx) && b in Live(bs)
             && b !in held
    requires forall w :: 0 <= w < HEAP_WORDS && !DataWord(b, w) ==> Window(m')[w] == Window(m)[w]
    ensures ThreadsKept(m, m', ctx)
  {
    forall t | 0 <= t < |ctx| ensures ctx[t] < WORDS && m'[ctx[t]] == m[ctx[t]] {
      FieldBound(bs, held[t]);
      LiveDisjoint(bs, held[t], b);
      WindowAt(m, 4 * (held[t].g + 1));
      WindowAt(m', 4 * (held[t].g + 1));
    }
    forall t, a: nat | 0 <= t < |ctx| && InStack(a, t) && a < WORDS ensures m'[a] == m[a] { AboveAt(m, m', a); }
  }

  /** Structures that are none of the allocations given up or written keep threads as they were. */
  lemma HeldKept(m: seq<u32>, m': seq<u32>, bs: seq<Block>, bs': seq<Block>, held: seq<Block>, ctx: seq<nat>,
                 mine: set<Block>, mine': set<Block>)
    requires |m| == WORDS == |m'| && Above(m') == Above(m) && Tiles(bs) && Owned(bs, held, ctx)
    requires Capability.OthersKept(Window(m), Window(m'), bs, bs', mine) && mine !! (set b | b in held)
    requires mine' == mine || mine' !! Live(bs)
    ensures Owned(bs', held, ctx) && ThreadsKept(m, m', ctx)
    ensures mine' !! (set b | b in held)
  {
    forall t | 0 <= t < |held| ensures held[t] in Live(bs') && DataKept(Window(m), Window(m'), held[t]) {
      assert held[t] in Live(bs) - mine;
    }
    OwnedStill(bs, bs', held, ctx);
    StructuresKept(m, m', bs, held, ctx);
  }

  lemma StructuresKept(m: seq<u32>, m': seq<u32>, bs: seq<Block>, held: seq<Block>, ctx: seq<nat>)
    requires |m| == WORDS == |m'| && Above(m') == Above(m) && Tiles(bs) && Owned(bs, held, ctx)
    requires forall t :: 0 <= t < |held| ==> DataKept(Window(m), Window(m'), held[t])
    ensures ThreadsKept(m, m', ctx)
  {
    forall t | 0 <= t < |ctx| ensures ctx[t] < WORDS && m'[ctx[t]] == m[ctx[t]] {
      var w := 4 * (held[t].g + 1);
      FieldBound(bs, held[t]);
      assert DataWord(held[t], w);
      WindowAt(m, w);
      WindowAt(m', w);
    }
    forall t, a: nat | 0 <= t < |ctx| && InStack(a, t) && a < WORDS ensures m'[a] == m[a] { AboveAt(m, m', a); }
  }

  /** A capability table's writes stay inside its own allocation. */
  lemma TableKeepsThreads(m: seq<u32>, m': seq<u32>, bs: seq<Block>, held: seq<Block>, ctx: seq<nat>,
      table: Capability.CapTable)
    requires |m| == WORDS == |m'| && Above(m') == Above(m) && Tiles(bs) && Owned(bs, held, ctx)
    requires table.heap.blocks == bs && table.Valid() && table.Mine() !! (set b | b in held)
    requires if table.cap == 0 then Window(m') == Window(m)
             else Capability.OnlyWithin(Window(m), Window(m'), table.block)
    ensures ThreadsKept(m, m', ctx)
  {
    forall t | 0 <= t < |held| ensures DataKept(Window(m), Window(m'), held[t]) {
      if table.cap > 0 {
        assert table.block != held[t];
        LiveDisjoint(bs, held[t], table.block);
      }
    }
    StructuresKept(m, m', bs, held, ctx);
  }

  /** What making the n-th stack comes to. */
  ghost function StackOutcome(v: Space, n: nat): Option<MapOutcome> {
    if v.Sized() && KernelVm.StackPageOf(n) < PageTables.VPAGES && (v.free != {} ==> v.cursor < v.npages)
    then Some(v.Outcome(KernelVm.StackPageOf(n))) else None
  }

  // ---------------------------------------------------------------- what one call does, for everyone else

  /** The kernel as its clients see it: the heap, what each thread is to resume with, and the one that runs. */
  datatype Look = Look(words: seq<u32>, blocks: seq<Block>, saved: seq<Regs>, cur: Option<nat>, regs: Regs)

  /** One call: allocations but those in `touched` are still held with their data, no record is lost or changed but the
      running thread's own, and a thread switched to goes on with its record. */
  ghost predicate Stepped(v: Look, v': Look, touched: set<Block>) {
    && Capability.OthersKept(v.words, v'.words, v.blocks, v'.blocks, touched)
    && |v.saved| <= |v'.saved|
    && (forall t :: 0 <= t < |v.saved| && v.cur != Some(t) ==> v'.saved[t] == v.saved[t])
    && (v'.cur.Some? && v'.cur != v.cur ==> v'.cur.value < |v.saved| && v'.regs == v.saved[v'.cur.value])
  }

  /** Any run of calls. */
  ghost predicate Runs(path: seq<Look>, touched: seq<set<Block>>) {
    |path| == |touched| + 1 && forall i :: 0 <= i < |touched| ==> Stepped(path[i], path[i + 1], touched[i])
  }

  /** Over any run of calls, threads created on the way included, a thread that is next switched to goes on with what
      it was suspended with. */
  lemma {:induction false} ResumesInRun(path: seq<Look>, touched: seq<set<Block>>, i: nat, j: nat, t: nat)
    requires Runs(path, touched) && i < j < |path| && t < |path[i].saved|
    requires path[j].cur == Some(t) && forall k :: i <= k < j ==> path[k].cur != Some(t)
    ensures path[j].regs == path[i].saved[t]
    decreases j - i
  {
    assert Stepped(path[i], path[i + 1], touched[i]);
    if i + 1 < j { ResumesInRun(path, touched, i + 1, j, t); }
  }

  /** And an allocation that no call of the run touches is held with its data at the end. */
  lemma {:induction false} KeptInRun(path: seq<Look>, touched: seq<set<Block>>, b: Block)
    requires Runs(path, touched) && b in Live(path[0].blocks) && forall i :: 0 <= i < |touched| ==> b !in touched[i]
    ensures var last := path[|path| - 1];
            |last.words| == |path[0].words| && b in Live(last.blocks) && DataKept(path[0].words, last.words, b)
    decreases |path|
  {
    if touched != [] {
      assert Stepped(path[0], path[1], touched[0]) && b in Live(path[0].blocks) - touched[0];
      var rest := path[1..];
      KeptInRun(rest, touched[1..], b);
      assert rest[0] == path[1] && rest[|rest| - 1] == path[|path| - 1];
    }
  }

  lemma MallocGrows(bs: seq<Block>, size: u32)
    requires HeapSpec.Inv(bs)
    ensures Live(bs) <= Live(Malloc(bs, size).0)
  {
    if Malloc(bs, size).1.Some? { var b := MallocEffect(bs, size); }
  }

  /** Data kept where the list only grew. */
  lemma SameDataStepped(v: Look, v': Look)
    requires SameData(v.words, v'.words, v.blocks) && Live(v.blocks) <= Live(v'.blocks)
    requires v' == v.(words := v'.words, blocks := v'.blocks)
    ensures Stepped(v, v', {})
  {
  }

  /** Data kept where at most one allocation was given up. */
  lemma FreeStepped(v: Look, v': Look, mine: set<Block>)
    requires SameData(v.words, v'.words, v'.blocks) && Live(v.blocks) - mine <= Live(v'.blocks)
    requires v' == v.(words := v'.words, blocks := v'.blocks)
    ensures Stepped(v, v', mine)
  {
    forall b | b in Live(v.blocks) - mine ensures DataKept(v.words, v'.words, b) {}
  }

  lemma SameDataSelf(v: Look)
    ensures forall touched :: Stepped(v, v, touched)
  {
  }

  /** A switch. */
  lemma SwitchStepped(s: Sys, ctx: seq<nat>, to: nat, ret: u32, v: Look, v': Look, held: seq<Block>)
    requires ThreadRuns.Inv(s, ctx) && Allowed(s, ctx, SwitchTo(to, ret))
    requires v.words == Window(s.m) && v.saved == s.saved && v.cur == Some(s.cur) && v'.blocks == v.blocks
    requires var s' := Step(s, ctx, SwitchTo(to, ret));
             v'.words == Window(s'.m) && v'.saved == s'.saved && v'.cur == Some(to) && v'.regs == s.saved[to]
    requires forall b :: b in Live(v.blocks) && b !in held ==> DataKept(v.words, v'.words, b)
    ensures Stepped(v, v', set b | b in held)
  {
    hide SwitchOver, Window, AllSuspended;
  }

  /** What is written lies in allocation b. */
  lemma WithinStepped(v: Look, v': Look, b: Block)
    requires Tiles(v.blocks) && b in Live(v.blocks) && Capability.OnlyWithin(v.words, v'.words, b)
    requires v' == v.(words := v'.words)
    ensures Stepped(v, v', {b})
  {
    Capability.WithinKeepsOthers(v.words, v'.words, v.blocks, b);
  }

  class Machine {
    const heap: KHeap
    const sched: Sched
    ghost var held: seq<Block>    // the allocation behind each thread's structure, by id

    ghost predicate Valid()
      reads this, heap, sched, sched.queue, sched.queue.threads, sched.cpu
      reads heap.mem, heap.mem.vm, heap.mem.vm.pm, heap.mem.vm.pm.pmm, heap.mem.vm.pm.pmm.ram
    {
      && sched.cpu.mem == heap.mem && heap.Valid() && sched.Valid()
      && Owned(heap.blocks, held, sched.ctx) && |sched.ctx| == heap.mem.vm.threads
    }

    /** The kernel with a heap and no thread yet. */
    constructor (heap: KHeap, cpu: Cpu)
      requires heap.Valid() && cpu.mem == heap.mem && heap.mem.vm.threads == 0
      ensures Valid() && this.heap == heap && sched.cpu == cpu && sched.queue.ring == [] && sched.queue.current == null
              && held == []
      ensures fresh(sched) && fresh(sched.queue)
    {
      this.heap := heap;
      sched := new Sched(cpu);
      held := [];
    }

    ghost function Seen(): Look
      reads this, heap, heap.mem, sched, sched.queue, sched.cpu
    {
      Look(heap.Words(), heap.blocks, sched.saved, sched.Current(), sched.cpu.State())
    }

    /** However long the kernel runs, no more than 16384 threads exist, and next_thread_va has not wrapped. */
    lemma NeverWraps()
      requires Valid()
      ensures |held| <= HEAP_GRANULES / 4 < KernelVm.MAX_THREADS
      ensures heap.mem.vm.nextThreadVa == KernelVm.THREAD_VA_BASE + |held| * KernelVm.THREAD_STRIDE
    {
      ThreadsBounded(heap.blocks, held, sched.ctx);
      KernelVm.ThreadVaNoWrap(|held|);
    }

    /** kmalloc: the threads are as they were. */
    method Allocate(size: u32) returns (ptr: u32)
      requires Valid()
      modifies heap`blocks, heap.mem`words, heap.mem.vm.pm.pmm.ram
      ensures Valid() && heap.blocks == Malloc(old(heap.blocks), size).0
              && ptr == PtrTo(Malloc(old(heap.blocks), size).1)
      ensures SameData(old(heap.Words()), heap.Words(), old(heap.blocks)) && Beyond(heap.mem) == old(Beyond(heap.mem))
      ensures ThreadsKept(old(heap.mem.words), heap.mem.words, sched.ctx) && Stepped(old(Seen()), Seen(), {})
      ensures old(heap.MagicExact()) ==> heap.MagicExact()
    {
      hide Memory.Valid, Memory.Has, Memory.Tables, Below, Above, KHeap.MagicExact, Consistent, Malloc, Headers,
           MagicOnly, Housed, SameData, Stepped;
      ghost var m, bs, seen := heap.mem.words, heap.blocks, Seen();
      Sized(heap.mem);
      ptr := heap.KMalloc(size);
      Sized(heap.mem);
      MallocGrows(bs, size);
      SameDataStepped(seen, Seen());
      HeapKeepsThreads(m, heap.mem.words, bs, held, sched.ctx);
      StillConsistent(m, heap.mem.words, sched.Current(), sched.ctx, sched.saved);
    }

    /** kfree, by anyone but of a thread's structure, which no code frees: the threads are as they were. */
    method Release(ptr: u32) returns (o: FreeOutcome)
      requires Valid() && heap.Freeable(ptr)
      requires forall t :: 0 <= t < |held| ==> ptr != Addr(held[t].g + 1)
      modifies heap`blocks, heap.mem`words, heap.mem.vm.pm.pmm.ram
      ensures Valid()
      ensures ptr == 0 ==> o == Returned && heap.blocks == old(heap.blocks)
      ensures ptr != 0 && (PointsAtBlock(old(heap.blocks), ptr) || old(heap.MagicExact())) ==>
              (heap.blocks, o) == FreePtr(old(heap.blocks), ptr)
      ensures ptr != 0 && !PointsAtBlock(old(heap.blocks), ptr) ==> heap.blocks == old(heap.blocks) && o != Returned
      ensures SameData(old(heap.Words()), heap.Words(), heap.blocks) && Beyond(heap.mem) == old(Beyond(heap.mem))
      ensures ThreadsKept(old(heap.mem.words), heap.mem.words, sched.ctx)
      ensures Stepped(old(Seen()), Seen(), PointedAt(old(heap.blocks), ptr))
      ensures old(heap.MagicExact()) ==> heap.MagicExact()
    {
      hide Memory.Valid, Memory.Has, Memory.Tables, Below, Above, KHeap.MagicExact, Consistent, PointsAtBlock, FreePtr,
           Headers, MagicOnly, Housed, SameData, Stepped, PointedAt;
      ghost var m, bs, seen := heap.mem.words, heap.blocks, Seen();
      Sized(heap.mem);
      o := heap.KFree(ptr);
      Sized(heap.mem);
      if ptr != 0 && PointsAtBlock(bs, ptr) {
        FreeKeepsHeld(bs, ptr, held);
        FreeKeepsOthers(bs, ptr);
      }
      FreeStepped(seen, Seen(), PointedAt(bs, ptr));
      OwnedStill(bs, heap.blocks, held, sched.ctx);
      HeapKeepsThreads(m, heap.mem.words, heap.blocks, held, sched.ctx);
      StillConsistent(m, heap.mem.words, sched.Current(), sched.ctx, sched.saved);
    }

    /** kmalloc(sizeof(struct thread)) */
    method NewStructure() returns (p: u32, ghost b: Block)
      requires Valid()
      modifies heap`blocks, heap.mem`words, heap.mem.vm.pm.pmm.ram
      ensures Valid() && heap.blocks == Malloc(old(heap.blocks), THREAD_SIZE).0
      ensures p == 0 <==> Malloc(old(heap.blocks), THREAD_SIZE).1.None?
      ensures p != 0 ==>
                && Owned(heap.blocks, held + [b], sched.ctx + [FieldOf(b)])
                && FieldOf(b) !in sched.ctx && p / 4 == FieldOf(b)
                && Live(heap.blocks) == Live(old(heap.blocks)) + {b} && b !in Live(old(heap.blocks))
      ensures SameData(old(heap.Words()), heap.Words(), old(heap.blocks))
      ensures old(heap.MagicExact()) ==> heap.MagicExact()
      ensures forall n :: StackOutcome(Snap(heap.mem.vm.pm), n) == StackOutcome(old(Snap(heap.mem.vm.pm)), n)
    {
      hide Memory.Valid, Memory.Has, Memory.Tables, Below, Above, Consistent, SameData, ThreadsKept, StackOutcome,
           KHeap.MagicExact;
      ghost var v, bs := Snap(heap.mem.vm.pm), heap.blocks;
      Sized(heap.mem);
      b := Block(0, 0, false);
      p := Allocate(THREAD_SIZE);
      Sized(heap.mem);
      OutcomeSame(v);
      if p != 0 {
        b := ThreadMalloc(bs);
        OwnedMore(bs, heap.blocks, held, sched.ctx, b);
      }
    }

    /** What the heap's stores do not change of it. */
    lemma OutcomeSame(v: Space)
      requires Snap(heap.mem.vm.pm) == v.(m := heap.mem.vm.pm.pmm.ram[..]) && v.Sized() && Snap(heap.mem.vm.pm).Sized()
      requires heap.mem.Tables() == (v.Map(), v.Dir())
      ensures forall n :: StackOutcome(Snap(heap.mem.vm.pm), n) == StackOutcome(v, n)
    {
    }

    /** thread_create: the structure from the heap, the stack from the allocator, then the links and the first
        context. */
    method ThreadCreate(trampoline: u32) returns (r: CreateOutcome, t: Thread?)
      requires Valid()
      modifies this`held, heap`blocks, heap.mem`words, sched, sched.queue, sched.queue.threads
      modifies heap.mem.vm`nextThreadVa, heap.mem.vm`threads
      modifies heap.mem.vm.pm.pmm.ram, heap.mem.vm.pm.pmm`npagesFree, heap.mem.vm.pm.pmm`allocCursor,
               heap.mem.vm.pm.pmm`free
      ensures r == NoHeap <==> Malloc(old(heap.blocks), THREAD_SIZE).1.None?
      ensures !r.NoHeap? ==>
                StackOutcome(old(Snap(heap.mem.vm.pm)), |old(held)|) == Some(if r == Created then Mapped else r.why)
      ensures r.NoStack? ==> r.why != Mapped
      ensures r == Created <==> t != null
      ensures r == Created ==>
        && Valid() && fresh(t) && t.id == |old(held)| && sched.queue.ring == [t] + old(sched.queue.ring)
        && heap.blocks == Malloc(old(heap.blocks), THREAD_SIZE).0 && |held| == |old(held)| + 1
           && held[..|old(held)|] == old(held)
        && sched.saved == old(sched.saved) + [Fresh(t.id, trampoline)]
           && sched.queue.current == old(sched.queue.current)
      ensures r == Created ==>
        && Stepped(old(Seen()), Seen(), {})
        && (old(heap.MagicExact()) ==> heap.MagicExact())
    {
      hide Memory.Valid, Memory.Tables, Consistent, StackOutcome, Malloc, Owned, Fresh, HeapSpec.Inv, Headers, Housed,
           SameData, Live, MagicOnly, Stepped;
      ghost var m, bs, seen := heap.Words(), heap.blocks, Seen();
      NeverWraps();
      var p, b := NewStructure();
      ghost var m1 := heap.Words();
      if p == 0 {
        return NoHeap, null;
      }
      var made, id := MakeStack();
      if made != Mapped {
        return NoStack(made), null;
      }
      t := Join(p, id, trampoline, b);
      r := Created;
      OldDataKept(m, m1, heap.Words(), bs, heap.blocks, b);
      CreateStepped(seen, Seen(), Fresh(t.id, trampoline));
    }

    lemma CreateStepped(v: Look, v': Look, r: Regs)
      requires Capability.OthersKept(v.words, v'.words, v.blocks, v'.blocks, {})
      requires v'.saved == v.saved + [r] && v'.cur == v.cur
      ensures Stepped(v, v', {})
    {
    }

    /** What the two writing steps leave of the allocations there were before. */
    lemma OldDataKept(m: seq<u32>, m1: seq<u32>, m2: seq<u32>, bs: seq<Block>, bs': seq<Block>, b: Block)
      requires SameData(m, m1, bs) && Live(bs') == Live(bs) + {b} && b !in Live(bs)
      requires forall x :: x in Live(bs') && x != b ==> DataKept(m1, m2, x)
      requires |m| == |m1| == |m2|
      ensures Capability.OthersKept(m, m2, bs, bs', {})
    {
      hide Live;
      forall x | x in Live(bs) ensures DataKept(m, m2, x) {
        assert DataKept(m1, m2, x);
      }
    }

    lemma Counted()
      requires Valid()
      ensures |held| == |sched.ctx| == heap.mem.vm.threads && forall t :: 0 <= t < |sched.ctx| ==> sched.ctx[t] < STACKS
    {
    }

    /** The stack: everything the heap and the other threads have stays as it was. */
    method MakeStack() returns (r: MapOutcome, id: nat)
      requires Valid() && |held| < KernelVm.MAX_THREADS
      modifies heap.mem`words, heap.mem.vm`nextThreadVa, heap.mem.vm`threads
      modifies heap.mem.vm.pm.pmm.ram, heap.mem.vm.pm.pmm`npagesFree, heap.mem.vm.pm.pmm`allocCursor,
               heap.mem.vm.pm.pmm`free
      ensures Some(r) == StackOutcome(old(Snap(heap.mem.vm.pm)), |held|) && id == |held|
      ensures r == Mapped ==>
        && heap.Valid() && sched.Valid() && heap.mem.vm.threads == |held| + 1
        && heap.Words() == old(heap.Words()) && ThreadsKept(old(heap.mem.words), heap.mem.words, sched.ctx)
    {
      hide Memory.Valid, Memory.Tables, Consistent, Owned, Window, SameData;
      ghost var m, vm := heap.mem.words, heap.mem.vm;
      Sized(heap.mem);
      Counted();
      var va;
      r, va := heap.mem.NewStack();
      id := WindowOf(va, |held|);
      if r == Mapped {
        Sized(heap.mem);
        StackElsewhere(m, heap.mem.words, |held|, sched.ctx);
        StillConsistent(m, heap.mem.words, sched.Current(), sched.ctx, sched.saved);
      }
    }

    /** The rest of thread_create: the links and the context, in the structure at p. */
    method Join(p: u32, id: nat, trampoline: u32, ghost b: Block) returns (t: Thread)
      requires heap.Valid() && sched.Valid() && sched.cpu.mem == heap.mem && id == |held|
      requires Owned(heap.blocks, held + [b], sched.ctx + [FieldOf(b)]) && FieldOf(b) !in sched.ctx
               && p / 4 == FieldOf(b)
      requires heap.mem.vm.threads == |held| + 1
      modifies this`held, heap.mem`words, sched, sched.queue, sched.queue.threads, heap.mem.vm.pm.pmm.ram
      ensures Valid() && fresh(t) && t.id == |old(held)| && sched.queue.ring == [t] + old(sched.queue.ring)
      ensures held == old(held) + [b] && sched.saved == old(sched.saved) + [Fresh(t.id, trampoline)]
      ensures forall x :: x in Live(heap.blocks) && x != b ==> DataKept(old(heap.Words()), heap.Words(), x)
      ensures old(heap.MagicExact()) ==> heap.MagicExact()
      ensures sched.queue.current == old(sched.queue.current)
    {
      hide Memory.Valid, Memory.Has, Memory.Tables, Consistent, WithContext, Fresh, Window, Headers, MagicOnly, Live,
           DataKept;
      ghost var m := heap.mem.words;
      LastOwned(heap.blocks, held, b, sched.ctx);
      HeapHas(heap.mem, 4 * (b.g + 1));
      t := sched.ThreadCreate(id, p / 4, trampoline);
      ContextKeepsHeap(m, heap.blocks, b, id, trampoline);
      held := held + [b];
    }

    ghost predicate Switching()
      reads sched, sched.queue
    {
      sched.queue.current != null && |sched.queue.ring| > 1
    }

    /** yield: the next thread goes on where it was, and of the heap only the leaving thread's structure changes. */
    method Yield(ret: u32)
      requires Switching() ==> StackLo(sched.queue.current.id) + 8 <= sched.cpu.esp <= StackHi(sched.queue.current.id)
      requires Valid()
      modifies sched`saved, sched.queue, sched.queue.threads, sched.cpu, heap.mem`words, heap.mem.vm.pm.pmm.ram
      ensures old(!Switching()) ==>
              sched.queue.current == old(sched.queue.current) && sched.cpu.State() == old(sched.cpu.State())
      ensures old(!Switching()) ==> heap.mem.words == old(heap.mem.words)
      ensures old(Switching()) ==>
        && old(sched.queue.pos) < |sched.queue.ring|
           && sched.queue.pos == Succ(old(sched.queue.pos), |sched.queue.ring|)
        && sched.queue.pos < |sched.queue.ring| && sched.queue.current == sched.queue.ring[sched.queue.pos]
        && Moved(old(sched.System()), sched.ctx, sched.System(), sched.queue.current.id, ret)
      ensures Stepped(old(Seen()), Seen(), set b | b in held)
      ensures old(heap.MagicExact()) ==> heap.MagicExact()
      ensures Valid() && sched.queue.ring == old(sched.queue.ring)
    {
      hide Memory.Valid, Memory.Has, Memory.Tables, Consistent, Window, Headers, MagicOnly, Owned, Step, Allowed,
           ThreadRuns.Inv, Housed;
      ghost var moves, seen := sched.queue.current != null && |sched.queue.ring| > 1, Seen();
      ghost var s := if moves then Some(sched.System()) else None;
      sched.Yield(ret);
      if moves {
        SwitchKeepsHeap(s.value, sched.ctx, sched.queue.current.id, ret, heap.blocks, held);
        SwitchStepped(s.value, sched.ctx, sched.queue.current.id, ret, seen, Seen(), held);
      } else {
        SameDataSelf(seen);
      }
    }

    /** scheduler_start, from the boot stack in the kernel's own pages; it panics when no thread was created. */
    method Start(unused: nat, ret: u32) returns (panics: bool)
      requires Valid() && sched.queue.current == null && unused < HEAP_WORD && heap.mem.Has(unused)
      requires 8 <= sched.cpu.esp <= HEAP_WORD && HasRange(heap.mem, sched.cpu.esp - 8, sched.cpu.esp)
      modifies sched.queue, sched.queue.threads, sched.cpu, heap.mem`words, heap.mem.vm.pm.pmm.ram
      ensures Valid() && panics == (sched.queue.ring == []) && sched.queue.ring == old(sched.queue.ring)
      ensures if panics then sched.queue.current == null
              else sched.queue.current == sched.queue.head && sched.cpu.State() == sched.saved[sched.queue.current.id]
      ensures heap.Words() == old(heap.Words()) && Stepped(old(Seen()), Seen(), {})
    {
      hide Memory.Valid, Memory.Has, Memory.Tables, Window, Headers;
      BelowFields(heap.blocks, held, sched.ctx);
      ghost var m, esp := heap.mem.words, sched.cpu.esp;
      Sized(heap.mem);
      panics := sched.SchedulerStart(unused, ret);
      WindowBeside(m, heap.mem.words, esp, unused);
    }

    /** The running thread writes its own stack. */
    method StackStore(a: nat, x: u32)
      requires Valid() && sched.queue.current != null && InStack(a, sched.queue.current.id)
      modifies heap.mem`words, heap.mem.vm.pm.pmm.ram
      ensures Valid() && heap.Words() == old(heap.Words())
      ensures ThreadRuns.Inv(old(sched.System()), sched.ctx) && Allowed(old(sched.System()), sched.ctx, Store(a, x))
      ensures sched.System() == Step(old(sched.System()), sched.ctx, Store(a, x)) && Stepped(old(Seen()), Seen(), {})
    {
      hide Memory.Valid, Memory.Has, Memory.Tables, Window, Headers;
      hide Consistent, ThreadRuns.Inv, Allowed, Step;
      StackHas(heap.mem, sched.queue.current.id);
      StackStored(sched.System(), sched.ctx, a, x);
      heap.mem.Store(a, x);
    }

    /** Anyone writes into an allocation that is no thread's structure. */
    method DataStore(w: nat, x: u32, ghost b: Block)
      requires Valid() && b in Live(heap.blocks) && b !in held && DataWord(b, w)
      modifies heap.mem`words, heap.mem.vm.pm.pmm.ram
      ensures Valid() && w < HEAP_WORDS && heap.Words() == old(heap.Words())[w := x]
              && Beyond(heap.mem) == old(Beyond(heap.mem))
      ensures ThreadsKept(old(heap.mem.words), heap.mem.words, sched.ctx) && Stepped(old(Seen()), Seen(), {b})
      ensures x != HDR_MAGIC && old(heap.MagicExact()) ==> heap.MagicExact()
    {
      hide Memory.Valid, Memory.Has, Memory.Tables, Window, Headers, MagicOnly, Stepped;
      ghost var m, seen := heap.mem.words, Seen();
      Sized(heap.mem);
      heap.Store(w, x, b);
      Sized(heap.mem);
      WithinStepped(seen, Seen(), b);
      DataKeepsThreads(m, heap.mem.words, heap.blocks, held, sched.ctx, b);
      StillConsistent(m, heap.mem.words, sched.Current(), sched.ctx, sched.saved);
    }

    /** cap_insert, for a table that shares the heap with the threads. */
    method InsertCapability(table: Capability.CapTable, kind: u32, rights: u32, obj: u32) returns (handle: nat)
      requires Valid() && table.heap == heap && table.Valid() && table.Mine() !! (set b | b in held)
      modifies table, heap`blocks, heap.mem`words, heap.mem.vm.pm.pmm.ram
      ensures Valid() && table.Valid() && table.Mine() !! (set b | b in held)
      ensures var room := Malloc(old(heap.blocks), 16 * CapSpec.NewCap(|old(table.view)|)).1.Some?;
              (table.view, handle) == CapSpec.Insert(old(table.view), kind, rights, obj, room)
      ensures ThreadsKept(old(heap.mem.words), heap.mem.words, sched.ctx)
      ensures Stepped(old(Seen()), Seen(), old(table.Mine()))
      ensures old(heap.MagicExact()) && kind != HDR_MAGIC && rights != HDR_MAGIC && obj != HDR_MAGIC ==>
              heap.MagicExact()
    {
      hide Memory.Valid, Memory.Has, Memory.Tables, Below, Above, Consistent, Malloc, Headers, Housed, CapSpec.Insert,
           Live, KHeap.MagicExact;
      ghost var m, bs := heap.mem.words, heap.blocks;
      Sized(heap.mem);
      handle := table.Insert(kind, rights, obj);
      Sized(heap.mem);
      HeldKept(m, heap.mem.words, bs, heap.blocks, held, sched.ctx, old(table.Mine()), table.Mine());
      StillConsistent(m, heap.mem.words, sched.Current(), sched.ctx, sched.saved);
    }

    /** cap_delete */
    method DeleteCapability(table: Capability.CapTable, handle: u32) returns (r: int)
      requires Valid() && table.heap == heap && table.Valid() && table.Mine() !! (set b | b in held)
      modifies table`view, heap.mem`words, heap.mem.vm.pm.pmm.ram
      ensures Valid() && table.Valid()
      ensures (table.view, r == 0) == CapSpec.Delete(old(table.view), handle)
      ensures ThreadsKept(old(heap.mem.words), heap.mem.words, sched.ctx)
      ensures Capability.OnlyWithin(old(heap.Words()), heap.Words(), table.block)
      ensures Stepped(old(Seen()), Seen(), table.Mine())
      ensures r != 0 ==> heap.Words() == old(heap.Words())
      ensures old(heap.MagicExact()) && (r == 0 ==> handle < |table.view| && table.view[handle].epoch != HDR_MAGIC) ==>
              heap.MagicExact()
    {
      hide Memory.Valid, Memory.Has, Memory.Tables, Below, Above, Consistent, Headers, Housed, KHeap.MagicExact,
           Capability.Stored, CapSpec.CapacityOk, RunQueue.Valid, Fields, Window, Stepped;
      ghost var m, seen := heap.mem.words, Seen();
      Sized(heap.mem);
      r := table.Delete(handle);
      Sized(heap.mem);
      if table.cap == 0 { SameDataSelf(seen); } else { WithinStepped(seen, Seen(), table.block); }
      TableKeepsThreads(m, heap.mem.words, heap.blocks, held, sched.ctx, table);
      StillConsistent(m, heap.mem.words, sched.Current(), sched.ctx, sched.saved);
    }
  }
}
