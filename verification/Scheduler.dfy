/**
 Kernel threads in their circular run queue: creation, start and round robin, each
 switch carried out by the processor model of Switch.
 */
module Scheduler {
  import opened Words
  import opened Switch
  import opened KernelMemory
  import opened ThreadRuns
  import KernelVm

  datatype State = Ready | Running

  class Thread {
    const id: nat            // which stack window it has
    const contextField: nat  // word address of t->context
    var state: State
    var next: Thread?

    constructor (id: nat, contextField: nat)
      ensures this.id == id && this.contextField == contextField && state == Ready
    {
      this.id, this.contextField := id, contextField;
      state := Ready;
      next := null;
    }
  }

  /** Position after i in a ring of n. */
  function Succ(i: nat, n: nat): nat
    requires i < n
  {
    if i + 1 < n then i + 1 else 0
  }

  /** Position after k steps from i. */
  function Turns(i: nat, k: nat, n: nat): (j: nat)
    requires i < n
    ensures j < n
  {
    if k == 0 then i else Succ(Turns(i, k - 1, n), n)
  }

  lemma {:induction false} TurnsAt(i: nat, k: nat, n: nat)
    requires i < n && k <= n
    ensures Turns(i, k, n) == if i + k < n then i + k else i + k - n
  {
    if k > 0 { TurnsAt(i, k - 1, n); }
  }

  /** n turns make every thread of the ring current exactly once and come back to the first. */
  lemma RoundRobin(i: nat, n: nat, j: nat) returns (k: nat)
    requires i < n && j < n
    ensures k < n && Turns(i, k, n) == j
    ensures forall l: nat :: l < n && Turns(i, l, n) == j ==> l == k
    ensures Turns(i, n, n) == i
  {
    k := if j >= i then j - i else j + n - i;
    TurnsAt(i, k, n);
    TurnsAt(i, n, n);
    forall l: nat | l < n && Turns(i, l, n) == j ensures l == k { TurnsAt(i, l, n); }
  }

  // ---------------------------------------------------------------- a turn of the ring, on the machine

  /** Switches among the events of a run. */
  function Switches(es: seq<Event>): nat
    decreases |es|
  {
    if es == [] then 0 else (if es[0].SwitchTo? then 1 else 0) + Switches(es[1..])
  }

  /** The switches of a run go round the ring `order` from position pos, as yield makes them; between them the running
      threads do what they like. */
  predicate InTurn(es: seq<Event>, order: seq<nat>, pos: nat)
    requires pos < |order|
    decreases |es|
  {
    es == [] ||
    var next := if es[0].SwitchTo? then Succ(pos, |order|) else pos;
    (es[0].SwitchTo? ==> es[0].to == order[next]) && InTurn(es[1..], order, next)
  }

  predicate Distinct(order: seq<nat>) { forall i, j :: 0 <= i < j < |order| ==> order[i] != order[j] }

  lemma {:induction false} TurnsAfterOne(i: nat, k: nat, n: nat)
    requires i < n
    ensures Turns(Succ(i, n), k, n) == Turns(i, k + 1, n)
  {
    if k > 0 { TurnsAfterOne(i, k - 1, n); }
  }

  /** Such a run leaves the thread that many turns on running. */
  lemma {:induction false} InTurnReaches(s: Sys, ctx: seq<nat>, es: seq<Event>, order: seq<nat>, pos: nat)
    requires Inv(s, ctx) && pos < |order| && s.cur == order[pos] && InTurn(es, order, pos) && Run(s, ctx, es).Some?
    ensures Inv(Run(s, ctx, es).value, ctx) && Run(s, ctx, es).value.cur == order[Turns(pos, Switches(es), |order|)]
    decreases |es|
  {
    hide Step, Allowed, Inv;
    if es != [] {
      StepKeeps(s, ctx, es[0]);
      if es[0].SwitchTo? {
        SwitchResumes(s, ctx, es[0].to, es[0].ret);
        InTurnReaches(Step(s, ctx, es[0]), ctx, es[1..], order, Succ(pos, |order|));
        TurnsAfterOne(pos, Switches(es[1..]), |order|);
      } else {
        InTurnReaches(Step(s, ctx, es[0]), ctx, es[1..], order, pos);
      }
    }
  }

  /** It does not switch to a thread that its turns do not reach. */
  lemma {:induction false} InTurnAvoids(es: seq<Event>, order: seq<nat>, pos: nat, j: nat)
    requires pos < |order| && j < |order| && Distinct(order) && InTurn(es, order, pos)
    requires forall k: nat :: 1 <= k <= Switches(es) ==> Turns(pos, k, |order|) != j
    ensures !SwitchesTo(es, order[j])
    decreases |es|
  {
    if es != [] {
      var next := if es[0].SwitchTo? then Succ(pos, |order|) else pos;
      if es[0].SwitchTo? {
        assert Turns(pos, 1, |order|) == Succ(Turns(pos, 0, |order|), |order|) == next;
        forall k: nat | 1 <= k <= Switches(es[1..]) ensures Turns(next, k, |order|) != j {
          TurnsAfterOne(pos, k, |order|);
        }
      }
      InTurnAvoids(es[1..], order, next, j);
      assert es == [es[0]] + es[1..];
    }
  }

  /** n yields of n threads bring the first one back, exactly where it left, whatever the threads did in their turns. */
  lemma FullTurn(s: Sys, ctx: seq<nat>, order: seq<nat>, pos: nat, ret: u32, between: seq<Event>, ret': u32)
    requires Inv(s, ctx) && Distinct(order) && |order| > 1 && pos < |order| && s.cur == order[pos]
    requires Allowed(s, ctx, SwitchTo(order[Succ(pos, |order|)], ret))
    requires InTurn(between, order, Succ(pos, |order|)) && Switches(between) == |order| - 2
    requires var s1 := Step(s, ctx, SwitchTo(order[Succ(pos, |order|)], ret));
             && Inv(s1, ctx) && Run(s1, ctx, between).Some?
             && Inv(Run(s1, ctx, between).value, ctx)
             && Allowed(Run(s1, ctx, between).value, ctx, SwitchTo(order[pos], ret'))
    ensures Step(Run(Step(s, ctx, SwitchTo(order[Succ(pos, |order|)], ret)), ctx, between).value, ctx,
            SwitchTo(order[pos], ret')).regs
            == Record(s.regs, ret)
  {
    OthersFirst(pos, |order|);
    InTurnAvoids(between, order, Succ(pos, |order|), pos);
    ResumesAsSuspended(s, ctx, order[Succ(pos, |order|)], ret, between, ret');
  }

  /** The last switch of that turn is indeed made by the thread before the first in the ring. */
  lemma FullTurnLast(s1: Sys, ctx: seq<nat>, order: seq<nat>, pos: nat, between: seq<Event>)
    requires Inv(s1, ctx) && |order| > 1 && pos < |order| && s1.cur == order[Succ(pos, |order|)]
             && Run(s1, ctx, between).Some?
    requires InTurn(between, order, Succ(pos, |order|)) && Switches(between) == |order| - 2
    ensures var last := Turns(pos, |order| - 1, |order|);
            Run(s1, ctx, between).value.cur == order[last] && Succ(last, |order|) == pos
  {
    OthersFirst(pos, |order|);
    InTurnReaches(s1, ctx, between, order, Succ(pos, |order|));
  }

  lemma OthersFirst(pos: nat, n: nat)
    requires pos < n && n > 1
    ensures forall k: nat :: 1 <= k <= n - 2 ==> Turns(Succ(pos, n), k, n) != pos
    ensures Turns(Succ(pos, n), n - 2, n) == Turns(pos, n - 1, n) && Succ(Turns(pos, n - 1, n), n) == pos
  {
    forall k: nat | 1 <= k <= n - 2 ensures Turns(Succ(pos, n), k, n) != pos {
      TurnsAfterOne(pos, k, n);
      TurnsAt(pos, k + 1, n);
    }
    TurnsAfterOne(pos, n - 2, n);
    TurnsAt(pos, n - 1, n);
  }

  // ---------------------------------------------------------------- the program

  /** The call of swtch: arguments and return address pushed, then the routine itself. */
  method CallSwtch(cpu: Cpu, mine: nat, theirs: nat, ret: u32)
    requires cpu.mem.Valid() && |cpu.mem.words| == WORDS && 8 <= cpu.esp <= WORDS
             && HasRange(cpu.mem, cpu.esp - 8, cpu.esp)
    requires mine < WORDS && theirs < WORDS && cpu.mem.Has(mine) && cpu.mem.Has(theirs)
    requires ContextPtr(cpu.mem.words[theirs])
    requires HasRange(cpu.mem, cpu.mem.words[theirs] / 4, cpu.mem.words[theirs] / 4 + 6)
    modifies cpu, cpu.mem`words, cpu.mem.vm.pm.pmm.ram
    ensures cpu.mem.Valid() && cpu.mem.Tables() == old(cpu.mem.Tables())
    ensures (cpu.mem.words, cpu.State()) == SwitchOver(old(cpu.mem.words), old(cpu.State()), mine, theirs, ret)
  {
    hide Memory.Valid, Memory.Has, Memory.Tables;
    ghost var m, r := cpu.mem.words, cpu.State();
    PushCall(cpu, mine, cpu.mem.Load(theirs), ret);
    cpu.Swtch();
  }

  method PushCall(cpu: Cpu, old_: nat, new_: u32, ret: u32)
    requires cpu.mem.Valid() && |cpu.mem.words| == WORDS && 8 <= cpu.esp <= WORDS
             && HasRange(cpu.mem, cpu.esp - 8, cpu.esp)
    requires old_ < WORDS
    modifies cpu`esp, cpu.mem`words, cpu.mem.vm.pm.pmm.ram
    ensures cpu.mem.Valid() && cpu.mem.Tables() == old(cpu.mem.Tables())
    ensures cpu.esp == old(cpu.esp) - 3 && cpu.mem.words == Called(old(cpu.mem.words), old(cpu.esp), old_, new_, ret)
  {
    hide Memory.Valid, Memory.Has, Memory.Tables;
    cpu.Push(new_);
    cpu.Push(4 * old_);
    cpu.Push(ret);
  }

  /** thread_init_context: the stores that prepare a stack. */
  method InitContext(mem: Memory, id: nat, field: nat, trampoline: u32)
    requires mem.Valid() && |mem.words| == WORDS && id < mem.vm.threads <= KernelVm.MAX_THREADS && field < STACKS
             && mem.Has(field)
    modifies mem`words, mem.vm.pm.pmm.ram
    ensures mem.Valid() && mem.Tables() == old(mem.Tables())
    ensures mem.words == WithContext(old(mem.words), id, field, trampoline)
  {
    hide Memory.Valid, Memory.Has, Memory.Tables;
    StacksInMemory(id);
    StackHas(mem, id);
    var c := StackHi(id) - 6;
    mem.Store(c, 0);
    mem.Store(c + 1, 0);
    mem.Store(c + 2, 0);
    mem.Store(c + 3, 0);
    mem.Store(c + 4, EFLAGS_IF);
    mem.Store(c + 5, trampoline);
    mem.Store(field, 4 * c);
  }

  /** The threads form one cycle through their next fields. */
  ghost predicate Cycle(ring: seq<Thread>, threads: set<Thread>)
    reads threads
  {
    && (forall i :: 0 <= i < |ring| ==> ring[i] in threads)
    && (forall i, j :: 0 <= i < j < |ring| ==> ring[i].id != ring[j].id)
    && (forall i :: 0 <= i < |ring| ==> ring[i].id < |ring|)
    && (forall i {:trigger ring[i].next} :: 0 <= i < |ring| ==> ring[i].next == ring[Succ(i, |ring|)])
  }

  /** ctx lists the context fields of the ring's threads by id. */
  ghost predicate Fields(ring: seq<Thread>, ctx: seq<nat>) {
    |ctx| == |ring| && forall i :: 0 <= i < |ring| ==> ring[i].id < |ctx| && ring[i].contextField == ctx[ring[i].id]
  }

  /** Every thread but the running one is suspended; before the start no thread is running. */
  ghost predicate Consistent(m: seq<u32>, running: Option<nat>, ctx: seq<nat>, saved: seq<Regs>) {
    && |m| == WORDS && |saved| == |ctx| && Layout(ctx)
    && (running.Some? ==> running.value < |ctx|)
    && AllSuspended(m, ctx, saved, if running.Some? then running.value else |ctx|, |ctx|)
  }

  /** One more thread prepared: it is suspended, and so are those that were. */
  lemma AddedConsistent(m: seq<u32>, running: Option<nat>, ctx: seq<nat>, saved: seq<Regs>, field: nat, trampoline: u32)
    requires Consistent(m, running, ctx, saved) && |ctx| < KernelVm.MAX_THREADS && field < STACKS && field !in ctx
    ensures Consistent(WithContext(m, |ctx|, field, trampoline), running,
                       ctx + [field], saved + [Fresh(|ctx|, trampoline)])
  {
    var n := |ctx|;
    var ctx' := ctx + [field];
    var saved' := saved + [Fresh(n, trampoline)];
    var m' := WithContext(m, n, field, trampoline);
    var but := if running.Some? then running.value else n;
    assert Layout(ctx');
    FreshIsSuspended(m, ctx', n, trampoline);
    forall t | 0 <= t < n && t != but ensures Suspended(m', ctx', t, saved'[t]) {
      SuspendedAt(m, ctx, saved, but, n, t);
      assert ctx'[t] == ctx[t] && Suspended(m, ctx', t, saved[t]);
    }
    EachSuspended(m', ctx', saved', if running.Some? then running.value else n + 1, n + 1);
  }

  /** A switch between two threads of a consistent system is the step of ThreadRuns, and leaves it consistent. */
  lemma SwitchConsistent(m: seq<u32>, regs: Regs, cur: nat, to: nat, ctx: seq<nat>, saved: seq<Regs>, ret: u32)
    requires Consistent(m, Some(cur), ctx, saved) && to < |ctx| && to != cur
    requires StackLo(cur) + 8 <= regs.esp <= StackHi(cur)
    ensures StackHi(cur) <= WORDS && ContextPtr(m[ctx[to]])
    ensures var s := Sys(m, regs, cur, saved);
            var after := SwitchOver(m, regs, ctx[cur], ctx[to], ret);
            var saved' := saved[cur := Record(regs, ret)];
            && Inv(s, ctx) && Allowed(s, ctx, SwitchTo(to, ret))
            && Sys(after.0, after.1, to, saved') == Step(s, ctx, SwitchTo(to, ret))
            && after.1 == saved[to] && Consistent(after.0, Some(to), ctx, saved')
  {
    StacksInMemory(cur);
    SuspendedAt(m, ctx, saved, cur, |ctx|, to);
    SwitchResumes(Sys(m, regs, cur, saved), ctx, to, ret);
  }

  /** So does the first switch, from a stack below the thread windows. */
  lemma StartConsistent(m: seq<u32>, regs: Regs, ctx: seq<nat>, saved: seq<Regs>, unused: nat, to: nat, ret: u32)
    requires Consistent(m, None, ctx, saved) && to < |ctx| && 8 <= regs.esp <= STACKS && unused < STACKS
    requires forall t :: 0 <= t < |ctx| ==> ctx[t] != unused && !(regs.esp - 8 <= ctx[t] < regs.esp)
    ensures |m| == WORDS && ctx[to] < WORDS && ContextPtr(m[ctx[to]])
    ensures var after := SwitchOver(m, regs, unused, ctx[to], ret);
            after.1 == saved[to] && Consistent(after.0, Some(to), ctx, saved)
                && WrittenBelow(m, after.0, regs.esp, unused)
  {
    hide SwitchOver;
    StartResumes(m, regs, ctx, unused, to, ret, saved);
    SwitchWrites(m, regs, unused, ctx[to], ret);
  }

  /** Nothing is written but the eight words below esp and word `unused`. */
  ghost predicate WrittenBelow(m: seq<u32>, m': seq<u32>, esp: nat, unused: nat) {
    |m'| == |m| && forall a: nat :: a < |m| && !(esp - 8 <= a < esp) && a != unused ==> m'[a] == m[a]
  }

  /** The scheduler's own variables: current, run_queue and tss.esp0, and the threads they lead to. */
  class RunQueue {
    var current: Thread?
    var head: Thread?
    var esp0: nat                  // in words
    ghost var ring: seq<Thread>    // every thread created, from the head's successor round to the head
    ghost var threads: set<Thread> // the same as a set
    ghost var pos: nat             // where current is in the ring

    /** sched_init */
    constructor ()
      ensures Valid() && ring == [] && threads == {} && current == null
    {
      current, head, esp0 := null, null, 0;
      ring, threads, pos := [], {}, 0;
    }

    /** The ring ends at the head of the queue. One thread at most is running: it is current, all others are ready,
        and the kernel stack for interrupts is its own. */
    ghost predicate Valid()
      reads this, threads
    {
      && Cycle(ring, threads)
      && (if ring == [] then head == null && current == null else head == ring[|ring| - 1])
      && (current != null ==> pos < |ring| && current == ring[pos] && esp0 == StackHi(current.id))
      && (forall i :: 0 <= i < |ring| ==> ring[i].state == if ring[i] == current then Running else Ready)
    }

    /** thread_new: a ready thread spliced in behind the head of the queue. */
    method ThreadNew(id: nat, contextField: nat) returns (t: Thread)
      requires Valid() && id == |ring|
      modifies this`head, this`ring, this`threads, this`pos, threads`next
      ensures Valid() && fresh(t) && t.id == id && t.contextField == contextField
      ensures threads == old(threads) + {t} && ring == [t] + old(ring)
    {
      hide Cycle;
      t := new Thread(id, contextField);
      Splice(t);
      ring, threads := [t] + ring, threads + {t};
      pos := pos + 1;
    }

    /** The pointers: t between the head of the queue and its successor, or alone. */
    method Splice(t: Thread)
      requires Cycle(ring, threads) && (if ring == [] then head == null else head == ring[|ring| - 1])
      requires t !in threads && t.id == |ring|
      modifies this`head, threads`next, t`next
      ensures Cycle([t] + ring, threads + {t}) && head == ([t] + ring)[|ring|]
    {
      if head == null {
        t.next := t;
        head := t;
      } else {
        t.next := head.next;
        head.next := t;
        Linked(t, old(ring));
      }
    }

    /** The ring with t in front, seen pointer by pointer. */
    lemma Linked(t: Thread, r: seq<Thread>)
      requires r != [] && t !in r && t.next == r[0] && r[|r| - 1].next == t
      requires forall i {:trigger r[i].next} :: 0 <= i < |r| - 1 ==> r[i].next == r[i + 1]
      ensures var s := [t] + r;
              forall i {:trigger s[i].next} :: 0 <= i < |s| ==> s[i].next == s[Succ(i, |s|)]
    {
      var s := [t] + r;
      forall i {:trigger s[i].next} | 0 <= i < |s| ensures s[i].next == s[Succ(i, |s|)] {
        if 0 < i { assert s[i] == r[i - 1]; }
      }
    }

    /** switch_to */
    method SwitchTo(t: Thread)
      modifies this`current, this`esp0, t`state
      ensures current == t && t.state == Running && esp0 == StackHi(t.id)
    {
      t.state := Running;
      current := t;
      esp0 := StackHi(t.id);
    }

    /** The part of yield before the stacks change: current moves to the next thread of the ring. */
    method HandOver()
      requires Valid() && current != null && |ring| > 1
      modifies this`current, this`esp0, this`pos, threads`state
      ensures Valid() && pos == Succ(old(pos), |ring|) && current == ring[pos]
      ensures current == old(current.next) && current.state == Running && old(current).state == Ready
      ensures 4 * esp0 == 0xe000_2000 + 0x3000 * current.id
    {
      var prev := current;
      prev.state := Ready;
      SwitchTo(prev.next);
      pos := Succ(pos, |ring|);
    }

    /** The part of scheduler_start before the stacks change: the head of the queue becomes current. */
    method First()
      requires Valid() && current == null && head != null
      modifies this`current, this`esp0, this`pos, threads`state
      ensures Valid() && current == head
    {
      SwitchTo(head);
      pos := |ring| - 1;
    }
  }

  /** The stacks of the threads are mapped, and so are their context fields. */
  ghost predicate Housed(mem: Memory, ctx: seq<nat>)
    reads mem.vm
  {
    |ctx| <= mem.vm.threads <= KernelVm.MAX_THREADS && forall t :: 0 <= t < |ctx| ==> mem.Has(ctx[t])
  }

  class Sched {
    const cpu: Cpu
    const queue: RunQueue
    ghost var ctx: seq<nat>        // context field of each thread, by id
    ghost var saved: seq<Regs>     // what each thread but the running one resumes with

    constructor (cpu: Cpu)
      requires cpu.mem.Valid()
      ensures Valid() && this.cpu == cpu && fresh(queue) && queue.ring == [] && queue.threads == {}
              && queue.current == null
      ensures ctx == []
    {
      this.cpu := cpu;
      queue := new RunQueue();
      ctx, saved := [], [];
    }

    ghost function Current(): Option<nat>
      reads queue`current
    {
      if queue.current == null then None else Some(queue.current.id)
    }

    ghost predicate Valid()
      reads this, queue, queue.threads, cpu, cpu.mem, cpu.mem.vm, cpu.mem.vm.pm, cpu.mem.vm.pm.pmm,
          cpu.mem.vm.pm.pmm.ram
    {
      && cpu.mem.Valid() && queue.Valid() && Fields(queue.ring, ctx)
      && Housed(cpu.mem, ctx) && Consistent(cpu.mem.words, Current(), ctx, saved)
    }

    ghost function System(): Sys
      requires queue.current != null
      reads this, queue, cpu, cpu.mem
    {
      Sys(cpu.mem.words, cpu.State(), queue.current.id, saved)
    }

    /** thread_create past the two allocations: the thread structure and the stack are there. */
    method ThreadCreate(id: nat, contextField: nat, trampoline: u32) returns (t: Thread)
      requires Valid() && id == |queue.ring| < cpu.mem.vm.threads
      requires contextField < STACKS && contextField !in ctx && cpu.mem.Has(contextField)
      modifies this, queue, queue.threads, cpu.mem`words, cpu.mem.vm.pm.pmm.ram
      ensures Valid() && fresh(t) && queue.threads == old(queue.threads) + {t} && queue.ring == [t] + old(queue.ring)
              && t.id == id
      ensures queue.current == old(queue.current) && cpu.mem.Tables() == old(cpu.mem.Tables())
      ensures ctx == old(ctx) + [contextField] && saved == old(saved) + [Fresh(id, trampoline)]
      ensures |old(cpu.mem.words)| == WORDS
              && cpu.mem.words == WithContext(old(cpu.mem.words), id, contextField, trampoline)
    {
      hide Memory.Valid, Memory.Has, Memory.Tables, Consistent;
      t := queue.ThreadNew(id, contextField);
      Prepare(id, contextField, trampoline);
    }

    /** thread_init_context, for the thread just joined. */
    method Prepare(id: nat, contextField: nat, trampoline: u32)
      requires cpu.mem.Valid() && Housed(cpu.mem, ctx) && Consistent(cpu.mem.words, Current(), ctx, saved)
      requires id == |ctx| < cpu.mem.vm.threads
      requires contextField < STACKS && contextField !in ctx && cpu.mem.Has(contextField)
      modifies this`ctx, this`saved, cpu.mem`words, cpu.mem.vm.pm.pmm.ram
      ensures cpu.mem.Valid() && Housed(cpu.mem, ctx) && Consistent(cpu.mem.words, Current(), ctx, saved)
      ensures cpu.mem.Tables() == old(cpu.mem.Tables())
      ensures ctx == old(ctx) + [contextField] && saved == old(saved) + [Fresh(id, trampoline)]
      ensures |old(cpu.mem.words)| == WORDS
              && cpu.mem.words == WithContext(old(cpu.mem.words), id, contextField, trampoline)
    {
      hide Memory.Valid, Memory.Has, Memory.Tables, WithContext, Fresh;
      AddedConsistent(cpu.mem.words, Current(), ctx, saved, contextField, trampoline);
      InitContext(cpu.mem, id, contextField, trampoline);
      ctx, saved := ctx + [contextField], saved + [Fresh(id, trampoline)];
    }

    /** yield, called by the running thread, its call of swtch returning to ret: the next thread of the ring goes on
        exactly where it was suspended. */
    method Yield(ret: u32)
      requires Valid()
      requires queue.current != null && |queue.ring| > 1 ==>
               StackLo(queue.current.id) + 8 <= cpu.esp <= StackHi(queue.current.id)
      modifies this`saved, queue, queue.threads, cpu, cpu.mem`words, cpu.mem.vm.pm.pmm.ram
      ensures Valid() && queue.ring == old(queue.ring) && queue.threads == old(queue.threads)
      ensures cpu.mem.Tables() == old(cpu.mem.Tables())
      ensures old(queue.current == null || |queue.ring| == 1) ==>
        queue.pos == old(queue.pos) && queue.current == old(queue.current) && saved == old(saved)
        && cpu.State() == old(cpu.State()) && cpu.mem.words == old(cpu.mem.words)
      ensures old(queue.current != null && |queue.ring| > 1) ==>
        && queue.pos == Succ(old(queue.pos), |queue.ring|) && queue.current == queue.ring[queue.pos]
        && cpu.State() == old(saved)[queue.current.id]
        && Inv(old(System()), ctx) && Allowed(old(System()), ctx, SwitchTo(queue.current.id, ret))
        && System() == Step(old(System()), ctx, SwitchTo(queue.current.id, ret))
    {
      hide Memory.Valid, Memory.Has, Memory.Tables, Consistent, Inv, Allowed, Step, Housed;
      var prev := queue.current;
      if prev == null || prev.next == prev {
        return;
      }
      queue.HandOver();
      SwitchStacks(prev, queue.current, ret);
    }

    /** The rest of yield: swtch from the stack of prev to that of next. */
    method SwitchStacks(prev: Thread, next: Thread, ret: u32)
      requires cpu.mem.Valid() && Housed(cpu.mem, ctx) && Consistent(cpu.mem.words, Some(prev.id), ctx, saved)
      requires next.id < |ctx| && next.id != prev.id
      requires prev.contextField == ctx[prev.id] && next.contextField == ctx[next.id]
      requires StackLo(prev.id) + 8 <= cpu.esp <= StackHi(prev.id)
      modifies this`saved, cpu, cpu.mem`words, cpu.mem.vm.pm.pmm.ram
      ensures cpu.mem.Valid() && cpu.mem.Tables() == old(cpu.mem.Tables()) && Housed(cpu.mem, ctx)
      ensures Consistent(cpu.mem.words, Some(next.id), ctx, saved)
      ensures cpu.State() == old(saved)[next.id]
      ensures var s := Sys(old(cpu.mem.words), old(cpu.State()), prev.id, old(saved));
              && Inv(s, ctx) && Allowed(s, ctx, SwitchTo(next.id, ret))
              && Sys(cpu.mem.words, cpu.State(), next.id, saved) == Step(s, ctx, SwitchTo(next.id, ret))
    {
      hide Memory.Valid, Memory.Has, Memory.Tables, Inv, Allowed, Step, SwitchOver;
      SwitchConsistent(cpu.mem.words, cpu.State(), prev.id, next.id, ctx, saved, ret);
      Ready(prev.id, next.id, ret);
      CallSwtch(cpu, prev.contextField, next.contextField, ret);
      saved := saved[prev.id := Record(old(cpu.State()), ret)];
    }

    /** Both stacks and both fields are mapped. */
    lemma Ready(cur: nat, to: nat, ret: u32)
      requires Housed(cpu.mem, ctx) && Consistent(cpu.mem.words, Some(cur), ctx, saved) && to < |ctx| && to != cur
      requires StackLo(cur) + 8 <= cpu.esp <= StackHi(cur)
      ensures |cpu.mem.words| == WORDS && StackHi(cur) <= WORDS && HasRange(cpu.mem, cpu.esp - 8, cpu.esp)
      ensures ctx[cur] < WORDS && ctx[to] < WORDS && cpu.mem.Has(ctx[cur]) && cpu.mem.Has(ctx[to])
      ensures ContextPtr(cpu.mem.words[ctx[to]])
      ensures HasRange(cpu.mem, cpu.mem.words[ctx[to]] / 4, cpu.mem.words[ctx[to]] / 4 + 6)
    {
      StackHas(cpu.mem, cur);
      ContextHas(cur, to);
    }

    /** So are the six words a suspended thread's context takes. */
    lemma ContextHas(but: nat, to: nat)
      requires Housed(cpu.mem, ctx) && |saved| == |ctx| && to < |ctx| && to != but && |cpu.mem.words| == WORDS
      requires AllSuspended(cpu.mem.words, ctx, saved, but, |ctx|)
      ensures ctx[to] < WORDS && ContextPtr(cpu.mem.words[ctx[to]])
      ensures HasRange(cpu.mem, cpu.mem.words[ctx[to]] / 4, cpu.mem.words[ctx[to]] / 4 + 6)
    {
      StackHas(cpu.mem, to);
      SuspendedAt(cpu.mem.words, ctx, saved, but, |ctx|, to);
    }

    lemma FirstHas(to: nat)
      requires Housed(cpu.mem, ctx) && Consistent(cpu.mem.words, None, ctx, saved) && to < |ctx|
      ensures ctx[to] < WORDS && cpu.mem.Has(ctx[to]) && ContextPtr(cpu.mem.words[ctx[to]])
      ensures HasRange(cpu.mem, cpu.mem.words[ctx[to]] / 4, cpu.mem.words[ctx[to]] / 4 + 6)
    {
      ContextHas(|ctx|, to);
    }

    /** scheduler_start, from the boot stack; it panics when no thread was created. */
    method SchedulerStart(unused: nat, ret: u32) returns (panics: bool)
      requires Valid() && queue.current == null && 8 <= cpu.esp <= STACKS && unused < STACKS && unused !in ctx
      requires HasRange(cpu.mem, cpu.esp - 8, cpu.esp) && cpu.mem.Has(unused)
      requires forall t :: 0 <= t < |ctx| ==> !(cpu.esp - 8 <= ctx[t] < cpu.esp)
      modifies queue, queue.threads, cpu, cpu.mem`words, cpu.mem.vm.pm.pmm.ram
      ensures panics == (queue.ring == []) && Valid() && queue.ring == old(queue.ring)
              && queue.threads == old(queue.threads)
      ensures cpu.mem.Tables() == old(cpu.mem.Tables())
      ensures if panics then queue.current == null
              else queue.current == queue.head && cpu.State() == saved[queue.current.id]
      ensures WrittenBelow(old(cpu.mem.words), cpu.mem.words, old(cpu.esp), unused)
    {
      hide Memory.Valid, Memory.Has, Memory.Tables, Consistent, SwitchOver;
      if queue.head == null {
        return true;
      }
      panics := false;
      StartConsistent(cpu.mem.words, cpu.State(), ctx, saved, unused, queue.head.id, ret);
      FirstHas(queue.head.id);
      queue.First();
      CallSwtch(cpu, unused, queue.current.contextField, ret);
    }
  }
}
