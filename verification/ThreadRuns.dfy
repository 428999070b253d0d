/**
 Whole runs of threads over one memory: whatever the running thread does inside its own
 stack, a thread switched back in goes on exactly as it was when it was switched out.
 */
module ThreadRuns {
  import opened Words
  import opened Switch
  import opened KernelMemory
  import KernelVm

  const STACKS: nat := KernelVm.STACK_PAGE * PAGE_WORDS   // first word of the thread windows
  const EFLAGS_IF: u32 := 0x202                           // interrupts on, and the bit that is always set

  /** Kernel stack of thread t: the stack page of its window. */
  function StackLo(t: nat): nat { STACKS + (3 * t + 1) * PAGE_WORDS }

  function StackHi(t: nat): nat { StackLo(t) + PAGE_WORDS }

  predicate InStack(a: nat, t: nat) { StackLo(t) <= a < StackHi(t) }

  /** The stack of a thread whose page is mapped is there to be read and written. */
  lemma StackHas(mem: Memory, t: nat)
    requires t < mem.vm.threads <= KernelVm.MAX_THREADS
    ensures StackHi(t) <= WORDS && HasRange(mem, StackLo(t), StackHi(t))
  {
    StacksInMemory(t);
    forall a: nat | StackLo(t) <= a < StackHi(t) ensures mem.Has(a) {
      var q := a / PAGE_WORDS;
      assert q == KernelVm.STACK_PAGE + 3 * t + 1;
      assert KernelVm.StackPage(q, mem.vm.threads);
    }
  }

  /** Where each thread's `context` field is: all different, below the thread windows. */
  ghost predicate Layout(ctx: seq<nat>) {
    && |ctx| <= KernelVm.MAX_THREADS
    && (forall i :: 0 <= i < |ctx| ==> ctx[i] < STACKS)
    && (forall i, j :: 0 <= i < j < |ctx| ==> ctx[i] != ctx[j])
  }

  /** Memory, processor, running thread and, for each other thread, what it is to resume with. */
  datatype Sys = Sys(m: seq<u32>, regs: Regs, cur: nat, saved: seq<Regs>)

  datatype Event =
    | Compute(r: Regs)            // registers change
    | Store(a: nat, v: u32)       // the running thread writes memory
    | SwitchTo(to: nat, ret: u32) // it calls swtch, to return at ret

  /** Thread t's context field and stack hold what it is to resume with. */
  ghost predicate Suspended(m: seq<u32>, ctx: seq<nat>, t: nat, r: Regs)
    requires t < |ctx|
  {
    && |m| == WORDS && ctx[t] < STACKS
    && StackLo(t) + 6 <= r.esp <= StackHi(t) <= WORDS
    && m[ctx[t]] == 4 * (r.esp - 6)
    && ContextAt(m, r.esp - 6) == r
  }

  /** The first n threads, except thread `but`, are suspended. */
  ghost predicate AllSuspended(m: seq<u32>, ctx: seq<nat>, saved: seq<Regs>, but: nat, n: nat)
    requires n <= |ctx| == |saved|
  {
    n == 0 || (AllSuspended(m, ctx, saved, but, n - 1) && (n - 1 == but || Suspended(m, ctx, n - 1, saved[n - 1])))
  }

  lemma {:induction false} SuspendedAt(m: seq<u32>, ctx: seq<nat>, saved: seq<Regs>, but: nat, n: nat, t: nat)
    requires t < n <= |ctx| == |saved| && AllSuspended(m, ctx, saved, but, n) && t != but
    ensures Suspended(m, ctx, t, saved[t])
  {
    if t < n - 1 { SuspendedAt(m, ctx, saved, but, n - 1, t); }
  }

  lemma {:induction false} EachSuspended(m: seq<u32>, ctx: seq<nat>, saved: seq<Regs>, but: nat, n: nat)
    requires n <= |ctx| == |saved|
    requires forall t :: 0 <= t < n && t != but ==> Suspended(m, ctx, t, saved[t])
    ensures AllSuspended(m, ctx, saved, but, n)
  {
    if n > 0 { EachSuspended(m, ctx, saved, but, n - 1); }
  }

  ghost predicate Inv(s: Sys, ctx: seq<nat>) {
    && Layout(ctx) && |s.m| == WORDS && |s.saved| == |ctx| && s.cur < |ctx|
    && AllSuspended(s.m, ctx, s.saved, s.cur, |ctx|)
  }

  /** What the running thread may do: not write into another stack or a context field, and call with room below. */
  ghost predicate Allowed(s: Sys, ctx: seq<nat>, e: Event) {
    match e
    case Compute(_) => true
    case Store(a, _) =>
      && a < WORDS && (forall t :: 0 <= t < |ctx| && t != s.cur ==> !InStack(a, t))
      && (forall t :: 0 <= t < |ctx| ==> a != ctx[t])
    case SwitchTo(to, _) =>
      to < |ctx| && to != s.cur && StackLo(s.cur) + 8 <= s.regs.esp <= StackHi(s.cur)
  }

  /** The thread as it will resume once the call of swtch returns to ret. */
  function Record(r: Regs, ret: u32): Regs
    requires r.esp >= 2
  {
    r.(eip := ret, esp := r.esp - 2)
  }

  /** Memory at the entry of swtch: arguments and return address pushed. */
  function Called(m: seq<u32>, esp: nat, old_: nat, new_: u32, ret: u32): (m': seq<u32>)
    requires 3 <= esp <= |m| && old_ < WORDS
    ensures |m'| == |m|
  {
    m[esp - 1 := new_][esp - 2 := 4 * old_][esp - 3 := ret]
  }

  /** The call of swtch by a thread with context field `mine`, to the context saved in field `theirs`. */
  ghost function SwitchOver(m: seq<u32>, r: Regs, mine: nat, theirs: nat, ret: u32): (s: (seq<u32>, Regs))
    requires |m| == WORDS && 8 <= r.esp <= WORDS && mine < WORDS && theirs < WORDS && ContextPtr(m[theirs])
  {
    var entry := Called(m, r.esp, mine, m[theirs], ret);
    var after := Pushed(entry, r.(esp := r.esp - 3), mine);
    (after, ContextAt(after, m[theirs] / 4))
  }

  ghost function Step(s: Sys, ctx: seq<nat>, e: Event): Sys
    requires Inv(s, ctx) && Allowed(s, ctx, e)
  {
    match e
    case Compute(r) => s.(regs := r)
    case Store(a, v) => s.(m := s.m[a := v])
    case SwitchTo(to, ret) =>
      SuspendedAt(s.m, ctx, s.saved, s.cur, |ctx|, to);
      StacksInMemory(s.cur);
      var after := SwitchOver(s.m, s.regs, ctx[s.cur], ctx[to], ret);
      Sys(after.0, after.1, to, s.saved[s.cur := Record(s.regs, ret)])
  }

  lemma StacksInMemory(t: nat)
    requires t < KernelVm.MAX_THREADS
    ensures STACKS < StackLo(t) && StackHi(t) <= WORDS
  {
  }

  lemma StacksApart(t: nat, u: nat)
    requires t != u
    ensures StackHi(t) <= StackLo(u) || StackHi(u) <= StackLo(t)
  {
  }

  /** A suspended thread whose stack and context field are untouched stays as it was. */
  lemma SuspendedKept(m: seq<u32>, m': seq<u32>, ctx: seq<nat>, t: nat, r: Regs)
    requires t < |ctx| && Suspended(m, ctx, t, r) && |m'| == |m|
    requires m'[ctx[t]] == m[ctx[t]] && forall a: nat :: InStack(a, t) && a < |m| ==> m'[a] == m[a]
    ensures Suspended(m', ctx, t, r)
  {
    var c := r.esp - 6;
    assert InStack(c, t) && InStack(c + 1, t) && InStack(c + 2, t) && InStack(c + 3, t) && InStack(c + 4, t)
           && InStack(c + 5, t);
  }

  /** swtch reached by a call leaves the caller suspended as recorded, and writes nothing outside its stack and
      field. */
  lemma CallerSuspended(m: seq<u32>, r: Regs, ctx: seq<nat>, t: nat, theirs: nat, ret: u32)
    requires Layout(ctx) && t < |ctx| && |m| == WORDS && theirs < STACKS && ContextPtr(m[theirs])
    requires StackLo(t) + 8 <= r.esp <= StackHi(t) <= WORDS
    ensures var m' := SwitchOver(m, r, ctx[t], theirs, ret).0;
            && |m'| == |m| && Suspended(m', ctx, t, Record(r, ret))
            && forall a: nat :: a < |m| && !InStack(a, t) && a != ctx[t] ==> m'[a] == m[a]
  {
  }

  /** Writes to the running thread's stack and context field leave every other thread suspended. */
  lemma OtherKept(s: Sys, ctx: seq<nat>, m': seq<u32>, t: nat)
    requires Inv(s, ctx) && t < |ctx| && t != s.cur && |m'| == |s.m|
    requires forall a: nat :: a < |s.m| && !InStack(a, s.cur) && a != ctx[s.cur] ==> m'[a] == s.m[a]
    ensures Suspended(m', ctx, t, s.saved[t])
  {
    SuspendedAt(s.m, ctx, s.saved, s.cur, |ctx|, t);
    StacksApart(t, s.cur);
    StacksInMemory(s.cur);
    StacksInMemory(t);
    SuspendedKept(s.m, m', ctx, t, s.saved[t]);
  }

  /** Once the running thread is suspended as `rec` and nothing else was written, loading the context of another
      gives that one's registers, with all the rest suspended. */
  lemma Landing(s: Sys, ctx: seq<nat>, m': seq<u32>, to: nat, rec: Regs)
    requires Inv(s, ctx) && to < |ctx| && to != s.cur && |m'| == |s.m| && Suspended(m', ctx, s.cur, rec)
    requires forall a: nat :: a < |s.m| && !InStack(a, s.cur) && a != ctx[s.cur] ==> m'[a] == s.m[a]
    ensures ContextPtr(s.m[ctx[to]])
    ensures var regs := ContextAt(m', s.m[ctx[to]] / 4);
            regs == s.saved[to] && Inv(Sys(m', regs, to, s.saved[s.cur := rec]), ctx)
  {
    forall t | 0 <= t < |ctx| && t != s.cur ensures Suspended(m', ctx, t, s.saved[t]) {
      OtherKept(s, ctx, m', t);
    }
    EachSuspended(m', ctx, s.saved[s.cur := rec], to, |ctx|);
    StacksInMemory(s.cur);
    assert Suspended(m', ctx, to, s.saved[to]) && m'[ctx[to]] == s.m[ctx[to]];
  }

  /** The switch: the thread switched in has the registers it was suspended with, and every other stays suspended. */
  lemma SwitchResumes(s: Sys, ctx: seq<nat>, to: nat, ret: u32)
    requires Inv(s, ctx) && Allowed(s, ctx, SwitchTo(to, ret))
    ensures var s' := Step(s, ctx, SwitchTo(to, ret));
            s'.regs == s.saved[to] && Inv(s', ctx) && s'.saved == s.saved[s.cur := Record(s.regs, ret)] && s'.cur == to
  {
    StacksInMemory(s.cur);
    SuspendedAt(s.m, ctx, s.saved, s.cur, |ctx|, to);
    CallerSuspended(s.m, s.regs, ctx, s.cur, ctx[to], ret);
    Landing(s, ctx, SwitchOver(s.m, s.regs, ctx[s.cur], ctx[to], ret).0, to, Record(s.regs, ret));
  }

  /** Every allowed event keeps the invariant, and only a switch touches what is recorded. */
  lemma StepKeeps(s: Sys, ctx: seq<nat>, e: Event)
    requires Inv(s, ctx) && Allowed(s, ctx, e)
    ensures Inv(Step(s, ctx, e), ctx)
    ensures !e.SwitchTo? ==> Step(s, ctx, e).saved == s.saved && Step(s, ctx, e).cur == s.cur
  {
    match e
    case Compute(_) =>
    case Store(a, v) =>
      forall t | 0 <= t < |ctx| && t != s.cur ensures Suspended(s.m[a := v], ctx, t, s.saved[t]) {
        SuspendedAt(s.m, ctx, s.saved, s.cur, |ctx|, t);
        SuspendedKept(s.m, s.m[a := v], ctx, t, s.saved[t]);
      }
      EachSuspended(s.m[a := v], ctx, s.saved, s.cur, |ctx|);
    case SwitchTo(to, ret) =>
      SwitchResumes(s, ctx, to, ret);
  }

  // ---------------------------------------------------------------- runs

  /** The system after a run, or None when some event of it was not allowed. */
  ghost function Run(s: Sys, ctx: seq<nat>, es: seq<Event>): Option<Sys>
    requires Inv(s, ctx)
    decreases |es|
  {
    if es == [] then Some(s)
    else if !Allowed(s, ctx, es[0]) then None
    else
      StepKeeps(s, ctx, es[0]);
      Run(Step(s, ctx, es[0]), ctx, es[1..])
  }

  predicate SwitchesTo(es: seq<Event>, t: nat) { exists i :: 0 <= i < |es| && es[i].SwitchTo? && es[i].to == t }

  /** As long as no switch goes to thread t, what it is to resume with stays recorded. */
  lemma {:induction false} RecordStays(s: Sys, ctx: seq<nat>, es: seq<Event>, t: nat)
    requires Inv(s, ctx) && t < |ctx| && t != s.cur && !SwitchesTo(es, t) && Run(s, ctx, es).Some?
    ensures var s' := Run(s, ctx, es).value; Inv(s', ctx) && s'.cur != t && s'.saved[t] == s.saved[t]
    decreases |es|
  {
    if es != [] {
      StepKeeps(s, ctx, es[0]);
      if es[0].SwitchTo? {
        SwitchResumes(s, ctx, es[0].to, es[0].ret);
        assert es[0].to != t;
      }
      RecordStays(Step(s, ctx, es[0]), ctx, es[1..], t);
    }
  }

  /** A thread that switches away and is next switched back in continues with its callee-saved registers, its flags,
      its return address and its stack pointer, whatever ran in between. */
  lemma ResumesAsSuspended(s: Sys, ctx: seq<nat>, away: nat, ret: u32, between: seq<Event>, ret': u32)
    requires Inv(s, ctx) && Allowed(s, ctx, SwitchTo(away, ret)) && !SwitchesTo(between, s.cur)
    requires var s1 := Step(s, ctx, SwitchTo(away, ret));
             && Inv(s1, ctx) && Run(s1, ctx, between).Some?
             && Inv(Run(s1, ctx, between).value, ctx)
             && Allowed(Run(s1, ctx, between).value, ctx, SwitchTo(s.cur, ret'))
    ensures var s2 := Run(Step(s, ctx, SwitchTo(away, ret)), ctx, between).value;
            Step(s2, ctx, SwitchTo(s.cur, ret')).regs == Record(s.regs, ret)
  {
    SwitchResumes(s, ctx, away, ret);
    var s1 := Step(s, ctx, SwitchTo(away, ret));
    RecordStays(s1, ctx, between, s.cur);
    SwitchResumes(Run(s1, ctx, between).value, ctx, s.cur, ret');
  }

  // ---------------------------------------------------------------- fresh threads

  /** What thread_init_context makes thread t look like: never run, about to return into the trampoline. */
  function Fresh(t: nat, trampoline: u32): Regs { Regs(0, 0, 0, 0, EFLAGS_IF, trampoline, StackHi(t)) }

  /** thread_init_context: a context at the top of the stack, and its address in the thread's field. */
  function WithContext(m: seq<u32>, t: nat, field: nat, trampoline: u32): (m': seq<u32>)
    requires |m| == WORDS && t < KernelVm.MAX_THREADS && field < STACKS
    ensures |m'| == |m|
  {
    StacksInMemory(t);
    var c := StackHi(t) - 6;
    m[c := 0][c + 1 := 0][c + 2 := 0][c + 3 := 0][c + 4 := EFLAGS_IF][c + 5 := trampoline][field := 4 * c]
  }

  /** A thread so prepared is suspended at the trampoline with interrupts on and its stack empty; no other is
      disturbed. */
  lemma FreshIsSuspended(m: seq<u32>, ctx: seq<nat>, t: nat, trampoline: u32)
    requires Layout(ctx) && t < |ctx| && |m| == WORDS
    ensures var m' := WithContext(m, t, ctx[t], trampoline);
            && Suspended(m', ctx, t, Fresh(t, trampoline))
            && (forall u, r :: 0 <= u < |ctx| && u != t && Suspended(m, ctx, u, r) ==> Suspended(m', ctx, u, r))
    ensures Fresh(t, trampoline) == Regs(0, 0, 0, 0, 0x202, trampoline, (0xe000_2000 + 0x3000 * t) / 4)
  {
    var m' := WithContext(m, t, ctx[t], trampoline);
    StacksInMemory(t);
    forall u, r | 0 <= u < |ctx| && u != t && Suspended(m, ctx, u, r) ensures Suspended(m', ctx, u, r) {
      StacksApart(t, u);
      SuspendedKept(m, m', ctx, u, r);
    }
  }

  /** The switch writes the eight words below esp and the field for the old context. */
  lemma SwitchWrites(m: seq<u32>, r: Regs, mine: nat, theirs: nat, ret: u32)
    requires |m| == WORDS && 8 <= r.esp <= WORDS && mine < WORDS && theirs < WORDS && ContextPtr(m[theirs])
    ensures var m' := SwitchOver(m, r, mine, theirs, ret).0;
            |m'| == |m| && forall a: nat :: a < |m| && !(r.esp - 8 <= a < r.esp) && a != mine ==> m'[a] == m[a]
    ensures var after := SwitchOver(m, r, mine, theirs, ret); after.1 == ContextAt(after.0, m[theirs] / 4)
  {
  }

  /** Writes on the boot stack leave every thread suspended. */
  lemma BelowWindows(m: seq<u32>, m': seq<u32>, ctx: seq<nat>, saved: seq<Regs>, esp: nat, unused: nat)
    requires Layout(ctx) && |m| == |m'| == WORDS && |saved| == |ctx| && AllSuspended(m, ctx, saved, |ctx|, |ctx|)
    requires 8 <= esp <= STACKS && unused < STACKS
    requires forall t :: 0 <= t < |ctx| ==> ctx[t] != unused && !(esp - 8 <= ctx[t] < esp)
    requires forall a: nat :: a < |m| && !(esp - 8 <= a < esp) && a != unused ==> m'[a] == m[a]
    ensures forall but: nat :: AllSuspended(m', ctx, saved, but, |ctx|)
  {
    forall t | 0 <= t < |ctx| ensures Suspended(m', ctx, t, saved[t]) {
      StacksInMemory(t);
      SuspendedAt(m, ctx, saved, |ctx|, |ctx|, t);
      SuspendedKept(m, m', ctx, t, saved[t]);
    }
    forall but: nat ensures AllSuspended(m', ctx, saved, but, |ctx|) { EachSuspended(m', ctx, saved, but, |ctx|); }
  }

  /** scheduler_start's switch, from a stack below the thread windows into thread `to`. */
  lemma StartResumes(m: seq<u32>, r: Regs, ctx: seq<nat>, unused: nat, to: nat, ret: u32, saved: seq<Regs>)
    requires Layout(ctx) && |m| == WORDS && |saved| == |ctx| && to < |ctx|
    requires AllSuspended(m, ctx, saved, |ctx|, |ctx|)
    requires 8 <= r.esp <= STACKS && unused < STACKS
    requires forall t :: 0 <= t < |ctx| ==> ctx[t] != unused && !(r.esp - 8 <= ctx[t] < r.esp)
    ensures ContextPtr(m[ctx[to]])
    ensures var after := SwitchOver(m, r, unused, ctx[to], ret);
            after.1 == saved[to] && Inv(Sys(after.0, after.1, to, saved), ctx)
  {
    hide SwitchOver, AllSuspended, Suspended, ContextAt, ContextPtr;
    SuspendedAt(m, ctx, saved, |ctx|, |ctx|, to);
    ContextBack(m, ctx, to, saved[to]);
    var after := SwitchOver(m, r, unused, ctx[to], ret);
    SwitchWrites(m, r, unused, ctx[to], ret);
    BelowWindows(m, after.0, ctx, saved, r.esp, unused);
    SuspendedAt(after.0, ctx, saved, |ctx|, |ctx|, to);
    ContextBack(after.0, ctx, to, saved[to]);
    assert after.0[ctx[to]] == m[ctx[to]];
  }

  /** A suspended thread's context field leads to what it is to resume with. */
  lemma ContextBack(m: seq<u32>, ctx: seq<nat>, t: nat, r: Regs)
    requires t < |ctx| && Suspended(m, ctx, t, r)
    ensures |m| == WORDS && ctx[t] < WORDS && ContextPtr(m[ctx[t]]) && ContextAt(m, m[ctx[t]] / 4) == r
  {
  }
}
