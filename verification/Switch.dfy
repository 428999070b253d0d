/**
 The context switch as the instructions of swtch over registers and stack memory, and
 what it means for threads whose kernel stacks are apart. esp and the arguments of the
 functions here count 4-byte words; pointers in memory and in eax, edx are byte addresses.
 */
module Switch {
  import opened Words
  import opened KernelMemory

  /** What survives a switch: callee-saved registers, flags, where to go on, and the stack pointer there. */
  datatype Regs = Regs(edi: u32, esi: u32, ebx: u32, ebp: u32, eflags: u32, eip: u32, esp: nat)

  /** The struct context at word c of memory: six words in the order swtch pops them. */
  function ContextAt(m: seq<u32>, c: nat): Regs
    requires c + 6 <= |m|
  {
    Regs(m[c], m[c + 1], m[c + 2], m[c + 3], m[c + 4], m[c + 5], c + 6)
  }

  /** Memory once swtch has pushed: flags and callee-saved below the return address, esp in *old. */
  function Pushed(m: seq<u32>, r: Regs, old_: nat): (m': seq<u32>)
    requires 5 <= r.esp < |m| && old_ < |m| && |m| <= WORDS
    ensures |m'| == |m|
  {
    m[r.esp - 1 := r.eflags][r.esp - 2 := r.ebp][r.esp - 3 := r.ebx][r.esp - 4 := r.esi][r.esp - 5 := r.edi]
     [old_ := 4 * (r.esp - 5)]
  }

  /** All words from lo to hi are in pages of the kernel's. */
  ghost predicate HasRange(mem: Memory, lo: nat, hi: nat)
    reads mem.vm
  {
    forall a: nat :: lo <= a < hi ==> mem.Has(a)
  }

  /** The pointer p is to a struct context in memory. */
  predicate ContextPtr(p: u32) { p % 4 == 0 && p / 4 + 6 <= WORDS }

  class Cpu {
    const mem: Memory
    var eax: u32
    var edx: u32
    var edi: u32
    var esi: u32
    var ebx: u32
    var ebp: u32
    var eflags: u32
    var eip: u32
    var esp: nat

    constructor (mem: Memory)
      ensures this.mem == mem
    {
      this.mem := mem;
    }

    ghost function State(): Regs
      reads this
    {
      Regs(edi, esi, ebx, ebp, eflags, eip, esp)
    }

    method Push(v: u32)
      requires mem.Valid() && esp >= 1 && mem.Has(esp - 1)
      modifies this`esp, mem`words, mem.vm.pm.pmm.ram
      ensures mem.Valid() && mem.Tables() == old(mem.Tables())
      ensures esp == old(esp) - 1 && mem.words == old(mem.words)[esp := v]
    {
      hide Memory.Valid, Memory.Has, Memory.Tables;
      esp := esp - 1;
      mem.Store(esp, v);
    }

    method Pop() returns (v: u32)
      requires mem.Valid() && mem.Has(esp)
      modifies this`esp
      ensures esp == old(esp) + 1 && v == mem.words[old(esp)]
    {
      hide Memory.Valid;
      v := mem.Load(esp);
      esp := esp + 1;
    }

    /** swtch, entered by a call: return address at esp, `struct context **old` and `struct context *new` above it. */
    method Swtch()
      requires mem.Valid() && |mem.words| == WORDS && 5 <= esp && esp + 3 <= WORDS && HasRange(mem, esp - 5, esp + 3)
      requires mem.words[esp + 1] % 4 == 0 && ContextPtr(mem.words[esp + 2])
      requires mem.Has(mem.words[esp + 1] / 4) && HasRange(mem, mem.words[esp + 2] / 4, mem.words[esp + 2] / 4 + 6)
      modifies this, mem`words, mem.vm.pm.pmm.ram
      ensures mem.Valid() && mem.Tables() == old(mem.Tables())
      ensures mem.words == Pushed(old(mem.words), old(State()), old(mem.words[esp + 1]) / 4)
      ensures State() == ContextAt(mem.words, old(mem.words[esp + 2]) / 4)
    {
      hide Memory.Valid, Memory.Tables, Memory.Has, Pushed, ContextAt;
      eax := mem.Load(esp + 1);
      edx := mem.Load(esp + 2);
      Save();
      esp := edx / 4;
      PopAll();
    }

    /** The half of swtch on the old stack: push everything and leave esp in *old, whose address is in eax. */
    method Save()
      requires mem.Valid() && |mem.words| == WORDS && 5 <= esp < WORDS && HasRange(mem, esp - 5, esp)
      requires eax % 4 == 0 && mem.Has(eax / 4)
      modifies this`esp, mem`words, mem.vm.pm.pmm.ram
      ensures mem.Valid() && mem.Tables() == old(mem.Tables())
      ensures mem.words == Pushed(old(mem.words), old(State()), eax / 4)
    {
      hide Memory.Valid, Memory.Tables, Memory.Has;
      PushAll();
      mem.Store(eax / 4, 4 * esp);
    }

    /** pushf; push ebp, ebx, esi, edi */
    method PushAll()
      requires mem.Valid() && |mem.words| == WORDS && 5 <= esp <= WORDS && HasRange(mem, esp - 5, esp)
      modifies this`esp, mem`words, mem.vm.pm.pmm.ram
      ensures mem.Valid() && mem.Tables() == old(mem.Tables())
      ensures esp == old(esp) - 5
      ensures mem.words == old(mem.words)[old(esp) - 1 := eflags][old(esp) - 2 := ebp][old(esp) - 3 := ebx]
                           [old(esp) - 4 := esi][old(esp) - 5 := edi]
    {
      hide Memory.Valid, Memory.Tables, Memory.Has;
      Push(eflags);
      Push(ebp);
      Push(ebx);
      Push(esi);
      Push(edi);
    }

    /** pop edi, esi, ebx, ebp; popf; ret */
    method PopAll()
      requires mem.Valid() && |mem.words| == WORDS && esp + 6 <= WORDS && HasRange(mem, esp, esp + 6)
      modifies this`esp, this`edi, this`esi, this`ebx, this`ebp, this`eflags, this`eip
      ensures State() == ContextAt(mem.words, old(esp))
    {
      hide Memory.Valid, Memory.Has;
      edi := Pop();
      esi := Pop();
      ebx := Pop();
      ebp := Pop();
      eflags := Pop();
      eip := Pop();
    }
  }
}
