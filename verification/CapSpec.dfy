/**
 A capability table as a list of slots: what insert, delete and growth mean for the
 handles a task holds, and what (handle, epoch) names over a whole run.
 */
module CapSpec {
  import opened Words
  import HeapSpec

  const CAP_NONE: nat := 0
  const CAP_INVALID: nat := 0xffff_ffff
  const CAPTBL_INITIAL: nat := 16

  datatype Slot = Slot(kind: nat, rights: nat, epoch: nat, obj: nat)
  datatype Cap = Cap(kind: nat, rights: nat, obj: nat)

  const EmptySlot := Slot(CAP_NONE, 0, 0, 0)

  /** The capabilities a table holds, by handle. */
  ghost function Caps(v: seq<Slot>): map<nat, Cap> {
    map h: nat | h < |v| && v[h].kind != CAP_NONE :: Cap(v[h].kind, v[h].rights, v[h].obj)
  }

  /** First empty slot, or |v|. */
  function FirstEmpty(v: seq<Slot>): (i: nat)
    ensures i <= |v|
    ensures i < |v| ==> v[i].kind == CAP_NONE
    ensures forall k :: 0 <= k < i ==> v[k].kind != CAP_NONE
  {
    if v == [] || v[0].kind == CAP_NONE then 0 else
      var r := FirstEmpty(v[1..]);
      assert forall k :: 1 <= k < 1 + r ==> v[k] == v[1..][k - 1];
      1 + r
  }

  function NewCap(cap: nat): nat { if cap == 0 then CAPTBL_INITIAL else 2 * cap }

  function Grown(v: seq<Slot>): (g: seq<Slot>) {
    v + seq(NewCap(|v|) - |v|, _ => EmptySlot)
  }

  /** kmalloc could serve a table of the next size in an empty heap. */
  predicate Growable(v: seq<Slot>) { 16 * NewCap(|v|) <= HeapSpec.HEAP_SIZE - HeapSpec.HEADER }

  /** cap_insert; `room` says whether the heap as it stands has space for the next size. */
  function Insert(v: seq<Slot>, kind: nat, rights: nat, obj: nat, room: bool): (seq<Slot>, nat) {
    if kind == CAP_NONE then (v, CAP_INVALID) else
      var i := FirstEmpty(v);
      if i == |v| && !(room && Growable(v)) then (v, CAP_INVALID) else
        var g := if i == |v| then Grown(v) else v;
        (g[i := Slot(kind, rights, g[i].epoch, obj)], i)
  }

  /** cap_delete; the flag says whether it succeeded. */
  function Delete(v: seq<Slot>, h: nat): (seq<Slot>, bool) {
    if h >= |v| || v[h].kind == CAP_NONE then (v, false)
    else (v[h := Slot(CAP_NONE, 0, (v[h].epoch + 1) % U32, 0)], true)
  }

  /** A successful insert binds the least handle not in use and disturbs no other, grown or not. */
  lemma InsertRefinesMap(v: seq<Slot>, kind: nat, rights: nat, obj: nat, room: bool)
    requires kind != CAP_NONE && |v| < CAP_INVALID
    ensures var (after, h) := Insert(v, kind, rights, obj, room);
            && (h == CAP_INVALID <==> !(room && Growable(v)) && forall k: nat :: k < |v| ==> k in Caps(v))
            && (h == CAP_INVALID ==> after == v)
            && (h != CAP_INVALID ==>
                  && h !in Caps(v) && (forall k: nat :: k < h ==> k in Caps(v))
                  && Caps(after) == Caps(v)[h := Cap(kind, rights, obj)]
                  && forall k: nat :: k < |v| ==> k < |after| && after[k].epoch == v[k].epoch)
  {
    var i := FirstEmpty(v);
    assert i < |v| ==> i !in Caps(v);
  }

  /** In figures: kind 0 is refused; otherwise one slot is written, in place, and a table without an empty slot first
      doubles, from 0 to 16 slots, with nothing but zeros in the new ones. */
  lemma InsertSlots(v: seq<Slot>, kind: nat, rights: nat, obj: nat, room: bool)
    requires |v| < 0xffff_ffff
    ensures var (after, h) := Insert(v, kind, rights, obj, room);
            var full := forall k: nat :: k < |v| ==> v[k].kind != 0;
            && (h == 0xffff_ffff <==> kind == 0 || (full && !(room && Growable(v))))
            && (h == 0xffff_ffff ==> after == v)
            && (h != 0xffff_ffff ==>
                  && |after| == (if !full then |v| else if v == [] then 16 else 2 * |v|) && h < |after|
                  && (forall k: nat :: k < |v| && k != h ==> after[k] == v[k])
                  && (forall k: nat :: |v| <= k < |after| && k != h ==> after[k] == Slot(0, 0, 0, 0))
                  && after[h] == Slot(kind, rights, if h < |v| then v[h].epoch else 0, obj))
  {
    assert FirstEmpty(v) < |v| ==> v[FirstEmpty(v)].kind == 0;
  }

  /** A delete takes away exactly the handle given, if the table holds it. */
  lemma DeleteRefinesMap(v: seq<Slot>, h: nat)
    ensures var (after, ok) := Delete(v, h);
            ok == (h in Caps(v)) && Caps(after) == Caps(v) - {h} && |after| == |v|
  {
  }

  /** In figures: kind, rights and object become 0, the epoch one more, modulo 2^32; no other slot changes, and none at
      all when there is nothing to delete. */
  lemma DeleteSlots(v: seq<Slot>, h: nat)
    ensures var (after, ok) := Delete(v, h);
            && (ok <==> h < |v| && v[h].kind != 0) && (!ok ==> after == v)
            && (ok ==> after == v[h := Slot(0, 0, (v[h].epoch + 1) % 0x1_0000_0000, 0)])
  {
  }

  // ---------------------------------------------------------------- runs

  datatype Op = OpInsert(kind: nat, rights: nat, obj: nat, room: bool) | OpDelete(h: nat)

  function Step(v: seq<Slot>, op: Op): seq<Slot> {
    match op
    case OpInsert(kind, rights, obj, room) => Insert(v, kind, rights, obj, room).0
    case OpDelete(h) => Delete(v, h).0
  }

  /** The table after a run of calls on a fresh one. */
  function After(ops: seq<Op>): seq<Slot> {
    if ops == [] then [] else Step(After(ops[..|ops| - 1]), ops[|ops| - 1])
  }

  /** The handle that call k of the run inserted at, or CAP_INVALID when it inserted nothing. */
  function Inserted(ops: seq<Op>, k: nat): nat
    requires k < |ops|
  {
    match ops[k]
    case OpInsert(kind, rights, obj, room) => Insert(After(ops[..k]), kind, rights, obj, room).1
    case OpDelete(_) => CAP_INVALID
  }

  /** Successful deletes of handle h over the run. */
  function Deletes(ops: seq<Op>, h: nat): nat {
    if ops == [] then 0 else
      var before := ops[..|ops| - 1];
      Deletes(before, h) +
      match ops[|ops| - 1]
      case OpInsert(_, _, _, _) => 0
      case OpDelete(d) => if d == h && Delete(After(before), h).1 then 1 else 0
  }

  /** Capacity after k growths. */
  function Capacity(k: nat): nat { if k <= 1 then 16 * k else 2 * Capacity(k - 1) }

  /** Capacities a table goes through: none, or sixteen doubled at most eleven times. */
  ghost predicate CapacityOk(cap: nat) { exists k :: 0 <= k <= 12 && cap == Capacity(k) }

  lemma {:induction false} CapacityBound(k: nat)
    requires k <= 12
    ensures Capacity(k) <= 32768
    ensures k >= 1 ==> Capacity(k) >= 16
    ensures 16 * NewCap(Capacity(k)) <= HeapSpec.HEAP_SIZE - HeapSpec.HEADER <==> k < 12
  {
    assert Capacity(12) == 32768;
    CapacityMonotone(k, 12);
    if 1 <= k { CapacityMonotone(1, k); }
    if k < 12 { CapacityMonotone(k, 11); }
  }

  lemma {:induction false} CapacityMonotone(k: nat, l: nat)
    requires k <= l
    ensures Capacity(k) <= Capacity(l)
    decreases l
  {
    if k < l { CapacityMonotone(k, l - 1); }
  }

  lemma GrowthStaysOk(v: seq<Slot>)
    requires CapacityOk(|v|) && Growable(v)
    ensures CapacityOk(NewCap(|v|))
  {
    var k :| 0 <= k <= 12 && |v| == Capacity(k);
    CapacityBound(k);
    assert NewCap(|v|) == Capacity(k + 1);
  }

  lemma AfterPush(ops: seq<Op>, op: Op, h: nat)
    ensures After(ops + [op]) == Step(After(ops), op)
    ensures Deletes(ops + [op], h) == Deletes(ops, h) + (if op == OpDelete(h) && Delete(After(ops), h).1 then 1 else 0)
  {
    var all := ops + [op];
    assert all[..|all| - 1] == ops;
  }

  /** One call: capacity, epoch and occupancy of every handle. */
  lemma StepEffect(v: seq<Slot>, op: Op, h: nat)
    requires CapacityOk(|v|)
    ensures var w := Step(v, op);
            var deleted := op == OpDelete(h) && Delete(v, h).1;
            && CapacityOk(|w|) && |v| <= |w|
            && (h < |v| ==> w[h].epoch == if deleted then (v[h].epoch + 1) % U32 else v[h].epoch)
            && (|v| <= h < |w| ==> w[h].epoch == 0)
            && (h >= |v| ==> !deleted)
            && (h in Caps(v) && !deleted ==> h in Caps(w))
  {
    match op
    case OpInsert(kind, rights, obj, room) =>
      if Growable(v) { GrowthStaysOk(v); }
    case OpDelete(_) =>
  }

  /** Over every run the capacity is 0 or 16 * 2^k, never above 32768: CAP_INVALID is never a handle. */
  lemma {:induction false} CapacityBounded(ops: seq<Op>)
    ensures CapacityOk(|After(ops)|) && |After(ops)| <= 32768 < CAP_INVALID
  {
    if ops != [] {
      var before := ops[..|ops| - 1];
      CapacityBounded(before);
      StepEffect(After(before), ops[|ops| - 1], 0);
    } else {
      assert 0 == Capacity(0);
    }
    var k :| 0 <= k <= 12 && |After(ops)| == Capacity(k);
    CapacityBound(k);
  }

  ghost predicate EpochMatches(v: seq<Slot>, h: nat, deletes: nat) {
    if h < |v| then v[h].epoch == deletes % U32 else deletes == 0
  }

  lemma EpochStep(v: seq<Slot>, op: Op, h: nat, d: nat)
    requires CapacityOk(|v|) && EpochMatches(v, h, d)
    ensures EpochMatches(Step(v, op), h, d + if op == OpDelete(h) && Delete(v, h).1 then 1 else 0)
  {
    StepEffect(v, op, h);
    IncrementWraps(d);
  }

  /** A slot's epoch is the number of times its handle was deleted, modulo 2^32; beyond the table nothing was. */
  lemma {:induction false} EpochCountsDeletes(ops: seq<Op>, h: nat)
    ensures EpochMatches(After(ops), h, Deletes(ops, h))
  {
    if ops != [] {
      var before, op := ops[..|ops| - 1], ops[|ops| - 1];
      assert ops == before + [op];
      EpochCountsDeletes(before, h);
      CapacityBounded(before);
      EpochStep(After(before), op, h, Deletes(before, h));
      AfterPush(before, op, h);
    }
  }

  lemma IncrementWraps(d: nat)
    ensures (d % U32 + 1) % U32 == (d + 1) % U32
  {
    assert d + 1 == U32 * (d / U32) + (d % U32 + 1);
    if d % U32 + 1 == U32 {
      assert d + 1 == U32 * (d / U32 + 1);
    }
  }

  lemma {:induction false} DeletesMonotone(ops: seq<Op>, i: nat, h: nat)
    requires i <= |ops|
    ensures Deletes(ops[..i], h) <= Deletes(ops, h)
    decreases |ops| - i
  {
    if i == |ops| {
      assert ops[..i] == ops;
    } else {
      assert ops[..i + 1] == ops[..i] + [ops[i]];
      AfterPush(ops[..i], ops[i], h);
      DeletesMonotone(ops, i + 1, h);
    }
  }

  /** A handle in use stays in use until it is deleted. */
  lemma {:induction false} HeldUntilDeleted(ops: seq<Op>, i: nat, h: nat)
    requires i <= |ops| && h in Caps(After(ops[..i])) && Deletes(ops, h) == Deletes(ops[..i], h)
    ensures h in Caps(After(ops))
    decreases |ops|
  {
    hide After, Deletes, Step, Delete, Caps;
    if i == |ops| {
      assert ops[..i] == ops;
    } else {
      var before, op := ops[..|ops| - 1], ops[|ops| - 1];
      assert ops == before + [op] && before[..i] == ops[..i];
      DeletesMonotone(before, i, h);
      AfterPush(before, op, h);
      HeldUntilDeleted(before, i, h);
      CapacityBounded(before);
      StepEffect(After(before), op, h);
    }
  }

  /** A successful insert takes an empty handle, fills it, and leaves its epoch as the deletes so far made it. */
  lemma InsertedAt(ops: seq<Op>, k: nat)
    requires k < |ops| && Inserted(ops, k) != CAP_INVALID
    ensures var h, w := Inserted(ops, k), After(ops[..k + 1]);
            && h !in Caps(After(ops[..k]))
            && h in Caps(w)
            && Deletes(ops[..k + 1], h) == Deletes(ops[..k], h)
            && w[h].epoch == Deletes(ops[..k], h) % U32
  {
    var before, h := ops[..k], Inserted(ops, k);
    var op := ops[k];
    assert ops[..k + 1] == before + [op];
    AfterPush(before, op, h);
    CapacityBounded(before);
    InsertRefinesMap(After(before), op.kind, op.rights, op.obj, op.room);
    EpochCountsDeletes(ops[..k + 1], h);
  }

  /** Within 2^32 deletes of a handle, handle and epoch together name one insertion of the run. */
  lemma HandleAndEpochNameOneInsertion(ops: seq<Op>, i: nat, j: nat, h: nat)
    requires i < j < |ops|
    requires Inserted(ops, i) == h == Inserted(ops, j) && h != CAP_INVALID
    requires Deletes(ops[..j], h) < U32
    ensures h in Caps(After(ops[..i + 1])) && h in Caps(After(ops[..j + 1]))
    ensures After(ops[..i + 1])[h].epoch != After(ops[..j + 1])[h].epoch
  {
    DeletedBetween(ops, i, j, h);
    EpochAtInsertion(ops, i, h);
    EpochAtInsertion(ops, j, h);
  }

  lemma EpochAtInsertion(ops: seq<Op>, k: nat, h: nat)
    requires k < |ops| && Inserted(ops, k) == h != CAP_INVALID && Deletes(ops[..k], h) < U32
    ensures h in Caps(After(ops[..k + 1])) && After(ops[..k + 1])[h].epoch == Deletes(ops[..k], h)
  {
    InsertedAt(ops, k);
  }

  /** Two insertions at one handle have a delete of it between them. */
  lemma DeletedBetween(ops: seq<Op>, i: nat, j: nat, h: nat)
    requires i < j < |ops|
    requires Inserted(ops, i) == h == Inserted(ops, j) && h != CAP_INVALID
    ensures Deletes(ops[..i], h) < Deletes(ops[..j], h)
  {
    var upTo := ops[..j];
    assert upTo[..i + 1] == ops[..i + 1] && upTo[..i] == ops[..i];
    assert h in Caps(After(upTo[..i + 1]))
           && Deletes(upTo[..i + 1], h) == Deletes(upTo[..i], h) by { InsertedAt(ops, i); }
    assert h !in Caps(After(upTo)) by { InsertedAt(ops, j); }
    DeletesMonotone(upTo, i + 1, h);
    if Deletes(upTo, h) == Deletes(upTo[..i + 1], h) {
      HeldUntilDeleted(upTo, i + 1, h);
    }
  }
}
