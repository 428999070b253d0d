/**
 The kernel heap as a list of blocks: what `kmalloc` and `kfree` do to the block
 list, and what every run of them keeps.

 All addresses are counted in granules of 16 bytes from the heap base (HEAP_ALIGN
 and the header are both 16 bytes), so a block with header at granule `g` and `n`
 data granules occupies granules g .. g + 1 + n and hands out granule g + 1.
 */
module HeapSpec {
  import opened Words

  const HEAP_GRANULES: nat := 65536  // HEAP_SIZE / 16

  datatype Block = Block(g: nat, n: nat, free: bool) {
    function End(): nat { g + 1 + n }
  }

  /** The single free block that kheap_init leaves. */
  function Initial(): seq<Block> { [Block(0, HEAP_GRANULES - 1, true)] }

  /** The blocks cover the heap exactly, in address order, and none is empty. */
  ghost predicate Tiles(bs: seq<Block>) {
    && |bs| > 0
    && bs[0].g == 0
    && bs[|bs| - 1].End() == HEAP_GRANULES
    && (forall i :: 0 <= i < |bs| ==> bs[i].n >= 1)
    && (forall i, j :: 0 <= i < |bs| - 1 && j == i + 1 ==> bs[j].g == bs[i].End())
  }

  /** Coalescing leaves no two neighbours free. */
  ghost predicate Coalesced(bs: seq<Block>) {
    forall i, j :: 0 <= i < |bs| - 1 && j == i + 1 ==> !(bs[i].free && bs[j].free)
  }

  ghost predicate Inv(bs: seq<Block>) { Tiles(bs) && Coalesced(bs) }

  /** The allocations a client holds. */
  ghost function Live(bs: seq<Block>): set<Block> { set b | b in bs && !b.free }

  // ---------------------------------------------------------------- kmalloc

  predicate Fits(b: Block, n: nat) { b.free && b.n >= n }

  /** Index of the first block that fits, or |bs|. */
  function FirstFit(bs: seq<Block>, n: nat): (i: nat)
    ensures i <= |bs|
    ensures i < |bs| ==> Fits(bs[i], n)
    ensures forall k :: 0 <= k < i ==> !Fits(bs[k], n)
  {
    if bs == [] then 0 else if Fits(bs[0], n) then 0 else
      var r := FirstFit(bs[1..], n);
      assert forall k :: 1 <= k < 1 + r ==> bs[k] == bs[1..][k - 1];
      1 + r
  }

  /** Take block i for n granules, splitting off what is left when it can hold a header and a granule. */
  function Take(bs: seq<Block>, i: nat, n: nat): seq<Block>
    requires i < |bs|
  {
    var b := bs[i];
    if b.n >= n + 2 then
      bs[..i] + [Block(b.g, n, false), Block(b.g + 1 + n, b.n - n - 1, true)] + bs[i + 1..]
    else
      bs[i := b.(free := false)]
  }

  lemma TakeInv(bs: seq<Block>, i: nat, n: nat)
    requires Inv(bs) && i < |bs| && Fits(bs[i], n) && n >= 1
    ensures Inv(Take(bs, i, n))
  {
    var r := Take(bs, i, n);
    if bs[i].n >= n + 2 {
      assert r == bs[..i] + [r[i], r[i + 1]] + bs[i + 1..];
      assert forall k :: 0 <= k < i ==> r[k] == bs[k];
      assert forall k :: i + 1 < k < |r| ==> r[k] == bs[k - 1];
      forall k, j | 0 <= k < |r| - 1 && j == k + 1 ensures r[j].g == r[k].End() && !(r[k].free && r[j].free) {
        if j < i { assert r[k] == bs[k] && r[j] == bs[j]; }
        else if k > i + 1 { assert r[k] == bs[k - 1] && r[j] == bs[k]; }
        else if j == i { assert bs[i].g == bs[k].End(); }
        else if k == i + 1 { assert bs[k].g == bs[i].End() && !(bs[i].free && bs[k].free); }
      }
    }
  }

  /** Blocks lie one after the other. */
  lemma {:induction false} Ordered(bs: seq<Block>, i: nat, j: nat)
    requires Tiles(bs) && i < j < |bs|
    ensures bs[i].End() <= bs[j].g
    decreases j
  {
    if i + 1 < j {
      Ordered(bs, i, j - 1);
    }
  }

  /** Taking a block adds exactly one allocation: at the block's address, with at most one granule to spare. */
  lemma TakeLive(bs: seq<Block>, i: nat, n: nat) returns (b: Block)
    requires Inv(bs) && i < |bs| && Fits(bs[i], n) && n >= 1
    ensures Live(Take(bs, i, n)) == Live(bs) + {b} && b !in Live(bs)
    ensures b.g == bs[i].g && n <= b.n <= n + 1 && !b.free
  {
    var r := Take(bs, i, n);
    b := r[i];
    var d := |r| - |bs|;
    forall x | x in Live(r) ensures x in Live(bs) + {b} {
      var k :| 0 <= k < |r| && r[k] == x;
      if k < i { assert bs[k] == x; } else if k > i + d { assert bs[k - d] == x; }
    }
    forall x | x in Live(bs) ensures x in Live(r) && x != b {
      var k :| 0 <= k < |bs| && bs[k] == x;
      if k < i { assert r[k] == x; Ordered(bs, k, i); } else { assert r[k + d] == x; Ordered(bs, i, k); }
    }
  }

  // ---------------------------------------------------------------- kfree

  /** Absorb block i + 1 into block i when it is free. */
  function MergeNext(bs: seq<Block>, i: nat): seq<Block>
    requires i < |bs|
  {
    if i + 1 < |bs| && bs[i + 1].free then
      bs[..i] + [bs[i].(n := bs[i].n + 1 + bs[i + 1].n)] + bs[i + 2..]
    else
      bs
  }

  /** Mark block i free, absorb the next block, then let the previous one absorb it. */
  function Release(bs: seq<Block>, i: nat): seq<Block>
    requires i < |bs|
  {
    var m := MergeNext(bs[i := bs[i].(free := true)], i);
    if i > 0 && m[i - 1].free then MergeNext(m, i - 1) else m
  }

  lemma MergeNextTiles(bs: seq<Block>, i: nat)
    requires Tiles(bs) && i < |bs|
    ensures Tiles(MergeNext(bs, i))
  {
    var r := MergeNext(bs, i);
    if r != bs {
      forall k, j | 0 <= k < |r| - 1 && j == k + 1 ensures r[j].g == r[k].End() {
        if j <= i { assert bs[j].g == bs[k].End(); } else { assert bs[j + 1].g == bs[k + 1].End(); }
      }
    }
  }

  lemma MergeNextLive(bs: seq<Block>, i: nat)
    requires i < |bs| && bs[i].free
    ensures Live(MergeNext(bs, i)) == Live(bs)
  {
    var r := MergeNext(bs, i);
    var d := |bs| - |r|;
    forall x | x in Live(r) ensures x in Live(bs) {
      var k :| 0 <= k < |r| && r[k] == x;
      assert bs[if k < i then k else k + d] == x;
    }
    forall x | x in Live(bs) ensures x in Live(r) {
      var k :| 0 <= k < |bs| && bs[k] == x;
      assert r[if k < i then k else k - d] == x;
    }
  }

  /** No two neighbours are free, except perhaps among the pairs starting in lo .. hi. */
  ghost predicate CoalescedOutside(bs: seq<Block>, lo: int, hi: int) {
    forall i, j :: 0 <= i < |bs| - 1 && j == i + 1 && !(lo <= i < hi) ==> !(bs[i].free && bs[j].free)
  }

  lemma MergeNextCoalesced(bs: seq<Block>, i: nat, lo: int)
    requires i < |bs| && lo <= i && bs[i].free
    requires CoalescedOutside(bs, lo, i + 1)
    ensures CoalescedOutside(MergeNext(bs, i), lo, i)
  {
    var r := MergeNext(bs, i);
    if r != bs {
      forall k, j | 0 <= k < |r| - 1 && j == k + 1 && !(lo <= k < i) ensures !(r[k].free && r[j].free) {
        if k < i {
          assert r[k] == bs[k] && r[j].free == bs[j].free;
        } else {
          assert r[j] == bs[j + 1] && !(bs[k + 1].free && bs[j + 1].free);
          assert k == i || r[k] == bs[k + 1];
        }
      }
    }
  }

  lemma ReleaseInv(bs: seq<Block>, i: nat)
    requires Inv(bs) && i < |bs| && !bs[i].free
    ensures Inv(Release(bs, i))
  {
    var f := bs[i := bs[i].(free := true)];
    var m := MergeNext(f, i);
    FreedTiles(bs, i);
    MergeNextTiles(f, i);
    MergeNextCoalesced(f, i, i - 1);
    if i > 0 && m[i - 1].free {
      MergeNextTiles(m, i - 1);
      MergeNextCoalesced(m, i - 1, i - 1);
    }
  }

  lemma FreedTiles(bs: seq<Block>, i: nat)
    requires Inv(bs) && i < |bs|
    ensures var f := bs[i := bs[i].(free := true)]; Tiles(f) && CoalescedOutside(f, i - 1, i + 1)
  {
  }

  /** Freeing a block removes exactly that allocation. */
  lemma ReleaseLive(bs: seq<Block>, i: nat)
    requires Inv(bs) && i < |bs| && !bs[i].free
    ensures Live(Release(bs, i)) == Live(bs) - {bs[i]}
  {
    var f := bs[i := bs[i].(free := true)];
    forall x | x in Live(bs) - {bs[i]} ensures x in Live(f) {
      var k :| 0 <= k < |bs| && bs[k] == x;
      assert f[k] == x;
    }
    forall x | x in Live(f) ensures x in Live(bs) - {bs[i]} {
      var k :| 0 <= k < |f| && f[k] == x;
      assert bs[k] == x;
      if k < i { Ordered(bs, k, i); } else { Ordered(bs, i, k); }
    }
    MergeNextLive(f, i);
    var m := MergeNext(f, i);
    if i > 0 && m[i - 1].free {
      MergeNextLive(m, i - 1);
    }
  }

  /** An allocation freed at once leaves the list exactly as it was. */
  lemma TakeReleaseRoundTrip(bs: seq<Block>, i: nat, n: nat)
    requires Inv(bs) && i < |bs| && Fits(bs[i], n) && n >= 1
    ensures Release(Take(bs, i, n), i) == bs
  {
    var r := Take(bs, i, n);
    assert i > 0 ==> !bs[i - 1].free;
    if bs[i].n < n + 2 {
      assert i + 1 < |bs| ==> !bs[i + 1].free;
      assert r[i := r[i].(free := true)] == bs;
    } else {
      assert MergeNext(r[i := r[i].(free := true)], i) == bs;
    }
  }

  // ---------------------------------------------------------------- what the blocks add up to

  /** Granules of a list of blocks, headers included. */
  function Granules(bs: seq<Block>): nat {
    if bs == [] then 0 else bs[0].n + 1 + Granules(bs[1..])
  }

  lemma {:induction false} GranulesPrefix(bs: seq<Block>, from: nat)
    requires Tiles(bs) && from < |bs|
    ensures Granules(bs[from..]) == HEAP_GRANULES - bs[from].g
    decreases |bs| - from
  {
    assert bs[from..][1..] == bs[from + 1..];
    if from + 1 < |bs| {
      GranulesPrefix(bs, from + 1);
    }
  }

  /** Data sizes plus one 16-byte header each always add up to the heap. */
  lemma Conservation(bs: seq<Block>)
    requires Tiles(bs)
    ensures Granules(bs) == HEAP_GRANULES
  {
    GranulesPrefix(bs, 0);
    assert bs[0..] == bs;
  }

  /** Different allocations occupy disjoint granules, all inside the heap. */
  lemma LiveDisjoint(bs: seq<Block>, x: Block, y: Block)
    requires Tiles(bs) && x in Live(bs) && y in Live(bs) && x != y
    ensures x.End() <= y.g || y.End() <= x.g
    ensures x.End() <= HEAP_GRANULES
  {
    var i :| 0 <= i < |bs| && bs[i] == x;
    var j :| 0 <= j < |bs| && bs[j] == y;
    if i < j { Ordered(bs, i, j); } else { Ordered(bs, j, i); }
    if i < |bs| - 1 { Ordered(bs, i, |bs| - 1); }
  }

  // ---------------------------------------------------------------- runs

  const HEADER: nat := 16
  const HEAP_SIZE: nat := 16 * HEAP_GRANULES

  /** Granules that a request of `size` bytes is rounded up to. */
  function Rounded(size: nat): nat { (size + 15) / 16 }

  /** kmalloc on the block list: the new list and the header of the block handed out. */
  function Malloc(bs: seq<Block>, size: nat): (r: (seq<Block>, Option<nat>))
    ensures r.1.None? ==> r.0 == bs
  {
    if size == 0 || size > HEAP_SIZE - HEADER then (bs, None) else
      var i := FirstFit(bs, Rounded(size));
      if i == |bs| then (bs, None) else (Take(bs, i, Rounded(size)), Some(bs[i].g))
  }

  /** Index of the block whose header is at g, or |bs|. */
  function Find(bs: seq<Block>, g: nat): (i: nat)
    ensures i <= |bs|
    ensures i < |bs| ==> bs[i].g == g
    ensures forall k :: 0 <= k < i ==> bs[k].g != g
  {
    if bs == [] then 0 else if bs[0].g == g then 0 else
      var r := Find(bs[1..], g);
      assert forall k :: 1 <= k < 1 + r ==> bs[k] == bs[1..][k - 1];
      1 + r
  }

  datatype FreeOutcome = Returned | PanicBadMagic | PanicDoubleFree

  /** kfree on the block list, of the block whose header is at g. */
  function Free(bs: seq<Block>, g: nat): (seq<Block>, FreeOutcome) {
    var i := Find(bs, g);
    if i == |bs| then (bs, PanicBadMagic)
    else if bs[i].free then (bs, PanicDoubleFree)
    else (Release(bs, i), Returned)
  }

  ghost predicate IsLive(bs: seq<Block>, g: nat) { exists b :: b in Live(bs) && b.g == g }

  /** No block is larger than the heap less one header. */
  lemma BlockBound(bs: seq<Block>, b: Block)
    requires Tiles(bs) && b in bs
    ensures 16 * b.n <= 0xf_fff0
  {
    var k :| 0 <= k < |bs| && bs[k] == b;
    if k > 0 { Ordered(bs, 0, k); }
    if k < |bs| - 1 { Ordered(bs, k, |bs| - 1); }
  }

  /** A request is served from the lowest block that fits, and refused only when none does or it is for nothing. */
  lemma MallocFirstFit(bs: seq<Block>, size: nat)
    requires Inv(bs)
    ensures var (after, p) := Malloc(bs, size);
            && (p.None? <==> size == 0 || forall b :: b in bs ==> !(b.free && 16 * b.n >= size))
            && (p.Some? ==>
                  && (exists b :: b in bs && b.free && b.g == p.value && 16 * b.n >= size)
                  && (forall b :: b in bs && b.free && 16 * b.n >= size ==> p.value <= b.g))
  {
    var n := Rounded(size);
    assert forall b: Block :: 16 * b.n >= size <==> b.n >= n;
    var i := FirstFit(bs, n);
    if size > HEAP_SIZE - HEADER {
      forall b | b in bs ensures 16 * b.n < size { BlockBound(bs, b); }
    } else if i < |bs| {
      assert bs[i] in bs;
      forall b | b in bs && b.free && 16 * b.n >= size ensures bs[i].g <= b.g {
        var k :| 0 <= k < |bs| && bs[k] == b;
        assert Fits(bs[k], n);
        if i < k { Ordered(bs, i, k); }
      }
    } else {
      forall b | b in bs ensures !(b.free && 16 * b.n >= size) {
        var k :| 0 <= k < |bs| && bs[k] == b;
        assert !Fits(bs[k], n);
      }
    }
  }

  /** A successful kmalloc keeps the invariant and adds one allocation, not yet held, that wastes under 32 bytes. */
  lemma MallocEffect(bs: seq<Block>, size: nat) returns (b: Block)
    requires Inv(bs) && Malloc(bs, size).1.Some?
    ensures var (after, p) := Malloc(bs, size);
            && Inv(after)
            && Live(after) == Live(bs) + {b} && b !in Live(bs)
            && b.g == p.value && !IsLive(bs, b.g)
            && size <= 16 * b.n < size + 32 && b.n <= Rounded(size) + 1
  {
    var i := FirstFit(bs, Rounded(size));
    TakeInv(bs, i, Rounded(size));
    b := TakeLive(bs, i, Rounded(size));
    if x :| x in Live(bs) && x.g == b.g {
      var k :| 0 <= k < |bs| && bs[k] == x;
      if k < i { Ordered(bs, k, i); } else if i < k { Ordered(bs, i, k); }
    }
  }

  /** kfree returns exactly on a live allocation, and then removes it and nothing else. */
  lemma FreeEffect(bs: seq<Block>, g: nat)
    requires Inv(bs)
    ensures var (after, o) := Free(bs, g);
            && Inv(after)
            && (o == Returned <==> IsLive(bs, g))
            && (o == PanicDoubleFree <==> exists b :: b in bs && b.free && b.g == g)
            && (o == PanicBadMagic <==> forall b :: b in bs ==> b.g != g)
            && Live(after) == (set b | b in Live(bs) && b.g != g)
  {
    var i := Find(bs, g);
    forall b | b in bs && b.g == g ensures i < |bs| && b == bs[i] {
      var k :| 0 <= k < |bs| && bs[k] == b;
      if i < k { Ordered(bs, i, k); }
    }
    if i < |bs| && !bs[i].free {
      ReleaseInv(bs, i);
      ReleaseLive(bs, i);
      assert bs[i] in Live(bs);
    }
  }

  datatype Op = OpMalloc(size: nat) | OpFree(g: nat)

  /** The block list after a run of calls, or None once one of them panicked. */
  function Run(bs: seq<Block>, ops: seq<Op>): Option<seq<Block>>
    decreases |ops|
  {
    if ops == [] then Some(bs) else
      match ops[0]
      case OpMalloc(size) => Run(Malloc(bs, size).0, ops[1..])
      case OpFree(g) => var (after, o) := Free(bs, g); if o == Returned then Run(after, ops[1..]) else None
  }

  /** Some call of the run hands out header g. */
  predicate HandsOut(bs: seq<Block>, ops: seq<Op>, g: nat)
    decreases |ops|
  {
    ops != [] &&
    match ops[0]
    case OpMalloc(size) => Malloc(bs, size).1 == Some(g) || HandsOut(Malloc(bs, size).0, ops[1..], g)
    case OpFree(h) => HandsOut(Free(bs, h).0, ops[1..], g)
  }

  /** Every run keeps the invariant; what was not live and is never handed out stays not live. */
  lemma {:induction false} RunKeeps(bs: seq<Block>, ops: seq<Op>)
    requires Inv(bs)
    ensures Run(bs, ops).Some? ==> Inv(Run(bs, ops).value)
    ensures Run(bs, ops).Some? ==>
              forall g :: !IsLive(bs, g) && !HandsOut(bs, ops, g) ==> !IsLive(Run(bs, ops).value, g)
    decreases |ops|
  {
    if ops != [] {
      match ops[0]
      case OpMalloc(size) =>
        if Malloc(bs, size).1.Some? {
          var b := MallocEffect(bs, size);
        }
        RunKeeps(Malloc(bs, size).0, ops[1..]);
      case OpFree(g) =>
        FreeEffect(bs, g);
        if Free(bs, g).1 == Returned {
          RunKeeps(Free(bs, g).0, ops[1..]);
        }
    }
  }

  lemma InitialInv()
    ensures Inv(Initial()) && Live(Initial()) == {}
  {
  }

  /** After a free, whatever else runs, a second free panics unless some kmalloc handed the block out again. */
  lemma DoubleFreePanics(bs: seq<Block>, g: nat, ops: seq<Op>)
    requires Inv(bs) && Free(bs, g).1 == Returned
    requires Run(Free(bs, g).0, ops).Some? && !HandsOut(Free(bs, g).0, ops, g)
    ensures Run(bs, [OpFree(g)] + ops + [OpFree(g)]).None?
  {
    hide Inv, Malloc, Free, HandsOut, IsLive;
    FreedNotLive(bs, g);
    var f := Free(bs, g).0;
    RunKeeps(f, ops);
    var r := Run(f, ops).value;
    FreeEffect(r, g);
    OneFree(r, g);
    RunAppend(f, ops, [OpFree(g)]);
    var tail := ops + [OpFree(g)];
    assert [OpFree(g)] + ops + [OpFree(g)] == [OpFree(g)] + tail;
    assert ([OpFree(g)] + tail)[1..] == tail;
  }

  lemma FreedNotLive(bs: seq<Block>, g: nat)
    requires Inv(bs) && Free(bs, g).1 == Returned
    ensures Inv(Free(bs, g).0) && !IsLive(Free(bs, g).0, g)
  {
    FreeEffect(bs, g);
  }

  lemma OneFree(bs: seq<Block>, g: nat)
    ensures Run(bs, [OpFree(g)]).Some? <==> Free(bs, g).1 == Returned
  {
    assert [OpFree(g)][1..] == [];
  }

  lemma {:induction false} RunAppend(bs: seq<Block>, a: seq<Op>, b: seq<Op>)
    ensures Run(bs, a + b) == (if Run(bs, a).None? then None else Run(Run(bs, a).value, b))
    decreases |a|
  {
    if a == [] {
      assert a + b == b;
    } else {
      assert (a + b)[1..] == a[1..] + b;
      match a[0]
      case OpMalloc(size) => RunAppend(Malloc(bs, size).0, a[1..], b);
      case OpFree(g) => RunAppend(Free(bs, g).0, a[1..], b);
    }
  }

  /** The headers of the allocations held. */
  ghost function LiveHeaders(bs: seq<Block>): set<nat> { set b | b in Live(bs) :: b.g }

  function FreeOps(order: seq<nat>): seq<Op> { seq(|order|, i requires 0 <= i < |order| => OpFree(order[i])) }

  /** With nothing held the list is the one kheap_init made. */
  lemma NothingLive(bs: seq<Block>)
    requires Inv(bs) && Live(bs) == {}
    ensures bs == Initial()
  {
    assert forall i :: 0 <= i < |bs| ==> bs[i] !in Live(bs);
    if |bs| > 1 {
      assert bs[0].free && bs[1].free;
    }
  }

  /** Freeing every live block, in any order and after any history, restores the initial list. */
  lemma FreeAllRestores(history: seq<Op>, order: seq<nat>)
    requires Run(Initial(), history).Some?
    requires forall i, j :: 0 <= i < j < |order| ==> order[i] != order[j]
    requires (set g | g in order) == LiveHeaders(Run(Initial(), history).value)
    ensures Run(Initial(), history + FreeOps(order)) == Some(Initial())
  {
    InitialInv();
    RunKeeps(Initial(), history);
    RunAppend(Initial(), history, FreeOps(order));
    FreeAllFrom(Run(Initial(), history).value, order);
  }

  lemma {:induction false} FreeAllFrom(bs: seq<Block>, order: seq<nat>)
    requires Inv(bs)
    requires forall i, j :: 0 <= i < j < |order| ==> order[i] != order[j]
    requires (set g | g in order) == LiveHeaders(bs)
    ensures Run(bs, FreeOps(order)) == Some(Initial())
    decreases |order|
  {
    if order == [] {
      assert forall b :: b in Live(bs) ==> b.g in LiveHeaders(bs);
      NothingLive(bs);
    } else {
      var g := order[0];
      FirstFree(bs, order);
      hide Free, FreeOps, Inv;
      RestOfOrder(bs, order);
      FreeAllFrom(Free(bs, g).0, order[1..]);
    }
  }

  lemma FirstFree(bs: seq<Block>, order: seq<nat>)
    requires Inv(bs) && order != [] && order[0] in LiveHeaders(bs)
    ensures Inv(Free(bs, order[0]).0)
    ensures Run(bs, FreeOps(order)) == Run(Free(bs, order[0]).0, FreeOps(order[1..]))
  {
    hide Free, Inv, Live;
    FreeEffect(bs, order[0]);
    assert FreeOps(order)[1..] == FreeOps(order[1..]);
    assert FreeOps(order)[0] == OpFree(order[0]);
  }

  lemma RestOfOrder(bs: seq<Block>, order: seq<nat>)
    requires Inv(bs) && order != []
    requires forall i, j :: 0 <= i < j < |order| ==> order[i] != order[j]
    requires (set g | g in order) == LiveHeaders(bs)
    ensures (set g | g in order[1..]) == LiveHeaders(Free(bs, order[0]).0)
  {
    var g := order[0];
    FreeEffect(bs, g);
    var f := Free(bs, g).0;
    assert g !in order[1..];
    forall h ensures h in order[1..] <==> h in LiveHeaders(f) {
      assert h in LiveHeaders(f) <==> h in LiveHeaders(bs) && h != g;
      assert h in order <==> h in (set x | x in order);
      assert h in order <==> h == g || h in order[1..];
    }
  }

  // ---------------------------------------------------------------- how many allocations there is room for

  /** The allocations of three granules or more among the first k blocks. */
  ghost function LargeIn(bs: seq<Block>, k: nat): set<Block>
    requires k <= |bs|
  {
    set b | b in bs[..k] && !b.free && b.n >= 3
  }

  lemma {:induction false} LargeUpTo(bs: seq<Block>, k: nat)
    requires Tiles(bs) && k <= |bs|
    ensures 4 * |LargeIn(bs, k)| <= if k == 0 then 0 else bs[k - 1].End()
    decreases k
  {
    if k > 0 {
      hide LargeIn;
      LargeUpTo(bs, k - 1);
      LargeStep(bs, k - 1);
    } else {
      assert LargeIn(bs, 0) == {};
    }
  }

  /** The next block adds one at most, and none when it is free or small. */
  lemma LargeStep(bs: seq<Block>, k: nat)
    requires k < |bs|
    ensures |LargeIn(bs, k + 1)| <= |LargeIn(bs, k)| + if !bs[k].free && bs[k].n >= 3 then 1 else 0
  {
    assert bs[..k + 1] == bs[..k] + [bs[k]];
    if !bs[k].free && bs[k].n >= 3 {
      assert LargeIn(bs, k + 1) == LargeIn(bs, k) + {bs[k]};
      OneMore(LargeIn(bs, k), bs[k]);
    } else {
      assert LargeIn(bs, k + 1) == LargeIn(bs, k);
    }
  }

  lemma OneMore(s: set<Block>, b: Block)
    ensures |s + {b}| <= |s| + 1
  {
    if b in s { assert s + {b} == s; }
  }

  /** Allocations of more than 32 bytes: at most 16384 fit. */
  lemma LargeAllocations(bs: seq<Block>, held: set<Block>)
    requires Inv(bs) && held <= Live(bs) && forall b :: b in held ==> b.n >= 3
    ensures |held| <= HEAP_GRANULES / 4
  {
    LargeUpTo(bs, |bs|);
    assert bs[..|bs|] == bs;
    assert held <= LargeIn(bs, |bs|);
    SubsetSize(held, LargeIn(bs, |bs|));
  }

  lemma {:induction false} SubsetSize<T>(s: set<T>, t: set<T>)
    requires s <= t
    ensures |s| <= |t|
  {
    if s != {} {
      var x :| x in s;
      SubsetSize(s - {x}, t - {x});
    }
  }
}
