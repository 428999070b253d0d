/**
 Allocation in address order: until the cursor wraps or a page is given back, the
 allocator hands out its free pages from the lowest up.
 */
module FrameOrder {
  import opened PmmModule

  /** How many pages of s lie below k. */
  function Below(s: set<nat>, k: nat): nat {
    if k == 0 then 0 else Below(s, k - 1) + if k - 1 in s then 1 else 0
  }

  lemma {:induction false} BelowMonotone(s: set<nat>, j: nat, k: nat)
    requires j <= k
    ensures Below(s, j) <= Below(s, k)
    decreases k
  {
    if j < k { BelowMonotone(s, j, k - 1); }
  }

  /** Pages between j and k that are not in s add nothing. */
  lemma {:induction false} BelowGap(s: set<nat>, j: nat, k: nat)
    requires j <= k && forall p: nat :: j <= p < k ==> p !in s
    ensures Below(s, j) == Below(s, k)
    decreases k
  {
    if j < k { BelowGap(s, j, k - 1); }
  }

  lemma {:induction false} BelowAll(s: set<nat>, k: nat)
    requires forall p :: p in s ==> p < k
    ensures Below(s, k) == |s|
    decreases k
  {
    if k == 0 {
      assert s == {};
    } else if k - 1 in s {
      BelowAll(s - {k - 1}, k - 1);
      BelowSame(s - {k - 1}, s, k - 1);
    } else {
      BelowAll(s, k - 1);
    }
  }

  lemma {:induction false} BelowSame(s: set<nat>, t: set<nat>, k: nat)
    requires forall p: nat :: p < k ==> (p in s <==> p in t)
    ensures Below(s, k) == Below(t, k)
  {
    if k > 0 { BelowSame(s, t, k - 1); }
  }

  /** Of the pages s, those below g have been handed out and the rest are free; the cursor is at g. */
  ghost predicate Ascending(s: set<nat>, free: set<nat>, cursor: nat, npages: nat, g: nat) {
    && g <= npages && cursor == (if g < npages then g else 0)
    && (forall p :: p in s ==> p < npages)
    && (forall p :: p in free <==> p in s && p >= g)
  }

  /** From g up, exactly the pages of s are free; the cursor is at g. */
  ghost predicate AscendingFrom(s: set<nat>, free: set<nat>, cursor: nat, npages: nat, g: nat) {
    && g <= npages && cursor == (if g < npages then g else 0)
    && (forall p :: p in s ==> p < npages) && (forall p :: p in free ==> p < npages)
    && (forall p :: p >= g ==> (p in free <==> p in s))
  }

  /** The next page handed out is then the lowest of s from g up, if there is one; it lies below a limit exactly when
      s has enough pages there. */
  lemma NextFrom(s: set<nat>, free: set<nat>, cursor: nat, npages: nat, g: nat, limit: nat)
    requires AscendingFrom(s, free, cursor, npages, g) && Below(s, g) < |s|
    ensures cursor < npages
    ensures var p := NextFree(free, cursor, npages);
            && p in free && p in s && p >= g && Below(s, p + 1) == Below(s, g) + 1
            && AscendingFrom(s, free - {p}, After(p, npages), npages, p + 1)
            && (p < limit <==> Below(s, limit) >= Below(s, g) + 1)
  {
    var above := set p | p in free && p >= g;
    assert forall p: nat :: p >= g ==> (p in above <==> p in s);
    BelowAll(s, npages);
    if above == {} {
      assert forall p: nat :: g <= p < npages ==> p !in above;
      BelowGap(s, g, npages);
    }
    assert above != {};
    var p := LowestFrom(s, above, g, npages);
    forall i: nat | i < p - g ensures Cyclic(g, i, npages) !in free {
      assert Cyclic(g, i, npages) !in above;
    }
    ScanFinds(free, g, 0, npages, p - g);
    assert forall x: nat :: g <= x < p ==> x !in above;
    BelowGap(s, g, p);
    if p < limit {
      BelowMonotone(s, p + 1, limit);
    } else if g <= limit {
      BelowGap(s, g, limit);
    } else {
      BelowMonotone(s, limit, g);
    }
  }

  /** The same when all of s below g has been handed out: any free page will do. */
  lemma AscendingNext(s: set<nat>, free: set<nat>, cursor: nat, npages: nat, g: nat, limit: nat)
    requires Ascending(s, free, cursor, npages, g) && free != {}
    ensures cursor < npages
    ensures var p := NextFree(free, cursor, npages);
            && p in free && p >= g && Below(s, p + 1) == Below(s, g) + 1
            && Ascending(s, free - {p}, After(p, npages), npages, p + 1)
            && (p < limit <==> Below(s, limit) >= Below(s, g) + 1)
  {
    AscendingEmpty(s, free, cursor, npages, g);
    NextFrom(s, free, cursor, npages, g, limit);
    var p := NextFree(free, cursor, npages);
    if q: nat :| q in free && q < p {
      BelowMonotone(s, g, q);
      BelowMonotone(s, q + 1, p);
      assert Below(s, q + 1) == Below(s, q) + 1;
    }
  }

  lemma {:induction false} LowestFrom(s: set<nat>, free: set<nat>, g: nat, npages: nat) returns (p: nat)
    requires g < npages && free != {} && forall q :: q in free ==> g <= q < npages
    ensures p in free && g <= p < npages && forall q :: q in free ==> p <= q
    ensures forall i: nat :: i < p - g ==> Cyclic(g, i, npages) !in free
    decreases npages - g
  {
    if g in free {
      p := g;
    } else {
      var q :| q in free;
      p := LowestFrom(s, free, g + 1, npages);
    }
  }

  lemma BelowAtMost(s: set<nat>, k: nat, npages: nat)
    requires forall p :: p in s ==> p < npages
    ensures Below(s, k) <= |s|
  {
    BelowAll(s, npages);
    if k <= npages { BelowMonotone(s, k, npages); } else { BelowGap(s, npages, k); }
  }

  /** Nothing is left exactly when all of s has been handed out. */
  lemma AscendingEmpty(s: set<nat>, free: set<nat>, cursor: nat, npages: nat, g: nat)
    requires Ascending(s, free, cursor, npages, g)
    ensures Below(s, npages) == |s| && Below(s, g) + |free| == |s|
    ensures free == {} <==> Below(s, g) == |s|
  {
    BelowAll(s, npages);
    var taken := set p | p in s && p < g;
    assert s == taken + free && taken !! free;
    BelowAll(taken, g);
    BelowSame(taken, s, g);
  }
}
