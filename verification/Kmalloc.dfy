/**
 `kmalloc` and `kfree` over the heap's own words: headers sit in place in front of
 the data, linked by their `next` fields. Every operation is tied to the block list
 of HeapSpec, and shown never to write into the data of a live allocation.
 */
module Kmalloc {
  import opened Words
  import opened HeapSpec
  import opened KernelMemory
  import KernelVm
  import PageTables

  const HEAP_BASE: nat := 0xd100_0000
  const HEAP_WORD: nat := HEAP_BASE / 4       // first word of the heap window
  const HEAP_WORDS: nat := HEAP_SIZE / 4
  const HDR_MAGIC: u32 := 0x6b6d_616c

  /** Address of granule g. */
  function Addr(g: nat): nat { HEAP_BASE + 16 * g }

  /** Word of the heap window at address a. */
  function Idx(a: nat): nat
    requires a >= HEAP_BASE
  {
    (a - HEAP_BASE) / 4
  }

  lemma IdxOf(g: nat)
    ensures Addr(g) >= HEAP_BASE && Idx(Addr(g)) == 4 * g && Addr(g) == HEAP_BASE + 4 * Idx(Addr(g))
  {
  }

  function NextAddr(bs: seq<Block>, i: nat): nat {
    if i + 1 < |bs| then Addr(bs[i + 1].g) else 0
  }

  /** Word w starts the header of some block. */
  ghost predicate HeaderWord(bs: seq<Block>, w: nat) { exists i :: 0 <= i < |bs| && 4 * bs[i].g == w }

  /** Word w belongs to the data of block b. */
  predicate DataWord(b: Block, w: nat) { 4 * (b.g + 1) <= w < 4 * b.End() }

  /** Word w lies in the header of block b. */
  predicate InHeader(b: Block, w: nat) { 4 * b.g <= w < 4 * b.g + 4 }

  /** The four header words of block i hold what the block list says. */
  ghost predicate HeaderAt(m: seq<u32>, bs: seq<Block>, i: nat)
    requires i < |bs|
  {
    var w := 4 * bs[i].g;
    && w + 3 < |m|
    && m[w] == HDR_MAGIC
    && m[w + 1] == 16 * bs[i].n
    && m[w + 2] == (if bs[i].free then 1 else 0)
    && m[w + 3] == NextAddr(bs, i)
  }

  ghost predicate Headers(m: seq<u32>, bs: seq<Block>) {
    && |m| == HEAP_WORDS
    && forall i :: 0 <= i < |bs| ==> HeaderAt(m, bs, i)
  }

  /** The header that kheap_init writes: the magic word, a megabyte less the header, free, and no next block. */
  lemma InitialHeader(m: seq<u32>)
    ensures Headers(m, Initial()) <==>
              |m| == 0x4_0000 && m[0] == 0x6b6d_616c && m[1] == 0xf_fff0 && m[2] == 1 && m[3] == 0
  {
    if |m| == HEAP_WORDS { assert HeaderAt(m, Initial(), 0) <==> Headers(m, Initial()); }
  }

  /** No word of a live allocation's data changed. */
  ghost predicate SameData(m: seq<u32>, m': seq<u32>, bs: seq<Block>) {
    |m| == |m'| && forall b, w: nat :: b in Live(bs) && w < |m| && DataWord(b, w) ==> m'[w] == m[w]
  }

  /** The data of allocation b is as it was. */
  ghost predicate DataKept(m: seq<u32>, m': seq<u32>, b: Block) {
    |m| == |m'| && forall w: nat :: w < |m| && DataWord(b, w) ==> m'[w] == m[w]
  }

  /** The magic word appears nowhere but at the headers of the blocks. */
  ghost predicate MagicOnly(m: seq<u32>, bs: seq<Block>) {
    forall w: nat :: w < |m| && m[w] == HDR_MAGIC ==> HeaderWord(bs, w)
  }

  /** The heap window's part of the kernel's memory. */
  ghost function Window(s: seq<u32>): (h: seq<u32>)
    ensures |h| == HEAP_WORDS
  {
    if |s| == WORDS then s[HEAP_WORD..HEAP_WORD + HEAP_WORDS] else seq(HEAP_WORDS, _ => 0)
  }

  /** All that the heap leaves alone: page tables, and the words outside its window. */
  ghost function Beyond(mem: Memory): ((seq<Option<PageTables.Mapping>>, seq<u32>), seq<u32>, seq<u32>)
    reads mem, mem.vm, mem.vm.pm, mem.vm.pm.pmm, mem.vm.pm.pmm.ram
  {
    (mem.Tables(), Below(mem.words), Above(mem.words))
  }

  ghost function Below(s: seq<u32>): seq<u32> { if |s| == WORDS then s[..HEAP_WORD] else [] }

  ghost function Above(s: seq<u32>): seq<u32> { if |s| == WORDS then s[HEAP_WORD + HEAP_WORDS..] else [] }

  lemma HeapHas(mem: Memory, w: nat)
    requires mem.Valid() && w < HEAP_WORDS
    ensures mem.Has(HEAP_WORD + w)
  {
    var p := (HEAP_WORD + w) / PAGE_WORDS;
    assert KernelVm.HEAP_PAGE <= p < KernelVm.HEAP_PAGE + KernelVm.HEAP_PAGES;
    assert p in mem.vm.Pages();
  }

  /** The first header written over m: past it, the words are as they were. */
  lemma FirstHeader(m: seq<u32>, m': seq<u32>)
    requires |m| == HEAP_WORDS && m' == m[0 := HDR_MAGIC][1 := HEAP_SIZE - HEADER][2 := 1][3 := 0]
    ensures MagicOnly(m', Initial()) <==> forall w :: 4 <= w < HEAP_WORDS ==> m[w] != HDR_MAGIC
  {
    assert HeaderWord(Initial(), 0) by { assert 4 * Initial()[0].g == 0; }
    forall w | 4 <= w < HEAP_WORDS ensures !HeaderWord(Initial(), w) && m'[w] == m[w] {}
  }

  lemma EndBound(bs: seq<Block>, i: nat)
    requires Tiles(bs) && i < |bs|
    ensures bs[i].End() <= HEAP_GRANULES
  {
    if i < |bs| - 1 { Ordered(bs, i, |bs| - 1); }
  }

  lemma AllOrdered(bs: seq<Block>)
    requires Tiles(bs)
    ensures forall i, j :: 0 <= i < j < |bs| ==> bs[i].End() <= bs[j].g
    ensures forall i :: 0 <= i < |bs| ==> bs[i].End() <= HEAP_GRANULES
  {
    forall i, j | 0 <= i < j < |bs| ensures bs[i].End() <= bs[j].g { Ordered(bs, i, j); }
  }

  /** What the search of kmalloc reads at block i. */
  lemma SearchStep(m: seq<u32>, bs: seq<Block>, i: nat, n: nat)
    requires Headers(m, bs) && i < |bs|
    ensures var w := Idx(Addr(bs[i].g));
            && w + 3 < HEAP_WORDS && (m[w + 2] == 0 || m[w + 1] < 16 * n <==> !Fits(bs[i], n))
            && m[w + 3] == if i + 1 < |bs| then Addr(bs[i + 1].g) else 0
  {
    assert HeaderAt(m, bs, i);
  }

  /** What the code reads of the header of block i. */
  lemma HeaderReads(m: seq<u32>, bs: seq<Block>, i: nat)
    requires Headers(m, bs) && i < |bs|
    ensures var w := Idx(Addr(bs[i].g));
            && w == 4 * bs[i].g && w + 3 < HEAP_WORDS && m[w + 2] == (if bs[i].free then 1 else 0)
            && m[w + 3] == NextAddr(bs, i)
  {
    assert HeaderAt(m, bs, i);
  }

  lemma FitFound(bs: seq<Block>, n: nat, i: nat)
    requires i <= |bs| && (i < |bs| ==> Fits(bs[i], n)) && forall k :: 0 <= k < i ==> !Fits(bs[k], n)
    ensures i == FirstFit(bs, n)
  {
  }

  /** What a write of block i's header, and of the split-off block's header, leaves in memory. */
  ghost predicate TakeWrites(m: seq<u32>, m': seq<u32>, bs: seq<Block>, i: nat, n: nat)
    requires i < |bs|
  {
    var r := Take(bs, i, n);
    && |m'| == |m|
    && HeaderAt(m', r, i)
    && (|r| > |bs| ==> HeaderAt(m', r, i + 1))
    && forall w: nat :: w < |m| && !InHeader(r[i], w) && !(|r| > |bs| && InHeader(r[i + 1], w)) ==> m'[w] == m[w]
  }

  /** The same stores seen as words: header words from w at address b, the split-off header behind the data. */
  ghost predicate SplitWrites(m: seq<u32>, m': seq<u32>, w: nat, b: nat, n: nat)
    requires w + 3 < |m|
  {
    var v := w + 4 + 4 * n;
    var split := m[w + 1] >= 16 * n + 32;
    && |m'| == |m|
    && (split ==> v + 3 < |m|)
    && (forall k: nat :: k < |m| && !(w <= k < w + 4) && !(split && v <= k < v + 4) ==> m'[k] == m[k])
    && m'[w] == m[w]
    && m'[w + 1] == (if split then 16 * n else m[w + 1])
    && m'[w + 2] == 0
    && m'[w + 3] == (if split then b + 16 + 16 * n else m[w + 3])
    && (split ==> m'[v] == HDR_MAGIC && m'[v + 1] == m[w + 1] - 16 * n - 16 && m'[v + 2] == 1 && m'[v + 3] == m[w + 3])
  }

  /** They come from seven stores, or one when the rest is too small to be split off. */
  lemma SplitStores(m: seq<u32>, w: nat, b: nat, n: nat)
    requires |m| == HEAP_WORDS && w + 3 < |m| && 4 * (w + 4) + m[w + 1] <= 4 * |m| && b == HEAP_BASE + 4 * w
    ensures var v, s := w + 4 + 4 * n, m[w + 1];
            if s < 16 * n + 32 then SplitWrites(m, m[w + 2 := 0], w, b, n)
            else
              && v + 3 < |m|
              && SplitWrites(m, m[v := HDR_MAGIC][v + 1 := s - 16 * n - 16][v + 2 := 1][v + 3 := m[w + 3]]
                              [w + 1 := 16 * n][w + 3 := b + 16 + 16 * n][w + 2 := 0], w, b, n)
  {
  }

  /** A header whose words did not change still describes its block, wherever the block now is in the list. */
  lemma HeaderKept(m: seq<u32>, m': seq<u32>, bs: seq<Block>, j: nat, r: seq<Block>, k: nat)
    requires j < |bs| && k < |r| && HeaderAt(m, bs, j) && r[k] == bs[j] && NextAddr(r, k) == NextAddr(bs, j)
    requires |m'| == |m| && forall w: nat :: w < |m| && InHeader(bs[j], w) ==> m'[w] == m[w]
    ensures HeaderAt(m', r, k)
  {
    var w := 4 * bs[j].g;
    assert InHeader(bs[j], w) && InHeader(bs[j], w + 1) && InHeader(bs[j], w + 2) && InHeader(bs[j], w + 3);
  }

  lemma TakeHeaderAt(m: seq<u32>, m': seq<u32>, bs: seq<Block>, i: nat, n: nat, j: nat)
    requires Tiles(bs) && Headers(m, bs) && i < |bs| && Fits(bs[i], n) && TakeWrites(m, m', bs, i, n)
    requires j < |Take(bs, i, n)|
    ensures HeaderAt(m', Take(bs, i, n), j)
  {
    var r := Take(bs, i, n);
    var d := |r| - |bs|;
    if j < i {
      Ordered(bs, j, i);
      HeaderKept(m, m', bs, j, r, j);
    } else if j > i + d {
      Ordered(bs, i, j - d);
      HeaderKept(m, m', bs, j - d, r, j);
    }
  }

  lemma TakeHeaders(m: seq<u32>, m': seq<u32>, bs: seq<Block>, i: nat, n: nat)
    requires Tiles(bs) && Headers(m, bs) && i < |bs| && Fits(bs[i], n) && TakeWrites(m, m', bs, i, n)
    ensures Headers(m', Take(bs, i, n))
  {
    forall j: nat | j < |Take(bs, i, n)| ensures HeaderAt(m', Take(bs, i, n), j) {
      TakeHeaderAt(m, m', bs, i, n, j);
    }
  }

  lemma TakeData(m: seq<u32>, m': seq<u32>, bs: seq<Block>, i: nat, n: nat)
    requires Tiles(bs) && i < |bs| && Fits(bs[i], n) && TakeWrites(m, m', bs, i, n)
    ensures SameData(m, m', bs)
  {
    AllOrdered(bs);
    forall b, w: nat | b in Live(bs) && w < |m| && DataWord(b, w) ensures m'[w] == m[w] {
      var k :| 0 <= k < |bs| && bs[k] == b;
      assert k != i;
    }
  }

  lemma TakeMagic(m: seq<u32>, m': seq<u32>, bs: seq<Block>, i: nat, n: nat)
    requires i < |bs| && TakeWrites(m, m', bs, i, n) && MagicOnly(m, bs)
    ensures MagicOnly(m', Take(bs, i, n))
  {
    var r := Take(bs, i, n);
    var d := |r| - |bs|;
    forall w: nat | w < |m'| && m'[w] == HDR_MAGIC ensures HeaderWord(r, w) {
      if !InHeader(r[i], w) && !(d > 0 && InHeader(r[i + 1], w)) {
        var k :| 0 <= k < |bs| && 4 * bs[k].g == w;
        assert r[if k <= i then k else k + d].g == bs[k].g;
      } else {
        assert w == 4 * r[i].g || (d > 0 && w == 4 * r[i + 1].g);
      }
    }
  }

  /** kfree of a heap pointer: its header is the 16 bytes below, when those are granule-aligned. */
  function FreePtr(bs: seq<Block>, ptr: u32): (seq<Block>, FreeOutcome)
    requires ptr >= HEAP_BASE + HEADER
  {
    if ptr % 16 == 0 then Free(bs, HeaderOf(ptr)) else (bs, PanicBadMagic)
  }

  /** Granule of the header below a granule-aligned pointer. */
  function HeaderOf(ptr: u32): nat
    requires ptr >= HEAP_BASE + HEADER
  {
    (ptr - HEAP_BASE) / 16 - 1
  }

  lemma SplitRealisesTake(m: seq<u32>, m': seq<u32>, bs: seq<Block>, i: nat, n: nat)
    requires Inv(bs) && Headers(m, bs) && i < |bs| && Fits(bs[i], n) && n >= 1
    requires HeaderAt(m, bs, i) && SplitWrites(m, m', 4 * bs[i].g, Addr(bs[i].g), n)
    ensures Inv(Take(bs, i, n)) && Headers(m', Take(bs, i, n)) && SameData(m, m', bs)
    ensures MagicOnly(m, bs) ==> MagicOnly(m', Take(bs, i, n))
  {
    TakeInv(bs, i, n);
    TakeHeaders(m, m', bs, i, n);
    TakeData(m, m', bs, i, n);
    if MagicOnly(m, bs) { TakeMagic(m, m', bs, i, n); }
  }

  /** A pointer handed out for some block of the list. */
  predicate PointsAtBlock(bs: seq<Block>, ptr: u32)
    requires ptr >= HEAP_BASE + HEADER
  {
    ptr % 16 == 0 && Find(bs, HeaderOf(ptr)) < |bs|
  }

  lemma HeaderArithmetic(ptr: u32, g: nat)
    requires ptr >= HEAP_BASE + HEADER && ptr % 4 == 0
    ensures ptr % 16 == 0 && HeaderOf(ptr) == g <==> Idx(ptr - HEADER) == 4 * g
    ensures ptr % 16 == 0 && HeaderOf(ptr) == g <==> ptr == Addr(g + 1)
  {
    var d := ptr - HEAP_BASE;
    var q, r := d / 16, d % 16;
    assert d == 16 * q + r;
    assert ptr == 16 * (0xd10_0000 + q) + r;
    assert d - HEADER == 4 * ((d - HEADER) / 4);
  }

  lemma AddrArithmetic(ptr: u32, g: nat)
    requires ptr == Addr(g + 1)
    ensures ptr >= HEAP_BASE + HEADER && ptr % 16 == 0 && ptr % 4 == 0 && HeaderOf(ptr) == g
  {
    Multiple4(ptr, 4 * (0xd10_0000 + g + 1));
  }

  lemma Multiple4(x: nat, k: nat)
    requires x == 4 * k
    ensures x % 4 == 0
  {
  }

  /** Marking block i free changes one word of its header. */
  ghost predicate MarkWrites(m: seq<u32>, m': seq<u32>, bs: seq<Block>, i: nat)
    requires i < |bs|
  {
    && |m'| == |m|
    && HeaderAt(m', bs[i := bs[i].(free := true)], i)
    && forall w: nat :: w < |m| && w != 4 * bs[i].g + 2 ==> m'[w] == m[w]
  }

  lemma MarkHeaders(m: seq<u32>, m': seq<u32>, bs: seq<Block>, i: nat)
    requires Tiles(bs) && Headers(m, bs) && i < |bs| && MarkWrites(m, m', bs, i)
    ensures Headers(m', bs[i := bs[i].(free := true)])
  {
    var f := bs[i := bs[i].(free := true)];
    forall j | 0 <= j < |f| ensures HeaderAt(m', f, j) {
      assert HeaderAt(m, bs, j);
      if j < i { Ordered(bs, j, i); } else if i < j { Ordered(bs, i, j); }
    }
  }

  lemma MarkData(m: seq<u32>, m': seq<u32>, bs: seq<Block>, i: nat)
    requires Tiles(bs) && i < |bs| && MarkWrites(m, m', bs, i)
    ensures SameData(m, m', bs)
    ensures MagicOnly(m, bs) ==> MagicOnly(m', bs[i := bs[i].(free := true)])
  {
    var f := bs[i := bs[i].(free := true)];
    forall b, w: nat | b in Live(bs) && w < |m| && DataWord(b, w) ensures m'[w] == m[w] {
      var k :| 0 <= k < |bs| && bs[k] == b;
      if k < i { Ordered(bs, k, i); } else if i < k { Ordered(bs, i, k); }
    }
    if MagicOnly(m, bs) {
      forall w: nat | w < |m'| && m'[w] == HDR_MAGIC ensures HeaderWord(f, w) {
        assert m[w] == HDR_MAGIC;
        var k :| 0 <= k < |bs| && 4 * bs[k].g == w;
        assert f[k].g == bs[k].g;
      }
    }
  }

  /** What absorbing block i + 1 into block i leaves in memory; the absorbed header loses its magic. */
  ghost predicate MergeWrites(m: seq<u32>, m': seq<u32>, bs: seq<Block>, i: nat)
    requires i + 1 < |bs|
  {
    && |m'| == |m|
    && HeaderAt(m', MergeNext(bs, i), i)
    && 4 * bs[i + 1].g < |m|
    && m'[4 * bs[i + 1].g] == 0
    && forall w: nat :: w < |m| && !InHeader(bs[i], w) && w != 4 * bs[i + 1].g ==> m'[w] == m[w]
  }

  lemma MergeHeaderAt(m: seq<u32>, m': seq<u32>, bs: seq<Block>, i: nat, j: nat)
    requires Tiles(bs) && Headers(m, bs) && i + 1 < |bs| && bs[i + 1].free && MergeWrites(m, m', bs, i)
    requires j < |MergeNext(bs, i)|
    ensures HeaderAt(m', MergeNext(bs, i), j)
  {
    var r := MergeNext(bs, i);
    Ordered(bs, i, i + 1);
    if j < i {
      Ordered(bs, j, i);
      HeaderKept(m, m', bs, j, r, j);
    } else if j > i {
      Ordered(bs, i + 1, j + 1);
      HeaderKept(m, m', bs, j + 1, r, j);
    }
  }

  lemma MergeHeaders(m: seq<u32>, m': seq<u32>, bs: seq<Block>, i: nat)
    requires Tiles(bs) && Headers(m, bs) && i + 1 < |bs| && bs[i + 1].free && MergeWrites(m, m', bs, i)
    ensures Headers(m', MergeNext(bs, i))
  {
    forall j: nat | j < |MergeNext(bs, i)| ensures HeaderAt(m', MergeNext(bs, i), j) {
      MergeHeaderAt(m, m', bs, i, j);
    }
  }

  lemma MergeData(m: seq<u32>, m': seq<u32>, bs: seq<Block>, i: nat)
    requires Tiles(bs) && i + 1 < |bs| && MergeWrites(m, m', bs, i)
    ensures SameData(m, m', bs)
  {
    AllOrdered(bs);
    forall b, w: nat | b in Live(bs) && w < |m| && DataWord(b, w) ensures m'[w] == m[w] {
      var k :| 0 <= k < |bs| && bs[k] == b;
      assert k < i ==> bs[k].End() <= bs[i].g;
      assert k == i || k == i + 1 || k < i || bs[i + 1].End() <= bs[k].g;
    }
  }

  lemma MergeMagic(m: seq<u32>, m': seq<u32>, bs: seq<Block>, i: nat)
    requires i + 1 < |bs| && bs[i + 1].free && MergeWrites(m, m', bs, i) && MagicOnly(m, bs)
    ensures MagicOnly(m', MergeNext(bs, i))
  {
    var r := MergeNext(bs, i);
    forall w: nat | w < |m'| && m'[w] == HDR_MAGIC ensures HeaderWord(r, w) {
      if InHeader(bs[i], w) {
        assert w == 4 * r[i].g;
      } else {
        var k :| 0 <= k < |bs| && 4 * bs[k].g == w;
        assert r[if k <= i then k else k - 1].g == bs[k].g;
      }
    }
  }

  /** The header at word w takes over size and successor of the header at word a, which loses its magic. */
  function Absorbed(m: seq<u32>, w: nat, a: nat): (r: seq<u32>)
    requires w + 3 < a && a + 3 < |m| && m[w + 1] + 16 + m[a + 1] < U32
    ensures |r| == |m|
  {
    m[w + 1 := m[w + 1] + 16 + m[a + 1]][w + 3 := m[a + 3]][a := 0]
  }

  /** The stores of one absorption, as a whole. */
  lemma AbsorbIsMerge(m: seq<u32>, bs: seq<Block>, i: nat)
    requires Tiles(bs) && Headers(m, bs) && i + 1 < |bs| && bs[i + 1].free
    ensures var w, a := 4 * bs[i].g, 4 * bs[i + 1].g;
            && w + 3 < a && a + 3 < |m| && m[w + 1] + 16 + m[a + 1] < U32
            && MergeWrites(m, Absorbed(m, w, a), bs, i)
  {
    assert HeaderAt(m, bs, i) && HeaderAt(m, bs, i + 1);
    EndBound(bs, i + 1);
    AbsorbedIsMerge(m, Absorbed(m, 4 * bs[i].g, 4 * bs[i + 1].g), bs, i);
  }

  lemma AbsorbedIsMerge(m: seq<u32>, m': seq<u32>, bs: seq<Block>, i: nat)
    requires i + 1 < |bs| && HeaderAt(m, bs, i) && HeaderAt(m, bs, i + 1) && bs[i + 1].free
             && bs[i + 1].g == bs[i].End()
    requires var w, a := 4 * bs[i].g, 4 * bs[i + 1].g;
             && |m'| == |m| && w + 3 < a && m'[w] == m[w] && m'[w + 2] == m[w + 2]
             && m'[w + 1] as int == m[w + 1] as int + 16 + m[a + 1] as int
             && m'[w + 3] == m[a + 3] && m'[a] == 0
             && forall k: nat :: k < |m| && k != w + 1 && k != w + 3 && k != a ==> m'[k] == m[k]
    ensures MergeWrites(m, m', bs, i)
  {
    assert i + 2 < |bs| ==> MergeNext(bs, i)[i + 1] == bs[i + 2];
  }

  /** A word-aligned pointer with a header's worth of heap below. */
  predicate IntoHeap(ptr: u32) { HEAP_BASE + HEADER <= ptr <= HEAP_BASE + HEAP_SIZE && ptr % 4 == 0 }

  /** The magic test of kfree, decided: it passes exactly at the header of a block. */
  lemma MagicTest(m: seq<u32>, bs: seq<Block>, ptr: u32)
    requires Headers(m, bs)
    requires IntoHeap(ptr) && (MagicOnly(m, bs) || PointsAtBlock(bs, ptr))
    ensures m[Idx(ptr - HEADER)] == HDR_MAGIC <==> PointsAtBlock(bs, ptr)
  {
    var w := Idx(ptr - HEADER);
    if PointsAtBlock(bs, ptr) {
      HeaderArithmetic(ptr, HeaderOf(ptr));
      assert HeaderAt(m, bs, Find(bs, HeaderOf(ptr)));
    } else if m[w] == HDR_MAGIC {
      var k :| 0 <= k < |bs| && 4 * bs[k].g == w;
      HeaderArithmetic(ptr, bs[k].g);
    }
  }

  /** kfree's two tests of the words in front of ptr. */
  predicate Passes(m: seq<u32>, ptr: u32)
    requires |m| == HEAP_WORDS && IntoHeap(ptr)
  {
    var w := Idx(ptr - HEADER);
    m[w] == HDR_MAGIC && m[w + 2] == 0
  }

  /** What they decide: which of the three outcomes the block list has for ptr. */
  lemma PassesExactly(m: seq<u32>, bs: seq<Block>, ptr: u32)
    requires Headers(m, bs) && IntoHeap(ptr) && (MagicOnly(m, bs) || PointsAtBlock(bs, ptr))
    ensures var w, o := Idx(ptr - HEADER), FreePtr(bs, ptr).1;
            && (Passes(m, ptr) <==> o == Returned) && (m[w] != HDR_MAGIC <==> o == PanicBadMagic)
    ensures FreePtr(bs, ptr).1 != Returned ==> FreePtr(bs, ptr).0 == bs
    ensures FreePtr(bs, ptr).1 == Returned ==>
              var i := Find(bs, HeaderOf(ptr));
              i < |bs| && !bs[i].free && ptr - HEADER == Addr(bs[i].g) && FreePtr(bs, ptr).0 == Release(bs, i)
  {
    hide Release;
    MagicTest(m, bs, ptr);
    if PointsAtBlock(bs, ptr) {
      HeaderArithmetic(ptr, HeaderOf(ptr));
      assert HeaderAt(m, bs, Find(bs, HeaderOf(ptr)));
    }
  }

  /** What looks like the header of an allocated block is the header of a block. */
  ghost predicate NoFakeHeader(m: seq<u32>, bs: seq<Block>) {
    forall w: nat :: w + 4 <= |m| && m[w] == HDR_MAGIC && m[w + 2] == 0 ==> HeaderWord(bs, w)
  }

  /** At one pointer the tests tell whether it is a live allocation's, unless they pass where no block is. */
  lemma PassesAt(m: seq<u32>, bs: seq<Block>, ptr: u32)
    requires Inv(bs) && Headers(m, bs) && IntoHeap(ptr)
    requires Passes(m, ptr) ==> HeaderWord(bs, Idx(ptr - HEADER))
    ensures Passes(m, ptr) <==> ptr % 16 == 0 && IsLive(bs, HeaderOf(ptr))
  {
    var w := Idx(ptr - HEADER);
    if Passes(m, ptr) {
      var k :| 0 <= k < |bs| && 4 * bs[k].g == w;
      HeaderArithmetic(ptr, bs[k].g);
      assert HeaderAt(m, bs, k) && bs[k] in Live(bs);
    }
    if ptr % 16 == 0 && IsLive(bs, HeaderOf(ptr)) {
      var b :| b in Live(bs) && b.g == HeaderOf(ptr);
      var k :| 0 <= k < |bs| && bs[k] == b;
      HeaderArithmetic(ptr, b.g);
      assert HeaderAt(m, bs, k);
    }
  }

  /** They do so for every pointer exactly when the heap holds nothing that looks like an allocated block and is
      none. */
  lemma PassesLive(m: seq<u32>, bs: seq<Block>)
    requires Inv(bs) && Headers(m, bs)
    ensures NoFakeHeader(m, bs) <==>
            forall ptr: u32 :: IntoHeap(ptr) ==> (Passes(m, ptr) <==> ptr % 16 == 0 && IsLive(bs, HeaderOf(ptr)))
  {
    if NoFakeHeader(m, bs) {
      forall ptr: u32 | IntoHeap(ptr) ensures Passes(m, ptr) <==> ptr % 16 == 0 && IsLive(bs, HeaderOf(ptr)) {
        PassesAt(m, bs, ptr);
      }
    }
    if w: nat :| w + 4 <= |m| && m[w] == HDR_MAGIC && m[w + 2] == 0 && !HeaderWord(bs, w) {
      var ptr: u32 := HEAP_BASE + HEADER + 4 * w;
      WordPointer(ptr, w);
      assert Passes(m, ptr);
      if ptr % 16 == 0 && IsLive(bs, HeaderOf(ptr)) {
        var b :| b in Live(bs) && b.g == HeaderOf(ptr);
        HeaderArithmetic(ptr, b.g);
      }
    }
  }

  lemma WordPointer(ptr: u32, w: nat)
    requires ptr == HEAP_BASE + HEADER + 4 * w && w + 4 <= HEAP_WORDS
    ensures IntoHeap(ptr) && Idx(ptr - HEADER) == w
  {
    Multiple4(ptr, 0x3440_0000 + 4 + w);
  }

  /** A heap just set up over pages that still hold an old header, of a block that was allocated, at granule 64. */
  function StaleWindow(): (m: seq<u32>)
    ensures |m| == HEAP_WORDS
  {
    seq(HEAP_WORDS, _ => 0)[0 := HDR_MAGIC][1 := HEAP_SIZE - HEADER][2 := 1][256 := HDR_MAGIC][257 := 16]
  }

  /** There kfree takes a pointer that no kmalloc handed out. */
  lemma StaleMagicPasses()
    ensures var ptr: u32 := Addr(65);
            && Headers(StaleWindow(), Initial()) && Passes(StaleWindow(), ptr)
            && !IsLive(Initial(), 64) && FreePtr(Initial(), ptr).1 == PanicBadMagic
            && !MagicOnly(StaleWindow(), Initial()) && !NoFakeHeader(StaleWindow(), Initial())
  {
    var m := StaleWindow();
    assert HeaderAt(m, Initial(), 0);
    AddrArithmetic(Addr(65), 64);
    assert m[256] == HDR_MAGIC && m[256 + 2] == 0 && !HeaderWord(Initial(), 256);
  }

  /** What Unlink's three steps go through. */
  lemma ReleaseSteps(bs: seq<Block>, i: nat)
    requires Inv(bs) && i < |bs| && !bs[i].free
    ensures var f := bs[i := bs[i].(free := true)];
            && Tiles(f) && Tiles(MergeNext(f, i)) && Inv(Release(bs, i))
            && Live(Release(bs, i)) <= Live(bs) && Live(Release(bs, i)) <= Live(f) == Live(MergeNext(f, i))
  {
    var f := bs[i := bs[i].(free := true)];
    MergeNextTiles(f, i);
    ReleaseInv(bs, i);
    ReleaseLive(bs, i);
    MergeNextLive(f, i);
    forall x | x in Live(bs) - {bs[i]} ensures x in Live(f) {
      var k :| 0 <= k < |bs| && bs[k] == x;
      assert f[k] == x;
    }
  }

  lemma SameSelf(m: seq<u32>, bs: seq<Block>)
    ensures SameData(m, m, bs)
  {
  }

  class KHeap {
    const mem: Memory
    var heapHead: nat
    ghost var blocks: seq<Block>

    /** The words of the heap window, read through the page tables. */
    ghost function Words(): (s: seq<u32>)
      reads mem
      ensures |s| == HEAP_WORDS
    {
      Window(mem.words)
    }

    ghost predicate Valid()
      reads this, mem, mem.vm, mem.vm.pm, mem.vm.pm.pmm, mem.vm.pm.pmm.ram
    {
      && mem.Valid() && heapHead == HEAP_BASE && Inv(blocks) && Headers(Words(), blocks)
    }

    ghost predicate MagicExact()
      reads this, mem
    {
      MagicOnly(Words(), blocks)
    }

    /** Word w of the heap window. */
    function At(w: nat): (x: u32)
      requires mem.Valid() && w < HEAP_WORDS
      reads this, mem, mem.vm, mem.vm.pm, mem.vm.pm.pmm, mem.vm.pm.pmm.ram
      ensures x == Words()[w]
    {
      HeapHas(mem, w);
      mem.Load(HEAP_WORD + w)
    }

    method Put(w: nat, x: u32)
      requires mem.Valid() && w < HEAP_WORDS
      modifies mem`words, mem.vm.pm.pmm.ram
      ensures mem.Valid() && Beyond(mem) == old(Beyond(mem))
      ensures Words() == old(Words())[w := x]
    {
      HeapHas(mem, w);
      mem.Store(HEAP_WORD + w, x);
    }

    /** kheap_init once the window is mapped, whatever its pages hold: no stale magic word is left exactly when there
        was none past the first header. */
    constructor (mem: Memory)
      requires mem.Valid()
      modifies mem`words, mem.vm.pm.pmm.ram
      ensures Valid() && this.mem == mem && blocks == Initial()
      ensures Beyond(mem) == old(Beyond(mem))
      ensures MagicExact() <==> forall w :: 4 <= w < HEAP_WORDS ==> Window(old(mem.words))[w] != HDR_MAGIC
    {
      hide Memory.Valid, Beyond, Window;
      this.mem := mem;
      heapHead := HEAP_BASE;
      blocks := Initial();
      new;
      FreeHeader(0, HEAP_SIZE - HEADER, 0);
      assert 4 * blocks[0].g == 0;
      FirstHeader(Window(old(mem.words)), Words());
    }

    method KMalloc(size: u32) returns (ptr: u32)
      requires Valid()
      modifies this`blocks, mem`words, mem.vm.pm.pmm.ram
      ensures mem.Valid() && Beyond(mem) == old(Beyond(mem))
      ensures Valid()
      ensures var (after, p) := Malloc(old(blocks), size);
              && blocks == after
              && ptr == (if p.Some? then Addr(p.value + 1) else 0)
      ensures SameData(old(Words()), Words(), old(blocks))
      ensures old(MagicExact()) ==> MagicExact()
    {
      hide Memory.Valid, Beyond, Window, FirstFit, Take, Headers, Tiles;
      if size == 0 {
        return 0;
      }
      if size > HEAP_SIZE - HEADER {
        return 0;
      }
      var need := (size + 15) / 16 * 16;
      ghost var n := Rounded(size);
      var b, i := FindFit(need, n);
      if b != 0 {
        EndBound(blocks, i);
        Place(b, need, i, n);
        return b + HEADER;
      }
      return 0;
    }

    /** The loop of kmalloc: the first block that is free and large enough. */
    method FindFit(need: nat, ghost n: nat) returns (b: nat, ghost i: nat)
      requires Valid() && need == 16 * n
      ensures i == FirstFit(blocks, n) && b == if i < |blocks| then Addr(blocks[i].g) else 0
    {
      hide Memory.Valid, Beyond, Window, FirstFit, Headers, Words, Inv, Fits;
      NeverEmpty();
      b, i := heapHead, 0;
      while b != 0
        invariant 0 <= i <= |blocks| && b == if i < |blocks| then Addr(blocks[i].g) else 0
        invariant forall k :: 0 <= k < i ==> !Fits(blocks[k], n)
        decreases |blocks| - i
      {
        var w := Idx(b);
        SearchStep(Words(), blocks, i, n);
        if At(w + 2) == 0 || At(w + 1) < need {
          b := At(w + 3);
          i := i + 1;
        } else {
          FitFound(blocks, n, i);
          return;
        }
      }
      FitFound(blocks, n, i);
    }

    lemma NeverEmpty()
      requires Valid()
      ensures blocks != [] && blocks[0].g == 0 && heapHead == Addr(0)
    {
    }

    /** Take block i, as kmalloc does once it has found it, and record it. */
    method Place(b: nat, need: nat, ghost i: nat, ghost n: nat)
      requires Valid() && i < |blocks| && Fits(blocks[i], n) && n >= 1
      requires b == Addr(blocks[i].g) && need == 16 * n
      modifies this`blocks, mem`words, mem.vm.pm.pmm.ram
      ensures mem.Valid() && Beyond(mem) == old(Beyond(mem))
      ensures Valid() && blocks == Take(old(blocks), i, n)
      ensures SameData(old(Words()), Words(), old(blocks))
      ensures old(MagicExact()) ==> MagicExact()
    {
      hide Memory.Valid, Beyond, Window, Take, SplitWrites, Idx, Addr;
      ghost var m, bs := Words(), blocks;
      IdxOf(bs[i].g);
      EndBound(bs, i);
      assert HeaderAt(m, bs, i);
      Split(Idx(b), b, need, n);
      SplitRealisesTake(m, Words(), bs, i, n);
      blocks := Take(bs, i, n);
    }

    /** The stores of kmalloc on the block it takes: header words from w, at address b. */
    method Split(w: nat, b: nat, need: nat, ghost n: nat)
      requires mem.Valid()
      requires b == HEAP_BASE + 4 * w && need == 16 * n
      requires w + 3 < HEAP_WORDS && 4 * (w + 4) + Words()[w + 1] <= 4 * HEAP_WORDS
      modifies mem`words, mem.vm.pm.pmm.ram
      ensures mem.Valid() && Beyond(mem) == old(Beyond(mem))
      ensures SplitWrites(old(Words()), Words(), w, b, n)
    {
      hide Memory.Valid, Beyond, Window, Words, SplitWrites;
      var size, next := At(w + 1), At(w + 3);
      SplitStores(Words(), w, b, n);
      if size >= need + HEADER + 16 {
        var nb := b + HEADER + need;
        var v := Idx(nb);
        assert v == w + 4 + 4 * n;
        FreeHeader(v, size - need - HEADER, next);
        Put(w + 1, need);
        Put(w + 3, nb);
      }
      Put(w + 2, 0);
    }

    /** The header of a free block. */
    method FreeHeader(v: nat, size: u32, next: u32)
      requires mem.Valid() && v + 3 < HEAP_WORDS
      modifies mem`words, mem.vm.pm.pmm.ram
      ensures mem.Valid() && Beyond(mem) == old(Beyond(mem))
      ensures Words() == old(Words())[v := HDR_MAGIC][v + 1 := size][v + 2 := 1][v + 3 := next]
    {
      hide Memory.Valid, Beyond, Window, Words;
      Put(v, HDR_MAGIC);
      Put(v + 1, size);
      Put(v + 2, 1);
      Put(v + 3, next);
    }

    /** Pointers that kfree can be handed: NULL, or into the heap, and then not one where the tests pass although no
        block is there. */
    ghost predicate Freeable(ptr: u32)
      reads this, mem
    {
      ptr == 0 || (IntoHeap(ptr) && (Passes(Words(), ptr) ==> PointsAtBlock(blocks, ptr)))
    }

    /** With the magic word on headers only, every heap pointer is such. */
    lemma ExactFreeable(ptr: u32)
      requires Valid() && MagicExact() && (ptr == 0 || IntoHeap(ptr))
      ensures Freeable(ptr)
    {
      if ptr != 0 { MagicTest(Words(), blocks, ptr); }
    }

    /** kfree: where no block is it panics, as the words there say. */
    method KFree(ptr: u32) returns (o: FreeOutcome)
      requires Valid() && Freeable(ptr)
      modifies this`blocks, mem`words, mem.vm.pm.pmm.ram
      ensures mem.Valid() && Beyond(mem) == old(Beyond(mem))
      ensures Valid()
      ensures ptr == 0 ==> o == Returned && blocks == old(blocks)
      ensures ptr != 0 && (PointsAtBlock(old(blocks), ptr) || old(MagicExact())) ==>
              (blocks, o) == FreePtr(old(blocks), ptr)
      ensures ptr != 0 && !PointsAtBlock(old(blocks), ptr) ==>
        && blocks == old(blocks)
        && o == if old(Words())[Idx(ptr - HEADER)] == HDR_MAGIC then PanicDoubleFree else PanicBadMagic
      ensures o != Returned ==> Words() == old(Words())
      ensures SameData(old(Words()), Words(), blocks)
      ensures old(MagicExact()) ==> MagicExact()
    {
      hide Memory.Valid, Beyond, Window, Free, Release, MagicOnly, PointsAtBlock;
      if ptr == 0 {
        return Returned;
      }
      var b := ptr - HEADER;
      var w := Idx(b);
      if MagicExact() || PointsAtBlock(blocks, ptr) { PassesExactly(Words(), blocks, ptr); }
      if At(w) != HDR_MAGIC {
        return PanicBadMagic;
      }
      if At(w + 2) != 0 {
        return PanicDoubleFree;
      }
      Unlink(b, Find(blocks, HeaderOf(ptr)));
      return Returned;
    }

    /** kfree once the block is known to be allocated: mark, absorb the next, be absorbed by the previous. */
    method Unlink(b: nat, ghost i: nat)
      requires Valid() && i < |blocks| && b == Addr(blocks[i].g) && !blocks[i].free
      modifies this`blocks, mem`words, mem.vm.pm.pmm.ram
      ensures mem.Valid() && Beyond(mem) == old(Beyond(mem))
      ensures Valid() && blocks == Release(old(blocks), i)
      ensures SameData(old(Words()), Words(), blocks)
      ensures old(MagicExact()) ==> MagicExact()
    {
      hide Memory.Valid, Beyond, Window;
      ghost var bs, m := blocks, Words();
      ReleaseSteps(bs, i);
      ghost var f := bs[i := bs[i].(free := true)];
      Mark(b, bs, i);
      ghost var m1 := Words();
      AbsorbNext(b, f, i);
      ghost var m2 := Words();
      AbsorbInPrevious(b, MergeNext(f, i), i);
      blocks := Release(bs, i);
    }

    /** The block is marked free. */
    method Mark(b: nat, ghost bs: seq<Block>, ghost i: nat)
      requires mem.Valid()
      requires Tiles(bs) && Headers(Words(), bs) && i < |bs| && b == Addr(bs[i].g)
      modifies mem`words, mem.vm.pm.pmm.ram
      ensures mem.Valid() && Beyond(mem) == old(Beyond(mem))
      ensures var f := bs[i := bs[i].(free := true)];
              Headers(Words(), f) && (MagicOnly(old(Words()), bs) ==> MagicOnly(Words(), f))
      ensures SameData(old(Words()), Words(), bs)
    {
      hide Memory.Valid, Beyond, Window;
      assert HeaderAt(Words(), bs, i);
      Put(Idx(b) + 2, 1);
      MarkHeaders(old(Words()), Words(), bs, i);
      MarkData(old(Words()), Words(), bs, i);
    }

    /** Nothing is merged where the next block is not free. */
    static lemma MergeOrNot(bs: seq<Block>, i: nat)
      requires i < |bs| && bs[i].free
      ensures !(i + 1 < |bs| && bs[i + 1].free) ==> MergeNext(bs, i) == bs
    {
    }

    /** The block at b takes in the next one, when there is one and it is free. */
    method AbsorbNext(b: nat, ghost bs: seq<Block>, ghost i: nat)
      requires mem.Valid()
      requires i < |bs| && Tiles(bs) && Headers(Words(), bs) && b == Addr(bs[i].g) && bs[i].free
      modifies mem`words, mem.vm.pm.pmm.ram
      ensures mem.Valid() && Beyond(mem) == old(Beyond(mem))
      ensures Headers(Words(), MergeNext(bs, i))
      ensures SameData(old(Words()), Words(), bs)
      ensures MagicOnly(old(Words()), bs) ==> MagicOnly(Words(), MergeNext(bs, i))
    {
      hide Memory.Valid, Beyond, Window, Headers, SameData, MagicOnly, Tiles, MergeNext;
      HeaderReads(Words(), bs, i);
      if i + 1 < |bs| { HeaderReads(Words(), bs, i + 1); }
      MergeOrNot(bs, i);
      SameSelf(Words(), bs);
      var next := At(Idx(b) + 3);
      if next != 0 && At(Idx(next) + 2) != 0 {
        Absorb(Idx(b), Idx(next), bs, i);
      }
    }

    /** The block found before the one at b takes it in, when there is one and it is free. */
    method AbsorbInPrevious(b: nat, ghost bs: seq<Block>, ghost i: nat)
      requires mem.Valid()
      requires heapHead == HEAP_BASE
      requires i < |bs| && Tiles(bs) && Headers(Words(), bs) && b == Addr(bs[i].g) && bs[i].free
      modifies mem`words, mem.vm.pm.pmm.ram
      ensures mem.Valid() && Beyond(mem) == old(Beyond(mem))
      ensures var r := if i > 0 && bs[i - 1].free then MergeNext(bs, i - 1) else bs;
              && Headers(Words(), r)
              && (MagicOnly(old(Words()), bs) ==> MagicOnly(Words(), r))
      ensures SameData(old(Words()), Words(), bs)
    {
      hide Memory.Valid, Beyond, Window, Headers, SameData, MagicOnly, Tiles, MergeNext;
      var prev := Previous(b, bs, i);
      if i > 0 { HeaderReads(Words(), bs, i - 1); }
      SameSelf(Words(), bs);
      if prev != 0 && At(Idx(prev) + 2) != 0 {
        Absorb(Idx(prev), Idx(b), bs, i - 1);
      }
    }

    /** Header at word w absorbs the header at word a. */
    method Absorb(w: nat, a: nat, ghost bs: seq<Block>, ghost i: nat)
      requires mem.Valid()
      requires Tiles(bs) && Headers(Words(), bs) && i + 1 < |bs| && bs[i].free && bs[i + 1].free
      requires w == 4 * bs[i].g && a == 4 * bs[i + 1].g
      modifies mem`words, mem.vm.pm.pmm.ram
      ensures mem.Valid() && Beyond(mem) == old(Beyond(mem))
      ensures Headers(Words(), MergeNext(bs, i))
      ensures SameData(old(Words()), Words(), bs)
      ensures MagicOnly(old(Words()), bs) ==> MagicOnly(Words(), MergeNext(bs, i))
    {
      hide Memory.Valid, Beyond, Window;
      ghost var m := Words();
      AbsorbIsMerge(m, bs, i);
      Stores(w, a);
      MergeHeaders(m, Words(), bs, i);
      MergeData(m, Words(), bs, i);
      if MagicOnly(m, bs) { MergeMagic(m, Words(), bs, i); }
    }

    method Stores(w: nat, a: nat)
      requires mem.Valid()
      requires w + 3 < a && a + 3 < HEAP_WORDS && Words()[w + 1] + 16 + Words()[a + 1] < U32
      modifies mem`words, mem.vm.pm.pmm.ram
      ensures mem.Valid() && Beyond(mem) == old(Beyond(mem))
      ensures Words() == Absorbed(old(Words()), w, a)
    {
      hide Memory.Valid, Beyond, Window, Words;
      var next := At(a + 3);
      Put(w + 1, At(w + 1) + HEADER + At(a + 1));
      Put(w + 3, next);
      Put(a, 0);
    }

    /** Walk from the head to the block that points at b; 0 when b is the head. */
    method Previous(b: nat, ghost bs: seq<Block>, ghost i: nat) returns (prev: nat)
      requires mem.Valid()
      requires heapHead == HEAP_BASE && i < |bs| && Tiles(bs) && Headers(Words(), bs) && b == Addr(bs[i].g)
      ensures prev == if i == 0 then 0 else Addr(bs[i - 1].g)
    {
      hide Memory.Valid, Beyond, Window, Headers, Words;
      prev := 0;
      var p := heapHead;
      ghost var k := 0;
      while p != 0 && p != b
        invariant 0 <= k <= i
        invariant p == Addr(bs[k].g)
        invariant prev == if k == 0 then 0 else Addr(bs[k - 1].g)
        decreases i - k
      {
        HeaderReads(Words(), bs, k);
        if k < i { Ordered(bs, k, i); }
        prev := p;
        p := At(Idx(p) + 3);
        k := k + 1;
      }
      if k < i { Ordered(bs, k, i); }
    }

    /** A client's store into an allocation it holds. */
    method Store(w: nat, v: u32, ghost b: Block)
      requires Valid() && b in Live(blocks) && DataWord(b, w)
      modifies mem`words, mem.vm.pm.pmm.ram
      ensures mem.Valid() && Beyond(mem) == old(Beyond(mem))
      ensures Valid() && w < HEAP_WORDS && Words() == old(Words())[w := v]
      ensures v != HDR_MAGIC && old(MagicExact()) ==> MagicExact()
    {
      hide Memory.Valid, Beyond, Window;
      DataInHeap(Words(), blocks, b, w);
      StoreKeepsHeaders(Words(), blocks, b, w, v);
      Put(w, v);
    }
  }

  lemma DataInHeap(m: seq<u32>, bs: seq<Block>, b: Block, w: nat)
    requires Tiles(bs) && Headers(m, bs) && b in Live(bs) && DataWord(b, w)
    ensures w < |m|
  {
    var k :| 0 <= k < |bs| && bs[k] == b;
    EndBound(bs, k);
  }

  /** No header starts inside an allocation's data. */
  lemma DataNoHeader(bs: seq<Block>, b: Block, w: nat)
    requires Tiles(bs) && b in Live(bs) && DataWord(b, w)
    ensures !HeaderWord(bs, w) && w < HEAP_WORDS
  {
    var k :| 0 <= k < |bs| && bs[k] == b;
    EndBound(bs, k);
    forall j | 0 <= j < |bs| ensures 4 * bs[j].g != w {
      if j < k { Ordered(bs, j, k); } else if k < j { Ordered(bs, k, j); }
    }
  }

  /** A client's store leaves every header alone. */
  lemma StoreKeepsHeaders(m: seq<u32>, bs: seq<Block>, b: Block, w: nat, v: u32)
    requires Tiles(bs) && Headers(m, bs) && b in Live(bs) && DataWord(b, w) && w < |m|
    ensures Headers(m[w := v], bs)
    ensures v != HDR_MAGIC && MagicOnly(m, bs) ==> MagicOnly(m[w := v], bs)
  {
    var k :| 0 <= k < |bs| && bs[k] == b;
    var m' := m[w := v];
    forall j | 0 <= j < |bs| ensures HeaderAt(m', bs, j) {
      if j < k { Ordered(bs, j, k); } else if k < j { Ordered(bs, k, j); }
      HeaderKept(m, m', bs, j, bs, j);
    }
  }
}
