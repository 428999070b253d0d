/**
 The physical page allocator: a bitmap held in the RAM it manages, a free counter and
 a cyclic cursor, against the plain set of free pages.
 */
module PmmModule {
  import opened Words
  import opened Bits
  import opened Ram

  const ENOMEM: nat := 0xffff_ffff
  const ADDR_LIMIT: nat := 0x1000_0000_0000   // page numbers below this fit the 32-bit `unsigned long`

  function BitmapBytes(npages: nat): nat { (npages + 7) / 8 }

  /** bit_test */
  predicate BitAt(m: seq<u8>, bitmap: nat, p: nat)
    requires bitmap + p / 8 < |m|
  {
    Bit(m[bitmap + p / 8], p % 8)
  }

  /** Pages below npages whose bit is clear. */
  function FreePages(m: seq<u8>, bitmap: nat, npages: nat): set<nat>
    requires bitmap + BitmapBytes(npages) <= |m|
  {
    if npages == 0 then {} else
      FreePages(m, bitmap, npages - 1) + if BitAt(m, bitmap, npages - 1) then {} else {npages - 1}
  }

  lemma {:induction false} FreePageBit(m: seq<u8>, bitmap: nat, npages: nat, p: nat)
    requires bitmap + BitmapBytes(npages) <= |m|
    ensures p in FreePages(m, bitmap, npages) <==> p < npages && !BitAt(m, bitmap, p)
  {
    if npages > 0 {
      FreePageBit(m, bitmap, npages - 1, p);
    }
  }

  /** Number of clear bits below npages. */
  function CountFree(m: seq<u8>, bitmap: nat, npages: nat): nat
    requires bitmap + BitmapBytes(npages) <= |m|
  {
    if npages == 0 then 0 else
      CountFree(m, bitmap, npages - 1) + if BitAt(m, bitmap, npages - 1) then 0 else 1
  }

  lemma {:induction false} CountIsSize(m: seq<u8>, bitmap: nat, npages: nat)
    requires bitmap + BitmapBytes(npages) <= |m|
    ensures CountFree(m, bitmap, npages) == |FreePages(m, bitmap, npages)|
  {
    if npages > 0 {
      CountIsSize(m, bitmap, npages - 1);
      FreePageBit(m, bitmap, npages - 1, npages - 1);
    }
  }

  lemma {:induction false} BitmapAgrees(m: seq<u8>, m': seq<u8>, bitmap: nat, npages: nat)
    requires Agree(m, m', bitmap, bitmap + BitmapBytes(npages))
    ensures FreePages(m', bitmap, npages) == FreePages(m, bitmap, npages)
    ensures CountFree(m', bitmap, npages) == CountFree(m, bitmap, npages)
  {
    if npages > 0 {
      BitmapAgrees(m, m', bitmap, npages - 1);
    }
  }

  lemma FreePagesBelow(m: seq<u8>, bitmap: nat, npages: nat)
    requires bitmap + BitmapBytes(npages) <= |m|
    ensures FreePages(m, bitmap, npages) <= PagesIn(0, npages)
  {
    forall p | p in FreePages(m, bitmap, npages) ensures p in PagesIn(0, npages) {
      FreePageBit(m, bitmap, npages, p);
      PagesInMember(0, npages, p);
    }
  }

  /** Page p shares a byte with base .. base + len. */
  predicate Touches(p: nat, base: nat, len: nat) {
    len > 0 && p * PAGE_SIZE < base + len && base < (p + 1) * PAGE_SIZE
  }

  /** Page p lies wholly inside base .. base + len. */
  predicate Inside(p: nat, base: nat, len: nat) {
    base <= p * PAGE_SIZE && (p + 1) * PAGE_SIZE <= base + len
  }

  /** The page that byte a is in. */
  function PageOfByte(a: nat): nat { a / 4096 }

  lemma Bytes(p: nat, a: nat)
    ensures PageOfByte(a) == p <==> p * PAGE_SIZE <= a < (p + 1) * PAGE_SIZE
  {
  }

  /** A page touches a range exactly when one of the range's bytes is in it. */
  lemma TouchesExact(p: nat, base: nat, len: nat)
    ensures Touches(p, base, len) <==> exists a: nat :: PageOfByte(a) == p && base <= a < base + len
  {
    var a := if base < p * PAGE_SIZE then p * PAGE_SIZE else base;
    Bytes(p, a);
    if b: nat :| PageOfByte(b) == p && base <= b < base + len { Bytes(p, b); }
  }

  /** A page is inside a range exactly when all of its bytes are in the range. */
  lemma InsideExact(p: nat, base: nat, len: nat)
    ensures Inside(p, base, len) <==> forall a: nat :: PageOfByte(a) == p ==> base <= a < base + len
  {
    var first, last := p * PAGE_SIZE, (p + 1) * PAGE_SIZE - 1;
    Bytes(p, first);
    Bytes(p, last);
    forall a: nat | PageOfByte(a) == p && Inside(p, base, len) ensures base <= a < base + len { Bytes(p, a); }
  }

  /** The pages of s that touch no byte of the range. */
  ghost function Untouched(s: set<nat>, base: nat, len: nat): set<nat> { set p | p in s && !Touches(p, base, len) }

  /** The pages below npages that lie wholly inside the range. */
  ghost function Within(npages: nat, base: nat, len: nat): set<nat> { set p: nat | p < npages && Inside(p, base, len) }

  /** The page k steps after c in cyclic order. */
  function Cyclic(c: nat, k: nat, npages: nat): nat
    requires c < npages && k <= npages
  {
    if c + k < npages then c + k else c + k - npages
  }

  function WithBitSet(m: seq<u8>, bitmap: nat, p: nat): (r: seq<u8>)
    requires bitmap + p / 8 < |m|
    ensures |r| == |m|
  {
    ByteRange(m[bitmap + p / 8], p % 8);
    m[bitmap + p / 8 := SetBit(m[bitmap + p / 8], p % 8)]
  }

  function WithBitClear(m: seq<u8>, bitmap: nat, p: nat): (r: seq<u8>)
    requires bitmap + p / 8 < |m|
    ensures |r| == |m|
  {
    ByteRange(m[bitmap + p / 8], p % 8);
    m[bitmap + p / 8 := ClearBit(m[bitmap + p / 8], p % 8)]
  }

  lemma ByteRange(b: u8, k: nat)
    requires k < 8
    ensures SetBit(b, k) < 256 && ClearBit(b, k) < 256
  {
    assert Pow2(8) == 256;
    Range(b, k, 8);
  }

  /** Setting or clearing bit p leaves every other bit of the bitmap alone. */
  lemma OneBit(m: seq<u8>, bitmap: nat, p: nat, q: nat)
    requires bitmap + p / 8 < |m| && bitmap + q / 8 < |m|
    ensures BitAt(WithBitSet(m, bitmap, p), bitmap, q) == (q == p || BitAt(m, bitmap, q))
    ensures BitAt(WithBitClear(m, bitmap, p), bitmap, q) == (q != p && BitAt(m, bitmap, q))
  {
    SetOne(m[bitmap + p / 8], p % 8, q % 8);
    ClearOne(m[bitmap + p / 8], p % 8, q % 8);
  }

  lemma OneBitFree(m: seq<u8>, bitmap: nat, npages: nat, p: nat)
    requires bitmap + BitmapBytes(npages) <= |m| && p < npages
    ensures FreePages(WithBitSet(m, bitmap, p), bitmap, npages) == FreePages(m, bitmap, npages) - {p}
    ensures FreePages(WithBitClear(m, bitmap, p), bitmap, npages) == FreePages(m, bitmap, npages) + {p}
  {
    var s, c := WithBitSet(m, bitmap, p), WithBitClear(m, bitmap, p);
    forall q: nat
      ensures q in FreePages(s, bitmap, npages) <==> q in FreePages(m, bitmap, npages) && q != p
      ensures q in FreePages(c, bitmap, npages) <==> q in FreePages(m, bitmap, npages) || q == p
    {
      FreePageBit(m, bitmap, npages, q);
      FreePageBit(s, bitmap, npages, q);
      FreePageBit(c, bitmap, npages, q);
      if q < npages { OneBit(m, bitmap, p, q); }
    }
  }

  lemma OneBitCount(m: seq<u8>, bitmap: nat, npages: nat, p: nat)
    requires bitmap + BitmapBytes(npages) <= |m| && p < npages
    ensures BitAt(m, bitmap, p) ==>
            CountFree(WithBitClear(m, bitmap, p), bitmap, npages) == CountFree(m, bitmap, npages) + 1
    ensures !BitAt(m, bitmap, p) ==>
            CountFree(WithBitSet(m, bitmap, p), bitmap, npages) == CountFree(m, bitmap, npages) - 1
  {
    OneBitFree(m, bitmap, npages, p);
    FreePageBit(m, bitmap, npages, p);
    CountIsSize(m, bitmap, npages);
    CountIsSize(WithBitSet(m, bitmap, p), bitmap, npages);
    CountIsSize(WithBitClear(m, bitmap, p), bitmap, npages);
  }

  /** None of the first k pages in cyclic order from c is free. */
  ghost predicate NoneBefore(free: set<nat>, c: nat, k: nat, npages: nat)
    requires c < npages && k <= npages
  {
    forall j: nat :: j < k ==> Cyclic(c, j, npages) !in free
  }

  lemma NoneFree(free: set<nat>, c: nat, npages: nat)
    requires free <= PagesIn(0, npages)
    requires npages > 0 ==> c < npages && NoneBefore(free, c, npages, npages)
    ensures free == {}
  {
    forall p: nat ensures p !in free {
      PagesInMember(0, npages, p);
      assert p < npages ==> Cyclic(c, if p >= c then p - c else p + npages - c, npages) == p;
    }
  }

  lemma CursorStep(c: nat, i: nat, npages: nat)
    requires c < npages && i < npages
    ensures var p := Cyclic(c, i, npages);
            p < npages && Cyclic(c, i + 1, npages) == if p + 1 < npages then p + 1 else 0
  {
  }

  /** The cursor just past page p. */
  function After(p: nat, npages: nat): nat { if p + 1 < npages then p + 1 else 0 }

  /** The first free page in cyclic order from c, k pages of which have been looked at. */
  function Scan(free: set<nat>, c: nat, k: nat, npages: nat): (p: nat)
    requires c < npages && k < npages
    ensures p < npages
    decreases npages - k
  {
    if k + 1 == npages || Cyclic(c, k, npages) in free then Cyclic(c, k, npages) else Scan(free, c, k + 1, npages)
  }

  /** The page pmm_alloc would hand out. */
  function NextFree(free: set<nat>, c: nat, npages: nat): (p: nat)
    requires c < npages
    ensures p < npages
  {
    Scan(free, c, 0, npages)
  }

  lemma {:induction false} ScanFinds(free: set<nat>, c: nat, k: nat, npages: nat, j: nat)
    requires c < npages && k <= j < npages && Cyclic(c, j, npages) in free
    requires forall i: nat :: k <= i < j ==> Cyclic(c, i, npages) !in free
    ensures Scan(free, c, k, npages) == Cyclic(c, j, npages)
    decreases j - k
  {
    if k < j { ScanFinds(free, c, k + 1, npages, j); }
  }

  /** It is free, and no page before it in cyclic order from the cursor is. */
  lemma NextFreeFirst(free: set<nat>, c: nat, npages: nat)
    requires c < npages && free != {} && free <= PagesIn(0, npages)
    ensures NextFree(free, c, npages) in free
    ensures exists k: nat ::
              k < npages && NextFree(free, c, npages) == Cyclic(c, k, npages) && NoneBefore(free, c, k, npages)
  {
    var k := FirstFrom(free, c, 0, npages);
    ScanFinds(free, c, 0, npages, k);
  }

  lemma {:induction false} FirstFrom(free: set<nat>, c: nat, i: nat, npages: nat) returns (k: nat)
    requires c < npages && free != {} && free <= PagesIn(0, npages) && i <= npages && NoneBefore(free, c, i, npages)
    ensures k < npages && Cyclic(c, k, npages) in free && NoneBefore(free, c, k, npages)
    decreases npages - i
  {
    assert i < npages by {
      if i == npages { NoneFree(free, c, npages); }
    }
    if Cyclic(c, i, npages) in free {
      k := i;
    } else {
      k := FirstFrom(free, c, i + 1, npages);
    }
  }

  function PagesIn(lo: nat, hi: nat): set<nat> {
    if hi <= lo then {} else PagesIn(lo, hi - 1) + {hi - 1}
  }

  lemma {:induction false} PagesInMember(lo: nat, hi: nat, p: nat)
    ensures p in PagesIn(lo, hi) <==> lo <= p < hi
  {
    if lo < hi {
      PagesInMember(lo, hi - 1, p);
    }
  }

  lemma PagesInStep(s: set<nat>, lo: nat, p: nat)
    requires lo <= p
    ensures s - PagesIn(lo, p + 1) == s - PagesIn(lo, p) - {p}
    ensures s + PagesIn(lo, p + 1) == s + PagesIn(lo, p) + {p}
  {
  }

  function Min(a: nat, b: nat): nat { if a < b then a else b }

  lemma TouchedPages(free: set<nat>, npages: nat, base: nat, len: nat)
    requires free <= PagesIn(0, npages) && len > 0
    ensures free - PagesIn(base / PAGE_SIZE, Min((base + len + PAGE_SIZE - 1) / PAGE_SIZE, npages))
         == Untouched(free, base, len)
  {
    var r := PagesIn(base / PAGE_SIZE, Min((base + len + PAGE_SIZE - 1) / PAGE_SIZE, npages));
    forall p: nat | p in free ensures p in r <==> Touches(p, base, len) {
      PagesInMember(0, npages, p);
      PagesInMember(base / PAGE_SIZE, Min((base + len + PAGE_SIZE - 1) / PAGE_SIZE, npages), p);
    }
  }

  lemma InsidePages(npages: nat, base: nat, len: nat)
    ensures PagesIn((base + PAGE_SIZE - 1) / PAGE_SIZE, Min((base + len) / PAGE_SIZE, npages))
         == Within(npages, base, len)
  {
    var r := PagesIn((base + PAGE_SIZE - 1) / PAGE_SIZE, Min((base + len) / PAGE_SIZE, npages));
    forall p: nat ensures p in r <==> p < npages && Inside(p, base, len) {
      PagesInMember((base + PAGE_SIZE - 1) / PAGE_SIZE, Min((base + len) / PAGE_SIZE, npages), p);
    }
  }

  /** The page number of a 64-bit address, as the 32-bit `unsigned long` holds it. */
  function Cut(a: nat): (p: nat)
    ensures p < U32
  {
    a / PAGE_SIZE % U32
  }

  /** The first page boundary at or above a, in 64 bits. */
  function RoundUp64(a: nat): nat { (a + PAGE_SIZE - 1) % U64 / PAGE_SIZE * PAGE_SIZE }

  function CutUp(a: nat): nat { Cut((a + PAGE_SIZE - 1) % U64) }

  lemma PageOf(p: nat)
    ensures p * PAGE_SIZE / PAGE_SIZE == p
  {
  }

  lemma CutSmall(a: nat)
    requires a < ADDR_LIMIT
    ensures Cut(a) == a / PAGE_SIZE && a % U64 == a
  {
  }

  /** Below 2^44 nothing is cut. */
  lemma CutExact(base: u64, len: u64)
    ensures Cut(RoundUp64(base)) == (base + PAGE_SIZE - 1) % U64 / PAGE_SIZE % U32
    ensures base + len + PAGE_SIZE < ADDR_LIMIT ==>
              && Cut(base) == base / PAGE_SIZE && CutUp(base + len) == (base + len + PAGE_SIZE - 1) / PAGE_SIZE
              && RoundUp64(base) == (base + PAGE_SIZE - 1) / PAGE_SIZE * PAGE_SIZE
              && Cut(RoundUp64(base)) == (base + PAGE_SIZE - 1) / PAGE_SIZE && (base + len) % U64 == base + len
              && Cut(base + len) == (base + len) / PAGE_SIZE
  {
    PageOf((base + PAGE_SIZE - 1) % U64 / PAGE_SIZE);
    if base + len + PAGE_SIZE < ADDR_LIMIT {
      CutSmall(base);
      CutSmall(base + len);
      CutSmall(base + PAGE_SIZE - 1);
      CutSmall(base + len + PAGE_SIZE - 1);
    }
  }

  lemma NothingInside(base: nat, len: nat, npages: nat)
    requires base + len < (base + PAGE_SIZE - 1) / PAGE_SIZE * PAGE_SIZE
    ensures PagesIn((base + PAGE_SIZE - 1) / PAGE_SIZE, Min((base + len) / PAGE_SIZE, npages)) == {}
  {
  }

  /** A page number survives the trip through its address, which is never ENOMEM. */
  lemma PageAddress(p: nat)
    requires p < PHYS_PAGES
    ensures p * PAGE_SIZE != ENOMEM && p * PAGE_SIZE % PAGE_SIZE == 0 && p * PAGE_SIZE / PAGE_SIZE == p
  {
  }

  class Pmm {
    const ram: array<u8>
    var bitmap: nat
    var npagesTotal: nat
    var npagesFree: nat
    var allocCursor: nat
    ghost var free: set<nat>    // the set of free pages the bitmap stands for

    ghost predicate Placed()
      reads this
    {
      ram.Length == PHYS_SIZE && npagesTotal <= PHYS_PAGES && bitmap + BitmapBytes(npagesTotal) <= PHYS_SIZE
    }

    ghost predicate Valid()
      reads this, ram
    {
      && Placed()
      && free == FreePages(ram[..], bitmap, npagesTotal)
      && npagesFree == CountFree(ram[..], bitmap, npagesTotal)
      && (if npagesTotal > 0 then allocCursor < npagesTotal else allocCursor == 0)
    }

    /** Only the bitmap's own bytes may have changed since memory was m. */
    ghost predicate OnlyBitmap(m: seq<u8>)
      reads this, ram
    {
      SameOutside(m, ram[..], bitmap, bitmap + BitmapBytes(npagesTotal))
    }

    lemma FreeCount()
      requires Valid()
      ensures npagesFree == |free| && forall p :: p in free ==> p < npagesTotal
    {
      CountIsSize(ram[..], bitmap, npagesTotal);
      forall p | p in free ensures p < npagesTotal { FreePageBit(ram[..], bitmap, npagesTotal, p); }
    }

    /** Writes elsewhere in RAM leave the allocator as it was. */
    lemma ValidElsewhere(m: seq<u8>)
      requires Placed() && |m| == ram.Length && Agree(m, ram[..], bitmap, bitmap + BitmapBytes(npagesTotal))
      requires free == FreePages(m, bitmap, npagesTotal) && npagesFree == CountFree(m, bitmap, npagesTotal)
      requires if npagesTotal > 0 then allocCursor < npagesTotal else allocCursor == 0
      ensures Valid()
    {
      BitmapAgrees(m, ram[..], bitmap, npagesTotal);
    }

    /** The page the next pmm_alloc hands out, when it hands one out. */
    ghost function Next(): nat
      reads this
    {
      if allocCursor < npagesTotal then NextFree(free, allocCursor, npagesTotal) else 0
    }

    predicate Taken(p: nat)
      reads this, ram
      requires Placed() && p < npagesTotal
    {
      BitAt(ram[..], bitmap, p)
    }

    /** pmm_init: everything starts taken; only the bitmap's bytes are written. */
    constructor (ram: array<u8>, bitmapAddr: nat, npages: nat)
      requires ram.Length == PHYS_SIZE && npages <= PHYS_PAGES && bitmapAddr + BitmapBytes(npages) <= PHYS_SIZE
      modifies ram
      ensures Valid() && this.ram == ram && bitmap == bitmapAddr && npagesTotal == npages
      ensures free == {} && allocCursor == 0
      ensures OnlyBitmap(old(ram[..]))
    {
      this.ram := ram;
      bitmap, npagesTotal, npagesFree, allocCursor := bitmapAddr, npages, 0, 0;
      free := {};
      new;
      Fill(ram, bitmapAddr, (npages + 7) / 8, 0xff);   // memset
      assert Pow2(8) == 256;
      forall p: nat ensures p !in FreePages(this.ram[..], bitmap, npages) {
        FreePageBit(this.ram[..], bitmap, npages, p);
        AllOnes(p % 8, 8);
      }
      assert FreePages(this.ram[..], bitmap, npages) == {};
      CountIsSize(this.ram[..], bitmap, npages);
    }

    /** The round of pmm_reserve's loop: a page that was free is taken and counted off. */
    method TakePage(p: nat)
      requires Valid() && p < npagesTotal
      modifies ram, this`npagesFree, this`free
      ensures Valid() && free == old(free) - {p} && OnlyBitmap(old(ram[..]))
      ensures npagesFree == old(npagesFree) - if p in old(free) then 1 else 0
    {
      FreePageBit(ram[..], bitmap, npagesTotal, p);
      if !Taken(p) {
        OneBitFree(ram[..], bitmap, npagesTotal, p);
        OneBitCount(ram[..], bitmap, npagesTotal, p);
        var a := bitmap + p / 8;
        ByteRange(ram[a], p % 8);
        ram[a] := SetBit(ram[a], p % 8);
        assert ram[..] == WithBitSet(old(ram[..]), bitmap, p);
        npagesFree := npagesFree - 1;
        free := free - {p};
      }
    }

    /** The round of pmm_free_region's loop: a page that was taken becomes free and is counted. */
    method GivePage(p: nat)
      requires Valid() && p < npagesTotal
      modifies ram, this`npagesFree, this`free
      ensures Valid() && free == old(free) + {p} && OnlyBitmap(old(ram[..]))
      ensures npagesFree == old(npagesFree) + if p in old(free) then 0 else 1
    {
      FreePageBit(ram[..], bitmap, npagesTotal, p);
      if Taken(p) {
        OneBitFree(ram[..], bitmap, npagesTotal, p);
        OneBitCount(ram[..], bitmap, npagesTotal, p);
        var a := bitmap + p / 8;
        ByteRange(ram[a], p % 8);
        ram[a] := ClearBit(ram[a], p % 8);
        assert ram[..] == WithBitClear(old(ram[..]), bitmap, p);
        npagesFree := npagesFree + 1;
        free := free + {p};
      }
    }

    /** The pages of the range rounded outwards stop being free, page numbers cut to 32 bits; for ranges below 2^44
        these are the pages it touches. */
    method Reserve(base: u64, len: u64)
      requires Valid()
      modifies ram, this`npagesFree, this`free
      ensures Valid() && OnlyBitmap(old(ram[..]))
      ensures free == old(free) - PagesIn(Cut(base), if len == 0 then 0 else Min(CutUp(base + len), npagesTotal))
      ensures base + len + PAGE_SIZE < ADDR_LIMIT ==> free == Untouched(old(free), base, len)
    {
      if len == 0 {
        assert PagesIn(Cut(base), 0) == {};
        return;
      }
      var start := base / PAGE_SIZE * PAGE_SIZE;
      var end := (base + len + PAGE_SIZE - 1) % U64 / PAGE_SIZE * PAGE_SIZE;
      var plast := end / PAGE_SIZE % U32;
      if plast > npagesTotal {
        plast := npagesTotal;
      }
      FreePagesBelow(ram[..], bitmap, npagesTotal);
      TouchedPages(free, npagesTotal, base, len);
      CutExact(base, len);
      PageOf(base / PAGE_SIZE);
      PageOf((base + len + PAGE_SIZE - 1) % U64 / PAGE_SIZE);
      TakePages(start / PAGE_SIZE % U32, plast);
    }

    /** The loop of pmm_reserve. */
    method TakePages(start: nat, plast: nat)
      requires Valid() && plast <= npagesTotal
      modifies ram, this`npagesFree, this`free
      ensures Valid() && OnlyBitmap(old(ram[..]))
      ensures free == old(free) - PagesIn(start, plast)
    {
      var p := start;
      while p < plast
        invariant p == start || start < p <= plast
        invariant Valid() && OnlyBitmap(old(ram[..]))
        invariant free == old(free) - PagesIn(start, p)
      {
        PagesInStep(old(free), start, p);
        TakePage(p);
        p := p + 1;
      }
    }

    /** The pages of the range rounded inwards become free, page numbers cut to 32 bits; for ranges below 2^44 these
        are the pages wholly inside it. */
    method FreeRegion(base: u64, len: u64)
      requires Valid()
      modifies ram, this`npagesFree, this`free
      ensures Valid() && OnlyBitmap(old(ram[..]))
      ensures free == old(free) + if len == 0 || (base + len) % U64 < RoundUp64(base) then {}
                                  else PagesIn(Cut(RoundUp64(base)), Min(Cut((base + len) % U64), npagesTotal))
      ensures base + len + PAGE_SIZE < ADDR_LIMIT ==> free == old(free) + Within(npagesTotal, base, len)
    {
      InsidePages(npagesTotal, base, len);
      if len == 0 {
        return;
      }
      var start := (base + PAGE_SIZE - 1) % U64 / PAGE_SIZE * PAGE_SIZE;
      CutExact(base, len);
      PageOf((base + PAGE_SIZE - 1) % U64 / PAGE_SIZE);
      if (base + len) % U64 < start {
        if base + len + PAGE_SIZE < ADDR_LIMIT { NothingInside(base, len, npagesTotal); }
        return;
      }
      var end := (base + len) % U64 / PAGE_SIZE * PAGE_SIZE;
      PageOf((base + len) % U64 / PAGE_SIZE);
      var plast := end / PAGE_SIZE % U32;
      if plast > npagesTotal {
        plast := npagesTotal;
      }
      GivePages(start / PAGE_SIZE % U32, plast);
    }

    /** The loop of pmm_free_region. */
    method GivePages(start: nat, plast: nat)
      requires Valid() && plast <= npagesTotal
      modifies ram, this`npagesFree, this`free
      ensures Valid() && OnlyBitmap(old(ram[..]))
      ensures free == old(free) + PagesIn(start, plast)
    {
      var p := start;
      while p < plast
        invariant p == start || start < p <= plast
        invariant Valid() && OnlyBitmap(old(ram[..]))
        invariant free == old(free) + PagesIn(start, p)
      {
        PagesInStep(old(free), start, p);
        GivePage(p);
        p := p + 1;
      }
    }

    /** The first free page in cyclic order from the cursor, or ENOMEM when none is free. */
    method Alloc() returns (paddr: nat)
      requires Valid()
      modifies ram, this`npagesFree, this`allocCursor, this`free
      ensures Valid() && OnlyBitmap(old(ram[..]))
      ensures paddr == ENOMEM <==> old(free) == {}
      ensures paddr == ENOMEM ==>
                free == {} && allocCursor == old(allocCursor) && npagesFree == 0 && ram[..] == old(ram[..])
      ensures paddr != ENOMEM ==>
                && npagesTotal > 0 && paddr % PAGE_SIZE == 0 && paddr < PHYS_SIZE
                && paddr / PAGE_SIZE == old(Next()) && old(Next()) in old(free)
                && free == old(free) - {old(Next())} && npagesFree == old(npagesFree) - 1
                && allocCursor == After(old(Next()), npagesTotal)
    {
      hide FreePages, CountFree;
      ghost var c := allocCursor;
      var i := 0;
      while i < npagesTotal
        invariant 0 <= i <= npagesTotal
        invariant Valid() && free == old(free) && npagesFree == old(npagesFree) && ram[..] == old(ram[..])
        invariant npagesTotal > 0 ==>
                    c < npagesTotal && allocCursor == Cyclic(c, i, npagesTotal) && NoneBefore(free, c, i, npagesTotal)
      {
        var p := allocCursor;
        allocCursor := if allocCursor + 1 < npagesTotal then allocCursor + 1 else 0;
        FreePageBit(ram[..], bitmap, npagesTotal, p);
        CursorStep(c, i, npagesTotal);
        if !Taken(p) {
          PageAddress(p);
          ScanFinds(free, c, 0, npagesTotal, i);
          TakePage(p);
          return p * PAGE_SIZE;
        }
        i := i + 1;
      }
      FreePagesBelow(ram[..], bitmap, npagesTotal);
      NoneFree(free, c, npagesTotal);
      FreeCount();
      return ENOMEM;
    }

    /** Gives one page back; a page beyond the total, or already free, changes nothing. */
    method FreePage(paddr: u32)
      requires Valid()
      modifies ram, this`npagesFree, this`free
      ensures Valid() && OnlyBitmap(old(ram[..]))
      ensures free == old(free) + (if paddr / PAGE_SIZE < npagesTotal then {paddr / PAGE_SIZE} else {})
      ensures var p := paddr / PAGE_SIZE;
              npagesFree == old(npagesFree) + if p < npagesTotal && p !in old(free) then 1 else 0
    {
      var p := paddr / PAGE_SIZE;
      if p >= npagesTotal {
        return;
      }
      GivePage(p);
    }
  }
}
