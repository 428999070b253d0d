/**
 Two-level page tables in RAM, read the way the processor reads them (Intel SDM
 volume 3A, section 4.3), and the one flat map they stand for.
 */
module PageTables {
  import opened Words
  import opened Ram

  const ENTRIES: nat := 1024
  const VPAGES: nat := 0x10_0000          // 4 KiB pages of a 32-bit address space

  /** Where a page goes and what may be done with it there. */
  datatype Mapping = Mapping(frame: nat, rw: bool, user: bool)

  predicate Present(e: nat) { e % 2 == 1 }
  predicate Writable(e: nat) { e / 2 % 2 == 1 }
  predicate UserBit(e: nat) { e / 4 % 2 == 1 }

  /** PTE_ADDR, as a frame number. */
  function FrameOf(e: nat): nat { e / PAGE_SIZE }

  /** Entry i of the table (or directory) at physical address t. */
  function Entry(m: seq<u8>, t: nat, i: nat): u32
    requires i < ENTRIES && t + PAGE_SIZE <= |m|
  {
    Word(m, t + 4 * i)
  }

  /** The table a present directory entry points at. */
  function TableAt(e: u32): nat { FrameOf(e) * PAGE_SIZE }

  /** The directory entry for a table in frame f: present, writable, user. */
  function PdeFor(f: nat): (e: u32)
    requires f < PHYS_PAGES
    ensures Present(e) && Writable(e) && UserBit(e) && FrameOf(e) == f && e % PAGE_SIZE == 7
  {
    var e := f * PAGE_SIZE + 7;
    LowBits(e, 512 * f);
    e
  }

  /** The processor's walk: directory, table, and the intersection of both levels' rights. */
  function Walk(m: seq<u8>, dir: nat, vp: nat): Option<Mapping>
    requires |m| == PHYS_SIZE && dir + PAGE_SIZE <= |m| && vp < VPAGES
  {
    var pde := Entry(m, dir, vp / ENTRIES);
    if !Present(pde) then None else
      var pte := Entry(m, TableAt(pde), vp % ENTRIES);
      if !Present(pte) then None else
        Some(Mapping(FrameOf(pte), Writable(pde) && Writable(pte), UserBit(pde) && UserBit(pte)))
  }

  // ---------------------------------------------------------------- the flat map

  /** The translations of the first n pages. */
  ghost function FlatTo(m: seq<u8>, dir: nat, n: nat): (f: seq<Option<Mapping>>)
    requires |m| == PHYS_SIZE && dir + PAGE_SIZE <= |m| && n <= VPAGES
    ensures |f| == n
  {
    if n == 0 then [] else FlatTo(m, dir, n - 1) + [Walk(m, dir, n - 1)]
  }

  /** The one flat map that the two levels stand for: where each page goes. */
  ghost function Flat(m: seq<u8>, dir: nat): (f: seq<Option<Mapping>>)
    requires |m| == PHYS_SIZE && dir + PAGE_SIZE <= |m|
    ensures |f| == VPAGES
  {
    FlatTo(m, dir, |m| / PAGE_SIZE)
  }

  lemma {:induction false} FlatToAt(m: seq<u8>, dir: nat, n: nat, p: nat)
    requires |m| == PHYS_SIZE && dir + PAGE_SIZE <= |m| && p < n <= VPAGES
    ensures FlatTo(m, dir, n)[p] == Walk(m, dir, p)
  {
    if p < n - 1 { FlatToAt(m, dir, n - 1, p); }
  }

  lemma FlatAt(m: seq<u8>, dir: nat, p: nat)
    requires |m| == PHYS_SIZE && dir + PAGE_SIZE <= |m| && p < VPAGES
    ensures Flat(m, dir)[p] == Walk(m, dir, p)
  {
    FlatToAt(m, dir, |m| / PAGE_SIZE, p);
  }

  /** What the processor makes of the words in memory: bit 0 of both entries is presence, bit 1 of both the right to
      write, bit 2 of both that of user mode, and bits 12 to 31 are the next address. */
  lemma FlatExact(m: seq<u8>, dir: nat, p: nat)
    requires |m| == PHYS_SIZE && dir + PAGE_SIZE <= |m| && p < 0x10_0000
    ensures var pde := Word(m, dir + p / 1024 * 4);
            var pte := Word(m, pde / 4096 * 4096 + p % 1024 * 4);
            var to := Flat(m, dir)[p];
            && (to.Some? <==> pde % 2 == 1 && pte % 2 == 1)
            && (to.Some? ==>
                  && to.value.frame == pte / 4096
                  && (to.value.rw <==> pde / 2 % 2 == 1 && pte / 2 % 2 == 1)
                  && (to.value.user <==> pde / 4 % 2 == 1 && pte / 4 % 2 == 1))
  {
    FlatAt(m, dir, p);
  }

  lemma AllFlat(m: seq<u8>, dir: nat)
    requires |m| == PHYS_SIZE && dir + PAGE_SIZE <= |m|
    ensures forall p: nat {:trigger Walk(m, dir, p)} :: p < VPAGES ==> Flat(m, dir)[p] == Walk(m, dir, p)
    ensures forall p: nat {:trigger Flat(m, dir)[p]} :: p < VPAGES ==> Flat(m, dir)[p] == Walk(m, dir, p)
  {
    forall p: nat | p < VPAGES ensures Flat(m, dir)[p] == Walk(m, dir, p) { FlatAt(m, dir, p); }
  }

  /** Memories with the same translations but at page q have the same flat map but at q. */
  lemma FlatButAt(m: seq<u8>, m': seq<u8>, dir: nat, q: nat, w: Option<Mapping>)
    requires |m| == PHYS_SIZE == |m'| && dir + PAGE_SIZE <= |m| && q < VPAGES
    requires forall p: nat :: p < VPAGES ==> Walk(m', dir, p) == if p == q then w else Walk(m, dir, p)
    ensures Flat(m', dir) == Flat(m, dir)[q := w]
  {
    var a, b := Flat(m', dir), Flat(m, dir)[q := w];
    forall p: nat | p < VPAGES ensures a[p] == b[p] {
      FlatAt(m, dir, p);
      FlatAt(m', dir, p);
    }
  }

  lemma FlatSame(m: seq<u8>, m': seq<u8>, dir: nat)
    requires |m| == PHYS_SIZE == |m'| && dir + PAGE_SIZE <= |m|
    requires forall p: nat :: p < VPAGES ==> Walk(m', dir, p) == Walk(m, dir, p)
    ensures Flat(m', dir) == Flat(m, dir)
  {
    var a, b := Flat(m', dir), Flat(m, dir);
    forall p: nat | p < VPAGES ensures a[p] == b[p] {
      FlatAt(m, dir, p);
      FlatAt(m', dir, p);
    }
  }

  /** The first n directory entries. */
  ghost function EntriesTo(m: seq<u8>, dir: nat, n: nat): (f: seq<u32>)
    requires dir + PAGE_SIZE <= |m| && n <= ENTRIES
    ensures |f| == n
  {
    if n == 0 then [] else EntriesTo(m, dir, n - 1) + [Entry(m, dir, n - 1)]
  }

  ghost function Directory(m: seq<u8>, dir: nat): (f: seq<u32>)
    requires |m| == PHYS_SIZE && dir + PAGE_SIZE <= |m|
    ensures |f| == ENTRIES
  {
    EntriesTo(m, dir, |m| / 0x40_0000)
  }

  lemma {:induction false} EntriesToAt(m: seq<u8>, dir: nat, n: nat, i: nat)
    requires dir + PAGE_SIZE <= |m| && i < n <= ENTRIES
    ensures EntriesTo(m, dir, n)[i] == Entry(m, dir, i)
  {
    if i < n - 1 { EntriesToAt(m, dir, n - 1, i); }
  }

  lemma DirectoryAt(m: seq<u8>, dir: nat, i: nat)
    requires |m| == PHYS_SIZE && dir + PAGE_SIZE <= |m| && i < ENTRIES
    ensures Directory(m, dir)[i] == Entry(m, dir, i)
  {
    EntriesToAt(m, dir, |m| / 0x40_0000, i);
  }

  lemma AllDirectory(m: seq<u8>, dir: nat)
    requires |m| == PHYS_SIZE && dir + PAGE_SIZE <= |m|
    ensures forall i {:trigger Entry(m, dir, i)} :: 0 <= i < ENTRIES ==> Directory(m, dir)[i] == Entry(m, dir, i)
    ensures forall i {:trigger Directory(m, dir)[i]} :: 0 <= i < ENTRIES ==> Directory(m, dir)[i] == Entry(m, dir, i)
  {
    forall i | 0 <= i < ENTRIES ensures Directory(m, dir)[i] == Entry(m, dir, i) { DirectoryAt(m, dir, i); }
  }

  lemma DirectoryButAt(m: seq<u8>, m': seq<u8>, dir: nat, i: nat)
    requires |m| == PHYS_SIZE == |m'| && dir + PAGE_SIZE <= |m| && i < ENTRIES
    requires forall j :: 0 <= j < ENTRIES && j != i ==> Entry(m', dir, j) == Entry(m, dir, j)
    ensures Directory(m', dir) == Directory(m, dir)[i := Entry(m', dir, i)]
  {
    AllDirectory(m, dir);
    AllDirectory(m', dir);
    var a, b := Directory(m', dir), Directory(m, dir)[i := Entry(m', dir, i)];
    assert forall j :: 0 <= j < ENTRIES ==> a[j] == b[j];
  }

  lemma DirectorySame(m: seq<u8>, m': seq<u8>, dir: nat)
    requires |m| == PHYS_SIZE == |m'| && dir + PAGE_SIZE <= |m|
    requires forall j :: 0 <= j < ENTRIES ==> Entry(m', dir, j) == Entry(m, dir, j)
    ensures Directory(m', dir) == Directory(m, dir)
  {
    AllDirectory(m, dir);
    AllDirectory(m', dir);
    var a, b := Directory(m', dir), Directory(m, dir);
    assert forall j :: 0 <= j < ENTRIES ==> a[j] == b[j];
  }

  // ---------------------------------------------------------------- the tree

  /** Directory entry i as the kernel leaves it: absent, or a table with every right granted. */
  predicate PdeOk(m: seq<u8>, dir: nat, i: nat)
    requires i < ENTRIES && dir + PAGE_SIZE <= |m|
  {
    var e := Entry(m, dir, i);
    Present(e) ==> e % PAGE_SIZE == 7 && TableAt(e) != dir
  }

  /** A well-formed tree: the directory page and the tables are different pages. */
  ghost predicate Tree(m: seq<u8>, dir: nat) {
    && |m| == PHYS_SIZE && dir % PAGE_SIZE == 0 && dir + PAGE_SIZE <= |m|
    && (forall i :: 0 <= i < ENTRIES ==> PdeOk(m, dir, i))
    && (forall i, j :: 0 <= i < j < ENTRIES && Present(Entry(m, dir, i)) && Present(Entry(m, dir, j))
          ==> TableAt(Entry(m, dir, i)) != TableAt(Entry(m, dir, j)))
  }

  /** The page at t is neither the directory nor one of its tables. */
  ghost predicate OutsideTree(m: seq<u8>, dir: nat, t: nat)
    requires dir + PAGE_SIZE <= |m|
  {
    t != dir && forall i :: 0 <= i < ENTRIES && Present(Entry(m, dir, i)) ==> TableAt(Entry(m, dir, i)) != t
  }

  /** Directory and tables hold the same bytes in both memories. */
  ghost predicate TreeSame(m: seq<u8>, m': seq<u8>, dir: nat)
    requires dir + PAGE_SIZE <= |m|
  {
    && Agree(m, m', dir, dir + PAGE_SIZE)
    && forall i :: 0 <= i < ENTRIES && Present(Entry(m, dir, i)) ==>
         Agree(m, m', TableAt(Entry(m, dir, i)), TableAt(Entry(m, dir, i)) + PAGE_SIZE)
  }

  lemma EntryKept(m: seq<u8>, m': seq<u8>, t: nat, i: nat)
    requires i < ENTRIES && t + PAGE_SIZE <= |m| == |m'|
    requires forall a: nat :: t + 4 * i <= a < t + 4 * i + 4 ==> m'[a] == m[a]
    ensures Entry(m', t, i) == Entry(m, t, i)
  {
    WordKept(m, m', t + 4 * i);
  }

  /** Two page-aligned pages that are not the same do not overlap. */
  lemma PagesApart(s: nat, t: nat)
    requires s % PAGE_SIZE == 0 && t % PAGE_SIZE == 0 && s != t
    ensures s + PAGE_SIZE <= t || t + PAGE_SIZE <= s
  {
  }

  lemma LowBits(e: nat, h: nat)
    requires e == 8 * h + 7
    ensures e % 2 == 1 && e / 2 % 2 == 1 && e / 4 % 2 == 1
  {
    assert e / 2 == 4 * h + 3;
    assert e / 4 == 2 * h + 1;
  }

  lemma TableAligned(e: u32)
    ensures TableAt(e) % PAGE_SIZE == 0 && TableAt(e) + PAGE_SIZE <= PHYS_SIZE
  {
  }

  lemma GrantsAll(e: u32)
    requires e % PAGE_SIZE == 7
    ensures Present(e) && Writable(e) && UserBit(e)
  {
    assert e == PAGE_SIZE * (e / PAGE_SIZE) + 7;
    LowBits(e, 512 * (e / PAGE_SIZE));
  }

  /** Present directory entries of different indices own different pages, none of them the directory. */
  lemma TablesApart(m: seq<u8>, dir: nat, i: nat, j: nat)
    requires Tree(m, dir) && i < ENTRIES && j < ENTRIES && Present(Entry(m, dir, i)) && Present(Entry(m, dir, j))
    ensures var s, t := TableAt(Entry(m, dir, i)), TableAt(Entry(m, dir, j));
            && Writable(Entry(m, dir, i)) && UserBit(Entry(m, dir, i))
            && (s + PAGE_SIZE <= dir || dir + PAGE_SIZE <= s)
            && (i != j ==> s + PAGE_SIZE <= t || t + PAGE_SIZE <= s)
  {
    hide Entry;
    assert PdeOk(m, dir, i) && PdeOk(m, dir, j);
    GrantsAll(Entry(m, dir, i));
    TableAligned(Entry(m, dir, i));
    TableAligned(Entry(m, dir, j));
    PagesApart(TableAt(Entry(m, dir, i)), dir);
    if i != j { PagesApart(TableAt(Entry(m, dir, i)), TableAt(Entry(m, dir, j))); }
  }

  /** One table entry rewritten: the map changes at that page only. */
  lemma SetEntry(m: seq<u8>, m': seq<u8>, dir: nat, vp: nat, e: u32, q: nat)
    requires Tree(m, dir) && vp < VPAGES && q < VPAGES
    requires Present(Entry(m, dir, vp / ENTRIES))
    requires var a := TableAt(Entry(m, dir, vp / ENTRIES)) + 4 * (vp % ENTRIES);
             SameOutside(m, m', a, a + 4) && Word(m', a) == e
    ensures Walk(m', dir, q) ==
            if q != vp then Walk(m, dir, q)
            else if Present(e) then Some(Mapping(FrameOf(e), Writable(e), UserBit(e))) else None
  {
    var i, k := vp / ENTRIES, q / ENTRIES;
    var t := TableAt(Entry(m, dir, i));
    hide Tree, FrameOf;
    TablesApart(m, dir, i, i);
    EntryKept(m, m', dir, k);
    if Present(Entry(m, dir, k)) {
      TablesApart(m, dir, k, i);
      if q != vp {
        if k == i { SlotsApart(vp, q); }
        EntryKept(m, m', TableAt(Entry(m, dir, k)), q % ENTRIES);
      }
    }
  }

  /** Two pages under one directory entry have different entries in its table. */
  lemma SlotsApart(vp: nat, q: nat)
    requires vp / ENTRIES == q / ENTRIES && vp != q
    ensures vp % ENTRIES != q % ENTRIES
  {
    assert vp == ENTRIES * (vp / ENTRIES) + vp % ENTRIES && q == ENTRIES * (q / ENTRIES) + q % ENTRIES;
  }

  /** What a table entry means below a directory entry that grants everything. */
  function Leaf(e: u32): Option<Mapping> {
    if Present(e) then Some(Mapping(FrameOf(e), Writable(e), UserBit(e))) else None
  }

  /** The same of the flat map: it changes at one page. */
  lemma SetEntryFlat(m: seq<u8>, m': seq<u8>, dir: nat, vp: nat, e: u32)
    requires Tree(m, dir) && vp < VPAGES && Present(Entry(m, dir, vp / ENTRIES)) && |m'| == |m|
    requires var a := TableAt(Entry(m, dir, vp / ENTRIES)) + 4 * (vp % ENTRIES);
             SameOutside(m, m', a, a + 4) && Word(m', a) == e
    ensures Flat(m', dir) == Flat(m, dir)[vp := Leaf(e)]
  {
    forall q: nat | q < VPAGES ensures Walk(m', dir, q) == if q == vp then Leaf(e) else Walk(m, dir, q) {
      SetEntry(m, m', dir, vp, e, q);
    }
    FlatButAt(m, m', dir, vp, Leaf(e));
  }

  /** A tree whose pages keep their bytes is the same tree and means the same. */
  lemma TreeUnchanged(m: seq<u8>, m': seq<u8>, dir: nat)
    requires Tree(m, dir) && TreeSame(m, m', dir)
    ensures Tree(m', dir)
    ensures Directory(m', dir) == Directory(m, dir) && Flat(m', dir) == Flat(m, dir)
  {
    forall i | 0 <= i < ENTRIES ensures Entry(m', dir, i) == Entry(m, dir, i) && PdeOk(m', dir, i) {
      EntryKept(m, m', dir, i);
      assert PdeOk(m, dir, i);
    }
    forall q: nat | q < VPAGES ensures Walk(m', dir, q) == Walk(m, dir, q) {
      var e := Entry(m, dir, q / ENTRIES);
      if Present(e) { EntryKept(m, m', TableAt(e), q % ENTRIES); }
    }
    DirectorySame(m, m', dir);
    FlatSame(m, m', dir);
  }

  /** Rewriting one table entry keeps the tree. */
  lemma SetEntryTree(m: seq<u8>, m': seq<u8>, dir: nat, i: nat, k: nat)
    requires Tree(m, dir) && i < ENTRIES && k < ENTRIES && Present(Entry(m, dir, i))
    requires var a := TableAt(Entry(m, dir, i)) + 4 * k; SameOutside(m, m', a, a + 4)
    ensures Tree(m', dir) && Directory(m', dir) == Directory(m, dir)
  {
    TablesApart(m, dir, i, i);
    forall j | 0 <= j < ENTRIES ensures Entry(m', dir, j) == Entry(m, dir, j) && PdeOk(m', dir, j) {
      EntryKept(m, m', dir, j);
      assert PdeOk(m, dir, j);
    }
    DirectorySame(m, m', dir);
  }

  /** An empty table hung into an absent directory entry changes no translation. */
  lemma HangTable(m: seq<u8>, m': seq<u8>, dir: nat, i: nat, t: nat)
    requires Tree(m, dir) && i < ENTRIES && !Present(Entry(m, dir, i))
    requires t % PAGE_SIZE == 0 && t + PAGE_SIZE <= |m| && OutsideTree(m, dir, t)
    requires forall a: nat :: t <= a < t + PAGE_SIZE ==> m[a] == 0
    requires SameOutside(m, m', dir + 4 * i, dir + 4 * i + 4) && Word(m', dir + 4 * i) == t + 7
    ensures Tree(m', dir) && t + 7 < U32 && TableAt(t + 7) == t
    ensures Directory(m', dir) == Directory(m, dir)[i := t + 7] && Flat(m', dir) == Flat(m, dir)
  {
    PagesApart(t, dir);
    assert t == PAGE_SIZE * (t / PAGE_SIZE);
    forall j | 0 <= j < ENTRIES && j != i ensures Entry(m', dir, j) == Entry(m, dir, j) && PdeOk(m', dir, j) {
      EntryKept(m, m', dir, j);
      assert PdeOk(m, dir, j);
    }
    assert PdeOk(m', dir, i);
    forall q: nat | q < VPAGES ensures Walk(m', dir, q) == Walk(m, dir, q) {
      HungWalk(m, m', dir, i, t, q);
    }
    DirectoryButAt(m, m', dir, i);
    FlatSame(m, m', dir);
  }

  lemma HungWalk(m: seq<u8>, m': seq<u8>, dir: nat, i: nat, t: nat, q: nat)
    requires Tree(m, dir) && i < ENTRIES && !Present(Entry(m, dir, i)) && q < VPAGES
    requires t + PAGE_SIZE <= |m| && (t + PAGE_SIZE <= dir || dir + PAGE_SIZE <= t)
    requires forall a: nat :: t <= a < t + PAGE_SIZE ==> m[a] == 0
    requires SameOutside(m, m', dir + 4 * i, dir + 4 * i + 4) && Entry(m', dir, i) == t + 7
             && TableAt(Entry(m', dir, i)) == t
    requires forall j :: 0 <= j < ENTRIES && j != i ==> Entry(m', dir, j) == Entry(m, dir, j)
    ensures Walk(m', dir, q) == Walk(m, dir, q)
  {
    hide Tree, FrameOf, TableAt;
    TreeBounds(m, dir);
    var k, e := q % ENTRIES, Entry(m, dir, q / ENTRIES);
    if q / ENTRIES == i {
      EntryKept(m, m', t, k);
      ZeroWord(m, t + 4 * k);
    } else if Present(e) {
      TablesApart(m, dir, q / ENTRIES, q / ENTRIES);
      TableAligned(e);
      EntryKept(m, m', TableAt(e), k);
    }
  }

  lemma TreeBounds(m: seq<u8>, dir: nat)
    requires Tree(m, dir)
    ensures |m| == PHYS_SIZE && dir % PAGE_SIZE == 0 && dir + PAGE_SIZE <= |m|
  {
  }
}
