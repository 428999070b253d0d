/**
 The 80x25 text console: a window of cells that must show the end of an unbounded page
 on which the same characters were laid out without ever scrolling.
 */
module Vga {
  import opened Words

  const COLS: nat := 80
  const ROWS: nat := 25
  const CELLS: nat := 2000
  const NEWLINE: int := 10
  const ATTR: u16 := 0x07
  const ATTR_LOG: u16 := 0xf0
  const BLANK: u16 := 0x0720

  /** One call of vga_putc. */
  datatype Put = Put(c: int, log: bool)

  /** Attribute in the high byte, the character cut to a byte in the low one. */
  function Cell(p: Put): u16 { (if p.log then ATTR_LOG else ATTR) * 256 + p.c % 256 }

  // ---------------------------------------------------------------- the page

  /** A paragraph wrapped at 80 columns; a full row is followed by a new one at once. */
  function Wrapped(s: seq<u16>): (rows: seq<seq<u16>>)
    ensures |rows| > 0 && |rows[|rows| - 1]| < COLS
    ensures forall i :: 0 <= i < |rows| ==> |rows[i]| <= COLS
  {
    if |s| < COLS then [s] else [s[..COLS]] + Wrapped(s[COLS..])
  }

  function Cells(text: seq<Put>): seq<u16> { seq(|text|, i requires 0 <= i < |text| => Cell(text[i])) }

  /** Where the first paragraph ends. */
  function Break(text: seq<Put>): (i: nat)
    ensures i <= |text| && (i < |text| ==> text[i].c == NEWLINE)
    ensures forall k :: 0 <= k < i ==> text[k].c != NEWLINE
  {
    if text == [] || text[0].c == NEWLINE then 0 else 1 + Break(text[1..])
  }

  /** The page: the paragraphs between newlines, each wrapped. */
  function Page(text: seq<Put>): (rows: seq<seq<u16>>)
    ensures |rows| > 0 && |rows[|rows| - 1]| < COLS
    ensures forall i :: 0 <= i < |rows| ==> |rows[i]| <= COLS
    decreases |text|
  {
    var i := Break(text);
    if i == |text| then Wrapped(Cells(text)) else Wrapped(Cells(text[..i])) + Page(text[i + 1..])
  }

  /** Page with one more cell at the end of its last row. */
  function WithCell(rows: seq<seq<u16>>, x: u16): seq<seq<u16>>
    requires |rows| > 0
  {
    var n := |rows| - 1;
    var last := rows[n] + [x];
    rows[..n] + if |last| == COLS then [last, []] else [last]
  }

  lemma WithCellAfter(above: seq<seq<u16>>, rows: seq<seq<u16>>, x: u16)
    requires |rows| > 0
    ensures WithCell(above + rows, x) == above + WithCell(rows, x)
  {
    var n := |above| + |rows| - 1;
    assert (above + rows)[n] == rows[|rows| - 1] && (above + rows)[..n] == above + rows[..|rows| - 1];
  }

  lemma {:induction false} WrappedAppend(s: seq<u16>, x: u16)
    ensures Wrapped(s + [x]) == WithCell(Wrapped(s), x)
  {
    if |s| >= COLS {
      WrappedAppend(s[COLS..], x);
      assert (s + [x])[COLS..] == s[COLS..] + [x] && (s + [x])[..COLS] == s[..COLS];
      WithCellAfter([s[..COLS]], Wrapped(s[COLS..]), x);
    } else if |s| == COLS - 1 {
      assert (s + [x])[..COLS] == s + [x] && (s + [x])[COLS..] == [];
      assert Wrapped([]) == [[]];
    }
  }

  lemma {:induction false} BreakAppend(text: seq<Put>, p: Put)
    ensures Break(text + [p]) == if Break(text) < |text| then Break(text)
                                 else if p.c == NEWLINE then |text| else |text| + 1
  {
    if text != [] && text[0].c != NEWLINE {
      assert (text + [p])[1..] == text[1..] + [p];
      BreakAppend(text[1..], p);
    }
  }

  function Added(rows: seq<seq<u16>>, p: Put): seq<seq<u16>>
    requires |rows| > 0
  {
    if p.c == NEWLINE then rows + [[]] else WithCell(rows, Cell(p))
  }

  /** A row more at most, and then an empty one. */
  lemma AddedGrows(rows: seq<seq<u16>>, p: Put)
    requires |rows| > 0
    ensures var rows' := Added(rows, p);
            |rows| <= |rows'| <= |rows| + 1 && (|rows'| > |rows| ==> rows'[|rows|] == [])
  {
  }

  lemma AddedAfter(above: seq<seq<u16>>, rows: seq<seq<u16>>, p: Put)
    requires |rows| > 0
    ensures Added(above + rows, p) == above + Added(rows, p)
  {
    WithCellAfter(above, rows, Cell(p));
    assert (above + rows) + [[]] == above + (rows + [[]]);
  }

  lemma NewParagraph(text: seq<Put>, p: Put)
    requires Break(text) == |text| && p.c == NEWLINE
    ensures Page(text + [p]) == Wrapped(Cells(text)) + [[]]
  {
    var text' := text + [p];
    BreakAppend(text, p);
    assert text'[..|text|] == text && text'[|text| + 1..] == [];
    assert Page([]) == [[]];
  }

  lemma CellsAppend(text: seq<Put>, p: Put)
    ensures Cells(text + [p]) == Cells(text) + [Cell(p)]
  {
    var a, b := Cells(text + [p]), Cells(text) + [Cell(p)];
    assert |a| == |b| && forall i :: 0 <= i < |a| ==> a[i] == b[i];
  }

  lemma SameParagraph(text: seq<Put>, p: Put)
    requires Break(text) == |text| && p.c != NEWLINE
    ensures Page(text + [p]) == WithCell(Wrapped(Cells(text)), Cell(p))
  {
    BreakAppend(text, p);
    CellsAppend(text, p);
    WrappedAppend(Cells(text), Cell(p));
  }

  /** A character changes only the end of the page. */
  lemma {:induction false} PageAppend(text: seq<Put>, p: Put)
    ensures Page(text + [p]) == Added(Page(text), p)
    decreases |text|
  {
    var i := Break(text);
    if i == |text| {
      if p.c == NEWLINE { NewParagraph(text, p); } else { SameParagraph(text, p); }
    } else {
      PageAppend(text[i + 1..], p);
      LaterParagraph(text, p);
    }
  }

  lemma FirstParagraph(text: seq<Put>)
    requires Break(text) < |text|
    ensures var i := Break(text); Page(text) == Wrapped(Cells(text[..i])) + Page(text[i + 1..])
  {
  }

  lemma LaterParagraph(text: seq<Put>, p: Put)
    requires var i := Break(text);
             i < |text| && Page(text[i + 1..] + [p]) == Added(Page(text[i + 1..]), p)
    ensures Page(text + [p]) == Added(Page(text), p)
  {
    hide Wrapped, Cells, Added, Break, Page;
    var i := Break(text);
    BreakAppend(text, p);
    SlicesAppend(text, p, i);
    FirstParagraph(text);
    FirstParagraph(text + [p]);
    AddedAfter(Wrapped(Cells(text[..i])), Page(text[i + 1..]), p);
  }

  lemma SlicesAppend(text: seq<Put>, p: Put, i: nat)
    requires i < |text|
    ensures (text + [p])[..i] == text[..i] && (text + [p])[i + 1..] == text[i + 1..] + [p]
  {
  }

  // ---------------------------------------------------------------- the window

  /** The cells with a character stored at `at`; a line feed stores nothing. */
  function Stored(v: seq<u16>, at: nat, p: Put): (v': seq<u16>)
    requires at < |v|
    ensures |v'| == |v|
  {
    if p.c == NEWLINE then v else v[at := Cell(p)]
  }

  /** The cells one row up, over a blank row. */
  function Scrolled(v: seq<u16>): seq<u16>
    requires |v| == CELLS
  {
    v[COLS..] + seq(COLS, _ => BLANK)
  }

  /** First row of the page on the screen. */
  function Top(rows: seq<seq<u16>>): nat { if |rows| <= ROWS then 0 else |rows| - ROWS }

  /** What cell k shows when the screen starts at row `top` of the page: blank where nothing was written. */
  function Shown(rows: seq<seq<u16>>, top: nat, k: nat): u16 {
    var r := top + k / COLS;
    if r < |rows| && k % COLS < |rows[r]| then rows[r][k % COLS] else BLANK
  }

  ghost predicate Shows(v: seq<u16>, rows: seq<seq<u16>>, top: nat) {
    |v| == CELLS && forall k :: 0 <= k < CELLS ==> v[k] == Shown(rows, top, k)
  }

  lemma CellShown(v: seq<u16>, rows: seq<seq<u16>>, top: nat, x: u16)
    requires |rows| > 0 && top < |rows| <= top + ROWS && |rows[|rows| - 1]| < COLS && Shows(v, rows, top)
    ensures var at := (|rows| - 1 - top) * COLS + |rows[|rows| - 1]|;
            at < CELLS && Shows(v[at := x], WithCell(rows, x), top)
  {
    var n := |rows| - 1;
    var at := (n - top) * COLS + |rows[n]|;
    assert at / COLS == n - top && at % COLS == |rows[n]|;
    var v', rows' := v[at := x], WithCell(rows, x);
    forall k | 0 <= k < CELLS ensures v'[k] == Shown(rows', top, k) {
      if top + k / COLS == n && k != at { assert k % COLS != at % COLS; }
      if top + k / COLS < n { assert rows'[top + k / COLS] == rows[top + k / COLS]; }
    }
  }

  lemma RowShown(v: seq<u16>, rows: seq<seq<u16>>, top: nat)
    requires Shows(v, rows, top)
    ensures Shows(v, rows + [[]], top)
  {
    forall k | 0 <= k < CELLS ensures v[k] == Shown(rows + [[]], top, k) { assert v[k] == Shown(rows, top, k); }
  }

  /** Moving every row up, with a blank one below, shows the page from the next row on. */
  lemma ScrollShown(v: seq<u16>, v': seq<u16>, rows: seq<seq<u16>>, top: nat)
    requires Shows(v, rows, top) && |rows| == top + ROWS + 1 && rows[|rows| - 1] == [] && |v'| == CELLS
    requires forall k :: 0 <= k < CELLS - COLS ==> v'[k] == v[k + COLS]
    requires forall k :: CELLS - COLS <= k < CELLS ==> v'[k] == BLANK
    ensures Shows(v', rows, top + 1)
  {
    forall k | 0 <= k < CELLS ensures v'[k] == Shown(rows, top + 1, k) {
      assert (k + COLS) / COLS == k / COLS + 1 && (k + COLS) % COLS == k % COLS;
      if k < CELLS - COLS { assert v[k + COLS] == Shown(rows, top, k + COLS); }
    }
  }

  class Console {
    const vga: array<u16>
    var row: nat
    var col: nat
    ghost var text: seq<Put>   // everything put since vga_init

    /** The screen shows the end of a page, the cursor behind its last cell. */
    ghost predicate Displays(rows: seq<seq<u16>>)
      reads this`row, this`col, vga
    {
      && |rows| > 0 && Shows(vga[..], rows, Top(rows))
      && row == |rows| - 1 - Top(rows) && col == |rows[|rows| - 1]|
    }

    ghost predicate Valid()
      reads this, vga
    {
      Displays(Page(text))
    }

    /** vga_init over whatever the memory held. */
    constructor (vga: array<u16>)
      requires vga.Length == CELLS
      modifies vga
      ensures Valid() && this.vga == vga && text == [] && row == 0 && col == 0
      ensures forall k :: 0 <= k < 2000 ==> vga[k] == 0x0720
    {
      this.vga := vga;
      row, col, text := 0, 0, [];
      new;
      var i := 0;
      while i < COLS * ROWS
        invariant 0 <= i <= CELLS
        invariant forall k :: 0 <= k < i ==> vga[k] == BLANK
        modifies vga
      {
        vga[i] := BLANK;
        i := i + 1;
      }
      assert Page([]) == [[]];
    }

    /** vga_putc: the screen shows the page with that character added; the cursor is at its end. In figures: a line
        feed stores nothing and starts a row, any other byte goes to the cursor under its attribute; past the last row
        everything moves one up. */
    method Putc(c: int, log: bool)
      requires Valid()
      modifies this, vga
      ensures Valid() && text == old(text) + [Put(c, log)]
      ensures var v, at, full := old(vga[..]), old(row * 80 + col), c == 10 || old(col) == 79;
              && |v| == 2000 && at < 2000
              && col == (if full then 0 else old(col) + 1)
              && row == (if full && old(row) < 24 then old(row) + 1 else old(row))
              && var v' := if c == 10 then v else v[at := (if log then 0xf000 else 0x0700) + c % 0x100];
                 vga[..] == if full && old(row) == 24 then v'[80..] + seq(80, _ => 0x0720) else v'
    {
      hide Page, Shown, Added;
      PageAppend(text, Put(c, log));
      PutOn(c, log, Page(text));
      text := text + [Put(c, log)];
    }

    /** The same over any page. */
    method PutOn(c: int, log: bool, ghost rows: seq<seq<u16>>)
      requires Displays(rows) && |rows[|rows| - 1]| < COLS
      modifies this`row, this`col, vga
      ensures Displays(Added(rows, Put(c, log)))
      ensures var v, at, full := old(vga[..]), old(row * COLS + col), c == NEWLINE || old(col) == COLS - 1;
              && |v| == CELLS && at < CELLS
              && col == (if full then 0 else old(col) + 1)
              && row == (if full && old(row) < ROWS - 1 then old(row) + 1 else old(row))
              && var v' := Stored(v, at, Put(c, log));
                 vga[..] == if full && old(row) == ROWS - 1 then Scrolled(v') else v'
    {
      hide Shown, Added;
      AddedGrows(rows, Put(c, log));
      Advance(c, log, rows, Top(rows));
      if row == ROWS {
        ghost var v := vga[..];
        Scroll();
        ScrollShown(v, vga[..], Added(rows, Put(c, log)), Top(rows));
      }
    }

    /** The character stored and the cursor moved on, possibly off the screen. */
    method Advance(c: int, log: bool, ghost rows: seq<seq<u16>>, ghost top: nat)
      requires 0 < |rows| && top < |rows| <= top + ROWS && |rows[|rows| - 1]| < COLS && Shows(vga[..], rows, top)
      requires row == |rows| - 1 - top && col == |rows[|rows| - 1]|
      modifies this`row, this`col, vga
      ensures var rows' := Added(rows, Put(c, log));
              Shows(vga[..], rows', top) && row == |rows'| - 1 - top && col == |rows'[|rows'| - 1]|
      ensures var v, at, full := old(vga[..]), old(row * COLS + col), c == NEWLINE || old(col) == COLS - 1;
              && |v| == CELLS && at < CELLS
              && col == (if full then 0 else old(col) + 1)
              && row == (if full then old(row) + 1 else old(row))
              && vga[..] == Stored(v, at, Put(c, log))
    {
      var attr := if log then ATTR_LOG else ATTR;
      if c == NEWLINE {
        RowShown(vga[..], rows, top);
        col := 0;
        row := row + 1;
      } else {
        CellShown(vga[..], rows, top, Cell(Put(c, log)));
        vga[row * COLS + col] := attr * 256 + c % 256;
        assert vga[..] == old(vga[..])[row * COLS + col := Cell(Put(c, log))];
        col := col + 1;
        if col == COLS {
          col := 0;
          row := row + 1;
        }
      }
    }

    /** vga_scroll: every row one up, the last one blank. */
    method Scroll()
      requires vga.Length == CELLS
      modifies this`row, vga
      ensures row == 24
      ensures forall k :: 0 <= k < 1920 ==> vga[k] == old(vga[k + 80])
      ensures forall k :: 1920 <= k < 2000 ==> vga[k] == 0x0720
    {
      var i := 0;
      while i < COLS * (ROWS - 1)
        invariant 0 <= i <= CELLS - COLS
        invariant forall k :: 0 <= k < i ==> vga[k] == old(vga[k + COLS])
        invariant forall k :: i <= k < CELLS ==> vga[k] == old(vga[k])
      {
        vga[i] := vga[i + COLS];
        i := i + 1;
      }
      i := 0;
      while i < COLS
        invariant 0 <= i <= COLS
        invariant forall k :: 0 <= k < CELLS - COLS ==> vga[k] == old(vga[k + COLS])
        invariant forall k :: CELLS - COLS <= k < CELLS - COLS + i ==> vga[k] == BLANK
      {
        vga[COLS * (ROWS - 1) + i] := BLANK;
        i := i + 1;
      }
      row := ROWS - 1;
    }
  }
}
