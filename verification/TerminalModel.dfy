/** The terminal as a text grid with a cursor, without pixels. The cursor follows the driver
    exactly: a line takes `width + 1` characters, of which the last is not kept in the grid, and
    after a scroll the cursor goes to the row above the last one. */
module TerminalModel {
  import opened Arith
  import opened Words

  const NEWLINE: byte := 10

  datatype Cursor = Cursor(row: u64, col: u64)

  /** Sizes in pixels of the screen and of one character. */
  datatype Geometry = Geometry(width: nat, height: nat, charWidth: nat, charHeight: nat) {
    /** Nothing is drawn and the cursor never wraps when one of the sizes is zero. */
    predicate Degenerate() { width == 0 || height == 0 || charWidth == 0 || charHeight == 0 }

    /** The number of whole characters on a line. */
    function Columns(): nat
      requires !Degenerate()
    {
      width / charWidth
    }

    /** The number of whole text rows. */
    function Rows(): nat
      requires !Degenerate()
    {
      height / charHeight
    }

    /** The number of the last row: one less than the number of rows, modulo 2^64. */
    function LastRow(): u64
      requires !Degenerate()
    {
      Wrap(Rows() - 1)
    }
  }

  /** The cursor after one character. */
  function Advance(g: Geometry, c: Cursor, ch: byte): Cursor {
    var c1 := if ch == NEWLINE then Cursor(Wrap(c.row + 1), 0) else Cursor(c.row, Wrap(c.col + 1));
    if g.Degenerate() then c1 else
    var c2 := if c1.col > g.Columns() then Cursor(Wrap(c1.row + 1), 0) else c1;
    if c2.row > g.LastRow() then Cursor(Wrap(g.LastRow() - 1), c2.col) else c2
  }

  /** One character makes the screen scroll. */
  predicate Scrolls(g: Geometry, c: Cursor, ch: byte) {
    var c1 := if ch == NEWLINE then Cursor(Wrap(c.row + 1), 0) else Cursor(c.row, Wrap(c.col + 1));
    !g.Degenerate() &&
    (if c1.col > g.Columns() then Wrap(c1.row + 1) else c1.row) > g.LastRow()
  }

  function AdvanceAll(g: Geometry, c: Cursor, text: seq<byte>): Cursor
    decreases |text|
  {
    if text == [] then c else AdvanceAll(g, Advance(g, c, text[0]), text[1..])
  }

  function ScrollCount(g: Geometry, c: Cursor, text: seq<byte>): nat
    decreases |text|
  {
    if text == [] then 0
    else (if Scrolls(g, c, text[0]) then 1 else 0) + ScrollCount(g, Advance(g, c, text[0]), text[1..])
  }

  // ----- the cursor

  /** The cursor is on the grid, or in the column just right of it. */
  predicate InBounds(g: Geometry, c: Cursor)
    requires !g.Degenerate()
  {
    c.row <= g.LastRow() && c.col <= g.Columns()
  }

  /** Sizes are those of a real screen: a count of pixels is a 64-bit number below the maximum. */
  predicate Sized(g: Geometry) { g.width < W64 - 1 && g.height < W64 - 1 }

  lemma SizedBounds(g: Geometry)
    requires Sized(g) && !g.Degenerate()
    ensures g.Columns() <= g.width && g.Rows() <= g.height
  {
    hide Wrap;
    DivLe(g.width, g.charWidth);
    DivLe(g.height, g.charHeight);
  }

  lemma AdvanceInBounds(g: Geometry, c: Cursor, ch: byte)
    requires Sized(g) && !g.Degenerate() && g.Rows() != 1 && InBounds(g, c)
    ensures InBounds(g, Advance(g, c, ch))
  {
    if g.Rows() >= 2 {
      CursorMoves(g, c, ch);
      hide Advance, Scrolls, Sized, Geometry.Rows, Geometry.Columns, Geometry.LastRow;
    } else {
      NoRowsInBounds(g, c, ch);
    }
  }

  lemma NoRowsInBounds(g: Geometry, c: Cursor, ch: byte)
    requires !g.Degenerate() && g.Rows() == 0
    ensures InBounds(g, Advance(g, c, ch))
  {
    assert g.LastRow() == W64 - 1;
    hide Geometry.Rows, Geometry.Columns, Geometry.LastRow, Wrap;
  }

  lemma {:induction false} AdvanceAllInBounds(g: Geometry, c: Cursor, text: seq<byte>)
    requires Sized(g) && !g.Degenerate() && g.Rows() != 1 && InBounds(g, c)
    ensures InBounds(g, AdvanceAll(g, c, text))
    decreases |text|
  {
    if text != [] {
      AdvanceInBounds(g, c, text[0]);
      AdvanceAllInBounds(g, Advance(g, c, text[0]), text[1..]);
    }
  }

  /** Whatever is written from home, the cursor stays within its bounds, exactly unless the screen has
      just one text row. Without any, the last row counts as 2^64 - 1 and bounds nothing. */
  lemma CursorBoundedIff(g: Geometry)
    requires Sized(g) && !g.Degenerate()
    ensures (forall text :: InBounds(g, AdvanceAll(g, Cursor(0, 0), text))) <==> g.Rows() != 1
  {
    SizedBounds(g);
    if g.Rows() != 1 {
      forall text ensures InBounds(g, AdvanceAll(g, Cursor(0, 0), text)) {
        AdvanceAllInBounds(g, Cursor(0, 0), text);
      }
    } else {
      assert g.LastRow() == 0;
      var text := [NEWLINE];
      assert AdvanceAll(g, Cursor(0, 0), text) == Advance(g, Cursor(0, 0), NEWLINE);
      assert !InBounds(g, AdvanceAll(g, Cursor(0, 0), text));
    }
  }

  /** With two rows, no sum or difference that the cursor goes through wraps around. */
  lemma WrapsNot(g: Geometry, c: Cursor)
    requires Sized(g) && !g.Degenerate() && g.Rows() >= 2 && InBounds(g, c)
    ensures g.LastRow() == g.Rows() - 1 && Wrap(g.LastRow() - 1) == g.Rows() - 2
    ensures Wrap(c.row + 1) == c.row + 1 && Wrap(c.col + 1) == c.col + 1
  {
    SizedBounds(g);
    hide Geometry.Rows, Geometry.Columns;
  }

  /** What one character does to the cursor: it goes right, or to the start of the next line, or, with
      a scroll, of the last but one. */
  lemma CursorMoves(g: Geometry, c: Cursor, ch: byte)
    requires Sized(g) && !g.Degenerate() && g.Rows() >= 2 && InBounds(g, c)
    ensures var t := g.Rows() - 1;
            && g.LastRow() == t
            && (Scrolls(g, c, ch) ==> c.row == t && Advance(g, c, ch) == Cursor(t - 1, 0))
            && (Scrolls(g, c, ch) && ch != NEWLINE ==> c.col == g.Columns())
            && (!Scrolls(g, c, ch) ==>
                  Advance(g, c, ch) == if ch == NEWLINE || c.col == g.Columns() then Cursor(c.row + 1, 0)
                                       else Cursor(c.row, c.col + 1))
            && (!Scrolls(g, c, ch) && (ch == NEWLINE || c.col == g.Columns()) ==> c.row < t)
  {
    WrapsNot(g, c);
    hide Wrap, Geometry.Rows, Geometry.Columns, Geometry.LastRow;
  }

  /** In pixels: a line holds the characters whose right edges are within the width, and the screen the
      text rows whose lower edges are within the height. */
  lemma CellsInPixels(g: Geometry, n: nat)
    requires !g.Degenerate()
    ensures n < g.Columns() <==> (n + 1) * g.charWidth <= g.width
    ensures n == g.Columns() <==> n * g.charWidth <= g.width < (n + 1) * g.charWidth
    ensures n < g.Rows() <==> (n + 1) * g.charHeight <= g.height
  {
    DivBelow(g.width, n + 1, g.charWidth);
    DivBelow(g.width, n, g.charWidth);
    DivBelow(g.height, n + 1, g.charHeight);
  }

  /** The cursor in pixels. A printable character that fits on the line moves it one column to the right. One
      just past the last that fits, and a newline, move it to the next line if that is on the screen. If
      it is not, the screen scrolls and the cursor goes to the line above, which for the only line of a
      screen is number 2^64 - 1. */
  lemma CursorInPixels(g: Geometry, c: Cursor, ch: byte)
    requires Sized(g) && g.charWidth > 0 && 0 < g.charHeight <= g.height && g.width > 0
    requires c.col * g.charWidth <= g.width && (c.row + 1) * g.charHeight <= g.height
    ensures var breaks := ch == 10 || g.width < (c.col + 1) * g.charWidth;
            var below := (c.row + 2) * g.charHeight <= g.height;
            && Advance(g, c, ch) == (if !breaks then Cursor(c.row, c.col + 1)
                                     else if below then Cursor(c.row + 1, 0)
                                     else Cursor((c.row - 1) % 0x1_0000_0000_0000_0000, 0))
            && (Scrolls(g, c, ch) <==> breaks && !below)
  {
    CellsInPixels(g, c.col);
    CellsInPixels(g, c.row);
    CellsInPixels(g, c.row + 1);
    CellsInPixels(g, 0);
    WithinWidth(g, c.col);
    LastRowIs(g);
    SizedBounds(g);
    hide Geometry.Rows, Geometry.Columns, Geometry.LastRow, Sized;
    if g.Rows() == 1 {
      OneRowCursor(g, c, ch);
    } else {
      SmallModulo(c.row - 1);
      hide Advance, Scrolls;
      CursorMoves(g, c, ch);
    }
  }

  lemma SmallModulo(x: int)
    ensures 0 <= x < 0x1_0000_0000_0000_0000 ==> x % 0x1_0000_0000_0000_0000 == x
  {}

  lemma OneRowCursor(g: Geometry, c: Cursor, ch: byte)
    requires !g.Degenerate() && g.Rows() == 1 && g.LastRow() == 0 && c.row == 0 && c.col <= g.Columns() < W64 - 1
    ensures var breaks := ch == 10 || c.col == g.Columns();
            && Advance(g, c, ch) == (if breaks then Cursor(0xffff_ffff_ffff_ffff, 0) else Cursor(0, c.col + 1))
            && (Scrolls(g, c, ch) <==> breaks)
  {
    hide Geometry.Rows, Geometry.Columns, Geometry.LastRow;
  }

  /** If a size is 0 the cursor only counts. */
  lemma CursorWithoutCells(g: Geometry, c: Cursor, ch: byte)
    requires g.width == 0 || g.height == 0 || g.charWidth == 0 || g.charHeight == 0
    ensures Advance(g, c, ch) == (if ch == 10 then Cursor((c.row + 1) % 0x1_0000_0000_0000_0000, 0)
                                  else Cursor(c.row, (c.col + 1) % 0x1_0000_0000_0000_0000))
    ensures !Scrolls(g, c, ch)
  {}

  lemma WithinWidth(g: Geometry, n: nat)
    requires !g.Degenerate() && n * g.charWidth <= g.width
    ensures n <= g.Columns()
  {
    DivBelow(g.width, n, g.charWidth);
  }

  // ----- the exact schedule of a run of printable characters

  /** The cursor after `n` printable characters from home: `l` per line, `t` the last row. */
  function Position(t: nat, l: nat, n: nat): (int, int)
    requires l > 0
  {
    if n < (t + 1) * l then (n / l, n % l)
    else var k := (n - (t + 1) * l) % (2 * l); (t - 1 + k / l, k % l)
  }

  /** How often the screen has scrolled by then. */
  function ScrollsBy(t: nat, l: nat, n: nat): nat
    requires l > 0
  {
    if n < (t + 1) * l then 0 else 1 + (n - (t + 1) * l) / (2 * l)
  }

  /** What one more character does at (r, c): one step to the right, on to the next line, or, at the
      end of the last line, to the start of the line above it, with a scroll. */
  predicate Follows(t: nat, l: nat, p: (int, int), scrolls: nat, p': (int, int), scrolls': nat) {
    && 0 <= p.0 <= t && 0 <= p.1 < l
    && p' == (if p.1 < l - 1 then (p.0, p.1 + 1) else if p.0 < t then (p.0 + 1, 0) else (t - 1, 0))
    && scrolls' == scrolls + (if p == (t, l - 1) then 1 else 0)
  }

  lemma FirstScreen(t: nat, l: nat, n: nat)
    requires l > 0 && t >= 1 && n < (t + 1) * l
    ensures Follows(t, l, Position(t, l, n), ScrollsBy(t, l, n), Position(t, l, n + 1), ScrollsBy(t, l, n + 1))
  {
    DivBelow(n, t + 1, l);
    DivBelow(n + 1, t + 1, l);
    DivModSucc(n, l);
    if n + 1 == (t + 1) * l {
      DivModUnique(0, 0, 0, 2 * l);
      HalfOf(0, l);
      DivModUnique(n + 1, t + 1, 0, l);
    }
  }

  lemma LaterScreens(t: nat, l: nat, n: nat)
    requires l > 0 && t >= 1 && n >= (t + 1) * l
    ensures Follows(t, l, Position(t, l, n), ScrollsBy(t, l, n), Position(t, l, n + 1), ScrollsBy(t, l, n + 1))
  {
    var m := n - (t + 1) * l;
    var k := m % (2 * l);
    DivModSucc(m, 2 * l);
    HalfOf(k, l);
    HalfOf((m + 1) % (2 * l), l);
  }

  lemma HalfOf(k: nat, l: nat)
    requires k < 2 * l
    ensures k / l == (if k < l then 0 else 1) && k % l == (if k < l then k else k - l)
    ensures 0 / l == 0 && 0 % l == 0
  {
    DivModUnique(k, if k < l then 0 else 1, if k < l then k else k - l, l);
    DivModUnique(0, 0, 0, l);
  }

  lemma {:induction false} AdvanceOneMore(g: Geometry, c: Cursor, text: seq<byte>, ch: byte)
    ensures AdvanceAll(g, c, text + [ch]) == Advance(g, AdvanceAll(g, c, text), ch)
    ensures ScrollCount(g, c, text + [ch]) ==
            ScrollCount(g, c, text) + (if Scrolls(g, AdvanceAll(g, c, text), ch) then 1 else 0)
    decreases |text|
  {
    if text == [] {
      assert [ch][1..] == [];
    } else {
      assert (text + [ch])[1..] == text[1..] + [ch];
      AdvanceOneMore(g, Advance(g, c, text[0]), text[1..], ch);
    }
  }

  lemma PrintableStep(g: Geometry, c: Cursor, ch: byte)
    requires Sized(g) && !g.Degenerate() && g.Rows() >= 2 && InBounds(g, c) && ch != NEWLINE
    ensures var t, l := g.Rows() - 1, g.Columns() + 1;
            var c' := Advance(g, c, ch);
            Follows(t, l, (c.row, c.col), 0, (c'.row, c'.col), if Scrolls(g, c, ch) then 1 else 0)
  {
    CursorMoves(g, c, ch);
    hide Scrolls, Advance, Wrap, Geometry.Rows, Geometry.Columns, Sized;
  }

  lemma Home(g: Geometry, t: nat, l: nat)
    requires l > 0
    ensures AdvanceAll(g, Cursor(0, 0), []) == Cursor(0, 0) && ScrollCount(g, Cursor(0, 0), []) == 0
    ensures Position(t, l, 0) == (0, 0) && ScrollsBy(t, l, 0) == 0
  {
    HalfOf(0, l);
    MulMono(1, t + 1, l);
  }

  /** Two steps from the same position end in the same position. */
  lemma FollowsAlike(t: nat, l: nat, p: (int, int), k: nat, q: (int, int), k': nat, r: (int, int), j: nat)
    requires Follows(t, l, p, k, q, k') && Follows(t, l, p, 0, r, j)
    ensures q == r && k' == k + j
  {}

  /** After `n` printable characters from home the cursor and the number of scrolls are given by
      division: one scroll when the screen is full, then one for every two lines. */
  lemma {:induction false} Schedule(g: Geometry, text: seq<byte>)
    requires Sized(g) && !g.Degenerate() && g.Rows() >= 2
    requires NEWLINE !in text
    ensures var t, l := g.Rows() - 1, g.Columns() + 1;
            var c := AdvanceAll(g, Cursor(0, 0), text);
            && (c.row, c.col) == Position(t, l, |text|)
            && ScrollCount(g, Cursor(0, 0), text) == ScrollsBy(t, l, |text|)
    decreases |text|
  {
    hide Position, ScrollsBy, AdvanceAll, ScrollCount, Advance, Scrolls, Follows;
    var t, l := g.Rows() - 1, g.Columns() + 1;
    if text == [] {
      Home(g, t, l);
    } else {
      var n := |text| - 1;
      var before, ch := text[..n], text[n];
      var c := AdvanceAll(g, Cursor(0, 0), before);
      assert text == before + [ch];
      Schedule(g, before);
      AdvanceOneMore(g, Cursor(0, 0), before, ch);
      AdvanceAllInBounds(g, Cursor(0, 0), before);
      PrintableStep(g, c, ch);
      if n < (t + 1) * l { FirstScreen(t, l, n); } else { LaterScreens(t, l, n); }
      var c' := Advance(g, c, ch);
      FollowsAlike(t, l, (c.row, c.col), ScrollsBy(t, l, n), Position(t, l, n + 1), ScrollsBy(t, l, n + 1),
                   (c'.row, c'.col), if Scrolls(g, c, ch) then 1 else 0);
    }
  }

  /** A printable text of which character `n` goes to the extra column of the last row. */
  lemma CornerText(g: Geometry) returns (text: seq<byte>, n: nat)
    requires Sized(g) && !g.Degenerate() && g.Rows() >= 2
    ensures n < |text| && text[n] != NEWLINE
    ensures AdvanceAll(g, Cursor(0, 0), text[..n]) == Cursor(g.Rows() - 1, g.Columns())
  {
    hide AdvanceAll, ScrollsBy, ScrollCount, Geometry.Rows, Geometry.Columns;
    var rows, l := g.Rows(), g.Columns() + 1;
    MulDistributes(rows, 1, l);
    MulMono(1, rows, l);
    n := rows * l - 1;
    text := seq(n + 1, _ => 65);
    Schedule(g, text[..n]);
    DivModUnique(n, rows - 1, l - 1, l);
  }

  /** No printable character goes to the extra column. */
  predicate StaysOnGrid(g: Geometry, c: Cursor, text: seq<byte>)
    requires !g.Degenerate()
    decreases |text|
  {
    text != [] ==> (text[0] != NEWLINE ==> c.col < g.Columns()) && StaysOnGrid(g, Advance(g, c, text[0]), text[1..])
  }

  // ----- the text grid

  datatype Cell = Blank | Glyph(ch: byte)

  type Grid = seq<seq<Cell>>

  datatype Text = Text(cursor: Cursor, grid: Grid)

  function BlankRow(columns: nat): (r: seq<Cell>)
    ensures |r| == columns
  {
    seq(columns, _ => Blank)
  }

  function BlankGrid(g: Geometry): Grid
    requires !g.Degenerate()
  {
    seq(g.Rows(), _ => BlankRow(g.Columns()))
  }

  /** A grid of the right size. */
  ghost predicate Fits(g: Geometry, grid: Grid)
    requires !g.Degenerate()
  {
    |grid| == g.Rows() && forall r :: 0 <= r < |grid| ==> |grid[r]| == g.Columns()
  }

  /** The character goes to its cell; one written right of the last column goes nowhere. */
  function PutCell(grid: Grid, row: nat, col: nat, ch: byte): Grid {
    if row < |grid| && col < |grid[row]| then grid[row := grid[row][col := Glyph(ch)]] else grid
  }

  function ScrollGrid(grid: Grid, columns: nat): Grid {
    if grid == [] then [] else grid[1..] + [BlankRow(columns)]
  }

  lemma ScrollGridRow(g: Geometry, grid: Grid, r: nat)
    requires !g.Degenerate() && Fits(g, grid) && r < |grid|
    ensures |ScrollGrid(grid, g.Columns())| == |grid|
    ensures ScrollGrid(grid, g.Columns())[r] == if r + 1 < |grid| then grid[r + 1] else BlankRow(g.Columns())
  {}

  /** One character written to the terminal. */
  function Put(g: Geometry, s: Text, ch: byte): Text
    requires !g.Degenerate()
  {
    var grid := if ch == NEWLINE then s.grid else PutCell(s.grid, s.cursor.row, s.cursor.col, ch);
    Text(Advance(g, s.cursor, ch), if Scrolls(g, s.cursor, ch) then ScrollGrid(grid, g.Columns()) else grid)
  }

  lemma PutFits(g: Geometry, s: Text, ch: byte)
    requires !g.Degenerate() && Fits(g, s.grid)
    ensures Fits(g, Put(g, s, ch).grid)
  {}

  lemma PutCellFits(g: Geometry, grid: Grid, row: nat, col: nat, ch: byte)
    requires !g.Degenerate() && Fits(g, grid)
    ensures Fits(g, PutCell(grid, row, col, ch)) && |PutCell(grid, row, col, ch)| == |grid|
  {}

  lemma PutCellAt(grid: Grid, row: nat, col: nat, ch: byte, r: nat, c: nat)
    requires r < |grid| && c < |grid[r]|
    ensures r < |PutCell(grid, row, col, ch)| && c < |PutCell(grid, row, col, ch)[r]|
    ensures PutCell(grid, row, col, ch)[r][c] == if r == row && c == col then Glyph(ch) else grid[r][c]
  {}

  lemma FitsRow(g: Geometry, grid: Grid, row: nat)
    requires !g.Degenerate() && Fits(g, grid)
    ensures |grid| == g.Rows() && (row < |grid| ==> |grid[row]| == g.Columns())
  {}

  function PutAll(g: Geometry, s: Text, text: seq<byte>): Text
    requires !g.Degenerate()
    decreases |text|
  {
    if text == [] then s else PutAll(g, Put(g, s, text[0]), text[1..])
  }

  lemma {:induction false} PutAllOneMore(g: Geometry, s: Text, text: seq<byte>, ch: byte)
    requires !g.Degenerate() && Fits(g, s.grid)
    ensures Fits(g, PutAll(g, s, text).grid) && |PutAll(g, s, text).grid| == |s.grid|
    ensures PutAll(g, s, text + [ch]) == Put(g, PutAll(g, s, text), ch)
    ensures PutAll(g, s, text).cursor == AdvanceAll(g, s.cursor, text)
    decreases |text|
  {
    PutFits(g, s, if text == [] then ch else text[0]);
    if text == [] {
      assert [ch][1..] == [];
    } else {
      assert (text + [ch])[1..] == text[1..] + [ch];
      PutAllOneMore(g, Put(g, s, text[0]), text[1..], ch);
    }
  }

  /** Writing two texts in turn is writing them as one. */
  lemma {:induction false} PutAllOfConcat(g: Geometry, s: Text, a: seq<byte>, b: seq<byte>)
    requires !g.Degenerate()
    ensures PutAll(g, s, a + b) == PutAll(g, PutAll(g, s, a), b)
    decreases |a|
  {
    hide Put;
    if a == [] {
      assert a + b == b;
    } else {
      assert (a + b)[1..] == a[1..] + b;
      PutAllOfConcat(g, Put(g, s, a[0]), a[1..], b);
    }
  }

  lemma {:induction false} AdvanceAllOfConcat(g: Geometry, c: Cursor, a: seq<byte>, b: seq<byte>)
    ensures AdvanceAll(g, c, a + b) == AdvanceAll(g, AdvanceAll(g, c, a), b)
    decreases |a|
  {
    hide Advance;
    if a == [] {
      assert a + b == b;
    } else {
      assert (a + b)[1..] == a[1..] + b;
      AdvanceAllOfConcat(g, Advance(g, c, a[0]), a[1..], b);
    }
  }

  /** Cell (r, c) of a screen on which `text` has been written from home without a scroll. */
  function CellOfText(text: seq<byte>, l: nat, r: nat, c: nat): Cell {
    if r * l + c < |text| then Glyph(text[r * l + c]) else Blank
  }

  ghost predicate ShowsText(g: Geometry, grid: Grid, text: seq<byte>)
    requires !g.Degenerate() && Fits(g, grid)
  {
    forall r: nat, c: nat :: r < |grid| && c < g.Columns() ==> grid[r][c] == CellOfText(text, g.Columns() + 1, r, c)
  }

  /** The cell that the next character goes to is the only one that changes. */
  lemma CellOfNext(text: seq<byte>, ch: byte, l: nat, r: nat, c: nat)
    requires c < l
    ensures CellOfText(text + [ch], l, r, c) ==
            if r == |text| / l && c == |text| % l then Glyph(ch) else CellOfText(text, l, r, c)
  {
    var n := |text|;
    assert n == n / l * l + n % l;
    if r * l + c == n {
      DivModUnique(n, r, c, l);
    }
  }

  lemma NoScrollYet(g: Geometry, c: Cursor, n: nat, ch: byte)
    requires Sized(g) && !g.Degenerate() && g.Rows() >= 2 && ch != NEWLINE
    requires var l := g.Columns() + 1; (c.row, c.col) == (n / l, n % l) && n + 1 < g.Rows() * l
    ensures !Scrolls(g, c, ch) && c.row < g.Rows() && c.col <= g.Columns()
  {
    var l := g.Columns() + 1;
    DivBelow(n, g.Rows(), l);
    DivBelow(n + 1, g.Rows(), l);
    DivModSucc(n, l);
    hide Scrolls, Advance, Sized, Wrap, Geometry.Rows, Geometry.Columns;
    LastRowIs(g);
    CursorMoves(g, c, ch);
  }

  lemma LastRowIs(g: Geometry)
    requires Sized(g) && !g.Degenerate() && g.Rows() >= 1
    ensures g.LastRow() == g.Rows() - 1
  {
    SizedBounds(g);
  }

  lemma PutOnFirstScreen(g: Geometry, s: Text, text: seq<byte>, ch: byte)
    requires Sized(g) && !g.Degenerate() && g.Rows() >= 2 && Fits(g, s.grid) && ch != NEWLINE
    requires var l := g.Columns() + 1;
             (s.cursor.row, s.cursor.col) == (|text| / l, |text| % l) && |text| + 1 < g.Rows() * l
    requires ShowsText(g, s.grid, text)
    ensures Fits(g, Put(g, s, ch).grid) && ShowsText(g, Put(g, s, ch).grid, text + [ch])
  {
    hide Scrolls, Advance, CellOfText, Sized;
    var l := g.Columns() + 1;
    NoScrollYet(g, s.cursor, |text|, ch);
    PutFits(g, s, ch);
    forall r: nat, c: nat | r < |s.grid| && c < g.Columns()
      ensures Put(g, s, ch).grid[r][c] == CellOfText(text + [ch], l, r, c)
    {
      CellOfNext(text, ch, l, r, c);
    }
  }

  lemma BlankShowsNothing(g: Geometry)
    requires !g.Degenerate()
    ensures Fits(g, BlankGrid(g)) && ShowsText(g, BlankGrid(g), [])
  {}

  /** Text that does not fill the screen appears on it from the top left corner, `width + 1` characters
      to a line, with the last of each full line missing. */
  lemma {:induction false} FirstScreenShowsText(g: Geometry, text: seq<byte>)
    requires Sized(g) && !g.Degenerate() && g.Rows() >= 2
    requires NEWLINE !in text && |text| < g.Rows() * (g.Columns() + 1)
    ensures var s := PutAll(g, Text(Cursor(0, 0), BlankGrid(g)), text);
            Fits(g, s.grid) && ShowsText(g, s.grid, text)
    decreases |text|
  {
    hide PutAll, ShowsText, Put, AdvanceAll;
    var home := Text(Cursor(0, 0), BlankGrid(g));
    BlankShowsNothing(g);
    if text == [] {
      PutNothing(g, home);
    } else {
      var n := |text| - 1;
      var before, ch := text[..n], text[n];
      assert text == before + [ch];
      FirstScreenShowsText(g, before);
      PutAllOneMore(g, home, before, ch);
      Schedule(g, before);
      PutOnFirstScreen(g, PutAll(g, home, before), before, ch);
    }
  }

  lemma PutNothing(g: Geometry, s: Text)
    requires !g.Degenerate()
    ensures PutAll(g, s, []) == s
  {}

  // ----- text that is overwritten

  /** The screen after the first `n` characters of a text written from home. */
  function Screen(g: Geometry, text: seq<byte>, n: nat): Text
    requires !g.Degenerate() && n <= |text|
  {
    PutAll(g, Text(Cursor(0, 0), BlankGrid(g)), text[..n])
  }

  lemma ScreenNext(g: Geometry, text: seq<byte>, n: nat)
    requires Sized(g) && !g.Degenerate() && g.Rows() != 1 && n < |text|
    ensures Screen(g, text, n + 1) == Put(g, Screen(g, text, n), text[n])
    ensures Screen(g, text, 0) == Text(Cursor(0, 0), BlankGrid(g))
    ensures Fits(g, Screen(g, text, n).grid) && InBounds(g, Screen(g, text, n).cursor)
    ensures Screen(g, text, n).cursor == AdvanceAll(g, Cursor(0, 0), text[..n])
  {
    hide Put, Fits, Advance;
    BlankShowsNothing(g);
    assert text[..n + 1] == text[..n] + [text[n]];
    PutAllOneMore(g, Text(Cursor(0, 0), BlankGrid(g)), text[..n], text[n]);
    AdvanceAllInBounds(g, Cursor(0, 0), text[..n]);
  }

  predicate HoldsGlyph(grid: Grid, row: nat, col: nat) { row < |grid| && col < |grid[row]| && grid[row][col].Glyph? }

  /** Character `n` goes to a cell that already holds one. */
  ghost predicate Overwrites(g: Geometry, text: seq<byte>, n: nat)
    requires !g.Degenerate()
  {
    n < |text| && text[n] != NEWLINE &&
    var s := Screen(g, text, n); HoldsGlyph(s.grid, s.cursor.row, s.cursor.col)
  }

  /** Character `n` makes the screen scroll when there is something on the last line. */
  ghost predicate ScrollsText(g: Geometry, text: seq<byte>, n: nat) {
    n < |text| && var c := AdvanceAll(g, Cursor(0, 0), text[..n]); c.col > 0 && Scrolls(g, c, text[n])
  }

  /** And a printable character follows. All this looks at the cursor only. */
  ghost predicate ScrollsOverText(g: Geometry, text: seq<byte>, n: nat) {
    ScrollsText(g, text, n) && n + 1 < |text| && text[n + 1] != NEWLINE
  }

  /** A character that makes the screen scroll moves the last line up by one and puts the cursor at its
      start, so that the next printable character overwrites what it begins with. */
  lemma ScrollOverwrites(g: Geometry, s: Text, scroller: byte, ch: byte)
    requires Sized(g) && !g.Degenerate() && g.Rows() >= 2 && g.Columns() >= 1
    requires Fits(g, s.grid) && InBounds(g, s.cursor) && Scrolls(g, s.cursor, scroller) && ch != NEWLINE
    ensures var t := g.Rows() - 1;
            var s1 := Put(g, s, scroller);
            var s2 := Put(g, s1, ch);
            && s1.grid[t - 1] == s.grid[t]
            && s1.cursor == Cursor(t - 1, 0)
            && s2.grid[t - 1] == s.grid[t][0 := Glyph(ch)]
  {
    var t := g.Rows() - 1;
    SizedBounds(g);
    CursorMoves(g, s.cursor, scroller);
    CursorMoves(g, Cursor(t - 1, 0), ch);
    hide Scrolls, Advance, Sized, Geometry.LastRow;
    assert Put(g, s, scroller) == Text(Cursor(t - 1, 0), ScrollGrid(s.grid, g.Columns()));
  }

  /** A line that has been written on has a character in its first cell. */
  ghost predicate LineBegun(s: Text) { s.cursor.col > 0 ==> HoldsGlyph(s.grid, s.cursor.row, 0) }

  lemma LineBegunStep(g: Geometry, s: Text, ch: byte)
    requires Sized(g) && !g.Degenerate() && g.Rows() >= 2 && g.Columns() >= 1
    requires Fits(g, s.grid) && InBounds(g, s.cursor) && LineBegun(s)
    ensures LineBegun(Put(g, s, ch))
  {
    CursorMoves(g, s.cursor, ch);
    FitsRow(g, s.grid, s.cursor.row);
    hide Scrolls, Advance, Sized, Fits, ScrollGrid;
  }

  lemma {:induction false} LineBegunAlways(g: Geometry, text: seq<byte>, n: nat)
    requires Sized(g) && !g.Degenerate() && g.Rows() >= 2 && g.Columns() >= 1 && n < |text|
    ensures LineBegun(Screen(g, text, n))
  {
    hide Screen, Put, Fits, LineBegun;
    ScreenNext(g, text, n);
    if n == 0 {
      HomeLine(g);
    } else {
      ScreenNext(g, text, n - 1);
      LineBegunAlways(g, text, n - 1);
      LineBegunStep(g, Screen(g, text, n - 1), text[n - 1]);
    }
  }

  lemma HomeLine(g: Geometry)
    requires !g.Degenerate()
    ensures LineBegun(Text(Cursor(0, 0), BlankGrid(g)))
    ensures AheadBlank(Text(Cursor(0, 0), BlankGrid(g)), false)
  {}

  /** All cells below the cursor's line are blank, and so are those of its line from the cursor on,
      unless the line is one that has just been scrolled up with text on it. */
  ghost predicate AheadBlank(s: Text, scrolledText: bool) {
    forall r: nat, c: nat :: Ahead(s.cursor, scrolledText, r, c) ==> !HoldsGlyph(s.grid, r, c)
  }

  lemma PutIs(g: Geometry, s: Text, ch: byte)
    requires !g.Degenerate()
    ensures var grid := if ch == NEWLINE then s.grid else PutCell(s.grid, s.cursor.row, s.cursor.col, ch);
            Put(g, s, ch) == Text(Advance(g, s.cursor, ch),
                                  if Scrolls(g, s.cursor, ch) then ScrollGrid(grid, g.Columns()) else grid)
  {}

  lemma ScrolledHolds(grid: Grid, columns: nat, r: nat, c: nat)
    ensures HoldsGlyph(ScrollGrid(grid, columns), r, c) ==> HoldsGlyph(grid, r + 1, c)
  {}

  /** A cell is ahead of the cursor. */
  predicate Ahead(c: Cursor, scrolledText: bool, row: nat, col: nat) {
    row > c.row || (row == c.row && col >= c.col && !scrolledText)
  }

  lemma AheadBlankIs(s: Text, scrolledText: bool, row: nat, col: nat)
    requires AheadBlank(s, scrolledText) && Ahead(s.cursor, scrolledText, row, col)
    ensures !HoldsGlyph(s.grid, row, col)
  {}

  /** A cell ahead of the cursor after a character was so before, unless the character has just gone there,
      one row further down if there was a scroll. */
  lemma AheadBefore(g: Geometry, c: Cursor, scrolledText: bool, ch: byte, row: nat, col: nat)
    requires Sized(g) && !g.Degenerate() && g.Rows() >= 2 && g.Columns() >= 1 && InBounds(g, c)
    requires scrolledText ==> ch == NEWLINE && c == Cursor(g.Rows() - 2, 0)
    requires Ahead(Advance(g, c, ch), Scrolls(g, c, ch) && c.col > 0, row, col)
    ensures var before := if Scrolls(g, c, ch) then row + 1 else row;
            && Ahead(c, scrolledText, before, col)
            && (ch != NEWLINE ==> !(before == c.row && col == c.col))
  {
    CursorMoves(g, c, ch);
    hide Advance, Scrolls, Sized, Geometry.Rows, Geometry.Columns;
  }

  lemma AheadBlankStep(g: Geometry, s: Text, scrolledText: bool, ch: byte)
    requires Sized(g) && !g.Degenerate() && g.Rows() >= 2 && g.Columns() >= 1
    requires InBounds(g, s.cursor) && AheadBlank(s, scrolledText)
    requires scrolledText ==> ch == NEWLINE && s.cursor == Cursor(g.Rows() - 2, 0)
    ensures AheadBlank(Put(g, s, ch), Scrolls(g, s.cursor, ch) && s.cursor.col > 0)
  {
    PutIs(g, s, ch);
    var scrolls, s' := Scrolls(g, s.cursor, ch), Put(g, s, ch);
    var grid := if ch == NEWLINE then s.grid else PutCell(s.grid, s.cursor.row, s.cursor.col, ch);
    hide Scrolls, Advance, Sized, HoldsGlyph, PutCell, ScrollGrid, Put, Geometry.Rows, Geometry.Columns, InBounds;
    forall r: nat, c: nat | Ahead(s'.cursor, scrolls && s.cursor.col > 0, r, c) ensures !HoldsGlyph(s'.grid, r, c) {
      var before := if scrolls then r + 1 else r;
      AheadBefore(g, s.cursor, scrolledText, ch, r, c);
      AheadBlankIs(s, scrolledText, before, c);
      ScrolledHolds(grid, g.Columns(), r, c);
      PutCellStands(s.grid, s.cursor.row, s.cursor.col, ch, before, c, ch);
    }
  }

  /** As long as no scroll has moved text under the cursor, everything ahead of it is blank. */
  lemma {:induction false} AheadBlankUntil(g: Geometry, text: seq<byte>, n: nat)
    requires Sized(g) && !g.Degenerate() && g.Rows() >= 2 && g.Columns() >= 1 && n < |text|
    requires forall i :: 0 <= i < n ==> !ScrollsOverText(g, text, i)
    ensures AheadBlank(Screen(g, text, n), n > 0 && ScrollsText(g, text, n - 1))
  {
    hide Screen, Put, Fits, AheadBlank, Scrolls, Advance, AdvanceAll;
    ScreenNext(g, text, n);
    if n == 0 {
      HomeLine(g);
    } else {
      ScreenNext(g, text, n - 1);
      AheadBlankUntil(g, text, n - 1);
      var s := Screen(g, text, n - 1);
      var scrolledText := n > 1 && ScrollsText(g, text, n - 2);
      if scrolledText {
        assert !ScrollsOverText(g, text, n - 2);
        ScreenNext(g, text, n - 2);
        CursorMoves(g, Screen(g, text, n - 2).cursor, text[n - 2]);
        PutCursor(g, Screen(g, text, n - 2), text[n - 2]);
      }
      AheadBlankStep(g, s, scrolledText, text[n - 1]);
    }
  }

  lemma PutCursor(g: Geometry, s: Text, ch: byte)
    requires !g.Degenerate()
    ensures Put(g, s, ch).cursor == Advance(g, s.cursor, ch)
  {}

  lemma NothingOverwrittenUntil(g: Geometry, text: seq<byte>, n: nat)
    requires Sized(g) && !g.Degenerate() && g.Rows() >= 2 && g.Columns() >= 1 && n < |text|
    requires forall i :: 0 <= i < n ==> !ScrollsOverText(g, text, i)
    ensures !Overwrites(g, text, n)
  {
    hide Screen, HoldsGlyph, ScrollsText;
    if text[n] != NEWLINE {
      AheadBlankUntil(g, text, n);
      assert n > 0 ==> !ScrollsOverText(g, text, n - 1);
    }
  }

  /** With no column there is no cell to write to. */
  lemma NoColumnsNoText(g: Geometry, text: seq<byte>, n: nat)
    requires Sized(g) && !g.Degenerate() && g.Rows() >= 2 && g.Columns() == 0 && n < |text|
    ensures !Overwrites(g, text, n) && !ScrollsText(g, text, n)
  {
    ScreenNext(g, text, n);
    FitsRow(g, Screen(g, text, n).grid, Screen(g, text, n).cursor.row);
    hide Screen, Fits, Scrolls, AdvanceAll;
  }

  /** For every text: something is overwritten exactly if at some point a scroll with text on the last
      line is followed by a printable character. */
  lemma OverwritesIff(g: Geometry, text: seq<byte>)
    requires Sized(g) && !g.Degenerate() && g.Rows() >= 2
    ensures (exists n :: Overwrites(g, text, n)) <==> (exists n :: ScrollsOverText(g, text, n))
  {
    hide Screen, Put, Fits, Scrolls, Advance, AdvanceAll;
    if g.Columns() == 0 {
      forall n: nat | n < |text| ensures !Overwrites(g, text, n) && !ScrollsOverText(g, text, n) {
        NoColumnsNoText(g, text, n);
      }
    } else if n: nat :| ScrollsOverText(g, text, n) {
      ScreenNext(g, text, n);
      ScreenNext(g, text, n + 1);
      LineBegunAlways(g, text, n);
      var s := Screen(g, text, n);
      CursorMoves(g, s.cursor, text[n]);
      ScrollOverwrites(g, s, text[n], text[n + 1]);
      FitsRow(g, s.grid, s.cursor.row);
      FitsRow(g, Screen(g, text, n + 1).grid, s.cursor.row - 1);
      assert Overwrites(g, text, n + 1);
    } else {
      forall n: nat | n < |text| ensures !Overwrites(g, text, n) {
        NothingOverwrittenUntil(g, text, n);
      }
    }
  }

  /** For printable text, that is when it is longer than the screen is large, extra column included. */
  lemma PrintableOverwritesIff(g: Geometry, text: seq<byte>)
    requires Sized(g) && !g.Degenerate() && g.Rows() >= 2 && NEWLINE !in text
    ensures (exists n :: Overwrites(g, text, n)) <==> g.Columns() >= 1 && |text| > g.Rows() * (g.Columns() + 1)
  {
    hide Overwrites, Scrolls, Advance, AdvanceAll, ScrollCount, Position;
    OverwritesIff(g, text);
    var rows, l := g.Rows(), g.Columns() + 1;
    if g.Columns() == 0 {
      forall n: nat | n < |text| ensures !ScrollsOverText(g, text, n) {
        NoColumnsNoText(g, text, n);
      }
    } else if |text| > rows * l {
      var n := rows * l - 1;
      MulMono(1, rows, l);
      PrintableScrolls(g, text, n);
      assert ScrollsOverText(g, text, n);
    } else if n: nat :| ScrollsOverText(g, text, n) {
      PrintableScrolls(g, text, n);
    }
  }

  /** Printable text scrolls for the first time when it has filled the screen. */
  lemma PrintableScrolls(g: Geometry, text: seq<byte>, n: nat)
    requires Sized(g) && !g.Degenerate() && g.Rows() >= 2 && g.Columns() >= 1 && NEWLINE !in text
    requires n < |text| && n < g.Rows() * (g.Columns() + 1)
    ensures var c := AdvanceAll(g, Cursor(0, 0), text[..n]);
            && (Scrolls(g, c, text[n]) <==> n + 1 == g.Rows() * (g.Columns() + 1))
            && (Scrolls(g, c, text[n]) ==> c.col > 0)
  {
    hide Scrolls, Advance, AdvanceAll, ScrollCount, Position;
    var t, l := g.Rows() - 1, g.Columns() + 1;
    assert text[..n + 1] == text[..n] + [text[n]];
    Schedule(g, text[..n]);
    Schedule(g, text[..n + 1]);
    AdvanceOneMore(g, Cursor(0, 0), text[..n], text[n]);
    AdvanceAllInBounds(g, Cursor(0, 0), text[..n]);
    CursorMoves(g, AdvanceAll(g, Cursor(0, 0), text[..n]), text[n]);
    if n + 1 == (t + 1) * l {
      HalfOf(0, l);
      DivModUnique(0, 0, 0, 2 * l);
    }
  }

  // ----- text with newlines

  /** How many characters have been written since the last newline. */
  function LineLength(text: seq<byte>): nat {
    if text == [] || text[|text| - 1] == NEWLINE then 0 else LineLength(text[..|text| - 1]) + 1
  }

  /** How many screen lines of `l` characters the lines before the last newline have taken. A line of `n`
      characters takes one more than n / l, even when it fills its last one. */
  function LinesTaken(text: seq<byte>, l: nat): nat
    requires l > 0
  {
    if text == [] then 0 else
    var before := text[..|text| - 1];
    LinesTaken(before, l) + if text[|text| - 1] == NEWLINE then LineLength(before) / l + 1 else 0
  }

  /** Where the text ends if it does not scroll. */
  function EndRow(text: seq<byte>, l: nat): nat
    requires l > 0
  {
    LinesTaken(text, l) + LineLength(text) / l
  }

  function EndColumn(text: seq<byte>, l: nat): nat
    requires l > 0
  {
    LineLength(text) % l
  }

  lemma EndMoves(text: seq<byte>, n: nat, l: nat)
    requires l > 0 && n < |text|
    ensures EndColumn(text[..n], l) < l
    ensures (EndRow(text[..n + 1], l), EndColumn(text[..n + 1], l)) ==
            if text[n] == NEWLINE || EndColumn(text[..n], l) == l - 1 then (EndRow(text[..n], l) + 1, 0)
            else (EndRow(text[..n], l), EndColumn(text[..n], l) + 1)
  {
    assert text[..n + 1][..n] == text[..n];
    DivModSucc(LineLength(text[..n]), l);
    DivModUnique(0, 0, 0, l);
  }

  lemma {:induction false} EndRowGrows(text: seq<byte>, i: nat, n: nat, l: nat)
    requires l > 0 && i <= n <= |text|
    ensures EndRow(text[..i], l) <= EndRow(text[..n], l)
  {
    hide EndRow, EndColumn;
    if i < n {
      EndRowGrows(text, i, n - 1, l);
      EndMoves(text, n - 1, l);
    }
  }

  lemma NothingWrittenYet(g: Geometry, l: nat)
    requires l > 0
    ensures EndRow([], l) == EndColumn([], l) == 0
    ensures AdvanceAll(g, Cursor(0, 0), []) == Cursor(0, 0) && ScrollCount(g, Cursor(0, 0), []) == 0
  {
    DivModUnique(0, 0, 0, l);
  }

  /** A text from home scrolls exactly if it takes more lines than there are, and otherwise leaves the
      cursor where it ends. */
  lemma {:induction false} NoScrollIff(g: Geometry, text: seq<byte>, n: nat)
    requires Sized(g) && !g.Degenerate() && g.Rows() >= 2 && n <= |text|
    ensures var l := g.Columns() + 1;
            && (ScrollCount(g, Cursor(0, 0), text[..n]) == 0 <==> EndRow(text[..n], l) < g.Rows())
            && (EndRow(text[..n], l) < g.Rows() ==>
                  AdvanceAll(g, Cursor(0, 0), text[..n]) == Cursor(EndRow(text[..n], l), EndColumn(text[..n], l)))
  {
    hide AdvanceAll, ScrollCount, Advance, Scrolls, EndRow, EndColumn, Geometry.Rows, Geometry.Columns;
    var l := g.Columns() + 1;
    NothingWrittenYet(g, l);
    if n == 0 {
      assert text[..0] == [];
    } else {
      var c := AdvanceAll(g, Cursor(0, 0), text[..n - 1]);
      assert text[..n] == text[..n - 1] + [text[n - 1]];
      NoScrollIff(g, text, n - 1);
      AdvanceOneMore(g, Cursor(0, 0), text[..n - 1], text[n - 1]);
      AdvanceAllInBounds(g, Cursor(0, 0), text[..n - 1]);
      EndMoves(text, n - 1, l);
      CursorMoves(g, c, text[n - 1]);
    }
  }

  /** The character stands at this place of the grid. */
  predicate StandsAt(grid: Grid, r: nat, c: nat, ch: byte) {
    r < |grid| && c < |grid[r]| && grid[r][c] == Glyph(ch)
  }

  /** Character `k` of the text belongs at this place: it is printable and the text before it ends there. */
  predicate BelongsAt(text: seq<byte>, columns: nat, k: nat, r: nat, c: nat) {
    && k < |text| && text[k] != NEWLINE
    && EndRow(text[..k], columns + 1) == r && EndColumn(text[..k], columns + 1) == c
  }

  /** Every printable character stands where it belongs, unless that is the extra column, and nothing else
      stands anywhere. */
  ghost predicate ShowsLines(g: Geometry, grid: Grid, text: seq<byte>)
    requires !g.Degenerate()
  {
    && (forall k: nat, r: nat, c: nat :: BelongsAt(text, g.Columns(), k, r, c) && c < g.Columns() ==>
          StandsAt(grid, r, c, text[k]))
    && (forall r: nat, c: nat :: HoldsGlyph(grid, r, c) ==> exists k: nat :: BelongsAt(text, g.Columns(), k, r, c))
  }

  lemma BelongsInPrefix(text: seq<byte>, columns: nat, n: nat, k: nat, r: nat, c: nat)
    requires n <= |text|
    ensures BelongsAt(text[..n], columns, k, r, c) <==> k < n && BelongsAt(text, columns, k, r, c)
  {
    if k < n {
      assert text[..n][..k] == text[..k];
    }
  }

  lemma NoScrollBefore(g: Geometry, text: seq<byte>, n: nat, i: nat)
    requires Sized(g) && !g.Degenerate() && g.Rows() >= 2 && i < n <= |text|
    requires EndRow(text[..n], g.Columns() + 1) < g.Rows()
    ensures !Scrolls(g, AdvanceAll(g, Cursor(0, 0), text[..i]), text[i])
  {
    hide AdvanceAll, ScrollCount, Advance, Scrolls, EndRow, EndColumn;
    assert text[..i + 1] == text[..i] + [text[i]];
    EndRowGrows(text, i + 1, n, g.Columns() + 1);
    NoScrollIff(g, text, i + 1);
    AdvanceOneMore(g, Cursor(0, 0), text[..i], text[i]);
  }

  /** Without a scroll, the next printable character goes to a blank cell. */
  lemma NextIsBlank(g: Geometry, text: seq<byte>, n: nat)
    requires Sized(g) && !g.Degenerate() && g.Rows() >= 2 && g.Columns() >= 1 && n < |text| && text[n] != NEWLINE
    requires EndRow(text[..n], g.Columns() + 1) < g.Rows()
    ensures var l := g.Columns() + 1;
            !HoldsGlyph(Screen(g, text, n).grid, EndRow(text[..n], l), EndColumn(text[..n], l))
  {
    hide AdvanceAll, Scrolls, EndRow, EndColumn, Put, Fits, HoldsGlyph, Screen;
    forall i | 0 <= i < n ensures !ScrollsOverText(g, text, i) {
      NoScrollBefore(g, text, n, i);
    }
    NothingOverwrittenUntil(g, text, n);
    ScreenNext(g, text, n);
    NoScrollIff(g, text, n);
  }

  /** The grid after one more character that does not scroll. */
  lemma GridNext(g: Geometry, text: seq<byte>, n: nat)
    requires Sized(g) && !g.Degenerate() && g.Rows() >= 2 && n < |text|
    requires EndRow(text[..n + 1], g.Columns() + 1) < g.Rows()
    ensures var grid, l := Screen(g, text, n).grid, g.Columns() + 1;
            && Fits(g, grid) && EndRow(text[..n], l) < g.Rows()
            && Screen(g, text, n + 1).grid ==
               if text[n] == NEWLINE then grid
               else PutCell(grid, EndRow(text[..n], l), EndColumn(text[..n], l), text[n])
  {
    hide AdvanceAll, Scrolls, Advance, EndRow, EndColumn, Screen, Fits, PutCell;
    EndRowGrows(text, n, n + 1, g.Columns() + 1);
    NoScrollBefore(g, text, n + 1, n);
    NoScrollIff(g, text, n);
    ScreenNext(g, text, n);
  }

  lemma PutCellStands(grid: Grid, row: nat, col: nat, ch: byte, r: nat, c: nat, ch': byte)
    ensures StandsAt(grid, r, c, ch') && !(r == row && c == col) ==> StandsAt(PutCell(grid, row, col, ch), r, c, ch')
    ensures row < |grid| && col < |grid[row]| ==> StandsAt(PutCell(grid, row, col, ch), row, col, ch)
    ensures HoldsGlyph(PutCell(grid, row, col, ch), r, c) ==> HoldsGlyph(grid, r, c) || (r == row && c == col)
  {}

  lemma StandingHolds(grid: Grid, r: nat, c: nat, ch: byte)
    ensures StandsAt(grid, r, c, ch) ==> HoldsGlyph(grid, r, c)
  {}

  /** With one more printable character, written to a blank cell, the screen shows one more. */
  lemma ShowsOneMore(g: Geometry, text: seq<byte>, n: nat, grid: Grid, row: nat, col: nat)
    requires !g.Degenerate() && n < |text| && Fits(g, grid) && ShowsLines(g, grid, text[..n])
    requires BelongsAt(text, g.Columns(), n, row, col)
    requires row < g.Rows() && (col < g.Columns() ==> !HoldsGlyph(grid, row, col))
    ensures ShowsLines(g, PutCell(grid, row, col, text[n]), text[..n + 1])
  {
    var w, before, after, grid' := g.Columns(), text[..n], text[..n + 1], PutCell(grid, row, col, text[n]);
    FitsRow(g, grid, row);
    hide Fits, PutCell, StandsAt, HoldsGlyph, BelongsAt, Geometry.Rows, Geometry.Columns;
    forall k: nat, r: nat, c: nat | BelongsAt(after, w, k, r, c) && c < w
      ensures k < |after| && StandsAt(grid', r, c, after[k])
    {
      BelongsInPrefix(text, w, n, k, r, c);
      BelongsInPrefix(text, w, n + 1, k, r, c);
      PutCellStands(grid, row, col, text[n], r, c, text[k]);
      StandingHolds(grid, r, c, text[k]);
      BelongsOnce(text, w, n, row, col, r, c);
    }
    forall r: nat, c: nat | HoldsGlyph(grid', r, c) ensures exists k: nat :: BelongsAt(after, w, k, r, c) {
      PutCellStands(grid, row, col, text[n], r, c, text[n]);
      if HoldsGlyph(grid, r, c) {
        var k: nat :| BelongsAt(before, w, k, r, c);
        BelongsInPrefix(text, w, n, k, r, c);
        BelongsInPrefix(text, w, n + 1, k, r, c);
      } else {
        BelongsInPrefix(text, w, n + 1, n, row, col);
      }
    }
    BelongsOnlyInside(after, w);
  }

  lemma BelongsOnlyInside(text: seq<byte>, columns: nat)
    ensures forall k: nat, r: nat, c: nat :: BelongsAt(text, columns, k, r, c) ==> k < |text|
  {}

  lemma BelongsOnce(text: seq<byte>, columns: nat, n: nat, row: nat, col: nat, r: nat, c: nat)
    requires BelongsAt(text, columns, n, row, col)
    ensures BelongsAt(text, columns, n, r, c) <==> r == row && c == col
  {}

  /** A text from home that does not scroll stands on the screen line by line, each line broken after
      `width + 1` characters of which the last is missing. */
  lemma {:induction false} LinesShow(g: Geometry, text: seq<byte>, n: nat)
    requires Sized(g) && !g.Degenerate() && g.Rows() >= 2 && n <= |text|
    requires EndRow(text[..n], g.Columns() + 1) < g.Rows()
    ensures ShowsLines(g, Screen(g, text, n).grid, text[..n])
  {
    hide EndRow, EndColumn, Screen, Fits, ShowsLines, PutCell, HoldsGlyph;
    if n == 0 {
      BlankShowsNoLines(g, text);
    } else {
      EndRowGrows(text, n - 1, n, g.Columns() + 1);
      LinesShow(g, text, n - 1);
      GridNext(g, text, n - 1);
      var grid := Screen(g, text, n - 1).grid;
      if text[n - 1] == NEWLINE {
        ShowsNewline(g, text, n - 1, grid);
      } else {
        var l := g.Columns() + 1;
        if g.Columns() >= 1 {
          NextIsBlank(g, text, n - 1);
        }
        ShowsOneMore(g, text, n - 1, grid, EndRow(text[..n - 1], l), EndColumn(text[..n - 1], l));
      }
    }
  }

  lemma BlankShowsNoLines(g: Geometry, text: seq<byte>)
    requires Sized(g) && !g.Degenerate() && g.Rows() >= 2
    ensures ShowsLines(g, Screen(g, text, 0).grid, text[..0])
  {
    hide EndRow, EndColumn, Geometry.Rows, Geometry.Columns;
    assert text[..0] == [];
    PutNothing(g, Text(Cursor(0, 0), BlankGrid(g)));
    hide PutAll;
  }

  lemma ShowsNewline(g: Geometry, text: seq<byte>, n: nat, grid: Grid)
    requires !g.Degenerate() && n < |text| && text[n] == NEWLINE && ShowsLines(g, grid, text[..n])
    ensures ShowsLines(g, grid, text[..n + 1])
  {
    var w, before, after := g.Columns(), text[..n], text[..n + 1];
    BelongsOnlyInside(after, w);
    NothingBelongsAtNewline(text, w, n);
    hide StandsAt, HoldsGlyph, BelongsAt, Geometry.Columns;
    forall k: nat, r: nat, c: nat ensures BelongsAt(after, w, k, r, c) <==> BelongsAt(before, w, k, r, c) {
      BelongsInPrefix(text, w, n, k, r, c);
      BelongsInPrefix(text, w, n + 1, k, r, c);
    }
  }

  lemma NothingBelongsAtNewline(text: seq<byte>, columns: nat, n: nat)
    requires n < |text| && text[n] == NEWLINE
    ensures forall r: nat, c: nat :: !BelongsAt(text, columns, n, r, c)
  {}
}
