/** The terminal driver over the framebuffer: it draws each character into its cell of pixels,
    scrolls by moving pixels, and keeps the cursor. Its pixels are proved to show the text grid of
    TerminalModel for as long as no character is drawn past the end of a pixel row. */
module Terminal {
  import opened Arith
  import opened Words
  import opened Framebuffer
  import opened TerminalModel

  /** The cell of a pixel and the place within it. */
  lemma CellOfPixel(x: nat, cell: nat, size: nat)
    requires size > 0
    ensures x / size == cell <==> cell * size <= x < (cell + 1) * size
    ensures x / size == cell ==> x % size == x - cell * size
  {
    assert x == x / size * size + x % size;
    MulDistributes(cell, 1, size);
    if cell * size <= x < (cell + 1) * size {
      DivModUnique(x, cell, x - cell * size, size);
    }
  }

  lemma NextCell(y: nat, size: nat)
    requires size > 0
    ensures (y + size) / size == y / size + 1 && (y + size) % size == y % size
  {
    ModStep(y + size, size);
  }

  /** Drawing in the extra column stays off the grid exactly when pixel rows have room for it. When
      they have not, its pixels run over into the first column, one pixel row further down. */
  lemma ExtraColumnIsOffGridIff(g: Geometry, stride: nat)
    requires !g.Degenerate() && g.Columns() >= 1 && g.Rows() >= 2 && g.width <= stride
    ensures (forall x: nat, y: nat, x': nat, y': nat ::
               g.Columns() * g.charWidth <= x < (g.Columns() + 1) * g.charWidth && x' < g.Columns() * g.charWidth ==>
               Index(stride, x, y) != Index(stride, x', y'))
       <==> (g.Columns() + 1) * g.charWidth <= stride
  {
    var w, edge := g.Columns() * g.charWidth, (g.Columns() + 1) * g.charWidth;
    MulDistributes(g.Columns(), 1, g.charWidth);
    MulMono(1, g.Columns(), g.charWidth);
    assert g.width == w + g.width % g.charWidth;
    if edge <= stride {
      forall x: nat, y: nat, x': nat, y': nat | w <= x < edge && x' < w
        ensures Index(stride, x, y) != Index(stride, x', y')
      {
        IndexInjective(stride, x, y, x', y');
      }
    } else {
      assert edge - 1 - stride < w;
      assert Index(stride, edge - 1, 0) == Index(stride, edge - 1 - stride, 1);
    }
  }

  class Tty {
    var row: u64
    var col: u64
    const fb: Screen?
    const charWidth: nat
    const charHeight: nat
    const fg: u32
    const bg: u32
    /** Whether pixel (x, y) of a character's glyph is set. */
    const glyph: (byte, nat, nat) -> bool
    /** The text that the screen should show. */
    ghost var grid: Grid

    /** Starts with the cursor at home; a cleared screen shows the blank grid. */
    constructor (fb: Screen?, charWidth: nat, charHeight: nat, fg: u32, bg: u32, glyph: (byte, nat, nat) -> bool)
      requires fb != null ==> fb.Valid() && Sized(Geometry(fb.width, fb.height, charWidth, charHeight))
      ensures this.fb == fb && this.charWidth == charWidth && this.charHeight == charHeight
      ensures this.fg == fg && this.bg == bg && this.glyph == glyph
      ensures Valid() && At() == Cursor(0, 0)
      ensures fb != null && !Sizes().Degenerate() ==> grid == BlankGrid(Sizes())
      ensures fb != null && (forall x: nat, y: nat :: fb.Has(x, y) && x < fb.width ==> fb.Pixel(x, y) == bg) ==>
                Showing()
    {
      this.fb, this.charWidth, this.charHeight := fb, charWidth, charHeight;
      this.fg, this.bg, this.glyph := fg, bg, glyph;
      row, col := 0, 0;
      if fb == null {
        grid := [];
      } else {
        var g := Geometry(fb.width, fb.height, charWidth, charHeight);
        grid := if g.Degenerate() then [] else BlankGrid(g);
      }
      new;
      if fb != null && !Sizes().Degenerate() &&
         forall x: nat, y: nat :: fb.Has(x, y) && x < fb.width ==> fb.Pixel(x, y) == bg
      {
        BlankShows();
      }
    }

    function Sizes(): Geometry
      requires fb != null
    {
      Geometry(fb.width, fb.height, charWidth, charHeight)
    }

    function At(): Cursor
      reads this
    {
      Cursor(row, col)
    }

    /** The colour of pixel (x, y) of a cell. */
    function CellColor(c: Cell, x: nat, y: nat): u32 {
      match c
      case Blank => bg
      case Glyph(ch) => if glyph(ch, x, y) then fg else bg
    }

    /** The colour that a text grid asks for at pixel (x, y). */
    function Expected(grid: Grid, x: nat, y: nat): u32
      requires charWidth > 0 && charHeight > 0
    {
      var r, c := y / charHeight, x / charWidth;
      if r < |grid| && c < |grid[r]| then CellColor(grid[r][c], x % charWidth, y % charHeight) else 0
    }

    /** (x, y) belongs to a cell of the grid. */
    predicate OnGrid(x: nat, y: nat)
      requires fb != null && !Sizes().Degenerate()
    {
      x < Left(Sizes().Columns()) && y < Top(Sizes().Rows())
    }

    /** In this buffer every pixel of every cell has the colour that the grid asks for. */
    ghost predicate Shows(buffer: seq<u32>, grid: Grid)
      requires fb != null && |buffer| == fb.height * fb.Stride() && !Sizes().Degenerate()
    {
      forall x: nat, y: nat :: OnGrid(x, y) && fb.Has(x, y) ==> fb.PixelIn(buffer, x, y) == Expected(grid, x, y)
    }

    ghost predicate Valid()
      reads this
    {
      fb != null ==> fb.Valid() && Sized(Sizes()) && (!Sizes().Degenerate() ==> Fits(Sizes(), grid))
    }

    /** The pixels show the text. */
    ghost predicate Showing()
      requires Valid()
      reads this, if fb != null then {fb.address} else {}
    {
      fb != null && !Sizes().Degenerate() ==> Shows(fb.address[..], grid)
    }

    lemma BlankShows()
      requires fb != null && fb.Valid() && !Sizes().Degenerate()
      requires forall x: nat, y: nat :: fb.Has(x, y) && x < fb.width ==> fb.Pixel(x, y) == bg
      ensures Shows(fb.address[..], BlankGrid(Sizes()))
    {
      forall x: nat, y: nat | OnGrid(x, y) && fb.Has(x, y)
        ensures fb.Pixel(x, y) == Expected(BlankGrid(Sizes()), x, y)
      {
        hide OnGrid, Expected;
        CellsWithin(x, y);
        ExpectedBlank(x, y);
        assert fb.Pixel(x, y) == bg;
      }
    }

    lemma ExpectedBlank(x: nat, y: nat)
      requires fb != null && !Sizes().Degenerate() && OnGrid(x, y)
      ensures Expected(BlankGrid(Sizes()), x, y) == bg
    {
      hide Expected, OnGrid;
      BlankShowsNothing(Sizes());
      ExpectedOnGrid(BlankGrid(Sizes()), x, y);
    }

    /** A pixel of the grid is visible and belongs to a cell of it. */
    lemma CellsWithin(x: nat, y: nat)
      requires fb != null && !Sizes().Degenerate() && OnGrid(x, y)
      ensures x < fb.width && y < fb.height
      ensures x / charWidth < Sizes().Columns() && y / charHeight < Sizes().Rows()
    {
      DivBelow(x, Sizes().Columns(), charWidth);
      DivBelow(y, Sizes().Rows(), charHeight);
      assert fb.width == fb.width / charWidth * charWidth + fb.width % charWidth;
      assert fb.height == fb.height / charHeight * charHeight + fb.height % charHeight;
    }

    // ----- drawing

    /** The first pixel column of a character column, and the first pixel row of a text row. */
    function Left(column: nat): nat { column * charWidth }
    function Top(line: nat): nat { line * charHeight }

    predicate InCell(x: nat, y: nat, column: nat, line: nat) {
      Left(column) <= x < Left(column + 1) && Top(line) <= y < Top(line + 1)
    }

    lemma NextLeftTop(column: nat, line: nat)
      ensures Left(column + 1) == Left(column) + charWidth
      ensures Top(line + 1) == Top(line) + charHeight
    {
      MulDistributes(column, 1, charWidth);
      MulDistributes(line, 1, charHeight);
    }

    lemma LeftTopMono(column: nat, column': nat, line: nat, line': nat)
      ensures column <= column' ==> Left(column) <= Left(column')
      ensures line <= line' ==> Top(line) <= Top(line')
    {
      if column <= column' { MulMono(column, column', charWidth); }
      if line <= line' { MulMono(line, line', charHeight); }
    }

    lemma InCellIff(x: nat, y: nat, column: nat, line: nat)
      requires charWidth > 0 && charHeight > 0
      ensures InCell(x, y, column, line) <==> x / charWidth == column && y / charHeight == line
      ensures InCell(x, y, column, line) ==>
                x % charWidth == x - Left(column) && y % charHeight == y - Top(line)
    {
      CellOfPixel(x, column, charWidth);
      CellOfPixel(y, line, charHeight);
    }

    lemma ExpectedOnGrid(grid: Grid, x: nat, y: nat)
      requires fb != null && !Sizes().Degenerate() && Fits(Sizes(), grid) && OnGrid(x, y)
      ensures y / charHeight < |grid| && x / charWidth < |grid[y / charHeight]|
      ensures Expected(grid, x, y) == CellColor(grid[y / charHeight][x / charWidth], x % charWidth, y % charHeight)
    {
      hide CellColor, OnGrid;
      CellsWithin(x, y);
      FitsRow(Sizes(), grid, y / charHeight);
    }

    lemma DrawnPixel(grid: Grid, row: nat, col: nat, c: byte, x: nat, y: nat, before: u32, after: u32)
      requires fb != null && !Sizes().Degenerate() && Fits(Sizes(), grid) && OnGrid(x, y)
      requires before == Expected(grid, x, y)
      requires after == if InCell(x, y, col, row)
                        then CellColor(Glyph(c), x - Left(col), y - Top(row)) else before
      ensures after == Expected(PutCell(grid, row, col, c), x, y)
    {
      hide Expected, CellColor, OnGrid, InCell, Fits, Left, Top, PutCell;
      PutCellFits(Sizes(), grid, row, col, c);
      ExpectedOnGrid(grid, x, y);
      ExpectedOnGrid(PutCell(grid, row, col, c), x, y);
      PutCellAt(grid, row, col, c, y / charHeight, x / charWidth);
      InCellIff(x, y, col, row);
    }

    /** Drawing a character into its cell of pixels puts it into its cell of the grid. A character
        drawn right of the last column is not on the grid. */
    lemma DrawnShows(before: seq<u32>, after: seq<u32>, grid: Grid, row: nat, col: nat, c: byte)
      requires fb != null && |before| == |after| == fb.height * fb.Stride() && !Sizes().Degenerate()
      requires Fits(Sizes(), grid) && Shows(before, grid)
      requires forall x: nat, y: nat :: fb.Has(x, y) ==>
                 fb.PixelIn(after, x, y) == if InCell(x, y, col, row)
                                            then CellColor(Glyph(c), x - Left(col), y - Top(row))
                                            else fb.PixelIn(before, x, y)
      ensures Shows(after, PutCell(grid, row, col, c))
    {
      forall x: nat, y: nat | OnGrid(x, y) && fb.Has(x, y)
        ensures fb.PixelIn(after, x, y) == Expected(PutCell(grid, row, col, c), x, y)
      {
        DrawnPixel(grid, row, col, c, x, y, fb.PixelIn(before, x, y), fb.PixelIn(after, x, y));
      }
    }

    /** A pixel of the grid is in the last text row, or the pixel one text row below it is on the
        grid too and belongs to the next row. */
    lemma RowBelow(x: nat, y: nat)
      requires fb != null && !Sizes().Degenerate() && OnGrid(x, y) && Sizes().Rows() > 0
      ensures var last := Sizes().Rows() - 1;
              if Top(last) <= y < Top(last + 1) then y / charHeight == last
              else
                && y / charHeight < last
                && OnGrid(x, y + charHeight) && y + charHeight < fb.height
                && (y + charHeight) / charHeight == y / charHeight + 1
                && (y + charHeight) % charHeight == y % charHeight
    {
      var last := Sizes().Rows() - 1;
      CellsWithin(x, y);
      NextLeftTop(0, last);
      DivBelow(y, last, charHeight);
      NextCell(y, charHeight);
      if y / charHeight < last {
        CellsWithin(x, y + charHeight);
      }
    }

    lemma ScrolledPixel(grid: Grid, x: nat, y: nat)
      requires fb != null && !Sizes().Degenerate() && Fits(Sizes(), grid) && OnGrid(x, y) && |grid| > 0
      ensures var last := Sizes().Rows() - 1;
              Expected(ScrollGrid(grid, Sizes().Columns()), x, y) ==
              if Top(last) <= y < Top(last + 1) then bg else Expected(grid, x, y + charHeight)
    {
      hide Top, Left, ScrollGrid;
      CellsWithin(x, y);
      RowBelow(x, y);
      ScrollGridRow(Sizes(), grid, y / charHeight);
    }

    /** The colour of pixel (x, y) after the picture has moved up by one text row and row `line` has
        been blanked. */
    function ScrolledColor(before: seq<u32>, line: nat, x: nat, y: nat): u32
      requires fb != null && |before| == fb.height * fb.Stride() && fb.Has(x, y)
    {
      if x < fb.width && Top(line) <= y < Top(line + 1) then bg
      else if x < fb.width && y + charHeight < fb.height then fb.PixelIn(before, x, y + charHeight)
      else fb.PixelIn(before, x, y)
    }

    ghost predicate PictureScrolled(before: seq<u32>, after: seq<u32>, line: nat)
      requires fb != null && |before| == |after| == fb.height * fb.Stride()
    {
      forall x: nat, y: nat :: fb.Has(x, y) ==> fb.PixelIn(after, x, y) == ScrolledColor(before, line, x, y)
    }

    lemma ShowsAt(buffer: seq<u32>, grid: Grid, x: nat, y: nat)
      requires fb != null && |buffer| == fb.height * fb.Stride() && !Sizes().Degenerate()
      requires Shows(buffer, grid) && OnGrid(x, y) && fb.Has(x, y)
      ensures fb.PixelIn(buffer, x, y) == Expected(grid, x, y)
    {}

    lemma PictureScrolledAt(before: seq<u32>, after: seq<u32>, line: nat, x: nat, y: nat)
      requires fb != null && |before| == |after| == fb.height * fb.Stride() && PictureScrolled(before, after, line)
      requires fb.Has(x, y)
      ensures fb.PixelIn(after, x, y) == ScrolledColor(before, line, x, y)
    {}

    lemma ColorFromBelow(before: seq<u32>, line: nat, x: nat, y: nat)
      requires fb != null && |before| == fb.height * fb.Stride() && fb.Has(x, y) && x < fb.width
      ensures Top(line) <= y < Top(line + 1) ==> ScrolledColor(before, line, x, y) == bg
      ensures !(Top(line) <= y < Top(line + 1)) && y + charHeight < fb.height ==>
                fb.Has(x, y + charHeight) && ScrolledColor(before, line, x, y) == fb.PixelIn(before, x, y + charHeight)
    {}

    lemma ScrolledShowsAt(before: seq<u32>, after: seq<u32>, grid: Grid, last: nat, x: nat, y: nat)
      requires fb != null && |before| == |after| == fb.height * fb.Stride() && !Sizes().Degenerate()
      requires Fits(Sizes(), grid) && Shows(before, grid) && |grid| > 0
      requires charHeight > 0 && last + 1 == Sizes().Rows() && PictureScrolled(before, after, last)
      requires OnGrid(x, y) && fb.Has(x, y)
      ensures fb.PixelIn(after, x, y) == Expected(ScrollGrid(grid, Sizes().Columns()), x, y)
    {
      hide *;
      CellsWithin(x, y);
      RowBelow(x, y);
      ScrolledPixel(grid, x, y);
      PictureScrolledAt(before, after, last, x, y);
      ColorFromBelow(before, last, x, y);
      if !(Top(last) <= y < Top(last + 1)) {
        ShowsAt(before, grid, x, y + charHeight);
      }
    }

    /** Scrolling the picture scrolls the grid. */
    lemma ScrolledShows(before: seq<u32>, after: seq<u32>, grid: Grid)
      requires fb != null && |before| == |after| == fb.height * fb.Stride() && !Sizes().Degenerate()
      requires fb.width <= fb.Stride() && Fits(Sizes(), grid) && Shows(before, grid) && |grid| > 0
      requires PictureScrolled(before, after, Sizes().Rows() - 1)
      ensures Shows(after, ScrollGrid(grid, Sizes().Columns()))
    {
      forall x: nat, y: nat | OnGrid(x, y) && fb.Has(x, y)
        ensures fb.PixelIn(after, x, y) == Expected(ScrollGrid(grid, Sizes().Columns()), x, y)
      {
        ScrolledShowsAt(before, after, grid, Sizes().Rows() - 1, x, y);
      }
    }

    // ----- one character

    /** The place in the buffer of pixel (cx, cy) of the cell in column `x` of row `y`. */
    function CellIndex(x: nat, y: nat, cx: nat, cy: nat): nat
      requires fb != null
    {
      Index(fb.Stride(), Left(x) + cx, Top(y) + cy)
    }

    lemma CellIndexInjective(x: nat, y: nat, cx: nat, cy: nat, cx': nat, cy': nat)
      requires fb != null && cx < charWidth <= fb.Stride() && cx' < charWidth
      ensures CellIndex(x, y, cx, cy) == CellIndex(x, y, cx', cy') <==> cx == cx' && cy == cy'
    {
      MulDistributes(Top(y), cy, fb.Stride());
      MulDistributes(Top(y), cy', fb.Stride());
      IndexInjective(fb.Stride(), cx, cy, cx', cy');
    }

    lemma CellIndexBelowLast(x: nat, y: nat, cx: nat, cy: nat)
      requires fb != null && cx < charWidth && cy < charHeight
      ensures CellIndex(x, y, cx, cy) <= CellIndex(x, y, charWidth - 1, charHeight - 1)
    {
      MulMono(Top(y) + cy, Top(y) + charHeight - 1, fb.Stride());
    }

    /** Every pixel of the cell is in the buffer, though perhaps not in its own pixel row. */
    predicate CellInBuffer(x: nat, y: nat)
      requires fb != null
    {
      charWidth == 0 || charHeight == 0 || CellIndex(x, y, charWidth - 1, charHeight - 1) < fb.address.Length
    }

    /** Drawing row by row has come to pixel (cx, cy) of the cell. */
    predicate Reached(cx: nat, cy: nat, column: nat, line: nat) { cy < line || (cy == line && cx < column) }

    /** A pixel drawn after (cx, cy) has gone to the same place, as happens when a glyph is wider than a
        pixel row of the buffer. */
    ghost predicate Overdrawn(x: nat, y: nat, cx: nat, cy: nat, column: nat, line: nat)
      requires fb != null
    {
      exists cx': nat, cy': nat ::
        && cx' < charWidth && cy' < charHeight && Reached(cx, cy, cx', cy') && Reached(cx', cy', column, line)
        && CellIndex(x, y, cx', cy') == CellIndex(x, y, cx, cy)
    }

    /** Of the glyph of `c`, drawn in column `x` of row `y`, the pixels up to (column, line) are in the
        buffer, where two go to one place the later one, and nothing else has changed. */
    ghost predicate DrawnUpTo(before: seq<u32>, after: seq<u32>, c: byte, x: nat, y: nat, column: nat, line: nat)
      requires fb != null
    {
      && |before| == |after|
      && (forall cx: nat, cy: nat :: cx < charWidth && cy < charHeight && Reached(cx, cy, column, line) ==>
            && CellIndex(x, y, cx, cy) < |after|
            && (!Overdrawn(x, y, cx, cy, column, line) ==>
                  after[CellIndex(x, y, cx, cy)] == CellColor(Glyph(c), cx, cy)))
      && (forall i :: 0 <= i < |after| && Untouched(x, y, i, column, line) ==> after[i] == before[i])
    }

    ghost predicate Untouched(x: nat, y: nat, i: nat, column: nat, line: nat)
      requires fb != null
    {
      forall cx: nat, cy: nat :: cx < charWidth && cy < charHeight && Reached(cx, cy, column, line) ==>
        CellIndex(x, y, cx, cy) != i
    }

    lemma DrawOnePixel(before: seq<u32>, after: seq<u32>, c: byte, x: nat, y: nat, column: nat, line: nat)
      requires fb != null && column < charWidth && line < charHeight
      requires CellIndex(x, y, column, line) < |after| && DrawnUpTo(before, after, c, x, y, column, line)
      ensures DrawnUpTo(before, after[CellIndex(x, y, column, line) := CellColor(Glyph(c), column, line)],
                        c, x, y, column + 1, line)
    {
      hide CellIndex, CellColor;
      var index := CellIndex(x, y, column, line);
      var after' := after[index := CellColor(Glyph(c), column, line)];
      forall cx: nat, cy: nat | cx < charWidth && cy < charHeight && Reached(cx, cy, column + 1, line)
        ensures CellIndex(x, y, cx, cy) < |after'|
        ensures !Overdrawn(x, y, cx, cy, column + 1, line) ==>
                  after'[CellIndex(x, y, cx, cy)] == CellColor(Glyph(c), cx, cy)
      {
        if !Overdrawn(x, y, cx, cy, column + 1, line) && !(cx == column && cy == line) {
          assert Reached(cx, cy, column, line) && Reached(column, line, column + 1, line);
          assert !Overdrawn(x, y, cx, cy, column, line);
        }
      }
      forall i | 0 <= i < |after'| && Untouched(x, y, i, column + 1, line) ensures after'[i] == before[i] {
        assert Reached(column, line, column + 1, line);
        forall cx: nat, cy: nat | cx < charWidth && cy < charHeight && Reached(cx, cy, column, line)
          ensures CellIndex(x, y, cx, cy) != i
        {
          assert Reached(cx, cy, column + 1, line);
        }
        assert Untouched(x, y, i, column, line);
      }
    }

    lemma NextLine(before: seq<u32>, after: seq<u32>, c: byte, x: nat, y: nat, line: nat)
      requires fb != null && DrawnUpTo(before, after, c, x, y, charWidth, line)
      ensures DrawnUpTo(before, after, c, x, y, 0, line + 1)
    {
      hide CellIndex, CellColor;
      forall cx: nat, cy: nat | cx < charWidth
        ensures Reached(cx, cy, charWidth, line) <==> Reached(cx, cy, 0, line + 1)
      {}
      forall i: nat ensures Untouched(x, y, i, charWidth, line) <==> Untouched(x, y, i, 0, line + 1) {}
      forall cx: nat, cy: nat
        ensures Overdrawn(x, y, cx, cy, charWidth, line) <==> Overdrawn(x, y, cx, cy, 0, line + 1)
      {}
    }

    /** The whole glyph of `c` is drawn in column `x` of row `y`, and nothing else has changed. */
    ghost predicate GlyphDrawn(before: seq<u32>, after: seq<u32>, c: byte, x: nat, y: nat)
      requires fb != null
    {
      DrawnUpTo(before, after, c, x, y, 0, charHeight)
    }

    lemma DrawnColor(before: seq<u32>, after: seq<u32>, c: byte, x: nat, y: nat, cx: nat, cy: nat)
      requires fb != null && GlyphDrawn(before, after, c, x, y) && cx < charWidth <= fb.Stride() && cy < charHeight
      ensures CellIndex(x, y, cx, cy) < |after| && after[CellIndex(x, y, cx, cy)] == CellColor(Glyph(c), cx, cy)
    {
      hide CellIndex, CellColor;
      assert Reached(cx, cy, 0, charHeight);
      forall cx': nat, cy': nat | cx' < charWidth && cy' < charHeight && Reached(cx, cy, cx', cy')
        ensures CellIndex(x, y, cx', cy') != CellIndex(x, y, cx, cy)
      {
        CellIndexInjective(x, y, cx, cy, cx', cy');
      }
      assert !Overdrawn(x, y, cx, cy, 0, charHeight);
    }

    /** A glyph whose pixel rows have room for it changes the pixels of its cell and no others. */
    lemma GlyphPixel(before: seq<u32>, after: seq<u32>, c: byte, x: nat, y: nat, x': nat, y': nat)
      requires fb != null && |before| == |after| == fb.height * fb.Stride()
      requires Left(x + 1) <= fb.Stride() && Top(y + 1) <= fb.height && fb.Has(x', y')
      requires GlyphDrawn(before, after, c, x, y)
      ensures fb.PixelIn(after, x', y') == if InCell(x', y', x, y)
                                           then CellColor(Glyph(c), x' - Left(x), y' - Top(y))
                                           else fb.PixelIn(before, x', y')
    {
      hide Left, Top, CellColor;
      NextLeftTop(x, y);
      IndexBelow(fb.Stride(), x', y', fb.height);
      if InCell(x', y', x, y) {
        var cx, cy := x' - Left(x), y' - Top(y);
        DrawnColor(before, after, c, x, y, cx, cy);
        assert CellIndex(x, y, cx, cy) == Index(fb.Stride(), x', y');
      } else {
        forall cx: nat, cy: nat | cx < charWidth && cy < charHeight
          ensures CellIndex(x, y, cx, cy) != Index(fb.Stride(), x', y')
        {
          IndexInjective(fb.Stride(), Left(x) + cx, Top(y) + cy, x', y');
        }
        assert Untouched(x, y, Index(fb.Stride(), x', y'), 0, charHeight);
      }
    }

    lemma GlyphShows(before: seq<u32>, after: seq<u32>, grid: Grid, c: byte, x: nat, y: nat)
      requires fb != null && |before| == |after| == fb.height * fb.Stride() && !Sizes().Degenerate()
      requires Left(x + 1) <= fb.Stride() && Top(y + 1) <= fb.height && GlyphDrawn(before, after, c, x, y)
      requires Fits(Sizes(), grid) && Shows(before, grid)
      ensures Shows(after, PutCell(grid, y, x, c))
    {
      hide Left, Top, CellColor, GlyphDrawn, Shows, Fits, PutCell;
      forall x': nat, y': nat | fb.Has(x', y')
        ensures fb.PixelIn(after, x', y') == if InCell(x', y', x, y)
                                             then CellColor(Glyph(c), x' - Left(x), y' - Top(y))
                                             else fb.PixelIn(before, x', y')
      {
        GlyphPixel(before, after, c, x, y, x', y');
      }
      DrawnShows(before, after, grid, y, x, c);
    }

    lemma LastIndexBelow(edge: nat, bottom: nat, height: nat, stride: nat)
      requires 1 <= edge <= 2 * stride && 1 <= bottom <= height
      ensures Index(stride, edge - 1, bottom - 1) < height * stride <==> edge <= stride || bottom < height
    {
      MulDistributes(bottom, 1, stride);
      MulDistributes(bottom, -1, stride);
      if bottom < height {
        MulMono(bottom + 1, height, stride);
      }
    }

    /** The place in the buffer of a pixel of a cell, counting the cells to the left of it and above it. */
    function PlaceOf(column: nat, line: nat, cx: nat, cy: nat): nat
      requires fb != null
    {
      (column * charWidth + cx) + (line * charHeight + cy) * (fb.pitch / 4)
    }

    /** A drawn character sets pixel (cx, cy) of its cell to the foreground colour if its glyph has it and
        to the background colour otherwise. */
    lemma GlyphInPixels(before: seq<u32>, after: seq<u32>, c: byte, column: nat, line: nat, cx: nat, cy: nat)
      requires fb != null && GlyphDrawn(before, after, c, column, line)
      requires cx < charWidth <= fb.pitch / 4 && cy < charHeight
      ensures PlaceOf(column, line, cx, cy) < |after|
      ensures after[PlaceOf(column, line, cx, cy)] == if glyph(c, cx, cy) then fg else bg
    {
      DrawnColor(before, after, c, column, line, cx, cy);
    }

    /** A buffer that shows a text has the glyph of the character of each cell there, and background in a
        blank cell. */
    lemma ShownInPixels(buffer: seq<u32>, grid: Grid, column: nat, line: nat, cx: nat, cy: nat)
      requires fb != null && fb.Valid() && |buffer| == fb.height * fb.Stride() && !Sizes().Degenerate()
      requires Fits(Sizes(), grid) && Shows(buffer, grid)
      requires (column + 1) * charWidth <= fb.width && (line + 1) * charHeight <= fb.height
      requires cx < charWidth && cy < charHeight
      ensures line < |grid| && column < |grid[line]|
      ensures PlaceOf(column, line, cx, cy) < |buffer|
      ensures buffer[PlaceOf(column, line, cx, cy)] ==
              match grid[line][column]
              case Blank => bg
              case Glyph(ch) => if glyph(ch, cx, cy) then fg else bg
    {
      var x, y := column * charWidth + cx, line * charHeight + cy;
      CellsInPixels(Sizes(), column);
      CellsInPixels(Sizes(), line);
      FitsRow(Sizes(), grid, line);
      NextLeftTop(column, line);
      InCellIff(x, y, column, line);
      LeftTopMono(column + 1, Sizes().Columns(), line + 1, Sizes().Rows());
      CellsWithin(x, y);
      ExpectedOnGrid(grid, x, y);
      IndexBelow(fb.Stride(), x, y, fb.height);
      assert fb.PixelIn(buffer, x, y) == Expected(grid, x, y);
    }

    /** The last cell that the terminal draws in, the extra one of the last row, lies within the buffer
        exactly when pixel rows have room for the extra column or there are pixel rows left over below
        the text. */
    lemma LastCellInBufferIff()
      requires fb != null && fb.Valid() && !Sizes().Degenerate() && Sizes().Columns() >= 1 && Sizes().Rows() >= 1
      ensures CellInBuffer(Sizes().Columns(), Sizes().Rows() - 1) <==>
              Left(Sizes().Columns() + 1) <= fb.Stride() || Top(Sizes().Rows()) < fb.height
    {
      var w, rows := Sizes().Columns(), Sizes().Rows();
      NextLeftTop(w, rows - 1);
      NextLeftTop(0, 0);
      LeftTopMono(1, w, 1, rows);
      LastColumnInside();
      LastTextRowInside();
      hide Left, Top, Index;
      LastIndexBelow(Left(w + 1), Top(rows), fb.height, fb.Stride());
    }

    /** Pixel (cx, cy) of a character drawn in the extra column of text row `row` lies past the end of its
        pixel row, and so in the grid, at the start of the next pixel row. */
    predicate Strays(row: nat, cx: nat, cy: nat)
      requires fb != null && !Sizes().Degenerate()
    {
      && cx < charWidth && cy < charHeight && fb.Stride() <= Left(Sizes().Columns()) + cx
      && OnGrid(Left(Sizes().Columns()) + cx - fb.Stride(), Top(row) + cy + 1)
    }

    lemma StrayIndex(row: nat, cx: nat, cy: nat)
      requires fb != null && fb.Valid() && !Sizes().Degenerate() && Strays(row, cx, cy)
      ensures var x, y := Left(Sizes().Columns()) + cx - fb.Stride(), Top(row) + cy + 1;
              fb.Has(x, y) && CellIndex(Sizes().Columns(), row, cx, cy) == Index(fb.Stride(), x, y)
    {
      CellsWithin(Left(Sizes().Columns()) + cx - fb.Stride(), Top(row) + cy + 1);
      hide Left, Top, OnGrid;
      MulDistributes(Top(row) + cy, 1, fb.Stride());
    }

    /** A pixel of the grid that drawing in the extra column reaches is such a stray one. */
    lemma OnlyStraysHitGrid(row: nat, cx: nat, cy: nat, x: nat, y: nat)
      requires fb != null && fb.Valid() && !Sizes().Degenerate() && OnGrid(x, y) && cx < charWidth <= fb.Stride()
      requires cy < charHeight && CellIndex(Sizes().Columns(), row, cx, cy) == Index(fb.Stride(), x, y)
      ensures Strays(row, cx, cy) && x == Left(Sizes().Columns()) + cx - fb.Stride() && y == Top(row) + cy + 1
    {
      CellsWithin(x, y);
      LastColumnInside();
      var left := Left(Sizes().Columns()) + cx;
      assert x < Left(Sizes().Columns());
      hide Left, Top, Index;
      if left < fb.Stride() {
        IndexInjective(fb.Stride(), left, Top(row) + cy, x, y);
      } else {
        IndexWraps(left, Top(row) + cy);
        IndexInjective(fb.Stride(), left - fb.Stride(), Top(row) + cy + 1, x, y);
      }
    }

    lemma IndexWraps(x: nat, y: nat)
      requires fb != null && fb.Stride() <= x
      ensures Index(fb.Stride(), x, y) == Index(fb.Stride(), x - fb.Stride(), y + 1)
    {
      MulDistributes(y, 1, fb.Stride());
    }

    lemma NotDrawn(before: seq<u32>, after: seq<u32>, c: byte, x: nat, y: nat, i: nat)
      requires fb != null && GlyphDrawn(before, after, c, x, y) && i < |after|
      requires forall cx: nat, cy: nat :: cx < charWidth && cy < charHeight ==> CellIndex(x, y, cx, cy) != i
      ensures |before| == |after| && after[i] == before[i]
    {
      hide CellIndex, CellColor;
      assert Untouched(x, y, i, 0, charHeight);
    }

    /** A stray pixel has the colour that the grid asks for where it lands. */
    predicate StrayMatches(grid: Grid, c: byte, row: nat, cx: nat, cy: nat)
      requires fb != null && !Sizes().Degenerate() && Strays(row, cx, cy)
    {
      CellColor(Glyph(c), cx, cy) == Expected(grid, Left(Sizes().Columns()) + cx - fb.Stride(), Top(row) + cy + 1)
    }

    ghost predicate StraysMatch(grid: Grid, c: byte, row: nat)
      requires fb != null && !Sizes().Degenerate()
    {
      forall cx: nat, cy: nat :: Strays(row, cx, cy) ==> StrayMatches(grid, c, row, cx, cy)
    }

    lemma ShownStraysMatch(before: seq<u32>, after: seq<u32>, grid: Grid, c: byte, row: nat)
      requires fb != null && fb.Valid() && |before| == |after| == fb.height * fb.Stride() && !Sizes().Degenerate()
      requires GlyphDrawn(before, after, c, Sizes().Columns(), row) && Shows(after, grid)
      ensures StraysMatch(grid, c, row)
    {
      hide CellColor, Expected, CellIndex, OnGrid, Left, Top, GlyphDrawn, Strays;
      forall cx: nat, cy: nat | Strays(row, cx, cy) ensures StrayMatches(grid, c, row, cx, cy) {
        StraysMeans(row, cx, cy);
        GlyphFitsRow(Left(Sizes().Columns()) + cx - fb.Stride(), Top(row) + cy + 1);
        StrayIndex(row, cx, cy);
        DrawnColor(before, after, c, Sizes().Columns(), row, cx, cy);
        var x, y := Left(Sizes().Columns()) + cx - fb.Stride(), Top(row) + cy + 1;
        assert fb.PixelIn(after, x, y) == Expected(grid, x, y);
      }
    }

    lemma MatchingStraysShow(before: seq<u32>, after: seq<u32>, grid: Grid, c: byte, row: nat)
      requires fb != null && fb.Valid() && |before| == |after| == fb.height * fb.Stride() && !Sizes().Degenerate()
      requires GlyphDrawn(before, after, c, Sizes().Columns(), row) && Shows(before, grid)
      requires StraysMatch(grid, c, row)
      ensures Shows(after, grid)
    {
      hide CellColor, Expected, CellIndex, OnGrid, Left, Top, GlyphDrawn, Strays;
      forall x: nat, y: nat | OnGrid(x, y) && fb.Has(x, y)
        ensures fb.PixelIn(after, x, y) == Expected(grid, x, y)
      {
        GlyphFitsRow(x, y);
        IndexBelow(fb.Stride(), x, y, fb.height);
        var w, i := Sizes().Columns(), Index(fb.Stride(), x, y);
        if cx: nat, cy: nat :| cx < charWidth && cy < charHeight && CellIndex(w, row, cx, cy) == i {
          OnlyStraysHitGrid(row, cx, cy, x, y);
          assert StrayMatches(grid, c, row, cx, cy);
          DrawnColor(before, after, c, w, row, cx, cy);
        } else {
          NotDrawn(before, after, c, w, row, i);
          assert fb.PixelIn(before, x, y) == Expected(grid, x, y);
        }
      }
    }

    /** A character drawn in the extra column changes nothing in the grid. The screen goes on showing it
        exactly if each stray pixel happens to have the colour that the grid asks for where it lands. */
    lemma ExtraColumnSpoilsIff(before: seq<u32>, after: seq<u32>, grid: Grid, c: byte, row: nat)
      requires fb != null && fb.Valid() && |before| == |after| == fb.height * fb.Stride() && !Sizes().Degenerate()
      requires Fits(Sizes(), grid) && Shows(before, grid)
      requires GlyphDrawn(before, after, c, Sizes().Columns(), row)
      ensures PutCell(grid, row, Sizes().Columns(), c) == grid
      ensures Shows(after, grid) <==> StraysMatch(grid, c, row)
    {
      FitsRow(Sizes(), grid, row);
      hide Shows, Fits, GlyphDrawn, StraysMatch;
      if Shows(after, grid) {
        ShownStraysMatch(before, after, grid, c, row);
      }
      if StraysMatch(grid, c, row) {
        MatchingStraysShow(before, after, grid, c, row);
      }
    }

    /** A screen with a cell has room for one glyph in a pixel row. */
    lemma GlyphFitsRow(x: nat, y: nat)
      requires fb != null && fb.Valid() && !Sizes().Degenerate() && OnGrid(x, y)
      ensures charWidth <= fb.Stride()
    {
      CellsWithin(x, y);
      LastColumnInside();
      LeftTopMono(1, Sizes().Columns(), 0, 0);
    }

    lemma StraysMeans(row: nat, cx: nat, cy: nat)
      requires fb != null && !Sizes().Degenerate() && Strays(row, cx, cy)
      ensures cx < charWidth && cy < charHeight && fb.Stride() <= Left(Sizes().Columns()) + cx
      ensures OnGrid(Left(Sizes().Columns()) + cx - fb.Stride(), Top(row) + cy + 1)
    {}

    method PutEntryAt(c: byte, x: nat, y: nat)
      requires fb != null && fb.Valid() && CellInBuffer(x, y)
      modifies fb.address
      ensures GlyphDrawn(old(fb.address[..]), fb.address[..], c, x, y)
      ensures !Sizes().Degenerate() && Left(x + 1) <= fb.Stride() && Top(y + 1) <= fb.height
              && Fits(Sizes(), grid) && Shows(old(fb.address[..]), grid) ==>
                Shows(fb.address[..], PutCell(grid, y, x, c))
    {
      hide DrawnUpTo, CellColor, Fits, Shows, PutCell;
      var screenX, screenY := Left(x), Top(y);
      ghost var before := fb.address[..];
      NothingDrawn(before, c, x, y);
      for cy := 0 to charHeight
        invariant DrawnUpTo(before, fb.address[..], c, x, y, 0, cy)
      {
        for cx := 0 to charWidth
          invariant DrawnUpTo(before, fb.address[..], c, x, y, cx, cy)
        {
          CellIndexBelowLast(x, y, cx, cy);
          DrawOnePixel(before, fb.address[..], c, x, y, cx, cy);
          var lit := glyph(c, cx, cy);
          ColorOfGlyph(c, cx, cy);
          fb.SetPixel(screenX + cx, screenY + cy, if lit then fg else bg);
        }
        NextLine(before, fb.address[..], c, x, y, cy);
      }
      if !Sizes().Degenerate() && Left(x + 1) <= fb.Stride() && Top(y + 1) <= fb.height &&
         Fits(Sizes(), grid) && Shows(before, grid)
      {
        GlyphShows(before, fb.address[..], grid, c, x, y);
      }
    }

    lemma ColorOfGlyph(c: byte, cx: nat, cy: nat)
      ensures CellColor(Glyph(c), cx, cy) == if glyph(c, cx, cy) then fg else bg
    {}

    lemma NothingDrawn(before: seq<u32>, c: byte, x: nat, y: nat)
      requires fb != null
      ensures DrawnUpTo(before, before, c, x, y, 0, 0)
    {}

    method DeleteLine(line: nat)
      requires fb != null && fb.Valid() && Top(line + 1) <= fb.height
      modifies fb.address
      ensures forall x: nat, y: nat :: fb.Has(x, y) ==>
                fb.Pixel(x, y) == if x < fb.width && Top(line) <= y < Top(line + 1) then bg else old(fb.Pixel(x, y))
    {
      var start := Top(line);
      NextLeftTop(0, line);
      hide Top;
      var end := start + charHeight;
      for y := start to end
        invariant forall x': nat, y': nat :: fb.Has(x', y') ==>
                    fb.Pixel(x', y') == if x' < fb.width && start <= y' < y then bg else old(fb.Pixel(x', y'))
      {
        for x := 0 to fb.width
          invariant forall x': nat, y': nat :: fb.Has(x', y') ==>
                      fb.Pixel(x', y') == if x' < fb.width && (start <= y' < y || (y' == y && x' < x))
                                          then bg else old(fb.Pixel(x', y'))
        {
          fb.InBuffer(x, y);
          fb.SetPixel(x, y, bg);
        }
      }
    }

    /** Moves the picture up by one text row and blanks row `line`. */
    method Scroll(line: nat)
      requires fb != null && fb.Valid() && Top(line + 1) <= fb.height
      modifies fb.address
      ensures PictureScrolled(old(fb.address[..]), fb.address[..], line)
    {
      hide Top;
      fb.ScrollUpBy(charHeight);
      DeleteLine(line);
    }

    // ----- writing

    /** The cell is drawn within its own pixel rows, above the lower edge of the screen. */
    predicate CellInRows(x: nat, y: nat)
      requires fb != null
    {
      Left(x + 1) <= fb.Stride() && Top(y + 1) <= fb.height
    }

    lemma LastRowInside()
      requires fb != null && fb.Valid() && Sized(Sizes()) && !Sizes().Degenerate() && Sizes().Rows() >= 1
      ensures Sizes().LastRow() == Sizes().Rows() - 1 && Top(Sizes().Rows()) <= fb.height
    {
      LastRowIs(Sizes());
      LastTextRowInside();
    }

    lemma LastTextRowInside()
      requires fb != null && !Sizes().Degenerate()
      ensures Top(Sizes().Rows()) <= fb.height
    {
      assert fb.height == fb.height / charHeight * charHeight + fb.height % charHeight;
    }

    lemma NoLastRow()
      requires fb != null && !Sizes().Degenerate() && Sizes().Rows() == 0
      ensures Sizes().LastRow() == W64 - 1
    {}

    /** Draws the character at the cursor and moves the cursor on. The driver checks no bounds: where the
        cell of a character has to be is for the caller to answer for. */
    method PutChar(c: byte)
      requires Valid() && (fb != null && c != NEWLINE ==> CellInBuffer(col, row))
      modifies this, if fb != null then {fb.address} else {}
      ensures Valid()
      ensures fb == null ==> At() == old(At()) && grid == old(grid)
      ensures fb != null ==> At() == Advance(Sizes(), old(At()), c)
      ensures fb != null && !Sizes().Degenerate() ==>
                Text(At(), grid) == Put(Sizes(), Text(old(At()), old(grid)), c)
      ensures fb != null && old(Showing()) && (c == NEWLINE || CellInRows(old(col), old(row))) ==> Showing()
    {
      hide PutCell, ScrollGrid, Shows, Fits, Left, Top, PictureScrolled, Sized, Wrap, CellInBuffer, GlyphDrawn;
      if fb == null {
        return;
      }
      ghost var g := Sizes();
      ghost var shows := !g.Degenerate() && Showing() && (c == NEWLINE || CellInRows(col, row));
      if !g.Degenerate() {
        PutFits(g, Text(At(), grid), c);
      }
      if c == NEWLINE {
        row := Wrap(row + 1);
        col := 0;
      } else {
        PutEntryAt(c, col, row);
        if !g.Degenerate() {
          PutCellFits(g, grid, row, col, c);
          grid := PutCell(grid, row, col, c);
        }
        col := Wrap(col + 1);
      }
      if fb.height == 0 || fb.width == 0 || charWidth == 0 || charHeight == 0 {
        return;
      }
      var terminalWidth := fb.width / charWidth;
      if col > terminalWidth {
        col := 0;
        row := Wrap(row + 1);
      }
      var terminalHeight := Wrap(fb.height / charHeight - 1);
      if row > terminalHeight {
        if g.Rows() == 0 { NoLastRow(); } else { LastRowInside(); }
        FitsRow(g, grid, 0);
        ghost var before := fb.address[..];
        Scroll(terminalHeight);
        if shows {
          ScrolledShows(before, fb.address[..], grid);
        }
        grid := ScrollGrid(grid, terminalWidth);
        row := Wrap(terminalHeight as int - 1);
      }
    }

    /** Every character of the text is drawn inside the buffer. */
    ghost predicate AllInBuffer(c: Cursor, data: seq<byte>)
      requires fb != null
      decreases |data|
    {
      data != [] ==>
        && (data[0] != NEWLINE ==> CellInBuffer(c.col, c.row))
        && AllInBuffer(Advance(Sizes(), c, data[0]), data[1..])
    }

    /** Every character of the text is drawn within its own pixel rows. */
    ghost predicate AllInRows(c: Cursor, data: seq<byte>)
      requires fb != null
      decreases |data|
    {
      data != [] ==>
        && (data[0] != NEWLINE ==> CellInRows(c.col, c.row))
        && AllInRows(Advance(Sizes(), c, data[0]), data[1..])
    }

    lemma FirstThenRest(c: Cursor, data: seq<byte>)
      requires fb != null && data != []
      ensures AllInBuffer(c, data) <==>
              (data[0] != NEWLINE ==> CellInBuffer(c.col, c.row)) &&
              AllInBuffer(Advance(Sizes(), c, data[0]), data[1..])
      ensures AllInRows(c, data) <==>
              (data[0] != NEWLINE ==> CellInRows(c.col, c.row)) &&
              AllInRows(Advance(Sizes(), c, data[0]), data[1..])
      ensures AdvanceAll(Sizes(), c, data) == AdvanceAll(Sizes(), Advance(Sizes(), c, data[0]), data[1..])
    {}

    lemma PutFirst(s: Text, data: seq<byte>)
      requires fb != null && !Sizes().Degenerate() && data != []
      ensures PutAll(Sizes(), s, data) == PutAll(Sizes(), Put(Sizes(), s, data[0]), data[1..])
    {}

    /** Writes a string of bytes that stays in the buffer. The screen goes on showing what the text grid of
        the model holds if the string also stays within the pixel rows. */
    method Write(data: seq<byte>)
      requires Valid() && (fb != null ==> AllInBuffer(At(), data))
      modifies this, if fb != null then {fb.address} else {}
      ensures Valid()
      ensures fb == null ==> At() == old(At()) && grid == old(grid)
      ensures fb != null ==> At() == AdvanceAll(Sizes(), old(At()), data)
      ensures fb != null && !Sizes().Degenerate() ==>
                Text(At(), grid) == PutAll(Sizes(), Text(old(At()), old(grid)), data)
      ensures fb != null && old(Showing()) && AllInRows(old(At()), data) ==> Showing()
    {
      hide AllInBuffer, AllInRows, AdvanceAll, PutAll, Put, Advance, Fits, Shows, CellInBuffer, CellInRows, Sized;
      ghost var shows := fb != null && Showing() && AllInRows(At(), data);
      assert data[0..] == data;
      for i := 0 to |data|
        invariant Valid()
        invariant fb == null ==> At() == old(At()) && grid == old(grid)
        invariant fb != null ==> AllInBuffer(At(), data[i..])
        invariant shows ==> AllInRows(At(), data[i..]) && Showing()
        invariant fb != null ==> AdvanceAll(Sizes(), At(), data[i..]) == AdvanceAll(Sizes(), old(At()), data)
        invariant fb != null && !Sizes().Degenerate() ==>
                    PutAll(Sizes(), Text(At(), grid), data[i..]) == PutAll(Sizes(), Text(old(At()), old(grid)), data)
      {
        assert data[i..][1..] == data[i + 1..];
        if fb != null {
          FirstThenRest(At(), data[i..]);
          if !Sizes().Degenerate() {
            PutFirst(Text(At(), grid), data[i..]);
          }
        }
        PutChar(data[i]);
      }
      assert data[|data|..] == [];
      if fb != null {
        NothingWritten(At());
      }
    }

    lemma NothingWritten(c: Cursor)
      requires fb != null
      ensures AdvanceAll(Sizes(), c, []) == c
      ensures !Sizes().Degenerate() ==> forall grid :: PutAll(Sizes(), Text(c, grid), []) == Text(c, grid)
    {}

    // ----- which texts stay where

    /** Cells up and to the left of one that is in the buffer, or in its rows, are so too. */
    lemma CellsBefore(x: nat, y: nat, x': nat, y': nat)
      requires fb != null && x <= x' && y <= y'
      ensures CellInBuffer(x', y') ==> CellInBuffer(x, y)
      ensures CellInRows(x', y') ==> CellInRows(x, y)
    {
      LeftTopMono(x, x', y, y');
      LeftTopMono(x + 1, x' + 1, y + 1, y' + 1);
      if charWidth > 0 && charHeight > 0 {
        MulMono(Top(y) + charHeight - 1, Top(y') + charHeight - 1, fb.Stride());
      }
    }

    lemma RowsInBuffer(x: nat, y: nat)
      requires fb != null && fb.Valid() && CellInRows(x, y)
      ensures CellInBuffer(x, y)
    {
      NextLeftTop(x, y);
      if charWidth > 0 && charHeight > 0 {
        fb.InBuffer(Left(x) + charWidth - 1, Top(y) + charHeight - 1);
      }
    }

    /** With two text rows, every text stays in the buffer if its last cell, the extra one of the last
        row, does, and in the pixel rows likewise. */
    lemma {:induction false} CornerBoundsAll(c: Cursor, data: seq<byte>)
      requires fb != null && fb.Valid() && Sized(Sizes()) && !Sizes().Degenerate() && Sizes().Rows() >= 2
      requires InBounds(Sizes(), c)
      ensures CellInBuffer(Sizes().Columns(), Sizes().Rows() - 1) ==> AllInBuffer(c, data)
      ensures CellInRows(Sizes().Columns(), Sizes().Rows() - 1) ==> AllInRows(c, data)
      decreases |data|
    {
      hide CellInBuffer, CellInRows, Advance, Sized;
      if data != [] {
        LastRowInside();
        AdvanceInBounds(Sizes(), c, data[0]);
        CornerBoundsAll(Advance(Sizes(), c, data[0]), data[1..]);
        CellsBefore(c.col, c.row, Sizes().Columns(), Sizes().Rows() - 1);
      }
    }

    /** Text that is never printed in the extra column stays in the pixel rows of any framebuffer. */
    lemma {:induction false} TextOnGridStaysInRows(c: Cursor, data: seq<byte>)
      requires fb != null && fb.Valid() && Sized(Sizes()) && !Sizes().Degenerate() && Sizes().Rows() >= 2
      requires InBounds(Sizes(), c) && StaysOnGrid(Sizes(), c, data)
      ensures AllInBuffer(c, data) && AllInRows(c, data)
      decreases |data|
    {
      hide CellInBuffer, CellInRows, Advance, Sized;
      if data != [] {
        LastRowInside();
        AdvanceInBounds(Sizes(), c, data[0]);
        TextOnGridStaysInRows(Advance(Sizes(), c, data[0]), data[1..]);
        if data[0] != NEWLINE {
          GridCellInRows(c.col, c.row);
          RowsInBuffer(c.col, c.row);
        }
      }
    }

    lemma GridCellInRows(x: nat, y: nat)
      requires fb != null && fb.Valid() && Sized(Sizes()) && !Sizes().Degenerate()
      requires x < Sizes().Columns() && y < Sizes().Rows()
      ensures CellInRows(x, y)
    {
      hide Left, Top, Sized;
      LastRowInside();
      LastColumnInside();
      LeftTopMono(x + 1, Sizes().Columns(), y + 1, Sizes().Rows());
    }

    lemma LastColumnInside()
      requires fb != null && !Sizes().Degenerate()
      ensures Left(Sizes().Columns()) <= fb.width
    {
      assert fb.width == fb.width / charWidth * charWidth + fb.width % charWidth;
    }

    /** One text after another stays where both do. */
    lemma {:induction false} AllOfConcat(c: Cursor, a: seq<byte>, b: seq<byte>)
      requires fb != null
      ensures var c' := AdvanceAll(Sizes(), c, a);
              && (AllInBuffer(c, a + b) <==> AllInBuffer(c, a) && AllInBuffer(c', b))
              && (AllInRows(c, a + b) <==> AllInRows(c, a) && AllInRows(c', b))
      decreases |a|
    {
      hide CellInBuffer, CellInRows, Advance;
      if a == [] {
        assert a + b == b;
      } else {
        assert (a + b)[1..] == a[1..] + b;
        AllOfConcat(Advance(Sizes(), c, a[0]), a[1..], b);
      }
    }

    /** In a text that stays in the buffer, or in the rows, each printable character is drawn there. */
    lemma {:induction false} DrawnWhereAllIs(c: Cursor, data: seq<byte>, n: nat)
      requires fb != null && n < |data| && data[n] != NEWLINE
      ensures var at := AdvanceAll(Sizes(), c, data[..n]);
              && (AllInBuffer(c, data) ==> CellInBuffer(at.col, at.row))
              && (AllInRows(c, data) ==> CellInRows(at.col, at.row))
      decreases |data|
    {
      hide CellInBuffer, CellInRows, Advance;
      if n > 0 {
        DrawnWhereAllIs(Advance(Sizes(), c, data[0]), data[1..], n - 1);
        assert data[..n][1..] == data[1..][..n - 1];
      }
    }

    /** No cell is in the buffer if it begins below the screen. */
    lemma CellBelowScreen(y: nat)
      requires fb != null && fb.Valid() && !Sizes().Degenerate() && Top(y) + charHeight > fb.height
      ensures !CellInBuffer(0, y) && !CellInRows(0, y)
    {
      NextLeftTop(0, y);
      MulMono(fb.height, Top(y) + charHeight - 1, fb.Stride());
    }

    lemma FarBelowScreen(y: nat)
      requires fb != null && Sized(Sizes()) && !Sizes().Degenerate() && y >= W64 - 1
      ensures Top(y) + charHeight > fb.height
    {
      MulMono(1, charHeight, y);
    }

    lemma NoRowFits()
      requires fb != null && !Sizes().Degenerate() && Sizes().Rows() == 0
      ensures Top(0) + charHeight > fb.height
    {
      DivModUnique(charHeight, 1, 0, charHeight);
      if charHeight <= fb.height { DivMono(charHeight, fb.height, charHeight); }
    }

    /** Some text reaches the last cell; with fewer than two text rows, some text leaves the screen. */
    lemma SomeTextReaches() returns (data: seq<byte>, n: nat)
      requires fb != null && fb.Valid() && Sized(Sizes()) && !Sizes().Degenerate()
      ensures n < |data| && data[n] != NEWLINE
      ensures var at := AdvanceAll(Sizes(), Cursor(0, 0), data[..n]);
              if Sizes().Rows() >= 2 then at == Cursor(Sizes().Rows() - 1, Sizes().Columns())
              else !CellInBuffer(at.col, at.row) && !CellInRows(at.col, at.row)
    {
      hide CellInBuffer, CellInRows;
      if Sizes().Rows() >= 2 {
        data, n := CornerText(Sizes());
      } else if Sizes().Rows() == 1 {
        data, n := [NEWLINE, 65], 1;
        assert data[..1] == [NEWLINE] && [NEWLINE][1..] == [];
        assert AdvanceAll(Sizes(), Cursor(0, 0), [NEWLINE]) == Cursor(W64 - 1, 0);
        FarBelowScreen(W64 - 1);
        CellBelowScreen(W64 - 1);
      } else {
        data, n := [65], 0;
        assert data[..0] == [];
        NoRowFits();
        CellBelowScreen(0);
      }
    }

    /** Whatever is written from home stays in the buffer. */
    ghost predicate AlwaysInBuffer()
      requires fb != null
    {
      forall data :: AllInBuffer(Cursor(0, 0), data)
    }

    /** Whatever is written from home stays within the pixel rows. */
    ghost predicate AlwaysInRows()
      requires fb != null
    {
      forall data :: AllInRows(Cursor(0, 0), data)
    }

    /** Whatever is written from home stays in the buffer exactly with at least two text rows of which the
        last extra cell is in the buffer. */
    lemma EveryTextInBufferIff()
      requires fb != null && fb.Valid() && Sized(Sizes()) && !Sizes().Degenerate()
      ensures AlwaysInBuffer() <==>
              Sizes().Rows() >= 2 && CellInBuffer(Sizes().Columns(), Sizes().Rows() - 1)
    {
      hide AllInBuffer, CellInBuffer, CellInRows;
      if Sizes().Rows() >= 2 && CellInBuffer(Sizes().Columns(), Sizes().Rows() - 1) {
        forall data ensures AllInBuffer(Cursor(0, 0), data) {
          CornerBoundsAll(Cursor(0, 0), data);
        }
      } else {
        var data, n := SomeTextReaches();
        DrawnWhereAllIs(Cursor(0, 0), data, n);
        assert !AllInBuffer(Cursor(0, 0), data);
      }
    }

    /** It stays within the pixel rows, so that the screen always shows the text, exactly with at least two
        text rows and room for the extra column. */
    lemma EveryTextInRowsIff()
      requires fb != null && fb.Valid() && Sized(Sizes()) && !Sizes().Degenerate()
      ensures AlwaysInRows() <==>
              Sizes().Rows() >= 2 && Left(Sizes().Columns() + 1) <= fb.Stride()
    {
      hide AllInRows, CellInBuffer;
      if Sizes().Rows() >= 2 {
        LastRowInside();
      }
      if Sizes().Rows() >= 2 && Left(Sizes().Columns() + 1) <= fb.Stride() {
        forall data ensures AllInRows(Cursor(0, 0), data) {
          CornerBoundsAll(Cursor(0, 0), data);
        }
      } else {
        var data, n := SomeTextReaches();
        DrawnWhereAllIs(Cursor(0, 0), data, n);
        assert !AllInRows(Cursor(0, 0), data);
      }
    }
  }
}
