/** The text grid of the legacy package (src/victory/engine/Window.java): a
    width-by-height buffer of glyph codes stored row by row in one flat array,
    with a border pattern, bounds-checked reads and writes, and a wrapping
    string writer. It is also the base that the dialog and the menus draw on. */
module TextGrid {

  // Glyph codes used by the border rule.
  const TopLeft: char := 0x10 as char
  const Top: char := 0x11 as char
  const TopRight: char := 0x12 as char
  const Left: char := 0x13 as char
  const Right: char := 0x14 as char
  const BottomLeft: char := 0x15 as char
  const Bottom: char := 0x16 as char
  const BottomRight: char := 0x17 as char
  const Blank: char := 0x20 as char
  /** What `getAt` answers for a cell outside the grid. */
  const Nul: char := 0x00 as char

  /** Position of cell (col, row) in the flat, row-major buffer. */
  function Idx(w: int, col: int, row: int): int { row * w + col }

  predicate InGrid(w: int, h: int, col: int, row: int) {
    0 <= col < w && 0 <= row < h
  }

  lemma MulMono(a: int, b: int, c: int)
    requires 0 <= c && a <= b
    ensures a * c <= b * c
  {
    assert (b - a) * c >= 0;
  }

  lemma {:induction false} IdxInRange(w: int, h: int, col: int, row: int)
    requires InGrid(w, h, col, row)
    ensures 0 <= Idx(w, col, row) < w * h
  {
    MulMono(0, row, w);
    MulMono(row, h - 1, w);
  }

  /** A flat index below w*h names exactly one (col, row) and back. */
  lemma IdxCoords(w: int, col: int, row: int)
    requires 0 <= col < w && 0 <= row
    ensures Idx(w, col, row) / w == row && Idx(w, col, row) % w == col
  {
    var i := Idx(w, col, row);
    var q, m := i / w, i % w;
    assert i == q * w + m && 0 <= m < w;
    if q < row {
      MulMono(q + 1, row, w);
      assert false;
    } else if q > row {
      MulMono(row + 1, q, w);
      assert false;
    }
  }

  lemma IdxOfIndex(w: int, h: int, i: int)
    requires 0 < w && 0 <= h && 0 <= i < w * h
    ensures InGrid(w, h, i % w, i / w) && Idx(w, i % w, i / w) == i
  {
    if i / w >= h {
      MulMono(h, i / w, w);
      assert false;
    }
  }

  lemma IdxInjective(w: int, c1: int, r1: int, c2: int, r2: int)
    requires 0 <= c1 < w && 0 <= r1 && 0 <= c2 < w && 0 <= r2
    requires Idx(w, c1, r1) == Idx(w, c2, r2)
    ensures c1 == c2 && r1 == r2
  {
    IdxCoords(w, c1, r1);
    IdxCoords(w, c2, r2);
  }

  /** Product of two non-negative sizes is a valid sequence length. */
  lemma AreaNonNeg(w: int, h: int)
    requires 0 <= w && 0 <= h
    ensures 0 <= w * h
  {
    MulMono(0, h, w);
  }

  // ---------------------------------------------------------------------
  // Buffers as values: what `getAt` reads and `put` writes.

  /** `getAt`: the stored glyph, or 0x00 for any coordinate outside the grid. */
  function CellAt(cells: seq<char>, w: int, h: int, x: int, y: int): char
    requires |cells| == w * h
  {
    if x < 0 || y < 0 || x >= w || y >= h then Nul
    else IdxInRange(w, h, x, y); cells[Idx(w, x, y)]
  }

  /** `put`: overwrite cell (x, y) when it lies inside the grid, else do nothing. */
  function PutCell(cells: seq<char>, w: int, h: int, x: int, y: int, c: char): (r: seq<char>)
    requires |cells| == w * h
    ensures |r| == |cells|
  {
    if 0 <= x && 0 <= y && x < w && y < h then
      IdxInRange(w, h, x, y); cells[Idx(w, x, y) := c]
    else cells
  }

  /** The grid of a given size whose cell (c, r) holds f(c, r). */
  function Tabulate(w: int, h: int, f: (int, int) -> char): (r: seq<char>)
    requires 0 < w && 0 <= h
    ensures |r| == w * h
  {
    AreaNonNeg(w, h);
    seq(w * h, i requires 0 <= i < w * h => f(i % w, i / w))
  }

  lemma TabulateAt(w: int, h: int, f: (int, int) -> char, c: int, r: int)
    requires 0 < w && 0 <= h && InGrid(w, h, c, r)
    ensures CellAt(Tabulate(w, h, f), w, h, c, r) == f(c, r)
  {
    IdxInRange(w, h, c, r);
    IdxCoords(w, c, r);
  }

  /** Two buffers of one size that answer `getAt` alike on every cell are equal:
      the row-major addressing is a bijection between indices and cells. */
  lemma GridExt(a: seq<char>, b: seq<char>, w: int, h: int)
    requires 0 < w && |a| == w * h && |b| == w * h
    requires forall c, r :: InGrid(w, h, c, r) ==> CellAt(a, w, h, c, r) == CellAt(b, w, h, c, r)
    ensures a == b
  {
    forall i | 0 <= i < |a|
      ensures a[i] == b[i]
    {
      IdxOfIndex(w, h, i);
      assert CellAt(a, w, h, i % w, i / w) == CellAt(b, w, h, i % w, i / w);
    }
  }

  /** `put` followed by `getAt`: the written cell reads back the new glyph, every
      other cell reads back what it held, and an out-of-range `put` changes nothing. */
  lemma PutCellAt(cells: seq<char>, w: int, h: int, x: int, y: int, c: char, x': int, y': int)
    requires |cells| == w * h
    ensures CellAt(PutCell(cells, w, h, x, y, c), w, h, x', y') ==
              if x' == x && y' == y && InGrid(w, h, x, y) then c else CellAt(cells, w, h, x', y')
    ensures !InGrid(w, h, x, y) ==> PutCell(cells, w, h, x, y, c) == cells
  {
    if InGrid(w, h, x, y) {
      IdxInRange(w, h, x, y);
      var i := Idx(w, x, y);
      var after := cells[i := c];
      assert PutCell(cells, w, h, x, y, c) == after;
      if InGrid(w, h, x', y') {
        IdxInRange(w, h, x', y');
        var j := Idx(w, x', y');
        assert CellAt(after, w, h, x', y') == after[j];
        assert CellAt(cells, w, h, x', y') == cells[j];
        if x != x' || y != y' {
          if i == j {
            IdxInjective(w, x, y, x', y');
          }
        }
      }
    }
  }

  /** Tabulating a buffer's own cells gives the buffer back. */
  lemma TabulateSelf(cells: seq<char>, w: int, h: int)
    requires 0 < w && 0 <= h && |cells| == w * h
    ensures Tabulate(w, h, (c, r) => CellAt(cells, w, h, c, r)) == cells
  {
    var t := Tabulate(w, h, (c, r) => CellAt(cells, w, h, c, r));
    forall c, r | InGrid(w, h, c, r)
      ensures CellAt(t, w, h, c, r) == CellAt(cells, w, h, c, r)
    {
      TabulateAt(w, h, (c, r) => CellAt(cells, w, h, c, r), c, r);
    }
    GridExt(t, cells, w, h);
  }

  /** Tabulations that agree on every cell of the grid are equal. */
  lemma TabulateExt(w: int, h: int, f: (int, int) -> char, g: (int, int) -> char)
    requires 0 < w && 0 <= h
    requires forall c, r :: InGrid(w, h, c, r) ==> f(c, r) == g(c, r)
    ensures Tabulate(w, h, f) == Tabulate(w, h, g)
  {
    forall c, r | InGrid(w, h, c, r)
      ensures CellAt(Tabulate(w, h, f), w, h, c, r) == CellAt(Tabulate(w, h, g), w, h, c, r)
    {
      TabulateAt(w, h, f, c, r);
      TabulateAt(w, h, g, c, r);
    }
    GridExt(Tabulate(w, h, f), Tabulate(w, h, g), w, h);
  }

  /** `put` on a tabulated grid is the tabulation that differs in that one cell. */
  lemma TabulatePut(w: int, h: int, f: (int, int) -> char, g: (int, int) -> char, x: int, y: int)
    requires 0 < w && 0 <= h && InGrid(w, h, x, y)
    requires forall c, r :: InGrid(w, h, c, r) && (c != x || r != y) ==> f(c, r) == g(c, r)
    ensures PutCell(Tabulate(w, h, f), w, h, x, y, g(x, y)) == Tabulate(w, h, g)
  {
    var p := PutCell(Tabulate(w, h, f), w, h, x, y, g(x, y));
    forall c, r | InGrid(w, h, c, r)
      ensures CellAt(p, w, h, c, r) == CellAt(Tabulate(w, h, g), w, h, c, r)
    {
      PutCellAt(Tabulate(w, h, f), w, h, x, y, g(x, y), c, r);
      TabulateAt(w, h, f, c, r);
      TabulateAt(w, h, g, c, r);
    }
    GridExt(p, Tabulate(w, h, g), w, h);
  }

  // ---------------------------------------------------------------------
  // The border pattern.

  /** Glyph that `setupBorders` gives the cell in column `col` of row `row`. */
  function BorderGlyph(w: int, h: int, col: int, row: int): char {
    if row == 0 then
      (if col == 0 then TopLeft else if col < w - 1 then Top else TopRight)
    else if row < h - 1 then
      (if col == 0 then Left else if col < w - 1 then Blank else Right)
    else
      (if col == 0 then BottomLeft else if col < w - 1 then Bottom else BottomRight)
  }

  /** The blank bordered buffer of a w-by-h window. */
  function Bordered(w: int, h: int): (r: seq<char>)
    requires 0 < w && 0 <= h
    ensures |r| == w * h
  {
    Tabulate(w, h, (c, r) => BorderGlyph(w, h, c, r))
  }

  /** In the flat buffer, the first `w` indices are row 0 and the indices from
      w*(h-1) on are the last row: the tests `setupBorders` makes on the flat
      index pick out rows. */
  lemma RowBands(w: int, h: int, i: int)
    requires 0 < w && 0 < h && 0 <= i < w * h
    ensures i < w <==> i / w == 0
    ensures i < w * (h - 1) <==> i / w < h - 1
    ensures i < w ==> i % w == i
  {
    IdxOfIndex(w, h, i);
    var q := i / w;
    if i < w * (h - 1) && q >= h - 1 {
      MulMono(h - 1, q, w);
    }
    if i >= w * (h - 1) && q < h - 1 {
      MulMono(q + 1, h - 1, w);
    }
  }

  /** Each cell of a bordered window carries a glyph fixed by its position alone:
      the four corner glyphs at the corners only, the edge glyphs on the edges
      only, and the blank exactly on the interior. */
  lemma BorderedCells(w: int, h: int, c: int, r: int)
    requires 2 <= w && 2 <= h && InGrid(w, h, c, r)
    ensures CellAt(Bordered(w, h), w, h, c, r) == BorderGlyph(w, h, c, r)
    ensures var g := CellAt(Bordered(w, h), w, h, c, r);
      && (g == TopLeft <==> c == 0 && r == 0)
      && (g == TopRight <==> c == w - 1 && r == 0)
      && (g == BottomLeft <==> c == 0 && r == h - 1)
      && (g == BottomRight <==> c == w - 1 && r == h - 1)
      && (g == Top <==> 0 < c < w - 1 && r == 0)
      && (g == Bottom <==> 0 < c < w - 1 && r == h - 1)
      && (g == Left <==> c == 0 && 0 < r < h - 1)
      && (g == Right <==> c == w - 1 && 0 < r < h - 1)
      && (g == Blank <==> 0 < c < w - 1 && 0 < r < h - 1)
  {
    TabulateAt(w, h, (c, r) => BorderGlyph(w, h, c, r), c, r);
  }

  // ---------------------------------------------------------------------
  // The wrapping writer.

  /** Outcome of `write`: the new buffer, and whether the writer stopped on a
      flat index outside the buffer (where the Java array store throws
      ArrayIndexOutOfBoundsException, abandoning the rest of the string). */
  datatype Written = Written(cells: seq<char>, fault: bool)

  /** `write(x, y, s)` on a buffer: a newline, or any character met at column
      w-1 or beyond, moves the cursor to column 1 of the next row without being
      stored; any other character is stored at the cursor, which then moves one
      column right; the writer stops as soon as the cursor's row is h-1. */
  function WriteFrom(cells: seq<char>, w: int, h: int, x: int, y: int, s: string): (r: Written)
    requires |cells| == w * h
    ensures |r.cells| == |cells|
    decreases |s|
  {
    if s == [] then Written(cells, false)
    else if s[0] == '\n' || x >= w - 1 then
      if y + 1 == h - 1 then Written(cells, false)
      else WriteFrom(cells, w, h, 1, y + 1, s[1..])
    else if 0 <= Idx(w, x, y) < |cells| then
      var next := cells[Idx(w, x, y) := s[0]];
      if y == h - 1 then Written(next, false)
      else WriteFrom(next, w, h, x + 1, y, s[1..])
    else Written(cells, true)
  }

  /** Started at a column >= 0 on a row above h-1, the writer never leaves the
      buffer, and it stores only into columns below w-1 of rows from its start
      row up to h-2: the right border, the last row and the rows above the
      start row keep their glyphs. */
  lemma {:induction false} WriteStaysInside(cells: seq<char>, w: int, h: int, x: int, y: int, s: string)
    requires 2 <= w && 2 <= h && |cells| == w * h
    requires 0 <= x && 0 <= y < h - 1
    ensures !WriteFrom(cells, w, h, x, y, s).fault
    ensures forall c, r :: InGrid(w, h, c, r) && !(c < w - 1 && y <= r < h - 1) ==>
              CellAt(WriteFrom(cells, w, h, x, y, s).cells, w, h, c, r) == CellAt(cells, w, h, c, r)
    decreases |s|
  {
    if s == [] {
    } else if s[0] == '\n' || x >= w - 1 {
      if y + 1 < h - 1 {
        WriteStaysInside(cells, w, h, 1, y + 1, s[1..]);
      }
    } else {
      IdxInRange(w, h, x, y);
      var next := cells[Idx(w, x, y) := s[0]];
      assert next == PutCell(cells, w, h, x, y, s[0]);
      forall c, r | InGrid(w, h, c, r) && !(c < w - 1 && y <= r < h - 1)
        ensures CellAt(next, w, h, c, r) == CellAt(cells, w, h, c, r)
      {
        PutCellAt(cells, w, h, x, y, s[0], c, r);
      }
      WriteStaysInside(next, w, h, x + 1, y, s[1..]);
    }
  }

  /** A newline-free string that fits before column w-1 lands in consecutive
      cells of the start row, in string order; nothing else changes. */
  lemma {:induction false} WriteRun(cells: seq<char>, w: int, h: int, x: int, y: int, s: string)
    requires 2 <= w && 2 <= h && |cells| == w * h
    requires 0 <= x && x + |s| <= w - 1 && 0 <= y < h - 1
    requires forall k :: 0 <= k < |s| ==> s[k] != '\n'
    ensures !WriteFrom(cells, w, h, x, y, s).fault
    ensures forall c, r :: InGrid(w, h, c, r) ==>
              CellAt(WriteFrom(cells, w, h, x, y, s).cells, w, h, c, r) ==
                if r == y && x <= c < x + |s| then s[c - x] else CellAt(cells, w, h, c, r)
    decreases |s|
  {
    if s != [] {
      IdxInRange(w, h, x, y);
      var next := cells[Idx(w, x, y) := s[0]];
      assert next == PutCell(cells, w, h, x, y, s[0]);
      WriteRun(next, w, h, x + 1, y, s[1..]);
      forall c, r | InGrid(w, h, c, r)
        ensures CellAt(WriteFrom(cells, w, h, x, y, s).cells, w, h, c, r) ==
                if r == y && x <= c < x + |s| then s[c - x] else CellAt(cells, w, h, c, r)
      {
        PutCellAt(cells, w, h, x, y, s[0], c, r);
        if r == y && x + 1 <= c < x + |s| {
          assert s[1..][c - (x + 1)] == s[c - x];
        }
      }
    }
  }

  /** A newline, or a character met at column w-1 or beyond, is consumed without
      being stored: writing it is writing the rest from column 1 of the next row. */
  lemma WriteBreaksLine(cells: seq<char>, w: int, h: int, x: int, y: int, s: string)
    requires |cells| == w * h && s != []
    requires s[0] == '\n' || x >= w - 1
    ensures WriteFrom(cells, w, h, x, y, s) ==
              if y + 1 == h - 1 then Written(cells, false) else WriteFrom(cells, w, h, 1, y + 1, s[1..])
  {
  }

  /** `write(s)` starts at (1, 1), which is the last row of a two-row window: a
      newline there moves the cursor below the buffer, and the next character
      is stored out of bounds. */
  lemma WriteTopLeftOverrunsTwoRowWindow()
    ensures WriteFrom(Bordered(3, 2), 3, 2, 1, 1, "\nA").fault
  {
    var cells := Bordered(3, 2);
    assert WriteFrom(cells, 3, 2, 1, 1, "\nA") == WriteFrom(cells, 3, 2, 1, 2, "A");
    assert Idx(3, 1, 2) == 7;
  }

  // ---------------------------------------------------------------------
  // The window object.

  /** Window.java's grid. Its size is fixed by the constructor (`setSize` is
      private and only the constructor calls it), so the size and the buffer
      object are constants; only the buffer's contents change. */
  class Window {
    const x: int
    const y: int
    const width: int
    const height: int
    const win: array<char>

    ghost predicate Valid() {
      2 <= width && 2 <= height && win.Length == width * height
    }

    /** Builds a window at (sx, sy); a requested size below 2 becomes 2, and the
        buffer starts out as the blank bordered grid. */
    constructor (sx: int, sy: int, w: int, h: int)
      ensures Valid() && fresh(win)
      ensures x == sx && y == sy
      ensures width == (if w > 1 then w else 2) && height == (if h > 1 then h else 2)
      ensures win[..] == Bordered(width, height)
    {
      x, y := sx, sy;
      var cw := if w > 1 then w else 2;
      var ch := if h > 1 then h else 2;
      AreaNonNeg(cw, ch);
      width, height := cw, ch;
      win := new char[cw * ch](_ => Nul);
      new;
      SetupBorders();
    }

    function GetWidth(): int { width }

    function GetHeight(): int { height }

    /** `getAt`: 0x00 for any coordinate outside the grid, otherwise the glyph
        stored at that cell's row-major position. */
    function GetAt(wx: int, wy: int): (g: char)
      requires Valid()
      reads win
      ensures !InGrid(width, height, wx, wy) ==> g == Nul
      ensures InGrid(width, height, wx, wy) ==>
        0 <= Idx(width, wx, wy) < win.Length && g == win[Idx(width, wx, wy)]
    {
      if InGrid(width, height, wx, wy) then
        IdxInRange(width, height, wx, wy);
        CellAt(win[..], width, height, wx, wy)
      else
        CellAt(win[..], width, height, wx, wy)
    }

    /** Refills the whole buffer with the blank bordered grid. */
    method SetupBorders()
      requires Valid()
      modifies win
      ensures win[..] == Bordered(width, height)
    {
      var i := 0;
      while i < width * height
        invariant 0 <= i <= width * height
        invariant forall j :: 0 <= j < i ==> win[j] == BorderGlyph(width, height, j % width, j / width)
      {
        RowBands(width, height, i);
        if i < width {
          if i == 0 {
            win[i] := TopLeft;
          } else if i < width - 1 {
            win[i] := Top;
          } else {
            win[i] := TopRight;
          }
        } else if i < width * (height - 1) {
          if i % width == 0 {
            win[i] := Left;
          } else if i % width < width - 1 {
            win[i] := Blank;
          } else {
            win[i] := Right;
          }
        } else {
          if i % width == 0 {
            win[i] := BottomLeft;
          } else if i % width < width - 1 {
            win[i] := Bottom;
          } else {
            win[i] := BottomRight;
          }
        }
        i := i + 1;
      }
    }

    /** `write(s)`: the same as writing from column 1 of row 1. */
    method WriteTopLeft(s: string) returns (fault: bool)
      requires Valid()
      modifies win
      ensures Written(win[..], fault) == WriteFrom(old(win[..]), width, height, 1, 1, s)
    {
      fault := Write(1, 1, s);
    }

    method Write(x0: int, y0: int, s: string) returns (fault: bool)
      requires Valid()
      modifies win
      ensures Written(win[..], fault) == WriteFrom(old(win[..]), width, height, x0, y0, s)
    {
      var cx, cy := x0, y0;
      var i := 0;
      fault := false;
      while i < |s|
        invariant 0 <= i <= |s| && !fault
        invariant WriteFrom(win[..], width, height, cx, cy, s[i..]) == WriteFrom(old(win[..]), width, height, x0, y0, s)
      {
        assert s[i..][1..] == s[i + 1..];
        if s[i] == '\n' || cx >= width - 1 {
          cx, cy := 1, cy + 1;
        } else {
          var k := cx + cy * width;
          if !(0 <= k < win.Length) {
            fault := true;
            return;
          }
          win[k] := s[i];
          cx := cx + 1;
        }
        if cy == height - 1 {
          return;
        }
        i := i + 1;
      }
    }

    /** `put`: stores `c` at (cx, cy) when that cell is inside the grid, and is a
        silent no-op otherwise. */
    method Put(cx: int, cy: int, c: char)
      requires Valid()
      modifies win
      ensures win[..] == PutCell(old(win[..]), width, height, cx, cy, c)
      ensures forall col, row :: GetAt(col, row) ==
                if col == cx && row == cy && InGrid(width, height, cx, cy) then c else old(GetAt(col, row))
    {
      ghost var before := win[..];
      if cx >= 0 && cy >= 0 && cx < width && cy < height {
        IdxInRange(width, height, cx, cy);
        win[cx + cy * width] := c;
      }
      forall col, row
        ensures GetAt(col, row) ==
                  if col == cx && row == cy && InGrid(width, height, cx, cy) then c else CellAt(before, width, height, col, row)
      {
        PutCellAt(before, width, height, cx, cy, c, col, row);
      }
    }
  }
}
