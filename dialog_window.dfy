/** The dialog typewriter (src/main/java/victory/engine/gui/DialogWindow.java):
    a text grid that reveals a queue of pending text one character at a time,
    paced by a timer, with word wrap, scrolling, and a "hold ACCEPT to skip"
    speed-up; it asks to be closed once the queue is empty and ACCEPT or CANCEL
    is freshly pressed. */
module Dialog {
  import opened TextGrid
  import opened Input

  /** Share of the per-character delay that is charged while skipping. */
  const QueueFactor: real := 0.3
  /** The "more/done" indicator glyph. */
  const DoneGlyph: char := 0x02 as char

  /** Length of the run of characters before the first space (the whole string
      when it has none): the word about to be typed. */
  function RunLength(s: string): (n: nat)
    ensures n <= |s|
    ensures forall k :: 0 <= k < n ==> s[k] != ' '
    ensures n < |s| ==> s[n] == ' '
  {
    if s == [] || s[0] == ' ' then 0 else 1 + RunLength(s[1..])
  }

  /** The buffer part-way through `scrollUp`'s first loop nest: rows 1 to sy-1,
      and columns 1 to sx-1 of row sy, hold the interior of the row below them;
      every other cell is as before. */
  function Shifting(before: seq<char>, w: int, h: int, sy: int, sx: int): (int, int) -> char
    requires |before| == w * h
  {
    (c, r) =>
      if 1 <= c < w - 1 && (1 <= r < sy || (r == sy && c < sx)) then CellAt(before, w, h, c, r + 1)
      else CellAt(before, w, h, c, r)
  }

  /** The buffer part-way through `scrollUp`'s clearing loop: rows 1 to h-3 are
      shifted, columns 1 to x-1 of row h-1 are blank, every other cell is as
      before. */
  function Clearing(before: seq<char>, w: int, h: int, x: int): (int, int) -> char
    requires |before| == w * h
  {
    (c, r) =>
      if 1 <= c < w - 1 && 1 <= r < h - 2 then CellAt(before, w, h, c, r + 1)
      else if 1 <= c < x && r == h - 1 then Blank
      else CellAt(before, w, h, c, r)
  }

  /** `scrollUp` on a buffer: rows 1 to h-3 take the interior of the row below,
      columns 1 to w-2 of row h-1 (the bottom border row) become blank, and
      every other cell keeps its glyph. */
  function ScrollCells(cells: seq<char>, w: int, h: int): (r: seq<char>)
    requires 2 <= w && 2 <= h && |cells| == w * h
    ensures |r| == |cells|
  {
    Tabulate(w, h, Clearing(cells, w, h, w - 1))
  }

  /** What `scrollUp` does to each cell, stated cell by cell. */
  lemma ScrollCellsAt(cells: seq<char>, w: int, h: int, c: int, r: int)
    requires 2 <= w && 2 <= h && |cells| == w * h && InGrid(w, h, c, r)
    ensures CellAt(ScrollCells(cells, w, h), w, h, c, r) ==
      if 1 <= c < w - 1 && 1 <= r < h - 2 then CellAt(cells, w, h, c, r + 1)
      else if 1 <= c < w - 1 && r == h - 1 then Blank
      else CellAt(cells, w, h, c, r)
  {
    TabulateAt(w, h, Clearing(cells, w, h, w - 1), c, r);
  }

  lemma ShiftStart(before: seq<char>, w: int, h: int)
    requires 2 <= w && 2 <= h && |before| == w * h
    ensures Tabulate(w, h, Shifting(before, w, h, 1, 1)) == before
  {
    TabulateExt(w, h, Shifting(before, w, h, 1, 1), (c, r) => CellAt(before, w, h, c, r));
    TabulateSelf(before, w, h);
  }

  lemma ShiftStep(before: seq<char>, w: int, h: int, sy: int, sx: int)
    requires 2 <= w && 2 <= h && |before| == w * h
    requires 1 <= sy < h - 2 && 1 <= sx < w - 1
    ensures var t := Tabulate(w, h, Shifting(before, w, h, sy, sx));
      PutCell(t, w, h, sx, sy, CellAt(t, w, h, sx, sy + 1)) == Tabulate(w, h, Shifting(before, w, h, sy, sx + 1))
  {
    TabulateAt(w, h, Shifting(before, w, h, sy, sx), sx, sy + 1);
    TabulatePut(w, h, Shifting(before, w, h, sy, sx), Shifting(before, w, h, sy, sx + 1), sx, sy);
  }

  lemma ShiftRowDone(before: seq<char>, w: int, h: int, sy: int)
    requires 2 <= w && 2 <= h && |before| == w * h && 1 <= sy
    ensures Tabulate(w, h, Shifting(before, w, h, sy, w - 1)) == Tabulate(w, h, Shifting(before, w, h, sy + 1, 1))
  {
    TabulateExt(w, h, Shifting(before, w, h, sy, w - 1), Shifting(before, w, h, sy + 1, 1));
  }

  lemma ShiftDone(before: seq<char>, w: int, h: int, sy: int)
    requires 2 <= w && 2 <= h && |before| == w * h
    requires sy == h - 2 || (sy == 1 && h <= 3)
    ensures Tabulate(w, h, Shifting(before, w, h, sy, 1)) == Tabulate(w, h, Clearing(before, w, h, 1))
  {
    TabulateExt(w, h, Shifting(before, w, h, sy, 1), Clearing(before, w, h, 1));
  }

  lemma ClearStep(before: seq<char>, w: int, h: int, x: int)
    requires 2 <= w && 2 <= h && |before| == w * h && 1 <= x < w - 1
    ensures PutCell(Tabulate(w, h, Clearing(before, w, h, x)), w, h, x, h - 1, Blank)
            == Tabulate(w, h, Clearing(before, w, h, x + 1))
  {
    TabulatePut(w, h, Clearing(before, w, h, x), Clearing(before, w, h, x + 1), x, h - 1);
  }

  /** The typewriter's state as a value. */
  datatype Typist = Typist(cells: seq<char>, qx: int, qy: int, queue: string, timer: real)

  /** Where the head of the queue goes, before any scroll: the cursor moves to
      column 1 of a later row when the word does not fit before column w-2, when
      the cursor has reached column w-2, or when the head is a newline; it moves
      down two rows when the word does not fit and, back at column 1, the head
      is a newline or column 1 is itself at or past w-2. */
  function Wrapped(qx: int, qy: int, queue: string, w: int): (p: (int, int))
    requires queue != []
    ensures var breaks := qx + RunLength(queue) >= w - 2 || qx >= w - 2 || queue[0] == '\n';
      && (breaks <==> p.1 > qy)
      && (breaks ==> p.0 == 1 && qy + 1 <= p.1 <= qy + 2)
      && (!breaks ==> p == (qx, qy))
      && (p.1 == qy + 2 <==> qx + RunLength(queue) >= w - 2 && (1 >= w - 2 || queue[0] == '\n'))
  {
    var (qx1, qy1) := if qx + RunLength(queue) >= w - 2 then (1, qy + 1) else (qx, qy);
    if qx1 >= w - 2 || queue[0] == '\n' then (1, qy1 + 1) else (qx1, qy1)
  }

  /** One pass of `update`'s loop: wrap, scroll when the cursor reached row h-1,
      place the head character, drop it from the queue, charge its cost, and
      advance the column. */
  function RevealStep(t: Typist, w: int, h: int, cost: real): (r: Typist)
    requires 2 <= w && 2 <= h && |t.cells| == w * h && t.queue != []
    ensures |r.cells| == |t.cells|
  {
    var p := Wrapped(t.qx, t.qy, t.queue, w);
    var scroll := p.1 == h - 1;
    var cells := if scroll then ScrollCells(t.cells, w, h) else t.cells;
    var row := if scroll then p.1 - 1 else p.1;
    Typist(PutCell(cells, w, h, p.0, row, t.queue[0]), p.0 + 1, row, t.queue[1..], t.timer - cost)
  }

  /** `update`'s loop: reveal while the timer has reached the per-character
      delay and text is pending. */
  function Reveal(t: Typist, w: int, h: int, tickLength: real, cost: real): (r: Typist)
    requires 2 <= w && 2 <= h && |t.cells| == w * h
    ensures |r.cells| == |t.cells|
    decreases |t.queue|
  {
    if t.timer >= tickLength && t.queue != [] then
      Reveal(RevealStep(t, w, h, cost), w, h, tickLength, cost)
    else t
  }

  /** Total cost of revealing n characters. */
  function Spent(n: int, cost: real): real {
    if n <= 0 then 0.0 else Spent(n - 1, cost) + cost
  }

  /** A step takes exactly the head character off the queue, charges its cost,
      scrolls exactly when the wrapped cursor sits on row h-1, and leaves the
      head character on the cell just left of the new cursor (when that cell is
      inside the grid) with every other cell as before (or as scrolled). */
  lemma RevealStepPlacesHead(t: Typist, w: int, h: int, cost: real)
    requires 2 <= w && 2 <= h && |t.cells| == w * h && t.queue != []
    ensures var r := RevealStep(t, w, h, cost);
      var p := Wrapped(t.qx, t.qy, t.queue, w);
      var base := if p.1 == h - 1 then ScrollCells(t.cells, w, h) else t.cells;
      && r.queue == t.queue[1..]
      && r.timer == t.timer - cost
      && r.qx == p.0 + 1
      && r.qy == (if p.1 == h - 1 then h - 2 else p.1)
      && (forall c, row :: InGrid(w, h, c, row) ==>
            CellAt(r.cells, w, h, c, row) ==
              if c == r.qx - 1 && row == r.qy then t.queue[0] else CellAt(base, w, h, c, row))
  {
    var r := RevealStep(t, w, h, cost);
    var p := Wrapped(t.qx, t.qy, t.queue, w);
    var base := if p.1 == h - 1 then ScrollCells(t.cells, w, h) else t.cells;
    forall c, row | InGrid(w, h, c, row)
      ensures CellAt(r.cells, w, h, c, row) ==
              if c == r.qx - 1 && row == r.qy then t.queue[0] else CellAt(base, w, h, c, row)
    {
      PutCellAt(base, w, h, r.qx - 1, r.qy, t.queue[0], c, row);
    }
  }

  /** What a whole `update` reveals: some n characters, exactly the first n of
      the queue (the rest stays queued, in order); the timer is charged n times
      the cost; every one of those n passes started with the timer at or above
      the delay; and the loop stops with the queue empty or the timer below the
      delay. */
  lemma {:induction false} RevealOutcome(t: Typist, w: int, h: int, tickLength: real, cost: real)
    requires 2 <= w && 2 <= h && |t.cells| == w * h
    ensures var r := Reveal(t, w, h, tickLength, cost);
      var n := |t.queue| - |r.queue|;
      && 0 <= n
      && r.queue == t.queue[n..]
      && r.timer == t.timer - Spent(n, cost)
      && (forall k :: 0 <= k < n ==> t.timer - Spent(k, cost) >= tickLength)
      && (r.queue == [] || r.timer < tickLength)
    decreases |t.queue|
  {
    if t.timer >= tickLength && t.queue != [] {
      var s := RevealStep(t, w, h, cost);
      assert s.queue == t.queue[1..] && s.timer == t.timer - cost;
      RevealOutcome(s, w, h, tickLength, cost);
      var r := Reveal(s, w, h, tickLength, cost);
      var m := |s.queue| - |r.queue|;
      assert r.queue == t.queue[m + 1..];
      forall k | 0 <= k < m + 1
        ensures t.timer - Spent(k, cost) >= tickLength
      {
        if k > 0 {
          assert s.timer - Spent(k - 1, cost) >= tickLength;
        }
      }
    }
  }

  class DialogWindow {
    const grid: Window
    /** The cursor: where the next character goes. */
    var qx: int
    var qy: int
    var textQueue: string
    /** Ticks accumulated since the last character. */
    var tickCount: real
    /** Ticks per character. */
    const tickLength: real
    /** Whether ACCEPT was held at the last `control`. */
    var skipping: bool

    ghost predicate Valid() {
      grid.Valid()
    }

    function Snapshot(): Typist
      reads this, grid.win
    {
      Typist(grid.win[..], qx, qy, textQueue, tickCount)
    }

    /** Timer charge per revealed character. */
    function Cost(skip: bool): real {
      if skip then tickLength * QueueFactor else tickLength
    }

    constructor (sx: int, sy: int, w: int, h: int, s: string)
      ensures Valid() && fresh(grid) && fresh(grid.win)
      ensures grid.x == sx && grid.y == sy
      ensures grid.width == (if w > 1 then w else 2) && grid.height == (if h > 1 then h else 2)
      ensures grid.win[..] == Bordered(grid.width, grid.height)
      ensures textQueue == s && qx == 1 && qy == 1
      ensures tickCount == 0.0 && tickLength == 6.0 && !skipping
    {
      grid := new Window(sx, sy, w, h);
      textQueue := s;
      qx, qy := 1, 1;
      tickCount := 0.0;
      tickLength := 6.0;
      skipping := false;
    }

    /** Starts a new page: blank bordered grid, cursor at (1, 1), pending text s. */
    method Queue(s: string)
      requires Valid()
      modifies this`qx, this`qy, this`textQueue, grid.win
      ensures grid.win[..] == Bordered(grid.width, grid.height)
      ensures qx == 1 && qy == 1 && textQueue == s
    {
      grid.SetupBorders();
      qx, qy := 1, 1;
      textQueue := s;
    }

    method ScrollUp()
      requires Valid()
      modifies this`qy, grid.win
      ensures grid.win[..] == ScrollCells(old(grid.win[..]), grid.width, grid.height)
      ensures qy == old(qy) - 1
    {
      ghost var before := grid.win[..];
      ghost var w, h := grid.width, grid.height;
      ShiftStart(before, w, h);
      var sy := 1;
      while sy < grid.GetHeight() - 2
        invariant 1 <= sy && (sy == 1 || sy <= h - 2)
        modifies grid.win
        invariant grid.win[..] == Tabulate(w, h, Shifting(before, w, h, sy, 1))
      {
        var sx := 1;
        while sx < grid.GetWidth() - 1
          invariant 1 <= sx <= w - 1
          modifies grid.win
          invariant grid.win[..] == Tabulate(w, h, Shifting(before, w, h, sy, sx))
        {
          ShiftStep(before, w, h, sy, sx);
          grid.Put(sx, sy, grid.GetAt(sx, sy + 1));
          sx := sx + 1;
        }
        ShiftRowDone(before, w, h, sy);
        sy := sy + 1;
      }
      ShiftDone(before, w, h, sy);
      var x := 1;
      while x < grid.GetWidth() - 1
        invariant 1 <= x <= w - 1
        modifies grid.win
        invariant grid.win[..] == Tabulate(w, h, Clearing(before, w, h, x))
      {
        ClearStep(before, w, h, x);
        grid.Put(x, grid.GetHeight() - 1, Blank);
        x := x + 1;
      }
      qy := qy - 1;
    }

    /** One pass of `update`'s loop. */
    method TypeNext()
      requires Valid() && textQueue != []
      modifies this`qx, this`qy, this`textQueue, this`tickCount, grid.win
      ensures Snapshot() == RevealStep(old(Snapshot()), grid.width, grid.height, Cost(skipping))
    {
      ghost var t, w, h := Snapshot(), grid.width, grid.height;
      ghost var p := Wrapped(t.qx, t.qy, t.queue, w);
      ghost var scroll := p.1 == h - 1;
      ghost var row := if scroll then p.1 - 1 else p.1;
      WrapCursor();
      if qy == grid.GetHeight() - 1 {
        ScrollUp();
      }
      assert qx == p.0 && qy == row;
      assert grid.win[..] == (if scroll then ScrollCells(t.cells, w, h) else t.cells);
      grid.Put(qx, qy, textQueue[0]);
      ghost var cells := PutCell(if scroll then ScrollCells(t.cells, w, h) else t.cells, w, h, p.0, row, t.queue[0]);
      assert grid.win[..] == cells;
      textQueue := textQueue[1..];
      if skipping {
        tickCount := tickCount - tickLength * QueueFactor;
      } else {
        tickCount := tickCount - tickLength;
      }
      qx := qx + 1;
      assert Snapshot() == Typist(cells, p.0 + 1, row, t.queue[1..], t.timer - Cost(skipping));
    }

    /** The word-wrap part of a pass: measures the next word and moves the
        cursor as `Wrapped` says. */
    method WrapCursor()
      requires Valid() && textQueue != []
      modifies this`qx, this`qy
      ensures (qx, qy) == Wrapped(old(qx), old(qy), textQueue, grid.width)
    {
      var wordlength := 0;
      while wordlength < |textQueue| && textQueue[wordlength] != ' '
        invariant 0 <= wordlength <= RunLength(textQueue)
        modifies {}
      {
        wordlength := wordlength + 1;
      }
      if qx + wordlength >= grid.GetWidth() - 2 {
        qx := 1;
        qy := qy + 1;
      }
      if qx >= grid.GetWidth() - 2 || textQueue[0] == '\n' {
        qx := 1;
        qy := qy + 1;
      }
    }

    /** Adds `delta` ticks to the timer and reveals characters while the timer
        covers the delay; the skip request is then cleared. */
    method Update(delta: real)
      requires Valid()
      modifies this`qx, this`qy, this`textQueue, this`tickCount, this`skipping, grid.win
      ensures Snapshot() == Reveal(old(Snapshot()).(timer := old(tickCount) + delta),
                                   grid.width, grid.height, tickLength, Cost(old(skipping)))
      ensures !skipping
    {
      tickCount := tickCount + delta;
      ghost var w, h := grid.width, grid.height;
      ghost var goal := Reveal(Snapshot(), w, h, tickLength, Cost(skipping));
      while tickCount >= tickLength && |textQueue| > 0
        invariant skipping == old(skipping)
        invariant Reveal(Snapshot(), w, h, tickLength, Cost(skipping)) == goal
        decreases |textQueue|
      {
        TypeNext();
      }
      skipping := false;
    }

    /** Shows the indicator once the queue is empty; asks to be closed (1) when
        the queue is empty and ACCEPT or CANCEL is freshly pressed, and otherwise
        answers 0 and requests skipping while ACCEPT is held. */
    method Control(k: KeyStateManager) returns (r: int)
      requires Valid() && k.Valid()
      modifies this`skipping, grid.win
      ensures r == (if textQueue == [] && (k.WasButtonPressed(Accept) || k.WasButtonPressed(Cancel)) then 1 else 0)
      ensures grid.win[..] ==
        if textQueue == [] then PutCell(old(grid.win[..]), grid.width, grid.height, grid.width - 2, grid.height - 2, DoneGlyph)
        else old(grid.win[..])
      ensures skipping == (old(skipping) || (r == 0 && k.IsButtonDown(Accept)))
    {
      if textQueue == "" {
        grid.Put(grid.GetWidth() - 2, grid.GetHeight() - 2, DoneGlyph);
      }
      if (k.WasButtonPressed(Accept) || k.WasButtonPressed(Cancel)) && textQueue == "" {
        return 1;
      } else if k.IsButtonDown(Accept) {
        skipping := true;
      }
      return 0;
    }
  }
}
