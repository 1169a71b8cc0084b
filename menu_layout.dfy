/** What the two `Menu` classes (src/main/java/victory/engine/gui/Menu.java and
    src/victory/engine/Menu.java) share: the widest-label helper, the roll-over
    of the selection cursor, the return code, the cursor column and the labels
    written by the constructor. */
module MenuLayout {
  import opened TextGrid
  import opened Input

  /** The selection cursor glyph. */
  const CursorGlyph: char := 0x01 as char

  /** `maxLength`: the length of the longest label, 0 when there is none. */
  method MaxLength(s: seq<string>) returns (m: int)
    ensures 0 <= m
    ensures forall i :: 0 <= i < |s| ==> |s[i]| <= m
    ensures m == 0 || exists i :: 0 <= i < |s| && |s[i]| == m
  {
    var res := 0;
    var i := 0;
    while i < |s|
      invariant 0 <= i <= |s| && 0 <= res
      invariant forall j :: 0 <= j < i ==> |s[j]| <= res
      invariant res == 0 || exists j :: 0 <= j < i && |s[j]| == res
    {
      res := if |s[i]| > res then |s[i]| else res;
      i := i + 1;
    }
    return res;
  }

  /** The buttons freshly pressed this frame, as the menus read them. */
  datatype Presses = Presses(up: bool, down: bool, accept: bool, cancel: bool)

  function FreshPresses(k: KeyStateManager): Presses
    requires k.Valid()
    reads k.keys, k.keysLast
  {
    Presses(k.WasButtonPressed(Up), k.WasButtonPressed(Down), k.WasButtonPressed(Accept), k.WasButtonPressed(Cancel))
  }

  /** A menu's selection state: the highlighted choice and whether one was made. */
  datatype Selection = Selection(current: int, valid: bool)

  /** The roll-over adjustment after a move: below 0 becomes n-1, then n or more
      becomes 0. With at least one choice, a cursor at most one step outside
      the range lands inside it, and a cursor inside the range stays put. */
  function Wrap(c: int, n: int): (r: int)
    ensures 1 <= n && -1 <= c <= n ==> 0 <= r < n
    ensures 0 <= c < n ==> r == c
  {
    var c1 := if c < 0 then n - 1 else c;
    if c1 >= n then 0 else c1
  }

  /** Stepping up or down from a choice and rolling over is stepping modulo n. */
  lemma WrapIsModular(c: int, n: int)
    requires 0 <= c < n
    ensures Wrap(c - 1, n) == (c - 1 + n) % n
    ensures Wrap(c + 1, n) == (c + 1) % n
  {
    if c == 0 {
      assert (c - 1 + n) % n == n - 1;
    } else {
      assert (c - 1 + n) % n == c - 1;
    }
    if c + 1 == n {
      assert (c + 1) % n == 0;
    } else {
      assert (c + 1) % n == c + 1;
    }
  }

  /** UP and DOWN undo each other: from any choice, a step up then a step down
      (or the reverse) returns to it. */
  lemma {:induction false} WrapUpDownInverse(c: int, n: int)
    requires 0 <= c < n
    ensures Wrap(Wrap(c - 1, n) + 1, n) == c
    ensures Wrap(Wrap(c + 1, n) - 1, n) == c
  {
    WrapIsModular(c, n);
    var u := Wrap(c - 1, n);
    var d := Wrap(c + 1, n);
    WrapIsModular(u, n);
    WrapIsModular(d, n);
  }

  /** A menu with no choices rolls -1 over to -1: after UP its cursor stays
      outside every choice. */
  lemma EmptyMenuRollsToMinusOne()
    ensures Wrap(0 - 1, 0) == -1
    ensures Wrap(-1 + 1, 0) == 0
  {
  }

  /** The return code of `control`: 0 while no choice was made, otherwise the
      1-based index of the highlighted choice; it is 0 exactly when no choice
      was made or the cursor sits at -1. */
  function Outcome(sel: Selection): (r: int)
    ensures r == 0 <==> !sel.valid || sel.current == -1
    ensures sel.valid ==> r == sel.current + 1
  {
    if !sel.valid then 0 else sel.current + 1
  }

  // ---------------------------------------------------------------------
  // The cursor column.

  /** The buffer after the clearing loop has blanked column 1 of rows 1 to
      i-1. */
  function CursorCleared(cells: seq<char>, w: int, h: int, i: int): (int, int) -> char
    requires |cells| == w * h
  {
    (c, r) => if c == 1 && 1 <= r < i then Blank else CellAt(cells, w, h, c, r)
  }

  /** Column 1 of rows 1 to n blanked, then the cursor glyph put at row cur+1. */
  function DrawCursor(cells: seq<char>, w: int, h: int, n: int, cur: int): (r: seq<char>)
    requires 0 < w && 0 <= h && |cells| == w * h
    ensures |r| == |cells|
  {
    PutCell(Tabulate(w, h, CursorCleared(cells, w, h, n + 1)), w, h, 1, cur + 1, CursorGlyph)
  }

  /** With the cursor on a choice, column 1 shows the cursor glyph on that
      choice's row and blanks on every other choice row; no other cell changes. */
  lemma CursorDrawn(cells: seq<char>, w: int, h: int, n: int, cur: int, c: int, r: int)
    requires 2 <= w && h == n + 2 && |cells| == w * h && 0 <= cur < n
    requires InGrid(w, h, c, r)
    ensures CellAt(DrawCursor(cells, w, h, n, cur), w, h, c, r) ==
      if c == 1 && r == cur + 1 then CursorGlyph
      else if c == 1 && 1 <= r <= n then Blank
      else CellAt(cells, w, h, c, r)
  {
    PutCellAt(Tabulate(w, h, CursorCleared(cells, w, h, n + 1)), w, h, 1, cur + 1, CursorGlyph, c, r);
    TabulateAt(w, h, CursorCleared(cells, w, h, n + 1), c, r);
  }

  /** A menu with no choices is two rows high; with its cursor at -1 the cursor
      glyph is drawn on the top border. */
  lemma EmptyMenuCursorOnBorder(cells: seq<char>, w: int)
    requires 2 <= w && |cells| == w * 2
    ensures CellAt(DrawCursor(cells, w, 2, 0, -1), w, 2, 1, 0) == CursorGlyph
  {
    PutCellAt(Tabulate(w, 2, CursorCleared(cells, w, 2, 1)), w, 2, 1, 0, CursorGlyph, 1, 0);
  }

  lemma ClearCursorStep(cells: seq<char>, w: int, h: int, i: int)
    requires 2 <= w && 0 <= h && |cells| == w * h && 1 <= i < h
    ensures PutCell(Tabulate(w, h, CursorCleared(cells, w, h, i)), w, h, 1, i, Blank)
            == Tabulate(w, h, CursorCleared(cells, w, h, i + 1))
  {
    TabulatePut(w, h, CursorCleared(cells, w, h, i), CursorCleared(cells, w, h, i + 1), 1, i);
  }

  lemma ClearCursorStart(cells: seq<char>, w: int, h: int)
    requires 0 < w && 0 <= h && |cells| == w * h
    ensures Tabulate(w, h, CursorCleared(cells, w, h, 1)) == cells
  {
    TabulateExt(w, h, CursorCleared(cells, w, h, 1), (c, r) => CellAt(cells, w, h, c, r));
    TabulateSelf(cells, w, h);
  }

  /** The cursor loop both menus run: blank column 1 of rows 1 to n, then put
      the cursor glyph at row cur+1. */
  method PlaceCursor(grid: Window, n: int, cur: int)
    requires grid.Valid() && grid.height == n + 2
    modifies grid.win
    ensures grid.win[..] == DrawCursor(old(grid.win[..]), grid.width, grid.height, n, cur)
  {
    ghost var before := grid.win[..];
    ghost var w, h := grid.width, grid.height;
    ClearCursorStart(before, w, h);
    var i := 1;
    while i <= n
      invariant 1 <= i <= n + 1
      invariant grid.win[..] == Tabulate(w, h, CursorCleared(before, w, h, i))
    {
      ClearCursorStep(before, w, h, i);
      grid.Put(1, i, Blank);
      i := i + 1;
    }
    grid.Put(1, cur + 1, CursorGlyph);
  }

  // ---------------------------------------------------------------------
  // The labels.

  /** The constructor's loop on a buffer: label i written from column 2 of row
      i+1, in order. */
  function Labelled(cells: seq<char>, w: int, h: int, choices: seq<string>): (r: seq<char>)
    requires |cells| == w * h
    ensures |r| == |cells|
    decreases |choices|
  {
    if choices == [] then cells
    else
      var n := |choices| - 1;
      WriteFrom(Labelled(cells, w, h, choices[..n]), w, h, 2, n + 1, choices[n]).cells
  }

  /** Labels without newlines that fit the width each occupy their own row,
      starting at column 2; every other cell is as before. */
  lemma {:induction false} LabelsInPlace(cells: seq<char>, w: int, h: int, choices: seq<string>)
    requires 2 <= w && |choices| + 2 <= h && |cells| == w * h
    requires forall i :: 0 <= i < |choices| ==> 2 + |choices[i]| <= w - 1
    requires forall i, k :: 0 <= i < |choices| && 0 <= k < |choices[i]| ==> choices[i][k] != '\n'
    ensures forall c, r :: InGrid(w, h, c, r) ==>
      CellAt(Labelled(cells, w, h, choices), w, h, c, r) ==
        if 1 <= r <= |choices| && 2 <= c < 2 + |choices[r - 1]| then choices[r - 1][c - 2]
        else CellAt(cells, w, h, c, r)
    decreases |choices|
  {
    if choices != [] {
      var n := |choices| - 1;
      var prefix := choices[..n];
      LabelsInPlace(cells, w, h, prefix);
      var mid := Labelled(cells, w, h, prefix);
      WriteRun(mid, w, h, 2, n + 1, choices[n]);
    }
  }
}
