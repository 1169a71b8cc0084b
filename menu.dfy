/** The menu of the current GUI package (src/main/java/victory/engine/gui/Menu.java):
    a bordered grid listing the choices, a selection cursor moved by UP and
    DOWN with roll-over, ACCEPT to choose the highlighted entry and CANCEL to
    choose the first; the cursor column is redrawn by `update`. */
module GuiMenu {
  import opened TextGrid
  import opened Input
  import opened MenuLayout

  /** `control`'s selection logic: ACCEPT, then CANCEL, then UP, then DOWN, the
      first one freshly pressed wins; then the cursor rolls over. */
  function Select(sel: Selection, p: Presses, n: int): Selection {
    var moved :=
      if p.accept then sel.(valid := true)
      else if p.cancel then Selection(0, true)
      else if p.up then sel.(current := sel.current - 1)
      else if p.down then sel.(current := sel.current + 1)
      else sel;
    moved.(current := Wrap(moved.current, n))
  }

  /** The selection logic against a reference: with the cursor on a choice,
      ACCEPT makes the choice, CANCEL makes the first choice, UP and DOWN step
      modulo the number of choices, and no press changes nothing. */
  lemma {:induction false} SelectCases(sel: Selection, p: Presses, n: int)
    requires 0 <= sel.current < n
    ensures Select(sel, p, n) ==
      if p.accept then Selection(sel.current, true)
      else if p.cancel then Selection(0, true)
      else if p.up then Selection((sel.current - 1 + n) % n, sel.valid)
      else if p.down then Selection((sel.current + 1) % n, sel.valid)
      else sel
  {
    WrapIsModular(sel.current, n);
  }

  /** `control` keeps the cursor on a choice, never withdraws a choice once
      made, and returns 0 exactly while no choice was made, otherwise a number
      from 1 to n. */
  lemma ControlInvariant(sel: Selection, p: Presses, n: int)
    requires 0 <= sel.current < n
    ensures var s := Select(sel, p, n);
      && 0 <= s.current < n
      && (sel.valid ==> s.valid)
      && (Outcome(s) == 0 <==> !s.valid)
      && (s.valid ==> 1 <= Outcome(s) <= n)
  {
  }

  /** CANCEL (without ACCEPT) always answers 1, whatever the cursor was on. */
  lemma CancelChoosesFirst(sel: Selection, p: Presses, n: int)
    requires p.cancel && !p.accept
    ensures Outcome(Select(sel, p, n)) == 1
  {
  }

  class Menu {
    const grid: Window
    const choices: seq<string>
    var current: int
    var valid: bool

    ghost predicate Valid() {
      grid.Valid() && grid.height == |choices| + 2
    }

    /** Sizes the window to the widest label plus 3 by the number of labels
        plus 2, and writes label i from column 2 of row i+1. */
    constructor (nx: int, ny: int, s: seq<string>)
      ensures Valid() && fresh(grid) && fresh(grid.win)
      ensures choices == s && current == 0 && !valid
      ensures grid.x == nx && grid.y == ny && grid.height == |s| + 2
      ensures forall i :: 0 <= i < |s| ==> 2 + |s[i]| <= grid.width - 1
      ensures grid.width == 3 || exists i :: 0 <= i < |s| && grid.width == |s[i]| + 3
      ensures grid.win[..] == Labelled(Bordered(grid.width, grid.height), grid.width, grid.height, s)
    {
      var m := MaxLength(s);
      grid := new Window(nx, ny, m + 3, |s| + 2);
      choices := s;
      current := 0;
      valid := false;
      new;
      ghost var blank := grid.win[..];
      var i := 0;
      while i < |s|
        invariant 0 <= i <= |s|
        invariant grid.win[..] == Labelled(blank, grid.width, grid.height, s[..i])
        modifies grid.win
      {
        WriteStaysInside(grid.win[..], grid.width, grid.height, 2, i + 1, s[i]);
        assert s[..i + 1][..i] == s[..i];
        var fault := grid.Write(2, i + 1, s[i]);
        assert !fault;
        i := i + 1;
      }
      assert s[..i] == s;
    }

    /** Applies the fresh presses to the selection and answers the outcome. */
    method Control(k: KeyStateManager) returns (r: int)
      requires Valid() && k.Valid()
      modifies this`current, this`valid
      ensures Selection(current, valid) == Select(old(Selection(current, valid)), FreshPresses(k), |choices|)
      ensures r == Outcome(Selection(current, valid))
    {
      if k.WasButtonPressed(Accept) {
        valid := true;
      } else if k.WasButtonPressed(Cancel) {
        valid := true;
        current := 0;
      } else if k.WasButtonPressed(Up) {
        current := current - 1;
      } else if k.WasButtonPressed(Down) {
        current := current + 1;
      }
      if current < 0 {
        current := |choices| - 1;
      }
      if current >= |choices| {
        current := 0;
      }
      if !valid {
        return 0;
      } else {
        return current + 1;
      }
    }

    /** Redraws the cursor column. */
    method Update(delta: real)
      requires Valid()
      modifies grid.win
      ensures grid.win[..] == DrawCursor(old(grid.win[..]), grid.width, grid.height, |choices|, current)
    {
      PlaceCursor(grid, |choices|, current);
    }
  }
}
