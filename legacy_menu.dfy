/** The menu of the older engine package (src/victory/engine/Menu.java): the
    same grid and labels as the current menu, but UP and DOWN take priority
    over ACCEPT and CANCEL, the cursor column is redrawn by `control` itself,
    a chosen entry is handed to `fire` (which does nothing), and `update` is
    the no-op the older GUI interface inherits. */
module LegacyMenu {
  import opened TextGrid
  import opened Input
  import opened MenuLayout
  import GuiMenu

  /** `control`'s selection logic: UP, then DOWN, then ACCEPT, then CANCEL, the
      first one freshly pressed wins; then the cursor rolls over. */
  function Select(sel: Selection, p: Presses, n: int): Selection {
    var moved :=
      if p.up then sel.(current := sel.current - 1)
      else if p.down then sel.(current := sel.current + 1)
      else if p.accept then sel.(valid := true)
      else if p.cancel then Selection(0, true)
      else sel;
    moved.(current := Wrap(moved.current, n))
  }

  /** The selection logic against a reference: with the cursor on a choice, UP
      and DOWN step modulo the number of choices, otherwise ACCEPT makes the
      choice and CANCEL makes the first choice. */
  lemma {:induction false} SelectCases(sel: Selection, p: Presses, n: int)
    requires 0 <= sel.current < n
    ensures Select(sel, p, n) ==
      if p.up then Selection((sel.current - 1 + n) % n, sel.valid)
      else if p.down then Selection((sel.current + 1) % n, sel.valid)
      else if p.accept then Selection(sel.current, true)
      else if p.cancel then Selection(0, true)
      else sel
  {
    WrapIsModular(sel.current, n);
  }

  /** The two menus part ways when UP and ACCEPT arrive in the same frame: the
      current menu makes the highlighted choice, this one moves the cursor and
      makes no choice. */
  lemma PriorityDiffers(c: int, n: int)
    requires 0 <= c < n
    ensures var p := Presses(true, false, true, false);
      && Outcome(GuiMenu.Select(Selection(c, false), p, n)) == c + 1
      && Outcome(Select(Selection(c, false), p, n)) == 0
  {
  }

  class Menu {
    const grid: Window
    const choices: seq<string>
    var current: int
    var valid: bool
    /** The choices handed to `fire`, in order. */
    ghost var fired: seq<int>

    ghost predicate Valid() {
      grid.Valid() && grid.height == |choices| + 2
    }

    constructor (nx: int, ny: int, s: seq<string>)
      ensures Valid() && fresh(grid) && fresh(grid.win)
      ensures choices == s && current == 0 && !valid && fired == []
      ensures grid.x == nx && grid.y == ny && grid.height == |s| + 2
      ensures forall i :: 0 <= i < |s| ==> 2 + |s[i]| <= grid.width - 1
      ensures grid.width == 3 || exists i :: 0 <= i < |s| && grid.width == |s[i]| + 3
      ensures grid.win[..] == Labelled(Bordered(grid.width, grid.height), grid.width, grid.height, s)
    {
      var m := MaxLength(s);
      grid := new Window(nx, ny, m + 3, |s| + 2);
      choices := s;
      current := 0;
      valid := false;
      fired := [];
      new;
      ghost var blank := grid.win[..];
      var i := 0;
      while i < |s|
        invariant 0 <= i <= |s|
        invariant grid.win[..] == Labelled(blank, grid.width, grid.height, s[..i])
        modifies grid.win
      {
        WriteStaysInside(grid.win[..], grid.width, grid.height, 2, i + 1, s[i]);
        assert s[..i + 1][..i] == s[..i];
        var fault := grid.Write(2, i + 1, s[i]);
        assert !fault;
        i := i + 1;
      }
      assert s[..i] == s;
    }

    /** Applies the fresh presses, redraws the cursor column, and answers the
        outcome, firing the choice when one is made. */
    method Control(k: KeyStateManager) returns (r: int)
      requires Valid() && k.Valid()
      modifies this`current, this`valid, this`fired, grid.win
      ensures Selection(current, valid) == Select(old(Selection(current, valid)), FreshPresses(k), |choices|)
      ensures grid.win[..] == DrawCursor(old(grid.win[..]), grid.width, grid.height, |choices|, current)
      ensures r == Outcome(Selection(current, valid))
      ensures fired == if valid then old(fired) + [current] else old(fired)
    {
      Navigate(k);
      PlaceCursor(grid, |choices|, current);
      if !valid {
        return 0;
      } else {
        Fire(current);
        return current + 1;
      }
    }

    /** The key handling of `control`: UP, DOWN, ACCEPT, CANCEL in that order
        of precedence, then the wrap-around. */
    method Navigate(k: KeyStateManager)
      requires Valid() && k.Valid()
      modifies this`current, this`valid
      ensures Selection(current, valid) == Select(old(Selection(current, valid)), FreshPresses(k), |choices|)
    {
      if k.WasButtonPressed(Up) {
        current := current - 1;
      } else if k.WasButtonPressed(Down) {
        current := current + 1;
      } else if k.WasButtonPressed(Accept) {
        valid := true;
      } else if k.WasButtonPressed(Cancel) {
        valid := true;
        current := 0;
      }
      if current < 0 {
        current := |choices| - 1;
      }
      if current >= |choices| {
        current := 0;
      }
    }

    /** The resolution hook: does nothing but record the choice. */
    method Fire(choice: int)
      modifies this`fired
      ensures fired == old(fired) + [choice]
    {
      fired := fired + [choice];
    }
  }
}
