/** The modal GUI stack (src/victory/engine/GUIEngine.java): surfaces are pushed
    on a stack; input goes only to the top surface, which is popped once it
    answers a nonzero code; time updates and drawing visit every surface from
    the bottom of the stack to the top. */
module GuiStack {
  import opened Input
  import opened TextGrid
  import Dialog
  import MenuLayout
  import GuiMenu
  import LegacyMenu

  /** The game world as a surface. Its internals (the map, its entities and
      their collisions) are not part of this model: its `control` answers some
      fixed function of the key state, and its time update is not modelled. */
  class World {
    const react: (seq<bool>, seq<bool>) -> int

    constructor (react: (seq<bool>, seq<bool>) -> int)
      ensures this.react == react
    {
      this.react := react;
    }
  }

  /** Everything that can sit on the stack. */
  datatype Surface =
    | DialogSurface(dialog: Dialog.DialogWindow)
    | MenuSurface(menu: GuiMenu.Menu)
    | LegacyMenuSurface(legacy: LegacyMenu.Menu)
    | WorldSurface(world: World)

  /** The objects a surface may change when it is called. */
  ghost function Repr(s: Surface): set<object> {
    match s
    case DialogSurface(d) => {d, d.grid.win}
    case MenuSurface(m) => {m, m.grid.win}
    case LegacyMenuSurface(m) => {m, m.grid.win}
    case WorldSurface(_) => {}
  }

  ghost predicate SurfaceValid(s: Surface) {
    match s
    case DialogSurface(d) => d.Valid()
    case MenuSurface(m) => m.Valid()
    case LegacyMenuSurface(m) => m.Valid()
    case WorldSurface(_) => true
  }

  /** A surface's state as a value: everything its `control` and `update` read
      and change. */
  datatype SurfaceState =
    | DialogState(typist: Dialog.Typist, skipping: bool)
    | MenuState(sel: MenuLayout.Selection, cells: seq<char>)
    | LegacyMenuState(sel: MenuLayout.Selection, cells: seq<char>, fired: seq<int>)
    | WorldState

  /** Whether st is a state of surface s: the same kind, with a buffer of the
      surface's size. */
  ghost predicate Fits(s: Surface, st: SurfaceState) {
    match s
    case DialogSurface(d) => st.DialogState? && |st.typist.cells| == d.grid.width * d.grid.height
    case MenuSurface(m) => st.MenuState? && |st.cells| == m.grid.width * m.grid.height
    case LegacyMenuSurface(m) => st.LegacyMenuState? && |st.cells| == m.grid.width * m.grid.height
    case WorldSurface(_) => st.WorldState?
  }

  ghost function StateOf(s: Surface): (st: SurfaceState)
    reads Repr(s)
    ensures SurfaceValid(s) ==> Fits(s, st)
  {
    match s
    case DialogSurface(d) => DialogState(d.Snapshot(), d.skipping)
    case MenuSurface(m) => MenuState(MenuLayout.Selection(m.current, m.valid), m.grid.win[..])
    case LegacyMenuSurface(m) => LegacyMenuState(MenuLayout.Selection(m.current, m.valid), m.grid.win[..], m.fired)
    case WorldSurface(_) => WorldState
  }

  /** Whether button b is freshly pressed in the key state (now, last). */
  function Fresh(now: seq<bool>, last: seq<bool>, b: Button): bool
    requires |now| == KeyCount && |last| == KeyCount
  {
    now[b.Index()] && !last[b.Index()]
  }

  function PressesIn(now: seq<bool>, last: seq<bool>): MenuLayout.Presses
    requires |now| == KeyCount && |last| == KeyCount
  {
    MenuLayout.Presses(Fresh(now, last, Up), Fresh(now, last, Down), Fresh(now, last, Accept), Fresh(now, last, Cancel))
  }

  /** A surface's `control` on key state (now, last), from state st: its new
      state and its answer. */
  ghost function Controlled(s: Surface, st: SurfaceState, now: seq<bool>, last: seq<bool>): (r: (SurfaceState, int))
    requires SurfaceValid(s) && Fits(s, st) && |now| == KeyCount && |last| == KeyCount
    ensures Fits(s, r.0)
  {
    match s
    case DialogSurface(d) =>
      var t := st.typist;
      var answer := if t.queue == [] && (Fresh(now, last, Accept) || Fresh(now, last, Cancel)) then 1 else 0;
      var w, h := d.grid.width, d.grid.height;
      var cells := if t.queue == [] then PutCell(t.cells, w, h, w - 2, h - 2, Dialog.DoneGlyph) else t.cells;
      (DialogState(t.(cells := cells), st.skipping || (answer == 0 && now[Accept.Index()])), answer)
    case MenuSurface(m) =>
      var sel := GuiMenu.Select(st.sel, PressesIn(now, last), |m.choices|);
      (MenuState(sel, st.cells), MenuLayout.Outcome(sel))
    case LegacyMenuSurface(m) =>
      var sel := LegacyMenu.Select(st.sel, PressesIn(now, last), |m.choices|);
      var cells := MenuLayout.DrawCursor(st.cells, m.grid.width, m.grid.height, |m.choices|, sel.current);
      (LegacyMenuState(sel, cells, if sel.valid then st.fired + [sel.current] else st.fired), MenuLayout.Outcome(sel))
    case WorldSurface(w) => (st, w.react(now, last))
  }

  /** A surface's `update` by delta ticks, from state st. */
  ghost function Updated(s: Surface, st: SurfaceState, delta: real): (r: SurfaceState)
    requires SurfaceValid(s) && Fits(s, st)
    ensures Fits(s, r)
  {
    match s
    case DialogSurface(d) =>
      var t := st.typist;
      DialogState(Dialog.Reveal(t.(timer := t.timer + delta), d.grid.width, d.grid.height, d.tickLength, d.Cost(st.skipping)), false)
    case MenuSurface(m) =>
      MenuState(st.sel, MenuLayout.DrawCursor(st.cells, m.grid.width, m.grid.height, |m.choices|, st.sel.current))
    case LegacyMenuSurface(_) => st
    case WorldSurface(_) => st
  }

  /** The objects of all the surfaces of a stack. */
  ghost function ReprAll(all: seq<Surface>): (r: set<object>)
    ensures forall i :: 0 <= i < |all| ==> Repr(all[i]) <= r
  {
    if all == [] then {} else ReprAll(all[..|all| - 1]) + Repr(all[|all| - 1])
  }

  /** The states of the surfaces of `all`, bottom first. */
  ghost function States(all: seq<Surface>): (r: seq<SurfaceState>)
    reads ReprAll(all)
    ensures |r| == |all| && forall i :: 0 <= i < |all| ==> r[i] == StateOf(all[i])
  {
    seq(|all|, i requires 0 <= i < |all| reads if 0 <= i < |all| then Repr(all[i]) else {} => StateOf(all[i]))
  }

  /** `states` holds a state for each surface of `all`. */
  ghost predicate StatesFit(all: seq<Surface>, states: seq<SurfaceState>) {
    && |states| == |all|
    && forall i :: 0 <= i < |all| ==> SurfaceValid(all[i]) && Fits(all[i], states[i])
  }

  /** Every surface of the stack updated by delta, from states `states`. */
  ghost function UpdatedAll(stack: seq<Surface>, states: seq<SurfaceState>, delta: real): (r: seq<SurfaceState>)
    requires StatesFit(stack, states)
    ensures |r| == |stack| && forall i :: 0 <= i < |stack| ==> r[i] == Updated(stack[i], states[i], delta)
  {
    seq(|stack|, i requires 0 <= i < |stack| => Updated(stack[i], states[i], delta))
  }

  /** A stack whose objects were left alone keeps its states. */
  twostate lemma StatesFramed(stack: seq<Surface>)
    requires forall i :: 0 <= i < |stack| ==> unchanged(Repr(stack[i]))
    ensures States(stack) == old(States(stack))
  {
    assert forall i :: 0 <= i < |stack| ==> States(stack)[i] == old(States(stack))[i];
  }

  /** The states of the bottom part of a stack are the first states of the
      stack. */
  lemma StatesPrefix(stack: seq<Surface>, n: nat)
    requires n <= |stack|
    ensures States(stack[..n]) == States(stack)[..n]
  {
    var all, lo := States(stack), States(stack[..n]);
    assert forall i :: 0 <= i < n ==> lo[i] == StateOf(stack[i]) == all[i];
  }

  /** No two surfaces of the stack share an object. */
  ghost predicate Disjoint(stack: seq<Surface>) {
    forall i, j :: 0 <= i < |stack| && 0 <= j < |stack| && i != j ==> Repr(stack[i]) !! Repr(stack[j])
  }

  /** A call the stack makes on one of its surfaces. */
  datatype Call =
    | ControlCall(target: Surface, answer: int)
    | UpdateCall(target: Surface, delta: real)
    | DrawCall(target: Surface)

  /** The calls `update` makes on a stack, one per surface, bottom first. */
  function UpdateCalls(stack: seq<Surface>, delta: real): (r: seq<Call>)
    ensures |r| == |stack|
    ensures forall i :: 0 <= i < |r| ==> r[i] == UpdateCall(stack[i], delta)
  {
    seq(|stack|, i requires 0 <= i < |stack| => UpdateCall(stack[i], delta))
  }

  /** The calls `draw` makes on a stack, one per surface, bottom first. */
  function DrawCalls(stack: seq<Surface>): (r: seq<Call>)
    ensures |r| == |stack|
    ensures forall i :: 0 <= i < |r| ==> r[i] == DrawCall(stack[i])
  {
    seq(|stack|, i requires 0 <= i < |stack| => DrawCall(stack[i]))
  }

  /** The stack after `control`: popped once when the top answered nonzero. */
  function AfterControl(stack: seq<Surface>, answer: int): (r: seq<Surface>)
    ensures stack == [] ==> r == []
    ensures stack != [] && answer != 0 ==> |r| == |stack| - 1 && r == stack[..|stack| - 1]
    ensures stack != [] && answer == 0 ==> r == stack
  {
    if stack != [] && answer != 0 then stack[..|stack| - 1] else stack
  }

  /** `control` on the stack `stack` whose surfaces are in states `states`,
      with key state (now, last): the stack left, the states of its surfaces
      and the call made. */
  ghost function ControlledStack(stack: seq<Surface>, states: seq<SurfaceState>, now: seq<bool>, last: seq<bool>)
    : (r: (seq<Surface>, seq<SurfaceState>, seq<Call>))
    requires StatesFit(stack, states) && |now| == KeyCount && |last| == KeyCount
    ensures StatesFit(r.0, r.1)
  {
    if stack == [] then ([], [], [])
    else
      var n := |stack|;
      var c := Controlled(stack[n - 1], states[n - 1], now, last);
      var mid := AfterControl(stack, c.1);
      (mid, states[n - 1 := c.0][..|mid|], [ControlCall(stack[n - 1], c.1)])
  }

  /** Pushing a surface and then having it answer nonzero restores the stack. */
  lemma PushThenResolve(stack: seq<Surface>, g: Surface, answer: int)
    requires answer != 0
    ensures AfterControl(stack + [g], answer) == stack
  {
    assert (stack + [g])[..|stack|] == stack;
  }

  /** A zero answer never changes the stack, whatever it holds. */
  lemma {:induction false} ZeroAnswersKeepStack(stack: seq<Surface>, answers: seq<int>)
    requires forall i :: 0 <= i < |answers| ==> answers[i] == 0
    ensures Replay(stack, answers) == stack
    decreases |answers|
  {
    if answers != [] {
      ZeroAnswersKeepStack(stack, answers[1..]);
    }
  }

  /** The stack after a run of `control` calls answering `answers` in turn. */
  function Replay(stack: seq<Surface>, answers: seq<int>): (r: seq<Surface>)
    ensures |r| <= |stack|
    decreases |answers|
  {
    if answers == [] then stack else Replay(AfterControl(stack, answers[0]), answers[1..])
  }

  /** Each nonzero answer pops exactly one surface (while any is left): after a
      run of answers the stack is the bottom part of the original, shorter by
      the number of nonzero answers, down to empty. */
  lemma {:induction false} ReplayPops(stack: seq<Surface>, answers: seq<int>)
    ensures var popped := NonZero(answers);
      Replay(stack, answers) == if popped <= |stack| then stack[..|stack| - popped] else []
    decreases |answers|
  {
    if answers != [] {
      var next := AfterControl(stack, answers[0]);
      ReplayPops(next, answers[1..]);
      if stack != [] && answers[0] != 0 {
        var p := NonZero(answers[1..]);
        if p <= |next| {
          assert next[..|next| - p] == stack[..|stack| - (p + 1)];
        }
      } else if stack == [] {
        var p := NonZero(answers[1..]);
        if p <= 0 {
          assert next[..0] == [];
        }
      }
    }
  }

  /** How many answers are nonzero. */
  function NonZero(answers: seq<int>): nat {
    if answers == [] then 0 else (if answers[0] != 0 then 1 else 0) + NonZero(answers[1..])
  }

  /** One surface's `control`, with the key state as it is at the call. */
  method ControlSurface(s: Surface, k: KeyStateManager) returns (res: int)
    requires SurfaceValid(s) && k.Valid()
    modifies Repr(s)
    ensures var c := old(Controlled(s, StateOf(s), k.keys[..], k.keysLast[..]));
      StateOf(s) == c.0 && res == c.1
  {
    match s {
      case DialogSurface(d) =>
        res := ControlDialog(d, k);
      case MenuSurface(m) =>
        res := ControlMenu(m, k);
      case LegacyMenuSurface(m) =>
        res := ControlLegacyMenu(m, k);
      case WorldSurface(w) =>
        res := w.react(k.keys[..], k.keysLast[..]);
    }
  }

  method ControlDialog(d: Dialog.DialogWindow, k: KeyStateManager) returns (res: int)
    requires d.Valid() && k.Valid()
    modifies d, d.grid.win
    ensures var s := DialogSurface(d);
      var c := old(Controlled(s, StateOf(s), k.keys[..], k.keysLast[..]));
      StateOf(s) == c.0 && res == c.1
  {
    res := d.Control(k);
  }

  method ControlMenu(m: GuiMenu.Menu, k: KeyStateManager) returns (res: int)
    requires m.Valid() && k.Valid()
    modifies m, m.grid.win
    ensures var s := MenuSurface(m);
      var c := old(Controlled(s, StateOf(s), k.keys[..], k.keysLast[..]));
      StateOf(s) == c.0 && res == c.1
  {
    res := m.Control(k);
  }

  method ControlLegacyMenu(m: LegacyMenu.Menu, k: KeyStateManager) returns (res: int)
    requires m.Valid() && k.Valid()
    modifies m, m.grid.win
    ensures var s := LegacyMenuSurface(m);
      var c := old(Controlled(s, StateOf(s), k.keys[..], k.keysLast[..]));
      StateOf(s) == c.0 && res == c.1
  {
    res := m.Control(k);
  }

  /** Every surface of a disjoint stack other than stack[i] shares nothing
      with it. */
  lemma Unshared(stack: seq<Surface>, i: int)
    requires Disjoint(stack) && 0 <= i < |stack|
    ensures forall j :: 0 <= j < |stack| && j != i ==> Repr(stack[j]) !! Repr(stack[i])
  {
  }

  /** Updates stack[i]; every other surface of the stack keeps its state. */
  method UpdateIn(stack: seq<Surface>, i: nat, delta: real)
    requires Disjoint(stack) && i < |stack| && SurfaceValid(stack[i])
    modifies Repr(stack[i])
    ensures States(stack) == old(States(stack))[i := Updated(stack[i], old(StateOf(stack[i])), delta)]
  {
    Unshared(stack, i);
    UpdateSurface(stack[i], delta);
  }

  /** `update`'s loop: stack[i] is updated for i = 0, 1, ... in turn. */
  method UpdateAll(stack: seq<Surface>, ghost fp: set<object>, delta: real) returns (ghost made: seq<Call>)
    requires Disjoint(stack) && forall i :: 0 <= i < |stack| ==> SurfaceValid(stack[i]) && Repr(stack[i]) <= fp
    modifies fp
    ensures States(stack) == UpdatedAll(stack, old(States(stack)), delta)
    ensures made == UpdateCalls(stack, delta)
  {
    ghost var pre := States(stack);
    ghost var post := UpdatedAll(stack, pre, delta);
    made := [];
    var i := 0;
    while i < |stack|
      invariant 0 <= i <= |stack|
      invariant States(stack) == post[..i] + pre[i..]
      invariant made == UpdateCalls(stack[..i], delta)
    {
      assert StateOf(stack[i]) == (post[..i] + pre[i..])[i] == pre[i];
      UpdateIn(stack, i, delta);
      made := made + [UpdateCall(stack[i], delta)];
      assert UpdateCalls(stack[..i + 1], delta) == UpdateCalls(stack[..i], delta) + [UpdateCall(stack[i], delta)];
      assert Updated(stack[i], pre[i], delta) == post[i];
      Splice(post, pre, i);
      i := i + 1;
    }
    assert post[..i] == post && pre[i..] == [] && stack[..i] == stack;
  }

  /** Controls stack[i]; every other surface of the stack keeps its state. */
  method ControlIn(stack: seq<Surface>, i: nat, k: KeyStateManager) returns (res: int)
    requires Disjoint(stack) && i < |stack| && SurfaceValid(stack[i]) && k.Valid()
    modifies Repr(stack[i])
    ensures var c := old(Controlled(stack[i], StateOf(stack[i]), k.keys[..], k.keysLast[..]));
      States(stack) == old(States(stack))[i := c.0] && res == c.1
  {
    Unshared(stack, i);
    res := ControlSurface(stack[i], k);
  }

  /** Moving the boundary between the updated and the pending part one step. */
  lemma Splice<T>(done: seq<T>, pending: seq<T>, i: int)
    requires 0 <= i < |done| == |pending|
    ensures done[..i + 1] + pending[i + 1..] == (done[..i] + pending[i..])[i := done[i]]
  {
  }

  /** One surface's `update`. */
  method UpdateSurface(s: Surface, delta: real)
    requires SurfaceValid(s)
    modifies Repr(s)
    ensures StateOf(s) == Updated(s, old(StateOf(s)), delta)
  {
    match s {
      case DialogSurface(d) =>
        d.Update(delta);
      case MenuSurface(m) =>
        m.Update(delta);
      case LegacyMenuSurface(_) =>
      case WorldSurface(_) =>
    }
  }

  class GUIEngine {
    var screenWidth: int
    var screenHeight: int
    /** Bottom of the stack first. */
    var interfaces: seq<Surface>
    /** Every call made on a surface, in order. */
    ghost var calls: seq<Call>
    /** The objects the surfaces on the stack may change. */
    ghost var footprint: set<object>

    ghost predicate Valid()
      reads this
    {
      && (forall i :: 0 <= i < |interfaces| ==> SurfaceValid(interfaces[i]) && Repr(interfaces[i]) <= footprint)
      && Disjoint(interfaces)
      && this !in footprint
    }

    /** `init`: records the screen size and starts with an empty stack. */
    constructor Init(w: int, h: int)
      ensures Valid()
      ensures screenWidth == w && screenHeight == h
      ensures interfaces == [] && calls == [] && footprint == {}
    {
      screenWidth, screenHeight := w, h;
      interfaces := [];
      calls := [];
      footprint := {};
    }

    /** `addGUI`: g goes on top; the surfaces below are untouched. */
    method AddGUI(g: Surface)
      requires Valid() && SurfaceValid(g) && Repr(g) !! footprint && this !in Repr(g)
      modifies this`interfaces, this`footprint
      ensures Valid()
      ensures interfaces == old(interfaces) + [g]
      ensures footprint == old(footprint) + Repr(g)
    {
      interfaces := interfaces + [g];
      footprint := footprint + Repr(g);
      forall i, j | 0 <= i < |interfaces| && 0 <= j < |interfaces| && i != j
        ensures Repr(interfaces[i]) !! Repr(interfaces[j])
      {
        if i == |interfaces| - 1 || j == |interfaces| - 1 {
          var k := if i == |interfaces| - 1 then j else i;
          assert Repr(interfaces[k]) <= old(footprint);
        }
      }
    }

    method Size() returns (n: int)
      ensures n == |interfaces|
    {
      return |interfaces|;
    }

    /** `control`: nothing on an empty stack; otherwise only the top surface is
        called, with the key state as it is now, and changes as its own
        `control` says; its answer is recorded and a nonzero answer pops it.
        Every other surface keeps its state. */
    method Control(k: KeyStateManager)
      requires Valid() && k.Valid()
      modifies this`interfaces, this`calls, this`footprint, if interfaces == [] then {} else Repr(interfaces[|interfaces| - 1])
      ensures Valid() && footprint <= old(footprint)
      ensures var r := old(ControlledStack(interfaces, States(interfaces), k.keys[..], k.keysLast[..]));
        interfaces == r.0 && States(interfaces) == r.1 && calls == old(calls) + r.2
      ensures old(interfaces) != [] ==>
        var top := old(interfaces)[|old(interfaces)| - 1];
        var c := old(Controlled(top, StateOf(top), k.keys[..], k.keysLast[..]));
        && StateOf(top) == c.0
        && (c.1 != 0 ==> footprint == old(footprint) - Repr(top))
    {
      if |interfaces| > 0 {
        var res := ControlTop(k);
        if res != 0 {
          Pop();
        }
      }
    }

    /** The top surface's `control`, with its answer recorded. */
    method ControlTop(k: KeyStateManager) returns (res: int)
      requires Valid() && k.Valid() && interfaces != []
      modifies this`calls, Repr(interfaces[|interfaces| - 1])
      ensures Valid() && interfaces == old(interfaces) && footprint == old(footprint)
      ensures var top := interfaces[|interfaces| - 1];
        var c := old(Controlled(top, StateOf(top), k.keys[..], k.keysLast[..]));
        && States(interfaces) == old(States(interfaces))[|interfaces| - 1 := c.0]
        && res == c.1
        && calls == old(calls) + [ControlCall(top, res)]
    {
      ghost var stack := interfaces;
      var top := interfaces[|interfaces| - 1];
      res := ControlIn(interfaces, |interfaces| - 1, k);
      label TopControlled:
      calls := calls + [ControlCall(top, res)];
      StatesFramed@TopControlled(stack);
    }

    /** Removes the top surface; the others keep their states. */
    method Pop()
      requires Valid() && interfaces != []
      modifies this`interfaces, this`footprint
      ensures Valid()
      ensures interfaces == old(interfaces)[..|old(interfaces)| - 1]
      ensures footprint == old(footprint) - Repr(old(interfaces)[|old(interfaces)| - 1])
      ensures States(interfaces) == old(States(interfaces))[..|interfaces|]
    {
      ghost var stack := interfaces;
      var top := interfaces[|interfaces| - 1];
      label Popped:
      interfaces := interfaces[..|interfaces| - 1];
      footprint := footprint - Repr(top);
      forall i | 0 <= i < |interfaces|
        ensures Repr(interfaces[i]) <= footprint
      {
        assert Repr(stack[i]) !! Repr(top);
      }
      StatesFramed@Popped(stack);
      StatesPrefix(stack, |interfaces|);
    }

    /** `update`: every surface, bottom first, is given the same delta and
        changes as its own `update` says. */
    method Update(delta: real)
      requires Valid()
      modifies this`calls, footprint
      ensures Valid() && interfaces == old(interfaces) && footprint == old(footprint)
      ensures calls == old(calls) + UpdateCalls(interfaces, delta)
      ensures States(interfaces) == UpdatedAll(interfaces, old(States(interfaces)), delta)
    {
      ghost var made := UpdateAll(interfaces, footprint, delta);
      calls := calls + made;
    }

    /** `draw`: every surface, bottom first, is drawn (the pixels are not
        modelled, only the order of the visits). */
    method Draw()
      requires Valid()
      modifies this`calls
      ensures Valid() && States(interfaces) == old(States(interfaces))
      ensures calls == old(calls) + DrawCalls(interfaces)
    {
      var i := 0;
      while i < |interfaces|
        invariant 0 <= i <= |interfaces|
        invariant calls == old(calls) + DrawCalls(interfaces[..i])
      {
        calls := calls + [DrawCall(interfaces[i])];
        assert DrawCalls(interfaces[..i + 1]) == DrawCalls(interfaces[..i]) + [DrawCall(interfaces[i])];
        i := i + 1;
      }
      assert interfaces[..i] == interfaces;
    }
  }
}
