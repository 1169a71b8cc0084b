/** The game loop's logic (src/main/java/victory/engine/Core.java and its
    older copy src/victory/engine/Core.java, whose loop and `tick` are the
    same): a frame's elapsed time, counted in ticks, is split into tick
    arguments of at most 1; each tick sends input to the GUI stack, updates it
    and rolls the key state over; then the stack is drawn. */
module CoreLoop {
  import opened Input
  import opened GuiStack

  // ---------------------------------------------------------------------
  // Splitting a frame into ticks.

  /** The measure the tick loop decreases: 0 once nothing is left, otherwise
      one more than the whole ticks left. */
  function Remaining(delta: real): nat {
    if delta <= 0.0 then 0 else delta.Floor + 1
  }

  /** The arguments the do/while loop passes to `tick` for a frame of `delta`
      ticks: min(delta, 1), then again with delta - 1 while that is positive. */
  function TickArgs(delta: real): seq<real>
    decreases Remaining(delta)
  {
    [if delta >= 1.0 then 1.0 else delta] + (if delta - 1.0 > 0.0 then TickArgs(delta - 1.0) else [])
  }

  function Sum(s: seq<real>): real {
    if s == [] then 0.0 else s[0] + Sum(s[1..])
  }

  /** The least whole number at or above x. */
  function Ceil(x: real): int {
    -((-x).Floor)
  }

  /** Every tick argument is at most 1, and all but the last are exactly 1. */
  lemma {:induction false} TickArgsShape(delta: real)
    ensures forall i :: 0 <= i < |TickArgs(delta)| ==> TickArgs(delta)[i] <= 1.0
    ensures forall i :: 0 <= i < |TickArgs(delta)| - 1 ==> TickArgs(delta)[i] == 1.0
    decreases Remaining(delta)
  {
    if delta - 1.0 > 0.0 {
      TickArgsShape(delta - 1.0);
    }
  }

  /** The tick arguments add up to the frame's delta exactly; for a delta of at
      least 0 none is negative. */
  lemma {:induction false} TickArgsSum(delta: real)
    ensures Sum(TickArgs(delta)) == delta
    ensures delta >= 0.0 ==> forall i :: 0 <= i < |TickArgs(delta)| ==> TickArgs(delta)[i] >= 0.0
    decreases Remaining(delta)
  {
    if delta - 1.0 > 0.0 {
      TickArgsSum(delta - 1.0);
    }
  }

  /** The number of ticks is the delta rounded up, and at least 1: a frame
      with no elapsed time still runs one tick. */
  lemma {:induction false} TickCount(delta: real)
    ensures |TickArgs(delta)| == if delta <= 1.0 then 1 else Ceil(delta)
    decreases Remaining(delta)
  {
    if delta - 1.0 > 0.0 {
      TickCount(delta - 1.0);
      assert (-(delta - 1.0)).Floor == (-delta).Floor + 1;
    }
  }

  /** One turn of the do/while: the argument just used moves from the
      arguments still to come to those done, and the measure drops. */
  lemma NextArgs(done: seq<real>, d: real)
    ensures var arg := if d >= 1.0 then 1.0 else d;
      && (d - 1.0 > 0.0 ==> (done + [arg]) + TickArgs(d - 1.0) == done + TickArgs(d))
      && (d - 1.0 > 0.0 ==> Remaining(d - 1.0) < Remaining(d))
      && (d - 1.0 <= 0.0 ==> done + [arg] == done + TickArgs(d))
  {
    var arg := if d >= 1.0 then 1.0 else d;
    if d - 1.0 > 0.0 {
      assert TickArgs(d) == [arg] + TickArgs(d - 1.0);
      AppendAssoc(done, [arg], TickArgs(d - 1.0));
      assert (d - 1.0).Floor == d.Floor - 1;
    } else {
      assert TickArgs(d) == [arg];
    }
  }

  // ---------------------------------------------------------------------
  // What the ticks do to the GUI stack.

  /** One tick on the stack `stack` whose surfaces are in states `states`,
      with key state (now, last): the top is controlled, popped if it answers
      nonzero, and what is left on the stack is updated by delta, bottom first.
      The result is the new stack, the new states of its surfaces and the
      calls made. */
  ghost function TickOn(stack: seq<Surface>, states: seq<SurfaceState>, now: seq<bool>, last: seq<bool>,
                        delta: real): (r: (seq<Surface>, seq<SurfaceState>, seq<Call>))
    requires StatesFit(stack, states) && |now| == KeyCount && |last| == KeyCount
    ensures StatesFit(r.0, r.1)
  {
    var m := ControlledStack(stack, states, now, last);
    (m.0, UpdatedAll(m.0, m.1, delta), m.2 + UpdateCalls(m.0, delta))
  }

  /** A tick keeps a prefix of the stack and pops at most one surface; it
      calls `control` on the old top and `update` on every surface left, and
      draws nothing. */
  lemma TickOnPops(stack: seq<Surface>, states: seq<SurfaceState>, now: seq<bool>, last: seq<bool>, delta: real)
    requires StatesFit(stack, states) && |now| == KeyCount && |last| == KeyCount
    ensures var r := TickOn(stack, states, now, last, delta);
      && |stack| - 1 <= |r.0| <= |stack| && r.0 == stack[..|r.0|]
      && |r.2| == |r.0| + (if stack == [] then 0 else 1)
      && forall c :: c in r.2 ==> !c.DrawCall? && c.target in stack
  {
    var m := ControlledStack(stack, states, now, last);
    var u := UpdateCalls(m.0, delta);
    assert TickOn(stack, states, now, last, delta).2 == m.2 + u;
    forall c | c in m.2 + u
      ensures !c.DrawCall? && c.target in stack
    {
      if c in u {
        var k :| 0 <= k < |u| && u[k] == c;
        assert c.target == m.0[k] == stack[k];
      }
    }
  }

  /** The ticks of a frame, with arguments args: the first sees the key state
      (now, last); every later one sees (now, now), since each tick ends with
      the rollover and no key event arrives in between. */
  ghost function Ticks(stack: seq<Surface>, states: seq<SurfaceState>, now: seq<bool>, last: seq<bool>,
                       args: seq<real>): (r: (seq<Surface>, seq<SurfaceState>, seq<Call>))
    requires StatesFit(stack, states) && |now| == KeyCount && |last| == KeyCount
    ensures StatesFit(r.0, r.1)
    decreases |args|
  {
    if args == [] then (stack, states, [])
    else
      var t := TickOn(stack, states, now, last, args[0]);
      var rest := Ticks(t.0, t.1, now, now, args[1..]);
      (rest.0, rest.1, t.2 + rest.2)
  }

  /** Running one more tick after a run of ticks. */
  lemma {:induction false} TicksAppend(stack: seq<Surface>, states: seq<SurfaceState>, now: seq<bool>,
                                       last: seq<bool>, args: seq<real>, a: real)
    requires StatesFit(stack, states) && |now| == KeyCount && |last| == KeyCount
    ensures var r := Ticks(stack, states, now, last, args);
      var t := TickOn(r.0, r.1, now, if args == [] then last else now, a);
      Ticks(stack, states, now, last, args + [a]) == (t.0, t.1, r.2 + t.2)
    decreases |args|
  {
    if args != [] {
      var t := TickOn(stack, states, now, last, args[0]);
      assert (args + [a])[1..] == args[1..] + [a];
      TicksAppend(t.0, t.1, now, now, args[1..], a);
      var r' := Ticks(t.0, t.1, now, now, args[1..]);
      var t' := TickOn(r'.0, r'.1, now, now, a);
      assert t.2 + (r'.2 + t'.2) == (t.2 + r'.2) + t'.2;
    } else {
      assert args + [a] == [a] && [a][1..] == [];
      var t := TickOn(stack, states, now, last, a);
      assert Ticks(stack, states, now, last, [a]) == (t.0, t.1, t.2 + []);
      assert t.2 + [] == [] + t.2;
    }
  }

  /** No drawing happens among a frame's ticks, and only surfaces of the stack
      the frame started with are called; what is left is a prefix of that
      stack, and each tick pops at most one surface. */
  lemma {:induction false} TicksHaveNoDraw(stack: seq<Surface>, states: seq<SurfaceState>, now: seq<bool>,
                                           last: seq<bool>, args: seq<real>)
    requires StatesFit(stack, states) && |now| == KeyCount && |last| == KeyCount
    ensures var r := Ticks(stack, states, now, last, args);
      && (forall c :: c in r.2 ==> !c.DrawCall? && c.target in stack)
      && |r.0| <= |stack| && r.0 == stack[..|r.0|]
      && |stack| - |args| <= |r.0|
    decreases |args|
  {
    if args != [] {
      var t := TickOn(stack, states, now, last, args[0]);
      TickOnPops(stack, states, now, last, args[0]);
      TicksHaveNoDraw(t.0, t.1, now, now, args[1..]);
      var r := Ticks(t.0, t.1, now, now, args[1..]);
      assert Ticks(stack, states, now, last, args) == (r.0, r.1, t.2 + r.2);
      assert r.0 == stack[..|r.0|] by {
        assert r.0 == t.0[..|r.0|];
      }
      TargetsWithin(r.2, t.0, stack);
      NoDrawConcat(t.2, r.2, stack);
    }
  }

  /** Calls aimed at surfaces of a prefix of the stack are aimed at the stack. */
  lemma TargetsWithin(calls: seq<Call>, prefix: seq<Surface>, stack: seq<Surface>)
    requires |prefix| <= |stack| && prefix == stack[..|prefix|]
    requires forall c :: c in calls ==> !c.DrawCall? && c.target in prefix
    ensures forall c :: c in calls ==> !c.DrawCall? && c.target in stack
  {
    forall c | c in calls
      ensures c.target in stack
    {
      var k :| 0 <= k < |prefix| && prefix[k] == c.target;
      assert stack[k] == c.target;
    }
  }

  /** Two runs of calls without a draw, aimed at the stack, joined. */
  lemma NoDrawConcat(a: seq<Call>, b: seq<Call>, stack: seq<Surface>)
    requires forall c :: c in a ==> !c.DrawCall? && c.target in stack
    requires forall c :: c in b ==> !c.DrawCall? && c.target in stack
    ensures forall c :: c in a + b ==> !c.DrawCall? && c.target in stack
  {
  }

  lemma AppendAssoc<T>(a: seq<T>, b: seq<T>, c: seq<T>)
    ensures a + (b + c) == (a + b) + c
  {
  }

  // ---------------------------------------------------------------------
  // The loop itself.

  class Core {
    const engine: GUIEngine
    const buttonManager: KeyStateManager

    ghost predicate Valid()
      reads engine
    {
      && engine.Valid() && buttonManager.Valid()
      && buttonManager.keys !in engine.footprint && buttonManager.keysLast !in engine.footprint
      && this !in engine.footprint
    }

    /** Wires the loop to a GUI stack and a key state manager whose arrays no
        surface on the stack can change; the window, the screen and the world
        the original constructor builds are not part of this model. */
    constructor (engine: GUIEngine, buttonManager: KeyStateManager)
      requires engine.Valid() && buttonManager.Valid()
      requires buttonManager.keys !in engine.footprint && buttonManager.keysLast !in engine.footprint
      ensures Valid() && this.engine == engine && this.buttonManager == buttonManager
    {
      this.engine := engine;
      this.buttonManager := buttonManager;
    }

    /** `tick`: the stack's `control`, then its `update` with the same delta,
        then the key state rollover, after which no key counts as freshly
        pressed. The stack, its surfaces and the calls change as TickOn says,
        with the key state as it was before the tick. */
    method Tick(delta: real)
      requires Valid()
      modifies engine`interfaces, engine`calls, engine`footprint, engine.footprint, buttonManager.keysLast
      ensures Valid() && engine.footprint <= old(engine.footprint)
      ensures var r := old(TickOn(engine.interfaces, States(engine.interfaces), buttonManager.keys[..], buttonManager.keysLast[..], delta));
        && engine.interfaces == r.0
        && States(engine.interfaces) == r.1
        && engine.calls == old(engine.calls) + r.2
      ensures buttonManager.keys[..] == old(buttonManager.keys[..])
      ensures buttonManager.keysLast[..] == buttonManager.keys[..]
    {
      ghost var calls0 := engine.calls;
      ghost var m := ControlledStack(engine.interfaces, States(engine.interfaces), buttonManager.keys[..], buttonManager.keysLast[..]);
      engine.Control(buttonManager);
      engine.Update(delta);
      AppendAssoc(calls0, m.2, UpdateCalls(m.0, delta));
      label Rolled:
      buttonManager.Update();
      StatesFramed@Rolled(engine.interfaces);
    }

    /** One pass of `update`'s outer loop for a frame of `delta` ticks: the
        do/while runs `tick` with each of TickArgs(delta) in turn, so the
        stack, its surfaces and the calls are those of Ticks; only then is the
        stack drawn, once, bottom first. */
    method Frame(delta: real)
      requires Valid()
      modifies engine`interfaces, engine`calls, engine`footprint, engine.footprint, buttonManager.keysLast
      ensures Valid() && engine.footprint <= old(engine.footprint)
      ensures var r := old(Ticks(engine.interfaces, States(engine.interfaces), buttonManager.keys[..], buttonManager.keysLast[..], TickArgs(delta)));
        && engine.interfaces == r.0
        && States(engine.interfaces) == r.1
        && engine.calls == old(engine.calls) + r.2 + DrawCalls(engine.interfaces)
      ensures buttonManager.keysLast[..] == buttonManager.keys[..]
    {
      ghost var all, start := engine.interfaces, States(engine.interfaces);
      ghost var now, last := buttonManager.keys[..], buttonManager.keysLast[..];
      var d := delta;
      var more := true;
      ghost var done: seq<real> := [];
      // The do/while: the body runs once before its condition is first tested.
      while more
        invariant Valid() && engine.footprint <= old(engine.footprint)
        invariant more ==> done + TickArgs(d) == TickArgs(delta)
        invariant !more ==> done == TickArgs(delta)
        invariant buttonManager.keys[..] == now
        invariant buttonManager.keysLast[..] == if done == [] then last else now
        invariant var r := Ticks(all, start, now, last, done);
          && engine.interfaces == r.0
          && States(engine.interfaces) == r.1
          && engine.calls == old(engine.calls) + r.2
        decreases if more then Remaining(d) + 1 else 0
      {
        var arg := if d >= 1.0 then 1.0 else d;
        ghost var r := Ticks(all, start, now, last, done);
        ghost var t := TickOn(r.0, r.1, now, buttonManager.keysLast[..], arg);
        TicksAppend(all, start, now, last, done, arg);
        Tick(arg);
        AppendAssoc(old(engine.calls), r.2, t.2);
        NextArgs(done, d);
        done := done + [arg];
        d := d - 1.0;
        more := d > 0.0;
      }
      engine.Draw();
    }
  }
}
