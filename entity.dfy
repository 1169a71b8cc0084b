/** Entities of the world (src/main/java/victory/engine/world/Entity.java): a
    position, a velocity with a cap on each axis, an acceleration, a size, a
    facing direction and a two-frame walking animation; `nextFrame` advances
    them by a time delta, `checkCollision` snaps them against a collision map,
    and `isCollidedWith` is a point-in-box test between two entities. */
module Entities {

  /** Ticks between two animation frames. */
  const CounterReset: real := 25.0
  /** The velocity cap a new entity gets on each axis. */
  const DefaultVelocityCap: real := 12.0

  // ---------------------------------------------------------------------
  // Java's `%` on doubles.

  /** Truncation toward zero. */
  function Trunc(x: real): (t: int)
    ensures x >= 0.0 ==> t as real <= x < t as real + 1.0
    ensures x < 0.0 ==> t as real - 1.0 < x <= t as real
  {
    if x >= 0.0 then x.Floor else -((-x).Floor)
  }

  /** Real multiplication, named so that the solver treats products as terms
      of their own in the remainder proofs. */
  function Mul(x: real, y: real): real { x * y }

  /** Java's floating `%`: the remainder of the division truncated toward zero,
      so it takes the sign of the dividend. */
  function JavaRem(a: real, b: real): real
    requires b != 0.0
  {
    a - Mul(Trunc(a / b) as real, b)
  }

  function Times(k: int, unit: real): real { Mul(k as real, unit) }

  /** y is a whole number of units. */
  ghost predicate IsMultipleOf(y: real, unit: real) {
    exists k: int :: Times(k, unit) == y
  }

  /** For a positive divisor the remainder lies strictly between -b and b and
      has the dividend's sign. */
  lemma JavaRemBounds(a: real, b: real)
    requires b > 0.0
    ensures a >= 0.0 ==> 0.0 <= JavaRem(a, b) < b
    ensures a < 0.0 ==> -b < JavaRem(a, b) <= 0.0
  {
    var q := a / b;
    var t := Trunc(q) as real;
    assert Mul(q, b) == a;
    if a >= 0.0 {
      if q < 0.0 {
        ScaleLt(q, 0.0, b);
      }
      ScaleLe(t, q, b);
      ScaleLt(q, t + 1.0, b);
      assert Mul(t + 1.0, b) == Mul(t, b) + b;
    } else {
      if q >= 0.0 {
        ScaleLe(0.0, q, b);
      }
      ScaleLt(t - 1.0, q, b);
      ScaleLe(q, t, b);
      assert Mul(t - 1.0, b) == Mul(t, b) - b;
    }
  }

  lemma ScaleLe(x: real, y: real, c: real)
    requires x <= y && 0.0 < c
    ensures Mul(x, c) <= Mul(y, c)
  {
    assert (y - x) * c >= 0.0;
  }

  lemma ScaleLt(x: real, y: real, c: real)
    requires x < y && 0.0 < c
    ensures Mul(x, c) < Mul(y, c)
  {
    assert (y - x) * c > 0.0;
  }

  /** `p -= p % h`: drop to the unit boundary at or toward zero from p. */
  function SnapDown(p: real, h: real): real
    requires h != 0.0
  {
    p - JavaRem(p, h)
  }

  /** `p += h - (p % h)`: the boundary one unit past the one SnapDown finds. */
  function SnapUp(p: real, h: real): real
    requires h != 0.0
  {
    p + h - JavaRem(p, h)
  }

  /** Both snaps land on a whole number of units; for a non-negative position
      and a positive unit, SnapDown goes at most one unit down and SnapUp goes
      strictly up by at most one unit. */
  lemma SnapsLandOnGrid(p: real, h: real)
    requires h != 0.0
    ensures IsMultipleOf(SnapDown(p, h), h) && IsMultipleOf(SnapUp(p, h), h)
    ensures h > 0.0 && p >= 0.0 ==> p - h < SnapDown(p, h) <= p
    ensures h > 0.0 && p >= 0.0 ==> p < SnapUp(p, h) <= p + h
  {
    var t := Trunc(p / h);
    assert SnapDown(p, h) == Times(t, h);
    assert SnapUp(p, h) == Times(t + 1, h);
    if h > 0.0 {
      JavaRemBounds(p, h);
    }
  }

  // ---------------------------------------------------------------------
  // Collision against the map.

  /** Position and velocity: the part of an entity `checkCollision` changes. */
  datatype Motion = Motion(x: real, y: real, vx: real, vy: real)

  /** Probes of the bottom edge (grouped: both must be solid; weak: either). */
  predicate BottomHit(m: Motion, w: int, h: int, solid: (real, real) -> bool, strong: bool) {
    var a := solid(m.x + m.vx + 4.0, m.y + m.vy + h as real - 1.0);
    var b := solid(m.x + m.vx + w as real - 1.0 - 4.0, m.y + m.vy + h as real - 1.0);
    if strong then a && b else a || b
  }

  predicate TopHit(m: Motion, w: int, h: int, solid: (real, real) -> bool, strong: bool) {
    var a := solid(m.x + m.vx + 4.0, m.y + m.vy);
    var b := solid(m.x + m.vx + (w as real - 1.0) - 4.0, m.y + m.vy);
    if strong then a && b else a || b
  }

  predicate LeftHit(m: Motion, w: int, h: int, solid: (real, real) -> bool, strong: bool) {
    var a := solid(m.x + m.vx, m.y + m.vy + 4.0);
    var b := solid(m.x + m.vx, m.y + m.vy + (h as real - 1.0) - 4.0);
    if strong then a && b else a || b
  }

  predicate RightHit(m: Motion, w: int, h: int, solid: (real, real) -> bool, strong: bool) {
    var a := solid(m.x + m.vx + (w as real - 1.0), m.y + m.vy + 4.0);
    var b := solid(m.x + m.vx + (w as real - 1.0), m.y + m.vy + (h as real - 1.0) - 4.0);
    if strong then a && b else a || b
  }

  /** One vertical pass: a bottom hit moves by the velocity and snaps down,
      keeping only an upward velocity; otherwise a top hit moves and snaps up,
      keeping only a downward velocity. The grouped top test acts only on an
      upward velocity. */
  function VerticalPass(m: Motion, w: int, h: int, solid: (real, real) -> bool, strong: bool): Motion
    requires h != 0
  {
    if BottomHit(m, w, h, solid, strong) then
      m.(y := SnapDown(m.y + m.vy, h as real), vy := if m.vy > 0.0 then 0.0 else m.vy)
    else if TopHit(m, w, h, solid, strong) then
      if strong && !(m.vy < 0.0) then m
      else m.(y := SnapUp(m.y + m.vy, h as real), vy := if m.vy < 0.0 then 0.0 else m.vy)
    else m
  }

  /** One horizontal pass: a left hit moves and snaps right, keeping only a
      rightward velocity; otherwise a right hit moves and snaps left, keeping
      only a leftward velocity. */
  function HorizontalPass(m: Motion, w: int, h: int, solid: (real, real) -> bool, strong: bool): Motion
    requires w != 0
  {
    if LeftHit(m, w, h, solid, strong) then
      m.(x := SnapUp(m.x + m.vx, w as real), vx := if m.vx < 0.0 then 0.0 else m.vx)
    else if RightHit(m, w, h, solid, strong) then
      m.(x := SnapDown(m.x + m.vx, w as real), vx := if m.vx > 0.0 then 0.0 else m.vx)
    else m
  }

  /** `checkCollision`: grouped vertical, grouped horizontal, then single-point
      vertical and single-point horizontal, each seeing the result of the last. */
  function Collide(m: Motion, w: int, h: int, solid: (real, real) -> bool): Motion
    requires w != 0 && h != 0
  {
    var m1 := VerticalPass(m, w, h, solid, true);
    var m2 := HorizontalPass(m1, w, h, solid, true);
    var m3 := VerticalPass(m2, w, h, solid, false);
    HorizontalPass(m3, w, h, solid, false)
  }

  /** What a vertical pass promises: it never touches the horizontal motion; a
      bottom hit leaves the vertical velocity at most 0 and the position on a
      multiple of the height; a top hit that acts leaves the velocity at least
      0 and the position on a multiple of the height; the grouped top test with
      a velocity of 0 or more, or no hit at all, changes nothing. */
  lemma VerticalPassEffect(m: Motion, w: int, h: int, solid: (real, real) -> bool, strong: bool)
    requires h != 0
    ensures var r := VerticalPass(m, w, h, solid, strong);
      && r.x == m.x && r.vx == m.vx
      && (BottomHit(m, w, h, solid, strong) ==>
            r.vy <= 0.0 && r.y == SnapDown(m.y + m.vy, h as real) && IsMultipleOf(r.y, h as real))
      && (!BottomHit(m, w, h, solid, strong) && TopHit(m, w, h, solid, strong) && (!strong || m.vy < 0.0) ==>
            r.vy >= 0.0 && r.y == SnapUp(m.y + m.vy, h as real) && IsMultipleOf(r.y, h as real))
      && (!BottomHit(m, w, h, solid, strong) && (!TopHit(m, w, h, solid, strong) || (strong && m.vy >= 0.0)) ==>
            r == m)
  {
    SnapsLandOnGrid(m.y + m.vy, h as real);
  }

  /** What a horizontal pass promises: it never touches the vertical motion; a
      left hit leaves the horizontal velocity at least 0, a right hit at most 0,
      and either leaves the position on a multiple of the width; no hit changes
      nothing. */
  lemma HorizontalPassEffect(m: Motion, w: int, h: int, solid: (real, real) -> bool, strong: bool)
    requires w != 0
    ensures var r := HorizontalPass(m, w, h, solid, strong);
      && r.y == m.y && r.vy == m.vy
      && (LeftHit(m, w, h, solid, strong) ==>
            r.vx >= 0.0 && r.x == SnapUp(m.x + m.vx, w as real) && IsMultipleOf(r.x, w as real))
      && (!LeftHit(m, w, h, solid, strong) && RightHit(m, w, h, solid, strong) ==>
            r.vx <= 0.0 && r.x == SnapDown(m.x + m.vx, w as real) && IsMultipleOf(r.x, w as real))
      && (!LeftHit(m, w, h, solid, strong) && !RightHit(m, w, h, solid, strong) ==> r == m)
  {
    SnapsLandOnGrid(m.x + m.vx, w as real);
  }

  // ---------------------------------------------------------------------
  // Motion over time.

  /** `v > cap ? cap : v`: the cap from above. */
  function CapAbove(v: real, cap: real): real { if v > cap then cap else v }

  /** `-v > cap ? -cap : v`: the cap from below. */
  function CapBelow(v: real, cap: real): real { if -v > cap then -cap else v }

  /** The velocity cap as `nextFrame` applies it: first from above, then from
      below. For a cap of 0 or more the result saturates into [-cap, cap]. */
  function Clamp(v: real, cap: real): (r: real)
    ensures cap >= 0.0 ==> -cap <= r <= cap
    ensures cap >= 0.0 ==> (r == v <==> -cap <= v <= cap)
    ensures cap >= 0.0 && v > cap ==> r == cap
    ensures cap >= 0.0 && v < -cap ==> r == -cap
  {
    CapBelow(CapAbove(v, cap), cap)
  }

  /** A velocity after `nextFrame`'s acceleration over delta and its cap. */
  function Accelerated(v: real, acc: real, cap: real, delta: real): real {
    Clamp(v + acc * delta, cap)
  }

  /** A position after moving at velocity v for delta. */
  function Moved(p: real, v: real, delta: real): real {
    p + v * delta
  }

  /** The walking animation: the counter gains delta; once it reaches the reset
      value the frame flips between 0 and 1 and the counter loses the reset
      value. */
  function Animate(counter: real, step: int, delta: real): (r: (real, int))
    ensures r.0 == if counter + delta >= CounterReset then counter + delta - CounterReset else counter + delta
    ensures r.1 != step <==> counter + delta >= CounterReset
    ensures r.1 == 0 || r.1 == 1 || r.1 == step
    ensures (step == 0 || step == 1) ==> (r.1 == 0 || r.1 == 1)
  {
    var c := counter + delta;
    if c >= CounterReset then (c - CounterReset, if step == 0 then 1 else 0) else (c, step)
  }

  /** An entity's bounding box. */
  datatype Box = Box(x: real, y: real, w: int, h: int)

  predicate Contains(b: Box, px: real, py: real) {
    px >= b.x && px < b.x + b.w as real && py >= b.y && py < b.y + b.h as real
  }

  /** `isCollidedWith`: either box holds the other's top-left corner. */
  predicate Touching(a: Box, b: Box) {
    Contains(b, a.x, a.y) || Contains(a, b.x, b.y)
  }

  /** Touching boxes overlap. */
  lemma TouchingMeansOverlap(a: Box, b: Box)
    requires Touching(a, b) && 0 < a.w && 0 < b.w && 0 < a.h && 0 < b.h
    ensures a.x < b.x + b.w as real && b.x < a.x + a.w as real
    ensures a.y < b.y + b.h as real && b.y < a.y + a.h as real
  {
  }

  /** The converse fails: two bars crossing like a plus sign overlap, yet
      neither holds the other's top-left corner. */
  lemma CrossingBarsDoNotTouch()
    ensures var a := Box(0.0, 10.0, 30, 5);
      var b := Box(10.0, 0.0, 5, 30);
      && a.x < b.x + b.w as real && b.x < a.x + a.w as real
      && a.y < b.y + b.h as real && b.y < a.y + a.h as real
      && !Touching(a, b)
  {
  }

  class Entity {
    var xpos: real
    var ypos: real
    var xposlast: real
    var yposlast: real
    var xvel: real
    var yvel: real
    var xvelmax: real
    var yvelmax: real
    var xacc: real
    var yacc: real
    const width: int
    const height: int
    /** 0 down, 1 up, 2 left, 3 right. */
    var direction: int
    var animCounter: real
    var step: int
    /** The sprite cell last selected, as (frame, direction). */
    ghost var spriteIndex: (int, int)

    /** A new entity of size w by h: at rest, caps of 12 on both axes, facing
        up, on animation frame 0. */
    constructor (w: int, h: int)
      ensures width == w && height == h
      ensures xvel == 0.0 && yvel == 0.0 && xacc == 0.0 && yacc == 0.0
      ensures xvelmax == DefaultVelocityCap && yvelmax == DefaultVelocityCap
      ensures xpos == 0.0 && ypos == 0.0 && xposlast == 0.0 && yposlast == 0.0
      ensures direction == 1 && animCounter == 0.0 && step == 0
    {
      xpos, ypos, xposlast, yposlast := 0.0, 0.0, 0.0, 0.0;
      xvel := 0.0;
      yvel := 0.0;
      xvelmax := DefaultVelocityCap;
      yvelmax := DefaultVelocityCap;
      xacc, yacc := 0.0, 0.0;
      width := w;
      height := h;
      direction := 1;
      animCounter := 0.0;
      step := 0;
      spriteIndex := (0, 0);
    }

    function GetMotion(): Motion
      reads this
    {
      Motion(xpos, ypos, xvel, yvel)
    }

    function GetBox(): Box
      reads this
    {
      Box(xpos, ypos, width, height)
    }

    /** Advances the animation, remembers the position, accelerates, caps the
        velocity and moves by velocity times delta. */
    method NextFrame(delta: real)
      modifies this
      ensures (animCounter, step) == Animate(old(animCounter), old(step), delta)
      ensures spriteIndex == (step, direction) && direction == old(direction)
      ensures xposlast == old(xpos) && yposlast == old(ypos)
      ensures xvel == Accelerated(old(xvel), old(xacc), xvelmax, delta)
      ensures yvel == Accelerated(old(yvel), old(yacc), yvelmax, delta)
      ensures xpos == Moved(old(xpos), xvel, delta) && ypos == Moved(old(ypos), yvel, delta)
      ensures xacc == old(xacc) && yacc == old(yacc)
      ensures xvelmax == old(xvelmax) && yvelmax == old(yvelmax)
    {
      Animation(delta);
      xposlast := xpos;
      yposlast := ypos;
      Accelerate(delta);
      Advance(delta);
    }

    /** The animation part of `nextFrame`, ending with the sprite selection. */
    method Animation(delta: real)
      modifies this`animCounter, this`step, this`spriteIndex
      ensures (animCounter, step) == Animate(old(animCounter), old(step), delta)
      ensures spriteIndex == (step, direction)
    {
      animCounter := animCounter + delta;
      if animCounter >= CounterReset {
        step := if step == 0 then 1 else 0;
        animCounter := animCounter - CounterReset;
      }
      spriteIndex := (step, direction);
    }

    /** Acceleration times delta, then the cap from above, then from below. */
    method Accelerate(delta: real)
      modifies this`xvel, this`yvel
      ensures xvel == Accelerated(old(xvel), xacc, xvelmax, delta)
      ensures yvel == Accelerated(old(yvel), yacc, yvelmax, delta)
    {
      xvel := xvel + xacc * delta;
      yvel := yvel + yacc * delta;
      xvel := CapAbove(xvel, xvelmax);
      yvel := CapAbove(yvel, yvelmax);
      xvel := CapBelow(xvel, xvelmax);
      yvel := CapBelow(yvel, yvelmax);
    }

    /** Velocity times delta added to the position. */
    method Advance(delta: real)
      modifies this`xpos, this`ypos
      ensures xpos == Moved(old(xpos), xvel, delta) && ypos == Moved(old(ypos), yvel, delta)
    {
      xpos := xpos + xvel * delta;
      ypos := ypos + yvel * delta;
    }

    /** Snaps the entity against the map `solid`, which it only reads. */
    method CheckCollision(solid: (real, real) -> bool)
      requires width != 0 && height != 0
      modifies this`xpos, this`ypos, this`xvel, this`yvel
      ensures GetMotion() == Collide(old(GetMotion()), width, height, solid)
    {
      GroupedVertical(solid);
      GroupedHorizontal(solid);
      SingleVertical(solid);
      SingleHorizontal(solid);
    }

    /** The grouped (both probes) vertical test: bottom, then top. */
    method GroupedVertical(solid: (real, real) -> bool)
      requires height != 0
      modifies this`ypos, this`yvel
      ensures GetMotion() == VerticalPass(old(GetMotion()), width, height, solid, true)
    {
      ghost var m := GetMotion();
      var w, h := width as real, height as real;
      if solid(xpos + xvel + 4.0, ypos + yvel + h - 1.0)
        && solid(xpos + xvel + w - 1.0 - 4.0, ypos + yvel + h - 1.0) {
        assert BottomHit(m, width, height, solid, true);
        ypos := ypos + yvel;
        ypos := ypos - JavaRem(ypos, h);
        yvel := if yvel > 0.0 then 0.0 else yvel;
      } else if solid(xpos + xvel + 4.0, ypos + yvel) && solid(xpos + xvel + (w - 1.0) - 4.0, ypos + yvel) {
        assert !BottomHit(m, width, height, solid, true) && TopHit(m, width, height, solid, true);
        if yvel < 0.0 {
          ypos := ypos + yvel;
          ypos := ypos + (h - JavaRem(ypos, h));
          yvel := if yvel < 0.0 then 0.0 else yvel;
        }
      } else {
        assert !BottomHit(m, width, height, solid, true) && !TopHit(m, width, height, solid, true);
      }
    }

    /** The grouped horizontal test: left, then right. */
    method GroupedHorizontal(solid: (real, real) -> bool)
      requires width != 0
      modifies this`xpos, this`xvel
      ensures GetMotion() == HorizontalPass(old(GetMotion()), width, height, solid, true)
    {
      ghost var m := GetMotion();
      var w, h := width as real, height as real;
      if solid(xpos + xvel, ypos + yvel + 4.0) && solid(xpos + xvel, ypos + yvel + (h - 1.0) - 4.0) {
        assert LeftHit(m, width, height, solid, true);
        xpos := xpos + xvel;
        xpos := xpos + (w - JavaRem(xpos, w));
        xvel := if xvel < 0.0 then 0.0 else xvel;
      } else if solid(xpos + xvel + (w - 1.0), ypos + yvel + 4.0)
        && solid(xpos + xvel + (w - 1.0), ypos + yvel + (h - 1.0) - 4.0) {
        assert !LeftHit(m, width, height, solid, true) && RightHit(m, width, height, solid, true);
        xpos := xpos + xvel;
        xpos := xpos - JavaRem(xpos, w);
        xvel := if xvel > 0.0 then 0.0 else xvel;
      } else {
        assert !LeftHit(m, width, height, solid, true) && !RightHit(m, width, height, solid, true);
      }
    }

    /** The single-point (either probe) vertical test: bottom, then top. */
    method SingleVertical(solid: (real, real) -> bool)
      requires height != 0
      modifies this`ypos, this`yvel
      ensures GetMotion() == VerticalPass(old(GetMotion()), width, height, solid, false)
    {
      ghost var m := GetMotion();
      var w, h := width as real, height as real;
      if solid(xpos + xvel + 4.0, ypos + yvel + h - 1.0)
        || solid(xpos + xvel + w - 1.0 - 4.0, ypos + yvel + h - 1.0) {
        assert BottomHit(m, width, height, solid, false);
        ypos := ypos + yvel;
        ypos := ypos - JavaRem(ypos, h);
        yvel := if yvel > 0.0 then 0.0 else yvel;
      } else if solid(xpos + xvel + 4.0, ypos + yvel) || solid(xpos + xvel + (w - 1.0) - 4.0, ypos + yvel) {
        assert !BottomHit(m, width, height, solid, false) && TopHit(m, width, height, solid, false);
        ypos := ypos + yvel;
        ypos := ypos + (h - JavaRem(ypos, h));
        yvel := if yvel < 0.0 then 0.0 else yvel;
      } else {
        assert !BottomHit(m, width, height, solid, false) && !TopHit(m, width, height, solid, false);
      }
    }

    /** The single-point horizontal test: left, then right. */
    method SingleHorizontal(solid: (real, real) -> bool)
      requires width != 0
      modifies this`xpos, this`xvel
      ensures GetMotion() == HorizontalPass(old(GetMotion()), width, height, solid, false)
    {
      ghost var m := GetMotion();
      var w, h := width as real, height as real;
      if solid(xpos + xvel, ypos + yvel + 4.0) || solid(xpos + xvel, ypos + yvel + (h - 1.0) - 4.0) {
        assert LeftHit(m, width, height, solid, false);
        xpos := xpos + xvel;
        xpos := xpos + (w - JavaRem(xpos, w));
        xvel := if xvel < 0.0 then 0.0 else xvel;
      } else if solid(xpos + xvel + (w - 1.0), ypos + yvel + 4.0)
        || solid(xpos + xvel + (w - 1.0), ypos + yvel + (h - 1.0) - 4.0) {
        assert !LeftHit(m, width, height, solid, false) && RightHit(m, width, height, solid, false);
        xpos := xpos + xvel;
        xpos := xpos - JavaRem(xpos, w);
        xvel := if xvel > 0.0 then 0.0 else xvel;
      } else {
        assert !LeftHit(m, width, height, solid, false) && !RightHit(m, width, height, solid, false);
      }
    }

    /** `isCollidedWith`: this entity's top-left corner lies in the other's
        box, or the other's top-left corner lies in this one's. */
    function IsCollidedWith(other: Entity): (hit: bool)
      reads this, other
      ensures hit <==>
        || (xpos >= other.xpos && xpos < other.xpos + other.width as real
            && ypos >= other.ypos && ypos < other.ypos + other.height as real)
        || (other.xpos >= xpos && other.xpos < xpos + width as real
            && other.ypos >= ypos && other.ypos < ypos + height as real)
    {
      Touching(GetBox(), other.GetBox())
    }
  }

  /** Collision between entities is symmetric. */
  lemma CollisionSymmetric(a: Entity, b: Entity)
    ensures a.IsCollidedWith(b) == b.IsCollidedWith(a)
  {
  }
}
