/** The player character (src/main/java/victory/engine/world/Player.java): a
    16 by 16 entity steered by the held buttons; CANCEL stops it and opens the
    pause menu on top of the GUI stack. */
module Players {
  import opened Input
  import opened Entities
  import GuiMenu
  import GuiStack

  /** The choices of the pause menu CANCEL opens. */
  const PauseChoices: seq<string> := ["Party", "Inventory", "Config", "Save"]

  /** The four direction buttons as held this frame. */
  datatype Held = Held(up: bool, down: bool, left: bool, right: bool)

  function HeldButtons(k: KeyStateManager): Held
    requires k.Valid()
    reads k.keys
  {
    Held(k.IsButtonDown(Up), k.IsButtonDown(Down), k.IsButtonDown(Left), k.IsButtonDown(Right))
  }

  /** Velocity and facing chosen by `control`. */
  datatype Heading = Heading(vx: real, vy: real, direction: int)

  /** `control`'s steering: the vertical axis first (DOWN alone: down, facing 0;
      UP alone: up, facing 1), then the horizontal axis (LEFT alone: left,
      facing 2; RIGHT alone: right, facing 3); an axis with neither or both
      buttons stands still and leaves the facing as it was. */
  function Steer(h: Held, direction: int): Heading {
    var vertical :=
      if h.down && !h.up then Heading(0.0, 1.0, 0)
      else if h.up && !h.down then Heading(0.0, -1.0, 1)
      else Heading(0.0, 0.0, direction);
    if h.left && !h.right then Heading(-1.0, vertical.vy, 2)
    else if h.right && !h.left then Heading(1.0, vertical.vy, 3)
    else Heading(0.0, vertical.vy, vertical.direction)
  }

  function Unit(b: bool): real { if b then 1.0 else 0.0 }

  /** Steering against a reference: each velocity is the difference of its two
      buttons, so opposite buttons cancel; the facing follows the horizontal
      motion when there is one, else the vertical motion, else stays. */
  lemma SteerByAxes(h: Held, direction: int)
    ensures var s := Steer(h, direction);
      && s.vx == Unit(h.right) - Unit(h.left)
      && s.vy == Unit(h.down) - Unit(h.up)
      && s.direction ==
        if s.vx < 0.0 then 2 else if s.vx > 0.0 then 3
        else if s.vy > 0.0 then 0 else if s.vy < 0.0 then 1
        else direction
  {
  }

  /** CANCEL's new pause menu, at (0, 0), pushed on top of the GUI stack. */
  method PushPauseMenu(gui: GuiStack.GUIEngine)
    requires gui.Valid()
    modifies gui`interfaces, gui`footprint
    ensures gui.Valid()
    ensures |gui.interfaces| == |old(gui.interfaces)| + 1
    ensures gui.interfaces[..|old(gui.interfaces)|] == old(gui.interfaces)
    ensures var top := gui.interfaces[|old(gui.interfaces)|];
      top.MenuSurface? && fresh(top.menu) && top.menu.choices == PauseChoices
      && top.menu.current == 0 && !top.menu.valid
  {
    var menu := new GuiMenu.Menu(0, 0, PauseChoices);
    gui.AddGUI(GuiStack.MenuSurface(menu));
  }

  class Player {
    const body: Entity

    /** A 16 by 16 entity at (x, y), otherwise as any new entity, showing
        sprite cell (0, 0). */
    constructor (x: real, y: real)
      ensures fresh(body)
      ensures body.width == 16 && body.height == 16
      ensures body.xpos == x && body.ypos == y
      ensures body.xvel == 0.0 && body.yvel == 0.0 && body.xacc == 0.0 && body.yacc == 0.0
      ensures body.xvelmax == DefaultVelocityCap && body.yvelmax == DefaultVelocityCap
      ensures body.spriteIndex == (0, 0)
    {
      body := new Entity(16, 16);
      new;
      body.spriteIndex := (0, 0);
      body.xpos := x;
      body.ypos := y;
    }

    /** Never marked for removal. */
    predicate GetGarbage()
      ensures !GetGarbage()
    {
      false
    }

    /** The two steering blocks of `control`: the vertical buttons, then the
        horizontal ones, as Steer says. */
    method SteerBy(input: KeyStateManager)
      requires input.Valid()
      modifies body`xvel, body`yvel, body`direction
      ensures var s := Steer(HeldButtons(input), old(body.direction));
        body.xvel == s.vx && body.yvel == s.vy && body.direction == s.direction
    {
      if input.IsButtonDown(Down) && !input.IsButtonDown(Up) {
        body.yvel := 1.0;
        body.direction := 0;
      } else if input.IsButtonDown(Up) && !input.IsButtonDown(Down) {
        body.yvel := -1.0;
        body.direction := 1;
      } else {
        body.yvel := 0.0;
      }

      if input.IsButtonDown(Left) && !input.IsButtonDown(Right) {
        body.xvel := -1.0;
        body.direction := 2;
      } else if input.IsButtonDown(Right) && !input.IsButtonDown(Left) {
        body.xvel := 1.0;
        body.direction := 3;
      } else {
        body.xvel := 0.0;
      }
    }

    /** Steers the body from the held buttons; a fresh CANCEL then stops it
        (velocity and acceleration zero) and pushes exactly one new pause menu
        onto the GUI stack. The answer is always 0. */
    method Control(input: KeyStateManager, gui: GuiStack.GUIEngine) returns (r: int)
      requires input.Valid() && gui.Valid()
      modifies body`xvel, body`yvel, body`xacc, body`yacc, body`direction, gui`interfaces, gui`footprint
      ensures r == 0
      ensures gui.Valid()
      ensures var s := Steer(HeldButtons(input), old(body.direction));
        && body.direction == s.direction
        && if input.WasButtonPressed(Cancel) then
             && body.xvel == 0.0 && body.yvel == 0.0 && body.xacc == 0.0 && body.yacc == 0.0
             && |gui.interfaces| == |old(gui.interfaces)| + 1
             && gui.interfaces[..|old(gui.interfaces)|] == old(gui.interfaces)
             && var top := gui.interfaces[|old(gui.interfaces)|];
                top.MenuSurface? && fresh(top.menu) && top.menu.choices == PauseChoices
                && top.menu.current == 0 && !top.menu.valid
           else
             && body.xvel == s.vx && body.yvel == s.vy
             && body.xacc == old(body.xacc) && body.yacc == old(body.yacc)
             && gui.interfaces == old(gui.interfaces)
    {
      SteerBy(input);
      if input.WasButtonPressed(Cancel) {
        body.xvel, body.yvel, body.xacc, body.yacc := 0.0, 0.0, 0.0, 0.0;
        PushPauseMenu(gui);
      }
      return 0;
    }
  }
}
