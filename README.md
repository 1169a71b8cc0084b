# Text-mode UI, input and tick logic of the VictoriaLacroix game engine

This project models the deterministic core of a small Java 2D game engine and
proves properties of that model in Dafny:

- **Text grid** (`TextGrid`, from the older package's `Window`). A width × height
  buffer of glyph codes, stored row by row. It has a size clamp, a border pattern,
  bounds-checked `getAt` and `put`, and a wrapping `write`.
- **Dialog typewriter** (`Dialog`, from `DialogWindow`). Queued text is revealed one
  character per tick interval. The typewriter word-wraps, scrolls up when the
  cursor reaches the last row, and charges only 0.3 of the interval while ACCEPT
  is held. It asks to be closed once the queue is empty and ACCEPT or CANCEL is
  freshly pressed.
- **Menus**. Both variants are modelled and kept apart:
  - `GuiMenu` is the current package: ACCEPT, CANCEL, UP, DOWN in that priority,
    and the cursor is drawn by `update`.
  - `LegacyMenu` is the older package: UP, DOWN, ACCEPT, CANCEL in that priority.
    Its `control` draws the cursor itself and calls `fire`.
  - `MenuLayout` holds what the two menus share.
- **Modal GUI stack** (`GuiStack`, from the older `GUIEngine`). `control` goes only to
  the top surface, which is popped when it answers nonzero. `update` and `draw` visit
  every surface from the bottom up.
- **Key state** (`Input`, from `KeyStateManager`). Current and last-frame key arrays,
  the pressed, released and down queries, the end-of-tick rollover and the AWT
  key-event hook.
- **Entities** (`Entities`, `Players`). An entity has animation, velocity caps and
  motion (`nextFrame`), snapping against a read-only collision map (`checkCollision`)
  and a point-in-box contact test. The player steers its entity from the held
  buttons and opens the pause menu on CANCEL.
- **Game loop** (`CoreLoop`, from both `Core` files). A frame's elapsed ticks are
  split into tick arguments of at most 1. Each tick runs the stack's `control`,
  then its `update`, then the key rollover. Only after all ticks is the stack drawn.

How the state is modelled:

- State the Java code changes in place stays state here. The grid is an
  `array<char>`, the key states are `array<bool>`, and the dialog, menus, stack,
  entity and loop are classes whose methods carry `modifies` clauses.
- Each such method is proved against a pure specification function over values.
  Examples are `WriteFrom`, `ScrollCells`, `RevealStep`/`Reveal`, `Select`,
  `DrawCursor`, `ControlledStack`, `UpdatedAll`, `Collide`, `Steer`, `TickArgs`,
  `TickOn` and `Ticks`.
- Lemmas state what those functions promise.

Behaviours of the code that a reader might not expect, modelled as written:

- `scrollUp` runs when the cursor reaches row height-1, which is the bottom border row.
  - It shifts rows 1 to height-3 up by one.
  - It blanks the bottom border row, not the last interior row. Row height-2 keeps
    its old text, and the next character is written over it.
- The animation frame flips when the counter reaches 25 (`>=`), not only when it
  exceeds 25.
- With an empty choice list, UP leaves the menu cursor at -1. The cursor is
  therefore not always a valid index. `MenuLayout.EmptyMenuRollsToMinusOne` and
  `MenuLayout.EmptyMenuCursorOnBorder` record this.
- The two menus' priority orders differ, and both are kept
  (`LegacyMenu.PriorityDiffers`).
- Nothing in the collision code makes `checkCollision` idempotent. That claim is not
  modelled.

Java `double` is modelled as exact `real`. The remainder `%` on doubles is modelled
exactly as Java defines it: the dividend minus the divisor times the quotient
truncated toward zero (`Entities.JavaRem`). Positions may therefore be any real and
no sign precondition is needed. For a negative position the snap goes toward zero,
as in Java.

## Model

| member | source | states |
|---|---|---|
| TextGrid.Window.constructor | src/victory/engine/Window.java:27-56 | the position is stored; a requested width or height of 1 or less becomes 2; the buffer has width*height cells and holds the blank bordered grid |
| TextGrid.Window.GetAt | src/victory/engine/Window.java:41-44 | 0x00 for every coordinate outside the grid; inside, the glyph stored at flat index row*width+col |
| TextGrid.Window.SetupBorders | src/victory/engine/Window.java:61-89 | the whole buffer becomes the blank bordered grid |
| TextGrid.BorderedCells | src/victory/engine/Window.java:61-89 | each bordered cell's glyph depends only on its (column, row). Corners get 0x10/0x12/0x15/0x17, top and bottom edges 0x11/0x16, left and right edges 0x13/0x14, the interior 0x20. Each glyph appears exactly where stated (if and only if) |
| TextGrid.Window.WriteTopLeft | src/victory/engine/Window.java:95-98 | `write(s)` has exactly the effect of writing from (1, 1) |
| TextGrid.Window.Write | src/victory/engine/Window.java:106-116 | the new buffer and fault flag are those of the writer specification `WriteFrom` run on the old buffer |
| TextGrid.WriteStaysInside | src/victory/engine/Window.java:106-116 | started at column >= 0 on a row above height-1, the writer never leaves the buffer. It stores only into columns below width-1 of rows from its start row to height-2; every other cell is unchanged |
| TextGrid.WriteRun | src/victory/engine/Window.java:109-113 | a newline-free string that fits before column width-1 lands in consecutive cells of its row, in string order, and nothing else changes |
| TextGrid.WriteBreaksLine | src/victory/engine/Window.java:109-114 | a newline, or any character met at column >= width-1, is consumed without being stored and the rest is written from column 1 of the next row (or the writer stops there if that row is height-1) |
| TextGrid.WriteTopLeftOverrunsTwoRowWindow | src/victory/engine/Window.java:95-116 | on a two-row window, `write("\nA")` from (1, 1) moves below the buffer and stores out of bounds |
| TextGrid.Window.Put | src/victory/engine/Window.java:124-128 | exactly cell (cx, cy) changes when it is inside the grid; outside, the buffer is unchanged |
| TextGrid.PutCellAt | src/victory/engine/Window.java:124-128 | `put` then `getAt`: the written cell reads back the new glyph, every other cell reads back its old glyph, and an out-of-range `put` is a no-op |
| Input.Button.Index | src/main/java/victory/engine/gui/KeyStateManager.java:88-105 | every button's key code lies inside the key arrays |
| Input.ButtonCodesDistinct | src/main/java/victory/engine/gui/KeyStateManager.java:88-94 | the six buttons read six distinct keys (W, S, A, D, SPACE, TAB) |
| Input.KeyStateManager.constructor | src/main/java/victory/engine/gui/KeyStateManager.java:26-29 | two fresh, distinct arrays of KEY_LAST+1 slots with every key up in both frames |
| Input.KeyStateManager.Update | src/main/java/victory/engine/gui/KeyStateManager.java:35-39 | keysLast becomes a copy of keys, so afterwards no key is pressed or released |
| Input.KeyStateManager.DispatchKeyEvent | src/main/java/victory/engine/gui/KeyStateManager.java:112-123 | handled exactly when the code is inside the arrays. Then PRESSED sets and RELEASED clears that one key, and any other id changes nothing. keysLast is never touched |
| Input.KeyStateManager.IsPressed | src/main/java/victory/engine/gui/KeyStateManager.java:48-50 | true exactly when the key is down now and was up in the last frame, so a fresh press is always a key that is down |
| Input.KeyStateManager.IsReleased | src/main/java/victory/engine/gui/KeyStateManager.java:59-61 | true exactly when the key is up now and was down in the last frame, so a fresh release is never down and never a fresh press |
| Input.KeyStateManager.IsDown | src/main/java/victory/engine/gui/KeyStateManager.java:70-72 | true exactly when the key is down in the current frame, whatever the last frame says |
| Input.KeyStateManager.IsButtonDown | src/main/java/victory/engine/gui/KeyStateManager.java:75-77 | reads the current state of the button's own key code |
| Input.KeyStateManager.WasButtonPressed | src/main/java/victory/engine/gui/KeyStateManager.java:79-81 | true exactly when the button's key is down now and was up in the last frame; a button freshly pressed is also down |
| Input.KeyStatePartition | src/main/java/victory/engine/gui/KeyStateManager.java:48-72 | every key is in exactly one of four states: freshly pressed, held (down in both frames), freshly released, or up in both frames |
| Dialog.RunLength | src/main/java/victory/engine/gui/DialogWindow.java:80-83 | the measured word is the longest space-free prefix of the queue: no space before it, and a space right after it unless it is the whole queue |
| Dialog.DialogWindow.constructor | src/main/java/victory/engine/gui/DialogWindow.java:45-49 | the window is clamped and bordered as any grid; the cursor is at (1, 1), the text is queued, the timer is 0, the delay is 6 and skipping is off |
| Dialog.DialogWindow.Queue | src/main/java/victory/engine/gui/DialogWindow.java:51-55 | the bordered blank grid is restored, the cursor is at (1, 1) and the queue is replaced by s |
| Dialog.ScrollCellsAt | src/main/java/victory/engine/gui/DialogWindow.java:61-73 | interior columns of rows 1 to height-3 take the row below; interior columns of row height-1 become 0x20; every other cell is unchanged |
| Dialog.DialogWindow.ScrollUp | src/main/java/victory/engine/gui/DialogWindow.java:61-73 | the buffer becomes exactly the scrolled buffer and qy drops by exactly 1 |
| Dialog.Wrapped | src/main/java/victory/engine/gui/DialogWindow.java:84-89 | the cursor moves to column 1 of a later row exactly when the word does not fit before width-2, the column has reached width-2, or the head is a newline. Otherwise it stays. It moves down two rows in exactly the stated case |
| Dialog.DialogWindow.WrapCursor | src/main/java/victory/engine/gui/DialogWindow.java:80-89 | the word-measuring loop and the two wrap tests leave the cursor where `Wrapped` says |
| Dialog.RevealStepPlacesHead | src/main/java/victory/engine/gui/DialogWindow.java:84-100 | one loop pass removes exactly the head character and charges its cost. It scrolls exactly when the wrapped cursor sits on row height-1. It leaves the head character (a newline included) at the cell left of the new cursor, and every other cell as before or as scrolled |
| Dialog.DialogWindow.TypeNext | src/main/java/victory/engine/gui/DialogWindow.java:80-100 | one pass of the loop changes the typewriter state exactly as `RevealStep` |
| Dialog.RevealOutcome | src/main/java/victory/engine/gui/DialogWindow.java:78-101 | an `update` reveals exactly the first n queued characters, in order, and charges the timer n times the cost. Every pass started with the timer at or above the delay, and the loop ends with the queue empty or the timer below the delay |
| Dialog.DialogWindow.Update | src/main/java/victory/engine/gui/DialogWindow.java:77-103 | the timer gains delta, then the state evolves exactly as `Reveal` with the cost fixed by the skip flag on entry (delay, or delay*0.3); skipping is off afterwards |
| Dialog.DialogWindow.Control | src/main/java/victory/engine/gui/DialogWindow.java:106-116 | answers 1 exactly when the queue is empty and ACCEPT or CANCEL is freshly pressed, else 0. Glyph 0x02 goes to (width-2, height-2) whenever the queue is empty, and no other cell changes. Skipping turns on when it does not resolve and ACCEPT is held |
| MenuLayout.MaxLength | src/main/java/victory/engine/gui/Menu.java:75-79 | the result bounds every label length and is the length of some label, or 0 (so 0 for no labels) |
| MenuLayout.Wrap | src/main/java/victory/engine/gui/Menu.java:49-50 | with at least one choice, a cursor at most one step outside the range lands inside it; a cursor inside the range is unchanged |
| MenuLayout.WrapIsModular | src/main/java/victory/engine/gui/Menu.java:42-50 | UP then roll-over is (c-1) mod n and DOWN then roll-over is (c+1) mod n, so UP from 0 gives n-1 and DOWN from n-1 gives 0 |
| MenuLayout.WrapUpDownInverse | src/main/java/victory/engine/gui/Menu.java:42-50 | a step up followed by a step down, or the reverse, returns to the same choice |
| MenuLayout.EmptyMenuRollsToMinusOne | src/main/java/victory/engine/gui/Menu.java:49-50 | with no choices, UP leaves the cursor at -1 |
| MenuLayout.Outcome | src/main/java/victory/engine/gui/Menu.java:53-58 | 0 exactly when unresolved (or the cursor is at -1); current+1 once resolved |
| MenuLayout.PlaceCursor | src/main/java/victory/engine/gui/Menu.java:64-67 | the blanking loop then the glyph put produce exactly the `DrawCursor` buffer |
| MenuLayout.CursorDrawn | src/main/java/victory/engine/gui/Menu.java:62-68 | with the cursor on a choice, column 1 shows 0x01 on that choice's row and 0x20 on every other choice row; all other cells are unchanged |
| MenuLayout.EmptyMenuCursorOnBorder | src/victory/engine/Menu.java:48-51 | with no choices and the cursor at -1, the cursor glyph lands on the top border |
| MenuLayout.LabelsInPlace | src/main/java/victory/engine/gui/Menu.java:27-29 | labels that fit and hold no newline each occupy columns from 2 of their own row i+1, and every other cell is unchanged |
| GuiMenu.SelectCases | src/main/java/victory/engine/gui/Menu.java:37-50 | against a reference: ACCEPT resolves on the current choice, else CANCEL resolves on choice 0, else UP/DOWN step modulo n, else nothing changes; only the first fresh button acts |
| GuiMenu.ControlInvariant | src/main/java/victory/engine/gui/Menu.java:37-58 | with the cursor on a choice, the cursor stays on a choice, a made choice is never withdrawn, and the answer is 0 exactly while unresolved, otherwise in 1..n |
| GuiMenu.CancelChoosesFirst | src/main/java/victory/engine/gui/Menu.java:39-41 | a fresh CANCEL without ACCEPT always answers 1 |
| GuiMenu.Menu.constructor | src/main/java/victory/engine/gui/Menu.java:24-32 | the grid is (longest label + 3) by (count + 2), holds the labels written from column 2 of rows 1.., and the menu starts unresolved at choice 0 |
| GuiMenu.Menu.Control | src/main/java/victory/engine/gui/Menu.java:35-59 | the selection changes exactly as `Select` on the fresh presses, and the answer is its `Outcome` |
| GuiMenu.Menu.Update | src/main/java/victory/engine/gui/Menu.java:62-68 | the buffer becomes exactly the `DrawCursor` buffer for the current choice |
| LegacyMenu.SelectCases | src/victory/engine/Menu.java:33-45 | against a reference: UP/DOWN step modulo n, else ACCEPT resolves on the current choice, else CANCEL resolves on choice 0, else nothing changes |
| LegacyMenu.PriorityDiffers | src/victory/engine/Menu.java:35-43 | with UP and ACCEPT in one frame the current menu resolves while this one only moves |
| LegacyMenu.Menu.constructor | src/victory/engine/Menu.java:23-31 | the same sizing and labels as the current menu; nothing fired yet |
| LegacyMenu.Menu.Control | src/victory/engine/Menu.java:33-60 | the selection changes as this menu's `Select`, the cursor column is redrawn as `DrawCursor`, the answer is the `Outcome`, and the choice is handed to `fire` exactly when resolved |
| LegacyMenu.Menu.Fire | src/victory/engine/Menu.java:76-78 | does nothing beyond recording the choice |
| GuiStack.AfterControl | src/victory/engine/GUIEngine.java:43-50 | an empty stack stays empty; a nonzero answer removes exactly the top; a zero answer leaves the stack unchanged |
| GuiStack.PushThenResolve | src/victory/engine/GUIEngine.java:35-50 | pushing a surface that then answers nonzero restores the stack |
| GuiStack.Replay | src/victory/engine/GUIEngine.java:43-50 | a run of `control` calls never grows the stack, for surfaces whose own `control` does not push (see Left out) |
| GuiStack.ZeroAnswersKeepStack | src/victory/engine/GUIEngine.java:43-50 | any run of zero answers leaves the stack unchanged, for surfaces whose own `control` does not push (see Left out) |
| GuiStack.ReplayPops | src/victory/engine/GUIEngine.java:43-50 | after a run of answers the stack is its own bottom part, shorter by the number of nonzero answers, down to empty |
| GuiStack.UpdateCalls | src/victory/engine/GUIEngine.java:58-62 | one `update` call per surface, with the same delta, from index 0 upward |
| GuiStack.DrawCalls | src/victory/engine/GUIEngine.java:52-56 | one `draw` call per surface, from index 0 upward |
| GuiStack.GUIEngine.Init | src/victory/engine/GUIEngine.java:28-33 | the screen size is recorded and the stack is empty |
| GuiStack.GUIEngine.AddGUI | src/victory/engine/GUIEngine.java:35-37 | g goes on top and the surfaces below are unchanged |
| GuiStack.GUIEngine.Size | src/victory/engine/GUIEngine.java:39-41 | the number of surfaces on the stack |
| GuiStack.GUIEngine.Control | src/victory/engine/GUIEngine.java:43-50 | a no-op on an empty stack. Otherwise only the top surface is called, with the key state as it is, and it changes state as its own `control` says (`Controlled`), even when it is then popped. Its answer is recorded, and a nonzero answer removes exactly the top and its objects from the footprint. The stack, the states of the surfaces left and the calls are those of `ControlledStack`, so every other surface keeps its state |
| GuiStack.GUIEngine.ControlTop | src/victory/engine/GUIEngine.java:45 | the top surface changes as its own `control` says and every other surface keeps its state; the answer is the top's and the call is recorded with it |
| GuiStack.GUIEngine.Pop | src/victory/engine/GUIEngine.java:46-48 | exactly the top surface leaves the stack and the footprint; the surfaces left keep their states |
| GuiStack.GUIEngine.Update | src/victory/engine/GUIEngine.java:58-62 | the stack is unchanged, the calls made are exactly `UpdateCalls`, bottom first, and every surface's new state is what its own `update` makes of its old state with the same delta (`UpdatedAll`) |
| GuiStack.GUIEngine.Draw | src/victory/engine/GUIEngine.java:52-56 | the calls made are exactly `DrawCalls`, bottom first, and no surface changes state |
| Entities.JavaRemBounds | src/main/java/victory/engine/world/Entity.java:105-106 | for a positive divisor Java's remainder lies in [0, b) for a non-negative dividend and in (-b, 0] for a negative one |
| Entities.SnapsLandOnGrid | src/main/java/victory/engine/world/Entity.java:105-113 | `p -= p % h` and `p += h - p % h` both land on a whole multiple of h. For p >= 0 and h > 0 the first goes down by less than h and the second goes up by at most h |
| Entities.VerticalPassEffect | src/main/java/victory/engine/world/Entity.java:101-117 | a vertical pass never changes x or the horizontal velocity. A bottom hit leaves the vertical velocity <= 0 and y on a multiple of the height. An acting top hit leaves it >= 0 and y on a multiple. The grouped top test with a velocity >= 0, or no hit, changes nothing |
| Entities.HorizontalPassEffect | src/main/java/victory/engine/world/Entity.java:120-133 | a horizontal pass never changes y or the vertical velocity. A left hit leaves the horizontal velocity >= 0, a right hit <= 0, and either leaves x on a multiple of the width. No hit changes nothing |
| Entities.Entity.CheckCollision | src/main/java/victory/engine/world/Entity.java:97-163 | position and velocity change exactly as `Collide`: grouped vertical, grouped horizontal, single vertical, single horizontal, each seeing the last; the map is only read |
| Entities.Entity.GroupedVertical | src/main/java/victory/engine/world/Entity.java:101-117 | the grouped bottom/top test changes the motion exactly as the strong `VerticalPass` |
| Entities.Entity.GroupedHorizontal | src/main/java/victory/engine/world/Entity.java:120-133 | the grouped left/right test changes the motion exactly as the strong `HorizontalPass` |
| Entities.Entity.SingleVertical | src/main/java/victory/engine/world/Entity.java:139-149 | the single-point bottom/top test changes the motion exactly as the weak `VerticalPass`, whose top branch acts whatever the sign of the velocity |
| Entities.Entity.SingleHorizontal | src/main/java/victory/engine/world/Entity.java:152-162 | the single-point left/right test changes the motion exactly as the weak `HorizontalPass` |
| Entities.Clamp | src/main/java/victory/engine/world/Entity.java:182-185 | for a cap >= 0 the result is within [-cap, cap]. It equals the input exactly when the input is within the cap, and saturates to the nearer bound otherwise |
| Entities.Animate | src/main/java/victory/engine/world/Entity.java:172-176 | the frame flips exactly when the counter reaches 25, and then the counter loses 25. A frame in {0, 1} stays in {0, 1} |
| Entities.Entity.constructor | src/main/java/victory/engine/world/Entity.java:75-83 | at rest with zero acceleration, caps of 12 on both axes, the given size, facing up, on frame 0 |
| Entities.Entity.NextFrame | src/main/java/victory/engine/world/Entity.java:171-188 | the animation advances as `Animate` and the sprite cell becomes (step, direction). The entry position is stored as the last position. Each velocity becomes `Accelerated`, the `Clamp` of velocity plus acceleration*delta, and each coordinate becomes `Moved` by the new velocity*delta. Acceleration and caps are unchanged |
| Entities.Entity.Animation | src/main/java/victory/engine/world/Entity.java:172-177 | counter and frame change as `Animate`; the sprite cell is (step, direction) |
| Entities.Entity.Accelerate | src/main/java/victory/engine/world/Entity.java:180-185 | each velocity becomes `Accelerated`: velocity plus acceleration*delta, capped from above and then from below as `Clamp` states |
| Entities.Entity.Advance | src/main/java/victory/engine/world/Entity.java:186-187 | each coordinate advances by its velocity times delta |
| Entities.Entity.IsCollidedWith | src/main/java/victory/engine/world/Entity.java:197-209 | true exactly when this entity's top-left corner lies in the other's box (x in [ox, ox+ow), y in [oy, oy+oh)) or the other's top-left corner lies in this one's box |
| Entities.CollisionSymmetric | src/main/java/victory/engine/world/Entity.java:197-209 | a.isCollidedWith(b) == b.isCollidedWith(a) |
| Entities.TouchingMeansOverlap | src/main/java/victory/engine/world/Entity.java:197-209 | boxes of positive size that touch overlap on both axes |
| Entities.CrossingBarsDoNotTouch | src/main/java/victory/engine/world/Entity.java:197-209 | overlapping boxes need not touch: two crossing bars overlap while neither holds the other's top-left corner |
| Players.SteerByAxes | src/main/java/victory/engine/world/Player.java:39-57 | against a reference: each velocity is the difference of its two buttons, so opposite buttons cancel. The facing follows horizontal motion if any, else vertical motion, else stays as it was |
| Players.Player.constructor | src/main/java/victory/engine/world/Player.java:15-20 | a new 16x16 entity at (x, y), at rest with caps of 12, showing sprite cell (0, 0) |
| Players.Player.GetGarbage | src/main/java/victory/engine/world/Player.java:28-31 | a player is never marked for removal |
| Players.Player.SteerBy | src/main/java/victory/engine/world/Player.java:39-57 | the velocities and the facing become `Steer`'s for the held buttons and the old facing |
| Players.PushPauseMenu | src/main/java/victory/engine/world/Player.java:61 | exactly one fresh menu, unresolved at choice 0 with the labels Party, Inventory, Config, Save, goes on top; the surfaces below are unchanged |
| Players.Player.Control | src/main/java/victory/engine/world/Player.java:38-65 | answers 0 and sets the facing as `Steer`. A fresh CANCEL zeroes both velocities and accelerations and pushes exactly one new, unresolved "Party/Inventory/Config/Save" menu on the stack. Otherwise the velocities are `Steer`'s, the accelerations and the stack are unchanged |
| CoreLoop.TickArgsShape | src/main/java/victory/engine/Core.java:83-86 | every tick argument is <= 1 and all but the last equal 1 |
| CoreLoop.TickArgsSum | src/victory/engine/Core.java:94-97 | the tick arguments sum exactly to the frame's delta; for delta >= 0 none is negative |
| CoreLoop.TickCount | src/main/java/victory/engine/Core.java:83-86 | the number of ticks is max(1, ceil(delta)), so a frame always runs at least one tick |
| CoreLoop.NextArgs | src/main/java/victory/engine/Core.java:83-86 | one pass of the do/while moves min(delta, 1) from the arguments still to come to those done; the loop goes on exactly while delta-1 > 0, and then its measure drops |
| CoreLoop.TickOnPops | src/victory/engine/Core.java:121-125 | one tick keeps a bottom part of the stack and pops at most one surface. It makes one `control` call on the old top, if any, and one `update` call per surface left, all aimed at surfaces of the stack, and draws nothing |
| CoreLoop.TicksAppend | src/main/java/victory/engine/Core.java:83-86 | the ticks of one more argument are the earlier ticks followed by one tick on their result; that tick sees the key state (now, now) unless it is the first |
| CoreLoop.TicksHaveNoDraw | src/main/java/victory/engine/Core.java:83-88 | no drawing happens among a frame's ticks, and every call is aimed at a surface on the stack when the frame started. The stack afterwards is a bottom part of that stack, shorter by at most the number of ticks |
| CoreLoop.Core.Tick | src/main/java/victory/engine/Core.java:110-114 | `control`, then `update` with the same delta, then the rollover. The stack, the states of its surfaces and the calls are those of `TickOn` with the key state from before the tick: the top changes as its own `control` says and is popped on a nonzero answer, then every surface left changes as its own `update` says. The keys are unchanged, and afterwards keysLast equals keys |
| CoreLoop.Core.Frame | src/main/java/victory/engine/Core.java:83-88 | the do/while runs exactly the ticks `TickArgs(delta)` in order, so the stack, its states and the calls are those of `Ticks`. Then exactly one draw pass, `DrawCalls` of the final stack, follows. Afterwards keysLast equals keys |

## Left out

- Pixel output is foreign code and is not modelled. This covers `Window.draw`,
  `Entity.draw`, sprites, sprite sheets, `Screen` and `render`. `draw` is modelled only
  as the order in which the stack visits its surfaces. `nextFrame`'s
  `sprite.setIndex` is a ghost record of (step, direction).
- Swing, threads and clocks are left out. This covers `GameFrame`, the `Core`
  constructor, `getWidth`, `getHeight`, `getScreen`, `System.nanoTime`,
  `currentTimeMillis`, `Thread.sleep` and the fps printout. The frame delta is an
  input to `CoreLoop.Core.Frame`. The `Core` constructor is replaced by one that
  receives an existing GUI stack and key manager.
- The world (`MapEngine`, `Map`, `CollisionMap`) is not part of this model:
  - the world surface on the stack answers `control` by an uninterpreted function
    of the key arrays;
  - its `update` and `draw` are only recorded;
  - the collision map is an uninterpreted read-only predicate on coordinates.
- The repository holds two generations of the engine: the main package
  (`victory.engine`, under src/main/java) and the older package (`net.victory.engine`,
  under src/victory). Each generation uses its own `Window`, `GUIEngine` and
  `KeyStateManager`, and only one copy of each of these three is part of this model:
  - the main package's `DialogWindow` and `Menu` extend that package's own `Window`,
    which is not part of this model; the model assumes it behaves like the older
    `Window` (src/victory/engine/Window.java). `Dialog.*` and `GuiMenu.*` rest on this
    assumption;
  - the main package's `Core`, `Entity` and `Player` use that package's own
    `GUIEngine`, which is not part of this model; the model assumes it behaves like
    the older `GUIEngine` (src/victory/engine/GUIEngine.java). `GuiStack.GUIEngine.*`
    as used by `Players.PushPauseMenu`, `Players.Player.Control` and
    `CoreLoop.Core.*` rests on this assumption;
  - the older `Menu`, `Window` and `GUIEngine` use the older package's
    `KeyStateManager`, which is not part of this model; the model assumes it behaves
    like the main package's copy
    (src/main/java/victory/engine/gui/KeyStateManager.java). `LegacyMenu.*` and
    `GuiStack.*` rest on this assumption.
- The older `Menu` has no `update` of its own, so the stack treats its update as a
  no-op.
- The interfaces `GUI`, `Tangible` and `InputController` have no behaviour. They
  appear only as the shape of `GuiStack.Surface`.
- Floating point is modelled as exact reals: rounding, infinities and NaN are not
  modelled.
- Entities.Entity.CheckCollision: requires a non-zero width and height, because
  Java's `%` by 0.0 yields NaN, which the real-valued model does not represent.
- Input.KeyStateManager.DispatchKeyEvent: requires a non-negative key code. AWT
  key codes are never negative, and a negative index would throw in Java.
- Input.KeyStateManager.IsPressed, Input.KeyStateManager.IsReleased and
  Input.KeyStateManager.IsDown: require an index inside the key arrays. Java throws
  ArrayIndexOutOfBoundsException for any other index; every caller in the program
  passes a `Button`'s code, which `Input.Button.Index` shows is in range.
- Java's 32-bit `int` is modelled as an unbounded integer. For the sizes the program
  uses (menu cursor, key codes, grid sizes) nothing comes near the bound.
- Strings are sequences of Dafny `char`, which are Unicode scalar values, while a Java
  `String` is a sequence of UTF-16 code units. `write`, the word length of
  `DialogWindow` and the label widths of `Menu` count code units in Java: a character
  outside the Basic Multilingual Plane counts as two there and as one here, and a lone
  surrogate cannot be represented.
- GuiStack.GUIEngine.Control: the world surface's `control` is an uninterpreted
  function of the key arrays and cannot push onto the stack. In Java the world passes
  input to the player (src/main/java/victory/engine/Core.java:50-51), whose `control`
  pushes the pause menu (src/main/java/victory/engine/world/Player.java:61). That push
  is modelled on its own by `Players.PushPauseMenu` and `Players.Player.Control`.
  `GuiStack.Replay` and `GuiStack.ZeroAnswersKeepStack` hold only for surfaces that do
  not push.
- GuiStack.GUIEngine.AddGUI: requires the new surface's objects to be disjoint from
  those of the surfaces already on the stack. Java's `Stack` accepts the same object
  twice, and then one `update` pass would update it twice; the model does not cover a
  surface that is on the stack more than once.
- `Window.write`'s out-of-bounds array store, which throws
  ArrayIndexOutOfBoundsException in Java, is modelled as a `fault` result that stops
  the write.
- The older `GUIEngine`'s unused `paused` field is not modelled. Neither are
  `Entity.equals` (double equality with no matching `hashCode`), the unused
  `gravity` field, the empty `Player.update` and `Player.onCollide`, the entity's
  sprite sheet argument and the getters outside the core.
- Nothing is proved about the idempotence of `checkCollision` or about tunnelling,
  because the code makes no such promise. Likewise nothing is proved about the
  typewriter cursor staying inside the border or about words never being split.
  Double wraps and long words break both.
