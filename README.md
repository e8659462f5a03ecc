# Snake game logic, modelled and verified in Dafny

This project models the game logic of a MonoGame snake game (`SnakeGame.cs`):
the per-tick simulation step (steering, new head, wall check, self-collision
check, grow or shift), the screen state machine StartMenu / Playing /
GameOver with its per-frame dispatch, the menu handler shared by the start
and game-over screens, and round initialisation with food placement.

Layout, one module per component:

- `geometry.dfy` (`Geometry`): the 800 x 600 field, 20-pixel cells, the
  four axis steps, bounds and grid tests, and food placement from a random
  draw (`SpawnCell`).
- `controls.dfy` (`Controls`): keys, key-down edges, the steering rules
  (`Steer`), menu navigation (`NextSelection`) and menu selection
  (`MenuChoice`).
- `simulation.dfy` (`Simulation`): the snake's well-formedness, the
  self-collision loop (`SelfCollides`), which branch a move takes
  (`Classify`), and the lemmas that growing and shifting keep the snake
  well-formed.
- `state_machine.dfy` (`StateMachine`): the whole game state as a value
  (`GameView`) and pure functions for one move tick, one play frame, one
  menu frame and one `Update` call. The lemmas about them state the
  properties of the game.
- `snake_game.dfy` (`Game`): the class `SnakeGame`. Its fields are the game
  state the C# class updates in place. The timer fields `_timer` and
  `_moveInterval` and the `_gameOver` flag are dropped, and `exitRequested`
  stands for the call to `Exit()`. The constructor models the C# constructor
  followed by `Initialize()`. Every other method models a C# method, except
  `ChangeDirection` and `MoveTick`, which are the two halves of `UpdateGame`
  (steering, then the move). Each method is proved to leave the state equal to
  the matching function of the old state. `SpawnFood` and `ChangeDirection`
  change one field each, to `SpawnCell` and `Steer` of `Geometry` and
  `Controls`. The others leave `View()` equal to a `StateMachine` function of
  the old view.

Positions are whole pixels. The framework's float `Vector2` becomes the
integer pair `Vec`, which is exact because every stored coordinate is a
multiple of 20. The C# `%` in menu navigation is applied to non-negative
operands only, so Dafny's `%` gives the same result. Integers are unbounded
in the model, while the C# `_score` is a 32-bit `int`. The model needs no
wrap-around: a snake of distinct field cells has at most 1200 segments, so the
score never exceeds 11990 (`ScoreFitsInt32`).

Behaviour of the code worth knowing:

- Turning round. Each arrow test is meant to refuse the reverse of the
  current direction. But each test compares against the direction as already
  updated by the earlier tests in the same frame. Steering also runs every
  frame, while moves happen only when the timer fires. With one arrow key
  held, or two on the same axis, a reversal is always refused
  (`SteerOneArrow`, `SteerOneAxisNeverReverses`). Keys on both axes in one
  frame can reverse the snake: heading right with Up and Left held together
  becomes heading left. So can turning in two frames before a move: Up in one
  frame, then Left in the next (`SteerCanReverseBeforeMoving`). A snake whose
  second segment lies right behind its head, turned round this way, runs into
  that segment on the next move, and the round ends. `TurnRoundEndsRound`
  shows this for a two-segment snake.
- Self-collision. The loop starts at index 1, not 0. `SelfHitIsOccupied`
  proves this is the same as testing every segment, because an axis step
  never lands on the head itself. The current tail counts as a hit even
  though it would move away in the same tick.
- Food placement. Food may land on the snake. Nothing checks for overlap,
  and the model promises no such thing.
- The game-over screen. It runs the start menu's handler unchanged
  (`GameOverActsAsStartMenu`). The dedicated `UpdateGameOver` is never called.

## Model

| member | source | states |
|---|---|---|
| Geometry.SpawnCell | SnakeGame.cs:150-158 | food is placed on a cell of the field: in [0,800) x [0,600), both coordinates multiples of 20 |
| Geometry.SpawnCellOnto | SnakeGame.cs:154-155 | every cell of the field is produced by some in-range draw (column, row) |
| Geometry.SpawnCellInjective | SnakeGame.cs:154-155 | distinct draws give distinct cells, so a uniform draw gives a uniform cell |
| Geometry.StepStaysOnGrid | SnakeGame.cs:252 | head plus an axis step is again on the 20-pixel grid and differs from the head |
| Controls.Steer | SnakeGame.cs:226-245 | an axis direction stays an axis direction; with no arrow key held the direction is unchanged |
| Controls.SteerOneArrow | SnakeGame.cs:226-245 | with exactly one arrow key held the direction becomes that key's step, unless that is the exact reverse, which leaves it unchanged; never the reverse |
| Controls.SteerOneAxisNeverReverses | SnakeGame.cs:226-245 | with arrow keys on one axis only (one key, Up with Down, or Left with Right) the new direction is never the reverse of the old |
| Controls.SteerCanReverseBeforeMoving | SnakeGame.cs:226-245 | the tests see the already-updated direction: Right with {Up, Left} in one frame, or Up then Left in two frames, gives Left |
| Controls.NextSelection | SnakeGame.cs:194-203 | the selection stays in [0,2); Down alone moves forward modulo 2; Up alone moves back (its successor is the old index); both or neither leave it |
| Controls.HeldKeysDoNotRepeat | SnakeGame.cs:194-218 | navigation and selection are edge-triggered: any key already held in the previous frame gives the same selection and the same Enter action as if it were released now |
| Controls.MenuWraps | SnakeGame.cs:197-202 | Down from index 1 gives 0; Up from index 0 gives 1 |
| Controls.MenuChoice | SnakeGame.cs:206-218 | a new Enter press with an index in range always acts; an action is only ever taken on the label "Start Game" (start) or "Exit" (exit) |
| Simulation.Classify | SnakeGame.cs:252-287 | the wall check comes first (WallHit exactly when the new head is off the field); the move proceeds (Ate or Moved) exactly when the head is in bounds and hits no segment from index 1 on; Ate exactly when it also lands on the food |
| Simulation.SelfCollides | SnakeGame.cs:265-273 | the loop reports a hit exactly when some segment at index 1 or later equals the new head |
| Simulation.SelfHitIsOccupied | SnakeGame.cs:265-273 | for a well-formed snake and an in-bounds head, the self hit happens exactly when the new head is any occupied cell, the tail included |
| Simulation.RightWallHit | SnakeGame.cs:256-262 | a head in the rightmost column moving right hits the wall |
| Simulation.PrependFreeCell | SnakeGame.cs:275 | inserting a free field cell in front of a distinct, in-field body gives a well-formed snake |
| Simulation.NewHeadIsFree | SnakeGame.cs:252-273 | a head that passed both collision checks is a free cell of the field |
| Simulation.MoveKeepsWellFormed | SnakeGame.cs:275-287 | insert-then-remove-tail keeps the cells distinct and on the field, with the length unchanged |
| Simulation.EatKeepsWellFormed | SnakeGame.cs:275-283 | insert without removal keeps the cells distinct and on the field, with the length increased by one |
| StateMachine.Initial | SnakeGame.cs:40-67 | construction plus Initialize gives the start menu, index 0, no remembered keys, no exit request, and a state that is its own round reset |
| StateMachine.ResetRound | SnakeGame.cs:57-67 | a reset round is a well-formed snake with an axis direction, score 10 x (length - 1) and food on a field cell; screen, menu index, remembered keys and exit flag are untouched |
| StateMachine.Tick | SnakeGame.cs:250-287 | a move tick either keeps the screen or is the old state with GameOver; the length and the score never drop; direction, menu index, remembered keys and exit flag are untouched |
| StateMachine.PlayStep | SnakeGame.cs:221-290 | the direction becomes Steer of the old one and the held keys, whether or not a move is due; with a move due the result is Tick of the steered state; with no move due the snake, food, score and screen stay; screen goes only to GameOver; menu index, remembered keys and exit flag are untouched |
| StateMachine.MenuStep | SnakeGame.cs:191-219 | the new index is NextSelection of the old one and the keys; a new Enter on "Exit" requests exit and keeps the screen; the screen changes only to Playing, and then the round is fresh; a frame not ending on Playing leaves snake, score and direction alone; an exit request is kept |
| StateMachine.NextFrame | SnakeGame.cs:160-189 | the snake stays non-empty and the index in range; the keys of this frame are remembered; an earlier exit request, Escape or Back leave exit requested |
| StateMachine.NormalMove | SnakeGame.cs:252-287 | no wall, no self hit, no food: the snake becomes the new head followed by all old cells except the tail; length, score, food, screen, direction, menu index, remembered keys and exit flag are unchanged |
| StateMachine.EatFood | SnakeGame.cs:275-283 | the head lands on the food, every old cell is kept in order after it, the length grows by 1, the score by exactly 10, the new food is the drawn cell; screen, direction, menu index, remembered keys and exit flag are unchanged |
| StateMachine.CollisionEndsRound | SnakeGame.cs:256-273 | a wall hit or self hit sets GameOver and changes nothing else: snake, score, food and direction are untouched |
| Simulation.SnakeFitsField | SnakeGame.cs:256-287 | a snake of distinct cells on the field has at most 40 x 30 = 1200 segments |
| StateMachine.ScoreFitsInt32 | SnakeGame.cs:22 | in every state satisfying the invariant the score lies in [0, 11990], so the 32-bit `_score` never wraps |
| StateMachine.TickKeepsInv | SnakeGame.cs:250-287 | a move tick keeps the snake distinct, on the field and non-empty, and keeps score == 10 x (length - 1) |
| StateMachine.NextFrameKeepsInv | SnakeGame.cs:160-189 | one Update call on any screen keeps the invariant, including the axis direction and the menu index in range |
| StateMachine.RunKeepsInv | SnakeGame.cs:160-189 | every state reached by any sequence of frames keeps the invariant |
| StateMachine.InitialKeepsInv | SnakeGame.cs:49-67 | the state after Initialize satisfies the invariant |
| StateMachine.ScreenTransitions | SnakeGame.cs:171-185 | the start menu is never re-entered; Playing goes only to Playing or GameOver, with the score never dropping; the start menu never goes straight to GameOver |
| StateMachine.EnterStartsFreshRound | SnakeGame.cs:206-213 | entering Playing from a menu screen gives snake [(400,300)], direction (20,0), score 0, food on a field cell and an index that was not reset but points at "Start Game" |
| StateMachine.MenuEntersRound | SnakeGame.cs:206-213 | on a menu screen a frame reaches Playing if and only if Enter is newly pressed and the navigated index is 0 |
| StateMachine.ExitRequests | SnakeGame.cs:164-217 | Escape or Back requests exit; a request is never withdrawn; on a menu screen without Escape or Back a new request is made if and only if Enter is newly pressed with the navigated index 1 ("Exit") |
| StateMachine.TurnRoundEndsRound | SnakeGame.cs:226-273 | a two-segment snake heading right, given Up and Left in one frame, or Up and then Left in two frames, is classified as a self hit on its second segment; the result is the old state heading left on GameOver, with only the remembered keys otherwise changed |
| StateMachine.GameOverActsAsStartMenu | SnakeGame.cs:181-184 | a frame on the game-over screen does exactly what it does on the start menu, except that a screen that stays put stays GameOver |
| Game.SnakeGame.constructor | SnakeGame.cs:40-55 | the object starts on the start menu with a freshly initialised round, and satisfies the invariant |
| Game.SnakeGame.InitializeGame | SnakeGame.cs:57-67 | the snake, direction, score and food are reset; everything else is unchanged |
| Game.SnakeGame.SpawnFood | SnakeGame.cs:150-158 | only the food changes, to the cell of the draw |
| Game.SnakeGame.Update | SnakeGame.cs:160-189 | the new state is NextFrame of the old one, and the invariant is kept |
| Game.SnakeGame.UpdateStartMenu | SnakeGame.cs:191-219 | the new state is MenuStep of the old one |
| Game.SnakeGame.UpdateGame | SnakeGame.cs:221-290 | the new state is PlayStep of the old one: steering, then a move tick if due |
| Game.SnakeGame.ChangeDirection | SnakeGame.cs:226-245 | only the direction changes, to Steer of the old direction and the held keys |
| Game.SnakeGame.MoveTick | SnakeGame.cs:247-288 | the new state is Tick of the old one, with early returns on a collision |

## Left out

- Content loading (`LoadContent`, SnakeGame.cs:69-148): textures, the font and placeholder generation are I/O against the content pipeline.
- Drawing (`Draw`, `DrawStartMenu`, `DrawGame` and the unused `DrawGameOver`, SnakeGame.cs:322-439): rendering through foreign sprite calls with float layout.
- Input polling: `Keyboard.GetState` and `GamePad.GetState` are replaced by the `Frame` input. It holds the set of keys held now and a flag for the game pad's Back button. The keys of the previous frame are kept in the `previousKeys` field, as the source keeps its previous keyboard state. Keys other than the arrows, Enter and Escape are not modelled; the game ignores them.
- `Exit()`: replaced by the `exitRequested` flag. The model does not stop the host loop. As with the framework's `Exit()`, the rest of the same `Update` call still runs.
- The float move timer (`_timer`, `_moveInterval`, `ElapsedGameTime`, SnakeGame.cs:248-251) is replaced by the boolean `moveDue` in `Frame`. Float accumulation and the timer reset are not modelled.
- `System.Random` in `SpawnFood` is replaced by a caller-supplied `FoodDraw`. It holds the two draws of `Random.Next(0, n)`, required to lie in [0, 40) and [0, 30). Randomness itself is not modelled.
- Food after eating: the model does not claim the new food differs from the old cell or avoids the snake, because the source guarantees neither.
- `Debug.WriteLine` logging is not modelled.
- The `_gameOver` field is dropped: it is never set to true, so the guard in `UpdateGame` always passes.
- `UpdateGameOver` (SnakeGame.cs:292-320) is not modelled separately: it is never called, and its text is identical to `UpdateStartMenu`.
- The unreached distinct game-over screen is not restored; the model keeps the observed behaviour of reusing the start menu.
