/** The game's whole state as a value, and what one call of the framework's
    Update does to it: the screen dispatch, the menu handler shared by the
    start and game-over screens, and the play screen's steering and move
    tick. The class in module Game is proved to follow these functions. */
module StateMachine {
  import opened Geometry
  import opened Controls
  import opened Simulation

  datatype Screen = StartMenu | Playing | GameOver

  /** Every field the game logic reads or writes. */
  datatype GameView = GameView(
    snake: seq<Vec>,
    food: Vec,
    direction: Vec,
    score: int,
    screen: Screen,
    selected: int,
    previousKeys: set<Key>,
    exitRequested: bool)

  /** What the host hands to one Update call: the keys held now, the game
      pad's Back button, whether the move timer has reached its interval,
      and the random draw used if food has to be placed. */
  datatype Frame = Frame(keys: set<Key>, backPressed: bool, moveDue: bool, draw: FoodDraw)

  /** The invariant of every reachable state, whatever the screen. */
  predicate Inv(g: GameView) {
    WellFormed(g.snake)
    && IsCell(g.food)
    && IsAxisStep(g.direction)
    && g.score == FoodReward * (|g.snake| - 1)
    && 0 <= g.selected < |MenuOptions|
  }

  /** The state right after the game is constructed and initialised. */
  function Initial(draw: FoodDraw): (r: GameView)
    requires draw.InRange()
    ensures r.screen == StartMenu && r.selected == 0 && r.previousKeys == {} && !r.exitRequested
    ensures r == ResetRound(r, draw)
  {
    GameView([StartCell], SpawnCell(draw), StepRight, 0, StartMenu, 0, {}, false)
  }

  /** A new round: one segment at the start cell heading right, score 0 and
      freshly placed food; screen, menu and input state are left as they are. */
  function ResetRound(g: GameView, draw: FoodDraw): (r: GameView)
    requires draw.InRange()
    ensures WellFormed(r.snake) && IsCell(r.food) && IsAxisStep(r.direction)
    ensures r.score == FoodReward * (|r.snake| - 1)
    ensures r.screen == g.screen && r.selected == g.selected
    ensures r.previousKeys == g.previousKeys && r.exitRequested == g.exitRequested
  {
    g.(snake := [StartCell], direction := StepRight, score := 0, food := SpawnCell(draw))
  }

  /** One move tick of the play screen. */
  function Tick(g: GameView, draw: FoodDraw): (r: GameView)
    requires |g.snake| >= 1 && draw.InRange()
    ensures r.screen == g.screen || r == g.(screen := GameOver)
    ensures |r.snake| >= |g.snake| && r.score >= g.score
    ensures r.direction == g.direction && r.selected == g.selected
    ensures r.previousKeys == g.previousKeys && r.exitRequested == g.exitRequested
  {
    var h := NewHead(g.snake, g.direction);
    match Classify(g.snake, g.direction, g.food)
    case WallHit => g.(screen := GameOver)
    case SelfHit => g.(screen := GameOver)
    case Ate => g.(snake := [h] + g.snake, score := g.score + FoodReward, food := SpawnCell(draw))
    case Moved => g.(snake := [h] + g.snake[..|g.snake| - 1])
  }

  /** One frame of the play screen: steering every frame, a move when due. */
  function PlayStep(g: GameView, held: set<Key>, moveDue: bool, draw: FoodDraw): (r: GameView)
    requires |g.snake| >= 1 && draw.InRange()
    ensures r.direction == Steer(g.direction, held)
    ensures r.screen == g.screen || r.screen == GameOver
    ensures |r.snake| >= |g.snake| && r.score >= g.score
    ensures !moveDue ==> r.snake == g.snake && r.food == g.food && r.score == g.score && r.screen == g.screen
    ensures moveDue ==> r == Tick(g.(direction := Steer(g.direction, held)), draw)
    ensures r.selected == g.selected && r.previousKeys == g.previousKeys && r.exitRequested == g.exitRequested
  {
    var steered := g.(direction := Steer(g.direction, held));
    if moveDue then Tick(steered, draw) else steered
  }

  /** One frame of the menu handler, used on the start and game-over screens. */
  function MenuStep(g: GameView, current: set<Key>, draw: FoodDraw): (r: GameView)
    requires 0 <= g.selected < |MenuOptions| && draw.InRange()
    ensures r.selected == NextSelection(g.selected, current, g.previousKeys)
    ensures 0 <= r.selected < |MenuOptions| && r.previousKeys == g.previousKeys
    ensures MenuChoice(r.selected, current, g.previousKeys) == ExitGame ==>
              r.exitRequested && r.screen == g.screen
    ensures r.screen == g.screen || r.screen == Playing
    ensures r.screen != g.screen ==> r.snake == [StartCell] && r.score == 0 && r.direction == StepRight
    ensures r.screen != Playing ==> r.snake == g.snake && r.score == g.score && r.direction == g.direction
    ensures g.exitRequested ==> r.exitRequested
  {
    var sel := NextSelection(g.selected, current, g.previousKeys);
    var moved := g.(selected := sel);
    match MenuChoice(sel, current, g.previousKeys)
    case StartGame => ResetRound(moved.(screen := Playing), draw)
    case ExitGame => moved.(exitRequested := true)
    case Stay => moved
  }

  /** One Update call: the exit check, the dispatch on the screen, and the
      keyboard state remembered for the next frame's edge detection. */
  function NextFrame(g: GameView, f: Frame): (r: GameView)
    requires |g.snake| >= 1 && 0 <= g.selected < |MenuOptions| && f.draw.InRange()
    ensures |r.snake| >= 1 && 0 <= r.selected < |MenuOptions|
    ensures r.previousKeys == f.keys
    ensures g.exitRequested || f.backPressed || Escape in f.keys ==> r.exitRequested
  {
    var checked := if f.backPressed || Escape in f.keys then g.(exitRequested := true) else g;
    var updated :=
      match checked.screen
      case StartMenu => MenuStep(checked, f.keys, f.draw)
      case Playing => PlayStep(checked, f.keys, f.moveDue, f.draw)
      case GameOver => MenuStep(checked, f.keys, f.draw);
    updated.(previousKeys := f.keys)
  }

  predicate ValidFrames(frames: seq<Frame>) {
    forall i :: 0 <= i < |frames| ==> frames[i].draw.InRange()
  }

  /** The state after the host loop has called Update once per frame. */
  function Run(g: GameView, frames: seq<Frame>): GameView
    requires Inv(g) && ValidFrames(frames)
    decreases |frames|
  {
    if frames == [] then g
    else
      NextFrameKeepsInv(g, frames[0]);
      Run(NextFrame(g, frames[0]), frames[1..])
  }

  // ---- the move tick, branch by branch ----

  /** Normal move: the head is prepended and the tail dropped; length, score
      and food are unchanged. */
  lemma NormalMove(g: GameView, draw: FoodDraw)
    requires |g.snake| >= 1 && draw.InRange()
    requires Classify(g.snake, g.direction, g.food) == Moved
    ensures var r := Tick(g, draw);
      r.snake == [NewHead(g.snake, g.direction)] + g.snake[..|g.snake| - 1]
      && |r.snake| == |g.snake| && r.score == g.score && r.food == g.food
      && r.screen == g.screen && r.direction == g.direction
      && r.selected == g.selected && r.previousKeys == g.previousKeys
      && r.exitRequested == g.exitRequested
  {
  }

  /** Eating: the head is prepended onto the food cell and every old segment
      is kept in order; the score rises by exactly 10 and new food is placed
      on a cell of the field. */
  lemma EatFood(g: GameView, draw: FoodDraw)
    requires |g.snake| >= 1 && draw.InRange()
    requires Classify(g.snake, g.direction, g.food) == Ate
    ensures var r := Tick(g, draw);
      r.snake[0] == g.food && r.snake[1..] == g.snake && |r.snake| == |g.snake| + 1
      && r.score == g.score + 10 && r.food == SpawnCell(draw) && IsCell(r.food)
      && r.screen == g.screen && r.direction == g.direction
      && r.selected == g.selected && r.previousKeys == g.previousKeys
      && r.exitRequested == g.exitRequested
  {
  }

  /** A wall or self collision ends the round and changes nothing else. */
  lemma CollisionEndsRound(g: GameView, draw: FoodDraw)
    requires |g.snake| >= 1 && draw.InRange()
    requires Classify(g.snake, g.direction, g.food) in {WallHit, SelfHit}
    ensures Tick(g, draw) == g.(screen := GameOver)
  {
  }

  /** The round invariant survives a move tick. */
  lemma TickKeepsInv(g: GameView, draw: FoodDraw)
    requires Inv(g) && draw.InRange()
    ensures Inv(Tick(g, draw))
  {
    match Classify(g.snake, g.direction, g.food)
    case WallHit =>
    case SelfHit =>
    case Ate => EatKeepsWellFormed(g.snake, g.direction, g.food);
    case Moved => MoveKeepsWellFormed(g.snake, g.direction, g.food);
  }

  // ---- whole frames ----

  /** The invariant survives every Update call, on every screen. */
  lemma NextFrameKeepsInv(g: GameView, f: Frame)
    requires Inv(g) && f.draw.InRange()
    ensures Inv(NextFrame(g, f))
  {
    var checked := if f.backPressed || Escape in f.keys then g.(exitRequested := true) else g;
    if checked.screen == Playing {
      TickKeepsInv(checked.(direction := Steer(checked.direction, f.keys)), f.draw);
    }
  }

  /** Every state the host loop reaches from a state satisfying the
      invariant (the initial one, by InitialKeepsInv) satisfies it too:
      distinct in-bounds grid cells, at least one segment, an axis direction,
      score 10 per segment beyond the first, a menu index in range. */
  lemma {:induction false} RunKeepsInv(g: GameView, frames: seq<Frame>)
    requires Inv(g) && ValidFrames(frames)
    ensures Inv(Run(g, frames))
    decreases |frames|
  {
    if frames != [] {
      NextFrameKeepsInv(g, frames[0]);
      RunKeepsInv(NextFrame(g, frames[0]), frames[1..]);
    }
  }

  lemma InitialKeepsInv(draw: FoodDraw)
    requires draw.InRange()
    ensures Inv(Initial(draw))
  {
  }

  /** Screens move StartMenu -> Playing <-> GameOver and never back to the
      start menu; while playing the score never drops. */
  lemma ScreenTransitions(g: GameView, f: Frame)
    requires Inv(g) && f.draw.InRange()
    ensures var r := NextFrame(g, f);
      (r.screen == StartMenu ==> g.screen == StartMenu)
      && (g.screen == Playing ==> r.screen != StartMenu && r.score >= g.score)
      && (g.screen == StartMenu ==> r.screen != GameOver)
  {
  }

  /** Entering a round from a menu screen always starts it afresh: one
      segment at (400, 300) heading right, score 0, food on a cell of the
      field, the menu index unchanged. */
  lemma EnterStartsFreshRound(g: GameView, f: Frame)
    requires Inv(g) && f.draw.InRange()
    requires g.screen != Playing
    requires NextFrame(g, f).screen == Playing
    ensures var r := NextFrame(g, f);
      r.snake == [StartCell] && r.direction == StepRight && r.score == 0 && IsCell(r.food)
      && MenuOptions[r.selected] == "Start Game"
      && r.selected == NextSelection(g.selected, f.keys, g.previousKeys)
  {
  }

  /** On a menu screen a frame starts a round exactly when Enter is newly
      pressed and the navigated selection is the "Start Game" entry. */
  lemma MenuEntersRound(g: GameView, f: Frame)
    requires Inv(g) && f.draw.InRange()
    requires g.screen != Playing
    ensures NextFrame(g, f).screen == Playing <==>
              Pressed(Enter, f.keys, g.previousKeys) && NextSelection(g.selected, f.keys, g.previousKeys) == 0
  {
  }

  /** Exit is requested by Escape, the Back button or Enter on "Exit", and a
      request is never withdrawn. On a menu screen without Escape or Back, a
      new request is made exactly when Enter is newly pressed on "Exit". */
  lemma ExitRequests(g: GameView, f: Frame)
    requires Inv(g) && f.draw.InRange()
    ensures var r := NextFrame(g, f);
      (g.exitRequested ==> r.exitRequested)
      && (f.backPressed || Escape in f.keys ==> r.exitRequested)
      && (!g.exitRequested && r.exitRequested && !f.backPressed && Escape !in f.keys ==>
            g.screen != Playing && MenuOptions[r.selected] == "Exit")
      && (g.screen != Playing && !g.exitRequested && !f.backPressed && Escape !in f.keys ==>
            (r.exitRequested <==>
               Pressed(Enter, f.keys, g.previousKeys) && NextSelection(g.selected, f.keys, g.previousKeys) == 1))
  {
  }

  /** The game-over screen runs the start menu's handler unchanged: from
      GameOver a frame does what it does from StartMenu, except that a
      screen that stays put stays GameOver. */
  lemma GameOverActsAsStartMenu(g: GameView, f: Frame)
    requires Inv(g) && f.draw.InRange()
    requires g.screen == GameOver
    ensures var fromOver, fromMenu := NextFrame(g, f), NextFrame(g.(screen := StartMenu), f);
      fromOver == fromMenu.(screen := if fromMenu.screen == StartMenu then GameOver else fromMenu.screen)
  {
  }

  /** What a turn-round costs: a two-segment snake heading right is turned
      round before it moves, either by Up and Left held in one frame or by
      Up in one frame and Left in the next, and its move then runs into its
      own second segment and ends the round. */
  lemma TurnRoundEndsRound(draw: FoodDraw)
    requires draw.InRange()
    ensures var g := GameView([Vec(400, 300), Vec(380, 300)], Vec(0, 0), StepRight, 10,
                              Playing, 0, {}, false);
      Classify(g.snake, StepLeft, g.food) == SelfHit
      && NextFrame(g, Frame({Up, Left}, false, true, draw))
         == g.(direction := StepLeft, screen := GameOver, previousKeys := {Up, Left})
      && NextFrame(NextFrame(g, Frame({Up}, false, false, draw)), Frame({Left}, false, true, draw))
         == g.(direction := StepLeft, screen := GameOver, previousKeys := {Left})
  {
    var body := [Vec(400, 300), Vec(380, 300)];
    assert Steer(StepRight, {Up, Left}) == StepLeft;
    assert Steer(Steer(StepRight, {Up}), {Left}) == StepLeft;
    assert body[1] == NewHead(body, StepLeft);
    assert Classify(body, StepLeft, Vec(0, 0)) == SelfHit;
  }

  /** The score, a 32-bit int in the game, never wraps: the snake fits on
      the field, so the score is at most 10 x (1200 - 1) = 11990. */
  lemma ScoreFitsInt32(g: GameView)
    requires Inv(g)
    ensures 0 <= g.score <= FoodReward * (Columns * Rows - 1) < 0x8000_0000
  {
    SnakeFitsField(g.snake);
  }
}
