/** The game object: the fields the game logic updates in place and its
    per-frame methods, each proved to follow the functions of StateMachine. */
module Game {
  import opened Geometry
  import opened Controls
  import opened Simulation
  import opened StateMachine

  class SnakeGame {
    var snake: seq<Vec>
    var food: Vec
    var direction: Vec
    var score: int
    var currentState: Screen
    var selectedMenuOption: int
    var previousKeys: set<Key>
    /** Set where the game calls the framework's Exit(). */
    var exitRequested: bool

    function View(): GameView
      reads this
    {
      GameView(snake, food, direction, score, currentState, selectedMenuOption,
               previousKeys, exitRequested)
    }

    ghost predicate Valid()
      reads this
    {
      Inv(View())
    }

    /** Construction followed by Initialize(): the start menu, with a round
        already set up behind it. */
    constructor (draw: FoodDraw)
      requires draw.InRange()
      ensures Valid() && View() == Initial(draw)
    {
      snake := [];
      food := Vec(0, 0);
      direction := Vec(0, 0);
      score := 0;
      currentState := StartMenu;
      selectedMenuOption := 0;
      previousKeys := {};
      exitRequested := false;
      new;
      InitializeGame(draw);
    }

    method InitializeGame(draw: FoodDraw)
      requires draw.InRange()
      modifies this
      ensures View() == ResetRound(old(View()), draw)
    {
      snake := [StartCell];
      direction := StepRight;
      score := 0;
      SpawnFood(draw);
    }

    method SpawnFood(draw: FoodDraw)
      requires draw.InRange()
      modifies this`food
      ensures food == SpawnCell(draw) && IsCell(food)
    {
      food := Vec(draw.col * SegmentSize, draw.row * SegmentSize);
    }

    /** One frame of the framework's game loop. */
    method Update(frame: Frame)
      requires Valid() && frame.draw.InRange()
      modifies this
      ensures Valid()
      ensures View() == NextFrame(old(View()), frame)
    {
      NextFrameKeepsInv(View(), frame);
      if frame.backPressed || Escape in frame.keys {
        exitRequested := true;
      }
      match currentState {
        case StartMenu =>
          UpdateStartMenu(frame.keys, frame.draw);
        case Playing =>
          UpdateGame(frame.keys, frame.moveDue, frame.draw);
        case GameOver =>
          UpdateStartMenu(frame.keys, frame.draw);
      }
      previousKeys := frame.keys;
    }

    /** Menu navigation and selection; the game-over screen uses it too. */
    method UpdateStartMenu(current: set<Key>, draw: FoodDraw)
      requires 0 <= selectedMenuOption < |MenuOptions| && draw.InRange()
      modifies this
      ensures View() == MenuStep(old(View()), current, draw)
    {
      if Down in current && Down !in previousKeys {
        selectedMenuOption := (selectedMenuOption + 1) % |MenuOptions|;
      }
      if Up in current && Up !in previousKeys {
        selectedMenuOption := (selectedMenuOption - 1 + |MenuOptions|) % |MenuOptions|;
      }
      if Enter in current && Enter !in previousKeys {
        if selectedMenuOption == 0 {
          currentState := Playing;
          InitializeGame(draw);
        } else if selectedMenuOption == 1 {
          exitRequested := true;
        }
      }
    }

    /** Steering, then the move tick when the timer says a move is due. */
    method UpdateGame(held: set<Key>, moveDue: bool, draw: FoodDraw)
      requires |snake| >= 1 && draw.InRange()
      modifies this
      ensures View() == PlayStep(old(View()), held, moveDue, draw)
    {
      ChangeDirection(held);
      if moveDue {
        MoveTick(draw);
      }
    }

    /** The input handling of the play screen, run every frame. */
    method ChangeDirection(held: set<Key>)
      modifies this`direction
      ensures direction == Steer(old(direction), held)
    {
      if Up in held && direction.y != SegmentSize {
        direction := StepUp;
      }
      if Down in held && direction.y != -SegmentSize {
        direction := StepDown;
      }
      if Left in held && direction.x != SegmentSize {
        direction := StepLeft;
      }
      if Right in held && direction.x != -SegmentSize {
        direction := StepRight;
      }
    }

    /** One move: the wall check and the self-collision check, each ending
        the round before anything changes, then grow or shift. */
    method MoveTick(draw: FoodDraw)
      requires |snake| >= 1 && draw.InRange()
      modifies this
      ensures View() == Tick(old(View()), draw)
    {
      var newHead := snake[0].Plus(direction);

      if newHead.x < 0 || newHead.x >= ScreenWidth || newHead.y < 0 || newHead.y >= ScreenHeight {
        currentState := GameOver;
        return;
      }

      var hit := SelfCollides(snake, newHead);
      if hit {
        currentState := GameOver;
        return;
      }

      ghost var body := snake;
      snake := [newHead] + snake;

      if newHead == food {
        score := score + FoodReward;
        SpawnFood(draw);
      } else {
        snake := snake[..|snake| - 1];
        assert snake == [newHead] + body[..|body| - 1];
      }
    }
  }
}
