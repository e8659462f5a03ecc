/** Keyboard input as the game reads it: the set of keys held in this frame
    and in the previous one, the steering rules of the play screen and the
    menu navigation of the start and game-over screens. */
module Controls {
  import opened Geometry

  datatype Key = Up | Down | Left | Right | Enter | Escape

  const Arrows: set<Key> := {Up, Down, Left, Right}

  /** The step an arrow key asks for. */
  function ArrowStep(k: Key): Vec
    requires k in Arrows
  {
    match k
    case Up => StepUp
    case Down => StepDown
    case Left => StepLeft
    case Right => StepRight
  }

  /** A key-down edge: held in this frame and released in the previous one. */
  predicate Pressed(k: Key, current: set<Key>, previous: set<Key>) {
    k in current && k !in previous
  }

  /** The direction after the play screen's input handling: Up, Down, Left
      and Right are tried in that order, each refused when the direction
      already updated by the earlier tests points the opposite way. */
  function Steer(dir: Vec, held: set<Key>): (r: Vec)
    ensures IsAxisStep(dir) ==> IsAxisStep(r)
    ensures (forall k :: k in held ==> k !in Arrows) ==> r == dir
  {
    var afterUp := if Up in held && dir.y != SegmentSize then StepUp else dir;
    var afterDown := if Down in held && afterUp.y != -SegmentSize then StepDown else afterUp;
    var afterLeft := if Left in held && afterDown.x != SegmentSize then StepLeft else afterDown;
    if Right in held && afterLeft.x != -SegmentSize then StepRight else afterLeft
  }

  /** With one arrow key held, the snake turns to that key's step unless it
      is the exact reverse of the current direction, which is refused. */
  lemma SteerOneArrow(dir: Vec, held: set<Key>, k: Key)
    requires IsAxisStep(dir)
    requires k in held && k in Arrows
    requires forall j :: j in held && j in Arrows ==> j == k
    ensures Steer(dir, held) == if ArrowStep(k) == Reverse(dir) then dir else ArrowStep(k)
    ensures Steer(dir, held) != Reverse(dir)
  {
    assert Up in held <==> k == Up;
    assert Down in held <==> k == Down;
    assert Left in held <==> k == Left;
    assert Right in held <==> k == Right;
  }

  /** Arrow keys on one axis only (one key, or Up with Down, or Left with
      Right) never turn the snake round: a turn-round needs keys on both
      axes in the same frame. */
  lemma SteerOneAxisNeverReverses(dir: Vec, held: set<Key>)
    requires IsAxisStep(dir)
    requires (forall k :: k in held && k in Arrows ==> k == Up || k == Down)
          || (forall k :: k in held && k in Arrows ==> k == Left || k == Right)
    ensures Steer(dir, held) != Reverse(dir)
  {
  }

  /** The tests run against the already-updated direction, not against the
      step last moved, so the snake can be turned round before it moves
      again: heading right with Up and Left held in one frame (Up turns it
      up, then Left turns it left), or Up in one frame and Left in the next. */
  lemma SteerCanReverseBeforeMoving()
    ensures Steer(StepRight, {Up, Left}) == Reverse(StepRight)
    ensures Steer(Steer(StepRight, {Up}), {Left}) == Reverse(StepRight)
  {
  }

  /** The labels of the menu shown on the start and game-over screens. */
  const MenuOptions: seq<string> := ["Start Game", "Exit"]

  /** The highlighted menu entry after one frame of navigation: Down moves
      one entry forward, Up one back, both wrapping round the list. */
  function NextSelection(selected: int, current: set<Key>, previous: set<Key>): (r: int)
    requires 0 <= selected < |MenuOptions|
    ensures 0 <= r < |MenuOptions|
    ensures Pressed(Down, current, previous) == Pressed(Up, current, previous) ==> r == selected
    ensures Pressed(Down, current, previous) && !Pressed(Up, current, previous) ==>
              r == (selected + 1) % |MenuOptions|
    ensures Pressed(Up, current, previous) && !Pressed(Down, current, previous) ==>
              (r + 1) % |MenuOptions| == selected
  {
    var n := |MenuOptions|;
    var afterDown := if Pressed(Down, current, previous) then (selected + 1) % n else selected;
    if Pressed(Up, current, previous) then (afterDown - 1 + n) % n else afterDown
  }

  /** Holding a key does not repeat it: a key already held in the previous
      frame acts as if it were released now, both for the navigation keys
      and for Enter. */
  lemma HeldKeysDoNotRepeat(selected: int, current: set<Key>, previous: set<Key>, k: Key)
    requires 0 <= selected < |MenuOptions|
    requires k in previous
    ensures NextSelection(selected, current, previous) == NextSelection(selected, current - {k}, previous)
    ensures MenuChoice(selected, current, previous) == MenuChoice(selected, current - {k}, previous)
  {
  }

  /** Down from the last entry wraps to the first; Up from the first wraps
      to the last. */
  lemma MenuWraps()
    ensures NextSelection(1, {Down}, {}) == 0
    ensures NextSelection(0, {Up}, {}) == 1
  {
  }

  datatype MenuAction = Stay | StartGame | ExitGame

  /** What Enter does on the highlighted entry. */
  function MenuChoice(selection: int, current: set<Key>, previous: set<Key>): (a: MenuAction)
    ensures a != Stay <==> Pressed(Enter, current, previous) && 0 <= selection < |MenuOptions|
    ensures a == StartGame ==> MenuOptions[selection] == "Start Game"
    ensures a == ExitGame ==> MenuOptions[selection] == "Exit"
  {
    if Pressed(Enter, current, previous) then
      if selection == 0 then StartGame
      else if selection == 1 then ExitGame
      else Stay
    else Stay
  }
}
