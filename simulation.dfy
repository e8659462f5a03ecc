/** The snake itself and the per-tick decision of the simulation step:
    where the head goes, whether it hits a wall or the body, and whether it
    lands on the food. */
module Simulation {
  import opened Geometry

  /** Points added to the score for each food eaten. */
  const FoodReward: int := 10
  /** The single cell a new round's snake occupies. */
  const StartCell: Vec := Vec(400, 300)

  predicate Distinct(body: seq<Vec>) {
    forall i, j :: 0 <= i < j < |body| ==> body[i] != body[j]
  }

  /** A snake while a round is on: at least one segment, no cell twice, every
      segment on a cell of the play field. The head is body[0]. */
  predicate WellFormed(body: seq<Vec>) {
    |body| >= 1 && Distinct(body) && forall i :: 0 <= i < |body| ==> IsCell(body[i])
  }

  /** The cell the head moves to. */
  function NewHead(body: seq<Vec>, dir: Vec): Vec
    requires |body| >= 1
  {
    body[0].Plus(dir)
  }

  /** The self-collision test compares the new head with every segment but
      the head, the tail included. */
  predicate HitsBody(body: seq<Vec>, cell: Vec) {
    exists i :: 1 <= i < |body| && body[i] == cell
  }

  /** The index loop of the self-collision test, with its early exit. */
  method SelfCollides(body: seq<Vec>, newHead: Vec) returns (hit: bool)
    ensures hit <==> HitsBody(body, newHead)
  {
    var i := 1;
    while i < |body|
      invariant 1 <= i
      invariant forall j :: 1 <= j < i && j < |body| ==> body[j] != newHead
    {
      if newHead == body[i] {
        return true;
      }
      i := i + 1;
    }
    return false;
  }

  /** Exactly one of these happens on a move tick. */
  datatype Outcome = WallHit | SelfHit | Ate | Moved

  /** Which branch the move tick takes, in the order the checks run. */
  function Classify(body: seq<Vec>, dir: Vec, food: Vec): (r: Outcome)
    requires |body| >= 1
    ensures r == WallHit <==> !InBounds(NewHead(body, dir))
    ensures r == Ate || r == Moved <==> InBounds(NewHead(body, dir)) && !HitsBody(body, NewHead(body, dir))
    ensures r == Ate ==> NewHead(body, dir) == food
    ensures r == Moved ==> NewHead(body, dir) != food
  {
    var h := NewHead(body, dir);
    if !InBounds(h) then WallHit
    else if HitsBody(body, h) then SelfHit
    else if h == food then Ate
    else Moved
  }

  /** Starting the check at index 1 loses nothing: the head can never move
      onto itself, so a self hit is exactly a move onto any occupied cell,
      the tail that is about to move away included. */
  lemma SelfHitIsOccupied(body: seq<Vec>, dir: Vec, food: Vec)
    requires WellFormed(body) && IsAxisStep(dir)
    requires InBounds(NewHead(body, dir))
    ensures Classify(body, dir, food) == SelfHit <==> NewHead(body, dir) in body
  {
    StepStaysOnGrid(body[0], dir);
    var h := NewHead(body, dir);
    if h in body {
      var i :| 0 <= i < |body| && body[i] == h;
      assert i != 0;
      assert HitsBody(body, h);
    }
  }

  /** The head at the rightmost column moving right leaves the field. */
  lemma RightWallHit(body: seq<Vec>, food: Vec)
    requires |body| >= 1 && body[0].x == ScreenWidth - SegmentSize
    ensures Classify(body, StepRight, food) == WallHit
  {
  }

  /** Putting a fresh, free cell in front of a well-formed snake gives a
      well-formed snake. */
  lemma PrependFreeCell(h: Vec, rest: seq<Vec>)
    requires IsCell(h) && h !in rest
    requires Distinct(rest) && forall i :: 0 <= i < |rest| ==> IsCell(rest[i])
    ensures WellFormed([h] + rest)
  {
    var r := [h] + rest;
    forall i, j | 0 <= i < j < |r| ensures r[i] != r[j] {
      assert r[j] == rest[j - 1];
      if i > 0 {
        assert r[i] == rest[i - 1];
      }
    }
  }

  /** A cell that passed both collision checks is a free cell of the field. */
  lemma NewHeadIsFree(body: seq<Vec>, dir: Vec, food: Vec)
    requires WellFormed(body) && IsAxisStep(dir)
    requires Classify(body, dir, food) in {Ate, Moved}
    ensures IsCell(NewHead(body, dir)) && NewHead(body, dir) !in body
  {
    StepStaysOnGrid(body[0], dir);
    var h := NewHead(body, dir);
    assert forall i :: 1 <= i < |body| ==> body[i] != h;
  }

  /** A normal move (prepend the head, drop the tail) keeps the snake
      well-formed and its length unchanged. */
  lemma MoveKeepsWellFormed(body: seq<Vec>, dir: Vec, food: Vec)
    requires WellFormed(body) && IsAxisStep(dir)
    requires Classify(body, dir, food) == Moved
    ensures WellFormed([NewHead(body, dir)] + body[..|body| - 1])
    ensures |[NewHead(body, dir)] + body[..|body| - 1]| == |body|
  {
    NewHeadIsFree(body, dir, food);
    var rest := body[..|body| - 1];
    assert forall c :: c in rest ==> c in body;
    PrependFreeCell(NewHead(body, dir), rest);
  }

  /** Eating (prepend the head, keep the tail) keeps the snake well-formed
      and makes it one segment longer. */
  lemma EatKeepsWellFormed(body: seq<Vec>, dir: Vec, food: Vec)
    requires WellFormed(body) && IsAxisStep(dir)
    requires Classify(body, dir, food) == Ate
    ensures WellFormed([NewHead(body, dir)] + body)
    ensures |[NewHead(body, dir)] + body| == |body| + 1
  {
    NewHeadIsFree(body, dir, food);
    PrependFreeCell(NewHead(body, dir), body);
  }

  /** The row-major numbers of the snake's cells. */
  function Indices(body: seq<Vec>): set<int> {
    set i | 0 <= i < |body| :: CellIndex(body[i])
  }

  /** The numbers of a body are its head's number and its tail's numbers. */
  lemma IndicesCons(body: seq<Vec>)
    requires body != []
    ensures Indices(body) == {CellIndex(body[0])} + Indices(body[1..])
  {
    var tail := body[1..];
    forall x | x in Indices(body) ensures x in {CellIndex(body[0])} + Indices(tail) {
      var i :| 0 <= i < |body| && CellIndex(body[i]) == x;
      if i > 0 {
        assert body[i] == tail[i - 1];
      }
    }
    forall x | x in Indices(tail) ensures x in Indices(body) {
      var i :| 0 <= i < |tail| && CellIndex(tail[i]) == x;
      assert tail[i] == body[i + 1];
    }
  }

  /** A field cell not in the body has a number none of the body's cells has. */
  lemma FreshIndex(c: Vec, body: seq<Vec>)
    requires IsCell(c) && forall i :: 0 <= i < |body| ==> IsCell(body[i]) && body[i] != c
    ensures CellIndex(c) !in Indices(body)
    ensures 0 <= CellIndex(c) < Columns * Rows
  {
    CellIndexInRange(c, c);
    forall i | 0 <= i < |body|
      ensures CellIndex(body[i]) != CellIndex(c)
    {
      CellIndexInRange(body[i], c);
    }
  }

  /** Distinct cells of the field have as many distinct numbers, all below
      Columns * Rows. */
  lemma {:induction false} IndicesCount(body: seq<Vec>)
    requires Distinct(body) && forall i :: 0 <= i < |body| ==> IsCell(body[i])
    ensures |Indices(body)| == |body|
    ensures forall x :: x in Indices(body) ==> 0 <= x < Columns * Rows
  {
    if body != [] {
      var tail := body[1..];
      assert forall i :: 0 <= i < |tail| ==> tail[i] == body[i + 1];
      IndicesCount(tail);
      FreshIndex(body[0], tail);
      IndicesCons(body);
    }
  }

  /** A well-formed snake fits on the field: at most Columns * Rows
      (1200) segments. */
  lemma SnakeFitsField(body: seq<Vec>)
    requires WellFormed(body)
    ensures |body| <= Columns * Rows
  {
    IndicesCount(body);
    BoundedSetSize(Indices(body), Columns * Rows);
  }
}
