/** The play field: an 800 x 600 back buffer cut into square cells of
    SEGMENT_SIZE pixels. Every position the game stores is a whole number of
    pixels, so the framework's float vector becomes an integer pair. */
module Geometry {

  /** Edge length of one cell, in pixels. */
  const SegmentSize: int := 20
  /** The preferred back-buffer size the game sets in its constructor. */
  const ScreenWidth: int := 800
  const ScreenHeight: int := 600
  /** Number of columns and rows food can be placed on. */
  const Columns: int := ScreenWidth / SegmentSize
  const Rows: int := ScreenHeight / SegmentSize

  /** A position or a step, in pixels. */
  datatype Vec = Vec(x: int, y: int) {
    function Plus(d: Vec): Vec {
      Vec(x + d.x, y + d.y)
    }
  }

  /** The four moves of one cell. */
  const StepUp: Vec := Vec(0, -SegmentSize)
  const StepDown: Vec := Vec(0, SegmentSize)
  const StepLeft: Vec := Vec(-SegmentSize, 0)
  const StepRight: Vec := Vec(SegmentSize, 0)

  predicate IsAxisStep(d: Vec) {
    d == StepUp || d == StepDown || d == StepLeft || d == StepRight
  }

  function Reverse(d: Vec): Vec {
    Vec(-d.x, -d.y)
  }

  /** The negation of the wall test of the simulation step. */
  predicate InBounds(c: Vec) {
    0 <= c.x < ScreenWidth && 0 <= c.y < ScreenHeight
  }

  predicate OnGrid(c: Vec) {
    c.x % SegmentSize == 0 && c.y % SegmentSize == 0
  }

  /** A cell of the play field. */
  predicate IsCell(c: Vec) {
    InBounds(c) && OnGrid(c)
  }

  /** One axis step from a grid position lands on another grid position,
      never on the one it started from. */
  lemma StepStaysOnGrid(c: Vec, d: Vec)
    requires OnGrid(c) && IsAxisStep(d)
    ensures OnGrid(c.Plus(d)) && c.Plus(d) != c
  {
    if d == StepUp || d == StepDown {
      assert c.Plus(d).x == c.x;
    } else {
      assert c.Plus(d).y == c.y;
    }
  }

  /** The two draws of Random.Next that pick a food cell: a column in
      [0, Columns) and a row in [0, Rows). */
  datatype FoodDraw = FoodDraw(col: int, row: int) {
    predicate InRange() {
      0 <= col < Columns && 0 <= row < Rows
    }
  }

  /** The cell SpawnFood places the food on for a given draw. */
  function SpawnCell(draw: FoodDraw): (c: Vec)
    requires draw.InRange()
    ensures IsCell(c)
  {
    Vec(draw.col * SegmentSize, draw.row * SegmentSize)
  }

  /** Every cell of the play field is the result of exactly one draw, so a
      uniform draw gives a uniform cell (occupied or not). */
  lemma SpawnCellOnto(c: Vec)
    requires IsCell(c)
    ensures FoodDraw(c.x / SegmentSize, c.y / SegmentSize).InRange()
    ensures SpawnCell(FoodDraw(c.x / SegmentSize, c.y / SegmentSize)) == c
  {
    var col, row := c.x / SegmentSize, c.y / SegmentSize;
    assert c.x == col * SegmentSize + c.x % SegmentSize;
    assert c.y == row * SegmentSize + c.y % SegmentSize;
  }

  lemma SpawnCellInjective(a: FoodDraw, b: FoodDraw)
    requires a.InRange() && b.InRange()
    requires SpawnCell(a) == SpawnCell(b)
    ensures a == b
  {
    assert a.col * SegmentSize == b.col * SegmentSize;
    assert a.row * SegmentSize == b.row * SegmentSize;
  }

  /** The position of a cell in row-major order, from 0 to Columns * Rows - 1. */
  function CellIndex(c: Vec): int {
    (c.y / SegmentSize) * Columns + c.x / SegmentSize
  }

  /** A cell's column and row, and the cell rebuilt from them. */
  lemma CellCoordinates(c: Vec)
    requires IsCell(c)
    ensures 0 <= c.x / SegmentSize < Columns && 0 <= c.y / SegmentSize < Rows
    ensures c == Vec((c.x / SegmentSize) * SegmentSize, (c.y / SegmentSize) * SegmentSize)
  {
  }

  /** Row-major numbering of (column, row) pairs is one to one onto
      [0, Columns * Rows). */
  lemma GridNumbering(ca: int, ra: int, cb: int, rb: int)
    requires 0 <= ca < Columns && 0 <= ra < Rows && 0 <= cb < Columns && 0 <= rb < Rows
    ensures 0 <= ra * Columns + ca < Columns * Rows
    ensures ra * Columns + ca == rb * Columns + cb ==> ca == cb && ra == rb
  {
    assert Columns == 40 && Rows == 30;
    if ra < rb {
      assert ra * 40 + ca < (ra + 1) * 40 <= rb * 40;
    } else if rb < ra {
      assert rb * 40 + cb < (rb + 1) * 40 <= ra * 40;
    }
  }

  /** Numbering the cells row by row gives distinct cells distinct numbers
      inside [0, Columns * Rows). */
  lemma CellIndexInRange(a: Vec, b: Vec)
    requires IsCell(a) && IsCell(b)
    ensures 0 <= CellIndex(a) < Columns * Rows
    ensures a != b ==> CellIndex(a) != CellIndex(b)
  {
    CellCoordinates(a);
    CellCoordinates(b);
    GridNumbering(a.x / SegmentSize, a.y / SegmentSize, b.x / SegmentSize, b.y / SegmentSize);
  }

  /** A set of numbers drawn from [0, n) has at most n members. */
  lemma {:induction false} BoundedSetSize(s: set<int>, n: nat)
    requires forall x :: x in s ==> 0 <= x < n
    ensures |s| <= n
    decreases n
  {
    if n == 0 {
      assert forall x :: x !in s;
      assert s == {};
    } else {
      BoundedSetSize(s - {n - 1}, n - 1);
    }
  }
}
