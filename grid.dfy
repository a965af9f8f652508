/**
 * Cell coordinates, wall directions and the four-wall cell record of the maze
 * grid, with the direction helpers of the generator (DirVector, InBounds,
 * GetDirectionIndex).
 */
module Grid {

  /** A grid coordinate (the source's Vector2Int). */
  datatype Pos = Pos(x: int, y: int)

  /** The start cell of both carvers and of the breadth-first search. */
  const Origin := Pos(0, 0)

  /** The parent sentinel (-1, -1) that InitGrid writes into every cell. */
  const NoParent := Pos(-1, -1)

  /** A wall index: 0 = up (+y), 1 = right (+x), 2 = down (-y), 3 = left (-x). */
  type Dir = d: int | 0 <= d < 4

  function Abs(n: int): nat
  {
    if n < 0 then -n else n
  }

  /** Grid (Manhattan) distance between two cells. */
  function Manhattan(a: Pos, b: Pos): nat
  {
    Abs(a.x - b.x) + Abs(a.y - b.y)
  }

  /** Two cells share a wall. */
  predicate Adjacent(a: Pos, b: Pos)
  {
    Manhattan(a, b) == 1
  }

  /** The unit step of a wall index; any other index gives the zero vector. */
  function DirVector(dir: int): (v: Pos)
    ensures 0 <= dir < 4 ==> Adjacent(Origin, v)
    ensures !(0 <= dir < 4) ==> v == Origin
    ensures dir == 0 || dir == 2 ==> v.x == 0
    ensures dir == 1 || dir == 3 ==> v.y == 0
  {
    if dir == 0 then Pos(0, 1)
    else if dir == 1 then Pos(1, 0)
    else if dir == 2 then Pos(0, -1)
    else if dir == 3 then Pos(-1, 0)
    else Pos(0, 0)
  }

  /** `p + DirVector(d)`. */
  function Step(p: Pos, d: int): Pos
  {
    Pos(p.x + DirVector(d).x, p.y + DirVector(d).y)
  }

  /** `(d + 2) % 4`, the wall on the other side of the same passage. */
  function Opposite(d: Dir): (o: Dir)
    ensures DirVector(o) == Pos(-DirVector(d).x, -DirVector(d).y)
    ensures o == (d + 2) % 4
    ensures o != d && (o + 2) % 4 == d
  {
    HalfTurn(d);
    HalfTurn(if d < 2 then d + 2 else d - 2);
    if d < 2 then d + 2 else d - 2
  }

  /** `(d + 2) % 4` without the remainder. */
  lemma HalfTurn(d: Dir)
    ensures (d + 2) % 4 == if d < 2 then d + 2 else d - 2
  {
    if d == 0 {
    } else if d == 1 {
    } else if d == 2 {
    } else {
    }
  }

  predicate InBounds(w: int, h: int, p: Pos)
  {
    0 <= p.x < w && 0 <= p.y < h
  }

  /**
   * The cell at column `x`, row `y`; AllCells builds its set with this
   * rather than the constructor, so that the comprehension's trigger is not
   * every position a proof mentions.
   */
  function CellAt(x: int, y: int): (p: Pos)
    ensures p.x == x && p.y == y
  {
    Pos(x, y)
  }

  /** Every cell of a `w × h` grid. */
  function AllCells(w: int, h: int): (cells: set<Pos>)
    ensures forall p :: p in cells <==> InBounds(w, h, p)
  {
    var all := set x, y | 0 <= x < w && 0 <= y < h :: CellAt(x, y);
    assert forall p: Pos :: InBounds(w, h, p) ==> p == CellAt(p.x, p.y) && p in all;
    all
  }

  /** The wall index leading from `a` to `b`, or -1 when they are not neighbours. */
  function GetDirectionIndex(a: Pos, b: Pos): (r: int)
    ensures -1 <= r < 4
    ensures r == -1 <==> !Adjacent(a, b)
  {
    var diff := Pos(b.x - a.x, b.y - a.y);
    if diff == Pos(0, 1) then 0
    else if diff == Pos(1, 0) then 1
    else if diff == Pos(0, -1) then 2
    else if diff == Pos(-1, 0) then 3
    else -1
  }

  /** A wall index found by GetDirectionIndex leads from `a` to `b`. */
  lemma DirectionStep(a: Pos, b: Pos)
    requires Adjacent(a, b)
    ensures Step(a, GetDirectionIndex(a, b)) == b
  {
  }

  /** GetDirectionIndex inverts DirVector on the four directions. */
  lemma DirectionOfStep(a: Pos, d: Dir)
    ensures GetDirectionIndex(a, Step(a, d)) == d
  {
  }

  /** Different directions lead to different cells. */
  lemma StepInjective(p: Pos, d: Dir, e: Dir)
    requires Step(p, d) == Step(p, e)
    ensures d == e
  {
  }

  /** The four wall flags of a cell (the source's `bool[] wall`). */
  datatype Cell = Cell(up: bool, right: bool, down: bool, left: bool)
  {
    /** `wall[d]`. */
    function Wall(d: Dir): bool
    {
      if d == 0 then up else if d == 1 then right else if d == 2 then down else left
    }

    /** `wall[d] = false`. */
    function Clear(d: Dir): (c: Cell)
      ensures !c.Wall(d)
      ensures forall e: Dir :: e != d ==> c.Wall(e) == Wall(e)
    {
      if d == 0 then this.(up := false)
      else if d == 1 then this.(right := false)
      else if d == 2 then this.(down := false)
      else this.(left := false)
    }

    /** The number of open sides. */
    function OpenCount(): nat
    {
      (if up then 0 else 1) + (if right then 0 else 1) + (if down then 0 else 1) + (if left then 0 else 1)
    }
  }

  /** A fully walled cell, as InitGrid leaves every cell. */
  const Closed := Cell(true, true, true, true)

  /**
   * A straight-through corridor cell: open on exactly two opposite sides
   * (up and down, or left and right) and walled on the other two.
   */
  predicate StraightCorridor(c: Cell)
  {
    || (!c.up && !c.down && c.left && c.right)
    || (!c.left && !c.right && c.up && c.down)
  }
}
