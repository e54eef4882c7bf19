/** Integer tile cells (the z coordinate of Unity's Vector3Int is always 0 here) and the
    distances the chase code measures between them. */
module Cells {

  datatype Cell = Cell(x: int, y: int)

  function Abs(n: int): nat {
    if n < 0 then -n else n
  }

  function Min(a: int, b: int): int {
    if a <= b then a else b
  }

  function Max(a: int, b: int): int {
    if a >= b then a else b
  }

  /** |dx| + |dy|, the distance used for goal correction, replanning and the substitute search. */
  function Manhattan(a: Cell, b: Cell): nat {
    Abs(a.x - b.x) + Abs(a.y - b.y)
  }

  /** max(|dx|, |dy|): the number of 8-connected steps between two cells on an open grid. */
  function Chebyshev(a: Cell, b: Cell): nat {
    Max(Abs(a.x - b.x), Abs(a.y - b.y))
  }

  /** The cell offset from `c` by (dx, dy). */
  function Offset(c: Cell, dx: int, dy: int): Cell {
    Cell(c.x + dx, c.y + dy)
  }

  /** The eight neighbour offsets in the order the search visits them: four orthogonal, then four diagonal. */
  const Dirs8: seq<(int, int)> := [(1, 0), (-1, 0), (0, 1), (0, -1), (1, 1), (1, -1), (-1, 1), (-1, -1)]

  /** `a` and `b` are distinct and one king move apart. */
  predicate Adjacent(a: Cell, b: Cell) {
    a != b && Abs(a.x - b.x) <= 1 && Abs(a.y - b.y) <= 1
  }

  predicate IsDiagonal(a: Cell, b: Cell) {
    a.x != b.x && a.y != b.y
  }

  lemma Dirs8AreAdjacent(c: Cell, k: nat)
    requires k < |Dirs8|
    ensures Adjacent(c, Offset(c, Dirs8[k].0, Dirs8[k].1))
    ensures IsDiagonal(c, Offset(c, Dirs8[k].0, Dirs8[k].1)) <==> (Dirs8[k].0 != 0 && Dirs8[k].1 != 0)
  {
  }

  /** Every king move is one of the eight offsets. */
  lemma {:induction false} AdjacentIsADir(a: Cell, b: Cell)
    requires Adjacent(a, b)
    ensures exists k :: 0 <= k < |Dirs8| && b == Offset(a, Dirs8[k].0, Dirs8[k].1)
  {
    var dx, dy := b.x - a.x, b.y - a.y;
    var k := if dx == 1 && dy == 0 then 0
      else if dx == -1 && dy == 0 then 1
      else if dx == 0 && dy == 1 then 2
      else if dx == 0 && dy == -1 then 3
      else if dx == 1 && dy == 1 then 4
      else if dx == 1 && dy == -1 then 5
      else if dx == -1 && dy == 1 then 6
      else 7;
    assert b == Offset(a, Dirs8[k].0, Dirs8[k].1);
  }
}
