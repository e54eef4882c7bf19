/** The static walkability grid the chasers search: a dense boolean array over the
    tilemap's cell bounds, filled once when the grid is built. */
module Grid {
  import opened Cells

  /** Unity's BoundsInt restricted to the x/y plane: origin (xMin, yMin) and size. */
  datatype Bounds = Bounds(xMin: int, yMin: int, sizeX: nat, sizeY: nat) {
    predicate Contains(c: Cell) {
      xMin <= c.x < xMin + sizeX && yMin <= c.y < yMin + sizeY
    }
  }

  class PathGrid {
    const bounds: Bounds
    const walkable: array2<bool>
    /** The walkable cells, the abstract view of the array. */
    ghost const cells: set<Cell>

    ghost predicate Valid()
      reads this, walkable
    {
      walkable.Length0 == bounds.sizeX && walkable.Length1 == bounds.sizeY
      && forall c :: c in cells <==> bounds.Contains(c) && walkable[c.x - bounds.xMin, c.y - bounds.yMin]
    }

    /** Bounds-checked lookup; every cell outside the bounds is blocked. */
    predicate IsWalkable(c: Cell)
      requires Valid()
      reads this, walkable
      ensures IsWalkable(c) <==> c in cells
      ensures IsWalkable(c) ==> bounds.Contains(c)
      ensures bounds.Contains(c) ==> (IsWalkable(c) <==> walkable[c.x - bounds.xMin, c.y - bounds.yMin])
    {
      var ix := c.x - bounds.xMin;
      var iy := c.y - bounds.yMin;
      if ix < 0 || iy < 0 || ix >= bounds.sizeX || iy >= bounds.sizeY then false
      else walkable[ix, iy]
    }

    /** Builds the grid over `cellBounds`. The tilemap query `HasTile` and the physics probe
        (an OverlapBox of 98% of the cell size at the cell centre against the block mask)
        are the two given predicates `hasTile` and `probeBlocked`. A cell is walkable exactly
        when it has a ground tile and the probe finds nothing. */
    constructor (cellBounds: Bounds, hasTile: Cell -> bool, probeBlocked: Cell -> bool)
      ensures Valid() && bounds == cellBounds && fresh(walkable)
      ensures forall c :: bounds.Contains(c) ==> (IsWalkable(c) <==> hasTile(c) && !probeBlocked(c))
      ensures forall c :: bounds.Contains(c) && !hasTile(c) ==> !IsWalkable(c)
    {
      bounds := cellBounds;
      walkable := new bool[cellBounds.sizeX, cellBounds.sizeY];
      cells := set x: int, y: int | cellBounds.xMin <= x < cellBounds.xMin + cellBounds.sizeX
                                    && cellBounds.yMin <= y < cellBounds.yMin + cellBounds.sizeY
                                    && hasTile(Cell(x, y)) && !probeBlocked(Cell(x, y)) :: Cell(x, y);
      new;
      Build(hasTile, probeBlocked);
      forall c
        ensures c in cells <==> bounds.Contains(c) && walkable[c.x - bounds.xMin, c.y - bounds.yMin]
      {
        if bounds.Contains(c) && hasTile(c) && !probeBlocked(c) {
          assert c == Cell(c.x, c.y);
        }
      }
    }

    /** Fills every entry of the array once, row by row. */
    method Build(hasTile: Cell -> bool, probeBlocked: Cell -> bool)
      requires walkable.Length0 == bounds.sizeX && walkable.Length1 == bounds.sizeY
      modifies walkable
      ensures forall c :: bounds.Contains(c) ==>
        (walkable[c.x - bounds.xMin, c.y - bounds.yMin] <==> hasTile(c) && !probeBlocked(c))
    {
      var iy := 0;
      while iy < bounds.sizeY
        invariant 0 <= iy <= bounds.sizeY
        invariant forall i, j :: 0 <= i < bounds.sizeX && 0 <= j < iy ==>
          walkable[i, j] == (hasTile(Cell(i + bounds.xMin, j + bounds.yMin)) && !probeBlocked(Cell(i + bounds.xMin, j + bounds.yMin)))
      {
        var ix := 0;
        while ix < bounds.sizeX
          invariant 0 <= ix <= bounds.sizeX
          invariant forall i, j :: 0 <= i < bounds.sizeX && 0 <= j < iy ==>
            walkable[i, j] == (hasTile(Cell(i + bounds.xMin, j + bounds.yMin)) && !probeBlocked(Cell(i + bounds.xMin, j + bounds.yMin)))
          invariant forall i :: 0 <= i < ix ==>
            walkable[i, iy] == (hasTile(Cell(i + bounds.xMin, iy + bounds.yMin)) && !probeBlocked(Cell(i + bounds.xMin, iy + bounds.yMin)))
        {
          var cell := Cell(ix + bounds.xMin, iy + bounds.yMin);
          if !hasTile(cell) {
            walkable[ix, iy] := false;
          } else {
            walkable[ix, iy] := !probeBlocked(cell);
          }
          ix := ix + 1;
        }
        iy := iy + 1;
      }
      forall c | bounds.Contains(c)
        ensures walkable[c.x - bounds.xMin, c.y - bounds.yMin] <==> hasTile(c) && !probeBlocked(c)
      {
        assert c == Cell((c.x - bounds.xMin) + bounds.xMin, (c.y - bounds.yMin) + bounds.yMin);
      }
    }
  }
}
