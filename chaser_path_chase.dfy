/** The per-chaser path follower: it corrects the goal cell onto the walkable grid, decides
    when to replan, asks the A* search for a path, advances along the waypoints and, in forced
    mode, looks for a substitute goal it can reach. Unity's world-to-cell conversions, the
    physics of the fallback move and the distance test against the next waypoint are inputs:
    each tick receives the chaser's cell, the target's cell and whether the next waypoint has
    been reached. The float repath timer counts fixed-update ticks. */
module ChaserChase {
  import opened Wrappers
  import opened Cells
  import opened Grid
  import opened AStarSearch

  /** Serialized defaults of the component. */
  const MaxExpand := 2500
  const RepathCellThreshold := 2
  const GoalFixRadius := 4
  const ForcedSearchRadius := 16
  const ForcedSearchSamples := 120
  /** 0.35 s of 0.02 s fixed steps: the timer, decremented once per tick, first reaches zero
      or below on the 18th tick. */
  const RepathTicks := 18
  /** C#'s int.MaxValue, the "nothing found yet" distance. */
  const IntMax := 0x7fff_ffff

  /** What the tick asks of the enemy's mover: nothing, stop, the physics fallback move (not
      modelled), or steer towards a waypoint cell. */
  datatype Intent = Hold | Stop | Fallback | Steer(toward: Cell)

  /** `c` lies in the square of the given radius around `center`. */
  predicate InSquare(center: Cell, c: Cell, radius: int) {
    Abs(c.x - center.x) <= radius && Abs(c.y - center.y) <= radius
  }

  /** Row-major scan order: rows by ascending y, then ascending x. */
  predicate ScanBefore(a: Cell, b: Cell) {
    a.y < b.y || (a.y == b.y && a.x < b.x)
  }

  /** Cells of the goal-fix square of radius `radius` that the scan visits before offset (x, y). */
  predicate SeenInSquare(center: Cell, radius: int, c: Cell, y: int, x: int) {
    InSquare(center, c, radius)
    && (c.y - center.y < y || (c.y - center.y == y && c.x - center.x < x))
  }

  /** The candidates of row y of the diamond ring of radius r around t: +x first, then -x
      unless the two coincide. */
  function RowCells(t: Cell, r: int, y: int): seq<Cell> {
    var x1 := r - Abs(y);
    [Cell(t.x + x1, t.y + y)] + (if x1 != 0 then [Cell(t.x - x1, t.y + y)] else [])
  }

  /** Rows y..r of the ring of radius r. */
  function RingFrom(t: Cell, r: int, y: int): seq<Cell>
    decreases r - y + 1
  {
    if y > r then [] else RowCells(t, r, y) + RingFrom(t, r, y + 1)
  }

  /** Rings r..R, each from its row -r. */
  function RingsFrom(t: Cell, r: int, R: int): seq<Cell>
    decreases R - r + 1
  {
    if r > R then [] else RingFrom(t, r, -r) + RingsFrom(t, r + 1, R)
  }

  /** All candidates of the substitute search out to radius R, in the order it tries them. */
  function ScanOrder(t: Cell, R: int): seq<Cell> {
    RingsFrom(t, 1, R)
  }

  /** How many candidates row y of the ring of radius r holds: two, or one where x = 0. */
  function RowSize(r: int, y: int): int {
    if r - Abs(y) != 0 then 2 else 1
  }

  /** How many candidates the substitute search has tried when it stops, starting at row y
      of ring r with n tried so far: the sample cap is tested after each whole row, so the
      row on which the count reaches `samples` is finished first. */
  function ScannedFrom(R: int, samples: int, r: int, y: int, n: int): int
    decreases R - r + 1, r - y + 1
  {
    if r > R then n
    else if y > r then ScannedFrom(R, samples, r + 1, -(r + 1), n)
    else
      var m := n + RowSize(r, y);
      if m >= samples then m else ScannedFrom(R, samples, r, y + 1, m)
  }

  /** How many candidates a whole substitute search tries. */
  function ScanCount(R: int, samples: int): int {
    ScannedFrom(R, samples, 1, -1, 0)
  }

  /** Trying row y of ring r, with n tried before it and m after: the search stops there when
      m reaches the cap, and goes on to the next row otherwise. */
  lemma RowCount(t: Cell, R: int, samples: int, r: int, y: int, n: int, m: int)
    requires y <= r <= R && m == n + |RowCells(t, r, y)|
    ensures m >= samples ==> ScannedFrom(R, samples, r, y, n) == m
    ensures m < samples ==> ScannedFrom(R, samples, r, y, n) == ScannedFrom(R, samples, r, y + 1, m)
  {
    assert |RowCells(t, r, y)| == RowSize(r, y);
  }

  /** After the last row of ring r the search goes on with ring r + 1, and after ring R it stops. */
  lemma RingCount(R: int, samples: int, r: int, n: int)
    ensures r <= R ==> ScannedFrom(R, samples, r, r + 1, n) == ScannedFrom(R, samples, r + 1, -(r + 1), n)
    ensures r > R ==> ScannedFrom(R, samples, r, -r, n) == n
  {
  }

  /** Rows y..r of ring r hold 2(r - y) + 1 cells: two per row, one on the last. */
  lemma {:induction false} RingFromLength(t: Cell, r: int, y: int)
    requires -r < y <= r
    ensures |RingFrom(t, r, y)| == 2 * (r - y) + 1
    decreases r - y
  {
    if y < r {
      RingFromLength(t, r, y + 1);
    }
  }

  /** A ring of radius r >= 1 holds 4r cells. */
  lemma RingLength(t: Cell, r: int)
    requires 1 <= r
    ensures |RingFrom(t, r, -r)| == 4 * r
  {
    RingFromLength(t, r, -r + 1);
  }

  /** When the rest of ring r keeps the count below the cap, the search runs through it. */
  lemma {:induction false} RingSkip(t: Cell, R: int, samples: int, r: int, y: int, n: int)
    requires r <= R && -r <= y && n + |RingFrom(t, r, y)| < samples
    ensures ScannedFrom(R, samples, r, y, n) == ScannedFrom(R, samples, r + 1, -(r + 1), n + |RingFrom(t, r, y)|)
    decreases r - y + 1
  {
    if y <= r {
      assert |RowCells(t, r, y)| == RowSize(r, y);
      RingSkip(t, R, samples, r, y + 1, n + RowSize(r, y));
    }
  }

  /** With radius 16 and a cap of 120 the search always tries 121 candidates: rings 1..7 hold
      112, and ring 8 passes 120 on its row y = -4. */
  lemma ScanCountDefault(t: Cell)
    ensures ScanCount(ForcedSearchRadius, ForcedSearchSamples) == 121
  {
    var R, S := ForcedSearchRadius, ForcedSearchSamples;
    var n := 0;
    var r := 1;
    while r <= 7
      invariant 1 <= r <= 8 && n == 2 * r * (r - 1)
      invariant ScanCount(R, S) == ScannedFrom(R, S, r, -r, n)
    {
      RingLength(t, r);
      RingSkip(t, R, S, r, -r, n);
      n, r := n + 4 * r, r + 1;
    }
    RingEightStop();
  }

  /** Ring 8 from 112 tried: rows -8..-5 bring the count to 119, and row -4 to 121. */
  lemma RingEightStop()
    ensures ScannedFrom(ForcedSearchRadius, ForcedSearchSamples, 8, -8, 112) == 121
  {
    var R, S := ForcedSearchRadius, ForcedSearchSamples;
    assert ScannedFrom(R, S, 8, -8, 112) == ScannedFrom(R, S, 8, -7, 113);
    assert ScannedFrom(R, S, 8, -7, 113) == ScannedFrom(R, S, 8, -6, 115);
    assert ScannedFrom(R, S, 8, -6, 115) == ScannedFrom(R, S, 8, -5, 117);
    assert ScannedFrom(R, S, 8, -5, 117) == ScannedFrom(R, S, 8, -4, 119);
  }

  /** Every candidate of row y of ring r lies at Manhattan distance exactly r. */
  lemma {:induction false} RingFromDistance(t: Cell, r: int, y: int)
    requires -r <= y
    ensures forall i :: 0 <= i < |RingFrom(t, r, y)| ==> Manhattan(t, RingFrom(t, r, y)[i]) == r
    decreases r - y + 1
  {
    if y <= r {
      RingFromDistance(t, r, y + 1);
      var row := RowCells(t, r, y);
      var rest := RingFrom(t, r, y + 1);
      forall i | 0 <= i < |row + rest|
        ensures Manhattan(t, (row + rest)[i]) == r
      {
        if i >= |row| {
          assert (row + rest)[i] == rest[i - |row|];
        }
      }
    }
  }

  /** Rings r..R list their cells in non-decreasing distance, each between r and R. */
  lemma {:induction false} RingsFromDistance(t: Cell, r: int, R: int)
    requires 1 <= r
    ensures forall i :: 0 <= i < |RingsFrom(t, r, R)| ==> r <= Manhattan(t, RingsFrom(t, r, R)[i]) <= R
    ensures forall i, j :: 0 <= i <= j < |RingsFrom(t, r, R)| ==>
              Manhattan(t, RingsFrom(t, r, R)[i]) <= Manhattan(t, RingsFrom(t, r, R)[j])
    decreases R - r + 1
  {
    if r <= R {
      RingFromDistance(t, r, -r);
      RingsFromDistance(t, r + 1, R);
      var ring := RingFrom(t, r, -r);
      var rest := RingsFrom(t, r + 1, R);
      assert RingsFrom(t, r, R) == ring + rest;
      forall i | 0 <= i < |ring + rest|
        ensures (i < |ring| ==> (ring + rest)[i] == ring[i]) && (i >= |ring| ==> (ring + rest)[i] == rest[i - |ring|])
      {
      }
    }
  }

  /** The substitute search only tries cells at distance 1 to the search radius, nearest rings
      first. */
  lemma ScanOrderDistance(t: Cell, R: int)
    ensures forall i :: 0 <= i < |ScanOrder(t, R)| ==> 1 <= Manhattan(t, ScanOrder(t, R)[i]) <= R
    ensures forall i, j :: 0 <= i <= j < |ScanOrder(t, R)| ==> Manhattan(t, ScanOrder(t, R)[i]) <= Manhattan(t, ScanOrder(t, R)[j])
  {
    RingsFromDistance(t, 1, R);
  }

  /** What the goal-correction scan knows once it reaches offset (x, y): no walkable cell
      seen yet, or `best` is a walkable cell seen, no farther than any walkable cell seen and
      strictly nearer than any seen before it. */
  ghost predicate FixScan(walk: set<Cell>, goal: Cell, radius: int, y: int, x: int, bestDist: int, best: Cell) {
    (bestDist == IntMax
     || (best in walk && SeenInSquare(goal, radius, best, y, x) && bestDist == Manhattan(goal, best)))
    && forall c :: SeenInSquare(goal, radius, c, y, x) && c in walk ==>
         bestDist <= Manhattan(goal, c) && (ScanBefore(c, best) ==> bestDist < Manhattan(goal, c))
  }

  /** `c` is the corrected goal: a walkable cell of the square, nearest the goal in Manhattan
      distance, and the first in scan order among the nearest. */
  ghost predicate FixAnswer(walk: set<Cell>, goal: Cell, radius: int, c: Cell) {
    c in walk && InSquare(goal, c, radius)
    && (forall d :: InSquare(goal, d, radius) && d in walk ==> Manhattan(goal, c) <= Manhattan(goal, d))
    && (forall d :: InSquare(goal, d, radius) && d in walk && ScanBefore(d, c) ==> Manhattan(goal, c) < Manhattan(goal, d))
  }

  lemma FixStart(walk: set<Cell>, goal: Cell, radius: int)
    ensures FixScan(walk, goal, radius, -radius, -radius, IntMax, goal)
  {
  }

  /** Visiting the cell at offset (x, y), whose distance is |x| + |y|: it becomes the best
      exactly when it is walkable and strictly nearer. A walkable cell is never the goal
      itself, so it is at least 1 away. */
  lemma FixVisit(walk: set<Cell>, goal: Cell, radius: int, y: int, x: int, bestDist: int, best: Cell)
    requires goal !in walk && 2 * radius < IntMax
    requires -radius <= y <= radius && -radius <= x <= radius
    requires FixScan(walk, goal, radius, y, x, bestDist, best)
    ensures Manhattan(goal, Cell(goal.x + x, goal.y + y)) == Abs(x) + Abs(y)
    ensures Cell(goal.x + x, goal.y + y) in walk ==> 1 <= Abs(x) + Abs(y)
    ensures Cell(goal.x + x, goal.y + y) in walk && Abs(x) + Abs(y) < bestDist ==>
              FixScan(walk, goal, radius, y, x + 1, Abs(x) + Abs(y), Cell(goal.x + x, goal.y + y))
    ensures !(Cell(goal.x + x, goal.y + y) in walk && Abs(x) + Abs(y) < bestDist) ==>
              FixScan(walk, goal, radius, y, x + 1, bestDist, best)
  {
    var c := Cell(goal.x + x, goal.y + y);
    forall d | SeenInSquare(goal, radius, d, y, x + 1)
      ensures SeenInSquare(goal, radius, d, y, x) || d == c
    {
    }
  }

  /** Finishing row y starts row y + 1. */
  lemma FixRow(walk: set<Cell>, goal: Cell, radius: int, y: int, bestDist: int, best: Cell)
    requires FixScan(walk, goal, radius, y, radius + 1, bestDist, best)
    ensures FixScan(walk, goal, radius, y + 1, -radius, bestDist, best)
  {
  }

  /** A best cell 1 away is the answer: no walkable cell is nearer, and every one before it in
      scan order has been seen. */
  lemma FixEarly(walk: set<Cell>, goal: Cell, radius: int, y: int, x: int, best: Cell)
    requires goal !in walk && Manhattan(goal, best) == 1
    requires FixScan(walk, goal, radius, y, x, 1, best)
    ensures FixAnswer(walk, goal, radius, best)
  {
    forall d | InSquare(goal, d, radius) && d in walk && ScanBefore(d, best)
      ensures SeenInSquare(goal, radius, d, y, x)
    {
    }
  }

  /** After the whole square: nothing walkable was seen, or the best is the answer. */
  lemma FixEnd(walk: set<Cell>, goal: Cell, radius: int, bestDist: int, best: Cell)
    requires 2 * radius < IntMax
    requires FixScan(walk, goal, radius, radius + 1, -radius, bestDist, best)
    ensures bestDist == IntMax ==> forall c :: InSquare(goal, c, radius) ==> c !in walk
    ensures bestDist != IntMax ==> FixAnswer(walk, goal, radius, best)
  {
    forall c | InSquare(goal, c, radius)
      ensures SeenInSquare(goal, radius, c, radius + 1, -radius)
    {
    }
  }

  /** What the substitute search knows after trying `tried` (with `accepted` marking the
      candidates it reached) in the rings up to r: no best yet exactly when none was reached;
      otherwise the best is the first reached, at distance at most r and no farther than any
      other reached candidate, with `route` the path found to it. */
  ghost predicate SearchTrace(walk: set<Cell>, t: Cell, start: Cell, r: int, tried: seq<Cell>, accepted: seq<bool>,
                              bestDist: int, best: Cell, first: nat, route: seq<Cell>)
  {
    |tried| == |accepted|
    && (forall i :: 0 <= i < |tried| && accepted[i] ==> tried[i] in walk)
    && (bestDist == IntMax ==> best == t && forall i :: 0 <= i < |tried| ==> !accepted[i])
    && (bestDist != IntMax ==>
          first < |tried| && accepted[first] && tried[first] == best
          && (forall i :: 0 <= i < first ==> !accepted[i])
          && bestDist == Manhattan(t, best) && 1 <= bestDist <= r
          && ValidPath(walk, route, start, best)
          && (forall i :: 0 <= i < |tried| && accepted[i] ==> bestDist <= Manhattan(t, tried[i])))
  }

  /** Trying one more candidate of ring r keeps the trace: a reached candidate becomes the
      best only when there was none, since every earlier best is at most r away. */
  lemma TraceStep(walk: set<Cell>, t: Cell, start: Cell, r: int, tried: seq<Cell>, accepted: seq<bool>,
                  bestDist0: int, best0: Cell, first: nat, route: seq<Cell>, c: Cell, acc: bool, path: seq<Cell>,
                  bestDist: int, best: Cell)
    requires SearchTrace(walk, t, start, r, tried, accepted, bestDist0, best0, first, route)
    requires Manhattan(t, c) == r && 1 <= r < IntMax
    requires acc ==> c in walk && ValidPath(walk, path, start, c)
    requires acc && r < bestDist0 ==> bestDist == r && best == c
    requires !(acc && r < bestDist0) ==> bestDist == bestDist0 && best == best0
    ensures SearchTrace(walk, t, start, r, tried + [c], accepted + [acc], bestDist, best,
                        if acc && bestDist0 == IntMax then |tried| else first,
                        if acc && bestDist0 == IntMax then path else route)
  {
  }

  /** Trying row y of ring r moves its cells from what is left of the ring onto what was tried. */
  lemma RowStep(t: Cell, r: int, y: int, tried0: seq<Cell>, tried: seq<Cell>, rest: seq<Cell>, all: seq<Cell>)
    requires y <= r && rest == RingFrom(t, r, y) && tried0 + rest == all
    requires tried == tried0 + RowCells(t, r, y)
    ensures tried + RingFrom(t, r, y + 1) == all
  {
    assert RingFrom(t, r, y) == RowCells(t, r, y) + RingFrom(t, r, y + 1);
  }

  /** Trying ring r moves its cells, up to what is left of it, onto what was tried. */
  lemma RingStep(t: Cell, R: int, r: int, tried0: seq<Cell>, tried: seq<Cell>, rest: seq<Cell>, pending: seq<Cell>)
    requires r <= R && pending == RingsFrom(t, r, R)
    requires tried + rest == tried0 + RingFrom(t, r, -r)
    ensures tried + (rest + RingsFrom(t, r + 1, R)) == tried0 + pending
  {
    var ring, later := RingFrom(t, r, -r), RingsFrom(t, r + 1, R);
    assert pending == ring + later;
    calc {
      tried + (rest + later);
      (tried + rest) + later;
      (tried0 + ring) + later;
      tried0 + (ring + later);
    }
  }

  /** What was tried is the front of the scan order. */
  lemma PrefixOf(tried: seq<Cell>, pending: seq<Cell>, order: seq<Cell>)
    requires tried + pending == order
    ensures |tried| <= |order| && tried == order[..|tried|]
    ensures |tried| < |order| ==> pending != []
  {
    assert order[..|tried|] == (tried + pending)[..|tried|];
  }

  /** A trace within radius R tells the outcome: no answer exactly when nothing was reached;
      otherwise the answer is the first reached candidate and the nearest of them. */
  lemma TraceOutcome(walk: set<Cell>, t: Cell, start: Cell, r: int, R: int, tried: seq<Cell>, accepted: seq<bool>,
                     bestDist: int, best: Cell, first: nat, route: seq<Cell>)
    requires SearchTrace(walk, t, start, r, tried, accepted, bestDist, best, first, route) && (r <= R || r <= 0)
    ensures |tried| == |accepted|
    ensures forall i :: 0 <= i < |tried| && accepted[i] ==> tried[i] in walk
    ensures bestDist == IntMax ==> best == t && forall i :: 0 <= i < |tried| ==> !accepted[i]
    ensures bestDist != IntMax ==> first < |tried| && accepted[first] && tried[first] == best
                                   && forall i :: 0 <= i < first ==> !accepted[i]
    ensures bestDist != IntMax ==> forall i :: 0 <= i < |tried| && accepted[i] ==> Manhattan(t, best) <= Manhattan(t, tried[i])
    ensures bestDist != IntMax ==> ValidPath(walk, route, start, best) && 1 <= Manhattan(t, best) <= R
  {
  }

  /** Every candidate tried and not reached is one the search was not bound to reach. */
  ghost predicate RejectedUnfindable(walk: set<Cell>, start: Cell, maxExpand: int, tried: seq<Cell>, accepted: seq<bool>) {
    |tried| == |accepted|
    && forall i :: 0 <= i < |tried| && !accepted[i] ==> !Findable(walk, start, tried[i], maxExpand)
  }

  lemma RejectStep(walk: set<Cell>, start: Cell, maxExpand: int, tried: seq<Cell>, accepted: seq<bool>, c: Cell, acc: bool)
    requires RejectedUnfindable(walk, start, maxExpand, tried, accepted)
    requires !acc ==> !Findable(walk, start, c, maxExpand)
    ensures RejectedUnfindable(walk, start, maxExpand, tried + [c], accepted + [acc])
  {
    var t, a := tried + [c], accepted + [acc];
    forall i | 0 <= i < |t| && !a[i]
      ensures !Findable(walk, start, t[i], maxExpand)
    {
      if i < |tried| {
        assert t[i] == tried[i] && a[i] == accepted[i];
      }
    }
  }

  /** What forced mode knows of a substitute goal `g`: the candidates tried are the front of
      the scan order of the rings 1..R around the target `t`, ScanCount of them, so cut short
      only at the end of the row on which `samples` were reached; `g` is the first of them the search reached, every earlier one was neither
      reached nor bound to be reached, and no reached candidate is nearer the target. */
  ghost predicate SubstituteChoice(walk: set<Cell>, start: Cell, t: Cell, R: int, samples: int, maxExpand: int,
                                   tried: seq<Cell>, accepted: seq<bool>, first: nat, g: Cell)
  {
    |tried| == |accepted| && |tried| <= |ScanOrder(t, R)| && tried == ScanOrder(t, R)[..|tried|]
    && |tried| == ScanCount(R, samples)
    && (|tried| < |ScanOrder(t, R)| ==> samples <= |tried|)
    && first < |tried| && accepted[first] && tried[first] == g && g in walk
    && (forall i :: 0 <= i < first ==> !accepted[i] && !Findable(walk, start, tried[i], maxExpand))
    && (forall i :: 0 <= i < |tried| && accepted[i] ==> Manhattan(t, g) <= Manhattan(t, tried[i]))
    && 1 <= Manhattan(t, g) <= R
  }

  /** `g` is a substitute goal forced mode may settle on for the target `t`. */
  ghost predicate SubstituteFor(walk: set<Cell>, start: Cell, t: Cell, R: int, samples: int, maxExpand: int, g: Cell) {
    exists tried, accepted, first :: SubstituteChoice(walk, start, t, R, samples, maxExpand, tried, accepted, first, g)
  }

  /** One FollowPath step on `path` from waypoint `index0` with the repath timer at `timer0`:
      with no path nothing moves (forced mode asks for the fallback); otherwise the next
      waypoint is the one after `index0`, clamped to the last. Not yet reached, the enemy
      steers to it; reached, the index moves there, and reaching the last one zeroes the
      timer so that the next tick replans. */
  ghost predicate FollowStep(path: seq<Cell>, forced: bool, reached: bool, index0: int, timer0: int,
                             index: int, timer: int, intent: Intent)
  {
    if path == [] then index == index0 && timer == timer0 && intent == (if forced then Fallback else Hold)
    else
      var next := Min(index0 + 1, |path| - 1);
      0 <= next
      && (if !reached then index == index0 && timer == timer0 && intent == Steer(path[next])
          else index == next
               && (if next < |path| - 1 then timer == timer0 && intent == Hold
                   else timer == 0 && intent == (if forced then Fallback else Hold)))
  }

  class ChaserPathChase {
    const astar: AStar
    /** The serialized settings, fixed once the component exists. */
    const maxExpand: int
    const repathCellThreshold: int
    const goalFixRadius: int
    const forcedSearchRadius: int
    const forcedSearchSamples: int
    const repathTicks: int
    /** `_target != null`. Where the target stands is an input of each tick. */
    var hasTarget: bool
    var isForced: bool
    var cellPath: seq<Cell>
    var pathIndex: int
    var repathTimer: int
    var lastGoalCell: Cell

    /** The waypoint index stays inside the cached path, which is a legal walk on the grid;
        the search radii are small enough for int.MaxValue to stand for "none found". */
    ghost predicate Valid()
      reads this, astar.grid, astar.grid.walkable
    {
      astar.grid.Valid()
      && 0 <= goalFixRadius && 2 * goalFixRadius < IntMax && forcedSearchRadius < IntMax && 1 <= forcedSearchSamples
      && 0 <= pathIndex
      && (cellPath == [] ==> pathIndex == 0)
      && (cellPath != [] ==> pathIndex < |cellPath| && ValidPath(astar.grid.cells, cellPath, cellPath[0], cellPath[|cellPath| - 1]))
    }

    /** The component once its start-up coroutine has found the grid and the search: with a
        target it takes the target's cell as the last goal and replans on the first tick. */
    constructor (astar: AStar, target: Option<Cell>)
      requires astar.grid.Valid()
      ensures Valid() && this.astar == astar
      ensures maxExpand == MaxExpand && repathCellThreshold == RepathCellThreshold && goalFixRadius == GoalFixRadius
      ensures forcedSearchRadius == ForcedSearchRadius && forcedSearchSamples == ForcedSearchSamples && repathTicks == RepathTicks
      ensures hasTarget == target.Some? && !isForced && cellPath == [] && pathIndex == 0 && repathTimer == 0
      ensures target.Some? ==> lastGoalCell == target.value
    {
      this.astar := astar;
      maxExpand := MaxExpand;
      repathCellThreshold := RepathCellThreshold;
      goalFixRadius := GoalFixRadius;
      forcedSearchRadius := ForcedSearchRadius;
      forcedSearchSamples := ForcedSearchSamples;
      repathTicks := RepathTicks;
      hasTarget := target.Some?;
      isForced := false;
      cellPath := [];
      pathIndex := 0;
      repathTimer := 0;
      lastGoalCell := if target.Some? then target.value else Cell(0, 0);
    }

    /** Chases `target` normally (never forced); a real target is replanned for at once. */
    method SetTarget(target: Option<Cell>)
      requires Valid()
      modifies this
      ensures Valid()
      ensures hasTarget == target.Some? && !isForced
      ensures cellPath == old(cellPath) && pathIndex == old(pathIndex)
      ensures target.Some? ==> lastGoalCell == target.value && repathTimer == 0
      ensures target.None? ==> lastGoalCell == old(lastGoalCell) && repathTimer == old(repathTimer)
    {
      hasTarget := target.Some?;
      isForced := false;
      if target.Some? {
        lastGoalCell := target.value;
        repathTimer := 0;
      }
    }

    /** Drops the target and the path and stops the enemy. */
    method ClearTarget() returns (intent: Intent)
      requires Valid()
      modifies this
      ensures Valid()
      ensures !hasTarget && !isForced && cellPath == [] && pathIndex == 0 && intent == Stop
      ensures repathTimer == old(repathTimer) && lastGoalCell == old(lastGoalCell)
    {
      hasTarget := false;
      isForced := false;
      cellPath := [];
      pathIndex := 0;
      intent := Stop;
    }

    /** Chases `target` in forced mode; no target leaves everything as it was. */
    method ForceChase(target: Option<Cell>)
      requires Valid()
      modifies this
      ensures Valid()
      ensures target.None? ==> (hasTarget == old(hasTarget) && isForced == old(isForced)
                                && lastGoalCell == old(lastGoalCell) && repathTimer == old(repathTimer))
      ensures target.Some? ==> hasTarget && isForced && lastGoalCell == target.value && repathTimer == 0
      ensures cellPath == old(cellPath) && pathIndex == old(pathIndex)
    {
      if target.None? {
        return;
      }
      hasTarget := true;
      isForced := true;
      lastGoalCell := target.value;
      repathTimer := 0;
    }

    /** One fixed-update tick. `dead` is the enemy state being Dead, `startCell` and
        `rawGoalCell` the cells of the chaser and of the target, and `reached` whether the
        chaser is within reach of the next waypoint. `goal` is the corrected goal (None when
        it cannot be corrected) and `replanned` whether the tick asked for a new path. */
    method FixedUpdate(dead: bool, startCell: Cell, rawGoalCell: Cell, reached: bool)
      returns (intent: Intent, goal: Option<Cell>, replanned: bool)
      requires Valid()
      modifies this
      ensures Valid()
      ensures hasTarget == old(hasTarget) && isForced == old(isForced)
      ensures dead || !hasTarget ==> goal.None? && !replanned && repathTimer == old(repathTimer) && lastGoalCell == old(lastGoalCell)
      ensures dead ==> cellPath == old(cellPath) && pathIndex == old(pathIndex) && intent == Hold
      ensures !dead && !hasTarget ==> cellPath == [] && pathIndex == 0 && intent == Stop
      ensures !dead && hasTarget && goal.None? ==>
                cellPath == old(cellPath) && pathIndex == old(pathIndex) && repathTimer == old(repathTimer)
                && lastGoalCell == old(lastGoalCell) && intent == (if isForced then Fallback else Hold)
      ensures goal.Some? ==> goal.value in astar.grid.cells && InSquare(rawGoalCell, goal.value, goalFixRadius)
      ensures replanned <==> goal.Some? && (old(repathTimer) - 1 <= 0 || Manhattan(goal.value, old(lastGoalCell)) >= repathCellThreshold)
      ensures replanned ==> lastGoalCell == goal.value && pathIndex <= 1
      ensures replanned ==> repathTimer == repathTicks || (repathTimer == 0 && |cellPath| > 0 && pathIndex == |cellPath| - 1)
      ensures replanned && cellPath != [] ==> cellPath[0] == startCell
      ensures replanned && !isForced && cellPath != [] ==> cellPath[|cellPath| - 1] == goal.value
      ensures replanned && cellPath == [] ==> !Findable(astar.grid.cells, startCell, goal.value, maxExpand)
      ensures replanned && cellPath != [] ==>
                cellPath[|cellPath| - 1] == goal.value
                || (isForced && SubstituteFor(astar.grid.cells, startCell, goal.value, forcedSearchRadius,
                                              forcedSearchSamples, maxExpand, cellPath[|cellPath| - 1]))
      ensures replanned && cellPath != [] && cellPath[|cellPath| - 1] == goal.value ==>
                FollowStep(cellPath, isForced, reached, 0, repathTicks, pathIndex, repathTimer, intent)
      ensures replanned && cellPath == [] ==>
                pathIndex == 0 && repathTimer == repathTicks && intent == (if isForced then Fallback else Hold)
      ensures replanned && cellPath != [] && cellPath[|cellPath| - 1] != goal.value ==>
                isForced && intent == Hold && pathIndex == 0 && repathTimer == repathTicks
      ensures goal.Some? && !replanned ==>
                lastGoalCell == old(lastGoalCell) && cellPath == old(cellPath)
                && FollowStep(old(cellPath), isForced, reached, old(pathIndex), old(repathTimer) - 1, pathIndex, repathTimer, intent)
                && old(pathIndex) <= pathIndex <= old(pathIndex) + 1
    {
      intent, goal, replanned := Hold, None, false;
      if dead {
        return;
      }
      if !hasTarget {
        cellPath := [];
        pathIndex := 0;
        intent := Stop;
        return;
      }
      var goalOk, goalCell := TryFixGoalCell(rawGoalCell);
      if !goalOk {
        if isForced {
          intent := Fallback;
        }
        return;
      }
      goal := Some(goalCell);
      intent, replanned := RepathAndFollow(startCell, goalCell, reached);
    }

    /** The rest of a tick once the goal is corrected: the timer runs down, a replan happens
        when it has run out or the goal has moved far enough, and then the path is followed
        unless the replan found no path to the goal. */
    method RepathAndFollow(startCell: Cell, goalCell: Cell, reached: bool) returns (intent: Intent, replanned: bool)
      requires Valid()
      modifies this
      ensures Valid()
      ensures hasTarget == old(hasTarget) && isForced == old(isForced)
      ensures replanned <==> old(repathTimer) - 1 <= 0 || Manhattan(goalCell, old(lastGoalCell)) >= repathCellThreshold
      ensures replanned ==> lastGoalCell == goalCell && pathIndex <= 1
      ensures replanned ==> repathTimer == repathTicks || (repathTimer == 0 && |cellPath| > 0 && pathIndex == |cellPath| - 1)
      ensures replanned && cellPath != [] ==> cellPath[0] == startCell
      ensures replanned && !isForced && cellPath != [] ==> cellPath[|cellPath| - 1] == goalCell
      ensures replanned && cellPath == [] ==> !Findable(astar.grid.cells, startCell, goalCell, maxExpand)
      ensures replanned && cellPath != [] ==>
                cellPath[|cellPath| - 1] == goalCell
                || (isForced && SubstituteFor(astar.grid.cells, startCell, goalCell, forcedSearchRadius,
                                              forcedSearchSamples, maxExpand, cellPath[|cellPath| - 1]))
      ensures replanned && cellPath != [] && cellPath[|cellPath| - 1] == goalCell ==>
                FollowStep(cellPath, isForced, reached, 0, repathTicks, pathIndex, repathTimer, intent)
      ensures replanned && cellPath == [] ==>
                pathIndex == 0 && repathTimer == repathTicks && intent == (if isForced then Fallback else Hold)
      ensures replanned && cellPath != [] && cellPath[|cellPath| - 1] != goalCell ==>
                isForced && intent == Hold && pathIndex == 0 && repathTimer == repathTicks
      ensures !replanned ==>
                lastGoalCell == old(lastGoalCell) && cellPath == old(cellPath)
                && FollowStep(old(cellPath), isForced, reached, old(pathIndex), old(repathTimer) - 1, pathIndex, repathTimer, intent)
                && old(pathIndex) <= pathIndex <= old(pathIndex) + 1
    {
      replanned := false;
      repathTimer := repathTimer - 1;
      var needRepath := false;
      if repathTimer <= 0 {
        needRepath := true;
      }
      var goalMove := Abs(goalCell.x - lastGoalCell.x) + Abs(goalCell.y - lastGoalCell.y);
      if goalMove >= repathCellThreshold {
        needRepath := true;
      }

      if needRepath {
        replanned := true;
        var found;
        intent, found := Replan(startCell, goalCell);
        if !found {
          return;
        }
      }
      intent := FollowPath(reached);
    }

    /** The replan of a tick: the timer restarts, the corrected goal becomes the last goal and
        the search runs from the chaser's cell. A failed search empties the path; in forced mode
        a substitute goal is then searched for, and without a path to one the fallback move is
        asked for. `found` is whether the first search succeeded, after which the tick goes on
        to follow the path. */
    method Replan(startCell: Cell, goalCell: Cell) returns (intent: Intent, found: bool)
      requires Valid()
      modifies this
      ensures Valid()
      ensures hasTarget == old(hasTarget) && isForced == old(isForced)
      ensures repathTimer == repathTicks && lastGoalCell == goalCell && pathIndex == 0
      ensures found ==> cellPath != [] && ValidPath(astar.grid.cells, cellPath, startCell, goalCell)
      ensures !found ==> !Findable(astar.grid.cells, startCell, goalCell, maxExpand)
      ensures !found && cellPath != [] ==> cellPath[|cellPath| - 1] != goalCell
      ensures !found && !isForced ==> cellPath == [] && intent == Hold
      ensures !found && isForced ==>
                (cellPath == [] && intent == Fallback)
                || (cellPath != [] && intent == Hold
                    && ValidPath(astar.grid.cells, cellPath, startCell, cellPath[|cellPath| - 1])
                    && SubstituteFor(astar.grid.cells, startCell, goalCell, forcedSearchRadius, forcedSearchSamples,
                                     maxExpand, cellPath[|cellPath| - 1]))
    {
      intent := Hold;
      repathTimer := repathTicks;
      lastGoalCell := goalCell;
      var path;
      found, path := astar.TryFindPath(startCell, goalCell, maxExpand);
      cellPath := path;
      pathIndex := 0;
      if found {
        return;
      }
      if isForced {
        var foundAlt: bool, reachableGoal: Cell;
        ghost var tried: seq<Cell>, accepted: seq<bool>, first: nat, route: seq<Cell>;
        foundAlt, reachableGoal, tried, accepted, first, route := TryFindReachableGoalNearTarget(startCell, goalCell);
        if foundAlt {
          var altFound, altPath := astar.TryFindPath(startCell, reachableGoal, maxExpand);
          cellPath := altPath;
          if altFound {
            assert SubstituteChoice(astar.grid.cells, startCell, goalCell, forcedSearchRadius, forcedSearchSamples,
                                    maxExpand, tried, accepted, first, cellPath[|cellPath| - 1]);
            return;
          }
        }
        intent := Fallback;
      }
    }

    /** Advances along the cached path: the next waypoint is the one after the current index,
        clamped to the last. Reaching it moves the index there, and reaching the last one
        forces a replan on the next tick; otherwise the enemy steers towards it. */
    method FollowPath(reached: bool) returns (intent: Intent)
      requires Valid()
      modifies this
      ensures Valid()
      ensures hasTarget == old(hasTarget) && isForced == old(isForced) && cellPath == old(cellPath)
      ensures lastGoalCell == old(lastGoalCell)
      ensures FollowStep(cellPath, isForced, reached, old(pathIndex), old(repathTimer), pathIndex, repathTimer, intent)
      ensures old(pathIndex) <= pathIndex <= old(pathIndex) + 1
    {
      intent := Hold;
      if |cellPath| == 0 {
        if isForced {
          intent := Fallback;
        }
        return;
      }
      var nextIndex := Clamp(pathIndex + 1, 0, |cellPath| - 1);
      if reached {
        pathIndex := nextIndex;
        if pathIndex >= |cellPath| - 1 {
          repathTimer := 0;
          if isForced {
            intent := Fallback;
          }
        }
        return;
      }
      intent := Steer(cellPath[nextIndex]);
    }

    /** Corrects a goal cell onto the grid: a walkable goal is kept; otherwise the walkable
        cell of the square of radius goalFixRadius around it nearest in Manhattan distance,
        the first in row-major order among equals, and no cell when the square has none.
        The scan stops early at distance 1, the least a corrected goal can have. */
    method TryFixGoalCell(goal: Cell) returns (ok: bool, fixedGoal: Cell)
      requires Valid()
      ensures goal in astar.grid.cells ==> ok && fixedGoal == goal
      ensures !ok ==> fixedGoal == goal && forall c :: InSquare(goal, c, goalFixRadius) ==> c !in astar.grid.cells
      ensures ok ==> fixedGoal in astar.grid.cells && InSquare(goal, fixedGoal, goalFixRadius)
      ensures ok ==> forall c :: InSquare(goal, c, goalFixRadius) && c in astar.grid.cells ==>
                Manhattan(goal, fixedGoal) <= Manhattan(goal, c)
      ensures ok && goal !in astar.grid.cells ==>
                forall c :: InSquare(goal, c, goalFixRadius) && c in astar.grid.cells && ScanBefore(c, fixedGoal) ==>
                  Manhattan(goal, fixedGoal) < Manhattan(goal, c)
    {
      ok, fixedGoal := true, goal;
      if astar.grid.IsWalkable(goal) {
        return;
      }
      ghost var walk, radius := astar.grid.cells, goalFixRadius;
      var bestDist := IntMax;
      var best := goal;
      var y := -goalFixRadius;
      FixStart(walk, goal, radius);
      while y <= goalFixRadius
        invariant -goalFixRadius <= y <= goalFixRadius + 1
        invariant FixScan(walk, goal, radius, y, -radius, bestDist, best)
      {
        var early;
        bestDist, best, early := FixGoalRow(goal, y, bestDist, best);
        if early {
          fixedGoal := best;
          return;
        }
        y := y + 1;
      }
      FixEnd(walk, goal, radius, bestDist, best);
      if bestDist == IntMax {
        ok := false;
        return;
      }
      fixedGoal := best;
    }

    /** Scans row y of the correction square, x = -goalFixRadius..goalFixRadius; `early` when
        a walkable cell 1 away ends the scan. */
    method FixGoalRow(goal: Cell, y: int, bestDist0: int, best0: Cell) returns (bestDist: int, best: Cell, early: bool)
      requires Valid() && goal !in astar.grid.cells && -goalFixRadius <= y <= goalFixRadius
      requires FixScan(astar.grid.cells, goal, goalFixRadius, y, -goalFixRadius, bestDist0, best0)
      ensures early ==> FixAnswer(astar.grid.cells, goal, goalFixRadius, best)
      ensures !early ==> FixScan(astar.grid.cells, goal, goalFixRadius, y + 1, -goalFixRadius, bestDist, best)
    {
      ghost var walk, radius := astar.grid.cells, goalFixRadius;
      bestDist, best, early := bestDist0, best0, false;
      var x := -goalFixRadius;
      while x <= goalFixRadius
        invariant -goalFixRadius <= x <= goalFixRadius + 1
        invariant FixScan(walk, goal, radius, y, x, bestDist, best)
      {
        var c := Cell(goal.x + x, goal.y + y);
        FixVisit(walk, goal, radius, y, x, bestDist, best);
        if astar.grid.IsWalkable(c) {
          var d := Abs(x) + Abs(y);
          if d < bestDist {
            bestDist := d;
            best := c;
            if bestDist == 1 {
              FixEarly(walk, goal, radius, y, x + 1, best);
              early := true;
              return;
            }
          }
        }
        x := x + 1;
      }
      FixRow(walk, goal, radius, y, bestDist, best);
    }

    /** Forced mode's substitute goal: the diamond rings r = 1..forcedSearchRadius around
        `targetCell` are tried in order, row by row, until at least forcedSearchSamples
        candidates have been tried. The answer is the nearest candidate that is walkable and
        that the search reaches from `startCell`, the earliest tried among equals. `tried` and
        `accepted` record the candidates in the order tried and which of them the search
        reached; `first` is the index of the answer and `route` the path found to it. */
    method TryFindReachableGoalNearTarget(startCell: Cell, targetCell: Cell)
      returns (ok: bool, bestGoal: Cell, ghost tried: seq<Cell>, ghost accepted: seq<bool>, ghost first: nat, ghost route: seq<Cell>)
      requires Valid()
      ensures |tried| == |accepted| <= forcedSearchSamples + 1
      ensures |tried| <= |ScanOrder(targetCell, forcedSearchRadius)| && tried == ScanOrder(targetCell, forcedSearchRadius)[..|tried|]
      ensures |tried| < |ScanOrder(targetCell, forcedSearchRadius)| ==> forcedSearchSamples <= |tried|
      ensures |tried| == ScanCount(forcedSearchRadius, forcedSearchSamples)
      ensures forall i :: 0 <= i < |tried| && accepted[i] ==> tried[i] in astar.grid.cells
      ensures !ok ==> bestGoal == targetCell && forall i :: 0 <= i < |tried| ==> !accepted[i]
      ensures ok ==> first < |tried| && accepted[first] && tried[first] == bestGoal
                     && forall i :: 0 <= i < first ==> !accepted[i]
      ensures ok ==> forall i :: 0 <= i < |tried| && accepted[i] ==> Manhattan(targetCell, bestGoal) <= Manhattan(targetCell, tried[i])
      ensures ok ==> ValidPath(astar.grid.cells, route, startCell, bestGoal) && 1 <= Manhattan(targetCell, bestGoal) <= forcedSearchRadius
      ensures forall i :: 0 <= i < |tried| && !accepted[i] ==> !Findable(astar.grid.cells, startCell, tried[i], maxExpand)
      ensures !ok ==> forall i :: 0 <= i < |tried| ==> !Findable(astar.grid.cells, startCell, tried[i], maxExpand)
      ensures ok ==> SubstituteChoice(astar.grid.cells, startCell, targetCell, forcedSearchRadius, forcedSearchSamples,
                                      maxExpand, tried, accepted, first, bestGoal)
    {
      var bestDist, best;
      ghost var bound, pending;
      bestDist, best, tried, accepted, first, route, bound, pending := ScanRings(startCell, targetCell);
      PrefixOf(tried, pending, ScanOrder(targetCell, forcedSearchRadius));
      TraceOutcome(astar.grid.cells, targetCell, startCell, bound, forcedSearchRadius, tried, accepted, bestDist, best, first, route);
      ok, bestGoal := bestDist != IntMax, best;
    }

    /** The ring loop of the substitute search: `tried` followed by `pending` is the whole scan
        order, and something is left only when the sample budget ran out. */
    method ScanRings(startCell: Cell, targetCell: Cell)
      returns (bestDist: int, best: Cell, ghost tried: seq<Cell>, ghost accepted: seq<bool>, ghost first: nat,
               ghost route: seq<Cell>, ghost bound: int, ghost pending: seq<Cell>)
      requires Valid()
      ensures |tried| <= forcedSearchSamples + 1
      ensures SearchTrace(astar.grid.cells, targetCell, startCell, bound, tried, accepted, bestDist, best, first, route)
      ensures RejectedUnfindable(astar.grid.cells, startCell, maxExpand, tried, accepted)
      ensures bound <= forcedSearchRadius || bound <= 0
      ensures tried + pending == ScanOrder(targetCell, forcedSearchRadius)
      ensures pending != [] ==> forcedSearchSamples <= |tried|
      ensures |tried| == ScanCount(forcedSearchRadius, forcedSearchSamples)
    {
      tried, accepted, first, route := [], [], 0, [];
      ghost var walk, R, samples := astar.grid.cells, forcedSearchRadius, forcedSearchSamples;
      ghost var total := ScanCount(R, samples);
      pending := ScanOrder(targetCell, forcedSearchRadius);
      var checkedCount := 0;
      bestDist := IntMax;
      best := targetCell;
      var r := 1;
      bound := 0;
      while r <= forcedSearchRadius
        invariant 1 <= r && (r <= forcedSearchRadius + 1 || r == 1) && bound == r - 1
        invariant checkedCount == |tried| < forcedSearchSamples
        invariant SearchTrace(walk, targetCell, startCell, bound, tried, accepted, bestDist, best, first, route)
        invariant RejectedUnfindable(walk, startCell, maxExpand, tried, accepted)
        invariant tried + pending == ScanOrder(targetCell, forcedSearchRadius) && pending == RingsFrom(targetCell, r, forcedSearchRadius)
        invariant total == ScannedFrom(R, samples, r, -r, |tried|)
      {
        bestDist, best, checkedCount, tried, accepted, first, route, pending :=
          RingRound(startCell, targetCell, r, bestDist, best, checkedCount, tried, accepted, first, route, pending);
        bound := r;
        if checkedCount >= forcedSearchSamples {
          return;
        }
        r := r + 1;
      }
      RingCount(R, samples, r, |tried|);
    }

    /** One round of the ring loop: ring r is tried, and `pending` loses what was tried of it. */
    method RingRound(startCell: Cell, targetCell: Cell, r: int, bestDist0: int, best0: Cell, checkedCount0: int,
                     ghost tried0: seq<Cell>, ghost accepted0: seq<bool>, ghost first0: nat, ghost route0: seq<Cell>,
                     ghost pending0: seq<Cell>)
      returns (bestDist: int, best: Cell, checkedCount: int,
               ghost tried: seq<Cell>, ghost accepted: seq<bool>, ghost first: nat, ghost route: seq<Cell>, ghost pending: seq<Cell>)
      requires Valid() && 1 <= r <= forcedSearchRadius
      requires checkedCount0 == |tried0| < forcedSearchSamples
      requires SearchTrace(astar.grid.cells, targetCell, startCell, r - 1, tried0, accepted0, bestDist0, best0, first0, route0)
      requires RejectedUnfindable(astar.grid.cells, startCell, maxExpand, tried0, accepted0)
      requires pending0 == RingsFrom(targetCell, r, forcedSearchRadius)
      ensures RejectedUnfindable(astar.grid.cells, startCell, maxExpand, tried, accepted)
      ensures checkedCount == |tried| <= forcedSearchSamples + 1
      ensures tried + pending == tried0 + pending0
      ensures checkedCount < forcedSearchSamples ==> pending == RingsFrom(targetCell, r + 1, forcedSearchRadius)
      ensures checkedCount >= forcedSearchSamples ==>
                |tried| == ScannedFrom(forcedSearchRadius, forcedSearchSamples, r, -r, |tried0|)
      ensures checkedCount < forcedSearchSamples ==>
                ScannedFrom(forcedSearchRadius, forcedSearchSamples, r, -r, |tried0|)
                == ScannedFrom(forcedSearchRadius, forcedSearchSamples, r + 1, -(r + 1), |tried|)
      ensures SearchTrace(astar.grid.cells, targetCell, startCell, r, tried, accepted, bestDist, best, first, route)
    {
      ghost var rest: seq<Cell>;
      bestDist, best, checkedCount, tried, accepted, first, route, rest :=
        TryRing(startCell, targetCell, r, bestDist0, best0, checkedCount0, tried0, accepted0, first0, route0);
      RingStep(targetCell, forcedSearchRadius, r, tried0, tried, rest, pending0);
      pending := rest + RingsFrom(targetCell, r + 1, forcedSearchRadius);
    }

    /** Tries ring r row by row, y = -r..r, stopping after the row at which forcedSearchSamples
        candidates have been tried; `rest` is what is left of the ring. */
    method TryRing(startCell: Cell, targetCell: Cell, r: int, bestDist0: int, best0: Cell, checkedCount0: int,
                   ghost tried0: seq<Cell>, ghost accepted0: seq<bool>, ghost first0: nat, ghost route0: seq<Cell>)
      returns (bestDist: int, best: Cell, checkedCount: int,
               ghost tried: seq<Cell>, ghost accepted: seq<bool>, ghost first: nat, ghost route: seq<Cell>, ghost rest: seq<Cell>)
      requires Valid() && 1 <= r <= forcedSearchRadius
      requires checkedCount0 == |tried0| < forcedSearchSamples
      requires SearchTrace(astar.grid.cells, targetCell, startCell, r - 1, tried0, accepted0, bestDist0, best0, first0, route0)
      requires RejectedUnfindable(astar.grid.cells, startCell, maxExpand, tried0, accepted0)
      ensures RejectedUnfindable(astar.grid.cells, startCell, maxExpand, tried, accepted)
      ensures checkedCount == |tried| <= forcedSearchSamples + 1
      ensures tried + rest == tried0 + RingFrom(targetCell, r, -r)
      ensures checkedCount < forcedSearchSamples ==> rest == []
      ensures checkedCount >= forcedSearchSamples ==>
                |tried| == ScannedFrom(forcedSearchRadius, forcedSearchSamples, r, -r, |tried0|)
      ensures checkedCount < forcedSearchSamples ==>
                ScannedFrom(forcedSearchRadius, forcedSearchSamples, r, -r, |tried0|)
                == ScannedFrom(forcedSearchRadius, forcedSearchSamples, r + 1, -(r + 1), |tried|)
      ensures SearchTrace(astar.grid.cells, targetCell, startCell, r, tried, accepted, bestDist, best, first, route)
    {
      ghost var walk := astar.grid.cells;
      bestDist, best, checkedCount := bestDist0, best0, checkedCount0;
      tried, accepted, first, route := tried0, accepted0, first0, route0;
      rest := RingFrom(targetCell, r, -r);
      var y := -r;
      while y <= r
        invariant -r <= y <= r + 1
        invariant checkedCount == |tried| < forcedSearchSamples
        invariant SearchTrace(walk, targetCell, startCell, r, tried, accepted, bestDist, best, first, route)
        invariant RejectedUnfindable(walk, startCell, maxExpand, tried, accepted)
        invariant tried + rest == tried0 + RingFrom(targetCell, r, -r) && rest == RingFrom(targetCell, r, y)
        invariant ScannedFrom(forcedSearchRadius, forcedSearchSamples, r, -r, |tried0|)
                  == ScannedFrom(forcedSearchRadius, forcedSearchSamples, r, y, |tried|)
      {
        ghost var tried1 := tried;
        bestDist, best, checkedCount, tried, accepted, first, route :=
          TryRow(startCell, targetCell, r, y, bestDist, best, checkedCount, tried, accepted, first, route);
        RowStep(targetCell, r, y, tried1, tried, rest, tried0 + RingFrom(targetCell, r, -r));
        RowCount(targetCell, forcedSearchRadius, forcedSearchSamples, r, y, |tried1|, |tried|);
        rest := RingFrom(targetCell, r, y + 1);
        if checkedCount >= forcedSearchSamples {
          return;
        }
        y := y + 1;
      }
      RingCount(forcedSearchRadius, forcedSearchSamples, r, |tried|);
    }

    /** Tries the candidates of row y of ring r: +x first, then -x unless the two coincide. */
    method TryRow(startCell: Cell, targetCell: Cell, r: int, y: int, bestDist0: int, best0: Cell, checkedCount0: int,
                  ghost tried0: seq<Cell>, ghost accepted0: seq<bool>, ghost first0: nat, ghost route0: seq<Cell>)
      returns (bestDist: int, best: Cell, checkedCount: int,
               ghost tried: seq<Cell>, ghost accepted: seq<bool>, ghost first: nat, ghost route: seq<Cell>)
      requires Valid() && 1 <= r <= forcedSearchRadius && -r <= y <= r
      requires checkedCount0 == |tried0|
      requires SearchTrace(astar.grid.cells, targetCell, startCell, r, tried0, accepted0, bestDist0, best0, first0, route0)
      requires RejectedUnfindable(astar.grid.cells, startCell, maxExpand, tried0, accepted0)
      ensures RejectedUnfindable(astar.grid.cells, startCell, maxExpand, tried, accepted)
      ensures checkedCount == |tried| && tried == tried0 + RowCells(targetCell, r, y)
      ensures SearchTrace(astar.grid.cells, targetCell, startCell, r, tried, accepted, bestDist, best, first, route)
    {
      var x1 := r - Abs(y);
      var x2 := -x1;
      var c1 := Cell(targetCell.x + x1, targetCell.y + y);
      var c2 := Cell(targetCell.x + x2, targetCell.y + y);
      bestDist, best, checkedCount, tried, accepted, first, route :=
        TryTraced(startCell, targetCell, r, c1, bestDist0, best0, checkedCount0, tried0, accepted0, first0, route0);
      if x2 != x1 {
        bestDist, best, checkedCount, tried, accepted, first, route :=
          TryTraced(startCell, targetCell, r, c2, bestDist, best, checkedCount, tried, accepted, first, route);
      }
    }

    /** Tries one candidate of ring r and records it in the trace. */
    method TryTraced(startCell: Cell, targetCell: Cell, r: int, c: Cell, bestDist0: int, best0: Cell, checkedCount0: int,
                     ghost tried0: seq<Cell>, ghost accepted0: seq<bool>, ghost first0: nat, ghost route0: seq<Cell>)
      returns (bestDist: int, best: Cell, checkedCount: int,
               ghost tried: seq<Cell>, ghost accepted: seq<bool>, ghost first: nat, ghost route: seq<Cell>)
      requires Valid() && 1 <= r <= forcedSearchRadius && Manhattan(targetCell, c) == r
      requires checkedCount0 == |tried0|
      requires SearchTrace(astar.grid.cells, targetCell, startCell, r, tried0, accepted0, bestDist0, best0, first0, route0)
      requires RejectedUnfindable(astar.grid.cells, startCell, maxExpand, tried0, accepted0)
      ensures RejectedUnfindable(astar.grid.cells, startCell, maxExpand, tried, accepted)
      ensures checkedCount == |tried| && tried == tried0 + [c]
      ensures SearchTrace(astar.grid.cells, targetCell, startCell, r, tried, accepted, bestDist, best, first, route)
    {
      ghost var walk := astar.grid.cells;
      var done;
      ghost var acc: bool, path: seq<Cell>;
      done, bestDist, best, checkedCount, acc, path := TryCandidate(startCell, targetCell, c, bestDist0, best0, checkedCount0);
      assert !done;
      TraceStep(walk, targetCell, startCell, r, tried0, accepted0, bestDist0, best0, first0, route0, c, acc, path, bestDist, best);
      RejectStep(walk, startCell, maxExpand, tried0, accepted0, c, acc);
      first, route := first0, route0;
      if acc && bestDist0 == IntMax {
        first, route := |tried0|, path;
      }
      tried, accepted := tried0 + [c], accepted0 + [acc];
    }

    /** Counts a candidate and, when it is walkable and reachable (`accepted`, with `route` the
        path found) and nearer the target than the best so far, makes it the best. It reports
        `done` only for a candidate on the target itself. */
    method TryCandidate(startCell: Cell, targetCell: Cell, candidate: Cell, bestDist0: int, best0: Cell, checkedCount0: int)
      returns (done: bool, bestDist: int, best: Cell, checkedCount: int, ghost accepted: bool, ghost route: seq<Cell>)
      requires astar.grid.Valid()
      ensures checkedCount == checkedCount0 + 1
      ensures accepted ==> candidate in astar.grid.cells && ValidPath(astar.grid.cells, route, startCell, candidate)
      ensures !accepted ==> !Findable(astar.grid.cells, startCell, candidate, maxExpand)
      ensures accepted && Manhattan(targetCell, candidate) < bestDist0 ==> bestDist == Manhattan(targetCell, candidate) && best == candidate
      ensures !(accepted && Manhattan(targetCell, candidate) < bestDist0) ==> bestDist == bestDist0 && best == best0
      ensures done <==> accepted && Manhattan(targetCell, candidate) < bestDist0 && candidate == targetCell
    {
      done, bestDist, best, accepted, route := false, bestDist0, best0, false, [];
      checkedCount := checkedCount0 + 1;
      if !astar.grid.IsWalkable(candidate) {
        return;
      }
      var ok, tmp := astar.TryFindPath(startCell, candidate, maxExpand);
      if !ok {
        return;
      }
      accepted, route := true, tmp;
      var distToTarget := Abs(candidate.x - targetCell.x) + Abs(candidate.y - targetCell.y);
      if distToTarget < bestDist {
        bestDist := distToTarget;
        best := candidate;
        if bestDist == 0 {
          done := true;
        }
      }
    }
  }

  function Clamp(v: int, lo: int, hi: int): int {
    if v < lo then lo else if v > hi then hi else v
  }
}
