/** The 8-connected A* search of the chasers over a PathGrid: octile heuristic, step cost
    10 straight and 14 diagonal, no corner cutting past a blocked side cell, a closed set,
    an open-set membership guard (a cell already queued is never queued again, even when
    its cost improves) and an expansion budget. */
module AStarSearch {
  import opened Cells
  import opened Grid
  import opened Heap

  /** Octile distance: 14 per diagonal step and 10 per straight step on an open grid. */
  function Heuristic(a: Cell, b: Cell): nat {
    var dx := Abs(a.x - b.x);
    var dy := Abs(a.y - b.y);
    var diag := Min(dx, dy);
    var straight := Abs(dx - dy);
    diag * 14 + straight * 10
  }

  /** The cost the search charges for one move: 14 on a diagonal, else 10. */
  function StepCost(a: Cell, b: Cell): nat {
    if IsDiagonal(a, b) then 14 else 10
  }

  /** The priority an entry is queued with: its g-score plus the heuristic to the goal. */
  function FScore(g: int, c: Cell, goal: Cell): int {
    g + Heuristic(c, goal)
  }

  /** Summed step costs along a path. */
  function PathCost(p: seq<Cell>): nat
    decreases |p|
  {
    if |p| <= 1 then 0 else StepCost(p[0], p[1]) + PathCost(p[1..])
  }

  /** A move the search may take from `a` to `b`, given the set `walk` of walkable cells: one
      of the eight neighbour offsets, onto a walkable cell, and on a diagonal both orthogonal
      side cells walkable. */
  predicate LegalStep(walk: set<Cell>, a: Cell, b: Cell) {
    Adjacent(a, b) && b in walk
    && (IsDiagonal(a, b) ==> Cell(b.x, a.y) in walk && Cell(a.x, b.y) in walk)
  }

  /** A path the chaser can follow from `start` to `goal` over the walkable cells `walk`. */
  predicate ValidPath(walk: set<Cell>, p: seq<Cell>, start: Cell, goal: Cell) {
    |p| > 0 && p[0] == start && p[|p| - 1] == goal
    && (forall i :: 0 <= i < |p| ==> p[i] in walk)
    && (forall i :: 0 <= i < |p| - 1 ==> LegalStep(walk, p[i], p[i + 1]))
  }

  predicate Distinct<T(==)>(s: seq<T>) {
    forall i, j :: 0 <= i < j < |s| ==> s[i] != s[j]
  }

  /** Some legal walk leads from `start` to `goal`. */
  ghost predicate Reachable(walk: set<Cell>, start: Cell, goal: Cell) {
    exists p :: ValidPath(walk, p, start, goal)
  }

  /** The walkable cells other than `goal` that `start` reaches: every cell the search can
      close before it closes the goal is one of them. */
  ghost function ReachableOthers(walk: set<Cell>, start: Cell, goal: Cell): set<Cell> {
    set c | c in walk && c != goal && Reachable(walk, start, c)
  }

  /** The search is bound to find a path: both ends are walkable, the goal is reachable, and
      the expansion budget covers every other cell the start reaches. */
  ghost predicate Findable(walk: set<Cell>, start: Cell, goal: Cell, maxExpand: int) {
    start in walk && goal in walk && Reachable(walk, start, goal)
    && |ReachableOthers(walk, start, goal)| <= maxExpand
  }

  lemma {:induction false} SubsetCard<T>(a: set<T>, b: set<T>)
    requires a <= b
    ensures |a| <= |b|
    decreases a
  {
    if a != {} {
      var x :| x in a;
      SubsetCard(a - {x}, b - {x});
    }
  }

  function Reverse<T>(s: seq<T>): (r: seq<T>)
    ensures |r| == |s|
    ensures forall i :: 0 <= i < |s| ==> r[i] == s[|s| - 1 - i]
    decreases |s|
  {
    if s == [] then [] else Reverse(s[1..]) + [s[0]]
  }

  /** The heuristic is the octile metric: symmetric, 10·max + 4·min of the axis distances,
      and zero exactly on the same cell. */
  lemma HeuristicProperties(a: Cell, b: Cell)
    ensures Heuristic(a, b) == Heuristic(b, a)
    ensures Heuristic(a, b) == 10 * Max(Abs(a.x - b.x), Abs(a.y - b.y)) + 4 * Min(Abs(a.x - b.x), Abs(a.y - b.y))
    ensures Heuristic(a, b) == 0 <==> a == b
    ensures Heuristic(a, b) >= 10 * Chebyshev(a, b)
  {
  }

  /** 10·max(u, v) + 4·min(u, v), the octile distance of axis distances u and v. */
  function Octile(u: nat, v: nat): nat {
    10 * Max(u, v) + 4 * Min(u, v)
  }

  lemma OctileStep(u: nat, v: nat, u2: nat, v2: nat)
    requires -1 <= u - u2 <= 1 && -1 <= v - v2 <= 1
    ensures v == v2 ==> Octile(u, v) <= 10 + Octile(u2, v2)
    ensures u == u2 ==> Octile(u, v) <= 10 + Octile(u2, v2)
    ensures Octile(u, v) <= 14 + Octile(u2, v2)
  {
  }

  /** One move changes the heuristic by no more than the move's cost. */
  lemma HeuristicStep(a: Cell, b: Cell, g: Cell)
    requires Adjacent(a, b)
    ensures Heuristic(a, g) <= StepCost(a, b) + Heuristic(b, g)
  {
    HeuristicProperties(a, g);
    HeuristicProperties(b, g);
    var u: int, v: int := Abs(a.x - g.x), Abs(a.y - g.y);
    var u2: int, v2: int := Abs(b.x - g.x), Abs(b.y - g.y);
    assert Heuristic(a, g) == Octile(u, v) && Heuristic(b, g) == Octile(u2, v2);
    assert -1 <= u - u2 <= 1 && -1 <= v - v2 <= 1;
    OctileStep(u, v, u2, v2);
  }

  /** The heuristic never overestimates: it is a lower bound on the cost of every
      8-connected path to the goal. */
  lemma {:induction false} HeuristicAdmissible(p: seq<Cell>, g: Cell)
    requires |p| > 0 && p[|p| - 1] == g
    requires forall i :: 0 <= i < |p| - 1 ==> Adjacent(p[i], p[i + 1])
    ensures Heuristic(p[0], g) <= PathCost(p)
    decreases |p|
  {
    if |p| > 1 {
      HeuristicAdmissible(p[1..], g);
      HeuristicStep(p[0], p[1], g);
    }
  }

  /** An 8-connected path needs at least Chebyshev-distance many moves. */
  lemma {:induction false} ChebyshevBound(p: seq<Cell>)
    requires |p| > 0
    requires forall i :: 0 <= i < |p| - 1 ==> Adjacent(p[i], p[i + 1])
    ensures Chebyshev(p[0], p[|p| - 1]) <= |p| - 1
    decreases |p|
  {
    if |p| > 1 {
      ChebyshevBound(p[1..]);
    }
  }

  /** A duplicate-free sequence drawn from `s` is no longer than `s` has elements. */
  lemma {:induction false} DistinctWithin<T>(p: seq<T>, s: set<T>)
    requires Distinct(p)
    requires forall i :: 0 <= i < |p| ==> p[i] in s
    ensures |p| <= |s|
    decreases |p|
  {
    if |p| > 0 {
      var rest := s - {p[0]};
      forall i | 0 <= i < |p| - 1
        ensures p[1..][i] in rest
      {
        assert p[1..][i] == p[i + 1] != p[0];
      }
      DistinctWithin(p[1..], rest);
    }
  }

  /** Reversing a goal-to-start chain of legal backward moves gives a valid start-to-goal path. */
  lemma ReversedChain(walk: set<Cell>, rev: seq<Cell>)
    requires |rev| > 0 && Distinct(rev)
    requires forall i :: 0 <= i < |rev| ==> rev[i] in walk
    requires forall i :: 0 <= i < |rev| - 1 ==> LegalStep(walk, rev[i + 1], rev[i])
    ensures ValidPath(walk, Reverse(rev), rev[|rev| - 1], rev[0]) && Distinct(Reverse(rev))
    ensures forall i :: 0 <= i < |rev| ==> Reverse(rev)[i] in multiset(rev)
  {
    var path := Reverse(rev);
    forall i | 0 <= i < |path| - 1
      ensures LegalStep(walk, path[i], path[i + 1])
    {
      assert path[i] == rev[|rev| - 1 - i] && path[i + 1] == rev[|rev| - 2 - i];
    }
  }

  /** A chain followed back from `goal` over closed cells: each step is a legal backward move,
      no cell repeats, and the cell reached last has the lowest closing rank. */
  ghost predicate BackChain(walk: set<Cell>, closed: set<Cell>, rank: map<Cell, nat>, goal: Cell, rev: seq<Cell>) {
    |rev| > 0 && rev[0] == goal && rev[|rev| - 1] in rank
    && (forall i :: 0 <= i < |rev| ==> rev[i] in closed && rev[i] in rank && rank[rev[|rev| - 1]] <= rank[rev[i]])
    && (forall i :: 0 <= i < |rev| - 1 ==> LegalStep(walk, rev[i + 1], rev[i]))
    && Distinct(rev)
  }

  /** Following the parent link of the last cell extends the chain. */
  lemma ExtendBackChain(walk: set<Cell>, closed: set<Cell>, cameFrom: map<Cell, Cell>, rank: map<Cell, nat>,
                        goal: Cell, rev: seq<Cell>)
    requires BackChain(walk, closed, rank, goal, rev) && rev[|rev| - 1] in cameFrom
    requires forall c :: c in cameFrom ==> cameFrom[c] in closed && LegalStep(walk, cameFrom[c], c)
    requires Ranked(closed, cameFrom, rank)
    ensures BackChain(walk, closed, rank, goal, rev + [cameFrom[rev[|rev| - 1]]])
    ensures rank[cameFrom[rev[|rev| - 1]]] < rank[rev[|rev| - 1]]
  {
    var p := cameFrom[rev[|rev| - 1]];
    var next := rev + [p];
    forall i | 0 <= i < |next|
      ensures next[i] in closed && next[i] in rank && rank[p] <= rank[next[i]]
    {
      if i < |rev| {
        assert next[i] == rev[i];
      }
    }
    forall i | 0 <= i < |next| - 1
      ensures LegalStep(walk, next[i + 1], next[i])
    {
      if i < |rev| - 1 {
        assert next[i] == rev[i] && next[i + 1] == rev[i + 1];
      }
    }
  }

  /** The open list: every queued entry is for a walkable cell that is in the open set, not
      closed and has a g-score, and no cell is queued twice. */
  ghost predicate OpenEntries(walk: set<Cell>, entries: multiset<(Cell, int)>, openSet: set<Cell>,
                              closed: set<Cell>, gScore: map<Cell, int>)
  {
    (forall e :: e in entries ==> e.0 in openSet && e.0 !in closed && e.0 in gScore && e.0 in walk)
    && (forall e :: entries[e] <= 1)
    && (forall e1, e2 :: e1 in entries && e2 in entries && e1.0 == e2.0 ==> e1 == e2)
  }

  /** The search tree: every scored cell but the start has a parent, every parent is closed,
      and every parent-to-child move is legal. */
  ghost predicate SearchTree(walk: set<Cell>, start: Cell, closed: set<Cell>,
                             cameFrom: map<Cell, Cell>, gScore: map<Cell, int>)
  {
    start in gScore && closed <= gScore.Keys && cameFrom.Keys <= gScore.Keys
    && (forall c :: c in gScore && c != start ==> c in cameFrom)
    && (forall c :: c in cameFrom ==> c != start && cameFrom[c] in closed && LegalStep(walk, cameFrom[c], c))
  }

  /** The move from the closed cell `current` to `next` is legal, `next` is not closed, and
      it improves on any g-score `next` already has. */
  ghost predicate Improves(walk: set<Cell>, closed: set<Cell>, gScore: map<Cell, int>, current: Cell, next: Cell)
    requires current in gScore
  {
    LegalStep(walk, current, next) && next !in closed
    && (next in gScore ==> gScore[current] + StepCost(current, next) < gScore[next])
  }

  /** An improving move only touches the non-closed neighbour it improves, and only lowers
      its score. */
  lemma UpdateKeepsClosed(closed: set<Cell>, cameFrom: map<Cell, Cell>, gScore: map<Cell, int>, current: Cell, next: Cell, g: int)
    requires next !in closed && (next in gScore ==> g < gScore[next])
    ensures forall c :: c in closed ==> (c in cameFrom[next := current] <==> c in cameFrom) && (c in cameFrom ==> cameFrom[next := current][c] == cameFrom[c])
    ensures forall c :: c in gScore ==> c in gScore[next := g] && gScore[next := g][c] <= gScore[c]
  {
  }

  /** An improving move keeps the search tree well formed: the neighbour gets the closed
      cell as its parent and the lower score. */
  lemma RelaxTree(walk: set<Cell>, start: Cell, closed: set<Cell>, cameFrom: map<Cell, Cell>, gScore: map<Cell, int>,
                  current: Cell, next: Cell)
    requires current in closed && start in closed && current in gScore
    requires SearchTree(walk, start, closed, cameFrom, gScore)
    requires Improves(walk, closed, gScore, current, next)
    ensures SearchTree(walk, start, closed, cameFrom[next := current], gScore[next := gScore[current] + StepCost(current, next)])
  {
  }

  /** Rescoring a neighbour keeps the open list well formed, whether it is queued afresh (when
      not yet open) or left where it is (when already open). */
  lemma RelaxOpen(walk: set<Cell>, closed: set<Cell>, entries: multiset<(Cell, int)>, openSet: set<Cell>,
                  gScore: map<Cell, int>, next: Cell, g: int, f: int)
    requires OpenEntries(walk, entries, openSet, closed, gScore)
    requires next in walk && next !in closed
    ensures next in openSet ==> OpenEntries(walk, entries, openSet + {next}, closed, gScore[next := g])
    ensures next !in openSet ==> OpenEntries(walk, entries + multiset{(next, f)}, openSet + {next}, closed, gScore[next := g])
  {
    if next !in openSet {
      assert forall e :: e in entries ==> e.0 != next;
    }
  }

  /** Open-set bookkeeping: every scored cell is closed or open, and the open list holds one
      entry per open cell. */
  ghost predicate Tracked(entries: multiset<(Cell, int)>, openSet: set<Cell>, closed: set<Cell>, gScore: map<Cell, int>) {
    (forall c :: c in gScore ==> c in closed || c in openSet)
    && |entries| == |openSet|
  }

  /** Every legal move out of a cell of `inner` ends in a closed or an open cell. With `inner`
      the closed set this is the search frontier: nothing is left behind it. */
  ghost predicate Enclosed(walk: set<Cell>, inner: set<Cell>, closed: set<Cell>, openSet: set<Cell>) {
    forall c, n :: c in inner && LegalStep(walk, c, n) ==> n in closed || n in openSet
  }

  /** Every closed cell is reached from the start by following parent links backwards. */
  lemma {:induction false} ClosedReachable(walk: set<Cell>, start: Cell, closed: set<Cell>, cameFrom: map<Cell, Cell>,
                                           rank: map<Cell, nat>, c: Cell)
    requires c in closed && closed <= walk
    requires forall x :: x in closed && x !in cameFrom ==> x == start
    requires forall x :: x in cameFrom ==> cameFrom[x] in closed && LegalStep(walk, cameFrom[x], x)
    requires Ranked(closed, cameFrom, rank)
    ensures Reachable(walk, start, c)
    decreases rank[c]
  {
    if c in cameFrom {
      var p := cameFrom[c];
      ClosedReachable(walk, start, closed, cameFrom, rank, p);
      var q :| ValidPath(walk, q, start, p);
      var q2 := q + [c];
      forall i | 0 <= i < |q2| - 1
        ensures LegalStep(walk, q2[i], q2[i + 1])
      {
        if i < |q| - 1 {
          assert q2[i] == q[i] && q2[i + 1] == q[i + 1];
        }
      }
      assert ValidPath(walk, q2, start, c);
    } else {
      assert ValidPath(walk, [start], start, c);
    }
  }

  /** A search that has closed more than maxExpand cells other than the goal has seen more
      than maxExpand reachable cells other than the goal. */
  lemma SpentBudget(walk: set<Cell>, start: Cell, goal: Cell, closed: set<Cell>, cameFrom: map<Cell, Cell>,
                    gScore: map<Cell, int>, rank: map<Cell, nat>)
    requires SearchTree(walk, start, closed, cameFrom, gScore) && Ranked(closed, cameFrom, rank)
    requires closed <= walk && goal !in closed
    ensures |closed| <= |ReachableOthers(walk, start, goal)|
  {
    forall c | c in closed
      ensures c in ReachableOthers(walk, start, goal)
    {
      ClosedReachable(walk, start, closed, cameFrom, rank, c);
    }
    SubsetCard(closed, ReachableOthers(walk, start, goal));
  }

  /** A walk that starts inside a set no legal move leaves stays inside it. */
  lemma {:induction false} StaysInside(walk: set<Cell>, closed: set<Cell>, p: seq<Cell>, i: nat)
    requires |p| > 0 && p[0] in closed && i < |p|
    requires forall k :: 0 <= k < |p| - 1 ==> LegalStep(walk, p[k], p[k + 1])
    requires Enclosed(walk, closed, closed, {})
    ensures p[i] in closed
    decreases i
  {
    if i > 0 {
      StaysInside(walk, closed, p, i - 1);
      assert LegalStep(walk, p[i - 1], p[i]);
    }
  }

  /** Once nothing is open, every cell the start reaches has been closed. */
  lemma EnclosedReach(walk: set<Cell>, start: Cell, closed: set<Cell>)
    requires start in closed && Enclosed(walk, closed, closed, {})
    ensures forall g :: Reachable(walk, start, g) ==> g in closed
  {
    forall g | Reachable(walk, start, g)
      ensures g in closed
    {
      var p :| ValidPath(walk, p, start, g);
      StaysInside(walk, closed, p, |p| - 1);
    }
  }

  /** The legal moves out of `current` by the first k offsets end in a closed or open cell. */
  ghost predicate CoveredDirs(walk: set<Cell>, current: Cell, k: int, closed: set<Cell>, openSet: set<Cell>) {
    forall j :: 0 <= j < k && j < |Dirs8| ==> (LegalStep(walk, current, Offset(current, Dirs8[j].0, Dirs8[j].1)) ==>
      Offset(current, Dirs8[j].0, Dirs8[j].1) in closed || Offset(current, Dirs8[j].0, Dirs8[j].1) in openSet)
  }

  /** Relaxing offset k covers it, and growing the open set keeps what was covered before. */
  lemma CoverStep(walk: set<Cell>, inner: set<Cell>, current: Cell, k: int, closed: set<Cell>,
                  openSet0: set<Cell>, openSet: set<Cell>)
    requires 0 <= k < |Dirs8| && openSet0 <= openSet
    requires CoveredDirs(walk, current, k, closed, openSet0) && Enclosed(walk, inner, closed, openSet0)
    requires LegalStep(walk, current, Offset(current, Dirs8[k].0, Dirs8[k].1)) ==>
               Offset(current, Dirs8[k].0, Dirs8[k].1) in closed || Offset(current, Dirs8[k].0, Dirs8[k].1) in openSet
    ensures CoveredDirs(walk, current, k + 1, closed, openSet) && Enclosed(walk, inner, closed, openSet)
  {
  }

  /** After the eight moves out of `current` have each ended in a closed or open cell, every
      legal move out of it has. */
  lemma EncloseCurrent(walk: set<Cell>, inner: set<Cell>, current: Cell, closed: set<Cell>, openSet: set<Cell>)
    requires Enclosed(walk, inner, closed, openSet)
    requires CoveredDirs(walk, current, |Dirs8|, closed, openSet)
    ensures Enclosed(walk, inner + {current}, closed, openSet)
  {
    forall n | LegalStep(walk, current, n)
      ensures n in closed || n in openSet
    {
      AdjacentIsADir(current, n);
      var j :| 0 <= j < |Dirs8| && n == Offset(current, Dirs8[j].0, Dirs8[j].1);
    }
  }

  /** How one iteration of the search loop ends. */
  datatype Outcome = Searching | Found(path: seq<Cell>) | Exhausted

  /** Everything the search loop keeps true between iterations. */
  ghost predicate SearchState(walk: set<Cell>, start: Cell, goal: Cell, startF: int, maxExpand: int,
                              entries: multiset<(Cell, int)>, openSet: set<Cell>, closed: set<Cell>,
                              cameFrom: map<Cell, Cell>, gScore: map<Cell, int>, rank: map<Cell, nat>, expandCount: nat)
  {
    start in walk && goal in walk
    && OpenEntries(walk, entries, openSet, closed, gScore)
    && SearchTree(walk, start, closed, cameFrom, gScore)
    && Ranked(closed, cameFrom, rank)
    && closed <= walk
    && (closed == {} ==> entries == multiset{(start, startF)} && cameFrom == map[])
    && (closed != {} ==> start in closed)
    && goal !in closed
    && |closed| == expandCount <= Max(0, maxExpand)
    && Tracked(entries, openSet, closed, gScore)
    && Enclosed(walk, closed, closed, openSet)
  }

  /** What a successful search promises about its path. */
  ghost predicate FoundPath(walk: set<Cell>, path: seq<Cell>, start: Cell, goal: Cell, maxExpand: int) {
    ValidPath(walk, path, start, goal) && Distinct(path)
    && |path| <= Max(0, maxExpand) + 1
    && Chebyshev(start, goal) <= Max(0, maxExpand)
    && Heuristic(start, goal) <= PathCost(path)
  }

  /** The state before the first iteration: only the start is scored and queued. */
  lemma InitialState(walk: set<Cell>, start: Cell, goal: Cell, startF: int, maxExpand: int, entries: multiset<(Cell, int)>)
    requires start in walk && goal in walk && entries == multiset{(start, startF)}
    ensures SearchState(walk, start, goal, startF, maxExpand, entries, {start}, {}, map[], map[start := 0], map[], 0)
  {
  }

  /** The state after relaxing the neighbours of a newly closed non-goal cell: expanding
      changed no closed cell's parent, so the closing ranks still order the tree. */
  lemma ExpandedState(walk: set<Cell>, start: Cell, goal: Cell, startF: int, maxExpand: int,
                      entries: multiset<(Cell, int)>, openSet: set<Cell>, closed: set<Cell>,
                      cameFrom0: map<Cell, Cell>, cameFrom: map<Cell, Cell>, gScore: map<Cell, int>,
                      rank: map<Cell, nat>, expandCount: nat)
    requires start in walk && goal in walk && closed <= walk
    requires start in closed && goal !in closed && |closed| == expandCount <= Max(0, maxExpand)
    requires OpenEntries(walk, entries, openSet, closed, gScore)
    requires SearchTree(walk, start, closed, cameFrom, gScore)
    requires Ranked(closed, cameFrom0, rank)
    requires forall c :: c in closed ==> (c in cameFrom <==> c in cameFrom0) && (c in cameFrom0 ==> cameFrom[c] == cameFrom0[c])
    requires Tracked(entries, openSet, closed, gScore) && Enclosed(walk, closed, closed, openSet)
    ensures SearchState(walk, start, goal, startF, maxExpand, entries, openSet, closed, cameFrom, gScore, rank, expandCount)
  {
  }

  /** Once the open list is empty the start has been closed, so it is not the goal, and the
      open set is empty too. */
  lemma StateStartClosed(walk: set<Cell>, start: Cell, goal: Cell, startF: int, maxExpand: int,
                         entries: multiset<(Cell, int)>, openSet: set<Cell>, closed: set<Cell>,
                         cameFrom: map<Cell, Cell>, gScore: map<Cell, int>, rank: map<Cell, nat>, expandCount: nat)
    requires SearchState(walk, start, goal, startF, maxExpand, entries, openSet, closed, cameFrom, gScore, rank, expandCount)
    requires |entries| == 0
    ensures start in walk && start != goal && start in closed && openSet == {}
  {
    if closed == {} {
      assert false;
    }
  }

  /** Dequeuing the entry `top` and closing its cell keeps the open list well formed: no
      other entry is for the same cell. */
  lemma CloseEntry(walk: set<Cell>, entries: multiset<(Cell, int)>, rest: multiset<(Cell, int)>,
                   top: (Cell, int), openSet: set<Cell>, closed: set<Cell>, gScore: map<Cell, int>)
    requires OpenEntries(walk, entries, openSet, closed, gScore)
    requires top in entries && rest == entries - multiset{top}
    ensures top.0 !in closed && top.0 in walk
    ensures OpenEntries(walk, rest, openSet - {top.0}, closed + {top.0}, gScore)
  {
    var c := top.0;
    assert rest[top] == 0;
    forall e | e in rest
      ensures e.0 != c
    {
      assert e in entries;
    }
  }

  /** Moving the cell of the dequeued entry `top` from the open set to the closed set keeps the
      bookkeeping, and every move out of a cell closed before still ends in a closed or open
      cell. */
  /** Scoring `next` keeps every scored cell closed or open, whether it was already open or
      is queued now. */
  lemma RelaxTracked(entries: multiset<(Cell, int)>, openSet: set<Cell>, closed: set<Cell>, gScore: map<Cell, int>,
                     next: Cell, g: int, f: int)
    requires Tracked(entries, openSet, closed, gScore)
    ensures next in openSet ==> Tracked(entries, openSet, closed, gScore[next := g])
    ensures next !in openSet ==> Tracked(entries + multiset{(next, f)}, openSet + {next}, closed, gScore[next := g])
  {
  }

  /** A legal move that does not improve its neighbour leads to a cell already scored, so
      to a closed or an open one. */
  lemma NotImproved(walk: set<Cell>, entries: multiset<(Cell, int)>, openSet: set<Cell>, closed: set<Cell>,
                    gScore: map<Cell, int>, current: Cell, next: Cell)
    requires current in gScore && Tracked(entries, openSet, closed, gScore)
    requires !Improves(walk, closed, gScore, current, next)
    ensures LegalStep(walk, current, next) ==> next in closed || next in openSet
  {
  }

  lemma CloseTracked(walk: set<Cell>, entries: multiset<(Cell, int)>, rest: multiset<(Cell, int)>,
                     top: (Cell, int), openSet: set<Cell>, closed: set<Cell>, gScore: map<Cell, int>)
    requires top in entries && rest == entries - multiset{top} && top.0 in openSet
    requires Tracked(entries, openSet, closed, gScore) && Enclosed(walk, closed, closed, openSet)
    ensures Tracked(rest, openSet - {top.0}, closed + {top.0}, gScore)
    ensures Enclosed(walk, closed, closed + {top.0}, openSet - {top.0})
  {
    assert entries == rest + multiset{top};
    assert openSet == (openSet - {top.0}) + {top.0};
  }

  /** Closing the cell of the dequeued root entry `top` keeps the search well formed: the
      cell was not closed before, so closing it shrinks the set of walkable cells left open. */
  lemma CloseStep(walk: set<Cell>, start: Cell, startF: int, entries: multiset<(Cell, int)>, rest: multiset<(Cell, int)>,
                  top: (Cell, int), openSet: set<Cell>, closed: set<Cell>, cameFrom: map<Cell, Cell>,
                  gScore: map<Cell, int>, rank: map<Cell, nat>)
    requires OpenEntries(walk, entries, openSet, closed, gScore)
    requires SearchTree(walk, start, closed, cameFrom, gScore)
    requires Ranked(closed, cameFrom, rank)
    requires closed <= walk
    requires closed == {} ==> entries == multiset{(start, startF)} && cameFrom == map[]
    requires closed != {} ==> start in closed
    requires top in entries && rest == entries - multiset{top}
    ensures top.0 !in closed && top.0 in walk
    ensures closed == {} ==> top.0 == start
    ensures OpenEntries(walk, rest, openSet - {top.0}, closed + {top.0}, gScore)
    ensures SearchTree(walk, start, closed + {top.0}, cameFrom, gScore)
    ensures Ranked(closed + {top.0}, cameFrom, rank[top.0 := |closed|])
    ensures start in closed + {top.0}
    ensures |walk - (closed + {top.0})| < |walk - closed|
  {
    CloseEntry(walk, entries, rest, top, openSet, closed, gScore);
    CloseTree(walk, start, closed, cameFrom, gScore, top.0);
    CloseRanked(closed, cameFrom, rank, top.0);
    ShrinkOpen(walk, closed, top.0);
  }

  /** Closing a scored cell keeps the search tree well formed. */
  lemma CloseTree(walk: set<Cell>, start: Cell, closed: set<Cell>, cameFrom: map<Cell, Cell>, gScore: map<Cell, int>, c: Cell)
    requires SearchTree(walk, start, closed, cameFrom, gScore) && c in gScore
    ensures SearchTree(walk, start, closed + {c}, cameFrom, gScore)
  {
  }

  /** A newly closed cell takes the next rank, above that of its (already closed) parent. */
  lemma CloseRanked(closed: set<Cell>, cameFrom: map<Cell, Cell>, rank: map<Cell, nat>, c: Cell)
    requires Ranked(closed, cameFrom, rank) && c !in closed
    requires forall x :: x in cameFrom ==> cameFrom[x] in closed
    ensures Ranked(closed + {c}, cameFrom, rank[c := |closed|])
  {
    assert |closed + {c}| == |closed| + 1;
  }

  /** Closing a walkable cell that was open shrinks the walkable cells not yet closed. */
  lemma ShrinkOpen(walk: set<Cell>, closed: set<Cell>, c: Cell)
    requires c in walk && c !in closed
    ensures |walk - (closed + {c})| < |walk - closed|
  {
    assert walk - (closed + {c}) == (walk - closed) - {c};
  }

  /** A duplicate-free path over closed cells is bounded by the number closed, by its own
      length in Chebyshev distance and by its cost in heuristic distance. */
  lemma PathBounds(walk: set<Cell>, path: seq<Cell>, start: Cell, goal: Cell, closed: set<Cell>)
    requires ValidPath(walk, path, start, goal) && Distinct(path)
    requires forall i :: 0 <= i < |path| ==> path[i] in closed
    ensures |path| <= |closed|
    ensures Chebyshev(start, goal) <= |path| - 1
    ensures Heuristic(start, goal) <= PathCost(path)
  {
    DistinctWithin(path, closed);
    ChebyshevBound(path);
    HeuristicAdmissible(path, goal);
  }

  /** `after` is `before` with `c` queued at priority g + h. */
  ghost predicate Queued(before: multiset<(Cell, int)>, after: multiset<(Cell, int)>, c: Cell, g: int, goal: Cell) {
    after == before + multiset{(c, FScore(g, c, goal))}
  }

  /** Closing order: a closed cell's parent was closed before it. */
  ghost predicate Ranked(closed: set<Cell>, cameFrom: map<Cell, Cell>, rank: map<Cell, nat>) {
    rank.Keys == closed
    && (forall c :: c in closed ==> rank[c] < |closed|)
    && (forall c :: c in closed && c in cameFrom ==> cameFrom[c] in rank && rank[cameFrom[c]] < rank[c])
  }

  class AStar {
    const grid: PathGrid

    constructor (grid: PathGrid)
      ensures this.grid == grid
    {
      this.grid := grid;
    }

    /** Searches from `start` to `goal`, closing at most `maxExpand` cells other than the goal.
        The C# method fills a caller-supplied list; here the path is returned. A failed search
        means the goal is unreachable or the budget is smaller than what the start reaches. */
    method TryFindPath(start: Cell, goal: Cell, maxExpand: int) returns (found: bool, path: seq<Cell>)
      requires grid.Valid()
      ensures !found ==> path == []
      ensures !grid.IsWalkable(start) || !grid.IsWalkable(goal) ==> !found
      ensures start == goal && grid.IsWalkable(start) ==> found && path == [start]
      ensures Findable(grid.cells, start, goal, maxExpand) ==> found
      ensures found ==> ValidPath(grid.cells, path, start, goal) && Distinct(path)
      ensures found ==> |path| <= Max(0, maxExpand) + 1
      ensures found ==> Chebyshev(start, goal) <= Max(0, maxExpand)
      ensures found ==> Heuristic(start, goal) <= PathCost(path)
    {
      found, path := false, [];
      if !grid.IsWalkable(start) || !grid.IsWalkable(goal) {
        return;
      }
      ghost var walk := grid.cells;
      var open := new MinHeap<Cell>();
      var openSet: set<Cell> := {};
      var closed: set<Cell> := {};
      var cameFrom: map<Cell, Cell> := map[];
      var gScore: map<Cell, int> := map[];
      ghost var rank: map<Cell, nat> := map[];

      gScore := gScore[start := 0];
      var startF := Heuristic(start, goal);
      open.Enqueue(start, startF);
      openSet := openSet + {start};
      var expandCount := 0;
      InitialState(walk, start, goal, startF, maxExpand, open.Elems());

      while open.Count() > 0
        invariant open.Valid() && walk == grid.cells
        invariant SearchState(walk, start, goal, startF, maxExpand, open.Elems(), openSet, closed, cameFrom, gScore, rank, expandCount)
        decreases |walk - closed|
      {
        ghost var closed0 := closed;
        var outcome, current;
        ghost var priority;
        outcome, current, openSet, closed, cameFrom, gScore, rank, expandCount, priority :=
          SearchStep(open, start, goal, startF, maxExpand, walk, openSet, closed, cameFrom, gScore, rank, expandCount);
        match outcome {
          case Searching =>
          case Found(p) =>
            found, path := true, p;
            return;
          case Exhausted =>
            return;
        }
      }
      StateStartClosed(walk, start, goal, startF, maxExpand, open.Elems(), openSet, closed, cameFrom, gScore, rank, expandCount);
      EnclosedReach(walk, start, closed);
    }

    /** One iteration of the search loop: dequeue an entry of least priority and close its
        cell; stop with the path if it is the goal, stop with nothing once more than
        `maxExpand` non-goal cells are closed, and otherwise relax its neighbours. */
    method SearchStep(open: MinHeap<Cell>, start: Cell, goal: Cell, ghost startF: int, maxExpand: int,
                      ghost walk: set<Cell>, openSet0: set<Cell>, closed0: set<Cell>, cameFrom0: map<Cell, Cell>,
                      gScore0: map<Cell, int>, ghost rank0: map<Cell, nat>, expandCount0: nat)
      returns (outcome: Outcome, current: Cell, openSet: set<Cell>, closed: set<Cell>, cameFrom: map<Cell, Cell>,
               gScore: map<Cell, int>, ghost rank: map<Cell, nat>, expandCount: nat, ghost priority: int)
      requires grid.Valid() && walk == grid.cells && open.Valid() && open.Count() > 0
      requires SearchState(walk, start, goal, startF, maxExpand, open.Elems(), openSet0, closed0, cameFrom0, gScore0, rank0, expandCount0)
      modifies open
      ensures open.Valid()
      ensures (current, priority) in old(open.Elems()) && forall e :: e in old(open.Elems()) ==> priority <= e.1
      ensures current !in closed0 && closed == closed0 + {current}
      ensures outcome.Found? <==> current == goal
      ensures outcome.Exhausted? <==> current != goal && expandCount0 + 1 > maxExpand
      ensures outcome.Searching? ==>
                SearchState(walk, start, goal, startF, maxExpand, open.Elems(), openSet, closed, cameFrom, gScore, rank, expandCount)
                && |walk - closed| < |walk - closed0|
      ensures outcome.Found? ==> FoundPath(walk, outcome.path, start, goal, maxExpand)
      ensures outcome.Found? && start == goal ==> outcome.path == [start]
      ensures outcome.Exhausted? ==> start != goal && maxExpand < |closed| <= |ReachableOthers(walk, start, goal)|
    {
      ghost var entries := open.Elems();
      ghost var top;
      current, top := PopCheapest(open);
      priority := top.1;
      openSet := openSet0 - {current};
      // Lines 66-69 of the C# skip a cell already closed. Each cell is queued at most once
      // and never after it is closed, so that skip is never taken.
      CloseStep(walk, start, startF, entries, open.Elems(), top, openSet0, closed0, cameFrom0, gScore0, rank0);
      CloseTracked(walk, entries, open.Elems(), top, openSet0, closed0, gScore0);
      assert current !in closed0;
      rank := rank0[current := |closed0|];
      closed := closed0 + {current};
      cameFrom, gScore, expandCount := cameFrom0, gScore0, expandCount0;

      if current == goal {
        var path := ReconstructPath(cameFrom, current, start, walk, closed, rank);
        PathBounds(walk, path, start, goal, closed);
        outcome := Found(path);
        return;
      }

      expandCount := expandCount + 1;
      if expandCount > maxExpand {
        SpentBudget(walk, start, goal, closed, cameFrom, gScore, rank);
        outcome := Exhausted;
        return;
      }

      openSet, cameFrom, gScore := Expand(open, current, goal, start, walk, closed0, closed, openSet, cameFrom, gScore);
      ExpandedState(walk, start, goal, startF, maxExpand, open.Elems(), openSet, closed, cameFrom0, cameFrom, gScore, rank, expandCount);
      outcome := Searching;
    }

    /** Dequeues the root: an entry whose priority is minimal over the whole open list. */
    method PopCheapest(open: MinHeap<Cell>) returns (current: Cell, ghost top: (Cell, int))
      requires open.Valid() && open.Count() > 0
      modifies open
      ensures open.Valid() && current == top.0
      ensures top in old(open.Elems()) && open.Elems() == old(open.Elems()) - multiset{top}
      ensures forall e :: e in old(open.Elems()) ==> top.1 <= e.1
    {
      ghost var entries := open.Elems();
      top := open.heap[0];
      current := open.Dequeue();
      forall e | e in entries
        ensures top.1 <= e.1
      {
        if e != top {
          assert e in open.Elems();
        }
      }
    }

    /** Follows the parent links back from `goal` and reverses them into a start-to-goal path. */
    method ReconstructPath(cameFrom: map<Cell, Cell>, goal: Cell, ghost start: Cell, ghost walk: set<Cell>,
                           ghost closed: set<Cell>, ghost rank: map<Cell, nat>) returns (path: seq<Cell>)
      requires goal in closed && closed <= walk
      requires forall c :: c in closed && c !in cameFrom ==> c == start
      requires forall c :: c in cameFrom ==> cameFrom[c] in closed && LegalStep(walk, cameFrom[c], c)
      requires Ranked(closed, cameFrom, rank)
      ensures ValidPath(walk, path, start, goal) && Distinct(path)
      ensures forall i :: 0 <= i < |path| ==> path[i] in closed
      ensures goal !in cameFrom ==> path == [goal]
    {
      var current := goal;
      var rev := [current];
      while current in cameFrom
        invariant BackChain(walk, closed, rank, goal, rev) && rev[|rev| - 1] == current
        decreases rank[current]
      {
        ExtendBackChain(walk, closed, cameFrom, rank, goal, rev);
        current := cameFrom[current];
        rev := rev + [current];
      }
      path := Reverse(rev);
      ReversedChain(walk, rev);
    }

    /** Relaxes the eight neighbours of the newly closed cell `current`, in the order of the
        direction table. Afterwards every legal move out of `current`, like every move out of
        the cells `inner` closed before it, ends in a closed or an open cell. */
    method Expand(open: MinHeap<Cell>, current: Cell, goal: Cell, ghost start: Cell, ghost walk: set<Cell>,
                  ghost inner: set<Cell>, closed: set<Cell>, openSet0: set<Cell>, cameFrom0: map<Cell, Cell>,
                  gScore0: map<Cell, int>)
      returns (openSet: set<Cell>, cameFrom: map<Cell, Cell>, gScore: map<Cell, int>)
      requires grid.Valid() && walk == grid.cells && open.Valid()
      requires current in closed && start in closed && current in gScore0 && closed == inner + {current}
      requires OpenEntries(walk, open.Elems(), openSet0, closed, gScore0)
      requires SearchTree(walk, start, closed, cameFrom0, gScore0)
      requires Tracked(open.Elems(), openSet0, closed, gScore0) && Enclosed(walk, inner, closed, openSet0)
      modifies open
      ensures open.Valid()
      ensures OpenEntries(walk, open.Elems(), openSet, closed, gScore)
      ensures SearchTree(walk, start, closed, cameFrom, gScore)
      ensures Tracked(open.Elems(), openSet, closed, gScore) && Enclosed(walk, closed, closed, openSet)
      ensures openSet0 <= openSet
      ensures forall c :: c in closed ==> (c in cameFrom <==> c in cameFrom0) && (c in cameFrom0 ==> cameFrom[c] == cameFrom0[c])
      ensures forall c :: c in gScore0 ==> c in gScore && gScore[c] <= gScore0[c]
    {
      openSet, cameFrom, gScore := openSet0, cameFrom0, gScore0;
      for k := 0 to |Dirs8|
        invariant open.Valid()
        invariant current in gScore
        invariant OpenEntries(walk, open.Elems(), openSet, closed, gScore)
        invariant SearchTree(walk, start, closed, cameFrom, gScore)
        invariant Tracked(open.Elems(), openSet, closed, gScore) && Enclosed(walk, inner, closed, openSet)
        invariant openSet0 <= openSet
        invariant CoveredDirs(walk, current, k, closed, openSet)
        invariant forall c :: c in closed ==> (c in cameFrom <==> c in cameFrom0) && (c in cameFrom0 ==> cameFrom[c] == cameFrom0[c])
        invariant forall c :: c in gScore0 ==> c in gScore && gScore[c] <= gScore0[c]
      {
        Dirs8AreAdjacent(current, k);
        ghost var openSet1 := openSet;
        openSet, cameFrom, gScore := Relax(open, current, Dirs8[k].0, Dirs8[k].1, goal, start, walk, closed, openSet, cameFrom, gScore);
        CoverStep(walk, inner, current, k, closed, openSet1, openSet);
      }
      EncloseCurrent(walk, inner, current, closed, openSet);
    }

    /** Tries the move from `current` by (dx, dy): skipped when it cuts a blocked corner, lands
        on a blocked or closed cell, or does not improve the neighbour's g-score. Otherwise the
        neighbour gets `current` as parent and the lower score, and is queued unless it is
        already in the open set (its queued priority is then left as it was). Either way a
        legal move ends in a closed or an open cell. */
    method Relax(open: MinHeap<Cell>, current: Cell, dx: int, dy: int, goal: Cell, ghost start: Cell, ghost walk: set<Cell>,
                 closed: set<Cell>, openSet0: set<Cell>, cameFrom0: map<Cell, Cell>, gScore0: map<Cell, int>)
      returns (openSet: set<Cell>, cameFrom: map<Cell, Cell>, gScore: map<Cell, int>)
      requires grid.Valid() && walk == grid.cells && open.Valid()
      requires Adjacent(current, Offset(current, dx, dy))
      requires current in closed && start in closed && current in gScore0
      requires OpenEntries(walk, open.Elems(), openSet0, closed, gScore0)
      requires SearchTree(walk, start, closed, cameFrom0, gScore0)
      requires Tracked(open.Elems(), openSet0, closed, gScore0)
      modifies open
      ensures open.Valid()
      ensures OpenEntries(walk, open.Elems(), openSet, closed, gScore)
      ensures SearchTree(walk, start, closed, cameFrom, gScore)
      ensures Tracked(open.Elems(), openSet, closed, gScore)
      ensures LegalStep(walk, current, Offset(current, dx, dy)) ==>
                Offset(current, dx, dy) in closed || Offset(current, dx, dy) in openSet
      ensures forall c :: c in closed ==> (c in cameFrom <==> c in cameFrom0) && (c in cameFrom0 ==> cameFrom[c] == cameFrom0[c])
      ensures forall c :: c in gScore0 ==> c in gScore && gScore[c] <= gScore0[c]
      ensures !Improves(walk, closed, gScore0, current, Offset(current, dx, dy)) ==>
                gScore == gScore0 && cameFrom == cameFrom0 && openSet == openSet0 && open.Elems() == old(open.Elems())
      ensures Improves(walk, closed, gScore0, current, Offset(current, dx, dy)) ==>
                gScore == gScore0[Offset(current, dx, dy) := gScore0[current] + StepCost(current, Offset(current, dx, dy))]
                && cameFrom == cameFrom0[Offset(current, dx, dy) := current]
                && openSet == openSet0 + {Offset(current, dx, dy)}
      ensures Improves(walk, closed, gScore0, current, Offset(current, dx, dy)) && Offset(current, dx, dy) in openSet0 ==>
                open.Elems() == old(open.Elems())
      ensures Improves(walk, closed, gScore0, current, Offset(current, dx, dy)) && Offset(current, dx, dy) !in openSet0 ==>
                Queued(old(open.Elems()), open.Elems(), Offset(current, dx, dy), gScore[Offset(current, dx, dy)], goal)
    {
      openSet, cameFrom, gScore := openSet0, cameFrom0, gScore0;
      ghost var entries := open.Elems();
      var next := Offset(current, dx, dy);
      if MoveImproves(current, dx, dy, closed, gScore) {
        var tentativeG := gScore[current] + (if dx != 0 && dy != 0 then 14 else 10);
        var f := tentativeG + Heuristic(next, goal);
        assert tentativeG == gScore[current] + StepCost(current, next);
        openSet, cameFrom, gScore := Improve(open, current, next, goal, start, walk, closed, openSet, cameFrom, gScore, tentativeG, f);
      } else {
        NotImproved(walk, open.Elems(), openSet, closed, gScore, current, next);
      }
    }

    /** The improving branch of Relax: `next` gets `current` as parent and the score
        `tentativeG`, and is queued with priority `f` unless it is already open. */
    method Improve(open: MinHeap<Cell>, current: Cell, next: Cell, goal: Cell, ghost start: Cell, ghost walk: set<Cell>,
                   closed: set<Cell>, openSet0: set<Cell>, cameFrom0: map<Cell, Cell>, gScore0: map<Cell, int>,
                   tentativeG: int, f: int)
      returns (openSet: set<Cell>, cameFrom: map<Cell, Cell>, gScore: map<Cell, int>)
      requires open.Valid()
      requires current in closed && start in closed && current in gScore0
      requires Improves(walk, closed, gScore0, current, next)
      requires tentativeG == gScore0[current] + StepCost(current, next) && f == tentativeG + Heuristic(next, goal)
      requires OpenEntries(walk, open.Elems(), openSet0, closed, gScore0)
      requires SearchTree(walk, start, closed, cameFrom0, gScore0)
      requires Tracked(open.Elems(), openSet0, closed, gScore0)
      modifies open
      ensures open.Valid()
      ensures OpenEntries(walk, open.Elems(), openSet, closed, gScore)
      ensures SearchTree(walk, start, closed, cameFrom, gScore)
      ensures Tracked(open.Elems(), openSet, closed, gScore)
      ensures gScore == gScore0[next := tentativeG] && cameFrom == cameFrom0[next := current] && openSet == openSet0 + {next}
      ensures forall c :: c in closed ==> (c in cameFrom <==> c in cameFrom0) && (c in cameFrom0 ==> cameFrom[c] == cameFrom0[c])
      ensures forall c :: c in gScore0 ==> c in gScore && gScore[c] <= gScore0[c]
      ensures next in openSet0 ==> open.Elems() == old(open.Elems())
      ensures next !in openSet0 ==> Queued(old(open.Elems()), open.Elems(), next, tentativeG, goal)
    {
      ghost var entries := open.Elems();
      assert f == FScore(tentativeG, next, goal);
      RelaxTree(walk, start, closed, cameFrom0, gScore0, current, next);
      RelaxOpen(walk, closed, entries, openSet0, gScore0, next, tentativeG, f);
      RelaxTracked(entries, openSet0, closed, gScore0, next, tentativeG, f);
      UpdateKeepsClosed(closed, cameFrom0, gScore0, current, next, tentativeG);
      cameFrom := cameFrom0[next := current];
      gScore := gScore0[next := tentativeG];
      if next !in openSet0 {
        open.Enqueue(next, f);
        openSet := openSet0 + {next};
        assert open.Elems() == entries + multiset{(next, f)};
      } else {
        openSet := openSet0;
        assert openSet0 + {next} == openSet0;
      }
    }

    /** The checks of the C# loop body, in its order, each of which `continue`s when it
        fails: the diagonal move must not cut a blocked corner, the neighbour must be walkable
        and not closed, and the tentative score must beat any score it already has. Together
        they say exactly that the move improves the neighbour. */
    predicate MoveImproves(current: Cell, dx: int, dy: int, closed: set<Cell>, gScore: map<Cell, int>)
      requires grid.Valid() && current in gScore && Adjacent(current, Offset(current, dx, dy))
      reads grid, grid.walkable
      ensures MoveImproves(current, dx, dy, closed, gScore) <==> Improves(grid.cells, closed, gScore, current, Offset(current, dx, dy))
    {
      var next := Offset(current, dx, dy);
      var cornerFree := !(dx != 0 && dy != 0) || (grid.IsWalkable(Offset(current, dx, 0)) && grid.IsWalkable(Offset(current, 0, dy)));
      var tentativeG := gScore[current] + (if dx != 0 && dy != 0 then 14 else 10);
      cornerFree && grid.IsWalkable(next) && next !in closed && !(next in gScore && tentativeG >= gScore[next])
    }
  }
}
