# Escape-the-Planet: a verified model of the chase navigation and game bookkeeping

Escape-the-Planet is a Unity multiplayer game. This project models its gameplay core in
Dafny and proves what that code promises.

The main part is the tile-grid navigation of Chaser enemies:

- a walkability grid built once from the ground tilemap (`PathGrid`);
- a binary min-heap (`MinHeap`);
- an 8-connected A* search with an octile heuristic, a corner-cutting guard and an expansion
  budget (`AStar.TryFindPath`);
- the per-enemy follower `ChaserPathChase`. Each fixed tick it corrects the goal cell,
  decides whether to replan, searches for a reachable substitute goal in forced mode, and
  advances along the path one waypoint at a time.

Beside it sit the small pieces of game bookkeeping:

- the five-slot quick inventory and its save array;
- the item and enemy databases (id index and cumulative-weight random choice);
- save-key sanitising and normalising, and save file names;
- enemy HP and state;
- the three no-duplicate registries;
- spectator target cycling;
- the room's day-state machine and repair gauge;
- Photon player-property decoders;
- the lobby room cache;
- chat message normalisation and display.

## How the model is built

Every source class whose fields change becomes a Dafny `class` with those fields. Its
methods carry `modifies` clauses, and their ensures say, for each field, what it holds
afterwards or that it is unchanged. There are two exceptions, where the new value is known
only by its properties:

- The priority queue's `heap` field is stated by its contents (a multiset), with the heap
  order kept, and not as one array layout.
- The path a chaser replan stores is stated by what the search promises: a valid path to
  the goal, or in forced mode to a substitute goal. It is not given as one value.

Pure helpers become functions, and what the source promises about them is proved as lemmas.

Some inputs come from outside the logic, and the model takes them as parameters:

- Unity's queries: `Tilemap.HasTile`, the `Physics2D.OverlapBox` probe, `WorldToCell`.
- The `Random.Range` rolls.
- `PhotonNetwork.Time` and `IsMasterClient`.
- Whether a waypoint was reached.
- Whether the file write succeeds.

Cells are `Cell(x, y)`, because z is always 0. The repath timer counts fixed ticks
(`RepathTicks`). Ints are unbounded, and reals have exact arithmetic.

One module per source component:

- `Cells`: cells and distances.
- `Grid`: `PathGrid`.
- `Heap`: `MinHeap`.
- `AStarSearch`: A*.
- `ChaserChase`: `ChaserPathChase`.
- `IdIndex` and `Weighted`: the dictionary build and cumulative-weight pick that both
  databases share.
- `Items` and `Enemies`: the two databases.
- `QuickSlots`, `SaveKeys`, `EnemyModels`, `EnemyStates`, `Registries`, `Spectator`,
  `DayCycle`, `PlayerStates`, `Lobby` and `Chat`: the bookkeeping components.
- `Text` and `Wrappers`: .NET string helpers, and `Option` for null.

Points where the code behaves in a way worth knowing. All of them follow from the code as
written, and the model keeps them:

- A* never re-enqueues a cell already in the open set when its cost improves. Found paths are
  therefore proved *valid*, not shortest. The stale-entry skip in the search loop is proved
  unreachable: every popped cell is open and not yet closed.
- `TryCandidate` exits early only at Manhattan distance 0. Candidates are at distance ≥ 1, so
  the exit is proved never taken, and the substitute search always runs until its sample cap or
  its last ring.
- `QuickSlotManager.DropSelectedItem` with no local player puts the item back into the
  *lowest* empty slot. That can be earlier than the slot it came from.
- `GameManager.Update` can send two EndDay change sets in one frame: TimeOver, then AllDead.
  The second overwrites the end reason.
- A chat sender nicknamed `[SYSTEM]` produces lines identical to system messages.
- Chat normalisation is stable on messages of at most 80 characters. It is not idempotent
  when the 80-character cut leaves trailing white space.

## Model

| member | source | states |
|---|---|---|
| Cells.Dirs8AreAdjacent | Assets/Scripts/InGame/Enemy/Chaser/AStar.cs:8-19 | each of the eight neighbour offsets moves to an adjacent cell, diagonal exactly when both components are non-zero |
| Cells.AdjacentIsADir | Assets/Scripts/InGame/Enemy/Chaser/AStar.cs:8-19 | every adjacent cell is reached by one of the eight offsets, so the neighbour loop covers all of 8-connectivity |
| Grid.PathGrid.IsWalkable | Assets/Scripts/InGame/Enemy/Chaser/PathGrid.cs:60-71 | false outside the bounds; inside, exactly the stored entry at offset (x − xMin, y − yMin); agrees with the walkable-cell set the search uses |
| Grid.PathGrid.constructor | Assets/Scripts/InGame/Enemy/Chaser/PathGrid.cs:14-27 | allocates a fresh sizeX × sizeY array and fills it once: an in-bounds cell is walkable iff it has a ground tile and the block probe finds nothing, so an untiled cell is never walkable |
| Grid.PathGrid.Build | Assets/Scripts/InGame/Enemy/Chaser/PathGrid.cs:29-58 | after the row-by-row fill, every entry equals hasTile ∧ ¬probeBlocked at its cell |
| Heap.RootIsMinimalAll | Assets/Scripts/Enemy/Chaser/MinHeap.cs:29-72 | in a heap-ordered list the root's priority is ≤ every stored priority |
| Heap.SwapKeepsMultiset | Assets/Scripts/Enemy/Chaser/MinHeap.cs:39-40 | a swap keeps the multiset of (item, priority) entries (HeapifyDown swaps the same way at line 69) |
| Heap.SiftUpStep | Assets/Scripts/Enemy/Chaser/MinHeap.cs:29-42 | one swap of a child smaller than its parent moves the single order violation up one level |
| Heap.SiftDownStep | Assets/Scripts/Enemy/Chaser/MinHeap.cs:44-72 | one swap with the smaller child moves the single order violation down one level |
| Heap.Smallest | Assets/Scripts/Enemy/Chaser/MinHeap.cs:50-67 | the index HeapifyDown picks: the node or its strictly smaller child, no larger than either child |
| Heap.MinHeap.Count | Assets/Scripts/Enemy/Chaser/MinHeap.cs:7 | the number of stored entries, duplicates included |
| Heap.MinHeap.constructor | Assets/Scripts/Enemy/Chaser/MinHeap.cs:6 | an empty, heap-ordered heap |
| Heap.MinHeap.Enqueue | Assets/Scripts/Enemy/Chaser/MinHeap.cs:9-13 | heap order kept; exactly (item, priority) added, with no membership check; Count grows by 1 |
| Heap.MinHeap.Dequeue | Assets/Scripts/Enemy/Chaser/MinHeap.cs:15-27 | needs Count > 0; returns the old root's item, whose priority is ≤ every priority left; removes exactly that entry; heap order kept; Count drops by 1 |
| Heap.MinHeap.HeapifyUp | Assets/Scripts/Enemy/Chaser/MinHeap.cs:29-42 | restores heap order from one violation at `index`, keeping the multiset and the length |
| Heap.MinHeap.HeapifyDown | Assets/Scripts/Enemy/Chaser/MinHeap.cs:44-72 | restores heap order below `index`, keeping the multiset and the length |
| AStarSearch.HeuristicProperties | Assets/Scripts/InGame/Enemy/Chaser/AStar.cs:26-35 | 14·min + 10·|dx − dy| is symmetric, equals 10·max + 4·min, is 0 exactly on equal cells and is ≥ 10 × Chebyshev distance |
| AStarSearch.HeuristicStep | Assets/Scripts/InGame/Enemy/Chaser/AStar.cs:26-35 | the heuristic is consistent: it drops by at most the step cost (10 straight, 14 diagonal) over one move |
| AStarSearch.HeuristicAdmissible | Assets/Scripts/InGame/Enemy/Chaser/AStar.cs:26-35 | along any 8-connected path the heuristic from its first cell never exceeds the path's step-cost sum |
| AStarSearch.ChebyshevBound | Assets/Scripts/InGame/Enemy/Chaser/AStar.cs:87-100 | a chain of n adjacent moves spans Chebyshev distance ≤ n |
| AStarSearch.Reverse | Assets/Scripts/InGame/Enemy/Chaser/AStar.cs:145 | List.Reverse: same length, element i is the old element n − 1 − i |
| AStarSearch.ReversedChain | Assets/Scripts/InGame/Enemy/Chaser/AStar.cs:134-146 | the goal-to-start chain of legal back-steps, reversed, is a valid start-to-goal path without repeats |
| AStarSearch.CloseStep | Assets/Scripts/InGame/Enemy/Chaser/AStar.cs:61-71 | the popped entry is an open, unclosed walkable cell (so the stale skip cannot fire); closing it keeps the open-list and search-tree invariants and shrinks the unclosed walkable cells |
| AStarSearch.RelaxTree | Assets/Scripts/InGame/Enemy/Chaser/AStar.cs:110-119 | recording an improving move (cameFrom, gScore := g + step cost) keeps every tree link a legal step |
| AStarSearch.RelaxOpen | Assets/Scripts/InGame/Enemy/Chaser/AStar.cs:121-127 | adding a neighbour to the open list only when it is not already open keeps at most one heap entry per open cell |
| AStarSearch.PathBounds | Assets/Scripts/InGame/Enemy/Chaser/AStar.cs:71-83 | a repeat-free path through closed cells is no longer than the closed set, spans at most its length − 1 and costs at least the heuristic |
| AStarSearch.AStar.constructor | Assets/Scripts/InGame/Enemy/Chaser/AStar.cs:21-24 | the search reads the given grid |
| AStarSearch.AStar.TryFindPath | Assets/Scripts/InGame/Enemy/Chaser/AStar.cs:37-132 | empty path on failure; false for an unwalkable start or goal; [start] when start = goal; on success a repeat-free path from start to goal through walkable cells, each step one of 8 moves with both sides of a diagonal walkable, at most max(0, maxExpand) + 1 cells long and costing at least the heuristic; it fails only when the goal is unreachable or more than maxExpand other cells are reachable (Findable ⇒ found) |
| AStarSearch.AStar.SearchStep | Assets/Scripts/InGame/Enemy/Chaser/AStar.cs:61-128 | one loop turn: pops an entry whose priority is minimal over the open list and closes its cell; Found iff that cell is the goal, with a valid path; Exhausted iff it is not the goal and expandCount + 1 > maxExpand, and then more than maxExpand cells reachable from start other than the goal are closed; otherwise expands and keeps the search invariants, including that every legal move out of a closed cell leads to a closed or open cell |
| AStarSearch.SubsetCard | Assets/Scripts/InGame/Enemy/Chaser/AStar.cs:79-83 | a subset has no more elements than its superset (used to bound the closed set by the reachable cells) |
| AStarSearch.ClosedReachable | Assets/Scripts/InGame/Enemy/Chaser/AStar.cs:61-128 | every closed cell is reachable from start along the recorded cameFrom links |
| AStarSearch.SpentBudget | Assets/Scripts/InGame/Enemy/Chaser/AStar.cs:79-83 | with the goal not closed, the closed cells are at most the cells reachable from start other than the goal |
| AStarSearch.StaysInside | Assets/Scripts/InGame/Enemy/Chaser/AStar.cs:87-128 | a path that starts in a set closed under legal moves never leaves it |
| AStarSearch.EnclosedReach | Assets/Scripts/InGame/Enemy/Chaser/AStar.cs:61-131 | once the open list is empty, every cell reachable from start is closed, so an unreached goal is unreachable |
| AStarSearch.CoverStep | Assets/Scripts/InGame/Enemy/Chaser/AStar.cs:87-128 | after relaxing direction k, the first k + 1 directions out of the current cell lead to closed or open cells |
| AStarSearch.EncloseCurrent | Assets/Scripts/InGame/Enemy/Chaser/AStar.cs:87-128 | after all eight directions, the current cell joins the cells whose legal moves stay in closed ∪ open |
| AStarSearch.CloseTracked | Assets/Scripts/InGame/Enemy/Chaser/AStar.cs:61-71 | popping an entry and closing its cell keeps every scored cell closed or open, one heap entry per open cell, and the frontier property |
| AStarSearch.StateStartClosed | Assets/Scripts/InGame/Enemy/Chaser/AStar.cs:61-131 | an empty open list inside the loop means start ≠ goal, start is closed and nothing is open |
| AStarSearch.ExpandedState | Assets/Scripts/InGame/Enemy/Chaser/AStar.cs:61-128 | after an expansion the loop invariant holds again with the count one higher |
| AStarSearch.AStar.ReconstructPath | Assets/Scripts/InGame/Enemy/Chaser/AStar.cs:134-146 | following cameFrom back from the goal and reversing gives a valid, repeat-free path from start; [goal] when the goal has no predecessor |
| AStarSearch.AStar.Expand | Assets/Scripts/InGame/Enemy/Chaser/AStar.cs:87-128 | relaxing all eight neighbours keeps the open-list and tree invariants, leaves closed cells' links alone and never raises a gScore |
| AStarSearch.AStar.Relax | Assets/Scripts/InGame/Enemy/Chaser/AStar.cs:87-127 | out-of-grid, blocked, closed and corner-cutting neighbours are skipped; a neighbour's gScore and cameFrom change only on a strictly lower tentative cost; it is enqueued only if not already open |
| AStarSearch.AStar.Improve | Assets/Scripts/InGame/Enemy/Chaser/AStar.cs:116-127 | the improving branch: cameFrom[next] := current, gScore[next] := tentativeG, next added to the open set and queued with priority f only when it was not already open; keeps the open-list, tree and bookkeeping invariants and lowers no score |
| AStarSearch.AStar.PopCheapest | Assets/Scripts/InGame/Enemy/Chaser/AStar.cs:62 | Dequeue removes one entry whose priority is no greater than that of any entry in the open list |
| AStarSearch.NotImproved | Assets/Scripts/InGame/Enemy/Chaser/AStar.cs:110-114 | a legal move skipped for not lowering the score leads to a cell that is already closed or open |
| AStarSearch.RelaxTracked | Assets/Scripts/InGame/Enemy/Chaser/AStar.cs:116-127 | scoring a neighbour and queuing it only when not yet open keeps every scored cell closed or open and one heap entry per open cell |
| AStarSearch.AStar.MoveImproves | Assets/Scripts/InGame/Enemy/Chaser/AStar.cs:89-116 | the code's skip tests and cost comparison, evaluated through the grid, decide exactly the "legal, unclosed and cheaper" relation of the proof |
| ChaserChase.ScanOrderDistance | Assets/Scripts/InGame/Enemy/Chaser/ChaserPathChase.cs:302-337 | the substitute-search order visits only cells at Manhattan distance 1..radius, in non-decreasing distance |
| ChaserChase.RowCount | Assets/Scripts/InGame/Enemy/Chaser/ChaserPathChase.cs:304-331 | after one row the count either has reached the cap, and the scan stops there, or it goes on with the next row |
| ChaserChase.RingCount | Assets/Scripts/InGame/Enemy/Chaser/ChaserPathChase.cs:302-337 | after the last row of a ring the count goes on with the next ring, and beyond the radius it stops |
| ChaserChase.RingFromLength | Assets/Scripts/InGame/Enemy/Chaser/ChaserPathChase.cs:304-323 | rows y..r of a ring hold 2(r − y) + 1 cells: two per row, one where x = 0 |
| ChaserChase.RingLength | Assets/Scripts/InGame/Enemy/Chaser/ChaserPathChase.cs:304-323 | a ring of radius r ≥ 1 holds 4r cells |
| ChaserChase.RingSkip | Assets/Scripts/InGame/Enemy/Chaser/ChaserPathChase.cs:302-337 | a ring that keeps the count below the cap is tried to its end |
| ChaserChase.ScanCountDefault | Assets/Scripts/InGame/Enemy/Chaser/ChaserPathChase.cs:20-21 | with radius 16 and 120 samples the substitute search always tries 121 candidates: rings 1..7 hold 112, and ring 8 passes 120 on its row y = −4 |
| ChaserChase.RingEightStop | Assets/Scripts/InGame/Enemy/Chaser/ChaserPathChase.cs:302-337 | from 112 tried at the start of ring 8, the scan stops after row −4 with 121 |
| ChaserChase.FixEnd | Assets/Scripts/InGame/Enemy/Chaser/ChaserPathChase.cs:285-291 | after the full square scan: no candidate means no walkable cell in the square; otherwise the best is walkable, nearest and first in scan order among the nearest |
| ChaserChase.TraceOutcome | Assets/Scripts/InGame/Enemy/Chaser/ChaserPathChase.cs:339-345 | after the ring scan: no accepted candidate means failure; otherwise the answer is the first accepted candidate, no farther than any other accepted one, with a valid route to it |
| ChaserChase.RejectStep | Assets/Scripts/InGame/Enemy/Chaser/ChaserPathChase.cs:348-385 | appending a candidate that was accepted, or rejected while not findable, keeps every rejection not findable |
| ChaserChase.ChaserPathChase.constructor | Assets/Scripts/InGame/Enemy/Chaser/ChaserPathChase.cs:10-68 | the serialized defaults (2500, 2, 4, 16, 120); an empty path at index 0; a preset target seeds the last goal cell and a zero timer |
| ChaserChase.ChaserPathChase.SetTarget | Assets/Scripts/InGame/Enemy/Chaser/ChaserPathChase.cs:70-80 | clears the forced flag; a non-null target seeds the last goal cell and zeroes the timer; the path is untouched |
| ChaserChase.ChaserPathChase.ClearTarget | Assets/Scripts/InGame/Enemy/Chaser/ChaserPathChase.cs:82-94 | no target, not forced, empty path, index 0, and a stop request |
| ChaserChase.ChaserPathChase.ForceChase | Assets/Scripts/InGame/Enemy/Chaser/ChaserPathChase.cs:96-112 | a null target changes nothing; otherwise forced, targeting it, timer 0 |
| ChaserChase.ChaserPathChase.FixedUpdate | Assets/Scripts/InGame/Enemy/Chaser/ChaserPathChase.cs:116-208 | dead: nothing changes; no target: path cleared and stop; uncorrectable goal: timer, last goal and path unchanged; a replan happens iff the decremented timer is ≤ 0 or the corrected goal moved ≥ the threshold, and then records that goal with index ≤ 1, leaves an empty path only when the goal was not findable, and a path ending at the goal or, in forced mode, at a substitute goal; a replan that reached the goal is one FollowStep from index 0 and a fresh timer, an empty one leaves index 0, a fresh timer and the fallback (forced) or hold intent, and a substitute path leaves index 0, a fresh timer and hold; without a replan the path is unchanged and the tick is one FollowStep from the decremented timer, moving the index by 0 or 1 |
| ChaserChase.ChaserPathChase.RepathAndFollow | Assets/Scripts/InGame/Enemy/Chaser/ChaserPathChase.cs:154-207 | a replan happens iff the decremented timer is ≤ 0 or the goal moved ≥ the threshold; a replan ends with an empty path only when the goal was not findable, and otherwise at the goal (then one FollowStep from index 0 and a fresh timer) or, in forced mode, at a substitute goal with index 0, a fresh timer and hold; without a replan the path is unchanged and the tick is one FollowStep from the decremented timer |
| ChaserChase.ChaserPathChase.Replan | Assets/Scripts/InGame/Enemy/Chaser/ChaserPathChase.cs:169-204 | resets the timer, records the goal and sets index 0; success gives a valid path to the goal; failure means the goal is not findable within the budget and empties the path; in forced mode a non-empty result is a valid path ending at a SubstituteChoice goal (the first reached candidate of the ring scan, every earlier one not findable, none nearer the target), which is not the goal itself, and otherwise the intent is the fallback |
| ChaserChase.ChaserPathChase.FollowPath | Assets/Scripts/InGame/Enemy/Chaser/ChaserPathChase.cs:210-245 | FollowStep: no path asks for the fallback (forced) or holds; otherwise steers to waypoint min(index + 1, Count − 1) until it is reached, then moves the index there, and reaching the last waypoint zeroes the timer; the index never decreases and moves by at most 1 |
| ChaserChase.ChaserPathChase.TryFixGoalCell | Assets/Scripts/InGame/Enemy/Chaser/ChaserPathChase.cs:247-292 | a walkable goal is kept; otherwise the first cell in (y, then x) scan order of least Manhattan distance among walkable cells of the radius-4 square; failure only when the square has none |
| ChaserChase.ChaserPathChase.FixGoalRow | Assets/Scripts/InGame/Enemy/Chaser/ChaserPathChase.cs:261-282 | one row of the square scan keeps the best-so-far invariant, or stops at distance 1 with the final answer |
| ChaserChase.ChaserPathChase.TryFindReachableGoalNearTarget | Assets/Scripts/InGame/Enemy/Chaser/ChaserPathChase.cs:294-346 | tries exactly ScanCount(radius, samples) candidates, a prefix of the ring order, which is 121 with the defaults; returns the first walkable, A*-reachable candidate, which is no farther than any later accepted one; every rejected candidate is not findable, so failure means no tried candidate was findable |
| ChaserChase.ChaserPathChase.ScanRings | Assets/Scripts/InGame/Enemy/Chaser/ChaserPathChase.cs:302-337 | the ring loop: what was tried plus what is pending is the whole scan order, something is pending only when the sample cap was hit, the number tried is ScanCount(radius, samples), and every rejected candidate is not findable |
| ChaserChase.ChaserPathChase.TryRing | Assets/Scripts/InGame/Enemy/Chaser/ChaserPathChase.cs:304-331 | one ring, y ascending with +x before −x; when the cap is reached the number tried is what ScannedFrom gives from the ring's first row, and otherwise the whole ring was tried and the count goes on from the next ring; rejected candidates stay not findable |
| ChaserChase.ChaserPathChase.RingRound | Assets/Scripts/InGame/Enemy/Chaser/ChaserPathChase.cs:302-337 | one pass of the ring loop: ring r is tried, tried plus pending is unchanged, and what is pending afterwards is the later rings unless the cap was reached |
| ChaserChase.ChaserPathChase.TryRow | Assets/Scripts/InGame/Enemy/Chaser/ChaserPathChase.cs:306-325 | one row of a ring: the +x cell, then the −x cell when it differs; rejected candidates stay not findable |
| ChaserChase.ChaserPathChase.TryTraced | Assets/Scripts/InGame/Enemy/Chaser/ChaserPathChase.cs:312-316 | one candidate of ring r through TryCandidate: appended to what was tried, the search trace kept, and a rejection recorded only when the candidate is not findable |
| ChaserChase.ChaserPathChase.TryCandidate | Assets/Scripts/InGame/Enemy/Chaser/ChaserPathChase.cs:348-385 | counts the candidate; accepts it only if walkable and A*-reachable, and rejects it only if it is not findable within maxExpand; it becomes the best only when strictly nearer; the early exit needs the target cell itself |
| IdIndex.BuildMapSpec | Assets/Scripts/InGame/Item/ItemDatabase.cs:16-30 | an id is indexed iff some non-null entry has it, and it maps to the last such entry (the enemy database builds the same way, Assets/Scripts/InGame/Enemy/EnemyDatabase.cs:16-30) |
| Weighted.PickSpec | Assets/Scripts/InGame/Item/ItemDatabase.cs:101-130 | a roll selects an entry iff it is below the total; the entry is the first whose running total exceeds the roll, and its weight is positive |
| Weighted.SumMonotone | Assets/Scripts/InGame/Item/ItemDatabase.cs:122 | with no negative weight the running total never decreases (the total at line 93 adds the same weights) |
| Items.ChosenSpec | Assets/Scripts/InGame/Item/ItemDatabase.cs:66-131 | no items or total ≤ 0 gives null; a roll in [0, total) gives the first eligible item whose cumulative weight exceeds it, never null, never NONE, never the excluded id, never of weight ≤ 0 |
| Items.ItemDatabase.constructor | Assets/Scripts/InGame/Item/ItemDatabase.cs:7-9 | the serialized array with no index built yet; OnEnable's eager build is Build, and Get builds on demand either way |
| Items.ItemDatabase.Build | Assets/Scripts/InGame/Item/ItemDatabase.cs:16-30 | the index maps every non-null item by id, a later duplicate replacing an earlier one |
| Items.ItemDatabase.Get | Assets/Scripts/InGame/Item/ItemDatabase.cs:32-45 | NONE gives null without building; otherwise builds the index if missing and returns the indexed item or null |
| Items.ItemDatabase.GetRandomWeighted | Assets/Scripts/InGame/Item/ItemDatabase.cs:66-131 | returns the item the roll selects; whatever it returns is eligible with positive weight |
| Enemies.RolledSpec | Assets/Scripts/InGame/Enemy/EnemyDatabase.cs:72-112 | total ≤ 0 gives null; a roll in [0, total) gives the first eligible entry whose cumulative weight exceeds it |
| Enemies.EligibleReachable | Assets/Scripts/InGame/Enemy/EnemyDatabase.cs:84 | every entry with a prefab counts at least 1 (the same Mathf.Max(1, weight) at line 103), so some roll selects it |
| Enemies.RetryAvoidsLast | Assets/Scripts/InGame/Enemy/EnemyDatabase.cs:59-69 | if any of the 30 constrained rolls picks something other than lastId, the answer differs from lastId |
| Enemies.EnemyDatabase.constructor | Assets/Scripts/InGame/Enemy/EnemyDatabase.cs:7-9 | the serialized array with no index built yet; OnEnable's eager build is Build, and Get builds on demand either way |
| Enemies.EnemyDatabase.Build | Assets/Scripts/InGame/Enemy/EnemyDatabase.cs:16-30 | the index maps every non-null entry by id, the last duplicate winning |
| Enemies.EnemyDatabase.Get | Assets/Scripts/InGame/Enemy/EnemyDatabase.cs:32-45 | NONE gives null without building; otherwise the indexed entry or null |
| Enemies.EnemyDatabase.RollWeighted | Assets/Scripts/InGame/Enemy/EnemyDatabase.cs:72-112 | returns the entry the roll selects, skipping null entries and entries without a prefab in both loops; any result is eligible |
| Enemies.EnemyDatabase.GetRandomWeighted | Assets/Scripts/InGame/Enemy/EnemyDatabase.cs:47-70 | null for no entries, the only entry of a one-entry array whatever lastId is, otherwise up to 30 rolls for a non-null pick other than lastId and then one unconstrained roll |
| QuickSlots.QuickSlot.constructor | Assets/Scripts/InGame/QuickSlot.cs:6-9 | a new slot is empty |
| QuickSlots.QuickSlot.Set | Assets/Scripts/InGame/QuickSlot.cs:11-14 | Data becomes d, so Set(null) leaves the slot empty |
| QuickSlots.QuickSlot.Clear | Assets/Scripts/InGame/QuickSlot.cs:16-19 | the slot is empty afterwards |
| QuickSlots.FirstEmpty | Assets/Scripts/InGame/Manager/QuickSlotManager.cs:65-74 | the lowest-index empty slot: every earlier slot is filled; the slot count when none is empty |
| QuickSlots.FirstEmptyAt | Assets/Scripts/InGame/Manager/QuickSlotManager.cs:65-74 | an empty slot with all earlier slots filled is the one TryPickup fills |
| QuickSlots.PickupIffEmptySlot | Assets/Scripts/InGame/Manager/QuickSlotManager.cs:97-108 | some slot is empty iff the pickup scan finds a slot, so HasEmptySlot decides whether TryPickup of real data succeeds |
| QuickSlots.FilledIdsCount | Assets/Scripts/InGame/Manager/QuickSlotManager.cs:146-176 | the collected id list is as long as the set of filled slots, and it is empty iff every slot is empty |
| QuickSlots.SaveIds | Assets/Scripts/InGame/Manager/QuickSlotManager.cs:192-209 | the save array has one id per slot |
| QuickSlots.LoadedSlots | Assets/Scripts/InGame/Manager/QuickSlotManager.cs:217-232 | the load result has one entry per slot |
| QuickSlots.SaveLoadRoundTrip | Assets/Scripts/InGame/Manager/QuickSlotManager.cs:192-237 | loading the saved array back through a database that knows every held item restores the slots exactly |
| QuickSlots.QuickSlotManager.Contents | Assets/Scripts/InGame/Manager/QuickSlotManager.cs:16 | one entry per slot |
| QuickSlots.QuickSlotManager.constructor | Assets/Scripts/InGame/Manager/QuickSlotManager.cs:12-35 | n ≥ 1 distinct empty slots, current index 0 |
| QuickSlots.QuickSlotManager.SelectSlot | Assets/Scripts/InGame/Manager/QuickSlotManager.cs:47-56 | an in-range index is selected, an out-of-range one ignored, so 0 ≤ CurrentIndex < slot count always holds; slots untouched |
| QuickSlots.QuickSlotManager.TryPickup | Assets/Scripts/InGame/Manager/QuickSlotManager.cs:58-77 | succeeds iff the data is non-null and a slot is empty; then fills only the lowest empty slot; otherwise nothing changes |
| QuickSlots.QuickSlotManager.TryDropCurrent | Assets/Scripts/InGame/Manager/QuickSlotManager.cs:79-95 | returns the current slot's data, succeeds iff it was filled, and empties only that slot |
| QuickSlots.QuickSlotManager.DropSelectedItem | Assets/Scripts/InGame/Manager/QuickSlotManager.cs:110-125 | an empty slot does nothing; with a local player the item's id is sent as a drop request and the slot emptied; without one the item goes back into the lowest empty slot |
| QuickSlots.QuickSlotManager.HasEmptySlot | Assets/Scripts/InGame/Manager/QuickSlotManager.cs:97-108 | true iff some slot is empty |
| QuickSlots.QuickSlotManager.GetAllItemIds | Assets/Scripts/InGame/Manager/QuickSlotManager.cs:146-176 | the ids of the filled slots in slot order, as many as there are filled slots |
| QuickSlots.QuickSlotManager.ClearAllSlots | Assets/Scripts/InGame/Manager/QuickSlotManager.cs:178-190 | every slot empty, CurrentIndex 0 |
| QuickSlots.QuickSlotManager.DropAllOnDeath | Assets/Scripts/InGame/Manager/QuickSlotManager.cs:127-144 | the dropped ids are the filled slots' ids; none leaves everything untouched; otherwise every slot is emptied and the index reset |
| QuickSlots.QuickSlotManager.ToSaveData | Assets/Scripts/InGame/Manager/QuickSlotManager.cs:192-209 | position by position: NONE for an empty slot, the item's id for a filled one |
| QuickSlots.QuickSlotManager.LoadFromSaveData | Assets/Scripts/InGame/Manager/QuickSlotManager.cs:211-237 | null save or null database changes nothing; otherwise NONE clears a slot, any other id sets db.Get(id), and CurrentIndex becomes 0 |
| SaveKeys.ReplaceChar | Assets/Scripts/InGame/SaveAndLoad/SaveKeyProvider.cs:57-62 | String.Replace(c, '_') keeps the length |
| SaveKeys.SanitizeKeySpec | Assets/Scripts/InGame/SaveAndLoad/SaveKeyProvider.cs:50-65 | null or empty gives "Unknown"; otherwise the same length with exactly `. # $ [ ] /` replaced by `_`; the result is never empty and contains none of those six characters |
| SaveKeys.SanitizeKeyIdempotent | Assets/Scripts/InGame/SaveAndLoad/SaveKeyProvider.cs:57-64 | sanitising twice equals sanitising once |
| SaveKeys.GetPlayerKeySpec | Assets/Scripts/InGame/SaveAndLoad/SaveKeyProvider.cs:30-48 | the sanitised UserId if non-empty, else the sanitised NickName if non-empty, else "Unknown"; never empty, never a forbidden character |
| SaveKeys.NormalizeKeySpec | Assets/Scripts/InGame/Manager/SaveManager.cs:9-17 | null, empty or white-space keys become "local"; others are trimmed; never blank; idempotent |
| SaveKeys.SaveFileNameSpec | Assets/Scripts/InGame/Manager/SaveManager.cs:19-23 | "save_" + normalised key + ".json", from which the key reads back, so two keys share a file iff they normalise alike |
| SaveKeys.SaveSpec | Assets/Scripts/InGame/Manager/SaveManager.cs:25-48 | null data fails before any path is formed; otherwise the result is whether the write succeeds, at the normalised file name |
| EnemyModels.EnemyModel.constructor | Assets/Scripts/InGame/Enemy/EnemyModel.cs:4-13 | the C# field defaults: zeros, false, no stats |
| EnemyModels.EnemyModel.Init | Assets/Scripts/InGame/Enemy/EnemyModel.cs:15-23 | maxHP = currentHP = baseMaxHP; damage and speed copied from the stats; dead right away iff baseMaxHP ≤ 0 |
| EnemyModels.EnemyModel.TakeDamage | Assets/Scripts/InGame/Enemy/EnemyModel.cs:44-51 | currentHP := max(0, currentHP − dmg), so it is ≥ 0; non-negative damage never raises it; dead afterwards iff dmg ≥ old HP; no other field changes |
| EnemyModels.AfterHitsSpec | Assets/Scripts/InGame/Enemy/EnemyModel.cs:44-56 | a run of non-negative hits leaves max(0, hp − total damage), within [0, hp] |
| EnemyStates.EnemyState.constructor | Assets/Scripts/InGame/Enemy/EnemyState.cs:13 | starts Idle |
| EnemyStates.EnemyState.ChangeState | Assets/Scripts/InGame/Enemy/EnemyState.cs:15-18 | always sets the state, even out of Dead |
| EnemyStates.EnemyState.SetRemoteState | Assets/Scripts/InGame/Enemy/EnemyState.cs:19-27 | no effect once Dead; otherwise sets the state |
| EnemyStates.AfterRemoteSpec | Assets/Scripts/InGame/Enemy/EnemyState.cs:19-27 | under remote updates Dead is absorbing: the end state is Dead iff the start or some update is Dead, and otherwise the last update |
| Registries.RemoveFirstSpec | Assets/Scripts/InGame/Item/ItemRegistry.cs:42-45 | List.Remove on a duplicate-free list: absent means unchanged; present means one shorter, still duplicate-free, holding exactly the others |
| Registries.SurvivorsMembers | Assets/Scripts/InGame/Player/PlayerRegistry.cs:13 | RemoveAll keeps exactly the entries that are not destroyed |
| Registries.SurvivorsShape | Assets/Scripts/InGame/Player/PlayerRegistry.cs:13 | RemoveAll never lengthens the list, keeps it duplicate-free and is a no-op when nothing is destroyed |
| Registries.Registry.constructor | Assets/Scripts/InGame/Player/PlayerRegistry.cs:8 | an empty, duplicate-free list |
| Registries.Registry.Register | Assets/Scripts/InGame/Player/PlayerRegistry.cs:31-37 | appends only when absent, so no duplicates; registering again changes nothing (same code in ItemRegistry.cs:32-38 and EnemyRegistry.cs:32-38) |
| Registries.Registry.Unregister | Assets/Scripts/InGame/Item/ItemRegistry.cs:40-46 | the Contains-guarded removal (also PlayerRegistry.cs:39-45): absent changes nothing; present removes it, keeps the rest in order and stays duplicate-free |
| Registries.Registry.Remove | Assets/Scripts/InGame/Enemy/EnemyRegistry.cs:40-43 | the bare List.Remove: reports whether the enemy was present, removes it and keeps the rest in order |
| Registries.Registry.Live | Assets/Scripts/InGame/Player/PlayerRegistry.cs:9-16 | the getter drops destroyed entries in place and returns the survivors in order (same getter in ItemRegistry.cs:10-17 and EnemyRegistry.cs:10-17) |
| Spectator.NonNull | Assets/Scripts/InGame/Manager/SpectatorCameraManager.cs:111-126 | the refreshed target list is no longer than what was found |
| Spectator.NonNullMember | Assets/Scripts/InGame/Manager/SpectatorCameraManager.cs:111-126 | a player is a target iff it was found non-null |
| Spectator.FocusIndex | Assets/Scripts/InGame/Manager/SpectatorCameraManager.cs:128-148 | the lowest index of an alive target if one exists, else 0; in range whenever targets exist |
| Spectator.NextPrevInverse | Assets/Scripts/InGame/Manager/SpectatorCameraManager.cs:150-175 | next and previous stay in range and undo each other |
| Spectator.SpectatorCamera.constructor | Assets/Scripts/InGame/Manager/SpectatorCameraManager.cs:15-17 | no targets, index 0, not spectating |
| Spectator.SpectatorCamera.StartSpectate | Assets/Scripts/InGame/Manager/SpectatorCameraManager.cs:56-64 | spectating, targets the non-null players found, focused on the first alive one (else the first); index in range |
| Spectator.SpectatorCamera.StopSpectate | Assets/Scripts/InGame/Manager/SpectatorCameraManager.cs:66-73 | not spectating, no targets, index 0 |
| Spectator.SpectatorCamera.RefreshTargets | Assets/Scripts/InGame/Manager/SpectatorCameraManager.cs:111-126 | the target list becomes the non-null players found, in order |
| Spectator.SpectatorCamera.FocusToAliveOrFirst | Assets/Scripts/InGame/Manager/SpectatorCameraManager.cs:128-148 | no targets: index unchanged; otherwise the focus index |
| Spectator.SpectatorCamera.NextTarget | Assets/Scripts/InGame/Manager/SpectatorCameraManager.cs:150-159 | no-op without targets; otherwise (index + 1) mod Count |
| Spectator.SpectatorCamera.PrevTarget | Assets/Scripts/InGame/Manager/SpectatorCameraManager.cs:161-175 | no-op without targets; otherwise index − 1, wrapping from 0 to Count − 1 |
| Spectator.SpectatorCamera.OnNext | Assets/Scripts/InGame/Manager/SpectatorCameraManager.cs:90-98 | nothing unless spectating; then NextTarget |
| Spectator.SpectatorCamera.OnPrevious | Assets/Scripts/InGame/Manager/SpectatorCameraManager.cs:100-108 | nothing unless spectating; then PrevTarget |
| DayCycle.Merge | Assets/Scripts/Room/GameManager.cs:108 | a room-property change set overrides exactly the keys it carries, and the other keys keep their values |
| DayCycle.Clamp | Assets/Scripts/Room/GameManager.cs:143 | Mathf.Clamp: inside the range unchanged, below gives lo, above gives hi |
| DayCycle.PenaltyOrder | Assets/Scripts/Room/GameManager.cs:282-298 | the penalties are 2, 5 and 10 for ManualEnd, TimeOver and AllDead, in that order |
| DayCycle.ConvertEndTypeSpec | Assets/Scripts/Room/GameManager.cs:453-465 | Success iff ManualEnd; TimeOver → Fail_TimeOver and AllDead → Fail_PlayerDead, each reason to a different end type |
| DayCycle.LegalStepCycle | Assets/Scripts/Room/GameManager.cs:62-126 | the only day-state moves are Idle → Running → Ending → Idle, a three-step cycle |
| DayCycle.RepairOf | Assets/Scripts/Room/GameManager.cs:310-319 | a missing repair value reads as 0; a stored one lies in [0, 100] |
| DayCycle.EndDaySet | Assets/Scripts/Room/GameManager.cs:118-123 | the EndDay change set: the reason, EndingUntil = now + 5 and Ending, and no other key |
| DayCycle.StateSet | Assets/Scripts/Room/GameManager.cs:474-479 | the SetDayState change set: the state, the reason and EndingUntil 0, and no other key |
| DayCycle.PenaltySet | Assets/Scripts/Room/GameManager.cs:302-305 | the penalty change set: the repair value minus the reason's penalty, floored at 0, and no other key |
| DayCycle.Max0 | Assets/Scripts/Room/GameManager.cs:72 | Mathf.Max(0, v): non-negative, at least v, and either 0 or v |
| DayCycle.NumSent | Assets/Scripts/Room/GameManager.cs:62-91 | at most two change sets per frame, none from a non-master |
| DayCycle.RoomDay.constructor | Assets/Scripts/Room/GameManager.cs:28-46 | Idle, reason TimeOver, EndingUntil 0, 600-second day, not running |
| DayCycle.RoomDay.Send | Assets/Scripts/Room/GameManager.cs:125 | SetCustomProperties, as at lines 108, 150, 305 and 474 as well: the room gains the change set and it is logged; local state untouched |
| DayCycle.RoomDay.StartDay_Master | Assets/Scripts/Room/GameManager.cs:93-109 | only the master from cached Idle acts: sends Running with the start time, the duration and EndingUntil 0, and the room takes it; every local field is unchanged |
| DayCycle.RoomDay.EndDay_Master | Assets/Scripts/Room/GameManager.cs:111-126 | only the master from Running acts: sends EndDaySet(reason, now) and the room takes it; local state untouched |
| DayCycle.RoomDay.SetDayState_Master | Assets/Scripts/Room/GameManager.cs:467-480 | only the master sends StateSet(state, reason) and the room takes it; local state untouched |
| DayCycle.RoomDay.AddRepair_Master | Assets/Scripts/Room/GameManager.cs:128-151 | only the master acts: sends and stores clamp(current + amount, 0, 100); every local field is unchanged |
| DayCycle.RoomDay.GetRepair | Assets/Scripts/Room/GameManager.cs:310-319 | the stored repair value, 0 when missing, always in [0, 100] |
| DayCycle.RoomDay.ApplyRepairPenalty | Assets/Scripts/Room/GameManager.cs:275-308 | only the master acts: sends PenaltySet, which subtracts the reason's penalty flooring at 0; every local field is unchanged |
| DayCycle.RoomDay.ApplyState_Local | Assets/Scripts/Room/GameManager.cs:203-257 | running iff the state is Running, which restarts the remaining time, kept otherwise; Ending records the converted end type and, on the master, sends PenaltySet for the cached reason; the caches, the start time and the duration are unchanged |
| DayCycle.RoomDay.CacheKeys | Assets/Scripts/Room/GameManager.cs:160-178 | each of the start time, duration, reason and EndingUntil is taken from the change set when present and kept otherwise; nothing else changes |
| DayCycle.RoomDay.OnRoomPropertiesUpdate | Assets/Scripts/Room/GameManager.cs:153-201 | caches the start time, duration, reason and EndingUntil carried, keeping each absent one; changes the cached state and applies it locally only when the new state differs, with ApplyState_Local's remaining-time, end-type and master penalty effects; otherwise, and for a null change set, the state, running flag, end type, remaining time and room are unchanged |
| DayCycle.RoomDay.Update | Assets/Scripts/Room/GameManager.cs:62-91 | while Running the remaining time is max(0, duration − elapsed); a master sends EndDaySet(TimeOver) when time is up and then EndDaySet(AllDead) when all are dead, leaving the room Ending with EndingUntil now + 5 and reason AllDead if all are dead, else TimeOver; an Ending phase past its end time sends StateSet(Idle, cached reason), leaving the room Idle with EndingUntil 0; nothing else is sent, every state sent is a legal step, and the cached state is untouched |
| PlayerStates.Clamp01 | Assets/Scripts/InGame/Manager/PhotonPlayerStateManager.cs:118 | Mathf.Clamp01: in [0, 1], identity there |
| PlayerStates.DecodersRoundTrip | Assets/Scripts/InGame/Manager/PhotonPlayerStateManager.cs:12-140 | each decoder reads back what its setter wrote; with the key absent or no properties: Alive, false and 1 |
| PlayerStates.SettersIndependent | Assets/Scripts/InGame/Manager/PhotonPlayerStateManager.cs:12-140 | writing one key never changes what the other two decoders return |
| PlayerStates.PhotonPlayer.constructor | Assets/Scripts/InGame/Manager/PhotonPlayerStateManager.cs:42-53 | a player holding the given custom properties |
| PlayerStates.SetLocalState | Assets/Scripts/InGame/Manager/PhotonPlayerStateManager.cs:12-25 | writes the state key of the local player, which GetState then reads back |
| PlayerStates.SetState | Assets/Scripts/InGame/Manager/PhotonPlayerStateManager.cs:27-40 | nothing unless the target is non-null and the caller is master; then writes the state key |
| PlayerStates.SetWasDeadThisDay | Assets/Scripts/InGame/Manager/PhotonPlayerStateManager.cs:55-68 | writes the bool, which the decoder reads back |
| PlayerStates.ResetDayFlags | Assets/Scripts/InGame/Manager/PhotonPlayerStateManager.cs:93-107 | was-dead false, next-day ratio 1, state untouched |
| PlayerStates.SetNextDayHpRatio | Assets/Scripts/InGame/Manager/PhotonPlayerStateManager.cs:109-122 | nothing unless the target is non-null and the caller is master; then stores Clamp01(ratio), which reads back in [0, 1] |
| PlayerStates.AreAllPlayersDead | Assets/Scripts/InGame/Manager/PhotonPlayerStateManager.cs:142-155 | true iff no player's decoded state is Alive, so true for an empty list |
| Lobby.ApplyAllLast | Assets/Scripts/LobbyManager.cs:56-71 | after an update each mentioned name holds its last entry, or is gone if that entry is flagged removed |
| Lobby.ApplyAllUnmentioned | Assets/Scripts/LobbyManager.cs:58-71 | names not in the update keep their cached entry |
| Lobby.RemoveAbsentIsNoOp | Assets/Scripts/LobbyManager.cs:60-66 | removing a name that is not cached changes nothing |
| Lobby.ApplyAllKeyed | Assets/Scripts/LobbyManager.cs:56-71 | every cached entry stays filed under its own name |
| Lobby.JoinRequest | Assets/Scripts/LobbyManager.cs:106-115 | a join is requested iff the typed name is non-null and non-empty, with that name |
| Lobby.CreateRequest | Assets/Scripts/LobbyManager.cs:118-141 | a creation is requested iff the typed name is non-empty, with that name and 4 players |
| Lobby.LobbyManager.constructor | Assets/Scripts/LobbyManager.cs:22-23 | no cached rooms, no buttons |
| Lobby.LobbyManager.OnRoomListUpdate | Assets/Scripts/LobbyManager.cs:56-74 | the cache becomes the update applied entry by entry; the buttons then match the cache key for key |
| Lobby.LobbyManager.UpdateRoomList | Assets/Scripts/LobbyManager.cs:75-92 | one button per cached room, with exactly the cache's keys; the cache untouched |
| Chat.NormalizeSpec | Assets/Scripts/ChatManager.cs:99-115 | nothing is sent iff the input is all white space; otherwise 1..80 characters, a prefix of the trimmed input, equal to it when it fits, its first 80 characters when longer |
| Chat.NormalizeShortStable | Assets/Scripts/ChatManager.cs:99-115 | a message that fit in 80 characters normalises to itself |
| Chat.NormalizeCutNotIdempotent | Assets/Scripts/ChatManager.cs:99-115 | when the trimmed text is longer than 80 and its 80th character is white space, the sent message has 80 characters but typing it again sends fewer than 80 |
| Chat.LineSpec | Assets/Scripts/ChatManager.cs:133-148 | "sender : message" from which both parts read back; a system line (line 133) is the chat line (line 148) of sender "[SYSTEM]" |
| Chat.ChatManager.constructor | Assets/Scripts/ChatManager.cs:10-16 | empty input, nothing pending, nothing sent or shown |
| Chat.ChatManager.StartSendRoutine | Assets/Scripts/ChatManager.cs:69-76 | a send becomes pending; a pending one is not scheduled twice |
| Chat.ChatManager.OnEnterPerformed | Assets/Scripts/ChatManager.cs:55-68 | Enter with an unfocused input field schedules a send; otherwise nothing |
| Chat.ChatManager.OnEndEdit | Assets/Scripts/ChatManager.cs:83-90 | ending an edit schedules a send when there is an input field |
| Chat.ChatManager.WaitSend | Assets/Scripts/ChatManager.cs:77-82 | the pending send runs TrySend and clears the pending flag |
| Chat.ChatManager.TrySend | Assets/Scripts/ChatManager.cs:91-119 | sends the normalised message under the nickname and clears the input when it is non-empty; otherwise nothing is sent |
| Chat.ChatManager.AddSystemMessage | Assets/Scripts/ChatManager.cs:121-138 | shows "[SYSTEM] : message" when there is an output area |
| Chat.ChatManager.ReceiveMessage | Assets/Scripts/ChatManager.cs:140-153 | shows "sender : message" |

## Left out

- ChaserPathChase.ForcedFallbackMove (circle casts, float normals, steering) is an intent value `Fallback`; its motion is not modelled.
- ChaserPathChase's float timer (0.35 s at fixed delta) is an integer tick count, and "waypoint reached" (the float distance test) is a boolean input.
- ChaserPathChase's `_grid == null` / `_astar == null` guards. The model's follower always has its grid and search. Start's disabling path is not modelled.
- PathGrid's Tilemap and Physics2D queries are the function parameters `hasTile` and `probeBlocked`. `WorldToCell` and `CellToWorldCenter` are left out; cells come in already converted.
- Room/GameManager's float countdown and remaining-time display, coroutine timing, scene loading, audio listeners and events. `ApplyNextDayHpRules_Master` and `HandleInventoryByDayEndReason` are not modelled.
- DayCycle.RoomDay.ApplyState_Local models only the day cache's own fields and the repair penalty. It leaves out the calls that reach other objects:
  - all branches: `SetAllPlayersRoomMode` or `SetAllPlayersInGameMode`, and the `UIManager` phase, timer and spectator-mode calls (GameManager.cs:208-223, 243-245);
  - Idle: `SpectatorCameraManager.Instance?.StopSpectate()` (GameManager.cs:211);
  - Running: `ResetAllPlayersForNewDay_AllClients`, `ActivateAndResetLocalPlayer` and `PhotonPlayerStateManager.ResetDayFlags()` (GameManager.cs:225-227), and on the master the item and enemy spawners' `Spawn` and `StartDay` (GameManager.cs:231-232);
  - Ending: the `OnGameEndTriggered` event, which is modelled only as the recorded `lastEndType`; `HandleInventoryByDayEndReason`; and on the master `ApplyNextDayHpRules_Master` and the spawners' `ResetForNextDay` (GameManager.cs:241-254).
- DayCycle.RoomDay.Update does not model the TimeOver transition at its exact float instant. The remaining time is computed with exact reals, not float/double arithmetic.
- EnemyModel.ApplySpawnGrowth (float multipliers, RoundToInt) is not modelled.
- EnemyModels.EnemyModel.TakeDamage does not model 32-bit wrap-around of `currentHP - dmg` for extreme damage values, because ints are unbounded.
- PlayerStates.GetNextDayHpRatio reads a stored double exactly. The double-to-float narrowing is not modelled, because reals are exact. State codes are ints, because the source casts without checking.
- QuickSlots.QuickSlotManager.LoadFromSaveData requires the save array to cover every slot. A shorter array makes the source throw, and that exception is not modelled.
- The SaveManager.Save call inside QuickSlotManager.ClearAllSlots, the events OnSlotUpdated and OnSelectedChanged, and the ground-item spawning in DropSelectedItem and DropAllOnDeath (positions, RPC) are not modelled. The dropped ids are returned instead.
- SaveManager TryLoad and Delete, and the JSON text and file writing of Save: file I/O. The write's success is a parameter.
- SaveKeyProvider.GetPlayerKey() (PlayerPrefs and Guid): persistent storage and randomness.
- The lobby's Photon calls are left out: JoinRoom, CreateRoom, JoinRandomRoom, OnJoinRandomFailed's random room name, and the button click wiring. Only the request decided from the typed name is modelled.
- The order of dictionary iteration in UpdateRoomList decides only the UI order of buttons, which is not modelled.
- Chat's input-field focus handling, RPC delivery and UI instantiation are inputs, an outbox and a list of lines. The one-frame wait of the send coroutine is the `pending` flag.
- Chat.NormalizeSpec counts the 80-character limit in Unicode scalar values, because a Dafny string is a sequence of them; `String.Length` and `Substring(0, 80)` count UTF-16 code units. Text outside the Basic Multilingual Plane can therefore be cut later here than in the game, and the game's cut can split a surrogate pair, which the model cannot represent.
- Chat.NormalizeShortStable is stated for messages of at most 80 scalar values, not 80 UTF-16 code units, for the same reason.
- Chat.ChatManager.TrySend cuts at 80 scalar values, not 80 UTF-16 code units, for the same reason.
- Chat.ChatManager.ReceiveMessage requires `hasOutput` (content parent, line prefab and scroll view all assigned), which the source does not check. The model does not cover these cases:
  - Without a content parent, `Instantiate(_messagePrefab, _content)` does not throw; it places the new line at the scene root, out of the chat view.
  - Without a scroll view, the line is created and its text set, and then ChatManager.cs:152 throws.
  - Without a line prefab, `Instantiate` throws before any line exists.
- DayCycle.RoomDay.Send and the PlayerStates setters (SetLocalState, SetState, SetWasDeadThisDay, ResetDayFlags, SetNextDayHpRatio) take a `SetCustomProperties` write as visible at once to later local reads. Photon sends it through the server, so a read later in the same frame may still see the old value; that delay and round trip are not modelled.
- ChaserChase.ChaserPathChase.Replan does not promise that the second A* search, to the substitute goal, succeeds. It repeats the search TryCandidate already completed, and the deterministic source search would succeed again. The model knows the search only by its contract, so the model also allows that search to fail, in which case the intent is the fallback.
- Spectator camera, Cinemachine and input-action wiring: presentation. Whether a target is alive is a function parameter.
- EnemyDatabase's EnemyData has no prefab-name field in the shown source. Whether an entry has a prefab is the flag `hasPrefabName`.
- MatchKeys.cs has no repair key. The repair value is a field of the room properties.
- The `default` branch of ConvertEndType cannot be reached with the three-valued reason datatype.
- Enemy AI state machines, spawn managers, pooling, networking relays, UI, audio and views are outside this model.
