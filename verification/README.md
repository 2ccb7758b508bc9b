# A* grid pathfinder — a Dafny model

This project models the core of `astar.go`, an interactive A* visualiser.
The user edits an N x N grid of cells with the mouse: the first left click
places the start, the next one the end, and later ones place barriers. A
right click clears a cell. The space key recomputes every cell's neighbour
list and runs A* from the start to the end. A* explores the 4-neighbourhood
under a unit step cost with the Manhattan heuristic `h`. It paints queued
cells Open and expanded cells Closed. When it reaches the end, it walks the
`cameFrom` map back and paints that path.

Modules, one per file:

- `wrappers.dfy` (`Wrappers`): `Option`.
- `matrix.dfy` (`Matrix`): coordinates and square matrices, reading and writing one entry, the sum of an integer matrix (the termination measure of the search), and a cardinality bound (at most n*n cells).
- `grid.dfy` (`Grid`): cell states, `makeGrid`, `UpdateNeighbours`, `h`, and walks through the grid (`Reachable`).
- `queue.dfy` (`Queue`): the `PriorityQueue` methods `Swap`, `Push`, `Pop`, `Less` and `Contains`, and `PopMin`, which stands for `heap.Pop`.
- `backtrack.dfy` (`Backtrack`): `reconstructPath`.
- `search.dfy` (`Search`): `algorithm`. Its loop invariant is split into named per-cell, per-key and per-item predicates, with one lemma per loop step showing that step keeps the invariant.
- `editor.dfy` (`Editor`): the click and space-key transitions of `run`.

Two behaviours of the code worth knowing:

- No cell is queued twice: `Contains` is checked before every push (`DistinctValues` is in the invariant), and a queued cell whose cost improves keeps its old priority.
- `reconstructPath` paints the start Path; only the end is restored to End.

## Model

| member | source | states |
|---|---|---|
| Matrix.Set | astar.go:46-72 | Reset and each MakeX change exactly the one cell, to exactly that state; every other cell keeps its state |
| Grid.MakeGrid | astar.go:154-167 | a grid exists exactly when rows > 0; it is rows x rows and every cell is Empty |
| Grid.Neighbours | astar.go:80-94 | at most 4 cells; a cell is listed iff it is in bounds, shares a side with c and is not a Barrier; listed in the order row+1, row-1, col+1, col-1 |
| Grid.NeighboursSeeOnlyBarriers | astar.go:80-94 | two grids with the same Barriers give the same neighbour lists, so recomputing after the search's repainting changes nothing |
| Grid.NeighbourTable | astar.go:336-341 | the rebuilt neighbour cache of every cell holds exactly the cells one Step away, equal to UpdateNeighbours of that cell |
| Grid.H | astar.go:149-152 | h is non-negative and is zero exactly when the two cells coincide |
| Grid.HSymmetric | astar.go:149-152 | h(a, b) = h(b, a) |
| Grid.AdjacentIsUnitDistance | astar.go:149-152 | two cells share a side iff h between them is 1 |
| Grid.HConsistent | astar.go:149-152 | one move changes the estimate to any target by at most 1 in either direction |
| Grid.HAdmissible | astar.go:149-152 | no walk from a to b takes fewer than h(a, b) moves |
| Grid.ReachedNotBarrier | astar.go:80-94 | any cell a walk enters after its first is in bounds and not a Barrier |
| Queue.Swap | astar.go:112-116 | the two slots exchange cell and priority, each is stamped with its new position, the rest is unchanged, and index consistency is kept |
| Queue.SwapInvolution | astar.go:112-116 | swapping the same two slots twice restores an index-consistent queue |
| Queue.Push | astar.go:118-123 | the queue grows by one at the end, the item is stamped with its position, earlier items are unchanged, and index consistency is kept |
| Queue.Pop | astar.go:125-132 | the last slot is removed with index -1, the length drops by one, and the rest is kept |
| Queue.PopAfterPush | astar.go:118-132 | Pop undoes Push, returning the pushed item with index -1 |
| Queue.Contains | astar.go:140-147 | true iff some queued item holds the cell |
| Queue.FindMin | astar.go:108-110 | the result is the first slot that no other slot is Less than |
| Queue.PopMin | astar.go:223 | removes an item whose priority is no greater than any other's; only its slot is refilled, by the last item, and index consistency is kept |
| Queue.PopMinQueued | astar.go:223 | after the pop, exactly the popped cell is no longer queued |
| Queue.PopMinDistinct | astar.go:223 | a queue without duplicate cells keeps none after a pop |
| Backtrack.PaintPath | astar.go:197-203 | a cell shows Path iff it lies on the path; every other cell keeps its state |
| Backtrack.FallingRanksDistinct | astar.go:197-203 | if the rank falls at each step of the chain, it falls between any two positions and no cell repeats |
| Backtrack.ReconstructPath | astar.go:197-203 | starts at end, follows cameFrom until a cell has no predecessor, visits no cell twice, and paints Path exactly the cells visited |
| Search.InitScores | astar.go:209-220 | every gScore and fScore is MaxInt32 except the start's: g = 0 and f = h(start, end); no predecessors |
| Search.Relaxed | astar.go:235-237 | a relaxation sets g[nb] = g[cur] + 1, f[nb] = g[nb] + h(nb, end) and cameFrom[nb] = cur; every other score, key and predecessor is unchanged |
| Search.InitKeepsInvariant | astar.go:206-220 | with the start pushed at priority 0 (not its fScore), the loop invariant holds before the first iteration |
| Search.RoomForOneMore | astar.go:213-219 | while some cell is unreached, the number of predecessors stays far enough below MaxInt32 that every real cost is below the sentinel |
| Search.KnownReachable | astar.go:231-237 | every cell with a finite gScore can be reached from the start by a walk |
| Search.ChainRanked | astar.go:234-236 | each predecessor has a non-negative gScore strictly below its successor's, so the cameFrom chain is acyclic |
| Search.PopKeepsInvariant | astar.go:222-223 | after the pop, the popped cell is reached and no longer queued, and the invariant holds with that cell under expansion |
| Search.RelaxKeepsScores | astar.go:232-237 | a relaxation happens only for a cell that is neither the start nor the current cell; the costs stay consistent and the sum of gScores falls |
| Search.RelaxedCost | astar.go:232-237 | the tentative cost of a relaxed cell is positive, below MaxInt32 and at most the number of predecessors after the relaxation |
| Search.RelaxKeepsChain | astar.go:234-236 | after cameFrom[n] = current, every predecessor is still one Step before its cell and strictly cheaper |
| Search.RelaxKeepsInvariant | astar.go:231-244 | a relaxed neighbour is pushed and painted Open only if it is not already queued (otherwise it keeps its old priority); the invariant holds and the sum of gScores falls |
| Search.SkipKeepsInvariant | astar.go:232-234 | a neighbour that is not relaxed was already reached, and the invariant holds |
| Search.CloseKeepsInvariant | astar.go:247-251 | once all neighbours are done, the current cell is painted Closed unless it is the start, and all its Steps lead to reached cells |
| Search.FoundOutcome | astar.go:225-228 | when end is popped, the reconstructed path is a Step chain from start to end without repeats; end shows End and every other path cell (the start included) shows Path |
| Search.ExhaustedOutcome | astar.go:222-254 | when the open set is empty, end is unreachable; reachable cells other than the start show Closed; every other cell keeps its state |
| Search.Expand | astar.go:231-251 | one expansion keeps the invariant; the sum of gScores falls, or nothing was relaxed and the open set is unchanged |
| Search.AStar | astar.go:204-255 | returns true iff end is reachable from start; then the painted path is a Step chain from start to end; otherwise the reachable cells other than the start are Closed and nothing else changes; only reachable cells are repainted |
| Editor.NewEditor | astar.go:290-297 | the initial editor is a 50 x 50 Empty grid with neither start nor end, and it is consistent |
| Editor.LeftClick | astar.go:309-321 | with no start, a click on any cell but the end places the start there; else with no end, a click on any cell but the start places the end; with both placed, a click on any other cell makes it a Barrier; clicking the start or end changes nothing; only the clicked cell changes and a placed start or end stays |
| Editor.RightClick | astar.go:322-332 | the clicked cell becomes Empty and no other cell changes; the start or end is forgotten only if it was the clicked cell |
| Editor.LeftClickKeepsConsistent | astar.go:309-321 | start and end stay distinct non-Barrier cells, and only they show Start and End |
| Editor.RightClickKeepsConsistent | astar.go:322-332 | the editor stays consistent, and the cleared cell is then neither start nor end |
| Editor.LeftClickIdempotent | astar.go:309-321 | a second left click on the same cell does nothing more |
| Editor.RightClickIdempotent | astar.go:322-332 | a second right click on the same cell does nothing more |
| Editor.RightClickUndoesLeftClick | astar.go:309-332 | a left click followed by a right click on the same cell gives the same editor as the right click alone |
| Editor.Space | astar.go:336-343 | with start and end placed, it reports whether end is reachable and repaints the grid as the search does: on success a Step chain from start to end painted as a path, otherwise every reachable cell other than the start Closed and nothing else changed; only reachable cells change; start, end and every Barrier stay and the editor stays consistent; without both placed nothing happens |

## Left out

- Drawing (`Spot.Draw`, `drawGrid`, `draw`, `sdl.Delay`): each redraw inside `algorithm` and `reconstructPath` is a no-op here.
- The window, renderer and event loop of `run`, the quit event, and `main`: these are I/O. Only the click and space-key transitions are modelled.
- The `findPath` goroutine and the `done` channel: the caller waits at once, so the search is a plain synchronous call.
- The `colors` package and `reflect.DeepEqual`: a cell's colour becomes the `State` enum. Each `IsX` is the discriminator `.X?`; each `MakeX` and `Reset` is `Matrix.Set`.
- `Spot.GetPos` and the `width` field: they serve drawing only. `total_rows` is the grid's side.
- `getClickedPos`: a click is given directly as a cell. Clicks must fall inside the grid, since an out-of-range index panics in Go.
- `Len`: the length of the sequence.
- `PriorityQueue.Update`: nothing calls it.
- `heap.Init` and the sift-up/sift-down internals of `container/heap`, which are not part of this model.
- Queue.PopMin: it promises only the min-pop contract of `heap.Pop`. Among equal priorities it takes the first slot, where `container/heap` takes the heap root. So the expansion order among ties, and with it which of several equal-length paths is found, is not modelled.
- Search.AStar: it requires the grid side to be at most 46340, so that n*n fits below MaxInt32 and every real cost stays below the sentinel. `run` uses 50.
- Search.AStar: it states that the path is a valid, repeat-free walk from start to end. It does not state that the path is a shortest one. An improved cell that is already queued keeps its stale priority, and ties depend on the heap internals.
- Search.AStar: it takes the neighbour cache as a table and requires that table to equal the current neighbour lists. The space key rebuilds the caches just before every search.
- `h` converts its arguments through float64 and `math.Abs`. It is modelled as an integer absolute value, which is exact for int32 differences. The Go call passes (col, row) where the model passes (row, col); h is symmetric in the two axes, so the value is the same.
- Go's `int` and `int32` widths: all arithmetic is on unbounded integers. With the side bound, no value in the search comes near 2^31.
- The identity of `*Spot` references: cells are identified by their coordinates.
- Editor.Consistent: it is one-directional (a cell showing Start is the start, and one showing End is the end). The converse fails after a successful search, which paints the start Path.
- Editor.Space: the `found` it returns is a value the program throws away (`findPath` discards the result of `algorithm`); the visible effect is the repainted grid.
