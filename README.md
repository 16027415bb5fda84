# mazo — a verified model of the maze core

mazo draws and solves mazes on an N-dimensional torus. A shape such as
`[5, 4, 3]` gives the number of cells along each axis, and a cell is one
coordinate per axis. Every cell has a wall towards its successor along each
axis. The successor of the last cell of an axis is cell 0, so every axis
wraps around. The walls of the maze are stored in one flat `Vec<bool>`.
The slot of a wall is its cell read as a mixed-radix number (the first
axis is the least significant digit), plus the cell count times the wall's
axis. `true` means the wall is there.

The model has three modules, one per concern of the source:

- `Torus` (`torus.dfy`) holds the geometry of `src/main.rs`:
  - walls and the wall-slot arithmetic;
  - `traverse`, `Wall::from_cell`, `Wall::get_neighbour_cells` and `neighbours`;
  - the set of all cells and the fact that single steps reach every cell.
- `BinaryHeap` (`heap.dfy`) is `src/binary_heap.rs`. It is an indexed binary
  min-heap: a vector in heap order plus a key-to-slot map. `push` takes a
  `PushAction`: `Keep`, `DecreaseKey` or `IncreaseKey`. The class keeps a
  ghost `contents` map (key to stored item) as its abstract value.
- `Mazes` (`maze.dfy`) is the `Maze` struct of `src/main.rs`, written as a
  class:
  - `walls` and `axes` are arrays;
  - `start`, `end` and `position` are sequence fields;
  - `Generate` is the randomised frontier-growth generator;
  - `Solve` is the best-first search, followed by a walk back along the
    predecessor links;
  - `Walk`, `Start` and `SetViewAxis` are the player moves.

The main results:

- **Wall slots.**
  - The wall slot is a bijection between valid walls and `0 .. WallCount`
    (`WallIndexRoundTrip`, `DecodeWallRoundTrip`).
  - `ComputeWallIndex`'s loop computes exactly that slot.
  - Writing one slot changes that wall and no other (`WriteOneWall`).
- **Generate.** Afterwards exactly `CellCount - 1` walls are open, and every
  cell is reachable from `start` through open walls. So the open walls form
  a spanning tree of the torus.
- **Solve.**
  - Every path it returns starts at `start`, ends at `end` and moves one open
    wall at a time.
  - When `start == end` it returns `[start]`.
  - It reports `NoPathFound` only when `end` cannot be reached from `start`
    through open walls.
  - It terminates for any heuristic.
- **The heap.**
  - `Push` and `Pop` keep heap order and the map/vector agreement that the
    source's `sanity_check` asserts.
  - `Push` follows the three `PushAction` rules.
  - `Pop` removes an item of minimum value, and repeated pops come out in
    non-decreasing order.

## Model

| member | source | states |
|---|---|---|
| BinaryHeap.RootIsMinimum | src/binary_heap.rs:118-135 | in a heap-ordered vector the root's value is no greater than any slot's value |
| BinaryHeap.RootIsMinimumOfContents | src/binary_heap.rs:118-135 | the root's value is no greater than the value stored for any key |
| BinaryHeap.SmallerChild | src/binary_heap.rs:57-68 | the chosen slot is a child of `k` whose value is no greater than that of any child of `k` (right child on a tie) |
| BinaryHeap.SiftUpStep | src/binary_heap.rs:43-51 | swapping a slot with a parent that is not strictly smaller moves the only heap-order fault up to the parent |
| BinaryHeap.SiftDownStep | src/binary_heap.rs:69-76 | swapping a slot with its smaller child when that child is not strictly larger moves the only fault down to the child |
| BinaryHeap.SiftUpDone | src/binary_heap.rs:43-47 | stopping at the root or below a strictly smaller parent leaves the whole vector heap-ordered |
| BinaryHeap.SiftDownDone | src/binary_heap.rs:60-72 | stopping at a leaf or above a strictly larger child leaves the whole vector heap-ordered |
| BinaryHeap.SwapAgrees | src/binary_heap.rs:49-51 | swapping two slots and writing both new slot numbers to the map keeps the map, the vector and the abstract contents in agreement |
| BinaryHeap.Swap | src/binary_heap.rs:51 | the two slots are exchanged and every other slot is kept |
| BinaryHeap.LowerAt | src/binary_heap.rs:89-94 | lowering one slot's value breaks heap order only between that slot and its parent |
| BinaryHeap.RaiseAt | src/binary_heap.rs:96-101 | raising one slot's value breaks heap order only between that slot and its children |
| BinaryHeap.AppendAt | src/binary_heap.rs:105-110 | appending an item breaks heap order only above the new last slot |
| BinaryHeap.LastToRoot | src/binary_heap.rs:123-131 | moving the last item to the root breaks heap order only below the root |
| BinaryHeap.ReplaceAgrees | src/binary_heap.rs:93 | overwriting a stored key's slot with its new item keeps the map, vector and contents in agreement |
| BinaryHeap.AppendAgrees | src/binary_heap.rs:105-109 | appending a new key's item, mapped to the new last slot, keeps them in agreement |
| BinaryHeap.RemoveRootAgrees | src/binary_heap.rs:123-128 | after swap_remove of the root, dropping its key and mapping the moved item to slot 0, they are in agreement and the contents lose exactly the root's key |
| BinaryHeap.SiftUpMove | src/binary_heap.rs:43-51 | one exchange of sift_up keeps the loop invariant, now at the parent |
| BinaryHeap.SiftDownMove | src/binary_heap.rs:56-76 | one exchange of sift_down keeps the loop invariant, now at the child |
| BinaryHeap.DrainStart | src/binary_heap.rs:204 | after the first pop, the popped item is the one stored under its key and every other stored key is still stored |
| BinaryHeap.DrainStep | src/binary_heap.rs:206-209 | one more pop keeps every popped item the one stored under its key, keys distinct, and every stored key either still stored, just popped or popped earlier |
| BinaryHeap.OrderStep | src/binary_heap.rs:206-208 | popping a minimum of the remaining items keeps the popped values non-decreasing |
| BinaryHeap.IndexAgrees | src/binary_heap.rs:138-143 | (predicate) every slot's key maps to that slot, which is what `sanity_check` asserts, and also every mapped key's slot exists and holds that key, which `sanity_check` does not assert |
| BinaryHeap.BinaryHashHeap.Valid | src/binary_heap.rs:138-143 | (predicate) map and vector agree in both directions, the ghost contents give each key's item, and the vector is in heap order |
| BinaryHeap.BinaryHashHeap.constructor | src/binary_heap.rs:20-27 | the new heap is empty and valid |
| BinaryHeap.BinaryHashHeap.SiftUp | src/binary_heap.rs:42-53 | from a vector whose only fault is above slot `k0`, it restores heap order, keeps the length and the same keyed items, and keeps map and vector in agreement |
| BinaryHeap.BinaryHashHeap.SiftDown | src/binary_heap.rs:55-78 | from a vector whose only fault is below slot `k0`, it restores heap order, keeps the length and the same keyed items, and keeps map and vector in agreement |
| BinaryHeap.BinaryHashHeap.Push | src/binary_heap.rs:83-115 | a new key is always inserted (length + 1). For a stored key, the result is false for Keep, "strictly smaller" for DecreaseKey and "strictly larger" for IncreaseKey. The contents change to the new item exactly when the result is true, and nothing changes when it is false. Validity is kept |
| BinaryHeap.BinaryHashHeap.Pop | src/binary_heap.rs:118-135 | None exactly on an empty heap (no key stored), which is then left unchanged; otherwise it returns the stored item of some key, removes exactly that key, shortens by one, and the returned value is no greater than every remaining value |
| BinaryHeap.BinaryHashHeap.DrainInOrder | src/binary_heap.rs:203-211 | popping until empty returns every stored item exactly once (each popped item is the item stored under its key, no key comes out twice, every stored key comes out) with values in non-decreasing order, and leaves the heap empty |
| Torus.CellCount | src/main.rs:78 | a shape whose axes are all non-empty has at least one cell |
| Torus.WallCount | src/main.rs:78 | (definition) the wall vector has one slot per cell and axis |
| Torus.WallCountBounds | src/main.rs:78 | for a shape without empty axes there is at least one wall per axis and, when there is an axis, at least one per cell |
| Torus.Flatten | src/main.rs:95-98 | (definition) the accumulated index reads the cell as a mixed-radix number, first coordinate least significant; its properties are the lemmas below |
| Torus.FlattenLowDigit | src/main.rs:95-96 | the first coordinate is the cell number's remainder by the first axis size (the least significant digit) |
| Torus.WallIndex | src/main.rs:91-102 | every valid wall's slot is below the wall count |
| Torus.Unflatten | src/main.rs:91-102 | decoding any number gives a valid cell |
| Torus.DecodeWall | src/main.rs:91-102 | decoding any slot gives a wall at a valid cell |
| Torus.FlattenBelowCellCount | src/main.rs:95-98 | a valid cell's mixed-radix number is below the cell count |
| Torus.UnflattenFlatten | src/main.rs:95-98 | decoding a valid cell's number gives back the cell |
| Torus.FlattenUnflatten | src/main.rs:95-98 | every number below the cell count is the number of the cell it decodes to |
| Torus.WallIndexRoundTrip | src/main.rs:91-102 | decoding a valid wall's slot gives back the wall |
| Torus.DecodeWallRoundTrip | src/main.rs:91-102 | every slot below the wall count decodes to a valid wall whose slot is that slot |
| Torus.WallIndexInjective | src/main.rs:91-102 | distinct valid walls have distinct slots |
| Torus.FlattenSnoc | src/main.rs:95-97 | one more loop step adds the new coordinate times the stride |
| Torus.CellCountSnoc | src/main.rs:97 | one more loop step multiplies the stride by the axis size |
| Torus.Traverse | src/main.rs:106-128 | the result is a valid cell that differs from the input only on `axis`, where it is one more modulo the axis size (forward) or one less modulo it (backward) |
| Torus.TraverseInverse | src/main.rs:106-128 | a step forward undoes a step backward along the same axis, and the other way round |
| Torus.Crossing | src/main.rs:136 | the wall crossed by a step is a valid wall |
| Torus.CrossingSeparates | src/main.rs:131-141 | the wall crossed by a step from `p` separates exactly `p` and the cell stepped to |
| Torus.NeighbourCells | src/main.rs:44-55 | the two cells of a wall are its own cell and the next cell along its axis |
| Torus.WallsOfCell | src/main.rs:25-41 | a cell has `2 * D` walls |
| Torus.FromCell | src/main.rs:25-41 | the loop builds exactly the walls of the cell: per axis, the wall at the cell, then the wall at the cell before it |
| Torus.WallsOfCellTouch | src/main.rs:25-41 | each wall of a cell is valid and has that cell among its two neighbour cells |
| Torus.WallsOfCellAllTouch | src/main.rs:25-41 | every wall of a cell is valid and is either at the cell or crossed by a step forward into it |
| Torus.Neighbours | src/main.rs:131-141 | a cell has `2 * D` (wall, neighbour) pairs |
| Torus.NeighboursSeparate | src/main.rs:131-141 | each pair is a valid wall and a valid cell, and the wall's two cells are exactly the cell and that neighbour |
| Torus.PrependAllMembers | src/main.rs:78 | a cell is in the product set exactly when its head is below `n` and its tail is in the smaller set |
| Torus.AllCellsExactly | src/main.rs:78 | the enumerated cells are exactly the valid cells |
| Torus.PrependCard | src/main.rs:78 | prepending a coordinate keeps the number of cells |
| Torus.PrependAllCard | src/main.rs:78 | one more axis of size `n` multiplies the number of cells by `n` |
| Torus.AllCellsCard | src/main.rs:78 | there are exactly `CellCount` cells, the product the source allocates walls for |
| Torus.StepUpTo | src/main.rs:106-112 | a set closed under forward steps that holds `c` holds `c` with any larger coordinate on one axis |
| Torus.SetCoordinate | src/main.rs:106-112 | going forward and wrapping, such a set holds `c` with any value on one axis |
| Torus.ReachPrefix | src/main.rs:106-112 | such a set holds the cell that takes the first `k` coordinates from any cell and the rest from a member |
| Torus.EveryCellReached | src/main.rs:106-112 | a set closed under forward steps that holds one cell holds every cell |
| Mazes.CountOpen | src/main.rs:67 | there are no more open walls than walls |
| Mazes.OpenOneMore | src/main.rs:187-189 | opening a present wall raises the open count by exactly one |
| Mazes.AllClosedNoneOpen | src/main.rs:143-145 | after every wall is put back, no wall is open |
| Mazes.WriteOneWall | src/main.rs:152-155 | writing one wall's slot changes that wall and no other valid wall |
| Mazes.CrossingSymmetric | src/main.rs:281-305 | the wall a step forward crosses is the wall the step back crosses |
| Mazes.Step | src/main.rs:281-305 | one move of the player ends on a valid cell: the start cell or the next cell in the requested direction |
| Mazes.StepBack | src/main.rs:281-305 | a move that went through can be undone by the opposite move, which crosses the same open wall and returns the player to the cell they left |
| Mazes.SwapRemove | src/main.rs:172 | removing one slot by moving the last element into it drops exactly one copy of that element and keeps every other |
| Mazes.ClosedWalls | src/main.rs:177-181 | the queued walls are no more than the walls looked at |
| Mazes.ClosedWallsNext | src/main.rs:178-180 | looking at one more wall appends it to the queue exactly when it is present |
| Mazes.ClosedWallsMembers | src/main.rs:177-181 | the queued walls are exactly the present walls among those looked at |
| Mazes.GrowthStart | src/main.rs:167-170 | with every wall present, the start cell and its walls as frontier satisfy the generator's invariant |
| Mazes.GrowthSkip | src/main.rs:172-186 | dropping a frontier wall whose two cells are both visited keeps the invariant |
| Mazes.WallsOfCellAreValid | src/main.rs:177 | every wall of a valid cell is valid |
| Mazes.VisitKeepsFrontier | src/main.rs:175-182 | the frontier still touches the grown visited region after a visit |
| Mazes.OpenKeepsJoins | src/main.rs:187-189 | opening a wall between visited cells keeps every open wall between visited cells |
| Mazes.VisitKeepsCovered | src/main.rs:172-182 | every forward step from a visited cell still leads to a visited cell or crosses a frontier wall |
| Mazes.GrowthVisit | src/main.rs:172-189 | visiting the unvisited cell beside the chosen wall, queueing its present walls and opening that wall (which was present) keeps the invariant and the count open + 1 == visited |
| Mazes.GrowthDone | src/main.rs:171 | once the frontier is empty every cell is visited, and the open walls number one fewer than the cells |
| Mazes.OpenPathPrepend | src/main.rs:239-246 | a cell one open step before an open path extends it to an open path |
| Mazes.OpenStepStaysOpen | src/main.rs:187-189 | opening a wall keeps every open step open |
| Mazes.OpenPathStaysOpen | src/main.rs:187-189 | opening a wall keeps every open path open |
| Mazes.StepThrough | src/main.rs:187-189 | once a wall is open, each of its two cells is one open step from the other |
| Mazes.OpenPathAppend | src/main.rs:187-189 | an open path extended by one open step is open |
| Mazes.RoutesStart | src/main.rs:167 | the start cell is reached by the one-cell path |
| Mazes.RoutesVisit | src/main.rs:175-189 | opening the wall from a reached cell to a new cell reaches the new cell and keeps every route found so far |
| Mazes.RoutesReach | src/main.rs:171-190 | once every cell has a route from the start, every cell is reachable from the start |
| Mazes.PendingStep | src/main.rs:250-268 | handling one more neighbour keeps the "open unvisited neighbour is queued" property for the pairs handled so far |
| Mazes.NeighbourStep | src/main.rs:250-258 | a neighbour behind an open wall is one open step from the node |
| Mazes.LinksExtend | src/main.rs:268 | recording the node as the predecessor of a neighbour one open step away keeps every link an open step |
| Mazes.AllNeighboursPending | src/main.rs:250-269 | after the loop, every open unvisited neighbour of the node is in the open set |
| Mazes.FrontierAfterVisit | src/main.rs:250-271 | after the node is expanded and marked visited, every open step out of a visited cell leads to a visited or open cell |
| Mazes.VisitedNeighboursPending | src/main.rs:234-271 | a node popped again after it was visited already has its open unvisited neighbours in the open set |
| Mazes.VisitShrinks | src/main.rs:270 | visiting a new valid cell leaves fewer unvisited cells |
| Mazes.RevisitKeeps | src/main.rs:270 | re-inserting a visited cell leaves the unvisited cells unchanged |
| Mazes.LinksRemove | src/main.rs:240 | removing a link keeps every other link an open step and shrinks the link map |
| Mazes.RemoveThenAdd | src/main.rs:234 | the popped key and the remaining keys together are the keys before the pop |
| Mazes.Maze.constructor | src/main.rs:71-89 | start, end and position are the origin, the first two axes are shown, every one of `CellCount * D` walls is present, and the maze is valid for a shape without empty axes |
| Mazes.Maze.ComputeWallIndex | src/main.rs:91-102 | the loop's index is the wall's mixed-radix slot `WallIndex` |
| Mazes.Maze.Neighbours | src/main.rs:131-141 | the loop builds exactly `Torus.Neighbours` of the cell |
| Mazes.Maze.ResetWalls | src/main.rs:143-145 | every wall is present afterwards |
| Mazes.Maze.GetWall | src/main.rs:147-150 | reads the wall's own slot |
| Mazes.Maze.SetWall | src/main.rs:152-155 | writes the wall's own slot and no other |
| Mazes.Maze.Start | src/main.rs:277-279 | the player is at the start cell |
| Mazes.Maze.SetViewAxis | src/main.rs:307-311 | the screen axis is set when both numbers are in range; otherwise nothing changes |
| Mazes.Maze.Walk | src/main.rs:281-305 | the player ends at `Step` of the old position: one cell along the shown axis exactly when the wall crossed by that step is open, and otherwise where they were; with `StepBack`, a move that went through is undone by walking the other way |
| Mazes.Maze.VisitCell | src/main.rs:176-183 | the cell becomes visited and exactly its present walls, in `from_cell` order, are appended to the frontier |
| Mazes.Maze.Generate | src/main.rs:157-191 | start and end are valid cells. Exactly one wall fewer than there are cells is open, and every cell is reachable from start: a spanning tree |
| Mazes.Maze.Grow | src/main.rs:167-190 | from a reset maze, the growth loop terminates with CellCount - 1 open walls and every cell reachable from start |
| Mazes.Maze.Solve | src/main.rs:203-275 | a returned path leads from start to end through open walls one step at a time; start == end gives `[start]`; `NoPathFound` comes back only when end is not reachable from start; the search terminates |
| Mazes.Maze.Advance | src/main.rs:250-271 | one search round keeps the search invariant (links are open steps; every open step out of a visited cell reaches a visited or pending cell), loses no cell that was pending (each is now visited, still in the heap or the next node), leaves the heap empty when nothing is popped, and shrinks the unvisited cells or the open set |
| Mazes.Maze.Expand | src/main.rs:250-269 | pushes grow the open set's keys, which afterwards hold every open unvisited neighbour; the link map stays open steps; when they were already all there, no push adds a new key (the heap keeps its size), although a DecreaseKey push may still replace a stored item |
| Mazes.Maze.FollowLinks | src/main.rs:236-247 | following links back from end to start yields a path from start to end through open walls; start == end gives `[start]`; its only error is `MissingLink` |
| Mazes.PathStaysVisited | src/main.rs:234-274 | once nothing is pending, an open path that starts at a visited cell never leaves the visited cells |
| Mazes.SearchExhausted | src/main.rs:234-274 | a search that empties its heap, having visited `from` but not `to`, proves `to` unreachable from `from` through open walls |

## Left out

- The terminal user interface, key handling, drawing and the command line (`src/main.rs` from line 314 on, including `parse_dimension`) are not part of this model.
- Randomness: each `rng.random_range(0..n)` in `generate` is a nondeterministic choice (`:|`) of a value in the same range. The uniformity of the choice is not modelled.
- `distance` (`src/main.rs:195-201`) is not modelled. `Mazes.Maze.Solve` takes the heuristic as a function parameter, and its contract holds for every heuristic. The source's formula casts `div_euclid` results to `usize`, so a negative difference becomes `usize::MAX` and the additions overflow. The model does not reproduce this.
- Integer widths: `usize` is modelled as unbounded `nat`. Overflow of the wall count, the wall index, `g_score` or `f_score` is not modelled.
- Item values: `BinaryHeap.Item` has an `int` value rather than any `Ord` type.
- Heap storage: the `HashMap`/`HashSet` internals are replaced by Dafny maps and sets. The unsafe slot pointers in `push` and `pop` become local slot numbers that are written back to the map.
- BinaryHeap.BinaryHashHeap.SiftDown: the `(None, Some(_))` arm of `sift_down` cannot occur in a vector and is not modelled.
- Mazes.Maze.Solve: the contract does not claim that `MissingLink` never comes back, nor that the path is shortest. It states that a returned path is sound and that `NoPathFound` means `end` is unreachable (so on a generated maze, where every cell is reachable, it never comes back).
- Mazes.Maze.Solve: the source builds the path by pushing and then reversing. The model prepends each cell, which gives the same sequence.
- Mazes.Maze.Solve: the source's panics (`unwrap` on a missing link, "No path found") become the `MissingLink` and `NoPathFound` error results.
- Mazes.Maze.Solve: the body is split into `Advance`, `Expand` and `FollowLinks`. This changes no behaviour.
- Mazes.Maze.Generate: the growth loop is the separate method `Grow`.
- Mazes.Maze.Generate: the loop over the two neighbour cells of a wall is unrolled.
- Mazes.Maze.Generate: requires a shape with no empty axis. On a zero-size axis the source panics in `random_range(0..0)`.
- Mazes.Maze.Generate: the contract does not state that walls only ever go from present to absent. This follows from `Grow` calling `SetWall(_, false)` only after `ResetWalls`.
- Mazes.Maze.ComputeWallIndex: requires a position with one coordinate per axis. `zip` in the source would silently stop at the shorter of the two.
- Mazes.Maze.Walk: requires the shown axis to exist. For a one-dimensional maze the default `axes[1] = 1` is out of range, and the source would panic when indexing with it.
- Mazes.Maze.constructor: accepts any shape, like the source. Validity of the maze is promised only for shapes without empty axes.
