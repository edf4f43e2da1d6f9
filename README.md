# Binary-grid connectivity toolkit, verified in Dafny

This project models the grid-connectivity part of the stencil-art pipeline:
the routines in `src/image_utils.py` that make a black-and-white stencil
printable as one connected piece. A stencil is a 0/1 matrix. The zero cells
form the piece to print. The routines are:

- `bresenham_line` rasterises an integer segment. It is modelled in module `Bresenham`.
- `connect_all_zeros` does the main work and updates its matrix in place:
  - it labels the 4-connected components of zero cells by breadth-first search (module `ZeroComponents`);
  - it fills every component of at most four cells with ones;
  - it then repeatedly finds a close pair of "bordering ones" between two components (module `Bridging`);
  - it carves a clamped Bresenham path of zeros between that pair and recomputes the components, until at most one is left or no pair is selected (module `Connect`). Each carving writes a zero over a 1, so the number of ones bounds the number of rounds.
- `make_ones_bigger` is a one-step 4-neighbour dilation of the ones into a fresh copy (module `Dilation`).
- `stencil_to_connected` thresholds an image to 0/1, connects it and maps it back to 0/255 pixels (module `Stencil`).

Module `Lattice` holds the shared vocabulary:
- cells;
- 4-adjacency and the source's direction list;
- lexicographic order, which is Python's tuple order;
- a value snapshot `Grid` of a matrix.

How the model takes the source's form:
- It follows the source's data flow. Matrices are `array2<int>` and the updating routines are methods with `modifies` clauses. Every loop of the source is a `while` or `for` loop with invariants.
- Each method is proved against a specification stated over `Snapshot(m)`. Examples: `IsComponentList` for the component labelling, `FirstMin(Trace(...))` for the two-pointer sweep, `DilatedAt` for the dilation.
- The Python `set`s and `list`s these routines build are Dafny `set`s and `seq`s.
- The deque is a `seq` that the search pops from the front, and the `visited` set is threaded through the searches.

## Model

| member | source | states |
|---|---|---|
| Bresenham.BresenhamLine | src/image_utils.py:11-53 | Several properties of the returned point list. It has `max(|dx|, |dy|) + 1` points, so equal endpoints give one point. The first point is `(x1, y1)` and the last is `(x2, y2)`. Each step moves x only by `sx` and y only by `sy`, at most one unit each, and never stays put. Every point lies in the box spanned by the endpoints. The k-th point is the point of the walk after k passes of the loop body (`OnWalk`). |
| Bresenham.Advance | src/image_utils.py:40-51 | One pass of the loop body away from the end point is the walk's step. It keeps the error equal to the start error plus `u*dy - v*dx`, moves one unit along the major axis, never past an endpoint, and stays in the box. |
| Bresenham.WalkNext | src/image_utils.py:32-51 | The walk after k + 1 passes is one more pass of the loop body from the walk after k. |
| Bresenham.OnWalkExtend | src/image_utils.py:32-34 | Appending the walk's next point to a prefix of the walk gives a longer prefix of the walk. |
| Bresenham.StepOnce | src/image_utils.py:41-51 | Defines one pass of the loop body. Both tests read the error from before the pass. x moves by `sx` when `e2 > -dx`, and y by `sy` when `e2 < dy`, with the error adjusted by each move. `Bresenham.Advance` proves the loop body computes it. |
| Bresenham.WalkFrom | src/image_utils.py:30-51 | Defines the point and error after k passes of the loop from `(x1, y1)` with start error `e0`, leaving out the exit test. `Bresenham.WalkNext` and `Bresenham.Advance` tie it to the loop. |
| Bresenham.Walk | src/image_utils.py:24-51 | Defines the walk with the truncated start error `InitialError`. `Bresenham.BresenhamLine` ensures its k-th point is `Walk(..., k)`'s point (`OnWalk`). |
| Bresenham.Line | src/image_utils.py:11-53 | Defines the whole returned list: the first `max(|dx|, |dy|) + 1` points of `Walk`. `Bresenham.OnWalkIsLine` with `BresenhamLine`'s ensures shows the returned list is `Line`. |
| Bresenham.OnWalkIsLine | src/image_utils.py:32-53 | A point list of length `max(|dx|, |dy|) + 1` that follows the walk is exactly `Line`, the whole Bresenham line between the endpoints. So the drawn line depends only on the endpoints. |
| Bresenham.InitialError | src/image_utils.py:23-27 | The start error is in `[0, dx/2]` when x is the major axis and in `[-(dy/2), 0]` otherwise, with the halving truncated as the loop needs. |
| Bresenham.WalkStep | src/image_utils.py:40-51 | One pass of the loop body keeps the error equal to the start error plus `u*dy - v*dx`, where u and v are the steps still to take. It never steps past an endpoint and always steps along the major axis. This is why the loop ends. |
| Bresenham.WalkExtend | src/image_utils.py:32-34 | Appending the next point to a walk that stays in the box keeps it a walk in the box with the same first point. |
| Bresenham.LineStepIsEightNeighbour | src/image_utils.py:40-51 | Consecutive points of the walk are 8-neighbours: their Chebyshev distance is exactly 1. |
| Bresenham.InitialErrorAsWritten | src/image_utils.py:24-27 | The source's `-dy // 2` floors. For odd `dy` on a y-major line it is one below the truncated start error, and on every other input the two agree. |
| Bresenham.WalkAsWritten | src/image_utils.py:23-51 | The walk with the source's floored start error. Except on y-major lines with odd `dy`, it is the walk BresenhamLine takes, pass for pass. |
| Bresenham.AsWrittenDrawsOtherPoints | src/image_utils.py:24-51 | From (0, 0) to (1, 3), a line the source does finish, the source's walk passes (0, 2) where the truncated walk passes (1, 2). Both reach (1, 3) after three passes. |
| Bresenham.DiagonalWalkAsWritten | src/image_utils.py:32-51 | As written, the walk from (0, 0) towards (1, 1) is at `(k-1, k)` with error 0 after k ≥ 1 passes. |
| Bresenham.AsWrittenNeverReachesEnd | src/image_utils.py:27-51 | As written, the walk from (0, 0) towards (1, 1) never visits (1, 1), so the exit test never fires. |
| ZeroComponents.InsertBySize | src/image_utils.py:89 | Inserting into a list by length gives a permutation of the old entries plus the inserted one. The head is the inserted entry or the old head. |
| ZeroComponents.InsertKeepsSorted | src/image_utils.py:89 | Inserting into a list sorted by size keeps it sorted. |
| ZeroComponents.SortBySize | src/image_utils.py:89 | `sorted(components, key=len)`: a permutation of its input whose lengths never decrease. |
| ZeroComponents.InsertKeepsDisjoint | src/image_utils.py:89 | Inserting an entry disjoint from all others keeps the list pairwise disjoint. |
| ZeroComponents.SortKeepsDisjoint | src/image_utils.py:89 | Sorting a pairwise disjoint list of components keeps it pairwise disjoint. |
| ZeroComponents.SortKeepsComponentList | src/image_utils.py:89 | Sorting a decomposition of the zero cells gives a decomposition of the same zero cells. |
| ZeroComponents.ChainedByIsChained | src/image_utils.py:73-80 | When each discovered cell records the earlier cell it was found from, every cell after the first is adjacent to an earlier one. |
| ZeroComponents.ExploreNeighbours | src/image_utils.py:73-80 | Looking at the four neighbours of the dequeued cell has four effects. It keeps the search state: distinct zero cells, unvisited before the search, each found from an earlier one. It only appends to the component and only enqueues what it appends. It enqueues nothing if nothing new is visited. Afterwards every zero neighbour of the cell is visited. |
| ZeroComponents.Bfs | src/image_utils.py:64-82 | The search from an unvisited zero cell returns a component: non-empty, distinct, all zero, 4-chained from its start, and closed under zero neighbours. `visited` grows by exactly its cells, none of which was visited before, and stays closed. |
| ZeroComponents.ScanStep | src/image_utils.py:85-88 | Appending a component found by a search to the scan's list keeps the list of components disjoint, with `visited` holding exactly their cells. |
| ZeroComponents.FindComponents | src/image_utils.py:60-90 | The result is a decomposition of the zero cells. Every entry is a 4-connected component, no two entries share a cell, and every in-bounds zero cell is in some entry. The entries are sorted by non-decreasing size. |
| ZeroComponents.ChainBackToRoot | src/image_utils.py:64-82 | A closed set that holds some cell of a component also holds the component's first cell. |
| ZeroComponents.ChainFromRoot | src/image_utils.py:64-82 | A closed set that holds a component's first cell holds all of the component. |
| ZeroComponents.ComponentsSharingACellAgree | src/image_utils.py:60-90 | Two components that share a cell have the same cells. |
| ZeroComponents.DistinctCard | src/image_utils.py:64-82 | A list of distinct cells has as many elements as its set of cells. |
| ZeroComponents.ComponentsSharingACellSameSize | src/image_utils.py:60-90 | Two components that share a cell have the same size. |
| ZeroComponents.RootPath | src/image_utils.py:64-82 | In a chained list there is a 4-path inside the list from its first cell to any of its cells. |
| ZeroComponents.ChainedIsConnected | src/image_utils.py:64-82 | Any two cells of a chained list are joined by a 4-path that stays inside the list. |
| ZeroComponents.ComponentsAreConnected | src/image_utils.py:60-90 | Each component of a decomposition is 4-connected: any two of its cells are joined by a 4-path inside it. |
| Bridging.FindBorderingOnes | src/image_utils.py:92-101 | The result is exactly the in-bounds cells of value 1 that are 4-adjacent to some cell of the component. |
| Bridging.FindAllBorders | src/image_utils.py:152 | There is one border set per component, in order. Each is exactly that component's bordering ones, and all of them are in bounds. |
| Bridging.BorderListSnoc | src/image_utils.py:152 | Appending the bordering ones of the next component extends a list of border sets of the first components by one entry. |
| Bridging.BorderCellIsOne | src/image_utils.py:92-101 | A cell of any border set is a 1 of the matrix. |
| Bridging.LexMinOf | src/image_utils.py:106-107 | A non-empty set of cells has a least element in `(x, y)` order. |
| Bridging.SortedCells | src/image_utils.py:106-107 | The sorted list holds exactly the cells of the set. |
| Bridging.ConsSorted | src/image_utils.py:106-107 | Putting a cell smaller than every element in front of a strictly increasing list keeps it strictly increasing. |
| Bridging.SortedCellsIsSorted | src/image_utils.py:106-107 | The sorted list has one entry per cell and is strictly increasing in `(x, y)` order. |
| Bridging.Trace | src/image_utils.py:114-133 | The sweep from `(i, j)` looks at no more pairs than `|a| - i + |b| - j`, since each round advances a pointer. |
| Bridging.TraceProperties | src/image_utils.py:114-133 | Every pair the sweep visits takes its first cell from the first list and its second from the second. The sweep visits some pair exactly when neither list is used up. |
| Bridging.TraceStep | src/image_utils.py:115-133 | One round of the sweep: it stops after a distance-0 pair, and otherwise advances the pointer whose cell is lexicographically behind. |
| Bridging.FirstMin | src/image_utils.py:111-124 | The running minimum finds no pair exactly when no pair was visited, and a found pair's distance is its Manhattan distance. |
| Bridging.FirstMinProperties | src/image_utils.py:111-124 | The running minimum finds a pair exactly when the sweep visited one. The pair is one of those visited, its distance is its Manhattan distance, and no visited pair is closer. |
| Bridging.FirstMinIsFirst | src/image_utils.py:122-124 | The running minimum keeps the first pair of least distance, because the update uses strict `<`: every earlier visited pair is strictly farther apart. |
| Bridging.FirstMinSnoc | src/image_utils.py:120-124 | Visiting one more pair replaces the best pair only when the new one is strictly closer. |
| Bridging.SweepBest | src/image_utils.py:104-135 | The sweep over the two sorted sets finds no pair exactly when one of the sets is empty. |
| Bridging.SweepBestProperties | src/image_utils.py:104-135 | Seen from the two sets, there is no pair exactly when one set is empty. Otherwise the pair takes `p1` from the first set and `p2` from the second, its distance is their Manhattan distance, and no pair the sweep visits is closer. |
| Bridging.Sweep | src/image_utils.py:109-135 | The two-pointer loop returns the first closest pair among the pairs its trace visits. |
| Bridging.SweepRound | src/image_utils.py:115-133 | One pass of the two-pointer loop visits the next pair of the trace and keeps it only when strictly closer. It stops exactly at distance 0, and otherwise the rest of the trace goes on from the advanced pointers. |
| Bridging.FindMinLatticeDistance | src/image_utils.py:104-135 | The result is the sweep's pair. It is `(None, inf)` exactly when an input is empty. Otherwise `p1` is in `c1`, `p2` is in `c2`, and the distance is `|p1.x-p2.x| + |p1.y-p2.y|`. |
| Bridging.BeatsAntitone | src/image_utils.py:161-163 | A candidate that does not beat a bound does not beat a smaller one. |
| Bridging.SelectBestPair | src/image_utils.py:155-163 | The selection loop skips equal border sets. A selected pair is the sweep result of some ordered pair of differing border sets, closer than 10000, with both cells in border sets. No ordered pair of differing sets gives a strictly closer result. When nothing is selected, no such pair gives a result below 10000. |
| Connect.RemoveSmallComponents | src/image_utils.py:139-142 | Every cell of a component with at most four cells becomes 1, and every other cell keeps its value. |
| Connect.LargeComponentSurvives | src/image_utils.py:137-144 | A component of more than four cells is still a component after the cleanup. |
| Connect.CleanupLeavesLargeComponents | src/image_utils.py:137-144 | After the cleanup every zero component has more than four cells. |
| Connect.Clamp | src/image_utils.py:170-173 | The clamped coordinate lies in `[0, n-1]`, and an in-range coordinate is unchanged. |
| Connect.Offset | src/image_utils.py:168-173 | Every cell written beside a path point is inside the matrix. |
| Connect.CarveAround | src/image_utils.py:166-174 | Writes 0 at the path point and at its `path_width` clamped diagonal cells, and nothing else changes. |
| Connect.Carve | src/image_utils.py:165-174 | Writes 0 at exactly the cells carved by some point of the path, and nothing else changes. |
| Connect.FewerOnes | src/image_utils.py:164-175 | Writing only zeros, one of them over a 1, leaves strictly fewer ones in the matrix. |
| Connect.CarveBridge | src/image_utils.py:164-174 | The new matrix is exactly the old one with every cell within the `path_width` band of the Bresenham line between the two cells set to 0 (`CarvedGrid`), and every other cell unchanged. Both endpoints become 0, and since the first was a 1, strictly fewer ones are left. |
| Connect.BridgeOnce | src/image_utils.py:152-174 | One round of the main loop. `borders` are the bordering ones of the components, and `best` is a selection from them with the same four properties as `Bridging.SelectBestPair` (`IsSelection`). The round carves exactly when a pair is selected. Then the new matrix is exactly the old one carved along the Bresenham line between the pair's cells, both cells become 0, and strictly fewer ones are left; with more than one component the step is a `Round`. When no pair is selected the matrix is unchanged and no ordered pair of differing border sets gives a pair closer than 10000. |
| Connect.CarveUntilConnected | src/image_utils.py:146-175 | The loop ends, because every round that carves leaves fewer ones. `grids` runs from the matrix on entry to the matrix on return. Each grid follows from the one before by one round (`Round`): with more than one component, the grid is carved along the line between the pair selected from the components' border sets. Only zeros are written. On return the components are a decomposition of the current matrix, and the outcome is Connected exactly when there is at most one component. On NoPairFound the border sets of the components hold no ordered pair of differing sets closer than 10000. |
| Connect.ConnectAllZeros | src/image_utils.py:55-177 | Several properties of the whole run. The cleanup fills exactly the small components of the first decomposition, after which every zero component has more than four cells. The connection phase afterwards writes only zeros, and `grids` runs from `cleaned` to the final matrix, one round (`Round`) per step. The returned components decompose the final matrix, with at most one component exactly when the outcome is Connected. On NoPairFound no two differing border sets of the final components give a pair closer than 10000. |
| Dilation.Dilate | src/image_utils.py:276-277 | The dilated grid has the input's shape. |
| Dilation.SpreadFrom | src/image_utils.py:281-285 | Sets every in-bounds 4-neighbour of the cell to 1, and nothing else changes. |
| Dilation.ScatterStep | src/image_utils.py:278-285 | Passing a cell in the scan adds its neighbours to the ones spread, exactly when it is a 1. |
| Dilation.ScatterRow | src/image_utils.py:278-279 | Passing the end of a row of a rectangular grid spreads nothing new. |
| Dilation.ScatterAll | src/image_utils.py:278-286 | After the last row, a cell has received a spread exactly when it has a 1-neighbour in the input. |
| Dilation.MakeOnesBigger | src/image_utils.py:276-286 | Returns a fresh matrix of the same shape and leaves the input alone. Each cell is 1 when some input 1 is 4-adjacent to it, and otherwise keeps its input value. The result equals `Dilate` of the input. |
| Dilation.DilateKeepsOnes | src/image_utils.py:277-280 | Cells of value 1 stay 1. |
| Dilation.DilateCoversNeighbours | src/image_utils.py:280-285 | Every in-bounds 4-neighbour of an input 1 becomes 1. |
| Dilation.DilateKeepsOthers | src/image_utils.py:277-285 | A cell with no 1-neighbour keeps its input value. |
| Dilation.DilateIsOneStep | src/image_utils.py:276-286 | A 1 of the result is a 1 of the input or 4-adjacent to one. |
| Dilation.DilateMonotone | src/image_utils.py:276-286 | More ones in the input give at least as many ones in the result. |
| Dilation.TwoAwayHasNoOneNearby | src/image_utils.py:280-285 | In the row `1 0 0`, the last cell has no 1-neighbour. |
| Dilation.DilateDoesNotCascade | src/image_utils.py:276-286 | Only the original is read, so the dilation does not cascade: the row `1 0 0` becomes `1 1 0`. |
| Stencil.ToZeroOne | src/image_utils.py:224 | `image < 255 / 2` on integer pixels is 1 exactly for pixels up to 127, and 0 otherwise. |
| Stencil.ToPixel | src/image_utils.py:226 | `(1 - b) * 255` maps 0 to 255 (white) and 1 to 0 (black). |
| Stencil.PixelRoundTrip | src/image_utils.py:224-226 | Thresholding the pixel of a 0/1 value gives the value back. |
| Stencil.ThresholdThenPixel | src/image_utils.py:224-226 | Thresholding a pixel and mapping it back gives 0 for pixels up to 127 and 255 above. |
| Stencil.Threshold | src/image_utils.py:224 | Thresholding an image gives a 0/1 matrix of the same shape. |
| Stencil.ToImage | src/image_utils.py:226 | Mapping a matrix to pixels keeps its shape. |
| Stencil.ImageRoundTrip | src/image_utils.py:224-226 | Thresholding the image of a 0/1 matrix gives the matrix back. |
| Stencil.ConnectKeepsBinary | src/image_utils.py:224-225 | Filling small components with ones and then writing only zeros keeps a 0/1 matrix a 0/1 matrix. |
| Stencil.ThresholdOfImage | src/image_utils.py:226 | A matrix whose pixels are the image of a 0/1 matrix thresholds back to that matrix. |
| Stencil.Binarize | src/image_utils.py:224 | Returns a fresh matrix of the image's shape holding the image's threshold. |
| Stencil.ToPixels | src/image_utils.py:226 | Returns a fresh matrix of the same shape holding the pixel image of the 0/1 matrix. |
| Stencil.StencilToConnected | src/image_utils.py:223-233 | The connection starts from the image's threshold. `comps0` is its decomposition, and `cleaned` is the threshold after the small components are filled. The connected matrix `z` differs from `cleaned` only by zeros and has the decomposition `comps`. `grids` runs from `cleaned` to `z`, one bridging round per step. On NoPairFound, `borders` are the border sets of `comps` and no ordered pair of differing sets gives a pair closer than 10000, with at most one component exactly when the outcome is Connected. The result is a fresh image of the input's shape, exactly the pixel image of `z`: all 0 or 255, thresholding back to `z`. |
| Lattice.Neighbour | src/image_utils.py:57 | Each of the four directions leads to a 4-adjacent cell. |
| Lattice.AdjacentIsNeighbour | src/image_utils.py:57 | Every 4-adjacent cell is reached by one of the four directions. |
| Lattice.AdjacentCases | src/image_utils.py:57 | The four 4-neighbours of a cell, spelled out. |

## Left out

- `bresenham_line`, as called by the model: the model uses the corrected start error, which truncates (see Findings). The source's floored version is modelled separately, by `Bresenham.WalkAsWritten`.
- Bresenham.InitialError: on y-major lines with odd `dy` the truncated start error also changes the points drawn on lines the source does finish. From (0, 0) to (1, 3) the source draws (0, 0), (0, 1), (0, 2), (1, 3) and the model (0, 0), (0, 1), (1, 2), (1, 3), as `Bresenham.AsWrittenDrawsOtherPoints` shows. On every other line the two walks agree (`Bresenham.WalkAsWritten`).
- Connect.CarveUntilConnected: the outcome `NoPairFound`. Here every ordered pair of differing border sets gives no pair below 10000, or all border sets are equal. The source would then fail on `best_pair[0]` (line 164). The model returns `NoPairFound` in its place and does not model the exception.
- Connect.ConnectAllZeros: does not claim that a round joins two components. A diagonal Bresenham path or the diagonal `path_width` band need not 4-connect them. The loop still ends, because each round that carves writes a zero over a bordering 1. The only loop of the core that may run forever is `bresenham_line` as written (see Findings).
- Bridging.SelectBestPair: states that the selection is minimal, not which of several equally close pairs it keeps. The loop keeps the first strictly better one in row-major order of the two indices.
- Bridging.FindMinLatticeDistance: the sweep's pair is not in general the closest pair of the two sets, and the model does not claim it is. `(None, inf)` is `NoPair`; since `inf` never beats 10000, `Bridging.SelectBestPair` skips it.
- ZeroComponents.SortBySize: proves a size-sorted permutation, not stability. The entries are disjoint components, so their order in the result affects no stated property.
- Bridging.SortedCells: picks the least remaining cell, which fixes the order of a set of distinct cells. This is the order Python's tuple sort gives.
- `zeroones_to_connected` (lines 235-243): only forwards to `connect_all_zeros` and plots. `Stencil.StencilToConnected` calls `Connect.ConnectAllZeros` directly in its place.
- The `do_plot` branches (matplotlib) and the diagnostic `print` at line 154: output only.
- `create_stencil` and `image_to_zeroones`: image loading via OpenCV/PIL, blurring, edge detection, resizing and floating-point normalisation. They are foreign calls on floats.
- Matrix entries are modelled as integers. NumPy floats holding 0 and 1 behave the same in these comparisons. The threshold `image < 255 / 2` is modelled on integer pixels as `2 * v < 255`.
- Connect.Carve: requires every path point to be inside the matrix, because the model does not model Python's negative-index wrap-around. `Connect.BridgeOnce` and `Connect.CarveBridge` discharge this: the path's endpoints are bordering ones, which are in bounds, and `Bresenham.BresenhamLine` keeps every point in their box.
- Aliasing: NumPy matrices are `array2<int>`. `connect_all_zeros` updates its argument in place, and `make_ones_bigger` and `stencil_to_connected` return fresh arrays. No other aliasing is modelled.
- The rest of the repository (the CAD scripts, the mesh helpers, the text and sponge scripts): floating-point geometry delegated to an external mesh library. These are not part of this model.

## Findings

| source | as written | input that shows it | evidently intended | confidence | as-written member | corrected member |
|---|---|---|---|---|---|---|
| src/image_utils.py:27 | `err = -dy // 2` floors for odd `dy`, so for `dx == dy == 1` the start error is -1. The first step then moves y but not x, and every later step moves both, so the walk passes by the end point and the `while True` loop never exits. | `bresenham_line(0, 0, 1, 1)` | `err = -(dy // 2)`, the truncating halving of the usual integer Bresenham. With it every step moves along the major axis and the walk ends at `(x2, y2)`. It also moves some points of y-major lines with odd `dy` that the source finishes, such as (0, 0) to (1, 3); see Left out. | not executed | Bresenham.AsWrittenNeverReachesEnd | Bresenham.BresenhamLine |
