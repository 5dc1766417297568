# Seam carving core, modelled in Dafny

This project models the core of the Seam repository, the class
`src/Seam.java`, in four imperative operations:

- `path`: the shortest walk between two vertices of a graph given as
  successor lists, where each vertex has a cost. It runs full relaxation
  passes until a pass changes nothing. Then it walks the predecessors back
  from the target.
- `find`: builds the graph of an H x W energy grid and calls `path` from
  SOURCE to SINK. Pixel (i, j) is vertex `i * W + j`, SOURCE is `H * W` and
  SINK is `H * W + 1`. It turns the walk into a seam, which holds one
  column per row.
- `merge`: returns a copy of an image with the seam pixel of each row
  painted blue (`0x0000ff`).
- `shrink`: returns a copy of an image one column narrower, with each row's
  seam pixel removed.

The modules follow the program's structure:

- `Distances` (`distances.dfy`): tentative distances. They are `Inf`, the
  float +infinity the relaxation starts from, or a finite cost. The file
  also holds the measure that the `while (modified)` loop descends.
- `ShortestPath` (`path.dfy`): `path`. It works in place on the `distance`
  and `predecessor` arrays, and its walk back fills an array from its end.
  Each loop is proved against specification predicates. `Inv` covers the
  distances and predecessors. `Progress` says distances never grow and a
  predecessor changes only on a strict decrease. `Stable` says no edge can
  be relaxed. `Chain` is the predecessor walk. The proof yields a walk of
  least cost.
- `SeamGraph` (`graph.dfy`): the grid graph `find` builds, written as
  functions (`Graph`, `Costs`). It also defines seams and their energy.
  Lemmas prove that the graph is acyclic and that SOURCE-to-SINK walks and
  seams correspond one to one, at equal cost.
- `SeamFinder` (`find.dfy`): `find`. Its arrays are filled row by row,
  proved equal to `Graph` and `Costs`, and the seam is read off the walk.
- `SeamRender` (`render.dfy`): `merge` and `shrink` on `array2<int>`
  images. Pure reference functions (`Highlight`, `Carve`) describe their
  results, with lemmas about them.

Costs are non-negative integers (`nat`). `path` gets acyclicity and
reachability of the target as preconditions. Acyclicity gives the proof a
rank that rises along every edge, so it falls along the predecessor links
the walk back follows; the graph of `find` meets it. The
source's loop over SOURCE's successor slots stops at the grid's height.
So `Find` requires H <= W, since a taller grid writes past SOURCE's list.
It is optimal only among seams whose first column is below H (see
Findings).

## Model

| member | source | states |
|---|---|---|
| ShortestPath.Path | src/Seam.java:15-59 | on an acyclic graph where `to` is reachable, the result is a walk from `from` to `to` along the successor lists, and no such walk costs less (cost of every vertex counted, `from` included) |
| ShortestPath.Relax | src/Seam.java:33-37 | the new state is `RelaxEdge`: exactly when going through `v` is strictly cheaper, the distance of `n` becomes `distance[v] + costs[n]` and its predecessor `v`, with every other entry unchanged; otherwise nothing changes; the invariant is kept, no distance grows, and a predecessor changes only on a strict decrease, so an equal-cost walk never replaces a recorded one |
| ShortestPath.RelaxKeepsInv | src/Seam.java:33-37 | a successful relaxation never touches `from`, keeps the invariant (every recorded predecessor is an edge whose distance plus cost bounds the vertex's distance) and moves the distances strictly down the termination measure |
| ShortestPath.RelaxSuccessors | src/Seam.java:32-38 | the new distances and predecessors are `Edges`: the edges out of `v` relaxed one by one in the order of its successor list, each by `RelaxEdge` (strict test, so an equal-cost alternative never replaces the predecessor found first); the invariant is kept, distances only fall, and when nothing changes none of those edges can be relaxed |
| ShortestPath.RelaxPass | src/Seam.java:28-40 | the new distances and predecessors are `Pass`: the vertices taken in increasing order, the edges of each relaxed as in `Edges`, which fixes how ties are broken; the pass keeps the invariant, lowers the measure strictly exactly when `modified`, and a pass with `modified` false leaves no edge anywhere that can be relaxed (the loop's exit condition) |
| ShortestPath.TraceIsPass | src/Seam.java:31-39 | the states recorded after each vertex of a pass, each the previous one with that vertex's edges relaxed, end in `Pass` |
| ShortestPath.ProgressTrans | src/Seam.java:28-40 | two steps that never raise distances and change predecessors only on strict decreases compose into one such step |
| ShortestPath.StableBound | src/Seam.java:28-40 | once no edge can be relaxed, every walk from `from` to `x` costs at least the recorded distance of `x`, which is finite |
| ShortestPath.ChainIsPath | src/Seam.java:41-58 | the predecessor chain from any vertex with a finite distance is a walk from `from` to that vertex |
| ShortestPath.ChainCost | src/Seam.java:41-58 | once no edge can be relaxed, the predecessor chain of `x` costs exactly the recorded distance of `x` |
| ShortestPath.WalkLength | src/Seam.java:41-48 | the counting loop returns the number of vertices on the predecessor chain of `to` |
| ShortestPath.WalkBack | src/Seam.java:50-58 | the array filled from its end is the predecessor chain of `to` |
| ShortestPath.ChainPrefix | src/Seam.java:54-57 | each step of the fill loop reads the previous vertex of the chain from the predecessor array |
| Distances.UpdateMeasure | src/Seam.java:34 | overwriting one distance changes the infinite count and the finite sum by that entry alone |
| Distances.LowerIsBelow | src/Seam.java:33-35 | a strictly lower distance puts the whole distance vector strictly below the old one in the order (infinite count, finite sum), so `while (modified)` terminates |
| SeamGraph.GraphIsDag | src/Seam.java:72-99 | the successor lists name vertices of the graph and every edge goes from a row to the next row or to SINK, so the graph is acyclic |
| SeamGraph.PixelEdge | src/Seam.java:89-96 | pixel (i, j) off the last row has an edge to each pixel of row i + 1 at most one column away |
| SeamGraph.LastEdge | src/Seam.java:86-87 | pixel (H - 1, j) of the last row has an edge to SINK |
| SeamGraph.PixelVertex | src/Seam.java:82-99 | vertex `i * W + j` is pixel (i, j), and its list is SINK on the last row, else the clipped neighbours on the next row |
| SeamGraph.CostAt | src/Seam.java:100-106 | the cost of vertex `i * W + j` is `energy[i][j]` |
| SeamGraph.SeamIsPath | src/Seam.java:78-106 | a seam starting in a filled slot of SOURCE's list is a SOURCE-to-SINK walk, and the walk costs the seam's energy |
| SeamGraph.PathRows | src/Seam.java:78-99 | the k-th vertex of a SOURCE-to-SINK walk lies in row k - 1, the first one in a filled slot of SOURCE's list, and consecutive ones are at most one column apart |
| SeamGraph.PathLength | src/Seam.java:82-99 | every SOURCE-to-SINK walk has exactly H + 2 vertices |
| SeamGraph.PathIsSeam | src/Seam.java:82-113 | every SOURCE-to-SINK walk is the walk of the seam of its columns: H entries in [0, W), adjacent ones at most one apart, the first one in a filled slot |
| SeamGraph.SeamCost | src/Seam.java:100-106 | the walk through the first k rows of a seam costs the energy of those k pixels |
| SeamFinder.SourceList | src/Seam.java:76-80 | SOURCE's list has W slots; the first ones are set to their index, the rest stay 0 |
| SeamFinder.FillRow | src/Seam.java:84-98 | filling one row leaves the successor array equal to the graph up to the end of that row (SINK on the last row, else the clipped neighbours, left edge checked first) and the later entries as they were |
| SeamFinder.BuildSuccessors | src/Seam.java:72-99 | the successor array built is `Graph(H, W, filled)` |
| SeamFinder.FillCosts | src/Seam.java:103-105 | filling one row leaves the cost array equal to the pixel energies up to the end of that row and the later entries as they were |
| SeamFinder.BuildCosts | src/Seam.java:100-106 | the cost array is each pixel's energy, with 0 for SOURCE and SINK |
| SeamFinder.ColumnsOf | src/Seam.java:110-113 | the seam read off a walk is its vertices' columns, vertex j + 1 lying in row j |
| SeamFinder.PathSeamOptimal | src/Seam.java:108-113 | the seam of a least-cost walk weighs least among the seams starting in a filled slot |
| SeamFinder.FindWith | src/Seam.java:66-115 | with `filled` slots of SOURCE's list set, the result is a seam starting in a filled slot, of least energy among such seams |
| SeamFinder.Find | src/Seam.java:66-115 | for H <= W, the result is a seam whose first column is below H, and no seam with a first column below H has less energy |
| SeamFinder.SquareFindIsGlobal | src/Seam.java:78-80 | on a square grid the restriction on the first column excludes no seam |
| SeamFinder.FindCorrected | src/Seam.java:66-115 | with SOURCE's list filled to the width, the result is a seam of least energy among all seams |
| SeamFinder.FindOneRow | src/Seam.java:66-115 | `Find` on the grid [[5, 1]] returns [0], of energy 5, while the seam [1] weighs 1 |
| SeamFinder.SourceLoopMissesColumns | src/Seam.java:78-80 | on the grid [[5, 1]] the seam [1] weighs 1, but every seam `Find` can return weighs 5 |
| SeamFinder.DiagonalSeams | src/Seam.java:62-66 | on the grid [[1,9,9],[9,1,9],[9,9,1]], the seam [0, 1, 2] weighs 3, the seam [1, 1, 2] weighs 11, and every other seam weighs at least 11 |
| SeamFinder.FindDiagonal | src/Seam.java:66-115 | `Find` on that grid returns [0, 1, 2], of energy 3 |
| SeamRender.Merge | src/Seam.java:123-138 | a fresh array of the same size; each row's seam pixel is blue and every other pixel equals the input's; the result is `Highlight` of the input, which is not modified |
| SeamRender.HighlightCells | src/Seam.java:127-135 | an image equal to the input except blue on the seam is `Highlight` of the input |
| SeamRender.HighlightTwice | src/Seam.java:133-135 | painting the seam twice changes nothing more than painting it once, and the seam pixels of the result are blue |
| SeamRender.Shrink | src/Seam.java:147-158 | a fresh array with one column less; pixels left of the seam keep their column, those right of it move one column left; the result is `Carve` of the input, which is not modified |
| SeamRender.ShrinkRow | src/Seam.java:152-155 | the two column loops copy a row without its seam pixel and leave the rows above and below as they were |
| SeamRender.CarveCells | src/Seam.java:150-156 | an image whose rows are the input's rows with the seam pixel dropped is `Carve` of the input |
| SeamRender.CarveRestore | src/Seam.java:147-158 | putting the seam's pixels back into the carved image restores the input, so `shrink` loses exactly the seam |
| SeamRender.CarveHighlight | src/Seam.java:123-158 | carving the seam out of the highlighted image gives the same image as carving it out of the input |

## Left out

- src/Color.java and src/Filter.java are not part of this model. They hold the float colour channels, the convolution and the Sobel energy. The energy grid is an input of `Find`.
- Float arithmetic: costs and distances are exact `nat`, and `Float.POSITIVE_INFINITY` is the value `Inf`. Rounding of float sums is not modelled.
- 32-bit `int` overflow of `width * height` and of vertex numbers is not modelled. Integers are unbounded.
- ShortestPath.Path: the documented `null` result for an unreachable target is not implemented by the source, whose walk back would read predecessor -1. Reachability is a precondition instead.
- ShortestPath.Path: acyclicity is a precondition. It is a proof device: it gives the predecessor chain (`Chain`) a rank measure. The grid graph of `find` meets it (`SeamGraph.GraphIsDag`). Since a predecessor changes only on a strict decrease and costs are non-negative, the predecessor links cannot close a cycle on any graph, but this model does not prove that general fact.
- Input validation that the source does not do is not modelled: jagged or empty grids, and a seam out of range. These are preconditions. `Find` takes a rectangular grid with 1 <= H <= W. `Merge` and `Shrink` take at least one row and one in-range column per row.
- Find: a grid taller than it is wide makes the source throw from the loop over SOURCE's list. `Find` requires H <= W instead of modelling the exception.
- FindCorrected: a single-column grid of more than one row is excluded, where the left-edge list names vertex `(i + 1) * W + 1`, which is in row i + 2 or is SOURCE.
- Images are `array2<int>`: rectangular, with no aliasing between rows. `int[][]` in the source can have shared or jagged rows. The copies never write the input, which has no `modifies` clause.
- Successor lists, costs, the energy grid and seams are read-only in the source. They are `seq` values. `path` and `find` return their filled array as a `seq`.

## Findings

| source | as written | input that shows it | evidently intended | confidence | as-written member | corrected member |
|---|---|---|---|---|---|---|
| src/Seam.java:78-80 | SOURCE's successors are filled for slots `0 .. energy.length - 1`, the grid's height. The other slots of the width-sized list stay 0. | the 1 x 2 grid [[5, 1]]: SOURCE's list is [0, 0], so `find` returns [0] of energy 5 while the seam [1] has energy 1 (a grid taller than wide instead writes past the list) | fill every slot `0 .. width - 1`, so the "best seam" is the least-energy seam over all first columns | not executed | SeamFinder.FindOneRow | SeamFinder.FindCorrected |
