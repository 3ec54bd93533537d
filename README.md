# pixelGridToGraph, verified

A Dafny model of `pixelGridToGraph` from the impedance project (`src/Utils.js`).
The function turns a rectangular grid of pixel intensities into a resistor network:

- **Mask.** Only the cells within `radius` of the grid's centre `(floor(rows/2), floor(cols/2))` become nodes.
- **Ids.** The nodes are numbered 0, 1, 2, ... in row-major scan order, and `nodeCoord` records each node's cell.
- **Links.** Each node links to its up, down, left and right neighbours that are in the grid and also kept, in that order. A link's resistance is the mean of the two cells' reciprocal intensities.
- **Border.** `borderNodes` lists the nodes with fewer than four links.
- **Remap.** A second pass rewrites every link target from a grid cell into a node id, through the `coordDict` table from cells to ids.

Files and modules:

- `grid_mask.dfy`, module `GridMask`: the geometry.
  - The mask, with the square-root test written as `(x-cx)^2 + (y-cy)^2 <= radius^2` for `radius >= 0`.
  - The row-major listing `KeptCells` of the kept cells, built from the scan prefix `Scanned`.
  - The neighbour listing `KeptNeighbours`.
  - Lemmas about all three: order, density, the id of a cell, degree, the edge.
- `pixel_graph.dfy`, module `Utils`: the function itself.
  - `PixelGridToGraph` is a method with the source's two nested loop pairs over local sequences and a map.
  - It is proved against the declarative description `WellBuilt`: node k sits at the k-th kept cell, its links name the ids of its kept neighbours with the mean-reciprocal resistance, and `borderNodes` lists exactly the nodes with fewer than four links, in increasing order.
  - `ConnectNode` is the per-cell step that tries the four neighbours. `RemapTargets` is the second pass.
- `circuit_properties.dfy`, module `CircuitProperties`: what follows for every built circuit. Valid and adjacent link targets, symmetric links, positive resistances, degree bounds, the border, dense ids, the empty result for a negative radius, and uniqueness of the result.
- `sample_grid.dfy`, modules `SampleMask` and `SampleGrid`: the 8 x 8 grid of the source's unit test, with radius 4.

Modelling choices:

- Intensities and resistances are `real`, so the mean of reciprocals is exact rational arithmetic.
- The string-keyed `coordDict` is a `map<Coord, int>`.
- The source fails with a type error on an empty grid, because it reads the width of row 0. The model returns `EmptyGrid` instead.

Where the source's own comments and tests disagree with its code, the model follows the code:

- The test requires every node to have between one and four links (src/App.test.js:22, 33-36). The code gives a node no links when the radius is below one or the grid is a single cell.
- The test passes minimum and maximum resistances (src/App.test.js:19). `pixelGridToGraph` takes two parameters and ignores them, so no clamp is applied.
- The comment at src/Utils.js:48 makes a link's conductivity the average of the two cells' conductivities, which would give resistance 2/(a+b). Line 82 computes (1/a + 1/b)/2 instead, and the model uses that. For 34 and 35 they differ: 2/69 against 69/2380.
- The comment at src/Utils.js:50 keeps cells "less than" the radius from the centre. Line 71 keeps cells at distance exactly `radius` too, and so does the model. The test's expected link from node 0 to node 3 (src/App.test.js:41) relies on this, because node 0, at (0, 4), is at distance exactly 4.
- The test title at src/App.test.js:39 says node 0 has three neighbours. It has one, which `SampleGrid.SampleGridCircuit` proves.
- The test expects node 0's first link to have resistance about 29.477 (src/App.test.js:40). The code gives 69/2380.

A negative radius keeps no cell: a square root is never below a negative number, so the test at src/Utils.js:71 fails for every cell, and the circuit is empty.

## Model

| member | source | states |
|---|---|---|
| Utils.PixelGridToGraph | src/Utils.js:52-127 | The result is `EmptyGrid` exactly for an empty grid. Otherwise it is the circuit `WellBuilt` describes: nodes at the kept cells in row-major order, links to the ids of the kept 4-neighbours in up/down/left/right order with the mean-reciprocal resistance, and `borderNodes` the increasing list of nodes with fewer than four links. |
| Utils.ConnectNode | src/Utils.js:73-102 | The node built for a kept cell holds one connection per kept 4-neighbour, in the order up, down, left, right. Each connection names the neighbour's cell and carries the mean of the two reciprocal intensities. `connectionCount` equals the number of connections. |
| Utils.FirstPassAdd | src/Utils.js:104-112 | Appending a node, its cell and its dictionary entry, and listing it as a border node when it has fewer than four connections, keeps the first-pass invariant. `graphID` stays the node count, the raw links stay correct, `borderNodes` stays the increasing list of low-degree nodes, and `coordDict` inverts `nodeCoord`. |
| Utils.RemapTargets | src/Utils.js:118-124 | The second pass keeps every node's length and every resistance. It replaces each connection's target cell by the id that `coordDict` gives that cell. |
| Utils.TargetsAreIndexed | src/Utils.js:111-122 | After the first pass every connection targets a cell, and `coordDict` holds that cell, because the neighbour test is the mask test. |
| Utils.SecondPassBuilds | src/Utils.js:118-126 | The remapped graph, together with the first pass's `nodeCoord` and `borderNodes`, meets `WellBuilt`. |
| Utils.RemapGivesLinks | src/Utils.js:122 | After the remap, node k's connections name the ids of the nodes at its kept neighbours' cells. |
| Utils.ResistanceSymmetricPositive | src/Utils.js:82 | The resistance between two cells with positive intensities is positive and the same in both directions. |
| GridMask.WithinRadiusIsRootTest | src/Utils.js:71 | The mask predicate `WithinRadius` is the source's test `sqrt((x-cx)^2 + (y-cy)^2) <= radius` in squared form: for the non-negative root s of the squared distance, a cell passes exactly when s <= radius. This holds for negative radii too. |
| GridMask.SquaresOrdered | src/Utils.js:71 | Between non-negative reals, x <= y exactly when x*x <= y*y. This makes the squared comparison equivalent to the square-root one. |
| Utils.Resistance | src/Utils.js:82-100 | The resistance of a link is (1/p[a] + 1/p[b]) / 2 for the intensities of its two cells. It is positive. |
| GridMask.Center | src/Utils.js:59 | The centre `(floor(rows/2), floor(cols/2))` lies inside every non-empty dimension of the grid. |
| GridMask.KeptCells | src/Utils.js:68-74 | The reference node listing is strictly increasing in row-major order. It holds a cell exactly when the cell is in the grid and within the radius. |
| GridMask.ScannedListing | src/Utils.js:68-74 | When the scan reaches `(i, j)`, it has listed, in strict row-major order, exactly the kept cells before `(i, j)`. |
| GridMask.IdCountsEarlierCells | src/Utils.js:110-112 | A kept cell's node id is the number of kept cells the scan passes before reaching it. |
| GridMask.KeptCellsCount | src/Utils.js:110-112 | There are exactly as many nodes as kept cells, so the ids are dense. |
| GridMask.CenterIsKept | src/Utils.js:59-71 | For every radius >= 0, the centre cell of a non-empty grid is a node. |
| GridMask.NegativeRadiusKeepsNothing | src/Utils.js:71 | A negative radius keeps no cell. |
| GridMask.KeptNeighbours | src/Utils.js:79-102 | At most four neighbours, each listed once. Each is adjacent and kept. Every adjacent kept cell is listed. |
| GridMask.FewLinksOnlyAtTheEdge | src/Utils.js:104-107 | A cell has fewer than four kept neighbours exactly when one of its 4-neighbours is off the grid or outside the circle. |
| GridMask.HasKeptNeighbour | src/Utils.js:79-102 | When the radius is at least 1 and the grid is larger than one cell, every kept cell has a kept neighbour. |
| CircuitProperties.TargetsAreNeighbourIds | src/Utils.js:118-124 | After the remap every link target is a node id in range, and the node at that id sits at a 4-neighbour of the linking node's cell. No node links twice to the same node. |
| CircuitProperties.LinksAreSymmetric | src/Utils.js:79-102 | If node k links to node t, then t links back to k with the same resistance. |
| CircuitProperties.ResistancesArePositive | src/Utils.js:82-100 | Every link's resistance is `(1/p[a] + 1/p[b]) / 2` for the two cells it joins, and it is positive. |
| CircuitProperties.DegreeBounds | src/Utils.js:76-102 | Every node has at most four links. When the radius is at least 1 and the grid is larger than one cell, every node has at least one. |
| CircuitProperties.BorderNodesTouchTheEdge | src/Utils.js:104-107 | `borderNodes` is strictly increasing. It holds k exactly when k is a node with a 4-neighbour off the grid or outside the circle. |
| CircuitProperties.IdsAreDense | src/Utils.js:68-112 | `graph`, `nodeCoord` and the set of kept cells all have the same size. |
| CircuitProperties.NegativeRadiusIsEmpty | src/Utils.js:71 | A negative radius yields an empty graph, an empty border list and an empty node listing. |
| CircuitProperties.SameIncreasingLists | src/Utils.js:104-107 | Two strictly increasing lists with the same members are equal. This fixes `borderNodes` uniquely. |
| CircuitProperties.BuildIsDeterministic | src/Utils.js:52-127 | Any two circuits that meet the description for the same grid and radius are equal. |
| SampleMask.SampleCells | src/App.test.js:18-19 | In the 8 x 8 mask with radius 4, node 0 sits at cell (0, 4) and node 3 at cell (1, 4). |
| SampleGrid.SampleGridIsValid | src/App.test.js:9 | The test's grid is rectangular, 8 x 8, with positive intensities. |
| SampleGrid.SampleFirstLink | src/App.test.js:9 | The only kept neighbour of (0, 4) is (1, 4). The resistance between them is (1/34 + 1/35) / 2 = 69/2380. |
| SampleGrid.SampleGridCircuit | src/App.test.js:22-42 | On the test grid with radius 4, node 0 has one link, to node 3, with resistance 69/2380, and every node has between one and four links. |

## Left out

- `imageStringToGrid` (src/Utils.js:4-44) is not modelled. It decodes an image through browser canvas APIs and an asynchronous `onload`.
- SampleGrid.SampleGridCircuit: does not state the test's expected resistance of about 29.477 (src/App.test.js:40). The formula at src/Utils.js:82 gives 69/2380 (about 0.029) for that link, and the model proves that value.
- The minimum and maximum resistance arguments that src/App.test.js:19 passes are not modelled. `pixelGridToGraph` takes two parameters and ignores them, so no clamp exists.
- CircuitProperties.DegreeBounds: the lower bound of one link holds only for radius >= 1 and a grid larger than one cell. With a smaller radius the centre node has no links, which is what the code does.
- Floating point is not modelled. Intensities and resistances are exact reals, the square root is replaced by the equivalent squared comparison, and NaN or infinite radii are not considered.
- `PixelGridToGraph` requires a rectangular grid of positive intensities. The source reads every row with the width of row 0, and a zero intensity would give an infinite resistance.
- The in-place rewrite of `graph[i][j].to` is modelled by rebuilding each node's sequence and storing it back. There is no aliasing between nodes to model.
- src/App.js is not part of this model: React state, the call into the external circuit solver, and its choice of reference and ground nodes from `borderNodes`.
- circuitSolver.js is not part of this model. It is a demonstration script with fixed data and console output.
- src/components/graphDisplay.js and src/components/fileUploader.js are not part of this model. They are canvas drawing and file reading in the user interface.
