# Wave Function Collapse grid solver, modelled in Dafny

This project models the solver core of a small Wave Function Collapse
generator written in JavaScript (`main.js`). The generator fills a grid of
cells with road tiles. Every cell starts with every tile as a candidate.
Each step of `wfc_loop` does three things:

- it picks an empty cell of least entropy (fewest candidates), `wfc_pick`;
- it places one of that cell's candidates there, `wfc_collapse`;
- it filters the candidates of the cell's four orthogonal neighbours against
  the cell's own candidates, `wfc_propagate_all`. This is one ring only.

A neighbour left with no candidates is a contradiction. It raises the
application's `paused` flag.

The model is functional. A state is the grid of cells plus the two flags,
`is_complete` and `paused`. Each source function is a Dafny function from
state to state. Each random draw `Math.floor(generator() * len)` is an
abstract `k: nat` below `len`, or `0` when `len` is `0`. A tile placed in a
cell is kept as its catalogue id. JavaScript's `undefined` is modelled as
the out-of-range id `|Catalogue|`. An emptied cell that is collapsed reads
`options[0]`, which is `undefined`, and every later use of that entry goes
through `wfc_tiles[entry]`, exactly as for any out-of-range id.

Files, in dependency order:

- `wrappers.dfy`: `Option`, standing for `null`/`undefined`.
- `tiles.dfy`: the catalogue of five tiles, directions, `Opposite`, and the
  adjacency rule.
- `grid.dfy`: cells and state, `wfc_init`, collapsed counts, and the
  index ↔ (column, row) arithmetic of `i2c`.
- `subsequences.dfy`: order-preserving sublists.
- `pruning.dfy`: the filter applied to one neighbour, both as a function and
  as the source's backward-splice loop.
- `picker.dfy`: `wfc_pick`, both as a specification and as the source's
  single scan.
- `collapser.dfy`: `wfc_collapse`.
- `propagator.dfy`: `wfc_propagate_all`.
- `solver.dfy`: `wfc_loop`, its reachable-state invariant and its progress
  measure.
- `quirks.dfy`: concrete grids that exhibit the three behaviours below.

## Behaviours of the code as written

The model follows the code. In three places the code differs from the
intended design, which is to filter each neighbour along its own direction,
skip neighbours that already hold a tile, and stop at a contradiction. The
model keeps the code's behaviour and proves what it does:

- **The direction counter lags at grid edges.** The `continue` for an
  off-grid neighbour also skips `direction++`. So the counter used for a
  neighbour is the number of in-range neighbours before it (`Propagator.Lag`).
  On the first row the eastern neighbour is filtered as if it lay to the
  north (`Quirks.TopRowFiltersEastAsNorth`). Next to a blank tile this lets
  the "top" tile through, although its road meets the blank side
  (`Quirks.LaggedFilterAdmitsMismatch`). A neighbour is filtered along its
  true direction exactly when no neighbour before it in the order north,
  east, south, west is off the grid (`Propagator.LagMatchesOffset`). For
  example, on the bottom row of a grid with at least two rows the northern
  and eastern neighbours still get their own directions. A cell away from every edge filters all four along
  their own directions (`Propagator.PropagateInteriorTrueDirection`).
- **Collapsed neighbours are filtered too.** The `is_propagated` test never
  fires, because no code sets that field. A collapsed neighbour can lose its
  only candidate while its tile stays placed. On a one-row, two-cell grid,
  two steps end with the blank tile next to the "top" tile, the left cell's
  candidates emptied, and `paused` raised (`Quirks.FirstStep`,
  `Quirks.SecondStep`).
- **A contradiction does not stop the loop.** Emptying a neighbour only sets
  `paused`, and the remaining neighbours are still filtered
  (`Quirks.ContradictionDoesNotStop`, `Propagator.PropagatePausedIff`).
  A click still runs `wfc_loop` after that. An emptied cell that holds no
  tile has entropy 0, so it is among the cells the next pick chooses from.
  If the draw picks it, collapsing it reads its missing first entry, and
  its candidate list grows from `[]` to `[undefined]`
  (`Quirks.PausedStepWidens`).

## Model

| member | source | states |
|---|---|---|
| Tiles.Opposite | main.js:280 | the direction opposite `d`, computed as `(d + floor(4/2)) % 4` from the first tile's side count, pairs North with South and East with West, both ways |
| Tiles.Compatible | main.js:292 | the edges that meet: a tile north of `c` fits when `c`'s north label equals its south label, and likewise east against west, south against north, and west against east |
| Tiles.CompatibleSymmetric | main.js:292 | the side comparison gives the same verdict seen from either tile: `t` fits on side `d` of `c` exactly when `c` fits on the opposite side of `t` |
| Tiles.AllTileIds | main.js:163 | the candidate list of a fresh cell has one entry per catalogue tile, and entry `i` is the id `i` |
| Grid.Init | main.js:156-166 | the fresh grid has `cols*rows` cells, all without a tile, each with every id `0..|catalogue|-1` ascending; the flags are untouched |
| Grid.CollapsedCount | main.js:179-199 | the count of cells holding a tile reaches the grid's length exactly when every cell holds one |
| Grid.CollapsedUpToOneMore | main.js:183-185 | placing a tile in one empty cell, with no other cell changing its nullness, raises the collapsed count of every prefix holding that cell by exactly one |
| Grid.Decode | main.js:386-390 | `i2c`: the column is below `cols`, and `row*cols + col` gives the index back |
| Grid.EncodeDecode | main.js:259-260 | decoding `row*cols + col` for an in-range column gives back `(col, row)` |
| Grid.DecodeEncode | main.js:259-260 | encoding the decoded position gives back the index |
| Grid.EncodeInjective | main.js:276-283 | two in-range positions with the same index are the same position |
| Grid.EncodeInGrid | main.js:278-283 | an in-range position's index is a cell of the grid |
| Grid.DecodeInGrid | main.js:259-261 | an index is a cell of the grid exactly when its decoded row passes the range test |
| Pruning.Supports | main.js:289-296 | the inner search succeeds exactly when some centre entry is a tile whose side `d` equals the candidate's opposite side |
| Pruning.Prune | main.js:284-306 | the filtered list is an order-preserving sublist of the old candidates |
| Pruning.PruneKeepsExactlySupported | main.js:284-306 | a tile survives the filter exactly when it was a candidate and some centre tile admits it |
| Pruning.FindSupport | main.js:288-296 | the loop with `break` finds a match exactly when the candidate is supported |
| Pruning.PruneInPlace | main.js:283-306 | the backward splice loop leaves exactly the filtered list, and reports emptying exactly when a non-empty list ends empty |
| Picker.MinEntropyUpToIsMinimum | main.js:177-194 | the running minimum is absent exactly when no cell of the prefix is empty, and otherwise is the candidate count of an empty cell, no larger than any other |
| Picker.TiedUpToIsSortedFilter | main.js:181-194 | the tied list holds exactly the empty cells with the given count, in ascending index order |
| Picker.Candidates | main.js:181-194 | the final tied list holds exactly the empty cells of least entropy, ascending, and is non-empty exactly when some cell is empty |
| Picker.ScanMinEntropy | main.js:177-194 | the source's single scan, with its reset and push branches, computes the minimum, the tied list and the collapsed count |
| Picker.Pick | main.js:173-205 | it returns nothing exactly when complete; it sets `is_complete` and returns 0 exactly when every cell holds a tile; otherwise it returns the `k`-th tied cell, an empty cell of least entropy, and changes nothing |
| Picker.EveryTiedCellCanBePicked | main.js:203 | every empty cell of least entropy is returned by some draw |
| Collapser.Collapse | main.js:208-220 | a complete grid is left alone; otherwise only the picked cell changes, to a placed tile with the singleton list of that id, which is the forced id when one is given and otherwise the drawn candidate, or `undefined` when no candidate was left |
| Collapser.ChosenTile | main.js:211-215 | the chosen id is the forced one when given, otherwise one of the cell's candidates, and no catalogue tile at all when the cell had none |
| Collapser.CollapseKeepsValidIds | main.js:211-218 | collapsing a cell with candidates keeps every entry a tile id and no cell empty |
| Propagator.NeighboursDistinct | main.js:267-283 | the four offsets lead to four different neighbours, none of them the cell itself |
| Propagator.Neighbour | main.js:267-278 | the neighbour at an offset exists exactly when the offset position is on the grid, and then its index is a cell of the grid that `i2c` decodes back to that position |
| Propagator.Neighbours | main.js:267-278 | the four neighbour slots, one per offset, in the source's order north, east, south, west |
| Propagator.Lag | main.js:274-307 | the `direction` counter: it starts at 0, never exceeds the offset, and goes up by one past an offset exactly when that neighbour was on the grid, because the `continue` skips `direction++` |
| Propagator.LagMatchesOffset | main.js:274-307 | the counter's value at an offset equals the offset exactly when no earlier neighbour was off the grid |
| Propagator.NeighbourSlots | main.js:267-283 | in a well-formed grid the neighbour indices are distinct cells of the grid, none of them the centre |
| Propagator.Visit | main.js:283-306 | one pass on a neighbour changes only that neighbour's candidates, to a sublist, and raises `paused` exactly when it was raised already or the list went from non-empty to empty |
| Propagator.PropagateFrom | main.js:274-308 | the loop changes no tile, keeps the grid's shape, and never lowers `paused` |
| Propagator.PropagateFromUntouched | main.js:275-308 | the loop leaves every cell outside the neighbour slots as it was |
| Propagator.PropagateFromFilters | main.js:274-308 | the neighbour in slot `o` ends with its old candidates filtered along the counter's value there: the start value plus the filled slots before it |
| Propagator.PropagateFromShrinks | main.js:275-308 | every cell ends with a sublist of its old candidates |
| Propagator.PropagateFromPaused | main.js:297-304 | the loop raises `paused` exactly when it was raised already or some neighbour went from non-empty to empty |
| Propagator.Propagate | main.js:254-309 | a paused or complete state, or an index off the grid, is returned unchanged; no tile changes and `paused` never drops |
| Propagator.PropagateFiltersNeighbour | main.js:274-307 | each in-range neighbour, collapsed or not, ends with its old candidates filtered against the centre's along the lagging counter |
| Propagator.PropagateInteriorTrueDirection | main.js:267-307 | when all four neighbours are in range, each is filtered along its own direction |
| Propagator.PropagateLeavesOthers | main.js:263-283 | every cell that is not an in-range neighbour, the centre included, is unchanged |
| Propagator.CentreIsNoNeighbour | main.js:259-283 | the centre cell is never one of its own neighbours |
| Propagator.PropagateShrinks | main.js:254-309 | every cell ends with a sublist of its old candidates |
| Propagator.PropagateKeepsValidIds | main.js:284-306 | filtering never brings in an id outside the catalogue |
| Propagator.PropagatePausedIff | main.js:275-308 | `paused` ends up raised exactly when some neighbour with candidates lost them all |
| Solver.CollapseReady | main.js:317-323 | after the pick and the collapse, the propagation's preconditions hold and, unless paused, all entries are ids and no cell is empty |
| Solver.Step | main.js:312-323 | a step keeps the grid's shape and never lowers `paused` |
| Solver.InitInv | main.js:156-166 | a fresh grid satisfies the reachable-state invariant |
| Solver.StepInv | main.js:312-323 | every step keeps the invariant: until `paused` is raised, no cell is empty and every entry is a tile id |
| Solver.StepWhenComplete | main.js:312-323 | a step on a complete grid changes nothing |
| Solver.StepCompleteIff | main.js:196-199 | a step marks the grid complete exactly when it was complete already or every cell held a tile |
| Solver.StepCollapsesOne | main.js:181-217 | a step on an incomplete grid places a tile in the `k1`-th tied empty cell, raises the collapsed count by exactly one, and replaces no placed tile |
| Solver.CollapseShrinks | main.js:211-218 | on a state that is not paused, after the collapse in a step, every cell's candidates are an order-preserving sublist of its candidates before the step: the picked cell keeps one of its own |
| Solver.StepShrinks | main.js:312-323 | no step on a state that is not paused widens any cell's candidate list |
| Solver.StepProgress | main.js:312-323 | each step on an incomplete grid strictly lowers the number of steps left, so the grid is marked complete within `|grid| + 1` steps, whatever the draws |
| Quirks.TopRowFiltersEastAsNorth | main.js:275-307 | on the first row the eastern neighbour is filtered along north, because the off-grid northern neighbour kept the counter at 0 |
| Quirks.LaggedFilterAdmitsMismatch | main.js:280-296 | next to a blank tile, filtering along north keeps the blank and "top" tiles, while filtering along east would keep the blank and "east" tiles; "top" does not fit east of blank |
| Quirks.FirstStep | main.js:312-323 | on a fresh one-row, two-cell grid, draws 0 and 0 place the blank tile on the left and leave the right cell with the blank and "top" tiles |
| Quirks.SecondPropagate | main.js:275-308 | propagating from the right cell filters the collapsed left cell along north, emptying its candidates and raising `paused` while its tile stays |
| Quirks.SecondStep | main.js:312-323 | the second step, with draws 0 and 1, places "top" beside the blank tile although the two do not fit, and pauses |
| Quirks.ContradictionLeaves | main.js:275-308 | propagating from the middle cell of that three-cell row ends in exactly the paused state with the right cell emptied and the left one filtered |
| Quirks.PausedStepWidens | main.js:208-218 | in the paused state a contradiction leaves, the emptied right cell holds no tile and is the only cell with entropy 0; a step picks it, and its candidates grow from `[]` to `[undefined]` |
| Quirks.ContradictionDoesNotStop | main.js:297-308 | after the eastern neighbour is emptied and `paused` is raised, the western neighbour is still filtered |

## Left out

- DOM, canvas, events, drawing and the animation loop (`window_onload`, `app_init`, `app_draw`, `wfc_draw`, the mouse handlers) are not modelled. They are user interface only. A mouse click runs `wfc_loop` even while paused, so `Solver.Step` accepts paused states.
- The tileset image, `tile_size`, and each tile's `image_x`/`image_y` are not modelled. They are rendering data.
- `Math.seedrandom` and the float multiplication are not modelled. Each draw is an abstract bounded `nat`.
- `needs_redraw` and `console.log` are not modelled. They are rendering and diagnostics only.
- `wfc_propagate` is not modelled. It is dead code: its only calls in `wfc_loop` are commented out.
- The `wfc.grid === null` guard of `wfc_loop` is not modelled. After `wfc_init` the grid is never null.
- Propagator.Propagate: requires every candidate entry of the grid to be a tile id. The source dereferences an entry's `sides` and throws a `TypeError` otherwise. This requirement covers the whole grid, not only the cells the call reads. `Solver.StepInv` shows it holds on every state `wfc_loop` reaches before a contradiction, and after one the call returns at once.
- Propagator.Propagate: with zero columns and index 0 the source computes a `NaN` row that passes its range test, then fails on the missing cell. That case is excluded by the precondition. Any other index with zero columns gives an `Infinity` row and returns, as modelled.
- Collapser.Collapse: a forced tile index is any natural number. The source's default `-1` is `None`, and other negative indices are not modelled.
- Solver.Step: requires the reachable-state invariant `Solver.Inv`. `Solver.InitInv` and `Solver.StepInv` show every state reached from `wfc_init` satisfies it.
- Collapser.Collapse: on an incomplete grid the index must be a cell of the grid. The source reads `cell.options` of a missing cell and throws a `TypeError` otherwise. `wfc_loop` only ever passes the cell `wfc_pick` returned, which is a cell of the grid (`Picker.Pick`).
- Solver.StepShrinks: holds only for states that are not paused. After a contradiction, an emptied cell that holds no tile has entropy 0 and is among the cells the next pick chooses from. When the draw picks it, the collapse turns its `[]` into `[undefined]`, which widens its list (`Quirks.PausedStepWidens`).
- Solver.CollapseShrinks: holds only for states that are not paused, for the same reason as `Solver.StepShrinks`.
