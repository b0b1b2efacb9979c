# Connected-component labeling by repeated equivalence scans

This project models in Dafny the labeling core of `docs/src/Labeling.js`. That
file labels the "on" (nonzero) cells of a 2D grid by connected component, and it
does so without a union-find structure. It works in three stages:

1. `LabelInit` gives every horizontal run of ones its own label. A counter is
   bumped at the start of each row and whenever a run ends inside the row (a 1
   followed by a 0), and every cell becomes `level * counter`.
2. `Labeling` makes one pass over the grid:
   - It scans the cells in row-major order. Each cell is compared with its four
     causal neighbours, which `getTarget` lists: up-left, up, up-right, left.
   - Each time two different nonzero labels meet, the scan records an edge
     `current -> neighbour` in a label map, unless the neighbour's label is
     already a key of the map.
   - It then rewrites every cell through `RecursiveGet`, which follows the
     chain of edges and drops each visited key from a copy of the map.
3. `step` repeats passes on their own output until a pass finds an empty map.

The model is split into five modules, one per file:

- `Grid` (`grid.dfy`):
  - grids, positions, and the cell read, which returns 0 outside the grid as
    the source's truthiness test does;
  - the neighbour mask;
  - the set of labels of a grid;
  - 8-connectivity of the "on" cells, with its basic lemmas.
- `RunLabeler` (`run_labeler.dfy`): `LabelInit`, written as its two nested
  loops (`LabelInit` over rows, `LabelRow` over cells). They are proved against
  the recursive functions `RowLabels` and `GridLabels`, and the run-label
  properties are proved about those functions.
- `ChainResolver` (`chain_resolver.dfy`): `RecursiveGet` and the cell rewrite
  `RecursiveGet(labelMap, cell) || cell`, modelled as `Resolve`. On an acyclic
  map with nonzero entries, a resolved label is a sink of the map.
- `EquivalenceScanner` (`equivalence_scanner.dfy`):
  - the commit rule `Commit`;
  - three folds that specify the scan's nested loops: `ScanOffsets`, `ScanRow`
    and `ScanRows`;
  - the loops themselves, as the methods `Scan` and `ScanCell`;
  - lemmas that the resulting map is backed by adjacent cells, is acyclic, and
    is empty exactly when no adjacent "on" cells disagree.
- `Convergence` (`convergence.dfy`):
  - one pass, `Labeling`;
  - the driver, `Step`;
  - the end-to-end result, `LabelComponents`: on a binary grid, after
    `LabelInit` and the driver, two "on" cells carry the same label exactly
    when they are 8-connected through "on" cells.

How the model follows the source's JavaScript:

- **Truthiness.**
  - A neighbour "exists" when its row and cell are present and nonzero.
  - A map entry is present when its key is there with a nonzero value (`Has`).
  - `RecursiveGet(..) || cell` keeps the cell when the lookup yields
    `undefined` (`None`) or 0.
- **Mask.** The mask includes the two upper diagonals, so components are
  8-connected. `Grid.MaskIsCausalHalf` states which neighbours the mask holds.
- **Scan writes.** Line 160 writes `a[current] = neighbour` whenever the guard
  holds, so a later write for the same key replaces the earlier one. The guard
  only tests the neighbour label (`!a[neighbour]`).

## Model

| member | source | states |
|---|---|---|
| Grid.GetTarget | docs/src/Labeling.js:83-90 | the mask holds four offsets |
| Grid.MaskIsCausalHalf | docs/src/Labeling.js:83-90 | the mask is exactly the part of the eight surrounding cells that comes earlier in row-major order, so of any two 8-adjacent cells exactly one sees the other |
| RunLabeler.LabelRow | docs/src/Labeling.js:125-135 | the cell loop, with level and counter updated in place, yields the labels and final counter of `RowLabels` from level 0 |
| RunLabeler.LabelInit | docs/src/Labeling.js:118-138 | the row loop yields `InitLabels(g)`, has the grid's shape, and on a binary grid gives run labels: zeros stay zero; in a row, labels never decrease and are equal exactly on one run; every later row's labels exceed every earlier row's |
| RunLabeler.RowLength | docs/src/Labeling.js:126-135 | a row's labels are as long as the row |
| RunLabeler.RowBounds | docs/src/Labeling.js:126-135 | on a binary row, a label is 0 exactly where the cell is 0, and "on" cells get labels between the starting and the final counter |
| RunLabeler.RowContinues | docs/src/Labeling.js:126-135 | starting at level 1, an "on" cell keeps the starting counter exactly when every cell up to it is "on" |
| RunLabeler.RowPairFirst | docs/src/Labeling.js:126-135 | an "on" first cell is labelled no higher than a later "on" cell, and the two are equal exactly when they lie in one run |
| RunLabeler.RowPairs | docs/src/Labeling.js:126-135 | for any two "on" cells of a binary row, the left label is not larger and the two are equal exactly when the cells lie in one run |
| RunLabeler.LabelInitShape | docs/src/Labeling.js:121-136 | the label grid has the input's rows and row lengths |
| RunLabeler.GridAbove | docs/src/Labeling.js:121-136 | rows scanned from counter `cnt` keep the zero cells and label every "on" cell above `cnt` |
| RunLabeler.GridRowPairs | docs/src/Labeling.js:121-136 | every row of the label grid is run-labelled |
| RunLabeler.GridRowsOrdered | docs/src/Labeling.js:121-136 | every "on" cell of a later row has a larger label than every "on" cell of an earlier row, so distinct runs get distinct labels |
| RunLabeler.GridRuns | docs/src/Labeling.js:118-138 | the labels of a binary grid are run labels |
| RunLabeler.RunLabelsEqual | docs/src/Labeling.js:118-138 | two "on" cells carry the same initial label exactly when they lie in one run of one row |
| ChainResolver.RecursiveGet | docs/src/Labeling.js:60-78 | terminates (the map shrinks); yields nothing exactly on a depth-0 miss; after a miss at depth 1 yields the key itself; any result is a map value or a label that is not a present key; a first lookup that hits yields a map value |
| ChainResolver.WalkFollowsMap | docs/src/Labeling.js:60-78 | dropping visited keys does not change where the walk goes on an acyclic map: `RecursiveGet` on the shrinking copy follows the original map's edges and ends at a label that is not a key |
| ChainResolver.ResolveToSink | docs/src/Labeling.js:170 | on an acyclic map with nonzero entries, `RecursiveGet(map, cell) \|\| cell` is a label that is not a key; a non-key resolves to itself; a key resolves to a map value reached by following one or more of its edges |
| EquivalenceScanner.Commit | docs/src/Labeling.js:157-161 | one commit step only adds keys, leaves the map non-empty when the cell and its neighbour hold two different nonzero labels, and leaves the map unchanged otherwise |
| EquivalenceScanner.ScanOffsets | docs/src/Labeling.js:152-165 | the mask `reduce` over one cell never removes a key |
| EquivalenceScanner.ScanRow | docs/src/Labeling.js:151-166 | the cell loop over one row never removes a key |
| EquivalenceScanner.ScanRows | docs/src/Labeling.js:150-167 | the row loop never removes a key |
| EquivalenceScanner.ScanOffsetsEmpty | docs/src/Labeling.js:152-165 | the offsets of one cell leave the map non-empty when one is a candidate edge, and unchanged when none is |
| EquivalenceScanner.ScanRowEmpty | docs/src/Labeling.js:151-166 | the same over a row's cells |
| EquivalenceScanner.ScanRowsEmpty | docs/src/Labeling.js:150-167 | the same over the grid's rows |
| EquivalenceScanner.WitnessCells | docs/src/Labeling.js:154-160 | behind every recorded edge k -> v are two 8-adjacent "on" cells labelled k and v |
| EquivalenceScanner.LabelMapEntries | docs/src/Labeling.js:157-160 | every entry of a backed map joins two different nonzero labels held by the grid |
| EquivalenceScanner.CommitKeeps | docs/src/Labeling.js:157-161 | the commit rule keeps the map backed by adjacent cells and acyclic: a new edge targets a label that is not a key, so it closes no cycle |
| EquivalenceScanner.ScanOffsetsKeeps | docs/src/Labeling.js:152-165 | the mask `reduce` over one cell keeps the map backed and acyclic |
| EquivalenceScanner.ScanRowKeeps | docs/src/Labeling.js:151-166 | a row of cells keeps the map backed and acyclic |
| EquivalenceScanner.ScanRowsKeeps | docs/src/Labeling.js:150-167 | the rows keep the map backed and acyclic |
| EquivalenceScanner.ScanMapSound | docs/src/Labeling.js:149-167 | the scan's map from the empty map is backed and acyclic, has nonzero keys and values, and is empty exactly when no cell and causal neighbour hold two different nonzero labels |
| EquivalenceScanner.NoCandidateIffAdjacentAgree | docs/src/Labeling.js:152-157 | no candidate edge exists exactly when every two 8-adjacent "on" cells hold the same label (both directions) |
| EquivalenceScanner.ScanCell | docs/src/Labeling.js:152-165 | the mask loop over one cell, updating the map in place, computes `ScanOffsets` from offset 0 |
| EquivalenceScanner.Scan | docs/src/Labeling.js:149-167 | the nested loops compute `ScanMap(g)`; the map is backed, acyclic and has nonzero entries, and it is empty exactly when the grid has no candidate edge |
| Convergence.ResolveGrid | docs/src/Labeling.js:170 | the rewritten grid has the input's shape |
| Convergence.ResolveGridLabels | docs/src/Labeling.js:170 | the rewrite keeps the zero cells and brings in no new label; every key of the map disappears; an empty map leaves the grid unchanged; a non-empty map strictly lowers the number of labels |
| Convergence.EdgeConnected | docs/src/Labeling.js:154-160 | following one edge from a cell's label reaches a label held by a cell in the same 8-connected component |
| Convergence.ChainStaysConnected | docs/src/Labeling.js:60-78 | following n edges from a cell's label reaches a label held by a cell in the same component |
| Convergence.ResolvedWitness | docs/src/Labeling.js:170 | a cell's resolved label is held, before the rewrite, by a cell in the same component |
| Convergence.PassKeepsConnected | docs/src/Labeling.js:143-171 | if each label lies in one 8-connected component before a pass, the same holds after it |
| Convergence.Labeling | docs/src/Labeling.js:143-171 | one pass returns the scan's map and the rewritten grid. The map is backed and acyclic, and it is empty exactly when the grid is a fixed point, in which case the grid comes back unchanged. Zero cells are kept, no label is new and every key is gone, so a non-empty map strictly lowers the label count |
| Convergence.Step | docs/src/Labeling.js:245-258 | passes repeat until a map is empty, and the driver stops. The result keeps the input's shape and zero cells, holds only input labels, and is a fixed point where adjacent "on" cells agree. It took at least one pass and at most one more than the number of labels removed. Each label stays within one 8-connected component |
| Convergence.RunConnected | docs/src/Labeling.js:126-135 | the cells of one run are connected along the row |
| Convergence.InitLabelsConnected | docs/src/Labeling.js:118-138 | each initial label lies within one 8-connected component |
| Convergence.LabelComponents | docs/src/Labeling.js:245-258 | `LabelInit` then the driver on a binary grid: zero cells stay zero, and two "on" cells end with the same label exactly when they are 8-connected through "on" cells |

## Left out

- `generateDisplay`, `colorChart` and `paddingNum`: these render the grid as a
  coloured HTML table (DOM access and floating point). No labeling property
  depends on them.
- `testdata`: it generates random test grids. Grids are parameters of the model.
- `RecursiveIn`: an unused path-string lookup; no labeling code calls it.
- `JsonDeepCopy`: Dafny values are immutable, so a deep copy is the identity.
  `RecursiveGet`'s copy-then-delete becomes `m - {key}`.
- JavaScript numbers are doubles, so the counter `cnt` of `LabelInit` is exact
  only below 2^53. The model's counter is an unbounded `int` and drops that
  limit; no grid that fits in memory comes near it.
- `step`'s `setTimeout`, `console` output and `Promise` chaining: the model
  runs the passes in one loop, and `Step` counts them in `passes`.
- `Labeling`'s returned object `{labelMap, table2D}` becomes the two
  out-parameters of `Convergence.Labeling`. The driver feeds one pass's grid
  to the next, as `step` does with `json.table2D`.
- Keys of a JavaScript object are strings. The model keys the label map by
  integer labels, which the source converts one-to-one.
- The connectivity and run-label results are proved for binary input grids.
  `LabelInit` and the passes are modelled for any integer cells.
- Rows of unequal length are modelled (the source would read them as
  `undefined`, which is falsy). The properties do not depend on equal row
  lengths.
