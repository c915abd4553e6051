# Grid editor layout model

A Dafny model of the layout logic in the grid editor's `main.js`. The page
shows an ordered model array of components (`component_id`, `type`,
`size`). The components sit in rows, and every row is meant to add up to
`BASE = 24` units. Under the DOM calls sits a small integer model, and this
project keeps exactly that:

- `grid.dfy` (module `Grid`) holds the shared vocabulary:
  - `BASE` and the model entry;
  - rows as sequences of model indices (the `dataset.index` of each component element);
  - `getRowSize` as a left-to-right sum;
  - flattening rows into document order.
- `partition.dfy` (module `Partitioning`) models the partition loop of
  `initialize`:
  - a running total that opens a new row whenever it is 0 and is reset once it reaches `BASE` or more;
  - a pure specification (`Partition`) and the loop (`PartitionRows`) proved against it;
  - a characterisation of its output.
- `resize.dfy` (module `Resizing`) models the guard and the new sizes of a
  pointer move on a splitter. The moves are computed from the two sizes
  captured at mousedown.
- `placement.dfy` (module `Placement`) models where a dragged component
  lands:
  - next to a target component, before it or after it;
  - in a new row of its own, above or below a target row.
- `normalize.dfy` (module `Normalization`) models `adjustRows`:
  - removal of empty rows;
  - rescaling with `Math.round(size * BASE / rowSize)`, written exactly on integers;
  - the correction of the first non-placeholder component.
- `fraction.dfy` (module `Fractions`) models `reduce` and `GCD`:
  - Euclid's algorithm with JavaScript's truncating `%`;
  - division of both parts by the result.
- `layout.dfy` (module `Editor`) holds the class `Layout`. Its fields are
  the model array and the rows of the page. Its methods are:
  - the constructor, which is `initialize`;
  - a resize move;
  - the two kinds of drop, each followed by `adjustRows`;
  - `adjustRows` itself;
  - the commit (`updateModel`).

  `Valid()` says that the page shows every model entry exactly once. The
  drops and the commit preserve it, and a resize move leaves it as it was.

The rows are kept as the page keeps them. They are cut from the sizes only
once, when the editor starts. After that, drops move components between
existing rows or into new ones, and `adjustRows` only rescales and removes
rows. The rows are never recomputed from the linear order of the model.
This follows `main.js`. A reading in which rows are implied by the running
total of the model in order is not what the code does after the first
drag.

Three modelling decisions:

- The placeholder of a drag in progress is the dragged component itself.
  The drop methods pass it to `adjustRows` as `Some(x)`.
- `GCD` runs with JavaScript's remainder, which takes the sign of the
  dividend. So `reduce` of a negative size keeps a negative denominator:
  `-12/24` reads `1/-2` (`Fractions.EdgeFractions`).
- `Math.round` is modelled for every non-zero divisor, with halves rounded
  towards positive infinity. Sizes are unbounded integers, so `Round` and
  `SetSize` agree with the JavaScript numbers only while every `size * BASE`
  stays below 2^53 in magnitude (see Left out).

## Model

| member | source | states |
|---|---|---|
| Partitioning.ScanInvariant | main.js:44-64 | after any prefix of sizes, the rows concatenate back to that prefix in order, every row is non-empty and stays open until its last component, every row but the last is closed (sum 0 or at least `BASE`), and the running total is what the last row leaves open |
| Partitioning.ScanRow | main.js:44-64 | after a closed prefix, a row whose proper prefixes keep the total open is consumed as exactly one new row |
| Partitioning.PartitionRebuilds | main.js:44-64 | any well-partitioned sequence of rows is exactly what the partitioner rebuilds from its concatenation |
| Partitioning.PartitionCharacterization | main.js:44-64 | `Partition(sizes) == rows` if and only if the rows concatenate to `sizes` and are well partitioned (a new row starts exactly when the total is 0, and a short last row is kept) |
| Partitioning.PartitionIdempotent | main.js:44-64 | partitioning the concatenation of a partition gives the same partition |
| Partitioning.PartitionRoundTrip | main.js:46-63 | with positive sizes, rows that each sum to exactly `BASE` come back unchanged from partitioning their concatenation |
| Partitioning.PartitionRowsReachBase | main.js:44-64 | with positive sizes, every row before the last sums to at least `BASE`, and the rows concatenate to the input |
| Partitioning.InitialLayoutRows | main.js:4-35 | the initial sizes 9, 15, 15, 9, 9, 15 give the rows [9, 15], [15, 9], [9, 15] |
| Partitioning.PartitionRowsNewRow | main.js:47-63 | an iteration that opens a row keeps the index rows, the indices seen so far and the running total in step with the specification |
| Partitioning.PartitionRowsExtend | main.js:52-63 | an iteration that extends the open row keeps the loop state in step with the specification |
| Partitioning.PartitionRows | main.js:44-64 | the loop's rows name entries of the model, list the indices 0 .. n-1 in order, and their sizes are `Partition` of the model's sizes |
| Resizing.Resize | main.js:139-141 | a move is applied exactly when `-right < delta < left`; then both new sizes are positive, the pair's sum is kept and the left size is `left - delta` |
| Resizing.ResizeUndo | main.js:134-141 | a move back by the same delta restores the captured sizes |
| Resizing.ResizeNoDrift | main.js:123-141 | computing each move from the sizes captured at mousedown is the same as moving from the current sizes by the difference of the deltas |
| Resizing.ResizeReachesEverySplit | main.js:138-141 | every split of the pair's total into two positive sizes is reached by some delta |
| Grid.SetSize | main.js:208-210 | `resizeComponent` changes the size of one entry and keeps its id, its kind and every other entry |
| Grid.RowSizeSetSize | main.js:236-240 | changing one component of a row without repeats by `d` changes the row's size by `d` |
| Editor.ResizeModel | main.js:139-141 | a pointer move changes no entry other than the splitter's two neighbours |
| Editor.ResizeModelSizes | main.js:139-143 | a rejected move leaves the model unchanged; an applied one sets the neighbours to the captured sizes minus and plus `delta` |
| Editor.ResizeKeepsRowSize | main.js:139-141 | while the grip's sizes add up to what the neighbours hold, a move changes the size of no row |
| Editor.Layout.ResizeMove | main.js:131-143 | one move: the rows are unchanged, the model becomes `ResizeModel` of the old one, and validity is kept |
| Placement.Without | main.js:166-168 | the dragged element leaves its old slot: no occurrence of it is left |
| Placement.FlattenRemoveAll | main.js:166-168 | taking the dragged index out of every row takes it out of the document order |
| Placement.InsertAtCount | main.js:165-169 | inserting next to the target adds one dragged index per occurrence of the target and changes no other count |
| Placement.WithoutInsertAt | main.js:165-169 | removing the inserted index again gives back the row without it |
| Placement.InsertAtSplit | main.js:165-169 | when the target occurs once, the dragged index is put immediately before it (`Before`) or after it (`After`) and nothing else moves |
| Placement.PlaceBesideKeepsComponents | main.js:165-169 | a drop on a component keeps the number of rows and the multiset of indices, and keeps the relative order of every other component |
| Placement.PlaceBesideAdjacent | main.js:165-169 | after a drop on a component, the dragged index is directly before the target (left half) or directly after it (right half) in one row |
| Placement.PlaceInNewRowKeepsComponents | main.js:190-197 | a drop on a row band keeps the multiset of indices and the relative order of every other component |
| Placement.PlaceInNewRowShape | main.js:190-197 | a drop on a row band adds exactly one row, holding only the dragged index, directly before the target row (`Up`) or after it (`Down`); the other rows are the old rows without the dragged index, in order |
| Normalization.Round | main.js:221 | `Math.round(p / q)`: the result is the integer within half of `p / q`, halves going up, for either sign of `q` |
| Normalization.RoundUnique | main.js:221 | for either sign of the divisor, only one integer satisfies that characterisation |
| Normalization.RoundWhole | main.js:221 | a component alone in its row is rescaled to exactly `BASE` |
| Normalization.Rescale | main.js:218-223 | rescaling a row keeps the length of the model, every entry outside the row, and every id and kind |
| Normalization.RescaleAt | main.js:218-223 | in a row without repeats, every component gets `round(size * BASE / rowSize)` of its own old size |
| Normalization.FirstComponent | main.js:227 | the result is absent exactly when every component of the row is the placeholder, and otherwise is a non-placeholder member of the row |
| Normalization.FirstComponentIsFirst | main.js:227 | the chosen component is the earliest non-placeholder in document order |
| Normalization.Correct | main.js:225-230 | the correction touches no entry outside the row and keeps every id and kind |
| Normalization.CorrectReachesBase | main.js:225-230 | when the row has a non-placeholder component, the correction brings it to exactly `BASE` |
| Normalization.NormalizeRow | main.js:216-231 | normalising one row keeps entries outside it and every id and kind, and leaves the model unchanged when the row already sums to `BASE` |
| Normalization.NormalizeRowReachesBase | main.js:216-231 | every non-empty row without repeats ends at exactly `BASE`, including a row that holds only the placeholder |
| Normalization.PlaceholderReachesBase | main.js:216-223 | a row holding only the placeholder is rescaled to `BASE` by itself |
| Normalization.NormalizeRowSizes | main.js:216-231 | each component holds its rounded share; only the first non-placeholder also receives what rounding left over, and only if something was left over |
| Normalization.NormalizeAll | main.js:213-232 | the pass keeps the length of the model, every entry that is in no row, and every id and kind |
| Normalization.NormalizeAllStep | main.js:213-232 | each row is normalised in the model the earlier rows left, where it still has its original size |
| Normalization.NormalizeAllReachesBase | main.js:213-232 | after the pass, every non-empty row sums to exactly `BASE` |
| Normalization.NormalizeAllKeepsBalancedRow | main.js:216-217 | a row that already sums to `BASE` keeps every size through the pass |
| Normalization.KeepNonEmpty | main.js:214 | no row left is empty, and there are no more rows than before |
| Normalization.KeepNonEmptyFlatten | main.js:214 | removing empty rows changes neither the components nor their order, and keeps every non-empty row |
| Normalization.KeepNonEmptyIdentity | main.js:214 | rows with no empty row are left as they are |
| Normalization.TwoNines | main.js:216-231 | a row [9, 9] becomes [12, 12] |
| Normalization.FiveTwos | main.js:216-231 | five components of size 2 become [4, 5, 5, 5, 5]: each rounds to 5, and the first gives the extra unit back |
| Normalization.LiveVisited | main.js:213-214 | the rows the loop reaches as written are rows of the page, no more of them than there are rows |
| Normalization.LiveVisitedNoEmpty | main.js:213-214 | with no empty row, the loop as written reaches every row |
| Normalization.LiveIterationSkipsRow | main.js:213-231 | rows [[], [0]] with entry 0 of size 12: the loop as written leaves row [0] at 12, while the pass over every row brings it to `BASE` |
| Editor.Layout.RescaleRow | main.js:218-223 | the loop over a row's components leaves the rows alone and makes the model `Rescale` of the old one |
| Editor.Layout.CorrectRow | main.js:225-230 | the correction leaves the rows alone and makes the model `Correct` of the old one |
| Editor.PassStep | main.js:213-232 | one more row of the pass: its indices are in range, it can be rescaled, and the state after it is the pass over one more row, with the row kept exactly when it is non-empty |
| Editor.Layout.NormalizeAt | main.js:216-232 | the step of `adjustRows` at row `r`: the rows are left alone, the model is rescaled and corrected when the row is non-empty, and the kept rows grow by that row exactly then |
| Editor.Layout.NormalizeOne | main.js:216-231 | one row of `adjustRows`: the model becomes `NormalizeRow` of the old one |
| Editor.Layout.Normalize | main.js:212-234 | `adjustRows`: the model becomes `NormalizeAll` of the old model and rows, the rows become the non-empty old rows in order, and the components and their order are kept |
| Editor.Layout.DragOverComponent | main.js:157-173 | a drop on a component followed by `adjustRows`: the new rows and model are the normalised `PlaceBeside` rows, and validity is kept |
| Editor.Layout.DragOverRow | main.js:180-201 | a drop on a row band followed by `adjustRows`: the new rows and model are the normalised `PlaceInNewRow` rows, and validity is kept |
| Editor.Layout.constructor | main.js:41-64 | the model is the initial array, the rows list the indices 0 .. n-1 in order, their sizes are `Partition` of the model's sizes, and the layout is valid |
| Editor.NumberedFlatten | main.js:246-250 | after renumbering, the page lists the indices 0, 1, ..., n-1 in order |
| Editor.CommitKeepsEntry | main.js:246-250 | every component shows the same entry after the commit: its new index names, in the new model, the entry its old index named |
| Editor.ReorderSameIndices | main.js:244-251 | two orders with the same multiset of indices give new models with the same multiset of entries |
| Editor.ReorderIdentity | main.js:243-253 | committing the identity order gives back the model |
| Editor.ReorderPermutation | main.js:243-253 | when every entry is on the page exactly once, the new model is a permutation of the old one |
| Editor.CommitIdempotent | main.js:243-253 | after a commit the page lists 0 .. n-1 in order, so a second commit renumbers nothing |
| Editor.Layout.Commit | main.js:243-253 | the model becomes `Reorder` of the old model by the document order, the rows are renumbered, and the layout is valid |
| Fractions.JsRem | main.js:264 | JavaScript's `%`: `a - b * trunc(a / b)`, smaller than `b` in magnitude, with the sign of `a` |
| Fractions.EuclidGcd | main.js:261-268 | the loop returns `Gcd(a, b)` |
| Fractions.GcdDivides | main.js:261-268 | the result divides both arguments |
| Fractions.GcdGreatest | main.js:261-268 | every common divisor of the arguments divides the result |
| Fractions.GcdSign | main.js:261-268 | the result is 0 exactly when both arguments are 0, and is non-negative for non-negative arguments |
| Fractions.Reduce | main.js:255-259 | the reduced denominator is non-zero and the reduced fraction has the same ratio (`num * d == n * den`) |
| Fractions.CommonDivisorIsUnit | main.js:255-259 | any common divisor of the reduced parts is 1 or -1 |
| Fractions.ReduceCoprime | main.js:255-259 | the reduced parts are coprime |
| Fractions.InitialFractions | main.js:255-259 | 9/24, 15/24, 12/24 and 24/24 read 3/8, 5/8, 1/2 and 1/1 |
| Fractions.EdgeFractions | main.js:255-268 | 0/24 reads 0/1, and -12/24 reads 1/-2 |

## Left out

- DOM building and rendering are not modelled: `createElement`, `appendChild`, `drawSplitters`, `drawLabels`, `drawFractions`, labels and CSS classes. The fraction text is modelled only through `Reduce`.
- Event wiring is not modelled: listeners, `dataTransfer` payloads, the `event.buttons` and `!x` liveness checks of a gesture, and the `drop` handlers that only call `preventDefault`. Each model operation is one event.
- Pixel geometry is an input, not modelled: widths, paddings, bounding boxes and the `Math.floor` that turns a pointer offset into `delta`. `delta` is an integer parameter, the side of a component is `Side`, and the band of a row is `Direction`.
- The `setTimeout` that turns the dragged element into the placeholder is not modelled. The drop methods always pass the dragged component as the placeholder, which is its state from the first `dragover` on.
- Repeated `dragover` events are not modelled. Each drop method is one `dragover` with its `adjustRows`. Events bubbling from a component's `dragover` to its row's handler are not modelled either.
- Editor.Layout.Normalize: requires that no non-empty row sums to 0. On such a row `adjustRows` divides by zero and the sizes become `NaN`, and floating point is not part of this model.
- Editor.Layout.DragOverComponent: requires, for the same reason, that no non-empty row sums to 0 after the move.
- Editor.Layout.DragOverRow: requires, for the same reason, that no non-empty row sums to 0 after the move.
- JavaScript numbers are doubles; the model's sizes are unbounded integers. `Normalization.Round`, `Grid.SetSize` and the rescaling agree with the page only while `|size * BASE|` stays below 2^53 and `|size|` below 10^21. Beyond that, products lose precision and `parseInt` of the printed size reads an exponent form.
- Editor.ResizeKeepsRowSize: holds only while the grip's sizes equal the model's. The page reads them from the rendered `style.flexGrow` at `mousedown` (main.js:124-125), and CSS ignores a negative flex-grow. So once a correction has made a size negative (`[1, 1, 1, 1, 1, 1, 10]` becomes `[-1, 2, 2, 2, 2, 2, 15]`), the grip holds the element's earlier flex-grow or an empty value instead of -1. A move from an earlier value writes sizes whose sum differs from the row's. `Editor.ResizeModel` takes the grip as a parameter and so covers this case as written; only the row-sum lemma needs the hypothesis.
- Splitter elements are not modelled. A row that still holds an old splitter but no component is not removed until the next pass.
- The row skipped after a removed row is not part of `Editor.Layout.Normalize`, which reaches every row. The behaviour as written is modelled on its own, by `Normalization.LiveVisited` and the lemmas beside it (see Findings).
- The string handling of `reduce` is not modelled: the `'/'` split and the string-to-number coercions. `Reduce` works on a pair of integers with a non-zero denominator.
- `debug()` and its JSON output are not modelled.
- `getModel`'s `parseInt` of `dataset.index` is not modelled: indices are natural numbers in the rows.

## Findings

| source | as written | input that shows it | evidently intended | confidence | as-written member | corrected member |
|---|---|---|---|---|---|---|
| main.js:213-214 | `adjustRows` walks the live list `editor.childNodes` and removes an empty row during the walk. The next row moves into the slot just visited, so this pass never reaches it. | rows `[[], [0]]` with entry 0 of size 12: after the pass, row `[0]` still has size 12 | every remaining row is normalised to `BASE` in the same pass | medium, not executed; a later `dragover` runs the pass again and reaches the row | Normalization.LiveIterationSkipsRow | Normalization.NormalizeAllReachesBase |
