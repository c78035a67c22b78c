# Drag-to-select on a diff gutter, modelled in Dafny

`DragDropSelectionStrategy` is the helper behind the drag gesture that selects
or deselects diff lines for commit in the gutter beside a diff. A gesture
fixes three things when it starts:

- the row it started on;
- the value it applies (select or deselect);
- the selection as it was before the gesture.

The row under the pointer is the only thing that changes. From these the
strategy derives:

- the inclusive range between the start row and the current row;
- the per-row selection while the drag is in progress;
- the range request made when the gesture completes;
- a repaint of the gutter rows around the range.

`drag_drop_selection_strategy.dfy` holds one module, `DragDropSelection`.

- The class `DragDropSelectionStrategy` keeps the start row, the desired value
  and the snapshot as `const` fields and the current row as its one mutable
  field. `Update` may modify only that field.
- The snapshot (`DiffSelection.isSelected`) is an oracle `int -> bool`.
- `Apply(hasCallback)` returns the arguments it would pass to
  `withRangeSelection` (a `RangeSelection` record), or `None` when no callback
  is given.
- `Paint` takes the gutter as a map from row to `GutterElement`. An element may
  lack its first child. A child is reduced to its set of CSS classes. The
  method walks the clamped window with a loop and returns the repainted map.
  The strategy has no `modifies` clause there, so its fields cannot change.
- `Visits` and the `endInclusive` parameter of `Paint` say whether
  `range(first, last)` includes `last`. `lib/range` is not part of this model.
- With `endInclusive` false, row `upper + 1` is never visited, so the one-row
  repaint margin holds only below the range (`ExclusiveEndSkipsUpperMargin`).
- `GestureWalkthrough` and `PaintWalkthrough` are verified clients. They follow
  one gesture and one repaint through the contracts.

The doc comment on the `desiredSelection` getter repeats the one on
`initialIndex`. The getter returns the desired boolean, and the model follows
the code.

## Model

| member | source | states |
|---|---|---|
| DragDropSelection.DragDropSelectionStrategy.constructor | app/src/ui/diff/drag-drop-selection-strategy.ts:12-17 | the current row starts at the start row, so the lower bound, the upper bound and the initial index all equal the start row; the desired value and the snapshot are the ones given |
| DragDropSelection.DragDropSelectionStrategy.LowerIndex | app/src/ui/diff/drag-drop-selection-strategy.ts:22-28 | the lower bound is at most the start row and the current row, and is one of them: the minimum of the two |
| DragDropSelection.DragDropSelectionStrategy.UpperIndex | app/src/ui/diff/drag-drop-selection-strategy.ts:33-39 | the upper bound is at least the start row and the current row, and is one of them: the maximum of the two |
| DragDropSelection.DragDropSelectionStrategy.RangeOrdered | app/src/ui/diff/drag-drop-selection-strategy.ts:22-39 | for every start/current pair the lower bound is at most the upper bound, and both the start row and the current row lie in the range |
| DragDropSelection.DragDropSelectionStrategy.InitialIndex | app/src/ui/diff/drag-drop-selection-strategy.ts:44-46 | the initial index is the start row |
| DragDropSelection.DragDropSelectionStrategy.DesiredSelection | app/src/ui/diff/drag-drop-selection-strategy.ts:51-53 | the getter returns the desired boolean fixed at construction |
| DragDropSelection.DragDropSelectionStrategy.Update | app/src/ui/diff/drag-drop-selection-strategy.ts:58-60 | only the current row changes, and it becomes `c`; afterwards the range is the minimum and maximum of the start row and `c` |
| DragDropSelection.DragDropSelectionStrategy.GetIsSelected | app/src/ui/diff/drag-drop-selection-strategy.ts:117-124 | every row between the start row and the current row, in either order and inclusive at both ends, has the desired value; every other row has the snapshot's value |
| DragDropSelection.DragDropSelectionStrategy.StartRowSelected | app/src/ui/diff/drag-drop-selection-strategy.ts:119-120 | in every state, so after any sequence of updates, the start row reports the desired value |
| DragDropSelection.DragDropSelectionStrategy.Apply | app/src/ui/diff/drag-drop-selection-strategy.ts:62-73 | a request is made exactly when a callback is given; it starts at the lower bound, with length upper minus lower plus one (at least 1) and the desired value; its half-open window covers exactly the inclusive range; the snapshot with the request applied agrees with `GetIsSelected` on every row |
| DragDropSelection.PaintWindow | app/src/ui/diff/drag-drop-selection-strategy.ts:79-88 | the window's first row is the larger of 1 and the lower bound minus one; its last row is the smaller of the upper bound plus one and the element count minus one |
| DragDropSelection.PaintVisitsMargin | app/src/ui/diff/drag-drop-selection-strategy.ts:79-90 | the rows visited are exactly the range widened by one row on each side, cut to row 1 and to the last element, with the far end included as `range` does; row 0, the diff context, is never visited |
| DragDropSelection.PaintCoversRange | app/src/ui/diff/drag-drop-selection-strategy.ts:79-90 | every row of the range from 1 up to the second-to-last element is visited, whichever way `range` treats its end |
| DragDropSelection.ExclusiveEndSkipsUpperMargin | app/src/ui/diff/drag-drop-selection-strategy.ts:85-90 | when `range` leaves out its end, the row just above the range is not visited, whatever the element count |
| DragDropSelection.Repaint | app/src/ui/diff/drag-drop-selection-strategy.ts:98-108 | on an element with a first child, the child ends up with the selected class exactly when the row is selected, and its other classes stay; an element without a first child is unchanged |
| DragDropSelection.DragDropSelectionStrategy.Paint | app/src/ui/diff/drag-drop-selection-strategy.ts:75-110 | the rows of the gutter stay the same; each visited row with an element and a first child ends up marked exactly as `GetIsSelected` says and keeps its other classes; rows without an element or first child, rows outside the window and row 0 stay as they were; the strategy's fields do not change |

## Left out

- `Paint` returns the repainted gutter instead of changing DOM nodes in place. Two rows sharing one DOM node (aliasing) are not modelled.
- `console.error` when a gutter element or its first child is missing is not modelled. It is logging only; the model keeps the "skip this row" control flow.
- `DiffSelection` is not part of this model. `isSelected` is an uninterpreted `int -> bool`. `withRangeSelection` is recorded as the request it receives (`RangeSelection`), and the selection it builds is not modelled. `RangeOverlay` is the reading of its name that `Apply`'s last postcondition relies on.
- `range` from `lib/range` is not part of this model. Whether it includes its end is the `endInclusive` parameter of `Paint`, not a claimed fact.
- Paint: `range(first, last)` is taken to list `first, first + 1, …` in ascending order, and nothing when `first > last`. That case is reached by ordinary inputs: 5 elements with lower = upper = 10 give the window (9, 4), and a single element gives (1, 0). A `range` that counted down there would visit other rows, row 0 among them, so `PaintVisitsMargin` rests on this reading.
- The `ISelectionStrategy` interface and the UI event handlers that call `update`, `paint` and `apply` are not part of this model.
- The callback is not called here. `Apply` returns the request the callback would receive, and `hasCallback` says whether one was given.
- Row numbers are mathematical integers. JavaScript numbers are floating point, and non-integer or very large row numbers are not modelled.
