/**
 * A model of the drag-to-select gesture on a diff gutter.
 *
 * The gesture remembers the row it started on, the selection value it is
 * applying and the selection as it was before the gesture began; the only
 * thing that moves is the row the pointer is currently over.  From these it
 * derives an inclusive range of rows, an overlay of the desired value on the
 * old selection, the range request handed over when the gesture completes,
 * and a repaint of the gutter rows around the range.
 */
module DragDropSelection {

  datatype Option<T> = None | Some(value: T)

  /** The arguments of one `withRangeSelection(start, length, selected)` request. */
  datatype RangeSelection = RangeSelection(start: int, length: int, selected: bool)

  /** Row `index` lies in the half-open window `[r.start, r.start + r.length)`. */
  predicate Covers(r: RangeSelection, index: int) {
    r.start <= index < r.start + r.length
  }

  /**
   * What a selection snapshot reports for `index` once a range request has been
   * applied to it: the requested value inside the request's window, the old
   * value outside it.  This is the reading of `withRangeSelection` that its
   * name and its arguments give; its implementation is not part of this model.
   */
  function RangeOverlay(base: int -> bool, r: RangeSelection, index: int): bool {
    if Covers(r, index) then r.selected else base(index)
  }

  /** The CSS class that marks a gutter row as selected. */
  const LineSelectedClass: string := "diff-line-selected"

  /** The first child of a gutter element, reduced to its class list. */
  datatype ChildSpan = ChildSpan(classList: set<string>)

  /** A gutter element; its first child may be missing. */
  datatype GutterElement = GutterElement(firstChild: Option<ChildSpan>)

  /** The element shows row `e` as selected. */
  predicate LineSelected(e: GutterElement) {
    e.firstChild.Some? && LineSelectedClass in e.firstChild.value.classList
  }

  /**
   * One row of the repaint: add or remove the selected class on the element's
   * first child; an element without a first child is left as it is.
   */
  function Repaint(e: GutterElement, selected: bool): (r: GutterElement)
    ensures r.firstChild.Some? <==> e.firstChild.Some?
    ensures e.firstChild.Some? ==> (LineSelected(r) <==> selected)
    ensures e.firstChild.Some? ==>
      r.firstChild.value.classList - {LineSelectedClass} == e.firstChild.value.classList - {LineSelectedClass}
    ensures e.firstChild.None? ==> r == e
  {
    match e.firstChild
    case None => e
    case Some(span) =>
      if selected then GutterElement(Some(ChildSpan(span.classList + {LineSelectedClass})))
      else GutterElement(Some(ChildSpan(span.classList - {LineSelectedClass})))
  }

  /** The rows `paint` walks over: from `first` to `last`, the end taken as `range` takes it. */
  datatype Window = Window(first: int, last: int)

  /**
   * `paint` visits `row`.  `range(first, last)` is taken to list `first`,
   * `first + 1`, ... in ascending order, and nothing when `first > last`;
   * whether it includes `last` is a parameter of the model, `endInclusive`.
   */
  predicate Visits(w: Window, endInclusive: bool, row: int) {
    w.first <= row && (row < w.last || (endInclusive && row == w.last))
  }

  /**
   * The bounds of the repaint: one row beyond the range on each side, never
   * below row 1 (row 0 is the diff context) and never beyond the last of the
   * `size` gutter elements.
   */
  function PaintWindow(lower: int, upper: int, size: int): (w: Window)
    ensures 1 <= w.first && lower - 1 <= w.first
    ensures w.first == 1 || w.first == lower - 1
    ensures w.last <= size - 1 && w.last <= upper + 1
    ensures w.last == size - 1 || w.last == upper + 1
  {
    var first := if lower - 1 < 1 then 1 else lower - 1;
    var last := if upper + 1 >= size then size - 1 else upper + 1;
    Window(first, last)
  }

  /**
   * Exactly which rows the repaint visits: the range widened by one row on
   * each side, cut to row 1 and the last element, with the far end included
   * or not as `range` has it.  Row 0 is never visited.
   */
  lemma PaintVisitsMargin(lower: int, upper: int, size: int, endInclusive: bool, row: int)
    ensures Visits(PaintWindow(lower, upper, size), endInclusive, row) <==>
      && 1 <= row && lower - 1 <= row
      && (if endInclusive then row <= upper + 1 && row <= size - 1
          else row < upper + 1 && row < size - 1)
    ensures !Visits(PaintWindow(lower, upper, size), endInclusive, 0)
  {
  }

  /**
   * Every row of the range that is a gutter row other than the context row
   * and the last gutter element is repainted, whichever way `range` treats
   * its end.
   */
  lemma PaintCoversRange(lower: int, upper: int, size: int, endInclusive: bool, row: int)
    requires lower <= row <= upper
    requires 1 <= row < size - 1
    ensures Visits(PaintWindow(lower, upper, size), endInclusive, row)
  {
  }

  /**
   * With a `range` that leaves out its end, the row just above the range is
   * never repainted, so the one-row margin holds on the lower side only.
   */
  lemma ExclusiveEndSkipsUpperMargin(lower: int, upper: int, size: int)
    ensures !Visits(PaintWindow(lower, upper, size), false, upper + 1)
  {
  }

  class DragDropSelectionStrategy {
    /** The row the gesture started on. */
    const start: int
    /** The value the gesture applies to every row it covers. */
    const desired: bool
    /** The selection before the gesture began, as `isSelected` reports it. */
    const snapshot: int -> bool

    /** The row the user is currently interacting with. */
    var current: int

    constructor (start: int, desiredSelection: bool, snapshot: int -> bool)
      ensures this.start == start && desired == desiredSelection && this.snapshot == snapshot
      ensures current == start
      ensures LowerIndex() == start && UpperIndex() == start && InitialIndex() == start
      ensures DesiredSelection() == desiredSelection
    {
      this.start := start;
      this.current := start;
      this.desired := desiredSelection;
      this.snapshot := snapshot;
    }

    /** The lower bound of the selection range: the smaller of start and current. */
    function LowerIndex(): (r: int)
      reads this
      ensures r <= start && r <= current
      ensures r == start || r == current
    {
      if start <= current then start else current
    }

    /** The upper bound of the selection range: the larger of start and current. */
    function UpperIndex(): (r: int)
      reads this
      ensures start <= r && current <= r
      ensures r == start || r == current
    {
      if start <= current then current else start
    }

    /** The row the gesture started on. */
    function InitialIndex(): (r: int)
      ensures r == start
    {
      start
    }

    /** The value the gesture applies (the getter returns a boolean, not an index). */
    function DesiredSelection(): (r: bool)
      ensures r == desired
    {
      desired
    }

    /** Row `index` is inside the inclusive range of the gesture. */
    predicate InRange(index: int)
      reads this
    {
      LowerIndex() <= index <= UpperIndex()
    }

    /** The bounds are ordered and both ends of the gesture lie in the range. */
    lemma RangeOrdered()
      ensures LowerIndex() <= UpperIndex()
      ensures InRange(start) && InRange(current)
    {
    }

    /**
     * Move the gesture to row `c`.  Only the current row changes: the start
     * row, the desired value and the snapshot are `const` fields.
     */
    method Update(c: int)
      modifies this`current
      ensures current == c
      ensures LowerIndex() <= start && LowerIndex() <= c && (LowerIndex() == start || LowerIndex() == c)
      ensures start <= UpperIndex() && c <= UpperIndex() && (UpperIndex() == start || UpperIndex() == c)
    {
      current := c;
    }

    /**
     * The selection state of row `index` during the gesture: the desired value
     * on every row between the start row and the current row, in either order
     * and at both ends; the old selection everywhere else.
     */
    function GetIsSelected(index: int): (r: bool)
      reads this
      ensures (start <= index <= current || current <= index <= start) ==> r == desired
      ensures !(start <= index <= current || current <= index <= start) ==> r == snapshot(index)
    {
      if index >= LowerIndex() && index <= UpperIndex() then desired else snapshot(index)
    }

    /** The start row is always covered, wherever the pointer has moved to. */
    lemma StartRowSelected()
      ensures GetIsSelected(InitialIndex()) == DesiredSelection()
    {
    }

    /**
     * Complete the gesture.  With a callback (`hasCallback`) this returns the
     * request passed to `withRangeSelection`; without one nothing happens.
     * The request starts at the lower bound, is at least one row long, covers
     * exactly the rows `GetIsSelected` puts at the desired value, and applying
     * it to the snapshot yields what `GetIsSelected` reports for every row.
     */
    method Apply(hasCallback: bool) returns (call: Option<RangeSelection>)
      ensures call.Some? <==> hasCallback
      ensures call.Some? ==> call.value.start == LowerIndex() && call.value.selected == desired
      ensures call.Some? ==> call.value.length == UpperIndex() - LowerIndex() + 1 >= 1
      ensures call.Some? ==> forall i :: Covers(call.value, i) <==> InRange(i)
      ensures call.Some? ==> forall i :: RangeOverlay(snapshot, call.value, i) == GetIsSelected(i)
    {
      call := None;
      if hasCallback {
        var length := (UpperIndex() - LowerIndex()) + 1;
        call := Some(RangeSelection(LowerIndex(), length, DesiredSelection()));
      }
    }

    /**
     * Repaint the gutter rows around the range.  `elements` maps a row to its
     * gutter element; the result is the same map after the walk.  A visited
     * row with an element and a first child ends up marked exactly when
     * `GetIsSelected` says so, and keeps its other classes; every other row,
     * row 0 included, is left as it was.  The strategy itself is not changed.
     */
    method Paint(elements: map<int, GutterElement>, endInclusive: bool)
      returns (painted: map<int, GutterElement>)
      ensures painted.Keys == elements.Keys
      ensures forall row :: row in elements ==>
        painted[row] == if Visits(PaintWindow(LowerIndex(), UpperIndex(), |elements|), endInclusive, row)
                        then Repaint(elements[row], GetIsSelected(row))
                        else elements[row]
      ensures forall row ::
        (row in elements && elements[row].firstChild.Some? &&
         Visits(PaintWindow(LowerIndex(), UpperIndex(), |elements|), endInclusive, row)) ==>
        (LineSelected(painted[row]) <==> GetIsSelected(row))
      ensures forall row :: row in elements && elements[row].firstChild.None? ==> painted[row] == elements[row]
      ensures 0 in elements ==> painted[0] == elements[0]
    {
      var first := LowerIndex() - 1;
      if first < 1 {
        first := 1;
      }
      var maximum := |elements|;
      var last := UpperIndex() + 1;
      if last >= maximum {
        last := maximum - 1;
      }

      var stop := if endInclusive then last + 1 else last;
      var row := first;
      painted := elements;
      while row < stop
        invariant first <= row && (row <= stop || row == first)
        invariant painted.Keys == elements.Keys
        invariant forall k :: k in elements ==>
          painted[k] == if first <= k < row then Repaint(elements[k], GetIsSelected(k)) else elements[k]
      {
        if row in painted {
          var element := painted[row];
          var selected := GetIsSelected(row);
          if element.firstChild.Some? {
            painted := painted[row := Repaint(element, selected)];
          }
        }
        row := row + 1;
      }
    }
  }

  /**
   * A client of the strategy, following one gesture: start on row 5 with the
   * desired value true over a snapshot that selects nothing, drag to row 10,
   * then back past the start to row 3, and complete the gesture.
   */
  method GestureWalkthrough() {
    var s := new DragDropSelectionStrategy(5, true, (i: int) => false);
    assert s.LowerIndex() == 5 && s.UpperIndex() == 5;
    s.Update(10);
    assert s.GetIsSelected(5) && s.GetIsSelected(10);
    assert !s.GetIsSelected(4) && !s.GetIsSelected(11);
    s.Update(3);
    assert s.LowerIndex() == 3 && s.UpperIndex() == 5;
    var call := s.Apply(true);
    assert call == Some(RangeSelection(3, 3, true));
    var none := s.Apply(false);
    assert none == None;
  }

  /**
   * A client of the repaint: five gutter rows, a gesture covering row 2 only
   * over a snapshot that selects every row.  With an inclusive `range`, rows
   * 1 to 3 are marked; row 0 (the context row) and row 4 (the last element)
   * are not touched.
   */
  method PaintWalkthrough() {
    var s := new DragDropSelectionStrategy(2, true, (i: int) => true);
    var plain := GutterElement(Some(ChildSpan({})));
    var elements := map[0 := plain, 1 := plain, 2 := plain, 3 := plain, 4 := plain];
    assert elements.Keys == {0, 1, 2, 3, 4};
    assert |elements| == 5;
    var painted := s.Paint(elements, true);
    assert LineSelected(painted[1]) && LineSelected(painted[2]) && LineSelected(painted[3]);
    assert painted[0] == plain && painted[4] == plain;
  }
}
