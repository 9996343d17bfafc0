/**
 * The image resizer of the editor's image node: the `clamp` helper, the
 * bit flags naming the eight resize handles, the cursor chosen for a
 * handle, the pointer handlers that update the mutable positioning record,
 * and the click handler of the image.
 *
 * Coordinates and sizes are integers and the zoom level is 1. The height
 * of a corner resize, `width / ratio`, is floating-point and is supplied by
 * the caller; the `ratio` field is therefore not modelled.
 */
module ImageResizer {
  import opened Wrappers

  /**
   * `Math.min(Math.max(value, min), max)`: stays in range when the range is
   * not empty, keeps values already in range, and gives `max` otherwise.
   */
  function Clamp(value: int, min: int, max: int): (r: int)
    ensures min <= max ==> min <= r <= max
    ensures min <= value <= max ==> r == value
    ensures min > max ==> r == max
    ensures r <= max
  {
    var atLeastMin := if value > min then value else min;
    if atLeastMin < max then atLeastMin else max
  }

  lemma ClampMonotone(v1: int, v2: int, min: int, max: int)
    requires v1 <= v2
    ensures Clamp(v1, min, max) <= Clamp(v2, min, max)
  {
  }

  // Direction flags

  const East: bv4 := 1
  const South: bv4 := 2
  const West: bv4 := 4
  const North: bv4 := 8

  const MinWidth := 100
  const MinHeight := 100

  /** The handles in the order they are drawn: N, NE, E, SE, S, SW, W, NW. */
  const Handles: seq<bv4> := [North, North | East, East, South | East, South, South | West, West, North | West]

  predicate IsSingleBit(d: bv4) {
    d == 1 || d == 2 || d == 4 || d == 8
  }

  /** The four flags are distinct single bits. */
  lemma DirectionFlags()
    ensures IsSingleBit(East) && IsSingleBit(South) && IsSingleBit(West) && IsSingleBit(North)
    ensures East & South == 0 && East & West == 0 && East & North == 0
    ensures South & West == 0 && South & North == 0 && West & North == 0
  {
  }

  predicate Has(d: bv4, flag: bv4) {
    d & flag != 0
  }

  /** Every handle is a single flag or one of north/south together with one of east/west. */
  lemma HandleShapes()
    ensures |Handles| == 8
    ensures forall k :: 0 <= k < 8 ==>
      IsSingleBit(Handles[k])
      || ((Has(Handles[k], North) != Has(Handles[k], South)) && (Has(Handles[k], East) != Has(Handles[k], West)))
  {
  }

  datatype Cursor = EwResize | NsResize | NwseResize | NeswResize

  /** The cursor `setStartCursor` sets for a direction. */
  function CursorFor(d: bv4): Cursor {
    if d == East || d == West then EwResize
    else if d == North || d == South then NsResize
    else if (Has(d, North) && Has(d, West)) || (Has(d, South) && Has(d, East)) then NwseResize
    else NeswResize
  }

  /** The cursor of each handle while resizing is the one its own style class shows. */
  lemma CursorsMatchHandles()
    ensures [CursorFor(Handles[0]), CursorFor(Handles[1]), CursorFor(Handles[2]), CursorFor(Handles[3]),
             CursorFor(Handles[4]), CursorFor(Handles[5]), CursorFor(Handles[6]), CursorFor(Handles[7])]
            == [NsResize, NeswResize, EwResize, NwseResize, NsResize, NeswResize, EwResize, NwseResize]
  {
  }

  /** Size of the editor's root element, when there is one. */
  datatype Rect = Rect(width: int, height: int)

  /** `maxWidth` if given and non-zero, else the root width less its padding, else 100. */
  function MaxWidthContainer(maxWidth: Option<int>, root: Option<Rect>): int {
    if maxWidth.Some? && maxWidth.value != 0 then maxWidth.value
    else if root.Some? then root.value.width - 20
    else 100
  }

  function MaxHeightContainer(root: Option<Rect>): int {
    if root.Some? then root.value.height - 20 else 100
  }

  /** Width after a horizontal move: the start width grown by the drag outward, clamped. */
  function DraggedWidth(startWidth: int, startX: int, x: int, d: bv4, maxWidth: int): int {
    var diff := startX - x;
    Clamp(startWidth + (if Has(d, East) then -diff else diff), MinWidth, maxWidth)
  }

  /** Height after a vertical move: the start height grown by the drag outward, clamped. */
  function DraggedHeight(startHeight: int, startY: int, y: int, d: bv4, maxHeight: int): int {
    var diff := startY - y;
    Clamp(startHeight + (if Has(d, South) then -diff else diff), MinHeight, maxHeight)
  }

  /**
   * Dragging an east handle to the right, or a west handle to the left, never
   * makes the image narrower; the width stays within [100, maxWidth].
   */
  lemma DraggedWidthMonotone(startWidth: int, startX: int, x1: int, x2: int, d: bv4, maxWidth: int)
    requires x1 <= x2
    requires 100 <= maxWidth
    ensures Has(d, East) ==> DraggedWidth(startWidth, startX, x1, d, maxWidth) <= DraggedWidth(startWidth, startX, x2, d, maxWidth)
    ensures !Has(d, East) ==> DraggedWidth(startWidth, startX, x2, d, maxWidth) <= DraggedWidth(startWidth, startX, x1, d, maxWidth)
    ensures MinWidth <= DraggedWidth(startWidth, startX, x1, d, maxWidth) <= maxWidth
  {
    if Has(d, East) {
      ClampMonotone(startWidth + (x1 - startX), startWidth + (x2 - startX), MinWidth, maxWidth);
    } else {
      ClampMonotone(startWidth + (startX - x2), startWidth + (startX - x1), MinWidth, maxWidth);
    }
  }

  /** Dragging a south handle down, or a north handle up, never makes the image shorter. */
  lemma DraggedHeightMonotone(startHeight: int, startY: int, y1: int, y2: int, d: bv4, maxHeight: int)
    requires y1 <= y2
    requires 100 <= maxHeight
    ensures Has(d, South) ==> DraggedHeight(startHeight, startY, y1, d, maxHeight) <= DraggedHeight(startHeight, startY, y2, d, maxHeight)
    ensures !Has(d, South) ==> DraggedHeight(startHeight, startY, y2, d, maxHeight) <= DraggedHeight(startHeight, startY, y1, d, maxHeight)
    ensures MinHeight <= DraggedHeight(startHeight, startY, y1, d, maxHeight) <= maxHeight
  {
    if Has(d, South) {
      ClampMonotone(startHeight + (y1 - startY), startHeight + (y2 - startY), MinHeight, maxHeight);
    } else {
      ClampMonotone(startHeight + (startY - y2), startHeight + (startY - y1), MinHeight, maxHeight);
    }
  }

  /** A pointer that has not moved leaves a start size that is in range unchanged. */
  lemma NoDragKeepsSize(startWidth: int, startX: int, d: bv4, maxWidth: int)
    requires MinWidth <= startWidth <= maxWidth
    ensures DraggedWidth(startWidth, startX, startX, d, maxWidth) == startWidth
  {
  }

  /** The record `positioningRef.current` and the limits computed when the resizer renders. */
  class Resizer {
    var currentHeight: int
    var currentWidth: int
    var direction: bv4
    var isResizing: bool
    var startHeight: int
    var startWidth: int
    var startX: int
    var startY: int

    const maxWidthContainer: int
    const maxHeightContainer: int

    /** Outside a resize every field but `direction` is zero. */
    ghost predicate Valid()
      reads this
    {
      !isResizing ==>
        currentHeight == 0 && currentWidth == 0 && startHeight == 0 && startWidth == 0 && startX == 0 && startY == 0
    }

    constructor (maxWidth: Option<int>, root: Option<Rect>)
      ensures Valid() && !isResizing && direction == 0
      ensures maxWidthContainer == MaxWidthContainer(maxWidth, root)
      ensures maxHeightContainer == MaxHeightContainer(root)
    {
      currentHeight, currentWidth, direction, isResizing := 0, 0, 0, false;
      startHeight, startWidth, startX, startY := 0, 0, 0, 0;
      maxWidthContainer := MaxWidthContainer(maxWidth, root);
      maxHeightContainer := MaxHeightContainer(root);
    }

    /**
     * `handlePointerDown(event, direction)`: nothing unless the editor is
     * editable and the image and its controls are mounted; otherwise records
     * the image's size and the pointer, starts resizing and returns the
     * cursor it sets.
     */
    method PointerDown(editable: bool, mounted: bool, width: int, height: int, x: int, y: int, d: bv4)
      returns (cursor: Option<Cursor>)
      requires Valid()
      modifies this
      ensures Valid()
      ensures !(editable && mounted) ==>
        cursor == None && isResizing == old(isResizing) && direction == old(direction)
        && currentWidth == old(currentWidth) && currentHeight == old(currentHeight)
        && startWidth == old(startWidth) && startHeight == old(startHeight) && startX == old(startX) && startY == old(startY)
      ensures editable && mounted ==>
        cursor == Some(CursorFor(d)) && isResizing && direction == d
        && startWidth == width && startHeight == height && currentWidth == width && currentHeight == height
        && startX == x && startY == y
    {
      if !editable || !mounted {
        return None;
      }
      startWidth := width;
      startHeight := height;
      currentWidth := width;
      currentHeight := height;
      startX := x;
      startY := y;
      isResizing := true;
      direction := d;
      cursor := Some(CursorFor(d));
    }

    /**
     * `handlePointerMove(event)`: while resizing, a corner handle sets the
     * width and the height `cornerHeight` gives for it, a north or south
     * handle the height, and an east or west handle the width.
     */
    method PointerMove(mounted: bool, x: int, y: int, cornerHeight: int -> int)
      requires Valid()
      modifies this
      ensures Valid()
      ensures isResizing == old(isResizing) && direction == old(direction)
      ensures startWidth == old(startWidth) && startHeight == old(startHeight) && startX == old(startX) && startY == old(startY)
      ensures !(mounted && old(isResizing)) ==> currentWidth == old(currentWidth) && currentHeight == old(currentHeight)
      ensures mounted && old(isResizing) ==>
        var horizontal := Has(direction, East | West);
        var vertical := Has(direction, South | North);
        var w := DraggedWidth(startWidth, startX, x, direction, maxWidthContainer);
        if horizontal && vertical then currentWidth == w && currentHeight == cornerHeight(w)
        else if vertical then
          currentWidth == old(currentWidth)
          && currentHeight == DraggedHeight(startHeight, startY, y, direction, maxHeightContainer)
        else currentWidth == w && currentHeight == old(currentHeight)
    {
      var horizontal := direction & (East | West) != 0;
      var vertical := direction & (South | North) != 0;
      if mounted && isResizing {
        if horizontal && vertical {
          var diff := startX - x;
          diff := if direction & East != 0 then -diff else diff;
          var width := Clamp(startWidth + diff, MinWidth, maxWidthContainer);
          currentHeight := cornerHeight(width);
          currentWidth := width;
        } else if vertical {
          var diff := startY - y;
          diff := if direction & South != 0 then -diff else diff;
          currentHeight := Clamp(startHeight + diff, MinHeight, maxHeightContainer);
        } else {
          var diff := startX - x;
          diff := if direction & East != 0 then -diff else diff;
          currentWidth := Clamp(startWidth + diff, MinWidth, maxWidthContainer);
        }
      }
    }

    /**
     * `handlePointerUp()`: while resizing, resets the record and returns the
     * size it reports to `onResizeEnd`.
     */
    method PointerUp(mounted: bool) returns (reported: Option<Rect>)
      requires Valid()
      modifies this
      ensures Valid()
      ensures direction == old(direction)
      ensures mounted && old(isResizing) ==>
        reported == Some(Rect(old(currentWidth), old(currentHeight))) && !isResizing
        && currentWidth == 0 && currentHeight == 0 && startWidth == 0 && startHeight == 0 && startX == 0 && startY == 0
      ensures !(mounted && old(isResizing)) ==>
        reported == None && isResizing == old(isResizing)
        && currentWidth == old(currentWidth) && currentHeight == old(currentHeight)
        && startWidth == old(startWidth) && startHeight == old(startHeight) && startX == old(startX) && startY == old(startY)
    {
      if !mounted || !isResizing {
        return None;
      }
      var width, height := currentWidth, currentHeight;
      startWidth := 0;
      startHeight := 0;
      startX := 0;
      startY := 0;
      currentWidth := 0;
      currentHeight := 0;
      isResizing := false;
      reported := Some(Rect(width, height));
    }
  }

  /** An east-only drag from pointer-down to pointer-up reports the dragged width and the original height. */
  method EastDrag(r: Resizer, width: int, height: int, x0: int, y0: int, x1: int, y1: int) returns (reported: Option<Rect>)
    requires r.Valid()
    modifies r
    ensures reported == Some(Rect(DraggedWidth(width, x0, x1, East, r.maxWidthContainer), height))
    ensures r.Valid() && !r.isResizing
  {
    var _ := r.PointerDown(true, true, width, height, x0, y0, East);
    r.PointerMove(true, x1, y1, w => w);
    reported := r.PointerUp(true);
  }

  /** What a click on the image does to its selection. */
  datatype ClickEffect = NoEffect | SetSelected(selected: bool) | SelectOnly

  /**
   * `onClick(event)`: consumed while resizing; on the image a shift-click
   * toggles the selection and a plain click selects only the image;
   * elsewhere it is not handled.
   */
  function OnClick(isResizing: bool, onImage: bool, shiftKey: bool, isSelected: bool): (r: (bool, ClickEffect))
    ensures r.0 <==> isResizing || onImage
    ensures isResizing || !onImage ==> r.1 == NoEffect
  {
    if isResizing then (true, NoEffect)
    else if onImage then (true, if shiftKey then SetSelected(!isSelected) else SelectOnly)
    else (false, NoEffect)
  }

  /** The selection state a click leaves the image in. */
  function SelectedAfter(isSelected: bool, effect: ClickEffect): bool {
    match effect
    case NoEffect => isSelected
    case SetSelected(b) => b
    case SelectOnly => true
  }

  /** A shift-click flips the selection, so two restore it; a plain click always selects. */
  lemma ClickSelection(isSelected: bool)
    ensures SelectedAfter(isSelected, OnClick(false, true, true, isSelected).1) == !isSelected
    ensures var once := SelectedAfter(isSelected, OnClick(false, true, true, isSelected).1);
      SelectedAfter(once, OnClick(false, true, true, once).1) == isSelected
    ensures SelectedAfter(isSelected, OnClick(false, true, false, isSelected).1)
  {
  }
}
