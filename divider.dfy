/**
 * The vertical divider between the table and the chart: dragging it moves
 * the left pane's width between a minimum and whatever room the right
 * pane's minimum leaves.
 */
module GanttDivider {
  import opened GanttUtils

  /** The width the left pane starts with (its flex basis). */
  const INITIAL_LEFT_WIDTH: int := 420

  /**
   * The widest the left pane may become: the container less the right
   * pane's minimum and the divider.
   */
  function MaxLeftWidth(containerWidth: int, dividerWidth: int, minRight: int): int {
    containerWidth - minRight - dividerWidth
  }

  /**
   * The left width after the pointer has moved `dx` since the drag began:
   * first raised to `minLeft`, then capped at the room left over. The cap
   * comes last, so it wins when the container is too narrow for both
   * minimums.
   */
  function DraggedWidth(startLeftWidth: int, dx: int, minLeft: int, maxLeft: int): (w: int)
    ensures w <= maxLeft
    ensures w >= minLeft <==> maxLeft >= minLeft
    ensures minLeft <= startLeftWidth + dx <= maxLeft ==> w == startLeftWidth + dx
    ensures startLeftWidth + dx < minLeft ==> w == Min(minLeft, maxLeft)
    ensures startLeftWidth + dx > maxLeft ==> w == maxLeft
  {
    Min(Max(minLeft, startLeftWidth + dx), maxLeft)
  }

  /** The drag state `enableDividerDrag` closes over, and the left pane width it writes. */
  class DividerDrag {
    var dragging: bool
    var startX: int
    var startLeftWidth: int
    var leftWidth: int
    const minLeft: int
    const minRight: int

    /** `enableDividerDrag`: no drag in progress, nothing recorded yet. */
    constructor(minLeft: int, minRight: int, leftWidth: int)
      ensures this.minLeft == minLeft && this.minRight == minRight
      ensures this.leftWidth == leftWidth
      ensures !dragging && startX == 0 && startLeftWidth == 0
    {
      this.minLeft := minLeft;
      this.minRight := minRight;
      this.leftWidth := leftWidth;
      dragging := false;
      startX := 0;
      startLeftWidth := 0;
    }

    /** The divider's `mousedown`: a drag starts from `clientX` and the pane's measured width. */
    method MouseDown(clientX: int, paneWidth: int)
      modifies this
      ensures dragging && startX == clientX && startLeftWidth == paneWidth
      ensures unchanged(this`leftWidth)
    {
      dragging := true;
      startX := clientX;
      startLeftWidth := paneWidth;
    }

    /**
     * The window `mousemove`: while dragging, the pane takes the dragged
     * width for the pointer's travel since the drag began; otherwise
     * nothing changes.
     */
    method MouseMove(clientX: int, containerWidth: int, dividerWidth: int)
      modifies this
      ensures leftWidth == if dragging
                           then DraggedWidth(startLeftWidth, clientX - startX, minLeft,
                                             MaxLeftWidth(containerWidth, dividerWidth, minRight))
                           else old(leftWidth)
      ensures unchanged(this`dragging, this`startX, this`startLeftWidth)
    {
      if dragging {
        var maxLeft := MaxLeftWidth(containerWidth, dividerWidth, minRight);
        leftWidth := DraggedWidth(startLeftWidth, clientX - startX, minLeft, maxLeft);
      }
    }

    /** The window `mouseup`: the drag, if any, ends. */
    method MouseUp()
      modifies this
      ensures !dragging
      ensures unchanged(this`startX, this`startLeftWidth, this`leftWidth)
    {
      if dragging {
        dragging := false;
      }
    }
  }

  /** In a container too narrow for both minimums, the pane ends below its own minimum. */
  lemma NarrowContainerBeatsMinimum(startLeftWidth: int, dx: int, minLeft: int, containerWidth: int, dividerWidth: int, minRight: int)
    requires containerWidth - minRight - dividerWidth < minLeft
    ensures DraggedWidth(startLeftWidth, dx, minLeft, MaxLeftWidth(containerWidth, dividerWidth, minRight)) < minLeft
  {
  }
}
