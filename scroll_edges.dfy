/**
 * Scroll-edge detection: from the measured table and viewport sizes and the scroll
 * offsets, whether the viewport shows the top, bottom, left and right edge of the table.
 * The table uses the four flags to hide the shadow on each edge that is reached.
 *
 * Sizes and offsets are exact reals; `Math.round` is rounding half up.
 */
module ScrollEdges {

  /** `Math.round`: the integer nearest to `x`, halves rounded up. */
  function Round(x: real): (n: int)
    ensures n as real - 0.5 <= x < n as real + 0.5
  {
    (x + 0.5).Floor
  }

  /** The two flags of one axis: the start edge (top / left) and the end edge (bottom / right). */
  datatype AxisEdges = AxisEdges(atStart: bool, atEnd: bool)

  /**
   * The vertical flags: both edges count as reached while fetching or when the table is
   * no taller than the viewport; otherwise the top is reached at offset 0 and the bottom
   * when the rounded remaining height equals the rounded viewport height.
   */
  function VerticalEdges(fetching: bool, tableHeight: real, viewportHeight: real, scrollTop: real): AxisEdges
  {
    if fetching || tableHeight <= viewportHeight then AxisEdges(true, true)
    else AxisEdges(scrollTop == 0.0, Round(tableHeight - scrollTop) == Round(viewportHeight))
  }

  /**
   * The horizontal flags: as the vertical ones, except that the short-cut applies only
   * when the table is exactly as wide as the viewport.
   */
  function HorizontalEdges(fetching: bool, tableWidth: real, viewportWidth: real, scrollLeft: real): AxisEdges
  {
    if fetching || tableWidth == viewportWidth then AxisEdges(true, true)
    else AxisEdges(scrollLeft == 0.0, Round(tableWidth - scrollLeft) == Round(viewportWidth))
  }

  /** The end-edge test of one axis: reached when exactly at the end, never a pixel or more away. */
  lemma EndEdgeTolerance(content: real, offset: real, viewport: real)
    ensures content - offset == viewport ==> Round(content - offset) == Round(viewport)
    ensures content - offset + 1.0 <= viewport || viewport + 1.0 <= content - offset ==>
              Round(content - offset) != Round(viewport)
  {
  }

  /**
   * When not fetching and the table is at least one pixel taller than the viewport,
   * the top and the bottom are never both reached: one shadow is always shown.
   */
  lemma VerticalOverflowShowsAShadow(tableHeight: real, viewportHeight: real, scrollTop: real)
    requires viewportHeight + 1.0 <= tableHeight
    ensures !(VerticalEdges(false, tableHeight, viewportHeight, scrollTop).atStart &&
              VerticalEdges(false, tableHeight, viewportHeight, scrollTop).atEnd)
  {
  }

  /**
   * Sub-pixel overflow: a 500.4 px table in a 500.1 px viewport, at offset 0, reads as
   * showing both its top and its bottom, because both heights round to 500.
   */
  lemma SubPixelOverflowReadsAsFitting()
    ensures VerticalEdges(false, 500.4, 500.1, 0.0) == AxisEdges(true, true)
  {
  }

  /**
   * A table at least a pixel narrower than its viewport is not short-cut horizontally:
   * at offset 0 the left edge reads as reached and the right edge as not reached, while
   * the same sizes on the vertical axis read as both reached.
   */
  lemma NarrowTableReadsRightEdgeUnreached(tableWidth: real, viewportWidth: real)
    requires tableWidth + 1.0 <= viewportWidth
    ensures HorizontalEdges(false, tableWidth, viewportWidth, 0.0) == AxisEdges(true, false)
    ensures VerticalEdges(false, tableWidth, viewportWidth, 0.0) == AxisEdges(true, true)
  {
  }
}
