/** Where the tooltip goes: beside the pointer, flipped away from the left
    edge and from the bottom of the game container, never above or left of
    the padding. */
module TooltipPosition {
  import opened Common

  /** Gap between pointer and tooltip, and the least left/top coordinate. */
  const Padding: int := 5

  /** Strip at the bottom of the game container the tooltip keeps clear of. */
  const BottomMargin: int := 20

  /** The tooltip's left and top style coordinates. */
  datatype Placement = Placement(left: int, top: int)

  /** Places a `width` by `height` tooltip for the pointer at (`x`, `y`) in a
      game container `containerHeight` high. The container's width is not an
      input: nothing keeps the tooltip off the right edge. */
  function Resolve(x: int, y: int, width: int, height: int, containerHeight: int): (p: Placement)
    ensures p.left >= Padding && p.top >= Padding
    // room on the left: the tooltip's right edge sits `Padding` right of the pointer
    ensures width <= x ==> p.left + width == x + Padding
    // no room on the left: the tooltip starts `Padding` right of the pointer
    ensures width > x ==> p.left == Max(x + Padding, Padding)
    // room below: the tooltip starts `Padding` below the pointer
    ensures y + Padding + height <= containerHeight - BottomMargin ==> p.top == Max(y + Padding, Padding)
    // no room below: the tooltip ends `Padding` above the pointer, unless that is too high
    ensures y + Padding + height > containerHeight - BottomMargin ==>
              (p.top + height == y - Padding || (p.top == Padding && y - height - Padding < Padding))
  {
    var left := x - width + Padding;
    var top := y + Padding;
    var viewportHeight := containerHeight - BottomMargin;
    var left' := if left < Padding then x + Padding else left;
    var top' := if top + height > viewportHeight then y - height - Padding else top;
    Placement(Max(left', Padding), Max(top', Padding))
  }

  /** A tooltip no taller than the container allows, for a pointer above the
      bottom margin, stays between the top padding and the bottom margin. */
  lemma FitsVertically(x: int, y: int, width: int, height: int, containerHeight: int)
    requires 0 <= height && height + Padding <= containerHeight - BottomMargin
    requires 0 <= y <= containerHeight - BottomMargin
    ensures var p := Resolve(x, y, width, height, containerHeight);
            Padding <= p.top && p.top + height <= containerHeight - BottomMargin
  {
  }

  /** A pointer near the left edge gets its tooltip on the right, and then a
      tooltip narrower than the container crosses its right edge whenever
      pointer, gap and width together exceed the container's width. */
  lemma RightEdgeUnchecked(x: int, y: int, width: int, height: int, containerHeight: int, containerWidth: int)
    requires 0 <= x < width < containerWidth
    requires x + Padding + width > containerWidth
    ensures var p := Resolve(x, y, width, height, containerHeight);
            p.left == x + Padding && p.left + width > containerWidth
  {
  }

  /** A worked case: room on the left and below. */
  lemma ExamplePlacement()
    ensures Resolve(1000, 50, 200, 80, 768) == Placement(805, 55)
  {
  }
}
