/**
  Where the popup goes (`positionPopup`): 15 pixels right of and below the
  pointer, flipped to the other side of the pointer on an axis where it would
  come closer than 20 pixels to the viewport's edge, and never closer than 10
  pixels to the top or left edge.
 */
module Placement {

  /** Distance between the pointer and the popup's near corner. */
  const Gap := 15
  /** Room the popup must leave to the viewport's right and bottom edges. */
  const EdgeMargin := 20
  /** Smallest left and top coordinate. */
  const MinCoord := 10
  /** Size assumed for a popup that measures 0 (not yet laid out). */
  const DefaultWidth := 300
  const DefaultHeight := 180

  datatype Position = Position(left: int, top: int)

  function Max(a: int, b: int): int {
    if a < b then b else a
  }

  /** `offsetWidth || 300`: a measured size of 0 falls back to the default. */
  function SizeOr(measured: nat, fallback: nat): nat {
    if measured == 0 then fallback else measured
  }

  /** The popup, placed after the pointer, would reach into the edge margin. */
  predicate Overflows(p: int, size: nat, extent: int) {
    p + Gap + size > extent - EdgeMargin
  }

  /** One coordinate of the popup for pointer coordinate `p`, popup size `size`
      and viewport extent `extent` along the same axis. The coordinate is at
      least MinCoord; the popup starts after the pointer, or ends before it, or
      sits against the MinCoord clamp, so it never covers the pointer otherwise;
      it lies after the pointer exactly when it fits there. */
  function Axis(p: int, size: nat, extent: int): (c: int)
    ensures c >= MinCoord
    ensures c > p || c + size < p || c == MinCoord
    ensures !Overflows(p, size, extent) ==> c >= p + Gap
    ensures Overflows(p, size, extent) ==> c + size == p - Gap || c == MinCoord
  {
    var near := p + Gap;
    Max(MinCoord, if near + size > extent - EdgeMargin then p - size - Gap else near)
  }

  /** `positionPopup`: the popup's left and top for a pointer at (x, y), a
      measured size of offsetWidth x offsetHeight and a viewport of
      innerWidth x innerHeight. Both coordinates are at least MinCoord. */
  function Place(x: int, y: int, offsetWidth: nat, offsetHeight: nat,
                 innerWidth: int, innerHeight: int): (r: Position)
    ensures r.left >= MinCoord && r.top >= MinCoord
    ensures r.left > x || r.left + SizeOr(offsetWidth, DefaultWidth) < x || r.left == MinCoord
    ensures r.top > y || r.top + SizeOr(offsetHeight, DefaultHeight) < y || r.top == MinCoord
  {
    Position(Axis(x, SizeOr(offsetWidth, DefaultWidth), innerWidth),
             Axis(y, SizeOr(offsetHeight, DefaultHeight), innerHeight))
  }

  /** A popup measuring 0 is placed as the default 300 x 180 popup. */
  lemma UnmeasuredUsesDefault(x: int, y: int, innerWidth: int, innerHeight: int)
    ensures Place(x, y, 0, 0, innerWidth, innerHeight)
         == Place(x, y, DefaultWidth, DefaultHeight, innerWidth, innerHeight)
  {
  }

  /** Without overflow the popup sits Gap after the pointer (unless clamped),
      and then its far edge keeps EdgeMargin from the viewport's edge. */
  lemma AxisFits(p: int, size: nat, extent: int)
    requires !Overflows(p, size, extent)
    ensures Axis(p, size, extent) == Max(MinCoord, p + Gap)
    ensures p + Gap >= MinCoord ==> Axis(p, size, extent) + size <= extent - EdgeMargin
  {
  }

  /** With overflow the popup is flipped to end Gap before the pointer (unless clamped). */
  lemma AxisFlips(p: int, size: nat, extent: int)
    requires Overflows(p, size, extent)
    ensures Axis(p, size, extent) == Max(MinCoord, p - size - Gap)
    ensures p - size - Gap >= MinCoord ==> Axis(p, size, extent) + size + Gap == p
  {
  }

  /** The flip happens exactly on overflow: unclamped, the popup lies after the
      pointer if and only if it fits there. */
  lemma FlipIff(p: int, size: nat, extent: int)
    requires p - size - Gap >= MinCoord
    ensures Axis(p, size, extent) > p <==> !Overflows(p, size, extent)
  {
  }

  /** A 300 x 180 popup at (950, 50) in a 1000 x 800 viewport: it flips left
      to 950 - 300 - 15 = 635 and stays below the pointer at 65. */
  lemma ExampleNearRightEdge()
    ensures Place(950, 50, 300, 180, 1000, 800) == Position(635, 65)
  {
  }
}
