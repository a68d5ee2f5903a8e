/**
 * The candidate list the corner detector fills: the pixel coordinates it has added so far, in
 * order, and a capacity that the detector grows before the list overflows. Only the operations
 * the detector uses are modelled.
 */
module QueueCorners {

  /** A pixel coordinate. */
  datatype Point = Point(x: int, y: int)

  class QueueCorner {
    /** The corners added since the last reset, oldest first. */
    var points: seq<Point>
    /** The number of corners the queue can hold. */
    var maxSize: nat

    /** The queue never holds more than its capacity. */
    predicate Valid()
      reads this
    {
      |points| <= maxSize
    }

    /** An empty queue of the given capacity. */
    constructor(maxSize: nat)
      ensures Valid()
      ensures points == [] && this.maxSize == maxSize
    {
      points := [];
      this.maxSize := maxSize;
    }

    /** Whether another corner would exceed the capacity. */
    predicate IsFull()
      reads this
    {
      |points| == maxSize
    }

    function GetMaxSize(): nat
      reads this
    {
      maxSize
    }

    /** Empties the queue; the capacity is kept. */
    method Reset()
      modifies this
      ensures Valid()
      ensures points == [] && maxSize == old(maxSize)
    {
      points := [];
    }

    /** Changes the capacity to n, keeping every corner already added, in order. */
    method Resize(n: nat)
      requires Valid() && |points| <= n
      modifies this
      ensures Valid()
      ensures points == old(points) && maxSize == n
    {
      maxSize := n;
    }

    /** Appends the corner (x, y). */
    method Add(x: int, y: int)
      requires Valid() && !IsFull()
      modifies this
      ensures Valid()
      ensures points == old(points) + [Point(x, y)] && maxSize == old(maxSize)
    {
      points := points + [Point(x, y)];
    }
  }
}
