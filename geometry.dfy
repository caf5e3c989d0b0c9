/** Points, sizes and rectangles of the layout, with exact real coordinates.
    A rectangle is standardised: its minimum edge is its origin and its maximum
    edge is origin plus size. */
module Geometry {

  datatype Point = Point(x: real, y: real)

  datatype Size = Size(width: real, height: real)

  datatype Rect = Rect(x: real, y: real, width: real, height: real) {
    function MinX(): real { x }
    function MaxX(): real { x + width }
    function MinY(): real { y }
    function MaxY(): real { y + height }
  }

  /** The rectangle at the origin with zero size. */
  const Zero: Rect := Rect(0.0, 0.0, 0.0, 0.0)

  function Min(a: real, b: real): (m: real)
    ensures m <= a && m <= b && (m == a || m == b)
  {
    if a <= b then a else b
  }

  function Max(a: real, b: real): (m: real)
    ensures m >= a && m >= b && (m == a || m == b)
  {
    if a >= b then a else b
  }

  /** The horizontal spans of a and b overlap in more than a point. */
  predicate XOverlap(a: Rect, b: Rect) {
    a.MinX() < b.MaxX() && b.MinX() < a.MaxX()
  }

  /** The vertical spans of a and b overlap in more than a point. */
  predicate YOverlap(a: Rect, b: Rect) {
    a.MinY() < b.MaxY() && b.MinY() < a.MaxY()
  }

  /** Rectangle intersection: open overlap on both axes, so rectangles that
      only share an edge do not intersect. */
  predicate Intersects(a: Rect, b: Rect) {
    XOverlap(a, b) && YOverlap(a, b)
  }

  /** The smallest rectangle that contains both a and b. */
  function Union(a: Rect, b: Rect): (u: Rect)
    ensures u.MinX() <= a.MinX() && u.MinX() <= b.MinX()
    ensures u.MinY() <= a.MinY() && u.MinY() <= b.MinY()
    ensures u.MaxX() >= a.MaxX() && u.MaxX() >= b.MaxX()
    ensures u.MaxY() >= a.MaxY() && u.MaxY() >= b.MaxY()
  {
    var minX := Min(a.MinX(), b.MinX());
    var minY := Min(a.MinY(), b.MinY());
    var maxX := Max(a.MaxX(), b.MaxX());
    var maxY := Max(a.MaxY(), b.MaxY());
    Rect(minX, minY, maxX - minX, maxY - minY)
  }

  /** The union is the smallest rectangle containing both: any rectangle
      that contains a and b contains their union. */
  lemma UnionIsSmallest(a: Rect, b: Rect, c: Rect)
    requires c.MinX() <= a.MinX() && c.MinX() <= b.MinX()
    requires c.MinY() <= a.MinY() && c.MinY() <= b.MinY()
    requires c.MaxX() >= a.MaxX() && c.MaxX() >= b.MaxX()
    requires c.MaxY() >= a.MaxY() && c.MaxY() >= b.MaxY()
    ensures c.MinX() <= Union(a, b).MinX() && c.MinY() <= Union(a, b).MinY()
    ensures c.MaxX() >= Union(a, b).MaxX() && c.MaxY() >= Union(a, b).MaxY()
  {
  }

  /** The zero rectangle joined, in order, with every rectangle of rects: the
      value the content bounds accumulate row by row. */
  function Hull(rects: seq<Rect>): Rect
  {
    if |rects| == 0 then Zero
    else Union(Hull(rects[..|rects| - 1]), rects[|rects| - 1])
  }

  /** The hull contains the origin. */
  lemma {:induction false} HullContainsOrigin(rects: seq<Rect>)
    ensures Hull(rects).MinX() <= 0.0 && Hull(rects).MinY() <= 0.0
    ensures Hull(rects).MaxX() >= 0.0 && Hull(rects).MaxY() >= 0.0
  {
    if |rects| > 0 {
      HullContainsOrigin(rects[..|rects| - 1]);
    }
  }

  /** The hull contains every rectangle it was built from. */
  lemma {:induction false} HullContainsRect(rects: seq<Rect>, i: nat)
    requires i < |rects|
    ensures Hull(rects).MinX() <= rects[i].MinX() && Hull(rects).MaxX() >= rects[i].MaxX()
    ensures Hull(rects).MinY() <= rects[i].MinY() && Hull(rects).MaxY() >= rects[i].MaxY()
  {
    var front := rects[..|rects| - 1];
    if i < |front| {
      HullContainsRect(front, i);
      assert front[i] == rects[i];
    }
  }

  /** The hull contains every rectangle it was built from, all at once. */
  lemma HullContainsAll(rects: seq<Rect>)
    ensures forall i :: 0 <= i < |rects| ==>
      Hull(rects).MinX() <= rects[i].MinX() && Hull(rects).MaxX() >= rects[i].MaxX() &&
      Hull(rects).MinY() <= rects[i].MinY() && Hull(rects).MaxY() >= rects[i].MaxY()
  {
    forall i | 0 <= i < |rects|
      ensures Hull(rects).MinX() <= rects[i].MinX() && Hull(rects).MaxX() >= rects[i].MaxX()
      ensures Hull(rects).MinY() <= rects[i].MinY() && Hull(rects).MaxY() >= rects[i].MaxY()
    {
      HullContainsRect(rects, i);
    }
  }

  /** Each row's bottom edge is the next row's top edge. */
  ghost predicate RowsContiguous(rects: seq<Rect>) {
    forall i, j :: 0 <= i < j < |rects| && j == i + 1 ==> rects[i].MaxY() == rects[j].MinY()
  }

  /** Every row has a non-negative height and lies entirely above every later row. */
  predicate Stacked(rects: seq<Rect>) {
    (forall i :: 0 <= i < |rects| ==> rects[i].height >= 0.0) &&
    (forall i, j :: 0 <= i < j < |rects| ==> rects[i].MaxY() <= rects[j].MinY())
  }

  /** Rows that are contiguous and of non-negative height are sorted by
      vertical position without overlap. */
  lemma {:induction false} ContiguousRowsAreStacked(rects: seq<Rect>)
    requires RowsContiguous(rects)
    requires forall i :: 0 <= i < |rects| ==> rects[i].height >= 0.0
    ensures Stacked(rects)
  {
    if |rects| > 1 {
      var front := rects[..|rects| - 1];
      assert RowsContiguous(front) by {
        forall i, j | 0 <= i < j < |front| && j == i + 1 ensures front[i].MaxY() == front[j].MinY() {
          assert front[i] == rects[i] && front[j] == rects[j];
        }
      }
      ContiguousRowsAreStacked(front);
      var last := |rects| - 1;
      forall i, j | 0 <= i < j < |rects| ensures rects[i].MaxY() <= rects[j].MinY() {
        if j < last {
          assert front[i] == rects[i] && front[j] == rects[j];
        } else if i < last - 1 {
          assert front[i] == rects[i] && front[last - 1] == rects[last - 1];
          assert rects[i].MaxY() <= rects[last - 1].MinY();
        }
      }
    }
  }
}
