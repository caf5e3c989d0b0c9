/** What a query does to the items of the rows it visits: the sticky
    pinning of items the visible area has scrolled into, the reset of every
    other item to its as-built frame, and the items it returns. Also the
    frame of the time bar. */
module Pinning {
  import opened Geometry
  import opened LayoutBuild

  /** A stored frame tracks its as-built frame: same top edge, height and
      right edge, and a left edge no further left than the as-built one. */
  predicate FrameTracks(frame: Rect, orig: Rect) {
    frame.y == orig.y && frame.height == orig.height &&
    frame.MaxX() == orig.MaxX() && orig.MinX() <= frame.MinX()
  }

  /** An item's frame clipped at the horizontal scroll offset: the left edge
      moves right to scrollX if that is further right, the right edge stays. */
  function Pinned(frame: Rect, orig: Rect, scrollX: real): Rect {
    var subAmount := Max(orig.MinX(), scrollX);
    Rect(subAmount, frame.MinY(), orig.MaxX() - subAmount, frame.height)
  }

  /** The frame an item of a visited row gets in a query for rect, while the
      collection view shows bounds (scrolled horizontally to bounds.x). It is
      pinned when its stored frame meets both, and its as-built frame
      otherwise. */
  function NewFrame(frame: Rect, orig: Rect, rect: Rect, bounds: Rect): Rect {
    if Intersects(frame, rect) && Intersects(bounds, frame) then Pinned(frame, orig, bounds.x) else orig
  }

  /** A pinned frame keeps the as-built right edge and starts no further left
      than the as-built frame or the scroll offset. */
  lemma PinnedClips(frame: Rect, orig: Rect, scrollX: real)
    ensures var p := Pinned(frame, orig, scrollX);
      p.MinX() >= orig.MinX() && p.MinX() >= scrollX && p.MaxX() == orig.MaxX()
      && (p.MinX() == orig.MinX() || p.MinX() == scrollX)
  {
  }

  /** What a query does to one stored frame: a tracking frame still tracks;
      a frame that does not meet both rect and the bounds is reset to the
      as-built frame; and a tracking frame that moves is clipped exactly at
      the scroll offset, which lies strictly inside the as-built frame. */
  lemma NewFrameFacts(frame: Rect, orig: Rect, rect: Rect, bounds: Rect)
    ensures var r := NewFrame(frame, orig, rect, bounds);
      && (FrameTracks(frame, orig) ==> FrameTracks(r, orig))
      && (!(Intersects(frame, rect) && Intersects(bounds, frame)) ==> r == orig)
      && (FrameTracks(frame, orig) && r != orig ==>
            orig.MinX() < bounds.MinX() < orig.MaxX() && r.MinX() == bounds.MinX())
  {
    if Intersects(frame, rect) && Intersects(bounds, frame) {
      PinnedClips(frame, orig, bounds.x);
    }
  }

  /** The item a with its frame updated for the query. */
  function Requery(a: Attributes, origs: map<IndexPath, Rect>, rect: Rect, bounds: Rect): Attributes
    requires a.indexPath in origs
  {
    a.(frame := NewFrame(a.frame, origs[a.indexPath], rect, bounds))
  }

  /** Every item of every row has an as-built frame. */
  predicate Cached(items: seq<seq<Attributes>>, origs: map<IndexPath, Rect>) {
    forall k, j :: 0 <= k < |items| && 0 <= j < |items[k]| ==> items[k][j].indexPath in origs
  }

  /** Every item's stored frame tracks its as-built frame. */
  predicate Tracked(items: seq<seq<Attributes>>, origs: map<IndexPath, Rect>) {
    Cached(items, origs) &&
    forall k, j :: 0 <= k < |items| && 0 <= j < |items[k]| ==>
      FrameTracks(items[k][j].frame, origs[items[k][j].indexPath])
  }

  /** Two sets of rows hold the same items, frames aside. */
  predicate SameCells(a: seq<seq<Attributes>>, b: seq<seq<Attributes>>) {
    |a| == |b| &&
    (forall k :: 0 <= k < |a| ==> |a[k]| == |b[k]|) &&
    (forall k, j :: 0 <= k < |a| && 0 <= j < |a[k]| ==> a[k][j].(frame := b[k][j].frame) == b[k][j])
  }

  /** A visited row with every item's frame updated. */
  function RequeryRow(row: seq<Attributes>, origs: map<IndexPath, Rect>, rect: Rect, bounds: Rect): (r: seq<Attributes>)
    requires forall j :: 0 <= j < |row| ==> row[j].indexPath in origs
    ensures |r| == |row|
  {
    seq(|row|, j requires 0 <= j < |row| => Requery(row[j], origs, rect, bounds))
  }

  /** The rows after a query that visits rows lo .. hi - 1. */
  function RequeryRows(items: seq<seq<Attributes>>, origs: map<IndexPath, Rect>, rect: Rect, bounds: Rect, lo: nat, hi: nat): (r: seq<seq<Attributes>>)
    requires Cached(items, origs)
    ensures |r| == |items|
  {
    seq(|items|, k requires 0 <= k < |items| =>
      if lo <= k < hi then RequeryRow(items[k], origs, rect, bounds) else items[k])
  }

  /** The items a visited row contributes, among its first n: each item whose
      stored frame meets rect, in row order, with its updated frame. */
  function VisibleRow(row: seq<Attributes>, origs: map<IndexPath, Rect>, rect: Rect, bounds: Rect, n: nat): seq<Attributes>
    requires n <= |row|
    requires forall j :: 0 <= j < |row| ==> row[j].indexPath in origs
  {
    if n == 0 then []
    else
      VisibleRow(row, origs, rect, bounds, n - 1) +
      (if Intersects(row[n - 1].frame, rect) then [Requery(row[n - 1], origs, rect, bounds)] else [])
  }

  /** The items rows lo .. hi - 1 contribute, row after row. */
  function VisibleRows(items: seq<seq<Attributes>>, origs: map<IndexPath, Rect>, rect: Rect, bounds: Rect, lo: nat, hi: nat): seq<Attributes>
    requires lo <= hi <= |items|
    requires Cached(items, origs)
    decreases hi
  {
    if hi == lo then []
    else VisibleRows(items, origs, rect, bounds, lo, hi - 1) + VisibleRow(items[hi - 1], origs, rect, bounds, |items[hi - 1]|)
  }

  // ---------------------------------------------------------------------
  // What a query does to items

  /** A query changes frames only: it keeps every item, and every stored
      frame still tracks its as-built frame; rows it does not visit are left
      as they were. */
  lemma RequeryKeepsItems(items: seq<seq<Attributes>>, origs: map<IndexPath, Rect>, rect: Rect, bounds: Rect, lo: nat, hi: nat)
    requires Tracked(items, origs)
    ensures var r := RequeryRows(items, origs, rect, bounds, lo, hi);
      && SameCells(items, r)
      && Tracked(r, origs)
      && (forall k :: 0 <= k < |items| && !(lo <= k < hi) ==> r[k] == items[k])
  {
    var r: seq<seq<Attributes>> := RequeryRows(items, origs, rect, bounds, lo, hi);
    forall k: int, j: int | 0 <= k < |items| && 0 <= j < |items[k]|
      ensures r[k][j].indexPath == items[k][j].indexPath
      ensures items[k][j].(frame := r[k][j].frame) == r[k][j]
      ensures FrameTracks(r[k][j].frame, origs[items[k][j].indexPath])
    {
      if lo <= k < hi {
        assert r[k][j] == Requery(items[k][j], origs, rect, bounds);
      }
    }
  }

  /** The items a row contributes are exactly its items whose stored frame
      meets the query rectangle, each with its updated frame. */
  lemma {:induction false} VisibleRowMembers(row: seq<Attributes>, origs: map<IndexPath, Rect>, rect: Rect, bounds: Rect, n: nat, a: Attributes)
    requires n <= |row|
    requires forall j :: 0 <= j < |row| ==> row[j].indexPath in origs
    ensures a in VisibleRow(row, origs, rect, bounds, n) <==>
      exists j :: 0 <= j < n && Intersects(row[j].frame, rect) && a == Requery(row[j], origs, rect, bounds)
  {
    if n > 0 {
      VisibleRowMembers(row, origs, rect, bounds, n - 1, a);
      if a == Requery(row[n - 1], origs, rect, bounds) && Intersects(row[n - 1].frame, rect) {
        assert a in VisibleRow(row, origs, rect, bounds, n);
      }
    }
  }

  /** An item of a visited row whose stored frame misses the query
      rectangle gets its as-built frame back and is not returned. */
  lemma MissedItemIsReset(row: seq<Attributes>, origs: map<IndexPath, Rect>, rect: Rect, bounds: Rect, j: nat)
    requires forall i :: 0 <= i < |row| ==> row[i].indexPath in origs
    requires forall i1, i2 :: 0 <= i1 < i2 < |row| ==> row[i1].indexPath != row[i2].indexPath
    requires j < |row| && !Intersects(row[j].frame, rect)
    ensures RequeryRow(row, origs, rect, bounds)[j].frame == origs[row[j].indexPath]
    ensures RequeryRow(row, origs, rect, bounds)[j] !in VisibleRow(row, origs, rect, bounds, |row|)
  {
    var a := RequeryRow(row, origs, rect, bounds)[j];
    VisibleRowMembers(row, origs, rect, bounds, |row|, a);
    forall i | 0 <= i < |row| && Intersects(row[i].frame, rect)
      ensures a != Requery(row[i], origs, rect, bounds)
    {
      assert Requery(row[i], origs, rect, bounds).indexPath == row[i].indexPath;
    }
  }

  /** A cache that holds every item's own frame is tracked. */
  lemma AsBuiltIsTracked(items: seq<seq<Attributes>>, origs: map<IndexPath, Rect>)
    requires AsBuilt(items, origs)
    ensures Tracked(items, origs)
  {
  }

  /** Changing frames only keeps the rows in row-major order. */
  lemma SameCellsKeepRowMajor(a: seq<seq<Attributes>>, b: seq<seq<Attributes>>)
    requires SameCells(a, b) && RowMajor(a)
    ensures RowMajor(b)
  {
    forall k, j | 0 <= k < |b| && 0 <= j < |b[k]|
      ensures b[k][j].kind == Cell && b[k][j].zIndex == 0 &&
        b[k][j].indexPath == IndexPath(b[k][0].indexPath.section, j)
    {
      assert a[k][j].(frame := b[k][j].frame) == b[k][j];
      assert a[k][0].(frame := b[k][0].frame) == b[k][0];
    }
    forall k1, k2 | 0 <= k1 < k2 < |b|
      ensures b[k1][0].indexPath.section < b[k2][0].indexPath.section
    {
      assert a[k1][0].(frame := b[k1][0].frame) == b[k1][0];
      assert a[k2][0].(frame := b[k2][0].frame) == b[k2][0];
    }
  }

  /** Sticky pinning moves at most one item per row: in a row laid out left
      to right with widths that are not negative, two items cannot both be
      moved, since the scroll offset can be strictly inside only one of them. */
  lemma AtMostOnePinnedPerRow(row: seq<Size>, y: real, frames: seq<Rect>, rect: Rect, bounds: Rect, j1: nat, j2: nat)
    requires |frames| == |row|
    requires forall j :: 0 <= j < |row| ==> row[j].width >= 0.0
    requires forall j :: 0 <= j < |row| ==> FrameTracks(frames[j], CellFrame(row, j, y))
    requires j1 < j2 < |row|
    ensures NewFrame(frames[j1], CellFrame(row, j1, y), rect, bounds) == CellFrame(row, j1, y) ||
      NewFrame(frames[j2], CellFrame(row, j2, y), rect, bounds) == CellFrame(row, j2, y)
  {
    RowXMonotone(row, j1 + 1, j2);
  }

  /** With the collection view scrolled no further right than an item's
      as-built left edge, a query gives that item its as-built frame. */
  lemma NoPinningBeforeItem(frame: Rect, orig: Rect, rect: Rect, bounds: Rect)
    requires FrameTracks(frame, orig)
    requires bounds.MinX() <= orig.MinX()
    ensures NewFrame(frame, orig, rect, bounds) == orig
  {
  }

  /** The filter tests the stored frame, not the as-built one: an item
      pinned at offset 100 keeps frame x = 100 .. 200, so a later query for
      x = 0 .. 50 resets it without returning it, although its as-built
      frame x = 0 .. 200 meets that query. */
  lemma PinnedFrameHidesItem()
    ensures var ip := IndexPath(0, 0);
      var orig := Rect(0.0, 0.0, 200.0, 75.0);
      var row := [Attributes(Cell, ip, Rect(100.0, 0.0, 100.0, 75.0), 0)];
      var rect := Rect(0.0, 0.0, 50.0, 75.0);
      && FrameTracks(row[0].frame, orig)
      && Intersects(orig, rect)
      && VisibleRow(row, map[ip := orig], rect, Rect(0.0, 0.0, 50.0, 600.0), 1) == []
  {
  }

  // ---------------------------------------------------------------------
  // Time bar

  /** The time bar: at timeBarPosition of the content width, from the top of
      the content down its whole height, timeBarWidth wide. */
  function TimeBarFrame(contentBounds: Rect, timeBarPosition: real, timeBarWidth: real): (f: Rect)
    ensures f.MinY() == 0.0 && f.height == contentBounds.height && f.width == timeBarWidth
  {
    Rect(contentBounds.width * timeBarPosition, 0.0, timeBarWidth, contentBounds.height)
  }

  /** A position between 0 and 1 puts the time bar's left edge within the
      content's width. */
  lemma TimeBarWithinContent(contentBounds: Rect, timeBarPosition: real, timeBarWidth: real)
    requires 0.0 <= timeBarPosition <= 1.0 && contentBounds.width >= 0.0
    ensures 0.0 <= TimeBarFrame(contentBounds, timeBarPosition, timeBarWidth).MinX() <= contentBounds.width
  {
    var x := contentBounds.width * timeBarPosition;
    assert 0.0 <= x <= contentBounds.width * 1.0;
  }

  /** The time bar is tested for visibility with its stored frame, which is
      the zero rectangle after a build: the bounds meet it only when they
      reach strictly left of and strictly above the origin. */
  lemma TimeBarNeedsOverscroll(bounds: Rect)
    ensures Intersects(bounds, Zero) <==>
      bounds.MinX() < 0.0 < bounds.MaxX() && bounds.MinY() < 0.0 < bounds.MaxY()
  {
  }
}
