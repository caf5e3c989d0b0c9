/** The schedule layout object: the caches a build fills, the two one-shot
    flags that let a scroll or a timer tick skip the next build, the query
    for the elements in a rectangle, and item and decoration lookup.

    The delegate's answers are parameters: the item sizes of a build, the
    time bar's position and width of a query. Whether the time bar is shown
    is fixed when the layout is created. The collection view's bounds are a
    parameter of the query; their origin is the scroll offset. */
module Engine {
  import opened Wrappers
  import opened Geometry
  import opened LayoutBuild
  import opened SectionSearch
  import opened Pinning

  /** An invalidation context: the layout's own kind, which a timer tick
      marks as coming from the timer, or any other kind. */
  datatype InvalidationContext = ScheduleContext(fromTimerUpdate: bool) | OtherContext

  /** The kind the time bar decoration view is registered under. */
  const TimeBarDecorationViewKind: string := "TimeBarDecorationView"

  /** The time bar's attributes as a build creates them: a decoration at
      index path (0, 0), above the cells, with the zero frame. */
  const FreshTimeBar: Attributes := Attributes(TimeBarDecoration, IndexPath(0, 0), Zero, 1)

  /** The time bar a query shows: the stored one, moved to its place in the
      content, when the time bar is enabled and its stored frame meets the
      bounds. */
  function ShownTimeBar(showTimeBar: bool, cached: Option<Attributes>, bounds: Rect, contentBounds: Rect,
                        timeBarPosition: real, timeBarWidth: real): (r: Option<Attributes>)
    ensures r.Some? <==> showTimeBar && cached.Some? && Intersects(bounds, cached.value.frame)
    ensures r.Some? ==>
      r.value.frame == TimeBarFrame(contentBounds, timeBarPosition, timeBarWidth) &&
      r.value.kind == cached.value.kind && r.value.indexPath == cached.value.indexPath &&
      r.value.zIndex == cached.value.zIndex
  {
    if showTimeBar && cached.Some? && Intersects(bounds, cached.value.frame) then
      Some(cached.value.(frame := TimeBarFrame(contentBounds, timeBarPosition, timeBarWidth)))
    else None
  }

  /** The row rectangles are contiguous and their union is the content
      bounds. */
  ghost predicate RowsValid(sectionRects: seq<Rect>, contentBounds: Rect) {
    RowsContiguous(sectionRects) && contentBounds == Hull(sectionRects)
  }

  /** One row of items per row rectangle, rows in row-major order, and an
      as-built frame for every item that its stored frame tracks. */
  ghost predicate ItemsValid(items: seq<seq<Attributes>>, rowCount: nat, originalFrame: map<IndexPath, Rect>) {
    |items| == rowCount && RowMajor(items) && Tracked(items, originalFrame)
  }

  /** A time bar is stored whenever it is enabled and there are rows, and
      it is the decoration at index path (0, 0) above the cells. */
  predicate TimeBarValid(showTimeBar: bool, rowCount: nat, timeBar: Option<Attributes>) {
    && (showTimeBar && rowCount > 0 ==> timeBar.Some?)
    && (timeBar.Some? ==>
          timeBar.value.kind == TimeBarDecoration &&
          timeBar.value.indexPath == IndexPath(0, 0) &&
          timeBar.value.zIndex == 1)
  }

  /** The caches are valid: rows, items and time bar each as above. */
  ghost predicate CachesValid(showTimeBar: bool, L: Layout, timeBar: Option<Attributes>) {
    && RowsValid(L.sectionRects, L.contentBounds)
    && ItemsValid(L.items, |L.sectionRects|, L.originalFrame)
    && TimeBarValid(showTimeBar, |L.sectionRects|, timeBar)
  }

  /** Empty caches without a time bar are valid. */
  lemma EmptyCachesValid(showTimeBar: bool, L: Layout)
    requires |L.items| == 0 && |L.sectionRects| == 0 && L.contentBounds == Zero
    ensures CachesValid(showTimeBar, L, None)
  {
  }

  /** The caches a full build fills are valid, with a fresh time bar when
      the time bar is enabled and there are sections. */
  lemma BuiltCachesValid(showTimeBar: bool, sizes: seq<seq<Size>>, timeBar: Option<Attributes>)
    requires timeBar == (if showTimeBar && |sizes| > 0 then Some(FreshTimeBar) else None)
    ensures CachesValid(showTimeBar, Build(sizes), timeBar)
  {
    var L := Build(sizes);
    BuildRows(sizes, |sizes|);
    BuildItems(sizes, |sizes|);
    AsBuiltIsTracked(L.items, L.originalFrame);
    if |sizes| == 0 {
      assert L == EmptyLayout;
    }
  }

  /** A query keeps the items valid: it changes stored frames only, each
      to one that still tracks its as-built frame. */
  lemma RequeriedItemsValid(items: seq<seq<Attributes>>, rowCount: nat, originalFrame: map<IndexPath, Rect>,
                            rect: Rect, bounds: Rect, lo: nat, hi: nat)
    requires ItemsValid(items, rowCount, originalFrame)
    ensures ItemsValid(RequeryRows(items, originalFrame, rect, bounds, lo, hi), rowCount, originalFrame)
  {
    RequeryKeepsItems(items, originalFrame, rect, bounds, lo, hi);
    SameCellsKeepRowMajor(items, RequeryRows(items, originalFrame, rect, bounds, lo, hi));
  }

  /** The example rows are the row rectangles a build lays out for one item
      per section, 300, 50 and 240 wide and all 75 high. */
  lemma ExampleRowsAreBuilt(sizes: seq<seq<Size>>)
    requires |sizes| == 3
    requires sizes[0] == [Size(300.0, 75.0)] && sizes[1] == [Size(50.0, 75.0)] && sizes[2] == [Size(240.0, 75.0)]
    ensures Build(sizes).sectionRects == ExampleRows
  {
    var rects := Build(sizes).sectionRects;
    RowCount(sizes);
    RowOfSection(sizes, 0);
    RowOfSection(sizes, 1);
    RowOfSection(sizes, 2);
    assert KeptBefore(sizes, 1) == 1 && KeptBefore(sizes, 2) == 2;
    assert YOffsetBefore(sizes, 1) == 75.0 && YOffsetBefore(sizes, 2) == 150.0;
    assert rects[0] == ExampleRows[0] && rects[1] == ExampleRows[1] && rects[2] == ExampleRows[2];
  }

  class ScheduleLayout {
    const showTimeBar: bool
    var items: seq<seq<Attributes>>
    var originalFrame: map<IndexPath, Rect>
    var contentBounds: Rect
    var sectionRects: seq<Rect>
    var cachedTimeBarAttributes: Option<Attributes>
    var invalidateFromScroll: bool
    var invalidateFromTimerUpdate: bool
    /** Whether the periodic time bar task has been started. */
    var timeBarTaskRunning: bool

    ghost predicate Valid()
      reads this`items, this`sectionRects, this`originalFrame, this`contentBounds, this`cachedTimeBarAttributes
    {
      RowsOk() && ItemsOk() && TimeBarOk()
    }

    ghost predicate RowsOk()
      reads this`sectionRects, this`contentBounds
    {
      RowsValid(sectionRects, contentBounds)
    }

    ghost predicate ItemsOk()
      reads this`items, this`sectionRects, this`originalFrame
    {
      ItemsValid(items, |sectionRects|, originalFrame)
    }

    predicate TimeBarOk()
      reads this`sectionRects, this`cachedTimeBarAttributes
    {
      TimeBarValid(showTimeBar, |sectionRects|, cachedTimeBarAttributes)
    }

    /** The geometry caches as one value. */
    function CurrentLayout(): Layout
      reads this`items, this`sectionRects, this`originalFrame, this`contentBounds
    {
      Layout(items, sectionRects, originalFrame, contentBounds)
    }

    constructor (showTimeBar: bool)
      ensures Valid() && this.showTimeBar == showTimeBar
      ensures CurrentLayout() == EmptyLayout && cachedTimeBarAttributes == None
      ensures !invalidateFromScroll && !invalidateFromTimerUpdate && !timeBarTaskRunning
    {
      this.showTimeBar := showTimeBar;
      items := [];
      originalFrame := map[];
      contentBounds := Zero;
      sectionRects := [];
      cachedTimeBarAttributes := None;
      invalidateFromScroll := false;
      invalidateFromTimerUpdate := false;
      timeBarTaskRunning := false;
      new;
      EmptyCachesValid(showTimeBar, CurrentLayout());
    }

    /** Empties every cache: no rows, no frames, zero content bounds, no
        time bar. */
    method InvalidateLayoutCaches()
      modifies this
      ensures Valid()
      ensures CurrentLayout() == EmptyLayout && cachedTimeBarAttributes == None
      ensures invalidateFromScroll == old(invalidateFromScroll)
      ensures invalidateFromTimerUpdate == old(invalidateFromTimerUpdate)
      ensures timeBarTaskRunning == old(timeBarTaskRunning)
    {
      items := [];
      sectionRects := [];
      contentBounds := Zero;
      originalFrame := map[];
      cachedTimeBarAttributes := None;
      EmptyCachesValid(showTimeBar, CurrentLayout());
    }

    /** The size of the content: the size of the content bounds, never
        negative, reaching the right and bottom edges of every row. */
    function CollectionViewContentSize(): (size: Size)
      reads this
      ensures Valid() ==> size.width >= 0.0 && size.height >= 0.0
      ensures Valid() ==> forall i :: 0 <= i < |sectionRects| ==>
        sectionRects[i].MaxX() <= contentBounds.MinX() + size.width &&
        sectionRects[i].MaxY() <= contentBounds.MinY() + size.height
    {
      HullContainsOrigin(sectionRects);
      HullContainsAll(sectionRects);
      Size(contentBounds.width, contentBounds.height)
    }

    /** The inner loop of a build: lays out the items of one section left to
        right from x = 0 at yOffset and records their frames. */
    method LayOutRow(row: seq<Size>, sectionIndex: nat, yOffset: real) returns (rowAttributes: seq<Attributes>, xOffset: real)
      modifies this`originalFrame
      ensures rowAttributes == RowAttributes(row, sectionIndex, yOffset, |row|)
      ensures xOffset == RowX(row, |row|)
      ensures originalFrame == RecordFrames(old(originalFrame), row, sectionIndex, yOffset, |row|)
    {
      rowAttributes := [];
      xOffset := 0.0;
      var itemIndex := 0;
      while itemIndex < |row|
        invariant 0 <= itemIndex <= |row|
        invariant rowAttributes == RowAttributes(row, sectionIndex, yOffset, itemIndex)
        invariant xOffset == RowX(row, itemIndex)
        invariant originalFrame == RecordFrames(old(originalFrame), row, sectionIndex, yOffset, itemIndex)
      {
        var cellSize := row[itemIndex];
        var attributes := Attributes(Cell, IndexPath(sectionIndex, itemIndex),
          Rect(xOffset, yOffset, cellSize.width, cellSize.height), 0);
        originalFrame := originalFrame[attributes.indexPath := attributes.frame];
        rowAttributes := rowAttributes + [attributes];
        xOffset := xOffset + cellSize.width;
        itemIndex := itemIndex + 1;
      }
    }

    /** One section of a build: its items laid out; a non-empty section
        then adds its row and row rectangle and grows the content bounds. */
    method BuildSection(sizes: seq<seq<Size>>, sectionIndex: nat, yOffset: real) returns (yOffset': real)
      requires sectionIndex < |sizes|
      requires CurrentLayout() == BuildSections(sizes, sectionIndex).layout
      requires yOffset == BuildSections(sizes, sectionIndex).yOffset
      modifies this
      ensures CurrentLayout() == BuildSections(sizes, sectionIndex + 1).layout
      ensures yOffset' == BuildSections(sizes, sectionIndex + 1).yOffset
      ensures cachedTimeBarAttributes == old(cachedTimeBarAttributes)
      ensures invalidateFromScroll == old(invalidateFromScroll)
      ensures invalidateFromTimerUpdate == old(invalidateFromTimerUpdate)
      ensures timeBarTaskRunning == old(timeBarTaskRunning)
    {
      var row := sizes[sectionIndex];
      var rowAttributes, xOffset := LayOutRow(row, sectionIndex, yOffset);
      if |rowAttributes| == 0 {
        StepEmpty(sizes, sectionIndex + 1);
        return yOffset;
      }
      StepRow(sizes, sectionIndex + 1);
      var sectionHeight := rowAttributes[0].frame.height;
      var sectionRect := Rect(0.0, yOffset, xOffset, sectionHeight);
      contentBounds := Union(contentBounds, sectionRect);
      sectionRects := sectionRects + [sectionRect];
      items := items + [rowAttributes];
      yOffset' := yOffset + sectionHeight;
    }

    /** The outer loop of a build: every section in order, from emptied
        caches and y = 0. */
    method BuildAllSections(sizes: seq<seq<Size>>)
      requires CurrentLayout() == EmptyLayout
      modifies this
      ensures CurrentLayout() == Build(sizes)
      ensures cachedTimeBarAttributes == old(cachedTimeBarAttributes)
      ensures invalidateFromScroll == old(invalidateFromScroll)
      ensures invalidateFromTimerUpdate == old(invalidateFromTimerUpdate)
      ensures timeBarTaskRunning == old(timeBarTaskRunning)
    {
      var yOffset: real := 0.0;
      var sectionIndex := 0;
      while sectionIndex < |sizes|
        invariant 0 <= sectionIndex <= |sizes|
        invariant CurrentLayout() == BuildSections(sizes, sectionIndex).layout
        invariant yOffset == BuildSections(sizes, sectionIndex).yOffset
        invariant cachedTimeBarAttributes == old(cachedTimeBarAttributes)
        invariant invalidateFromScroll == old(invalidateFromScroll)
        invariant invalidateFromTimerUpdate == old(invalidateFromTimerUpdate)
        invariant timeBarTaskRunning == old(timeBarTaskRunning)
      {
        yOffset := BuildSection(sizes, sectionIndex, yOffset);
        sectionIndex := sectionIndex + 1;
      }
    }

    /** Prepares the layout. A pending scroll invalidation is consumed first
        and a pending timer invalidation second, each leaving every cache as
        it was; otherwise the caches are emptied and rebuilt from the sizes,
        and when the time bar is enabled and there are sections, a fresh time
        bar is stored and its timer task started. */
    method Prepare(sizes: seq<seq<Size>>)
      requires Valid()
      modifies this
      ensures Valid()
      ensures old(invalidateFromScroll) ==>
        && !invalidateFromScroll && invalidateFromTimerUpdate == old(invalidateFromTimerUpdate)
        && CurrentLayout() == old(CurrentLayout())
        && cachedTimeBarAttributes == old(cachedTimeBarAttributes)
        && timeBarTaskRunning == old(timeBarTaskRunning)
      ensures !old(invalidateFromScroll) && old(invalidateFromTimerUpdate) ==>
        && !invalidateFromScroll && !invalidateFromTimerUpdate
        && CurrentLayout() == old(CurrentLayout())
        && cachedTimeBarAttributes == old(cachedTimeBarAttributes)
        && timeBarTaskRunning == old(timeBarTaskRunning)
      ensures !old(invalidateFromScroll) && !old(invalidateFromTimerUpdate) ==>
        && !invalidateFromScroll && !invalidateFromTimerUpdate
        && CurrentLayout() == Build(sizes)
        && cachedTimeBarAttributes == (if showTimeBar && |sizes| > 0 then Some(FreshTimeBar) else None)
        && timeBarTaskRunning == (old(timeBarTaskRunning) || (showTimeBar && |sizes| > 0))
      ensures !old(invalidateFromScroll) && !old(invalidateFromTimerUpdate) && NonNegativeSizes(sizes) ==>
        CollectionViewContentSize() == Size(WidestRow(sizes, |sizes|), YOffsetBefore(sizes, |sizes|))
    {
      if invalidateFromScroll {
        invalidateFromScroll := false;
        return;
      } else if invalidateFromTimerUpdate {
        invalidateFromTimerUpdate := false;
        return;
      }

      Rebuild(sizes);
      if NonNegativeSizes(sizes) {
        ContentBoundsOfBuild(sizes, |sizes|);
      }
    }

    /** The rebuild part of prepare: the caches are emptied and rebuilt from
        the sizes, and when the time bar is enabled and there are sections, a
        fresh time bar is stored and its timer task started. */
    method Rebuild(sizes: seq<seq<Size>>)
      modifies this
      ensures Valid()
      ensures CurrentLayout() == Build(sizes)
      ensures cachedTimeBarAttributes == (if showTimeBar && |sizes| > 0 then Some(FreshTimeBar) else None)
      ensures timeBarTaskRunning == (old(timeBarTaskRunning) || (showTimeBar && |sizes| > 0))
      ensures invalidateFromScroll == old(invalidateFromScroll)
      ensures invalidateFromTimerUpdate == old(invalidateFromTimerUpdate)
    {
      InvalidateLayoutCaches();

      if |sizes| == 0 {
        assert CurrentLayout() == Build(sizes);
        return;
      }

      BuildAllSections(sizes);

      if !showTimeBar {
        BuiltCachesValid(showTimeBar, sizes, None);
        return;
      }
      cachedTimeBarAttributes := Some(FreshTimeBar);
      timeBarTaskRunning := true;
      BuiltCachesValid(showTimeBar, sizes, cachedTimeBarAttributes);
    }

    /** Invalidation: a context of another kind is ignored and not passed
        on; the layout's own context is passed on, and marks the timer
        invalidation pending when it comes from the timer. */
    method InvalidateLayout(context: InvalidationContext) returns (forwarded: bool)
      modifies this
      ensures forwarded <==> context.ScheduleContext?
      ensures invalidateFromTimerUpdate <==> old(invalidateFromTimerUpdate) || context == ScheduleContext(true)
      ensures invalidateFromScroll == old(invalidateFromScroll)
      ensures CurrentLayout() == old(CurrentLayout())
      ensures cachedTimeBarAttributes == old(cachedTimeBarAttributes)
      ensures timeBarTaskRunning == old(timeBarTaskRunning)
    {
      if !context.ScheduleContext? {
        return false;
      }
      if context.fromTimerUpdate {
        invalidateFromTimerUpdate := true;
      }
      return true;
    }

    /** One tick of the time bar task: an invalidation with the layout's own
        context, marked as coming from the timer. */
    method TimeBarTick()
      requires timeBarTaskRunning
      modifies this
      ensures invalidateFromTimerUpdate
      ensures invalidateFromScroll == old(invalidateFromScroll)
      ensures CurrentLayout() == old(CurrentLayout())
      ensures cachedTimeBarAttributes == old(cachedTimeBarAttributes)
      ensures timeBarTaskRunning
    {
      var _ := InvalidateLayout(ScheduleContext(true));
    }

    /** Every bounds change invalidates the layout: the new origin is
        reported to the delegate as the offset, a scroll invalidation is
        marked pending, and the answer is always yes. */
    method ShouldInvalidateLayout(newBounds: Rect) returns (r: bool, reportedOffset: Point)
      modifies this
      ensures r
      ensures reportedOffset == Point(newBounds.x, newBounds.y)
      ensures invalidateFromScroll
      ensures invalidateFromTimerUpdate == old(invalidateFromTimerUpdate)
      ensures CurrentLayout() == old(CurrentLayout())
      ensures cachedTimeBarAttributes == old(cachedTimeBarAttributes)
      ensures timeBarTaskRunning == old(timeBarTaskRunning)
    {
      reportedOffset := Point(newBounds.x, newBounds.y);
      invalidateFromScroll := true;
      r := true;
    }

    /** The pass over one visited row: each item whose stored frame meets
        rect is pinned or reset and returned, every other item is reset. */
    method RequeryRowAt(sectionIndex: nat, rect: Rect, bounds: Rect) returns (visible: seq<Attributes>)
      requires sectionIndex < |items|
      requires forall j :: 0 <= j < |items[sectionIndex]| ==> items[sectionIndex][j].indexPath in originalFrame
      modifies this`items
      ensures items == old(items)[sectionIndex := RequeryRow(old(items)[sectionIndex], originalFrame, rect, bounds)]
      ensures visible == VisibleRow(old(items)[sectionIndex], originalFrame, rect, bounds, |old(items)[sectionIndex]|)
    {
      var row := items[sectionIndex];
      visible := [];
      var j := 0;
      while j < |row|
        invariant 0 <= j <= |row|
        invariant forall t :: 0 <= t < |row| ==> row[t].indexPath in originalFrame
        invariant |items| == |old(items)| && |items[sectionIndex]| == |row|
        invariant forall k :: 0 <= k < |items| && k != sectionIndex ==> items[k] == old(items)[k]
        invariant forall t :: 0 <= t < j ==> items[sectionIndex][t] == Requery(row[t], originalFrame, rect, bounds)
        invariant forall t :: j <= t < |row| ==> items[sectionIndex][t] == row[t]
        invariant visible == VisibleRow(row, originalFrame, rect, bounds, j)
      {
        var sectionItem := items[sectionIndex][j];
        var orig := originalFrame[sectionItem.indexPath];
        var firstItemInRow := true;
        var frame := orig;
        if Intersects(sectionItem.frame, rect) {
          if Intersects(bounds, sectionItem.frame) && firstItemInRow {
            var scrollX := bounds.x;
            var subAmount := Max(orig.MinX(), scrollX);
            frame := Rect(subAmount, sectionItem.frame.MinY(), orig.MaxX() - subAmount, sectionItem.frame.height);
            firstItemInRow := false;
          }
          visible := visible + [sectionItem.(frame := frame)];
        }
        items := items[sectionIndex := items[sectionIndex][j := sectionItem.(frame := frame)]];
        j := j + 1;
      }
      assert items[sectionIndex] == RequeryRow(row, originalFrame, rect, bounds);
    }

    /** The pass over the visited rows lo .. hi, in ascending order. */
    method RequeryRun(lo: nat, hi: int, rect: Rect, bounds: Rect) returns (attributes: seq<Attributes>)
      requires lo <= hi + 1 <= |items|
      requires Cached(items, originalFrame)
      modifies this`items
      ensures items == RequeryRows(old(items), originalFrame, rect, bounds, lo, hi + 1)
      ensures attributes == VisibleRows(old(items), originalFrame, rect, bounds, lo, hi + 1)
    {
      attributes := [];
      ghost var before := items;
      var sectionIndex := lo;
      while sectionIndex <= hi
        invariant lo <= sectionIndex <= hi + 1
        invariant Cached(before, originalFrame)
        invariant items == RequeryRows(before, originalFrame, rect, bounds, lo, sectionIndex)
        invariant attributes == VisibleRows(before, originalFrame, rect, bounds, lo, sectionIndex)
      {
        assert items[sectionIndex] == before[sectionIndex];
        var visible := RequeryRowAt(sectionIndex, rect, bounds);
        attributes := attributes + visible;
        assert items == RequeryRows(before, originalFrame, rect, bounds, lo, sectionIndex + 1);
        sectionIndex := sectionIndex + 1;
      }
    }

    /** The time bar step of a query: when the time bar is enabled and its
        stored frame meets the bounds, it is moved to its place in the
        content, stored and returned. */
    method PlaceTimeBar(bounds: Rect, timeBarPosition: real, timeBarWidth: real) returns (shown: Option<Attributes>)
      requires TimeBarOk()
      modifies this`cachedTimeBarAttributes
      ensures TimeBarOk()
      ensures shown == ShownTimeBar(showTimeBar, old(cachedTimeBarAttributes), bounds, contentBounds, timeBarPosition, timeBarWidth)
      ensures cachedTimeBarAttributes == if shown.Some? then shown else old(cachedTimeBarAttributes)
    {
      if showTimeBar && cachedTimeBarAttributes.Some? && Intersects(bounds, cachedTimeBarAttributes.value.frame) {
        cachedTimeBarAttributes := Some(cachedTimeBarAttributes.value.(frame :=
          TimeBarFrame(contentBounds, timeBarPosition, timeBarWidth)));
        return cachedTimeBarAttributes;
      }
      return None;
    }

    /** The rows lo .. hi of a query, visited in ascending order; the items
        stay valid. */
    method VisitRows(lo: nat, hi: nat, rect: Rect, bounds: Rect) returns (attributes: seq<Attributes>)
      requires lo <= hi < |items|
      requires ItemsOk()
      modifies this`items
      ensures ItemsOk()
      ensures items == RequeryRows(old(items), originalFrame, rect, bounds, lo, hi + 1)
      ensures attributes == VisibleRows(old(items), originalFrame, rect, bounds, lo, hi + 1)
    {
      RequeriedItemsValid(items, |sectionRects|, originalFrame, rect, bounds, lo, hi + 1);
      attributes := RequeryRun(lo, hi, rect, bounds);
    }

    /** The visiting part of a query, for the rows lo .. hi: the items of
        those rows that meet rect, in ascending row order, then the time bar
        when it is enabled and its stored frame meets the bounds. */
    method QueryRun(lo: nat, hi: nat, rect: Rect, bounds: Rect, timeBarPosition: real, timeBarWidth: real)
      returns (attributes: seq<Attributes>)
      requires lo <= hi < |items|
      requires Valid()
      modifies this`items, this`cachedTimeBarAttributes
      ensures Valid()
      ensures items == RequeryRows(old(items), originalFrame, rect, bounds, lo, hi + 1)
      ensures var shown := ShownTimeBar(showTimeBar, old(cachedTimeBarAttributes), bounds, contentBounds, timeBarPosition, timeBarWidth);
        && attributes == VisibleRows(old(items), originalFrame, rect, bounds, lo, hi + 1) +
                         (if shown.Some? then [shown.value] else [])
        && cachedTimeBarAttributes == (if shown.Some? then shown else old(cachedTimeBarAttributes))
    {
      attributes := VisitRows(lo, hi, rect, bounds);
      var timeBar := PlaceTimeBar(bounds, timeBarPosition, timeBarWidth);
      if timeBar.Some? {
        attributes := attributes + [timeBar.value];
      }
    }

    /** The elements in rect. The rows found by the band search and walk
        around it are visited in ascending order; each contributes the items
        whose stored frame meets rect, pinned at the scroll offset or reset
        to their as-built frame, and every other item of a visited row is
        reset. The time bar comes last, moved into place, when it is enabled
        and its stored frame meets the bounds. Without a row in rect's
        vertical span there is no answer and nothing changes. */
    method LayoutAttributesForElements(rect: Rect, bounds: Rect, timeBarPosition: real, timeBarWidth: real)
      returns (result: Option<seq<Attributes>>)
      requires Valid()
      modifies this`items, this`cachedTimeBarAttributes
      ensures Valid()
      ensures originalFrame == old(originalFrame) && sectionRects == old(sectionRects)
      ensures contentBounds == old(contentBounds)
      ensures invalidateFromScroll == old(invalidateFromScroll)
      ensures invalidateFromTimerUpdate == old(invalidateFromTimerUpdate)
      ensures timeBarTaskRunning == old(timeBarTaskRunning)
      ensures VisitRange(rect, sectionRects).None? ==>
        result == None && items == old(items) && cachedTimeBarAttributes == old(cachedTimeBarAttributes)
      ensures VisitRange(rect, sectionRects).Some? ==>
        var lo, hi := VisitRange(rect, sectionRects).value.0, VisitRange(rect, sectionRects).value.1;
        var shown := ShownTimeBar(showTimeBar, old(cachedTimeBarAttributes), bounds, contentBounds, timeBarPosition, timeBarWidth);
        && hi < |old(items)|
        && items == RequeryRows(old(items), originalFrame, rect, bounds, lo, hi + 1)
        && result == Some(VisibleRows(old(items), originalFrame, rect, bounds, lo, hi + 1) +
                          (if shown.Some? then [shown.value] else []))
        && cachedTimeBarAttributes == (if shown.Some? then shown else old(cachedTimeBarAttributes))
    {
      var run := RowsToVisit(rect, sectionRects);
      if run.None? {
        return None;
      }
      var attributes := QueryRun(run.value.0, run.value.1, rect, bounds, timeBarPosition, timeBarWidth);
      return Some(attributes);
    }

    /** The attributes of the item at indexPath, found by its index path. */
    method LayoutAttributesForItem(indexPath: IndexPath) returns (r: Option<Attributes>)
      ensures r == AttributesForItem(items, indexPath)
      ensures r.Some? ==> r.value.indexPath == indexPath
    {
      r := AttributesForItem(items, indexPath);
    }

    /** The time bar, for the time bar's decoration kind only. */
    method LayoutAttributesForDecorationView(elementKind: string, indexPath: IndexPath) returns (r: Option<Attributes>)
      ensures elementKind == TimeBarDecorationViewKind ==> r == cachedTimeBarAttributes
      ensures elementKind != TimeBarDecorationViewKind ==> r == None
    {
      if elementKind != TimeBarDecorationViewKind {
        return None;
      }
      return cachedTimeBarAttributes;
    }
  }
}
