# Schedule layout, modelled in Dafny

A model of `UICollectionViewScheduleLayout`, the collection-view layout behind a
TV-guide grid. Each section of the collection view is one channel row. Each item is
one programme tile, as wide and as tall as the delegate reports.

The layout keeps five caches:
- the rows of item attributes;
- one rectangle per row;
- the as-built frame of every item;
- the content bounds;
- the time-bar attributes.

It also keeps two one-shot flags. A bounds change or a timer tick sets one of them, and
that flag lets the next `prepare` skip its rebuild.

The model has five modules:

- `Geometry`: rectangles with real coordinates. Intersection is strict overlap on both
  axes. `Union` is the union of two rectangles, and `Hull` is the union of a sequence of
  rows, starting from the zero rectangle.
- `LayoutBuild`: the full build, as functions that follow the build's two nested loops
  section by section. They are tied by lemmas to reference definitions that depend only
  on the sizes: the offset before a section, the count of kept rows, the widest row.
  Item lookup is here too.
- `SectionSearch`: finding the rows a query rectangle touches.
  - The binary search and the walk up and down from the row it finds, as written.
  - A corrected pair that tests only vertical spans. The layout uses the corrected pair.
  - The sort of the collected row indexes.
- `Pinning`: what a query does to the items of a visited row, and the time-bar frame.
  - An item whose stored frame meets the query and the bounds is pinned at the
    horizontal scroll offset.
  - Every other item of the row gets its as-built frame back.
- `Engine`: the layout object as a class whose fields are the caches and the flags.
  - It has methods for prepare, cache reset, invalidation, the bounds-change hook, the
    query for a rectangle, item lookup and decoration lookup.
  - It has a content-size function.
  - Its class invariant `Valid()` says:
    - the rows are contiguous;
    - the content bounds are their union;
    - the items are in row-major order;
    - every stored frame tracks its as-built frame;
    - a time bar is stored whenever it is enabled and rows exist.

The delegate's answers are inputs: the item sizes are a parameter of `Prepare`, and the
time bar's position and width are parameters of the query. The collection view's bounds
are a parameter of the query, and their origin is the scroll offset.

## Model

All source paths are `Sources/TVGuideLayout/UICollectionViewScheduleLayout.swift`.

| member | source | states |
|---|---|---|
| `Geometry.Union` | Sources/TVGuideLayout/UICollectionViewScheduleLayout.swift:85 | the union reaches every edge of both rectangles |
| `Geometry.Intersects` | Sources/TVGuideLayout/UICollectionViewScheduleLayout.swift:228 | CGRect.intersects as used at lines 152, 159, 168, 170, 195 and 228: open overlap on both axes, so rectangles sharing only an edge do not intersect |
| `Geometry.UnionIsSmallest` | Sources/TVGuideLayout/UICollectionViewScheduleLayout.swift:85 | any rectangle containing both rectangles contains their union, so the union is the smallest such rectangle |
| `Geometry.Hull` | Sources/TVGuideLayout/UICollectionViewScheduleLayout.swift:85 | the content bounds accumulated from the zero rectangle (line 115) by joining each row rectangle in order |
| `Geometry.HullContainsOrigin` | Sources/TVGuideLayout/UICollectionViewScheduleLayout.swift:85 | content bounds grown from the zero rectangle always contain the origin |
| `Geometry.HullContainsRect` | Sources/TVGuideLayout/UICollectionViewScheduleLayout.swift:85 | the union of the rows contains each row it was built from |
| `Geometry.HullContainsAll` | Sources/TVGuideLayout/UICollectionViewScheduleLayout.swift:85 | the union of the rows contains all of them at once |
| `Geometry.ContiguousRowsAreStacked` | Sources/TVGuideLayout/UICollectionViewScheduleLayout.swift:83-89 | contiguous rows of non-negative height lie each entirely above every later row |
| `LayoutBuild.RowX` | Sources/TVGuideLayout/UICollectionViewScheduleLayout.swift:70-79 | xOffset after n items: the sum of their widths, starting from 0 |
| `LayoutBuild.CellFrame` | Sources/TVGuideLayout/UICollectionViewScheduleLayout.swift:76 | item j's frame: at (xOffset, yOffset) with the reported width and height |
| `LayoutBuild.CellAttributes` | Sources/TVGuideLayout/UICollectionViewScheduleLayout.swift:72-76 | a cell's attributes: index path (section, j), its frame, z-index 0 |
| `LayoutBuild.RecordFrames` | Sources/TVGuideLayout/UICollectionViewScheduleLayout.swift:77 | the frame cache after recording the first n items of a row under their index paths |
| `LayoutBuild.RowRect` | Sources/TVGuideLayout/UICollectionViewScheduleLayout.swift:83-84 | a row's rectangle: x = 0 at yOffset, as wide as xOffset and as tall as the first item |
| `LayoutBuild.BuildSections` | Sources/TVGuideLayout/UICollectionViewScheduleLayout.swift:66-90 | the caches and yOffset after the outer loop's first n iterations; an empty section is skipped by the `continue` at line 81 |
| `LayoutBuild.Build` | Sources/TVGuideLayout/UICollectionViewScheduleLayout.swift:61-90 | the caches a full build fills from emptied caches |
| `LayoutBuild.YOffsetBefore` | Sources/TVGuideLayout/UICollectionViewScheduleLayout.swift:89 | the offset reached before section s: the first-item heights of the earlier non-empty sections added up |
| `LayoutBuild.KeptBefore` | Sources/TVGuideLayout/UICollectionViewScheduleLayout.swift:81-87 | how many sections before s are non-empty, and so kept as rows; never more than s |
| `LayoutBuild.WidestRow` | Sources/TVGuideLayout/UICollectionViewScheduleLayout.swift:84-85 | the widest row among the first s sections, and at least zero |
| `LayoutBuild.RowAttributes` | Sources/TVGuideLayout/UICollectionViewScheduleLayout.swift:69-79 | the inner loop's attributes: n of them, the j-th being cell (section, j) with z-index 0 at x = widths of items 0..j-1 and y = the section's offset, with its reported size |
| `LayoutBuild.RecordFramesFacts` | Sources/TVGuideLayout/UICollectionViewScheduleLayout.swift:77 | recording a row adds exactly its index paths with their frames and keeps every other section's entries |
| `LayoutBuild.BuildOffsets` | Sources/TVGuideLayout/UICollectionViewScheduleLayout.swift:66-90 | after n sections the offset is the sum of earlier row heights and one row is kept per non-empty section |
| `LayoutBuild.ContiguousStep` | Sources/TVGuideLayout/UICollectionViewScheduleLayout.swift:84-89 | a new row starts where the previous one ends, and the offset is the last row's bottom |
| `LayoutBuild.BuildContiguous` | Sources/TVGuideLayout/UICollectionViewScheduleLayout.swift:66-90 | row rectangles are contiguous from y = 0 down to the running offset |
| `LayoutBuild.BuildHull` | Sources/TVGuideLayout/UICollectionViewScheduleLayout.swift:85 | the content bounds are the union of the row rectangles |
| `LayoutBuild.BuildRows` | Sources/TVGuideLayout/UICollectionViewScheduleLayout.swift:66-90 | one rectangle per kept row, row i's bottom is row i+1's top, the first row starts at 0, and the content bounds are their union |
| `LayoutBuild.RowMajorAppend` | Sources/TVGuideLayout/UICollectionViewScheduleLayout.swift:72-87 | appending a later section's row keeps rows in row-major order |
| `LayoutBuild.RowMajorStep` | Sources/TVGuideLayout/UICollectionViewScheduleLayout.swift:67-87 | one outer-loop step keeps rows in row-major order with sections below the loop index |
| `LayoutBuild.BuildRowMajor` | Sources/TVGuideLayout/UICollectionViewScheduleLayout.swift:67-90 | kept rows are non-empty cells (section, 0), (section, 1), ... with sections strictly increasing |
| `LayoutBuild.AsBuiltAppend` | Sources/TVGuideLayout/UICollectionViewScheduleLayout.swift:75-77 | recording a new row's frames keeps every item's as-built frame equal to its frame |
| `LayoutBuild.AsBuiltStep` | Sources/TVGuideLayout/UICollectionViewScheduleLayout.swift:75-87 | one outer-loop step keeps the frame cache complete and holding processed sections only |
| `LayoutBuild.BuildAsBuilt` | Sources/TVGuideLayout/UICollectionViewScheduleLayout.swift:66-90 | after a build the cache holds every item's frame under its index path |
| `LayoutBuild.BuildItems` | Sources/TVGuideLayout/UICollectionViewScheduleLayout.swift:66-90 | rows are row-major and the cache holds every item's frame |
| `LayoutBuild.BuildExtends` | Sources/TVGuideLayout/UICollectionViewScheduleLayout.swift:86-87 | later sections only append rows and rectangles |
| `LayoutBuild.ItemPlacement` | Sources/TVGuideLayout/UICollectionViewScheduleLayout.swift:66-89 | item j of section s sits in kept row KeptBefore(s) at (sum of widths 0..j-1, section's y) with its reported size, the cache holds that frame, and the row rectangle is (0, y, row width, first height) |
| `LayoutBuild.RowOfSection` | Sources/TVGuideLayout/UICollectionViewScheduleLayout.swift:81-87 | a non-empty section's row and rectangle are kept at index KeptBefore(s) |
| `LayoutBuild.LastRowOfPrefix` | Sources/TVGuideLayout/UICollectionViewScheduleLayout.swift:81-87 | after sections 0..s, a non-empty section s is the last kept row |
| `LayoutBuild.RowCount` | Sources/TVGuideLayout/UICollectionViewScheduleLayout.swift:81-87 | the build keeps as many rows and rectangles as there are non-empty sections |
| `LayoutBuild.RowXNonNegative` | Sources/TVGuideLayout/UICollectionViewScheduleLayout.swift:79 | with non-negative widths, xOffset never goes negative |
| `LayoutBuild.RowXMonotone` | Sources/TVGuideLayout/UICollectionViewScheduleLayout.swift:79 | with non-negative widths, xOffset never decreases along a row |
| `LayoutBuild.ExtentsNonNegative` | Sources/TVGuideLayout/UICollectionViewScheduleLayout.swift:83-89 | with non-negative sizes, the widest row and the offset are non-negative |
| `LayoutBuild.ContentBoundsOfBuild` | Sources/TVGuideLayout/UICollectionViewScheduleLayout.swift:85 | with non-negative sizes, the content bounds are (0, 0, widest row, sum of row heights) |
| `LayoutBuild.UnionOfStackedRects` | Sources/TVGuideLayout/UICollectionViewScheduleLayout.swift:85 | the union of bounds at the origin with a row just below them has the wider width and both heights |
| `LayoutBuild.ItemAtIndexPath` | Sources/TVGuideLayout/UICollectionViewScheduleLayout.swift:208-210 | the lookup as written yields an item of kept row number `section` |
| `LayoutBuild.ItemLookupAfterEmptySection` | Sources/TVGuideLayout/UICollectionViewScheduleLayout.swift:208-210 | after an empty section 0, the lookup as written returns item (1, 0) for index path (0, 0) |
| `LayoutBuild.AttributesForItem` | Sources/TVGuideLayout/UICollectionViewScheduleLayout.swift:208-210 | an item found has the index path asked for and is an item of some row |
| `LayoutBuild.AttributesForItemInRow` | Sources/TVGuideLayout/UICollectionViewScheduleLayout.swift:208-210 | in row-major rows, the lookup finds item `item` of the row holding the section |
| `LayoutBuild.LookupFindsEveryItem` | Sources/TVGuideLayout/UICollectionViewScheduleLayout.swift:208-210 | every item a build lays out is found with its as-built attributes, whatever sections are empty |
| `Pinning.Pinned` | Sources/TVGuideLayout/UICollectionViewScheduleLayout.swift:171-180 | the pinned frame: left edge at max(as-built minX, scrollX), as-built right edge, stored y and height |
| `Pinning.NewFrame` | Sources/TVGuideLayout/UICollectionViewScheduleLayout.swift:168-190 | the frame one item gets: pinned when its stored frame meets rect and the bounds, the as-built frame otherwise |
| `Pinning.Requery` | Sources/TVGuideLayout/UICollectionViewScheduleLayout.swift:168-190 | the item with its frame replaced by the new frame |
| `Pinning.RequeryRow` | Sources/TVGuideLayout/UICollectionViewScheduleLayout.swift:166-191 | a visited row after the item loop: same length, every item requeried |
| `Pinning.RequeryRows` | Sources/TVGuideLayout/UICollectionViewScheduleLayout.swift:164-192 | the rows after visiting rows lo..hi-1: same count, others untouched |
| `Pinning.VisibleRow` | Sources/TVGuideLayout/UICollectionViewScheduleLayout.swift:166-191 | the items the loop appends for one row: those whose stored frame meets rect, in order, with their new frames |
| `Pinning.VisibleRows` | Sources/TVGuideLayout/UICollectionViewScheduleLayout.swift:164-192 | the items appended for rows lo..hi-1, row after row |
| `Pinning.PinnedClips` | Sources/TVGuideLayout/UICollectionViewScheduleLayout.swift:174-180 | a pinned frame starts at max(original minX, scrollX) and keeps the original maxX |
| `Pinning.NewFrameFacts` | Sources/TVGuideLayout/UICollectionViewScheduleLayout.swift:168-190 | a tracking frame keeps tracking; a frame missing the query or the bounds gets its as-built frame; a moved frame starts exactly at the scroll offset |
| `Pinning.RequeryKeepsItems` | Sources/TVGuideLayout/UICollectionViewScheduleLayout.swift:164-191 | a query changes frames only, keeps every frame tracking, and leaves unvisited rows alone |
| `Pinning.VisibleRowMembers` | Sources/TVGuideLayout/UICollectionViewScheduleLayout.swift:166-190 | a row returns exactly its items whose stored frame meets the query, each with its new frame |
| `Pinning.MissedItemIsReset` | Sources/TVGuideLayout/UICollectionViewScheduleLayout.swift:188-190 | an item missing the query gets its as-built frame and is not returned |
| `Pinning.AsBuiltIsTracked` | Sources/TVGuideLayout/UICollectionViewScheduleLayout.swift:77 | freshly built frames track their as-built frames |
| `Pinning.SameCellsKeepRowMajor` | Sources/TVGuideLayout/UICollectionViewScheduleLayout.swift:176-189 | rewriting frames keeps the rows row-major |
| `Pinning.AtMostOnePinnedPerRow` | Sources/TVGuideLayout/UICollectionViewScheduleLayout.swift:166-182 | in a built row, at most one item is moved by pinning |
| `Pinning.NoPinningBeforeItem` | Sources/TVGuideLayout/UICollectionViewScheduleLayout.swift:170-180 | an item the view has not scrolled past keeps its as-built frame |
| `Pinning.PinnedFrameHidesItem` | Sources/TVGuideLayout/UICollectionViewScheduleLayout.swift:168 | the filter tests the stored frame: a pinned item can be reset without being returned although its as-built frame meets the query |
| `Pinning.TimeBarFrame` | Sources/TVGuideLayout/UICollectionViewScheduleLayout.swift:196-201 | the time bar spans the content's height from y = 0 and is timeBarWidth wide |
| `Pinning.TimeBarWithinContent` | Sources/TVGuideLayout/UICollectionViewScheduleLayout.swift:196 | a position in [0, 1] puts the bar's left edge within the content width |
| `Pinning.TimeBarNeedsOverscroll` | Sources/TVGuideLayout/UICollectionViewScheduleLayout.swift:195 | the bounds meet a fresh time bar's zero frame iff they reach strictly left of and above the origin |
| `SectionSearch.SearchBetween` | Sources/TVGuideLayout/UICollectionViewScheduleLayout.swift:224-235 | any index found lies between l and r and its row intersects the query |
| `SectionSearch.FirstSectionSearch` | Sources/TVGuideLayout/UICollectionViewScheduleLayout.swift:221-238 | nil on no rows; any index found is in range and its row intersects the query |
| `SectionSearch.FindFirstSectionIndexBinary` | Sources/TVGuideLayout/UICollectionViewScheduleLayout.swift:221-238 | the loop computes the recursive search: nil on no rows, any hit in range and intersecting |
| `SectionSearch.RowAboveBelowQuery` | Sources/TVGuideLayout/UICollectionViewScheduleLayout.swift:230-231 | on stacked rows, a row in the query's band lies above a row starting at or below the query |
| `SectionSearch.RowBelowAboveQuery` | Sources/TVGuideLayout/UICollectionViewScheduleLayout.swift:232-233 | on stacked rows, a row in the query's band lies below a row ending at or above the query |
| `SectionSearch.SearchFindsRowWhenRowsSpanQuery` | Sources/TVGuideLayout/UICollectionViewScheduleLayout.swift:225-234 | when rows span the query horizontally and none starts at its bottom, the search finds a row whenever one intersects |
| `SectionSearch.SearchFindsRowBeside` | Sources/TVGuideLayout/UICollectionViewScheduleLayout.swift:228-234 | under the same conditions, a missed middle row sends the search to the side holding the hit |
| `SectionSearch.SearchCompleteWhenRowsSpanQuery` | Sources/TVGuideLayout/UICollectionViewScheduleLayout.swift:221-238 | under the same conditions, the search returns nil exactly when no row intersects |
| `Engine.ExampleRowsAreBuilt` | Sources/TVGuideLayout/UICollectionViewScheduleLayout.swift:66-90 | a build of one item per section, 300, 50 and 240 wide and 75 high, lays out exactly the example rows |
| `SectionSearch.ExampleRowsStacked` | Sources/TVGuideLayout/UICollectionViewScheduleLayout.swift:83-89 | the three example rows are contiguous and stacked |
| `SectionSearch.SearchMissesRowEndingAtQueryBottom` | Sources/TVGuideLayout/UICollectionViewScheduleLayout.swift:230 | a query covering exactly the first row finds nothing |
| `SectionSearch.SearchMissesWideRowPastShortRow` | Sources/TVGuideLayout/UICollectionViewScheduleLayout.swift:228-233 | a narrow query at the right of a wide first row is steered past it by a short middle row and finds nothing |
| `SectionSearch.BandSearchBetween` | Sources/TVGuideLayout/UICollectionViewScheduleLayout.swift:224-235 | any index found lies between l and r and its row meets the query's vertical span |
| `SectionSearch.FirstRowInBand` | Sources/TVGuideLayout/UICollectionViewScheduleLayout.swift:221-238 | nil on no rows; any index found is in range and in the query's band |
| `SectionSearch.FindFirstRowInBand` | Sources/TVGuideLayout/UICollectionViewScheduleLayout.swift:221-238 | the corrected loop computes the band search |
| `SectionSearch.BandSearchFindsRow` | Sources/TVGuideLayout/UICollectionViewScheduleLayout.swift:225-234 | on stacked rows, the band search finds a row whenever one between l and r is in the band |
| `SectionSearch.BandSearchFindsRowBeside` | Sources/TVGuideLayout/UICollectionViewScheduleLayout.swift:228-234 | a middle row outside the band sends the search to the side holding a band row |
| `SectionSearch.BandSearchComplete` | Sources/TVGuideLayout/UICollectionViewScheduleLayout.swift:221-238 | on stacked rows, nil exactly when no row is in the band, and then no row intersects the query |
| `SectionSearch.BandSearchFindsRowEndingAtQueryBottom` | Sources/TVGuideLayout/UICollectionViewScheduleLayout.swift:230 | the band search finds row 0 for the query the search as written misses |
| `SectionSearch.Hit` | Sources/TVGuideLayout/UICollectionViewScheduleLayout.swift:152 | the test a row must pass to be collected: intersection as at lines 152 and 159, or overlap of the vertical span |
| `SectionSearch.RunStart` | Sources/TVGuideLayout/UICollectionViewScheduleLayout.swift:151-154 | the backward walk stops at or before the hit, at row 0 or just after a failing row |
| `SectionSearch.RunStartPasses` | Sources/TVGuideLayout/UICollectionViewScheduleLayout.swift:151-154 | every row the backward walk collects passes the test |
| `SectionSearch.RunEnd` | Sources/TVGuideLayout/UICollectionViewScheduleLayout.swift:158-161 | the forward walk stops in range, at the last row or just before a failing row |
| `SectionSearch.RunEndPasses` | Sources/TVGuideLayout/UICollectionViewScheduleLayout.swift:158-161 | every row the forward walk collects passes the test |
| `SectionSearch.WalkBack` | Sources/TVGuideLayout/UICollectionViewScheduleLayout.swift:151-154 | the backward loop collects first-1, first-2, ... down to the run's start |
| `SectionSearch.WalkOn` | Sources/TVGuideLayout/UICollectionViewScheduleLayout.swift:158-161 | the forward loop collects first+1, ... up to the run's end |
| `SectionSearch.CollectRun` | Sources/TVGuideLayout/UICollectionViewScheduleLayout.swift:151-161 | the collected indexes are the countdown to the run's start, then the hit and the rows after it |
| `SectionSearch.CountdownPermutesRange` | Sources/TVGuideLayout/UICollectionViewScheduleLayout.swift:164 | the backward walk's indexes are the same multiset as the ascending range |
| `SectionSearch.RangeIncreasing` | Sources/TVGuideLayout/UICollectionViewScheduleLayout.swift:164 | the ascending range has no duplicates and is strictly increasing |
| `SectionSearch.CollectedRunSorts` | Sources/TVGuideLayout/UICollectionViewScheduleLayout.swift:164 | sorting the collected indexes gives lo, lo+1, ..., hi, each once |
| `SectionSearch.WalkStopsAtShortRow` | Sources/TVGuideLayout/UICollectionViewScheduleLayout.swift:151-154 | the walk as written stops at a short middle row and never reaches an intersecting first row |
| `SectionSearch.RunStartReaches` | Sources/TVGuideLayout/UICollectionViewScheduleLayout.swift:151-154 | the backward walk reaches every row of an unbroken passing stretch |
| `SectionSearch.RunEndReaches` | Sources/TVGuideLayout/UICollectionViewScheduleLayout.swift:158-161 | the forward walk reaches every row of an unbroken passing stretch |
| `SectionSearch.BandIsContiguous` | Sources/TVGuideLayout/UICollectionViewScheduleLayout.swift:151-161 | on stacked rows, a row between two band rows is a band row |
| `SectionSearch.BandRowInRun` | Sources/TVGuideLayout/UICollectionViewScheduleLayout.swift:151-161 | every band row lies in the band run around the hit |
| `SectionSearch.BandRunIsExact` | Sources/TVGuideLayout/UICollectionViewScheduleLayout.swift:146-164 | the rows collected are exactly the band rows, so they include every row intersecting the query |
| `SectionSearch.VisitRange` | Sources/TVGuideLayout/UICollectionViewScheduleLayout.swift:146-164 | no range exactly when the search finds nothing; otherwise first <= last < row count |
| `SectionSearch.RowsToVisit` | Sources/TVGuideLayout/UICollectionViewScheduleLayout.swift:146-164 | search, walk and sort give the visit range |
| `SectionSearch.BandWalkReachesFirstRow` | Sources/TVGuideLayout/UICollectionViewScheduleLayout.swift:151-154 | the band walk collects all three example rows for the query the walk as written stops short on |
| `Engine.ShownTimeBar` | Sources/TVGuideLayout/UICollectionViewScheduleLayout.swift:195-203 | the time bar is shown iff enabled, stored and its stored frame meets the bounds, then with the time-bar frame and its kind, index path and z-index kept |
| `Engine.EmptyCachesValid` | Sources/TVGuideLayout/UICollectionViewScheduleLayout.swift:112-118 | emptied caches satisfy the layout invariant |
| `Engine.BuiltCachesValid` | Sources/TVGuideLayout/UICollectionViewScheduleLayout.swift:61-97 | the caches a build fills, with the fresh time bar, satisfy the layout invariant |
| `Engine.RequeriedItemsValid` | Sources/TVGuideLayout/UICollectionViewScheduleLayout.swift:164-191 | a query keeps the items part of the invariant |
| `Engine.ScheduleLayout.constructor` | Sources/TVGuideLayout/UICollectionViewScheduleLayout.swift:20-36 | a new layout has empty caches, no time bar and both flags clear |
| `Engine.ScheduleLayout.InvalidateLayoutCaches` | Sources/TVGuideLayout/UICollectionViewScheduleLayout.swift:112-118 | every cache is emptied, the bounds are zero and the time bar nil; the flags are kept |
| `Engine.ScheduleLayout.CollectionViewContentSize` | Sources/TVGuideLayout/UICollectionViewScheduleLayout.swift:120-122 | the content size is non-negative and reaches every row's right and bottom edges |
| `Engine.ScheduleLayout.LayOutRow` | Sources/TVGuideLayout/UICollectionViewScheduleLayout.swift:69-80 | the inner loop yields the row's attributes, the row width, and the cache with the row's frames recorded |
| `Engine.ScheduleLayout.BuildSection` | Sources/TVGuideLayout/UICollectionViewScheduleLayout.swift:67-90 | one outer-loop iteration takes the caches from the state after s sections to the state after s+1 |
| `Engine.ScheduleLayout.BuildAllSections` | Sources/TVGuideLayout/UICollectionViewScheduleLayout.swift:66-90 | the outer loop fills the caches with the full build |
| `Engine.ScheduleLayout.Prepare` | Sources/TVGuideLayout/UICollectionViewScheduleLayout.swift:46-98 | the scroll flag is consumed first, the timer flag second, each leaving the caches alone; otherwise the caches are rebuilt, the time bar stored and started when enabled and sections exist, and the content size is (widest row, total height) |
| `Engine.ScheduleLayout.Rebuild` | Sources/TVGuideLayout/UICollectionViewScheduleLayout.swift:57-97 | reset, then build from the sizes, with a fresh time bar when enabled and sections exist; the invariant holds |
| `Engine.ScheduleLayout.InvalidateLayout` | Sources/TVGuideLayout/UICollectionViewScheduleLayout.swift:124-131 | only the layout's own context is passed on; only one from the timer sets the timer flag |
| `Engine.ScheduleLayout.TimeBarTick` | Sources/TVGuideLayout/UICollectionViewScheduleLayout.swift:102-108 | a tick of the time-bar task sets the timer flag and nothing else |
| `Engine.ScheduleLayout.ShouldInvalidateLayout` | Sources/TVGuideLayout/UICollectionViewScheduleLayout.swift:133-142 | always true; reports the new origin as the offset and sets the scroll flag only |
| `Engine.ScheduleLayout.RequeryRowAt` | Sources/TVGuideLayout/UICollectionViewScheduleLayout.swift:166-191 | one visited row's items get their new frames, and the items meeting the query are returned in order |
| `Engine.ScheduleLayout.RequeryRun` | Sources/TVGuideLayout/UICollectionViewScheduleLayout.swift:164-192 | rows lo..hi are visited in ascending order, their returned items concatenated |
| `Engine.ScheduleLayout.PlaceTimeBar` | Sources/TVGuideLayout/UICollectionViewScheduleLayout.swift:194-203 | the time bar is moved, stored and returned exactly when it is shown |
| `Engine.ScheduleLayout.VisitRows` | Sources/TVGuideLayout/UICollectionViewScheduleLayout.swift:164-192 | visiting rows lo..hi keeps the items part of the invariant |
| `Engine.ScheduleLayout.QueryRun` | Sources/TVGuideLayout/UICollectionViewScheduleLayout.swift:164-205 | the visited rows' returned items, then the time bar if shown; the invariant holds |
| `Engine.ScheduleLayout.LayoutAttributesForElements` | Sources/TVGuideLayout/UICollectionViewScheduleLayout.swift:144-206 | nil with nothing changed when no row is in the band; otherwise the visited rows' items meeting rect, then the time bar; as-built frames, row rectangles and bounds unchanged |
| `Engine.ScheduleLayout.LayoutAttributesForItem` | Sources/TVGuideLayout/UICollectionViewScheduleLayout.swift:208-210 | returns the item with the index path asked for, found by identity |
| `Engine.ScheduleLayout.LayoutAttributesForDecorationView` | Sources/TVGuideLayout/UICollectionViewScheduleLayout.swift:212-215 | the stored time bar for the time-bar kind, nil for any other kind |

## Left out

- Whether the time bar is shown is a constant fixed when the layout is created (`showTimeBar` of `Engine.ScheduleLayout`). The source asks the delegate again at lines 93 and 195, so a delegate whose answer changes between a build and a query is not followed. The app's delegates return a constant.
- Geometry.Intersects: intersection is strict overlap on both axes. CoreGraphics' handling of zero-size rectangles is not modelled. This matters at line 195, where a freshly built time bar has the zero frame; `TimeBarNeedsOverscroll` states what strict overlap makes of that test.
- The periodic time-bar `Task` (sleep, cancellation) and the `deinit` cancel (lines 42-44, 100-110) are asynchronous. The model keeps a `timeBarTaskRunning` flag, and `TimeBarTick` models the effect of one tick.
- UIKit plumbing is not modelled. This covers:
  - the superclass calls and `register`;
  - `isDirectionalLockEnabled`;
  - `invalidationContextClass`;
  - `init(coder:)`;
  - the `TimeBarDecorationView` class;
  - the weak delegate reference.
- The `guard let collectionView` early return (line 57) and the `collectionView!` unwraps are left out. The model assumes a collection view is attached.
- Swift crashes only when `cachedTimeBarAttributes` is nil while the time bar is enabled. The model returns no time bar in that case instead. The class invariant rules it out whenever rows exist, and a query reaches the time-bar step only when rows exist.
- Attributes are values, not shared objects. A query stores the updated attributes in the cache and returns copies. The aliasing between a returned array and the cache is not captured: in the source, a later query also changes objects returned earlier.
- Frames are exact reals. CGFloat rounding and the standardisation of rectangles with negative sizes are not modelled.
- `offsetDidChange` is a call into the delegate. The model returns the reported offset from `ShouldInvalidateLayout` instead.
- The `sorted()` call at line 164 is replaced. `CollectedRunSorts` proves that the collected indexes are a permutation of the strictly increasing range from first row to last row. The layout then visits that range in ascending order.
- `firstItemInRow` is declared inside the item loop, so it is always true at its test. The model keeps it as written. `AtMostOnePinnedPerRow` shows that pinning still moves at most one item of a built row.
- `Sources/TVGuideLayout/TVGuideViewController.swift` and the example app are not part of this model.
- SectionSearch.SearchCompleteWhenRowsSpanQuery: completeness of the search as written is stated only for rows that span the query horizontally and do not start at its bottom edge. Without those conditions the claim is false (see Findings). Completeness on all stacked rows is proved for the corrected search, `BandSearchComplete`.
- Engine.ScheduleLayout.LayoutAttributesForElements: it uses the corrected search and walk, which test vertical spans, not the two-dimensional test as written. The as-written search and walk are kept in `SectionSearch`, with the inputs that show where they fall short.
- Engine.ScheduleLayout.LayoutAttributesForItem: it finds the item by index path, not by `items[section][row]`. The indexing as written is `ItemAtIndexPath`.

## Findings

| source | as written | input that shows it | evidently intended | confidence | as-written member | corrected member |
|---|---|---|---|---|---|---|
| Sources/TVGuideLayout/UICollectionViewScheduleLayout.swift:230 | the search goes to the upper rows only when `query.maxY < mSpace.minY`, so a query ending exactly at the middle row's top edge goes down | rows (0,0,300,75), (0,75,50,75), (0,150,240,75); query (0,0,300,75): the search returns nil although row 0 intersects the query | go up when `query.maxY <= mSpace.minY` | high; not executed | `SectionSearch.SearchMissesRowEndingAtQueryBottom` | `SectionSearch.BandSearchComplete` |
| Sources/TVGuideLayout/UICollectionViewScheduleLayout.swift:228-233 | a probe counts as a hit only on two-dimensional intersection, but the search steers by vertical position alone | same rows; query (260,0,20,225): the short middle row misses, the search goes down and returns nil although row 0 intersects | probe the row's vertical span, since rows are stacked by y only | high; not executed | `SectionSearch.SearchMissesWideRowPastShortRow` | `SectionSearch.BandSearchComplete` |
| Sources/TVGuideLayout/UICollectionViewScheduleLayout.swift:151-161 | the walk stops at the first row that does not intersect the query in two dimensions | same rows; query (100,0,20,225): the search finds row 2, the walk stops at row 1 and never collects row 0, which intersects | collect the whole run of rows in the query's vertical span | high; not executed | `SectionSearch.WalkStopsAtShortRow` | `SectionSearch.BandRunIsExact` |
| Sources/TVGuideLayout/UICollectionViewScheduleLayout.swift:209 | `items[indexPath.section]` indexes the kept rows by section number, but empty sections keep no row | sections [[], [10x10]]: index path (0,0) yields item (1,0), and (1,0) is out of range | find the row that holds the section | high; not executed | `LayoutBuild.ItemLookupAfterEmptySection` | `LayoutBuild.LookupFindsEveryItem` |
