/** Finding the rows a query rectangle touches: a binary search for one
    row, then a walk up and down from it while rows keep matching.

    Two versions live here. The search and walk as the layout writes them
    test each row with full two-dimensional intersection and steer the search
    with a strict `<`. The band versions test only the vertical span and
    steer with `<=`; on stacked rows they find exactly the rows whose vertical
    span meets the query's, which contains every row that intersects it. */
module SectionSearch {
  import opened Wrappers
  import opened Geometry

  // ---------------------------------------------------------------------
  // Binary search, as written

  /** The search between l and r, one probe per call: the middle row is the
      answer if it intersects the query; the search goes to the upper rows
      if the query ends strictly above the middle row's top edge, and to the
      lower rows otherwise. */
  function SearchBetween(query: Rect, spaces: seq<Rect>, l: int, r: int): (found: Option<nat>)
    requires 0 <= l && -1 <= r < |spaces|
    ensures found.Some? ==> l <= found.value <= r && Intersects(spaces[found.value], query)
    decreases r - l + 1
  {
    if l > r then None
    else
      var m := l + (r - l) / 2;
      if Intersects(spaces[m], query) then Some(m)
      else if query.MaxY() < spaces[m].MinY() then SearchBetween(query, spaces, l, m - 1)
      else SearchBetween(query, spaces, m + 1, r)
  }

  /** The search over all rows: nothing on no rows. */
  function FirstSectionSearch(query: Rect, spaces: seq<Rect>): (found: Option<nat>)
    ensures |spaces| == 0 ==> found == None
    ensures found.Some? ==> found.value < |spaces| && Intersects(spaces[found.value], query)
  {
    if |spaces| == 0 then None else SearchBetween(query, spaces, 0, |spaces| - 1)
  }

  /** The search loop: l and r close in on the middle row until it
      intersects the query or the range is empty. */
  method FindFirstSectionIndexBinary(query: Rect, spaces: seq<Rect>) returns (found: Option<nat>)
    ensures found == FirstSectionSearch(query, spaces)
    ensures found.Some? ==> found.value < |spaces| && Intersects(spaces[found.value], query)
  {
    if |spaces| == 0 {
      return None;
    }
    var l, r := 0, |spaces| - 1;
    while l <= r
      invariant 0 <= l && -1 <= r < |spaces|
      invariant SearchBetween(query, spaces, l, r) == FirstSectionSearch(query, spaces)
      decreases r - l
    {
      var m := l + (r - l) / 2;
      var mSpace := spaces[m];
      if Intersects(mSpace, query) {
        return Some(m);
      } else if query.MaxY() < mSpace.MinY() {
        r := m - 1;
      } else {
        l := m + 1;
      }
    }
    return None;
  }

  /** On stacked rows, a row meeting the query's vertical span comes before
      any row that starts at or below the query's bottom edge. */
  lemma RowAboveBelowQuery(spaces: seq<Rect>, query: Rect, t: nat, m: nat)
    requires Stacked(spaces) && t < |spaces| && m < |spaces|
    requires YOverlap(spaces[t], query) && query.MaxY() <= spaces[m].MinY()
    ensures t < m
  {
  }

  /** On stacked rows, a row meeting the query's vertical span comes after
      any row that ends at or above the query's top edge. */
  lemma RowBelowAboveQuery(spaces: seq<Rect>, query: Rect, t: nat, m: nat)
    requires Stacked(spaces) && t < |spaces| && m < |spaces|
    requires YOverlap(spaces[t], query) && spaces[m].MaxY() <= query.MinY()
    ensures m < t
  {
  }

  /** The search is complete when every row spans the query horizontally and
      no row starts exactly where the query ends: on stacked rows it then
      finds a row whenever one between l and r intersects the query. */
  lemma {:induction false} SearchFindsRowWhenRowsSpanQuery(query: Rect, spaces: seq<Rect>, l: int, r: int, t: int)
    requires 0 <= l && -1 <= r < |spaces|
    requires Stacked(spaces)
    requires forall i :: 0 <= i < |spaces| ==> XOverlap(spaces[i], query) && spaces[i].MinY() != query.MaxY()
    requires l <= t <= r && Intersects(spaces[t], query)
    ensures SearchBetween(query, spaces, l, r).Some?
    decreases r - l, 1
  {
    var m := l + (r - l) / 2;
    if !Intersects(spaces[m], query) {
      SearchFindsRowBeside(query, spaces, l, r, t, m);
    }
  }

  /** The step of the search past a middle row m that misses the query: when
      every row spans the query horizontally and none starts where it ends,
      the row that intersects the query lies on the side the search goes to. */
  lemma {:induction false} SearchFindsRowBeside(query: Rect, spaces: seq<Rect>, l: int, r: int, t: int, m: int)
    requires 0 <= l <= m <= r < |spaces| && m == l + (r - l) / 2
    requires Stacked(spaces)
    requires forall i :: 0 <= i < |spaces| ==> XOverlap(spaces[i], query) && spaces[i].MinY() != query.MaxY()
    requires l <= t <= r && Intersects(spaces[t], query) && !Intersects(spaces[m], query)
    ensures SearchBetween(query, spaces, l, r).Some?
    decreases r - l, 0
  {
    assert spaces[m].height >= 0.0;
    if query.MaxY() < spaces[m].MinY() {
      RowAboveBelowQuery(spaces, query, t, m);
      SearchFindsRowWhenRowsSpanQuery(query, spaces, l, m - 1, t);
    } else {
      assert XOverlap(spaces[m], query) && spaces[m].MinY() < query.MaxY();
      RowBelowAboveQuery(spaces, query, t, m);
      SearchFindsRowWhenRowsSpanQuery(query, spaces, m + 1, r, t);
    }
  }

  /** On stacked rows that all span the query horizontally, none of which
      starts exactly at the query's bottom edge, the search finds nothing
      exactly when no row intersects the query. */
  lemma SearchCompleteWhenRowsSpanQuery(query: Rect, spaces: seq<Rect>)
    requires Stacked(spaces)
    requires forall i :: 0 <= i < |spaces| ==> XOverlap(spaces[i], query) && spaces[i].MinY() != query.MaxY()
    ensures FirstSectionSearch(query, spaces) == None <==>
      forall i :: 0 <= i < |spaces| ==> !Intersects(spaces[i], query)
  {
    if exists t :: 0 <= t < |spaces| && Intersects(spaces[t], query) {
      var t :| 0 <= t < |spaces| && Intersects(spaces[t], query);
      SearchFindsRowWhenRowsSpanQuery(query, spaces, 0, |spaces| - 1, t);
    }
  }

  /** Three contiguous rows 75 high, 300, 50 and 240 wide. */
  const ExampleRows: seq<Rect> :=
    [Rect(0.0, 0.0, 300.0, 75.0), Rect(0.0, 75.0, 50.0, 75.0), Rect(0.0, 150.0, 240.0, 75.0)]

  lemma ExampleRowsStacked()
    ensures RowsContiguous(ExampleRows) && Stacked(ExampleRows)
  {
    ContiguousRowsAreStacked(ExampleRows);
  }

  /** The strict `<` sends a query whose bottom edge is the middle row's top
      edge to the lower rows: a query covering exactly the first row finds
      nothing although the first row intersects it. */
  lemma SearchMissesRowEndingAtQueryBottom()
    ensures var query := Rect(0.0, 0.0, 300.0, 75.0);
      Intersects(ExampleRows[0], query) && FirstSectionSearch(query, ExampleRows) == None
  {
    var rows, query := ExampleRows, Rect(0.0, 0.0, 300.0, 75.0);
    assert !Intersects(rows[1], query) && !(query.MaxY() < rows[1].MinY());
    assert !Intersects(rows[2], query) && query.MaxY() < rows[2].MinY();
    assert SearchBetween(query, rows, 2, 1) == None;
    assert SearchBetween(query, rows, 2, 2) == None;
    assert SearchBetween(query, rows, 0, 2) == None;
  }

  /** The search steers by vertical position only, but a probe counts as a
      hit only when it also overlaps horizontally: a narrow query at the
      right of the first row skips the short middle row downwards and finds
      nothing, although the first row intersects it. */
  lemma SearchMissesWideRowPastShortRow()
    ensures var query := Rect(260.0, 0.0, 20.0, 225.0);
      Intersects(ExampleRows[0], query) && FirstSectionSearch(query, ExampleRows) == None
  {
    var rows, query := ExampleRows, Rect(260.0, 0.0, 20.0, 225.0);
    assert !Intersects(rows[1], query) && !(query.MaxY() < rows[1].MinY());
    assert !Intersects(rows[2], query) && !(query.MaxY() < rows[2].MinY());
    assert SearchBetween(query, rows, 3, 2) == None;
    assert SearchBetween(query, rows, 2, 2) == None;
    assert SearchBetween(query, rows, 0, 2) == None;
  }

  // ---------------------------------------------------------------------
  // Binary search over vertical bands

  /** The search between l and r by vertical span only: the middle row is
      the answer if its vertical span meets the query's; the search goes to
      the upper rows if the query ends at or above the middle row's top edge. */
  function BandSearchBetween(query: Rect, spaces: seq<Rect>, l: int, r: int): (found: Option<nat>)
    requires 0 <= l && -1 <= r < |spaces|
    ensures found.Some? ==> l <= found.value <= r && YOverlap(spaces[found.value], query)
    decreases r - l + 1
  {
    if l > r then None
    else
      var m := l + (r - l) / 2;
      if YOverlap(spaces[m], query) then Some(m)
      else if query.MaxY() <= spaces[m].MinY() then BandSearchBetween(query, spaces, l, m - 1)
      else BandSearchBetween(query, spaces, m + 1, r)
  }

  function FirstRowInBand(query: Rect, spaces: seq<Rect>): (found: Option<nat>)
    ensures |spaces| == 0 ==> found == None
    ensures found.Some? ==> found.value < |spaces| && YOverlap(spaces[found.value], query)
  {
    if |spaces| == 0 then None else BandSearchBetween(query, spaces, 0, |spaces| - 1)
  }

  /** The band search loop, in the shape of the search loop above. */
  method FindFirstRowInBand(query: Rect, spaces: seq<Rect>) returns (found: Option<nat>)
    ensures found == FirstRowInBand(query, spaces)
    ensures found.Some? ==> found.value < |spaces| && YOverlap(spaces[found.value], query)
  {
    if |spaces| == 0 {
      return None;
    }
    var l, r := 0, |spaces| - 1;
    while l <= r
      invariant 0 <= l && -1 <= r < |spaces|
      invariant BandSearchBetween(query, spaces, l, r) == FirstRowInBand(query, spaces)
      decreases r - l
    {
      var m := l + (r - l) / 2;
      var mSpace := spaces[m];
      if YOverlap(mSpace, query) {
        return Some(m);
      } else if query.MaxY() <= mSpace.MinY() {
        r := m - 1;
      } else {
        l := m + 1;
      }
    }
    return None;
  }

  /** On stacked rows the band search finds a row whenever one between l
      and r meets the query's vertical span. */
  lemma {:induction false} BandSearchFindsRow(query: Rect, spaces: seq<Rect>, l: int, r: int, t: int)
    requires 0 <= l && -1 <= r < |spaces|
    requires Stacked(spaces)
    requires l <= t <= r && YOverlap(spaces[t], query)
    ensures BandSearchBetween(query, spaces, l, r).Some?
    decreases r - l, 1
  {
    var m := l + (r - l) / 2;
    if !YOverlap(spaces[m], query) {
      BandSearchFindsRowBeside(query, spaces, l, r, t, m);
    }
  }

  /** The step of the band search past a middle row m that misses the
      query's vertical span: the row that meets it lies on the side the
      search goes to. */
  lemma {:induction false} BandSearchFindsRowBeside(query: Rect, spaces: seq<Rect>, l: int, r: int, t: int, m: int)
    requires 0 <= l <= m <= r < |spaces| && m == l + (r - l) / 2
    requires Stacked(spaces)
    requires l <= t <= r && YOverlap(spaces[t], query) && !YOverlap(spaces[m], query)
    ensures BandSearchBetween(query, spaces, l, r).Some?
    decreases r - l, 0
  {
    assert spaces[m].height >= 0.0;
    if query.MaxY() <= spaces[m].MinY() {
      RowAboveBelowQuery(spaces, query, t, m);
      BandSearchFindsRow(query, spaces, l, m - 1, t);
    } else {
      RowBelowAboveQuery(spaces, query, t, m);
      BandSearchFindsRow(query, spaces, m + 1, r, t);
    }
  }

  /** On stacked rows the band search finds nothing exactly when no row's
      vertical span meets the query's, and then no row intersects the query. */
  lemma BandSearchComplete(query: Rect, spaces: seq<Rect>)
    requires Stacked(spaces)
    ensures FirstRowInBand(query, spaces) == None <==>
      forall i :: 0 <= i < |spaces| ==> !YOverlap(spaces[i], query)
    ensures FirstRowInBand(query, spaces) == None ==>
      forall i :: 0 <= i < |spaces| ==> !Intersects(spaces[i], query)
  {
    if exists t :: 0 <= t < |spaces| && YOverlap(spaces[t], query) {
      var t :| 0 <= t < |spaces| && YOverlap(spaces[t], query);
      BandSearchFindsRow(query, spaces, 0, |spaces| - 1, t);
    }
  }

  /** The band search finds the first row for the query that covers exactly
      the first row, where the search as written finds nothing. */
  lemma BandSearchFindsRowEndingAtQueryBottom()
    ensures FirstRowInBand(Rect(0.0, 0.0, 300.0, 75.0), ExampleRows) == Some(0)
  {
    var rows, query := ExampleRows, Rect(0.0, 0.0, 300.0, 75.0);
    assert !YOverlap(rows[1], query) && query.MaxY() <= rows[1].MinY();
    assert YOverlap(rows[0], query);
    assert BandSearchBetween(query, rows, 0, 0) == Some(0);
    assert BandSearchBetween(query, rows, 0, 2) == Some(0);
  }

  // ---------------------------------------------------------------------
  // The walk around the row found

  /** Which test a row must pass to be collected: intersection with the
      query, as the layout writes it, or overlap with its vertical span. */
  datatype RowTest = Intersecting | InBand

  predicate Hit(test: RowTest, row: Rect, query: Rect) {
    match test
    case Intersecting => Intersects(row, query)
    case InBand => YOverlap(row, query)
  }

  /** The first row of the run of passing rows that ends just before row i:
      every row from it up to i - 1 passes, and the row before it does not
      or there is none. */
  function RunStart(test: RowTest, rects: seq<Rect>, query: Rect, i: nat): (lo: nat)
    requires i < |rects|
    ensures lo <= i
    ensures lo == 0 || !Hit(test, rects[lo - 1], query)
  {
    if i == 0 || !Hit(test, rects[i - 1], query) then i else RunStart(test, rects, query, i - 1)
  }

  /** Every row of the run before row i passes. */
  lemma {:induction false} RunStartPasses(test: RowTest, rects: seq<Rect>, query: Rect, i: nat)
    requires i < |rects|
    ensures forall k :: RunStart(test, rects, query, i) <= k < i ==> Hit(test, rects[k], query)
  {
    if i > 0 && Hit(test, rects[i - 1], query) {
      RunStartPasses(test, rects, query, i - 1);
    }
  }

  /** The last row of the run of passing rows that starts just after row i:
      every row after i up to it passes, and the row after it does not or
      there is none. */
  function RunEnd(test: RowTest, rects: seq<Rect>, query: Rect, i: nat): (hi: nat)
    requires i < |rects|
    ensures i <= hi < |rects|
    ensures hi == |rects| - 1 || !Hit(test, rects[hi + 1], query)
    decreases |rects| - i
  {
    if i == |rects| - 1 || !Hit(test, rects[i + 1], query) then i else RunEnd(test, rects, query, i + 1)
  }

  /** Every row of the run after row i passes. */
  lemma {:induction false} RunEndPasses(test: RowTest, rects: seq<Rect>, query: Rect, i: nat)
    requires i < |rects|
    ensures forall k :: i < k <= RunEnd(test, rects, query, i) ==> Hit(test, rects[k], query)
    decreases |rects| - i
  {
    if i < |rects| - 1 && Hit(test, rects[i + 1], query) {
      RunEndPasses(test, rects, query, i + 1);
    }
  }

  /** a, a + 1, ..., b - 1. */
  function Range(a: nat, b: nat): (r: seq<nat>)
    ensures |r| == if a <= b then b - a else 0
    decreases b
  {
    if b <= a then [] else Range(a, b - 1) + [b - 1]
  }

  /** b - 1, b - 2, ..., a. */
  function Countdown(a: nat, b: nat): (r: seq<nat>)
    ensures |r| == if a <= b then b - a else 0
    decreases b - a
  {
    if b <= a then [] else Countdown(a + 1, b) + [a]
  }

  /** The walk back: rows first - 1, first - 2, ... while they pass. */
  method WalkBack(test: RowTest, rects: seq<Rect>, query: Rect, first: nat) returns (indexes: seq<nat>)
    requires first < |rects|
    ensures indexes == Countdown(RunStart(test, rects, query, first), first)
  {
    indexes := [];
    var i: nat := first;
    while i > 0
      invariant i <= first
      invariant RunStart(test, rects, query, i) == RunStart(test, rects, query, first)
      invariant indexes == Countdown(i, first)
      decreases i
    {
      if !Hit(test, rects[i - 1], query) {
        break;
      }
      assert Countdown(i - 1, first) == Countdown(i, first) + [i - 1];
      indexes := indexes + [i - 1];
      i := i - 1;
    }
    assert RunStart(test, rects, query, first) == i;
  }

  /** The walk on: rows first + 1, first + 2, ... while they pass. */
  method WalkOn(test: RowTest, rects: seq<Rect>, query: Rect, first: nat) returns (indexes: seq<nat>)
    requires first < |rects|
    ensures indexes == Range(first + 1, RunEnd(test, rects, query, first) + 1)
  {
    indexes := [];
    var j := first + 1;
    while j < |rects|
      invariant first < j <= |rects|
      invariant RunEnd(test, rects, query, j - 1) == RunEnd(test, rects, query, first)
      invariant indexes == Range(first + 1, j)
      decreases |rects| - j
    {
      if !Hit(test, rects[j], query) {
        break;
      }
      indexes := indexes + [j];
      j := j + 1;
    }
    assert RunEnd(test, rects, query, first) == j - 1;
  }

  /** The walk: from row first back towards row 0 while rows pass, then row
      first itself, then on towards the last row while rows pass. */
  method CollectRun(test: RowTest, rects: seq<Rect>, query: Rect, first: nat) returns (indexes: seq<nat>)
    requires first < |rects|
    ensures indexes ==
      Countdown(RunStart(test, rects, query, first), first) + Range(first, RunEnd(test, rects, query, first) + 1)
  {
    var back := WalkBack(test, rects, query, first);
    var on := WalkOn(test, rects, query, first);
    RangeFront(first, RunEnd(test, rects, query, first) + 1);
    indexes := back + [first] + on;
  }

  predicate StrictlyIncreasing(s: seq<nat>) {
    forall a, b :: 0 <= a < b < |s| ==> s[a] < s[b]
  }

  /** Element k of a, a + 1, ..., b - 1 is a + k. */
  lemma {:induction false} RangeAt(a: nat, b: nat, k: nat)
    requires a + k < b
    ensures Range(a, b)[k] == a + k
  {
    if a + k < b - 1 {
      RangeAt(a, b - 1, k);
    }
  }

  lemma RangeFront(a: nat, b: nat)
    requires a < b
    ensures Range(a, b) == [a] + Range(a + 1, b)
  {
    var r, r' := Range(a, b), [a] + Range(a + 1, b);
    assert |r| == |r'|;
    forall k | 0 <= k < |r| ensures r[k] == r'[k] {
      RangeAt(a, b, k);
      if k > 0 {
        RangeAt(a + 1, b, k - 1);
        assert r'[k] == Range(a + 1, b)[k - 1];
      }
    }
  }

  /** a, ..., m - 1 followed by m, ..., b - 1 is a, ..., b - 1. */
  lemma {:induction false} RangeSplit(a: nat, m: nat, b: nat)
    requires a <= m <= b
    ensures Range(a, m) + Range(m, b) == Range(a, b)
  {
    if m < b {
      RangeSplit(a, m, b - 1);
      assert Range(a, m) + (Range(m, b - 1) + [b - 1]) == (Range(a, m) + Range(m, b - 1)) + [b - 1];
    }
  }

  /** Counting down from b - 1 to a meets each row of a, ..., b - 1 once. */
  lemma {:induction false} CountdownPermutesRange(a: nat, b: nat)
    ensures multiset(Countdown(a, b)) == multiset(Range(a, b))
    decreases b - a
  {
    if a < b {
      CountdownPermutesRange(a + 1, b);
      RangeFront(a, b);
      assert multiset(Countdown(a + 1, b) + [a]) == multiset(Countdown(a + 1, b)) + multiset{a};
      assert multiset([a] + Range(a + 1, b)) == multiset{a} + multiset(Range(a + 1, b));
    }
  }

  lemma RangeIncreasing(a: nat, b: nat)
    ensures StrictlyIncreasing(Range(a, b))
  {
    var range := Range(a, b);
    forall i, j | 0 <= i < j < |range| ensures range[i] < range[j] {
      RangeAt(a, b, i);
      RangeAt(a, b, j);
    }
  }

  /** Sorting the collected rows gives lo, lo + 1, ..., hi: the collected
      rows are that range, each once, and the range is strictly increasing. */
  lemma CollectedRunSorts(lo: nat, first: nat, hi: nat)
    requires lo <= first <= hi
    ensures multiset(Countdown(lo, first) + Range(first, hi + 1)) == multiset(Range(lo, hi + 1))
    ensures StrictlyIncreasing(Range(lo, hi + 1))
  {
    RangeIncreasing(lo, hi + 1);
    CountdownPermutesRange(lo, first);
    RangeSplit(lo, first, hi + 1);
    assert multiset(Countdown(lo, first) + Range(first, hi + 1)) ==
      multiset(Countdown(lo, first)) + multiset(Range(first, hi + 1));
    assert multiset(Range(lo, first) + Range(first, hi + 1)) ==
      multiset(Range(lo, first)) + multiset(Range(first, hi + 1));
  }

  /** The walk as written stops at the first row that misses the query in
      either direction: from the third example row, found by the search for
      a narrow query, it stops at the short middle row and never reaches the
      first row, which intersects the query. */
  lemma WalkStopsAtShortRow()
    ensures var query := Rect(100.0, 0.0, 20.0, 225.0);
      && FirstSectionSearch(query, ExampleRows) == Some(2)
      && RunStart(Intersecting, ExampleRows, query, 2) == 2
      && Intersects(ExampleRows[0], query)
  {
    var rows, query := ExampleRows, Rect(100.0, 0.0, 20.0, 225.0);
    assert !Intersects(rows[1], query) && !(query.MaxY() < rows[1].MinY());
    assert Intersects(rows[2], query);
    assert SearchBetween(query, rows, 2, 2) == Some(2);
    assert SearchBetween(query, rows, 0, 2) == Some(2);
    assert !Hit(Intersecting, rows[1], query);
  }

  /** A run reaches back to row t when every row from t up to i - 1 passes. */
  lemma {:induction false} RunStartReaches(test: RowTest, rects: seq<Rect>, query: Rect, i: nat, t: nat)
    requires t <= i < |rects|
    requires forall k :: t <= k < i ==> Hit(test, rects[k], query)
    ensures RunStart(test, rects, query, i) <= t
  {
    if t < i {
      RunStartReaches(test, rects, query, i - 1, t);
    }
  }

  /** A run reaches on to row t when every row after i up to t passes. */
  lemma {:induction false} RunEndReaches(test: RowTest, rects: seq<Rect>, query: Rect, i: nat, t: nat)
    requires i <= t < |rects|
    requires forall k :: i < k <= t ==> Hit(test, rects[k], query)
    ensures t <= RunEnd(test, rects, query, i)
    decreases t - i
  {
    if i < t {
      RunEndReaches(test, rects, query, i + 1, t);
    }
  }

  /** Stacked rows whose vertical spans meet the query's form one block: a
      row between two such rows is such a row too. */
  lemma BandIsContiguous(rects: seq<Rect>, query: Rect, i: nat, j: nat, k: nat)
    requires Stacked(rects)
    requires i < j < k < |rects|
    requires YOverlap(rects[i], query) && YOverlap(rects[k], query)
    ensures YOverlap(rects[j], query)
  {
    assert rects[i].MaxY() <= rects[j].MinY() && rects[j].MaxY() <= rects[k].MinY();
  }

  /** On stacked rows, a row whose vertical span meets the query's lies in
      the band run around any other such row. */
  lemma BandRowInRun(rects: seq<Rect>, query: Rect, first: nat, i: nat)
    requires Stacked(rects)
    requires first < |rects| && i < |rects|
    requires YOverlap(rects[first], query) && YOverlap(rects[i], query)
    ensures RunStart(InBand, rects, query, first) <= i <= RunEnd(InBand, rects, query, first)
  {
    if i < first {
      forall k | i < k < first ensures YOverlap(rects[k], query) {
        BandIsContiguous(rects, query, i, k, first);
      }
      RunStartReaches(InBand, rects, query, first, i);
    } else if first < i {
      forall k | first < k < i ensures YOverlap(rects[k], query) {
        BandIsContiguous(rects, query, first, k, i);
      }
      RunEndReaches(InBand, rects, query, first, i);
    }
  }

  /** The rows the band search and walk collect are exactly the rows whose
      vertical span meets the query's, so every row that intersects the
      query is among them. */
  lemma BandRunIsExact(rects: seq<Rect>, query: Rect)
    requires Stacked(rects)
    ensures FirstRowInBand(query, rects).Some? ==>
      var first := FirstRowInBand(query, rects).value;
      var lo, hi := RunStart(InBand, rects, query, first), RunEnd(InBand, rects, query, first);
      forall i :: 0 <= i < |rects| ==> (YOverlap(rects[i], query) <==> lo <= i <= hi)
    ensures FirstRowInBand(query, rects).Some? ==>
      var first := FirstRowInBand(query, rects).value;
      var lo, hi := RunStart(InBand, rects, query, first), RunEnd(InBand, rects, query, first);
      forall i :: 0 <= i < |rects| && Intersects(rects[i], query) ==> lo <= i <= hi
  {
    if FirstRowInBand(query, rects).Some? {
      var first := FirstRowInBand(query, rects).value;
      RunStartPasses(InBand, rects, query, first);
      RunEndPasses(InBand, rects, query, first);
      forall i | 0 <= i < |rects| && YOverlap(rects[i], query)
        ensures RunStart(InBand, rects, query, first) <= i <= RunEnd(InBand, rects, query, first)
      {
        BandRowInRun(rects, query, first, i);
      }
    }
  }

  /** The rows a query visits, first and last: the run of rows in the
      query's vertical span around the row the band search finds, or none
      when the search finds nothing. */
  function VisitRange(query: Rect, rects: seq<Rect>): (run: Option<(nat, nat)>)
    ensures run.None? <==> FirstRowInBand(query, rects).None?
    ensures run.Some? ==> run.value.0 <= run.value.1 < |rects|
  {
    match FirstRowInBand(query, rects)
    case None => None
    case Some(first) => Some((RunStart(InBand, rects, query, first), RunEnd(InBand, rects, query, first)))
  }

  /** The search, the walk in both directions and the sort of the collected
      rows: sorted, the collected rows are first, first + 1, ..., last. */
  method RowsToVisit(query: Rect, rects: seq<Rect>) returns (run: Option<(nat, nat)>)
    ensures run == VisitRange(query, rects)
  {
    var found := FindFirstRowInBand(query, rects);
    if found.None? {
      return None;
    }
    var first := found.value;
    var indexes := CollectRun(InBand, rects, query, first);
    var lo, hi := RunStart(InBand, rects, query, first), RunEnd(InBand, rects, query, first);
    CollectedRunSorts(lo, first, hi);
    assert multiset(indexes) == multiset(Range(lo, hi + 1)) && StrictlyIncreasing(Range(lo, hi + 1));
    return Some((lo, hi));
  }

  /** The band walk collects the first example row for the narrow query the
      walk as written misses it for. */
  lemma BandWalkReachesFirstRow()
    ensures var query := Rect(100.0, 0.0, 20.0, 225.0);
      && FirstRowInBand(query, ExampleRows) == Some(1)
      && RunStart(InBand, ExampleRows, query, 1) == 0
      && RunEnd(InBand, ExampleRows, query, 1) == 2
  {
    var rows, query := ExampleRows, Rect(100.0, 0.0, 20.0, 225.0);
    assert YOverlap(rows[0], query) && YOverlap(rows[1], query) && YOverlap(rows[2], query);
    assert BandSearchBetween(query, rows, 0, 2) == Some(1);
    assert RunStart(InBand, rows, query, 0) == 0;
    assert RunEnd(InBand, rows, query, 2) == 2;
  }
}
