/** The full geometry build of the schedule layout: every row's items are laid
    out left to right from x = 0, rows are stacked top to bottom, empty rows
    are skipped, and the content bounds are the union of the row rectangles.
    The functions here follow the build's two nested loops step by step; the
    lemmas state what the result is, in terms of the sizes alone. */
module LayoutBuild {
  import opened Wrappers
  import opened Geometry

  /** Identity of an item: its section (row) and its index within the section. */
  datatype IndexPath = IndexPath(section: nat, item: nat)

  datatype ElementKind = Cell | TimeBarDecoration

  /** Layout attributes of one element: what the renderer is told. */
  datatype Attributes = Attributes(kind: ElementKind, indexPath: IndexPath, frame: Rect, zIndex: int)

  /** The layout's geometry: per kept row its item attributes and its
      rectangle, the as-built frame of every item, and the content bounds. */
  datatype Layout = Layout(
    items: seq<seq<Attributes>>,
    sectionRects: seq<Rect>,
    originalFrame: map<IndexPath, Rect>,
    contentBounds: Rect)

  /** The geometry after some sections, with the running vertical offset. */
  datatype BuildState = BuildState(layout: Layout, yOffset: real)

  const EmptyLayout: Layout := Layout([], [], map[], Zero)

  /** Sum of the widths of the first n items of a row. */
  function RowX(row: seq<Size>, n: nat): real
    requires n <= |row|
  {
    if n == 0 then 0.0 else RowX(row, n - 1) + row[n - 1].width
  }

  /** Frame of item j of a row whose top edge is at y. */
  function CellFrame(row: seq<Size>, j: nat, y: real): Rect
    requires j < |row|
  {
    Rect(RowX(row, j), y, row[j].width, row[j].height)
  }

  function CellAttributes(row: seq<Size>, section: nat, j: nat, y: real): Attributes
    requires j < |row|
  {
    Attributes(Cell, IndexPath(section, j), CellFrame(row, j, y), 0)
  }

  /** The attributes of the first n items of a row, as the inner loop appends
      them: item j is the cell laid out at position j. */
  function RowAttributes(row: seq<Size>, section: nat, y: real, n: nat): (r: seq<Attributes>)
    requires n <= |row|
    ensures |r| == n
    ensures forall j :: 0 <= j < n ==> r[j] == CellAttributes(row, section, j, y)
  {
    if n == 0 then [] else RowAttributes(row, section, y, n - 1) + [CellAttributes(row, section, n - 1, y)]
  }

  /** The as-built frame cache after recording the first n items of a row. */
  function RecordFrames(orig: map<IndexPath, Rect>, row: seq<Size>, section: nat, y: real, n: nat): map<IndexPath, Rect>
    requires n <= |row|
  {
    if n == 0 then orig
    else RecordFrames(orig, row, section, y, n - 1)[IndexPath(section, n - 1) := CellFrame(row, n - 1, y)]
  }

  /** Recording a row's frames adds exactly the row's index paths, each with
      its frame, and keeps every entry of other sections. */
  lemma {:induction false} RecordFramesFacts(orig: map<IndexPath, Rect>, row: seq<Size>, section: nat, y: real, n: nat)
    requires n <= |row|
    ensures var r := RecordFrames(orig, row, section, y, n);
      && (forall ip :: ip in orig ==> ip in r)
      && (forall ip :: ip in r ==> ip in orig || (ip.section == section && ip.item < n))
      && (forall j :: 0 <= j < n ==> IndexPath(section, j) in r && r[IndexPath(section, j)] == CellFrame(row, j, y))
      && (forall ip :: ip in orig && ip.section != section ==> r[ip] == orig[ip])
  {
    if n > 0 {
      RecordFramesFacts(orig, row, section, y, n - 1);
    }
  }

  /** The rectangle of a non-empty row: from x = 0 across all its items, as
      tall as its first item. */
  function RowRect(row: seq<Size>, y: real): Rect
    requires |row| > 0
  {
    Rect(0.0, y, RowX(row, |row|), row[0].height)
  }

  /** The state after the outer loop has run over sections 0 .. n-1. */
  function BuildSections(sizes: seq<seq<Size>>, n: nat): BuildState
    requires n <= |sizes|
  {
    if n == 0 then BuildState(EmptyLayout, 0.0)
    else
      var st := BuildSections(sizes, n - 1);
      var row := sizes[n - 1];
      var L := st.layout;
      if |row| == 0 then st
      else
        var rect := RowRect(row, st.yOffset);
        BuildState(
          Layout(
            L.items + [RowAttributes(row, n - 1, st.yOffset, |row|)],
            L.sectionRects + [rect],
            RecordFrames(L.originalFrame, row, n - 1, st.yOffset, |row|),
            Union(L.contentBounds, rect)),
          st.yOffset + row[0].height)
  }

  /** The geometry a full build produces from the sizes the delegate reports. */
  function Build(sizes: seq<seq<Size>>): Layout {
    BuildSections(sizes, |sizes|).layout
  }

  // ---------------------------------------------------------------------
  // Reference definitions, independent of the loops

  /** Height of a row: its first item's height, zero for an empty row. */
  function RowHeight(row: seq<Size>): real {
    if |row| == 0 then 0.0 else row[0].height
  }

  /** Top edge of section s: the heights of all earlier rows added up. */
  function YOffsetBefore(sizes: seq<seq<Size>>, s: nat): real
    requires s <= |sizes|
  {
    if s == 0 then 0.0 else YOffsetBefore(sizes, s - 1) + RowHeight(sizes[s - 1])
  }

  /** Number of non-empty sections before section s. */
  function KeptBefore(sizes: seq<seq<Size>>, s: nat): (c: nat)
    requires s <= |sizes|
    ensures c <= s
  {
    if s == 0 then 0 else KeptBefore(sizes, s - 1) + (if |sizes[s - 1]| > 0 then 1 else 0)
  }

  /** The widest of the first s rows, and at least zero. */
  function WidestRow(sizes: seq<seq<Size>>, s: nat): real
    requires s <= |sizes|
  {
    if s == 0 then 0.0 else Max(WidestRow(sizes, s - 1), RowX(sizes[s - 1], |sizes[s - 1]|))
  }

  predicate NonNegativeSizes(sizes: seq<seq<Size>>) {
    forall s, j :: 0 <= s < |sizes| && 0 <= j < |sizes[s]| ==>
      sizes[s][j].width >= 0.0 && sizes[s][j].height >= 0.0
  }

  /** Every kept row is non-empty and holds cells with z-index 0 whose index
      paths are (section, 0), (section, 1), ...; sections strictly increase
      from row to row. */
  predicate RowMajor(items: seq<seq<Attributes>>) {
    (forall k :: 0 <= k < |items| ==> |items[k]| > 0) &&
    (forall k, j :: 0 <= k < |items| && 0 <= j < |items[k]| ==>
      items[k][j].kind == Cell && items[k][j].zIndex == 0 &&
      items[k][j].indexPath == IndexPath(items[k][0].indexPath.section, j)) &&
    (forall k1, k2 :: 0 <= k1 < k2 < |items| ==>
      items[k1][0].indexPath.section < items[k2][0].indexPath.section)
  }

  /** The as-built cache holds every item's frame under its index path. */
  predicate AsBuilt(items: seq<seq<Attributes>>, orig: map<IndexPath, Rect>) {
    forall k, j :: 0 <= k < |items| && 0 <= j < |items[k]| ==>
      items[k][j].indexPath in orig && orig[items[k][j].indexPath] == items[k][j].frame
  }

  // ---------------------------------------------------------------------
  // What the build produces

  /** An empty section leaves the build state as it was. */
  lemma StepEmpty(sizes: seq<seq<Size>>, n: nat)
    requires 0 < n <= |sizes| && |sizes[n - 1]| == 0
    ensures BuildSections(sizes, n) == BuildSections(sizes, n - 1)
  {
  }

  /** A non-empty section appends one row of attributes and one row
      rectangle, records the row's frames, grows the content bounds and
      moves the offset down by the row's height. */
  lemma StepRow(sizes: seq<seq<Size>>, n: nat)
    requires 0 < n <= |sizes| && |sizes[n - 1]| > 0
    ensures var st := BuildSections(sizes, n - 1); var L := st.layout; var row := sizes[n - 1];
      var L' := BuildSections(sizes, n).layout;
      && L'.items == L.items + [RowAttributes(row, n - 1, st.yOffset, |row|)]
      && L'.sectionRects == L.sectionRects + [RowRect(row, st.yOffset)]
      && L'.originalFrame == RecordFrames(L.originalFrame, row, n - 1, st.yOffset, |row|)
      && L'.contentBounds == Union(L.contentBounds, RowRect(row, st.yOffset))
      && BuildSections(sizes, n).yOffset == st.yOffset + row[0].height
  {
  }

  /** A non-empty section appends its row of attributes and records its
      frames; the rest of the step is left out of this statement. */
  lemma StepItems(sizes: seq<seq<Size>>, n: nat)
    requires 0 < n <= |sizes| && |sizes[n - 1]| > 0
    ensures var st := BuildSections(sizes, n - 1); var row := sizes[n - 1];
      var L' := BuildSections(sizes, n).layout;
      && L'.items == st.layout.items + [RowAttributes(row, n - 1, st.yOffset, |row|)]
      && L'.originalFrame == RecordFrames(st.layout.originalFrame, row, n - 1, st.yOffset, |row|)
  {
  }

  /** The running offset after the first n sections is the top edge of
      section n, and one row is kept per non-empty section. */
  lemma {:induction false} BuildOffsets(sizes: seq<seq<Size>>, n: nat)
    requires n <= |sizes|
    ensures var st := BuildSections(sizes, n); var L := st.layout;
      st.yOffset == YOffsetBefore(sizes, n) &&
      |L.items| == |L.sectionRects| == KeptBefore(sizes, n)
  {
    if n > 0 {
      BuildOffsets(sizes, n - 1);
      var st := BuildSections(sizes, n - 1);
      var row := sizes[n - 1];
      if |row| == 0 {
        assert BuildSections(sizes, n) == st;
      } else {
        var st' := BuildSections(sizes, n);
        assert st'.yOffset == st.yOffset + row[0].height;
        assert |st'.layout.items| == |st.layout.items| + 1;
        assert |st'.layout.sectionRects| == |st.layout.sectionRects| + 1;
      }
    }
  }

  /** The row rectangles of a build state are contiguous from y = 0 down to
      its running offset. */
  ghost predicate ContiguousTo(st: BuildState) {
    var rects := st.layout.sectionRects;
    && RowsContiguous(rects)
    && (|rects| == 0 ==> st.yOffset == 0.0)
    && (|rects| > 0 ==> rects[0].MinY() == 0.0 && rects[|rects| - 1].MaxY() == st.yOffset)
  }

  /** A non-empty section keeps the row rectangles contiguous down to the
      running offset. */
  lemma ContiguousStep(sizes: seq<seq<Size>>, n: nat)
    requires 0 < n <= |sizes| && |sizes[n - 1]| > 0
    requires ContiguousTo(BuildSections(sizes, n - 1))
    ensures ContiguousTo(BuildSections(sizes, n))
  {
    var st := BuildSections(sizes, n - 1);
    var rects := st.layout.sectionRects;
    var row := sizes[n - 1];
    StepRow(sizes, n);
    var rects' := rects + [RowRect(row, st.yOffset)];
    assert RowsContiguous(rects') by {
      forall i, j | 0 <= i < j < |rects'| && j == i + 1 ensures rects'[i].MaxY() == rects'[j].MinY() {
        if j < |rects| {
          assert rects'[i] == rects[i] && rects'[j] == rects[j];
        }
      }
    }
  }

  /** Row rectangles are contiguous from y = 0 down to the running offset
      after any number of sections. */
  lemma {:induction false} BuildContiguous(sizes: seq<seq<Size>>, n: nat)
    requires n <= |sizes|
    ensures ContiguousTo(BuildSections(sizes, n))
  {
    if n > 0 {
      BuildContiguous(sizes, n - 1);
      if |sizes[n - 1]| == 0 {
        StepEmpty(sizes, n);
      } else {
        ContiguousStep(sizes, n);
      }
    }
  }

  /** The content bounds are the union of the row rectangles. */
  lemma {:induction false} BuildHull(sizes: seq<seq<Size>>, n: nat)
    requires n <= |sizes|
    ensures var L := BuildSections(sizes, n).layout; L.contentBounds == Hull(L.sectionRects)
  {
    if n > 0 {
      BuildHull(sizes, n - 1);
      var st := BuildSections(sizes, n - 1);
      var L := st.layout;
      var row := sizes[n - 1];
      if |row| == 0 {
        StepEmpty(sizes, n);
      } else {
        StepRow(sizes, n);
        var rects' := L.sectionRects + [RowRect(row, st.yOffset)];
        assert rects'[..|rects'| - 1] == L.sectionRects;
      }
    }
  }

  /** Rows and offsets after the first n sections: one rectangle per kept
      row, rectangles contiguous from y = 0 down to the running offset, and
      the content bounds the union of the row rectangles. */
  lemma BuildRows(sizes: seq<seq<Size>>, n: nat)
    requires n <= |sizes|
    ensures var st := BuildSections(sizes, n); var L := st.layout;
      && st.yOffset == YOffsetBefore(sizes, n)
      && |L.items| == |L.sectionRects| == KeptBefore(sizes, n)
      && RowsContiguous(L.sectionRects)
      && (|L.sectionRects| == 0 ==> st.yOffset == 0.0)
      && (|L.sectionRects| > 0 ==>
            L.sectionRects[0].MinY() == 0.0 &&
            L.sectionRects[|L.sectionRects| - 1].MaxY() == st.yOffset)
      && L.contentBounds == Hull(L.sectionRects)
  {
    BuildOffsets(sizes, n);
    BuildContiguous(sizes, n);
    BuildHull(sizes, n);
  }

  /** Appending a non-empty row of section s keeps the rows in row-major
      order, as long as every earlier row belongs to an earlier section. */
  lemma RowMajorAppend(items: seq<seq<Attributes>>, row: seq<Size>, s: nat, y: real)
    requires |row| > 0
    requires RowMajor(items)
    requires forall k :: 0 <= k < |items| ==> items[k][0].indexPath.section < s
    ensures var items' := items + [RowAttributes(row, s, y, |row|)];
      && RowMajor(items')
      && (forall k :: 0 <= k < |items'| ==> items'[k][0].indexPath.section < s + 1)
  {
    var items': seq<seq<Attributes>> := items + [RowAttributes(row, s, y, |row|)];
    forall k1: int, k2: int | 0 <= k1 < k2 < |items'|
      ensures items'[k1][0].indexPath.section < items'[k2][0].indexPath.section
    {
      assert items'[k1] == items[k1];
      if k2 < |items| {
        assert items'[k2] == items[k2];
      }
    }
    forall k: int, j: int | 0 <= k < |items'| && 0 <= j < |items'[k]|
      ensures items'[k][j].kind == Cell && items'[k][j].zIndex == 0
      ensures items'[k][j].indexPath == IndexPath(items'[k][0].indexPath.section, j)
    {
      if k < |items| { assert items'[k] == items[k]; }
    }
    forall k: int | 0 <= k < |items'| ensures items'[k][0].indexPath.section < s + 1 {
      if k < |items| { assert items'[k] == items[k]; }
    }
  }

  /** A non-empty section keeps the built rows in row-major order. */
  lemma RowMajorStep(sizes: seq<seq<Size>>, n: nat)
    requires 0 < n <= |sizes| && |sizes[n - 1]| > 0
    requires var items := BuildSections(sizes, n - 1).layout.items;
      RowMajor(items) && forall k :: 0 <= k < |items| ==> items[k][0].indexPath.section < n - 1
    ensures var items := BuildSections(sizes, n).layout.items;
      RowMajor(items) && forall k :: 0 <= k < |items| ==> items[k][0].indexPath.section < n
  {
    var st := BuildSections(sizes, n - 1);
    StepItems(sizes, n);
    RowMajorAppend(st.layout.items, sizes[n - 1], n - 1, st.yOffset);
  }

  /** Items after the first n sections are in row-major order and every
      section they come from is below n. */
  lemma {:induction false} BuildRowMajor(sizes: seq<seq<Size>>, n: nat)
    requires n <= |sizes|
    ensures var L := BuildSections(sizes, n).layout;
      && RowMajor(L.items)
      && (forall k :: 0 <= k < |L.items| ==> L.items[k][0].indexPath.section < n)
  {
    if n > 0 {
      BuildRowMajor(sizes, n - 1);
      if |sizes[n - 1]| == 0 {
        StepEmpty(sizes, n);
      } else {
        RowMajorStep(sizes, n);
      }
    }
  }

  /** Appending a row of section s and recording its frames keeps the cache
      complete, as long as the cache holds earlier sections only. */
  lemma AsBuiltAppend(items: seq<seq<Attributes>>, orig: map<IndexPath, Rect>, row: seq<Size>, s: nat, y: real)
    requires |row| > 0
    requires AsBuilt(items, orig)
    requires forall ip :: ip in orig ==> ip.section < s
    ensures var orig' := RecordFrames(orig, row, s, y, |row|);
      && AsBuilt(items + [RowAttributes(row, s, y, |row|)], orig')
      && (forall ip :: ip in orig' ==> ip.section < s + 1)
  {
    var items': seq<seq<Attributes>> := items + [RowAttributes(row, s, y, |row|)];
    var orig': map<IndexPath, Rect> := RecordFrames(orig, row, s, y, |row|);
    RecordFramesFacts(orig, row, s, y, |row|);
    forall k: int, j: int | 0 <= k < |items'| && 0 <= j < |items'[k]|
      ensures items'[k][j].indexPath in orig' && orig'[items'[k][j].indexPath] == items'[k][j].frame
    {
      if k < |items| {
        assert items'[k] == items[k];
      } else {
        assert items'[k][j] == CellAttributes(row, s, j, y);
      }
    }
  }

  /** A non-empty section keeps the cache complete and holding frames of
      processed sections only. */
  lemma AsBuiltStep(sizes: seq<seq<Size>>, n: nat)
    requires 0 < n <= |sizes| && |sizes[n - 1]| > 0
    requires var L := BuildSections(sizes, n - 1).layout;
      AsBuilt(L.items, L.originalFrame) && forall ip :: ip in L.originalFrame ==> ip.section < n - 1
    ensures var L := BuildSections(sizes, n).layout;
      AsBuilt(L.items, L.originalFrame) && forall ip :: ip in L.originalFrame ==> ip.section < n
  {
    var st := BuildSections(sizes, n - 1);
    StepItems(sizes, n);
    AsBuiltAppend(st.layout.items, st.layout.originalFrame, sizes[n - 1], n - 1, st.yOffset);
  }

  /** After the first n sections the cache holds each item's frame under
      its index path, and frames of sections below n only. */
  lemma {:induction false} BuildAsBuilt(sizes: seq<seq<Size>>, n: nat)
    requires n <= |sizes|
    ensures var L := BuildSections(sizes, n).layout;
      && AsBuilt(L.items, L.originalFrame)
      && (forall ip :: ip in L.originalFrame ==> ip.section < n)
  {
    if n > 0 {
      BuildAsBuilt(sizes, n - 1);
      if |sizes[n - 1]| == 0 {
        StepEmpty(sizes, n);
      } else {
        AsBuiltStep(sizes, n);
      }
    }
  }

  /** Items after the first n sections are in row-major order, every section
      they come from is below n, and the cache holds each item's frame. */
  lemma BuildItems(sizes: seq<seq<Size>>, n: nat)
    requires n <= |sizes|
    ensures var L := BuildSections(sizes, n).layout;
      && RowMajor(L.items)
      && AsBuilt(L.items, L.originalFrame)
      && (forall k :: 0 <= k < |L.items| ==> L.items[k][0].indexPath.section < n)
  {
    BuildRowMajor(sizes, n);
    BuildAsBuilt(sizes, n);
  }

  /** Sections processed later only append to the rows and rectangles of
      sections processed earlier. */
  lemma {:induction false} BuildExtends(sizes: seq<seq<Size>>, m: nat, n: nat)
    requires m <= n <= |sizes|
    ensures var A := BuildSections(sizes, m).layout; var B := BuildSections(sizes, n).layout;
      |A.items| <= |B.items| && |A.sectionRects| <= |B.sectionRects| &&
      B.items[..|A.items|] == A.items && B.sectionRects[..|A.sectionRects|] == A.sectionRects
  {
    if m < n {
      BuildExtends(sizes, m, n - 1);
      var A := BuildSections(sizes, m).layout;
      var P := BuildSections(sizes, n - 1).layout;
      var B := BuildSections(sizes, n).layout;
      if |sizes[n - 1]| == 0 {
        StepEmpty(sizes, n);
      } else {
        StepRow(sizes, n);
        assert B.items[..|P.items|] == P.items;
        assert B.items[..|A.items|] == P.items[..|A.items|];
        assert B.sectionRects[..|P.sectionRects|] == P.sectionRects;
        assert B.sectionRects[..|A.sectionRects|] == P.sectionRects[..|A.sectionRects|];
      }
    }
  }

  /** Item placement: item j of a non-empty section s sits in kept row
      KeptBefore(sizes, s), at x = the widths of items 0 .. j-1 added up and at
      the section's top edge, with the size the delegate reported; the cache
      holds that same frame; and the row's rectangle starts at x = 0, spans the
      whole row and is as tall as the first item. */
  lemma ItemPlacement(sizes: seq<seq<Size>>, s: nat, j: nat)
    requires s < |sizes| && j < |sizes[s]|
    ensures var L := Build(sizes); var k := KeptBefore(sizes, s); var y := YOffsetBefore(sizes, s);
      && k < |L.items| == |L.sectionRects|
      && |L.items[k]| == |sizes[s]|
      && L.items[k][j] == Attributes(Cell, IndexPath(s, j), Rect(RowX(sizes[s], j), y, sizes[s][j].width, sizes[s][j].height), 0)
      && IndexPath(s, j) in L.originalFrame
      && L.originalFrame[IndexPath(s, j)] == L.items[k][j].frame
      && L.sectionRects[k] == Rect(0.0, y, RowX(sizes[s], |sizes[s]|), sizes[s][0].height)
  {
    RowOfSection(sizes, s);
    BuildAsBuilt(sizes, |sizes|);
  }

  /** The row of a non-empty section s is kept row KeptBefore(sizes, s) of
      the build, with its rectangle at the same index. */
  lemma RowOfSection(sizes: seq<seq<Size>>, s: nat)
    requires s < |sizes| && |sizes[s]| > 0
    ensures var L := Build(sizes); var k, y := KeptBefore(sizes, s), YOffsetBefore(sizes, s);
      && k < |L.items| == |L.sectionRects|
      && L.items[k] == RowAttributes(sizes[s], s, y, |sizes[s]|)
      && L.sectionRects[k] == RowRect(sizes[s], y)
  {
    var k := KeptBefore(sizes, s);
    var P := BuildSections(sizes, s + 1).layout;
    var L := Build(sizes);
    LastRowOfPrefix(sizes, s);
    BuildExtends(sizes, s + 1, |sizes|);
    BuildOffsets(sizes, |sizes|);
    assert L.items[k] == L.items[..|P.items|][k];
    assert L.sectionRects[k] == L.sectionRects[..|P.sectionRects|][k];
  }

  /** The row of a non-empty section s is the last row of the build of
      sections 0 .. s, at index KeptBefore(sizes, s). */
  lemma LastRowOfPrefix(sizes: seq<seq<Size>>, s: nat)
    requires s < |sizes| && |sizes[s]| > 0
    ensures var P := BuildSections(sizes, s + 1).layout;
      var k, y := KeptBefore(sizes, s), YOffsetBefore(sizes, s);
      && k < |P.items| && k < |P.sectionRects|
      && P.items[k] == RowAttributes(sizes[s], s, y, |sizes[s]|)
      && P.sectionRects[k] == RowRect(sizes[s], y)
  {
    BuildOffsets(sizes, s);
    StepRow(sizes, s + 1);
  }

  /** Rows with no items add no row: the build keeps exactly one row and one
      row rectangle per non-empty section. */
  lemma RowCount(sizes: seq<seq<Size>>)
    ensures |Build(sizes).items| == |Build(sizes).sectionRects| == KeptBefore(sizes, |sizes|)
  {
    BuildRows(sizes, |sizes|);
  }

  lemma {:induction false} RowXNonNegative(row: seq<Size>, n: nat)
    requires n <= |row|
    requires forall j :: 0 <= j < |row| ==> row[j].width >= 0.0
    ensures RowX(row, n) >= 0.0
  {
    if n > 0 { RowXNonNegative(row, n - 1); }
  }

  /** With widths that are not negative, an item never starts before the end
      of an earlier item of its row. */
  lemma {:induction false} RowXMonotone(row: seq<Size>, i: nat, j: nat)
    requires i <= j <= |row|
    requires forall t :: 0 <= t < |row| ==> row[t].width >= 0.0
    ensures RowX(row, i) <= RowX(row, j)
  {
    if i < j { RowXMonotone(row, i, j - 1); }
  }

  /** With sizes that are not negative, no row is wider than the widest and
      no offset is negative. */
  lemma {:induction false} ExtentsNonNegative(sizes: seq<seq<Size>>, n: nat)
    requires n <= |sizes|
    requires NonNegativeSizes(sizes)
    ensures WidestRow(sizes, n) >= 0.0 && YOffsetBefore(sizes, n) >= 0.0
  {
    if n > 0 {
      ExtentsNonNegative(sizes, n - 1);
      if |sizes[n - 1]| > 0 {
        assert sizes[n - 1][0].height >= 0.0;
      }
    }
  }

  /** Content size: with sizes that are not negative, the content bounds
      start at the origin, are as wide as the widest row and as tall as all
      rows together. */
  lemma {:induction false} ContentBoundsOfBuild(sizes: seq<seq<Size>>, n: nat)
    requires n <= |sizes|
    requires NonNegativeSizes(sizes)
    ensures BuildSections(sizes, n).layout.contentBounds ==
      Rect(0.0, 0.0, WidestRow(sizes, n), YOffsetBefore(sizes, n))
    ensures BuildSections(sizes, n).yOffset == YOffsetBefore(sizes, n)
  {
    if n > 0 {
      ContentBoundsOfBuild(sizes, n - 1);
      ExtentsNonNegative(sizes, n - 1);
      var row := sizes[n - 1];
      StepBounds(sizes, n);
      if |row| > 0 {
        RowXNonNegative(row, |row|);
        assert row[0].height >= 0.0;
        UnionOfStackedRects(WidestRow(sizes, n - 1), YOffsetBefore(sizes, n - 1), RowX(row, |row|), row[0].height);
      }
    }
  }

  /** Section n - 1 grows the content bounds by its row rectangle and moves
      the offset down by its height when it is not empty, and leaves both as
      they were when it is. */
  lemma StepBounds(sizes: seq<seq<Size>>, n: nat)
    requires 0 < n <= |sizes|
    ensures var st := BuildSections(sizes, n - 1); var row := sizes[n - 1];
      && BuildSections(sizes, n).layout.contentBounds ==
           (if |row| == 0 then st.layout.contentBounds
            else Union(st.layout.contentBounds, Rect(0.0, st.yOffset, RowX(row, |row|), row[0].height)))
      && BuildSections(sizes, n).yOffset == st.yOffset + RowHeight(row)
  {
  }

  /** A rectangle at the origin joined with one of non-negative size just
      below it spans the wider of the two and both heights. */
  lemma UnionOfStackedRects(W: real, H: real, w: real, h: real)
    requires W >= 0.0 && H >= 0.0 && w >= 0.0 && h >= 0.0
    ensures Union(Rect(0.0, 0.0, W, H), Rect(0.0, H, w, h)) == Rect(0.0, 0.0, Max(W, w), H + h)
  {
  }

  /** Item lookup as the layout writes it: item ip.item of kept row
      ip.section. */
  function ItemAtIndexPath(items: seq<seq<Attributes>>, ip: IndexPath): (a: Attributes)
    requires ip.section < |items| && ip.item < |items[ip.section]|
    ensures a in items[ip.section]
  {
    items[ip.section][ip.item]
  }

  /** Kept rows skip empty sections, so the lookup as written finds an item
      of another section once a section before it is empty. With section 0
      empty and section 1 not, as in sections [[], [10 x 10]], the first kept
      row holds section 1: looking up (0, 0) yields item (1, 0), which the
      lookup by identity finds in that row. */
  lemma ItemLookupAfterEmptySection(sizes: seq<seq<Size>>)
    requires |sizes| >= 2 && |sizes[0]| == 0 && |sizes[1]| > 0
    ensures var L := Build(sizes);
      && |L.items| > 0 && |L.items[0]| > 0
      && ItemAtIndexPath(L.items, IndexPath(0, 0)).indexPath == IndexPath(1, 0)
      && AttributesForItem(L.items, IndexPath(1, 0)) == Some(L.items[0][0])
  {
    assert KeptBefore(sizes, 1) == 0;
    ItemPlacement(sizes, 1, 0);
    LookupFindsEveryItem(sizes, 1, 0);
  }

  /** Item lookup by identity: the attributes of the item whose index path is
      ip, found through the row that holds ip's section. */
  function AttributesForItem(items: seq<seq<Attributes>>, ip: IndexPath): (r: Option<Attributes>)
    ensures r.Some? ==> r.value.indexPath == ip
    ensures r.Some? ==> exists k :: 0 <= k < |items| && r.value in items[k]
  {
    if |items| == 0 then None
    else if |items[0]| > 0 && items[0][0].indexPath.section == ip.section then
      if ip.item < |items[0]| && items[0][ip.item].indexPath == ip then Some(items[0][ip.item]) else None
    else
      var r := AttributesForItem(items[1..], ip);
      if r.Some? then
        var k :| 0 <= k < |items[1..]| && r.value in items[1..][k];
        assert items[k + 1] == items[1..][k];
        r
      else r
  }

  /** In row-major rows, the lookup by identity finds item ip.item of the
      row that holds ip's section. */
  lemma {:induction false} AttributesForItemInRow(items: seq<seq<Attributes>>, k: nat, ip: IndexPath)
    requires RowMajor(items)
    requires k < |items| && items[k][0].indexPath.section == ip.section && ip.item < |items[k]|
    ensures AttributesForItem(items, ip) == Some(items[k][ip.item])
  {
    if k > 0 {
      assert items[0][0].indexPath.section < items[k][0].indexPath.section;
      var rest := items[1..];
      assert RowMajor(rest) by {
        forall k1, k2 | 0 <= k1 < k2 < |rest|
          ensures rest[k1][0].indexPath.section < rest[k2][0].indexPath.section
        {
          assert rest[k1] == items[k1 + 1] && rest[k2] == items[k2 + 1];
        }
        forall t, j | 0 <= t < |rest| && 0 <= j < |rest[t]|
          ensures rest[t][j].kind == Cell && rest[t][j].zIndex == 0 &&
            rest[t][j].indexPath == IndexPath(rest[t][0].indexPath.section, j)
        {
          assert rest[t] == items[t + 1];
        }
      }
      assert rest[k - 1] == items[k];
      AttributesForItemInRow(rest, k - 1, ip);
    }
  }

  /** The lookup by identity finds every item the build laid out, with its
      as-built attributes, whatever sections are empty. */
  lemma LookupFindsEveryItem(sizes: seq<seq<Size>>, s: nat, j: nat)
    requires s < |sizes| && j < |sizes[s]|
    ensures AttributesForItem(Build(sizes).items, IndexPath(s, j)) ==
      Some(CellAttributes(sizes[s], s, j, YOffsetBefore(sizes, s)))
  {
    ItemPlacement(sizes, s, 0);
    ItemPlacement(sizes, s, j);
    BuildItems(sizes, |sizes|);
    AttributesForItemInRow(Build(sizes).items, KeptBefore(sizes, s), IndexPath(s, j));
  }
}
