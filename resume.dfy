// Resuming a copy into a destination table that already holds rows.
//
// GetStartOffsetLimit turns the destination's row count d into a cursor
// window (offset d, limit b - d % b) that ends on the next page boundary.
// The page loop of CopyTableRows then goes on at page NextPageIndex and stops
// after any window shorter than b. Both choices go wrong on a resume:
//   - when d is a multiple of b, page NextPageIndex is the cursor's own page,
//     so its b rows are copied twice;
//   - otherwise the cursor's window is shorter than b by construction, so
//     the copy stops after it and the rest of the table is never copied.
// This module proves both, and proves that the evidently intended loop
// (continue at the page after the cursor's window, stop when a window comes
// back shorter than its own limit) copies exactly the missing rows.

module Resume {
  import opened Models
  import opened CopyRows
  import CopyRowsLemmas
  import opened Seqs

  // ---------------------------------------------------------------------------
  // The loop as written

  /**
    * Resuming from a count that is not a multiple of b: the cursor's window
    * is shorter than a page, so the copy fetches that window and nothing else.
    */
  lemma ResumeMidPageStopsAfterCursorWindow(src: seq<Row>, d: nat, b: nat)
    requires b > 0 && d % b != 0
    ensures CopyWindows(src, b, GetStartOffsetLimit(d, b)) == [Window(d, b - d % b)]
  {
    ShortWindowOnly(src, b, GetStartOffsetLimit(d, b));
  }

  lemma ShortWindowOnly(src: seq<Row>, b: nat, cursor: Option<StartOffsetLimit>)
    requires b > 0 && cursor.Some? && cursor.value.NextPageIndex >= 1 && cursor.value.Limit < b
    ensures CopyWindows(src, b, cursor) == [Window(cursor.value.Offset, cursor.value.Limit)]
  {
  }

  /**
    * The rows such a resume appends: a destination that held the first d
    * source rows ends at the next page boundary (or at the end of the
    * source), and every source row after it is missing.
    */
  lemma ResumeMidPageLosesRows(src: seq<Row>, dest: seq<Row>, b: nat)
    requires b > 0 && |dest| <= |src| && dest == src[..|dest|]
    requires |dest| % b != 0
    ensures dest + RowsOf(src, CopyWindows(src, b, GetStartOffsetLimit(|dest|, b)))
         == src[..Min(|dest| + (b - |dest| % b), |src|)]
  {
    var w := Window(|dest|, b - |dest| % b);
    ResumeMidPageStopsAfterCursorWindow(src, |dest|, b);
    RowsOfCons(src, w, []);
    AppendEmpty(Fetch(src, w));
    CursorWindowRows(src, dest, b);
  }

  lemma CursorWindowRows(src: seq<Row>, dest: seq<Row>, b: nat)
    requires b > 0 && |dest| <= |src| && dest == src[..|dest|]
    requires |dest| % b != 0
    ensures dest + Fetch(src, Window(|dest|, b - |dest| % b)) == src[..Min(|dest| + (b - |dest| % b), |src|)]
  {
    var d := |dest|;
    var w := Window(d, b - d % b);
    FetchShape(src, w);
    assert Fetch(src, w) == src[d..Min(d + (b - d % b), |src|)];
  }

  /**
    * Resuming from a count d that is a multiple of b, with a full page left:
    * the first two windows are the same page (offset d, limit b).
    */
  lemma ResumeOnBoundaryRereadsCursorPage(src: seq<Row>, d: nat, b: nat)
    requires b > 0 && d > 0 && d % b == 0 && d + b <= |src|
    ensures CopyWindows(src, b, GetStartOffsetLimit(d, b)) == [Window(d, b)] + PagesAt(src, b, d)
    ensures PagesAt(src, b, d)[0] == Window(d, b)
  {
    var cursor := GetStartOffsetLimit(d, b);
    assert PageOffset(cursor.value.NextPageIndex, b) == d by {
      DivMod(d, b);
      PageOffsetIsProduct(cursor.value.NextPageIndex, b);
    }
    FullWindowThenPages(src, b, cursor);
  }

  lemma FullWindowThenPages(src: seq<Row>, b: nat, cursor: Option<StartOffsetLimit>)
    requires b > 0 && cursor.Some? && cursor.value.NextPageIndex >= 1
    requires cursor.value.Limit == b && cursor.value.Offset + b <= |src|
    ensures CopyWindows(src, b, cursor)
         == [Window(cursor.value.Offset, b)] + PagesAt(src, b, PageOffset(cursor.value.NextPageIndex, b))
  {
    FetchShape(src, Window(cursor.value.Offset, b));
  }

  /**
    * The rows such a resume appends: rows d .. d + b, then every row from d
    * on, so a destination that held the first d > 0 source rows gets rows
    * d .. d + b twice.
    */
  lemma ResumeOnBoundaryDuplicatesRows(src: seq<Row>, dest: seq<Row>, b: nat)
    requires b > 0 && 0 < |dest| && |dest| + b <= |src| && dest == src[..|dest|]
    requires |dest| % b == 0
    ensures dest + RowsOf(src, CopyWindows(src, b, GetStartOffsetLimit(|dest|, b)))
         == src[..|dest| + b] + src[|dest|..]
  {
    ResumeOnBoundaryRereadsCursorPage(src, |dest|, b);
    RereadWindowsRows(src, dest, b);
  }

  lemma RereadWindowsRows(src: seq<Row>, dest: seq<Row>, b: nat)
    requires b > 0 && |dest| <= |src| && dest == src[..|dest|]
    requires |dest| + b <= |src|
    ensures dest + RowsOf(src, [Window(|dest|, b)] + PagesAt(src, b, |dest|)) == src[..|dest| + b] + src[|dest|..]
  {
    var d := |dest|;
    var w := Window(d, b);
    RowsOfCons(src, w, PagesAt(src, b, d));
    FetchShape(src, w);
    CopyRowsLemmas.PagesAtCopiesRest(src, b, d);
    AppendAssoc(dest, src[d..d + b], src[d..]);
    PrefixThenSlice(src, d, d + b);
  }

  /**
    * With pages of 1000 rows, a 2500-row table and 1500 rows already copied,
    * the resumed copy ends with 2000 rows: the last 500 are never copied.
    */
  lemma ResumeMidPageExample(src: seq<Row>, dest: seq<Row>)
    requires |src| == 2500 && dest == src[..1500]
    ensures dest + RowsOf(src, CopyWindows(src, 1000, GetStartOffsetLimit(|dest|, 1000))) == src[..2000]
  {
    ResumeMidPageLosesRows(src, dest, 1000);
  }

  /**
    * With pages of 1000 rows, a 2500-row table and 1000 rows already copied,
    * the resumed copy ends with 3500 rows: rows 1000 .. 2000 are there twice.
    */
  lemma ResumeOnBoundaryExample(src: seq<Row>, dest: seq<Row>)
    requires |src| == 2500 && dest == src[..1000]
    ensures var copied := dest + RowsOf(src, CopyWindows(src, 1000, GetStartOffsetLimit(|dest|, 1000)));
      copied == src[..2000] + src[1000..] && |copied| == 3500
  {
    ResumeOnBoundaryDuplicatesRows(src, dest, 1000);
  }

  // ---------------------------------------------------------------------------
  // The loop as intended

  /**
    * The windows of the evidently intended loop: the cursor's window, then,
    * unless it came back shorter than its own limit, the pages from where the
    * cursor's window ends (page NextPageIndex + 1) on.
    */
  function CopyWindowsCorrected(src: seq<Row>, b: nat, cursor: Option<StartOffsetLimit>): seq<Window>
    requires b > 0
    requires cursor.Some? ==> cursor.value.NextPageIndex >= 1
  {
    match cursor
    case None => PagesAt(src, b, 0)
    case Some(c) =>
      var w := TableRowsWindow(b, 1, cursor);
      if |Fetch(src, w)| < c.Limit then [w] else [w] + PagesAt(src, b, PageOffset(c.NextPageIndex + 1, b))
  }

  /**
    * Resuming the intended loop from any prefix of the source, on a page
    * boundary or not, completes the copy: every source row ends up in the
    * destination exactly once, in order.
    */
  lemma ResumeCorrectedCompletesCopy(src: seq<Row>, dest: seq<Row>, b: nat)
    requires b > 0 && |dest| <= |src| && dest == src[..|dest|]
    ensures dest + RowsOf(src, CopyWindowsCorrected(src, b, GetStartOffsetLimit(|dest|, b))) == src
  {
    var cursor := GetStartOffsetLimit(|dest|, b);
    if cursor.None? {
      CopyRowsLemmas.FreshCopyCopiesAll(src, b);
    } else {
      assert PageOffset(cursor.value.NextPageIndex + 1, b) == |dest| + cursor.value.Limit by {
        CopyRowsLemmas.CursorWindowEndsAtPageBoundary(|dest|, b);
      }
      CorrectedRun(src, dest, b, cursor);
    }
  }

  /** A cursor window that ends where the next pages start leaves nothing out and repeats nothing. */
  lemma CorrectedRun(src: seq<Row>, dest: seq<Row>, b: nat, cursor: Option<StartOffsetLimit>)
    requires b > 0 && |dest| <= |src| && dest == src[..|dest|]
    requires cursor.Some? && cursor.value.NextPageIndex >= 1 && cursor.value.Offset == |dest|
    requires PageOffset(cursor.value.NextPageIndex + 1, b) == |dest| + cursor.value.Limit
    ensures dest + RowsOf(src, CopyWindowsCorrected(src, b, cursor)) == src
  {
    var d, limit := |dest|, cursor.value.Limit;
    var w := Window(d, limit);
    FetchShape(src, w);
    if |Fetch(src, w)| < limit {
      assert CopyWindowsCorrected(src, b, cursor) == [w] + [];
      RowsOfCons(src, w, []);
      AppendEmpty(Fetch(src, w));
    } else {
      var rest := PagesAt(src, b, d + limit);
      assert CopyWindowsCorrected(src, b, cursor) == [w] + rest;
      RowsOfCons(src, w, rest);
      CopyRowsLemmas.PagesAtCopiesRest(src, b, d + limit);
      SliceThenRest(src, d, d + limit);
    }
    PrefixThenRest(src, d);
  }
}
