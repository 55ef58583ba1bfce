// The row copy of one table (CopyRowsTask): compute a resume cursor from the
// destination's row count, page through the source in offset/limit windows
// and flush every page as multi-row insert statements.
//
// The source table is a sequence of rows in ORDER BY order; a fetch of window
// (offset, limit) is the slice src[min(offset, n) .. min(offset + limit, n)],
// which is what "offset .. rows fetch next .. rows only" returns; the
// destination is the sequence of rows it held before, with the fetched pages
// appended in the order they are inserted.

module CopyRows {
  import opened Strings
  import opened Models
  import opened LiteralEncoder
  import Props

  /** One fetched row: its column names and values, in column order. */
  type Row = seq<(string, Value)>

  function Min(a: nat, b: nat): nat
  {
    if a <= b then a else b
  }

  // ---------------------------------------------------------------------------
  // Arithmetic helpers

  lemma DivMod(x: nat, b: nat)
    requires b > 0
    ensures x == (x / b) * b + x % b && 0 <= x % b < b
  {
  }

  lemma MulSucc(p: int, b: int)
    ensures (p + 1) * b == p * b + b
  {
  }

  /** The quotient is the only q with x == q * b + r and 0 <= r < b. */
  lemma DivUnique(x: nat, b: nat, q: nat, r: nat)
    requires b > 0 && x == q * b + r && r < b
    ensures x / b == q && x % b == r
  {
    DivMod(x, b);
    var q' := x / b;
    if q' < q {
      MulGap(q, q', b);
    } else if q' > q {
      MulGap(q', q, b);
    }
  }

  /** Multiples of b that differ differ by at least b. */
  lemma MulGap(q: nat, q': nat, b: nat)
    requires q > q'
    ensures q * b - q' * b >= b
  {
    var k := q - q';
    assert q * b - q' * b == k * b;
    MulMono(k, b);
  }

  lemma MulMono(k: nat, b: nat)
    requires k >= 1
    ensures k * b >= b
  {
  }

  /** Math.Ceiling(x / (double)b) for x, b > 0, as integer arithmetic. */
  function CeilDiv(x: nat, b: nat): nat
    requires b > 0
  {
    (x + b - 1) / b
  }

  lemma CeilDivIsQuotientRoundedUp(x: nat, b: nat)
    requires b > 0
    ensures CeilDiv(x, b) == x / b + (if x % b == 0 then 0 else 1)
  {
    DivMod(x, b);
    var q, r := x / b, x % b;
    if r == 0 {
      DivUnique(x + b - 1, b, q, b - 1);
    } else {
      MulSucc(q, b);
      DivUnique(x + b - 1, b, q + 1, r - 1);
    }
  }

  // ---------------------------------------------------------------------------
  // Resume cursor (GetStartOffsetLimit)

  /**
    * The cursor for a destination already holding `destCount` rows: none for an
    * empty destination; otherwise it starts at the count, runs to the end of
    * the batch-size page the count falls in, and names that page's successor.
    */
  function GetStartOffsetLimit(destCount: nat, b: nat): (r: Option<StartOffsetLimit>)
    requires b > 0
    ensures r.None? <==> destCount == 0
    ensures r.Some? ==> r.value.Offset == destCount && r.value.NextPageIndex == destCount / b + 1
    ensures r.Some? ==> 1 <= r.value.Limit <= b && r.value.Limit == b - destCount % b
    ensures r.Some? ==> (r.value.Limit == b <==> destCount % b == 0)
  {
    if destCount == 0 then None
    else
      CeilDivIsQuotientRoundedUp(destCount, b);
      DivMod(destCount, b);
      MulSucc(destCount / b, b);
      var nextPageIndex := CeilDiv(destCount, b) + (if destCount % b == 0 then 1 else 0);
      var limit := nextPageIndex * b - destCount;
      Some(StartOffsetLimit(destCount, limit, nextPageIndex))
  }

  // ---------------------------------------------------------------------------
  // Fetch windows (GetTableRows)

  /** The offset and limit of one "offset .. fetch next .." query. */
  datatype Window = Window(offset: nat, limit: nat)

  /** GetTableRows' window: the cursor's when one is passed, else page `pageIndex` of size b. */
  function TableRowsWindow(b: nat, pageIndex: nat, cursor: Option<StartOffsetLimit>): Window
    requires pageIndex >= 1
  {
    if cursor.Some? then Window(cursor.value.Offset, cursor.value.Limit)
    else Window(PageOffset(pageIndex, b), b)
  }

  /** Where page `pageIndex` (counted from 1) of size b starts, one page at a time. */
  function PageOffset(pageIndex: nat, b: nat): nat
    requires pageIndex >= 1
  {
    if pageIndex == 1 then 0 else PageOffset(pageIndex - 1, b) + b
  }

  /** GetTableRows' offset: (pageIndex - 1) * b. */
  lemma {:induction false} PageOffsetIsProduct(pageIndex: nat, b: nat)
    requires pageIndex >= 1
    ensures PageOffset(pageIndex, b) == (pageIndex - 1) * b
  {
    if pageIndex > 1 {
      PageOffsetIsProduct(pageIndex - 1, b);
      MulSucc(pageIndex - 2, b);
    }
  }

  /** The rows a window selects from the ordered source table. */
  function Fetch(src: seq<Row>, w: Window): (rows: seq<Row>)
    ensures |rows| <= w.limit
  {
    src[Min(w.offset, |src|)..Min(w.offset + w.limit, |src|)]
  }

  /**
    * A fetch returns exactly the `limit` rows from `offset` when the table
    * reaches that far, and otherwise the rows that are left, fewer than `limit`.
    */
  lemma FetchShape(src: seq<Row>, w: Window)
    ensures w.offset + w.limit <= |src| ==> Fetch(src, w) == src[w.offset..w.offset + w.limit]
    ensures w.offset + w.limit > |src| ==> Fetch(src, w) == src[Min(w.offset, |src|)..]
    ensures |Fetch(src, w)| == w.limit <==> w.offset + w.limit <= |src| || w.limit == 0
  {
  }

  /** The rows a sequence of fetches returns, concatenated in fetch order. */
  function RowsOf(src: seq<Row>, ws: seq<Window>): seq<Row>
    decreases |ws|
  {
    if |ws| == 0 then [] else Fetch(src, ws[0]) + RowsOf(src, ws[1..])
  }

  lemma {:induction false} RowsOfAppend(src: seq<Row>, ws: seq<Window>, w: Window)
    ensures RowsOf(src, ws + [w]) == RowsOf(src, ws) + Fetch(src, w)
    decreases |ws|
  {
    if |ws| == 0 {
      assert [w][1..] == [];
    } else {
      assert (ws + [w])[1..] == ws[1..] + [w];
      RowsOfAppend(src, ws[1..], w);
    }
  }

  /** The rows of one window followed by more windows. */
  lemma RowsOfCons(src: seq<Row>, w: Window, ws: seq<Window>)
    ensures RowsOf(src, [w] + ws) == Fetch(src, w) + RowsOf(src, ws)
  {
    assert ([w] + ws)[1..] == ws;
  }

  // ---------------------------------------------------------------------------
  // The page loop (CopyTableRows), as a specification

  /**
    * The windows the loop fetches once no cursor is left, from the page that
    * starts at `offset` on: one page of b rows after another until a page
    * comes back shorter than b.
    */
  function PagesAt(src: seq<Row>, b: nat, offset: nat): seq<Window>
    requires b > 0
    decreases |src| - offset
  {
    var w := Window(offset, b);
    if |Fetch(src, w)| < b then [w] else [w] + PagesAt(src, b, offset + b)
  }

  /**
    * The windows CopyTableRows fetches: with a cursor, its window first; then,
    * unless that page was short, the pages from the cursor's NextPageIndex.
    */
  function CopyWindows(src: seq<Row>, b: nat, cursor: Option<StartOffsetLimit>): seq<Window>
    requires b > 0
    requires cursor.Some? ==> cursor.value.NextPageIndex >= 1
  {
    match cursor
    case None => PagesAt(src, b, 0)
    case Some(c) =>
      var w := TableRowsWindow(b, 1, cursor);
      if |Fetch(src, w)| < b then [w] else [w] + PagesAt(src, b, PageOffset(c.NextPageIndex, b))
  }

  // ---------------------------------------------------------------------------
  // Inserting one page (PutTableRows)

  /** The page split, in order, into pieces of InsertPageSize rows (the last may be shorter). */
  function Chunks(rows: seq<Row>): (r: seq<seq<Row>>)
    ensures forall i :: 0 <= i < |r| ==> 1 <= |r[i]| <= Props.InsertPageSize
    decreases |rows|
  {
    if |rows| == 0 then []
    else
      var k := Min(Props.InsertPageSize, |rows|);
      [rows[..k]] + Chunks(rows[k..])
  }

  function Flatten(chunks: seq<seq<Row>>): seq<Row>
    decreases |chunks|
  {
    if |chunks| == 0 then [] else chunks[0] + Flatten(chunks[1..])
  }

  /** The row's column names, each double-quoted. */
  function QuotedNames(row: Row): (r: seq<string>)
    ensures |r| == |row|
    decreases |row|
  {
    if |row| == 0 then [] else ["\"" + row[0].0 + "\""] + QuotedNames(row[1..])
  }

  /** The row's values, each encoded by From. */
  function Literals(row: Row): (r: seq<string>)
    ensures |r| == |row|
    decreases |row|
  {
    if |row| == 0 then [] else [From(row[0].1)] + Literals(row[1..])
  }

  function ColumnList(row: Row): string
  {
    Join(", ", QuotedNames(row))
  }

  function ValueTuple(row: Row): string
  {
    "(" + Join(", ", Literals(row)) + ")"
  }

  function ValueTuples(batch: seq<Row>): (r: seq<string>)
    ensures |r| == |batch|
    decreases |batch|
  {
    if |batch| == 0 then [] else [ValueTuple(batch[0])] + ValueTuples(batch[1..])
  }

  /** One multi-row insert; the column list is taken from the batch's first row. */
  function InsertSql(scheme: string, tableName: string, batch: seq<Row>): string
    requires |batch| > 0
  {
    InsertHead(scheme, tableName, batch[0]) + Join(", ", ValueTuples(batch))
  }

  /** The part of an insert before its value tuples. */
  function InsertHead(scheme: string, tableName: string, first: Row): string
  {
    "insert into " + SchemeTable(scheme, tableName) + " (" + ColumnList(first) + ") values "
  }

  /** The statements PutTableRows sends for one page: one insert per InsertPageSize rows, in order. */
  function InsertStatements(scheme: string, tableName: string, rows: seq<Row>): seq<string>
    decreases |rows|
  {
    if |rows| == 0 then []
    else
      var k := Min(Props.InsertPageSize, |rows|);
      [InsertSql(scheme, tableName, rows[..k])] + InsertStatements(scheme, tableName, rows[k..])
  }

  /** The statement for the take at `skip`, and those after it. */
  lemma InsertStatementsStep(scheme: string, tableName: string, rows: seq<Row>, skip: nat)
    requires skip < |rows|
    ensures var next := Min(skip + Props.InsertPageSize, |rows|);
      InsertStatements(scheme, tableName, rows[skip..])
      == [InsertSql(scheme, tableName, rows[skip..next])] + InsertStatements(scheme, tableName, rows[next..])
  {
    var next := Min(skip + Props.InsertPageSize, |rows|);
    assert rows[skip..][..next - skip] == rows[skip..next];
    assert rows[skip..][next - skip..] == rows[next..];
  }

  /** The statements for a sequence of fetches, page after page. */
  function InsertsOf(scheme: string, tableName: string, src: seq<Row>, ws: seq<Window>): seq<string>
    decreases |ws|
  {
    if |ws| == 0 then []
    else InsertsOf(scheme, tableName, src, ws[..|ws| - 1]) + InsertStatements(scheme, tableName, Fetch(src, ws[|ws| - 1]))
  }

  /**
    * PutTableRows: nothing for an empty page; otherwise take InsertPageSize
    * rows at a time (Skip/Take) until a take comes back empty, and send one
    * insert statement per take.
    */
  method PutTableRows(scheme: string, tableName: string, rows: seq<Row>) returns (stmts: seq<string>)
    ensures stmts == InsertStatements(scheme, tableName, rows)
  {
    stmts := [];
    if |rows| == 0 {
      return;
    }
    var pageIndex := 1;
    while true
      invariant pageIndex >= 1
      invariant (pageIndex - 1) * Props.InsertPageSize <= |rows| + Props.InsertPageSize
      invariant stmts + InsertStatements(scheme, tableName, rows[Min((pageIndex - 1) * Props.InsertPageSize, |rows|)..])
             == InsertStatements(scheme, tableName, rows)
      decreases |rows| + Props.InsertPageSize - (pageIndex - 1) * Props.InsertPageSize
    {
      var skip := (pageIndex - 1) * Props.InsertPageSize;
      var batch := rows[Min(skip, |rows|)..Min(skip + Props.InsertPageSize, |rows|)];
      if |batch| == 0 {
        break;
      }
      InsertStatementsStep(scheme, tableName, rows, skip);
      ghost var rest := InsertStatements(scheme, tableName, rows[Min(skip + Props.InsertPageSize, |rows|)..]);
      assert (stmts + [InsertSql(scheme, tableName, batch)]) + rest == stmts + ([InsertSql(scheme, tableName, batch)] + rest);
      stmts := stmts + [InsertSql(scheme, tableName, batch)];
      pageIndex := pageIndex + 1;
    }
  }

  // ---------------------------------------------------------------------------
  // The copy of one table (CopyTableRows)

  /**
    * CopyTableRows for a source table `src` and a destination holding `dest`:
    * the cursor comes from the destination's row count, the loop fetches page
    * after page (the cursor's window first, then page NextPageIndex onward),
    * inserts each page, and stops after the first page shorter than b.
    */
  method CopyTableRows(src: seq<Row>, dest: seq<Row>, b: nat, scheme: string, tableName: string)
    returns (windows: seq<Window>, newDest: seq<Row>, inserts: seq<string>)
    requires b > 0
    ensures windows == CopyWindows(src, b, GetStartOffsetLimit(|dest|, b))
    ensures newDest == dest + RowsOf(src, windows)
    ensures inserts == InsertsOf(scheme, tableName, src, windows)
  {
    var startOffsetLimit := GetStartOffsetLimit(|dest|, b);
    var appended;
    windows, appended, inserts := CopyPages(src, b, startOffsetLimit, scheme, tableName);
    newDest := dest + appended;
  }

  /**
    * The page loop of CopyTableRows, from a given cursor: fetch (GetTableRows),
    * advance the page index (to the cursor's NextPageIndex after the cursor's
    * window), insert the page (PutTableRows), stop after a short page.
    */
  method CopyPages(src: seq<Row>, b: nat, startOffsetLimit: Option<StartOffsetLimit>, scheme: string, tableName: string)
    returns (windows: seq<Window>, appended: seq<Row>, inserts: seq<string>)
    requires b > 0
    requires startOffsetLimit.Some? ==> startOffsetLimit.value.NextPageIndex >= 1
    ensures windows == CopyWindows(src, b, startOffsetLimit)
    ensures appended == RowsOf(src, windows)
    ensures inserts == InsertsOf(scheme, tableName, src, windows)
  {
    var cursor := startOffsetLimit;
    var pageIndex: nat := 1;
    ghost var offset: nat := 0;
    appended := [];
    windows, inserts := [], [];
    while true
      invariant pageIndex >= 1 && offset == PageOffset(pageIndex, b)
      invariant CopyInvariant(src, b, scheme, tableName, startOffsetLimit, offset, cursor, windows, appended, inserts)
      decreases cursor.Some?, |src| - offset
    {
      ghost var (offset0, cursor0) := (offset, cursor);
      ghost var (windows0, appended0, inserts0) := (windows, appended, inserts);
      var w := TableRowsWindow(b, pageIndex, cursor);
      var rows := Fetch(src, w);
      pageIndex := pageIndex + 1;
      if cursor.Some? {
        pageIndex := cursor.value.NextPageIndex;
        offset := PageOffset(pageIndex, b);
        cursor := None;
      } else {
        offset := offset + b;
      }
      var stmts := PutTableRows(scheme, tableName, rows);
      windows := windows + [w];
      appended := appended + rows;
      inserts := inserts + stmts;
      CopyStep(src, b, scheme, tableName, startOffsetLimit, offset0, cursor0, windows0, appended0, inserts0,
               w, offset, windows, appended, inserts);
      if |rows| < b {
        break;
      }
    }
  }

  /**
    * What the page loop has done so far: the windows fetched, followed by
    * those still to come from `offset` (or from the cursor), are CopyWindows;
    * the rows appended and statements sent are those of the windows fetched.
    */
  predicate CopyInvariant(src: seq<Row>, b: nat, scheme: string, tableName: string, start: Option<StartOffsetLimit>,
                          offset: nat, cursor: Option<StartOffsetLimit>,
                          windows: seq<Window>, appended: seq<Row>, inserts: seq<string>)
  {
    && b > 0
    && (start.Some? ==> start.value.NextPageIndex >= 1)
    && (cursor.None? || cursor == start)
    && windows + Remaining(src, b, offset, cursor) == CopyWindows(src, b, start)
    && appended == RowsOf(src, windows)
    && inserts == InsertsOf(scheme, tableName, src, windows)
  }

  /**
    * One turn of the page loop, fetching `w` (the cursor's window, or the page
    * at `offset`), keeps CopyInvariant, or ends with the whole of CopyWindows done.
    */
  lemma CopyStep(src: seq<Row>, b: nat, scheme: string, tableName: string, start: Option<StartOffsetLimit>,
                 offset: nat, cursor: Option<StartOffsetLimit>,
                 windows: seq<Window>, appended: seq<Row>, inserts: seq<string>,
                 w: Window, next: nat, windows': seq<Window>, appended': seq<Row>, inserts': seq<string>)
    requires CopyInvariant(src, b, scheme, tableName, start, offset, cursor, windows, appended, inserts)
    requires w == if cursor.Some? then Window(cursor.value.Offset, cursor.value.Limit) else Window(offset, b)
    requires next == if cursor.Some? then PageOffset(cursor.value.NextPageIndex, b) else offset + b
    requires windows' == windows + [w] && appended' == appended + Fetch(src, w)
    requires inserts' == inserts + InsertStatements(scheme, tableName, Fetch(src, w))
    ensures |Fetch(src, w)| < b ==>
      windows' == CopyWindows(src, b, start) && appended' == RowsOf(src, windows')
      && inserts' == InsertsOf(scheme, tableName, src, windows')
    ensures |Fetch(src, w)| >= b ==>
      CopyInvariant(src, b, scheme, tableName, start, next, None, windows', appended', inserts')
      && (cursor.None? ==> |src| - next < |src| - offset)
  {
    RowsOfAppend(src, windows, w);
    InsertsOfAppend(scheme, tableName, src, windows, w);
    WindowsStep(src, b, start, offset, cursor, windows);
  }

  /** The windows part of CopyStep. */
  lemma WindowsStep(src: seq<Row>, b: nat, start: Option<StartOffsetLimit>,
                    offset: nat, cursor: Option<StartOffsetLimit>, windows: seq<Window>)
    requires b > 0
    requires start.Some? ==> start.value.NextPageIndex >= 1
    requires cursor.None? || cursor == start
    requires windows + Remaining(src, b, offset, cursor) == CopyWindows(src, b, start)
    ensures var w := if cursor.Some? then Window(cursor.value.Offset, cursor.value.Limit) else Window(offset, b);
      var next := if cursor.Some? then PageOffset(cursor.value.NextPageIndex, b) else offset + b;
      && (|Fetch(src, w)| < b ==> windows + [w] == CopyWindows(src, b, start))
      && (|Fetch(src, w)| >= b ==> (windows + [w]) + Remaining(src, b, next, None) == CopyWindows(src, b, start))
  {
    var w := if cursor.Some? then Window(cursor.value.Offset, cursor.value.Limit) else Window(offset, b);
    var next := if cursor.Some? then PageOffset(cursor.value.NextPageIndex, b) else offset + b;
    if |Fetch(src, w)| >= b {
      assert Remaining(src, b, offset, cursor) == [w] + Remaining(src, b, next, None);
      assert (windows + [w]) + Remaining(src, b, next, None) == windows + ([w] + Remaining(src, b, next, None));
    }
  }

  lemma InsertsOfAppend(scheme: string, tableName: string, src: seq<Row>, ws: seq<Window>, w: Window)
    ensures InsertsOf(scheme, tableName, src, ws + [w])
         == InsertsOf(scheme, tableName, src, ws) + InsertStatements(scheme, tableName, Fetch(src, w))
  {
    assert (ws + [w])[..|ws|] == ws;
  }

  /** The windows still to come: the cursor's run when one is left, else the plain pages from `offset`. */
  function Remaining(src: seq<Row>, b: nat, offset: nat, cursor: Option<StartOffsetLimit>): seq<Window>
    requires b > 0
    requires cursor.Some? ==> cursor.value.NextPageIndex >= 1
  {
    if cursor.Some? then CopyWindows(src, b, cursor) else PagesAt(src, b, offset)
  }

  // ---------------------------------------------------------------------------
  // ORDER BY (GetOrderBy)

  /**
    * The ORDER BY list: the primary-key columns in key order, each as
    * t."<column>", or "1" (the first column) when the table has no primary key.
    */
  function GetOrderBy(primaryKeyColumns: seq<string>): (r: string)
    ensures r == "1" <==> |primaryKeyColumns| == 0
    ensures |primaryKeyColumns| > 0 ==>
      |r| >= |primaryKeyColumns[0]| + 4 && r[..|primaryKeyColumns[0]| + 4] == "t.\"" + primaryKeyColumns[0] + "\""
    ensures |primaryKeyColumns| == 1 ==> r == "t.\"" + primaryKeyColumns[0] + "\""
  {
    if |primaryKeyColumns| == 0 then "1"
    else
      var parts := OrderByParts(primaryKeyColumns);
      JoinStartsWithFirst(", ", parts);
      Join(", ", parts)
  }

  function OrderByParts(cols: seq<string>): (r: seq<string>)
    ensures |r| == |cols|
  {
    seq(|cols|, i requires 0 <= i < |cols| => "t.\"" + cols[i] + "\"")
  }
}
