// Properties of the row copy: how PutTableRows splits a page into inserts,
// how GetOrderBy grows with the key, where the resume cursor's window ends,
// and what a copy into an empty destination fetches.

module CopyRowsLemmas {
  import opened Strings
  import opened Models
  import opened CopyRows
  import Props
  import opened Seqs

  // ---------------------------------------------------------------------------
  // PutTableRows

  /** The chunks laid end to end are the page: no row is lost, repeated or moved. */
  lemma {:induction false} ChunksFlatten(rows: seq<Row>)
    ensures Flatten(Chunks(rows)) == rows
    decreases |rows|
  {
    if |rows| > 0 {
      var k := Min(Props.InsertPageSize, |rows|);
      ChunksFlatten(rows[k..]);
      assert Chunks(rows)[1..] == Chunks(rows[k..]);
      assert rows[..k] + rows[k..] == rows;
    }
  }

  /**
    * A page of n rows takes ceil(n / InsertPageSize) inserts (none for an
    * empty page), and every chunk but the last is full.
    */
  lemma {:induction false} ChunkCount(rows: seq<Row>)
    ensures |Chunks(rows)| == CeilDiv(|rows|, Props.InsertPageSize)
    ensures forall i :: 0 <= i < |Chunks(rows)| - 1 ==> |Chunks(rows)[i]| == Props.InsertPageSize
    decreases |rows|
  {
    if |rows| > 0 {
      var k := Min(Props.InsertPageSize, |rows|);
      ChunkCount(rows[k..]);
      var rest := Chunks(rows[k..]);
      assert Chunks(rows) == [rows[..k]] + rest;
      assert forall i :: 1 <= i < |Chunks(rows)| ==> Chunks(rows)[i] == rest[i - 1];
    }
  }

  /** PutTableRows sends one insert per chunk, built from that chunk, in chunk order. */
  lemma {:induction false} InsertStatementsPerChunk(scheme: string, tableName: string, rows: seq<Row>)
    ensures |InsertStatements(scheme, tableName, rows)| == |Chunks(rows)|
    ensures forall i :: 0 <= i < |Chunks(rows)| ==>
      InsertStatements(scheme, tableName, rows)[i] == InsertSql(scheme, tableName, Chunks(rows)[i])
    decreases |rows|
  {
    if |rows| > 0 {
      var k := Min(Props.InsertPageSize, |rows|);
      InsertStatementsPerChunk(scheme, tableName, rows[k..]);
      var rest := Chunks(rows[k..]);
      assert Chunks(rows) == [rows[..k]] + rest;
      assert forall i :: 1 <= i < |Chunks(rows)| ==> Chunks(rows)[i] == rest[i - 1];
    }
  }

  lemma {:induction false} ValueTuplesAppend(batch: seq<Row>, row: Row)
    ensures ValueTuples(batch + [row]) == ValueTuples(batch) + [ValueTuple(row)]
    decreases |batch|
  {
    if |batch| == 0 {
      assert [row][1..] == [];
    } else {
      assert (batch + [row])[1..] == batch[1..] + [row];
      ValueTuplesAppend(batch[1..], row);
    }
  }

  /** A one-row insert names the row's columns and gives its value tuple. */
  lemma InsertSqlOneRow(scheme: string, tableName: string, row: Row)
    ensures InsertSql(scheme, tableName, [row])
         == "insert into " + SchemeTable(scheme, tableName) + " (" + ColumnList(row) + ") values " + ValueTuple(row)
  {
    assert [row][1..] == [];
  }

  /**
    * One more row in a batch adds its value tuple at the end of the statement;
    * the column list stays that of the first row.
    */
  lemma InsertSqlAppend(scheme: string, tableName: string, batch: seq<Row>, row: Row)
    requires |batch| > 0
    ensures InsertSql(scheme, tableName, batch + [row]) == InsertSql(scheme, tableName, batch) + ", " + ValueTuple(row)
  {
    ValueTuplesAppend(batch, row);
    JoinAppend(", ", ValueTuples(batch), ValueTuple(row));
    assert (batch + [row])[0] == batch[0];
    var head, tuples := InsertHead(scheme, tableName, batch[0]), Join(", ", ValueTuples(batch));
    AppendAssoc(head, tuples + ", ", ValueTuple(row));
    AppendAssoc(head, tuples, ", ");
  }

  // ---------------------------------------------------------------------------
  // GetOrderBy

  /** One more key column appends `, t."<column>"` to the ORDER BY list. */
  lemma OrderByAppend(cols: seq<string>, c: string)
    requires |cols| > 0
    ensures GetOrderBy(cols + [c]) == GetOrderBy(cols) + ", t.\"" + c + "\""
  {
    var part := "t.\"" + c + "\"";
    assert OrderByParts(cols + [c]) == OrderByParts(cols) + [part];
    JoinAppend(", ", OrderByParts(cols), part);
  }

  // ---------------------------------------------------------------------------
  // The resume cursor and the windows

  /**
    * The cursor's window starts at the destination's count and ends where page
    * NextPageIndex + 1 starts; page NextPageIndex itself starts at the page
    * boundary at or before the count.
    */
  lemma CursorWindowEndsAtPageBoundary(destCount: nat, b: nat)
    requires b > 0 && destCount > 0
    ensures var c := GetStartOffsetLimit(destCount, b).value;
      var w := TableRowsWindow(b, 1, Some(c));
      && w.offset == destCount
      && w.offset + w.limit == TableRowsWindow(b, c.NextPageIndex + 1, None).offset
      && TableRowsWindow(b, c.NextPageIndex, None).offset == destCount - destCount % b
  {
    var c := GetStartOffsetLimit(destCount, b).value;
    DivMod(destCount, b);
    PageOffsetIsProduct(c.NextPageIndex, b);
    PageOffsetIsProduct(c.NextPageIndex + 1, b);
  }

  /** From a page boundary on, the plain pages fetch every remaining row exactly once, in order. */
  lemma {:induction false} PagesAtCopiesRest(src: seq<Row>, b: nat, offset: nat)
    requires b > 0 && offset <= |src|
    ensures RowsOf(src, PagesAt(src, b, offset)) == src[offset..]
    decreases |src| - offset
  {
    var w := Window(offset, b);
    FetchShape(src, w);
    if offset + b > |src| {
      assert PagesAt(src, b, offset) == [w] + [];
      RowsOfCons(src, w, []);
      AppendEmpty(Fetch(src, w));
    } else {
      PagesAtCopiesRest(src, b, offset + b);
      assert PagesAt(src, b, offset) == [w] + PagesAt(src, b, offset + b);
      RowsOfCons(src, w, PagesAt(src, b, offset + b));
      SliceThenRest(src, offset, offset + b);
    }
  }

  /**
    * From `offset` on, the loop sends (n - offset) / b + 1 queries: one per
    * full page and one more, which is empty when the rows end on a page boundary.
    */
  lemma {:induction false} PagesAtCount(src: seq<Row>, b: nat, offset: nat)
    requires b > 0 && offset <= |src|
    ensures |PagesAt(src, b, offset)| == (|src| - offset) / b + 1
    decreases |src| - offset
  {
    var x := |src| - offset;
    FetchShape(src, Window(offset, b));
    if offset + b > |src| {
      DivUnique(x, b, 0, x);
    } else {
      PagesAtCount(src, b, offset + b);
      DivMod(x - b, b);
      MulSucc((x - b) / b, b);
      DivUnique(x, b, (x - b) / b + 1, (x - b) % b);
    }
  }

  /**
    * Into an empty destination there is no cursor, and the copy fetches every
    * source row once, in ORDER BY order, with n / b + 1 queries.
    */
  lemma FreshCopyCopiesAll(src: seq<Row>, b: nat)
    requires b > 0
    ensures GetStartOffsetLimit(0, b) == None
    ensures RowsOf(src, CopyWindows(src, b, GetStartOffsetLimit(0, b))) == src
    ensures |CopyWindows(src, b, GetStartOffsetLimit(0, b))| == |src| / b + 1
  {
    PagesAtCopiesRest(src, b, 0);
    PagesAtCount(src, b, 0);
  }
}
