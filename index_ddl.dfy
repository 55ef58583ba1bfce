// SqlServerTableIndex.ToSql: the drop-and-create pair that recreates one
// secondary index on PostgreSQL. The index is renamed: its name is synthesised
// from the table and the column lists, and the catalog's own name is not used.

module IndexDdl {
  import opened Strings
  import opened Models
  import opened Seqs

  /** The parts that are neither null nor empty, in order (LINQ `Where(x => !string.IsNullOrEmpty(x))`). */
  function NonEmptyParts(parts: seq<string>): seq<string>
    decreases |parts|
  {
    if |parts| == 0 then []
    else (if parts[0] == "" then [] else [parts[0]]) + NonEmptyParts(parts[1..])
  }

  /** NonEmptyParts keeps exactly the non-empty parts, and a non-empty first part stays first. */
  lemma {:induction false} NonEmptyPartsKeeps(parts: seq<string>)
    ensures forall x :: x in NonEmptyParts(parts) <==> x in parts && x != ""
    ensures |parts| > 0 && parts[0] != "" ==> |NonEmptyParts(parts)| > 0 && NonEmptyParts(parts)[0] == parts[0]
    decreases |parts|
  {
    if |parts| > 0 {
      NonEmptyPartsKeeps(parts[1..]);
      assert parts == [parts[0]] + parts[1..];
    }
  }

  /**
    * One column list's part of the index name: its segments joined by "_",
    * with every " desc" marker and every double quote removed, lower-cased.
    */
  function NameSegment(segs: seq<string>): string
  {
    ToLower(Replace(Replace(Join("_", segs), " desc", ""), "\"", ""))
  }

  /** The synthesised name `IX_<table>_<key columns>_<included columns>`, empty parts dropped. */
  function IndexName(index: SqlServerTableIndex, tableName: string): string
  {
    Join("_", NonEmptyParts(["IX", ToLower(tableName), NameSegment(Strings.Split(index.Columns, ',')),
                             NameSegment(Segments(index.IncludedColumns))]))
  }

  /** The key column list: the non-empty comma segments, as written, joined by ", ". */
  function KeyColumns(index: SqlServerTableIndex): string
  {
    Join(", ", Strings.Split(index.Columns, ','))
  }

  /** `include (<columns>)` when IncludedColumns has a non-empty segment, else nothing. */
  function IncludeClause(index: SqlServerTableIndex): string
  {
    var included := Join(", ", Segments(index.IncludedColumns));
    if included == "" then "" else "include (" + included + ")"
  }

  /** The drop statement: the scheme and the name, neither quoted. */
  function DropStatement(scheme: string, name: string): string
  {
    "drop index if exists " + scheme + "." + name + " cascade;"
  }

  /** The create statement up to the key column list's closing parenthesis. */
  function CreateHead(index: SqlServerTableIndex, scheme: string, tableName: string): string
  {
    var unique := if index.IsUnique then "unique" else "";
    "create " + unique + " index " + IndexName(index, tableName) + " on " + SchemeTable(scheme, tableName)
    + " (" + KeyColumns(index) + ")"
  }

  /** The two statements, drop first, as one trimmed text. */
  function ToSql(index: SqlServerTableIndex, scheme: string, tableName: string): string
  {
    var drop := DropStatement(scheme, IndexName(index, tableName));
    var create := CreateHead(index, scheme, tableName) + " " + IncludeClause(index);
    Trim("\n" + drop + "\n" + create + "\n")
  }

  // ---------------------------------------------------------------------------
  // The layout of the statements

  /**
    * The create statement as it reads once trimmed: "create unique index" for
    * a unique index, "create  index" (two spaces) otherwise, and the include
    * clause, when there is one, after a single space.
    */
  function CreateStatement(index: SqlServerTableIndex, scheme: string, tableName: string): string
  {
    (if index.IsUnique then "create unique index " else "create  index ") + IndexName(index, tableName)
    + " on " + SchemeTable(scheme, tableName) + " (" + KeyColumns(index) + ")"
    + (if IncludeClause(index) == "" then "" else " " + IncludeClause(index))
  }

  lemma CreateOpening(unique: bool)
    ensures "create " + (if unique then "unique" else "") + " index "
         == if unique then "create unique index " else "create  index "
  {
  }

  /**
    * Trimming the template leaves the drop line, a line break and the create
    * line: the outer line breaks go, and so does the space kept for an absent
    * include clause.
    */
  lemma TrimTemplate(drop: string, head: string, inc: string)
    requires drop != "" && !IsWhiteSpace(drop[0])
    requires head != "" && !IsWhiteSpace(head[|head| - 1])
    requires inc == "" || !IsWhiteSpace(inc[|inc| - 1])
    ensures Trim("\n" + drop + "\n" + (head + " " + inc) + "\n")
         == drop + "\n" + (head + (if inc == "" then "" else " " + inc))
  {
    var tail := " " + inc;
    AppendAssoc(head, " ", inc);
    TrimTwoLines(drop, head, tail);
    if inc == "" {
      assert tail == " ";
      assert TrimEnd(tail) == TrimEnd(tail[..0]) == "";
    } else {
      assert tail[|tail| - 1] == inc[|inc| - 1];
    }
  }

  /**
    * ToSql is the drop statement, a line break, then the create statement:
    * trimming takes off only the template's outer line breaks and the space
    * kept for an absent include clause, and the unique keyword is there
    * exactly for a unique index.
    */
  lemma ToSqlIsDropThenCreate(index: SqlServerTableIndex, scheme: string, tableName: string)
    ensures ToSql(index, scheme, tableName)
         == DropStatement(scheme, IndexName(index, tableName)) + "\n" + CreateStatement(index, scheme, tableName)
  {
    var drop := DropStatement(scheme, IndexName(index, tableName));
    var head := CreateHead(index, scheme, tableName);
    var inc := IncludeClause(index);
    assert drop[0] == 'd';
    assert head[|head| - 1] == ')';
    if inc != "" {
      assert inc[|inc| - 1] == ')';
    }
    TrimTemplate(drop, head, inc);
    CreateOpening(index.IsUnique);
    assert CreateStatement(index, scheme, tableName) == head + (if inc == "" then "" else " " + inc);
  }

  // ---------------------------------------------------------------------------
  // The synthesised name

  /** Every synthesised name starts with "IX". */
  lemma IndexNameStartsWithIX(index: SqlServerTableIndex, tableName: string)
    ensures |IndexName(index, tableName)| >= 2 && IndexName(index, tableName)[..2] == "IX"
  {
    var parts := ["IX", ToLower(tableName), NameSegment(Strings.Split(index.Columns, ',')),
                  NameSegment(Segments(index.IncludedColumns))];
    NonEmptyPartsKeeps(parts);
    JoinStartsWithFirst("_", NonEmptyParts(parts));
  }

  /** A part of the name as it follows the part before it: "_" and the part, or nothing when it is empty. */
  function Tagged(part: string): string
  {
    if part == "" then "" else "_" + part
  }

  /** The parts after a first one, each tagged, laid end to end. */
  function TaggedParts(parts: seq<string>): string
    decreases |parts|
  {
    if |parts| == 0 then "" else Tagged(parts[0]) + TaggedParts(parts[1..])
  }

  /** Joining a first part before a non-empty list adds it and one separator. */
  lemma JoinCons(first: string, parts: seq<string>)
    requires |parts| > 0
    ensures Join("_", [first] + parts) == first + "_" + Join("_", parts)
  {
    assert ([first] + parts)[1..] == parts;
  }

  /** Joining a first part and the non-empty rest by "_" is the first part followed by the tagged rest. */
  lemma {:induction false} JoinNonEmptyAfter(first: string, parts: seq<string>)
    ensures Join("_", [first] + NonEmptyParts(parts)) == first + TaggedParts(parts)
    decreases |parts|
  {
    if |parts| == 0 {
      assert [first] + NonEmptyParts(parts) == [first];
      AppendEmpty(first);
    } else {
      var rest := parts[1..];
      var tail := TaggedParts(rest);
      if parts[0] == "" {
        JoinNonEmptyAfter(first, rest);
        assert NonEmptyParts(parts) == NonEmptyParts(rest);
        assert TaggedParts(parts) == "" + tail;
      } else {
        JoinNonEmptyAfter(parts[0], rest);
        assert NonEmptyParts(parts) == [parts[0]] + NonEmptyParts(rest);
        JoinCons(first, [parts[0]] + NonEmptyParts(rest));
        assert TaggedParts(parts) == "_" + parts[0] + tail;
        AppendAssoc(first + "_", parts[0], tail);
        AppendAssoc(first, "_", parts[0]);
        AppendAssoc(first, "_" + parts[0], tail);
      }
    }
  }

  /**
    * The name is "IX", then "_" and the part for each of the lower-cased table
    * name, the key segment and the include segment that is not empty, in that
    * order: an empty part leaves no doubled or trailing underscore.
    */
  lemma IndexNameLayout(index: SqlServerTableIndex, tableName: string)
    ensures IndexName(index, tableName)
         == "IX" + (Tagged(ToLower(tableName)) + (Tagged(NameSegment(Strings.Split(index.Columns, ',')))
                 + Tagged(NameSegment(Segments(index.IncludedColumns)))))
  {
    var rest := [ToLower(tableName), NameSegment(Strings.Split(index.Columns, ',')),
                 NameSegment(Segments(index.IncludedColumns))];
    assert (["IX"] + rest)[1..] == rest;
    assert NonEmptyParts(["IX"] + rest) == ["IX"] + NonEmptyParts(rest);
    JoinNonEmptyAfter("IX", rest);
    assert rest[1..][1..][1..] == [];
    assert TaggedParts(rest[2..]) == Tagged(rest[2]) + "";
    AppendEmpty(Tagged(rest[2]));
    assert TaggedParts(rest[1..]) == Tagged(rest[1]) + Tagged(rest[2]) by {
      assert rest[1..][1..] == rest[2..];
    }
    assert TaggedParts(rest) == Tagged(rest[0]) + (Tagged(rest[1]) + Tagged(rest[2]));
  }

  /** A column segment of the name holds no double quote and no upper-case letter. */
  lemma NameSegmentIsPlain(segs: seq<string>)
    ensures '"' !in NameSegment(segs)
    ensures forall i :: 0 <= i < |NameSegment(segs)| ==> !('A' <= NameSegment(segs)[i] <= 'Z')
  {
    var unquoted := Replace(Replace(Join("_", segs), " desc", ""), "\"", "");
    ReplaceRemovesChar(Replace(Join("_", segs), " desc", ""), '"', "");
    assert forall i :: 0 <= i < |unquoted| ==> unquoted[i] != '"';
  }

  /**
    * Given the comma-joined column list the catalog query produces, the name's
    * key segment is built from those columns, in their order.
    */
  lemma KeySegmentOfColumns(index: SqlServerTableIndex, columns: seq<string>)
    requires AreSegments(columns, ',') && index.Columns == Join(",", columns)
    ensures NameSegment(Strings.Split(index.Columns, ',')) == NameSegment(columns)
    ensures KeyColumns(index) == Join(", ", columns)
  {
    SplitJoin(columns, ',');
  }

  /**
    * The catalog name of the index plays no part: two indexes that differ only
    * in Name give the same SQL.
    */
  lemma ToSqlIgnoresName(index: SqlServerTableIndex, otherName: string, scheme: string, tableName: string)
    ensures ToSql(index.(Name := otherName), scheme, tableName) == ToSql(index, scheme, tableName)
  {
  }

  /**
    * The name keeps no trace of a " desc" marker: an index on column c and an
    * index on `c desc` get the same name, so the drop statement of whichever
    * is created second removes the other.
    */
  lemma DescendingKeySameName(index: SqlServerTableIndex, c: string, tableName: string)
    requires c != "" && ',' !in c && ' ' !in c
    requires index.Columns == c
    ensures IndexName(index.(Columns := c + " desc"), tableName) == IndexName(index, tableName)
  {
    var cd := c + " desc";
    IndexOfAbsent(c, ',');
    IndexOfAbsent(cd, ',');
    assert Split(c, ',') == [c] by { assert c[..|c|] == c; }
    assert Split(cd, ',') == [cd] by { assert cd[..|cd|] == cd; }
    ReplaceAfter(c, " desc", " desc", "");
    ReplaceAfter(c, "", " desc", "");
    assert Replace(" desc", " desc", "") == "" + Replace("", " desc", "");
    AppendEmpty(c);
  }

  // ---------------------------------------------------------------------------
  // The clauses

  /** The include clause is there exactly when IncludedColumns has a non-empty segment; null has none. */
  lemma IncludeClausePresent(index: SqlServerTableIndex)
    ensures IncludeClause(index) != "" <==> |Segments(index.IncludedColumns)| > 0
    ensures IncludeClause(index) != "" ==> IncludeClause(index) == "include (" + Join(", ", Segments(index.IncludedColumns)) + ")"
    ensures index.IncludedColumns.None? ==> IncludeClause(index) == ""
  {
    var segs := Segments(index.IncludedColumns);
    if |segs| > 0 {
      JoinNonEmpty(", ", segs);
    }
  }
}
