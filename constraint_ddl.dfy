// SqlServerTableConstraint.ToSql: the drop-and-add pair that recreates one
// primary-key, unique or foreign-key constraint on PostgreSQL, under the
// catalog's own constraint name.

module ConstraintDdl {
  import opened Strings
  import opened Models
  import opened Seqs

  /** A column as the constraint lists it: trimmed, then double-quoted. */
  function QuoteColumn(column: string): string
  {
    "\"" + Trim(column) + "\""
  }

  /** Every segment quoted, in order (LINQ `Select(x => QuoteColumn(x))`). */
  function QuoteColumns(segs: seq<string>): (r: seq<string>)
    ensures |r| == |segs|
    ensures forall i :: 0 <= i < |r| ==> r[i] == QuoteColumn(segs[i])
    decreases |segs|
  {
    if |segs| == 0 then [] else [QuoteColumn(segs[0])] + QuoteColumns(segs[1..])
  }

  /** The quoted non-empty segments of a nullable comma list, joined by ", "; null gives "". */
  function ColumnList(list: Option<string>): string
  {
    Join(", ", QuoteColumns(Segments(list)))
  }

  /**
    * `references "<scheme>"."<RefTableName>" (<RefColumns>)`, in the table's own
    * scheme, when RefTableName is neither null nor empty; nothing otherwise.
    * The number of referenced columns is not compared with the number of
    * constrained ones.
    */
  function ReferenceClause(c: SqlServerTableConstraint, scheme: string): (r: string)
    ensures r == "" <==> IsNullOrEmpty(c.RefTableName)
    ensures !IsNullOrEmpty(c.RefTableName) ==>
      var target := "references " + SchemeTable(scheme, c.RefTableName.value);
      |r| >= |target| && r[..|target|] == target
    ensures !IsNullOrEmpty(c.RefTableName) ==>
      var columns := " (" + ColumnList(c.RefColumns) + ")";
      |r| >= |columns| && r[|r| - |columns|..] == columns
    ensures r != "" ==> r[|r| - 1] == ')'
  {
    if IsNullOrEmpty(c.RefTableName) then ""
    else
      var target := "references " + SchemeTable(scheme, c.RefTableName.value);
      var columns := " (" + ColumnList(c.RefColumns) + ")";
      assert (target + columns)[..|target|] == target;
      assert (target + columns)[|target|..] == columns;
      target + columns
  }

  /** " on update <rule>" when UpdateRule is set, then " on delete <rule>" when DeleteRule is set. */
  function RuleClause(c: SqlServerTableConstraint): (r: string)
    ensures r == "" <==> IsNullOrEmpty(c.UpdateRule) && IsNullOrEmpty(c.DeleteRule)
    ensures !IsNullOrEmpty(c.UpdateRule) ==>
      var onUpdate := " on update " + c.UpdateRule.value;
      |r| >= |onUpdate| && r[..|onUpdate|] == onUpdate
    ensures !IsNullOrEmpty(c.DeleteRule) ==>
      var onDelete := " on delete " + c.DeleteRule.value;
      |r| >= |onDelete| && r[|r| - |onDelete|..] == onDelete
  {
    var onUpdate := if IsNullOrEmpty(c.UpdateRule) then "" else " on update " + c.UpdateRule.value;
    var onDelete := if IsNullOrEmpty(c.DeleteRule) then "" else " on delete " + c.DeleteRule.value;
    onUpdate + onDelete
  }

  /**
    * The two rules are independent: the clause is the update rule's part, as
    * if no delete rule were set, followed by the delete rule's part, as if no
    * update rule were set.
    */
  lemma RuleClauseIndependent(c: SqlServerTableConstraint)
    ensures RuleClause(c) == RuleClause(c.(DeleteRule := None)) + RuleClause(c.(UpdateRule := None))
    ensures IsNullOrEmpty(c.UpdateRule) && !IsNullOrEmpty(c.DeleteRule) ==> RuleClause(c) == " on delete " + c.DeleteRule.value
    ensures !IsNullOrEmpty(c.UpdateRule) && IsNullOrEmpty(c.DeleteRule) ==> RuleClause(c) == " on update " + c.UpdateRule.value
  {
    var onUpdate := if IsNullOrEmpty(c.UpdateRule) then "" else " on update " + c.UpdateRule.value;
    var onDelete := if IsNullOrEmpty(c.DeleteRule) then "" else " on delete " + c.DeleteRule.value;
    assert RuleClause(c) == onUpdate + onDelete;
    assert RuleClause(c.(DeleteRule := None)) == onUpdate + "";
    assert RuleClause(c.(UpdateRule := None)) == "" + onDelete;
    AppendEmpty(onUpdate);
    assert "" + onDelete == onDelete;
  }

  /** The constraint's name, double-quoted. */
  function QuotedName(c: SqlServerTableConstraint): string
  {
    "\"" + c.Name + "\""
  }

  /** The drop statement. */
  function DropStatement(c: SqlServerTableConstraint, scheme: string, tableName: string): string
  {
    "alter table " + SchemeTable(scheme, tableName) + " drop constraint if exists " + QuotedName(c) + " cascade;"
  }

  /** The add statement up to the constrained column list's closing parenthesis; Type is copied as it is. */
  function AddHead(c: SqlServerTableConstraint, scheme: string, tableName: string): string
  {
    "alter table " + SchemeTable(scheme, tableName) + " add constraint " + QuotedName(c) + " " + c.Type
    + " (" + ColumnList(Some(c.Columns)) + ")"
  }

  /** The two statements, drop first, as one trimmed text. */
  function ToSql(c: SqlServerTableConstraint, scheme: string, tableName: string): string
  {
    var add := AddHead(c, scheme, tableName) + " " + ReferenceClause(c, scheme) + " " + RuleClause(c);
    Trim("\n" + DropStatement(c, scheme, tableName) + "\n" + add + "\n")
  }

  // ---------------------------------------------------------------------------
  // The layout of the statements

  /**
    * ToSql is the drop statement, a line break, the add statement's head, then
    * the reference and rule clauses with the trailing white space trimmed off.
    */
  lemma ToSqlIsDropThenAdd(c: SqlServerTableConstraint, scheme: string, tableName: string)
    ensures ToSql(c, scheme, tableName)
         == DropStatement(c, scheme, tableName) + "\n"
            + (AddHead(c, scheme, tableName) + TrimEnd(" " + ReferenceClause(c, scheme) + " " + RuleClause(c)))
  {
    var drop := DropStatement(c, scheme, tableName);
    var head := AddHead(c, scheme, tableName);
    var tail := " " + ReferenceClause(c, scheme) + " " + RuleClause(c);
    assert drop[0] == 'a';
    assert head[|head| - 1] == ')';
    AppendAssoc(head + " " + ReferenceClause(c, scheme), " ", RuleClause(c));
    AppendAssoc(head, " ", ReferenceClause(c, scheme));
    AppendAssoc(head, " " + ReferenceClause(c, scheme), " " + RuleClause(c));
    AppendAssoc(" ", ReferenceClause(c, scheme), " " + RuleClause(c));
    AppendAssoc(" " + ReferenceClause(c, scheme), " ", RuleClause(c));
    assert head + tail == head + " " + ReferenceClause(c, scheme) + " " + RuleClause(c);
    TrimTwoLines(drop, head, tail);
  }

  /**
    * What follows the add statement's head: nothing for a constraint with no
    * reference and no rules (a primary key or a unique constraint), the
    * reference clause after one space when there are no rules, and both
    * clauses separated by a space otherwise (the rule clause starting with its
    * own space), provided the last rule does not end in white space.
    */
  lemma AddTailLayout(c: SqlServerTableConstraint, scheme: string)
    requires RuleClause(c) == "" || !IsWhiteSpace(RuleClause(c)[|RuleClause(c)| - 1])
    ensures var ref, rule := ReferenceClause(c, scheme), RuleClause(c);
      TrimEnd(" " + ref + " " + rule)
      == if rule != "" then " " + ref + " " + rule
         else if ref != "" then " " + ref
         else ""
  {
    var ref, rule := ReferenceClause(c, scheme), RuleClause(c);
    var tail := " " + ref + " " + rule;
    if rule != "" {
      assert tail[|tail| - 1] == rule[|rule| - 1];
    } else if ref != "" {
      assert tail == " " + ref + " ";
      assert (" " + ref + " ")[..|tail| - 1] == " " + ref;
      assert (" " + ref)[|" " + ref| - 1] == ')';
    } else {
      assert tail == "  ";
      assert TrimEnd(tail) == TrimEnd(tail[..1]) == TrimEnd(tail[..0]) == "";
    }
  }

  /**
    * A constraint with no reference and no rules, such as a primary key, comes
    * out as the drop statement and `alter table .. add constraint "<Name>"
    * <Type> (<columns>)`.
    */
  lemma ToSqlWithoutReference(c: SqlServerTableConstraint, scheme: string, tableName: string)
    requires IsNullOrEmpty(c.RefTableName) && IsNullOrEmpty(c.UpdateRule) && IsNullOrEmpty(c.DeleteRule)
    ensures ToSql(c, scheme, tableName)
         == DropStatement(c, scheme, tableName) + "\n" + AddHead(c, scheme, tableName)
  {
    ToSqlIsDropThenAdd(c, scheme, tableName);
    AddTailLayout(c, scheme);
    AppendEmpty(AddHead(c, scheme, tableName));
  }

  // ---------------------------------------------------------------------------
  // The column lists

  /** A name with no white space at either end is quoted as it is. */
  lemma QuoteColumnPlain(column: string)
    requires column != "" && !IsWhiteSpace(column[0]) && !IsWhiteSpace(column[|column| - 1])
    ensures QuoteColumn(column) == "\"" + column + "\""
  {
    assert "" + column + "" == column;
    TrimBetweenWhiteSpace("", column, "");
  }

  /**
    * Given a comma-joined list of column names, the column list quotes those
    * names, each trimmed, in their order, one per name; a null list gives an
    * empty one.
    */
  lemma ColumnListOfNames(names: seq<string>)
    requires AreSegments(names, ',')
    ensures ColumnList(Some(Join(",", names))) == Join(", ", QuoteColumns(names))
    ensures ColumnList(None) == ""
  {
    SplitJoin(names, ',');
  }
}
