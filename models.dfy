// The migrator's constants (Worker.cs, class Props) and its descriptor records
// (the Models folder): plain values, read by the SQL builders.

module Props {
  /** Rows per source fetch when the SQL Server configuration sets no batch size. */
  const BatchSize: nat := 10000

  /** Rows per multi-row insert statement sent to PostgreSQL. */
  const InsertPageSize: nat := 1000
}

module Models {
  import Strings

  /** A value that may be null (a C# nullable reference). */
  datatype Option<T> = None | Some(value: T)

  /** string.IsNullOrEmpty */
  predicate IsNullOrEmpty(s: Option<string>)
  {
    s.None? || s.value == ""
  }

  /**
    * The non-empty comma-separated segments of a nullable list, as
    * `list?.Split(',', RemoveEmptyEntries) ?? Array.Empty<string>()` gives
    * them: a null list has none.
    */
  function Segments(list: Option<string>): (r: seq<string>)
    ensures list.None? ==> r == []
    ensures forall i :: 0 <= i < |r| ==> r[i] != "" && ',' !in r[i]
  {
    if list.None? then [] else Strings.Split(list.value, ',')
  }

  /** The `"scheme"."table"` reference every builder quotes the same way. */
  function SchemeTable(scheme: string, tableName: string): string
  {
    "\"" + scheme + "\".\"" + tableName + "\""
  }

  /**
    * The resume cursor: where the copy of one table starts again when the
    * destination already holds rows.
    */
  datatype StartOffsetLimit = StartOffsetLimit(Offset: nat, Limit: nat, NextPageIndex: nat)

  /**
    * A secondary index read from the SQL Server catalog. Columns and
    * IncludedColumns are comma-separated column names; key columns may carry
    * a " desc" marker.
    */
  datatype SqlServerTableIndex = SqlServerTableIndex(
    Name: string,
    IsUnique: bool,
    Columns: string,
    IncludedColumns: Option<string>)

  /**
    * A primary-key, unique or foreign-key constraint read from the catalog.
    * Type is the catalog's constraint type text ("PRIMARY KEY", "UNIQUE",
    * "FOREIGN KEY"); the Ref* fields and the rules are set for foreign keys.
    */
  datatype SqlServerTableConstraint = SqlServerTableConstraint(
    Name: string,
    Type: string,
    UpdateRule: Option<string>,
    DeleteRule: Option<string>,
    Columns: string,
    RefTableName: Option<string>,
    RefColumns: Option<string>)
}
