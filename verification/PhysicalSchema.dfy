/** Physical tables and the SQL statements that change them inside a transaction. */
module PhysicalSchema {
  import opened Common
  import opened Text
  import opened AppModel

  datatype SqlType =
    | TEXT | INTEGER | BIGINT | DOUBLE_PRECISION | NUMERIC | BOOLEAN | DATE | TIMESTAMPTZ | UUID | JSONB
    | VARCHAR(length: nat)

  datatype PhysicalColumn = PhysicalColumn(sqlType: SqlType, isNullable: bool)

  /** A row holds the non-null cells only. */
  type Row = map<string, string>

  datatype PhysicalTable = PhysicalTable(columns: map<string, PhysicalColumn>, rows: seq<Row>)

  type Database = map<string, PhysicalTable>

  datatype SchemaError =
    | TableNameRequired
    | InvalidIdentifier(identifier: string)
    | UnsupportedDataType(column: string)
    | NotNullOnNonEmptyTable(column: string)
    | TypeDrift(column: string)
    | ExistingNulls(column: string)
    | NoSuchTable(table: string)
    | NoSuchColumn(column: string)
    | PrimaryKeyNotNull
    | InvalidPrefix(column: string)
    | Unresolved(table: string)

  function BuilderDataTypeToSQL(dataType: DataType): Option<SqlType> {
    match dataType
    case PlainText | LongText | RichText | Markdown | Email | Url | Phone => Some(TEXT)
    case Choice | Code | Enumeration | AutoNumber => Some(TEXT)
    case Integer => Some(INTEGER)
    case BigInteger | Serial => Some(BIGINT)
    case Double => Some(DOUBLE_PRECISION)
    case Decimal => Some(NUMERIC)
    case Boolean => Some(BOOLEAN)
    case Date => Some(DATE)
    case Timestamp => Some(TIMESTAMPTZ)
    case Uuid | Reference => Some(UUID)
    case Json => Some(JSONB)
    case VarChar(n) => Some(VARCHAR(n))
    case Unsupported(_) => None
  }

  /** Only an unknown data type has no SQL type. */
  lemma StoredIff(d: DataType)
    ensures BuilderDataTypeToSQL(d) == None <==> d.Unsupported?
  {}

  /** Which data types share an SQL type, each SQL type in turn; every other one is stored as text. */
  lemma StoredAs(d: DataType, t: SqlType)
    requires BuilderDataTypeToSQL(d) == Some(t)
    ensures t.UUID? <==> d.Uuid? || d.Reference?
    ensures t.BIGINT? <==> d.BigInteger? || d.Serial?
    ensures t.INTEGER? <==> d.Integer?
    ensures t.DOUBLE_PRECISION? <==> d.Double?
    ensures t.NUMERIC? <==> d.Decimal?
    ensures t.BOOLEAN? <==> d.Boolean?
    ensures t.DATE? <==> d.Date?
    ensures t.TIMESTAMPTZ? <==> d.Timestamp?
    ensures t.JSONB? <==> d.Json?
    ensures t.VARCHAR? <==> d.VarChar?
    ensures t.VARCHAR? ==> d == VarChar(t.length)
  {}

  /** normalizeSQLType: the length of a varchar is not compared. */
  function NormalizeSqlType(t: SqlType): SqlType { if t.VARCHAR? then VARCHAR(0) else t }

  // ---- What the database engine enforces ----

  ghost predicate TableValid(t: PhysicalTable) {
    && (forall row :: row in t.rows ==> row.Keys <= t.columns.Keys)
    && (forall c, row :: c in t.columns && !t.columns[c].isNullable && row in t.rows ==> c in row)
  }

  ghost predicate DatabaseValid(db: Database) {
    forall name :: name in db ==> TableValid(db[name])
  }

  // ---- Statements on one table ----

  /** The columns CREATE TABLE gives every record table. */
  function SystemColumns(): map<string, PhysicalColumn> {
    map[
      "_id" := PhysicalColumn(UUID, false),
      "_created_at" := PhysicalColumn(TIMESTAMPTZ, false),
      "_updated_at" := PhysicalColumn(TIMESTAMPTZ, false),
      "_update_count" := PhysicalColumn(BIGINT, false),
      "_deleted_at" := PhysicalColumn(TIMESTAMPTZ, true),
      "_created_by" := PhysicalColumn(UUID, true),
      "_updated_by" := PhysicalColumn(UUID, true),
      "_deleted_by" := PhysicalColumn(UUID, true)]
  }

  function NewTable(): PhysicalTable { PhysicalTable(SystemColumns(), []) }

  /** A new table has no rows and exactly the system columns; a record always has its id, its times and its version. */
  lemma NewTableIs()
    ensures NewTable().rows == [] && NewTable().columns.Keys == SystemColumnNames()
    ensures forall x :: x in NewTable().columns ==>
              (!NewTable().columns[x].isNullable <==> x in {"_id", "_created_at", "_updated_at", "_update_count"})
  {}

  /** ADD COLUMN IF NOT EXISTS: existing rows get NULL, which NOT NULL refuses. */
  function AddColumn(t: PhysicalTable, column: string, c: PhysicalColumn): Result<PhysicalTable, SchemaError> {
    if column in t.columns then Ok(t)
    else if !c.isNullable && t.rows != [] then Err(NotNullOnNonEmptyTable(column))
    else Ok(t.(columns := t.columns[column := c]))
  }

  function WithoutCell(rows: seq<Row>, column: string): seq<Row> {
    seq(|rows|, i requires 0 <= i < |rows| => rows[i] - {column})
  }

  /** DROP COLUMN IF EXISTS. */
  function DropColumn(t: PhysicalTable, column: string): PhysicalTable {
    PhysicalTable(t.columns - {column}, WithoutCell(t.rows, column))
  }

  /** COUNT(1) WHERE column IS NULL. */
  function NullCount(rows: seq<Row>, column: string): nat {
    if rows == [] then 0 else NullCount(rows[..|rows| - 1], column) + (if column in rows[|rows| - 1] then 0 else 1)
  }

  lemma {:induction false} NullCountZeroIff(rows: seq<Row>, column: string)
    ensures NullCount(rows, column) == 0 <==> forall row :: row in rows ==> column in row
  {
    if rows != [] {
      var front, last := rows[..|rows| - 1], rows[|rows| - 1];
      NullCountZeroIff(front, column);
      assert rows == front + [last];
    }
  }

  function SetNotNull(t: PhysicalTable, column: string): Result<PhysicalTable, SchemaError> {
    if column !in t.columns then Err(NoSuchColumn(column))
    else if NullCount(t.rows, column) > 0 then Err(ExistingNulls(column))
    else Ok(t.(columns := t.columns[column := t.columns[column].(isNullable := false)]))
  }

  function DropNotNull(t: PhysicalTable, column: string): Result<PhysicalTable, SchemaError> {
    if column !in t.columns then Err(NoSuchColumn(column))
    else if column == "_id" then Err(PrimaryKeyNotNull)
    else Ok(t.(columns := t.columns[column := t.columns[column].(isNullable := true)]))
  }

  // ---- Auto-number columns ----

  /** How auto-numbers are written: which prefixes are legal, how a value is rewritten, what a missing one becomes. */
  datatype AutoNumbering = AutoNumbering(
    validPrefix: string -> bool,
    blank: string -> bool,
    rewrite: (Column, string) -> string,
    issue: (Column, nat) -> string)

  /** Rewriting twice is rewriting once, and fresh numbers are already in their final form. */
  ghost predicate LawfulNumbering(a: AutoNumbering) {
    && (forall c, v :: !a.blank(v) ==> !a.blank(a.rewrite(c, v)) && a.rewrite(c, a.rewrite(c, v)) == a.rewrite(c, v))
    && (forall c, i :: !a.blank(a.issue(c, i)) && a.rewrite(c, a.issue(c, i)) == a.issue(c, i))
  }

  function NumberedCell(a: AutoNumbering, c: Column, name: string, row: Row, i: nat): string {
    if name !in row || a.blank(row[name]) then a.issue(c, i) else a.rewrite(c, row[name])
  }

  function NumberRows(a: AutoNumbering, c: Column, name: string, rows: seq<Row>): seq<Row> {
    seq(|rows|, i requires 0 <= i < |rows| => rows[i][name := NumberedCell(a, c, name, rows[i], i)])
  }

  function ColumnName(c: Column): string { NormalizeIdentifier(c.name) }

  /** applyTableAutoNumberStateTx: every auto-number column of the table is rewritten and back-filled. */
  function ApplyAutoNumbers(a: AutoNumbering, t: PhysicalTable,
                            columns: seq<Column>): Result<PhysicalTable, SchemaError> {
    if columns == [] then Ok(t) else
    var c := columns[|columns| - 1];
    var before := ApplyAutoNumbers(a, t, columns[..|columns| - 1]);
    if before.Err? || !c.dataType.AutoNumber? then before
    else if !a.validPrefix(c.prefix) then Err(InvalidPrefix(c.name))
    else if ColumnName(c) !in before.value.columns then Err(NoSuchColumn(ColumnName(c)))
    else Ok(before.value.(rows := NumberRows(a, c, ColumnName(c), before.value.rows)))
  }

  predicate IsAutoNumberOf(columns: seq<Column>, name: string) {
    exists i :: 0 <= i < |columns| && columns[i].dataType.AutoNumber? && ColumnName(columns[i]) == name
  }

  // ---- Rows carried from one state to another ----

  /** The rows correspond one to one and agree on `column`. */
  predicate SameCells(before: seq<Row>, after: seq<Row>, column: string) {
    && |before| == |after|
    && forall i :: 0 <= i < |before| ==>
         && (column in before[i] <==> column in after[i])
         && (column in before[i] ==> before[i][column] == after[i][column])
  }

  lemma {:induction false} AutoNumbersKeepOthers(a: AutoNumbering, t: PhysicalTable, columns: seq<Column>)
    ensures var r := ApplyAutoNumbers(a, t, columns);
            r.Ok? ==>
              && r.value.columns == t.columns
              && |r.value.rows| == |t.rows|
              && (forall x :: !IsAutoNumberOf(columns, x) ==> SameCells(t.rows, r.value.rows, x))
              && (forall i, x :: 0 <= i < |t.rows| && x in t.rows[i] ==> x in r.value.rows[i])
  {
    if columns != [] {
      hide ColumnName, IsAutoNumberOf, NumberedCell;
      var front, c := columns[..|columns| - 1], columns[|columns| - 1];
      AutoNumbersKeepOthers(a, t, front);
      assert columns == front + [c];
      AutoNumberOfAppend(front, c);
    }
  }

  lemma AutoNumberOfAppend(front: seq<Column>, c: Column)
    ensures forall x :: IsAutoNumberOf(front, x) ==> IsAutoNumberOf(front + [c], x)
    ensures c.dataType.AutoNumber? ==> IsAutoNumberOf(front + [c], ColumnName(c))
  {
    hide ColumnName;
    var columns := front + [c];
    assert columns[|front|] == c && forall i :: 0 <= i < |front| ==> columns[i] == front[i];
  }

  lemma {:induction false} AutoNumbersKeepValid(a: AutoNumbering, t: PhysicalTable, columns: seq<Column>)
    requires TableValid(t)
    ensures var r := ApplyAutoNumbers(a, t, columns); r.Ok? ==> TableValid(r.value)
  {
    if columns != [] {
      AutoNumbersKeepValid(a, t, columns[..|columns| - 1]);
      var c := columns[|columns| - 1];
      var before := ApplyAutoNumbers(a, t, columns[..|columns| - 1]);
      var r := ApplyAutoNumbers(a, t, columns);
      if r.Ok? && c.dataType.AutoNumber? {
        NumberRowsKeepValid(a, c, ColumnName(c), before.value);
      }
    }
  }

  lemma NumberRowsKeepValid(a: AutoNumbering, c: Column, name: string, t: PhysicalTable)
    requires TableValid(t) && name in t.columns
    ensures TableValid(t.(rows := NumberRows(a, c, name, t.rows)))
  {
    var rows := NumberRows(a, c, name, t.rows);
    forall row | row in rows
      ensures row.Keys <= t.columns.Keys
      ensures forall x :: x in t.columns && !t.columns[x].isNullable ==> x in row
    {
      var i :| 0 <= i < |rows| && rows[i] == row;
      assert t.rows[i] in t.rows;
    }
  }

  /** After numbering, no auto-number column holds a null. */
  lemma {:induction false} AutoNumbersFill(a: AutoNumbering, t: PhysicalTable, columns: seq<Column>, name: string)
    requires ApplyAutoNumbers(a, t, columns).Ok? && IsAutoNumberOf(columns, name)
    ensures forall row :: row in ApplyAutoNumbers(a, t, columns).value.rows ==> name in row
  {
    var front, c := columns[..|columns| - 1], columns[|columns| - 1];
    hide ColumnName, NumberedCell, NumberRows;
    if c.dataType.AutoNumber? && ColumnName(c) == name {
      NumberedFills(a, c, ApplyAutoNumbers(a, t, front).value.rows);
    } else {
      var i :| 0 <= i < |columns| && columns[i].dataType.AutoNumber? && ColumnName(columns[i]) == name;
      assert front[i] == columns[i];
      AutoNumbersFill(a, t, front, name);
      if c.dataType.AutoNumber? { NumberingKeepsCells(a, c, ApplyAutoNumbers(a, t, front).value.rows, name); }
    }
  }

  lemma NumberedFills(a: AutoNumbering, c: Column, rows: seq<Row>)
    ensures forall row :: row in NumberRows(a, c, ColumnName(c), rows) ==> ColumnName(c) in row
  {
    hide ColumnName, NumberedCell;
  }

  lemma NumberingKeepsCells(a: AutoNumbering, c: Column, rows: seq<Row>, name: string)
    requires forall row :: row in rows ==> name in row
    ensures forall row :: row in NumberRows(a, c, ColumnName(c), rows) ==> name in row
  {
    hide ColumnName, NumberedCell;
    var after := NumberRows(a, c, ColumnName(c), rows);
    forall row | row in after ensures name in row {
      var k :| 0 <= k < |after| && after[k] == row;
      assert rows[k] in rows;
    }
  }
}
