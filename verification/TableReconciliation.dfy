/** Bringing one physical table in line with its definition (internal/db/AppPublish.go). */
module TableReconciliation {
  import opened Common
  import opened Text
  import opened AppModel
  import opened PhysicalSchema

  predicate DistinctNames(columns: seq<Column>) {
    forall i, j :: 0 <= i < j < |columns| ==> ColumnName(columns[i]) != ColumnName(columns[j])
  }

  predicate HasName(columns: seq<Column>, name: string) {
    exists i :: 0 <= i < |columns| && ColumnName(columns[i]) == name
  }

  // ---- The three passes over the columns, as functions ----

  /** First pass: a missing column is added, an existing one must have the expected type. */
  function EnsureColumn(t: PhysicalTable, loaded: map<string, PhysicalColumn>,
                        c: Column): Result<PhysicalTable, SchemaError> {
    var name, sql := ColumnName(c), BuilderDataTypeToSQL(c.dataType);
    if sql.None? then Err(UnsupportedDataType(name))
    else if !IsSafeIdentifier(name) then Err(InvalidIdentifier(name))
    else if name !in loaded then
      (if !c.isNullable && !c.dataType.AutoNumber? && t.rows != [] then Err(NotNullOnNonEmptyTable(name))
       else AddColumn(t, name, PhysicalColumn(sql.value, c.isNullable || c.dataType.AutoNumber?)))
    else if NormalizeSqlType(sql.value) != NormalizeSqlType(loaded[name].sqlType) then Err(TypeDrift(name))
    else Ok(t)
  }

  function EnsureColumns(t: PhysicalTable, loaded: map<string, PhysicalColumn>,
                         columns: seq<Column>): Result<PhysicalTable, SchemaError> {
    if columns == [] then Ok(t) else
    var before := EnsureColumns(t, loaded, columns[..|columns| - 1]);
    if before.Err? then before else EnsureColumn(before.value, loaded, columns[|columns| - 1])
  }

  /** Last pass: nullability follows the definition, and NOT NULL is set only when the data allows it. */
  function SetNullability(t: PhysicalTable, loaded: map<string, PhysicalColumn>,
                          c: Column): Result<PhysicalTable, SchemaError> {
    var name := ColumnName(c);
    if !IsSafeIdentifier(name) then Err(InvalidIdentifier(name))
    else if name !in loaded || c.isNullable == loaded[name].isNullable then Ok(t)
    else if c.isNullable then DropNotNull(t, name)
    else SetNotNull(t, name)
  }

  function SetNullabilities(t: PhysicalTable, loaded: map<string, PhysicalColumn>,
                            columns: seq<Column>): Result<PhysicalTable, SchemaError> {
    if columns == [] then Ok(t) else
    var before := SetNullabilities(t, loaded, columns[..|columns| - 1]);
    if before.Err? then before else SetNullability(before.value, loaded, columns[|columns| - 1])
  }

  /** ensureDefinitionTableSchemaTx on the table it finds or has just created. */
  function EnsureTable(a: AutoNumbering, t: PhysicalTable, columns: seq<Column>): Result<PhysicalTable, SchemaError> {
    var added := EnsureColumns(t, t.columns, columns);
    if added.Err? then added else
    var numbered := ApplyAutoNumbers(a, added.value, columns);
    if numbered.Err? then numbered else
    SetNullabilities(numbered.value, numbered.value.columns, columns)
  }

  // ---- What the passes establish ----

  predicate TypeAsDefined(t: PhysicalTable, c: Column) {
    && BuilderDataTypeToSQL(c.dataType).Some?
    && IsSafeIdentifier(ColumnName(c))
    && ColumnName(c) in t.columns
    && NormalizeSqlType(t.columns[ColumnName(c)].sqlType) == NormalizeSqlType(BuilderDataTypeToSQL(c.dataType).value)
  }

  predicate TypesAsDefined(t: PhysicalTable, columns: seq<Column>) {
    forall i :: 0 <= i < |columns| ==> TypeAsDefined(t, columns[i])
  }

  /** Every column of the definition exists, at its type and with its nullability. */
  predicate Conforms(t: PhysicalTable, columns: seq<Column>) {
    && TypesAsDefined(t, columns)
    && forall i :: 0 <= i < |columns| ==> t.columns[ColumnName(columns[i])].isNullable == columns[i].isNullable
  }

  lemma {:induction false} EnsureColumnsResult(t: PhysicalTable, columns: seq<Column>)
    requires DistinctNames(columns) && EnsureColumns(t, t.columns, columns).Ok?
    ensures var r := EnsureColumns(t, t.columns, columns).value;
            && r.rows == t.rows
            && (forall x :: x in r.columns <==> x in t.columns || HasName(columns, x))
            && (forall x :: x in t.columns ==> r.columns[x] == t.columns[x])
            && TypesAsDefined(r, columns)
            && (TableValid(t) ==> TableValid(r))
  {
    if columns != [] {
      hide EnsureColumn, TypesAsDefined, HasName, TableValid, ColumnName, DistinctNames;
      var front, c := columns[..|columns| - 1], columns[|columns| - 1];
      assert columns == front + [c];
      DistinctWithout(front, c);
      EnsureColumnsResult(t, front);
      EnsureColumnResult(t, front, c);
    } else {
      assert forall x :: !HasName(columns, x);
    }
  }

  lemma DistinctWithout(front: seq<Column>, c: Column)
    requires DistinctNames(front + [c])
    ensures DistinctNames(front)
  {
    hide ColumnName;
    assert forall i :: 0 <= i < |front| ==> (front + [c])[i] == front[i];
  }

  lemma EnsureColumnResult(t: PhysicalTable, front: seq<Column>, c: Column)
    requires DistinctNames(front + [c]) && EnsureColumns(t, t.columns, front).Ok?
    requires var b := EnsureColumns(t, t.columns, front).value;
             && b.rows == t.rows
             && (forall x :: x in b.columns <==> x in t.columns || HasName(front, x))
             && (forall x :: x in t.columns ==> b.columns[x] == t.columns[x])
             && TypesAsDefined(b, front)
             && (TableValid(t) ==> TableValid(b))
             && EnsureColumn(b, t.columns, c).Ok?
    ensures var r := EnsureColumn(EnsureColumns(t, t.columns, front).value, t.columns, c).value;
            && r.rows == t.rows
            && (forall x :: x in r.columns <==> x in t.columns || HasName(front + [c], x))
            && (forall x :: x in t.columns ==> r.columns[x] == t.columns[x])
            && TypesAsDefined(r, front + [c])
            && (TableValid(t) ==> TableValid(r))
  {
    hide IsSafeIdentifier, ColumnName, EnsureColumns;
    var columns := front + [c];
    var b := EnsureColumns(t, t.columns, front).value;
    var r := EnsureColumn(b, t.columns, c).value;
    HasNameAppend(front, c);
    assert ColumnName(c) !in t.columns ==> !HasName(front, ColumnName(c)) by { NewNameIsNew(front, c); }
    forall i | 0 <= i < |columns| ensures TypeAsDefined(r, columns[i]) {
      if i < |front| { assert columns[i] == front[i] && TypeAsDefined(b, front[i]); }
    }
  }

  lemma HasNameAppend(front: seq<Column>, c: Column)
    ensures forall x :: HasName(front + [c], x) <==> HasName(front, x) || x == ColumnName(c)
  {
    hide ColumnName;
    var columns := front + [c];
    forall x ensures HasName(columns, x) <==> HasName(front, x) || x == ColumnName(c) {
      if HasName(front, x) {
        var i :| 0 <= i < |front| && ColumnName(front[i]) == x;
        assert columns[i] == front[i];
      }
      if x == ColumnName(c) { assert columns[|front|] == c; }
    }
  }

  lemma NewNameIsNew(front: seq<Column>, c: Column)
    requires DistinctNames(front + [c])
    ensures !HasName(front, ColumnName(c))
  {
    hide ColumnName;
    var columns := front + [c];
    forall i | 0 <= i < |front| ensures ColumnName(front[i]) != ColumnName(c) {
      assert columns[i] == front[i] && columns[|front|] == c;
    }
  }

  /** After the last pass over the first columns, exactly those have the defined nullability. */
  ghost predicate NullabilitySet(t: PhysicalTable, r: PhysicalTable, columns: seq<Column>) {
    && r.rows == t.rows
    && r.columns.Keys == t.columns.Keys
    && (forall x :: x in t.columns ==> r.columns[x].sqlType == t.columns[x].sqlType)
    && (forall x :: x in t.columns && !HasName(columns, x) ==> r.columns[x] == t.columns[x])
    && (forall i :: 0 <= i < |columns| ==>
        ColumnName(columns[i]) in t.columns && r.columns[ColumnName(columns[i])].isNullable == columns[i].isNullable)
  }

  lemma {:induction false} SetNullabilitiesResult(t: PhysicalTable, columns: seq<Column>)
    requires DistinctNames(columns) && (forall i :: 0 <= i < |columns| ==> ColumnName(columns[i]) in t.columns)
    requires SetNullabilities(t, t.columns, columns).Ok?
    ensures NullabilitySet(t, SetNullabilities(t, t.columns, columns).value, columns)
    ensures TableValid(t) ==> TableValid(SetNullabilities(t, t.columns, columns).value)
  {
    assert columns == [] ==> NullabilitySet(t, t, columns);
    if columns != [] {
      var front, c := columns[..|columns| - 1], columns[|columns| - 1];
      assert columns == front + [c];
      assert ColumnName(columns[|front|]) in t.columns;
      hide ColumnName, SetNullability, NullabilitySet, TableValid;
      assert forall i :: 0 <= i < |front| ==> front[i] == columns[i];
      SetNullabilitiesResult(t, front);
      SetNullabilityResult(t, SetNullabilities(t, t.columns, front).value, front, c);
    }
  }

  lemma SetNullabilityResult(t: PhysicalTable, b: PhysicalTable, front: seq<Column>, c: Column)
    requires DistinctNames(front + [c]) && NullabilitySet(t, b, front) && ColumnName(c) in t.columns
    requires SetNullability(b, t.columns, c).Ok?
    ensures NullabilitySet(t, SetNullability(b, t.columns, c).value, front + [c])
    ensures TableValid(b) ==> TableValid(SetNullability(b, t.columns, c).value)
  {
    hide SetNullability, ColumnName, HasName, DistinctNames, TableValid;
    var columns := front + [c];
    HasNameAppend(front, c);
    NewNameIsNew(front, c);
    OneNullability(b, t.columns, c);
    var r := SetNullability(b, t.columns, c).value;
    forall i | 0 <= i < |columns|
      ensures ColumnName(columns[i]) in t.columns
                && r.columns[ColumnName(columns[i])].isNullable == columns[i].isNullable
    {
      if i < |front| {
        assert columns[i] == front[i];
        HasNameAt(front, i);
      }
    }
  }

  lemma HasNameAt(columns: seq<Column>, i: nat)
    requires i < |columns|
    ensures HasName(columns, ColumnName(columns[i]))
  {
    hide ColumnName;
  }

  /** One column gets its nullability, all else stays. */
  lemma OneNullability(b: PhysicalTable, loaded: map<string, PhysicalColumn>, c: Column)
    requires SetNullability(b, loaded, c).Ok? && ColumnName(c) in loaded && ColumnName(c) in b.columns
    requires b.columns[ColumnName(c)] == loaded[ColumnName(c)]
    ensures var r := SetNullability(b, loaded, c).value;
            && r.rows == b.rows && r.columns.Keys == b.columns.Keys
            && (forall x :: x in b.columns ==> r.columns[x].sqlType == b.columns[x].sqlType)
            && (forall x :: x in b.columns && x != ColumnName(c) ==> r.columns[x] == b.columns[x])
            && r.columns[ColumnName(c)].isNullable == c.isNullable
            && (TableValid(b) ==> TableValid(r))
  {
    NullCountZeroIff(b.rows, ColumnName(c));
    hide IsSafeIdentifier, ColumnName, NullCount;
  }

  /** The whole step: the table conforms, keeps its rows and its other columns, and stays valid. */
  lemma EnsureTableResult(a: AutoNumbering, t: PhysicalTable, columns: seq<Column>)
    requires DistinctNames(columns) && EnsureTable(a, t, columns).Ok?
    ensures var r := EnsureTable(a, t, columns).value;
            && Conforms(r, columns)
            && (forall x :: x in r.columns <==> x in t.columns || HasName(columns, x))
            && (forall x :: x in t.columns && !HasName(columns, x) ==> r.columns[x] == t.columns[x])
            && |r.rows| == |t.rows|
            && (forall x :: !IsAutoNumberOf(columns, x) ==> SameCells(t.rows, r.rows, x))
            && (TableValid(t) ==> TableValid(r))
  {
    hide *;
    EnsureTableParts(a, t, columns);
    EnsureColumnsResult(t, columns);
    var added := EnsureColumns(t, t.columns, columns).value;
    AutoNumbersKeepOthers(a, added, columns);
    var numbered := ApplyAutoNumbers(a, added, columns).value;
    SameTypes(added, numbered, columns);
    SetNullabilitiesResult(numbered, columns);
    if TableValid(t) { AutoNumbersKeepValid(a, added, columns); }
    NullabilityConforms(numbered, EnsureTable(a, t, columns).value, columns);
  }

  lemma EnsureTableParts(a: AutoNumbering, t: PhysicalTable, columns: seq<Column>)
    requires EnsureTable(a, t, columns).Ok?
    ensures EnsureColumns(t, t.columns, columns).Ok?
    ensures var added := EnsureColumns(t, t.columns, columns).value;
            && ApplyAutoNumbers(a, added, columns).Ok?
            && var numbered := ApplyAutoNumbers(a, added, columns).value;
               EnsureTable(a, t, columns) == SetNullabilities(numbered, numbered.columns, columns)
  {
    hide EnsureColumns, ApplyAutoNumbers, SetNullabilities;
  }

  lemma SameTypes(t: PhysicalTable, r: PhysicalTable, columns: seq<Column>)
    requires TypesAsDefined(t, columns) && r.columns == t.columns
    ensures TypesAsDefined(r, columns)
    ensures forall i :: 0 <= i < |columns| ==> ColumnName(columns[i]) in r.columns
  {
    hide ColumnName, IsSafeIdentifier;
    forall i | 0 <= i < |columns| ensures TypeAsDefined(r, columns[i]) { assert TypeAsDefined(t, columns[i]); }
  }

  lemma NullabilityConforms(t: PhysicalTable, r: PhysicalTable, columns: seq<Column>)
    requires TypesAsDefined(t, columns) && NullabilitySet(t, r, columns)
    ensures Conforms(r, columns)
    ensures r.rows == t.rows && (forall x :: x in r.columns <==> x in t.columns)
    ensures forall x :: x in t.columns && !HasName(columns, x) ==> r.columns[x] == t.columns[x]
  {
    hide ColumnName, IsSafeIdentifier, HasName;
    forall i | 0 <= i < |columns| ensures TypeAsDefined(r, columns[i]) { assert TypeAsDefined(t, columns[i]); }
  }

  /** Every auto-number cell is there and already in its final form. */
  ghost predicate Numbered(a: AutoNumbering, rows: seq<Row>, c: Column) {
    forall row :: row in rows ==>
      ColumnName(c) in row && !a.blank(row[ColumnName(c)]) && a.rewrite(c, row[ColumnName(c)]) == row[ColumnName(c)]
  }

  ghost predicate AllNumbered(a: AutoNumbering, t: PhysicalTable, columns: seq<Column>) {
    forall i :: 0 <= i < |columns| && columns[i].dataType.AutoNumber? ==>
      a.validPrefix(columns[i].prefix) && ColumnName(columns[i]) in t.columns && Numbered(a, t.rows, columns[i])
  }

  lemma NumberRowsNumbers(a: AutoNumbering, c: Column, rows: seq<Row>)
    requires LawfulNumbering(a)
    ensures Numbered(a, NumberRows(a, c, ColumnName(c), rows), c)
  {
    hide ColumnName;
    var name := ColumnName(c);
    var after := NumberRows(a, c, name, rows);
    forall row | row in after ensures name in row && !a.blank(row[name]) && a.rewrite(c, row[name]) == row[name] {
      var i :| 0 <= i < |after| && after[i] == row;
    }
  }

  lemma NumberRowsKeepNumbered(a: AutoNumbering, c: Column, other: Column, rows: seq<Row>)
    requires ColumnName(c) != ColumnName(other) && Numbered(a, rows, other)
    ensures Numbered(a, NumberRows(a, c, ColumnName(c), rows), other)
  {
    hide ColumnName;
    var after := NumberRows(a, c, ColumnName(c), rows);
    forall row | row in after
      ensures ColumnName(other) in row && !a.blank(row[ColumnName(other)])
                && a.rewrite(other, row[ColumnName(other)]) == row[ColumnName(other)]
    {
      var i :| 0 <= i < |after| && after[i] == row;
      assert rows[i] in rows;
    }
  }

  lemma {:induction false} AutoNumbersAllNumbered(a: AutoNumbering, t: PhysicalTable, columns: seq<Column>)
    requires LawfulNumbering(a) && DistinctNames(columns) && ApplyAutoNumbers(a, t, columns).Ok?
    ensures AllNumbered(a, ApplyAutoNumbers(a, t, columns).value, columns)
    ensures ApplyAutoNumbers(a, t, columns).value.columns == t.columns
  {
    if columns != [] {
      var front, c := columns[..|columns| - 1], columns[|columns| - 1];
      AutoNumbersAllNumbered(a, t, front);
      assert columns == front + [c];
      hide ColumnName, Numbered;
      var before := ApplyAutoNumbers(a, t, front).value;
      var r := ApplyAutoNumbers(a, t, columns).value;
      if c.dataType.AutoNumber? {
        NumberRowsNumbers(a, c, before.rows);
        forall i | 0 <= i < |front| && front[i].dataType.AutoNumber? ensures Numbered(a, r.rows, front[i]) {
          assert columns[i] == front[i] && columns[|front|] == c;
          NumberRowsKeepNumbered(a, c, front[i], before.rows);
        }
      }
      forall i | 0 <= i < |columns| && columns[i].dataType.AutoNumber?
        ensures a.validPrefix(columns[i].prefix) && ColumnName(columns[i]) in r.columns
                  && Numbered(a, r.rows, columns[i])
      {
        if i < |front| { assert columns[i] == front[i]; }
      }
    }
  }

  lemma {:induction false} NumberedStays(a: AutoNumbering, t: PhysicalTable, columns: seq<Column>)
    requires AllNumbered(a, t, columns)
    ensures ApplyAutoNumbers(a, t, columns) == Ok(t)
  {
    if columns != [] {
      var front, c := columns[..|columns| - 1], columns[|columns| - 1];
      assert forall i :: 0 <= i < |front| ==> front[i] == columns[i];
      NumberedStays(a, t, front);
      if c.dataType.AutoNumber? {
        var rows := NumberRows(a, c, ColumnName(c), t.rows);
        forall i | 0 <= i < |rows| ensures rows[i] == t.rows[i] {
          assert t.rows[i] in t.rows;
        }
        assert rows == t.rows;
      }
    }
  }

  lemma {:induction false} ConformingStays(t: PhysicalTable, columns: seq<Column>)
    requires Conforms(t, columns)
    ensures EnsureColumns(t, t.columns, columns) == Ok(t)
    ensures SetNullabilities(t, t.columns, columns) == Ok(t)
  {
    if columns != [] {
      var front, c := columns[..|columns| - 1], columns[|columns| - 1];
      hide ColumnName, IsSafeIdentifier;
      assert forall i :: 0 <= i < |front| ==> front[i] == columns[i];
      assert forall i :: 0 <= i < |front| ==> TypeAsDefined(t, columns[i]);
      ConformingStays(t, front);
      assert TypeAsDefined(t, columns[|columns| - 1]);
    }
  }

  /** Ensuring a table that has just been ensured leaves it as it is. */
  lemma EnsureTableTwice(a: AutoNumbering, t: PhysicalTable, columns: seq<Column>)
    requires LawfulNumbering(a) && DistinctNames(columns) && EnsureTable(a, t, columns).Ok?
    ensures EnsureTable(a, EnsureTable(a, t, columns).value, columns) == Ok(EnsureTable(a, t, columns).value)
  {
    var r := EnsureTable(a, t, columns).value;
    EnsuredIsNumbered(a, t, columns);
    EnsureTableResult(a, t, columns);
    hide EnsureColumns, ApplyAutoNumbers, SetNullabilities, ColumnName, IsSafeIdentifier, TableValid, AllNumbered,
         Conforms, SameCells, HasName;
    ConformingStays(r, columns);
    NumberedStays(a, r, columns);
  }

  lemma EnsuredIsNumbered(a: AutoNumbering, t: PhysicalTable, columns: seq<Column>)
    requires LawfulNumbering(a) && DistinctNames(columns) && EnsureTable(a, t, columns).Ok?
    ensures AllNumbered(a, EnsureTable(a, t, columns).value, columns)
  {
    hide EnsureColumns, ApplyAutoNumbers, SetNullabilities, ColumnName, IsSafeIdentifier, Numbered, TableValid,
         LawfulNumbering, DistinctNames, HasName;
    EnsureColumnsResult(t, columns);
    var added := EnsureColumns(t, t.columns, columns).value;
    AutoNumbersAllNumbered(a, added, columns);
    assert forall i :: 0 <= i < |columns| ==> TypeAsDefined(added, columns[i]);
    SetNullabilitiesResult(ApplyAutoNumbers(a, added, columns).value, columns);
  }
}
