/** The statements of a publication, run on a transaction's copy of the database (internal/db/AppPublish.go). */
module PublicationTransaction {
  import opened Common
  import opened Text
  import opened AppModel
  import opened TableInheritance
  import opened DefinitionValidation
  import opened PhysicalSchema
  import opened TableReconciliation
  import opened SchemaPublication

  /** Dropping over a prefix of the published columns, on a database that may not have the table. */
  ghost predicate DroppedSoFar(before: Database, now: Database, name: string, published: seq<Column>, next: Table) {
    if name in before then name in now && now == before[name := now[name]]
        && DropColumns(before[name], published, next) == Ok(now[name])
    else now == before && DropsNothing(published, next)
  }

  lemma DropStep(before: Database, now: Database, name: string, published: seq<Column>, i: nat, next: Table)
    requires i < |published| && DroppedSoFar(before, now, name, published[..i], next)
    ensures !IsDropped(ColumnName(published[i]), next) ==> DroppedSoFar(before, now, name, published[..i + 1], next)
    ensures IsDropped(ColumnName(published[i]), next) && name in now && IsSafeIdentifier(ColumnName(published[i])) ==>
              DroppedSoFar(before, now[name := DropColumn(now[name], ColumnName(published[i]))], name,
                           published[..i + 1], next)
  {
    hide ColumnName, IsDropped, IsSafeIdentifier, DropColumn;
    assert published[..i + 1][..i] == published[..i] && published[..i + 1][i] == published[i];
  }

  /** Once a prefix fails, the whole fails. */
  lemma {:induction false} DropPrefixFails(t: PhysicalTable, published: seq<Column>, i: nat, next: Table)
    requires i <= |published| && DropColumns(t, published[..i], next).Err?
    ensures DropColumns(t, published, next).Err?
    decreases |published|
  {
    if i == |published| {
      assert published[..i] == published;
    } else {
      assert published[..|published| - 1][..i] == published[..i];
      DropPrefixFails(t, published[..|published| - 1], i, next);
    }
  }

  lemma {:induction false} ReconcilePrefixFails(db: Database, published: seq<Table>, i: nat, next: Definition)
    requires i <= |published| && ReconcileTables(db, published[..i], next).Err?
    ensures ReconcileTables(db, published, next).Err?
    decreases |published|
  {
    if i == |published| {
      assert published[..i] == published;
    } else {
      assert published[..|published| - 1][..i] == published[..i];
      ReconcilePrefixFails(db, published[..|published| - 1], i, next);
    }
  }

  lemma {:induction false} EnsureColumnsPrefixFails(t: PhysicalTable, loaded: map<string, PhysicalColumn>,
                                                    columns: seq<Column>, i: nat)
    requires i <= |columns| && EnsureColumns(t, loaded, columns[..i]).Err?
    ensures EnsureColumns(t, loaded, columns).Err?
    decreases |columns|
  {
    if i == |columns| {
      assert columns[..i] == columns;
    } else {
      assert columns[..|columns| - 1][..i] == columns[..i];
      EnsureColumnsPrefixFails(t, loaded, columns[..|columns| - 1], i);
    }
  }

  lemma {:induction false} SetNullabilitiesPrefixFails(t: PhysicalTable, loaded: map<string, PhysicalColumn>,
                                                       columns: seq<Column>, i: nat)
    requires i <= |columns| && SetNullabilities(t, loaded, columns[..i]).Err?
    ensures SetNullabilities(t, loaded, columns).Err?
    decreases |columns|
  {
    if i == |columns| {
      assert columns[..i] == columns;
    } else {
      assert columns[..|columns| - 1][..i] == columns[..i];
      SetNullabilitiesPrefixFails(t, loaded, columns[..|columns| - 1], i);
    }
  }

  lemma {:induction false} ApplyPrefixFails(env: Environment, db: Database, d: Definition, i: nat, n: nat)
    requires WalksValues(env.order) && i <= n <= |d.tables| && ApplyTables(env, db, d, i).Err?
    ensures ApplyTables(env, db, d, n).Err?
    decreases n
  {
    hide ResolvedColumns, EnsureDefinitionTable;
    if i < n { ApplyPrefixFails(env, db, d, i, n - 1); }
  }

  lemma ApplyDefinitionIs(env: Environment, db: Database, d: Definition)
    requires WalksValues(env.order)
    ensures ApplyDefinition(env, db, d) == if OwnsPhysicalSchema(d) then ApplyTables(env, db, d, |d.tables|) else Ok(db)
    ensures ApplyTables(env, db, d, 0) == Ok(db)
  {}

  lemma ApplyStep(env: Environment, db: Database, d: Definition, i: nat, before: Database)
    requires WalksValues(env.order) && i < |d.tables| && ApplyTables(env, db, d, i) == Ok(before)
    ensures var columns := ResolvedColumns(env, d, d.tables[i]);
            if columns.Err? then ApplyTables(env, db, d, i + 1).Err?
            else ApplyTables(env, db, d, i + 1) == EnsureDefinitionTable(env, before, d.tables[i], columns.value)
  {
    hide ResolvedColumns, EnsureDefinitionTable;
  }

  lemma StartInScope(env: Environment, d: Definition, t: Table)
    ensures RegistryFor(env, d, t).order == env.order
    ensures InScope(RegistryFor(env, d, t), Link(PublishedApp(d), t))
  {}

  lemma ResolvedColumnsAre(env: Environment, d: Definition, t: Table)
    requires WalksValues(env.order) && InScope(RegistryFor(env, d, t), Link(PublishedApp(d), t))
               && WalksValues(RegistryFor(env, d, t).order)
    ensures ResolvedColumns(env, d, t) == ResolveColumns(RegistryFor(env, d, t), Link(PublishedApp(d), t), {})
  {
    hide ResolveColumns;
  }

  lemma ReconcileIs(db: Database, published: Option<Definition>, next: Definition)
    ensures Reconcile(db, published, next) ==
              if published.None? || !OwnsPhysicalSchema(published.value) then Ok(db)
                  else ReconcileTables(db, published.value.tables, next)
    ensures ReconcileTables(db, [], next) == Ok(db)
  {}

  lemma ReconcileStep(db: Database, tables: seq<Table>, i: nat, next: Definition, before: Database)
    requires i < |tables| && ReconcileTables(db, tables[..i], next) == Ok(before)
    ensures ReconcileTables(db, tables[..i + 1], next) == ReconcileTable(before, tables[i], next)
  {
    hide ReconcileTable;
    assert tables[..i + 1][..i] == tables[..i];
  }

  lemma NextNullability(t: PhysicalTable, b: PhysicalTable, loaded: map<string, PhysicalColumn>, columns: seq<Column>,
                        i: nat)
    requires i < |columns| && SetNullabilities(t, loaded, columns[..i]) == Ok(b)
    ensures SetNullabilities(t, loaded, columns[..i + 1]) == SetNullability(b, loaded, columns[i])
  {
    hide SetNullability;
    assert columns[..i + 1][..i] == columns[..i] && columns[..i + 1][i] == columns[i];
  }

  class Transaction {
    var db: Database

    constructor (committed: Database)
      ensures db == committed
    {
      db := committed;
    }

    // ---- Statements ----

    method ExecDropTable(table: string) returns (error: Option<SchemaError>)
      modifies this
      ensures error.None? <==> IsSafeIdentifier(table)
      ensures db == if error.None? then old(db) - {table} else old(db)
    {
      if !IsSafeIdentifier(table) {
        return Some(InvalidIdentifier(table));
      }
      db := db - {table};
      return None;
    }

    method ExecDropColumn(table: string, column: string) returns (error: Option<SchemaError>)
      modifies this
      ensures error.None? <==> IsSafeIdentifier(table) && IsSafeIdentifier(column) && table in old(db)
      ensures db == if error.None? then old(db)[table := DropColumn(old(db)[table], column)] else old(db)
    {
      if !IsSafeIdentifier(table) {
        return Some(InvalidIdentifier(table));
      }
      if !IsSafeIdentifier(column) {
        return Some(InvalidIdentifier(column));
      }
      if table !in db {
        return Some(NoSuchTable(table));
      }
      db := db[table := DropColumn(db[table], column)];
      return None;
    }

    method ExecAddColumn(table: string, column: string, c: PhysicalColumn) returns (error: Option<SchemaError>)
      requires table in db
      modifies this
      ensures error.None? <==> AddColumn(old(db)[table], column, c).Ok?
      ensures db == if error.None? then old(db)[table := AddColumn(old(db)[table], column, c).value] else old(db)
    {
      var r := AddColumn(db[table], column, c);
      if r.Err? {
        return Some(r.error);
      }
      db := db[table := r.value];
      return None;
    }

    method ExecSetNotNull(table: string, column: string) returns (error: Option<SchemaError>)
      requires table in db
      modifies this
      ensures error.None? <==> SetNotNull(old(db)[table], column).Ok?
      ensures db == if error.None? then old(db)[table := SetNotNull(old(db)[table], column).value] else old(db)
    {
      var r := SetNotNull(db[table], column);
      if r.Err? {
        return Some(r.error);
      }
      db := db[table := r.value];
      return None;
    }

    method ExecDropNotNull(table: string, column: string) returns (error: Option<SchemaError>)
      requires table in db
      modifies this
      ensures error.None? <==> DropNotNull(old(db)[table], column).Ok?
      ensures db == if error.None? then old(db)[table := DropNotNull(old(db)[table], column).value] else old(db)
    {
      var r := DropNotNull(db[table], column);
      if r.Err? {
        return Some(r.error);
      }
      db := db[table := r.value];
      return None;
    }

    // ---- Reconciling ----

    method ReconcileDefinitionColumns(tableName: string, published: seq<Column>, next: Table)
        returns (error: Option<SchemaError>)
      requires IsSafeIdentifier(tableName) || DropsNothing(published, next)
      modifies this
      ensures error.None? ==> DroppedSoFar(old(db), db, tableName, published, next)
      ensures error.Some? ==> !DropsNothing(published, next)
      ensures error.Some? && tableName in old(db) ==> DropColumns(old(db)[tableName], published, next).Err?
    {
      for i := 0 to |published|
        invariant DroppedSoFar(old(db), db, tableName, published[..i], next)
      {
        DropStep(old(db), db, tableName, published, i, next);
        var columnName := ColumnName(published[i]);
        if columnName == "" || IsSystemColumnName(columnName) || HasName(next.columns, columnName) {
          continue;
        }
        assert IsDropped(columnName, next);
        var failed := ExecDropColumn(tableName, columnName);
        if failed.Some? {
          assert published[..i + 1][..i] == published[..i] && published[..i + 1][i] == published[i];
          if tableName in old(db) { DropPrefixFails(old(db)[tableName], published, i + 1, next); }
          return failed;
        }
      }
      assert published[..|published|] == published;
      return None;
    }

    method ReconcileDefinitionTable(published: Table, next: Definition) returns (error: Option<SchemaError>)
      modifies this
      ensures error.None? ==> ReconcileTable(old(db), published, next) == Ok(db)
      ensures error.Some? ==> ReconcileTable(old(db), published, next).Err?
    {
      var tableName := NameOf(published);
      if tableName == "" {
        return None;
      }
      var nextTable := NextTable(next.tables, tableName);
      if nextTable.None? {
        error := ExecDropTable(tableName);
        return;
      }
      if !IsSafeIdentifier(tableName) && !DropsNothing(published.columns, nextTable.value) {
        return Some(InvalidIdentifier(tableName));
      }
      error := ReconcileDefinitionColumns(tableName, published.columns, nextTable.value);
      if tableName in old(db) && DropsNothing(published.columns, nextTable.value) {
        DropNothingKeeps(old(db)[tableName], published.columns, nextTable.value);
        assert old(db)[tableName := old(db)[tableName]] == old(db);
      }
    }

    method ReconcileDefinitionSchema(published: Option<Definition>, next: Definition)
        returns (error: Option<SchemaError>)
      modifies this
      ensures error.None? ==> Reconcile(old(db), published, next) == Ok(db)
      ensures error.Some? ==> Reconcile(old(db), published, next).Err?
    {
      hide *;
      ReconcileIs(db, published, next);
      if published.None? || !OwnsPhysicalSchema(published.value) {
        return None;
      }
      var tables := published.value.tables;
      assert tables[..0] == [];
      for i := 0 to |tables|
        invariant ReconcileTables(old(db), tables[..i], next) == Ok(db)
      {
        ReconcileStep(old(db), tables, i, next, db);
        error := ReconcileDefinitionTable(tables[i], next);
        if error.Some? {
          ReconcilePrefixFails(old(db), tables, i + 1, next);
          return;
        }
      }
      assert tables[..|tables|] == tables;
      return None;
    }

    // ---- Creating and altering ----

    /** The first pass over the columns; the row count is read at most once. */
    method EnsureColumnsExist(tableName: string, columns: seq<Column>) returns (error: Option<SchemaError>)
      requires tableName in db
      modifies this
      ensures tableName in db
      ensures error.None? ==>
                EnsureColumns(old(db)[tableName], old(db)[tableName].columns, columns) == Ok(db[tableName])
      ensures error.Some? ==> EnsureColumns(old(db)[tableName], old(db)[tableName].columns, columns).Err?
      ensures db == old(db)[tableName := db[tableName]]
    {
      var physicalColumns := db[tableName].columns;
      ghost var t0 := db[tableName];
      var rowCount := -1;
      for i := 0 to |columns|
        invariant tableName in db && db == old(db)[tableName := db[tableName]]
        invariant EnsureColumns(t0, physicalColumns, columns[..i]) == Ok(db[tableName])
        invariant db[tableName].rows == t0.rows && (rowCount == -1 || rowCount == |t0.rows|)
      {
        assert columns[..i + 1][..i] == columns[..i] && columns[..i + 1][i] == columns[i];
        assert EnsureColumns(t0, physicalColumns, columns[..i + 1]) ==
                 EnsureColumn(db[tableName], physicalColumns, columns[i]);
        hide EnsureColumns, IsSafeIdentifier;
        if EnsureColumn(db[tableName], physicalColumns, columns[i]).Err? {
          EnsureColumnsPrefixFails(t0, physicalColumns, columns, i + 1);
        }
        var column := columns[i];
        var columnName := ColumnName(column);
        var isAutoNumber := column.dataType.AutoNumber?;
        var sqlType := BuilderDataTypeToSQL(column.dataType);
        if sqlType.None? {
          return Some(UnsupportedDataType(columnName));
        }
        if !IsSafeIdentifier(columnName) {
          return Some(InvalidIdentifier(columnName));
        }
        if columnName !in physicalColumns {
          if !column.isNullable && !isAutoNumber {
            if rowCount < 0 {
              rowCount := |db[tableName].rows|;
            }
            if rowCount > 0 {
              return Some(NotNullOnNonEmptyTable(columnName));
            }
          }
          error := ExecAddColumn(tableName, columnName,
                                 PhysicalColumn(sqlType.value, column.isNullable || isAutoNumber));
          if error.Some? {
            return;
          }
          continue;
        }
        if NormalizeSqlType(sqlType.value) != NormalizeSqlType(physicalColumns[columnName].sqlType) {
          return Some(TypeDrift(columnName));
        }
      }
      assert columns[..|columns|] == columns;
      return None;
    }

    /** The last pass over the columns. */
    method AlignNullability(tableName: string, columns: seq<Column>) returns (error: Option<SchemaError>)
      requires tableName in db
      modifies this
      ensures tableName in db
      ensures error.None? ==>
                SetNullabilities(old(db)[tableName], old(db)[tableName].columns, columns) == Ok(db[tableName])
      ensures error.Some? ==> SetNullabilities(old(db)[tableName], old(db)[tableName].columns, columns).Err?
      ensures db == old(db)[tableName := db[tableName]]
    {
      var physicalColumns := db[tableName].columns;
      ghost var t0 := db[tableName];
      assert columns[..0] == [];
      for i := 0 to |columns|
        invariant tableName in db && db == old(db)[tableName := db[tableName]]
        invariant SetNullabilities(t0, physicalColumns, columns[..i]) == Ok(db[tableName])
      {
        NextNullability(t0, db[tableName], physicalColumns, columns, i);
        hide SetNullabilities, IsSafeIdentifier, SetNotNull, DropNotNull, ColumnName;
        if SetNullability(db[tableName], physicalColumns, columns[i]).Err? {
          SetNullabilitiesPrefixFails(t0, physicalColumns, columns, i + 1);
        }
        var column := columns[i];
        var columnName := ColumnName(column);
        if !IsSafeIdentifier(columnName) {
          return Some(InvalidIdentifier(columnName));
        }
        if columnName !in physicalColumns || column.isNullable == physicalColumns[columnName].isNullable {
          continue;
        }
        if column.isNullable {
          error := ExecDropNotNull(tableName, columnName);
        } else {
          error := ExecSetNotNull(tableName, columnName);
        }
        if error.Some? {
          return;
        }
      }
      assert columns[..|columns|] == columns;
      return None;
    }

    method EnsureDefinitionTableSchema(env: Environment, t: Table, columns: seq<Column>)
        returns (error: Option<SchemaError>)
      modifies this
      ensures error.None? ==> EnsureDefinitionTable(env, old(db), t, columns) == Ok(db)
      ensures error.Some? ==> EnsureDefinitionTable(env, old(db), t, columns).Err?
    {
      hide IsSafeIdentifier, EnsureColumns, SetNullabilities, ApplyAutoNumbers;
      var tableName := NameOf(t);
      if tableName == "" {
        return Some(SchemaError.TableNameRequired);
      }
      if !IsSafeIdentifier(tableName) {
        return Some(InvalidIdentifier(tableName));
      }
      if tableName !in db {
        db := db[tableName := NewTable()];
      }
      error := EnsureColumnsExist(tableName, columns);
      if error.Some? {
        return;
      }
      var numbered := ApplyAutoNumbers(env.numbering, db[tableName], columns);
      if numbered.Err? {
        return Some(numbered.error);
      }
      db := db[tableName := numbered.value];
      error := AlignNullability(tableName, columns);
      if error.Some? {
        return;
      }
      assert db == old(db)[tableName := db[tableName]];
    }

    method ApplyDefinitionSchema(env: Environment, d: Definition) returns (error: Option<SchemaError>)
      requires WalksValues(env.order)
      modifies this
      ensures error.None? ==> ApplyDefinition(env, old(db), d) == Ok(db)
      ensures error.Some? ==> ApplyDefinition(env, old(db), d).Err?
    {
      hide *;
      ApplyDefinitionIs(env, db, d);
      if !OwnsPhysicalSchema(d) {
        return None;
      }
      for i := 0 to |d.tables|
        invariant ApplyTables(env, old(db), d, i) == Ok(db)
      {
        ApplyStep(env, old(db), d, i, db);
        error := ApplyDefinitionTable(env, d, i);
        if error.Some? {
          ApplyPrefixFails(env, old(db), d, i + 1, |d.tables|);
          return;
        }
      }
      return None;
    }

    /** One table of the loop: its columns are resolved with a new visited map, then it is ensured. */
    method ApplyDefinitionTable(env: Environment, d: Definition, i: nat) returns (error: Option<SchemaError>)
      requires WalksValues(env.order) && i < |d.tables|
      modifies this
      ensures error.None? ==> ResolvedColumns(env, d, d.tables[i]).Ok?
                              && EnsureDefinitionTable(env, old(db), d.tables[i],
                                                       ResolvedColumns(env, d, d.tables[i]).value) == Ok(db)
      ensures error.Some? ==> ResolvedColumns(env, d, d.tables[i]).Err?
                              || EnsureDefinitionTable(env, old(db), d.tables[i],
                                                       ResolvedColumns(env, d, d.tables[i]).value).Err?
    {
      hide *;
      var visited := new Visited();
      StartInScope(env, d, d.tables[i]);
      ResolvedColumnsAre(env, d, d.tables[i]);
      var columns := ResolveDefinitionColumns(RegistryFor(env, d, d.tables[i]), Link(PublishedApp(d), d.tables[i]),
                                              visited);
      if columns.Err? {
        return Some(Unresolved(d.tables[i].name));
      }
      error := EnsureDefinitionTableSchema(env, d.tables[i], columns.value);
    }
  }

  // ---- Validated definitions are well named ----

  /** Validation of a self-contained definition is what a publication of it relies on. */
  lemma AcceptedDefinitionIsWellNamed(env: Environment, d: Definition, dependencies: seq<App>)
    requires WalksValues(env.order)
    requires NormalizeIdentifier(d.name) == d.name && NormalizeIdentifier(d.namespace) == d.namespace
    requires NormalizedTables(d.tables) && SelfContained(d.tables)
    requires TablesAccepted(Scope(PublishedApp(d), d, dependencies))
    ensures WellNamed(env, d)
    ensures forall t :: t in d.tables ==> ResolvedColumns(env, d, t).Ok?
  {
    var scope := Scope(PublishedApp(d), d, dependencies);
    forall t | t in d.tables ensures ResolvedColumns(env, d, t).Ok? && DistinctNames(ResolvedColumns(env, d, t).value) {
      AcceptedTableWellNamed(env, d, scope, t);
    }
  }

  lemma AcceptedTableWellNamed(env: Environment, d: Definition, scope: Scope, t: Table)
    requires WalksValues(env.order) && scope.app == PublishedApp(d) && scope.definition == d
    requires NormalizeIdentifier(d.name) == d.name && NormalizeIdentifier(d.namespace) == d.namespace
    requires NormalizedTables(d.tables) && SelfContained(d.tables) && TablesAccepted(scope) && t in d.tables
    ensures ResolvedColumns(env, d, t).Ok? && DistinctNames(ResolvedColumns(env, d, t).value)
  {
    var reg := RegistryFor(env, d, t);
    assert ResolvesValidated(reg, scope);
    AcceptedTableResolves(reg, scope, t);
    var columns := ResolvedColumns(env, d, t).value;
    forall i | 0 <= i < |columns| ensures ColumnName(columns[i]) == columns[i].name {
      AcceptedNamesNormalized(reg, scope, t, columns[i]);
    }
  }
}
