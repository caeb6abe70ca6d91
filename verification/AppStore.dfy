/**
 * The stored app and the operations that change it, each inside one transaction
 * (internal/db/AppDefinition.go, AppBuilder.go).
 */
module AppStorage {
  import opened Common
  import opened Text
  import opened AppModel
  import opened TableInheritance
  import opened PhysicalSchema
  import opened SchemaPublication
  import opened PublicationTransaction
  import opened AppLifecycle

  class AppStore {
    var db: Database
    var draft: Option<Definition>
    var published: Option<Definition>
    var draftVersion: nat
    var publishedVersion: nat

    ghost function State(): AppState
      reads this
    {
      AppState(db, draft, published, draftVersion, publishedVersion)
    }

    /** CreateApp: the row of a new app. */
    constructor (p: Preparation)
      requires NewApp(p).Some?
      ensures State() == NewApp(p).value
    {
      db, draft, published := map[], p.prepare(Definition(p.name, p.namespace, [], [], [])), None;
      draftVersion, publishedVersion := 1, 0;
    }

    method SaveAppDefinition(w: World, definition: Definition, accepted: bool) returns (ok: bool)
      requires WalksValues(w.env.order)
      modifies this
      ensures State() == Perform(w, old(State()), SaveDraft(definition, accepted))
      ensures ok <==> accepted && AfterSave(w, old(State()), definition).Some?
    {
      var content := w.preparation.prepare(definition);
      if content.None? || !accepted {
        return false;
      }
      if draft != content {
        draftVersion := Max(draftVersion, publishedVersion) + 1;
      }
      draft := content;
      return true;
    }

    /** Statements run on the transaction's copy; only the last lines touch the stored app. */
    method PublishAppDefinition(w: World, accepted: bool) returns (ok: bool)
      requires WalksValues(w.env.order)
      modifies this
      ensures State() == Perform(w, old(State()), Publish(accepted))
      ensures ok <==> accepted && AfterPublish(w, old(State())).Some?
    {
      hide Reconcile, ApplyDefinition, WalksValues;
      var source := if draft.Some? then draft else published;
      if source.None? || !accepted {
        return false;
      }
      var definition := w.preparation.prepare(source.value);
      if definition.None? {
        return false;
      }
      var tx := new Transaction(db);
      var error := tx.ReconcileDefinitionSchema(published, definition.value);
      if error.Some? {
        return false;
      }
      error := tx.ApplyDefinitionSchema(w.env, definition.value);
      if error.Some? {
        return false;
      }
      published, publishedVersion := definition, Max(draftVersion, 1);
      db := tx.db;
      return true;
    }

    /** saveAppDefinitionTx, still inside the transaction: what the row will be. */
    method SaveAppDefinitionTx(w: World, definition: Definition, tx: Transaction) returns (row: Option<AppState>)
      ensures row == AfterBuilderSave(w, State(), definition, tx.db)
    {
      var content := w.preparation.prepare(definition);
      if content.None? {
        return None;
      }
      var version := Max(draftVersion, publishedVersion) + 1;
      return Some(AppState(tx.db, content, content, version, version));
    }

    method Commit(row: AppState)
      modifies this
      ensures State() == row
    {
      db, draft, published := row.db, row.draft, row.published;
      draftVersion, publishedVersion := row.draftVersion, row.publishedVersion;
    }

    method CreateAppTable(w: World, rawName: string, accepted: bool) returns (ok: bool)
      requires WalksValues(w.env.order)
      modifies this
      ensures State() == Perform(w, old(State()), CreateTable(rawName, accepted))
      ensures ok <==> accepted && AfterCreateTable(w, old(State()), rawName).Some?
    {
      hide LegalBuilderName, NormalizeIdentifier, TableIndex, NewTable, WalksValues;
      var name := NormalizeIdentifier(rawName);
      if !accepted || !LegalBuilderName(name) {
        return false;
      }
      var definition := if published.Some? then published.value
                          else Definition(w.preparation.name, w.preparation.namespace, [], [], []);
      if TableIndex(definition.tables, name).Some? {
        return false;
      }
      var tx := new Transaction(db);
      if name in tx.db {
        return false;
      }
      tx.db := tx.db[name := NewTable()];
      var row := SaveAppDefinitionTx(w, definition.(tables := definition.tables + [Table(name, "", false, [])]), tx);
      if row.None? {
        return false;
      }
      Commit(row.value);
      return true;
    }

    method CreateAppColumn(w: World, rawTable: string, column: Column, accepted: bool) returns (ok: bool)
      requires WalksValues(w.env.order)
      modifies this
      ensures State() == Perform(w, old(State()), CreateColumn(rawTable, column, accepted))
      ensures ok <==> accepted && AfterCreateColumn(w, old(State()), rawTable, column).Some?
    {
      hide LegalBuilderName, IsSafeIdentifier, NormalizeIdentifier, TableIndex, ColumnIndex, WithAutoNumbers,
           AddColumn, SetNotNull, BuilderDataTypeToSQL, WalksValues;
      var tableName, name := NormalizeIdentifier(rawTable), ColumnName(column);
      var isAutoNumber, sqlType := column.dataType.AutoNumber?, BuilderDataTypeToSQL(column.dataType);
      if !accepted || !IsSafeIdentifier(tableName) || !LegalBuilderName(name) || sqlType.None? || published.None? {
        return false;
      }
      var definition := published.value;
      var tableIndex := TableIndex(definition.tables, tableName);
      if tableIndex.None? || ColumnIndex(definition.tables[tableIndex.value].columns, name).Some? {
        return false;
      }
      var tx := new Transaction(db);
      if tableName !in tx.db {
        return false;
      }
      if !column.isNullable && !isAutoNumber {
        var rowCount := |tx.db[tableName].rows|;
        if rowCount > 0 {
          return false;
        }
      }
      var error := tx.ExecAddColumn(tableName, name, PhysicalColumn(sqlType.value, column.isNullable || isAutoNumber));
      if error.Some? {
        return false;
      }
      var columns := definition.tables[tableIndex.value].columns + [column.(name := name)];
      ok := FinishColumn(w, WithColumns(definition, tableIndex.value, columns), tableName, tableIndex.value, name,
                         !column.isNullable && isAutoNumber, tx);
    }

    /**
     * The common end of the column operations: save the edited definition,
     * number the table again, set a deferred NOT NULL, commit.
     */
    method FinishColumn(w: World, edited: Definition, tableName: string, i: nat, column: string, deferSetNotNull: bool,
                        tx: Transaction) returns (ok: bool)
      requires WalksValues(w.env.order) && tableName in tx.db
      modifies this, tx
      ensures var finished := Finished(w, old(State()), edited, old(tx.db), tableName, i, column, deferSetNotNull);
              && (ok <==> finished.Some?)
              && State() == if ok then finished.value else old(State())
    {
      hide ApplyAutoNumbers, SetNotNull, DraftColumns, ResolveColumns, WalksValues;
      var row := SaveAppDefinitionTx(w, edited, tx);
      if row.None? || i >= |row.value.published.value.tables| {
        return false;
      }
      var columns := ResolveDraftColumns(w, row.value.published.value, i);
      if columns.Err? {
        return false;
      }
      var numbered := ApplyAutoNumbers(w.env.numbering, tx.db[tableName], columns.value);
      if numbered.Err? {
        return false;
      }
      tx.db := tx.db[tableName := numbered.value];
      if deferSetNotNull {
        var error := tx.ExecSetNotNull(tableName, column);
        if error.Some? {
          return false;
        }
      }
      Commit(row.value.(db := tx.db));
      return true;
    }

    /** The table whose auto-numbers are applied, with the columns it inherits. */
    method ResolveDraftColumns(w: World, definition: Definition, i: nat)
        returns (columns: Result<seq<Column>, ResolveError>)
      requires WalksValues(w.env.order) && i < |definition.tables|
      ensures columns == DraftColumns(w, definition, definition.tables[i])
    {
      hide ResolveColumns, Universe, WalksValues;
      var table, app := definition.tables[i], BuilderApp(w, definition);
      var visited := new Visited();
      columns := ResolveDefinitionColumns(BuilderRegistry(w, definition, table), Link(app, table), visited);
    }

    /** The NOT NULL of an auto-number column waits until its rows are numbered; any other change is made at once. */
    method ChangeNullability(tx: Transaction, tableName: string, columnName: string, current: Column,
                             isNullable: bool) returns (ok: bool)
      requires tableName in tx.db
      modifies tx
      ensures ok <==> ChangedNullability(old(tx.db)[tableName], columnName, current, isNullable).Ok?
      ensures ok ==>
                tx.db == old(tx.db)[tableName := ChangedNullability(old(tx.db)[tableName], columnName, current,
                    isNullable).value]
    {
      hide SetNotNull, DropNotNull;
      if current.isNullable != isNullable {
        if isNullable {
          var error := tx.ExecDropNotNull(tableName, columnName);
          return error.None?;
        } else if !current.dataType.AutoNumber? {
          var error := tx.ExecSetNotNull(tableName, columnName);
          return error.None?;
        }
      }
      return true;
    }

    method UpdateAppColumn(w: World, rawTable: string, rawName: string, prefix: string, isNullable: bool,
                           accepted: bool) returns (ok: bool)
      requires WalksValues(w.env.order)
      modifies this
      ensures State() == Perform(w, old(State()), UpdateColumn(rawTable, rawName, prefix, isNullable, accepted))
      ensures ok <==> accepted && AfterUpdateColumn(w, old(State()), rawTable, rawName, prefix, isNullable).Some?
    {
      hide IsSafeIdentifier, NormalizeIdentifier, TableIndex, ColumnIndex, AfterUpdateColumn, Finished,
           ChangedNullability, WithColumns, WalksValues, Perform;
      PerformUpdate(w, State(), rawTable, rawName, prefix, isNullable, accepted);
      UpdateNeeds(w, State(), rawTable, rawName, prefix, isNullable);
      var tableName, columnName := NormalizeIdentifier(rawTable), NormalizeIdentifier(rawName);
      if !accepted || !IsSafeIdentifier(tableName) || !IsSafeIdentifier(columnName) || "_" <= columnName
          || published.None? {
        return false;
      }
      var tx := new Transaction(db);
      var definition := published.value;
      var tableIndex := TableIndex(definition.tables, tableName);
      if tableIndex.None? || tableName !in tx.db {
        return false;
      }
      var columnIndex := ColumnIndex(definition.tables[tableIndex.value].columns, columnName);
      if columnIndex.None? {
        return false;
      }
      var current := definition.tables[tableIndex.value].columns[columnIndex.value];
      var changed := ChangeNullability(tx, tableName, columnName, current, isNullable);
      if !changed {
        return false;
      }
      UpdateIsFinished(w, State(), rawTable, rawName, prefix, isNullable);
      var deferSetNotNull := current.isNullable && !isNullable && current.dataType.AutoNumber?;
      var newPrefix := if current.dataType.AutoNumber? && prefix == "" then current.prefix else prefix;
      var column := current.(isNullable := isNullable, prefix := newPrefix);
      var columns := definition.tables[tableIndex.value].columns[columnIndex.value := column];
      ok := FinishColumn(w, WithColumns(definition, tableIndex.value, columns), tableName, tableIndex.value,
                         columnName, deferSetNotNull, tx);
    }

    method DeleteAppTable(w: World, rawTable: string, accepted: bool) returns (ok: bool)
      requires WalksValues(w.env.order)
      modifies this
      ensures State() == Perform(w, old(State()), DeleteTable(rawTable, accepted))
      ensures ok <==> accepted && AfterDeleteTable(w, old(State()), rawTable).Some?
    {
      hide IsSafeIdentifier, NormalizeIdentifier, TableIndex, WalksValues;
      var tableName := NormalizeIdentifier(rawTable);
      if !accepted || !IsSafeIdentifier(tableName) || published.None? {
        return false;
      }
      var tx := new Transaction(db);
      var definition := published.value;
      var tableIndex := TableIndex(definition.tables, tableName);
      if tableIndex.None? || tableName !in tx.db || |tx.db[tableName].rows| > 0 {
        return false;
      }
      var error := tx.ExecDropTable(tableName);
      if error.Some? {
        return false;
      }
      var row := SaveAppDefinitionTx(w, definition.(tables := definition.tables[..tableIndex.value]
                                                    + definition.tables[tableIndex.value + 1..]), tx);
      if row.None? {
        return false;
      }
      Commit(row.value);
      return true;
    }

    method DeleteAppColumn(w: World, rawTable: string, rawName: string, accepted: bool) returns (ok: bool)
      requires WalksValues(w.env.order)
      modifies this
      ensures State() == Perform(w, old(State()), DeleteColumn(rawTable, rawName, accepted))
      ensures ok <==> accepted && AfterDeleteColumn(w, old(State()), rawTable, rawName).Some?
    {
      hide IsSafeIdentifier, NormalizeIdentifier, TableIndex, ColumnIndex, WithAutoNumbers, DropColumn, WalksValues;
      var tableName, columnName := NormalizeIdentifier(rawTable), NormalizeIdentifier(rawName);
      if !accepted || !IsSafeIdentifier(tableName) || !IsSafeIdentifier(columnName) || "_" <= columnName
          || published.None? {
        return false;
      }
      var tx := new Transaction(db);
      var definition := published.value;
      var tableIndex := TableIndex(definition.tables, tableName);
      if tableIndex.None? || tableName !in tx.db {
        return false;
      }
      var columnIndex := ColumnIndex(definition.tables[tableIndex.value].columns, columnName);
      if columnIndex.None? || |tx.db[tableName].rows| > 0 {
        return false;
      }
      var error := tx.ExecDropColumn(tableName, columnName);
      if error.Some? {
        return false;
      }
      var j := columnIndex.value;
      var columns := definition.tables[tableIndex.value].columns[..j]
                       + definition.tables[tableIndex.value].columns[j + 1..];
      ok := FinishColumn(w, WithColumns(definition, tableIndex.value, columns), tableName, tableIndex.value,
                         columnName, false, tx);
    }
  }

  lemma PerformUpdate(w: World, s: AppState, rawTable: string, rawName: string, prefix: string, isNullable: bool,
                      accepted: bool)
    requires WalksValues(w.env.order)
    ensures var after := AfterUpdateColumn(w, s, rawTable, rawName, prefix, isNullable);
            Perform(w, s, UpdateColumn(rawTable, rawName, prefix, isNullable, accepted)) ==
              if accepted && after.Some? then after.value else s
  {
    hide AfterUpdateColumn, WalksValues;
  }

  /** The column that an update finds, if it finds one. */
  function FoundColumn(s: AppState, rawTable: string, rawName: string): Option<(nat, nat)> {
    var table, name := NormalizeIdentifier(rawTable), NormalizeIdentifier(rawName);
    if !IsSafeIdentifier(table) || !IsSafeIdentifier(name) || "_" <= name || s.published.None? then None else
    var i := TableIndex(s.published.value.tables, table);
    if i.None? || table !in s.db then None else
    var j := ColumnIndex(s.published.value.tables[i.value].columns, name);
    if j.None? then None else Some((i.value, j.value))
  }

  /** An update that finds no column, or may not change its nullability, fails. */
  lemma UpdateNeeds(w: World, s: AppState, rawTable: string, rawName: string, prefix: string, isNullable: bool)
    requires WalksValues(w.env.order)
    ensures var table, name := NormalizeIdentifier(rawTable), NormalizeIdentifier(rawName);
            AfterUpdateColumn(w, s, rawTable, rawName, prefix, isNullable).Some? ==>
              && IsSafeIdentifier(table) && IsSafeIdentifier(name) && !("_" <= name) && s.published.Some?
              && table in s.db && TableIndex(s.published.value.tables, table).Some?
              && var t := s.published.value.tables[TableIndex(s.published.value.tables, table).value];
                 && ColumnIndex(t.columns, name).Some?
                 && ChangedNullability(s.db[table], name, t.columns[ColumnIndex(t.columns, name).value], isNullable).Ok?
  {
    hide IsSafeIdentifier, NormalizeIdentifier, TableIndex, ColumnIndex, WithAutoNumbers, WithNotNull,
         AfterBuilderSave, ChangedNullability, WalksValues;
  }

  /** Otherwise it ends as the other column operations do. */
  lemma UpdateIsFinished(w: World, s: AppState, rawTable: string, rawName: string, prefix: string, isNullable: bool)
    requires WalksValues(w.env.order) && FoundColumn(s, rawTable, rawName).Some?
    requires var (i, j) := FoundColumn(s, rawTable, rawName).value;
             var table, name := NormalizeIdentifier(rawTable), NormalizeIdentifier(rawName);
             ChangedNullability(s.db[table], name, s.published.value.tables[i].columns[j], isNullable).Ok?
    ensures var (i, j) := FoundColumn(s, rawTable, rawName).value;
            var table, name := NormalizeIdentifier(rawTable), NormalizeIdentifier(rawName);
            var current := s.published.value.tables[i].columns[j];
            var newPrefix := if current.dataType.AutoNumber? && prefix == "" then current.prefix else prefix;
            var column := current.(isNullable := isNullable, prefix := newPrefix);
            var edited := WithColumns(s.published.value, i, s.published.value.tables[i].columns[j := column]);
            var changed := ChangedNullability(s.db[table], name, current, isNullable).value;
            AfterUpdateColumn(w, s, rawTable, rawName, prefix, isNullable) ==
              Finished(w, s, edited, s.db[table := changed], table, i, name,
                       current.isNullable && !isNullable && current.dataType.AutoNumber?)
  {
    hide IsSafeIdentifier, NormalizeIdentifier, TableIndex, ColumnIndex, WithAutoNumbers, WithNotNull,
         AfterBuilderSave, ChangedNullability, WalksValues, WithColumns;
  }

  /** What FinishColumn makes of the stored app. */
  function Finished(w: World, s: AppState, edited: Definition, db: Database, tableName: string, i: nat, column: string,
                    deferSetNotNull: bool): Option<AppState>
    requires WalksValues(w.env.order)
  {
    var saved := AfterBuilderSave(w, s, edited, db);
    if saved.None? then None else
    var numbered := WithAutoNumbers(w, saved.value, tableName, i);
    if numbered.None? || !deferSetNotNull then numbered else WithNotNull(numbered.value, tableName, column)
  }
}
