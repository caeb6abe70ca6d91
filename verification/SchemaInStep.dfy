/** Published definition and physical schema stay in step over every run (internal/db/AppBuilder.go, AppPublish.go). */
module SchemaInStep {
  import opened Common
  import opened Text
  import opened AppModel
  import opened TableInheritance
  import opened DefinitionValidation
  import opened DefinitionNormalization
  import opened PhysicalSchema
  import opened TableReconciliation
  import opened SchemaPublication
  import opened AppLifecycle

  /**
   * The physical table has the defined columns, at their types and nullability,
   * and no others but system columns; it is valid.
   */
  ghost predicate TableInStep(t: PhysicalTable, def: Table) {
    && Conforms(t, def.columns)
    && (forall x :: x in t.columns ==> IsSystemColumnName(x) || HasName(def.columns, x))
    && TableValid(t)
  }

  ghost predicate TablesInStep(db: Database, tables: seq<Table>) {
    && (forall i :: 0 <= i < |tables| ==>
        tables[i].base == "" && NameOf(tables[i]) in db && TableInStep(db[NameOf(tables[i])], tables[i]))
    && (forall x :: x in db ==> HasTable(tables, x))
  }

  predicate NoBases(d: Definition) {
    forall i :: 0 <= i < |d.tables| ==> NormalizeIdentifier(d.tables[i].base) == ""
  }

  /** The invariant: what is published is what is there. */
  ghost predicate InStep(p: Preparation, s: AppState) {
    && (s.draft.Some? ==> NoBases(s.draft.value))
    && (s.published.None? ==> s.db == map[])
    && (s.published.Some? ==>
          && s.published.value.name == p.name && s.published.value.namespace == p.namespace
          && NormalTables(s.published.value.tables)
          && TablesInStep(s.db, s.published.value.tables))
  }

  /** The app is one whose publications own physical tables, and its parts obey their assumptions. */
  ghost predicate OwningWorld(w: World) {
    && WalksValues(w.env.order)
    && LawfulPreparation(w.preparation)
    && OwnsItsSchema(w.preparation)
  }

  predicate OwnsItsSchema(p: Preparation) { OwnsPhysicalSchema(Definition(p.name, p.namespace, [], [], [])) }

  /** Drafts extend no table. */
  predicate PlainStep(step: Step) {
    step.SaveDraft? ==> NoBases(step.definition)
  }

  // ---- Tables and names ----

  lemma NormalNames(tables: seq<Table>)
    requires NormalTables(tables)
    ensures forall i :: 0 <= i < |tables| ==> NameOf(tables[i]) == tables[i].name && NormalColumns(tables[i].columns)
    ensures DistinctTableNames(tables)
  {
    hide NormalColumns, NormalizeIdentifier, IsSafeIdentifier;
    forall i | 0 <= i < |tables| ensures NameOf(tables[i]) == tables[i].name && NormalColumns(tables[i].columns) {
      assert NormalTable(tables[i]);
    }
  }

  lemma NormalColumnNames(columns: seq<Column>)
    requires NormalColumns(columns)
    ensures forall i :: 0 <= i < |columns| ==>
              ColumnName(columns[i]) == columns[i].name && IsSafeIdentifier(columns[i].name)
    ensures DistinctNames(columns)
  {
    hide NormalizeIdentifier, IsSafeIdentifier;
    forall i | 0 <= i < |columns| ensures ColumnName(columns[i]) == columns[i].name
        && IsSafeIdentifier(columns[i].name) {
      assert columns[i] in columns;
    }
  }

  /** Being in step does not see how names are spelled before normalisation. */
  lemma CorrespondingColumnsConform(t: PhysicalTable, before: seq<Column>, after: seq<Column>)
    requires ColumnsCorrespond(before, after)
    ensures Conforms(t, before) ==> Conforms(t, after)
    ensures forall x :: HasName(before, x) <==> HasName(after, x)
  {
    forall i | 0 <= i < |before| ensures ColumnName(after[i]) == ColumnName(before[i]) {
      NormalizeIdempotent(before[i].name);
    }
    hide ColumnName, NormalizeIdentifier, IsSafeIdentifier;
    if Conforms(t, before) {
      forall i | 0 <= i < |after| ensures TypeAsDefined(t, after[i]) { assert TypeAsDefined(t, before[i]); }
    }
    SameNames(before, after);
    SameNames(after, before);
  }

  lemma SameNames(before: seq<Column>, after: seq<Column>)
    requires |before| == |after| && forall i :: 0 <= i < |before| ==> ColumnName(after[i]) == ColumnName(before[i])
    ensures forall x :: HasName(before, x) ==> HasName(after, x)
  {
    hide ColumnName;
    forall x | HasName(before, x) ensures HasName(after, x) {
      var i :| 0 <= i < |before| && ColumnName(before[i]) == x;
      assert ColumnName(after[i]) == x;
    }
  }

  lemma CorrespondingTablesInStep(db: Database, before: seq<Table>, after: seq<Table>)
    requires TablesCorrespond(before, after) && TablesInStep(db, before)
    ensures TablesInStep(db, after)
  {
    assert |before| == |after|;
    forall i | 0 <= i < |after|
      ensures NameOf(after[i]) == NameOf(before[i]) && after[i].base == "" && NameOf(after[i]) in db
                && TableInStep(db[NameOf(after[i])], after[i])
    {
      CorrespondingAt(db, before, after, i);
    }
    hide NameOf, TableInStep, TablesCorrespond;
    forall x | x in db ensures HasTable(after, x) {
      var i :| 0 <= i < |before| && NameOf(before[i]) == x;
      assert NameOf(after[i]) == x;
    }
  }

  lemma CorrespondingAt(db: Database, before: seq<Table>, after: seq<Table>, i: nat)
    requires TablesCorrespond(before, after) && TablesInStep(db, before) && i < |before|
    ensures NameOf(after[i]) == NameOf(before[i]) && after[i].base == ""
    ensures NameOf(after[i]) in db && TableInStep(db[NameOf(after[i])], after[i])
  {
    NormalizeEmpty();
    NormalizeIdempotent(before[i].name);
    hide NormalizeIdentifier, TableInStep, ColumnsCorrespond, HasTable;
    CorrespondingTableInStep(db[NameOf(before[i])], before[i], after[i]);
  }

  lemma CorrespondingTableInStep(t: PhysicalTable, before: Table, after: Table)
    requires ColumnsCorrespond(before.columns, after.columns) && TableInStep(t, before)
    ensures TableInStep(t, after)
  {
    hide ColumnsCorrespond, Conforms, TableValid, IsSystemColumnName, HasName;
    CorrespondingColumnsConform(t, before.columns, after.columns);
  }

  lemma NormalizeEmpty()
    ensures NormalizeIdentifier("") == ""
  {}

  // ---- Changing one table ----

  lemma ReplacedTableInStep(db: Database, tables: seq<Table>, i: nat, t: PhysicalTable, def: Table)
    requires TablesInStep(db, tables) && DistinctTableNames(tables) && i < |tables|
    requires NameOf(def) == NameOf(tables[i]) && def.base == "" && TableInStep(t, def)
    ensures TablesInStep(db[NameOf(def) := t], tables[i := def])
  {
    hide NameOf, TableInStep;
    var name, now, defs := NameOf(def), db[NameOf(def) := t], tables[i := def];
    forall k | 0 <= k < |defs| ensures defs[k].base == "" && NameOf(defs[k]) in now
        && TableInStep(now[NameOf(defs[k])], defs[k]) {
      if k != i { assert NameOf(tables[k]) != NameOf(tables[i]); }
    }
    forall x | x in now ensures HasTable(defs, x) {
      if x == name {
        assert NameOf(defs[i]) == x;
      } else {
        var k :| 0 <= k < |tables| && NameOf(tables[k]) == x;
        assert NameOf(defs[k]) == x;
      }
    }
  }

  lemma AddedTableInStep(db: Database, tables: seq<Table>, t: PhysicalTable, def: Table)
    requires TablesInStep(db, tables) && NameOf(def) !in db && def.base == "" && TableInStep(t, def)
    ensures TablesInStep(db[NameOf(def) := t], tables + [def])
  {
    hide NameOf, TableInStep;
    var now, defs := db[NameOf(def) := t], tables + [def];
    assert defs[|tables|] == def;
    forall x | x in now ensures HasTable(defs, x) {
      if x != NameOf(def) {
        var k :| 0 <= k < |tables| && NameOf(tables[k]) == x;
        assert NameOf(defs[k]) == x;
      }
    }
  }

  lemma RemovedTableInStep(db: Database, tables: seq<Table>, i: nat)
    requires TablesInStep(db, tables) && DistinctTableNames(tables) && i < |tables|
    ensures TablesInStep(db - {NameOf(tables[i])}, tables[..i] + tables[i + 1..])
  {
    hide NameOf, TableInStep, HasTable, DistinctTableNames;
    var defs := tables[..i] + tables[i + 1..];
    forall k | 0 <= k < |defs|
      ensures defs[k].base == "" && NameOf(defs[k]) != NameOf(tables[i]) && NameOf(defs[k]) in db
      ensures TableInStep(db[NameOf(defs[k])], defs[k])
    {
      var m := if k < i then k else k + 1;
      assert defs[k] == tables[m];
      NamesDiffer(tables, i, m);
    }
    forall x | x in db && x != NameOf(tables[i]) ensures HasTable(defs, x) { OtherTableStays(tables, i, x); }
  }

  lemma NamesDiffer(tables: seq<Table>, i: nat, k: nat)
    requires DistinctTableNames(tables) && i < |tables| && k < |tables| && i != k
    ensures NameOf(tables[i]) != NameOf(tables[k])
  {
    hide NameOf;
  }

  lemma OtherTableStays(tables: seq<Table>, i: nat, x: string)
    requires i < |tables| && HasTable(tables, x) && x != NameOf(tables[i])
    ensures HasTable(tables[..i] + tables[i + 1..], x)
  {
    hide NameOf;
    var k :| 0 <= k < |tables| && NameOf(tables[k]) == x;
    assert (tables[..i] + tables[i + 1..])[if k < i then k else k - 1] == tables[k];
  }

  /** Saving an edited definition whose tables are in step publishes a definition that is in step. */
  lemma BuilderSaveInStep(w: World, s: AppState, edited: Definition, saved: AppState, db: Database)
    requires OwningWorld(w) && TablesInStep(db, edited.tables)
    requires w.preparation.prepare(edited).Some?
               && saved.draft == saved.published == w.preparation.prepare(edited) && saved.db == db
    ensures InStep(w.preparation, saved)
  {
    var n := w.preparation.prepare(edited).value;
    NormalizeTablesResult(edited.tables, w.preparation.rules);
    CorrespondingTablesInStep(db, edited.tables, n.tables);
    NormalizeEmpty();
    hide NormalTables, TableInStep, NormalizeIdentifier;
  }

  // ---- System columns ----

  lemma SystemNameStartsWithUnderscore(x: string)
    requires IsSystemColumnName(x)
    ensures "_" <= NormalizeIdentifier(x)
  {
    hide NormalizeIdentifier;
  }

  lemma SystemNamesNormalized()
    ensures forall x :: x in SystemColumnNames() ==> NormalizeIdentifier(x) == x
  {
    forall x | x in SystemColumnNames() ensures NormalizeIdentifier(x) == x {
      assert Trimmed(x) && forall i :: 0 <= i < |x| ==> !('A' <= x[i] <= 'Z');
      hide SystemColumnNames;
      SmallTrimmedIsNormal(x);
    }
  }

  lemma SmallTrimmedIsNormal(x: string)
    requires Trimmed(x) && forall i :: 0 <= i < |x| ==> !('A' <= x[i] <= 'Z')
    ensures NormalizeIdentifier(x) == x
  {
    TrimSpaceKeepsTrimmed(x);
    hide TrimSpace;
    assert ToLower(x) == x;
  }

  lemma NewTableInStep(def: Table)
    requires def.columns == []
    ensures TableInStep(NewTable(), def)
  {
    SystemNamesNormalized();
    hide NormalizeIdentifier;
    assert forall x :: x in SystemColumns() ==> x in SystemColumnNames();
  }

  // ---- Changing the columns of a table in step ----

  lemma AddColumnKeepsValid(t: PhysicalTable, name: string, c: PhysicalColumn)
    requires TableValid(t) && AddColumn(t, name, c).Ok?
    ensures TableValid(AddColumn(t, name, c).value)
  {}

  lemma SetNotNullKeepsValid(t: PhysicalTable, name: string)
    requires TableValid(t) && SetNotNull(t, name).Ok?
    ensures TableValid(SetNotNull(t, name).value)
  {
    NullCountZeroIff(t.rows, name);
  }

  /** Only the columns matter to being in step with a definition. */
  lemma SameColumnsInStep(t: PhysicalTable, r: PhysicalTable, def: Table)
    requires TableInStep(t, def) && r.columns == t.columns && TableValid(r)
    ensures TableInStep(r, def)
  {
    hide ColumnName, IsSafeIdentifier, IsSystemColumnName, TableValid;
    forall i | 0 <= i < |def.columns| ensures TypeAsDefined(r, def.columns[i]) {
      assert TypeAsDefined(t, def.columns[i]);
    }
  }

  lemma AutoNumbersKeepInStep(w: World, t: PhysicalTable, columns: seq<Column>, def: Table)
    requires TableInStep(t, def) && ApplyAutoNumbers(w.env.numbering, t, columns).Ok?
    ensures TableInStep(ApplyAutoNumbers(w.env.numbering, t, columns).value, def)
  {
    AutoNumbersKeepOthers(w.env.numbering, t, columns);
    AutoNumbersKeepValid(w.env.numbering, t, columns);
    hide ApplyAutoNumbers, Conforms, TableValid;
    SameColumnsInStep(t, ApplyAutoNumbers(w.env.numbering, t, columns).value, def);
  }

  /** A physical table with one more column is in step with a definition with one more column. */
  lemma GrownTableInStep(t: PhysicalTable, r: PhysicalTable, def: Table, c: Column, pc: PhysicalColumn)
    requires TableInStep(t, def) && ColumnName(c) !in t.columns && r.columns == t.columns[ColumnName(c) := pc]
               && TableValid(r)
    requires IsSafeIdentifier(ColumnName(c)) && BuilderDataTypeToSQL(c.dataType) == Some(pc.sqlType)
               && pc.isNullable == c.isNullable
    ensures TableInStep(r, def.(columns := def.columns + [c]))
  {
    hide ColumnName, IsSafeIdentifier, IsSystemColumnName, TableValid;
    var columns := def.columns + [c];
    HasNameAppend(def.columns, c);
    forall i | 0 <= i < |columns|
      ensures TypeAsDefined(r, columns[i]) && r.columns[ColumnName(columns[i])].isNullable == columns[i].isNullable
    {
      if i < |def.columns| { assert columns[i] == def.columns[i] && TypeAsDefined(t, def.columns[i]); }
    }
  }

  /** A column in step whose nullability changes in both places stays in step. */
  lemma ChangedColumnInStep(t: PhysicalTable, r: PhysicalTable, def: Table, j: nat, c: Column)
    requires TableInStep(t, def) && DistinctNames(def.columns) && j < |def.columns| && TableValid(r)
    requires ColumnName(c) == ColumnName(def.columns[j]) && c.dataType == def.columns[j].dataType
    requires r.columns == t.columns[ColumnName(c) := t.columns[ColumnName(c)].(isNullable := c.isNullable)]
    ensures TableInStep(r, def.(columns := def.columns[j := c]))
  {
    hide ColumnName, IsSafeIdentifier, IsSystemColumnName, TableValid;
    var columns := def.columns[j := c];
    assert TypeAsDefined(t, def.columns[j]);
    forall i | 0 <= i < |columns|
      ensures TypeAsDefined(r, columns[i]) && r.columns[ColumnName(columns[i])].isNullable == columns[i].isNullable
    {
      assert TypeAsDefined(t, def.columns[i]);
      if i != j { assert ColumnName(def.columns[i]) != ColumnName(def.columns[j]); }
    }
    forall x | HasName(def.columns, x) ensures HasName(columns, x) {
      var i :| 0 <= i < |def.columns| && ColumnName(def.columns[i]) == x;
      assert ColumnName(columns[i]) == x;
    }
  }

  lemma ShrunkTableInStep(t: PhysicalTable, def: Table, j: nat)
    requires TableInStep(t, def) && DistinctNames(def.columns) && j < |def.columns|
    ensures TableInStep(DropColumn(t, ColumnName(def.columns[j])),
                        def.(columns := def.columns[..j] + def.columns[j + 1..]))
  {
    DropColumnKeepsValid(t, ColumnName(def.columns[j]));
    ShrunkConforms(t, def.columns, j);
    ShrunkNames(def.columns, j);
    hide ColumnName, IsSystemColumnName, TableValid, Conforms, HasName, WithoutCell;
  }

  lemma ShrunkConforms(t: PhysicalTable, columns: seq<Column>, j: nat)
    requires Conforms(t, columns) && DistinctNames(columns) && j < |columns|
    ensures Conforms(DropColumn(t, ColumnName(columns[j])), columns[..j] + columns[j + 1..])
  {
    hide ColumnName, IsSafeIdentifier, WithoutCell;
    var left := columns[..j] + columns[j + 1..];
    var r := DropColumn(t, ColumnName(columns[j]));
    forall i | 0 <= i < |left| ensures TypeAsDefined(r, left[i])
        && r.columns[ColumnName(left[i])].isNullable == left[i].isNullable {
      var k := if i < j then i else i + 1;
      assert left[i] == columns[k] && TypeAsDefined(t, columns[k]);
      assert ColumnName(columns[k]) != ColumnName(columns[j]);
    }
  }

  lemma ShrunkNames(columns: seq<Column>, j: nat)
    requires j < |columns|
    ensures forall x :: HasName(columns, x) && x != ColumnName(columns[j]) ==>
              HasName(columns[..j] + columns[j + 1..], x)
  {
    hide ColumnName;
    var left := columns[..j] + columns[j + 1..];
    forall x | HasName(columns, x) && x != ColumnName(columns[j]) ensures HasName(left, x) {
      var k :| 0 <= k < |columns| && ColumnName(columns[k]) == x;
      assert left[if k < j then k else k - 1] == columns[k];
    }
  }

  // ---- Each operation keeps the invariant ----

  lemma CreateTableInStep(w: World, s: AppState, rawName: string)
    requires OwningWorld(w) && InStep(w.preparation, s) && AfterCreateTable(w, s, rawName).Some?
    ensures InStep(w.preparation, AfterCreateTable(w, s, rawName).value)
  {
    var name, d := NormalizeIdentifier(rawName), Edited(w, s);
    var def := Table(name, "", false, []);
    NormalizeIdempotent(rawName);
    assert TablesInStep(s.db, d.tables);
    NewTableInStep(def);
    AddedTableInStep(s.db, d.tables, NewTable(), def);
    hide TablesInStep, InStep, LawfulPreparation, LegalBuilderName, NormalizeIdentifier, NewTable;
    BuilderSaveInStep(w, s, d.(tables := d.tables + [def]), AfterCreateTable(w, s, rawName).value,
                      s.db[name := NewTable()]);
  }

  lemma DeleteTableInStep(w: World, s: AppState, rawName: string)
    requires OwningWorld(w) && InStep(w.preparation, s) && AfterDeleteTable(w, s, rawName).Some?
    ensures InStep(w.preparation, AfterDeleteTable(w, s, rawName).value)
  {
    var name, d := NormalizeIdentifier(rawName), s.published.value;
    var i := TableIndex(d.tables, name).value;
    NormalNames(d.tables);
    RemovedTableInStep(s.db, d.tables, i);
    hide TablesInStep, InStep, LawfulPreparation, NormalizeIdentifier, IsSafeIdentifier, NameOf;
    BuilderSaveInStep(w, s, d.(tables := d.tables[..i] + d.tables[i + 1..]), AfterDeleteTable(w, s, rawName).value,
                      s.db - {name});
  }

  /** The end of a column operation: the edited table's final physical form is in step with its edited definition. */
  lemma ColumnEditInStep(w: World, s: AppState, d: Definition, i: nat, columns: seq<Column>, t: PhysicalTable,
                         saved: AppState)
    requires OwningWorld(w) && InStep(w.preparation, s) && s.published == Some(d) && i < |d.tables|
    requires TableInStep(t, d.tables[i].(columns := columns))
    requires var edited := WithColumns(d, i, columns);
             w.preparation.prepare(edited).Some? && saved.draft == saved.published == w.preparation.prepare(edited)
    requires saved.db == s.db[d.tables[i].name := t]
    ensures InStep(w.preparation, saved)
  {
    NormalNames(d.tables);
    hide LawfulPreparation, NormalTables, TableInStep, NormalizeIdentifier;
    ReplacedTableInStep(s.db, d.tables, i, t, d.tables[i].(columns := columns));
    BuilderSaveInStep(w, s, WithColumns(d, i, columns), saved, s.db[d.tables[i].name := t]);
  }

  /** What is known of the edited table before a column operation. */
  lemma EditedTable(p: Preparation, s: AppState, i: nat)
    requires InStep(p, s) && s.published.Some? && i < |s.published.value.tables|
    ensures var def := s.published.value.tables[i];
            && def.name in s.db && TableInStep(s.db[def.name], def)
            && NormalColumns(def.columns) && DistinctNames(def.columns)
            && forall k :: 0 <= k < |def.columns| ==> ColumnName(def.columns[k]) == def.columns[k].name
  {
    NormalNames(s.published.value.tables);
    NormalColumnNames(s.published.value.tables[i].columns);
    hide TableInStep, NormalColumns, NormalizeIdentifier, IsSafeIdentifier;
  }

  /** Saving the edit and numbering the table again leave the edited publication and one changed table. */
  lemma NumberedUnfold(w: World, s: AppState, edited: Definition, i: nat, table: string, t: PhysicalTable,
                       saved: AppState, after: AppState)
    returns (columns: seq<Column>)
    requires WalksValues(w.env.order)
    requires AfterBuilderSave(w, s, edited, s.db[table := t]) == Some(saved)
               && WithAutoNumbers(w, saved, table, i) == Some(after)
    ensures w.preparation.prepare(edited).Some? && after.draft == after.published == w.preparation.prepare(edited)
    ensures ApplyAutoNumbers(w.env.numbering, t, columns).Ok?
    ensures after.db == s.db[table := ApplyAutoNumbers(w.env.numbering, t, columns).value]
  {
    hide ApplyAutoNumbers, DraftColumns;
    columns := DraftColumns(w, saved.published.value, saved.published.value.tables[i]).value;
    var numbered := ApplyAutoNumbers(w.env.numbering, t, columns).value;
    assert s.db[table := t][table := numbered] == s.db[table := numbered];
  }

  /** A column operation that ends by numbering the table again. */
  lemma NumberedEditInStep(w: World, s: AppState, i: nat, columns: seq<Column>, t: PhysicalTable, saved: AppState,
                           after: AppState)
    requires OwningWorld(w) && InStep(w.preparation, s) && s.published.Some? && i < |s.published.value.tables|
    requires TableInStep(t, s.published.value.tables[i].(columns := columns))
    requires AfterBuilderSave(w, s, WithColumns(s.published.value, i, columns),
                              s.db[s.published.value.tables[i].name := t]) == Some(saved)
    requires WithAutoNumbers(w, saved, s.published.value.tables[i].name, i) == Some(after)
    ensures InStep(w.preparation, after)
  {
    hide InStep, OwningWorld, ApplyAutoNumbers, TableInStep, AfterBuilderSave, WithAutoNumbers;
    OwningWorldWalks(w);
    var d := s.published.value;
    var table := d.tables[i].name;
    var now := NumberedUnfold(w, s, WithColumns(d, i, columns), i, table, t, saved, after);
    AutoNumbersKeepInStep(w, t, now, d.tables[i].(columns := columns));
    ColumnEditInStep(w, s, d, i, columns, ApplyAutoNumbers(w.env.numbering, t, now).value, after);
  }

  predicate CanDeleteColumn(s: AppState, i: nat, j: nat, table: string, name: string) {
    && s.published.Some? && i < |s.published.value.tables| && j < |s.published.value.tables[i].columns|
    && s.published.value.tables[i].name == table && table in s.db && s.published.value.tables[i].columns[j].name == name
  }

  lemma DeleteColumnUnfold(w: World, s: AppState, rawTable: string, rawName: string)
      returns (i: nat, j: nat, saved: AppState)
    requires WalksValues(w.env.order)
    requires AfterDeleteColumn(w, s, rawTable, rawName).Some?
    ensures CanDeleteColumn(s, i, j, NormalizeIdentifier(rawTable), NormalizeIdentifier(rawName))
    ensures var table, name, d := NormalizeIdentifier(rawTable), NormalizeIdentifier(rawName), s.published.value;
            var columns := d.tables[i].columns[..j] + d.tables[i].columns[j + 1..];
            && AfterBuilderSave(w, s, WithColumns(d, i, columns), s.db[table := DropColumn(s.db[table], name)]) ==
                 Some(saved)
            && WithAutoNumbers(w, saved, table, i) == AfterDeleteColumn(w, s, rawTable, rawName)
  {
    hide NormalizeIdentifier, IsSafeIdentifier, DropColumn, AfterBuilderSave, WithAutoNumbers;
    var table, name, d := NormalizeIdentifier(rawTable), NormalizeIdentifier(rawName), s.published.value;
    i := TableIndex(d.tables, table).value;
    j := ColumnIndex(d.tables[i].columns, name).value;
    var columns := d.tables[i].columns[..j] + d.tables[i].columns[j + 1..];
    saved := AfterBuilderSave(w, s, WithColumns(d, i, columns), s.db[table := DropColumn(s.db[table], name)]).value;
  }

  lemma DeleteColumnInStep(w: World, s: AppState, rawTable: string, rawName: string)
    requires OwningWorld(w) && InStep(w.preparation, s) && AfterDeleteColumn(w, s, rawTable, rawName).Some?
    ensures InStep(w.preparation, AfterDeleteColumn(w, s, rawTable, rawName).value)
  {
    hide InStep, OwningWorld, NormalizeIdentifier, AfterDeleteColumn, AfterBuilderSave, WithAutoNumbers, TableInStep,
         NormalColumns, DropColumn, DistinctNames, ColumnName;
    OwningWorldWalks(w);
    var i, j, saved := DeleteColumnUnfold(w, s, rawTable, rawName);
    var d := s.published.value;
    EditedTable(w.preparation, s, i);
    ShrunkTableInStep(s.db[d.tables[i].name], d.tables[i], j);
    NumberedEditInStep(w, s, i, d.tables[i].columns[..j] + d.tables[i].columns[j + 1..],
                       DropColumn(s.db[d.tables[i].name], d.tables[i].columns[j].name),
                       saved, AfterDeleteColumn(w, s, rawTable, rawName).value);
  }

  /** A column operation on an auto-number column that sets NOT NULL last, once every row has a number. */
  lemma DeferredEditInStep(w: World, s: AppState, i: nat, columns: seq<Column>, j: nat, t: PhysicalTable,
                           saved: AppState, numbered: AppState, after: AppState)
    requires OwningWorld(w) && InStep(w.preparation, s) && s.published.Some? && i < |s.published.value.tables|
    requires j < |columns| && !columns[j].isNullable && DistinctNames(columns)
    requires TableInStep(t, s.published.value.tables[i].(columns := columns[j := columns[j].(isNullable := true)]))
    requires AfterBuilderSave(w, s, WithColumns(s.published.value, i, columns),
                              s.db[s.published.value.tables[i].name := t]) == Some(saved)
    requires WithAutoNumbers(w, saved, s.published.value.tables[i].name, i) == Some(numbered)
    requires WithNotNull(numbered, s.published.value.tables[i].name, ColumnName(columns[j])) == Some(after)
    ensures InStep(w.preparation, after)
  {
    hide *;
    OwningWorldWalks(w);
    var d := s.published.value;
    var def := d.tables[i];
    var relaxed := def.(columns := columns[j := columns[j].(isNullable := true)]);
    var now := NumberedUnfold(w, s, WithColumns(d, i, columns), i, def.name, t, saved, numbered);
    AutoNumbersKeepInStep(w, t, now, relaxed);
    var full := ApplyAutoNumbers(w.env.numbering, t, now).value;
    NotNullUnfold(numbered, def.name, ColumnName(columns[j]), after);
    var final := SetNotNull(full, ColumnName(columns[j])).value;
    assert relaxed.columns[j := columns[j]] == columns;
    TightenedTableInStep(full, relaxed, j, columns[j]);
    assert s.db[def.name := full][def.name := final] == s.db[def.name := final];
    ColumnEditInStep(w, s, d, i, columns, final, after);
  }

  lemma OwningWorldWalks(w: World)
    requires OwningWorld(w)
    ensures WalksValues(w.env.order)
  {}

  lemma NotNullUnfold(s: AppState, name: string, column: string, after: AppState)
    requires WithNotNull(s, name, column) == Some(after)
    ensures name in s.db && SetNotNull(s.db[name], column).Ok?
              && after == s.(db := s.db[name := SetNotNull(s.db[name], column).value])
  {}

  lemma TightenedTableInStep(t: PhysicalTable, def: Table, j: nat, c: Column)
    requires j < |def.columns| && c == def.columns[j].(isNullable := false) && DistinctNames(def.columns[j := c])
    requires TableInStep(t, def) && SetNotNull(t, ColumnName(c)).Ok?
    ensures TableInStep(SetNotNull(t, ColumnName(c)).value, def.(columns := def.columns[j := c]))
  {
    var columns := def.columns[j := c];
    assert ColumnName(c) == ColumnName(def.columns[j]);
    SetNotNullKeepsValid(t, ColumnName(c)) by { hide NullCount; }
    hide ColumnName, Conforms, TableValid, NullCount, IsSystemColumnName;
    assert DistinctNames(def.columns) by {
      forall k | 0 <= k < |columns| ensures ColumnName(def.columns[k]) == ColumnName(columns[k]) {}
    }
    ChangedColumnInStep(t, SetNotNull(t, ColumnName(c)).value, def, j, c);
  }

  // ---- Creating a column ----

  lemma NewColumnNames(t: PhysicalTable, def: Table, c: Column)
    requires TableInStep(t, def) && NormalColumns(def.columns)
    requires LegalBuilderName(c.name) && NormalizeIdentifier(c.name) == c.name && c.name !in ColumnNames(def.columns)
    ensures c.name !in t.columns && DistinctNames(def.columns + [c])
  {
    NormalColumnNames(def.columns);
    if c.name in t.columns && IsSystemColumnName(c.name) { SystemNameStartsWithUnderscore(c.name); }
    hide NormalizeIdentifier, IsSafeIdentifier, IsSystemColumnName, Conforms, TableValid;
  }

  /** The table with the new column, whose NOT NULL an auto-number defers. */
  lemma AddedColumnInStep(t: PhysicalTable, def: Table, c: Column, sql: SqlType)
    requires TableInStep(t, def) && IsSafeIdentifier(c.name) && ColumnName(c) == c.name && c.name !in t.columns
               && BuilderDataTypeToSQL(c.dataType) == Some(sql)
    requires AddColumn(t, c.name, PhysicalColumn(sql, c.isNullable)).Ok?
    ensures TableInStep(AddColumn(t, c.name, PhysicalColumn(sql, c.isNullable)).value,
                        def.(columns := def.columns + [c]))
  {
    var pc := PhysicalColumn(sql, c.isNullable);
    AddColumnKeepsValid(t, c.name, pc);
    hide ColumnName, IsSafeIdentifier, Conforms, TableValid;
    GrownTableInStep(t, AddColumn(t, c.name, pc).value, def, c, pc);
  }

  ghost predicate CreatesColumn(w: World, s: AppState, i: nat, c: Column, sql: SqlType, saved: AppState,
                                numbered: AppState, after: AppState)
    requires WalksValues(w.env.order)
  {
    && s.published.Some? && i < |s.published.value.tables|
    && var d, def := s.published.value, s.published.value.tables[i];
    && def.name in s.db && LegalBuilderName(c.name) && c.name !in ColumnNames(def.columns)
         && BuilderDataTypeToSQL(c.dataType) == Some(sql)
    && var added := AddColumn(s.db[def.name], c.name, PhysicalColumn(sql, c.isNullable || c.dataType.AutoNumber?));
    && added.Ok?
    && AfterBuilderSave(w, s, WithColumns(d, i, def.columns + [c]), s.db[def.name := added.value]) == Some(saved)
    && WithAutoNumbers(w, saved, def.name, i) == Some(numbered)
    && Some(after) == if c.isNullable || !c.dataType.AutoNumber? then Some(numbered)
         else WithNotNull(numbered, def.name, c.name)
  }

  lemma CreateColumnUnfold(w: World, s: AppState, rawTable: string, column: Column)
    returns (i: nat, sql: SqlType, saved: AppState, numbered: AppState)
    requires WalksValues(w.env.order)
    requires AfterCreateColumn(w, s, rawTable, column).Some?
    ensures CreatesColumn(w, s, i, column.(name := ColumnName(column)), sql, saved, numbered,
                          AfterCreateColumn(w, s, rawTable, column).value)
  {
    hide NormalizeIdentifier, LegalBuilderName, IsSafeIdentifier, AddColumn, AfterBuilderSave, WithAutoNumbers,
         WithNotNull, BuilderDataTypeToSQL;
    var d := s.published.value;
    i := TableIndex(d.tables, NormalizeIdentifier(rawTable)).value;
    var def, name := d.tables[i], ColumnName(column);
    sql := BuilderDataTypeToSQL(column.dataType).value;
    var added := AddColumn(s.db[def.name], name,
                           PhysicalColumn(sql, column.isNullable || column.dataType.AutoNumber?)).value;
    saved := AfterBuilderSave(w, s, WithColumns(d, i, def.columns + [column.(name := name)]),
                              s.db[def.name := added]).value;
    numbered := WithAutoNumbers(w, saved, def.name, i).value;
  }

  lemma CreateColumnInStep(w: World, s: AppState, rawTable: string, column: Column)
    requires OwningWorld(w) && InStep(w.preparation, s) && AfterCreateColumn(w, s, rawTable, column).Some?
    ensures InStep(w.preparation, AfterCreateColumn(w, s, rawTable, column).value)
  {
    var i, sql, saved, numbered := CreateColumnUnfold(w, s, rawTable, column);
    var c := column.(name := ColumnName(column));
    NormalizeIdempotent(column.name);
    CreatedColumnInStep(w, s, i, c, sql, saved, numbered,
                        AfterCreateColumn(w, s, rawTable, column).value) by { hide *; }
  }

  lemma CreatedColumnInStep(w: World, s: AppState, i: nat, c: Column, sql: SqlType, saved: AppState,
                            numbered: AppState, after: AppState)
    requires OwningWorld(w) && InStep(w.preparation, s) && CreatesColumn(w, s, i, c, sql, saved, numbered, after)
               && ColumnName(c) == c.name
    ensures InStep(w.preparation, after)
  {
    hide InStep, OwningWorld, NormalizeIdentifier, IsSafeIdentifier, AddColumn, AfterBuilderSave, WithAutoNumbers,
         WithNotNull, TableInStep, DistinctNames, NormalColumns, BuilderDataTypeToSQL;
    OwningWorldWalks(w);
    var d := s.published.value;
    var def := d.tables[i];
    EditedTable(w.preparation, s, i);
    assert IsSafeIdentifier(c.name) && ColumnName(c) == NormalizeIdentifier(c.name);
    NewColumnNames(s.db[def.name], def, c);
    hide LegalBuilderName, ColumnName;
    if c.isNullable || !c.dataType.AutoNumber? {
      AddedColumnInStep(s.db[def.name], def, c, sql);
      NumberedEditInStep(w, s, i, def.columns + [c],
                         AddColumn(s.db[def.name], c.name, PhysicalColumn(sql, c.isNullable)).value, saved, after);
    } else {
      var relaxed := c.(isNullable := true);
      AddedColumnInStep(s.db[def.name], def, relaxed, sql);
      assert (def.columns + [c])[|def.columns| := relaxed] == def.columns + [relaxed];
      DeferredEditInStep(w, s, i, def.columns + [c], |def.columns|,
                         AddColumn(s.db[def.name], c.name, PhysicalColumn(sql, true)).value, saved, numbered, after);
    }
  }

  // ---- Updating a column ----

  function Renumbered(current: Column, prefix: string, isNullable: bool): Column {
    current.(isNullable := isNullable, prefix := if current.dataType.AutoNumber?
             && prefix == "" then current.prefix else prefix)
  }

  predicate IsDeferred(current: Column, isNullable: bool) {
    current.isNullable && !isNullable && current.dataType.AutoNumber?
  }

  ghost predicate UpdatesColumn(w: World, s: AppState, i: nat, j: nat, c: Column, saved: AppState, numbered: AppState,
                                after: AppState)
    requires WalksValues(w.env.order)
  {
    && s.published.Some? && i < |s.published.value.tables| && j < |s.published.value.tables[i].columns|
    && var d, def := s.published.value, s.published.value.tables[i];
    && var current := def.columns[j];
    && def.name in s.db && !("_" <= current.name)
    && (exists prefix :: c == Renumbered(current, prefix, c.isNullable))
    && var changed := ChangedNullability(s.db[def.name], current.name, current, c.isNullable);
    && changed.Ok?
    && AfterBuilderSave(w, s, WithColumns(d, i, def.columns[j := c]), s.db[def.name := changed.value]) == Some(saved)
    && WithAutoNumbers(w, saved, def.name, i) == Some(numbered)
    && Some(after) == if IsDeferred(current, c.isNullable) then WithNotNull(numbered, def.name, current.name)
         else Some(numbered)
  }

  lemma UpdateColumnUnfold(w: World, s: AppState, rawTable: string, rawName: string, prefix: string, isNullable: bool)
    returns (i: nat, j: nat, c: Column, saved: AppState, numbered: AppState)
    requires WalksValues(w.env.order)
    requires AfterUpdateColumn(w, s, rawTable, rawName, prefix, isNullable).Some?
    ensures UpdatesColumn(w, s, i, j, c, saved, numbered,
                          AfterUpdateColumn(w, s, rawTable, rawName, prefix, isNullable).value)
  {
    hide NormalizeIdentifier, IsSafeIdentifier, ChangedNullability, AfterBuilderSave, WithAutoNumbers, WithNotNull;
    var d := s.published.value;
    i := TableIndex(d.tables, NormalizeIdentifier(rawTable)).value;
    var def := d.tables[i];
    j := ColumnIndex(def.columns, NormalizeIdentifier(rawName)).value;
    c := Renumbered(def.columns[j], prefix, isNullable);
    var changed := ChangedNullability(s.db[def.name], def.columns[j].name, def.columns[j], isNullable).value;
    saved := AfterBuilderSave(w, s, WithColumns(d, i, def.columns[j := c]), s.db[def.name := changed]).value;
    numbered := WithAutoNumbers(w, saved, def.name, i).value;
  }

  lemma DropNotNullKeepsValid(t: PhysicalTable, name: string)
    requires TableValid(t) && DropNotNull(t, name).Ok?
    ensures TableValid(DropNotNull(t, name).value)
  {}

  /** A nullability change touches the one flag and no row. */
  lemma ChangedNullabilityResult(t: PhysicalTable, name: string, current: Column, isNullable: bool)
    requires TableValid(t) && name in t.columns && t.columns[name].isNullable == current.isNullable
    requires ChangedNullability(t, name, current, isNullable).Ok?
    ensures var r := ChangedNullability(t, name, current, isNullable).value;
            && TableValid(r)
            && r.columns == t.columns[name := t.columns[name].(isNullable := if IsDeferred(current,
                   isNullable) then true else isNullable)]
  {
    if SetNotNull(t, name).Ok? { SetNotNullKeepsValid(t, name); }
    if DropNotNull(t, name).Ok? { DropNotNullKeepsValid(t, name); }
    hide TableValid, NullCount;
    assert t.columns == t.columns[name := t.columns[name]];
  }

  /** The table after the immediate part of the change is in step with the new column, or with its nullable form. */
  lemma ChangedNullabilityInStep(t: PhysicalTable, def: Table, j: nat, c: Column)
    requires TableInStep(t, def) && DistinctNames(def.columns) && j < |def.columns|
               && ColumnName(def.columns[j]) == def.columns[j].name
    requires c.name == def.columns[j].name && c.dataType == def.columns[j].dataType
    requires ChangedNullability(t, c.name, def.columns[j], c.isNullable).Ok?
    ensures TableInStep(ChangedNullability(t, c.name, def.columns[j], c.isNullable).value,
                        def.(columns := def.columns[j := if IsDeferred(def.columns[j],
                            c.isNullable) then c.(isNullable := true) else c]))
  {
    var current := def.columns[j];
    SameNameColumn(c, current);
    hide ChangedNullability, IsDeferred, TableValid, ColumnName, IsSafeIdentifier, DistinctNames, HasName,
         IsSystemColumnName;
    assert TypeAsDefined(t, current) && t.columns[c.name].isNullable == current.isNullable;
    ChangedNullabilityResult(t, c.name, current, c.isNullable);
    hide TableInStep, TypeAsDefined, Conforms;
    ChangedColumnInStep(t, ChangedNullability(t, c.name, current, c.isNullable).value, def, j,
                        if IsDeferred(current, c.isNullable) then c.(isNullable := true) else c);
  }

  lemma SameNameColumn(c: Column, d: Column)
    requires c.name == d.name
    ensures ColumnName(c) == ColumnName(d) && ColumnName(c.(isNullable := true)) == ColumnName(d)
  {}

  lemma UpdateColumnInStep(w: World, s: AppState, rawTable: string, rawName: string, prefix: string, isNullable: bool)
    requires OwningWorld(w) && InStep(w.preparation, s)
               && AfterUpdateColumn(w, s, rawTable, rawName, prefix, isNullable).Some?
    ensures InStep(w.preparation, AfterUpdateColumn(w, s, rawTable, rawName, prefix, isNullable).value)
  {
    hide *;
    OwningWorldWalks(w);
    var i, j, c, saved, numbered := UpdateColumnUnfold(w, s, rawTable, rawName, prefix, isNullable);
    UpdatedColumnInStep(w, s, i, j, c, saved, numbered,
                        AfterUpdateColumn(w, s, rawTable, rawName, prefix, isNullable).value);
  }

  lemma UpdatedColumnInStep(w: World, s: AppState, i: nat, j: nat, c: Column, saved: AppState, numbered: AppState,
                            after: AppState)
    requires OwningWorld(w) && InStep(w.preparation, s) && UpdatesColumn(w, s, i, j, c, saved, numbered, after)
    ensures InStep(w.preparation, after)
  {
    hide InStep, OwningWorld, ChangedNullability, AfterBuilderSave, WithAutoNumbers, WithNotNull, TableInStep,
         NormalColumns, ColumnName, IsDeferred, DistinctNames;
    OwningWorldWalks(w);
    var d := s.published.value;
    var def := d.tables[i];
    var current := def.columns[j];
    EditedTable(w.preparation, s, i);
    var changed := ChangedNullability(s.db[def.name], current.name, current, c.isNullable).value;
    ChangedNullabilityInStep(s.db[def.name], def, j, c);
    SameNameColumn(c, current);
    SameNamesDistinct(def.columns, j, c);
    if IsDeferred(current, c.isNullable) {
      assert !c.isNullable by { DeferredIsNotNullable(current, c.isNullable); }
      assert def.columns[j := c][j := c.(isNullable := true)] == def.columns[j := c.(isNullable := true)];
      DeferredEditInStep(w, s, i, def.columns[j := c], j, changed, saved, numbered, after);
    } else {
      NumberedEditInStep(w, s, i, def.columns[j := c], changed, saved, after);
    }
  }

  lemma DeferredIsNotNullable(current: Column, isNullable: bool)
    requires IsDeferred(current, isNullable)
    ensures !isNullable
  {}

  lemma SameNamesDistinct(columns: seq<Column>, j: nat, c: Column)
    requires j < |columns| && DistinctNames(columns) && ColumnName(c) == ColumnName(columns[j])
    ensures DistinctNames(columns[j := c])
  {
    hide ColumnName;
  }

  // ---- Publishing ----

  /** A table that extends nothing resolves to its own columns. */
  lemma BaselessResolves(env: Environment, d: Definition, t: Table)
    requires WalksValues(env.order) && t.base == "" && NameOf(t) != ""
    ensures ResolvedColumns(env, d, t) == Ok(t.columns)
  {
    hide NormalizeIdentifier, WalksValues, Universe, MergeApps;
  }

  predicate BaselessTables(tables: seq<Table>) {
    forall i :: 0 <= i < |tables| ==> tables[i].base == ""
  }

  lemma NormalTablesWellNamed(env: Environment, d: Definition)
    requires WalksValues(env.order) && NormalTables(d.tables) && BaselessTables(d.tables)
    ensures WellNamed(env, d) && DistinctTableNames(d.tables)
    ensures forall i :: 0 <= i < |d.tables| ==>
              ResolvedColumns(env, d, d.tables[i]) == Ok(d.tables[i].columns) && DistinctNames(d.tables[i].columns)
  {
    NormalNames(d.tables);
    forall i | 0 <= i < |d.tables|
      ensures ResolvedColumns(env, d, d.tables[i]) == Ok(d.tables[i].columns) && DistinctNames(d.tables[i].columns)
    {
      assert NormalTable(d.tables[i]) && NameOf(d.tables[i]) != "";
      BaselessResolves(env, d, d.tables[i]);
      NormalColumnNames(d.tables[i].columns);
    }
    hide ResolvedColumns, NameOf, NormalTables, DistinctNames;
  }

  /** What is left of a table before it is ensured: system columns and columns of the next definition. */
  ghost predicate Covered(t: PhysicalTable, def: Table) {
    && TableValid(t)
    && forall x :: x in t.columns ==> IsSystemColumnName(x) || HasName(def.columns, x)
  }

  lemma DroppedTableCovered(t: PhysicalTable, published: Table, next: Table, r: PhysicalTable)
    requires TableInStep(t, published) && DropColumns(t, published.columns, next) == Ok(r)
    ensures Covered(r, next)
  {
    DropColumnsResult(t, published.columns, next);
    hide DropColumns, ColumnName, IsSystemColumnName, TableValid, SameCells;
    forall x | x in r.columns ensures IsSystemColumnName(x) || HasName(next.columns, x) {
      if HasName(published.columns, x) {
        var k :| 0 <= k < |published.columns| && ColumnName(published.columns[k]) == x;
        assert TypeAsDefined(t, published.columns[k]) && x != "";
      }
    }
  }

  /** Only tables of the old publication are in the database, so a new table is created and an old one is covered. */
  lemma MiddleTableCovered(db: Database, mid: Database, published: seq<Table>, next: Definition, j: nat)
    requires Reconciled(db, mid, published, next) && TablesInStep(db, published) && DistinctTableNames(next.tables)
    requires j < |next.tables| && NameOf(next.tables[j]) != ""
    ensures Covered(TableBefore(mid, NameOf(next.tables[j])), next.tables[j])
  {
    var name := NameOf(next.tables[j]);
    hide NameOf, DropColumns, TableInStep, Covered;
    if HasTable(published, name) {
      var i :| 0 <= i < |published| && NameOf(published[i]) == name;
      NextTableIs(next.tables, j);
      hide NextTable, DistinctTableNames;
      ReconciledAt(db, mid, published, next, i);
      DroppedTableCovered(db[name], published[i], next.tables[j], mid[name]);
    } else {
      assert name !in mid;
      NewTableCovered(next.tables[j]);
    }
  }

  lemma NewTableCovered(def: Table)
    ensures Covered(NewTable(), def)
  {
    NewTableInStep(def.(columns := []));
  }

  lemma EnsuredTableInStep(a: AutoNumbering, t: PhysicalTable, def: Table)
    requires Covered(t, def) && DistinctNames(def.columns) && EnsureTable(a, t, def.columns).Ok?
    ensures TableInStep(EnsureTable(a, t, def.columns).value, def)
  {
    EnsureTableResult(a, t, def.columns);
    hide EnsureTable, Conforms, ColumnName, IsSystemColumnName, TableValid, HasName, SameCells;
  }

  /** Tables that only the old publication had are gone when the new one is applied. */
  lemma NothingElseLeft(db: Database, mid: Database, published: seq<Table>, next: Definition, name: string)
    requires Reconciled(db, mid, published, next) && TablesInStep(db, published) && name in mid && name != ""
    ensures HasTable(next.tables, name)
  {
    hide NameOf, DropColumns, TableInStep;
    var i :| 0 <= i < |published| && NameOf(published[i]) == name;
    var t := NextTable(next.tables, name).value;
    var k :| 0 <= k < |next.tables| && next.tables[k] == t;
    assert NameOf(next.tables[k]) == name;
  }

  /** The state before a publication as reconciliation sees it: tables of the old publication only. */
  ghost predicate Prior(db: Database, mid: Database, published: Option<Definition>, next: Definition) {
    if published.None? then mid == map[]
    else TablesInStep(db, published.value.tables) && Reconciled(db, mid, published.value.tables, next)
  }

  lemma PriorCovers(db: Database, mid: Database, published: Option<Definition>, next: Definition, j: nat)
    requires Prior(db, mid, published, next) && DistinctTableNames(next.tables) && j < |next.tables|
               && NameOf(next.tables[j]) != ""
    ensures Covered(TableBefore(mid, NameOf(next.tables[j])), next.tables[j])
  {
    hide NameOf, TablesInStep, Reconciled, Covered, DistinctTableNames;
    if published.None? { NewTableCovered(next.tables[j]); }
    else { MiddleTableCovered(db, mid, published.value.tables, next, j); }
  }

  lemma AppliedInStep(env: Environment, db: Database, mid: Database, after: Database, published: Option<Definition>,
                      next: Definition)
    requires WalksValues(env.order) && NormalTables(next.tables) && BaselessTables(next.tables)
    requires Prior(db, mid, published, next) && "" !in mid && Applied(env, mid, after, next, |next.tables|)
    ensures TablesInStep(after, next.tables)
  {
    NormalTablesWellNamed(env, next);
    hide NormalTables, ResolvedColumns, EnsureTable, NameOf, TableInStep, Covered, DistinctNames, DistinctTableNames,
         Prior, WellNamed, WalksValues;
    assert next.tables[..|next.tables|] == next.tables;
    forall i | 0 <= i < |next.tables| ensures NameOf(next.tables[i]) in after
        && TableInStep(after[NameOf(next.tables[i])], next.tables[i]) {
      assert AppliedAt(env, mid, after, next, i);
      PriorCovers(db, mid, published, next, i);
      EnsuredTableInStep(env.numbering, TableBefore(mid, NameOf(next.tables[i])), next.tables[i]);
    }
    forall x | x in after ensures HasTable(next.tables, x) {
      if x in mid { PriorNames(db, mid, published, next, x); }
    }
  }

  lemma PriorNames(db: Database, mid: Database, published: Option<Definition>, next: Definition, name: string)
    requires Prior(db, mid, published, next) && name in mid && name != ""
    ensures HasTable(next.tables, name)
  {
    hide TablesInStep, Reconciled, HasTable;
    NothingElseLeft(db, mid, published.value.tables, next, name);
  }

  lemma NoEmptyName(db: Database, tables: seq<Table>)
    requires TablesInStep(db, tables) && NormalTables(tables)
    ensures "" !in db
  {
    NormalNames(tables);
    hide NameOf, TableInStep, NormalizeIdentifier;
    forall i | 0 <= i < |tables| ensures NameOf(tables[i]) != "" { assert NormalTable(tables[i]); }
  }

  /** A publication of tables that extend nothing leaves the physical schema in step with it. */
  lemma PublishedInStep(w: World, s: AppState, next: Definition)
    requires OwningWorld(w) && InStep(w.preparation, s) && next.name == w.preparation.name
               && next.namespace == w.preparation.namespace
    requires NormalTables(next.tables) && BaselessTables(next.tables)
               && PublishSchema(w.env, s.db, s.published, next).Ok?
    ensures TablesInStep(PublishSchema(w.env, s.db, s.published, next).value, next.tables)
  {
    NormalTablesWellNamed(w.env, next);
    if s.published.Some? {
      NormalNames(s.published.value.tables);
      NoEmptyName(s.db, s.published.value.tables);
    }
    assert OwnsPhysicalSchema(next) && (s.published.Some? ==> OwnsPhysicalSchema(s.published.value));
    hide NormalTables, ResolvedColumns, TablesInStep, DistinctTableNames, PublishSchema, Applied, Reconciled,
         OwnsPhysicalSchema, LawfulPreparation, BaselessTables, WalksValues, NormalColumns;
    var mid := MiddleState(w.env, s.db, s.published, next);
    assert "" !in mid by { EmptyNameStaysOut(s.db, mid, s.published, next); }
    assert Prior(s.db, mid, s.published, next);
    hide InStep;
    AppliedInStep(w.env, s.db, mid, PublishSchema(w.env, s.db, s.published, next).value, s.published, next);
  }

  lemma EmptyNameStaysOut(db: Database, mid: Database, published: Option<Definition>, next: Definition)
    requires "" !in db && (if published.None? then mid == db else Reconciled(db, mid, published.value.tables, next))
    ensures "" !in mid
  {
    hide NameOf, DropColumns;
  }

  lemma CorrespondingBaseless(before: seq<Table>, after: seq<Table>)
    requires TablesCorrespond(before, after) && forall i :: 0 <= i < |before| ==>
               NormalizeIdentifier(before[i].base) == ""
    ensures BaselessTables(after)
  {
    hide NormalizeIdentifier, ColumnsCorrespond;
  }

  lemma PreparedTables(w: World, d: Definition)
    requires LawfulPreparation(w.preparation) && NoBases(d) && w.preparation.prepare(d).Some?
    ensures NormalTables(w.preparation.prepare(d).value.tables) && BaselessTables(w.preparation.prepare(d).value.tables)
    ensures NoBases(w.preparation.prepare(d).value)
  {
    NormalizeTablesResult(d.tables, w.preparation.rules);
    CorrespondingBaseless(d.tables, w.preparation.prepare(d).value.tables);
    NormalizeEmpty();
    hide NormalTables, NormalizeIdentifier, TablesCorrespond;
  }

  lemma SaveInStep(w: World, s: AppState, d: Definition)
    requires OwningWorld(w) && InStep(w.preparation, s) && NoBases(d) && AfterSave(w, s, d).Some?
    ensures InStep(w.preparation, AfterSave(w, s, d).value)
  {
    PreparedTables(w, d);
    hide NormalTables, TablesInStep, NoBases;
  }

  lemma PublishInStep(w: World, s: AppState)
    requires OwningWorld(w) && InStep(w.preparation, s) && AfterPublish(w, s).Some?
    ensures InStep(w.preparation, AfterPublish(w, s).value)
  {
    var source := if s.draft.Some? then s.draft.value else s.published.value;
    NormalizeEmpty();
    assert NoBases(source) by { hide NormalizeIdentifier, NormalTables, TableInStep; }
    PreparedTables(w, source);
    hide NormalTables, TablesInStep, NoBases, BaselessTables, PublishSchema, OwnsPhysicalSchema, WalksValues;
    PublishedInStep(w, s, w.preparation.prepare(source).value);
  }

  lemma WriteInStep(w: World, s: AppState, table: string, rows: seq<Row>)
    requires OwningWorld(w) && InStep(w.preparation, s) && AfterWrite(s, table, rows).Some?
    ensures InStep(w.preparation, AfterWrite(s, table, rows).value)
  {
    hide OwningWorld, NormalTables, TableInStep, NameOf, NoBases, DistinctTableNames, TableValid;
    var tables := s.published.value.tables;
    var i :| 0 <= i < |tables| && NameOf(tables[i]) == table;
    NormalNames(tables);
    SameColumnsInStep(s.db[table], s.db[table].(rows := rows), tables[i]);
    ReplacedTableInStep(s.db, tables, i, s.db[table].(rows := rows), tables[i]);
    assert tables[i := tables[i]] == tables;
  }

  // ---- Every run ----

  lemma StepKeepsInStep(w: World, s: AppState, step: Step)
    requires OwningWorld(w) && InStep(w.preparation, s) && PlainStep(step)
    ensures InStep(w.preparation, Perform(w, s, step))
  {
    hide InStep, LawfulPreparation, OwnsPhysicalSchema, NoBases, AfterSave, AfterPublish, AfterCreateTable,
         AfterCreateColumn, AfterUpdateColumn, AfterDeleteTable, AfterDeleteColumn, AfterWrite, WalksValues;
    match step
    case SaveDraft(d, ok) => if ok && AfterSave(w, s, d).Some? { SaveInStep(w, s, d); }
    case Publish(ok) => if ok && AfterPublish(w, s).Some? { PublishInStep(w, s); }
    case CreateTable(t, ok) => if ok && AfterCreateTable(w, s, t).Some? { CreateTableInStep(w, s, t); }
    case CreateColumn(t, c, ok) => if ok && AfterCreateColumn(w, s, t, c).Some? { CreateColumnInStep(w, s, t, c); }
    case UpdateColumn(t, c, p, n, ok) => if ok
        && AfterUpdateColumn(w, s, t, c, p, n).Some? { UpdateColumnInStep(w, s, t, c, p, n); }
    case DeleteTable(t, ok) => if ok && AfterDeleteTable(w, s, t).Some? { DeleteTableInStep(w, s, t); }
    case DeleteColumn(t, c, ok) => if ok && AfterDeleteColumn(w, s, t, c).Some? { DeleteColumnInStep(w, s, t, c); }
    case WriteRows(t, rows) => if AfterWrite(s, t, rows).Some? { WriteInStep(w, s, t, rows); }
  }

  lemma NewAppInStep(p: Preparation)
    requires LawfulPreparation(p) && NewApp(p).Some?
    ensures InStep(p, NewApp(p).value)
  {}

  /** Every step is plain. */
  predicate PlainRun(moves: seq<Move>) {
    forall i :: 0 <= i < |moves| ==> PlainStep(moves[i].step)
  }

  /**
   * Over every run of drafts, publications, builder operations and record
   * writes, published definition and physical schema stay in step.
   */
  lemma {:induction false} RunKeepsInStep(p: Preparation, s: AppState, moves: seq<Move>)
    requires LawfulPreparation(p) && OwnsItsSchema(p) && Walkable(moves) && PlainRun(moves) && InStep(p, s)
    ensures InStep(p, Run(p, s, moves))
  {
    if moves != [] {
      hide InStep, Perform, OwnsItsSchema, LawfulPreparation, PlainStep, WalksValues;
      var front, last := moves[..|moves| - 1], moves[|moves| - 1];
      RunKeepsInStep(p, s, front);
      StepKeepsInStep(World(p, last.env), Run(p, s, front), last.step);
    }
  }

  /**
   * An app that owns no physical schema, which CreateApp never makes: its
   * publication leaves the tables alone, so it keeps in step exactly when they
   * happen to be those of the draft.
   */
  lemma NonOwningPublishIff(w: World, s: AppState)
    requires WalksValues(w.env.order) && LawfulPreparation(w.preparation) && !OwnsItsSchema(w.preparation)
    requires InStep(w.preparation, s) && AfterPublish(w, s).Some?
    ensures var r := AfterPublish(w, s).value;
            && r.db == s.db && r.published.Some?
            && (InStep(w.preparation, r) <==> TablesInStep(s.db, r.published.value.tables))
  {
    var source := if s.draft.Some? then s.draft.value else s.published.value;
    NormalizeTablesResult(source.tables, w.preparation.rules);
    hide TablesInStep, NormalTables, TablesCorrespond, NoBases, NormalizeTables;
  }

  /**
   * So after any run from a new app, every published column is there as published,
   * nothing else is, and no NOT NULL column holds a null.
   */
  lemma PublishedSchemaIsPhysical(p: Preparation, moves: seq<Move>, i: nat)
    requires LawfulPreparation(p) && Walkable(moves) && NewApp(p).Some? && PlainRun(moves)
    requires var r := Run(p, NewApp(p).value, moves);
             r.published.Some? && i < |r.published.value.tables|
    ensures var r := Run(p, NewApp(p).value, moves);
            var def := r.published.value.tables[i];
            && def.name in r.db
            && (forall c :: c in def.columns ==>
                c.name in r.db[def.name].columns && r.db[def.name].columns[c.name].isNullable == c.isNullable)
            && (forall x :: x in r.db[def.name].columns ==> IsSystemColumnName(x) || x in ColumnNames(def.columns))
            && (forall x, row ::
                  x in r.db[def.name].columns && !r.db[def.name].columns[x].isNullable && row in r.db[def.name].rows ==>
                    x in row)
  {
    hide *;
    NewAppInStep(p);
    NewAppOwns(p);
    RunKeepsInStep(p, NewApp(p).value, moves);
    var r := Run(p, NewApp(p).value, moves);
    EditedTable(p, r, i);
    TableInStepMeans(r.db[r.published.value.tables[i].name], r.published.value.tables[i]);
  }

  lemma NewAppOwns(p: Preparation)
    requires NewApp(p).Some?
    ensures OwnsItsSchema(p)
  {
    hide NormalizeIdentifier;
  }

  lemma TableInStepMeans(t: PhysicalTable, def: Table)
    requires TableInStep(t, def) && forall k :: 0 <= k < |def.columns| ==>
               ColumnName(def.columns[k]) == def.columns[k].name
    ensures forall c :: c in def.columns ==> c.name in t.columns && t.columns[c.name].isNullable == c.isNullable
    ensures forall x :: x in t.columns ==> IsSystemColumnName(x) || x in ColumnNames(def.columns)
    ensures forall x, row :: x in t.columns && !t.columns[x].isNullable && row in t.rows ==> x in row
  {
    hide ColumnName, IsSafeIdentifier, IsSystemColumnName;
    forall c | c in def.columns ensures c.name in t.columns && t.columns[c.name].isNullable == c.isNullable {
      var k :| 0 <= k < |def.columns| && def.columns[k] == c;
      assert TypeAsDefined(t, def.columns[k]);
    }
  }
}
