/**
 * What each operation on an app leaves behind, stated without the functions
 * that compute it (internal/db/AppDefinition.go, AppBuilder.go).
 */
module OperationEffects {
  import opened Common
  import opened Text
  import opened AppModel
  import opened DefinitionNormalization
  import opened PhysicalSchema
  import opened TableReconciliation
  import opened SchemaPublication
  import opened AppLifecycle
  import opened DraftSurvival

  /** The number after both versions. */
  predicate NextVersion(s: AppState, v: nat) {
    s.draftVersion < v && s.publishedVersion < v && (v == s.draftVersion + 1 || v == s.publishedVersion + 1)
  }

  // ---- Drafts and publications ----

  /** A save that is refused changes nothing; any other stores the prepared draft and nothing else but its version. */
  lemma SaveDraftEffect(w: World, s: AppState, d: Definition, accepted: bool)
    requires WalksValues(w.env.order)
    ensures var r, prepared := Perform(w, s, SaveDraft(d, accepted)), w.preparation.prepare(d);
            if !accepted || prepared.None? then r == s
            else
              && r.draft == prepared
              && r.db == s.db && r.published == s.published && r.publishedVersion == s.publishedVersion
              && (if s.draft == prepared then r.draftVersion == s.draftVersion else NextVersion(s, r.draftVersion))
  {
    hide WalksValues;
  }

  /** A publication publishes the draft, prepared again, and makes its version the published one. */
  lemma PublishEffect(w: World, s: AppState)
    requires WalksValues(w.env.order) && s.draft.Some? && s.draftVersion > 0
    ensures var prepared, r := w.preparation.prepare(s.draft.value), Outcome(w, s, Publish(true));
            && (r.Some? <==> prepared.Some? && PublishSchema(w.env, s.db, s.published, prepared.value).Ok?)
            && (r.Some? ==>
                  && r.value.published == prepared && r.value.draft == s.draft
                  && PublishSchema(w.env, s.db, s.published, prepared.value) == Ok(r.value.db)
                  && r.value.draftVersion == r.value.publishedVersion == s.draftVersion)
  {
    hide WalksValues, PublishSchema;
  }

  /** A save and the publication after it publish what was saved, and leave no unpublished draft. */
  lemma SavedDraftIsPublished(w: World, s: AppState, d: Definition, later: World)
    requires WalksValues(w.env.order) && WalksValues(later.env.order) && later.preparation == w.preparation
    requires SteadyPreparation(w.preparation) && VersionsTruthful(w.preparation, s) && w.preparation.prepare(d).Some?
    requires Outcome(later, Perform(w, s, SaveDraft(d, true)), Publish(true)).Some?
    ensures var r := Outcome(later, Perform(w, s, SaveDraft(d, true)), Publish(true)).value;
            r.draft == r.published == w.preparation.prepare(d) && !HasUnpublishedDraft(r)
  {
    hide WalksValues, Outcome, Perform, LawfulPreparation;
    SaveDraftEffect(w, s, d, true);
    PublishEffect(later, Perform(w, s, SaveDraft(d, true)));
  }

  // ---- Builder operations: the target ----

  /** A builder operation raises both versions above what they were. */
  lemma BuilderVersions(w: World, s: AppState, step: Step)
    requires WalksValues(w.env.order) && IsBuilderStep(step) && Outcome(w, s, step).Some?
    ensures var r := Outcome(w, s, step).value;
            r.draftVersion == r.publishedVersion && NextVersion(s, r.draftVersion)
  {
    hide WalksValues, NormalizeIdentifier, IsSafeIdentifier, LegalBuilderName, TableIndex, ColumnIndex, DraftColumns,
         ApplyAutoNumbers, SetNotNull, AddColumn, DropColumn, ChangedNullability, BuilderDataTypeToSQL;
  }

  /** A table is created exactly when its name is legal and new to the publication and to the database. */
  lemma CreateTableEffect(w: World, s: AppState, rawName: string)
    requires WalksValues(w.env.order) && SteadyPreparation(w.preparation) && PreparedState(w.preparation, s)
    ensures var name, r := NormalizeIdentifier(rawName), Outcome(w, s, CreateTable(rawName, true));
            && (r.Some? <==>
                  && LegalBuilderName(name) && name !in s.db
                       && (forall t :: t in Edited(w, s).tables ==> t.name != name)
                  && w.preparation.prepare(EditOf(w, s, CreateTable(rawName, true))).Some?)
            && (r.Some? ==>
                  && r.value.db == s.db[name := NewTable()]
                  && r.value.published.Some? && Blank(name) in r.value.published.value.tables)
  {
    hide WalksValues, LegalBuilderName, NewTable, Others, SteadyPreparation, PreparedState;
    var name, step := NormalizeIdentifier(rawName), CreateTable(rawName, true);
    if Outcome(w, s, step).Some? {
      BuilderSaves(w, s, step);
      NormalizeIdempotent(rawName);
      var edit := EditOf(w, s, step);
      assert edit.tables[|edit.tables| - 1] == Blank(name);
      SavedTable(w.preparation, edit, |edit.tables| - 1);
      NothingToNormalize(w.preparation.rules);
    }
    hide NormalizeIdentifier;
    if i :| 0 <= i < |Edited(w, s).tables| && Edited(w, s).tables[i].name == name {
      assert Edited(w, s).tables[i] in Edited(w, s).tables;
    }
  }

  lemma NothingToNormalize(rules: ColumnRules)
    ensures NormalizeColumns([], rules) == Some([]) && NormalizeIdentifier("") == ""
  {}

  /** The k-th saved table is the normal form of the k-th edited one. */
  lemma SavedTable(p: Preparation, edit: Definition, k: nat)
    requires SteadyPreparation(p) && p.prepare(edit).Some? && k < |edit.tables|
    ensures var saved := p.prepare(edit).value.tables;
            && |saved| == |edit.tables| && NormalizeColumns(edit.tables[k].columns, p.rules).Some?
            && saved[k] == NormalForm(edit.tables[k], NormalizeColumns(edit.tables[k].columns, p.rules).value)
            && saved[k] in saved
  {
    TablesElementwise(edit.tables, p.rules);
    NormalisesAt(edit.tables, p.prepare(edit).value.tables, p.rules);
    hide NormalizeTables, NormalizeColumns, NormalForm, AllNormaliseTo;
  }

  /** The k-th saved column of a table is the normal form of the k-th edited one. */
  lemma SavedColumn(p: Preparation, edit: Definition, i: nat, k: nat)
    requires SteadyPreparation(p) && p.prepare(edit).Some? && i < |edit.tables| && k < |edit.tables[i].columns|
    requires NormalizeIdentifier(edit.tables[i].name) == edit.tables[i].name
    ensures var saved := p.prepare(edit).value.tables;
            i < |saved| && HoldsColumn(saved, edit.tables[i].name, NormalizeColumn(edit.tables[i].columns[k], p.rules))
  {
    hide SteadyPreparation, NormalizeColumns, NormalizeColumn, NormalizeIdentifier;
    SavedTable(p, edit, i);
    var columns := edit.tables[i].columns;
    ColumnsElementwise(columns, p.rules);
    assert NormalizeColumns(columns, p.rules).value[k] in NormalizeColumns(columns, p.rules).value;
  }

  /** Some table of that name has that column. */
  predicate HoldsColumn(tables: seq<Table>, table: string, c: Column) {
    exists t :: t in tables && t.name == table && c in t.columns
  }

  /** The i-th table of the published definition, found by its name. */
  lemma PublishedTable(w: World, s: AppState, step: Step) returns (i: nat)
    requires WalksValues(w.env.order) && SteadyPreparation(w.preparation) && PreparedState(w.preparation, s)
    requires IsBuilderStep(step) && !step.CreateTable? && Outcome(w, s, step).Some?
    ensures s.published.Some? && i < |s.published.value.tables|
              && s.published.value.tables[i].name == TargetOf(step).table
    ensures TableIndex(Edited(w, s).tables, TargetOf(step).table) == Some(i)
    ensures s.published.value.tables[i] in s.published.value.tables && NormalTables(s.published.value.tables)
    ensures NormalizeIdentifier(TargetOf(step).table) == TargetOf(step).table && TargetOf(step).table in s.db
  {
    hide WalksValues, ColumnIndex, LegalBuilderName, IsSafeIdentifier, AfterBuilderSave, WithAutoNumbers, WithNotNull,
         NormalTables, NormalizeTables;
    TargetIsNormal(step);
    hide NormalizeIdentifier;
    i := TableIndex(Edited(w, s).tables, TargetOf(step).table).value;
    NormalizeTablesResult(s.published.value.tables, w.preparation.rules);
  }

  /**
   * A created column is new to its table and of a storable type, NOT NULL only
   * over an empty table or for an auto-number; it is then in the definition as
   * it was asked for.
   */
  lemma CreateColumnEffect(w: World, s: AppState, rawTable: string, c: Column)
    requires WalksValues(w.env.order) && SteadyPreparation(w.preparation) && PreparedState(w.preparation, s)
    requires Outcome(w, s, CreateColumn(rawTable, c, true)).Some?
    ensures var table, r := NormalizeIdentifier(rawTable), Outcome(w, s, CreateColumn(rawTable, c, true)).value;
            && s.published.Some? && (exists t :: t in s.published.value.tables && t.name == table)
            && (forall t, b :: t in s.published.value.tables && t.name == table && b in t.columns ==>
                b.name != ColumnName(c))
            && LegalBuilderName(ColumnName(c)) && BuilderDataTypeToSQL(c.dataType).Some?
            && table in s.db && (!c.isNullable && !c.dataType.AutoNumber? ==> s.db[table].rows == [])
            && r.published.Some?
            && HoldsColumn(r.published.value.tables, table,
                           c.(name := ColumnName(c), prefix := w.preparation.rules.normalizePrefix(c.prefix)))
  {
    var step := CreateColumn(rawTable, c, true);
    var i := PublishedTable(w, s, step);
    BuilderSaves(w, s, step);
    var edit := EditOf(w, s, step);
    NormalizeIdempotent(c.name);
    CreateColumnNeeds(w, s, rawTable, c, i);
    hide WalksValues, LegalBuilderName, BuilderDataTypeToSQL, NormalizeIdentifier, HoldsColumn, SteadyPreparation,
         PreparedState, Outcome, NormalTable, NormalizeColumn;
    var k := |s.published.value.tables[i].columns|;
    assert edit.tables[i].columns[k] == c.(name := ColumnName(c));
    SavedColumn(w.preparation, edit, i, k);
    NormalizedNew(c, w.preparation.rules);
    forall t | t in s.published.value.tables && t.name == s.published.value.tables[i].name
      ensures t == s.published.value.tables[i]
    {
      var j :| 0 <= j < |s.published.value.tables| && s.published.value.tables[j] == t;
    }
  }

  lemma NormalizedNew(c: Column, rules: ColumnRules)
    ensures NormalizeColumn(c.(name := ColumnName(c)), rules) ==
              c.(name := ColumnName(c), prefix := rules.normalizePrefix(c.prefix))
  {
    NormalizeIdempotent(c.name);
    hide NormalizeIdentifier;
  }

  lemma CreateColumnNeeds(w: World, s: AppState, rawTable: string, c: Column, i: nat)
    requires WalksValues(w.env.order) && Outcome(w, s, CreateColumn(rawTable, c, true)).Some? && s.published.Some?
    requires TableIndex(Edited(w, s).tables, NormalizeIdentifier(rawTable)) == Some(i)
    ensures var table := NormalizeIdentifier(rawTable);
            && i < |s.published.value.tables|
            && (forall b :: b in s.published.value.tables[i].columns ==> b.name != ColumnName(c))
            && LegalBuilderName(ColumnName(c)) && BuilderDataTypeToSQL(c.dataType).Some?
            && table in s.db && (!c.isNullable && !c.dataType.AutoNumber? ==> s.db[table].rows == [])
  {
    hide WalksValues, LegalBuilderName, BuilderDataTypeToSQL, NormalizeIdentifier, IsSafeIdentifier, TableIndex,
         ColumnIndex, AfterBuilderSave, WithAutoNumbers, WithNotNull, AddColumn;
  }

  /** An updated column was there, keeps its type, and has the nullability and prefix that were asked for. */
  lemma UpdateColumnEffect(w: World, s: AppState, rawTable: string, rawName: string, prefix: string, isNullable: bool)
    requires WalksValues(w.env.order) && SteadyPreparation(w.preparation) && PreparedState(w.preparation, s)
    requires Outcome(w, s, UpdateColumn(rawTable, rawName, prefix, isNullable, true)).Some?
    ensures var table, name := NormalizeIdentifier(rawTable), NormalizeIdentifier(rawName);
            var r := Outcome(w, s, UpdateColumn(rawTable, rawName, prefix, isNullable, true)).value;
            && s.published.Some? && r.published.Some?
            && exists c: Column ::
                 && c.name == name && HoldsColumn(s.published.value.tables, table, c)
                 && var kept := c.dataType.AutoNumber? && prefix == "";
                    HoldsColumn(r.published.value.tables, table,
                                c.(isNullable := isNullable,
                                   prefix := w.preparation.rules.normalizePrefix(if kept then c.prefix else prefix)))
  {
    var step := UpdateColumn(rawTable, rawName, prefix, isNullable, true);
    var i := PublishedTable(w, s, step);
    BuilderSaves(w, s, step);
    TargetIsNormal(step);
    var edit := EditOf(w, s, step);
    UpdateColumnNeeds(w, s, rawTable, rawName, prefix, isNullable, i);
    hide WalksValues, NormalizeIdentifier, SteadyPreparation, PreparedState, Outcome, NormalTables, Perform;
    var name := NormalizeIdentifier(rawName);
    var k := ColumnIndex(s.published.value.tables[i].columns, name).value;
    var c := s.published.value.tables[i].columns[k];
    assert c in s.published.value.tables[i].columns
             && HoldsColumn(s.published.value.tables, s.published.value.tables[i].name, c);
    SavedColumn(w.preparation, edit, i, k);
  }

  lemma UpdateColumnNeeds(w: World, s: AppState, rawTable: string, rawName: string, prefix: string, isNullable: bool,
                          i: nat)
    requires WalksValues(w.env.order) && s.published.Some?
    requires Outcome(w, s, UpdateColumn(rawTable, rawName, prefix, isNullable, true)).Some?
    requires TableIndex(Edited(w, s).tables, NormalizeIdentifier(rawTable)) == Some(i)
    ensures i < |s.published.value.tables|
    ensures ColumnIndex(s.published.value.tables[i].columns, NormalizeIdentifier(rawName)).Some?
  {
    hide WalksValues, NormalizeIdentifier, IsSafeIdentifier, TableIndex, ColumnIndex, AfterBuilderSave,
         WithAutoNumbers, WithNotNull, ChangedNullability;
  }

  /**
   * A table is deleted only without rows; it is then gone from the definition and
   * the database, and nothing else is.
   */
  lemma DeleteTableEffect(w: World, s: AppState, rawTable: string)
    requires WalksValues(w.env.order) && SteadyPreparation(w.preparation) && PreparedState(w.preparation, s)
    requires Outcome(w, s, DeleteTable(rawTable, true)).Some?
    ensures var table, r := NormalizeIdentifier(rawTable), Outcome(w, s, DeleteTable(rawTable, true)).value;
            && s.published.Some? && (exists t :: t in s.published.value.tables && t.name == table)
            && table in s.db && s.db[table].rows == [] && r.db == s.db - {table}
            && r.published.Some? && forall t :: t in r.published.value.tables ==> t.name != table
  {
    var step := DeleteTable(rawTable, true);
    BuilderKind(step);
    DeleteTableTarget(rawTable);
    hide *;
    var i := PublishedTable(w, s, step);
    BuilderSaves(w, s, step);
    DeleteTableNeeds(w, s, rawTable, i);
    var saved := Outcome(w, s, step).value.published.value.tables;
    forall t | t in saved ensures t.name != TargetOf(step).table {
      var k :| 0 <= k < |saved| && saved[k] == t;
      OtherName(w, s, EditOf(w, s, step), i, k);
    }
  }

  lemma DeleteTableTarget(rawTable: string)
    ensures TargetOf(DeleteTable(rawTable, true)).table == NormalizeIdentifier(rawTable)
  {}

  lemma DeleteTableNeeds(w: World, s: AppState, rawTable: string, i: nat)
    requires WalksValues(w.env.order) && s.published.Some? && Outcome(w, s, DeleteTable(rawTable, true)).Some?
    requires TableIndex(Edited(w, s).tables, NormalizeIdentifier(rawTable)) == Some(i)
    ensures var table, r := NormalizeIdentifier(rawTable), Outcome(w, s, DeleteTable(rawTable, true)).value;
            && i < |s.published.value.tables| && table in s.db && s.db[table].rows == [] && r.db == s.db - {table}
            && EditOf(w, s, DeleteTable(rawTable, true)).tables ==
                 s.published.value.tables[..i] + s.published.value.tables[i + 1..]
  {
    hide WalksValues, NormalizeIdentifier, IsSafeIdentifier, TableIndex;
  }

  lemma OtherName(w: World, s: AppState, edit: Definition, i: nat, k: nat)
    requires SteadyPreparation(w.preparation) && PreparedState(w.preparation, s) && s.published.Some?
    requires w.preparation.prepare(edit).Some? && k < |w.preparation.prepare(edit).value.tables|
    requires var tables := s.published.value.tables;
             i < |tables| && NormalTables(tables) && edit.tables == tables[..i] + tables[i + 1..]
    ensures w.preparation.prepare(edit).value.tables[k].name != s.published.value.tables[i].name
  {
    hide *;
    var tables, rules := s.published.value.tables, w.preparation.rules;
    SavedLength(w.preparation, edit);
    SavedTable(w.preparation, edit, k);
    NormalFormParts(edit.tables[k], NormalizeColumns(edit.tables[k].columns, rules).value);
    var m := if k < i then k else k + 1;
    assert edit.tables[k] == tables[m];
    NormalAt(tables, i, m);
  }

  /** A column is deleted only from a table without rows, and is then in no table of that name. */
  lemma DeleteColumnEffect(w: World, s: AppState, rawTable: string, rawName: string)
    requires WalksValues(w.env.order) && SteadyPreparation(w.preparation) && PreparedState(w.preparation, s)
    requires Outcome(w, s, DeleteColumn(rawTable, rawName, true)).Some?
    ensures var table, name := NormalizeIdentifier(rawTable), NormalizeIdentifier(rawName);
            var r := Outcome(w, s, DeleteColumn(rawTable, rawName, true)).value;
            && s.published.Some? && table in s.db && s.db[table].rows == []
            && (exists c: Column :: c.name == name && HoldsColumn(s.published.value.tables, table, c))
            && r.published.Some?
            && forall c: Column :: c.name == name ==> !HoldsColumn(r.published.value.tables, table, c)
  {
    var step := DeleteColumn(rawTable, rawName, true);
    BuilderKind(step);
    DeleteColumnTarget(rawTable, rawName);
    hide *;
    var i := PublishedTable(w, s, step);
    BuilderSaves(w, s, step);
    var j := DeleteColumnNeeds(w, s, rawTable, rawName, i);
    var tables := s.published.value.tables;
    var edit, saved := EditOf(w, s, step), Outcome(w, s, step).value.published.value.tables;
    HoldsAt(tables, i, j);
    forall c: Column | c.name == NormalizeIdentifier(rawName) ensures !HoldsColumn(saved, tables[i].name, c) {
      if HoldsColumn(saved, tables[i].name, c) {
        var k := HoldsWhere(saved, tables[i].name, c);
        ColumnIsGone(w, s, edit, i, j, k, c);
      }
    }
  }

  lemma DeleteColumnTarget(rawTable: string, rawName: string)
    ensures TargetOf(DeleteColumn(rawTable, rawName, true)).table == NormalizeIdentifier(rawTable)
  {}

  lemma HoldsAt(tables: seq<Table>, i: nat, j: nat)
    requires i < |tables| && j < |tables[i].columns|
    ensures HoldsColumn(tables, tables[i].name, tables[i].columns[j])
  {
    assert tables[i] in tables;
  }

  lemma HoldsWhere(tables: seq<Table>, table: string, c: Column) returns (k: nat)
    requires HoldsColumn(tables, table, c)
    ensures k < |tables| && tables[k].name == table && c in tables[k].columns
  {
    var t :| t in tables && t.name == table && c in t.columns;
    k :| 0 <= k < |tables| && tables[k] == t;
  }

  lemma DeleteColumnNeeds(w: World, s: AppState, rawTable: string, rawName: string, i: nat) returns (j: nat)
    requires WalksValues(w.env.order) && s.published.Some?
    requires Outcome(w, s, DeleteColumn(rawTable, rawName, true)).Some?
    requires TableIndex(Edited(w, s).tables, NormalizeIdentifier(rawTable)) == Some(i)
    ensures i < |s.published.value.tables| && j < |s.published.value.tables[i].columns|
    ensures s.published.value.tables[i].columns[j].name == NormalizeIdentifier(rawName)
    ensures NormalizeIdentifier(rawTable) in s.db && s.db[NormalizeIdentifier(rawTable)].rows == []
    ensures var tables := s.published.value.tables;
            EditOf(w, s, DeleteColumn(rawTable, rawName, true)).tables ==
              tables[i := tables[i].(columns := tables[i].columns[..j] + tables[i].columns[j + 1..])]
  {
    hide WalksValues, NormalizeIdentifier, IsSafeIdentifier, TableIndex, ColumnIndex, AfterBuilderSave,
         WithAutoNumbers, DropColumn;
    j := ColumnIndex(s.published.value.tables[i].columns, NormalizeIdentifier(rawName)).value;
  }

  /** No column of the edited table but the removed one has its name. */
  lemma ColumnIsGone(w: World, s: AppState, edit: Definition, i: nat, j: nat, k: nat, c: Column)
    requires SteadyPreparation(w.preparation) && w.preparation.prepare(edit).Some? && s.published.Some?
    requires var tables := s.published.value.tables;
             && i < |tables| && j < |tables[i].columns| && NormalTables(tables)
             && edit.tables == tables[i := tables[i].(columns := tables[i].columns[..j] + tables[i].columns[j + 1..])]
             && k < |w.preparation.prepare(edit).value.tables|
             && w.preparation.prepare(edit).value.tables[k].name == tables[i].name
             && c in w.preparation.prepare(edit).value.tables[k].columns
    ensures c.name != s.published.value.tables[i].columns[j].name
  {
    hide *;
    var tables, rules := s.published.value.tables, w.preparation.rules;
    SavedLength(w.preparation, edit);
    SavedTable(w.preparation, edit, k);
    NormalFormParts(edit.tables[k], NormalizeColumns(edit.tables[k].columns, rules).value);
    NormalAt(tables, i, k);
    var columns := edit.tables[i].columns;
    ColumnsElementwise(columns, rules);
    var m :| 0 <= m < |columns| && NormalizeColumns(columns, rules).value[m] == c;
    var n := if m < j then m else m + 1;
    assert columns[m] == tables[i].columns[n];
    NormalColumnAt(tables[i].columns, j, n, rules);
  }

  lemma SavedLength(p: Preparation, edit: Definition)
    requires SteadyPreparation(p) && p.prepare(edit).Some?
    ensures |p.prepare(edit).value.tables| == |edit.tables|
  {
    TablesElementwise(edit.tables, p.rules);
    hide NormalizeTables;
  }

  lemma NormalAt(tables: seq<Table>, i: nat, k: nat)
    requires NormalTables(tables) && i < |tables| && k < |tables|
    ensures NormalizeIdentifier(tables[k].name) == tables[k].name && NormalColumns(tables[i].columns)
    ensures k != i ==> tables[k].name != tables[i].name
  {
    hide NormalizeIdentifier, NormalColumns, IsSafeIdentifier;
    assert NormalTable(tables[k]) && NormalTable(tables[i]);
  }

  lemma NormalColumnAt(columns: seq<Column>, j: nat, n: nat, rules: ColumnRules)
    requires NormalColumns(columns) && j < |columns| && n < |columns| && j != n
    ensures NormalizeColumn(columns[n], rules).name == columns[n].name != columns[j].name
  {
    hide NormalizeIdentifier, IsSafeIdentifier;
  }

  // ---- Builder operations: the data ----

  /** Numbering and a deferred NOT NULL keep every other table, and every cell but those of auto-numbers. */
  lemma NumberingKeeps(w: World, s: AppState, name: string, i: nat, x: string)
    requires WalksValues(w.env.order) && WithAutoNumbers(w, s, name, i).Some?
    ensures var r := WithAutoNumbers(w, s, name, i).value;
            && s.published.Some? && i < |s.published.value.tables| && r.published == s.published
            && DraftColumns(w, s.published.value, s.published.value.tables[i]).Ok?
            && name in s.db && name in r.db && r.db == s.db[name := r.db[name]]
                 && |r.db[name].rows| == |s.db[name].rows|
            && (!IsAutoNumberOf(DraftColumns(w, s.published.value, s.published.value.tables[i]).value, x) ==>
                  SameCells(s.db[name].rows, r.db[name].rows, x))
  {
    var columns := DraftColumns(w, s.published.value, s.published.value.tables[i]);
    AutoNumbersKeepOthers(w.env.numbering, s.db[name], columns.value);
    hide WalksValues, DraftColumns, ApplyAutoNumbers, IsAutoNumberOf, SameCells;
  }

  /** Some table of that name, in the published definition, numbers the column with what it inherits. */
  predicate NumbersColumn(w: World, r: AppState, table: string, x: string)
    requires WalksValues(w.env.order) && r.published.Some?
  {
    exists t :: t in r.published.value.tables && t.name == table
      && DraftColumns(w, r.published.value, t).Ok? && IsAutoNumberOf(DraftColumns(w, r.published.value, t).value, x)
  }

  /** The way of a column operation: change the physical table, save, number again, and set a deferred NOT NULL. */
  ghost predicate ColumnPath(w: World, s: AppState, step: Step, i: nat, changed: PhysicalTable, saved: AppState)
    requires WalksValues(w.env.order) && IsBuilderStep(step)
  {
    var table, r := TargetOf(step).table, Outcome(w, s, step);
    && table in s.db && saved.db == s.db[table := changed]
    && WithAutoNumbers(w, saved, table, i).Some?
    && (r == WithAutoNumbers(w, saved, table, i)
        || exists column :: r == WithNotNull(WithAutoNumbers(w, saved, table, i).value, table, column))
  }

  lemma ColumnStepPath(w: World, s: AppState, step: Step, i: nat) returns (changed: PhysicalTable, saved: AppState)
    requires WalksValues(w.env.order) && (step.CreateColumn? || step.UpdateColumn? || step.DeleteColumn?)
    requires s.published.Some? && TableIndex(s.published.value.tables, TargetOf(step).table) == Some(i)
    requires Outcome(w, s, step).Some?
    ensures ColumnPath(w, s, step, i, changed, saved)
    ensures |changed.rows| == |s.db[TargetOf(step).table].rows|
    ensures forall x :: TargetOf(step).column != Some(x) ==> SameCells(s.db[TargetOf(step).table].rows, changed.rows, x)
  {
    hide WalksValues, NormalizeIdentifier, Outcome, ColumnPath, SameCells, TableIndex;
    match step
    case CreateColumn(rawTable, c, ok) => changed, saved := CreatePath(w, s, rawTable, c, ok, i);
    case UpdateColumn(rawTable, name, prefix, isNullable, ok) =>
      changed, saved := UpdatePath(w, s, rawTable, name, prefix, isNullable, ok, i);
    case DeleteColumn(rawTable, name, ok) => changed, saved := DeletePath(w, s, rawTable, name, ok, i);
  }

  lemma CreatePath(w: World, s: AppState, rawTable: string, c: Column, ok: bool, i: nat)
      returns (changed: PhysicalTable, saved: AppState)
    requires WalksValues(w.env.order) && s.published.Some? && Outcome(w, s, CreateColumn(rawTable, c, ok)).Some?
    requires TableIndex(s.published.value.tables, NormalizeIdentifier(rawTable)) == Some(i)
    ensures ColumnPath(w, s, CreateColumn(rawTable, c, ok), i, changed, saved)
    ensures |changed.rows| == |s.db[NormalizeIdentifier(rawTable)].rows|
    ensures forall x :: SameCells(s.db[NormalizeIdentifier(rawTable)].rows, changed.rows, x)
  {
    hide WalksValues, NormalizeIdentifier, IsSafeIdentifier, LegalBuilderName, TableIndex, ColumnIndex, WithAutoNumbers,
         WithNotNull, AfterBuilderSave, BuilderDataTypeToSQL, SameCells, WithColumns, AddColumn;
    var table, isAuto := NormalizeIdentifier(rawTable), c.dataType.AutoNumber?;
    var column := PhysicalColumn(BuilderDataTypeToSQL(c.dataType).value, c.isNullable || isAuto);
    changed := AddColumn(s.db[table], ColumnName(c), column).value;
    AddingKeepsRows(s.db[table], ColumnName(c), column);
    var columns := s.published.value.tables[i].columns + [c.(name := ColumnName(c))];
    saved := AfterBuilderSave(w, s, WithColumns(s.published.value, i, columns), s.db[table := changed]).value;
    SavedDatabase(w, s, WithColumns(s.published.value, i, columns), s.db[table := changed]);
  }

  lemma UpdatePath(w: World, s: AppState, rawTable: string, rawName: string, prefix: string, isNullable: bool, ok: bool,
                   i: nat) returns (changed: PhysicalTable, saved: AppState)
    requires WalksValues(w.env.order) && s.published.Some?
    requires Outcome(w, s, UpdateColumn(rawTable, rawName, prefix, isNullable, ok)).Some?
    requires TableIndex(s.published.value.tables, NormalizeIdentifier(rawTable)) == Some(i)
    ensures ColumnPath(w, s, UpdateColumn(rawTable, rawName, prefix, isNullable, ok), i, changed, saved)
    ensures |changed.rows| == |s.db[NormalizeIdentifier(rawTable)].rows|
    ensures forall x :: SameCells(s.db[NormalizeIdentifier(rawTable)].rows, changed.rows, x)
  {
    hide WalksValues, NormalizeIdentifier, IsSafeIdentifier, TableIndex, ColumnIndex, WithAutoNumbers, WithNotNull,
         AfterBuilderSave, SameCells, WithColumns, ChangedNullability;
    var table, columns := NormalizeIdentifier(rawTable), s.published.value.tables[i].columns;
    var j := ColumnIndex(columns, NormalizeIdentifier(rawName)).value;
    var current := columns[j];
    changed := ChangedNullability(s.db[table], NormalizeIdentifier(rawName), current, isNullable).value;
    ChangingKeepsRows(s.db[table], NormalizeIdentifier(rawName), current, isNullable);
    var newPrefix := if current.dataType.AutoNumber? && prefix == "" then current.prefix else prefix;
    var edited := WithColumns(s.published.value, i,
                              columns[j := current.(isNullable := isNullable, prefix := newPrefix)]);
    saved := AfterBuilderSave(w, s, edited, s.db[table := changed]).value;
    SavedDatabase(w, s, edited, s.db[table := changed]);
  }

  lemma DeletePath(w: World, s: AppState, rawTable: string, rawName: string, ok: bool, i: nat)
      returns (changed: PhysicalTable, saved: AppState)
    requires WalksValues(w.env.order) && s.published.Some? && Outcome(w, s, DeleteColumn(rawTable, rawName, ok)).Some?
    requires TableIndex(s.published.value.tables, NormalizeIdentifier(rawTable)) == Some(i)
    ensures ColumnPath(w, s, DeleteColumn(rawTable, rawName, ok), i, changed, saved)
    ensures |changed.rows| == |s.db[NormalizeIdentifier(rawTable)].rows|
    ensures forall x :: x != NormalizeIdentifier(rawName) ==>
                          SameCells(s.db[NormalizeIdentifier(rawTable)].rows, changed.rows, x)
  {
    hide WalksValues, NormalizeIdentifier, IsSafeIdentifier, TableIndex, ColumnIndex, WithAutoNumbers,
         AfterBuilderSave, SameCells, WithColumns, DropColumn;
    var table, columns := NormalizeIdentifier(rawTable), s.published.value.tables[i].columns;
    var j := ColumnIndex(columns, NormalizeIdentifier(rawName)).value;
    changed := DropColumn(s.db[table], NormalizeIdentifier(rawName));
    DroppingKeepsRows(s.db[table], NormalizeIdentifier(rawName));
    var edited := WithColumns(s.published.value, i, columns[..j] + columns[j + 1..]);
    saved := AfterBuilderSave(w, s, edited, s.db[table := changed]).value;
    SavedDatabase(w, s, edited, s.db[table := changed]);
  }

  lemma SavedDatabase(w: World, s: AppState, edited: Definition, db: Database)
    requires AfterBuilderSave(w, s, edited, db).Some?
    ensures AfterBuilderSave(w, s, edited, db).value.db == db
  {}

  lemma AddingKeepsRows(t: PhysicalTable, name: string, c: PhysicalColumn)
    requires AddColumn(t, name, c).Ok?
    ensures var r := AddColumn(t, name, c).value; |r.rows| == |t.rows| && forall x :: SameCells(t.rows, r.rows, x)
  {}

  lemma ChangingKeepsRows(t: PhysicalTable, name: string, current: Column, isNullable: bool)
    requires ChangedNullability(t, name, current, isNullable).Ok?
    ensures var r := ChangedNullability(t, name, current, isNullable).value;
            |r.rows| == |t.rows| && forall x :: SameCells(t.rows, r.rows, x)
  {}

  lemma DroppingKeepsRows(t: PhysicalTable, name: string)
    ensures var r := DropColumn(t, name); |r.rows| == |t.rows| && forall x :: x != name ==> SameCells(t.rows, r.rows, x)
  {}

  lemma NotNullKeepsRows(s: AppState, table: string, column: string)
    requires WithNotNull(s, table, column).Some?
    ensures var r := WithNotNull(s, table, column).value;
            && table in s.db && table in r.db && r.db == s.db[table := r.db[table]] && r.published == s.published
            && r.db[table].rows == s.db[table].rows
  {}

  /**
   * A builder operation on a column keeps all other tables and, row by row,
   * every value beside that column and the auto-numbers.
   */
  lemma ColumnStepKeepsData(w: World, s: AppState, step: Step, x: string)
    requires WalksValues(w.env.order) && SteadyPreparation(w.preparation) && PreparedState(w.preparation, s)
    requires (step.CreateColumn? || step.UpdateColumn? || step.DeleteColumn?) && Outcome(w, s, step).Some?
    ensures var table, r := TargetOf(step).table, Outcome(w, s, step).value;
            && table in s.db && table in r.db && r.db == s.db[table := r.db[table]] && r.published.Some?
            && |r.db[table].rows| == |s.db[table].rows|
            && (TargetOf(step).column != Some(x) && !NumbersColumn(w, r, table, x) ==>
                  SameCells(s.db[table].rows, r.db[table].rows, x))
  {
    BuilderKind(step);
    hide *;
    var table, r := TargetOf(step).table, Outcome(w, s, step).value;
    var i := PublishedTable(w, s, step);
    EditedIsPublished(w, s);
    BuilderSaves(w, s, step);
    EditedName(w, s, step, i);
    var changed, saved := ColumnStepPath(w, s, step, i);
    PathKeeps(w, s, step, i, changed, saved, x);
    if TargetOf(step).column != Some(x) && !NumbersColumn(w, r, table, x) {
      NumbersAt(w, r, table, i, x);
      SameCellsTransitive(s.db[table].rows, changed.rows, r.db[table].rows, x);
    }
  }

  lemma BuilderKind(step: Step)
    requires step.CreateColumn? || step.UpdateColumn? || step.DeleteColumn? || step.DeleteTable? || step.CreateTable?
    ensures IsBuilderStep(step)
  {}

  lemma EditedIsPublished(w: World, s: AppState)
    ensures s.published.Some? ==> Edited(w, s) == s.published.value
  {}

  lemma NumbersAt(w: World, r: AppState, table: string, i: nat, x: string)
    requires WalksValues(w.env.order) && r.published.Some? && i < |r.published.value.tables|
    requires r.published.value.tables[i].name == table
    requires DraftColumns(w, r.published.value, r.published.value.tables[i]).Ok?
    ensures IsAutoNumberOf(DraftColumns(w, r.published.value, r.published.value.tables[i]).value, x) ==>
              NumbersColumn(w, r, table, x)
  {
    hide WalksValues, DraftColumns, IsAutoNumberOf;
    assert r.published.value.tables[i] in r.published.value.tables;
  }

  lemma PathKeeps(w: World, s: AppState, step: Step, i: nat, changed: PhysicalTable, saved: AppState, x: string)
    requires WalksValues(w.env.order) && IsBuilderStep(step) && ColumnPath(w, s, step, i, changed, saved)
    requires Outcome(w, s, step).Some?
    ensures var table, r := TargetOf(step).table, Outcome(w, s, step).value;
            && table in s.db && table in r.db && r.db == s.db[table := r.db[table]]
            && |r.db[table].rows| == |changed.rows|
            && r.published.Some? && i < |r.published.value.tables|
            && DraftColumns(w, r.published.value, r.published.value.tables[i]).Ok?
            && (!IsAutoNumberOf(DraftColumns(w, r.published.value, r.published.value.tables[i]).value, x) ==>
                  SameCells(changed.rows, r.db[table].rows, x))
  {
    hide WalksValues, WithAutoNumbers, WithNotNull, SameCells, Outcome, DraftColumns, IsAutoNumberOf, TargetOf;
    var table, r := TargetOf(step).table, Outcome(w, s, step);
    NumberingKeeps(w, saved, table, i, x);
    var numbered := WithAutoNumbers(w, saved, table, i).value;
    if r != Some(numbered) {
      var column :| r == WithNotNull(numbered, table, column);
      NotNullKeepsRows(numbered, table, column);
      SameRows(changed.rows, numbered.db[table].rows, r.value.db[table].rows, x);
    }
  }

  lemma SameRows(a: seq<Row>, b: seq<Row>, c: seq<Row>, x: string)
    requires b == c
    ensures SameCells(a, b, x) ==> SameCells(a, c, x)
  {}

  lemma EditedName(w: World, s: AppState, step: Step, i: nat)
    requires WalksValues(w.env.order) && SteadyPreparation(w.preparation) && PreparedState(w.preparation, s)
    requires (step.CreateColumn? || step.UpdateColumn? || step.DeleteColumn?) && Outcome(w, s, step).Some?
    requires TableIndex(Edited(w, s).tables, TargetOf(step).table) == Some(i)
    ensures var r := Outcome(w, s, step).value;
            r.published.Some? && i < |r.published.value.tables|
                && r.published.value.tables[i].name == TargetOf(step).table
  {
    BuilderSaves(w, s, step);
    TargetIsNormal(step);
    var edit := EditOf(w, s, step);
    hide WalksValues, NormalizeIdentifier, TableIndex, ColumnIndex, Outcome, NormalizeColumns, SteadyPreparation,
         PreparedState;
    SavedTable(w.preparation, edit, i);
  }
}
