/** When a publication succeeds: what a definition asks of the tables it meets (internal/db/AppPublish.go). */
module PublicationSuccess {
  import opened Common
  import opened Text
  import opened AppModel
  import opened TableInheritance
  import opened DefinitionValidation
  import opened DefinitionNormalization
  import opened PhysicalSchema
  import opened TableReconciliation
  import opened SchemaPublication
  import opened PublicationTransaction
  import opened PublicationSafety

  // ---- One column and the table it meets ----

  /** The column has an SQL type, a safe name and, being an auto-number, a legal prefix. */
  predicate Declarable(a: AutoNumbering, c: Column) {
    && !c.dataType.Unsupported?
    && IsSafeIdentifier(ColumnName(c))
    && (c.dataType.AutoNumber? ==> a.validPrefix(c.prefix))
  }

  /** The type on disk is that of the definition, whatever the length of a varchar. */
  predicate StoresType(sqlType: SqlType, d: DataType) {
    BuilderDataTypeToSQL(d) == Some(sqlType) || (d.VarChar? && sqlType.VARCHAR?)
  }

  /** A column the table does not have: its rows need a null or a number. */
  predicate Addable(t: PhysicalTable, c: Column) { c.isNullable || c.dataType.AutoNumber? || t.rows == [] }

  /** A column the table has: at its type, not a nullable key, and without the nulls that NOT NULL would forbid. */
  predicate Alterable(t: PhysicalTable, c: Column)
    requires ColumnName(c) in t.columns
  {
    var name, column := ColumnName(c), t.columns[ColumnName(c)];
    && StoresType(column.sqlType, c.dataType)
    && (c.isNullable && !column.isNullable ==> name != "_id")
    && (!c.isNullable && column.isNullable && !c.dataType.AutoNumber? ==> forall row :: row in t.rows ==> name in row)
  }

  predicate Admits(a: AutoNumbering, t: PhysicalTable, c: Column) {
    Declarable(a, c) && if ColumnName(c) in t.columns then Alterable(t, c) else Addable(t, c)
  }

  // ---- The three passes ----

  predicate FitsType(t: PhysicalTable, c: Column) {
    && !c.dataType.Unsupported?
    && IsSafeIdentifier(ColumnName(c))
    && if ColumnName(c) in t.columns then StoresType(t.columns[ColumnName(c)].sqlType, c.dataType) else Addable(t, c)
  }

  lemma EnsureColumnOkIff(t: PhysicalTable, b: PhysicalTable, c: Column)
    requires b.rows == t.rows && (ColumnName(c) !in t.columns ==> ColumnName(c) !in b.columns)
    ensures EnsureColumn(b, t.columns, c).Ok? <==> FitsType(t, c)
    ensures EnsureColumn(b, t.columns, c).Ok? && ColumnName(c) !in t.columns ==>
              var r := EnsureColumn(b, t.columns, c).value;
              && ColumnName(c) in r.columns
              && r.columns[ColumnName(c)].isNullable == (c.isNullable || c.dataType.AutoNumber?)
    ensures EnsureColumn(b, t.columns, c).Ok? ==>
              var r := EnsureColumn(b, t.columns, c).value;
              forall x :: x in b.columns && x != ColumnName(c) ==> x in r.columns && r.columns[x] == b.columns[x]
  {
    hide IsSafeIdentifier, ColumnName;
  }

  /** A column that was added is nullable when the definition says so, and while it still has to be numbered. */
  ghost predicate AddedAsDefined(t: PhysicalTable, r: PhysicalTable, columns: seq<Column>) {
    forall c :: c in columns && ColumnName(c) !in t.columns ==>
      ColumnName(c) in r.columns
      && r.columns[ColumnName(c)].isNullable == (c.isNullable || c.dataType.AutoNumber?)
  }

  lemma {:induction false} EnsureColumnsOkIff(t: PhysicalTable, columns: seq<Column>)
    requires DistinctNames(columns)
    ensures EnsureColumns(t, t.columns, columns).Ok? <==> forall c :: c in columns ==> FitsType(t, c)
    ensures EnsureColumns(t, t.columns, columns).Ok? ==>
              AddedAsDefined(t, EnsureColumns(t, t.columns, columns).value, columns)
  {
    hide ColumnName, FitsType, EnsureColumn, DistinctNames, HasName, TypesAsDefined, TableValid;
    if columns != [] {
      var front, c := columns[..|columns| - 1], columns[|columns| - 1];
      assert columns == front + [c];
      DistinctWithout(front, c);
      EnsureColumnsOkIff(t, front);
      if EnsureColumns(t, t.columns, front).Ok? {
        var b := EnsureColumns(t, t.columns, front).value;
        EnsureColumnsResult(t, front);
        NewNameIsNew(front, c);
        EnsureColumnOkIff(t, b, c);
        forall d | d in front ensures ColumnName(d) != ColumnName(c) { NamedInFront(front, d); }
      }
    }
  }

  lemma NamedInFront(columns: seq<Column>, c: Column)
    requires c in columns
    ensures HasName(columns, ColumnName(c))
  {
    hide ColumnName;
    var i :| 0 <= i < |columns| && columns[i] == c;
  }

  lemma {:induction false} ApplyAutoNumbersOkIff(a: AutoNumbering, t: PhysicalTable, columns: seq<Column>)
    requires forall c :: c in columns ==> ColumnName(c) in t.columns
    ensures ApplyAutoNumbers(a, t, columns).Ok? <==>
              forall c :: c in columns && c.dataType.AutoNumber? ==> a.validPrefix(c.prefix)
  {
    hide ColumnName, IsAutoNumberOf, SameCells, NumberRows;
    if columns != [] {
      var front, c := columns[..|columns| - 1], columns[|columns| - 1];
      assert columns == front + [c];
      ApplyAutoNumbersOkIff(a, t, front);
      AutoNumbersKeepOthers(a, t, front);
    }
  }

  predicate FitsNulls(t: PhysicalTable, c: Column)
    requires ColumnName(c) in t.columns
  {
    var name, column := ColumnName(c), t.columns[ColumnName(c)];
    && (c.isNullable && !column.isNullable ==> name != "_id")
    && (!c.isNullable && column.isNullable ==> forall row :: row in t.rows ==> name in row)
  }

  lemma SetNullabilityOkIff(t: PhysicalTable, b: PhysicalTable, c: Column)
    requires ColumnName(c) in t.columns && ColumnName(c) in b.columns && b.rows == t.rows
    requires IsSafeIdentifier(ColumnName(c))
    ensures SetNullability(b, t.columns, c).Ok? <==> FitsNulls(t, c)
  {
    NullCountZeroIff(b.rows, ColumnName(c));
    hide IsSafeIdentifier, ColumnName, NullCount;
  }

  lemma {:induction false} SetNullabilitiesOkIff(t: PhysicalTable, columns: seq<Column>)
    requires DistinctNames(columns)
    requires forall c :: c in columns ==> ColumnName(c) in t.columns && IsSafeIdentifier(ColumnName(c))
    ensures SetNullabilities(t, t.columns, columns).Ok? <==> forall c :: c in columns ==> FitsNulls(t, c)
  {
    hide ColumnName, IsSafeIdentifier, FitsNulls, SetNullability, DistinctNames, TableValid;
    if columns != [] {
      var front, c := columns[..|columns| - 1], columns[|columns| - 1];
      assert columns == front + [c];
      DistinctWithout(front, c);
      SetNullabilitiesOkIff(t, front);
      if SetNullabilities(t, t.columns, front).Ok? {
        SetNullabilitiesResult(t, front);
        SetNullabilityOkIff(t, SetNullabilities(t, t.columns, front).value, c);
      }
    }
  }

  // ---- One table ----

  /** Ensuring a table succeeds exactly when the table admits every column. */
  lemma EnsureTableSucceedsIff(a: AutoNumbering, t: PhysicalTable, columns: seq<Column>)
    requires DistinctNames(columns)
    ensures EnsureTable(a, t, columns).Ok? <==> forall c :: c in columns ==> Admits(a, t, c)
  {
    hide *;
    EnsureColumnsOkIff(t, columns);
    AdmitsParts(a, t, columns);
    if forall c :: c in columns ==> FitsType(t, c) {
      EnsureColumnsResult(t, columns);
      var added := EnsureColumns(t, t.columns, columns).value;
      ColumnsAreThere(added, columns);
      ApplyAutoNumbersOkIff(a, added, columns);
      if forall c :: c in columns && c.dataType.AutoNumber? ==> a.validPrefix(c.prefix) {
        AutoNumbersKeepOthers(a, added, columns);
        var numbered := ApplyAutoNumbers(a, added, columns).value;
        SetNullabilitiesOkIff(numbered, columns);
        EnsureTableRuns(a, t, columns);
        forall c | c in columns ensures FitsNulls(numbered, c) <==> Admits(a, t, c) {
          NullsOnceNumbered(a, t, columns, c);
        }
      } else {
        EnsureTableStops(a, t, columns);
      }
    } else {
      EnsureTableStops(a, t, columns);
    }
  }

  lemma AdmitsParts(a: AutoNumbering, t: PhysicalTable, columns: seq<Column>)
    ensures forall c :: Admits(a, t, c) ==> FitsType(t, c) && (c.dataType.AutoNumber? ==> a.validPrefix(c.prefix))
  {
    hide ColumnName, IsSafeIdentifier, StoresType;
  }

  lemma ColumnsAreThere(t: PhysicalTable, columns: seq<Column>)
    requires TypesAsDefined(t, columns)
    ensures forall c :: c in columns ==> ColumnName(c) in t.columns && IsSafeIdentifier(ColumnName(c))
  {
    hide ColumnName, IsSafeIdentifier;
    forall c | c in columns ensures ColumnName(c) in t.columns && IsSafeIdentifier(ColumnName(c)) {
      var i :| 0 <= i < |columns| && columns[i] == c;
      assert TypeAsDefined(t, columns[i]);
    }
  }

  lemma EnsureTableRuns(a: AutoNumbering, t: PhysicalTable, columns: seq<Column>)
    requires EnsureColumns(t, t.columns, columns).Ok?
    requires ApplyAutoNumbers(a, EnsureColumns(t, t.columns, columns).value, columns).Ok?
    ensures var numbered := ApplyAutoNumbers(a, EnsureColumns(t, t.columns, columns).value, columns).value;
            EnsureTable(a, t, columns) == SetNullabilities(numbered, numbered.columns, columns)
  {
    hide EnsureColumns, ApplyAutoNumbers, SetNullabilities;
  }

  lemma EnsureTableStops(a: AutoNumbering, t: PhysicalTable, columns: seq<Column>)
    requires EnsureColumns(t, t.columns, columns).Ok? ==>
               ApplyAutoNumbers(a, EnsureColumns(t, t.columns, columns).value, columns).Err?
    ensures EnsureTable(a, t, columns).Err?
  {
    hide EnsureColumns, ApplyAutoNumbers, SetNullabilities;
  }

  /** Once its auto-numbers are filled in, the table takes the nullability of a column exactly when it admits it. */
  lemma NullsOnceNumbered(a: AutoNumbering, t: PhysicalTable, columns: seq<Column>, c: Column)
    requires DistinctNames(columns) && c in columns && FitsType(t, c)
    requires c.dataType.AutoNumber? ==> a.validPrefix(c.prefix)
    requires EnsureColumns(t, t.columns, columns).Ok?
    requires AddedAsDefined(t, EnsureColumns(t, t.columns, columns).value, columns)
    requires ApplyAutoNumbers(a, EnsureColumns(t, t.columns, columns).value, columns).Ok?
    ensures var numbered := ApplyAutoNumbers(a, EnsureColumns(t, t.columns, columns).value, columns).value;
            ColumnName(c) in numbered.columns && (FitsNulls(numbered, c) <==> Admits(a, t, c))
  {
    hide *;
    var added := EnsureColumns(t, t.columns, columns).value;
    EnsureColumnsResult(t, columns);
    ColumnsAreThere(added, columns);
    AutoNumbersKeepOthers(a, added, columns);
    var numbered := ApplyAutoNumbers(a, added, columns).value;
    AutoNumberIff(columns, c);
    if c.dataType.AutoNumber? {
      AutoNumbersFill(a, added, columns, ColumnName(c));
    } else {
      CellsThere(t.rows, numbered.rows, ColumnName(c));
    }
    AddedColumn(t, added, columns, c);
    FitsAfter(a, t, numbered, c);
  }

  lemma AddedColumn(t: PhysicalTable, r: PhysicalTable, columns: seq<Column>, c: Column)
    requires AddedAsDefined(t, r, columns) && c in columns
    ensures ColumnName(c) !in t.columns ==>
              ColumnName(c) in r.columns
              && r.columns[ColumnName(c)].isNullable == (c.isNullable || c.dataType.AutoNumber?)
  {
    hide ColumnName;
  }

  lemma AutoNumberIff(columns: seq<Column>, c: Column)
    requires DistinctNames(columns) && c in columns
    ensures IsAutoNumberOf(columns, ColumnName(c)) <==> c.dataType.AutoNumber?
  {
    hide ColumnName;
    var i :| 0 <= i < |columns| && columns[i] == c;
  }

  lemma CellsThere(before: seq<Row>, after: seq<Row>, name: string)
    requires SameCells(before, after, name)
    ensures (forall row :: row in before ==> name in row) <==> (forall row :: row in after ==> name in row)
  {
    if forall row :: row in before ==> name in row {
      forall row | row in after ensures name in row {
        var i :| 0 <= i < |after| && after[i] == row;
        assert before[i] in before;
      }
    }
    if forall row :: row in after ==> name in row {
      forall row | row in before ensures name in row {
        var i :| 0 <= i < |before| && before[i] == row;
        assert after[i] in after;
      }
    }
  }

  lemma FitsAfter(a: AutoNumbering, t: PhysicalTable, r: PhysicalTable, c: Column)
    requires FitsType(t, c) && (c.dataType.AutoNumber? ==> a.validPrefix(c.prefix)) && ColumnName(c) in r.columns
    requires ColumnName(c) in t.columns ==> r.columns[ColumnName(c)] == t.columns[ColumnName(c)]
    requires ColumnName(c) !in t.columns ==>
               r.columns[ColumnName(c)].isNullable == (c.isNullable || c.dataType.AutoNumber?)
    requires if c.dataType.AutoNumber? then forall row :: row in r.rows ==> ColumnName(c) in row
             else (forall row :: row in t.rows ==> ColumnName(c) in row)
                  <==> (forall row :: row in r.rows ==> ColumnName(c) in row)
    ensures FitsNulls(r, c) <==> Admits(a, t, c)
  {
    hide ColumnName, IsSafeIdentifier, StoresType;
  }

  // ---- Dropping what is no longer listed ----

  /**
   * A published table that is left out has a safe name, and so has every column
   * that is dropped from one that stays.
   */
  predicate DropsSafely(db: Database, published: Table, next: Definition) {
    var name := NameOf(published);
    var kept := NextTable(next.tables, name);
    name == ""
    || (if kept.None? then IsSafeIdentifier(name)
        else forall c :: c in published.columns && IsDropped(ColumnName(c), kept.value) ==>
               IsSafeIdentifier(name) && name in db && IsSafeIdentifier(ColumnName(c)))
  }

  lemma {:induction false} DropColumnsOkIff(t: PhysicalTable, published: seq<Column>, next: Table)
    ensures DropColumns(t, published, next).Ok? <==>
              forall c :: c in published && IsDropped(ColumnName(c), next) ==> IsSafeIdentifier(ColumnName(c))
  {
    hide ColumnName, IsDropped, IsSafeIdentifier, DropColumn;
    if published != [] {
      var front, c := published[..|published| - 1], published[|published| - 1];
      assert published == front + [c];
      DropColumnsOkIff(t, front, next);
    }
  }

  lemma ReconcileTableOkIff(db: Database, published: Table, next: Definition)
    ensures ReconcileTable(db, published, next).Ok? <==> DropsSafely(db, published, next)
  {
    hide ColumnName, NameOf, IsDropped, IsSafeIdentifier, DropColumns;
    var name := NameOf(published);
    var kept := NextTable(next.tables, name);
    if kept.Some? {
      DropsNothingIff(published.columns, kept.value);
      if name in db { DropColumnsOkIff(db[name], published.columns, kept.value); }
    }
  }

  lemma DropsNothingIff(published: seq<Column>, next: Table)
    ensures DropsNothing(published, next) <==> forall c :: c in published ==> !IsDropped(ColumnName(c), next)
  {
    hide ColumnName, IsDropped;
    if DropsNothing(published, next) {
      forall c | c in published ensures !IsDropped(ColumnName(c), next) {
        var i :| 0 <= i < |published| && published[i] == c;
      }
    }
  }

  lemma {:induction false} ReconcileTablesOkIff(db: Database, published: seq<Table>, next: Definition)
    requires DistinctTableNames(published)
    ensures ReconcileTables(db, published, next).Ok? <==> forall t :: t in published ==> DropsSafely(db, t, next)
  {
    hide NameOf, ReconcileTable, DropsSafely, DistinctTableNames, Reconciled, HasTable;
    if published != [] {
      var front, last := published[..|published| - 1], published[|published| - 1];
      assert published == front + [last];
      DistinctPrefix(front, last);
      ReconcileTablesOkIff(db, front, next);
      if ReconcileTables(db, front, next).Ok? {
        var mid := ReconcileTables(db, front, next).value;
        ReconcileTablesResult(db, front, next);
        ReconcileTableOkIff(mid, last, next);
        HasTableAppend(front, last);
        SameEntry(db, mid, front, last, next);
      }
    }
  }

  lemma SameEntry(db: Database, mid: Database, front: seq<Table>, t: Table, next: Definition)
    requires Reconciled(db, mid, front, next) && !HasTable(front, NameOf(t))
    ensures DropsSafely(mid, t, next) <==> DropsSafely(db, t, next)
  {
    hide ColumnName, NameOf, IsDropped, IsSafeIdentifier, HasTable, EntryReconciled, NextTable;
  }

  // ---- Applying the definition ----

  /** The i-th table has a legal name, resolves, and the table it meets admits its columns. */
  predicate TableFits(env: Environment, db: Database, d: Definition, i: nat)
    requires WalksValues(env.order) && i < |d.tables|
  {
    var name := NameOf(d.tables[i]);
    var columns := ResolvedColumns(env, d, d.tables[i]);
    && name != "" && IsSafeIdentifier(name)
    && columns.Ok?
    && forall c :: c in columns.value ==> Admits(env.numbering, TableBefore(db, name), c)
  }

  lemma EnsureDefinitionTableOkIff(env: Environment, db: Database, before: Database, d: Definition, i: nat)
    requires WalksValues(env.order) && WellNamed(env, d) && i < |d.tables| && ResolvedColumns(env, d, d.tables[i]).Ok?
    requires TableBefore(before, NameOf(d.tables[i])) == TableBefore(db, NameOf(d.tables[i]))
    ensures EnsureDefinitionTable(env, before, d.tables[i], ResolvedColumns(env, d, d.tables[i]).value).Ok? <==>
              TableFits(env, db, d, i)
  {
    hide ResolvedColumns, NameOf, IsSafeIdentifier, EnsureTable, DistinctNames, Admits, TableBefore;
    EnsureTableSucceedsIff(env.numbering, TableBefore(db, NameOf(d.tables[i])),
                           ResolvedColumns(env, d, d.tables[i]).value);
  }

  lemma ApplyTablesUnfold(env: Environment, db: Database, d: Definition, n: nat)
    requires WalksValues(env.order) && 0 < n <= |d.tables|
    ensures var t := d.tables[n - 1];
            ApplyTables(env, db, d, n).Ok? <==>
              && ApplyTables(env, db, d, n - 1).Ok? && ResolvedColumns(env, d, t).Ok?
              && EnsureDefinitionTable(env, ApplyTables(env, db, d, n - 1).value, t,
                                       ResolvedColumns(env, d, t).value).Ok?
  {
    hide ResolvedColumns, EnsureDefinitionTable;
  }

  lemma {:induction false} ApplyTablesOkIff(env: Environment, db: Database, d: Definition, n: nat)
    requires WalksValues(env.order) && WellNamed(env, d) && n <= |d.tables|
    ensures ApplyTables(env, db, d, n).Ok? <==> forall i :: 0 <= i < n ==> TableFits(env, db, d, i)
  {
    hide *;
    if n == 0 {
      NothingApplied(env, db, d);
    } else {
      ApplyTablesUnfold(env, db, d, n);
      ApplyTablesOkIff(env, db, d, n - 1);
      NamesOfWellNamed(env, d);
      if ApplyTables(env, db, d, n - 1).Ok? && ResolvedColumns(env, d, d.tables[n - 1]).Ok? {
        var before := ApplyTables(env, db, d, n - 1).value;
        ApplyTablesResult(env, db, d, n - 1);
        TablesUpTo(d, n);
        NotYetApplied(env, db, before, d, n - 1);
        EnsureDefinitionTableOkIff(env, db, before, d, n - 1);
      } else {
        UnresolvedDoesNotFit(env, db, d, n - 1);
      }
    }
  }

  lemma NotYetApplied(env: Environment, db: Database, before: Database, d: Definition, n: nat)
    requires WalksValues(env.order) && n < |d.tables| && Applied(env, db, before, d, n)
    requires !HasTable(d.tables[..n], NameOf(d.tables[n]))
    ensures TableBefore(before, NameOf(d.tables[n])) == TableBefore(db, NameOf(d.tables[n]))
  {
    hide AppliedAt, NameOf, HasTable;
  }

  lemma UnresolvedDoesNotFit(env: Environment, db: Database, d: Definition, i: nat)
    requires WalksValues(env.order) && i < |d.tables|
    ensures TableFits(env, db, d, i) ==> ResolvedColumns(env, d, d.tables[i]).Ok?
  {
    hide ResolvedColumns, NameOf, IsSafeIdentifier, Admits;
  }

  // ---- The whole publication ----

  /** Reconciling drops the column `name` of the table that `t` becomes. */
  predicate Loses(published: Option<Definition>, t: Table, name: string) {
    && published.Some? && OwnsPhysicalSchema(published.value)
    && exists was :: was in published.value.tables && NameOf(was) == NameOf(t) && DroppedFrom(was.columns, t, name)
  }

  /** A column of the next definition and the table on disk before the publication. */
  predicate AdmitsNext(a: AutoNumbering, db: Database, published: Option<Definition>, t: Table, c: Column) {
    var before := TableBefore(db, NameOf(t));
    && Declarable(a, c)
    && if ColumnName(c) in before.columns && !Loses(published, t, ColumnName(c)) then Alterable(before, c)
       else Addable(before, c)
  }

  /** What the published definition has and the next one leaves out can be dropped. */
  predicate AllDropSafely(db: Database, published: Option<Definition>, next: Definition) {
    published.Some? && OwnsPhysicalSchema(published.value) ==>
      forall t :: t in published.value.tables ==> DropsSafely(db, t, next)
  }

  /** What can be read off the two definitions and the database before the publication starts. */
  predicate Publishable(env: Environment, db: Database, published: Option<Definition>, next: Definition)
    requires WalksValues(env.order)
  {
    && AllDropSafely(db, published, next)
    && forall i :: 0 <= i < |next.tables| ==> TablePublishable(env, db, published, next, i)
  }

  predicate TablePublishable(env: Environment, db: Database, published: Option<Definition>, next: Definition, i: nat)
    requires WalksValues(env.order) && i < |next.tables|
  {
    var name := NameOf(next.tables[i]);
    var columns := ResolvedColumns(env, next, next.tables[i]);
    && name != "" && IsSafeIdentifier(name)
    && columns.Ok?
    && forall c :: c in columns.value ==> AdmitsNext(env.numbering, db, published, next.tables[i], c)
  }

  /**
   * A publication succeeds exactly when what is dropped has safe names, every
   * table has a legal name and resolves, and every resolved column is
   * declarable and either stands in its table at its type and without
   * forbidden nulls, or can be added to the rows there are.
   */
  lemma PublishSucceedsIff(env: Environment, db: Database, published: Option<Definition>, next: Definition)
    requires WalksValues(env.order) && WellNamed(env, next) && WellNamedPublished(published) && OwnsPhysicalSchema(next)
    ensures PublishSchema(env, db, published, next).Ok? <==> Publishable(env, db, published, next)
  {
    hide *;
    PublishUnfold(env, db, published, next);
    ReconcileOkIff(db, published, next);
    if Reconcile(db, published, next).Ok? {
      var mid := Reconcile(db, published, next).value;
      ApplyTablesOkIff(env, mid, next, |next.tables|);
      forall i | 0 <= i < |next.tables|
        ensures TableFits(env, mid, next, i) <==> TablePublishable(env, db, published, next, i)
      {
        FitsOnceReconciled(env, db, published, next, i);
      }
    }
    PublishableIff(env, db, published, next);
  }

  lemma PublishUnfold(env: Environment, db: Database, published: Option<Definition>, next: Definition)
    requires WalksValues(env.order) && OwnsPhysicalSchema(next)
    ensures PublishSchema(env, db, published, next).Ok? <==>
              && Reconcile(db, published, next).Ok?
              && ApplyTables(env, Reconcile(db, published, next).value, next, |next.tables|).Ok?
  {
    hide Reconcile, ApplyTables, OwnsPhysicalSchema;
  }

  lemma PublishableIff(env: Environment, db: Database, published: Option<Definition>, next: Definition)
    requires WalksValues(env.order)
    ensures Publishable(env, db, published, next) <==>
              && AllDropSafely(db, published, next)
              && forall i :: 0 <= i < |next.tables| ==> TablePublishable(env, db, published, next, i)
  {
    hide TablePublishable, AllDropSafely;
  }

  lemma ReconcileOkIff(db: Database, published: Option<Definition>, next: Definition)
    requires WellNamedPublished(published)
    ensures Reconcile(db, published, next).Ok? <==> AllDropSafely(db, published, next)
  {
    hide DropsSafely, OwnsPhysicalSchema, ReconcileTables, DistinctTableNames;
    if published.Some? { ReconcileTablesOkIff(db, published.value.tables, next); }
  }

  lemma FitsOnceReconciled(env: Environment, db: Database, published: Option<Definition>, next: Definition, i: nat)
    requires WalksValues(env.order) && WellNamed(env, next) && WellNamedPublished(published) && i < |next.tables|
    requires Reconcile(db, published, next).Ok?
    ensures TableFits(env, Reconcile(db, published, next).value, next, i) <==>
              TablePublishable(env, db, published, next, i)
  {
    hide ResolvedColumns, NameOf, IsSafeIdentifier, Admits, AdmitsNext, Reconcile, TableBefore;
    var mid := Reconcile(db, published, next).value;
    var t := next.tables[i];
    NamesOfWellNamed(env, next);
    forall c | NameOf(t) != ""
      ensures Admits(env.numbering, TableBefore(mid, NameOf(t)), c) <==> AdmitsNext(env.numbering, db, published, t, c)
    {
      AdmitsOnceReconciled(env.numbering, db, published, next, i, c);
    }
  }

  lemma AdmitsOnceReconciled(a: AutoNumbering, db: Database, published: Option<Definition>, next: Definition, i: nat,
                             c: Column)
    requires DistinctTableNames(next.tables) && WellNamedPublished(published) && i < |next.tables|
    requires Reconcile(db, published, next).Ok? && NameOf(next.tables[i]) != ""
    ensures var t := next.tables[i];
            Admits(a, TableBefore(Reconcile(db, published, next).value, NameOf(t)), c) <==>
              AdmitsNext(a, db, published, t, c)
  {
    hide *;
    var t := next.tables[i];
    var mid := Reconcile(db, published, next).value;
    ReconciledTable(db, published, next, i);
    AdmitsLess(a, TableBefore(db, NameOf(t)), TableBefore(mid, NameOf(t)), published, t, c, db);
  }

  /** `r` is the table `t` without the columns the definition loses. */
  ghost predicate LessLost(b: PhysicalTable, r: PhysicalTable, published: Option<Definition>, t: Table) {
    && (forall c: Column :: ColumnName(c) in r.columns <==>
          ColumnName(c) in b.columns && !Loses(published, t, ColumnName(c)))
    && (forall x :: x in r.columns && x in b.columns ==> r.columns[x] == b.columns[x])
    && |r.rows| == |b.rows|
    && (forall x :: !Loses(published, t, x) ==> SameCells(b.rows, r.rows, x))
  }

  lemma AdmitsLess(a: AutoNumbering, b: PhysicalTable, r: PhysicalTable, published: Option<Definition>, t: Table,
                   c: Column, db: Database)
    requires LessLost(b, r, published, t) && b == TableBefore(db, NameOf(t))
    ensures Admits(a, r, c) <==> AdmitsNext(a, db, published, t, c)
  {
    hide Loses, NameOf, StoresType, TableBefore, ColumnName, IsSafeIdentifier, SameCells;
    var name := ColumnName(c);
    if !Loses(published, t, name) { CellsThere(b.rows, r.rows, name); }
  }

  lemma ReconciledTable(db: Database, published: Option<Definition>, next: Definition, i: nat)
    requires DistinctTableNames(next.tables) && WellNamedPublished(published) && i < |next.tables|
    requires Reconcile(db, published, next).Ok? && NameOf(next.tables[i]) != ""
    ensures var name := NameOf(next.tables[i]);
            LessLost(TableBefore(db, name), TableBefore(Reconcile(db, published, next).value, name), published,
                     next.tables[i])
  {
    hide *;
    var t := next.tables[i];
    var name := NameOf(t);
    var mid := Reconcile(db, published, next).value;
    if published.Some? && OwnsPhysicalSchema(published.value) {
      ReconcileIsTables(db, published, next);
      ReconcileTablesResult(db, published.value.tables, next);
      if j :| 0 <= j < |published.value.tables| && NameOf(published.value.tables[j]) == name {
        NextTableIs(next.tables, i);
        ReconciledEntry(db, mid, published.value.tables, next, j);
        LosesIff(published, t, j);
        EntryLessLost(db, mid, published.value.tables[j], next, published, t);
      } else {
        EntryUntouched(db, mid, published.value.tables, next, name);
        LosesNothing(published, t);
        NothingLost(TableBefore(db, name), published, t);
      }
    } else {
      ReconcileIsIdle(db, published, next);
      LosesNothing(published, t);
      NothingLost(TableBefore(db, name), published, t);
    }
  }

  lemma ReconcileIsTables(db: Database, published: Option<Definition>, next: Definition)
    requires WellNamedPublished(published) && published.Some? && OwnsPhysicalSchema(published.value)
    ensures Reconcile(db, published, next) == ReconcileTables(db, published.value.tables, next)
    ensures DistinctTableNames(published.value.tables)
  {}

  lemma ReconcileIsIdle(db: Database, published: Option<Definition>, next: Definition)
    requires published.None? || !OwnsPhysicalSchema(published.value)
    ensures Reconcile(db, published, next) == Ok(db)
  {}

  lemma EntryUntouched(db: Database, mid: Database, published: seq<Table>, next: Definition, name: string)
    requires Reconciled(db, mid, published, next)
    requires forall j :: 0 <= j < |published| ==> NameOf(published[j]) != name
    ensures TableBefore(mid, name) == TableBefore(db, name)
  {
    hide NameOf, EntryReconciled;
    assert !HasTable(published, name);
  }

  lemma LosesNothing(published: Option<Definition>, t: Table)
    requires published.Some? && OwnsPhysicalSchema(published.value) ==>
               forall j :: 0 <= j < |published.value.tables| ==> NameOf(published.value.tables[j]) != NameOf(t)
    ensures forall x :: !Loses(published, t, x)
  {
    hide NameOf, OwnsPhysicalSchema, DroppedFrom;
  }

  lemma NothingLost(b: PhysicalTable, published: Option<Definition>, t: Table)
    requires forall x :: !Loses(published, t, x)
    ensures LessLost(b, b, published, t)
  {
    hide Loses, ColumnName;
  }

  lemma LosesIff(published: Option<Definition>, t: Table, j: nat)
    requires WellNamedPublished(published) && published.Some? && OwnsPhysicalSchema(published.value)
    requires j < |published.value.tables| && NameOf(published.value.tables[j]) == NameOf(t)
    ensures forall x :: Loses(published, t, x) <==> DroppedFrom(published.value.tables[j].columns, t, x)
  {
    hide NameOf, OwnsPhysicalSchema, DroppedFrom;
    forall x ensures Loses(published, t, x) <==> DroppedFrom(published.value.tables[j].columns, t, x) {
      if Loses(published, t, x) {
        var was :| was in published.value.tables && NameOf(was) == NameOf(t) && DroppedFrom(was.columns, t, x);
        var k :| 0 <= k < |published.value.tables| && published.value.tables[k] == was;
      }
    }
  }

  lemma EntryLessLost(db: Database, mid: Database, was: Table, next: Definition, published: Option<Definition>,
                      t: Table)
    requires EntryReconciled(db, mid, was, next) && NameOf(was) == NameOf(t) != ""
    requires NextTable(next.tables, NameOf(t)) == Some(t)
    requires forall x :: Loses(published, t, x) <==> DroppedFrom(was.columns, t, x)
    ensures LessLost(TableBefore(db, NameOf(t)), TableBefore(mid, NameOf(t)), published, t)
  {
    hide NameOf, DropColumns, Loses, DroppedFrom, TableValid, NextTable, ColumnName, SameCells;
    var name := NameOf(t);
    if name in db {
      DropColumnsResult(db[name], was.columns, t);
    } else {
      SystemColumnsStay(was.columns, t);
      SystemCells(published, t);
    }
  }

  lemma SystemColumnsStay(published: seq<Column>, t: Table)
    ensures forall c: Column :: ColumnName(c) in NewTable().columns ==> !DroppedFrom(published, t, ColumnName(c))
  {
    NewTableIs();
    hide NewTable, SystemColumnNames, HasName, NormalizeIdentifier;
    forall c: Column | ColumnName(c) in NewTable().columns ensures !DroppedFrom(published, t, ColumnName(c)) {
      NormalizeIdempotent(c.name);
    }
  }

  lemma SystemCells(published: Option<Definition>, t: Table)
    ensures forall x :: SameCells(NewTable().rows, NewTable().rows, x)
  {}

  // ---- Validated definitions ----

  ghost predicate ColumnsAdmitted(env: Environment, db: Database, published: Option<Definition>, d: Definition)
    requires WalksValues(env.order)
  {
    forall t :: t in d.tables ==>
      && ResolvedColumns(env, d, t).Ok?
      && forall c :: c in ResolvedColumns(env, d, t).value ==> AdmitsNext(env.numbering, db, published, t, c)
  }

  /**
   * Declared tables that normalise and pass validation are published over the
   * tables of an earlier publication exactly when these admit the columns:
   * nothing but the rows, types and nullabilities on disk, an unknown type or
   * an illegal prefix stands in the way.
   */
  lemma AcceptedPublishesIff(env: Environment, rules: ColumnRules, declared: Definition, dependencies: seq<App>,
                             db: Database, published: Option<Definition>)
    requires WalksValues(env.order)
    requires NormalizeIdentifier(declared.name) == declared.name
               && NormalizeIdentifier(declared.namespace) == declared.namespace
    requires OwnsPhysicalSchema(declared) && NormalizedDefinition(declared, rules).Some?
    requires var d := NormalizedDefinition(declared, rules).value;
             SelfContained(d.tables) && TablesAccepted(Scope(PublishedApp(d), d, dependencies))
    requires published.Some? ==> NormalTables(published.value.tables)
    requires published.Some? ==> forall t :: t in published.value.tables ==> NameOf(t) in db
    ensures var d := NormalizedDefinition(declared, rules).value;
            PublishSchema(env, db, published, d).Ok? <==> ColumnsAdmitted(env, db, published, d)
  {
    var d := NormalizedDefinition(declared, rules).value;
    assert OwnsPhysicalSchema(d) && d.tables == NormalizeTables(declared.tables, rules).value;
    if published.Some? { NormalTablesDistinct(published.value.tables); }
    assert WellNamedPublished(published) by { hide DistinctTableNames; }
    hide *;
    NormalizeTablesResult(declared.tables, rules);
    NormalTablesAreNormalized(d.tables);
    AcceptedDefinitionIsWellNamed(env, d, dependencies);
    PublishSucceedsIff(env, db, published, d);
    NormalTablesDropSafely(db, published, d);
    PublishableIff(env, db, published, d);
    NormalTablesPublishable(env, db, published, d);
  }

  lemma NormalTablesDropSafely(db: Database, published: Option<Definition>, next: Definition)
    requires published.Some? ==> NormalTables(published.value.tables)
    requires published.Some? ==> forall t :: t in published.value.tables ==> NameOf(t) in db
    ensures AllDropSafely(db, published, next)
  {
    hide NormalizeIdentifier, IsSafeIdentifier, IsDropped, OwnsPhysicalSchema;
    if published.Some? {
      forall t | t in published.value.tables ensures DropsSafely(db, t, next) {
        assert NormalTable(t);
      }
    }
  }

  lemma NormalTablesPublishable(env: Environment, db: Database, published: Option<Definition>, d: Definition)
    requires WalksValues(env.order) && NormalTables(d.tables)
    ensures (forall i :: 0 <= i < |d.tables| ==> TablePublishable(env, db, published, d, i)) <==>
              ColumnsAdmitted(env, db, published, d)
  {
    hide NormalizeIdentifier, ResolvedColumns, AdmitsNext;
    forall i | 0 <= i < |d.tables| ensures NameOf(d.tables[i]) != "" && IsSafeIdentifier(NameOf(d.tables[i])) {
      assert NormalTable(d.tables[i]);
    }
    hide IsSafeIdentifier, NameOf;
    forall i | 0 <= i < |d.tables|
      ensures TablePublishable(env, db, published, d, i) <==>
                && ResolvedColumns(env, d, d.tables[i]).Ok?
                && forall c :: c in ResolvedColumns(env, d, d.tables[i]).value ==>
                     AdmitsNext(env.numbering, db, published, d.tables[i], c)
    {}
  }
}
