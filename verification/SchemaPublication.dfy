/** Reconciling the physical schema with a published definition (internal/db/AppPublish.go). */
module SchemaPublication {
  import opened Common
  import opened Text
  import opened AppModel
  import opened TableInheritance
  import opened PhysicalSchema
  import opened TableReconciliation

  /** What a publication reads besides the definition: active apps, walk order, prefixes, numbering. */
  datatype Environment = Environment(apps: seq<App>, order: MapOrder, derivePrefix: (App, Table) -> string,
                                     numbering: AutoNumbering)

  function NameOf(t: Table): string { NormalizeIdentifier(t.name) }

  predicate OwnsPhysicalSchema(d: Definition) {
    NormalizeIdentifier(d.namespace) != "" || NormalizeIdentifier(d.name) == "base"
  }

  // ---- Resolving the tables of the definition being published ----

  function PublishedApp(d: Definition): App {
    App(NormalizeIdentifier(d.name), NormalizeIdentifier(d.namespace), Some(d), None)
  }

  predicate SameApp(candidate: App, app: App) {
    EqualFold(candidate.name, app.name) || (app.namespace != "" && EqualFold(candidate.namespace, app.namespace))
  }

  function Replaced(apps: seq<App>, app: App): seq<App> {
    if apps == [] then [] else [if SameApp(apps[0], app) then app else apps[0]] + Replaced(apps[1..], app)
  }

  /** mergeRegisteredApps: `app` stands in for every active app it is the same as. */
  function MergeApps(apps: seq<App>, app: App): seq<App> {
    if exists i :: 0 <= i < |apps| && SameApp(apps[i], app) then Replaced(apps, app) else apps + [app]
  }

  /** The merged apps are the app itself and every active app that is not the same. */
  lemma MergedApps(apps: seq<App>, app: App, a: App)
    ensures a in MergeApps(apps, app) <==> a == app || (a in apps && !SameApp(a, app))
  {
    MergedMembers(apps, app, a);
    hide SameApp;
  }

  lemma {:induction false} MergedMembers(apps: seq<App>, app: App, a: App)
    ensures a in Replaced(apps, app) <==>
              (a == app && exists b :: b in apps && SameApp(b, app)) || (a in apps && !SameApp(a, app))
  {
    hide SameApp;
    if apps != [] {
      MergedMembers(apps[1..], app, a);
      assert apps == [apps[0]] + apps[1..];
    }
  }

  function RegistryFor(env: Environment, d: Definition, t: Table): Registry {
    Registry(MergeApps(env.apps, PublishedApp(d)), Link(PublishedApp(d), t), env.order, env.derivePrefix)
  }

  function ResolvedColumns(env: Environment, d: Definition, t: Table): Result<seq<Column>, ResolveError>
    requires WalksValues(env.order)
  {
    ResolveColumns(RegistryFor(env, d, t), Link(PublishedApp(d), t), {})
  }

  // ---- Dropping what the next definition no longer has ----

  /** The table of that name; of several, the last one wins. */
  function NextTable(tables: seq<Table>, name: string): (r: Option<Table>)
    ensures r.Some? ==> r.value in tables && NameOf(r.value) == name
    ensures r.None? ==> forall t :: t in tables ==> NameOf(t) != name
  {
    if tables == [] then None
    else if NameOf(tables[|tables| - 1]) == name then Some(tables[|tables| - 1])
    else NextTable(tables[..|tables| - 1], name)
  }

  predicate IsDropped(name: string, next: Table) {
    name != "" && !IsSystemColumnName(name) && !HasName(next.columns, name)
  }

  /** reconcileDefinitionColumnsTx on the published columns of one table. */
  function DropColumns(t: PhysicalTable, published: seq<Column>, next: Table): Result<PhysicalTable, SchemaError> {
    if published == [] then Ok(t) else
    var before := DropColumns(t, published[..|published| - 1], next);
    var name := ColumnName(published[|published| - 1]);
    if before.Err? || !IsDropped(name, next) then before
    else if !IsSafeIdentifier(name) then Err(InvalidIdentifier(name))
    else Ok(DropColumn(before.value, name))
  }

  predicate DropsNothing(published: seq<Column>, next: Table) {
    forall i :: 0 <= i < |published| ==> !IsDropped(ColumnName(published[i]), next)
  }

  function ReconcileTable(db: Database, published: Table, next: Definition): Result<Database, SchemaError> {
    var name := NameOf(published);
    if name == "" then Ok(db) else
    var kept := NextTable(next.tables, name);
    if kept.None? then (if IsSafeIdentifier(name) then Ok(db - {name}) else Err(InvalidIdentifier(name)))
    else if DropsNothing(published.columns, kept.value) then Ok(db)
    else if !IsSafeIdentifier(name) then Err(InvalidIdentifier(name))
    else if name !in db then Err(NoSuchTable(name))
    else
      var t := DropColumns(db[name], published.columns, kept.value);
      if t.Err? then Err(t.error) else Ok(db[name := t.value])
  }

  function ReconcileTables(db: Database, published: seq<Table>, next: Definition): Result<Database, SchemaError> {
    if published == [] then Ok(db) else
    var before := ReconcileTables(db, published[..|published| - 1], next);
    if before.Err? then before else ReconcileTable(before.value, published[|published| - 1], next)
  }

  function Reconcile(db: Database, published: Option<Definition>, next: Definition): Result<Database, SchemaError> {
    if published.None? || !OwnsPhysicalSchema(published.value) then Ok(db)
    else ReconcileTables(db, published.value.tables, next)
  }

  // ---- Creating and altering what it has ----

  function TableBefore(db: Database, name: string): PhysicalTable {
    if name in db then db[name] else NewTable()
  }

  function EnsureDefinitionTable(env: Environment, db: Database, t: Table,
                                 columns: seq<Column>): Result<Database, SchemaError> {
    var name := NameOf(t);
    if name == "" then Err(SchemaError.TableNameRequired)
    else if !IsSafeIdentifier(name) then Err(InvalidIdentifier(name))
    else
      var r := EnsureTable(env.numbering, TableBefore(db, name), columns);
      if r.Err? then Err(r.error) else Ok(db[name := r.value])
  }

  function ApplyTables(env: Environment, db: Database, d: Definition, n: nat): Result<Database, SchemaError>
    requires WalksValues(env.order) && n <= |d.tables|
  {
    if n == 0 then Ok(db) else
    var before := ApplyTables(env, db, d, n - 1);
    if before.Err? then before else
    var columns := ResolvedColumns(env, d, d.tables[n - 1]);
    if columns.Err? then Err(Unresolved(d.tables[n - 1].name))
    else EnsureDefinitionTable(env, before.value, d.tables[n - 1], columns.value)
  }

  function ApplyDefinition(env: Environment, db: Database, d: Definition): Result<Database, SchemaError>
    requires WalksValues(env.order)
  {
    if OwnsPhysicalSchema(d) then ApplyTables(env, db, d, |d.tables|) else Ok(db)
  }

  /** The physical effect of a publication. */
  function PublishSchema(env: Environment, db: Database, published: Option<Definition>,
                         next: Definition): Result<Database, SchemaError>
    requires WalksValues(env.order)
  {
    var reconciled := Reconcile(db, published, next);
    if reconciled.Err? then reconciled else ApplyDefinition(env, reconciled.value, next)
  }

  // ---- What reconciling keeps ----

  predicate DistinctTableNames(tables: seq<Table>) {
    forall i, j :: 0 <= i < j < |tables| ==> NameOf(tables[i]) != NameOf(tables[j])
  }

  predicate HasTable(tables: seq<Table>, name: string) {
    exists i :: 0 <= i < |tables| && NameOf(tables[i]) == name
  }

  /** A published column that the next table no longer lists itself. */
  predicate DroppedFrom(published: seq<Column>, next: Table, x: string) {
    HasName(published, x) && IsDropped(x, next)
  }

  /** `r` is `t` without the columns dropped from `published`. */
  ghost predicate DroppedTo(t: PhysicalTable, r: PhysicalTable, published: seq<Column>, next: Table) {
    && (forall x :: x in r.columns <==> x in t.columns && !DroppedFrom(published, next, x))
    && (forall x :: x in r.columns ==> r.columns[x] == t.columns[x])
    && |r.rows| == |t.rows|
    && (forall x :: !DroppedFrom(published, next, x) ==> SameCells(t.rows, r.rows, x))
    && (TableValid(t) ==> TableValid(r))
  }

  lemma {:induction false} DropColumnsResult(t: PhysicalTable, published: seq<Column>, next: Table)
    requires DropColumns(t, published, next).Ok?
    ensures DroppedTo(t, DropColumns(t, published, next).value, published, next)
  {
    hide DroppedTo, IsDropped, ColumnName, IsSafeIdentifier, DropColumn;
    if published == [] {
      NothingDroppedTo(t, next);
    } else {
      var front, c := published[..|published| - 1], published[|published| - 1];
      DropColumnsResult(t, front, next);
      assert published == front + [c];
      DropOneMore(t, DropColumns(t, front, next).value, front, c, next);
    }
  }

  lemma NothingDroppedTo(t: PhysicalTable, next: Table)
    ensures DroppedTo(t, t, [], next)
  {}

  lemma DropOneMore(t: PhysicalTable, b: PhysicalTable, front: seq<Column>, c: Column, next: Table)
    requires DroppedTo(t, b, front, next)
    ensures DroppedTo(t, if IsDropped(ColumnName(c), next) then DropColumn(b, ColumnName(c)) else b, front + [c], next)
  {
    var name := ColumnName(c);
    HasNameAppend(front, c);
    hide ColumnName, HasName, TableValid;
    assert forall x :: DroppedFrom(front + [c], next, x) <==>
             DroppedFrom(front, next, x) || (x == name && IsDropped(name, next));
    hide DroppedFrom, IsDropped;
    if TableValid(b) { DropColumnKeepsValid(b, name); }
  }

  lemma DropColumnKeepsValid(t: PhysicalTable, column: string)
    requires TableValid(t)
    ensures TableValid(DropColumn(t, column))
  {
    var r := DropColumn(t, column);
    forall row | row in r.rows
      ensures row.Keys <= r.columns.Keys
      ensures forall x :: x in r.columns && !r.columns[x].isNullable ==> x in row
    {
      var i :| 0 <= i < |r.rows| && r.rows[i] == row;
      assert t.rows[i] in t.rows;
    }
  }

  lemma {:induction false} DropNothingKeeps(t: PhysicalTable, published: seq<Column>, next: Table)
    requires DropsNothing(published, next)
    ensures DropColumns(t, published, next) == Ok(t)
  {
    if published != [] {
      hide ColumnName, IsDropped;
      assert forall i :: 0 <= i < |published| - 1 ==> published[..|published| - 1][i] == published[i];
      DropNothingKeeps(t, published[..|published| - 1], next);
    }
  }

  /** The database after reconciling the listed published tables. */
  ghost predicate Reconciled(db: Database, after: Database, published: seq<Table>, next: Definition) {
    && (forall x :: !HasTable(published, x) ==> (x in after <==> x in db) && (x in db ==> after[x] == db[x]))
    && (forall i :: 0 <= i < |published| && NameOf(published[i]) != "" ==>
          var name := NameOf(published[i]);
          var kept := NextTable(next.tables, name);
          if kept.None? then name !in after
          else (name in after <==> name in db)
               && (name in db ==> DropColumns(db[name], published[i].columns, kept.value) == Ok(after[name])))
    && ("" in after <==> "" in db) && ("" in db ==> after[""] == db[""])
  }

  lemma ReconcileTableResult(db: Database, published: Table, next: Definition)
    requires ReconcileTable(db, published, next).Ok?
    ensures Reconciled(db, ReconcileTable(db, published, next).value, [published], next)
  {
    hide IsSafeIdentifier;
    var name := NameOf(published);
    hide NormalizeIdentifier, DropColumns, DropsNothing;
    var kept := NextTable(next.tables, name);
    if name in db && kept.Some? && DropsNothing(published.columns, kept.value) {
      DropNothingKeeps(db[name], published.columns, kept.value);
    }
    assert HasTable([published], name) by { assert NameOf([published][0]) == name; }
  }

  lemma HasTableAppend(front: seq<Table>, last: Table)
    requires DistinctTableNames(front + [last])
    ensures forall x :: HasTable(front + [last], x) <==> HasTable(front, x) || x == NameOf(last)
    ensures forall x :: HasTable([last], x) <==> x == NameOf(last)
    ensures !HasTable(front, NameOf(last)) && forall i :: 0 <= i < |front| ==> NameOf(front[i]) != NameOf(last)
  {
    hide NameOf;
    var all := front + [last];
    assert all[|front|] == last && [last][0] == last;
    forall x ensures HasTable(all, x) <==> HasTable(front, x) || x == NameOf(last) {
      if HasTable(front, x) {
        var i :| 0 <= i < |front| && NameOf(front[i]) == x;
        assert all[i] == front[i];
      }
    }
    forall i | 0 <= i < |front| ensures NameOf(front[i]) != NameOf(last) { assert all[i] == front[i]; }
  }

  /** What reconciling one published table makes of its entry. */
  ghost predicate EntryReconciled(db: Database, after: Database, published: Table, next: Definition) {
    NameOf(published) != "" ==>
      var name := NameOf(published);
      var kept := NextTable(next.tables, name);
      if kept.None? then name !in after
      else (name in after <==> name in db)
           && (name in db ==> DropColumns(db[name], published.columns, kept.value) == Ok(after[name]))
  }

  lemma ReconciledEntry(db: Database, after: Database, published: seq<Table>, next: Definition, i: nat)
    requires Reconciled(db, after, published, next) && i < |published|
    ensures EntryReconciled(db, after, published[i], next)
  {
    hide NameOf, DropColumns, HasTable;
  }

  lemma ReconciledAppend(db: Database, mid: Database, after: Database, front: seq<Table>, last: Table, next: Definition)
    requires Reconciled(db, mid, front, next) && Reconciled(mid, after, [last], next)
    requires DistinctTableNames(front + [last])
    ensures Reconciled(db, after, front + [last], next)
  {
    hide NameOf, DropColumns, HasTable, DistinctTableNames, NextTable;
    var all := front + [last];
    HasTableAppend(front, last);
    forall i | 0 <= i < |all| ensures EntryReconciled(db, after, all[i], next) {
      if i < |front| {
        ReconciledEntry(db, mid, front, next, i);
        assert all[i] == front[i];
        assert !HasTable([last], NameOf(front[i]));
      } else {
        ReconciledEntry(mid, after, [last], next, 0);
        assert all[i] == last && !HasTable(front, NameOf(last));
      }
    }
  }

  lemma {:induction false} ReconcileTablesResult(db: Database, published: seq<Table>, next: Definition)
    requires DistinctTableNames(published) && ReconcileTables(db, published, next).Ok?
    ensures Reconciled(db, ReconcileTables(db, published, next).value, published, next)
  {
    if published == [] {
      NothingReconciled(db, next);
    } else {
      var front, last := published[..|published| - 1], published[|published| - 1];
      assert published == front + [last];
      hide NameOf, Reconciled, ReconcileTable, DistinctTableNames;
      assert DistinctTableNames(front) by { DistinctPrefix(front, last); }
      ReconcileTablesResult(db, front, next);
      var mid := ReconcileTables(db, front, next).value;
      ReconcileTableResult(mid, last, next);
      ReconciledAppend(db, mid, ReconcileTable(mid, last, next).value, front, last, next);
    }
  }

  lemma DistinctPrefix(front: seq<Table>, last: Table)
    requires DistinctTableNames(front + [last])
    ensures DistinctTableNames(front)
  {
    hide NameOf;
    assert forall i :: 0 <= i < |front| ==> (front + [last])[i] == front[i];
  }

  lemma NothingReconciled(db: Database, next: Definition)
    ensures Reconciled(db, db, [], next)
  {
    hide NameOf;
  }

  // ---- What applying establishes ----

  /** The i-th table of the definition is the ensured form of what it was. */
  ghost predicate AppliedAt(env: Environment, db: Database, after: Database, d: Definition, i: nat)
    requires WalksValues(env.order) && i < |d.tables|
  {
    var name := NameOf(d.tables[i]);
    && name != "" && IsSafeIdentifier(name)
    && ResolvedColumns(env, d, d.tables[i]).Ok?
    && name in after
    && EnsureTable(env.numbering, TableBefore(db, name), ResolvedColumns(env, d, d.tables[i]).value) == Ok(after[name])
  }

  /** The database after ensuring the first `n` tables; the others are untouched. */
  ghost predicate Applied(env: Environment, db: Database, after: Database, d: Definition, n: nat)
    requires WalksValues(env.order) && n <= |d.tables|
  {
    && (forall x :: !HasTable(d.tables[..n], x) ==> (x in after <==> x in db) && (x in db ==> after[x] == db[x]))
    && (forall i :: 0 <= i < n ==> AppliedAt(env, db, after, d, i))
  }

  lemma ApplyTablesStep(env: Environment, db: Database, d: Definition, n: nat)
    requires WalksValues(env.order) && 0 < n <= |d.tables| && ApplyTables(env, db, d, n).Ok?
    ensures ApplyTables(env, db, d, n - 1).Ok? && ResolvedColumns(env, d, d.tables[n - 1]).Ok?
    ensures EnsureDefinitionTable(env, ApplyTables(env, db, d, n - 1).value, d.tables[n - 1],
                                  ResolvedColumns(env, d, d.tables[n - 1]).value)
              == Ok(ApplyTables(env, db, d, n).value)
  {
    hide ResolvedColumns, EnsureDefinitionTable;
  }

  lemma NothingApplied(env: Environment, db: Database, d: Definition)
    requires WalksValues(env.order)
    ensures ApplyTables(env, db, d, 0) == Ok(db) && Applied(env, db, db, d, 0)
  {
    hide AppliedAt;
  }

  lemma {:induction false} ApplyTablesResult(env: Environment, db: Database, d: Definition, n: nat)
    requires WalksValues(env.order) && n <= |d.tables| && DistinctTableNames(d.tables)
    requires ApplyTables(env, db, d, n).Ok?
    ensures Applied(env, db, ApplyTables(env, db, d, n).value, d, n)
  {
    hide *;
    if n == 0 {
      NothingApplied(env, db, d);
    } else {
      ApplyTablesStep(env, db, d, n);
      ApplyTablesResult(env, db, d, n - 1);
      AppliedStep(env, db, ApplyTables(env, db, d, n - 1).value, ApplyTables(env, db, d, n).value, d, n);
    }
  }

  lemma TablesUpTo(d: Definition, n: nat)
    requires 0 < n <= |d.tables| && DistinctTableNames(d.tables)
    ensures forall x :: HasTable(d.tables[..n], x) <==> HasTable(d.tables[..n - 1], x) || x == NameOf(d.tables[n - 1])
    ensures !HasTable(d.tables[..n - 1], NameOf(d.tables[n - 1]))
  {
    hide NameOf;
    var front, t := d.tables[..n - 1], d.tables[n - 1];
    assert d.tables[..n] == front + [t];
    forall x ensures HasTable(d.tables[..n], x) <==> HasTable(front, x) || x == NameOf(t) {
      if HasTable(front, x) {
        var i :| 0 <= i < |front| && NameOf(front[i]) == x;
        assert d.tables[..n][i] == front[i];
      }
      assert d.tables[..n][n - 1] == t;
    }
    forall i | 0 <= i < |front| ensures NameOf(front[i]) != NameOf(t) { assert front[i] == d.tables[i]; }
  }

  lemma EnsuredAt(env: Environment, before: Database, after: Database, d: Definition, i: nat)
    requires WalksValues(env.order) && i < |d.tables| && ResolvedColumns(env, d, d.tables[i]).Ok?
    requires EnsureDefinitionTable(env, before, d.tables[i], ResolvedColumns(env, d, d.tables[i]).value) == Ok(after)
    ensures AppliedAt(env, before, after, d, i)
    ensures forall x :: x != NameOf(d.tables[i]) ==>
              (x in after <==> x in before) && (x in before ==> after[x] == before[x])
  {
    hide ResolvedColumns, EnsureTable, NameOf, IsSafeIdentifier;
  }

  /** Only the table's own entry matters to the i-th table. */
  lemma AppliedAtCarries(env: Environment, db: Database, before: Database, after: Database, d: Definition, i: nat)
    requires WalksValues(env.order) && i < |d.tables| && AppliedAt(env, db, before, d, i)
    requires var name := NameOf(d.tables[i]); name in after && after[name] == before[name]
    ensures AppliedAt(env, db, after, d, i)
  {
    hide ResolvedColumns, EnsureTable, NameOf, IsSafeIdentifier;
  }

  lemma AppliedAtFrom(env: Environment, db: Database, before: Database, after: Database, d: Definition, i: nat)
    requires WalksValues(env.order) && i < |d.tables| && AppliedAt(env, before, after, d, i)
    requires TableBefore(before, NameOf(d.tables[i])) == TableBefore(db, NameOf(d.tables[i]))
    ensures AppliedAt(env, db, after, d, i)
  {
    hide ResolvedColumns, EnsureTable, NameOf, IsSafeIdentifier;
  }

  lemma AppliedStep(env: Environment, db: Database, before: Database, after: Database, d: Definition, n: nat)
    requires WalksValues(env.order) && 0 < n <= |d.tables| && DistinctTableNames(d.tables)
    requires Applied(env, db, before, d, n - 1)
    requires var t := d.tables[n - 1];
             && ResolvedColumns(env, d, t).Ok?
             && EnsureDefinitionTable(env, before, t, ResolvedColumns(env, d, t).value) == Ok(after)
    ensures Applied(env, db, after, d, n)
  {
    hide *;
    TablesUpTo(d, n);
    EnsuredAt(env, before, after, d, n - 1);
    LastApplied(env, db, before, after, d, n);
    EarlierApplied(env, db, before, after, d, n);
    OthersUntouched(env, db, before, after, d, n);
    AppliedFromParts(env, db, after, d, n);
  }

  lemma LastApplied(env: Environment, db: Database, before: Database, after: Database, d: Definition, n: nat)
    requires WalksValues(env.order) && 0 < n <= |d.tables|
    requires Applied(env, db, before, d, n - 1) && AppliedAt(env, before, after, d, n - 1)
    requires !HasTable(d.tables[..n - 1], NameOf(d.tables[n - 1]))
    ensures AppliedAt(env, db, after, d, n - 1)
  {
    hide AppliedAt, NameOf, HasTable, WalksValues;
    AppliedAtFrom(env, db, before, after, d, n - 1);
  }

  lemma EarlierApplied(env: Environment, db: Database, before: Database, after: Database, d: Definition, n: nat)
    requires WalksValues(env.order) && 0 < n <= |d.tables| && DistinctTableNames(d.tables)
    requires Applied(env, db, before, d, n - 1)
    requires forall x :: x != NameOf(d.tables[n - 1]) ==>
               (x in after <==> x in before) && (x in before ==> after[x] == before[x])
    ensures forall i :: 0 <= i < n - 1 ==> AppliedAt(env, db, after, d, i)
  {
    hide NameOf, HasTable, WalksValues, EnsureTable, ResolvedColumns, IsSafeIdentifier, TableBefore;
    forall i | 0 <= i < n - 1 ensures AppliedAt(env, db, after, d, i) {
      assert AppliedAt(env, db, before, d, i) && NameOf(d.tables[i]) != NameOf(d.tables[n - 1]);
      AppliedAtCarries(env, db, before, after, d, i);
    }
  }

  lemma OthersUntouched(env: Environment, db: Database, before: Database, after: Database, d: Definition, n: nat)
    requires WalksValues(env.order) && 0 < n <= |d.tables| && Applied(env, db, before, d, n - 1)
    requires forall x :: HasTable(d.tables[..n], x) <==> HasTable(d.tables[..n - 1], x) || x == NameOf(d.tables[n - 1])
    requires forall x :: x != NameOf(d.tables[n - 1]) ==>
               (x in after <==> x in before) && (x in before ==> after[x] == before[x])
    ensures forall x :: !HasTable(d.tables[..n], x) ==> (x in after <==> x in db) && (x in db ==> after[x] == db[x])
  {
    hide AppliedAt, NameOf, HasTable, WalksValues;
  }

  lemma AppliedFromParts(env: Environment, db: Database, after: Database, d: Definition, n: nat)
    requires WalksValues(env.order) && 0 < n <= |d.tables|
    requires forall x :: !HasTable(d.tables[..n], x) ==> (x in after <==> x in db) && (x in db ==> after[x] == db[x])
    requires AppliedAt(env, db, after, d, n - 1) && forall i :: 0 <= i < n - 1 ==> AppliedAt(env, db, after, d, i)
    ensures Applied(env, db, after, d, n)
  {
    hide AppliedAt, NameOf, HasTable, WalksValues;
  }

  // ---- The publication as a whole ----

  /** Names and resolved columns without repetition, as validation leaves them. */
  ghost predicate WellNamed(env: Environment, d: Definition)
    requires WalksValues(env.order)
  {
    && DistinctTableNames(d.tables)
    && forall i :: 0 <= i < |d.tables| && ResolvedColumns(env, d, d.tables[i]).Ok? ==>
         DistinctNames(ResolvedColumns(env, d, d.tables[i]).value)
  }

  ghost predicate WellNamedPublished(published: Option<Definition>) {
    published.Some? ==> DistinctTableNames(published.value.tables)
  }

  /** The table as it stands between reconciling and applying. */
  lemma MiddleState(env: Environment, db: Database, published: Option<Definition>, next: Definition)
      returns (mid: Database)
    requires WalksValues(env.order) && DistinctTableNames(next.tables) && WellNamedPublished(published)
               && OwnsPhysicalSchema(next)
    requires PublishSchema(env, db, published, next).Ok?
    ensures Applied(env, mid, PublishSchema(env, db, published, next).value, next, |next.tables|)
    ensures published.Some? && OwnsPhysicalSchema(published.value) ==> Reconciled(db, mid, published.value.tables, next)
    ensures published.None? || !OwnsPhysicalSchema(published.value) ==> mid == db
  {
    mid := Reconcile(db, published, next).value;
    if published.Some? && OwnsPhysicalSchema(published.value) {
      ReconcileTablesResult(db, published.value.tables, next);
    }
    ApplyTablesResult(env, mid, next, |next.tables|);
  }

  /** Every table of the new definition exists with every resolved column, at its type and with its nullability. */
  lemma PublishedTablesConform(env: Environment, db: Database, published: Option<Definition>, next: Definition, i: nat)
    requires WalksValues(env.order) && WellNamed(env, next) && WellNamedPublished(published) && OwnsPhysicalSchema(next)
    requires PublishSchema(env, db, published, next).Ok? && i < |next.tables|
    ensures ResolvedColumns(env, next, next.tables[i]).Ok?
    ensures NameOf(next.tables[i]) in PublishSchema(env, db, published, next).value
    ensures Conforms(PublishSchema(env, db, published, next).value[NameOf(next.tables[i])],
                     ResolvedColumns(env, next, next.tables[i]).value)
  {
    hide ResolvedColumns, EnsureTable, NameOf, Conforms, PublishSchema, Reconciled;
    var mid := MiddleState(env, db, published, next);
    assert AppliedAt(env, mid, PublishSchema(env, db, published, next).value, next, i);
    EnsureTableResult(env.numbering, TableBefore(mid, NameOf(next.tables[i])),
                      ResolvedColumns(env, next, next.tables[i]).value);
  }

  /** Tables only in the old definition are gone; tables of neither definition are untouched. */
  lemma PublishDropsOnlyOldTables(env: Environment, db: Database, published: Definition, next: Definition, name: string)
    requires WalksValues(env.order) && WellNamed(env, next) && DistinctTableNames(published.tables)
    requires OwnsPhysicalSchema(next) && OwnsPhysicalSchema(published)
    requires PublishSchema(env, db, Some(published), next).Ok? && name != "" && !HasTable(next.tables, name)
    ensures HasTable(published.tables, name) ==> name !in PublishSchema(env, db, Some(published), next).value
    ensures !HasTable(published.tables, name) ==>
              var after := PublishSchema(env, db, Some(published), next).value;
              (name in after <==> name in db) && (name in db ==> after[name] == db[name])
  {
    hide ResolvedColumns, EnsureTable, NameOf, PublishSchema, DropColumns;
    var mid := MiddleState(env, db, Some(published), next);
    assert next.tables[..|next.tables|] == next.tables;
    NoNextTable(next.tables, name);
  }

  /** A table of both definitions: dropped columns go first, then the table is ensured. */
  lemma PublishPath(env: Environment, db: Database, published: Definition, next: Definition, i: nat, j: nat)
      returns (mid: PhysicalTable)
    requires WalksValues(env.order) && WellNamed(env, next) && DistinctTableNames(published.tables)
    requires OwnsPhysicalSchema(next) && OwnsPhysicalSchema(published)
    requires PublishSchema(env, db, Some(published), next).Ok? && SharedTable(db, published, next, i, j)
    ensures DropColumns(db[NameOf(next.tables[j])], published.tables[i].columns, next.tables[j]) == Ok(mid)
    ensures ResolvedColumns(env, next, next.tables[j]).Ok?
              && DistinctNames(ResolvedColumns(env, next, next.tables[j]).value)
    ensures NameOf(next.tables[j]) in PublishSchema(env, db, Some(published), next).value
    ensures EnsureTable(env.numbering, mid, ResolvedColumns(env, next, next.tables[j]).value)
              == Ok(PublishSchema(env, db, Some(published), next).value[NameOf(next.tables[j])])
  {
    hide ResolvedColumns, EnsureTable, NameOf, PublishSchema, DropColumns, NextTable, DistinctNames;
    var name := NameOf(next.tables[j]);
    var middle := MiddleState(env, db, Some(published), next);
    NextTableIs(next.tables, j);
    ReconciledAt(db, middle, published.tables, next, i);
    assert AppliedAt(env, middle, PublishSchema(env, db, Some(published), next).value, next, j);
    mid := middle[name];
  }

  /** The i-th published table is the j-th of the next definition, and it is in the database. */
  predicate SharedTable(db: Database, published: Definition, next: Definition, i: nat, j: nat) {
    && i < |published.tables| && j < |next.tables|
    && NameOf(published.tables[i]) == NameOf(next.tables[j]) && NameOf(next.tables[j]) != ""
         && NameOf(next.tables[j]) in db
  }

  /**
   * A table in both definitions keeps its rows, and in every row the value of
   * every column that was not dropped and is not an auto-number of the new
   * table.
   */
  lemma PublishKeepsData(env: Environment, db: Database, published: Definition, next: Definition, i: nat, j: nat,
                         x: string)
    requires WalksValues(env.order) && WellNamed(env, next) && DistinctTableNames(published.tables)
    requires OwnsPhysicalSchema(next) && OwnsPhysicalSchema(published)
    requires PublishSchema(env, db, Some(published), next).Ok? && SharedTable(db, published, next, i, j)
    requires !DroppedFrom(published.tables[i].columns, next.tables[j], x)
    requires ResolvedColumns(env, next, next.tables[j]).Ok? ==>
               !IsAutoNumberOf(ResolvedColumns(env, next, next.tables[j]).value, x)
    ensures var name := NameOf(next.tables[j]);
            var after := PublishSchema(env, db, Some(published), next).value;
            name in after && SameCells(db[name].rows, after[name].rows, x)
  {
    hide *;
    SharedNames(db, published, next, i, j);
    var mid := PublishPath(env, db, published, next, i, j);
    var name := NameOf(next.tables[j]);
    KeptThroughDrop(db[name], mid, published.tables[i].columns, next.tables[j], x);
    KeptThroughEnsure(env.numbering, mid, ResolvedColumns(env, next, next.tables[j]).value, x);
    SameCellsTransitive(db[name].rows, mid.rows, PublishSchema(env, db, Some(published), next).value[name].rows, x);
  }

  lemma SharedNames(db: Database, published: Definition, next: Definition, i: nat, j: nat)
    requires SharedTable(db, published, next, i, j)
    ensures i < |published.tables| && j < |next.tables| && NameOf(next.tables[j]) in db
  {}

  /** In particular the columns in the table's own list before and after keep their values. */
  lemma PublishKeepsOwnColumns(env: Environment, db: Database, published: Definition, next: Definition, i: nat, j: nat,
                               x: string)
    requires WalksValues(env.order) && WellNamed(env, next) && DistinctTableNames(published.tables)
    requires OwnsPhysicalSchema(next) && OwnsPhysicalSchema(published)
    requires PublishSchema(env, db, Some(published), next).Ok? && SharedTable(db, published, next, i, j)
    requires HasName(next.tables[j].columns, x)
    requires ResolvedColumns(env, next, next.tables[j]).Ok? ==>
               !IsAutoNumberOf(ResolvedColumns(env, next, next.tables[j]).value, x)
    ensures var name := NameOf(next.tables[j]);
            var after := PublishSchema(env, db, Some(published), next).value;
            name in after && SameCells(db[name].rows, after[name].rows, x)
  {
    hide *;
    SharedNames(db, published, next, i, j);
    OwnIsNotDropped(published.tables[i].columns, next.tables[j], x);
    PublishKeepsData(env, db, published, next, i, j, x);
  }

  lemma OwnIsNotDropped(published: seq<Column>, next: Table, x: string)
    requires HasName(next.columns, x)
    ensures !DroppedFrom(published, next, x)
  {
    hide ColumnName;
  }

  lemma KeptThroughDrop(t: PhysicalTable, mid: PhysicalTable, published: seq<Column>, next: Table, x: string)
    requires DropColumns(t, published, next) == Ok(mid) && !DroppedFrom(published, next, x)
    ensures SameCells(t.rows, mid.rows, x)
  {
    DropColumnsResult(t, published, next);
    hide DropColumns, DroppedFrom, SameCells, TableValid;
  }

  lemma ReconciledAt(db: Database, mid: Database, published: seq<Table>, next: Definition, i: nat)
    requires Reconciled(db, mid, published, next) && i < |published| && NameOf(published[i]) != ""
    requires NextTable(next.tables, NameOf(published[i])).Some? && NameOf(published[i]) in db
    ensures var name := NameOf(published[i]);
            name in mid && DropColumns(db[name], published[i].columns, NextTable(next.tables, name).value) ==
                Ok(mid[name])
  {
    hide NameOf, DropColumns, NextTable;
  }

  lemma KeptThroughEnsure(a: AutoNumbering, t: PhysicalTable, columns: seq<Column>, x: string)
    requires DistinctNames(columns) && EnsureTable(a, t, columns).Ok? && !IsAutoNumberOf(columns, x)
    ensures SameCells(t.rows, EnsureTable(a, t, columns).value.rows, x)
  {
    EnsureTableResult(a, t, columns);
    hide EnsureTable, IsAutoNumberOf, SameCells, Conforms, HasName, TableValid;
  }

  lemma SameCellsTransitive(a: seq<Row>, b: seq<Row>, c: seq<Row>, x: string)
    requires SameCells(a, b, x) && SameCells(b, c, x)
    ensures SameCells(a, c, x)
  {}

  lemma {:induction false} NextTableIs(tables: seq<Table>, j: nat)
    requires DistinctTableNames(tables) && j < |tables|
    ensures NextTable(tables, NameOf(tables[j])) == Some(tables[j])
  {
    hide NameOf;
    if j != |tables| - 1 {
      var front := tables[..|tables| - 1];
      assert forall k :: 0 <= k < |front| ==> front[k] == tables[k];
      NextTableIs(front, j);
    }
  }

  lemma {:induction false} NoNextTable(tables: seq<Table>, name: string)
    requires !HasTable(tables, name)
    ensures NextTable(tables, name).None?
  {
    if tables != [] {
      var front := tables[..|tables| - 1];
      assert forall k :: 0 <= k < |front| ==> front[k] == tables[k];
      NoNextTable(front, name);
    }
  }

  /** No NOT NULL column holds a null afterwards. */
  lemma PublishKeepsValid(env: Environment, db: Database, published: Option<Definition>, next: Definition)
    requires WalksValues(env.order) && WellNamed(env, next) && WellNamedPublished(published) && OwnsPhysicalSchema(next)
    requires DatabaseValid(db) && PublishSchema(env, db, published, next).Ok?
    ensures DatabaseValid(PublishSchema(env, db, published, next).value)
  {
    hide ResolvedColumns, EnsureTable, NameOf, PublishSchema, DropColumns, Conforms;
    var mid := MiddleState(env, db, published, next);
    var after := PublishSchema(env, db, published, next).value;
    assert next.tables[..|next.tables|] == next.tables;
    forall name | name in mid ensures TableValid(mid[name]) {
      if published.Some? && OwnsPhysicalSchema(published.value) && HasTable(published.value.tables, name)
          && name != "" {
        var i :| 0 <= i < |published.value.tables| && NameOf(published.value.tables[i]) == name;
        DropColumnsResult(db[name], published.value.tables[i].columns, NextTable(next.tables, name).value);
      }
    }
    forall name | name in after ensures TableValid(after[name]) {
      if HasTable(next.tables, name) {
        var i :| 0 <= i < |next.tables| && NameOf(next.tables[i]) == name;
        assert AppliedAt(env, mid, after, next, i);
        assert TableValid(TableBefore(mid, name));
        EnsureTableResult(env.numbering, TableBefore(mid, name), ResolvedColumns(env, next, next.tables[i]).value);
      }
    }
  }

  // ---- Publishing the same definition again ----

  lemma {:induction false} ReconcileWithItself(db: Database, d: Definition, n: nat)
    requires DistinctTableNames(d.tables) && n <= |d.tables|
    ensures ReconcileTables(db, d.tables[..n], d) == Ok(db)
  {
    if n != 0 {
      var front, t := d.tables[..n - 1], d.tables[n - 1];
      assert d.tables[..n][..n - 1] == front && d.tables[..n][n - 1] == t;
      ReconcileWithItself(db, d, n - 1);
      hide ColumnName, NameOf, IsSystemColumnName, IsSafeIdentifier;
      NextTableIs(d.tables, n - 1);
      assert DropsNothing(t.columns, t);
    }
  }

  lemma EnsureAgain(env: Environment, db: Database, after: Database, d: Definition, i: nat)
    requires WalksValues(env.order) && LawfulNumbering(env.numbering) && WellNamed(env, d)
    requires i < |d.tables| && AppliedAt(env, db, after, d, i)
    ensures EnsureDefinitionTable(env, after, d.tables[i], ResolvedColumns(env, d, d.tables[i]).value) == Ok(after)
  {
    hide ResolvedColumns, EnsureTable, NameOf, IsSafeIdentifier, LawfulNumbering;
    var t := d.tables[i];
    EnsureTableTwice(env.numbering, TableBefore(db, NameOf(t)), ResolvedColumns(env, d, t).value);
    assert after[NameOf(t) := after[NameOf(t)]] == after;
  }

  lemma ApplyAgainStep(env: Environment, db: Database, after: Database, d: Definition, n: nat)
    requires WalksValues(env.order) && 0 < n <= |d.tables| && AppliedAt(env, db, after, d, n - 1)
    requires ApplyTables(env, after, d, n - 1) == Ok(after)
    requires EnsureDefinitionTable(env, after, d.tables[n - 1], ResolvedColumns(env, d, d.tables[n - 1]).value) ==
               Ok(after)
    ensures ApplyTables(env, after, d, n) == Ok(after)
  {
    hide EnsureDefinitionTable, ResolvedColumns, EnsureTable, NameOf, IsSafeIdentifier;
  }

  lemma AppliedMeansAt(env: Environment, db: Database, after: Database, d: Definition, i: nat)
    requires WalksValues(env.order) && i < |d.tables| && Applied(env, db, after, d, |d.tables|)
    ensures AppliedAt(env, db, after, d, i) && ResolvedColumns(env, d, d.tables[i]).Ok?
    ensures ApplyTables(env, after, d, 0) == Ok(after)
  {
    hide ResolvedColumns, EnsureTable, NameOf, IsSafeIdentifier, HasTable;
  }

  lemma {:induction false} ApplyAgain(env: Environment, db: Database, after: Database, d: Definition, n: nat)
    requires WalksValues(env.order) && LawfulNumbering(env.numbering) && WellNamed(env, d)
    requires n <= |d.tables| && Applied(env, db, after, d, |d.tables|)
    ensures ApplyTables(env, after, d, n) == Ok(after)
  {
    hide *;
    if n == 0 {
      NothingApplied(env, after, d);
    } else {
      ApplyAgain(env, db, after, d, n - 1);
      AppliedMeansAt(env, db, after, d, n - 1);
      EnsureAgain(env, db, after, d, n - 1);
      ApplyAgainStep(env, db, after, d, n);
    }
  }

  /** A second publication of the same definition changes nothing. */
  lemma PublishTwice(env: Environment, db: Database, published: Option<Definition>, next: Definition)
    requires WalksValues(env.order) && LawfulNumbering(env.numbering)
    requires WellNamed(env, next) && WellNamedPublished(published) && OwnsPhysicalSchema(next)
    requires PublishSchema(env, db, published, next).Ok?
    ensures PublishSchema(env, PublishSchema(env, db, published, next).value, Some(next), next) ==
              PublishSchema(env, db, published, next)
  {
    var after := PublishSchema(env, db, published, next).value;
    var mid := MiddleState(env, db, published, next);
    hide ResolvedColumns, EnsureTable, NameOf, IsSafeIdentifier, Applied, WellNamed, ReconcileTables;
    assert WellNamed(env, next) && next.tables[..|next.tables|] == next.tables;
    assert DistinctTableNames(next.tables) by { NamesOfWellNamed(env, next); }
    ReconcileWithItself(after, next, |next.tables|);
    ApplyAgain(env, mid, after, next, |next.tables|);
  }

  lemma NamesOfWellNamed(env: Environment, d: Definition)
    requires WalksValues(env.order) && WellNamed(env, d)
    ensures DistinctTableNames(d.tables)
  {}
}
