/**
 * An app over its life: draft, publication, versions and physical tables
 * (internal/db/AppDefinition.go, AppBuilder.go).
 */
module AppLifecycle {
  import opened Common
  import opened Text
  import opened AppModel
  import opened TableInheritance
  import opened DefinitionValidation
  import opened DefinitionNormalization
  import opened PhysicalSchema
  import opened TableReconciliation
  import opened SchemaPublication
  import opened PublicationTransaction

  /** The `_app` row of an app and the physical tables that carry the app's prefix. */
  datatype AppState = AppState(
    db: Database,
    draft: Option<Definition>,
    published: Option<Definition>,
    draftVersion: nat,
    publishedVersion: nat)

  /** prepareDefinitionForApp: the tables are normalised, and name and namespace must be the app's. */
  datatype Preparation = Preparation(name: string, namespace: string, rules: ColumnRules,
                                     prepare: Definition -> Option<Definition>)

  ghost predicate LawfulPreparation(p: Preparation) {
    forall d :: p.prepare(d).Some? ==>
      && p.prepare(d).value.name == p.name
      && p.prepare(d).value.namespace == p.namespace
      && NormalizeTables(d.tables, p.rules) == Some(p.prepare(d).value.tables)
  }

  /**
   * An operation by a user. `accepted` stands for every check outside this
   * model: validation of the definition, delete dependencies, the connection.
   */
  datatype Step =
    | SaveDraft(definition: Definition, accepted: bool)
    | Publish(accepted: bool)
    | CreateTable(table: string, accepted: bool)
    | CreateColumn(table: string, column: Column, accepted: bool)
    | UpdateColumn(table: string, name: string, prefix: string, isNullable: bool, accepted: bool)
    | DeleteTable(table: string, accepted: bool)
    | DeleteColumn(table: string, name: string, accepted: bool)
    | WriteRows(table: string, rows: seq<Row>)

  datatype World = World(preparation: Preparation, env: Environment)

  function Max(a: nat, b: nat): nat { if a < b then b else a }

  // ---- Drafts and publication ----

  /** CreateApp: an empty draft at version 1, nothing published; a blank namespace is refused. */
  function NewApp(p: Preparation): Option<AppState> {
    if NormalizeIdentifier(p.namespace) == "" then None else
    var empty := p.prepare(Definition(p.name, p.namespace, [], [], []));
    if empty.None? then None else Some(AppState(map[], empty, None, 1, 0))
  }

  function AfterSave(w: World, s: AppState, d: Definition): Option<AppState> {
    var prepared := w.preparation.prepare(d);
    if prepared.None? then None
    else Some(s.(draft := prepared,
                 draftVersion := if s.draft == prepared then s.draftVersion
                     else Max(s.draftVersion, s.publishedVersion) + 1))
  }

  function AfterPublish(w: World, s: AppState): Option<AppState>
    requires WalksValues(w.env.order)
  {
    var source := if s.draft.Some? then s.draft else s.published;
    if source.None? then None else
    var prepared := w.preparation.prepare(source.value);
    if prepared.None? then None else
    var schema := PublishSchema(w.env, s.db, s.published, prepared.value);
    if schema.Err? then None
    else Some(s.(db := schema.value, published := prepared, publishedVersion := Max(s.draftVersion, 1)))
  }

  /** saveAppDefinitionTx: the edited publication becomes both draft and publication, one version up. */
  function AfterBuilderSave(w: World, s: AppState, edited: Definition, db: Database): Option<AppState> {
    var prepared := w.preparation.prepare(edited);
    if prepared.None? then None else
    var version := Max(s.draftVersion, s.publishedVersion) + 1;
    Some(AppState(db, prepared, prepared, version, version))
  }

  // ---- Builder operations ----

  /** The definition the builder edits: the published one, or an empty one. */
  function Edited(w: World, s: AppState): Definition {
    if s.published.Some? then s.published.value else Definition(w.preparation.name, w.preparation.namespace, [], [], [])
  }

  function TableIndex(tables: seq<Table>, name: string): (r: Option<nat>)
    ensures r.Some? ==> r.value < |tables| && tables[r.value].name == name
    ensures r.None? ==> forall t :: t in tables ==> t.name != name
  {
    if tables == [] then None
    else if tables[0].name == name then Some(0)
    else
      var rest := TableIndex(tables[1..], name);
      if rest.Some? then Some(rest.value + 1) else None
  }

  function ColumnIndex(columns: seq<Column>, name: string): (r: Option<nat>)
    ensures r.Some? ==> r.value < |columns| && columns[r.value].name == name
    ensures r.None? ==> forall c :: c in columns ==> c.name != name
  {
    if columns == [] then None
    else if columns[0].name == name then Some(0)
    else
      var rest := ColumnIndex(columns[1..], name);
      if rest.Some? then Some(rest.value + 1) else None
  }

  predicate LegalBuilderName(name: string) {
    IsSafeIdentifier(name) && !("_" <= name) && |name| <= 63
  }

  /** The app as the builder sees it: the saved definition is both its publication and its draft. */
  function BuilderApp(w: World, d: Definition): App {
    App(w.preparation.name, w.preparation.namespace, Some(d), Some(d))
  }

  function BuilderRegistry(w: World, d: Definition, t: Table): Registry {
    Registry(MergeApps(w.env.apps, BuilderApp(w, d)), Link(BuilderApp(w, d), t), w.env.order, w.env.derivePrefix)
  }

  /** resolveDraftTableForAutoNumber: a table's columns, inherited ones included. */
  function DraftColumns(w: World, d: Definition, t: Table): Result<seq<Column>, ResolveError>
    requires WalksValues(w.env.order)
  {
    ResolveColumns(BuilderRegistry(w, d, t), Link(BuilderApp(w, d), t), {})
  }

  /** The i-th table of the saved definition after the auto-numbers of its resolved columns are applied. */
  function WithAutoNumbers(w: World, s: AppState, name: string, i: nat): Option<AppState>
    requires WalksValues(w.env.order)
  {
    if s.published.None? || i >= |s.published.value.tables| || name !in s.db then None else
    var columns := DraftColumns(w, s.published.value, s.published.value.tables[i]);
    if columns.Err? then None else
    var r := ApplyAutoNumbers(w.env.numbering, s.db[name], columns.value);
    if r.Err? then None else Some(s.(db := s.db[name := r.value]))
  }

  function WithNotNull(s: AppState, name: string, column: string): Option<AppState> {
    if name !in s.db then None else
    var r := SetNotNull(s.db[name], column);
    if r.Err? then None else Some(s.(db := s.db[name := r.value]))
  }

  function AfterCreateTable(w: World, s: AppState, rawName: string): Option<AppState> {
    var name := NormalizeIdentifier(rawName);
    var d := Edited(w, s);
    if !LegalBuilderName(name) || TableIndex(d.tables, name).Some? || name in s.db then None
    else AfterBuilderSave(w, s, d.(tables := d.tables + [Table(name, "", false, [])]), s.db[name := NewTable()])
  }

  function WithColumns(d: Definition, i: nat, columns: seq<Column>): Definition
    requires i < |d.tables|
  {
    d.(tables := d.tables[i := d.tables[i].(columns := columns)])
  }

  function AfterCreateColumn(w: World, s: AppState, rawTable: string, column: Column): Option<AppState>
    requires WalksValues(w.env.order)
  {
    var table, name := NormalizeIdentifier(rawTable), ColumnName(column);
    var d := Edited(w, s);
    var i := TableIndex(d.tables, table);
    var sql := BuilderDataTypeToSQL(column.dataType);
    if !IsSafeIdentifier(table) || !LegalBuilderName(name) || sql.None? || s.published.None? || i.None?
        || table !in s.db then None
    else if ColumnIndex(d.tables[i.value].columns, name).Some? then None
    else
      var isAuto := column.dataType.AutoNumber?;
      if !column.isNullable && !isAuto && s.db[table].rows != [] then None else
      var added := AddColumn(s.db[table], name, PhysicalColumn(sql.value, column.isNullable || isAuto));
      if added.Err? then None else
      var saved := AfterBuilderSave(w, s, WithColumns(d, i.value, d.tables[i.value].columns + [column.(name := name)]),
                                    s.db[table := added.value]);
      if saved.None? then None else
      var numbered := WithAutoNumbers(w, saved.value, table, i.value);
      if numbered.None? || column.isNullable || !isAuto then numbered else WithNotNull(numbered.value, table, name)
  }

  /** The nullability change UpdateAppColumn makes at once; for an auto-number NOT NULL is deferred. */
  function ChangedNullability(t: PhysicalTable, name: string, current: Column,
                              isNullable: bool): Result<PhysicalTable, SchemaError> {
    if current.isNullable == isNullable then Ok(t)
    else if isNullable then DropNotNull(t, name)
    else if current.dataType.AutoNumber? then Ok(t)
    else SetNotNull(t, name)
  }

  function AfterUpdateColumn(w: World, s: AppState, rawTable: string, rawName: string, prefix: string,
                             isNullable: bool): Option<AppState>
    requires WalksValues(w.env.order)
  {
    var table, name := NormalizeIdentifier(rawTable), NormalizeIdentifier(rawName);
    var d := Edited(w, s);
    var i := TableIndex(d.tables, table);
    if !IsSafeIdentifier(table) || !IsSafeIdentifier(name) || "_" <= name || s.published.None? || i.None?
        || table !in s.db then None else
    var j := ColumnIndex(d.tables[i.value].columns, name);
    if j.None? then None else
    var current := d.tables[i.value].columns[j.value];
    var changed := ChangedNullability(s.db[table], name, current, isNullable);
    if changed.Err? then None else
    var newPrefix := if current.dataType.AutoNumber? && prefix == "" then current.prefix else prefix;
    var columns := d.tables[i.value].columns[j.value := current.(isNullable := isNullable, prefix := newPrefix)];
    var saved := AfterBuilderSave(w, s, WithColumns(d, i.value, columns), s.db[table := changed.value]);
    if saved.None? then None else
    var numbered := WithAutoNumbers(w, saved.value, table, i.value);
    if numbered.None? || current.isNullable == isNullable || isNullable || !current.dataType.AutoNumber? then numbered
    else WithNotNull(numbered.value, table, name)
  }

  function AfterDeleteTable(w: World, s: AppState, rawTable: string): Option<AppState> {
    var table := NormalizeIdentifier(rawTable);
    var d := Edited(w, s);
    var i := TableIndex(d.tables, table);
    if !IsSafeIdentifier(table) || s.published.None? || i.None? || table !in s.db || s.db[table].rows != [] then None
    else AfterBuilderSave(w, s, d.(tables := d.tables[..i.value] + d.tables[i.value + 1..]), s.db - {table})
  }

  function AfterDeleteColumn(w: World, s: AppState, rawTable: string, rawName: string): Option<AppState>
    requires WalksValues(w.env.order)
  {
    var table, name := NormalizeIdentifier(rawTable), NormalizeIdentifier(rawName);
    var d := Edited(w, s);
    var i := TableIndex(d.tables, table);
    if !IsSafeIdentifier(table) || !IsSafeIdentifier(name) || "_" <= name || s.published.None? || i.None?
        || table !in s.db then None else
    var j := ColumnIndex(d.tables[i.value].columns, name);
    if j.None? || s.db[table].rows != [] then None else
    var columns := d.tables[i.value].columns[..j.value] + d.tables[i.value].columns[j.value + 1..];
    var saved := AfterBuilderSave(w, s, WithColumns(d, i.value, columns), s.db[table := DropColumn(s.db[table], name)]);
    if saved.None? then None else WithAutoNumbers(w, saved.value, table, i.value)
  }

  /** Records written by users: the engine refuses rows that break the table's constraints. */
  ghost function AfterWrite(s: AppState, table: string, rows: seq<Row>): Option<AppState> {
    if table !in s.db || !TableValid(s.db[table].(rows := rows)) then None
    else Some(s.(db := s.db[table := s.db[table].(rows := rows)]))
  }

  /** What an operation makes of the app, or None when it is refused or fails. */
  ghost function Outcome(w: World, s: AppState, step: Step): Option<AppState>
    requires WalksValues(w.env.order)
  {
    match step
    case SaveDraft(d, ok) => if ok then AfterSave(w, s, d) else None
    case Publish(ok) => if ok then AfterPublish(w, s) else None
    case CreateTable(t, ok) => if ok then AfterCreateTable(w, s, t) else None
    case CreateColumn(t, c, ok) => if ok then AfterCreateColumn(w, s, t, c) else None
    case UpdateColumn(t, c, p, n, ok) => if ok then AfterUpdateColumn(w, s, t, c, p, n) else None
    case DeleteTable(t, ok) => if ok then AfterDeleteTable(w, s, t) else None
    case DeleteColumn(t, c, ok) => if ok then AfterDeleteColumn(w, s, t, c) else None
    case WriteRows(t, rows) => AfterWrite(s, t, rows)
  }

  /** One operation; a refused or failed one leaves everything as it was. */
  ghost function Perform(w: World, s: AppState, step: Step): AppState
    requires WalksValues(w.env.order)
  {
    var after := Outcome(w, s, step);
    if after.Some? then after.value else s
  }

  /** One step of a run, in the environment that the other apps happen to be in when it is taken. */
  datatype Move = Move(env: Environment, step: Step)

  ghost predicate Walkable(moves: seq<Move>) {
    forall i :: 0 <= i < |moves| ==> WalksValues(moves[i].env.order)
  }

  ghost function Run(p: Preparation, s: AppState, moves: seq<Move>): AppState
    requires Walkable(moves)
  {
    if moves == [] then s else
    var last := moves[|moves| - 1];
    Perform(World(p, last.env), Run(p, s, moves[..|moves| - 1]), last.step)
  }

  // ---- Versions ----

  /**
   * Published never overtakes draft, and equal versions mean the publication is
   * the draft, up to preparing it again.
   */
  predicate VersionsTruthful(p: Preparation, s: AppState) {
    && s.draft.Some?
    && 1 <= s.draftVersion
    && s.publishedVersion <= s.draftVersion
    && (s.publishedVersion == s.draftVersion ==>
          s.published.Some? && (s.published == s.draft || s.published == p.prepare(s.draft.value)))
  }

  /** The flag shown beside an app. */
  predicate HasUnpublishedDraft(s: AppState) { s.draftVersion > s.publishedVersion }

  lemma StepKeepsVersions(w: World, s: AppState, step: Step)
    requires WalksValues(w.env.order) && VersionsTruthful(w.preparation, s)
    ensures VersionsTruthful(w.preparation, Perform(w, s, step))
    ensures s.draftVersion <= Perform(w, s, step).draftVersion
    ensures s.publishedVersion <= Perform(w, s, step).publishedVersion
  {
    hide PublishSchema, ApplyAutoNumbers, SetNotNull, AddColumn, TableValid, NormalizeIdentifier, LegalBuilderName,
         IsSafeIdentifier, ChangedNullability, WalksValues;
    match step
    case CreateColumn(t, c, ok) => CreateColumnVersions(w, s, t, c);
    case UpdateColumn(t, c, p, n, ok) => UpdateColumnVersions(w, s, t, c, p, n);
    case DeleteColumn(t, c, ok) => DeleteColumnVersions(w, s, t, c);
    case _ =>
  }

  predicate SavedVersions(s: AppState, r: AppState) {
    && r.draft.Some? && r.draft == r.published
    && r.draftVersion == r.publishedVersion == Max(s.draftVersion, s.publishedVersion) + 1
  }

  lemma CreateColumnVersions(w: World, s: AppState, table: string, column: Column)
    requires WalksValues(w.env.order)
    ensures AfterCreateColumn(w, s, table, column).Some? ==>
              SavedVersions(s, AfterCreateColumn(w, s, table, column).value)
  {
    hide ApplyAutoNumbers, SetNotNull, AddColumn, NormalizeIdentifier, LegalBuilderName, IsSafeIdentifier, ColumnIndex,
         TableIndex, BuilderDataTypeToSQL;
  }

  lemma UpdateColumnVersions(w: World, s: AppState, table: string, name: string, prefix: string, isNullable: bool)
    requires WalksValues(w.env.order)
    ensures AfterUpdateColumn(w, s, table, name, prefix, isNullable).Some? ==>
              SavedVersions(s, AfterUpdateColumn(w, s, table, name, prefix, isNullable).value)
  {
    hide ApplyAutoNumbers, SetNotNull, ChangedNullability, NormalizeIdentifier, IsSafeIdentifier, ColumnIndex,
         TableIndex;
  }

  lemma DeleteColumnVersions(w: World, s: AppState, table: string, name: string)
    requires WalksValues(w.env.order)
    ensures AfterDeleteColumn(w, s, table, name).Some? ==> SavedVersions(s, AfterDeleteColumn(w, s, table, name).value)
  {
    hide ApplyAutoNumbers, DropColumn, NormalizeIdentifier, IsSafeIdentifier, ColumnIndex, TableIndex;
  }

  /** Over every run both versions only grow, and "no unpublished draft" is always truthful. */
  lemma {:induction false} RunKeepsVersions(p: Preparation, s: AppState, moves: seq<Move>)
    requires Walkable(moves) && VersionsTruthful(p, s)
    ensures VersionsTruthful(p, Run(p, s, moves))
    ensures s.draftVersion <= Run(p, s, moves).draftVersion && s.publishedVersion <= Run(p, s, moves).publishedVersion
    ensures var r := Run(p, s, moves);
            !HasUnpublishedDraft(r) ==>
                r.published.Some? && (r.published == r.draft || r.published == p.prepare(r.draft.value))
  {
    if moves != [] {
      hide Perform, WalksValues;
      var front, last := moves[..|moves| - 1], moves[|moves| - 1];
      RunKeepsVersions(p, s, front);
      StepKeepsVersions(World(p, last.env), Run(p, s, front), last.step);
    }
  }

  lemma NewAppVersions(p: Preparation)
    requires NewApp(p).Some?
    ensures VersionsTruthful(p, NewApp(p).value)
  {}
}
