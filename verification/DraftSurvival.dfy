/**
 * What a builder operation does to a draft that has not been published
 * (internal/db/AppBuilder.go, AppDefinition.go).
 */
module DraftSurvival {
  import opened Common
  import opened Text
  import opened AppModel
  import opened DefinitionNormalization
  import opened PhysicalSchema
  import opened TableReconciliation
  import opened SchemaPublication
  import opened AppLifecycle

  // ---- Content ----

  /** What a builder operation names: a table, or a column of a table. */
  datatype Target = Target(table: string, column: Option<string>)

  predicate IsBuilderStep(step: Step) {
    step.CreateTable? || step.CreateColumn? || step.UpdateColumn? || step.DeleteTable? || step.DeleteColumn?
  }

  function TargetOf(step: Step): Target
    requires IsBuilderStep(step)
  {
    match step
    case CreateTable(t, _) => Target(NormalizeIdentifier(t), None)
    case CreateColumn(t, c, _) => Target(NormalizeIdentifier(t), Some(ColumnName(c)))
    case UpdateColumn(t, c, _, _, _) => Target(NormalizeIdentifier(t), Some(NormalizeIdentifier(c)))
    case DeleteTable(t, _) => Target(NormalizeIdentifier(t), None)
    case DeleteColumn(t, c, _) => Target(NormalizeIdentifier(t), Some(NormalizeIdentifier(c)))
  }

  datatype Item = WholeTable(table: Table) | TableHead(base: string, extensible: bool) | OneColumn(column: Column)

  /** Of a list of tables everything but the target. */
  function Others(tables: seq<Table>, target: Target): set<Item> {
    (set t | t in tables && t.name != target.table :: WholeTable(t))
    + (if target.column.None? then {} else
         (set t | t in tables && t.name == target.table :: TableHead(t.base, t.extensible))
         + (set t, c | t in tables && t.name == target.table && c in t.columns && c.name != target.column.value ::
              OneColumn(c)))
  }

  datatype Content = Content(dependencies: seq<string>, services: seq<Service>, items: set<Item>)

  /** What a definition holds beside the target of an operation. */
  function Untouched(d: Definition, target: Target): Content {
    Content(d.dependencies, d.services, Others(d.tables, target))
  }

  // ---- Definitions that are prepared already ----

  /** Preparing twice is preparing once, and what it makes of dependencies and services is not up to the tables. */
  ghost predicate SteadyPreparation(p: Preparation) {
    && LawfulPreparation(p)
    && (forall d :: p.prepare(d).Some? ==> p.prepare(p.prepare(d).value) == p.prepare(d))
    && (forall d, tables :: p.prepare(d).Some? && p.prepare(d.(tables := tables)).Some? ==>
          && p.prepare(d.(tables := tables)).value.dependencies == p.prepare(d).value.dependencies
          && p.prepare(d.(tables := tables)).value.services == p.prepare(d).value.services)
    && (forall d :: p.prepare(d).Some? && d.dependencies == [] && d.services == [] ==>
          p.prepare(d).value.dependencies == [] && p.prepare(d).value.services == [])
  }

  function EmptyDefinition(p: Preparation): Definition { Definition(p.name, p.namespace, [], [], []) }

  predicate Prepared(p: Preparation, d: Definition) { p.prepare(d) == Some(d) }

  /** Every stored definition has been prepared. */
  predicate PreparedState(p: Preparation, s: AppState) {
    && Prepared(p, EmptyDefinition(p))
    && (s.draft.Some? ==> Prepared(p, s.draft.value))
    && (s.published.Some? ==> Prepared(p, s.published.value))
  }

  lemma NewAppIsPrepared(p: Preparation)
    requires SteadyPreparation(p) && NewApp(p).Some?
    ensures PreparedState(p, NewApp(p).value)
  {
    var empty := EmptyDefinition(p);
    assert NormalizeTables([], p.rules) == Some([]);
    assert p.prepare(empty).value == empty;
  }

  /** What a step stores as draft or publication was there before, or has been prepared. */
  ghost predicate StoredOrPrepared(p: Preparation, before: AppState, d: Option<Definition>) {
    d.None? || d == before.draft || d == before.published || exists e :: p.prepare(e) == d
  }

  lemma OutcomeIsPrepared(w: World, s: AppState, step: Step)
    requires WalksValues(w.env.order)
    ensures var r := Perform(w, s, step);
            StoredOrPrepared(w.preparation, s, r.draft) && StoredOrPrepared(w.preparation, s, r.published)
  {
    hide WalksValues, WithAutoNumbers, WithNotNull, StoredOrPrepared;
    var p, r := w.preparation, Perform(w, s, step);
    Unchanged(p, s);
    match step
    case SaveDraft(d, _) => PreparedIs(p, s, d);
    case Publish(_) =>
      hide PublishSchema;
      if s.draft.Some? { PreparedIs(p, s, s.draft.value); }
      if s.published.Some? { PreparedIs(p, s, s.published.value); }
    case WriteRows(_, _) =>
    case _ =>
      if Outcome(w, s, step).Some? {
        BuilderSaves(w, s, step);
        PreparedIs(p, s, EditOf(w, s, step));
      }
  }

  lemma Unchanged(p: Preparation, s: AppState)
    ensures StoredOrPrepared(p, s, s.draft) && StoredOrPrepared(p, s, s.published)
  {}

  lemma PreparedIs(p: Preparation, s: AppState, d: Definition)
    ensures StoredOrPrepared(p, s, p.prepare(d))
  {}

  /** Over every run from a new app all stored definitions are prepared. */
  lemma {:induction false} RunKeepsPrepared(p: Preparation, s: AppState, moves: seq<Move>)
    requires SteadyPreparation(p) && PreparedState(p, s) && Walkable(moves)
    ensures PreparedState(p, Run(p, s, moves))
  {
    if moves != [] {
      hide Perform, WalksValues;
      var front, last := moves[..|moves| - 1], moves[|moves| - 1];
      RunKeepsPrepared(p, s, front);
      OutcomeIsPrepared(World(p, last.env), Run(p, s, front), last.step);
    }
  }

  // ---- The edit of a builder step ----

  /** The definition a successful builder step hands to the save. */
  function EditOf(w: World, s: AppState, step: Step): Definition
    requires IsBuilderStep(step)
  {
    var d, target := Edited(w, s), TargetOf(step);
    var i := TableIndex(d.tables, target.table);
    if step.CreateTable? then d.(tables := d.tables + [Table(target.table, "", false, [])])
    else if i.None? then d
    else if step.DeleteTable? then d.(tables := d.tables[..i.value] + d.tables[i.value + 1..])
    else
      var columns := d.tables[i.value].columns;
      var j := ColumnIndex(columns, target.column.value);
      match step
      case CreateColumn(_, c, _) => WithColumns(d, i.value, columns + [c.(name := target.column.value)])
      case UpdateColumn(_, _, prefix, isNullable, _) =>
        if j.None? then d else
        var c := columns[j.value];
        var newPrefix := if c.dataType.AutoNumber? && prefix == "" then c.prefix else prefix;
        WithColumns(d, i.value, columns[j.value := c.(isNullable := isNullable, prefix := newPrefix)])
      case DeleteColumn(_, _, _) =>
        if j.None? then d else WithColumns(d, i.value, columns[..j.value] + columns[j.value + 1..])
  }

  /** The saved definition, prepared, is both draft and publication. */
  lemma BuilderSaves(w: World, s: AppState, step: Step)
    requires WalksValues(w.env.order) && IsBuilderStep(step) && Outcome(w, s, step).Some?
    ensures var r := Outcome(w, s, step).value;
            r.draft.Some? && r.draft == r.published == w.preparation.prepare(EditOf(w, s, step))
    ensures step.CreateTable? || TableIndex(Edited(w, s).tables, TargetOf(step).table).Some?
  {
    hide WalksValues, NormalizeIdentifier, IsSafeIdentifier, LegalBuilderName, TableIndex, ColumnIndex, DraftColumns,
         ApplyAutoNumbers, SetNotNull, AddColumn, DropColumn, ChangedNullability, BuilderDataTypeToSQL;
  }

  lemma OthersAppend(tables: seq<Table>, t: Table, target: Target)
    requires target.column.None? && t.name == target.table
    ensures Others(tables + [t], target) == Others(tables, target)
  {}

  lemma OthersRemove(tables: seq<Table>, i: nat, target: Target)
    requires i < |tables| && target.column.None? && tables[i].name == target.table
    ensures Others(tables[..i] + tables[i + 1..], target) == Others(tables, target)
  {
    var rest := tables[..i] + tables[i + 1..];
    forall t | t in tables && t.name != target.table ensures t in rest {
      var k :| 0 <= k < |tables| && tables[k] == t;
      assert rest[if k < i then k else k - 1] == t;
    }
  }

  /** Columns that differ in nothing but the column of that name. */
  ghost predicate SameButFor(before: seq<Column>, after: seq<Column>, name: string) {
    forall c: Column :: c.name != name ==> (c in before <==> c in after)
  }

  lemma OthersReplace(tables: seq<Table>, i: nat, columns: seq<Column>, target: Target)
    requires i < |tables| && target.column.Some? && tables[i].name == target.table
    requires SameButFor(tables[i].columns, columns, target.column.value)
    ensures Others(tables[i := tables[i].(columns := columns)], target) == Others(tables, target)
  {
    hide *;
    var after := tables[i := tables[i].(columns := columns)];
    SameSymmetric(tables[i].columns, columns, target.column.value);
    assert after[i].columns == columns && after[i := after[i].(columns := tables[i].columns)] == tables;
    OthersWithin(tables, i, columns, target);
    OthersWithin(after, i, tables[i].columns, target);
  }

  lemma SameSymmetric(a: seq<Column>, b: seq<Column>, name: string)
    requires SameButFor(a, b, name)
    ensures SameButFor(b, a, name)
  {}

  lemma OthersWithin(tables: seq<Table>, i: nat, columns: seq<Column>, target: Target)
    requires i < |tables| && target.column.Some? && tables[i].name == target.table
    requires SameButFor(tables[i].columns, columns, target.column.value)
    ensures Others(tables, target) <= Others(tables[i := tables[i].(columns := columns)], target)
  {
    var after := tables[i := tables[i].(columns := columns)];
    forall t | t in tables
      ensures t.name != target.table ==> t in after
      ensures t.name == target.table ==> exists u :: u in after && HoldsRest(u, t, target.column.value)
    {
      var k :| 0 <= k < |tables| && tables[k] == t;
      assert after[k] in after;
      if t.name == target.table { assert HoldsRest(after[k], t, target.column.value); }
    }
    forall x | x in Others(tables, target) ensures x in Others(after, target) {
      match x
      case WholeTable(t) =>
      case TableHead(base, extensible) =>
        var t :| t in tables && t.name == target.table && t.base == base && t.extensible == extensible;
        var u :| u in after && HoldsRest(u, t, target.column.value);
      case OneColumn(c) =>
        var t :| t in tables && t.name == target.table && c in t.columns && c.name != target.column.value;
        var u :| u in after && HoldsRest(u, t, target.column.value);
        assert c in u.columns;
    }
  }

  /** The same table but for one column. */
  ghost predicate HoldsRest(u: Table, t: Table, column: string) {
    u.name == t.name && u.base == t.base && u.extensible == t.extensible && SameButFor(t.columns, u.columns, column)
  }

  /** The edit leaves everything but the target. */
  lemma EditKeepsOthers(w: World, s: AppState, step: Step)
    requires IsBuilderStep(step) && (step.CreateTable? || TableIndex(Edited(w, s).tables, TargetOf(step).table).Some?)
    ensures Others(EditOf(w, s, step).tables, TargetOf(step)) == Others(Edited(w, s).tables, TargetOf(step))
  {
    hide Others, NormalizeIdentifier, SameButFor, Edited, TableIndex, ColumnIndex;
    var tables, target := Edited(w, s).tables, TargetOf(step);
    if step.CreateTable? {
      OthersAppend(tables, Table(target.table, "", false, []), target);
    } else {
      var i := TableIndex(tables, target.table).value;
      if step.DeleteTable? {
        OthersRemove(tables, i, target);
      } else {
        var j := ColumnIndex(tables[i].columns, target.column.value);
        match step
        case CreateColumn(_, c, _) =>
          ColumnAdded(tables[i].columns, c.(name := target.column.value));
          OthersReplace(tables, i, tables[i].columns + [c.(name := target.column.value)], target);
        case UpdateColumn(_, _, prefix, isNullable, _) =>
          if j.Some? {
            var c := tables[i].columns[j.value];
            var newPrefix := if c.dataType.AutoNumber? && prefix == "" then c.prefix else prefix;
            var changed := c.(isNullable := isNullable, prefix := newPrefix);
            ColumnReplaced(tables[i].columns, j.value, changed);
            OthersReplace(tables, i, tables[i].columns[j.value := changed], target);
          }
        case DeleteColumn(_, _, _) =>
          if j.Some? {
            ColumnRemoved(tables[i].columns, j.value);
            OthersReplace(tables, i, tables[i].columns[..j.value] + tables[i].columns[j.value + 1..], target);
          }
      }
    }
  }

  lemma ColumnAdded(columns: seq<Column>, c: Column)
    ensures SameButFor(columns, columns + [c], c.name)
  {}

  lemma ColumnReplaced(columns: seq<Column>, j: nat, c: Column)
    requires j < |columns| && columns[j].name == c.name
    ensures SameButFor(columns, columns[j := c], c.name)
  {
    var after := columns[j := c];
    forall x: Column | x.name != c.name ensures x in columns <==> x in after {
      if x in columns {
        var k :| 0 <= k < |columns| && columns[k] == x;
        assert after[k] == x;
      }
      if x in after {
        var k :| 0 <= k < |after| && after[k] == x;
        assert columns[k] == x;
      }
    }
  }

  lemma ColumnRemoved(columns: seq<Column>, j: nat)
    requires j < |columns|
    ensures SameButFor(columns, columns[..j] + columns[j + 1..], columns[j].name)
  {
    var after := columns[..j] + columns[j + 1..];
    forall x: Column | x.name != columns[j].name && x in columns ensures x in after {
      var k :| 0 <= k < |columns| && columns[k] == x;
      assert after[if k < j then k else k - 1] == x;
    }
  }

  // ---- Normalisation leaves what was normalised before ----

  lemma {:induction false} ColumnsElementwise(columns: seq<Column>, rules: ColumnRules)
    requires NormalizeColumns(columns, rules).Some?
    ensures var n := NormalizeColumns(columns, rules).value;
            |n| == |columns| && forall k :: 0 <= k < |columns| ==> n[k] == NormalizeColumn(columns[k], rules)
  {
    if columns != [] {
      hide NormalizeColumn, NormalizeColumns;
      var front, c := columns[..|columns| - 1], columns[|columns| - 1];
      assert columns == front + [c];
      NormalizeColumnsUnfold(front, c, rules);
      ColumnsElementwise(front, rules);
    }
  }

  lemma NormalizeColumnsUnfold(front: seq<Column>, c: Column, rules: ColumnRules)
    requires NormalizeColumns(front + [c], rules).Some?
    ensures NormalizeColumns(front, rules).Some?
    ensures NormalizeColumns(front + [c], rules).value ==
              NormalizeColumns(front, rules).value + [NormalizeColumn(c, rules)]
  {
    hide NormalizeColumn, IsSafeIdentifier, ColumnNames, AllowedColumn;
    assert (front + [c])[..|front|] == front;
  }

  predicate NormalisesTo(t: Table, n: Table, rules: ColumnRules) {
    NormalizeColumns(t.columns, rules).Some? && n == NormalForm(t, NormalizeColumns(t.columns, rules).value)
  }

  predicate AllNormaliseTo(tables: seq<Table>, n: seq<Table>, rules: ColumnRules) {
    |n| == |tables| && forall k :: 0 <= k < |tables| ==> NormalisesTo(tables[k], n[k], rules)
  }

  lemma {:induction false} TablesElementwise(tables: seq<Table>, rules: ColumnRules)
    requires NormalizeTables(tables, rules).Some?
    ensures AllNormaliseTo(tables, NormalizeTables(tables, rules).value, rules)
  {
    hide *;
    if tables == [] {
      NothingNormalises(rules);
    } else {
      var front, t := tables[..|tables| - 1], tables[|tables| - 1];
      assert tables == front + [t];
      NormalizeTablesUnfold(front, t, rules);
      TablesElementwise(front, rules);
      OneMoreNormalises(front, NormalizeTables(front, rules).value, t, rules);
    }
  }

  lemma NothingNormalises(rules: ColumnRules)
    ensures NormalizeTables([], rules) == Some([]) && AllNormaliseTo([], [], rules)
  {}

  lemma OneMoreNormalises(front: seq<Table>, n: seq<Table>, t: Table, rules: ColumnRules)
    requires AllNormaliseTo(front, n, rules) && NormalizeColumns(t.columns, rules).Some?
    ensures AllNormaliseTo(front + [t], n + [NormalForm(t, NormalizeColumns(t.columns, rules).value)], rules)
  {
    hide NormalForm, NormalizeColumns;
  }

  /** A table or column that normalisation maps to itself. */
  predicate FixedColumn(c: Column, rules: ColumnRules) { NormalizeColumn(c, rules) == c }

  predicate FixedTable(t: Table, rules: ColumnRules) {
    && NormalizeColumns(t.columns, rules) == Some(t.columns) && NormalForm(t, t.columns) == t
    && forall c :: c in t.columns ==> FixedColumn(c, rules)
  }

  lemma NormalizedTablesAreFixed(tables: seq<Table>, rules: ColumnRules)
    requires NormalizeTables(tables, rules) == Some(tables)
    ensures forall t :: t in tables ==> FixedTable(t, rules)
  {
    TablesElementwise(tables, rules);
    forall t | t in tables ensures FixedTable(t, rules) {
      var k :| 0 <= k < |tables| && tables[k] == t;
      NormalFormParts(t, NormalizeColumns(t.columns, rules).value);
      ColumnsElementwise(t.columns, rules);
      hide NormalizeColumns, NormalizeTables, NormalizeColumn;
    }
  }

  predicate NormalTarget(target: Target) {
    && NormalizeIdentifier(target.table) == target.table
    && (target.column.Some? ==> NormalizeIdentifier(target.column.value) == target.column.value)
  }

  lemma TargetIsNormal(step: Step)
    requires IsBuilderStep(step)
    ensures NormalTarget(TargetOf(step))
  {
    match step
    case CreateTable(t, _) => NormalizeIdempotent(t);
    case CreateColumn(t, c, _) => NormalizeIdempotent(t); NormalizeIdempotent(c.name);
    case UpdateColumn(t, c, _, _, _) => NormalizeIdempotent(t); NormalizeIdempotent(c);
    case DeleteTable(t, _) => NormalizeIdempotent(t);
    case DeleteColumn(t, c, _) => NormalizeIdempotent(t); NormalizeIdempotent(c);
  }

  /** What a table contributes beside the target. */
  function Share(t: Table, target: Target): set<Item> {
    if t.name != target.table then {WholeTable(t)}
    else if target.column.None? then {}
    else {TableHead(t.base, t.extensible)} + set c | c in t.columns && c.name != target.column.value :: OneColumn(c)
  }

  lemma OthersAreShares(tables: seq<Table>, target: Target)
    ensures forall x :: x in Others(tables, target) <==> exists t :: t in tables && x in Share(t, target)
  {}

  /** Of a table whose share was normalised before, normalisation changes no more than the target. */
  lemma ShareIsKept(t: Table, target: Target, rules: ColumnRules)
    requires NormalizeColumns(t.columns, rules).Some? && NormalTarget(target)
    requires t.name != target.table ==> FixedTable(t, rules)
    requires t.name == target.table && target.column.Some? ==>
               && NormalizeIdentifier(t.base) == t.base
               && forall c :: c in t.columns && c.name != target.column.value ==> FixedColumn(c, rules)
    ensures Share(NormalForm(t, NormalizeColumns(t.columns, rules).value), target) == Share(t, target)
  {
    hide NormalizeIdentifier;
    ColumnsElementwise(t.columns, rules);
    var n := NormalizeColumns(t.columns, rules).value;
    hide NormalizeColumns;
    if t.name == target.table && target.column.Some? {
      var name := target.column.value;
      forall c: Column | c.name != name ensures c in n <==> c in t.columns {
        if c in n {
          var k :| 0 <= k < |n| && n[k] == c;
          assert t.columns[k] in t.columns;
        }
        if c in t.columns {
          var k :| 0 <= k < |t.columns| && t.columns[k] == c;
          assert n[k] == c;
        }
      }
    }
  }

  lemma NormalizingKeepsOthers(before: seq<Table>, after: seq<Table>, target: Target, rules: ColumnRules)
    requires NormalizeTables(before, rules) == Some(before) && NormalizeTables(after, rules).Some?
    requires NormalTarget(target) && Others(after, target) == Others(before, target)
    ensures Others(NormalizeTables(after, rules).value, target) == Others(before, target)
  {
    hide *;
    NormalizedTablesAreFixed(before, rules);
    TablesElementwise(after, rules);
    OthersAreShares(before, target);
    OthersAreShares(after, target);
    var n := NormalizeTables(after, rules).value;
    OthersAreShares(n, target);
    NormalisesAt(after, n, rules);
    forall k | 0 <= k < |after| ensures Share(n[k], target) == Share(after[k], target) {
      SharesWereFixed(before, after[k], target, rules);
      ShareIsKept(after[k], target, rules);
    }
    forall x ensures x in Others(n, target) <==> x in Others(after, target) {
      if x in Others(n, target) {
        var t :| t in n && x in Share(t, target);
        var k :| 0 <= k < |n| && n[k] == t;
        assert after[k] in after;
      }
      if x in Others(after, target) {
        var t :| t in after && x in Share(t, target);
        var k :| 0 <= k < |after| && after[k] == t;
        assert n[k] in n;
      }
    }
  }

  lemma NormalisesAt(tables: seq<Table>, n: seq<Table>, rules: ColumnRules)
    requires AllNormaliseTo(tables, n, rules)
    ensures |n| == |tables|
    ensures forall k :: 0 <= k < |tables| ==>
              && NormalizeColumns(tables[k].columns, rules).Some?
              && n[k] == NormalForm(tables[k], NormalizeColumns(tables[k].columns, rules).value)
  {
    hide NormalForm, NormalizeColumns;
    forall k | 0 <= k < |tables| ensures NormalisesTo(tables[k], n[k], rules) {}
  }

  /** The share of an edited table comes from tables that were normalised. */
  lemma SharesWereFixed(before: seq<Table>, t: Table, target: Target, rules: ColumnRules)
    requires forall b :: b in before ==> FixedTable(b, rules)
    requires Share(t, target) <= Others(before, target)
    ensures t.name != target.table ==> FixedTable(t, rules)
    ensures t.name == target.table && target.column.Some? ==>
              && NormalizeIdentifier(t.base) == t.base
              && forall c :: c in t.columns && c.name != target.column.value ==> FixedColumn(c, rules)
  {
    hide NormalizeIdentifier, FixedColumn, NormalizeColumns;
    if t.name != target.table {
      assert WholeTable(t) in Share(t, target);
    } else if target.column.Some? {
      assert TableHead(t.base, t.extensible) in Share(t, target);
      forall c | c in t.columns && c.name != target.column.value ensures FixedColumn(c, rules) {
        assert OneColumn(c) in Share(t, target);
      }
    }
  }

  // ---- What survives ----

  /** After a builder step the draft holds, beside the target, what the publication held. */
  lemma BuilderStepContent(w: World, s: AppState, step: Step)
    requires WalksValues(w.env.order) && SteadyPreparation(w.preparation) && PreparedState(w.preparation, s)
    requires IsBuilderStep(step) && Outcome(w, s, step).Some?
    ensures var r := Outcome(w, s, step).value;
            && r.draft.Some? && r.draft == r.published
            && Untouched(r.draft.value, TargetOf(step)) == Untouched(Edited(w, s), TargetOf(step))
  {
    hide *;
    BuilderSaves(w, s, step);
    EditKeepsOthers(w, s, step);
    TargetIsNormal(step);
    PreparedEdit(w, s, step);
    NormalizingKeepsOthers(Edited(w, s).tables, EditOf(w, s, step).tables, TargetOf(step), w.preparation.rules);
    UntouchedParts(Edited(w, s), Outcome(w, s, step).value.draft.value, TargetOf(step));
  }

  lemma UntouchedParts(a: Definition, b: Definition, target: Target)
    requires a.dependencies == b.dependencies && a.services == b.services
    requires Others(a.tables, target) == Others(b.tables, target)
    ensures Untouched(b, target) == Untouched(a, target)
  {}

  lemma PreparedEdit(w: World, s: AppState, step: Step)
    requires SteadyPreparation(w.preparation) && PreparedState(w.preparation, s)
    requires IsBuilderStep(step) && w.preparation.prepare(EditOf(w, s, step)).Some?
    ensures var d, e := Edited(w, s), w.preparation.prepare(EditOf(w, s, step)).value;
            && NormalizeTables(d.tables, w.preparation.rules) == Some(d.tables)
            && NormalizeTables(EditOf(w, s, step).tables, w.preparation.rules) == Some(e.tables)
            && e.dependencies == d.dependencies && e.services == d.services
  {
    hide TableIndex, ColumnIndex, TargetOf, NormalizeTables;
    var p, d := w.preparation, Edited(w, s);
    assert p.prepare(d) == Some(d);
    assert EditOf(w, s, step) == d.(tables := EditOf(w, s, step).tables);
  }

  /**
   * What a draft holds beside the target of a builder step survives the step
   * exactly when the publication, which is what the step edits, holds the same.
   */
  lemma DraftSurvivesIff(w: World, s: AppState, step: Step)
    requires WalksValues(w.env.order) && SteadyPreparation(w.preparation) && PreparedState(w.preparation, s)
    requires IsBuilderStep(step) && s.draft.Some? && Outcome(w, s, step).Some?
    ensures var target, r := TargetOf(step), Outcome(w, s, step).value;
            && r.draft.Some?
            && (Untouched(r.draft.value, target) == Untouched(s.draft.value, target) <==>
                Untouched(Edited(w, s), target) == Untouched(s.draft.value, target))
            && forall x :: x in Untouched(s.draft.value, target).items ==>
                 (x in Untouched(r.draft.value, target).items <==> x in Untouched(Edited(w, s), target).items)
  {
    hide *;
    BuilderStepContent(w, s, step);
  }

  /** Without an unpublished draft nothing is lost. */
  lemma PublishedDraftSurvives(w: World, s: AppState, step: Step)
    requires WalksValues(w.env.order) && SteadyPreparation(w.preparation) && PreparedState(w.preparation, s)
    requires VersionsTruthful(w.preparation, s) && !HasUnpublishedDraft(s)
    requires IsBuilderStep(step) && Outcome(w, s, step).Some?
    ensures var r := Outcome(w, s, step).value;
            && s.draft.Some? && r.draft.Some?
            && Untouched(r.draft.value, TargetOf(step)) == Untouched(s.draft.value, TargetOf(step))
  {
    hide Outcome, Untouched, TargetOf, WalksValues;
    BuilderStepContent(w, s, step);
  }

  /** So after any run of a new app without an unpublished draft. */
  lemma RunLosesNoPublishedDraft(p: Preparation, moves: seq<Move>, env: Environment, step: Step)
    requires SteadyPreparation(p) && NewApp(p).Some? && Walkable(moves) && WalksValues(env.order)
    requires !HasUnpublishedDraft(Run(p, NewApp(p).value, moves))
    requires IsBuilderStep(step) && Outcome(World(p, env), Run(p, NewApp(p).value, moves), step).Some?
    ensures var s := Run(p, NewApp(p).value, moves);
            var r := Outcome(World(p, env), s, step).value;
            && s.draft.Some? && r.draft.Some?
            && Untouched(r.draft.value, TargetOf(step)) == Untouched(s.draft.value, TargetOf(step))
  {
    hide *;
    NewAppIsPrepared(p);
    NewAppVersions(p);
    RunKeepsPrepared(p, NewApp(p).value, moves);
    RunKeepsVersions(p, NewApp(p).value, moves);
    PublishedDraftSurvives(World(p, env), Run(p, NewApp(p).value, moves), step);
  }

  function TablesOnly(p: Preparation, tables: seq<Table>): Definition { EmptyDefinition(p).(tables := tables) }

  function Blank(name: string): Table { Table(name, "", false, []) }

  /** A drafted table `notes` is gone from the draft once the builder has created `tasks`. */
  lemma LostDraftExample(w: World)
    requires WalksValues(w.env.order) && LawfulPreparation(w.preparation)
    requires w.preparation.prepare(TablesOnly(w.preparation, [Blank("tasks")])).Some?
    ensures var p := w.preparation;
            var s := AppState(map[], Some(TablesOnly(p, [Blank("notes")])), Some(TablesOnly(p, [])), 2, 1);
            var r := Outcome(w, s, CreateTable("tasks", true));
            && HasUnpublishedDraft(s)
            && r.Some? && r.value.draft.Some? && r.value.draft == r.value.published
            && r.value.draft.value.tables == [Blank("tasks")]
  {
    TasksIsAName();
    BlankIsNormal("tasks", w.preparation.rules);
    hide NormalizeIdentifier, LegalBuilderName, IsSafeIdentifier, WalksValues, NormalizeTables, NewTable;
    assert [] + [Blank("tasks")] == [Blank("tasks")];
    assert TableIndex([], "tasks") == None;
  }

  lemma TasksIsAName()
    ensures NormalizeIdentifier("tasks") == "tasks" && IsSafeIdentifier("tasks") && LegalBuilderName("tasks")
  {
    TrimSpaceKeepsTrimmed("tasks");
    hide TrimSpace;
    assert ToLower("tasks") == "tasks";
    assert "_"[0] != "tasks"[0];
  }

  lemma BlankIsNormal(name: string, rules: ColumnRules)
    requires NormalizeIdentifier(name) == name && IsSafeIdentifier(name)
    ensures NormalizeTables([Blank(name)], rules) == Some([Blank(name)])
  {
    assert NormalizeIdentifier("") == "" && NormalizeColumns([], rules) == Some([]);
    hide NormalizeIdentifier, IsSafeIdentifier;
    var tables := [Blank(name)];
    assert tables[..|tables| - 1] == [] && tables[|tables| - 1] == Blank(name);
    assert NormalizeTables([], rules) == Some([]) && TableNames([]) == {};
    assert [] + [Blank(name)] == [Blank(name)];
  }
}
