/**
 * What a publication does to stored values, and the way from a declared to a
 * published definition (internal/db/AppPublish.go, AutoNumber.go).
 */
module PublicationSafety {
  import opened Common
  import opened Text
  import opened AppModel
  import opened TableInheritance
  import opened DefinitionValidation
  import opened DefinitionNormalization
  import opened PhysicalSchema
  import opened TableReconciliation
  import opened SchemaPublication
  import opened PublicationTransaction

  // ---- The cells of auto-number columns ----

  /** Every cell of the column is the number that its old row and its position call for. */
  predicate NumberedFrom(a: AutoNumbering, c: Column, before: seq<Row>, after: seq<Row>) {
    var name := ColumnName(c);
    && |before| == |after|
    && forall i :: 0 <= i < |before| ==> name in after[i] && after[i][name] == NumberedCell(a, c, name, before[i], i)
  }

  lemma NumberRowsFrom(a: AutoNumbering, c: Column, before: seq<Row>, rows: seq<Row>)
    requires SameCells(before, rows, ColumnName(c))
    ensures NumberedFrom(a, c, before, NumberRows(a, c, ColumnName(c), rows))
  {
    hide ColumnName;
  }

  lemma NumberedFromCarries(a: AutoNumbering, c: Column, before: seq<Row>, rows: seq<Row>, after: seq<Row>)
    requires NumberedFrom(a, c, before, rows) && SameCells(rows, after, ColumnName(c))
    ensures NumberedFrom(a, c, before, after)
  {
    hide ColumnName, NumberedCell;
  }

  lemma DistinctFront(front: seq<Column>, last: Column)
    requires DistinctNames(front + [last])
    ensures DistinctNames(front) && !IsAutoNumberOf(front, ColumnName(last))
    ensures forall k :: 0 <= k < |front| ==> ColumnName(front[k]) != ColumnName(last)
  {
    hide ColumnName;
    var all := front + [last];
    assert all[|front|] == last && forall k :: 0 <= k < |front| ==> all[k] == front[k];
  }

  lemma OneStepKeeps(a: AutoNumbering, t: PhysicalTable, front: seq<Column>, last: Column, name: string)
    requires ApplyAutoNumbers(a, t, front + [last]).Ok? && name != ColumnName(last)
    ensures ApplyAutoNumbers(a, t, front).Ok?
    ensures SameCells(ApplyAutoNumbers(a, t, front).value.rows, ApplyAutoNumbers(a, t, front + [last]).value.rows, name)
  {
    hide ColumnName;
    assert (front + [last])[..|front|] == front;
  }

  lemma LastStepNumbers(a: AutoNumbering, t: PhysicalTable, front: seq<Column>, last: Column)
    requires ApplyAutoNumbers(a, t, front + [last]).Ok? && last.dataType.AutoNumber?
    ensures ApplyAutoNumbers(a, t, front).Ok?
    ensures ApplyAutoNumbers(a, t, front + [last]).value.rows ==
              NumberRows(a, last, ColumnName(last), ApplyAutoNumbers(a, t, front).value.rows)
  {
    hide ColumnName;
    assert (front + [last])[..|front|] == front;
  }

  lemma {:induction false} NumberedCells(a: AutoNumbering, t: PhysicalTable, columns: seq<Column>, k: nat)
    requires DistinctNames(columns) && ApplyAutoNumbers(a, t, columns).Ok? && k < |columns|
               && columns[k].dataType.AutoNumber?
    ensures NumberedFrom(a, columns[k], t.rows, ApplyAutoNumbers(a, t, columns).value.rows)
  {
    hide *;
    var front, last := columns[..|columns| - 1], columns[|columns| - 1];
    assert columns == front + [last];
    DistinctFront(front, last);
    if k == |front| {
      LastStepNumbers(a, t, front, last);
      AutoNumbersKeepOthers(a, t, front);
      NumberRowsFrom(a, last, t.rows, ApplyAutoNumbers(a, t, front).value.rows);
    } else {
      OneStepKeeps(a, t, front, last, ColumnName(columns[k]));
      NumberedCells(a, t, front, k);
      NumberedFromCarries(a, columns[k], t.rows, ApplyAutoNumbers(a, t, front).value.rows,
                          ApplyAutoNumbers(a, t, columns).value.rows);
    }
  }

  lemma EnsuredNumbers(a: AutoNumbering, t: PhysicalTable, columns: seq<Column>, k: nat)
    requires DistinctNames(columns) && EnsureTable(a, t, columns).Ok? && k < |columns|
               && columns[k].dataType.AutoNumber?
    ensures NumberedFrom(a, columns[k], t.rows, EnsureTable(a, t, columns).value.rows)
  {
    hide EnsureColumns, ApplyAutoNumbers, SetNullabilities, ColumnName, IsSafeIdentifier, TableValid, DistinctNames,
         HasName, NumberedFrom;
    EnsureColumnsResult(t, columns);
    var added := EnsureColumns(t, t.columns, columns).value;
    NumberedCells(a, added, columns, k);
    AutoNumbersAreColumns(a, added, columns);
    assert forall i :: 0 <= i < |columns| ==> TypeAsDefined(added, columns[i]);
    SetNullabilitiesResult(ApplyAutoNumbers(a, added, columns).value, columns);
  }

  lemma AutoNumbersAreColumns(a: AutoNumbering, t: PhysicalTable, columns: seq<Column>)
    requires ApplyAutoNumbers(a, t, columns).Ok?
    ensures ApplyAutoNumbers(a, t, columns).value.columns == t.columns
  {
    AutoNumbersKeepOthers(a, t, columns);
  }

  /** Numbers stay as they are exactly when every row has one, in its final form. */
  lemma NumbersKeptIff(a: AutoNumbering, c: Column, before: seq<Row>, after: seq<Row>)
    requires LawfulNumbering(a) && NumberedFrom(a, c, before, after)
    ensures SameCells(before, after, ColumnName(c)) <==> Numbered(a, before, c)
  {
    hide ColumnName;
    var name := ColumnName(c);
    if SameCells(before, after, name) {
      forall row | row in before ensures name in row && !a.blank(row[name]) && a.rewrite(c, row[name]) == row[name] {
        var i :| 0 <= i < |before| && before[i] == row;
        assert after[i][name] == NumberedCell(a, c, name, before[i], i);
      }
    }
    if Numbered(a, before, c) {
      forall i | 0 <= i < |before| ensures name in before[i] && before[i][name] == after[i][name] {
        assert before[i] in before;
      }
    }
  }

  // ---- What a publication keeps and loses ----

  /**
   * An auto-number column that was not dropped keeps its values through a
   * publication exactly when every row has a number that is already in the
   * form of the column's prefix; otherwise it is rewritten or filled in.
   */
  lemma PublishKeepsNumbersIff(env: Environment, db: Database, published: Definition, next: Definition, i: nat, j: nat,
                               k: nat)
    requires WalksValues(env.order) && LawfulNumbering(env.numbering) && WellNamed(env, next)
               && DistinctTableNames(published.tables)
    requires OwnsPhysicalSchema(next) && OwnsPhysicalSchema(published)
    requires PublishSchema(env, db, Some(published), next).Ok? && SharedTable(db, published, next, i, j)
    requires ResolvedColumns(env, next, next.tables[j]).Ok?
    requires var columns := ResolvedColumns(env, next, next.tables[j]).value;
             k < |columns| && columns[k].dataType.AutoNumber?
                 && !DroppedFrom(published.tables[i].columns, next.tables[j], ColumnName(columns[k]))
    ensures var name, c := NameOf(next.tables[j]), ResolvedColumns(env, next, next.tables[j]).value[k];
            var after := PublishSchema(env, db, Some(published), next).value;
            name in after && (SameCells(db[name].rows, after[name].rows, ColumnName(c)) <==>
                              Numbered(env.numbering, db[name].rows, c))
  {
    hide *;
    SharedNames(db, published, next, i, j);
    var mid := PublishPath(env, db, published, next, i, j);
    var name, columns := NameOf(next.tables[j]), ResolvedColumns(env, next, next.tables[j]).value;
    var after := PublishSchema(env, db, Some(published), next).value[name];
    KeptThroughDrop(db[name], mid, published.tables[i].columns, next.tables[j], ColumnName(columns[k]));
    EnsuredNumbers(env.numbering, mid, columns, k);
    NumberedFromSame(env.numbering, columns[k], db[name].rows, mid.rows, after.rows);
    NumbersKeptIff(env.numbering, columns[k], db[name].rows, after.rows);
  }

  lemma NumberedFromSame(a: AutoNumbering, c: Column, before: seq<Row>, mid: seq<Row>, after: seq<Row>)
    requires SameCells(before, mid, ColumnName(c)) && NumberedFrom(a, c, mid, after)
    ensures NumberedFrom(a, c, before, after)
  {
    hide ColumnName;
  }

  lemma {:induction false} DroppedCellsGone(t: PhysicalTable, published: seq<Column>, next: Table, x: string)
    requires DropColumns(t, published, next).Ok? && DroppedFrom(published, next, x)
    ensures |DropColumns(t, published, next).value.rows| == |t.rows|
    ensures forall row :: row in DropColumns(t, published, next).value.rows ==> x !in row
  {
    hide *;
    NothingDropped(next, x);
    var front, last := published[..|published| - 1], published[|published| - 1];
    DroppedSplit(front, last, next, x);
    assert published == front + [last];
    DropLast(t, published, next);
    if DroppedFrom(front, next, x) { DroppedCellsGone(t, front, next, x); }
    OneColumnGone(t, DropColumns(t, front, next).value, DropColumns(t, published, next).value, front, last, next, x);
  }

  lemma DroppedSplit(front: seq<Column>, last: Column, next: Table, x: string)
    ensures DroppedFrom(front + [last], next, x) <==>
              DroppedFrom(front, next, x) || (x == ColumnName(last) && IsDropped(x, next))
  {
    hide ColumnName, IsDropped;
    HasNameAppend(front, last);
    hide HasName;
  }

  lemma NothingDropped(next: Table, x: string)
    ensures !DroppedFrom([], next, x)
  {}

  lemma DropLast(t: PhysicalTable, published: seq<Column>, next: Table)
    requires published != [] && DropColumns(t, published, next).Ok?
    ensures var before := DropColumns(t, published[..|published| - 1], next);
            && before.Ok?
            && |before.value.rows| == |t.rows|
            && DropColumns(t, published, next).value ==
                 if IsDropped(ColumnName(published[|published| - 1]), next) then DropColumn(before.value,
                     ColumnName(published[|published| - 1])) else before.value
  {
    hide ColumnName, IsDropped, IsSafeIdentifier, DropColumn;
    DropColumnsResult(t, published[..|published| - 1], next);
    hide DropColumns;
  }

  lemma OneColumnGone(t: PhysicalTable, before: PhysicalTable, after: PhysicalTable, front: seq<Column>, last: Column,
                      next: Table, x: string)
    requires |before.rows| == |t.rows| && (DroppedFrom(front, next, x) ==>
                                           forall row :: row in before.rows ==> x !in row)
    requires DroppedFrom(front, next, x) || (x == ColumnName(last) && IsDropped(x, next))
    requires after == if IsDropped(ColumnName(last), next) then DropColumn(before, ColumnName(last)) else before
    ensures |after.rows| == |t.rows| && forall row :: row in after.rows ==> x !in row
  {
    hide ColumnName, IsDropped, DroppedFrom;
    forall row | row in after.rows ensures x !in row {
      var k :| 0 <= k < |after.rows| && after.rows[k] == row;
      assert before.rows[k] in before.rows;
    }
  }

  /**
   * A column that the next table does not list itself loses every value, even
   * when it is inherited from a parent and so exists again: it is kept exactly
   * when no row had a value.
   */
  lemma PublishLosesDroppedIff(env: Environment, db: Database, published: Definition, next: Definition, i: nat, j: nat,
                               x: string)
    requires WalksValues(env.order) && WellNamed(env, next) && DistinctTableNames(published.tables)
    requires OwnsPhysicalSchema(next) && OwnsPhysicalSchema(published)
    requires PublishSchema(env, db, Some(published), next).Ok? && SharedTable(db, published, next, i, j)
    requires DroppedFrom(published.tables[i].columns, next.tables[j], x)
    requires ResolvedColumns(env, next, next.tables[j]).Ok? ==>
               !IsAutoNumberOf(ResolvedColumns(env, next, next.tables[j]).value, x)
    ensures ResolvedColumns(env, next, next.tables[j]).Ok?
    ensures var name := NameOf(next.tables[j]);
            var after := PublishSchema(env, db, Some(published), next).value;
            && name in after && |after[name].rows| == |db[name].rows|
            && (x in after[name].columns <==> HasName(ResolvedColumns(env, next, next.tables[j]).value, x))
            && (forall row :: row in after[name].rows ==> x !in row)
            && (SameCells(db[name].rows, after[name].rows, x) <==> forall row :: row in db[name].rows ==> x !in row)
  {
    hide *;
    SharedNames(db, published, next, i, j);
    var mid := PublishPath(env, db, published, next, i, j);
    var name, columns := NameOf(next.tables[j]), ResolvedColumns(env, next, next.tables[j]).value;
    var after := PublishSchema(env, db, Some(published), next).value[name];
    DroppedColumnGone(db[name], mid, published.tables[i].columns, next.tables[j], x);
    KeptThroughEnsure(env.numbering, mid, columns, x);
    EnsuredColumns(env.numbering, mid, columns, x);
    NoCells(mid.rows, after.rows, db[name].rows, x);
  }

  lemma DroppedColumnGone(t: PhysicalTable, mid: PhysicalTable, published: seq<Column>, next: Table, x: string)
    requires DropColumns(t, published, next) == Ok(mid) && DroppedFrom(published, next, x)
    ensures x !in mid.columns && |mid.rows| == |t.rows| && forall row :: row in mid.rows ==> x !in row
  {
    DropColumnsResult(t, published, next);
    DroppedCellsGone(t, published, next, x);
    hide DropColumns, DroppedFrom, SameCells, TableValid;
  }

  lemma EnsuredColumns(a: AutoNumbering, t: PhysicalTable, columns: seq<Column>, x: string)
    requires DistinctNames(columns) && EnsureTable(a, t, columns).Ok?
    ensures x in EnsureTable(a, t, columns).value.columns <==> x in t.columns || HasName(columns, x)
  {
    EnsureTableResult(a, t, columns);
  }

  lemma NoCells(mid: seq<Row>, after: seq<Row>, before: seq<Row>, x: string)
    requires SameCells(mid, after, x) && |mid| == |before| && forall row :: row in mid ==> x !in row
    ensures |after| == |before| && forall row :: row in after ==> x !in row
    ensures SameCells(before, after, x) <==> forall row :: row in before ==> x !in row
  {
    forall row | row in after ensures x !in row {
      var i :| 0 <= i < |after| && after[i] == row;
      assert mid[i] in mid;
    }
    if SameCells(before, after, x) {
      forall row | row in before ensures x !in row {
        var i :| 0 <= i < |before| && before[i] == row;
        assert after[i] in after;
      }
    }
  }

  /**
   * A dropped auto-number that is inherited again is issued anew in every row,
   * whatever the row held: a value stays only where the issued one is the same.
   */
  lemma PublishReissuesDropped(env: Environment, db: Database, published: Definition, next: Definition, i: nat, j: nat,
                               k: nat)
    requires WalksValues(env.order) && WellNamed(env, next) && DistinctTableNames(published.tables)
    requires OwnsPhysicalSchema(next) && OwnsPhysicalSchema(published)
    requires PublishSchema(env, db, Some(published), next).Ok? && SharedTable(db, published, next, i, j)
    requires ResolvedColumns(env, next, next.tables[j]).Ok?
    requires var columns := ResolvedColumns(env, next, next.tables[j]).value;
             k < |columns| && columns[k].dataType.AutoNumber?
                 && DroppedFrom(published.tables[i].columns, next.tables[j], ColumnName(columns[k]))
    ensures var name, c := NameOf(next.tables[j]), ResolvedColumns(env, next, next.tables[j]).value[k];
            var after := PublishSchema(env, db, Some(published), next).value;
            && name in after && |after[name].rows| == |db[name].rows|
            && forall r :: 0 <= r < |after[name].rows| ==>
                 ColumnName(c) in after[name].rows[r] && after[name].rows[r][ColumnName(c)] == env.numbering.issue(c, r)
    ensures var name, c := NameOf(next.tables[j]), ResolvedColumns(env, next, next.tables[j]).value[k];
            var after := PublishSchema(env, db, Some(published), next).value;
            SameCells(db[name].rows, after[name].rows, ColumnName(c)) <==> HoldsIssued(env.numbering, c, db[name].rows)
  {
    hide *;
    SharedNames(db, published, next, i, j);
    var mid := PublishPath(env, db, published, next, i, j);
    var name, columns := NameOf(next.tables[j]), ResolvedColumns(env, next, next.tables[j]).value;
    DroppedColumnGone(db[name], mid, published.tables[i].columns, next.tables[j], ColumnName(columns[k]));
    EnsuredNumbers(env.numbering, mid, columns, k);
    var after := PublishSchema(env, db, Some(published), next).value[name].rows;
    IssuedCells(env.numbering, columns[k], mid.rows, after);
    IssuedIsKeptIff(env.numbering, columns[k], db[name].rows, after);
  }

  /** Every row already holds the number that would be issued for its position. */
  predicate HoldsIssued(a: AutoNumbering, c: Column, rows: seq<Row>) {
    forall r :: 0 <= r < |rows| ==> ColumnName(c) in rows[r] && rows[r][ColumnName(c)] == a.issue(c, r)
  }

  lemma IssuedIsKeptIff(a: AutoNumbering, c: Column, before: seq<Row>, after: seq<Row>)
    requires |after| == |before| && HoldsIssued(a, c, after)
    ensures SameCells(before, after, ColumnName(c)) <==> HoldsIssued(a, c, before)
  {
    hide ColumnName;
  }

  lemma IssuedCells(a: AutoNumbering, c: Column, mid: seq<Row>, after: seq<Row>)
    requires NumberedFrom(a, c, mid, after) && forall row :: row in mid ==> ColumnName(c) !in row
    ensures |after| == |mid|
    ensures forall r :: 0 <= r < |after| ==> ColumnName(c) in after[r] && after[r][ColumnName(c)] == a.issue(c, r)
    ensures HoldsIssued(a, c, after)
  {
    hide ColumnName;
    forall r | 0 <= r < |after| ensures ColumnName(c) in after[r] && after[r][ColumnName(c)] == a.issue(c, r) {
      assert mid[r] in mid;
    }
  }

  /** A column `note` that moves to a parent: it is dropped with its values and added again empty. */
  lemma MovedColumnExample(a: AutoNumbering, next: Table)
    requires next.columns == []
    ensures var note := Column("note", PlainText, true, "");
            var t := PhysicalTable(map["note" := PhysicalColumn(TEXT, true)], [map["note" := "x"]]);
            var dropped := DropColumns(t, [note], next);
            && dropped.Ok?
            && EnsureTable(a, dropped.value, [note]) ==
                 Ok(PhysicalTable(map["note" := PhysicalColumn(TEXT, true)], [map[]]))
  {
    var note := Column("note", PlainText, true, "");
    var t := PhysicalTable(map["note" := PhysicalColumn(TEXT, true)], [map["note" := "x"]]);
    NoteIsAName();
    hide NormalizeIdentifier, IsSafeIdentifier, SystemColumnNames;
    assert [note][..0] == [] && [note][0] == note && DropColumns(t, [], next) == Ok(t);
    var mid := PhysicalTable(map[], [map[]]);
    assert WithoutCell(t.rows, "note") == [map[]];
    assert DropColumn(t, "note") == mid;
    assert DropColumns(t, [note], next) == Ok(mid);
    EnsureOneNote(a, note);
  }

  lemma EnsureOneNote(a: AutoNumbering, note: Column)
    requires note == Column("note", PlainText, true, "") && ColumnName(note) == "note" && IsSafeIdentifier("note")
    ensures EnsureTable(a, PhysicalTable(map[], [map[]]), [note]) ==
              Ok(PhysicalTable(map["note" := PhysicalColumn(TEXT, true)], [map[]]))
  {
    hide ColumnName, IsSafeIdentifier;
    var t := PhysicalTable(map[], [map[]]);
    assert [note][..0] == [] && [note][0] == note;
    assert EnsureColumns(t, t.columns, []) == Ok(t);
    var added := t.(columns := map["note" := PhysicalColumn(TEXT, true)]);
    assert EnsureColumns(t, t.columns, [note]) == EnsureColumn(t, t.columns, note) == Ok(added);
    assert ApplyAutoNumbers(a, added, []) == Ok(added) == ApplyAutoNumbers(a, added, [note]);
    assert SetNullabilities(added, added.columns, []) == Ok(added);
  }

  lemma NoteIsAName()
    ensures NormalizeIdentifier("note") == "note" && IsSafeIdentifier("note") && "note" !in SystemColumnNames()
  {
    TrimSpaceKeepsTrimmed("note");
    hide TrimSpace;
    assert ToLower("note") == "note";
    assert forall x :: x in SystemColumnNames() ==> x[0] == '_';
  }

  function TaskNumber(): Column { Column("number", AutoNumber, true, "TSK") }

  /** A stored number without leading zeros is rewritten by ensuring the table again. */
  lemma RewrittenNumberExample(a: AutoNumbering)
    requires LawfulNumbering(a) && a.validPrefix("TSK") && !a.blank("TSK-7")
    requires a.rewrite(TaskNumber(), "TSK-7") == "TSK-000007"
    ensures var t := PhysicalTable(map["number" := PhysicalColumn(TEXT, true)], [map["number" := "TSK-7"]]);
            EnsureTable(a, t, [TaskNumber()]) == Ok(t.(rows := [map["number" := "TSK-000007"]]))
  {
    var c := TaskNumber();
    var t := PhysicalTable(map["number" := PhysicalColumn(TEXT, true)], [map["number" := "TSK-7"]]);
    NumberIsAName();
    assert ColumnName(c) == "number";
    EnsureOneNumber(a, t, c);
    var numbered := NumberRows(a, c, "number", t.rows);
    assert numbered[0] == map["number" := "TSK-000007"];
    assert numbered == [map["number" := "TSK-000007"]];
  }

  lemma NumberIsAName()
    ensures NormalizeIdentifier("number") == "number" && IsSafeIdentifier("number")
  {
    TrimSpaceKeepsTrimmed("number");
    hide TrimSpace;
    assert ToLower("number") == "number";
  }

  lemma EnsureOneNumber(a: AutoNumbering, t: PhysicalTable, c: Column)
    requires c.dataType.AutoNumber? && a.validPrefix(c.prefix) && IsSafeIdentifier(ColumnName(c))
    requires t.columns == map[ColumnName(c) := PhysicalColumn(TEXT, c.isNullable)]
    ensures EnsureTable(a, t, [c]) == Ok(t.(rows := NumberRows(a, c, ColumnName(c), t.rows)))
  {
    hide ColumnName, IsSafeIdentifier, NumberRows;
    assert [c][..0] == [] && [c][0] == c;
    assert EnsureColumns(t, t.columns, []) == Ok(t);
    assert EnsureColumns(t, t.columns, [c]) == EnsureColumn(t, t.columns, c) == Ok(t);
    assert ApplyAutoNumbers(a, t, []) == Ok(t);
    var numbered := t.(rows := NumberRows(a, c, ColumnName(c), t.rows));
    assert ApplyAutoNumbers(a, t, [c]) == Ok(numbered);
    assert SetNullabilities(numbered, numbered.columns, []) == Ok(numbered);
  }

  // ---- From the declaration to the published schema ----

  /** The definition that normalisation makes of the declared tables. */
  function NormalizedDefinition(d: Definition, rules: ColumnRules): Option<Definition> {
    var tables := NormalizeTables(d.tables, rules);
    if tables.None? then None else Some(d.(tables := tables.value))
  }

  lemma NormalTablesDistinct(tables: seq<Table>)
    requires NormalTables(tables)
    ensures DistinctTableNames(tables)
  {
    forall i | 0 <= i < |tables| ensures NameOf(tables[i]) == tables[i].name {
      assert tables[i] in tables && NormalTable(tables[i]);
    }
  }

  /**
   * Declared tables that normalise and pass validation, published over any
   * normalised publication on a valid database: every table then conforms to
   * its resolved columns, no NOT NULL column holds a null, and publishing the
   * same definition again changes nothing.
   */
  lemma DeclaredTablesPublish(env: Environment, rules: ColumnRules, declared: Definition, dependencies: seq<App>,
                              db: Database, published: Option<Definition>, i: nat)
    requires WalksValues(env.order) && LawfulNumbering(env.numbering)
    requires NormalizeIdentifier(declared.name) == declared.name
               && NormalizeIdentifier(declared.namespace) == declared.namespace
    requires OwnsPhysicalSchema(declared) && NormalizedDefinition(declared, rules).Some?
    requires var d := NormalizedDefinition(declared, rules).value;
             && SelfContained(d.tables) && TablesAccepted(Scope(PublishedApp(d), d, dependencies))
             && PublishSchema(env, db, published, d).Ok? && i < |d.tables|
    requires DatabaseValid(db) && (published.Some? ==> NormalTables(published.value.tables))
    ensures var d := NormalizedDefinition(declared, rules).value;
            var after := PublishSchema(env, db, published, d).value;
            && DatabaseValid(after)
            && ResolvedColumns(env, d, d.tables[i]).Ok? && NameOf(d.tables[i]) in after
            && Conforms(after[NameOf(d.tables[i])], ResolvedColumns(env, d, d.tables[i]).value)
            && PublishSchema(env, after, Some(d), d) == Ok(after)
  {
    var d := NormalizedDefinition(declared, rules).value;
    assert OwnsPhysicalSchema(d) && d.tables == NormalizeTables(declared.tables, rules).value;
    if published.Some? { NormalTablesDistinct(published.value.tables); }
    assert WellNamedPublished(published) by { hide DistinctTableNames; }
    hide *;
    NormalizeTablesResult(declared.tables, rules);
    NormalTablesAreNormalized(d.tables);
    AcceptedDefinitionIsWellNamed(env, d, dependencies);
    PublishedTablesConform(env, db, published, d, i);
    PublishKeepsValid(env, db, published, d);
    PublishTwice(env, db, published, d);
  }
}
