/** Normalisation of the tables of a definition (internal/db/AppDefinition.go). */
module DefinitionNormalization {
  import opened Common
  import opened Text
  import opened AppModel
  import opened DefinitionValidation

  lemma {:induction false} TrimRightEnds(s: string)
    ensures s != "" && !IsSpace(s[0]) ==> TrimRight(s) != "" && TrimRight(s)[0] == s[0]
  {
    if s != "" && IsSpace(s[|s| - 1]) && !IsSpace(s[0]) {
      TrimRightEnds(s[..|s| - 1]);
    }
  }

  lemma TrimSpaceTrims(s: string)
    ensures Trimmed(TrimSpace(s))
  {
    TrimRightEnds(TrimLeft(s));
  }

  /** Names are normalised once and for all. */
  lemma NormalizeIdempotent(s: string)
    ensures NormalizeIdentifier(NormalizeIdentifier(s)) == NormalizeIdentifier(s)
    ensures TrimSpace(NormalizeIdentifier(s)) == NormalizeIdentifier(s)
  {
    var t, n := TrimSpace(s), NormalizeIdentifier(s);
    TrimSpaceTrims(s);
    forall i | 0 <= i < |t| ensures IsSpace(n[i]) == IsSpace(t[i]) && LowerChar(n[i]) == n[i] {}
    TrimSpaceKeepsTrimmed(n);
  }

  /** normalizeAutoNumberPrefix, validateBuilderColumnDataType and validateAutoNumberPrefix. */
  datatype ColumnRules = ColumnRules(normalizePrefix: string -> string, validType: DataType -> bool,
                                     validPrefix: string -> bool)

  /** A known data type, a prefix where numbers are issued and nowhere else. */
  predicate AllowedColumn(c: Column, rules: ColumnRules) {
    rules.validType(c.dataType) && if c.dataType.AutoNumber? then rules.validPrefix(c.prefix) else c.prefix == ""
  }

  function NormalizeColumn(c: Column, rules: ColumnRules): Column {
    Column(NormalizeIdentifier(c.name), c.dataType, c.isNullable, rules.normalizePrefix(c.prefix))
  }

  /** The column loop: blank, unsafe and repeated names, unknown types and misplaced prefixes are errors. */
  function NormalizeColumns(columns: seq<Column>, rules: ColumnRules): (r: Option<seq<Column>>)
  {
    if columns == [] then Some([]) else
    var front := NormalizeColumns(columns[..|columns| - 1], rules);
    var c := NormalizeColumn(columns[|columns| - 1], rules);
    if front.None? || !IsSafeIdentifier(c.name) || c.name in ColumnNames(front.value)
        || !AllowedColumn(c, rules) then None
    else Some(front.value + [c])
  }

  function TableNames(tables: seq<Table>): set<string> { set t | t in tables :: t.name }

  /** The table loop of normalizeAppDefinition. */
  function NormalizeTables(tables: seq<Table>, rules: ColumnRules): (r: Option<seq<Table>>)
  {
    if tables == [] then Some([]) else
    var front := NormalizeTables(tables[..|tables| - 1], rules);
    var t := tables[|tables| - 1];
    var columns := NormalizeColumns(t.columns, rules);
    var name := NormalizeIdentifier(t.name);
    if front.None? || columns.None? || !IsSafeIdentifier(name) || name in TableNames(front.value) then None
    else Some(front.value + [Table(name, NormalizeIdentifier(t.base), t.extensible, columns.value)])
  }

  /** Normalisation touches the spelling of a column and its prefix, nothing else. */
  predicate ColumnsCorrespond(before: seq<Column>, after: seq<Column>) {
    && |before| == |after|
    && forall i :: 0 <= i < |before| ==>
         after[i].name == NormalizeIdentifier(before[i].name) && after[i].dataType == before[i].dataType
             && after[i].isNullable == before[i].isNullable
  }

  predicate TablesCorrespond(before: seq<Table>, after: seq<Table>) {
    && |before| == |after|
    && forall i :: 0 <= i < |before| ==>
         && after[i].name == NormalizeIdentifier(before[i].name)
         && after[i].base == NormalizeIdentifier(before[i].base)
         && ColumnsCorrespond(before[i].columns, after[i].columns)
  }

  predicate NormalColumns(columns: seq<Column>) {
    DistinctColumnNames(columns) && forall c :: c in columns ==>
        NormalizeIdentifier(c.name) == c.name && IsSafeIdentifier(c.name)
  }

  lemma NormalColumnsAppend(done: seq<Column>, c: Column)
    requires NormalColumns(done) && NormalizeIdentifier(c.name) == c.name && IsSafeIdentifier(c.name)
               && c.name !in ColumnNames(done)
    ensures NormalColumns(done + [c])
  {
    hide NormalizeIdentifier, IsSafeIdentifier;
    assert forall i :: 0 <= i < |done| ==> done[i] in done;
  }

  lemma CorrespondAppend(before: seq<Column>, after: seq<Column>, b: Column, c: Column)
    requires ColumnsCorrespond(before, after) && c.name == NormalizeIdentifier(b.name) && c.dataType == b.dataType
               && c.isNullable == b.isNullable
    ensures ColumnsCorrespond(before + [b], after + [c])
  {
    hide NormalizeIdentifier;
  }

  lemma {:induction false} NormalizeColumnsResult(columns: seq<Column>, rules: ColumnRules)
    requires NormalizeColumns(columns, rules).Some?
    ensures ColumnsCorrespond(columns, NormalizeColumns(columns, rules).value)
    ensures NormalColumns(NormalizeColumns(columns, rules).value)
  {
    if columns != [] {
      hide NormalizeIdentifier, IsSafeIdentifier, NormalColumns, ColumnsCorrespond;
      var front, c := columns[..|columns| - 1], columns[|columns| - 1];
      assert columns == front + [c];
      NormalizeColumnsResult(front, rules);
      NormalizeIdempotent(c.name);
      var done := NormalizeColumns(front, rules).value;
      NormalColumnsAppend(done, NormalizeColumn(c, rules));
      CorrespondAppend(front, done, c, NormalizeColumn(c, rules));
    }
  }

  predicate NormalTable(t: Table) {
    && IsSafeIdentifier(t.name) && NormalizeIdentifier(t.name) == t.name
    && TrimSpace(t.base) == t.base && NormalizeIdentifier(t.base) == t.base
    && NormalColumns(t.columns)
  }

  predicate NormalTables(tables: seq<Table>) {
    && (forall t :: t in tables ==> NormalTable(t))
    && (forall i, j :: 0 <= i < j < |tables| ==> tables[i].name != tables[j].name)
  }

  lemma NormalTablesAppend(done: seq<Table>, t: Table)
    requires NormalTables(done) && NormalTable(t) && t.name !in TableNames(done)
    ensures NormalTables(done + [t])
  {
    hide NormalTable;
    assert forall i :: 0 <= i < |done| ==> done[i] in done;
  }

  lemma TablesCorrespondAppend(before: seq<Table>, after: seq<Table>, b: Table, c: Table)
    requires TablesCorrespond(before, after)
    requires c.name == NormalizeIdentifier(b.name) && c.base == NormalizeIdentifier(b.base)
               && ColumnsCorrespond(b.columns, c.columns)
    ensures TablesCorrespond(before + [b], after + [c])
  {
    hide NormalizeIdentifier, ColumnsCorrespond;
  }

  lemma NormalizeTablesUnfold(front: seq<Table>, t: Table, rules: ColumnRules)
    requires NormalizeTables(front + [t], rules).Some?
    ensures NormalizeTables(front, rules).Some? && NormalizeColumns(t.columns, rules).Some?
    ensures IsSafeIdentifier(NormalizeIdentifier(t.name))
              && NormalizeIdentifier(t.name) !in TableNames(NormalizeTables(front, rules).value)
    ensures NormalizeTables(front + [t], rules).value ==
              NormalizeTables(front, rules).value + [NormalForm(t, NormalizeColumns(t.columns, rules).value)]
  {
    hide NormalizeIdentifier, IsSafeIdentifier, NormalizeColumns, TableNames;
    assert (front + [t])[..|front|] == front;
  }

  function NormalForm(t: Table, columns: seq<Column>): Table {
    Table(NormalizeIdentifier(t.name), NormalizeIdentifier(t.base), t.extensible, columns)
  }

  lemma NormalFormIsNormal(t: Table, columns: seq<Column>)
    requires IsSafeIdentifier(NormalizeIdentifier(t.name)) && NormalColumns(columns)
    ensures NormalTable(NormalForm(t, columns))
  {
    NormalizeIdempotent(t.name);
    NormalizeIdempotent(t.base);
    hide NormalizeIdentifier, IsSafeIdentifier, TrimSpace, NormalColumns;
  }

  /** Normalised tables keep their structure and satisfy what validation and publication rely on. */
  lemma {:induction false} NormalizeTablesResult(tables: seq<Table>, rules: ColumnRules)
    requires NormalizeTables(tables, rules).Some?
    ensures TablesCorrespond(tables, NormalizeTables(tables, rules).value)
    ensures NormalTables(NormalizeTables(tables, rules).value)
  {
    if tables != [] {
      hide *;
      var front, t := tables[..|tables| - 1], tables[|tables| - 1];
      assert tables == front + [t];
      NormalizeTablesUnfold(front, t, rules);
      NormalizeTablesResult(front, rules);
      NormalizeColumnsResult(t.columns, rules);
      var done := NormalizeTables(front, rules).value;
      var last := NormalForm(t, NormalizeColumns(t.columns, rules).value);
      NormalFormIsNormal(t, NormalizeColumns(t.columns, rules).value);
      NormalFormParts(t, NormalizeColumns(t.columns, rules).value);
      NormalTablesAppend(done, last);
      TablesCorrespondAppend(front, done, t, last);
    }
  }

  lemma NormalFormParts(t: Table, columns: seq<Column>)
    ensures var n := NormalForm(t, columns);
            n.name == NormalizeIdentifier(t.name) && n.base == NormalizeIdentifier(t.base) && n.columns == columns
  {}

  lemma NormalTablesAreNormalized(tables: seq<Table>)
    requires NormalTables(tables)
    ensures NormalizedTables(tables)
  {
    forall t | t in tables ensures t.name != "" && DistinctColumnNames(t.columns)
        && forall c :: c in t.columns ==> NormalizeIdentifier(c.name) == c.name {
      assert NormalTable(t);
    }
  }

  // ---- In place, as the program does it ----

  datatype NormalizationError =
    | NameRequired
    | InvalidName(name: string)
    | DuplicateName(name: string)
    | InvalidDataType(name: string)
    | InvalidPrefix(name: string)
    | PrefixNotAllowed(name: string)

  /** The checks shared by tables and columns. */
  function CheckName(name: string, seen: set<string>): (r: Option<NormalizationError>)
    ensures r.None? <==> IsSafeIdentifier(name) && name !in seen
  {
    if name == "" then Some(NameRequired)
    else if !IsSafeIdentifier(name) then Some(InvalidName(name))
    else if name in seen then Some(DuplicateName(name))
    else None
  }

  function CheckColumn(c: Column, rules: ColumnRules): (r: Option<NormalizationError>)
    ensures r.None? <==> AllowedColumn(c, rules)
  {
    if !rules.validType(c.dataType) then Some(InvalidDataType(c.name))
    else if c.dataType.AutoNumber? then (if rules.validPrefix(c.prefix) then None else Some(InvalidPrefix(c.name)))
    else if c.prefix != "" then Some(PrefixNotAllowed(c.name))
    else None
  }

  lemma {:induction false} ColumnsPrefixFails(columns: seq<Column>, i: nat, rules: ColumnRules)
    requires i <= |columns| && NormalizeColumns(columns[..i], rules).None?
    ensures NormalizeColumns(columns, rules).None?
    decreases |columns|
  {
    if i == |columns| {
      assert columns[..i] == columns;
    } else {
      assert columns[..|columns| - 1][..i] == columns[..i];
      ColumnsPrefixFails(columns[..|columns| - 1], i, rules);
    }
  }

  lemma {:induction false} TablesPrefixFails(tables: seq<Table>, i: nat, rules: ColumnRules)
    requires i <= |tables| && NormalizeTables(tables[..i], rules).None?
    ensures NormalizeTables(tables, rules).None?
    decreases |tables|
  {
    if i == |tables| {
      assert tables[..i] == tables;
    } else {
      assert tables[..|tables| - 1][..i] == tables[..i];
      TablesPrefixFails(tables[..|tables| - 1], i, rules);
    }
  }

  lemma ColumnsStep(columns: seq<Column>, j: nat, rules: ColumnRules, done: seq<Column>)
    requires j < |columns| && NormalizeColumns(columns[..j], rules) == Some(done)
    ensures var c := NormalizeColumn(columns[j], rules);
            NormalizeColumns(columns[..j + 1], rules) ==
              if IsSafeIdentifier(c.name) && c.name !in ColumnNames(done)
                  && AllowedColumn(c, rules) then Some(done + [c]) else None
  {
    assert columns[..j + 1][..j] == columns[..j];
  }

  lemma TablesStep(tables: seq<Table>, i: nat, rules: ColumnRules, done: seq<Table>)
    requires i < |tables| && NormalizeTables(tables[..i], rules) == Some(done)
    ensures var name, columns := NormalizeIdentifier(tables[i].name), NormalizeColumns(tables[i].columns, rules);
            NormalizeTables(tables[..i + 1], rules) ==
              if columns.Some? && IsSafeIdentifier(name)
                  && name !in TableNames(done) then Some(done + [NormalForm(tables[i], columns.value)]) else None
  {
    assert tables[..i + 1][..i] == tables[..i];
  }

  /** Rewriting element `j` extends the rewritten part by one. */
  lemma RewrittenOneMore<T>(s: seq<T>, before: seq<T>, j: nat, x: T)
    requires j < |s| == |before| && s[j..] == before[j..]
    ensures s[j := x][..j + 1] == s[..j] + [x] && s[j := x][j + 1..] == before[j + 1..] && s[j] == before[j]
  {
    assert s[j] == s[j..][0] && before[j] == before[j..][0];
    assert s[j + 1..] == s[j..][1..] && before[j + 1..] == before[j..][1..];
  }

  lemma ColumnNamesAppend(done: seq<Column>, c: Column)
    ensures ColumnNames(done + [c]) == ColumnNames(done) + {c.name}
  {}

  lemma TableNamesAppend(done: seq<Table>, t: Table)
    ensures TableNames(done + [t]) == TableNames(done) + {t.name}
  {}

  method NormalizeColumnsInPlace(columns: array<Column>, rules: ColumnRules) returns (error: Option<NormalizationError>)
    modifies columns
    ensures error.None? <==> NormalizeColumns(old(columns[..]), rules).Some?
    ensures error.None? ==> columns[..] == NormalizeColumns(old(columns[..]), rules).value
  {
    ghost var before := columns[..];
    EmptyColumns(rules);
    assert before[..0] == [] && ColumnNames([]) == {};
    hide NormalizeColumns, NormalizeColumn, IsSafeIdentifier, NormalizeIdentifier, ColumnNames, CheckName, CheckColumn,
         AllowedColumn;
    var seen: set<string> := {};
    for j := 0 to columns.Length
      invariant NormalizeColumns(before[..j], rules) == Some(columns[..j])
      invariant columns[j..] == before[j..]
      invariant seen == ColumnNames(columns[..j])
    {
      ghost var now, done := columns[..], columns[..j];
      ColumnsStep(before, j, rules, done);
      var column := NormalizeColumn(columns[j], rules);
      RewrittenOneMore(now, before, j, column);
      ColumnNamesAppend(done, column);
      columns[j] := column;
      assert columns[..] == now[j := column];
      error := CheckName(column.name, seen);
      if error.Some? {
        ColumnsPrefixFails(before, j + 1, rules);
        return;
      }
      seen := seen + {column.name};
      error := CheckColumn(column, rules);
      if error.Some? {
        ColumnsPrefixFails(before, j + 1, rules);
        return;
      }
    }
    assert before[..|before|] == before && columns[..columns.Length] == columns[..];
    return None;
  }

  lemma EmptyColumns(rules: ColumnRules)
    ensures NormalizeColumns([], rules) == Some([])
  {}

  lemma EmptyTables(rules: ColumnRules)
    ensures NormalizeTables([], rules) == Some([])
  {}

  /** One table of the loop: its name is checked, its columns are rewritten in place. */
  method NormalizeTable(table: Table, seen: set<string>, rules: ColumnRules)
      returns (r: Result<Table, NormalizationError>)
    ensures var name, columns := NormalizeIdentifier(table.name), NormalizeColumns(table.columns, rules);
            && (r.Ok? <==> IsSafeIdentifier(name) && name !in seen && columns.Some?)
            && (r.Ok? ==> r.value == NormalForm(table, columns.value) && r.value.name == name)
  {
    hide NormalizeColumns, IsSafeIdentifier, NormalizeIdentifier;
    var error := CheckName(NormalizeIdentifier(table.name), seen);
    if error.Some? {
      return Err(error.value);
    }
    var columns := new Column[|table.columns|](k requires 0 <= k < |table.columns| => table.columns[k]);
    assert columns[..] == table.columns;
    error := NormalizeColumnsInPlace(columns, rules);
    if error.Some? {
      return Err(error.value);
    }
    return Ok(NormalForm(table, columns[..]));
  }

  /** The table loop of normalizeAppDefinition; on an error the caller drops the half-rewritten definition. */
  method NormalizeTablesInPlace(tables: array<Table>, rules: ColumnRules) returns (error: Option<NormalizationError>)
    modifies tables
    ensures error.None? <==> NormalizeTables(old(tables[..]), rules).Some?
    ensures error.None? ==> tables[..] == NormalizeTables(old(tables[..]), rules).value
  {
    ghost var before := tables[..];
    EmptyTables(rules);
    assert before[..0] == [] && TableNames([]) == {};
    hide NormalizeTables, NormalizeColumns, NormalForm, IsSafeIdentifier, NormalizeIdentifier, TableNames;
    var seen: set<string> := {};
    for i := 0 to tables.Length
      invariant NormalizeTables(before[..i], rules) == Some(tables[..i])
      invariant tables[i..] == before[i..]
      invariant seen == TableNames(tables[..i])
    {
      ghost var now, done := tables[..], tables[..i];
      TablesStep(before, i, rules, done);
      assert tables[i] == now[i];
      var normal := NormalizeTable(tables[i], seen, rules);
      if normal.Err? {
        RewrittenOneMore(now, before, i, tables[i]);
        TablesPrefixFails(before, i + 1, rules);
        return Some(normal.error);
      }
      RewrittenOneMore(now, before, i, normal.value);
      TableNamesAppend(done, normal.value);
      seen := seen + {normal.value.name};
      tables[i] := normal.value;
      assert tables[..] == now[i := normal.value];
    }
    assert before[..|before|] == before && tables[..tables.Length] == tables[..];
    return None;
  }

  // ---- What normalisation accepts, and the rest of what it keeps ----

  /** The i-th column may stand in a list of columns: a safe new name, a known type, a prefix where one belongs. */
  predicate ColumnFits(columns: seq<Column>, i: nat, rules: ColumnRules)
    requires i < |columns|
  {
    && IsSafeIdentifier(NormalizeIdentifier(columns[i].name))
    && (forall j :: 0 <= j < i ==> NormalizeIdentifier(columns[j].name) != NormalizeIdentifier(columns[i].name))
    && AllowedColumn(NormalizeColumn(columns[i], rules), rules)
  }

  /** Columns normalise exactly when each of them fits, and then keep all but the spelling of name and prefix. */
  lemma {:induction false} ColumnsNormalizeIff(columns: seq<Column>, rules: ColumnRules)
    ensures NormalizeColumns(columns, rules).Some? <==> forall i :: 0 <= i < |columns| ==> ColumnFits(columns, i, rules)
    ensures NormalizeColumns(columns, rules).Some? ==>
              && |NormalizeColumns(columns, rules).value| == |columns|
              && forall i :: 0 <= i < |columns| ==>
                   NormalizeColumns(columns, rules).value[i] ==
                     columns[i].(name := NormalizeIdentifier(columns[i].name),
                                 prefix := rules.normalizePrefix(columns[i].prefix))
  {
    if columns != [] {
      hide NormalizeIdentifier, IsSafeIdentifier, AllowedColumn, ColumnFits;
      var front, c := columns[..|columns| - 1], columns[|columns| - 1];
      assert columns == front + [c];
      ColumnsNormalizeIff(front, rules);
      forall i | 0 <= i < |front| ensures ColumnFits(columns, i, rules) <==> ColumnFits(front, i, rules) {
        FitsInFront(front, c, i, rules);
      }
      if NormalizeColumns(front, rules).Some? { LastFits(front, c, NormalizeColumns(front, rules).value, rules); }
    }
  }

  lemma FitsInFront(front: seq<Column>, c: Column, i: nat, rules: ColumnRules)
    requires i < |front|
    ensures ColumnFits(front + [c], i, rules) <==> ColumnFits(front, i, rules)
  {
    hide NormalizeIdentifier, IsSafeIdentifier, AllowedColumn;
    assert forall j :: 0 <= j < |front| ==> (front + [c])[j] == front[j];
  }

  lemma LastFits(front: seq<Column>, c: Column, done: seq<Column>, rules: ColumnRules)
    requires |done| == |front|
    requires forall i :: 0 <= i < |front| ==> done[i].name == NormalizeIdentifier(front[i].name)
    ensures ColumnFits(front + [c], |front|, rules) <==>
              var n := NormalizeColumn(c, rules);
              IsSafeIdentifier(n.name) && n.name !in ColumnNames(done) && AllowedColumn(n, rules)
  {
    hide NormalizeIdentifier, IsSafeIdentifier, AllowedColumn;
    var columns, name := front + [c], NormalizeIdentifier(c.name);
    assert columns[|front|] == c && forall j :: 0 <= j < |front| ==> columns[j] == front[j];
    if name in ColumnNames(done) {
      var d :| d in done && d.name == name;
      var j :| 0 <= j < |done| && done[j] == d;
      assert NormalizeIdentifier(columns[j].name) == name;
    }
    if j :| 0 <= j < |front| && NormalizeIdentifier(columns[j].name) == name {
      assert done[j] in done;
    }
  }

  /** A normalised table may be extended exactly when the declared one may. */
  lemma {:induction false} NormalizingKeepsExtensible(tables: seq<Table>, rules: ColumnRules)
    requires NormalizeTables(tables, rules).Some?
    ensures var n := NormalizeTables(tables, rules).value;
            |n| == |tables| && forall i :: 0 <= i < |tables| ==> n[i].extensible == tables[i].extensible
  {
    if tables != [] {
      hide NormalizeTables, NormalizeColumns, NormalizeIdentifier, IsSafeIdentifier;
      var front, t := tables[..|tables| - 1], tables[|tables| - 1];
      assert tables == front + [t];
      NormalizeTablesUnfold(front, t, rules);
      NormalizingKeepsExtensible(front, rules);
    }
  }
}
