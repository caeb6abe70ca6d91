/** From the text of a list filter to the assembled WHERE clause (cmd/server/table_query.go, handleTableView.go). */
module TableQueryWhere {
  import opened Common
  import opened Text
  import opened TableQueryTokens
  import opened TableQueryParsing
  import opened TableQueryPrinter
  import opened TableQuerySql
  import opened TableQueryPlaceholders

  datatype WhereError = Lexical(lexical: TokenError) | Syntax(syntax: ParseError) | Semantic(semantic: QueryError)

  datatype WhereClause =
    | Clause(sql: string, args: seq<Value>, structured: bool)
    | Rejected(error: WhereError, structured: bool)

  // ---- Is the filter a structured query? ----

  predicate Contains(s: string, part: string) {
    part <= s || (s != "" && Contains(s[1..], part))
  }

  lemma {:induction false} ContainsIff(s: string, part: string)
    ensures Contains(s, part) <==> exists i :: 0 <= i <= |s| && part <= s[i..]
  {
    if s == "" {
      assert s[0..] == s;
    } else {
      ContainsIff(s[1..], part);
      assert s[0..] == s;
      if i :| 0 <= i <= |s[1..]| && part <= s[1..][i..] { assert s[i + 1..] == s[1..][i..]; }
      if i :| 0 <= i <= |s| && part <= s[i..] && i > 0 { assert s[1..][i - 1..] == s[i..]; }
    }
  }

  predicate MentionsColumn(lower: string, key: string) {
    Contains(lower, key + "=") || Contains(lower, key + " ")
  }

  predicate HasComparisonCharacter(s: string) {
    '<' in s || '>' in s || '!' in s || '=' in s
  }

  predicate LooksLikeStructured(raw: string, keys: set<string>) {
    var lower := ToLower(raw);
    || Contains(lower, "&&")
    || Contains(lower, "||")
    || (exists key :: key in keys && MentionsColumn(lower, key))
    || HasComparisonCharacter(raw)
  }

  method LooksLikeStructuredQuery(raw: string, metaByName: map<string, TableQueryColumn>) returns (b: bool)
    ensures b == LooksLikeStructured(raw, metaByName.Keys)
  {
    var lower := ToLower(raw);
    if Contains(lower, "&&") || Contains(lower, "||") {
      return true;
    }
    var names := metaByName.Keys;
    while names != {}
      invariant names <= metaByName.Keys
      invariant forall key :: key in metaByName.Keys - names ==> !MentionsColumn(lower, key)
      decreases |names|
    {
      var name :| name in names;
      if MentionsColumn(lower, name) {
        return true;
      }
      names := names - {name};
    }
    return HasComparisonCharacter(raw);
  }

  // ---- Columns by lookup key ----

  function AddColumn(m: map<string, TableQueryColumn>, c: TableQueryColumn): map<string, TableQueryColumn> {
    m[ToLower(c.name) := c][NormalizeQueryLookupKey(c.name) := c][NormalizeQueryLookupKey(c.caption) := c]
  }

  function MetaByName(columns: seq<TableQueryColumn>): map<string, TableQueryColumn> {
    if columns == [] then map[] else AddColumn(MetaByName(columns[..|columns| - 1]), columns[|columns| - 1])
  }

  /** A column is found under its name, and under the keys of its name and caption, unless a later one takes them. */
  lemma {:induction false} ColumnIsFound(columns: seq<TableQueryColumn>, i: nat, key: string)
    requires i < |columns| && key in KeysOf(columns[i])
    requires forall j :: i < j < |columns| ==> key !in KeysOf(columns[j])
    ensures key in MetaByName(columns) && MetaByName(columns)[key] == columns[i]
  {
    hide NormalizeQueryLookupKey, ToLower;
    if i < |columns| - 1 {
      ColumnIsFound(columns[..|columns| - 1], i, key);
      assert key !in KeysOf(columns[|columns| - 1]);
    }
  }

  /** No other key finds a column. */
  lemma {:induction false} OnlyKeysFind(columns: seq<TableQueryColumn>, key: string)
    requires key in MetaByName(columns)
    ensures exists i :: 0 <= i < |columns| && key in KeysOf(columns[i]) && MetaByName(columns)[key] == columns[i]
  {
    hide NormalizeQueryLookupKey, ToLower;
    var front, last := columns[..|columns| - 1], columns[|columns| - 1];
    if key !in KeysOf(last) {
      OnlyKeysFind(front, key);
      var i :| 0 <= i < |front| && key in KeysOf(front[i]) && MetaByName(front)[key] == front[i];
      assert columns[i] == front[i];
    }
  }

  function KeysOf(c: TableQueryColumn): set<string> {
    {ToLower(c.name), NormalizeQueryLookupKey(c.name), NormalizeQueryLookupKey(c.caption)}
  }

  function PlainParts(columns: seq<TableQueryColumn>, quotedCols: map<string, string>): seq<string> {
    if columns == [] then [] else
    var col := columns[|columns| - 1];
    PlainParts(columns[..|columns| - 1], quotedCols)
      + ["CAST(" + (if col.name in quotedCols then quotedCols[col.name] else "") + " AS TEXT) ILIKE $1"]
  }

  function PlainTextClause(columns: seq<TableQueryColumn>, quotedCols: map<string, string>): string {
    "(" + Join(PlainParts(columns, quotedCols), " OR ") + ")"
  }

  function ContextOf(columns: seq<TableQueryColumn>, quotedCols: map<string, string>, lib: Library): Context {
    Context(MetaByName(columns), quotedCols, lib)
  }

  /** The filter reaches the tokenizer only when it looks structured, and then the tokenizer must stop. */
  predicate FilterAccepted(raw: string, columns: seq<TableQueryColumn>) {
    var filter := TrimSpace(raw);
    LooksLikeStructured(filter, MetaByName(columns).Keys) ==> BangsPaired(filter, false)
  }

  function StructuredClause(filter: string, ctx: Context): WhereClause
    requires BangsPaired(filter, false)
  {
    TokensEndInEof(filter);
    var tokens := Tokens(filter);
    if tokens.Err? then Rejected(Lexical(tokens.error), true) else
    var root := ParseQuery(tokens.value);
    if root.Err? then Rejected(Syntax(root.error), true) else
    var compiled := Compile(ctx, root.value, []);
    match compiled.result
    case Err(e) => Rejected(Semantic(e), true)
    case Ok(sql) => Clause(Render(sql), compiled.args, true)
  }

  function PlainClause(filter: string, columns: seq<TableQueryColumn>, quotedCols: map<string, string>): WhereClause {
    Clause(PlainTextClause(columns, quotedCols), [Words("%" + filter + "%")], false)
  }

  /**
   * Nothing for a blank filter, one pattern over all columns for a plain one, the
   * compiled tree for a structured one.
   */
  function TableWhere(raw: string, columns: seq<TableQueryColumn>, quotedCols: map<string, string>,
                      lib: Library): WhereClause
    requires FilterAccepted(raw, columns)
  {
    var filter := TrimSpace(raw);
    if filter == "" then Clause("", [], false)
    else if LooksLikeStructured(filter, MetaByName(columns).Keys) then StructuredClause(filter,
        ContextOf(columns, quotedCols, lib))
    else PlainClause(filter, columns, quotedCols)
  }

  method BuildTableWhereClause(raw: string, columns: seq<TableQueryColumn>, quotedCols: map<string, string>,
                               lib: Library) returns (r: WhereClause)
    requires FilterAccepted(raw, columns)
    ensures r == TableWhere(raw, columns, quotedCols, lib)
  {
    hide LooksLikeStructured, Compile, PlainTextClause, ParseQuery, Tokens, BangsPaired, TrimSpace, AddColumn;
    var filter := TrimSpace(raw);
    if filter == "" {
      return Clause("", [], false);
    }
    var metaByName: map<string, TableQueryColumn> := map[];
    for i := 0 to |columns|
      invariant metaByName == MetaByName(columns[..i])
    {
      assert columns[..i + 1][..i] == columns[..i];
      metaByName := AddColumn(metaByName, columns[i]);
    }
    assert columns[..|columns|] == columns;
    var structured := LooksLikeStructuredQuery(filter, metaByName);
    if !structured {
      return Clause(PlainTextClause(columns, quotedCols), [Words("%" + filter + "%")], false);
    }
    var tokens := TokenizeTableQuery(filter);
    if tokens.Err? {
      return Rejected(Lexical(tokens.error), true);
    }
    var root := ParseTableQuery(tokens.value);
    if root.Err? {
      return Rejected(Syntax(root.error), true);
    }
    var args := new ArgumentList();
    var sql := BuildStructuredQuerySql(Context(metaByName, quotedCols, lib), root.value, args);
    if sql.Err? {
      return Rejected(Semantic(sql.error), true);
    }
    return Clause(sql.value, args.items, true);
  }

  // ---- A printed tree is read, parsed and compiled as itself ----

  lemma {:induction false} PrintedShape(n: Node)
    requires Printable(n)
    ensures Print(n) != "" && Trimmed(Print(n)) && HasComparisonCharacter(Print(n))
  {
    match n
    case Cond(c) =>
      var s := Print(n);
      assert s[0] == c.column[0] && s[|s| - 1] == '"';
      assert s[|c.column|] == OperatorText(c.op)[0];
    case And(l, r) =>
      PrintedShape(r);
      BracketKeeps(Print(l), AndAnd, Print(r));
    case Or(l, r) =>
      PrintedShape(r);
      BracketKeeps(Print(l), OrOr, Print(r));
  }

  lemma BracketKeeps(l: string, op: Operator, r: string)
    ensures var s := Bracket(l, op, r); s[0] == '(' && s[|s| - 1] == ')' && forall c :: c in r ==> c in s
  {
    var s := Bracket(l, op, r);
    var k := 1 + |l| + |OperatorText(op)|;
    forall i | 0 <= i < |r| ensures s[k + i] == r[i] {}
  }

  /** The filter text of any printable tree yields the clause compiled from that very tree. */
  lemma PrintedFilterCompilesToItsTree(n: Node, columns: seq<TableQueryColumn>, quotedCols: map<string, string>,
                                       lib: Library)
    requires Printable(n)
    ensures TrimSpace(Print(n)) == Print(n) != ""
    ensures LooksLikeStructured(Print(n), MetaByName(columns).Keys) && BangsPaired(Print(n), false)
    ensures var compiled := Compile(ContextOf(columns, quotedCols, lib), n, []);
            StructuredClause(Print(n), ContextOf(columns, quotedCols, lib)) ==
              match compiled.result
              case Ok(sql) => Clause(Render(sql), compiled.args, true)
              case Err(e) => Rejected(Semantic(e), true)
  {
    PrintedShape(n);
    TrimSpaceKeepsTrimmed(Print(n));
    RoundTrip(n);
  }

  // ---- The query assembled around the clause ----

  /** The equality the route adds in front of the filter. */
  datatype RouteFilter = RouteFilter(quotedColumn: string, value: Value)

  datatype ListQuery = ListQuery(where: string, args: seq<Value>)

  /** What the list page asks for: the route's equality, the filter text and the columns it searches. */
  datatype ListRequest = ListRequest(hideDeleted: bool, route: Option<RouteFilter>, serverFilter: string,
                                     columns: seq<TableQueryColumn>, quotedCols: map<string, string>, lib: Library)

  method AssembleListQuery(request: ListRequest) returns (q: ListQuery)
    requires FilterAccepted(request.serverFilter, request.columns)
    ensures q == Assembled(request)
  {
    hide TableWhere, WhereText, PlainTextClause, FilterAccepted, Decimal;
    var args: seq<Value> := [];
    var clauses: seq<string> := [];
    if request.hideDeleted {
      clauses := clauses + ["_deleted_at IS NULL"];
    }
    if request.route.Some? {
      clauses := clauses + [request.route.value.quotedColumn + " = $" + Decimal(|args| + 1)];
      args := args + [request.route.value.value];
    }
    if request.serverFilter != "" {
      var filter := BuildTableWhereClause(request.serverFilter, request.columns, request.quotedCols, request.lib);
      if filter.Rejected? {
        clauses := clauses + [PlainTextClause(request.columns, request.quotedCols)];
        args := args + [Words("%" + request.serverFilter + "%")];
      } else {
        clauses := clauses + [filter.sql];
        args := args + filter.args;
      }
    }
    assert clauses == DeletedClauses(request.hideDeleted) + RouteClauses(request.route) + FilterClauses(request);
    assert args == RouteArgs(request.route) + FilterArgs(request);
    return ListQuery(WhereText(clauses), args);
  }

  function Assembled(request: ListRequest): ListQuery
    requires FilterAccepted(request.serverFilter, request.columns)
  {
    ListQuery(
      WhereText(DeletedClauses(request.hideDeleted) + RouteClauses(request.route) + FilterClauses(request)),
      RouteArgs(request.route) + FilterArgs(request))
  }

  function WhereText(clauses: seq<string>): string {
    if |clauses| == 0 then "" else " WHERE " + Join(clauses, " AND ")
  }

  function DeletedClauses(hideDeleted: bool): seq<string> { if hideDeleted then ["_deleted_at IS NULL"] else [] }

  function RouteClauses(route: Option<RouteFilter>): seq<string> {
    if route.Some? then [route.value.quotedColumn + " = $" + Decimal(1)] else []
  }

  function RouteArgs(route: Option<RouteFilter>): seq<Value> { if route.Some? then [route.value.value] else [] }

  /** A filter that cannot be compiled is searched for as plain text. */
  function FilterClause(request: ListRequest): WhereClause
    requires FilterAccepted(request.serverFilter, request.columns)
  {
    var filter := TableWhere(request.serverFilter, request.columns, request.quotedCols, request.lib);
    if filter.Rejected? then PlainClause(request.serverFilter, request.columns, request.quotedCols) else filter
  }

  function FilterClauses(request: ListRequest): seq<string>
    requires FilterAccepted(request.serverFilter, request.columns)
  {
    if request.serverFilter == "" then [] else [FilterClause(request).sql]
  }

  function FilterArgs(request: ListRequest): seq<Value>
    requires FilterAccepted(request.serverFilter, request.columns)
  {
    if request.serverFilter == "" then [] else FilterClause(request).args
  }

  /** The page query: the same clause and arguments, followed by the page's limit and offset. */
  function PageQuery(q: ListQuery, quotedSort: string, descending: bool, pageSize: nat, offset: nat): ListQuery {
    ListQuery(
      q.where + PageTail(quotedSort, descending, |q.args|),
      q.args + [Number(pageSize as real), Number(offset as real)])
  }

  function PageTail(quotedSort: string, descending: bool, n: nat): string {
    " ORDER BY " + quotedSort + (if descending then " DESC" else " ASC") + " LIMIT $" + Decimal(n + 1) + " OFFSET $"
        + Decimal(n + 2)
  }

  // ---- Which assembled queries the database takes ----

  /** Quoted identifiers throughout, and a filter that was trimmed before. */
  predicate WellQuoted(request: ListRequest) {
    && QuotedNames(request.quotedCols)
    && (forall c :: c in request.columns ==> c.name in request.quotedCols)
    && (request.route.Some? ==> IsQuoted(request.route.value.quotedColumn))
    && (request.serverFilter != "" ==> TrimSpace(request.serverFilter) != "")
    && FilterAccepted(request.serverFilter, request.columns)
  }

  lemma WellQuotedAccepted(request: ListRequest)
    requires WellQuoted(request)
    ensures FilterAccepted(request.serverFilter, request.columns)
  {}

  predicate NoDigitStarts(parts: seq<string>) { forall i :: 0 <= i < |parts| ==> NoDigitStart(parts[i]) }

  function PlaceholdersOf(parts: seq<string>): set<nat> {
    if parts == [] then {} else PlaceholdersOf(parts[..|parts| - 1]) + Placeholders(parts[|parts| - 1])
  }

  lemma {:induction false} JoinPlaceholders(parts: seq<string>, separator: string)
    requires NoDigitStarts(parts) && separator != "" && NoDigitStart(separator) && '$' !in separator
    ensures Placeholders(Join(parts, separator)) == PlaceholdersOf(parts)
  {
    if |parts| == 1 {
      assert parts[..0] == [];
    } else if parts != [] {
      var front, last := parts[..|parts| - 1], parts[|parts| - 1];
      JoinPlaceholders(front, separator);
      NoPlaceholders(separator);
      PlaceholdersAppend(Join(front, separator), separator);
      PlaceholdersAppend(Join(front, separator) + separator, last);
    }
  }

  lemma {:induction false} PlainPartsPlaceholders(columns: seq<TableQueryColumn>, quotedCols: map<string, string>)
    requires QuotedNames(quotedCols) && forall c :: c in columns ==> c.name in quotedCols
    ensures |PlainParts(columns, quotedCols)| == |columns| && NoDigitStarts(PlainParts(columns, quotedCols))
    ensures PlaceholdersOf(PlainParts(columns, quotedCols)) == if columns == [] then {} else {1}
  {
    hide Placeholders, NoDigitStart, IsQuoted;
    if columns != [] {
      var front, last := columns[..|columns| - 1], columns[|columns| - 1];
      PlainPartsPlaceholders(front, quotedCols);
      var parts := PlainParts(columns, quotedCols);
      assert parts[..|parts| - 1] == PlainParts(front, quotedCols);
      PlainPartPlaceholder(quotedCols[last.name]);
    }
  }

  lemma PlainPartPlaceholder(quoted: string)
    requires IsQuoted(quoted)
    ensures Placeholders("CAST(" + quoted + " AS TEXT) ILIKE $1") == {1}
              && NoDigitStart("CAST(" + quoted + " AS TEXT) ILIKE $1")
  {
    hide IsQuoted, Placeholders;
    QuotedIsPlain(quoted);
    var before := "CAST(" + quoted + " AS TEXT) ILIKE ";
    OnePlaceholder(before, 1, "");
    assert "CAST(" + quoted + " AS TEXT) ILIKE $1" == before + ("$" + Decimal(1)) + "";
    assert before[0] == 'C';
  }

  /** The plain clause uses `$1`, unless there is no column to search. */
  lemma PlainPlaceholders(columns: seq<TableQueryColumn>, quotedCols: map<string, string>)
    requires QuotedNames(quotedCols) && forall c :: c in columns ==> c.name in quotedCols
    ensures Placeholders(PlainTextClause(columns, quotedCols)) == if columns == [] then {} else {1}
    ensures NoDigitStart(PlainTextClause(columns, quotedCols))
  {
    var parts := PlainParts(columns, quotedCols);
    PlainPartsPlaceholders(columns, quotedCols);
    JoinPlaceholders(parts, " OR ");
    var joined := Join(parts, " OR ");
    NoPlaceholders(")");
    PlaceholdersAppend("(" + joined, ")");
    assert ("(" + joined)[1..] == joined;
  }

  /** With no column nothing compiles. */
  lemma {:induction false} NoColumnsNoQuery(n: Node, quotedCols: map<string, string>, lib: Library)
    ensures Compile(ContextOf([], quotedCols, lib), n, []).result.Err?
  {
    match n
    case Cond(_) =>
    case And(l, _) => NoColumnsNoQuery(l, quotedCols, lib);
    case Or(l, _) => NoColumnsNoQuery(l, quotedCols, lib);
  }

  /** A filter clause uses the placeholders of its own arguments, and there is at least one. */
  lemma FilterPlaceholders(request: ListRequest)
    requires WellQuoted(request) && request.serverFilter != ""
    ensures var c := FilterClause(request);
            && 0 < |c.args| && NoDigitStart(c.sql)
            && Placeholders(c.sql) == if request.columns == [] then {} else Range(1, |c.args|)
  {
    var filter := TrimSpace(request.serverFilter);
    PlainPlaceholders(request.columns, request.quotedCols);
    hide Placeholders, Compile, PlainTextClause, LooksLikeStructured, NoDigitStart, QuotedNames;
    assert Range(1, 1) == {1};
    if LooksLikeStructured(filter, MetaByName(request.columns).Keys) {
      TokensEndInEof(filter);
      var ctx := ContextOf(request.columns, request.quotedCols, request.lib);
      if Tokens(filter).Ok? && ParseQuery(Tokens(filter).value).Ok? {
        var root := ParseQuery(Tokens(filter).value).value;
        if request.columns == [] { NoColumnsNoQuery(root, request.quotedCols, request.lib); }
        if Compile(ctx, root, []).result.Ok? { CompiledPlaceholders(ctx, root, []); }
      }
    }
  }

  lemma RoutePlaceholders(request: ListRequest)
    requires WellQuoted(request)
    ensures NoDigitStarts(DeletedClauses(request.hideDeleted) + RouteClauses(request.route))
    ensures PlaceholdersOf(DeletedClauses(request.hideDeleted) + RouteClauses(request.route)) ==
              Range(1, |RouteArgs(request.route)|)
  {
    hide Placeholders, IsQuoted, FilterAccepted, NoDigitStart, QuotedNames;
    var deleted := DeletedClauses(request.hideDeleted);
    DeletedPlaceholders(request.hideDeleted);
    if request.route.None? {
      assert deleted + RouteClauses(request.route) == deleted;
    } else {
      var clause := request.route.value.quotedColumn + " = $" + Decimal(1);
      RoutePlaceholder(request.route.value.quotedColumn);
      assert (deleted + [clause])[..|deleted|] == deleted;
    }
  }

  lemma DeletedPlaceholders(hideDeleted: bool)
    ensures NoDigitStarts(DeletedClauses(hideDeleted)) && PlaceholdersOf(DeletedClauses(hideDeleted)) == {}
  {
    NoPlaceholders("_deleted_at IS NULL");
    hide Placeholders;
    assert ["_deleted_at IS NULL"][..0] == [];
  }

  lemma RoutePlaceholder(quoted: string)
    requires IsQuoted(quoted)
    ensures Placeholders(quoted + " = $" + Decimal(1)) == {1} && NoDigitStart(quoted + " = $" + Decimal(1))
    ensures Range(1, 1) == {1} && Range(1, 0) == {}
  {
    hide IsQuoted, Placeholders, Decimal;
    QuotedIsPlain(quoted);
    OnePlaceholder(quoted + " = ", 1, "");
    assert quoted + " = $" + Decimal(1) == quoted + " = " + ("$" + Decimal(1)) + "";
  }

  lemma WherePlaceholders(clauses: seq<string>)
    requires NoDigitStarts(clauses)
    ensures Placeholders(WhereText(clauses)) == PlaceholdersOf(clauses) && NoDigitStart(WhereText(clauses))
  {
    JoinPlaceholders(clauses, " AND ");
    if clauses != [] {
      JoinStarts(clauses, " AND ");
      NoPlaceholders(" WHERE ");
      PlaceholdersAppend(" WHERE ", Join(clauses, " AND "));
    }
  }

  lemma {:induction false} JoinStarts(parts: seq<string>, separator: string)
    requires NoDigitStarts(parts) && NoDigitStart(separator) && separator != ""
    ensures NoDigitStart(Join(parts, separator))
  {
    if |parts| > 1 { JoinStarts(parts[..|parts| - 1], separator); }
  }

  /** The placeholders of the assembled clause: the route's first one and those of the filter, both counted from 1. */
  lemma AssembledPlaceholders(request: ListRequest)
    requires WellQuoted(request)
    ensures var q := Assembled(request);
            && NoDigitStart(q.where)
            && Placeholders(q.where) ==
                 Range(1, |RouteArgs(request.route)|) + (if request.columns == [] then {}
                                                         else Range(1, |FilterArgs(request)|))
  {
    hide Placeholders, FilterClause, NoDigitStart, RouteArgs, DeletedClauses, RouteClauses, WhereText;
    var front := DeletedClauses(request.hideDeleted) + RouteClauses(request.route);
    RoutePlaceholders(request);
    var all := front + FilterClauses(request);
    if request.serverFilter == "" {
      assert all == front;
    } else {
      FilterPlaceholders(request);
      assert all[..|front|] == front;
    }
    WherePlaceholders(all);
  }

  /**
   * The database takes the assembled query exactly when there is no filter
   * text, or there is no route filter and some column to search: both number
   * their placeholders from 1, so together they leave an argument unused.
   * What it takes reads its own arguments.
   */
  lemma AssembledAcceptedIff(request: ListRequest)
    requires WellQuoted(request)
    ensures var q := Assembled(request);
            StatementAccepted(q.where, q.args) <==>
                request.serverFilter == "" || (request.route.None? && request.columns != [])
    ensures StatementAccepted(Assembled(request).where, Assembled(request).args) ==>
              ReadsOwnArguments(FilterArgs(request), Assembled(request).args)
  {
    hide *;
    WellQuotedAccepted(request);
    AssembledPlaceholders(request);
    ArgumentCounts(request);
    RangesMeet(|RouteArgs(request.route)|, |FilterArgs(request)|, request.columns != []);
  }

  lemma ArgumentCounts(request: ListRequest)
    requires WellQuoted(request)
    ensures |RouteArgs(request.route)| == if request.route.Some? then 1 else 0
    ensures FilterArgs(request) == [] <==> request.serverFilter == ""
    ensures Assembled(request).args == RouteArgs(request.route) + FilterArgs(request)
    ensures var q := Assembled(request);
            && (StatementAccepted(q.where, q.args) <==> Placeholders(q.where) == Range(1, |q.args|))
            && (request.route.None? || FilterArgs(request) == [] ==> ReadsOwnArguments(FilterArgs(request), q.args))
  {
    hide Placeholders, FilterClause, WellQuoted, WhereText, DeletedClauses, RouteClauses;
    if request.serverFilter != "" { FilterPlaceholders(request); }
  }

  lemma RangesMeet(r: nat, m: nat, searched: bool)
    requires r <= 1
    ensures Range(1, r) + (if searched then Range(1, m) else {}) == Range(1, r + m) <==> m == 0 || (r == 0 && searched)
  {
    hide Range;
    assert m > 0 ==> r + m in Range(1, r + m);
    assert m == 0 ==> Range(1, m) == {};
    assert r == 0 ==> Range(1, r) == {};
  }

  /** Every placeholder `$(i + 1)` of the filter clause reads the filter's own i-th argument. */
  predicate ReadsOwnArguments(filterArgs: seq<Value>, assembled: seq<Value>) {
    && |filterArgs| <= |assembled|
    && forall i :: 0 <= i < |filterArgs| ==> assembled[i] == filterArgs[i]
  }

  lemma PageTailPlaceholders(quotedSort: string, descending: bool, n: nat)
    requires IsQuoted(quotedSort)
    ensures Placeholders(PageTail(quotedSort, descending, n)) == {n + 1, n + 2}
              && NoDigitStart(PageTail(quotedSort, descending, n))
  {
    hide Placeholders, IsQuoted, Decimal, NoDigitStart;
    QuotedIsPlain(quotedSort);
    var direction := if descending then " DESC" else " ASC";
    assert '$' !in direction;
    var before := " ORDER BY " + quotedSort + direction + " LIMIT ";
    var first, second := before + ("$" + Decimal(n + 1)) + "", " OFFSET " + ("$" + Decimal(n + 2)) + "";
    LimitPlaceholder(quotedSort, direction, n);
    OffsetPlaceholder(n);
    PlaceholdersAppend(first, second);
    assert PageTail(quotedSort, descending, n) == first + second;
    assert NoDigitStart(first + second) by { SpaceStarts(first + second); }
  }

  lemma SpaceStarts(s: string)
    requires s != "" && s[0] == ' '
    ensures NoDigitStart(s)
  {}

  lemma LimitPlaceholder(quotedSort: string, direction: string, n: nat)
    requires '$' !in quotedSort && '$' !in direction
    ensures Placeholders(" ORDER BY " + quotedSort + direction + " LIMIT " + ("$" + Decimal(n + 1)) + "") == {n + 1}
  {
    hide Placeholders, Decimal;
    OnePlaceholder(" ORDER BY " + quotedSort + direction + " LIMIT ", n + 1, "");
  }

  lemma OffsetPlaceholder(n: nat)
    ensures Placeholders(" OFFSET " + ("$" + Decimal(n + 2)) + "") == {n + 2}
    ensures NoDigitStart(" OFFSET " + ("$" + Decimal(n + 2)) + "")
  {
    hide Placeholders, Decimal;
    OnePlaceholder(" OFFSET ", n + 2, "");
  }

  /** The page query is taken exactly when the count query before it was. */
  lemma PageQueryAcceptedIff(request: ListRequest, quotedSort: string, descending: bool, pageSize: nat, offset: nat)
    requires WellQuoted(request) && IsQuoted(quotedSort)
    ensures var q := Assembled(request);
            var page := PageQuery(q, quotedSort, descending, pageSize, offset);
            StatementAccepted(page.where, page.args) <==> StatementAccepted(q.where, q.args)
  {
    hide *;
    WellQuotedAccepted(request);
    var q := Assembled(request);
    AssembledWithin(request);
    PageTailPlaceholders(quotedSort, descending, |q.args|);
    PlaceholdersAppend(q.where, PageTail(quotedSort, descending, |q.args|));
    TwoMore(Placeholders(q.where), |q.args|);
    PageParts(q, quotedSort, descending, pageSize, offset);
  }

  lemma AssembledWithin(request: ListRequest)
    requires WellQuoted(request)
    ensures NoDigitStart(Assembled(request).where)
    ensures forall k :: k in Placeholders(Assembled(request).where) ==> k <= |Assembled(request).args|
  {
    hide *;
    AssembledPlaceholders(request);
    ArgumentCounts(request);
  }

  lemma TwoMore(used: set<nat>, n: nat)
    requires forall k :: k in used ==> k <= n
    ensures used + {n + 1, n + 2} == Range(1, n + 2) <==> used == Range(1, n)
  {
    hide Range;
    assert Range(1, n + 2) == Range(1, n) + {n + 1, n + 2};
    if used + {n + 1, n + 2} == Range(1, n + 2) {
      forall k ensures k in used <==> k in Range(1, n) {
        assert k in used + {n + 1, n + 2} <==> k in Range(1, n + 2);
      }
    }
  }

  lemma PageParts(q: ListQuery, quotedSort: string, descending: bool, pageSize: nat, offset: nat)
    ensures var page := PageQuery(q, quotedSort, descending, pageSize, offset);
            && page.where == q.where + PageTail(quotedSort, descending, |q.args|)
            && (StatementAccepted(page.where, page.args) <==> Placeholders(page.where) == Range(1, |q.args| + 2))
    ensures StatementAccepted(q.where, q.args) <==> Placeholders(q.where) == Range(1, |q.args|)
  {
    hide Placeholders, PageTail, Range;
  }

  /** The tree of a filter that tokenizes and parses. */
  function FilterTree(filter: string): Option<Node>
    requires BangsPaired(filter, false)
  {
    TokensEndInEof(filter);
    if Tokens(filter).Err? || ParseQuery(Tokens(filter).value).Err? then None
        else Some(ParseQuery(Tokens(filter).value).value)
  }

  /** Without a route filter a structured filter is taken, and its clause has the value of its tree on every row. */
  lemma AssembledMeaning(request: ListRequest, n: Node, row: Row)
    requires WellQuoted(request) && request.route.None? && request.serverFilter != ""
    requires LooksLikeStructured(TrimSpace(request.serverFilter), MetaByName(request.columns).Keys)
    requires FilterTree(TrimSpace(request.serverFilter)) == Some(n)
    requires Compile(ContextOf(request.columns, request.quotedCols, request.lib), n, []).result.Ok? && PatternsPlain(n)
    ensures var ctx, q := ContextOf(request.columns, request.quotedCols, request.lib), Assembled(request);
            var sql := Compile(ctx, n, []).result.value;
            && q.where == WhereText(DeletedClauses(request.hideDeleted) + [Render(sql)])
            && StatementAccepted(q.where, q.args)
            && Bound(sql, q.args)
            && Eval(ctx.lib, sql, row, q.args) == Meaning(ctx, n, row)
  {
    hide *;
    StructuredFilter(request, n);
    var ctx := ContextOf(request.columns, request.quotedCols, request.lib);
    CompilePreservesMeaning(ctx, n, [], Compile(ctx, n, []).args, row);
    AssembledAcceptedIff(request);
  }

  lemma StructuredFilter(request: ListRequest, n: Node)
    requires WellQuoted(request) && request.route.None? && request.serverFilter != ""
    requires LooksLikeStructured(TrimSpace(request.serverFilter), MetaByName(request.columns).Keys)
    requires FilterTree(TrimSpace(request.serverFilter)) == Some(n)
    requires Compile(ContextOf(request.columns, request.quotedCols, request.lib), n, []).result.Ok?
    ensures var compiled := Compile(ContextOf(request.columns, request.quotedCols, request.lib), n, []);
            && Assembled(request).where == WhereText(DeletedClauses(request.hideDeleted)
                                                     + [Render(compiled.result.value)])
            && Assembled(request).args == compiled.args
    ensures request.columns != []
    ensures ContextOf(request.columns, request.quotedCols, request.lib).lib == request.lib
  {
    hide Compile, LooksLikeStructured, ParseQuery, Tokens, BangsPaired, QuotedNames, WhereText;
    if request.columns == [] { NoColumnsNoQuery(n, request.quotedCols, request.lib); }
    var compiled := Compile(ContextOf(request.columns, request.quotedCols, request.lib), n, []);
    assert FilterClause(request) == Clause(Render(compiled.result.value), compiled.args, true);
    var deleted := DeletedClauses(request.hideDeleted);
    assert deleted + [] + [Render(compiled.result.value)] == deleted + [Render(compiled.result.value)];
    assert [] + compiled.args == compiled.args;
  }

  /**
   * On the preferences page, which shows the rows of one user, filtering by
   * that same user id: the filter's placeholder would read an equal value, but
   * the database refuses the statement.
   */
  lemma PreferencesFilterExample(id: string, lib: Library)
    requires Trimmed(id) && '"' !in id && '*' !in id
    ensures var request := PreferencesRequest(id, lib);
            && WellQuoted(request)
            && FilterArgs(request) == [Words(id)]
            && ReadsOwnArguments(FilterArgs(request), Assembled(request).args)
            && !StatementAccepted(Assembled(request).where, Assembled(request).args)
  {
    hide *;
    var n := Cond(Condition("user_id", Eq, id));
    var request := PreferencesRequest(id, lib);
    PreferencesFilterShape(id, lib);
    PrintedFilterCompilesToItsTree(n, request.columns, request.quotedCols, lib);
    PreferencesFilterArgs(id, lib);
    AssembledAcceptedIff(request);
  }

  function PreferencesRequest(id: string, lib: Library): ListRequest {
    ListRequest(true, Some(RouteFilter("\"user_id\"", Words(id))), Print(Cond(Condition("user_id", Eq, id))),
                [UserIdColumn()], map["user_id" := "\"user_id\""], lib)
  }

  function UserIdColumn(): TableQueryColumn { TableQueryColumn("user_id", "User", false, false, false) }

  lemma PreferencesFilterShape(id: string, lib: Library)
    requires Trimmed(id) && '"' !in id
    ensures Printable(Cond(Condition("user_id", Eq, id)))
    ensures var request := PreferencesRequest(id, lib);
            request.serverFilter == Print(Cond(Condition("user_id", Eq, id))) && request.route.Some?
  {
    hide Print, Trimmed;
  }

  lemma PreferencesFilterArgs(id: string, lib: Library)
    requires Trimmed(id) && '*' !in id
    requires var filter, request := Print(Cond(Condition("user_id", Eq, id))), PreferencesRequest(id, lib);
             && TrimSpace(filter) == filter != "" && LooksLikeStructured(filter, MetaByName(request.columns).Keys)
                  && BangsPaired(filter, false)
             && var ctx := ContextOf(request.columns, request.quotedCols, lib);
             var compiled := Compile(ctx, Cond(Condition("user_id", Eq, id)), []);
             StructuredClause(filter, ctx) ==
               match compiled.result
               case Ok(sql) => Clause(Render(sql), compiled.args, true)
               case Err(e) => Rejected(Semantic(e), true)
    ensures var request := PreferencesRequest(id, lib);
            && WellQuoted(request) && request.route.Some? && request.serverFilter != ""
            && FilterArgs(request) == [Words(id)]
            && ReadsOwnArguments(FilterArgs(request), Assembled(request).args)
  {
    hide Print, NormalizeQueryLookupKey, LooksLikeStructured, BangsPaired, StructuredClause, Tokens, ParseQuery,
         ToLower, WhereText, Trimmed;
    TrimSpaceKeepsTrimmed(id);
    hide TrimSpace;
    var request := PreferencesRequest(id, lib);
    var c := UserIdColumn();
    assert [c][..0] == [];
    assert MetaByName([c]) == AddColumn(map[], c);
    assert MetaByName([c])[NormalizeQueryLookupKey("user_id")] == c;
    assert "\"user_id\""[1..8] == "user_id";
  }
}
