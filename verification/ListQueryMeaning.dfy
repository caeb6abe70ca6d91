/**
 * The rows an assembled list query selects, and the page it asks for, read off
 * its text (cmd/server/handleTableView.go).
 */
module ListQueryMeaning {
  import opened Common
  import opened Text
  import opened LikePatterns
  import opened TableQueryTokens
  import opened TableQueryParsing
  import opened TableQuerySql
  import opened TableQueryPlaceholders
  import opened TableQueryReader
  import opened TableQueryWhere

  // ---- Reading a WHERE clause ----

  datatype Part = NotDeleted | Test(sql: Sql)

  const DELETED := "_deleted_at IS NULL"

  function ReadPart(s: string): (r: Read<Part>)
    ensures r.Got? ==> |r.rest| < |s|
  {
    if DELETED <= s then Got(NotDeleted, s[|DELETED|..]) else
    var (sql, s1) :- ReadClause(s);
    Got(Test(sql), s1)
  }

  /** Parts joined by AND. */
  function ReadParts(s: string): Read<seq<Part>>
    decreases |s|
  {
    var (part, s1) :- ReadPart(s);
    if " AND " <= s1 then
      var (parts, s2) :- ReadParts(s1[5..]);
      Got([part] + parts, s2)
    else Got([part], s1)
  }

  function ReadWhere(s: string): Read<seq<Part>> {
    if " WHERE " <= s then ReadParts(s[7..]) else Got([], s)
  }

  function Deleted(row: Row): bool { "\"_deleted_at\"" in row }

  predicate PartsBound(parts: seq<Part>, args: seq<Value>) {
    forall p :: p in parts && p.Test? ==> Bound(p.sql, args)
  }

  /** All parts hold. */
  predicate Selects(lib: Library, parts: seq<Part>, row: Row, args: seq<Value>)
    requires PartsBound(parts, args)
  {
    forall p :: p in parts ==> if p.Test? then Eval(lib, p.sql, row, args) == True else !Deleted(row)
  }

  /** Whether the text selects the row; None when it is not a WHERE clause that its arguments fit. */
  function QuerySelects(lib: Library, text: string, row: Row, args: seq<Value>): Option<bool> {
    var r := ReadWhere(text);
    if r.Got? && r.rest == "" && PartsBound(r.value, args) then Some(Selects(lib, r.value, row, args)) else None
  }

  // ---- Reading back what is joined ----

  /** The text is read as the part, whatever stands behind it. */
  ghost predicate ReadsAs(text: string, part: Part) {
    forall after :: NoDigitStart(after) ==> ReadPart(text + after) == Got(part, after)
  }

  ghost predicate AllReadAs(texts: seq<string>, parts: seq<Part>) {
    |texts| == |parts| && forall i :: 0 <= i < |texts| ==> ReadsAs(texts[i], parts[i])
  }

  lemma LastPart(s: string, part: Part, rest: string)
    requires ReadPart(s) == Got(part, rest) && !(" AND " <= rest)
    ensures ReadParts(s) == Got([part], rest)
  {
    hide ReadPart;
  }

  lemma MoreParts(s: string, part: Part, tail: string, parts: seq<Part>, rest: string)
    requires ReadPart(s) == Got(part, " AND " + tail) && ReadParts(tail) == Got(parts, rest)
    ensures ReadParts(s) == Got([part] + parts, rest)
  {
    hide ReadPart;
    assert (" AND " + tail)[5..] == tail && " AND " <= " AND " + tail;
  }

  lemma ReadsBefore(text: string, part: Part, after: string)
    requires ReadsAs(text, part) && NoDigitStart(after)
    ensures ReadPart(text + after) == Got(part, after)
  {
    hide ReadPart;
  }

  lemma AllReadAt(texts: seq<string>, parts: seq<Part>)
    requires texts != [] && AllReadAs(texts, parts)
    ensures parts != [] && ReadsAs(texts[0], parts[0]) && AllReadAs(texts[1..], parts[1..]) && |parts| == |texts|
  {
    hide ReadsAs;
    assert ReadsAs(texts[0], parts[0]);
    assert forall i :: 0 <= i < |texts| - 1 ==> texts[1..][i] == texts[i + 1] && parts[1..][i] == parts[i + 1];
  }

  lemma SpaceStarts(word: string, s: string)
    requires word != "" && word[0] == ' '
    ensures NoDigitStart(word + s)
  {}

  lemma {:induction false} JoinedReads(texts: seq<string>, parts: seq<Part>, rest: string)
    requires texts != [] && AllReadAs(texts, parts) && NoDigitStart(rest) && !(" AND " <= rest)
    ensures ReadParts(Join(texts, " AND ") + rest) == Got(parts, rest)
  {
    hide *;
    AllReadAt(texts, parts);
    var text, more := texts[0], texts[1..];
    assert texts == [text] + more && parts == [parts[0]] + parts[1..];
    JoinConcat([text], [text], " AND ");
    if more == [] {
      ReadsBefore(text, parts[0], rest);
      LastPart(text + rest, parts[0], rest);
      assert parts == [parts[0]] && texts == [text];
    } else {
      var tail := Join(more, " AND ") + rest;
      JoinConcat([text], more, " AND ");
      JoinedReads(more, parts[1..], rest);
      SpaceStarts(" AND ", tail);
      ReadsBefore(text, parts[0], " AND " + tail);
      MoreParts(text + (" AND " + tail), parts[0], tail, parts[1..], rest);
      Grouped(text, " AND ", Join(more, " AND "), rest);
    }
  }

  lemma Grouped(a: string, b: string, c: string, d: string)
    ensures a + b + c + d == a + (b + (c + d))
  {}

  lemma WhereReads(texts: seq<string>, parts: seq<Part>, rest: string)
    requires AllReadAs(texts, parts) && NoDigitStart(rest) && !(" AND " <= rest) && !(" WHERE " <= rest)
    ensures ReadWhere(WhereText(texts) + rest) == Got(parts, rest)
  {
    hide *;
    if texts == [] {
      NoWhere(rest, parts);
    } else {
      JoinedReads(texts, parts, rest);
      SomeWhere(texts, Join(texts, " AND "), parts, rest);
    }
  }

  lemma NoWhere(rest: string, parts: seq<Part>)
    requires AllReadAs([], parts) && !(" WHERE " <= rest)
    ensures ReadWhere(WhereText([]) + rest) == Got(parts, rest)
  {
    assert "" + rest == rest;
  }

  lemma SomeWhere(texts: seq<string>, joined: string, parts: seq<Part>, rest: string)
    requires texts != [] && joined == Join(texts, " AND ") && ReadParts(joined + rest) == Got(parts, rest)
    ensures ReadWhere(WhereText(texts) + rest) == Got(parts, rest)
  {
    hide ReadParts, Join;
    assert (" WHERE " + joined) + rest == " WHERE " + (joined + rest);
    assert (" WHERE " + (joined + rest))[7..] == joined + rest;
  }

  lemma DeletedReads()
    ensures ReadsAs(DELETED, NotDeleted)
  {
    forall after ensures ReadPart(DELETED + after) == Got(NotDeleted, after) {
      assert (DELETED + after)[|DELETED|..] == after;
    }
  }

  /** A clause does not begin as the test for deleted records does. */
  lemma ClauseReads(text: string, sql: Sql)
    requires text != "" && text[0] != '_'
    requires forall after :: NoDigitStart(after) ==> ReadClause(text + after) == Got(sql, after)
    ensures ReadsAs(text, Test(sql))
  {
    hide ReadClause;
    forall after | NoDigitStart(after) ensures ReadPart(text + after) == Got(Test(sql), after) {
      assert (text + after)[0] == text[0] != DELETED[0];
    }
  }

  lemma RenderedReads(sql: Sql)
    requires Readable(sql)
    ensures ReadsAs(Render(sql), Test(sql))
  {
    RenderStarts(sql);
    forall after | NoDigitStart(after) ensures ReadClause(Render(sql) + after) == Got(sql, after) {
      RenderReads(sql, after);
    }
    hide Render, ReadClause, ReadsAs;
    ClauseReads(Render(sql), sql);
  }

  lemma RenderStarts(sql: Sql)
    requires Readable(sql)
    ensures Render(sql) != "" && Render(sql)[0] != '_'
  {}

  // ---- The plain search ----

  /** Some searched column matches the pattern of the one argument. */
  function PlainSql(columns: seq<TableQueryColumn>, quotedCols: map<string, string>): Sql
    requires columns != [] && forall c :: c in columns ==> c.name in quotedCols
  {
    var last := columns[|columns| - 1];
    var like := LikeText(quotedCols[last.name], false, 1);
    if |columns| == 1 then like else OrSql(PlainSql(columns[..|columns| - 1], quotedCols), like)
  }

  /** The parts after the first, each with the word before it. */
  function OrTail(columns: seq<TableQueryColumn>, quotedCols: map<string, string>): string
    requires forall c :: c in columns ==> c.name in quotedCols
  {
    if |columns| <= 1 then "" else
    var last := columns[|columns| - 1];
    OrTail(columns[..|columns| - 1], quotedCols) + (" OR " + RenderLike(quotedCols[last.name], false, 1))
  }

  lemma PartsAppend(front: seq<TableQueryColumn>, last: TableQueryColumn, quotedCols: map<string, string>)
    requires last.name in quotedCols && forall c :: c in front ==> c.name in quotedCols
    ensures PlainParts(front + [last], quotedCols) ==
              PlainParts(front, quotedCols) + [RenderLike(quotedCols[last.name], false, 1)]
    ensures front != [] ==> OrTail(front + [last], quotedCols) ==
                            OrTail(front, quotedCols) + (" OR " + RenderLike(quotedCols[last.name], false, 1))
    ensures OrTail([last], quotedCols) == "" && PlainParts([], quotedCols) == []
  {
    LikeIsPart(quotedCols[last.name]);
    hide RenderLike;
    assert (front + [last])[..|front|] == front;
  }

  lemma {:induction false} PlainSpelled(columns: seq<TableQueryColumn>, quotedCols: map<string, string>)
    requires columns != [] && forall c :: c in columns ==> c.name in quotedCols
    ensures PlainParts(columns, quotedCols) != []
    ensures Join(PlainParts(columns, quotedCols), " OR ") ==
              RenderLike(quotedCols[columns[0].name], false, 1) + OrTail(columns, quotedCols)
  {
    hide *;
    var front, last := columns[..|columns| - 1], columns[|columns| - 1];
    assert columns == front + [last];
    PartsAppend(front, last, quotedCols);
    var part := RenderLike(quotedCols[last.name], false, 1);
    JoinConcat([part], [part], " OR ");
    if front == [] {
      assert columns == [last] && [] + [part] == [part] && part + "" == part;
    } else {
      PlainSpelled(front, quotedCols);
      JoinConcat(PlainParts(front, quotedCols), [part], " OR ");
      Grouped(RenderLike(quotedCols[columns[0].name], false, 1), OrTail(front, quotedCols), " OR ", part);
    }
  }

  lemma LikeIsPart(quoted: string)
    ensures RenderLike(quoted, false, 1) == "CAST(" + quoted + " AS TEXT) ILIKE $1"
  {
    var a := "CAST(" + quoted + " AS TEXT) ";
    assert Decimal(1) == "1" && "ILIKE" + (" $" + "1") == "ILIKE $1";
    assert RenderLike(quoted, false, 1) == a + ("ILIKE" + (" $" + Decimal(1)));
  }

  lemma OneMoreOr(read: Sql, s: string, next: Sql, after: string)
    requires ReadClause(s) == Got(next, after)
    ensures ReadOrs(read, " OR " + s) == ReadOrs(OrSql(read, next), after)
  {
    hide ReadClause;
    var text := " OR " + s;
    assert text[0] == ' ' && !(")" <= text);
    WordReads(" OR ", s);
  }

  lemma PlainSqlAppend(front: seq<TableQueryColumn>, last: TableQueryColumn, quotedCols: map<string, string>)
    requires last.name in quotedCols && forall c :: c in front ==> c.name in quotedCols
    ensures PlainSql([last], quotedCols) == LikeText(quotedCols[last.name], false, 1)
    ensures front != [] ==> PlainSql(front + [last], quotedCols) ==
                            OrSql(PlainSql(front, quotedCols), LikeText(quotedCols[last.name], false, 1))
  {
    assert (front + [last])[..|front|] == front;
  }

  lemma {:induction false} OrTailReads(columns: seq<TableQueryColumn>, quotedCols: map<string, string>, after: string)
    requires columns != [] && (forall c :: c in columns ==> c.name in quotedCols) && QuotedNames(quotedCols)
    requires NoDigitStart(after)
    ensures ReadOrs(LikeText(quotedCols[columns[0].name], false, 1), OrTail(columns, quotedCols) + after) ==
              ReadOrs(PlainSql(columns, quotedCols), after)
    ensures |columns| > 1 ==> " OR " <= OrTail(columns, quotedCols)
  {
    hide *;
    var front, last := columns[..|columns| - 1], columns[|columns| - 1];
    assert columns == front + [last];
    PartsAppend(front, last, quotedCols);
    PlainSqlAppend(front, last, quotedCols);
    if front == [] {
      assert columns == [last] && "" + after == after;
    } else {
      var part := RenderLike(quotedCols[last.name], false, 1);
      var next := " OR " + (part + after);
      SpaceStarts(" OR ", part + after);
      OrTailReads(front, quotedCols, next);
      AllQuoted(quotedCols, last.name);
      LikeReads(quotedCols[last.name], false, 1, after);
      OneMoreOr(PlainSql(front, quotedCols), part + after, LikeText(quotedCols[last.name], false, 1), after);
      TailGrouped(OrTail(front, quotedCols), part, after, |front| > 1);
      assert |front| == 1 ==> front == [front[0]];
      if |front| == 1 { PartsAppend([], front[0], quotedCols); }
    }
  }

  lemma AllQuoted(quotedCols: map<string, string>, name: string)
    requires QuotedNames(quotedCols) && name in quotedCols
    ensures IsQuoted(quotedCols[name])
  {
    hide IsQuoted;
  }

  lemma TailGrouped(tail: string, part: string, after: string, longer: bool)
    requires if longer then " OR " <= tail else true
    ensures (tail + (" OR " + part)) + after == tail + (" OR " + (part + after))
    ensures longer || tail == "" ==> " OR " <= tail + (" OR " + part)
  {
    assert tail == "" ==> tail + (" OR " + part) == " OR " + part;
  }

  /** A bracket is read when what it holds is. */
  lemma BracketOrs(first: Sql, held: string, tail: string, sql: Sql, after: string)
    requires ReadClause(held + (tail + (")" + after))) == Got(first, tail + (")" + after))
    requires if " OR " <= tail then ReadOrs(first, tail + (")" + after)) == ReadOrs(sql, ")" + after)
               else tail == "" && sql == first
    ensures ReadClause("(" + (held + (tail + (")" + after)))) == Got(sql, after)
  {
    hide ReadLeaf;
    var last := ")" + after;
    var s := "(" + (held + (tail + last));
    assert s[1..] == held + (tail + last) && s[0] == '(';
    assert ")" <= last && last[1..] == after;
    if " OR " <= tail {
      assert " OR " <= tail + last;
    } else {
      assert tail + last == last && last[0] == ')' && !(" OR " <= last);
    }
  }

  lemma PlainReads(columns: seq<TableQueryColumn>, quotedCols: map<string, string>, after: string)
    requires columns != [] && (forall c :: c in columns ==> c.name in quotedCols) && QuotedNames(quotedCols)
    ensures ReadClause(PlainTextClause(columns, quotedCols) + after) == Got(PlainSql(columns, quotedCols), after)
  {
    hide *;
    var quoted := quotedCols[columns[0].name];
    var first, tail, last := RenderLike(quoted, false, 1), OrTail(columns, quotedCols), ")" + after;
    PlainSpelled(columns, quotedCols);
    NotDigit(last);
    OrTailReads(columns, quotedCols, last);
    if |columns| == 1 {
      assert columns == [columns[0]];
      PartsAppend([], columns[0], quotedCols);
      PlainSqlAppend([], columns[0], quotedCols);
      assert "" + last == last;
    }
    TailStarts(tail, last, |columns| > 1);
    AllQuoted(quotedCols, columns[0].name);
    LikeReads(quoted, false, 1, tail + last);
    BracketOrs(LikeText(quoted, false, 1), first, tail, PlainSql(columns, quotedCols), after);
    PlainText(columns, quotedCols, first, tail, after);
  }

  lemma TailStarts(tail: string, last: string, longer: bool)
    requires if longer then " OR " <= tail else tail == ""
    requires last != "" && last[0] == ')'
    ensures NoDigitStart(tail + last)
  {
    assert longer ==> (tail + last)[0] == ' ';
  }

  lemma PlainText(columns: seq<TableQueryColumn>, quotedCols: map<string, string>, first: string, tail: string,
                  after: string)
    requires Join(PlainParts(columns, quotedCols), " OR ") == first + tail
    ensures PlainTextClause(columns, quotedCols) + after == "(" + (first + (tail + (")" + after)))
  {
    hide PlainParts, Join;
  }

  lemma PlainReadsAs(columns: seq<TableQueryColumn>, quotedCols: map<string, string>)
    requires columns != [] && (forall c :: c in columns ==> c.name in quotedCols) && QuotedNames(quotedCols)
    ensures ReadsAs(PlainTextClause(columns, quotedCols), Test(PlainSql(columns, quotedCols)))
  {
    var text := PlainTextClause(columns, quotedCols);
    assert text[0] == '(';
    forall after | NoDigitStart(after) ensures ReadClause(text + after) == Got(PlainSql(columns, quotedCols), after) {
      PlainReads(columns, quotedCols, after);
    }
    hide PlainTextClause, ReadClause, ReadsAs, PlainSql, QuotedNames;
    ClauseReads(text, PlainSql(columns, quotedCols));
  }

  /** The plain search finds a row exactly when some column that is not null matches the pattern. */
  predicate PlainFinds(columns: seq<TableQueryColumn>, quotedCols: map<string, string>, lib: Library, pattern: string,
                       row: Row)
    requires forall c :: c in columns ==> c.name in quotedCols
  {
    exists c :: c in columns && quotedCols[c.name] in row && ILike(pattern, CastText(lib, row[quotedCols[c.name]]))
  }

  lemma {:induction false} PlainMeaning(columns: seq<TableQueryColumn>, quotedCols: map<string, string>, lib: Library,
                                        pattern: string, row: Row)
    requires columns != [] && forall c :: c in columns ==> c.name in quotedCols
    ensures Bound(PlainSql(columns, quotedCols), [Words(pattern)])
    ensures Eval(lib, PlainSql(columns, quotedCols), row, [Words(pattern)]) == True <==>
              PlainFinds(columns, quotedCols, lib, pattern, row)
  {
    hide ILike;
    var front, last := columns[..|columns| - 1], columns[|columns| - 1];
    assert columns == front + [last];
    if front != [] { PlainMeaning(front, quotedCols, lib, pattern, row); }
  }

  // ---- The rows a list request is answered with ----

  /** The tree of a filter that looks structured, reads and compiles. */
  function StructuredTree(request: ListRequest): Option<Node>
    requires FilterAccepted(request.serverFilter, request.columns)
  {
    var filter := TrimSpace(request.serverFilter);
    if !LooksLikeStructured(filter, MetaByName(request.columns).Keys) then None else
    var tree := FilterTree(filter);
    if tree.Some? && Compile(ContextOf(request.columns, request.quotedCols, request.lib), tree.value, []).result.Ok?
    then tree else None
  }

  /** What is searched for when the filter is no query: its text, as it came when it was rejected, else trimmed. */
  function SearchedText(request: ListRequest): string {
    var filter := TrimSpace(request.serverFilter);
    if LooksLikeStructured(filter, MetaByName(request.columns).Keys) then request.serverFilter else filter
  }

  /** What the filter of a request asks of a row. */
  predicate FilterHolds(request: ListRequest, row: Row)
    requires WellQuoted(request)
  {
    request.serverFilter == ""
    || if StructuredTree(request).Some?
       then Meaning(ContextOf(request.columns, request.quotedCols, request.lib), StructuredTree(request).value, row) ==
           True
       else PlainFinds(request.columns, request.quotedCols, request.lib, "%" + SearchedText(request) + "%", row)
  }

  predicate RouteHolds(request: ListRequest, row: Row) {
    request.route.Some? ==>
      && request.route.value.quotedColumn in row
      && request.lib.holds(row[request.route.value.quotedColumn], Eq, request.route.value.value)
  }

  function FilterSql(request: ListRequest): Sql
    requires WellQuoted(request) && request.columns != []
  {
    var tree := StructuredTree(request);
    if tree.Some?
    then Compile(ContextOf(request.columns, request.quotedCols, request.lib), tree.value, []).result.value
    else PlainSql(request.columns, request.quotedCols)
  }

  lemma FilterClauseIs(request: ListRequest)
    requires WellQuoted(request) && request.serverFilter != ""
    ensures var tree := StructuredTree(request);
            FilterClause(request) ==
              if tree.Some? then
                var compiled := Compile(ContextOf(request.columns, request.quotedCols, request.lib), tree.value, []);
                Clause(Render(compiled.result.value), compiled.args, true)
              else PlainClause(SearchedText(request), request.columns, request.quotedCols)
  {
    hide Compile, LooksLikeStructured, ParseQuery, Tokens, BangsPaired, QuotedNames, PlainTextClause, Render,
         MetaByName;
  }

  lemma FilterReads(request: ListRequest)
    requires WellQuoted(request) && request.serverFilter != "" && request.columns != []
    ensures ReadsAs(FilterClause(request).sql, Test(FilterSql(request)))
  {
    FilterClauseIs(request);
    hide ReadsAs, FilterClause, Compile, PlainTextClause, LooksLikeStructured, Render, PlainSql, Readable, QuotedNames,
         FilterAccepted, MetaByName, Tokens, ParseQuery;
    if StructuredTree(request).Some? {
      CompiledIsReadable(ContextOf(request.columns, request.quotedCols, request.lib), StructuredTree(request).value,
                         []);
      RenderedReads(FilterSql(request));
    } else {
      PlainReadsAs(request.columns, request.quotedCols);
    }
  }

  /** Under its own arguments the filter's clause is true exactly of the rows the filter asks for. */
  lemma FilterMeaning(request: ListRequest, row: Row)
    requires WellQuoted(request) && request.serverFilter != "" && request.columns != []
    requires StructuredTree(request).Some? ==> PatternsPlain(StructuredTree(request).value)
    ensures Bound(FilterSql(request), FilterArgs(request))
    ensures Eval(request.lib, FilterSql(request), row, FilterArgs(request)) == True <==> FilterHolds(request, row)
  {
    FilterClauseIs(request);
    hide FilterClause, Compile, PlainTextClause, LooksLikeStructured, Render, PlainSql, QuotedNames, Meaning, Eval,
         Bound,
         FilterAccepted, MetaByName, Tokens, ParseQuery, PlainFinds, PatternsPlain;
    var ctx := ContextOf(request.columns, request.quotedCols, request.lib);
    if StructuredTree(request).Some? {
      var n := StructuredTree(request).value;
      CompilePreservesMeaning(ctx, n, [], Compile(ctx, n, []).args, row);
    } else {
      PlainMeaning(request.columns, request.quotedCols, request.lib, "%" + SearchedText(request) + "%", row);
    }
  }

  function RouteSql(request: ListRequest): Sql
    requires request.route.Some?
  {
    Compare(request.route.value.quotedColumn, Eq, 1)
  }

  lemma RouteReads(quoted: string)
    requires IsQuoted(quoted)
    ensures ReadsAs(quoted + " = $" + Decimal(1), Test(Compare(quoted, Eq, 1)))
  {
    hide *;
    EqualsSpelled(quoted);
    RouteReadable(quoted);
    RenderedReads(Compare(quoted, Eq, 1));
  }

  lemma RouteReadable(quoted: string)
    requires IsQuoted(quoted)
    ensures Readable(Compare(quoted, Eq, 1))
  {}

  lemma EqualsSpelled(quoted: string)
    ensures Render(Compare(quoted, Eq, 1)) == quoted + " = $" + Decimal(1)
  {
    hide Decimal;
    assert " = $" == " " + "=" + " $";
    assert quoted + " " + "=" + " $" == quoted + " = $";
  }

  /** The parts of the assembled clause. */
  function PartsOf(request: ListRequest): seq<Part>
    requires WellQuoted(request) && (request.serverFilter == "" || request.columns != [])
  {
    DeletedParts(request.hideDeleted) + RouteParts(request) + FilterParts(request)
  }

  function DeletedParts(hideDeleted: bool): seq<Part> { if hideDeleted then [NotDeleted] else [] }

  function RouteParts(request: ListRequest): seq<Part> {
    if request.route.Some? then [Test(RouteSql(request))] else []
  }

  function FilterParts(request: ListRequest): seq<Part>
    requires WellQuoted(request) && (request.serverFilter == "" || request.columns != [])
  {
    if request.serverFilter == "" then [] else [Test(FilterSql(request))]
  }

  lemma AssembledReads(request: ListRequest, rest: string)
    requires WellQuoted(request) && (request.serverFilter == "" || request.columns != [])
    requires NoDigitStart(rest) && !(" AND " <= rest) && !(" WHERE " <= rest)
    ensures ReadWhere(Assembled(request).where + rest) == Got(PartsOf(request), rest)
  {
    hide *;
    DeletedPart(request.hideDeleted);
    RoutePart(request);
    FilterPart(request);
    var deleted, route, filter := DeletedClauses(request.hideDeleted), RouteClauses(request.route),
                                    FilterClauses(request);
    ReadBoth(deleted, DeletedParts(request.hideDeleted), route, RouteParts(request));
    ReadBoth(deleted + route, DeletedParts(request.hideDeleted) + RouteParts(request), filter, FilterParts(request));
    PartsAre(request);
    WhereReads(deleted + route + filter, PartsOf(request), rest);
    WhereOf(request);
  }

  lemma PartsAre(request: ListRequest)
    requires WellQuoted(request) && (request.serverFilter == "" || request.columns != [])
    ensures PartsOf(request) == DeletedParts(request.hideDeleted) + RouteParts(request) + FilterParts(request)
  {
    hide WellQuoted;
  }

  lemma WhereOf(request: ListRequest)
    requires FilterAccepted(request.serverFilter, request.columns)
    ensures Assembled(request).where ==
              WhereText(DeletedClauses(request.hideDeleted) + RouteClauses(request.route) + FilterClauses(request))
  {}

  lemma ReadBoth(a: seq<string>, p: seq<Part>, b: seq<string>, q: seq<Part>)
    requires AllReadAs(a, p) && AllReadAs(b, q)
    ensures AllReadAs(a + b, p + q)
  {
    hide ReadsAs;
  }

  lemma OneRead(text: string, part: Part)
    requires ReadsAs(text, part)
    ensures AllReadAs([text], [part])
  {
    hide ReadsAs;
  }

  lemma NoneRead()
    ensures AllReadAs([], [])
  {}

  lemma DeletedPart(hideDeleted: bool)
    ensures AllReadAs(DeletedClauses(hideDeleted), DeletedParts(hideDeleted))
  {
    DeletedReads();
    OneRead(DELETED, NotDeleted);
    NoneRead();
    hide ReadsAs, AllReadAs;
  }

  lemma RoutePart(request: ListRequest)
    requires WellQuoted(request)
    ensures AllReadAs(RouteClauses(request.route), RouteParts(request))
  {
    NoneRead();
    if request.route.Some? {
      var quoted := request.route.value.quotedColumn;
      RouteReads(quoted);
      OneRead(quoted + " = $" + Decimal(1), Test(Compare(quoted, Eq, 1)));
    }
    hide ReadsAs, AllReadAs, Decimal, FilterAccepted, QuotedNames;
  }

  lemma FilterPart(request: ListRequest)
    requires WellQuoted(request) && (request.serverFilter == "" || request.columns != [])
    ensures FilterAccepted(request.serverFilter, request.columns)
    ensures AllReadAs(FilterClauses(request), FilterParts(request))
  {
    NoneRead();
    if request.serverFilter != "" {
      FilterReads(request);
      OneRead(FilterClause(request).sql, Test(FilterSql(request)));
    }
    hide ReadsAs, AllReadAs, FilterClause, FilterSql, FilterAccepted, QuotedNames;
  }

  /**
   * The text of a query that the database takes, read on its own, selects
   * exactly the rows that are not deleted when those are hidden, that have the
   * route's value, and that the filter asks for.
   */
  lemma ListSelects(request: ListRequest, row: Row)
    requires WellQuoted(request) && StatementAccepted(Assembled(request).where, Assembled(request).args)
    requires StructuredTree(request).Some? ==> PatternsPlain(StructuredTree(request).value)
    ensures QuerySelects(request.lib, Assembled(request).where, row, Assembled(request).args) ==
              Some((request.hideDeleted ==> !Deleted(row)) && RouteHolds(request, row) && FilterHolds(request, row))
  {
    AssembledAcceptedIff(request);
    AssembledReads(request, "");
    if request.serverFilter != "" { FilterMeaning(request, row); }
    hide FilterHolds, WhereText, ReadWhere, FilterSql, FilterClause, FilterAccepted, QuotedNames, Decimal, TrimSpace,
         StatementAccepted, IsQuoted, DeletedClauses, RouteClauses, Render;
    var q := Assembled(request);
    assert q.where + "" == q.where;
    PartsSelect(request, row);
  }

  lemma PartsSelect(request: ListRequest, row: Row)
    requires WellQuoted(request) && (request.serverFilter == "" || (request.route.None? && request.columns != []))
    requires request.serverFilter != "" ==>
               && Bound(FilterSql(request), FilterArgs(request))
               && (Eval(request.lib, FilterSql(request), row, FilterArgs(request)) == True <==>
                   FilterHolds(request, row))
    ensures PartsBound(PartsOf(request), Assembled(request).args)
    ensures Selects(request.lib, PartsOf(request), row, Assembled(request).args) <==>
              (request.hideDeleted ==> !Deleted(row)) && RouteHolds(request, row) && FilterHolds(request, row)
  {
    hide FilterClause, FilterAccepted, QuotedNames, TrimSpace, FilterSql, IsQuoted, Deleted, WhereText;
    var parts, args := PartsOf(request), Assembled(request).args;
    if request.serverFilter == "" {
      hide Render;
      assert args == RouteArgs(request.route);
      assert request.route.Some? ==> Test(RouteSql(request)) in parts;
    } else {
      assert args == FilterArgs(request);
      assert Test(FilterSql(request)) in parts;
    }
    assert request.hideDeleted ==> NotDeleted in parts;
  }

  // ---- The page ----

  datatype Page = Page(sort: string, descending: bool, limit: nat, offset: nat)

  function ReadPage(s: string): Read<Page> {
    var (_, s1) :- Word(" ORDER BY ", s);
    var (sort, s2) :- Name(s1);
    var descending := " DESC" <= s2;
    var (_, s3) :- Word(if descending then " DESC" else " ASC", s2);
    var (_, s4) :- Word(" LIMIT ", s3);
    var (limit, s5) :- Dollar(s4);
    var (_, s6) :- Word(" OFFSET ", s5);
    var (offset, s7) :- Dollar(s6);
    Got(Page(sort, descending, limit, offset), s7)
  }

  lemma PageSpelled(quotedSort: string, descending: bool, n: nat)
    ensures PageTail(quotedSort, descending, n) ==
              " ORDER BY " + (quotedSort + ((if descending then " DESC" else " ASC")
                + (" LIMIT " + ("$" + (Decimal(n + 1) + (" OFFSET " + ("$" + (Decimal(n + 2) + ""))))))))
  {
    hide Decimal;
    var direction, first, second := if descending then " DESC" else " ASC", Decimal(n + 1), Decimal(n + 2);
    assert " LIMIT $" == " LIMIT " + "$" && " OFFSET $" == " OFFSET " + "$";
    Regrouped(" ORDER BY ", quotedSort, direction, " LIMIT $", first, " OFFSET $", second);
  }

  lemma PageSteps(s: string, s1: string, s2: string, s3: string, s4: string, s5: string, s6: string, s7: string,
                  page: Page)
    requires Word(" ORDER BY ", s) == Got((), s1) && Name(s1) == Got(page.sort, s2)
    requires (" DESC" <= s2 <==> page.descending)
               && Word(if page.descending then " DESC" else " ASC", s2) == Got((), s3)
    requires Word(" LIMIT ", s3) == Got((), s4) && Dollar(s4) == Got(page.limit, s5)
    requires Word(" OFFSET ", s5) == Got((), s6) && Dollar(s6) == Got(page.offset, s7)
    ensures ReadPage(s) == Got(page, s7)
  {
    hide Word, Name, Dollar;
  }

  lemma PageTailReads(quotedSort: string, descending: bool, n: nat)
    requires IsQuoted(quotedSort)
    ensures ReadPage(PageTail(quotedSort, descending, n)) == Got(Page(quotedSort, descending, n + 1, n + 2), "")
  {
    hide *;
    var direction := if descending then " DESC" else " ASC";
    var second := "$" + (Decimal(n + 2) + "");
    var first := "$" + (Decimal(n + 1) + (" OFFSET " + second));
    var limit := " LIMIT " + first;
    PageSpelled(quotedSort, descending, n);
    WordReads(" ORDER BY ", quotedSort + (direction + limit));
    NameReads(quotedSort, direction + limit);
    DirectionReads(descending, limit);
    WordReads(direction, limit);
    WordReads(" LIMIT ", first);
    SpaceStarts(" OFFSET ", second);
    DollarReads(n + 1, " OFFSET " + second);
    WordReads(" OFFSET ", second);
    BlankStarts();
    DollarReads(n + 2, "");
    PageSteps(PageTail(quotedSort, descending, n), quotedSort + (direction + limit), direction + limit, limit, first,
              " OFFSET " + second, second, "", Page(quotedSort, descending, n + 1, n + 2));
  }

  lemma BlankStarts()
    ensures NoDigitStart("")
  {}

  lemma DirectionReads(descending: bool, rest: string)
    ensures " DESC" <= (if descending then " DESC" else " ASC") + rest <==> descending
  {
    assert ((if descending then " DESC" else " ASC") + rest)[1] == if descending then 'D' else 'A';
  }

  /** The page query selects by the same parts, and asks for the page by the sort column, direction, size and offset. */
  lemma PageQueryReads(request: ListRequest, quotedSort: string, descending: bool, pageSize: nat, offset: nat)
    requires WellQuoted(request) && (request.serverFilter == "" || request.columns != []) && IsQuoted(quotedSort)
    ensures var q := PageQuery(Assembled(request), quotedSort, descending, pageSize, offset);
            var n := |Assembled(request).args|;
            && ReadWhere(q.where) == Got(PartsOf(request), PageTail(quotedSort, descending, n))
            && ReadPage(PageTail(quotedSort, descending, n)) == Got(Page(quotedSort, descending, n + 1, n + 2), "")
            && |q.args| == n + 2 && q.args[..n] == Assembled(request).args
            && q.args[n] == Number(pageSize as real) && q.args[n + 1] == Number(offset as real)
  {
    hide *;
    WellQuotedAccepted(request);
    var n := |Assembled(request).args|;
    var tail := PageTail(quotedSort, descending, n);
    PageTailReads(quotedSort, descending, n);
    TailStartsOther(quotedSort, descending, n);
    AssembledReads(request, tail);
    PageQueryIs(Assembled(request), quotedSort, descending, pageSize, offset);
  }

  lemma PageQueryIs(q: ListQuery, quotedSort: string, descending: bool, pageSize: nat, offset: nat)
    ensures var page, n := PageQuery(q, quotedSort, descending, pageSize, offset), |q.args|;
            && page.where == q.where + PageTail(quotedSort, descending, n)
            && |page.args| == n + 2 && page.args[..n] == q.args
            && page.args[n] == Number(pageSize as real) && page.args[n + 1] == Number(offset as real)
  {
    hide PageTail;
  }

  lemma TailStartsOther(quotedSort: string, descending: bool, n: nat)
    ensures var tail := PageTail(quotedSort, descending, n);
            NoDigitStart(tail) && !(" AND " <= tail) && !(" WHERE " <= tail)
  {
    PageSpelled(quotedSort, descending, n);
    hide Decimal;
    var tail := PageTail(quotedSort, descending, n);
    assert tail[0] == ' ' && tail[1] == 'O';
  }
}
