/** Compilation of a list query to a parameterised SQL clause (cmd/server/table_query.go). */
module TableQuerySql {
  import opened Common
  import opened Text
  import opened TableQueryTokens
  import opened TableQueryParsing
  import opened LikePatterns

  // ---- Columns and values ----

  datatype TableQueryColumn = TableQueryColumn(name: string, caption: string, isDateLike: bool, isNumber: bool,
                                               isBoolean: bool)

  /** A bound argument or a stored column value. */
  datatype Value = Words(text: string) | Number(number: real) | Flag(flag: bool) | Time(instant: int)

  /** A row by quoted column; a missing entry is NULL. */
  type Row = map<string, Value>

  /** The conversions and orderings of the standard library and of the database. */
  datatype Library = Library(
    parseDate: string -> Option<int>,
    parseFloat: string -> Option<real>,
    castText: Value -> string,
    holds: (Value, Operator, Value) -> bool,
    textLess: (string, string) -> bool)

  /** What a compilation is relative to: columns by lookup key, quoted names by column name. */
  datatype Context = Context(metaByName: map<string, TableQueryColumn>, quotedCols: map<string, string>, lib: Library)

  datatype QueryError =
    | UnknownColumn(column: string)
    | NotQueryable(column: string)
    | InvalidDate(column: string)
    | InvalidNumber(column: string)
    | InvalidBoolean(column: string)

  function NormalizeQueryLookupKey(raw: string): string {
    KeepAlphanumeric(ToLower(TrimSpace(raw)))
  }

  function KeepAlphanumeric(s: string): string {
    if s == "" then ""
    else (if 'a' <= s[0] <= 'z' || '0' <= s[0] <= '9' then [s[0]] else "") + KeepAlphanumeric(s[1..])
  }

  function ParseBoolValue(raw: string): Option<bool> {
    var v := ToLower(TrimSpace(raw));
    if v == "true" || v == "1" || v == "yes" then Some(true)
    else if v == "false" || v == "0" || v == "no" then Some(false)
    else None
  }

  function NormalizeOperator(op: Operator): Operator {
    if op.IsComparison() then op else Eq
  }

  function CastText(lib: Library, v: Value): string {
    if v.Words? then v.text else lib.castText(v)
  }

  // ---- The clause as a syntax tree, its text and its value on a row ----

  datatype Sql =
    | AndSql(left: Sql, right: Sql)
    | OrSql(left: Sql, right: Sql)
    | Compare(column: string, op: Operator, placeholder: nat)
    | CompareText(column: string, op: Operator, placeholder: nat)
    | LikeText(column: string, negated: bool, placeholder: nat)

  function SqlOperator(op: Operator): string {
    match op
    case Ne => "<>"
    case Lt => "<"
    case Gt => ">"
    case Le => "<="
    case Ge => ">="
    case _ => "="
  }

  function Decimal(n: nat): string {
    if n < 10 then [(n + 48) as char] else Decimal(n / 10) + [(n % 10 + 48) as char]
  }

  function RenderCompare(quoted: string, op: Operator, k: nat): string {
    quoted + " " + SqlOperator(op) + " $" + Decimal(k)
  }

  function RenderCompareText(quoted: string, op: Operator, k: nat): string {
    "LOWER(CAST(" + quoted + " AS TEXT)) " + SqlOperator(op) + " LOWER($" + Decimal(k) + ")"
  }

  function RenderLike(quoted: string, negated: bool, k: nat): string {
    "CAST(" + quoted + " AS TEXT) " + (if negated then "NOT ILIKE" else "ILIKE") + " $" + Decimal(k)
  }

  function Render(sql: Sql): string {
    match sql
    case AndSql(l, r) => "(" + Render(l) + " AND " + Render(r) + ")"
    case OrSql(l, r) => "(" + Render(l) + " OR " + Render(r) + ")"
    case Compare(c, op, k) => RenderCompare(c, op, k)
    case CompareText(c, op, k) => RenderCompareText(c, op, k)
    case LikeText(c, neg, k) => RenderLike(c, neg, k)
  }

  datatype Truth = True | False | Unknown

  function FromBool(b: bool): Truth { if b then True else False }

  function AndTruth(a: Truth, b: Truth): Truth {
    if a.False? || b.False? then False else if a.True? && b.True? then True else Unknown
  }

  function OrTruth(a: Truth, b: Truth): Truth {
    if a.True? || b.True? then True else if a.False? && b.False? then False else Unknown
  }

  function TextHolds(lib: Library, a: string, op: Operator, b: string): bool {
    match op
    case Ne => a != b
    case Lt => lib.textLess(a, b)
    case Gt => lib.textLess(b, a)
    case Le => !lib.textLess(b, a)
    case Ge => !lib.textLess(a, b)
    case _ => a == b
  }

  /** Every placeholder has an argument. */
  predicate Bound(sql: Sql, args: seq<Value>) {
    match sql
    case AndSql(l, r) => Bound(l, args) && Bound(r, args)
    case OrSql(l, r) => Bound(l, args) && Bound(r, args)
    case _ => 1 <= sql.placeholder <= |args|
  }

  /** The clause on a row, `$k` standing for `args[k - 1]`. */
  function Eval(lib: Library, sql: Sql, row: Row, args: seq<Value>): Truth
    requires Bound(sql, args)
  {
    match sql
    case AndSql(l, r) => AndTruth(Eval(lib, l, row, args), Eval(lib, r, row, args))
    case OrSql(l, r) => OrTruth(Eval(lib, l, row, args), Eval(lib, r, row, args))
    case _ =>
      if sql.column !in row then Unknown else
      var v, arg := row[sql.column], args[sql.placeholder - 1];
      match sql
      case Compare(_, op, _) => FromBool(lib.holds(v, op, arg))
      case CompareText(_, op, _) => FromBool(TextHolds(lib, ToLower(CastText(lib, v)), op, ToLower(CastText(lib, arg))))
      case LikeText(_, neg, _) => FromBool(ILike(CastText(lib, arg), CastText(lib, v)) != neg)
  }

  // ---- The meaning of a query tree on a row ----

  /** A text condition matches whole values, or `*` patterns, whatever the case. */
  function TextConditionHolds(lib: Library, stored: string, op: Operator, value: string): bool {
    if (op.Eq? || op.Ne?) && '*' in value then IGlob(value, stored) == op.Eq?
    else TextHolds(lib, ToLower(stored), NormalizeOperator(op), ToLower(value))
  }

  function ConditionMeaning(ctx: Context, c: Condition, row: Row): Truth {
    var key := NormalizeQueryLookupKey(c.column);
    if key !in ctx.metaByName || ctx.metaByName[key].name !in ctx.quotedCols then Unknown else
    var meta := ctx.metaByName[key];
    var quoted := ctx.quotedCols[meta.name];
    if quoted !in row then Unknown else
    var v, value, op := row[quoted], TrimSpace(c.value), NormalizeOperator(c.op);
    if meta.isDateLike then
      (if ctx.lib.parseDate(value).Some? then FromBool(ctx.lib.holds(v, op, Time(ctx.lib.parseDate(value).value)))
       else Unknown)
    else if meta.isNumber then
      (if ctx.lib.parseFloat(value).Some? then FromBool(ctx.lib.holds(v, op,
          Number(ctx.lib.parseFloat(value).value))) else Unknown)
    else if meta.isBoolean then
      (if ParseBoolValue(value).Some? then FromBool(ctx.lib.holds(v, op, Flag(ParseBoolValue(value).value)))
       else Unknown)
    else FromBool(TextConditionHolds(ctx.lib, CastText(ctx.lib, v), c.op, value))
  }

  function Meaning(ctx: Context, n: Node, row: Row): Truth {
    match n
    case And(l, r) => AndTruth(Meaning(ctx, l, row), Meaning(ctx, r, row))
    case Or(l, r) => OrTruth(Meaning(ctx, l, row), Meaning(ctx, r, row))
    case Cond(c) => ConditionMeaning(ctx, c, row)
  }

  // ---- Compilation ----

  datatype Compiled = Compiled(result: Result<Sql, QueryError>, args: seq<Value>)

  function CompileText(quoted: string, op: Operator, value: string, args: seq<Value>): Compiled {
    if (op.Eq? || op.Ne?) && '*' in value
    then Compiled(Ok(LikeText(quoted, op.Ne?, |args| + 1)), args + [Words(StarsToPercents(value))])
    else Compiled(Ok(CompareText(quoted, NormalizeOperator(op), |args| + 1)), args + [Words(value)])
  }

  function CompileCondition(ctx: Context, c: Condition, args: seq<Value>): Compiled {
    var key := NormalizeQueryLookupKey(c.column);
    if key !in ctx.metaByName then Compiled(Err(UnknownColumn(c.column)), args) else
    var meta := ctx.metaByName[key];
    var quoted := if meta.name in ctx.quotedCols then ctx.quotedCols[meta.name] else "";
    if quoted == "" then Compiled(Err(NotQueryable(c.column)), args) else
    var value, op := TrimSpace(c.value), NormalizeOperator(c.op);
    if meta.isDateLike then
      match ctx.lib.parseDate(value)
      case None => Compiled(Err(InvalidDate(meta.name)), args)
      case Some(t) => Compiled(Ok(Compare(quoted, op, |args| + 1)), args + [Time(t)])
    else if meta.isNumber then
      match ctx.lib.parseFloat(value)
      case None => Compiled(Err(InvalidNumber(meta.name)), args)
      case Some(x) => Compiled(Ok(Compare(quoted, op, |args| + 1)), args + [Number(x)])
    else if meta.isBoolean then
      match ParseBoolValue(value)
      case None => Compiled(Err(InvalidBoolean(meta.name)), args)
      case Some(b) => Compiled(Ok(Compare(quoted, op, |args| + 1)), args + [Flag(b)])
    else CompileText(quoted, c.op, value, args)
  }

  /**
   * A compiled condition compares with the operator of the condition; only `*`
   * patterns become LIKE, negated for `!=`.
   */
  lemma OperatorIsKept(ctx: Context, c: Condition, args: seq<Value>)
    requires CompileCondition(ctx, c, args).result.Ok? && c.op.IsComparison()
    ensures var sql := CompileCondition(ctx, c, args).result.value;
            match sql
            case Compare(_, op, _) => op == c.op
            case CompareText(_, op, _) => op == c.op
            case LikeText(_, negated, _) => (c.op == Eq || c.op == Ne) && '*' in TrimSpace(c.value)
                && (negated <==> c.op == Ne)
            case _ => false
  {
    hide NormalizeQueryLookupKey, TrimSpace, ParseBoolValue;
  }

  predicate IsAlphanumeric(c: char) { 'a' <= c <= 'z' || '0' <= c <= '9' }

  /** The lookup key leaves out whatever is no letter or digit, and nothing else. */
  lemma {:induction false} KeepAlphanumericIs(s: string, c: char, t: string)
    ensures KeepAlphanumeric(s + [c] + t) ==
              KeepAlphanumeric(s) + (if IsAlphanumeric(c) then [c] else "") + KeepAlphanumeric(t)
  {
    var whole := s + [c] + t;
    if s == "" {
      assert whole[0] == c && whole[1..] == t;
      assert KeepAlphanumeric(s) == "" && KeepAlphanumeric(whole) ==
               (if IsAlphanumeric(c) then [c] else "") + KeepAlphanumeric(t);
    } else {
      KeepAlphanumericIs(s[1..], c, t);
      assert whole[0] == s[0] && whole[1..] == s[1..] + [c] + t;
      Associates(if IsAlphanumeric(s[0]) then [s[0]] else "", KeepAlphanumeric(s[1..]),
                 if IsAlphanumeric(c) then [c] else "", KeepAlphanumeric(t));
    }
  }

  lemma Associates(a: string, b: string, c: string, d: string)
    ensures a + (b + c + d) == a + b + c + d
  {}

  /** The six spellings of truth values, whatever the case and the blanks around them. */
  lemma BoolSpellings(raw: string)
    ensures var word := NormalizeIdentifier(raw);
            && (ParseBoolValue(raw) == Some(true) <==> word in {"true", "1", "yes"})
            && (ParseBoolValue(raw) == Some(false) <==> word in {"false", "0", "no"})
  {
    hide TrimSpace, ToLower;
  }

  function Compile(ctx: Context, n: Node, args: seq<Value>): Compiled {
    match n
    case Cond(c) => CompileCondition(ctx, c, args)
    case And(l, r) =>
      var cl := Compile(ctx, l, args);
      if cl.result.Err? then cl else
      var cr := Compile(ctx, r, cl.args);
      if cr.result.Err? then cr else Compiled(Ok(AndSql(cl.result.value, cr.result.value)), cr.args)
    case Or(l, r) =>
      var cl := Compile(ctx, l, args);
      if cl.result.Err? then cl else
      var cr := Compile(ctx, r, cl.args);
      if cr.result.Err? then cr else Compiled(Ok(OrSql(cl.result.value, cr.result.value)), cr.args)
  }

  // ---- Placeholders ----

  function Conditions(n: Node): seq<Condition> {
    match n
    case And(l, r) => Conditions(l) + Conditions(r)
    case Or(l, r) => Conditions(l) + Conditions(r)
    case Cond(c) => [c]
  }

  function Leaves(sql: Sql): seq<Sql> {
    match sql
    case AndSql(l, r) => Leaves(l) + Leaves(r)
    case OrSql(l, r) => Leaves(l) + Leaves(r)
    case _ => [sql]
  }

  /**
   * Existing arguments stay a prefix, each condition adds one argument, and the
   * i-th leaf is the i-th condition, numbered with its own argument.
   */
  ghost predicate NumberedInOrder(ctx: Context, conditions: seq<Condition>, args: seq<Value>, leaves: seq<Sql>,
                                  args': seq<Value>) {
    && args <= args'
    && |args'| == |args| + |conditions|
    && |leaves| == |conditions|
    && forall i {:trigger leaves[i]} :: 0 <= i < |conditions| ==>
         CompileCondition(ctx, conditions[i], args'[..|args| + i]) == Compiled(Ok(leaves[i]), args'[..|args| + i + 1])
  }

  lemma NumberedAppend(ctx: Context, c1: seq<Condition>, args: seq<Value>, l1: seq<Sql>, args1: seq<Value>,
                       c2: seq<Condition>, l2: seq<Sql>, args2: seq<Value>)
    requires NumberedInOrder(ctx, c1, args, l1, args1) && NumberedInOrder(ctx, c2, args1, l2, args2)
    ensures NumberedInOrder(ctx, c1 + c2, args, l1 + l2, args2)
  {
    hide CompileCondition;
    var c, l := c1 + c2, l1 + l2;
    forall i | 0 <= i < |c|
      ensures CompileCondition(ctx, c[i], args2[..|args| + i]) == Compiled(Ok(l[i]), args2[..|args| + i + 1])
    {
      if i < |c1| {
        assert args2[..|args| + i] == args1[..|args| + i] && args2[..|args| + i + 1] == args1[..|args| + i + 1];
        assert l1[i] == l[i];
      } else {
        assert l2[i - |c1|] == l[i] && |args| + i == |args1| + (i - |c1|);
      }
    }
  }

  lemma {:induction false} CompileNumbersInOrder(ctx: Context, n: Node, args: seq<Value>)
    ensures args <= Compile(ctx, n, args).args
    ensures var r := Compile(ctx, n, args); r.result.Ok? ==>
              NumberedInOrder(ctx, Conditions(n), args, Leaves(r.result.value), r.args)
    decreases n, 1
  {
    hide CompileCondition, NumberedInOrder;
    match n
    case Cond(c) => ConditionNumbered(ctx, c, args);
    case And(l, r) => BinaryNumbersInOrder(ctx, n, l, r, args);
    case Or(l, r) => BinaryNumbersInOrder(ctx, n, l, r, args);
  }

  lemma ConditionNumbered(ctx: Context, c: Condition, args: seq<Value>)
    ensures var r := CompileCondition(ctx, c, args);
            args <= r.args && (r.result.Ok? ==>
                               Leaves(r.result.value) == [r.result.value]
                                   && NumberedInOrder(ctx, [c], args, [r.result.value], r.args))
  {
    hide NormalizeQueryLookupKey, TrimSpace, ParseBoolValue, StarsToPercents;
    var r := CompileCondition(ctx, c, args);
    assert r.result.Ok? ==> r.args[..|args|] == args && r.args[..|args| + 1] == r.args;
  }

  lemma {:induction false} BinaryNumbersInOrder(ctx: Context, n: Node, l: Node, r: Node, args: seq<Value>)
    requires n == And(l, r) || n == Or(l, r)
    ensures args <= Compile(ctx, n, args).args
    ensures var c := Compile(ctx, n, args); c.result.Ok? ==>
              NumberedInOrder(ctx, Conditions(n), args, Leaves(c.result.value), c.args)
    decreases n, 0
  {
    CompileNumbersInOrder(ctx, l, args);
    var cl := Compile(ctx, l, args);
    if cl.result.Ok? {
      CompileNumbersInOrder(ctx, r, cl.args);
      var cr := Compile(ctx, r, cl.args);
      if cr.result.Ok? {
        hide CompileCondition, NumberedInOrder;
        NumberedAppend(ctx, Conditions(l), args, Leaves(cl.result.value), cl.args, Conditions(r),
                       Leaves(cr.result.value), cr.args);
      }
    }
  }

  /** The k-th leaf from the left uses the k-th new placeholder. */
  lemma KthLeafUsesKthPlaceholder(ctx: Context, n: Node, args: seq<Value>, k: nat)
    requires Compile(ctx, n, args).result.Ok? && k < |Conditions(n)|
    ensures |Leaves(Compile(ctx, n, args).result.value)| == |Conditions(n)|
    ensures !Leaves(Compile(ctx, n, args).result.value)[k].AndSql?
              && !Leaves(Compile(ctx, n, args).result.value)[k].OrSql?
    ensures Leaves(Compile(ctx, n, args).result.value)[k].placeholder == |args| + k + 1
  {
    hide Compile, CompileCondition, Leaves, Conditions;
    CompileNumbersInOrder(ctx, n, args);
    var leaf := Leaves(Compile(ctx, n, args).result.value)[k];
    var before := Compile(ctx, n, args).args[..|args| + k];
    ConditionPlaceholder(ctx, Conditions(n)[k], before);
    assert CompileCondition(ctx, Conditions(n)[k], before).result == Ok(leaf) && |before| == |args| + k;
  }

  lemma ConditionPlaceholder(ctx: Context, c: Condition, args: seq<Value>)
    requires CompileCondition(ctx, c, args).result.Ok?
    ensures var leaf := CompileCondition(ctx, c, args).result.value;
            !leaf.AndSql? && !leaf.OrSql? && leaf.placeholder == |args| + 1
  {
    hide NormalizeQueryLookupKey, TrimSpace, ParseBoolValue;
  }

  // ---- Meaning is preserved ----

  /** Values compiled to a pattern hold no character that is special to LIKE. */
  predicate PatternsPlain(n: Node) {
    match n
    case And(l, r) => PatternsPlain(l) && PatternsPlain(r)
    case Or(l, r) => PatternsPlain(l) && PatternsPlain(r)
    case Cond(c) => (c.op.Eq? || c.op.Ne?) && '*' in TrimSpace(c.value) ==> LikeFree(TrimSpace(c.value))
  }

  lemma ConditionPreservesMeaning(ctx: Context, c: Condition, args: seq<Value>, later: seq<Value>, row: Row)
    requires CompileCondition(ctx, c, args).result.Ok? && CompileCondition(ctx, c, args).args <= later
    requires PatternsPlain(Cond(c))
    ensures Bound(CompileCondition(ctx, c, args).result.value, later)
    ensures Eval(ctx.lib, CompileCondition(ctx, c, args).result.value, row, later) == ConditionMeaning(ctx, c, row)
  {
    var r := CompileCondition(ctx, c, args);
    assert later[|args|] == r.args[|args|];
    var meta := ctx.metaByName[NormalizeQueryLookupKey(c.column)];
    hide NormalizeQueryLookupKey, TrimSpace, ParseBoolValue, ILike, IGlob, ToLower, CompileText, TextConditionHolds,
         TextHolds, StarsToPercents;
    if !meta.isDateLike && !meta.isNumber && !meta.isBoolean {
      TextPreservesMeaning(ctx.lib, ctx.quotedCols[meta.name], c.op, TrimSpace(c.value), args, later, row);
    }
  }

  lemma TextPreservesMeaning(lib: Library, quoted: string, op: Operator, value: string, args: seq<Value>,
                             later: seq<Value>, row: Row)
    requires CompileText(quoted, op, value, args).args <= later
    requires (op.Eq? || op.Ne?) && '*' in value ==> LikeFree(value)
    ensures CompileText(quoted, op, value, args).result.Ok?
              && Bound(CompileText(quoted, op, value, args).result.value, later)
    ensures Eval(lib, CompileText(quoted, op, value, args).result.value, row, later) ==
              if quoted !in row then Unknown else FromBool(TextConditionHolds(lib, CastText(lib, row[quoted]), op,
                  value))
  {
    assert later[|args|] == CompileText(quoted, op, value, args).args[|args|];
    hide ILike, IGlob, ToLower, LikeFree, StarsToPercents;
    ILikeIsGlobIff(value);
  }

  /** The clause, under its own arguments or any extension of them, has the value of the tree on every row. */
  lemma {:induction false} CompilePreservesMeaning(ctx: Context, n: Node, args: seq<Value>, later: seq<Value>, row: Row)
    requires Compile(ctx, n, args).result.Ok? && Compile(ctx, n, args).args <= later
    requires PatternsPlain(n)
    ensures Bound(Compile(ctx, n, args).result.value, later)
    ensures Eval(ctx.lib, Compile(ctx, n, args).result.value, row, later) == Meaning(ctx, n, row)
  {
    match n
    case Cond(c) => ConditionPreservesMeaning(ctx, c, args, later, row);
    case And(l, r) =>
      CompileNumbersInOrder(ctx, r, Compile(ctx, l, args).args);
      CompilePreservesMeaning(ctx, l, args, later, row);
      CompilePreservesMeaning(ctx, r, Compile(ctx, l, args).args, later, row);
    case Or(l, r) =>
      CompileNumbersInOrder(ctx, r, Compile(ctx, l, args).args);
      CompilePreservesMeaning(ctx, l, args, later, row);
      CompilePreservesMeaning(ctx, r, Compile(ctx, l, args).args, later, row);
  }

  // ---- The compiler itself, appending through the shared argument list ----

  /** The `args *[]any` every level of the compiler appends to. */
  class ArgumentList {
    var items: seq<Value>

    constructor ()
      ensures items == []
    {
      items := [];
    }

    method Append(v: Value)
      modifies this
      ensures items == old(items) + [v]
    {
      items := items + [v];
    }
  }

  function RenderResult(r: Result<Sql, QueryError>): Result<string, QueryError> {
    match r
    case Ok(sql) => Ok(Render(sql))
    case Err(e) => Err(e)
  }

  method BuildTextConditionSql(quoted: string, op: Operator, value: string, args: ArgumentList) returns (sql: string)
    modifies args
    ensures CompileText(quoted, op, value, old(args.items)).args == args.items
    ensures Ok(sql) == RenderResult(CompileText(quoted, op, value, old(args.items)).result)
  {
    if op == Eq || op == Ne {
      if '*' in value {
        args.Append(Words(StarsToPercents(value)));
        return RenderLike(quoted, op == Ne, |args.items|);
      }
      args.Append(Words(value));
      return RenderCompareText(quoted, op, |args.items|);
    }
    args.Append(Words(value));
    return RenderCompareText(quoted, NormalizeOperator(op), |args.items|);
  }

  method BuildConditionSql(ctx: Context, c: Condition, args: ArgumentList) returns (r: Result<string, QueryError>)
    modifies args
    ensures args.items == CompileCondition(ctx, c, old(args.items)).args
    ensures r == RenderResult(CompileCondition(ctx, c, old(args.items)).result)
  {
    var key := NormalizeQueryLookupKey(c.column);
    if key !in ctx.metaByName {
      return Err(UnknownColumn(c.column));
    }
    var meta := ctx.metaByName[key];
    var quoted := if meta.name in ctx.quotedCols then ctx.quotedCols[meta.name] else "";
    if quoted == "" {
      return Err(NotQueryable(c.column));
    }
    var value := TrimSpace(c.value);
    if meta.isDateLike {
      var parsed := ctx.lib.parseDate(value);
      if parsed.None? {
        return Err(InvalidDate(meta.name));
      }
      args.Append(Time(parsed.value));
      return Ok(RenderCompare(quoted, NormalizeOperator(c.op), |args.items|));
    } else if meta.isNumber {
      var num := ctx.lib.parseFloat(value);
      if num.None? {
        return Err(InvalidNumber(meta.name));
      }
      args.Append(Number(num.value));
      return Ok(RenderCompare(quoted, NormalizeOperator(c.op), |args.items|));
    } else if meta.isBoolean {
      var flag := ParseBoolValue(value);
      if flag.None? {
        return Err(InvalidBoolean(meta.name));
      }
      args.Append(Flag(flag.value));
      return Ok(RenderCompare(quoted, NormalizeOperator(c.op), |args.items|));
    }
    var sql := BuildTextConditionSql(quoted, c.op, value, args);
    return Ok(sql);
  }

  method BuildStructuredQuerySql(ctx: Context, n: Node, args: ArgumentList) returns (r: Result<string, QueryError>)
    modifies args
    ensures args.items == Compile(ctx, n, old(args.items)).args
    ensures r == RenderResult(Compile(ctx, n, old(args.items)).result)
    decreases n
  {
    match n
    case And(l, rt) =>
      var left := BuildStructuredQuerySql(ctx, l, args);
      if left.Err? { return left; }
      var right := BuildStructuredQuerySql(ctx, rt, args);
      if right.Err? { return right; }
      return Ok("(" + left.value + " AND " + right.value + ")");
    case Or(l, rt) =>
      var left := BuildStructuredQuerySql(ctx, l, args);
      if left.Err? { return left; }
      var right := BuildStructuredQuerySql(ctx, rt, args);
      if right.Err? { return right; }
      return Ok("(" + left.value + " OR " + right.value + ")");
    case Cond(c) =>
      r := BuildConditionSql(ctx, c, args);
  }
}
