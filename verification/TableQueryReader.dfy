/**
 * Reading the emitted SQL text back: an independent grammar of clauses, with
 * the meaning of what it reads (cmd/server/table_query.go, handleTableView.go).
 */
module TableQueryReader {
  import opened Common
  import opened Text
  import opened TableQueryTokens
  import opened TableQueryParsing
  import opened TableQuerySql
  import opened TableQueryPlaceholders

  /** What a reader found at the head of a text, and the text behind it. */
  datatype Read<+T> = Fail | Got(value: T, rest: string) {
    predicate IsFailure() { Fail? }

    function PropagateFailure<U>(): Read<U>
      requires Fail?
    {
      Fail
    }

    function Extract(): (T, string)
      requires Got?
    {
      (value, rest)
    }
  }

  // ---- Words, names, operators and placeholders ----

  function Word(word: string, s: string): (r: Read<()>)
    ensures r.Got? <==> word <= s
    ensures r.Got? ==> s == word + r.rest
  {
    if word <= s then Got((), s[|word|..]) else Fail
  }

  function UpToQuote(s: string): (n: nat)
    ensures n <= |s| && '"' !in s[..n] && (n < |s| ==> s[n] == '"')
  {
    if s == "" || s[0] == '"' then 0 else 1 + UpToQuote(s[1..])
  }

  /** A quoted identifier, quotes included. */
  function Name(s: string): (r: Read<string>)
    ensures r.Got? ==> s == r.value + r.rest && r.value != ""
  {
    if s == "" || s[0] != '"' || UpToQuote(s[1..]) == |s[1..]| then Fail
    else
      var n := UpToQuote(s[1..]) + 2;
      Got(s[..n], s[n..])
  }

  function Sign(s: string): (r: Read<Operator>)
    ensures r.Got? ==> |r.rest| < |s|
  {
    if "<>" <= s then Got(Ne, s[2..])
    else if "<=" <= s then Got(Le, s[2..])
    else if ">=" <= s then Got(Ge, s[2..])
    else if "<" <= s then Got(Lt, s[1..])
    else if ">" <= s then Got(Gt, s[1..])
    else if "=" <= s then Got(Eq, s[1..])
    else Fail
  }

  function Dollar(s: string): (r: Read<nat>)
    ensures r.Got? ==> |r.rest| < |s|
  {
    if s == "" || s[0] != '$' then Fail else
    LeadingDigitsAreDigits(s[1..]);
    LeadingDigitsLead(s[1..]);
    var digits := LeadingDigits(s[1..]);
    if digits == "" then Fail else Got(NumberOf(digits), s[1 + |digits|..])
  }

  lemma LeadingDigitsLead(s: string)
    ensures LeadingDigits(s) <= s
  {
    if s != "" && IsDigit(s[0]) { LeadingDigitsLead(s[1..]); }
  }

  // ---- Clauses ----

  /** `"column" sign $n` */
  function ReadCompare(s: string): (r: Read<Sql>)
    ensures r.Got? ==> |r.rest| < |s|
  {
    var (column, s1) :- Name(s);
    var (_, s2) :- Word(" ", s1);
    var (op, s3) :- Sign(s2);
    var (_, s4) :- Word(" ", s3);
    var (k, s5) :- Dollar(s4);
    Got(Compare(column, op, k), s5)
  }

  /** `LOWER(CAST("column" AS TEXT)) sign LOWER($n)` */
  function ReadCompareText(s: string): (r: Read<Sql>)
    ensures r.Got? ==> |r.rest| < |s|
  {
    var (_, s1) :- Word("LOWER(CAST(", s);
    var (column, s2) :- Name(s1);
    var (_, s3) :- Word(" AS TEXT)) ", s2);
    var (op, s4) :- Sign(s3);
    var (_, s5) :- Word(" LOWER(", s4);
    var (k, s6) :- Dollar(s5);
    var (_, s7) :- Word(")", s6);
    Got(CompareText(column, op, k), s7)
  }

  /** `CAST("column" AS TEXT) ILIKE $n` or `… NOT ILIKE $n` */
  function ReadLike(s: string): (r: Read<Sql>)
    ensures r.Got? ==> |r.rest| < |s|
  {
    var (_, s1) :- Word("CAST(", s);
    var (column, s2) :- Name(s1);
    var (_, s3) :- Word(" AS TEXT) ", s2);
    var negated := "NOT " <= s3;
    var (_, s4) :- Word(if negated then "NOT ILIKE " else "ILIKE ", s3);
    var (k, s5) :- Dollar(s4);
    Got(LikeText(column, negated, k), s5)
  }

  function ReadLeaf(s: string): (r: Read<Sql>)
    ensures r.Got? ==> |r.rest| < |s|
  {
    if s == "" then Fail
    else if s[0] == 'L' then ReadCompareText(s)
    else if s[0] == 'C' then ReadLike(s)
    else ReadCompare(s)
  }

  /** A condition, or conditions in brackets that are all joined by AND or all by OR. */
  function ReadClause(s: string): (r: Read<Sql>)
    ensures r.Got? ==> |r.rest| < |s|
    decreases |s|, 1
  {
    if s == "" || s[0] != '(' then ReadLeaf(s) else
    var (first, s1) :- ReadClause(s[1..]);
    if " OR " <= s1 then ReadOrs(first, s1) else ReadAnds(first, s1)
  }

  function ReadAnds(read: Sql, s: string): (r: Read<Sql>)
    ensures r.Got? ==> |r.rest| < |s|
    decreases |s|, 0
  {
    if ")" <= s then Got(read, s[1..]) else
    var (_, s1) :- Word(" AND ", s);
    var (next, s2) :- ReadClause(s1);
    ReadAnds(AndSql(read, next), s2)
  }

  function ReadOrs(read: Sql, s: string): (r: Read<Sql>)
    ensures r.Got? ==> |r.rest| < |s|
    decreases |s|, 0
  {
    if ")" <= s then Got(read, s[1..]) else
    var (_, s1) :- Word(" OR ", s);
    var (next, s2) :- ReadClause(s1);
    ReadOrs(OrSql(read, next), s2)
  }

  // ---- Reading what is rendered ----

  predicate Readable(sql: Sql) {
    match sql
    case AndSql(l, r) => Readable(l) && Readable(r)
    case OrSql(l, r) => Readable(l) && Readable(r)
    case Compare(c, op, _) => IsQuoted(c) && op.IsComparison()
    case CompareText(c, op, _) => IsQuoted(c) && op.IsComparison()
    case LikeText(c, _, _) => IsQuoted(c)
  }

  lemma {:induction false} UpToQuoteIs(a: string, b: string)
    requires '"' !in a && b != "" && b[0] == '"'
    ensures UpToQuote(a + b) == |a|
  {
    if a == "" {
      assert a + b == b;
    } else {
      assert (a + b)[1..] == a[1..] + b;
      UpToQuoteIs(a[1..], b);
    }
  }

  lemma NameReads(q: string, rest: string)
    requires IsQuoted(q)
    ensures Name(q + rest) == Got(q, rest)
  {
    var inner := q[1..|q| - 1];
    assert (q + rest)[1..] == inner + ("\"" + rest);
    forall i | 0 <= i < |inner| ensures inner[i] != '"' {}
    UpToQuoteIs(inner, "\"" + rest);
    assert (q + rest)[..|q|] == q && (q + rest)[|q|..] == rest;
  }

  lemma SignReads(op: Operator, rest: string)
    requires op.IsComparison() && rest != "" && rest[0] == ' '
    ensures Sign(SqlOperator(op) + rest) == Got(op, rest)
  {
    var s := SqlOperator(op) + rest;
    assert s[|SqlOperator(op)|..] == rest;
    assert |SqlOperator(op)| == 1 ==> s[1] == ' ';
    assert |SqlOperator(op)| == 2 ==> SqlOperator(op) <= s;
    TwoSigns(s);
  }

  lemma TwoSigns(s: string)
    requires |s| >= 2
    ensures "<>" <= s <==> s[0] == '<' && s[1] == '>'
    ensures "<=" <= s <==> s[0] == '<' && s[1] == '='
    ensures ">=" <= s <==> s[0] == '>' && s[1] == '='
    ensures ("<" <= s <==> s[0] == '<') && (">" <= s <==> s[0] == '>') && ("=" <= s <==> s[0] == '=')
  {}

  lemma DollarReads(k: nat, rest: string)
    requires NoDigitStart(rest)
    ensures Dollar("$" + (Decimal(k) + rest)) == Got(k, rest)
  {
    DecimalReadsBack(k);
    AllDigitsLead(Decimal(k));
    LeadingDigitsStop(Decimal(k), rest);
    var s := "$" + (Decimal(k) + rest);
    assert s[1..] == Decimal(k) + rest && s[1 + |Decimal(k)|..] == rest;
  }

  lemma WordReads(word: string, rest: string)
    ensures Word(word, word + rest) == Got((), rest)
  {}

  lemma CompareReads(column: string, op: Operator, k: nat, rest: string)
    requires IsQuoted(column) && op.IsComparison() && NoDigitStart(rest)
    ensures ReadClause(RenderCompare(column, op, k) + rest) == Got(Compare(column, op, k), rest)
  {
    hide *;
    var number := "$" + (Decimal(k) + rest);
    var sign := SqlOperator(op) + (" " + number);
    var s := column + (" " + sign);
    CompareSpelled(column, op, k, rest);
    NameReads(column, " " + sign);
    WordReads(" ", sign);
    SignReads(op, " " + number);
    WordReads(" ", number);
    DollarReads(k, rest);
    CompareSteps(s, " " + sign, sign, " " + number, number, rest, column, op, k);
    QuotedIsPlain(column);
    LeafKinds(s);
  }

  lemma CompareSpelled(column: string, op: Operator, k: nat, rest: string)
    ensures RenderCompare(column, op, k) + rest ==
              column + (" " + (SqlOperator(op) + (" " + ("$" + (Decimal(k) + rest)))))
  {
    hide SqlOperator, Decimal;
  }

  lemma CompareSteps(s: string, s1: string, s2: string, s3: string, s4: string, s5: string, column: string,
                     op: Operator,
                     k: nat)
    requires Name(s) == Got(column, s1) && Word(" ", s1) == Got((), s2) && Sign(s2) == Got(op, s3)
    requires Word(" ", s3) == Got((), s4) && Dollar(s4) == Got(k, s5)
    ensures ReadCompare(s) == Got(Compare(column, op, k), s5)
  {
    hide Name, Word, Sign, Dollar;
  }

  /** The first character tells what is read. */
  lemma LeafKinds(s: string)
    requires s != ""
    ensures s[0] == '"' ==> ReadClause(s) == ReadCompare(s)
    ensures s[0] == 'L' ==> ReadClause(s) == ReadCompareText(s)
    ensures s[0] == 'C' ==> ReadClause(s) == ReadLike(s)
  {
    hide ReadCompare, ReadCompareText, ReadLike;
  }

  lemma CompareTextReads(column: string, op: Operator, k: nat, rest: string)
    requires IsQuoted(column) && op.IsComparison()
    ensures ReadClause(RenderCompareText(column, op, k) + rest) == Got(CompareText(column, op, k), rest)
  {
    hide *;
    var number := "$" + (Decimal(k) + (")" + rest));
    var sign := SqlOperator(op) + (" LOWER(" + number);
    var named := column + (" AS TEXT)) " + sign);
    var s := "LOWER(CAST(" + named;
    CompareTextSpelled(column, op, k, rest);
    WordReads("LOWER(CAST(", named);
    NameReads(column, " AS TEXT)) " + sign);
    WordReads(" AS TEXT)) ", sign);
    SignReads(op, " LOWER(" + number);
    WordReads(" LOWER(", number);
    NotDigit(")" + rest);
    DollarReads(k, ")" + rest);
    WordReads(")", rest);
    CompareTextSteps(s, named, " AS TEXT)) " + sign, sign, " LOWER(" + number, number, ")" + rest, rest, column, op, k);
    LeafKinds(s);
  }

  lemma NotDigit(s: string)
    requires s != "" && s[0] in {')', ' '}
    ensures NoDigitStart(s)
  {}

  lemma CompareTextSpelled(column: string, op: Operator, k: nat, rest: string)
    ensures RenderCompareText(column, op, k) + rest ==
              "LOWER(CAST(" + (column + (" AS TEXT)) " + (SqlOperator(op)
                                                          + (" LOWER(" + ("$" + (Decimal(k) + (")" + rest)))))))
  {
    hide SqlOperator, Decimal;
    var a, b := "LOWER(CAST(" + column + " AS TEXT)) ", SqlOperator(op);
    assert " LOWER($" == " LOWER(" + "$";
    assert RenderCompareText(column, op, k) + rest == a + (b + (" LOWER($" + (Decimal(k) + (")" + rest))));
  }

  lemma CompareTextSteps(s: string, s1: string, s2: string, s3: string, s4: string, s5: string, s6: string, s7: string,
                         column: string, op: Operator, k: nat)
    requires Word("LOWER(CAST(", s) == Got((), s1) && Name(s1) == Got(column, s2)
    requires Word(" AS TEXT)) ", s2) == Got((), s3) && Sign(s3) == Got(op, s4)
    requires Word(" LOWER(", s4) == Got((), s5) && Dollar(s5) == Got(k, s6) && Word(")", s6) == Got((), s7)
    ensures ReadCompareText(s) == Got(CompareText(column, op, k), s7)
  {
    hide Name, Word, Sign, Dollar;
  }

  lemma LikeReads(column: string, negated: bool, k: nat, rest: string)
    requires IsQuoted(column) && NoDigitStart(rest)
    ensures ReadClause(RenderLike(column, negated, k) + rest) == Got(LikeText(column, negated, k), rest)
  {
    hide *;
    var number := "$" + (Decimal(k) + rest);
    var word := if negated then "NOT ILIKE " else "ILIKE ";
    var named := column + (" AS TEXT) " + (word + number));
    var s := "CAST(" + named;
    LikeSpelled(column, negated, k, rest);
    WordReads("CAST(", named);
    NameReads(column, " AS TEXT) " + (word + number));
    WordReads(" AS TEXT) ", word + number);
    NegationReads(negated, number);
    WordReads(word, number);
    DollarReads(k, rest);
    LikeSteps(s, named, " AS TEXT) " + (word + number), word + number, number, rest, column, negated, k);
    LeafKinds(s);
  }

  lemma LikeSpelled(column: string, negated: bool, k: nat, rest: string)
    ensures RenderLike(column, negated, k) + rest ==
              "CAST(" + (column + (" AS TEXT) " + ((if negated then "NOT ILIKE " else "ILIKE ")
                                                   + ("$" + (Decimal(k) + rest)))))
  {
    hide Decimal;
    var word, number := if negated then "NOT ILIKE" else "ILIKE", Decimal(k);
    Regrouped("CAST(", column, " AS TEXT) ", word, " $", number, rest);
    Spaced(word, number + rest);
    assert (if negated then "NOT ILIKE " else "ILIKE ") == word + " ";
  }

  lemma Regrouped(a: string, b: string, c: string, d: string, e: string, f: string, g: string)
    ensures a + b + c + d + e + f + g == a + (b + (c + (d + (e + (f + g)))))
  {}

  lemma Spaced(word: string, s: string)
    ensures (word + " ") + ("$" + s) == word + (" $" + s)
  {
    assert " $" == " " + "$";
  }

  lemma LikeSteps(s: string, s1: string, s2: string, s3: string, s4: string, s5: string, column: string, negated: bool,
                  k: nat)
    requires Word("CAST(", s) == Got((), s1) && Name(s1) == Got(column, s2) && Word(" AS TEXT) ", s2) == Got((), s3)
    requires ("NOT " <= s3 <==> negated) && Word(if negated then "NOT ILIKE " else "ILIKE ", s3) == Got((), s4)
    requires Dollar(s4) == Got(k, s5)
    ensures ReadLike(s) == Got(LikeText(column, negated, k), s5)
  {
    hide Name, Word, Sign, Dollar;
  }

  lemma NegationReads(negated: bool, number: string)
    ensures "NOT " <= (if negated then "NOT ILIKE " else "ILIKE ") + number <==> negated
  {
    var s := (if negated then "NOT ILIKE " else "ILIKE ") + number;
    assert s[0] == if negated then 'N' else 'I';
    assert negated ==> s[..4] == "NOT ";
  }

  /** A rendered clause is read back as itself, whatever stands behind it. */
  lemma {:induction false} RenderReads(sql: Sql, rest: string)
    requires Readable(sql) && NoDigitStart(rest)
    ensures ReadClause(Render(sql) + rest) == Got(sql, rest)
  {
    match sql
    case Compare(c, op, k) => CompareReads(c, op, k, rest);
    case CompareText(c, op, k) => CompareTextReads(c, op, k, rest);
    case LikeText(c, negated, k) => LikeReads(c, negated, k, rest);
    case AndSql(l, r) =>
      var last := ")" + rest;
      var after := " AND " + (Render(r) + last);
      RenderReads(l, after);
      RenderReads(r, last);
      BracketReads(l, r, rest);
    case OrSql(l, r) =>
      var last := ")" + rest;
      var after := " OR " + (Render(r) + last);
      RenderReads(l, after);
      RenderReads(r, last);
      BracketReads(l, r, rest);
  }

  lemma BracketReads(l: Sql, r: Sql, rest: string)
    requires ReadClause(Render(r) + (")" + rest)) == Got(r, ")" + rest)
    ensures ReadClause(Render(l) + (" AND " + (Render(r) + (")" + rest)))) ==
              Got(l, " AND " + (Render(r) + (")" + rest))) ==>
              ReadClause(Render(AndSql(l, r)) + rest) == Got(AndSql(l, r), rest)
    ensures ReadClause(Render(l) + (" OR " + (Render(r) + (")" + rest)))) ==
              Got(l, " OR " + (Render(r) + (")" + rest))) ==>
              ReadClause(Render(OrSql(l, r)) + rest) == Got(OrSql(l, r), rest)
  {
    RenderBinary(l, r);
    hide Render, ReadLeaf;
    var last := ")" + rest;
    var ands, ors := " AND " + (Render(r) + last), " OR " + (Render(r) + last);
    assert ("(" + (Render(l) + ands))[1..] == Render(l) + ands && ("(" + (Render(l) + ors))[1..] == Render(l) + ors;
    assert Render(AndSql(l, r)) + rest == "(" + (Render(l) + ands);
    assert Render(OrSql(l, r)) + rest == "(" + (Render(l) + ors);
    WordReads(" AND ", Render(r) + last);
    WordReads(" OR ", Render(r) + last);
    assert !(" OR " <= ands) by { assert ands[1] == 'A'; }
    assert !(")" <= ands) && !(")" <= ors) by { assert ands[0] == ' ' && ors[0] == ' '; }
    assert " OR " <= ors && last[1..] == rest;
    assert ReadAnds(AndSql(l, r), last) == Got(AndSql(l, r), rest)
             && ReadOrs(OrSql(l, r), last) == Got(OrSql(l, r), rest);
  }

  // ---- The meaning of clause text ----

  /** The truth of a text on a row, when the text is one clause whose placeholders all have an argument. */
  function TextTruth(lib: Library, text: string, row: Row, args: seq<Value>): Option<Truth> {
    var r := ReadClause(text);
    if r.Got? && r.rest == "" && Bound(r.value, args) then Some(Eval(lib, r.value, row, args)) else None
  }

  lemma ConditionIsReadable(ctx: Context, c: Condition, args: seq<Value>)
    requires QuotedNames(ctx.quotedCols) && CompileCondition(ctx, c, args).result.Ok?
    ensures Readable(CompileCondition(ctx, c, args).result.value)
  {
    hide NormalizeQueryLookupKey, TrimSpace, ParseBoolValue, IsQuoted;
  }

  lemma {:induction false} CompiledIsReadable(ctx: Context, n: Node, args: seq<Value>)
    requires QuotedNames(ctx.quotedCols) && Compile(ctx, n, args).result.Ok?
    ensures Readable(Compile(ctx, n, args).result.value)
  {
    hide CompileCondition, QuotedNames;
    match n
    case Cond(c) => ConditionIsReadable(ctx, c, args);
    case And(l, r) =>
      CompiledIsReadable(ctx, l, args);
      CompiledIsReadable(ctx, r, Compile(ctx, l, args).args);
    case Or(l, r) =>
      CompiledIsReadable(ctx, l, args);
      CompiledIsReadable(ctx, r, Compile(ctx, l, args).args);
  }

  /** The emitted text, read on its own, has on every row the three-valued truth of the query tree. */
  lemma CompiledTextMeaning(ctx: Context, n: Node, args: seq<Value>, later: seq<Value>, row: Row)
    requires QuotedNames(ctx.quotedCols) && PatternsPlain(n)
    requires Compile(ctx, n, args).result.Ok? && Compile(ctx, n, args).args <= later
    ensures TextTruth(ctx.lib, Render(Compile(ctx, n, args).result.value), row, later) == Some(Meaning(ctx, n, row))
  {
    hide Compile, Render, Readable, Meaning, Eval, ReadClause, QuotedNames, PatternsPlain, Bound;
    var sql := Compile(ctx, n, args).result.value;
    CompiledIsReadable(ctx, n, args);
    CompilePreservesMeaning(ctx, n, args, later, row);
    RenderReads(sql, "");
    assert Render(sql) + "" == Render(sql);
  }

  /** `amount>10` on a numeric column. */
  lemma GreaterExample(lib: Library, ten: real)
    requires lib.parseFloat("10") == Some(ten)
    ensures var ctx := Context(map["amount" := TableQueryColumn("amount", "Amount", false, true, false)],
                               map["amount" := "\"amount\""], lib);
            var compiled := Compile(ctx, Cond(Condition("amount", Gt, "10")), []);
            && compiled.args == [Number(ten)]
            && compiled.result.Ok? && Render(compiled.result.value) == "\"amount\" > $1"
  {
    AmountKey();
    hide NormalizeQueryLookupKey;
    assert TrimSpace("10") == "10" by { TrimSpaceKeepsTrimmed("10"); }
    assert Decimal(1) == "1";
  }

  lemma AmountKey()
    ensures NormalizeQueryLookupKey("amount") == "amount"
  {
    TrimSpaceKeepsTrimmed("amount");
    assert ToLower("amount") == "amount";
    hide TrimSpace, ToLower;
    Alphanumeric("amount");
  }

  lemma {:induction false} Alphanumeric(s: string)
    requires forall i :: 0 <= i < |s| ==> 'a' <= s[i] <= 'z' || '0' <= s[i] <= '9'
    ensures KeepAlphanumeric(s) == s
  {
    if s != "" { Alphanumeric(s[1..]); }
  }
}
