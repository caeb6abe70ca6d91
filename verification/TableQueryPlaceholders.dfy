/** The `$n` placeholders of SQL text, and those the query compiler writes (cmd/server/table_query.go). */
module TableQueryPlaceholders {
  import opened Common
  import opened Text
  import opened TableQueryTokens
  import opened TableQueryParsing
  import opened TableQuerySql

  // ---- Placeholders in text ----

  predicate IsDigit(c: char) { '0' <= c <= '9' }

  /** The longest run of digits at the start of the text. */
  function LeadingDigits(s: string): string {
    if s != "" && IsDigit(s[0]) then [s[0]] + LeadingDigits(s[1..]) else ""
  }

  predicate AllDigits(s: string) { forall i :: 0 <= i < |s| ==> IsDigit(s[i]) }

  function NumberOf(digits: string): nat
    requires AllDigits(digits)
  {
    if digits == "" then 0
    else 10 * NumberOf(digits[..|digits| - 1]) + (digits[|digits| - 1] - '0') as nat
  }

  lemma LeadingDigitsAreDigits(s: string)
    ensures AllDigits(LeadingDigits(s))
  {
    if s != "" && IsDigit(s[0]) { LeadingDigitsAreDigits(s[1..]); }
  }

  /** The numbers of all placeholders `$n`; a dollar sign without digits counts as `$0`, which nothing can bind. */
  function Placeholders(s: string): set<nat> {
    if s == "" then {}
    else if s[0] == '$' then LeadingDigitsAreDigits(s[1..]); {NumberOf(LeadingDigits(s[1..]))} + Placeholders(s[1..])
    else Placeholders(s[1..])
  }

  function Range(first: nat, last: nat): (r: set<nat>)
    ensures forall k :: k in r <==> first <= k <= last
  {
    if first > last then {} else if last == 0 then {0} else Range(first, last - 1) + {last}
  }

  /**
   * The server counts the parameters up to the highest placeholder and must
   * find each of them used, and the driver refuses any other number of
   * arguments.
   */
  predicate StatementAccepted(sql: string, args: seq<Value>) {
    Placeholders(sql) == Range(1, |args|)
  }

  predicate NoDigitStart(s: string) { s == "" || !IsDigit(s[0]) }

  lemma {:induction false} LeadingDigitsStop(a: string, b: string)
    requires NoDigitStart(b)
    ensures LeadingDigits(a + b) == LeadingDigits(a)
  {
    if a == "" {
      assert a + b == b;
    } else {
      assert (a + b)[1..] == a[1..] + b;
      if IsDigit(a[0]) { LeadingDigitsStop(a[1..], b); }
    }
  }

  lemma {:induction false} PlaceholdersAppend(a: string, b: string)
    requires NoDigitStart(b)
    ensures Placeholders(a + b) == Placeholders(a) + Placeholders(b)
  {
    if a == "" {
      assert a + b == b;
    } else {
      assert (a + b)[1..] == a[1..] + b;
      LeadingDigitsStop(a[1..], b);
      PlaceholdersAppend(a[1..], b);
    }
  }

  lemma {:induction false} NoPlaceholders(s: string)
    requires '$' !in s
    ensures Placeholders(s) == {}
  {
    if s != "" { NoPlaceholders(s[1..]); }
  }

  lemma {:induction false} DecimalReadsBack(k: nat)
    ensures Decimal(k) != "" && AllDigits(Decimal(k)) && NumberOf(Decimal(k)) == k
  {
    if k >= 10 {
      DecimalReadsBack(k / 10);
      var front := Decimal(k / 10);
      assert Decimal(k)[..|front|] == front && Decimal(k)[|front|] == (k % 10 + 48) as char;
    } else {
      assert Decimal(k)[..0] == "";
    }
  }

  lemma {:induction false} AllDigitsLead(s: string)
    requires AllDigits(s)
    ensures LeadingDigits(s) == s && Placeholders(s) == {}
  {
    if s != "" { AllDigitsLead(s[1..]); }
  }

  /** Text with one placeholder in it. */
  lemma OnePlaceholder(before: string, k: nat, after: string)
    requires '$' !in before && '$' !in after && NoDigitStart(after)
    ensures Placeholders(before + ("$" + Decimal(k)) + after) == {k}
  {
    DecimalReadsBack(k);
    AllDigitsLead(Decimal(k));
    var mark := "$" + Decimal(k);
    assert mark[1..] == Decimal(k);
    NoPlaceholders(before);
    NoPlaceholders(after);
    PlaceholdersAppend(before, mark);
    PlaceholdersAppend(before + mark, after);
  }

  // ---- Quoted columns ----

  /** What QuoteIdentifier returns. */
  predicate IsQuoted(q: string) {
    |q| > 2 && q[0] == '"' && q[|q| - 1] == '"' && IsSafeIdentifier(q[1..|q| - 1])
  }

  predicate QuotedNames(quotedCols: map<string, string>) {
    forall name :: name in quotedCols ==> IsQuoted(quotedCols[name])
  }

  lemma QuotedIsPlain(q: string)
    requires IsQuoted(q)
    ensures '$' !in q && q[0] == '"'
  {
    forall i | 0 <= i < |q| ensures q[i] != '$' {
      if 0 < i < |q| - 1 { assert q[i] == q[1..|q| - 1][i - 1]; }
    }
  }

  // ---- What the compiler writes ----

  lemma ComparePlaceholder(quoted: string, op: Operator, k: nat)
    requires IsQuoted(quoted)
    ensures Placeholders(RenderCompare(quoted, op, k)) == {k} && NoDigitStart(RenderCompare(quoted, op, k))
  {
    QuotedIsPlain(quoted);
    var before := quoted + " " + SqlOperator(op) + " ";
    assert '$' !in SqlOperator(op);
    OnePlaceholder(before, k, "");
    assert RenderCompare(quoted, op, k) == before + ("$" + Decimal(k)) + "";
  }

  lemma CompareTextPlaceholder(quoted: string, op: Operator, k: nat)
    requires IsQuoted(quoted)
    ensures Placeholders(RenderCompareText(quoted, op, k)) == {k} && NoDigitStart(RenderCompareText(quoted, op, k))
  {
    QuotedIsPlain(quoted);
    var before := "LOWER(CAST(" + quoted + " AS TEXT)) " + SqlOperator(op) + " LOWER(";
    assert '$' !in SqlOperator(op);
    OnePlaceholder(before, k, ")");
    assert RenderCompareText(quoted, op, k) == before + ("$" + Decimal(k)) + ")";
  }

  lemma LikePlaceholder(quoted: string, negated: bool, k: nat)
    requires IsQuoted(quoted)
    ensures Placeholders(RenderLike(quoted, negated, k)) == {k} && NoDigitStart(RenderLike(quoted, negated, k))
  {
    QuotedIsPlain(quoted);
    var before := "CAST(" + quoted + " AS TEXT) " + (if negated then "NOT ILIKE" else "ILIKE") + " ";
    OnePlaceholder(before, k, "");
    assert RenderLike(quoted, negated, k) == before + ("$" + Decimal(k)) + "";
  }

  /** A compiled condition adds one argument, the one its only placeholder names. */
  lemma ConditionPlaceholders(ctx: Context, c: Condition, args: seq<Value>)
    requires QuotedNames(ctx.quotedCols) && CompileCondition(ctx, c, args).result.Ok?
    ensures var r := CompileCondition(ctx, c, args);
            && |r.args| == |args| + 1
            && Placeholders(Render(r.result.value)) == Range(|args| + 1, |r.args|)
                 && NoDigitStart(Render(r.result.value))
  {
    hide NormalizeQueryLookupKey, TrimSpace, ParseBoolValue, Placeholders, NoDigitStart, IsQuoted, Decimal,
         RenderCompare, RenderCompareText, RenderLike;
    var quoted := ctx.quotedCols[ctx.metaByName[NormalizeQueryLookupKey(c.column)].name];
    var k := |args| + 1;
    ComparePlaceholder(quoted, NormalizeOperator(c.op), k);
    CompareTextPlaceholder(quoted, NormalizeOperator(c.op), k);
    LikePlaceholder(quoted, c.op.Ne?, k);
    assert Range(k, k) == {k};
  }

  lemma BracketPlaceholders(l: string, word: string, r: string)
    requires '$' !in word && NoDigitStart(word) && word != "" && NoDigitStart(r)
    ensures Placeholders("(" + l + word + r + ")") == Placeholders(l) + Placeholders(r)
    ensures NoDigitStart("(" + l + word + r + ")")
  {
    var s := "(" + l;
    assert s[0] == '(' && s[1..] == l;
    NoPlaceholders(word);
    NoPlaceholders(")");
    PlaceholdersAppend(s, word);
    PlaceholdersAppend(s + word, r);
    PlaceholdersAppend(s + word + r, ")");
  }

  /** The text of a compiled query uses exactly the placeholders of the arguments it added. */
  lemma {:induction false} CompiledPlaceholders(ctx: Context, n: Node, args: seq<Value>)
    requires QuotedNames(ctx.quotedCols) && Compile(ctx, n, args).result.Ok?
    ensures var r := Compile(ctx, n, args);
            && |args| < |r.args|
            && Placeholders(Render(r.result.value)) == Range(|args| + 1, |r.args|)
                 && NoDigitStart(Render(r.result.value))
  {
    hide Placeholders, Render, NoDigitStart, QuotedNames, Range, CompileCondition;
    match n
    case Cond(c) => ConditionPlaceholders(ctx, c, args);
    case And(l, r) =>
      CompiledPlaceholders(ctx, l, args);
      var cl := Compile(ctx, l, args);
      CompiledPlaceholders(ctx, r, cl.args);
      var cr := Compile(ctx, r, cl.args);
      BothPlaceholders(cl.result.value, cr.result.value, |args|, |cl.args|, |cr.args|);
    case Or(l, r) =>
      CompiledPlaceholders(ctx, l, args);
      var cl := Compile(ctx, l, args);
      CompiledPlaceholders(ctx, r, cl.args);
      var cr := Compile(ctx, r, cl.args);
      BothPlaceholders(cl.result.value, cr.result.value, |args|, |cl.args|, |cr.args|);
  }

  lemma WordIsPlain(word: string)
    requires word == " AND " || word == " OR "
    ensures '$' !in word && NoDigitStart(word)
  {}

  lemma RangesJoin(a: nat, b: nat, c: nat)
    requires a <= b <= c
    ensures Range(a + 1, b) + Range(b + 1, c) == Range(a + 1, c)
  {
    hide Range;
  }

  lemma RenderBinary(l: Sql, r: Sql)
    ensures Render(AndSql(l, r)) == "(" + Render(l) + " AND " + Render(r) + ")"
    ensures Render(OrSql(l, r)) == "(" + Render(l) + " OR " + Render(r) + ")"
  {}

  lemma BothPlaceholders(l: Sql, r: Sql, a: nat, b: nat, c: nat)
    requires a <= b <= c && NoDigitStart(Render(r))
    requires Placeholders(Render(l)) == Range(a + 1, b) && Placeholders(Render(r)) == Range(b + 1, c)
    ensures Placeholders(Render(AndSql(l, r))) == Placeholders(Render(OrSql(l, r))) == Range(a + 1, c)
    ensures NoDigitStart(Render(AndSql(l, r))) && NoDigitStart(Render(OrSql(l, r)))
  {
    hide *;
    WordIsPlain(" AND ");
    WordIsPlain(" OR ");
    BracketPlaceholders(Render(l), " AND ", Render(r));
    BracketPlaceholders(Render(l), " OR ", Render(r));
    RenderBinary(l, r);
    RangesJoin(a, b, c);
  }
}
