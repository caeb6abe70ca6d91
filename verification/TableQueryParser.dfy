/** Recursive-descent parser of the list-query language (cmd/server/table_query.go). */
module TableQueryParsing {
  import opened Common
  import opened Text
  import opened TableQueryTokens

  datatype Condition = Condition(column: string, op: Operator, value: string)

  datatype Node =
    | And(left: Node, right: Node)
    | Or(left: Node, right: Node)
    | Cond(cond: Condition)

  datatype ParseError =
    | ExpectedRParen
    | ExpectedColumn
    | ExpectedOperator(column: string)
    | ExpectedValue(op: Operator)
    | UnexpectedToken(token: Token)

  predicate IsWord(t: Token) { t.Identifier? || t.Literal? }

  predicate IsComparison(t: Token) { t.Op? && t.op.IsComparison() }

  predicate IsLogical(t: Token) { t.Op? && !t.op.IsComparison() }

  function Texts(ts: seq<Token>, lo: nat, hi: nat): (words: seq<string>)
    requires lo <= hi <= |ts|
    requires forall i :: lo <= i < hi ==> IsWord(ts[i])
    ensures |words| == hi - lo
    decreases hi
  {
    if lo == hi then [] else (assert IsWord(ts[hi - 1]); Texts(ts, lo, hi - 1) + [ts[hi - 1].text])
  }

  /** strings.Join(words, " ") over the words of `ts[lo..hi]`. */
  function JoinWords(ts: seq<Token>, lo: nat, hi: nat): string
    requires lo <= hi <= |ts|
    requires forall i :: lo <= i < hi ==> IsWord(ts[i])
  {
    Join(Texts(ts, lo, hi), " ")
  }

  // ---- The grammar: which token spans derive which trees ----

  /** Or := Or "||" And | And, over the span ts[p..q]. */
  ghost predicate DerivesOr(ts: seq<Token>, p: nat, q: nat, n: Node)
    requires q <= |ts|
    decreases q - p, 2
  {
    || DerivesAnd(ts, p, q, n)
    || (n.Or? && exists k: nat ::
          p <= k < q && ts[k] == Op(OrOr) && DerivesOr(ts, p, k, n.left) && DerivesAnd(ts, k + 1, q, n.right))
  }

  /** And := And "&&" Prim | Prim. */
  ghost predicate DerivesAnd(ts: seq<Token>, p: nat, q: nat, n: Node)
    requires q <= |ts|
    decreases q - p, 1
  {
    || DerivesPrimary(ts, p, q, n)
    || (n.And? && exists k: nat ::
          p <= k < q && ts[k] == Op(AndAnd) && DerivesAnd(ts, p, k, n.left) && DerivesPrimary(ts, k + 1, q, n.right))
  }

  /** Prim := "(" Or ")" | Word+ Cmp Word+. */
  ghost predicate DerivesPrimary(ts: seq<Token>, p: nat, q: nat, n: Node)
    requires q <= |ts|
    decreases q - p, 0
  {
    || (p + 2 <= q && ts[p] == LParen && ts[q - 1] == RParen && DerivesOr(ts, p + 1, q - 1, n))
    || (n.Cond? && exists k: nat :: DerivesCondition(ts, p, k, q, n.cond))
  }

  ghost predicate DerivesCondition(ts: seq<Token>, p: nat, k: nat, q: nat, c: Condition)
    requires q <= |ts|
  {
    && p < k < q - 1
    && IsComparison(ts[k])
    && (forall i :: p <= i < k ==> IsWord(ts[i]))
    && (forall i :: k < i < q ==> IsWord(ts[i]))
    && c == Condition(TrimSpace(JoinWords(ts, p, k)), ts[k].op, TrimSpace(JoinWords(ts, k + 1, q)))
  }

  /** The whole token list but its Eof derives `n`. */
  ghost predicate DerivesQuery(ts: seq<Token>, n: Node)
    requires ts != []
  {
    DerivesOr(ts, 0, |ts| - 1, n)
  }

  // ---- The parser as a function of the position ----

  /** Outcome of a parsing method, with the position it leaves the parser at. */
  datatype Parsed = Parsed(result: Result<Node, ParseError>, pos: nat)

  function Peek(ts: seq<Token>, p: nat): Token {
    if p >= |ts| then Eof else ts[p]
  }

  function ParseOrAt(ts: seq<Token>, p: nat): (r: Parsed)
    requires EndsInEof(ts) && p < |ts|
    ensures r.pos <= |ts| && (r.result.Ok? ==> p < r.pos < |ts|)
    decreases |ts| - p, 3
  {
    var left := ParseAndAt(ts, p);
    if left.result.Err? then left else OrTailAt(ts, left.result.value, left.pos)
  }

  function OrTailAt(ts: seq<Token>, left: Node, p: nat): (r: Parsed)
    requires EndsInEof(ts) && p < |ts|
    ensures r.pos <= |ts| && (r.result.Ok? ==> p <= r.pos < |ts|)
    decreases |ts| - p, 2
  {
    if ts[p] != Op(OrOr) then Parsed(Ok(left), p) else
    var right := ParseAndAt(ts, p + 1);
    if right.result.Err? then right else OrTailAt(ts, Or(left, right.result.value), right.pos)
  }

  function ParseAndAt(ts: seq<Token>, p: nat): (r: Parsed)
    requires EndsInEof(ts) && p < |ts|
    ensures r.pos <= |ts| && (r.result.Ok? ==> p < r.pos < |ts|)
    decreases |ts| - p, 2
  {
    var left := ParsePrimaryAt(ts, p);
    if left.result.Err? then left else AndTailAt(ts, left.result.value, left.pos)
  }

  function AndTailAt(ts: seq<Token>, left: Node, p: nat): (r: Parsed)
    requires EndsInEof(ts) && p < |ts|
    ensures r.pos <= |ts| && (r.result.Ok? ==> p <= r.pos < |ts|)
    decreases |ts| - p, 1
  {
    if ts[p] != Op(AndAnd) then Parsed(Ok(left), p) else
    var right := ParsePrimaryAt(ts, p + 1);
    if right.result.Err? then right else AndTailAt(ts, And(left, right.result.value), right.pos)
  }

  function ParsePrimaryAt(ts: seq<Token>, p: nat): (r: Parsed)
    requires EndsInEof(ts) && p < |ts|
    ensures r.pos <= |ts| && (r.result.Ok? ==> p < r.pos < |ts|)
    decreases |ts| - p, 1
  {
    if ts[p] != LParen then ParseConditionAt(ts, p) else
    var inner := ParseOrAt(ts, p + 1);
    if inner.result.Err? then inner
    else if ts[inner.pos] != RParen then Parsed(Err(ExpectedRParen), inner.pos)
    else Parsed(inner.result, inner.pos + 1)
  }

  /** End of the run of column words starting at `p`; it stops after the word before a comparison. */
  function ColumnEnd(ts: seq<Token>, p: nat): (e: nat)
    requires EndsInEof(ts) && p < |ts|
    ensures p <= e < |ts| && (forall i :: p <= i < e ==> IsWord(ts[i]))
    ensures forall i :: p < i < e ==> !IsComparison(ts[i])
    ensures IsWord(ts[p]) ==> p < e && !IsWord(ts[e])
    decreases |ts| - p
  {
    if !IsWord(ts[p]) then p
    else if IsComparison(ts[p + 1]) then p + 1
    else if IsWord(ts[p + 1]) then ColumnEnd(ts, p + 1)
    else p + 1
  }

  predicate EndsValue(t: Token) { t.Eof? || t.RParen? || IsLogical(t) }

  /** End of the run of value words starting at `p`. */
  function ValueEnd(ts: seq<Token>, p: nat): (e: nat)
    requires EndsInEof(ts) && p < |ts|
    ensures p <= e < |ts| && (forall i :: p <= i < e ==> IsWord(ts[i])) && !IsWord(ts[e])
    decreases |ts| - p
  {
    if IsWord(ts[p]) then ValueEnd(ts, p + 1) else p
  }

  function ParseConditionAt(ts: seq<Token>, p: nat): (r: Parsed)
    requires EndsInEof(ts) && p < |ts|
    ensures r.pos <= |ts| && (r.result.Ok? ==> p < r.pos < |ts|)
  {
    var k := ColumnEnd(ts, p);
    if k == p then Parsed(Err(ExpectedColumn), p) else
    var column := TrimSpace(JoinWords(ts, p, k));
    if !IsComparison(ts[k]) then Parsed(Err(ExpectedOperator(column)), k + 1) else
    var q := ValueEnd(ts, k + 1);
    if !EndsValue(ts[q]) || q == k + 1 then Parsed(Err(ExpectedValue(ts[k].op)), q)
    else Parsed(Ok(Cond(Condition(column, ts[k].op, TrimSpace(JoinWords(ts, k + 1, q))))), q)
  }

  /** The whole parse: an expression and then the end of the input. */
  function ParseQuery(ts: seq<Token>): Result<Node, ParseError>
    requires EndsInEof(ts)
  {
    var r := ParseOrAt(ts, 0);
    if r.result.Err? then r.result
    else if ts[r.pos] != Eof then Err(UnexpectedToken(ts[r.pos]))
    else r.result
  }

  // ---- Soundness: what the parser returns, the grammar derives ----

  lemma ConditionSound(ts: seq<Token>, p: nat)
    requires EndsInEof(ts) && p < |ts|
    ensures var r := ParseConditionAt(ts, p); r.result.Ok? ==> DerivesPrimary(ts, p, r.pos, r.result.value)
  {
    var r := ParseConditionAt(ts, p);
    if r.result.Ok? {
      assert DerivesCondition(ts, p, ColumnEnd(ts, p), r.pos, r.result.value.cond);
      hide ParseConditionAt, DerivesCondition, ColumnEnd;
    }
  }

  lemma {:induction false} OrSound(ts: seq<Token>, p: nat)
    requires EndsInEof(ts) && p < |ts|
    ensures var r := ParseOrAt(ts, p); r.result.Ok? ==> DerivesOr(ts, p, r.pos, r.result.value)
    decreases |ts| - p, 3
  {
    AndSound(ts, p);
    var left := ParseAndAt(ts, p);
    if left.result.Ok? {
      OrTailSound(ts, p, left.result.value, left.pos);
    }
  }

  lemma {:induction false} OrTailSound(ts: seq<Token>, start: nat, left: Node, p: nat)
    requires EndsInEof(ts) && start < p < |ts|
    requires DerivesOr(ts, start, p, left)
    ensures var r := OrTailAt(ts, left, p); r.result.Ok? ==> DerivesOr(ts, start, r.pos, r.result.value)
    decreases |ts| - p, 2
  {
    if ts[p] == Op(OrOr) {
      AndSound(ts, p + 1);
      var right := ParseAndAt(ts, p + 1);
      if right.result.Ok? {
        OrTailSound(ts, start, Or(left, right.result.value), right.pos);
      }
    }
  }

  lemma {:induction false} AndSound(ts: seq<Token>, p: nat)
    requires EndsInEof(ts) && p < |ts|
    ensures var r := ParseAndAt(ts, p); r.result.Ok? ==> DerivesAnd(ts, p, r.pos, r.result.value)
    decreases |ts| - p, 2
  {
    PrimarySound(ts, p);
    var left := ParsePrimaryAt(ts, p);
    if left.result.Ok? {
      AndTailSound(ts, p, left.result.value, left.pos);
    }
  }

  lemma {:induction false} AndTailSound(ts: seq<Token>, start: nat, left: Node, p: nat)
    requires EndsInEof(ts) && start < p < |ts|
    requires DerivesAnd(ts, start, p, left)
    ensures var r := AndTailAt(ts, left, p); r.result.Ok? ==> DerivesAnd(ts, start, r.pos, r.result.value)
    decreases |ts| - p, 1
  {
    if ts[p] == Op(AndAnd) {
      PrimarySound(ts, p + 1);
      var right := ParsePrimaryAt(ts, p + 1);
      if right.result.Ok? {
        AndTailSound(ts, start, And(left, right.result.value), right.pos);
      }
    }
  }

  lemma {:induction false} PrimarySound(ts: seq<Token>, p: nat)
    requires EndsInEof(ts) && p < |ts|
    ensures var r := ParsePrimaryAt(ts, p); r.result.Ok? ==> DerivesPrimary(ts, p, r.pos, r.result.value)
    decreases |ts| - p, 1
  {
    if ts[p] == LParen {
      OrSound(ts, p + 1);
    } else {
      ConditionSound(ts, p);
    }
  }

  // ---- Completeness: what the grammar derives, the parser returns ----

  lemma {:induction false} ColumnEndIs(ts: seq<Token>, p: nat, k: nat)
    requires EndsInEof(ts) && p < k < |ts| && IsComparison(ts[k])
    requires forall i :: p <= i < k ==> IsWord(ts[i])
    ensures ColumnEnd(ts, p) == k
    decreases k - p
  {
    if p + 1 < k {
      ColumnEndIs(ts, p + 1, k);
    }
  }

  lemma {:induction false} ValueEndIs(ts: seq<Token>, p: nat, q: nat)
    requires EndsInEof(ts) && p <= q < |ts| && !IsWord(ts[q])
    requires forall i :: p <= i < q ==> IsWord(ts[i])
    ensures ValueEnd(ts, p) == q
    decreases q - p
  {
    if p < q {
      ValueEndIs(ts, p + 1, q);
    }
  }

  lemma ConditionComplete(ts: seq<Token>, p: nat, k: nat, q: nat, c: Condition)
    requires EndsInEof(ts) && q < |ts| && DerivesCondition(ts, p, k, q, c) && EndsValue(ts[q])
    ensures ParsePrimaryAt(ts, p) == Parsed(Ok(Cond(c)), q)
  {
    ColumnEndIs(ts, p, k);
    ValueEndIs(ts, k + 1, q);
  }

  lemma {:induction false} PrimaryComplete(ts: seq<Token>, p: nat, q: nat, n: Node)
    requires EndsInEof(ts) && q < |ts| && DerivesPrimary(ts, p, q, n) && EndsValue(ts[q])
    ensures p < q && ParsePrimaryAt(ts, p) == Parsed(Ok(n), q)
    decreases q - p, 0
  {
    if p + 2 <= q && ts[p] == LParen && ts[q - 1] == RParen && DerivesOr(ts, p + 1, q - 1, n) {
      OrComplete(ts, p + 1, q - 1, n);
    } else {
      var k: nat :| DerivesCondition(ts, p, k, q, n.cond);
      ConditionComplete(ts, p, k, q, n.cond);
    }
  }

  /** After deriving `n` up to `q`, the parser is in its And loop with `n` in hand. */
  lemma {:induction false} AndReaches(ts: seq<Token>, p: nat, q: nat, n: Node)
    requires EndsInEof(ts) && q < |ts| && DerivesAnd(ts, p, q, n) && EndsValue(ts[q])
    ensures p < q && ParseAndAt(ts, p) == AndTailAt(ts, n, q)
    decreases q - p, 1
  {
    hide DerivesPrimary, ParsePrimaryAt, DerivesOr, DerivesCondition;
    if DerivesPrimary(ts, p, q, n) {
      PrimaryComplete(ts, p, q, n);
    } else {
      var k: nat :| p <= k < q && ts[k] == Op(AndAnd) && DerivesAnd(ts, p, k, n.left)
          && DerivesPrimary(ts, k + 1, q, n.right);
      AndReaches(ts, p, k, n.left);
      PrimaryComplete(ts, k + 1, q, n.right);
    }
  }

  lemma {:induction false} OrReaches(ts: seq<Token>, p: nat, q: nat, n: Node)
    requires EndsInEof(ts) && q < |ts| && DerivesOr(ts, p, q, n) && EndsValue(ts[q]) && ts[q] != Op(AndAnd)
    ensures p < q && ParseOrAt(ts, p) == OrTailAt(ts, n, q)
    decreases q - p, 2
  {
    hide DerivesPrimary, ParsePrimaryAt, DerivesAnd, ParseAndAt, DerivesCondition;
    if DerivesAnd(ts, p, q, n) {
      AndReaches(ts, p, q, n);
    } else {
      var k: nat :| p <= k < q && ts[k] == Op(OrOr) && DerivesOr(ts, p, k, n.left) && DerivesAnd(ts, k + 1, q, n.right);
      OrReaches(ts, p, k, n.left);
      AndReaches(ts, k + 1, q, n.right);
    }
  }

  lemma {:induction false} OrComplete(ts: seq<Token>, p: nat, q: nat, n: Node)
    requires EndsInEof(ts) && q < |ts| && DerivesOr(ts, p, q, n) && (ts[q].Eof? || ts[q].RParen?)
    ensures p < q && ParseOrAt(ts, p) == Parsed(Ok(n), q)
    decreases q - p, 3
  {
    OrReaches(ts, p, q, n);
  }

  /** The parser accepts exactly the token lists the grammar derives, with the tree it derives. */
  lemma ParserAcceptsGrammar(ts: seq<Token>, n: Node)
    requires EndsInEof(ts)
    ensures ParseQuery(ts) == Ok(n) <==> DerivesQuery(ts, n)
  {
    OrSound(ts, 0);
    if DerivesQuery(ts, n) {
      OrComplete(ts, 0, |ts| - 1, n);
    }
  }

  /** The grammar is unambiguous. */
  lemma DerivationUnique(ts: seq<Token>, m: Node, n: Node)
    requires EndsInEof(ts)
    requires DerivesQuery(ts, m) && DerivesQuery(ts, n)
    ensures m == n
  {
    ParserAcceptsGrammar(ts, m);
    ParserAcceptsGrammar(ts, n);
  }

  // ---- The parser itself ----

  class TableQueryParser {
    const tokens: seq<Token>
    var pos: nat

    ghost predicate Valid()
      reads this
    {
      EndsInEof(tokens) && pos <= |tokens|
    }

    constructor (tokens: seq<Token>)
      requires EndsInEof(tokens)
      ensures Valid() && this.tokens == tokens && pos == 0
    {
      this.tokens, pos := tokens, 0;
    }

    method PeekToken() returns (t: Token)
      requires Valid()
      ensures t == Peek(tokens, pos)
    {
      if pos >= |tokens| {
        return Eof;
      }
      return tokens[pos];
    }

    method Next() returns (t: Token)
      requires Valid()
      modifies this
      ensures Valid() && t == Peek(tokens, old(pos))
      ensures pos == if old(pos) < |tokens| then old(pos) + 1 else old(pos)
    {
      t := PeekToken();
      if pos < |tokens| {
        pos := pos + 1;
      }
    }

    method ParseExpression() returns (r: Result<Node, ParseError>)
      requires Valid() && pos < |tokens|
      modifies this
      ensures Valid() && Parsed(r, pos) == ParseOrAt(tokens, old(pos))
      decreases |tokens| - pos, 4
    {
      r := ParseOr();
    }

    method ParseOr() returns (r: Result<Node, ParseError>)
      requires Valid() && pos < |tokens|
      modifies this
      ensures Valid() && Parsed(r, pos) == ParseOrAt(tokens, old(pos))
      decreases |tokens| - pos, 3
    {
      hide ParseAndAt, ParsePrimaryAt, AndTailAt;
      r := ParseAnd();
      if r.Err? {
        return;
      }
      var left := r.value;
      var token := PeekToken();
      while token == Op(OrOr)
        invariant Valid() && old(pos) < pos < |tokens| && token == Peek(tokens, pos)
        invariant ParseOrAt(tokens, old(pos)) == OrTailAt(tokens, left, pos)
        decreases |tokens| - pos
      {
        var _ := Next();
        r := ParseAnd();
        if r.Err? {
          return;
        }
        left := Or(left, r.value);
        token := PeekToken();
      }
      return Ok(left);
    }

    method ParseAnd() returns (r: Result<Node, ParseError>)
      requires Valid() && pos < |tokens|
      modifies this
      ensures Valid() && Parsed(r, pos) == ParseAndAt(tokens, old(pos))
      decreases |tokens| - pos, 2
    {
      hide ParseOrAt, ParsePrimaryAt, OrTailAt;
      r := ParsePrimary();
      if r.Err? {
        return;
      }
      var left := r.value;
      var token := PeekToken();
      while token == Op(AndAnd)
        invariant Valid() && old(pos) < pos < |tokens| && token == Peek(tokens, pos)
        invariant ParseAndAt(tokens, old(pos)) == AndTailAt(tokens, left, pos)
        decreases |tokens| - pos
      {
        var _ := Next();
        r := ParsePrimary();
        if r.Err? {
          return;
        }
        left := And(left, r.value);
        token := PeekToken();
      }
      return Ok(left);
    }

    method ParsePrimary() returns (r: Result<Node, ParseError>)
      requires Valid() && pos < |tokens|
      modifies this
      ensures Valid() && Parsed(r, pos) == ParsePrimaryAt(tokens, old(pos))
      decreases |tokens| - pos, 1
    {
      var token := PeekToken();
      if token == LParen {
        var _ := Next();
        r := ParseExpression();
        if r.Err? {
          return;
        }
        token := PeekToken();
        if token != RParen {
          return Err(ExpectedRParen);
        }
        var _ := Next();
        return;
      }
      r := ParseCondition();
    }

    method ParseCondition() returns (r: Result<Node, ParseError>)
      requires Valid() && pos < |tokens|
      modifies this
      ensures Valid() && Parsed(r, pos) == ParseConditionAt(tokens, old(pos))
      decreases |tokens| - pos, 0
    {
      hide ColumnEnd, ValueEnd, JoinWords, TrimSpace, Join;
      var column := ParseColumnWords();
      if |column| == 0 {
        return Err(ExpectedColumn);
      }
      var name := TrimSpace(Join(column, " "));
      var operator := Next();
      if !IsComparison(operator) {
        return Err(ExpectedOperator(name));
      }
      var value := ParseValueWords(operator.op);
      if value.Err? {
        return Err(value.error);
      }
      return Ok(Cond(Condition(name, operator.op, value.value)));
    }

    /** The second loop of parseCondition and the test behind it. */
    method ParseValueWords(op: Operator) returns (r: Result<string, ParseError>)
      requires Valid() && pos < |tokens|
      modifies this
      ensures Valid() && pos == ValueEnd(tokens, old(pos))
      ensures r == if !EndsValue(tokens[pos]) || pos == old(pos) then Err(ExpectedValue(op))
                   else Ok(TrimSpace(JoinWords(tokens, old(pos), pos)))
    {
      hide TrimSpace, Join, Texts;
      var valueParts: seq<string> := [];
      assert valueParts == Texts(tokens, pos, pos) by { NoTexts(tokens, pos); }
      while true
        invariant Valid() && old(pos) <= pos < |tokens|
        invariant forall i :: old(pos) <= i < pos ==> IsWord(tokens[i])
        invariant valueParts == Texts(tokens, old(pos), pos)
        invariant ValueEnd(tokens, old(pos)) == ValueEnd(tokens, pos)
        decreases |tokens| - pos
      {
        var token := PeekToken();
        if token == Eof || token == RParen || IsLogical(token) {
          break;
        }
        if !IsWord(token) {
          return Err(ExpectedValue(op));
        }
        OneMoreText(tokens, old(pos), pos);
        valueParts := valueParts + [token.text];
        var _ := Next();
      }
      if |valueParts| == 0 {
        return Err(ExpectedValue(op));
      }
      return Ok(TrimSpace(Join(valueParts, " ")));
    }

    /** The first loop of parseCondition; its look-ahead `tokens[pos + 1]` is always in bounds. */
    method ParseColumnWords() returns (words: seq<string>)
      requires Valid() && pos < |tokens|
      modifies this
      ensures Valid() && pos == ColumnEnd(tokens, old(pos))
      ensures |words| == pos - old(pos)
      ensures Join(words, " ") == JoinWords(tokens, old(pos), pos)
    {
      words := [];
      while true
        invariant Valid() && old(pos) <= pos < |tokens|
        invariant forall i :: old(pos) <= i < pos ==> IsWord(tokens[i])
        invariant words == Texts(tokens, old(pos), pos)
        invariant old(pos) < pos ==> !IsComparison(tokens[pos])
        invariant ColumnEnd(tokens, old(pos)) == if IsWord(tokens[pos]) then ColumnEnd(tokens, pos) else pos
        decreases |tokens| - pos
      {
        var token := PeekToken();
        if !IsWord(token) {
          break;
        }
        var nextToken := tokens[pos + 1];
        words := words + [token.text];
        var _ := Next();
        if IsComparison(nextToken) {
          break;
        }
      }
    }
  }

  lemma NoTexts(ts: seq<Token>, lo: nat)
    requires lo <= |ts|
    ensures Texts(ts, lo, lo) == []
  {}

  lemma OneMoreText(ts: seq<Token>, lo: nat, hi: nat)
    requires lo <= hi < |ts| && forall i :: lo <= i <= hi ==> IsWord(ts[i])
    ensures Texts(ts, lo, hi + 1) == Texts(ts, lo, hi) + [ts[hi].text]
  {}

  method ParseTableQuery(tokens: seq<Token>) returns (r: Result<Node, ParseError>)
    requires EndsInEof(tokens)
    ensures r == ParseQuery(tokens)
    ensures r.Ok? ==> DerivesQuery(tokens, r.value)
    ensures r.Err? ==> forall n :: !DerivesQuery(tokens, n)
  {
    var parser := new TableQueryParser(tokens);
    r := parser.ParseExpression();
    if r.Ok? {
      var token := parser.PeekToken();
      if token != Eof {
        r := Err(UnexpectedToken(token));
      }
    }
    forall n ensures DerivesQuery(tokens, n) <==> ParseQuery(tokens) == Ok(n) {
      ParserAcceptsGrammar(tokens, n);
    }
  }
}
