/** Printing a query tree and reading it back: the round trip through tokenizer and parser. */
module TableQueryPrinter {
  import opened Common
  import opened Text
  import opened TableQueryTokens
  import opened TableQueryParsing

  function OperatorText(op: Operator): string {
    match op
    case AndAnd => "&&"
    case OrOr => "||"
    case Eq => "="
    case Ne => "!="
    case Lt => "<"
    case Gt => ">"
    case Le => "<="
    case Ge => ">="
  }

  function Bracket(l: string, op: Operator, r: string): string {
    "(" + (l + (OperatorText(op) + (r + ")")))
  }

  function BracketTokens(l: seq<Token>, op: Operator, r: seq<Token>): seq<Token> {
    [LParen] + l + [Op(op)] + r + [RParen]
  }

  /** Parentheses around every binary node, values in double quotes. */
  function Print(n: Node): string {
    match n
    case And(l, r) => Bracket(Print(l), AndAnd, Print(r))
    case Or(l, r) => Bracket(Print(l), OrOr, Print(r))
    case Cond(c) => c.column + (OperatorText(c.op) + ("\"" + (c.value + "\"")))
  }

  predicate Printable(n: Node) {
    match n
    case And(l, r) => Printable(l) && Printable(r)
    case Or(l, r) => Printable(l) && Printable(r)
    case Cond(c) => IsIdentifierToken(c.column) && c.op.IsComparison() && Trimmed(c.value) && '"' !in c.value
  }

  function PrintedTokens(n: Node): seq<Token> {
    match n
    case And(l, r) => BracketTokens(PrintedTokens(l), AndAnd, PrintedTokens(r))
    case Or(l, r) => BracketTokens(PrintedTokens(l), OrOr, PrintedTokens(r))
    case Cond(c) => [Identifier(c.column), Op(c.op), Literal(c.value)]
  }

  // ---- Tokenizing printed text ----

  /** `s` is tokenized to `ts` followed by the tokens of `rest`. */
  ghost predicate Reads(s: string, ts: seq<Token>, rest: string) {
    && BangsPaired(s, false)
    && BangsPaired(rest, false)
    && Tokens(s) == Extend(ts, Tokens(rest))
  }

  lemma ReadOne(s: string, t: Token, rest: string)
    requires s != "" && NextLexeme(s).Emit? && NextLexeme(s).token == t
    requires s[NextLexeme(s).length..] == rest && BangsPaired(rest, false)
    ensures Reads(s, [t], rest)
  {
    StepKeepsPairing(s);
  }

  lemma ReadChain(s: string, a: seq<Token>, mid: string, b: seq<Token>, rest: string)
    requires Reads(s, a, mid) && Reads(mid, b, rest)
    ensures Reads(s, a + b, rest)
  {
    if Tokens(rest).Ok? {
      assert a + (b + Tokens(rest).value) == a + b + Tokens(rest).value;
    }
  }

  lemma {:induction false} IdentifierWordLength(name: string, rest: string)
    requires forall i :: 0 <= i < |name| ==> IsIdentifierChar(name[i])
    requires rest != "" && EndsWord(rest[0])
    ensures WordLength(name + rest) == |name|
  {
    if name == "" {
      assert name + rest == rest;
    } else {
      assert (name + rest)[1..] == name[1..] + rest;
      IdentifierWordLength(name[1..], rest);
    }
  }

  lemma ReadIdentifier(name: string, rest: string)
    requires IsIdentifierToken(name) && rest != "" && EndsWord(rest[0]) && BangsPaired(rest, false)
    ensures BangsPaired(name + rest, false)
    ensures Reads(name + rest, [Identifier(name)], rest)
  {
    var s := name + rest;
    IdentifierWordLength(name, rest);
    assert s[..|name|] == name && s[|name|..] == rest;
    assert IsIdentifierChar(name[|name| - 1]);
    TrimSpaceKeepsTrimmed(name);
    assert s[0] == name[0];
    ReadOne(s, Identifier(name), rest);
  }

  lemma OperatorLexeme(op: Operator, rest: string)
    requires rest != "" && rest[0] != '='
    ensures NextLexeme(OperatorText(op) + rest) == Emit(Op(op), |OperatorText(op)|)
  {
    var s := OperatorText(op) + rest;
    assert |OperatorText(op)| == 1 ==> s[1] == rest[0];
  }

  lemma ReadOperator(op: Operator, rest: string)
    requires rest != "" && rest[0] != '=' && BangsPaired(rest, false)
    ensures BangsPaired(OperatorText(op) + rest, false)
    ensures Reads(OperatorText(op) + rest, [Op(op)], rest)
  {
    OperatorLexeme(op, rest);
    assert (OperatorText(op) + rest)[|OperatorText(op)|..] == rest;
    hide NextLexeme, OperatorText, BangsPaired, Tokens;
    ReadOne(OperatorText(op) + rest, Op(op), rest);
  }

  lemma {:induction false} IndexOfQuote(value: string, rest: string)
    requires '"' !in value
    ensures IndexOf(value + ("\"" + rest), '"') == |value|
  {
    var s := value + ("\"" + rest);
    if value == "" {
      assert s[0] == '"';
    } else {
      assert value[0] in value;
      assert s[1..] == value[1..] + ("\"" + rest);
      IndexOfQuote(value[1..], rest);
    }
  }

  lemma ReadQuoted(value: string, rest: string)
    requires '"' !in value && BangsPaired(rest, false)
    ensures BangsPaired("\"" + (value + ("\"" + rest)), false)
    ensures Reads("\"" + (value + ("\"" + rest)), [Literal(value)], rest)
  {
    var s := "\"" + (value + ("\"" + rest));
    assert s[1..] == value + ("\"" + rest);
    IndexOfQuote(value, rest);
    assert s[1..|value| + 1] == value && s[|value| + 2..] == rest;
    ReadOne(s, Literal(value), rest);
  }

  lemma ReadParen(t: Token, rest: string)
    requires t == LParen || t == RParen
    requires BangsPaired(rest, false)
    ensures BangsPaired((if t == LParen then "(" else ")") + rest, false)
    ensures Reads((if t == LParen then "(" else ")") + rest, [t], rest)
  {
    var s := (if t == LParen then "(" else ")") + rest;
    assert s[1..] == rest;
    ReadOne(s, t, rest);
  }

  lemma ReadCondition(c: Condition, rest: string)
    requires Printable(Cond(c)) && BangsPaired(rest, false)
    ensures BangsPaired(Print(Cond(c)) + rest, false)
    ensures Reads(Print(Cond(c)) + rest, PrintedTokens(Cond(c)), rest)
  {
    var quoted := "\"" + (c.value + ("\"" + rest));
    var compared := OperatorText(c.op) + quoted;
    ConditionText(c, rest);
    assert EndsWord(compared[0]);
    hide *;
    ReadQuoted(c.value, rest);
    ReadOperator(c.op, quoted);
    ReadIdentifier(c.column, compared);
    ReadChain(compared, [Op(c.op)], quoted, [Literal(c.value)], rest);
    ReadChain(c.column + compared, [Identifier(c.column)], compared, [Op(c.op)] + [Literal(c.value)], rest);
  }

  lemma ConditionText(c: Condition, rest: string)
    ensures Print(Cond(c)) + rest == c.column + (OperatorText(c.op) + ("\"" + (c.value + ("\"" + rest))))
    ensures PrintedTokens(Cond(c)) == [Identifier(c.column)] + ([Op(c.op)] + [Literal(c.value)])
  {}

  lemma PrintStartsClean(n: Node)
    requires Printable(n)
    ensures Print(n) != "" && Print(n)[0] != '='
  {}

  lemma {:induction false} ReadPrinted(n: Node, rest: string)
    requires Printable(n) && BangsPaired(rest, false)
    ensures BangsPaired(Print(n) + rest, false)
    ensures Reads(Print(n) + rest, PrintedTokens(n), rest)
    decreases n, 1
  {
    match n
    case Cond(c) => ReadCondition(c, rest);
    case And(l, r) => ReadBinary(n, l, AndAnd, r, rest);
    case Or(l, r) => ReadBinary(n, l, OrOr, r, rest);
  }

  lemma {:induction false} ReadBinary(n: Node, l: Node, op: Operator, r: Node, rest: string)
    requires (n == And(l, r) && op == AndAnd) || (n == Or(l, r) && op == OrOr)
    requires Printable(n) && BangsPaired(rest, false)
    ensures BangsPaired(Print(n) + rest, false)
    ensures Reads(Print(n) + rest, PrintedTokens(n), rest)
    decreases n, 0
  {
    var close := ")" + rest;
    var right := Print(r) + close;
    var middle := OperatorText(op) + right;
    var left := Print(l) + middle;
    assert Print(n) == Bracket(Print(l), op, Print(r))
             && PrintedTokens(n) == BracketTokens(PrintedTokens(l), op, PrintedTokens(r));
    assert Printable(l) && Printable(r);
    PrintStartsClean(r);
    assert right[0] == Print(r)[0];
    hide *;
    BracketText(Print(l), op, Print(r), rest);
    BracketTokensGrouped(PrintedTokens(l), op, PrintedTokens(r));
    ReadParen(RParen, rest);
    ReadPrinted(r, close);
    ReadOperator(op, right);
    ReadPrinted(l, middle);
    ReadParen(LParen, left);
    ReadChain(right, PrintedTokens(r), close, [RParen], rest);
    ReadChain(middle, [Op(op)], right, PrintedTokens(r) + [RParen], rest);
    ReadChain(left, PrintedTokens(l), middle, [Op(op)] + (PrintedTokens(r) + [RParen]), rest);
    ReadChain("(" + left, [LParen], left, PrintedTokens(l) + ([Op(op)] + (PrintedTokens(r) + [RParen])), rest);
  }

  lemma BracketText(l: string, op: Operator, r: string, rest: string)
    ensures Bracket(l, op, r) + rest == "(" + (l + (OperatorText(op) + (r + (")" + rest))))
  {
    hide OperatorText;
  }

  lemma BracketTokensGrouped(l: seq<Token>, op: Operator, r: seq<Token>)
    ensures BracketTokens(l, op, r) == [LParen] + (l + ([Op(op)] + (r + [RParen])))
  {}

  // ---- Parsing the printed tokens ----

  /** `ts` carries the printed tokens of `n` from position `p` on. */
  predicate PrintedAt(ts: seq<Token>, p: nat, n: Node) {
    p + |PrintedTokens(n)| <= |ts| && ts[p..p + |PrintedTokens(n)|] == PrintedTokens(n)
  }

  lemma PrintedParts(ts: seq<Token>, p: nat, a: seq<Token>, b: seq<Token>, c: seq<Token>)
    requires p + |a| + |b| + |c| <= |ts| && ts[p..p + |a| + |b| + |c|] == a + b + c
    ensures ts[p + |a|..p + |a| + |b|] == b
  {
    var s := ts[p..p + |a| + |b| + |c|];
    assert s[|a|..|a| + |b|] == b;
    forall i | 0 <= i < |b| ensures ts[p + |a|..p + |a| + |b|][i] == b[i] {
      assert s[|a| + i] == ts[p + |a| + i];
    }
  }

  lemma {:induction false} PrintedDerives(ts: seq<Token>, p: nat, n: Node)
    requires Printable(n) && PrintedAt(ts, p, n)
    ensures DerivesPrimary(ts, p, p + |PrintedTokens(n)|, n)
    decreases n, 1
  {
    match n
    case Cond(c) =>
      assert ts[p..p + 3][0] == ts[p] && ts[p..p + 3][1] == ts[p + 1] && ts[p..p + 3][2] == ts[p + 2];
      assert IsIdentifierChar(c.column[|c.column| - 1]);
      TrimSpaceKeepsTrimmed(c.column);
      TrimSpaceKeepsTrimmed(c.value);
      assert DerivesCondition(ts, p, p + 1, p + 3, c);
    case And(l, r) => PrintedBinaryDerives(ts, p, n, l, AndAnd, r);
    case Or(l, r) => PrintedBinaryDerives(ts, p, n, l, OrOr, r);
  }

  lemma BracketPositions(ts: seq<Token>, p: nat, l: seq<Token>, op: Operator, r: seq<Token>)
    requires var whole := BracketTokens(l, op, r); p + |whole| <= |ts| && ts[p..p + |whole|] == whole
    ensures |BracketTokens(l, op, r)| == |l| + |r| + 3
    ensures ts[p] == LParen && ts[p + 1 + |l|] == Op(op) && ts[p + 2 + |l| + |r|] == RParen
    ensures ts[p + 1..p + 1 + |l|] == l
    ensures ts[p + 2 + |l|..p + 2 + |l| + |r|] == r
  {
    var whole := BracketTokens(l, op, r);
    var here := ts[p..p + |whole|];
    assert whole == [LParen] + l + ([Op(op)] + r + [RParen]);
    PrintedParts(ts, p, [LParen], l, [Op(op)] + r + [RParen]);
    assert whole == ([LParen] + l + [Op(op)]) + r + [RParen];
    PrintedParts(ts, p, [LParen] + l + [Op(op)], r, [RParen]);
    assert here[0] == LParen && here[1 + |l|] == Op(op) && here[2 + |l| + |r|] == RParen;
  }

  lemma {:induction false} PrintedBinaryDerives(ts: seq<Token>, p: nat, n: Node, l: Node, op: Operator, r: Node)
    requires (n == And(l, r) && op == AndAnd) || (n == Or(l, r) && op == OrOr)
    requires Printable(n) && PrintedAt(ts, p, n)
    ensures DerivesPrimary(ts, p, p + |PrintedTokens(n)|, n)
    decreases n, 0
  {
    hide *;
    var lt, rt := PrintedTokens(l), PrintedTokens(r);
    var k := p + 1 + |lt|;
    var q := k + |rt| + 2;
    PrintedBinary(ts, p, n, l, op, r);
    BracketPositions(ts, p, lt, op, rt);
    PartsPrinted(ts, p + 1, l);
    PartsPrinted(ts, k + 1, r);
    PrintedDerives(ts, p + 1, l);
    PrintedDerives(ts, k + 1, r);
    BinaryDerives(ts, p, k, q, n, l, op, r);
  }

  lemma PrintedBinary(ts: seq<Token>, p: nat, n: Node, l: Node, op: Operator, r: Node)
    requires (n == And(l, r) && op == AndAnd) || (n == Or(l, r) && op == OrOr)
    requires Printable(n) && PrintedAt(ts, p, n)
    ensures Printable(l) && Printable(r)
    ensures var whole := BracketTokens(PrintedTokens(l), op, PrintedTokens(r));
            PrintedTokens(n) == whole && p + |whole| <= |ts| && ts[p..p + |whole|] == whole
  {
    hide BracketTokens;
  }

  lemma PartsPrinted(ts: seq<Token>, p: nat, n: Node)
    requires p + |PrintedTokens(n)| <= |ts| && ts[p..p + |PrintedTokens(n)|] == PrintedTokens(n)
    ensures PrintedAt(ts, p, n)
  {
    hide PrintedTokens;
  }

  lemma BinaryDerives(ts: seq<Token>, p: nat, k: nat, q: nat, n: Node, l: Node, op: Operator, r: Node)
    requires (n == And(l, r) && op == AndAnd) || (n == Or(l, r) && op == OrOr)
    requires p + 1 <= k < q - 1 < |ts| && ts[p] == LParen && ts[k] == Op(op) && ts[q - 1] == RParen
    requires DerivesPrimary(ts, p + 1, k, l) && DerivesPrimary(ts, k + 1, q - 1, r)
    ensures DerivesPrimary(ts, p, q, n)
  {
    assert DerivesAnd(ts, p + 1, k, l) && DerivesOr(ts, p + 1, k, l) && DerivesAnd(ts, k + 1, q - 1, r);
    assert n.And? ==> DerivesAnd(ts, p + 1, q - 1, n);
    assert DerivesOr(ts, p + 1, q - 1, n);
  }

  /** Printing a tree, tokenizing the text and parsing the tokens gives the tree back. */
  lemma RoundTrip(n: Node)
    requires Printable(n)
    ensures BangsPaired(Print(n), false)
    ensures Tokens(Print(n)) == Ok(PrintedTokens(n) + [Eof])
    ensures EndsInEof(PrintedTokens(n) + [Eof])
    ensures ParseQuery(PrintedTokens(n) + [Eof]) == Ok(n)
  {
    PrintedReads(n);
    hide *;
    TokensOfPrinted(n);
    PrintedParses(n);
  }

  lemma PrintedReads(n: Node)
    requires Printable(n)
    ensures BangsPaired(Print(n), false) && Reads(Print(n), PrintedTokens(n), "")
  {
    hide Print, Reads, Printable, PrintedTokens;
    ReadPrinted(n, "");
    assert Print(n) + "" == Print(n);
  }

  lemma TokensOfPrinted(n: Node)
    requires BangsPaired(Print(n), false) && Reads(Print(n), PrintedTokens(n), "")
    ensures Tokens(Print(n)) == Ok(PrintedTokens(n) + [Eof]) && EndsInEof(PrintedTokens(n) + [Eof])
  {
    TokensEndInEof(Print(n));
  }

  lemma PrintedParses(n: Node)
    requires Printable(n) && EndsInEof(PrintedTokens(n) + [Eof])
    ensures ParseQuery(PrintedTokens(n) + [Eof]) == Ok(n)
  {
    hide Print, Printable, PrintedTokens, ParseQuery, DerivesPrimary;
    var ts := PrintedTokens(n) + [Eof];
    assert ts[0..|PrintedTokens(n)|] == PrintedTokens(n);
    PrintedDerives(ts, 0, n);
    assert DerivesAnd(ts, 0, |ts| - 1, n);
    ParserAcceptsGrammar(ts, n);
  }
}
