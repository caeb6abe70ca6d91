/** Tokenizer of the list-query language (cmd/server/table_query.go). */
module TableQueryTokens {
  import opened Common
  import opened Text

  datatype Operator = AndAnd | OrOr | Eq | Ne | Lt | Gt | Le | Ge {
    predicate IsComparison() { !AndAnd? && !OrOr? }
  }

  datatype Token =
    | Eof
    | Identifier(text: string)
    | Literal(text: string)
    | Op(op: Operator)
    | LParen
    | RParen

  datatype TokenError = UnterminatedQuote

  // ---- Lexical classes ----

  predicate IsBlank(c: char) { c == ' ' || c == '\t' || c == '\n' }

  /** The characters at which the scan of an unquoted word stops. */
  predicate EndsWord(c: char) {
    IsBlank(c) || c == '(' || c == ')' || c == '=' || c == '>' || c == '<' || c == '!'
  }

  predicate IsQuote(c: char) { c == '"' || c == '\'' }

  predicate StartsLogical(s: string) { "&&" <= s || "||" <= s }

  function TwoCharOperator(s: string): Option<Operator> {
    if "&&" <= s then Some(AndAnd)
    else if "||" <= s then Some(OrOr)
    else if ">=" <= s then Some(Ge)
    else if "<=" <= s then Some(Le)
    else if "!=" <= s then Some(Ne)
    else None
  }

  function OneCharOperator(c: char): Option<Operator> {
    if c == '=' then Some(Eq) else if c == '>' then Some(Gt) else if c == '<' then Some(Lt) else None
  }

  predicate IsLetterOrUnderscore(c: char) {
    c == '_' || 'a' <= c <= 'z' || 'A' <= c <= 'Z'
  }

  predicate IsIdentifierChar(c: char) { IsLetterOrUnderscore(c) || '0' <= c <= '9' }

  predicate IsIdentifierToken(value: string) {
    && value != ""
    && IsLetterOrUnderscore(value[0])
    && forall i :: 0 <= i < |value| ==> IsIdentifierChar(value[i])
  }

  function WordToken(value: string): Token {
    if IsIdentifierToken(value) then Identifier(value) else Literal(value)
  }

  /** How many characters the word branch consumes at the head of `s`. */
  function WordLength(s: string): (n: nat)
    ensures n <= |s|
    ensures n < |s| ==> EndsWord(s[n]) || StartsLogical(s[n..])
  {
    if s == "" || EndsWord(s[0]) || StartsLogical(s) then 0 else 1 + WordLength(s[1..])
  }

  /** Position of the first `q` in `s`, or `|s|` when there is none. */
  function IndexOf(s: string, q: char): (n: nat)
    ensures n <= |s| && (n < |s| ==> s[n] == q) && q !in s[..n]
  {
    if s == "" || s[0] == q then 0 else
    var n := IndexOf(s[1..], q);
    assert s[..n + 1] == [s[0]] + s[1..][..n];
    1 + n
  }

  // ---- One step of the scanning loop ----

  datatype Lexeme =
    | Skip(length: nat)
    | Emit(token: Token, length: nat)
    | NoClosingQuote

  /** What one pass through the loop does at the head of the remaining input. */
  function NextLexeme(s: string): (l: Lexeme)
    requires s != ""
    ensures !l.NoClosingQuote? ==> l.length <= |s|
  {
    if IsBlank(s[0]) then Skip(1)
    else if s[0] == '(' then Emit(LParen, 1)
    else if s[0] == ')' then Emit(RParen, 1)
    else if TwoCharOperator(s).Some? then Emit(Op(TwoCharOperator(s).value), 2)
    else if OneCharOperator(s[0]).Some? then Emit(Op(OneCharOperator(s[0]).value), 1)
    else if IsQuote(s[0]) then
      var n := IndexOf(s[1..], s[0]);
      if n == |s| - 1 then NoClosingQuote else Emit(Literal(s[1..n + 1]), n + 2)
    else Emit(WordToken(TrimSpace(s[..WordLength(s)])), WordLength(s))
  }

  // ---- The loop as a transition system: when does it stop? ----

  datatype LoopState = Running(rest: string, tokens: seq<Token>) | Failed {
    predicate Halted() { Failed? || rest == "" }
  }

  function Iterate(state: LoopState): LoopState {
    if state.Halted() then state else
    match NextLexeme(state.rest)
    case Skip(n) => Running(state.rest[n..], state.tokens)
    case Emit(t, n) => Running(state.rest[n..], state.tokens + [t])
    case NoClosingQuote => Failed
  }

  function RunFor(state: LoopState, iterations: nat): LoopState
    decreases iterations
  {
    if iterations == 0 then state else RunFor(Iterate(state), iterations - 1)
  }

  /**
   * True when every '!' met outside a quoted token is followed by '='.
   * `inWord` tells whether a quote character would still belong to a word.
   */
  predicate BangsPaired(s: string, inWord: bool)
    decreases |s|
  {
    if s == "" then true
    else if s[0] == '!' then "!=" <= s && BangsPaired(s[2..], false)
    else if IsQuote(s[0]) && !inWord then
      var n := IndexOf(s[1..], s[0]);
      n == |s| - 1 || BangsPaired(s[n + 2..], false)
    else if StartsLogical(s) then BangsPaired(s[2..], false)
    else BangsPaired(s[1..], !EndsWord(s[0]))
  }

  lemma {:induction false} BangsPairedAcrossWord(s: string, inWord: bool)
    requires s != "" && !EndsWord(s[0]) && !StartsLogical(s)
    requires inWord || !IsQuote(s[0])
    ensures 0 < WordLength(s)
    ensures BangsPaired(s, inWord) == BangsPaired(s[WordLength(s)..], false)
    decreases |s|
  {
    var t := s[1..];
    assert BangsPaired(s, inWord) == BangsPaired(t, true);
    assert s[WordLength(s)..] == t[WordLength(t)..];
    if t != "" && !EndsWord(t[0]) && !StartsLogical(t) {
      BangsPairedAcrossWord(t, true);
    } else {
      assert t[WordLength(t)..] == t;
    }
  }

  /** A step consumes input and keeps the pairing, except at a lone '!'. */
  lemma StepKeepsPairing(s: string)
    requires s != "" && !NextLexeme(s).NoClosingQuote?
    ensures BangsPaired(s, false) ==> 0 < NextLexeme(s).length && BangsPaired(s[NextLexeme(s).length..], false)
    ensures !BangsPaired(s, false) ==> !BangsPaired(s[NextLexeme(s).length..], false)
  {
    if ">=" <= s || "<=" <= s {
      assert s[1..][1..] == s[2..];
      assert BangsPaired(s[1..], false) == BangsPaired(s[1..][1..], false);
    } else if s[0] == '!' && !("!=" <= s) {
      assert s[0..] == s;
    } else if !IsBlank(s[0]) && s[0] != '(' && s[0] != ')' && !IsQuote(s[0]) && !StartsLogical(s) && s[0] != '!'
        && OneCharOperator(s[0]).None? {
      hide NextLexeme;
      WordLexeme(s);
      BangsPairedAcrossWord(s, false);
    }
  }

  /** Where nothing else starts, a word does. */
  lemma WordLexeme(s: string)
    requires s != "" && !IsBlank(s[0]) && s[0] != '(' && s[0] != ')' && !IsQuote(s[0]) && !StartsLogical(s)
               && s[0] != '!' && OneCharOperator(s[0]).None?
    requires !(">=" <= s) && !("<=" <= s)
    ensures NextLexeme(s) == Emit(WordToken(TrimSpace(s[..WordLength(s)])), WordLength(s)) && !EndsWord(s[0])
  {
    hide TrimSpace, WordLength;
  }

  lemma {:induction false} PairedRunHalts(state: LoopState) returns (iterations: nat)
    requires state.Running? ==> BangsPaired(state.rest, false)
    ensures RunFor(state, iterations).Halted()
    decreases state.Running?, if state.Running? then |state.rest| else 0
  {
    if state.Halted() {
      iterations := 0;
    } else {
      if !NextLexeme(state.rest).NoClosingQuote? {
        StepKeepsPairing(state.rest);
      }
      hide NextLexeme, BangsPaired;
      var n := PairedRunHalts(Iterate(state));
      iterations := n + 1;
    }
  }

  lemma {:induction false} UnpairedNeverHalts(state: LoopState, iterations: nat)
    requires state.Running? && !BangsPaired(state.rest, false)
    ensures !RunFor(state, iterations).Halted()
    decreases iterations
  {
    if iterations != 0 {
      StepKeepsPairing(state.rest);
      UnpairedNeverHalts(Iterate(state), iterations - 1);
    }
  }

  ghost predicate HaltsAfter(raw: string, iterations: nat) {
    RunFor(Running(raw, []), iterations).Halted()
  }

  /** The loop stops on exactly the inputs whose '!' are all paired with '='. */
  lemma TokenizerHaltsIff(raw: string)
    ensures (exists n: nat :: HaltsAfter(raw, n)) <==> BangsPaired(raw, false)
  {
    if BangsPaired(raw, false) {
      var n := PairedRunHalts(Running(raw, []));
      assert HaltsAfter(raw, n);
    } else {
      forall n: nat ensures !HaltsAfter(raw, n) {
        UnpairedNeverHalts(Running(raw, []), n);
      }
    }
  }

  /** On `a!` the loop never stops: after the word it emits empty literals for ever. */
  lemma LoneBangExample()
    ensures forall n: nat :: !HaltsAfter("a!", n)
  {
    assert "a!"[1..] == "!";
    assert !BangsPaired("!", true);
    TokenizerHaltsIff("a!");
  }

  // ---- The token list of an input ----

  function Prepend(token: Token, r: Result<seq<Token>, TokenError>): Result<seq<Token>, TokenError> {
    match r
    case Ok(ts) => Ok([token] + ts)
    case Err(e) => Err(e)
  }

  /** The tokens of an input on which the loop stops. */
  function Tokens(s: string): Result<seq<Token>, TokenError>
    requires BangsPaired(s, false)
    decreases |s|
  {
    if s == "" then Ok([Eof]) else
    match NextLexeme(s)
    case NoClosingQuote => Err(UnterminatedQuote)
    case Skip(n) => StepKeepsPairing(s); Tokens(s[n..])
    case Emit(t, n) => StepKeepsPairing(s); Prepend(t, Tokens(s[n..]))
  }

  /** A token list with exactly one Eof, at the end. */
  predicate EndsInEof(ts: seq<Token>) {
    && ts != []
    && ts[|ts| - 1] == Eof
    && forall i :: 0 <= i < |ts| - 1 ==> ts[i] != Eof
  }

  lemma {:induction false} TokensEndInEof(s: string)
    requires BangsPaired(s, false)
    ensures Tokens(s).Ok? ==> EndsInEof(Tokens(s).value)
    decreases |s|
  {
    if s != "" && !NextLexeme(s).NoClosingQuote? {
      StepKeepsPairing(s);
      TokensEndInEof(s[NextLexeme(s).length..]);
    }
  }

  /** `before` followed by what is still to come. */
  function Extend(before: seq<Token>, r: Result<seq<Token>, TokenError>): Result<seq<Token>, TokenError> {
    match r
    case Ok(ts) => Ok(before + ts)
    case Err(e) => Err(e)
  }

  function Emitted(l: Lexeme): seq<Token> {
    if l.Emit? then [l.token] else []
  }

  /** One pass through the loop moves a token from the input to the output. */
  lemma StepMovesToken(before: seq<Token>, s: string)
    requires s != "" && BangsPaired(s, false)
    ensures NextLexeme(s).NoClosingQuote? ==> Extend(before, Tokens(s)) == Err(UnterminatedQuote)
    ensures !NextLexeme(s).NoClosingQuote? ==>
              var rest := s[NextLexeme(s).length..];
              && 0 < NextLexeme(s).length
              && BangsPaired(rest, false)
              && Extend(before, Tokens(s)) == Extend(before + Emitted(NextLexeme(s)), Tokens(rest))
  {
    var l := NextLexeme(s);
    if !l.NoClosingQuote? {
      StepKeepsPairing(s);
      var r := Tokens(s[l.length..]);
      assert before + [] == before;
      if r.Ok? && l.Emit? {
        assert before + ([l.token] + r.value) == before + [l.token] + r.value;
      }
    }
  }

  method TokenizeTableQuery(raw: string) returns (r: Result<seq<Token>, TokenError>)
    requires BangsPaired(raw, false)
    ensures r == Tokens(raw)
    ensures r.Ok? ==> EndsInEof(r.value)
  {
    TokensEndInEof(raw);
    var tokens: seq<Token> := [];
    var i := 0;
    assert raw[i..] == raw && (Tokens(raw).Ok? ==> tokens + Tokens(raw).value == Tokens(raw).value);
    while i < |raw|
      invariant 0 <= i <= |raw|
      invariant BangsPaired(raw[i..], false)
      invariant Tokens(raw) == Extend(tokens, Tokens(raw[i..]))
    {
      StepMovesToken(tokens, raw[i..]);
      var emitted, next := ScanLexeme(raw, i);
      if next.None? {
        return Err(UnterminatedQuote);
      }
      assert raw[i..][next.value - i..] == raw[next.value..];
      tokens, i := tokens + emitted, next.value;
    }
    assert raw[i..] == "";
    tokens := tokens + [Eof];
    return Ok(tokens);
  }

  /** The body of the tokenizer's loop: the tokens it appends and the index it moves to. */
  method ScanLexeme(raw: string, i: nat) returns (emitted: seq<Token>, next: Option<nat>)
    requires i < |raw|
    ensures next.None? <==> NextLexeme(raw[i..]).NoClosingQuote?
    ensures next.Some? ==> emitted == Emitted(NextLexeme(raw[i..])) && next.value == i + NextLexeme(raw[i..]).length
  {
    var ch := raw[i];
    var two := TwoCharOperator(raw[i..]);
    var one := OneCharOperator(ch);
    if IsBlank(ch) {
      return [], Some(i + 1);
    } else if ch == '(' {
      return [LParen], Some(i + 1);
    } else if ch == ')' {
      return [RParen], Some(i + 1);
    } else if two.Some? {
      return [Op(two.value)], Some(i + 2);
    } else if one.Some? {
      return [Op(one.value)], Some(i + 1);
    } else if IsQuote(ch) {
      var start := i + 1;
      var end := ScanQuoted(raw, start, ch);
      assert raw[i..][1..] == raw[start..];
      if end >= |raw| {
        return [], None;
      }
      assert raw[start..end] == raw[i..][1..end - i];
      return [Literal(raw[start..end])], Some(end + 1);
    } else {
      var end := ScanWord(raw, i);
      assert raw[i..end] == raw[i..][..end - i];
      return [WordToken(TrimSpace(raw[i..end]))], Some(end);
    }
  }

  method ScanQuoted(raw: string, start: nat, quote: char) returns (i: nat)
    requires start <= |raw|
    ensures i == start + IndexOf(raw[start..], quote)
  {
    i := start;
    while i < |raw| && raw[i] != quote
      invariant start <= i <= |raw|
      invariant start + IndexOf(raw[start..], quote) == i + IndexOf(raw[i..], quote)
    {
      assert raw[i..][1..] == raw[i + 1..];
      i := i + 1;
    }
  }

  method ScanWord(raw: string, start: nat) returns (i: nat)
    requires start <= |raw|
    ensures i == start + WordLength(raw[start..])
  {
    i := start;
    while i < |raw| && !EndsWord(raw[i])
      invariant start <= i <= |raw|
      invariant start + WordLength(raw[start..]) == i + WordLength(raw[i..])
    {
      assert raw[i..][1..] == raw[i + 1..];
      if StartsLogical(raw[i..]) {
        break;
      }
      i := i + 1;
    }
  }
}
