/**
 * Conditions as users type them: unquoted words before and after the
 * comparison (cmd/server/table_query.go).
 */
module TableQueryPhrases {
  import opened Common
  import opened Text
  import opened TableQueryTokens
  import opened TableQueryParsing
  import opened TableQueryPrinter

  /** A word that needs no quotes. */
  predicate BareWord(w: string) {
    w != "" && !IsQuote(w[0]) && forall c :: c in w ==> !EndsWord(c) && !IsSpace(c) && c != '&' && c != '|'
  }

  predicate BareWords(ws: seq<string>) { ws != [] && forall w :: w in ws ==> BareWord(w) }

  /** The token of a bare word has its text, and is an identifier exactly when it is spelled like one. */
  lemma WordTokenIs(w: string)
    ensures WordToken(w).text == w && IsWord(WordToken(w))
    ensures WordToken(w).Identifier? <==> IsIdentifierToken(w)
  {}

  function WordTokens(ws: seq<string>): seq<Token> {
    if ws == [] then [] else [WordToken(ws[0])] + WordTokens(ws[1..])
  }

  lemma {:induction false} BareLength(w: string, rest: string)
    requires forall c :: c in w ==> !EndsWord(c) && c != '&' && c != '|'
    requires rest == "" || EndsWord(rest[0])
    ensures WordLength(w + rest) == |w|
  {
    if w == "" {
      assert w + rest == rest;
    } else {
      var s := w + rest;
      assert s[1..] == w[1..] + rest;
      assert w[0] in w && s[0] == w[0];
      assert forall c :: c in w[1..] ==> c in w;
      BareLength(w[1..], rest);
    }
  }

  lemma ReadBare(w: string, rest: string)
    requires BareWord(w) && (rest == "" || EndsWord(rest[0])) && BangsPaired(rest, false)
    ensures Reads(w + rest, [WordToken(w)], rest)
  {
    var s := w + rest;
    BareLength(w, rest);
    assert s[..|w|] == w && s[|w|..] == rest;
    assert s[0] == w[0] && w[0] in w;
    assert w[|w| - 1] in w;
    TrimSpaceKeepsTrimmed(w);
    hide TrimSpace, WordLength, WordToken;
    NotAnOperator(s);
    WordLexeme(s);
    ReadOne(s, WordToken(w), rest);
  }

  lemma NotAnOperator(s: string)
    requires s != "" && !EndsWord(s[0]) && s[0] != '&' && s[0] != '|'
    ensures !StartsLogical(s) && OneCharOperator(s[0]).None? && !(">=" <= s) && !("<=" <= s) && s[0] != '!'
  {}

  lemma ReadBlank(rest: string)
    requires BangsPaired(rest, false)
    ensures Reads(" " + rest, [], rest)
  {
    var s := " " + rest;
    assert s[1..] == rest;
    StepKeepsPairing(s);
    hide BangsPaired;
    if Tokens(rest).Ok? { assert [] + Tokens(rest).value == Tokens(rest).value; }
  }

  lemma {:induction false} ReadBareWords(ws: seq<string>, rest: string)
    requires BareWords(ws) && (rest == "" || EndsWord(rest[0])) && BangsPaired(rest, false)
    ensures Reads(Join(ws, " ") + rest, WordTokens(ws), rest)
  {
    hide *;
    BareHead(ws);
    var more := ws[1..];
    assert ws == [ws[0]] + more;
    JoinConcat([ws[0]], [ws[0]], " ");
    if more == [] {
      ReadBare(ws[0], rest);
      assert ws == [ws[0]];
      OneToken(ws[0]);
    } else {
      var tail := Join(more, " ") + rest;
      JoinConcat([ws[0]], more, " ");
      ReadBareWords(more, rest);
      ReadsPaired(tail, WordTokens(more), rest);
      ReadBlank(tail);
      ReadsPaired(" " + tail, [], tail);
      BlankEnds(tail);
      ReadBare(ws[0], " " + tail);
      ReadChain(" " + tail, [], tail, WordTokens(more), rest);
      ReadChain(ws[0] + (" " + tail), [WordToken(ws[0])], " " + tail, [] + WordTokens(more), rest);
      MoreTokens(ws);
      Grouped(ws[0], " ", Join(more, " "), rest);
    }
  }

  lemma Grouped(a: string, b: string, c: string, d: string)
    ensures a + b + c + d == a + (b + (c + d))
  {}

  lemma BareHead(ws: seq<string>)
    requires BareWords(ws)
    ensures ws != [] && BareWord(ws[0]) && (ws[1..] != [] ==> BareWords(ws[1..]))
  {
    hide BareWord;
    assert ws[0] in ws && forall w :: w in ws[1..] ==> w in ws;
  }

  lemma OneToken(w: string)
    ensures WordTokens([w]) == [WordToken(w)]
  {
    assert [w][1..] == [];
  }

  lemma MoreTokens(ws: seq<string>)
    requires ws != []
    ensures WordTokens(ws) == [WordToken(ws[0])] + ([] + WordTokens(ws[1..]))
  {}

  lemma ReadsPaired(s: string, ts: seq<Token>, rest: string)
    requires Reads(s, ts, rest)
    ensures BangsPaired(s, false)
  {
    hide BangsPaired;
  }

  lemma BlankEnds(s: string)
    ensures EndsWord((" " + s)[0])
  {}

  function Phrase(columns: seq<string>, op: Operator, values: seq<string>): string {
    Join(columns, " ") + (OperatorText(op) + Join(values, " "))
  }

  function PhraseTokens(columns: seq<string>, op: Operator, values: seq<string>): seq<Token> {
    WordTokens(columns) + ([Op(op)] + WordTokens(values))
  }

  lemma PhraseTokenizes(columns: seq<string>, op: Operator, values: seq<string>)
    requires BareWords(columns) && BareWords(values) && op.IsComparison()
    ensures BangsPaired(Phrase(columns, op, values), false)
    ensures Tokens(Phrase(columns, op, values)) == Ok(PhraseTokens(columns, op, values) + [Eof])
  {
    hide *;
    NothingIsPaired();
    var value := Join(values, " ");
    ReadBareWords(values, "");
    assert value + "" == value;
    ReadsPaired(value, WordTokens(values), "");
    ValueStarts(values);
    ReadOperator(op, value);
    OperatorEnds(op, value);
    ReadBareWords(columns, OperatorText(op) + value);
    ReadChain(OperatorText(op) + value, [Op(op)], value, WordTokens(values), "");
    ReadChain(Phrase(columns, op, values), WordTokens(columns), OperatorText(op) + value,
              [Op(op)] + WordTokens(values), "") by {
      PhraseIs(columns, op, values);
    }
    PhraseIs(columns, op, values);
    WholeTokens(Phrase(columns, op, values), PhraseTokens(columns, op, values));
  }

  lemma PhraseIs(columns: seq<string>, op: Operator, values: seq<string>)
    ensures Phrase(columns, op, values) == Join(columns, " ") + (OperatorText(op) + Join(values, " "))
    ensures PhraseTokens(columns, op, values) == WordTokens(columns) + ([Op(op)] + WordTokens(values))
  {}

  lemma NothingIsPaired()
    ensures BangsPaired("", false)
  {}

  lemma ValueStarts(values: seq<string>)
    requires BareWords(values)
    ensures Join(values, " ") != "" && Join(values, " ")[0] != '='
  {
    BareHead(values);
    JoinConcat([values[0]], [values[0]], " ");
    if |values| > 1 {
      assert values == [values[0]] + values[1..];
      JoinConcat([values[0]], values[1..], " ");
    } else {
      assert values == [values[0]];
    }
    assert values[0][0] in values[0];
    hide Join;
  }

  lemma OperatorEnds(op: Operator, rest: string)
    requires op.IsComparison()
    ensures (OperatorText(op) + rest) != "" && EndsWord((OperatorText(op) + rest)[0])
  {}

  lemma WholeTokens(s: string, ts: seq<Token>)
    requires Reads(s, ts, "")
    ensures BangsPaired(s, false) && Tokens(s) == Ok(ts + [Eof])
  {}

  // ---- The condition that is read ----

  lemma {:induction false} WordTokensAre(ws: seq<string>)
    ensures |WordTokens(ws)| == |ws|
    ensures forall i :: 0 <= i < |ws| ==> WordTokens(ws)[i] == WordToken(ws[i])
  {
    if ws != [] { WordTokensAre(ws[1..]); }
  }

  lemma {:induction false} TextsAre(ts: seq<Token>, lo: nat, ws: seq<string>)
    requires lo + |ws| <= |ts| && forall i :: 0 <= i < |ws| ==> ts[lo + i] == WordToken(ws[i])
    ensures forall i :: lo <= i < lo + |ws| ==> IsWord(ts[i])
    ensures Texts(ts, lo, lo + |ws|) == ws
  {
    forall i | lo <= i < lo + |ws| ensures IsWord(ts[i]) { assert ts[lo + (i - lo)] == WordToken(ws[i - lo]); }
    if ws != [] {
      var front, last := ws[..|ws| - 1], ws[|ws| - 1];
      assert ws == front + [last];
      TextsAre(ts, lo, front);
      assert ts[lo + |front|] == WordToken(last);
    }
  }

  lemma JoinTrimmed(ws: seq<string>)
    requires BareWords(ws)
    ensures TrimSpace(Join(ws, " ")) == Join(ws, " ")
  {
    BareEnds(ws);
    hide *;
    var first, last := ws[0], ws[|ws| - 1];
    var text := Join(ws, " ");
    JoinConcat([first], [last], " ");
    if |ws| == 1 {
      assert ws == [first];
      EndsTrimmed(first, first, first);
    } else {
      JoinConcat([last], [first], " ");
      assert ws == [first] + ws[1..];
      JoinConcat([first], ws[1..], " ");
      assert [first] + ws[1..] == ws[..|ws| - 1] + [last];
      JoinConcat(ws[..|ws| - 1], [last], " ");
      Heads(first, Join(ws[1..], " "), Join(ws[..|ws| - 1], " "), last, text);
      EndsTrimmed(first, last, text);
    }
  }

  lemma BareEnds(ws: seq<string>)
    requires BareWords(ws)
    ensures ws != [] && ws[0] != "" && !IsSpace(ws[0][0])
    ensures var last := ws[|ws| - 1]; last != "" && !IsSpace(last[|last| - 1])
  {
    var first, last := ws[0], ws[|ws| - 1];
    assert first in ws && last in ws && first[0] in first && last[|last| - 1] in last;
  }

  lemma Heads(first: string, more: string, before: string, last: string, text: string)
    requires first != "" && last != "" && text == first + " " + more && text == before + " " + last
    ensures |text| >= |first| && text[0] == first[0] && text[|text| - 1] == last[|last| - 1]
  {}

  lemma EndsTrimmed(first: string, last: string, text: string)
    requires first != "" && last != "" && text != "" && !IsSpace(first[0]) && !IsSpace(last[|last| - 1])
    requires text[0] == first[0] && text[|text| - 1] == last[|last| - 1]
    ensures TrimSpace(text) == text
  {
    TrimSpaceKeepsTrimmed(text);
  }

  /**
   * Unquoted words before and after a comparison are read as one condition, its
   * column and value the words in order.
   */
  lemma PhraseReads(columns: seq<string>, op: Operator, values: seq<string>)
    requires BareWords(columns) && BareWords(values) && op.IsComparison()
    ensures BangsPaired(Phrase(columns, op, values), false)
    ensures Tokens(Phrase(columns, op, values)) == Ok(PhraseTokens(columns, op, values) + [Eof])
    ensures EndsInEof(PhraseTokens(columns, op, values) + [Eof])
    ensures ParseQuery(PhraseTokens(columns, op, values) + [Eof]) ==
              Ok(Cond(Condition(Join(columns, " "), op, Join(values, " "))))
  {
    PhraseTokenizes(columns, op, values);
    TokensEndInEof(Phrase(columns, op, values));
    var ts := PhraseTokens(columns, op, values) + [Eof];
    var c := Condition(Join(columns, " "), op, Join(values, " "));
    PhraseDerives(columns, op, values, c);
    hide *;
    ParserAcceptsGrammar(ts, Cond(c));
  }

  lemma PhraseDerives(columns: seq<string>, op: Operator, values: seq<string>, c: Condition)
    requires BareWords(columns) && BareWords(values) && op.IsComparison()
    requires c == Condition(Join(columns, " "), op, Join(values, " "))
    ensures DerivesQuery(PhraseTokens(columns, op, values) + [Eof], Cond(c))
  {
    hide *;
    var ts, k := PhraseTokens(columns, op, values) + [Eof], |columns|;
    PhraseShape(columns, op, values);
    TextsAre(ts, 0, columns);
    TextsAre(ts, k + 1, values);
    JoinTrimmed(columns);
    JoinTrimmed(values);
    SomeWords(columns);
    SomeWords(values);
    ConditionAt(ts, k, columns, op, values, c);
    ConditionIsQuery(ts, k, c);
  }

  lemma SomeWords(ws: seq<string>)
    requires BareWords(ws)
    ensures |ws| > 0
  {}

  lemma PhraseShape(columns: seq<string>, op: Operator, values: seq<string>)
    ensures var ts := PhraseTokens(columns, op, values) + [Eof];
            && |ts| == |columns| + 1 + |values| + 1 && ts[|columns|] == Op(op)
            && (forall i :: 0 <= i < |columns| ==> ts[0 + i] == WordToken(columns[i]))
            && forall i :: 0 <= i < |values| ==> ts[|columns| + 1 + i] == WordToken(values[i])
  {
    WordTokensAre(columns);
    WordTokensAre(values);
    hide WordTokens, WordToken;
    var ts := PhraseTokens(columns, op, values) + [Eof];
    forall i | 0 <= i < |columns| ensures ts[0 + i] == WordTokens(columns)[i] {}
    forall i | 0 <= i < |values| ensures ts[|columns| + 1 + i] == WordTokens(values)[i] {}
  }

  lemma ConditionAt(ts: seq<Token>, k: nat, columns: seq<string>, op: Operator, values: seq<string>, c: Condition)
    requires op.IsComparison() && 0 < k == |columns| && |values| > 0 && |ts| == k + 1 + |values| + 1 && ts[k] == Op(op)
    requires (forall i :: 0 <= i < k ==> IsWord(ts[i])) && forall i :: k < i < |ts| - 1 ==> IsWord(ts[i])
    requires Texts(ts, 0, k) == columns && Texts(ts, k + 1, |ts| - 1) == values
    requires TrimSpace(Join(columns, " ")) == Join(columns, " ") && TrimSpace(Join(values, " ")) == Join(values, " ")
    requires c == Condition(Join(columns, " "), op, Join(values, " "))
    ensures DerivesCondition(ts, 0, k, |ts| - 1, c)
  {
    hide Texts, TrimSpace, Join;
  }

  lemma ConditionIsQuery(ts: seq<Token>, k: nat, c: Condition)
    requires ts != [] && DerivesCondition(ts, 0, k, |ts| - 1, c)
    ensures DerivesQuery(ts, Cond(c))
  {
    hide DerivesCondition;
    assert DerivesPrimary(ts, 0, |ts| - 1, Cond(c));
    assert DerivesAnd(ts, 0, |ts| - 1, Cond(c));
  }
}
