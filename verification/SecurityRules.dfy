/**
 * First-match security rules and the detection of rules that decide nothing
 * (internal/db/AppDefinition.go, SecurityRules.go).
 */
module SecurityRules {
  import opened Common
  import opened Text
  import opened StableSorting

  datatype Rule = Rule(name: string, order: int, effect: string, operation: string, table: string, field: string,
                       condition: string, role: string)

  predicate RuleBefore(a: Rule, b: Rule) { RanksBefore(a.order, a.name, b.order, b.name) }

  lemma RuleBeforeIsWeak()
    ensures StrictWeakOrder(RuleBefore)
  {
    hide RanksBefore;
    forall a: Rule, b: Rule, c: Rule
      ensures RuleBefore(a, b) ==> !RuleBefore(b, a)
      ensures RuleBefore(a, c) ==> RuleBefore(a, b) || RuleBefore(b, c)
    {
      RanksBeforeWeak((a.order, a.name), (b.order, b.name), (c.order, c.name));
    }
  }

  predicate DistinctRuleNames(rules: seq<Rule>) {
    forall i, j :: 0 <= i < j < |rules| ==> rules[i].name != rules[j].name
  }

  lemma NamesTellApart(rules: seq<Rule>)
    requires DistinctRuleNames(rules)
    ensures TellsApart(rules, RuleBefore)
  {
    forall x, y | x in rules && y in rules && x != y ensures RuleBefore(x, y) || RuleBefore(y, x) {
      var i :| 0 <= i < |rules| && rules[i] == x;
      var j :| 0 <= j < |rules| && rules[j] == y;
      RanksBeforeWeak((x.order, x.name), (y.order, y.name), (x.order, x.name));
    }
  }

  // ---- Normalisation ----

  function NormalizeEffect(raw: string): string {
    var effect := NormalizeIdentifier(raw);
    if effect in {"allow", "allowed", "permit", "permitted", "grant", "granted"} then "allow"
    else if effect in {"deny", "denied", "block", "blocked", "forbid", "forbidden"} then "deny"
    else effect
  }

  function UpperChar(c: char): char {
    if 'a' <= c <= 'z' then (c as int - 32) as char else c
  }

  function ToUpper(s: string): string {
    seq(|s|, i requires 0 <= i < |s| => UpperChar(s[i]))
  }

  function NormalizeOperation(raw: string): string {
    var operation := TrimSpace(ToUpper(raw));
    if operation in {"C", "CREATE", "INSERT"} then "C"
    else if operation in {"R", "READ", "SELECT", "VIEW"} then "R"
    else if operation in {"U", "UPDATE", "WRITE", "EDIT"} then "U"
    else if operation in {"D", "DELETE", "REMOVE"} then "D"
    else operation
  }

  /** `loose` is normalizeLooseIdentifier, which turns a free name into an identifier. */
  function NormalizeRule(rule: Rule, loose: string -> string): Rule {
    Rule(loose(rule.name), rule.order, NormalizeEffect(rule.effect), NormalizeOperation(rule.operation),
         NormalizeIdentifier(rule.table),
         NormalizeIdentifier(rule.field), TrimSpace(rule.condition), NormalizeIdentifier(rule.role))
  }

  predicate IsRepeat(rule: Rule, kept: seq<Rule>) {
    rule.name != "" && exists k :: 0 <= k < |kept| && kept[k].name == rule.name
  }

  /** Of several rules with one name the first is kept. */
  function KeepFirst(rules: seq<Rule>, loose: string -> string): seq<Rule> {
    if rules == [] then [] else
    var kept := KeepFirst(rules[..|rules| - 1], loose);
    var rule := NormalizeRule(rules[|rules| - 1], loose);
    if IsRepeat(rule, kept) then kept else kept + [rule]
  }

  /** A normalised rule is kept exactly when it has no name or is the first of its name. */
  lemma {:induction false} KeepFirstIs(rules: seq<Rule>, loose: string -> string, r: Rule)
    ensures r in KeepFirst(rules, loose) <==>
              exists i :: 0 <= i < |rules| && NormalizeRule(rules[i], loose) == r && FirstOfItsName(rules, loose, i)
  {
    hide NormalizeRule, FirstOfItsName;
    if rules != [] {
      var front, last := rules[..|rules| - 1], rules[|rules| - 1];
      assert rules == front + [last];
      KeepFirstIs(front, loose, r);
      forall i | 0 <= i < |front| ensures FirstOfItsName(rules, loose, i) <==> FirstOfItsName(front, loose, i) {
        FirstInFront(front, last, loose, i);
      }
      RepeatsIff(front, last, loose);
      hide IsRepeat;
      assert rules[|front|] == last && forall i :: 0 <= i < |front| ==> rules[i] == front[i];
    }
  }

  predicate FirstOfItsName(rules: seq<Rule>, loose: string -> string, i: nat)
    requires i < |rules|
  {
    loose(rules[i].name) == "" || forall j :: 0 <= j < i ==> loose(rules[j].name) != loose(rules[i].name)
  }

  lemma FirstInFront(front: seq<Rule>, last: Rule, loose: string -> string, i: nat)
    requires i < |front|
    ensures FirstOfItsName(front + [last], loose, i) <==> FirstOfItsName(front, loose, i)
  {
    assert forall j :: 0 <= j < |front| ==> (front + [last])[j] == front[j];
  }

  /** The names that are kept are the names that were declared. */
  lemma {:induction false} KeptNames(rules: seq<Rule>, loose: string -> string, name: string)
    requires name != ""
    ensures name in NamesGiven(KeepFirst(rules, loose)) <==>
              exists j :: 0 <= j < |rules| && loose(rules[j].name) == name
  {
    if rules != [] {
      var front, last := rules[..|rules| - 1], rules[|rules| - 1];
      assert rules == front + [last];
      KeptNames(front, loose, name);
      NormalizedName(last, loose);
      RepeatIff(NormalizeRule(last, loose), KeepFirst(front, loose));
      GivenAppend(KeepFirst(front, loose), NormalizeRule(last, loose));
      hide NormalizeRule, NamesGiven, IsRepeat;
      assert rules[|front|] == last && forall j :: 0 <= j < |front| ==> rules[j] == front[j];
    }
  }

  lemma GivenAppend(kept: seq<Rule>, rule: Rule)
    ensures NamesGiven(kept + [rule]) == if rule.name != "" then NamesGiven(kept) + {rule.name} else NamesGiven(kept)
  {}

  lemma RepeatsIff(front: seq<Rule>, last: Rule, loose: string -> string)
    ensures IsRepeat(NormalizeRule(last, loose), KeepFirst(front, loose)) <==>
              !FirstOfItsName(front + [last], loose, |front|)
  {
    NormalizedName(last, loose);
    RepeatIff(NormalizeRule(last, loose), KeepFirst(front, loose));
    hide NormalizeRule, NamesGiven;
    assert (front + [last])[|front|] == last && forall j :: 0 <= j < |front| ==> (front + [last])[j] == front[j];
    if loose(last.name) != "" { KeptNames(front, loose, loose(last.name)); }
  }

  /** What becomes of each part of a rule, and the spellings of effects and operations. */
  lemma NormalizedParts(rule: Rule, loose: string -> string)
    ensures var n := NormalizeRule(rule, loose);
            && n.name == loose(rule.name) && n.order == rule.order && n.condition == TrimSpace(rule.condition)
            && n.table == NormalizeIdentifier(rule.table) && n.field == NormalizeIdentifier(rule.field)
            && n.role == NormalizeIdentifier(rule.role)
    ensures var word, effect := NormalizeIdentifier(rule.effect), NormalizeRule(rule, loose).effect;
            && (effect == "deny" <==> word in {"deny", "denied", "block", "blocked", "forbid", "forbidden"})
            && (effect == "allow" <==> word in {"allow", "allowed", "permit", "permitted", "grant", "granted"})
    ensures var word, operation := TrimSpace(ToUpper(rule.operation)), NormalizeRule(rule, loose).operation;
            && (operation == "C" <==> word in {"C", "CREATE", "INSERT"})
            && (operation == "R" <==> word in {"R", "READ", "SELECT", "VIEW"})
            && (operation == "U" <==> word in {"U", "UPDATE", "WRITE", "EDIT"})
            && (operation == "D" <==> word in {"D", "DELETE", "REMOVE"})
  {
    hide NormalizeIdentifier, TrimSpace, ToUpper;
  }

  method NormalizeSecurityRules(rules: seq<Rule>, loose: string -> string) returns (normalized: seq<Rule>)
    ensures normalized == StableSort(KeepFirst(rules, loose), RuleBefore)
  {
    normalized := [];
    var seen: set<string> := {};
    hide *;
    NoRulesKept(rules, loose);
    for i := 0 to |rules|
      invariant KeptSoFar(rules, i, loose, normalized, seen)
    {
      var rule := NormalizeRule(rules[i], loose);
      KeepOneMore(rules, i, loose, normalized, seen);
      if rule.name != "" && rule.name in seen {
        continue;
      }
      if rule.name != "" {
        seen := seen + {rule.name};
      }
      normalized := normalized + [rule];
    }
    AllRulesKept(rules, loose, normalized, seen);
    normalized := StableSort(normalized, RuleBefore);
  }

  /** The first rule of each name among the first `n`, and the names met so far. */
  ghost predicate KeptSoFar(rules: seq<Rule>, n: nat,
                            loose: string -> string, normalized: seq<Rule>, seen: set<string>) {
    n <= |rules| && normalized == KeepFirst(rules[..n], loose) && seen == NamesGiven(normalized)
  }

  function NamesGiven(rules: seq<Rule>): set<string> { set r | r in rules && r.name != "" :: r.name }

  lemma NoRulesKept(rules: seq<Rule>, loose: string -> string)
    ensures KeptSoFar(rules, 0, loose, [], {})
  {
    assert rules[..0] == [];
  }

  lemma KeepOneMore(rules: seq<Rule>, n: nat, loose: string -> string, normalized: seq<Rule>, seen: set<string>)
    requires n < |rules| && KeptSoFar(rules, n, loose, normalized, seen)
    ensures var rule := NormalizeRule(rules[n], loose);
            if rule.name != "" && rule.name in seen then KeptSoFar(rules, n + 1, loose, normalized, seen)
            else KeptSoFar(rules, n + 1, loose, normalized + [rule], if rule.name != "" then seen + {rule.name}
                           else seen)
  {
    assert rules[..n + 1][..n] == rules[..n] && rules[..n + 1][n] == rules[n];
    var rule := NormalizeRule(rules[n], loose);
    RepeatIff(rule, normalized);
    assert KeepFirst(rules[..n + 1], loose) == if IsRepeat(rule, normalized) then normalized else normalized + [rule];
    hide NormalizeRule, KeepFirst, IsRepeat;
    assert NamesGiven(normalized + [rule]) == if rule.name != "" then NamesGiven(normalized) + {rule.name}
             else NamesGiven(normalized);
  }

  lemma RepeatIff(rule: Rule, normalized: seq<Rule>)
    ensures IsRepeat(rule, normalized) <==> rule.name in NamesGiven(normalized)
  {
    if rule.name in NamesGiven(normalized) {
      var r :| r in normalized && r.name == rule.name;
      var k :| 0 <= k < |normalized| && normalized[k] == r;
    }
  }

  lemma AllRulesKept(rules: seq<Rule>, loose: string -> string, normalized: seq<Rule>, seen: set<string>)
    requires KeptSoFar(rules, |rules|, loose, normalized, seen)
    ensures normalized == KeepFirst(rules, loose)
  {
    assert rules[..|rules|] == rules;
  }

  predicate DistinctLooseNames(rules: seq<Rule>, loose: string -> string) {
    forall i, j :: 0 <= i < j < |rules| ==> loose(rules[i].name) != loose(rules[j].name)
  }

  function Normalized(rules: seq<Rule>, loose: string -> string): seq<Rule> {
    Mapped(rules, (r: Rule) => NormalizeRule(r, loose))
  }

  lemma NormalizedName(rule: Rule, loose: string -> string)
    ensures NormalizeRule(rule, loose).name == loose(rule.name)
  {}

  lemma KeepFirstAppend(front: seq<Rule>, last: Rule, loose: string -> string)
    requires !IsRepeat(NormalizeRule(last, loose), KeepFirst(front, loose))
    ensures KeepFirst(front + [last], loose) == KeepFirst(front, loose) + [NormalizeRule(last, loose)]
  {
    hide NormalizeRule, IsRepeat;
    assert (front + [last])[..|front|] == front;
  }

  lemma NormalizedAppend(front: seq<Rule>, last: Rule, loose: string -> string)
    ensures Normalized(front + [last], loose) == Normalized(front, loose) + [NormalizeRule(last, loose)]
  {
    hide NormalizeRule;
  }

  lemma DistinctLooseFront(front: seq<Rule>, last: Rule, loose: string -> string)
    requires DistinctLooseNames(front + [last], loose)
    ensures DistinctLooseNames(front, loose)
  {
    assert forall k :: 0 <= k < |front| ==> front[k] == (front + [last])[k];
  }

  lemma {:induction false} KeepFirstKeepsAll(rules: seq<Rule>, loose: string -> string)
    requires DistinctLooseNames(rules, loose)
    ensures KeepFirst(rules, loose) == Normalized(rules, loose)
  {
    if rules != [] {
      hide *;
      var front, last := rules[..|rules| - 1], rules[|rules| - 1];
      assert rules == front + [last];
      DistinctLooseFront(front, last, loose);
      NotARepeat(front, last, loose);
      KeepFirstKeepsAll(front, loose);
      KeepFirstAppend(front, last, loose);
      NormalizedAppend(front, last, loose);
    }
  }

  lemma NotARepeat(front: seq<Rule>, last: Rule, loose: string -> string)
    requires DistinctLooseNames(front + [last], loose)
    ensures !IsRepeat(NormalizeRule(last, loose), Normalized(front, loose))
  {
    hide NormalizeRule;
    NormalizedName(last, loose);
    forall k | 0 <= k < |front| ensures Normalized(front, loose)[k].name != loose(last.name) {
      NormalizedName(front[k], loose);
      assert (front + [last])[k] == front[k] && (front + [last])[|front|] == last;
    }
  }

  lemma NormalizedNamesDistinct(rules: seq<Rule>, loose: string -> string)
    requires DistinctLooseNames(rules, loose)
    ensures DistinctRuleNames(Normalized(rules, loose))
  {
    forall k | 0 <= k < |rules| ensures Normalized(rules, loose)[k].name == loose(rules[k].name) {
      NormalizedName(rules[k], loose);
    }
  }

  /** With distinct names the order in which rules are declared does not matter. */
  lemma DeclarationOrderIrrelevant(a: seq<Rule>, b: seq<Rule>, loose: string -> string)
    requires multiset(a) == multiset(b) && DistinctLooseNames(a, loose) && DistinctLooseNames(b, loose)
    ensures StableSort(KeepFirst(a, loose), RuleBefore) == StableSort(KeepFirst(b, loose), RuleBefore)
  {
    RuleBeforeIsWeak();
    KeepFirstKeepsAll(a, loose);
    KeepFirstKeepsAll(b, loose);
    MappedMultiset(a, b, (r: Rule) => NormalizeRule(r, loose));
    NormalizedNamesDistinct(a, loose);
    hide NormalizeRule;
    NamesTellApart(Normalized(a, loose));
    StableSortUnique(Normalized(a, loose), Normalized(b, loose), RuleBefore);
  }

  // ---- Evaluation ----

  function RuleTable(rule: Rule, fallback: string): string {
    var table := NormalizeIdentifier(rule.table);
    if table != "" then table else NormalizeIdentifier(fallback)
  }

  /** What is asked, by whom, of which record: roles and condition results are arbitrary. */
  datatype Query = Query(operation: string, field: string, hasRole: string -> bool, holds: string -> bool)

  /** The rules of an operation and field; the empty field stands for the record. */
  predicate Concerns(rule: Rule, q: Query) {
    rule.operation == NormalizeOperation(q.operation) && NormalizeIdentifier(rule.field) == NormalizeIdentifier(q.field)
  }

  predicate Matches(rule: Rule, q: Query) {
    q.hasRole(rule.role) && (TrimSpace(rule.condition) == "" || q.holds(TrimSpace(rule.condition)))
  }

  predicate Allows(rule: Rule) { NormalizeEffect(rule.effect) != "deny" }

  /** The rules of a table's evaluator, in evaluation order. */
  function LoadEvaluator(rules: seq<Rule>, tableName: string): seq<Rule> {
    StableSort(Filter(rules, (r: Rule) => RuleTable(r, tableName) == NormalizeIdentifier(tableName)), RuleBefore)
  }

  /**
   * The evaluator holds each rule that names its table, or none, as often as it
   * is declared, in ascending order and by name.
   */
  lemma EvaluatorIs(rules: seq<Rule>, tableName: string)
    ensures var e := LoadEvaluator(rules, tableName);
            && (forall r: Rule ::
                  multiset(e)[r] ==
                    if NormalizeIdentifier(r.table) in {"", NormalizeIdentifier(tableName)} then multiset(rules)[r]
                    else 0)
            && forall i, j :: 0 <= i < j < |e| ==>
                 e[i].order < e[j].order || (e[i].order == e[j].order && !LexLess(e[j].name, e[i].name))
  {
    var here := (r: Rule) => RuleTable(r, tableName) == NormalizeIdentifier(tableName);
    var e := LoadEvaluator(rules, tableName);
    RuleBeforeIsWeak();
    StableSortResult(Filter(rules, here), RuleBefore);
    forall r: Rule ensures multiset(e)[r] == if here(r) then multiset(rules)[r] else 0 { FilterCounts(rules, here, r); }
    forall r: Rule ensures here(r) <==> NormalizeIdentifier(r.table) in {"", NormalizeIdentifier(tableName)} {
      hide NormalizeIdentifier;
    }
    hide StableSort, Filter, StrictWeakOrder, LexLess, RuleTable, NormalizeIdentifier;
    forall i, j | 0 <= i < j < |e|
      ensures e[i].order < e[j].order || (e[i].order == e[j].order && !LexLess(e[j].name, e[i].name))
    {
      assert !RuleBefore(e[j], e[i]);
    }
  }

  function FirstMatch(rules: seq<Rule>, q: Query): Option<Rule> {
    if rules == [] then None else if Matches(rules[0], q) then Some(rules[0]) else FirstMatch(rules[1..], q)
  }

  /** NoRules leaves the decision to others; without a match the answer is no. */
  datatype Decision = NoRules | Decided(allowed: bool)

  function RulesFor(evaluator: seq<Rule>, q: Query): seq<Rule> {
    Filter(evaluator, (r: Rule) => Concerns(r, q))
  }

  function ScopeDecision(evaluator: seq<Rule>, q: Query): Decision {
    var rules := RulesFor(evaluator, q);
    if rules == [] then NoRules else
    var first := FirstMatch(rules, q);
    Decided(first.Some? && Allows(first.value))
  }

  /** The spellings of a refusal. */
  predicate IsDeny(effect: string) {
    NormalizeIdentifier(effect) in {"deny", "denied", "block", "blocked", "forbid", "forbidden"}
  }

  lemma AllowsIff(rule: Rule)
    ensures Allows(rule) <==> !IsDeny(rule.effect)
  {
    hide NormalizeIdentifier;
  }

  /** The i-th rule answers: it concerns the query and matches, and no earlier one does both. */
  predicate Answers(evaluator: seq<Rule>, i: int, q: Query) {
    && 0 <= i < |evaluator| && Concerns(evaluator[i], q) && Matches(evaluator[i], q)
    && forall k :: 0 <= k < i ==> !(Concerns(evaluator[k], q) && Matches(evaluator[k], q))
  }

  /** What a decision means, rule by rule. */
  ghost predicate DecidesAs(evaluator: seq<Rule>, q: Query, d: Decision) {
    && (d == NoRules <==> forall r :: r in evaluator ==> !Concerns(r, q))
    && (d == Decided(true) <==> exists i :: Answers(evaluator, i, q) && !IsDeny(evaluator[i].effect))
    && (d == Decided(false) <==>
          || (exists i :: Answers(evaluator, i, q) && IsDeny(evaluator[i].effect))
          || ((exists r :: r in evaluator && Concerns(r, q))
              && forall r :: r in evaluator && Concerns(r, q) ==> !Matches(r, q)))
  }

  method DecideScope(evaluator: seq<Rule>, q: Query) returns (d: Decision)
    ensures DecidesAs(evaluator, q, d)
    ensures d == ScopeDecision(evaluator, q)
  {
    ScopeDecides(evaluator, q);
    var rules := RulesFor(evaluator, q);
    if |rules| == 0 {
      return NoRules;
    }
    for i := 0 to |rules|
      invariant FirstMatch(rules, q) == FirstMatch(rules[i..], q)
    {
      assert rules[i..][1..] == rules[i + 1..];
      if Matches(rules[i], q) {
        return Decided(Allows(rules[i]));
      }
    }
    return Decided(false);
  }

  /** The first of the concerning rules that matches is the first rule that concerns and matches. */
  lemma {:induction false} FirstMatchAnswers(evaluator: seq<Rule>, q: Query)
    ensures FirstMatch(RulesFor(evaluator, q), q).Some? ==>
              exists i :: Answers(evaluator, i, q) && evaluator[i] == FirstMatch(RulesFor(evaluator, q), q).value
    ensures FirstMatch(RulesFor(evaluator, q), q).None? ==>
              forall r :: r in evaluator ==> !(Concerns(r, q) && Matches(r, q))
  {
    if evaluator == [] {
      assert RulesFor(evaluator, q) == [];
    } else {
      var front, last := evaluator[..|evaluator| - 1], evaluator[|evaluator| - 1];
      assert evaluator == front + [last];
      FirstMatchAnswers(front, q);
      FilterAppend(front, last, (r: Rule) => Concerns(r, q));
      FirstMatchConcat(RulesFor(front, q), [last], q);
      assert RulesFor(front, q) + [] == RulesFor(front, q);
      hide Concerns, Matches;
      if FirstMatch(RulesFor(front, q), q).Some? {
        var i :| Answers(front, i, q) && front[i] == FirstMatch(RulesFor(front, q), q).value;
        AnswersLonger(front, last, i, q);
      } else {
        assert forall k :: 0 <= k < |front| ==> front[k] in front;
        assert RulesFor(evaluator, q) == RulesFor(front, q) + if Concerns(last, q) then [last] else [];
        assert FirstMatch([last], q) == if Matches(last, q) then Some(last) else None;
        if Concerns(last, q) && Matches(last, q) {
          assert evaluator[|front|] == last && Answers(evaluator, |front|, q);
        }
      }
    }
  }

  lemma AnswersLonger(front: seq<Rule>, last: Rule, i: int, q: Query)
    requires Answers(front, i, q)
    ensures Answers(front + [last], i, q) && (front + [last])[i] == front[i]
  {
    hide Concerns, Matches;
    assert forall k :: 0 <= k < |front| ==> (front + [last])[k] == front[k];
  }

  /** At most one rule answers. */
  lemma OneAnswers(evaluator: seq<Rule>, i: int, j: int, q: Query)
    requires Answers(evaluator, i, q) && Answers(evaluator, j, q)
    ensures i == j
  {
    hide Concerns, Matches;
  }

  lemma ScopeDecides(evaluator: seq<Rule>, q: Query)
    ensures DecidesAs(evaluator, q, ScopeDecision(evaluator, q))
  {
    FirstMatchAnswers(evaluator, q);
    FilterKeeps(evaluator, (r: Rule) => Concerns(r, q));
    var rules := RulesFor(evaluator, q);
    assert rules == [] ==> FirstMatch(rules, q) == None;
    hide Concerns, Matches, Filter, FirstMatch, IsDeny, Allows, Answers, RulesFor;
    if rules != [] { assert rules[0] in rules; }
    var first := FirstMatch(rules, q);
    if first.Some? {
      AllowsIff(first.value);
      var i :| Answers(evaluator, i, q) && evaluator[i] == first.value;
      AnswerIsThere(evaluator, i, q);
      forall k | Answers(evaluator, k, q) ensures k == i { OneAnswers(evaluator, i, k, q); }
    } else {
      forall k ensures !Answers(evaluator, k, q) {
        if Answers(evaluator, k, q) { AnswerIsThere(evaluator, k, q); }
      }
    }
  }

  lemma AnswerIsThere(evaluator: seq<Rule>, i: int, q: Query)
    requires Answers(evaluator, i, q)
    ensures 0 <= i < |evaluator| && evaluator[i] in evaluator && Concerns(evaluator[i], q) && Matches(evaluator[i], q)
  {}

  /** The rule that answers the query, if any does. */
  function DecidingRule(rules: seq<Rule>, tableName: string, q: Query): Option<Rule> {
    FirstMatch(RulesFor(LoadEvaluator(rules, tableName), q), q)
  }

  // ---- Shadowing ----

  function ScopeKey(rule: Rule, expectedTable: string): string {
    RuleTable(rule, expectedTable) + ['\0'] + rule.operation + ['\0'] + NormalizeIdentifier(rule.field)
  }

  predicate Shadows(earlier: Rule, later: Rule, expectedTable: string) {
    && ScopeKey(earlier, expectedTable) == ScopeKey(later, expectedTable)
    && earlier.role == later.role
    && (earlier.condition == "" || earlier.condition == later.condition)
  }

  predicate NoShadowing(ordered: seq<Rule>, expectedTable: string) {
    forall i, j :: 0 <= i < j < |ordered| ==> !Shadows(ordered[i], ordered[j], expectedTable)
  }

  /** The two wordings of the refusal: a deny that protects nothing, or a rule that never applies. */
  datatype ShadowError = InertDeny(later: Rule, earlier: Rule) | NeverApplies(later: Rule, earlier: Rule)

  ghost predicate ReportsShadow(ordered: seq<Rule>, expectedTable: string, e: ShadowError) {
    && (e.InertDeny? <==> !Allows(e.later))
    && exists i, j :: 0 <= i < j < |ordered| && ordered[i] == e.earlier && ordered[j] == e.later
         && Shadows(ordered[i], ordered[j], expectedTable)
  }

  method ValidateSecurityRuleShadowing(rules: seq<Rule>, expectedTable: string) returns (r: Option<ShadowError>)
    ensures r.None? <==> NoShadowing(StableSort(rules, RuleBefore), expectedTable)
    ensures r.Some? ==> ReportsShadow(StableSort(rules, RuleBefore), expectedTable, r.value)
  {
    hide ScopeKey, StableSort, NormalizeEffect, StrictWeakOrder, RuleBefore;
    RuleBeforeIsWeak();
    StableSortLength(rules, RuleBefore);
    var ordered := StableSort(rules, RuleBefore);
    if |rules| < 2 {
      return None;
    }
    for j := 0 to |ordered|
      invariant forall a, b :: 0 <= a < b < j ==> !Shadows(ordered[a], ordered[b], expectedTable)
    {
      var later := ordered[j];
      for i := 0 to j
        invariant forall a :: 0 <= a < i ==> !Shadows(ordered[a], later, expectedTable)
      {
        var earlier := ordered[i];
        if ScopeKey(earlier, expectedTable) != ScopeKey(later, expectedTable) || earlier.role != later.role {
          continue;
        }
        var unconditional := earlier.condition == "";
        var sameCondition := earlier.condition == later.condition;
        if !unconditional && !sameCondition {
          continue;
        }
        var effect := NormalizeEffect(later.effect);
        assert Shadows(ordered[i], ordered[j], expectedTable);
        if effect == "deny" {
          return Some(InertDeny(later, earlier));
        }
        return Some(NeverApplies(later, earlier));
      }
    }
    return None;
  }

  /** What the earlier checks of the same validation have established of an operation. */
  predicate LegalOperation(operation: string) { operation in {"C", "R", "U", "D"} }

  lemma LowerHasNoCapitals(s: string, i: nat)
    requires i < |NormalizeIdentifier(s)|
    ensures !('A' <= NormalizeIdentifier(s)[i] <= 'Z')
  {}

  /** For legal operations equal keys mean the same table, operation and field. */
  lemma ScopeKeyInjective(a: Rule, b: Rule, expectedTable: string)
    requires LegalOperation(a.operation) && LegalOperation(b.operation)
    requires ScopeKey(a, expectedTable) == ScopeKey(b, expectedTable)
    ensures RuleTable(a, expectedTable) == RuleTable(b, expectedTable)
    ensures a.operation == b.operation && NormalizeIdentifier(a.field) == NormalizeIdentifier(b.field)
  {
    if |RuleTable(a, expectedTable)| < |RuleTable(b, expectedTable)| {
      ShorterTableDiffers(a, b, expectedTable);
    } else if |RuleTable(b, expectedTable)| < |RuleTable(a, expectedTable)| {
      ShorterTableDiffers(b, a, expectedTable);
    } else {
      hide NormalizeIdentifier, RuleTable;
      var n, k, l := |RuleTable(a, expectedTable)|, ScopeKey(a, expectedTable), ScopeKey(b, expectedTable);
      assert k[..n] == RuleTable(a, expectedTable) && l[..n] == RuleTable(b, expectedTable);
      assert k[n + 1] == a.operation[0] && l[n + 1] == b.operation[0];
      assert k[n + 3..] == NormalizeIdentifier(a.field) && l[n + 3..] == NormalizeIdentifier(b.field);
    }
  }

  lemma ShorterTableDiffers(a: Rule, b: Rule, expectedTable: string)
    requires LegalOperation(a.operation) && LegalOperation(b.operation)
    requires |RuleTable(a, expectedTable)| < |RuleTable(b, expectedTable)|
    ensures ScopeKey(a, expectedTable) != ScopeKey(b, expectedTable)
  {
    var n, t := |RuleTable(a, expectedTable)|, RuleTable(b, expectedTable);
    var k, l := ScopeKey(a, expectedTable), ScopeKey(b, expectedTable);
    if n + 1 < |t| {
      if NormalizeIdentifier(b.table) != "" { LowerHasNoCapitals(b.table, n + 1); } else {
        LowerHasNoCapitals(expectedTable, n + 1);
      }
    }
    hide NormalizeIdentifier, RuleTable;
    assert k[n + 1] == a.operation[0];
    assert l[n + 1] == if n + 1 < |t| then t[n + 1] else '\0';
  }

  // ---- A shadowed rule is dead ----

  lemma {:induction false} FirstMatchConcat(a: seq<Rule>, b: seq<Rule>, q: Query)
    ensures FirstMatch(a + b, q) == if FirstMatch(a, q).Some? then FirstMatch(a, q) else FirstMatch(b, q)
  {
    if a == [] {
      assert a + b == b;
    } else {
      FirstMatchConcat(a[1..], b, q);
      assert (a + b)[1..] == a[1..] + b;
    }
  }

  lemma {:induction false} FirstMatchResult(rules: seq<Rule>, q: Query)
    ensures FirstMatch(rules, q).None? <==> forall r :: r in rules ==> !Matches(r, q)
    ensures FirstMatch(rules, q).Some? ==> FirstMatch(rules, q).value in rules && Matches(FirstMatch(rules, q).value, q)
  {
    if rules != [] {
      FirstMatchResult(rules[1..], q);
      assert rules == [rules[0]] + rules[1..];
    }
  }

  /** A rule after one that concerns and matches whatever it does can be left out. */
  lemma LeaveOutDead(a: seq<Rule>, x: Rule, b: seq<Rule>, y: Rule, q: Query)
    requires y in a && (Concerns(x, q) ==> Concerns(y, q)) && (Matches(x, q) ==> Matches(y, q))
    ensures ScopeDecision(a + [x] + b, q) == ScopeDecision(a + b, q)
    ensures FirstMatch(RulesFor(a + [x] + b, q), q) == FirstMatch(RulesFor(a + b, q), q)
    ensures FirstMatch(RulesFor(a, q), q).None? ==> !(Concerns(x, q) && Matches(x, q))
  {
    var concerns := (r: Rule) => Concerns(r, q);
    FilterConcat(a + [x], b, concerns);
    FilterAppend(a, x, concerns);
    FilterConcat(a, b, concerns);
    FilterKeeps(a, concerns);
    var p, s := Filter(a, concerns), Filter(b, concerns);
    FirstMatchResult(p, q);
    FirstMatchConcat(p, s, q);
    FirstMatchConcat(p + [x], s, q);
    FirstMatchConcat(p, [x], q);
    hide Concerns, Matches, Allows, Filter;
    assert p + [] == p;
  }

  lemma EvaluatorIsSorted(rules: seq<Rule>, tableName: string)
    ensures LoadEvaluator(rules, tableName) ==
              Filter(StableSort(rules, RuleBefore), (r: Rule) => RuleTable(r, tableName) ==
                     NormalizeIdentifier(tableName))
  {
    RuleBeforeIsWeak();
    FilterSort(rules, RuleBefore, (r: Rule) => RuleTable(r, tableName) == NormalizeIdentifier(tableName));
  }

  function WithoutRule(rules: seq<Rule>, name: string): seq<Rule> {
    Filter(rules, (r: Rule) => r.name != name)
  }

  lemma OtherNames(front: seq<Rule>, s: seq<Rule>, x: Rule)
    requires multiset(s) == multiset(front) && DistinctRuleNames(front + [x])
    ensures DistinctRuleNames(front) && forall i :: 0 <= i < |s| ==> s[i].name != x.name
  {
    var rules := front + [x];
    assert forall k :: 0 <= k < |front| ==> front[k] == rules[k];
    forall i | 0 <= i < |s| ensures s[i].name != x.name {
      assert s[i] in multiset(front);
      var k :| 0 <= k < |front| && front[k] == s[i];
      assert rules[k].name != rules[|front|].name;
    }
  }

  lemma {:induction false} SortKeepsDistinct(rules: seq<Rule>)
    requires DistinctRuleNames(rules)
    ensures DistinctRuleNames(StableSort(rules, RuleBefore))
  {
    if rules != [] {
      hide *;
      var front, x := rules[..|rules| - 1], rules[|rules| - 1];
      var s := StableSort(front, RuleBefore);
      assert rules == front + [x];
      RuleBeforeIsWeak();
      StableSortResult(front, RuleBefore);
      OtherNames(front, s, x);
      SortKeepsDistinct(front);
      SortAppend(front, x, RuleBefore);
      var k := InsertSplits(x, s, RuleBefore);
      assert s[..k] + s[k..] == s;
      SplicedDistinct(s[..k], x, s[k..]);
    }
  }

  lemma SplicedDistinct(a: seq<Rule>, x: Rule, b: seq<Rule>)
    requires DistinctRuleNames(a + b) && forall i :: 0 <= i < |a + b| ==> (a + b)[i].name != x.name
    ensures DistinctRuleNames(a + [x] + b)
  {
    var s, t := a + [x] + b, a + b;
    forall i, j | 0 <= i < j < |s| ensures s[i].name != s[j].name {
      assert i < |a| ==> s[i] == t[i];
      assert i > |a| ==> s[i] == t[i - 1];
      assert j < |a| ==> s[j] == t[j];
      assert j > |a| ==> s[j] == t[j - 1];
    }
  }

  lemma FilterOutName(a: seq<Rule>, x: Rule, b: seq<Rule>)
    requires DistinctRuleNames(a + [x] + b)
    ensures Filter(a + [x] + b, (r: Rule) => r.name != x.name) == a + b
  {
    var s, keep := a + [x] + b, (r: Rule) => r.name != x.name;
    assert s[|a|] == x;
    assert forall i :: 0 <= i < |a| ==> s[i] == a[i];
    assert forall i :: 0 <= i < |b| ==> s[|a| + 1 + i] == b[i];
    FilterAll(a, keep);
    FilterAll(b, keep);
    FilterAppend(a, x, keep);
    FilterConcat(a + [x], b, keep);
    assert a + [] == a;
  }

  predicate InTable(rule: Rule, tableName: string) { RuleTable(rule, tableName) == NormalizeIdentifier(tableName) }

  /** The evaluator of a list split around one rule, with and without that rule. */
  lemma EvaluatorSplit(rules: seq<Rule>, tableName: string, a: seq<Rule>, x: Rule, b: seq<Rule>)
    requires DistinctRuleNames(rules) && StableSort(rules, RuleBefore) == a + [x] + b
    ensures var here := (r: Rule) => RuleTable(r, tableName) == NormalizeIdentifier(tableName);
            && LoadEvaluator(rules, tableName) == Filter(a, here) + (if InTable(x, tableName) then [x] else [])
                 + Filter(b, here)
            && LoadEvaluator(WithoutRule(rules, x.name), tableName) == Filter(a, here) + Filter(b, here)
  {
    var here := (r: Rule) => RuleTable(r, tableName) == NormalizeIdentifier(tableName);
    var other := (r: Rule) => r.name != x.name;
    SortKeepsDistinct(rules);
    RuleBeforeIsWeak();
    hide StableSort, Filter, LoadEvaluator, RuleTable, NormalizeIdentifier, StrictWeakOrder;
    EvaluatorIsSorted(rules, tableName);
    FilterAppend(a, x, here);
    FilterConcat(a + [x], b, here);
    EvaluatorIsSorted(WithoutRule(rules, x.name), tableName);
    FilterSort(rules, RuleBefore, other);
    FilterOutName(a, x, b);
    FilterConcat(a, b, here);
  }

  ghost predicate LegalRules(rules: seq<Rule>) {
    DistinctRuleNames(rules) && forall r :: r in rules ==> LegalOperation(r.operation)
  }

  /** Who shadows a rule concerns and matches all that the rule does. */
  lemma ShadowCovers(y: Rule, x: Rule, tableName: string, q: Query)
    requires LegalOperation(x.operation) && LegalOperation(y.operation) && Shadows(y, x, tableName)
    ensures RuleTable(y, tableName) == RuleTable(x, tableName)
              && (Concerns(x, q) ==> Concerns(y, q)) && (Matches(x, q) ==> Matches(y, q))
  {
    ScopeKeyInjective(y, x, tableName);
    assert TrimSpace("") == "";
  }

  /** In an evaluator, a covered rule neither decides nor changes a decision. */
  lemma CoveredInEvaluator(a: seq<Rule>, x: Rule, b: seq<Rule>, y: Rule, here: bool, q: Query)
    requires here ==> y in a && (Concerns(x, q) ==> Concerns(y, q)) && (Matches(x, q) ==> Matches(y, q))
    requires x !in a && x !in b
    ensures ScopeDecision(a + (if here then [x] else []) + b, q) == ScopeDecision(a + b, q)
    ensures FirstMatch(RulesFor(a + (if here then [x] else []) + b, q), q) != Some(x)
  {
    hide RulesFor, FirstMatch, Concerns, Matches, ScopeDecision;
    if here {
      LeaveOutDead(a, x, b, y, q);
    } else {
      assert a + [] + b == a + b;
    }
    DecidingRuleIsKept(a + b, q);
  }

  /**
   * A rule rejected as shadowed is dead: it never decides, and no decision
   * changes when it is removed.
   */
  lemma ShadowedRuleIsDead(rules: seq<Rule>, tableName: string, i: nat, j: nat, q: Query)
    requires LegalRules(rules)
    requires var ordered := StableSort(rules, RuleBefore);
             i < j < |ordered| && Shadows(ordered[i], ordered[j], tableName)
    ensures var dead := StableSort(rules, RuleBefore)[j];
            && ScopeDecision(LoadEvaluator(WithoutRule(rules, dead.name), tableName), q) ==
                 ScopeDecision(LoadEvaluator(rules, tableName), q)
            && DecidingRule(rules, tableName, q) != Some(dead)
  {
    hide StableSort, ScopeDecision, RulesFor, FirstMatch, LoadEvaluator, Shadows, Concerns, Matches, LegalOperation,
         Filter, WithoutRule, DistinctRuleNames, RuleTable, NormalizeIdentifier;
    var ordered := StableSort(rules, RuleBefore);
    var a, x, b, y := ordered[..j], ordered[j], ordered[j + 1..], ordered[i];
    var here := (r: Rule) => RuleTable(r, tableName) == NormalizeIdentifier(tableName);
    assert ordered == a + [x] + b && y in a;
    OrderedMembers(rules);
    SortKeepsDistinct(rules);
    OthersDiffer(a, x, b);
    ShadowCovers(y, x, tableName, q);
    EvaluatorSplit(rules, tableName, a, x, b);
    FilterKeeps(a, here);
    FilterKeeps(b, here);
    CoveredInEvaluator(Filter(a, here), x, Filter(b, here), y, InTable(x, tableName), q);
  }

  lemma OrderedMembers(rules: seq<Rule>)
    ensures forall r :: r in StableSort(rules, RuleBefore) ==> r in rules
    ensures forall r :: r in rules ==> r in StableSort(rules, RuleBefore)
  {
    RuleBeforeIsWeak();
    StableSortResult(rules, RuleBefore);
    forall r | r in StableSort(rules, RuleBefore) ensures r in rules {
      assert r in multiset(StableSort(rules, RuleBefore));
    }
    forall r | r in rules ensures r in StableSort(rules, RuleBefore) { assert r in multiset(rules); }
  }

  lemma DecidingRuleIsKept(evaluator: seq<Rule>, q: Query)
    ensures FirstMatch(RulesFor(evaluator, q), q).Some? ==> FirstMatch(RulesFor(evaluator, q), q).value in evaluator
  {
    FirstMatchResult(RulesFor(evaluator, q), q);
    FilterKeeps(evaluator, (r: Rule) => Concerns(r, q));
  }

  lemma OthersDiffer(a: seq<Rule>, x: Rule, b: seq<Rule>)
    requires DistinctRuleNames(a + [x] + b)
    ensures x !in a && x !in b
  {
    var s := a + [x] + b;
    assert s[|a|] == x;
    forall k | 0 <= k < |a| ensures a[k] != x { assert s[k] == a[k]; }
    forall k | 0 <= k < |b| ensures b[k] != x { assert s[|a| + 1 + k] == b[k]; }
  }

  // ---- A rule that is not shadowed is alive ----

  /** The one user and record that only this rule is for. */
  function LiveQuery(rule: Rule): Query {
    Query(rule.operation, rule.field, (role: string) => role == rule.role, (condition: string) => condition ==
          rule.condition)
  }

  lemma LegalOperationIsNormal(operation: string)
    requires LegalOperation(operation)
    ensures NormalizeOperation(operation) == operation
  {
    assert ToUpper(operation) == operation;
    TrimSpaceKeepsTrimmed(operation);
  }

  lemma OnlyShadowsPrecede(y: Rule, x: Rule, tableName: string)
    requires LegalOperation(x.operation) && TrimSpace(x.condition) == x.condition
               && TrimSpace(y.condition) == y.condition
    requires InTable(x, tableName) && InTable(y, tableName) && Concerns(y, LiveQuery(x)) && Matches(y, LiveQuery(x))
    ensures Shadows(y, x, tableName)
  {
    LegalOperationIsNormal(x.operation);
    hide NormalizeOperation, NormalizeIdentifier, RuleTable, TrimSpace;
  }

  lemma UnshadowedRuleDecides(rules: seq<Rule>, tableName: string, j: nat)
    requires LegalRules(rules) && forall r :: r in rules ==> TrimSpace(r.condition) == r.condition
    requires var ordered := StableSort(rules, RuleBefore);
             j < |ordered| && InTable(ordered[j], tableName)
                 && forall i :: 0 <= i < j ==> !Shadows(ordered[i], ordered[j], tableName)
    ensures var x := StableSort(rules, RuleBefore)[j]; DecidingRule(rules, tableName, LiveQuery(x)) == Some(x)
  {
    hide StableSort, RulesFor, FirstMatch, LoadEvaluator, Shadows, LegalOperation, Filter, DistinctRuleNames,
         RuleTable, NormalizeIdentifier, TrimSpace, LiveQuery, Concerns, Matches;
    var ordered := StableSort(rules, RuleBefore);
    var a, x, b := ordered[..j], ordered[j], ordered[j + 1..];
    var here := (r: Rule) => RuleTable(r, tableName) == NormalizeIdentifier(tableName);
    var q := LiveQuery(x);
    assert ordered == a + [x] + b;
    OrderedMembers(rules);
    EvaluatorSplit(rules, tableName, a, x, b);
    FilterKeeps(a, here);
    forall y | y in Filter(a, here) ensures !(Concerns(y, q) && Matches(y, q)) {
      if Concerns(y, q) && Matches(y, q) {
        assert InTable(y, tableName) && y in ordered;
        OnlyShadowsPrecede(y, x, tableName);
      }
    }
    AliveAfter(Filter(a, here), x, Filter(b, here));
  }

  lemma AliveAfter(a: seq<Rule>, x: Rule, b: seq<Rule>)
    requires LegalOperation(x.operation) && TrimSpace(x.condition) == x.condition
    requires forall y :: y in a ==> !(Concerns(y, LiveQuery(x)) && Matches(y, LiveQuery(x)))
    ensures FirstMatch(RulesFor(a + [x] + b, LiveQuery(x)), LiveQuery(x)) == Some(x)
  {
    var q := LiveQuery(x);
    var concerns := (r: Rule) => Concerns(r, q);
    LegalOperationIsNormal(x.operation);
    assert Concerns(x, q) && Matches(x, q);
    hide Concerns, Matches, Filter, LiveQuery;
    FilterAppend(a, x, concerns);
    FilterConcat(a + [x], b, concerns);
    FilterKeeps(a, concerns);
    FirstMatchResult(Filter(a, concerns), q);
    FirstMatchConcat(Filter(a, concerns), [x], q);
    FirstMatchConcat(Filter(a, concerns) + [x], Filter(b, concerns), q);
  }

  ghost predicate CanDecide(rules: seq<Rule>, tableName: string, r: Rule) {
    exists q: Query :: DecidingRule(rules, tableName, q) == Some(r)
  }

  lemma OnlyTableRulesDecide(rules: seq<Rule>, tableName: string, r: Rule)
    requires CanDecide(rules, tableName, r)
    ensures InTable(r, tableName) && r in rules
  {
    hide StableSort, RulesFor, FirstMatch, StrictWeakOrder, RuleTable, NormalizeIdentifier;
    var q: Query :| DecidingRule(rules, tableName, q) == Some(r);
    var here := (x: Rule) => RuleTable(x, tableName) == NormalizeIdentifier(tableName);
    EvaluatorIsSorted(rules, tableName);
    DecidingRuleIsKept(LoadEvaluator(rules, tableName), q);
    FilterKeeps(StableSort(rules, RuleBefore), here);
    OrderedMembers(rules);
  }

  /**
   * Every rule of a list can still decide something exactly when no rule is
   * shadowed and every rule is for the table whose evaluator is loaded.
   */
  lemma EveryRuleCanDecideIff(rules: seq<Rule>, tableName: string)
    requires LegalRules(rules) && forall r :: r in rules ==> TrimSpace(r.condition) == r.condition
    ensures (forall r :: r in rules ==> CanDecide(rules, tableName, r)) <==>
              NoShadowing(StableSort(rules, RuleBefore), tableName) && forall r :: r in rules ==> InTable(r, tableName)
  {
    hide StableSort, DecidingRule, Shadows, LegalOperation, DistinctRuleNames, InTable, TrimSpace, CanDecide;
    var ordered := StableSort(rules, RuleBefore);
    OrderedMembers(rules);
    if NoShadowing(ordered, tableName) && forall r :: r in rules ==> InTable(r, tableName) {
      forall r | r in rules ensures CanDecide(rules, tableName, r) {
        var j :| 0 <= j < |ordered| && ordered[j] == r;
        UnshadowedRuleDecides(rules, tableName, j);
        DecidedBy(rules, tableName, LiveQuery(r), r);
      }
    }
    if forall r :: r in rules ==> CanDecide(rules, tableName, r) {
      forall r | r in rules ensures InTable(r, tableName) { OnlyTableRulesDecide(rules, tableName, r); }
      forall i, j | 0 <= i < j < |ordered| ensures !Shadows(ordered[i], ordered[j], tableName) {
        if Shadows(ordered[i], ordered[j], tableName) {
          assert ordered[j] in rules;
          ShadowedCannotDecide(rules, tableName, i, j);
        }
      }
    }
  }

  lemma DecidedBy(rules: seq<Rule>, tableName: string, q: Query, r: Rule)
    requires DecidingRule(rules, tableName, q) == Some(r)
    ensures CanDecide(rules, tableName, r)
  {
    hide DecidingRule;
  }

  lemma ShadowedCannotDecide(rules: seq<Rule>, tableName: string, i: nat, j: nat)
    requires LegalRules(rules)
    requires var ordered := StableSort(rules, RuleBefore);
             i < j < |ordered| && Shadows(ordered[i], ordered[j], tableName)
    ensures !CanDecide(rules, tableName, StableSort(rules, RuleBefore)[j])
  {
    hide StableSort, DecidingRule, Shadows, LegalRules;
    forall q: Query ensures DecidingRule(rules, tableName, q) != Some(StableSort(rules, RuleBefore)[j]) {
      ShadowedRuleIsDead(rules, tableName, i, j, q);
    }
  }

  /** Rules of the deny's scope and role all have a condition. */
  predicate OnlyConditionalBefore(rules: seq<Rule>, deny: Rule, tableName: string) {
    forall r :: r in rules && ScopeKey(r, tableName) == ScopeKey(deny, tableName) && r.role == deny.role ==>
        r.condition != ""
  }

  lemma NoShadowingAppend(ordered: seq<Rule>, deny: Rule, tableName: string)
    requires deny.condition == ""
    ensures NoShadowing(ordered + [deny], tableName) <==>
              NoShadowing(ordered, tableName) && OnlyConditionalBefore(ordered, deny, tableName)
  {
    hide ScopeKey;
    var all := ordered + [deny];
    assert all[|ordered|] == deny && forall i :: 0 <= i < |ordered| ==> all[i] == ordered[i];
    if NoShadowing(all, tableName) {
      forall i, j | 0 <= i < j < |ordered| ensures !Shadows(ordered[i], ordered[j], tableName) {
        assert !Shadows(all[i], all[j], tableName);
      }
      forall r | r in ordered && ScopeKey(r, tableName) == ScopeKey(deny, tableName)
          && r.role == deny.role ensures r.condition != "" {
        var i :| 0 <= i < |ordered| && ordered[i] == r;
        assert !Shadows(all[i], all[|ordered|], tableName);
      }
    }
  }

  /**
   * The whitelist shape, in any list and any order of declaration: with an
   * unconditional deny that is evaluated last the list is accepted exactly
   * when it is without it and every rule of the deny's scope and role has a
   * condition. So a conditional allow never shadows an unconditional deny.
   */
  lemma WhitelistIsAcceptedIff(declared: seq<Rule>, rules: seq<Rule>, deny: Rule, tableName: string)
    requires multiset(declared) == multiset(rules + [deny]) && TellsApart(declared, RuleBefore)
    requires deny.condition == "" && forall r :: r in rules ==> RuleBefore(r, deny)
    ensures NoShadowing(StableSort(declared, RuleBefore), tableName) <==>
              NoShadowing(StableSort(rules, RuleBefore), tableName) && OnlyConditionalBefore(rules, deny, tableName)
  {
    hide ScopeKey, StableSort, NoShadowing, RanksBefore, TellsApart;
    var ordered := StableSort(rules, RuleBefore);
    RuleBeforeIsWeak();
    OrderedMembers(rules);
    StableSortUnique(declared, rules + [deny], RuleBefore);
    SortAppend(rules, deny, RuleBefore);
    forall y | y in ordered ensures !RuleBefore(deny, y) { assert RuleBefore(y, deny); }
    InsertAfterAll(deny, ordered, RuleBefore);
    NoShadowingAppend(ordered, deny, tableName);
  }

  // ---- The whole rule validation ----

  datatype SecurityError =
    | UnknownGateRole(gate: string)
    | RuleWithoutName
    | DuplicateRule(name: string)
    | RoleNotDeclared(name: string)
    | UnknownRole(name: string, role: string)
    | IllegalOperation(name: string)
    | IllegalEffect(name: string)
    | WrongTable(name: string, table: string)
    | FieldOnDelete(name: string)
    | UnknownField(name: string, field: string)
    | InvalidCondition(name: string)
    | Shadowed(shadow: ShadowError)

  /** What the rules may refer to; `validSyntax` stands for the condition parser. */
  datatype RuleContext = RuleContext(roles: set<string>, expectedTable: string, allowedFields: Option<set<string>>,
                                     validSyntax: string -> bool)

  predicate RuleDeclared(r: Rule, c: RuleContext) {
    && r.name != "" && r.role != "" && r.role in c.roles
    && LegalOperation(r.operation) && r.effect in {"", "allow", "deny"}
    && (c.expectedTable != "" && r.table != "" ==> r.table == c.expectedTable)
    && (r.operation == "D" ==> r.field == "")
    && (c.allowedFields.Some? && r.field != "" ==> r.field in c.allowedFields.value)
    && (r.condition != "" ==> c.validSyntax(r.condition))
  }

  /** A role that every signed-in user holds needs no declaration. */
  predicate IsReservedRole(name: string) { NormalizeIdentifier(name) == "authenticated" }

  predicate GateDeclared(gate: seq<string>, c: RuleContext) {
    forall i :: 0 <= i < |gate| ==> IsReservedRole(gate[i]) || gate[i] in c.roles
  }

  predicate SecurityAccepted(gate: seq<string>, rules: seq<Rule>, c: RuleContext) {
    && GateDeclared(gate, c)
    && (forall i :: 0 <= i < |rules| ==> RuleDeclared(rules[i], c))
    && DistinctRuleNames(rules)
    && NoShadowing(StableSort(rules, RuleBefore), c.expectedTable)
  }

  method ValidateRule(rule: Rule, c: RuleContext) returns (r: Option<SecurityError>)
    requires rule.name != ""
    ensures r.None? <==> RuleDeclared(rule, c)
    ensures r.Some? ==> !r.value.Shadowed? && !r.value.DuplicateRule? && !r.value.UnknownGateRole?
  {
    if rule.role == "" { return Some(RoleNotDeclared(rule.name)); }
    if rule.role !in c.roles { return Some(UnknownRole(rule.name, rule.role)); }
    if !LegalOperation(rule.operation) { return Some(IllegalOperation(rule.name)); }
    if rule.effect !in {"", "allow", "deny"} { return Some(IllegalEffect(rule.name)); }
    if c.expectedTable != "" && rule.table != "" && rule.table != c.expectedTable {
      return Some(WrongTable(rule.name, rule.table));
    }
    if rule.operation == "D" && rule.field != "" { return Some(FieldOnDelete(rule.name)); }
    if c.allowedFields.Some? && rule.field != "" && rule.field !in c.allowedFields.value {
      return Some(UnknownField(rule.name, rule.field));
    }
    if rule.condition != "" && !c.validSyntax(rule.condition) { return Some(InvalidCondition(rule.name)); }
    return None;
  }

  /** validateAppDefinitionSecurity: the roles that gate the table, then the rules, then shadowing. */
  method ValidateSecurityRules(gate: seq<string>, rules: seq<Rule>, c: RuleContext) returns (r: Option<SecurityError>)
    ensures r.None? <==> SecurityAccepted(gate, rules, c)
    ensures r.Some? && r.value.Shadowed? ==>
              LegalRules(rules) && ReportsShadow(StableSort(rules, RuleBefore), c.expectedTable, r.value.shadow)
  {
    hide RuleDeclared, NoShadowing, ReportsShadow, StableSort, LegalOperation, IsReservedRole;
    for i := 0 to |gate|
      invariant forall k :: 0 <= k < i ==> IsReservedRole(gate[k]) || gate[k] in c.roles
    {
      if !IsReservedRole(gate[i]) && gate[i] !in c.roles {
        return Some(UnknownGateRole(gate[i]));
      }
    }
    var seen: set<string> := {};
    for i := 0 to |rules|
      invariant forall k :: 0 <= k < i ==> RuleDeclared(rules[k], c) && LegalOperation(rules[k].operation)
      invariant forall a, b :: 0 <= a < b < i ==> rules[a].name != rules[b].name
      invariant forall name :: name in seen <==> exists k :: 0 <= k < i && rules[k].name == name
    {
      var rule := rules[i];
      DeclaredRule(rule, c);
      if rule.name == "" {
        return Some(RuleWithoutName);
      }
      if rule.name in seen {
        return Some(DuplicateRule(rule.name));
      }
      seen := seen + {rule.name};
      r := ValidateRule(rule, c);
      if r.Some? {
        return;
      }
    }
    var shadow := ValidateSecurityRuleShadowing(rules, c.expectedTable);
    if shadow.Some? {
      return Some(Shadowed(shadow.value));
    }
    return None;
  }

  lemma DeclaredRule(rule: Rule, c: RuleContext)
    ensures RuleDeclared(rule, c) ==> rule.name != "" && LegalOperation(rule.operation)
  {}

  /** Whatever rule the validation reports as shadowed is dead for every query. */
  lemma ReportedRuleIsDead(rules: seq<Rule>, tableName: string, e: ShadowError, q: Query)
    requires LegalRules(rules) && ReportsShadow(StableSort(rules, RuleBefore), tableName, e)
    ensures ScopeDecision(LoadEvaluator(WithoutRule(rules, e.later.name), tableName), q) ==
              ScopeDecision(LoadEvaluator(rules, tableName), q)
    ensures DecidingRule(rules, tableName, q) != Some(e.later)
  {
    hide StableSort, Shadows, LoadEvaluator, ScopeDecision, DecidingRule, WithoutRule, LegalRules;
    var ordered := StableSort(rules, RuleBefore);
    var i, j :| 0 <= i < j < |ordered| && ordered[i] == e.earlier && ordered[j] == e.later
        && Shadows(ordered[i], ordered[j], tableName);
    ShadowedRuleIsDead(rules, tableName, i, j, q);
  }

  // ---- What an accepted list is worth ----

  /** A list as normalisation leaves it. */
  predicate NormalRules(rules: seq<Rule>) {
    forall r :: r in rules ==> NormalizeIdentifier(r.table) == r.table && TrimSpace(r.condition) == r.condition
  }

  /**
   * In an accepted list every rule can decide something, unless it is the list
   * of a page, which has no table, and one of its rules names a table.
   */
  lemma AcceptedRulesCanDecideIff(gate: seq<string>, rules: seq<Rule>, c: RuleContext)
    requires SecurityAccepted(gate, rules, c) && NormalRules(rules)
    requires NormalizeIdentifier(c.expectedTable) == c.expectedTable
    ensures (forall r :: r in rules ==> CanDecide(rules, c.expectedTable, r)) <==>
              c.expectedTable != "" || forall r :: r in rules ==> r.table == ""
  {
    AcceptedParts(gate, rules, c);
    EveryRuleCanDecideIff(rules, c.expectedTable);
    hide CanDecide, NormalizeIdentifier, TrimSpace, NoShadowing, LegalRules, SecurityAccepted, StableSort, RuleDeclared;
    forall r | r in rules ensures InTable(r, c.expectedTable) <==> c.expectedTable != "" || r.table == "" {}
  }

  lemma AcceptedParts(gate: seq<string>, rules: seq<Rule>, c: RuleContext)
    requires SecurityAccepted(gate, rules, c)
    ensures LegalRules(rules) && NoShadowing(StableSort(rules, RuleBefore), c.expectedTable)
    ensures forall r :: r in rules && c.expectedTable != "" && r.table != "" ==> r.table == c.expectedTable
  {
    hide NoShadowing, StableSort, LegalOperation, GateDeclared;
    forall r | r in rules
      ensures LegalOperation(r.operation) && (c.expectedTable != "" && r.table != "" ==> r.table == c.expectedTable)
    {
      var i :| 0 <= i < |rules| && rules[i] == r;
      assert RuleDeclared(rules[i], c);
    }
  }

  /** What is loaded for a table, a form or, with no table name, a page; None when there is nothing to check. */
  datatype Evaluator = Evaluator(roleGate: seq<string>, rules: seq<Rule>)

  function LoadFor(gate: seq<string>, rules: seq<Rule>, tableName: string): Option<Evaluator> {
    var kept := LoadEvaluator(rules, tableName);
    if gate == [] && kept == [] then None else Some(Evaluator(gate, kept))
  }

  /** AllowsRecord: administrators may read, others must pass the gate and then the rules. */
  predicate AllowsRecord(evaluator: Option<Evaluator>, q: Query, admin: bool) {
    || evaluator.None?
    || (NormalizeOperation(q.operation) == "R" && admin)
    || ((evaluator.value.roleGate == [] || exists role :: role in evaluator.value.roleGate && q.hasRole(role))
        && ScopeDecision(evaluator.value.rules, q.(field := "")) != Decided(false))
  }

  /**
   * A record is open to administrators who read, and otherwise to who passes the
   * gate when no rule concerns the operation or an allow is the first to match.
   */
  lemma AllowsRecordIff(evaluator: Evaluator, q: Query, admin: bool)
    ensures AllowsRecord(Some(evaluator), q, admin) <==>
              || (NormalizeOperation(q.operation) == "R" && admin)
              || ((evaluator.roleGate == [] || exists role :: role in evaluator.roleGate && q.hasRole(role))
                  && ((forall r :: r in evaluator.rules ==> !Concerns(r, q.(field := "")))
                      || exists i :: Answers(evaluator.rules, i, q.(field := ""))
                           && !IsDeny(evaluator.rules[i].effect)))
  {
    ScopeDecides(evaluator.rules, q.(field := ""));
    hide ScopeDecision, Answers, Concerns, IsDeny, NormalizeOperation;
  }

  /** A page without gating roles is open to everyone exactly when all its rules name a table. */
  lemma PageUnprotectedIff(gate: seq<string>, rules: seq<Rule>)
    ensures LoadFor(gate, rules, "").None? <==>
              gate == [] && forall r :: r in rules ==> NormalizeIdentifier(r.table) != ""
    ensures LoadFor(gate, rules, "").None? ==> forall q, admin :: AllowsRecord(LoadFor(gate, rules, ""), q, admin)
  {
    var here := (x: Rule) => RuleTable(x, "") == NormalizeIdentifier("");
    assert NormalizeIdentifier("") == "";
    hide NormalizeIdentifier, StableSort, Filter, NormalizeOperation, ScopeDecision;
    EvaluatorIsSorted(rules, "");
    FilterKeeps(StableSort(rules, RuleBefore), here);
    OrderedMembers(rules);
    var kept := LoadEvaluator(rules, "");
    if kept != [] { assert kept[0] in kept; }
  }

  /** A page whose only rule is an unconditional deny for readers of `tasks`: it is accepted and decides nothing. */
  lemma PageRuleExample(c: RuleContext, q: Query, admin: bool)
    requires c.expectedTable == "" && "staff" in c.roles
    ensures var rules := [Rule("hide", 0, "deny", "R", "tasks", "", "", "staff")];
            && SecurityAccepted([], rules, c)
            && LoadFor([], rules, "").None? && AllowsRecord(LoadFor([], rules, ""), q, admin)
            && LoadEvaluator(rules, "") == [] && ScopeDecision(LoadEvaluator(rules, ""), q) == NoRules
  {
    var hideTasks := Rule("hide", 0, "deny", "R", "tasks", "", "", "staff");
    assert RuleDeclared(hideTasks, c);
    TasksIsNotBlank();
    hide *;
    OneRuleAccepted(hideTasks, c);
    PageUnprotectedIff([], [hideTasks]);
    NothingLoaded([hideTasks], q);
  }

  lemma TasksIsNotBlank()
    ensures NormalizeIdentifier("tasks") != ""
  {
    TrimSpaceKeepsTrimmed("tasks");
  }

  lemma OneRuleAccepted(rule: Rule, c: RuleContext)
    requires RuleDeclared(rule, c)
    ensures SecurityAccepted([], [rule], c)
  {
    RuleBeforeIsWeak();
    StableSortLength([rule], RuleBefore);
    hide StableSort, RuleDeclared, StrictWeakOrder, Shadows;
  }

  lemma NothingLoaded(rules: seq<Rule>, q: Query)
    requires LoadFor([], rules, "").None?
    ensures LoadEvaluator(rules, "") == [] && ScopeDecision(LoadEvaluator(rules, ""), q) == NoRules
  {
    hide LoadEvaluator;
  }
}
