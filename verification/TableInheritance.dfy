/** Single inheritance of tables across apps (internal/db/AppDefinition.go, AppPublish.go). */
module TableInheritance {
  import opened Common
  import opened Text
  import opened AppModel

  /** A table together with the app that owns it. */
  datatype Link = Link(app: App, table: Table)

  /** The active apps, the link a resolution starts from, and what is left open. */
  datatype Registry = Registry(apps: seq<App>, start: Link, order: MapOrder, derivePrefix: (App, Table) -> string)

  datatype ResolveError =
    | TableNameRequired
    | CyclicInheritance(table: string)
    | DefinitionNotAvailable(app: string)
    | ExtendedTableNotFound(table: string)

  function TableName(link: Link): string { NormalizeIdentifier(link.table.name) }

  function Key(link: Link): string {
    NormalizeIdentifier(link.app.name) + ":" + TableName(link)
  }

  predicate HasParent(link: Link) { TrimSpace(link.table.base) != "" }

  // ---- One step up ----

  predicate DefinesTable(definition: Option<Definition>, name: string) {
    definition.Some? && exists i :: 0 <= i < |definition.value.tables| && definition.value.tables[i].name == name
  }

  /** The first app, in the given order, whose effective definition has the table. */
  function FindInApps(apps: seq<App>, name: string): (r: Option<Link>)
    ensures r.Some? ==>
              r.value.app in apps && EffectiveDefinition(r.value.app).Some?
                  && r.value.table in EffectiveDefinition(r.value.app).value.tables
    ensures r.Some? ==> r.value.table.name == name
    ensures r.None? ==> forall a :: a in apps ==> !DefinesTable(EffectiveDefinition(a), name)
  {
    if apps == [] then None else
    var definition := EffectiveDefinition(apps[0]);
    var table := if definition.Some? then FindTable(definition.value.tables, name) else None;
    if table.Some? then Some(Link(apps[0], table.value)) else FindInApps(apps[1..], name)
  }

  /** resolveValidationTable: the current definition first, then the dependencies in walk order. */
  function ResolveTable(current: App, definition: Definition, dependencies: seq<App>,
                        rawName: string): (r: Option<Link>)
    ensures r.Some? ==>
              || (r.value.app == current && r.value.table in definition.tables)
              || (r.value.app in dependencies && EffectiveDefinition(r.value.app).Some?
                  && r.value.table in EffectiveDefinition(r.value.app).value.tables)
    ensures r.Some? ==> r.value.table.name == NormalizeIdentifier(rawName)
    ensures DefinesTable(Some(definition), NormalizeIdentifier(rawName)) ==>
              r.Some? && r.value.app == current && r.value.table in definition.tables
    ensures r.None? <==> !DefinesTable(Some(definition), NormalizeIdentifier(rawName))
                         && forall a :: a in dependencies ==>
                              !DefinesTable(EffectiveDefinition(a), NormalizeIdentifier(rawName))
  {
    var name := NormalizeIdentifier(rawName);
    var own := FindTable(definition.tables, name);
    if own.Some? then Some(Link(current, own.value)) else FindInApps(dependencies, name)
  }

  function DependenciesOf(reg: Registry, app: App): seq<App> {
    var definition := EffectiveDefinition(app);
    reg.order(if definition.Some? then DependencyMap(reg.apps, definition.value.dependencies) else map[])
  }

  /** Columns are inherited along the effective definitions, targets are looked up along the published ones. */
  function OwnDefinition(app: App, published: bool): Option<Definition> {
    if published then app.definition else EffectiveDefinition(app)
  }

  function Parent(reg: Registry, published: bool, link: Link): Option<Link> {
    if !HasParent(link) || OwnDefinition(link.app, published).None? then None
    else ResolveTable(link.app, OwnDefinition(link.app, published).value, DependenciesOf(reg, link.app),
                      link.table.base)
  }

  // ---- The finite universe of keys, the measure of every resolution ----

  function TablesOf(app: App): seq<Table> {
    (if app.definition.Some? then app.definition.value.tables else [])
      + (if app.draft.Some? then app.draft.value.tables else [])
  }

  predicate InScope(reg: Registry, link: Link) {
    link == reg.start || ((link.app == reg.start.app || link.app in reg.apps) && link.table in TablesOf(link.app))
  }

  function Universe(reg: Registry): set<string> {
    (set a, t | a in reg.apps + [reg.start.app] && t in TablesOf(a) :: Key(Link(a, t))) + {Key(reg.start)}
  }

  lemma KeyInUniverse(reg: Registry, link: Link)
    requires InScope(reg, link)
    ensures Key(link) in Universe(reg)
  {
    if link != reg.start {
      assert link.app in reg.apps + [reg.start.app] && link.table in TablesOf(link.app)
               && link == Link(link.app, link.table);
    }
  }

  lemma ParentInScope(reg: Registry, published: bool, link: Link)
    requires WalksValues(reg.order) && InScope(reg, link) && Parent(reg, published, link).Some?
    ensures InScope(reg, Parent(reg, published, link).value)
  {
    var parent := Parent(reg, published, link).value;
    if parent.app != link.app {
      assert parent.app in DependenciesOf(reg, link.app);
    }
  }

  lemma LessToVisit(reg: Registry, link: Link, visited: set<string>)
    requires InScope(reg, link) && Key(link) !in visited
    ensures |Universe(reg) - (visited + {Key(link)})| < |Universe(reg) - visited|
  {
    KeyInUniverse(reg, link);
    hide *;
    FewerLeft(Universe(reg), visited, Key(link));
  }

  lemma FewerLeft(universe: set<string>, visited: set<string>, key: string)
    requires key in universe && key !in visited
    ensures |universe - (visited + {key})| < |universe - visited|
  {
    assert universe - visited == universe - (visited + {key}) + {key};
  }

  // ---- Reaching a target table ----

  function ExtendsTarget(reg: Registry, link: Link, target: string, visited: set<string>): bool
    requires WalksValues(reg.order) && InScope(reg, link)
    decreases |Universe(reg) - visited|
  {
    if TableName(link) == NormalizeIdentifier(target) then true
    else if TableName(link) == "" || Key(link) in visited then false
    else if Parent(reg, true, link).None? then false
    else
      ParentInScope(reg, true, link);
      LessToVisit(reg, link, visited);
      ExtendsTarget(reg, Parent(reg, true, link).value, target, visited + {Key(link)})
  }

  // ---- Inherited columns ----

  /** applyDerivedTaskAutoNumberPrefix: only the prefix of the first `number` column may change. */
  function ApplyDerivedPrefix(reg: Registry, link: Link, columns: seq<Column>): seq<Column>
    requires WalksValues(reg.order) && InScope(reg, link)
  {
    if TableName(link) == "" || TableName(link) == "base_task"
        || !ExtendsTarget(reg, link, "base_task", {}) then columns
    else SetNumberPrefix(columns, reg.derivePrefix(link.app, link.table))
  }

  predicate IsNumberColumn(c: Column) { NormalizeIdentifier(c.name) == "number" && c.dataType.AutoNumber? }

  predicate IsFirstNumber(columns: seq<Column>, i: nat)
    requires i < |columns|
  {
    && columns[i].dataType.AutoNumber? && NormalizeIdentifier(columns[i].name) == "number"
    && forall j :: 0 <= j < i ==>
         !(columns[j].dataType.AutoNumber? && NormalizeIdentifier(columns[j].name) == "number")
  }

  /** The first auto-number called `number` gets the prefix; nothing else changes. */
  function SetNumberPrefix(columns: seq<Column>, prefix: string): (r: seq<Column>)
    ensures Unprefixed(r) == Unprefixed(columns)
    ensures |r| == |columns|
    ensures forall i :: 0 <= i < |columns| ==>
              r[i] == if IsFirstNumber(columns, i) then columns[i].(prefix := prefix) else columns[i]
  {
    if columns == [] then []
    else if IsNumberColumn(columns[0]) then
      [columns[0].(prefix := prefix)] + columns[1..]
    else [columns[0]] + SetNumberPrefix(columns[1..], prefix)
  }

  /** Columns up to the auto-number prefix, the one thing a derived table may change in them. */
  function Unprefixed(columns: seq<Column>): seq<Column> {
    if columns == [] then [] else [columns[0].(prefix := "")] + Unprefixed(columns[1..])
  }

  function ResolveColumns(reg: Registry, link: Link, visited: set<string>): Result<seq<Column>, ResolveError>
    requires WalksValues(reg.order) && InScope(reg, link)
    decreases |Universe(reg) - visited|
  {
    if TableName(link) == "" then Err(TableNameRequired)
    else if Key(link) in visited then Err(CyclicInheritance(TableName(link)))
    else if !HasParent(link) then Ok(link.table.columns)
    else if EffectiveDefinition(link.app).None? then Err(DefinitionNotAvailable(link.app.name))
    else if Parent(reg, false, link).None? then Err(ExtendedTableNotFound(link.table.base))
    else
      ParentInScope(reg, false, link);
      LessToVisit(reg, link, visited);
      var inherited := ResolveColumns(reg, Parent(reg, false, link).value, visited + {Key(link)});
      if inherited.Err? then inherited else Ok(ApplyDerivedPrefix(reg, link, inherited.value + link.table.columns))
  }

  // ---- Ancestor chains ----

  ghost predicate IsChain(reg: Registry, published: bool, link: Link, chain: seq<Link>) {
    && |chain| > 0
    && chain[0] == link
    && forall i :: 0 <= i < |chain| - 1 ==> Parent(reg, published, chain[i]) == Some(chain[i + 1])
  }

  /** Named tables whose keys are new and pairwise different. */
  ghost predicate FreshKeys(chain: seq<Link>, n: nat, visited: set<string>)
    requires n <= |chain|
  {
    && (forall i :: 0 <= i < n ==> TableName(chain[i]) != "" && Key(chain[i]) !in visited)
    && (forall i, j :: 0 <= i < j < n ==> Key(chain[i]) != Key(chain[j]))
  }

  /** The chain from `link` runs, without visiting a key twice, to a table that extends nothing. */
  ghost predicate IsAncestry(reg: Registry, link: Link, visited: set<string>, chain: seq<Link>) {
    && IsChain(reg, false, link, chain)
    && FreshKeys(chain, |chain|, visited)
    && !HasParent(chain[|chain| - 1])
  }

  /** The columns of the chain, root first. */
  function RootFirst(chain: seq<Link>): seq<Column> {
    if chain == [] then [] else RootFirst(chain[1..]) + chain[0].table.columns
  }

  lemma FreshKeysCons(link: Link, rest: seq<Link>, n: nat, visited: set<string>)
    requires n <= |rest|
    ensures FreshKeys([link] + rest, n + 1, visited)
        <==> TableName(link) != "" && Key(link) !in visited && FreshKeys(rest, n, visited + {Key(link)})
  {
    hide FreshKeys;
    if FreshKeys([link] + rest, n + 1, visited) { FreshTail(link, rest, n, visited); }
    if TableName(link) != "" && Key(link) !in visited && FreshKeys(rest, n, visited + {Key(link)}) {
      FreshPrepend(link, rest, n, visited);
    }
  }

  lemma FreshTail(link: Link, rest: seq<Link>, n: nat, visited: set<string>)
    requires n <= |rest| && FreshKeys([link] + rest, n + 1, visited)
    ensures TableName(link) != "" && Key(link) !in visited && FreshKeys(rest, n, visited + {Key(link)})
  {
    hide Key, TableName;
    var chain := [link] + rest;
    assert chain[0] == link && forall i :: 0 <= i < |rest| ==> chain[i + 1] == rest[i];
    forall i | 0 <= i < n ensures TableName(rest[i]) != "" && Key(rest[i]) !in visited + {Key(link)} {
      assert Key(chain[0]) != Key(chain[i + 1]);
    }
    forall i, j | 0 <= i < j < n ensures Key(rest[i]) != Key(rest[j]) {
      assert Key(chain[i + 1]) != Key(chain[j + 1]);
    }
  }

  lemma FreshPrepend(link: Link, rest: seq<Link>, n: nat, visited: set<string>)
    requires n <= |rest| && TableName(link) != "" && Key(link) !in visited && FreshKeys(rest, n, visited + {Key(link)})
    ensures FreshKeys([link] + rest, n + 1, visited)
  {
    hide Key, TableName;
    var chain := [link] + rest;
    assert chain[0] == link && forall i :: 0 < i < |chain| ==> chain[i] == rest[i - 1];
    forall i | 0 <= i < n + 1 ensures TableName(chain[i]) != "" && Key(chain[i]) !in visited {
      if i > 0 { assert chain[i] == rest[i - 1]; }
    }
    forall i, j | 0 <= i < j < n + 1 ensures Key(chain[i]) != Key(chain[j]) {
      assert chain[j] == rest[j - 1];
      if i > 0 { assert chain[i] == rest[i - 1]; }
    }
  }

  lemma ChainCons(reg: Registry, published: bool, link: Link, rest: seq<Link>)
    requires Parent(reg, published, link).Some?
    ensures IsChain(reg, published, Parent(reg, published, link).value, rest) ==>
              IsChain(reg, published, link, [link] + rest)
  {
    var chain := [link] + rest;
    assert forall i :: 0 <= i < |rest| ==> chain[i + 1] == rest[i];
  }

  lemma ChainTail(reg: Registry, published: bool, link: Link, chain: seq<Link>)
    requires IsChain(reg, published, link, chain) && |chain| > 1
    ensures Parent(reg, published, link) == Some(chain[1])
    ensures IsChain(reg, published, chain[1], chain[1..])
    ensures chain == [link] + chain[1..]
  {}

  lemma {:induction false} UnprefixedAppend(a: seq<Column>, b: seq<Column>)
    ensures Unprefixed(a + b) == Unprefixed(a) + Unprefixed(b)
  {
    if a == [] {
      assert a + b == b;
    } else {
      assert (a + b)[1..] == a[1..] + b;
      UnprefixedAppend(a[1..], b);
    }
  }

  /** A successful resolution comes from an ancestry, whose columns it concatenates root first. */
  lemma {:induction false} ResolvedHasAncestry(reg: Registry, link: Link, visited: set<string>)
      returns (chain: seq<Link>)
    requires WalksValues(reg.order) && InScope(reg, link) && ResolveColumns(reg, link, visited).Ok?
    ensures IsAncestry(reg, link, visited, chain)
    ensures Unprefixed(ResolveColumns(reg, link, visited).value) == Unprefixed(RootFirst(chain))
    decreases |Universe(reg) - visited|
  {
    if !HasParent(link) {
      chain := [link];
      assert RootFirst(chain) == link.table.columns;
    } else {
      var parent := Parent(reg, false, link).value;
      ParentInScope(reg, false, link);
      LessToVisit(reg, link, visited);
      var rest := ResolvedHasAncestry(reg, parent, visited + {Key(link)});
      chain := [link] + rest;
      FreshKeysCons(link, rest, |rest|, visited);
      ChainCons(reg, false, link, rest);
      var inherited := ResolveColumns(reg, parent, visited + {Key(link)}).value;
      assert chain[1..] == rest;
      UnprefixedAppend(inherited, link.table.columns);
      UnprefixedAppend(RootFirst(rest), link.table.columns);
      KeepsUnprefixed(reg, link, inherited + link.table.columns);
    }
  }

  lemma KeepsUnprefixed(reg: Registry, link: Link, columns: seq<Column>)
    requires WalksValues(reg.order) && InScope(reg, link)
    ensures Unprefixed(ApplyDerivedPrefix(reg, link, columns)) == Unprefixed(columns)
  {}

  lemma {:induction false} AncestryResolves(reg: Registry, link: Link, visited: set<string>, chain: seq<Link>)
    requires WalksValues(reg.order) && InScope(reg, link) && IsAncestry(reg, link, visited, chain)
    ensures ResolveColumns(reg, link, visited).Ok?
    decreases |chain|
  {
    hide *;
    AncestryTail(reg, link, visited, chain);
    if |chain| > 1 {
      ParentInScope(reg, false, link);
      AncestryResolves(reg, chain[1], visited + {Key(link)}, chain[1..]);
    }
    ResolvesThroughParent(reg, link, visited);
  }

  lemma AncestryTail(reg: Registry, link: Link, visited: set<string>, chain: seq<Link>)
    requires IsAncestry(reg, link, visited, chain)
    ensures |chain| > 0 && TableName(link) != "" && Key(link) !in visited
    ensures |chain| > 1 <==> HasParent(link)
    ensures |chain| > 1 ==>
              Parent(reg, false, link) == Some(chain[1]) && IsAncestry(reg, chain[1], visited + {Key(link)}, chain[1..])
  {
    hide Parent, Key, TableName, HasParent;
    if |chain| > 1 {
      ChainTail(reg, false, link, chain);
      FreshKeysCons(link, chain[1..], |chain| - 1, visited);
      ParentHasBase(reg, link);
    }
  }

  lemma ParentHasBase(reg: Registry, link: Link)
    requires Parent(reg, false, link).Some?
    ensures HasParent(link) && EffectiveDefinition(link.app).Some?
  {
    hide HasParent;
  }

  lemma ResolvesThroughParent(reg: Registry, link: Link, visited: set<string>)
    requires WalksValues(reg.order) && InScope(reg, link) && TableName(link) != "" && Key(link) !in visited
    requires HasParent(link) ==>
               && Parent(reg, false, link).Some? && InScope(reg, Parent(reg, false, link).value)
               && ResolveColumns(reg, Parent(reg, false, link).value, visited + {Key(link)}).Ok?
    ensures ResolveColumns(reg, link, visited).Ok?
  {
    if HasParent(link) { ParentHasBase(reg, link); }
    hide Parent, Key, TableName, HasParent, InScope, ApplyDerivedPrefix, Universe, EffectiveDefinition;
  }

  /** Resolution succeeds exactly when there is an ancestry. */
  lemma ResolveSucceedsIff(reg: Registry, link: Link)
    requires WalksValues(reg.order) && InScope(reg, link)
    ensures ResolveColumns(reg, link, {}).Ok? <==> exists chain :: IsAncestry(reg, link, {}, chain)
  {
    if ResolveColumns(reg, link, {}).Ok? {
      var chain := ResolvedHasAncestry(reg, link, {});
    } else {
      forall chain ensures !IsAncestry(reg, link, {}, chain) {
        if IsAncestry(reg, link, {}, chain) { AncestryResolves(reg, link, {}, chain); }
      }
    }
  }

  /** Where the chain breaks: an unnamed table, a key met before, or a parent that is not there. */
  ghost predicate BreaksAt(reg: Registry, link: Link, visited: set<string>, chain: seq<Link>) {
    && IsChain(reg, false, link, chain)
    && FreshKeys(chain, |chain| - 1, visited)
    && var last := chain[|chain| - 1];
       || TableName(last) == ""
       || Key(last) in visited
       || (exists i :: 0 <= i < |chain| - 1 && Key(chain[i]) == Key(last))
       || (HasParent(last) && Parent(reg, false, last).None?)
  }

  lemma {:induction false} FailureBreaksChain(reg: Registry, link: Link, visited: set<string>)
      returns (chain: seq<Link>)
    requires WalksValues(reg.order) && InScope(reg, link) && ResolveColumns(reg, link, visited).Err?
    ensures BreaksAt(reg, link, visited, chain)
    decreases |Universe(reg) - visited|
  {
    if TableName(link) == "" || Key(link) in visited || Parent(reg, false, link).None? {
      chain := [link];
    } else {
      ParentInScope(reg, false, link);
      LessToVisit(reg, link, visited);
      var rest := FailureBreaksChain(reg, Parent(reg, false, link).value, visited + {Key(link)});
      hide ResolveColumns, Universe, InScope, Parent, TableName, Key, HasParent;
      chain := [link] + rest;
      FreshKeysCons(link, rest, |rest| - 1, visited);
      ChainCons(reg, false, link, rest);
      BreakCarriesOver(reg, link, visited, rest);
    }
  }

  lemma BreakCarriesOver(reg: Registry, link: Link, visited: set<string>, rest: seq<Link>)
    requires Parent(reg, false, link).Some? && BreaksAt(reg, Parent(reg, false, link).value, visited + {Key(link)},
                                                        rest)
    ensures var chain := [link] + rest;
            var last := chain[|chain| - 1];
            || TableName(last) == ""
            || Key(last) in visited
            || (exists i :: 0 <= i < |chain| - 1 && Key(chain[i]) == Key(last))
            || (HasParent(last) && Parent(reg, false, last).None?)
  {
    assert |rest| > 0;
    hide Key, TableName, HasParent, Parent, IsChain, FreshKeys;
    var chain := [link] + rest;
    var last := chain[|chain| - 1];
    assert last == rest[|rest| - 1];
    if Key(last) == Key(link) {
      assert Key(chain[0]) == Key(last);
    }
    if exists i :: 0 <= i < |rest| - 1 && Key(rest[i]) == Key(last) {
      var i :| 0 <= i < |rest| - 1 && Key(rest[i]) == Key(last);
      assert chain[i + 1] == rest[i];
    }
  }

  /** Chains are determined by where they start, so an ancestry and a break exclude each other. */
  lemma {:induction false} AncestryExcludesBreak(reg: Registry, link: Link, visited: set<string>, whole: seq<Link>,
                                                 broken: seq<Link>)
    requires IsAncestry(reg, link, visited, whole)
    ensures !BreaksAt(reg, link, visited, broken)
    decreases |whole|
  {
    if IsChain(reg, false, link, broken) {
      ChainsAgree(reg, false, link, whole, broken);
      hide Key, TableName, HasParent;
      var k := |broken| - 1;
      assert broken[k] == whole[k];
      forall i | 0 <= i < k ensures Key(broken[i]) != Key(broken[k]) {
        assert broken[i] == whole[i] && Key(whole[i]) != Key(whole[k]);
      }
      if k < |whole| - 1 {
        assert Parent(reg, false, whole[k]) == Some(whole[k + 1]);
      }
    }
  }

  lemma {:induction false} ChainsAgree(reg: Registry, published: bool, link: Link, a: seq<Link>, b: seq<Link>)
    requires IsChain(reg, published, link, a) && IsChain(reg, published, link, b)
    requires Parent(reg, published, a[|a| - 1]).None?
    ensures |b| <= |a| && forall i :: 0 <= i < |b| ==> a[i] == b[i]
    decreases |b|
  {
    if |b| > 1 {
      ChainTail(reg, published, link, b);
      ChainTail(reg, published, link, a);
      ChainsAgree(reg, published, a[1], a[1..], b[1..]);
      forall i | 0 <= i < |b| ensures a[i] == b[i] {
        if i > 0 { assert a[i] == a[1..][i - 1] && b[i] == b[1..][i - 1]; }
      }
    }
  }

  /** Resolution fails exactly when the ancestor chain misses a link or revisits a table. */
  lemma ResolveFailsIff(reg: Registry, link: Link)
    requires WalksValues(reg.order) && InScope(reg, link)
    ensures ResolveColumns(reg, link, {}).Err? <==> exists chain :: BreaksAt(reg, link, {}, chain)
  {
    if ResolveColumns(reg, link, {}).Err? {
      var chain := FailureBreaksChain(reg, link, {});
    } else {
      var whole := ResolvedHasAncestry(reg, link, {});
      forall chain ensures !BreaksAt(reg, link, {}, chain) {
        AncestryExcludesBreak(reg, link, {}, whole, chain);
      }
    }
  }

  /** The published chain from `link` reaches a table called `target` before it breaks. */
  ghost predicate ReachesTarget(reg: Registry, link: Link, target: string, visited: set<string>, chain: seq<Link>) {
    && IsChain(reg, true, link, chain)
    && FreshKeys(chain, |chain| - 1, visited)
    && TableName(chain[|chain| - 1]) == NormalizeIdentifier(target)
  }

  lemma {:induction false} ExtendsTargetReaches(reg: Registry, link: Link, target: string, visited: set<string>)
      returns (chain: seq<Link>)
    requires WalksValues(reg.order) && InScope(reg, link) && ExtendsTarget(reg, link, target, visited)
    ensures ReachesTarget(reg, link, target, visited, chain)
    decreases |Universe(reg) - visited|
  {
    if TableName(link) == NormalizeIdentifier(target) {
      chain := [link];
    } else {
      ParentInScope(reg, true, link);
      LessToVisit(reg, link, visited);
      var rest := ExtendsTargetReaches(reg, Parent(reg, true, link).value, target, visited + {Key(link)});
      chain := [link] + rest;
      FreshKeysCons(link, rest, |rest| - 1, visited);
      ChainCons(reg, true, link, rest);
    }
  }

  lemma {:induction false} ReachedTargetIsExtended(reg: Registry, link: Link, target: string, visited: set<string>,
                                                   chain: seq<Link>)
    requires WalksValues(reg.order) && InScope(reg, link) && ReachesTarget(reg, link, target, visited, chain)
    ensures ExtendsTarget(reg, link, target, visited)
    decreases |chain|
  {
    hide Key, TableName, Parent, InScope, Universe;
    if |chain| > 1 {
      ChainTail(reg, true, link, chain);
      FreshKeysCons(link, chain[1..], |chain| - 2, visited);
      ParentInScope(reg, true, link);
      ReachedTargetIsExtended(reg, chain[1], target, visited + {Key(link)}, chain[1..]);
    }
  }

  lemma ExtendsTargetIff(reg: Registry, link: Link, target: string)
    requires WalksValues(reg.order) && InScope(reg, link)
    ensures ExtendsTarget(reg, link, target, {}) <==> exists chain :: ReachesTarget(reg, link, target, {}, chain)
  {
    if ExtendsTarget(reg, link, target, {}) {
      var chain := ExtendsTargetReaches(reg, link, target, {});
    } else {
      forall chain ensures !ReachesTarget(reg, link, target, {}, chain) {
        if ReachesTarget(reg, link, target, {}, chain) { ReachedTargetIsExtended(reg, link, target, {}, chain); }
      }
    }
  }

  /**
   * The `number` column of a table gets the derived prefix exactly when the
   * table is not `base_task` itself and its published chain reaches that table.
   */
  lemma DerivedPrefixIff(reg: Registry, link: Link, columns: seq<Column>)
    requires WalksValues(reg.order) && InScope(reg, link)
    ensures var derived := TableName(link) != "" && TableName(link) != "base_task"
                             && exists chain :: ReachesTarget(reg, link, "base_task", {}, chain);
            var r := ApplyDerivedPrefix(reg, link, columns);
            && |r| == |columns|
            && forall i :: 0 <= i < |columns| ==>
                 r[i] == if derived && IsFirstNumber(columns, i)
                         then columns[i].(prefix := reg.derivePrefix(link.app, link.table)) else columns[i]
  {
    ExtendsTargetIff(reg, link, "base_task");
    hide ExtendsTarget, ReachesTarget, IsFirstNumber, TableName, SetNumberPrefix, InScope;
  }

  // ---- The recursive procedures, sharing one mutable visited map ----

  class Visited {
    var keys: set<string>

    constructor ()
      ensures keys == {}
    {
      keys := {};
    }
  }

  lemma ExtendsTargetStep(reg: Registry, link: Link, target: string, visited: set<string>)
    requires WalksValues(reg.order) && InScope(reg, link)
    ensures Parent(reg, true, link).Some? ==> InScope(reg, Parent(reg, true, link).value)
    ensures ExtendsTarget(reg, link, target, visited) <==>
              || TableName(link) == NormalizeIdentifier(target)
              || (TableName(link) != "" && Key(link) !in visited && Parent(reg, true, link).Some?
                  && ExtendsTarget(reg, Parent(reg, true, link).value, target, visited + {Key(link)}))
  {
    if Parent(reg, true, link).Some? { ParentInScope(reg, true, link); }
  }

  method DefinitionTableExtendsTarget(reg: Registry, link: Link, target: string, visited: Visited) returns (b: bool)
    requires WalksValues(reg.order) && InScope(reg, link)
    modifies visited
    ensures b == ExtendsTarget(reg, link, target, old(visited.keys))
    ensures visited.keys == old(visited.keys)
    decreases |Universe(reg) - visited.keys|, 1
  {
    hide Universe, InScope, NormalizeIdentifier, ExtendsTarget, Key, WalksValues, Parent, TableName;
    ExtendsTargetStep(reg, link, target, visited.keys);
    var tableName := TableName(link);
    if tableName == NormalizeIdentifier(target) {
      return true;
    }
    if tableName == "" {
      return false;
    }
    var key := Key(link);
    if key in visited.keys {
      return false;
    }
    LessToVisit(reg, link, visited.keys);
    visited.keys := visited.keys + {key};
    b := ParentExtendsTarget(reg, link, target, visited);
    visited.keys := visited.keys - {key};
    assert visited.keys == old(visited.keys);
  }

  /** The part of the test between marking the key and the deferred unmarking. */
  method ParentExtendsTarget(reg: Registry, link: Link, target: string, visited: Visited) returns (b: bool)
    requires WalksValues(reg.order) && InScope(reg, link)
    requires Parent(reg, true, link).Some? ==> InScope(reg, Parent(reg, true, link).value)
    modifies visited
    ensures b <==>
              Parent(reg, true, link).Some? && ExtendsTarget(reg, Parent(reg, true, link).value, target,
                                                             old(visited.keys))
    ensures visited.keys == old(visited.keys)
    decreases |Universe(reg) - visited.keys|, 2
  {
    hide Universe, InScope, ResolveTable, DependenciesOf, ExtendsTarget, TrimSpace, WalksValues;
    b := false;
    if TrimSpace(link.table.base) != "" && link.app.definition.Some? {
      var parent := ResolveTable(link.app, link.app.definition.value, DependenciesOf(reg, link.app), link.table.base);
      if parent.Some? {
        b := DefinitionTableExtendsTarget(reg, parent.value, target, visited);
      }
    }
  }

  lemma ResolveStarts(reg: Registry, link: Link, visited: set<string>)
    requires WalksValues(reg.order) && InScope(reg, link)
    ensures TableName(link) == "" ==> ResolveColumns(reg, link, visited) == Err(TableNameRequired)
    ensures TableName(link) != "" && Key(link) in visited ==>
              ResolveColumns(reg, link, visited) == Err(CyclicInheritance(TableName(link)))
  {}

  method ResolveDefinitionColumns(reg: Registry, link: Link, visited: Visited)
      returns (r: Result<seq<Column>, ResolveError>)
    requires WalksValues(reg.order) && InScope(reg, link)
    modifies visited
    ensures r == ResolveColumns(reg, link, old(visited.keys))
    ensures visited.keys == old(visited.keys)
    decreases |Universe(reg) - visited.keys|, 0
  {
    ResolveStarts(reg, link, visited.keys);
    hide ResolveColumns, Universe, InScope, WalksValues, Key, TableName;
    var tableName := TableName(link);
    if tableName == "" {
      return Err(TableNameRequired);
    }
    var key := Key(link);
    if key in visited.keys {
      return Err(CyclicInheritance(tableName));
    }
    LessToVisit(reg, link, visited.keys);
    visited.keys := visited.keys + {key};
    assert visited.keys - {key} == old(visited.keys);
    r := ResolveThroughParent(reg, link, visited);
    visited.keys := visited.keys - {key};
  }

  /** The part of the resolution between marking the key and the deferred unmarking. */
  method ResolveThroughParent(reg: Registry, link: Link, visited: Visited)
      returns (r: Result<seq<Column>, ResolveError>)
    requires WalksValues(reg.order) && InScope(reg, link)
    requires TableName(link) != "" && Key(link) in visited.keys
    modifies visited
    ensures r == ResolveColumns(reg, link, old(visited.keys) - {Key(link)})
    ensures visited.keys == old(visited.keys)
    decreases |Universe(reg) - visited.keys|, 1
  {
    assert old(visited.keys) - {Key(link)} + {Key(link)} == old(visited.keys);
    if TrimSpace(link.table.base) == "" {
      return Ok(link.table.columns);
    }
    var currentDefinition := EffectiveDefinition(link.app);
    if currentDefinition.None? {
      return Err(DefinitionNotAvailable(link.app.name));
    }
    var parent := ResolveTable(link.app, currentDefinition.value, DependenciesOf(reg, link.app), link.table.base);
    if parent.None? {
      return Err(ExtendedTableNotFound(link.table.base));
    }
    ParentInScope(reg, false, link);
    var inherited := ResolveDefinitionColumns(reg, parent.value, visited);
    if inherited.Err? {
      return inherited;
    }
    return Ok(ApplyDerivedPrefix(reg, link, inherited.value + link.table.columns));
  }

  // ---- Draft and publication in one resolution ----

  /** An app whose published table `child` extends `base_task`, which so far is only in its draft. */
  function DraftedParent(): App {
    var child, parent := Table("child", "base_task", false, []), Table("base_task", "", true, []);
    App("crm", "crm", Some(Definition("crm", "crm", [], [child], [])),
        Some(Definition("crm", "crm", [], [child, parent], [])))
  }

  /** Its columns resolve through the drafted parent, but it does not count as a task. */
  lemma DraftedParentExample(order: MapOrder, derivePrefix: (App, Table) -> string)
    requires WalksValues(order)
    ensures var start := Link(DraftedParent(), Table("child", "base_task", false, []));
            var reg := Registry([DraftedParent()], start, order, derivePrefix);
            && Parent(reg, false, start) == Some(Link(DraftedParent(), Table("base_task", "", true, [])))
            && Parent(reg, true, start) == None
            && ResolveColumns(reg, start, {}).Ok? && !ExtendsTarget(reg, start, "base_task", {})
  {
    DraftedNames();
    hide NormalizeIdentifier, TrimSpace;
    var child, parent := Table("child", "base_task", false, []), Table("base_task", "", true, []);
    var app := DraftedParent();
    var start := Link(app, child);
    var reg := Registry([app], start, order, derivePrefix);
    assert Key(start) == "crm:child" && Key(Link(app, parent)) == "crm:base_task";
    assert FindTable([child, parent], "base_task") == Some(parent) && FindTable([child], "base_task") == None;
    hide ApplyDerivedPrefix, FindTable;
  }

  lemma DraftedNames()
    ensures NormalizeIdentifier("child") == "child" && NormalizeIdentifier("crm") == "crm"
    ensures NormalizeIdentifier("base_task") == "base_task" && TrimSpace("base_task") == "base_task"
    ensures TrimSpace("") == ""
  {
    TrimSpaceKeepsTrimmed("child");
    TrimSpaceKeepsTrimmed("crm");
    TrimSpaceKeepsTrimmed("base_task");
    hide TrimSpace;
    assert ToLower("child") == "child" && ToLower("crm") == "crm" && ToLower("base_task") == "base_task";
  }
}
