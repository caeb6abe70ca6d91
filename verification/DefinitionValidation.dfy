/** The table part of definition validation and what it guarantees (internal/db/AppDefinition.go). */
module DefinitionValidation {
  import opened Common
  import opened Text
  import opened AppModel
  import opened TableInheritance

  /** The app being validated, its new definition, and its dependencies in walk order. */
  datatype Scope = Scope(app: App, definition: Definition, dependencies: seq<App>)

  datatype ValidationError =
    | UnknownBase(table: string, base: string)
    | NotExtensible(table: string, base: string)
    | CyclicBase(table: string)
    | BaseNotFound(base: string)
    | RedefinesInheritedColumn(table: string, column: string)

  function ResolveIn(scope: Scope, name: string): Option<Link> {
    ResolveTable(scope.app, scope.definition, scope.dependencies, name)
  }

  function ScopeTables(scope: Scope): set<Table> {
    (set t | t in scope.definition.tables)
      + set d, t | d in scope.dependencies && EffectiveDefinition(d).Some?
          && t in EffectiveDefinition(d).value.tables :: t
  }

  function ScopeNames(scope: Scope): set<string> { set t | t in ScopeTables(scope) :: t.name }

  function DeclaredNames(appName: string, namespace: string, table: Table): set<string> {
    (if UsesImplicitSystemColumns(appName, namespace, table) then SystemColumnNames() else {})
        + ColumnNames(table.columns)
  }

  lemma FewerNames(scope: Scope, link: Link, visited: set<string>)
    requires link.table in ScopeTables(scope) && link.table.name !in visited
    ensures |ScopeNames(scope) - (visited + {link.table.name})| < |ScopeNames(scope) - visited|
  {
    var before, after := ScopeNames(scope) - visited, ScopeNames(scope) - (visited + {link.table.name});
    assert before == after + {link.table.name};
  }

  /** collectInheritedColumnNames: every column name a table brings to those that extend it. */
  function Collect(scope: Scope, link: Link, visited: set<string>): Result<set<string>, ValidationError>
    requires link.table in ScopeTables(scope)
    decreases |ScopeNames(scope) - visited|
  {
    if link.table.name in visited then Err(CyclicBase(link.table.name)) else
    var names := DeclaredNames(link.app.name, link.app.namespace, link.table);
    if link.table.base == "" then Ok(names) else
    var parent := ResolveIn(scope, link.table.base);
    if parent.None? then Err(BaseNotFound(link.table.base)) else
    FewerNames(scope, link, visited);
    var inherited := Collect(scope, parent.value, visited + {link.table.name});
    if inherited.Err? then inherited else Ok(names + inherited.value)
  }

  /** The names left marked when the collection returns; they are never unmarked. */
  function MarkedAfter(scope: Scope, link: Link, visited: set<string>): set<string>
    requires link.table in ScopeTables(scope)
    decreases |ScopeNames(scope) - visited|
  {
    if link.table.name in visited then visited else
    var parent := ResolveIn(scope, link.table.base);
    if link.table.base == "" || parent.None? then visited + {link.table.name} else
    FewerNames(scope, link, visited);
    MarkedAfter(scope, parent.value, visited + {link.table.name})
  }

  method CollectInheritedColumnNames(scope: Scope, link: Link, visited: Visited)
      returns (r: Result<set<string>, ValidationError>)
    requires link.table in ScopeTables(scope)
    modifies visited
    ensures r == Collect(scope, link, old(visited.keys))
    ensures visited.keys == MarkedAfter(scope, link, old(visited.keys))
    decreases |ScopeNames(scope) - visited.keys|
  {
    if link.table.name in visited.keys {
      return Err(CyclicBase(link.table.name));
    }
    FewerNames(scope, link, visited.keys);
    visited.keys := visited.keys + {link.table.name};
    var names := DeclaredNames(link.app.name, link.app.namespace, link.table);
    if link.table.base == "" {
      return Ok(names);
    }
    var parent := ResolveIn(scope, link.table.base);
    if parent.None? {
      return Err(BaseNotFound(link.table.base));
    }
    var parentColumns := CollectInheritedColumnNames(scope, parent.value, visited);
    if parentColumns.Err? {
      return parentColumns;
    }
    return Ok(names + parentColumns.value);
  }

  // ---- Which tables are accepted ----

  predicate MayInherit(scope: Scope, table: Table, name: string) {
    || (IsSystemColumnName(name) && UsesImplicitSystemColumns(scope.definition.name, scope.definition.namespace, table))
    || name !in DeclaredNames(scope.definition.name, scope.definition.namespace, table)
  }

  predicate TableAccepted(scope: Scope, table: Table) {
    table.base != "" ==>
      var parent := ResolveIn(scope, table.base);
      && parent.Some?
      && (parent.value.app.name == scope.app.name || parent.value.table.extensible)
      && var inherited := Collect(scope, parent.value, {});
         inherited.Ok? && forall name :: name in inherited.value ==> MayInherit(scope, table, name)
  }

  predicate TablesAccepted(scope: Scope) {
    forall t :: t in scope.definition.tables ==> TableAccepted(scope, t)
  }

  method ValidateTable(scope: Scope, table: Table) returns (r: Option<ValidationError>)
    ensures r.None? <==> TableAccepted(scope, table)
  {
    if table.base == "" {
      return None;
    }
    var parent := ResolveIn(scope, table.base);
    if parent.None? {
      return Some(UnknownBase(table.name, table.base));
    }
    if parent.value.app.name != scope.app.name && !parent.value.table.extensible {
      return Some(NotExtensible(table.name, table.base));
    }
    var visited := new Visited();
    var inherited := CollectInheritedColumnNames(scope, parent.value, visited);
    if inherited.Err? {
      return Some(inherited.error);
    }
    var implicit := UsesImplicitSystemColumns(scope.definition.name, scope.definition.namespace, table);
    var declared := DeclaredNames(scope.definition.name, scope.definition.namespace, table);
    var allowedFields := declared;
    var names := inherited.value;
    while names != {}
      invariant names <= inherited.value
      invariant forall n :: n in inherited.value - names ==> MayInherit(scope, table, n)
      invariant forall n :: n in names ==> (n in allowedFields <==> n in declared)
      decreases |names|
    {
      var inheritedName :| inheritedName in names;
      names := names - {inheritedName};
      if IsSystemColumnName(inheritedName) && implicit {
        continue;
      }
      if inheritedName in allowedFields {
        return Some(RedefinesInheritedColumn(table.name, inheritedName));
      }
      allowedFields := allowedFields + {inheritedName};
    }
    return None;
  }

  method ValidateTables(scope: Scope) returns (r: Option<ValidationError>)
    ensures r.None? <==> TablesAccepted(scope)
  {
    hide TableAccepted;
    for i := 0 to |scope.definition.tables|
      invariant forall k :: 0 <= k < i ==> TableAccepted(scope, scope.definition.tables[k])
    {
      r := ValidateTable(scope, scope.definition.tables[i]);
      if r.Some? {
        return;
      }
    }
    return None;
  }

  // ---- Accepted definitions resolve ----

  /** What normalisation has already established about a definition. */
  predicate NormalizedTables(tables: seq<Table>) {
    && (forall t :: t in tables ==>
         && t.name != "" && NormalizeIdentifier(t.name) == t.name
         && TrimSpace(t.base) == t.base && NormalizeIdentifier(t.base) == t.base
         && DistinctColumnNames(t.columns)
         && forall c :: c in t.columns ==> NormalizeIdentifier(c.name) == c.name)
    && (forall i, j :: 0 <= i < j < |tables| ==> tables[i].name != tables[j].name)
  }

  /** Every table extends nothing or a table of the same definition. */
  predicate SelfContained(tables: seq<Table>) {
    forall t :: t in tables && t.base != "" ==> FindTable(tables, t.base).Some?
  }

  /** The registry resolves the very definition that was validated. */
  ghost predicate ResolvesValidated(reg: Registry, scope: Scope) {
    && WalksValues(reg.order)
    && reg.start.app == scope.app
    && EffectiveDefinition(scope.app) == Some(scope.definition)
    && scope.app.name == scope.definition.name && scope.app.namespace == scope.definition.namespace
    && NormalizedTables(scope.definition.tables) && SelfContained(scope.definition.tables)
  }

  /** A chain of tables of the validated definition with pairwise different names, none in `visited`. */
  ghost predicate OwnChain(scope: Scope, chain: seq<Link>, visited: set<string>) {
    && (forall i :: 0 <= i < |chain| ==>
        chain[i].app == scope.app && chain[i].table in scope.definition.tables && chain[i].table.name !in visited)
    && (forall i, j :: 0 <= i < j < |chain| ==> chain[i].table.name != chain[j].table.name)
  }

  lemma OwnParent(reg: Registry, scope: Scope, table: Table)
    requires ResolvesValidated(reg, scope) && table in scope.definition.tables && table.base != ""
    ensures ResolveIn(scope, table.base).Some? && ResolveIn(scope, table.base).value.app == scope.app
    ensures ResolveIn(scope, table.base).value.table in scope.definition.tables
    ensures Parent(reg, false, Link(scope.app, table)) == ResolveIn(scope, table.base)
    ensures InScope(reg, ResolveIn(scope, table.base).value)
  {}

  lemma {:induction false} CollectIgnoresVisited(scope: Scope, link: Link, visited: set<string>, fewer: set<string>)
    requires link.table in ScopeTables(scope) && fewer <= visited && Collect(scope, link, visited).Ok?
    ensures Collect(scope, link, fewer) == Collect(scope, link, visited)
    decreases |ScopeNames(scope) - visited|
  {
    if link.table.base != "" {
      FewerNames(scope, link, visited);
      CollectIgnoresVisited(scope, ResolveIn(scope, link.table.base).value, visited + {link.table.name},
                            fewer + {link.table.name});
    }
  }

  /** The columns of an accepted table have other names than those it inherits. */
  lemma OwnNamesAreNew(reg: Registry, scope: Scope, table: Table, inherited: set<string>)
    requires ResolvesValidated(reg, scope) && table in scope.definition.tables && table.base != ""
               && TableAccepted(scope, table)
    requires Collect(scope, ResolveIn(scope, table.base).value, {}) == Ok(inherited)
    ensures ColumnNames(table.columns) !! inherited
  {
    hide *;
    AcceptedInherits(scope, table, inherited);
    forall n | n in ColumnNames(table.columns) ensures n !in inherited {
      OwnNameIsNotInherited(scope, table, n);
    }
  }

  lemma AcceptedInherits(scope: Scope, table: Table, inherited: set<string>)
    requires table.base != "" && TableAccepted(scope, table)
               && Collect(scope, ResolveIn(scope, table.base).value, {}) == Ok(inherited)
    ensures forall name :: name in inherited ==> MayInherit(scope, table, name)
  {
    hide MayInherit, Collect, ResolveIn;
  }

  lemma OwnNameIsNotInherited(scope: Scope, table: Table, n: string)
    requires n in ColumnNames(table.columns)
    ensures !MayInherit(scope, table, n)
  {
    hide NormalizeIdentifier;
    var c :| c in table.columns && c.name == n;
    var i :| 0 <= i < |table.columns| && table.columns[i] == c;
    assert IsSystemColumnName(table.columns[i].name) ==> HasExplicitSystemColumns(table);
  }

  lemma DistinctAppend(a: seq<Column>, b: seq<Column>)
    requires DistinctColumnNames(a) && DistinctColumnNames(b) && ColumnNames(a) !! ColumnNames(b)
    ensures DistinctColumnNames(a + b)
  {
    forall i, j | 0 <= i < j < |a + b| ensures (a + b)[i].name != (a + b)[j].name {
      if i < |a| <= j {
        assert a[i].name in ColumnNames(a) && b[j - |a|].name in ColumnNames(b);
      }
    }
  }

  lemma NamesAppend(a: seq<Column>, b: seq<Column>)
    ensures ColumnNames(a + b) == ColumnNames(a) + ColumnNames(b)
  {
    forall n | n in ColumnNames(a) + ColumnNames(b) ensures n in ColumnNames(a + b) {
      if n in ColumnNames(a) {
        var c :| c in a && c.name == n;
        assert c in a + b;
      } else {
        var c :| c in b && c.name == n;
        assert c in a + b;
      }
    }
  }

  /** The chain ends at a table that extends nothing. */
  ghost predicate EndsAtRoot(chain: seq<Link>) { |chain| > 0 && !HasParent(chain[|chain| - 1]) }

  /**
   * The chain behind a collected set of names: its columns have pairwise different
   * names, and only system names are added to them.
   */
  ghost predicate ChainOfNames(reg: Registry, scope: Scope, link: Link, visited: set<string>, names: set<string>,
                               chain: seq<Link>) {
    && IsChain(reg, false, link, chain) && OwnChain(scope, chain, visited) && EndsAtRoot(chain)
    && DistinctColumnNames(RootFirst(chain))
    && ColumnNames(RootFirst(chain)) <= names <= ColumnNames(RootFirst(chain)) + SystemColumnNames()
  }

  lemma {:induction false} CollectedChain(reg: Registry, scope: Scope, link: Link, visited: set<string>)
      returns (chain: seq<Link>)
    requires ResolvesValidated(reg, scope) && TablesAccepted(scope)
    requires link.app == scope.app && link.table in scope.definition.tables && Collect(scope, link, visited).Ok?
    ensures ChainOfNames(reg, scope, link, visited, Collect(scope, link, visited).value, chain)
    decreases |ScopeNames(scope) - visited|
  {
    hide ResolvesValidated, DeclaredNames, IsChain, OwnChain, EndsAtRoot, DistinctColumnNames, ResolveIn, Parent,
         ScopeNames;
    OwnTable(reg, scope, link.table);
    if link.table.base == "" {
      chain := [link];
      CollectedRoot(reg, scope, link, visited);
    } else {
      OwnParent(reg, scope, link.table);
      FewerNames(scope, link, visited);
      var parent := ResolveIn(scope, link.table.base).value;
      var rest := CollectedChain(reg, scope, parent, visited + {link.table.name});
      CollectIgnoresVisited(scope, parent, visited + {link.table.name}, {});
      var inherited := Collect(scope, parent, {}).value;
      OwnNamesAreNew(reg, scope, link.table, inherited);
      chain := [link] + rest;
      CollectedStep(reg, scope, link, visited, inherited, rest);
    }
  }

  lemma OwnTable(reg: Registry, scope: Scope, table: Table)
    requires ResolvesValidated(reg, scope) && table in scope.definition.tables
    ensures DistinctColumnNames(table.columns) && TrimSpace(table.base) == table.base
  {}

  lemma CollectedRoot(reg: Registry, scope: Scope, link: Link, visited: set<string>)
    requires link.app == scope.app && link.table in scope.definition.tables && link.table.name !in visited
    requires link.table.base == "" && DistinctColumnNames(link.table.columns)
    ensures ChainOfNames(reg, scope, link, visited, DeclaredNames(link.app.name, link.app.namespace, link.table),
                         [link])
  {
    hide UsesImplicitSystemColumns, SystemColumnNames;
    assert RootFirst([link][1..]) == [];
    assert RootFirst([link]) == link.table.columns;
  }

  lemma CollectedStep(reg: Registry, scope: Scope, link: Link, visited: set<string>, inherited: set<string>,
                      rest: seq<Link>)
    requires link.app == scope.app && link.table in scope.definition.tables && link.table.name !in visited
    requires Parent(reg, false, link).Some? && DistinctColumnNames(link.table.columns)
    requires ChainOfNames(reg, scope, Parent(reg, false, link).value, visited + {link.table.name}, inherited, rest)
    requires ColumnNames(link.table.columns) !! inherited
    ensures ChainOfNames(reg, scope, link, visited,
                         DeclaredNames(link.app.name, link.app.namespace, link.table) + inherited, [link] + rest)
  {
    var chain := [link] + rest;
    assert chain[1..] == rest && chain[|chain| - 1] == rest[|rest| - 1];
    ExtendChain(reg, scope, link, rest, visited);
    hide IsChain, OwnChain, HasParent, Parent, DistinctColumnNames, UsesImplicitSystemColumns, ColumnNames,
         SystemColumnNames;
    DistinctAppend(RootFirst(rest), link.table.columns);
    NamesAppend(RootFirst(rest), link.table.columns);
  }

  lemma ExtendChain(reg: Registry, scope: Scope, link: Link, rest: seq<Link>, visited: set<string>)
    requires link.app == scope.app && link.table in scope.definition.tables && link.table.name !in visited
    requires Parent(reg, false, link).Some? && IsChain(reg, false, Parent(reg, false, link).value, rest)
    requires OwnChain(scope, rest, visited + {link.table.name})
    ensures IsChain(reg, false, link, [link] + rest) && OwnChain(scope, [link] + rest, visited)
  {
    hide Parent;
    var chain := [link] + rest;
    assert forall i :: 0 < i < |chain| ==> chain[i] == rest[i - 1];
    ChainCons(reg, false, link, rest);
  }

  lemma SameKeySameName(a: Link, b: Link)
    requires a.app == b.app && Key(a) == Key(b)
    ensures TableName(a) == TableName(b)
  {
    var p := NormalizeIdentifier(a.app.name) + ":";
    assert Key(a)[|p|..] == TableName(a) && Key(b)[|p|..] == TableName(b);
  }

  lemma OwnChainIsAncestry(reg: Registry, scope: Scope, link: Link, chain: seq<Link>)
    requires ResolvesValidated(reg, scope)
    requires IsChain(reg, false, link, chain) && OwnChain(scope, chain, {}) && EndsAtRoot(chain)
    ensures IsAncestry(reg, link, {}, chain)
  {
    forall i, j | 0 <= i < j < |chain| ensures Key(chain[i]) != Key(chain[j]) {
      if Key(chain[i]) == Key(chain[j]) { SameKeySameName(chain[i], chain[j]); }
    }
    hide Key, Parent, HasParent;
  }

  /** A table is not among the ancestors of its own base. */
  lemma NotItsOwnAncestor(reg: Registry, scope: Scope, table: Table, rest: seq<Link>)
    requires ResolvesValidated(reg, scope) && table in scope.definition.tables && table.base != ""
    requires IsChain(reg, false, ResolveIn(scope, table.base).value, rest) && OwnChain(scope, rest, {})
               && EndsAtRoot(rest)
    ensures OwnChain(scope, rest, {table.name})
  {
    OwnParent(reg, scope, table);
    forall k | 0 <= k < |rest| ensures rest[k].table.name != table.name {
      if k < |rest| - 1 {
        assert Parent(reg, false, rest[k]) == Some(rest[k + 1]) && rest[0].table.name != rest[k + 1].table.name;
      }
      DifferentTablesDifferentNames(scope.definition.tables, rest[k].table, table);
    }
  }

  lemma DifferentTablesDifferentNames(tables: seq<Table>, a: Table, b: Table)
    requires NormalizedTables(tables) && a in tables && b in tables && a != b
    ensures a.name != b.name
  {
    var i :| 0 <= i < |tables| && tables[i] == a;
    var j :| 0 <= j < |tables| && tables[j] == b;
  }

  /** Every table of an accepted, self-contained definition has an ancestry inside the definition. */
  lemma AcceptedChain(reg: Registry, scope: Scope, table: Table) returns (chain: seq<Link>)
    requires ResolvesValidated(reg, scope) && TablesAccepted(scope) && table in scope.definition.tables
    ensures InScope(reg, Link(scope.app, table))
    ensures IsAncestry(reg, Link(scope.app, table), {}, chain) && OwnChain(scope, chain, {})
    ensures DistinctColumnNames(RootFirst(chain))
    ensures table.base == "" ==> chain == [Link(scope.app, table)]
    ensures table.base != "" ==>
              var inherited := Collect(scope, ResolveIn(scope, table.base).value, {}).value;
              && ColumnNames(table.columns) <= ColumnNames(RootFirst(chain))
              && ColumnNames(RootFirst(chain)) <= ColumnNames(table.columns) + inherited
              && inherited <= ColumnNames(RootFirst(chain)) + SystemColumnNames()
  {
    hide *;
    var link := Link(scope.app, table);
    AcceptedFacts(reg, scope, table);
    if table.base != "" {
      OwnParent(reg, scope, table);
      var parent := ResolveIn(scope, table.base).value;
      var rest := CollectedChain(reg, scope, parent, {});
      ChainParts(reg, scope, link, parent, Collect(scope, parent, {}).value, rest);
      NotItsOwnAncestor(reg, scope, table, rest);
      assert {} + {table.name} == {table.name};
      ExtendChain(reg, scope, link, rest, {});
      chain := [link] + rest;
      OwnChainIsAncestry(reg, scope, link, chain);
      OwnNamesAreNew(reg, scope, table, Collect(scope, parent, {}).value);
      assert ColumnNames(RootFirst(rest)) !! ColumnNames(table.columns);
      RootFirstCons(link, rest);
      DistinctAppend(RootFirst(rest), table.columns);
      NamesAppend(RootFirst(rest), table.columns);
    } else {
      chain := [link];
      RootChain(reg, scope, table);
      OwnChainIsAncestry(reg, scope, link, chain);
    }
  }

  lemma AcceptedFacts(reg: Registry, scope: Scope, table: Table)
    requires ResolvesValidated(reg, scope) && TablesAccepted(scope) && table in scope.definition.tables
    ensures InScope(reg, Link(scope.app, table)) && DistinctColumnNames(table.columns)
    ensures TableAccepted(scope, table) && ResolvesValidated(reg, scope)
    ensures table.base != "" ==>
              && ResolveIn(scope, table.base).Some? && ResolveIn(scope, table.base).value.table in ScopeTables(scope)
              && Collect(scope, ResolveIn(scope, table.base).value, {}).Ok?
  {
    if table.base != "" { OwnParent(reg, scope, table); }
    hide Collect, ResolveIn, DistinctColumnNames, NormalizeIdentifier, MayInherit;
  }

  lemma ChainParts(reg: Registry, scope: Scope, link: Link, parent: Link, names: set<string>, rest: seq<Link>)
    requires ChainOfNames(reg, scope, parent, {}, names, rest)
    ensures IsChain(reg, false, parent, rest) && OwnChain(scope, rest, {}) && EndsAtRoot(rest)
              && EndsAtRoot([link] + rest)
    ensures DistinctColumnNames(RootFirst(rest))
    ensures ColumnNames(RootFirst(rest)) <= names <= ColumnNames(RootFirst(rest)) + SystemColumnNames()
  {
    hide IsChain, OwnChain, RootFirst, ColumnNames, DistinctColumnNames, HasParent;
  }

  lemma RootFirstCons(link: Link, rest: seq<Link>)
    ensures RootFirst([link] + rest) == RootFirst(rest) + link.table.columns
  {
    assert ([link] + rest)[1..] == rest;
  }

  lemma RootChain(reg: Registry, scope: Scope, table: Table)
    requires ResolvesValidated(reg, scope) && table in scope.definition.tables && table.base == ""
    ensures var chain := [Link(scope.app, table)];
            && IsChain(reg, false, Link(scope.app, table), chain) && OwnChain(scope, chain, {}) && EndsAtRoot(chain)
            && RootFirst(chain) == table.columns
  {
    var chain := [Link(scope.app, table)];
    assert chain[1..] == [] && RootFirst(chain[1..]) == [];
  }

  /**
   * Every table of an accepted, self-contained definition resolves; the
   * resolved names are pairwise different, and they are the table's own names
   * plus the inherited ones, system names aside.
   */
  lemma AcceptedTableResolves(reg: Registry, scope: Scope, table: Table)
    requires ResolvesValidated(reg, scope) && TablesAccepted(scope) && table in scope.definition.tables
    ensures InScope(reg, Link(scope.app, table))
    ensures var r := ResolveColumns(reg, Link(scope.app, table), {});
            r.Ok? && DistinctColumnNames(r.value)
            && (table.base == "" ==> r.value == table.columns)
            && (table.base != "" ==>
                  var inherited := Collect(scope, ResolveIn(scope, table.base).value, {}).value;
                  && ColumnNames(table.columns) <= ColumnNames(r.value)
                  && ColumnNames(r.value) <= ColumnNames(table.columns) + inherited
                  && inherited <= ColumnNames(r.value) + SystemColumnNames())
  {
    var link := Link(scope.app, table);
    var chain := AcceptedChain(reg, scope, table);
    hide IsAncestry, OwnChain, DistinctColumnNames, InScope, SystemColumnNames, TablesAccepted;
    AncestryResolves(reg, link, {}, chain);
    ResolvedColumnsOfChain(reg, link, chain);
    assert table.base == "" ==> !HasParent(link) && ResolveColumns(reg, link, {}) == Ok(table.columns);
  }

  lemma {:induction false} OwnChainNormalized(reg: Registry, scope: Scope, chain: seq<Link>, visited: set<string>)
    requires ResolvesValidated(reg, scope) && OwnChain(scope, chain, visited)
    ensures forall n :: n in ColumnNames(RootFirst(chain)) ==> NormalizeIdentifier(n) == n
  {
    if chain != [] {
      var rest := chain[1..];
      assert forall i :: 0 <= i < |rest| ==> rest[i] == chain[i + 1];
      OwnChainNormalized(reg, scope, rest, visited);
      NamesAppend(RootFirst(rest), chain[0].table.columns);
    }
  }

  /** The resolved names are in normal form, like the declared ones. */
  lemma AcceptedNamesNormalized(reg: Registry, scope: Scope, table: Table, c: Column)
    requires ResolvesValidated(reg, scope) && TablesAccepted(scope) && table in scope.definition.tables
    requires InScope(reg, Link(scope.app, table)) && ResolveColumns(reg, Link(scope.app, table), {}).Ok?
    requires c in ResolveColumns(reg, Link(scope.app, table), {}).value
    ensures NormalizeIdentifier(c.name) == c.name
  {
    var chain := AcceptedChain(reg, scope, table);
    OwnChainNormalized(reg, scope, chain, {});
    ResolvedColumnsOfChain(reg, Link(scope.app, table), chain);
    assert c.name in ColumnNames(ResolveColumns(reg, Link(scope.app, table), {}).value);
  }

  lemma ResolvedColumnsOfChain(reg: Registry, link: Link, chain: seq<Link>)
    requires WalksValues(reg.order) && InScope(reg, link) && IsAncestry(reg, link, {}, chain)
               && ResolveColumns(reg, link, {}).Ok?
    ensures ColumnNames(ResolveColumns(reg, link, {}).value) == ColumnNames(RootFirst(chain))
    ensures DistinctColumnNames(RootFirst(chain)) ==> DistinctColumnNames(ResolveColumns(reg, link, {}).value)
  {
    var other := ResolvedHasAncestry(reg, link, {});
    ChainsAgree(reg, false, link, chain, other);
    ChainsAgree(reg, false, link, other, chain);
    assert chain == other;
    SameUnprefixedSameNames(ResolveColumns(reg, link, {}).value, RootFirst(chain));
  }

  lemma {:induction false} UnprefixedAt(a: seq<Column>)
    ensures |Unprefixed(a)| == |a| && forall i :: 0 <= i < |a| ==> Unprefixed(a)[i] == a[i].(prefix := "")
  {
    if a != [] { UnprefixedAt(a[1..]); }
  }

  lemma SameUnprefixedSameNames(a: seq<Column>, b: seq<Column>)
    requires Unprefixed(a) == Unprefixed(b)
    ensures |a| == |b| && forall i :: 0 <= i < |a| ==>
              a[i].name == b[i].name && a[i].dataType == b[i].dataType && a[i].isNullable == b[i].isNullable
    ensures ColumnNames(a) == ColumnNames(b)
    ensures DistinctColumnNames(a) <==> DistinctColumnNames(b)
  {
    UnprefixedAt(a);
    UnprefixedAt(b);
    forall i | 0 <= i < |a| ensures a[i].name == b[i].name && a[i].dataType == b[i].dataType
        && a[i].isNullable == b[i].isNullable {
      assert Unprefixed(a)[i] == Unprefixed(b)[i];
    }
    forall n ensures n in ColumnNames(a) <==> n in ColumnNames(b) {
      if n in ColumnNames(a) {
        var i :| 0 <= i < |a| && a[i].name == n;
        assert b[i] in b;
      }
      if n in ColumnNames(b) {
        var i :| 0 <= i < |b| && b[i].name == n;
        assert a[i] in a;
      }
    }
  }
}
