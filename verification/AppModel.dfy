/** App definitions and the registry of active apps (internal/db/AppDefinition.go). */
module AppModel {
  import opened Common
  import opened Text

  datatype DataType =
    | PlainText | LongText | RichText | Markdown | Email | Url | Phone | Choice | Code | Enumeration
    | AutoNumber
    | Integer | BigInteger | Serial | Double | Decimal | Boolean
    | Date | Timestamp | Uuid | Reference | Json
    | VarChar(length: nat)
    | Unsupported(spelling: string)

  datatype Column = Column(name: string, dataType: DataType, isNullable: bool, prefix: string)

  datatype Table = Table(name: string, base: string, extensible: bool, columns: seq<Column>)

  datatype Method = Method(name: string, visibility: string)

  datatype Service = Service(name: string, methods: seq<Method>)

  datatype Definition = Definition(name: string, namespace: string, dependencies: seq<string>, tables: seq<Table>,
                                   services: seq<Service>)

  /** A registered app: its published definition and its draft. */
  datatype App = App(name: string, namespace: string, definition: Option<Definition>, draft: Option<Definition>)

  function EffectiveDefinition(app: App): Option<Definition> {
    if app.draft.Some? then app.draft else app.definition
  }

  function RuntimeDefinition(app: App): Option<Definition> {
    if app.definition.Some? then app.definition else app.draft
  }

  predicate EqualFold(a: string, b: string) { ToLower(a) == ToLower(b) }

  /** The first app the predicate accepts. */
  function FirstApp(apps: seq<App>, accepts: App -> bool): (r: Option<App>)
    ensures r.Some? ==> r.value in apps && accepts(r.value)
    ensures r.None? ==> forall a :: a in apps ==> !accepts(a)
  {
    if apps == [] then None else if accepts(apps[0]) then Some(apps[0]) else FirstApp(apps[1..], accepts)
  }

  /** It is the first in the list. */
  lemma {:induction false} FirstAppIs(apps: seq<App>, accepts: App -> bool)
    ensures FirstApp(apps, accepts).Some? ==>
              exists i :: 0 <= i < |apps| && apps[i] == FirstApp(apps, accepts).value
                          && forall j :: 0 <= j < i ==> !accepts(apps[j])
  {
    if apps != [] && !accepts(apps[0]) {
      FirstAppIs(apps[1..], accepts);
      if FirstApp(apps, accepts).Some? {
        var i :| 0 <= i < |apps[1..]| && apps[1..][i] == FirstApp(apps, accepts).value
            && forall j :: 0 <= j < i ==> !accepts(apps[1..][j]);
        assert apps[i + 1] == apps[1..][i] && forall j :: 1 <= j < i + 1 ==> apps[j] == apps[1..][j - 1];
      }
    }
  }

  /**
   * An app is found by its name or namespace, whatever the case; the base app also
   * as `system`, unless an app has that name.
   */
  lemma FindAppIs(apps: seq<App>, rawName: string)
    ensures var name, r := NormalizeIdentifier(rawName), FindApp(apps, rawName);
            var named := (a: App) => EqualFold(a.name, name) || EqualFold(a.namespace, name);
            if name != "" && exists a :: a in apps && named(a) then r.Some? && named(r.value)
            else r.Some? <==> name == "system" && exists a :: a in apps && IsBaseApp(a)
  {
    hide NormalizeIdentifier, EqualFold;
  }

  function FindApp(apps: seq<App>, rawName: string): (r: Option<App>)
    ensures r.Some? ==> r.value in apps
  {
    var name := NormalizeIdentifier(rawName);
    var exact := if name == "" then None else FirstApp(apps, (a: App) => EqualFold(a.name, name)
                                                       || EqualFold(a.namespace, name));
    if exact.Some? then exact
    else if name == "system" then FirstApp(apps, IsBaseApp)
    else None
  }

  predicate IsBaseApp(app: App) {
    NormalizeIdentifier(app.namespace) == "" && NormalizeIdentifier(app.name) == "base"
  }

  /** The apps a definition names as dependencies, by app name. */
  function DependencyMap(apps: seq<App>, dependencies: seq<string>): (m: map<string, App>)
    ensures forall name :: name in m ==> m[name] in apps
  {
    if dependencies == [] then map[] else
    var m := DependencyMap(apps, dependencies[..|dependencies| - 1]);
    var found := FindApp(apps, dependencies[|dependencies| - 1]);
    if found.Some? then m[found.value.name := found.value] else m
  }

  /** The order in which a Go map happens to be walked. */
  type MapOrder = map<string, App> -> seq<App>

  /** Every walk visits exactly the values of the map. */
  ghost predicate WalksValues(order: MapOrder) {
    forall m, a :: a in order(m) <==> a in m.Values
  }

  function FindTable(tables: seq<Table>, name: string): (r: Option<Table>)
    ensures r.Some? ==> r.value in tables && r.value.name == name
    ensures r.None? ==> forall t :: t in tables ==> t.name != name
  {
    if tables == [] then None else if tables[0].name == name then Some(tables[0]) else FindTable(tables[1..], name)
  }

  predicate IsSystemColumnName(name: string) {
    NormalizeIdentifier(name) in SystemColumnNames()
  }

  function SystemColumnNames(): set<string> {
    {"_id", "_created_at", "_updated_at", "_update_count", "_deleted_at", "_created_by", "_updated_by", "_deleted_by"}
  }

  predicate HasExplicitSystemColumns(table: Table) {
    exists i :: 0 <= i < |table.columns| && IsSystemColumnName(table.columns[i].name)
  }

  predicate UsesImplicitSystemColumns(appName: string, namespace: string, table: Table) {
    if NormalizeIdentifier(namespace) == "" then
      && NormalizeIdentifier(appName) == "base"
      && !("_" <= NormalizeIdentifier(table.name))
      && !HasExplicitSystemColumns(table)
    else !HasExplicitSystemColumns(table)
  }

  function ColumnNames(columns: seq<Column>): set<string> {
    set c | c in columns :: c.name
  }

  predicate DistinctColumnNames(columns: seq<Column>) {
    forall i, j :: 0 <= i < j < |columns| ==> columns[i].name != columns[j].name
  }
}
