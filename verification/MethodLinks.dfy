/**
 * Static checking of method calls against their resolution at run time
 * (internal/db/AppDefinition.go, AppRuntime.go).
 */
module MethodLinks {
  import opened Common
  import opened Text
  import opened AppModel

  /** strings.Cut at the first dot. */
  function CutAtDot(s: string): (r: Option<(string, string)>)
    ensures r.Some? ==> s == r.value.0 + "." + r.value.1 && '.' !in r.value.0
    ensures r.None? ==> '.' !in s
  {
    if s == "" then None
    else if s[0] == '.' then Some(("", s[1..]))
    else
      var rest := CutAtDot(s[1..]);
      if rest.None? then None else Some(([s[0]] + rest.value.0, rest.value.1))
  }

  /** A `service.method` call with both parts, normalised. */
  function ParseCall(call: string): Option<(string, string)> {
    var cut := CutAtDot(NormalizeIdentifier(call));
    if cut.None? || cut.value.0 == "" || cut.value.1 == "" then None else cut
  }

  // ---- What validation looks at ----

  predicate HasMethod(services: seq<Service>, service: string, name: string) {
    exists i, j :: 0 <= i < |services| && 0 <= j < |services[i].methods| && services[i].name == service
        && services[i].methods[j].name == name
  }

  predicate Exports(services: seq<Service>, service: string, name: string) {
    exists i, j :: 0 <= i < |services| && 0 <= j < |services[i].methods|
      && services[i].name == service && services[i].methods[j].name == name
           && services[i].methods[j].visibility == "public"
  }

  predicate AppExports(app: App, service: string, name: string) {
    app.definition.Some? && Exports(app.definition.value.services, service, name)
  }

  function LocalMethods(methods: seq<Method>): (m: map<string, Method>)
    ensures forall name :: name in m <==> exists j :: 0 <= j < |methods| && methods[j].name == name
  {
    if methods == [] then map[] else
    var front := LocalMethods(methods[..|methods| - 1]);
    assert forall j :: 0 <= j < |methods| - 1 ==> methods[..|methods| - 1][j] == methods[j];
    front[methods[|methods| - 1].name := methods[|methods| - 1]]
  }

  /** The index of the definition's own methods; a repeated service would replace the earlier one. */
  function ServiceIndex(services: seq<Service>): map<string, map<string, Method>> {
    if services == [] then map[] else
    var last := services[|services| - 1];
    ServiceIndex(services[..|services| - 1])[last.name := LocalMethods(last.methods)]
  }

  /** Names as normalizeAppDefinition leaves them: normalised, without repetition, with a visibility. */
  predicate NormalServices(services: seq<Service>) {
    && (forall i :: 0 <= i < |services| ==>
        NormalizeIdentifier(services[i].name) == services[i].name && NormalMethods(services[i].methods))
    && (forall i, j :: 0 <= i < j < |services| ==> services[i].name != services[j].name)
  }

  predicate NormalMethods(methods: seq<Method>) {
    && (forall i :: 0 <= i < |methods| ==>
          NormalizeIdentifier(methods[i].name) == methods[i].name
              && NormalizeIdentifier(methods[i].visibility) == methods[i].visibility)
    && (forall i, j :: 0 <= i < j < |methods| ==> methods[i].name != methods[j].name)
  }

  lemma {:induction false} ServiceIndexHas(services: seq<Service>, service: string, name: string)
    requires forall i, j :: 0 <= i < j < |services| ==> services[i].name != services[j].name
    ensures service in ServiceIndex(services) <==> exists i :: 0 <= i < |services| && services[i].name == service
    ensures service in ServiceIndex(services) && name in ServiceIndex(services)[service] <==>
              HasMethod(services, service, name)
  {
    if services != [] {
      var front, last := services[..|services| - 1], services[|services| - 1];
      assert forall i :: 0 <= i < |front| ==> front[i] == services[i];
      ServiceIndexHas(front, service, name);
      if service == last.name {
        assert forall i :: 0 <= i < |front| ==> services[i].name != services[|services| - 1].name;
      }
    }
  }

  datatype LinkError = CallRequired | BadSyntax | NotAvailable(call: string) | DependencyNotFound(dependency: string)
                         | ScriptRequired

  /** What the check accepts. */
  predicate CallAvailable(services: seq<Service>, dependencies: map<string, App>, call: string) {
    var parsed := ParseCall(call);
    && parsed.Some?
    && (HasMethod(services, parsed.value.0, parsed.value.1)
        || exists name :: name in dependencies && AppExports(dependencies[name], parsed.value.0, parsed.value.1))
  }

  method ValidateMethodCall(services: seq<Service>, dependencies: map<string, App>, rawCall: string)
      returns (r: Option<LinkError>)
    requires NormalServices(services)
    ensures r.None? <==> CallAvailable(services, dependencies, rawCall)
  {
    hide NormalizeIdentifier, CutAtDot, HasMethod;
    var localServices := ServiceIndex(services);
    var call := NormalizeIdentifier(rawCall);
    if call == "" {
      assert CutAtDot("").None?;
      return Some(CallRequired);
    }
    var cut := CutAtDot(call);
    if cut.None? || cut.value.0 == "" || cut.value.1 == "" {
      return Some(BadSyntax);
    }
    var serviceName, methodName := cut.value.0, cut.value.1;
    ServiceIndexHas(services, serviceName, methodName);
    if serviceName in localServices && methodName in localServices[serviceName] {
      return None;
    }
    var remaining := dependencies.Keys;
    while remaining != {}
      invariant remaining <= dependencies.Keys
      invariant forall name :: name in dependencies && name !in remaining ==>
                  !AppExports(dependencies[name], serviceName, methodName)
      decreases remaining
    {
      var name :| name in remaining;
      remaining := remaining - {name};
      var dependency := dependencies[name];
      if dependency.definition.None? {
        continue;
      }
      var exported := FindPublicMethod(dependency.definition.value.services, serviceName, methodName);
      if exported {
        return None;
      }
    }
    return Some(NotAvailable(call));
  }

  /** The two inner loops of the check. */
  method FindPublicMethod(services: seq<Service>, serviceName: string, methodName: string) returns (found: bool)
    ensures found <==> Exports(services, serviceName, methodName)
  {
    for i := 0 to |services|
      invariant !Exports(services[..i], serviceName, methodName)
    {
      if services[i].name == serviceName {
        for j := 0 to |services[i].methods|
          invariant forall k :: 0 <= k < j ==>
                      !(services[i].methods[k].name == methodName && services[i].methods[k].visibility == "public")
        {
          if services[i].methods[j].name == methodName && services[i].methods[j].visibility == "public" {
            return true;
          }
        }
      }
      assert forall k :: 0 <= k < i ==> services[..i + 1][k] == services[..i][k];
    }
    assert services[..|services|] == services;
    return false;
  }

  // ---- What run time looks at ----

  function FindMethod(methods: seq<Method>, name: string): Option<Method> {
    if methods == [] then None else if NormalizeIdentifier(methods[0].name) == name then Some(methods[0])
        else FindMethod(methods[1..], name)
  }

  /** findRuntimeServiceMethod on a definition's services: the first match, whatever its visibility. */
  function FindServiceMethod(services: seq<Service>, service: string, name: string): Option<Method> {
    if services == [] then None
    else if NormalizeIdentifier(services[0].name) == service
        && FindMethod(services[0].methods, name).Some? then FindMethod(services[0].methods, name)
    else FindServiceMethod(services[1..], service, name)
  }

  function FindRuntimeMethod(app: App, service: string, name: string): Option<Method> {
    if RuntimeDefinition(app).None? then None
        else FindServiceMethod(RuntimeDefinition(app).value.services, service, name)
  }

  function RuntimeDependencies(apps: seq<App>, owner: App): map<string, App> {
    if RuntimeDefinition(owner).None? then map[] else DependencyMap(apps, RuntimeDefinition(owner).value.dependencies)
  }

  function FirstPublic(candidates: seq<App>, service: string, name: string): Option<(App, Method)> {
    if candidates == [] then None else
    var found := FindRuntimeMethod(candidates[0], service, name);
    if found.Some? && NormalizeIdentifier(found.value.visibility) == "public" then Some((candidates[0], found.value))
    else FirstPublic(candidates[1..], service, name)
  }

  /** resolveRuntimeServiceMethodWithApps; `order` is the order in which the dependency map is walked. */
  function ResolveMethod(apps: seq<App>, order: MapOrder, current: App, call: string,
                         requirePublic: bool): Option<(App, Method)> {
    var parsed := ParseCall(call);
    if parsed.None? then None else
    var local := FindRuntimeMethod(current, parsed.value.0, parsed.value.1);
    if local.Some? then
      (if !requirePublic || NormalizeIdentifier(local.value.visibility) in {"public",
          ""} then Some((current, local.value)) else None)
    else FirstPublic(order(RuntimeDependencies(apps, current)), parsed.value.0, parsed.value.1)
  }

  // ---- The dependencies of the two sides ----

  /** The first app whose name or namespace is literally the dependency. */
  function FindDeclared(apps: seq<App>, dependency: string): (r: Option<App>)
    ensures r.Some? ==> r.value in apps
  {
    FirstApp(apps, (a: App) => a.name == dependency || a.namespace == dependency)
  }

  function DeclaredDependencies(apps: seq<App>, dependencies: seq<string>): Option<map<string, App>> {
    if dependencies == [] then Some(map[]) else
    var front := DeclaredDependencies(apps, dependencies[..|dependencies| - 1]);
    var found := FindDeclared(apps, dependencies[|dependencies| - 1]);
    if front.None? || found.None? then None else Some(front.value[found.value.name := found.value])
  }

  lemma {:induction false} MissingStays(apps: seq<App>, dependencies: seq<string>, i: nat)
    requires i <= |dependencies| && DeclaredDependencies(apps, dependencies[..i]).None?
    ensures DeclaredDependencies(apps, dependencies).None?
    decreases |dependencies|
  {
    if i == |dependencies| {
      assert dependencies[..i] == dependencies;
    } else {
      assert dependencies[..|dependencies| - 1][..i] == dependencies[..i];
      MissingStays(apps, dependencies[..|dependencies| - 1], i);
    }
  }

  method ResolveDependencies(apps: seq<App>, dependencies: seq<string>) returns (r: Result<map<string, App>, LinkError>)
    ensures r.Ok? <==> DeclaredDependencies(apps, dependencies).Some?
    ensures r.Ok? ==> DeclaredDependencies(apps, dependencies) == Some(r.value)
  {
    var dependencyApps: map<string, App> := map[];
    for i := 0 to |dependencies|
      invariant DeclaredDependencies(apps, dependencies[..i]) == Some(dependencyApps)
    {
      assert dependencies[..i + 1][..i] == dependencies[..i] && dependencies[..i + 1][i] == dependencies[i];
      var found := false;
      for k := 0 to |apps|
        invariant !found && DeclaredDependencies(apps, dependencies[..i]) == Some(dependencyApps)
        invariant FindDeclared(apps, dependencies[i]) == FindDeclared(apps[k..], dependencies[i])
      {
        assert apps[k..][0] == apps[k] && apps[k..][1..] == apps[k + 1..];
        if apps[k].name == dependencies[i] || apps[k].namespace == dependencies[i] {
          dependencyApps := dependencyApps[apps[k].name := apps[k]];
          found := true;
          break;
        }
      }
      if !found {
        MissingStays(apps, dependencies, i + 1);
        return Err(DependencyNotFound(dependencies[i]));
      }
    }
    assert dependencies[..|dependencies|] == dependencies;
    return Ok(dependencyApps);
  }

  /** Registered names are stored in lower case, and published services are normalised. */
  predicate NormalRegistry(apps: seq<App>) {
    forall a :: a in apps ==>
      && ToLower(a.name) == a.name && ToLower(a.namespace) == a.namespace
      && (RuntimeDefinition(a).Some? ==> NormalServices(RuntimeDefinition(a).value.services))
  }

  predicate NormalDependencies(dependencies: seq<string>) {
    forall d :: d in dependencies ==> d != "" && NormalizeIdentifier(d) == d
  }

  lemma {:induction false} FirstAppSame(apps: seq<App>, p: App -> bool, q: App -> bool)
    requires forall a :: a in apps ==> p(a) == q(a)
    ensures FirstApp(apps, p) == FirstApp(apps, q)
  {
    if apps != [] {
      assert apps[0] in apps;
      FirstAppSame(apps[1..], p, q);
    }
  }

  lemma DeclaredIsFound(apps: seq<App>, dependency: string)
    requires NormalRegistry(apps) && dependency != "" && NormalizeIdentifier(dependency) == dependency
    requires FindDeclared(apps, dependency).Some?
    ensures FindApp(apps, dependency) == FindDeclared(apps, dependency)
  {
    assert ToLower(dependency) == dependency by {
      assert forall i :: 0 <= i < |dependency| ==> LowerChar(dependency[i]) == dependency[i];
    }
    FirstAppSame(apps, (a: App) => EqualFold(a.name, dependency)
                 || EqualFold(a.namespace, dependency), (a: App) => a.name == dependency || a.namespace == dependency);
  }

  /** Validation and run time see the same dependencies. */
  lemma {:induction false} SameDependencies(apps: seq<App>, dependencies: seq<string>)
    requires NormalRegistry(apps) && NormalDependencies(dependencies) && DeclaredDependencies(apps, dependencies).Some?
    ensures DependencyMap(apps, dependencies) == DeclaredDependencies(apps, dependencies).value
  {
    if dependencies != [] {
      var front, last := dependencies[..|dependencies| - 1], dependencies[|dependencies| - 1];
      assert dependencies == front + [last] && last in dependencies && forall d :: d in front ==> d in dependencies;
      SameDependencies(apps, front);
      DeclaredIsFound(apps, last);
      hide FindApp, FindDeclared;
    }
  }

  // ---- Both look-ups find the same methods ----

  lemma {:induction false} FindMethodNormal(methods: seq<Method>, name: string)
    requires NormalMethods(methods)
    ensures FindMethod(methods, name).Some? <==> exists j :: 0 <= j < |methods| && methods[j].name == name
    ensures FindMethod(methods, name).Some? ==>
              exists j :: 0 <= j < |methods| && methods[j] == FindMethod(methods, name).value && methods[j].name == name
                          && NormalizeIdentifier(methods[j].visibility) == methods[j].visibility
  {
    if methods != [] {
      hide NormalizeIdentifier;
      assert forall j :: 0 <= j < |methods| - 1 ==> methods[1..][j] == methods[j + 1];
      FindMethodNormal(methods[1..], name);
      if FindMethod(methods[1..], name).Some? {
        var j :| 0 <= j < |methods| - 1 && methods[1..][j] == FindMethod(methods[1..], name).value
            && methods[1..][j].name == name;
        assert methods[j + 1] == methods[1..][j];
      }
    }
  }

  predicate PublicMethod(m: Method, name: string) { m.name == name && m.visibility == "public" }

  /** On normalised services run time finds a method exactly when there is one, and it is the only one of that name. */
  lemma {:induction false} FindServiceMethodNormal(services: seq<Service>, service: string, name: string)
    requires NormalServices(services)
    ensures FindServiceMethod(services, service, name).Some? <==> HasMethod(services, service, name)
    ensures FindServiceMethod(services, service, name).Some? ==>
              var m := FindServiceMethod(services, service, name).value;
              m.name == name && NormalizeIdentifier(m.visibility) == m.visibility
                  && (Exports(services, service, name) <==> m.visibility == "public")
  {
    if services != [] {
      hide NormalizeIdentifier, HasMethod, Exports, FindMethod, NormalMethods, FindServiceMethod, NormalServices;
      var rest := services[1..];
      NormalRest(services);
      FindServiceMethodNormal(rest, service, name);
      FindHere(services, service, name);
      HasMethodCons(services, service, name);
      if services[0].name == service {
        OnlyHere(services, service, name);
      }
    }
  }

  lemma NormalRest(services: seq<Service>)
    requires NormalServices(services) && services != []
    ensures NormalServices(services[1..]) && forall i,
              j :: 0 <= i < j < |services| ==> services[i].name != services[j].name
  {
    hide NormalizeIdentifier, NormalMethods;
    assert forall i :: 0 <= i < |services| - 1 ==> services[1..][i] == services[i + 1];
  }

  /** The look-up at the first service: its only method of that name, or on to the others. */
  lemma FindHere(services: seq<Service>, service: string, name: string)
    requires NormalServices(services) && services != []
    ensures var methods := services[0].methods;
            var found := FindServiceMethod(services, service, name);
            if services[0].name == service && exists j :: 0 <= j < |methods| && methods[j].name == name then
              && found.Some? && found.value.name == name
                   && NormalizeIdentifier(found.value.visibility) == found.value.visibility
              && (found.value.visibility == "public" <==>
                  exists j :: 0 <= j < |methods| && methods[j].name == name && methods[j].visibility == "public")
            else found == FindServiceMethod(services[1..], service, name)
  {
    hide NormalizeIdentifier, FindMethod;
    FindMethodNormal(services[0].methods, name);
  }

  lemma HasMethodCons(services: seq<Service>, service: string, name: string)
    requires services != []
    ensures HasMethod(services, service, name) <==>
              || (services[0].name == service
                  && exists j :: 0 <= j < |services[0].methods| && services[0].methods[j].name == name)
              || HasMethod(services[1..], service, name)
    ensures Exports(services, service, name) <==>
              || (services[0].name == service
                  && exists j ::
                       0 <= j < |services[0].methods|
                       && services[0].methods[j].name == name && services[0].methods[j].visibility == "public")
              || Exports(services[1..], service, name)
  {
    var rest := services[1..];
    if HasMethod(rest, service, name) {
      var i, j :| 0 <= i < |rest| && 0 <= j < |rest[i].methods| && rest[i].name == service
          && rest[i].methods[j].name == name;
      assert services[i + 1] == rest[i];
    }
    if Exports(rest, service, name) {
      var i, j :| 0 <= i < |rest| && 0 <= j < |rest[i].methods| && rest[i].name == service
          && rest[i].methods[j].name == name && rest[i].methods[j].visibility == "public";
      assert services[i + 1] == rest[i];
    }
    assert forall i :: 1 <= i < |services| ==> services[i] == rest[i - 1];
  }

  lemma OnlyHere(services: seq<Service>, service: string, name: string)
    requires services != [] && services[0].name == service
               && forall i, j :: 0 <= i < j < |services| ==> services[i].name != services[j].name
    ensures !HasMethod(services[1..], service, name) && !Exports(services[1..], service, name)
  {}

  predicate RuntimeExports(app: App, service: string, name: string) {
    RuntimeDefinition(app).Some? && Exports(RuntimeDefinition(app).value.services, service, name)
  }

  lemma {:induction false} FirstPublicResult(candidates: seq<App>, service: string, name: string)
    requires NormalRegistry(candidates)
    ensures FirstPublic(candidates, service, name).Some? <==>
              exists a :: a in candidates && RuntimeExports(a, service, name)
    ensures var r := FirstPublic(candidates, service, name);
            r.Some? ==>
                r.value.0 in candidates && RuntimeExports(r.value.0, service, name) && PublicMethod(r.value.1, name)
  {
    if candidates != [] {
      hide NormalizeIdentifier, NormalRegistry, FindRuntimeMethod, RuntimeExports, PublicMethod;
      assert candidates == [candidates[0]] + candidates[1..];
      NormalRegistryRest(candidates);
      FirstPublicResult(candidates[1..], service, name);
      PublicHere(candidates[0], service, name);
    }
  }

  lemma NormalRegistryRest(apps: seq<App>)
    requires NormalRegistry(apps) && apps != []
    ensures NormalRegistry(apps[1..]) && NormalRegistry([apps[0]])
  {
    hide NormalServices, RuntimeDefinition, ToLower;
  }

  /** An app's method is taken exactly when the app exports it. */
  lemma PublicHere(app: App, service: string, name: string)
    requires NormalRegistry([app])
    ensures var found := FindRuntimeMethod(app, service, name);
            && (found.Some? && NormalizeIdentifier(found.value.visibility) == "public" <==>
                RuntimeExports(app, service, name))
            && (RuntimeExports(app, service, name) ==> PublicMethod(found.value, name))
  {
    assert app in [app];
    hide NormalizeIdentifier, Exports, NormalServices, FindServiceMethod, HasMethod;
    if RuntimeDefinition(app).Some? {
      FindServiceMethodNormal(RuntimeDefinition(app).value.services, service, name);
      ExportsHas(RuntimeDefinition(app).value.services, service, name);
    }
  }

  lemma ExportsHas(services: seq<Service>, service: string, name: string)
    ensures Exports(services, service, name) ==> HasMethod(services, service, name)
  {}

  // ---- Link safety ----

  /** The app after its definition has been validated and published. */
  predicate PublishedWith(current: App, definition: Definition) { current.definition == Some(definition) }

  ghost predicate LinkWorld(apps: seq<App>, order: MapOrder, current: App, definition: Definition) {
    && WalksValues(order) && NormalRegistry(apps) && PublishedWith(current, definition)
    && NormalServices(definition.services) && NormalDependencies(definition.dependencies)
    && DeclaredDependencies(apps, definition.dependencies).Some?
  }

  lemma DependenciesNormal(apps: seq<App>, order: MapOrder, current: App, definition: Definition)
    requires LinkWorld(apps, order, current, definition)
    ensures RuntimeDependencies(apps, current) == DeclaredDependencies(apps, definition.dependencies).value
    ensures NormalRegistry(order(RuntimeDependencies(apps, current)))
    ensures forall a :: a in order(RuntimeDependencies(apps, current)) <==>
              a in RuntimeDependencies(apps, current).Values
  {
    SameDependencies(apps, definition.dependencies);
    hide NormalServices, DeclaredDependencies;
    var m := DependencyMap(apps, definition.dependencies);
    forall a | a in m.Values ensures a in apps {
      var name :| name in m && m[name] == a;
    }
  }

  /**
   * Every call that validation accepts resolves at run time, whatever order
   * the dependencies are walked in: to the app's own method if it has one,
   * otherwise to a public method of a direct dependency.
   */
  lemma AcceptedCallResolves(apps: seq<App>, order: MapOrder, current: App, definition: Definition, call: string)
    requires LinkWorld(apps, order, current, definition)
    requires CallAvailable(definition.services, DeclaredDependencies(apps, definition.dependencies).value, call)
    ensures ParseCall(call).Some? && ResolveMethod(apps, order, current, call, false).Some?
    ensures var (service, name) := ParseCall(call).value;
            var (app, found) := ResolveMethod(apps, order, current, call, false).value;
            if HasMethod(definition.services, service, name) then app == current && found.name == name
            else
              && app in DeclaredDependencies(apps, definition.dependencies).value.Values
              && RuntimeExports(app, service, name) && PublicMethod(found, name)
  {
    hide ParseCall, NormalRegistry, NormalServices, HasMethod, Exports, DeclaredDependencies, WalksValues,
         RuntimeDependencies, FindServiceMethod, FirstPublic, NormalizeIdentifier, NormalDependencies;
    var (service, name) := ParseCall(call).value;
    var dependencies := DeclaredDependencies(apps, definition.dependencies).value;
    DependenciesNormal(apps, order, current, definition);
    FindServiceMethodNormal(definition.services, service, name);
    FirstPublicResult(order(dependencies), service, name);
    if !HasMethod(definition.services, service, name) {
      var key :| key in dependencies && AppExports(dependencies[key], service, name);
      assert RuntimeExports(dependencies[key], service, name) && dependencies[key] in order(dependencies);
    }
  }

  /**
   * A call resolves exactly when the app has the method, or the definition that
   * run time sees of a dependency exports it.
   */
  lemma ResolvesIff(apps: seq<App>, order: MapOrder, current: App, definition: Definition, call: string)
    requires LinkWorld(apps, order, current, definition) && ParseCall(call).Some?
    ensures var (service, name) := ParseCall(call).value;
            var m := DeclaredDependencies(apps, definition.dependencies).value;
            ResolveMethod(apps, order, current, call, false).Some? <==>
              HasMethod(definition.services, service, name)
              || exists key :: key in m && RuntimeExports(m[key], service, name)
  {
    hide ParseCall, NormalRegistry, NormalServices, HasMethod, Exports, DeclaredDependencies, WalksValues,
         RuntimeDependencies, FindServiceMethod, FirstPublic, NormalizeIdentifier, NormalDependencies, RuntimeExports;
    var (service, name) := ParseCall(call).value;
    var m := DeclaredDependencies(apps, definition.dependencies).value;
    DependenciesNormal(apps, order, current, definition);
    FindServiceMethodNormal(definition.services, service, name);
    FirstPublicResult(order(m), service, name);
    if exists a :: a in order(m) && RuntimeExports(a, service, name) {
      var a :| a in order(m) && RuntimeExports(a, service, name);
      var key :| key in m && m[key] == a;
    }
    if key :| key in m && RuntimeExports(m[key], service, name) {
      assert m[key] in order(m);
    }
  }

  /**
   * The check refuses a call that would resolve exactly when nothing published
   * has the method but the draft of a dependency that was never published does.
   */
  lemma RefusedButResolvesIff(apps: seq<App>, order: MapOrder, current: App, definition: Definition, call: string)
    requires LinkWorld(apps, order, current, definition) && ParseCall(call).Some?
    ensures var (service, name) := ParseCall(call).value;
            var m := DeclaredDependencies(apps, definition.dependencies).value;
            !CallAvailable(definition.services, m, call) && ResolveMethod(apps, order, current, call, false).Some? <==>
              && !HasMethod(definition.services, service, name)
              && (forall key :: key in m ==> !AppExports(m[key], service, name))
              && exists key :: key in m && m[key].definition.None? && RuntimeExports(m[key], service, name)
  {
    var (service, name) := ParseCall(call).value;
    var m := DeclaredDependencies(apps, definition.dependencies).value;
    ResolvesIff(apps, order, current, definition, call);
    hide ParseCall, LinkWorld, HasMethod, ResolveMethod, DeclaredDependencies, Exports;
    forall key | key in m && m[key].definition.Some?
      ensures RuntimeExports(m[key], service, name) <==> AppExports(m[key], service, name)
    {}
  }

  /** When every dependency is published the check refuses nothing that would resolve. */
  lemma ResolvesIffAccepted(apps: seq<App>, order: MapOrder, current: App, definition: Definition, call: string)
    requires LinkWorld(apps, order, current, definition)
    requires forall key :: key in DeclaredDependencies(apps, definition.dependencies).value ==>
               DeclaredDependencies(apps, definition.dependencies).value[key].definition.Some?
    ensures ResolveMethod(apps, order, current, call, false).Some? <==>
              CallAvailable(definition.services, DeclaredDependencies(apps, definition.dependencies).value, call)
  {
    if ParseCall(call).Some? { RefusedButResolvesIff(apps, order, current, definition, call); }
    if CallAvailable(definition.services, DeclaredDependencies(apps, definition.dependencies).value, call) {
      AcceptedCallResolves(apps, order, current, definition, call);
    }
    hide LinkWorld, HasMethod, DeclaredDependencies, AppExports, RuntimeExports, CutAtDot, NormalizeIdentifier,
         FindRuntimeMethod, FirstPublic, RuntimeDependencies;
  }

  /** A call from outside finds the app's own method only when that is not private, and then no dependency is asked. */
  lemma PublicCallResolvesIff(apps: seq<App>, order: MapOrder, current: App, definition: Definition, call: string)
    requires LinkWorld(apps, order, current, definition) && ParseCall(call).Some?
    ensures var (service, name) := ParseCall(call).value;
            var m := DeclaredDependencies(apps, definition.dependencies).value;
            var own := FindServiceMethod(definition.services, service, name);
            && (own.Some? <==> HasMethod(definition.services, service, name))
            && (ResolveMethod(apps, order, current, call, true).Some? <==>
                  if own.Some? then NormalizeIdentifier(own.value.visibility) in {"public", ""}
                  else exists key :: key in m && RuntimeExports(m[key], service, name))
  {
    ResolvesIff(apps, order, current, definition, call);
    var (service, name) := ParseCall(call).value;
    FindServiceMethodNormal(definition.services, service, name);
    hide ParseCall, NormalRegistry, NormalServices, HasMethod, Exports, DeclaredDependencies, WalksValues,
         RuntimeDependencies, FindServiceMethod, FirstPublic, NormalizeIdentifier, NormalDependencies, RuntimeExports;
  }

  /** When one dependency exports the method, run time picks that one in every walk order. */
  lemma UniqueExportResolves(apps: seq<App>, order: MapOrder, current: App, definition: Definition, call: string,
                             key: string)
    requires LinkWorld(apps, order, current, definition) && ParseCall(call).Some?
    requires var (service, name) := ParseCall(call).value;
             var m := DeclaredDependencies(apps, definition.dependencies).value;
             && !HasMethod(definition.services, service, name)
             && key in m && AppExports(m[key], service, name)
             && forall other :: other in m && RuntimeExports(m[other], service, name) ==> m[other] == m[key]
    ensures ResolveMethod(apps, order, current, call, false).Some?
    ensures ResolveMethod(apps, order, current, call, false).value.0 ==
              DeclaredDependencies(apps, definition.dependencies).value[key]
  {
    AcceptedCallResolves(apps, order, current, definition, call);
    hide ParseCall, LinkWorld, HasMethod, ResolveMethod, RuntimeExports, AppExports, DeclaredDependencies;
    var m := DeclaredDependencies(apps, definition.dependencies).value;
    var app := ResolveMethod(apps, order, current, call, false).value.0;
    var other :| other in m && m[other] == app;
  }

  // ---- Which calls are checked ----

  /** The calls of a definition, by where they stand. */
  datatype Calls = Calls(triggers: seq<string>, schedules: seq<string>, endpoints: seq<(bool, string)>,
                         tableTriggers: seq<string>)

  /** Calls of triggers, schedules and enabled endpoints are checked; those of table triggers need only be there. */
  predicate LinksAccepted(services: seq<Service>, dependencies: map<string, App>, calls: Calls) {
    && (forall i :: 0 <= i < |calls.tableTriggers| ==> TrimSpace(calls.tableTriggers[i]) != "")
    && (forall i :: 0 <= i < |calls.triggers| ==> CallAvailable(services, dependencies, calls.triggers[i]))
    && (forall i :: 0 <= i < |calls.schedules| ==> CallAvailable(services, dependencies, calls.schedules[i]))
    && (forall i :: 0 <= i < |calls.endpoints| && calls.endpoints[i].0 ==>
        CallAvailable(services, dependencies, calls.endpoints[i].1))
  }

  method ValidateLinks(services: seq<Service>, dependencies: map<string, App>, calls: Calls)
      returns (r: Option<LinkError>)
    requires NormalServices(services)
    ensures r.None? <==> LinksAccepted(services, dependencies, calls)
  {
    hide NormalServices, CallAvailable, TrimSpace;
    for i := 0 to |calls.tableTriggers|
      invariant forall k :: 0 <= k < i ==> TrimSpace(calls.tableTriggers[k]) != ""
    {
      if TrimSpace(calls.tableTriggers[i]) == "" {
        return Some(ScriptRequired);
      }
    }
    for i := 0 to |calls.triggers|
      invariant forall k :: 0 <= k < i ==> CallAvailable(services, dependencies, calls.triggers[k])
    {
      r := ValidateMethodCall(services, dependencies, calls.triggers[i]);
      if r.Some? { return; }
    }
    for i := 0 to |calls.schedules|
      invariant forall k :: 0 <= k < i ==> CallAvailable(services, dependencies, calls.schedules[k])
    {
      r := ValidateMethodCall(services, dependencies, calls.schedules[i]);
      if r.Some? { return; }
    }
    for i := 0 to |calls.endpoints|
      invariant forall k :: 0 <= k < i && calls.endpoints[k].0 ==>
                  CallAvailable(services, dependencies, calls.endpoints[k].1)
    {
      if !calls.endpoints[i].0 {
        continue;
      }
      r := ValidateMethodCall(services, dependencies, calls.endpoints[i].1);
      if r.Some? { return; }
    }
    return None;
  }

  /** So every checked call of an accepted definition resolves once it is published. */
  lemma AcceptedLinksResolve(apps: seq<App>, order: MapOrder, current: App, definition: Definition, calls: Calls,
                             call: string)
    requires LinkWorld(apps, order, current, definition)
    requires LinksAccepted(definition.services, DeclaredDependencies(apps, definition.dependencies).value, calls)
    requires call in calls.triggers || call in calls.schedules || (true, call) in calls.endpoints
    ensures ResolveMethod(apps, order, current, call, false).Some?
  {
    assert DeclaredDependencies(apps, definition.dependencies).Some?;
    hide LinkWorld, CallAvailable, ResolveMethod, DeclaredDependencies;
    assert CallAvailable(definition.services, DeclaredDependencies(apps, definition.dependencies).value, call);
    AcceptedCallResolves(apps, order, current, definition, call);
  }

  /** A table trigger is accepted with a call to a method that nobody has, which run time cannot resolve. */
  lemma TableTriggerExample(order: MapOrder)
    requires WalksValues(order)
    ensures var d := Definition("shop", "shop", [], [], []);
            && LinksAccepted(d.services, map[], Calls([], [], [], ["audit.log"]))
            && ResolveMethod([], order, App("shop", "shop", Some(d), None), "audit.log", false).None?
  {
    TrimSpaceKeepsTrimmed("audit.log");
    var d := Definition("shop", "shop", [], [], []);
    var current := App("shop", "shop", Some(d), None);
    assert RuntimeDependencies([], current) == map[];
    var candidates := order(map[]);
    assert forall a :: a !in candidates;
    FirstPublicResult(candidates, "audit", "log");
  }
}
