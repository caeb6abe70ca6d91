/** Assembly of the relationship map from the search result (cmd/server/map_view.go). */
module RelationshipGraph {
  import opened Common
  import opened Text
  import opened RelationshipSearch

  datatype Entity = Entity(id: Id, name: string)

  datatype Edge = Edge(id: string, source: Id, target: Id, relationshipType: string, status: string,
                       description: string)

  datatype Node = Node(id: Id, name: string, level: int, distance: nat, degree: nat, incoming: nat, outgoing: nat,
                       selected: bool)

  datatype Graph = Graph(center: Id, depth: nat, minLevel: int, maxLevel: int, ceiling: Id, floor: Id,
                         nodes: seq<Node>, edges: seq<Edge>)

  datatype GraphError = NotFound | Forbidden

  // ---- Tethers: the extreme nodes under a total order ----

  /** Level first, then higher degree, then name regardless of case, then id. */
  predicate NodeRanksBefore(candidate: Node, current: Node, ascending: bool) {
    if candidate.level != current.level then
      (if ascending then candidate.level < current.level else candidate.level > current.level)
    else if candidate.degree != current.degree then candidate.degree > current.degree
    else if ToLower(candidate.name) != ToLower(current.name) then LexLess(ToLower(candidate.name),
        ToLower(current.name))
    else LexLess(candidate.id, current.id)
  }

  lemma NodeRanksBeforeTransitive(a: Node, b: Node, c: Node, ascending: bool)
    requires NodeRanksBefore(a, b, ascending) && NodeRanksBefore(b, c, ascending)
    ensures NodeRanksBefore(a, c, ascending)
  {
    var la, lb, lc := ToLower(a.name), ToLower(b.name), ToLower(c.name);
    if a.level == b.level == c.level && a.degree == b.degree == c.degree {
      if la != lb && lb != lc {
        LexLessTransitive(la, lb, lc);
        LexLessAsymmetric(la, lc);
      } else if la == lb == lc {
        LexLessTransitive(a.id, b.id, c.id);
      }
    }
  }

  lemma NodeRanksBeforeTotal(a: Node, b: Node, ascending: bool)
    requires a.id != b.id
    ensures NodeRanksBefore(a, b, ascending) <==> !NodeRanksBefore(b, a, ascending)
  {
    var la, lb := ToLower(a.name), ToLower(b.name);
    LexLessTotal(a.id, b.id);
    LexLessTotal(la, lb);
    if LexLess(a.id, b.id) { LexLessAsymmetric(a.id, b.id); } else { LexLessAsymmetric(b.id, a.id); }
    if la != lb {
      if LexLess(la, lb) { LexLessAsymmetric(la, lb); } else { LexLessAsymmetric(lb, la); }
    }
  }

  predicate DistinctIds(nodes: seq<Node>) {
    forall i, j :: 0 <= i < j < |nodes| ==> nodes[i].id != nodes[j].id
  }

  /** `best` is in the list and every node with another id ranks after it. */
  predicate IsOptimum(nodes: seq<Node>, best: Node, ascending: bool) {
    best in nodes && forall n :: n in nodes && n.id != best.id ==> NodeRanksBefore(best, n, ascending)
  }

  /** The optimum is unique and depends on which nodes there are, not on their order. */
  lemma OptimumUnique(nodes: seq<Node>, others: seq<Node>, a: Node, b: Node, ascending: bool)
    requires multiset(nodes) == multiset(others)
    requires IsOptimum(nodes, a, ascending) && IsOptimum(others, b, ascending)
    ensures a.id == b.id
  {
    assert b in multiset(nodes) && a in multiset(others);
    if a.id != b.id {
      NodeRanksBeforeTotal(a, b, ascending);
    }
  }

  lemma KeepOptimum(nodes: seq<Node>, k: nat, best: Node, ascending: bool)
    requires DistinctIds(nodes) && 0 < k < |nodes| && IsOptimum(nodes[..k], best, ascending)
    ensures IsOptimum(nodes[..k + 1], if NodeRanksBefore(nodes[k], best, ascending) then nodes[k] else best, ascending)
  {
    var node := nodes[k];
    var i :| 0 <= i < k && nodes[i] == best;
    NodeRanksBeforeTotal(node, best, ascending);
    forall n | n in nodes[..k] ensures NodeRanksBefore(node, best, ascending) && n.id != node.id ==>
        NodeRanksBefore(node, n, ascending) {
      if NodeRanksBefore(node, best, ascending) && n.id != node.id && n.id != best.id {
        NodeRanksBeforeTransitive(node, best, n, ascending);
      }
      if n.id == best.id {
        var j :| 0 <= j < k && nodes[j] == n;
        assert i == j;
      }
    }
    assert nodes[..k + 1] == nodes[..k] + [node];
  }

  /** Of the nodes of its level the one with most edges, then the first by name, then the first by id. */
  predicate LeadsItsLevel(nodes: seq<Node>, best: Node) {
    forall n :: n in nodes && n.level == best.level ==>
      && n.degree <= best.degree
      && (n.degree == best.degree ==>
            && !LexLess(ToLower(n.name), ToLower(best.name))
            && (ToLower(n.name) == ToLower(best.name) ==> !LexLess(n.id, best.id)))
  }

  predicate IsCeiling(nodes: seq<Node>, c: Node) {
    c in nodes && (forall n :: n in nodes ==> c.level <= n.level) && LeadsItsLevel(nodes, c)
  }

  predicate IsFloor(nodes: seq<Node>, f: Node) {
    f in nodes && (forall n :: n in nodes ==> n.level <= f.level) && LeadsItsLevel(nodes, f)
  }

  lemma OptimumLeads(nodes: seq<Node>, best: Node, ascending: bool)
    requires DistinctIds(nodes) && IsOptimum(nodes, best, ascending)
    ensures if ascending then IsCeiling(nodes, best) else IsFloor(nodes, best)
  {
    forall n | n in nodes
      ensures if ascending then best.level <= n.level else n.level <= best.level
      ensures n.level == best.level ==>
                && n.degree <= best.degree
                && (n.degree == best.degree ==>
                      && !LexLess(ToLower(n.name), ToLower(best.name))
                      && (ToLower(n.name) == ToLower(best.name) ==> !LexLess(n.id, best.id)))
    {
      if n.id == best.id {
        SameIdSameNode(nodes, n, best);
        NotBeforeItself(ToLower(n.name));
        NotBeforeItself(n.id);
      } else {
        assert NodeRanksBefore(best, n, ascending);
        NotBeforeItself(ToLower(n.name));
        if LexLess(ToLower(best.name), ToLower(n.name)) { LexLessAsymmetric(ToLower(best.name), ToLower(n.name)); }
        if LexLess(best.id, n.id) { LexLessAsymmetric(best.id, n.id); }
      }
    }
  }

  lemma SameIdSameNode(nodes: seq<Node>, a: Node, b: Node)
    requires DistinctIds(nodes) && a in nodes && b in nodes && a.id == b.id
    ensures a == b
  {
    var i :| 0 <= i < |nodes| && nodes[i] == a;
    var j :| 0 <= j < |nodes| && nodes[j] == b;
  }

  lemma NotBeforeItself(s: string)
    ensures !LexLess(s, s)
  {
    if LexLess(s, s) { LexLessAsymmetric(s, s); }
  }

  method SelectTethers(nodes: seq<Node>) returns (ceiling: Id, floor: Id)
    requires DistinctIds(nodes)
    ensures nodes == [] ==> ceiling == "" && floor == ""
    ensures nodes != [] ==>
              exists c, f :: IsOptimum(nodes, c, true) && c.id == ceiling && IsOptimum(nodes, f, false) && f.id == floor
    ensures nodes != [] ==> exists c, f :: IsCeiling(nodes, c) && c.id == ceiling && IsFloor(nodes, f) && f.id == floor
  {
    if |nodes| == 0 {
      return "", "";
    }
    var top, bottom := nodes[0], nodes[0];
    assert forall i :: 0 <= i < 1 ==> nodes[..1][i] == nodes[0];
    for k := 1 to |nodes|
      invariant IsOptimum(nodes[..k], top, true) && IsOptimum(nodes[..k], bottom, false)
    {
      KeepOptimum(nodes, k, top, true);
      KeepOptimum(nodes, k, bottom, false);
      var node := nodes[k];
      if NodeRanksBefore(node, top, true) {
        top := node;
      }
      if NodeRanksBefore(node, bottom, false) {
        bottom := node;
      }
    }
    assert nodes[..|nodes|] == nodes;
    OptimumLeads(nodes, top, true);
    OptimumLeads(nodes, bottom, false);
    return top.id, bottom.id;
  }

  // ---- Edges and degrees ----

  function EdgeOf(r: Relationship): Edge {
    Edge(r.id, r.source, r.target, r.relationshipType, r.status, r.description)
  }

  /** An edge carries the ends and the details of its relationship. */
  predicate Shows(e: Edge, r: Relationship) {
    && e.id == r.id && e.source == r.source && e.target == r.target
    && e.relationshipType == r.relationshipType && e.status == r.status && e.description == r.description
  }

  /** The edge list: readable relationships between visible entities, in row order. */
  function EdgesOf(rows: seq<Relationship>, allows: Relationship -> bool, visible: set<Id>): seq<Edge> {
    if rows == [] then [] else
    var row := rows[|rows| - 1];
    EdgesOf(rows[..|rows| - 1], allows, visible)
      + (if allows(row) && row.source in visible && row.target in visible then [EdgeOf(row)] else [])
  }

  function CountSource(edges: seq<Edge>, id: Id): nat {
    if edges == [] then 0 else
    CountSource(edges[..|edges| - 1], id) + (if edges[|edges| - 1].source == id then 1 else 0)
  }

  function CountTarget(edges: seq<Edge>, id: Id): nat {
    if edges == [] then 0 else
    CountTarget(edges[..|edges| - 1], id) + (if edges[|edges| - 1].target == id then 1 else 0)
  }

  predicate Touched(edges: seq<Edge>, root: Id, id: Id) {
    id == root || exists e :: e in edges && (e.source == id || e.target == id)
  }

  /** Go's map lookup: zero when the key is missing. */
  function CountOf(counts: map<Id, nat>, id: Id): nat { if id in counts then counts[id] else 0 }

  function LevelOf(levels: map<Id, int>, id: Id): int { if id in levels then levels[id] else 0 }

  function DistanceOf(distances: map<Id, nat>, id: Id): nat { if id in distances then distances[id] else 0 }

  /** The node drawn for `id`. */
  predicate DescribesNode(n: Node, edges: seq<Edge>, levels: map<Id, int>, distances: map<Id, nat>, root: Id) {
    && n.level == LevelOf(levels, n.id)
    && n.distance == DistanceOf(distances, n.id)
    && n.outgoing == CountSource(edges, n.id)
    && n.incoming == CountTarget(edges, n.id)
    && n.degree == n.incoming + n.outgoing
    && (n.selected <==> n.id == root)
  }

  predicate HasNode(nodes: seq<Node>, id: Id) { exists n :: n in nodes && n.id == id }

  // ---- Balance: every edge is counted once at each end ----

  function SumOutgoing(nodes: seq<Node>): nat {
    if nodes == [] then 0 else SumOutgoing(nodes[..|nodes| - 1]) + nodes[|nodes| - 1].outgoing
  }

  function SumIncoming(nodes: seq<Node>): nat {
    if nodes == [] then 0 else SumIncoming(nodes[..|nodes| - 1]) + nodes[|nodes| - 1].incoming
  }

  function SumDegree(nodes: seq<Node>): nat {
    if nodes == [] then 0 else SumDegree(nodes[..|nodes| - 1]) + nodes[|nodes| - 1].degree
  }

  /** The sum over the listed ids of how often each is an edge source. */
  function SumSources(ids: seq<Id>, edges: seq<Edge>): nat {
    if ids == [] then 0 else SumSources(ids[..|ids| - 1], edges) + CountSource(edges, ids[|ids| - 1])
  }

  function SumTargets(ids: seq<Id>, edges: seq<Edge>): nat {
    if ids == [] then 0 else SumTargets(ids[..|ids| - 1], edges) + CountTarget(edges, ids[|ids| - 1])
  }

  predicate DistinctSeq(ids: seq<Id>) { forall i, j :: 0 <= i < j < |ids| ==> ids[i] != ids[j] }

  lemma {:induction false} SumSourcesStep(ids: seq<Id>, edges: seq<Edge>, e: Edge)
    requires DistinctSeq(ids)
    ensures SumSources(ids, edges + [e]) == SumSources(ids, edges) + (if e.source in ids then 1 else 0)
  {
    assert (edges + [e])[..|edges|] == edges;
    if ids != [] {
      var front, last := ids[..|ids| - 1], ids[|ids| - 1];
      SumSourcesStep(front, edges, e);
      assert ids == front + [last] && last !in front;
    }
  }

  lemma {:induction false} SumTargetsStep(ids: seq<Id>, edges: seq<Edge>, e: Edge)
    requires DistinctSeq(ids)
    ensures SumTargets(ids, edges + [e]) == SumTargets(ids, edges) + (if e.target in ids then 1 else 0)
  {
    assert (edges + [e])[..|edges|] == edges;
    if ids != [] {
      var front, last := ids[..|ids| - 1], ids[|ids| - 1];
      SumTargetsStep(front, edges, e);
      assert ids == front + [last] && last !in front;
    }
  }

  lemma {:induction false} SumsCountEdges(ids: seq<Id>, edges: seq<Edge>)
    requires DistinctSeq(ids) && forall e :: e in edges ==> e.source in ids && e.target in ids
    ensures SumSources(ids, edges) == |edges| == SumTargets(ids, edges)
  {
    if edges == [] {
      SumsOfNothing(ids);
    } else {
      var front, last := edges[..|edges| - 1], edges[|edges| - 1];
      assert edges == front + [last];
      SumsCountEdges(ids, front);
      SumSourcesStep(ids, front, last);
      SumTargetsStep(ids, front, last);
    }
  }

  lemma {:induction false} SumsOfNothing(ids: seq<Id>)
    ensures SumSources(ids, []) == 0 == SumTargets(ids, [])
  {
    if ids != [] { SumsOfNothing(ids[..|ids| - 1]); }
  }

  function IdsOf(nodes: seq<Node>): (ids: seq<Id>)
    ensures |ids| == |nodes| && forall i :: 0 <= i < |nodes| ==> ids[i] == nodes[i].id
  {
    seq(|nodes|, i requires 0 <= i < |nodes| => nodes[i].id)
  }

  lemma {:induction false} NodeSums(nodes: seq<Node>, edges: seq<Edge>, levels: map<Id, int>, distances: map<Id, nat>,
                                    root: Id)
    requires forall n :: n in nodes ==> DescribesNode(n, edges, levels, distances, root)
    ensures SumOutgoing(nodes) == SumSources(IdsOf(nodes), edges)
    ensures SumIncoming(nodes) == SumTargets(IdsOf(nodes), edges)
    ensures SumDegree(nodes) == SumOutgoing(nodes) + SumIncoming(nodes)
  {
    if nodes != [] {
      var front := nodes[..|nodes| - 1];
      NodeSums(front, edges, levels, distances, root);
      assert IdsOf(nodes)[..|nodes| - 1] == IdsOf(front) && IdsOf(nodes)[|nodes| - 1] == nodes[|nodes| - 1].id;
      assert nodes[|nodes| - 1] in nodes;
    }
  }

  /** A closed graph is balanced. */
  lemma ClosedGraphBalances(nodes: seq<Node>, edges: seq<Edge>, levels: map<Id, int>, distances: map<Id, nat>, root: Id)
    requires DistinctIds(nodes)
    requires forall n :: n in nodes ==> DescribesNode(n, edges, levels, distances, root)
    requires forall e :: e in edges ==> HasNode(nodes, e.source) && HasNode(nodes, e.target)
    ensures SumOutgoing(nodes) == |edges| && SumIncoming(nodes) == |edges| && SumDegree(nodes) == 2 * |edges|
  {
    NodeSums(nodes, edges, levels, distances, root);
    forall id | HasNode(nodes, id) ensures id in IdsOf(nodes) {
      var i :| 0 <= i < |nodes| && nodes[i].id == id;
      assert IdsOf(nodes)[i] == id;
    }
    SumsCountEdges(IdsOf(nodes), edges);
  }

  // ---- The assembly ----

  /** `list` names every member of `s` once, in some order. */
  ghost predicate Lists<T(!new)>(list: seq<T>, s: set<T>) {
    && (forall x :: x in list <==> x in s)
    && forall i, j :: 0 <= i < j < |list| ==> list[i] != list[j]
  }

  lemma EdgesStep(rows: seq<Relationship>, i: nat, allows: Relationship -> bool, visible: set<Id>)
    requires i < |rows|
    ensures var drawn := allows(rows[i]) && rows[i].source in visible && rows[i].target in visible;
            EdgesOf(rows[..i + 1], allows, visible) ==
                if drawn then EdgesOf(rows[..i], allows, visible) + [EdgeOf(rows[i])]
                    else EdgesOf(rows[..i], allows, visible)
  {
    assert rows[..i + 1][..i] == rows[..i];
  }

  /** The first `n` rows have been drawn, counted and marked. */
  ghost predicate EdgesCollected(rows: seq<Relationship>, n: nat,
                                 allows: Relationship -> bool, visible: set<Id>, root: Id,
                                 edges: seq<Edge>, incoming: map<Id, nat>, outgoing: map<Id, nat>, connected: set<Id>)
    requires n <= |rows|
  {
    && edges == EdgesOf(rows[..n], allows, visible)
    && (forall id :: CountOf(outgoing, id) == CountSource(edges, id))
    && (forall id :: CountOf(incoming, id) == CountTarget(edges, id))
    && (forall id :: id in connected <==> Touched(edges, root, id))
    && (forall e :: e in edges ==> e.source in visible && e.target in visible)
  }

  lemma NoEdgesYet(rows: seq<Relationship>, allows: Relationship -> bool, visible: set<Id>, root: Id)
    ensures EdgesCollected(rows, 0, allows, visible, root, [], map[], map[], {root})
  {
    assert rows[..0] == [];
  }

  lemma OneMoreRow(rows: seq<Relationship>, n: nat, allows: Relationship -> bool, visible: set<Id>, root: Id,
                   edges: seq<Edge>, incoming: map<Id, nat>, outgoing: map<Id, nat>, connected: set<Id>)
    requires n < |rows| && EdgesCollected(rows, n, allows, visible, root, edges, incoming, outgoing, connected)
    ensures var row := rows[n];
            if allows(row) && row.source in visible && row.target in visible then
              EdgesCollected(rows, n + 1, allows, visible, root, edges + [EdgeOf(row)],
                             incoming[row.target := CountOf(incoming, row.target) + 1],
                             outgoing[row.source := CountOf(outgoing, row.source) + 1],
                             connected + {row.source, row.target})
            else EdgesCollected(rows, n + 1, allows, visible, root, edges, incoming, outgoing, connected)
  {
    hide *;
    var row := rows[n];
    var e := EdgeOf(row);
    EdgeEnds(row);
    EdgesStep(rows, n, allows, visible);
    CollectedParts(rows, n, allows, visible, root, edges, incoming, outgoing, connected);
    if allows(row) && row.source in visible && row.target in visible {
      SourcesCounted(edges, e, outgoing);
      TargetsCounted(edges, e, incoming);
      EndsTouched(edges, e, root, connected);
      CollectedFromParts(rows, n + 1, allows, visible, root, edges + [e],
                         incoming[row.target := CountOf(incoming, row.target) + 1],
                         outgoing[row.source := CountOf(outgoing, row.source) + 1],
                         connected + {row.source, row.target});
    } else {
      CollectedFromParts(rows, n + 1, allows, visible, root, edges, incoming, outgoing, connected);
    }
  }

  lemma EdgeEnds(r: Relationship)
    ensures EdgeOf(r).source == r.source && EdgeOf(r).target == r.target
  {}

  ghost predicate SourcesAre(counts: map<Id, nat>, edges: seq<Edge>) {
    forall id :: CountOf(counts, id) == CountSource(edges, id)
  }

  ghost predicate TargetsAre(counts: map<Id, nat>, edges: seq<Edge>) {
    forall id :: CountOf(counts, id) == CountTarget(edges, id)
  }

  ghost predicate TouchedAre(connected: set<Id>, edges: seq<Edge>, root: Id) {
    forall id :: id in connected <==> Touched(edges, root, id)
  }

  lemma SourcesCounted(edges: seq<Edge>, e: Edge, counts: map<Id, nat>)
    requires SourcesAre(counts, edges)
    ensures SourcesAre(counts[e.source := CountOf(counts, e.source) + 1], edges + [e])
  {
    OneMoreEdge(edges, e, e.source);
    OneMoreCount(counts, e.source);
    hide CountOf, CountSource;
  }

  lemma TargetsCounted(edges: seq<Edge>, e: Edge, counts: map<Id, nat>)
    requires TargetsAre(counts, edges)
    ensures TargetsAre(counts[e.target := CountOf(counts, e.target) + 1], edges + [e])
  {
    OneMoreEdge(edges, e, e.source);
    OneMoreCount(counts, e.target);
    hide CountOf, CountTarget;
  }

  lemma EndsTouched(edges: seq<Edge>, e: Edge, root: Id, connected: set<Id>)
    requires TouchedAre(connected, edges, root)
    ensures TouchedAre(connected + {e.source, e.target}, edges + [e], root)
  {
    OneMoreEdge(edges, e, root);
    hide Touched;
  }

  lemma CollectedParts(rows: seq<Relationship>, n: nat, allows: Relationship -> bool, visible: set<Id>, root: Id,
                       edges: seq<Edge>, incoming: map<Id, nat>, outgoing: map<Id, nat>, connected: set<Id>)
    requires n <= |rows| && EdgesCollected(rows, n, allows, visible, root, edges, incoming, outgoing, connected)
    ensures edges == EdgesOf(rows[..n], allows, visible)
    ensures SourcesAre(outgoing, edges) && TargetsAre(incoming, edges) && TouchedAre(connected, edges, root)
    ensures forall e :: e in edges ==> e.source in visible && e.target in visible
  {
    hide EdgesOf, CountOf, CountSource, CountTarget, Touched;
  }

  lemma CollectedFromParts(rows: seq<Relationship>, n: nat, allows: Relationship -> bool, visible: set<Id>, root: Id,
                           edges: seq<Edge>, incoming: map<Id, nat>, outgoing: map<Id, nat>, connected: set<Id>)
    requires n <= |rows| && edges == EdgesOf(rows[..n], allows, visible)
    requires SourcesAre(outgoing, edges) && TargetsAre(incoming, edges) && TouchedAre(connected, edges, root)
    requires forall e :: e in edges ==> e.source in visible && e.target in visible
    ensures EdgesCollected(rows, n, allows, visible, root, edges, incoming, outgoing, connected)
  {
    hide EdgesOf, CountOf, CountSource, CountTarget, Touched;
  }

  lemma AllRowsCollected(rows: seq<Relationship>, allows: Relationship -> bool, visible: set<Id>, root: Id,
                         edges: seq<Edge>, incoming: map<Id, nat>, outgoing: map<Id, nat>, connected: set<Id>)
    requires EdgesCollected(rows, |rows|, allows, visible, root, edges, incoming, outgoing, connected)
    ensures edges == EdgesOf(rows, allows, visible)
    ensures forall id :: CountOf(outgoing, id) == CountSource(edges, id)
              && CountOf(incoming, id) == CountTarget(edges, id)
    ensures forall id :: id in connected <==> Touched(edges, root, id)
    ensures forall e :: e in edges ==> e.source in visible && e.target in visible
  {
    assert rows[..|rows|] == rows;
  }

  lemma OneMoreCount(counts: map<Id, nat>, key: Id)
    ensures forall id :: CountOf(counts[key := CountOf(counts, key) + 1], id) ==
              CountOf(counts, id) + (if id == key then 1 else 0)
  {}

  lemma OneMoreEdge(edges: seq<Edge>, e: Edge, root: Id)
    ensures forall id :: CountSource(edges + [e], id) == CountSource(edges, id) + (if e.source == id then 1 else 0)
    ensures forall id :: CountTarget(edges + [e], id) == CountTarget(edges, id) + (if e.target == id then 1 else 0)
    ensures forall id :: Touched(edges + [e], root, id) <==>
              Touched(edges, root, id) || id == e.source || id == e.target
  {
    assert (edges + [e])[..|edges|] == edges && (edges + [e])[|edges|] == e;
  }

  method CollectEdges(rows: seq<Relationship>, allows: Relationship -> bool, visible: map<Id, Entity>, root: Id)
      returns (edges: seq<Edge>, incoming: map<Id, nat>, outgoing: map<Id, nat>, connected: set<Id>)
    ensures edges == EdgesOf(rows, allows, visible.Keys)
    ensures forall id :: CountOf(outgoing, id) == CountSource(edges, id)
              && CountOf(incoming, id) == CountTarget(edges, id)
    ensures forall id :: id in connected <==> Touched(edges, root, id)
    ensures forall e :: e in edges ==> e.source in visible && e.target in visible
  {
    edges, incoming, outgoing, connected := [], map[], map[], {root};
    hide *;
    NoEdgesYet(rows, allows, visible.Keys, root);
    for i := 0 to |rows|
      invariant EdgesCollected(rows, i, allows, visible.Keys, root, edges, incoming, outgoing, connected)
    {
      var row := rows[i];
      OneMoreRow(rows, i, allows, visible.Keys, root, edges, incoming, outgoing, connected);
      if !allows(row) || row.source !in visible || row.target !in visible {
        continue;
      }
      edges := edges + [EdgeOf(row)];
      outgoing := outgoing[row.source := CountOf(outgoing, row.source) + 1];
      incoming := incoming[row.target := CountOf(incoming, row.target) + 1];
      connected := connected + {row.source, row.target};
    }
    AllRowsCollected(rows, allows, visible.Keys, root, edges, incoming, outgoing, connected);
  }

  method CollectNodes(ids: seq<Id>, visible: map<Id, Entity>, connected: set<Id>, edges: seq<Edge>,
                      incoming: map<Id, nat>, outgoing: map<Id, nat>,
                      levels: map<Id, int>, distances: map<Id, nat>, root: Id)
      returns (nodes: seq<Node>, minLevel: int, maxLevel: int)
    requires Lists(ids, visible.Keys) && forall id :: id in visible ==> visible[id].id == id
    requires forall id :: CountOf(outgoing, id) == CountSource(edges, id)
               && CountOf(incoming, id) == CountTarget(edges, id)
    ensures DistinctIds(nodes) && forall n :: n in nodes ==> DescribesNode(n, edges, levels, distances, root)
    ensures forall id :: HasNode(nodes, id) <==> id in visible && id in connected
    ensures NamedByVisible(nodes, visible)
    ensures nodes == [] ==> minLevel == 0 && maxLevel == 0
    ensures nodes != [] ==> LevelBounds(nodes, minLevel, maxLevel)
  {
    nodes, minLevel, maxLevel := [], 0, 0;
    hide *;
    NoNodesYet(ids, visible, connected, edges, levels, distances, root);
    for i := 0 to |ids|
      invariant NodesCollected(ids, i, visible, connected, edges, levels, distances, root, nodes, minLevel, maxLevel)
    {
      var id := ids[i];
      OneMoreId(ids, i, visible, connected, edges, incoming, outgoing, levels, distances, root, nodes, minLevel,
                maxLevel);
      if id !in connected {
        continue;
      }
      var row, level := visible[id], LevelOf(levels, id);
      if |nodes| == 0 || level < minLevel {
        minLevel := level;
      }
      if |nodes| == 0 || level > maxLevel {
        maxLevel := level;
      }
      nodes := nodes + [Node(row.id, row.name, level, DistanceOf(distances, id),
                             CountOf(incoming, id) + CountOf(outgoing, id),
                             CountOf(incoming, id), CountOf(outgoing, id), id == root)];
    }
    AllNodesCollected(ids, visible, connected, edges, levels, distances, root, nodes, minLevel, maxLevel);
  }

  predicate NamedByVisible(nodes: seq<Node>, visible: map<Id, Entity>) {
    forall n :: n in nodes ==> n.id in visible && n.name == visible[n.id].name
  }

  /** The connected ones of the first `n` visible entities are nodes, and the bounds are theirs. */
  ghost predicate NodesCollected(ids: seq<Id>, n: nat, visible: map<Id, Entity>, connected: set<Id>, edges: seq<Edge>,
                                 levels: map<Id, int>,
                                 distances: map<Id, nat>, root: Id, nodes: seq<Node>, minLevel: int, maxLevel: int)
  {
    && n <= |ids|
    && DistinctIds(nodes) && (forall node :: node in nodes ==> DescribesNode(node, edges, levels, distances, root))
    && (forall id :: HasNode(nodes, id) <==> id in ids[..n] && id in connected)
    && NamedByVisible(nodes, visible)
    && (nodes == [] ==> minLevel == 0 && maxLevel == 0)
    && (nodes != [] ==> LevelBounds(nodes, minLevel, maxLevel))
  }

  lemma NoNodesYet(ids: seq<Id>, visible: map<Id, Entity>, connected: set<Id>, edges: seq<Edge>, levels: map<Id, int>,
                   distances: map<Id, nat>, root: Id)
    ensures NodesCollected(ids, 0, visible, connected, edges, levels, distances, root, [], 0, 0)
  {
    assert ids[..0] == [];
  }

  lemma OneMoreId(ids: seq<Id>, n: nat, visible: map<Id, Entity>, connected: set<Id>, edges: seq<Edge>,
                  incoming: map<Id, nat>, outgoing: map<Id, nat>,
                  levels: map<Id, int>, distances: map<Id, nat>, root: Id, nodes: seq<Node>, minLevel: int,
                      maxLevel: int)
    requires Lists(ids, visible.Keys) && forall id :: id in visible ==> visible[id].id == id
    requires forall id :: CountOf(outgoing, id) == CountSource(edges, id)
               && CountOf(incoming, id) == CountTarget(edges, id)
    requires n < |ids| && NodesCollected(ids, n, visible, connected, edges, levels, distances, root, nodes, minLevel,
                                         maxLevel)
    ensures ids[n] in visible
    ensures var id := ids[n];
            if id !in connected then NodesCollected(ids, n + 1, visible, connected, edges, levels, distances, root,
                                                    nodes, minLevel, maxLevel)
            else
              var level := LevelOf(levels, id);
              var node := Node(visible[id].id, visible[id].name, level, DistanceOf(distances, id),
                               CountOf(incoming, id) + CountOf(outgoing, id),
                               CountOf(incoming, id), CountOf(outgoing, id), id == root);
              NodesCollected(ids, n + 1, visible, connected, edges, levels, distances, root, nodes + [node],
                             if |nodes| == 0 || level < minLevel then level else minLevel,
                             if |nodes| == 0 || level > maxLevel then level else maxLevel)
  {
    hide *;
    var id := ids[n];
    NextId(ids, visible.Keys, n);
    NodeSkipped(ids, n, visible, connected, edges, levels, distances, root, nodes, minLevel, maxLevel);
    if id in connected {
      var node := Node(visible[id].id, visible[id].name, LevelOf(levels, id), DistanceOf(distances, id),
                       CountOf(incoming, id) + CountOf(outgoing, id),
                       CountOf(incoming, id), CountOf(outgoing, id), id == root);
      DescribedByCounts(node, edges, incoming, outgoing, levels, distances, root);
      NodeAdded(ids, n, visible, connected, edges, levels, distances, root, nodes, minLevel, maxLevel, node);
    }
  }

  lemma NodeSkipped(ids: seq<Id>, n: nat, visible: map<Id, Entity>, connected: set<Id>, edges: seq<Edge>,
                    levels: map<Id, int>, distances: map<Id, nat>, root: Id, nodes: seq<Node>, minLevel: int,
                        maxLevel: int)
    requires n < |ids| && NodesCollected(ids, n, visible, connected, edges, levels, distances, root, nodes, minLevel,
                                         maxLevel)
    requires forall id :: id in ids[..n + 1] <==> id in ids[..n] || id == ids[n]
    ensures ids[n] !in connected ==>
              NodesCollected(ids, n + 1, visible, connected, edges, levels, distances, root, nodes, minLevel, maxLevel)
  {
    hide HasNode, DistinctIds, DescribesNode, LevelBounds;
  }

  lemma NodeAdded(ids: seq<Id>, n: nat, visible: map<Id, Entity>, connected: set<Id>, edges: seq<Edge>,
                  levels: map<Id, int>, distances: map<Id, nat>, root: Id, nodes: seq<Node>, minLevel: int,
                      maxLevel: int, node: Node)
    requires n < |ids| && NodesCollected(ids, n, visible, connected, edges, levels, distances, root, nodes, minLevel,
                                         maxLevel)
    requires ids[n] !in ids[..n] && forall id :: id in ids[..n + 1] <==> id in ids[..n] || id == ids[n]
    requires node.id == ids[n] && node.id in connected && DescribesNode(node, edges, levels, distances, root)
    requires node.id in visible && node.name == visible[node.id].name
    ensures NodesCollected(ids, n + 1, visible, connected, edges, levels, distances, root, nodes + [node],
                           if |nodes| == 0 || node.level < minLevel then node.level else minLevel,
                           if |nodes| == 0 || node.level > maxLevel then node.level else maxLevel)
  {
    hide HasNode, DistinctIds, DescribesNode, LevelBounds;
    AddNode(nodes, node, minLevel, maxLevel);
  }

  lemma NextId(ids: seq<Id>, visible: set<Id>, n: nat)
    requires Lists(ids, visible) && n < |ids|
    ensures ids[n] in visible && ids[n] !in ids[..n]
    ensures forall id :: id in ids[..n + 1] <==> id in ids[..n] || id == ids[n]
  {
    assert ids[..n + 1] == ids[..n] + [ids[n]];
  }

  lemma DescribedByCounts(node: Node, edges: seq<Edge>, incoming: map<Id, nat>, outgoing: map<Id, nat>,
                          levels: map<Id, int>, distances: map<Id, nat>, root: Id)
    requires CountOf(outgoing, node.id) == CountSource(edges, node.id)
               && CountOf(incoming, node.id) == CountTarget(edges, node.id)
    requires node.level == LevelOf(levels, node.id) && node.distance == DistanceOf(distances, node.id)
               && (node.selected <==> node.id == root)
    requires node.incoming == CountOf(incoming, node.id) && node.outgoing == CountOf(outgoing, node.id)
               && node.degree == node.incoming + node.outgoing
    ensures DescribesNode(node, edges, levels, distances, root)
  {
    hide CountOf, CountSource, CountTarget;
  }

  lemma AllNodesCollected(ids: seq<Id>, visible: map<Id, Entity>, connected: set<Id>, edges: seq<Edge>,
                          levels: map<Id, int>,
                          distances: map<Id, nat>, root: Id, nodes: seq<Node>, minLevel: int, maxLevel: int)
    requires Lists(ids, visible.Keys) && NodesCollected(ids, |ids|, visible, connected, edges, levels, distances, root,
                                                        nodes, minLevel, maxLevel)
    ensures DistinctIds(nodes) && forall n :: n in nodes ==> DescribesNode(n, edges, levels, distances, root)
    ensures forall id :: HasNode(nodes, id) <==> id in visible && id in connected
    ensures NamedByVisible(nodes, visible)
    ensures nodes == [] ==> minLevel == 0 && maxLevel == 0
    ensures nodes != [] ==> LevelBounds(nodes, minLevel, maxLevel)
  {
    assert ids[..|ids|] == ids;
    hide LevelBounds, DistinctIds, DescribesNode;
  }

  /** The bounds are reached and no node lies outside them. */
  predicate LevelBounds(nodes: seq<Node>, minLevel: int, maxLevel: int) {
    && (forall n :: n in nodes ==> minLevel <= n.level <= maxLevel)
    && (exists n :: n in nodes && n.level == minLevel)
    && (exists n :: n in nodes && n.level == maxLevel)
  }

  lemma AddNode(nodes: seq<Node>, node: Node, minLevel: int, maxLevel: int)
    requires nodes != [] ==> LevelBounds(nodes, minLevel, maxLevel)
    ensures LevelBounds(nodes + [node],
                        if nodes == [] || node.level < minLevel then node.level else minLevel,
                        if nodes == [] || node.level > maxLevel then node.level else maxLevel)
    ensures forall id :: HasNode(nodes + [node], id) <==> HasNode(nodes, id) || id == node.id
    ensures DistinctIds(nodes) && !HasNode(nodes, node.id) ==> DistinctIds(nodes + [node])
  {
    var all := nodes + [node];
    assert all[|nodes|] == node;
    forall n | n in nodes ensures n in all {}
    forall i | 0 <= i < |nodes| ensures nodes[i] in nodes {}
  }

  /** What the finished map promises about itself. */
  ghost predicate WellFormed(g: Graph, levels: map<Id, int>, distances: map<Id, nat>) {
    && DistinctIds(g.nodes)
    && HasNode(g.nodes, g.center)
    && (forall n :: n in g.nodes ==>
        DescribesNode(n, g.edges, levels, distances, g.center) && Touched(g.edges, g.center, n.id))
    && (forall e :: e in g.edges ==> HasNode(g.nodes, e.source) && HasNode(g.nodes, e.target))
    && SumOutgoing(g.nodes) == |g.edges| && SumIncoming(g.nodes) == |g.edges| && SumDegree(g.nodes) == 2 * |g.edges|
    && LevelBounds(g.nodes, g.minLevel, g.maxLevel)
    && (exists c, f ::
          && IsCeiling(g.nodes, c) && c.id == g.ceiling && c.level == g.minLevel
          && IsFloor(g.nodes, f) && f.id == g.floor && f.level == g.maxLevel)
  }

  lemma TethersAreBounds(nodes: seq<Node>, minLevel: int, maxLevel: int, ceiling: Id, floor: Id)
    requires LevelBounds(nodes, minLevel, maxLevel)
    requires exists c, f :: IsCeiling(nodes, c) && c.id == ceiling && IsFloor(nodes, f) && f.id == floor
    ensures exists c, f ::
              && IsCeiling(nodes, c) && c.id == ceiling && c.level == minLevel
              && IsFloor(nodes, f) && f.id == floor && f.level == maxLevel
  {
    hide LeadsItsLevel;
    var c, f :| IsCeiling(nodes, c) && c.id == ceiling && IsFloor(nodes, f) && f.id == floor;
    assert c.level == minLevel && f.level == maxLevel;
  }

  /** The visible entities: the rows the reader may see, by id. */
  method CollectVisible(entityRows: seq<Entity>, allows: Entity -> bool) returns (visible: map<Id, Entity>)
    ensures forall id :: id in visible ==> visible[id] in entityRows && allows(visible[id]) && visible[id].id == id
    ensures forall row :: row in entityRows && allows(row) ==> row.id in visible
  {
    visible := map[];
    for i := 0 to |entityRows|
      invariant forall id :: id in visible ==> visible[id] in entityRows && allows(visible[id]) && visible[id].id == id
      invariant forall k :: 0 <= k < i && allows(entityRows[k]) ==> entityRows[k].id in visible
    {
      if !allows(entityRows[i]) {
        continue;
      }
      visible := visible[entityRows[i].id := entityRows[i]];
    }
  }

  /** Some row of that id may be seen. */
  predicate Visible(rows: seq<Entity>, allows: Entity -> bool, id: Id) {
    exists i :: 0 <= i < |rows| && allows(rows[i]) && rows[i].id == id
  }

  /**
   * The edges are the readable ones between visible entities, the nodes the
   * visible entities they touch, and the centre.
   */
  ghost predicate ShowsVisible(g: Graph, visible: set<Id>, rows: seq<Entity>, allowsEntity: Entity -> bool,
                               list: seq<Relationship>, allowsRelationship: Relationship -> bool) {
    && (forall id :: id in visible <==> Visible(rows, allowsEntity, id))
    && g.edges == EdgesOf(list, allowsRelationship, visible)
    && (forall id :: HasNode(g.nodes, id) <==> id in visible && Touched(g.edges, g.center, id))
    && NamedByRows(g.nodes, rows, allowsEntity)
  }

  /** Every node has the name of a readable entity with its id. */
  ghost predicate NamedByRows(nodes: seq<Node>, rows: seq<Entity>, allows: Entity -> bool) {
    forall n :: n in nodes ==> exists row :: row in rows && allows(row) && row.id == n.id && row.name == n.name
  }

  method AssembleGraph(root: Id, maxDepth: nat, entityRows: seq<Entity>, allowsEntity: Entity -> bool,
                       byId: map<string, Relationship>, allowsRelationship: Relationship -> bool,
                       levels: map<Id, int>, distances: map<Id, nat>,
                       sortRelationships: set<Relationship> -> seq<Relationship>, sortIds: set<Id> -> seq<Id>)
      returns (r: Result<Graph, GraphError>)
    requires forall s :: Lists(sortRelationships(s), s)
    requires forall s :: Lists(sortIds(s), s)
    ensures r.Err? ==> r == Err(Forbidden)
    ensures r.Err? <==> !Visible(entityRows, allowsEntity, root)
    ensures r.Ok? ==> r.value.center == root && r.value.depth == maxDepth && WellFormed(r.value, levels, distances)
    ensures r.Ok? ==> exists visible ::
              ShowsVisible(r.value, visible, entityRows, allowsEntity, sortRelationships(byId.Values),
                           allowsRelationship)
  {
    var visible := CollectVisible(entityRows, allowsEntity);
    if root !in visible {
      return Err(Forbidden);
    }
    var edges, incoming, outgoing, connected := CollectEdges(sortRelationships(byId.Values), allowsRelationship,
                                                             visible, root);
    var nodes, minLevel, maxLevel := CollectNodes(sortIds(visible.Keys), visible, connected, edges, incoming, outgoing,
                                                  levels, distances, root);
    assert Touched(edges, root, root);
    assert HasNode(nodes, root);
    ClosedGraphBalances(nodes, edges, levels, distances, root);
    var ceiling, floor := SelectTethers(nodes);
    TethersAreBounds(nodes, minLevel, maxLevel, ceiling, floor);
    r := Ok(Graph(root, maxDepth, minLevel, maxLevel, ceiling, floor, nodes, edges));
    assert forall id :: id in visible.Keys <==> Visible(entityRows, allowsEntity, id);
    assert ShowsVisible(r.value, visible.Keys, entityRows, allowsEntity, sortRelationships(byId.Values),
                        allowsRelationship);
  }

  // ---- Search and assembly together ----

  /** The database answers an entity query with rows of the asked ids only. */
  ghost predicate AnswersEntities(query: set<Id> -> seq<Entity>) {
    forall ids, row :: row in query(ids) ==> row.id in ids
  }

  /** Levels and distances come from an exact search, and every node drawn was reached by it. */
  ghost predicate DrawnFromSearch(g: Graph, table: set<Relationship>, levels: map<Id, int>, distances: map<Id, nat>) {
    && DistancesExact(table, g.center, g.depth, distances)
    && LevelsBest(table, g.center, distances, levels)
    && WellFormed(g, levels, distances)
    && forall n :: n in g.nodes ==> n.id in distances && n.distance == distances[n.id] && n.level == levels[n.id]
  }

  /** The reached ids that the database is asked for. */
  function Reached(distances: map<Id, nat>): set<Id> { set id | id in distances && !Blank(id) }

  /**
   * A relationship is drawn exactly when it may be read, both its ends are
   * visible and one of them is nearer than the depth; an entity is drawn
   * exactly when it is visible and is the centre or an end of a drawn edge.
   */
  ghost predicate DrawsExactly(g: Graph, table: set<Relationship>, distances: map<Id, nat>, rows: seq<Entity>,
                               allowsEntity: Entity -> bool, allowsRelationship: Relationship -> bool) {
    && (forall r :: r in table ==>
          (EdgeOf(r) in g.edges <==>
             && allowsRelationship(r) && Visible(rows, allowsEntity, r.source) && Visible(rows, allowsEntity, r.target)
             && (Expanded(distances, g.depth, r.source) || Expanded(distances, g.depth, r.target))))
    && (forall e :: e in g.edges ==> exists r :: r in table && Shows(e, r))
    && (forall id :: HasNode(g.nodes, id) <==> Visible(rows, allowsEntity, id) && Touched(g.edges, g.center, id))
    && NamedByRows(g.nodes, rows, allowsEntity)
  }

  lemma {:induction false} EdgesOfMembers(rows: seq<Relationship>, allows: Relationship -> bool, visible: set<Id>)
    ensures forall e :: e in EdgesOf(rows, allows, visible) <==>
              exists r :: r in rows && e == EdgeOf(r) && allows(r) && r.source in visible && r.target in visible
  {
    if rows != [] {
      var front, last := rows[..|rows| - 1], rows[|rows| - 1];
      EdgesOfMembers(front, allows, visible);
      assert rows == front + [last];
    }
  }

  lemma DrawnExactly(g: Graph, table: set<Relationship>, distances: map<Id, nat>, byId: map<string, Relationship>,
                     list: seq<Relationship>,
                     visible: set<Id>, rows: seq<Entity>, allowsEntity: Entity -> bool,
                         allowsRelationship: Relationship -> bool)
    requires UniqueIds(table) && CollectedExactly(table, distances, g.depth, byId) && Lists(list, byId.Values)
    requires ShowsVisible(g, visible, rows, allowsEntity, list, allowsRelationship)
    ensures DrawsExactly(g, table, distances, rows, allowsEntity, allowsRelationship)
  {
    hide Expanded, Visible, Touched, HasNode;
    EdgesOfMembers(list, allowsRelationship, visible);
    forall r ensures r in list <==>
        r in table && (Expanded(distances, g.depth, r.source) || Expanded(distances, g.depth, r.target)) {
      if r in list {
        var id :| id in byId && byId[id] == r;
      }
      if r in table && r.id in byId {
        assert byId[r.id] == r && r in byId.Values;
      }
    }
    forall r | r in table && EdgeOf(r) in g.edges ensures r in list {
      var other :| other in list && EdgeOf(other) == EdgeOf(r);
      assert other.id == r.id;
    }
  }

  method LoadRelationshipMapGraph(root: Id, maxDepth: nat, findEntity: Id -> Option<Entity>,
                                  relationshipQuery: set<Id> -> seq<Relationship>, entityQuery: set<Id> -> seq<Entity>,
                                  allowsEntity: Entity -> bool, allowsRelationship: Relationship -> bool,
                                  sortRelationships: set<Relationship> -> seq<Relationship>,
                                      sortIds: set<Id> -> seq<Id>,
                                  ghost table: set<Relationship>)
      returns (r: Result<Graph, GraphError>)
    requires UniqueIds(table) && AnswersQuery(table, relationshipQuery) && AnswersEntities(entityQuery)
    requires forall s :: Lists(sortRelationships(s), s)
    requires forall s :: Lists(sortIds(s), s)
    ensures r == Err(NotFound) <==> findEntity(root).None?
    ensures r == Err(Forbidden) <==>
              findEntity(root).Some? && !(allowsEntity(findEntity(root).value)
                                          && ReachedAndVisible(table, root, maxDepth, entityQuery, allowsEntity))
    ensures r.Ok? ==> r.value.center == root && r.value.depth == maxDepth
    ensures r.Ok? ==> exists levels, distances ::
              && DrawnFromSearch(r.value, table, levels, distances)
              && DrawsExactly(r.value, table, distances, entityQuery(Reached(distances)), allowsEntity,
                              allowsRelationship)
  {
    var found := findEntity(root);
    if found.None? {
      return Err(NotFound);
    }
    if !allowsEntity(found.value) {
      return Err(Forbidden);
    }
    hide *;
    var search := new RelationshipMapSearch(root);
    search.Search(root, maxDepth, relationshipQuery, table);
    var asked := set id | id in search.discovered && !Blank(id);
    AskedAreReached(search.distances, search.discovered);
    ReachedAndVisibleIff(table, root, maxDepth, entityQuery, allowsEntity, search.distances);
    var entityRows := entityQuery(asked);
    r := AssembleGraph(root, maxDepth, entityRows, allowsEntity, search.relationshipsById, allowsRelationship,
                       search.levels, search.distances, sortRelationships, sortIds);
    if r.Ok? {
      GraphFromSearch(r.value, table, entityQuery, allowsEntity, search.relationshipsById, allowsRelationship,
                      search.levels, search.distances, sortRelationships(search.relationshipsById.Values));
    }
  }

  /** The centre is among the entities that the search asks for and the reader may see. */
  ghost predicate ReachedAndVisible(table: set<Relationship>, root: Id, maxDepth: nat,
                                    entityQuery: set<Id> -> seq<Entity>, allowsEntity: Entity -> bool) {
    exists distances ::
      DistancesExact(table, root, maxDepth, distances) && Visible(entityQuery(Reached(distances)), allowsEntity, root)
  }

  lemma ReachedAndVisibleIff(table: set<Relationship>, root: Id, maxDepth: nat, entityQuery: set<Id> -> seq<Entity>,
                             allowsEntity: Entity -> bool, distances: map<Id, nat>)
    requires DistancesExact(table, root, maxDepth, distances)
    ensures ReachedAndVisible(table, root, maxDepth, entityQuery, allowsEntity) <==>
              Visible(entityQuery(Reached(distances)), allowsEntity, root)
  {
    hide DistancesExact, Visible, Reached;
    if ReachedAndVisible(table, root, maxDepth, entityQuery, allowsEntity) {
      var other :| DistancesExact(table, root, maxDepth, other)
          && Visible(entityQuery(Reached(other)), allowsEntity, root);
      DistancesUnique(table, root, maxDepth, distances, other);
    }
  }

  lemma AskedAreReached(distances: map<Id, nat>, discovered: set<Id>)
    requires DiscoveredExactly(distances, discovered)
    ensures (set id | id in discovered && !Blank(id)) == Reached(distances)
  {
    hide Blank;
  }

  lemma GraphFromSearch(g: Graph, table: set<Relationship>,
                        entityQuery: set<Id> -> seq<Entity>, allowsEntity: Entity -> bool,
                        byId: map<string, Relationship>, allowsRelationship: Relationship -> bool, levels: map<Id,
                            int>, distances: map<Id, nat>,
                        list: seq<Relationship>)
    requires UniqueIds(table) && AnswersEntities(entityQuery) && Lists(list, byId.Values)
    requires DistancesExact(table, g.center, g.depth, distances) && LevelsBest(table, g.center, distances, levels)
    requires CollectedExactly(table, distances, g.depth, byId) && WellFormed(g, levels, distances)
    requires exists visible :: ShowsVisible(g, visible, entityQuery(Reached(distances)), allowsEntity, list,
                                            allowsRelationship)
    ensures DrawnFromSearch(g, table, levels, distances)
    ensures DrawsExactly(g, table, distances, entityQuery(Reached(distances)), allowsEntity, allowsRelationship)
  {
    hide *;
    var visible :| ShowsVisible(g, visible, entityQuery(Reached(distances)), allowsEntity, list, allowsRelationship);
    NodesAreReached(g, visible, entityQuery, allowsEntity, list, allowsRelationship, levels, distances);
    NodesFromSearch(g, table, levels, distances);
    DrawnExactly(g, table, distances, byId, list, visible, entityQuery(Reached(distances)), allowsEntity,
                 allowsRelationship);
  }

  lemma NodesAreReached(g: Graph, visible: set<Id>, entityQuery: set<Id> -> seq<Entity>, allowsEntity: Entity -> bool,
                        list: seq<Relationship>, allowsRelationship: Relationship -> bool, levels: map<Id, int>,
                            distances: map<Id, nat>)
    requires AnswersEntities(entityQuery) && WellFormed(g, levels, distances)
    requires ShowsVisible(g, visible, entityQuery(Reached(distances)), allowsEntity, list, allowsRelationship)
    ensures forall n :: n in g.nodes ==> n.id in distances
  {
    hide Touched, EdgesOf, WellFormed;
    var rows := entityQuery(Reached(distances));
    forall n | n in g.nodes ensures n.id in distances {
      assert HasNode(g.nodes, n.id);
      assert Visible(rows, allowsEntity, n.id);
      var i :| 0 <= i < |rows| && allowsEntity(rows[i]) && rows[i].id == n.id;
      assert rows[i] in rows;
    }
  }

  lemma NodesFromSearch(g: Graph, table: set<Relationship>, levels: map<Id, int>, distances: map<Id, nat>)
    requires DistancesExact(table, g.center, g.depth, distances) && LevelsBest(table, g.center, distances, levels)
               && WellFormed(g, levels, distances)
    requires forall n :: n in g.nodes ==> n.id in distances
    ensures DrawnFromSearch(g, table, levels, distances)
  {
    hide DistancesExact, HasBestLevel, DistinctIds, Touched, CountSource, CountTarget, HasNode, SumOutgoing,
         SumIncoming, SumDegree;
  }
}
