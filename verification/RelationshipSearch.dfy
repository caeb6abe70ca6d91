/** Layered breadth-first search behind the relationship map (cmd/server/map_view.go). */
module RelationshipSearch {
  import opened Text

  type Id = string

  datatype Relationship = Relationship(id: string, source: Id, target: Id, relationshipType: string, status: string,
                                       description: string)

  predicate Blank(id: Id) { TrimSpace(id) == "" }

  // ---- Which of two levels is preferred ----

  function Abs(n: int): (r: int)
    ensures 0 <= r && (r == n || r == -n)
  {
    if n < 0 then -n else n
  }

  /** True when `candidate` replaces `existing`: nearer to the centre, then above it. */
  predicate PreferLevel(existing: int, candidate: int) {
    if Abs(candidate) != Abs(existing) then Abs(candidate) < Abs(existing)
    else if candidate == existing then false
    else candidate < existing
  }

  /** "smaller absolute value, then smaller value" is a strict total order. */
  lemma PreferLevelIsStrictTotalOrder(a: int, b: int, c: int)
    ensures !PreferLevel(a, a)
    ensures PreferLevel(a, b) && PreferLevel(b, c) ==> PreferLevel(a, c)
    ensures a != b ==> (PreferLevel(a, b) <==> !PreferLevel(b, a))
    ensures PreferLevel(a, b) <==> Abs(b) < Abs(a) || (Abs(b) == Abs(a) && b < a)
  {}

  // ---- Undirected distance ----

  predicate Joins(r: Relationship, a: Id, b: Id) {
    (r.source == a && r.target == b) || (r.source == b && r.target == a)
  }

  ghost predicate Adjacent(table: set<Relationship>, a: Id, b: Id) {
    !Blank(a) && !Blank(b) && exists r :: r in table && Joins(r, a, b)
  }

  ghost predicate IsWalk(table: set<Relationship>, root: Id, x: Id, w: seq<Id>) {
    && |w| > 0
    && w[0] == root
    && w[|w| - 1] == x
    && forall i :: 0 <= i < |w| - 1 ==> Adjacent(table, w[i], w[i + 1])
  }

  /** `x` is at most `d` undirected steps from `root`. */
  ghost predicate Within(table: set<Relationship>, root: Id, x: Id, d: nat)
    decreases d
  {
    if d == 0 then x == root
    else Within(table, root, x, d - 1) || exists y :: Within(table, root, y, d - 1) && Adjacent(table, y, x)
  }

  lemma {:induction false} WithinFromWalk(table: set<Relationship>, root: Id, x: Id, w: seq<Id>)
    requires IsWalk(table, root, x, w)
    ensures Within(table, root, x, |w| - 1)
    decreases |w|
  {
    if |w| > 1 {
      WithinFromWalk(table, root, w[|w| - 2], w[..|w| - 1]);
      assert Adjacent(table, w[|w| - 2], x);
    }
  }

  lemma {:induction false} WalkFromWithin(table: set<Relationship>, root: Id, x: Id, d: nat) returns (w: seq<Id>)
    requires Within(table, root, x, d)
    ensures IsWalk(table, root, x, w) && |w| <= d + 1
    decreases d
  {
    if d == 0 {
      w := [root];
    } else if Within(table, root, x, d - 1) {
      w := WalkFromWithin(table, root, x, d - 1);
    } else {
      var y :| Within(table, root, y, d - 1) && Adjacent(table, y, x);
      var v := WalkFromWithin(table, root, y, d - 1);
      w := v + [x];
    }
  }

  lemma {:induction false} WithinMonotone(table: set<Relationship>, root: Id, x: Id, d: nat, e: nat)
    requires d <= e && Within(table, root, x, d)
    ensures Within(table, root, x, e)
    decreases e
  {
    if d < e {
      WithinMonotone(table, root, x, d, e - 1);
    }
  }

  /** `d` is the length of a shortest walk from `root` to `x`. */
  ghost predicate IsDistance(table: set<Relationship>, root: Id, x: Id, d: nat) {
    Within(table, root, x, d) && (d > 0 ==> !Within(table, root, x, d - 1))
  }

  // ---- What the search must deliver ----

  /** The level `l` that relationship `r` gives `x` from a neighbour one layer nearer the root. */
  predicate GivesLevel(distances: map<Id, nat>, levels: map<Id, int>, r: Relationship, x: Id, l: int)
    requires x in distances && levels.Keys == distances.Keys
  {
    || (r.target == x && r.source in distances && distances[r.source] + 1 == distances[x] && l == levels[r.source] + 1)
    || (r.source == x && r.target in distances && distances[r.target] + 1 == distances[x] && l == levels[r.target] - 1)
  }

  ghost predicate IsCandidateLevel(table: set<Relationship>, distances: map<Id, nat>, levels: map<Id, int>, x: Id,
                                   l: int)
    requires x in distances && levels.Keys == distances.Keys
  {
    exists r :: r in table && GivesLevel(distances, levels, r, x, l)
  }

  /** The level of `x` is a candidate and no candidate is preferred to it. */
  ghost predicate HasBestLevel(table: set<Relationship>, distances: map<Id, nat>, levels: map<Id, int>, x: Id)
    requires x in distances && levels.Keys == distances.Keys
  {
    && IsCandidateLevel(table, distances, levels, x, levels[x])
    && forall l :: IsCandidateLevel(table, distances, levels, x, l) ==> !PreferLevel(levels[x], l)
  }

  ghost predicate DistancesExact(table: set<Relationship>, root: Id, maxDepth: nat, distances: map<Id, nat>) {
    && (forall x :: x in distances <==> Within(table, root, x, maxDepth))
    && (forall x :: x in distances ==> distances[x] <= maxDepth && IsDistance(table, root, x, distances[x]))
  }

  ghost predicate LevelsBest(table: set<Relationship>, root: Id, distances: map<Id, nat>, levels: map<Id, int>) {
    && levels.Keys == distances.Keys
    && root in levels && levels[root] == 0
    && forall x :: x in distances && distances[x] > 0 ==> HasBestLevel(table, distances, levels, x)
  }

  predicate Expanded(distances: map<Id, nat>, depth: nat, x: Id) {
    !Blank(x) && x in distances && distances[x] < depth
  }

  /** The collected relationships are those with an end nearer than `depth`. */
  ghost predicate CollectedExactly(table: set<Relationship>, distances: map<Id, nat>, depth: nat,
                                   byId: map<string, Relationship>) {
    && (forall id :: id in byId ==> byId[id] in table && byId[id].id == id)
    && (forall r :: r in table ==>
        (r.id in byId <==> Expanded(distances, depth, r.source) || Expanded(distances, depth, r.target)))
  }

  ghost predicate UniqueIds(table: set<Relationship>) {
    forall r, s :: r in table && s in table && r.id == s.id ==> r == s
  }

  /** The database answers with the rows touching the given ids, in any order. */
  ghost predicate AnswersQuery(table: set<Relationship>, query: set<Id> -> seq<Relationship>) {
    forall ids, r :: r in query(ids) <==> r in table && (r.source in ids || r.target in ids)
  }

  // ---- The result does not depend on the order rows arrive ----

  lemma DistancesUnique(table: set<Relationship>, root: Id, maxDepth: nat, d1: map<Id, nat>, d2: map<Id, nat>)
    requires DistancesExact(table, root, maxDepth, d1) && DistancesExact(table, root, maxDepth, d2)
    ensures d1 == d2
  {
    assert d1.Keys == d2.Keys by {
      forall x ensures x in d1 <==> x in d2 {
        assert x in d1 <==> Within(table, root, x, maxDepth);
      }
    }
    forall x | x in d1 ensures d1[x] == d2[x] {
      assert IsDistance(table, root, x, d1[x]) && IsDistance(table, root, x, d2[x]);
      DistanceUnique(table, root, x, d1[x], d2[x]);
    }
  }

  lemma DistanceUnique(table: set<Relationship>, root: Id, x: Id, d: nat, e: nat)
    requires IsDistance(table, root, x, d) && IsDistance(table, root, x, e)
    ensures d == e
  {
    if d < e { WithinMonotone(table, root, x, d, e - 1); }
    if e < d { WithinMonotone(table, root, x, e, d - 1); }
  }

  lemma {:induction false} LevelUnique(table: set<Relationship>, root: Id, maxDepth: nat, d: map<Id, nat>,
                                       l1: map<Id, int>, l2: map<Id, int>, x: Id)
    requires DistancesExact(table, root, maxDepth, d) && LevelsBest(table, root, d, l1)
               && LevelsBest(table, root, d, l2)
    requires x in d
    ensures l1[x] == l2[x]
    decreases d[x]
  {
    if d[x] == 0 {
      assert IsDistance(table, root, x, 0);
    } else {
      forall y | y in d && d[y] + 1 == d[x] ensures l1[y] == l2[y] {
        LevelUnique(table, root, maxDepth, d, l1, l2, y);
      }
      assert forall r, l :: GivesLevel(d, l1, r, x, l) <==> GivesLevel(d, l2, r, x, l);
      assert IsCandidateLevel(table, d, l1, x, l2[x]) && IsCandidateLevel(table, d, l2, x, l1[x]);
      PreferLevelIsStrictTotalOrder(l1[x], l2[x], 0);
    }
  }

  /** Any two results of the search on the same graph agree, whatever the row order was. */
  lemma SearchResultUnique(table: set<Relationship>, root: Id, maxDepth: nat, d1: map<Id, nat>, l1: map<Id, int>,
                           d2: map<Id, nat>, l2: map<Id, int>)
    requires DistancesExact(table, root, maxDepth, d1) && LevelsBest(table, root, d1, l1)
    requires DistancesExact(table, root, maxDepth, d2) && LevelsBest(table, root, d2, l2)
    ensures d1 == d2 && l1 == l2
  {
    DistancesUnique(table, root, maxDepth, d1, d2);
    forall x | x in l1 ensures l1[x] == l2[x] {
      LevelUnique(table, root, maxDepth, d1, l1, l2, x);
    }
  }

  // ---- One round ----

  /** What a row offers to `x` when read against the frontier. */
  predicate RowOffers(frontier: map<Id, int>, row: Relationship, x: Id, l: int) {
    || (row.source in frontier && x == row.target && l == frontier[row.source] + 1)
    || (row.target in frontier && x == row.source && l == frontier[row.target] - 1)
  }

  /** Offers made so far in a round against the maps (d0, l0) the round began with. */
  ghost predicate RoundState(d0: map<Id, nat>, l0: map<Id, int>, depth: nat, offers: set<(Id, int)>,
                             distances: map<Id, nat>, levels: map<Id, int>, next: map<Id, int>)
  {
    && levels.Keys == distances.Keys
    && l0.Keys == d0.Keys
    && (forall x :: x in d0 ==> x in distances && distances[x] == d0[x] && levels[x] == l0[x])
    && (forall x :: x in next <==> x in distances && x !in d0)
    && (forall x :: x in next ==>
        next[x] == levels[x] && distances[x] == depth + 1 && !Blank(x) && (x, levels[x]) in offers)
    && (forall o :: o in offers && !Blank(o.0) && o.0 !in d0 ==> o.0 in next && !PreferLevel(levels[o.0], o.1))
  }

  /** During a round every label is either old and nearer, or new and on the next frontier. */
  lemma LabelsOfRound(d0: map<Id, nat>, l0: map<Id, int>, depth: nat, offers: set<(Id, int)>,
                      distances: map<Id, nat>, levels: map<Id, int>, next: map<Id, int>)
    requires RoundState(d0, l0, depth, offers, distances, levels, next)
    ensures levels.Keys == distances.Keys
    ensures forall x :: x in distances ==>
              if x in d0 then distances[x] == d0[x] else x in next && distances[x] == depth + 1
    ensures forall x :: x in d0 || x in next ==> x in distances
    ensures forall x :: x in next ==> x !in d0
  {}

  lemma OfferTaken(d0: map<Id, nat>, l0: map<Id, int>, depth: nat, offers: set<(Id, int)>,
                   distances: map<Id, nat>, levels: map<Id, int>, next: map<Id, int>, x: Id, l: int)
    requires RoundState(d0, l0, depth, offers, distances, levels, next)
    requires !Blank(x) && x !in d0 && (x in next ==> PreferLevel(levels[x], l))
    ensures RoundState(d0, l0, depth, offers + {(x, l)}, distances[x := depth + 1], levels[x := l], next[x := l])
  {
    hide Blank;
    forall o | o in offers && o.0 == x ensures !PreferLevel(l, o.1) {
      PreferLevelIsStrictTotalOrder(levels[x], l, o.1);
    }
  }

  lemma OfferDeclined(d0: map<Id, nat>, l0: map<Id, int>, depth: nat, offers: set<(Id, int)>,
                      distances: map<Id, nat>, levels: map<Id, int>, next: map<Id, int>, x: Id, l: int)
    requires RoundState(d0, l0, depth, offers, distances, levels, next)
    requires Blank(x) || x in d0 || (x in next && !PreferLevel(levels[x], l))
    ensures RoundState(d0, l0, depth, offers + {(x, l)}, distances, levels, next)
  {}

  /** Some row among the first `n` offers `l` to `x`. */
  ghost predicate OfferedBy(frontier: map<Id, int>, rows: seq<Relationship>, n: nat, x: Id, l: int)
    requires n <= |rows|
  {
    exists i :: 0 <= i < n && RowOffers(frontier, rows[i], x, l)
  }

  /** The rows of a round: the relationships touching the frontier, in any order. */
  ghost predicate RowsOfRound(table: set<Relationship>, frontier: map<Id, int>, rows: seq<Relationship>) {
    forall r :: r in rows <==>
        r in table && ((r.source in frontier && !Blank(r.source)) || (r.target in frontier && !Blank(r.target)))
  }

  /** The loop invariant of the search after `depth` rounds. */
  ghost predicate SearchState(table: set<Relationship>, root: Id, depth: nat, distances: map<Id, nat>,
                              levels: map<Id, int>, frontier: map<Id, int>) {
    && DistancesExact(table, root, depth, distances)
    && LevelsBest(table, root, distances, levels)
    && (forall x :: x in frontier <==> x in distances && distances[x] == depth)
    && (forall x :: x in frontier ==> frontier[x] == levels[x])
  }

  lemma {:induction false} WithinNotBlank(table: set<Relationship>, root: Id, x: Id, d: nat)
    requires Within(table, root, x, d)
    ensures x == root || (!Blank(x) && !Blank(root))
    decreases d
  {
    if d != 0 {
      if Within(table, root, x, d - 1) {
        WithinNotBlank(table, root, x, d - 1);
      } else {
        var y :| Within(table, root, y, d - 1) && Adjacent(table, y, x);
        WithinNotBlank(table, root, y, d - 1);
      }
    }
  }

  /** A node within `depth` steps is labelled, and is on the frontier unless it is nearer. */
  lemma LabelledNode(table: set<Relationship>, root: Id, depth: nat, distances: map<Id, nat>, levels: map<Id, int>,
                     frontier: map<Id, int>, y: Id)
    requires SearchState(table, root, depth, distances, levels, frontier)
    ensures y in distances <==> Within(table, root, y, depth)
    ensures y in distances ==> y in levels && distances[y] <= depth && IsDistance(table, root, y, distances[y])
    ensures y in frontier <==> y in distances && distances[y] == depth
    ensures y in frontier ==> frontier[y] == levels[y] && (y == root || (!Blank(y) && !Blank(root)))
  {
    hide IsDistance, HasBestLevel;
    assert y in distances <==> Within(table, root, y, depth);
    if y in frontier {
      WithinNotBlank(table, root, y, depth);
    }
  }

  lemma OfferMeansStep(table: set<Relationship>, root: Id, depth: nat, distances: map<Id, nat>, levels: map<Id, int>,
                       frontier: map<Id, int>, row: Relationship, x: Id, l: int)
    requires SearchState(table, root, depth, distances, levels, frontier)
    requires row in table && RowOffers(frontier, row, x, l) && !Blank(x) && !Blank(root)
    ensures Within(table, root, x, depth + 1)
  {
    var y := if row.source in frontier && x == row.target then row.source else row.target;
    LabelledNode(table, root, depth, distances, levels, frontier, y);
    assert Joins(row, y, x);
    assert Adjacent(table, y, x);
  }

  lemma LastStep(table: set<Relationship>, root: Id, depth: nat, x: Id) returns (y: Id, row: Relationship)
    requires Within(table, root, x, depth + 1) && !Within(table, root, x, depth)
    ensures Within(table, root, y, depth) && (depth > 0 ==> !Within(table, root, y, depth - 1))
    ensures !Blank(y) && !Blank(x) && row in table && Joins(row, y, x)
  {
    y :| Within(table, root, y, depth) && Adjacent(table, y, x);
    assert depth > 0 && Within(table, root, y, depth - 1) ==> Within(table, root, x, depth);
    row :| row in table && Joins(row, y, x);
  }

  lemma DistanceOfLastStep(table: set<Relationship>, root: Id, depth: nat, distances: map<Id, nat>,
                           levels: map<Id, int>, frontier: map<Id, int>, y: Id)
    requires SearchState(table, root, depth, distances, levels, frontier)
    requires Within(table, root, y, depth) && (depth > 0 ==> !Within(table, root, y, depth - 1))
    ensures y in frontier
  {
    hide SearchState;
    LabelledNode(table, root, depth, distances, levels, frontier, y);
    if distances[y] < depth {
      WithinMonotone(table, root, y, distances[y], depth - 1);
    }
  }

  lemma StepMeansOffer(table: set<Relationship>, root: Id, depth: nat, distances: map<Id, nat>, levels: map<Id, int>,
                       frontier: map<Id, int>, x: Id)
      returns (row: Relationship, l: int)
    requires SearchState(table, root, depth, distances, levels, frontier)
    requires Within(table, root, x, depth + 1) && !Within(table, root, x, depth)
    ensures row in table && RowOffers(frontier, row, x, l)
    ensures (row.source in frontier && !Blank(row.source)) || (row.target in frontier && !Blank(row.target))
    ensures !Blank(x)
  {
    hide Within, SearchState, Blank, IsDistance;
    var y;
    y, row := LastStep(table, root, depth, x);
    DistanceOfLastStep(table, root, depth, distances, levels, frontier, y);
    l := if row.source == y && row.target == x then frontier[y] + 1 else frontier[y] - 1;
  }

  /** The offers of a round are what all its rows offer. */
  ghost predicate AllOffers(frontier: map<Id, int>, rows: seq<Relationship>, n: nat, offers: set<(Id, int)>)
    requires n <= |rows|
  {
    forall x, l :: (x, l) in offers <==> OfferedBy(frontier, rows, n, x, l)
  }

  lemma LabelledAfterRound(table: set<Relationship>, root: Id, depth: nat, d0: map<Id, nat>, l0: map<Id, int>,
                           frontier: map<Id, int>, rows: seq<Relationship>,
                           offers: set<(Id, int)>, distances: map<Id, nat>, levels: map<Id, int>, next: map<Id, int>,
                               x: Id)
    requires SearchState(table, root, depth, d0, l0, frontier) && RowsOfRound(table, frontier, rows)
    requires RoundState(d0, l0, depth, offers, distances, levels, next) && AllOffers(frontier, rows, |rows|, offers)
    ensures x in distances <==> Within(table, root, x, depth + 1)
  {
    hide SearchState;
    LabelledNode(table, root, depth, d0, l0, frontier, x);
    if x in d0 {
      WithinMonotone(table, root, x, depth, depth + 1);
    } else {
      if x in distances {
        assert x in next && (x, levels[x]) in offers;
        var i :| 0 <= i < |rows| && RowOffers(frontier, rows[i], x, levels[x]);
        assert rows[i] in rows;
        FrontierNotBlank(table, root, depth, d0, l0, frontier, rows[i]);
        OfferMeansStep(table, root, depth, d0, l0, frontier, rows[i], x, levels[x]);
      }
      if Within(table, root, x, depth + 1) {
        var row, l := StepMeansOffer(table, root, depth, d0, l0, frontier, x);
        hide Within, Blank;
        RowIsOffer(frontier, rows, offers, row, x, l);
      }
    }
  }

  lemma RowIsOffer(frontier: map<Id, int>, rows: seq<Relationship>, offers: set<(Id, int)>, row: Relationship, x: Id,
                   l: int)
    requires AllOffers(frontier, rows, |rows|, offers) && row in rows && RowOffers(frontier, row, x, l)
    ensures (x, l) in offers && (x, l).0 == x
  {
    var i :| 0 <= i < |rows| && rows[i] == row;
    assert OfferedBy(frontier, rows, |rows|, x, l);
  }

  lemma RoundDistances(table: set<Relationship>, root: Id, depth: nat, d0: map<Id, nat>, l0: map<Id, int>,
                       frontier: map<Id, int>, rows: seq<Relationship>,
                       offers: set<(Id, int)>, distances: map<Id, nat>, levels: map<Id, int>, next: map<Id, int>)
    requires SearchState(table, root, depth, d0, l0, frontier) && RowsOfRound(table, frontier, rows)
    requires RoundState(d0, l0, depth, offers, distances, levels, next) && AllOffers(frontier, rows, |rows|, offers)
    ensures DistancesExact(table, root, depth + 1, distances)
  {
    hide SearchState, Within, RowsOfRound, AllOffers;
    forall x ensures x in distances <==> Within(table, root, x, depth + 1) {
      LabelledAfterRound(table, root, depth, d0, l0, frontier, rows, offers, distances, levels, next, x);
    }
    forall x | x in distances ensures distances[x] <= depth + 1 && IsDistance(table, root, x, distances[x]) {
      LabelledNode(table, root, depth, d0, l0, frontier, x);
      if x !in d0 {
        assert distances[x] == depth + 1;
      }
    }
  }

  lemma FrontierNotBlank(table: set<Relationship>, root: Id, depth: nat, distances: map<Id, nat>, levels: map<Id, int>,
                         frontier: map<Id, int>, row: Relationship)
    requires SearchState(table, root, depth, distances, levels, frontier)
    requires (row.source in frontier && !Blank(row.source)) || (row.target in frontier && !Blank(row.target))
    ensures !Blank(root)
  {
    var y := if row.source in frontier && !Blank(row.source) then row.source else row.target;
    LabelledNode(table, root, depth, distances, levels, frontier, y);
  }

  /** Levels settled in earlier rounds stay best. */
  lemma OldLevelStaysBest(table: set<Relationship>, depth: nat, d0: map<Id, nat>, l0: map<Id, int>,
                          offers: set<(Id, int)>,
                          distances: map<Id, nat>, levels: map<Id, int>, next: map<Id, int>, x: Id)
    requires RoundState(d0, l0, depth, offers, distances, levels, next)
    requires x in d0 && d0[x] <= depth && HasBestLevel(table, d0, l0, x)
    ensures HasBestLevel(table, distances, levels, x)
  {
    forall r, l ensures GivesLevel(distances, levels, r, x, l) <==> GivesLevel(d0, l0, r, x, l) {
      assert r.source in distances && r.source !in d0 ==> r.source in next && distances[r.source] == depth + 1;
      assert r.target in distances && r.target !in d0 ==> r.target in next && distances[r.target] == depth + 1;
    }
    assert forall l :: IsCandidateLevel(table, distances, levels, x, l) <==> IsCandidateLevel(table, d0, l0, x, l);
  }

  /** A node found in this round takes the best level the rows offered it. */
  lemma NewLevelIsBest(table: set<Relationship>, root: Id, depth: nat, d0: map<Id, nat>, l0: map<Id, int>,
                       frontier: map<Id, int>, rows: seq<Relationship>,
                       offers: set<(Id, int)>, distances: map<Id, nat>, levels: map<Id, int>, next: map<Id, int>, x: Id)
    requires SearchState(table, root, depth, d0, l0, frontier) && RowsOfRound(table, frontier, rows)
    requires RoundState(d0, l0, depth, offers, distances, levels, next) && AllOffers(frontier, rows, |rows|, offers)
    requires x in next
    ensures HasBestLevel(table, distances, levels, x)
  {
    hide SearchState, Blank, Within;
    forall r, l ensures GivesLevel(distances, levels, r, x, l) <==> RowOffers(frontier, r, x, l) {
      EndInFrontier(table, root, depth, d0, l0, frontier, offers, distances, levels, next, r.source);
      EndInFrontier(table, root, depth, d0, l0, frontier, offers, distances, levels, next, r.target);
    }
    assert (x, levels[x]) in offers;
    var i :| 0 <= i < |rows| && RowOffers(frontier, rows[i], x, levels[x]);
    assert rows[i] in rows;
    FrontierNotBlank(table, root, depth, d0, l0, frontier, rows[i]);
    forall l | IsCandidateLevel(table, distances, levels, x, l) ensures !PreferLevel(levels[x], l) {
      var r :| r in table && GivesLevel(distances, levels, r, x, l);
      LabelledNode(table, root, depth, d0, l0, frontier, r.source);
      LabelledNode(table, root, depth, d0, l0, frontier, r.target);
      RowIsOffer(frontier, rows, offers, r, x, l);
    }
  }

  lemma EndInFrontier(table: set<Relationship>, root: Id, depth: nat, d0: map<Id, nat>, l0: map<Id, int>,
                      frontier: map<Id, int>,
                      offers: set<(Id, int)>, distances: map<Id, nat>, levels: map<Id, int>, next: map<Id, int>, y: Id)
    requires SearchState(table, root, depth, d0, l0, frontier)
    requires RoundState(d0, l0, depth, offers, distances, levels, next)
    ensures y in distances && distances[y] == depth <==> y in frontier
    ensures y in frontier ==> frontier[y] == levels[y]
  {
    LabelledNode(table, root, depth, d0, l0, frontier, y);
    hide SearchState;
    assert y in distances && y !in d0 ==> y in next;
  }

  /** A complete round carries the invariant one layer further. */
  lemma RoundComplete(table: set<Relationship>, root: Id, depth: nat, d0: map<Id, nat>, l0: map<Id, int>,
                      frontier: map<Id, int>, rows: seq<Relationship>,
                      offers: set<(Id, int)>, distances: map<Id, nat>, levels: map<Id, int>, next: map<Id, int>)
    requires SearchState(table, root, depth, d0, l0, frontier) && RowsOfRound(table, frontier, rows)
    requires RoundState(d0, l0, depth, offers, distances, levels, next) && AllOffers(frontier, rows, |rows|, offers)
    ensures SearchState(table, root, depth + 1, distances, levels, next)
  {
    RoundDistances(table, root, depth, d0, l0, frontier, rows, offers, distances, levels, next);
    forall x | x in distances && distances[x] > 0 ensures HasBestLevel(table, distances, levels, x) {
      if x in d0 {
        OldLevelStaysBest(table, depth, d0, l0, offers, distances, levels, next, x);
      } else {
        NewLevelIsBest(table, root, depth, d0, l0, frontier, rows, offers, distances, levels, next, x);
      }
    }
    hide HasBestLevel, DistancesExact;
  }

  // ---- Relationships and entities met on the way ----

  /** `byId` after the first `n` rows of a round that began with `before`. */
  ghost predicate CollectedRows(table: set<Relationship>, before: map<string, Relationship>, rows: seq<Relationship>,
                                n: nat, byId: map<string, Relationship>)
    requires n <= |rows|
  {
    && (forall id :: id in byId ==> byId[id] in table && byId[id].id == id)
    && (forall r :: r in table ==> (r.id in byId <==> r.id in before || r in rows[..n]))
  }

  lemma CollectRow(table: set<Relationship>, before: map<string, Relationship>, rows: seq<Relationship>, n: nat,
                   byId: map<string, Relationship>)
    requires UniqueIds(table) && n < |rows| && rows[n] in table
    requires CollectedRows(table, before, rows, n, byId)
    ensures CollectedRows(table, before, rows, n + 1, byId[rows[n].id := rows[n]])
  {
    assert rows[..n + 1] == rows[..n] + [rows[n]];
  }

  lemma RoundCollects(table: set<Relationship>, root: Id, depth: nat, d0: map<Id, nat>, l0: map<Id, int>,
                      frontier: map<Id, int>, rows: seq<Relationship>,
                      offers: set<(Id, int)>, distances: map<Id, nat>, levels: map<Id, int>, next: map<Id, int>,
                      before: map<string, Relationship>, byId: map<string, Relationship>)
    requires SearchState(table, root, depth, d0, l0, frontier) && RowsOfRound(table, frontier, rows)
    requires RoundState(d0, l0, depth, offers, distances, levels, next)
    requires CollectedExactly(table, d0, depth, before) && CollectedRows(table, before, rows, |rows|, byId)
    ensures CollectedExactly(table, distances, depth + 1, byId)
  {
    hide SearchState, Blank;
    assert rows[..|rows|] == rows;
    forall y ensures Expanded(distances, depth + 1, y) <==> Expanded(d0, depth, y) || (y in frontier && !Blank(y)) {
      LabelledNode(table, root, depth, d0, l0, frontier, y);
      assert y in distances && y !in d0 ==> y in next;
    }
  }

  /** Every labelled node is discovered, and so is nothing else but blank ids. */
  ghost predicate DiscoveredExactly(distances: map<Id, nat>, discovered: set<Id>) {
    && distances.Keys <= discovered
    && forall x :: x in discovered && !Blank(x) ==> x in distances
  }

  /** The ends of `row` that have a neighbour on the frontier. */
  function Found(frontier: map<Id, int>, row: Relationship): set<Id> {
    (if row.source in frontier then {row.target} else {}) + (if row.target in frontier then {row.source} else {})
  }

  ghost predicate DiscoveredRows(frontier: map<Id, int>, before: set<Id>, rows: seq<Relationship>, n: nat,
                                 discovered: set<Id>)
    requires n <= |rows|
  {
    forall x :: x in discovered <==> x in before || exists i :: 0 <= i < n && x in Found(frontier, rows[i])
  }

  lemma DiscoverRow(frontier: map<Id, int>, before: set<Id>, rows: seq<Relationship>, n: nat, discovered: set<Id>)
    requires n < |rows| && DiscoveredRows(frontier, before, rows, n, discovered)
    ensures DiscoveredRows(frontier, before, rows, n + 1, discovered + Found(frontier, rows[n]))
  {
    hide Found;
  }

  lemma RoundDiscovers(d0: map<Id, nat>, l0: map<Id, int>, depth: nat, frontier: map<Id, int>, rows: seq<Relationship>,
                       offers: set<(Id, int)>,
                       distances: map<Id, nat>, levels: map<Id, int>, next: map<Id, int>, before: set<Id>,
                           discovered: set<Id>)
    requires RoundState(d0, l0, depth, offers, distances, levels, next) && AllOffers(frontier, rows, |rows|, offers)
    requires DiscoveredExactly(d0, before) && DiscoveredRows(frontier, before, rows, |rows|, discovered)
    ensures DiscoveredExactly(distances, discovered)
  {
    hide Blank, RoundState, AllOffers, DiscoveredRows;
    forall x | x in distances ensures x in discovered {
      if x !in d0 {
        NewIsFound(d0, l0, depth, frontier, rows, offers, distances, levels, next, before, discovered, x);
      } else {
        OldIsFound(frontier, rows, before, discovered, x);
      }
    }
    forall x | x in discovered && !Blank(x) ensures x in distances {
      if x !in before {
        FoundIsLabelled(d0, l0, depth, frontier, rows, offers, distances, levels, next, before, discovered, x);
      } else {
        OldStaysLabelled(d0, l0, depth, offers, distances, levels, next, x);
      }
    }
  }

  lemma OldIsFound(frontier: map<Id, int>, rows: seq<Relationship>, before: set<Id>, discovered: set<Id>, x: Id)
    requires DiscoveredRows(frontier, before, rows, |rows|, discovered) && x in before
    ensures x in discovered
  {
    hide Found;
  }

  lemma OldStaysLabelled(d0: map<Id, nat>, l0: map<Id, int>, depth: nat, offers: set<(Id, int)>,
                         distances: map<Id, nat>, levels: map<Id, int>, next: map<Id, int>, x: Id)
    requires RoundState(d0, l0, depth, offers, distances, levels, next) && x in d0
    ensures x in distances
  {}

  lemma NewIsFound(d0: map<Id, nat>, l0: map<Id, int>, depth: nat, frontier: map<Id, int>, rows: seq<Relationship>,
                   offers: set<(Id, int)>,
                   distances: map<Id, nat>, levels: map<Id, int>, next: map<Id, int>, before: set<Id>,
                       discovered: set<Id>, x: Id)
    requires RoundState(d0, l0, depth, offers, distances, levels, next) && AllOffers(frontier, rows, |rows|, offers)
    requires DiscoveredRows(frontier, before, rows, |rows|, discovered) && x in distances && x !in d0
    ensures x in discovered
  {
    assert (x, levels[x]) in offers;
    hide RoundState;
    var i :| 0 <= i < |rows| && RowOffers(frontier, rows[i], x, levels[x]);
    assert x in Found(frontier, rows[i]);
  }

  lemma FoundIsLabelled(d0: map<Id, nat>, l0: map<Id, int>, depth: nat, frontier: map<Id, int>,
                        rows: seq<Relationship>, offers: set<(Id, int)>,
                        distances: map<Id, nat>, levels: map<Id, int>, next: map<Id, int>, before: set<Id>,
                            discovered: set<Id>, x: Id)
    requires RoundState(d0, l0, depth, offers, distances, levels, next) && AllOffers(frontier, rows, |rows|, offers)
    requires DiscoveredRows(frontier, before, rows, |rows|, discovered) && x in discovered && x !in before && !Blank(x)
    ensures x in distances
  {
    hide Blank;
    var i :| 0 <= i < |rows| && x in Found(frontier, rows[i]);
    var row := rows[i];
    var l := if row.source in frontier && x == row.target then frontier[row.source] + 1 else frontier[row.target] - 1;
    RowIsOffer(frontier, rows, offers, row, x, l);
    hide AllOffers, DiscoveredRows;
  }

  lemma RoundBegins(table: set<Relationship>, root: Id, depth: nat, distances: map<Id, nat>, levels: map<Id, int>,
                    frontier: map<Id, int>)
    requires SearchState(table, root, depth, distances, levels, frontier)
    ensures Nearer(distances, depth + 1)
    ensures RoundState(distances, levels, depth, {}, distances, levels, map[])
  {
    hide HasBestLevel, IsDistance;
  }

  /** The first `n` rows of the round have been offered, collected and discovered from. */
  ghost predicate RowsRecorded(table: set<Relationship>, frontier: map<Id, int>, rows: seq<Relationship>, n: nat,
                               offers: set<(Id, int)>,
                               byId0: map<string, Relationship>, byId: map<string, Relationship>, discovered0: set<Id>,
                                   discovered: set<Id>)
  {
    && n <= |rows| && UniqueIds(table) && (forall row :: row in rows ==> row in table)
    && AllOffers(frontier, rows, n, offers)
    && CollectedRows(table, byId0, rows, n, byId)
    && DiscoveredRows(frontier, discovered0, rows, n, discovered)
  }

  lemma NoRowsYet(table: set<Relationship>, frontier: map<Id, int>, rows: seq<Relationship>,
                  byId: map<string, Relationship>, discovered: set<Id>, depth: nat, distances: map<Id, nat>)
    requires UniqueIds(table) && CollectedExactly(table, distances, depth, byId) && RowsOfRound(table, frontier, rows)
    ensures RowsRecorded(table, frontier, rows, 0, {}, byId, byId, discovered, discovered)
  {
    assert rows[..0] == [];
    hide CollectedExactly;
  }

  lemma RecordRow(table: set<Relationship>, frontier: map<Id, int>, rows: seq<Relationship>, n: nat,
                  before: set<(Id, int)>,
                  byId0: map<string, Relationship>, byId: map<string, Relationship>, discovered0: set<Id>,
                      discovered: set<Id>)
    requires n < |rows| && RowsRecorded(table, frontier, rows, n, before, byId0, byId, discovered0, discovered)
    ensures forall after :: OffersMore(frontier, rows[n], before, after) ==>
              RowsRecorded(table, frontier, rows, n + 1, after, byId0, byId[rows[n].id := rows[n]], discovered0,
                           discovered + Found(frontier, rows[n]))
  {
    hide AllOffers, CollectedRows, DiscoveredRows, UniqueIds, RowOffers, Found;
    assert rows[n] in rows;
    DiscoverRow(frontier, discovered0, rows, n, discovered);
    CollectRow(table, byId0, rows, n, byId);
    forall after | OffersMore(frontier, rows[n], before, after) ensures AllOffers(frontier, rows, n + 1, after) {
      OffersGrow(frontier, rows, n, before, after);
    }
  }

  lemma AllRowsRecorded(table: set<Relationship>, frontier: map<Id, int>, rows: seq<Relationship>,
                        offers: set<(Id, int)>,
                        byId0: map<string, Relationship>, byId: map<string, Relationship>, discovered0: set<Id>,
                            discovered: set<Id>)
    requires RowsRecorded(table, frontier, rows, |rows|, offers, byId0, byId, discovered0, discovered)
    ensures AllOffers(frontier, rows, |rows|, offers)
    ensures CollectedRows(table, byId0, rows, |rows|, byId)
    ensures DiscoveredRows(frontier, discovered0, rows, |rows|, discovered)
  {}

  lemma RoundEnds(table: set<Relationship>, root: Id, depth: nat, d0: map<Id, nat>, l0: map<Id, int>,
                  frontier: map<Id, int>, rows: seq<Relationship>,
                  offers: set<(Id, int)>, distances: map<Id, nat>, levels: map<Id, int>, next: map<Id, int>,
                  byId0: map<string, Relationship>, byId: map<string, Relationship>, discovered0: set<Id>,
                      discovered: set<Id>)
    requires SearchState(table, root, depth, d0, l0, frontier) && RowsOfRound(table, frontier, rows)
    requires CollectedExactly(table, d0, depth, byId0) && DiscoveredExactly(d0, discovered0)
    requires RoundState(d0, l0, depth, offers, distances, levels, next)
    requires RowsRecorded(table, frontier, rows, |rows|, offers, byId0, byId, discovered0, discovered)
    ensures SearchState(table, root, depth + 1, distances, levels, next)
    ensures CollectedExactly(table, distances, depth + 1, byId) && DiscoveredExactly(distances, discovered)
  {
    hide *;
    AllRowsRecorded(table, frontier, rows, offers, byId0, byId, discovered0, discovered);
    RoundComplete(table, root, depth, d0, l0, frontier, rows, offers, distances, levels, next);
    RoundCollects(table, root, depth, d0, l0, frontier, rows, offers, distances, levels, next, byId0, byId);
    RoundDiscovers(d0, l0, depth, frontier, rows, offers, distances, levels, next, discovered0, discovered);
  }

  /** Once a layer is empty, no further node is within reach. */
  lemma {:induction false} SaturatedSearch(table: set<Relationship>, root: Id, x: Id, depth: nat, more: nat)
    requires depth > 0 && forall y :: Within(table, root, y, depth) ==> Within(table, root, y, depth - 1)
    requires depth <= more && Within(table, root, x, more)
    ensures Within(table, root, x, depth)
    decreases more
  {
    hide Adjacent;
    if depth < more {
      if Within(table, root, x, more - 1) {
        SaturatedSearch(table, root, x, depth, more - 1);
      } else {
        var y :| Within(table, root, y, more - 1) && Adjacent(table, y, x);
        SaturatedSearch(table, root, y, depth, more - 1);
        assert Within(table, root, y, depth - 1);
      }
    }
  }

  lemma EmptyFrontierSaturates(table: set<Relationship>, root: Id, depth: nat, distances: map<Id, nat>,
                               levels: map<Id, int>, frontier: map<Id, int>)
    requires SearchState(table, root, depth, distances, levels, frontier) && frontier == map[]
    ensures depth > 0 && forall y :: Within(table, root, y, depth) ==> Within(table, root, y, depth - 1)
    ensures forall y :: y in distances ==> distances[y] < depth
  {
    hide SearchState, Within;
    WithinRoot(table, root, depth);
    LabelledNode(table, root, depth, distances, levels, frontier, root);
    forall y | Within(table, root, y, depth) ensures depth > 0 && Within(table, root, y, depth - 1) {
      LabelledNode(table, root, depth, distances, levels, frontier, y);
      WithinMonotone(table, root, y, distances[y], depth - 1);
    }
    forall y | y in distances ensures distances[y] < depth {
      LabelledNode(table, root, depth, distances, levels, frontier, y);
    }
  }

  lemma WithinRoot(table: set<Relationship>, root: Id, depth: nat)
    ensures Within(table, root, root, depth)
  {
    WithinMonotone(table, root, root, 0, depth);
  }

  lemma EmptyFrontierFinishes(table: set<Relationship>, root: Id, depth: nat, maxDepth: nat, distances: map<Id, nat>,
                              levels: map<Id, int>, frontier: map<Id, int>, byId: map<string, Relationship>)
    requires SearchState(table, root, depth, distances, levels, frontier)
               && CollectedExactly(table, distances, depth, byId)
    requires depth <= maxDepth && (depth == maxDepth || frontier == map[])
    ensures DistancesExact(table, root, maxDepth, distances)
    ensures CollectedExactly(table, distances, maxDepth, byId)
  {
    if depth < maxDepth {
      hide SearchState, Blank, Within;
      EmptyFrontierSaturates(table, root, depth, distances, levels, frontier);
      forall x
        ensures x in distances <==> Within(table, root, x, maxDepth)
        ensures x in distances ==> distances[x] <= depth && IsDistance(table, root, x, distances[x])
      {
        hide IsDistance;
        LabelledNode(table, root, depth, distances, levels, frontier, x);
        if Within(table, root, x, maxDepth) { SaturatedSearch(table, root, x, depth, maxDepth); }
        if Within(table, root, x, depth) { WithinMonotone(table, root, x, depth, maxDepth); }
      }
      CollectedNoMore(table, depth, maxDepth, distances, byId);
      hide CollectedExactly;
    }
  }

  lemma CollectedNoMore(table: set<Relationship>, depth: nat, maxDepth: nat, distances: map<Id, nat>,
                        byId: map<string, Relationship>)
    requires CollectedExactly(table, distances, depth, byId) && depth <= maxDepth
    requires forall y :: y in distances ==> distances[y] < depth
    ensures CollectedExactly(table, distances, maxDepth, byId)
  {
    assert forall x :: Expanded(distances, maxDepth, x) <==> Expanded(distances, depth, x);
  }

  /** The offers of one more row. */
  ghost predicate OffersMore(frontier: map<Id, int>, row: Relationship, before: set<(Id, int)>, after: set<(Id, int)>) {
    forall x, l :: (x, l) in after <==> (x, l) in before || RowOffers(frontier, row, x, l)
  }

  ghost predicate Nearer(distances: map<Id, nat>, depth: nat) { forall x :: x in distances ==> distances[x] < depth }

  lemma OffersGrow(frontier: map<Id, int>, rows: seq<Relationship>, n: nat, before: set<(Id, int)>,
                   after: set<(Id, int)>)
    requires n < |rows| && AllOffers(frontier, rows, n, before)
    requires OffersMore(frontier, rows[n], before, after)
    ensures AllOffers(frontier, rows, n + 1, after)
  {
    forall x, l ensures (x, l) in after <==> OfferedBy(frontier, rows, n + 1, x, l) {
      assert (x, l) in before <==> OfferedBy(frontier, rows, n, x, l);
    }
  }

  class RelationshipMapSearch {
    var levels: map<Id, int>
    var distances: map<Id, nat>
    var discovered: set<Id>
    var relationshipsById: map<string, Relationship>
    var frontier: map<Id, int>
    var nextFrontier: map<Id, int>

    constructor (root: Id)
      ensures levels == map[root := 0] && distances == map[root := 0] && discovered == {root}
      ensures relationshipsById == map[] && frontier == map[root := 0] && nextFrontier == map[]
    {
      levels := map[root := 0];
      distances := map[root := 0];
      discovered := {root};
      relationshipsById := map[];
      frontier := map[root := 0];
      nextFrontier := map[];
    }

    method AdoptLevel(entity: Id, candidateLevel: int, candidateDistance: nat, ghost d0: map<Id, nat>,
                      ghost l0: map<Id, int>, ghost offers: set<(Id, int)>)
      requires candidateDistance > 0 && forall x :: x in d0 ==> d0[x] < candidateDistance
      requires RoundState(d0, l0, candidateDistance - 1, offers, distances, levels, nextFrontier)
      modifies this`levels, this`distances, this`nextFrontier
      ensures RoundState(d0, l0, candidateDistance - 1, offers + {(entity, candidateLevel)}, distances, levels,
                         nextFrontier)
    {
      hide *;
      LabelsOfRound(d0, l0, candidateDistance - 1, offers, distances, levels, nextFrontier);
      if Blank(entity) {
        OfferDeclined(d0, l0, candidateDistance - 1, offers, distances, levels, nextFrontier, entity, candidateLevel);
        return;
      }
      if entity !in distances
         || candidateDistance < distances[entity]
         || (candidateDistance == distances[entity] && PreferLevel(levels[entity], candidateLevel))
      {
        OfferTaken(d0, l0, candidateDistance - 1, offers, distances, levels, nextFrontier, entity, candidateLevel);
        distances := distances[entity := candidateDistance];
        levels := levels[entity := candidateLevel];
        nextFrontier := nextFrontier[entity := candidateLevel];
      } else {
        OfferDeclined(d0, l0, candidateDistance - 1, offers, distances, levels, nextFrontier, entity, candidateLevel);
      }
    }

    /** The two halves of the row loop's body: each end is offered a level from the other. */
    method OfferLevels(row: Relationship, depth: nat, ghost d0: map<Id, nat>, ghost l0: map<Id, int>,
                       ghost before: set<(Id, int)>)
        returns (ghost offers: set<(Id, int)>)
      requires Nearer(d0, depth + 1) && RoundState(d0, l0, depth, before, distances, levels, nextFrontier)
      modifies this`levels, this`distances, this`nextFrontier, this`discovered
      ensures RoundState(d0, l0, depth, offers, distances, levels, nextFrontier)
      ensures OffersMore(frontier, row, before, offers)
      ensures discovered == old(discovered) + Found(frontier, row)
    {
      hide RoundState;
      offers := before;
      if row.source in frontier {
        AdoptLevel(row.target, frontier[row.source] + 1, depth + 1, d0, l0, offers);
        offers := offers + {(row.target, frontier[row.source] + 1)};
        discovered := discovered + {row.target};
      }
      if row.target in frontier {
        AdoptLevel(row.source, frontier[row.target] - 1, depth + 1, d0, l0, offers);
        offers := offers + {(row.source, frontier[row.target] - 1)};
        discovered := discovered + {row.source};
      }
    }

    /** The body of the loop over the rows: the row is recorded, then makes its offers. */
    method VisitRow(rows: seq<Relationship>, i: nat, depth: nat, ghost table: set<Relationship>,
                    ghost d0: map<Id, nat>, ghost l0: map<Id, int>,
                    ghost before: set<(Id, int)>, ghost byId0: map<string, Relationship>, ghost discovered0: set<Id>)
        returns (ghost offers: set<(Id, int)>)
      requires i < |rows| && Nearer(d0, depth + 1) && RoundState(d0, l0, depth, before, distances, levels, nextFrontier)
      requires RowsRecorded(table, frontier, rows, i, before, byId0, relationshipsById, discovered0, discovered)
      modifies this`levels, this`distances, this`nextFrontier, this`discovered, this`relationshipsById
      ensures RoundState(d0, l0, depth, offers, distances, levels, nextFrontier)
      ensures RowsRecorded(table, frontier, rows, i + 1, offers, byId0, relationshipsById, discovered0, discovered)
    {
      hide *;
      RecordRow(table, frontier, rows, i, before, byId0, relationshipsById, discovered0, discovered);
      relationshipsById := relationshipsById[rows[i].id := rows[i]];
      offers := OfferLevels(rows[i], depth, d0, l0, before);
    }

    /** One round: every row is recorded, and offers a level to each end whose other end is on the frontier. */
    method ExpandFrontier(rows: seq<Relationship>, depth: nat, ghost table: set<Relationship>, ghost root: Id)
      requires UniqueIds(table)
      requires SearchState(table, root, depth, distances, levels, frontier) && RowsOfRound(table, frontier, rows)
      requires CollectedExactly(table, distances, depth, relationshipsById) && DiscoveredExactly(distances, discovered)
      modifies this
      ensures SearchState(table, root, depth + 1, distances, levels, frontier)
      ensures CollectedExactly(table, distances, depth + 1, relationshipsById)
                && DiscoveredExactly(distances, discovered)
    {
      nextFrontier := map[];
      ghost var d0, l0, f0, offers: set<(Id, int)> := distances, levels, frontier, {};
      ghost var byId0, discovered0 := relationshipsById, discovered;
      hide *;
      RoundBegins(table, root, depth, d0, l0, frontier);
      NoRowsYet(table, frontier, rows, relationshipsById, discovered, depth, distances);
      for i := 0 to |rows|
        invariant frontier == f0
        invariant RoundState(d0, l0, depth, offers, distances, levels, nextFrontier)
        invariant RowsRecorded(table, f0, rows, i, offers, byId0, relationshipsById, discovered0, discovered)
      {
        offers := VisitRow(rows, i, depth, table, d0, l0, offers, byId0, discovered0);
      }
      RoundEnds(table, root, depth, d0, l0, f0, rows, offers, distances, levels, nextFrontier, byId0,
                relationshipsById, discovered0, discovered);
      frontier := nextFrontier;
    }

    /** The search loop; the database is asked once a round for the rows touching the frontier. */
    method Search(root: Id, maxDepth: nat, query: set<Id> -> seq<Relationship>, ghost table: set<Relationship>)
      requires levels == map[root := 0] && distances == map[root := 0] && discovered == {root}
      requires relationshipsById == map[] && frontier == map[root := 0]
      requires UniqueIds(table) && AnswersQuery(table, query)
      modifies this
      ensures DistancesExact(table, root, maxDepth, distances)
      ensures LevelsBest(table, root, distances, levels)
      ensures CollectedExactly(table, distances, maxDepth, relationshipsById)
      ensures DiscoveredExactly(distances, discovered)
    {
      var depth := 0;
      SearchBegins(table, root);
      hide DistancesExact, HasBestLevel, CollectedExactly, DiscoveredExactly, Blank;
      while depth < maxDepth && frontier != map[]
        invariant depth <= maxDepth
        invariant SearchState(table, root, depth, distances, levels, frontier)
        invariant CollectedExactly(table, distances, depth, relationshipsById)
                    && DiscoveredExactly(distances, discovered)
      {
        var ids := set id | id in frontier && !Blank(id);
        var rows := query(ids);
        assert RowsOfRound(table, frontier, rows);
        ExpandFrontier(rows, depth, table, root);
        depth := depth + 1;
      }
      EmptyFrontierFinishes(table, root, depth, maxDepth, distances, levels, frontier, relationshipsById);
    }
  }

  lemma SearchBegins(table: set<Relationship>, root: Id)
    ensures SearchState(table, root, 0, map[root := 0], map[root := 0], map[root := 0])
    ensures CollectedExactly(table, map[root := 0], 0, map[])
    ensures DiscoveredExactly(map[root := 0], {root})
  {}

  lemma WalkBoundsDistance(table: set<Relationship>, root: Id, maxDepth: nat, distances: map<Id, nat>, x: Id,
                           w: seq<Id>)
    requires DistancesExact(table, root, maxDepth, distances) && IsWalk(table, root, x, w)
    ensures |w| - 1 <= maxDepth ==> x in distances
    ensures x in distances ==> distances[x] <= |w| - 1
  {
    WithinFromWalk(table, root, x, w);
    assert x in distances <==> Within(table, root, x, maxDepth);
    if |w| - 1 <= maxDepth { WithinMonotone(table, root, x, |w| - 1, maxDepth); }
    if x in distances && |w| - 1 < distances[x] { WithinMonotone(table, root, x, |w| - 1, distances[x] - 1); }
  }

  /** A walk of at most `d` steps. */
  ghost predicate ReachableIn(table: set<Relationship>, root: Id, x: Id, d: nat) {
    exists w :: IsWalk(table, root, x, w) && |w| <= d + 1
  }

  /** In terms of walks: labelled means reachable, and the distance is the length of a shortest walk. */
  lemma DistanceIsShortestWalk(table: set<Relationship>, root: Id, maxDepth: nat, distances: map<Id, nat>, x: Id)
    requires DistancesExact(table, root, maxDepth, distances)
    ensures x in distances <==> ReachableIn(table, root, x, maxDepth)
    ensures x in distances ==> ReachableIn(table, root, x, distances[x])
    ensures x in distances && distances[x] > 0 ==> !ReachableIn(table, root, x, distances[x] - 1)
  {
    forall w | IsWalk(table, root, x, w)
      ensures |w| - 1 <= maxDepth ==> x in distances
      ensures x in distances ==> distances[x] <= |w| - 1
    {
      WalkBoundsDistance(table, root, maxDepth, distances, x, w);
    }
    if x in distances {
      var w := WalkFromWithin(table, root, x, distances[x]);
      assert IsWalk(table, root, x, w) && |w| <= distances[x] + 1 && distances[x] <= maxDepth;
    }
  }
}
