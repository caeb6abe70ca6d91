/** Stable sorting, as sort.SliceStable does it: what the result is, and when it does not depend on the input order. */
module StableSorting {
  import opened Text

  ghost predicate StrictWeakOrder<T(!new)>(before: (T, T) -> bool) {
    && (forall a, b :: before(a, b) ==> !before(b, a))
    && (forall a, b, c :: before(a, c) ==> before(a, b) || before(b, c))
  }

  /** Puts `x` after everything that does not come after it. */
  function Insert<T>(x: T, s: seq<T>, before: (T, T) -> bool): seq<T> {
    if s == [] || !before(x, s[|s| - 1]) then s + [x]
    else Insert(x, s[..|s| - 1], before) + [s[|s| - 1]]
  }

  function StableSort<T>(s: seq<T>, before: (T, T) -> bool): seq<T> {
    if s == [] then [] else Insert(s[|s| - 1], StableSort(s[..|s| - 1], before), before)
  }

  predicate Sorted<T>(s: seq<T>, before: (T, T) -> bool) {
    forall i, j :: 0 <= i < j < |s| ==> !before(s[j], s[i])
  }

  function Filter<T>(s: seq<T>, keep: T -> bool): seq<T> {
    if s == [] then [] else Filter(s[..|s| - 1], keep) + (if keep(s[|s| - 1]) then [s[|s| - 1]] else [])
  }

  lemma SortedAppend<T>(s: seq<T>, x: T, before: (T, T) -> bool)
    requires Sorted(s, before) && forall y :: y in s ==> !before(x, y)
    ensures Sorted(s + [x], before)
  {}

  lemma InsertedAtEnd<T(!new)>(x: T, front: seq<T>, last: T, before: (T, T) -> bool)
    requires StrictWeakOrder(before) && Sorted(front + [last], before) && !before(x, last)
    ensures forall y :: y in front + [last] ==> !before(x, y)
  {
    SortedParts(front, last, before);
    forall y | y in front ensures !before(x, y) { assert !before(last, y); }
  }

  lemma {:induction false} InsertResult<T(!new)>(x: T, s: seq<T>, before: (T, T) -> bool)
    requires StrictWeakOrder(before) && Sorted(s, before)
    ensures multiset(Insert(x, s, before)) == multiset(s) + multiset{x}
    ensures Sorted(Insert(x, s, before), before)
  {
    if s == [] {
    } else {
      hide Insert, Sorted, StrictWeakOrder;
      var front, last := s[..|s| - 1], s[|s| - 1];
      assert s == front + [last];
      SortedParts(front, last, before);
      InsertAfterLast(x, front, last, before);
      if before(x, last) {
        InsertResult(x, front, before);
        var r := Insert(x, front, before);
        NotBeforeLast(x, last, before);
        forall y | y in r ensures !before(last, y) { assert y in multiset(r); }
        SortedAppend(r, last, before);
      } else {
        InsertedAtEnd(x, front, last, before);
        SortedAppend(s, x, before);
        assert front + [last, x] == s + [x];
      }
    }
  }

  lemma NotBeforeLast<T(!new)>(x: T, last: T, before: (T, T) -> bool)
    requires StrictWeakOrder(before) && before(x, last)
    ensures !before(last, x)
  {}

  /** The sorted list has the same elements, in order. */
  lemma {:induction false} StableSortResult<T(!new)>(s: seq<T>, before: (T, T) -> bool)
    requires StrictWeakOrder(before)
    ensures multiset(StableSort(s, before)) == multiset(s)
    ensures Sorted(StableSort(s, before), before)
  {
    if s != [] {
      hide StableSort, Insert, Sorted, StrictWeakOrder;
      var front, last := s[..|s| - 1], s[|s| - 1];
      assert s == front + [last];
      StableSortResult(front, before);
      SortAppend(front, last, before);
      InsertResult(last, StableSort(front, before), before);
    }
  }

  lemma FilterAppend<T>(s: seq<T>, x: T, keep: T -> bool)
    ensures Filter(s + [x], keep) == Filter(s, keep) + (if keep(x) then [x] else [])
  {
    assert (s + [x])[..|s|] == s;
  }

  lemma {:induction false} FilterKeeps<T(!new)>(s: seq<T>, keep: T -> bool)
    ensures forall x :: x in Filter(s, keep) <==> x in s && keep(x)
  {
    if s != [] {
      FilterKeeps(s[..|s| - 1], keep);
      assert s == s[..|s| - 1] + [s[|s| - 1]];
    }
  }

  lemma {:induction false} FilterCounts<T>(s: seq<T>, keep: T -> bool, x: T)
    ensures multiset(Filter(s, keep))[x] == if keep(x) then multiset(s)[x] else 0
  {
    if s != [] {
      FilterCounts(s[..|s| - 1], keep, x);
      assert s == s[..|s| - 1] + [s[|s| - 1]];
    }
  }

  /** Elements that the order does not tell apart stay as they are. */
  lemma {:induction false} TiesStay<T>(s: seq<T>, before: (T, T) -> bool)
    requires forall x, y :: x in s && y in s ==> !before(x, y)
    ensures StableSort(s, before) == s
  {
    if s != [] {
      var front, last := s[..|s| - 1], s[|s| - 1];
      assert s == front + [last];
      TiesStay(front, before);
      InsertAfterAll(last, front, before);
    }
  }

  /** The sort is stable: of elements that the order does not tell apart the sequence is kept. */
  lemma StableSortIsStable<T(!new)>(s: seq<T>, before: (T, T) -> bool, tied: T -> bool)
    requires StrictWeakOrder(before) && forall x, y :: tied(x) && tied(y) ==> !before(x, y)
    ensures Filter(StableSort(s, before), tied) == Filter(s, tied)
  {
    FilterSort(s, before, tied);
    FilterKeeps(s, tied);
    TiesStay(Filter(s, tied), before);
  }

  lemma InsertAfterLast<T>(x: T, s: seq<T>, last: T, before: (T, T) -> bool)
    ensures Insert(x, s + [last], before) == if before(x, last) then Insert(x, s, before) + [last] else s + [last, x]
  {
    assert (s + [last])[..|s|] == s && s + [last] + [x] == s + [last, x];
  }

  lemma InsertAfterAll<T>(x: T, s: seq<T>, before: (T, T) -> bool)
    requires forall y :: y in s ==> !before(x, y)
    ensures Insert(x, s, before) == s + [x]
  {}

  lemma SortedParts<T>(front: seq<T>, last: T, before: (T, T) -> bool)
    requires Sorted(front + [last], before)
    ensures Sorted(front, before) && forall y :: y in front ==> !before(last, y)
  {
    var s := front + [last];
    forall i, j | 0 <= i < j < |front| ensures !before(front[j], front[i]) { assert !before(s[j], s[i]); }
    forall i | 0 <= i < |front| ensures !before(last, front[i]) { assert !before(s[|front|], s[i]); }
  }

  lemma {:induction false} FilterInsert<T(!new)>(x: T, s: seq<T>, before: (T, T) -> bool, keep: T -> bool)
    requires StrictWeakOrder(before) && Sorted(s, before)
    ensures Filter(Insert(x, s, before), keep) == if keep(x) then Insert(x, Filter(s, keep), before)
              else Filter(s, keep)
  {
    if s == [] {
      FilterAppend(s, x, keep);
    } else {
      hide Filter, Insert, Sorted;
      var front, last := s[..|s| - 1], s[|s| - 1];
      assert s == front + [last];
      SortedParts(front, last, before);
      if before(x, last) {
        hide StrictWeakOrder;
        FilterInsert(x, front, before, keep);
        FilterInsertBefore(x, front, last, before, keep);
      } else {
        FilterInsertAfter(x, front, last, before, keep);
      }
    }
  }

  lemma FilterInsertBefore<T>(x: T, front: seq<T>, last: T, before: (T, T) -> bool, keep: T -> bool)
    requires before(x, last)
    requires Filter(Insert(x, front, before), keep) == if keep(x) then Insert(x, Filter(front, keep), before)
               else Filter(front, keep)
    ensures Filter(Insert(x, front + [last], before), keep) ==
            if keep(x) then Insert(x, Filter(front + [last], keep), before) else Filter(front + [last], keep)
  {
    hide Filter, Insert;
    InsertAfterLast(x, front, last, before);
    FilterAppend(front, last, keep);
    FilterAppend(Insert(x, front, before), last, keep);
    InsertAfterLast(x, Filter(front, keep), last, before);
    assert Filter(front, keep) + [] == Filter(front, keep);
    assert Insert(x, Filter(front, keep), before) + [] == Insert(x, Filter(front, keep), before);
  }

  lemma FilterInsertAfter<T(!new)>(x: T, front: seq<T>, last: T, before: (T, T) -> bool, keep: T -> bool)
    requires StrictWeakOrder(before) && !before(x, last) && forall y :: y in front ==> !before(last, y)
    ensures Filter(Insert(x, front + [last], before), keep) ==
            if keep(x) then Insert(x, Filter(front + [last], keep), before) else Filter(front + [last], keep)
  {
    var s := front + [last];
    var kept := Filter(s, keep);
    InsertAfterLast(x, front, last, before);
    assert front + [last, x] == s + [x];
    FilterAppend(s, x, keep);
    FilterKeeps(s, keep);
    forall y | y in kept ensures !before(x, y) {
      assert y in s && (y == last || !before(last, y));
      assert y == last || y in front;
    }
    InsertAfterAll(x, kept, before);
    hide Filter, Insert, StrictWeakOrder;
    assert kept + [] == kept;
  }

  /** Choosing before or after sorting is the same. */
  lemma {:induction false} FilterSort<T(!new)>(s: seq<T>, before: (T, T) -> bool, keep: T -> bool)
    requires StrictWeakOrder(before)
    ensures Filter(StableSort(s, before), keep) == StableSort(Filter(s, keep), before)
  {
    if s != [] {
      hide Filter, Insert, StableSort, StrictWeakOrder, Sorted;
      var front, last := s[..|s| - 1], s[|s| - 1];
      assert s == front + [last];
      FilterSort(front, before, keep);
      StableSortResult(front, before);
      SortAppend(front, last, before);
      FilterInsert(last, StableSort(front, before), before, keep);
      FilterAppend(front, last, keep);
      SortAppend(Filter(front, keep), last, before);
      assert Filter(front, keep) + [] == Filter(front, keep);
    }
  }

  lemma SortAppend<T>(s: seq<T>, x: T, before: (T, T) -> bool)
    ensures StableSort(s + [x], before) == Insert(x, StableSort(s, before), before)
  {
    assert (s + [x])[..|s|] == s;
  }

  lemma {:induction false} FilterTwice<T>(s: seq<T>, first: T -> bool, second: T -> bool, both: T -> bool)
    requires forall i :: 0 <= i < |s| ==> both(s[i]) == (first(s[i]) && second(s[i]))
    ensures Filter(Filter(s, first), second) == Filter(s, both)
  {
    if s != [] {
      hide Filter;
      var front, last := s[..|s| - 1], s[|s| - 1];
      assert s == front + [last];
      FilterTwice(front, first, second, both);
      FilterAppend(front, last, first);
      FilterAppend(front, last, both);
      FilterAppend(Filter(front, first), last, second);
      assert Filter(front, first) + [] == Filter(front, first) && Filter(front, both) + [] == Filter(front, both);
      assert both(last) == (first(last) && second(last)) by { assert last == s[|s| - 1]; }
    }
  }

  lemma {:induction false} FilterConcat<T>(a: seq<T>, b: seq<T>, keep: T -> bool)
    ensures Filter(a + b, keep) == Filter(a, keep) + Filter(b, keep)
  {
    if b == [] {
      assert a + b == a;
    } else {
      FilterConcat(a, b[..|b| - 1], keep);
      assert (a + b)[..|a + b| - 1] == a + b[..|b| - 1];
    }
  }

  lemma {:induction false} FilterAll<T>(s: seq<T>, keep: T -> bool)
    requires forall i :: 0 <= i < |s| ==> keep(s[i])
    ensures Filter(s, keep) == s
  {
    if s != [] {
      FilterAll(s[..|s| - 1], keep);
    }
  }

  /** Inserting puts the new element somewhere and moves nothing else. */
  lemma {:induction false} InsertSplits<T>(x: T, s: seq<T>, before: (T, T) -> bool) returns (k: nat)
    ensures k <= |s| && Insert(x, s, before) == s[..k] + [x] + s[k..]
  {
    if s == [] || !before(x, s[|s| - 1]) {
      k := |s|;
    } else {
      var front := s[..|s| - 1];
      k := InsertSplits(x, front, before);
      assert front[..k] == s[..k] && s[k..] == front[k..] + [s[|s| - 1]];
    }
  }

  /** The order tells any two different elements apart. */
  ghost predicate TellsApart<T(!new)>(a: seq<T>, before: (T, T) -> bool) {
    forall x, y :: x in a && y in a && x != y ==> before(x, y) || before(y, x)
  }

  lemma LastIsSame<T(!new)>(a: seq<T>, b: seq<T>, before: (T, T) -> bool)
    requires StrictWeakOrder(before) && Sorted(a, before) && Sorted(b, before) && a != [] && b != []
    requires multiset(a) == multiset(b) && TellsApart(a, before)
    ensures a[|a| - 1] == b[|b| - 1]
  {
    var x, y := a[|a| - 1], b[|b| - 1];
    assert x in multiset(b) && y in multiset(a);
    var i :| 0 <= i < |b| && b[i] == x;
    var j :| 0 <= j < |a| && a[j] == y;
  }

  lemma WithoutLast<T>(p: seq<T>, q: seq<T>, x: T)
    requires multiset(p + [x]) == multiset(q + [x])
    ensures multiset(p) == multiset(q)
  {
    assert multiset(p) == multiset(p + [x]) - multiset{x};
    assert multiset(q) == multiset(q + [x]) - multiset{x};
  }

  lemma TellsApartPrefix<T(!new)>(p: seq<T>, x: T, before: (T, T) -> bool)
    requires TellsApart(p + [x], before)
    ensures TellsApart(p, before)
  {
    assert forall y :: y in p ==> y in p + [x];
  }

  lemma SameLength<T>(a: seq<T>, b: seq<T>)
    requires multiset(a) == multiset(b)
    ensures |a| == |b|
  {
    assert |a| == |multiset(a)| == |multiset(b)| == |b|;
  }

  lemma {:induction false} SortedUnique<T(!new)>(a: seq<T>, b: seq<T>, before: (T, T) -> bool)
    requires StrictWeakOrder(before) && Sorted(a, before) && Sorted(b, before)
    requires multiset(a) == multiset(b) && TellsApart(a, before)
    ensures a == b
  {
    hide *;
    SameLength(a, b);
    if a != [] {
      LastIsSame(a, b, before);
      var x, p, q := a[|a| - 1], a[..|a| - 1], b[..|a| - 1];
      assert a == p + [x] && b == q + [x];
      TellsApartPrefix(p, x, before);
      SortedParts(p, x, before);
      SortedParts(q, x, before);
      WithoutLast(p, q, x);
      SortedUnique(p, q, before);
    }
  }

  /** Lists with the same elements, told apart by the order, sort to the same list. */
  lemma StableSortUnique<T(!new)>(a: seq<T>, b: seq<T>, before: (T, T) -> bool)
    requires StrictWeakOrder(before) && multiset(a) == multiset(b) && TellsApart(a, before)
    ensures StableSort(a, before) == StableSort(b, before)
  {
    StableSortResult(a, before);
    StableSortResult(b, before);
    forall x | x in StableSort(a, before) ensures x in a {
      assert x in multiset(StableSort(a, before));
    }
    SortedUnique(StableSort(a, before), StableSort(b, before), before);
  }

  lemma StableSortLength<T(!new)>(s: seq<T>, before: (T, T) -> bool)
    requires StrictWeakOrder(before)
    ensures |StableSort(s, before)| == |s|
  {
    StableSortResult(s, before);
    assert |StableSort(s, before)| == |multiset(StableSort(s, before))| == |multiset(s)| == |s|;
  }

  predicate Distinct<T(==)>(s: seq<T>) {
    forall i, j :: 0 <= i < j < |s| ==> s[i] != s[j]
  }

  lemma SplitAt<T>(s: seq<T>, i: nat)
    requires i < |s|
    ensures multiset(s)[s[i]] == 1 + multiset(s[..i])[s[i]] + multiset(s[i + 1..])[s[i]]
  {
    assert s == s[..i] + [s[i]] + s[i + 1..];
  }

  lemma OccursOnce<T>(s: seq<T>, x: T)
    requires Distinct(s) && x in s
    ensures multiset(s)[x] == 1
  {
    var k :| 0 <= k < |s| && s[k] == x;
    SplitAt(s, k);
    assert x !in s[..k] && x !in s[k + 1..];
  }

  lemma OccursTwice<T>(s: seq<T>, i: nat, j: nat)
    requires i < j < |s| && s[i] == s[j]
    ensures multiset(s)[s[i]] >= 2
  {
    SplitAt(s, i);
    assert s[i + 1..][j - i - 1] == s[j];
  }

  /** A rearrangement of different elements has different elements. */
  lemma RearrangedDistinct<T>(a: seq<T>, b: seq<T>)
    requires Distinct(a) && multiset(a) == multiset(b)
    ensures Distinct(b)
  {
    forall i, j | 0 <= i < j < |b| ensures b[i] != b[j] {
      assert b[i] in multiset(a);
      OccursOnce(a, b[i]);
      if b[i] == b[j] { OccursTwice(b, i, j); }
    }
  }

  // ---- Sorted keys ----

  /** The keys of a map in ascending order, each once. */
  predicate SortedKeys(names: seq<string>, keys: set<string>) {
    && (forall i, j :: 0 <= i < j < |names| ==> LexLess(names[i], names[j]))
    && (forall k :: k in keys ==> k in names)
    && (forall k :: k in names ==> k in keys)
  }

  lemma LexLessIsWeak()
    ensures StrictWeakOrder(LexLess)
  {
    forall a: string, b: string, c: string
      ensures LexLess(a, b) ==> !LexLess(b, a)
      ensures LexLess(a, c) ==> LexLess(a, b) || LexLess(b, c)
    {
      RanksBeforeWeak((0, a), (0, b), (0, c));
    }
  }

  lemma SortingGivesSortedKeys(names: seq<string>, keys: set<string>)
    requires Distinct(names) && forall k :: k in names <==> k in keys
    ensures SortedKeys(StableSort(names, LexLess), keys)
  {
    LexLessIsWeak();
    StableSortResult(names, LexLess);
    var r := StableSort(names, LexLess);
    RearrangedDistinct(names, r);
    forall i, j | 0 <= i < j < |r| ensures LexLess(r[i], r[j]) { LexLessTotal(r[i], r[j]); }
    forall k ensures k in r <==> k in keys {
      assert k in multiset(r) <==> k in multiset(names);
    }
  }

  /** Whatever order a map is walked in, its sorted keys are the same. */
  lemma {:induction false} SortedKeysUnique(a: seq<string>, b: seq<string>, keys: set<string>)
    requires SortedKeys(a, keys) && SortedKeys(b, keys)
    ensures a == b
  {
    if b != [] { assert b[0] in keys; }
    if a != [] {
      assert a[0] in keys;
      SameFirst(a, b, keys);
      var rest := keys - {a[0]};
      WithoutFirst(a, keys);
      WithoutFirst(b, keys);
      SortedKeysUnique(a[1..], b[1..], rest);
      assert a == [a[0]] + a[1..] && b == [b[0]] + b[1..];
    }
  }

  lemma SameFirst(a: seq<string>, b: seq<string>, keys: set<string>)
    requires SortedKeys(a, keys) && SortedKeys(b, keys) && a != [] && b != []
    ensures a[0] == b[0]
  {
    assert a[0] in keys && b[0] in keys;
    var i :| 0 <= i < |b| && b[i] == a[0];
    var j :| 0 <= j < |a| && a[j] == b[0];
    if i != 0 && j != 0 { LexLessAsymmetric(a[0], a[j]); }
  }

  lemma WithoutFirst(a: seq<string>, keys: set<string>)
    requires SortedKeys(a, keys) && a != []
    ensures SortedKeys(a[1..], keys - {a[0]})
  {
    assert a == [a[0]] + a[1..];
    forall k | 1 <= k < |a| ensures a[k] != a[0] { LexLessAsymmetric(a[0], a[k]); }
    forall i | 0 <= i < |a| - 1 ensures a[1..][i] == a[i + 1] {}
  }

  function Mapped<T, U>(s: seq<T>, f: T -> U): seq<U> {
    seq(|s|, i requires 0 <= i < |s| => f(s[i]))
  }

  lemma MappedSplit<T, U>(a: seq<T>, x: T, b: seq<T>, f: T -> U)
    ensures multiset(Mapped(a + [x] + b, f)) == multiset(Mapped(a + b, f)) + multiset{f(x)}
  {
    assert Mapped(a + [x] + b, f) == Mapped(a, f) + [f(x)] + Mapped(b, f);
    assert Mapped(a + b, f) == Mapped(a, f) + Mapped(b, f);
  }

  lemma WithoutOne<T>(front: seq<T>, x: T, l: seq<T>, r: seq<T>)
    requires multiset(front + [x]) == multiset(l + [x] + r)
    ensures multiset(front) == multiset(l + r)
  {
    assert multiset(front) == multiset(front + [x]) - multiset{x};
    assert multiset(l + r) == multiset(l + [x] + r) - multiset{x};
  }

  lemma {:induction false} MappedMultiset<T, U>(a: seq<T>, b: seq<T>, f: T -> U)
    requires multiset(a) == multiset(b)
    ensures multiset(Mapped(a, f)) == multiset(Mapped(b, f))
  {
    assert |a| == |multiset(a)| == |multiset(b)| == |b|;
    if a != [] {
      var front, x := a[..|a| - 1], a[|a| - 1];
      assert x in multiset(b);
      var k :| 0 <= k < |b| && b[k] == x;
      assert a == front + [x] && b == b[..k] + [x] + b[k + 1..];
      WithoutOne(front, x, b[..k], b[k + 1..]);
      MappedMultiset(front, b[..k] + b[k + 1..], f);
      MappedSplit(front, x, [], f);
      assert front + [x] + [] == a && front + [] == front;
      MappedSplit(b[..k], x, b[k + 1..], f);
    }
  }

  // ---- By order, then by name ----

  predicate RanksBefore(order: int, name: string, otherOrder: int, otherName: string) {
    if order == otherOrder then LexLess(name, otherName) else order < otherOrder
  }

  lemma RanksBeforeWeak(a: (int, string), b: (int, string), c: (int, string))
    ensures RanksBefore(a.0, a.1, b.0, b.1) ==> !RanksBefore(b.0, b.1, a.0, a.1)
    ensures RanksBefore(a.0, a.1, c.0, c.1) ==> RanksBefore(a.0, a.1, b.0, b.1) || RanksBefore(b.0, b.1, c.0, c.1)
    ensures a.1 != b.1 ==> RanksBefore(a.0, a.1, b.0, b.1) || RanksBefore(b.0, b.1, a.0, a.1)
  {
    LexLessTotal(a.1, b.1);
    if LexLess(a.1, b.1) { LexLessAsymmetric(a.1, b.1); }
    if LexLess(b.1, a.1) && LexLess(a.1, c.1) { LexLessTransitive(b.1, a.1, c.1); }
  }
}
