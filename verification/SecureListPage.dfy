/** One-pass pagination over the rows a reader may see (cmd/server/handleTableView.go). */
module SecureListPage {
  import opened Common

  /** A row as read, and what is left of it for the reader; None when it is hidden. */
  type Reader<!Row, !View> = Row -> Option<View>

  datatype PageResult<View> = PageResult(page: nat, rows: seq<View>, totalRows: nat, totalPages: nat, hasNext: bool,
                                         countExact: bool)

  // ---- Reference: filter, then slice ----

  function Readable<Row, View>(rows: seq<Row>, reader: Reader<Row, View>): seq<View> {
    if rows == [] then [] else
    var last := reader(rows[|rows| - 1]);
    Readable(rows[..|rows| - 1], reader) + (if last.Some? then [last.value] else [])
  }

  function Min(a: int, b: int): int { if a < b then a else b }

  /** Rows [(page-1)*size, min(page*size, n)) of a list, empty when the page lies past its end. */
  function Slice<T>(xs: seq<T>, page: nat, size: nat): seq<T>
    requires page > 0
  {
    Window(xs, (page - 1) * size, size)
  }

  function Window<T>(xs: seq<T>, from: nat, size: nat): seq<T> {
    if from >= |xs| then [] else xs[from..Min(from + size, |xs|)]
  }

  /** Number of pages, at least one: the arithmetic of the unsecured list. */
  function PageCount(n: nat, size: nat): (pages: nat)
    requires size > 0
    ensures pages >= 1
  {
    if n > 0 then CeilingPositive(n, size); (n + size - 1) / size else 1
  }

  /** The last `k` items of a list. */
  function LastItems<T>(xs: seq<T>, k: nat): seq<T> {
    if |xs| <= k then xs else xs[|xs| - k..]
  }

  /** The page the unsecured list shows: LIMIT size OFFSET (page-1)*size after clamping the page. */
  function UnsecuredPage<T>(xs: seq<T>, page: nat, size: nat): seq<T>
    requires page > 0 && size > 0
  {
    Slice(xs, if page > PageCount(|xs|, size) then PageCount(|xs|, size) else page, size)
  }

  // ---- Arithmetic of pages ----

  lemma CeilingPositive(n: nat, size: nat)
    requires n > 0 && size > 0
    ensures var q := (n + size - 1) / size; q >= 1 && (q - 1) * size < n <= q * size
  {
    var q := (n + size - 1) / size;
    assert n + size - 1 == q * size + (n + size - 1) % size;
    assert (q - 1) * size == q * size - size;
    assert q < 1 ==> q * size <= 0;
  }

  /** A page is in range exactly when a row stands before it or it is the first. */
  lemma PastEndIff(n: nat, page: nat, size: nat)
    requires page > 0 && size > 0
    ensures page > PageCount(n, size) <==> (page > 1 && (page - 1) * size >= n)
    ensures page < PageCount(n, size) <==> page * size < n
  {
    var q := PageCount(n, size);
    if n > 0 { CeilingPositive(n, size); }
    if page > q { MulMonotone(q, page - 1, size); }
    if page < q { MulMonotone(page, q - 1, size); }
    if page >= q { MulMonotone(q, page, size); }
    if page <= q { MulMonotone(page - 1, q - 1, size); }
  }

  lemma MulMonotone(a: nat, b: nat, c: nat)
    requires a <= b
    ensures a * c <= b * c
  {
    assert b * c == a * c + (b - a) * c;
  }

  // ---- The single pass ----

  lemma WindowAppend<T>(xs: seq<T>, x: T, from: nat, size: nat)
    requires size > 0
    ensures Window(xs + [x], from, size) == if from <= |xs| < from + size then Window(xs, from, size) + [x]
              else Window(xs, from, size)
    ensures |Window(xs, from, size)| == if from <= |xs| then Min(|xs| - from, size) else 0
  {}

  lemma LastItemsAppend<T>(xs: seq<T>, x: T, k: nat)
    requires k > 0
    ensures LastItems(xs + [x], k) == if |xs| >= k then LastItems(xs, k)[1..] + [x] else LastItems(xs, k) + [x]
    ensures |LastItems(xs, k)| == Min(|xs|, k)
  {}

  lemma ReadableStep<Row, View>(rows: seq<Row>, i: nat, reader: Reader<Row, View>)
    requires i < |rows|
    ensures Readable(rows[..i + 1], reader) ==
              Readable(rows[..i], reader) + (if reader(rows[i]).Some? then [reader(rows[i]).value] else [])
    ensures reader(rows[i]).None? ==> Readable(rows[..i + 1], reader) == Readable(rows[..i], reader)
  {
    assert rows[..i + 1][..i] == rows[..i];
  }

  lemma NothingReadYet<Row, View>(rows: seq<Row>, reader: Reader<Row, View>, from: nat, size: nat)
    ensures Readable(rows[..0], reader) == [] && Window(Readable(rows[..0], reader), from, size) == []
              && LastItems(Readable(rows[..0], reader), size) == []
  {}

  method LoadSecureListPage<Row, View>(rows: seq<Row>, requestedPage: int, requestedSize: int,
                                       reader: Reader<Row, View>) returns (result: PageResult<View>)
    ensures PageAnswers(Readable(rows, reader), EffectivePage(requestedPage), EffectiveSize(requestedSize), result)
  {
    var page := EffectivePage(requestedPage);
    var pageSize := EffectiveSize(requestedSize);
    hide PageAnswers, PageCount, Readable, Window, LastItems;
    NothingReadYet(rows, reader, (page - 1) * pageSize, pageSize);
    var targetStart: nat := (page - 1) * pageSize;
    var pageRows: seq<View> := [];
    var lastPageRows: seq<View> := [];
    var readableCount := 0;
    for i := 0 to |rows|
      invariant readableCount == |Readable(rows[..i], reader)|
      invariant pageRows == Window(Readable(rows[..i], reader), targetStart, pageSize)
      invariant lastPageRows == LastItems(Readable(rows[..i], reader), pageSize)
      invariant readableCount <= targetStart + pageSize
    {
      ghost var seen := Readable(rows[..i], reader);
      ReadableStep(rows, i, reader);
      var filteredRow := reader(rows[i]);
      if filteredRow.None? {
        continue;
      }
      WindowAppend(seen, filteredRow.value, targetStart, pageSize);
      LastItemsAppend(seen, filteredRow.value, pageSize);
      readableCount := readableCount + 1;
      if |lastPageRows| == pageSize {
        lastPageRows := lastPageRows[1..] + [filteredRow.value];
      } else {
        lastPageRows := lastPageRows + [filteredRow.value];
      }
      if readableCount <= targetStart {
        continue;
      }
      if |pageRows| < pageSize {
        pageRows := pageRows + [filteredRow.value];
        continue;
      }
      ReadablePrefix(rows, i + 1, reader);
      EarlyExitAnswers(seen, filteredRow.value, Readable(rows, reader), page, pageSize);
      return PageResult(page, pageRows, targetStart + |pageRows| + 1, page + 1, true, false);
    }
    assert rows[..|rows|] == rows;
    FullScanAnswers(Readable(rows, reader), page, pageSize);
    var totalPages := PageCount(readableCount, pageSize);
    if page > totalPages {
      return PageResult(totalPages, lastPageRows, readableCount, totalPages, false, true);
    }
    return PageResult(page, pageRows, readableCount, totalPages, page < totalPages, true);
  }

  /** Leaving at the first readable row after a full page is right whatever rows follow. */
  lemma EarlyExitAnswers<View>(seen: seq<View>, extra: View, all: seq<View>, page: nat, size: nat)
    requires page > 0 && size > 0 && |seen| == (page - 1) * size + size && seen + [extra] <= all
    ensures PageAnswers(all, page, size, PageResult(page, Window(seen, (page - 1) * size, size),
                                                    (page - 1) * size + size + 1, page + 1, true, false))
  {
    PastEndIff(|all|, page, size);
    assert page * size == (page - 1) * size + size;
    assert seen == all[..|seen|];
  }

  lemma FullScanAnswers<View>(all: seq<View>, page: nat, size: nat)
    requires page > 0 && size > 0 && |all| <= (page - 1) * size + size
    ensures var q := PageCount(|all|, size);
            PageAnswers(all, page, size,
              if page > q then PageResult(q, LastItems(all, size), |all|, q, false, true)
              else PageResult(page, Window(all, (page - 1) * size, size), |all|, q, page < q, true))
  {
    PastEndIff(|all|, page, size);
    assert page * size == (page - 1) * size + size;
  }

  function EffectivePage(requested: int): nat { if requested < 1 then 1 else requested }

  function EffectiveSize(requested: int): nat { if requested < 1 then 50 else requested }

  lemma {:induction false} ReadablePrefix<Row, View>(rows: seq<Row>, n: nat, reader: Reader<Row, View>)
    requires n <= |rows|
    ensures Readable(rows[..n], reader) <= Readable(rows, reader)
    decreases |rows|
  {
    if n == |rows| {
      assert rows[..n] == rows;
    } else {
      ReadablePrefix(rows[..|rows| - 1], n, reader);
      assert rows[..|rows| - 1][..n] == rows[..n];
    }
  }

  /** What the answer says about the filtered list `all`. */
  ghost predicate PageAnswers<View>(all: seq<View>, page: nat, size: nat, r: PageResult<View>)
    requires page > 0 && size > 0
  {
    if page <= PageCount(|all|, size) then
      && r.page == page
      && r.rows == Slice(all, page, size)
      && (r.hasNext <==> page * size < |all|)
      && (r.countExact <==> !r.hasNext)
      && (r.countExact ==> r.totalRows == |all| && r.totalPages == PageCount(|all|, size))
      && (!r.countExact ==>
          r.totalRows == page * size + 1 <= |all| && r.totalPages == page + 1 <= PageCount(|all|, size))
    else
      && r.page == PageCount(|all|, size)
      && r.rows == LastItems(all, size)
      && !r.hasNext && r.countExact
      && r.totalRows == |all| && r.totalPages == PageCount(|all|, size)
  }

  // ---- Consequences over all pages ----

  /** In range, the single pass shows what the unsecured list would show of the filtered rows. */
  lemma InRangeRefinesUnsecured<View>(all: seq<View>, page: nat, size: nat, r: PageResult<View>)
    requires page > 0 && size > 0 && page <= PageCount(|all|, size)
    requires PageAnswers(all, page, size, r)
    ensures r.rows == UnsecuredPage(all, page, size)
    ensures r.hasNext <==> page < PageCount(|all|, size)
  {
    PastEndIff(|all|, page, size);
  }

  /**
   * Past the end it shows the last `size` rows, which is the true last page only
   * when pages are full or there is one page.
   */
  lemma PastEndRefinesIff<View>(all: seq<View>, page: nat, size: nat, r: PageResult<View>)
    requires page > 0 && size > 0 && page > PageCount(|all|, size)
    requires PageAnswers(all, page, size, r)
    ensures r.rows == UnsecuredPage(all, page, size) <==> |all| % size == 0 || |all| <= size
  {
    var n, q := |all|, PageCount(|all|, size);
    if n > 0 { CeilingPositive(n, size); }
    var from := (q - 1) * size;
    assert from + size == q * size;
    if n <= size {
      if q > 1 { MulMonotone(1, q - 1, size); }
    } else {
      assert n % size == 0 <==> n == q * size by { FullPagesIff(n, q, size); }
    }
  }

  /** Three rows in pages of two: asked for page 5, the pass shows rows 2 and 3, the last page holds only row 3. */
  lemma PastEndExample()
    ensures var all := [1, 2, 3];
            && PageCount(|all|, 2) == 2
            && PageAnswers(all, 5, 2, PageResult(2, [2, 3], 3, 2, false, true))
            && UnsecuredPage(all, 5, 2) == [3]
  {
    assert [1, 2, 3][1..] == [2, 3];
  }

  lemma FullPagesIff(n: nat, q: nat, size: nat)
    requires size > 0 && q >= 1 && (q - 1) * size < n <= q * size
    ensures n % size == 0 <==> n == q * size
  {
    var d := n / size;
    assert n == d * size + n % size;
    if n % size == 0 {
      if d < q { MulMonotone(d, q - 1, size); }
      if d > q { MulMonotone(q + 1, d, size); }
    }
    if n == q * size {
      assert (d + 1) * size == d * size + size && (q + 1) * size == q * size + size;
      if d < q { MulMonotone(d + 1, q, size); }
      if d > q { MulMonotone(q + 1, d, size); }
    }
  }

  /** The pages up to `count`, one after the other. */
  function PagesUpTo<T>(xs: seq<T>, count: nat, size: nat): seq<T> {
    if count == 0 then [] else PagesUpTo(xs, count - 1, size) + Slice(xs, count, size)
  }

  lemma {:induction false} PagesAreAPrefix<T>(xs: seq<T>, count: nat, size: nat)
    requires size > 0
    ensures PagesUpTo(xs, count, size) == xs[..Min(count * size, |xs|)]
  {
    if count != 0 {
      PagesAreAPrefix(xs, count - 1, size);
      assert count * size == (count - 1) * size + size;
    }
  }

  /** All the pages in order are the filtered list. */
  lemma PagesConcatenate<T>(xs: seq<T>, size: nat)
    requires size > 0
    ensures PagesUpTo(xs, PageCount(|xs|, size), size) == xs
  {
    PagesAreAPrefix(xs, PageCount(|xs|, size), size);
    if |xs| > 0 { CeilingPositive(|xs|, size); }
  }

  // ---- Links to the neighbouring pages ----

  /**
   * The page numbers paginationURLs links to, for the answer to a request for
   * `page`: forward exactly when a filtered row stands on the next page, and
   * back exactly when the list has a page before the one shown, which is full.
   */
  method PaginationLinks<View>(r: PageResult<View>, ghost all: seq<View>, ghost page: nat, ghost size: nat)
      returns (prev: Option<nat>, next: Option<nat>)
    requires page > 0 && size > 0 && PageAnswers(all, page, size, r)
    ensures next.Some? <==> Slice(all, page + 1, size) != []
    ensures next.Some? ==> next.value == page + 1
    ensures prev.Some? <==> page > 1 && |all| > size
    ensures prev.Some? ==> 0 < prev.value && |Slice(all, prev.value, size)| == size
    ensures prev.Some? ==> prev.value == r.page - 1
  {
    NextLinkIff(all, page, size, r);
    ShownPage(all, page, size, r);
    prev, next := None, None;
    if r.page > 1 {
      FullPageBefore(all, r.page - 1, size);
      prev := Some(r.page - 1);
    }
    if r.hasNext || (r.countExact && r.page < r.totalPages) {
      next := Some(r.page + 1);
    }
  }

  /** A link forward is offered exactly when a filtered row stands on the next page, and never past the end. */
  lemma NextLinkIff<View>(all: seq<View>, page: nat, size: nat, r: PageResult<View>)
    requires page > 0 && size > 0 && PageAnswers(all, page, size, r)
    ensures (r.hasNext || (r.countExact && r.page < r.totalPages)) <==> Slice(all, page + 1, size) != []
    ensures Slice(all, page + 1, size) != [] ==> r.page == page
  {
    PastEndIff(|all|, page, size);
    if page > PageCount(|all|, size) {
      MulMonotone(page - 1, page, size);
    }
  }

  /** The page shown has a page before it exactly when the list has more rows than one page. */
  lemma ShownPage<View>(all: seq<View>, page: nat, size: nat, r: PageResult<View>)
    requires page > 0 && size > 0 && PageAnswers(all, page, size, r)
    ensures 0 < r.page <= PageCount(|all|, size)
    ensures r.page > 1 <==> page > 1 && |all| > size
  {
    var q := PageCount(|all|, size);
    if |all| > 0 {
      CeilingPositive(|all|, size);
      if q == 1 { assert q * size == size; }
      if q > 1 { MulMonotone(1, q - 1, size); }
    }
  }

  lemma FullPageBefore<View>(all: seq<View>, page: nat, size: nat)
    requires size > 0 && 0 < page < PageCount(|all|, size)
    ensures |Slice(all, page, size)| == size
  {
    CeilingPositive(|all|, size);
    MulMonotone(page, PageCount(|all|, size) - 1, size);
    assert (page - 1) * size + size == page * size;
  }
}
