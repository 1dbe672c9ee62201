/** Page filters and sort orders over multi-column keys with NULLs, and what
    walking a result page by page yields. */
module Paging {
  import opened Wrappers
  import opened Sql
  import opened Sorting

  /** One sort key: a result column and whether it is sorted descending. */
  datatype SortKey = SortKey(col: string, descending: bool)

  type Boundary = seq<Value>

  // ----------------------------------------------------------- the compiler

  /** Results are paged as the rows of a subquery named `s`. */
  function KeyRef(k: SortKey): ColRef {
    ColRef("s", k.col)
  }

  function BoundaryTest(k: SortKey, b: Value, isBefore: bool): Cond {
    var op := if k.descending == isBefore then Greater else Less;
    var cmp := Test(TestCmp(op, b), KeyRef(k));
    if b == Null && k.descending && !isBefore then Or([cmp, Test(TestNotNull, KeyRef(k))])
    else if b != Null && k.descending && isBefore then Or([cmp, Test(TestNull, KeyRef(k))])
    else if b == Null && !k.descending && isBefore then Or([cmp, Test(TestNotNull, KeyRef(k))])
    else if b != Null && !k.descending && !isBefore then Or([cmp, Test(TestNull, KeyRef(k))])
    else cmp
  }

  /** `page_filter_sql` */
  function PageFilter(sort: seq<SortKey>, boundary: Boundary, isBefore: bool): Cond
    requires |sort| == |boundary| > 0
  {
    var term := BoundaryTest(sort[0], boundary[0], isBefore);
    if |sort| == 1 then term
    else Or([term, And([Test(TestSame(boundary[0]), KeyRef(sort[0])),
                        PageFilter(sort[1..], boundary[1..], isBefore)])])
  }

  function Reversed(k: SortKey): SortKey {
    k.(descending := !k.descending)
  }

  function ReverseSort(sort: seq<SortKey>): seq<SortKey> {
    seq(|sort|, i requires 0 <= i < |sort| => Reversed(sort[i]))
  }

  /** `sort_components`: the order to sort (and limit) by, and for a backward
      page the order to sort the limited rows by again. */
  method SortComponents(sort: seq<SortKey>, isBefore: bool) returns (sort1: seq<SortKey>, sort2: Option<seq<SortKey>>)
    ensures isBefore ==> sort1 == ReverseSort(sort) && sort2 == Some(sort)
    ensures !isBefore ==> sort1 == sort && sort2 == None
  {
    var norm, revs := [], [];
    for i := 0 to |sort|
      invariant norm == sort[..i]
      invariant |revs| == i && forall j | 0 <= j < i :: revs[j] == Reversed(sort[j])
    {
      norm := norm + [SortKey(sort[i].col, sort[i].descending)];
      revs := revs + [SortKey(sort[i].col, !sort[i].descending)];
    }
    assert sort[..|sort|] == sort;
    if isBefore {
      sort1, sort2 := revs, Some(norm);
    } else {
      sort1, sort2 := norm, None;
    }
  }

  // -------------------------------------------------------------- the order

  /** DESC NULLS FIRST, ASC NULLS LAST: in both directions NULL counts as
      above every value. */
  predicate Above(x: Value, y: Value) {
    y != Null && (x == Null || x.n > y.n)
  }

  predicate PrecedesOne(descending: bool, x: Value, y: Value) {
    if descending then Above(x, y) else Above(y, x)
  }

  /** The strict lexicographic order the sort keys denote. */
  predicate Precedes(sort: seq<SortKey>, x: Boundary, y: Boundary)
    requires |x| == |y| == |sort|
  {
    sort != [] &&
    (PrecedesOne(sort[0].descending, x[0], y[0]) || (x[0] == y[0] && Precedes(sort[1..], x[1..], y[1..])))
  }

  function KeyOf(sort: seq<SortKey>, r: Row): (k: Boundary)
    ensures |k| == |sort|
  {
    seq(|sort|, i requires 0 <= i < |sort| => Field(r, sort[i].col))
  }

  lemma {:induction false} PrecedesTransitive(sort: seq<SortKey>, x: Boundary, y: Boundary, z: Boundary)
    requires |x| == |y| == |z| == |sort|
    requires Precedes(sort, x, y) && Precedes(sort, y, z)
    ensures Precedes(sort, x, z)
  {
    if x[0] == y[0] == z[0] {
      PrecedesTransitive(sort[1..], x[1..], y[1..], z[1..]);
    }
  }

  /** Exactly one of before, same and after. */
  lemma {:induction false} PrecedesTrichotomy(sort: seq<SortKey>, x: Boundary, y: Boundary)
    requires |x| == |y| == |sort|
    ensures !(Precedes(sort, x, y) && Precedes(sort, y, x))
    ensures x == y ==> !Precedes(sort, x, y)
    ensures x != y ==> Precedes(sort, x, y) || Precedes(sort, y, x)
  {
    if sort != [] {
      PrecedesTrichotomy(sort[1..], x[1..], y[1..]);
      assert x == [x[0]] + x[1..] && y == [y[0]] + y[1..];
    }
  }

  lemma {:induction false} ReverseSortReverses(sort: seq<SortKey>, x: Boundary, y: Boundary)
    requires |x| == |y| == |sort|
    ensures Precedes(ReverseSort(sort), x, y) <==> Precedes(sort, y, x)
  {
    if sort != [] {
      ReverseSortReverses(sort[1..], x[1..], y[1..]);
      assert ReverseSort(sort)[1..] == ReverseSort(sort[1..]);
    }
  }

  // ------------------------------------------------------- filter exactness

  lemma BoundaryTestExact(db: Db, env: Env, k: SortKey, b: Value, isBefore: bool)
    ensures var x := Lookup(env, KeyRef(k));
      Holds(db, env, BoundaryTest(k, b, isBefore)) <==>
      if isBefore then PrecedesOne(k.descending, x, b) else PrecedesOne(k.descending, b, x)
  {
    var c := BoundaryTest(k, b, isBefore);
    if c.Or? {
      assert c.cs[0].Test? && c.cs[1].Test?;
      AndOrTrue(db, env, c.cs);
      assert Holds(db, env, c) <==> Holds(db, env, c.cs[0]) || Holds(db, env, c.cs[1]);
    }
  }

  /** For any key length, directions and NULLs the compiled filter is True on
      exactly the rows strictly after (or before) the boundary. */
  lemma {:induction false} PageFilterExact(db: Db, env: Env, sort: seq<SortKey>, boundary: Boundary,
      isBefore: bool, r: Row)
    requires |sort| == |boundary| > 0 && "s" in env && env["s"] == r
    ensures Holds(db, env, PageFilter(sort, boundary, isBefore)) <==>
            if isBefore then Precedes(sort, KeyOf(sort, r), boundary) else Precedes(sort, boundary, KeyOf(sort, r))
    decreases |sort|
  {
    var x := KeyOf(sort, r);
    BoundaryTestExact(db, env, sort[0], boundary[0], isBefore);
    assert x[0] == Lookup(env, KeyRef(sort[0]));
    if |sort| > 1 {
      PageFilterExact(db, env, sort[1..], boundary[1..], isBefore, r);
      assert x[1..] == KeyOf(sort[1..], r);
      var c := PageFilter(sort, boundary, isBefore);
      AndOrTrue(db, env, c.cs);
      AndOrTrue(db, env, c.cs[1].cs);
      assert Holds(db, env, c) <==> Holds(db, env, c.cs[0]) || Holds(db, env, c.cs[1]);
      assert Holds(db, env, c.cs[1]) <==> Holds(db, env, c.cs[1].cs[0]) && Holds(db, env, c.cs[1].cs[1]);
    }
  }

  /** After, before and equal split the rows: each row is in exactly one. */
  lemma PagePartition(db: Db, sort: seq<SortKey>, boundary: Boundary, r: Row)
    requires |sort| == |boundary| > 0
    ensures var env: Env := map["s" := r];
      var after, before, same := Holds(db, env, PageFilter(sort, boundary, false)),
        Holds(db, env, PageFilter(sort, boundary, true)), KeyOf(sort, r) == boundary;
      (after || before || same) && !(after && before) && !(after && same) && !(before && same)
  {
    PageFilterExact(db, map["s" := r], sort, boundary, false, r);
    PageFilterExact(db, map["s" := r], sort, boundary, true, r);
    PrecedesTrichotomy(sort, KeyOf(sort, r), boundary);
  }

  // ----------------------------------------------------------------- pages

  /** The order of result rows by their sort keys. */
  ghost function RowOrder(sort: seq<SortKey>): (Row, Row) -> bool {
    (x, y) => Precedes(sort, KeyOf(sort, x), KeyOf(sort, y))
  }

  lemma RowOrderAsymmetric(sort: seq<SortKey>)
    ensures Asymmetric(RowOrder(sort))
  {
    forall x, y | RowOrder(sort)(x, y) ensures !RowOrder(sort)(y, x) {
      PrecedesTrichotomy(sort, KeyOf(sort, x), KeyOf(sort, y));
    }
  }

  lemma ReverseRowOrder(sort: seq<SortKey>, x: Row, y: Row)
    ensures RowOrder(ReverseSort(sort))(x, y) <==> RowOrder(sort)(y, x)
  {
    assert KeyOf(ReverseSort(sort), x) == KeyOf(sort, x) && KeyOf(ReverseSort(sort), y) == KeyOf(sort, y);
    ReverseSortReverses(sort, KeyOf(sort, x), KeyOf(sort, y));
  }

  /** The sort key tells the rows apart. */
  ghost predicate UniqueKeys(sort: seq<SortKey>, rows: seq<Row>) {
    forall i, j | 0 <= i < j < |rows| :: KeyOf(sort, rows[i]) != KeyOf(sort, rows[j])
  }

  /** The whole result in order, with unique keys. */
  ghost predicate SortedResult(sort: seq<SortKey>, rows: seq<Row>, all: seq<Row>) {
    OrderBy(RowOrder(sort), rows, all) && UniqueKeys(sort, all)
  }

  lemma SortedIsStrict(sort: seq<SortKey>, rows: seq<Row>)
    requires Ordered(RowOrder(sort), rows) && UniqueKeys(sort, rows)
    ensures Strict(RowOrder(sort), rows)
  {
    forall i, j | 0 <= i < j < |rows| ensures RowOrder(sort)(rows[i], rows[j]) {
      assert !RowOrder(sort)(rows[j], rows[i]);
      PrecedesTrichotomy(sort, KeyOf(sort, rows[i]), KeyOf(sort, rows[j]));
    }
  }

  /** The WHERE clause of a page. */
  function PageWhere(sort: seq<SortKey>, after: Option<Boundary>, before: Option<Boundary>): Cond
    requires sort != [] && (after.Some? ==> |after.value| == |sort|) && (before.Some? ==> |before.value| == |sort|)
  {
    match (after, before)
    case (Some(a), Some(b)) => And([PageFilter(sort, a, false), PageFilter(sort, b, true)])
    case (Some(a), None) => PageFilter(sort, a, false)
    case (None, Some(b)) => PageFilter(sort, b, true)
    case (None, None) => Const(true)
  }

  ghost function Keeps(db: Db, c: Cond): Row -> bool {
    r => Holds(db, map["s" := r], c)
  }

  /** A possible answer to a sorted page request: filter, sort, limit and, for
      a page given only by its end, sort back. Such a page without a limit is
      refused. */
  ghost predicate PageResult(db: Db, sort: seq<SortKey>, rows: seq<Row>, after: Option<Boundary>,
      before: Option<Boundary>,
                             limit: Option<nat>, out: seq<Row>)
    requires sort != [] && (after.Some? ==> |after.value| == |sort|) && (before.Some? ==> |before.value| == |sort|)
  {
    var kept := Filter(rows, Keeps(db, PageWhere(sort, after, before)));
    if after.None? && before.Some? then
      limit.Some? && exists rev :: OrderBy(RowOrder(ReverseSort(sort)), kept, rev)
                                   && OrderBy(RowOrder(sort), Limited(rev, limit.value), out)
    else
      exists sorted :: OrderBy(RowOrder(sort), kept, sorted)
                       && out == if limit.Some? then Limited(sorted, limit.value) else sorted
  }

  /** With both bounds a page is what lies strictly between them. */
  lemma BetweenExact(db: Db, sort: seq<SortKey>, a: Boundary, b: Boundary, r: Row)
    requires |sort| == |a| == |b| > 0
    ensures Keeps(db, PageWhere(sort, Some(a), Some(b)))(r) <==>
            Precedes(sort, a, KeyOf(sort, r)) && Precedes(sort, KeyOf(sort, r), b)
  {
    var env: Env := map["s" := r];
    PageFilterExact(db, env, sort, a, false, r);
    PageFilterExact(db, env, sort, b, true, r);
    var c := PageWhere(sort, Some(a), Some(b));
    AndOrTrue(db, env, c.cs);
    assert Holds(db, env, c) <==> Holds(db, env, c.cs[0]) && Holds(db, env, c.cs[1]);
  }

  /** The page filter keeps exactly the rows beyond the first k of the sorted
      result when the boundary is the k-th row's key. */
  lemma AfterKeeps(db: Db, sort: seq<SortKey>, all: seq<Row>, k: nat, i: nat)
    requires sort != [] && Strict(RowOrder(sort), all) && 0 < k <= |all| && i < |all|
    ensures Keeps(db, PageWhere(sort, Some(KeyOf(sort, all[k - 1])), None))(all[i]) <==> k <= i
  {
    var b := KeyOf(sort, all[k - 1]);
    PageFilterExact(db, map["s" := all[i]], sort, b, false, all[i]);
    PrecedesTrichotomy(sort, KeyOf(sort, all[i]), b);
    if i < k - 1 { assert RowOrder(sort)(all[i], all[k - 1]); }
    if k <= i { assert RowOrder(sort)(all[k - 1], all[i]); }
  }

  /** A page given by the key of the last row already seen is the next stretch
      of the sorted result. */
  lemma AfterPageExact(db: Db, sort: seq<SortKey>, rows: seq<Row>, all: seq<Row>, k: nat, limit: nat, out: seq<Row>)
    requires sort != [] && SortedResult(sort, rows, all) && k <= |all|
    requires PageResult(db, sort, rows, if k == 0 then None else Some(KeyOf(sort, all[k - 1])), None, Some(limit), out)
    ensures out == Limited(all[k..], limit)
  {
    var after := if k == 0 then None else Some(KeyOf(sort, all[k - 1]));
    var p := Keeps(db, PageWhere(sort, after, None));
    RowOrderAsymmetric(sort);
    SortedIsStrict(sort, all);
    forall i | 0 <= i < |all| ensures p(all[i]) <==> k <= i {
      if k > 0 {
        AfterKeeps(db, sort, all, k, i);
      }
    }
    FilterSuffix(all, p, k);
    var sorted :| OrderBy(RowOrder(sort), Filter(rows, p), sorted) && out == Limited(sorted, limit);
    SortedFilter(RowOrder(sort), rows, all, p, sorted);
  }

  /** A page given only by its end, `@before(b)` with limit n, is the last
      min(n, m) of the m rows preceding b, in normal order. */
  lemma BeforePageExact(db: Db, sort: seq<SortKey>, rows: seq<Row>, preceding: seq<Row>, b: Boundary, limit: nat,
      out: seq<Row>)
    requires sort != [] && |b| == |sort|
    requires SortedResult(sort, Filter(rows, r => Precedes(sort, KeyOf(sort, r), b)), preceding)
    requires PageResult(db, sort, rows, None, Some(b), Some(limit), out)
    ensures out == preceding[if limit < |preceding| then |preceding| - limit else 0..]
  {
    var p := Keeps(db, PageWhere(sort, None, Some(b)));
    forall r ensures p(r) <==> Precedes(sort, KeyOf(sort, r), b) {
      PageFilterExact(db, map["s" := r], sort, b, true, r);
    }
    FilterSame(rows, p, r => Precedes(sort, KeyOf(sort, r), b));
    var rev :| OrderBy(RowOrder(ReverseSort(sort)), Filter(rows, p), rev)
      && OrderBy(RowOrder(sort), Limited(rev, limit), out);
    RowOrderAsymmetric(sort);
    SortedIsStrict(sort, preceding);
    forall x, y ensures RowOrder(ReverseSort(sort))(x, y) <==> RowOrder(sort)(y, x) {
      ReverseRowOrder(sort, x, y);
    }
    ReverseLimitResort(RowOrder(sort), RowOrder(ReverseSort(sort)), Filter(rows, p), preceding, rev, limit, out);
  }

  lemma {:induction false} FilterSame(a: seq<Row>, p: Row -> bool, q: Row -> bool)
    requires forall r :: p(r) <==> q(r)
    ensures Filter(a, p) == Filter(a, q)
  {
    if a != [] {
      FilterSame(a[1..], p, q);
    }
  }

  // ------------------------------------------------------------ page walks

  function Flatten(pages: seq<seq<Row>>): seq<Row> {
    if pages == [] then [] else Flatten(pages[..|pages| - 1]) + pages[|pages| - 1]
  }

  /** The next page of a client's walk is requested after the last row of the
      page before it, over an unchanged result. */
  ghost predicate NextPage(db: Db, sort: seq<SortKey>, rows: seq<Row>, limit: nat, before: seq<seq<Row>>,
      page: seq<Row>)
    requires sort != []
  {
    if before == [] then PageResult(db, sort, rows, None, None, Some(limit), page)
    else
      var prev := before[|before| - 1];
      prev != [] && PageResult(db, sort, rows, Some(KeyOf(sort, prev[|prev| - 1])), None, Some(limit), page)
  }

  ghost predicate Walk(db: Db, sort: seq<SortKey>, rows: seq<Row>, limit: nat, pages: seq<seq<Row>>)
    requires sort != []
  {
    pages == [] ||
    (Walk(db, sort, rows, limit, pages[..|pages| - 1])
     && NextPage(db, sort, rows, limit, pages[..|pages| - 1], pages[|pages| - 1]))
  }

  lemma WalkStep(db: Db, sort: seq<SortKey>, rows: seq<Row>, all: seq<Row>, limit: nat, seen: seq<Row>, page: seq<Row>)
    requires sort != [] && SortedResult(sort, rows, all) && seen <= all
    requires PageResult(db, sort, rows, if seen == [] then None
      else Some(KeyOf(sort, seen[|seen| - 1])), None, Some(limit), page)
    ensures page == Limited(all[|seen|..], limit) && seen + page <= all
  {
    if seen != [] {
      assert seen[|seen| - 1] == all[|seen| - 1];
    }
    AfterPageExact(db, sort, rows, all, |seen|, limit, page);
    PageExtends(seen, page, all, limit);
  }

  lemma PageExtends<T>(seen: seq<T>, page: seq<T>, all: seq<T>, limit: nat)
    requires seen <= all && page == Limited(all[|seen|..], limit)
    ensures seen + page <= all
  {
  }

  /** The rows seen after a nonempty page end with that page's last row. */
  lemma LastSeen(pages: seq<seq<Row>>)
    requires pages != [] && pages[|pages| - 1] != []
    ensures var page, seen := pages[|pages| - 1], Flatten(pages);
      seen != [] && seen[|seen| - 1] == page[|page| - 1]
  {
  }

  /** Each page of a walk is the next stretch of the sorted result, so what has
      been yielded so far is a prefix of it. */
  lemma {:induction false} WalkYieldsPrefix(db: Db, sort: seq<SortKey>, rows: seq<Row>, all: seq<Row>, limit: nat,
      pages: seq<seq<Row>>)
    requires sort != [] && limit >= 1 && SortedResult(sort, rows, all)
    requires Walk(db, sort, rows, limit, pages)
    ensures Flatten(pages) <= all
    ensures pages != [] ==> pages[|pages| - 1] == Limited(all[|Flatten(pages[..|pages| - 1])|..], limit)
    decreases |pages|
  {
    if pages != [] {
      var front := pages[..|pages| - 1];
      WalkYieldsPrefix(db, sort, rows, all, limit, front);
      if front != [] {
        LastSeen(front);
      }
      WalkStep(db, sort, rows, all, limit, Flatten(front), pages[|pages| - 1]);
    }
  }

  /** Every page but the last of a walk brings at least one row. */
  lemma {:induction false} WalkLength(db: Db, sort: seq<SortKey>, rows: seq<Row>, limit: nat, pages: seq<seq<Row>>)
    requires sort != [] && pages != [] && Walk(db, sort, rows, limit, pages)
    ensures |pages| <= |Flatten(pages[..|pages| - 1])| + 1
    decreases |pages|
  {
    var front := pages[..|pages| - 1];
    if front != [] {
      WalkLength(db, sort, rows, limit, front);
      PreviousNonEmpty(db, sort, rows, limit, front, pages[|pages| - 1]);
      FlattenGrows(front);
    }
  }

  lemma PreviousNonEmpty(db: Db, sort: seq<SortKey>, rows: seq<Row>, limit: nat, before: seq<seq<Row>>, page: seq<Row>)
    requires sort != [] && before != [] && NextPage(db, sort, rows, limit, before, page)
    ensures before[|before| - 1] != []
  {
  }

  lemma FlattenGrows(pages: seq<seq<Row>>)
    requires pages != [] && pages[|pages| - 1] != []
    ensures |Flatten(pages)| > |Flatten(pages[..|pages| - 1])|
  {
  }

  /** The walk ends within |result| + 1 pages, and it meets an empty page
      exactly when the pages before it have yielded every row, once each and
      in order. */
  lemma WalkComplete(db: Db, sort: seq<SortKey>, rows: seq<Row>, all: seq<Row>, limit: nat, pages: seq<seq<Row>>)
    requires sort != [] && limit >= 1 && SortedResult(sort, rows, all)
    requires pages != [] && Walk(db, sort, rows, limit, pages)
    ensures |pages| <= |all| + 1
    ensures pages[|pages| - 1] == [] <==> Flatten(pages[..|pages| - 1]) == all
  {
    WalkYieldsPrefix(db, sort, rows, all, limit, pages);
    WalkYieldsPrefix(db, sort, rows, all, limit, pages[..|pages| - 1]);
    WalkLength(db, sort, rows, limit, pages);
  }

  // ----------------------------------------------- every page has an answer

  lemma PrecedesWeak(sort: seq<SortKey>, x: Boundary, y: Boundary, z: Boundary)
    requires |x| == |y| == |z| == |sort| && Precedes(sort, x, z)
    ensures Precedes(sort, x, y) || Precedes(sort, y, z)
  {
    PrecedesTrichotomy(sort, x, y);
    if Precedes(sort, y, x) {
      PrecedesTransitive(sort, y, x, z);
    }
  }

  lemma RowOrderWeak(sort: seq<SortKey>)
    ensures WeakOrder(RowOrder(sort))
  {
    RowOrderAsymmetric(sort);
    forall x, y, z | RowOrder(sort)(x, z) ensures RowOrder(sort)(x, y) || RowOrder(sort)(y, z) {
      PrecedesWeak(sort, KeyOf(sort, x), KeyOf(sort, y), KeyOf(sort, z));
    }
  }

  /** Every request has an answer, except one given by its end alone and
      without a limit. */
  lemma PageExists(db: Db, sort: seq<SortKey>, rows: seq<Row>, after: Option<Boundary>, before: Option<Boundary>,
      limit: Option<nat>)
    requires sort != [] && (after.Some? ==> |after.value| == |sort|) && (before.Some? ==> |before.value| == |sort|)
    ensures (exists out :: PageResult(db, sort, rows, after, before, limit, out)) <==>
      !(after.None? && before.Some? && limit.None?)
  {
    var kept := Filter(rows, Keeps(db, PageWhere(sort, after, before)));
    RowOrderWeak(sort);
    if after.None? && before.Some? && limit.Some? {
      RowOrderWeak(ReverseSort(sort));
      var rev := OrderByExists(RowOrder(ReverseSort(sort)), kept);
      var out := OrderByExists(RowOrder(sort), Limited(rev, limit.value));
      assert PageResult(db, sort, rows, after, before, limit, out);
    } else if after.Some? || before.None? {
      var sorted := OrderByExists(RowOrder(sort), kept);
      assert PageResult(db, sort, rows, after, before, limit, if limit.Some? then Limited(sorted, limit.value)
        else sorted);
    }
  }

  /** A walk that has not met an empty page yet. */
  ghost predicate Unfinished(pages: seq<seq<Row>>) {
    pages == [] || pages[|pages| - 1] != []
  }

  lemma NextExists(db: Db, sort: seq<SortKey>, rows: seq<Row>, limit: nat, before: seq<seq<Row>>)
      returns (page: seq<Row>)
    requires sort != [] && Unfinished(before)
    ensures NextPage(db, sort, rows, limit, before, page)
  {
    var after := None;
    if before != [] {
      var prev := before[|before| - 1];
      after := Some(KeyOf(sort, prev[|prev| - 1]));
    }
    PageExists(db, sort, rows, after, None, Some(limit));
    page :| PageResult(db, sort, rows, after, None, Some(limit), page);
  }

  lemma WalkAppend(db: Db, sort: seq<SortKey>, rows: seq<Row>, limit: nat, pages: seq<seq<Row>>, page: seq<Row>)
    requires sort != [] && Walk(db, sort, rows, limit, pages) && NextPage(db, sort, rows, limit, pages, page)
    ensures Walk(db, sort, rows, limit, pages + [page])
  {
    var more := pages + [page];
    assert more[..|more| - 1] == pages && more[|more| - 1] == page;
  }

  /** Such a walk goes on, ... */
  lemma WalkGoesOn(db: Db, sort: seq<SortKey>, rows: seq<Row>, limit: nat, pages: seq<seq<Row>>)
      returns (page: seq<Row>)
    requires sort != [] && Walk(db, sort, rows, limit, pages) && Unfinished(pages)
    ensures Walk(db, sort, rows, limit, pages + [page])
  {
    page := NextExists(db, sort, rows, limit, pages);
    WalkAppend(db, sort, rows, limit, pages, page);
  }

  ghost predicate Finished(all: seq<Row>, pages: seq<seq<Row>>) {
    pages != [] && pages[|pages| - 1] == [] && Flatten(pages[..|pages| - 1]) == all && |pages| <= |all| + 1
  }

  lemma WalkFinished(db: Db, sort: seq<SortKey>, rows: seq<Row>, all: seq<Row>, limit: nat, pages: seq<seq<Row>>)
    requires sort != [] && limit >= 1 && SortedResult(sort, rows, all)
    requires Walk(db, sort, rows, limit, pages)
    ensures |pages| <= |all| + 1 && (!Unfinished(pages) ==> Finished(all, pages))
  {
    if pages != [] {
      WalkComplete(db, sort, rows, all, limit, pages);
    }
  }

  /** ... and can so be followed to its end, where it has yielded every row of
      the sorted result once and in order. */
  lemma {:induction false} WalkReachesEnd(db: Db, sort: seq<SortKey>, rows: seq<Row>, all: seq<Row>, limit: nat,
      pages: seq<seq<Row>>)
      returns (whole: seq<seq<Row>>)
    requires sort != [] && limit >= 1 && SortedResult(sort, rows, all)
    requires Walk(db, sort, rows, limit, pages)
    ensures pages <= whole && Walk(db, sort, rows, limit, whole) && Finished(all, whole)
    decreases |all| + 1 - |pages|
  {
    WalkFinished(db, sort, rows, all, limit, pages);
    whole := pages;
    if Unfinished(pages) {
      var page := WalkGoesOn(db, sort, rows, limit, pages);
      WalkFinished(db, sort, rows, all, limit, pages + [page]);
      whole := WalkReachesEnd(db, sort, rows, all, limit, pages + [page]);
    }
  }
}
