/** ORDER BY over any strict order: results as ordered permutations, and how
    filtering, limiting and reversing act on them. */
module Sorting {

  ghost predicate Asymmetric<T(!new)>(lt: (T, T) -> bool) {
    forall x, y :: lt(x, y) ==> !lt(y, x)
  }

  /** No later row is strictly before an earlier one. */
  ghost predicate Ordered<T>(lt: (T, T) -> bool, a: seq<T>) {
    forall i, j | 0 <= i < j < |a| :: !lt(a[j], a[i])
  }

  /** Each row is strictly before all later ones. */
  ghost predicate Strict<T>(lt: (T, T) -> bool, a: seq<T>) {
    forall i, j | 0 <= i < j < |a| :: lt(a[i], a[j])
  }

  /** A possible result of ORDER BY. */
  ghost predicate OrderBy<T>(lt: (T, T) -> bool, rows: seq<T>, out: seq<T>) {
    multiset(out) == multiset(rows) && Ordered(lt, out)
  }

  ghost function Filter<T>(a: seq<T>, p: T -> bool): seq<T> {
    if a == [] then [] else (if p(a[0]) then [a[0]] else []) + Filter(a[1..], p)
  }

  function Limited<T>(rows: seq<T>, limit: nat): seq<T> {
    if limit < |rows| then rows[..limit] else rows
  }

  function Backwards<T>(rows: seq<T>): (b: seq<T>)
    ensures |b| == |rows|
  {
    seq(|rows|, i requires 0 <= i < |rows| => rows[|rows| - 1 - i])
  }

  lemma RestOfMultiset<T>(a: seq<T>)
    requires a != []
    ensures multiset(a[1..]) == multiset(a) - multiset{a[0]}
  {
    assert a == [a[0]] + a[1..];
  }

  lemma MultisetIndex<T>(a: seq<T>, x: T) returns (i: nat)
    requires x in multiset(a)
    ensures i < |a| && a[i] == x
  {
    i :| 0 <= i < |a| && a[i] == x;
  }

  lemma SameHead<T(!new)>(lt: (T, T) -> bool, a: seq<T>, b: seq<T>)
    requires Asymmetric(lt) && Strict(lt, a) && Strict(lt, b) && multiset(a) == multiset(b) && a != [] && b != []
    ensures a[0] == b[0]
  {
    assert a[0] in multiset(a) && b[0] in multiset(b);
    var i := MultisetIndex(b, a[0]);
    var j := MultisetIndex(a, b[0]);
  }

  /** A strictly ordered sequence is determined by its rows. */
  lemma {:induction false} StrictUnique<T(!new)>(lt: (T, T) -> bool, a: seq<T>, b: seq<T>)
    requires Asymmetric(lt) && Strict(lt, a) && Strict(lt, b) && multiset(a) == multiset(b)
    ensures a == b
    decreases |a|
  {
    assert |multiset(a)| == |a| && |multiset(b)| == |b|;
    if a != [] {
      SameHead(lt, a, b);
      RestOfMultiset(a);
      RestOfMultiset(b);
      StrictUnique(lt, a[1..], b[1..]);
      assert a == [a[0]] + a[1..] && b == [b[0]] + b[1..];
    }
  }

  lemma TwiceInMultiset<T>(a: seq<T>, i: nat, j: nat)
    requires i < j < |a| && a[i] == a[j]
    ensures multiset(a)[a[i]] >= 2
  {
    assert a == a[..i] + [a[i]] + a[i + 1..j] + [a[j]] + a[j + 1..];
  }

  lemma OnceInStrict<T(!new)>(lt: (T, T) -> bool, a: seq<T>, p: nat)
    requires Asymmetric(lt) && Strict(lt, a) && p < |a|
    ensures multiset(a)[a[p]] == 1
  {
    var pre, post := a[..p], a[p + 1..];
    assert a == pre + [a[p]] + post;
    assert a[p] !in pre && a[p] !in post;
    assert a[p] !in multiset(pre) && a[p] !in multiset(post);
  }

  /** Ordering the rows of a strictly ordered sequence is strict again. */
  lemma StrictAgain<T(!new)>(lt: (T, T) -> bool, kept: seq<T>, sorted: seq<T>)
    requires Asymmetric(lt) && Strict(lt, kept) && OrderBy(lt, kept, sorted)
    ensures Strict(lt, sorted)
  {
    forall i, j | 0 <= i < j < |sorted| ensures lt(sorted[i], sorted[j]) {
      assert sorted[i] in multiset(sorted) && sorted[j] in multiset(sorted);
      var p := MultisetIndex(kept, sorted[i]);
      var q := MultisetIndex(kept, sorted[j]);
      if p == q {
        TwiceInMultiset(sorted, i, j);
        OnceInStrict(lt, kept, p);
      }
    }
  }

  /** So ordering them changes nothing. */
  lemma OrderByStrict<T(!new)>(lt: (T, T) -> bool, kept: seq<T>, sorted: seq<T>)
    requires Asymmetric(lt) && Strict(lt, kept) && OrderBy(lt, kept, sorted)
    ensures sorted == kept
  {
    StrictAgain(lt, kept, sorted);
    StrictUnique(lt, sorted, kept);
  }

  lemma {:induction false} FilterCount<T>(a: seq<T>, p: T -> bool, x: T)
    ensures multiset(Filter(a, p))[x] == if p(x) then multiset(a)[x] else 0
  {
    if a != [] {
      FilterCount(a[1..], p, x);
      assert a == [a[0]] + a[1..];
      assert multiset(a) == multiset{a[0]} + multiset(a[1..]);
    }
  }

  lemma FilterMultiset<T(!new)>(a: seq<T>, b: seq<T>, p: T -> bool)
    requires multiset(a) == multiset(b)
    ensures multiset(Filter(a, p)) == multiset(Filter(b, p))
  {
    forall x ensures multiset(Filter(a, p))[x] == multiset(Filter(b, p))[x] {
      FilterCount(a, p, x);
      FilterCount(b, p, x);
    }
  }

  lemma {:induction false} FilterMember<T>(a: seq<T>, p: T -> bool, x: T)
    ensures x in Filter(a, p) <==> x in a && p(x)
  {
    if a != [] {
      FilterMember(a[1..], p, x);
      assert a == [a[0]] + a[1..];
    }
  }

  lemma {:induction false} FilterStrict<T>(lt: (T, T) -> bool, a: seq<T>, p: T -> bool)
    requires Strict(lt, a)
    ensures Strict(lt, Filter(a, p))
  {
    if a != [] {
      FilterStrict(lt, a[1..], p);
      var rest := Filter(a[1..], p);
      forall j | 0 <= j < |rest| ensures lt(a[0], rest[j]) {
        FilterMember(a[1..], p, rest[j]);
        var k :| 0 <= k < |a[1..]| && a[1..][k] == rest[j];
        assert a[k + 1] == rest[j];
      }
    }
  }

  /** Sorting a filtered result is filtering the sorted one. */
  lemma SortedFilter<T(!new)>(lt: (T, T) -> bool, rows: seq<T>, all: seq<T>, p: T -> bool, sorted: seq<T>)
    requires Asymmetric(lt) && OrderBy(lt, rows, all) && Strict(lt, all)
    requires OrderBy(lt, Filter(rows, p), sorted)
    ensures sorted == Filter(all, p)
  {
    FilterStrict(lt, all, p);
    FilterMultiset(rows, all, p);
    OrderByStrict(lt, Filter(all, p), sorted);
  }

  lemma {:induction false} FilterSuffix<T>(a: seq<T>, p: T -> bool, k: nat)
    requires k <= |a| && forall i | 0 <= i < |a| :: p(a[i]) <==> k <= i
    ensures Filter(a, p) == a[k..]
    decreases |a|
  {
    if a != [] {
      FilterSuffix(a[1..], p, if k == 0 then 0 else k - 1);
      assert a == [a[0]] + a[1..];
    }
  }

  lemma {:induction false} BackwardsMultiset<T>(rows: seq<T>)
    ensures multiset(Backwards(rows)) == multiset(rows)
  {
    if rows != [] {
      var n := |rows| - 1;
      assert rows == rows[..n] + [rows[n]];
      assert Backwards(rows) == [rows[n]] + Backwards(rows[..n]);
      BackwardsMultiset(rows[..n]);
    }
  }

  /** The first rows of a list are the last of it read backwards. */
  lemma LimitedBackwards<T>(rev: seq<T>, limit: nat)
    ensures var from := if limit < |rev| then |rev| - limit else 0;
      Limited(rev, limit) == Backwards(Backwards(rev)[from..])
  {
  }

  lemma BackwardsOrdered<T(!new)>(lt: (T, T) -> bool, gt: (T, T) -> bool, rev: seq<T>)
    requires Ordered(gt, rev) && forall x, y :: gt(x, y) <==> lt(y, x)
    ensures Ordered(lt, Backwards(rev))
  {
    var back := Backwards(rev);
    forall i, j | 0 <= i < j < |back| ensures !lt(back[j], back[i]) {
      assert back[i] == rev[|rev| - 1 - i] && back[j] == rev[|rev| - 1 - j];
      assert !gt(rev[|rev| - 1 - i], rev[|rev| - 1 - j]);
    }
  }

  /** Sorting the reverse way, limiting and sorting back gives the last rows
      of the strictly sorted result. */
  lemma ReverseLimitResort<T(!new)>(lt: (T, T) -> bool, gt: (T, T) -> bool, kept: seq<T>, all: seq<T>, rev: seq<T>,
      limit: nat, out: seq<T>)
    requires Asymmetric(lt) && forall x, y :: gt(x, y) <==> lt(y, x)
    requires OrderBy(lt, kept, all) && Strict(lt, all)
    requires OrderBy(gt, kept, rev) && OrderBy(lt, Limited(rev, limit), out)
    ensures out == all[if limit < |all| then |all| - limit else 0..]
  {
    BackwardsIsSorted(lt, gt, kept, all, rev);
    var last := all[if limit < |all| then |all| - limit else 0..];
    LimitedBackwards(rev, limit);
    BackwardsMultiset(last);
    OrderByStrict(lt, last, out);
  }

  lemma BackwardsIsSorted<T(!new)>(lt: (T, T) -> bool, gt: (T, T) -> bool, kept: seq<T>, all: seq<T>, rev: seq<T>)
    requires Asymmetric(lt) && forall x, y :: gt(x, y) <==> lt(y, x)
    requires OrderBy(lt, kept, all) && Strict(lt, all) && OrderBy(gt, kept, rev)
    ensures Backwards(rev) == all
  {
    BackwardsMultiset(rev);
    BackwardsOrdered(lt, gt, rev);
    OrderByStrict(lt, all, Backwards(rev));
  }

  // -------------------------------------------------------------- existence

  /** Rows that do not tell apart are alike. */
  ghost predicate WeakOrder<T(!new)>(lt: (T, T) -> bool) {
    Asymmetric(lt) && forall x, y, z :: lt(x, z) ==> lt(x, y) || lt(y, z)
  }

  ghost function Insert<T>(lt: (T, T) -> bool, rows: seq<T>, x: T): seq<T> {
    if rows == [] then [x]
    else if lt(x, rows[0]) then [x] + rows
    else [rows[0]] + Insert(lt, rows[1..], x)
  }

  lemma NotBefore<T(!new)>(lt: (T, T) -> bool, x: T, y: T, e: T)
    requires WeakOrder(lt) && lt(x, y) && !lt(e, y)
    ensures !lt(e, x)
  {
  }

  lemma BeforeAll<T(!new)>(lt: (T, T) -> bool, rows: seq<T>, x: T)
    requires WeakOrder(lt) && Ordered(lt, rows) && rows != [] && lt(x, rows[0])
    ensures forall e | e in rows :: !lt(e, x)
  {
    forall e | e in rows ensures !lt(e, x) {
      NotBefore(lt, x, rows[0], e);
    }
  }

  lemma OrderedCons<T(!new)>(lt: (T, T) -> bool, x: T, rest: seq<T>)
    requires Ordered(lt, rest) && forall e | e in rest :: !lt(e, x)
    ensures Ordered(lt, [x] + rest)
  {
  }

  lemma InsertMembers<T>(lt: (T, T) -> bool, rows: seq<T>, x: T)
    ensures multiset(Insert(lt, rows, x)) == multiset(rows) + multiset{x}
    ensures forall e :: e in Insert(lt, rows, x) <==> e in rows || e == x
  {
    if rows != [] {
      RestOfMultiset(rows);
      if !lt(x, rows[0]) {
        InsertMembers(lt, rows[1..], x);
      }
    }
  }

  lemma {:induction false} InsertOrdered<T(!new)>(lt: (T, T) -> bool, rows: seq<T>, x: T)
    requires WeakOrder(lt) && Ordered(lt, rows)
    ensures Ordered(lt, Insert(lt, rows, x))
  {
    if rows == [] {
    } else if lt(x, rows[0]) {
      BeforeAll(lt, rows, x);
      OrderedCons(lt, x, rows);
    } else {
      InsertOrdered(lt, rows[1..], x);
      InsertMembers(lt, rows[1..], x);
      OrderedCons(lt, rows[0], Insert(lt, rows[1..], x));
    }
  }

  /** Any rows can be ordered. */
  lemma {:induction false} OrderByExists<T(!new)>(lt: (T, T) -> bool, rows: seq<T>) returns (out: seq<T>)
    requires WeakOrder(lt)
    ensures OrderBy(lt, rows, out)
  {
    if rows == [] {
      out := [];
    } else {
      var rest := OrderByExists(lt, rows[1..]);
      RestOfMultiset(rows);
      InsertOrdered(lt, rest, rows[0]);
      InsertMembers(lt, rest, rows[0]);
      out := Insert(lt, rest, rows[0]);
    }
  }
}
