/** What compiled joins, filters and paths mean, told by rows alone. */
module PathMeaning {
  import opened Wrappers
  import opened Sql
  import opened Aliases
  import opened Paths
  import opened Projections
  import opened DynAcl
  import opened DynAclEquivalence

  // ------------------------------------------------------------------ links

  /** Row `a` refers to row `b`: each referring column has the value of the
      column it refers to, and none is null. */
  predicate Refers(refmap: seq<(string, string)>, a: Row, b: Row) {
    forall i | 0 <= i < |refmap| :: Field(a, refmap[i].0) == Field(b, refmap[i].1) && Field(a, refmap[i].0) != Null
  }

  /** Outbound, the left row refers to the right one; inbound, the right row to
      the left one; of several alternatives some visible one must hold. */
  predicate LinkHolds(kr: KeyRef, op: RefOp, left: Row, right: Row)
    decreases kr
  {
    match kr
    case KeyRef(_, _, refmap) => if op == Outbound then Refers(refmap, left, right) else Refers(refmap, right, left)
    case MultiRef(_, _, links) =>
      exists i | 0 <= i < |links| :: links[i].visible && LinkHolds(links[i].keyref, links[i].refop, left, right)
  }

  /** A link leads to the table that is referred to, outbound, and to the one
      that refers, inbound. */
  lemma LinkLeadsTo(kr: KeyRef)
    ensures kr.KeyRef? ==> RightTable(kr, Outbound) == kr.pkTable && RightTable(kr, Inbound) == kr.fkTable
    ensures kr.MultiRef? ==> RightTable(kr, Outbound) == kr.rtable && RightTable(kr, Inbound) == kr.ltable
  {
  }

  predicate Bound(env: Env, a: string, r: Row) {
    a in env && env[a] == r
  }

  lemma RefersMeaning(db: Db, env: Env, kr: KeyRef, op: RefOp, l: string, r: string, left: Row, right: Row)
    requires kr.KeyRef? && Bound(env, l, left) && Bound(env, r, right)
    ensures Holds(db, env, JoinSql(kr, op, l, r)) <==>
      if op == Outbound then Refers(kr.refmap, left, right) else Refers(kr.refmap, right, left)
  {
    var cs := JoinSql(kr, op, l, r).cs;
    AndOrTrue(db, env, cs);
    forall i | 0 <= i < |cs|
      ensures Holds(db, env, cs[i]) <==>
        var (a, b) := if op == Outbound then (left, right) else (right, left);
        Field(a, kr.refmap[i].0) == Field(b, kr.refmap[i].1) && Field(a, kr.refmap[i].0) != Null
    {
      assert Lookup(env, cs[i].l) == Field(left, cs[i].l.col) && Lookup(env, cs[i].r) == Field(right, cs[i].r.col);
    }
  }

  lemma VisibleIndex(links: seq<MultiLink>, l: MultiLink) returns (i: nat)
    requires l in VisibleLinks(links)
    ensures i < |links| && links[i] == l && l.visible
  {
    assert l in links;
    i :| 0 <= i < |links| && links[i] == l;
  }

  /** Some visible link holds if and only if one of the conditions compiled from
      the visible links is True. */
  lemma AlternativesMeaning(db: Db, env: Env, links: seq<MultiLink>, cs: seq<Cond>, left: Row, right: Row)
    requires |cs| == |VisibleLinks(links)|
    requires var visible := VisibleLinks(links);
      forall i | 0 <= i < |cs| ::
        Holds(db, env, cs[i]) <==> LinkHolds(visible[i].keyref, visible[i].refop, left, right)
    ensures Holds(db, env, Or(cs)) <==>
      exists i | 0 <= i < |links| :: links[i].visible && LinkHolds(links[i].keyref, links[i].refop, left, right)
  {
    var visible := VisibleLinks(links);
    AndOrTrue(db, env, cs);
    if Holds(db, env, Or(cs)) {
      var i :| 0 <= i < |cs| && Holds(db, env, cs[i]);
      var j := VisibleIndex(links, visible[i]);
      assert links[j].visible && LinkHolds(links[j].keyref, links[j].refop, left, right);
    }
    if j :| 0 <= j < |links| && links[j].visible && LinkHolds(links[j].keyref, links[j].refop, left, right) {
      assert links[j] in visible;
      var i :| 0 <= i < |visible| && visible[i] == links[j];
      assert Holds(db, env, cs[i]);
    }
  }

  /** The compiled ON condition is True exactly if the link holds between the
      rows that the two aliases stand for. */
  lemma {:induction false} JoinMeaning(db: Db, env: Env, kr: KeyRef, op: RefOp, l: string, r: string, left: Row,
      right: Row)
    requires Bound(env, l, left) && Bound(env, r, right)
    ensures Holds(db, env, JoinSql(kr, op, l, r)) <==> LinkHolds(kr, op, left, right)
    decreases kr
  {
    match kr
    case KeyRef(_, _, _) =>
      RefersMeaning(db, env, kr, op, l, r, left, right);
    case MultiRef(_, _, links) =>
      var visible, cs := VisibleLinks(links), JoinSql(kr, op, l, r).cs;
      forall i | 0 <= i < |cs|
        ensures Holds(db, env, cs[i]) <==> LinkHolds(visible[i].keyref, visible[i].refop, left, right)
      {
        assert visible[i] in links;
        JoinMeaning(db, env, visible[i].keyref, visible[i].refop, l, r, left, right);
      }
      AlternativesMeaning(db, env, links, cs, left, right);
  }

  // ---------------------------------------------------------------- filters

  /** Three-valued disjunction and conjunction. */
  function AnyOf(ts: seq<Tri>): Tri {
    if True in ts then True else if Unknown in ts then Unknown else False
  }

  function AllOf(ts: seq<Tri>): Tri {
    if False in ts then False else if Unknown in ts then Unknown else True
  }

  lemma EvalAny(db: Db, env: Env, cs: seq<Cond>, ts: seq<Tri>)
    requires |cs| == |ts| && forall i | 0 <= i < |cs| :: Eval(db, env, cs[i]) == ts[i]
    ensures Eval(db, env, Or(cs)) == AnyOf(ts)
  {
    if True in ts {
      var i :| 0 <= i < |ts| && ts[i] == True;
      assert Eval(db, env, cs[i]) == True;
    } else if Unknown in ts {
      var i :| 0 <= i < |ts| && ts[i] == Unknown;
      assert Eval(db, env, cs[i]) == Unknown;
    }
    assert forall i | 0 <= i < |ts| :: ts[i] in ts;
  }

  lemma EvalAll(db: Db, env: Env, cs: seq<Cond>, ts: seq<Tri>)
    requires |cs| == |ts| && forall i | 0 <= i < |cs| :: Eval(db, env, cs[i]) == ts[i]
    ensures Eval(db, env, And(cs)) == AllOf(ts)
  {
    if False in ts {
      var i :| 0 <= i < |ts| && ts[i] == False;
      assert Eval(db, env, cs[i]) == False;
    } else if Unknown in ts {
      var i :| 0 <= i < |ts| && ts[i] == Unknown;
      assert Eval(db, env, cs[i]) == Unknown;
    }
    assert forall i | 0 <= i < |ts| :: ts[i] in ts;
  }

  /** When the value of an ACL column speaks for the client: it is one of the
      client's attributes, an array that shares one with them, or any value. */
  predicate SpeaksFor(db: Db, projection: Projection, attrs: seq<Value>, x: Value) {
    match projection
    case AclText => x != Null && x in attrs
    case AclTextArray => db.other("&& attributes", x) == True
    case NonNull => x != Null
  }

  lemma ProjectionMeaning(db: Db, projection: Projection, attrs: seq<Value>, x: Value)
    ensures EvalTest(db, ProjectionTest(projection, attrs), x) == True <==> SpeaksFor(db, projection, attrs, x)
  {
  }

  /** A filter's truth for the rows of a path, by position. */
  function FilterTruth(db: Db, attrs: seq<Value>, rows: seq<Row>, f: Filter): Tri
    decreases f
  {
    match f
    case BaseKey => True
    case BaseJoin(_) => True
    case AclTest(pos, col, projection) =>
      if pos < |rows| then EvalTest(db, ProjectionTest(projection, attrs), Field(rows[pos], col)) else Unknown
    case ColumnTest(pos, col, test) => if pos < |rows| then EvalTest(db, test, Field(rows[pos], col)) else Unknown
    case Negation(g) => Negate(FilterTruth(db, attrs, rows, g))
    case Disjunction(fs) => AnyOf(seq(|fs|, i requires 0 <= i < |fs| => FilterTruth(db, attrs, rows, fs[i])))
    case Conjunction(fs) => AllOf(seq(|fs|, i requires 0 <= i < |fs| => FilterTruth(db, attrs, rows, fs[i])))
  }

  /** The aliases of a path's elements stand for the given rows. */
  ghost predicate Binds(env: Env, prefix: string, rows: seq<Row>) {
    forall i | 0 <= i < |rows| :: Bound(env, Alias(prefix, i), rows[i])
  }

  /** The compiled condition has the filter's truth. */
  lemma {:induction false} FilterMeaning(db: Db, env: Env, m: Tables, attrs: seq<Value>, e: Elem, f: Filter,
      prefix: string, rows: seq<Row>)
    requires PlainFilter(f) && FilterOk(f, |rows|) && Binds(env, prefix, rows)
    ensures Eval(db, env, FilterSql(m, attrs, e, f, prefix)) == FilterTruth(db, attrs, rows, f)
    decreases f
  {
    match f
    case AclTest(pos, _, _) => assert Bound(env, Alias(prefix, pos), rows[pos]);
    case ColumnTest(pos, _, _) => assert Bound(env, Alias(prefix, pos), rows[pos]);
    case Negation(g) => FilterMeaning(db, env, m, attrs, e, g, prefix, rows);
    case Disjunction(fs) => FiltersMeaning(db, env, m, attrs, e, f, fs, prefix, rows);
    case Conjunction(fs) => FiltersMeaning(db, env, m, attrs, e, f, fs, prefix, rows);
  }

  lemma {:induction false} FiltersMeaning(db: Db, env: Env, m: Tables, attrs: seq<Value>, e: Elem, parent: Filter,
      fs: seq<Filter>, prefix: string, rows: seq<Row>)
    requires parent == Disjunction(fs) || parent == Conjunction(fs)
    requires (forall i | 0 <= i < |fs| :: PlainFilter(fs[i]) && FilterOk(fs[i], |rows|)) && Binds(env, prefix, rows)
    ensures
      var cs := seq(|fs|, i requires 0 <= i < |fs| => FilterSql(m, attrs, e, fs[i], prefix));
      var ts := seq(|fs|, i requires 0 <= i < |fs| => FilterTruth(db, attrs, rows, fs[i]));
      Eval(db, env, Or(cs)) == AnyOf(ts) && Eval(db, env, And(cs)) == AllOf(ts)
    decreases parent, 0
  {
    var cs := seq(|fs|, i requires 0 <= i < |fs| => FilterSql(m, attrs, e, fs[i], prefix));
    var ts := seq(|fs|, i requires 0 <= i < |fs| => FilterTruth(db, attrs, rows, fs[i]));
    forall i | 0 <= i < |fs| ensures Eval(db, env, cs[i]) == ts[i] {
      FilterMeaning(db, env, m, attrs, e, fs[i], prefix, rows);
    }
    EvalAny(db, env, cs, ts);
    EvalAll(db, env, cs, ts);
  }

  // ------------------------------------------------------------------ paths

  /** The link of element `i` holds between its row and that of the element it
      joins to. */
  predicate LinkedTo(p: Path, rows: seq<Row>, i: nat)
    requires i < |p.elems| && i < |rows|
  {
    var e := p.elems[i];
    e.link.Some? && 0 <= LeftPos(p, e) < |rows| ==>
      LinkHolds(e.link.value.keyref, e.link.value.refop, rows[LeftPos(p, e)], rows[i])
  }

  /** Row `i` is a row of its element's table, linked as the path says. */
  predicate StandsAt(db: Db, p: Path, rows: seq<Row>, i: nat)
    requires i < |p.elems| && i < |rows|
  {
    rows[i] in TableRows(db, p.elems[i].table) && LinkedTo(p, rows, i)
  }

  /** All filters of an element are True; the ACL compiler's own count as such. */
  predicate Passes(db: Db, attrs: seq<Value>, rows: seq<Row>, e: Elem) {
    forall k | 0 <= k < |e.filters| :: FilterTruth(db, attrs, rows, e.filters[k]) == True
  }

  /** One row for each element of the path, satisfying its links and filters. */
  predicate Follows(db: Db, attrs: seq<Value>, p: Path, rows: seq<Row>) {
    && |rows| == |p.elems|
    && (forall i | 0 <= i < |rows| :: StandsAt(db, p, rows, i))
    && (forall i | 0 <= i < |rows| :: Passes(db, attrs, rows, p.elems[i]))
  }

  lemma OnMeaning(db: Db, env: Env, p: Path, prefix: string, rows: seq<Row>, i: nat)
    requires WellFormed(p) && i < |p.elems| && i < |rows| && Binds(env, prefix, rows)
    ensures Holds(db, env, OnCond(p, p.elems[i], prefix)) <==> LinkedTo(p, rows, i)
  {
    assert ElemOk(p, i);
    var e := p.elems[i];
    if e.link.Some? {
      var l := LeftPos(p, e);
      assert Bound(env, Alias(prefix, l), rows[l]) && Bound(env, Alias(prefix, i), rows[i]);
      JoinMeaning(db, env, e.link.value.keyref, e.link.value.refop, Alias(prefix, l), Alias(prefix, i),
        rows[l], rows[i]);
    }
  }

  lemma BindsMore(env: Env, prefix: string, rows: seq<Row>, r: Row)
    requires Binds(env, prefix, rows)
    ensures Binds(env[Alias(prefix, |rows|) := r], prefix, rows + [r])
  {
    forall i | 0 <= i < |rows| ensures Alias(prefix, i) != Alias(prefix, |rows|) {
      AliasesDiffer(prefix, i, |rows|);
    }
  }

  /** The environment with the rows from `k` on bound as well. */
  function Extended(env: Env, prefix: string, rows: seq<Row>, k: nat): Env
    decreases |rows| - k
  {
    if k < |rows| then Extended(env[Alias(prefix, k) := rows[k]], prefix, rows, k + 1) else env
  }

  lemma {:induction false} ExtendedBinds(env: Env, prefix: string, rows: seq<Row>, k: nat)
    requires k <= |rows| && Binds(env, prefix, rows[..k])
    ensures Binds(Extended(env, prefix, rows, k), prefix, rows)
    decreases |rows| - k
  {
    if k == |rows| {
      assert rows[..k] == rows;
    } else {
      BindsMore(env, prefix, rows[..k], rows[k]);
      assert rows[..k] + [rows[k]] == rows[..k + 1];
      ExtendedBinds(env[Alias(prefix, k) := rows[k]], prefix, rows, k + 1);
    }
  }

  /** `rows` completes its first `k` to a choice for the whole path under which
      the conditions are True. */
  ghost predicate Completes(db: Db, env: Env, p: Path, prefix: string, ws: seq<Cond>, front: seq<Row>, rows: seq<Row>) {
    && |rows| == |p.elems| && front <= rows
    && (forall i | |front| <= i < |rows| :: StandsAt(db, p, rows, i))
    && HasRow(db, Extended(env, prefix, rows, |front|), Where(ws))
  }

  ghost predicate Completable(db: Db, env: Env, p: Path, prefix: string, ws: seq<Cond>, front: seq<Row>) {
    exists rows :: Completes(db, env, p, prefix, ws, front, rows)
  }

  lemma LinkedToPrefix(p: Path, front: seq<Row>, rows: seq<Row>, i: nat)
    requires WellFormed(p) && i < |front| && front <= rows && i < |p.elems|
    ensures LinkedTo(p, front, i) <==> LinkedTo(p, rows, i)
  {
    assert ElemOk(p, i);
  }

  /** Joining the rest of a path finds a row exactly if there is such a choice. */
  lemma {:induction false} SuffixMeaning(db: Db, env: Env, p: Path, prefix: string, ws: seq<Cond>, front: seq<Row>)
    requires WellFormed(p) && |front| <= |p.elems| && Binds(env, prefix, front)
    ensures HasRow(db, env, PathFrom(p, p.elems[|front|..], prefix, ws)) <==> Completable(db, env, p, prefix, ws, front)
    decreases |p.elems| - |front|
  {
    var k := |front|;
    if k == |p.elems| {
      if HasRow(db, env, Where(ws)) {
        assert Completes(db, env, p, prefix, ws, front, front);
      }
      if rows :| Completes(db, env, p, prefix, ws, front, rows) {
        assert rows == front;
      }
    } else {
      assert ElemOk(p, k);
      var e, a := p.elems[k], Alias(prefix, k);
      assert p.elems[k..][1..] == p.elems[k + 1..];
      forall r | r in TableRows(db, e.table)
        ensures Holds(db, env[a := r], OnCond(p, e, prefix)) <==> LinkedTo(p, front + [r], k)
        ensures HasRow(db, env[a := r], PathFrom(p, p.elems[k + 1..], prefix, ws)) <==>
          Completable(db, env[a := r], p, prefix, ws, front + [r])
      {
        BindsMore(env, prefix, front, r);
        OnMeaning(db, env[a := r], p, prefix, front + [r], k);
        SuffixMeaning(db, env[a := r], p, prefix, ws, front + [r]);
      }
      SuffixStep(db, env, p, prefix, ws, front);
    }
  }

  /** One row more. */
  lemma SuffixStep(db: Db, env: Env, p: Path, prefix: string, ws: seq<Cond>, front: seq<Row>)
    requires WellFormed(p) && |front| < |p.elems|
    ensures var a := Alias(prefix, |front|);
      Completable(db, env, p, prefix, ws, front) <==>
      exists r | r in TableRows(db, p.elems[|front|].table) ::
        LinkedTo(p, front + [r], |front|) && Completable(db, env[a := r], p, prefix, ws, front + [r])
  {
    var k, a := |front|, Alias(prefix, |front|);
    if rows :| Completes(db, env, p, prefix, ws, front, rows) {
      var r := rows[k];
      assert StandsAt(db, p, rows, k) && front + [r] <= rows;
      LinkedToPrefix(p, front + [r], rows, k);
      assert Completes(db, env[a := r], p, prefix, ws, front + [r], rows);
    }
    if r :| r in TableRows(db, p.elems[k].table) && LinkedTo(p, front + [r], k)
            && Completable(db, env[a := r], p, prefix, ws, front + [r]) {
      var rows :| Completes(db, env[a := r], p, prefix, ws, front + [r], rows);
      LinkedToPrefix(p, front + [r], rows, k);
      assert rows[k] == r && StandsAt(db, p, rows, k);
      assert Completes(db, env, p, prefix, ws, front, rows);
    }
  }

  // ---------------------------------------------------------- whole queries

  /** The WHERE conditions of some elements are True if all their filters are. */
  lemma {:induction false} WheresHold(db: Db, env: Env, m: Tables, attrs: seq<Value>, elems: seq<Elem>, prefix: string)
    ensures HasRow(db, env, Where(PathWheres(m, attrs, elems, prefix))) <==>
      forall i | 0 <= i < |elems| :: HasRow(db, env, Where(ElemWheres(m, attrs, elems[i], prefix)))
  {
    if elems != [] {
      WheresHold(db, env, m, attrs, elems[1..], prefix);
      var ws, rest := ElemWheres(m, attrs, elems[0], prefix), PathWheres(m, attrs, elems[1..], prefix);
      WhereSplits(db, env, ws, rest);
      assert forall i | 1 <= i < |elems| :: elems[i] == elems[1..][i - 1];
    }
  }

  lemma WhereSplits(db: Db, env: Env, ws: seq<Cond>, rest: seq<Cond>)
    ensures HasRow(db, env, Where(ws + rest)) <==> HasRow(db, env, Where(ws)) && HasRow(db, env, Where(rest))
  {
    WhereHolds(db, env, ws);
    WhereHolds(db, env, rest);
    WhereHolds(db, env, ws + rest);
  }

  /** ... and those of one element, if it has no filter but those of users. */
  lemma ElemWheresHold(db: Db, env: Env, m: Tables, attrs: seq<Value>, e: Elem, prefix: string, rows: seq<Row>)
    requires (forall k | 0 <= k < |e.filters| :: PlainFilter(e.filters[k])) && FiltersOk(e.filters, |rows|)
    requires Binds(env, prefix, rows)
    ensures HasRow(db, env, Where(ElemWheres(m, attrs, e, prefix))) <==> Passes(db, attrs, rows, e)
  {
    var ws := ElemWheres(m, attrs, e, prefix);
    forall k | 0 <= k < |e.filters| ensures Eval(db, env, ws[k]) == FilterTruth(db, attrs, rows, e.filters[k]) {
      FilterMeaning(db, env, m, attrs, e, e.filters[k], prefix, rows);
    }
  }

  /** The base element without its key predicate. */
  function PastKey(p: Path): seq<Elem>
    requires p.elems != [] && p.elems[0].filters != []
  {
    [p.elems[0].(filters := p.elems[0].filters[1..])] + p.elems[1..]
  }

  lemma PastKeyWheres(m: Model, attrs: seq<Value>, p: Path, prefix: string)
    requires p.elems != [] && p.elems[0].filters != []
    ensures PathWheres(m.tables, attrs, PastKey(p), prefix) == WheresPastKey(m, attrs, p, prefix)
  {
    assert PastKey(p)[1..] == p.elems[1..];
  }

  lemma PastKeyPasses(db: Db, attrs: seq<Value>, p: Path, rows: seq<Row>, i: nat)
    requires AclShape(p) && i < |p.elems|
    ensures Passes(db, attrs, rows, PastKey(p)[i]) <==> Passes(db, attrs, rows, p.elems[i])
  {
    if i == 0 {
      var fs := p.elems[0].filters;
      assert forall k | 1 <= k < |fs| :: fs[k] == fs[1..][k - 1];
      assert forall k | 0 <= k < |fs[1..]| :: fs[1..][k] == fs[k + 1];
    }
  }

  lemma AclWheresHold(db: Db, env: Env, m: Model, attrs: seq<Value>, p: Path, prefix: string, rows: seq<Row>)
    requires AclShape(p) && |rows| == |p.elems| && Binds(env, prefix, rows)
    ensures HasRow(db, env, Where(WheresPastKey(m, attrs, p, prefix))) <==>
      forall i | 0 <= i < |rows| :: Passes(db, attrs, rows, p.elems[i])
  {
    PastKeyWheres(m, attrs, p, prefix);
    WheresHold(db, env, m.tables, attrs, PastKey(p), prefix);
    forall i | 0 <= i < |rows|
      ensures HasRow(db, env, Where(ElemWheres(m.tables, attrs, PastKey(p)[i], prefix)))
        <==> Passes(db, attrs, rows, p.elems[i])
    {
      assert ElemOk(p, i);
      ElemWheresHold(db, env, m.tables, attrs, PastKey(p)[i], prefix, rows);
      PastKeyPasses(db, attrs, p, rows, i);
    }
  }

  /** What an ACL path says of a row: the other elements have rows that satisfy,
      together with it as the first, all links and filters. */
  predicate AdmitsBy(db: Db, attrs: seq<Value>, p: Path, r: Row, rows: seq<Row>) {
    rows != [] && rows[0] == r && Follows(db, attrs, p, rows)
  }

  /** The generic subquery finds a stored row exactly if the path admits it. */
  lemma GenericMeaning(db: Db, env: Env, m: Model, attrs: seq<Value>, p: Path, prefix: string, r: Row)
    requires AclShape(p) && KeyIdentifies(db, m.tables, p.elems[0].table)
    requires Bound(env, prefix, r) && r in TableRows(db, p.elems[0].table)
    ensures Holds(db, env, GenericClause(m, attrs, p, prefix)) <==> exists rows :: AdmitsBy(db, attrs, p, r, rows)
  {
    var t0, ws := Alias(prefix, 0), WheresPastKey(m, attrs, p, prefix);
    GenericReduced(db, env, m, attrs, p, prefix, r);
    var front := [r];
    assert |front| == 1 && Binds(env[t0 := r], prefix, front);
    SuffixMeaning(db, env[t0 := r], p, prefix, ws, front);
    assert p.elems[|front|..] == p.elems[1..];
    var inner := env[t0 := r];
    assert Holds(db, env, GenericClause(m, attrs, p, prefix)) <==> Completable(db, inner, p, prefix, ws, front);
    if rows :| Completes(db, inner, p, prefix, ws, front, rows) {
      CompletesMeaning(db, inner, m, attrs, p, prefix, r, rows);
    }
    if rows :| AdmitsBy(db, attrs, p, r, rows) {
      CompletesMeaning(db, inner, m, attrs, p, prefix, r, rows);
    }
  }

  lemma CompletesMeaning(db: Db, env: Env, m: Model, attrs: seq<Value>, p: Path, prefix: string, r: Row, rows: seq<Row>)
    requires AclShape(p) && |rows| == |p.elems| && [r] <= rows
    requires Bound(env, Alias(prefix, 0), r) && r in TableRows(db, p.elems[0].table)
    ensures Completes(db, env, p, prefix, WheresPastKey(m, attrs, p, prefix), [r], rows) <==>
      AdmitsBy(db, attrs, p, r, rows)
  {
    assert rows[..1] == [r] && Binds(env, prefix, rows[..1]);
    ExtendedBinds(env, prefix, rows, 1);
    AclWheresHold(db, Extended(env, prefix, rows, 1), m, attrs, p, prefix, rows);
    assert StandsAt(db, p, rows, 0);
  }
}
