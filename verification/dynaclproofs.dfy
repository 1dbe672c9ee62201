/** The compiled forms of a dynamic ACL binding agree: each is True on exactly
    the stored rows where the generic subquery is True. */
module DynAclEquivalence {
  import opened Sql
  import opened Aliases
  import opened Paths
  import opened Projections
  import opened Rights
  import opened DynAcl

  /** The key that the base predicate joins on is not null and tells stored
      rows apart. */
  ghost predicate KeyIdentifies(db: Db, m: Tables, base: TableId) {
    var key := BaseKeyColumns(m, base);
    && (forall r | r in TableRows(db, base) :: NonNullOn(r, key))
    && (forall r, s | r in TableRows(db, base) && s in TableRows(db, base) && SameOn(r, s, key) :: r == s)
  }

  predicate NonNullOn(r: Row, key: seq<string>) {
    forall i | 0 <= i < |key| :: Field(r, key[i]) != Null
  }

  predicate SameOn(r: Row, s: Row, key: seq<string>) {
    forall i | 0 <= i < |key| :: Field(r, key[i]) == Field(s, key[i])
  }

  /** No element but the base itself names a column of the base. */
  ghost predicate BaseUnnamed(p: Path) {
    forall i, k | 1 <= i < |p.elems| && 0 <= k < |p.elems[i].filters| :: !NamesElem(p.elems[i].filters[k], 0)
  }

  // ------------------------------------------------------- WHERE conditions

  lemma SplitConjuncts(db: Db, env: Env, pre: seq<Cond>, w: Cond, post: seq<Cond>)
    ensures HasRow(db, env, Where(pre + [w] + post)) <==> Holds(db, env, w) && HasRow(db, env, Where(pre + post))
  {
    WhereHolds(db, env, pre + [w] + post);
    WhereHolds(db, env, pre + post);
    assert forall c :: c in pre + [w] + post <==> c == w || c in pre + post;
  }

  lemma WhereHolds(db: Db, env: Env, cs: seq<Cond>)
    ensures HasRow(db, env, Where(cs)) <==> forall c | c in cs :: Holds(db, env, c)
  {
    if HasRow(db, env, Where(cs)) {
      forall c | c in cs ensures Holds(db, env, c) {
        var i :| 0 <= i < |cs| && cs[i] == c;
      }
    }
    if forall c | c in cs :: Holds(db, env, c) {
      forall i | 0 <= i < |cs| ensures Holds(db, env, cs[i]) {
        assert cs[i] in cs;
      }
    }
  }

  lemma {:induction false} SplitWhere(db: Db, env: Env, p: Path, elems: seq<Elem>, prefix: string, pre: seq<Cond>,
      w: Cond, post: seq<Cond>)
    requires forall i | 0 <= i < |elems| :: !Mentions(w, Alias(prefix, elems[i].pos))
    ensures HasRow(db, env, PathFrom(p, elems, prefix, pre + [w] + post)) <==>
            Holds(db, env, w) && HasRow(db, env, PathFrom(p, elems, prefix, pre + post))
    decreases |elems|
  {
    if elems == [] {
      SplitConjuncts(db, env, pre, w, post);
    } else {
      var a := Alias(prefix, elems[0].pos);
      forall r | r in TableRows(db, elems[0].table)
        ensures HasRow(db, env[a := r], PathFrom(p, elems[1..], prefix, pre + [w] + post)) <==>
                Holds(db, env, w) && HasRow(db, env[a := r], PathFrom(p, elems[1..], prefix, pre + post))
      {
        SplitWhere(db, env[a := r], p, elems[1..], prefix, pre, w, post);
        EvalDependsOnMentioned(db, env, env[a := r], w);
      }
    }
  }

  lemma {:induction false} PathFromMentions(p: Path, elems: seq<Elem>, prefix: string, ws: seq<Cond>, a: string)
    requires FromMentions(PathFrom(p, elems, prefix, ws), a)
    ensures (exists i | 0 <= i < |elems| :: Mentions(OnCond(p, elems[i], prefix), a))
            || (exists i | 0 <= i < |ws| :: Mentions(ws[i], a))
    decreases |elems|
  {
    if elems != [] && !Mentions(OnCond(p, elems[0], prefix), a) {
      PathFromMentions(p, elems[1..], prefix, ws, a);
      if i :| 0 <= i < |elems[1..]| && Mentions(OnCond(p, elems[1..][i], prefix), a) {
        assert elems[1..][i] == elems[i + 1];
      }
    }
  }

  /** A WHERE condition comes from some element's filter. */
  lemma {:induction false} WhereOfFilter(m: Tables, attrs: seq<Value>, elems: seq<Elem>, prefix: string, i: nat)
    returns (e: nat, k: nat)
    requires i < |PathWheres(m, attrs, elems, prefix)|
    ensures e < |elems| && k < |elems[e].filters|
    ensures PathWheres(m, attrs, elems, prefix)[i] == FilterSql(m, attrs, elems[e], elems[e].filters[k], prefix)
    decreases |elems|
  {
    if i < |elems[0].filters| {
      e, k := 0, i;
    } else {
      e, k := WhereOfFilter(m, attrs, elems[1..], prefix, i - |elems[0].filters|);
      e := e + 1;
    }
  }

  /** A filter's condition depends on its element's table, link and position,
      not on what other filters the element carries. */
  lemma {:induction false} FilterSqlIgnoresSiblings(m: Tables, attrs: seq<Value>, e: Elem, fs: seq<Filter>, f: Filter,
      prefix: string)
    ensures FilterSql(m, attrs, e.(filters := fs), f, prefix) == FilterSql(m, attrs, e, f, prefix)
    decreases f
  {
    match f
    case Negation(g) => FilterSqlIgnoresSiblings(m, attrs, e, fs, g, prefix);
    case Disjunction(gs) =>
      forall i | 0 <= i < |gs|
        ensures FilterSql(m, attrs, e.(filters := fs), gs[i], prefix) == FilterSql(m, attrs, e, gs[i], prefix)
      {
        FilterSqlIgnoresSiblings(m, attrs, e, fs, gs[i], prefix);
      }
      assert FilterSql(m, attrs, e.(filters := fs), f, prefix).cs == FilterSql(m, attrs, e, f, prefix).cs;
    case Conjunction(gs) =>
      forall i | 0 <= i < |gs|
        ensures FilterSql(m, attrs, e.(filters := fs), gs[i], prefix) == FilterSql(m, attrs, e, gs[i], prefix)
      {
        FilterSqlIgnoresSiblings(m, attrs, e, fs, gs[i], prefix);
      }
      assert FilterSql(m, attrs, e.(filters := fs), f, prefix).cs == FilterSql(m, attrs, e, f, prefix).cs;
    case _ =>
  }

  // -------------------------------------------------------------- base key

  lemma BaseKeyHolds(db: Db, env: Env, m: Tables, attrs: seq<Value>, e: Elem, prefix: string, r: Row, s: Row)
    requires prefix in env && env[prefix] == r
    requires Alias(prefix, 0) in env && env[Alias(prefix, 0)] == s
    ensures Holds(db, env, FilterSql(m, attrs, e, BaseKey, prefix)) <==>
            NonNullOn(r, BaseKeyColumns(m, e.table)) && SameOn(r, s, BaseKeyColumns(m, e.table))
  {
    var key := BaseKeyColumns(m, e.table);
    var cs := FilterSql(m, attrs, e, BaseKey, prefix).cs;
    AndOrTrue(db, env, cs);
    forall i | 0 <= i < |key|
      ensures Holds(db, env, cs[i]) <==> Field(r, key[i]) != Null && Field(r, key[i]) == Field(s, key[i])
    {
      assert cs[i] == EqCols(ColRef(prefix, key[i]), ColRef(Alias(prefix, 0), key[i]));
    }
  }

  /** Only one row of a table can make the rest of the query succeed. */
  lemma OnlyRow(db: Db, env: Env, t: TableId, a: string, from: From, rest: From, r: Row)
    requires r in TableRows(db, t)
    requires forall s | s in TableRows(db, t) :: HasRow(db, env[a := s], from) <==>
      s == r && HasRow(db, env[a := s], rest)
    ensures HasRow(db, env, Join(t, a, Const(true), from)) <==> HasRow(db, env[a := r], rest)
  {
  }

  lemma SameJoins(db: Db, e1: Env, e2: Env, t: TableId, a: string, on1: Cond, rest1: From, on2: Cond, rest2: From)
    requires forall s | s in TableRows(db, t) ::
      (Holds(db, e1[a := s], on1) && HasRow(db, e1[a := s], rest1)) <==>
      (Holds(db, e2[a := s], on2) && HasRow(db, e2[a := s], rest2))
    ensures HasRow(db, e1, Join(t, a, on1, rest1)) <==> HasRow(db, e2, Join(t, a, on2, rest2))
  {
  }

  function WheresPastKey(m: Model, attrs: seq<Value>, p: Path, prefix: string): seq<Cond>
    requires p.elems != [] && p.elems[0].filters != []
  {
    var e := p.elems[0];
    ElemWheres(m.tables, attrs, e.(filters := e.filters[1..]), prefix)
      + PathWheres(m.tables, attrs, p.elems[1..], prefix)
  }

  lemma BaseKeyOutside(m: Model, attrs: seq<Value>, p: Path, prefix: string)
    requires WellFormed(p)
    ensures forall i | 0 <= i < |p.elems[1..]| ::
      !Mentions(FilterSql(m.tables, attrs, p.elems[0], BaseKey, prefix), Alias(prefix, p.elems[1..][i].pos))
  {
    forall i | 0 <= i < |p.elems[1..]|
      ensures !Mentions(FilterSql(m.tables, attrs, p.elems[0], BaseKey, prefix), Alias(prefix, p.elems[1..][i].pos))
    {
      assert ElemOk(p, i + 1);
      NoCapture(prefix, i + 1, 0, 0);
      AliasesDiffer(prefix, i + 1, 0);
      BaseKeyMentions(m.tables, attrs, p.elems[0], prefix, Alias(prefix, i + 1));
    }
  }

  lemma FirstWhere(db: Db, env: Env, p: Path, elems: seq<Elem>, prefix: string, w: Cond, post: seq<Cond>)
    requires forall i | 0 <= i < |elems| :: !Mentions(w, Alias(prefix, elems[i].pos))
    ensures HasRow(db, env, PathFrom(p, elems, prefix, [w] + post)) <==>
            Holds(db, env, w) && HasRow(db, env, PathFrom(p, elems, prefix, post))
  {
    SplitWhere(db, env, p, elems, prefix, [], w, post);
    assert [] + post == post && [] + [w] + post == [w] + post;
  }

  /** With the base key the self-joined instance can only be the guarded row. */
  lemma BaseRowMatches(db: Db, env: Env, m: Model, attrs: seq<Value>, p: Path, prefix: string, r: Row, s: Row,
      ws: seq<Cond>)
    requires WellFormed(p) && KeyIdentifies(db, m.tables, p.elems[0].table)
    requires prefix in env && env[prefix] == r && Alias(prefix, 0) in env && env[Alias(prefix, 0)] == s
    requires r in TableRows(db, p.elems[0].table) && s in TableRows(db, p.elems[0].table)
    ensures var key := FilterSql(m.tables, attrs, p.elems[0], BaseKey, prefix);
      HasRow(db, env, PathFrom(p, p.elems[1..], prefix, [key] + ws)) <==>
        s == r && HasRow(db, env, PathFrom(p, p.elems[1..], prefix, ws))
  {
    var key := FilterSql(m.tables, attrs, p.elems[0], BaseKey, prefix);
    BaseKeyOutside(m, attrs, p, prefix);
    FirstWhere(db, env, p, p.elems[1..], prefix, key, ws);
    BaseKeyHolds(db, env, m.tables, attrs, p.elems[0], prefix, r, s);
  }

  /** The generic clause is the rest of the path matched against the guarded
      row itself in place of the second instance of its table. */
  lemma GenericReduced(db: Db, env: Env, m: Model, attrs: seq<Value>, p: Path, prefix: string, r: Row)
    requires AclShape(p) && KeyIdentifies(db, m.tables, p.elems[0].table)
    requires prefix in env && env[prefix] == r && r in TableRows(db, p.elems[0].table)
    ensures Holds(db, env, GenericClause(m, attrs, p, prefix)) <==>
            HasRow(db, env[Alias(prefix, 0) := r],
              PathFrom(p, p.elems[1..], prefix, WheresPastKey(m, attrs, p, prefix)))
  {
    var e, t0 := p.elems[0], Alias(prefix, 0);
    assert ElemOk(p, 0);
    var key := FilterSql(m.tables, attrs, e, BaseKey, prefix);
    var ws := WheresPastKey(m, attrs, p, prefix);
    var wheres := [key] + ws;
    assert PathWheres(m.tables, attrs, p.elems, prefix) == wheres by {
      ElemWheresHead(m.tables, attrs, e, prefix);
    }
    NoCapture(prefix, 0, 0, 0);
    var from, rest := PathFrom(p, p.elems[1..], prefix, wheres), PathFrom(p, p.elems[1..], prefix, ws);
    forall s | s in TableRows(db, e.table)
      ensures HasRow(db, env[t0 := s], from) <==> s == r && HasRow(db, env[t0 := s], rest)
    {
      BaseRowMatches(db, env[t0 := s], m, attrs, p, prefix, r, s, ws);
    }
    OnlyRow(db, env, e.table, t0, from, rest, r);
  }

  lemma ElemWheresHead(m: Tables, attrs: seq<Value>, e: Elem, prefix: string)
    requires e.filters != []
    ensures ElemWheres(m, attrs, e, prefix) ==
            [FilterSql(m, attrs, e, e.filters[0], prefix)] + ElemWheres(m, attrs, e.(filters := e.filters[1..]), prefix)
  {
    forall i | 1 <= i < |e.filters|
      ensures FilterSql(m, attrs, e.(filters := e.filters[1..]), e.filters[i], prefix)
        == FilterSql(m, attrs, e, e.filters[i], prefix)
    {
      FilterSqlIgnoresSiblings(m, attrs, e, e.filters[1..], e.filters[i], prefix);
    }
  }

  lemma BaseKeyMentions(m: Tables, attrs: seq<Value>, e: Elem, prefix: string, a: string)
    requires a != prefix && a != Alias(prefix, 0)
    ensures !Mentions(FilterSql(m, attrs, e, BaseKey, prefix), a)
  {
  }

  // --------------------------------------------------------------- inlining

  /** A filter on the base means the same when its columns are read from the
      row instance the prefix already names. */
  lemma {:induction false} MangledFilter(db: Db, e1: Env, e2: Env, m: Tables, attrs: seq<Value>, e: Elem, f: Filter,
                                         prefix: string, q: string, k: nat)
    requires PlainFilter(f) && FilterOk(f, 1)
    requires Alias(q, k) == prefix
    requires Alias(prefix, 0) in e1 && prefix in e2 && e1[Alias(prefix, 0)] == e2[prefix]
    ensures Eval(db, e1, FilterSql(m, attrs, e, f, prefix)) == Eval(db, e2, FilterSql(m, attrs, e, Mangle(f, k), q))
    decreases f
  {
    match f
    case Negation(g) => MangledFilter(db, e1, e2, m, attrs, e, g, prefix, q, k);
    case Disjunction(fs) => MangledFilters(db, e1, e2, m, attrs, e, f, fs, prefix, q, k);
    case Conjunction(fs) => MangledFilters(db, e1, e2, m, attrs, e, f, fs, prefix, q, k);
    case _ =>
  }

  lemma {:induction false} MangledFilters(db: Db, e1: Env, e2: Env, m: Tables, attrs: seq<Value>, e: Elem, f: Filter,
      fs: seq<Filter>,
                                          prefix: string, q: string, k: nat)
    requires PlainFilter(f) && FilterOk(f, 1) && (f == Disjunction(fs) || f == Conjunction(fs))
    requires Alias(q, k) == prefix
    requires Alias(prefix, 0) in e1 && prefix in e2 && e1[Alias(prefix, 0)] == e2[prefix]
    ensures Eval(db, e1, FilterSql(m, attrs, e, f, prefix)) == Eval(db, e2, FilterSql(m, attrs, e, Mangle(f, k), q))
    decreases f, 0
  {
    var cs, ds := FilterSql(m, attrs, e, f, prefix).cs, FilterSql(m, attrs, e, Mangle(f, k), q).cs;
    assert |cs| == |ds| == |fs|;
    forall i | 0 <= i < |fs| ensures Eval(db, e1, cs[i]) == Eval(db, e2, ds[i]) {
      MangledFilter(db, e1, e2, m, attrs, e, fs[i], prefix, q, k);
      assert Mangle(f, k).fs[i] == Mangle(fs[i], k);
    }
  }

  lemma InlinedEquivalent(db: Db, env: Env, m: Model, attrs: seq<Value>, p: Path, prefix: string, r: Row)
    requires AclShape(p) && KeyIdentifies(db, m.tables, p.elems[0].table)
    requires prefix in env && env[prefix] == r && r in TableRows(db, p.elems[0].table)
    requires |p.elems| == 1 && PrefixOk(prefix) && SplitsBack(prefix)
    ensures Holds(db, env, InlinedClause(m, attrs, p, prefix)) <==> Holds(db, env, GenericClause(m, attrs, p, prefix))
  {
    GenericReduced(db, env, m, attrs, p, prefix, r);
    var e := p.elems[0];
    var fs := e.filters[1..];
    var ws := ElemWheres(m.tables, attrs, e.(filters := fs), prefix);
    assert WheresPastKey(m, attrs, p, prefix) == ws;
    var cs := InlinedClause(m, attrs, p, prefix).cs;
    var e1 := env[Alias(prefix, 0) := r];
    AndOrTrue(db, env, cs);
    assert ElemOk(p, 0);
    forall i | 0 <= i < |fs| ensures Eval(db, e1, ws[i]) == Eval(db, env, cs[i]) {
      assert fs[i] == e.filters[i + 1];
      FilterSqlIgnoresSiblings(m.tables, attrs, e, fs, fs[i], prefix);
      MangledFilter(db, e1, env, m.tables, attrs, e, fs[i], prefix, FakePrefix(prefix), FakePos(prefix));
    }
  }

  // ---------------------------------------------------- dropping the base

  lemma {:induction false} JoinSqlRenamed(db: Db, e1: Env, e2: Env, kr: KeyRef, op: RefOp, l1: string,
      l2: string, r: string)
    requires SameRow(e1, l1, e2, l2) && SameRow(e1, r, e2, r)
    ensures Eval(db, e1, JoinSql(kr, op, l1, r)) == Eval(db, e2, JoinSql(kr, op, l2, r))
    decreases kr
  {
    var cs, ds := JoinSql(kr, op, l1, r).cs, JoinSql(kr, op, l2, r).cs;
    assert |cs| == |ds|;
    match kr
    case KeyRef(_, _, refmap) =>
      forall i | 0 <= i < |cs| ensures Eval(db, e1, cs[i]) == Eval(db, e2, ds[i]) {}
    case MultiRef(_, _, links) =>
      var visible := VisibleLinks(links);
      forall i | 0 <= i < |cs| ensures Eval(db, e1, cs[i]) == Eval(db, e2, ds[i]) {
        assert visible[i] in links;
        JoinSqlRenamed(db, e1, e2, visible[i].keyref, visible[i].refop, l1, l2, r);
      }
  }

  predicate SameRow(e1: Env, a: string, e2: Env, b: string) {
    a in e1 && b in e2 && e1[a] == e2[b]
  }

  /** The part of the path beyond the base's neighbour says nothing of the base. */
  lemma BeyondBaseUnmentioned(m: Tables, attrs: seq<Value>, p: Path, prefix: string)
    requires AclShape(p) && BaseTouchedOnce(p) && BaseUnnamed(p)
    ensures !FromMentions(PathFrom(p, p.elems[2..], prefix, PathWheres(m, attrs, p.elems[1..], prefix)),
      Alias(prefix, 0))
  {
    var ws := PathWheres(m, attrs, p.elems[1..], prefix);
    var t0 := Alias(prefix, 0);
    if FromMentions(PathFrom(p, p.elems[2..], prefix, ws), t0) {
      PathFromMentions(p, p.elems[2..], prefix, ws, t0);
      if i :| 0 <= i < |p.elems[2..]| && Mentions(OnCond(p, p.elems[2..][i], prefix), t0) {
        OnClauseInScope(p, i + 2, prefix, t0);
        AliasesDiffer(prefix, LeftPos(p, p.elems[i + 2]), 0);
        AliasesDiffer(prefix, i + 2, 0);
      } else {
        var i :| 0 <= i < |ws| && Mentions(ws[i], t0);
        var e, k := WhereOfFilter(m, attrs, p.elems[1..], prefix, i);
        var pos := MentionedIsNamed(m, attrs, p.elems[e + 1], p.elems[e + 1].filters[k], prefix, t0);
        AliasInjective(prefix, pos, prefix, 0);
      }
    }
  }

  lemma AliasesDiffer(prefix: string, i: nat, j: nat)
    requires i != j
    ensures Alias(prefix, i) != Alias(prefix, j)
  {
    if Alias(prefix, i) == Alias(prefix, j) { AliasInjective(prefix, i, prefix, j); }
  }

  lemma WithoutBaseWheres(m: Model, attrs: seq<Value>, p: Path, prefix: string)
    requires |p.elems| > 1 && p.elems[1].link.Some?
    ensures
      var e := p.elems[1];
      PathWheres(m.tables, attrs, WithoutBase(p), prefix) ==
      ElemWheres(m.tables, attrs, e, prefix)
      + [JoinSql(e.link.value.keyref, e.link.value.refop, prefix, Alias(prefix, e.pos))]
      + PathWheres(m.tables, attrs, p.elems[2..], prefix)
  {
    var e := p.elems[1];
    var more := e.filters + [BaseJoin(e.link.value.refop)];
    var e' := e.(filters := more);
    var join := JoinSql(e.link.value.keyref, e.link.value.refop, prefix, Alias(prefix, e.pos));
    forall i | 0 <= i < |more|
      ensures FilterSql(m.tables, attrs, e', more[i], prefix) ==
              (ElemWheres(m.tables, attrs, e, prefix) + [join])[i]
    {
      FilterSqlIgnoresSiblings(m.tables, attrs, e, more, more[i], prefix);
    }
    assert ElemWheres(m.tables, attrs, e', prefix) == ElemWheres(m.tables, attrs, e, prefix) + [join];
    assert WithoutBase(p)[1..] == p.elems[2..];
  }

  lemma BaseJoinOutside(kr: KeyRef, op: RefOp, p: Path, prefix: string)
    requires WellFormed(p) && |p.elems| > 1
    ensures forall i | 0 <= i < |p.elems[2..]| ::
      !Mentions(JoinSql(kr, op, prefix, Alias(prefix, 1)), Alias(prefix, p.elems[2..][i].pos))
  {
    forall i | 0 <= i < |p.elems[2..]|
      ensures !Mentions(JoinSql(kr, op, prefix, Alias(prefix, 1)), Alias(prefix, p.elems[2..][i].pos))
    {
      assert ElemOk(p, i + 2);
      NoCapture(prefix, i + 2, 0, 0);
      AliasesDiffer(prefix, i + 2, 1);
      if Mentions(JoinSql(kr, op, prefix, Alias(prefix, 1)), Alias(prefix, i + 2)) {
        JoinSqlMentions(kr, op, prefix, Alias(prefix, 1), Alias(prefix, i + 2));
      }
    }
  }

  /** The moved join condition says of the outer row what the join said of the
      base row. */
  lemma DroppedRow(db: Db, e1: Env, e2: Env, p: Path, prefix: string, kr: KeyRef, op: RefOp, t0: string, t1: string,
      pre: seq<Cond>, post: seq<Cond>, rest: From)
    requires WellFormed(p) && |p.elems| > 1
    requires SameRow(e1, t0, e2, prefix) && SameRow(e1, t1, e2, t1)
    requires rest == PathFrom(p, p.elems[2..], prefix, pre + post)
    requires forall i | 0 <= i < |p.elems[2..]| ::
      !Mentions(JoinSql(kr, op, prefix, t1), Alias(prefix, p.elems[2..][i].pos))
    requires forall a | FromMentions(rest, a) :: SameAt(e1, e2, a)
    ensures (Holds(db, e1, JoinSql(kr, op, t0, t1)) && HasRow(db, e1, rest)) <==>
            HasRow(db, e2, PathFrom(p, p.elems[2..], prefix, pre + [JoinSql(kr, op, prefix, t1)] + post))
  {
    SplitWhere(db, e2, p, p.elems[2..], prefix, pre, JoinSql(kr, op, prefix, t1), post);
    JoinSqlRenamed(db, e1, e2, kr, op, t0, prefix, t1);
    HasRowDependsOnMentioned(db, e1, e2, rest);
  }

  /** The two queries agree on each row of the second table. */
  lemma DroppedTail(db: Db, env: Env, m: Model, attrs: seq<Value>, p: Path, prefix: string, r: Row, s: Row)
    requires AclShape(p) && BaseTouchedOnce(p) && BaseUnnamed(p) && prefix in env && env[prefix] == r
    ensures
      var e, t0, t1 := p.elems[1], Alias(prefix, 0), Alias(prefix, 1);
      (Holds(db, env[t0 := r][t1 := s], OnCond(p, e, prefix))
       && HasRow(db, env[t0 := r][t1 := s],
         PathFrom(p, p.elems[2..], prefix, PathWheres(m.tables, attrs, p.elems[1..], prefix)))) <==>
      (Holds(db, env[t1 := s], Const(true))
       && HasRow(db, env[t1 := s],
         PathFrom(p, p.elems[2..], prefix, PathWheres(m.tables, attrs, WithoutBase(p), prefix))))
  {
    var e, t0, t1 := p.elems[1], Alias(prefix, 0), Alias(prefix, 1);
    assert ElemOk(p, 1);
    var kr, op := e.link.value.keyref, e.link.value.refop;
    var pre, post := ElemWheres(m.tables, attrs, e, prefix), PathWheres(m.tables, attrs, p.elems[2..], prefix);
    assert p.elems[1..][1..] == p.elems[2..];
    WithoutBaseWheres(m, attrs, p, prefix);
    BeyondBaseUnmentioned(m.tables, attrs, p, prefix);
    AliasesDiffer(prefix, 0, 1);
    NoCapture(prefix, 0, 0, 0);
    NoCapture(prefix, 1, 0, 0);
    BaseJoinOutside(kr, op, p, prefix);
    assert OnCond(p, e, prefix) == JoinSql(kr, op, t0, t1);
    assert SameRow(env[t0 := r][t1 := s], t0, env[t1 := s], prefix);
    DroppedRow(db, env[t0 := r][t1 := s], env[t1 := s], p, prefix, kr, op, t0, t1, pre, post,
      PathFrom(p, p.elems[2..], prefix, pre + post));
  }

  lemma DroppedBaseEquivalent(db: Db, env: Env, m: Model, attrs: seq<Value>, p: Path, prefix: string, r: Row)
    requires AclShape(p) && KeyIdentifies(db, m.tables, p.elems[0].table)
    requires prefix in env && env[prefix] == r && r in TableRows(db, p.elems[0].table)
    requires BaseTouchedOnce(p) && BaseUnnamed(p)
    ensures Holds(db, env, DroppedBaseClause(m, attrs, p, prefix)) <==>
      Holds(db, env, GenericClause(m, attrs, p, prefix))
  {
    GenericReduced(db, env, m, attrs, p, prefix, r);
    var e, t0, t1 := p.elems[1], Alias(prefix, 0), Alias(prefix, 1);
    assert ElemOk(p, 1);
    var tail := PathWheres(m.tables, attrs, p.elems[1..], prefix);
    var moved := PathWheres(m.tables, attrs, WithoutBase(p), prefix);
    assert WheresPastKey(m, attrs, p, prefix) == tail;
    var rest, from := PathFrom(p, p.elems[2..], prefix, tail), PathFrom(p, p.elems[2..], prefix, moved);
    forall s | s in TableRows(db, e.table)
      ensures (Holds(db, env[t0 := r][t1 := s], OnCond(p, e, prefix)) && HasRow(db, env[t0 := r][t1 := s], rest)) <==>
              (Holds(db, env[t1 := s], Const(true)) && HasRow(db, env[t1 := s], from))
    {
      DroppedTail(db, env, m, attrs, p, prefix, r, s);
    }
    SameJoins(db, env[t0 := r], env, e.table, t1, OnCond(p, e, prefix), rest, Const(true), from);
    assert p.elems[1..][1..] == p.elems[2..] && WithoutBase(p)[1..] == p.elems[2..];
  }

  // ---------------------------------------------------------- main results

  /** Whether the compiler's choice for this binding leaves its base table out
      of a subquery that still names it. */
  ghost predicate LosesBase(p: Path, prefix: string) {
    PrefixOk(prefix) && |p.elems| > 1 && BaseTouchedOnce(p) && !BaseUnnamed(p)
  }

  /** For every compiled binding and every stored row, the clause chosen is
      True exactly when the generic self-joined subquery is. */
  lemma ClauseEquivalent(db: Db, env: Env, m: Model, attrs: seq<Value>, base: TableId, b: Binding, prefix: string)
    requires Usable(m, base, b) && KeyIdentifies(db, m.tables, base)
    requires prefix in env && env[prefix] in TableRows(db, base)
    requires SplitsBack(prefix) && !LosesBase(AclPath(m, base, b.doc).value, prefix)
    ensures Holds(db, env, BindingClause(m, attrs, base, b, prefix)) <==>
            Holds(db, env, GenericClause(m, attrs, AclPath(m, base, b.doc).value, prefix))
  {
    AclPathShape(m, base, b.doc);
    var p := AclPath(m, base, b.doc).value;
    if PrefixOk(prefix) && |p.elems| == 1 {
      InlinedEquivalent(db, env, m, attrs, p, prefix, env[prefix]);
    } else if PrefixOk(prefix) && BaseTouchedOnce(p) {
      DroppedBaseEquivalent(db, env, m, attrs, p, prefix, env[prefix]);
    }
  }
}
