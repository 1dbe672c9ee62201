/** Tables as policy views: the subqueries that stand in for a table when
    dynamic ACLs are enforced, row by row and column by column. */
module PolicyViews {
  import opened Wrappers
  import opened Sql
  import opened Aliases
  import opened Paths
  import R = Rights
  import opened DynAcl
  import opened DynAclEquivalence
  import opened DynAclScope
  import opened Joins

  /** The policy in force, the compiler's context for this client, and the
      iteration order of each binding dictionary (any order will do). */
  datatype World = World(x: Context, w: R.Policy, order: R.Dynacls -> seq<string>)

  ghost predicate Orders(v: World) {
    forall d: R.Dynacls, n :: n in v.order(d) <==> n in d
  }

  function Values(v: World, d: R.Dynacls): seq<Option<R.Binding>> {
    seq(|v.order(d)|, i requires 0 <= i < |v.order(d)| =>
      if v.order(d)[i] in d then d[v.order(d)[i]] else None)
  }

  function TableRes(t: TableId): R.Res {
    R.Table(t.schema, t.name)
  }

  function ColumnRes(t: TableId, col: string): R.Res {
    R.Column(t.schema, t.name, col)
  }

  function Decide(v: World, r: R.Res, access: R.Right): R.Decision {
    R.HasRight(v.w, r, access, v.x.roles)
  }

  function TableBindings(v: World, t: TableId): seq<Option<R.Binding>> {
    Values(v, R.DynaclsOf(v.w, TableRes(t)))
  }

  /** A column's effective bindings: the table's, overridden by name. */
  function EffectiveDynacls(v: World, t: TableId, col: string): R.Dynacls {
    R.DynaclsOf(v.w, TableRes(t)) + R.DynaclsOf(v.w, ColumnRes(t, col))
  }

  function ColumnBindings(v: World, t: TableId, col: string): seq<Option<R.Binding>> {
    Values(v, EffectiveDynacls(v, t, col))
  }

  /** All bindings on the table and its columns compile. */
  ghost predicate Compiles(v: World, t: TableId) {
    && AllUsable(v.x, t, TableBindings(v, t))
    && forall col :: AllUsable(v.x, t, ColumnBindings(v, t, col))
  }

  function TableClauses(v: World, t: TableId, access: R.Right, alias: string): seq<Cond>
    requires AllUsable(v.x, t, TableBindings(v, t))
  {
    DynaclClauses(v.x, Decide(v, TableRes(t), access), t, TableBindings(v, t), access, alias)
  }

  function ColumnClauses(v: World, t: TableId, col: string, access: R.Right, alias: string): seq<Cond>
    requires AllUsable(v.x, t, ColumnBindings(v, t, col))
  {
    DynaclClauses(v.x, Decide(v, ColumnRes(t, col), access), t, ColumnBindings(v, t, col), access, alias)
  }

  /** `dynauthz_restricted`: the column's policy may be tighter than its table's. */
  predicate Restricted(v: World, t: TableId, col: string, access: R.Right) {
    if Decide(v, ColumnRes(t, col), access) == R.Allow then false
    else if Decide(v, TableRes(t), access) == R.Allow then true
    else exists n | n in R.DynaclsOf(v.w, TableRes(t)) :: n in R.DynaclsOf(v.w, ColumnRes(t, col))
  }

  /** `columns_in_order`, as the client sees them. */
  predicate Listed(v: World, t: TableId, col: string) {
    t in v.x.m.tables && HasColumn(v.x.m.tables[t], col) && Decide(v, ColumnRes(t, col), "enumerate") == R.Allow
  }

  /** `skip_cols_dynauthz` */
  predicate SkipColumns(v: World, t: TableId, access: R.Right)
  {
    t in v.x.m.tables ==>
      forall i | 0 <= i < |v.x.m.tables[t].columns| ::
        var col := v.x.m.tables[t].columns[i].name;
        Decide(v, ColumnRes(t, col), "enumerate") == R.Allow ==> !Restricted(v, t, col, access)
  }

  /** Columns that the view replaces by NULL where their policy fails. */
  predicate Masked(v: World, t: TableId, col: string, access: R.Right) {
    Decide(v, ColumnRes(t, col), access) == R.Maybe && Restricted(v, t, col, access)
  }

  // ------------------------------------------------------------- row views

  function Negated(cs: seq<Cond>): seq<Cond> {
    seq(|cs|, i requires 0 <= i < |cs| => CoalesceTrue(Not(cs[i])))
  }

  /** Projection of one row through the column policies. */
  ghost function MaskRow(db: Db, v: World, t: TableId, access: R.Right, alias: string, r: Row): Row
    requires Compiles(v, t)
  {
    map col | col in r && Listed(v, t, col) ::
      if Masked(v, t, col, access) && !Holds(db, map[alias := r], Or(ColumnClauses(v, t, col, access, alias)))
      then Null else r[col]
  }

  ghost function MaskRows(db: Db, v: World, t: TableId, access: R.Right, alias: string, rows: seq<Row>): seq<Row>
    requires Compiles(v, t)
  {
    seq(|rows|, i requires 0 <= i < |rows| => MaskRow(db, v, t, access, alias, rows[i]))
  }

  /** `Table.sql_name`: None for the bare table, true for the rows the client
      may access, false for the rows it may not. */
  ghost function ViewRows(db: Db, v: World, t: TableId, dynauthz: Option<bool>, access: R.Right,
      alias: string): seq<Row>
    requires Compiles(v, t)
  {
    var rows := TableRows(db, t);
    match dynauthz
    case None => rows
    case Some(true) =>
      var cs := TableClauses(v, t, access, alias);
      var skip := SkipColumns(v, t, access);
      if cs == [Const(true)] && skip then rows
      else
        var admitted := Select(db, rows, alias, Or(cs));
        if skip then admitted else MaskRows(db, v, t, access, alias, admitted)
    case Some(false) => Select(db, rows, alias, And(Negated(TableClauses(v, t, access, alias))))
  }

  /** `dynauthz_testcol`: the rows whose given column the client may not access. */
  ghost function ColumnRefusals(db: Db, v: World, t: TableId, col: string, access: R.Right, alias: string): seq<Row>
    requires Compiles(v, t)
  {
    Select(db, TableRows(db, t), alias, And(Negated(ColumnClauses(v, t, col, access, alias))))
  }

  /** For any clause list and any row, the positive condition (some clause is
      True) and the negative one (no clause is True) are opposites, even where
      clauses are Unknown. */
  lemma PositiveXorNegative(db: Db, env: Env, cs: seq<Cond>)
    ensures Holds(db, env, Or(cs)) <==> !Holds(db, env, And(Negated(cs)))
  {
    AndOrTrue(db, env, cs);
    AndOrTrue(db, env, Negated(cs));
    forall i | 0 <= i < |cs|
      ensures Holds(db, env, Negated(cs)[i]) <==> !Holds(db, env, cs[i])
    {
      assert Negated(cs)[i] == CoalesceTrue(Not(cs[i]));
      assert Eval(db, env, Not(cs[i])) == Negate(Eval(db, env, cs[i]));
    }
  }

  /** The test for a column finds exactly the rows that fail its effective
      policy. */
  lemma ColumnRefusalsExactly(db: Db, v: World, t: TableId, col: string, access: R.Right, alias: string, r: Row)
    requires Compiles(v, t)
    ensures r in ColumnRefusals(db, v, t, col, access, alias) <==>
            r in TableRows(db, t) && !Holds(db, map[alias := r], Or(ColumnClauses(v, t, col, access, alias)))
  {
    var cs := ColumnClauses(v, t, col, access, alias);
    SelectMember(db, TableRows(db, t), alias, And(Negated(cs)), r);
    PositiveXorNegative(db, map[alias := r], cs);
  }

  /** Positive and negative views split a table's rows between them. */
  lemma {:induction false} ViewsPartition(db: Db, rows: seq<Row>, a: string, cs: seq<Cond>)
    ensures multiset(Select(db, rows, a, Or(cs))) + multiset(Select(db, rows, a, And(Negated(cs)))) == multiset(rows)
    ensures forall r :: !(r in Select(db, rows, a, Or(cs)) && r in Select(db, rows, a, And(Negated(cs))))
  {
    forall r ensures !(r in Select(db, rows, a, Or(cs)) && r in Select(db, rows, a, And(Negated(cs)))) {
      SelectMember(db, rows, a, Or(cs), r);
      SelectMember(db, rows, a, And(Negated(cs)), r);
      PositiveXorNegative(db, map[a := r], cs);
    }
    forall r ensures Holds(db, map[a := r], Or(cs)) <==> !Holds(db, map[a := r], And(Negated(cs))) {
      PositiveXorNegative(db, map[a := r], cs);
    }
    OppositesSplit(db, rows, a, Or(cs), And(Negated(cs)));
  }

  lemma SelectHead(db: Db, r: Row, rest: seq<Row>, a: string, c: Cond)
    ensures Select(db, [r] + rest, a, c)
      == if Holds(db, map[a := r], c) then [r] + Select(db, rest, a, c) else Select(db, rest, a, c)
  {
    assert ([r] + rest)[1..] == rest;
  }

  lemma OppositesStep(db: Db, r: Row, rest: seq<Row>, a: string, yes: Cond, no: Cond)
    requires Holds(db, map[a := r], yes) <==> !Holds(db, map[a := r], no)
    requires multiset(Select(db, rest, a, yes)) + multiset(Select(db, rest, a, no)) == multiset(rest)
    ensures multiset(Select(db, [r] + rest, a, yes)) + multiset(Select(db, [r] + rest, a, no)) == multiset([r] + rest)
  {
    SelectHead(db, r, rest, a, yes);
    SelectHead(db, r, rest, a, no);
    MultisetHead(r, Select(db, rest, a, yes), Select(db, rest, a, no), rest);
  }

  lemma {:induction false} OppositesSplit(db: Db, rows: seq<Row>, a: string, yes: Cond, no: Cond)
    requires forall r :: Holds(db, map[a := r], yes) <==> !Holds(db, map[a := r], no)
    ensures multiset(Select(db, rows, a, yes)) + multiset(Select(db, rows, a, no)) == multiset(rows)
  {
    if rows != [] {
      var r, rest := rows[0], rows[1..];
      OppositesSplit(db, rest, a, yes, no);
      OppositesStep(db, r, rest, a, yes, no);
      assert rows == [r] + rest;
    }
  }

  lemma MultisetHead<T>(x: T, a: seq<T>, b: seq<T>, rest: seq<T>)
    requires multiset(a) + multiset(b) == multiset(rest)
    ensures multiset([x] + a) + multiset(b) == multiset([x] + rest)
    ensures multiset(a) + multiset([x] + b) == multiset([x] + rest)
  {
  }

  // ---------------------------------------------------------- column masks

  /** Skipping a column's mask is sound: a row that passes its table's policy
      passes the effective policy of every column that is neither refused
      outright nor restricted beyond the table. */
  lemma SkippedMaskSound(db: Db, v: World, t: TableId, col: string, access: R.Right, alias: string, r: Row)
    requires Orders(v) && Compiles(v, t)
    requires Decide(v, ColumnRes(t, col), access) != R.Deny && !Restricted(v, t, col, access)
    requires Holds(db, map[alias := r], Or(TableClauses(v, t, access, alias)))
    ensures Holds(db, map[alias := r], Or(ColumnClauses(v, t, col, access, alias)))
  {
    var env: Env := map[alias := r];
    var cs := ColumnClauses(v, t, col, access, alias);
    if Decide(v, ColumnRes(t, col), access) == R.Allow {
      assert cs[0] == Const(true) && Holds(db, env, cs[0]);
    } else {
      assert Decide(v, TableRes(t), access) == R.Maybe;
      var ts := TableClauses(v, t, access, alias);
      var i :| 0 <= i < |ts| && Holds(db, env, ts[i]);
      assert !Holds(db, env, Const(false));
      assert ts == ScopedClauses(v.x, t, TableBindings(v, t), access, alias);
      var k := ClauseOfBinding(v.x, t, TableBindings(v, t), access, alias, i);
      var k' := SameBindingOnColumn(v, t, col, access, k);
      var j := BindingHasClause(v.x, t, ColumnBindings(v, t, col), access, alias, k');
      assert cs == ScopedClauses(v.x, t, ColumnBindings(v, t, col), access, alias);
      assert Holds(db, env, cs[j]);
    }
  }

  /** A column that overrides none of its table's bindings inherits them all. */
  lemma SameBindingOnColumn(v: World, t: TableId, col: string, access: R.Right, k: nat) returns (k': nat)
    requires Orders(v) && !Restricted(v, t, col, access)
    requires Decide(v, ColumnRes(t, col), access) == R.Maybe
    requires k < |TableBindings(v, t)| && TableBindings(v, t)[k].Some?
    ensures k' < |ColumnBindings(v, t, col)| && ColumnBindings(v, t, col)[k'] == TableBindings(v, t)[k]
  {
    var d, e := R.DynaclsOf(v.w, TableRes(t)), EffectiveDynacls(v, t, col);
    var n := v.order(d)[k];
    assert n in d && n in e && e[n] == d[n];
    k' :| 0 <= k' < |v.order(e)| && v.order(e)[k'] == n;
  }

  /** An undecided column has a clause to decide by. */
  lemma UndecidedColumnHasClause(v: World, t: TableId, col: string, access: R.Right, alias: string)
    requires Orders(v) && Compiles(v, t) && Decide(v, ColumnRes(t, col), access) == R.Maybe
    ensures ScopedClauses(v.x, t, ColumnBindings(v, t, col), access, alias) != []
  {
    var r, e := ColumnRes(t, col), EffectiveDynacls(v, t, col);
    R.ColumnDecision(v.w, r, access, v.x.roles);
    assert R.Effective(v.w, r) == e;
    var n :| n in e && e[n].Some? && R.InScope(e[n].value, access, v.x.roles);
    assert n in v.order(e);
    var k :| 0 <= k < |v.order(e)| && v.order(e)[k] == n;
    assert ColumnBindings(v, t, col)[k] == e[n];
    var i := BindingHasClause(v.x, t, ColumnBindings(v, t, col), access, alias, k);
  }

  /** So a view that skips column masks hides no column a mask would have let
      through, and lets none through that a mask would have hidden. */
  lemma SkippedMasksChangeNothing(db: Db, v: World, t: TableId, access: R.Right, alias: string, r: Row, col: string)
    requires Orders(v) && Compiles(v, t) && SkipColumns(v, t, access)
    requires Listed(v, t, col) && Decide(v, ColumnRes(t, col), access) != R.Deny
    requires Holds(db, map[alias := r], Or(TableClauses(v, t, access, alias)))
    ensures Holds(db, map[alias := r], Or(ColumnClauses(v, t, col, access, alias)))
  {
    var i :| 0 <= i < |v.x.m.tables[t].columns| && v.x.m.tables[t].columns[i].name == col;
    SkippedMaskSound(db, v, t, col, access, alias, r);
  }

  // ----------------------------------------------------------- join elements

  /** `EntityElem.sql_table_elem` as one FROM item: row policy as a filtered
      subquery, or lifted into the join condition in the common case. */
  predicate LiftsPolicy(v: World, e: Elem, dynauthz: Option<bool>, access: R.Right) {
    && e.link.Some?
    && access == "select"
    && SkipColumns(v, e.table, access)
    && e.outer in {LeftOuter, NotOuter}
    && dynauthz.Some?
  }

  ghost function FilteredSource(db: Db, v: World, p: Path, e: Elem, dynauthz: Option<bool>, access: R.Right,
      prefix: string): Source
    requires Compiles(v, e.table)
  {
    var alias := Alias(prefix, e.pos);
    Source(ViewRows(db, v, e.table, dynauthz, access, alias), alias, e.outer, OnCond(p, e, prefix))
  }

  ghost function ElemSource(db: Db, v: World, p: Path, e: Elem, dynauthz: Option<bool>, access: R.Right,
      prefix: string): Source
    requires Compiles(v, e.table)
  {
    var alias := Alias(prefix, e.pos);
    if LiftsPolicy(v, e, dynauthz, access) then
      var cs := TableClauses(v, e.table, "select", alias);
      var on := OnCond(p, e, prefix);
      Source(TableRows(db, e.table), alias, e.outer, if cs == [Const(true)] then on else And([on, Or(cs)]))
    else FilteredSource(db, v, p, e, dynauthz, access, prefix)
  }

  /** Compiled policies are sound for an element's alias: its key identifies
      rows and no binding in scope loses its base. */
  ghost predicate SoundFor(db: Db, v: World, t: TableId, access: R.Right, alias: string) {
    && Compiles(v, t)
    && KeyIdentifies(db, v.x.m.tables, t)
    && SoundBindings(v.x, t, TableBindings(v, t), access, alias)
  }

  lemma TablePolicyRowLocal(v: World, t: TableId, access: R.Right, alias: string)
    requires AllUsable(v.x, t, TableBindings(v, t)) && SoundBindings(v.x, t, TableBindings(v, t), access, alias)
    ensures RowLocal(Or(TableClauses(v, t, access, alias)), alias)
  {
    var cs := TableClauses(v, t, access, alias);
    forall b | Mentions(Or(cs), b) ensures b == alias {
      ClausesScope(v.x, Decide(v, TableRes(t), access), t, TableBindings(v, t), access, alias, b);
    }
  }

  /** Lifting the compiled row policy of a path element into its ON clause
      leaves every join result as it was. */
  lemma LiftedElementSame(db: Db, acc: seq<Env>, v: World, p: Path, e: Elem, dynauthz: Option<bool>, access: R.Right,
      prefix: string)
    requires Compiles(v, e.table)
    requires SoundBindings(v.x, e.table, TableBindings(v, e.table), "select", Alias(prefix, e.pos))
    requires dynauthz == Some(false) ==> access != "select"
    ensures JoinSource(db, acc, ElemSource(db, v, p, e, dynauthz, access, prefix)) ==
            JoinSource(db, acc, FilteredSource(db, v, p, e, dynauthz, access, prefix))
  {
    if LiftsPolicy(v, e, dynauthz, access) {
      var alias := Alias(prefix, e.pos);
      var cs := TableClauses(v, e.table, "select", alias);
      TablePolicyRowLocal(v, e.table, "select", alias);
      LiftRowCondition(db, acc, TableRows(db, e.table), alias, e.outer, OnCond(p, e, prefix), Or(cs));
    }
  }

  /** The lifted branch compiles the positive policy whichever was asked for:
      asked for the rows a client may not select, it joins those it may. */
  lemma LiftIgnoresNegation(db: Db, acc: seq<Env>, v: World, p: Path, e: Elem, prefix: string)
    requires Compiles(v, e.table)
    requires SoundBindings(v.x, e.table, TableBindings(v, e.table), "select", Alias(prefix, e.pos))
    requires LiftsPolicy(v, e, Some(false), "select")
    ensures JoinSource(db, acc, ElemSource(db, v, p, e, Some(false), "select", prefix)) ==
            JoinSource(db, acc, FilteredSource(db, v, p, e, Some(true), "select", prefix))
  {
    LiftedElementSame(db, acc, v, p, e, Some(true), "select", prefix);
  }
}
