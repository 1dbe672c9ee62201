/** What a policy view shows of a table and what an entity query finds, told by
    rows, columns and documents alone. */
module ViewMeaning {
  import opened Wrappers
  import opened Sql
  import opened Aliases
  import opened Paths
  import opened Joins
  import opened DynAclEquivalence
  import opened DynAclScope
  import opened PolicyViews
  import opened PathMeaning
  import opened PolicyMeaning
  import opened EntityQuery
  import opened EntityResults
  import opened EntityDelete

  // ------------------------------------------------------------------ views

  /** The table's policy lets the row through. */
  ghost predicate RowGranted(db: Db, v: World, t: TableId, access: R.Right, s: Row) {
    Decide(v, TableRes(t), access) != R.Maybe || PolicyGrants(db, v.x, t, TableBindings(v, t), access, s)
  }

  /** The client may see the column's value in the row: by the decision on the
      column, or by a binding of the table or, in its place, of the column. */
  ghost predicate CellGranted(db: Db, v: World, t: TableId, access: R.Right, col: string, s: Row) {
    || Decide(v, ColumnRes(t, col), access) == R.Allow
    || (Decide(v, ColumnRes(t, col), access) == R.Maybe
        && PolicyGrants(db, v.x, t, ColumnBindings(v, t, col), access, s))
  }

  ghost function GrantedRows(db: Db, v: World, t: TableId, access: R.Right, rows: seq<Row>): seq<Row> {
    if rows == [] then []
    else (if RowGranted(db, v, t, access, rows[0]) then [rows[0]] else []) + GrantedRows(db, v, t, access, rows[1..])
  }

  /** `r` shows the stored row `s` in the columns that the client can list: each
      granted value, and null for the others. A column that is refused outright
      is not masked; a query that returns it is refused before. */
  ghost predicate Shows(db: Db, v: World, t: TableId, access: R.Right, s: Row, r: Row) {
    forall col | Listed(v, t, col) ::
      Field(r, col) ==
        if Decide(v, ColumnRes(t, col), access) == R.Deny || CellGranted(db, v, t, access, col, s) then Field(s, col)
        else Null
  }

  /** Policies on the table and its listed columns are sound for an alias. */
  ghost predicate AllPoliciesSound(db: Db, v: World, t: TableId, access: R.Right, alias: string) {
    && Orders(v) && Compiles(v, t) && KeyIdentifies(db, v.x.m.tables, t)
    && SoundBindings(v.x, t, TableBindings(v, t), access, alias)
    && forall col | Listed(v, t, col) :: SoundBindings(v.x, t, ColumnBindings(v, t, col), access, alias)
  }

  lemma RowClausesMeaning(db: Db, v: World, t: TableId, access: R.Right, alias: string, s: Row)
    requires AllPoliciesSound(db, v, t, access, alias) && s in TableRows(db, t)
    ensures Holds(db, map[alias := s], Or(TableClauses(v, t, access, alias))) <==> RowGranted(db, v, t, access, s)
  {
    ClausesMeanDocuments(db, map[alias := s], v.x, Decide(v, TableRes(t), access), t, TableBindings(v, t),
      access, alias, s);
  }

  lemma CellClausesMeaning(db: Db, v: World, t: TableId, access: R.Right, alias: string, col: string, s: Row)
    requires AllPoliciesSound(db, v, t, access, alias) && s in TableRows(db, t) && Listed(v, t, col)
    requires Decide(v, ColumnRes(t, col), access) != R.Deny
    ensures Holds(db, map[alias := s], Or(ColumnClauses(v, t, col, access, alias))) <==>
      CellGranted(db, v, t, access, col, s)
  {
    ClausesMeanDocuments(db, map[alias := s], v.x, Decide(v, ColumnRes(t, col), access), t, ColumnBindings(v, t, col),
      access, alias, s);
  }

  lemma {:induction false} SelectGranted(db: Db, v: World, t: TableId, access: R.Right, alias: string, rows: seq<Row>)
    requires AllPoliciesSound(db, v, t, access, alias) && forall s | s in rows :: s in TableRows(db, t)
    ensures Select(db, rows, alias, Or(TableClauses(v, t, access, alias))) == GrantedRows(db, v, t, access, rows)
  {
    if rows != [] {
      RowClausesMeaning(db, v, t, access, alias, rows[0]);
      SelectGranted(db, v, t, access, alias, rows[1..]);
    }
  }

  lemma {:induction false} GrantedMember(db: Db, v: World, t: TableId, access: R.Right, rows: seq<Row>, s: Row)
    ensures s in GrantedRows(db, v, t, access, rows) <==> s in rows && RowGranted(db, v, t, access, s)
  {
    if rows != [] {
      GrantedMember(db, v, t, access, rows[1..], s);
    }
  }

  /** A mask, or its absence, on one column of a row that the table's policy
      lets through. */
  lemma MaskedCell(db: Db, v: World, t: TableId, access: R.Right, alias: string, col: string, s: Row)
    requires AllPoliciesSound(db, v, t, access, alias) && s in TableRows(db, t) && RowGranted(db, v, t, access, s)
    requires Listed(v, t, col) && Decide(v, ColumnRes(t, col), access) != R.Deny
    ensures Field(MaskRow(db, v, t, access, alias, s), col) ==
      if CellGranted(db, v, t, access, col, s) then Field(s, col) else Null
    ensures !Restricted(v, t, col, access) ==> CellGranted(db, v, t, access, col, s)
  {
    CellClausesMeaning(db, v, t, access, alias, col, s);
    RowClausesMeaning(db, v, t, access, alias, s);
    if !Restricted(v, t, col, access) {
      SkippedMaskSound(db, v, t, col, access, alias, s);
    }
  }

  lemma MaskShows(db: Db, v: World, t: TableId, access: R.Right, alias: string, s: Row)
    requires AllPoliciesSound(db, v, t, access, alias) && s in TableRows(db, t) && RowGranted(db, v, t, access, s)
    ensures Shows(db, v, t, access, s, MaskRow(db, v, t, access, alias, s))
    ensures SkipColumns(v, t, access) ==> Shows(db, v, t, access, s, s)
  {
    forall col | Listed(v, t, col)
      ensures var refused := Decide(v, ColumnRes(t, col), access) == R.Deny;
        && Field(MaskRow(db, v, t, access, alias, s), col) ==
          (if refused || CellGranted(db, v, t, access, col, s) then Field(s, col) else Null)
        && (SkipColumns(v, t, access) ==> refused || CellGranted(db, v, t, access, col, s))
    {
      if Decide(v, ColumnRes(t, col), access) != R.Deny {
        MaskedCell(db, v, t, access, alias, col, s);
      }
      var i :| 0 <= i < |v.x.m.tables[t].columns| && v.x.m.tables[t].columns[i].name == col;
    }
  }

  ghost predicate AllShown(db: Db, v: World, t: TableId, access: R.Right, rows: seq<Row>, view: seq<Row>) {
    |view| == |rows| && forall i | 0 <= i < |rows| :: Shows(db, v, t, access, rows[i], view[i])
  }

  lemma ViewIsMasked(db: Db, v: World, t: TableId, access: R.Right, alias: string)
    requires AllPoliciesSound(db, v, t, access, alias)
    ensures var rows := GrantedRows(db, v, t, access, TableRows(db, t));
      ViewRows(db, v, t, Some(true), access, alias)
        == if SkipColumns(v, t, access) then rows else MaskRows(db, v, t, access, alias, rows)
  {
    var cs, rows := TableClauses(v, t, access, alias), TableRows(db, t);
    SelectGranted(db, v, t, access, alias, rows);
    if cs == [Const(true)] {
      SelectAllTrue(db, rows, alias, cs);
    }
  }

  lemma {:induction false} SelectAllTrue(db: Db, rows: seq<Row>, alias: string, cs: seq<Cond>)
    requires cs == [Const(true)]
    ensures Select(db, rows, alias, Or(cs)) == rows
  {
    if rows != [] {
      assert Holds(db, map[alias := rows[0]], cs[0]);
      SelectAllTrue(db, rows[1..], alias, cs);
    }
  }

  /** Row by row and cell by cell: the positive view of a table is its granted
      rows in order, each with its granted values. */
  lemma ViewShowsGranted(db: Db, v: World, t: TableId, access: R.Right, alias: string)
    requires AllPoliciesSound(db, v, t, access, alias)
    ensures AllShown(db, v, t, access, GrantedRows(db, v, t, access, TableRows(db, t)),
      ViewRows(db, v, t, Some(true), access, alias))
  {
    var rows := GrantedRows(db, v, t, access, TableRows(db, t));
    ViewIsMasked(db, v, t, access, alias);
    forall i | 0 <= i < |rows|
      ensures Shows(db, v, t, access, rows[i], MaskRow(db, v, t, access, alias, rows[i]))
      ensures SkipColumns(v, t, access) ==> Shows(db, v, t, access, rows[i], rows[i])
    {
      GrantedMember(db, v, t, access, TableRows(db, t), rows[i]);
      MaskShows(db, v, t, access, alias, rows[i]);
    }
  }

  // ---------------------------------------------------------------- queries

  /** Filters as users write them. */
  ghost predicate UserFilters(p: Path) {
    forall i, k | 0 <= i < |p.elems| && 0 <= k < |p.elems[i].filters| :: PlainFilter(p.elems[i].filters[k])
  }

  /** The view of element `i`: the context element's as asked for, at most the
      'select' view of every other one. */
  ghost function ElemView(db: Db, v: World, p: Path, dynauthz: Option<bool>, access: R.Right, prefix: string,
      i: nat): seq<Row>
    requires WellFormed(p) && AllCompile(v, p) && i < |p.elems|
  {
    if i == Position(p) then ViewRows(db, v, p.elems[i].table, dynauthz, access, Alias(prefix, i))
    else ViewRows(db, v, p.elems[i].table, if dynauthz.Some? then Some(true) else None, "select", Alias(prefix, i))
  }

  /** A row of each element's view, satisfying all links and filters. */
  ghost predicate Chosen(db: Db, v: World, p: Path, dynauthz: Option<bool>, access: R.Right, prefix: string,
      rows: seq<Row>)
    requires WellFormed(p) && AllCompile(v, p)
  {
    && |rows| == |p.elems|
    && (forall i | 0 <= i < |rows| :: rows[i] in ElemView(db, v, p, dynauthz, access, prefix, i))
    && (forall i | 0 <= i < |rows| :: LinkedTo(p, rows, i))
    && (forall i | 0 <= i < |rows| :: Passes(db, v.x.attrs, rows, p.elems[i]))
  }

  /** The rows that an environment has for the elements of a path. */
  function RowsOf(e: Env, prefix: string, n: nat): seq<Row> {
    seq(n, i requires 0 <= i < n => At(e, Alias(prefix, i)))
  }

  /** The environment with just those rows. */
  ghost function EnvOf(prefix: string, rows: seq<Row>): (e: Env)
    ensures Binds(e, prefix, rows)
    ensures forall a | a in e :: exists i: nat :: i < |rows| && a == Alias(prefix, i)
  {
    if rows == [] then map[]
    else
      var front := rows[..|rows| - 1];
      BindsMore(EnvOf(prefix, front), prefix, front, rows[|rows| - 1]);
      assert front + [rows[|rows| - 1]] == rows;
      EnvOf(prefix, front)[Alias(prefix, |rows| - 1) := rows[|rows| - 1]]
  }

  lemma PathPasses(db: Db, m: Tables, attrs: seq<Value>, p: Path, prefix: string, e: Env, rows: seq<Row>)
    requires WellFormed(p) && UserFilters(p) && |rows| == |p.elems| && Binds(e, prefix, rows)
    ensures AllHold(db, e, PathWheres(m, attrs, p.elems, prefix)) <==>
      forall i | 0 <= i < |rows| :: Passes(db, attrs, rows, p.elems[i])
  {
    WheresHold(db, e, m, attrs, p.elems, prefix);
    forall i | 0 <= i < |rows|
      ensures HasRow(db, e, Where(ElemWheres(m, attrs, p.elems[i], prefix))) <==> Passes(db, attrs, rows, p.elems[i])
    {
      assert ElemOk(p, i);
      ElemWheresHold(db, e, m, attrs, p.elems[i], prefix, rows);
    }
    assert HasRow(db, e, Where(PathWheres(m, attrs, p.elems, prefix))) <==>
      AllHold(db, e, PathWheres(m, attrs, p.elems, prefix));
  }

  lemma SourceMeaning(db: Db, v: World, p: Path, dynauthz: Option<bool>, access: R.Right, prefix: string, e: Env,
      rows: seq<Row>, i: nat)
    requires WellFormed(p) && AllCompile(v, p) && |rows| == |p.elems| && Binds(e, prefix, rows) && i < |rows|
    ensures Assigned(db, FilteredSources(db, v, p, dynauthz, access, prefix)[i], e) <==>
      rows[i] in ElemView(db, v, p, dynauthz, access, prefix, i) && LinkedTo(p, rows, i)
  {
    assert ElemOk(p, i) && Bound(e, Alias(prefix, i), rows[i]);
    OnMeaning(db, e, p, prefix, rows, i);
  }

  ghost predicate AllAssigned(db: Db, sources: seq<Source>, e: Env) {
    forall i | 0 <= i < |sources| :: Assigned(db, sources[i], e)
  }

  lemma SourcesMeaning(db: Db, v: World, p: Path, dynauthz: Option<bool>, access: R.Right, prefix: string, e: Env,
      rows: seq<Row>)
    requires WellFormed(p) && AllCompile(v, p) && |rows| == |p.elems| && Binds(e, prefix, rows)
    ensures AllAssigned(db, FilteredSources(db, v, p, dynauthz, access, prefix), e) <==>
      forall i | 0 <= i < |rows| ::
        rows[i] in ElemView(db, v, p, dynauthz, access, prefix, i) && LinkedTo(p, rows, i)
  {
    var sources := FilteredSources(db, v, p, dynauthz, access, prefix);
    forall i | 0 <= i < |rows|
      ensures Assigned(db, sources[i], e) <==>
        rows[i] in ElemView(db, v, p, dynauthz, access, prefix, i) && LinkedTo(p, rows, i)
    {
      SourceMeaning(db, v, p, dynauthz, access, prefix, e, rows, i);
    }
  }

  /** An environment that binds just the path's elements satisfies the query
      exactly if its rows are chosen rightly. */
  lemma WitnessMeaning(db: Db, v: World, p: Path, dynauthz: Option<bool>, access: R.Right, prefix: string, e: Env,
      rows: seq<Row>)
    requires WellFormed(p) && AllCompile(v, p) && UserFilters(p) && |rows| == |p.elems| && Binds(e, prefix, rows)
    requires Instances(FilteredSources(db, v, p, dynauthz, access, prefix), e)
    ensures Witnesses(db, v, p, dynauthz, access, prefix, e) <==> Chosen(db, v, p, dynauthz, access, prefix, rows)
  {
    PathPasses(db, v.x.m.tables, v.x.attrs, p, prefix, e, rows);
    SourcesMeaning(db, v, p, dynauthz, access, prefix, e, rows);
    assert Assignment(db, FilteredSources(db, v, p, dynauthz, access, prefix), e) <==>
      AllAssigned(db, FilteredSources(db, v, p, dynauthz, access, prefix), e);
  }

  lemma SourceAliases(db: Db, v: World, p: Path, dynauthz: Option<bool>, access: R.Right, prefix: string, a: string)
    requires WellFormed(p) && AllCompile(v, p)
    ensures HasAlias(FilteredSources(db, v, p, dynauthz, access, prefix), a) <==>
      exists i: nat :: i < |p.elems| && a == Alias(prefix, i)
  {
    var sources := FilteredSources(db, v, p, dynauthz, access, prefix);
    forall i: nat | i < |p.elems| ensures sources[i].alias == Alias(prefix, i) {
      assert ElemOk(p, i);
    }
    if i: nat :| i < |p.elems| && a == Alias(prefix, i) {
      assert sources[i].alias == a;
    }
  }

  /** The environment has the path's aliases and no others. */
  ghost predicate JustAliases(e: Env, prefix: string, n: nat) {
    forall a :: a in e <==> exists i: nat :: i < n && a == Alias(prefix, i)
  }

  lemma InstancesMeaning(db: Db, v: World, p: Path, dynauthz: Option<bool>, access: R.Right, prefix: string, e: Env)
    requires WellFormed(p) && AllCompile(v, p)
    ensures Instances(FilteredSources(db, v, p, dynauthz, access, prefix), e) <==> JustAliases(e, prefix, |p.elems|)
  {
    forall a
      ensures HasAlias(FilteredSources(db, v, p, dynauthz, access, prefix), a) <==>
        exists i: nat :: i < |p.elems| && a == Alias(prefix, i)
    {
      SourceAliases(db, v, p, dynauthz, access, prefix, a);
    }
  }

  lemma RowsOfBinds(e: Env, prefix: string, n: nat)
    requires JustAliases(e, prefix, n)
    ensures Binds(e, prefix, RowsOf(e, prefix, n))
  {
  }

  lemma EnvOfAliases(prefix: string, rows: seq<Row>)
    ensures JustAliases(EnvOf(prefix, rows), prefix, |rows|)
  {
    var e := EnvOf(prefix, rows);
    forall i: nat | i < |rows| ensures Alias(prefix, i) in e {
      assert Bound(e, Alias(prefix, i), rows[i]);
    }
  }

  lemma WitnessChosen(db: Db, v: World, p: Path, dynauthz: Option<bool>, access: R.Right, prefix: string, e: Env)
    requires WellFormed(p) && AllCompile(v, p) && UserFilters(p) && Witnesses(db, v, p, dynauthz, access, prefix, e)
    ensures Chosen(db, v, p, dynauthz, access, prefix, RowsOf(e, prefix, |p.elems|))
  {
    InstancesMeaning(db, v, p, dynauthz, access, prefix, e);
    RowsOfBinds(e, prefix, |p.elems|);
    WitnessMeaning(db, v, p, dynauthz, access, prefix, e, RowsOf(e, prefix, |p.elems|));
  }

  lemma ChosenWitness(db: Db, v: World, p: Path, dynauthz: Option<bool>, access: R.Right, prefix: string,
      rows: seq<Row>)
    requires WellFormed(p) && AllCompile(v, p) && UserFilters(p) && Chosen(db, v, p, dynauthz, access, prefix, rows)
    ensures Witnesses(db, v, p, dynauthz, access, prefix, EnvOf(prefix, rows))
  {
    EnvOfAliases(prefix, rows);
    InstancesMeaning(db, v, p, dynauthz, access, prefix, EnvOf(prefix, rows));
    WitnessMeaning(db, v, p, dynauthz, access, prefix, EnvOf(prefix, rows), rows);
  }

  /** A row is wanted exactly if rows can be chosen for all elements with it as
      that of the context element. */
  lemma WantedMeaning(db: Db, v: World, p: Path, dynauthz: Option<bool>, access: R.Right, prefix: string, r: Row)
    requires WellFormed(p) && AllCompile(v, p) && UserFilters(p)
    ensures Wanted(db, v, p, dynauthz, access, prefix, r) <==>
      exists rows :: Chosen(db, v, p, dynauthz, access, prefix, rows) && rows[Position(p)] == r
  {
    var n, k := |p.elems|, Position(p);
    if e :| Witnesses(db, v, p, dynauthz, access, prefix, e) && At(e, Alias(prefix, k)) == r {
      WitnessChosen(db, v, p, dynauthz, access, prefix, e);
      assert RowsOf(e, prefix, n)[k] == r;
    }
    if rows :| Chosen(db, v, p, dynauthz, access, prefix, rows) && rows[k] == r {
      ChosenWitness(db, v, p, dynauthz, access, prefix, rows);
      assert Bound(EnvOf(prefix, rows), Alias(prefix, k), rows[k]);
    }
  }

  /** Whom the delete check lets through: rows that the delete policy of their
      table grants. */
  lemma DeleteAdmitsMeaning(db: Db, v: World, p: Path, e: Env)
    requires WellFormed(p) && AllCompile(v, p)
    requires var t, a := p.elems[Position(p)].table, Alias("", Position(p));
      AllPoliciesSound(db, v, t, "delete", a) && At(e, a) in TableRows(db, t)
    ensures DeleteAdmits(db, v, p, e) <==>
      RowGranted(db, v, p.elems[Position(p)].table, "delete", At(e, Alias("", Position(p))))
  {
    var t, a := p.elems[Position(p)].table, Alias("", Position(p));
    RowClausesMeaning(db, v, t, "delete", a, At(e, a));
  }
}
