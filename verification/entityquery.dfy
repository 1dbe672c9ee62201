/** The entity query compiled from a path, and deletion of the entities it
    finds. */
module EntityQuery {
  import opened Wrappers
  import opened Sql
  import opened Aliases
  import opened Paths
  import opened DynAclEquivalence
  import opened DynAclScope
  import opened Joins
  import opened PolicyViews

  ghost function FoldJoins(db: Db, sources: seq<Source>): seq<Env> {
    if sources == [] then [map[]]
    else JoinSource(db, FoldJoins(db, sources[..|sources| - 1]), sources[|sources| - 1])
  }

  ghost function KeepWhere(db: Db, envs: seq<Env>, ws: seq<Cond>): seq<Env> {
    if envs == [] then []
    else (if AllHold(db, envs[0], ws) then [envs[0]] else []) + KeepWhere(db, envs[1..], ws)
  }

  ghost predicate AllHold(db: Db, env: Env, ws: seq<Cond>) {
    forall i | 0 <= i < |ws| :: Holds(db, env, ws[i])
  }

  // ------------------------------------------------------------ key choice

  /** Keys without nullable columns that the client may use. */
  function UsableKeys(v: World, t: TableId, keys: seq<seq<string>>): seq<seq<string>>
    requires t in v.x.m.tables
  {
    if keys == [] then []
    else (if IsPrimaryKey(v.x.m.tables[t], keys[0])
             && Decide(v, R.Key(t.schema, t.name, keys[0]), "select") == R.Allow
          then [keys[0]] else [])
         + UsableKeys(v, t, keys[1..])
  }

  /** The first shortest key. */
  function Shortest(keys: seq<seq<string>>): (k: seq<string>)
    requires keys != []
    ensures k in keys && forall j | j in keys :: |k| <= |j|
  {
    if |keys| == 1 then keys[0]
    else
      var rest := Shortest(keys[1..]);
      if |keys[0]| <= |rest| then keys[0] else rest
  }

  /** Every column that the client can list may be read, if perhaps row by
      row; else the query is refused. */
  predicate ReadableColumns(v: World, t: TableId) {
    t in v.x.m.tables ==>
      forall i | 0 <= i < |v.x.m.tables[t].columns| ::
        var col := v.x.m.tables[t].columns[i].name;
        Listed(v, t, col) ==> R.DataRight(v.w, ColumnRes(t, col), "select", v.x.roles) != R.Deny
  }

  lemma ReadableExactly(v: World, t: TableId)
    ensures ReadableColumns(v, t) <==>
      forall col :: Listed(v, t, col) ==> R.DataRight(v.w, ColumnRes(t, col), "select", v.x.roles) != R.Deny
  {
    if t in v.x.m.tables {
      var def := v.x.m.tables[t];
      forall col | Listed(v, t, col) ensures exists i | 0 <= i < |def.columns| :: def.columns[i].name == col {
        var i :| 0 <= i < |def.columns| && def.columns[i].name == col;
      }
    }
  }

  function ListedColumns(v: World, t: TableId, columns: seq<ColumnDef>): seq<string> {
    if columns == [] then []
    else (if Listed(v, t, columns[0].name) then [columns[0].name] else []) + ListedColumns(v, t, columns[1..])
  }

  /** What DISTINCT ON tells entities apart by: the first shortest usable key,
      or all columns that the client can list. */
  function QueryKey(v: World, t: TableId): seq<string>
    requires t in v.x.m.tables
  {
    var keys := UsableKeys(v, t, v.x.m.tables[t].uniques);
    if keys != [] then Shortest(keys) else ListedColumns(v, t, v.x.m.tables[t].columns)
  }

  lemma {:induction false} UsableKeyMember(v: World, t: TableId, keys: seq<seq<string>>, k: seq<string>)
    requires t in v.x.m.tables && k in UsableKeys(v, t, keys)
    ensures IsPrimaryKey(v.x.m.tables[t], k) && k in keys
    ensures Decide(v, R.Key(t.schema, t.name, k), "select") == R.Allow
    decreases |keys|
  {
    if k !in [keys[0]] || k in UsableKeys(v, t, keys[1..]) {
      UsableKeyMember(v, t, keys[1..], k);
    }
  }

  /** All keys that qualify are offered. */
  lemma {:induction false} UsableKeysExactly(v: World, t: TableId, keys: seq<seq<string>>, k: seq<string>)
    requires t in v.x.m.tables
    ensures k in UsableKeys(v, t, keys) <==>
      k in keys && IsPrimaryKey(v.x.m.tables[t], k) && Decide(v, R.Key(t.schema, t.name, k), "select") == R.Allow
    decreases |keys|
  {
    if keys != [] {
      UsableKeysExactly(v, t, keys[1..], k);
    }
  }

  // --------------------------------------------------------------- sources

  /** The context element is read as asked; every other element at most as its
      'select' view. */
  ghost function PathSources(db: Db, v: World, p: Path, dynauthz: Option<bool>, access: R.Right,
      prefix: string): seq<Source>
    requires WellFormed(p) && AllCompile(v, p)
  {
    seq(|p.elems|, i requires 0 <= i < |p.elems| =>
      if i == Position(p) then ElemSource(db, v, p, p.elems[i], dynauthz, access, prefix)
      else ElemSource(db, v, p, p.elems[i], if dynauthz.Some? then Some(true) else None, "select", prefix))
  }

  ghost function FilteredSources(db: Db, v: World, p: Path, dynauthz: Option<bool>, access: R.Right,
      prefix: string): seq<Source>
    requires WellFormed(p) && AllCompile(v, p)
  {
    seq(|p.elems|, i requires 0 <= i < |p.elems| =>
      if i == Position(p) then FilteredSource(db, v, p, p.elems[i], dynauthz, access, prefix)
      else FilteredSource(db, v, p, p.elems[i], if dynauthz.Some? then Some(true) else None, "select", prefix))
  }

  ghost predicate AllCompile(v: World, p: Path) {
    forall i | 0 <= i < |p.elems| :: Compiles(v, p.elems[i].table)
  }

  ghost predicate AllSound(v: World, p: Path, prefix: string) {
    && AllCompile(v, p)
    && forall i | 0 <= i < |p.elems| ::
         SoundBindings(v.x, p.elems[i].table, TableBindings(v, p.elems[i].table), "select",
           Alias(prefix, p.elems[i].pos))
  }

  /** Row instances that satisfy every join and filter of the compiled query. */
  ghost function Found(db: Db, v: World, p: Path, dynauthz: Option<bool>, access: R.Right, prefix: string): seq<Env>
    requires WellFormed(p) && AllCompile(v, p)
  {
    KeepWhere(db, FoldJoins(db, PathSources(db, v, p, dynauthz, access, prefix)),
              PathWheres(v.x.m.tables, v.x.attrs, p.elems, prefix))
  }

  lemma {:induction false} FoldSame(db: Db, xs: seq<Source>, ys: seq<Source>)
    requires |xs| == |ys|
    requires forall i, acc: seq<Env> | 0 <= i < |xs| :: JoinSource(db, acc, xs[i]) == JoinSource(db, acc, ys[i])
    ensures FoldJoins(db, xs) == FoldJoins(db, ys)
    decreases |xs|
  {
    if xs != [] {
      FoldSame(db, xs[..|xs| - 1], ys[..|ys| - 1]);
    }
  }

  /** The lifted and the filtered forms of all elements find the same. */
  lemma FoundFromViews(db: Db, v: World, p: Path, dynauthz: Option<bool>, access: R.Right, prefix: string)
    requires WellFormed(p) && AllSound(v, p, prefix)
    requires dynauthz == Some(false) ==> access != "select"
    ensures FoldJoins(db, PathSources(db, v, p, dynauthz, access, prefix)) ==
            FoldJoins(db, FilteredSources(db, v, p, dynauthz, access, prefix))
  {
    var xs, ys := PathSources(db, v, p, dynauthz, access, prefix), FilteredSources(db, v, p, dynauthz, access, prefix);
    forall i, acc: seq<Env> | 0 <= i < |xs| ensures JoinSource(db, acc, xs[i]) == JoinSource(db, acc, ys[i]) {
      if i == Position(p) {
        LiftedElementSame(db, acc, v, p, p.elems[i], dynauthz, access, prefix);
      } else {
        LiftedElementSame(db, acc, v, p, p.elems[i], if dynauthz.Some? then Some(true) else None, "select", prefix);
      }
    }
    FoldSame(db, xs, ys);
  }

  // ------------------------------------------------------------ inner joins

  /** An assignment of rows to all elements that satisfies every ON clause. */
  ghost predicate Assignment(db: Db, sources: seq<Source>, e: Env) {
    && Instances(sources, e)
    && (forall i | 0 <= i < |sources| :: Assigned(db, sources[i], e))
  }

  ghost predicate Assigned(db: Db, s: Source, e: Env) {
    s.alias in e && e[s.alias] in s.rows && Holds(db, e, s.on)
  }

  /** Inner joins over distinct aliases whose ON clauses look back only. */
  ghost predicate InnerChain(sources: seq<Source>) {
    && (forall i | 0 <= i < |sources| :: sources[i].kind == NotOuter)
    && (forall i, j | 0 <= i < j < |sources| :: sources[i].alias != sources[j].alias)
    && (forall i, a | 0 <= i < |sources| && Mentions(sources[i].on, a) ::
          exists j | 0 <= j <= i :: a == sources[j].alias)
  }

  lemma {:induction false} MatchedRow(db: Db, d: Env, rows: seq<Row>, a: string, on: Cond, e: Env) returns (r: Row)
    requires e in Matches(db, d, rows, a, on)
    ensures r in rows && e == d[a := r] && Holds(db, e, on)
  {
    if Holds(db, d[a := rows[0]], on) && e == d[a := rows[0]] {
      r := rows[0];
    } else {
      r := MatchedRow(db, d, rows[1..], a, on, e);
    }
  }

  lemma {:induction false} RowMatches(db: Db, d: Env, rows: seq<Row>, a: string, on: Cond, r: Row)
    requires r in rows && Holds(db, d[a := r], on)
    ensures d[a := r] in Matches(db, d, rows, a, on)
  {
    if r != rows[0] {
      assert r in rows[1..];
      RowMatches(db, d, rows[1..], a, on, r);
    }
  }

  lemma {:induction false} JoinedFrom(db: Db, acc: seq<Env>, s: Source, e: Env) returns (d: Env)
    requires s.kind == NotOuter && e in LeftPart(db, acc, s)
    ensures d in acc && s.alias in e && e == d[s.alias := e[s.alias]] && e[s.alias] in s.rows && Holds(db, e, s.on)
  {
    if e in Matches(db, acc[0], s.rows, s.alias, s.on) {
      d := acc[0];
      var r := MatchedRow(db, d, s.rows, s.alias, s.on, e);
    } else {
      d := JoinedFrom(db, acc[1..], s, e);
    }
  }

  lemma {:induction false} JoinsInto(db: Db, acc: seq<Env>, s: Source, d: Env, r: Row)
    requires s.kind == NotOuter && d in acc && r in s.rows && Holds(db, d[s.alias := r], s.on)
    ensures d[s.alias := r] in LeftPart(db, acc, s)
  {
    if d == acc[0] {
      RowMatches(db, d, s.rows, s.alias, s.on, r);
    } else {
      JoinsInto(db, acc[1..], s, d, r);
    }
  }

  ghost predicate HasAlias(sources: seq<Source>, a: string) {
    exists i | 0 <= i < |sources| :: a == sources[i].alias
  }

  ghost predicate Instances(sources: seq<Source>, e: Env) {
    forall a :: a in e <==> HasAlias(sources, a)
  }

  lemma LastAliasNew(sources: seq<Source>)
    requires sources != [] && InnerChain(sources)
    ensures !HasAlias(sources[..|sources| - 1], sources[|sources| - 1].alias)
  {
  }

  /** Taking away the last source's alias leaves those of the others. */
  lemma FrontInstances(sources: seq<Source>, e: Env)
    requires sources != [] && InnerChain(sources)
    ensures var s := sources[|sources| - 1];
      Instances(sources, e) <==> s.alias in e && Instances(sources[..|sources| - 1], e - {s.alias})
  {
    var n := |sources| - 1;
    var s, front := sources[n], sources[..n];
    var d := e - {s.alias};
    LastAliasNew(sources);
    forall a: string ensures HasAlias(sources, a) <==> a == s.alias || HasAlias(front, a) {
      if HasAlias(sources, a) && a != s.alias {
        var i :| 0 <= i < |sources| && a == sources[i].alias;
        assert front[i] == sources[i];
      }
      if HasAlias(front, a) {
        var i :| 0 <= i < |front| && a == front[i].alias;
        assert front[i] == sources[i];
      }
      assert HasAlias(sources, s.alias);
    }
    assert forall a: string :: a in d <==> a in e && a != s.alias;
  }

  /** Earlier conditions do not see the last source. */
  lemma FrontAssigned(db: Db, sources: seq<Source>, e: Env, i: nat)
    requires InnerChain(sources) && i < |sources| - 1
    ensures Assigned(db, sources[i], e) <==> Assigned(db, sources[i], e - {sources[|sources| - 1].alias})
  {
    var s := sources[|sources| - 1];
    var d := e - {s.alias};
    assert sources[i].alias != s.alias;
    forall a | Mentions(sources[i].on, a) ensures SameAt(d, e, a) {
      var j :| 0 <= j <= i && a == sources[j].alias;
      assert sources[j].alias != s.alias;
    }
    EvalDependsOnMentioned(db, d, e, sources[i].on);
  }

  lemma AssignmentStep(db: Db, sources: seq<Source>, e: Env)
    requires sources != [] && InnerChain(sources)
    ensures var s := sources[|sources| - 1];
      Assignment(db, sources, e) <==>
      Assigned(db, s, e) && Assignment(db, sources[..|sources| - 1], e - {s.alias})
  {
    var n := |sources| - 1;
    var s, front := sources[n], sources[..n];
    FrontInstances(sources, e);
    forall i | 0 <= i < n ensures Assigned(db, sources[i], e) <==> Assigned(db, front[i], e - {s.alias}) {
      FrontAssigned(db, sources, e, i);
    }
    if Assigned(db, s, e) && Assignment(db, front, e - {s.alias}) {
      forall i | 0 <= i < |sources| ensures Assigned(db, sources[i], e) {
        if i < n { assert Assigned(db, front[i], e - {s.alias}); }
      }
    }
    if Assignment(db, sources, e) {
      assert Assigned(db, sources[n], e);
      forall i | 0 <= i < |front| ensures Assigned(db, front[i], e - {s.alias}) {
        assert Assigned(db, sources[i], e);
      }
    }
  }

  /** The FROM clause of an inner-join path yields exactly the assignments. */
  lemma {:induction false} FoldMember(db: Db, sources: seq<Source>, e: Env)
    requires InnerChain(sources)
    ensures e in FoldJoins(db, sources) <==> Assignment(db, sources, e)
    decreases |sources|
  {
    if sources == [] {
      assert Instances(sources, e) <==> e == map[];
    } else {
      var front := sources[..|sources| - 1];
      FrontChain(sources);
      forall d ensures d in FoldJoins(db, front) <==> Assignment(db, front, d) {
        FoldMember(db, front, d);
      }
      FoldStep(db, sources, FoldJoins(db, front), e);
    }
  }

  /** One more join, given what the joins before it yield. */
  lemma FoldStep(db: Db, sources: seq<Source>, acc: seq<Env>, e: Env)
    requires sources != [] && InnerChain(sources)
    requires forall d :: d in acc <==> Assignment(db, sources[..|sources| - 1], d)
    ensures e in JoinSource(db, acc, sources[|sources| - 1]) <==> Assignment(db, sources, e)
  {
    var s := sources[|sources| - 1];
    AssignmentStep(db, sources, e);
    if e in JoinSource(db, acc, s) {
      var d := JoinedFrom(db, acc, s, e);
      LastAliasUnassigned(db, sources, d);
      assert e - {s.alias} == d;
    } else if Assigned(db, s, e) {
      LastJoins(db, acc, s, e);
    }
  }

  lemma LastAliasUnassigned(db: Db, sources: seq<Source>, d: Env)
    requires sources != [] && InnerChain(sources) && Assignment(db, sources[..|sources| - 1], d)
    ensures sources[|sources| - 1].alias !in d
  {
  }

  lemma LastJoins(db: Db, acc: seq<Env>, s: Source, e: Env)
    requires s.kind == NotOuter && Assigned(db, s, e)
    ensures e - {s.alias} in acc ==> e in JoinSource(db, acc, s)
  {
    var d := e - {s.alias};
    assert d[s.alias := e[s.alias]] == e;
    if d in acc {
      JoinsInto(db, acc, s, d, e[s.alias]);
    }
  }

  lemma FrontChain(sources: seq<Source>)
    requires sources != [] && InnerChain(sources)
    ensures InnerChain(sources[..|sources| - 1])
  {
  }

  lemma {:induction false} KeepWhereMember(db: Db, envs: seq<Env>, ws: seq<Cond>, e: Env)
    ensures e in KeepWhere(db, envs, ws) <==> e in envs && AllHold(db, e, ws)
  {
    if envs != [] {
      KeepWhereMember(db, envs[1..], ws, e);
      assert envs == [envs[0]] + envs[1..];
    }
  }

  ghost predicate InnerPath(p: Path) {
    WellFormed(p) && forall i | 0 <= i < |p.elems| :: p.elems[i].outer == NotOuter
  }

  lemma FilteredChain(db: Db, v: World, p: Path, dynauthz: Option<bool>, access: R.Right, prefix: string)
    requires InnerPath(p) && AllCompile(v, p)
    ensures InnerChain(FilteredSources(db, v, p, dynauthz, access, prefix))
    ensures forall i | 0 <= i < |p.elems| ::
      FilteredSources(db, v, p, dynauthz, access, prefix)[i].alias == Alias(prefix, i)
  {
    var ss := FilteredSources(db, v, p, dynauthz, access, prefix);
    forall i | 0 <= i < |ss| ensures ss[i].alias == Alias(prefix, i) && ss[i].on == OnCond(p, p.elems[i], prefix) {
      assert ElemOk(p, i);
    }
    forall i, j | 0 <= i < j < |ss| ensures ss[i].alias != ss[j].alias {
      AliasesDiffer(prefix, i, j);
    }
    forall i, a | 0 <= i < |ss| && Mentions(ss[i].on, a) ensures exists j | 0 <= j <= i :: a == ss[j].alias {
      OnClauseInScope(p, i, prefix, a);
      var left := LeftPos(p, p.elems[i]);
      assert ss[left].alias == Alias(prefix, left);
    }
  }

  /** Some assignment of rows from the policy views to all elements satisfies
      every join and filter, and gives this environment. */
  ghost predicate Witnesses(db: Db, v: World, p: Path, dynauthz: Option<bool>, access: R.Right, prefix: string, e: Env)
    requires WellFormed(p) && AllCompile(v, p)
  {
    && Assignment(db, FilteredSources(db, v, p, dynauthz, access, prefix), e)
    && AllHold(db, e, PathWheres(v.x.m.tables, v.x.attrs, p.elems, prefix))
  }

  lemma FoundMember(db: Db, v: World, p: Path, dynauthz: Option<bool>, access: R.Right, prefix: string, e: Env)
    requires InnerPath(p) && AllSound(v, p, prefix)
    requires dynauthz == Some(false) ==> access != "select"
    ensures e in Found(db, v, p, dynauthz, access, prefix) <==> Witnesses(db, v, p, dynauthz, access, prefix, e)
  {
    FoundFromViews(db, v, p, dynauthz, access, prefix);
    FilteredChain(db, v, p, dynauthz, access, prefix);
    FoldMember(db, FilteredSources(db, v, p, dynauthz, access, prefix), e);
    KeepWhereMember(db, FoldJoins(db, PathSources(db, v, p, dynauthz, access, prefix)),
                    PathWheres(v.x.m.tables, v.x.attrs, p.elems, prefix), e);
  }
}
