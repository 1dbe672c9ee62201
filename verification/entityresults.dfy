/** What an entity request returns and what an entity deletion removes. */
module EntityResults {
  import opened Wrappers
  import opened Sql
  import opened Aliases
  import opened Paths
  import opened DynAclEquivalence
  import opened DynAclScope
  import opened Joins
  import opened PolicyViews
  import opened EntityQuery

  /** No two rows of the sequence agree on the key, and none is null there. */
  ghost predicate KeyUnique(rows: seq<Row>, key: seq<string>) {
    && (forall i | 0 <= i < |rows| :: NonNullOn(rows[i], key))
    && (forall i, j | 0 <= i < j < |rows| :: !SameOn(rows[i], rows[j], key))
  }

  /** No two environments agree on the key at the alias. */
  ghost predicate KeysApart(envs: seq<Env>, a: string, key: seq<string>) {
    forall i, j | 0 <= i < j < |envs| :: !SameOn(At(envs[i], a), At(envs[j], a), key)
  }

  /** SELECT DISTINCT ON (key): one row of each group, whichever it is. */
  ghost predicate DistinctOn(out: seq<Env>, envs: seq<Env>, a: string, key: seq<string>) {
    && (forall d | d in out :: d in envs)
    && KeysApart(out, a, key)
    && (forall e | e in envs :: Represented(out, At(e, a), a, key))
  }

  ghost predicate Represented(out: seq<Env>, r: Row, a: string, key: seq<string>) {
    exists d | d in out :: SameOn(At(d, a), r, key)
  }

  function At(e: Env, a: string): Row {
    if a in e then e[a] else map[]
  }

  ghost function ContextRows(envs: seq<Env>, a: string): seq<Row> {
    seq(|envs|, i requires 0 <= i < |envs| => At(envs[i], a))
  }

  /** A possible result of the compiled entity query: a path of one element is
      not made distinct. */
  ghost predicate EntityResult(db: Db, v: World, p: Path, dynauthz: Option<bool>, access: R.Right, prefix: string,
                               key: seq<string>, rows: seq<Row>)
    requires WellFormed(p) && AllCompile(v, p)
  {
    var envs := Found(db, v, p, dynauthz, access, prefix);
    var a := Alias(prefix, Position(p));
    exists out ::
      && (if |p.elems| == 1 then out == envs else DistinctOn(out, envs, a, key))
      && rows == ContextRows(out, a)
  }

  // ----------------------------------------------------- keys through views

  /** The key survives the view: it is one the client was found to be allowed
      to use, and no column of it is masked. */
  ghost predicate Unmasked(v: World, t: TableId, key: seq<string>, access: R.Right) {
    forall i | 0 <= i < |key| :: !Masked(v, t, key[i], access)
  }

  predicate KeyListed(v: World, t: TableId, key: seq<string>) {
    forall i | 0 <= i < |key| :: Listed(v, t, key[i])
  }

  /** A key the compiler picks consists of columns the client can list. */
  lemma UsableKeyListed(v: World, t: TableId, key: seq<string>)
    requires t in v.x.m.tables && key in UsableKeys(v, t, v.x.m.tables[t].uniques)
    requires forall c | c in key :: HasColumn(v.x.m.tables[t], c)
    ensures KeyListed(v, t, key)
  {
    UsableKeyMember(v, t, v.x.m.tables[t].uniques, key);
    forall i | 0 <= i < |key| ensures Listed(v, t, key[i]) {
      assert key[i] in key;
    }
  }

  lemma {:induction false} SelectKeyUnique(db: Db, rows: seq<Row>, a: string, c: Cond, key: seq<string>)
    requires KeyUnique(rows, key)
    ensures KeyUnique(Select(db, rows, a, c), key)
  {
    if rows != [] {
      SelectKeyUnique(db, rows[1..], a, c, key);
      var rest := Select(db, rows[1..], a, c);
      forall i | 0 <= i < |rest| ensures !SameOn(rows[0], rest[i], key) {
        SelectMember(db, rows[1..], a, c, rest[i]);
        var j :| 0 <= j < |rows[1..]| && rows[1..][j] == rest[i];
        assert rows[j + 1] == rest[i];
      }
    }
  }

  lemma MaskRowsKeyUnique(db: Db, v: World, t: TableId, access: R.Right, a: string, rows: seq<Row>, key: seq<string>)
    requires Compiles(v, t) && KeyListed(v, t, key) && Unmasked(v, t, key, access) && KeyUnique(rows, key)
    ensures KeyUnique(MaskRows(db, v, t, access, a, rows), key)
  {
  }

  /** A view keeps its table's rows apart by an unmasked key. */
  lemma ViewKeyUnique(db: Db, v: World, t: TableId, dynauthz: Option<bool>, access: R.Right, a: string,
      key: seq<string>)
    requires Compiles(v, t) && KeyUnique(TableRows(db, t), key)
    requires KeyListed(v, t, key) && Unmasked(v, t, key, access)
    ensures KeyUnique(ViewRows(db, v, t, dynauthz, access, a), key)
  {
    var cs := TableClauses(v, t, access, a);
    SelectKeyUnique(db, TableRows(db, t), a, Or(cs), key);
    SelectKeyUnique(db, TableRows(db, t), a, And(Negated(cs)), key);
    MaskRowsKeyUnique(db, v, t, access, a, Select(db, TableRows(db, t), a, Or(cs)), key);
  }

  // ---------------------------------------------------------- single element

  lemma {:induction false} KeepWhereSubsequence(db: Db, envs: seq<Env>, ws: seq<Cond>, a: string, key: seq<string>)
    requires KeysApart(envs, a, key)
    ensures KeysApart(KeepWhere(db, envs, ws), a, key)
  {
    if envs != [] {
      KeepWhereSubsequence(db, envs[1..], ws, a, key);
      var rest := KeepWhere(db, envs[1..], ws);
      forall i | 0 <= i < |rest| ensures !SameOn(At(envs[0], a), At(rest[i], a), key) {
        KeepWhereMember(db, envs[1..], ws, rest[i]);
        var j :| 0 <= j < |envs[1..]| && envs[1..][j] == rest[i];
        assert envs[j + 1] == rest[i];
      }
    }
  }

  lemma {:induction false} SingleMatches(db: Db, rows: seq<Row>, a: string)
    ensures Matches(db, map[], rows, a, Const(true)) == seq(|rows|, i requires 0 <= i < |rows| => map[a := rows[i]])
  {
    if rows != [] {
      SingleMatches(db, rows[1..], a);
      var e: Env := map[];
      assert Holds(db, e[a := rows[0]], Const(true));
    }
  }

  /** A one-element path finds the rows of its view, in order, that pass its
      filters. */
  lemma SingleFound(db: Db, v: World, p: Path, dynauthz: Option<bool>, access: R.Right, prefix: string,
      key: seq<string>)
    requires InnerPath(p) && AllCompile(v, p) && |p.elems| == 1
    requires KeyUnique(ViewRows(db, v, p.elems[0].table, dynauthz, access, Alias(prefix, 0)), key)
    ensures KeysApart(Found(db, v, p, dynauthz, access, prefix), Alias(prefix, 0), key)
  {
    assert ElemOk(p, 0);
    var a := Alias(prefix, 0);
    var rows := ViewRows(db, v, p.elems[0].table, dynauthz, access, a);
    var sources := PathSources(db, v, p, dynauthz, access, prefix);
    var s := Source(rows, a, NotOuter, Const(true));
    assert Position(p) == 0 && sources[0] == s && sources == [s];
    var start: seq<Env> := [map[]];
    assert sources[..0] == [] && FoldJoins(db, []) == start;
    assert FoldJoins(db, sources) == JoinSource(db, start, s);
    SingleMatches(db, rows, a);
    var ms := Matches(db, map[], rows, a, Const(true));
    assert start[1..] == [] && LeftPart(db, start, s) == ms;
    assert FoldJoins(db, sources) == ms;
    forall i | 0 <= i < |ms| ensures At(ms[i], a) == rows[i] {}
    assert KeysApart(ms, a, key);
    assert Found(db, v, p, dynauthz, access, prefix)
      == KeepWhere(db, ms, PathWheres(v.x.m.tables, v.x.attrs, p.elems, prefix));
    KeepWhereSubsequence(db, ms, PathWheres(v.x.m.tables, v.x.attrs, p.elems, prefix), a, key);
  }

  // --------------------------------------------------------- main theorem

  /** What the entity request promises, stated without its query: the rows are
      those of the context table's policy view for which rows of the other
      elements' views can be chosen that satisfy every join and filter. */
  ghost predicate Wanted(db: Db, v: World, p: Path, dynauthz: Option<bool>, access: R.Right, prefix: string, r: Row)
    requires WellFormed(p) && AllCompile(v, p)
  {
    exists e :: Witnesses(db, v, p, dynauthz, access, prefix, e) && At(e, Alias(prefix, Position(p))) == r
  }

  lemma WitnessRow(db: Db, v: World, p: Path, dynauthz: Option<bool>, access: R.Right, prefix: string, e: Env)
    requires InnerPath(p) && AllCompile(v, p) && Witnesses(db, v, p, dynauthz, access, prefix, e)
    ensures var a := Alias(prefix, Position(p));
      a in e && e[a] in ViewRows(db, v, p.elems[Position(p)].table, dynauthz, access, a)
  {
    var i := Position(p);
    assert ElemOk(p, i);
    assert Assigned(db, FilteredSources(db, v, p, dynauthz, access, prefix)[i], e);
  }

  ghost predicate HasContextRow(envs: seq<Env>, a: string, r: Row) {
    exists e | e in envs :: At(e, a) == r
  }

  lemma ContextRowMember(envs: seq<Env>, a: string, r: Row)
    ensures r in ContextRows(envs, a) <==> HasContextRow(envs, a, r)
  {
    if r in ContextRows(envs, a) {
      var i :| 0 <= i < |envs| && ContextRows(envs, a)[i] == r;
      assert envs[i] in envs;
    }
    if HasContextRow(envs, a, r) {
      var e :| e in envs && At(e, a) == r;
      var i :| 0 <= i < |envs| && envs[i] == e;
      assert ContextRows(envs, a)[i] == r;
    }
  }

  lemma RepresentedIsPresent(out: seq<Env>, a: string, key: seq<string>, view: seq<Row>, r: Row)
    requires Represented(out, r, a, key) && KeyUnique(view, key) && r in view
    requires forall d | d in out :: At(d, a) in view
    ensures HasContextRow(out, a, r)
  {
  }

  /** DISTINCT ON loses no row of a view whose key is unique. */
  lemma DistinctKeepsRows(out: seq<Env>, envs: seq<Env>, a: string, key: seq<string>, view: seq<Row>, r: Row)
    requires DistinctOn(out, envs, a, key) && KeyUnique(view, key)
    requires forall e | e in envs :: At(e, a) in view
    ensures HasContextRow(out, a, r) <==> HasContextRow(envs, a, r)
  {
    if HasContextRow(envs, a, r) {
      var e :| e in envs && At(e, a) == r;
      assert Represented(out, r, a, key);
      RepresentedIsPresent(out, a, key, view, r);
    }
    if HasContextRow(out, a, r) {
      var d :| d in out && At(d, a) == r;
      assert d in envs;
    }
  }

  /** Before DISTINCT ON the query already finds exactly the wanted rows. */
  lemma FoundRows(db: Db, v: World, p: Path, dynauthz: Option<bool>, access: R.Right, prefix: string, r: Row)
    requires InnerPath(p) && AllSound(v, p, prefix)
    requires dynauthz == Some(false) ==> access != "select"
    ensures HasContextRow(Found(db, v, p, dynauthz, access, prefix), Alias(prefix, Position(p)), r) <==>
            Wanted(db, v, p, dynauthz, access, prefix, r)
  {
    var envs, a := Found(db, v, p, dynauthz, access, prefix), Alias(prefix, Position(p));
    if HasContextRow(envs, a, r) {
      var e :| e in envs && At(e, a) == r;
      FoundMember(db, v, p, dynauthz, access, prefix, e);
    }
    if Wanted(db, v, p, dynauthz, access, prefix, r) {
      var e :| Witnesses(db, v, p, dynauthz, access, prefix, e) && At(e, a) == r;
      FoundMember(db, v, p, dynauthz, access, prefix, e);
    }
  }

  lemma FoundInView(db: Db, v: World, p: Path, dynauthz: Option<bool>, access: R.Right, prefix: string, e: Env)
    requires InnerPath(p) && AllSound(v, p, prefix)
    requires dynauthz == Some(false) ==> access != "select"
    requires e in Found(db, v, p, dynauthz, access, prefix)
    ensures var a := Alias(prefix, Position(p));
      At(e, a) in ViewRows(db, v, p.elems[Position(p)].table, dynauthz, access, a)
  {
    FoundMember(db, v, p, dynauthz, access, prefix, e);
    WitnessRow(db, v, p, dynauthz, access, prefix, e);
  }

  /** Every inner-join entity request returns exactly the wanted entities, each
      once: no two rows share the key that tells stored entities apart. */
  lemma EntityQueryExact(db: Db, v: World, p: Path, dynauthz: Option<bool>, access: R.Right, prefix: string,
                         key: seq<string>, rows: seq<Row>)
    requires InnerPath(p) && AllSound(v, p, prefix)
    requires dynauthz == Some(false) ==> access != "select"
    requires var t := p.elems[Position(p)].table;
      KeyUnique(TableRows(db, t), key) && KeyListed(v, t, key) && Unmasked(v, t, key, access)
    requires EntityResult(db, v, p, dynauthz, access, prefix, key, rows)
    ensures forall i, j | 0 <= i < j < |rows| :: !SameOn(rows[i], rows[j], key)
    ensures forall r :: r in rows <==> Wanted(db, v, p, dynauthz, access, prefix, r)
  {
    var t, a := p.elems[Position(p)].table, Alias(prefix, Position(p));
    var view := ViewRows(db, v, t, dynauthz, access, a);
    var envs := Found(db, v, p, dynauthz, access, prefix);
    ViewKeyUnique(db, v, t, dynauthz, access, a, key);
    var out :| (if |p.elems| == 1 then out == envs else DistinctOn(out, envs, a, key)) && rows == ContextRows(out, a);
    if |p.elems| == 1 {
      SingleFound(db, v, p, dynauthz, access, prefix, key);
    } else {
      forall e | e in envs ensures At(e, a) in view {
        FoundInView(db, v, p, dynauthz, access, prefix, e);
      }
    }
    assert KeysApart(out, a, key);
    forall r ensures r in rows <==> Wanted(db, v, p, dynauthz, access, prefix, r) {
      ContextRowMember(out, a, r);
      if |p.elems| != 1 {
        DistinctKeepsRows(out, envs, a, key, view, r);
      }
      FoundRows(db, v, p, dynauthz, access, prefix, r);
    }
  }

  // ---------------------------------------------------------- chosen key

  /** `Constraint` semantics of the store: keys without nullable columns are
      unique and not null. */
  ghost predicate StoredKeys(db: Db, m: Tables, t: TableId) {
    t in m ==> forall k | k in m[t].uniques && IsPrimaryKey(m[t], k) ::
      KeyUnique(TableRows(db, t), k) && forall c | c in k :: HasColumn(m[t], c)
  }

  /** The same for the key the compiler itself picks: the first shortest one
      without nullable columns that the client may use. */
  lemma CompiledEntityQueryExact(db: Db, v: World, p: Path, dynauthz: Option<bool>, access: R.Right, prefix: string,
      rows: seq<Row>)
    requires InnerPath(p) && AllSound(v, p, prefix)
    requires dynauthz == Some(false) ==> access != "select"
    requires var t := p.elems[Position(p)].table;
      t in v.x.m.tables && StoredKeys(db, v.x.m.tables, t) && UsableKeys(v, t, v.x.m.tables[t].uniques) != []
    requires var t := p.elems[Position(p)].table;
      var key := Shortest(UsableKeys(v, t, v.x.m.tables[t].uniques));
      Unmasked(v, t, key, access) && EntityResult(db, v, p, dynauthz, access, prefix, key, rows)
    ensures var t := p.elems[Position(p)].table;
      var key := Shortest(UsableKeys(v, t, v.x.m.tables[t].uniques));
      forall i, j | 0 <= i < j < |rows| :: !SameOn(rows[i], rows[j], key)
    ensures forall r :: r in rows <==> Wanted(db, v, p, dynauthz, access, prefix, r)
  {
    var t := p.elems[Position(p)].table;
    var key := Shortest(UsableKeys(v, t, v.x.m.tables[t].uniques));
    UsableKeyMember(v, t, v.x.m.tables[t].uniques, key);
    UsableKeyListed(v, t, key);
    EntityQueryExact(db, v, p, dynauthz, access, prefix, key, rows);
  }

  // ----------------------------------------------- when entities are merged

  lemma {:induction false} ListedColumnsMember(v: World, t: TableId, columns: seq<ColumnDef>, c: string)
    ensures c in ListedColumns(v, t, columns) <==>
      Listed(v, t, c) && exists i | 0 <= i < |columns| :: columns[i].name == c
  {
    if columns != [] {
      ListedColumnsMember(v, t, columns[1..], c);
      if i :| 0 <= i < |columns| && columns[i].name == c {
        assert i == 0 || columns[1..][i - 1].name == c;
      }
      if i :| 0 <= i < |columns[1..]| && columns[1..][i].name == c {
        assert columns[i + 1].name == c;
      }
    }
  }

  /** Rows agree on the fallback key if the client cannot tell them apart. */
  lemma FallbackKey(v: World, t: TableId, r: Row, s: Row)
    requires t in v.x.m.tables && UsableKeys(v, t, v.x.m.tables[t].uniques) == []
    ensures SameOn(r, s, QueryKey(v, t)) <==> forall c :: Listed(v, t, c) ==> Field(r, c) == Field(s, c)
  {
    var key, columns := QueryKey(v, t), v.x.m.tables[t].columns;
    forall c ensures c in key <==> Listed(v, t, c) {
      ListedColumnsMember(v, t, columns, c);
    }
    if SameOn(r, s, key) {
      forall c | Listed(v, t, c) ensures Field(r, c) == Field(s, c) {
        var i :| 0 <= i < |key| && key[i] == c;
      }
    }
    forall i | 0 <= i < |key| ensures Listed(v, t, key[i]) {
      assert key[i] in key;
    }
  }

  /** One row of the result stands for both. */
  ghost predicate Merged(out: seq<Env>, r: Row, s: Row, a: string, key: seq<string>) {
    exists d | d in out :: SameOn(At(d, a), r, key) && SameOn(At(d, a), s, key)
  }

  /** DISTINCT ON keeps one row for two found ones exactly if they agree on the
      key. */
  lemma MergedExactly(out: seq<Env>, envs: seq<Env>, a: string, key: seq<string>, e1: Env, e2: Env)
    requires DistinctOn(out, envs, a, key) && e1 in envs && e2 in envs
    ensures Merged(out, At(e1, a), At(e2, a), a, key) <==> SameOn(At(e1, a), At(e2, a), key)
  {
    assert Represented(out, At(e1, a), a, key);
  }

  /** So without a usable key two found entities become one exactly if they show
      the same in every column that the client can list. */
  lemma FallbackMergesExactly(db: Db, v: World, p: Path, dynauthz: Option<bool>, access: R.Right, prefix: string,
      out: seq<Env>, e1: Env, e2: Env)
    requires WellFormed(p) && AllCompile(v, p)
    requires var t := p.elems[Position(p)].table;
      t in v.x.m.tables && UsableKeys(v, t, v.x.m.tables[t].uniques) == []
    requires var t, envs := p.elems[Position(p)].table, Found(db, v, p, dynauthz, access, prefix);
      DistinctOn(out, envs, Alias(prefix, Position(p)), QueryKey(v, t)) && e1 in envs && e2 in envs
    ensures var t, a := p.elems[Position(p)].table, Alias(prefix, Position(p));
      Merged(out, At(e1, a), At(e2, a), a, QueryKey(v, t)) <==>
        forall c :: Listed(v, t, c) ==> Field(At(e1, a), c) == Field(At(e2, a), c)
  {
    var t, a := p.elems[Position(p)].table, Alias(prefix, Position(p));
    MergedExactly(out, Found(db, v, p, dynauthz, access, prefix), a, QueryKey(v, t), e1, e2);
    FallbackKey(v, t, At(e1, a), At(e2, a));
  }

  /** No two different wanted rows agree on the key. */
  ghost predicate TellsApart(db: Db, v: World, p: Path, dynauthz: Option<bool>, access: R.Right, prefix: string,
      key: seq<string>)
    requires WellFormed(p) && AllCompile(v, p)
  {
    forall r, s | Wanted(db, v, p, dynauthz, access, prefix, r) && Wanted(db, v, p, dynauthz, access, prefix, s) ::
      SameOn(r, s, key) ==> r == s
  }

  ghost predicate ReturnsAll(db: Db, v: World, p: Path, dynauthz: Option<bool>, access: R.Right, prefix: string,
      rows: seq<Row>)
    requires WellFormed(p) && AllCompile(v, p)
  {
    forall r | Wanted(db, v, p, dynauthz, access, prefix, r) :: r in rows
  }

  /** One row for each key value of the wanted rows. */
  lemma DistinctRows(out: seq<Env>, envs: seq<Env>, a: string, key: seq<string>, r: Row)
    requires DistinctOn(out, envs, a, key)
    ensures HasContextRow(out, a, r) ==> HasContextRow(envs, a, r)
    ensures HasContextRow(envs, a, r) ==> exists s :: HasContextRow(out, a, s) && SameOn(s, r, key)
  {
    if HasContextRow(out, a, r) {
      var d :| d in out && At(d, a) == r;
      assert d in envs;
    }
    if HasContextRow(envs, a, r) {
      var e :| e in envs && At(e, a) == r;
      assert Represented(out, At(e, a), a, key);
      var d :| d in out && SameOn(At(d, a), r, key);
      assert HasContextRow(out, a, At(d, a));
    }
  }

  lemma DistinctOnce(out: seq<Env>, envs: seq<Env>, a: string, key: seq<string>, r: Row, s: Row)
    requires DistinctOn(out, envs, a, key)
    requires HasContextRow(out, a, r) && HasContextRow(out, a, s) && SameOn(r, s, key)
    ensures r == s
  {
    var d :| d in out && At(d, a) == r;
    var e :| e in out && At(e, a) == s;
    var i :| 0 <= i < |out| && out[i] == d;
    var j :| 0 <= j < |out| && out[j] == e;
  }

  ghost predicate KeepsAll(out: seq<Env>, envs: seq<Env>, a: string) {
    forall r | HasContextRow(envs, a, r) :: HasContextRow(out, a, r)
  }

  ghost predicate RowsApart(envs: seq<Env>, a: string, key: seq<string>) {
    forall r, s | HasContextRow(envs, a, r) && HasContextRow(envs, a, s) :: SameOn(r, s, key) ==> r == s
  }

  /** DISTINCT ON keeps all rows exactly if the key tells them apart. */
  lemma DistinctKeepsAllExactly(out: seq<Env>, envs: seq<Env>, a: string, key: seq<string>)
    requires DistinctOn(out, envs, a, key)
    ensures KeepsAll(out, envs, a) <==> RowsApart(envs, a, key)
  {
    if KeepsAll(out, envs, a) {
      forall r, s | HasContextRow(envs, a, r) && HasContextRow(envs, a, s) && SameOn(r, s, key) ensures r == s {
        DistinctOnce(out, envs, a, key, r, s);
      }
    }
    if RowsApart(envs, a, key) {
      forall r | HasContextRow(envs, a, r) ensures HasContextRow(out, a, r) {
        DistinctRows(out, envs, a, key, r);
        var s :| HasContextRow(out, a, s) && SameOn(s, r, key);
        DistinctRows(out, envs, a, key, s);
      }
    }
  }

  lemma FoundApart(db: Db, v: World, p: Path, dynauthz: Option<bool>, access: R.Right, prefix: string,
      key: seq<string>)
    requires InnerPath(p) && AllSound(v, p, prefix)
    requires dynauthz == Some(false) ==> access != "select"
    ensures RowsApart(Found(db, v, p, dynauthz, access, prefix), Alias(prefix, Position(p)), key) <==>
      TellsApart(db, v, p, dynauthz, access, prefix, key)
  {
    forall r
      ensures HasContextRow(Found(db, v, p, dynauthz, access, prefix), Alias(prefix, Position(p)), r) <==>
        Wanted(db, v, p, dynauthz, access, prefix, r)
    {
      FoundRows(db, v, p, dynauthz, access, prefix, r);
    }
  }

  lemma ResultRow(db: Db, v: World, p: Path, dynauthz: Option<bool>, access: R.Right, prefix: string,
      out: seq<Env>, r: Row)
    requires InnerPath(p) && AllSound(v, p, prefix)
    requires dynauthz == Some(false) ==> access != "select"
    ensures r in ContextRows(out, Alias(prefix, Position(p))) <==> HasContextRow(out, Alias(prefix, Position(p)), r)
    ensures HasContextRow(Found(db, v, p, dynauthz, access, prefix), Alias(prefix, Position(p)), r) <==>
      Wanted(db, v, p, dynauthz, access, prefix, r)
  {
    ContextRowMember(out, Alias(prefix, Position(p)), r);
    FoundRows(db, v, p, dynauthz, access, prefix, r);
  }

  lemma ResultKeepsAll(db: Db, v: World, p: Path, dynauthz: Option<bool>, access: R.Right, prefix: string,
      out: seq<Env>)
    requires InnerPath(p) && AllSound(v, p, prefix)
    requires dynauthz == Some(false) ==> access != "select"
    ensures var a := Alias(prefix, Position(p));
      ReturnsAll(db, v, p, dynauthz, access, prefix, ContextRows(out, a)) <==>
        KeepsAll(out, Found(db, v, p, dynauthz, access, prefix), a)
  {
    var a, envs := Alias(prefix, Position(p)), Found(db, v, p, dynauthz, access, prefix);
    forall r
      ensures r in ContextRows(out, a) <==> HasContextRow(out, a, r)
      ensures HasContextRow(envs, a, r) <==> Wanted(db, v, p, dynauthz, access, prefix, r)
    {
      ResultRow(db, v, p, dynauthz, access, prefix, out, r);
    }
  }

  /** Which entities a request returns, whatever its key is and whether or not
      its columns are masked: only wanted ones, and all of them if and only if
      the path has one element or the key tells the wanted rows apart. */
  lemma ResultCompleteExactly(db: Db, v: World, p: Path, dynauthz: Option<bool>, access: R.Right, prefix: string,
      key: seq<string>, rows: seq<Row>)
    requires InnerPath(p) && AllSound(v, p, prefix)
    requires dynauthz == Some(false) ==> access != "select"
    requires EntityResult(db, v, p, dynauthz, access, prefix, key, rows)
    ensures forall r | r in rows :: Wanted(db, v, p, dynauthz, access, prefix, r)
    ensures ReturnsAll(db, v, p, dynauthz, access, prefix, rows) <==>
      |p.elems| == 1 || TellsApart(db, v, p, dynauthz, access, prefix, key)
  {
    var a, envs := Alias(prefix, Position(p)), Found(db, v, p, dynauthz, access, prefix);
    var out :| (if |p.elems| == 1 then out == envs else DistinctOn(out, envs, a, key)) && rows == ContextRows(out, a);
    forall r | r in rows ensures Wanted(db, v, p, dynauthz, access, prefix, r) {
      ResultRow(db, v, p, dynauthz, access, prefix, out, r);
      if |p.elems| != 1 {
        DistinctRows(out, envs, a, key, r);
      }
    }
    ResultKeepsAll(db, v, p, dynauthz, access, prefix, out);
    if |p.elems| != 1 {
      DistinctKeepsAllExactly(out, envs, a, key);
      FoundApart(db, v, p, dynauthz, access, prefix, key);
    }
  }

  /** What a positive view contains: the stored rows that the static decision
      or some dynamic binding admits, each through its column masks. */
  lemma ViewMeansPolicy(db: Db, v: World, t: TableId, access: R.Right, a: string, r: Row)
    requires SoundFor(db, v, t, access, a)
    ensures r in ViewRows(db, v, t, Some(true), access, a) <==>
            exists s | s in TableRows(db, t) ::
              && (|| Decide(v, TableRes(t), access) != R.Maybe
                  || PolicyAdmits(db, v.x, t, TableBindings(v, t), access, a, s))
              && r == if SkipColumns(v, t, access) then s else MaskRow(db, v, t, access, a, s)
  {
    var cs := TableClauses(v, t, access, a);
    var rows := TableRows(db, t);
    var admitted := Select(db, rows, a, Or(cs));
    forall s
      ensures s in admitted <==> (
        && s in rows
        && (|| Decide(v, TableRes(t), access) != R.Maybe
            || PolicyAdmits(db, v.x, t, TableBindings(v, t), access, a, s)))
    {
      SelectMember(db, rows, a, Or(cs), s);
      if s in rows {
        ClausesMeanPolicy(db, map[a := s], v.x, Decide(v, TableRes(t), access), t, TableBindings(v, t), access, a, s);
      }
    }
    if cs == [Const(true)] {
      forall s | s in rows ensures s in admitted {
        SelectMember(db, rows, a, Or(cs), s);
        assert Holds(db, map[a := s], cs[0]);
      }
    }
    if !SkipColumns(v, t, access) {
      MaskedMember(db, v, t, access, a, admitted, r);
    }
  }

  lemma MaskedMember(db: Db, v: World, t: TableId, access: R.Right, a: string, rows: seq<Row>, r: Row)
    requires Compiles(v, t)
    ensures r in MaskRows(db, v, t, access, a, rows) <==> exists s | s in rows :: r == MaskRow(db, v, t, access, a, s)
  {
    var ms := MaskRows(db, v, t, access, a, rows);
    if r in ms {
      var i :| 0 <= i < |ms| && ms[i] == r;
      assert rows[i] in rows;
    }
    if s :| s in rows && r == MaskRow(db, v, t, access, a, s) {
      var i :| 0 <= i < |rows| && rows[i] == s;
      assert ms[i] == r;
    }
  }
}
