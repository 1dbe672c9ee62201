/** A catalog in which a delete removes a row that the client may not delete,
    because the row that leads to it is hidden from the client. */
module EntityDeleteCase {
  import opened Wrappers
  import opened Sql
  import opened Aliases
  import opened Paths
  import opened Projections
  import opened DynAcl
  import opened DynAclEquivalence
  import opened DynAclScope
  import opened Joins
  import opened PolicyViews
  import opened EntityQuery
  import opened EntityResults
  import opened EntityDelete

  const A := TableId("s", "a")
  const B := TableId("s", "b")

  const OWNER_COLUMN := Doc([], "owner", AclText)

  /** Rows of table `a` may be deleted, and rows of table `b` read, by the
      client that their owner column names. */
  ghost function OwnersPolicy(): R.Policy {
    R.Policy(map[R.Catalog := map["enumerate" := Some({"u"})]],
      map[R.Table("s", "a") := map["own" := Some(R.Binding({"delete"}, {"u"}, OWNER_COLUMN))],
          R.Table("s", "b") := map["own" := Some(R.Binding({"select"}, {"u"}, OWNER_COLUMN))]],
      None)
  }

  function OwnersModel(): Model {
    var columns := [ColumnDef("id", false), ColumnDef("b", true), ColumnDef("owner", true)];
    Model(map[A := TableDef(columns, [["id"]]), B := TableDef(columns, [["id"]])], map[])
  }

  /** Any order of the bindings of a dictionary. */
  ghost function SomeOrder(d: R.Dynacls): (names: seq<string>)
    ensures forall n :: n in names <==> n in d
    decreases |d|
  {
    if d == map[] then []
    else
      var n :| n in d;
      [n] + SomeOrder(d - {n})
  }

  /** The client `u`, whose attribute is 1. */
  ghost function OwnersWorld(): World {
    World(Context(OwnersModel(), [Val(1)], {"u"}), OwnersPolicy(), d => SomeOrder(d))
  }

  /** From table `b` to the rows of table `a` that refer to it. */
  function OwnersPath(): Path {
    Linked(BasePath(B, None), KeyRef(A, B, [("b", "id")]), Inbound, None, NotOuter)
  }

  /** One row in each table, owned by someone else. */
  function OwnersDb(): Db {
    Db(map[A := [map["id" := Val(1), "b" := Val(1), "owner" := Val(2)]], B := [map["id" := Val(1), "owner" := Val(2)]]],
      (name, x) => Unknown)
  }

  lemma OwnersTables()
    ensures forall t | t in {A, B} ::
      t in OwnersModel().tables && HasColumn(OwnersModel().tables[t], "owner")
        && BaseKeyColumns(OwnersModel().tables, t) == ["id"]
  {
    forall t | t in {A, B}
      ensures t in OwnersModel().tables && HasColumn(OwnersModel().tables[t], "owner")
      ensures BaseKeyColumns(OwnersModel().tables, t) == ["id"]
    {
      var def := OwnersModel().tables[t];
      assert def.columns[0] == ColumnDef("id", false) && def.columns[2].name == "owner";
      assert IsPrimaryKey(def, def.uniques[0]);
    }
  }

  /** A binding on the owner column means that the owner is the client. */
  lemma OwnerClause(db: Db, m: Model, attrs: seq<Value>, base: TableId, b: R.Binding, k: nat, r: Row)
    requires base in m.tables && HasColumn(m.tables[base], "owner") && BaseKeyColumns(m.tables, base) != []
    requires b.doc == OWNER_COLUMN
    ensures Usable(m, base, b) && !LosesBase(AclPath(m, base, b.doc).value, Alias("", k))
    ensures var a := Alias("", k);
      Holds(db, map[a := r], BindingClause(m, attrs, base, b, a)) <==>
        Field(r, "owner") != Null && Field(r, "owner") in attrs
  {
    var a := Alias("", k);
    AliasSplitsBack("", k);
    assert Walk(m, base, []) == Ok(StartPath(base));
    var p := AclPath(m, base, b.doc).value;
    assert p.elems[0].filters[1..] == [AclTest(0, "owner", AclText)];
    var clause := InlinedClause(m, attrs, p, a);
    assert clause.cs == [Test(TestAny(attrs), ColRef(a, "owner"))];
    AndOrTrue(db, map[a := r], clause.cs);
    assert Holds(db, map[a := r], clause) <==> Holds(db, map[a := r], clause.cs[0]);
  }

  /** Every binding of the two tables and their columns is on the owner
      column. */
  ghost predicate OwnerBindings(bindings: seq<Option<R.Binding>>) {
    forall i | 0 <= i < |bindings| && bindings[i].Some? :: bindings[i].value.doc == OWNER_COLUMN
  }

  lemma OwnersTableBindings(t: TableId, col: string)
    requires t in {A, B}
    ensures OwnerBindings(TableBindings(OwnersWorld(), t)) && OwnerBindings(ColumnBindings(OwnersWorld(), t, col))
  {
  }

  lemma OwnerBindingsUsable(x: Context, t: TableId, bindings: seq<Option<R.Binding>>)
    requires x.m == OwnersModel() && t in {A, B} && OwnerBindings(bindings)
    ensures AllUsable(x, t, bindings)
  {
    OwnersTables();
    forall i | 0 <= i < |bindings| && bindings[i].Some? ensures Usable(x.m, t, bindings[i].value) {
      OwnerClause(OwnersDb(), x.m, x.attrs, t, bindings[i].value, 0, map[]);
    }
  }

  lemma OwnersCompile(t: TableId)
    requires t in {A, B}
    ensures OwnerBindings(TableBindings(OwnersWorld(), t)) && Compiles(OwnersWorld(), t)
  {
    var v := OwnersWorld();
    OwnersTableBindings(t, "");
    OwnerBindingsUsable(v.x, t, TableBindings(v, t));
    forall col ensures AllUsable(v.x, t, ColumnBindings(v, t, col)) {
      OwnersTableBindings(t, col);
      OwnerBindingsUsable(v.x, t, ColumnBindings(v, t, col));
    }
  }

  lemma OwnersSound(t: TableId, k: nat)
    requires t in {A, B}
    ensures Compiles(OwnersWorld(), t)
    ensures SoundBindings(OwnersWorld().x, t, TableBindings(OwnersWorld(), t), "select", Alias("", k))
  {
    var v := OwnersWorld();
    OwnersCompile(t);
    OwnersTables();
    AliasSplitsBack("", k);
    forall b: R.Binding | b.doc == OWNER_COLUMN
      ensures Usable(v.x.m, t, b) && !LosesBase(AclPath(v.x.m, t, b.doc).value, Alias("", k)) {
      OwnerClause(OwnersDb(), v.x.m, v.x.attrs, t, b, k, map[]);
    }
  }

  /** The catalog grants enumeration alone, and nothing else has ACLs. */
  ghost predicate EnumerableCatalog(w: R.Policy, roles: set<R.Role>) {
    && w.past == None && roles != {"*"}
    && w.acls.Keys == {R.Catalog} && w.acls[R.Catalog].Keys == {"enumerate"}
      && R.Grants(w.acls[R.Catalog], "enumerate", roles)
  }

  lemma CatalogDecides(w: R.Policy, right: R.Right, roles: set<R.Role>)
    requires EnumerableCatalog(w, roles) && right in {"owner", "delete", "select"}
    ensures R.HasRight(w, R.Catalog, "enumerate", roles) == R.Allow && R.HasRight(w, R.Catalog, right, roles) == R.Deny
  {
  }

  lemma SchemaDecides(w: R.Policy, schema: R.Res, right: R.Right, roles: set<R.Role>)
    requires EnumerableCatalog(w, roles) && schema.Schema? && right in {"owner", "delete", "select"}
    ensures R.HasRight(w, schema, "enumerate", roles) == R.Allow && R.HasRight(w, schema, right, roles) == R.Deny
  {
    CatalogDecides(w, "owner", roles);
    CatalogDecides(w, right, roles);
    assert R.AclsOf(w, schema) == map[];
  }

  /** A table with no ACLs in such a catalog: its bindings decide. */
  lemma BindingDecides(w: R.Policy, r: R.Res, n: string, right: R.Right, roles: set<R.Role>)
    requires EnumerableCatalog(w, roles) && r.Table? && !R.Registry(r) && right in {"delete", "select"}
    requires n in R.DynaclsOf(w, r) && R.DynaclsOf(w, r)[n].Some? && R.InScope(R.DynaclsOf(w, r)[n].value, right, roles)
    ensures R.HasRight(w, r, right, roles) == R.Maybe
  {
    SchemaDecides(w, R.Schema(r.schema), "owner", roles);
    SchemaDecides(w, R.Schema(r.schema), right, roles);
    assert R.AclsOf(w, r) == map[];
    assert R.SomeInScope(R.DynaclsOf(w, r), map[], right, roles);
  }

  lemma OwnersDecisions(w: R.Policy, roles: set<R.Role>)
    requires w == OwnersPolicy() && roles == {"u"}
    ensures R.HasRight(w, R.Table("s", "a"), "delete", roles) == R.Maybe
    ensures R.HasRight(w, R.Table("s", "b"), "select", roles) == R.Maybe
  {
    assert "u" in roles && "u" in w.acls[R.Catalog]["enumerate"].value * roles;
    var da, db := R.DynaclsOf(w, R.Table("s", "a")), R.DynaclsOf(w, R.Table("s", "b"));
    assert "u" in da["own"].value.scope * roles
      && "delete" in da["own"].value.types * (R.Sufficient("delete") + {"delete"});
    assert "u" in db["own"].value.scope * roles
      && "select" in db["own"].value.types * (R.Sufficient("select") + {"select"});
    BindingDecides(w, R.Table("s", "a"), "own", "delete", roles);
    BindingDecides(w, R.Table("s", "b"), "own", "select", roles);
  }

  lemma OtherFails(db: Db, x: Context, t: TableId, b: R.Binding, k: nat, r: Row)
    requires x == OwnersWorld().x && t in {A, B} && Field(r, "owner") == Val(2) && b.doc == OWNER_COLUMN
    ensures Usable(x.m, t, b) && !Holds(db, map[Alias("", k) := r], BindingClause(x.m, x.attrs, t, b, Alias("", k)))
  {
    OwnersTables();
    OwnerClause(db, x.m, x.attrs, t, b, k, r);
  }

  /** No clause of such a policy holds for a row with another owner. */
  lemma OthersFail(db: Db, t: TableId, access: R.Right, k: nat, r: Row)
    requires t in {A, B} && Field(r, "owner") == Val(2)
    requires Decide(OwnersWorld(), TableRes(t), access) == R.Maybe
    ensures Compiles(OwnersWorld(), t)
    ensures !Holds(db, map[Alias("", k) := r], Or(TableClauses(OwnersWorld(), t, access, Alias("", k))))
  {
    var v, a := OwnersWorld(), Alias("", k);
    OwnersCompile(t);
    OwnersTables();
    var cs, env := TableClauses(v, t, access, a), map[a := r];
    AndOrTrue(db, env, cs);
    forall i | 0 <= i < |cs| ensures !Holds(db, env, cs[i]) {
      if ScopedClauses(v.x, t, TableBindings(v, t), access, a) != [] {
        var j := ClauseOfBinding(v.x, t, TableBindings(v, t), access, a, i);
        OtherFails(db, v.x, t, TableBindings(v, t)[j].value, k, r);
      }
    }
  }

  /** The client reads no row of table `b`. */
  lemma NeighbourHidden()
    ensures Compiles(OwnersWorld(), B)
    ensures ViewRows(OwnersDb(), OwnersWorld(), B, Some(true), "select", Alias("", 0)) == []
  {
    var v, db, a := OwnersWorld(), OwnersDb(), Alias("", 0);
    OwnersCompile(B);
    OwnersDecisions(v.w, v.x.roles);
    var cs, rows := TableClauses(v, B, "select", a), TableRows(db, B);
    OthersFail(db, B, "select", 0, rows[0]);
    AndOrTrue(db, map[a := rows[0]], cs);
    if cs == [Const(true)] {
      assert Holds(db, map[a := rows[0]], cs[0]);
    }
    assert Select(db, rows[1..], a, Or(cs)) == [];
    assert Select(db, rows, a, Or(cs)) == [];
  }

  lemma OwnersPathShape(p: Path)
    requires p == OwnersPath()
    ensures InnerPath(p) && Position(p) == 1 && |p.elems| == 2
    ensures p.elems[0] == Elem(B, 0, None, -1, NotOuter, []) && p.elems[1].table == A && p.elems[1].pos == 1
    ensures p.elems[1].filters == []
    ensures OnCond(p, p.elems[0], "") == Const(true)
    ensures OnCond(p, p.elems[1], "") == And([EqCols(ColRef(Alias("", 0), "id"), ColRef(Alias("", 1), "b"))])
  {
    var kr := KeyRef(A, B, [("b", "id")]);
    BasePathWellFormed(B, None);
    LinkedWellFormed(BasePath(B, None), kr, Inbound, None, NotOuter);
    assert OnCond(p, p.elems[1], "") == JoinSql(kr, Inbound, Alias("", 0), Alias("", 1));
    assert JoinSql(kr, Inbound, Alias("", 0), Alias("", 1)).cs
      == [EqCols(ColRef(Alias("", 0), "id"), ColRef(Alias("", 1), "b"))];
  }

  lemma OwnersPathSound(v: World, p: Path)
    requires v == OwnersWorld() && p == OwnersPath()
    ensures InnerPath(p) && AllSound(v, p, "")
  {
    OwnersPathShape(p);
    OwnersSound(B, 0);
    OwnersSound(A, 1);
    forall i | 0 <= i < |p.elems|
      ensures Compiles(v, p.elems[i].table)
      ensures SoundBindings(v.x, p.elems[i].table, TableBindings(v, p.elems[i].table), "select",
        Alias("", p.elems[i].pos))
    {
      assert i == 0 || i == 1;
    }
  }

  lemma OwnersSources(db: Db, v: World, p: Path, sources: seq<Source>)
    requires p == OwnersPath() && InnerPath(p) && AllCompile(v, p)
    requires sources == FilteredSources(db, v, p, None, "select", "")
    ensures |sources| == 2 && sources[0] == Source(TableRows(db, B), Alias("", 0), NotOuter, Const(true))
    ensures sources[1].alias == Alias("", 1) && sources[1].rows == TableRows(db, A)
    ensures sources[1].on == And([EqCols(ColRef(Alias("", 0), "id"), ColRef(Alias("", 1), "b"))])
  {
    OwnersPathShape(p);
  }

  lemma OwnersAssignment(db: Db, v: World, p: Path, e: Env)
    requires db == OwnersDb() && p == OwnersPath() && InnerPath(p) && AllCompile(v, p)
    requires e == map[Alias("", 0) := TableRows(db, B)[0], Alias("", 1) := TableRows(db, A)[0]]
    ensures Assignment(db, FilteredSources(db, v, p, None, "select", ""), e)
  {
    AliasesDiffer("", 0, 1);
    var sources := FilteredSources(db, v, p, None, "select", "");
    OwnersSources(db, v, p, sources);
    OwnersJoin(db, e, sources);
  }

  /** The row of table `a` is found through that of table `b`. */
  lemma OwnersFound(db: Db, v: World, p: Path, e: Env)
    requires db == OwnersDb() && v == OwnersWorld() && p == OwnersPath()
    requires e == map[Alias("", 0) := TableRows(db, B)[0], Alias("", 1) := TableRows(db, A)[0]]
    ensures InnerPath(p) && AllSound(v, p, "") && e in Found(db, v, p, None, "select", "")
  {
    OwnersPathSound(v, p);
    OwnersAssignment(db, v, p, e);
    OwnersUnfiltered(p);
    UnfilteredFound(db, v, p, e);
  }

  lemma OwnersUnfiltered(p: Path)
    requires p == OwnersPath()
    ensures forall el | el in p.elems :: el.filters == []
  {
    OwnersPathShape(p);
  }

  lemma UnfilteredFound(db: Db, v: World, p: Path, e: Env)
    requires InnerPath(p) && AllSound(v, p, "") && forall el | el in p.elems :: el.filters == []
    requires Assignment(db, FilteredSources(db, v, p, None, "select", ""), e)
    ensures e in Found(db, v, p, None, "select", "")
  {
    NoWheres(v.x.m.tables, v.x.attrs, p.elems, "");
    FoundMember(db, v, p, None, "select", "", e);
  }

  lemma {:induction false} NoWheres(tables: Tables, attrs: seq<Value>, elems: seq<Elem>, prefix: string)
    requires forall e | e in elems :: e.filters == []
    ensures PathWheres(tables, attrs, elems, prefix) == []
  {
    if elems != [] {
      NoWheres(tables, attrs, elems[1..], prefix);
    }
  }

  lemma OwnersJoin(db: Db, e: Env, sources: seq<Source>)
    requires db == OwnersDb() && e == map[Alias("", 0) := TableRows(db, B)[0], Alias("", 1) := TableRows(db, A)[0]]
    requires Alias("", 0) != Alias("", 1)
    requires |sources| == 2 && sources[0] == Source(TableRows(db, B), Alias("", 0), NotOuter, Const(true))
    requires sources[1].alias == Alias("", 1) && sources[1].rows == TableRows(db, A)
    requires sources[1].on == And([EqCols(ColRef(Alias("", 0), "id"), ColRef(Alias("", 1), "b"))])
    ensures Assignment(db, sources, e)
  {
    AndOrTrue(db, e, sources[1].on.cs);
    assert Lookup(e, ColRef(Alias("", 0), "id")) == Val(1) && Lookup(e, ColRef(Alias("", 1), "b")) == Val(1);
    assert Assigned(db, sources[0], e) && Assigned(db, sources[1], e);
    assert HasAlias(sources, Alias("", 0)) by { assert sources[0].alias == Alias("", 0); }
    assert HasAlias(sources, Alias("", 1)) by { assert sources[1].alias == Alias("", 1); }
  }

  /** With such a binding a column of the table is listed, and is readable if
      the binding holds for it. */
  lemma BindingColumn(w: R.Policy, r: R.Res, c: string, n: string, roles: set<R.Role>)
    requires EnumerableCatalog(w, roles) && r.Table? && !R.Registry(r) && c !in {"RID", "RCT", "RMT", "RCB", "RMB"}
    requires n in R.DynaclsOf(w, r) && R.DynaclsOf(w, r)[n].Some?
    requires R.InScope(R.DynaclsOf(w, r)[n].value, "select", roles)
    requires R.Column(r.schema, r.table, c) !in w.dynacls
    ensures R.HasRight(w, R.Column(r.schema, r.table, c), "enumerate", roles) == R.Allow
    ensures R.DataRight(w, R.Column(r.schema, r.table, c), "select", roles) != R.Deny
  {
    var column := R.Column(r.schema, r.table, c);
    TableEnumerable(w, r, roles);
    BindingDecides(w, r, n, "select", roles);
    assert R.AclsOf(w, column) == map[] && R.DynaclsOf(w, column) == map[];
    assert R.Parent(column) == Some(r) && !R.ColumnBlocked(column, "select");
    assert R.SomeInScope(R.DynaclsOf(w, r), R.DynaclsOf(w, column), "select", roles);
    assert R.BaseRight(w, column, "select", roles) != R.Deny;
  }

  lemma TableEnumerable(w: R.Policy, r: R.Res, roles: set<R.Role>)
    requires EnumerableCatalog(w, roles) && r.Table?
    ensures R.HasRight(w, r, "enumerate", roles) == R.Allow
  {
    SchemaDecides(w, R.Schema(r.schema), "owner", roles);
    assert R.AclsOf(w, r) == map[];
  }

  lemma OwnersColumn(v: World, c: string)
    requires v == OwnersWorld() && c in {"id", "b", "owner"}
    ensures R.HasRight(v.w, ColumnRes(A, c), "enumerate", v.x.roles) == R.Allow
    ensures R.DataRight(v.w, ColumnRes(A, c), "select", v.x.roles) != R.Deny
  {
    var w, roles := v.w, v.x.roles;
    assert "u" in roles && "u" in w.acls[R.Catalog]["enumerate"].value * roles;
    var d := R.DynaclsOf(w, R.Table("s", "a"));
    assert "u" in d["own"].value.scope * roles;
    assert "delete" in d["own"].value.types * (R.Sufficient("select") + {"select"});
    BindingColumn(w, R.Table("s", "a"), c, "own", roles);
  }

  /** Nothing but the policy on rows stands in the way of deleting from `a`. */
  lemma OwnersDeletable(v: World, m: Tables)
    requires v == OwnersWorld() && m == v.x.m.tables
    ensures MatchColumns(m, A) == ["id"] && Deletable(v, A, true)
  {
    var def := m[A];
    assert def.columns[0] == ColumnDef("id", false) && def.columns[1].name == "b" && def.columns[2].name == "owner";
    assert IsPrimaryKey(def, ["id"]) && def.uniques[1..] == [];
    assert PrimaryKeys(def, []) == [] && PrimaryKeys(def, def.uniques) == [["id"]];
    OwnersColumn(v, "id");
    OwnersColumn(v, "b");
    OwnersColumn(v, "owner");
    forall i | 0 <= i < |def.columns|
      ensures R.DataRight(v.w, ColumnRes(A, def.columns[i].name), "select", v.x.roles) != R.Deny
    {
      assert i == 0 || i == 1 || i == 2;
    }
    assert HasColumn(def, "id") && Listed(v, A, "id");
  }

  /** The delete goes ahead and removes a row that the delete policy does not
      admit. */
  lemma UnadmittedRowDeleted(db: Db, v: World, p: Path, r: Row)
    requires db == OwnersDb() && v == OwnersWorld() && p == OwnersPath() && r == TableRows(db, A)[0]
    ensures InnerPath(p) && AllSound(v, p, "") && Decide(v, TableRes(A), "delete") == R.Maybe
    ensures Compiles(v, A) && !Holds(db, map[Alias("", 1) := r], Or(TableClauses(v, A, "delete", Alias("", 1))))
    ensures r in TableRows(db, A) && Delete(db, v, p, true) == Deleted([])
  {
    var a := Alias("", 1);
    var e: Env := map[Alias("", 0) := TableRows(db, B)[0], a := r];
    OwnersFound(db, v, p, e);
    OwnersCheckPasses(db, v, p);
    OthersFail(db, A, "delete", 1, r);
    AliasesDiffer("", 0, 1);
    assert e[a] == r;
    OwnersDeletable(v, v.x.m.tables);
    GoesAhead(db, v, p, e, r);
  }

  lemma OwnersCheckPasses(db: Db, v: World, p: Path)
    requires db == OwnersDb() && v == OwnersWorld() && p == OwnersPath()
    ensures InnerPath(p) && AllSound(v, p, "") && Position(p) == 1 && p.elems[1].table == A
    ensures Decide(v, TableRes(A), "delete") == R.Maybe && Found(db, v, p, Some(false), "delete", "") == []
  {
    OwnersPathShape(p);
    OwnersPathSound(v, p);
    OwnersDecisions(v.w, v.x.roles);
    NeighbourHidden();
    HiddenNeighbourPassesCheck(db, v, p, 0);
  }

  /** A delete whose check finds nothing removes the only row, which is found. */
  lemma GoesAhead(db: Db, v: World, p: Path, e: Env, r: Row)
    requires WellFormed(p) && AllCompile(v, p) && Decide(v, TableRes(p.elems[Position(p)].table), "delete") == R.Maybe
    requires Deletable(v, p.elems[Position(p)].table, true)
    requires Found(db, v, p, Some(false), "delete", "") == [] && e in Found(db, v, p, None, "select", "")
    requires TableRows(db, p.elems[Position(p)].table) == [r] && At(e, Alias("", Position(p))) == r
    ensures Delete(db, v, p, true) == Deleted([])
  {
    var t, a := p.elems[Position(p)].table, Alias("", Position(p));
    var victims := Found(db, v, p, None, "select", "");
    OnlyRowGone(TableRows(db, t), victims, a, MatchColumns(v.x.m.tables, t), e, r);
  }

  lemma OnlyRowGone(rows: seq<Row>, victims: seq<Env>, a: string, key: seq<string>, e: Env, r: Row)
    requires rows == [r] && e in victims && At(e, a) == r
    ensures Survivors(rows, victims, a, key) == []
  {
    assert Represented(victims, r, a, key);
    assert rows[1..] == [];
  }
}
