/** Scope of compiled bindings: which row instances a clause can see. */
module DynAclScope {
  import opened Wrappers
  import opened Sql
  import opened Aliases
  import opened Paths
  import opened Projections
  import opened Rights
  import opened DynAcl
  import opened DynAclEquivalence

  /** A condition of the list mentions `a`. */
  ghost predicate AnyMentions(ws: seq<Cond>, a: string) {
    exists i | 0 <= i < |ws| :: Mentions(ws[i], a)
  }

  /** What is free in the part of a query from element k on: an alias of no
      element there, coming from a WHERE condition or from an ON clause that
      reaches back before k. */
  lemma {:induction false} FreeInSuffix(p: Path, k: nat, prefix: string, ws: seq<Cond>, a: string)
    requires WellFormed(p) && k <= |p.elems|
    requires FromMentions(PathFrom(p, p.elems[k..], prefix, ws), a)
    ensures forall i | k <= i < |p.elems| :: a != Alias(prefix, i)
    ensures AnyMentions(ws, a) || exists i | k <= i < |p.elems| ::
              0 <= LeftPos(p, p.elems[i]) < k && a == Alias(prefix, LeftPos(p, p.elems[i]))
                && Mentions(OnCond(p, p.elems[i], prefix), a)
    decreases |p.elems| - k
  {
    if k < |p.elems| {
      assert ElemOk(p, k);
      assert p.elems[k..][1..] == p.elems[k + 1..];
      if Mentions(OnCond(p, p.elems[k], prefix), a) {
        OnClauseInScope(p, k, prefix, a);
        forall i | k <= i < |p.elems| ensures a != Alias(prefix, i) {
          AliasesDiffer(prefix, LeftPos(p, p.elems[k]), i);
        }
      } else {
        FreeInSuffix(p, k + 1, prefix, ws, a);
      }
    }
  }

  lemma {:induction false} WhereIsFree(p: Path, k: nat, prefix: string, ws: seq<Cond>, a: string)
    requires WellFormed(p) && k <= |p.elems|
    requires AnyMentions(ws, a) && forall i | k <= i < |p.elems| :: a != Alias(prefix, i)
    ensures FromMentions(PathFrom(p, p.elems[k..], prefix, ws), a)
    decreases |p.elems| - k
  {
    if k < |p.elems| {
      assert ElemOk(p, k);
      assert p.elems[k..][1..] == p.elems[k + 1..];
      WhereIsFree(p, k + 1, prefix, ws, a);
    }
  }

  lemma {:induction false} FilterAmongWheres(m: Tables, attrs: seq<Value>, elems: seq<Elem>, prefix: string,
      e: nat, k: nat)
    returns (i: nat)
    requires e < |elems| && k < |elems[e].filters|
    ensures i < |PathWheres(m, attrs, elems, prefix)|
    ensures PathWheres(m, attrs, elems, prefix)[i] == FilterSql(m, attrs, elems[e], elems[e].filters[k], prefix)
    decreases |elems|
  {
    if e == 0 {
      i := k;
    } else {
      i := FilterAmongWheres(m, attrs, elems[1..], prefix, e - 1, k);
      i := i + |elems[0].filters|;
    }
  }

  /** A plain filter of a well-formed path sees only that path's elements. */
  lemma PlainWhereSees(m: Model, attrs: seq<Value>, p: Path, k: nat, prefix: string, a: string)
    returns (pos: nat)
    requires AclShape(p) && 1 <= k <= |p.elems|
    requires AnyMentions(PathWheres(m.tables, attrs, p.elems[k..], prefix), a)
    ensures pos < |p.elems| && a == Alias(prefix, pos)
    ensures exists e, j | k <= e < |p.elems| && 0 <= j < |p.elems[e].filters| :: NamesElem(p.elems[e].filters[j], pos)
  {
    var ws := PathWheres(m.tables, attrs, p.elems[k..], prefix);
    var i :| 0 <= i < |ws| && Mentions(ws[i], a);
    var e, j := WhereOfFilter(m.tables, attrs, p.elems[k..], prefix, i);
    var f := p.elems[k + e].filters[j];
    pos := MentionedIsNamed(m.tables, attrs, p.elems[k + e], f, prefix, a);
    assert ElemOk(p, k + e);
    FilterNamesInPath(f, |p.elems|, pos);
  }

  lemma GenericScope(m: Model, attrs: seq<Value>, p: Path, prefix: string, a: string)
    requires AclShape(p) && Mentions(GenericClause(m, attrs, p, prefix), a)
    ensures a == prefix
  {
    var e := p.elems[0];
    assert p.elems[0..] == p.elems;
    var ws := PathWheres(m.tables, attrs, p.elems, prefix);
    FreeInSuffix(p, 0, prefix, ws, a);
    var i :| 0 <= i < |ws| && Mentions(ws[i], a);
    var n, j := WhereOfFilter(m.tables, attrs, p.elems, prefix, i);
    assert ElemOk(p, n);
    var f := p.elems[n].filters[j];
    if n == 0 && j == 0 {
      if a != prefix { BaseKeyMentions(m.tables, attrs, e, prefix, a); }
    } else {
      var pos := MentionedIsNamed(m.tables, attrs, p.elems[n], f, prefix, a);
      FilterNamesInPath(f, |p.elems|, pos);
    }
  }

  lemma {:induction false} MangledNames(f: Filter, k: nat, pos: nat)
    requires PlainFilter(f)
    ensures PlainFilter(Mangle(f, k))
    ensures NamesElem(Mangle(f, k), pos) ==> pos == k
    decreases f
  {
    match f
    case Negation(g) => MangledNames(g, k, pos);
    case Disjunction(fs) => forall i | 0 <= i < |fs|
      ensures PlainFilter(Mangle(f, k).fs[i])
      ensures (NamesElem(Mangle(f, k).fs[i], pos) ==> pos == k) { MangledNames(fs[i], k, pos); }
    case Conjunction(fs) => forall i | 0 <= i < |fs|
      ensures PlainFilter(Mangle(f, k).fs[i])
      ensures (NamesElem(Mangle(f, k).fs[i], pos) ==> pos == k) { MangledNames(fs[i], k, pos); }
    case _ =>
  }

  lemma InlinedScope(m: Model, attrs: seq<Value>, p: Path, prefix: string, a: string)
    requires AclShape(p) && PrefixOk(prefix) && SplitsBack(prefix)
    requires Mentions(InlinedClause(m, attrs, p, prefix), a)
    ensures a == prefix
  {
    var e := p.elems[0];
    var cs := InlinedClause(m, attrs, p, prefix).cs;
    var i :| 0 <= i < |cs| && Mentions(cs[i], a);
    var f := e.filters[i + 1];
    var g := Mangle(f, FakePos(prefix));
    MangledNames(f, FakePos(prefix), 0);
    var pos := MentionedIsNamed(m.tables, attrs, e, g, FakePrefix(prefix), a);
    MangledNames(f, FakePos(prefix), pos);
  }

  lemma InsertedMentions(full: seq<Cond>, ws: seq<Cond>, join: Cond, n: nat, a: string)
    requires n <= |full| && ws == full[..n] + [join] + full[n..] && AnyMentions(ws, a) && !Mentions(join, a)
    ensures AnyMentions(full, a)
  {
  }

  lemma DroppedWhereSees(m: Model, attrs: seq<Value>, p: Path, prefix: string, a: string)
    requires AclShape(p) && BaseTouchedOnce(p)
    requires AnyMentions(PathWheres(m.tables, attrs, WithoutBase(p), prefix), a)
    requires forall i | 1 <= i < |p.elems| :: a != Alias(prefix, i)
    ensures a == prefix || (a == Alias(prefix, 0) && !BaseUnnamed(p))
  {
    var e := p.elems[1];
    assert ElemOk(p, 1);
    var ws := PathWheres(m.tables, attrs, WithoutBase(p), prefix);
    var full := PathWheres(m.tables, attrs, p.elems[1..], prefix);
    WithoutBaseWheres(m, attrs, p, prefix);
    assert p.elems[1..][1..] == p.elems[2..];
    var join := JoinSql(e.link.value.keyref, e.link.value.refop, prefix, Alias(prefix, 1));
    if Mentions(join, a) {
      JoinSqlMentions(e.link.value.keyref, e.link.value.refop, prefix, Alias(prefix, 1), a);
    } else {
      InsertedMentions(full, ws, join, |e.filters|, a);
      var pos := PlainWhereSees(m, attrs, p, 1, prefix, a);
    }
  }

  lemma DroppedFrom(m: Model, attrs: seq<Value>, p: Path, prefix: string)
    requires AclShape(p) && BaseTouchedOnce(p)
    ensures DroppedBaseClause(m, attrs, p, prefix) ==
            Subquery(Join(p.elems[1].table, Alias(prefix, 1), Const(true),
                          PathFrom(p, p.elems[2..], prefix, PathWheres(m.tables, attrs, WithoutBase(p), prefix))))
  {
    assert ElemOk(p, 1);
    assert WithoutBase(p)[1..] == p.elems[2..];
  }

  lemma LaterLeft(p: Path)
    requires AclShape(p) && BaseTouchedOnce(p)
    ensures forall i | 2 <= i < |p.elems| :: LeftPos(p, p.elems[i]) != 0
  {
    forall i | 2 <= i < |p.elems| ensures LeftPos(p, p.elems[i]) != 0 {
      assert ElemOk(p, i);
    }
  }

  lemma DroppedMentions(m: Model, attrs: seq<Value>, p: Path, prefix: string, a: string)
    requires AclShape(p) && BaseTouchedOnce(p)
    requires Mentions(DroppedBaseClause(m, attrs, p, prefix), a)
    ensures a != Alias(prefix, 1)
    ensures FromMentions(PathFrom(p, p.elems[2..], prefix, PathWheres(m.tables, attrs, WithoutBase(p), prefix)), a)
  {
    DroppedFrom(m, attrs, p, prefix);
    assert !Mentions(Const(true), a);
  }

  lemma DroppedBaseScope(m: Model, attrs: seq<Value>, p: Path, prefix: string, a: string)
    requires AclShape(p) && BaseTouchedOnce(p)
    requires Mentions(DroppedBaseClause(m, attrs, p, prefix), a)
    ensures a == prefix || (a == Alias(prefix, 0) && !BaseUnnamed(p))
  {
    var ws := PathWheres(m.tables, attrs, WithoutBase(p), prefix);
    DroppedMentions(m, attrs, p, prefix, a);
    FreeInSuffix(p, 2, prefix, ws, a);
    LaterLeft(p);
    if AnyMentions(ws, a) {
      DroppedWhereSees(m, attrs, p, prefix, a);
    }
  }

  /** The dropped-base form refers to the row instance it dropped exactly when
      some filter beyond the base names the `base` alias. */
  lemma DroppedBaseDangles(m: Model, attrs: seq<Value>, p: Path, prefix: string)
    requires AclShape(p) && BaseTouchedOnce(p)
    ensures Mentions(DroppedBaseClause(m, attrs, p, prefix), Alias(prefix, 0)) <==> !BaseUnnamed(p)
  {
    var a := Alias(prefix, 0);
    NoCapture(prefix, 0, 0, 0);
    if Mentions(DroppedBaseClause(m, attrs, p, prefix), a) {
      DroppedBaseScope(m, attrs, p, prefix, a);
    }
    if !BaseUnnamed(p) {
      var n, k :| 1 <= n < |p.elems| && 0 <= k < |p.elems[n].filters| && NamesElem(p.elems[n].filters[k], 0);
      var elems := WithoutBase(p);
      var ws := PathWheres(m.tables, attrs, elems, prefix);
      assert ElemOk(p, 1);
      var i := FilterAmongWheres(m.tables, attrs, elems, prefix, n - 1, k);
      assert elems[n - 1].filters[k] == p.elems[n].filters[k];
      NamedIsMentioned(m.tables, attrs, elems[n - 1], p.elems[n].filters[k], prefix, 0);
      assert AnyMentions(ws, a);
      forall j | 1 <= j < |p.elems| ensures a != Alias(prefix, j) { AliasesDiffer(prefix, 0, j); }
      WhereIsFree(p, 2, prefix, ws, a);
      DroppedFrom(m, attrs, p, prefix);
    }
  }

  /** A compiled binding sees only the guarded row. */
  lemma ClauseScope(m: Model, attrs: seq<Value>, base: TableId, b: Binding, prefix: string, a: string)
    requires Usable(m, base, b) && SplitsBack(prefix)
    requires !LosesBase(AclPath(m, base, b.doc).value, prefix)
    requires Mentions(BindingClause(m, attrs, base, b, prefix), a)
    ensures a == prefix
  {
    AclPathShape(m, base, b.doc);
    var p := AclPath(m, base, b.doc).value;
    if PrefixOk(prefix) && |p.elems| == 1 {
      InlinedScope(m, attrs, p, prefix, a);
    } else if PrefixOk(prefix) && BaseTouchedOnce(p) {
      DroppedBaseScope(m, attrs, p, prefix, a);
    } else {
      GenericScope(m, attrs, p, prefix, a);
    }
  }

  /** A document that joins one table and then filters by a column of the base:
      for every model with such a reference and such columns it compiles, and
      its clause refers to the base instance that was left out. */
  lemma BaseFilterDangles(m: Model, attrs: seq<Value>, base: TableId, fk: string, c: string, test: ColTest, b: Binding,
      prefix: string)
    requires fk in m.fkeys && m.fkeys[fk].KeyRef? && m.fkeys[fk].fkTable == base
    requires base in m.tables && HasColumn(m.tables[base], c)
    requires m.fkeys[fk].pkTable in m.tables && HasColumn(m.tables[m.fkeys[fk].pkTable], b.doc.column)
    requires b.doc.steps == [JoinElem(None, false, fk, None), FilterElem(NamedTest(Some("base"), c, test))]
    requires PrefixOk(prefix) && BaseKeyColumns(m.tables, base) != []
    ensures Usable(m, base, b) && LosesBase(AclPath(m, base, b.doc).value, prefix)
    ensures Mentions(BindingClause(m, attrs, base, b, prefix), Alias(prefix, 0))
  {
    BaseFilterPath(m, base, fk, c, test, b.doc);
    AclPathShape(m, base, b.doc);
    var p := AclPath(m, base, b.doc).value;
    assert NamesElem(p.elems[1].filters[0], 0);
    DroppedBaseDangles(m, attrs, p, prefix);
  }

  // A table `a` that refers to a table `b`, whose owner may read through it
  // unless the referring row is marked.
  function DanglingModel(): Model {
    var a, b := TableId("s", "a"), TableId("s", "b");
    Model(map[a := TableDef([ColumnDef("id", false), ColumnDef("b", true), ColumnDef("mark", true)], [["id"]]),
              b := TableDef([ColumnDef("id", false), ColumnDef("owner", true)], [["id"]])],
      map["fk" := KeyRef(a, b, [("b", "id")])])
  }

  function DanglingBinding(): Binding {
    Binding({"select"}, {"*"},
      Doc([JoinElem(None, false, "fk", None), FilterElem(NamedTest(Some("base"), "mark", TestNull))], "owner", AclText))
  }

  lemma DanglingTables(m: Model, a: TableId, b: TableId)
    requires m == DanglingModel() && a == TableId("s", "a") && b == TableId("s", "b")
    ensures a in m.tables && HasColumn(m.tables[a], "mark") && BaseKeyColumns(m.tables, a) != []
    ensures b in m.tables && HasColumn(m.tables[b], "owner")
    ensures "fk" in m.fkeys && m.fkeys["fk"] == KeyRef(a, b, [("b", "id")])
  {
    assert m.tables[a].columns[2].name == "mark" && m.tables[b].columns[1].name == "owner";
    assert m.tables[a].columns[0] == ColumnDef("id", false) && IsPrimaryKey(m.tables[a], m.tables[a].uniques[0]);
    assert BaseKeyColumns(m.tables, a) == ["id"];
  }

  lemma NestedAlias(a: string)
    requires a == Alias("", 0)
    ensures a == "t0" && Alias(a, 0) == "t0t0" && PrefixOk(a)
  {
    AliasSplitsBack("", 0);
  }

  /** Compiled for the row `t0` of a path, this binding asks about `t0t0`, which
      its subquery does not have. */
  lemma DanglingExample(m: Model, a: TableId, b: Binding, attrs: seq<Value>)
    requires m == DanglingModel() && a == TableId("s", "a") && b == DanglingBinding()
    ensures Usable(m, a, b) && Mentions(BindingClause(m, attrs, a, b, "t0"), "t0t0")
  {
    DanglingTables(m, a, TableId("s", "b"));
    NestedAlias(Alias("", 0));
    BaseFilterDangles(m, attrs, a, "fk", "mark", TestNull, b, "t0");
  }

  lemma BaseFilterPath(m: Model, base: TableId, fk: string, c: string, test: ColTest, doc: Doc)
    requires fk in m.fkeys && m.fkeys[fk].KeyRef? && m.fkeys[fk].fkTable == base
    requires base in m.tables && HasColumn(m.tables[base], c)
    requires m.fkeys[fk].pkTable in m.tables && HasColumn(m.tables[m.fkeys[fk].pkTable], doc.column)
    requires doc.steps == [JoinElem(None, false, fk, None), FilterElem(NamedTest(Some("base"), c, test))]
    ensures AclPath(m, base, doc).Ok?
    ensures var p := AclPath(m, base, doc).value;
      && |p.elems| == 2 && |p.elems[0].filters| == 1 && p.elems[1].contextPos == 0 && p.elems[1].link.Some?
      && |p.elems[1].filters| == 2 && p.elems[1].filters[0] == ColumnTest(0, c, test)
  {
    var steps := doc.steps;
    assert steps[..1] == [steps[0]] && steps[..2] == steps && steps[..0] == [];
    assert Walk(m, base, steps[..0]) == Ok(StartPath(base));
    WalkNext(m, base, steps, 0);
    WalkNext(m, base, steps, 1);
  }

  // -------------------------------------------------------- clause lists

  /** Every binding in scope compiles without losing its base, under a prefix
      the special cases can take apart. */
  ghost predicate SoundBindings(x: Context, base: TableId, bindings: seq<Option<Binding>>, access: Right,
      prefix: string) {
    && AllUsable(x, base, bindings)
    && SplitsBack(prefix)
    && forall i | 0 <= i < |bindings| && bindings[i].Some? && InScope(bindings[i].value, access, x.roles) ::
         !LosesBase(AclPath(x.m, base, bindings[i].value.doc).value, prefix)
  }

  lemma {:induction false} ClausesScope(x: Context, decision: Decision, base: TableId, bindings: seq<Option<Binding>>,
      access: Right, prefix: string, a: string)
    requires SoundBindings(x, base, bindings, access, prefix)
    requires AnyMentions(DynaclClauses(x, decision, base, bindings, access, prefix), a)
    ensures a == prefix
  {
    var cs := DynaclClauses(x, decision, base, bindings, access, prefix);
    var i :| 0 <= i < |cs| && Mentions(cs[i], a);
    if decision == Maybe && ScopedClauses(x, base, bindings, access, prefix) != [] {
      var k := ClauseOfBinding(x, base, bindings, access, prefix, i);
      ClauseScope(x.m, x.attrs, base, bindings[k].value, prefix, a);
    }
  }

  lemma {:induction false} ClauseOfBinding(x: Context, base: TableId, bindings: seq<Option<Binding>>, access: Right,
      prefix: string, i: nat)
    returns (k: nat)
    requires AllUsable(x, base, bindings)
    requires i < |ScopedClauses(x, base, bindings, access, prefix)|
    ensures k < |bindings| && bindings[k].Some? && InScope(bindings[k].value, access, x.roles)
    ensures ScopedClauses(x, base, bindings, access, prefix)[i]
      == BindingClause(x.m, x.attrs, base, bindings[k].value, prefix)
    decreases |bindings|
  {
    var front := bindings[..|bindings| - 1];
    if i < |ScopedClauses(x, base, front, access, prefix)| {
      k := ClauseOfBinding(x, base, front, access, prefix, i);
    } else {
      k := |bindings| - 1;
    }
  }

  lemma ScopedLast(x: Context, base: TableId, bindings: seq<Option<Binding>>, access: Right, prefix: string)
    requires AllUsable(x, base, bindings) && bindings != []
    ensures
      var b := bindings[|bindings| - 1];
      ScopedClauses(x, base, bindings, access, prefix)
      == ScopedClauses(x, base, bindings[..|bindings| - 1], access, prefix)
       + if b.Some? && InScope(b.value, access, x.roles)
         then [BindingClause(x.m, x.attrs, base, b.value, prefix)] else []
  {
  }

  /** The clauses contain the one of this binding. */
  ghost predicate HasClauseOf(x: Context, base: TableId, clauses: seq<Cond>, b: Binding, prefix: string, i: nat)
    requires Usable(x.m, base, b)
  {
    i < |clauses| && clauses[i] == BindingClause(x.m, x.attrs, base, b, prefix)
  }

  lemma {:induction false} BindingHasClause(x: Context, base: TableId, bindings: seq<Option<Binding>>, access: Right,
      prefix: string, k: nat)
    returns (i: nat)
    requires AllUsable(x, base, bindings)
    requires k < |bindings| && bindings[k].Some? && InScope(bindings[k].value, access, x.roles)
    ensures HasClauseOf(x, base, ScopedClauses(x, base, bindings, access, prefix), bindings[k].value, prefix, i)
    decreases |bindings|
  {
    ScopedLast(x, base, bindings, access, prefix);
    if k < |bindings| - 1 {
      i := BindingHasClause(x, base, bindings[..|bindings| - 1], access, prefix, k);
    } else {
      i := |ScopedClauses(x, base, bindings[..|bindings| - 1], access, prefix)|;
    }
  }

  /** What a dynamic policy promises about a row: some binding in scope whose
      generic subquery finds it. */
  ghost predicate PolicyAdmits(db: Db, x: Context, base: TableId, bindings: seq<Option<Binding>>, access: Right,
      prefix: string, r: Row)
    requires AllUsable(x, base, bindings)
  {
    exists k | 0 <= k < |bindings| ::
      && bindings[k].Some? && InScope(bindings[k].value, access, x.roles)
      && Holds(db, map[prefix := r],
        GenericClause(x.m, x.attrs, AclPath(x.m, base, bindings[k].value.doc).value, prefix))
  }

  /** The clause list as a whole: for a stored row, some clause is True exactly
      when the decision is static or the policy admits the row. */
  lemma ClausesMeanPolicy(db: Db, env: Env, x: Context, decision: Decision, base: TableId,
      bindings: seq<Option<Binding>>,
                          access: Right, prefix: string, r: Row)
    requires SoundBindings(x, base, bindings, access, prefix) && KeyIdentifies(db, x.m.tables, base)
    requires r in TableRows(db, base) && prefix in env && env[prefix] == r
    ensures Holds(db, env, Or(DynaclClauses(x, decision, base, bindings, access, prefix))) <==>
            decision != Maybe || PolicyAdmits(db, x, base, bindings, access, prefix, r)
  {
    var cs := DynaclClauses(x, decision, base, bindings, access, prefix);
    if decision == Maybe {
      var scoped := ScopedClauses(x, base, bindings, access, prefix);
      if Holds(db, env, Or(cs)) {
        var i :| 0 <= i < |cs| && Holds(db, env, cs[i]);
        assert !Holds(db, env, Const(false));
        assert scoped != [] && cs == scoped;
        var k := ClauseOfBinding(x, base, bindings, access, prefix, i);
        BindingMeansGeneric(db, env, x, base, bindings[k].value, prefix, r);
      }
      if PolicyAdmits(db, x, base, bindings, access, prefix, r) {
        var k :| 0 <= k < |bindings| && bindings[k].Some? && InScope(bindings[k].value, access, x.roles)
              && Holds(db, map[prefix := r],
                GenericClause(x.m, x.attrs, AclPath(x.m, base, bindings[k].value.doc).value, prefix));
        var i := BindingHasClause(x, base, bindings, access, prefix, k);
        BindingMeansGeneric(db, env, x, base, bindings[k].value, prefix, r);
        assert Holds(db, env, cs[i]);
      }
    } else {
      assert Holds(db, env, cs[0]);
    }
  }

  /** ... and the enclosing query's other row instances do not matter. */
  lemma BindingMeansGeneric(db: Db, env: Env, x: Context, base: TableId, b: Binding, prefix: string, r: Row)
    requires Usable(x.m, base, b) && SplitsBack(prefix) && KeyIdentifies(db, x.m.tables, base)
    requires !LosesBase(AclPath(x.m, base, b.doc).value, prefix)
    requires r in TableRows(db, base) && prefix in env && env[prefix] == r
    ensures Holds(db, env, BindingClause(x.m, x.attrs, base, b, prefix)) <==>
            Holds(db, map[prefix := r], GenericClause(x.m, x.attrs, AclPath(x.m, base, b.doc).value, prefix))
  {
    ClauseEquivalent(db, env, x.m, x.attrs, base, b, prefix);
    AclPathShape(x.m, base, b.doc);
    var p := AclPath(x.m, base, b.doc).value;
    var c := GenericClause(x.m, x.attrs, p, prefix);
    forall a | Mentions(c, a) ensures SameAt(env, map[prefix := r], a) {
      GenericScope(x.m, x.attrs, p, prefix, a);
    }
    EvalDependsOnMentioned(db, env, map[prefix := r], c);
  }
}
