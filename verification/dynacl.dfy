/** Compiling dynamic ACL bindings to row conditions, and the two special cases
    that avoid repeating the guarded table in a subquery. */
module DynAcl {
  import opened Wrappers
  import opened Sql
  import opened Aliases
  import opened Paths
  import opened Projections
  import opened Rights

  /** The compiled form of one binding: FROM the path's elements, WHERE their
      filters hold. */
  function PathFrom(p: Path, elems: seq<Elem>, prefix: string, wheres: seq<Cond>): From {
    if elems == [] then Where(wheres)
    else Join(elems[0].table, Alias(prefix, elems[0].pos), OnCond(p, elems[0], prefix),
              PathFrom(p, elems[1..], prefix, wheres))
  }

  /** The unoptimised clause: a subquery that joins the guarded row to a second
      instance of its table on a key. */
  function GenericClause(m: Model, attrs: seq<Value>, p: Path, prefix: string): Cond {
    Subquery(PathFrom(p, p.elems, prefix, PathWheres(m.tables, attrs, p.elems, prefix)))
  }

  /** Points a filter's columns at the row the enclosing query already has. */
  function Mangle(f: Filter, pos: nat): Filter {
    match f
    case BaseKey => f
    case BaseJoin(_) => f
    case AclTest(_, col, projection) => AclTest(pos, col, projection)
    case ColumnTest(_, col, test) => ColumnTest(pos, col, test)
    case Negation(g) => Negation(Mangle(g, pos))
    case Disjunction(fs) => Disjunction(seq(|fs|, i requires 0 <= i < |fs| => Mangle(fs[i], pos)))
    case Conjunction(fs) => Conjunction(seq(|fs|, i requires 0 <= i < |fs| => Mangle(fs[i], pos)))
  }

  function InlinedClause(m: Model, attrs: seq<Value>, p: Path, prefix: string): Cond
    requires p.elems != [] && p.elems[0].filters != [] && PrefixOk(prefix)
  {
    var e := p.elems[0];
    var fs := e.filters[1..];
    And(seq(|fs|, i requires 0 <= i < |fs| =>
      FilterSql(m.tables, attrs, e, Mangle(fs[i], FakePos(prefix)), FakePrefix(prefix))))
  }

  /** The path without its base element, whose neighbour is tied to the guarded
      row by a WHERE condition instead. */
  function WithoutBase(p: Path): seq<Elem>
    requires |p.elems| > 1 && p.elems[1].link.Some?
  {
    var e := p.elems[1];
    [e.(filters := e.filters + [BaseJoin(e.link.value.refop)])] + p.elems[2..]
  }

  /** Only the second element refers to the base, and nothing filters it. */
  predicate BaseTouchedOnce(p: Path) {
    && |p.elems| > 1
    && |p.elems[0].filters| == 1
    && p.elems[1].contextPos == 0
    && forall i | 2 <= i < |p.elems| :: p.elems[i].contextPos != 0
  }

  function DroppedBaseClause(m: Model, attrs: seq<Value>, p: Path, prefix: string): Cond
    requires |p.elems| > 1 && p.elems[1].link.Some?
  {
    var elems := WithoutBase(p);
    Subquery(Join(elems[0].table, Alias(prefix, elems[0].pos), Const(true),
                  PathFrom(p, elems[1..], prefix, PathWheres(m.tables, attrs, elems, prefix))))
  }

  function Clause(m: Model, attrs: seq<Value>, p: Path, prefix: string): Cond
    requires p.elems != [] && p.elems[0].filters != []
    requires |p.elems| > 1 ==> p.elems[1].link.Some?
  {
    if PrefixOk(prefix) && |p.elems| == 1 then InlinedClause(m, attrs, p, prefix)
    else if PrefixOk(prefix) && BaseTouchedOnce(p) then DroppedBaseClause(m, attrs, p, prefix)
    else GenericClause(m, attrs, p, prefix)
  }

  /** A binding compiles and its base table has a key the join can use. */
  predicate Usable(m: Model, base: TableId, b: Binding) {
    AclPath(m, base, b.doc).Ok? && BaseKeyColumns(m.tables, base) != []
  }

  function BindingClause(m: Model, attrs: seq<Value>, base: TableId, b: Binding, prefix: string): Cond
    requires Usable(m, base, b)
  {
    AclPathShape(m, base, b.doc);
    Clause(m, attrs, AclPath(m, base, b.doc).value, prefix)
  }

  // ---------------------------------------------------- get_dynacl_clauses

  /** What the compiler is run with: the model, the client's attributes and
      roles, and the row-instance name the clauses are about. */
  datatype Context = Context(m: Model, attrs: seq<Value>, roles: set<Role>)

  predicate AllUsable(x: Context, base: TableId, bindings: seq<Option<Binding>>) {
    forall i | 0 <= i < |bindings| :: bindings[i].Some? ==> Usable(x.m, base, bindings[i].value)
  }

  function ScopedClauses(x: Context, base: TableId, bindings: seq<Option<Binding>>, access: Right,
      prefix: string): seq<Cond>
    requires AllUsable(x, base, bindings)
  {
    if bindings == [] then []
    else
      var b := bindings[|bindings| - 1];
      ScopedClauses(x, base, bindings[..|bindings| - 1], access, prefix)
      + if b.Some? && InScope(b.value, access, x.roles)
        then [BindingClause(x.m, x.attrs, base, b.value, prefix)] else []
  }

  /** A static decision, whichever it is, compiles to True. */
  function DynaclClauses(x: Context, decision: Decision, base: TableId, bindings: seq<Option<Binding>>, access: Right,
      prefix: string): seq<Cond>
    requires AllUsable(x, base, bindings)
  {
    if decision != Maybe then [Const(true)]
    else
      var cs := ScopedClauses(x, base, bindings, access, prefix);
      if cs == [] then [Const(false)] else cs
  }

  /** `get_dynacl_clauses`; `bindings` are the dictionary's values in iteration
      order, each compiled afresh and its path edited in place. */
  method GetDynaclClauses(x: Context, decision: Decision, base: TableId, bindings: seq<Option<Binding>>, access: Right,
      prefix: string)
    returns (clauses: seq<Cond>)
    requires AllUsable(x, base, bindings)
    ensures clauses == DynaclClauses(x, decision, base, bindings, access, prefix)
  {
    if decision != Maybe {
      return [Const(true)];
    }
    clauses := [];
    for i := 0 to |bindings|
      invariant clauses == ScopedClauses(x, base, bindings[..i], access, prefix)
    {
      assert bindings[..i + 1][..i] == bindings[..i];
      if bindings[i].None? || !InScope(bindings[i].value, access, x.roles) {
        continue;
      }
      var clause := CompileBinding(x, base, bindings[i].value, prefix);
      clauses := clauses + [clause];
    }
    assert bindings[..|bindings|] == bindings;
    if clauses == [] {
      clauses := [Const(false)];
    }
  }

  /** Compiles one binding, choosing between the two special cases and the
      generic subquery. */
  method CompileBinding(x: Context, base: TableId, b: Binding, prefix: string) returns (clause: Cond)
    requires Usable(x.m, base, b)
    ensures clause == BindingClause(x.m, x.attrs, base, b, prefix)
  {
    var compiled := CompileProjection(x.m, base, b.doc);
    AclPathShape(x.m, base, b.doc);
    var path := compiled.value;
    var elems := path.elems;
    if PrefixOk(prefix) && |elems| == 1 {
      clause := InlineBase(x, elems[0], prefix);
    } else if PrefixOk(prefix) && |elems[0].filters| == 1 && elems[1].contextPos == 0
              && forall k | 2 <= k < |elems| :: elems[k].contextPos != 0 {
      var joined := elems[1];
      joined := joined.(filters := joined.filters + [BaseJoin(joined.link.value.refop)]);
      elems := [joined] + elems[2..];
      clause := Subquery(Join(joined.table, Alias(prefix, joined.pos), Const(true),
        PathFrom(path, elems[1..], prefix, PathWheres(x.m.tables, x.attrs, elems, prefix))));
    } else {
      clause := GenericClause(x.m, x.attrs, path, prefix);
    }
  }

  /** Deletes the base-key predicate and re-points the other filters. */
  method InlineBase(x: Context, base: Elem, prefix: string) returns (clause: Cond)
    requires base.filters != [] && PrefixOk(prefix)
    ensures clause == And(seq(|base.filters| - 1, i requires 0 <= i < |base.filters| - 1 =>
      FilterSql(x.m.tables, x.attrs, base, Mangle(base.filters[i + 1], FakePos(prefix)), FakePrefix(prefix))))
  {
    var filters := base.filters[1..];
    var conds := [];
    for i := 0 to |filters|
      invariant |conds| == i
      invariant forall k | 0 <= k < i ::
        conds[k] == FilterSql(x.m.tables, x.attrs, base, Mangle(filters[k], FakePos(prefix)), FakePrefix(prefix))
    {
      conds := conds + [FilterSql(x.m.tables, x.attrs, base, Mangle(filters[i], FakePos(prefix)), FakePrefix(prefix))];
    }
    clause := And(conds);
    assert conds == seq(|base.filters| - 1, i requires 0 <= i < |base.filters| - 1 =>
      FilterSql(x.m.tables, x.attrs, base, Mangle(base.filters[i + 1], FakePos(prefix)), FakePrefix(prefix)));
  }
}
