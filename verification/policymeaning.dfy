/** What an ACL binding document says, read directly as a walk over rows, and
    that its compiled clause says the same. */
module PolicyMeaning {
  import opened Wrappers
  import opened Sql
  import opened Aliases
  import opened Paths
  import opened Projections
  import opened Rights
  import opened DynAcl
  import opened DynAclEquivalence
  import opened DynAclScope
  import opened PathMeaning

  // ------------------------------------------------------ reading a document

  /** Where a reader of a document is: the rows visited, their tables, the
      current one, and the names given along the way. */
  datatype Reader = Reader(rows: seq<Row>, tables: seq<TableId>, at: nat, names: map<string, nat>)

  /** The row that a column name belongs to. */
  function Meant(w: Reader, qualifier: Option<string>): Option<Row> {
    var pos := match qualifier case None => Some(w.at) case Some(a) => if a in w.names then Some(w.names[a]) else None;
    if pos.Some? && pos.value < |w.rows| then Some(w.rows[pos.value]) else None
  }

  function SpecTruth(db: Db, w: Reader, f: FilterSpec): Tri
    decreases f
  {
    match f
    case NamedTest(q, col, test) =>
      if Meant(w, q).Some? then EvalTest(db, test, Field(Meant(w, q).value, col)) else Unknown
    case NotSpec(g) => Negate(SpecTruth(db, w, g))
    case AnySpec(fs) => AnyOf(seq(|fs|, i requires 0 <= i < |fs| => SpecTruth(db, w, fs[i])))
    case AllSpec(fs) => AllOf(seq(|fs|, i requires 0 <= i < |fs| => SpecTruth(db, w, fs[i])))
  }

  /** A join step: from the named row, or the current one, along a reference of
      its table to some row of the other table. */
  predicate Joins(db: Db, m: Model, u: Reader, e: ProjElem, w: Reader) {
    && e.JoinElem?
    && (e.context.Some? ==> e.context.value in u.names)
    && var start := if e.context.Some? then u.names[e.context.value] else u.at;
    && |u.tables| == |u.rows| && start < |u.rows|
    && e.fkey in m.fkeys && m.fkeys[e.fkey].KeyRef?
    && var kr := m.fkeys[e.fkey];
    && u.tables[start] == (if e.inbound then kr.pkTable else kr.fkTable)
    && |w.rows| == |u.rows| + 1 && w.rows[..|u.rows|] == u.rows
    && var (near, far) := (u.rows[start], w.rows[|u.rows|]);
    && far in TableRows(db, if e.inbound then kr.fkTable else kr.pkTable)
    && (if e.inbound then Refers(kr.refmap, far, near) else Refers(kr.refmap, near, far))
    && w.tables == u.tables + [if e.inbound then kr.fkTable else kr.pkTable]
    && w.at == |u.rows|
    && w.names == if e.alias.Some? then u.names[e.alias.value := |u.rows|] else u.names
  }

  /** `w` is a way to read the steps of a document for row `r` of the table. */
  ghost predicate Reads(db: Db, m: Model, base: TableId, r: Row, steps: seq<ProjElem>, w: Reader)
    decreases |steps|
  {
    if steps == [] then w == Reader([r], [base], 0, map["base" := 0])
    else
      var front, last := steps[..|steps| - 1], steps[|steps| - 1];
      match last
      case JoinElem(_, _, _, _) => exists u :: Reads(db, m, base, r, front, u) && Joins(db, m, u, last, w)
      case FilterElem(spec) => Reads(db, m, base, r, front, w) && SpecTruth(db, w, spec) == True
  }

  /** The document admits the row: some reading ends at a value that speaks for
      the client. */
  ghost predicate DocAdmits(db: Db, m: Model, attrs: seq<Value>, base: TableId, doc: Doc, r: Row) {
    exists w :: Reads(db, m, base, r, doc.steps, w) && Speaks(db, attrs, doc, w)
  }

  predicate Speaks(db: Db, attrs: seq<Value>, doc: Doc, w: Reader) {
    w.at < |w.rows| && SpeaksFor(db, doc.projection, attrs, Field(w.rows[w.at], doc.column))
  }

  // -------------------------------------------------- growing paths and rows

  /** A filter over earlier elements does not see a further row. */
  lemma {:induction false} FilterTruthPrefix(db: Db, attrs: seq<Value>, front: seq<Row>, rows: seq<Row>, f: Filter)
    requires FilterOk(f, |front|) && front <= rows
    ensures FilterTruth(db, attrs, front, f) == FilterTruth(db, attrs, rows, f)
    decreases f
  {
    match f
    case Negation(g) => FilterTruthPrefix(db, attrs, front, rows, g);
    case Disjunction(fs) =>
      forall i | 0 <= i < |fs| { FilterTruthPrefix(db, attrs, front, rows, fs[i]); }
      assert seq(|fs|, i requires 0 <= i < |fs| => FilterTruth(db, attrs, front, fs[i]))
        == seq(|fs|, i requires 0 <= i < |fs| => FilterTruth(db, attrs, rows, fs[i]));
    case Conjunction(fs) =>
      forall i | 0 <= i < |fs| { FilterTruthPrefix(db, attrs, front, rows, fs[i]); }
      assert seq(|fs|, i requires 0 <= i < |fs| => FilterTruth(db, attrs, front, fs[i]))
        == seq(|fs|, i requires 0 <= i < |fs| => FilterTruth(db, attrs, rows, fs[i]));
    case _ =>
  }

  lemma PassesPrefix(db: Db, attrs: seq<Value>, front: seq<Row>, rows: seq<Row>, e: Elem)
    requires FiltersOk(e.filters, |front|) && front <= rows
    ensures Passes(db, attrs, front, e) <==> Passes(db, attrs, rows, e)
  {
    forall k | 0 <= k < |e.filters|
      ensures FilterTruth(db, attrs, front, e.filters[k]) == FilterTruth(db, attrs, rows, e.filters[k])
    {
      FilterTruthPrefix(db, attrs, front, rows, e.filters[k]);
    }
  }

  /** A filter more. */
  lemma FollowsFiltered(db: Db, attrs: seq<Value>, p: Path, f: Filter, rows: seq<Row>)
    requires WellFormed(p)
    ensures Follows(db, attrs, Filtered(p, f), rows) <==>
      Follows(db, attrs, p, rows) && FilterTruth(db, attrs, rows, f) == True
  {
    var q, at := Filtered(p, f), Position(p);
    if |rows| == |p.elems| {
      forall i | 0 <= i < |rows|
        ensures StandsAt(db, q, rows, i) <==> StandsAt(db, p, rows, i)
        ensures Passes(db, attrs, rows, q.elems[i]) <==>
          Passes(db, attrs, rows, p.elems[i]) && (i == at ==> FilterTruth(db, attrs, rows, f) == True)
      {
        assert ElemOk(p, i);
        if i == at {
          PassesMore(db, attrs, rows, p.elems[i], f);
        }
      }
    }
  }

  lemma PassesMore(db: Db, attrs: seq<Value>, rows: seq<Row>, e: Elem, f: Filter)
    ensures Passes(db, attrs, rows, e.(filters := e.filters + [f])) <==>
      Passes(db, attrs, rows, e) && FilterTruth(db, attrs, rows, f) == True
  {
    var more := e.filters + [f];
    assert more[|e.filters|] == f;
    assert forall k | 0 <= k < |e.filters| :: more[k] == e.filters[k];
  }

  /** `q` is `p` with one element more, linked to element `at`. */
  predicate OneMoreElem(p: Path, q: Path, kr: KeyRef, op: RefOp, at: nat) {
    && |q.elems| == |p.elems| + 1 && q.elems[..|p.elems|] == p.elems
    && q.elems[|p.elems|] == Elem(RightTable(kr, op), |p.elems|, Some(Link(kr, op, None)), at, NotOuter, [])
  }

  /** An element more, and a row for it. */
  lemma FollowsLinked(db: Db, attrs: seq<Value>, p: Path, q: Path, kr: KeyRef, op: RefOp, at: nat,
      rows: seq<Row>, s: Row)
    requires AclShape(p) && OneMoreElem(p, q, kr, op, at) && at < |p.elems| && |rows| == |p.elems|
    ensures Follows(db, attrs, q, rows + [s]) <==>
      && Follows(db, attrs, p, rows)
      && s in TableRows(db, RightTable(kr, op)) && LinkHolds(kr, op, rows[at], s)
  {
    var n, all := |p.elems|, rows + [s];
    forall i | 0 <= i < n
      ensures StandsAt(db, q, all, i) <==> StandsAt(db, p, rows, i)
      ensures Passes(db, attrs, all, q.elems[i]) <==> Passes(db, attrs, rows, p.elems[i])
    {
      assert ElemOk(p, i) && q.elems[i] == p.elems[i];
      PassesPrefix(db, attrs, rows, all, p.elems[i]);
    }
    assert StandsAt(db, q, all, n) <==> s in TableRows(db, RightTable(kr, op)) && LinkHolds(kr, op, rows[at], s);
    assert Passes(db, attrs, all, q.elems[n]);
  }

  // -------------------------------------------- the reader and the compiler

  /** The reader is where the compiled path is. */
  ghost predicate Mirrors(p: Path, w: Reader) {
    && p.elems != [] && -1 <= p.contextIndex < |p.elems|
    && |w.rows| == |w.tables| == |p.elems|
    && (forall i | 0 <= i < |p.elems| :: w.tables[i] == p.elems[i].table)
    && w.at == Position(p) && w.names == p.aliases
  }

  lemma {:induction false} SpecMeaning(db: Db, m: Tables, attrs: seq<Value>, p: Path, f: FilterSpec, w: Reader)
    requires WellFormed(p) && Mirrors(p, w) && Validate(m, p, f).Ok?
    ensures FilterTruth(db, attrs, w.rows, Validate(m, p, f).value) == SpecTruth(db, w, f)
    decreases f, 1, 0
  {
    match f
    case NamedTest(_, _, _) =>
    case NotSpec(g) => SpecMeaning(db, m, attrs, p, g, w);
    case AnySpec(fs) => SpecsMeaning(db, m, attrs, p, f, fs, w);
    case AllSpec(fs) => SpecsMeaning(db, m, attrs, p, f, fs, w);
  }

  function SpecTruths(db: Db, w: Reader, fs: seq<FilterSpec>): seq<Tri> {
    seq(|fs|, i requires 0 <= i < |fs| => SpecTruth(db, w, fs[i]))
  }

  function FilterTruths(db: Db, attrs: seq<Value>, rows: seq<Row>, fs: seq<Filter>): seq<Tri> {
    seq(|fs|, i requires 0 <= i < |fs| => FilterTruth(db, attrs, rows, fs[i]))
  }

  lemma SpecTruthsHead(db: Db, w: Reader, fs: seq<FilterSpec>)
    requires fs != []
    ensures SpecTruths(db, w, fs) == [SpecTruth(db, w, fs[0])] + SpecTruths(db, w, fs[1..])
  {
  }

  lemma FilterTruthsHead(db: Db, attrs: seq<Value>, rows: seq<Row>, f: Filter, fs: seq<Filter>)
    ensures FilterTruths(db, attrs, rows, [f] + fs) == [FilterTruth(db, attrs, rows, f)]
      + FilterTruths(db, attrs, rows, fs)
  {
  }

  lemma {:induction false} SpecsMeaning(db: Db, m: Tables, attrs: seq<Value>, p: Path, parent: FilterSpec,
      fs: seq<FilterSpec>, w: Reader)
    requires WellFormed(p) && Mirrors(p, w)
    requires forall i | 0 <= i < |fs| :: fs[i] < parent
    requires ValidateAll(m, p, parent, fs).Ok?
    ensures FilterTruths(db, attrs, w.rows, ValidateAll(m, p, parent, fs).value) == SpecTruths(db, w, fs)
    decreases parent, 0, |fs|
  {
    if fs != [] {
      SpecMeaning(db, m, attrs, p, fs[0], w);
      SpecsMeaning(db, m, attrs, p, parent, fs[1..], w);
      SpecTruthsHead(db, w, fs);
      FilterTruthsHead(db, attrs, w.rows, Validate(m, p, fs[0]).value, ValidateAll(m, p, parent, fs[1..]).value);
    }
  }

  /** The element a join step starts from. */
  function StartOf(p: Path, e: ProjElem): nat
    requires e.JoinElem? && p.elems != [] && -1 <= p.contextIndex < |p.elems|
  {
    if e.context.Some? && e.context.value in p.aliases then p.aliases[e.context.value] else Position(p)
  }

  function OpOf(e: ProjElem): RefOp
    requires e.JoinElem?
  {
    if e.inbound then Inbound else Outbound
  }

  /** What a successful join step does to a path. */
  lemma JoinStepShape(m: Model, p: Path, e: ProjElem)
    requires AclShape(p) && e.JoinElem? && JoinStep(m, p, e).Ok?
    ensures e.context.Some? ==> e.context.value in p.aliases
    ensures e.fkey in m.fkeys && m.fkeys[e.fkey].KeyRef?
    ensures var q, kr, at := JoinStep(m, p, e).value, m.fkeys[e.fkey], StartOf(p, e);
      && at < |p.elems| && p.elems[at].table == (if e.inbound then kr.pkTable else kr.fkTable)
      && OneMoreElem(p, q, kr, OpOf(e), at) && q.contextIndex == -1
      && q.aliases == if e.alias.Some? then p.aliases[e.alias.value := |p.elems|] else p.aliases
  {
  }

  lemma AdmitsLinked(db: Db, attrs: seq<Value>, p: Path, q: Path, kr: KeyRef, op: RefOp, at: nat, r: Row,
      rows: seq<Row>)
    requires AclShape(p) && OneMoreElem(p, q, kr, op, at) && at < |p.elems| && |rows| == |p.elems| + 1
    ensures var front, s := rows[..|p.elems|], rows[|p.elems|];
      AdmitsBy(db, attrs, q, r, rows) <==>
        AdmitsBy(db, attrs, p, r, front) && s in TableRows(db, RightTable(kr, op)) && LinkHolds(kr, op, front[at], s)
  {
    var front, s := rows[..|p.elems|], rows[|p.elems|];
    assert rows == front + [s];
    FollowsLinked(db, attrs, p, q, kr, op, at, front, s);
  }

  /** The reader of the path's front. */
  function Back(p: Path, w: Reader): Reader
    requires p.elems != [] && -1 <= p.contextIndex < |p.elems| && |w.rows| >= |p.elems| && |w.tables| >= |p.elems|
  {
    Reader(w.rows[..|p.elems|], w.tables[..|p.elems|], Position(p), p.aliases)
  }

  /** A join step of the reader is one of the path. */
  lemma JoinsMeaning(db: Db, m: Model, attrs: seq<Value>, p: Path, e: ProjElem, r: Row, u: Reader, w: Reader)
    requires AclShape(p) && e.JoinElem? && JoinStep(m, p, e).Ok?
    requires Mirrors(p, u) && AdmitsBy(db, attrs, p, r, u.rows) && Joins(db, m, u, e, w)
    ensures Mirrors(JoinStep(m, p, e).value, w) && AdmitsBy(db, attrs, JoinStep(m, p, e).value, r, w.rows)
  {
    JoinStepShape(m, p, e);
    AdmitsLinked(db, attrs, p, JoinStep(m, p, e).value, m.fkeys[e.fkey], OpOf(e), StartOf(p, e), r, w.rows);
  }

  lemma JoinsBack(db: Db, m: Model, attrs: seq<Value>, p: Path, e: ProjElem, r: Row, w: Reader)
    requires AclShape(p) && e.JoinElem? && JoinStep(m, p, e).Ok?
    requires Mirrors(JoinStep(m, p, e).value, w) && AdmitsBy(db, attrs, JoinStep(m, p, e).value, r, w.rows)
    ensures |w.rows| == |w.tables| == |p.elems| + 1
    ensures var u := Back(p, w);
      Mirrors(p, u) && AdmitsBy(db, attrs, p, r, u.rows) && Joins(db, m, u, e, w)
  {
    JoinStepShape(m, p, e);
    var q, u := JoinStep(m, p, e).value, Back(p, w);
    AdmitsLinked(db, attrs, p, q, m.fkeys[e.fkey], OpOf(e), StartOf(p, e), r, w.rows);
    assert q.elems[..|p.elems|] == p.elems && w.tables == u.tables + [w.tables[|p.elems|]];
  }

  lemma ReadsJoin(db: Db, m: Model, base: TableId, r: Row, front: seq<ProjElem>, e: ProjElem, w: Reader)
    requires e.JoinElem?
    ensures Reads(db, m, base, r, front + [e], w) <==>
      exists u :: Reads(db, m, base, r, front, u) && Joins(db, m, u, e, w)
  {
    var steps := front + [e];
    assert steps[..|steps| - 1] == front && steps[|steps| - 1] == e;
  }

  lemma ReadsFilter(db: Db, m: Model, base: TableId, r: Row, front: seq<ProjElem>, e: ProjElem, w: Reader)
    requires e.FilterElem?
    ensures Reads(db, m, base, r, front + [e], w) <==>
      Reads(db, m, base, r, front, w) && SpecTruth(db, w, e.spec) == True
  {
    var steps := front + [e];
    assert steps[..|steps| - 1] == front && steps[|steps| - 1] == e;
  }

  lemma ReadsNothing(db: Db, m: Model, attrs: seq<Value>, base: TableId, r: Row, w: Reader)
    requires r in TableRows(db, base)
    ensures Reads(db, m, base, r, [], w) <==>
      Mirrors(StartPath(base), w) && AdmitsBy(db, attrs, StartPath(base), r, w.rows)
  {
    var p := StartPath(base);
    if Mirrors(p, w) && AdmitsBy(db, attrs, p, r, w.rows) {
      assert w.rows == [r] && w.tables == [base];
    }
    if w == Reader([r], [base], 0, map["base" := 0]) {
      assert StandsAt(db, p, w.rows, 0) && Passes(db, attrs, w.rows, p.elems[0]);
    }
  }

  /** Readings of some steps are the ways to follow their path. */
  ghost predicate SameReadings(db: Db, m: Model, attrs: seq<Value>, base: TableId, r: Row, steps: seq<ProjElem>)
    requires Walk(m, base, steps).Ok?
  {
    forall w :: Reads(db, m, base, r, steps, w) <==>
      Mirrors(Walk(m, base, steps).value, w) && AdmitsBy(db, attrs, Walk(m, base, steps).value, r, w.rows)
  }

  lemma ReadsJoinMeaning(db: Db, m: Model, attrs: seq<Value>, base: TableId, r: Row, front: seq<ProjElem>, e: ProjElem,
      w: Reader)
    requires Walk(m, base, front).Ok? && SameReadings(db, m, attrs, base, r, front)
    requires e.JoinElem? && JoinStep(m, Walk(m, base, front).value, e).Ok?
    ensures var q := JoinStep(m, Walk(m, base, front).value, e).value;
      Reads(db, m, base, r, front + [e], w) <==> Mirrors(q, w) && AdmitsBy(db, attrs, q, r, w.rows)
  {
    var p := Walk(m, base, front).value;
    WalkShape(m, base, front);
    ReadsJoin(db, m, base, r, front, e, w);
    if u :| Reads(db, m, base, r, front, u) && Joins(db, m, u, e, w) {
      JoinsMeaning(db, m, attrs, p, e, r, u, w);
    }
    var q := JoinStep(m, p, e).value;
    if Mirrors(q, w) && AdmitsBy(db, attrs, q, r, w.rows) {
      JoinsBack(db, m, attrs, p, e, r, w);
    }
  }

  /** Reading a document and following its compiled path are the same. */
  lemma {:induction false} ReadsMeaning(db: Db, m: Model, attrs: seq<Value>, base: TableId, r: Row,
      steps: seq<ProjElem>)
    requires Walk(m, base, steps).Ok? && r in TableRows(db, base)
    ensures SameReadings(db, m, attrs, base, r, steps)
    decreases |steps|
  {
    forall w ensures Reads(db, m, base, r, steps, w) <==>
      Mirrors(Walk(m, base, steps).value, w) && AdmitsBy(db, attrs, Walk(m, base, steps).value, r, w.rows)
    {
      if steps == [] {
        ReadsNothing(db, m, attrs, base, r, w);
      } else {
        var front, e := steps[..|steps| - 1], steps[|steps| - 1];
        ReadsMeaning(db, m, attrs, base, r, front);
        assert steps == front + [e];
        if e.JoinElem? {
          ReadsJoinMeaning(db, m, attrs, base, r, front, e, w);
        } else {
          ReadsFilter(db, m, base, r, front, e, w);
          WalkShape(m, base, front);
          FilterStepMeaning(db, m, attrs, Walk(m, base, front).value, e.spec, r, w);
        }
      }
    }
  }

  lemma FilterStepMeaning(db: Db, m: Model, attrs: seq<Value>, p: Path, spec: FilterSpec, r: Row, w: Reader)
    requires AclShape(p) && Validate(m.tables, p, spec).Ok?
    ensures var q := Filtered(p, Validate(m.tables, p, spec).value);
      Mirrors(q, w) && AdmitsBy(db, attrs, q, r, w.rows) <==>
        Mirrors(p, w) && AdmitsBy(db, attrs, p, r, w.rows) && SpecTruth(db, w, spec) == True
  {
    FollowsFiltered(db, attrs, p, Validate(m.tables, p, spec).value, w.rows);
    if Mirrors(p, w) {
      SpecMeaning(db, m.tables, attrs, p, spec, w);
    }
  }

  // ------------------------------------------------- clauses and documents

  /** The path of a document, ended by the test of its column, admits a row
      exactly if the document does. */
  lemma PathMeansDocument(db: Db, m: Model, attrs: seq<Value>, base: TableId, doc: Doc, r: Row)
    requires AclPath(m, base, doc).Ok? && r in TableRows(db, base)
    ensures (exists rows :: AdmitsBy(db, attrs, AclPath(m, base, doc).value, r, rows)) <==>
      DocAdmits(db, m, attrs, base, doc, r)
  {
    WalkShape(m, base, doc.steps);
    var p, q := Walk(m, base, doc.steps).value, AclPath(m, base, doc).value;
    if rows :| AdmitsBy(db, attrs, q, r, rows) {
      var w := Reader(rows, seq(|p.elems|, i requires 0 <= i < |p.elems| => p.elems[i].table), Position(p), p.aliases);
      ReadsMeaning(db, m, attrs, base, r, doc.steps);
      TestMeaning(db, attrs, p, doc, r, w);
    }
    if w :| Reads(db, m, base, r, doc.steps, w) && Speaks(db, attrs, doc, w) {
      ReadsMeaning(db, m, attrs, base, r, doc.steps);
      TestMeaning(db, attrs, p, doc, r, w);
    }
  }

  lemma TestMeaning(db: Db, attrs: seq<Value>, p: Path, doc: Doc, r: Row, w: Reader)
    requires AclShape(p) && w.at == Position(p)
    ensures AdmitsBy(db, attrs, Filtered(p, AclTest(Position(p), doc.column, doc.projection)), r, w.rows) <==>
      AdmitsBy(db, attrs, p, r, w.rows) && Speaks(db, attrs, doc, w)
  {
    FollowsFiltered(db, attrs, p, AclTest(Position(p), doc.column, doc.projection), w.rows);
    if w.at < |w.rows| {
      ProjectionMeaning(db, doc.projection, attrs, Field(w.rows[w.at], doc.column));
    }
  }

  /** So the unoptimised clause finds a stored row exactly if the document
      admits it. */
  lemma GenericMeansDocument(db: Db, env: Env, m: Model, attrs: seq<Value>, base: TableId, doc: Doc, prefix: string,
      r: Row)
    requires AclPath(m, base, doc).Ok? && KeyIdentifies(db, m.tables, base)
    requires Bound(env, prefix, r) && r in TableRows(db, base)
    ensures Holds(db, env, GenericClause(m, attrs, AclPath(m, base, doc).value, prefix)) <==>
      DocAdmits(db, m, attrs, base, doc, r)
  {
    AclPathShape(m, base, doc);
    GenericMeaning(db, env, m, attrs, AclPath(m, base, doc).value, prefix, r);
    PathMeansDocument(db, m, attrs, base, doc, r);
  }

  /** ... and so does whichever form the compiler chooses for a binding. */
  lemma ClauseMeansDocument(db: Db, env: Env, m: Model, attrs: seq<Value>, base: TableId, b: Binding, prefix: string,
      r: Row)
    requires Usable(m, base, b) && SplitsBack(prefix) && KeyIdentifies(db, m.tables, base)
    requires !LosesBase(AclPath(m, base, b.doc).value, prefix)
    requires Bound(env, prefix, r) && r in TableRows(db, base)
    ensures Holds(db, env, BindingClause(m, attrs, base, b, prefix)) <==> DocAdmits(db, m, attrs, base, b.doc, r)
  {
    ClauseEquivalent(db, env, m, attrs, base, b, prefix);
    GenericMeansDocument(db, env, m, attrs, base, b.doc, prefix, r);
  }

  /** The policy grants the row: a binding in scope has a document that admits it. */
  ghost predicate PolicyGrants(db: Db, x: Context, base: TableId, bindings: seq<Option<Binding>>,
      access: Right, r: Row) {
    exists k | 0 <= k < |bindings| ::
      && bindings[k].Some? && InScope(bindings[k].value, access, x.roles)
      && DocAdmits(db, x.m, x.attrs, base, bindings[k].value.doc, r)
  }

  lemma PolicyMeansDocuments(db: Db, x: Context, base: TableId, bindings: seq<Option<Binding>>, access: Right,
      prefix: string, r: Row)
    requires AllUsable(x, base, bindings) && KeyIdentifies(db, x.m.tables, base) && r in TableRows(db, base)
    ensures PolicyAdmits(db, x, base, bindings, access, prefix, r) <==> PolicyGrants(db, x, base, bindings, access, r)
  {
    forall k | 0 <= k < |bindings| && bindings[k].Some?
      ensures Holds(db, map[prefix := r],
          GenericClause(x.m, x.attrs, AclPath(x.m, base, bindings[k].value.doc).value, prefix))
        <==> DocAdmits(db, x.m, x.attrs, base, bindings[k].value.doc, r)
    {
      GenericMeansDocument(db, map[prefix := r], x.m, x.attrs, base, bindings[k].value.doc, prefix, r);
    }
  }

  /** The compiled clause list, whatever forms it mixes, is True of a stored row
      exactly if the decision is static or the policy grants the row. */
  lemma ClausesMeanDocuments(db: Db, env: Env, x: Context, decision: Decision, base: TableId,
      bindings: seq<Option<Binding>>, access: Right, prefix: string, r: Row)
    requires SoundBindings(x, base, bindings, access, prefix) && KeyIdentifies(db, x.m.tables, base)
    requires r in TableRows(db, base) && Bound(env, prefix, r)
    ensures Holds(db, env, Or(DynaclClauses(x, decision, base, bindings, access, prefix))) <==>
      decision != Maybe || PolicyGrants(db, x, base, bindings, access, r)
  {
    ClausesMeanPolicy(db, env, x, decision, base, bindings, access, prefix, r);
    PolicyMeansDocuments(db, x, base, bindings, access, prefix, r);
  }
}
