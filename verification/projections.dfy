/** ACL binding projections: documents that walk from the guarded table to a
    column listing roles, and the entity path each one compiles to. */
module Projections {
  import opened Wrappers
  import opened Sql
  import opened Paths

  datatype ProjElem =
    | JoinElem(context: Option<string>, inbound: bool, fkey: string, alias: Option<string>)
    | FilterElem(spec: FilterSpec)

  datatype Doc = Doc(steps: seq<ProjElem>, column: string, projection: Projection)

  /** `fkeys` maps constraint names to the references they declare. */
  datatype Model = Model(tables: Tables, fkeys: map<string, KeyRef>)

  /** The reference a join step names, if it touches the left table on the
      side the step says. */
  function FindReference(m: Model, ltable: TableId, inbound: bool, name: string): Option<KeyRef> {
    if name in m.fkeys && m.fkeys[name].KeyRef?
       && (if inbound then m.fkeys[name].pkTable else m.fkeys[name].fkTable) == ltable
    then Some(m.fkeys[name]) else None
  }

  function StartPath(base: TableId): Path {
    Filtered(BasePath(base, Some("base")), BaseKey)
  }

  function JoinStep(m: Model, p: Path, e: ProjElem): Result<Path, PathError>
    requires e.JoinElem? && p.elems != [] && -1 <= p.contextIndex < |p.elems|
    requires forall a | a in p.aliases :: p.aliases[a] < |p.elems|
  {
    if e.context.Some? && e.context.value !in p.aliases then Err(Unbound)
    else
      var q := if e.context.Some? then p.(contextIndex := p.aliases[e.context.value]) else p;
      var op := if e.inbound then Inbound else Outbound;
      match FindReference(m, q.elems[Position(q)].table, e.inbound, e.fkey)
      case None => Err(Conflict)
      case Some(kr) =>
        if e.alias.Some? && e.alias.value in q.aliases then Err(BadData)
        else
          var l := Linked(q, kr, op, None, NotOuter);
          Ok(if e.alias.Some? then l.(aliases := l.aliases[e.alias.value := |q.elems|]) else l)
  }

  function Step(m: Model, p: Path, e: ProjElem): Result<Path, PathError>
    requires p.elems != [] && -1 <= p.contextIndex < |p.elems|
    requires forall a | a in p.aliases :: p.aliases[a] < |p.elems|
  {
    match e
    case JoinElem(_, _, _, _) => JoinStep(m, p, e)
    case FilterElem(spec) =>
      match Validate(m.tables, p, spec)
      case Err(err) => Err(err)
      case Ok(f) => Ok(Filtered(p, f))
  }

  /** The path after the given steps. */
  function Walk(m: Model, base: TableId, steps: seq<ProjElem>): (r: Result<Path, PathError>)
    ensures r.Ok? ==> r.value.elems != [] && -1 <= r.value.contextIndex < |r.value.elems|
    ensures r.Ok? ==> forall a | a in r.value.aliases :: r.value.aliases[a] < |r.value.elems|
  {
    if steps == [] then Ok(StartPath(base))
    else
      match Walk(m, base, steps[..|steps| - 1])
      case Err(err) => Err(err)
      case Ok(p) => Step(m, p, steps[|steps| - 1])
  }

  /** The path with the final test of the projected column. */
  function AclPath(m: Model, base: TableId, doc: Doc): Result<Path, PathError> {
    match Walk(m, base, doc.steps)
    case Err(err) => Err(err)
    case Ok(p) =>
      var t := p.elems[Position(p)].table;
      if t in m.tables && HasColumn(m.tables[t], doc.column)
      then Ok(Filtered(p, AclTest(Position(p), doc.column, doc.projection)))
      else Err(Conflict)
  }

  method CompileJoin(m: Model, epath: EntityPath, e: ProjElem) returns (err: Option<PathError>)
    requires epath.Valid() && e.JoinElem?
    modifies epath
    ensures err == None ==> epath.Valid() && JoinStep(m, old(epath.Value()), e) == Ok(epath.Value())
    ensures err.Some? ==> JoinStep(m, old(epath.Value()), e) == Err(err.value)
  {
    if e.context.Some? {
      err := epath.SetContext(e.context.value);
      if err.Some? {
        return Some(Unbound);
      }
    }
    var at := if epath.contextIndex == -1 then |epath.elems| - 1 else epath.contextIndex;
    var found := FindReference(m, epath.elems[at].table, e.inbound, e.fkey);
    if found.None? {
      return Some(Conflict);
    }
    err := epath.AddLink(found.value, if e.inbound then Inbound else Outbound, e.alias, None, NotOuter, true);
    if err.Some? {
      return Some(BadData);
    }
  }

  method CompileFilter(m: Model, epath: EntityPath, e: ProjElem) returns (err: Option<PathError>)
    requires epath.Valid() && e.FilterElem? && epath.model == m.tables
    modifies epath
    ensures err == None ==> epath.Valid() && Step(m, old(epath.Value()), e) == Ok(epath.Value())
    ensures err.Some? ==> Step(m, old(epath.Value()), e) == Err(err.value)
  {
    var checked := Validate(m.tables, epath.Value(), e.spec);
    err := epath.AddFilter(e.spec);
    if checked.Err? {
      return Some(checked.error);
    }
  }

  method CompileStep(m: Model, epath: EntityPath, e: ProjElem) returns (err: Option<PathError>)
    requires epath.Valid() && epath.model == m.tables
    modifies epath
    ensures err == None ==> epath.Valid() && Step(m, old(epath.Value()), e) == Ok(epath.Value())
    ensures err.Some? ==> Step(m, old(epath.Value()), e) == Err(err.value)
  {
    if e.JoinElem? {
      err := CompileJoin(m, epath, e);
    } else {
      err := CompileFilter(m, epath, e);
    }
  }

  /** A path of the base table alone, joined back by its key. */
  method StartCompile(m: Model, base: TableId) returns (epath: EntityPath)
    ensures fresh(epath) && epath.Valid() && epath.model == m.tables && epath.Value() == StartPath(base)
  {
    epath := new EntityPath(m.tables);
    var err := epath.SetBaseEntity(base, Some("base"));
    epath.AddAclFilter(BaseKey);
  }

  /** Takes the path through the steps of a document. */
  method GrowPath(m: Model, base: TableId, epath: EntityPath, steps: seq<ProjElem>) returns (err: Option<PathError>)
    requires epath.Valid() && epath.model == m.tables && epath.Value() == StartPath(base)
    modifies epath
    ensures err == None ==> epath.Valid() && Walk(m, base, steps) == Ok(epath.Value())
    ensures err.Some? ==> Walk(m, base, steps) == Err(err.value)
  {
    var i := 0;
    while i < |steps|
      invariant 0 <= i <= |steps|
      invariant epath.Valid()
      invariant Walk(m, base, steps[..i]) == Ok(epath.Value())
    {
      WalkNext(m, base, steps, i);
      err := CompileStep(m, epath, steps[i]);
      if err.Some? {
        WalkErr(m, base, steps, i + 1);
        return;
      }
      i := i + 1;
    }
    assert steps[..i] == steps;
    err := None;
  }

  /** Compiles a document by growing a path object. */
  method CompileProjection(m: Model, base: TableId, doc: Doc) returns (r: Result<Path, PathError>)
    ensures r == AclPath(m, base, doc)
  {
    var epath := StartCompile(m, base);
    var err := GrowPath(m, base, epath, doc.steps);
    if err.Some? {
      return Err(err.value);
    }
    r := CompileTest(m, epath, doc);
  }

  /** The final column of the document, at the end of the path. */
  method CompileTest(m: Model, epath: EntityPath, doc: Doc) returns (r: Result<Path, PathError>)
    requires epath.Valid()
    modifies epath
    ensures
      var p := old(epath.Value());
      var t := p.elems[Position(p)].table;
      r == if t in m.tables && HasColumn(m.tables[t], doc.column)
        then Ok(Filtered(p, AclTest(Position(p), doc.column, doc.projection))) else Err(Conflict)
  {
    var at := if epath.contextIndex == -1 then |epath.elems| - 1 else epath.contextIndex;
    var t := epath.elems[at].table;
    if t !in m.tables || !HasColumn(m.tables[t], doc.column) {
      return Err(Conflict);
    }
    epath.AddAclFilter(AclTest(at, doc.column, doc.projection));
    r := Ok(epath.Value());
  }

  lemma WalkNext(m: Model, base: TableId, steps: seq<ProjElem>, i: nat)
    requires i < |steps| && Walk(m, base, steps[..i]).Ok?
    ensures Walk(m, base, steps[..i + 1]) == Step(m, Walk(m, base, steps[..i]).value, steps[i])
  {
    assert steps[..i + 1][..i] == steps[..i];
  }

  lemma {:induction false} WalkErr(m: Model, base: TableId, steps: seq<ProjElem>, i: nat)
    requires i <= |steps| && Walk(m, base, steps[..i]).Err?
    ensures Walk(m, base, steps) == Err(Walk(m, base, steps[..i]).error)
    decreases |steps|
  {
    if i == |steps| {
      assert steps[..i] == steps;
    } else {
      var front := steps[..|steps| - 1];
      assert front[..i] == steps[..i];
      WalkErr(m, base, front, i);
    }
  }

  // ----------------------------------------------------- shape of ACL paths

  /** What the ACL compiler relies on: the base-key predicate leads the first
      element's filters and every other filter tests columns; every link is a
      single inner reference joined to its context. */
  ghost predicate AclShape(p: Path) {
    && WellFormed(p)
    && p.contextIndex == -1
    && p.elems[0].filters != [] && p.elems[0].filters[0] == BaseKey
    && (forall k | 1 <= k < |p.elems[0].filters| :: PlainFilter(p.elems[0].filters[k]))
    && (forall i, k | 1 <= i < |p.elems| && 0 <= k < |p.elems[i].filters| :: PlainFilter(p.elems[i].filters[k]))
    && (forall i | 1 <= i < |p.elems| ::
          p.elems[i].outer == NotOuter && p.elems[i].link.Some? && p.elems[i].link.value.lalias == None)
  }

  lemma {:induction false} ValidatedIsPlain(m: Tables, p: Path, f: FilterSpec)
    requires p.elems != [] && -1 <= p.contextIndex < |p.elems|
    requires forall a | a in p.aliases :: p.aliases[a] < |p.elems|
    requires Validate(m, p, f).Ok?
    ensures PlainFilter(Validate(m, p, f).value)
    decreases f, 1, 0
  {
    match f
    case NamedTest(_, _, _) =>
    case NotSpec(g) => ValidatedIsPlain(m, p, g);
    case AnySpec(fs) => ValidatedAllPlain(m, p, f, fs);
    case AllSpec(fs) => ValidatedAllPlain(m, p, f, fs);
  }

  lemma {:induction false} ValidatedAllPlain(m: Tables, p: Path, parent: FilterSpec, fs: seq<FilterSpec>)
    requires p.elems != [] && -1 <= p.contextIndex < |p.elems|
    requires forall a | a in p.aliases :: p.aliases[a] < |p.elems|
    requires forall i | 0 <= i < |fs| :: fs[i] < parent
    requires ValidateAll(m, p, parent, fs).Ok?
    ensures forall i | 0 <= i < |fs| :: PlainFilter(ValidateAll(m, p, parent, fs).value[i])
    decreases parent, 0, |fs|
  {
    if fs != [] {
      ValidatedIsPlain(m, p, fs[0]);
      ValidatedAllPlain(m, p, parent, fs[1..]);
    }
  }

  lemma FilteredShape(p: Path, f: Filter)
    requires AclShape(p) && PlainFilter(f) && FilterOk(f, |p.elems|)
    ensures AclShape(Filtered(p, f))
  {
    FilteredWellFormed(p, f);
  }

  lemma LinkedShape(m: Model, p: Path, e: ProjElem)
    requires AclShape(p) && e.JoinElem? && JoinStep(m, p, e).Ok?
    ensures AclShape(JoinStep(m, p, e).value)
    ensures |JoinStep(m, p, e).value.elems| == |p.elems| + 1
  {
    var q := if e.context.Some? then p.(contextIndex := p.aliases[e.context.value]) else p;
    assert WellFormed(q) by {
      forall i | 0 <= i < |q.elems| ensures ElemOk(q, i) { assert ElemOk(p, i); }
    }
    var op := if e.inbound then Inbound else Outbound;
    var kr := FindReference(m, q.elems[Position(q)].table, e.inbound, e.fkey).value;
    LinkedWellFormed(q, kr, op, None, NotOuter);
    var l := Linked(q, kr, op, None, NotOuter);
    if e.alias.Some? {
      AliasedWellFormed(l, e.alias.value);
    }
  }

  /** Every document that compiles yields a path of the expected shape. */
  lemma {:induction false} WalkShape(m: Model, base: TableId, steps: seq<ProjElem>)
    requires Walk(m, base, steps).Ok?
    ensures AclShape(Walk(m, base, steps).value)
    ensures Walk(m, base, steps).value.elems[0].table == base
    decreases |steps|
  {
    if steps == [] {
      BasePathWellFormed(base, Some("base"));
      FilteredWellFormed(BasePath(base, Some("base")), BaseKey);
    } else {
      var front := steps[..|steps| - 1];
      var e := steps[|steps| - 1];
      WalkShape(m, base, front);
      var p := Walk(m, base, front).value;
      match e
      case JoinElem(_, _, _, _) =>
        LinkedShape(m, p, e);
      case FilterElem(spec) =>
        ValidatedIsPlain(m.tables, p, spec);
        FilteredShape(p, Validate(m.tables, p, spec).value);
    }
  }

  lemma AclPathShape(m: Model, base: TableId, doc: Doc)
    requires AclPath(m, base, doc).Ok?
    ensures AclShape(AclPath(m, base, doc).value)
    ensures AclPath(m, base, doc).value.elems[0].table == base
  {
    WalkShape(m, base, doc.steps);
    var p := Walk(m, base, doc.steps).value;
    FilteredShape(p, AclTest(Position(p), doc.column, doc.projection));
  }
}
