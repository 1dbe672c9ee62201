/** Entity paths: the elements a URL path or an ACL projection walks through,
    the builder that grows a path, and the conditions its elements compile to. */
module Paths {
  import opened Wrappers
  import opened Sql
  import opened Aliases

  // ---------------------------------------------------------------- model

  datatype ColumnDef = ColumnDef(name: string, nullok: bool)

  /** `uniques` lists the key column sets in the model's iteration order. */
  datatype TableDef = TableDef(columns: seq<ColumnDef>, uniques: seq<seq<string>>)

  type Tables = map<TableId, TableDef>

  predicate HasColumn(t: TableDef, col: string) {
    exists i | 0 <= i < |t.columns| :: t.columns[i].name == col
  }

  predicate NullOk(t: TableDef, col: string) {
    exists i | 0 <= i < |t.columns| :: t.columns[i].name == col && t.columns[i].nullok
  }

  /** `Unique.is_primary_key` */
  predicate IsPrimaryKey(t: TableDef, key: seq<string>) {
    key != [] && forall i | 0 <= i < |key| :: !NullOk(t, key[i])
  }

  /** Columns are found wherever they stand; a primary key is a non-empty key
      none of whose columns is nullable. */
  lemma ColumnFacts(t: TableDef, col: string, key: seq<string>)
    ensures HasColumn(t, col) <==> exists c :: c in t.columns && c.name == col
    ensures NullOk(t, col) <==> exists c :: c in t.columns && c.name == col && c.nullok
    ensures IsPrimaryKey(t, key) <==>
      key != [] && forall c, k :: c in t.columns && k in key && c.name == k ==> !c.nullok
  {
    if c :| c in t.columns && c.name == col {
      var i :| 0 <= i < |t.columns| && t.columns[i] == c;
    }
    if c :| c in t.columns && c.name == col && c.nullok {
      var i :| 0 <= i < |t.columns| && t.columns[i] == c;
    }
    if IsPrimaryKey(t, key) {
      forall c, k | c in t.columns && k in key && c.name == k ensures !c.nullok {
        var i :| 0 <= i < |key| && key[i] == k;
        var j :| 0 <= j < |t.columns| && t.columns[j] == c;
      }
    }
    if key != [] && forall c, k :: c in t.columns && k in key && c.name == k ==> !c.nullok {
      forall i | 0 <= i < |key| ensures !NullOk(t, key[i]) {
        assert key[i] in key && forall j | 0 <= j < |t.columns| :: t.columns[j] in t.columns;
      }
    }
  }

  // ------------------------------------------------------------ references

  /** `Outbound` is '=@' (left refers to right), `Inbound` is '@='. */
  datatype RefOp = Outbound | Inbound

  /** A reference as a list of (referring, referred) column pairs, or several
      references offered as alternatives. */
  datatype KeyRef =
    | KeyRef(fkTable: TableId, pkTable: TableId, refmap: seq<(string, string)>)
    | MultiRef(ltable: TableId, rtable: TableId, links: seq<MultiLink>)

  /** One alternative; it is visible with the right to enumerate it. */
  datatype MultiLink = MultiLink(keyref: KeyRef, refop: RefOp, visible: bool)

  function VisibleLinks(links: seq<MultiLink>): (r: seq<MultiLink>)
    ensures forall l :: l in r <==> l in links && l.visible
  {
    if links == [] then []
    else (if links[0].visible then [links[0]] else []) + VisibleLinks(links[1..])
  }

  function RightTable(kr: KeyRef, op: RefOp): TableId {
    match kr
    case KeyRef(fk, pk, _) => if op == Inbound then fk else pk
    case MultiRef(l, r, _) => if op == Inbound then l else r
  }

  function JoinSql(kr: KeyRef, op: RefOp, l: string, r: string): Cond {
    match kr
    case KeyRef(_, _, refmap) =>
      And(seq(|refmap|, i requires 0 <= i < |refmap| =>
        if op == Outbound then EqCols(ColRef(l, refmap[i].0), ColRef(r, refmap[i].1))
        else EqCols(ColRef(l, refmap[i].1), ColRef(r, refmap[i].0))))
    case MultiRef(_, _, links) =>
      var visible := VisibleLinks(links);
      Or(seq(|visible|, i requires 0 <= i < |visible| =>
        assert visible[i] in links; JoinSql(visible[i].keyref, visible[i].refop, l, r)))
  }

  // --------------------------------------------------------------- filters

  datatype Projection = AclText | AclTextArray | NonNull

  /** Filters after validation: each column is tied to the position of the path
      element it belongs to. */
  datatype Filter =
    | BaseKey
    | BaseJoin(refop: RefOp)
    | AclTest(elem: nat, col: string, projection: Projection)
    | ColumnTest(elem: nat, col: string, test: ColTest)
    | Negation(f: Filter)
    | Disjunction(fs: seq<Filter>)
    | Conjunction(fs: seq<Filter>)

  /** Filters as written: a column name, optionally qualified by an alias. */
  datatype FilterSpec =
    | NamedTest(qualifier: Option<string>, col: string, test: ColTest)
    | NotSpec(f: FilterSpec)
    | AnySpec(fs: seq<FilterSpec>)
    | AllSpec(fs: seq<FilterSpec>)

  // -------------------------------------------------------------- elements

  datatype OuterType = NotOuter | LeftOuter | RightOuter | FullOuter

  datatype Link = Link(keyref: KeyRef, refop: RefOp, lalias: Option<string>)

  datatype Elem = Elem(
    table: TableId,
    pos: nat,
    link: Option<Link>,
    contextPos: int,
    outer: OuterType,
    filters: seq<Filter>)

  /** `contextIndex` is -1 for "the last element" or an explicit position. */
  datatype Path = Path(elems: seq<Elem>, contextIndex: int, aliases: map<string, nat>)

  datatype PathError = Misuse | BadData | Conflict | Unbound | Denied

  ghost predicate FilterOk(f: Filter, n: nat) {
    match f
    case BaseKey => true
    case BaseJoin(_) => true
    case AclTest(e, _, _) => e < n
    case ColumnTest(e, _, _) => e < n
    case Negation(g) => FilterOk(g, n)
    case Disjunction(fs) => forall i | 0 <= i < |fs| :: FilterOk(fs[i], n)
    case Conjunction(fs) => forall i | 0 <= i < |fs| :: FilterOk(fs[i], n)
  }

  ghost predicate FiltersOk(fs: seq<Filter>, n: nat) {
    forall i | 0 <= i < |fs| :: FilterOk(fs[i], n)
  }

  /** What every run of the builder keeps: positions are indices, and every
      context and alias an element was linked by is an earlier element. */
  ghost predicate WellFormed(p: Path) {
    && |p.elems| > 0
    && -1 <= p.contextIndex < |p.elems|
    && p.elems[0].link == None
    && p.elems[0].outer == NotOuter
    && (forall a | a in p.aliases :: p.aliases[a] < |p.elems|)
    && (forall i | 0 <= i < |p.elems| :: ElemOk(p, i))
  }

  ghost predicate ElemOk(p: Path, i: nat)
    requires i < |p.elems|
  {
    var e := p.elems[i];
    && e.pos == i
    && FiltersOk(e.filters, |p.elems|)
    && -1 <= e.contextPos < i
    && (i > 0 ==>
      && e.link.Some?
      && 0 <= e.contextPos
      && (e.link.value.lalias.Some? ==>
            e.link.value.lalias.value in p.aliases && p.aliases[e.link.value.lalias.value] < i))
  }

  function Position(p: Path): nat
    requires p.elems != [] && -1 <= p.contextIndex < |p.elems|
  {
    if p.contextIndex == -1 then |p.elems| - 1 else p.contextIndex
  }

  // --------------------------------------------------------------- builder

  function BasePath(table: TableId, alias: Option<string>): Path {
    Path([Elem(table, 0, None, -1, NotOuter, [])], -1, if alias.Some? then map[alias.value := 0] else map[])
  }

  function Linked(p: Path, keyref: KeyRef, refop: RefOp, lalias: Option<string>, outer: OuterType): Path
    requires p.elems != [] && -1 <= p.contextIndex < |p.elems|
  {
    var e := Elem(RightTable(keyref, refop), |p.elems|, Some(Link(keyref, refop, lalias)),
                  Position(p), outer, []);
    p.(elems := p.elems + [e], contextIndex := -1)
  }

  /** `Name.validate` for one- and two-part names. */
  function ResolveColumn(m: Tables, p: Path, qualifier: Option<string>, col: string): Result<nat, PathError>
    requires p.elems != [] && -1 <= p.contextIndex < |p.elems|
    requires forall a | a in p.aliases :: p.aliases[a] < |p.elems|
  {
    match qualifier
    case None =>
      var t := p.elems[Position(p)].table;
      if t in m && HasColumn(m[t], col) then Ok(Position(p)) else Err(Conflict)
    case Some(a) =>
      if a !in p.aliases then Err(Conflict)
      else
        var t := p.elems[p.aliases[a]].table;
        if t in m && HasColumn(m[t], col) then Ok(p.aliases[a]) else Err(Conflict)
  }

  function Validate(m: Tables, p: Path, f: FilterSpec): (r: Result<Filter, PathError>)
    requires p.elems != [] && -1 <= p.contextIndex < |p.elems|
    requires forall a | a in p.aliases :: p.aliases[a] < |p.elems|
    ensures r.Ok? ==> FilterOk(r.value, |p.elems|)
    decreases f, 1, 0
  {
    match f
    case NamedTest(q, col, test) =>
      (match ResolveColumn(m, p, q, col)
       case Ok(pos) => Ok(ColumnTest(pos, col, test))
       case Err(e) => Err(e))
    case NotSpec(g) =>
      (match Validate(m, p, g)
       case Ok(v) => Ok(Negation(v))
       case Err(e) => Err(e))
    case AnySpec(fs) =>
      (match ValidateAll(m, p, f, fs)
       case Ok(vs) => Ok(Disjunction(vs))
       case Err(e) => Err(e))
    case AllSpec(fs) =>
      (match ValidateAll(m, p, f, fs)
       case Ok(vs) => Ok(Conjunction(vs))
       case Err(e) => Err(e))
  }

  function ValidateAll(m: Tables, p: Path, ghost parent: FilterSpec,
      fs: seq<FilterSpec>): (r: Result<seq<Filter>, PathError>)
    requires p.elems != [] && -1 <= p.contextIndex < |p.elems|
    requires forall a | a in p.aliases :: p.aliases[a] < |p.elems|
    requires forall i | 0 <= i < |fs| :: fs[i] < parent
    ensures r.Ok? ==> |r.value| == |fs| && FiltersOk(r.value, |p.elems|)
    decreases parent, 0, |fs|
  {
    if fs == [] then Ok([])
    else
      match Validate(m, p, fs[0])
      case Err(e) => Err(e)
      case Ok(v) =>
        match ValidateAll(m, p, parent, fs[1..])
        case Err(e) => Err(e)
        case Ok(vs) => Ok([v] + vs)
  }

  function Filtered(p: Path, f: Filter): Path
    requires p.elems != [] && -1 <= p.contextIndex < |p.elems|
  {
    var e := p.elems[Position(p)];
    p.(elems := p.elems[Position(p) := e.(filters := e.filters + [f])])
  }

  lemma BasePathWellFormed(table: TableId, alias: Option<string>)
    ensures WellFormed(BasePath(table, alias))
  {
  }

  lemma {:induction false} FilterOkMonotone(f: Filter, m: nat, n: nat)
    requires FilterOk(f, m) && m <= n
    ensures FilterOk(f, n)
  {
    match f
    case Negation(g) => FilterOkMonotone(g, m, n);
    case Disjunction(fs) => forall i | 0 <= i < |fs| { FilterOkMonotone(fs[i], m, n); }
    case Conjunction(fs) => forall i | 0 <= i < |fs| { FilterOkMonotone(fs[i], m, n); }
    case _ =>
  }

  lemma LinkedWellFormed(p: Path, keyref: KeyRef, refop: RefOp, lalias: Option<string>, outer: OuterType)
    requires WellFormed(p)
    requires lalias.Some? ==> lalias.value in p.aliases
    ensures WellFormed(Linked(p, keyref, refop, lalias, outer))
  {
    var q := Linked(p, keyref, refop, lalias, outer);
    forall i | 0 <= i < |q.elems| ensures ElemOk(q, i) {
      if i < |p.elems| {
        assert ElemOk(p, i) && q.elems[i] == p.elems[i];
        forall k | 0 <= k < |q.elems[i].filters| {
          FilterOkMonotone(q.elems[i].filters[k], |p.elems|, |q.elems|);
        }
      }
    }
  }

  lemma AliasedWellFormed(p: Path, alias: string)
    requires WellFormed(p) && alias !in p.aliases
    ensures WellFormed(p.(aliases := p.aliases[alias := |p.elems| - 1]))
  {
    var q := p.(aliases := p.aliases[alias := |p.elems| - 1]);
    forall i | 0 <= i < |q.elems| ensures ElemOk(q, i) {
      assert ElemOk(p, i);
    }
  }

  lemma FilteredWellFormed(p: Path, f: Filter)
    requires WellFormed(p) && FilterOk(f, |p.elems|)
    ensures WellFormed(Filtered(p, f))
  {
    var q := Filtered(p, f);
    forall i | 0 <= i < |q.elems| ensures ElemOk(q, i) {
      assert ElemOk(p, i);
    }
  }

  /** The builder object, updated in place. */
  class EntityPath {
    const model: Tables
    var elems: seq<Elem>
    var contextIndex: int
    var aliases: map<string, nat>

    constructor (model: Tables)
      ensures this.model == model && Value() == Path([], -1, map[])
    {
      this.model := model;
      elems, contextIndex, aliases := [], -1, map[];
    }

    function Value(): Path
      reads this
    {
      Path(elems, contextIndex, aliases)
    }

    ghost predicate Valid()
      reads this
    {
      WellFormed(Value())
    }

    method SetBaseEntity(table: TableId, alias: Option<string>) returns (error: Option<PathError>)
      requires (elems == [] && aliases == map[]) || Valid()
      modifies this
      ensures error == None <==> old(elems) == []
      ensures error == None ==> Valid() && Value() == BasePath(table, alias)
      ensures error != None ==> Value() == old(Value())
    {
      if elems != [] {
        return Some(Misuse);
      }
      elems := [Elem(table, 0, None, -1, NotOuter, [])];
      contextIndex := -1;
      if alias.Some? {
        aliases := aliases[alias.value := 0];
      }
      assert Value() == BasePath(table, alias);
      BasePathWellFormed(table, alias);
      error := None;
    }

    method SetContext(alias: string) returns (error: Option<PathError>)
      requires Valid()
      modifies this
      ensures Valid()
      ensures error == None <==> alias in old(aliases)
      ensures Value() == if alias in old(aliases) then old(Value()).(contextIndex := old(aliases)[alias])
        else old(Value())
    {
      if alias !in aliases {
        return Some(Unbound);
      }
      contextIndex := aliases[alias];
      forall i | 0 <= i < |elems| ensures ElemOk(Value(), i) {
        assert old(ElemOk(Value(), i));
      }
      error := None;
    }

    method AddFilter(f: FilterSpec) returns (error: Option<PathError>)
      requires Valid()
      modifies this
      ensures Valid()
      ensures error == None <==> Validate(model, old(Value()), f).Ok?
      ensures error == None ==> Value() == Filtered(old(Value()), Validate(model, old(Value()), f).value)
      ensures error != None ==> Value() == old(Value())
    {
      match Validate(model, Value(), f)
      case Err(e) =>
        error := Some(e);
      case Ok(v) =>
        FilteredWellFormed(Value(), v);
        var i := if contextIndex == -1 then |elems| - 1 else contextIndex;
        elems := elems[i := elems[i].(filters := elems[i].filters + [v])];
        error := None;
    }

    /** Adds one of the ACL compiler's own predicates, which resolve no name. */
    method AddAclFilter(f: Filter)
      requires Valid() && FilterOk(f, |elems|)
      modifies this
      ensures Valid() && Value() == Filtered(old(Value()), f)
    {
      FilteredWellFormed(Value(), f);
      var i := if contextIndex == -1 then |elems| - 1 else contextIndex;
      elems := elems[i := elems[i].(filters := elems[i].filters + [f])];
    }

    /** `selectable` is the outcome of enforcing 'select' on the linked table.
        A left alias is one that name resolution found bound in this path. */
    method AddLink(keyref: KeyRef, refop: RefOp, ralias: Option<string>, lalias: Option<string>,
                   outer: OuterType, selectable: bool) returns (error: Option<PathError>)
      requires elems == [] || Valid()
      requires lalias.Some? ==> lalias.value in aliases
      modifies this
      ensures error == None <==>
              old(elems) != [] && selectable && (ralias.Some? ==> ralias.value !in old(aliases))
      ensures error == None ==> Valid()
      ensures error == None ==>
        var l := Linked(old(Value()), keyref, refop, lalias, outer);
        Value() == if ralias.Some? then l.(aliases := l.aliases[ralias.value := |old(elems)|]) else l
      ensures old(elems) <= elems && forall a | a in old(aliases) :: a in aliases && aliases[a] == old(aliases)[a]
    {
      if elems == [] {
        return Some(Misuse);
      }
      var rpos := |elems|;
      var rtable := RightTable(keyref, refop);
      if !selectable {
        return Some(Denied);
      }
      LinkedWellFormed(Value(), keyref, refop, lalias, outer);
      var rcontext := if contextIndex >= 0 then contextIndex else rpos - 1;
      elems := elems + [Elem(rtable, rpos, Some(Link(keyref, refop, lalias)), rcontext, outer, [])];
      contextIndex := -1;
      assert Value() == Linked(old(Value()), keyref, refop, lalias, outer);
      if ralias.Some? {
        if ralias.value in aliases {
          return Some(BadData);
        }
        AliasedWellFormed(Value(), ralias.value);
        aliases := aliases[ralias.value := rpos];
      }
      error := None;
    }
  }

  // --------------------------------------------------- compiled conditions

  /** The element an ON clause joins element `e` to. */
  function LeftPos(p: Path, e: Elem): int {
    if e.link.Some? && e.link.value.lalias.Some? && e.link.value.lalias.value in p.aliases
    then p.aliases[e.link.value.lalias.value] else e.contextPos
  }

  function OnCond(p: Path, e: Elem, prefix: string): Cond {
    if e.link == None || LeftPos(p, e) < 0 then Const(true)
    else JoinSql(e.link.value.keyref, e.link.value.refop, Alias(prefix, LeftPos(p, e)), Alias(prefix, e.pos))
  }

  /** The first key of the table with no nullable column. */
  function BaseKeyColumns(m: Tables, t: TableId): seq<string> {
    if t in m then FirstNonNullKey(m[t], m[t].uniques) else []
  }

  function FirstNonNullKey(t: TableDef, keys: seq<seq<string>>): seq<string> {
    if keys == [] then []
    else if IsPrimaryKey(t, keys[0]) then keys[0]
    else FirstNonNullKey(t, keys[1..])
  }

  /** The base key is the first of the table's keys that is primary, if any is. */
  lemma {:induction false} FirstNonNullKeyExactly(t: TableDef, keys: seq<seq<string>>)
    ensures var key := FirstNonNullKey(t, keys);
      if key == [] then forall i | 0 <= i < |keys| :: !IsPrimaryKey(t, keys[i])
      else exists i | 0 <= i < |keys| ::
        keys[i] == key && IsPrimaryKey(t, key) && forall j | 0 <= j < i :: !IsPrimaryKey(t, keys[j])
  {
    if keys != [] && !IsPrimaryKey(t, keys[0]) {
      FirstNonNullKeyExactly(t, keys[1..]);
      var key := FirstNonNullKey(t, keys);
      assert forall i | 1 <= i < |keys| :: keys[i] == keys[1..][i - 1];
      if key != [] {
        var i :| 0 <= i < |keys[1..]| && keys[1..][i] == key && IsPrimaryKey(t, key)
          && forall j | 0 <= j < i :: !IsPrimaryKey(t, keys[1..][j]);
        assert keys[i + 1] == key && forall j | 0 <= j < i + 1 :: !IsPrimaryKey(t, keys[j]);
      }
    }
  }

  /** `attrs` are the client's attribute ids and the wildcard. */
  function ProjectionTest(projection: Projection, attrs: seq<Value>): ColTest {
    match projection
    case AclText => TestAny(attrs)
    case AclTextArray => TestOther("&& attributes")
    case NonNull => TestNotNull
  }

  function FilterSql(m: Tables, attrs: seq<Value>, e: Elem, f: Filter, prefix: string): Cond
    decreases f
  {
    match f
    case BaseKey =>
      var key := BaseKeyColumns(m, e.table);
      And(seq(|key|, i requires 0 <= i < |key| =>
        EqCols(ColRef(prefix, key[i]), ColRef(Alias(prefix, 0), key[i]))))
    case BaseJoin(op) =>
      if e.link == None then Const(true)
      else JoinSql(e.link.value.keyref, op, prefix, Alias(prefix, e.pos))
    case AclTest(pos, col, projection) =>
      Test(ProjectionTest(projection, attrs), ColRef(Alias(prefix, pos), col))
    case ColumnTest(pos, col, test) => Test(test, ColRef(Alias(prefix, pos), col))
    case Negation(g) => Not(FilterSql(m, attrs, e, g, prefix))
    case Disjunction(fs) => Or(seq(|fs|, i requires 0 <= i < |fs| => FilterSql(m, attrs, e, fs[i], prefix)))
    case Conjunction(fs) => And(seq(|fs|, i requires 0 <= i < |fs| => FilterSql(m, attrs, e, fs[i], prefix)))
  }

  function ElemWheres(m: Tables, attrs: seq<Value>, e: Elem, prefix: string): seq<Cond> {
    seq(|e.filters|, i requires 0 <= i < |e.filters| => FilterSql(m, attrs, e, e.filters[i], prefix))
  }

  function PathWheres(m: Tables, attrs: seq<Value>, elems: seq<Elem>, prefix: string): seq<Cond> {
    if elems == [] then []
    else ElemWheres(m, attrs, elems[0], prefix) + PathWheres(m, attrs, elems[1..], prefix)
  }

  // ----------------------------------------------------------------- scope

  lemma {:induction false} JoinSqlMentions(kr: KeyRef, op: RefOp, l: string, r: string, a: string)
    requires Mentions(JoinSql(kr, op, l, r), a)
    ensures a == l || a == r
    decreases kr
  {
    match kr
    case KeyRef(_, _, _) =>
    case MultiRef(_, _, links) =>
      var cs := JoinSql(kr, op, l, r).cs;
      var i :| 0 <= i < |cs| && Mentions(cs[i], a);
      var visible := VisibleLinks(links);
      assert visible[i] in links;
      JoinSqlMentions(visible[i].keyref, visible[i].refop, l, r, a);
  }

  /** Every ON clause of a path built without error mentions its own element
      and one earlier element, so only aliases already in scope there. */
  lemma OnClauseInScope(p: Path, i: nat, prefix: string, a: string)
    requires WellFormed(p) && i < |p.elems|
    requires Mentions(OnCond(p, p.elems[i], prefix), a)
    ensures 0 <= LeftPos(p, p.elems[i]) < i
    ensures a == Alias(prefix, LeftPos(p, p.elems[i])) || a == Alias(prefix, i)
  {
    assert ElemOk(p, i);
    var e := p.elems[i];
    if e.link.Some? {
      JoinSqlMentions(e.link.value.keyref, e.link.value.refop, Alias(prefix, LeftPos(p, e)), Alias(prefix, e.pos), a);
    }
  }

  ghost predicate PlainFilter(f: Filter) {
    match f
    case BaseKey => false
    case BaseJoin(_) => false
    case Negation(g) => PlainFilter(g)
    case Disjunction(fs) => forall i | 0 <= i < |fs| :: PlainFilter(fs[i])
    case Conjunction(fs) => forall i | 0 <= i < |fs| :: PlainFilter(fs[i])
    case _ => true
  }

  /** The element positions a filter names. */
  ghost predicate NamesElem(f: Filter, pos: nat) {
    match f
    case BaseKey => false
    case BaseJoin(_) => false
    case AclTest(e, _, _) => e == pos
    case ColumnTest(e, _, _) => e == pos
    case Negation(g) => NamesElem(g, pos)
    case Disjunction(fs) => exists i | 0 <= i < |fs| :: NamesElem(fs[i], pos)
    case Conjunction(fs) => exists i | 0 <= i < |fs| :: NamesElem(fs[i], pos)
  }

  lemma {:induction false} MentionedIsNamed(m: Tables, attrs: seq<Value>, e: Elem, f: Filter, prefix: string, a: string)
    returns (pos: nat)
    requires PlainFilter(f)
    requires Mentions(FilterSql(m, attrs, e, f, prefix), a)
    ensures NamesElem(f, pos) && a == Alias(prefix, pos)
    decreases f
  {
    var c := FilterSql(m, attrs, e, f, prefix);
    match f
    case AclTest(k, _, _) => pos := k;
    case ColumnTest(k, _, _) => pos := k;
    case Negation(g) => pos := MentionedIsNamed(m, attrs, e, g, prefix, a);
    case Disjunction(fs) =>
      var i :| 0 <= i < |fs| && Mentions(c.cs[i], a);
      pos := MentionedIsNamed(m, attrs, e, fs[i], prefix, a);
    case Conjunction(fs) =>
      var i :| 0 <= i < |fs| && Mentions(c.cs[i], a);
      pos := MentionedIsNamed(m, attrs, e, fs[i], prefix, a);
  }

  lemma {:induction false} NamedIsMentioned(m: Tables, attrs: seq<Value>, e: Elem, f: Filter, prefix: string, pos: nat)
    requires NamesElem(f, pos)
    ensures Mentions(FilterSql(m, attrs, e, f, prefix), Alias(prefix, pos))
    decreases f
  {
    var c := FilterSql(m, attrs, e, f, prefix);
    match f
    case Negation(g) => NamedIsMentioned(m, attrs, e, g, prefix, pos);
    case Disjunction(fs) =>
      var i :| 0 <= i < |fs| && NamesElem(fs[i], pos);
      NamedIsMentioned(m, attrs, e, fs[i], prefix, pos);
      assert c.cs[i] == FilterSql(m, attrs, e, fs[i], prefix);
    case Conjunction(fs) =>
      var i :| 0 <= i < |fs| && NamesElem(fs[i], pos);
      NamedIsMentioned(m, attrs, e, fs[i], prefix, pos);
      assert c.cs[i] == FilterSql(m, attrs, e, fs[i], prefix);
    case _ =>
  }

  /** A filter's condition mentions exactly the aliases of the elements it names. */
  lemma FilterMentions(m: Tables, attrs: seq<Value>, e: Elem, f: Filter, prefix: string, a: string)
    requires PlainFilter(f)
    ensures Mentions(FilterSql(m, attrs, e, f, prefix), a) <==>
            exists pos: nat :: NamesElem(f, pos) && a == Alias(prefix, pos)
  {
    if Mentions(FilterSql(m, attrs, e, f, prefix), a) {
      var pos := MentionedIsNamed(m, attrs, e, f, prefix, a);
    }
    if pos: nat :| NamesElem(f, pos) && a == Alias(prefix, pos) {
      NamedIsMentioned(m, attrs, e, f, prefix, pos);
    }
  }

  lemma {:induction false} FilterNamesInPath(f: Filter, n: nat, pos: nat)
    requires FilterOk(f, n) && NamesElem(f, pos)
    ensures pos < n
  {
    match f
    case Negation(g) => FilterNamesInPath(g, n, pos);
    case Disjunction(fs) => var i :| 0 <= i < |fs| && NamesElem(fs[i], pos); FilterNamesInPath(fs[i], n, pos);
    case Conjunction(fs) => var i :| 0 <= i < |fs| && NamesElem(fs[i], pos); FilterNamesInPath(fs[i], n, pos);
    case _ =>
  }
}
