/** The fragment of SQL that policies and entity paths compile to: conditions
    over named row instances, three-valued truth, and the scalar subquery
    `(SELECT True FROM ... WHERE ... LIMIT 1)`, with its evaluation. */
module Sql {

  /** SQL truth values; Unknown is what a comparison with NULL yields. */
  datatype Tri = True | Unknown | False

  /** A stored value. Non-null values of one column type are named by their
      rank in that type's total order. */
  datatype Value = Null | Val(n: int)

  type Row = map<string, Value>
  type Env = map<string, Row>

  datatype TableId = TableId(schema: string, name: string)

  /** A row that lacks a column is null-extended there. */
  function Field(r: Row, col: string): Value {
    if col in r then r[col] else Null
  }

  datatype ColRef = ColRef(alias: string, col: string)

  /** An alias that is not in scope reads as NULL here; PostgreSQL refuses the
      whole statement. Conditions are therefore shown to mention only aliases in
      scope before their value is relied on. */
  function Lookup(env: Env, ref: ColRef): Value {
    if ref.alias in env then Field(env[ref.alias], ref.col) else Null
  }

  datatype Cmp = Equal | Less | AtMost | Greater | AtLeast

  /** Tests of a single column. `TestSame` is IS NOT DISTINCT FROM; `TestOther`
      stands for every operator whose meaning is PostgreSQL's business (text
      search, regular expressions, array containment). */
  datatype ColTest =
    | TestNull
    | TestNotNull
    | TestCmp(op: Cmp, v: Value)
    | TestSame(v: Value)
    | TestAny(vs: seq<Value>)
    | TestOther(name: string)

  datatype Cond =
    | Const(b: bool)
    | EqCols(l: ColRef, r: ColRef)
    | Test(t: ColTest, ref: ColRef)
    | Not(c: Cond)
    | And(cs: seq<Cond>)
    | Or(cs: seq<Cond>)
    | CoalesceTrue(c: Cond)
    | Subquery(from: From)

  /** FROM t1 AS a1 JOIN t2 AS a2 ON (c2) ... WHERE c AND d ... */
  datatype From =
    | Join(table: TableId, alias: string, on: Cond, rest: From)
    | Where(cs: seq<Cond>)

  datatype Db = Db(tables: map<TableId, seq<Row>>, other: (string, Value) -> Tri)

  function TableRows(db: Db, t: TableId): seq<Row> {
    if t in db.tables then db.tables[t] else []
  }

  function Truth(b: bool): Tri {
    if b then True else False
  }

  function Negate(t: Tri): Tri {
    match t
    case True => False
    case Unknown => Unknown
    case False => True
  }

  function Compare(op: Cmp, x: Value, y: Value): Tri {
    if x == Null || y == Null then Unknown
    else match op
      case Equal => Truth(x.n == y.n)
      case Less => Truth(x.n < y.n)
      case AtMost => Truth(x.n <= y.n)
      case Greater => Truth(x.n > y.n)
      case AtLeast => Truth(x.n >= y.n)
  }

  function EvalTest(db: Db, t: ColTest, x: Value): Tri {
    match t
    case TestNull => Truth(x == Null)
    case TestNotNull => Truth(x != Null)
    case TestCmp(op, v) => Compare(op, x, v)
    case TestSame(v) => Truth(x == v)
    case TestAny(vs) => if x == Null then Unknown else if x in vs then True else if Null in vs then Unknown else False
    case TestOther(name) => db.other(name, x)
  }

  ghost function Eval(db: Db, env: Env, c: Cond): Tri
    decreases c
  {
    match c
    case Const(b) => Truth(b)
    case EqCols(l, r) => Compare(Equal, Lookup(env, l), Lookup(env, r))
    case Test(t, ref) => EvalTest(db, t, Lookup(env, ref))
    case Not(d) => Negate(Eval(db, env, d))
    case And(cs) =>
      if forall i | 0 <= i < |cs| :: Eval(db, env, cs[i]) == True then True
      else if exists i | 0 <= i < |cs| :: Eval(db, env, cs[i]) == False then False
      else Unknown
    case Or(cs) =>
      if exists i | 0 <= i < |cs| :: Eval(db, env, cs[i]) == True then True
      else if forall i | 0 <= i < |cs| :: Eval(db, env, cs[i]) == False then False
      else Unknown
    case CoalesceTrue(d) => if Eval(db, env, d) == Unknown then True else Eval(db, env, d)
    case Subquery(f) => if HasRow(db, env, f) then True else Unknown
  }

  /** Whether some choice of rows for the remaining FROM items makes every ON
      and WHERE condition True. */
  ghost predicate HasRow(db: Db, env: Env, f: From)
    decreases f
  {
    match f
    case Where(cs) => forall i | 0 <= i < |cs| :: Eval(db, env, cs[i]) == True
    case Join(t, a, on, rest) =>
      exists r | r in TableRows(db, t) :: Eval(db, env[a := r], on) == True && HasRow(db, env[a := r], rest)
  }

  ghost predicate Holds(db: Db, env: Env, c: Cond) {
    Eval(db, env, c) == True
  }

  /** Alias `a` occurs free in the condition: its value can matter. */
  ghost predicate Mentions(c: Cond, a: string) {
    match c
    case Const(_) => false
    case EqCols(l, r) => l.alias == a || r.alias == a
    case Test(_, ref) => ref.alias == a
    case Not(d) => Mentions(d, a)
    case And(cs) => exists i | 0 <= i < |cs| :: Mentions(cs[i], a)
    case Or(cs) => exists i | 0 <= i < |cs| :: Mentions(cs[i], a)
    case CoalesceTrue(d) => Mentions(d, a)
    case Subquery(f) => FromMentions(f, a)
  }

  ghost predicate FromMentions(f: From, a: string) {
    match f
    case Where(cs) => exists i | 0 <= i < |cs| :: Mentions(cs[i], a)
    case Join(_, b, on, rest) => a != b && (Mentions(on, a) || FromMentions(rest, a))
  }

  predicate SameAt(e1: Env, e2: Env, a: string) {
    (a in e1 <==> a in e2) && (a in e1 ==> e1[a] == e2[a])
  }

  /** A condition's value depends only on the aliases it mentions. */
  lemma {:induction false} EvalDependsOnMentioned(db: Db, e1: Env, e2: Env, c: Cond)
    requires forall a | Mentions(c, a) :: SameAt(e1, e2, a)
    ensures Eval(db, e1, c) == Eval(db, e2, c)
    decreases c
  {
    match c
    case Const(_) =>
    case EqCols(l, r) => assert SameAt(e1, e2, l.alias) && SameAt(e1, e2, r.alias);
    case Test(_, ref) => assert SameAt(e1, e2, ref.alias);
    case Not(d) => EvalDependsOnMentioned(db, e1, e2, d);
    case CoalesceTrue(d) => EvalDependsOnMentioned(db, e1, e2, d);
    case And(cs) =>
      forall i | 0 <= i < |cs| ensures Eval(db, e1, cs[i]) == Eval(db, e2, cs[i]) {
        EvalDependsOnMentioned(db, e1, e2, cs[i]);
      }
    case Or(cs) =>
      forall i | 0 <= i < |cs| ensures Eval(db, e1, cs[i]) == Eval(db, e2, cs[i]) {
        EvalDependsOnMentioned(db, e1, e2, cs[i]);
      }
    case Subquery(f) => HasRowDependsOnMentioned(db, e1, e2, f);
  }

  lemma {:induction false} HasRowDependsOnMentioned(db: Db, e1: Env, e2: Env, f: From)
    requires forall a | FromMentions(f, a) :: SameAt(e1, e2, a)
    ensures HasRow(db, e1, f) == HasRow(db, e2, f)
    decreases f
  {
    match f
    case Where(cs) =>
      forall i | 0 <= i < |cs| ensures Eval(db, e1, cs[i]) == Eval(db, e2, cs[i]) {
        EvalDependsOnMentioned(db, e1, e2, cs[i]);
      }
    case Join(t, b, on, rest) =>
      forall r | r in TableRows(db, t)
        ensures Eval(db, e1[b := r], on) == Eval(db, e2[b := r], on)
        ensures HasRow(db, e1[b := r], rest) == HasRow(db, e2[b := r], rest)
      {
        forall a | Mentions(on, a) || FromMentions(rest, a)
          ensures SameAt(e1[b := r], e2[b := r], a)
        {
          assert a != b ==> FromMentions(f, a);
          assert a != b ==> SameAt(e1, e2, a);
        }
        EvalDependsOnMentioned(db, e1[b := r], e2[b := r], on);
        HasRowDependsOnMentioned(db, e1[b := r], e2[b := r], rest);
      }
  }

  /** An OR is True exactly when some disjunct is; an AND when all are. */
  lemma AndOrTrue(db: Db, env: Env, cs: seq<Cond>)
    ensures Holds(db, env, Or(cs)) <==> exists i | 0 <= i < |cs| :: Holds(db, env, cs[i])
    ensures Holds(db, env, And(cs)) <==> forall i | 0 <= i < |cs| :: Holds(db, env, cs[i])
  {
  }

  function NotEach(cs: seq<Cond>): seq<Cond> {
    seq(|cs|, i requires 0 <= i < |cs| => Not(cs[i]))
  }

  lemma NotEachNegates(db: Db, env: Env, cs: seq<Cond>)
    ensures forall i | 0 <= i < |cs| :: Eval(db, env, NotEach(cs)[i]) == Negate(Eval(db, env, cs[i]))
  {
    forall i | 0 <= i < |cs| ensures Eval(db, env, NotEach(cs)[i]) == Negate(Eval(db, env, cs[i])) {
      assert NotEach(cs)[i] == Not(cs[i]);
    }
  }

  /** Negation turns OR into AND, ... */
  lemma NotAny(db: Db, env: Env, cs: seq<Cond>)
    ensures Eval(db, env, Not(Or(cs))) == Eval(db, env, And(NotEach(cs)))
  {
    NotEachNegates(db, env, cs);
  }

  /** ... and back, with NULLs as without. */
  lemma NotAll(db: Db, env: Env, cs: seq<Cond>)
    ensures Eval(db, env, Not(And(cs))) == Eval(db, env, Or(NotEach(cs)))
  {
    NotEachNegates(db, env, cs);
  }

  /** A comparison is Unknown exactly if a side is NULL; otherwise the
      operators split the pairs of values as the order does. */
  lemma CompareExactly(op: Cmp, x: Value, y: Value)
    ensures Compare(op, x, y) == Unknown <==> x == Null || y == Null
    ensures x != Null && y != Null ==>
      && (Compare(Equal, x, y) == True <==> x == y)
      && (Compare(AtMost, x, y) == True <==> Compare(Less, x, y) == True || x == y)
      && (Compare(AtLeast, x, y) == True <==> Compare(Greater, x, y) == True || x == y)
      && (Compare(Less, x, y) == True <==> Compare(Greater, y, x) == True)
      && (Compare(Less, x, y) == True <==> Compare(AtLeast, x, y) == False)
  {
  }

  /** What the tests of a column say of a value. */
  lemma TestsExactly(db: Db, x: Value, v: Value, vs: seq<Value>)
    ensures EvalTest(db, TestNull, x) == Truth(x == Null) && EvalTest(db, TestNotNull, x) == Truth(x != Null)
    ensures EvalTest(db, TestSame(v), x) == Truth(x == v)
    ensures EvalTest(db, TestAny(vs), x) == True <==> x != Null && x in vs
    ensures EvalTest(db, TestAny(vs), x) == False <==> x != Null && x !in vs && Null !in vs
  {
  }
}
