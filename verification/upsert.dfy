/** PUT of entities: input rows update the stored rows that have their key,
    and the rest are inserted where they collide with nothing. */
module Upsert {
  import opened Wrappers
  import opened Sql

  datatype Column = Column(name: string, nullok: bool)

  /** A table: its columns, its unique keys, and its other row constraints. */
  datatype Def = Def(columns: seq<Column>, keys: set<set<string>>, check: Row -> bool)

  /** What the server fills in: the time and the client. */
  datatype Context = Context(now: Value, client: Value)

  const SYSTEM_COLNAMES := {"RID", "RCT", "RMT", "RCB", "RMB"}

  // ---------------------------------------------------------------------
  // Metakey columns
  // ---------------------------------------------------------------------

  predicate InSomeKey(def: Def, c: string) {
    exists k | k in def.keys :: c in k
  }

  predicate IsMkCol(def: Def, c: Column) {
    InSomeKey(def, c.name) && c.name !in SYSTEM_COLNAMES
  }

  /** A client-managed column outside all keys. */
  predicate IsNmkCol(def: Def, c: Column) {
    NmkName(def, c.name)
  }

  function Names(def: Def): set<string> {
    set c | c in def.columns :: c.name
  }

  function Select(cs: seq<Column>, p: Column -> bool): seq<Column> {
    if cs == [] then [] else (if p(cs[0]) then [cs[0]] else []) + Select(cs[1..], p)
  }

  /** The metakey: client-managed columns of all unique keys together. */
  function MkCols(def: Def): seq<Column> {
    Select(def.columns, c => IsMkCol(def, c))
  }

  lemma {:induction false} SelectMembers(cs: seq<Column>, p: Column -> bool)
    ensures forall c :: c in Select(cs, p) <==> c in cs && p(c)
  {
    if cs != [] {
      SelectMembers(cs[1..], p);
    }
  }

  /** A key made only of client-managed columns. */
  predicate ClientKey(k: set<string>) {
    k !! SYSTEM_COLNAMES
  }

  predicate DistinctNames(cs: seq<Column>) {
    forall i, j | 0 <= i < j < |cs| :: cs[i].name != cs[j].name
  }

  /** Keys are non-empty sets of the table's columns. */
  predicate ValidDef(def: Def) {
    && (forall k | k in def.keys :: k != {} && k <= Names(def))
    && DistinctNames(def.columns)
  }

  // ---------------------------------------------------------------------
  // Matching input against stored rows
  // ---------------------------------------------------------------------

  function KeyMatchColumn(c: Column): Cond {
    var t, i := ColRef("t", c.name), ColRef("i", c.name);
    if c.nullok then Or([EqCols(t, i), And([Test(TestNull, t), Test(TestNull, i)])]) else EqCols(t, i)
  }

  /** The condition `t.k = i.k [OR both NULL] AND ...` */
  function KeyMatch(mk: seq<Column>): Cond {
    And(seq(|mk|, n requires 0 <= n < |mk| => KeyMatchColumn(mk[n])))
  }

  predicate SameColumn(c: Column, t: Row, i: Row) {
    Field(t, c.name) == Field(i, c.name) && (Field(i, c.name) == Null ==> c.nullok)
  }

  /** The two rows agree on the metakey, NULL counting as a value in nullable
      columns. */
  predicate Matches(def: Def, t: Row, i: Row) {
    forall c | c in MkCols(def) :: SameColumn(c, t, i)
  }

  ghost function Pair(t: Row, i: Row): Env {
    map["t" := t, "i" := i]
  }

  lemma ColumnMatch(db: Db, c: Column, t: Row, i: Row)
    ensures Holds(db, Pair(t, i), KeyMatchColumn(c)) <==> SameColumn(c, t, i)
  {
    var env, tc, ic := Pair(t, i), ColRef("t", c.name), ColRef("i", c.name);
    assert Lookup(env, tc) == Field(t, c.name) && Lookup(env, ic) == Field(i, c.name);
    if c.nullok {
      var both := [Test(TestNull, tc), Test(TestNull, ic)];
      var either := [EqCols(tc, ic), And(both)];
      AndOrTrue(db, env, both);
      AndOrTrue(db, env, either);
      assert Holds(db, env, both[0]) <==> Field(t, c.name) == Null;
      assert Holds(db, env, both[1]) <==> Field(i, c.name) == Null;
      assert Holds(db, env, either[0]) <==> Field(t, c.name) == Field(i, c.name) != Null;
      assert Holds(db, env, either[1]) <==> Field(t, c.name) == Null && Field(i, c.name) == Null;
    }
  }

  /** The compiled condition is True exactly for rows with the same metakey. */
  lemma KeyMatchMeaning(db: Db, def: Def, t: Row, i: Row)
    ensures Holds(db, Pair(t, i), KeyMatch(MkCols(def))) <==> Matches(def, t, i)
  {
    var mk := MkCols(def);
    var cs := seq(|mk|, n requires 0 <= n < |mk| => KeyMatchColumn(mk[n]));
    AndOrTrue(db, Pair(t, i), cs);
    forall n | 0 <= n < |mk| ensures Holds(db, Pair(t, i), cs[n]) <==> SameColumn(mk[n], t, i) {
      ColumnMatch(db, mk[n], t, i);
    }
    if Holds(db, Pair(t, i), And(cs)) {
      forall c | c in mk ensures SameColumn(c, t, i) {
        var n :| 0 <= n < |mk| && mk[n] == c;
        assert Holds(db, Pair(t, i), cs[n]);
      }
    }
  }

  // ---------------------------------------------------------------------
  // The probe for rows to insert
  // ---------------------------------------------------------------------

  predicate Unmatched(def: Def, rows: seq<Row>, i: Row) {
    forall t | t in rows :: !Matches(def, t, i)
  }

  /** The input row has no key information at all, and may have none. */
  predicate NoKey(def: Def, i: Row) {
    forall c | c in MkCols(def) :: c.nullok && Field(i, c.name) == Null
  }

  /** A result row of `input i LEFT JOIN t ON (match) WHERE COALESCE(NOT
      (match), True)`: `t` is a matching row, or null-extended when there is
      none. */
  ghost predicate ProbeFinds(db: Db, def: Def, rows: seq<Row>, i: Row) {
    var match_ := KeyMatch(MkCols(def));
    || (exists t :: t in rows && Holds(db, Pair(t, i), match_) && Holds(db, Pair(t, i), CoalesceTrue(Not(match_))))
    || ((forall t :: t in rows ==> !Holds(db, Pair(t, i), match_))
      && Holds(db, Pair(map[], i), CoalesceTrue(Not(match_))))
  }

  /** The probe finds exactly the unmatched rows that carry some key
      information; a null-extended row passes for a match of a row that
      carries none. */
  lemma ProbeExactly(db: Db, def: Def, rows: seq<Row>, i: Row)
    ensures ProbeFinds(db, def, rows, i) <==> Unmatched(def, rows, i) && !NoKey(def, i)
  {
    var m := KeyMatch(MkCols(def));
    forall t ensures Holds(db, Pair(t, i), CoalesceTrue(Not(m))) <==> !Matches(def, t, i)
             ensures Holds(db, Pair(t, i), m) <==> Matches(def, t, i)
    {
      KeyMatchMeaning(db, def, t, i);
      assert Eval(db, Pair(t, i), Not(m)) == Negate(Eval(db, Pair(t, i), m));
    }
    assert Matches(def, map[], i) <==> NoKey(def, i);
  }

  // ---------------------------------------------------------------------
  // What the two statements write
  // ---------------------------------------------------------------------

  /** SQL UNIQUE: rows that agree on a key without NULLs. */
  predicate Collide(k: set<string>, a: Row, b: Row) {
    forall c | c in k :: Field(a, c) == Field(b, c) && Field(a, c) != Null
  }

  predicate Conflict(def: Def, a: Row, b: Row) {
    exists k | k in def.keys :: Collide(k, a, b)
  }

  function Conflicts(def: Def): (Row, Row) -> bool {
    (a, b) => Conflict(def, a, b)
  }

  /** The row stands in conflict with one of `rows`. */
  predicate Hits<T(==)>(conflict: (T, T) -> bool, rows: seq<T>, r: T) {
    exists t | t in rows :: conflict(t, r)
  }

  predicate NoConflict<T>(conflict: (T, T) -> bool, rows: seq<T>) {
    forall i, j | 0 <= i < j < |rows| :: !conflict(rows[i], rows[j])
  }

  predicate UniqueOk(def: Def, rows: seq<Row>) {
    NoConflict(Conflicts(def), rows)
  }

  predicate RowOk(def: Def, r: Row) {
    (forall c | c in def.columns :: c.name in r && (r[c.name] == Null ==> c.nullok)) && def.check(r)
  }

  predicate AllOk(def: Def, rows: seq<Row>) {
    forall r | r in rows :: RowOk(def, r)
  }

  predicate NmkName(def: Def, name: string) {
    !InSomeKey(def, name) && name !in SYSTEM_COLNAMES
  }

  /** UPDATE: non-key columns from the input, modification metadata anew. */
  function Overwrite(def: Def, t: Row, i: Row, ctx: Context): Row {
    map c | c in t ::
      if c in Names(def) && NmkName(def, c) then Field(i, c)
      else if c == "RMT" then ctx.now
      else if c == "RMB" then ctx.client
      else t[c]
  }

  /** INSERT: input columns, and defaults for the system columns. */
  function NewRow(def: Def, i: Row, ctx: Context, rid: nat): Row {
    map c | c in Names(def) ::
      if c == "RID" then Val(rid)
      else if c == "RCT" || c == "RMT" then ctx.now
      else if c == "RCB" || c == "RMB" then ctx.client
      else Field(i, c)
  }

  /** One stored row before and after the UPDATE; with several matching input
      rows any one of them wins. */
  ghost predicate RowUpdated(def: Def, a: Row, b: Row, input: seq<Row>, ctx: Context) {
    || ((forall j | 0 <= j < |input| :: !Matches(def, a, input[j])) && b == a)
    || (exists j | 0 <= j < |input| :: Matches(def, a, input[j]) && b == Overwrite(def, a, input[j], ctx))
  }

  ghost predicate RowsUpdated(def: Def, before: seq<Row>, after: seq<Row>, input: seq<Row>, ctx: Context) {
    |after| == |before| && forall k | 0 <= k < |before| :: RowUpdated(def, before[k], after[k], input, ctx)
  }

  /** The rows offered for insertion; each draws a RID. */
  function Candidates(def: Def, input: seq<Row>, ctx: Context, first: nat): seq<Row> {
    seq(|input|, j requires 0 <= j < |input| => NewRow(def, input[j], ctx, first + j))
  }

  /** The table after `n` candidates went through ON CONFLICT DO NOTHING, and
      which of them got in. */
  function Admit<T(==)>(conflict: (T, T) -> bool, rows: seq<T>, candidates: seq<T>, n: nat): (r: (seq<T>, seq<nat>))
    requires n <= |candidates|
    decreases n
  {
    if n == 0 then (rows, [])
    else
      var (sofar, origins) := Admit(conflict, rows, candidates, n - 1);
      if Hits(conflict, sofar, candidates[n - 1]) then (sofar, origins)
      else (sofar + [candidates[n - 1]], origins + [n - 1])
  }

  /** A whole PUT. */
  ghost predicate PutRun(def: Def, before: seq<Row>, mid: seq<Row>, after: seq<Row>, origins: seq<nat>, input: seq<Row>,
      ctx: Context, first: nat) {
    && RowsUpdated(def, before, mid, input, ctx)
    && UniqueOk(def, mid)
    && AllOk(def, mid) && AllOk(def, Candidates(def, input, ctx, first))
    && (after, origins) == Admit(Conflicts(def), mid, Candidates(def, input, ctx, first), |input|)
  }

  // ---------------------------------------------------------------------
  // Accepted input
  // ---------------------------------------------------------------------

  /** The unique index and the grouping query see only the first 32 columns. */
  function IndexColumns(def: Def): seq<Column> {
    if |MkCols(def)| > 32 then MkCols(def)[..32] else MkCols(def)
  }

  predicate SameIndexEntry(def: Def, a: Row, b: Row) {
    forall c | c in IndexColumns(def) :: Field(a, c.name) == Field(b, c.name) && Field(a, c.name) != Null
  }

  predicate SameGroup(def: Def, a: Row, b: Row) {
    forall c | c in IndexColumns(def) :: Field(a, c.name) == Field(b, c.name)
  }

  predicate Accepted(def: Def, input: seq<Row>) {
    && (forall i, j | 0 <= i < j < |input| :: !SameIndexEntry(def, input[i], input[j]))
    && (|MkCols(def)| > 32 ==> forall i, j | 0 <= i < j < |input| :: !SameGroup(def, input[i], input[j]))
  }

  predicate SameMetakey(def: Def, a: Row, b: Row) {
    forall c | c in MkCols(def) :: Field(a, c.name) == Field(b, c.name)
  }

  predicate DistinctMetakeys(def: Def, input: seq<Row>) {
    forall i, j | 0 <= i < j < |input| :: !SameMetakey(def, input[i], input[j])
  }

  /** Up to 32 metakey columns, rows that share a metakey with a NULL in it
      slip through; beyond, the first 32 columns alone decide, and so every
      accepted input is distinct. */
  lemma AcceptedExactly(def: Def, input: seq<Row>)
    ensures |MkCols(def)| <= 32 ==> (Accepted(def, input) <==>
      forall i, j | 0 <= i < j < |input| :: SameMetakey(def, input[i], input[j]) ==>
        exists c | c in MkCols(def) :: Field(input[i], c.name) == Null)
    ensures |MkCols(def)| > 32 ==>
      (Accepted(def, input) <==> forall i, j | 0 <= i < j < |input| :: !SameGroup(def, input[i], input[j]))
    ensures |MkCols(def)| > 32 && Accepted(def, input) ==> DistinctMetakeys(def, input)
  {
  }

  lemma {:induction false} SelectDistinct(cs: seq<Column>, p: Column -> bool)
    requires DistinctNames(cs)
    ensures DistinctNames(Select(cs, p))
  {
    if cs != [] {
      var rest := Select(cs[1..], p);
      SelectDistinct(cs[1..], p);
      SelectMembers(cs[1..], p);
      forall c | c in rest ensures c.name != cs[0].name {
        var n :| 0 <= n < |cs[1..]| && cs[1..][n] == c;
        assert cs[n + 1] == c;
      }
      var r := Select(cs, p);
      forall i, j | 0 <= i < j < |r| ensures r[i].name != r[j].name {
        if p(cs[0]) {
          assert r == [cs[0]] + rest && r[j] == rest[j - 1];
          assert i == 0 || r[i] == rest[i - 1];
        }
      }
    }
  }

  lemma {:induction false} SelectAll(cs: seq<Column>, p: Column -> bool)
    requires forall c | c in cs :: p(c)
    ensures Select(cs, p) == cs
  {
    if cs != [] {
      assert cs[0] in cs;
      SelectAll(cs[1..], p);
    }
  }

  /** A row that is 0 everywhere, but 1 in one column. */
  function OneIn(def: Def, name: string): Row {
    map c | c in Names(def) :: Val(if c == name then 1 else 0)
  }

  lemma OneInElsewhere(def: Def, name: string, other: string)
    requires other != name && name != ""
    ensures Field(OneIn(def, ""), other) == Field(OneIn(def, name), other) || other == ""
    ensures name in Names(def) ==> Field(OneIn(def, ""), name) != Field(OneIn(def, name), name)
  {
  }

  lemma LateColumn(def: Def, n: nat)
    requires ValidDef(def) && n < |MkCols(def)|
    ensures MkCols(def)[n] in def.columns && MkCols(def)[n].name in Names(def)
    ensures forall c | c in MkCols(def)[..n] :: c in def.columns && c.name != MkCols(def)[n].name
  {
    assert DistinctNames(def.columns);
    SelectDistinct(def.columns, c => IsMkCol(def, c));
    SelectMembers(def.columns, c => IsMkCol(def, c));
    assert MkCols(def)[n] in MkCols(def);
    forall c | c in MkCols(def)[..n] ensures c in def.columns && c.name != MkCols(def)[n].name {
      var m :| 0 <= m < n && MkCols(def)[m] == c;
      assert c in MkCols(def);
    }
  }

  predicate NamedColumns(def: Def) {
    forall c | c in def.columns :: c.name != ""
  }

  /** Two rows that differ in the 33rd metakey column alone are refused. */
  lemma LateDifferenceRefused(def: Def, input: seq<Row>, late: Column)
    requires ValidDef(def) && NamedColumns(def) && |MkCols(def)| > 32 && late == MkCols(def)[32]
    requires input == [OneIn(def, ""), OneIn(def, late.name)]
    ensures DistinctMetakeys(def, input) && !Accepted(def, input)
  {
    LateColumn(def, 32);
    OneInElsewhere(def, late.name, "");
    assert late in MkCols(def) && !SameMetakey(def, input[0], input[1]);
    forall c | c in MkCols(def)[..32] ensures Field(input[0], c.name) == Field(input[1], c.name) {
      OneInElsewhere(def, late.name, c.name);
    }
    assert SameGroup(def, input[0], input[1]);
  }

  ghost predicate AcceptsDistinct(def: Def) {
    forall input :: DistinctMetakeys(def, input) ==> Accepted(def, input)
  }

  /** Input analysis accepts all input with distinct metakeys exactly if there
      are at most 32 metakey columns. */
  lemma AcceptsDistinctExactly(def: Def)
    requires ValidDef(def) && NamedColumns(def)
    ensures AcceptsDistinct(def) <==> |MkCols(def)| <= 32
  {
    if |MkCols(def)| <= 32 {
      forall input | DistinctMetakeys(def, input) ensures Accepted(def, input) {
        AcceptedExactly(def, input);
      }
    } else {
      var late := MkCols(def)[32];
      LateDifferenceRefused(def, [OneIn(def, ""), OneIn(def, late.name)], late);
    }
  }

  /** A table with `n` columns, all in one key. */
  function WideDef(n: nat): Def {
    var columns := seq(n, i requires 0 <= i < n => Column(seq(i + 1, _ => 'c'), false));
    Def(columns, {set c | c in columns :: c.name}, _ => true)
  }

  lemma WideMetakey(n: nat)
    requires n > 0
    ensures ValidDef(WideDef(n)) && |MkCols(WideDef(n))| == n && NamedColumns(WideDef(n))
  {
    var def := WideDef(n);
    assert forall i | 0 <= i < n :: |def.columns[i].name| == i + 1;
    assert def.columns[0].name in Names(def);
    assert def.keys == {Names(def)};
    assert Names(def) in def.keys;
    forall c | c in def.columns ensures c.name != "" && IsMkCol(def, c) {
      assert c.name in Names(def) && c.name[0] == 'c';
    }
    SelectAll(def.columns, c => IsMkCol(def, c));
  }

  /** One key over 33 columns is enough to have distinct rows refused. */
  lemma WideKeyRefusesDistinct(def: Def)
    requires def == WideDef(33)
    ensures ValidDef(def) && !AcceptsDistinct(def)
  {
    WideMetakey(33);
    AcceptsDistinctExactly(def);
  }

  // ---------------------------------------------------------------------
  // What a PUT does to each row
  // ---------------------------------------------------------------------

  predicate NonNullOn(k: set<string>, r: Row) {
    forall c | c in k :: Field(r, c) != Null
  }

  /** The row has a value for every column of some client-managed key. */
  predicate Identified(def: Def, i: Row) {
    exists k | k in def.keys :: ClientKey(k) && NonNullOn(k, i)
  }

  predicate GoodInput(def: Def, input: seq<Row>) {
    DistinctMetakeys(def, input) && forall i | i in input :: Identified(def, i)
  }

  predicate AgreeOn(k: set<string>, a: Row, b: Row) {
    forall c | c in k :: Field(a, c) == Field(b, c)
  }

  lemma MetakeyColumn(def: Def, k: set<string>, c: string)
    requires ValidDef(def) && k in def.keys && ClientKey(k) && c in k
    ensures exists col :: col in MkCols(def) && col.name == c
  {
    SelectMembers(def.columns, col => IsMkCol(def, col));
    assert c in Names(def);
    var col :| col in def.columns && col.name == c;
    assert InSomeKey(def, c);
  }

  lemma MatchAgrees(def: Def, t: Row, i: Row, k: set<string>)
    requires ValidDef(def) && Matches(def, t, i) && k in def.keys && ClientKey(k)
    ensures AgreeOn(k, t, i)
  {
    forall c | c in k ensures Field(t, c) == Field(i, c) {
      MetakeyColumn(def, k, c);
      var col :| col in MkCols(def) && col.name == c;
      assert SameColumn(col, t, i);
    }
  }

  /** An identified input row matches at most one stored row. */
  lemma MatchIsUnique(def: Def, rows: seq<Row>, i: Row, m: nat, n: nat)
    requires ValidDef(def) && UniqueOk(def, rows) && Identified(def, i)
    requires m < |rows| && n < |rows| && Matches(def, rows[m], i) && Matches(def, rows[n], i)
    ensures m == n
  {
    var k :| k in def.keys && ClientKey(k) && NonNullOn(k, i);
    MatchAgrees(def, rows[m], i, k);
    MatchAgrees(def, rows[n], i, k);
    assert Collide(k, rows[m], rows[n]) && Collide(k, rows[n], rows[m]);
    assert Conflict(def, rows[m], rows[n]) && Conflict(def, rows[n], rows[m]);
  }

  /** Updating touches no metakey column, no RID and no other key column but
      the modification metadata. */
  lemma UpdateKeepsKeys(def: Def, a: Row, b: Row, input: seq<Row>, ctx: Context, c: string)
    requires RowUpdated(def, a, b, input, ctx) && c != "RMT" && c != "RMB"
    requires (InSomeKey(def, c) || c in SYSTEM_COLNAMES || c !in Names(def))
    ensures Field(b, c) == Field(a, c)
  {
  }

  lemma UpdateKeepsMatches(def: Def, a: Row, b: Row, input: seq<Row>, ctx: Context, i: Row)
    requires RowUpdated(def, a, b, input, ctx)
    ensures Matches(def, b, i) <==> Matches(def, a, i)
  {
    SelectMembers(def.columns, c => IsMkCol(def, c));
    forall c | c in MkCols(def) ensures Field(b, c.name) == Field(a, c.name) {
      UpdateKeepsKeys(def, a, b, input, ctx, c.name);
    }
    assert forall c :: c in MkCols(def) ==> (SameColumn(c, b, i) <==> SameColumn(c, a, i));
  }

  lemma NewRowAgrees(def: Def, i: Row, ctx: Context, rid: nat, k: set<string>)
    requires ValidDef(def) && k in def.keys && ClientKey(k)
    ensures AgreeOn(k, NewRow(def, i, ctx, rid), i)
  {
  }

  /** A row that some stored row matches collides with it on insertion. */
  lemma MatchedCollides(def: Def, t: Row, i: Row, ctx: Context, rid: nat)
    requires ValidDef(def) && Identified(def, i) && Matches(def, t, i)
    ensures Conflict(def, t, NewRow(def, i, ctx, rid))
  {
    var k :| k in def.keys && ClientKey(k) && NonNullOn(k, i);
    MatchAgrees(def, t, i, k);
    NewRowAgrees(def, i, ctx, rid, k);
    assert Collide(k, t, NewRow(def, i, ctx, rid));
  }

  ghost predicate Increasing(s: seq<nat>) {
    forall p, q | 0 <= p < q < |s| :: s[p] < s[q]
  }

  /** What INSERT leaves: the rows that were there, then the new rows in input
      order; a row that did not get in conflicts with one that is there. */
  ghost predicate Admitted<T>(conflict: (T, T) -> bool, rows: seq<T>, candidates: seq<T>, n: nat, after: seq<T>,
      origins: seq<nat>)
    requires n <= |candidates|
  {
    && |after| == |rows| + |origins|
    && after[..|rows|] == rows
    && (forall p | 0 <= p < |origins| :: origins[p] < n && after[|rows| + p] == candidates[origins[p]])
    && Increasing(origins)
    && (forall j | 0 <= j < n :: j in origins || Hits(conflict, after, candidates[j]))
    && (forall j | j in origins :: !Hits(conflict, rows, candidates[j]))
    && (NoConflict(conflict, rows) ==> NoConflict(conflict, after))
  }

  lemma {:induction false} AdmitMeaning<T>(conflict: (T, T) -> bool, rows: seq<T>, candidates: seq<T>, n: nat)
    requires n <= |candidates|
    ensures var (after, origins) := Admit(conflict, rows, candidates, n);
      Admitted(conflict, rows, candidates, n, after, origins)
  {
    if n > 0 {
      AdmitMeaning(conflict, rows, candidates, n - 1);
      var (sofar, origins) := Admit(conflict, rows, candidates, n - 1);
      AdmitStep(conflict, rows, candidates, n, sofar, origins);
    }
  }

  lemma AdmitStep<T>(conflict: (T, T) -> bool, rows: seq<T>, candidates: seq<T>, n: nat, sofar: seq<T>,
      origins: seq<nat>)
    requires 0 < n <= |candidates| && Admitted(conflict, rows, candidates, n - 1, sofar, origins)
    ensures
      if Hits(conflict, sofar, candidates[n - 1]) then Admitted(conflict, rows, candidates, n, sofar, origins)
      else Admitted(conflict, rows, candidates, n, sofar + [candidates[n - 1]], origins + [n - 1])
  {
  }

  // ---------------------------------------------------------------------
  // One PUT
  // ---------------------------------------------------------------------

  ghost predicate GoodRun(def: Def, before: seq<Row>, mid: seq<Row>, after: seq<Row>, origins: seq<nat>,
      input: seq<Row>, ctx: Context, first: nat) {
    ValidDef(def) && UniqueOk(def, before) && AllOk(def, before) && GoodInput(def, input)
      && PutRun(def, before, mid, after, origins, input, ctx, first)
  }

  lemma CandidateAt(def: Def, input: seq<Row>, ctx: Context, first: nat, j: nat)
    requires j < |input|
    ensures |Candidates(def, input, ctx, first)| == |input|
    ensures Candidates(def, input, ctx, first)[j] == NewRow(def, input[j], ctx, first + j)
  {
  }

  function Matching(def: Def): (Row, Row) -> bool {
    (t, i) => Matches(def, t, i)
  }

  predicate MatchesNone<T, I>(match_: (T, I) -> bool, rows: seq<T>, i: I) {
    forall k | 0 <= k < |rows| :: !match_(rows[k], i)
  }

  /** The three ways to go, whatever matching and conflict mean: matched rows
      do not get in, and a row that neither matches nor gets in conflicts with
      a row that it does not match. */
  lemma Fates<T, I>(match_: (T, I) -> bool, conflict: (T, T) -> bool, mid: seq<T>, after: seq<T>, origins: seq<nat>,
      candidates: seq<T>, input: seq<I>, j: nat)
    requires |candidates| == |input| && j < |input|
    requires Admitted(conflict, mid, candidates, |candidates|, after, origins)
    requires forall t | t in mid :: match_(t, input[j]) ==> conflict(t, candidates[j])
    requires forall i: nat | i < |input| :: match_(candidates[i], input[j]) ==> i == j
    ensures !MatchesNone(match_, mid, input[j]) ==> j !in origins
    ensures MatchesNone(match_, mid, input[j]) && j !in origins ==>
      exists n | 0 <= n < |after| :: conflict(after[n], candidates[j]) && !match_(after[n], input[j])
  {
    if !MatchesNone(match_, mid, input[j]) {
      var k :| 0 <= k < |mid| && match_(mid[k], input[j]);
      assert mid[k] in mid;
      assert Hits(conflict, mid, candidates[j]);
    } else if j !in origins {
      var t :| t in after && conflict(t, candidates[j]);
      var n :| 0 <= n < |after| && after[n] == t;
      if n < |mid| {
        assert after[..|mid|][n] == mid[n];
      } else {
        var p := n - |mid|;
        assert after[|mid| + p] == candidates[origins[p]];
      }
    }
  }

  /** The input row that a stored row matches decides its update. */
  lemma UpdateDecided(def: Def, a: Row, b: Row, input: seq<Row>, ctx: Context, j: nat)
    requires RowUpdated(def, a, b, input, ctx) && DistinctMetakeys(def, input) && j < |input|
    requires Matches(def, a, input[j])
    ensures b == Overwrite(def, a, input[j], ctx)
  {
  }

  /** A row inserted for one input row matches no other one. */
  lemma NewRowMatches(def: Def, input: seq<Row>, ctx: Context, rid: nat, i: nat, j: nat)
    requires DistinctMetakeys(def, input) && i < |input| && j < |input|
    requires Matches(def, NewRow(def, input[i], ctx, rid), input[j])
    ensures i == j
  {
    SelectMembers(def.columns, c => IsMkCol(def, c));
    forall c | c in MkCols(def) ensures Field(input[i], c.name) == Field(input[j], c.name) {
      assert SameColumn(c, NewRow(def, input[i], ctx, rid), input[j]);
      assert c.name in Names(def);
    }
    assert SameMetakey(def, input[i], input[j]) && SameMetakey(def, input[j], input[i]);
  }

  /** A stored row that shares a unique key, but not the metakey, with a row
      to insert. */
  ghost predicate PartialCollision(def: Def, stored: Row, i: Row, ctx: Context, rid: nat) {
    Conflict(def, stored, NewRow(def, i, ctx, rid)) && !Matches(def, stored, i)
  }

  /** What `Fates` needs, from the key discipline. */
  lemma FatesApply(def: Def, before: seq<Row>, mid: seq<Row>, input: seq<Row>, ctx: Context, first: nat, j: nat)
    requires ValidDef(def) && GoodInput(def, input) && RowsUpdated(def, before, mid, input, ctx) && j < |input|
    ensures forall t | t in mid :: Matches(def, t, input[j]) ==> Conflict(def, t, Candidates(def, input, ctx, first)[j])
    ensures forall i: nat | i < |input| :: Matches(def, Candidates(def, input, ctx, first)[i], input[j]) ==> i == j
  {
    assert input[j] in input;
    CandidateAt(def, input, ctx, first, j);
    forall t | t in mid && Matches(def, t, input[j]) ensures Conflict(def, t, Candidates(def, input, ctx, first)[j]) {
      MatchedCollides(def, t, input[j], ctx, first + j);
    }
    CandidateMatchesOne(def, input, ctx, first, j);
  }

  lemma CandidateMatchesOne(def: Def, input: seq<Row>, ctx: Context, first: nat, j: nat)
    requires DistinctMetakeys(def, input) && j < |input|
    ensures forall i: nat | i < |input| :: Matches(def, Candidates(def, input, ctx, first)[i], input[j]) ==> i == j
  {
    forall i: nat | i < |input| && Matches(def, Candidates(def, input, ctx, first)[i], input[j]) ensures i == j {
      CandidateAt(def, input, ctx, first, i);
      NewRowMatches(def, input, ctx, first + i, i, j);
    }
  }

  lemma MidMatches(def: Def, before: seq<Row>, mid: seq<Row>, input: seq<Row>, ctx: Context, i: Row)
    requires RowsUpdated(def, before, mid, input, ctx)
    ensures MatchesNone(Matching(def), mid, i) <==> MatchesNone(Matching(def), before, i)
  {
    forall k | 0 <= k < |before| ensures Matches(def, mid[k], i) <==> Matches(def, before[k], i) {
      UpdateKeepsMatches(def, before[k], mid[k], input, ctx, i);
    }
  }

  /** Every input row is exactly one of: applied to the stored row it matches,
      inserted, or skipped for a partial key collision. */
  lemma ExactlyOneFate(def: Def, before: seq<Row>, mid: seq<Row>, after: seq<Row>, origins: seq<nat>, input: seq<Row>,
      ctx: Context, first: nat, j: nat)
    requires GoodRun(def, before, mid, after, origins, input, ctx, first) && j < |input|
    ensures !MatchesNone(Matching(def), before, input[j]) ==> j !in origins
    ensures MatchesNone(Matching(def), before, input[j]) && j !in origins ==>
      exists n | 0 <= n < |after| :: PartialCollision(def, after[n], input[j], ctx, first + j)
  {
    var candidates := Candidates(def, input, ctx, first);
    AdmitMeaning(Conflicts(def), mid, candidates, |input|);
    FatesApply(def, before, mid, input, ctx, first, j);
    Fates(Matching(def), Conflicts(def), mid, after, origins, candidates, input, j);
    MidMatches(def, before, mid, input, ctx, input[j]);
    if MatchesNone(Matching(def), before, input[j]) && j !in origins {
      var n :| 0 <= n < |after| && Conflicts(def)(after[n], candidates[j]) && !Matching(def)(after[n], input[j]);
      CandidateAt(def, input, ctx, first, j);
      assert PartialCollision(def, after[n], input[j], ctx, first + j);
    }
  }

  /** A matched input row is applied, in place, to the one stored row it
      matches. */
  lemma UpdatedExactly(def: Def, before: seq<Row>, mid: seq<Row>, after: seq<Row>, origins: seq<nat>, input: seq<Row>,
      ctx: Context, first: nat, j: nat, k: nat)
    requires GoodRun(def, before, mid, after, origins, input, ctx, first) && j < |input| && k < |before|
    requires Matches(def, before[k], input[j])
    ensures k < |after| && after[k] == Overwrite(def, before[k], input[j], ctx)
    ensures forall m | 0 <= m < |before| :: Matches(def, before[m], input[j]) ==> m == k
  {
    assert input[j] in input;
    AdmitMeaning(Conflicts(def), mid, Candidates(def, input, ctx, first), |input|);
    assert after[..|mid|][k] == mid[k];
    UpdateDecided(def, before[k], mid[k], input, ctx, j);
    forall m | 0 <= m < |before| && Matches(def, before[m], input[j]) ensures m == k {
      MatchIsUnique(def, before, input[j], m, k);
    }
  }

  /** Stored rows that no input row matches stay as they were; the rows added
      are those of the inserted input rows, in order, none of them matched;
      and the keys are still unique. */
  lemma OthersUnchanged(def: Def, before: seq<Row>, mid: seq<Row>, after: seq<Row>, origins: seq<nat>, input: seq<Row>,
      ctx: Context, first: nat)
    requires GoodRun(def, before, mid, after, origins, input, ctx, first)
    ensures |after| == |before| + |origins| && Increasing(origins) && UniqueOk(def, after)
    ensures forall k | 0 <= k < |before| :: (forall i :: i in input ==> !Matches(def, before[k], i)) ==>
      after[k] == before[k]
    ensures forall p | 0 <= p < |origins| ::
      origins[p] < |input| && MatchesNone(Matching(def), before, input[origins[p]])
      && after[|before| + p] == NewRow(def, input[origins[p]], ctx, first + origins[p])
  {
    var candidates := Candidates(def, input, ctx, first);
    AdmitMeaning(Conflicts(def), mid, candidates, |input|);
    forall k | 0 <= k < |before| && forall i :: i in input ==> !Matches(def, before[k], i)
      ensures after[k] == before[k] {
      assert after[..|before|][k] == mid[k];
      assert RowUpdated(def, before[k], mid[k], input, ctx);
    }
    forall p | 0 <= p < |origins|
      ensures origins[p] < |input| && MatchesNone(Matching(def), before, input[origins[p]])
        && after[|before| + p] == NewRow(def, input[origins[p]], ctx, first + origins[p])
    {
      assert origins[p] in origins;
      CandidateAt(def, input, ctx, first, origins[p]);
      ExactlyOneFate(def, before, mid, after, origins, input, ctx, first, origins[p]);
    }
  }

  /** What an update leaves in a row: the input's values in the columns outside
      all keys, the time and the client of the change, and all else as it was. */
  ghost predicate UpdatedFrom(def: Def, a: Row, b: Row, i: Row, ctx: Context) {
    && b.Keys == a.Keys
    && ("RMT" in a ==> b["RMT"] == ctx.now)
    && ("RMB" in a ==> b["RMB"] == ctx.client)
    && (forall c | c in a && c in {"RID", "RCT", "RCB"} :: b[c] == a[c])
    && (forall c | c in a && c !in SYSTEM_COLNAMES && InSomeKey(def, c) :: b[c] == a[c])
    && (forall c | c in a && c !in SYSTEM_COLNAMES && !InSomeKey(def, c) && c in Names(def) :: b[c] == Field(i, c))
  }

  /** What an inserted row holds: the input's values, a RID of its own, and the
      time and the client as those of its creation and its change. */
  ghost predicate InsertedFrom(def: Def, b: Row, i: Row, ctx: Context, rid: nat) {
    && b.Keys == Names(def)
    && ("RID" in b ==> b["RID"] == Val(rid))
    && (forall c | c in b && c in {"RCT", "RMT"} :: b[c] == ctx.now)
    && (forall c | c in b && c in {"RCB", "RMB"} :: b[c] == ctx.client)
    && (forall c | c in b && c !in SYSTEM_COLNAMES :: b[c] == Field(i, c))
  }

  /** Column by column: what a PUT writes into the stored row that an input row
      matches, ... */
  lemma UpdatedValues(def: Def, before: seq<Row>, mid: seq<Row>, after: seq<Row>, origins: seq<nat>, input: seq<Row>,
      ctx: Context, first: nat, k: nat, j: nat)
    requires GoodRun(def, before, mid, after, origins, input, ctx, first) && k < |before| && j < |input|
    requires Matches(def, before[k], input[j])
    ensures k < |after| && UpdatedFrom(def, before[k], after[k], input[j], ctx)
  {
    AdmitMeaning(Conflicts(def), mid, Candidates(def, input, ctx, first), |input|);
    UpdateDecided(def, before[k], mid[k], input, ctx, j);
    assert after[..|mid|][k] == mid[k];
    OverwriteValues(def, before[k], input[j], ctx);
  }

  /** ... and into the row that it inserts for one. */
  lemma InsertedValues(def: Def, before: seq<Row>, mid: seq<Row>, after: seq<Row>, origins: seq<nat>, input: seq<Row>,
      ctx: Context, first: nat, n: nat)
    requires GoodRun(def, before, mid, after, origins, input, ctx, first) && n < |origins|
    ensures |after| == |before| + |origins| && origins[n] < |input|
    ensures InsertedFrom(def, after[|before| + n], input[origins[n]], ctx, first + origins[n])
  {
    OthersUnchanged(def, before, mid, after, origins, input, ctx, first);
    NewRowValues(def, input[origins[n]], ctx, first + origins[n]);
  }

  lemma OverwriteValues(def: Def, a: Row, i: Row, ctx: Context)
    ensures UpdatedFrom(def, a, Overwrite(def, a, i, ctx), i, ctx)
  {
  }

  lemma NewRowValues(def: Def, i: Row, ctx: Context, rid: nat)
    ensures InsertedFrom(def, NewRow(def, i, ctx, rid), i, ctx, rid)
  {
  }

  // ---------------------------------------------------------------------
  // The same PUT again
  // ---------------------------------------------------------------------

  /** Some unique key of client-managed columns is part of `k`. */
  predicate HoldsClientKey(def: Def, k: set<string>) {
    exists c | c in def.keys :: ClientKey(c) && c <= k
  }

  /** Every unique key has the RID or includes a client-managed key. */
  predicate KeysManaged(def: Def) {
    forall k | k in def.keys :: "RID" in k || HoldsClientKey(def, k)
  }

  predicate RidBelow(r: Row, first: nat) {
    Field(r, "RID") != Null ==> Field(r, "RID").n < first
  }

  /** Stored RIDs come from the sequence. */
  predicate RidsBelow(rows: seq<Row>, first: nat) {
    forall r | r in rows :: RidBelow(r, first)
  }

  ghost predicate SameClientColumns(a: Row, b: Row) {
    forall c | c !in SYSTEM_COLNAMES :: Field(a, c) == Field(b, c)
  }

  /** The stored row has the input's values in its non-key columns. */
  ghost predicate HoldsColumns(def: Def, a: Row, i: Row) {
    forall c :: c in Names(def) && NmkName(def, c) ==> Field(a, c) == Field(i, c)
  }

  lemma InsertedHolds(def: Def, input: seq<Row>, ctx: Context, rid: nat, i: nat, j: nat)
    requires DistinctMetakeys(def, input) && i < |input| && j < |input|
    requires Matches(def, NewRow(def, input[i], ctx, rid), input[j])
    ensures HoldsColumns(def, NewRow(def, input[i], ctx, rid), input[j])
  {
    NewRowMatches(def, input, ctx, rid, i, j);
  }

  lemma UpdatedHolds(def: Def, a: Row, b: Row, input: seq<Row>, ctx: Context, j: nat)
    requires RowOk(def, a) && RowUpdated(def, a, b, input, ctx) && DistinctMetakeys(def, input) && j < |input|
    requires Matches(def, b, input[j])
    ensures HoldsColumns(def, b, input[j])
  {
    UpdateKeepsMatches(def, a, b, input, ctx, input[j]);
    UpdateDecided(def, a, b, input, ctx, j);
    assert forall c :: c in Names(def) ==> c in a;
  }

  lemma StoredHolds(def: Def, before: seq<Row>, mid: seq<Row>, input: seq<Row>, ctx: Context, n: nat, j: nat)
    requires AllOk(def, before) && RowsUpdated(def, before, mid, input, ctx) && DistinctMetakeys(def, input)
    requires n < |mid| && j < |input| && Matches(def, mid[n], input[j])
    ensures HoldsColumns(def, mid[n], input[j])
  {
    assert before[n] in before;
    UpdatedHolds(def, before[n], mid[n], input, ctx, j);
  }

  lemma CandidateHolds(def: Def, input: seq<Row>, ctx: Context, first: nat, i: nat, j: nat)
    requires DistinctMetakeys(def, input) && i < |input| && j < |input|
    requires Matches(def, Candidates(def, input, ctx, first)[i], input[j])
    ensures HoldsColumns(def, Candidates(def, input, ctx, first)[i], input[j])
  {
    CandidateAt(def, input, ctx, first, i);
    InsertedHolds(def, input, ctx, first + i, i, j);
  }

  /** A row that a PUT left holds the input of every row that matches it. */
  lemma HoldsInput(def: Def, before: seq<Row>, mid: seq<Row>, after: seq<Row>, origins: seq<nat>, input: seq<Row>,
      ctx: Context, first: nat, n: nat, j: nat)
    requires GoodRun(def, before, mid, after, origins, input, ctx, first) && n < |after| && j < |input|
    requires Matches(def, after[n], input[j])
    ensures HoldsColumns(def, after[n], input[j])
  {
    var candidates := Candidates(def, input, ctx, first);
    AdmitMeaning(Conflicts(def), mid, candidates, |input|);
    if n < |mid| {
      assert after[..|mid|][n] == mid[n];
      StoredHolds(def, before, mid, input, ctx, n, j);
    } else {
      CandidateHolds(def, input, ctx, first, origins[n - |mid|], j);
    }
  }

  /** Applying the input to such a row again changes no client column. */
  lemma UpdateAgain(def: Def, a: Row, b: Row, input: seq<Row>, ctx: Context)
    requires RowUpdated(def, a, b, input, ctx)
    requires forall j: nat | j < |input| && Matches(def, a, input[j]) :: HoldsColumns(def, a, input[j])
    ensures SameClientColumns(a, b)
  {
  }

  /** Inserted rows match the input rows that they come from. */
  lemma NewRowMatchesItself(def: Def, i: Row, ctx: Context, rid: nat)
    requires RowOk(def, NewRow(def, i, ctx, rid))
    ensures Matches(def, NewRow(def, i, ctx, rid), i)
  {
    SelectMembers(def.columns, c => IsMkCol(def, c));
    forall c | c in MkCols(def) ensures SameColumn(c, NewRow(def, i, ctx, rid), i) {
      assert c in def.columns && c.name in Names(def);
    }
  }

  lemma RidCollision(def: Def, k: set<string>, stored: Row, i: Row, ctx: Context, rid: nat)
    requires ValidDef(def) && k in def.keys && Collide(k, stored, NewRow(def, i, ctx, rid)) && "RID" in k
    ensures Field(stored, "RID") == Val(rid)
  {
  }

  /** A collision that survives: it is one on a client-managed key, and so
      recurs whatever the time, the client and the RID. */
  lemma CollidesAgain(def: Def, stored: Row, later: Row, i: Row, ctx1: Context, rid1: nat, ctx2: Context, rid2: nat)
    requires ValidDef(def) && KeysManaged(def)
    requires Conflict(def, stored, NewRow(def, i, ctx1, rid1)) && Field(stored, "RID") != Val(rid1)
    requires SameClientColumns(stored, later)
    ensures Conflict(def, later, NewRow(def, i, ctx2, rid2))
  {
    var k :| k in def.keys && Collide(k, stored, NewRow(def, i, ctx1, rid1));
    assert HoldsClientKey(def, k) by {
      if "RID" in k {
        RidCollision(def, k, stored, i, ctx1, rid1);
      }
    }
    var c :| c in def.keys && ClientKey(c) && c <= k;
    NewRowAgrees(def, i, ctx1, rid1, c);
    NewRowAgrees(def, i, ctx2, rid2, c);
    assert Collide(c, later, NewRow(def, i, ctx2, rid2));
  }

  /** A stored row keeps its RID. */
  lemma StoredRid(def: Def, before: seq<Row>, mid: seq<Row>, after: seq<Row>, origins: seq<nat>, input: seq<Row>,
      ctx: Context, first: nat, n: nat)
    requires PutRun(def, before, mid, after, origins, input, ctx, first) && n < |before|
    ensures n < |after| && Field(after[n], "RID") == Field(before[n], "RID")
  {
    AdmitMeaning(Conflicts(def), mid, Candidates(def, input, ctx, first), |input|);
    assert after[..|mid|][n] == mid[n];
    UpdateKeepsKeys(def, before[n], mid[n], input, ctx, "RID");
  }

  lemma NewRid(def: Def, i: Row, ctx: Context, rid: nat)
    ensures Field(NewRow(def, i, ctx, rid), "RID") == if "RID" in Names(def) then Val(rid) else Null
  {
  }

  /** RIDs that the first PUT left, other than those of row `j` itself. */
  lemma RidsApart(def: Def, before: seq<Row>, mid: seq<Row>, after: seq<Row>, origins: seq<nat>, input: seq<Row>,
      ctx: Context, first: nat, n: nat, j: nat)
    requires GoodRun(def, before, mid, after, origins, input, ctx, first) && RidsBelow(before, first)
    requires n < |after| && j !in origins
    ensures Field(after[n], "RID") != Val(first + j)
  {
    OthersUnchanged(def, before, mid, after, origins, input, ctx, first);
    if n < |before| {
      StoredRid(def, before, mid, after, origins, input, ctx, first, n);
      assert before[n] in before && RidBelow(before[n], first);
    } else {
      var o := origins[n - |before|];
      assert o in origins;
      NewRid(def, input[o], ctx, first + o);
    }
  }

  lemma {:induction false} AdmitNone<T>(conflict: (T, T) -> bool, rows: seq<T>, candidates: seq<T>, n: nat)
    requires n <= |candidates| && forall j | 0 <= j < n :: Hits(conflict, rows, candidates[j])
    ensures Admit(conflict, rows, candidates, n) == (rows, [])
  {
    if n > 0 {
      AdmitNone(conflict, rows, candidates, n - 1);
    }
  }

  /** After a PUT each input row matches a stored row, or collides with one
      whose RID is not the one it drew. */
  ghost predicate Held(def: Def, stored: Row, i: Row, ctx: Context, rid: nat) {
    Matches(def, stored, i) || (Conflict(def, stored, NewRow(def, i, ctx, rid)) && Field(stored, "RID") != Val(rid))
  }

  lemma CandidateMatches(def: Def, input: seq<Row>, ctx: Context, first: nat, j: nat)
    requires AllOk(def, Candidates(def, input, ctx, first)) && j < |input|
    ensures j < |Candidates(def, input, ctx, first)| && Matches(def, Candidates(def, input, ctx, first)[j], input[j])
  {
    var candidates := Candidates(def, input, ctx, first);
    CandidateAt(def, input, ctx, first, j);
    assert candidates[j] in candidates;
    NewRowMatchesItself(def, input[j], ctx, first + j);
  }

  lemma InsertedHeld(def: Def, before: seq<Row>, mid: seq<Row>, after: seq<Row>, origins: seq<nat>, input: seq<Row>,
      ctx: Context, first: nat, j: nat)
    requires GoodRun(def, before, mid, after, origins, input, ctx, first) && j < |input| && j in origins
    ensures exists n: nat | n < |after| :: Matches(def, after[n], input[j])
  {
    AdmitMeaning(Conflicts(def), mid, Candidates(def, input, ctx, first), |input|);
    CandidateMatches(def, input, ctx, first, j);
    var p: nat :| p < |origins| && origins[p] == j;
    assert Matches(def, after[|mid| + p], input[j]);
  }

  lemma UpdatedHeld(def: Def, before: seq<Row>, mid: seq<Row>, after: seq<Row>, origins: seq<nat>, input: seq<Row>,
      ctx: Context, first: nat, j: nat)
    requires GoodRun(def, before, mid, after, origins, input, ctx, first) && j < |input|
    requires !MatchesNone(Matching(def), before, input[j])
    ensures exists n: nat | n < |after| :: Matches(def, after[n], input[j])
  {
    var k: nat :| k < |before| && Matching(def)(before[k], input[j]);
    AdmitMeaning(Conflicts(def), mid, Candidates(def, input, ctx, first), |input|);
    assert after[..|mid|][k] == mid[k];
    UpdateKeepsMatches(def, before[k], mid[k], input, ctx, input[j]);
    assert Matches(def, after[k], input[j]);
  }

  lemma AllHeld(def: Def, before: seq<Row>, mid: seq<Row>, after: seq<Row>, origins: seq<nat>, input: seq<Row>,
      ctx: Context, first: nat, j: nat) returns (n: nat)
    requires GoodRun(def, before, mid, after, origins, input, ctx, first) && RidsBelow(before, first) && j < |input|
    ensures n < |after| && Held(def, after[n], input[j], ctx, first + j)
  {
    if j in origins {
      InsertedHeld(def, before, mid, after, origins, input, ctx, first, j);
      n :| n < |after| && Matches(def, after[n], input[j]);
    } else if !MatchesNone(Matching(def), before, input[j]) {
      UpdatedHeld(def, before, mid, after, origins, input, ctx, first, j);
      n :| n < |after| && Matches(def, after[n], input[j]);
    } else {
      ExactlyOneFate(def, before, mid, after, origins, input, ctx, first, j);
      n :| n < |after| && PartialCollision(def, after[n], input[j], ctx, first + j);
      RidsApart(def, before, mid, after, origins, input, ctx, first, n, j);
    }
  }

  /** In the second PUT each candidate conflicts with a stored row. */
  lemma SecondHits(def: Def, stored: Row, later: Row, input: seq<Row>, ctx: Context, rid: nat, ctx2: Context,
      rid2: nat, j: nat)
    requires ValidDef(def) && KeysManaged(def) && GoodInput(def, input) && j < |input|
    requires Held(def, stored, input[j], ctx, rid)
    requires RowUpdated(def, stored, later, input, ctx2) && SameClientColumns(stored, later)
    ensures Conflict(def, later, NewRow(def, input[j], ctx2, rid2))
  {
    assert input[j] in input;
    if Matches(def, stored, input[j]) {
      UpdateKeepsMatches(def, stored, later, input, ctx2, input[j]);
      MatchedCollides(def, later, input[j], ctx2, rid2);
    } else {
      CollidesAgain(def, stored, later, input[j], ctx, rid, ctx2, rid2);
    }
  }

  /** Idempotence: the same PUT again, at whatever time and by whichever
      client, inserts nothing and changes no client-managed column. */
  lemma SecondPutChangesNothing(def: Def, input: seq<Row>,
      before: seq<Row>, mid: seq<Row>, after: seq<Row>, origins: seq<nat>, ctx: Context, first: nat,
      mid2: seq<Row>, after2: seq<Row>, origins2: seq<nat>, ctx2: Context, first2: nat)
    requires GoodRun(def, before, mid, after, origins, input, ctx, first) && RidsBelow(before, first)
    requires KeysManaged(def)
    requires PutRun(def, after, mid2, after2, origins2, input, ctx2, first2)
    ensures origins2 == [] && |after2| == |after|
    ensures forall n | 0 <= n < |after| :: SameClientColumns(after[n], after2[n])
  {
    forall n | 0 <= n < |after| ensures SameClientColumns(after[n], mid2[n]) {
      UpdatePhaseAgain(def, before, mid, after, origins, input, ctx, first, mid2, ctx2, n);
    }
    var candidates := Candidates(def, input, ctx2, first2);
    forall j | 0 <= j < |input| ensures Hits(Conflicts(def), mid2, candidates[j]) {
      InsertPhaseAgain(def, before, mid, after, origins, input, ctx, first, mid2, ctx2, first2, j);
    }
    AdmitNone(Conflicts(def), mid2, candidates, |input|);
  }

  lemma InsertPhaseAgain(def: Def, before: seq<Row>, mid: seq<Row>, after: seq<Row>, origins: seq<nat>, input: seq<Row>,
      ctx: Context, first: nat,
      mid2: seq<Row>, ctx2: Context, first2: nat, j: nat)
    requires GoodRun(def, before, mid, after, origins, input, ctx, first) && RidsBelow(before, first)
    requires KeysManaged(def)
    requires RowsUpdated(def, after, mid2, input, ctx2) && j < |input|
    ensures Hits(Conflicts(def), mid2, Candidates(def, input, ctx2, first2)[j])
  {
    var n := AllHeld(def, before, mid, after, origins, input, ctx, first, j);
    UpdatePhaseAgain(def, before, mid, after, origins, input, ctx, first, mid2, ctx2, n);
    SecondHits(def, after[n], mid2[n], input, ctx, first + j, ctx2, first2 + j, j);
    HitsAt(def, mid2, n, input, ctx2, first2, j);
  }

  lemma HitsAt(def: Def, rows: seq<Row>, n: nat, input: seq<Row>, ctx: Context, first: nat, j: nat)
    requires n < |rows| && j < |input| && Conflict(def, rows[n], NewRow(def, input[j], ctx, first + j))
    ensures Hits(Conflicts(def), rows, Candidates(def, input, ctx, first)[j])
  {
    CandidateAt(def, input, ctx, first, j);
    assert rows[n] in rows;
  }

  lemma UpdatePhaseAgain(def: Def, before: seq<Row>, mid: seq<Row>, after: seq<Row>, origins: seq<nat>, input: seq<Row>,
      ctx: Context, first: nat,
      mid2: seq<Row>, ctx2: Context, n: nat)
    requires GoodRun(def, before, mid, after, origins, input, ctx, first)
    requires RowsUpdated(def, after, mid2, input, ctx2) && n < |after|
    ensures SameClientColumns(after[n], mid2[n])
  {
    forall j: nat | j < |input| && Matches(def, after[n], input[j]) ensures HoldsColumns(def, after[n], input[j]) {
      HoldsInput(def, before, mid, after, origins, input, ctx, first, n, j);
    }
    UpdateAgain(def, after[n], mid2[n], input, ctx2);
  }

  lemma AdmitOne<T>(conflict: (T, T) -> bool, rows: seq<T>, candidates: seq<T>, n: nat)
    requires |rows| == |candidates| == n == 1
    ensures
      var one, r := rows[0], candidates[0];
      Admit(conflict, rows, candidates, n) == if conflict(one, r) then (rows, []) else (rows + [r], [0])
  {
    assert Admit(conflict, rows, candidates, n - 1) == (rows, []);
    var none: seq<nat> := [];
    assert none + [n - 1] == [0];
    if conflict(rows[0], candidates[0]) {
      assert rows[0] in rows;
      assert Hits(conflict, rows, candidates[n - 1]);
    } else {
      assert forall t :: t in rows ==> t == rows[0];
      assert !Hits(conflict, rows, candidates[n - 1]);
    }
  }

  // --------------------------------------------- when repetition inserts

  predicate HasClientKey(def: Def) {
    exists k | k in def.keys :: ClientKey(k)
  }

  /** An input row, and a stored row that agrees with it on `k` alone. */
  function Ones(def: Def): Row {
    map c | c in Names(def) :: Val(1)
  }

  function OnesOn(def: Def, k: set<string>): Row {
    map c | c in Names(def) :: if c in k then Val(1) else Val(0)
  }

  lemma OnesAgree(def: Def, k: set<string>, ctx: Context, rid: nat, n: string)
    requires n in Names(def) && "RID" !in k
    requires (ctx == Context(Val(1), Val(1)) && rid == 1) || (ctx == Context(Val(2), Val(2)) && rid == 2)
    ensures
      var stored, r := Field(OnesOn(def, k), n), Field(NewRow(def, Ones(def), ctx, rid), n);
      stored != Null && (stored == r <==> n in k && (rid == 1 || n !in SYSTEM_COLNAMES))
  {
  }

  /** The two rows collide at the time and for the client 1, but not 2. */
  lemma CollidesOnce(def: Def, k: set<string>, ctx: Context, rid: nat)
    requires ValidDef(def) && k in def.keys && "RID" !in k && !HoldsClientKey(def, k)
    requires (ctx == Context(Val(1), Val(1)) && rid == 1) || (ctx == Context(Val(2), Val(2)) && rid == 2)
    ensures Conflict(def, OnesOn(def, k), NewRow(def, Ones(def), ctx, rid)) <==> rid == 1
  {
    var stored, r := OnesOn(def, k), NewRow(def, Ones(def), ctx, rid);
    forall n | n in Names(def)
      ensures Field(stored, n) != Null
      ensures (Field(stored, n) == Field(r, n) <==> n in k && (rid == 1 || n !in SYSTEM_COLNAMES))
    {
      OnesAgree(def, k, ctx, rid, n);
    }
    if rid == 1 {
      assert Collide(k, stored, r);
    } else if c :| c in def.keys && Collide(c, stored, r) {
      assert c <= Names(def);
      assert ClientKey(c) && c <= k;
      assert false;
    }
  }

  lemma UnmanagedUnmatched(def: Def, k: set<string>)
    requires ValidDef(def) && HasClientKey(def) && k in def.keys && !HoldsClientKey(def, k)
    ensures !Matches(def, OnesOn(def, k), Ones(def)) && Identified(def, Ones(def))
  {
    var c :| c in def.keys && ClientKey(c);
    assert NonNullOn(c, Ones(def));
    var n :| n in c && n !in k;
    MetakeyColumn(def, c, n);
    var col :| col in MkCols(def) && col.name == n;
    assert n in Names(def) && !SameColumn(col, OnesOn(def, k), Ones(def));
  }

  lemma UnmanagedRowsOk(def: Def, k: set<string>, ctx: Context, rid: nat)
    requires ctx.now != Null && ctx.client != Null && forall r :: def.check(r)
    ensures RowOk(def, OnesOn(def, k)) && RowOk(def, NewRow(def, Ones(def), ctx, rid))
  {
  }

  lemma OneRowRest(def: Def, one: Row, rows: seq<Row>, input: seq<Row>, ctx: Context, candidates: seq<Row>)
    requires rows == [one] && |input| == |candidates| == 1
    requires !Matches(def, one, input[0]) && RowOk(def, one) && RowOk(def, candidates[0])
    ensures RowsUpdated(def, rows, rows, input, ctx) && UniqueOk(def, rows) && AllOk(def, rows)
    ensures AllOk(def, candidates)
  {
  }

  /** A PUT of one unmatched row into a table with one row. */
  lemma OneRowRun(def: Def, one: Row, i: Row, rows: seq<Row>, input: seq<Row>, ctx: Context, rid: nat)
    requires rows == [one] && input == [i] && !Matches(def, one, i) && RowOk(def, one)
    requires RowOk(def, NewRow(def, i, ctx, rid))
    ensures Conflict(def, one, NewRow(def, i, ctx, rid)) ==> PutRun(def, rows, rows, rows, [], input, ctx, rid)
    ensures !Conflict(def, one, NewRow(def, i, ctx, rid)) ==>
      PutRun(def, rows, rows, rows + Candidates(def, input, ctx, rid), [0], input, ctx, rid)
  {
    var candidates := Candidates(def, input, ctx, rid);
    CandidateAt(def, input, ctx, rid, 0);
    OneRowRest(def, one, rows, input, ctx, candidates);
    AdmitOne(Conflicts(def), rows, candidates, 1);
    assert candidates == [candidates[0]];
  }

  /** The key has no RID and includes no client-managed key, and no row
      constraint beyond NOT NULL stands in the way. */
  ghost predicate Unmanaged(def: Def, k: set<string>) {
    && ValidDef(def) && HasClientKey(def)
    && k in def.keys && "RID" !in k && !HoldsClientKey(def, k)
    && forall r :: def.check(r)
  }

  lemma UnmanagedRun(def: Def, k: set<string>, ctx: Context, rid: nat, rows: seq<Row>, input: seq<Row>)
    requires Unmanaged(def, k)
    requires (ctx == Context(Val(1), Val(1)) && rid == 1) || (ctx == Context(Val(2), Val(2)) && rid == 2)
    requires rows == [OnesOn(def, k)] && input == [Ones(def)]
    ensures rid == 1 ==> PutRun(def, rows, rows, rows, [], input, ctx, rid)
    ensures rid == 2 ==> PutRun(def, rows, rows, rows + Candidates(def, input, ctx, rid), [0], input, ctx, rid)
  {
    UnmanagedUnmatched(def, k);
    UnmanagedRowsOk(def, k, ctx, rid);
    CollidesOnce(def, k, ctx, rid);
    OneRowRun(def, OnesOn(def, k), Ones(def), rows, input, ctx, rid);
  }

  lemma OneRowGood(def: Def, one: Row, i: Row, rows: seq<Row>, input: seq<Row>)
    requires rows == [one] && input == [i] && RowOk(def, one) && Identified(def, i) && RidBelow(one, 1)
    ensures UniqueOk(def, rows) && AllOk(def, rows) && GoodInput(def, input) && RidsBelow(rows, 1)
  {
  }

  /** Such a key spoils idempotence: a row that one client's PUT skipped is
      inserted when another client repeats it. */
  lemma UnmanagedKeyInserts(def: Def, k: set<string>, rows: seq<Row>, input: seq<Row>, ctx: Context, ctx2: Context)
    requires Unmanaged(def, k)
    requires ctx == Context(Val(1), Val(1)) && ctx2 == Context(Val(2), Val(2))
    requires rows == [OnesOn(def, k)] && input == [Ones(def)]
    ensures GoodRun(def, rows, rows, rows, [], input, ctx, 1) && RidsBelow(rows, 1)
    ensures PutRun(def, rows, rows, rows + Candidates(def, input, ctx2, 2), [0], input, ctx2, 2)
  {
    UnmanagedUnmatched(def, k);
    UnmanagedRowsOk(def, k, ctx, 1);
    OneRowGood(def, OnesOn(def, k), Ones(def), rows, input);
    UnmanagedRun(def, k, ctx, 1, rows, input);
    UnmanagedRun(def, k, ctx2, 2, rows, input);
  }

  /** A PUT and its repetition. */
  ghost predicate Repeated(def: Def, input: seq<Row>, before: seq<Row>, mid: seq<Row>, after: seq<Row>,
      origins: seq<nat>, ctx: Context, first: nat,
      mid2: seq<Row>, after2: seq<Row>, origins2: seq<nat>, ctx2: Context, first2: nat)
  {
    && GoodRun(def, before, mid, after, origins, input, ctx, first) && RidsBelow(before, first)
    && PutRun(def, after, mid2, after2, origins2, input, ctx2, first2)
  }

  ghost predicate NothingChanged(after: seq<Row>, after2: seq<Row>, origins2: seq<nat>) {
    origins2 == [] && |after2| == |after| && forall n | 0 <= n < |after| :: SameClientColumns(after[n], after2[n])
  }

  /** Repeating any PUT on such a table changes no client-managed column. */
  ghost predicate Idempotent(def: Def) {
    forall input, before, mid, after, origins, ctx, first, mid2, after2, origins2, ctx2, first2 ::
      Repeated(def, input, before, mid, after, origins, ctx, first, mid2, after2, origins2, ctx2, first2) ==>
        NothingChanged(after, after2, origins2)
  }

  /** Exactly when PUT is idempotent on a table with some client-managed key
      and no row constraint beyond NOT NULL. */
  lemma IdempotentExactly(def: Def)
    requires ValidDef(def) && HasClientKey(def) && forall r :: def.check(r)
    ensures Idempotent(def) <==> KeysManaged(def)
  {
    if KeysManaged(def) {
      forall input, before, mid, after, origins, ctx, first, mid2, after2, origins2, ctx2, first2 |
        Repeated(def, input, before, mid, after, origins, ctx, first, mid2, after2, origins2, ctx2, first2)
        ensures NothingChanged(after, after2, origins2)
      {
        SecondPutChangesNothing(def, input, before, mid, after, origins, ctx, first, mid2, after2, origins2,
          ctx2, first2);
      }
    } else {
      var k :| k in def.keys && "RID" !in k && !HoldsClientKey(def, k);
      var rows, input, ctx, ctx2 := [OnesOn(def, k)], [Ones(def)], Context(Val(1), Val(1)), Context(Val(2), Val(2));
      UnmanagedKeyInserts(def, k, rows, input, ctx, ctx2);
      assert Repeated(def, input, rows, rows, rows, [], ctx, 1, rows, rows + Candidates(def, input, ctx2, 2),
        [0], ctx2, 2);
      assert !NothingChanged(rows, rows + Candidates(def, input, ctx2, 2), [0]);
    }
  }

  /** A table with a unique key on a column and the creating client. */
  lemma ClientPartedKey(def: Def)
    requires def == Def([Column("id", false), Column("x", false), Column("RCB", false)],
      {{"id"}, {"RCB", "x"}}, r => true)
    ensures ValidDef(def)
  {
    assert def.columns[0].name == "id" && def.columns[1].name == "x" && def.columns[2].name == "RCB";
    assert def.columns[0] in def.columns && def.columns[1] in def.columns && def.columns[2] in def.columns;
  }

  lemma ClientPartedKeyUnmanaged(def: Def)
    requires def.keys == {{"id"}, {"RCB", "x"}}
    ensures HasClientKey(def) && !KeysManaged(def)
  {
    assert {"id"} in def.keys && ClientKey({"id"});
    assert {"RCB", "x"} in def.keys && "id" !in {"RCB", "x"} && "RID" !in {"RCB", "x"};
    assert "RCB" in {"RCB", "x"} && !ClientKey({"RCB", "x"});
    assert !HoldsClientKey(def, {"RCB", "x"});
  }

  /** On it repetition can insert. */
  lemma SystemKeyNotIdempotent(def: Def)
    requires def == Def([Column("id", false), Column("x", false), Column("RCB", false)],
      {{"id"}, {"RCB", "x"}}, r => true)
    ensures ValidDef(def) && HasClientKey(def) && !Idempotent(def)
  {
    ClientPartedKey(def);
    ClientPartedKeyUnmanaged(def);
    IdempotentExactly(def);
  }

  // ---------------------------------------------------------------------
  // The request
  // ---------------------------------------------------------------------

  datatype PutError = BadSyntax | ConflictModel | BadData | Forbidden | Integrity

  /** Static rights, as far as they decide the request. */
  datatype Rights = Rights(update: bool, insert: bool)

  predicate HasNmkCols(def: Def) {
    exists c | c in def.columns :: IsNmkCol(def, c)
  }

  predicate WillInsert(def: Def, rows: seq<Row>, input: seq<Row>) {
    exists i | i in input :: Unmatched(def, rows, i) && !NoKey(def, i)
  }

  predicate Permitted(def: Def, rows: seq<Row>, input: seq<Row>, rights: Rights) {
    if HasNmkCols(def) then rights.update && (WillInsert(def, rows, input) ==> rights.insert) else rights.insert
  }

  /** For identified rows the probe is exact, so when it finds nothing the PUT
      inserts nothing. */
  lemma ProbeDecides(def: Def, before: seq<Row>, mid: seq<Row>, after: seq<Row>, origins: seq<nat>, input: seq<Row>,
      ctx: Context, first: nat)
    requires GoodRun(def, before, mid, after, origins, input, ctx, first)
    ensures WillInsert(def, before, input) <==> exists i | i in input :: Unmatched(def, before, i)
    ensures !WillInsert(def, before, input) ==> origins == []
  {
    forall i | i in input ensures !NoKey(def, i) {
      IdentifiedHasKey(def, i);
    }
    OthersUnchanged(def, before, mid, after, origins, input, ctx, first);
    if origins != [] {
      var i := input[origins[0]];
      forall t | t in before ensures !Matches(def, t, i) {
        var k :| 0 <= k < |before| && before[k] == t;
        assert !Matching(def)(before[k], i);
      }
      assert i in input && Unmatched(def, before, i);
    }
  }

  lemma IdentifiedHasKey(def: Def, i: Row)
    requires ValidDef(def) && Identified(def, i)
    ensures !NoKey(def, i)
  {
    var k :| k in def.keys && ClientKey(k) && NonNullOn(k, i);
    var c :| c in k;
    MetakeyColumn(def, k, c);
  }

  /** What both statements require of the rows. */
  ghost predicate Storable(def: Def, mid: seq<Row>, input: seq<Row>, ctx: Context, first: nat) {
    UniqueOk(def, mid) && AllOk(def, mid) && AllOk(def, Candidates(def, input, ctx, first))
  }

  /** The request passes everything that comes before the statements. */
  predicate Admissible(def: Def, filtered: bool, writable: bool, rows: seq<Row>, input: seq<Row>, rights: Rights) {
    !filtered && writable && MkCols(def) != [] && Accepted(def, input) && Permitted(def, rows, input, rights)
  }

  /** With distinct metakeys the UPDATE leaves nothing to choice. */
  lemma UpdateDetermined(def: Def, before: seq<Row>, mid: seq<Row>, mid2: seq<Row>, input: seq<Row>, ctx: Context)
    requires DistinctMetakeys(def, input)
    requires RowsUpdated(def, before, mid, input, ctx) && RowsUpdated(def, before, mid2, input, ctx)
    ensures mid == mid2
  {
    forall k | 0 <= k < |before| ensures mid[k] == mid2[k] {
      var a := before[k];
      assert RowUpdated(def, a, mid[k], input, ctx) && RowUpdated(def, a, mid2[k], input, ctx);
      if j :| 0 <= j < |input| && Matches(def, a, input[j]) {
        UpdateDecided(def, a, mid[k], input, ctx, j);
        UpdateDecided(def, a, mid2[k], input, ctx, j);
      }
    }
  }

  /** A request for a table with columns outside all keys, by a client with the
      right to update and not to insert. */
  predicate UpdateOnly(def: Def, filtered: bool, writable: bool, input: seq<Row>, rights: Rights) {
    && !filtered && writable && MkCols(def) != [] && Accepted(def, input)
    && HasNmkCols(def) && rights.update && !rights.insert
  }

  predicate AllIdentified(def: Def, input: seq<Row>) {
    ValidDef(def) && forall i | i in input :: Identified(def, i)
  }

  /** A table whose rows keep its keys and constraints. */
  predicate Sound(def: Def, rows: seq<Row>) {
    ValidDef(def) && UniqueOk(def, rows) && AllOk(def, rows)
  }

  lemma AllHaveKeys(def: Def, input: seq<Row>)
    requires AllIdentified(def, input)
    ensures forall i | i in input :: !NoKey(def, i)
  {
    forall i | i in input ensures !NoKey(def, i) {
      IdentifiedHasKey(def, i);
    }
  }

  /** Without the right to insert, identified rows are never inserted. */
  lemma InsertNeedsRight(def: Def, before: seq<Row>, mid: seq<Row>, after: seq<Row>, origins: seq<nat>, input: seq<Row>,
      ctx: Context, first: nat, rights: Rights)
    requires Sound(def, before) && GoodInput(def, input) && PutRun(def, before, mid, after, origins, input, ctx, first)
    requires Permitted(def, before, input, rights) && !rights.insert
    ensures origins == []
  {
    ProbeDecides(def, before, mid, after, origins, input, ctx, first);
  }

  lemma AdmitFirst<T>(conflict: (T, T) -> bool, candidates: seq<T>, n: nat)
    requires |candidates| == n == 1
    ensures Admit(conflict, [], candidates, n) == (candidates, [0])
  {
    assert Admit(conflict, [], candidates, n - 1) == ([], []);
    var none: seq<nat> := [];
    assert none + [n - 1] == [0] && candidates == [] + [candidates[0]];
  }

  /** A row goes into an empty table. */
  lemma FirstInserted(def: Def, i: Row, input: seq<Row>, ctx: Context, first: nat)
    requires input == [i] && RowOk(def, NewRow(def, i, ctx, first))
    ensures PutRun(def, [], [], Candidates(def, input, ctx, first), [0], input, ctx, first)
  {
    CandidateAt(def, input, ctx, first, 0);
    AdmitFirst(Conflicts(def), Candidates(def, input, ctx, first), 1);
  }

  ghost predicate NullableKeyTable(def: Def) {
    def == Def([Column("x", true), Column("y", true)], {{"x"}}, r => true)
  }

  lemma NullableKeyColumns(def: Def)
    requires NullableKeyTable(def)
    ensures HasNmkCols(def) && forall c | c in MkCols(def) :: c == Column("x", true)
  {
    assert def.columns[0].name == "x" && def.columns[1].name == "y";
    assert "x" in {"x"} && {"x"} in def.keys && "y" !in {"x"};
    SelectMembers(def.columns, c => IsMkCol(def, c));
    assert def.columns[1] in def.columns && IsNmkCol(def, def.columns[1]);
  }

  /** But a row without key information is: with the right to update alone it
      passes for matched, and is inserted into an empty table. */
  lemma KeylessRowInserted(def: Def, i: Row, input: seq<Row>, ctx: Context, rights: Rights)
    requires NullableKeyTable(def) && rights == Rights(true, false)
    requires i == map["x" := Null, "y" := Val(1)] && input == [i]
    ensures Permitted(def, [], input, rights)
    ensures PutRun(def, [], [], Candidates(def, input, ctx, 0), [0], input, ctx, 0)
  {
    NullableKeyColumns(def);
    assert Field(i, "x") == Null;
    assert RowOk(def, NewRow(def, i, ctx, 0));
    FirstInserted(def, i, input, ctx, 0);
  }

  class Table {
    const def: Def
    var rows: seq<Row>
    var sequence: nat

    constructor (def: Def, rows: seq<Row>, sequence: nat)
      ensures this.def == def && this.rows == rows && this.sequence == sequence
    {
      this.def, this.rows, this.sequence := def, rows, sequence;
    }

    /** Some input row that matches `t`. */
    method FindMatch(t: Row, input: seq<Row>) returns (j: Option<nat>)
      ensures j.Some? ==> j.value < |input| && Matches(def, t, input[j.value])
      ensures j.None? ==> forall n | 0 <= n < |input| :: !Matches(def, t, input[n])
    {
      var n := 0;
      while n < |input|
        invariant n <= |input| && forall m | 0 <= m < n :: !Matches(def, t, input[m])
      {
        if Matches(def, t, input[n]) {
          return Some(n);
        }
        n := n + 1;
      }
      j := None;
    }

    method PerformUpdate(input: seq<Row>, ctx: Context)
      modifies `rows
      ensures RowsUpdated(def, old(rows), rows, input, ctx)
    {
      var k := 0;
      while k < |rows|
        invariant k <= |rows| == |old(rows)|
        invariant forall n | 0 <= n < k :: RowUpdated(def, old(rows)[n], rows[n], input, ctx)
        invariant forall n | k <= n < |rows| :: rows[n] == old(rows)[n]
      {
        var j := FindMatch(rows[k], input);
        if j.Some? {
          rows := rows[k := Overwrite(def, rows[k], input[j.value], ctx)];
        }
        k := k + 1;
      }
    }

    method PerformInsert(input: seq<Row>, ctx: Context) returns (origins: seq<nat>)
      modifies `rows, `sequence
      ensures (rows, origins) == Admit(Conflicts(def), old(rows), Candidates(def, input, ctx, old(sequence)), |input|)
      ensures sequence == old(sequence) + |input|
    {
      origins := [];
      var j := 0;
      while j < |input|
        invariant j <= |input| && sequence == old(sequence) + j
        invariant (rows, origins) == Admit(Conflicts(def), old(rows), Candidates(def, input, ctx, old(sequence)), j)
      {
        var r := NewRow(def, input[j], ctx, sequence);
        sequence := sequence + 1;
        if !Hits(Conflicts(def), rows, r) {
          rows := rows + [r];
          origins := origins + [j];
        }
        j := j + 1;
      }
    }

    /** PUT of entities. On any error the transaction leaves the rows as they
        were. */
    method Put(filtered: bool, writable: bool, input: seq<Row>, rights: Rights, ctx: Context)
        returns (r: Result<seq<nat>, PutError>)
      modifies `rows, `sequence
      ensures filtered ==> r == Err(BadSyntax)
      ensures !filtered && (!writable || MkCols(def) == []) ==> r == Err(ConflictModel)
      ensures !filtered && writable && MkCols(def) != [] && !Accepted(def, input) ==> r == Err(BadData)
      ensures !filtered && writable && MkCols(def) != [] && Accepted(def, input) ==>
        (r == Err(Forbidden) <==> !Permitted(def, old(rows), input, rights))
      ensures rights.update && rights.insert ==> r != Err(Forbidden)
      ensures r.Ok? ==> if HasNmkCols(def) then rights.update else rights.insert
      ensures UpdateOnly(def, filtered, writable, input, rights) ==>
        (r == Err(Forbidden) <==> exists i | i in input :: Unmatched(def, old(rows), i) && !NoKey(def, i))
      ensures UpdateOnly(def, filtered, writable, input, rights) && AllIdentified(def, input) ==>
        (r == Err(Forbidden) <==> exists i | i in input :: Unmatched(def, old(rows), i))
      ensures r.Ok? && Sound(def, old(rows)) && GoodInput(def, input) && r.value != [] ==> rights.insert
      ensures Admissible(def, filtered, writable, old(rows), input, rights) <==> r.Ok? || r == Err(Integrity)
      ensures r == Err(Integrity) ==> exists mid ::
        RowsUpdated(def, old(rows), mid, input, ctx) && !Storable(def, mid, input, ctx, old(sequence))
      ensures Admissible(def, filtered, writable, old(rows), input, rights) && DistinctMetakeys(def, input) ==>
        (r == Err(Integrity) <==> forall mid ::
          RowsUpdated(def, old(rows), mid, input, ctx) ==> !Storable(def, mid, input, ctx, old(sequence)))
      ensures r.Err? ==> rows == old(rows)
      ensures r.Ok? ==> sequence == old(sequence) + |input|
      ensures r.Ok? ==> exists mid :: PutRun(def, old(rows), mid, rows, r.value, input, ctx, old(sequence))
    {
      if filtered {
        return Err(BadSyntax);
      }
      if !writable || MkCols(def) == [] {
        return Err(ConflictModel);
      }
      if !Accepted(def, input) {
        return Err(BadData);
      }
      if AllIdentified(def, input) {
        AllHaveKeys(def, input);
      }
      if !Permitted(def, rows, input, rights) {
        return Err(Forbidden);
      }
      var before := rows;
      PerformUpdate(input, ctx);
      forall mid | DistinctMetakeys(def, input) && RowsUpdated(def, before, mid, input, ctx) ensures mid == rows {
        UpdateDetermined(def, before, mid, rows, input, ctx);
      }
      if !UniqueOk(def, rows) || !AllOk(def, rows) || !AllOk(def, Candidates(def, input, ctx, sequence)) {
        assert !Storable(def, rows, input, ctx, sequence);
        rows := before;
        return Err(Integrity);
      }
      ghost var mid := rows;
      var origins := PerformInsert(input, ctx);
      assert PutRun(def, before, mid, rows, origins, input, ctx, old(sequence));
      if Sound(def, before) && GoodInput(def, input) && !rights.insert {
        InsertNeedsRight(def, before, mid, rows, origins, input, ctx, old(sequence), rights);
      }
      r := Ok(origins);
    }
  }
}
