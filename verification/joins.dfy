/** FROM clauses as sequences of row-instance bindings, for inner and outer
    joins, and when a filter may move from a joined table into the ON clause. */
module Joins {
  import opened Sql
  import opened Paths

  /** One FROM item with its rows already computed. */
  datatype Source = Source(rows: seq<Row>, alias: string, kind: OuterType, on: Cond)

  ghost function Matches(db: Db, e: Env, rows: seq<Row>, a: string, on: Cond): seq<Env> {
    if rows == [] then []
    else (if Holds(db, e[a := rows[0]], on) then [e[a := rows[0]]] else []) + Matches(db, e, rows[1..], a, on)
  }

  ghost function LeftOf(db: Db, d: Env, s: Source): seq<Env> {
    var ms := Matches(db, d, s.rows, s.alias, s.on);
    if ms == [] && s.kind in {LeftOuter, FullOuter} then [d[s.alias := map[]]] else ms
  }

  ghost function LeftPart(db: Db, acc: seq<Env>, s: Source): seq<Env> {
    if acc == [] then [] else LeftOf(db, acc[0], s) + LeftPart(db, acc[1..], s)
  }

  ghost predicate Unmatched(db: Db, acc: seq<Env>, r: Row, s: Source) {
    forall e | e in acc :: !Holds(db, e[s.alias := r], s.on)
  }

  /** Right rows that nothing matched, null-extended on the left. */
  ghost function RightPart(db: Db, acc: seq<Env>, rows: seq<Row>, s: Source): seq<Env> {
    if rows == [] then []
    else (if Unmatched(db, acc, rows[0], s) then [map[s.alias := rows[0]]] else []) + RightPart(db, acc, rows[1..], s)
  }

  ghost function JoinSource(db: Db, acc: seq<Env>, s: Source): seq<Env> {
    LeftPart(db, acc, s)
    + if s.kind in {RightOuter, FullOuter} then RightPart(db, acc, s.rows, s) else []
  }

  /** Row `r` goes with `d`. */
  ghost predicate Fits(db: Db, d: Env, r: Row, s: Source) {
    Holds(db, d[s.alias := r], s.on)
  }

  lemma {:induction false} MatchesMember(db: Db, d: Env, rows: seq<Row>, s: Source, e: Env)
    ensures e in Matches(db, d, rows, s.alias, s.on) <==>
      exists r | r in rows :: e == d[s.alias := r] && Fits(db, d, r, s)
    ensures Matches(db, d, rows, s.alias, s.on) == [] <==> forall r | r in rows :: !Fits(db, d, r, s)
  {
    if rows != [] {
      MatchesMember(db, d, rows[1..], s, e);
      assert forall r :: r in rows <==> r == rows[0] || r in rows[1..];
      assert Fits(db, d, rows[0], s) <==> Holds(db, d[s.alias := rows[0]], s.on);
    }
  }

  /** What the rows before a join become: joined with each row that fits, or, in
      a left or full join and if none does, null-extended. */
  ghost predicate FromLeft(db: Db, d: Env, s: Source, e: Env) {
    || (exists r | r in s.rows :: e == d[s.alias := r] && Fits(db, d, r, s))
    || (s.kind in {LeftOuter, FullOuter} && e == d[s.alias := map[]] && forall r | r in s.rows :: !Fits(db, d, r, s))
  }

  lemma LeftOfMember(db: Db, d: Env, s: Source, e: Env)
    ensures e in LeftOf(db, d, s) <==> FromLeft(db, d, s, e)
  {
    MatchesMember(db, d, s.rows, s, e);
  }

  lemma {:induction false} LeftPartMember(db: Db, acc: seq<Env>, s: Source, e: Env)
    ensures e in LeftPart(db, acc, s) <==> exists d | d in acc :: FromLeft(db, d, s, e)
  {
    if acc != [] {
      LeftOfMember(db, acc[0], s, e);
      LeftPartMember(db, acc[1..], s, e);
      assert forall d :: d in acc <==> d == acc[0] || d in acc[1..];
    }
  }

  lemma {:induction false} RightPartMember(db: Db, acc: seq<Env>, rows: seq<Row>, s: Source, e: Env)
    ensures e in RightPart(db, acc, rows, s) <==>
      exists r | r in rows :: e == map[s.alias := r] && forall d | d in acc :: !Fits(db, d, r, s)
  {
    if rows != [] {
      RightPartMember(db, acc, rows[1..], s, e);
      assert rows == [rows[0]] + rows[1..];
      assert Unmatched(db, acc, rows[0], s) <==> forall d | d in acc :: !Fits(db, d, rows[0], s);
    }
  }

  /** A join of any kind: the pairs that fit, null-extended left rows in left and
      full joins, and null-extended right rows in right and full joins. */
  lemma JoinedExactly(db: Db, acc: seq<Env>, s: Source, e: Env)
    ensures e in JoinSource(db, acc, s) <==>
      || (exists d | d in acc :: FromLeft(db, d, s, e))
      || (s.kind in {RightOuter, FullOuter}
          && exists r | r in s.rows :: e == map[s.alias := r] && forall d | d in acc :: !Fits(db, d, r, s))
  {
    LeftPartMember(db, acc, s, e);
    RightPartMember(db, acc, s.rows, s, e);
  }

  /** SELECT * FROM rows AS a WHERE c */
  ghost function Select(db: Db, rows: seq<Row>, a: string, c: Cond): seq<Row> {
    if rows == [] then []
    else (if Holds(db, map[a := rows[0]], c) then [rows[0]] else []) + Select(db, rows[1..], a, c)
  }

  lemma {:induction false} SelectMember(db: Db, rows: seq<Row>, a: string, c: Cond, r: Row)
    ensures r in Select(db, rows, a, c) <==> r in rows && Holds(db, map[a := r], c)
  {
    if rows != [] {
      SelectMember(db, rows[1..], a, c, r);
      assert rows == [rows[0]] + rows[1..];
    }
  }

  /** A row condition that sees only its own row. */
  ghost predicate RowLocal(c: Cond, a: string) {
    forall b | Mentions(c, b) :: b == a
  }

  lemma RowLocalEval(db: Db, e: Env, a: string, r: Row, c: Cond)
    requires RowLocal(c, a)
    ensures Eval(db, e[a := r], c) == Eval(db, map[a := r], c)
  {
    EvalDependsOnMentioned(db, e[a := r], map[a := r], c);
  }

  lemma LiftedOn(db: Db, e: Env, a: string, r: Row, on: Cond, c: Cond)
    requires RowLocal(c, a)
    ensures Holds(db, e[a := r], And([on, c])) <==> Holds(db, e[a := r], on) && Holds(db, map[a := r], c)
  {
    RowLocalEval(db, e, a, r, c);
    AndOrTrue(db, e[a := r], [on, c]);
    assert [on, c][0] == on && [on, c][1] == c;
  }

  lemma {:induction false} LiftedMatches(db: Db, e: Env, rows: seq<Row>, a: string, on: Cond, c: Cond)
    requires RowLocal(c, a)
    ensures Matches(db, e, rows, a, And([on, c])) == Matches(db, e, Select(db, rows, a, c), a, on)
  {
    if rows != [] {
      LiftedMatches(db, e, rows[1..], a, on, c);
      LiftedOn(db, e, a, rows[0], on, c);
      var rest := Select(db, rows[1..], a, c);
      if Holds(db, map[a := rows[0]], c) {
        assert Select(db, rows, a, c)[0] == rows[0] && Select(db, rows, a, c)[1..] == rest;
      } else {
        assert Select(db, rows, a, c) == rest;
      }
    }
  }

  lemma {:induction false} LiftedLeftPart(db: Db, acc: seq<Env>, rows: seq<Row>, a: string, kind: OuterType,
      on: Cond, c: Cond)
    requires RowLocal(c, a)
    ensures LeftPart(db, acc, Source(rows, a, kind, And([on, c]))) ==
            LeftPart(db, acc, Source(Select(db, rows, a, c), a, kind, on))
  {
    if acc != [] {
      LiftedMatches(db, acc[0], rows, a, on, c);
      LiftedLeftPart(db, acc[1..], rows, a, kind, on, c);
    }
  }

  ghost function Rejected(db: Db, rows: seq<Row>, a: string, c: Cond): nat {
    if rows == [] then 0
    else (if Holds(db, map[a := rows[0]], c) then 0 else 1) + Rejected(db, rows[1..], a, c)
  }

  /** In a right or full join every row the moved filter rejects comes back,
      null-extended. */
  lemma {:induction false} LiftedRightPart(db: Db, acc: seq<Env>, rows: seq<Row>, all: seq<Row>, a: string,
      kind: OuterType, on: Cond, c: Cond)
    requires RowLocal(c, a)
    ensures |RightPart(db, acc, rows, Source(all, a, kind, And([on, c])))| ==
            |RightPart(db, acc, Select(db, rows, a, c), Source(Select(db, all, a, c), a, kind, on))|
              + Rejected(db, rows, a, c)
    ensures Rejected(db, rows, a, c) == 0 ==>
            RightPart(db, acc, rows, Source(all, a, kind, And([on, c]))) ==
            RightPart(db, acc, Select(db, rows, a, c), Source(Select(db, all, a, c), a, kind, on))
  {
    if rows != [] {
      LiftedRightPart(db, acc, rows[1..], all, a, kind, on, c);
      forall e | e in acc { LiftedOn(db, e, a, rows[0], on, c); }
      assert forall e | e in acc ::
        Holds(db, e[a := rows[0]], And([on, c])) <==> Holds(db, e[a := rows[0]], on) && Holds(db, map[a := rows[0]], c);
      var rest := Select(db, rows[1..], a, c);
      if Holds(db, map[a := rows[0]], c) {
        assert Select(db, rows, a, c)[0] == rows[0] && Select(db, rows, a, c)[1..] == rest;
      } else {
        assert Select(db, rows, a, c) == rest;
      }
    }
  }

  lemma {:induction false} NoneRejected(db: Db, rows: seq<Row>, a: string, c: Cond)
    ensures Rejected(db, rows, a, c) == 0 <==> forall r | r in rows :: Holds(db, map[a := r], c)
  {
    if rows != [] {
      NoneRejected(db, rows[1..], a, c);
      assert rows == [rows[0]] + rows[1..];
    }
  }

  /** Moving a table's own row condition from a filtered subquery into the ON
      clause keeps the result of every inner and left join; for right and full
      joins it does so exactly when the condition rejects no row, and otherwise
      the two results differ already in size. */
  lemma LiftRowCondition(db: Db, acc: seq<Env>, rows: seq<Row>, a: string, kind: OuterType, on: Cond, c: Cond)
    requires RowLocal(c, a)
    ensures
      var lifted := JoinSource(db, acc, Source(rows, a, kind, And([on, c])));
      var filtered := JoinSource(db, acc, Source(Select(db, rows, a, c), a, kind, on));
      && (lifted == filtered <==> kind in {NotOuter, LeftOuter} || forall r | r in rows :: Holds(db, map[a := r], c))
      && (lifted != filtered ==> |lifted| > |filtered|)
  {
    LiftedLeftPart(db, acc, rows, a, kind, on, c);
    LiftedRightPart(db, acc, rows, rows, a, kind, on, c);
    NoneRejected(db, rows, a, c);
  }

  /** The guard on the join kind is needed: a right join with a rejected row. */
  lemma RightJoinLiftDiffers(db: Db)
    ensures
      var rows, no: Cond := [map[]], Const(false);
      JoinSource(db, [], Source(rows, "t1", RightOuter, And([Const(true), no]))) !=
      JoinSource(db, [], Source(Select(db, rows, "t1", no), "t1", RightOuter, Const(true)))
  {
  }
}
