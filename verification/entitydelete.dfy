/** Deleting the entities a path finds, and when the dynamic check before it
    protects them. */
module EntityDelete {
  import opened Wrappers
  import opened Sql
  import opened Aliases
  import opened Paths
  import opened DynAclEquivalence
  import opened Joins
  import opened PolicyViews
  import opened EntityQuery
  import opened EntityResults

  /** `Failed` is an error of the statements themselves. */
  datatype Outcome = Refused | Unwritable | Failed | NothingFound | Deleted(rest: seq<Row>)

  function PrimaryKeys(def: TableDef, keys: seq<seq<string>>): (r: seq<seq<string>>)
    ensures forall k :: k in r <==> k in keys && IsPrimaryKey(def, k)
  {
    if keys == [] then []
    else (if IsPrimaryKey(def, keys[0]) then [keys[0]] else []) + PrimaryKeys(def, keys[1..])
  }

  predicate HasPrimaryKey(m: Tables, t: TableId) {
    t in m && PrimaryKeys(m[t], m[t].uniques) != []
  }

  function Together(keys: seq<seq<string>>): seq<string> {
    if keys == [] then [] else keys[0] + Together(keys[1..])
  }

  /** The columns that victims are matched on: the first shortest key without
      nullable columns, or those of all keys. */
  function MatchColumns(m: Tables, t: TableId): seq<string> {
    if HasPrimaryKey(m, t) then Shortest(PrimaryKeys(m[t], m[t].uniques))
    else if t in m then Together(m[t].uniques)
    else []
  }

  /** The table of victims has the columns that the client can list; it is
      indexed by those that are matched. */
  predicate Indexable(v: World, t: TableId) {
    MatchColumns(v.x.m.tables, t) != [] && KeyListed(v, t, MatchColumns(v.x.m.tables, t))
  }

  /** Stored rows whose key matches no victim's. */
  ghost function Survivors(rows: seq<Row>, victims: seq<Env>, a: string, key: seq<string>): seq<Row> {
    if rows == [] then []
    else (if Represented(victims, rows[0], a, key) then [] else [rows[0]]) + Survivors(rows[1..], victims, a, key)
  }

  lemma IndexableExactly(v: World, t: TableId)
    ensures Indexable(v, t) <==>
      MatchColumns(v.x.m.tables, t) != [] && forall c | c in MatchColumns(v.x.m.tables, t) :: Listed(v, t, c)
  {
    var key := MatchColumns(v.x.m.tables, t);
    if Indexable(v, t) {
      forall c | c in key ensures Listed(v, t, c) {
        var i :| 0 <= i < |key| && key[i] == c;
      }
    }
    if forall c | c in key :: Listed(v, t, c) {
      assert forall i | 0 <= i < |key| :: key[i] in key;
    }
  }

  /** The check looks for rows the client may not delete; the victims are
      found by the path over bare tables. Matching on a nullable column fails,
      for its condition has a malformed placeholder. */
  ghost function Delete(db: Db, v: World, p: Path, writable: bool): Outcome
    requires WellFormed(p) && AllCompile(v, p)
  {
    var t := p.elems[Position(p)].table;
    var decision, key := Decide(v, TableRes(t), "delete"), MatchColumns(v.x.m.tables, t);
    if decision == R.Deny then Refused
    else if !writable then Unwritable
    else if !ReadableColumns(v, t) then Refused
    else if decision == R.Maybe && Found(db, v, p, Some(false), "delete", "") != [] then Refused
    else if !Indexable(v, t) then Failed
    else
      var victims := Found(db, v, p, None, "select", "");
      if victims == [] then NothingFound
      else if !HasPrimaryKey(v.x.m.tables, t) then Failed
      else Deleted(Survivors(TableRows(db, t), victims, Alias("", Position(p)), key))
  }

  /** What the check reads: the context element bare, every other element as
      the client's 'select' view. */
  ghost function SeenSources(db: Db, v: World, p: Path): seq<Source>
    requires WellFormed(p) && AllCompile(v, p)
  {
    seq(|p.elems|, i requires 0 <= i < |p.elems| =>
      FilteredSource(db, v, p, p.elems[i], if i == Position(p) then None else Some(true), "select", ""))
  }

  /** A candidate for deletion that the client can see through the other
      elements of the path. */
  ghost predicate SeenVictim(db: Db, v: World, p: Path, e: Env)
    requires WellFormed(p) && AllCompile(v, p)
  {
    Assignment(db, SeenSources(db, v, p), e) && AllHold(db, e, PathWheres(v.x.m.tables, v.x.attrs, p.elems, ""))
  }

  ghost predicate DeleteAdmits(db: Db, v: World, p: Path, e: Env)
    requires WellFormed(p) && AllCompile(v, p)
  {
    var t, a := p.elems[Position(p)].table, Alias("", Position(p));
    Holds(db, map[a := At(e, a)], Or(TableClauses(v, t, "delete", a)))
  }

  /** The check finds exactly the seen victims whose delete policy fails. */
  lemma RefusalWitness(db: Db, v: World, p: Path, e: Env)
    requires InnerPath(p) && AllCompile(v, p)
    ensures Witnesses(db, v, p, Some(false), "delete", "", e) <==> SeenVictim(db, v, p, e) && !DeleteAdmits(db, v, p, e)
  {
    var c := Position(p);
    var t, a := p.elems[c].table, Alias("", c);
    var xs, ys := FilteredSources(db, v, p, Some(false), "delete", ""), SeenSources(db, v, p);
    forall i | 0 <= i < |xs| ensures xs[i].alias == ys[i].alias && xs[i].on == ys[i].on && (i != c ==> xs[i] == ys[i]) {
      assert ElemOk(p, i);
    }
    SameInstances(xs, ys, e);
    assert ElemOk(p, c);
    var cs := TableClauses(v, t, "delete", a);
    forall r ensures r in xs[c].rows <==> r in ys[c].rows && !Holds(db, map[a := r], Or(cs)) {
      SelectMember(db, TableRows(db, t), a, And(Negated(cs)), r);
      PositiveXorNegative(db, map[a := r], cs);
    }
    RefusedRow(db, xs, ys, c, e, Or(cs));
  }

  lemma SameInstances(xs: seq<Source>, ys: seq<Source>, e: Env)
    requires |xs| == |ys| && forall i | 0 <= i < |xs| :: xs[i].alias == ys[i].alias
    ensures Instances(xs, e) <==> Instances(ys, e)
  {
    forall b ensures HasAlias(xs, b) <==> HasAlias(ys, b) {
      if i :| 0 <= i < |xs| && b == xs[i].alias { assert b == ys[i].alias; }
      if i :| 0 <= i < |ys| && b == ys[i].alias { assert b == xs[i].alias; }
    }
  }

  lemma RefusedRow(db: Db, xs: seq<Source>, ys: seq<Source>, c: nat, e: Env, policy: Cond)
    requires |xs| == |ys| && c < |xs| && (Instances(xs, e) <==> Instances(ys, e))
    requires forall i | 0 <= i < |xs| :: xs[i].alias == ys[i].alias && xs[i].on == ys[i].on && (i != c ==>
      xs[i] == ys[i])
    requires forall r :: r in xs[c].rows <==> r in ys[c].rows && !Holds(db, map[xs[c].alias := r], policy)
    ensures Assignment(db, xs, e) <==>
      Assignment(db, ys, e) && !Holds(db, map[xs[c].alias := At(e, xs[c].alias)], policy)
  {
  }

  /** Some victim that is seen fails the delete policy. */
  ghost predicate SeesBadVictim(db: Db, v: World, p: Path)
    requires WellFormed(p) && AllCompile(v, p)
  {
    exists e :: SeenVictim(db, v, p, e) && !DeleteAdmits(db, v, p, e)
  }

  lemma CheckFindsExactly(db: Db, v: World, p: Path)
    requires InnerPath(p) && AllSound(v, p, "")
    ensures Found(db, v, p, Some(false), "delete", "") != [] <==> SeesBadVictim(db, v, p)
  {
    var bad := Found(db, v, p, Some(false), "delete", "");
    forall e ensures e in bad <==> SeenVictim(db, v, p, e) && !DeleteAdmits(db, v, p, e) {
      FoundMember(db, v, p, Some(false), "delete", "", e);
      RefusalWitness(db, v, p, e);
    }
    if bad != [] {
      assert bad[0] in bad;
    }
  }

  /** When a delete is refused: for a static no on the table or on a column that
      the client can list, or because some seen victim fails an undecided
      delete policy. */
  lemma DeleteRefusedExactly(db: Db, v: World, p: Path, writable: bool)
    requires InnerPath(p) && AllSound(v, p, "")
    ensures var t := p.elems[Position(p)].table;
      var decision := Decide(v, TableRes(t), "delete");
      Delete(db, v, p, writable) == Refused <==>
        decision == R.Deny
        || (writable && (!ReadableColumns(v, t) || (decision == R.Maybe && SeesBadVictim(db, v, p))))
  {
    CheckFindsExactly(db, v, p);
  }

  /** A found entity that the delete policy does not admit. */
  ghost predicate BadVictim(db: Db, v: World, p: Path, e: Env)
    requires WellFormed(p) && AllCompile(v, p)
  {
    e in Found(db, v, p, None, "select", "") && !DeleteAdmits(db, v, p, e)
  }

  /** Nothing but the policy on rows stands in the way of a delete. */
  predicate Deletable(v: World, t: TableId, writable: bool) {
    writable && ReadableColumns(v, t) && Indexable(v, t) && HasPrimaryKey(v.x.m.tables, t)
  }

  /** When a delete goes ahead: nothing else stands in the way, the right on the
      table is not refused, no seen victim fails an undecided one, and there is
      something to delete. */
  lemma DeleteGoesAheadExactly(db: Db, v: World, p: Path, writable: bool)
    requires InnerPath(p) && AllSound(v, p, "")
    ensures var t := p.elems[Position(p)].table;
      var decision := Decide(v, TableRes(t), "delete");
      Delete(db, v, p, writable).Deleted? <==>
        && decision != R.Deny && Deletable(v, t, writable)
        && (decision == R.Maybe ==> !SeesBadVictim(db, v, p))
        && exists r :: Wanted(db, v, p, None, "select", "", r)
  {
    CheckFindsExactly(db, v, p);
    SomeVictim(db, v, p);
  }

  lemma SomeVictim(db: Db, v: World, p: Path)
    requires InnerPath(p) && AllSound(v, p, "")
    ensures Found(db, v, p, None, "select", "") != [] <==> exists r :: Wanted(db, v, p, None, "select", "", r)
  {
    var victims, a := Found(db, v, p, None, "select", ""), Alias("", Position(p));
    if victims != [] {
      assert victims[0] in victims && HasContextRow(victims, a, At(victims[0], a));
      FoundRows(db, v, p, None, "select", "", At(victims[0], a));
    }
    if r :| Wanted(db, v, p, None, "select", "", r) {
      FoundRows(db, v, p, None, "select", "", r);
    }
  }

  /** So of an undecided delete, an entity that the policy does not admit is
      deleted if and only if the path finds one and the client sees none. */
  lemma BadVictimDeletedExactly(db: Db, v: World, p: Path, writable: bool)
    requires InnerPath(p) && AllSound(v, p, "")
    requires Decide(v, TableRes(p.elems[Position(p)].table), "delete") == R.Maybe
    ensures Delete(db, v, p, writable).Deleted? && (exists e :: BadVictim(db, v, p, e))
            <==>
            && Deletable(v, p.elems[Position(p)].table, writable)
            && (exists e :: BadVictim(db, v, p, e))
            && !SeesBadVictim(db, v, p)
  {
    CheckFindsExactly(db, v, p);
  }

  // -------------------------------------------------- what the client can see

  /** Every element but the context one is readable in full. */
  ghost predicate OthersOpen(db: Db, v: World, p: Path)
    requires WellFormed(p) && AllCompile(v, p)
  {
    forall i | 0 <= i < |p.elems| && i != Position(p) ::
      ViewRows(db, v, p.elems[i].table, Some(true), "select", Alias("", p.elems[i].pos))
        == TableRows(db, p.elems[i].table)
  }

  /** With the other elements open every victim is seen, so an undecided delete
      goes ahead only with victims the policy admits. */
  lemma OpenDeleteRefusedExactly(db: Db, v: World, p: Path)
    requires InnerPath(p) && AllSound(v, p, "") && OthersOpen(db, v, p)
    ensures SeesBadVictim(db, v, p) <==> exists e :: BadVictim(db, v, p, e)
    ensures var t := p.elems[Position(p)].table;
      Decide(v, TableRes(t), "delete") == R.Maybe && ReadableColumns(v, t) ==>
        (Delete(db, v, p, true) == Refused <==> exists e :: BadVictim(db, v, p, e))
  {
    var xs, ys := FilteredSources(db, v, p, None, "select", ""), SeenSources(db, v, p);
    forall i | 0 <= i < |xs| ensures xs[i] == ys[i] {
      assert ElemOk(p, i);
    }
    assert xs == ys;
    forall e ensures SeenVictim(db, v, p, e) <==> e in Found(db, v, p, None, "select", "") {
      FoundMember(db, v, p, None, "select", "", e);
    }
    DeleteRefusedExactly(db, v, p, true);
    if e :| SeenVictim(db, v, p, e) && !DeleteAdmits(db, v, p, e) { assert BadVictim(db, v, p, e); }
    if e :| BadVictim(db, v, p, e) { assert SeenVictim(db, v, p, e); }
  }

  lemma SingleElementOthersOpen(db: Db, v: World, p: Path)
    requires WellFormed(p) && AllCompile(v, p) && |p.elems| == 1
    ensures OthersOpen(db, v, p)
  {
  }

  /** On a one-element path nothing is hidden: an undecided delete is refused if
      and only if some victim fails the policy, and one that goes ahead has
      admitted victims alone. */
  lemma SingleElementDelete(db: Db, v: World, p: Path, writable: bool)
    requires InnerPath(p) && AllSound(v, p, "") && |p.elems| == 1
    requires Decide(v, TableRes(p.elems[0].table), "delete") == R.Maybe
    ensures writable && ReadableColumns(v, p.elems[0].table) ==>
      (Delete(db, v, p, writable) == Refused <==> exists e :: BadVictim(db, v, p, e))
    ensures Delete(db, v, p, writable).Deleted? ==> forall e :: !BadVictim(db, v, p, e)
  {
    assert ElemOk(p, 0);
    SingleElementOthersOpen(db, v, p);
    OpenDeleteRefusedExactly(db, v, p);
    BadVictimDeletedExactly(db, v, p, writable);
  }

  /** If some neighbour is wholly hidden from the client no victim is seen, and
      the check passes whatever the delete policy says. */
  lemma HiddenNeighbourPassesCheck(db: Db, v: World, p: Path, i: nat)
    requires InnerPath(p) && AllSound(v, p, "") && i < |p.elems| && i != Position(p)
    requires ViewRows(db, v, p.elems[i].table, Some(true), "select", Alias("", p.elems[i].pos)) == []
    ensures Found(db, v, p, Some(false), "delete", "") == [] && forall e :: !SeenVictim(db, v, p, e)
  {
    CheckFindsExactly(db, v, p);
    var sources := SeenSources(db, v, p);
    assert sources[i].rows == [];
    forall e: Env ensures !SeenVictim(db, v, p, e) {
      assert !Assigned(db, sources[i], e);
    }
  }

  /** A delete that goes ahead removes exactly the context rows of the
      assignments that satisfy the path, and nothing else. */
  lemma DeleteRemovesExactlyVictims(db: Db, v: World, p: Path, writable: bool, r: Row)
    requires InnerPath(p) && AllSound(v, p, "")
    requires StoredKeys(db, v.x.m.tables, p.elems[Position(p)].table)
    requires Delete(db, v, p, writable).Deleted?
    ensures r in Delete(db, v, p, writable).rest <==>
            r in TableRows(db, p.elems[Position(p)].table) && !Wanted(db, v, p, None, "select", "", r)
  {
    var t, a := p.elems[Position(p)].table, Alias("", Position(p));
    var key := MatchColumns(v.x.m.tables, t);
    assert KeyUnique(TableRows(db, t), key);
    VictimsRemoved(db, v, p, key, r);
    FoundRows(db, v, p, None, "select", "", r);
  }

  lemma VictimsRemoved(db: Db, v: World, p: Path, key: seq<string>, r: Row)
    requires InnerPath(p) && AllSound(v, p, "") && KeyUnique(TableRows(db, p.elems[Position(p)].table), key)
    ensures var victims, a := Found(db, v, p, None, "select", ""), Alias("", Position(p));
      var rows := TableRows(db, p.elems[Position(p)].table);
      r in Survivors(rows, victims, a, key) <==> r in rows && !HasContextRow(victims, a, r)
  {
    var victims, a := Found(db, v, p, None, "select", ""), Alias("", Position(p));
    var rows := TableRows(db, p.elems[Position(p)].table);
    SurvivorMember(rows, victims, a, key, r);
    if r in rows {
      forall e | e in victims ensures At(e, a) in rows {
        FoundInView(db, v, p, None, "select", "", e);
      }
      if Represented(victims, r, a, key) {
        RepresentedIsPresent(victims, a, key, rows, r);
      }
      if HasContextRow(victims, a, r) {
        var e :| e in victims && At(e, a) == r;
        assert SameOn(At(e, a), r, key);
      }
    }
  }

  lemma {:induction false} SurvivorMember(rows: seq<Row>, victims: seq<Env>, a: string, key: seq<string>, r: Row)
    ensures r in Survivors(rows, victims, a, key) <==> r in rows && !Represented(victims, r, a, key)
  {
    if rows != [] {
      SurvivorMember(rows[1..], victims, a, key, r);
      assert rows == [rows[0]] + rows[1..];
    }
  }
}
