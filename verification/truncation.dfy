/** Forgetting a catalog's history before a bound: which history relations
    are pruned and which are dropped. */
module Truncation {
  import opened Wrappers
  import opened Spans
  import opened History

  datatype Entity = Entity(table: Rid, entity: Rid, during: Span)

  datatype Stamp = Stamp(table: Rid, ts: Time)

  /** The relations that truncation reads and writes. `htables` holds the
      history relations by name, `live` the RIDs of the current tables. */
  datatype Store = Store(
    htables: map<string, seq<Version>>,
    entities: seq<Entity>,
    tableModified: set<Stamp>,
    tableLastModified: map<Rid, Time>,
    live: set<Rid>,
    modelModified: set<Time>,
    modelLastModified: set<Time>,
    amended: map<Time, Span>)

  const KNOWN_TABLES := "known_tables"
  const KNOWN_SCHEMAS := "known_schemas"

  function Rows(s: Store, name: string): seq<Version> {
    if name in s.htables then s.htables[name] else []
  }

  function UserHtable(rid: Rid): string {
    "t" + rid
  }

  // ---------------------------------------------------------------------
  // Affected tables
  // ---------------------------------------------------------------------

  /** A known table and its schema during some common time before the bound. */
  predicate Joined(t: Version, s: Version, until: Time) {
    && Key(t.rowdata, "schema_rid") == JText(s.rid)
    && Overlaps(t.during, s.during)
    && Overlaps(t.during, Span(None, Some(until)))
  }

  /** The second result column: the name of a table of the system schema. */
  function SystemName(t: Version, s: Version): Option<string> {
    if Key(s.rowdata, "schema_name") == JText("_ermrest") && Key(t.rowdata, "table_name").JText?
    then Some(Key(t.rowdata, "table_name").text) else None
  }

  type Affected = (Rid, Option<string>)

  function AffectedRows(s: Store, until: Time): set<Affected> {
    set t, c | t in Rows(s, KNOWN_TABLES) && c in Rows(s, KNOWN_SCHEMAS) && Joined(t, c, until) ::
      (t.rid, SystemName(t, c))
  }

  /** The result rows sorted into user tables and system tables; when a table
      had several system names, one of them is kept. */
  ghost predicate Sorted(rows: set<Affected>, user: set<Rid>, system: map<Rid, string>) {
    && (forall rid :: rid in user <==> (rid, None) in rows)
    && (forall rid :: rid in system ==> (rid, Some(system[rid])) in rows)
    && (forall rid, name :: (rid, Some(name)) in rows ==> rid in system)
  }

  method SortAffected(rows: set<Affected>) returns (user: set<Rid>, system: map<Rid, string>)
    ensures Sorted(rows, user, system)
  {
    user, system := {}, map[];
    var todo := rows;
    ghost var done: set<Affected> := {};
    while todo != {}
      invariant todo + done == rows
      invariant Sorted(done, user, system)
      decreases todo
    {
      var row :| row in todo;
      if row.1.Some? {
        system := system[row.0 := row.1.value];
      } else {
        user := user + {row.0};
      }
      todo := todo - {row};
      done := done + {row};
    }
    assert done == rows;
  }

  /** A version of the table and one of its schema, in force together at some
      time, the former also at some time before the bound. */
  ghost predicate KnownBefore(s: Store, t: Version, c: Version, until: Time) {
    && t in Rows(s, KNOWN_TABLES) && c in Rows(s, KNOWN_SCHEMAS)
    && Key(t.rowdata, "schema_rid") == JText(c.rid)
    && (exists x :: Contains(t.during, x) && Contains(c.during, x))
    && (exists x :: Contains(t.during, x) && x < until)
  }

  /** Its history relation has a name of its own, as a table of the schema
      `_ermrest`. */
  predicate IsSystem(t: Version, c: Version, name: string) {
    Key(c.rowdata, "schema_name") == JText("_ermrest") && Key(t.rowdata, "table_name") == JText(name)
  }

  ghost predicate NormalStore(s: Store) {
    (forall v | v in Rows(s, KNOWN_TABLES) :: Normal(v.during)) && (forall v | v in Rows(s, KNOWN_SCHEMAS) ::
      Normal(v.during))
  }

  lemma JoinedExactly(t: Version, c: Version, until: Time)
    requires Normal(t.during) && Normal(c.during)
    ensures Joined(t, c, until) <==>
      && Key(t.rowdata, "schema_rid") == JText(c.rid)
      && (exists x :: Contains(t.during, x) && Contains(c.during, x))
      && (exists x :: Contains(t.during, x) && x < until)
  {
    OverlapsExactly(t.during, c.during);
    OverlapsExactly(t.during, Span(None, Some(until)));
    assert forall x :: Contains(Span(None, Some(until)), x) <==> x < until;
  }

  /** The affected tables are those known before the bound: system tables by the
      name of their history relation, all others by RID. */
  lemma AffectedExactly(s: Store, until: Time, rid: Rid, name: Option<string>)
    requires NormalStore(s)
    ensures (rid, name) in AffectedRows(s, until) <==>
      exists t, c :: KnownBefore(s, t, c, until) && t.rid == rid
        && (if name.Some? then IsSystem(t, c, name.value) else forall n :: !IsSystem(t, c, n))
  {
    forall t, c | t in Rows(s, KNOWN_TABLES) && c in Rows(s, KNOWN_SCHEMAS)
      ensures Joined(t, c, until) <==> KnownBefore(s, t, c, until)
    {
      JoinedExactly(t, c, until);
    }
    forall t, c ensures SystemName(t, c) == name <==>
      (if name.Some? then IsSystem(t, c, name.value) else forall n :: !IsSystem(t, c, n))
    {
      SystemNameExactly(t, c, name);
    }
  }

  lemma SystemNameExactly(t: Version, c: Version, name: Option<string>)
    ensures SystemName(t, c) == name <==>
      (if name.Some? then IsSystem(t, c, name.value) else forall n :: !IsSystem(t, c, n))
  {
    if SystemName(t, c).Some? {
      assert IsSystem(t, c, Key(t.rowdata, "table_name").text);
    }
  }

  // ---------------------------------------------------------------------
  // Visibility after the bound
  // ---------------------------------------------------------------------

  /** One row of the visibility query, with AND binding tighter than OR. */
  predicate VisibleRow(v: Version, rid: Rid, until: Time) {
    (v.rid == rid && Upper(v.during).Some? && Upper(v.during).value >= until) || Upper(v.during).None?
  }

  predicate VisibleAfter(s: Store, rid: Rid, until: Time) {
    exists v | v in Rows(s, KNOWN_TABLES) :: VisibleRow(v, rid, until)
  }

  /** What the query is for: this very table is recorded up to the bound or
      beyond. */
  predicate OwnVisible(s: Store, rid: Rid, until: Time) {
    exists v | v in Rows(s, KNOWN_TABLES) :: v.rid == rid && (Upper(v.during).Some? ==> until <= Upper(v.during).value)
  }

  predicate OpenEnded(s: Store) {
    exists v | v in Rows(s, KNOWN_TABLES) :: Upper(v.during).None?
  }

  ghost predicate KnownAt(s: Store, rid: Rid, t: Time) {
    exists v :: v in Rows(s, KNOWN_TABLES) && v.rid == rid && Contains(v.during, t)
  }

  /** The query finds a table if that table is recorded up to the bound, or if
      any table at all has an open-ended version. So it answers for this table
      alone if and only if that makes no difference. */
  lemma VisibleAfterExactly(s: Store, rid: Rid, until: Time)
    ensures VisibleAfter(s, rid, until) <==> OwnVisible(s, rid, until) || OpenEnded(s)
    ensures VisibleAfter(s, rid, until) == OwnVisible(s, rid, until) <==> OwnVisible(s, rid, until) || !OpenEnded(s)
  {
  }

  /** Two known tables: `a` is alive, and `b` was gone long before time 5. */
  predicate OneGoneTable(s: Store) {
    Rows(s, KNOWN_TABLES) == [
      Version("a", Span(Some(0), None), "", map[]), Version("b", Span(Some(0), Some(1)), "", map[])]
  }

  /** There `b` counts as visible after 5, though it is known at no time then. */
  lemma GoneTableVisible(s: Store, until: Time)
    requires OneGoneTable(s) && until == 5
    ensures VisibleAfter(s, "b", until) && !OwnVisible(s, "b", until) && forall t :: until <= t ==> !KnownAt(s, "b", t)
  {
    assert Rows(s, KNOWN_TABLES)[0] in Rows(s, KNOWN_TABLES);
    assert "a" != "b" by { assert "a"[0] != "b"[0]; }
  }

  /** A table that counts as purged is known at no instant from the bound on. */
  lemma PurgedUnknown(s: Store, rid: Rid, until: Time, t: Time)
    requires !VisibleAfter(s, rid, until) && until <= t
    ensures !KnownAt(s, rid, t)
  {
  }

  // ---------------------------------------------------------------------
  // Pruning
  // ---------------------------------------------------------------------

  /** The DELETE condition `upper(during) <= until`. */
  predicate Ended(during: Span, until: Time) {
    Upper(during).Some? && Upper(during).value <= until
  }

  function Pruned(rows: seq<Version>, until: Time): seq<Version> {
    if rows == [] then [] else (if Ended(rows[0].during, until) then [] else [rows[0]]) + Pruned(rows[1..], until)
  }

  /** A version ended by the bound if and only if all its instants lie before. */
  lemma EndedExactly(during: Span, until: Time)
    requires Normal(during) && during.Span?
    ensures Ended(during, until) <==> forall t :: Contains(during, t) ==> t < until
  {
    if !Ended(during, until) {
      var t := if during.upper.Some? then during.upper.value - 1 else AfterBoth(during.lower, until);
      assert Contains(during, t) && until <= t;
    }
  }

  /** An instant not before either. */
  function AfterBoth(lower: Option<Time>, t: Time): Time {
    if lower.Some? && t < lower.value then lower.value else t
  }

  /** Pruning keeps every snapshot from the bound on, and keeps nothing that
      ended by the bound. */
  lemma {:induction false} PrunedKeeps(rows: seq<Version>, until: Time)
    ensures forall t :: until <= t ==> Snapshot(Pruned(rows, until), t) == Snapshot(rows, t)
    ensures forall v :: v in Pruned(rows, until) <==> v in rows && !Ended(v.during, until)
    ensures Pruned(Pruned(rows, until), until) == Pruned(rows, until)
  {
    if rows != [] {
      PrunedKeeps(rows[1..], until);
      var rest := Pruned(rows[1..], until);
      if Ended(rows[0].during, until) {
        assert Pruned(rows, until) == rest;
        assert forall t :: until <= t ==> ShownAt(rows[0], t) == [];
      } else {
        assert Pruned(rows, until) == [rows[0]] + rest && ([rows[0]] + rest)[1..] == rest;
        assert forall t :: until <= t ==> Snapshot(rows, t) == ShownAt(rows[0], t) + Snapshot(rows[1..], t);
      }
    }
  }

  function PrunedEntities(es: seq<Entity>, rid: Rid, gone: Span -> bool): seq<Entity> {
    if es == [] then []
    else (if es[0].table == rid && gone(es[0].during) then [] else [es[0]]) + PrunedEntities(es[1..], rid, gone)
  }

  lemma {:induction false} PrunedEntitiesMembers(es: seq<Entity>, rid: Rid, gone: Span -> bool)
    ensures forall e :: e in PrunedEntities(es, rid, gone) <==> e in es && !(e.table == rid && gone(e.during))
  {
    if es != [] {
      PrunedEntitiesMembers(es[1..], rid, gone);
    }
  }

  /** The whole bookkeeping of a table whose record is truncated. */
  function Truncate(s: Store, rid: Rid, name: string, until: Time, now: Time): Store {
    var last := map r | r in s.tableLastModified && !(r == rid && s.tableLastModified[r] < until) ::
      s.tableLastModified[r];
    s.(htables := if name in s.htables then s.htables[name := Pruned(s.htables[name], until)] else s.htables,
    tableModified := (set m | m in s.tableModified && !(m.table == rid && m.ts < until)) + {Stamp(rid, now)},
    tableLastModified := if rid in s.live && rid !in last then last[rid := now] else last,
    entities := PrunedEntities(s.entities, rid, d => Ended(d, until)))
  }

  /** ... and of a table that is forgotten altogether. */
  function Drop(s: Store, rid: Rid, name: string): Store {
    s.(htables := s.htables - {name},
    tableModified := (set m | m in s.tableModified && m.table != rid),
    tableLastModified := s.tableLastModified - {rid},
    entities := PrunedEntities(s.entities, rid, d => true))
  }

  // ---------------------------------------------------------------------
  // The outcome
  // ---------------------------------------------------------------------

  /** What has been processed: user tables, some of them purged, and system
      tables by the names of their history relations. */
  datatype Work = Work(user: set<Rid>, purged: set<Rid>, system: map<Rid, string>)

  predicate Touched(w: Work, name: string) {
    name in w.system.Values || (name != "" && name[0] == 't' && name[1..] in w.user)
  }

  predicate Purged(w: Work, name: string) {
    name != "" && name[0] == 't' && name[1..] in w.purged
  }

  /** A purged table loses its history relation; of every other processed table
      the ended versions go; the rest stays. */
  ghost predicate HtablesAfter(a: Store, b: Store, w: Work, until: Time) {
    && (forall name :: name in b.htables <==> name in a.htables && !Purged(w, name))
    && (forall name :: name in b.htables ==>
      b.htables[name] == if Touched(w, name) then Pruned(a.htables[name], until) else a.htables[name])
  }

  predicate GoneEntity(w: Work, e: Entity, until: Time) {
    e.table in w.purged || ((e.table in w.user || e.table in w.system) && Ended(e.during, until))
  }

  ghost predicate EntitiesAfter(a: Store, b: Store, w: Work, until: Time) {
    forall e :: e in b.entities <==> e in a.entities && !GoneEntity(w, e, until)
  }

  predicate GoneStamp(w: Work, m: Stamp, until: Time) {
    m.table in w.purged || ((m.table in w.user || m.table in w.system) && m.ts < until)
  }

  predicate NewStamp(w: Work, m: Stamp, now: Time) {
    m.ts == now && (m.table in w.user - w.purged || m.table in w.system)
  }

  ghost predicate StampsAfter(a: Store, b: Store, w: Work, until: Time, now: Time) {
    forall m :: m in b.tableModified <==> (m in a.tableModified && !GoneStamp(w, m, until)) || NewStamp(w, m, now)
  }

  function Last(s: Store, rid: Rid): Option<Time> {
    if rid in s.tableLastModified then Some(s.tableLastModified[rid]) else None
  }

  /** A last-modified time before the bound is forgotten, and a live table
      without one gets the present. */
  function Renewed(last: Option<Time>, alive: bool, until: Time, now: Time): Option<Time> {
    var kept := if last.Some? && last.value < until then None else last;
    if kept.None? && alive then Some(now) else kept
  }

  function LastAfter(a: Store, w: Work, rid: Rid, until: Time, now: Time): Option<Time> {
    var user := if rid in w.purged then None
      else if rid in w.user then Renewed(Last(a, rid), rid in a.live, until, now) else Last(a, rid);
    if rid in w.system then Renewed(user, rid in a.live, until, now) else user
  }

  ghost predicate LastsAfter(a: Store, b: Store, w: Work, until: Time, now: Time) {
    forall rid :: Last(b, rid) == LastAfter(a, w, rid, until, now)
  }

  ghost predicate After(a: Store, b: Store, w: Work, until: Time, now: Time) {
    && HtablesAfter(a, b, w, until)
    && EntitiesAfter(a, b, w, until)
    && StampsAfter(a, b, w, until, now)
    && LastsAfter(a, b, w, until, now)
    && b.live == a.live && b.modelModified == a.modelModified && b.modelLastModified == a.modelLastModified
      && b.amended == a.amended
  }

  lemma TruncateLast(s: Store, rid: Rid, name: string, until: Time, now: Time)
    ensures forall r ::
      var last := Last(s, r);
      Last(Truncate(s, rid, name, until, now), r) == if r == rid then Renewed(last, r in s.live, until, now) else last
  {
  }

  lemma LastsFollow(a: Store, b: Store, c: Store, w: Work, w': Work, rid: Rid, until: Time, now: Time)
    requires LastsAfter(a, b, w, until, now)
    requires forall r :: r != rid ==>
      Last(c, r) == Last(b, r) && LastAfter(a, w', r, until, now) == LastAfter(a, w, r, until, now)
    requires Last(c, rid) == LastAfter(a, w', rid, until, now)
    ensures LastsAfter(a, c, w', until, now)
  {
  }

  lemma HtableName(name: string, rid: Rid)
    ensures name != "" && name[0] == 't' && name[1..] == rid <==> name == UserHtable(rid)
  {
  }

  lemma HtablesUserStep(a: Store, b: Store, c: Store, w: Work, rid: Rid, drop: bool, until: Time)
    requires HtablesAfter(a, b, w, until) && w.purged <= w.user && w.system == map[] && rid !in w.user
    requires
      var name := UserHtable(rid);
      c.htables == if drop then b.htables - {name}
      else if name in b.htables then b.htables[name := Pruned(b.htables[name], until)] else b.htables
    ensures HtablesAfter(a, c, w.(user := w.user + {rid}, purged := if drop then w.purged + {rid} else w.purged), until)
  {
    var name := UserHtable(rid);
    var w' := w.(user := w.user + {rid}, purged := if drop then w.purged + {rid} else w.purged);
    forall n ensures Touched(w', n) <==> Touched(w, n) || n == name {
      HtableName(n, rid);
    }
    forall n ensures Purged(w', n) <==> Purged(w, n) || (drop && n == name) {
      HtableName(n, rid);
    }
    HtableName(name, rid);
    assert !Touched(w, name) && !Purged(w, name);
  }

  lemma TruncateUserStep(a: Store, b: Store, w: Work, rid: Rid, until: Time, now: Time)
    requires After(a, b, w, until, now) && w.purged <= w.user && w.system == map[] && rid !in w.user
    ensures After(a, Truncate(b, rid, UserHtable(rid), until, now), w.(user := w.user + {rid}), until, now)
  {
    var name := UserHtable(rid);
    PrunedEntitiesMembers(b.entities, rid, d => Ended(d, until));
    var c, w' := Truncate(b, rid, name, until, now), w.(user := w.user + {rid});
    HtablesUserStep(a, b, c, w, rid, false, until);
    assert EntitiesAfter(a, c, w', until);
    assert StampsAfter(a, c, w', until, now);
    TruncateLast(b, rid, name, until, now);
    LastsFollow(a, b, c, w, w', rid, until, now);
  }

  lemma DropUserStep(a: Store, b: Store, w: Work, rid: Rid, until: Time, now: Time)
    requires After(a, b, w, until, now) && w.purged <= w.user && w.system == map[] && rid !in w.user
    ensures After(a, Drop(b, rid, UserHtable(rid)), w.(user := w.user + {rid}, purged := w.purged + {rid}), until, now)
  {
    var name := UserHtable(rid);
    PrunedEntitiesMembers(b.entities, rid, d => true);
    var c, w' := Drop(b, rid, name), w.(user := w.user + {rid}, purged := w.purged + {rid});
    HtablesUserStep(a, b, c, w, rid, true, until);
    assert EntitiesAfter(a, c, w', until);
    assert StampsAfter(a, c, w', until, now);
    LastsFollow(a, b, c, w, w', rid, until, now);
  }

  lemma PrunedOnce(rows: seq<Version>, until: Time)
    ensures Pruned(Pruned(rows, until), until) == Pruned(rows, until)
  {
    PrunedKeeps(rows, until);
  }

  lemma SystemNames(system: map<Rid, string>, rid: Rid, name: string)
    requires rid !in system
    ensures forall n :: n in system[rid := name].Values <==> n in system.Values || n == name
  {
    var more := system[rid := name];
    assert more[rid] == name;
    assert forall r :: r in system ==> more[r] == system[r];
  }

  lemma HtablesSystemStep(a: Store, b: Store, c: Store, w: Work, rid: Rid, name: string, until: Time)
    requires HtablesAfter(a, b, w, until) && w.purged <= w.user && rid !in w.system
    requires c.htables == if name in b.htables then b.htables[name := Pruned(b.htables[name], until)] else b.htables
    ensures HtablesAfter(a, c, w.(system := w.system[rid := name]), until)
  {
    var w' := w.(system := w.system[rid := name]);
    if name in a.htables {
      PrunedOnce(a.htables[name], until);
    }
    SystemNames(w.system, rid, name);
    forall n
      ensures Purged(w', n) <==> Purged(w, n)
      ensures n in c.htables <==> n in a.htables && !Purged(w, n)
      ensures n in c.htables ==> c.htables[n] == if Touched(w', n) then Pruned(a.htables[n], until) else a.htables[n]
    {
      assert Touched(w', n) <==> Touched(w, n) || n == name;
    }
  }

  lemma TruncateSystemStep(a: Store, b: Store, w: Work, rid: Rid, name: string, until: Time, now: Time)
    requires After(a, b, w, until, now) && w.purged <= w.user && rid !in w.system
    ensures After(a, Truncate(b, rid, name, until, now), w.(system := w.system[rid := name]), until, now)
  {
    PrunedEntitiesMembers(b.entities, rid, d => Ended(d, until));
    var c, w' := Truncate(b, rid, name, until, now), w.(system := w.system[rid := name]);
    HtablesSystemStep(a, b, c, w, rid, name, until);
    assert EntitiesAfter(a, c, w', until);
    assert StampsAfter(a, c, w', until, now);
    TruncateLast(b, rid, name, until, now);
    LastsFollow(a, b, c, w, w', rid, until, now);
  }

  // ---------------------------------------------------------------------
  // The whole request
  // ---------------------------------------------------------------------

  /** The tables a truncation of `s` works on: the affected ones, of which
      those not visible after the bound are purged and the system ones are
      those with a history relation. */
  ghost predicate WorkFor(s: Store, after: set<string>, w: Work, until: Time) {
    exists system :: AssignedWork(s, after, w, system, until)
  }

  /** The system tables among `rids` that have a history relation. */
  ghost function Existing(system: map<Rid, string>, rids: set<Rid>, names: set<string>): map<Rid, string> {
    map rid | rid in rids && rid in system && system[rid] in names :: system[rid]
  }

  lemma ExistingOneMore(system: map<Rid, string>, rids: set<Rid>, names: set<string>, rid: Rid)
    requires rid in system && rid !in rids
    ensures Existing(system, rids + {rid}, names)
      == if system[rid] in names then Existing(system, rids, names)[rid := system[rid]]
        else Existing(system, rids, names)
    ensures rid !in Existing(system, rids, names)
  {
  }

  ghost predicate AssignedWork(s: Store, after: set<string>, w: Work, system: map<Rid, string>, until: Time) {
    && Sorted(AffectedRows(s, until), w.user, system)
    && w.purged == (set rid | rid in w.user && !VisibleAfter(s, rid, until))
    && w.system == Existing(system, system.Keys, after)
  }

  ghost predicate Truncated(before: Store, after: Store, w: Work, until: Time, now: Time) {
    && HtablesAfter(before, after, w, until)
    && EntitiesAfter(before, after, w, until)
    && StampsAfter(before, after, w, until, now)
    && LastsAfter(before, after, w, until, now)
    && after.live == before.live
    && after.modelModified == (set ts | ts in before.modelModified && ts >= until) + {now}
    && after.modelLastModified == (set ts | ts in before.modelLastModified && ts >= until) + {now}
    && after.amended == (map ts | ts in before.amended && !Ended(before.amended[ts], until) ::
      before.amended[ts])[now := Span(None, Some(until))]
  }

  /** There is anything to forget before the bound. */
  predicate HasHistory(s: Store, until: Time) {
    (exists ts | ts in s.modelModified :: ts < until) || (exists m | m in s.tableModified :: m.ts < until)
  }

  /** The model or some table was modified at the time. */
  ghost predicate ModifiedAt(s: Store, ts: Time) {
    ts in s.modelModified || exists rid :: Stamp(rid, ts) in s.tableModified
  }

  lemma HistoryExactly(s: Store, until: Time)
    ensures HasHistory(s, until) <==> exists ts :: ts < until && ModifiedAt(s, ts)
  {
    if m :| m in s.tableModified && m.ts < until {
      assert Stamp(m.table, m.ts) in s.tableModified && ModifiedAt(s, m.ts);
    }
    if ts :| ts < until && ModifiedAt(s, ts) && ts !in s.modelModified {
      var rid :| Stamp(rid, ts) in s.tableModified;
      assert Stamp(rid, ts).ts < until;
    }
    if ts :| ts in s.modelModified && ts < until {
      assert ModifiedAt(s, ts);
    }
  }

  predicate AmendmentClash(s: Store, until: Time, now: Time) {
    now in s.amended && !Ended(s.amended[now], until)
  }

  lemma OneLessToDo(all: set<Rid>, todo: set<Rid>, rid: Rid)
    requires rid in todo && todo <= all
    ensures all - (todo - {rid}) == (all - todo) + {rid}
  {
  }

  /** One more system table, truncated if it has a history relation. */
  lemma SystemStep(before: Store, b: Store, w: Work, system: map<Rid, string>, todo: set<Rid>, rid: Rid,
      until: Time, now: Time)
    requires rid in todo && todo <= system.Keys && w.purged <= w.user
    requires After(before, b, w, until, now) && w.system == Existing(system, system.Keys - todo, b.htables.Keys)
    ensures system[rid] !in b.htables ==>
      w.system == Existing(system, system.Keys - (todo - {rid}), b.htables.Keys)
    ensures system[rid] in b.htables ==>
      var c, w' := Truncate(b, rid, system[rid], until, now), w.(system := w.system[rid := system[rid]]);
      && After(before, c, w', until, now) && c.htables.Keys == b.htables.Keys
      && w'.system == Existing(system, system.Keys - (todo - {rid}), c.htables.Keys)
  {
    OneLessToDo(system.Keys, todo, rid);
    ExistingOneMore(system, system.Keys - todo, b.htables.Keys, rid);
    if system[rid] in b.htables {
      TruncateSystemStep(before, b, w, rid, system[rid], until, now);
      assert Truncate(b, rid, system[rid], until, now).htables.Keys == b.htables.Keys;
    }
  }

  class CatalogHistory {
    var store: Store

    constructor (store: Store)
      ensures this.store == store
    {
      this.store := store;
    }

    /** DELETE of the catalog's history over a range. */
    method Delete(from: Option<Time>, until: Option<Time>, now: Time) returns (r: Result<(), HistoryError>)
      modifies this
      ensures r.Ok? <==>
        && from.None? && until.Some?
        && (exists ts :: ts < until.value && ModifiedAt(old(store), ts))
        && (now in old(store).amended ==> Ended(old(store).amended[now], until.value))
      ensures r.Err? ==> store == old(store)
      ensures r.Ok? ==> exists w ::
        WorkFor(old(store), store.htables.Keys, w, until.value) && Truncated(old(store), store, w, until.value, now)
    {
      if from.Some? || until.None? {
        return Err(BadRequest);
      }
      HistoryExactly(store, until.value);
      if !HasHistory(store, until.value) {
        return Err(NotFound);
      }
      if AmendmentClash(store, until.value, now) {
        return Err(Conflict);
      }
      ghost var w := TruncateAll(until.value, now);
      store := store.(
        modelModified := (set ts | ts in store.modelModified && ts >= until.value) + {now},
        modelLastModified := (set ts | ts in store.modelLastModified && ts >= until.value) + {now},
        amended := (map ts | ts in store.amended && !Ended(store.amended[ts], until.value) ::
          store.amended[ts])[now := Span(None, until)]);
      assert WorkFor(old(store), store.htables.Keys, w, until.value);
      r := Ok(());
    }

    /** The two loops over affected tables. */
    method TruncateAll(until: Time, now: Time) returns (ghost w: Work)
      modifies this
      ensures After(old(store), store, w, until, now) && WorkFor(old(store), store.htables.Keys, w, until)
    {
      var user, system := SortAffected(AffectedRows(store, until));
      w := TruncateUser(user, until, now);
      w := TruncateSystem(old(store), w, system, until, now);
      assert AssignedWork(old(store), store.htables.Keys, w, system, until);
    }

    method TruncateUser(user: set<Rid>, until: Time, now: Time) returns (ghost w: Work)
      modifies this
      ensures After(old(store), store, w, until, now)
      ensures w.user == user && w.system == map[]
      ensures w.purged == set rid | rid in user && !VisibleAfter(old(store), rid, until)
    {
      w := Work({}, {}, map[]);
      var todo := user;
      while todo != {}
        invariant todo <= user && w.user == user - todo && w.system == map[]
        invariant w.purged == set rid | rid in w.user && !VisibleAfter(old(store), rid, until)
        invariant After(old(store), store, w, until, now)
        decreases todo
      {
        var rid :| rid in todo;
        KnownTablesStay(old(store), store, w, until);
        if VisibleAfter(store, rid, until) {
          TruncateUserStep(old(store), store, w, rid, until, now);
          store := Truncate(store, rid, UserHtable(rid), until, now);
          w := w.(user := w.user + {rid});
        } else {
          DropUserStep(old(store), store, w, rid, until, now);
          store := Drop(store, rid, UserHtable(rid));
          w := w.(user := w.user + {rid}, purged := w.purged + {rid});
        }
        todo := todo - {rid};
      }
    }

    method TruncateSystem(ghost before: Store, ghost w0: Work, system: map<Rid, string>, until: Time, now: Time)
        returns (ghost w: Work)
      requires After(before, store, w0, until, now) && w0.purged <= w0.user && w0.system == map[]
      modifies this
      ensures After(before, store, w, until, now)
      ensures w.user == w0.user && w.purged == w0.purged
      ensures w.system == Existing(system, system.Keys, store.htables.Keys)
    {
      w := w0;
      var todo := system.Keys;
      while todo != {}
        invariant todo <= system.Keys && w.user == w0.user && w.purged == w0.purged
        invariant w.system == Existing(system, system.Keys - todo, store.htables.Keys)
        invariant After(before, store, w, until, now)
        decreases todo
      {
        var rid :| rid in todo;
        SystemStep(before, store, w, system, todo, rid, until, now);
        if system[rid] in store.htables {
          store := Truncate(store, rid, system[rid], until, now);
          w := w.(system := w.system[rid := system[rid]]);
        }
        todo := todo - {rid};
      }
    }
  }

  /** While user tables are processed the record of known tables is not
      touched, so each visibility query sees the original one. */
  lemma KnownTablesStay(a: Store, b: Store, w: Work, until: Time)
    requires HtablesAfter(a, b, w, until) && w.system == map[]
    ensures Rows(b, KNOWN_TABLES) == Rows(a, KNOWN_TABLES)
  {
  }

  /** Safety: from the bound on, the record of every table still known then is
      what it was, snapshot by snapshot, and so are its entities and the times
      it was modified; and the same tables are known. */
  lemma FutureKept(before: Store, after: Store, w: Work, until: Time, now: Time, rid: Rid, t: Time)
    requires Truncated(before, after, w, until, now) && WorkFor(before, after.htables.Keys, w, until) && until <= t
    ensures KnownAt(after, rid, t) <==> KnownAt(before, rid, t)
    ensures KnownAt(before, rid, t) ==>
      && (UserHtable(rid) in after.htables <==> UserHtable(rid) in before.htables)
      && Snapshot(Rows(after, UserHtable(rid)), t) == Snapshot(Rows(before, UserHtable(rid)), t)
      && (forall e :: e in before.entities && e.table == rid && Contains(e.during, t) ==> e in after.entities)
      && (forall ts :: Stamp(rid, ts) in before.tableModified && until <= ts ==> Stamp(rid, ts) in after.tableModified)
    ensures forall name :: name in after.htables ==>
      Snapshot(after.htables[name], t) == Snapshot(before.htables[name], t)
  {
    forall name | name in after.htables ensures Snapshot(after.htables[name], t) == Snapshot(before.htables[name], t) {
      PrunedKeeps(before.htables[name], until);
    }
    if KNOWN_TABLES in after.htables {
      PrunedKeeps(before.htables[KNOWN_TABLES], until);
      forall v | v in Rows(before, KNOWN_TABLES) && v.rid == rid && Contains(v.during, t)
        ensures v in Rows(after, KNOWN_TABLES) {
        assert !Ended(v.during, until);
      }
    }
    assert KNOWN_TABLES[0] == 'k' && (KNOWN_TABLES in after.htables <==> KNOWN_TABLES in before.htables);
    if KnownAt(before, rid, t) {
      if rid in w.purged {
        PurgedUnknown(before, rid, until, t);
        assert false;
      }
      HtableName(UserHtable(rid), rid);
    }
  }

  /** Effect: of an affected table nothing that ended by the bound is left,
      and a purged table leaves nothing at all. */
  lemma PastForgotten(before: Store, after: Store, w: Work, until: Time, now: Time, rid: Rid)
    requires Truncated(before, after, w, until, now) && WorkFor(before, after.htables.Keys, w, until) && rid in w.user
    ensures forall v :: v in Rows(after, UserHtable(rid)) ==> !Ended(v.during, until)
    ensures forall e :: e in after.entities && e.table == rid ==> !Ended(e.during, until)
    ensures !VisibleAfter(before, rid, until) ==>
      UserHtable(rid) !in after.htables && forall e :: e in after.entities ==> e.table != rid
  {
    var name := UserHtable(rid);
    HtableName(name, rid);
    if name in after.htables {
      assert Touched(w, name);
      PrunedKeeps(before.htables[name], until);
    }
  }

  /** The same of every user table known before the bound, ... */
  lemma KnownPastForgotten(before: Store, after: Store, w: Work, until: Time, now: Time, t: Version, c: Version)
    requires Truncated(before, after, w, until, now) && WorkFor(before, after.htables.Keys, w, until)
    requires NormalStore(before) && KnownBefore(before, t, c, until) && forall n :: !IsSystem(t, c, n)
    ensures forall v :: v in Rows(after, UserHtable(t.rid)) ==> !Ended(v.during, until)
    ensures forall e :: e in after.entities && e.table == t.rid ==> !Ended(e.during, until)
  {
    AffectedExactly(before, until, t.rid, None);
    assert (t.rid, None) in AffectedRows(before, until);
    PastForgotten(before, after, w, until, now, t.rid);
  }

  /** ... and of every system table whose name did not change. */
  lemma KnownSystemForgotten(before: Store, after: Store, w: Work, until: Time, now: Time, t: Version, c: Version,
      name: string)
    requires Truncated(before, after, w, until, now) && WorkFor(before, after.htables.Keys, w, until)
    requires NormalStore(before) && KnownBefore(before, t, c, until) && IsSystem(t, c, name)
    requires forall n :: (t.rid, Some(n)) in AffectedRows(before, until) ==> n == name
    ensures forall v :: v in Rows(after, name) ==> !Ended(v.during, until)
  {
    AffectedExactly(before, until, t.rid, Some(name));
    assert (t.rid, Some(name)) in AffectedRows(before, until);
    if name in after.htables {
      assert t.rid in w.system && w.system[t.rid] == name;
      assert Touched(w, name);
      PrunedKeeps(before.htables[name], until);
    }
  }

  /** As long as any table at all is open-ended, no history relation is ever
      dropped, purged tables included. */
  lemma LiveCatalogDropsNothing(before: Store, after: Store, w: Work, until: Time, now: Time)
    requires Truncated(before, after, w, until, now) && WorkFor(before, after.htables.Keys, w, until)
    requires OpenEnded(before)
    ensures after.htables.Keys == before.htables.Keys
  {
  }

  /** So the relation of a table that is long gone survives. */
  lemma GoneTableKept(before: Store, after: Store, w: Work, until: Time, now: Time)
    requires Truncated(before, after, w, until, now) && WorkFor(before, after.htables.Keys, w, until)
    requires OneGoneTable(before) && until == 5 && UserHtable("b") in before.htables
    ensures UserHtable("b") in after.htables && forall t :: until <= t ==> !KnownAt(before, "b", t)
  {
    GoneTableVisible(before, until);
    assert Rows(before, KNOWN_TABLES)[0] in Rows(before, KNOWN_TABLES);
    LiveCatalogDropsNothing(before, after, w, until, now);
  }
}
