/** Editing what a catalog remembers: amending the configuration of a past
    period, and redacting one column over a past period. */
module History {
  import opened Wrappers
  import opened Spans
  import Aliases

  type Rid = string

  datatype Json = JNull | JText(text: string) | JList(members: seq<string>) | JOther(tag: nat)

  type RowData = map<string, Json>

  /** One version of a row, in force during a time range. */
  datatype Version = Version(rid: Rid, during: Span, rmb: string, rowdata: RowData)

  /** What a snapshot shows of a version. */
  datatype Shown = Shown(rid: Rid, rmb: string, rowdata: RowData)

  function Show(v: Version): Shown {
    Shown(v.rid, v.rmb, v.rowdata)
  }

  /** What a version contributes to the snapshot at an instant. */
  function ShownAt(v: Version, t: Time): seq<Shown> {
    if Contains(v.during, t) then [Show(v)] else []
  }

  /** The rows in force at an instant, in storage order. */
  function Snapshot(rows: seq<Version>, t: Time): seq<Shown> {
    if rows == [] then [] else ShownAt(rows[0], t) + Snapshot(rows[1..], t)
  }

  /** Snapshots are compared as bags. */
  ghost predicate SameSnapshot(a: seq<Version>, b: seq<Version>, t: Time) {
    multiset(Snapshot(a, t)) == multiset(Snapshot(b, t))
  }

  lemma Associate<T>(x: seq<T>, y: seq<T>, z: seq<T>)
    ensures x + (y + z) == (x + y) + z
  {
  }

  lemma {:induction false} SnapshotOfConcat(a: seq<Version>, b: seq<Version>, t: Time)
    ensures Snapshot(a + b, t) == Snapshot(a, t) + Snapshot(b, t)
  {
    if a == [] {
      assert a + b == b;
    } else {
      var rest := a[1..];
      SnapshotOfConcat(rest, b, t);
      assert (a + b)[0] == a[0] && (a + b)[1..] == rest + b;
      Associate(ShownAt(a[0], t), Snapshot(rest, t), Snapshot(b, t));
    }
  }

  lemma SnapshotOfOne(v: Version, t: Time)
    ensures Snapshot([v], t) == ShownAt(v, t)
  {
  }

  // ---------------------------------------------------------------------
  // Which rows an edit concerns
  // ---------------------------------------------------------------------

  /** The resource whose configuration is edited; the whole relation when
      there is no RID. */
  datatype Subject = Subject(restype: string, rid: Option<Rid>)

  datatype ConfigType = Acl | Dynacl | Annotation

  function NameColumn(c: ConfigType): string {
    match c
    case Acl => "acl"
    case Dynacl => "binding_name"
    case Annotation => "annotation_uri"
  }

  function ContentColumn(c: ConfigType): string {
    match c
    case Acl => "members"
    case Dynacl => "binding"
    case Annotation => "annotation_value"
  }

  function Key(d: RowData, key: string): Json {
    if key in d then d[key] else JNull
  }

  predicate About(v: Version, s: Subject) {
    s.rid.Some? ==> s.restype + "_rid" in v.rowdata && v.rowdata[s.restype + "_rid"] == JText(s.rid.value)
  }

  function OfSubject(rows: seq<Version>, s: Subject, wanted: bool): seq<Version> {
    if rows == [] then []
    else (if About(rows[0], s) == wanted then [rows[0]] else []) + OfSubject(rows[1..], s, wanted)
  }

  lemma {:induction false} OfSubjectConcat(a: seq<Version>, b: seq<Version>, s: Subject, wanted: bool)
    ensures OfSubject(a + b, s, wanted) == OfSubject(a, s, wanted) + OfSubject(b, s, wanted)
  {
    if a == [] {
      assert a + b == b;
    } else {
      OfSubjectConcat(a[1..], b, s, wanted);
      assert (a + b)[1..] == a[1..] + b;
    }
  }

  lemma {:induction false} OfSubjectAll(rows: seq<Version>, s: Subject, wanted: bool)
    ensures (forall v :: v in rows ==> About(v, s) == wanted) ==> OfSubject(rows, s, wanted) == rows
    ensures (forall v :: v in rows ==> About(v, s) != wanted) ==> OfSubject(rows, s, wanted) == []
  {
    if rows != [] {
      OfSubjectAll(rows[1..], s, wanted);
    }
  }

  /** A configuration setting: the JSON name and content of a row. */
  datatype Setting = Setting(name: Json, content: Json)

  function SettingOf(v: Shown, c: ConfigType): Setting {
    Setting(Key(v.rowdata, NameColumn(c)), Key(v.rowdata, ContentColumn(c)))
  }

  function SettingsOf(shown: seq<Shown>, c: ConfigType): seq<Setting> {
    seq(|shown|, i requires 0 <= i < |shown| => SettingOf(shown[i], c))
  }

  /** The settings in force at an instant among `rows`, as a bag. */
  ghost function Settings(rows: seq<Version>, c: ConfigType, t: Time): multiset<Setting> {
    multiset(SettingsOf(Snapshot(rows, t), c))
  }

  lemma {:induction false} NothingInForce(rows: seq<Version>, t: Time)
    requires forall v :: v in rows ==> !Contains(v.during, t)
    ensures Snapshot(rows, t) == []
  {
    if rows != [] {
      NothingInForce(rows[1..], t);
    }
  }

  /** No two versions of one RID are in force together. */
  ghost predicate Disjoint(rows: seq<Version>) {
    forall i, j | 0 <= i < j < |rows| :: rows[i].rid == rows[j].rid ==> !Overlaps(rows[i].during, rows[j].during)
  }

  ghost predicate NormalRows(rows: seq<Version>) {
    forall v :: v in rows ==> Normal(v.during)
  }

  /** RIDs still to come from the sequence are not in use. */
  ghost predicate Unused(rows: seq<Version>, next: nat) {
    forall v, n: nat :: v in rows && n >= next ==> v.rid != Aliases.Decimal(n)
  }

  // ---------------------------------------------------------------------
  // The amending statement
  // ---------------------------------------------------------------------

  /** Rows that overlap the range and concern the subject are deleted. */
  predicate Deleted(v: Version, s: Subject, range: Span) {
    Overlaps(v.during, range) && About(v, s)
  }

  function Split(rows: seq<Version>, s: Subject, range: Span, deleted: bool): seq<Version> {
    if rows == [] then []
    else (if Deleted(rows[0], s, range) == deleted then [rows[0]] else []) + Split(rows[1..], s, range, deleted)
  }

  function Prefix(v: Version, from: Time): seq<Version> {
    if v.during.Span? && (v.during.lower.None? || v.during.lower.value < from)
    then [v.(during := Span(v.during.lower, Some(from)))] else []
  }

  function Suffix(v: Version, until: Time): seq<Version> {
    if v.during.Span? && (v.during.upper.None? || v.during.upper.value > until)
    then [v.(during := Span(Some(until), v.during.upper))] else []
  }

  function Prefixes(rows: seq<Version>, from: Time): seq<Version> {
    if rows == [] then [] else Prefix(rows[0], from) + Prefixes(rows[1..], from)
  }

  function Suffixes(rows: seq<Version>, until: Time): seq<Version> {
    if rows == [] then [] else Suffix(rows[0], until) + Suffixes(rows[1..], until)
  }

  function NewRowData(client: string, from: string, s: Subject, c: ConfigType, name: string, content: Json): RowData {
    var base: RowData := map["RCB" := JText(client), "RCT" := JText(from)];
    var about := if s.rid.Some? then base[s.restype + "_rid" := JText(s.rid.value)] else base;
    about[NameColumn(c) := JText(name)][ContentColumn(c) := content]
  }

  lemma NewRowDataShows(client: string, from: string, s: Subject, c: ConfigType, name: string, content: Json)
    ensures var d := NewRowData(client, from, s, c, name, content);
      && Key(d, NameColumn(c)) == JText(name)
      && Key(d, ContentColumn(c)) == content
      && forall during, rid, rmb :: About(Version(rid, during, rmb, d), s)
  {
    var key := s.restype + "_rid";
    assert key[|key| - 1] == 'd';
    match c
    case Acl => assert "acl"[2] == 'l' && "members"[6] == 's';
    case Dynacl => assert "binding_name"[11] == 'e' && "binding"[6] == 'g';
    case Annotation => assert "annotation_uri"[13] == 'i' && "annotation_value"[15] == 'e';
  }

  /** The amended period as a range. */
  function Amended(from: Time, until: Time): Span {
    if from < until then Span(Some(from), Some(until)) else Empty
  }

  /** The three groups of rows the statement leaves beside the new ones. */
  function Remaining(rows: seq<Version>, s: Subject, from: Time, until: Time): seq<Version> {
    var deleted := Split(rows, s, Amended(from, until), true);
    Split(rows, s, Amended(from, until), false) + Prefixes(deleted, from) + Suffixes(deleted, until)
  }

  lemma {:induction false} ClampedNormal(rows: seq<Version>, t: Time)
    requires NormalRows(rows)
    ensures NormalRows(Prefixes(rows, t)) && NormalRows(Suffixes(rows, t))
  {
    if rows != [] {
      assert rows[0] in rows;
      ClampedNormal(rows[1..], t);
    }
  }

  lemma {:induction false} SplitNormal(rows: seq<Version>, s: Subject, range: Span, deleted: bool)
    requires NormalRows(rows)
    ensures NormalRows(Split(rows, s, range, deleted))
  {
    if rows != [] {
      assert rows[0] in rows;
      SplitNormal(rows[1..], s, range, deleted);
    }
  }

  /** Clamping leaves no version with an empty period. */
  lemma RemainingNormal(rows: seq<Version>, s: Subject, from: Time, until: Time)
    requires NormalRows(rows)
    ensures NormalRows(Remaining(rows, s, from, until))
  {
    SplitNormal(rows, s, Amended(from, until), true);
    SplitNormal(rows, s, Amended(from, until), false);
    ClampedNormal(Split(rows, s, Amended(from, until), true), from);
    ClampedNormal(Split(rows, s, Amended(from, until), true), until);
  }

  predicate Within(from: Time, t: Time, until: Time) {
    from <= t < until
  }

  /** Clamping loses nothing outside the amended period. */
  lemma ClampedOutside(v: Version, s: Subject, from: Time, until: Time, t: Time)
    requires from <= until && Deleted(v, s, Amended(from, until)) && !Within(from, t, until)
    ensures Snapshot(Prefix(v, from), t) + Snapshot(Suffix(v, until), t) == ShownAt(v, t)
  {
  }

  lemma Regroup<T>(a: seq<T>, b: seq<T>, k: seq<T>, p: seq<T>, q: seq<T>)
    ensures multiset(k) + multiset(a + p) + multiset(b + q)
      == multiset(a + b) + (multiset(k) + multiset(p) + multiset(q))
  {
  }

  lemma SplitHead(v: Version, rest: seq<Version>, s: Subject, range: Span)
    ensures Split([v] + rest, s, range, Deleted(v, s, range)) == [v] + Split(rest, s, range, Deleted(v, s, range))
    ensures Split([v] + rest, s, range, !Deleted(v, s, range)) == Split(rest, s, range, !Deleted(v, s, range))
  {
  }

  lemma ClampedHead(v: Version, deleted: seq<Version>, from: Time, until: Time, t: Time)
    ensures Snapshot(Prefixes([v] + deleted, from), t) == Snapshot(Prefix(v, from), t)
      + Snapshot(Prefixes(deleted, from), t)
    ensures Snapshot(Suffixes([v] + deleted, until), t) == Snapshot(Suffix(v, until), t)
      + Snapshot(Suffixes(deleted, until), t)
  {
    assert ([v] + deleted)[1..] == deleted;
    SnapshotOfConcat(Prefix(v, from), Prefixes(deleted, from), t);
    SnapshotOfConcat(Suffix(v, until), Suffixes(deleted, until), t);
  }

  lemma SnapshotHead(v: Version, rest: seq<Version>, t: Time)
    ensures Snapshot([v] + rest, t) == ShownAt(v, t) + Snapshot(rest, t)
  {
  }

  /** The snapshot at `t` of the kept rows, the prefixes and the suffixes. */
  ghost function Three(kept: seq<Version>, deleted: seq<Version>, from: Time, until: Time, t: Time): multiset<Shown> {
    multiset(Snapshot(kept, t)) + multiset(Snapshot(Prefixes(deleted, from), t))
      + multiset(Snapshot(Suffixes(deleted, until), t))
  }

  lemma ThreeHead(v: Version, kept: seq<Version>, deleted: seq<Version>, s: Subject, from: Time, until: Time, t: Time)
    requires from <= until && !Within(from, t, until)
    ensures
      if Deleted(v, s, Amended(from, until))
      then Three(kept, [v] + deleted, from, until, t) == multiset(ShownAt(v, t)) + Three(kept, deleted, from, until, t)
      else Three([v] + kept, deleted, from, until, t) == multiset(ShownAt(v, t)) + Three(kept, deleted, from, until, t)
  {
    var range := Amended(from, until);
    var k, p, q := Snapshot(kept, t), Snapshot(Prefixes(deleted, from), t), Snapshot(Suffixes(deleted, until), t);
    if Deleted(v, s, range) {
      ClampedOutside(v, s, from, until, t);
      ClampedHead(v, deleted, from, until, t);
      Regroup(Snapshot(Prefix(v, from), t), Snapshot(Suffix(v, until), t), k, p, q);
    } else {
      SnapshotHead(v, kept, t);
      assert multiset(ShownAt(v, t) + k) == multiset(ShownAt(v, t)) + multiset(k);
    }
  }

  lemma {:induction false} SplitOutside(rows: seq<Version>, s: Subject, from: Time, until: Time, t: Time)
    requires from <= until && !Within(from, t, until)
    ensures
      multiset(Snapshot(rows, t))
      == Three(Split(rows, s, Amended(from, until), false), Split(rows, s, Amended(from, until), true), from, until, t)
  {
    if rows != [] {
      var v, rest, range := rows[0], rows[1..], Amended(from, until);
      assert rows == [v] + rest;
      SplitOutside(rest, s, from, until, t);
      SplitHead(v, rest, s, range);
      SnapshotHead(v, rest, t);
      ThreeHead(v, Split(rest, s, range, false), Split(rest, s, range, true), s, from, until, t);
    }
  }

  /** Outside the amended period every snapshot is what it was. */
  lemma RemainingOutside(rows: seq<Version>, s: Subject, from: Time, until: Time, t: Time)
    requires from <= until && !Within(from, t, until)
    ensures SameSnapshot(Remaining(rows, s, from, until), rows, t)
  {
    SplitOutside(rows, s, from, until, t);
    var deleted := Split(rows, s, Amended(from, until), true);
    var kept := Split(rows, s, Amended(from, until), false);
    SnapshotOfConcat(kept + Prefixes(deleted, from), Suffixes(deleted, until), t);
    SnapshotOfConcat(kept, Prefixes(deleted, from), t);
  }

  lemma {:induction false} ClampedAbout(deleted: seq<Version>, s: Subject, from: Time, until: Time)
    requires forall v :: v in deleted ==> About(v, s)
    ensures forall v :: v in Prefixes(deleted, from) ==> About(v, s)
    ensures forall v, t :: v in Prefixes(deleted, from) && from <= t ==> !Contains(v.during, t)
    ensures forall v :: v in Suffixes(deleted, until) ==> About(v, s)
    ensures forall v, t :: v in Suffixes(deleted, until) && t < until ==> !Contains(v.during, t)
  {
    if deleted != [] {
      ClampedAbout(deleted[1..], s, from, until);
      assert forall v :: v in Prefix(deleted[0], from) + Suffix(deleted[0], until) ==> v.rowdata == deleted[0].rowdata;
      assert About(deleted[0], s);
    }
  }

  lemma {:induction false} SplitParts(rows: seq<Version>, s: Subject, range: Span)
    ensures forall v :: v in Split(rows, s, range, true) <==> v in rows && Deleted(v, s, range)
    ensures forall v :: v in Split(rows, s, range, false) <==> v in rows && !Deleted(v, s, range)
    ensures OfSubject(Split(rows, s, range, false), s, false) == OfSubject(rows, s, false)
  {
    if rows != [] {
      SplitParts(rows[1..], s, range);
      var kept := Split(rows[1..], s, range, false);
      if Deleted(rows[0], s, range) {
        assert Split(rows, s, range, false) == kept;
      } else {
        assert Split(rows, s, range, false) == [rows[0]] + kept;
        assert ([rows[0]] + kept)[1..] == kept;
      }
    }
  }

  /** No row of the subject is in force. */
  ghost predicate SilentAt(rows: seq<Version>, s: Subject, t: Time) {
    forall v :: v in rows && About(v, s) ==> !Contains(v.during, t)
  }

  /** The rows of other subjects are not touched at all, and no remaining row of
      this subject is in force inside the amended period. */
  lemma RemainingInside(rows: seq<Version>, s: Subject, from: Time, until: Time)
    requires from <= until
    ensures OfSubject(Remaining(rows, s, from, until), s, false) == OfSubject(rows, s, false)
    ensures forall t :: Within(from, t, until) ==> SilentAt(Remaining(rows, s, from, until), s, t)
  {
    var range := Amended(from, until);
    var kept, deleted := Split(rows, s, range, false), Split(rows, s, range, true);
    SplitParts(rows, s, range);
    ClampedAbout(deleted, s, from, until);
    OfSubjectConcat(kept + Prefixes(deleted, from), Suffixes(deleted, until), s, false);
    OfSubjectConcat(kept, Prefixes(deleted, from), s, false);
    OfSubjectAll(Prefixes(deleted, from), s, false);
    OfSubjectAll(Suffixes(deleted, until), s, false);
  }

  // ---------------------------------------------------------------------
  // One RID is never in force twice
  // ---------------------------------------------------------------------

  ghost predicate Apart(a: seq<Version>, b: seq<Version>) {
    forall x, y :: x in a && y in b && x.rid == y.rid ==> !Overlaps(x.during, y.during)
  }

  ghost predicate NarrowedFrom(x: Version, b: seq<Version>) {
    exists y :: y in b && y.rid == x.rid && Encloses(y.during, x.during)
  }

  lemma DisjointConcat(a: seq<Version>, b: seq<Version>)
    ensures Disjoint(a + b) <==> Disjoint(a) && Disjoint(b) && Apart(a, b)
  {
    if Disjoint(a + b) {
      forall i, j | 0 <= i < j < |a| ensures a[i].rid == a[j].rid ==> !Overlaps(a[i].during, a[j].during) {
        assert (a + b)[i] == a[i] && (a + b)[j] == a[j];
      }
      forall i, j | 0 <= i < j < |b| ensures b[i].rid == b[j].rid ==> !Overlaps(b[i].during, b[j].during) {
        assert (a + b)[|a| + i] == b[i] && (a + b)[|a| + j] == b[j];
      }
      forall x, y | x in a && y in b && x.rid == y.rid ensures !Overlaps(x.during, y.during) {
        var i :| 0 <= i < |a| && a[i] == x;
        var j :| 0 <= j < |b| && b[j] == y;
        assert (a + b)[i] == x && (a + b)[|a| + j] == y;
      }
    }
  }

  lemma NarrowedApart(k: seq<Version>, a: seq<Version>, b: seq<Version>)
    requires Apart(k, b) && forall x :: x in a ==> NarrowedFrom(x, b)
    ensures Apart(k, a)
  {
  }

  lemma {:induction false} ClampedNarrowed(deleted: seq<Version>, s: Subject, from: Time, until: Time)
    requires from <= until && forall v :: v in deleted ==> Deleted(v, s, Amended(from, until))
    ensures forall x :: x in Prefixes(deleted, from) ==> NarrowedFrom(x, deleted)
    ensures forall x :: x in Suffixes(deleted, until) ==> NarrowedFrom(x, deleted)
  {
    if deleted != [] {
      var v, rest := deleted[0], deleted[1..];
      ClampedNarrowed(rest, s, from, until);
      forall x | x in Prefix(v, from) || x in Suffix(v, until) ensures NarrowedFrom(x, deleted) {
        assert v in deleted && Encloses(v.during, x.during);
      }
      forall x | NarrowedFrom(x, rest) ensures NarrowedFrom(x, deleted) {
        var y :| y in rest && y.rid == x.rid && Encloses(y.during, x.during);
        assert y in deleted;
      }
    }
  }

  lemma ClampedOne(v: Version, from: Time, until: Time)
    ensures Prefixes([v], from) == Prefix(v, from) && Suffixes([v], until) == Suffix(v, until)
  {
  }

  lemma {:induction false} ClampedDisjoint(deleted: seq<Version>, s: Subject, from: Time, until: Time)
    requires from <= until && Disjoint(deleted) && forall v :: v in deleted ==> Deleted(v, s, Amended(from, until))
    ensures Disjoint(Prefixes(deleted, from) + Suffixes(deleted, until))
  {
    if deleted != [] {
      var v, rest := deleted[0], deleted[1..];
      assert deleted == [v] + rest;
      DisjointConcat([v], rest);
      ClampedDisjoint(rest, s, from, until);
      ClampedNarrowed(rest, s, from, until);
      ClampedNarrowed([v], s, from, until);
      ClampedOne(v, from, until);
      HeadApart([v], Prefix(v, from), rest, Prefixes(rest, from));
      HeadApart([v], Prefix(v, from), rest, Suffixes(rest, until));
      HeadApart([v], Suffix(v, until), rest, Prefixes(rest, from));
      HeadApart([v], Suffix(v, until), rest, Suffixes(rest, until));
      FourDisjoint(Prefix(v, from), Prefixes(rest, from), Suffix(v, until), Suffixes(rest, until));
    }
  }

  lemma FourDisjoint(p1: seq<Version>, p2: seq<Version>, q1: seq<Version>, q2: seq<Version>)
    requires Disjoint(p2 + q2) && Disjoint(p1) && Disjoint(q1) && Apart(p1, q1)
    requires Apart(p1, p2) && Apart(p1, q2) && Apart(q1, p2) && Apart(q1, q2)
    ensures Disjoint((p1 + p2) + (q1 + q2))
  {
    DisjointConcat(p2, q2);
    DisjointConcat(p1, p2);
    DisjointConcat(q1, q2);
    assert Apart(p1 + p2, q1 + q2);
    DisjointConcat(p1 + p2, q1 + q2);
  }

  lemma HeadApart(one: seq<Version>, a: seq<Version>, rest: seq<Version>, b: seq<Version>)
    requires Apart(one, rest)
    requires forall x :: x in a ==> NarrowedFrom(x, one)
    requires forall x :: x in b ==> NarrowedFrom(x, rest)
    ensures Apart(a, b) && Apart(b, a)
  {
  }

  lemma {:induction false} SplitDisjoint(rows: seq<Version>, s: Subject, range: Span)
    requires Disjoint(rows)
    ensures Disjoint(Split(rows, s, range, false)) && Disjoint(Split(rows, s, range, true))
    ensures Apart(Split(rows, s, range, false), Split(rows, s, range, true))
  {
    if rows != [] {
      var v, rest := rows[0], rows[1..];
      assert rows == [v] + rest;
      DisjointConcat([v], rest);
      SplitDisjoint(rest, s, range);
      SplitParts(rest, s, range);
      var kept, deleted := Split(rest, s, range, false), Split(rest, s, range, true);
      assert Apart([v], kept) && Apart([v], deleted);
      DisjointConcat([v], kept);
      DisjointConcat([v], deleted);
    }
  }

  lemma {:induction false} ClampedUnused(deleted: seq<Version>, from: Time, until: Time, next: nat)
    requires Unused(deleted, next)
    ensures Unused(Prefixes(deleted, from), next) && Unused(Suffixes(deleted, until), next)
  {
    if deleted != [] {
      ClampedUnused(deleted[1..], from, until, next);
    }
  }

  /** Splitting versions keeps each RID's versions apart and draws on no RID
      that is not already in use. */
  lemma RemainingDisjoint(rows: seq<Version>, s: Subject, from: Time, until: Time, next: nat)
    requires from <= until && Disjoint(rows) && Unused(rows, next)
    ensures Disjoint(Remaining(rows, s, from, until)) && Unused(Remaining(rows, s, from, until), next)
  {
    var range := Amended(from, until);
    var kept, deleted := Split(rows, s, range, false), Split(rows, s, range, true);
    SplitParts(rows, s, range);
    SplitDisjoint(rows, s, range);
    ClampedDisjoint(deleted, s, from, until);
    ClampedNarrowed(deleted, s, from, until);
    ClampedUnused(deleted, from, until, next);
    NarrowedApart(kept, Prefixes(deleted, from), deleted);
    NarrowedApart(kept, Suffixes(deleted, until), deleted);
    DisjointConcat(kept, Prefixes(deleted, from) + Suffixes(deleted, until));
    assert Remaining(rows, s, from, until) == kept + (Prefixes(deleted, from) + Suffixes(deleted, until));
  }

  // ---------------------------------------------------------------------
  // The amended rows
  // ---------------------------------------------------------------------

  datatype HistoryError = InvalidRange | BadRequest | Conflict | NotFound | NotImplemented

  /** The settings a content map asks for, each once. */
  ghost function Wanted(content: map<string, Json>, names: set<string>): set<Setting>
    requires names <= content.Keys
  {
    set name | name in names :: Setting(JText(name), content[name])
  }

  lemma WantedOneMore(content: map<string, Json>, names: set<string>, name: string)
    requires names <= content.Keys && name in content && name !in names
    ensures multiset(Wanted(content, names + {name})) == multiset(Wanted(content, names))
      + multiset{Setting(JText(name), content[name])}
  {
  }

  lemma SettingsOneMore(rows: seq<Version>, v: Version, c: ConfigType, t: Time)
    requires Contains(v.during, t)
    ensures Settings(rows + [v], c, t) == Settings(rows, c, t) + multiset{SettingOf(Show(v), c)}
  {
    SnapshotOfConcat(rows, [v], t);
    SnapshotOfOne(v, t);
    assert SettingsOf(Snapshot(rows + [v], t), c) == SettingsOf(Snapshot(rows, t), c) + [SettingOf(Show(v), c)];
  }

  /** The rows built so far give each processed name its content, throughout
      the period. */
  ghost predicate Gives(built: seq<Version>, range: Span, c: ConfigType, content: map<string, Json>, names: set<string>)
    requires names <= content.Keys
  {
    forall t :: Contains(range, t) ==> Settings(built, c, t) == multiset(Wanted(content, names))
  }

  lemma GivesOneMore(built: seq<Version>, v: Version, c: ConfigType, content: map<string, Json>, names: set<string>,
      name: string)
    requires names <= content.Keys && name in content && name !in names
    requires Gives(built, v.during, c, content, names)
    requires SettingOf(Show(v), c) == Setting(JText(name), content[name])
    ensures Gives(built + [v], v.during, c, content, names + {name})
  {
    forall t | Contains(v.during, t) ensures Settings(built + [v], c, t) == multiset(Wanted(content, names + {name})) {
      SettingsOneMore(built, v, c, t);
      WantedOneMore(content, names, name);
    }
  }

  /** A row built for the amended period from an entry of the content map. */
  ghost predicate BuiltFrom(v: Version, range: Span, client: string, fromText: string, s: Subject, c: ConfigType,
      content: map<string, Json>) {
    && v.during == range
    && v.rmb == client
    && About(v, s)
    && exists name :: name in content && v.rowdata == NewRowData(client, fromText, s, c, name, content[name])
  }

  ghost predicate AllBuilt(built: seq<Version>, range: Span, client: string, fromText: string, s: Subject,
      c: ConfigType, content: map<string, Json>) {
    forall v :: v in built ==> BuiltFrom(v, range, client, fromText, s, c, content)
  }

  function NewVersion(n: nat, range: Span, client: string, fromText: string, s: Subject, c: ConfigType, name: string,
      content: Json): Version {
    Version(Aliases.Decimal(n), range, client, NewRowData(client, fromText, s, c, name, content))
  }

  lemma BuildOneMore(built: seq<Version>, start: nat, range: Span, client: string, fromText: string, s: Subject,
      c: ConfigType,
      content: map<string, Json>, names: set<string>, name: string)
    requires names <= content.Keys && name in content && name !in names
    requires Gives(built, range, c, content, names)
    requires AllBuilt(built, range, client, fromText, s, c, content)
    requires Numbered(built, start)
    ensures
      var more := built + [NewVersion(start + |built|, range, client, fromText, s, c, name, content[name])];
      Gives(more, range, c, content, names + {name}) && AllBuilt(more, range, client, fromText, s, c, content)
        && Numbered(more, start)
  {
    var v := NewVersion(start + |built|, range, client, fromText, s, c, name, content[name]);
    NewRowDataShows(client, fromText, s, c, name, content[name]);
    GivesOneMore(built, v, c, content, names, name);
    assert BuiltFrom(v, range, client, fromText, s, c, content);
  }

  ghost predicate Numbered(rows: seq<Version>, start: nat) {
    forall i | 0 <= i < |rows| :: rows[i].rid == Aliases.Decimal(start + i)
  }

  lemma NumberedApart(rows: seq<Version>, built: seq<Version>, next: nat)
    requires Disjoint(rows) && Unused(rows, next) && Numbered(built, next)
    ensures Disjoint(rows + built) && Unused(rows + built, next + |built|)
  {
    forall i, j | 0 <= i < j < |built| ensures built[i].rid != built[j].rid {
      Aliases.DecimalRoundTrip(next + i);
      Aliases.DecimalRoundTrip(next + j);
    }
    assert Apart(rows, built);
    DisjointConcat(rows, built);
    forall v, n: nat | v in rows + built && n >= next + |built| ensures v.rid != Aliases.Decimal(n) {
      if v in built {
        var i :| 0 <= i < |built| && built[i] == v;
        Aliases.DecimalRoundTrip(next + i);
        Aliases.DecimalRoundTrip(n);
      }
    }
  }

  /** Adding the built rows gives the period its configuration and shows
      nowhere else. */
  lemma BuiltShows(rest: seq<Version>, built: seq<Version>, s: Subject, c: ConfigType, range: Span, t: Time)
    requires forall v :: v in built ==> v.during == range && About(v, s)
    requires Contains(range, t) ==> SilentAt(rest, s, t)
    ensures Contains(range, t) ==> Snapshot(OfSubject(rest + built, s, true), t) == Snapshot(built, t)
    ensures !Contains(range, t) ==> Snapshot(rest + built, t) == Snapshot(rest, t)
    ensures OfSubject(rest + built, s, false) == OfSubject(rest, s, false)
  {
    OfSubjectConcat(rest, built, s, true);
    OfSubjectConcat(rest, built, s, false);
    OfSubjectAll(built, s, true);
    OfSubjectAll(built, s, false);
    SnapshotOfConcat(rest, built, t);
    SnapshotOfConcat(OfSubject(rest, s, true), built, t);
    if Contains(range, t) {
      OfSubjectMembers(rest, s, true);
      NothingInForce(OfSubject(rest, s, true), t);
    } else {
      NothingInForce(built, t);
    }
  }

  lemma {:induction false} OfSubjectMembers(rows: seq<Version>, s: Subject, wanted: bool)
    ensures forall v :: v in OfSubject(rows, s, wanted) <==> v in rows && About(v, s) == wanted
  {
    if rows != [] {
      OfSubjectMembers(rows[1..], s, wanted);
    }
  }

  /** What an amendment of [from, until) promises about the rows before and
      after it. */
  ghost predicate AmendedAsAsked(before: seq<Version>, after: seq<Version>, s: Subject, c: ConfigType, from: Time,
      until: Time, content: map<string, Json>) {
    && (forall t :: Within(from, t, until) ==>
      Settings(OfSubject(after, s, true), c, t) == multiset(Wanted(content, content.Keys)))
    && (forall t :: !Within(from, t, until) ==> SameSnapshot(after, before, t))
    && OfSubject(after, s, false) == OfSubject(before, s, false)
  }

  lemma AmendmentHolds(before: seq<Version>, built: seq<Version>, s: Subject, c: ConfigType, from: Time, until: Time,
      content: map<string, Json>)
    requires from <= until
    requires forall v :: v in built ==> v.during == Amended(from, until) && About(v, s)
    requires Gives(built, Amended(from, until), c, content, content.Keys)
    ensures AmendedAsAsked(before, Remaining(before, s, from, until) + built, s, c, from, until, content)
  {
    var rest, range := Remaining(before, s, from, until), Amended(from, until);
    RemainingInside(before, s, from, until);
    BuiltShows(rest, built, s, c, range, until);
    forall t | Within(from, t, until)
      ensures Settings(OfSubject(rest + built, s, true), c, t) == multiset(Wanted(content, content.Keys)) {
      assert SilentAt(rest, s, t);
      BuiltShows(rest, built, s, c, range, t);
    }
    forall t | !Within(from, t, until) ensures SameSnapshot(rest + built, before, t) {
      AmendmentOutside(before, built, s, c, from, until, t);
    }
  }

  lemma AmendmentOutside(before: seq<Version>, built: seq<Version>, s: Subject, c: ConfigType, from: Time,
      until: Time, t: Time)
    requires from <= until && !Within(from, t, until)
    requires forall v :: v in built ==> v.during == Amended(from, until) && About(v, s)
    ensures SameSnapshot(Remaining(before, s, from, until) + built, before, t)
  {
    BuiltShows(Remaining(before, s, from, until), built, s, c, Amended(from, until), t);
    RemainingOutside(before, s, from, until, t);
  }

  lemma AmendmentDisjoint(before: seq<Version>, built: seq<Version>, s: Subject, from: Time, until: Time, next: nat)
    requires from <= until && Numbered(built, next)
    ensures Disjoint(before) && Unused(before, next) ==>
      && Disjoint(Remaining(before, s, from, until) + built)
      && Unused(Remaining(before, s, from, until) + built, next + |built|)
  {
    if Disjoint(before) && Unused(before, next) {
      RemainingDisjoint(before, s, from, until, next);
      NumberedApart(Remaining(before, s, from, until), built, next);
    }
  }

  /** One `known_<restype>s_<configtype>s` history relation, the RID sequence
      and the log of amendments. */
  class ConfigRelation {
    const config: ConfigType
    var rows: seq<Version>
    var sequence: nat
    var amended: map<Time, Span>

    constructor (config: ConfigType, rows: seq<Version>, sequence: nat, amended: map<Time, Span>)
      ensures this.config == config && this.rows == rows && this.sequence == sequence && this.amended == amended
    {
      this.config, this.rows, this.sequence, this.amended := config, rows, sequence, amended;
    }

    /** One new version per entry of the content map, each with a new RID. */
    method Construct(range: Span, s: Subject, client: string, fromText: string, content: map<string, Json>)
        returns (built: seq<Version>)
      modifies `sequence
      ensures sequence == old(sequence) + |built| && Numbered(built, old(sequence))
      ensures AllBuilt(built, range, client, fromText, s, config, content)
      ensures Gives(built, range, config, content, content.Keys)
    {
      built := [];
      var todo := content.Keys;
      ghost var done: set<string> := {};
      while todo != {}
        invariant todo + done == content.Keys && todo !! done
        invariant sequence == old(sequence) + |built| && Numbered(built, old(sequence))
        invariant AllBuilt(built, range, client, fromText, s, config, content)
        invariant Gives(built, range, config, content, done)
        decreases todo
      {
        var name :| name in todo;
        BuildOneMore(built, old(sequence), range, client, fromText, s, config, content, done, name);
        built := built + [NewVersion(sequence, range, client, fromText, s, config, name, content[name])];
        sequence := sequence + 1;
        todo := todo - {name};
        done := done + {name};
      }
      assert done == content.Keys;
    }

    /** Overwrite the subject's configuration during [from, until). */
    method AmendConfig(now: Time, s: Subject, from: Time, until: Time, client: string, fromText: string,
        content: map<string, Json>)
      returns (r: Result<(), HistoryError>)
      modifies this
      ensures r.Err? <==> until < from
      ensures r.Err? ==>
        r.error == InvalidRange && rows == old(rows) && sequence == old(sequence) && amended == old(amended)
      ensures r.Ok? ==> AmendedAsAsked(old(rows), rows, s, config, from, until, content)
      ensures r.Ok? ==> forall v :: v in rows && v !in old(Remaining(rows, s, from, until)) ==>
        BuiltFrom(v, Amended(from, until), client, fromText, s, config, content)
      ensures r.Ok? && old(Disjoint(rows) && Unused(rows, sequence)) ==> Disjoint(rows) && Unused(rows, sequence)
      ensures r.Ok? ==> amended == old(if now in amended then amended else amended[now := Amended(from, until)])
    {
      var range := MakeSpan(Some(from), Some(until));
      if range.None? {
        return Err(InvalidRange);
      }
      if now !in amended {
        amended := amended[now := range.value];
      }
      var kept, deleted := Split(rows, s, range.value, false), Split(rows, s, range.value, true);
      var rest := kept + Prefixes(deleted, from) + Suffixes(deleted, until);
      var built := Construct(range.value, s, client, fromText, content);
      AmendmentHolds(rows, built, s, config, from, until, content);
      AmendmentDisjoint(rows, built, s, from, until, old(sequence));
      rows := rest + built;
      r := Ok(());
    }

    /** ACL amendments: names must be supported, members are a list, and a
        null removes the ACL. */
    method AmendAcl(now: Time, s: Subject, supported: set<string>, from: Time, until: Time, client: string,
        fromText: string, content: map<string, Json>)
      returns (r: Result<(), HistoryError>)
      requires config == Acl
      modifies this
      ensures r.Ok? <==> from <= until && forall name :: name in content ==>
        name in supported && (content[name].JList? || content[name].JNull?)
      ensures until < from ==> r == Err(InvalidRange)
      ensures r.Err? ==> rows == old(rows) && sequence == old(sequence) && amended == old(amended)
      ensures r.Ok? ==> AmendedAsAsked(old(rows), rows, s, config, from, until, map name | name in content
        && content[name].JList? :: content[name])
    {
      if MakeSpan(Some(from), Some(until)).None? {
        return Err(InvalidRange);
      }
      var todo := content.Keys;
      while todo != {}
        invariant todo <= content.Keys
        invariant forall name :: name in content.Keys - todo ==>
          name in supported && (content[name].JList? || content[name].JNull?)
        decreases todo
      {
        var name :| name in todo;
        if name !in supported {
          return Err(Conflict);
        }
        if !content[name].JList? && !content[name].JNull? {
          return Err(BadRequest);
        }
        todo := todo - {name};
      }
      var listed := map name | name in content && !content[name].JNull? :: content[name];
      assert listed == map name | name in content && content[name].JList? :: content[name];
      r := AmendConfig(now, s, from, until, client, fromText, listed);
    }
  }
}
