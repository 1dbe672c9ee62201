/** Redacting one column of a table's history over a past period. */
module Redaction {
  import opened Wrappers
  import opened Spans
  import opened History

  /** A filter column with the value it must have: as JSON, and as PostgreSQL
      reads it when cast to text or to a timestamp. */
  datatype FilterArg = FilterArg(rid: Rid, value: Json, asText: string, asTime: Time)

  datatype Filter =
    | Everything
    | ByRid(text: string)
    | ByRmb(text: string)
    | ByRmt(time: Time)
    | ByField(column: Rid, value: Json)

  const UNPACKED := {"RID", "RMT", "RMB"}

  /** Whether a column lives outside the JSON row data, from all the names it
      ever had. */
  function Unpacked(names: set<string>): (r: Result<Option<string>, HistoryError>)
    ensures r == Ok(None) <==> names !! UNPACKED
    ensures forall n :: r == Ok(Some(n)) <==> n in UNPACKED && names == {n}
  {
    if names !! UNPACKED then Ok(None)
    else if names == {"RID"} then Ok(Some("RID"))
    else if names == {"RMT"} then Ok(Some("RMT"))
    else if names == {"RMB"} then Ok(Some("RMB"))
    else Err(NotImplemented)
  }

  function FilterFor(filter: Option<FilterArg>, columnNames: map<Rid, set<string>>): Result<Filter, HistoryError> {
    if filter.None? then Ok(Everything)
    else if filter.value.rid !in columnNames then Err(NotFound)
    else
      match Unpacked(columnNames[filter.value.rid])
      case Err(e) => Err(e)
      case Ok(None) => Ok(ByField(filter.value.rid, filter.value.value))
      case Ok(Some(n)) =>
        if n == "RID" then Ok(ByRid(filter.value.asText))
        else if n == "RMB" then Ok(ByRmb(filter.value.asText))
        else Ok(ByRmt(filter.value.asTime))
  }

  predicate Matches(f: Filter, v: Version) {
    match f
    case Everything => true
    case ByRid(text) => v.rid == text
    case ByRmb(text) => v.rmb == text
    case ByRmt(time) => Lower(v.during) == Some(time)
    case ByField(column, value) => column in v.rowdata && v.rowdata[column] == value
  }

  /** What a filter selects, by where its column lives: the RID, the time of the
      change or its author, for those system columns, and else the JSON field. */
  predicate Selects(filter: Option<FilterArg>, columnNames: map<Rid, set<string>>, v: Version)
    requires filter.Some? ==> filter.value.rid in columnNames
  {
    filter.Some? ==>
      var arg, names := filter.value, columnNames[filter.value.rid];
      && (names == {"RID"} ==> v.rid == arg.asText)
      && (names == {"RMB"} ==> v.rmb == arg.asText)
      && (names == {"RMT"} ==> Lower(v.during) == Some(arg.asTime))
      && (names !! UNPACKED ==> arg.rid in v.rowdata && v.rowdata[arg.rid] == arg.value)
  }

  /** The filter that a request compiles to matches what its argument selects. */
  lemma FilterExactly(filter: Option<FilterArg>, columnNames: map<Rid, set<string>>, v: Version)
    requires FilterFor(filter, columnNames).Ok?
    ensures filter.Some? ==> filter.value.rid in columnNames
    ensures Matches(FilterFor(filter, columnNames).value, v) <==> Selects(filter, columnNames, v)
  {
    if filter.Some? {
      var names := columnNames[filter.value.rid];
      assert Unpacked(names).Ok?;
      if !(names !! UNPACKED) {
        var n := Unpacked(names).value.value;
        assert names == {n} && n in {"RID", "RMT", "RMB"};
        assert "RID" in {"RID"} && "RMB" in {"RMB"} && "RMT" in {"RMT"};
      }
    }
  }

  /** `jsonb_set(rowdata, ARRAY[target], 'null', False)` */
  function Nulled(d: RowData, target: Rid): RowData {
    if target in d then d[target := JNull] else d
  }

  /** The UPDATE as it acts on one row. */
  function Redacted(v: Version, f: Filter, target: Rid, range: Span): Version {
    if Matches(f, v) && Encloses(range, v.during) then v.(rowdata := Nulled(v.rowdata, target)) else v
  }

  /** The rows before and after an UPDATE, one for one. */
  ghost predicate RowByRow(before: seq<Version>, after: seq<Version>, f: Filter, target: Rid, range: Span) {
    |after| == |before| && forall i | 0 <= i < |before| :: after[i] == Redacted(before[i], f, target, range)
  }

  /** Nothing but the target column of a row changes, and it only turns null. */
  lemma OnlyTargetChanges(v: Version, f: Filter, target: Rid, range: Span)
    ensures var r := Redacted(v, f, target, range);
      && r.rid == v.rid && r.during == v.during && r.rmb == v.rmb
      && r.rowdata.Keys == v.rowdata.Keys
      && (forall k :: k in v.rowdata ==> r.rowdata[k] == v.rowdata[k] || (k == target && r.rowdata[k] == JNull))
  {
  }

  /** The same row of two snapshots, but that the target column may be null. */
  predicate SameButTarget(a: Shown, b: Shown, target: Rid) {
    && a.rid == b.rid && a.rmb == b.rmb && a.rowdata.Keys == b.rowdata.Keys
    && forall k | k in a.rowdata :: b.rowdata[k] == a.rowdata[k] || (k == target && b.rowdata[k] == JNull)
  }

  ghost predicate AllSameButTarget(before: seq<Shown>, after: seq<Shown>, target: Rid) {
    |after| == |before| && forall i | 0 <= i < |before| :: SameButTarget(before[i], after[i], target)
  }

  lemma RowKept(v: Version, f: Filter, target: Rid, range: Span, t: Time)
    ensures AllSameButTarget(ShownAt(v, t), ShownAt(Redacted(v, f, target, range), t), target)
  {
    OnlyTargetChanges(v, f, target, range);
  }

  lemma MoreSameButTarget(a: seq<Shown>, b: seq<Shown>, c: seq<Shown>, d: seq<Shown>, target: Rid)
    requires AllSameButTarget(a, b, target) && AllSameButTarget(c, d, target)
    ensures AllSameButTarget(a + c, b + d, target)
  {
  }

  /** Every snapshot, inside the period too, keeps its rows, and in them all but
      the target column. */
  lemma {:induction false} SnapshotsKept(before: seq<Version>, after: seq<Version>, f: Filter, target: Rid, range: Span,
      t: Time)
    requires RowByRow(before, after, f, target, range)
    ensures AllSameButTarget(Snapshot(before, t), Snapshot(after, t), target)
  {
    if before != [] {
      var rest, more := before[1..], after[1..];
      SnapshotsKept(rest, more, f, target, range, t);
      RowKept(before[0], f, target, range, t);
      assert after[0] == Redacted(before[0], f, target, range);
      MoreSameButTarget(ShownAt(before[0], t), ShownAt(after[0], t), Snapshot(rest, t), Snapshot(more, t), target);
    }
  }

  /** No snapshot outside the period changes. */
  lemma {:induction false} OutsideUnchanged(before: seq<Version>, after: seq<Version>, f: Filter, target: Rid,
      from: Time, until: Time, t: Time)
    requires RowByRow(before, after, f, target, Amended(from, until)) && !Within(from, t, until)
    ensures Snapshot(after, t) == Snapshot(before, t)
  {
    if before != [] {
      assert RowByRow(before[1..], after[1..], f, target, Amended(from, until));
      OutsideUnchanged(before[1..], after[1..], f, target, from, until, t);
      assert after[0] == Redacted(before[0], f, target, Amended(from, until));
    }
  }

  /** A matched row still shows its value at some instant of the period. */
  ghost predicate Exposed(before: Version, after: Version, f: Filter, target: Rid, range: Span) {
    && Matches(f, before) && Key(after.rowdata, target) != JNull
    && exists t :: Contains(before.during, t) && Contains(range, t)
  }

  predicate Straddles(v: Version, range: Span) {
    Overlaps(v.during, range) && !Encloses(range, v.during)
  }

  /** Which matched rows keep showing the value inside the period: exactly the
      versions that straddle one of its ends. So the redaction is complete if
      and only if no matched version with a value straddles an end. */
  lemma ExposedExactly(before: seq<Version>, after: seq<Version>, f: Filter, target: Rid, range: Span)
    requires NormalRows(before) && Normal(range) && RowByRow(before, after, f, target, range)
    ensures forall i | 0 <= i < |before| ::
      Exposed(before[i], after[i], f, target, range)
      <==> Matches(f, before[i]) && Key(before[i].rowdata, target) != JNull && Straddles(before[i], range)
  {
    forall i | 0 <= i < |before|
      ensures Exposed(before[i], after[i], f, target, range)
        <==> Matches(f, before[i]) && Key(before[i].rowdata, target) != JNull && Straddles(before[i], range)
    {
      assert before[i] in before;
      OverlapsExactly(before[i].during, range);
    }
  }

  /** A version from 0 to 5 keeps its value when the period from 3 to 9 is
      redacted, and so still shows it at the time 4. */
  lemma StraddlingValueStays(before: seq<Version>, after: seq<Version>, value: Json)
    requires before == [Version("1", Span(Some(0), Some(5)), "me", map["c" := value])] && value != JNull
    requires RowByRow(before, after, Everything, "c", Amended(3, 9))
    ensures Exposed(before[0], after[0], Everything, "c", Amended(3, 9))
    ensures after == before && Contains(after[0].during, 4) && Within(3, 4, 9)
  {
    assert after[0] == Redacted(before[0], Everything, "c", Amended(3, 9));
    assert Contains(before[0].during, 4) && Contains(Amended(3, 9), 4);
    assert Key(after[0].rowdata, "c") == value;
  }

  /** The history relation of one table; it may not exist. */
  class DataRelation {
    const table: Rid
    const tracked: bool
    var rows: seq<Version>
    var amended: map<Time, Span>

    constructor (table: Rid, tracked: bool, rows: seq<Version>, amended: map<Time, Span>)
      ensures this.table == table && this.tracked == tracked && this.rows == rows && this.amended == amended
    {
      this.table, this.tracked, this.rows, this.amended := table, tracked, rows, amended;
    }

    method RedactColumn(f: Filter, target: Rid, range: Span)
      modifies `rows
      ensures RowByRow(old(rows), rows, f, target, range)
      ensures |rows| == |old(rows)|
      ensures forall i | 0 <= i < |rows| && !(Matches(f, old(rows)[i]) && Encloses(range, old(rows)[i].during)) ::
        rows[i] == old(rows)[i]
      ensures forall i | 0 <= i < |rows| && Matches(f, old(rows)[i]) && Encloses(range, old(rows)[i].during) ::
        target in old(rows)[i].rowdata ==> target in rows[i].rowdata && rows[i].rowdata[target] == JNull
    {
      var i := 0;
      while i < |rows|
        invariant i <= |rows| == |old(rows)|
        invariant forall k | 0 <= k < i :: rows[k] == Redacted(old(rows)[k], f, target, range)
        invariant forall k | i <= k < |rows| :: rows[k] == old(rows)[k]
      {
        rows := rows[i := Redacted(rows[i], f, target, range)];
        i := i + 1;
      }
    }

    /** DELETE of a column's data over [from, until). */
    method Delete(now: Time, target: Rid, filter: Option<FilterArg>, from: Option<Time>, until: Option<Time>,
        columnNames: map<Rid, set<string>>, tableOf: map<Rid, Rid>) returns (r: Result<(), HistoryError>)
      requires columnNames.Keys == tableOf.Keys && (target in tableOf ==> tableOf[target] == table)
      modifies this
      ensures r.Ok? <==>
        && from.Some? && until.Some? && from.value <= until.value
        && target in columnNames && columnNames[target] !! UNPACKED
        && FilterFor(filter, columnNames).Ok?
        && (filter.Some? ==> tableOf[filter.value.rid] == table)
        && tracked && now !in old(amended)
      ensures r.Err? ==> rows == old(rows) && amended == old(amended)
      ensures r.Ok? ==> RowByRow(old(rows), rows, FilterFor(filter, columnNames).value, target,
        Amended(from.value, until.value))
      ensures r.Ok? ==> |rows| == |old(rows)|
      ensures r.Ok? ==> forall i | 0 <= i < |rows| ::
        var v, affected := old(rows)[i], Selects(filter, columnNames, old(rows)[i])
          && Encloses(Amended(from.value, until.value), old(rows)[i].during);
        rows[i] == if affected && target in v.rowdata then v.(rowdata := v.rowdata[target := JNull]) else v
      ensures r.Ok? ==> now !in old(amended) && amended == old(amended)[now := Amended(from.value, until.value)]
      ensures forall t :: (r.Ok? && Within(from.value, t, until.value)) || Snapshot(rows, t) == old(Snapshot(rows, t))
    {
      if from.None? || until.None? {
        return Err(BadRequest);
      }
      var range := MakeSpan(from, until);
      if range.None? {
        return Err(InvalidRange);
      }
      if target !in columnNames || (filter.Some? && filter.value.rid !in columnNames) {
        return Err(NotFound);
      }
      if filter.Some? && tableOf[filter.value.rid] != table {
        return Err(Conflict);
      }
      if !tracked || now in amended {
        return Err(Conflict);
      }
      match Unpacked(columnNames[target]) {
        case Err(e) => return Err(e);
        case Ok(Some(_)) => return Err(Conflict);
        case Ok(None) => {}
      }
      var f := FilterFor(filter, columnNames);
      if f.Err? {
        return Err(f.error);
      }
      amended := amended[now := range.value];
      ghost var before := rows;
      RedactColumn(f.value, target, range.value);
      forall i | 0 <= i < |rows| ensures Matches(f.value, before[i]) <==> Selects(filter, columnNames, before[i]) {
        FilterExactly(filter, columnNames, before[i]);
      }
      forall t | !Within(from.value, t, until.value) ensures Snapshot(rows, t) == Snapshot(before, t) {
        OutsideUnchanged(before, rows, f.value, target, from.value, until.value, t);
      }
      r := Ok(());
    }
  }
}
