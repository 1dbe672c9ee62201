/** PostgreSQL half-open time ranges, and snapshots of relations whose rows
    carry one. */
module Spans {
  import opened Wrappers

  type Time = int

  /** A `tstzrange(..., '[)')`; a missing bound is unbounded. */
  datatype Span = Empty | Span(lower: Option<Time>, upper: Option<Time>)

  /** The range constructor normalises an empty range and refuses a reversed
      one. */
  function MakeSpan(lower: Option<Time>, upper: Option<Time>): (r: Option<Span>)
    ensures r.None? <==> lower.Some? && upper.Some? && upper.value < lower.value
    ensures r.Some? ==> (forall t :: Contains(r.value, t) <==> !EndsBefore(lower, t) && !EndsBy(upper, t))
  {
    if lower.Some? && upper.Some? && upper.value < lower.value then None
    else if lower.Some? && lower == upper then Some(Empty)
    else Some(Span(lower, upper))
  }

  /** The lower bound `b` is after `t`. */
  predicate EndsBefore(b: Option<Time>, t: Time) {
    b.Some? && t < b.value
  }

  /** The upper bound `b` is at or before `t`. */
  predicate EndsBy(b: Option<Time>, t: Time) {
    b.Some? && b.value <= t
  }

  /** `during @> t` */
  predicate Contains(s: Span, t: Time) {
    s.Span? && !EndsBefore(s.lower, t) && !EndsBy(s.upper, t)
  }

  /** A stored range is in normal form. */
  predicate Normal(s: Span) {
    s.Span? && s.lower.Some? && s.upper.Some? ==> s.lower.value < s.upper.value
  }

  /** `lower(during)` and `upper(during)` are NULL for an unbounded end and for
      the empty range. */
  function Lower(s: Span): Option<Time> {
    if s.Empty? then None else s.lower
  }

  function Upper(s: Span): Option<Time> {
    if s.Empty? then None else s.upper
  }

  /** The upper bound `u` lies after the lower bound `l`. */
  predicate Reaches(u: Option<Time>, l: Option<Time>) {
    u.Some? && l.Some? ==> l.value < u.value
  }

  /** `a && b` */
  predicate Overlaps(a: Span, b: Span) {
    a.Span? && b.Span? && Reaches(a.upper, b.lower) && Reaches(b.upper, a.lower)
  }

  /** `a @> b` */
  predicate Encloses(a: Span, b: Span) {
    b.Span? ==>
      && a.Span?
      && (a.lower.Some? ==> b.lower.Some? && a.lower.value <= b.lower.value)
      && (a.upper.Some? ==> b.upper.Some? && b.upper.value <= a.upper.value)
  }

  function Inside(s: Span): (t: Time)
    requires Normal(s) && s.Span?
    ensures Contains(s, t)
  {
    if s.lower.Some? then s.lower.value
    else if s.upper.Some? then s.upper.value - 1
    else 0
  }

  /** The operator `&&` finds exactly the ranges that share an instant. */
  lemma OverlapsExactly(a: Span, b: Span)
    requires Normal(a) && Normal(b)
    ensures Overlaps(a, b) <==> exists t :: Contains(a, t) && Contains(b, t)
  {
    if Overlaps(a, b) {
      var lower := if a.lower.None? || (b.lower.Some? && a.lower.value <= b.lower.value) then b.lower else a.lower;
      var upper := if a.upper.None? || (b.upper.Some? && b.upper.value <= a.upper.value) then b.upper else a.upper;
      var t := Inside(Span(lower, upper));
      assert Contains(a, t) && Contains(b, t);
    }
  }

  /** The range operator `@>` holds exactly between sets of instants where one
      includes the other. */
  lemma EnclosesExactly(a: Span, b: Span)
    requires Normal(a) && Normal(b)
    ensures Encloses(a, b) <==> forall t :: Contains(b, t) ==> Contains(a, t)
  {
    if b.Span? && !Encloses(a, b) {
      var t := Inside(b);
      if Contains(a, t) {
        var low := if b.lower.Some? then t else (if a.lower.Some? && a.lower.value <= t then a.lower.value - 1 else t);
        var high := if b.upper.Some? then b.upper.value - 1
          else (if a.upper.Some? && t < a.upper.value then a.upper.value else t);
        assert Contains(b, low) && Contains(b, high);
        assert !Contains(a, low) || !Contains(a, high);
      }
    }
  }
}
