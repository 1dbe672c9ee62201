/** Row-instance aliases of compiled queries: element k of a path compiled
    under prefix p is named `p + "t" + k`, and a policy subquery on it uses that
    name as its own prefix, so names look like t3, t3t0, t3t1. */
module Aliases {

  function DigitChar(d: nat): (c: char)
    requires d < 10
    ensures IsDigit(c) && DigitValue(c) == d
  {
    "0123456789"[d]
  }

  predicate IsDigit(c: char) {
    '0' <= c <= '9'
  }

  function DigitValue(c: char): (d: nat)
    requires IsDigit(c)
    ensures d < 10
  {
    c as int - '0' as int
  }

  function Decimal(n: nat): string {
    if n < 10 then [DigitChar(n)] else Decimal(n / 10) + [DigitChar(n % 10)]
  }

  predicate AllDigits(s: string) {
    forall i | 0 <= i < |s| :: IsDigit(s[i])
  }

  function ParseDecimal(s: string): nat
    requires AllDigits(s)
  {
    if s == "" then 0 else 10 * ParseDecimal(s[..|s| - 1]) + DigitValue(s[|s| - 1])
  }

  lemma {:induction false} DecimalRoundTrip(n: nat)
    ensures |Decimal(n)| > 0 && AllDigits(Decimal(n))
    ensures ParseDecimal(Decimal(n)) == n
  {
    if n >= 10 {
      DecimalRoundTrip(n / 10);
      assert Decimal(n)[..|Decimal(n)| - 1] == Decimal(n / 10);
    } else {
      assert ParseDecimal([DigitChar(n)][..0]) == 0;
    }
  }

  function Alias(prefix: string, pos: nat): string {
    prefix + "t" + Decimal(pos)
  }

  /** `s.split('t')` */
  function Split(s: string): (parts: seq<string>)
    ensures |parts| > 0
  {
    if s == "" then [""]
    else if s[0] == 't' then [""] + Split(s[1..])
    else var rest := Split(s[1..]); [[s[0]] + rest[0]] + rest[1..]
  }

  /** `'t'.join(parts)` */
  function JoinT(parts: seq<string>): string {
    if |parts| == 0 then ""
    else if |parts| == 1 then parts[0]
    else parts[0] + "t" + JoinT(parts[1..])
  }

  /** The idiom the special cases are guarded by: `^(t[0-9]+)+$`. */
  predicate PrefixOk(p: string) {
    && p != "" && p[0] == 't'
    && (forall i | 0 <= i < |p| :: p[i] == 't' || IsDigit(p[i]))
    && (forall i | 0 <= i < |p| :: p[i] == 't' ==> i + 1 < |p| && IsDigit(p[i + 1]))
  }

  function LastPart(p: string): string {
    var parts := Split(p);
    parts[|parts| - 1]
  }

  function FakePrefix(p: string): string {
    var parts := Split(p);
    JoinT(parts[..|parts| - 1])
  }

  function FakePos(p: string): nat
    requires PrefixOk(p)
  {
    LastPartDigits(p);
    ParseDecimal(LastPart(p))
  }

  /** The number and prefix recovered from a guarded prefix name it again. */
  predicate SplitsBack(p: string) {
    PrefixOk(p) ==> Alias(FakePrefix(p), FakePos(p)) == p
  }

  lemma {:induction false} LastPartDigits(p: string)
    requires forall i | 0 <= i < |p| :: p[i] == 't' || IsDigit(p[i])
    ensures AllDigits(LastPart(p))
  {
    if p != "" {
      LastPartDigits(p[1..]);
    }
  }

  lemma {:induction false} JoinSplit(s: string)
    ensures JoinT(Split(s)) == s
  {
    if s != "" {
      JoinSplit(s[1..]);
      var rest := Split(s[1..]);
      if s[0] == 't' {
        assert ([""] + rest)[1..] == rest;
      } else if |rest| > 1 {
        assert ([[s[0]] + rest[0]] + rest[1..])[1..] == rest[1..];
      }
    }
  }

  lemma {:induction false} SplitNumber(d: string)
    requires AllDigits(d)
    ensures Split(d) == [d]
  {
    if d != "" {
      assert IsDigit(d[0]);
      SplitNumber(d[1..]);
      assert [d[0]] + d[1..] == d;
    }
  }

  lemma {:induction false} SplitAppend(s: string, d: string)
    requires AllDigits(d)
    ensures Split(s + "t" + d) == Split(s) + [d]
  {
    if s == "" {
      assert (s + "t" + d)[1..] == d;
      SplitNumber(d);
    } else {
      assert (s + "t" + d)[1..] == s[1..] + "t" + d;
      SplitAppend(s[1..], d);
    }
  }

  lemma SplitAlias(prefix: string, pos: nat)
    ensures Split(Alias(prefix, pos)) == Split(prefix) + [Decimal(pos)]
  {
    DecimalRoundTrip(pos);
    SplitAppend(prefix, Decimal(pos));
  }

  /** Splitting a nested prefix recovers the enclosing prefix and position. */
  lemma AliasSplitsBack(prefix: string, pos: nat)
    requires prefix == "" || PrefixOk(prefix)
    ensures PrefixOk(Alias(prefix, pos))
    ensures FakePrefix(Alias(prefix, pos)) == prefix
    ensures FakePos(Alias(prefix, pos)) == pos
    ensures SplitsBack(Alias(prefix, pos))
  {
    DecimalRoundTrip(pos);
    SplitAlias(prefix, pos);
    JoinSplit(prefix);
    var p := Alias(prefix, pos);
    assert p == prefix + ("t" + Decimal(pos));
    forall i | 0 <= i < |p| && p[i] == 't' ensures i + 1 < |p| && IsDigit(p[i + 1]) {
      if i < |prefix| {
        assert prefix[i] == 't';
        assert prefix[i + 1] == p[i + 1];
      }
    }
    assert Split(p)[..|Split(p)| - 1] == Split(prefix);
  }

  /** Aliases name (prefix, position) pairs one to one. */
  lemma AliasInjective(p: string, i: nat, q: string, j: nat)
    requires Alias(p, i) == Alias(q, j)
    ensures p == q && i == j
  {
    SplitAlias(p, i);
    SplitAlias(q, j);
    var whole := Split(Alias(p, i));
    assert whole[..|whole| - 1] == Split(p) == Split(q);
    assert whole[|whole| - 1] == Decimal(i) == Decimal(j);
    JoinSplit(p);
    JoinSplit(q);
    DecimalRoundTrip(i);
    DecimalRoundTrip(j);
  }

  /** An alias nested below element i of a query is none of that query's own
      aliases, nor the prefix it was compiled under: nothing is captured. */
  lemma NoCapture(p: string, i: nat, j: nat, k: nat)
    ensures Alias(Alias(p, i), j) != Alias(p, k)
    ensures Alias(p, i) != p
  {
    SplitAlias(Alias(p, i), j);
    SplitAlias(p, i);
    SplitAlias(p, k);
  }
}
