/** Names that fit PostgreSQL's 63 bytes: `make_id` and
    `make_constraint_name`. */
module Identifiers {
  import opened Wrappers
  import Aliases
  import Utf8

  const MAX_BYTES := 63

  // ---------------------------------------------------------------------
  // Text and its size in UTF-8
  // ---------------------------------------------------------------------

  function CharBytes(c: char): (n: nat)
    ensures 1 <= n <= 4
  {
    if c as int < 0x80 then 1 else if c as int < 0x800 then 2 else if c as int < 0x10000 then 3 else 4
  }

  function Bytes(s: string): nat {
    if s == "" then 0 else CharBytes(s[0]) + Bytes(s[1..])
  }

  /** The size of a character is that of its encoding. */
  lemma CharBytesExactly(c: char)
    ensures CharBytes(c) == |Utf8.Encode(c)|
  {
  }

  lemma {:induction false} BytesConcat(a: string, b: string)
    ensures Bytes(a + b) == Bytes(a) + Bytes(b)
  {
    if a == "" {
      assert a + b == b;
    } else {
      BytesConcat(a[1..], b);
      assert (a + b)[1..] == a[1..] + b;
    }
  }

  lemma {:induction false} BytesBounds(s: string)
    ensures |s| <= Bytes(s) <= 4 * |s|
  {
    if s != "" {
      BytesBounds(s[1..]);
    }
  }

  lemma BytesPrefix(s: string, k: nat, m: nat)
    requires k <= m <= |s|
    ensures Bytes(s[..k]) <= Bytes(s[..m])
  {
    assert s[..m] == s[..k] + s[k..m];
    BytesConcat(s[..k], s[k..m]);
  }

  /** White space as `str.rstrip` sees it. */
  predicate IsSpace(c: char) {
    var n := c as int;
    || 0x9 <= n <= 0xD || 0x1C <= n <= 0x20 || n == 0x85 || n == 0xA0 || n == 0x1680
    || 0x2000 <= n <= 0x200A || n == 0x2028 || n == 0x2029 || n == 0x202F || n == 0x205F || n == 0x3000
  }

  lemma SpaceCharacters(c: char)
    ensures IsSpace(c) <==> c as int in {
      0x9, 0xA, 0xB, 0xC, 0xD, 0x1C, 0x1D, 0x1E, 0x1F, 0x20, 0x85, 0xA0, 0x1680, 0x2000, 0x2001, 0x2002, 0x2003, 0x2004,
      0x2005, 0x2006, 0x2007, 0x2008, 0x2009, 0x200A, 0x2028, 0x2029, 0x202F, 0x205F, 0x3000}
  {
  }

  function RStrip(s: string): (r: string)
    ensures r <= s
    ensures r != "" ==> !IsSpace(r[|r| - 1])
  {
    if s != "" && IsSpace(s[|s| - 1]) then RStrip(s[..|s| - 1]) else s
  }

  function Join(parts: seq<string>): string {
    if parts == [] then "" else if |parts| == 1 then parts[0] else parts[0] + "_" + Join(parts[1..])
  }

  lemma {:induction false} JoinLast(parts: seq<string>, last: string)
    requires parts != []
    ensures Join(parts + [last]) == Join(parts) + "_" + last
  {
    if |parts| > 1 {
      JoinLast(parts[1..], last);
      assert (parts + [last])[1..] == parts[1..] + [last];
    } else {
      assert (parts + [last])[1..] == [last];
    }
  }

  // ---------------------------------------------------------------------
  // Truncation
  // ---------------------------------------------------------------------

  /** Dropping the last `i` characters, and the white space before them, makes
      room for two dots. */
  predicate Fits(s: string, i: int, maxlen: nat) {
    0 <= i <= |s| && Bytes(RStrip(s[..|s| - i])) + 2 <= maxlen
  }

  function FirstDrop(s: string, maxlen: nat): nat {
    if |s| - maxlen > 1 then |s| - maxlen else 1
  }

  /** `r` is the text cut by as few characters as `range(first, len - 1)` lets
      it, or the text itself if no cut in that range fits. */
  ghost predicate TruncatedTo(s: string, maxlen: nat, r: string) {
    || (exists i :: LeastDrop(s, maxlen, i) && r == RStrip(s[..|s| - i]) + "..")
    || (r == s && NoDrop(s, maxlen))
  }

  ghost predicate NoDrop(s: string, maxlen: nat) {
    forall i :: FirstDrop(s, maxlen) <= i < |s| - 1 ==> !Fits(s, i, maxlen)
  }

  ghost predicate LeastDrop(s: string, maxlen: nat, i: int) {
    && FirstDrop(s, maxlen) <= i < |s| - 1 && Fits(s, i, maxlen)
    && forall j :: FirstDrop(s, maxlen) <= j < i ==> !Fits(s, j, maxlen)
  }

  method Truncate(s: string, maxlen: nat) returns (r: string)
    ensures TruncatedTo(s, maxlen, r)
  {
    var i := FirstDrop(s, maxlen);
    while i < |s| - 1
      invariant FirstDrop(s, maxlen) <= i
      invariant forall j :: FirstDrop(s, maxlen) <= j < i ==> !Fits(s, j, maxlen)
    {
      var result := RStrip(s[..|s| - i]);
      if Bytes(result) + 2 <= maxlen {
        assert LeastDrop(s, maxlen, i);
        return result + "..";
      }
      assert !Fits(s, i, maxlen);
      i := i + 1;
    }
    r := s;
  }

  /** The text without its last `i` characters, and two dots. */
  function Cut(s: string, i: nat): string
    requires i <= |s|
  {
    RStrip(s[..|s| - i]) + ".."
  }

  /** How many characters may be cut: at least one, and as many as there are
      over the length; at most all but two. */
  predicate MayCut(s: string, maxlen: nat, i: int) {
    1 <= i && |s| - maxlen <= i && i + 2 <= |s|
  }

  /** The result is the first cut that takes at most `maxlen` bytes, dots
      included, or the whole text if none does. */
  lemma TruncatedExactly(s: string, maxlen: nat, r: string)
    ensures TruncatedTo(s, maxlen, r) <==>
      || (exists i ::
        && MayCut(s, maxlen, i) && r == Cut(s, i) && Bytes(r) <= maxlen
        && forall j | MayCut(s, maxlen, j) && j < i :: Bytes(Cut(s, j)) > maxlen)
      || (r == s && forall j | MayCut(s, maxlen, j) :: Bytes(Cut(s, j)) > maxlen)
  {
    forall i ensures FirstDrop(s, maxlen) <= i < |s| - 1 <==> MayCut(s, maxlen, i) {}
    forall i | MayCut(s, maxlen, i) ensures Fits(s, i, maxlen) <==> Bytes(Cut(s, i)) <= maxlen {
      DottedBytes(RStrip(s[..|s| - i]));
    }
    if i :| LeastDrop(s, maxlen, i) && r == RStrip(s[..|s| - i]) + ".." {
      assert MayCut(s, maxlen, i) && r == Cut(s, i);
    }
    if i :| MayCut(s, maxlen, i) && r == Cut(s, i) && Bytes(r) <= maxlen
            && forall j | MayCut(s, maxlen, j) && j < i :: Bytes(Cut(s, j)) > maxlen {
      assert LeastDrop(s, maxlen, i);
    }
  }

  /** A component as it is, or a beginning of it with two dots. */
  ghost predicate Abbreviates(piece: string, whole: string) {
    piece == whole || exists k: nat :: k <= |whole| && piece == whole[..k] + ".."
  }

  lemma DottedBytes(s: string)
    ensures Bytes(s + "..") == Bytes(s) + 2
  {
    BytesConcat(s, "..");
    assert ".."[1..] == "." && "."[1..] == "";
  }

  /** The last cut of the range leaves two characters, at most eight bytes. */
  lemma TwoCharactersFit(s: string, maxlen: nat)
    requires |s| >= 3 && maxlen >= 10
    ensures FirstDrop(s, maxlen) <= |s| - 2 < |s| - 1 && Fits(s, |s| - 2, maxlen)
  {
    BytesBounds(RStrip(s[..2]));
  }

  lemma TruncatedSize(s: string, maxlen: nat, r: string)
    requires TruncatedTo(s, maxlen, r)
    ensures r == s
      || (Bytes(r) <= maxlen && exists k: nat :: k <= |s| && r == s[..k] + ".." && Bytes(s[..k]) + 2 <= maxlen)
    ensures |s| >= 3 && maxlen >= 10 ==> Bytes(r) <= maxlen
  {
    if NoDrop(s, maxlen) {
      if |s| >= 3 && maxlen >= 10 {
        TwoCharactersFit(s, maxlen);
      }
    }
    if !(r == s && NoDrop(s, maxlen)) {
      var i :| LeastDrop(s, maxlen, i) && r == RStrip(s[..|s| - i]) + "..";
      CutSize(s, maxlen, i);
    }
  }

  lemma CutSize(s: string, maxlen: nat, i: int)
    requires Fits(s, i, maxlen)
    ensures
      var kept := RStrip(s[..|s| - i]);
      |kept| <= |s| && kept == s[..|kept|] && Bytes(kept + "..") <= maxlen && Bytes(s[..|kept|]) + 2 <= maxlen
  {
    DottedBytes(RStrip(s[..|s| - i]));
  }

  /** Truncating an abbreviation again abbreviates the same component. */
  lemma TruncatedAbbreviates(whole: string, piece: string, maxlen: nat, r: string)
    requires Abbreviates(piece, whole) && Bytes(piece) > maxlen && TruncatedTo(piece, maxlen, r)
    ensures Abbreviates(r, whole)
  {
    TruncatedSize(piece, maxlen, r);
    if r != piece {
      var k: nat :| k <= |piece| && r == piece[..k] + ".." && Bytes(piece[..k]) + 2 <= maxlen;
      if piece != whole {
        var m: nat :| m <= |whole| && piece == whole[..m] + "..";
        CutBeforeDots(whole, m, k, piece);
        assert r == whole[..k] + "..";
      }
    }
  }

  lemma CutBeforeDots(whole: string, m: nat, k: nat, piece: string)
    requires m <= |whole| && piece == whole[..m] + ".." && k <= |piece| && Bytes(piece[..k]) + 2 < Bytes(piece)
    ensures k <= m && piece[..k] == whole[..k]
  {
    DottedBytes(whole[..m]);
    assert piece[..m] == whole[..m];
    if k > m {
      BytesPrefix(piece, m, k);
      assert false;
    }
  }

  // ---------------------------------------------------------------------
  // make_id
  // ---------------------------------------------------------------------

  datatype Component = One(text: string) | Many(texts: seq<string>)

  /** Lists are accepted at the top level. */
  function Expanded(components: seq<Component>): seq<string> {
    if components == [] then []
    else Texts(components[0]) + Expanded(components[1..])
  }

  function Texts(c: Component): seq<string> {
    match c
    case One(t) => [t]
    case Many(ts) => ts
  }

  predicate Ascii(s: string) {
    forall i | 0 <= i < |s| :: s[i] as int < 0x80
  }

  /** The first five characters of an encoded digest. */
  type Digest = s: string | |s| == 5 && Ascii(s) witness "AAAAA"

  lemma {:induction false} AsciiBytes(s: string)
    requires Ascii(s)
    ensures Bytes(s) == |s|
  {
    if s != "" {
      AsciiBytes(s[1..]);
    }
  }

  /** Longer parts come first, and later ones of the same size. */
  predicate Before(pieces: seq<string>, a: nat, b: nat)
    requires a < |pieces| && b < |pieces|
  {
    Bytes(pieces[a]) > Bytes(pieces[b]) || (Bytes(pieces[a]) == Bytes(pieces[b]) && a > b)
  }

  ghost predicate InOrder(pieces: seq<string>, order: seq<nat>) {
    && (forall i | 0 <= i < |order| :: order[i] < |pieces|)
    && (forall i, j | 0 <= i < j < |order| :: Before(pieces, order[i], order[j]))
  }

  ghost predicate Covers(order: seq<nat>, n: nat) {
    forall i: nat :: i in order <==> i < n
  }

  lemma InsertOrdered(pieces: seq<string>, order: seq<nat>, n: nat, at: nat)
    requires n < |pieces| && InOrder(pieces, order) && Covers(order, n) && at <= |order|
    requires forall i | 0 <= i < at :: Before(pieces, order[i], n)
    requires at < |order| ==> !Before(pieces, order[at], n)
    ensures InOrder(pieces, order[..at] + [n] + order[at..])
  {
    forall i | at <= i < |order| ensures Before(pieces, n, order[i]) {
      assert order[at] in order && order[i] in order;
    }
  }

  lemma InsertCovers(order: seq<nat>, n: nat, at: nat)
    requires Covers(order, n) && at <= |order|
    ensures Covers(order[..at] + [n] + order[at..], n + 1)
  {
    assert order == order[..at] + order[at..];
    var all := order[..at] + [n] + order[at..];
    forall i: nat ensures i in all <==> i < n + 1 {
      assert i in all <==> i in order || i == n;
      assert i in order <==> i < n;
    }
  }

  /** The order in which a round visits the parts. */
  method SortParts(pieces: seq<string>) returns (order: seq<nat>)
    ensures InOrder(pieces, order) && |order| == |pieces|
    ensures Covers(order, |pieces|)
    ensures forall i, j | 0 <= i < j < |order| ::
      && Bytes(pieces[order[i]]) >= Bytes(pieces[order[j]])
      && (Bytes(pieces[order[i]]) == Bytes(pieces[order[j]]) ==> order[i] > order[j])
  {
    order := [];
    var n := 0;
    while n < |pieces|
      invariant n <= |pieces| && InOrder(pieces, order) && |order| == n && Covers(order, n)
    {
      var at := 0;
      while at < |order| && Before(pieces, order[at], n)
        invariant at <= |order|
        invariant forall i | 0 <= i < at :: Before(pieces, order[i], n)
      {
        at := at + 1;
      }
      InsertOrdered(pieces, order, n, at);
      InsertCovers(order, n, at);
      order := order[..at] + [n] + order[at..];
      n := n + 1;
    }
  }

  ghost predicate AllAbbreviate(pieces: seq<string>, parts: seq<string>) {
    |pieces| == |parts| && forall i | 0 <= i < |parts| :: Abbreviates(pieces[i], parts[i])
  }

  ghost predicate FromPieces(r: string, pieces: seq<string>, parts: seq<string>, digest: string) {
    AllAbbreviate(pieces, parts) && r == Join(pieces + [digest])
  }

  /** One round: parts over `maxlen` are truncated, longest first, until the
      whole name is short enough. */
  method Round(parts: seq<string>, pieces0: seq<string>, maxlen: nat, digest: Digest)
      returns (pieces: seq<string>, found: Option<string>)
    requires AllAbbreviate(pieces0, parts)
    ensures AllAbbreviate(pieces, parts)
    ensures found.Some? ==> FromPieces(found.value, pieces, parts, digest) && Bytes(found.value) < MAX_BYTES
  {
    pieces := pieces0;
    var order := SortParts(pieces);
    var i := 0;
    while i < |order|
      invariant i <= |order| && AllAbbreviate(pieces, parts)
      invariant forall k | 0 <= k < |order| :: order[k] < |pieces|
    {
      var idx := order[i];
      if Bytes(pieces[idx]) > maxlen {
        var cut := Truncate(pieces[idx], maxlen);
        TruncatedAbbreviates(parts[idx], pieces[idx], maxlen, cut);
        pieces := pieces[idx := cut];
      }
      var candidate := Join(pieces + [digest]);
      if Bytes(candidate) < MAX_BYTES {
        return pieces, Some(candidate);
      }
      i := i + 1;
    }
    found := None;
  }

  /** `s[-len(s)//3:]`: the negation binds first, so the third is rounded up. */
  function LastThird(s: string): string {
    s[|s| - (|s| + 2) / 3..]
  }

  /** The three shapes of a name that had to be shortened: abbreviated
      components, the naive name without its middle, or its beginning; always
      with the digest last. */
  ghost predicate Shortened(r: string, parts: seq<string>, digest: Digest) {
    var naive := Join(parts);
    || (exists pieces :: FromPieces(r, pieces, parts, digest))
    || (exists head :: Abbreviates(head, naive) && r == head + LastThird(naive) + "_" + digest)
    || (exists k: nat :: k <= |naive| && r == naive[..k] + ".." + digest)
  }

  /** Any text components make an identifier of at most 63 bytes, which is the
      naive name whenever that fits. */
  method MakeId(components: seq<Component>, digest: string -> Digest) returns (r: string)
    ensures Bytes(r) <= MAX_BYTES
    ensures
      var naive := Join(Expanded(components));
      if Bytes(naive) <= MAX_BYTES then r == naive else Shortened(r, Expanded(components), digest(naive))
  {
    var parts := Expanded(components);
    var naive := Join(parts);
    if Bytes(naive) <= MAX_BYTES {
      return naive;
    }
    var h := digest(naive);
    var pieces, lengths, n := parts, [15, 12, 9], 0;
    while n < |lengths|
      invariant AllAbbreviate(pieces, parts)
    {
      var found;
      pieces, found := Round(parts, pieces, lengths[n], h);
      if found.Some? {
        assert Shortened(found.value, parts, h);
        return found.value;
      }
      n := n + 1;
    }
    var head := Truncate(naive, |naive| / 3);
    r := head + LastThird(naive) + "_" + h;
    if Bytes(r) <= MAX_BYTES {
      TruncatedSize(naive, |naive| / 3, head);
      return;
    }
    r := LastDitch(naive, h);
  }

  /** `truncate(naive, 55) + hash` always fits. */
  method LastDitch(naive: string, digest: Digest) returns (r: string)
    requires Bytes(naive) > MAX_BYTES
    ensures Bytes(r) <= MAX_BYTES
    ensures exists k: nat :: k <= |naive| && r == naive[..k] + ".." + digest
  {
    var head := Truncate(naive, 55);
    BytesBounds(naive);
    TruncatedSize(naive, 55, head);
    BytesConcat(head, digest);
    AsciiBytes(digest);
    r := head + digest;
  }

  /** However it was shortened, a name ends in the digest of the naive one, so
      names with different digests differ. */
  lemma ShortenedEndsWithDigest(r: string, parts: seq<string>, digest: Digest)
    requires Shortened(r, parts, digest) && Bytes(Join(parts)) > MAX_BYTES
    ensures |r| > 5 && r[|r| - 5..] == digest
  {
    assert parts != [];
    if pieces :| FromPieces(r, pieces, parts, digest) {
      JoinLast(pieces, digest);
    }
  }

  // ---------------------------------------------------------------------
  // make_constraint_name
  // ---------------------------------------------------------------------

  /** The suffix of probe number `n`; the first has no number. */
  function Numbered(suffix: string, n: nat): string {
    if n == 0 then suffix else suffix + Aliases.Decimal(n)
  }

  function ProbeParts(components: seq<Component>, suffix: string, n: nat): seq<Component> {
    components + [One(Numbered(suffix, n))]
  }

  function NaiveName(components: seq<Component>, suffix: string, n: nat): string {
    Join(Expanded(ProbeParts(components, suffix, n)))
  }

  lemma Associate<T>(x: seq<T>, y: seq<T>, z: seq<T>)
    ensures x + (y + z) == (x + y) + z
  {
  }

  lemma {:induction false} ExpandedConcat(a: seq<Component>, b: seq<Component>)
    ensures Expanded(a + b) == Expanded(a) + Expanded(b)
  {
    if a == [] {
      assert a + b == b;
    } else {
      ExpandedConcat(a[1..], b);
      assert (a + b)[0] == a[0] && (a + b)[1..] == a[1..] + b;
      Associate(Texts(a[0]), Expanded(a[1..]), Expanded(b));
    }
  }

  /** Probe names are one stem with the number appended. */
  lemma NaiveNameShape(components: seq<Component>, suffix: string, n: nat)
    ensures NaiveName(components, suffix, n) == NaiveName(components, suffix, 0) + if n == 0 then ""
      else Aliases.Decimal(n)
  {
    var parts := Expanded(components);
    forall m: nat ensures NaiveName(components, suffix, m) == Join(parts + [Numbered(suffix, m)]) {
      ExpandedConcat(components, [One(Numbered(suffix, m))]);
      assert [One(Numbered(suffix, m))][1..] == [];
      assert Expanded([One(Numbered(suffix, m))]) == [Numbered(suffix, m)];
    }
    if parts != [] {
      JoinLast(parts, Numbered(suffix, n));
      JoinLast(parts, suffix);
    } else {
      assert parts + [suffix] == [suffix];
    }
  }

  lemma NaiveNamesDiffer(components: seq<Component>, suffix: string, m: nat, n: nat)
    requires m != n
    ensures NaiveName(components, suffix, m) != NaiveName(components, suffix, n)
  {
    NaiveNameShape(components, suffix, m);
    NaiveNameShape(components, suffix, n);
    Aliases.DecimalRoundTrip(m);
    Aliases.DecimalRoundTrip(n);
    var stem := NaiveName(components, suffix, 0);
    var a, b := if m == 0 then "" else Aliases.Decimal(m), if n == 0 then "" else Aliases.Decimal(n);
    assert (stem + a)[|stem|..] == a && (stem + b)[|stem|..] == b;
  }

  lemma {:induction false} DecimalGrows(m: nat, n: nat)
    requires m <= n
    ensures |Aliases.Decimal(m)| <= |Aliases.Decimal(n)|
  {
    if m >= 10 {
      DecimalGrows(m / 10, n / 10);
    }
  }

  lemma DecimalBytes(n: nat)
    ensures Bytes(Aliases.Decimal(n)) == |Aliases.Decimal(n)|
  {
    Aliases.DecimalRoundTrip(n);
    AsciiBytes(Aliases.Decimal(n));
  }

  /** If the name of a late probe fits, so do those of the earlier ones. */
  lemma EarlierNamesFit(components: seq<Component>, suffix: string, m: nat, n: nat)
    requires m <= n
    ensures Bytes(NaiveName(components, suffix, m)) <= Bytes(NaiveName(components, suffix, n))
  {
    NaiveNameShape(components, suffix, m);
    NaiveNameShape(components, suffix, n);
    var stem := NaiveName(components, suffix, 0);
    BytesConcat(stem, if m == 0 then "" else Aliases.Decimal(m));
    BytesConcat(stem, if n == 0 then "" else Aliases.Decimal(n));
    DecimalBytes(m);
    DecimalBytes(n);
    DecimalGrows(m, n);
  }

  /** The names that the probes ask about while they need no digest. */
  ghost function Names(components: seq<Component>, suffix: string): nat -> string {
    (n: nat) => NaiveName(components, suffix, n)
  }

  ghost predicate FitsUpTo(components: seq<Component>, suffix: string, n: nat) {
    Bytes(NaiveName(components, suffix, n)) <= MAX_BYTES
  }

  ghost predicate Distinct(names: nat -> string) {
    forall m: nat, n: nat :: m != n ==> names(m) != names(n)
  }

  ghost predicate AllUsed(names: nat -> string, existing: set<string>, n: nat) {
    forall m: nat | m < n :: names(m) in existing
  }

  /** The name is that of the first probe, number `probes - 1`, that is not in
      use. */
  ghost predicate FirstUnused(names: nat -> string, existing: set<string>, name: string, probes: nat) {
    1 <= probes <= |existing| + 1 && name == names(probes - 1) && name !in existing
      && AllUsed(names, existing, probes - 1)
  }

  /** Distinct names: no more of them are in use than there are names in use. */
  lemma {:induction false} UsedAtMost(names: nat -> string, existing: set<string>, n: nat)
    requires Distinct(names) && AllUsed(names, existing, n)
    ensures n <= |existing|
  {
    if n > 0 {
      UsedAtMost(names, existing - {names(n - 1)}, n - 1);
    }
  }

  lemma ProbeNamesDistinct(components: seq<Component>, suffix: string)
    ensures Distinct(Names(components, suffix))
  {
    forall m: nat, n: nat | m != n ensures Names(components, suffix)(m) != Names(components, suffix)(n) {
      NaiveNamesDiffer(components, suffix, m, n);
    }
  }

  /** The name that probe `n` asks about. */
  method Probe(components: seq<Component>, suffix: string, n: nat, digest: string -> Digest) returns (name: string)
    ensures Bytes(name) <= MAX_BYTES
    ensures forall m: nat | n <= m && FitsUpTo(components, suffix, m) :: name == Names(components, suffix)(n)
  {
    name := MakeId(ProbeParts(components, suffix, n), digest);
    forall m: nat | n <= m && FitsUpTo(components, suffix, m) ensures name == NaiveName(components, suffix, n) {
      EarlierNamesFit(components, suffix, n, m);
    }
  }

  /** Probe at most `limit` names. A name that is returned is unused; and if
      the unhashed names stay within 63 bytes for as many probes as there are
      names in use, one of the first `|existing| + 1` is. */
  method MakeConstraintName(components: seq<Component>, suffix: string, digest: string -> Digest,
      existing: set<string>, limit: nat)
    returns (name: Option<string>, probes: nat)
    ensures name.Some? ==> name.value !in existing && Bytes(name.value) <= MAX_BYTES
    ensures probes <= limit && (name.None? ==> probes == limit)
    ensures FitsUpTo(components, suffix, |existing|) && limit > |existing| ==>
      name.Some? && FirstUnused(Names(components, suffix), existing, name.value, probes)
  {
    ghost var names, fits := Names(components, suffix), FitsUpTo(components, suffix, |existing|);
    ProbeNamesDistinct(components, suffix);
    var n := 0;
    while n < limit
      invariant n <= limit
      invariant fits ==> n <= |existing| && AllUsed(names, existing, n)
    {
      var candidate := Probe(components, suffix, n, digest);
      assert fits ==> candidate == names(n);
      if candidate !in existing {
        return Some(candidate), n + 1;
      }
      n := n + 1;
      if fits {
        UsedAtMost(names, existing, n);
      }
    }
    name, probes := None, n;
  }
}
