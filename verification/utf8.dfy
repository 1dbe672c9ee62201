/** UTF-8, as percent-encoded text uses it. */
module Utf8 {
  import opened Wrappers

  type Byte = int

  predicate IsScalar(n: int) {
    0 <= n < 0xD800 || 0xE000 <= n < 0x110000
  }

  function Continuation(n: int): Byte
    requires 0 <= n
  {
    0x80 + n % 0x40
  }

  function Encode(c: char): (b: seq<Byte>)
    ensures 1 <= |b| <= 4
  {
    var n := c as int;
    if n < 0x80 then [n]
    else if n < 0x800 then [0xC0 + n / 0x40, Continuation(n)]
    else if n < 0x10000 then [0xE0 + n / 0x1000, Continuation(n / 0x40), Continuation(n)]
    else [0xF0 + n / 0x40000, Continuation(n / 0x1000), Continuation(n / 0x40), Continuation(n)]
  }

  predicate IsContinuation(b: Byte) {
    0x80 <= b < 0xC0
  }

  /** The size that a first byte announces. */
  function Size(b: Byte): (k: nat)
    ensures k <= 4
  {
    if b < 0x80 then 1
    else if b < 0xC0 then 0
    else if b < 0xE0 then 2
    else if b < 0xF0 then 3
    else if b < 0xF8 then 4
    else 0
  }

  /** The smallest scalar that needs `k` bytes. */
  function Least(k: nat): int {
    if k <= 1 then 0 else if k == 2 then 0x80 else if k == 3 then 0x800 else 0x10000
  }

  function Assemble(b: seq<Byte>): int
    requires 1 <= |b| <= 4
  {
    if |b| == 1 then b[0]
    else if |b| == 2 then (b[0] - 0xC0) * 0x40 + (b[1] - 0x80)
    else if |b| == 3 then (b[0] - 0xE0) * 0x1000 + (b[1] - 0x80) * 0x40 + (b[2] - 0x80)
    else (b[0] - 0xF0) * 0x40000 + (b[1] - 0x80) * 0x1000 + (b[2] - 0x80) * 0x40 + (b[3] - 0x80)
  }

  /** The character that the bytes start with, if they are well-formed there:
      no stray or missing continuation, no overlong form, no surrogate. */
  function First(b: seq<Byte>): (r: Option<(char, nat)>)
    ensures r.Some? ==> 1 <= r.value.1 <= |b|
  {
    if b == [] || Size(b[0]) == 0 || Size(b[0]) > |b| then None
    else
      var k := Size(b[0]);
      var n := Assemble(b[..k]);
      if (forall i | 1 <= i < k :: IsContinuation(b[i])) && IsScalar(n) && Least(k) <= n
        then Some((n as char, k)) else None
  }

  function Decode(b: seq<Byte>): Option<string> {
    if b == [] then Some("")
    else
      match First(b)
      case None => None
      case Some((c, k)) => match Decode(b[k..]) case None => None case Some(rest) => Some([c] + rest)
  }

  /** Base-64 digits. */
  lemma Digits(n: nat)
    ensures n == n / 0x40 * 0x40 + n % 0x40 && 0 <= n % 0x40 < 0x40
    ensures n / 0x40 == n / 0x1000 * 0x40 + n / 0x40 % 0x40
    ensures n / 0x1000 == n / 0x40000 * 0x40 + n / 0x1000 % 0x40
  {
  }

  lemma EncodedAssembles(c: char)
    ensures var b := Encode(c);
      Size(b[0]) == |b| && Assemble(b) == c as int && Least(|b|) <= c as int
      && forall i | 1 <= i < |b| :: IsContinuation(b[i])
  {
    var n, b := c as int, Encode(c);
    Digits(n);
    if n < 0x80 {
      assert |b| == 1;
    } else if n < 0x800 {
      assert |b| == 2;
    } else if n < 0x10000 {
      assert |b| == 3 && n / 0x1000 < 0x10;
    } else {
      assert |b| == 4 && n / 0x40000 < 0x8;
    }
  }

  /** Decoding accepts nothing but encoded characters: what it takes off the
      front is the encoding of the character it finds. */
  lemma FirstIsEncoded(b: seq<Byte>)
    requires First(b).Some?
    ensures var (c, k) := First(b).value; b[..k] == Encode(c)
  {
    var k := Size(b[0]);
    var front := b[..k];
    var n := Assemble(front);
    Digits(n);
    assert front[0] == b[0] && forall i | 1 <= i < k :: front[i] == b[i] && 0x80 <= front[i] < 0xC0;
    EncodedParts(front, n);
  }

  lemma EncodedParts(b: seq<Byte>, n: int)
    requires 1 <= |b| <= 4 && Size(b[0]) == |b| && (forall i | 1 <= i < |b| :: 0x80 <= b[i] < 0xC0)
    requires n == Assemble(b) && IsScalar(n) && Least(|b|) <= n
    ensures b == Encode(n as char)
  {
    if |b| == 2 {
      TwoParts(b, n);
    } else if |b| == 3 {
      ThreeParts(b, n);
    } else if |b| == 4 {
      FourParts(b, n);
    }
  }

  lemma TwoParts(b: seq<Byte>, n: int)
    requires |b| == 2 && 0xC0 <= b[0] < 0xE0 && 0x80 <= b[1] < 0xC0 && n == Assemble(b) && IsScalar(n) && 0x80 <= n
    ensures b == Encode(n as char)
  {
    assert n / 0x40 == b[0] - 0xC0 && n % 0x40 == b[1] - 0x80;
  }

  lemma ThreeParts(b: seq<Byte>, n: int)
    requires |b| == 3 && 0xE0 <= b[0] < 0xF0 && 0x80 <= b[1] < 0xC0 && 0x80 <= b[2] < 0xC0
    requires n == Assemble(b) && IsScalar(n) && 0x800 <= n
    ensures b == Encode(n as char)
  {
    Digits(n);
    assert n / 0x1000 == b[0] - 0xE0 && n / 0x40 % 0x40 == b[1] - 0x80 && n % 0x40 == b[2] - 0x80;
  }

  lemma FourParts(b: seq<Byte>, n: int)
    requires |b| == 4 && 0xF0 <= b[0] < 0xF8 && (forall i | 1 <= i < 4 :: 0x80 <= b[i] < 0xC0)
    requires n == Assemble(b) && IsScalar(n) && 0x10000 <= n
    ensures b == Encode(n as char)
  {
    Digits(n);
    assert n / 0x40000 == b[0] - 0xF0 && n / 0x1000 % 0x40 == b[1] - 0x80;
    assert n / 0x40 % 0x40 == b[2] - 0x80 && n % 0x40 == b[3] - 0x80;
  }

  /** Decoding takes one encoded character off the front. */
  lemma DecodeEncoded(c: char, rest: seq<Byte>)
    ensures Decode(Encode(c) + rest) == match Decode(rest) case None => None case Some(text) => Some([c] + text)
  {
    var b := Encode(c) + rest;
    EncodedAssembles(c);
    assert b[..|Encode(c)|] == Encode(c) && b[|Encode(c)|..] == rest;
    assert First(b) == Some((c, |Encode(c)|));
  }
}
