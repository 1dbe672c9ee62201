/** The lexer of the URL language, and how a name or value spelled in a URL is
    put together from its tokens. */
module UrlLexer {
  import opened Wrappers
  import Utf8

  // ---------------------------------------------------------------------
  // Tokens
  // ---------------------------------------------------------------------

  datatype Kind = EscapeString | String | NumString | Keyword(name: string) | OpMark | Assign | Literal

  datatype Token = Token(kind: Kind, value: string)

  /** `Malformed` is percent-encoded text that is not UTF-8. */
  datatype LexError = LexicalError | Malformed

  const LITERALS := {'(', ')', ':', ';', ',', '=', '@', '&', '/', '?', '!', '$'}

  /** The words that can be keywords. */
  function UrlKeywords(): set<string> {
    {
      "acl", "acl_binding", "after", "aggregate", "all", "annotation", "any", "array", "array_d", "attribute",
      "attributegroup", "avg", "before", "bin", "catalog", "ciregexp", "cnt", "cnt_d", "column", "comment", "desc",
      "entity", "entity_rid", "foreignkey", "full", "geq", "gt", "history", "key", "leq", "left", "lt", "max", "min",
      "meta", "null", "query", "reference", "referencedby", "regexp", "right", "schema", "sort", "sum", "table",
      "textfacet", "trs", "tcrs", "ts"}
  }

  predicate IsDigit(c: char) {
    '0' <= c <= '9'
  }

  predicate IsWordChar(c: char) {
    'a' <= c <= 'z' || 'A' <= c <= 'Z' || c in {'-', '*', '_', '.', '~'}
  }

  predicate IsHex(c: char) {
    IsDigit(c) || 'a' <= c <= 'f' || 'A' <= c <= 'F'
  }

  function HexValue(c: char): (n: int)
    requires IsHex(c)
    ensures 0 <= n < 16
  {
    if IsDigit(c) then c as int - '0' as int
    else if 'a' <= c <= 'f' then c as int - 'a' as int + 10
    else c as int - 'A' as int + 10
  }

  /** The characters of words and numbers: the unreserved ones of RFC 3986,
      section 2.3, and the asterisk. */
  lemma RawCharacters(c: char)
    ensures IsDigit(c) <==> c in "0123456789"
    ensures IsWordChar(c) <==> c in "abcdefghijklmnopqrstuvwxyz" || c in "ABCDEFGHIJKLMNOPQRSTUVWXYZ" || c in "-*_.~"
  {
  }

  /** The sixteen digits, in either case, and their values. */
  lemma HexCharacters(n: nat)
    requires n < 16
    ensures var (lower, upper) := ("0123456789abcdef"[n], "0123456789ABCDEF"[n]);
      IsHex(lower) && HexValue(lower) == n && IsHex(upper) && HexValue(upper) == n
    ensures forall c :: IsHex(c) ==> c in "0123456789abcdef" || c in "ABCDEF"
  {
  }

  function LowerChar(c: char): char {
    if 'A' <= c <= 'Z' then ((c as int) + 32) as char else c
  }

  function Lower(s: string): string {
    seq(|s|, i requires 0 <= i < |s| => LowerChar(s[i]))
  }

  /** The keyword table decides the type of a word; its value stays. */
  function WordKind(keywords: set<string>, value: string): Kind {
    if Lower(value) in keywords then Keyword(Lower(value)) else String
  }

  // ---------------------------------------------------------------------
  // Maximal runs
  // ---------------------------------------------------------------------

  function WordRun(s: string): (n: nat)
    ensures n <= |s|
  {
    if s != "" && IsWordChar(s[0]) then 1 + WordRun(s[1..]) else 0
  }

  function DigitRun(s: string): (n: nat)
    ensures n <= |s|
  {
    if s != "" && IsDigit(s[0]) then 1 + DigitRun(s[1..]) else 0
  }

  predicate StartsEscape(s: string) {
    |s| >= 3 && s[0] == '%' && IsHex(s[1]) && IsHex(s[2])
  }

  /** The number of `%XX` groups at the front. */
  function EscapeRun(s: string): (n: nat)
    ensures 3 * n <= |s|
  {
    if StartsEscape(s) then 1 + EscapeRun(s[3..]) else 0
  }

  function EscapedBytes(s: string): (b: seq<int>)
    ensures |b| == EscapeRun(s)
  {
    if StartsEscape(s) then [16 * HexValue(s[1]) + HexValue(s[2])] + EscapedBytes(s[3..]) else []
  }

  /** The token at the front of non-empty text, and the text after it: rules in
      their order, then single punctuation characters. */
  function NextToken(keywords: set<string>, s: string): (r: Result<(Token, string), LexError>)
    requires s != ""
    ensures r.Ok? ==> |r.value.1| < |s|
  {
    if |s| >= 2 && s[..2] == "::" then Ok((Token(OpMark, "::"), s[2..]))
    else if |s| >= 2 && s[..2] == ":=" then Ok((Token(Assign, ":="), s[2..]))
    else if StartsEscape(s) then
      var n := 3 * EscapeRun(s);
      match Utf8.Decode(EscapedBytes(s))
      case None => Err(Malformed)
      case Some(text) => Ok((Token(EscapeString, text), s[n..]))
    else if IsDigit(s[0]) then
      var n := DigitRun(s);
      Ok((Token(NumString, s[..n]), s[n..]))
    else if IsWordChar(s[0]) then
      var n := WordRun(s);
      Ok((Token(WordKind(keywords, s[..n]), s[..n]), s[n..]))
    else if s[0] in LITERALS then Ok((Token(Literal, s[..1]), s[1..]))
    else Err(LexicalError)
  }

  function Lexed(keywords: set<string>, s: string): Result<seq<Token>, LexError>
    decreases |s|
  {
    if s == "" then Ok([])
    else
      match NextToken(keywords, s)
      case Err(e) => Err(e)
      case Ok((t, rest)) => Cons(t, Lexed(keywords, rest))
  }

  function Cons(t: Token, rest: Result<seq<Token>, LexError>): Result<seq<Token>, LexError> {
    match rest
    case Err(e) => Err(e)
    case Ok(ts) => Ok([t] + ts)
  }

  // ---------------------------------------------------------------------
  // Strings of the grammar
  // ---------------------------------------------------------------------

  /** Keywords can be string content too. */
  predicate IsStringPart(t: Token) {
    t.kind.EscapeString? || t.kind.String? || t.kind.NumString? || t.kind.Keyword?
  }

  predicate AllStringParts(ts: seq<Token>) {
    forall t | t in ts :: IsStringPart(t)
  }

  function Concatenated(ts: seq<Token>): string {
    if ts == [] then "" else ts[0].value + Concatenated(ts[1..])
  }

  /** The text that a stretch of URL stands for as one string of the grammar. */
  function StringOf(keywords: set<string>, s: string): Option<string> {
    match Lexed(keywords, s)
    case Err(_) => None
    case Ok(ts) => if ts != [] && AllStringParts(ts) then Some(Concatenated(ts)) else None
  }

  /** A stretch of URL is no string of the grammar if it is empty, does not lex
      or has punctuation in it. */
  lemma StringOfExactly(keywords: set<string>, s: string)
    ensures StringOf(keywords, s).Some? <==>
      && s != "" && Lexed(keywords, s).Ok?
      && forall t | t in Lexed(keywords, s).value :: t.kind != OpMark && t.kind != Assign && t.kind != Literal
  {
  }

  // ---------------------------------------------------------------------
  // Spellings
  // ---------------------------------------------------------------------

  /** One character of text as it stands in a URL. */
  datatype Spelled = Raw(c: char) | Escaped(c: char, digits: seq<(char, char)>)

  /** Unreserved characters may stand raw; any character may be escaped, as the
      bytes of its UTF-8 form in hexadecimal digits of either case. */
  predicate ValidSpelling(p: Spelled) {
    match p
    case Raw(c) => IsDigit(c) || IsWordChar(c)
    case Escaped(c, digits) =>
      && |digits| == |Utf8.Encode(c)|
      && forall i | 0 <= i < |digits| ::
        IsHex(digits[i].0) && IsHex(digits[i].1) && 16 * HexValue(digits[i].0) + HexValue(digits[i].1)
          == Utf8.Encode(c)[i]
  }

  function Groups(digits: seq<(char, char)>): string {
    if digits == [] then "" else ['%', digits[0].0, digits[0].1] + Groups(digits[1..])
  }

  function Written(p: Spelled): string {
    match p
    case Raw(c) => [c]
    case Escaped(_, digits) => Groups(digits)
  }

  function WrittenAll(ps: seq<Spelled>): string {
    if ps == [] then "" else Written(ps[0]) + WrittenAll(ps[1..])
  }

  function TextOf(ps: seq<Spelled>): string {
    seq(|ps|, i requires 0 <= i < |ps| => ps[i].c)
  }

  // ---------------------------------------------------------------------
  // Reassembly
  // ---------------------------------------------------------------------

  /** The tokens are string parts that concatenate to `text`. */
  predicate ReadsAs(r: Result<seq<Token>, LexError>, text: string) {
    match r
    case Err(_) => false
    case Ok(ts) => AllStringParts(ts) && Concatenated(ts) == text
  }

  predicate Reads(keywords: set<string>, s: string, text: string) {
    ReadsAs(Lexed(keywords, s), text)
  }

  lemma Associate<T>(x: seq<T>, y: seq<T>, z: seq<T>)
    ensures x + (y + z) == (x + y) + z
  {
  }

  /** A token of one character in front. */
  lemma PrependNew(c: char, t: Token, rest: Result<seq<Token>, LexError>, text: string)
    requires ReadsAs(rest, text) && IsStringPart(t) && t.value == [c]
    ensures ReadsAs(Cons(t, rest), [c] + text)
  {
  }

  /** A longer first token. */
  lemma PrependMore(c: char, t: Token, t0: Token, rest: Result<seq<Token>, LexError>, text: string)
    requires ReadsAs(Cons(t0, rest), text) && IsStringPart(t) && t.value == [c] + t0.value
    ensures ReadsAs(Cons(t, rest), [c] + text)
  {
  }

  lemma NumberToken(keywords: set<string>, s: string)
    requires s != "" && IsDigit(s[0])
    ensures var n := DigitRun(s); n > 0 && NextToken(keywords, s) == Ok((Token(NumString, s[..n]), s[n..]))
    ensures var n := DigitRun(s); Lexed(keywords, s) == Cons(Token(NumString, s[..n]), Lexed(keywords, s[n..]))
  {
  }

  lemma PrependDigit(keywords: set<string>, c: char, s: string, text: string)
    requires IsDigit(c) && Reads(keywords, s, text)
    ensures Reads(keywords, [c] + s, [c] + text)
  {
    var whole, r := [c] + s, DigitRun(s);
    assert whole[1..] == s;
    assert whole[..1 + r] == [c] + s[..r] && whole[1 + r..] == s[r..];
    var t := Token(NumString, [c] + s[..r]);
    NumberToken(keywords, whole);
    if r > 0 {
      NumberToken(keywords, s);
      PrependMore(c, t, Token(NumString, s[..r]), Lexed(keywords, s[r..]), text);
    } else {
      assert s[r..] == s && [c] + s[..r] == [c];
      PrependNew(c, t, Lexed(keywords, s), text);
    }
  }

  lemma WordToken(keywords: set<string>, s: string)
    requires s != "" && IsWordChar(s[0])
    ensures var n := WordRun(s);
      n > 0 && NextToken(keywords, s) == Ok((Token(WordKind(keywords, s[..n]), s[..n]), s[n..]))
    ensures var n := WordRun(s);
      Lexed(keywords, s) == Cons(Token(WordKind(keywords, s[..n]), s[..n]), Lexed(keywords, s[n..]))
  {
  }

  /** The word is the lower-case keyword, in either case letter by letter. */
  predicate Spells(word: string, k: string) {
    && |word| == |k|
    && forall i | 0 <= i < |k| ::
      word[i] == k[i] || ('A' <= word[i] <= 'Z' && 'a' <= k[i] <= 'z' && k[i] as int - word[i] as int == 32)
  }

  predicate LowerCase(k: string) {
    forall i | 0 <= i < |k| :: !('A' <= k[i] <= 'Z')
  }

  lemma LowerExactly(word: string, k: string)
    ensures Lower(word) == k <==> LowerCase(k) && Spells(word, k)
  {
    if LowerCase(k) && Spells(word, k) {
      assert forall i | 0 <= i < |k| :: Lower(word)[i] == k[i];
    }
    if Lower(word) == k {
      assert forall i | 0 <= i < |k| :: k[i] == LowerChar(word[i]);
    }
  }

  lemma {:induction false} WholeRun(word: string, rest: string)
    requires (forall i | 0 <= i < |word| :: IsWordChar(word[i])) && (rest == "" || !IsWordChar(rest[0]))
    ensures WordRun(word + rest) == |word|
  {
    if word == "" {
      assert word + rest == rest;
    } else {
      WholeRun(word[1..], rest);
      assert (word + rest)[1..] == word[1..] + rest;
    }
  }

  /** A whole word lexes as one token with its own text as value; it is a keyword
      exactly if it spells, in any case, a lower-case one of the table. */
  lemma KeywordExactly(keywords: set<string>, word: string, rest: string)
    requires word != "" && (forall i | 0 <= i < |word| :: IsWordChar(word[i])) && (rest == "" || !IsWordChar(rest[0]))
    ensures var r := NextToken(keywords, word + rest);
      && r.Ok? && r.value.0.value == word && r.value.1 == rest
      && (forall k :: r.value.0.kind == Keyword(k) <==> k in keywords && LowerCase(k) && Spells(word, k))
      && (r.value.0.kind == String <==> forall k | k in keywords && LowerCase(k) :: !Spells(word, k))
  {
    var s := word + rest;
    WholeRun(word, rest);
    assert s[0] == word[0] && s[..|word|] == word && s[|word|..] == rest;
    WordToken(keywords, s);
    forall k ensures Lower(word) == k <==> LowerCase(k) && Spells(word, k) {
      LowerExactly(word, k);
    }
  }

  lemma PrependWord(keywords: set<string>, c: char, s: string, text: string)
    requires IsWordChar(c) && Reads(keywords, s, text)
    ensures Reads(keywords, [c] + s, [c] + text)
  {
    var whole, r := [c] + s, WordRun(s);
    assert whole[1..] == s;
    assert whole[..1 + r] == [c] + s[..r] && whole[1 + r..] == s[r..];
    var t := Token(WordKind(keywords, [c] + s[..r]), [c] + s[..r]);
    WordToken(keywords, whole);
    if r > 0 {
      WordToken(keywords, s);
      PrependMore(c, t, Token(WordKind(keywords, s[..r]), s[..r]), Lexed(keywords, s[r..]), text);
    } else {
      assert s[r..] == s && [c] + s[..r] == [c];
      PrependNew(c, t, Lexed(keywords, s), text);
    }
  }

  function Values(digits: seq<(char, char)>): seq<int>
    requires HexDigits(digits)
  {
    seq(|digits|, i requires 0 <= i < |digits| => 16 * HexValue(digits[i].0) + HexValue(digits[i].1))
  }

  lemma GroupRun(a: char, b: char, s: string)
    requires IsHex(a) && IsHex(b)
    ensures var whole := ['%', a, b] + s;
      && EscapeRun(whole) == 1 + EscapeRun(s)
      && EscapedBytes(whole) == [16 * HexValue(a) + HexValue(b)] + EscapedBytes(s)
      && whole[3 * EscapeRun(whole)..] == s[3 * EscapeRun(s)..]
  {
  }

  predicate HexDigits(digits: seq<(char, char)>) {
    forall i | 0 <= i < |digits| :: IsHex(digits[i].0) && IsHex(digits[i].1)
  }

  lemma ValuesHead(digits: seq<(char, char)>)
    requires HexDigits(digits) && digits != []
    ensures Values(digits) == [16 * HexValue(digits[0].0) + HexValue(digits[0].1)] + Values(digits[1..])
  {
  }

  /** Groups in front of text lengthen its leading run of groups. */
  lemma {:induction false} GroupsRun(digits: seq<(char, char)>, s: string)
    requires HexDigits(digits)
    ensures var whole := Groups(digits) + s;
      && EscapeRun(whole) == |digits| + EscapeRun(s)
      && EscapedBytes(whole) == Values(digits) + EscapedBytes(s)
      && whole[3 * EscapeRun(whole)..] == s[3 * EscapeRun(s)..]
  {
    if digits == [] {
      assert Groups(digits) + s == s;
    } else {
      var more := Groups(digits[1..]) + s;
      GroupsRun(digits[1..], s);
      GroupRun(digits[0].0, digits[0].1, more);
      Associate(['%', digits[0].0, digits[0].1], Groups(digits[1..]), s);
      ValuesHead(digits);
      Associate([16 * HexValue(digits[0].0) + HexValue(digits[0].1)], Values(digits[1..]), EscapedBytes(s));
    }
  }

  lemma SpelledBytes(p: Spelled)
    requires p.Escaped? && ValidSpelling(p)
    ensures HexDigits(p.digits) && Values(p.digits) == Utf8.Encode(p.c) && p.digits != []
  {
  }

  /** `whole` is an escaped character followed by `s`. */
  ghost predicate EscapedFirst(c: char, whole: string, s: string) {
    && EscapeRun(whole) > 0
    && whole[3 * EscapeRun(whole)..] == s[3 * EscapeRun(s)..]
    && EscapedBytes(whole) == Utf8.Encode(c) + EscapedBytes(s)
  }

  lemma PrependEscape(keywords: set<string>, p: Spelled, s: string, text: string)
    requires p.Escaped? && ValidSpelling(p) && Reads(keywords, s, text)
    ensures Reads(keywords, Written(p) + s, [p.c] + text)
  {
    SpelledBytes(p);
    GroupsRun(p.digits, s);
    var whole := Written(p) + s;
    assert EscapedFirst(p.c, whole, s);
    if EscapeRun(s) > 0 {
      LengthenEscape(keywords, p.c, whole, s, text);
    } else {
      StartEscape(keywords, p.c, whole, s, text);
    }
  }

  lemma StartEscape(keywords: set<string>, c: char, whole: string, s: string, text: string)
    requires EscapeRun(s) == 0 && EscapedFirst(c, whole, s) && Reads(keywords, s, text)
    ensures Reads(keywords, whole, [c] + text)
  {
    Utf8.DecodeEncoded(c, EscapedBytes(s));
    assert s[3 * EscapeRun(s)..] == s && [c] + "" == [c];
    EscapeToken(keywords, whole, [c], s);
    PrependNew(c, Token(EscapeString, [c]), Lexed(keywords, s), text);
  }

  lemma LengthenEscape(keywords: set<string>, c: char, whole: string, s: string, text: string)
    requires EscapeRun(s) > 0 && EscapedFirst(c, whole, s) && Reads(keywords, s, text)
    ensures Reads(keywords, whole, [c] + text)
  {
    Utf8.DecodeEncoded(c, EscapedBytes(s));
    var rest := s[3 * EscapeRun(s)..];
    var decoded := Utf8.Decode(EscapedBytes(s)).value;
    EscapeToken(keywords, s, decoded, rest);
    EscapeToken(keywords, whole, [c] + decoded, rest);
    PrependMore(c, Token(EscapeString, [c] + decoded), Token(EscapeString, decoded), Lexed(keywords, rest), text);
  }

  lemma EscapeToken(keywords: set<string>, whole: string, value: string, rest: string)
    requires EscapeRun(whole) > 0 && Utf8.Decode(EscapedBytes(whole)) == Some(value)
    requires whole[3 * EscapeRun(whole)..] == rest
    ensures NextToken(keywords, whole) == Ok((Token(EscapeString, value), rest))
    ensures Lexed(keywords, whole) == Cons(Token(EscapeString, value), Lexed(keywords, rest))
  {
  }

  /** Any spelling of any text, raw and escaped characters in any mixture, lexes
      into parts of one string of the grammar, and they concatenate to exactly
      the text, whether or not pieces of it look like keywords or numbers. */
  lemma {:induction false} SpellingReads(keywords: set<string>, ps: seq<Spelled>)
    requires forall p | p in ps :: ValidSpelling(p)
    ensures Reads(keywords, WrittenAll(ps), TextOf(ps))
  {
    if ps != [] {
      SpellingReads(keywords, ps[1..]);
      var s, text := WrittenAll(ps[1..]), TextOf(ps[1..]);
      assert TextOf(ps) == [ps[0].c] + text;
      assert ValidSpelling(ps[0]);
      if ps[0].Escaped? {
        PrependEscape(keywords, ps[0], s, text);
      } else if IsDigit(ps[0].c) {
        PrependDigit(keywords, ps[0].c, s, text);
      } else {
        PrependWord(keywords, ps[0].c, s, text);
      }
    }
  }

  lemma WrittenNonEmpty(ps: seq<Spelled>)
    requires ps != [] && forall p | p in ps :: ValidSpelling(p)
    ensures WrittenAll(ps) != ""
  {
    assert ValidSpelling(ps[0]);
  }

  /** The grammar's string for a spelling of non-empty text is the text; so two
      spellings denote the same string exactly when they spell the same text. */
  lemma StringOfSpelling(keywords: set<string>, ps: seq<Spelled>, qs: seq<Spelled>)
    requires ps != [] && forall p | p in ps :: ValidSpelling(p)
    requires qs != [] && forall q | q in qs :: ValidSpelling(q)
    ensures StringOf(keywords, WrittenAll(ps)) == Some(TextOf(ps))
    ensures WrittenAll(ps) == WrittenAll(qs) ==> TextOf(ps) == TextOf(qs)
    ensures StringOf(keywords, WrittenAll(ps)) == StringOf(keywords, WrittenAll(qs)) <==> TextOf(ps) == TextOf(qs)
  {
    SpellingReads(keywords, ps);
    SpellingReads(keywords, qs);
    WrittenNonEmpty(ps);
    WrittenNonEmpty(qs);
  }

  // ---------------------------------------------------------------------
  // The plus sign
  // ---------------------------------------------------------------------

  lemma {:induction false} RunsWithoutPlus(s: string)
    ensures '+' !in s[..WordRun(s)] && '+' !in s[..DigitRun(s)] && '+' !in s[..3 * EscapeRun(s)]
  {
    if s != "" {
      if IsWordChar(s[0]) || IsDigit(s[0]) {
        RunsWithoutPlus(s[1..]);
        assert s[..WordRun(s)] == if IsWordChar(s[0]) then [s[0]] + s[1..][..WordRun(s[1..])] else "";
        assert s[..DigitRun(s)] == if IsDigit(s[0]) then [s[0]] + s[1..][..DigitRun(s[1..])] else "";
      } else if StartsEscape(s) {
        RunsWithoutPlus(s[3..]);
        assert s[..3 * EscapeRun(s)] == s[..3] + s[3..][..3 * EscapeRun(s[3..])];
      }
    }
  }

  /** No token takes a plus sign. */
  lemma TokenSpan(keywords: set<string>, s: string) returns (n: nat)
    requires s != "" && NextToken(keywords, s).Ok?
    ensures n <= |s| && NextToken(keywords, s).value.1 == s[n..] && '+' !in s[..n]
  {
    RunsWithoutPlus(s);
    if |s| >= 2 && (s[..2] == "::" || s[..2] == ":=") {
      n := 2;
    } else if StartsEscape(s) {
      n := 3 * EscapeRun(s);
    } else if IsDigit(s[0]) {
      n := DigitRun(s);
    } else if IsWordChar(s[0]) {
      n := WordRun(s);
    } else {
      n := 1;
    }
  }

  lemma PlusStays(keywords: set<string>, s: string)
    requires '+' in s && NextToken(keywords, s).Ok?
    ensures '+' in NextToken(keywords, s).value.1
  {
    var n := TokenSpan(keywords, s);
    assert s == s[..n] + s[n..];
  }

  /** A raw plus sign is never accepted: no token rule takes it, although the
      grammar has a rule that reads it as a space. */
  lemma {:induction false} PlusNeverLexes(keywords: set<string>, s: string)
    requires '+' in s
    ensures Lexed(keywords, s).Err?
    decreases |s|
  {
    var next := NextToken(keywords, s);
    if next.Ok? {
      PlusStays(keywords, s);
      PlusNeverLexes(keywords, next.value.1);
    }
  }

  // ---------------------------------------------------------------------
  // The lexer at work
  // ---------------------------------------------------------------------

  lemma NextGroup(input: string, at: nat)
    requires at <= |input| && StartsEscape(input[at..])
    ensures at + 3 <= |input| && EscapeRun(input[at..]) == 1 + EscapeRun(input[at + 3..])
    ensures EscapedBytes(input[at..])
      == [16 * HexValue(input[at + 1]) + HexValue(input[at + 2])] + EscapedBytes(input[at + 3..])
  {
    assert input[at..][3..] == input[at + 3..];
  }

  /** The lexer took the token at the front of `before` and left `after`. */
  predicate Took(keywords: set<string>, before: string, t: Result<Token, LexError>, after: string)
    requires before != ""
  {
    match NextToken(keywords, before)
    case Err(e) => t == Err(e)
    case Ok((token, rest)) => t == Ok(token) && after == rest
  }

  class Lexer {
    const keywords: set<string>
    const input: string
    var pos: nat

    constructor (input: string)
      ensures this.input == input && pos == 0 && keywords == UrlKeywords()
    {
      this.input, pos, keywords := input, 0, UrlKeywords();
    }

    predicate Valid()
      reads this
    {
      pos <= |input|
    }

    /** What is left to read. */
    function Rest(): string
      reads this
      requires Valid()
    {
      input[pos..]
    }

    /** The end of the run of characters of a class that starts at `pos`. */
    method WordEnd() returns (end: nat)
      requires Valid()
      ensures end == pos + WordRun(Rest())
    {
      end := pos;
      while end < |input| && IsWordChar(input[end])
        invariant pos <= end <= |input|
        invariant WordRun(input[pos..]) == end - pos + WordRun(input[end..])
      {
        assert input[end..][1..] == input[end + 1..];
        end := end + 1;
      }
    }

    method DigitEnd() returns (end: nat)
      requires Valid()
      ensures end == pos + DigitRun(Rest())
    {
      end := pos;
      while end < |input| && IsDigit(input[end])
        invariant pos <= end <= |input|
        invariant DigitRun(input[pos..]) == end - pos + DigitRun(input[end..])
      {
        assert input[end..][1..] == input[end + 1..];
        end := end + 1;
      }
    }

    /** The end of a run of `%XX` groups, with their bytes. */
    method EscapeEnd() returns (end: nat, bytes: seq<int>)
      requires Valid()
      ensures end == pos + 3 * EscapeRun(Rest()) && bytes == EscapedBytes(Rest())
    {
      end, bytes := pos, [];
      while StartsEscape(input[end..])
        invariant pos <= end <= |input|
        invariant 3 * EscapeRun(input[pos..]) == end - pos + 3 * EscapeRun(input[end..])
        invariant EscapedBytes(input[pos..]) == bytes + EscapedBytes(input[end..])
        decreases |input| - end
      {
        NextGroup(input, end);
        bytes := bytes + [16 * HexValue(input[end + 1]) + HexValue(input[end + 2])];
        end := end + 3;
      }
    }

    method EscapeRule() returns (t: Result<Token, LexError>)
      requires Valid() && StartsEscape(Rest())
      modifies this
      ensures Valid() && Took(keywords, old(Rest()), t, Rest())
    {
      ghost var rest, start := Rest(), pos;
      var bytes;
      pos, bytes := EscapeEnd();
      assert rest[pos - start..] == input[pos..];
      var text := Utf8.Decode(bytes);
      t := if text.None? then Err(Malformed) else Ok(Token(EscapeString, text.value));
    }

    method NumberRule() returns (t: Result<Token, LexError>)
      requires Valid() && pos < |input| && IsDigit(input[pos])
      modifies this
      ensures Valid() && Took(keywords, old(Rest()), t, Rest())
    {
      var start := pos;
      ghost var rest := Rest();
      pos := DigitEnd();
      assert rest[pos - start..] == input[pos..] && rest[..pos - start] == input[start..pos];
      NumberToken(keywords, rest);
      t := Ok(Token(NumString, input[start..pos]));
    }

    method WordRule() returns (t: Result<Token, LexError>)
      requires Valid() && pos < |input| && IsWordChar(input[pos])
      modifies this
      ensures Valid() && Took(keywords, old(Rest()), t, Rest())
    {
      var start := pos;
      ghost var rest := Rest();
      pos := WordEnd();
      assert rest[pos - start..] == input[pos..] && rest[..pos - start] == input[start..pos];
      WordToken(keywords, rest);
      t := Ok(Token(WordKind(keywords, input[start..pos]), input[start..pos]));
    }

    /** One token; its value and type are what the matching rule makes them. */
    method Next() returns (t: Result<Token, LexError>)
      requires Valid() && pos < |input|
      modifies this
      ensures Valid() && Took(keywords, old(Rest()), t, Rest())
    {
      var rest := input[pos..];
      if |rest| >= 2 && rest[..2] == "::" {
        pos := pos + 2;
        return Ok(Token(OpMark, "::"));
      }
      if |rest| >= 2 && rest[..2] == ":=" {
        pos := pos + 2;
        return Ok(Token(Assign, ":="));
      }
      var c := input[pos];
      if StartsEscape(rest) {
        t := EscapeRule();
      } else if IsDigit(c) {
        t := NumberRule();
      } else if IsWordChar(c) {
        t := WordRule();
      } else if c in LITERALS {
        pos := pos + 1;
        assert rest[1..] == input[pos..] && rest[..1] == [c];
        t := Ok(Token(Literal, [c]));
      } else {
        t := Err(LexicalError);
      }
    }

    /** All the tokens. */
    method Tokens() returns (r: Result<seq<Token>, LexError>)
      requires pos == 0
      modifies this
      ensures r == Lexed(keywords, input)
    {
      var ts: seq<Token> := [];
      assert input[pos..] == input;
      assert forall more: seq<Token> :: ts + more == more;
      while pos < |input|
        invariant Valid()
        invariant Lexed(keywords, input) ==
          match Lexed(keywords, Rest()) case Err(e) => Err(e) case Ok(more) => Ok(ts + more)
        decreases |input| - pos
      {
        ghost var rest := Rest();
        var t := Next();
        if t.Err? {
          return Err(t.error);
        }
        assert Lexed(keywords, rest) == Cons(t.value, Lexed(keywords, Rest()));
        ghost var before := ts;
        ts := ts + [t.value];
        assert forall more :: before + ([t.value] + more) == ts + more;
      }
      assert Rest() == "" && ts + [] == ts;
      r := Ok(ts);
    }
  }

  /** `string : stringpart | string stringpart`, as the parser reduces it from
      left to right. */
  method ReduceString(ts: seq<Token>) returns (p: Option<string>)
    ensures p == if ts != [] && AllStringParts(ts) then Some(Concatenated(ts)) else None
  {
    if ts == [] {
      return None;
    }
    var s := "";
    var i := 0;
    assert ts[0..] == ts && s + Concatenated(ts) == Concatenated(ts);
    while i < |ts|
      invariant i <= |ts| && AllStringParts(ts[..i]) && s + Concatenated(ts[i..]) == Concatenated(ts)
    {
      if !IsStringPart(ts[i]) {
        assert ts[i] in ts;
        return None;
      }
      assert ts[i..][1..] == ts[i + 1..] && ts[..i + 1] == ts[..i] + [ts[i]];
      s := s + ts[i].value;
      i := i + 1;
    }
    assert ts[..i] == ts && ts[i..] == [] && s + "" == s;
    p := Some(s);
  }
}
