/**
 writer_filtered.go: the level is recovered from the printed bytes by searching for `"<key>":"`.
 What that search finds is stated on the entry tree, and the two are proved to agree.
 */
module LevelFilter {
  import opened Bytes
  import opened Utf8
  import opened Levels
  import opened Values
  import opened Encoder
  import opened RoundTrip
  import P = Rfc8259

  function OrElse(a: Option<Level>, b: Option<Level>): Option<Level> {
    if a.Some? then a else b
  }

  function Or(a: Option<Level>, default: Level): Level {
    if a.Some? then a.value else default
  }

  function Pattern(key: bytes): bytes {
    [QUOTE] + key + [QUOTE, COLON, QUOTE]
  }

  /** The level named by the text up to the next quote. */
  function LevelAt(t: bytes): Level {
    if QUOTE in t then FromName(Before(t, QUOTE)) else INFO
  }

  /** The level at the first of the first `n` positions of `t` where the pattern occurs. */
  function Scan(t: bytes, n: nat, key: bytes): Option<Level>
    requires n <= |t|
    decreases n
  {
    if n == 0 then None
    else if Pattern(key) <= t then Some(LevelAt(t[|Pattern(key)|..]))
    else Scan(t[1..], n - 1, key)
  }

  function LevelIn(p: bytes, key: bytes): Level {
    Or(Scan(p, |p|, key), INFO)
  }

  /** extractLevel. */
  method ExtractLevel(p: bytes, levelKey: bytes) returns (l: Level)
    ensures l == LevelIn(p, levelKey)
  {
    var key := [QUOTE] + levelKey + [QUOTE, COLON, QUOTE];
    var idx := Index(p, key);
    if idx.None? {
      NotFound(p, |p|, levelKey);
      return INFO;
    }
    LevelFrom(p, levelKey, idx.value);
    var start := idx.value + |key|;
    var end := Index(p[start..], [QUOTE]);
    LevelUpTo(p[start..], end);
    if end.None? {
      return INFO;
    }
    assert p[start..start + end.value] == p[start..][..end.value];
    return FromName(p[start..start + end.value]);
  }

  lemma LevelFrom(p: bytes, key: bytes, i: nat)
    requires OccursAt(Pattern(key), p, i) && forall j: nat | j < i :: !OccursAt(Pattern(key), p, j)
    ensures i + |Pattern(key)| <= |p| && LevelIn(p, key) == LevelAt(p[i + |Pattern(key)|..])
  {
    Found(p, |p|, key, i);
    assert p[i + |Pattern(key)|..] == p[i..][|Pattern(key)|..];
  }

  /** The level of a text whose first quote has been looked for. */
  lemma LevelUpTo(t: bytes, end: Option<nat>)
    requires end.Some? ==> OccursAt([QUOTE], t, end.value) && forall i: nat | i < end.value :: !OccursAt([QUOTE], t, i)
    requires end.None? ==> forall i: nat | i <= |t| :: !OccursAt([QUOTE], t, i)
    ensures end.None? ==> LevelAt(t) == INFO
    ensures end.Some? ==> LevelAt(t) == FromName(t[..end.value])
  {
    if end.None? { QuoteIsNowhere(t); } else { BeforeAt(t, end.value); }
  }

  lemma {:induction false} NotFound(t: bytes, n: nat, key: bytes)
    requires n <= |t| && forall i: nat | i < n :: !OccursAt(Pattern(key), t, i)
    ensures Scan(t, n, key) == None
    decreases n
  {
    if n > 0 {
      assert t[0..] == t;
      assert !OccursAt(Pattern(key), t, 0);
      forall i: nat | i < n - 1 ensures !OccursAt(Pattern(key), t[1..], i) {
        assert t[1..][i..] == t[i + 1..];
        assert !OccursAt(Pattern(key), t, i + 1);
      }
      NotFound(t[1..], n - 1, key);
    }
  }

  lemma {:induction false} Found(t: bytes, n: nat, key: bytes, i: nat)
    requires n <= |t| && i <= |t| && OccursAt(Pattern(key), t, i) && forall j: nat | j < i :: !OccursAt(Pattern(key), t, j)
    requires n == |t|
    ensures Scan(t, n, key) == Some(LevelAt(t[i..][|Pattern(key)|..]))
    decreases n
  {
    assert t[0..] == t;
    if i > 0 {
      assert !OccursAt(Pattern(key), t, 0);
      assert t[1..][i - 1..] == t[i..];
      forall j: nat | j < i - 1 ensures !OccursAt(Pattern(key), t[1..], j) {
        assert t[1..][j..] == t[j + 1..];
        assert !OccursAt(Pattern(key), t, j + 1);
      }
      Found(t[1..], n - 1, key, i - 1);
    }
  }

  lemma QuoteAt(t: bytes, i: nat)
    ensures OccursAt([QUOTE], t, i) <==> i < |t| && t[i] == QUOTE
  {
  }

  lemma QuoteIsNowhere(t: bytes)
    requires forall i: nat | i <= |t| :: !OccursAt([QUOTE], t, i)
    ensures QUOTE !in t
  {
    forall i: nat | i < |t| ensures t[i] != QUOTE {
      QuoteAt(t, i);
      assert !OccursAt([QUOTE], t, i);
    }
  }

  lemma BeforeAt(t: bytes, i: nat)
    requires OccursAt([QUOTE], t, i) && forall j: nat | j < i :: !OccursAt([QUOTE], t, j)
    ensures QUOTE in t && Before(t, QUOTE) == t[..i]
  {
    QuoteAt(t, i);
    forall j: nat | j < i ensures t[j] != QUOTE {
      QuoteAt(t, j);
      assert !OccursAt([QUOTE], t, j);
    }
    BeforeClean(t[..i], QUOTE, t[i + 1..]);
    assert t == t[..i] + [QUOTE] + t[i + 1..];
  }

  // ---- what the search should find, on the entry tree

  /** The text of a value that is printed as a string. */
  function StringText(v: Value): Option<bytes> {
    if v.Str? then Some(v.s) else if v.Error? then Some(v.msg) else None
  }

  /** `k` ends in a quote followed by the level key, so its printed form ends in the bytes of the printed level key. */
  predicate EndsInQuoted(k: bytes, key: bytes) {
    |k| > |key| && k[|k| - |key| - 1..] == [QUOTE] + key
  }

  /** The keys a search for the level key can stop at: the level key itself and, unless `exact`, its look-alikes. */
  predicate IsHit(k: bytes, key: bytes, exact: bool) {
    k == key || (!exact && EndsInQuoted(k, key))
  }

  /** The level in the first member, in document order, whose key is a hit and whose value is a string. */
  ghost function FirstHit(v: Value, key: bytes, exact: bool): Option<Level>
    decreases v, 1
  {
    match v
    case List(vs) => HitInElements(v, 0, key, exact)
    case Map(m) => HitInMembers(v, SortedKeys(m.Keys), 0, key, exact)
    case _ => None
  }

  ghost function HitInElements(v: Value, i: nat, key: bytes, exact: bool): Option<Level>
    requires v.List? && i <= |v.vs|
    decreases v, 0, |v.vs| - i
  {
    if i == |v.vs| then None
    else OrElse(FirstHit(v.vs[i], key, exact), HitInElements(v, i + 1, key, exact))
  }

  ghost function HitInMembers(v: Value, ks: seq<bytes>, i: nat, key: bytes, exact: bool): Option<Level>
    requires v.Map? && i <= |ks| && forall k | k in ks :: k in v.m
    decreases v, 0, |ks| - i
  {
    if i == |ks| then None
    else OrElse(HitInMember(ks[i], v.m[ks[i]], key, exact), HitInMembers(v, ks, i + 1, key, exact))
  }

  ghost function HitInMember(k: bytes, v: Value, key: bytes, exact: bool): Option<Level>
    decreases v, 2
  {
    if IsHit(k, key, exact) && StringText(v).Some? then Some(FromName(StringText(v).value)) else FirstHit(v, key, exact)
  }

  /** A level key the filter can be configured with: printed as itself, and not starting like JSON punctuation. */
  predicate PlainKey(key: bytes) {
    && PlainBytes(key)
    && (key != [] ==> key[0] != COLON && key[0] != COMMA && key[0] != RBRACE && key[0] != RBRACKET)
  }

  predicate PlainBytes(key: bytes) {
    ValidUtf8(key) && forall b | b in key :: b >= 0x20 && b != QUOTE && b != BACKSLASH
  }

  /** A unit is printed as itself, or behind a backslash. */
  lemma UnitUnchanged(s: bytes)
    requires s != []
    ensures Unit(s) == s[..UnitSize(s)] || Unit(s)[0] == BACKSLASH
    ensures !IsError(DecodeRune(s)) && s[0] >= 0x20 && s[0] != QUOTE && s[0] != BACKSLASH ==> Unit(s) == s[..UnitSize(s)]
  {
    assert s[..1] == [s[0]];
  }

  lemma EscapedFrom(s: bytes)
    requires s != [] && Unit(s) == s[..UnitSize(s)] && Escaped(s[UnitSize(s)..]) == s[UnitSize(s)..]
    ensures Escaped(s) == s
  {
  }

  lemma {:induction false} PlainPrintsAsItself(key: bytes)
    requires PlainBytes(key)
    ensures Escaped(key) == key
    decreases |key|
  {
    if key != [] {
      var rest := key[UnitSize(key)..];
      assert forall b | b in rest :: b in key;
      assert key[0] in key;
      PlainPrintsAsItself(rest);
      UnitUnchanged(key);
      EscapedFrom(key);
    }
  }

  /** The printer escapes something, or it changes nothing. */
  lemma {:induction false} NoBackslashNoChange(s: bytes)
    requires BACKSLASH !in Escaped(s)
    ensures Escaped(s) == s
    decreases |s|
  {
    if s != [] {
      var rest := s[UnitSize(s)..];
      assert Escaped(s)[0] == Unit(s)[0];
      assert Escaped(s)[|Unit(s)|..] == Escaped(rest);
      assert forall b | b in Escaped(s)[|Unit(s)|..] :: b in Escaped(s);
      NoBackslashNoChange(rest);
      UnitUnchanged(s);
      EscapedFrom(s);
    }
  }

  /** A printed string, with its closing quote, starts like the plain key and its closing quote only if it is that key. */
  lemma ContentPrefix(s: bytes, key: bytes, q: bytes, rest: bytes)
    requires PlainBytes(key)
    ensures key + ([QUOTE] + q) <= Escaped(s) + ([QUOTE] + rest) <==> s == key && q <= rest
  {
    var x := Escaped(s) + ([QUOTE] + rest);
    var y := key + ([QUOTE] + q);
    if y <= x { ContentPrefixOnlyIf(s, key, q, rest, x[|y|..]); }
    if s == key && q <= rest {
      PlainPrintsAsItself(key);
      assert x == y + rest[|q|..];
    }
  }

  lemma ContentPrefixOnlyIf(s: bytes, key: bytes, q: bytes, rest: bytes, z: bytes)
    requires PlainBytes(key) && Escaped(s) + ([QUOTE] + rest) == key + ([QUOTE] + q) + z
    ensures s == key && rest == q + z
  {
    PlainPrintsAsItself(key);
    assert key + ([QUOTE] + q) + z == key + ([QUOTE] + (q + z));
    SameContent(s, key, rest, q + z);
    NoBackslashNoChange(s);
  }

  /** Printed content ends at its closing quote, whatever follows. */
  lemma SameContent(s: bytes, t: bytes, a: bytes, b: bytes)
    requires Escaped(s) + ([QUOTE] + a) == Escaped(t) + ([QUOTE] + b)
    ensures Escaped(s) == Escaped(t) && a == b
  {
    EscapedParses(s, a);
    EscapedParses(t, b);
    SameHead(Escaped(s), Escaped(t), [QUOTE] + a);
  }

  lemma SameHead(a: bytes, b: bytes, tail: bytes)
    requires a + tail == b + tail
    ensures a == b
  {
    assert |a| == |b|;
    assert a == (a + tail)[..|a|] && b == (b + tail)[..|b|];
  }

  // ---- scanning the printed text piece by piece

  lemma {:induction false} ScanSplit(t: bytes, n: nat, m: nat, key: bytes)
    requires n + m <= |t|
    ensures Scan(t, n + m, key) == OrElse(Scan(t, n, key), Scan(t[n..], m, key))
    decreases n
  {
    if n == 0 {
      assert t[0..] == t;
    } else if !(Pattern(key) <= t) {
      ScanSplit(t[1..], n - 1, m, key);
      assert t[1..][n - 1..] == t[n..];
    }
  }

  /** A match cannot start in a stretch without quotes. */
  lemma {:induction false} ScanSkip(a: bytes, t: bytes, m: nat, key: bytes)
    requires QUOTE !in a && m <= |t|
    ensures Scan(a + t, |a| + m, key) == Scan(t, m, key)
  {
    if a == [] {
      assert a + t == t;
    } else {
      assert (a + t)[0] == a[0] && Pattern(key)[0] == QUOTE;
      assert (a + t)[1..] == a[1..] + t;
      ScanSkip(a[1..], t, m, key);
    }
  }

  /** What follows a string literal in printed JSON. */
  predicate AfterLiteral(rest: bytes) {
    Ends(rest) || rest[0] == COLON
  }

  lemma NoMatchAtClosingQuote(rest: bytes, key: bytes)
    requires PlainKey(key) && AfterLiteral(rest)
    ensures !(Pattern(key) <= [QUOTE] + rest)
  {
    if rest != [] {
      assert ([QUOTE] + rest)[1] == rest[0];
      assert key == [] ==> Pattern(key)[1] == QUOTE;
      assert key != [] ==> Pattern(key)[1] == key[0] && key[0] in key;
    }
  }

  lemma SamePrefix(a: bytes, p: bytes, u: bytes)
    ensures a + p <= a + u <==> p <= u
  {
    if a + p <= a + u { assert u[..|p|] == (a + u)[|a|..|a + p|] == (a + p)[|a|..] == p; }
    if p <= u { assert a + u == a + p + u[|p|..]; }
  }

  /** A match at a quote in front of printed content is a match of the whole content. */
  lemma MatchAtOpeningQuote(s: bytes, rest: bytes, key: bytes)
    requires PlainKey(key)
    ensures var t := [QUOTE] + (Escaped(s) + ([QUOTE] + rest));
            && (Pattern(key) <= t <==> s == key && [COLON, QUOTE] <= rest)
            && (Pattern(key) <= t ==> t[|Pattern(key)|..] == rest[2..])
  {
    var u := Escaped(s) + ([QUOTE] + rest);
    var t := [QUOTE] + u;
    var p := key + ([QUOTE] + [COLON, QUOTE]);
    ContentPrefix(s, key, [COLON, QUOTE], rest);
    assert Pattern(key) == [QUOTE] + p;
    assert t[1..] == u && Pattern(key)[1..] == p;
    SamePrefix([QUOTE], p, u);
    if p <= u {
      PlainPrintsAsItself(key);
      assert t[|Pattern(key)|..] == u[|p|..] == rest[2..];
    }
  }

  /** A match that starts inside printed content, or at its closing quote: the content must end in an escaped quote
      and the level key, and be a key of a string-valued member. */
  lemma {:induction false} ContentScan(s: bytes, rest: bytes, key: bytes)
    requires PlainKey(key) && AfterLiteral(rest)
    ensures ContentScanned(s, rest, key)
    decreases |s|
  {
    if s == [] {
      EmptyContent(rest, key);
    } else {
      ContentScan(s[UnitSize(s)..], rest, key);
      ContentStep(s, rest, key);
    }
  }

  lemma EmptyContent(rest: bytes, key: bytes)
    requires PlainKey(key) && AfterLiteral(rest)
    ensures ContentScanned([], rest, key)
  {
    var tail := [QUOTE] + rest;
    assert Escaped([]) + tail == tail;
    NoMatchAtClosingQuote(rest, key);
    assert Scan(tail[1..], 0, key) == None;
  }

  lemma ContentStep(s: bytes, rest: bytes, key: bytes)
    requires PlainKey(key) && s != [] && ContentScanned(s[UnitSize(s)..], rest, key)
    ensures ContentScanned(s, rest, key)
  {
    if QUOTE in Unit(s) {
      QuoteUnit(s);
      QuoteStep(s, s[1..], rest, key);
    } else {
      NonQuoteUnit(s);
      QuietStep(s, s[UnitSize(s)..], rest, key);
    }
  }

  predicate ContentScanned(s: bytes, rest: bytes, key: bytes) {
    Scan(Escaped(s) + ([QUOTE] + rest), |Escaped(s)| + 1, key) == InsideHit(s, rest, key)
  }

  lemma QuoteStep(s: bytes, s': bytes, rest: bytes, key: bytes)
    requires PlainKey(key) && s != [] && s[0] == QUOTE && s' == s[1..] && ContentScanned(s', rest, key)
    requires Escaped(s) == [BACKSLASH, QUOTE] + Escaped(s')
    ensures ContentScanned(s, rest, key)
  {
    var quoted := [QUOTE] + (Escaped(s') + ([QUOTE] + rest));
    SuffixOfRest(s, 1, key);
    OpenedScan(s', rest, key);
    EscapedQuoteText(Escaped(s'), [QUOTE] + rest);
    Behind([BACKSLASH], quoted, |Escaped(s')| + 2, [BACKSLASH] + quoted, |Escaped(s)| + 1, key, KeyHit(s', rest, key));
  }

  lemma Regroup3(a: bytes, b: bytes, c: bytes)
    ensures a + b + c == a + (b + c)
  {
  }

  lemma EscapedQuoteText(e: bytes, tail: bytes)
    ensures [BACKSLASH, QUOTE] + e + tail == [BACKSLASH] + ([QUOTE] + (e + tail))
  {
  }

  lemma QuietStep(s: bytes, s': bytes, rest: bytes, key: bytes)
    requires s != [] && s' == s[UnitSize(s)..] && ContentScanned(s', rest, key)
    requires QUOTE !in Unit(s) && QUOTE !in s[..UnitSize(s)]
    ensures ContentScanned(s, rest, key)
  {
    var u := Escaped(s') + ([QUOTE] + rest);
    SuffixOfRest(s, UnitSize(s), key);
    Regroup3(Unit(s), Escaped(s'), [QUOTE] + rest);
    Behind(Unit(s), u, |Escaped(s')| + 1, Unit(s) + u, |Escaped(s)| + 1, key, InsideHit(s', rest, key));
  }

  /** The match strictly inside a literal followed by `after`. */
  function InsideHit(s: bytes, after: bytes, key: bytes): Option<Level> {
    if EndsInQuoted(s, key) && [COLON, QUOTE] <= after then Some(LevelAt(after[2..])) else None
  }

  /** The match in a key literal followed by `after`. */
  function KeyHit(k: bytes, after: bytes, key: bytes): Option<Level> {
    if IsHit(k, key, false) && [COLON, QUOTE] <= after then Some(LevelAt(after[2..])) else None
  }

  /** A quote, escaped or opening, in front of printed content. */
  lemma OpenedScan(s: bytes, rest: bytes, key: bytes)
    requires PlainKey(key)
    requires Scan(Escaped(s) + ([QUOTE] + rest), |Escaped(s)| + 1, key) == InsideHit(s, rest, key)
    ensures Scan([QUOTE] + (Escaped(s) + ([QUOTE] + rest)), |Escaped(s)| + 2, key) == KeyHit(s, rest, key)
  {
    var u := Escaped(s) + ([QUOTE] + rest);
    MatchAtOpeningQuote(s, rest, key);
    assert ([QUOTE] + u)[1..] == u;
  }

  lemma QuoteUnit(s: bytes)
    requires s != [] && QUOTE in Unit(s)
    ensures s[0] == QUOTE && UnitSize(s) == 1 && Unit(s) == [BACKSLASH, QUOTE]
  {
    UnitIsClean(s);
  }

  lemma NonQuoteUnit(s: bytes)
    requires s != [] && QUOTE !in Unit(s)
    ensures QUOTE !in s[..UnitSize(s)]
  {
    if s[0] >= 0x80 && !IsError(DecodeRune(s)) { DecodeIsLocal(s, []); }
  }

  /** Whether a string ends in a quoted key, seen past its first unit. */
  lemma SuffixOfRest(s: bytes, n: nat, key: bytes)
    requires 0 < n <= |s|
    ensures s[0] == QUOTE && n == 1 ==> (EndsInQuoted(s, key) <==> s[n..] == key || EndsInQuoted(s[n..], key))
    ensures QUOTE !in s[..n] ==> (EndsInQuoted(s, key) <==> EndsInQuoted(s[n..], key))
  {
    var j := |s| - |key| - 1;
    if 0 <= j {
      if j >= n {
        assert s[n..][j - n..] == s[j..];
      } else if EndsInQuoted(s, key) {
        assert s[j] == s[j..][0] == QUOTE;
        assert s[j] == s[..n][j];
        assert s[j..][1..] == s[j + 1..];
      } else if j == 0 && s[0] == QUOTE {
        assert s == [s[0]] + s[1..];
      }
    }
    if EndsInQuoted(s[n..], key) {
      assert s[j..] == s[n..][j - n..];
    }
  }

  /** A whole literal: a match in it means it is a hit used as the key of a string-valued member. */
  lemma LiteralScan(s: bytes, rest: bytes, key: bytes)
    requires PlainKey(key) && AfterLiteral(rest)
    ensures Scan(EncodeString(s) + rest, |EncodeString(s)|, key) == KeyHit(s, rest, key)
  {
    LiteralText(s, rest);
    ContentScan(s, rest, key);
    OpenedScan(s, rest, key);
  }

  /** The text up to the next quote of a printed string is a level name only if the string is that name. */
  lemma LevelAtLiteral(s: bytes, rest: bytes)
    ensures LevelAt(Escaped(s) + ([QUOTE] + rest)) == FromName(s)
  {
    assert (Escaped(s) + ([QUOTE] + rest))[|Escaped(s)|] == QUOTE;
    if QUOTE in Escaped(s) {
      BeforeEscapedQuote(s, [QUOTE] + rest);
    } else {
      BeforeClean(Escaped(s), QUOTE, rest);
      Regroup3(Escaped(s), [QUOTE], rest);
      EscapedName(s);
    }
  }

  /** An escaped quote cuts the text off behind a backslash, and neither text is a name. */
  lemma BeforeEscapedQuote(s: bytes, rest: bytes)
    requires QUOTE in Escaped(s)
    ensures FromName(Before(Escaped(s) + rest, QUOTE)) == INFO == FromName(s)
  {
    var e := Escaped(s);
    var b := Before(e, QUOTE);
    BeforeInside(e, rest);
    EscapedIsClean(s);
    assert e[|b|] == QUOTE && b[|b| - 1] == BACKSLASH;
    NotAName(b, BACKSLASH);
    if IsName(s) { NamePrintsAsItself(s); }
    NotANameIsInfo(b);
    NotANameIsInfo(s);
  }

  lemma EscapedName(s: bytes)
    ensures FromName(Escaped(s)) == FromName(s)
  {
    if BACKSLASH in Escaped(s) {
      NotAName(Escaped(s), BACKSLASH);
      NotANameIsInfo(Escaped(s));
      if IsName(s) { NamePrintsAsItself(s); }
      NotANameIsInfo(s);
    } else {
      NoBackslashNoChange(s);
    }
  }

  lemma NotAName(s: bytes, b: byte)
    requires b in s && !(0x41 <= b <= 0x5A)
    ensures !IsName(s)
  {
    if IsName(s) { NamesAreLetters(s); }
  }

  lemma NamePrintsAsItself(s: bytes)
    requires IsName(s)
    ensures Escaped(s) == s && QUOTE !in s && BACKSLASH !in s
  {
    NamesAreLetters(s);
    LettersArePlain(s);
    PlainPrintsAsItself(s);
  }

  lemma {:induction false} LettersArePlain(s: bytes)
    requires forall b | b in s :: 0x41 <= b <= 0x5A
    ensures PlainBytes(s)
  {
    if s != [] {
      assert forall b | b in s[1..] :: b in s;
      LettersArePlain(s[1..]);
      assert s[0] in s;
    }
  }

  lemma {:induction false} BeforeInside(e: bytes, rest: bytes)
    requires QUOTE in e
    ensures Before(e + rest, QUOTE) == Before(e, QUOTE)
  {
    if e[0] != QUOTE {
      assert (e + rest)[1..] == e[1..] + rest;
      BeforeInside(e[1..], rest);
    }
  }

  // ---- the search and the tree agree

  /** Matches that start inside a printed value are exactly the hits of the value. */
  lemma {:induction false} ValueScan(v: Value, rest: bytes, key: bytes)
    requires PlainKey(key) && Ends(rest)
    ensures Scan(EncodeValue(v) + rest, |EncodeValue(v)|, key) == FirstHit(v, key, false)
    decreases v, 1
  {
    if v.List? { ListScan(v, rest, key); } else if v.Map? { MapScan(v, rest, key); } else { LeafScan(v, rest, key); }
  }

  lemma LeafScan(v: Value, rest: bytes, key: bytes)
    requires PlainKey(key) && Ends(rest) && !v.List? && !v.Map?
    ensures Scan(EncodeValue(v) + rest, |EncodeValue(v)|, key) == None
  {
    match v
    case Null => QuietScan(NULL_TEXT, rest, key);
    case Bool(b) => QuietScan(if b then TRUE_TEXT else FALSE_TEXT, rest, key);
    case Int(n) =>
      DecimalShape(if n < 0 then -n else n);
      QuietScan(EncodeInt(n), rest, key);
    case Str(s) => StringValueScan(s, rest, key);
    case Error(msg, _, _) => StringValueScan(msg, rest, key);
    case Strs(ss) =>
      StringsScan(ss, 0, [RBRACKET] + rest, key);
      BracketScan(LBRACKET, EncodeStrings(ss, 0), RBRACKET, EncodeValue(v), rest, key);
  }

  lemma {:induction false} ListScan(v: Value, rest: bytes, key: bytes)
    requires PlainKey(key) && Ends(rest) && v.List?
    ensures Scan(EncodeValue(v) + rest, |EncodeValue(v)|, key) == FirstHit(v, key, false)
    decreases v, 0, |v.vs| + 1
  {
    ElementsScan(v, 0, [RBRACKET] + rest, key);
    BracketScan(LBRACKET, EncodeElements(v, 0), RBRACKET, EncodeValue(v), rest, key);
  }

  lemma {:induction false} MapScan(v: Value, rest: bytes, key: bytes)
    requires PlainKey(key) && Ends(rest) && v.Map?
    ensures Scan(EncodeValue(v) + rest, |EncodeValue(v)|, key) == FirstHit(v, key, false)
    decreases v, 0, |v.m.Keys| + 1
  {
    var ks := SortedKeys(v.m.Keys);
    assert forall k | k in ks :: k in Elements(ks);
    MembersScan(v, ks, 0, [RBRACE] + rest, key);
    BracketScan(LBRACE, EncodeMembers(v, ks, 0), RBRACE, EncodeValue(v), rest, key);
  }

  lemma QuietScan(text: bytes, rest: bytes, key: bytes)
    requires QUOTE !in text
    ensures Scan(text + rest, |text|, key) == None
  {
    ScanSkip(text, rest, 0, key);
  }

  lemma StringValueScan(s: bytes, rest: bytes, key: bytes)
    requires PlainKey(key) && Ends(rest)
    ensures Scan(EncodeString(s) + rest, |EncodeString(s)|, key) == None
  {
    LiteralScan(s, rest, key);
  }

  lemma BracketScan(open: byte, body: bytes, close: byte, whole: bytes, rest: bytes, key: bytes)
    requires open != QUOTE && close != QUOTE && whole == [open] + body + [close]
    ensures Scan(whole + rest, |whole|, key) == Scan(body + ([close] + rest), |body|, key)
  {
    var t := body + ([close] + rest);
    Bracketed(open, body, close, rest);
    ScanSkip([open], t, |body| + 1, key);
    ScanSplit(t, |body|, 1, key);
    assert t[|body|..] == [close] + rest;
    ScanSkip([close], rest, 0, key);
  }

  lemma Regroup(a: bytes, b: bytes, c: bytes, d: bytes)
    ensures a + b + c + d == a + (b + (c + d))
  {
  }

  /** Two adjacent pieces are scanned one after the other. */
  lemma ScanPieces(item: bytes, more: bytes, n: nat, key: bytes, hit: Option<Level>, later: Option<Level>)
    requires n <= |more|
    requires Scan(item + more, |item|, key) == hit && Scan(more, n, key) == later
    ensures Scan(item + more, |item| + n, key) == OrElse(hit, later)
  {
    ScanSplit(item + more, |item|, n, key);
    assert (item + more)[|item|..] == more;
  }

  /** One item of a list, behind its comma. */
  lemma ItemScan(i: nat, item: bytes, more: bytes, whole: bytes, rest: bytes, key: bytes,
                 hit: Option<Level>, later: Option<Level>)
    requires whole == Comma(i) + item + more
    requires Scan(item + (more + rest), |item|, key) == hit && Scan(more + rest, |more|, key) == later
    ensures Scan(whole + rest, |whole|, key) == OrElse(hit, later)
  {
    var t := item + (more + rest);
    Regroup(Comma(i), item, more, rest);
    ScanPieces(item, more + rest, |more|, key, hit, later);
    Behind(Comma(i), t, |item| + |more|, whole + rest, |whole|, key, OrElse(hit, later));
  }

  lemma Behind(quiet: bytes, t: bytes, n: nat, whole: bytes, m: nat, key: bytes, found: Option<Level>)
    requires QUOTE !in quiet && n <= |t| && whole == quiet + t && m == |quiet| + n
    requires Scan(t, n, key) == found
    ensures Scan(whole, m, key) == found
  {
    ScanSkip(quiet, t, n, key);
  }

  lemma EndsAfterItem(i: nat, more: bytes, rest: bytes)
    requires Ends(rest) && (more == [] || more[0] == COMMA)
    ensures Ends(more + rest)
  {
  }

  lemma {:induction false} StringsScan(ss: seq<bytes>, i: nat, rest: bytes, key: bytes)
    requires PlainKey(key) && Ends(rest) && i <= |ss|
    ensures Scan(EncodeStrings(ss, i) + rest, |EncodeStrings(ss, i)|, key) == None
    decreases |ss| - i
  {
    if i < |ss| {
      var more := EncodeStrings(ss, i + 1);
      StringsScan(ss, i + 1, rest, key);
      EndsAfterItem(i, more, rest);
      StringValueScan(ss[i], more + rest, key);
      ItemScan(i, EncodeString(ss[i]), more, EncodeStrings(ss, i), rest, key, None, None);
    }
  }

  lemma {:induction false} ElementsScan(v: Value, i: nat, rest: bytes, key: bytes)
    requires PlainKey(key) && Ends(rest) && v.List? && i <= |v.vs|
    ensures Scan(EncodeElements(v, i) + rest, |EncodeElements(v, i)|, key) == HitInElements(v, i, key, false)
    decreases v, 0, |v.vs| - i
  {
    if i < |v.vs| {
      var more := EncodeElements(v, i + 1);
      ElementsScan(v, i + 1, rest, key);
      EndsAfterItem(i, more, rest);
      ValueScan(v.vs[i], more + rest, key);
      ItemScan(i, EncodeValue(v.vs[i]), more, EncodeElements(v, i), rest, key,
               FirstHit(v.vs[i], key, false), HitInElements(v, i + 1, key, false));
    }
  }

  lemma {:induction false} MembersScan(v: Value, ks: seq<bytes>, i: nat, rest: bytes, key: bytes)
    requires PlainKey(key) && Ends(rest) && v.Map? && i <= |ks| && forall k | k in ks :: k in v.m
    ensures Scan(EncodeMembers(v, ks, i) + rest, |EncodeMembers(v, ks, i)|, key) == HitInMembers(v, ks, i, key, false)
    decreases v, 0, |ks| - i
  {
    if i < |ks| {
      var more := EncodeMembers(v, ks, i + 1);
      MembersScan(v, ks, i + 1, rest, key);
      EndsAfterItem(i, more, rest);
      ValueScan(v.m[ks[i]], more + rest, key);
      MemberScan(ks[i], v.m[ks[i]], more + rest, key);
      ItemScan(i, EncodeMember(ks[i], v.m[ks[i]]), more, EncodeMembers(v, ks, i), rest, key,
               HitInMember(ks[i], v.m[ks[i]], key, false), HitInMembers(v, ks, i + 1, key, false));
    }
  }

  lemma MemberScan(k: bytes, v: Value, rest: bytes, key: bytes)
    requires PlainKey(key) && Ends(rest)
    requires Scan(EncodeValue(v) + rest, |EncodeValue(v)|, key) == FirstHit(v, key, false)
    ensures Scan(EncodeMember(k, v) + rest, |EncodeMember(k, v)|, key) == HitInMember(k, v, key, false)
  {
    var value := EncodeValue(v) + rest;
    var after := [COLON] + value;
    var n := 1 + |EncodeValue(v)|;
    MemberText(k, v, rest);
    LiteralScan(k, after, key);
    Behind([COLON], value, |EncodeValue(v)|, after, n, key, FirstHit(v, key, false));
    KeyHitIsMemberHit(k, v, rest, key);
    Adjacent(EncodeString(k), after, n, key, KeyHit(k, after, key), FirstHit(v, key, false),
             EncodeMember(k, v) + rest, |EncodeMember(k, v)|, HitInMember(k, v, key, false));
  }

  lemma Adjacent(item: bytes, more: bytes, n: nat, key: bytes, hit: Option<Level>, later: Option<Level>,
                 whole: bytes, m: nat, found: Option<Level>)
    requires n <= |more| && Scan(item + more, |item|, key) == hit && Scan(more, n, key) == later
    requires whole == item + more && m == |item| + n && found == OrElse(hit, later)
    ensures Scan(whole, m, key) == found
  {
    ScanPieces(item, more, n, key, hit, later);
  }

  lemma KeyHitIsMemberHit(k: bytes, v: Value, rest: bytes, key: bytes)
    ensures OrElse(KeyHit(k, [COLON] + (EncodeValue(v) + rest), key), FirstHit(v, key, false)) == HitInMember(k, v, key, false)
  {
    KeyHitBehindColon(k, EncodeValue(v) + rest, key);
    ValueText(v, rest);
    if StringText(v).Some? { LevelAtLiteral(StringText(v).value, rest); }
  }

  lemma KeyHitBehindColon(k: bytes, value: bytes, key: bytes)
    requires value != []
    ensures KeyHit(k, [COLON] + value, key) ==
            if IsHit(k, key, false) && value[0] == QUOTE then Some(LevelAt(value[1..])) else None
  {
    var after := [COLON] + value;
    assert after[0] == COLON && after[1] == value[0] && after[2..] == value[1..];
  }

  lemma ValueText(v: Value, rest: bytes)
    ensures var value := EncodeValue(v) + rest;
            && value != [] && (value[0] == QUOTE <==> StringText(v).Some?)
            && (StringText(v).Some? ==> value[1..] == Escaped(StringText(v).value) + ([QUOTE] + rest))
  {
    ValueStartsWithQuote(v, rest);
    assert (EncodeValue(v) + rest)[0] == EncodeValue(v)[0];
    if StringText(v).Some? { LiteralText(StringText(v).value, rest); }
  }

  lemma ValueStartsWithQuote(v: Value, rest: bytes)
    ensures EncodeValue(v) != []
    ensures EncodeValue(v)[0] == QUOTE <==> StringText(v).Some?
  {
    FirstByte(v, rest);
    if v.Int? {
      DecimalShape(if v.n < 0 then -v.n else v.n);
      assert EncodeValue(v)[0] == 0x2D || P.IsDigit(EncodeValue(v)[0]);
    }
  }

  /** The level extracted from an entry's line is the level of the first hit in document order, or INFO. */
  lemma ExtractedIsFirstHit(entry: Fields, key: bytes)
    requires PlainKey(key)
    ensures Scan(Line(entry), |Line(entry)|, key) == FirstHit(Map(entry), key, false)
  {
    ValueScan(Map(entry), [NEWLINE], key);
    var e := EncodeEntry(entry);
    ScanSplit(Line(entry), |e|, 1, key);
    assert Line(entry)[|e|..] == [NEWLINE];
    ScanSkip([NEWLINE], [], 0, key);
    assert [NEWLINE] + [] == [NEWLINE];
  }

  // ---- what this means for the filter

  /** No key anywhere in the tree ends in a quote followed by the level key. */
  predicate NoLookAlikes(v: Value, key: bytes) {
    match v
    case List(vs) => forall x | x in vs :: NoLookAlikes(x, key)
    case Map(m) => forall k | k in m :: !EndsInQuoted(k, key) && NoLookAlikes(m[k], key)
    case _ => true
  }

  /** Without look-alikes the search stops at the first key in document order that equals the level key. */
  lemma {:induction false} HitsAreKeys(v: Value, key: bytes)
    requires NoLookAlikes(v, key)
    ensures FirstHit(v, key, false) == FirstHit(v, key, true)
    decreases v, 1
  {
    match v
    case List(vs) => HitsAreKeysInElements(v, 0, key);
    case Map(m) =>
      var ks := SortedKeys(m.Keys);
      assert forall k | k in ks :: k in Elements(ks);
      HitsAreKeysInMembers(v, ks, 0, key);
    case _ =>
  }

  lemma {:induction false} HitsAreKeysInElements(v: Value, i: nat, key: bytes)
    requires v.List? && i <= |v.vs| && NoLookAlikes(v, key)
    ensures HitInElements(v, i, key, false) == HitInElements(v, i, key, true)
    decreases v, 0, |v.vs| - i
  {
    if i < |v.vs| {
      HitsAreKeys(v.vs[i], key);
      HitsAreKeysInElements(v, i + 1, key);
    }
  }

  lemma {:induction false} HitsAreKeysInMembers(v: Value, ks: seq<bytes>, i: nat, key: bytes)
    requires v.Map? && i <= |ks| && (forall k | k in ks :: k in v.m) && NoLookAlikes(v, key)
    ensures HitInMembers(v, ks, i, key, false) == HitInMembers(v, ks, i, key, true)
    decreases v, 0, |ks| - i
  {
    if i < |ks| {
      HitsAreKeys(v.m[ks[i]], key);
      HitsAreKeysInMembers(v, ks, i + 1, key);
    }
  }

  /** The search and the structure agree: the first match is the first such key with a string value. */
  lemma ExtractedIsFirstKey(entry: Fields, key: bytes)
    requires PlainKey(key) && NoLookAlikes(Map(entry), key)
    ensures Scan(Line(entry), |Line(entry)|, key) == FirstHit(Map(entry), key, true)
  {
    ExtractedIsFirstHit(entry, key);
    HitsAreKeys(Map(entry), key);
  }

  /** What a search finds before it reaches the top-level level key: the hits under smaller keys. */
  ghost function EarlierHit(entry: Fields, key: bytes): Option<Level> {
    var before := SortedKeys(SmallerKeys(entry.Keys, key));
    assert forall k | k in before :: k in Elements(before);
    HitInMembers(Map(entry), before, 0, key, false)
  }

  function SmallerKeys(all: set<bytes>, key: bytes): set<bytes> {
    set k | k in all && Less(k, key)
  }

  /**
   The filter reads the level an entry was logged at exactly when nothing before the level key, in document order,
   looks like it, or what does happens to name the same level.
   */
  lemma LevelRecoveredIff(entry: Fields, key: bytes, l: Level)
    requires PlainKey(key) && TRACE <= l <= FATAL
    requires key in entry && entry[key] == Str(Name(l))
    ensures LevelIn(Line(entry), key) == l <==>
            EarlierHit(entry, key) == None || EarlierHit(entry, key) == Some(l)
  {
    ExtractedIsFirstHit(entry, key);
    EarlierHitThenOwn(entry, key, l);
  }

  lemma EarlierHitThenOwn(entry: Fields, key: bytes, l: Level)
    requires key in entry && entry[key] == Str(Name(l)) && TRACE <= l <= FATAL
    ensures FirstHit(Map(entry), key, false) == OrElse(EarlierHit(entry, key), Some(l))
  {
    var ks := SortedKeys(entry.Keys);
    assert forall k | k in ks :: k in Elements(ks);
    assert key in Elements(ks);
    var j: nat :| j < |ks| && ks[j] == key;
    EarlierHitIsPrefix(entry, ks, j);
    HitSplit(Map(entry), ks, j, key);
    OwnHit(Map(entry), ks, j, key, l);
  }

  lemma EarlierHitIsPrefix(entry: Fields, ks: seq<bytes>, j: nat)
    requires ks == SortedKeys(entry.Keys) && j < |ks| && forall k | k in ks :: k in entry
    ensures EarlierHit(entry, ks[j]) == HitInMembers(Map(entry), ks[..j], 0, ks[j], false)
  {
    KeysBefore(entry.Keys, ks, j);
  }

  lemma OwnHit(v: Value, ks: seq<bytes>, j: nat, key: bytes, l: Level)
    requires v.Map? && j < |ks| && ks[j] == key && forall k | k in ks :: k in v.m
    requires v.m[key] == Str(Name(l)) && TRACE <= l <= FATAL
    ensures HitInMembers(v, ks, j, key, false) == Some(l)
  {
    FromNameOfName(l);
    assert HitInMember(key, v.m[key], key, false) == Some(l);
  }

  lemma KeysBefore(all: set<bytes>, ks: seq<bytes>, j: nat)
    requires ks == SortedKeys(all) && j < |ks|
    ensures SortedKeys(SmallerKeys(all, ks[j])) == ks[..j]
  {
    var before := SmallerKeys(all, ks[j]);
    forall k ensures k in ks[..j] <==> k in before {
      InPrefix(ks, j, k);
      assert k in Elements(ks) <==> k in ks;
    }
    assert Elements(ks[..j]) == before;
    SortedUnique(SortedKeys(before), ks[..j]);
  }

  lemma InPrefix(ks: seq<bytes>, j: nat, k: bytes)
    requires StrictlySorted(ks) && j < |ks|
    ensures k in ks[..j] <==> k in ks && Less(k, ks[j])
  {
    if k in ks && Less(k, ks[j]) {
      var i :| 0 <= i < |ks| && ks[i] == k;
      LessIrreflexive(k);
      if i > j { LessTransitive(k, ks[j], k); }
      assert ks[..j][i] == k;
    }
  }

  lemma {:induction false} HitSplit(v: Value, ks: seq<bytes>, j: nat, key: bytes)
    requires v.Map? && j <= |ks| && forall k | k in ks :: k in v.m
    ensures HitInMembers(v, ks, 0, key, false) ==
            OrElse(HitInMembers(v, ks[..j], 0, key, false), HitInMembers(v, ks, j, key, false))
  {
    HitSplitFrom(v, ks, 0, j, key);
  }

  lemma {:induction false} HitSplitFrom(v: Value, ks: seq<bytes>, i: nat, j: nat, key: bytes)
    requires v.Map? && i <= j <= |ks| && forall k | k in ks :: k in v.m
    ensures HitInMembers(v, ks, i, key, false) ==
            OrElse(HitInMembers(v, ks[..j], i, key, false), HitInMembers(v, ks, j, key, false))
    decreases j - i
  {
    if i < j { HitSplitFrom(v, ks, i + 1, j, key); }
  }

  /** No key anywhere in the tree is the level key or a look-alike of it. */
  predicate NoHits(v: Value, key: bytes) {
    match v
    case List(vs) => forall x | x in vs :: NoHits(x, key)
    case Map(m) => forall k | k in m :: !IsHit(k, key, false) && NoHits(m[k], key)
    case _ => true
  }

  lemma {:induction false} NoHitsNoneFound(v: Value, key: bytes)
    requires NoHits(v, key)
    ensures FirstHit(v, key, false) == None
    decreases v, 1
  {
    match v
    case List(vs) => NoHitsInElements(v, 0, key);
    case Map(m) =>
      var ks := SortedKeys(m.Keys);
      assert forall k | k in ks :: k in Elements(ks);
      NoHitsInMembers(v, ks, 0, key);
    case _ =>
  }

  lemma {:induction false} NoHitsInElements(v: Value, i: nat, key: bytes)
    requires v.List? && i <= |v.vs| && NoHits(v, key)
    ensures HitInElements(v, i, key, false) == None
    decreases v, 0, |v.vs| - i
  {
    if i < |v.vs| {
      NoHitsNoneFound(v.vs[i], key);
      NoHitsInElements(v, i + 1, key);
    }
  }

  lemma {:induction false} NoHitsInMembers(v: Value, ks: seq<bytes>, i: nat, key: bytes)
    requires v.Map? && i <= |ks|
    requires forall k | k in ks :: k in v.m && !IsHit(k, key, false) && NoHits(v.m[k], key)
    ensures HitInMembers(v, ks, i, key, false) == None
    decreases v, 0, |ks| - i
  {
    if i < |ks| {
      NoHitsNoneFound(v.m[ks[i]], key);
      NoHitsInMembers(v, ks, i + 1, key);
    }
  }

  /** An entry in which nothing in front of the level key, in document order, could be taken for it: no smaller key ends in
      a quote and the level key, and no value under a smaller key holds such a key or the level key itself. */
  predicate LevelKeyIsFirst(entry: Fields, key: bytes) {
    NoHitsBelow(entry, key, key)
  }

  /** No key of the entry smaller than `bound` is a hit or holds one. */
  predicate NoHitsBelow(entry: Fields, bound: bytes, key: bytes) {
    forall k | k in entry && Less(k, bound) :: !IsHit(k, key, false) && NoHits(entry[k], key)
  }

  /** For such an entry the filter reads the level that was logged. */
  lemma LevelRecovered(entry: Fields, key: bytes, l: Level)
    requires PlainKey(key) && TRACE <= l <= FATAL
    requires key in entry && entry[key] == Str(Name(l)) && LevelKeyIsFirst(entry, key)
    ensures LevelIn(Line(entry), key) == l
  {
    LevelRecoveredIff(entry, key, l);
    var before := SortedKeys(SmallerKeys(entry.Keys, key));
    assert forall k | k in before :: k in Elements(before);
    NoHitsInMembers(Map(entry), before, 0, key);
  }

  /**
   User data can decide instead: the first map under a smaller key that holds the level key with a string makes the filter
   take the entry for the level named there, whatever level it was logged at.
   */
  lemma NestedLevelHijacks(entry: Fields, key: bytes, outer: bytes, nested: Level)
    requires PlainKey(key) && outer in entry && Less(outer, key) && entry[outer].Map?
    requires FirstHit(entry[outer], key, false) == Some(nested) && NoHitsBelow(entry, outer, key)
    ensures LevelIn(Line(entry), key) == nested
  {
    ExtractedIsFirstHit(entry, key);
    var ks := SortedKeys(entry.Keys);
    assert forall k | k in ks :: k in Elements(ks);
    assert outer in Elements(ks);
    var j: nat :| j < |ks| && ks[j] == outer;
    HitSplit(Map(entry), ks, j, key);
    forall k | k in ks[..j] ensures k in ks && Less(k, outer) { InPrefix(ks, j, k); }
    NoHitsInMembers(Map(entry), ks[..j], 0, key);
    assert HitInMember(outer, entry[outer], key, false) == Some(nested);
  }

  lemma Singleton(k: bytes)
    ensures SortedKeys({k}) == [k]
  {
    SortedUnique(SortedKeys({k}), [k]);
  }

  /** A map that holds nothing but a level under the level key. */
  lemma LevelMapHit(key: bytes, l: Level)
    requires TRACE <= l <= FATAL
    ensures FirstHit(Map(map[key := Str(Name(l))]), key, false) == Some(l)
  {
    var m: Fields := map[key := Str(Name(l))];
    Singleton(key);
    OwnHit(Map(m), [key], 0, key, l);
    assert m.Keys == {key};
  }

  // ---- lines without a readable level

  /** The first occurrence of the pattern. */
  predicate FirstAt(p: bytes, key: bytes, i: nat) {
    OccursAt(Pattern(key), p, i) && forall j: nat | j < i :: !OccursAt(Pattern(key), p, j)
  }

  /** The pattern does not occur, or no quote follows its first occurrence, or what stands before that quote names no level. */
  ghost predicate Unreadable(p: bytes, key: bytes) {
    || (forall i: nat | i <= |p| :: !OccursAt(Pattern(key), p, i))
    || exists i: nat | i <= |p| && FirstAt(p, key, i) ::
         var rest := p[i..][|Pattern(key)|..]; QUOTE !in rest || !IsName(Before(rest, QUOTE))
  }

  lemma UnreadableIsInfo(p: bytes, key: bytes)
    requires Unreadable(p, key)
    ensures LevelIn(p, key) == INFO
  {
    if forall i: nat | i <= |p| :: !OccursAt(Pattern(key), p, i) {
      NotFound(p, |p|, key);
    } else {
      var i: nat :| i <= |p| && FirstAt(p, key, i) &&
                    (var rest := p[i..][|Pattern(key)|..]; QUOTE !in rest || !IsName(Before(rest, QUOTE)));
      Found(p, |p|, key, i);
      NotANameIsInfo(Before(p[i..][|Pattern(key)|..], QUOTE));
    }
  }

  lemma {:induction false} FirstOccurrence(p: bytes, key: bytes, i: nat) returns (first: nat)
    requires i <= |p| && OccursAt(Pattern(key), p, i)
    ensures first <= i && FirstAt(p, key, first)
  {
    if j: nat :| j < i && OccursAt(Pattern(key), p, j) {
      first := FirstOccurrence(p, key, j);
    } else {
      first := i;
    }
  }

  /** Every other line has the level it names. */
  lemma ReadableIsNamed(p: bytes, key: bytes) returns (i: nat)
    requires !Unreadable(p, key)
    ensures i <= |p| && FirstAt(p, key, i)
    ensures var rest := p[i..][|Pattern(key)|..];
            QUOTE in rest && IsName(Before(rest, QUOTE)) && LevelIn(p, key) == FromName(Before(rest, QUOTE))
  {
    var k: nat :| k <= |p| && OccursAt(Pattern(key), p, k);
    i := FirstOccurrence(p, key, k);
    Found(p, |p|, key, i);
  }
}
