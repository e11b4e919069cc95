/** formatter.go: the logfmt printer, and a parser for what it prints. Values are given as their `%v` text. */
module Logfmt {
  import opened Bytes
  import opened OrderedWrites
  import KeyMaps

  type Rendered = map<bytes, bytes>

  /** The characters that force quoting. */
  predicate Special(c: byte) {
    c <= SPACE || c == QUOTE || c == EQUALS || c == BACKSLASH
  }

  predicate NeedsQuoting(s: bytes) {
    s == [] || exists c :: c in s && Special(c)
  }

  /** needsLogfmtQuoting. */
  method NeedsLogfmtQuoting(s: bytes) returns (b: bool)
    ensures b <==> NeedsQuoting(s)
  {
    if s == [] { return true; }
    for i := 0 to |s|
      invariant forall j | 0 <= j < i :: !Special(s[j])
    {
      var c := s[i];
      assert c in s;
      assert Special(c) <==> c <= SPACE || c == QUOTE || c == EQUALS || c == BACKSLASH;
      if c <= SPACE || c == QUOTE || c == EQUALS || c == BACKSLASH { return true; }
    }
    return false;
  }

  function EscapeQuotes(s: bytes): bytes {
    ReplaceByte(s, QUOTE, [BACKSLASH, QUOTE])
  }

  function ValueText(v: bytes): bytes {
    if NeedsQuoting(v) then [QUOTE] + EscapeQuotes(v) + [QUOTE] else v
  }

  function PairText(k: bytes, v: bytes): bytes {
    k + [EQUALS] + ValueText(v)
  }

  /** Bare are exactly the nonempty values without controls, spaces, quotes, equals signs and backslashes; all others stand
      between quotes, with a backslash before every quote of their own. */
  lemma PrintedBareIff(v: bytes)
    ensures ValueText(v) == v <==> v != [] && forall c | c in v :: c > 0x20 && c != 0x22 && c != 0x3D && c != 0x5C
    ensures ValueText(v) != v ==> ValueText(v) == [0x22] + ReplaceByte(v, 0x22, [0x5C, 0x22]) + [0x22]
  {
    ReplaceGrows(v, QUOTE, [BACKSLASH, QUOTE]);
    assert |[QUOTE] + EscapeQuotes(v) + [QUOTE]| > |v|;
  }

  /** appendLogfmtPair. */
  method AppendLogfmtPair(buf: bytes, key: bytes, s: bytes) returns (out: bytes)
    ensures out == buf + PairText(key, s)
  {
    out := buf + key;
    out := out + [EQUALS];
    var quote := NeedsLogfmtQuoting(s);
    if quote {
      out := out + [QUOTE];
      out := out + EscapeQuotes(s);
      out := out + [QUOTE];
    } else {
      out := out + s;
    }
  }

  /** The core keys, in the order they are printed. */
  const CORE_ORDER: seq<bytes> := [B("time"), B("level"), B("message"), B("file")]

  /** The keys of `core` from index `i` on that the entry holds. */
  function CoreKeys(entry: Rendered, core: seq<bytes>, i: nat): seq<bytes>
    requires i <= |core|
    decreases |core| - i
  {
    if i == |core| then [] else (if core[i] in entry then [core[i]] else []) + CoreKeys(entry, core, i + 1)
  }

  ghost function ExtraKeys(entry: Rendered, core: seq<bytes>): seq<bytes> {
    SortedKeys(entry.Keys - Elements(core))
  }

  /** The order in which the pairs of an entry are printed. */
  ghost function PrintOrder(entry: Rendered, core: seq<bytes>): seq<bytes> {
    CoreKeys(entry, core, 0) + ExtraKeys(entry, core)
  }

  /** The pairs under the keys `ks` from index `i` on, each but the very first behind a space. */
  function PairsText(entry: Rendered, ks: seq<bytes>, i: nat): bytes
    requires i <= |ks| && forall k | k in ks :: k in entry
    decreases |ks| - i
  {
    if i == |ks| then [] else Space(i) + PairText(ks[i], entry[ks[i]]) + PairsText(entry, ks, i + 1)
  }

  function Space(i: nat): bytes {
    if i > 0 then [SPACE] else []
  }

  /** The text of the first `i` pairs, as the printing loops build it. */
  function Printed(entry: Rendered, ks: seq<bytes>, i: nat): bytes
    requires i <= |ks| && forall k | k in ks :: k in entry
  {
    if i == 0 then [] else Printed(entry, ks, i - 1) + Space(i - 1) + PairText(ks[i - 1], entry[ks[i - 1]])
  }

  lemma {:induction false} PrintedAll(entry: Rendered, ks: seq<bytes>, i: nat)
    requires i <= |ks| && forall k | k in ks :: k in entry
    ensures Printed(entry, ks, |ks|) == Printed(entry, ks, i) + PairsText(entry, ks, i)
    decreases |ks| - i
  {
    if i < |ks| {
      PrintedAll(entry, ks, i + 1);
      Regroup(Printed(entry, ks, i), Space(i), PairText(ks[i], entry[ks[i]]), PairsText(entry, ks, i + 1));
    }
  }

  lemma Regroup(a: bytes, b: bytes, c: bytes, d: bytes)
    ensures a + b + c + d == a + (b + c + d)
  {
  }

  lemma {:induction false} PrintedNonempty(entry: Rendered, ks: seq<bytes>, i: nat)
    requires i <= |ks| && forall k | k in ks :: k in entry
    ensures Printed(entry, ks, i) == [] <==> i == 0
  {
  }

  lemma {:induction false} CoreKeysIn(entry: Rendered, core: seq<bytes>, i: nat)
    requires i <= |core|
    ensures forall k :: k in CoreKeys(entry, core, i) <==> k in core[i..] && k in entry
    decreases |core| - i
  {
    if i < |core| {
      CoreKeysIn(entry, core, i + 1);
      assert core[i..] == [core[i]] + core[i + 1..];
    }
  }

  lemma InElements(ks: seq<bytes>)
    ensures forall k :: k in ks <==> k in Elements(ks)
  {
  }

  lemma PrintOrderKeys(entry: Rendered, core: seq<bytes>)
    ensures forall k :: k in PrintOrder(entry, core) <==> k in entry
    ensures forall k :: k in CoreKeys(entry, core, 0) <==> k in core && k in entry
    ensures forall k :: k in ExtraKeys(entry, core) <==> k in entry && k !in core
  {
    CoreKeysIn(entry, core, 0);
    assert core[0..] == core;
    InElements(ExtraKeys(entry, core));
    InElements(core);
  }

  ghost function TextInOrder(entry: Rendered, core: seq<bytes>): bytes {
    PrintOrderKeys(entry, core);
    PairsText(entry, PrintOrder(entry, core), 0)
  }

  ghost function LineText(entry: Rendered): bytes {
    TextInOrder(entry, CORE_ORDER)
  }

  /** `ks` is the core keys of the entry followed by `extra`. */
  ghost predicate Layout(entry: Rendered, ks: seq<bytes>, n: nat, extra: seq<bytes>) {
    && |ks| == n + |extra|
    && (forall i | 0 <= i < |extra| :: ks[n + i] == extra[i])
    && forall k | k in ks :: k in entry
  }

  /** LogfmtFormatter.Format on an entry whose keys have been remapped. */
  method FormatEntry(entry: Rendered) returns (line: bytes)
    ensures line == LineText(entry)
  {
    line := FormatInOrder(entry, CORE_ORDER);
  }

  method FormatInOrder(entry: Rendered, core: seq<bytes>) returns (line: bytes)
    ensures line == TextInOrder(entry, core)
  {
    ghost var first, ks := CoreKeys(entry, core, 0), PrintOrder(entry, core);
    OrderIsLaidOut(entry, core, first, ks);
    var written;
    line, written := PrintCore(entry, core, first, ks);
    var extra := SortedExtras(entry, core, written);
    line := PrintExtras(entry, ks, |first|, extra, line);
    PrintedIsText(entry, core, ks);
  }

  lemma OrderIsLaidOut(entry: Rendered, core: seq<bytes>, first: seq<bytes>, ks: seq<bytes>)
    requires first == CoreKeys(entry, core, 0) && ks == PrintOrder(entry, core)
    ensures first <= ks && Layout(entry, ks, |first|, ExtraKeys(entry, core))
  {
    PrintOrderKeys(entry, core);
  }

  lemma PrintedIsText(entry: Rendered, core: seq<bytes>, ks: seq<bytes>)
    requires ks == PrintOrder(entry, core) && forall k | k in ks :: k in entry
    ensures Printed(entry, ks, |ks|) == TextInOrder(entry, core)
  {
    AllPrinted(entry, ks);
  }

  lemma AllPrinted(entry: Rendered, ks: seq<bytes>)
    requires forall k | k in ks :: k in entry
    ensures Printed(entry, ks, |ks|) == PairsText(entry, ks, 0)
  {
    PrintedAll(entry, ks, 0);
    assert [] + PairsText(entry, ks, 0) == PairsText(entry, ks, 0);
  }

  /** One iteration of either printing loop. */
  method PrintPair(entry: Rendered, ghost ks: seq<bytes>, ghost n: nat, line: bytes, k: bytes) returns (r: bytes)
    requires forall x | x in ks :: x in entry
    requires n < |ks| && ks[n] == k && k in entry && line == Printed(entry, ks, n)
    ensures r == Printed(entry, ks, n + 1)
  {
    PrintedNonempty(entry, ks, n);
    r := line;
    if |r| > 0 { r := r + [SPACE]; }
    r := AppendLogfmtPair(r, k, entry[k]);
  }

  /** The loop over the core keys. */
  method PrintCore(entry: Rendered, core: seq<bytes>, ghost first: seq<bytes>, ghost ks: seq<bytes>)
    returns (line: bytes, written: set<bytes>)
    requires first == CoreKeys(entry, core, 0) && first <= ks && forall k | k in ks :: k in entry
    ensures line == Printed(entry, ks, |first|)
    ensures written == Elements(core) * entry.Keys
  {
    line, written := [], {};
    ghost var n := 0;
    assert CoreDone(entry, core, first, 0, 0, {}) by { assert first[0..] == first && Elements(core[..0]) == {}; }
    hide CoreDone, PairText, Space;
    for i := 0 to |core|
      invariant CoreDone(entry, core, first, i, n, written)
      invariant line == Printed(entry, ks, n)
    {
      var k := core[i];
      CoreStep(entry, core, first, i, n, written);
      if k in entry {
        line := PrintPair(entry, ks, n, line, k);
        written := written + {k};
        n := n + 1;
      }
    }
    CoreEnd(entry, core, first, n, written);
  }

  /** After `i` core keys, `n` pairs are printed and `written` holds their keys. */
  ghost predicate CoreDone(entry: Rendered, core: seq<bytes>, first: seq<bytes>, i: nat, n: nat, written: set<bytes>) {
    i <= |core| && n <= |first| && first[n..] == CoreKeys(entry, core, i) && written == Elements(core[..i]) * entry.Keys
  }

  lemma CoreStep(entry: Rendered, core: seq<bytes>, first: seq<bytes>, i: nat, n: nat, written: set<bytes>)
    requires i < |core| && CoreDone(entry, core, first, i, n, written)
    ensures core[i] in entry ==>
              n < |first| && first[n] == core[i] && CoreDone(entry, core, first, i + 1, n + 1, written + {core[i]})
    ensures core[i] !in entry ==> CoreDone(entry, core, first, i + 1, n, written)
  {
    var k := core[i];
    assert Elements(core[..i + 1]) == Elements(core[..i]) + {k};
    if k in entry {
      assert first[n..][0] == k && first[n + 1..] == first[n..][1..];
    } else {
      assert [] + CoreKeys(entry, core, i + 1) == CoreKeys(entry, core, i + 1);
    }
  }

  lemma CoreEnd(entry: Rendered, core: seq<bytes>, first: seq<bytes>, n: nat, written: set<bytes>)
    requires CoreDone(entry, core, first, |core|, n, written)
    ensures n == |first| && written == Elements(core) * entry.Keys
  {
    assert core[..|core|] == core;
  }

  /** Collecting the remaining keys in map order, and sorting them. */
  method SortedExtras(entry: Rendered, ghost core: seq<bytes>, written: set<bytes>) returns (extra: seq<bytes>)
    requires written == Elements(core) * entry.Keys
    ensures extra == ExtraKeys(entry, core)
  {
    var keys: seq<bytes> := [];
    var todo := entry.Keys;
    while todo != {}
      invariant Gathered(keys, entry.Keys, todo, written)
      decreases todo
    {
      var k :| k in todo;
      GatherStep(keys, entry.Keys, todo, written, k);
      if k !in written {
        keys := keys + [k];
      }
      todo := todo - {k};
    }
    assert entry.Keys - {} - written == entry.Keys - Elements(core);
    extra := SortStrings(keys);
  }

  /** `keys` are the keys already visited, less those written before, each once. */
  ghost predicate Gathered(keys: seq<bytes>, all: set<bytes>, todo: set<bytes>, written: set<bytes>) {
    todo <= all && Elements(keys) == all - todo - written && |Elements(keys)| == |keys|
  }

  lemma GatherStep(keys: seq<bytes>, all: set<bytes>, todo: set<bytes>, written: set<bytes>, k: bytes)
    requires Gathered(keys, all, todo, written) && k in todo
    ensures Gathered(if k in written then keys else keys + [k], all, todo - {k}, written)
  {
    if k in written {
      assert all - (todo - {k}) - written == all - todo - written;
    } else {
      ElementsAppend(keys, k);
    }
  }

  /** The loop over the other keys, behind the first `n` pairs. */
  method PrintExtras(entry: Rendered, ghost ks: seq<bytes>, ghost n: nat, extra: seq<bytes>, start: bytes)
    returns (line: bytes)
    requires Layout(entry, ks, n, extra)
    requires start == Printed(entry, ks, n)
    ensures line == Printed(entry, ks, |ks|)
  {
    line := start;
    for i := 0 to |extra|
      invariant line == Printed(entry, ks, n + i)
    {
      line := PrintPair(entry, ks, n + i, line, extra[i]);
    }
  }

  /** Format with its key map. */
  method Format(entry: Rendered, keyMap: map<bytes, bytes>) returns (line: bytes)
    ensures exists mapped :: KeyMaps.IsMapped(entry, keyMap, mapped) && line == LineText(mapped)
  {
    var mapped := entry;
    if |keyMap| > 0 {
      mapped := KeyMaps.ApplyKeyMap(entry, keyMap);
    }
    line := FormatEntry(mapped);
  }

  lemma OrderShape(entry: Rendered, core: seq<bytes>)
    requires Distinct(core)
    ensures Visits(PrintOrder(entry, core), entry.Keys)
    ensures Distinct(CoreKeys(entry, core, 0)) && InOrder(CoreKeys(entry, core, 0), core)
    ensures forall k :: k in CoreKeys(entry, core, 0) <==> k in core && k in entry
    ensures StrictlySorted(ExtraKeys(entry, core)) && forall k | k in ExtraKeys(entry, core) :: k !in core
  {
    PrintOrderKeys(entry, core);
    CoreKeysShape(entry, core, 0);
    assert core[0..] == core;
    var first, extra := CoreKeys(entry, core, 0), ExtraKeys(entry, core);
    DistinctSize(first);
    VisitsSplit(first, extra, entry.Keys);
  }

  /** Every key is printed once: time, level, message and file first, in that order as far as the entry has them, and then
      the others in increasing order. */
  lemma PrintOrderShape(entry: Rendered)
    ensures Visits(PrintOrder(entry, CORE_ORDER), entry.Keys)
    ensures PrintOrder(entry, CORE_ORDER) == CoreKeys(entry, CORE_ORDER, 0) + ExtraKeys(entry, CORE_ORDER)
    ensures var core, first := [B("time"), B("level"), B("message"), B("file")], CoreKeys(entry, CORE_ORDER, 0);
            && Distinct(first) && InOrder(first, core) && (forall k :: k in first <==> k in core && k in entry)
            && ((forall k | k in core :: k in entry) ==> first == core)
    ensures StrictlySorted(ExtraKeys(entry, CORE_ORDER))
    ensures forall k | k in ExtraKeys(entry, CORE_ORDER) :: k !in [B("time"), B("level"), B("message"), B("file")]
  {
    var core := [B("time"), B("level"), B("message"), B("file")];
    CoreDistinct();
    OrderShape(entry, core);
    if forall k | k in core :: k in entry { AllCore(entry, core, 0); }
  }

  lemma {:induction false} AllCore(entry: Rendered, core: seq<bytes>, i: nat)
    requires i <= |core| && forall k | k in core :: k in entry
    ensures CoreKeys(entry, core, i) == core[i..]
    decreases |core| - i
  {
    if i < |core| { AllCore(entry, core, i + 1); }
  }

  lemma VisitsSplit(a: seq<bytes>, b: seq<bytes>, all: set<bytes>)
    requires |Elements(a)| == |a| && |Elements(b)| == |b|
    requires (forall k :: k in a + b <==> k in all) && forall k :: !(k in a && k in b)
    ensures Visits(a + b, all)
  {
    SizeOfSplit(a, b, all);
    InElements(a + b);
    assert Elements(a + b) == all;
  }

  predicate Distinct(ks: seq<bytes>) {
    forall i, j | 0 <= i < j < |ks| :: ks[i] != ks[j]
  }

  /** `a` is what is left of `b` after leaving out some of its elements. */
  predicate InOrder(a: seq<bytes>, b: seq<bytes>) {
    a == [] || (b != [] && if a[0] == b[0] then InOrder(a[1..], b[1..]) else InOrder(a, b[1..]))
  }

  lemma {:induction false} CoreKeysShape(entry: Rendered, core: seq<bytes>, i: nat)
    requires Distinct(core) && i <= |core|
    ensures Distinct(CoreKeys(entry, core, i)) && InOrder(CoreKeys(entry, core, i), core[i..])
    decreases |core| - i
  {
    if i < |core| {
      CoreKeysShape(entry, core, i + 1);
      CoreKeysIn(entry, core, i + 1);
      var rest := CoreKeys(entry, core, i + 1);
      assert core[i] !in core[i + 1..];
      assert core[i..] == [core[i]] + core[i + 1..];
      if core[i] in entry {
        InOrderSame(core[i], rest, core[i + 1..]);
      } else {
        assert [] + rest == rest;
        InOrderSkip(core[i], rest, core[i + 1..]);
      }
    }
  }

  lemma InOrderSame(k: bytes, a: seq<bytes>, b: seq<bytes>)
    requires InOrder(a, b) && Distinct(a) && k !in a
    ensures InOrder([k] + a, [k] + b) && Distinct([k] + a)
  {
    assert ([k] + a)[1..] == a && ([k] + b)[1..] == b;
  }

  lemma InOrderSkip(k: bytes, a: seq<bytes>, b: seq<bytes>)
    requires InOrder(a, b) && k !in a
    ensures InOrder(a, [k] + b)
  {
    assert ([k] + b)[1..] == b;
    assert a != [] ==> a[0] in a;
  }

  lemma {:induction false} DistinctSize(ks: seq<bytes>)
    requires Distinct(ks)
    ensures |Elements(ks)| == |ks|
  {
    if ks != [] {
      DistinctSize(ks[1..]);
      assert ks[0] !in ks[1..];
      assert ks == [ks[0]] + ks[1..];
      assert Elements(ks) == {ks[0]} + Elements(ks[1..]);
    }
  }

  lemma SizeOfSplit(a: seq<bytes>, b: seq<bytes>, all: set<bytes>)
    requires |Elements(a)| == |a| && |Elements(b)| == |b|
    requires (forall k :: k in a + b <==> k in all) && forall k :: !(k in a && k in b)
    ensures |a + b| == |all|
  {
    assert forall k :: k in a + b <==> k in a || k in b;
    InElements(a);
    InElements(b);
    assert all == Elements(a) + Elements(b) && Elements(a) !! Elements(b);
  }

  lemma CoreDistinct()
    ensures Distinct(CORE_ORDER)
  {
    assert CORE_ORDER[0][0] == 0x74 && CORE_ORDER[1][0] == 0x6C && CORE_ORDER[2][0] == 0x6D && CORE_ORDER[3][0] == 0x66;
  }

  // ---- reading a line back

  datatype Pair = Pair(key: bytes, value: bytes)

  /** The rest of a quoted value: only backslash-quote is an escape. */
  function ParseQuoted(t: bytes): Option<(bytes, bytes)> {
    if t == [] then None
    else if t[0] == QUOTE then Some(([], t[1..]))
    else if t[0] == BACKSLASH && |t| > 1 && t[1] == QUOTE then Prepend([QUOTE], ParseQuoted(t[2..]))
    else Prepend([t[0]], ParseQuoted(t[1..]))
  }

  function Prepend(s: bytes, r: Option<(bytes, bytes)>): Option<(bytes, bytes)> {
    match r case None => None case Some(p) => Some((s + p.0, p.1))
  }

  function ParseValue(t: bytes): Option<(bytes, bytes)> {
    if t != [] && t[0] == QUOTE then ParseQuoted(t[1..])
    else Some((Before(t, SPACE), t[|Before(t, SPACE)|..]))
  }

  /** One pair: the key runs to the first equals sign. */
  function ParsePair(t: bytes): Option<(Pair, bytes)> {
    if EQUALS !in t then None else
      var k := Before(t, EQUALS);
      match ParseValue(t[|k| + 1..])
      case None => None
      case Some(r) => Some((Pair(k, r.0), r.1))
  }

  function ParseLine(t: bytes): Option<seq<Pair>>
    decreases |t|
  {
    if t == [] then Some([]) else
      match ParsePair(t)
      case None => None
      case Some(r) =>
        if r.1 == [] then Some([r.0])
        else if r.1[0] != SPACE || |r.1| >= |t| then None
        else match ParseLine(r.1[1..]) case None => None case Some(ps) => Some([r.0] + ps)
  }

  // ---- one pair

  predicate EndsInBackslash(v: bytes) {
    v != [] && v[|v| - 1] == BACKSLASH
  }

  /** Unescaping undoes the quote escaping, as long as a final backslash is not run into a quote. */
  lemma {:induction false} QuotedParses(v: bytes, x: bytes)
    requires !(EndsInBackslash(v) && x != [] && x[0] == QUOTE)
    ensures ParseQuoted(EscapeQuotes(v) + x) == Prepend(v, ParseQuoted(x))
  {
    var t := EscapeQuotes(v) + x;
    if v == [] {
      assert t == x;
      match ParseQuoted(x) case None => case Some(p) => assert [] + p.0 == p.0;
    } else {
      var more := EscapeQuotes(v[1..]) + x;
      QuotedParses(v[1..], x);
      PrependTwice([v[0]], v[1..], ParseQuoted(x));
      assert [v[0]] + v[1..] == v;
      if v[0] == QUOTE {
        assert t == [BACKSLASH, QUOTE] + more;
        assert t[2..] == more;
      } else {
        assert t == [v[0]] + more;
        assert t[1..] == more;
        assert |t| > 1 ==> t[1] == more[0];
        if v[0] == BACKSLASH { NoQuoteAhead(v, x); }
      }
    }
  }

  lemma NoQuoteAhead(v: bytes, x: bytes)
    requires v != [] && v[0] == BACKSLASH && !(EndsInBackslash(v) && x != [] && x[0] == QUOTE)
    ensures var more := EscapeQuotes(v[1..]) + x; more == [] || more[0] != QUOTE
  {
    if |v| > 1 {
      assert EscapeQuotes(v[1..])[0] == if v[1] == QUOTE then BACKSLASH else v[1];
    } else {
      assert EscapeQuotes(v[1..]) + x == x;
    }
  }

  lemma PrependTwice(a: bytes, b: bytes, r: Option<(bytes, bytes)>)
    ensures Prepend(a, Prepend(b, r)) == Prepend(a + b, r)
  {
    match r case None => case Some(p) => assert a + (b + p.0) == a + b + p.0;
  }

  /** Per value: inside quotes, removing the escapes gives the value back, with no condition on it. */
  function Unescape(s: bytes): bytes {
    if s == [] then []
    else if s[0] == BACKSLASH && |s| > 1 && s[1] == QUOTE then [QUOTE] + Unescape(s[2..])
    else [s[0]] + Unescape(s[1..])
  }

  lemma {:induction false} UnescapeUndoes(v: bytes)
    ensures Unescape(EscapeQuotes(v)) == v
  {
    if v != [] {
      var more := EscapeQuotes(v[1..]);
      UnescapeUndoes(v[1..]);
      var s := EscapeQuotes(v);
      if v[0] == QUOTE {
        assert s[2..] == more;
      } else {
        assert s[1..] == more;
        if v[0] == BACKSLASH {
          NoQuoteAhead(v, []);
          assert more + [] == more;
        }
      }
    }
  }

  /** What follows a pair in a line. */
  predicate AfterPair(rest: bytes) {
    rest == [] || rest[0] == SPACE
  }

  predicate GoodPair(k: bytes, v: bytes) {
    EQUALS !in k && !EndsInBackslash(v)
  }

  lemma PlainValueParses(v: bytes, rest: bytes)
    requires !NeedsQuoting(v) && AfterPair(rest)
    ensures ParseValue(v + rest) == Some((v, rest))
  {
    assert v[0] in v && !Special(v[0]);
    assert SPACE !in v by { assert Special(SPACE); }
    if rest == [] {
      assert v + rest == v;
    } else {
      BeforeClean(v, SPACE, rest[1..]);
      assert v + rest == v + [SPACE] + rest[1..];
    }
    assert (v + rest)[|v|..] == rest;
  }

  lemma QuotedText(v: bytes, rest: bytes)
    requires NeedsQuoting(v)
    ensures ParseValue(ValueText(v) + rest) == ParseQuoted(EscapeQuotes(v) + ([QUOTE] + rest))
  {
    var t := ValueText(v) + rest;
    assert t == [QUOTE] + (EscapeQuotes(v) + ([QUOTE] + rest));
    assert t[1..] == EscapeQuotes(v) + ([QUOTE] + rest);
  }

  lemma QuotedValueParses(v: bytes, rest: bytes)
    requires NeedsQuoting(v)
    ensures !EndsInBackslash(v) ==> ParseValue(ValueText(v) + rest) == Some((v, rest))
    ensures EndsInBackslash(v) ==> ParseValue(ValueText(v) + rest) != Some((v, rest))
  {
    QuotedText(v, rest);
    assert ([QUOTE] + rest)[1..] == rest;
    if EndsInBackslash(v) {
      SwallowedQuote(v[..|v| - 1], rest);
      assert v == v[..|v| - 1] + [BACKSLASH];
    } else {
      QuotedParses(v, [QUOTE] + rest);
      assert v + [] == v;
    }
  }

  /** After a final backslash the closing quote is read as an escaped one. */
  lemma SwallowedQuote(w: bytes, rest: bytes)
    ensures var v := w + [BACKSLASH]; var r := ParseQuoted(EscapeQuotes(v) + ([QUOTE] + rest));
            r.Some? ==> r.value.0 != v
  {
    var v := w + [BACKSLASH];
    var x := [BACKSLASH, QUOTE] + rest;
    EscapeSnoc(w, BACKSLASH);
    assert EscapeQuotes(v) + ([QUOTE] + rest) == EscapeQuotes(w) + x;
    QuotedParses(w, x);
    assert x[2..] == rest;
    var r := ParseQuoted(EscapeQuotes(v) + ([QUOTE] + rest));
    if r.Some? {
      assert r.value.0[|w|] == QUOTE;
      assert v[|w|] == BACKSLASH;
    }
  }

  lemma {:induction false} EscapeSnoc(w: bytes, c: byte)
    requires c != QUOTE
    ensures EscapeQuotes(w + [c]) == EscapeQuotes(w) + [c]
  {
    if w == [] {
      assert w + [c] == [c];
      assert EscapeQuotes([c]) == [c] + EscapeQuotes([]);
    } else {
      EscapeSnoc(w[1..], c);
      assert (w + [c])[1..] == w[1..] + [c];
    }
  }

  /** A printed pair reads back, leaving what follows, exactly when its key holds no equals sign and its value does not
      end in a backslash. */
  lemma PairParsesIff(k: bytes, v: bytes, rest: bytes)
    requires AfterPair(rest)
    ensures ParsePair(PairText(k, v) + rest) == Some((Pair(k, v), rest)) <==> GoodPair(k, v)
  {
    var after := ValueText(v) + rest;
    var t := PairText(k, v) + rest;
    assert t == k + [EQUALS] + after;
    assert t[|k|] == EQUALS;
    if EQUALS in k {
      assert EQUALS !in Before(t, EQUALS);
    } else {
      BeforeClean(k, EQUALS, after);
      assert t[|k| + 1..] == after;
      if NeedsQuoting(v) {
        QuotedValueParses(v, rest);
      } else {
        PlainValueParses(v, rest);
        if EndsInBackslash(v) { assert v[|v| - 1] in v && Special(v[|v| - 1]); }
      }
    }
  }

  // ---- whole lines

  function Pairs(entry: Rendered, ks: seq<bytes>, i: nat): seq<Pair>
    requires i <= |ks| && forall k | k in ks :: k in entry
    decreases |ks| - i
  {
    if i == |ks| then [] else [Pair(ks[i], entry[ks[i]])] + Pairs(entry, ks, i + 1)
  }

  /** The text of a line from pair `i` on, past the space in front of it. */
  function TextFrom(entry: Rendered, ks: seq<bytes>, i: nat): bytes
    requires i < |ks| && forall k | k in ks :: k in entry
  {
    PairText(ks[i], entry[ks[i]]) + PairsText(entry, ks, i + 1)
  }

  lemma PairsTextFrom(entry: Rendered, ks: seq<bytes>, i: nat)
    requires i < |ks| && forall k | k in ks :: k in entry
    ensures PairsText(entry, ks, i) == Space(i) + TextFrom(entry, ks, i)
  {
  }

  predicate GoodFrom(entry: Rendered, ks: seq<bytes>, i: nat)
    decreases |ks| - i
  {
    i < |ks| ==> ks[i] in entry && GoodPair(ks[i], entry[ks[i]]) && GoodFrom(entry, ks, i + 1)
  }

  lemma {:induction false} GoodFromAll(entry: Rendered, ks: seq<bytes>, i: nat)
    requires i <= |ks| && forall k | k in ks :: k in entry
    ensures GoodFrom(entry, ks, i) <==> forall j | i <= j < |ks| :: GoodPair(ks[j], entry[ks[j]])
    decreases |ks| - i
  {
    if i < |ks| { GoodFromAll(entry, ks, i + 1); }
  }

  lemma {:induction false} LineParsesIff(entry: Rendered, ks: seq<bytes>, i: nat)
    requires i < |ks| && forall k | k in ks :: k in entry
    ensures ParseLine(TextFrom(entry, ks, i)) == Some(Pairs(entry, ks, i)) <==>
            GoodFrom(entry, ks, i)
    decreases |ks| - i
  {
    var k, v := ks[i], entry[ks[i]];
    var rest := PairsText(entry, ks, i + 1);
    if i + 1 < |ks| {
      LineParsesIff(entry, ks, i + 1);
      PairsTextFrom(entry, ks, i + 1);
      assert rest[1..] == TextFrom(entry, ks, i + 1);
    } else {
      assert Pairs(entry, ks, i) == [Pair(k, v)];
    }
    PairFirst(TextFrom(entry, ks, i), k, v, rest, Pairs(entry, ks, i + 1));
  }

  /** A line is read pair by pair: a first pair that reads back wrongly cannot be made up for later. */
  lemma PairFirst(t: bytes, k: bytes, v: bytes, rest: bytes, more: seq<Pair>)
    requires t == PairText(k, v) + rest && AfterPair(rest)
    requires rest == [] ==> more == []
    ensures ParseLine(t) == Some([Pair(k, v)] + more) <==>
            GoodPair(k, v) && (rest == [] || ParseLine(rest[1..]) == Some(more))
  {
    PairParsesIff(k, v, rest);
    if GoodPair(k, v) {
      if rest != [] {
        match ParseLine(rest[1..]) case None => case Some(ps) => SameTail(Pair(k, v), ps, more);
      } else {
        assert [Pair(k, v)] + more == [Pair(k, v)];
      }
    } else {
      FirstPairDiffers(k, v, rest);
      FirstOfLine(t, Pair(k, v), more);
    }
  }

  lemma FirstOfLine(t: bytes, p: Pair, more: seq<Pair>)
    requires t != [] && match ParsePair(t) case None => true case Some(r) => r.0 != p
    ensures ParseLine(t) != Some([p] + more)
  {
    assert ([p] + more)[0] == p;
    match ParsePair(t)
    case None =>
    case Some(r) =>
      if r.1 != [] && r.1[0] == SPACE && |r.1| < |t| {
        match ParseLine(r.1[1..]) case None => case Some(ps) => assert ([r.0] + ps)[0] == r.0;
      } else {
        assert [r.0][0] == r.0;
      }
  }

  lemma SameTail(p: Pair, a: seq<Pair>, b: seq<Pair>)
    ensures [p] + a == [p] + b <==> a == b
  {
    if [p] + a == [p] + b { assert a == ([p] + a)[1..] == ([p] + b)[1..] == b; }
  }

  lemma FirstPairDiffers(k: bytes, v: bytes, rest: bytes)
    requires AfterPair(rest) && !GoodPair(k, v)
    ensures PairText(k, v) + rest != []
    ensures match ParsePair(PairText(k, v) + rest) case None => true case Some(r) => r.0 != Pair(k, v)
  {
    var after := ValueText(v) + rest;
    var t := PairText(k, v) + rest;
    assert t == k + [EQUALS] + after && t[|k|] == EQUALS;
    if EQUALS in k {
      assert EQUALS !in Before(t, EQUALS);
    } else {
      BeforeClean(k, EQUALS, after);
      assert t[|k| + 1..] == after;
      assert v[|v| - 1] in v && Special(v[|v| - 1]);
      BadValueDiffers(v, rest);
    }
  }

  lemma BadValueDiffers(v: bytes, rest: bytes)
    requires NeedsQuoting(v) && EndsInBackslash(v)
    ensures match ParseValue(ValueText(v) + rest) case None => true case Some(r) => r.0 != v
  {
    var w := v[..|v| - 1];
    assert v == w + [BACKSLASH];
    QuotedText(v, rest);
    SwallowedQuote(w, rest);
  }

  /** A line reads back as exactly its pairs, in print order, exactly when no key holds an equals sign and no value ends
      in a backslash. */
  lemma LogfmtRoundTripIff(entry: Rendered, ks: seq<bytes>)
    requires ks == PrintOrder(entry, CORE_ORDER)
    ensures forall k | k in ks :: k in entry
    ensures ParseLine(LineText(entry)) == Some(Pairs(entry, ks, 0)) <==> forall k | k in entry :: GoodPair(k, entry[k])
  {
    PrintOrderKeys(entry, CORE_ORDER);
    RoundTripIff(entry, ks);
  }

  lemma RoundTripIff(entry: Rendered, ks: seq<bytes>)
    requires forall k :: k in ks <==> k in entry
    ensures ParseLine(PairsText(entry, ks, 0)) == Some(Pairs(entry, ks, 0)) <==> forall k | k in entry :: GoodPair(k, entry[k])
  {
    if ks != [] {
      LineParsesIff(entry, ks, 0);
      GoodFromAll(entry, ks, 0);
      PairsTextFrom(entry, ks, 0);
      assert Space(0) + TextFrom(entry, ks, 0) == TextFrom(entry, ks, 0);
    } else {
      assert forall k :: k !in entry;
    }
    if forall j | 0 <= j < |ks| :: GoodPair(ks[j], entry[ks[j]]) {
      forall k | k in entry ensures GoodPair(k, entry[k]) {
        assert k in ks;
      }
    }
  }

  // ---- one line per entry?

  lemma {:induction false} EscapingKeeps(v: bytes, b: byte)
    requires b != QUOTE && b != BACKSLASH
    ensures b in EscapeQuotes(v) <==> b in v
  {
    if v != [] {
      EscapingKeeps(v[1..], b);
      assert v == [v[0]] + v[1..];
      assert EscapeQuotes(v) == (if v[0] == QUOTE then [BACKSLASH, QUOTE] else [v[0]]) + EscapeQuotes(v[1..]);
    }
  }

  predicate Breaks(k: bytes, v: bytes) {
    NEWLINE in k || NEWLINE in v
  }

  lemma PairBreaks(k: bytes, v: bytes)
    ensures NEWLINE in PairText(k, v) <==> Breaks(k, v)
  {
    EscapingKeeps(v, NEWLINE);
  }

  lemma {:induction false} PairsBreak(entry: Rendered, ks: seq<bytes>, i: nat)
    requires i <= |ks| && forall k | k in ks :: k in entry
    ensures NEWLINE in PairsText(entry, ks, i) <==> exists j :: i <= j < |ks| && Breaks(ks[j], entry[ks[j]])
    decreases |ks| - i
  {
    hide PairText;
    if i < |ks| {
      PairBreaks(ks[i], entry[ks[i]]);
      PairsBreak(entry, ks, i + 1);
      InPieces(NEWLINE, Space(i), PairText(ks[i], entry[ks[i]]), PairsText(entry, ks, i + 1));
    }
  }

  lemma InPieces(x: byte, a: bytes, b: bytes, c: bytes)
    ensures x in a + b + c <==> x in a || x in b || x in c
  {
  }

  /** Quoting leaves newlines as they are: an entry is a single line exactly when none of its keys and values holds one. */
  lemma OneLineIff(entry: Rendered)
    ensures NEWLINE !in LineText(entry) <==> forall k | k in entry :: NEWLINE !in k && NEWLINE !in entry[k]
  {
    hide PrintOrder, PairsText;
    PrintOrderKeys(entry, CORE_ORDER);
    var ks := PrintOrder(entry, CORE_ORDER);
    PairsBreak(entry, ks, 0);
    if k :| k in entry && Breaks(k, entry[k]) {
      assert k in ks;
    }
  }

  /** The formatter is documented to render an entry as a single line. */
  lemma NewlineSurvives()
    ensures NEWLINE in LineText(map[B("message") := [NEWLINE]])
  {
    OneLineIff(map[B("message") := [NEWLINE]]);
  }
}
