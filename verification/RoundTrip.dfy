/** What the encoder prints, an RFC 8259 parser reads back; and lines cannot run into each other. */
module RoundTrip {
  import opened Bytes
  import opened Utf8
  import opened Values
  import opened Encoder
  import P = Rfc8259

  /** The JSON tree an entry value stands for: strings repaired, members in sorted key order. */
  ghost function Meaning(v: Value): P.Json
    decreases v, 1
  {
    match v
    case Null => P.JNull
    case Str(s) => P.JStr(Repair(s))
    case Bool(b) => P.JBool(b)
    case Int(n) => P.JInt(n)
    case Error(msg, _, _) => P.JStr(Repair(msg))
    case Strs(ss) => P.JArr(StringMeanings(ss, 0))
    case List(vs) => P.JArr(ElementMeanings(v, 0))
    case Map(m) => P.JObj(MemberMeanings(v, SortedKeys(m.Keys), 0))
  }

  function StringMeanings(ss: seq<bytes>, i: nat): seq<P.Json>
    requires i <= |ss|
    decreases |ss| - i
  {
    if i == |ss| then [] else [P.JStr(Repair(ss[i]))] + StringMeanings(ss, i + 1)
  }

  ghost function ElementMeanings(v: Value, i: nat): seq<P.Json>
    requires v.List? && i <= |v.vs|
    decreases v, 0, |v.vs| - i
  {
    if i == |v.vs| then [] else [Meaning(v.vs[i])] + ElementMeanings(v, i + 1)
  }

  ghost function MemberMeanings(v: Value, ks: seq<bytes>, i: nat): seq<P.Member>
    requires v.Map? && i <= |ks| && forall k | k in ks :: k in v.m
    decreases v, 0, |ks| - i
  {
    if i == |ks| then [] else [P.Member(Repair(ks[i]), Meaning(v.m[ks[i]]))] + MemberMeanings(v, ks, i + 1)
  }

  // ---- string literals

  /** One printed unit parses as one char, standing for the repaired unit, whatever follows. */
  lemma UnitParses(s: bytes, rest: bytes)
    requires s != []
    ensures (Unit(s) + rest)[0] != QUOTE
    ensures P.ParseChar(Unit(s) + rest) == Some((RepairedUnit(s), |Unit(s)|))
  {
    var t := Unit(s) + rest;
    if s[0] >= 0x80 {
      if IsError(DecodeRune(s)) {
        assert P.CodeUnit(t) == Some(0xFFFD);
        assert EncodeRune(0xFFFD) == REPLACEMENT;
      } else {
        DecodeIsLocal(s, rest);
      }
    } else if s[0] < 0x20 && s[0] != 0x0A && s[0] != 0x0D && s[0] != 0x09 {
      ControlEscapeParses(s[0], rest);
    }
    assert s[..1] == [s[0]] && t[..1] == [t[0]];
  }

  /** Which escape it is: two bytes for the quote, the backslash, LF, CR and TAB, six with lower-case hex digits for the other
      control bytes and for an invalid byte, and none for anything else. */
  lemma UnitForm(s: bytes)
    requires s != []
    ensures |Unit(s)| == if s[0] in [0x22, 0x5C, 0x0A, 0x0D, 0x09] then 2
                         else if s[0] < 0x20 || IsError(DecodeRune(s)) then 6
                         else UnitSize(s)
    ensures Unit(s)[0] != 0x5C ==> Unit(s) == s[..UnitSize(s)]
    ensures Unit(s)[0] == 0x5C && |Unit(s)| != 2 ==>
              |Unit(s)| == 6 && forall i | 2 <= i < 6 :: 0x30 <= Unit(s)[i] <= 0x39 || 0x61 <= Unit(s)[i] <= 0x66
  {
    assert s[..1] == [s[0]];
  }

  function RepairedUnit(s: bytes): bytes
    requires s != []
  {
    if IsError(DecodeRune(s)) then REPLACEMENT else s[..UnitSize(s)]
  }

  lemma ControlEscapeParses(b: byte, rest: bytes)
    requires b < 0x20
    ensures var t := [BACKSLASH, 0x75, 0x30, 0x30, HexDigit(b / 16), HexDigit(b % 16)] + rest;
            P.UnicodeEscape(t) == Some((b as int, 6)) && EncodeRune(b as int) == [b]
  {
    var t := [BACKSLASH, 0x75, 0x30, 0x30, HexDigit(b / 16), HexDigit(b % 16)] + rest;
    HexDigitValue(b / 16);
    HexDigitValue(b % 16);
    assert P.HexValue(0x30) == Some(0);
    assert P.CodeUnit(t) == Some((b / 16) as int * 16 + (b % 16) as int);
  }

  lemma HexDigitValue(b: byte)
    requires b < 16
    ensures P.HexValue(HexDigit(b)) == Some(b as int)
  {
  }

  /** Section 7 decoding of the printed characters yields the repaired string and stops at the closing quote. */
  lemma {:induction false} EscapedParses(s: bytes, rest: bytes)
    ensures P.ParseChars(Escaped(s) + ([QUOTE] + rest)) == P.Read(Repair(s), rest)
    decreases |s|
  {
    if s == [] {
      assert Escaped(s) + ([QUOTE] + rest) == [QUOTE] + rest;
    } else {
      var s' := s[UnitSize(s)..];
      var more := Escaped(s') + ([QUOTE] + rest);
      assert Escaped(s) + ([QUOTE] + rest) == Unit(s) + more;
      UnitParses(s, more);
      assert (Unit(s) + more)[|Unit(s)|..] == more;
      EscapedParses(s', rest);
    }
  }

  /** Every backslash is paired with the byte behind it, and no quote stands outside such a pair. */
  predicate NoBareQuote(t: bytes) {
    t == [] ||
    if t[0] == BACKSLASH then |t| >= 2 && NoBareQuote(t[2..]) else t[0] != QUOTE && NoBareQuote(t[1..])
  }

  lemma {:induction false} PlainThen(u: bytes, t: bytes)
    requires (forall b | b in u :: b != QUOTE && b != BACKSLASH) && NoBareQuote(t)
    ensures NoBareQuote(u + t)
  {
    if u == [] {
      assert u + t == t;
    } else {
      assert u[0] in u && forall b | b in u[1..] :: b in u;
      assert (u + t)[1..] == u[1..] + t;
      PlainThen(u[1..], t);
    }
  }

  lemma PairThen(b: byte, u: bytes, t: bytes)
    requires NoBareQuote(u + t)
    ensures NoBareQuote([BACKSLASH, b] + u + t)
  {
    assert ([BACKSLASH, b] + u + t)[2..] == u + t;
  }

  /** The printed characters: no control byte, and no quote that is not escaped. */
  lemma {:induction false} EscapedIsClean(s: bytes)
    ensures forall b | b in Escaped(s) :: b >= 0x20
    ensures NoBareQuote(Escaped(s))
    ensures forall i | 0 <= i < |Escaped(s)| && Escaped(s)[i] == QUOTE :: i > 0 && Escaped(s)[i - 1] == BACKSLASH
    decreases |s|
  {
    if s != [] {
      EscapedIsClean(s[UnitSize(s)..]);
      UnitIsClean(s);
      var u, e := Unit(s), Escaped(s[UnitSize(s)..]);
      UnitThen(s, e);
      forall i | 0 <= i < |Escaped(s)| && Escaped(s)[i] == QUOTE ensures i > 0 && Escaped(s)[i - 1] == BACKSLASH {
        if i >= |u| { assert e[i - |u|] == QUOTE; }
      }
    }
  }

  lemma UnitIsClean(s: bytes)
    requires s != []
    ensures forall b | b in Unit(s) :: b >= 0x20
    ensures forall i | 0 <= i < |Unit(s)| && Unit(s)[i] == QUOTE :: i == 1 && Unit(s) == [BACKSLASH, QUOTE]
  {
    if s[0] >= 0x80 && !IsError(DecodeRune(s)) { DecodeIsLocal(s, []); }
  }

  lemma UnitThen(s: bytes, t: bytes)
    requires s != [] && NoBareQuote(t)
    ensures NoBareQuote(Unit(s) + t)
  {
    var u := Unit(s);
    if u[0] == BACKSLASH {
      PlainThen(u[2..], t);
      PairThen(u[1], u[2..], t);
      assert u == [BACKSLASH, u[1]] + u[2..];
    } else {
      if s[0] >= 0x80 { DecodeIsLocal(s, []); }
      PlainThen(u, t);
    }
  }

  lemma LiteralText(s: bytes, rest: bytes)
    ensures EncodeString(s) + rest == [QUOTE] + (Escaped(s) + ([QUOTE] + rest))
  {
  }

  /** A whole literal: decoded by section 7 of RFC 8259 it is the input with its invalid bytes replaced,
      and it is the input itself exactly when the input is valid UTF-8. */
  lemma StringLiteral(s: bytes, rest: bytes)
    ensures P.ParseValue(EncodeString(s) + rest) == P.Read(P.JStr(Repair(s)), rest)
    ensures P.ParseValue(EncodeString(s) + rest) == P.Read(P.JStr(s), rest) <==> ValidUtf8(s)
  {
    EscapedParses(s, rest);
    RepairIdentityIffValid(s);
    LiteralText(s, rest);
    P.ReadString(Escaped(s) + ([QUOTE] + rest), Repair(s), rest);
  }

  // ---- numbers

  lemma {:induction false} DecimalShape(n: nat)
    ensures forall b | b in Decimal(n) :: P.IsDigit(b)
    ensures P.DigitsValue(Decimal(n)) == n
    ensures Decimal(n)[0] == 0x30 ==> n == 0 && |Decimal(n)| == 1
  {
    if n >= 10 {
      DecimalShape(n / 10);
      assert Decimal(n)[..|Decimal(n)| - 1] == Decimal(n / 10);
    } else {
      assert Decimal(n)[..0] == [];
      assert P.DigitsValue([]) == 0;
    }
  }

  lemma {:induction false} DigitsOfPrefix(ds: bytes, rest: bytes)
    requires forall b | b in ds :: P.IsDigit(b)
    requires rest == [] || !P.IsDigit(rest[0])
    ensures P.Digits(ds + rest) == ds
  {
    if ds == [] {
      assert ds + rest == rest;
    } else {
      DigitsOfPrefix(ds[1..], rest);
      assert (ds + rest)[1..] == ds[1..] + rest;
    }
  }

  lemma SignedText(sign: bytes, digits: bytes, rest: bytes)
    ensures sign + digits + rest == sign + (digits + rest)
    ensures [] + digits == digits
  {
  }

  lemma IntParses(n: int, rest: bytes)
    requires !P.ExtendsNumber(rest)
    ensures P.ParseValue(EncodeInt(n) + rest) == P.Read(P.JInt(n), rest)
  {
    var neg := n < 0;
    var m: nat := if neg then -n else n;
    DecimalShape(m);
    DigitsOfPrefix(Decimal(m), rest);
    P.ReadNumber(neg, Decimal(m), rest);
    SignedText(if neg then [0x2D] else [], Decimal(m), rest);
  }

  // ---- values

  /** What may follow a printed value inside a printed entry or line. */
  predicate Ends(t: bytes) {
    t == [] || t[0] == COMMA || t[0] == RBRACKET || t[0] == RBRACE || t[0] == NEWLINE
  }

  lemma FirstByte(v: Value, rest: bytes)
    ensures P.Starts(EncodeValue(v) + rest)
  {
    if v.Int? {
      DecimalShape(if v.n < 0 then -v.n else v.n);
      assert EncodeValue(v)[0] == 0x2D || P.IsDigit(EncodeValue(v)[0]);
    }
  }

  /** Print then parse: exactly one value is consumed, it is the value's meaning, and the following bytes are left. */
  lemma {:induction false} ValueRoundTrip(v: Value, rest: bytes)
    requires !P.ExtendsNumber(rest)
    ensures P.ParseValue(EncodeValue(v) + rest) == P.Read(Meaning(v), rest)
    decreases v, 1
  {
    match v
    case Null => assert (NULL_TEXT + rest)[4..] == rest;
    case Bool(b) => assert (TRUE_TEXT + rest)[4..] == rest && (FALSE_TEXT + rest)[5..] == rest;
    case Str(s) => StringLiteral(s, rest);
    case Error(msg, _, _) => StringLiteral(msg, rest);
    case Int(n) => IntParses(n, rest);
    case Strs(ss) => StrsRoundTrip(ss, rest);
    case List(_) => ListRoundTrip(v, rest);
    case Map(_) => MapRoundTrip(v, rest);
  }

  lemma Bracketed(open: byte, body: bytes, close: byte, rest: bytes)
    ensures [open] + body + [close] + rest == [open] + (body + ([close] + rest))
    ensures body == [] ==> body + ([close] + rest) == [close] + rest
  {
  }

  // ---- lists of printed items

  /** Items from index `i` on, each but the very first behind a comma. */
  function Joined(items: seq<bytes>, i: nat): bytes
    requires i <= |items|
    decreases |items| - i
  {
    if i == |items| then [] else Comma(i) + items[i] + Joined(items, i + 1)
  }

  /** What follows item `i - 1`. */
  function After(items: seq<bytes>, i: nat, tail: bytes): bytes
    requires i <= |items|
  {
    Joined(items, i) + tail
  }

  lemma AfterShape(items: seq<bytes>, i: nat, tail: bytes)
    requires i <= |items|
    ensures i == |items| ==> After(items, i, tail) == tail
    ensures 0 < i < |items| ==> After(items, i, tail) == [COMMA] + (items[i] + After(items, i + 1, tail))
    ensures i == 0 < |items| ==> After(items, i, tail) == items[i] + After(items, i + 1, tail)
  {
  }

  lemma ItemGoesOn(items: seq<bytes>, i: nat, tail: bytes)
    requires 0 < i <= |items| && !P.ExtendsNumber(tail)
    ensures !P.ExtendsNumber(After(items, i, tail))
  {
    AfterShape(items, i, tail);
  }

  /** Item `n` reads as value `js[n]` where it stands. */
  predicate ValueRead(items: seq<bytes>, js: seq<P.Json>, n: nat, tail: bytes) {
    && n < |items| == |js|
    && P.Starts(items[n] + After(items, n + 1, tail))
    && P.ParseValue(items[n] + After(items, n + 1, tail)) == P.Read(js[n], After(items, n + 1, tail))
  }

  lemma {:induction false} ElementsRead(items: seq<bytes>, js: seq<P.Json>, i: nat, rest: bytes)
    requires i < |items| == |js| && forall n | 0 <= n < |items| :: ValueRead(items, js, n, [RBRACKET] + rest)
    ensures P.ParseElements(items[i] + After(items, i + 1, [RBRACKET] + rest)) == P.Read(js[i..], rest)
    decreases |items| - i
  {
    hide P.ParseElements, P.ParseValue, P.Starts, After;
    var tail := [RBRACKET] + rest;
    assert ValueRead(items, js, i, tail);
    AfterShape(items, i + 1, tail);
    if i + 1 == |items| {
      P.ReadLastElement(items[i] + tail, js[i], rest);
      assert js[i..] == [js[i]];
    } else {
      ElementsRead(items, js, i + 1, rest);
      assert ValueRead(items, js, i + 1, tail);
      P.ReadElement(items[i] + After(items, i + 1, tail), js[i], items[i + 1] + After(items, i + 2, tail), js[i + 1..], rest);
      assert js[i..] == [js[i]] + js[i + 1..];
    }
  }

  lemma ArrayRead(items: seq<bytes>, js: seq<P.Json>, rest: bytes)
    requires |items| == |js| && forall n | 0 <= n < |items| :: ValueRead(items, js, n, [RBRACKET] + rest)
    ensures P.ParseValue([LBRACKET] + Joined(items, 0) + [RBRACKET] + rest) == P.Read(P.JArr(js), rest)
  {
    Bracketed(LBRACKET, Joined(items, 0), RBRACKET, rest);
    if items == [] {
      P.ReadEmptyArray(rest);
    } else {
      AfterShape(items, 0, [RBRACKET] + rest);
      assert ValueRead(items, js, 0, [RBRACKET] + rest);
      ElementsRead(items, js, 0, rest);
      assert js[0..] == js;
      P.ReadArray(After(items, 0, [RBRACKET] + rest), js, rest);
    }
  }

  /** Item `n` reads as member `ms[n]` where it stands. */
  predicate MemberRead(items: seq<bytes>, ms: seq<P.Member>, n: nat, tail: bytes) {
    && n < |items| == |ms|
    && P.Starts(items[n] + After(items, n + 1, tail))
    && P.ParseMember(items[n] + After(items, n + 1, tail)) == P.Read(ms[n], After(items, n + 1, tail))
  }

  lemma {:induction false} MembersRead(items: seq<bytes>, ms: seq<P.Member>, i: nat, rest: bytes)
    requires i < |items| == |ms| && forall n | 0 <= n < |items| :: MemberRead(items, ms, n, [RBRACE] + rest)
    ensures P.ParseMembers(items[i] + After(items, i + 1, [RBRACE] + rest)) == P.Read(ms[i..], rest)
    decreases |items| - i
  {
    hide P.ParseMembers, P.ParseMember, P.Starts, After;
    var tail := [RBRACE] + rest;
    assert MemberRead(items, ms, i, tail);
    AfterShape(items, i + 1, tail);
    if i + 1 == |items| {
      P.ReadLastMember(items[i] + tail, ms[i], rest);
      assert ms[i..] == [ms[i]];
    } else {
      MembersRead(items, ms, i + 1, rest);
      assert MemberRead(items, ms, i + 1, tail);
      P.ReadMoreMembers(items[i] + After(items, i + 1, tail), ms[i], items[i + 1] + After(items, i + 2, tail), ms[i + 1..], rest);
      assert ms[i..] == [ms[i]] + ms[i + 1..];
    }
  }

  lemma ObjectRead(items: seq<bytes>, ms: seq<P.Member>, rest: bytes)
    requires |items| == |ms| && forall n | 0 <= n < |items| :: MemberRead(items, ms, n, [RBRACE] + rest)
    ensures P.ParseValue([LBRACE] + Joined(items, 0) + [RBRACE] + rest) == P.Read(P.JObj(ms), rest)
  {
    Bracketed(LBRACE, Joined(items, 0), RBRACE, rest);
    if items == [] {
      P.ReadEmptyObject(rest);
    } else {
      AfterShape(items, 0, [RBRACE] + rest);
      assert MemberRead(items, ms, 0, [RBRACE] + rest);
      MembersRead(items, ms, 0, rest);
      assert ms[0..] == ms;
      P.ReadObject(After(items, 0, [RBRACE] + rest), ms, rest);
    }
  }

  // ---- lists and maps of values

  lemma {:induction false} StringsAreJoined(ss: seq<bytes>, items: seq<bytes>, js: seq<P.Json>, i: nat)
    requires i <= |ss| == |items| == |js|
    requires forall n | 0 <= n < |ss| :: items[n] == EncodeString(ss[n]) && js[n] == P.JStr(Repair(ss[n]))
    ensures EncodeStrings(ss, i) == Joined(items, i) && StringMeanings(ss, i) == js[i..]
    decreases |ss| - i
  {
    hide EncodeString, Repair;
    if i < |ss| {
      StringsAreJoined(ss, items, js, i + 1);
      assert js[i..] == [js[i]] + js[i + 1..];
    }
  }

  lemma StrsRoundTrip(ss: seq<bytes>, rest: bytes)
    ensures P.ParseValue(EncodeValue(Strs(ss)) + rest) == P.Read(Meaning(Strs(ss)), rest)
  {
    var items := seq(|ss|, n requires 0 <= n < |ss| => EncodeString(ss[n]));
    var js := seq(|ss|, n requires 0 <= n < |ss| => P.JStr(Repair(ss[n])));
    var tail := [RBRACKET] + rest;
    forall n | 0 <= n < |ss| ensures ValueRead(items, js, n, tail) {
      StringLiteral(ss[n], After(items, n + 1, tail));
      LiteralText(ss[n], After(items, n + 1, tail));
    }
    StringsAreJoined(ss, items, js, 0);
    assert js[0..] == js;
    ArrayRead(items, js, rest);
  }

  lemma {:induction false} ElementsAreJoined(v: Value, items: seq<bytes>, js: seq<P.Json>, i: nat)
    requires v.List? && i <= |v.vs| == |items| == |js|
    requires forall n | 0 <= n < |v.vs| :: items[n] == EncodeValue(v.vs[n]) && js[n] == Meaning(v.vs[n])
    ensures EncodeElements(v, i) == Joined(items, i) && ElementMeanings(v, i) == js[i..]
    decreases |v.vs| - i
  {
    hide EncodeValue, Meaning;
    if i < |v.vs| {
      ElementsAreJoined(v, items, js, i + 1);
      assert js[i..] == [js[i]] + js[i + 1..];
    }
  }

  lemma {:induction false} ListRoundTrip(v: Value, rest: bytes)
    requires v.List?
    ensures P.ParseValue(EncodeValue(v) + rest) == P.Read(Meaning(v), rest)
    decreases v, 0
  {
    hide P.ParseValue, P.Starts, EncodeValue, Meaning, After, Joined;
    var items := seq(|v.vs|, n requires 0 <= n < |v.vs| => EncodeValue(v.vs[n]));
    var js := seq(|v.vs|, n requires 0 <= n < |v.vs| => Meaning(v.vs[n]));
    var tail := [RBRACKET] + rest;
    forall n | 0 <= n < |v.vs| ensures ValueRead(items, js, n, tail) {
      ItemGoesOn(items, n + 1, tail);
      ValueRoundTrip(v.vs[n], After(items, n + 1, tail));
      FirstByte(v.vs[n], After(items, n + 1, tail));
    }
    ArrayRead(items, js, rest);
    ListText(v, items, js);
  }

  lemma ListText(v: Value, items: seq<bytes>, js: seq<P.Json>)
    requires v.List? && |v.vs| == |items| == |js|
    requires forall n | 0 <= n < |v.vs| :: items[n] == EncodeValue(v.vs[n]) && js[n] == Meaning(v.vs[n])
    ensures EncodeValue(v) == [LBRACKET] + Joined(items, 0) + [RBRACKET] && Meaning(v) == P.JArr(js)
  {
    ElementsAreJoined(v, items, js, 0);
    assert js[0..] == js;
  }

  lemma {:induction false} MembersAreJoined(v: Value, ks: seq<bytes>, items: seq<bytes>, ms: seq<P.Member>, i: nat)
    requires v.Map? && i <= |ks| == |items| == |ms| && forall k | k in ks :: k in v.m
    requires forall n | 0 <= n < |ks| ::
               items[n] == EncodeMember(ks[n], v.m[ks[n]]) && ms[n] == P.Member(Repair(ks[n]), Meaning(v.m[ks[n]]))
    ensures EncodeMembers(v, ks, i) == Joined(items, i) && MemberMeanings(v, ks, i) == ms[i..]
    decreases |ks| - i
  {
    hide EncodeMember, Meaning;
    if i < |ks| {
      MembersAreJoined(v, ks, items, ms, i + 1);
      assert ms[i..] == [ms[i]] + ms[i + 1..];
    }
  }

  lemma {:induction false} MapRoundTrip(v: Value, rest: bytes)
    requires v.Map?
    ensures P.ParseValue(EncodeValue(v) + rest) == P.Read(Meaning(v), rest)
    decreases v, 0
  {
    hide P.ParseValue, P.ParseMember, P.Starts, EncodeValue, EncodeMember, Meaning, StrictlySorted, After, Joined;
    var ks := SortedKeys(v.m.Keys);
    assert forall k | k in ks :: k in Elements(ks);
    var items := seq(|ks|, n requires 0 <= n < |ks| => EncodeMember(ks[n], v.m[ks[n]]));
    var ms := seq(|ks|, n requires 0 <= n < |ks| => P.Member(Repair(ks[n]), Meaning(v.m[ks[n]])));
    var tail := [RBRACE] + rest;
    forall n | 0 <= n < |ks| ensures MemberRead(items, ms, n, tail) {
      ItemGoesOn(items, n + 1, tail);
      ValueRoundTrip(v.m[ks[n]], After(items, n + 1, tail));
      MemberRoundTrip(ks[n], v.m[ks[n]], After(items, n + 1, tail));
    }
    ObjectRead(items, ms, rest);
    MapText(v, ks, items, ms);
  }

  lemma MapText(v: Value, ks: seq<bytes>, items: seq<bytes>, ms: seq<P.Member>)
    requires v.Map? && ks == SortedKeys(v.m.Keys) && |ks| == |items| == |ms| && forall k | k in ks :: k in v.m
    requires forall n | 0 <= n < |ks| ::
               items[n] == EncodeMember(ks[n], v.m[ks[n]]) && ms[n] == P.Member(Repair(ks[n]), Meaning(v.m[ks[n]]))
    ensures EncodeValue(v) == [LBRACE] + Joined(items, 0) + [RBRACE] && Meaning(v) == P.JObj(ms)
  {
    hide EncodeMembers, MemberMeanings, EncodeMember, Joined, SortedKeys, StrictlySorted;
    MembersAreJoined(v, ks, items, ms, 0);
    assert ms[0..] == ms;
  }

  lemma MemberRoundTrip(k: bytes, v: Value, more: bytes)
    requires P.ParseValue(EncodeValue(v) + more) == P.Read(Meaning(v), more)
    ensures P.Starts(EncodeMember(k, v) + more)
    ensures P.ParseMember(EncodeMember(k, v) + more) == P.Read(P.Member(Repair(k), Meaning(v)), more)
  {
    var after := EncodeValue(v) + more;
    MemberText(k, v, more);
    LiteralText(k, [COLON] + after);
    EscapedParses(k, [COLON] + after);
    FirstByte(v, more);
    P.ReadMember(Escaped(k) + ([QUOTE] + ([COLON] + after)), Repair(k), after, Meaning(v), more);
  }

  lemma MemberText(k: bytes, v: Value, more: bytes)
    ensures EncodeMember(k, v) + more == EncodeString(k) + ([COLON] + (EncodeValue(v) + more))
  {
  }

  /** The document an entry is printed as is a JSON text that denotes the entry. */
  lemma EntryRoundTrip(entry: Fields)
    ensures P.ParseText(EncodeEntry(entry)) == Some(Meaning(Map(entry)))
  {
    ValueRoundTrip(Map(entry), []);
    FirstByte(Map(entry), []);
    assert EncodeEntry(entry) + [] == EncodeEntry(entry);
  }

  // ---- the encoding loses nothing

  /** A value built from the JSON kinds only, all of whose strings are valid UTF-8. */
  predicate Plain(v: Value) {
    match v
    case Null => true
    case Bool(_) => true
    case Int(_) => true
    case Str(s) => ValidUtf8(s)
    case List(vs) => forall x | x in vs :: Plain(x)
    case Map(m) => forall k | k in m :: ValidUtf8(k) && Plain(m[k])
    case Error(_, _, _) => false
    case Strs(_) => false
  }

  /** A JSON tree as an entry value. */
  function FromJson(j: P.Json): Value {
    match j
    case JNull => Null
    case JBool(b) => Bool(b)
    case JInt(n) => Int(n)
    case JReal(lexeme) => Str(lexeme)
    case JStr(s) => Str(s)
    case JArr(es) => List(FromElements(es))
    case JObj(ms) => Map(FromMembers(ms))
  }

  function FromElements(es: seq<P.Json>): seq<Value> {
    if es == [] then [] else [FromJson(es[0])] + FromElements(es[1..])
  }

  function FromMembers(ms: seq<P.Member>): Fields {
    if ms == [] then map[] else map[ms[0].key := FromJson(ms[0].value)] + FromMembers(ms[1..])
  }

  lemma {:induction false} PlainIsRecovered(v: Value)
    requires Plain(v)
    ensures FromJson(Meaning(v)) == v
    decreases v, 1
  {
    match v
    case Null =>
    case Bool(_) =>
    case Int(_) =>
    case Str(s) => RepairIdentityIffValid(s);
    case List(vs) =>
      ElementsRecovered(v, 0);
      assert vs[0..] == vs;
    case Map(m) =>
      var ks := SortedKeys(m.Keys);
      MapOfSortedKeys(m, ks);
      MembersRecovered(v, ks, 0);
      ObjectRecovered(v, ks);
  }

  lemma ObjectRecovered(v: Value, ks: seq<bytes>)
    requires v.Map? && ks == SortedKeys(v.m.Keys) && forall k | k in ks :: k in v.m
    requires FromMembers(MemberMeanings(v, ks, 0)) == v.m
    ensures FromJson(Meaning(v)) == v
  {
    var ms := MemberMeanings(v, ks, 0);
    assert Meaning(v) == P.JObj(ms);
    assert FromJson(P.JObj(ms)) == Map(FromMembers(ms));
  }

  lemma MapOfSortedKeys(m: Fields, ks: seq<bytes>)
    requires Elements(ks) == m.Keys
    ensures forall k | k in ks :: k in m
    ensures Picked(m, ks[0..]) == m
  {
    assert ks[0..] == ks;
    assert forall k | k in ks :: k in Elements(ks);
    assert forall k | k in m :: k in Elements(ks);
  }

  /** The part of `m` under the keys `ks`. */
  function Picked(m: Fields, ks: seq<bytes>): Fields {
    map k | k in ks && k in m :: m[k]
  }

  lemma PickedCons(m: Fields, ks: seq<bytes>, i: nat)
    requires i < |ks| && ks[i] in m
    requires ks[i] !in ks[i + 1..]
    ensures Picked(m, ks[i..]) == map[ks[i] := m[ks[i]]] + Picked(m, ks[i + 1..])
  {
    assert ks[i..] == [ks[i]] + ks[i + 1..];
  }

  lemma {:induction false} ElementsRecovered(v: Value, i: nat)
    requires v.List? && i <= |v.vs| && Plain(v)
    ensures FromElements(ElementMeanings(v, i)) == v.vs[i..]
    decreases v, 0, |v.vs| - i
  {
    if i < |v.vs| {
      PlainIsRecovered(v.vs[i]);
      ElementsRecovered(v, i + 1);
      assert ElementMeanings(v, i)[1..] == ElementMeanings(v, i + 1);
    }
  }

  lemma {:induction false} MembersRecovered(v: Value, ks: seq<bytes>, i: nat)
    requires v.Map? && i <= |ks| && (forall k | k in ks :: k in v.m) && StrictlySorted(ks) && Plain(v)
    ensures FromMembers(MemberMeanings(v, ks, i)) == Picked(v.m, ks[i..])
    decreases v, 0, |ks| - i
  {
    if i < |ks| {
      var k := ks[i];
      PlainIsRecovered(v.m[k]);
      RepairIdentityIffValid(k);
      MembersRecovered(v, ks, i + 1);
      assert MemberMeanings(v, ks, i)[1..] == MemberMeanings(v, ks, i + 1);
      LessIrreflexive(k);
      assert k !in ks[i + 1..];
      PickedCons(v.m, ks, i);
    }
  }

  /** Parsing a printed plain entry gives the entry back: same keys, same values. */
  lemma PlainEntryRoundTrip(entry: Fields)
    requires Plain(Map(entry))
    ensures var j := P.ParseText(EncodeEntry(entry)); j.Some? && FromJson(j.value) == Map(entry)
  {
    EntryRoundTrip(entry);
    PlainIsRecovered(Map(entry));
  }

  /** Values that print alike denote the same JSON tree. */
  lemma SameTextSameMeaning(v: Value, w: Value)
    requires EncodeValue(v) == EncodeValue(w)
    ensures Meaning(v) == Meaning(w)
  {
    ValueRoundTrip(v, []);
    ValueRoundTrip(w, []);
    assert EncodeValue(v) + [] == EncodeValue(v) && EncodeValue(w) + [] == EncodeValue(w);
  }

  lemma {:induction false} MeaningOfMember(v: Value, ks: seq<bytes>, i: nat, n: nat)
    requires v.Map? && i <= n < |ks| && forall k | k in ks :: k in v.m
    ensures n - i < |MemberMeanings(v, ks, i)|
    ensures MemberMeanings(v, ks, i)[n - i] == P.Member(Repair(ks[n]), Meaning(v.m[ks[n]]))
    decreases n - i
  {
    if i < n { MeaningOfMember(v, ks, i + 1, n); }
  }

  /** Maps with the same keys that denote the same object denote the same under every key. */
  lemma SameMembers(a: Fields, b: Fields, k: bytes)
    requires a.Keys == b.Keys && Meaning(Map(a)) == Meaning(Map(b)) && k in a
    ensures Meaning(a[k]) == Meaning(b[k])
  {
    var ks := SortedKeys(a.Keys);
    assert forall x | x in ks :: x in Elements(ks);
    assert k in Elements(ks);
    var n: nat :| n < |ks| && ks[n] == k;
    assert Meaning(Map(a)) == P.JObj(MemberMeanings(Map(a), ks, 0));
    assert Meaning(Map(b)) == P.JObj(MemberMeanings(Map(b), ks, 0));
    MeaningOfMember(Map(a), ks, 0, n);
    MeaningOfMember(Map(b), ks, 0, n);
  }

  /** Distinct plain values never print alike. */
  lemma EncodingIsInjective(v: Value, w: Value)
    requires Plain(v) && Plain(w) && EncodeValue(v) == EncodeValue(w)
    ensures v == w
  {
    SameTextSameMeaning(v, w);
    PlainIsRecovered(v);
    PlainIsRecovered(w);
  }

  // ---- framing

  /** No byte of a printed value is a control byte; in particular none is a newline. */
  lemma {:induction false} NoControlBytes(v: Value)
    ensures forall b | b in EncodeValue(v) :: b >= 0x20
    decreases v, 1
  {
    hide EncodeElements, EncodeMembers, SortedKeys, StrictlySorted;
    if v.List? {
      NoControlInElements(v, 0);
      assert EncodeValue(v) == [LBRACKET] + EncodeElements(v, 0) + [RBRACKET];
    } else if v.Map? {
      var ks := SortedKeys(v.m.Keys);
      assert forall k | k in ks :: k in Elements(ks);
      NoControlInMembers(v, ks, 0);
      assert EncodeValue(v) == [LBRACE] + EncodeMembers(v, ks, 0) + [RBRACE];
    } else {
      NoControlInLeaf(v);
    }
  }

  lemma NoControlInLeaf(v: Value)
    requires !v.List? && !v.Map?
    ensures forall b | b in EncodeValue(v) :: b >= 0x20
  {
    match v
    case Null =>
    case Bool(_) =>
    case Int(n) => DecimalShape(if n < 0 then -n else n);
    case Str(s) => EscapedIsClean(s);
    case Error(msg, _, _) => EscapedIsClean(msg);
    case Strs(ss) => NoControlInStrings(ss, 0);
  }

  predicate NoControl(t: bytes) {
    forall b | b in t :: b >= 0x20
  }

  lemma NoControlInPieces(a: bytes, b: bytes, c: bytes)
    requires NoControl(a) && NoControl(b) && NoControl(c)
    ensures NoControl(a + b + c)
  {
  }

  lemma {:induction false} NoControlInStrings(ss: seq<bytes>, i: nat)
    requires i <= |ss|
    ensures forall b | b in EncodeStrings(ss, i) :: b >= 0x20
    decreases |ss| - i
  {
    if i < |ss| {
      EscapedIsClean(ss[i]);
      assert NoControl(EncodeString(ss[i]));
      NoControlInStrings(ss, i + 1);
      NoControlInPieces(Comma(i), EncodeString(ss[i]), EncodeStrings(ss, i + 1));
    }
  }

  lemma {:induction false} NoControlInElements(v: Value, i: nat)
    requires v.List? && i <= |v.vs|
    ensures forall b | b in EncodeElements(v, i) :: b >= 0x20
    decreases v, 0, |v.vs| - i
  {
    if i < |v.vs| {
      NoControlBytes(v.vs[i]);
      NoControlInElements(v, i + 1);
      NoControlInPieces(Comma(i), EncodeValue(v.vs[i]), EncodeElements(v, i + 1));
    }
  }

  lemma {:induction false} NoControlInMembers(v: Value, ks: seq<bytes>, i: nat)
    requires v.Map? && i <= |ks| && forall k | k in ks :: k in v.m
    ensures forall b | b in EncodeMembers(v, ks, i) :: b >= 0x20
    decreases v, 0, |ks| - i
  {
    if i < |ks| {
      EscapedIsClean(ks[i]);
      NoControlBytes(v.m[ks[i]]);
      assert NoControl(EncodeString(ks[i]));
      NoControlInPieces(EncodeString(ks[i]), [COLON], EncodeValue(v.m[ks[i]]));
      NoControlInMembers(v, ks, i + 1);
      NoControlInPieces(Comma(i), EncodeMember(ks[i], v.m[ks[i]]), EncodeMembers(v, ks, i + 1));
    }
  }

  /** The line writeEntry hands to the writer. */
  ghost function Line(entry: Fields): bytes {
    EncodeEntry(entry) + [NEWLINE]
  }

  ghost function Stream(entries: seq<Fields>): bytes {
    if entries == [] then [] else Line(entries[0]) + Stream(entries[1..])
  }

  /** The newline-terminated lines of a stream, without their newlines, and what follows the last newline. */
  function SplitLines(t: bytes): (seq<bytes>, bytes)
    decreases |t|
  {
    if NEWLINE !in t then ([], t) else
      var line := Before(t, NEWLINE);
      var (lines, rest) := SplitLines(t[|line| + 1..]);
      ([line] + lines, rest)
  }

  /** Splitting the output at newlines recovers the entries, one line each, in order, with nothing left over. */
  lemma {:induction false} Framing(entries: seq<Fields>)
    ensures var (lines, rest) := SplitLines(Stream(entries));
            && rest == []
            && |lines| == |entries|
            && forall i | 0 <= i < |entries| ::
                 lines[i] == EncodeEntry(entries[i]) && P.ParseText(lines[i]) == Some(Meaning(Map(entries[i])))
  {
    if entries != [] {
      var e, t := EncodeEntry(entries[0]), Stream(entries);
      var more := Stream(entries[1..]);
      NoControlBytes(Map(entries[0]));
      assert t == e + [NEWLINE] + more;
      BeforeClean(e, NEWLINE, more);
      assert t[|e|] == NEWLINE && t[|e| + 1..] == more;
      EntryRoundTrip(entries[0]);
      Framing(entries[1..]);
    }
  }
}
