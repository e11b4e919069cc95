/** The JSON grammar of RFC 8259 (sections 2 to 7) as a parser, the yardstick for the encoder. */
module Rfc8259 {
  import opened Bytes
  import opened Utf8

  /** A parsed value. Members keep document order; a number with a fraction or exponent keeps its lexeme. */
  datatype Json =
    | JNull
    | JBool(b: bool)
    | JInt(n: int)
    | JReal(lexeme: bytes)
    | JStr(s: bytes)
    | JArr(elems: seq<Json>)
    | JObj(members: seq<Member>)
  datatype Member = Member(key: bytes, value: Json)

  /** The result of parsing a prefix of the input: what was read and what is left. */
  datatype Parsed<+T> = Fail | Read(value: T, rest: bytes)

  predicate IsWs(b: byte) {
    b == 0x20 || b == 0x09 || b == 0x0A || b == 0x0D
  }

  function SkipWs(t: bytes): (r: bytes)
    ensures |r| <= |t|
  {
    if t != [] && IsWs(t[0]) then SkipWs(t[1..]) else t
  }

  predicate IsDigit(b: byte) {
    0x30 <= b <= 0x39
  }

  // ---- strings, section 7

  function HexValue(b: byte): Option<nat> {
    if 0x30 <= b <= 0x39 then Some(b as int - 0x30)
    else if 0x41 <= b <= 0x46 then Some(b as int - 0x41 + 10)
    else if 0x61 <= b <= 0x66 then Some(b as int - 0x61 + 10)
    else None
  }

  /** The code unit written as `\uXXXX` at the front of `t`. */
  function CodeUnit(t: bytes): (r: Option<nat>)
    ensures r.Some? ==> |t| >= 6 && r.value < 0x10000
  {
    if |t| < 6 || t[0] != BACKSLASH || t[1] != 0x75 then None else
      var a, b, c, d := HexValue(t[2]), HexValue(t[3]), HexValue(t[4]), HexValue(t[5]);
      if a.None? || b.None? || c.None? || d.None? then None
      else Some(a.value * 4096 + b.value * 256 + c.value * 16 + d.value)
  }

  /** The scalar value a `\u` escape denotes, with its length; a surrogate counts only as half of a pair. */
  function UnicodeEscape(t: bytes): (r: Option<(int, nat)>)
    ensures r.Some? ==> Scalar(r.value.0) && 0 < r.value.1 <= |t|
  {
    var hi := CodeUnit(t);
    if hi.None? then None
    else if !(0xD800 <= hi.value < 0xE000) then Some((hi.value, 6))
    else
      var lo := CodeUnit(t[6..]);
      if hi.value < 0xDC00 && lo.Some? && 0xDC00 <= lo.value < 0xE000
      then Some((0x10000 + (hi.value - 0xD800) * 0x400 + (lo.value - 0xDC00), 12))
      else None
  }

  /** One `char` of section 7: the UTF-8 text it stands for and the bytes it occupies. */
  function ParseChar(t: bytes): (r: Option<(bytes, nat)>)
    requires t != []
    ensures r.Some? ==> 0 < r.value.1 <= |t|
  {
    if t[0] == BACKSLASH then
      if |t| < 2 then None
      else if t[1] == QUOTE || t[1] == BACKSLASH || t[1] == 0x2F then Some(([t[1]], 2))
      else if t[1] == 0x62 then Some(([0x08], 2))
      else if t[1] == 0x66 then Some(([0x0C], 2))
      else if t[1] == 0x6E then Some(([0x0A], 2))
      else if t[1] == 0x72 then Some(([0x0D], 2))
      else if t[1] == 0x74 then Some(([0x09], 2))
      else match UnicodeEscape(t) case Some(e) => Some((EncodeRune(e.0), e.1)) case None => None
    else if t[0] < 0x20 || t[0] == QUOTE || IsError(DecodeRune(t)) then None
    else Some((t[..DecodeRune(t).size], DecodeRune(t).size))
  }

  /** The rest of a string literal, after its opening quote. */
  function ParseChars(t: bytes): (r: Parsed<bytes>)
    ensures r.Read? ==> |r.rest| < |t|
    decreases |t|
  {
    if t == [] then Fail
    else if t[0] == QUOTE then Read([], t[1..])
    else
      match ParseChar(t)
      case None => Fail
      case Some(c) =>
        match ParseChars(t[c.1..])
        case Fail => Fail
        case Read(s, rest) => Read(c.0 + s, rest)
  }

  // ---- numbers, section 6

  function Digits(t: bytes): (r: bytes)
    ensures r <= t && forall b | b in r :: IsDigit(b)
  {
    if t != [] && IsDigit(t[0]) then [t[0]] + Digits(t[1..]) else []
  }

  function DigitsValue(ds: bytes): nat
    requires forall b | b in ds :: IsDigit(b)
  {
    if ds == [] then 0 else DigitsValue(ds[..|ds| - 1]) * 10 + DigitValue(ds[|ds| - 1])
  }

  function DigitValue(b: byte): nat
    requires IsDigit(b)
  {
    b as int - 0x30
  }

  /** How long a `frac` is at the front of `t`; 0 when there is none. */
  function FracLen(t: bytes): (n: nat)
    ensures n <= |t|
  {
    if t != [] && t[0] == 0x2E && Digits(t[1..]) != [] then 1 + |Digits(t[1..])| else 0
  }

  /** How long an `exp` is at the front of `t`; 0 when there is none. */
  function ExpLen(t: bytes): (n: nat)
    ensures n <= |t|
  {
    if t == [] || (t[0] != 0x65 && t[0] != 0x45) then 0 else
      var sign := if |t| > 1 && (t[1] == 0x2B || t[1] == 0x2D) then 2 else 1;
      if Digits(t[sign..]) == [] then 0 else sign + |Digits(t[sign..])|
  }

  function Signed(neg: bool, n: int): int {
    if neg then -n else n
  }

  function ParseNumber(t: bytes): (r: Parsed<Json>)
    ensures r.Read? ==> |r.rest| < |t|
  {
    var neg := t != [] && t[0] == 0x2D;
    var u := if neg then t[1..] else t;
    var ds := Digits(u);
    if ds == [] || (ds[0] == 0x30 && |ds| > 1) then Fail else
      var v := u[|ds|..];
      var f := FracLen(v);
      var e := ExpLen(v[f..]);
      if f == 0 && e == 0 then Read(JInt(Signed(neg, DigitsValue(ds))), v)
      else Read(JReal(t[..|t| - |v| + f + e]), v[f + e..])
  }

  /** Bytes that could continue a number lexeme. */
  predicate ExtendsNumber(t: bytes) {
    t != [] && (IsDigit(t[0]) || t[0] == 0x2E || t[0] == 0x65 || t[0] == 0x45)
  }

  // ---- values, sections 3 to 5

  const NULL_TEXT: bytes := [0x6E, 0x75, 0x6C, 0x6C]
  const TRUE_TEXT: bytes := [0x74, 0x72, 0x75, 0x65]
  const FALSE_TEXT: bytes := [0x66, 0x61, 0x6C, 0x73, 0x65]

  /** A value at the front of `t`, which has no leading white space. */
  function ParseValue(t: bytes): (r: Parsed<Json>)
    ensures r.Read? ==> |r.rest| < |t|
    decreases |t|, 0
  {
    if t == [] then Fail
    else if t[0] == QUOTE then
      match ParseChars(t[1..]) case Fail => Fail case Read(s, rest) => Read(JStr(s), rest)
    else if t[0] == LBRACKET then
      var u := SkipWs(t[1..]);
      if u != [] && u[0] == RBRACKET then Read(JArr([]), u[1..])
      else match ParseElements(u) case Fail => Fail case Read(es, rest) => Read(JArr(es), rest)
    else if t[0] == LBRACE then
      var u := SkipWs(t[1..]);
      if u != [] && u[0] == RBRACE then Read(JObj([]), u[1..])
      else match ParseMembers(u) case Fail => Fail case Read(ms, rest) => Read(JObj(ms), rest)
    else if NULL_TEXT <= t then Read(JNull, t[4..])
    else if TRUE_TEXT <= t then Read(JBool(true), t[4..])
    else if FALSE_TEXT <= t then Read(JBool(false), t[5..])
    else ParseNumber(t)
  }

  /** One or more elements and the closing bracket. */
  function ParseElements(t: bytes): (r: Parsed<seq<Json>>)
    ensures r.Read? ==> |r.rest| < |t|
    decreases |t|, 1
  {
    match ParseValue(t)
    case Fail => Fail
    case Read(v, rest) =>
      var u := SkipWs(rest);
      if u != [] && u[0] == RBRACKET then Read([v], u[1..])
      else if u != [] && u[0] == COMMA then
        match ParseElements(SkipWs(u[1..])) case Fail => Fail case Read(vs, rest') => Read([v] + vs, rest')
      else Fail
  }

  /** One `string : value` member. */
  function ParseMember(t: bytes): (r: Parsed<Member>)
    ensures r.Read? ==> |r.rest| < |t|
    decreases |t|, 1
  {
    if t == [] || t[0] != QUOTE then Fail else
      match ParseChars(t[1..])
      case Fail => Fail
      case Read(k, rest) =>
        var u := SkipWs(rest);
        if u == [] || u[0] != COLON then Fail else
          match ParseValue(SkipWs(u[1..])) case Fail => Fail case Read(v, rest') => Read(Member(k, v), rest')
  }

  /** One or more members and the closing brace. */
  function ParseMembers(t: bytes): (r: Parsed<seq<Member>>)
    ensures r.Read? ==> |r.rest| < |t|
    decreases |t|, 2
  {
    match ParseMember(t)
    case Fail => Fail
    case Read(m, rest) =>
      var u := SkipWs(rest);
      if u != [] && u[0] == RBRACE then Read([m], u[1..])
      else if u != [] && u[0] == COMMA then
        match ParseMembers(SkipWs(u[1..])) case Fail => Fail case Read(ms, rest') => Read([m] + ms, rest')
      else Fail
  }

  /** A JSON text: white space, one value, white space, nothing else. */
  function ParseText(t: bytes): Option<Json> {
    match ParseValue(SkipWs(t))
    case Read(v, rest) => if SkipWs(rest) == [] then Some(v) else None
    case Fail => None
  }

  // ---- how each production reads its text

  lemma ReadString(t: bytes, s: bytes, rest: bytes)
    requires ParseChars(t) == Read(s, rest)
    ensures ParseValue([QUOTE] + t) == Read(JStr(s), rest)
  {
    assert ([QUOTE] + t)[1..] == t;
  }

  lemma ParseInt(neg: bool, ds: bytes, rest: bytes, t: bytes)
    requires ds != [] && (forall b | b in ds :: IsDigit(b)) && (ds[0] == 0x30 ==> |ds| == 1)
    requires Digits(ds + rest) == ds && !ExtendsNumber(rest)
    requires t != [] && (t[0] == 0x2D <==> neg) && (if neg then t[1..] else t) == ds + rest
    ensures ParseNumber(t) == Read(JInt(Signed(neg, DigitsValue(ds))), rest)
  {
    assert (ds + rest)[|ds|..] == rest;
    assert FracLen(rest) == 0 && rest[0..] == rest && ExpLen(rest) == 0;
  }

  lemma NumberIsRead(t: bytes)
    requires t != [] && (t[0] == 0x2D || IsDigit(t[0]))
    ensures ParseValue(t) == ParseNumber(t)
  {
    assert !(NULL_TEXT <= t) by { assert NULL_TEXT[0] == 0x6E; }
    assert !(TRUE_TEXT <= t) by { assert TRUE_TEXT[0] == 0x74; }
    assert !(FALSE_TEXT <= t) by { assert FALSE_TEXT[0] == 0x66; }
  }

  lemma ReadNumber(neg: bool, ds: bytes, rest: bytes)
    requires ds != [] && (forall b | b in ds :: IsDigit(b)) && (ds[0] == 0x30 ==> |ds| == 1)
    requires Digits(ds + rest) == ds && !ExtendsNumber(rest)
    ensures ParseValue((if neg then [0x2D] else []) + (ds + rest)) == Read(JInt(Signed(neg, DigitsValue(ds))), rest)
  {
    var u := ds + rest;
    assert u[0] == ds[0] && ds[0] in ds;
    var t := if neg then [0x2D] + u else u;
    assert (if neg then [0x2D] else []) + u == t;
    assert neg ==> t[1..] == u;
    ParseInt(neg, ds, rest, t);
    NumberIsRead(t);
  }

  /** `t` starts a value or member: it can be parsed without skipping white space and does not close anything. */
  predicate Starts(t: bytes) {
    t != [] && !IsWs(t[0]) && t[0] != RBRACKET && t[0] != RBRACE
  }

  lemma ReadArray(t: bytes, es: seq<Json>, rest: bytes)
    requires Starts(t) && ParseElements(t) == Read(es, rest)
    ensures ParseValue([LBRACKET] + t) == Read(JArr(es), rest)
  {
    assert ([LBRACKET] + t)[1..] == t;
  }

  lemma ReadEmptyArray(rest: bytes)
    ensures ParseValue([LBRACKET] + ([RBRACKET] + rest)) == Read(JArr([]), rest)
  {
    var u := [RBRACKET] + rest;
    assert ([LBRACKET] + u)[1..] == u && u[1..] == rest;
  }

  lemma ReadLastElement(t: bytes, v: Json, rest: bytes)
    requires ParseValue(t) == Read(v, [RBRACKET] + rest)
    ensures ParseElements(t) == Read([v], rest)
  {
    assert ([RBRACKET] + rest)[1..] == rest;
  }

  lemma ReadElement(t: bytes, v: Json, u: bytes, vs: seq<Json>, rest: bytes)
    requires ParseValue(t) == Read(v, [COMMA] + u) && |u| < |t|
    requires Starts(u) && ParseElements(u) == Read(vs, rest)
    ensures ParseElements(t) == Read([v] + vs, rest)
  {
    assert ([COMMA] + u)[1..] == u;
  }

  lemma ReadObject(t: bytes, ms: seq<Member>, rest: bytes)
    requires Starts(t) && ParseMembers(t) == Read(ms, rest)
    ensures ParseValue([LBRACE] + t) == Read(JObj(ms), rest)
  {
    assert ([LBRACE] + t)[1..] == t;
  }

  lemma ReadEmptyObject(rest: bytes)
    ensures ParseValue([LBRACE] + ([RBRACE] + rest)) == Read(JObj([]), rest)
  {
    var u := [RBRACE] + rest;
    assert ([LBRACE] + u)[1..] == u && u[1..] == rest;
  }

  lemma ReadMember(t: bytes, k: bytes, u: bytes, v: Json, rest: bytes)
    requires ParseChars(t) == Read(k, [COLON] + u) && Starts(u) && ParseValue(u) == Read(v, rest)
    ensures ParseMember([QUOTE] + t) == Read(Member(k, v), rest)
  {
    assert ([QUOTE] + t)[1..] == t;
    assert ([COLON] + u)[1..] == u;
  }

  lemma ReadLastMember(t: bytes, m: Member, rest: bytes)
    requires ParseMember(t) == Read(m, [RBRACE] + rest)
    ensures ParseMembers(t) == Read([m], rest)
  {
    assert ([RBRACE] + rest)[1..] == rest;
  }

  lemma ReadMoreMembers(t: bytes, m: Member, u: bytes, ms: seq<Member>, rest: bytes)
    requires ParseMember(t) == Read(m, [COMMA] + u) && |u| < |t|
    requires Starts(u) && ParseMembers(u) == Read(ms, rest)
    ensures ParseMembers(t) == Read([m] + ms, rest)
  {
    assert ([COMMA] + u)[1..] == u;
  }
}
