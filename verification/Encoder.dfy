/** encode.go: the hand-rolled JSON printer, and the functions its loops are proved against. */
module Encoder {
  import opened Bytes
  import opened Utf8
  import opened Values

  const NULL_TEXT: bytes := [0x6E, 0x75, 0x6C, 0x6C]
  const TRUE_TEXT: bytes := [0x74, 0x72, 0x75, 0x65]
  const FALSE_TEXT: bytes := [0x66, 0x61, 0x6C, 0x73, 0x65]

  function HexDigit(b: byte): (r: byte)
    requires b < 16
    ensures 0x30 <= r <= 0x39 || 0x61 <= r <= 0x66
  {
    if b < 10 then 0x30 + b else 0x61 + (b - 10)
  }

  /** How many bytes of a nonempty string the printer consumes in one iteration. */
  function UnitSize(s: bytes): (n: nat)
    requires s != []
    ensures 1 <= n <= |s|
  {
    DecodeRune(s).size
  }

  /** What the printer appends for the first unit of a nonempty string. */
  function Unit(s: bytes): (r: bytes)
    requires s != []
    ensures r != []
  {
    var b := s[0];
    if b < 0x80 then
      if b == QUOTE then [BACKSLASH, QUOTE]
      else if b == BACKSLASH then [BACKSLASH, BACKSLASH]
      else if b == 0x0A then [BACKSLASH, 0x6E]
      else if b == 0x0D then [BACKSLASH, 0x72]
      else if b == 0x09 then [BACKSLASH, 0x74]
      else if b < 0x20 then [BACKSLASH, 0x75, 0x30, 0x30, HexDigit(b / 16), HexDigit(b % 16)]
      else [b]
    else if IsError(DecodeRune(s)) then [BACKSLASH, 0x75, 0x66, 0x66, 0x66, 0x64]
    else s[..DecodeRune(s).size]
  }

  /** The text between the quotes. */
  function Escaped(s: bytes): bytes
    decreases |s|
  {
    if s == [] then [] else Unit(s) + Escaped(s[UnitSize(s)..])
  }

  function EncodeString(s: bytes): bytes {
    [QUOTE] + Escaped(s) + [QUOTE]
  }

  /** strconv.AppendUint and AppendInt in base 10. */
  function Decimal(n: nat): (r: bytes)
    ensures r != []
  {
    if n < 10 then [0x30 + n as byte] else Decimal(n / 10) + [0x30 + (n % 10) as byte]
  }

  function EncodeInt(n: int): (r: bytes)
    ensures r != []
  {
    if n < 0 then [0x2D] + Decimal(-n) else Decimal(n)
  }

  ghost function EncodeValue(v: Value): bytes
    decreases v, 1
  {
    match v
    case Null => NULL_TEXT
    case Str(s) => EncodeString(s)
    case Bool(b) => if b then TRUE_TEXT else FALSE_TEXT
    case Int(n) => EncodeInt(n)
    case Error(msg, _, _) => EncodeString(msg)
    case Strs(ss) => [LBRACKET] + EncodeStrings(ss, 0) + [RBRACKET]
    case List(vs) => [LBRACKET] + EncodeElements(v, 0) + [RBRACKET]
    case Map(m) => [LBRACE] + EncodeMembers(v, SortedKeys(m.Keys), 0) + [RBRACE]
  }

  /** Every item of a list but the first is preceded by a comma. */
  function Comma(i: nat): bytes {
    if i > 0 then [COMMA] else []
  }

  function EncodeStrings(ss: seq<bytes>, i: nat): bytes
    requires i <= |ss|
    decreases |ss| - i
  {
    if i == |ss| then [] else Comma(i) + EncodeString(ss[i]) + EncodeStrings(ss, i + 1)
  }

  /** The elements of list `v` from index `i` on. */
  ghost function EncodeElements(v: Value, i: nat): bytes
    requires v.List? && i <= |v.vs|
    decreases v, 0, |v.vs| - i
  {
    if i == |v.vs| then [] else Comma(i) + EncodeValue(v.vs[i]) + EncodeElements(v, i + 1)
  }

  /** The members of map `v` under the keys `ks` from index `i` on. */
  ghost function EncodeMembers(v: Value, ks: seq<bytes>, i: nat): bytes
    requires v.Map? && i <= |ks| && forall k | k in ks :: k in v.m
    decreases v, 0, |ks| - i
  {
    if i == |ks| then [] else Comma(i) + EncodeMember(ks[i], v.m[ks[i]]) + EncodeMembers(v, ks, i + 1)
  }

  ghost function EncodeMember(k: bytes, v: Value): bytes
    decreases v, 2
  {
    EncodeString(k) + [COLON] + EncodeValue(v)
  }

  ghost function EncodeEntry(entry: Fields): bytes {
    EncodeValue(Map(entry))
  }

  /** The loop body of appendJSONString at index `i`. */
  method AppendUnit(dst: bytes, s: bytes, i: nat) returns (out: bytes, size: nat)
    requires i < |s|
    ensures out == dst + Unit(s[i..]) && size == UnitSize(s[i..])
  {
    var b := s[i];
    if b < 0x80 {
      if b == QUOTE {
        out := dst + [BACKSLASH, QUOTE];
      } else if b == BACKSLASH {
        out := dst + [BACKSLASH, BACKSLASH];
      } else if b == 0x0A {
        out := dst + [BACKSLASH, 0x6E];
      } else if b == 0x0D {
        out := dst + [BACKSLASH, 0x72];
      } else if b == 0x09 {
        out := dst + [BACKSLASH, 0x74];
      } else if b < 0x20 {
        out := dst + [BACKSLASH, 0x75, 0x30, 0x30];
        out := out + [HexDigit(b / 16), HexDigit(b % 16)];
      } else {
        out := dst + [b];
      }
      size := 1;
    } else {
      var r := DecodeRune(s[i..]);
      if IsError(r) {
        out := dst + [BACKSLASH, 0x75, 0x66, 0x66, 0x66, 0x64];
      } else {
        out := dst + s[i..i + r.size];
      }
      size := r.size;
    }
  }

  /** appendJSONString: one pass over the bytes of `s`. */
  method AppendJSONString(dst: bytes, s: bytes) returns (out: bytes)
    ensures out == dst + EncodeString(s)
  {
    out := dst + [QUOTE];
    ghost var head, done := out, [];
    var i := 0;
    while i < |s|
      invariant 0 <= i <= |s|
      invariant out == head + done && Printed(s, i, done)
    {
      var size;
      PrintedStep(head, done, s, i);
      done := done + Unit(s[i..]);
      out, size := AppendUnit(out, s, i);
      i := i + size;
    }
    PrintedAll(s, done);
    out := out + [QUOTE];
    GlueBrackets(dst, [QUOTE], done, [QUOTE]);
  }

  /** `done` is the text of the first `i` bytes of `s`. */
  ghost predicate Printed(s: bytes, i: nat, done: bytes) {
    i <= |s| && Escaped(s) == done + Escaped(s[i..])
  }

  lemma PrintedAll(s: bytes, done: bytes)
    requires Printed(s, |s|, done)
    ensures Escaped(s) == done
  {
    assert s[|s|..] == [] && done + [] == done;
  }

  lemma PrintedStep(head: bytes, done: bytes, s: bytes, i: nat)
    requires i < |s| && Printed(s, i, done)
    ensures Printed(s, i + UnitSize(s[i..]), done + Unit(s[i..]))
    ensures head + done + Unit(s[i..]) == head + (done + Unit(s[i..]))
  {
    var n := UnitSize(s[i..]);
    assert s[i..][n..] == s[i + n..];
    GlueItem(head, done, [], Unit(s[i..]), Escaped(s[i + n..]));
  }

  /** appendJSONValue. */
  method AppendJSONValue(dst: bytes, v: Value) returns (out: bytes)
    ensures out == dst + EncodeValue(v)
    decreases v, 1
  {
    match v
    case Null => out := dst + NULL_TEXT;
    case Str(s) => out := AppendJSONString(dst, s);
    case Bool(b) => out := dst + if b then TRUE_TEXT else FALSE_TEXT;
    case Int(n) => out := dst + EncodeInt(n);
    case Error(msg, _, _) => out := AppendJSONString(dst, msg);
    case Map(_) => out := AppendJSONEntry(dst, v);
    case Strs(ss) => out := AppendStrings(dst, ss);
    case List(_) => out := AppendElements(dst, v);
  }

  /** The []string case of appendJSONValue. */
  method AppendStrings(dst: bytes, ss: seq<bytes>) returns (out: bytes)
    ensures out == dst + EncodeValue(Strs(ss))
  {
    out := dst + [LBRACKET];
    ghost var head, done := out, [];
    for i := 0 to |ss|
      invariant out == head + done
      invariant EncodeStrings(ss, 0) == done + EncodeStrings(ss, i)
    {
      GlueItem(head, done, Comma(i), EncodeString(ss[i]), EncodeStrings(ss, i + 1));
      if i > 0 { out := out + [COMMA]; }
      out := AppendJSONString(out, ss[i]);
      done := done + (Comma(i) + EncodeString(ss[i]));
    }
    out := out + [RBRACKET];
    GlueBrackets(dst, [LBRACKET], done, [RBRACKET]);
  }

  /** The []any case of appendJSONValue. */
  method AppendElements(dst: bytes, v: Value) returns (out: bytes)
    requires v.List?
    ensures out == dst + EncodeValue(v)
    decreases v, 0
  {
    out := dst + [LBRACKET];
    ghost var head, done := out, [];
    for i := 0 to |v.vs|
      invariant out == head + done
      invariant EncodeElements(v, 0) == done + EncodeElements(v, i)
    {
      GlueItem(head, done, Comma(i), EncodeValue(v.vs[i]), EncodeElements(v, i + 1));
      if i > 0 { out := out + [COMMA]; }
      out := AppendJSONValue(out, v.vs[i]);
      done := done + (Comma(i) + EncodeValue(v.vs[i]));
    }
    out := out + [RBRACKET];
    GlueBrackets(dst, [LBRACKET], done, [RBRACKET]);
  }

  /** The bookkeeping of one printing iteration: `item` moves from what is to come to what is done. */
  lemma GlueItem(head: bytes, done: bytes, comma: bytes, item: bytes, rest: bytes)
    ensures head + done + comma + item == head + (done + (comma + item))
    ensures head + done + [] == head + done
    ensures done + (comma + item + rest) == done + (comma + item) + rest
    ensures [] + item == item
  {
  }

  lemma GlueBrackets(dst: bytes, open: bytes, done: bytes, close: bytes)
    ensures dst + open + done + close == dst + (open + done + close)
    ensures done + [] == done
  {
  }

  /** appendJSONEntry: the keys are collected in whatever order the map yields them, then sorted. */
  method AppendJSONEntry(dst: bytes, v: Value) returns (out: bytes)
    requires v.Map?
    ensures out == dst + EncodeValue(v)
    decreases v, 0
  {
    var keys := CollectKeys(v.m);
    keys := SortStrings(keys);
    assert forall k | k in keys :: k in Elements(keys);
    out := dst + [LBRACE];
    ghost var head, done := out, [];
    for i := 0 to |keys|
      invariant out == head + done
      invariant EncodeMembers(v, keys, 0) == done + EncodeMembers(v, keys, i)
    {
      var k := keys[i];
      GlueItem(head, done, Comma(i), EncodeMember(k, v.m[k]), EncodeMembers(v, keys, i + 1));
      if i > 0 { out := out + [COMMA]; }
      out := AppendJSONMember(out, k, v.m[k]);
      done := done + (Comma(i) + EncodeMember(k, v.m[k]));
    }
    out := out + [RBRACE];
    GlueBrackets(dst, [LBRACE], done, [RBRACE]);
  }

  /** The three appends of one member. */
  method AppendJSONMember(dst: bytes, k: bytes, v: Value) returns (out: bytes)
    ensures out == dst + EncodeMember(k, v)
    decreases v, 2
  {
    out := AppendJSONString(dst, k);
    out := out + [COLON];
    out := AppendJSONValue(out, v);
    GlueBrackets(dst, EncodeString(k), [COLON], EncodeValue(v));
  }

  /** A range over a map: every key once, in an order the language does not fix. */
  method CollectKeys(m: Fields) returns (keys: seq<bytes>)
    ensures Elements(keys) == m.Keys && |keys| == |m.Keys|
  {
    keys := [];
    var todo := m.Keys;
    while todo != {}
      invariant Elements(keys) + todo == m.Keys && Elements(keys) !! todo
      invariant |keys| + |todo| == |m.Keys|
      decreases todo
    {
      var k :| k in todo;
      ElementsAppend(keys, k);
      keys := keys + [k];
      todo := todo - {k};
    }
  }
}
