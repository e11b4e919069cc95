/** The text sanitizer of formatter.go: a scanner that removes ANSI control sequences and escapes line breaks. */
module Ansi {
  import opened Bytes

  /** isANSITerminator: the final bytes of a control sequence, section 5.4 of ECMA-48. */
  predicate IsTerminator(b: byte) {
    0x40 <= b <= 0x7E
  }

  predicate StartsSequence(s: bytes) {
    |s| >= 2 && s[0] == ESC && s[1] == LBRACKET
  }

  /** What is left after a control sequence whose introducer has been read; nothing if it never ends. */
  function AfterSequence(s: bytes): (r: bytes)
    ensures |r| <= |s|
  {
    if s == [] then [] else if IsTerminator(s[0]) then s[1..] else AfterSequence(s[1..])
  }

  function Strip(s: bytes): bytes
    decreases |s|
  {
    if s == [] then []
    else if StartsSequence(s) then Strip(AfterSequence(s[2..]))
    else [s[0]] + Strip(s[1..])
  }

  /** stripANSI. */
  method StripANSI(s: bytes) returns (r: bytes)
    ensures r == Strip(s)
  {
    if ESC !in s {
      NothingToStrip(s);
      return s;
    }
    var b: bytes := [];
    var i := 0;
    while i < |s|
      invariant 0 <= i <= |s|
      invariant b + Strip(s[i..]) == Strip(s)
    {
      ghost var i0 := i;
      if s[i] == ESC && i + 1 < |s| && s[i + 1] == LBRACKET {
        i := i + 2;
        while i < |s| && !IsTerminator(s[i])
          invariant i0 + 2 <= i <= |s|
          invariant AfterSequence(s[i0..][2..]) == AfterSequence(s[i..])
        {
          assert s[i..][1..] == s[i + 1..];
          i := i + 1;
        }
        assert i < |s| ==> s[i..][1..] == s[i + 1..];
        if i < |s| { i := i + 1; }
        assert Strip(s[i0..]) == Strip(s[i..]);
      } else {
        assert s[i..][1..] == s[i + 1..];
        assert b + [s[i]] + Strip(s[i + 1..]) == b + Strip(s[i..]);
        b := b + [s[i]];
        i := i + 1;
      }
    }
    return b;
  }

  /** The fast path: without an ESC byte there is nothing to remove. */
  lemma {:induction false} NothingToStrip(s: bytes)
    requires ESC !in s
    ensures Strip(s) == s
  {
    if s != [] { NothingToStrip(s[1..]); }
  }

  // ---- the reference: text as a sequence of bytes and control sequences

  /** A byte of plain text, a complete control sequence, or one cut off by the end of the text. */
  datatype Token = Text(b: byte) | Sequence(body: bytes, final: byte) | Unfinished(body: bytes)

  function RenderToken(t: Token): bytes {
    match t
    case Text(b) => [b]
    case Sequence(body, final) => [ESC, LBRACKET] + body + [final]
    case Unfinished(body) => [ESC, LBRACKET] + body
  }

  function Render(ts: seq<Token>): bytes {
    if ts == [] then [] else RenderToken(ts[0]) + Render(ts[1..])
  }

  /** A proper tokenization: bodies hold no final byte, only the last token may be unfinished, and a plain ESC is not
      one that introduces a sequence. */
  predicate Proper(ts: seq<Token>) {
    ts == [] || (Proper(ts[1..]) && Fits(ts[0], ts[1..]))
  }

  predicate Fits(t: Token, more: seq<Token>) {
    match t
    case Text(b) => b == ESC ==> Render(more) == [] || Render(more)[0] != LBRACKET
    case Sequence(body, final) => IsTerminator(final) && forall c | c in body :: !IsTerminator(c)
    case Unfinished(body) => more == [] && forall c | c in body :: !IsTerminator(c)
  }

  /** The plain text of a token sequence. */
  function Texts(ts: seq<Token>): bytes {
    if ts == [] then [] else (if ts[0].Text? then [ts[0].b] else []) + Texts(ts[1..])
  }

  lemma {:induction false} AfterBody(body: bytes, rest: bytes)
    requires forall c | c in body :: !IsTerminator(c)
    ensures AfterSequence(body + rest) == AfterSequence(rest)
  {
    if body == [] {
      assert body + rest == rest;
    } else {
      assert (body + rest)[1..] == body[1..] + rest;
      AfterBody(body[1..], rest);
    }
  }

  lemma TextKept(b: byte, rest: bytes)
    requires b == ESC ==> rest == [] || rest[0] != LBRACKET
    ensures Strip([b] + rest) == [b] + Strip(rest)
  {
    assert ([b] + rest)[1..] == rest;
  }

  lemma SequenceRemoved(body: bytes, final: byte, rest: bytes)
    requires IsTerminator(final) && forall c | c in body :: !IsTerminator(c)
    ensures Strip([ESC, LBRACKET] + body + [final] + rest) == Strip(rest)
  {
    var s := [ESC, LBRACKET] + body + [final] + rest;
    assert s[2..] == body + ([final] + rest);
    AfterBody(body, [final] + rest);
    assert ([final] + rest)[1..] == rest;
  }

  lemma UnfinishedRemoved(body: bytes)
    requires forall c | c in body :: !IsTerminator(c)
    ensures Strip([ESC, LBRACKET] + body) == []
  {
    var s := [ESC, LBRACKET] + body;
    assert s[2..] == body + [];
    AfterBody(body, []);
  }

  /** The scanner keeps exactly the plain text, for every proper tokenization of its input. */
  lemma {:induction false} StripKeepsTexts(ts: seq<Token>)
    requires Proper(ts)
    ensures Strip(Render(ts)) == Texts(ts)
  {
    if ts != [] {
      var rest := Render(ts[1..]);
      StripKeepsTexts(ts[1..]);
      match ts[0]
      case Text(b) => TextKept(b, rest);
      case Sequence(body, final) => SequenceRemoved(body, final, rest);
      case Unfinished(body) =>
        UnfinishedRemoved(body);
        assert RenderToken(ts[0]) + [] == RenderToken(ts[0]);
    }
  }

  lemma ProperCons(t: Token, more: seq<Token>)
    requires Proper(more) && Fits(t, more)
    ensures Proper([t] + more) && Render([t] + more) == RenderToken(t) + Render(more)
  {
    assert ([t] + more)[1..] == more;
  }

  /** The control sequence at the front of a text, and the text behind it. */
  lemma FirstSequence(s: bytes) returns (t: Token, rest: bytes)
    requires StartsSequence(s)
    ensures s == RenderToken(t) + rest && |rest| < |s|
    ensures t.Sequence? || (t.Unfinished? && rest == [])
    ensures t.Sequence? ==> IsTerminator(t.final)
    ensures forall c | c in t.body :: !IsTerminator(c)
  {
    var body, after := SplitBody(s[2..]);
    assert s == [ESC, LBRACKET] + s[2..];
    if after == [] {
      t, rest := Unfinished(body), [];
    } else {
      t, rest := Sequence(body, after[0]), after[1..];
      assert after == [after[0]] + rest;
    }
  }

  /** Every text has a proper tokenization. */
  lemma {:induction false} Tokenize(s: bytes) returns (ts: seq<Token>)
    ensures Proper(ts) && Render(ts) == s
    decreases |s|
  {
    if s == [] {
      ts := [];
    } else if StartsSequence(s) {
      var t, rest := FirstSequence(s);
      var more := Tokenize(rest);
      ProperCons(t, more);
      ts := [t] + more;
    } else {
      var more := Tokenize(s[1..]);
      ProperCons(Text(s[0]), more);
      ts := [Text(s[0])] + more;
    }
  }

  lemma {:induction false} SplitBody(s: bytes) returns (body: bytes, rest: bytes)
    ensures s == body + rest && forall c | c in body :: !IsTerminator(c)
    ensures rest != [] ==> IsTerminator(rest[0])
  {
    if s == [] || IsTerminator(s[0]) {
      body, rest := [], s;
    } else {
      body, rest := SplitBody(s[1..]);
      body := [s[0]] + body;
    }
  }

  /** A control sequence as ECMA-48 defines it, parameter bytes, intermediate bytes, final byte, is removed whole. */
  lemma StandardSequenceRemoved(params: bytes, intermediates: bytes, final: byte, rest: bytes)
    requires forall c | c in params :: 0x30 <= c <= 0x3F
    requires forall c | c in intermediates :: 0x20 <= c <= 0x2F
    requires 0x40 <= final <= 0x7E
    ensures Strip([ESC, LBRACKET] + (params + intermediates + ([final] + rest))) == Strip(rest)
  {
    var body := params + intermediates;
    assert [ESC, LBRACKET] + (body + ([final] + rest)) == [ESC, LBRACKET] + body + [final] + rest;
    SequenceRemoved(body, final, rest);
  }

  /** A sequence ends exactly at a final byte, and nothing is left of an unfinished one. */
  lemma SequenceGoesOn(c: byte, rest: bytes)
    ensures Strip([0x1B, 0x5B]) == []
    ensures Strip([0x1B, 0x5B, c] + rest) == if 0x40 <= c <= 0x7E then Strip(rest) else Strip([0x1B, 0x5B] + rest)
  {
    var s := [0x1B, 0x5B, c] + rest;
    assert s[2..] == [c] + rest && s[2..][1..] == rest;
    assert ([0x1B, 0x5B] + rest)[2..] == rest;
  }

  /** Nothing is added or reordered. */
  predicate IsSubsequence(r: bytes, s: bytes) {
    r == [] || (s != [] && ((r[0] == s[0] && IsSubsequence(r[1..], s[1..])) || IsSubsequence(r, s[1..])))
  }

  lemma {:induction false} SubsequenceOfMore(r: bytes, s: bytes, n: nat)
    requires n <= |s| && IsSubsequence(r, s[n..])
    ensures IsSubsequence(r, s)
  {
    if n == 0 {
      assert s[0..] == s;
    } else {
      assert s[1..][n - 1..] == s[n..];
      SubsequenceOfMore(r, s[1..], n - 1);
    }
  }

  lemma {:induction false} AfterIsSuffix(s: bytes)
    ensures AfterSequence(s) == s[|s| - |AfterSequence(s)|..]
  {
    if s != [] && !IsTerminator(s[0]) {
      AfterIsSuffix(s[1..]);
    }
  }

  lemma {:induction false} StripIsSubsequence(s: bytes)
    ensures IsSubsequence(Strip(s), s)
    decreases |s|
  {
    if s != [] {
      if StartsSequence(s) {
        var rest := AfterSequence(s[2..]);
        AfterIsSuffix(s[2..]);
        StripIsSubsequence(rest);
        assert s[|s| - |rest|..] == rest;
        SubsequenceOfMore(Strip(s), s, |s| - |rest|);
      } else {
        StripIsSubsequence(s[1..]);
        assert Strip(s)[1..] == Strip(s[1..]);
      }
    }
  }

  // ---- can a sequence introducer survive?

  predicate HasIntroducer(s: bytes) {
    s != [] && (StartsSequence(s) || HasIntroducer(s[1..]))
  }

  /** A plain ESC and a plain `[` with nothing between them but complete control sequences. */
  predicate MeetsAt(ts: seq<Token>, i: nat, j: nat) {
    && i < j < |ts| && ts[i] == Text(ESC) && ts[j] == Text(LBRACKET)
    && forall k | i < k < j :: ts[k].Sequence?
  }

  predicate Meets(ts: seq<Token>) {
    exists i: nat, j: nat | i < |ts| && j < |ts| :: MeetsAt(ts, i, j)
  }

  /** Index `j` holds the first plain byte. */
  predicate FirstTextAt(ts: seq<Token>, j: nat) {
    j < |ts| && ts[j].Text? && forall k | 0 <= k < j :: ts[k].Sequence?
  }

  lemma {:induction false} FirstText(ts: seq<Token>) returns (j: nat)
    requires Proper(ts) && Texts(ts) != []
    ensures FirstTextAt(ts, j) && Texts(ts)[0] == ts[j].b
  {
    if ts[0].Text? {
      j := 0;
    } else {
      j := FirstText(ts[1..]);
      forall k | 0 <= k < j + 1 ensures ts[k].Sequence? {
        if k > 0 { assert ts[k] == ts[1..][k - 1]; }
      }
      j := j + 1;
    }
  }

  lemma {:induction false} FirstTextLeads(ts: seq<Token>, j: nat)
    requires FirstTextAt(ts, j)
    ensures Texts(ts) != [] && Texts(ts)[0] == ts[j].b
  {
    if j > 0 {
      forall k | 0 <= k < j - 1 ensures ts[1..][k].Sequence? { assert ts[1..][k] == ts[k + 1]; }
      FirstTextLeads(ts[1..], j - 1);
    }
  }

  lemma {:induction false} MeetsGivesIntroducer(ts: seq<Token>, i: nat, j: nat)
    requires MeetsAt(ts, i, j)
    ensures HasIntroducer(Texts(ts))
  {
    var rest := ts[1..];
    if i == 0 {
      forall k | 0 <= k < j - 1 ensures rest[k].Sequence? { assert rest[k] == ts[k + 1]; }
      FirstTextLeads(rest, j - 1);
    } else {
      forall k | i - 1 < k < j - 1 ensures rest[k].Sequence? { assert rest[k] == ts[k + 1]; }
      MeetsGivesIntroducer(rest, i - 1, j - 1);
      if ts[0].Text? { assert Texts(ts)[1..] == Texts(rest); } else { assert Texts(ts) == Texts(rest); }
    }
  }

  lemma {:induction false} IntroducerMeets(ts: seq<Token>) returns (i: nat, j: nat)
    requires Proper(ts) && HasIntroducer(Texts(ts))
    ensures MeetsAt(ts, i, j)
  {
    var rest := ts[1..];
    if ts[0].Text? && StartsSequence(Texts(ts)) {
      assert Texts(ts)[1..] == Texts(rest);
      j := FirstText(rest);
      i, j := 0, j + 1;
      forall k | i < k < j ensures ts[k].Sequence? { assert ts[k] == rest[k - 1]; }
    } else {
      if ts[0].Text? { assert Texts(ts)[1..] == Texts(rest); } else { assert Texts(ts) == Texts(rest); }
      i, j := IntroducerMeets(rest);
      i, j := i + 1, j + 1;
      forall k | i < k < j ensures ts[k].Sequence? { assert ts[k] == rest[k - 1]; }
    }
  }

  /**
   The output still holds an introducer exactly when, in the text cut into plain bytes and control sequences, a plain ESC
   is followed by complete sequences only and then by a plain `[`.
   */
  lemma IntroducerSurvivesIff(ts: seq<Token>)
    requires Proper(ts)
    ensures HasIntroducer(Strip(Render(ts))) <==> Meets(ts)
  {
    StripKeepsTexts(ts);
    if HasIntroducer(Texts(ts)) {
      var i, j := IntroducerMeets(ts);
      assert MeetsAt(ts, i, j);
    }
    if i: nat, j: nat :| i < |ts| && j < |ts| && MeetsAt(ts, i, j) { MeetsGivesIntroducer(ts, i, j); }
  }

  predicate HasDoubleEsc(s: bytes) {
    s != [] && ((s[0] == ESC && StartsSequence(s[1..])) || HasDoubleEsc(s[1..]))
  }

  lemma {:induction false} DoubleEscInTail(a: bytes, t: bytes)
    requires HasDoubleEsc(t)
    ensures HasDoubleEsc(a + t)
  {
    if a == [] {
      assert a + t == t;
    } else {
      assert (a + t)[1..] == a[1..] + t;
      DoubleEscInTail(a[1..], t);
    }
  }

  /** Behind a plain ESC that meets a `[` there is a control sequence, which starts with another ESC. */
  lemma {:induction false} MeetsNeedsDoubleEsc(ts: seq<Token>, i: nat, j: nat)
    requires Proper(ts) && MeetsAt(ts, i, j)
    ensures HasDoubleEsc(Render(ts))
  {
    var rest := ts[1..];
    assert Render(ts) == RenderToken(ts[0]) + Render(rest);
    if i > 0 {
      forall k | i - 1 < k < j - 1 ensures rest[k].Sequence? { assert rest[k] == ts[k + 1]; }
      MeetsNeedsDoubleEsc(rest, i - 1, j - 1);
      DoubleEscInTail(RenderToken(ts[0]), Render(rest));
    } else {
      assert rest[0] == ts[1];
      assert Render(rest) == RenderToken(rest[0]) + Render(rest[1..]);
      assert Render(rest)[0] == RenderToken(rest[0])[0];
      assert Render(ts)[1..] == Render(rest);
      assert rest[0].Sequence? ==> Render(rest)[1] == RenderToken(rest[0])[1];
    }
  }

  /** Text without ESC ESC `[` comes out free of introducers. */
  lemma OutputIsFreeOfIntroducers(s: bytes)
    requires !HasDoubleEsc(s)
    ensures !HasIntroducer(Strip(s))
  {
    var ts := Tokenize(s);
    IntroducerSurvivesIff(ts);
    if i: nat, j: nat :| i < |ts| && j < |ts| && MeetsAt(ts, i, j) { MeetsNeedsDoubleEsc(ts, i, j); }
  }

  /** Not on every input: ESC, a complete sequence and `[` come out as an introducer. */
  lemma IntroducerCanSurvive()
    ensures Strip([ESC, ESC, LBRACKET, 0x6D, LBRACKET]) == [ESC, LBRACKET]
  {
    var s: bytes := [ESC, ESC, LBRACKET, 0x6D, LBRACKET];
    assert s[1..] == [ESC, LBRACKET, 0x6D, LBRACKET];
    assert s[1..][2..] == [0x6D, LBRACKET];
    assert s[1..][2..][1..] == [LBRACKET];
    assert AfterSequence(s[1..][2..]) == [LBRACKET];
    assert Strip([LBRACKET]) == [LBRACKET];
  }

  // ---- sanitizeText

  const LF: byte := 0x0A
  const CR: byte := 0x0D

  method SanitizeText(s: bytes) returns (r: bytes)
    ensures r == Sanitize(s)
  {
    var t := StripANSI(s);
    t := ReplaceByte(t, LF, [BACKSLASH, 0x6E]);
    t := ReplaceByte(t, CR, [BACKSLASH, 0x72]);
    return t;
  }

  function Sanitize(s: bytes): bytes {
    ReplaceByte(ReplaceByte(Strip(s), LF, [BACKSLASH, 0x6E]), CR, [BACKSLASH, 0x72])
  }

  /** Byte by byte: outside the sequences a line feed becomes a backslash and `n`, a carriage return a backslash and `r`, and
      everything else stays, also an ESC that introduces nothing. */
  lemma SanitizeByByte(c: byte, rest: bytes)
    requires c == 0x1B ==> rest == [] || rest[0] != 0x5B
    ensures Sanitize([]) == []
    ensures Sanitize([c] + rest) ==
            (if c == 0x0A then [0x5C, 0x6E] else if c == 0x0D then [0x5C, 0x72] else [c]) + Sanitize(rest)
  {
    assert ([c] + rest)[1..] == rest;
    assert Strip([c] + rest) == [c] + Strip(rest);
    var n, t: bytes := if c == LF then [BACKSLASH, 0x6E] else [c], Strip(rest);
    ReplaceConcat([c], t, LF, [BACKSLASH, 0x6E]);
    ReplaceConcat(n, ReplaceByte(t, LF, [BACKSLASH, 0x6E]), CR, [BACKSLASH, 0x72]);
    assert n == [BACKSLASH] + [0x6E] || n == [c];
  }

  /** Sanitized text is a single line, and text that needs no sanitizing is left alone. */
  lemma SanitizedIsOneLine(s: bytes)
    ensures LF !in Sanitize(s) && CR !in Sanitize(s)
    ensures ESC !in s && LF !in s && CR !in s ==> Sanitize(s) == s
  {
    var t := ReplaceByte(Strip(s), LF, [BACKSLASH, 0x6E]);
    ReplaceRemoves(Strip(s), LF, [BACKSLASH, 0x6E]);
    ReplaceRemoves(t, CR, [BACKSLASH, 0x72]);
    if ESC !in s && LF !in s && CR !in s {
      NothingToStrip(s);
      ReplaceNothing(s, LF, [BACKSLASH, 0x6E]);
      ReplaceNothing(s, CR, [BACKSLASH, 0x72]);
    }
  }
}
