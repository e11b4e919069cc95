/** Byte strings: the alphabet, the literals and the ordering the rest of the model is written in. */
module Bytes {
  newtype byte = x: int | 0 <= x < 256
  type bytes = seq<byte>

  const NEWLINE: byte := 0x0A
  const SPACE: byte := 0x20
  const QUOTE: byte := 0x22
  const COMMA: byte := 0x2C
  const COLON: byte := 0x3A
  const EQUALS: byte := 0x3D
  const LBRACKET: byte := 0x5B
  const BACKSLASH: byte := 0x5C
  const RBRACKET: byte := 0x5D
  const LBRACE: byte := 0x7B
  const RBRACE: byte := 0x7D
  const ESC: byte := 0x1B

  datatype Option<+T> = None | Some(value: T)

  /** The bytes of an ASCII literal. */
  function B(s: string): (r: bytes)
    ensures |r| == |s|
  {
    seq(|s|, i requires 0 <= i < |s| => if s[i] as int < 128 then s[i] as int as byte else 0x3F)
  }

  /** `needle` occurs in `text` at position `i`. */
  predicate OccursAt(needle: bytes, text: bytes, i: nat) {
    i <= |text| && needle <= text[i..]
  }

  /** bytes.Index: the first position at which `needle` occurs, if it occurs at all. */
  method Index(text: bytes, needle: bytes) returns (r: Option<nat>)
    ensures r.Some? ==> OccursAt(needle, text, r.value) && forall i: nat | i < r.value :: !OccursAt(needle, text, i)
    ensures r.None? ==> forall i: nat | i <= |text| :: !OccursAt(needle, text, i)
  {
    for i := 0 to |text| + 1
      invariant forall j: nat | j < i :: !OccursAt(needle, text, j)
    {
      if needle <= text[i..] { return Some(i); }
    }
    return None;
  }

  /** The part of `text` before the first `sep`; all of it when there is none. */
  function Before(text: bytes, sep: byte): (r: bytes)
    ensures r <= text && sep !in r
    ensures sep in text ==> |r| < |text| && text[|r|] == sep
    ensures sep !in text ==> r == text
  {
    if text == [] || text[0] == sep then [] else [text[0]] + Before(text[1..], sep)
  }

  /** Byte-wise lexicographic order, which is what Go's string comparison and sort.Strings use. */
  predicate Less(a: bytes, b: bytes) {
    b != [] && (a == [] || a[0] < b[0] || (a[0] == b[0] && Less(a[1..], b[1..])))
  }

  /** `a` and `b` agree up to position `n`, where `a` ends or has the smaller byte. */
  predicate LessAt(a: bytes, b: bytes, n: nat) {
    n <= |a| && n < |b| && a[..n] == b[..n] && (n == |a| || a[n] < b[n])
  }

  /** The first difference decides, and a proper prefix is less. */
  lemma {:induction false} LessByFirstDifference(a: bytes, b: bytes)
    ensures Less(a, b) <==> exists n :: LessAt(a, b, n)
  {
    if a == [] || b == [] {
      if Less(a, b) { assert LessAt(a, b, 0); }
    } else if a[0] != b[0] {
      forall n: nat | 0 < n <= |a| && n < |b| ensures a[..n] != b[..n] { assert a[..n][0] == a[0] && b[..n][0] == b[0]; }
      if Less(a, b) { assert LessAt(a, b, 0); }
    } else {
      LessByFirstDifference(a[1..], b[1..]);
      if n: nat :| LessAt(a[1..], b[1..], n) {
        assert a[..n + 1] == [a[0]] + a[1..][..n] && b[..n + 1] == [b[0]] + b[1..][..n];
        assert LessAt(a, b, n + 1);
      }
      if n: nat :| LessAt(a, b, n) {
        assert a[1..][..n - 1] == a[..n][1..] && b[1..][..n - 1] == b[..n][1..];
        assert LessAt(a[1..], b[1..], n - 1);
      }
    }
  }

  lemma LessIrreflexive(a: bytes)
    ensures !Less(a, a)
  {
  }

  lemma LessTransitive(a: bytes, b: bytes, c: bytes)
    requires Less(a, b) && Less(b, c)
    ensures Less(a, c)
  {
  }

  lemma {:induction false} LessTotal(a: bytes, b: bytes)
    ensures Less(a, b) || a == b || Less(b, a)
  {
    if a != [] && b != [] && a[0] == b[0] {
      LessTotal(a[1..], b[1..]);
      assert a == [a[0]] + a[1..] && b == [b[0]] + b[1..];
    }
  }

  predicate StrictlySorted(ks: seq<bytes>) {
    forall i, j | 0 <= i < j < |ks| :: Less(ks[i], ks[j])
  }

  ghost function Elements<T>(ks: seq<T>): set<T> {
    set k | k in ks
  }

  predicate IsLeast(k: bytes, s: set<bytes>) {
    k in s && forall x | x in s && x != k :: Less(k, x)
  }

  /** Every nonempty set of keys has a least one. */
  lemma {:induction false} HasLeast(s: set<bytes>)
    requires s != {}
    ensures exists k :: IsLeast(k, s)
  {
    var y :| y in s;
    if s == {y} {
      assert IsLeast(y, s);
    } else {
      HasLeast(s - {y});
      var z :| IsLeast(z, s - {y});
      LessTotal(y, z);
      var k := if Less(y, z) then y else z;
      forall x | x in s && x != k ensures Less(k, x) {
        if k == y && x != z { LessTransitive(y, z, x); }
      }
      assert IsLeast(k, s);
    }
  }

  /** The keys of a set in increasing order. */
  ghost function SortedKeys(s: set<bytes>): (r: seq<bytes>)
    ensures Elements(r) == s && |r| == |s|
    ensures StrictlySorted(r)
  {
    if s == {} then [] else
      HasLeast(s);
      var k :| IsLeast(k, s);
      var rest := SortedKeys(s - {k});
      ConsLeast(k, rest, s);
      [k] + rest
  }

  lemma ConsLeast(k: bytes, rest: seq<bytes>, s: set<bytes>)
    requires IsLeast(k, s) && Elements(rest) == s - {k} && StrictlySorted(rest)
    ensures Elements([k] + rest) == s && StrictlySorted([k] + rest)
  {
    var r := [k] + rest;
    forall x | x in r ensures x in s {
      if x != k { assert x in Elements(rest); }
    }
    forall x | x in s ensures x in r {
      if x != k { assert x in Elements(rest); } else { assert r[0] == x; }
    }
    forall i, j | 0 <= i < j < |r| ensures Less(r[i], r[j]) {
      assert r[j] == rest[j - 1] && r[j] in Elements(rest);
    }
  }

  /** Two strictly sorted sequences over the same keys are the same sequence. */
  lemma {:induction false} SortedUnique(a: seq<bytes>, b: seq<bytes>)
    requires StrictlySorted(a) && StrictlySorted(b) && Elements(a) == Elements(b)
    ensures a == b
  {
    if a == [] {
      if b != [] { HeadIsElement(b); }
    } else {
      assert a[0] in Elements(a);
      assert b[0] in Elements(b);
      assert a[0] in b && b[0] in a;
      LessIrreflexive(a[0]);
      if a[0] != b[0] { LessTransitive(a[0], b[0], a[0]); }
      assert Elements(a[1..]) == Elements(a) - {a[0]} by { SortedTail(a); }
      assert Elements(b[1..]) == Elements(b) - {b[0]} by { SortedTail(b); }
      SortedUnique(a[1..], b[1..]);
      assert a == [a[0]] + a[1..] && b == [b[0]] + b[1..];
    }
  }

  lemma HeadIsElement(a: seq<bytes>)
    requires a != []
    ensures Elements(a) != {}
  {
    assert a[0] in Elements(a);
  }

  lemma SortedTail(a: seq<bytes>)
    requires StrictlySorted(a) && a != []
    ensures Elements(a[1..]) == Elements(a) - {a[0]}
  {
    LessIrreflexive(a[0]);
    assert a[0] !in a[1..];
    assert forall x | x in a && x != a[0] :: x in a[1..];
  }

  /** sort.Strings on keys that are pairwise distinct, as the keys of a map are. */
  method SortStrings(keys: seq<bytes>) returns (r: seq<bytes>)
    requires |Elements(keys)| == |keys|
    ensures r == SortedKeys(Elements(keys))
  {
    r := [];
    for i := 0 to |keys|
      invariant StrictlySorted(r) && Elements(r) == Elements(keys[..i])
    {
      DistinctPrefix(keys, i);
      assert Elements(keys[..i + 1]) == Elements(keys[..i]) + {keys[i]};
      var j := 0;
      while j < |r| && Less(r[j], keys[i])
        invariant 0 <= j <= |r|
        invariant forall k | 0 <= k < j :: Less(r[k], keys[i])
      {
        j := j + 1;
      }
      InsertSorted(r, j, keys[i]);
      r := r[..j] + [keys[i]] + r[j..];
    }
    assert keys[..|keys|] == keys;
    SortedUnique(r, SortedKeys(Elements(keys)));
  }

  lemma DistinctPrefix(keys: seq<bytes>, i: nat)
    requires |Elements(keys)| == |keys| && i < |keys|
    ensures keys[i] !in Elements(keys[..i])
  {
    if keys[i] in keys[..i] {
      assert Elements(keys) == Elements(keys[..i]) + Elements(keys[i + 1..]) by {
        forall x | x in keys ensures x in Elements(keys[..i]) + Elements(keys[i + 1..]) {
          var j :| 0 <= j < |keys| && keys[j] == x;
          if j < i { assert x == keys[..i][j]; } else if j > i { assert x == keys[i + 1..][j - i - 1]; }
        }
      }
      ElementsBound(keys[..i]);
      ElementsBound(keys[i + 1..]);
      assert false;
    }
  }

  lemma ElementsAppend(ks: seq<bytes>, k: bytes)
    requires k !in Elements(ks)
    ensures Elements(ks + [k]) == Elements(ks) + {k} && |Elements(ks + [k])| == |Elements(ks)| + 1
  {
    assert k in ks + [k];
    assert forall x | x in ks :: x in ks + [k];
    assert Elements(ks + [k]) == Elements(ks) + {k};
  }

  lemma {:induction false} ElementsBound(ks: seq<bytes>)
    ensures |Elements(ks)| <= |ks|
  {
    if ks != [] {
      ElementsBound(ks[1..]);
      assert Elements(ks) == {ks[0]} + Elements(ks[1..]) by {
        assert ks == [ks[0]] + ks[1..];
      }
    }
  }

  lemma InsertSorted(r: seq<bytes>, j: nat, x: bytes)
    requires StrictlySorted(r) && j <= |r| && x !in Elements(r)
    requires forall k | 0 <= k < j :: Less(r[k], x)
    requires j == |r| || !Less(r[j], x)
    ensures StrictlySorted(r[..j] + [x] + r[j..])
    ensures Elements(r[..j] + [x] + r[j..]) == Elements(r) + {x}
  {
    var out := r[..j] + [x] + r[j..];
    if j < |r| {
      LessTotal(r[j], x);
      assert r[j] in r;
      forall k | j < k < |r| ensures Less(x, r[k]) { LessTransitive(x, r[j], r[k]); }
    }
    forall y | y in r ensures y in out {
      var k :| 0 <= k < |r| && r[k] == y;
      assert out[if k < j then k else k + 1] == y;
    }
    assert out[j] == x;
  }

  /** strings.ReplaceAll of a single byte. */
  function ReplaceByte(s: bytes, b: byte, text: bytes): bytes {
    if s == [] then [] else (if s[0] == b then text else [s[0]]) + ReplaceByte(s[1..], b, text)
  }

  lemma {:induction false} ReplaceRemoves(s: bytes, b: byte, text: bytes)
    requires b !in text
    ensures b !in ReplaceByte(s, b, text)
    ensures forall c | c in ReplaceByte(s, b, text) :: c in s || c in text
  {
    if s != [] { ReplaceRemoves(s[1..], b, text); }
  }

  lemma {:induction false} ReplaceNothing(s: bytes, b: byte, text: bytes)
    requires b !in s
    ensures ReplaceByte(s, b, text) == s
  {
    if s != [] { ReplaceNothing(s[1..], b, text); }
  }

  lemma {:induction false} ReplaceGrows(s: bytes, b: byte, text: bytes)
    requires text != []
    ensures |ReplaceByte(s, b, text)| >= |s|
  {
    if s != [] { ReplaceGrows(s[1..], b, text); }
  }

  lemma {:induction false} ReplaceConcat(s: bytes, t: bytes, b: byte, text: bytes)
    ensures ReplaceByte(s + t, b, text) == ReplaceByte(s, b, text) + ReplaceByte(t, b, text)
  {
    if s == [] {
      assert s + t == t;
    } else {
      assert (s + t)[1..] == s[1..] + t;
      ReplaceConcat(s[1..], t, b, text);
    }
  }

  lemma {:induction false} BeforeClean(line: bytes, sep: byte, rest: bytes)
    requires sep !in line
    ensures Before(line + [sep] + rest, sep) == line
  {
    if line == [] {
      assert line + [sep] + rest == [sep] + rest;
    } else {
      BeforeClean(line[1..], sep, rest);
      assert (line + [sep] + rest)[1..] == line[1..] + [sep] + rest;
    }
  }
}
