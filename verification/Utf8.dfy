/**
 UTF-8 as the encoder sees it: the first-rune decoder the Go code calls, the encoding of
 section 3 of RFC 3629 as the independent definition, and the repair of invalid input.
 */
module Utf8 {
  import opened Bytes

  /** A decoded rune: its code point and how many bytes it took. */
  datatype Rune = Rune(code: int, size: nat)

  const RUNE_ERROR: int := 0xFFFD

  /** U+FFFD in UTF-8. */
  const REPLACEMENT: bytes := [0xEF, 0xBF, 0xBD]

  predicate Continuation(b: byte) {
    0x80 <= b <= 0xBF
  }

  /** The bytes allowed after each lead byte, and the length of the sequence it starts; 0 if it starts none. */
  function SequenceSize(lead: byte): nat {
    if lead < 0x80 then 1 else if lead < 0xC2 then 0 else if lead < 0xE0 then 2
    else if lead < 0xF0 then 3 else if lead < 0xF5 then 4 else 0
  }

  predicate SecondByteOk(lead: byte, b: byte) {
    && (if lead == 0xE0 then 0xA0 else if lead == 0xF0 then 0x90 else 0x80) <= b
    && b <= (if lead == 0xED then 0x9F else if lead == 0xF4 then 0x8F else 0xBF)
  }

  /** utf8.DecodeRuneInString on a nonempty string: invalid input yields U+FFFD and consumes one byte. */
  function DecodeRune(s: bytes): (r: Rune)
    requires s != []
    ensures 1 <= r.size <= |s|
  {
    var n := SequenceSize(s[0]);
    if n == 1 then Rune(s[0] as int, 1)
    else if n == 0 || |s| < n || !SecondByteOk(s[0], s[1]) then Rune(RUNE_ERROR, 1)
    else if n == 2 then Rune((s[0] as int - 0xC0) * 64 + (s[1] as int - 0x80), 2)
    else if !Continuation(s[2]) then Rune(RUNE_ERROR, 1)
    else if n == 3 then Rune((s[0] as int - 0xE0) * 4096 + (s[1] as int - 0x80) * 64 + (s[2] as int - 0x80), 3)
    else if !Continuation(s[3]) then Rune(RUNE_ERROR, 1)
    else Rune((s[0] as int - 0xF0) * 262144 + (s[1] as int - 0x80) * 4096 + (s[2] as int - 0x80) * 64 + (s[3] as int - 0x80), 4)
  }

  /** The test the encoder makes on a decoded rune (a genuine U+FFFD takes three bytes). */
  predicate IsError(r: Rune) {
    r.code == RUNE_ERROR && r.size == 1
  }

  predicate Scalar(v: int) {
    0 <= v < 0xD800 || 0xE000 <= v <= 0x10FFFF
  }

  function Tail6(v: nat): byte {
    (0x80 + v % 64) as byte
  }

  /** The encoding of one scalar value, section 3 of RFC 3629. */
  function EncodeRune(v: int): (r: bytes)
    requires Scalar(v)
    ensures 1 <= |r| <= 4
  {
    if v < 0x80 then [v as byte]
    else if v < 0x800 then [(0xC0 + v / 64) as byte, Tail6(v)]
    else if v < 0x10000 then [(0xE0 + v / 4096) as byte, Tail6(v / 64), Tail6(v)]
    else [(0xF0 + v / 262144) as byte, Tail6(v / 4096), Tail6(v / 64), Tail6(v)]
  }

  /** Decoding undoes encoding, whatever follows, and is never mistaken for an error. */
  lemma DecodeEncoded(v: int, rest: bytes)
    requires Scalar(v)
    ensures DecodeRune(EncodeRune(v) + rest) == Rune(v, |EncodeRune(v)|)
    ensures !IsError(DecodeRune(EncodeRune(v) + rest))
  {
    if 0x800 <= v < 0x10000 {
      assert v / 64 / 64 == v / 4096;
    } else if 0x10000 <= v {
      assert v / 4096 / 64 == v / 262144 && v / 64 / 64 == v / 4096;
    }
  }

  /** What decodes without error is the encoding of exactly one scalar value. */
  lemma DecodedIsEncoding(s: bytes)
    requires s != [] && !IsError(DecodeRune(s))
    ensures var r := DecodeRune(s); Scalar(r.code) && EncodeRune(r.code) == s[..r.size]
  {
    var r := DecodeRune(s);
    if r.size == 4 {
      FourByteForm(s[0] as int - 0xF0, s[1] as int - 0x80, s[2] as int - 0x80, s[3] as int - 0x80);
      assert s[..4] == [s[0], s[1], s[2], s[3]];
    } else if r.size == 3 {
      ThreeByteForm(s[0] as int - 0xE0, s[1] as int - 0x80, s[2] as int - 0x80);
      assert s[..3] == [s[0], s[1], s[2]];
    } else if r.size == 2 {
      Step64(s[0] as int - 0xC0, s[1] as int - 0x80);
      assert s[..2] == [s[0], s[1]];
    }
  }

  lemma FourByteForm(a: int, b: int, c: int, d: int)
    requires 0 <= a < 8 && 0 <= b < 64 && 0 <= c < 64 && 0 <= d < 64
    requires 0x10000 <= a * 262144 + b * 4096 + c * 64 + d <= 0x10FFFF
    ensures EncodeRune(a * 262144 + b * 4096 + c * 64 + d) ==
            [(0xF0 + a) as byte, (0x80 + b) as byte, (0x80 + c) as byte, (0x80 + d) as byte]
  {
    Digits4(a, b, c, d);
  }

  lemma ThreeByteForm(b: int, c: int, d: int)
    requires 0 <= b < 16 && 0 <= c < 64 && 0 <= d < 64
    requires Scalar(b * 4096 + c * 64 + d) && 0x800 <= b * 4096 + c * 64 + d
    ensures EncodeRune(b * 4096 + c * 64 + d) == [(0xE0 + b) as byte, (0x80 + c) as byte, (0x80 + d) as byte]
  {
    Digits4(0, b, c, d);
  }

  /** The base-64 digits of a code point. */
  lemma Digits4(a: int, b: int, c: int, d: int)
    requires 0 <= b < 64 && 0 <= c < 64 && 0 <= d < 64
    ensures var v := a * 262144 + b * 4096 + c * 64 + d;
            && v % 64 == d
            && (v / 64) % 64 == c
            && v / 4096 == a * 64 + b
            && (v / 4096) % 64 == b
            && v / 262144 == a
  {
    Step64(a * 4096 + b * 64 + c, d);
    Step64(a * 64 + b, c);
    Step64(a, b);
    Step4096(a * 64 + b, c * 64 + d);
    Step262144(a, b * 4096 + c * 64 + d);
  }

  lemma Step64(q: int, r: int)
    requires 0 <= r < 64
    ensures (q * 64 + r) / 64 == q && (q * 64 + r) % 64 == r
  {
  }

  lemma Step4096(q: int, r: int)
    requires 0 <= r < 4096
    ensures (q * 4096 + r) / 4096 == q
  {
  }

  lemma Step262144(q: int, r: int)
    requires 0 <= r < 262144
    ensures (q * 262144 + r) / 262144 == q
  {
  }

  /** Decoding looks no further than the rune it returns. */
  lemma DecodeIsLocal(s: bytes, rest: bytes)
    requires s != [] && !IsError(DecodeRune(s))
    ensures DecodeRune(s[..DecodeRune(s).size] + rest) == DecodeRune(s)
    ensures s[0] >= 0x80 ==> forall i | 0 <= i < DecodeRune(s).size :: s[i] >= 0x80
    ensures s[0] < 0x80 <==> DecodeRune(s) == Rune(s[0] as int, 1)
  {
  }

  /** Concatenated encodings of scalar values: the definition of valid UTF-8 that does not mention the decoder. */
  function EncodeAll(vs: seq<int>): bytes
    requires forall v | v in vs :: Scalar(v)
  {
    if vs == [] then [] else EncodeRune(vs[0]) + EncodeAll(vs[1..])
  }

  predicate ValidUtf8(s: bytes)
    decreases |s|
  {
    s == [] || (var r := DecodeRune(s); !IsError(r) && ValidUtf8(s[r.size..]))
  }

  /** Scanning with the decoder accepts exactly the encodings of sequences of scalar values. */
  lemma ValidIffEncoded(s: bytes)
    ensures ValidUtf8(s) <==> exists vs: seq<int> :: (forall v | v in vs :: Scalar(v)) && EncodeAll(vs) == s
  {
    if ValidUtf8(s) {
      var vs := ScalarsOf(s);
      assert EncodeAll(vs) == s;
    }
    if vs: seq<int> :| (forall v | v in vs :: Scalar(v)) && EncodeAll(vs) == s {
      EncodedIsValid(vs);
    }
  }

  lemma {:induction false} ScalarsOf(s: bytes) returns (vs: seq<int>)
    requires ValidUtf8(s)
    ensures forall v | v in vs :: Scalar(v)
    ensures EncodeAll(vs) == s
    decreases |s|
  {
    if s == [] {
      vs := [];
    } else {
      DecodedIsEncoding(s);
      var r := DecodeRune(s);
      var rest := ScalarsOf(s[r.size..]);
      vs := [r.code] + rest;
      EncodeAllCons(r.code, rest);
      assert s == s[..r.size] + s[r.size..];
    }
  }

  lemma EncodeAllCons(v: int, vs: seq<int>)
    requires Scalar(v) && forall x | x in vs :: Scalar(x)
    ensures (forall x | x in [v] + vs :: Scalar(x)) && EncodeAll([v] + vs) == EncodeRune(v) + EncodeAll(vs)
  {
    assert ([v] + vs)[1..] == vs;
  }

  lemma {:induction false} EncodedIsValid(vs: seq<int>)
    requires forall v | v in vs :: Scalar(v)
    ensures ValidUtf8(EncodeAll(vs))
  {
    if vs != [] {
      DecodeEncoded(vs[0], EncodeAll(vs[1..]));
      EncodedIsValid(vs[1..]);
      assert EncodeAll(vs)[|EncodeRune(vs[0])|..] == EncodeAll(vs[1..]);
    }
  }

  /** `s` with each invalid byte replaced by U+FFFD. */
  function Repair(s: bytes): bytes
    decreases |s|
  {
    if s == [] then [] else
      var r := DecodeRune(s);
      (if IsError(r) then REPLACEMENT else s[..r.size]) + Repair(s[r.size..])
  }

  /** Repair leaves a string alone exactly when it is valid. */
  lemma {:induction false} RepairIdentityIffValid(s: bytes)
    ensures |Repair(s)| >= |s|
    ensures ValidUtf8(s) <==> Repair(s) == s
    decreases |s|
  {
    if s != [] {
      var r := DecodeRune(s);
      RepairIdentityIffValid(s[r.size..]);
      assert s == s[..r.size] + s[r.size..];
      if !IsError(r) && Repair(s) == s {
        assert Repair(s)[r.size..] == Repair(s[r.size..]);
      }
    }
  }

  /** Repaired text is valid UTF-8, so a second repair changes nothing. */
  lemma {:induction false} RepairedIsValid(s: bytes)
    ensures ValidUtf8(Repair(s))
    decreases |s|
  {
    if s != [] {
      var r := DecodeRune(s);
      var head := if IsError(r) then REPLACEMENT else s[..r.size];
      RepairedIsValid(s[r.size..]);
      if !IsError(r) { DecodeIsLocal(s, Repair(s[r.size..])); }
      assert DecodeRune(Repair(s)).size == |head| && !IsError(DecodeRune(Repair(s)));
      assert Repair(s)[|head|..] == Repair(s[r.size..]);
    }
  }
}
