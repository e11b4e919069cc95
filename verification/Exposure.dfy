/**
 What redaction hides (redact.go behind logger.go and errors.go). The middleware sees the entry after errors have been
 expanded and reserved names moved, so a listed field can still show in the printed line.
 */
module Exposure {
  import opened Bytes
  import opened Values
  import opened Levels
  import opened OrderedWrites
  import opened Assembly
  import opened Encoder
  import opened Utf8
  import E = ErrorFields
  import D = Redaction
  import P = Rfc8259
  import R = RoundTrip

  /** A logger whose only middleware is WithRedactFieldsFunc. */
  datatype Setting = Setting(level: Level, message: bytes, ambient: Ambient, listed: set<bytes>, replacement: bytes)

  /** `line` is one that a call with these fields can print. */
  ghost predicate IsLine(c: Setting, fields: Fields, line: bytes) {
    exists entry :: IsEntry(c.level, c.message, fields, c.ambient, entry) && line == RedactedLine(c, entry)
  }

  ghost function RedactedLine(c: Setting, entry: Fields): bytes {
    R.Line(D.Redacted(Map(entry), c.listed, c.replacement).m)
  }

  /** What the printed line may show of a value apart from its contents: whether it is an error, and one that wraps another. */
  datatype Shape = Plain | BareError | WrappedError

  function ShapeOf(v: Value): Shape {
    if !v.Error? then Plain else if v.unwrapped == [] then BareError else WrappedError
  }

  /** The keys a field of that shape writes. */
  function Touched(k: bytes, shape: Shape): set<bytes> {
    match shape
    case Plain => {k}
    case BareError => {k, k + E.TYPE_SUFFIX}
    case WrappedError => {k, k + E.TYPE_SUFFIX, k + E.CHAIN_SUFFIX}
  }

  /** What the field puts under them, before they are placed. */
  function Own(k: bytes, v: Value): Fields {
    map[k := v] + E.FieldWrites(k, v)
  }

  /** `line` is possible when field `k` holds `v` beside the other fields. */
  ghost predicate Prints(c: Setting, rest: Fields, k: bytes, v: Value, line: bytes) {
    IsLine(c, rest[k := v], line)
  }

  /** For all values of the shape, the same lines are possible: whatever the value is, the line does not show it. */
  ghost predicate Independent(c: Setting, rest: Fields, k: bytes, shape: Shape) {
    forall v, w, line | ShapeOf(v) == shape && ShapeOf(w) == shape && Prints(c, rest, k, v, line) :: Prints(c, rest, k, w, line)
  }

  predicate AllListed(c: Setting, k: bytes, shape: Shape) {
    forall j | j in Touched(k, shape) :: Placed(j) in c.listed
  }

  // ---- listed keys hide the value

  function PlacedKeys(keys: set<bytes>): set<bytes> {
    set j | j in keys :: Placed(j)
  }

  lemma FieldsAgree(rest: Fields, k: bytes, v: Value, w: Value)
    requires ShapeOf(v) == ShapeOf(w)
    ensures var hidden := Touched(k, ShapeOf(v));
            && Agree(rest[k := v], rest[k := w], hidden)
            && WritesAgree(E.ErrorWrites(rest[k := v]), E.ErrorWrites(rest[k := w]), hidden)
  {
    var a, b := E.ErrorWrites(rest[k := v]), E.ErrorWrites(rest[k := w]);
    forall x | x in a ensures Agree(a[x], b[x], Touched(k, ShapeOf(v))) {
      if x == k { WrittenKeys(k, v); WrittenKeys(k, w); }
    }
  }

  lemma WrittenKeys(k: bytes, v: Value)
    ensures E.FieldWrites(k, v).Keys == if v.Error? then Touched(k, ShapeOf(v)) else {}
  {
  }

  lemma PlacementsAgree(a: Fields, b: Fields, hidden: set<bytes>)
    requires Agree(a, b, hidden)
    ensures WritesAgree(Placements(a), Placements(b), PlacedKeys(hidden))
  {
    forall x | x in a ensures Agree(Placements(a)[x], Placements(b)[x], PlacedKeys(hidden)) {
      if x in hidden { assert Placed(x) in PlacedKeys(hidden); }
    }
  }

  lemma EntryAgrees(c: Setting, rest: Fields, k: bytes, v: Value, w: Value, entry: Fields) returns (other: Fields)
    requires ShapeOf(v) == ShapeOf(w) && IsEntry(c.level, c.message, rest[k := v], c.ambient, entry)
    ensures IsEntry(c.level, c.message, rest[k := w], c.ambient, other)
    ensures Agree(entry, other, PlacedKeys(Touched(k, ShapeOf(v))))
  {
    var hidden := Touched(k, ShapeOf(v));
    var core, stack := Core(c.level, c.message, c.ambient), StackKey(c.level, c.ambient);
    var fields, others := rest[k := v], rest[k := w];
    var enriched, placed :|
      && Outcome(fields, E.ErrorWrites(fields), enriched)
      && Outcome(core, Placements(enriched), placed)
      && entry == placed + stack;
    FieldsAgree(rest, k, v, w);
    var enriched' := OutcomeAgrees(fields, others, E.ErrorWrites(fields), E.ErrorWrites(others), hidden, enriched);
    PlacementsAgree(enriched, enriched', hidden);
    var placed' := OutcomeAgrees(core, core, Placements(enriched), Placements(enriched'), PlacedKeys(hidden), placed);
    AgreeMerged(placed, placed', stack, stack, PlacedKeys(hidden));
    other := placed' + stack;
  }

  lemma AgreedAreRedactedAlike(c: Setting, a: Fields, b: Fields, hidden: set<bytes>)
    requires Agree(a, b, hidden) && hidden <= c.listed
    ensures RedactedLine(c, a) == RedactedLine(c, b)
  {
    var x, y := D.Redacted(Map(a), c.listed, c.replacement), D.Redacted(Map(b), c.listed, c.replacement);
    forall j | j in a ensures x.m[j] == y.m[j] {
    }
    assert x.m == y.m;
  }

  lemma ListedIsHidden(c: Setting, rest: Fields, k: bytes, v: Value, w: Value, line: bytes)
    requires ShapeOf(v) == ShapeOf(w) && AllListed(c, k, ShapeOf(v)) && IsLine(c, rest[k := v], line)
    ensures IsLine(c, rest[k := w], line)
  {
    var entry :| IsEntry(c.level, c.message, rest[k := v], c.ambient, entry) && line == RedactedLine(c, entry);
    var other := EntryAgrees(c, rest, k, v, w, entry);
    AgreedAreRedactedAlike(c, entry, other, PlacedKeys(Touched(k, ShapeOf(v))));
  }

  // ---- unlisted keys show it

  /** No other field writes key `j` or ends up where `j` does. */
  ghost predicate Alone(rest: Fields, k: bytes, j: bytes) {
    && (j != k ==> j !in rest)
    && (forall x | x in rest && x != k :: j !in E.FieldWrites(x, rest[x]))
    && forall y | y != j && Placed(y) == Placed(j) ::
         y !in rest && forall x | x in rest && x != k :: y !in E.FieldWrites(x, rest[x])
  }

  /** A value of the shape that shows the text `s` wherever it shows anything. */
  function Showing(shape: Shape, s: bytes): Value {
    match shape
    case Plain => Str(s)
    case BareError => Error(s, s, [])
    case WrappedError => Error(s, s, [s])
  }

  /** After enrichment a touched key holds what the field put there. */
  lemma OwnIsEnriched(rest: Fields, k: bytes, v: Value, j: bytes, enriched: Fields)
    requires Alone(rest, k, j) && j in Touched(k, ShapeOf(v))
    requires Outcome(rest[k := v], E.ErrorWrites(rest[k := v]), enriched)
    ensures j in Own(k, v) && j in enriched && enriched[j] == Own(k, v)[j]
  {
    var fields := rest[k := v];
    var w := E.ErrorWrites(fields);
    WrittenKeys(k, v);
    if v.Error? {
      forall x | x in w && j in w[x] ensures x == k { }
      OutcomeHas(fields, w, enriched, k, j);
    } else {
      forall x | x in w ensures j !in w[x] { }
      OutcomeKeeps(fields, w, enriched, j);
    }
  }

  /** No other key of the enriched fields is placed where `j` is. */
  lemma AloneInPlace(rest: Fields, k: bytes, v: Value, j: bytes, enriched: Fields, y: bytes)
    requires Alone(rest, k, j) && j in Touched(k, ShapeOf(v)) && y != j && Placed(y) == Placed(j)
    requires Outcome(rest[k := v], E.ErrorWrites(rest[k := v]), enriched)
    ensures y !in enriched
  {
    var fields := rest[k := v];
    var w := E.ErrorWrites(fields);
    WrittenKeys(k, v);
    TouchedApart(k, y, j);
    OutcomeKeys(fields, w, enriched, y);
  }

  /** The keys one field touches are placed apart. */
  lemma TouchedApart(k: bytes, y: bytes, j: bytes)
    requires y != j && Placed(y) == Placed(j)
    ensures !(y in Touched(k, WrappedError) && j in Touched(k, WrappedError))
  {
    assert |Placed(y)| == |Placed(j)|;
    SuffixedIsNotReserved(k);
  }

  lemma SuffixedIsNotReserved(k: bytes)
    ensures k + E.TYPE_SUFFIX !in RESERVED && k + E.CHAIN_SUFFIX !in RESERVED
  {
    var t, c := k + E.TYPE_SUFFIX, k + E.CHAIN_SUFFIX;
    assert t[|t| - 5] == 0x5F && c[|c| - 6] == 0x5F;
    assert t[|t| - 1] == 0x65 && c[|c| - 1] == 0x6E;
  }

  lemma OwnIsPlaced(c: Setting, rest: Fields, k: bytes, v: Value, j: bytes, entry: Fields)
    requires Alone(rest, k, j) && j in Touched(k, ShapeOf(v))
    requires IsEntry(c.level, c.message, rest[k := v], c.ambient, entry)
    ensures j in Own(k, v) && Placed(j) in entry && entry[Placed(j)] == Own(k, v)[j]
  {
    var core, fields := Core(c.level, c.message, c.ambient), rest[k := v];
    var enriched, placed :|
      && Outcome(fields, E.ErrorWrites(fields), enriched)
      && Outcome(core, Placements(enriched), placed)
      && entry == placed + StackKey(c.level, c.ambient);
    OwnIsEnriched(rest, k, v, j, enriched);
    forall y | y in enriched && Placed(j) in Placements(enriched)[y] ensures y == j {
      if y != j { AloneInPlace(rest, k, v, j, enriched, y); }
    }
    OutcomeHas(core, Placements(enriched), placed, j, Placed(j));
    PlacedIsNotReserved(j);
    assert Placed(j) !in StackKey(c.level, c.ambient);
  }

  lemma EnrichedKeysFixed(fields: Fields, a: Fields, b: Fields)
    requires Outcome(fields, E.ErrorWrites(fields), a) && Outcome(fields, E.ErrorWrites(fields), b)
    ensures a.Keys == b.Keys
  {
    forall j ensures j in a <==> j in b {
      OutcomeKeys(fields, E.ErrorWrites(fields), a, j);
      OutcomeKeys(fields, E.ErrorWrites(fields), b, j);
    }
  }

  lemma PlacedKeysFixed(core: Fields, a: Fields, b: Fields, x: Fields, y: Fields)
    requires a.Keys == b.Keys && Outcome(core, Placements(a), x) && Outcome(core, Placements(b), y)
    ensures x.Keys == y.Keys
  {
    forall j ensures j in x <==> j in y {
      OutcomeKeys(core, Placements(a), x, j);
      OutcomeKeys(core, Placements(b), y, j);
      if k :| k in Placements(a) && j in Placements(a)[k] { assert j in Placements(b)[k]; }
      if k :| k in Placements(b) && j in Placements(b)[k] { assert j in Placements(a)[k]; }
    }
  }

  lemma EntryKeysFixed(c: Setting, fields: Fields, a: Fields, b: Fields)
    requires IsEntry(c.level, c.message, fields, c.ambient, a) && IsEntry(c.level, c.message, fields, c.ambient, b)
    ensures a.Keys == b.Keys
  {
    var core, stack := Core(c.level, c.message, c.ambient), StackKey(c.level, c.ambient);
    var e1, p1 :| Outcome(fields, E.ErrorWrites(fields), e1) && Outcome(core, Placements(e1), p1) && a == p1 + stack;
    var e2, p2 :| Outcome(fields, E.ErrorWrites(fields), e2) && Outcome(core, Placements(e2), p2) && b == p2 + stack;
    EnrichedKeysFixed(fields, e1, e2);
    PlacedKeysFixed(core, e1, e2, p1, p2);
    assert a.Keys == p1.Keys + stack.Keys && b.Keys == p2.Keys + stack.Keys;
  }

  lemma EntryExists(c: Setting, fields: Fields) returns (entry: Fields)
    ensures IsEntry(c.level, c.message, fields, c.ambient, entry)
  {
    var core := Core(c.level, c.message, c.ambient);
    var enriched := OutcomeExists(fields, E.ErrorWrites(fields));
    var placed := OutcomeExists(core, Placements(enriched));
    entry := placed + StackKey(c.level, c.ambient);
  }

  /** Lines tell the values under an unlisted key apart. */
  lemma LinesShow(c: Setting, a: Fields, b: Fields, j: bytes)
    requires a.Keys == b.Keys && j in a && j !in c.listed && !a[j].Map? && !b[j].Map?
    requires RedactedLine(c, a) == RedactedLine(c, b)
    ensures R.Meaning(a[j]) == R.Meaning(b[j])
  {
    var x, y := D.Redacted(Map(a), c.listed, c.replacement).m, D.Redacted(Map(b), c.listed, c.replacement).m;
    assert R.Line(x)[..|R.Line(x)| - 1] == EncodeEntry(x) && R.Line(y)[..|R.Line(y)| - 1] == EncodeEntry(y);
    R.SameTextSameMeaning(Map(x), Map(y));
    R.SameMembers(x, y, j);
    assert x[j] == D.Redacted(a[j], c.listed, c.replacement) == a[j];
    assert y[j] == D.Redacted(b[j], c.listed, c.replacement) == b[j];
  }

  lemma OwnText(k: bytes, shape: Shape, s: bytes, j: bytes)
    requires j in Touched(k, shape)
    ensures var own := Own(k, Showing(shape, s)); j in own && own[j] == (if j == k + E.CHAIN_SUFFIX then Strs([s, s]) else Str(s))
  {
    E.SuffixesApart(k, k);
    assert [s] + [s] == [s, s];
  }

  lemma ShownTextsDiffer(k: bytes, shape: Shape, j: bytes)
    requires j in Touched(k, shape)
    ensures var a, b := Own(k, Showing(shape, B("a"))), Own(k, Showing(shape, B("b")));
            j in a && j in b && !a[j].Map? && !b[j].Map? && R.Meaning(a[j]) != R.Meaning(b[j])
  {
    OwnText(k, shape, B("a"), j);
    OwnText(k, shape, B("b"), j);
    ShownText(B("a"));
    ShownText(B("b"));
    assert B("a")[0] != B("b")[0];
    assert [P.JStr(B("a")), P.JStr(B("a"))][0] != [P.JStr(B("b")), P.JStr(B("b"))][0];
  }

  lemma ShownText(s: bytes)
    requires |s| == 1 && s[0] < 0x80
    ensures R.Meaning(Str(s)) == P.JStr(s) && R.Meaning(Strs([s, s])) == P.JArr([P.JStr(s), P.JStr(s)])
  {
    assert ValidUtf8(s[1..]);
    RepairIdentityIffValid(s);
    assert R.StringMeanings([s, s], 2) == [];
    assert R.StringMeanings([s, s], 1) == [P.JStr(s)];
  }

  lemma LinesDiffer(c: Setting, rest: Fields, k: bytes, shape: Shape, j: bytes, entry: Fields, other: Fields)
    requires j in Touched(k, shape) && Placed(j) !in c.listed && Alone(rest, k, j)
    requires IsEntry(c.level, c.message, rest[k := Showing(shape, B("a"))], c.ambient, entry)
    requires IsEntry(c.level, c.message, rest[k := Showing(shape, B("b"))], c.ambient, other)
    ensures RedactedLine(c, entry) != RedactedLine(c, other)
  {
    hide IsEntry, Alone, RedactedLine, Own, R.Meaning;
    var v, w := Showing(shape, B("a")), Showing(shape, B("b"));
    var alike := EntryAgrees(c, rest, k, v, w, entry);
    EntryKeysFixed(c, rest[k := w], alike, other);
    OwnIsPlaced(c, rest, k, v, j, entry);
    OwnIsPlaced(c, rest, k, w, j, other);
    ShownTextsDiffer(k, shape, j);
    if RedactedLine(c, entry) == RedactedLine(c, other) {
      LinesShow(c, entry, other, Placed(j));
    }
  }

  lemma UnlistedShows(c: Setting, rest: Fields, k: bytes, shape: Shape, j: bytes)
    requires j in Touched(k, shape) && Placed(j) !in c.listed && Alone(rest, k, j)
    ensures !Independent(c, rest, k, shape)
  {
    var v, w := Showing(shape, B("a")), Showing(shape, B("b"));
    var entry := EntryExists(c, rest[k := v]);
    var line := RedactedLine(c, entry);
    assert ShapeOf(v) == shape && ShapeOf(w) == shape && Prints(c, rest, k, v, line);
    if Prints(c, rest, k, w, line) {
      var other :| IsEntry(c.level, c.message, rest[k := w], c.ambient, other) && line == RedactedLine(c, other);
      LinesDiffer(c, rest, k, shape, j, entry, other);
    }
  }

  /**
   Exactly when the printed line hides what a user field holds, up to whether it is an error and wraps one: every key the
   field touches must be listed under the name it is placed at. For a plain value that is the field's own key, or its
   `fields.` key when the name is reserved; for an error also the `_type` key, and for a wrapped one the `_chain` key.
   */
  lemma HiddenIffListed(c: Setting, rest: Fields, k: bytes, shape: Shape)
    requires forall j | j in Touched(k, shape) :: Alone(rest, k, j)
    ensures Independent(c, rest, k, shape) <==> AllListed(c, k, shape)
  {
    if AllListed(c, k, shape) {
      forall v, w, line | ShapeOf(v) == shape && ShapeOf(w) == shape && Prints(c, rest, k, v, line)
        ensures Prints(c, rest, k, w, line)
      {
        ListedIsHidden(c, rest, k, v, w, line);
      }
    } else {
      var j :| j in Touched(k, shape) && Placed(j) !in c.listed;
      UnlistedShows(c, rest, k, shape, j);
    }
  }

  /** Listing the field's name alone does not hide a wrapped error, nor a field with a reserved name. */
  lemma ListingTheNameIsNotEnough(c: Setting, k: bytes)
    requires c.listed == {k}
    ensures !Independent(c, map[], k, WrappedError)
    ensures k in RESERVED ==> !Independent(c, map[], k, Plain)
  {
    E.SuffixesApart(k, k);
    SuffixedIsNotReserved(k);
    UnlistedShows(c, map[], k, WrappedError, k + E.CHAIN_SUFFIX);
    if k in RESERVED {
      PrefixedIsNotReserved(k);
      UnlistedShows(c, map[], k, Plain, k);
    }
  }
}
