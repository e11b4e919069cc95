/** logger.go: how the fields of an entry are collected and placed beside the core keys. */
module Assembly {
  import opened Bytes
  import opened Levels
  import opened Values
  import opened OrderedWrites
  import ErrorFields

  // ---- precedence of field sources

  function Merge(base: Fields, overlay: Fields): Fields {
    base + overlay
  }

  /** mergeFields. */
  method MergeFields(base: Fields, overlay: Fields) returns (merged: Fields)
    ensures merged == Merge(base, overlay)
  {
    if |base| == 0 { return overlay; }
    if |overlay| == 0 { return base; }
    merged := CopyInto(map[], base);
    merged := CopyInto(merged, overlay);
  }

  /** A loop that assigns every entry of `source`. */
  method CopyInto(target: Fields, source: Fields) returns (r: Fields)
    ensures r == target + source
  {
    r := target;
    var todo := source.Keys;
    while todo != {}
      invariant todo <= source.Keys
      invariant r == target + (source - todo)
      decreases todo
    {
      var k :| k in todo;
      r := r[k := source[k]];
      CopyStep(target, source, todo, k);
      todo := todo - {k};
    }
    assert source - {} == source;
  }

  lemma CopyStep(target: Fields, source: Fields, todo: set<bytes>, k: bytes)
    requires k in todo && todo <= source.Keys
    ensures (target + (source - todo))[k := source[k]] == target + (source - (todo - {k}))
  {
  }

  lemma MergeIsAMonoid(a: Fields, b: Fields, c: Fields)
    ensures Merge(Merge(a, b), c) == Merge(a, Merge(b, c))
    ensures Merge(map[], a) == a == Merge(a, map[])
  {
  }

  /** The persistent fields of a logger made by a chain of With calls. */
  function WithChain(withs: seq<Fields>): Fields {
    if withs == [] then map[] else Merge(WithChain(withs[..|withs| - 1]), withs[|withs| - 1])
  }

  /** What the context extractors contribute; one that panics contributes nothing. */
  function Extracted(results: seq<Option<Fields>>): Fields {
    if results == [] then map[] else
      var rest := Extracted(results[..|results| - 1]);
      match results[|results| - 1] case None => rest case Some(f) => Merge(rest, f)
  }

  /** The field collection of internalLogCtx. */
  method CollectFields(persistent: Fields, results: seq<Option<Fields>>, perCall: Fields) returns (all: Fields)
    ensures all == Merge(persistent, Merge(Extracted(results), perCall))
  {
    var ctxFields: Fields := map[];
    for i := 0 to |results|
      invariant ctxFields == Extracted(results[..i])
    {
      assert results[..i + 1][..i] == results[..i];
      match results[i]
      case None =>
      case Some(f) => ctxFields := MergeFields(ctxFields, f);
    }
    assert results[..|results|] == results;
    var overlay := MergeFields(ctxFields, perCall);
    all := MergeFields(persistent, overlay);
  }

  /** The contributions of the extractors that did not panic. */
  function Succeeded(results: seq<Option<Fields>>): seq<Fields> {
    if results == [] then [] else
      Succeeded(results[..|results| - 1]) +
      match results[|results| - 1] case None => [] case Some(f) => [f]
  }

  /** Key `k` has the value of the last layer that holds it, and is absent if none does. */
  ghost predicate LastLayerWins(layers: seq<Fields>, all: Fields, k: bytes) {
    && (k in all <==> exists i :: 0 <= i < |layers| && k in layers[i])
    && (forall i | 0 <= i < |layers| && k in layers[i] && (forall j | i < j < |layers| :: k !in layers[j]) :: all[k] == layers[i][k])
  }

  lemma {:induction false} WithChainLayers(withs: seq<Fields>, k: bytes)
    ensures LastLayerWins(withs, WithChain(withs), k)
  {
    if withs != [] {
      var n := |withs| - 1;
      WithChainLayers(withs[..n], k);
      LayerOnTop(withs[..n], WithChain(withs[..n]), withs[n], k);
      assert withs == withs[..n] + [withs[n]];
    }
  }

  lemma LayerOnTop(layers: seq<Fields>, all: Fields, top: Fields, k: bytes)
    requires LastLayerWins(layers, all, k)
    ensures LastLayerWins(layers + [top], Merge(all, top), k)
  {
    var more := layers + [top];
    if k in Merge(all, top) {
      if k in top { assert k in more[|layers|]; } else {
        var i :| 0 <= i < |layers| && k in layers[i];
        assert k in more[i];
      }
    }
    forall i | 0 <= i < |more| && k in more[i] && (forall j | i < j < |more| :: k !in more[j]) ensures Merge(all, top)[k] == more[i][k] {
      if i < |layers| {
        assert more[i] == layers[i];
        assert k !in more[|layers|];
        forall j | i < j < |layers| ensures k !in layers[j] { assert more[j] == layers[j]; }
      }
    }
  }

  lemma {:induction false} LayersConcat(lower: seq<Fields>, upper: seq<Fields>, a: Fields, b: Fields, k: bytes)
    requires LastLayerWins(lower, a, k) && LastLayerWins(upper, b, k)
    ensures LastLayerWins(lower + upper, Merge(a, b), k)
  {
    var all := lower + upper;
    if k in b {
      var i :| 0 <= i < |upper| && k in upper[i];
      assert k in all[|lower| + i];
    } else if k in a {
      var i :| 0 <= i < |lower| && k in lower[i];
      assert k in all[i];
    }
    forall i | 0 <= i < |all| && k in all[i] && (forall j | i < j < |all| :: k !in all[j])
      ensures Merge(a, b)[k] == all[i][k]
    {
      LastOfConcat(lower, upper, a, b, k, i);
    }
  }

  lemma LastOfConcat(lower: seq<Fields>, upper: seq<Fields>, a: Fields, b: Fields, k: bytes, i: nat)
    requires LastLayerWins(lower, a, k) && LastLayerWins(upper, b, k)
    requires i < |lower + upper| && k in (lower + upper)[i] && forall j | i < j < |lower + upper| :: k !in (lower + upper)[j]
    ensures k in Merge(a, b) && Merge(a, b)[k] == (lower + upper)[i][k]
  {
    var all := lower + upper;
    if i < |lower| {
      forall j | 0 <= j < |upper| ensures k !in upper[j] { assert all[|lower| + j] == upper[j]; }
      forall j | i < j < |lower| ensures k !in lower[j] { assert all[j] == lower[j]; }
      assert k !in b && k in lower[i];
    } else {
      assert all[i] == upper[i - |lower|];
      forall j | i - |lower| < j < |upper| ensures k !in upper[j] { assert all[|lower| + j] == upper[j]; }
    }
  }

  lemma {:induction false} ExtractedLayers(results: seq<Option<Fields>>, k: bytes)
    ensures LastLayerWins(Succeeded(results), Extracted(results), k)
  {
    if results != [] {
      var n := |results| - 1;
      ExtractedLayers(results[..n], k);
      match results[n]
      case None => assert Succeeded(results) == Succeeded(results[..n]);
      case Some(f) => LayerOnTop(Succeeded(results[..n]), Extracted(results[..n]), f, k);
    }
  }

  /** Per-call fields win over later extractors, those over earlier ones, those over later With calls, those over
      earlier ones. */
  lemma FieldPrecedence(withs: seq<Fields>, results: seq<Option<Fields>>, perCall: Fields, k: bytes)
    ensures LastLayerWins(withs + (Succeeded(results) + [perCall]),
                          Merge(WithChain(withs), Merge(Extracted(results), perCall)), k)
  {
    WithChainLayers(withs, k);
    ExtractedLayers(results, k);
    LayerOnTop(Succeeded(results), Extracted(results), perCall, k);
    LayersConcat(withs, Succeeded(results) + [perCall], WithChain(withs), Merge(Extracted(results), perCall), k);
  }

  // ---- core keys

  datatype Identity = Identity(service: bytes, version: bytes, env: bytes, host: bytes)

  /** What writeEntry takes from the runtime and the logger's options. */
  datatype Ambient = Ambient(time: bytes, file: Option<bytes>, identity: Option<Identity>, eventId: Option<bytes>,
                             stack: Option<bytes>)

  const RESERVED: set<bytes> := {
    B("time"), B("level"), B("message"), B("file"), B("service"), B("version"), B("env"), B("host"),
    B("event_id"), B("stacktrace")
  }

  const PREFIX: bytes := B("fields.")

  function OptionalKey(k: bytes, v: Option<bytes>): Fields {
    match v case None => map[] case Some(s) => map[k := Str(s)]
  }

  function IdentityKeys(id: Option<Identity>): Fields {
    match id
    case None => map[]
    case Some(i) =>
      map[B("service") := Str(i.service), B("version") := Str(i.version), B("env") := Str(i.env), B("host") := Str(i.host)]
  }

  /** The entry before the user's fields are added. */
  function Core(level: Level, message: bytes, a: Ambient): Fields {
    map[B("time") := Str(a.time), B("level") := Str(Name(level)), B("message") := Str(message)]
    + OptionalKey(B("file"), a.file) + IdentityKeys(a.identity) + OptionalKey(B("event_id"), a.eventId)
  }

  /** Where a user field goes. */
  function Placed(k: bytes): bytes {
    if k in RESERVED then PREFIX + k else k
  }

  function Placements(fields: Fields): Writes<Value> {
    map k | k in fields :: map[Placed(k) := fields[k]]
  }

  function StackKey(level: Level, a: Ambient): Fields {
    if level >= ERROR then OptionalKey(B("stacktrace"), a.stack) else map[]
  }

  /** `entry` is what writeEntry assembles from the call, for some order of visiting the fields and the errors. */
  ghost predicate IsEntry(level: Level, message: bytes, fields: Fields, a: Ambient, entry: Fields) {
    exists enriched, placed ::
      && Outcome(fields, ErrorFields.ErrorWrites(fields), enriched)
      && Outcome(Core(level, message, a), Placements(enriched), placed)
      && entry == placed + StackKey(level, a)
  }

  /** writeEntry up to the middleware chain. */
  method AssembleEntry(level: Level, message: bytes, fields: Fields, a: Ambient) returns (entry: Fields)
    ensures IsEntry(level, message, fields, a, entry)
  {
    var core := CoreEntry(level, message, a);
    var enriched := ErrorFields.EnrichErrors(fields);
    var placed := PlaceFields(core, enriched);
    entry := AddStack(placed, level, a);
  }

  method CoreEntry(level: Level, message: bytes, a: Ambient) returns (entry: Fields)
    ensures entry == Core(level, message, a)
  {
    entry := map[B("time") := Str(a.time), B("level") := Str(Name(level)), B("message") := Str(message)];
    if a.file.Some? { entry := entry + map[B("file") := Str(a.file.value)]; }
    if a.identity.Some? {
      var id := a.identity.value;
      entry := entry + map[B("service") := Str(id.service), B("version") := Str(id.version),
                           B("env") := Str(id.env), B("host") := Str(id.host)];
    }
    if a.eventId.Some? { entry := entry + map[B("event_id") := Str(a.eventId.value)]; }
  }

  method AddStack(entry: Fields, level: Level, a: Ambient) returns (r: Fields)
    ensures r == entry + StackKey(level, a)
  {
    r := entry;
    if a.stack.Some? && level >= ERROR { r := r + map[B("stacktrace") := Str(a.stack.value)]; }
  }

  /** The loop over the user's fields. */
  method PlaceFields(core: Fields, fields: Fields) returns (entry: Fields)
    ensures Outcome(core, Placements(fields), entry)
  {
    entry := core;
    ghost var order: seq<bytes> := [];
    ghost var w := Placements(fields);
    var todo := fields.Keys;
    while todo != {}
      invariant Visiting(order, todo, w.Keys)
      invariant entry == Apply(core, order, w)
      decreases todo
    {
      var k :| k in todo;
      VisitStep(core, order, todo, w, k);
      entry := PlaceField(entry, k, fields[k]);
      order := order + [k];
      todo := todo - {k};
    }
    VisitedAll(core, order, w);
  }

  method PlaceField(entry: Fields, k: bytes, v: Value) returns (r: Fields)
    ensures r == entry + map[Placed(k) := v]
  {
    if k in RESERVED {
      r := entry[PREFIX + k := v];
    } else {
      r := entry[k := v];
    }
  }

  lemma PrefixedIsNotReserved(k: bytes)
    ensures PREFIX + k !in RESERVED
  {
    var p := PREFIX + k;
    assert |p| >= 7 && p[0] == PREFIX[0] == 0x66 && p[2] == PREFIX[2] == 0x65;
    assert B("file")[2] == 0x6C;
    assert B("time")[0] == 0x74 && B("level")[0] == 0x6C && B("message")[0] == 0x6D && B("service")[0] == 0x73;
    assert B("version")[0] == 0x76 && B("env")[0] == 0x65 && B("host")[0] == 0x68 && B("event_id")[0] == 0x65;
    assert B("stacktrace")[0] == 0x73;
  }

  lemma PlacedIsNotReserved(k: bytes)
    ensures Placed(k) !in RESERVED
  {
    PrefixedIsNotReserved(k);
  }

  /** Whatever the fields and the iteration order, every reserved key of the entry is exactly what the logger put there. */
  lemma ReservedKeysAreTheLoggers(core: Fields, fields: Fields, placed: Fields, r: bytes)
    requires r in RESERVED && Outcome(core, Placements(fields), placed)
    ensures (r in placed <==> r in core) && (r in core ==> placed[r] == core[r])
  {
    forall k | k in fields ensures r !in Placements(fields)[k] { PlacedIsNotReserved(k); }
    OutcomeKeeps(core, Placements(fields), placed, r);
  }

  /** `m` holds `v` under `k`, and nothing when there is no `v`. */
  predicate Holds(m: Fields, k: bytes, v: Option<bytes>) {
    if v.Some? then k in m && m[k] == Str(v.value) else k !in m
  }

  lemma CoreNamesDiffer()
    ensures B("time")[0] == 0x74 && B("level")[0] == 0x6C && B("message")[0] == 0x6D && B("file")[0] == 0x66
    ensures B("service")[0] == 0x73 && B("version")[0] == 0x76 && B("env")[0] == 0x65 && B("host")[0] == 0x68
    ensures B("event_id")[0] == 0x65 && B("stacktrace")[0] == 0x73
  {
  }

  /** What a finished entry holds under each reserved key. */
  function Expected(level: Level, message: bytes, a: Ambient, k: bytes): Option<bytes> {
    if k == B("time") then Some(a.time)
    else if k == B("level") then Some(Name(level))
    else if k == B("message") then Some(message)
    else if k == B("file") then a.file
    else if k == B("event_id") then a.eventId
    else if k == B("stacktrace") then if level >= ERROR then a.stack else None
    else if a.identity.None? then None
    else if k == B("service") then Some(a.identity.value.service)
    else if k == B("version") then Some(a.identity.value.version)
    else if k == B("env") then Some(a.identity.value.env)
    else if k == B("host") then Some(a.identity.value.host)
    else None
  }

  /** The layers of the core entry: each later one adds keys of its own. */
  lemma AddedOnTop(m: Fields, more: Fields, k: bytes, v: Option<bytes>)
    ensures k !in more && Holds(m, k, v) ==> Holds(m + more, k, v)
    ensures k in more && Holds(more, k, v) ==> Holds(m + more, k, v)
  {
  }

  lemma NamedHold(level: Level, message: bytes, a: Ambient, k: bytes)
    ensures var named := map[B("time") := Str(a.time), B("level") := Str(Name(level)), B("message") := Str(message)];
            Holds(named, k, if k in {B("time"), B("level"), B("message")} then Expected(level, message, a, k) else None)
  {
    CoreNamesDiffer();
  }

  lemma IdentityHolds(id: Option<Identity>, k: bytes)
    ensures Holds(IdentityKeys(id), k,
                  if id.None? then None
                  else if k == B("service") then Some(id.value.service)
                  else if k == B("version") then Some(id.value.version)
                  else if k == B("env") then Some(id.value.env)
                  else if k == B("host") then Some(id.value.host)
                  else None)
  {
    CoreNamesDiffer();
  }

  lemma OptionalHolds(name: bytes, v: Option<bytes>, k: bytes)
    ensures Holds(OptionalKey(name, v), k, if k == name then v else None)
  {
  }

  lemma CoreHolds(level: Level, message: bytes, a: Ambient, k: bytes)
    requires k in RESERVED
    ensures Holds(Core(level, message, a), k, if k == B("stacktrace") then None else Expected(level, message, a, k))
  {
    var named := map[B("time") := Str(a.time), B("level") := Str(Name(level)), B("message") := Str(message)];
    var file, id, event := OptionalKey(B("file"), a.file), IdentityKeys(a.identity), OptionalKey(B("event_id"), a.eventId);
    var v := if k == B("stacktrace") then None else Expected(level, message, a, k);
    NamedHold(level, message, a, k);
    OptionalHolds(B("file"), a.file, k);
    IdentityHolds(a.identity, k);
    OptionalHolds(B("event_id"), a.eventId, k);
    AddedOnTop(named, file, k, v);
    AddedOnTop(named + file, id, k, v);
    AddedOnTop(named + file + id, event, k, v);
    CoreNamesDiffer();
  }

  /**
   Every reserved key of the finished entry, whatever the user's fields are called: present exactly when its option is
   on, and for the stack trace when the level is ERROR or above, with its own value.
   */
  lemma ReservedKeyValues(level: Level, message: bytes, fields: Fields, a: Ambient, entry: Fields, k: bytes)
    requires IsEntry(level, message, fields, a, entry) && k in RESERVED
    ensures Holds(entry, k, Expected(level, message, a, k))
  {
    var core := Core(level, message, a);
    var enriched, placed :| Outcome(core, Placements(enriched), placed) && entry == placed + StackKey(level, a);
    CoreHolds(level, message, a, k);
    ReservedKeysAreTheLoggers(core, enriched, placed, k);
    StackOnTop(level, message, a, placed, k);
  }

  lemma StackOnTop(level: Level, message: bytes, a: Ambient, placed: Fields, k: bytes)
    requires Holds(placed, k, if k == B("stacktrace") then None else Expected(level, message, a, k))
    ensures Holds(placed + StackKey(level, a), k, Expected(level, message, a, k))
  {
    CoreNamesDiffer();
  }

  /** In particular the level of the finished entry is that of the call. */
  lemma LevelIsTheCalls(level: Level, message: bytes, fields: Fields, a: Ambient, entry: Fields)
    requires IsEntry(level, message, fields, a, entry)
    ensures B("level") in entry && entry[B("level")] == Str(Name(level))
  {
    ReservedKeyValues(level, message, fields, a, entry, B("level"));
    CoreNamesDiffer();
  }

  /** The placement of user fields depends on the iteration order exactly when a field named like a core key meets a
      field that already carries the prefixed name, with another value. */
  lemma PlacementOrderIndependentIff(core: Fields, fields: Fields)
    ensures OrderIndependent(core, Placements(fields)) <==>
            forall k | k in fields && k in RESERVED && PREFIX + k in fields :: fields[k] == fields[PREFIX + k]
  {
    var w := Placements(fields);
    OrderIndependentIff(core, w);
    forall k { PrefixedIsNotReserved(k); }
    if Compatible(w) {
      forall k | k in fields && k in RESERVED && PREFIX + k in fields ensures fields[k] == fields[PREFIX + k] {
        assert PREFIX + k in w[k] && PREFIX + k in w[PREFIX + k];
      }
    }
    forall a, b | PREFIX + a == PREFIX + b ensures a == b {
      assert a == (PREFIX + a)[|PREFIX|..] && b == (PREFIX + b)[|PREFIX|..];
    }
  }

  /** Then every user field is there, under its own name or, for the ten names the logger keeps for itself, behind
      `fields.`; and nothing else is. */
  lemma UserFieldsKept(core: Fields, fields: Fields, placed: Fields, k: bytes)
    requires Outcome(core, Placements(fields), placed) && k in fields
    requires forall x | x in fields && x in RESERVED && PREFIX + x in fields :: fields[x] == fields[PREFIX + x]
    ensures var kept := {B("time"), B("level"), B("message"), B("file"), B("service"), B("version"), B("env"), B("host"),
                         B("event_id"), B("stacktrace")};
            var place := if k in kept then B("fields.") + k else k;
            place in placed && placed[place] == fields[k]
  {
    PlacementOrderIndependentIff(core, fields);
    OrderIndependentIff(core, Placements(fields));
    OutcomeHas(core, Placements(fields), placed, k, Placed(k));
  }

  lemma NothingElsePlaced(core: Fields, fields: Fields, placed: Fields, j: bytes)
    requires Outcome(core, Placements(fields), placed) && j in placed
    ensures j in core || (j in fields && j !in RESERVED) || exists k :: k in fields && k in RESERVED && j == B("fields.") + k
  {
    OutcomeKeys(core, Placements(fields), placed, j);
  }

  /** In the finished entry, for fields without errors: all of them are there, unless a prefixed name is taken. */
  lemma FieldsOfTheEntry(level: Level, message: bytes, fields: Fields, a: Ambient, entry: Fields, k: bytes)
    requires IsEntry(level, message, fields, a, entry) && k in fields
    requires forall x | x in fields :: !fields[x].Error?
    requires forall x | x in fields && x in RESERVED && PREFIX + x in fields :: fields[x] == fields[PREFIX + x]
    ensures var kept := {B("time"), B("level"), B("message"), B("file"), B("service"), B("version"), B("env"), B("host"),
                         B("event_id"), B("stacktrace")};
            var place := if k in kept then B("fields.") + k else k;
            place in entry && entry[place] == fields[k]
  {
    hide Outcome, Core, StackKey, Placements, Placed;
    var placed := PlacedWithoutErrors(level, message, fields, a, entry);
    UserFieldsKept(Core(level, message, a), fields, placed, k);
    StackKeyOnly(level, a);
    PrefixedIsNotReserved(k);
  }

  lemma PlacedWithoutErrors(level: Level, message: bytes, fields: Fields, a: Ambient, entry: Fields) returns (placed: Fields)
    requires IsEntry(level, message, fields, a, entry) && forall x | x in fields :: !fields[x].Error?
    ensures Outcome(Core(level, message, a), Placements(fields), placed) && entry == placed + StackKey(level, a)
  {
    hide Outcome, Core, StackKey, Placements;
    var enriched, placed' :| Outcome(fields, ErrorFields.ErrorWrites(fields), enriched) &&
                             Outcome(Core(level, message, a), Placements(enriched), placed') && entry == placed' + StackKey(level, a);
    ErrorFields.NoErrorsNoChange(fields, enriched);
    placed := placed';
  }

  lemma StackKeyOnly(level: Level, a: Ambient)
    ensures forall j | j in StackKey(level, a) :: j == B("stacktrace") && j in RESERVED
  {
  }
}
