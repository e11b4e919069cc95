/** From a log call to the sinks: entry assembly, the JSON printer, and the filters with their default level key. */
module Pipeline {
  import opened Bytes
  import opened Levels
  import opened Values
  import opened OrderedWrites
  import opened Assembly
  import E = ErrorFields
  import L = LevelFilter
  import R = RoundTrip
  import S = Sinks

  const LEVEL_KEY: bytes := B("level")

  /** One log call that reaches the formatter, and the entry writeEntry assembles for it. */
  datatype Call = Call(level: Level, message: bytes, fields: Fields, ambient: Ambient, entry: Fields)

  /** The entry is one that writeEntry can assemble, whatever order it visits the fields in. */
  ghost predicate Assembled(c: Call) {
    IsEntry(c.level, c.message, c.fields, c.ambient, c.entry)
  }

  /** User fields that cannot be taken for the level. Only those count that end up in front of the level key: such a field's
      name does not end in a quote and the word level, and no map nested in it has such a key or the key level. A top-level
      field called level is harmless, since it is moved out of the way. */
  predicate Harmless(fields: Fields) {
    forall k | k in fields && Less(Placed(k), LEVEL_KEY) ::
      !L.EndsInQuoted(k, LEVEL_KEY) && L.NoHits(fields[k], LEVEL_KEY)
  }

  lemma {:induction false} AsciiIsPlain(s: bytes)
    requires forall b | b in s :: 0x20 <= b < 0x80 && b != QUOTE && b != BACKSLASH
    ensures L.PlainBytes(s)
  {
    if s != [] {
      assert forall b | b in s[1..] :: b in s;
      AsciiIsPlain(s[1..]);
      assert s[0] in s;
    }
  }

  lemma LevelKeyIsPlain()
    ensures L.PlainKey(LEVEL_KEY)
  {
    AsciiIsPlain(LEVEL_KEY);
  }

  lemma NoQuoteInReserved(k: bytes)
    requires k in RESERVED
    ensures QUOTE !in k
  {
  }

  lemma NoQuoteNoLookAlike(k: bytes)
    requires QUOTE !in k
    ensures !L.EndsInQuoted(k, LEVEL_KEY)
  {
    var i := |k| - |LEVEL_KEY| - 1;
    if i >= 0 {
      assert k[i] in k && k[i..][0] == k[i];
      assert ([QUOTE] + LEVEL_KEY)[0] == QUOTE;
    }
  }

  /** Expanding errors adds no key that could be taken for the level, and no nested data. */
  lemma EnrichmentIsHarmless(fields: Fields, enriched: Fields)
    requires Harmless(fields) && Outcome(fields, E.ErrorWrites(fields), enriched)
    ensures Harmless(enriched)
  {
    forall j | j in enriched && Less(Placed(j), LEVEL_KEY)
      ensures !L.EndsInQuoted(j, LEVEL_KEY) && L.NoHits(enriched[j], LEVEL_KEY)
    {
      OutcomeSource(fields, E.ErrorWrites(fields), enriched, j);
      if !(j in fields && enriched[j] == fields[j]) {
        var k :| k in fields && j in E.FieldWrites(k, fields[k]) && enriched[j] == E.FieldWrites(k, fields[k])[j];
        ErrorKeyIsHarmless(k, fields[k], j);
      }
    }
  }

  lemma ErrorKeyIsHarmless(k: bytes, v: Value, j: bytes)
    requires j in E.FieldWrites(k, v) && (j == k ==> !L.EndsInQuoted(k, LEVEL_KEY))
    ensures !L.EndsInQuoted(j, LEVEL_KEY) && L.NoHits(E.FieldWrites(k, v)[j], LEVEL_KEY)
  {
    assert E.FieldWrites(k, v)[j].Str? || E.FieldWrites(k, v)[j].Strs?;
    if j != k {
      var last := j[|j| - 1];
      assert last == 0x65 || last == 0x6E;
      OtherLastByte(j);
    }
  }

  lemma OtherLastByte(j: bytes)
    requires j != [] && j[|j| - 1] != 0x6C
    ensures !L.EndsInQuoted(j, LEVEL_KEY)
  {
    var i := |j| - |LEVEL_KEY| - 1;
    if i >= 0 {
      assert j[i..][|LEVEL_KEY|] == j[|j| - 1];
      assert ([QUOTE] + LEVEL_KEY)[|LEVEL_KEY|] == LEVEL_KEY[4] == 0x6C;
    }
  }

  lemma CoreKeysReserved(level: Level, message: bytes, a: Ambient, k: bytes)
    requires k !in RESERVED
    ensures k !in Core(level, message, a) && k !in StackKey(level, a)
  {
  }

  lemma PlacedIsNoLookAlike(k: bytes)
    requires !L.EndsInQuoted(k, LEVEL_KEY)
    ensures !L.EndsInQuoted(Placed(k), LEVEL_KEY)
  {
    if k in RESERVED {
      NoQuoteInReserved(k);
      assert QUOTE !in PREFIX + k;
      NoQuoteNoLookAlike(PREFIX + k);
    }
  }

  /** Where an unreserved key of an entry comes from. */
  lemma UserKey(c: Call, enriched: Fields, placed: Fields, k: bytes) returns (field: bytes)
    requires Outcome(Core(c.level, c.message, c.ambient), Placements(enriched), placed)
    requires c.entry == placed + StackKey(c.level, c.ambient) && k in c.entry && k !in RESERVED
    ensures field in enriched && k == Placed(field) && c.entry[k] == enriched[field]
  {
    var core := Core(c.level, c.message, c.ambient);
    CoreKeysReserved(c.level, c.message, c.ambient, k);
    OutcomeSource(core, Placements(enriched), placed, k);
    field :| field in enriched && k == Placed(field) && placed[k] == enriched[field];
  }

  /** Harmless fields leave the level key to the logger, whatever they are called and however they are visited. */
  lemma LevelKeyIsTheLoggers(c: Call)
    requires Assembled(c) && Harmless(c.fields)
    ensures L.LevelKeyIsFirst(c.entry, LEVEL_KEY)
  {
    var enriched, placed :|
      && Outcome(c.fields, E.ErrorWrites(c.fields), enriched)
      && Outcome(Core(c.level, c.message, c.ambient), Placements(enriched), placed)
      && c.entry == placed + StackKey(c.level, c.ambient);
    EnrichmentIsHarmless(c.fields, enriched);
    forall k | k in c.entry && Less(k, LEVEL_KEY) ensures !L.IsHit(k, LEVEL_KEY, false) && L.NoHits(c.entry[k], LEVEL_KEY) {
      LessIrreflexive(k);
      if k in RESERVED {
        NoQuoteInReserved(k);
        NoQuoteNoLookAlike(k);
        ReservedKeyValues(c.level, c.message, c.fields, c.ambient, c.entry, k);
      } else {
        var field := UserKey(c, enriched, placed, k);
        PlacedIsNoLookAlike(field);
      }
    }
  }

  /** Nothing in front of the level key looks like it, or what does names the same level. */
  ghost predicate ReadsBack(c: Call) {
    L.EarlierHit(c.entry, LEVEL_KEY) == None || L.EarlierHit(c.entry, LEVEL_KEY) == Some(c.level)
  }

  /** Exactly when a filter reads the level of the call from its line; harmless fields are enough. */
  lemma CallLevelIsRead(c: Call)
    requires Assembled(c) && TRACE <= c.level <= FATAL
    ensures L.LevelIn(R.Line(c.entry), LEVEL_KEY) == c.level <==> ReadsBack(c)
    ensures Harmless(c.fields) ==> ReadsBack(c)
  {
    LevelKeyIsPlain();
    LevelIsTheCalls(c.level, c.message, c.fields, c.ambient, c.entry);
    L.LevelRecoveredIff(c.entry, LEVEL_KEY, c.level);
    if Harmless(c.fields) {
      LevelKeyIsTheLoggers(c);
      L.LevelRecovered(c.entry, LEVEL_KEY, c.level);
    }
  }

  /**
   A whole run without middleware or key map: through any tree of fan-outs and filters over sinks that do not fail,
   each sink receives exactly the lines of the calls whose level it takes, in order. The calls have to read back, for
   which harmless fields are enough.
   */
  lemma CallsReachTheirSinks(w: S.Writer, calls: seq<Call>, lines: seq<bytes>, store: S.Store, id: S.Id)
    requires S.Known(w, store) && S.DistinctSinks(w) && S.NeverFails(store) && S.AllFiltersUse(w, LEVEL_KEY) && id in store
    requires |lines| == |calls|
    requires forall i | 0 <= i < |calls| ::
               && Assembled(calls[i]) && (Harmless(calls[i].fields) || ReadsBack(calls[i])) && TRACE <= calls[i].level <= FATAL
               && lines[i] == R.Line(calls[i].entry)
    ensures S.RunOutput(w, lines, store)[id].received ==
            store[id].received + S.Taken(w, id, seq(|calls|, i requires 0 <= i < |calls| => calls[i].level), lines)
  {
    var levels := seq(|calls|, i requires 0 <= i < |calls| => calls[i].level);
    forall i | 0 <= i < |lines| ensures L.LevelIn(lines[i], LEVEL_KEY) == levels[i] {
      CallLevelIsRead(calls[i]);
    }
    S.LinesAreRouted(w, LEVEL_KEY, levels, lines, store, id);
  }

  /** The condition cannot be dropped: for a call that does not read back, some filter decides against its level. */
  lemma OthersAreMisrouted(c: Call, id: S.Id) returns (w: S.Writer)
    requires Assembled(c) && TRACE <= c.level <= FATAL && !ReadsBack(c)
    ensures S.AllFiltersUse(w, LEVEL_KEY) && (S.Reaches(w, id, R.Line(c.entry)) <==> !S.Takes(w, id, c.level))
  {
    hide IsEntry, L.EarlierHit, R.Line, L.LevelIn;
    CallLevelIsRead(c);
    var line := R.Line(c.entry);
    var read := L.LevelIn(line, LEVEL_KEY);
    w := S.Filtered(S.Sink(id), if read < c.level then c.level else read, LEVEL_KEY);
    assert S.Reaches(S.Sink(id), id, line) && S.Takes(S.Sink(id), id, c.level);
  }

  /** Such calls exist at every level: an ordinary call with one nested map, under a key in front of the level key. */
  lemma NestedLevelIsRead(c: Call, nested: Level)
    requires Assembled(c) && TRACE <= nested <= FATAL
    requires c.fields == map[B("data") := Map(map[LEVEL_KEY := Str(Name(nested))])]
    ensures L.LevelIn(R.Line(c.entry), LEVEL_KEY) == nested
  {
    hide IsEntry, Outcome, Less, Name, R.Line, L.LevelIn, L.FirstHit, L.NoHitsBelow, L.PlainKey;
    var inner := Map(map[LEVEL_KEY := Str(Name(nested))]);
    DataIsInFront();
    var placed := UnenrichedPlacement(c);
    FieldIsPlaced(c, placed, B("data"), inner);
    NothingElseIsPlaced(c, placed, B("data"));
    OnlyReservedBelow(c, B("data"));
    LevelKeyIsPlain();
    L.LevelMapHit(LEVEL_KEY, nested);
    L.NestedLevelHijacks(c.entry, LEVEL_KEY, B("data"), nested);
  }

  lemma DataIsInFront()
    ensures Less(B("data"), LEVEL_KEY) && B("data") !in RESERVED
  {
    assert B("data")[0] == 0x64 && LEVEL_KEY[0] == 0x6C;
    CoreNamesDiffer();
  }

  /** The placement of a call without errors. */
  lemma UnenrichedPlacement(c: Call) returns (placed: Fields)
    requires Assembled(c) && forall x | x in c.fields :: !c.fields[x].Error?
    ensures Outcome(Core(c.level, c.message, c.ambient), Placements(c.fields), placed)
    ensures c.entry == placed + StackKey(c.level, c.ambient)
  {
    var enriched;
    enriched, placed :|
      && Outcome(c.fields, E.ErrorWrites(c.fields), enriched)
      && Outcome(Core(c.level, c.message, c.ambient), Placements(enriched), placed)
      && c.entry == placed + StackKey(c.level, c.ambient);
    E.NoErrorsNoChange(c.fields, enriched);
  }

  lemma NothingElseIsPlaced(c: Call, placed: Fields, k: bytes)
    requires c.fields.Keys == {k} && k !in RESERVED
    requires Outcome(Core(c.level, c.message, c.ambient), Placements(c.fields), placed)
    requires c.entry == placed + StackKey(c.level, c.ambient)
    ensures forall j | j in c.entry && j !in RESERVED :: j == k
  {
    forall j | j in c.entry && j !in RESERVED ensures j == k {
      var field := UserKey(c, c.fields, placed, j);
      assert field in c.fields.Keys;
    }
  }

  lemma FieldIsPlaced(c: Call, placed: Fields, k: bytes, v: Value)
    requires c.fields == map[k := v] && k !in RESERVED
    requires Outcome(Core(c.level, c.message, c.ambient), Placements(c.fields), placed)
    requires c.entry == placed + StackKey(c.level, c.ambient)
    ensures k in c.entry && c.entry[k] == v
  {
    CoreKeysReserved(c.level, c.message, c.ambient, k);
    OutcomeHas(Core(c.level, c.message, c.ambient), Placements(c.fields), placed, k, k);
  }

  lemma OnlyReservedBelow(c: Call, k: bytes)
    requires Assembled(c) && Less(k, LEVEL_KEY) && forall j | j in c.entry && j !in RESERVED :: j == k
    ensures L.NoHitsBelow(c.entry, k, LEVEL_KEY)
  {
    forall j | j in c.entry && Less(j, k) ensures !L.IsHit(j, LEVEL_KEY, false) && L.NoHits(c.entry[j], LEVEL_KEY) {
      LessIrreflexive(k);
      LessTransitive(j, k, LEVEL_KEY);
      LessIrreflexive(LEVEL_KEY);
      NoQuoteInReserved(j);
      NoQuoteNoLookAlike(j);
      ReservedKeyValues(c.level, c.message, c.fields, c.ambient, c.entry, j);
    }
  }
}
