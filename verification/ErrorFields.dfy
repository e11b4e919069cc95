/** errors.go: enrichErrors. */
module ErrorFields {
  import opened Bytes
  import opened Values
  import opened OrderedWrites

  const TYPE_SUFFIX: bytes := [0x5F, 0x74, 0x79, 0x70, 0x65]         // _type
  const CHAIN_SUFFIX: bytes := [0x5F, 0x63, 0x68, 0x61, 0x69, 0x6E]  // _chain

  /** The assignments one field causes: none unless it holds an error. */
  function FieldWrites(k: bytes, v: Value): Fields {
    if !v.Error? then map[] else
      map[k := Str(v.msg), k + TYPE_SUFFIX := Str(v.typeName)] +
      if v.unwrapped == [] then map[] else map[k + CHAIN_SUFFIX := Strs([v.msg] + v.unwrapped)]
  }

  function ErrorWrites(fields: Fields): Writes<Value> {
    map k | k in fields :: FieldWrites(k, fields[k])
  }

  /** enrichErrors. */
  method EnrichErrors(fields: Fields) returns (result: Fields)
    ensures Outcome(fields, ErrorWrites(fields), result)
  {
    result := fields;
    ghost var order: seq<bytes> := [];
    ghost var w := ErrorWrites(fields);
    var todo := fields.Keys;
    while todo != {}
      invariant Visiting(order, todo, w.Keys)
      invariant result == Apply(fields, order, w)
      decreases todo
    {
      var k :| k in todo;
      VisitStep(fields, order, todo, w, k);
      result := EnrichField(result, k, fields[k]);
      order := order + [k];
      todo := todo - {k};
    }
    VisitedAll(fields, order, w);
  }

  /** The loop body: message, type, and the chain found by walking errors.Unwrap. */
  method EnrichField(enriched: Fields, k: bytes, v: Value) returns (result: Fields)
    ensures result == enriched + FieldWrites(k, v)
  {
    result := enriched;
    if !v.Error? { return; }
    result := result[k := Str(v.msg)];
    result := result[k + TYPE_SUFFIX := Str(v.typeName)];
    var chain := [v.msg];
    var i := 0;
    while i < |v.unwrapped|
      invariant 0 <= i <= |v.unwrapped| && chain == [v.msg] + v.unwrapped[..i]
    {
      chain := chain + [v.unwrapped[i]];
      i := i + 1;
    }
    assert v.unwrapped[..|v.unwrapped|] == v.unwrapped;
    if |chain| > 1 {
      result := result[k + CHAIN_SUFFIX := Strs(chain)];
    }
  }

  lemma SuffixTexts()
    ensures B("_type") == TYPE_SUFFIX && B("_chain") == CHAIN_SUFFIX
  {
    var t, c := B("_type"), B("_chain");
    assert t[0] == 0x5F && t[1] == 0x74 && t[2] == 0x79 && t[3] == 0x70 && t[4] == 0x65;
    assert c[0] == 0x5F && c[1] == 0x63 && c[2] == 0x68 && c[3] == 0x61 && c[4] == 0x69 && c[5] == 0x6E;
  }

  lemma SuffixesApart(a: bytes, b: bytes)
    ensures a + TYPE_SUFFIX == b + TYPE_SUFFIX ==> a == b
    ensures a + CHAIN_SUFFIX == b + CHAIN_SUFFIX ==> a == b
    ensures a + TYPE_SUFFIX != b + CHAIN_SUFFIX
    ensures a + TYPE_SUFFIX != a && a + CHAIN_SUFFIX != a
  {
    var t, c := a + TYPE_SUFFIX, b + CHAIN_SUFFIX;
    assert t[|t| - 1] == 0x65 && c[|c| - 1] == 0x6E;
    if a + TYPE_SUFFIX == b + TYPE_SUFFIX { assert a == (a + TYPE_SUFFIX)[..|a|] && b == (b + TYPE_SUFFIX)[..|b|]; }
    if a + CHAIN_SUFFIX == b + CHAIN_SUFFIX { assert a == (a + CHAIN_SUFFIX)[..|a|] && b == (b + CHAIN_SUFFIX)[..|b|]; }
  }

  /** Error `k2` sits under a key that error `k1` also writes, without both writing the same value. */
  predicate Clash(fields: Fields, k1: bytes, k2: bytes) {
    && k1 in fields && k2 in fields
    && fields[k1].Error? && fields[k2].Error?
    && ((k2 == k1 + TYPE_SUFFIX && fields[k2].msg != fields[k1].typeName)
        || (k2 == k1 + CHAIN_SUFFIX && fields[k1].unwrapped != []))
  }

  /**
   The enriched fields are the same for every iteration order exactly when no error sits under the `_type` key of
   another error (with a different text) or under the `_chain` key another error emits.
   */
  lemma EnrichOrderIndependentIff(fields: Fields)
    ensures OrderIndependent(fields, ErrorWrites(fields)) <==>
            forall k1, k2 | k1 in fields && k2 in fields :: !Clash(fields, k1, k2)
  {
    var w := ErrorWrites(fields);
    OrderIndependentIff(fields, w);
    if Compatible(w) {
      forall k1, k2 | k1 in fields && k2 in fields ensures !Clash(fields, k1, k2) {
        CompatibleNoClash(fields, k1, k2);
      }
    }
    if forall k1, k2 | k1 in fields && k2 in fields :: !Clash(fields, k1, k2) {
      forall k1, k2, j | k1 in w && k2 in w && j in w[k1] && j in w[k2] ensures w[k1][j] == w[k2][j] {
        NoClashAgree(fields, k1, k2, j);
      }
    }
  }

  lemma ErrorKeysWritten(k: bytes, v: Value)
    requires v.Error?
    ensures k in FieldWrites(k, v) && FieldWrites(k, v)[k] == Str(v.msg)
    ensures k + TYPE_SUFFIX in FieldWrites(k, v) && FieldWrites(k, v)[k + TYPE_SUFFIX] == Str(v.typeName)
    ensures v.unwrapped != [] ==> k + CHAIN_SUFFIX in FieldWrites(k, v) && FieldWrites(k, v)[k + CHAIN_SUFFIX].Strs?
  {
    SuffixesApart(k, k);
  }

  lemma CompatibleNoClash(fields: Fields, k1: bytes, k2: bytes)
    requires Compatible(ErrorWrites(fields)) && k1 in fields && k2 in fields
    ensures !Clash(fields, k1, k2)
  {
    if fields[k1].Error? && fields[k2].Error? {
      var w := ErrorWrites(fields);
      var a, b := FieldWrites(k1, fields[k1]), FieldWrites(k2, fields[k2]);
      assert w[k1] == a && w[k2] == b;
      forall j | j in a && j in b ensures a[j] == b[j] { assert j in w[k1] && j in w[k2]; }
      ErrorKeysWritten(k1, fields[k1]);
      ErrorKeysWritten(k2, fields[k2]);
    }
  }

  lemma NoClashAgree(fields: Fields, k1: bytes, k2: bytes, j: bytes)
    requires k1 in fields && k2 in fields && !Clash(fields, k1, k2) && !Clash(fields, k2, k1)
    requires j in FieldWrites(k1, fields[k1]) && j in FieldWrites(k2, fields[k2])
    ensures FieldWrites(k1, fields[k1])[j] == FieldWrites(k2, fields[k2])[j]
  {
    SuffixesApart(k1, k2);
    SuffixesApart(k2, k1);
  }

  /** In that case every error is replaced by its message and type, with its unwrap chain exactly when it wraps
      something, and every field no error writes to passes through. */
  lemma EnrichedFields(fields: Fields, r: Fields, k: bytes)
    requires Outcome(fields, ErrorWrites(fields), r) && k in fields
    requires forall k1, k2 | k1 in fields && k2 in fields :: !Clash(fields, k1, k2)
    ensures fields[k].Error? ==>
              && k in r && r[k] == Str(fields[k].msg)
              && k + B("_type") in r && r[k + B("_type")] == Str(fields[k].typeName)
              && (fields[k].unwrapped != [] ==>
                    k + B("_chain") in r && r[k + B("_chain")] == Strs([fields[k].msg] + fields[k].unwrapped))
    ensures (forall x | x in fields :: k !in FieldWrites(x, fields[x])) ==> k in r && r[k] == fields[k]
  {
    var w := ErrorWrites(fields);
    SuffixTexts();
    EnrichOrderIndependentIff(fields);
    OrderIndependentIff(fields, w);
    if fields[k].Error? {
      SuffixesApart(k, k);
      OutcomeHas(fields, w, r, k, k);
      OutcomeHas(fields, w, r, k, k + TYPE_SUFFIX);
      if fields[k].unwrapped != [] { OutcomeHas(fields, w, r, k, k + CHAIN_SUFFIX); }
    }
    if forall x | x in fields :: k !in FieldWrites(x, fields[x]) {
      OutcomeKeeps(fields, w, r, k);
    }
  }

  /** The chain of an unwrapped error is not made up: a `_chain` key that was no field comes from an error that wraps one. */
  lemma ChainOnlyIfWrapped(fields: Fields, r: Fields, k: bytes)
    requires Outcome(fields, ErrorWrites(fields), r) && k in fields && k + CHAIN_SUFFIX !in fields
    requires fields[k].Error? && fields[k].unwrapped == []
    ensures k + CHAIN_SUFFIX !in r
  {
    forall x | x in fields ensures k + CHAIN_SUFFIX !in FieldWrites(x, fields[x]) {
      SuffixesApart(x, k);
    }
    OutcomeKeeps(fields, ErrorWrites(fields), r, k + CHAIN_SUFFIX);
  }

  /** Without errors the map is returned as it is. */
  lemma NoErrorsNoChange(fields: Fields, r: Fields)
    requires Outcome(fields, ErrorWrites(fields), r) && forall x | x in fields :: !fields[x].Error?
    ensures r == fields
  {
    forall k ensures (k in r <==> k in fields) && (k in r ==> r[k] == fields[k]) {
      OutcomeKeeps(fields, ErrorWrites(fields), r, k);
    }
  }
}
