/** formatter.go: applyKeyMap. */
module KeyMaps {
  import opened Bytes
  import opened OrderedWrites

  function Target(keyMap: map<bytes, bytes>, k: bytes): bytes {
    if k in keyMap then keyMap[k] else k
  }

  function Renames<V>(entry: map<bytes, V>, keyMap: map<bytes, bytes>): Writes<V> {
    map k | k in entry :: map[Target(keyMap, k) := entry[k]]
  }

  method ApplyKeyMap<V>(entry: map<bytes, V>, keyMap: map<bytes, bytes>)
    returns (remapped: map<bytes, V>)
    ensures Outcome(map[], Renames(entry, keyMap), remapped)
    ensures NoCollisions(entry, keyMap) ==> IsRenamed(entry, keyMap, remapped)
  {
    remapped := map[];
    ghost var order: seq<bytes> := [];
    ghost var w := Renames(entry, keyMap);
    var todo := entry.Keys;
    while todo != {}
      invariant Visiting(order, todo, w.Keys)
      invariant remapped == Apply(map[], order, w)
      decreases todo
    {
      var k :| k in todo;
      VisitStep(map[], order, todo, w, k);
      Put(remapped, Target(keyMap, k), entry[k]);
      if k in keyMap {
        remapped := remapped[keyMap[k] := entry[k]];
      } else {
        remapped := remapped[k := entry[k]];
      }
      order := order + [k];
      todo := todo - {k};
    }
    VisitedAll(map[], order, w);
    if NoCollisions(entry, keyMap) { NothingLost(entry, keyMap, remapped); }
  }

  /** What the formatters make of an entry: its renaming, unless the key map is empty. */
  ghost predicate IsMapped<V>(entry: map<bytes, V>, keyMap: map<bytes, bytes>, r: map<bytes, V>) {
    if |keyMap| > 0 then Outcome(map[], Renames(entry, keyMap), r) else r == entry
  }

  /** No two keys of the entry end up at the same place. */
  ghost predicate NoCollisions<V>(entry: map<bytes, V>, keyMap: map<bytes, bytes>) {
    forall k | k in entry :: Alone(entry, keyMap, k)
  }

  /** No other key of the entry ends up where `k` does. */
  ghost predicate Alone<V>(entry: map<bytes, V>, keyMap: map<bytes, bytes>, k: bytes) {
    forall x | x in entry && x != k ::
      (if x in keyMap then keyMap[x] else x) != (if k in keyMap then keyMap[k] else k)
  }

  /** The entry with its keys renamed: mapped keys under their new names, the others under their own, and nothing else. */
  ghost predicate IsRenamed<V>(entry: map<bytes, V>, keyMap: map<bytes, bytes>, r: map<bytes, V>) {
    && (forall k | k in entry && k in keyMap :: keyMap[k] in r && r[keyMap[k]] == entry[k])
    && (forall k | k in entry && k !in keyMap :: k in r && r[k] == entry[k])
    && (forall j | j in r :: (j in entry && j !in keyMap) || exists k :: k in entry && k in keyMap && keyMap[k] == j)
  }

  /** The iteration order is invisible exactly when keys that are renamed alike hold equal values. */
  lemma KeyMapOrderIndependentIff<V(!new)>(entry: map<bytes, V>, keyMap: map<bytes, bytes>)
    ensures OrderIndependent(map[], Renames(entry, keyMap)) <==>
            forall k1, k2 | k1 in entry && k2 in entry &&
                            (if k1 in keyMap then keyMap[k1] else k1) == (if k2 in keyMap then keyMap[k2] else k2) ::
              entry[k1] == entry[k2]
  {
    var w := Renames(entry, keyMap);
    OrderIndependentIff(map[], w);
    if Compatible(w) {
      forall k1, k2 | k1 in entry && k2 in entry && Target(keyMap, k1) == Target(keyMap, k2) ensures entry[k1] == entry[k2] {
        assert Target(keyMap, k1) in w[k1] && Target(keyMap, k1) in w[k2];
      }
    }
  }

  /** Whatever else collides, a key that is alone at its place has its value there and, if the key map renames it, no longer
      stands under its old name unless some key was moved onto that name. */
  lemma RenamedWhere<V>(entry: map<bytes, V>, keyMap: map<bytes, bytes>, r: map<bytes, V>, k: bytes)
    requires Outcome(map[], Renames(entry, keyMap), r) && k in entry
    ensures Alone(entry, keyMap, k) && k in keyMap ==> keyMap[k] in r && r[keyMap[k]] == entry[k]
    ensures Alone(entry, keyMap, k) && k !in keyMap ==> k in r && r[k] == entry[k]
    ensures k in keyMap ==> (k in r <==> exists x :: x in entry && x in keyMap && keyMap[x] == k)
  {
    var w := Renames(entry, keyMap);
    if Alone(entry, keyMap, k) {
      OutcomeHas(map[], w, r, k, Target(keyMap, k));
    }
    OutcomeKeys(map[], w, r, k);
    if x :| x in entry && x in keyMap && keyMap[x] == k {
      assert k in w[x];
    }
  }

  /** Without collisions the result is the renamed entry: every value is there, under its new key, and nothing else. */
  lemma NothingLost<V>(entry: map<bytes, V>, keyMap: map<bytes, bytes>, r: map<bytes, V>)
    requires NoCollisions(entry, keyMap) && Outcome(map[], Renames(entry, keyMap), r)
    ensures IsRenamed(entry, keyMap, r)
  {
    forall k | k in entry ensures if k in keyMap then keyMap[k] in r && r[keyMap[k]] == entry[k] else k in r && r[k] == entry[k] {
      RenamedWhere(entry, keyMap, r, k);
    }
    forall j | j in r ensures (j in entry && j !in keyMap) || exists k :: k in entry && k in keyMap && keyMap[k] == j {
      OutcomeKeys(map[], Renames(entry, keyMap), r, j);
    }
  }

  /** The preset for Google Cloud Logging, on an entry of the two fields it names. */
  lemma GoogleCloudKeys<V>(level: V, message: V, r: map<bytes, V>)
    requires Outcome(map[], Renames(map[B("level") := level, B("message") := message],
                                    map[B("level") := B("severity"), B("message") := B("textPayload")]), r)
    ensures r == map[B("severity") := level, B("textPayload") := message]
  {
    assert B("level")[0] == 0x6C && B("message")[0] == 0x6D && B("severity")[0] == 0x73 && B("textPayload")[0] == 0x74;
    TwoRenamed(B("level"), B("message"), level, message, B("severity"), B("textPayload"), r);
  }

  lemma TwoRenamed<V>(a: bytes, b: bytes, v: V, w: V, x: bytes, y: bytes, r: map<bytes, V>)
    requires a != b && x != y && Outcome(map[], Renames(map[a := v, b := w], map[a := x, b := y]), r)
    ensures r == map[x := v, y := w]
  {
    hide Outcome, Renames;
    var entry, keyMap := map[a := v, b := w], map[a := x, b := y];
    assert Alone(entry, keyMap, a) && Alone(entry, keyMap, b);
    TwoAlone(entry, keyMap, a, b, r);
  }

  lemma TwoAlone<V>(entry: map<bytes, V>, keyMap: map<bytes, bytes>, a: bytes, b: bytes, r: map<bytes, V>)
    requires entry.Keys == {a, b} == keyMap.Keys && Alone(entry, keyMap, a) && Alone(entry, keyMap, b)
    requires Outcome(map[], Renames(entry, keyMap), r)
    ensures r == map[keyMap[a] := entry[a], keyMap[b] := entry[b]]
  {
    hide Outcome, Renames, Alone;
    NothingLost(entry, keyMap, r);
    assert a in entry && b in entry && keyMap[a] in r && keyMap[b] in r;
  }

  lemma RenamedUnique<V>(entry: map<bytes, V>, keyMap: map<bytes, bytes>, r1: map<bytes, V>, r2: map<bytes, V>)
    requires IsRenamed(entry, keyMap, r1) && IsRenamed(entry, keyMap, r2)
    ensures r1 == r2
  {
    assert forall j :: j in r1 <==> j in r2;
    assert forall j | j in r1 :: r1[j] == r2[j];
  }

  /** A key map that can be undone on `entry`: no two keys map alike, and no unmapped key of the entry is a target. */
  predicate Reversible<V>(entry: map<bytes, V>, keyMap: map<bytes, bytes>) {
    && (forall a, b | a in keyMap && b in keyMap && keyMap[a] == keyMap[b] :: a == b)
    && (forall k | k in entry && k !in keyMap :: k !in keyMap.Values)
  }

  ghost predicate IsInverse(keyMap: map<bytes, bytes>, back: map<bytes, bytes>) {
    && (forall k | k in keyMap :: keyMap[k] in back && back[keyMap[k]] == k)
    && (forall j | j in back :: j in keyMap.Values)
  }

  /** Applying the inverse map afterwards restores the entry. */
  lemma InverseRestores<V>(entry: map<bytes, V>, keyMap: map<bytes, bytes>, back: map<bytes, bytes>,
                           r: map<bytes, V>, restored: map<bytes, V>)
    requires Reversible(entry, keyMap) && IsInverse(keyMap, back)
    requires Outcome(map[], Renames(entry, keyMap), r) && Outcome(map[], Renames(r, back), restored)
    ensures restored == entry
  {
    assert NoCollisions(entry, keyMap);
    NothingLost(entry, keyMap, r);
    ReverseRenaming(entry, keyMap, back, r);
    NothingLost(r, back, restored);
    RenamedUnique(r, back, restored, entry);
  }

  lemma ReverseRenaming<V>(entry: map<bytes, V>, keyMap: map<bytes, bytes>, back: map<bytes, bytes>, r: map<bytes, V>)
    requires Reversible(entry, keyMap) && IsInverse(keyMap, back) && IsRenamed(entry, keyMap, r)
    ensures NoCollisions(r, back) && IsRenamed(r, back, entry)
  {
    forall k | k in entry ensures Target(back, Target(keyMap, k)) == k {
    }
    forall j | j in r ensures Target(back, j) in entry && entry[Target(back, j)] == r[j] && Target(keyMap, Target(back, j)) == j {
      var k :| k in entry && Target(keyMap, k) == j;
    }
    forall k | k in entry ensures Target(keyMap, k) in r && Target(back, Target(keyMap, k)) == k {
    }
  }
}
