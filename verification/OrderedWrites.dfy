/**
 Loops of the form `for k, v := range m { out[f(k)] = g(k, v) }`, where the language does not fix the order of the
 range: when the result does not depend on that order, and what it is.
 */
module OrderedWrites {
  import opened Bytes

  /** The assignments each key of the ranged map causes. */
  type Writes<V> = map<bytes, map<bytes, V>>

  /** `order` visits every key once. */
  ghost predicate Visits(order: seq<bytes>, keys: set<bytes>) {
    Elements(order) == keys && |order| == |keys|
  }

  /** The target map after visiting the keys in the given order. */
  function Apply<V>(base: map<bytes, V>, order: seq<bytes>, w: Writes<V>): map<bytes, V>
    requires forall k | k in order :: k in w
  {
    if order == [] then base else
      var n := |order| - 1;
      Apply(base, order[..n], w) + w[order[n]]
  }

  /** Whenever two keys assign to the same target key, they assign the same value. */
  ghost predicate Compatible<V>(w: Writes<V>) {
    forall k1, k2, j | k1 in w && k2 in w && j in w[k1] && j in w[k2] :: w[k1][j] == w[k2][j]
  }

  /** Which keys the target holds, and where each value comes from. */
  lemma {:induction false} ApplyKeys<V>(base: map<bytes, V>, order: seq<bytes>, w: Writes<V>, j: bytes)
    requires forall k | k in order :: k in w
    ensures j in Apply(base, order, w) <==> j in base || exists k :: k in order && j in w[k]
    ensures (forall k | k in order :: j !in w[k]) && j in base ==> Apply(base, order, w)[j] == base[j]
  {
    if order != [] {
      var n := |order| - 1;
      ApplyKeys(base, order[..n], w, j);
      assert order == order[..n] + [order[n]];
    }
  }

  lemma {:induction false} ApplyValue<V>(base: map<bytes, V>, order: seq<bytes>, w: Writes<V>, k: bytes, j: bytes)
    requires (forall x | x in order :: x in w) && k in order && j in w[k]
    requires forall x | x in w && j in w[x] :: w[x][j] == w[k][j]
    ensures j in Apply(base, order, w) && Apply(base, order, w)[j] == w[k][j]
  {
    var n := |order| - 1;
    assert order == order[..n] + [order[n]];
    if j !in w[order[n]] {
      ApplyValue(base, order[..n], w, k, j);
    }
  }

  /** Every value of the target was there before or was assigned by some visited key. */
  lemma {:induction false} ApplySource<V>(base: map<bytes, V>, order: seq<bytes>, w: Writes<V>, j: bytes)
    requires (forall k | k in order :: k in w) && j in Apply(base, order, w)
    ensures (j in base && Apply(base, order, w)[j] == base[j]) ||
            exists k :: k in order && j in w[k] && Apply(base, order, w)[j] == w[k][j]
  {
    if order != [] {
      var n := |order| - 1;
      assert order == order[..n] + [order[n]];
      if j !in w[order[n]] { ApplySource(base, order[..n], w, j); }
    }
  }

  /** Visiting the keys in the given order, each once, leads to `r`. */
  ghost predicate Leads<V>(base: map<bytes, V>, order: seq<bytes>, w: Writes<V>, r: map<bytes, V>) {
    Visits(order, w.Keys) && (forall k | k in order :: k in w) && r == Apply(base, order, w)
  }

  /** `r` is what the loop computes for some iteration order. */
  ghost predicate Outcome<V>(base: map<bytes, V>, w: Writes<V>, r: map<bytes, V>) {
    exists order :: Leads(base, order, w, r)
  }

  ghost predicate OrderIndependent<V(!new)>(base: map<bytes, V>, w: Writes<V>) {
    forall r1, r2 | Outcome(base, w, r1) && Outcome(base, w, r2) :: r1 == r2
  }

  lemma VisitsIn(order: seq<bytes>, keys: set<bytes>)
    requires Visits(order, keys)
    ensures forall k :: k in order <==> k in keys
  {
    assert forall k :: k in order <==> k in Elements(order);
  }

  lemma SameResult<V>(base: map<bytes, V>, o1: seq<bytes>, o2: seq<bytes>, w: Writes<V>)
    requires Compatible(w) && Visits(o1, w.Keys) && Visits(o2, w.Keys)
    requires (forall k | k in o1 :: k in w) && forall k | k in o2 :: k in w
    ensures Apply(base, o1, w) == Apply(base, o2, w)
  {
    VisitsIn(o1, w.Keys);
    VisitsIn(o2, w.Keys);
    var r1, r2 := Apply(base, o1, w), Apply(base, o2, w);
    forall j ensures j in r1 <==> j in r2 {
      ApplyKeys(base, o1, w, j);
      ApplyKeys(base, o2, w, j);
    }
    forall j | j in r1 ensures r1[j] == r2[j] {
      ApplyKeys(base, o1, w, j);
      ApplyKeys(base, o2, w, j);
      if k :| k in w && j in w[k] {
        ApplyValue(base, o1, w, k, j);
        ApplyValue(base, o2, w, k, j);
      }
    }
  }

  /** An order that visits `k` last. */
  ghost function Ending(keys: set<bytes>, k: bytes): seq<bytes> {
    SortedKeys(keys - {k}) + [k]
  }

  lemma EndingVisits(keys: set<bytes>, k: bytes)
    requires k in keys
    ensures Visits(Ending(keys, k), keys)
  {
    var before := SortedKeys(keys - {k});
    assert forall x :: x in before <==> x in Elements(before);
    assert Elements(before + [k]) == keys;
  }

  /** The outcome is the same for every iteration order exactly when the assignments are compatible. */
  lemma OrderIndependentIff<V(!new)>(base: map<bytes, V>, w: Writes<V>)
    ensures OrderIndependent(base, w) <==> Compatible(w)
  {
    if Compatible(w) { CompatibleSuffices(base, w); }
    if OrderIndependent(base, w) {
      forall k1, k2, j | k1 in w && k2 in w && j in w[k1] && j in w[k2] ensures w[k1][j] == w[k2][j] {
        Conflict(base, w, k1, k2, j);
      }
    }
  }

  lemma CompatibleSuffices<V(!new)>(base: map<bytes, V>, w: Writes<V>)
    requires Compatible(w)
    ensures OrderIndependent(base, w)
  {
    forall r1, r2 | Outcome(base, w, r1) && Outcome(base, w, r2) ensures r1 == r2 {
      var o1 :| Leads(base, o1, w, r1);
      var o2 :| Leads(base, o2, w, r2);
      SameResult(base, o1, o2, w);
    }
  }

  lemma Conflict<V(!new)>(base: map<bytes, V>, w: Writes<V>, k1: bytes, k2: bytes, j: bytes)
    requires OrderIndependent(base, w) && k1 in w && k2 in w && j in w[k1] && j in w[k2]
    ensures w[k1][j] == w[k2][j]
  {
    var r1 := EndsWith(base, w, k1, j);
    var r2 := EndsWith(base, w, k2, j);
    assert r1 == r2;
  }

  lemma EndsWith<V>(base: map<bytes, V>, w: Writes<V>, k: bytes, j: bytes) returns (r: map<bytes, V>)
    requires k in w && j in w[k]
    ensures Outcome(base, w, r) && j in r && r[j] == w[k][j]
  {
    var order := Ending(w.Keys, k);
    EndingVisits(w.Keys, k);
    VisitsIn(order, w.Keys);
    r := Apply(base, order, w);
    assert Leads(base, order, w, r);
  }

  /** Where the values of an outcome come from: each was there before or is assigned by some key. */
  lemma OutcomeSource<V>(base: map<bytes, V>, w: Writes<V>, r: map<bytes, V>, j: bytes)
    requires Outcome(base, w, r) && j in r
    ensures (j in base && r[j] == base[j]) || exists k :: k in w && j in w[k] && r[j] == w[k][j]
  {
    var order :| Leads(base, order, w, r);
    ApplySource(base, order, w, j);
  }

  /** What no key assigns is as it was. */
  lemma OutcomeKeeps<V>(base: map<bytes, V>, w: Writes<V>, r: map<bytes, V>, j: bytes)
    requires Outcome(base, w, r) && forall k | k in w :: j !in w[k]
    ensures (j in r <==> j in base) && (j in base ==> r[j] == base[j])
  {
    var order :| Leads(base, order, w, r);
    ApplyKeys(base, order, w, j);
  }

  /** What some key assigns is there, when no other key disagrees. */
  lemma OutcomeHas<V>(base: map<bytes, V>, w: Writes<V>, r: map<bytes, V>, k: bytes, j: bytes)
    requires Outcome(base, w, r) && k in w && j in w[k]
    requires forall x | x in w && j in w[x] :: w[x][j] == w[k][j]
    ensures j in r && r[j] == w[k][j]
  {
    var order :| Leads(base, order, w, r);
    VisitsIn(order, w.Keys);
    ApplyValue(base, order, w, k, j);
  }

  lemma OutcomeExists<V>(base: map<bytes, V>, w: Writes<V>) returns (r: map<bytes, V>)
    ensures Outcome(base, w, r)
  {
    var order := SortedKeys(w.Keys);
    VisitsIn(order, w.Keys);
    r := Apply(base, order, w);
    assert Leads(base, order, w, r);
  }

  /** The keys of an outcome do not depend on the order. */
  lemma OutcomeKeys<V>(base: map<bytes, V>, w: Writes<V>, r: map<bytes, V>, j: bytes)
    requires Outcome(base, w, r)
    ensures j in r <==> j in base || exists k :: k in w && j in w[k]
  {
    var order :| Leads(base, order, w, r);
    VisitsIn(order, w.Keys);
    ApplyKeys(base, order, w, j);
  }

  // ---- two loops that differ in some values only

  /** Same keys, and the same values except under the keys in `hidden`. */
  ghost predicate Agree<V>(a: map<bytes, V>, b: map<bytes, V>, hidden: set<bytes>) {
    a.Keys == b.Keys && forall j | j in a && j !in hidden :: a[j] == b[j]
  }

  ghost predicate WritesAgree<V>(v: Writes<V>, w: Writes<V>, hidden: set<bytes>) {
    v.Keys == w.Keys && forall k | k in v :: Agree(v[k], w[k], hidden)
  }

  lemma {:induction false} ApplyAgrees<V>(a: map<bytes, V>, b: map<bytes, V>, order: seq<bytes>, v: Writes<V>, w: Writes<V>,
                                          hidden: set<bytes>)
    requires Agree(a, b, hidden) && WritesAgree(v, w, hidden) && forall k | k in order :: k in v
    ensures (forall k | k in order :: k in w) && Agree(Apply(a, order, v), Apply(b, order, w), hidden)
  {
    if order != [] {
      var n := |order| - 1;
      ApplyAgrees(a, b, order[..n], v, w, hidden);
      assert order[n] in order;
      AgreeMerged(Apply(a, order[..n], v), Apply(b, order[..n], w), v[order[n]], w[order[n]], hidden);
    }
  }

  lemma AgreeMerged<V>(a: map<bytes, V>, b: map<bytes, V>, c: map<bytes, V>, d: map<bytes, V>, hidden: set<bytes>)
    requires Agree(a, b, hidden) && Agree(c, d, hidden)
    ensures Agree(a + c, b + d, hidden)
  {
    assert (a + c).Keys == a.Keys + c.Keys && (b + d).Keys == b.Keys + d.Keys;
  }

  /** Each outcome of one loop has a counterpart of the other. */
  lemma OutcomeAgrees<V>(a: map<bytes, V>, b: map<bytes, V>, v: Writes<V>, w: Writes<V>, hidden: set<bytes>, r: map<bytes, V>)
    returns (s: map<bytes, V>)
    requires Agree(a, b, hidden) && WritesAgree(v, w, hidden) && Outcome(a, v, r)
    ensures Outcome(b, w, s) && Agree(r, s, hidden)
  {
    var order :| Leads(a, order, v, r);
    ApplyAgrees(a, b, order, v, w, hidden);
    s := Apply(b, order, w);
    assert Leads(b, order, w, s);
  }

  lemma Put<V>(m: map<bytes, V>, j: bytes, v: V)
    ensures m[j := v] == m + map[j := v]
  {
  }

  // ---- the range loop itself

  /** A range over `keys` that has visited `order` and has `todo` still to come. */
  ghost predicate Visiting(order: seq<bytes>, todo: set<bytes>, keys: set<bytes>) {
    && Elements(order) + todo == keys && Elements(order) !! todo && |order| + |todo| == |keys|
    && forall k | k in order :: k in keys
  }

  lemma VisitStep<V>(base: map<bytes, V>, order: seq<bytes>, todo: set<bytes>, w: Writes<V>, k: bytes)
    requires Visiting(order, todo, w.Keys) && k in todo
    ensures Visiting(order + [k], todo - {k}, w.Keys)
    ensures Apply(base, order + [k], w) == Apply(base, order, w) + w[k]
  {
    assert (order + [k])[..|order|] == order;
    assert Elements(order + [k]) == Elements(order) + {k};
  }

  lemma VisitedAll<V>(base: map<bytes, V>, order: seq<bytes>, w: Writes<V>)
    requires Visiting(order, {}, w.Keys)
    ensures Outcome(base, w, Apply(base, order, w))
  {
    assert Elements(order) == w.Keys;
    assert Leads(base, order, w, Apply(base, order, w));
  }
}
