/** writer_filtered.go and writer_fanout.go: where the lines of a run end up. */
module Sinks {
  import opened Bytes
  import opened Levels
  import opened Values
  import Encoder
  import KeyMaps
  import L = LevelFilter
  import R = RoundTrip

  type Id = nat

  /** A tree of writers over sinks with an identity. */
  datatype Writer =
    | Sink(id: Id)
    | Filtered(inner: Writer, minLevel: Level, levelKey: bytes)
    | FanOut(writers: seq<Writer>)

  /**
   A sink: what it has received, which of its coming writes will fail, and how Sync behaves. A write that is not in
   `failures` succeeds.
   */
  datatype SinkState = SinkState(received: seq<bytes>, failures: seq<bool>, syncs: nat, isSyncer: bool, syncFails: bool)

  type Store = map<Id, SinkState>

  datatype Result = Result(n: nat, ok: bool, store: Store)

  function SinkWrite(s: SinkState, p: bytes): SinkState {
    var fails := s.failures != [] && s.failures[0];
    s.(failures := if s.failures == [] then [] else s.failures[1..],
       received := if fails then s.received else s.received + [p])
  }

  predicate Fails(s: SinkState) {
    s.failures != [] && s.failures[0]
  }

  /** The sinks below a writer. */
  function SinksOf(w: Writer): set<Id> {
    match w
    case Sink(id) => {id}
    case Filtered(inner, _, _) => SinksOf(inner)
    case FanOut(ws) => set i, id | 0 <= i < |ws| && id in SinksOf(ws[i]) :: id
  }

  predicate Known(w: Writer, store: Store) {
    SinksOf(w) <= store.Keys
  }

  lemma BelowFanOut(w: Writer, i: nat)
    requires w.FanOut? && i < |w.writers|
    ensures SinksOf(w.writers[i]) <= SinksOf(w)
  {
  }

  function WriteTo(w: Writer, p: bytes, store: Store): (r: Result)
    requires Known(w, store)
    ensures r.store.Keys == store.Keys
    decreases w, 0
  {
    match w
    case Sink(id) => Result(if Fails(store[id]) then 0 else |p|, !Fails(store[id]), store[id := SinkWrite(store[id], p)])
    case Filtered(inner, minLevel, key) =>
      if L.LevelIn(p, key) < minLevel then Result(|p|, true, store) else WriteTo(inner, p, store)
    case FanOut(_) => WriteFrom(w, 0, p, store)
  }

  /** The writers of a fan-out from index `i` on, up to the first that fails. */
  function WriteFrom(w: Writer, i: nat, p: bytes, store: Store): (r: Result)
    requires w.FanOut? && i <= |w.writers| && Known(w, store)
    ensures r.store.Keys == store.Keys
    decreases w, 0, |w.writers| - i
  {
    if i == |w.writers| then Result(|p|, true, store) else
      BelowFanOut(w, i);
      var r := WriteTo(w.writers[i], p, store);
      if !r.ok then r else WriteFrom(w, i + 1, p, r.store)
  }

  /** The output side of a root logger: its sinks, its error counter and its fallback. */
  class Output {
    var store: Store
    var writeErrors: nat
    const out: Writer
    const fallback: Option<Writer>

    ghost predicate Valid()
      reads this
    {
      Known(out, store) && (fallback.Some? ==> Known(fallback.value, store))
    }

    constructor (out: Writer, fallback: Option<Writer>, store: Store)
      requires Known(out, store) && (fallback.Some? ==> Known(fallback.value, store))
      ensures Valid() && this.out == out && this.fallback == fallback && this.store == store && writeErrors == 0
    {
      this.out, this.fallback, this.store, this.writeErrors := out, fallback, store, 0;
    }

    /** Write, dispatched on the kind of writer. */
    method Write(w: Writer, p: bytes) returns (n: nat, ok: bool)
      requires Known(w, store)
      modifies this`store
      ensures Result(n, ok, store) == WriteTo(w, p, old(store))
      decreases w
    {
      match w
      case Sink(id) =>
        ok := !Fails(store[id]);
        n := if ok then |p| else 0;
        store := store[id := SinkWrite(store[id], p)];
      case Filtered(inner, minLevel, levelKey) =>
        var level := L.ExtractLevel(p, levelKey);
        if level < minLevel { return |p|, true; }
        n, ok := Write(inner, p);
      case FanOut(ws) =>
        var i := 0;
        while i < |ws|
          invariant 0 <= i <= |ws| && Known(w, store)
          invariant WriteFrom(w, 0, p, old(store)) == WriteFrom(w, i, p, store)
        {
          BelowFanOut(w, i);
          n, ok := Write(ws[i], p);
          if !ok { return; }
          i := i + 1;
        }
        return |p|, true;
    }

    /** Sync, dispatched on the kind of writer; it reports the sinks whose Sync failed. */
    method Sync(w: Writer) returns (failed: seq<Id>)
      requires Known(w, store)
      modifies this`store
      ensures SyncResult(failed, store) == SyncAll(w, old(store))
      decreases w
    {
      match w
      case Sink(id) =>
        failed := [];
        if store[id].isSyncer {
          if store[id].syncFails { failed := [id]; }
          store := store[id := store[id].(syncs := store[id].syncs + 1)];
        }
      case Filtered(inner, _, _) => failed := Sync(inner);
      case FanOut(ws) =>
        failed := [];
        var i := 0;
        while i < |ws|
          invariant 0 <= i <= |ws| && Known(w, store)
          invariant SyncFrom(w, 0, old(store)) == Failing(failed, SyncFrom(w, i, store))
        {
          BelowFanOut(w, i);
          ghost var before, rest := failed, SyncFrom(w, i, store);
          var err := Sync(ws[i]);
          failed := failed + err;
          assert before + (err + SyncFrom(w, i + 1, store).failed) == failed + SyncFrom(w, i + 1, store).failed;
          i := i + 1;
        }
        assert failed + [] == failed;
    }

    /** The write of writeEntry: an error is counted, and the line goes to the fallback. */
    method Emit(line: bytes)
      requires Valid()
      modifies this`store, this`writeErrors
      ensures Valid()
      ensures var r := WriteTo(out, line, old(store));
              && writeErrors == old(writeErrors) + (if r.ok then 0 else 1)
              && store == if r.ok || fallback.None? then r.store else WriteTo(fallback.value, line, r.store).store
      ensures DistinctSinks(out) ==>
                (writeErrors == old(writeErrors) <==>
                 forall id | Reaches(out, id, line) :: id in old(store) && !Fails(old(store)[id]))
    {
      if DistinctSinks(out) { WriteOkIff(out, line, store); }
      var n, ok := Write(out, line);
      if !ok {
        writeErrors := writeErrors + 1;
        if fallback.Some? {
          n, ok := Write(fallback.value, line);
        }
      }
    }
  }

  // ---- frames and failures

  /** A write touches no sink outside the writer. */
  lemma {:induction false} OtherSinksUntouched(w: Writer, p: bytes, store: Store, id: Id)
    requires Known(w, store) && id in store && id !in SinksOf(w)
    ensures WriteTo(w, p, store).store[id] == store[id]
    decreases w, 0
  {
    match w
    case Sink(_) =>
    case Filtered(inner, _, _) => OtherSinksUntouched(inner, p, store, id);
    case FanOut(_) => OtherSinksUntouchedFrom(w, 0, p, store, id);
  }

  lemma {:induction false} OtherSinksUntouchedFrom(w: Writer, i: nat, p: bytes, store: Store, id: Id)
    requires w.FanOut? && i <= |w.writers| && Known(w, store) && id in store
    requires forall j | i <= j < |w.writers| :: id !in SinksOf(w.writers[j])
    ensures WriteFrom(w, i, p, store).store[id] == store[id]
    decreases w, 0, |w.writers| - i
  {
    if i < |w.writers| {
      BelowFanOut(w, i);
      OtherSinksUntouched(w.writers[i], p, store, id);
      OtherSinksUntouchedFrom(w, i + 1, p, WriteTo(w.writers[i], p, store).store, id);
    }
  }

  /** No sink occurs in two branches. */
  predicate DistinctSinks(w: Writer) {
    match w
    case Sink(_) => true
    case Filtered(inner, _, _) => DistinctSinks(inner)
    case FanOut(ws) =>
      && (forall i | 0 <= i < |ws| :: DistinctSinks(ws[i]))
      && forall i, j | 0 <= i < j < |ws| :: SinksOf(ws[i]) !! SinksOf(ws[j])
  }

  /** The index of the first writer that would fail, from index `i` on; the number of writers if none would. */
  function FirstFailure(w: Writer, i: nat, p: bytes, store: Store): (j: nat)
    requires w.FanOut? && i <= |w.writers| && Known(w, store)
    ensures i <= j <= |w.writers|
    decreases |w.writers| - i
  {
    if i == |w.writers| then i else
      BelowFanOut(w, i);
      if !WriteTo(w.writers[i], p, store).ok then i else FirstFailure(w, i + 1, p, store)
  }

  /**
   Fail fast: with distinct sinks, a fan-out reports success exactly when no writer would fail on its own; every writer
   up to and including the first failing one leaves its sinks as it would alone, and the later ones are not written to.
   */
  lemma FanOutFailsFast(w: Writer, p: bytes, store: Store, j: nat, id: Id)
    requires w.FanOut? && DistinctSinks(w) && Known(w, store) && j < |w.writers| && id in SinksOf(w.writers[j])
    ensures id in store && id in WriteTo(w, p, store).store
    ensures WriteTo(w, p, store).ok <==> FirstFailure(w, 0, p, store) == |w.writers|
    ensures WriteTo(w, p, store).store[id] ==
            if j <= FirstFailure(w, 0, p, store) then WriteTo(w.writers[j], p, store).store[id] else store[id]
  {
    BelowFanOut(w, j);
    forall k, x | 0 <= k < |w.writers| && x in SinksOf(w.writers[k]) ensures x in store { BelowFanOut(w, k); }
    SucceedsFrom(w, 0, p, store, store);
    FailsFastFrom(w, 0, p, store, store, j, id);
  }

  /** Writing to one branch depends on that branch's sinks only. */
  lemma {:induction false} WriteIsLocal(w: Writer, p: bytes, a: Store, b: Store)
    requires Known(w, a) && Known(w, b) && forall id | id in SinksOf(w) :: a[id] == b[id]
    ensures WriteTo(w, p, a).ok == WriteTo(w, p, b).ok && WriteTo(w, p, a).n == WriteTo(w, p, b).n
    ensures forall id | id in SinksOf(w) :: WriteTo(w, p, a).store[id] == WriteTo(w, p, b).store[id]
    decreases w, 0
  {
    match w
    case Sink(_) =>
    case Filtered(inner, _, _) => WriteIsLocal(inner, p, a, b);
    case FanOut(_) => WriteIsLocalFrom(w, 0, p, a, b);
  }

  lemma {:induction false} WriteIsLocalFrom(w: Writer, i: nat, p: bytes, a: Store, b: Store)
    requires w.FanOut? && i <= |w.writers| && Known(w, a) && Known(w, b) && forall id | id in SinksOf(w) :: a[id] == b[id]
    ensures WriteFrom(w, i, p, a).ok == WriteFrom(w, i, p, b).ok && WriteFrom(w, i, p, a).n == WriteFrom(w, i, p, b).n
    ensures forall id | id in SinksOf(w) :: WriteFrom(w, i, p, a).store[id] == WriteFrom(w, i, p, b).store[id]
    decreases w, 0, |w.writers| - i
  {
    if i < |w.writers| {
      BelowFanOut(w, i);
      var x := w.writers[i];
      WriteIsLocal(x, p, a, b);
      var a', b' := WriteTo(x, p, a).store, WriteTo(x, p, b).store;
      forall id | id in SinksOf(w) ensures a'[id] == b'[id] {
        if id !in SinksOf(x) {
          OtherSinksUntouched(x, p, a, id);
          OtherSinksUntouched(x, p, b, id);
        }
      }
      WriteIsLocalFrom(w, i + 1, p, a', b');
    }
  }

  /** Two stores agree on the sinks of the writers from index `i` on. */
  ghost predicate AgreeFrom(w: Writer, i: nat, a: Store, b: Store) {
    w.FanOut? && forall k, id | i <= k < |w.writers| && id in SinksOf(w.writers[k]) :: id in a && id in b && a[id] == b[id]
  }

  lemma AgreementKept(w: Writer, i: nat, p: bytes, orig: Store, store: Store)
    requires w.FanOut? && DistinctSinks(w) && i < |w.writers| && Known(w.writers[i], store)
    requires AgreeFrom(w, i, orig, store)
    ensures AgreeFrom(w, i + 1, orig, WriteTo(w.writers[i], p, store).store)
  {
    forall k, id | i < k < |w.writers| && id in SinksOf(w.writers[k])
      ensures id in orig && id in store && WriteTo(w.writers[i], p, store).store[id] == orig[id]
    {
      assert SinksOf(w.writers[i]) !! SinksOf(w.writers[k]);
      OtherSinksUntouched(w.writers[i], p, store, id);
    }
  }

  /** Once the writers before index `i` are done, no later write reaches their sinks. */
  lemma EarlierSinksAreDone(w: Writer, i: nat, p: bytes, store: Store, j: nat, id: Id)
    requires w.FanOut? && DistinctSinks(w) && Known(w, store) && j < i <= |w.writers| && id in SinksOf(w.writers[j])
    ensures id in store && WriteFrom(w, i, p, store).store[id] == store[id]
  {
    BelowFanOut(w, j);
    forall k | i <= k < |w.writers| ensures id !in SinksOf(w.writers[k]) {
      assert SinksOf(w.writers[j]) !! SinksOf(w.writers[k]);
    }
    OtherSinksUntouchedFrom(w, i, p, store, id);
  }

  lemma {:induction false} FailsFastFrom(w: Writer, i: nat, p: bytes, orig: Store, store: Store, j: nat, id: Id)
    requires w.FanOut? && DistinctSinks(w) && Known(w, orig) && Known(w, store) && i <= j < |w.writers|
    requires id in SinksOf(w.writers[j]) && id in orig && id in store && Known(w.writers[j], orig)
    requires AgreeFrom(w, i, orig, store)
    ensures WriteFrom(w, i, p, store).store[id] ==
            if j <= FirstFailure(w, i, p, orig) then WriteTo(w.writers[j], p, orig).store[id] else orig[id]
    decreases |w.writers| - i
  {
    BelowFanOut(w, i);
    var x := w.writers[i];
    WriteIsLocal(x, p, orig, store);
    var next := WriteTo(x, p, store).store;
    AgreementKept(w, i, p, orig, store);
    if j == i {
      EarlierSinksAreDone(w, i + 1, p, next, j, id);
    } else if WriteTo(x, p, store).ok {
      FailsFastFrom(w, i + 1, p, orig, next, j, id);
    } else {
      assert next[id] == orig[id];
    }
  }

  lemma {:induction false} SucceedsFrom(w: Writer, i: nat, p: bytes, orig: Store, store: Store)
    requires w.FanOut? && DistinctSinks(w) && Known(w, orig) && Known(w, store) && i <= |w.writers|
    requires AgreeFrom(w, i, orig, store)
    ensures WriteFrom(w, i, p, store).ok <==> FirstFailure(w, i, p, orig) == |w.writers|
    decreases |w.writers| - i
  {
    if i < |w.writers| {
      BelowFanOut(w, i);
      WriteIsLocal(w.writers[i], p, orig, store);
      AgreementKept(w, i, p, orig, store);
      if WriteTo(w.writers[i], p, store).ok {
        SucceedsFrom(w, i + 1, p, orig, WriteTo(w.writers[i], p, store).store);
      }
    }
  }

  // ---- routing

  /** Whether a line reaches a sink when nothing fails. */
  predicate Reaches(w: Writer, id: Id, p: bytes) {
    match w
    case Sink(i) => i == id
    case Filtered(inner, minLevel, key) => L.LevelIn(p, key) >= minLevel && Reaches(inner, id, p)
    case FanOut(ws) => exists i :: 0 <= i < |ws| && Reaches(ws[i], id, p)
  }

  predicate NeverFails(store: Store) {
    forall id | id in store :: store[id].failures == []
  }

  lemma {:induction false} ReachesOwnSinks(w: Writer, id: Id, p: bytes)
    requires Reaches(w, id, p)
    ensures id in SinksOf(w)
  {
    match w
    case Sink(_) =>
    case Filtered(inner, _, _) => ReachesOwnSinks(inner, id, p);
    case FanOut(ws) =>
      var i :| 0 <= i < |ws| && Reaches(ws[i], id, p);
      ReachesOwnSinks(ws[i], id, p);
  }

  /** The store after a line has been delivered to the sinks it reaches. */
  ghost predicate Delivered(w: Writer, p: bytes, store: Store, store': Store) {
    && store'.Keys == store.Keys
    && forall id | id in store ::
         store'[id] == if Reaches(w, id, p) then store[id].(received := store[id].received + [p]) else store[id]
  }

  /** On sinks that do not fail, one write delivers the line to exactly the sinks it reaches, once each. */
  lemma {:induction false} WriteDelivers(w: Writer, p: bytes, store: Store)
    requires Known(w, store) && DistinctSinks(w) && NeverFails(store)
    ensures WriteTo(w, p, store).ok && Delivered(w, p, store, WriteTo(w, p, store).store)
    decreases w, 0
  {
    match w
    case Sink(_) =>
    case Filtered(inner, _, _) => WriteDelivers(inner, p, store);
    case FanOut(_) => DeliversFrom(w, 0, p, store);
  }

  predicate ReachesFrom(w: Writer, i: nat, id: Id, p: bytes) {
    w.FanOut? && exists j :: i <= j < |w.writers| && Reaches(w.writers[j], id, p)
  }

  lemma {:induction false} DeliversFrom(w: Writer, i: nat, p: bytes, store: Store)
    requires w.FanOut? && i <= |w.writers| && Known(w, store) && DistinctSinks(w) && NeverFails(store)
    ensures WriteFrom(w, i, p, store).ok
    ensures forall id | id in store :: WriteFrom(w, i, p, store).store[id] ==
              if ReachesFrom(w, i, id, p) then store[id].(received := store[id].received + [p]) else store[id]
    decreases w, 0, |w.writers| - i
  {
    if i < |w.writers| {
      BelowFanOut(w, i);
      var x := w.writers[i];
      WriteDelivers(x, p, store);
      var next := WriteTo(x, p, store).store;
      DeliversFrom(w, i + 1, p, next);
      forall id | id in store ensures WriteFrom(w, i, p, store).store[id] ==
                if ReachesFrom(w, i, id, p) then store[id].(received := store[id].received + [p]) else store[id] {
        ReachesOnce(w, i, id, p);
      }
    }
  }

  lemma ReachesOnce(w: Writer, i: nat, id: Id, p: bytes)
    requires w.FanOut? && i < |w.writers|
    ensures ReachesFrom(w, i, id, p) <==> Reaches(w.writers[i], id, p) || ReachesFrom(w, i + 1, id, p)
    ensures DistinctSinks(w) ==> !(Reaches(w.writers[i], id, p) && ReachesFrom(w, i + 1, id, p))
  {
    if DistinctSinks(w) && Reaches(w.writers[i], id, p) {
      ReachesOwnSinks(w.writers[i], id, p);
      if j :| i + 1 <= j < |w.writers| && Reaches(w.writers[j], id, p) {
        ReachesOwnSinks(w.writers[j], id, p);
        assert SinksOf(w.writers[i]) !! SinksOf(w.writers[j]);
      }
    }
  }

  // ---- which sinks a write tries

  /** The sinks a line reaches, in the order in which they are tried. */
  function Reached(w: Writer, p: bytes): seq<Id>
    decreases w, 0
  {
    match w
    case Sink(id) => [id]
    case Filtered(inner, minLevel, key) => if L.LevelIn(p, key) < minLevel then [] else Reached(inner, p)
    case FanOut(_) => ReachedFrom(w, 0, p)
  }

  function ReachedFrom(w: Writer, i: nat, p: bytes): seq<Id>
    requires w.FanOut? && i <= |w.writers|
    decreases w, 0, |w.writers| - i
  {
    if i == |w.writers| then [] else Reached(w.writers[i], p) + ReachedFrom(w, i + 1, p)
  }

  predicate KnownIds(ids: seq<Id>, store: Store) {
    forall id | id in ids :: id in store
  }

  /** Writing to sinks one after the other, up to the first that fails. */
  function TryAll(ids: seq<Id>, p: bytes, store: Store): (r: Result)
    requires KnownIds(ids, store)
    ensures r.store.Keys == store.Keys
  {
    if ids == [] then Result(|p|, true, store) else
      var tried := store[ids[0] := SinkWrite(store[ids[0]], p)];
      if Fails(store[ids[0]]) then Result(0, false, tried) else TryAll(ids[1..], p, tried)
  }

  lemma {:induction false} TryInTwoParts(a: seq<Id>, b: seq<Id>, p: bytes, store: Store)
    requires KnownIds(a, store) && KnownIds(b, store)
    ensures KnownIds(a + b, store)
    ensures var first := TryAll(a, p, store);
            TryAll(a + b, p, store) == if first.ok then TryAll(b, p, first.store) else first
  {
    if a == [] {
      assert a + b == b;
    } else {
      assert (a + b)[1..] == a[1..] + b;
      if !Fails(store[a[0]]) { TryInTwoParts(a[1..], b, p, store[a[0] := SinkWrite(store[a[0]], p)]); }
    }
  }

  /** A write to any tree of writers tries the sinks that the line reaches one after the other and stops at the first that
      fails, with that sink's count and error; a sink that sits in several branches is tried several times. */
  lemma {:induction false} WriteTriesInTurn(w: Writer, p: bytes, store: Store)
    requires Known(w, store)
    ensures KnownIds(Reached(w, p), store) && WriteTo(w, p, store) == TryAll(Reached(w, p), p, store)
    decreases w, 0
  {
    match w
    case Sink(id) =>
      assert Reached(w, p)[1..] == [];
    case Filtered(inner, _, _) => WriteTriesInTurn(inner, p, store);
    case FanOut(_) => TriesFrom(w, 0, p, store);
  }

  lemma {:induction false} TriesFrom(w: Writer, i: nat, p: bytes, store: Store)
    requires w.FanOut? && i <= |w.writers| && Known(w, store)
    ensures KnownIds(ReachedFrom(w, i, p), store) && WriteFrom(w, i, p, store) == TryAll(ReachedFrom(w, i, p), p, store)
    decreases w, 0, |w.writers| - i
  {
    if i < |w.writers| {
      BelowFanOut(w, i);
      WriteTriesInTurn(w.writers[i], p, store);
      TriesFrom(w, i + 1, p, WriteTo(w.writers[i], p, store).store);
      TryInTwoParts(Reached(w.writers[i], p), ReachedFrom(w, i + 1, p), p, store);
    }
  }

  predicate NoRepeats(ids: seq<Id>) {
    forall i, j | 0 <= i < j < |ids| :: ids[i] != ids[j]
  }

  lemma {:induction false} ReachedAreReaches(w: Writer, p: bytes)
    ensures forall id :: id in Reached(w, p) <==> Reaches(w, id, p)
    ensures DistinctSinks(w) ==> NoRepeats(Reached(w, p))
    decreases w, 0
  {
    match w
    case Sink(_) =>
    case Filtered(inner, _, _) => ReachedAreReaches(inner, p);
    case FanOut(_) =>
      ReachedFromAre(w, 0, p);
      assert forall id :: Reaches(w, id, p) <==> ReachesFrom(w, 0, id, p);
  }

  lemma {:induction false} ReachedFromAre(w: Writer, i: nat, p: bytes)
    requires w.FanOut? && i <= |w.writers|
    ensures forall id :: id in ReachedFrom(w, i, p) <==> ReachesFrom(w, i, id, p)
    ensures DistinctSinks(w) ==> NoRepeats(ReachedFrom(w, i, p))
    decreases w, 0, |w.writers| - i
  {
    if i < |w.writers| {
      ReachedAreReaches(w.writers[i], p);
      ReachedFromAre(w, i + 1, p);
      forall id ensures id in ReachedFrom(w, i, p) <==> ReachesFrom(w, i, id, p) { ReachesOnce(w, i, id, p); }
      if DistinctSinks(w) {
        var here, later := Reached(w.writers[i], p), ReachedFrom(w, i + 1, p);
        forall j, k | 0 <= j < |here| && 0 <= k < |later| ensures here[j] != later[k] {
          assert here[j] in here && later[k] in later;
          ReachesOnce(w, i, here[j], p);
        }
        assert NoRepeats(here + later);
      }
    }
  }

  /** What a sink becomes: untouched behind a failure, otherwise one entry longer unless it fails itself. */
  function AfterTry(s: SinkState, behindFailure: bool, p: bytes): SinkState {
    if behindFailure then s
    else if s.failures == [] then s.(received := s.received + [p])
    else if s.failures[0] then s.(failures := s.failures[1..])
    else s.(failures := s.failures[1..], received := s.received + [p])
  }

  ghost predicate NoneFails(ids: seq<Id>, store: Store) {
    KnownIds(ids, store) && forall id | id in ids :: !Fails(store[id])
  }

  lemma NoneFailsRest(ids: seq<Id>, store: Store, tried: Store)
    requires ids != [] && KnownIds(ids, store) && NoRepeats(ids) && tried.Keys == store.Keys && !Fails(store[ids[0]])
    requires forall id | id in store && id != ids[0] :: tried[id] == store[id]
    ensures NoneFails(ids[1..], tried) == NoneFails(ids, store)
  {
    hide Fails;
    assert ids == [ids[0]] + ids[1..];
    forall i | 0 < i < |ids| ensures ids[i] == ids[1..][i - 1] && tried[ids[i]] == store[ids[i]] {
    }
  }

  lemma {:induction false} TryOk(ids: seq<Id>, p: bytes, store: Store)
    requires KnownIds(ids, store) && NoRepeats(ids)
    ensures TryAll(ids, p, store).ok <==> NoneFails(ids, store)
    ensures TryAll(ids, p, store).n == if TryAll(ids, p, store).ok then |p| else 0
  {
    if ids != [] && !Fails(store[ids[0]]) {
      hide NoneFails, SinkWrite, Fails;
      var tried := store[ids[0] := SinkWrite(store[ids[0]], p)];
      NoneFailsRest(ids, store, tried);
      TryOk(ids[1..], p, tried);
    }
  }

  /** Some sink before position `i` fails. */
  ghost predicate BehindFailure(ids: seq<Id>, store: Store, i: nat) {
    KnownIds(ids, store) && exists j :: 0 <= j < i && j < |ids| && Fails(store[ids[j]])
  }

  lemma BehindFailureRest(ids: seq<Id>, store: Store, tried: Store, i: nat)
    requires KnownIds(ids, store) && KnownIds(ids, tried) && 0 < i < |ids| && !Fails(store[ids[0]])
    requires forall j | 0 < j < |ids| :: tried[ids[j]] == store[ids[j]]
    ensures BehindFailure(ids[1..], tried, i - 1) == BehindFailure(ids, store, i)
  {
    var rest := ids[1..];
    if j :| 0 <= j < i && Fails(store[ids[j]]) { assert Fails(tried[rest[j - 1]]); }
    if j :| 0 <= j < i - 1 && Fails(tried[rest[j]]) { assert Fails(store[ids[j + 1]]); }
  }

  lemma {:induction false} TryLeaves(ids: seq<Id>, p: bytes, store: Store, i: nat)
    requires KnownIds(ids, store) && NoRepeats(ids) && i < |ids|
    ensures TryAll(ids, p, store).store[ids[i]] == AfterTry(store[ids[i]], BehindFailure(ids, store, i), p)
  {
    var tried, rest := store[ids[0] := SinkWrite(store[ids[0]], p)], ids[1..];
    if i == 0 {
      if !Fails(store[ids[0]]) { TryOthers(rest, p, tried, ids[0]); }
    } else if !Fails(store[ids[0]]) {
      hide SinkWrite, AfterTry;
      BehindFailureRest(ids, store, tried, i);
      TryLeaves(rest, p, tried, i - 1);
    } else {
      assert BehindFailure(ids, store, i);
    }
  }

  lemma {:induction false} TryOthers(ids: seq<Id>, p: bytes, store: Store, id: Id)
    requires KnownIds(ids, store) && id in store && id !in ids
    ensures TryAll(ids, p, store).store[id] == store[id]
  {
    if ids != [] && !Fails(store[ids[0]]) {
      TryOthers(ids[1..], p, store[ids[0] := SinkWrite(store[ids[0]], p)], id);
    }
  }

  /** A write succeeds, with the full count, exactly when no sink that the line reaches fails; a line that a filter drops
      counts as written. */
  lemma WriteOkIff(w: Writer, p: bytes, store: Store)
    requires Known(w, store) && DistinctSinks(w)
    ensures forall id | Reaches(w, id, p) :: id in store
    ensures WriteTo(w, p, store).ok <==> forall id | Reaches(w, id, p) :: !Fails(store[id])
    ensures WriteTo(w, p, store).n == if WriteTo(w, p, store).ok then |p| else 0
  {
    WriteTriesInTurn(w, p, store);
    ReachedAreReaches(w, p);
    TryOk(Reached(w, p), p, store);
  }

  /** What it leaves behind: in the order in which the sinks are tried, those before the first failure have the line, the
      failing one and the later ones do not, and the later ones have not been tried. */
  lemma WriteLeaves(w: Writer, p: bytes, store: Store, i: nat)
    requires Known(w, store) && DistinctSinks(w) && i < |Reached(w, p)|
    ensures var ids := Reached(w, p);
            KnownIds(ids, store) && WriteTo(w, p, store).store[ids[i]] ==
              AfterTry(store[ids[i]], BehindFailure(ids, store, i), p)
  {
    WriteTriesInTurn(w, p, store);
    ReachedAreReaches(w, p);
    TryLeaves(Reached(w, p), p, store, i);
  }

  // ---- whole runs

  /** One emitted entry: the level of the call, the assembled entry, the formatter's key map, and what it made of the
      entry. */
  datatype Emission = Emission(level: Level, entry: Fields, keyMap: map<bytes, bytes>, mapped: Fields)

  /** JSONFormatter.Format. */
  method Format(entry: Fields, keyMap: map<bytes, bytes>) returns (out: bytes)
    ensures exists mapped :: KeyMaps.IsMapped(entry, keyMap, mapped) && out == Encoder.EncodeEntry(mapped)
  {
    var mapped := entry;
    if |keyMap| > 0 {
      mapped := KeyMaps.ApplyKeyMap(entry, keyMap);
    }
    out := Encoder.AppendJSONEntry([], Map(mapped));
    assert [] + Encoder.EncodeValue(Map(mapped)) == Encoder.EncodeValue(Map(mapped));
    assert KeyMaps.IsMapped(entry, keyMap, mapped);
  }

  /** The conditions under which the filter's search finds the level of the call. */
  ghost predicate Readable(e: Emission, key: bytes) {
    && TRACE <= e.level <= FATAL
    && KeyMaps.IsMapped(e.entry, e.keyMap, e.mapped)
    && B("level") in e.entry && e.entry[B("level")] == Str(Name(e.level))
    && KeyMaps.NoCollisions(e.entry, e.keyMap)
    && key == (if B("level") in e.keyMap then e.keyMap[B("level")] else B("level"))
    && L.PlainKey(key) && L.LevelKeyIsFirst(e.mapped, key)
  }

  /** The line of an emitted entry carries its level under the level key the key map gives it. */
  lemma LineLevel(e: Emission, key: bytes)
    requires Readable(e, key)
    ensures L.LevelIn(R.Line(e.mapped), key) == e.level
  {
    if |e.keyMap| > 0 {
      KeyMaps.NothingLost(e.entry, e.keyMap, e.mapped);
    } else {
      assert e.keyMap == map[];
    }
    L.LevelRecovered(e.mapped, key, e.level);
  }

  /** Which lines a minimum passes, by the names of the levels: those at or above it in the order of level.go. */
  lemma MinimumPasses(entry: Fields, key: bytes, i: nat, j: nat, inner: Writer, id: Id)
    requires L.PlainKey(key) && key in entry && L.LevelKeyIsFirst(entry, key)
    requires i < 6 && j < 6 && entry[key] == Str(NamesInOrder()[i])
    ensures Reaches(Filtered(inner, FromName(NamesInOrder()[j]), key), id, R.Line(entry)) <==>
            i >= j && Reaches(inner, id, R.Line(entry))
  {
    NamedInOrder(i);
    NamedInOrder(j);
    L.LevelRecovered(entry, key, i);
  }

  /** Every filter of the tree looks for `key`. */
  predicate AllFiltersUse(w: Writer, key: bytes) {
    match w
    case Sink(_) => true
    case Filtered(inner, _, k) => k == key && AllFiltersUse(inner, key)
    case FanOut(ws) => forall i | 0 <= i < |ws| :: AllFiltersUse(ws[i], key)
  }

  /** Whether a sink takes entries of a level: every filter above it admits the level. */
  predicate Takes(w: Writer, id: Id, level: Level) {
    match w
    case Sink(i) => i == id
    case Filtered(inner, minLevel, _) => level >= minLevel && Takes(inner, id, level)
    case FanOut(ws) => exists i :: 0 <= i < |ws| && Takes(ws[i], id, level)
  }

  lemma {:induction false} ReachesIffTakes(w: Writer, id: Id, p: bytes, key: bytes, level: Level)
    requires AllFiltersUse(w, key) && L.LevelIn(p, key) == level
    ensures Reaches(w, id, p) <==> Takes(w, id, level)
  {
    match w
    case Sink(_) =>
    case Filtered(inner, _, _) => ReachesIffTakes(inner, id, p, key, level);
    case FanOut(ws) =>
      forall i | 0 <= i < |ws| { ReachesIffTakes(ws[i], id, p, key, level); }
  }

  /** The store after a run that writes the lines in turn. */
  function RunOutput(w: Writer, lines: seq<bytes>, store: Store): (r: Store)
    requires Known(w, store)
    ensures r.Keys == store.Keys
  {
    if lines == [] then store else RunOutput(w, lines[1..], WriteTo(w, lines[0], store).store)
  }

  /** The lines of the entries a sink takes, in order. */
  function Taken(w: Writer, id: Id, levels: seq<Level>, lines: seq<bytes>): seq<bytes>
    requires |levels| == |lines|
  {
    if lines == [] then [] else
      (if Takes(w, id, levels[0]) then [lines[0]] else []) + Taken(w, id, levels[1..], lines[1..])
  }

  /** On sinks that do not fail, a line of a known level is received by exactly the sinks that take the level. */
  lemma LineIsRouted(w: Writer, key: bytes, p: bytes, level: Level, store: Store, id: Id)
    requires Known(w, store) && DistinctSinks(w) && NeverFails(store) && AllFiltersUse(w, key) && id in store
    requires L.LevelIn(p, key) == level
    ensures NeverFails(WriteTo(w, p, store).store)
    ensures WriteTo(w, p, store).store[id].received == store[id].received + if Takes(w, id, level) then [p] else []
  {
    WriteDelivers(w, p, store);
    ReachesIffTakes(w, id, p, key, level);
  }

  lemma {:induction false} LinesAreRouted(w: Writer, key: bytes, levels: seq<Level>, lines: seq<bytes>, store: Store, id: Id)
    requires Known(w, store) && DistinctSinks(w) && NeverFails(store) && AllFiltersUse(w, key) && id in store
    requires |levels| == |lines| && forall i | 0 <= i < |lines| :: L.LevelIn(lines[i], key) == levels[i]
    ensures RunOutput(w, lines, store)[id].received == store[id].received + Taken(w, id, levels, lines)
    decreases |lines|
  {
    if lines == [] {
      assert store[id].received + [] == store[id].received;
    } else {
      var next := WriteTo(w, lines[0], store).store;
      LineIsRouted(w, key, lines[0], levels[0], store, id);
      LinesAreRouted(w, key, levels[1..], lines[1..], next, id);
      TakenInTurn(w, id, levels, lines, store[id].received);
    }
  }

  lemma TakenInTurn(w: Writer, id: Id, levels: seq<Level>, lines: seq<bytes>, before: seq<bytes>)
    requires |levels| == |lines| && lines != []
    ensures before + (if Takes(w, id, levels[0]) then [lines[0]] else []) + Taken(w, id, levels[1..], lines[1..]) ==
            before + Taken(w, id, levels, lines)
  {
    hide Takes;
    var first, later := if Takes(w, id, levels[0]) then [lines[0]] else [], Taken(w, id, levels[1..], lines[1..]);
    assert Taken(w, id, levels, lines) == first + later;
    Regroup(before, first, later);
  }

  lemma Regroup<T>(a: seq<T>, b: seq<T>, c: seq<T>)
    ensures a + b + c == a + (b + c)
  {
  }

  /**
   End to end: through the JSON formatter, a key map without collisions, and any tree of fan-outs and filters with the
   matching level key over sinks that do not fail, each sink receives exactly the lines of the emitted entries whose
   level every filter above it admits, in emission order.
   */
  lemma SinksReceiveTheirLevels(w: Writer, key: bytes, es: seq<Emission>, lines: seq<bytes>, store: Store, id: Id)
    requires Known(w, store) && DistinctSinks(w) && NeverFails(store) && AllFiltersUse(w, key) && id in store
    requires |lines| == |es|
    requires forall i | 0 <= i < |es| :: Readable(es[i], key) && lines[i] == R.Line(es[i].mapped)
    ensures RunOutput(w, lines, store)[id].received ==
            store[id].received + Taken(w, id, seq(|es|, i requires 0 <= i < |es| => es[i].level), lines)
  {
    var levels := seq(|es|, i requires 0 <= i < |es| => es[i].level);
    forall i | 0 <= i < |lines| ensures L.LevelIn(lines[i], key) == levels[i] {
      LineLevel(es[i], key);
    }
    LinesAreRouted(w, key, levels, lines, store, id);
  }

  // ---- the documentation and the code

  /** A line without a readable level counts as INFO: it passes a filter exactly when the minimum is INFO or lower, although
      such lines are documented to pass always. */
  lemma UnparseableLinePassesIff(p: bytes, key: bytes, minLevel: Level, inner: Writer, id: Id)
    requires L.Unreadable(p, key)
    ensures Reaches(Filtered(inner, minLevel, key), id, p) <==> minLevel <= INFO && Reaches(inner, id, p)
  {
    L.UnreadableIsInfo(p, key);
  }

  /** A line of plain text, stopped by a filter for warnings. */
  lemma PlainTextIsDropped(id: Id)
    ensures !Reaches(Filtered(Sink(id), WARNING, B("level")), id, B("ok"))
  {
    var p, key := B("ok"), B("level");
    forall i: nat | i <= |p| ensures !OccursAt(L.Pattern(key), p, i) {
      assert |L.Pattern(key)| > |p[i..]|;
    }
    UnparseableLinePassesIff(p, key, WARNING, Sink(id), id);
  }

  // ---- Sync

  datatype SyncResult = SyncResult(failed: seq<Id>, store: Store)

  function SyncAll(w: Writer, store: Store): (r: SyncResult)
    requires Known(w, store)
    ensures r.store.Keys == store.Keys
    decreases w, 0
  {
    match w
    case Sink(id) =>
      if !store[id].isSyncer then SyncResult([], store)
      else SyncResult(if store[id].syncFails then [id] else [], store[id := store[id].(syncs := store[id].syncs + 1)])
    case Filtered(inner, _, _) => SyncAll(inner, store)
    case FanOut(_) => SyncFrom(w, 0, store)
  }

  function Failing(before: seq<Id>, r: SyncResult): SyncResult {
    SyncResult(before + r.failed, r.store)
  }

  /** Every writer is synced, whatever the earlier ones reported. */
  function SyncFrom(w: Writer, i: nat, store: Store): (r: SyncResult)
    requires w.FanOut? && i <= |w.writers| && Known(w, store)
    ensures r.store.Keys == store.Keys
    decreases w, 0, |w.writers| - i
  {
    if i == |w.writers| then SyncResult([], store) else
      BelowFanOut(w, i);
      var first := SyncAll(w.writers[i], store);
      var rest := SyncFrom(w, i + 1, first.store);
      SyncResult(first.failed + rest.failed, rest.store)
  }

  /** A sync changes only the sync counters, each exactly once per occurrence of a syncing sink. */
  lemma {:induction false} SyncReachesEverySink(w: Writer, store: Store, id: Id)
    requires Known(w, store) && DistinctSinks(w) && id in store
    ensures SyncAll(w, store).store[id] ==
            if id in SinksOf(w) && store[id].isSyncer then store[id].(syncs := store[id].syncs + 1) else store[id]
    ensures id in SyncAll(w, store).failed <==> id in SinksOf(w) && store[id].isSyncer && store[id].syncFails
    decreases w, 0
  {
    match w
    case Sink(_) =>
    case Filtered(inner, _, _) => SyncReachesEverySink(inner, store, id);
    case FanOut(ws) =>
      SyncReachesFrom(w, 0, store, id);
      assert id in SinksOf(w) <==> Below(w, 0, id);
  }

  /** The sinks of a writer from left to right. */
  function SinkOrder(w: Writer): seq<Id>
    decreases w, 0
  {
    match w
    case Sink(id) => [id]
    case Filtered(inner, _, _) => SinkOrder(inner)
    case FanOut(_) => SinkOrderFrom(w, 0)
  }

  function SinkOrderFrom(w: Writer, i: nat): seq<Id>
    requires w.FanOut? && i <= |w.writers|
    decreases w, 0, |w.writers| - i
  {
    if i == |w.writers| then [] else SinkOrder(w.writers[i]) + SinkOrderFrom(w, i + 1)
  }

  /** Those among `ids` whose Sync fails. */
  function FailedSyncs(ids: seq<Id>, store: Store): seq<Id>
    requires KnownIds(ids, store)
  {
    if ids == [] then [] else
      (if store[ids[0]].isSyncer && store[ids[0]].syncFails then [ids[0]] else []) + FailedSyncs(ids[1..], store)
  }

  lemma {:induction false} FailedInTwoParts(a: seq<Id>, b: seq<Id>, store: Store)
    requires KnownIds(a, store) && KnownIds(b, store)
    ensures KnownIds(a + b, store) && FailedSyncs(a + b, store) == FailedSyncs(a, store) + FailedSyncs(b, store)
  {
    if a == [] {
      assert a + b == b;
    } else {
      assert (a + b)[1..] == a[1..] + b;
      FailedInTwoParts(a[1..], b, store);
    }
  }

  /** Two stores whose sinks answer Sync alike. */
  ghost predicate SyncAlike(a: Store, b: Store) {
    a.Keys == b.Keys && forall id | id in a :: a[id].isSyncer == b[id].isSyncer && a[id].syncFails == b[id].syncFails
  }

  lemma {:induction false} FailedAlike(ids: seq<Id>, a: Store, b: Store)
    requires KnownIds(ids, a) && SyncAlike(a, b)
    ensures KnownIds(ids, b) && FailedSyncs(ids, a) == FailedSyncs(ids, b)
  {
    if ids != [] { FailedAlike(ids[1..], a, b); }
  }

  /** A sync reports the sinks that fail from left to right, each as often as it occurs, and an error stops nothing. */
  lemma {:induction false} SyncReportsInOrder(w: Writer, store: Store)
    requires Known(w, store)
    ensures KnownIds(SinkOrder(w), store) && SyncAll(w, store).failed == FailedSyncs(SinkOrder(w), store)
    ensures SyncAlike(store, SyncAll(w, store).store)
    decreases w, 0
  {
    match w
    case Sink(id) =>
      assert SinkOrder(w)[1..] == [];
    case Filtered(inner, _, _) => SyncReportsInOrder(inner, store);
    case FanOut(_) => SyncReportsFrom(w, 0, store);
  }

  lemma {:induction false} SyncReportsFrom(w: Writer, i: nat, store: Store)
    requires w.FanOut? && i <= |w.writers| && Known(w, store)
    ensures KnownIds(SinkOrderFrom(w, i), store) && SyncFrom(w, i, store).failed == FailedSyncs(SinkOrderFrom(w, i), store)
    ensures SyncAlike(store, SyncFrom(w, i, store).store)
    decreases w, 0, |w.writers| - i
  {
    if i < |w.writers| {
      BelowFanOut(w, i);
      var next := SyncAll(w.writers[i], store).store;
      SyncReportsInOrder(w.writers[i], store);
      SyncReportsFrom(w, i + 1, next);
      FailedAlike(SinkOrderFrom(w, i + 1), next, store);
      FailedInTwoParts(SinkOrder(w.writers[i]), SinkOrderFrom(w, i + 1), store);
    }
  }

  predicate Below(w: Writer, i: nat, id: Id) {
    w.FanOut? && exists j :: i <= j < |w.writers| && id in SinksOf(w.writers[j])
  }

  lemma BelowOnce(w: Writer, i: nat, id: Id)
    requires w.FanOut? && i < |w.writers| && DistinctSinks(w)
    ensures Below(w, i, id) <==> id in SinksOf(w.writers[i]) || Below(w, i + 1, id)
    ensures !(id in SinksOf(w.writers[i]) && Below(w, i + 1, id))
  {
    if j :| i + 1 <= j < |w.writers| && id in SinksOf(w.writers[j]) {
      assert SinksOf(w.writers[i]) !! SinksOf(w.writers[j]);
    }
  }

  lemma {:induction false} SyncReachesFrom(w: Writer, i: nat, store: Store, id: Id)
    requires w.FanOut? && i <= |w.writers| && Known(w, store) && DistinctSinks(w) && id in store
    ensures SyncFrom(w, i, store).store[id] ==
            if Below(w, i, id) && store[id].isSyncer then store[id].(syncs := store[id].syncs + 1) else store[id]
    ensures id in SyncFrom(w, i, store).failed <==> Below(w, i, id) && store[id].isSyncer && store[id].syncFails
    decreases w, 0, |w.writers| - i
  {
    if i < |w.writers| {
      BelowFanOut(w, i);
      var first := SyncAll(w.writers[i], store);
      SyncReachesEverySink(w.writers[i], store, id);
      SyncReachesFrom(w, i + 1, first.store, id);
      BelowOnce(w, i, id);
    }
  }
}
