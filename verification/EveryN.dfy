/** sampler.go: the every-N sampler under arbitrary interleavings. */
module EveryN {
  import opened Levels

  const TWO_63: int := 0x8000_0000_0000_0000

  /** The value an int64 holds after an addition that may overflow. */
  function Wrap64(x: int): int {
    (x + TWO_63) % (2 * TWO_63) - TWO_63
  }

  /** The decision on a ticket, the value the atomic Add returned. */
  predicate Admits(n: int, ticket: int)
    requires n > 0
  {
    Wrap64(ticket - 1) % n == 0
  }

  /** The sampler object: one counter per level. */
  class EveryNSampler {
    const n: int
    var counts: array<int>

    ghost predicate Valid()
      reads this
    {
      n >= 1 && counts.Length == 6
    }

    /** NewEveryNSampler. */
    constructor (n: int)
      ensures Valid() && fresh(counts)
      ensures this.n == if n <= 0 then 1 else n
      ensures counts[..] == [0, 0, 0, 0, 0, 0]
    {
      this.n := if n <= 0 then 1 else n;
      this.counts := new int[6](_ => 0);
    }

    /** Sample, as one atomic call: the addition is atomic and the decision depends on its result alone. */
    method Sample(level: Level) returns (ok: bool)
      requires Valid() && level >= 0
      modifies counts
      ensures Valid() && counts == old(counts)
      ensures level >= 6 ==> ok && counts[..] == old(counts[..])
      ensures level < 6 ==> counts[..] == old(counts[..])[level := Wrap64(old(counts[level]) + 1)]
      ensures level < 6 ==> ok == Admits(n, Wrap64(old(counts[level]) + 1))
    {
      if level >= 6 { return true; }
      counts[level] := Wrap64(counts[level] + 1);
      ok := Admits(n, counts[level]);
    }
  }

  // ---- every interleaving of concurrent calls

  type Tid = nat

  datatype Call = Call(t: Tid, level: Level)

  /** `adds` is the history of atomic additions; a call holds its ticket between its addition and its return. */
  datatype State = State(n: int, counts: seq<int>, adds: seq<Call>, tickets: map<Tid, int>, verdicts: map<Tid, bool>)

  datatype Action = Add(t: Tid, level: Level) | Return(t: Tid)

  function Init(n: int): State {
    State(if n <= 0 then 1 else n, [0, 0, 0, 0, 0, 0], [], map[], map[])
  }

  predicate WellFormed(s: State) {
    s.n >= 1 && |s.counts| == 6
  }

  predicate Enabled(s: State, a: Action) {
    match a
    case Add(t, level) => t !in s.tickets && 0 <= level < 6
    case Return(t) => t in s.tickets && t !in s.verdicts
  }

  function Step(s: State, a: Action): (s': State)
    requires WellFormed(s) && Enabled(s, a)
    ensures WellFormed(s')
  {
    match a
    case Add(t, level) =>
      var ticket := Wrap64(s.counts[level] + 1);
      s.(counts := s.counts[level := ticket], adds := s.adds + [Call(t, level)], tickets := s.tickets[t := ticket])
    case Return(t) => s.(verdicts := s.verdicts[t := Admits(s.n, s.tickets[t])])
  }

  predicate Run(s: State, acts: seq<Action>, s': State)
    decreases |acts|
  {
    WellFormed(s) && if acts == [] then s == s' else Enabled(s, acts[0]) && Run(Step(s, acts[0]), acts[1..], s')
  }

  /** How many of the additions were at `level`. */
  function CallsAt(adds: seq<Call>, level: Level): nat {
    if adds == [] then 0 else
      CallsAt(adds[..|adds| - 1], level) + if adds[|adds| - 1].level == level then 1 else 0
  }

  lemma {:induction false} CallsAtBound(adds: seq<Call>, level: Level)
    ensures CallsAt(adds, level) <= |adds|
  {
    if adds != [] { CallsAtBound(adds[..|adds| - 1], level); }
  }

  /** The rank of addition `i` among the additions at its level, counting from 1. */
  function Rank(adds: seq<Call>, i: nat): nat
    requires i < |adds|
  {
    CallsAt(adds[..i + 1], adds[i].level)
  }

  predicate TicketInv(s: State, i: nat) {
    WellFormed(s) && i < |s.adds| &&
    var t := s.adds[i].t;
    && t in s.tickets
    && s.tickets[t] == Rank(s.adds, i)
    && (t in s.verdicts ==> s.verdicts[t] == Admits(s.n, s.tickets[t]))
  }

  predicate Inv(s: State) {
    && WellFormed(s)
    && (forall level | 0 <= level < 6 :: s.counts[level] == CallsAt(s.adds, level))
    && (forall i: nat | i < |s.adds| :: TicketInv(s, i))
    && (forall t | t in s.verdicts :: t in s.tickets)
  }

  /** Values in the int64 range stay, and the one behind the last is the first. */
  lemma WrapSmall(x: int)
    requires -0x8000_0000_0000_0000 <= x <= 0x8000_0000_0000_0000
    ensures Wrap64(x) == if x == 0x8000_0000_0000_0000 then -0x8000_0000_0000_0000 else x
  {
  }

  lemma AddStep(s: State, t: Tid, level: Level)
    requires Inv(s) && Enabled(s, Add(t, level)) && |s.adds| + 1 < TWO_63
    ensures Inv(Step(s, Add(t, level)))
  {
    var s' := Step(s, Add(t, level));
    assert s'.adds[..|s.adds|] == s.adds && s'.adds[..|s.adds| + 1] == s'.adds;
    CallsAtBound(s.adds, level);
    WrapSmall(s.counts[level] + 1);
    forall l | 0 <= l < 6 ensures s'.counts[l] == CallsAt(s'.adds, l) {
      assert s.counts[l] == CallsAt(s.adds, l);
    }
    forall i: nat | i < |s'.adds| ensures TicketInv(s', i) {
      if i < |s.adds| {
        assert TicketInv(s, i);
        assert s'.adds[..i + 1] == s.adds[..i + 1];
      }
    }
  }

  lemma {:induction false} InvRun(s: State, acts: seq<Action>, s': State)
    requires Inv(s) && Run(s, acts, s') && |s'.adds| < 0x8000_0000_0000_0000
    ensures Inv(s') && |s.adds| <= |s'.adds|
    decreases |acts|
  {
    AddsGrow(s, acts, s');
    if acts != [] {
      AddsGrow(Step(s, acts[0]), acts[1..], s');
      if acts[0].Return? { ReturnStep(s, acts[0].t); } else { AddStep(s, acts[0].t, acts[0].level); }
      InvRun(Step(s, acts[0]), acts[1..], s');
    }
  }

  lemma ReturnStep(s: State, t: Tid)
    requires Inv(s) && Enabled(s, Return(t))
    ensures Inv(Step(s, Return(t)))
  {
    var s' := Step(s, Return(t));
    forall i: nat | i < |s'.adds| ensures TicketInv(s', i) {
      assert TicketInv(s, i);
    }
  }

  lemma {:induction false} AddsGrow(s: State, acts: seq<Action>, s': State)
    requires WellFormed(s) && Run(s, acts, s')
    ensures |s.adds| <= |s'.adds| && s'.n == s.n
    decreases |acts|
  {
    if acts != [] { AddsGrow(Step(s, acts[0]), acts[1..], s'); }
  }

  /** How many of the calls at `level` returned true. */
  function Admitted(adds: seq<Call>, verdicts: map<Tid, bool>, level: Level): nat {
    if adds == [] then 0 else
      var last := adds[|adds| - 1];
      Admitted(adds[..|adds| - 1], verdicts, level) +
      if last.level == level && last.t in verdicts && verdicts[last.t] then 1 else 0
  }

  /** A ticket in the int64 range, other than its least value, is admitted exactly when it is 1 modulo n (always, when n is 1). */
  lemma AdmitsFirstOfN(n: int, ticket: int)
    requires n >= 1 && -0x8000_0000_0000_0000 < ticket < 0x8000_0000_0000_0000
    ensures Admits(n, ticket) <==> ticket % n == 1 % n
  {
    WrapSmall(ticket - 1);
    var q, r := (ticket - 1) / n, (ticket - 1) % n;
    assert ticket == q * n + (r + 1);
    if r + 1 < n { ModUnique(ticket, n, q, r + 1); } else { ModUnique(ticket, n, q + 1, 0); }
    if n > 1 { ModUnique(1, n, 0, 1); } else { ModUnique(1, 1, 1, 0); }
  }

  lemma ModUnique(x: int, n: int, q: int, r: int)
    requires n >= 1 && x == q * n + r && 0 <= r < n
    ensures x % n == r && x / n == q
  {
    var q', r' := x / n, x % n;
    assert q * n + r == q' * n + r';
    if q > q' { AtLeast(q - q', n, q, q'); } else if q < q' { AtLeast(q' - q, n, q', q); }
  }

  lemma AtLeast(d: int, n: int, a: int, b: int)
    requires n >= 1 && d >= 1 && a == b + d
    ensures a * n >= b * n + n
  {
    assert a * n == b * n + d * n;
    assert (d - 1) * n >= 0;
  }

  /** How many of the tickets 1 to k are admitted: the ceiling of k / n. */
  lemma CeilStep(n: int, k: nat)
    requires n >= 1
    ensures (k + 1 + n - 1) / n == (k + n - 1) / n + if k % n == 0 then 1 else 0
  {
    var q, r := k / n, k % n;
    if r == 0 {
      ModUnique(k + n - 1, n, q, n - 1);
      ModUnique(k + n, n, q + 1, 0);
    } else {
      assert k + n - 1 == (q + 1) * n + (r - 1) && k + n == (q + 1) * n + r;
      ModUnique(k + n - 1, n, q + 1, r - 1);
      ModUnique(k + n, n, q + 1, r);
    }
  }

  lemma {:induction false} AdmittedIsCeil(s: State, k: nat, level: Level)
    requires Inv(s) && k <= |s.adds| < 0x8000_0000_0000_0000 && forall t | t in s.tickets :: t in s.verdicts
    ensures Admitted(s.adds[..k], s.verdicts, level) == (CallsAt(s.adds[..k], level) + s.n - 1) / s.n
  {
    if k == 0 {
      ModUnique(s.n - 1, s.n, 0, s.n - 1);
    } else {
      AdmittedIsCeil(s, k - 1, level);
      assert s.adds[..k][..k - 1] == s.adds[..k - 1];
      assert TicketInv(s, k - 1);
      if s.adds[k - 1].level == level {
        var before := CallsAt(s.adds[..k - 1], level);
        CallsAtBound(s.adds[..k - 1], level);
        CeilStep(s.n, before);
        WrapSmall(before);
        assert s.tickets[s.adds[k - 1].t] == before + 1;
      }
    }
  }

  /**
   For every run in which all calls have returned, and every level: of k calls exactly ceil(k / n) returned true,
   namely those whose rank at that level is 1 modulo n.
   */
  lemma EveryNExact(n: int, acts: seq<Action>, s: State, level: Level)
    requires Run(Init(n), acts, s) && |s.adds| < 0x8000_0000_0000_0000
    requires forall t | t in s.tickets :: t in s.verdicts
    ensures s.n == if n <= 0 then 1 else n
    ensures Admitted(s.adds, s.verdicts, level) == (CallsAt(s.adds, level) + s.n - 1) / s.n
    ensures forall i: nat | i < |s.adds| ::
              s.adds[i].t in s.verdicts && (s.verdicts[s.adds[i].t] <==> Rank(s.adds, i) % s.n == 1 % s.n)
  {
    InvRun(Init(n), acts, s);
    AddsGrow(Init(n), acts, s);
    AdmittedIsCeil(s, |s.adds|, level);
    assert s.adds[..|s.adds|] == s.adds;
    forall i: nat | i < |s.adds|
      ensures s.adds[i].t in s.verdicts && (s.verdicts[s.adds[i].t] <==> Rank(s.adds, i) % s.n == 1 % s.n)
    {
      assert TicketInv(s, i);
      CallsAtBound(s.adds[..i + 1], s.adds[i].level);
      assert Rank(s.adds, i) == CallsAt(s.adds[..i + 1][..i], s.adds[i].level) + 1;
      AdmitsFirstOfN(s.n, Rank(s.adds, i));
    }
  }
}
