/** sampler.go: the fixed-window rate sampler over any clock. */
module RateLimit {
  import opened Levels

  /** time.Second in nanoseconds; a Time is nanoseconds since the zero time. */
  const SECOND: int := 1_000_000_000

  datatype Bucket = Bucket(count: int, resetAt: int)

  const EMPTY: Bucket := Bucket(0, 0)

  /** The body of Sample between the locks. */
  function Touch(b: Bucket, now: int): Bucket {
    if now > b.resetAt then Bucket(1, now + SECOND) else Bucket(b.count + 1, b.resetAt)
  }

  class RateSampler {
    const perSecond: int
    var buckets: array<Bucket>

    ghost predicate Valid()
      reads this
    {
      perSecond >= 1 && buckets.Length == 6
    }

    /** NewRateSampler. */
    constructor (perSecond: int)
      ensures Valid() && fresh(buckets)
      ensures this.perSecond == if perSecond <= 0 then 1 else perSecond
      ensures buckets[..] == [EMPTY, EMPTY, EMPTY, EMPTY, EMPTY, EMPTY]
    {
      this.perSecond := if perSecond <= 0 then 1 else perSecond;
      this.buckets := new Bucket[6](_ => EMPTY);
    }

    /** Sample at clock reading `now`, which is taken under the bucket's lock. */
    method Sample(level: Level, now: int) returns (ok: bool)
      requires Valid() && level >= 0
      modifies buckets
      ensures Valid() && buckets == old(buckets)
      ensures level >= 6 ==> ok && buckets[..] == old(buckets[..])
      ensures level < 6 ==> buckets[..] == old(buckets[..])[level := Touch(old(buckets[level]), now)]
      ensures level < 6 ==> ok == (Touch(old(buckets[level]), now).count <= perSecond)
    {
      if level >= 6 { return true; }
      var b := buckets[level];
      if now > b.resetAt {
        b := Bucket(0, now + SECOND);
      }
      b := b.(count := b.count + 1);
      buckets[level] := b;
      ok := b.count <= perSecond;
    }
  }

  // ---- any sequence of calls

  datatype Call = Call(level: Level, now: int)

  /** All six buckets after a sequence of calls. */
  function Buckets(calls: seq<Call>): (bs: seq<Bucket>)
    requires forall c | c in calls :: 0 <= c.level < 6
    ensures |bs| == 6
  {
    if calls == [] then [EMPTY, EMPTY, EMPTY, EMPTY, EMPTY, EMPTY] else
      var last := calls[|calls| - 1];
      var bs := Buckets(calls[..|calls| - 1]);
      bs[last.level := Touch(bs[last.level], last.now)]
  }

  /** The clock readings of the calls at one level. */
  function TimesAt(calls: seq<Call>, level: Level): seq<int> {
    if calls == [] then [] else
      var last := calls[|calls| - 1];
      TimesAt(calls[..|calls| - 1], level) + if last.level == level then [last.now] else []
  }

  /** The bucket of one level after its calls. */
  function After(times: seq<int>): Bucket {
    if times == [] then EMPTY else Touch(After(times[..|times| - 1]), times[|times| - 1])
  }

  lemma AfterOneMore(times: seq<int>, now: int)
    ensures After(times + [now]) == Touch(After(times), now)
  {
    assert (times + [now])[..|times|] == times;
  }

  /** A level's bucket is determined by that level's calls: no other call has any effect on its decisions. */
  lemma {:induction false} LevelsAreIndependent(calls: seq<Call>, level: Level)
    requires (forall c | c in calls :: 0 <= c.level < 6) && 0 <= level < 6
    ensures Buckets(calls)[level] == After(TimesAt(calls, level))
  {
    if calls != [] {
      LevelsAreIndependent(calls[..|calls| - 1], level);
      var last := calls[|calls| - 1];
      if last.level == level {
        AfterOneMore(TimesAt(calls[..|calls| - 1], level), last.now);
      } else {
        assert TimesAt(calls, level) == TimesAt(calls[..|calls| - 1], level);
      }
    }
  }

  predicate Nondecreasing(times: seq<int>) {
    forall i, j | 0 <= i < j < |times| :: times[i] <= times[j]
  }

  /** Whether call `i` of a level is admitted. */
  predicate AdmittedAt(times: seq<int>, perSecond: int, i: nat) {
    i < |times| && After(times[..i + 1]).count <= perSecond
  }

  /** How many of the first `n` calls are admitted with a clock reading from `lo` to `hi`. */
  function AdmittedBetween(times: seq<int>, perSecond: int, n: nat, lo: int, hi: int): nat
    requires n <= |times|
  {
    if n == 0 then 0 else
      AdmittedBetween(times, perSecond, n - 1, lo, hi) +
      if AdmittedAt(times, perSecond, n - 1) && lo <= times[n - 1] <= hi then 1 else 0
  }

  function Min(a: int, b: int): int {
    if a < b then a else b
  }

  lemma AfterStep(times: seq<int>, n: nat)
    requires n < |times|
    ensures After(times[..n + 1]) == Touch(After(times[..n]), times[n])
  {
    assert times[..n + 1][..n] == times[..n];
  }

  lemma {:induction false} CountNonnegative(times: seq<int>)
    ensures After(times).count >= 0
  {
    if times != [] { CountNonnegative(times[..|times| - 1]); }
  }

  /** On a positive clock the first call of every window is the one that opened it; before the first window a bucket
      starts at the zero time, so on any other clock the first calls fall into a window that no call opened. */
  function Openers(times: seq<int>): nat {
    if times != [] && times[0] > 0 then 1 else 0
  }

  /**
   The window argument: `windows` counts the windows opened at or after `lo`. Each contributes at most perSecond calls, as
   does the one that was open at `lo`, less its opener; and they open more than a second apart.
   */
  lemma {:induction false} WindowCount(times: seq<int>, perSecond: int, n: nat, lo: int, hi: int) returns (windows: nat)
    requires perSecond >= 1 && n <= |times| && Nondecreasing(times)
    requires n > 0 ==> times[n - 1] <= hi
    ensures var b := After(times[..n]);
            var all := AdmittedBetween(times, perSecond, n, lo, hi);
            && b.count >= 0
            && (n > 0 ==> b.count >= Openers(times))
            && (n == 0 ==> windows == 0 && all == 0)
            && (n > 0 && windows == 0 ==> all <= Min(b.count, perSecond) - Openers(times))
            && (windows >= 1 ==> all <= perSecond - Openers(times) + perSecond * (windows - 1) + Min(b.count, perSecond))
            && (windows >= 1 ==> n > 0 && lo <= b.resetAt - SECOND <= times[n - 1])
            && (windows >= 2 ==> b.resetAt - SECOND > lo + (windows - 1) * SECOND)
  {
    CountNonnegative(times[..n]);
    if n == 0 {
      windows := 0;
    } else {
      var w := WindowCount(times, perSecond, n - 1, lo, hi);
      AfterStep(times, n - 1);
      var b, t := After(times[..n - 1]), times[n - 1];
      if t < lo {
        windows := 0;
        NothingBefore(times, perSecond, n, lo, hi);
      } else if t > b.resetAt {
        windows := w + 1;
        if w >= 1 { assert perSecond * w == perSecond * (w - 1) + perSecond; }
      } else {
        windows := w;
      }
    }
  }

  lemma {:induction false} NothingBefore(times: seq<int>, perSecond: int, n: nat, lo: int, hi: int)
    requires 0 < n <= |times| && Nondecreasing(times) && times[n - 1] < lo
    ensures AdmittedBetween(times, perSecond, n, lo, hi) == 0
  {
    if n > 1 { NothingBefore(times, perSecond, n - 1, lo, hi); }
  }

  /** Any closed interval of k seconds admits at most (k + 1) * perSecond calls of a level, for any clock that does not
      go backwards and any sequence of calls; on a positive clock, which every real one is, at most one less. */
  lemma {:induction false} RateBound(times: seq<int>, perSecond: int, n: nat, lo: int, k: nat)
    requires perSecond >= 1 && n <= |times| && Nondecreasing(times) && k >= 1
    ensures AdmittedBetween(times, perSecond, n, lo, lo + k * 1_000_000_000) <= (k + 1) * perSecond - Openers(times)
  {
    var hi := lo + k * SECOND;
    if n == 0 {
      Monotone(perSecond, 0, k);
    } else if times[n - 1] > hi {
      RateBound(times, perSecond, n - 1, lo, k);
    } else {
      var windows := WindowCount(times, perSecond, n, lo, hi);
      if windows >= 2 { assert (windows - 1) * SECOND < k * SECOND; }
      assert windows <= k;
      Monotone(perSecond, windows, k);
      if windows >= 1 { assert perSecond * windows == perSecond * (windows - 1) + perSecond; }
    }
  }

  lemma Monotone(p: int, a: int, b: int)
    requires p >= 0 && a <= b
    ensures p * a <= p * b
    ensures p + p * b == (b + 1) * p
  {
    assert p * (b - a) >= 0;
  }

  /** The call that opened the window call `i` falls into. */
  function WindowStart(times: seq<int>, i: nat): (j: nat)
    requires i < |times|
    ensures j <= i
  {
    if i == 0 || times[i] > After(times[..i]).resetAt then i else WindowStart(times, i - 1)
  }

  /** How many of the calls `j` up to, but not including, `i` are admitted. */
  function AdmittedFrom(times: seq<int>, perSecond: int, j: nat, i: nat): nat
    requires j <= i <= |times|
    decreases i
  {
    if j == i then 0 else
      AdmittedFrom(times, perSecond, j, i - 1) + if AdmittedAt(times, perSecond, i - 1) then 1 else 0
  }

  /**
   Exactly when a call is refused: its window opened at most a second earlier, at most perSecond calls have been
   admitted in it, and the call is refused if and only if it is exactly perSecond.
   */
  lemma {:induction false} RefusedIffBudgetSpent(times: seq<int>, perSecond: int, i: nat)
    requires perSecond >= 1 && i < |times| && Nondecreasing(times) && times[0] > 0
    ensures var j := WindowStart(times, i);
            && times[j] <= times[i] <= times[j] + 1_000_000_000
            && AdmittedFrom(times, perSecond, j, i) <= perSecond
            && (!AdmittedAt(times, perSecond, i) <==> AdmittedFrom(times, perSecond, j, i) == perSecond)
  {
    WindowShape(times, perSecond, i);
  }

  lemma {:induction false} WindowShape(times: seq<int>, perSecond: int, i: nat)
    requires perSecond >= 1 && i < |times| && Nondecreasing(times) && times[0] > 0
    ensures var j := WindowStart(times, i);
            var b := After(times[..i + 1]);
            && b.resetAt == times[j] + SECOND
            && b.count == i - j + 1
            && times[i] <= b.resetAt
            && AdmittedFrom(times, perSecond, j, i) == Min(i - j, perSecond)
  {
    AfterStep(times, i);
    if i == 0 {
      assert times[..0] == [];
    } else {
      WindowShape(times, perSecond, i - 1);
    }
  }

  // ---- the same bound for the sampler as a whole

  /** How many calls of a sequence at one level return true with a clock reading from `lo` to `hi`. */
  function AdmittedCalls(calls: seq<Call>, perSecond: int, level: Level, lo: int, hi: int): nat
    requires (forall c | c in calls :: 0 <= c.level < 6) && 0 <= level < 6
  {
    if calls == [] then 0 else
      var last := calls[|calls| - 1];
      AdmittedCalls(calls[..|calls| - 1], perSecond, level, lo, hi) +
      if last.level == level && lo <= last.now <= hi && Buckets(calls)[level].count <= perSecond then 1 else 0
  }

  lemma {:induction false} AdmittedInPrefix(times: seq<int>, more: seq<int>, perSecond: int, n: nat, lo: int, hi: int)
    requires n <= |times| && times <= more
    ensures AdmittedBetween(more, perSecond, n, lo, hi) == AdmittedBetween(times, perSecond, n, lo, hi)
  {
    if n > 0 {
      AdmittedInPrefix(times, more, perSecond, n - 1, lo, hi);
      assert more[..n] == times[..n];
    }
  }

  lemma {:induction false} AdmittedCallsOfLevel(calls: seq<Call>, perSecond: int, level: Level, lo: int, hi: int)
    requires (forall c | c in calls :: 0 <= c.level < 6) && 0 <= level < 6
    ensures AdmittedCalls(calls, perSecond, level, lo, hi) ==
            var times := TimesAt(calls, level); AdmittedBetween(times, perSecond, |times|, lo, hi)
  {
    if calls != [] {
      var before, last := calls[..|calls| - 1], calls[|calls| - 1];
      var was, times := TimesAt(before, level), TimesAt(calls, level);
      AdmittedCallsOfLevel(before, perSecond, level, lo, hi);
      if last.level == level {
        LevelsAreIndependent(calls, level);
        AdmittedInPrefix(was, times, perSecond, |was|, lo, hi);
        assert times[..|times|] == times;
      } else {
        assert times == was;
      }
    }
  }

  lemma SnocInOrder(times: seq<int>, now: int)
    requires Nondecreasing(times) && forall t | t in times :: t <= now
    ensures Nondecreasing(times + [now]) && Nondecreasing(times + [])
  {
    assert times + [] == times;
    forall i, j | 0 <= i < j < |times + [now]| ensures (times + [now])[i] <= (times + [now])[j] {
      assert times[i] in times;
    }
  }

  lemma {:induction false} TimesInOrder(calls: seq<Call>, level: Level, latest: int)
    requires forall i, j | 0 <= i < j < |calls| :: calls[i].now <= calls[j].now
    requires forall c | c in calls :: c.now <= latest
    ensures Nondecreasing(TimesAt(calls, level)) && forall t | t in TimesAt(calls, level) :: t <= latest
  {
    if calls != [] {
      var last := calls[|calls| - 1];
      assert forall c | c in calls[..|calls| - 1] :: c in calls && c.now <= last.now;
      TimesInOrder(calls[..|calls| - 1], level, last.now);
      SnocInOrder(TimesAt(calls[..|calls| - 1], level), last.now);
      assert last in calls;
    }
  }

  /** The rate bound for arbitrarily interleaved calls at all levels under one clock that does not go backwards. */
  lemma RateBoundPerLevel(calls: seq<Call>, perSecond: int, level: Level, lo: int, k: nat)
    requires (forall c | c in calls :: 0 <= c.level < 6) && 0 <= level < 6 && perSecond >= 1 && k >= 1
    requires forall i, j | 0 <= i < j < |calls| :: calls[i].now <= calls[j].now
    ensures AdmittedCalls(calls, perSecond, level, lo, lo + k * 1_000_000_000) <= (k + 1) * perSecond
    ensures (forall c | c in calls :: c.now > 0) ==>
              AdmittedCalls(calls, perSecond, level, lo, lo + k * 1_000_000_000) <= (k + 1) * perSecond - 1
  {
    var times := TimesAt(calls, level);
    AdmittedCallsOfLevel(calls, perSecond, level, lo, lo + k * SECOND);
    if calls != [] {
      TimesInOrder(calls, level, calls[|calls| - 1].now);
    }
    RateBound(times, perSecond, |times|, lo, k);
    if forall c | c in calls :: c.now > 0 {
      TimesArePositive(calls, level);
      if times == [] { Monotone(perSecond, 0, k); } else { assert times[0] in times; }
    }
  }

  lemma {:induction false} TimesArePositive(calls: seq<Call>, level: Level)
    requires forall c | c in calls :: c.now > 0
    ensures forall t | t in TimesAt(calls, level) :: t > 0
  {
    if calls != [] {
      assert calls[|calls| - 1] in calls;
      TimesArePositive(calls[..|calls| - 1], level);
    }
  }

  // ---- the bound is attained

  function Repeat(t: int, m: nat): seq<int> {
    if m == 0 then [] else Repeat(t, m - 1) + [t]
  }

  /** All calls of a sequence with a clock reading from `lo` to `hi` that are admitted. */
  function AdmittedIn(times: seq<int>, perSecond: int, lo: int, hi: int): nat {
    AdmittedBetween(times, perSecond, |times|, lo, hi)
  }

  lemma AdmittedSnoc(times: seq<int>, t: int, perSecond: int, lo: int, hi: int)
    ensures AdmittedIn(times + [t], perSecond, lo, hi) ==
            AdmittedIn(times, perSecond, lo, hi) + if Touch(After(times), t).count <= perSecond && lo <= t <= hi then 1 else 0
  {
    hide After, Touch;
    var more := times + [t];
    AdmittedInPrefix(times, more, perSecond, |times|, lo, hi);
    assert more[..|times| + 1] == more;
    AfterOneMore(times, t);
  }

  lemma RepeatOnTop(times: seq<int>, t: int, m: nat)
    ensures times + Repeat(t, m + 1) == times + Repeat(t, m) + [t]
  {
  }

  lemma {:induction false} BurstInOrder(times: seq<int>, t: int, m: nat)
    requires Nondecreasing(times) && forall x | x in times :: x <= t
    ensures Nondecreasing(times + Repeat(t, m)) && forall x | x in times + Repeat(t, m) :: x <= t
  {
    if m == 0 {
      assert times + [] == times;
    } else {
      BurstInOrder(times, t, m - 1);
      RepeatOnTop(times, t, m - 1);
      SnocInOrder(times + Repeat(t, m - 1), t);
    }
  }

  /** The bucket after a burst of `m` calls, in the window that is open or in the one that the first of them opens. */
  function BurstBucket(b: Bucket, t: int, m: nat): Bucket {
    if m == 0 then b else if t > b.resetAt then Bucket(m, t + SECOND) else Bucket(b.count + m, b.resetAt)
  }

  lemma {:induction false} AfterBurst(times: seq<int>, t: int, m: nat)
    ensures After(times + Repeat(t, m)) == BurstBucket(After(times), t, m)
  {
    if m == 0 {
      assert times + [] == times;
    } else {
      AfterBurst(times, t, m - 1);
      RepeatOnTop(times, t, m - 1);
      AfterOneMore(times + Repeat(t, m - 1), t);
    }
  }

  /** As long as the budget lasts, all of them are admitted. */
  lemma {:induction false} BurstIsAdmitted(times: seq<int>, t: int, m: nat, perSecond: int, lo: int, hi: int)
    requires lo <= t <= hi && BurstBucket(After(times), t, m).count <= perSecond
    ensures AdmittedIn(times + Repeat(t, m), perSecond, lo, hi) == AdmittedIn(times, perSecond, lo, hi) + m
  {
    if m == 0 {
      assert times + [] == times;
    } else {
      if m > 1 { BurstIsAdmitted(times, t, m - 1, perSecond, lo, hi); } else { assert times + [] == times; }
      RepeatOnTop(times, t, m - 1);
      AfterBurst(times, t, m - 1);
      AdmittedSnoc(times + Repeat(t, m - 1), t, perSecond, lo, hi);
    }
  }

  /** When the `j`th further window of the worst case opens: a nanosecond after the one before has ended. */
  function Opening(j: nat): int {
    j + 1 + j * SECOND
  }

  /** The worst case: a window opened early and filled up in its last nanosecond, then windows filled as they open. */
  function WorstCase(perSecond: int, j: nat): seq<int>
    requires perSecond >= 1
  {
    if j == 0 then [1] + Repeat(1 + SECOND, perSecond - 1) else WorstCase(perSecond, j - 1) + Repeat(Opening(j), perSecond)
  }

  lemma FirstOpening(perSecond: int, lo: int, hi: int)
    requires lo > 1
    ensures After([1]) == Bucket(1, 1 + SECOND) && AdmittedIn([1], perSecond, lo, hi) == 0
  {
    assert [1][..0] == [] && After([]) == EMPTY && After([1]) == Touch(EMPTY, 1);
    NothingBefore([1], perSecond, 1, lo, hi);
  }

  lemma {:induction false} WorstCaseShape(perSecond: int, j: nat)
    requires perSecond >= 1
    ensures var times := WorstCase(perSecond, j);
            && Nondecreasing(times) && (forall x | x in times :: x <= Opening(j) + SECOND)
            && times != [] && times[0] == 1
            && After(times) == Bucket(perSecond, Opening(j) + SECOND)
  {
    if j == 0 {
      FirstOpening(perSecond, 2, 2);
      BurstInOrder([1], 1 + SECOND, perSecond - 1);
      AfterBurst([1], 1 + SECOND, perSecond - 1);
    } else {
      WorstCaseShape(perSecond, j - 1);
      assert Opening(j) == Opening(j - 1) + SECOND + 1;
      BurstInOrder(WorstCase(perSecond, j - 1), Opening(j), perSecond);
      AfterBurst(WorstCase(perSecond, j - 1), Opening(j), perSecond);
    }
  }

  lemma {:induction false} WorstCaseCount(perSecond: int, j: nat, lo: int, hi: int)
    requires perSecond >= 1 && 1 < lo <= 1 + SECOND <= hi && Opening(j) <= hi
    ensures AdmittedIn(WorstCase(perSecond, j), perSecond, lo, hi) == WorstTotal(perSecond, j)
  {
    hide Nondecreasing, AdmittedIn, After, Repeat;
    if j == 0 {
      FirstOpening(perSecond, lo, hi);
      BurstIsAdmitted([1], 1 + SECOND, perSecond - 1, perSecond, lo, hi);
    } else {
      assert Opening(j) == Opening(j - 1) + SECOND + 1;
      WorstCaseCount(perSecond, j - 1, lo, hi);
      WorstCaseShape(perSecond, j - 1);
      assert Opening(j) >= 2 + SECOND;
      BurstIsAdmitted(WorstCase(perSecond, j - 1), Opening(j), perSecond, perSecond, lo, hi);
    }
  }

  /** What the windows of the worst case add up to. */
  function WorstTotal(perSecond: int, j: nat): int {
    if j == 0 then perSecond - 1 else WorstTotal(perSecond, j - 1) + perSecond
  }

  lemma {:induction false} WorstTotalIs(perSecond: int, j: nat)
    ensures WorstTotal(perSecond, j) == (j + 1) * perSecond - 1
  {
    if j > 0 {
      WorstTotalIs(perSecond, j - 1);
      assert (j + 1) * perSecond == j * perSecond + perSecond;
    }
  }

  /** For every budget, and for intervals of up to a thousand million seconds, there are calls that reach the bound. */
  lemma RateBoundIsSharp(perSecond: int, k: nat) returns (times: seq<int>, lo: int)
    requires perSecond >= 1 && 1 <= k <= 1_000_000_000
    ensures Nondecreasing(times) && times != [] && times[0] > 0
    ensures AdmittedIn(times, perSecond, lo, lo + k * 1_000_000_000) == (k + 1) * perSecond - 1
  {
    times, lo := WorstCase(perSecond, k), k + 1;
    WorstCaseShape(perSecond, k);
    WorstCaseCount(perSecond, k, lo, lo + k * SECOND);
    WorstTotalIs(perSecond, k);
  }

  // ---- the documentation and the code

  /** What the sampler is documented to guarantee: at most perSecond entries per second. */
  ghost predicate AsDocumented(perSecond: int) {
    forall times: seq<int>, lo: int, hi: int | hi == lo + 1_000_000_000 && Nondecreasing(times) && times != [] && times[0] > 0 ::
      AdmittedIn(times, perSecond, lo, hi) <= perSecond
  }

  /** The documented guarantee holds for a budget of one and for no other. */
  lemma AsDocumentedIffOne(perSecond: int)
    requires perSecond >= 1
    ensures AsDocumented(perSecond) <==> perSecond == 1
  {
    if perSecond == 1 {
      forall times: seq<int>, lo: int, hi: int | hi == lo + SECOND && Nondecreasing(times) && times != [] && times[0] > 0
        ensures AdmittedIn(times, perSecond, lo, hi) <= perSecond
      {
        RateBound(times, perSecond, |times|, lo, 1);
      }
    } else {
      var times, lo := RateBoundIsSharp(perSecond, 1);
      assert AdmittedIn(times, perSecond, lo, lo + SECOND) > perSecond;
    }
  }
}
