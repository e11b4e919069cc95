/**
 What becomes of each log call, told from the steps of the run alone (logger.go): why it ended, and what it wrote. The
 program counters of the protocol are compared with the record of the steps taken.
 */
module LoggerHistory {
  import opened Bytes
  import opened Levels
  import opened LoggerProtocol
  import A = AsyncWriter
  import N = EveryN

  /** Which decisive steps call `t`, which logs at `level`, has taken. */
  datatype Past = Past(gated: bool, below: bool, dropped: bool, kept: bool, wrote: bool, exited: bool)

  ghost function PastOf(done: seq<Action>, t: Tid, level: Level): Past {
    Past(exists m :: Gate(t, m) in done,
         exists m :: Gate(t, m) in done && level < m,
         Filter(t, false) in done,
         Filter(t, true) in done,
         SelectOut(t) in done,
         Exit(t) in done)
  }

  /** What a call that stands at `pc` must have done. */
  function PastAt(pc: Pc, level: Level): Past {
    var past := if pc.LogDone? then PastAtEnd(pc.why) else
                  Past(!pc.Checking? && !pc.Gating?, false, false,
                       !pc.Checking? && !pc.Gating? && !pc.Sampling? && !pc.Ticketed? && !pc.Filtering?,
                       pc.Returning? || pc.Flushing? || pc.Exiting? || pc.Leaving?, false);
    past.(exited := level == FATAL && (pc.Leaving? || (pc.LogDone? && pc.why == Completed)))
  }

  function PastAtEnd(why: Reason): Past {
    Past(why != WasClosed, why == BelowMinimum, why == DroppedByMiddleware, why == Completed, why == Completed, false)
  }

  /** What one more step adds. */
  function Advance(past: Past, a: Action, t: Tid, level: Level): Past {
    match a
    case Gate(u, m) => if u == t then past.(gated := true, below := past.below || level < m) else past
    case Filter(u, keep) =>
      if u != t then past else if keep then past.(kept := true) else past.(dropped := true)
    case SelectOut(u) => if u == t then past.(wrote := true) else past
    case Exit(u) => if u == t then past.(exited := true) else past
    case _ => past
  }

  lemma PastGrows(done: seq<Action>, a: Action, t: Tid, level: Level)
    ensures PastOf(done + [a], t, level) == Advance(PastOf(done, t, level), a, t, level)
  {
    assert forall b :: b in done + [a] <==> b in done || b == a;
    if a.Gate? && a.t == t { assert a in done + [a]; }
  }

  /** The line a log call was made with, wherever it still has it. */
  predicate Carries(pc: Pc, line: bytes) {
    match pc
    case Checking(_, l) => l == line
    case Gating(_, l) => l == line
    case Sampling(_, l) => l == line
    case Ticketed(_, l) => l == line
    case Filtering(_, l) => l == line
    case Assembled(_, l) => l == line
    case Writing(_, l) => l == line
    case Returning(_, l) => l == line
    case Flushing(l) => l == line
    case Exiting(l) => l == line
    case _ => true
  }

  /** The call has met one minimum at most. */
  ghost predicate OneGate(done: seq<Action>, t: Tid) {
    forall m, n | Gate(t, m) in done && Gate(t, n) in done :: m == n
  }

  predicate WasRefused(pc: Pc) {
    pc.LogDone? && pc.why == WasClosed
  }

  /** The record and the state agree on the call begun by `BeginLog(t, level, line)`. */
  ghost predicate Recorded(s: State, done: seq<Action>, t: Tid, level: Level, line: bytes) {
    && t in s.calls && LevelOf(s.calls[t]) == Some(level) && Carries(s.calls[t], line)
    && PastOf(done, t, level) == PastAt(s.calls[t], level)
    && (WasRefused(s.calls[t]) ==> s.closed)
    && OneGate(done, t)
  }

  /** Every passage through the writer was made by a recorded call with its own level and line, at most one by each. */
  ghost predicate SectionsRecorded(s: State, done: seq<Action>) {
    && (forall c | c in s.sections :: BeginLog(c.t, c.level, c.line) in done && SelectOut(c.t) in done)
    && (forall t | SelectOut(t) in done :: exists c :: c in s.sections && c.t == t)
    && forall i, j | 0 <= i < j < |s.sections| :: s.sections[i].t != s.sections[j].t
  }

  predicate OwnsCall(a: Action) {
    !a.Drain? && !a.Direct?
  }

  ghost predicate HistoryInv(s: State, done: seq<Action>) {
    && (forall t, level, line | BeginLog(t, level, line) in done :: Recorded(s, done, t, level, line))
    && (forall t | t in s.calls && LevelOf(s.calls[t]).Some? :: Begun(done, t))
    && (forall a | a in done && OwnsCall(a) :: a.t in s.calls)
    && SectionsRecorded(s, done)
  }

  ghost predicate Begun(done: seq<Action>, t: Tid) {
    exists level, line :: BeginLog(t, level, line) in done
  }

  // ---- one step

  /** The acting call's program counter moves as its record does. */
  lemma OwnRecord(s: State, a: Action, level: Level, line: bytes)
    requires Enabled(s, a) && OwnsCall(a) && a.t in s.calls
    requires LevelOf(s.calls[a.t]) == Some(level) && Carries(s.calls[a.t], line)
    requires WasRefused(s.calls[a.t]) ==> s.closed
    ensures a.t in Step(s, a).calls
    ensures var pc, pc' := s.calls[a.t], Step(s, a).calls[a.t];
            && LevelOf(pc') == Some(level) && Carries(pc', line)
            && PastAt(pc', level) == Advance(PastAt(pc, level), a, a.t, level)
            && (WasRefused(pc') ==> Step(s, a).closed)
  {
    hide A.Step, A.Enabled, N.Step, N.Enabled;
  }

  lemma FreshRecord(s: State, done: seq<Action>, t: Tid, level: Level, line: bytes)
    requires HistoryInv(s, done) && Enabled(s, BeginLog(t, level, line))
    ensures Recorded(Step(s, BeginLog(t, level, line)), done + [BeginLog(t, level, line)], t, level, line)
  {
    PastGrows(done, BeginLog(t, level, line), t, level);
    NothingDone(s, done, t, level);
    assert !PastOf(done, t, level).gated;
  }

  lemma NothingDone(s: State, done: seq<Action>, t: Tid, level: Level)
    requires (forall a | a in done && OwnsCall(a) :: a.t in s.calls) && t !in s.calls
    ensures PastOf(done, t, level) == Past(false, false, false, false, false, false)
  {
    assert forall a | a in done && OwnsCall(a) :: a.t != t;
    forall m ensures Gate(t, m) !in done {
      var g := Gate(t, m);
      assert OwnsCall(g) && g.t == t;
    }
    var f, k, o, e := Filter(t, false), Filter(t, true), SelectOut(t), Exit(t);
    assert OwnsCall(f) && OwnsCall(k) && OwnsCall(o) && OwnsCall(e) && f.t == k.t == o.t == e.t == t;
  }

  lemma RecordStep(s: State, done: seq<Action>, a: Action, t: Tid, level: Level, line: bytes)
    requires HistoryInv(s, done) && Enabled(s, a) && BeginLog(t, level, line) in done
    ensures Recorded(Step(s, a), done + [a], t, level, line)
  {
    hide Step, Enabled, HoldsMutex;
    assert Recorded(s, done, t, level, line);
    PastGrows(done, a, t, level);
    GateOnce(s, done, a, t, level);
    if OwnsCall(a) && a.t == t {
      OwnRecord(s, a, level, line);
    } else {
      StepIsLocalFor(s, a, t);
    }
  }

  lemma GateOnce(s: State, done: seq<Action>, a: Action, t: Tid, level: Level)
    requires Enabled(s, a) && t in s.calls && OneGate(done, t) && PastOf(done, t, level) == PastAt(s.calls[t], level)
    ensures OneGate(done + [a], t)
  {
    if a.Gate? && a.t == t {
      assert !PastOf(done, t, level).gated;
    }
  }

  lemma StepIsLocalFor(s: State, a: Action, t: Tid)
    requires Enabled(s, a) && t in s.calls && !(OwnsCall(a) && a.t == t)
    ensures t in Step(s, a).calls && Step(s, a).calls[t] == s.calls[t] && (s.closed ==> Step(s, a).closed)
  {
    if !a.Direct? { StepIsLocal(s, a, t); }
  }

  /** Steps make log calls out of nothing but BeginLog. */
  lemma LogCallsBegin(s: State, a: Action, t: Tid)
    requires Enabled(s, a) && t in Step(s, a).calls && LevelOf(Step(s, a).calls[t]).Some?
    ensures (t in s.calls && LevelOf(s.calls[t]).Some?) || (a.BeginLog? && a.t == t)
  {
    hide A.Step, A.Enabled, N.Step, N.Enabled;
    if OwnsCall(a) && a.t == t { assert !a.BeginSync?; } else if !a.Direct? { StepIsLocal(s, a, t); }
  }

  lemma CallsStay(s: State, a: Action)
    requires Enabled(s, a)
    ensures forall t | t in s.calls :: t in Step(s, a).calls
    ensures OwnsCall(a) ==> a.t in Step(s, a).calls
  {
    hide A.Step, A.Enabled, N.Step, N.Enabled;
  }

  lemma SectionAdded(s: State, a: Action)
    requires Enabled(s, a)
    ensures if a.SelectOut? then
              && a.t in s.calls && s.calls[a.t].Writing?
              && |Step(s, a).sections| == |s.sections| + 1 && Step(s, a).sections[..|s.sections|] == s.sections
              && var c := Step(s, a).sections[|s.sections|];
              && c.t == a.t && c.level == s.calls[a.t].level && c.line == s.calls[a.t].line
            else Step(s, a).sections == s.sections
  {
    hide A.Step, A.Enabled, N.Step, N.Enabled;
  }

  lemma SectionsStep(s: State, done: seq<Action>, a: Action)
    requires HistoryInv(s, done) && Enabled(s, a)
    ensures SectionsRecorded(Step(s, a), done + [a])
  {
    hide Step, Enabled, PastOf, PastAt;
    var was, now := s.sections, Step(s, a).sections;
    SectionAdded(s, a);
    if a.SelectOut? {
      var c := now[|was|];
      assert now == was + [c];
      WriterIsRecorded(s, done, a.t);
      forall t | SelectOut(t) in done + [a] ensures exists x :: x in now && x.t == t {
        if t == a.t { assert c in now; } else {
          var x :| x in was && x.t == t;
          assert x in now;
        }
      }
      forall i, j | 0 <= i < j < |now| ensures now[i].t != now[j].t {
        assert now[i] in was;
      }
    }
  }

  /** A call before its select has begun as it stands there, and has not written. */
  lemma WriterIsRecorded(s: State, done: seq<Action>, t: Tid)
    requires HistoryInv(s, done) && t in s.calls && s.calls[t].Writing?
    ensures BeginLog(t, s.calls[t].level, s.calls[t].line) in done && SelectOut(t) !in done
    ensures forall c | c in s.sections :: c.t != t
  {
    assert Begun(done, t);
    var level, line :| BeginLog(t, level, line) in done;
    assert Recorded(s, done, t, level, line);
    assert PastOf(done, t, level).wrote == PastAt(s.calls[t], level).wrote;
  }

  lemma HistoryStep(s: State, done: seq<Action>, a: Action)
    requires HistoryInv(s, done) && Enabled(s, a)
    ensures HistoryInv(Step(s, a), done + [a])
  {
    hide Step, Enabled, Recorded, SectionsRecorded;
    var s', more := Step(s, a), done + [a];
    CallsStay(s, a);
    SectionsStep(s, done, a);
    forall t, level, line | BeginLog(t, level, line) in more ensures Recorded(s', more, t, level, line) {
      if BeginLog(t, level, line) in done { RecordStep(s, done, a, t, level, line); } else { FreshRecord(s, done, t, level, line); }
    }
    forall t | t in s'.calls && LevelOf(s'.calls[t]).Some? ensures Begun(more, t) {
      LogCallsBegin(s, a, t);
      if a.BeginLog? && a.t == t {
        assert BeginLog(t, a.level, a.line) in more;
      } else {
        var level, line :| BeginLog(t, level, line) in done;
        assert BeginLog(t, level, line) in more;
      }
    }
  }

  lemma {:induction false} HistoryRun(s: State, done: seq<Action>, acts: seq<Action>, s': State)
    requires HistoryInv(s, done) && Run(s, acts, s')
    ensures HistoryInv(s', done + acts)
    decreases |acts|
  {
    hide HistoryInv, Step, Enabled;
    if acts == [] {
      assert done + acts == done;
    } else {
      HistoryStep(s, done, acts[0]);
      HistoryRun(Step(s, acts[0]), done + [acts[0]], acts[1..], s');
      assert done + acts == done + [acts[0]] + acts[1..];
    }
  }

  // ---- whole runs

  lemma RunRecorded(bufferSize: int, destIsSyncer: bool, period: Option<int>, acts: seq<Action>, s: State)
    requires Run(Init(bufferSize, destIsSyncer, period), acts, s)
    ensures HistoryInv(s, acts)
  {
    HistoryRun(Init(bufferSize, destIsSyncer, period), [], acts, s);
    assert [] + acts == acts;
  }

  /**
   Why a log call ended, over any run: refused only by a closed logger and before its gate; below the minimum exactly when it
   met one above its level; dropped exactly when its middleware said so; and completed only after its write.
   */
  lemma FateOfACall(bufferSize: int, destIsSyncer: bool, period: Option<int>, acts: seq<Action>, s: State,
                    t: Tid, level: Level, line: bytes)
    requires Run(Init(bufferSize, destIsSyncer, period), acts, s) && BeginLog(t, level, line) in acts
    ensures t in s.calls && LevelOf(s.calls[t]) == Some(level)
    ensures s.calls[t] == LogDone(level, WasClosed) ==> s.closed && forall m :: Gate(t, m) !in acts
    ensures s.calls[t] == LogDone(level, BelowMinimum) <==> exists m :: Gate(t, m) in acts && level < m
    ensures s.calls[t] == LogDone(level, DroppedByMiddleware) <==> Filter(t, false) in acts
    ensures s.calls[t] == LogDone(level, Completed) ==> Filter(t, true) in acts && SelectOut(t) in acts
  {
    RunRecorded(bufferSize, destIsSyncer, period, acts, s);
    assert Recorded(s, acts, t, level, line);
    var past := PastOf(acts, t, level);
    assert past == PastAt(s.calls[t], level);
    assert past.gated <==> exists m :: Gate(t, m) in acts;
    assert past.below <==> exists m :: Gate(t, m) in acts && level < m;
  }

  /** In particular, with the minimum a call has met at its gate. */
  lemma MinimumDecides(bufferSize: int, destIsSyncer: bool, period: Option<int>, acts: seq<Action>, s: State,
                       t: Tid, level: Level, line: bytes, m: Level)
    requires Run(Init(bufferSize, destIsSyncer, period), acts, s)
    requires BeginLog(t, level, line) in acts && Gate(t, m) in acts
    ensures t in s.calls && (s.calls[t] == LogDone(level, BelowMinimum) <==> level < m)
    ensures level < m ==> forall c | c in s.sections :: c.t != t
  {
    FateOfACall(bufferSize, destIsSyncer, period, acts, s, t, level, line);
    RunRecorded(bufferSize, destIsSyncer, period, acts, s);
    assert Recorded(s, acts, t, level, line) && OneGate(acts, t);
    if level < m { assert !PastOf(acts, t, level).wrote; }
  }

  /** Every passage through the writer carries the level and line its call was made with, follows the call's `Filter(t, true)`
      and a gate that let the level through, and is the only one of the call. */
  lemma SectionsAreTheCalls(bufferSize: int, destIsSyncer: bool, period: Option<int>, acts: seq<Action>, s: State, c: Section)
    requires Run(Init(bufferSize, destIsSyncer, period), acts, s) && c in s.sections
    ensures BeginLog(c.t, c.level, c.line) in acts && Filter(c.t, true) in acts && Filter(c.t, false) !in acts
    ensures exists m :: Gate(c.t, m) in acts && c.level >= m
    ensures forall d | d in s.sections && d.t == c.t :: d == c
  {
    RunRecorded(bufferSize, destIsSyncer, period, acts, s);
    assert Recorded(s, acts, c.t, c.level, c.line);
    var past := PastOf(acts, c.t, c.level);
    assert past.wrote && past == PastAt(s.calls[c.t], c.level);
    assert past.gated && !past.below && past.kept && !past.dropped;
    var m :| Gate(c.t, m) in acts;
  }
}
