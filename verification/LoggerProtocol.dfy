/**
 The concurrent life of a root logger whose output is an AsyncWriter (logger.go over writer_async.go): log calls with
 their closed check before the lock, Sync, FATAL's flush and exit under the lock, and direct Close calls on the writer.
 */
module LoggerProtocol {
  import opened Bytes
  import opened Levels
  import A = AsyncWriter
  import N = EveryN

  type Tid = A.Tid

  /** Where a call stands. Storing to SyncDone belong to Sync, the rest to a log call. */
  datatype Pc =
    | Checking(level: Level, line: bytes)    // before r.closed.Load()
    | Gating(level: Level, line: bytes)      // past the closed check; the minimum level comes next
    | Sampling(level: Level, line: bytes)    // inside Sample, before the addition
    | Ticketed(level: Level, line: bytes)    // inside Sample, holding its ticket
    | Filtering(level: Level, line: bytes)   // assembling the entry, running the middleware, formatting
    | Assembled(level: Level, line: bytes)   // before r.mu.Lock()
    | Writing(level: Level, line: bytes)     // holds the mutex, inside r.out.Write, before its select
    | Returning(level: Level, line: bytes)   // holds the mutex, past the select; hooks come next
    | Flushing(line: bytes)                  // FATAL: holds the mutex, inside out.Sync
    | Exiting(line: bytes)                   // FATAL: holds the mutex, before r.exitFunc(1)
    | Leaving(level: Level)                  // holds the mutex, before the deferred Unlock
    | LogDone(level: Level, why: Reason)
    | Storing                                // before r.closed.Store(true)
    | Locking                                // before r.mu.Lock()
    | Syncing                                // holds the mutex, inside out.Sync
    | SyncLeaving                            // holds the mutex, before the deferred Unlock
    | SyncDone

  /** How a log call ended. */
  datatype Reason = WasClosed | BelowMinimum | SampledOut | DroppedByMiddleware | Completed

  datatype Outcome = Accepted | Dropped | Rejected

  /** One passage through r.out.Write, in the order the mutex was held. */
  datatype Section = Section(t: Tid, level: Level, line: bytes, outcome: Outcome)

  datatype State = State(
    closed: bool, mutex: Option<Tid>, out: A.State, sampler: Option<N.State>, calls: map<Tid, Pc>,
    sections: seq<Section>, exits: seq<Tid>)

  /** A logger over NewAsyncWriter; `period` is the argument of NewEveryNSampler, if there is a sampler. */
  function Init(bufferSize: int, destIsSyncer: bool, period: Option<int>): State {
    State(false, None, A.Init(bufferSize, destIsSyncer), if period.Some? then Some(N.Init(period.value)) else None,
          map[], [], [])
  }

  datatype Action =
    | BeginLog(t: Tid, level: Level, line: bytes)
    | Check(t: Tid)
    | Gate(t: Tid, minLevel: Level)
    | Sample(t: Tid)
    | Decide(t: Tid)
    | Filter(t: Tid, kept: bool)
    | Lock(t: Tid)
    | SelectOut(t: Tid)
    | Hooks(t: Tid)
    | Finish(t: Tid)
    | Exit(t: Tid)
    | Unlock(t: Tid)
    | BeginSync(t: Tid)
    | Store(t: Tid)
    | LockSync(t: Tid)
    | OutStep(t: Tid, a: A.Action)   // a step of the output's Write or Sync, taken inside the call
    | Drain(a: A.Action)             // a step of the drain goroutine
    | Direct(t: Tid, a: A.Action)    // a Close called on the writer by other code

  /** The action of the writer's Close that call `t` can take. */
  predicate IsCloseAction(a: A.Action, t: Tid) {
    (a.EnterOnce? || a.CloseChan? || a.SeeDone? || a.SyncDest? || a.LeaveOnce? || a.PassOnce?) && a.t == t
  }

  predicate HoldsMutex(pc: Pc) {
    pc.Writing? || pc.Returning? || pc.Flushing? || pc.Exiting? || pc.Leaving? || pc.Syncing? || pc.SyncLeaving?
  }

  predicate Enabled(s: State, a: Action) {
    match a
    case BeginLog(t, level, _) => TRACE <= level <= FATAL && t !in s.calls && t !in s.out.calls
    case BeginSync(t) => t !in s.calls && t !in s.out.calls
    case Drain(b) => A.IsDrainAction(b) && A.Enabled(s.out, b)
    case Direct(t, b) => t !in s.calls && (b == A.BeginClose(t) || IsCloseAction(b, t)) && A.Enabled(s.out, b)
    case Check(t) => t in s.calls && s.calls[t].Checking?
    case Gate(t, _) => t in s.calls && s.calls[t].Gating?
    case Sample(t) => t in s.calls && s.calls[t].Sampling? && SamplerCan(s, N.Add(t, s.calls[t].level))
    case Decide(t) => t in s.calls && s.calls[t].Ticketed? && SamplerCan(s, N.Return(t))
    case Filter(t, _) => t in s.calls && s.calls[t].Filtering?
    case Lock(t) => t in s.calls && s.calls[t].Assembled? && s.mutex == None && A.Free(s.out, t)
    case SelectOut(t) => t in s.calls && s.calls[t].Writing? && A.Enabled(s.out, A.Select(t))
    case Hooks(t) => t in s.calls && s.calls[t].Returning? && t in s.out.calls && s.out.calls[t].WriteReturned?
    case OutStep(t, b) => t in s.calls && OutStepAllowed(s.calls[t], t, b) && A.Enabled(s.out, b)
    case Finish(t) => t in s.calls && (s.calls[t].Flushing? || s.calls[t].Syncing?) && A.At(s.out, t, A.CloseReturned)
    case Exit(t) => t in s.calls && s.calls[t].Exiting?
    case Unlock(t) => t in s.calls && (s.calls[t].Leaving? || s.calls[t].SyncLeaving?)
    case Store(t) => t in s.calls && s.calls[t].Storing?
    case LockSync(t) => t in s.calls && s.calls[t].Locking? && s.mutex == None && A.Free(s.out, t)
  }

  predicate SamplerCan(s: State, b: N.Action) {
    s.sampler.Some? && N.WellFormed(s.sampler.value) && N.Enabled(s.sampler.value, b)
  }

  /** Which steps of the writer a call takes while it is inside r.out.Write or out.Sync. */
  predicate OutStepAllowed(pc: Pc, t: Tid, b: A.Action) {
    if pc.Returning? then b == A.CountDrop(t) else (pc.Flushing? || pc.Syncing?) && IsCloseAction(b, t)
  }

  function Goto(s: State, t: Tid, pc: Pc): State {
    s.(calls := s.calls[t := pc])
  }

  function OutcomeOf(o: A.State): Outcome {
    if o.closed then Rejected else if |o.queue| < o.cap then Accepted else Dropped
  }

  function Step(s: State, a: Action): State
    requires Enabled(s, a)
  {
    match a
    case BeginLog(t, level, line) => Goto(s, t, Checking(level, line))
    case Check(t) =>
      var pc := s.calls[t];
      Goto(s, t, if s.closed then LogDone(pc.level, WasClosed) else Gating(pc.level, pc.line))
    case Gate(t, minLevel) =>
      var pc := s.calls[t];
      Goto(s, t,
           if pc.level < minLevel then LogDone(pc.level, BelowMinimum)
           else if s.sampler.Some? && pc.level < ERROR then Sampling(pc.level, pc.line)
           else Filtering(pc.level, pc.line))
    case Sample(t) =>
      var pc := s.calls[t];
      Goto(s, t, Ticketed(pc.level, pc.line)).(sampler := Some(N.Step(s.sampler.value, N.Add(t, pc.level))))
    case Decide(t) =>
      var pc := s.calls[t];
      var n := N.Step(s.sampler.value, N.Return(t));
      Goto(s, t, if n.verdicts[t] then Filtering(pc.level, pc.line) else LogDone(pc.level, SampledOut)).(sampler := Some(n))
    case Filter(t, kept) =>
      var pc := s.calls[t];
      Goto(s, t, if kept then Assembled(pc.level, pc.line) else LogDone(pc.level, DroppedByMiddleware))
    case Lock(t) =>
      var pc := s.calls[t];
      Goto(s, t, Writing(pc.level, pc.line)).(mutex := Some(t), out := A.Step(s.out, A.BeginWrite(t, pc.line)))
    case SelectOut(t) =>
      var pc := s.calls[t];
      Goto(s, t, Returning(pc.level, pc.line)).(
        out := A.Step(s.out, A.Select(t)),
        sections := s.sections + [Section(t, pc.level, pc.line, OutcomeOf(s.out))])
    case Hooks(t) =>
      var pc := s.calls[t];
      if pc.level == FATAL then Goto(s, t, Flushing(pc.line)).(out := A.Step(s.out, A.BeginClose(t)))
      else Goto(s, t, Leaving(pc.level))
    case OutStep(_, b) => s.(out := A.Step(s.out, b))
    case Finish(t) => Goto(s, t, if s.calls[t].Flushing? then Exiting(s.calls[t].line) else SyncLeaving)
    case Exit(t) => Goto(s, t, Leaving(FATAL)).(exits := s.exits + [t])
    case Unlock(t) => Goto(s, t, if s.calls[t].Leaving? then LogDone(s.calls[t].level, Completed) else SyncDone).(mutex := None)
    case BeginSync(t) => Goto(s, t, Storing)
    case Store(t) => Goto(s, t, Locking).(closed := true)
    case LockSync(t) => Goto(s, t, Syncing).(mutex := Some(t), out := A.Step(s.out, A.BeginClose(t)))
    case Drain(b) => s.(out := A.Step(s.out, b))
    case Direct(_, b) => s.(out := A.Step(s.out, b))
  }

  predicate Run(s: State, acts: seq<Action>, s': State)
    decreases |acts|
  {
    if acts == [] then s == s' else Enabled(s, acts[0]) && Run(Step(s, acts[0]), acts[1..], s')
  }

  ghost predicate Reachable(s: State) {
    exists bufferSize, destIsSyncer, period, acts :: Run(Init(bufferSize, destIsSyncer, period), acts, s)
  }

  // ---- the output sees only its own steps

  /** What a logger step does to the writer, if anything. */
  function OutAction(s: State, a: Action): Option<A.Action>
    requires Enabled(s, a)
  {
    match a
    case Lock(t) => Some(A.BeginWrite(t, s.calls[t].line))
    case SelectOut(t) => Some(A.Select(t))
    case Hooks(t) => if s.calls[t].level == FATAL then Some(A.BeginClose(t)) else None
    case OutStep(_, b) => Some(b)
    case LockSync(t) => Some(A.BeginClose(t))
    case Drain(b) => Some(b)
    case Direct(_, b) => Some(b)
    case _ => None
  }

  lemma OutStepsOnly(s: State, a: Action)
    requires Enabled(s, a)
    ensures match OutAction(s, a)
            case None => Step(s, a).out == s.out
            case Some(b) => A.Enabled(s.out, b) && Step(s, a).out == A.Step(s.out, b)
  {
  }

  // ---- the invariant

  /** Exactly the call recorded in the mutex is inside the locked region. */
  predicate MutexInv(s: State) {
    && (forall t | t in s.calls :: HoldsMutex(s.calls[t]) <==> s.mutex == Some(t))
    && (s.mutex.Some? ==> s.mutex.value in s.calls)
  }

  /** The lines that made it onto the channel, in mutex order. */
  function AcceptedLines(sections: seq<Section>): seq<bytes> {
    if sections == [] then [] else
      var last := sections[|sections| - 1];
      AcceptedLines(sections[..|sections| - 1]) + if last.outcome == Accepted then [last.line] else []
  }

  predicate LastSectionIs(s: State, t: Tid, level: Level, line: bytes) {
    && s.sections != []
    && var last := s.sections[|s.sections| - 1];
    && last.t == t && last.level == level && last.line == line
  }

  /** What each program counter says about the writer and the sections so far. */
  predicate CallInv(s: State, t: Tid) {
    t in s.calls && match s.calls[t]
    case Writing(_, line) => A.At(s.out, t, A.Selecting(line))
    case Returning(level, line) =>
      LastSectionIs(s, t, level, line) && t in s.out.calls && (s.out.calls[t] == A.Counting || s.out.calls[t].WriteReturned?)
    case Flushing(line) => LastSectionIs(s, t, FATAL, line) && InClose(s.out, t)
    case Exiting(line) => LastSectionIs(s, t, FATAL, line) && s.out.once == A.Finished && A.Free(s.out, t)
    case Leaving(level) => A.Free(s.out, t) && (level == FATAL ==> s.out.once == A.Finished)
    case LogDone(level, why) => A.Free(s.out, t) && (level == FATAL && why == Completed ==> s.out.once == A.Finished)
    case Storing => t !in s.out.calls
    case Locking => s.closed && t !in s.out.calls
    case Syncing => s.closed && InClose(s.out, t)
    case SyncLeaving => s.closed && s.out.once == A.Finished && A.Free(s.out, t)
    case SyncDone => s.closed && s.out.once == A.Finished && A.Free(s.out, t)
    case _ => t !in s.out.calls
  }

  /** Call `t` is inside the writer's Close. */
  predicate InClose(o: A.State, t: Tid) {
    t in o.calls && !o.calls[t].Selecting? && !o.calls[t].Counting? && !o.calls[t].WriteReturned?
  }

  predicate Inv(s: State) {
    && A.Inv(s.out)
    && MutexInv(s)
    && (forall t | t in s.calls :: CallInv(s, t))
    && s.out.accepted == AcceptedLines(s.sections)
  }

  lemma OutInvStep(s: State, a: Action)
    requires Inv(s) && Enabled(s, a)
    ensures A.Inv(Step(s, a).out)
    ensures s.out.once == A.Finished ==> Step(s, a).out.once == A.Finished
  {
    OutStepsOnly(s, a);
    match OutAction(s, a)
    case None =>
    case Some(b) =>
      A.ChannelInvStep(s.out, b);
      A.OnceInvStep(s.out, b);
      A.GrowsStep(s.out, b);
  }

  lemma MutexInvStep(s: State, a: Action)
    requires Inv(s) && Enabled(s, a)
    ensures MutexInv(Step(s, a))
  {
    OwnMutexStep(s, a);
    forall t | t in Step(s, a).calls ensures HoldsMutex(Step(s, a).calls[t]) <==> Step(s, a).mutex == Some(t) {
      if a.Drain? || a.t != t { StepIsLocal(s, a, t); }
    }
  }

  /** Only the acting call takes or leaves the mutex. */
  lemma OwnMutexStep(s: State, a: Action)
    requires MutexInv(s) && Enabled(s, a)
    ensures var s' := Step(s, a);
            && (!a.Drain? && a.t in s'.calls ==> (HoldsMutex(s'.calls[a.t]) <==> s'.mutex == Some(a.t)))
            && (s'.mutex == s.mutex || (!a.Drain? && a.t in s'.calls && Some(a.t) in {s.mutex, s'.mutex} && None in {s.mutex, s'.mutex}))
            && (s'.mutex.Some? ==> s'.mutex.value in s'.calls)
  {
    hide A.Step, A.Enabled, N.Step, N.Enabled;
  }

  lemma AcceptedStep(s: State, a: Action)
    requires Inv(s) && Enabled(s, a)
    ensures Step(s, a).out.accepted == AcceptedLines(Step(s, a).sections)
  {
    hide A.Inv, A.Enabled, MutexInv, HoldsMutex;
    OutStepsOnly(s, a);
    if a.SelectOut? {
      assert CallInv(s, a.t);
      AcceptedAppend(s.sections, Step(s, a).sections[|s.sections|]);
    } else {
      AcceptedUnchanged(s, a);
    }
  }

  lemma AcceptedAppend(sections: seq<Section>, last: Section)
    ensures AcceptedLines(sections + [last]) ==
            AcceptedLines(sections) + if last.outcome == Accepted then [last.line] else []
  {
    assert (sections + [last])[..|sections|] == sections;
  }

  /** Only the select of a Write call puts a message on the channel. */
  lemma AcceptedUnchanged(s: State, a: Action)
    requires Enabled(s, a) && !a.SelectOut?
    ensures Step(s, a).out.accepted == s.out.accepted && Step(s, a).sections == s.sections
  {
    OutStepsOnly(s, a);
    match OutAction(s, a)
    case None =>
    case Some(b) => AcceptsOnSelectOnly(s.out, b);
  }

  lemma AcceptsOnSelectOnly(o: A.State, b: A.Action)
    requires A.Enabled(o, b) && !b.Select?
    ensures A.Step(o, b).accepted == o.accepted
  {
  }

  /** A step changes the program counters of the acting call only, in the logger and in the writer. */
  lemma StepIsLocal(s: State, a: Action, t: Tid)
    requires Enabled(s, a) && (a.Drain? || a.t != t)
    ensures var s' := Step(s, a);
            && (t in s'.calls <==> t in s.calls)
            && (t in s.calls ==> s'.calls[t] == s.calls[t])
            && (s.closed ==> s'.closed)
            && (s'.sections == s.sections || (a.SelectOut? && s.calls[a.t].Writing?))
  {
    hide A.Step, A.Enabled, N.Step, N.Enabled;
  }

  lemma OutStepIsLocal(s: State, a: Action, t: Tid)
    requires Enabled(s, a) && (a.Drain? || a.t != t)
    ensures t in Step(s, a).out.calls <==> t in s.out.calls
    ensures t in s.out.calls ==> Step(s, a).out.calls[t] == s.out.calls[t]
  {
    OutStepsOnly(s, a);
    match OutAction(s, a)
    case None =>
    case Some(b) =>
      assert A.IsDrainAction(b) || b.t == a.t;
      A.StepIsLocal(s.out, b, t);
  }

  /** A call other than the acting one keeps its invariant. */
  lemma OtherCallStep(s: State, a: Action, t: Tid)
    requires Inv(s) && Enabled(s, a) && t in s.calls
    requires a.Drain? || a.t != t
    ensures CallInv(Step(s, a), t)
  {
    OutInvStep(s, a);
    StepIsLocal(s, a, t);
    OutStepIsLocal(s, a, t);
    assert CallInv(s, t);
    if Step(s, a).sections != s.sections {
      assert s.mutex == Some(a.t) && !HoldsMutex(s.calls[t]);
    }
  }

  lemma OwnCallStep(s: State, a: Action)
    requires Inv(s) && Enabled(s, a) && !a.Drain? && a.t in Step(s, a).calls
    ensures CallInv(Step(s, a), a.t)
  {
    if a.t in s.calls { assert CallInv(s, a.t); }
    if a.OutStep? { OwnOutStep(s, a.t, a.a); }
    else if a.Lock? || a.LockSync? || a.SelectOut? || a.Hooks? || a.Finish? { OwnLockedStep(s, a); }
    else { OwnPlainStep(s, a); }
  }

  lemma OwnLockedStep(s: State, a: Action)
    requires Inv(s) && Enabled(s, a) && (a.Lock? || a.LockSync? || a.SelectOut? || a.Hooks? || a.Finish?) && CallInv(s, a.t)
    ensures CallInv(Step(s, a), a.t)
  {
    if a.Finish? { assert A.CallInv(s.out, a.t); }
  }

  lemma OwnPlainStep(s: State, a: Action)
    requires Enabled(s, a) && !a.Drain? && !a.SelectOut? && !a.OutStep? && !a.Lock? && !a.LockSync? && !a.Hooks? && !a.Finish?
    requires a.t in Step(s, a).calls && (a.t in s.calls ==> CallInv(s, a.t))
    ensures CallInv(Step(s, a), a.t)
  {
    hide A.Step, A.Enabled, N.Step, N.Enabled;
  }

  lemma OwnOutStep(s: State, t: Tid, b: A.Action)
    requires Inv(s) && Enabled(s, OutStep(t, b)) && CallInv(s, t)
    ensures CallInv(Step(s, OutStep(t, b)), t)
  {
    var s' := Step(s, OutStep(t, b));
    assert s'.sections == s.sections && s'.calls == s.calls && s'.closed == s.closed;
  }

  lemma InvStep(s: State, a: Action)
    requires Inv(s) && Enabled(s, a)
    ensures Inv(Step(s, a))
  {
    var s' := Step(s, a);
    OutInvStep(s, a);
    MutexInvStep(s, a);
    AcceptedStep(s, a);
    forall t | t in s'.calls ensures CallInv(s', t) {
      if !a.Drain? && t == a.t { OwnCallStep(s, a); } else { OtherCallStep(s, a, t); }
    }
  }

  lemma {:induction false} InvRun(s: State, acts: seq<Action>, s': State)
    requires Inv(s) && Run(s, acts, s')
    ensures Inv(s')
    decreases |acts|
  {
    if acts != [] {
      InvStep(s, acts[0]);
      InvRun(Step(s, acts[0]), acts[1..], s');
    }
  }

  lemma ReachableInv(s: State)
    requires Reachable(s)
    ensures Inv(s)
  {
    var bufferSize, destIsSyncer, period, acts :| Run(Init(bufferSize, destIsSyncer, period), acts, s);
    InvRun(Init(bufferSize, destIsSyncer, period), acts, s);
  }

  // ---- FATAL

  /**
   When a FATAL entry is about to call exitFunc, every line accepted so far is at the destination in mutex order, its own
   section is the last one, so its line ends the output if it was accepted, and no other call is in the locked region.
   */
  lemma FatalFlush(s: State, t: Tid)
    requires Reachable(s) && Enabled(s, Exit(t))
    ensures s.out.delivered == AcceptedLines(s.sections)
    ensures LastSectionIs(s, t, FATAL, s.calls[t].line)
    ensures s.sections[|s.sections| - 1].outcome == Accepted ==>
              s.out.delivered != [] && s.out.delivered[|s.out.delivered| - 1] == s.calls[t].line
    ensures forall u | u in s.calls && u != t :: !HoldsMutex(s.calls[u])
  {
    ReachableInv(s);
    assert CallInv(s, t);
    assert s.out.delivered + [] + [] == s.out.delivered;
  }

  /** The FATAL calls that have called exitFunc are exactly those recorded, each once. */
  predicate ExitInv(s: State) {
    && (forall t | t in s.calls :: HasExited(s.calls[t]) <==> t in s.exits)
    && (forall t | t in s.exits :: t in s.calls)
    && forall i, j | 0 <= i < j < |s.exits| :: s.exits[i] != s.exits[j]
  }

  /** Past the call of exitFunc, should that ever return. */
  predicate HasExited(pc: Pc) {
    pc == Leaving(FATAL) || pc == LogDone(FATAL, Completed)
  }

  lemma ExitInvStep(s: State, a: Action)
    requires ExitInv(s) && Enabled(s, a)
    ensures ExitInv(Step(s, a))
  {
    var s' := Step(s, a);
    OwnExitStep(s, a);
    forall t | t in s'.calls ensures HasExited(s'.calls[t]) <==> t in s'.exits {
      if a.Drain? || a.t != t { StepIsLocal(s, a, t); }
    }
    forall t | t in s.calls ensures t in s'.calls {
      if a.Drain? || a.t != t { StepIsLocal(s, a, t); }
    }
  }

  lemma OwnExitStep(s: State, a: Action)
    requires ExitInv(s) && Enabled(s, a)
    ensures Step(s, a).exits == s.exits + (if a.Exit? then [a.t] else []) && (a.Exit? ==> a.t !in s.exits)
    ensures !a.Drain? && a.t in s.calls ==> a.t in Step(s, a).calls
    ensures !a.Drain? && a.t in Step(s, a).calls ==> (HasExited(Step(s, a).calls[a.t]) <==> a.t in s.exits || a.Exit?)
  {
    hide A.Step, A.Enabled, N.Step, N.Enabled;
  }

  lemma {:induction false} ExitInvRun(s: State, acts: seq<Action>, s': State)
    requires ExitInv(s) && Run(s, acts, s')
    ensures ExitInv(s')
    decreases |acts|
  {
    if acts != [] {
      ExitInvStep(s, acts[0]);
      ExitInvRun(Step(s, acts[0]), acts[1..], s');
    }
  }

  /**
   No FATAL call gets away without exiting: in every reachable state the calls that have called exitFunc are exactly the
   FATAL calls on their way out after writing, each has called it once, and the writer was closed and drained before.
   */
  lemma FatalExits(s: State, t: Tid)
    requires Reachable(s) && t in s.calls
    ensures s.calls[t] == Leaving(FATAL) || s.calls[t] == LogDone(FATAL, Completed) <==> t in s.exits
    ensures t in s.exits ==> s.out.once == A.Finished && s.out.delivered == s.out.accepted
    ensures forall i, j | 0 <= i < j < |s.exits| :: s.exits[i] != s.exits[j]
    ensures forall x | x in s.exits :: x in s.calls && LevelOf(s.calls[x]) == Some(FATAL)
  {
    hide Inv, Run;
    ReachableInv(s);
    ReachableExitInv(s);
    if t in s.exits { DrainedBeforeExit(s, t); }
  }

  lemma ReachableExitInv(s: State)
    requires Reachable(s)
    ensures ExitInv(s)
  {
    var bufferSize, destIsSyncer, period, acts :| Run(Init(bufferSize, destIsSyncer, period), acts, s);
    ExitInvRun(Init(bufferSize, destIsSyncer, period), acts, s);
  }

  lemma DrainedBeforeExit(s: State, t: Tid)
    requires Inv(s) && t in s.calls && HasExited(s.calls[t])
    ensures s.out.once == A.Finished && s.out.delivered == s.out.accepted
  {
    assert CallInv(s, t);
    assert s.out.delivered + [] + [] == s.out.delivered;
  }

  // ---- what becomes of the lines

  /** How many passages through the writer had the given outcome. */
  function Outcomes(sections: seq<Section>, outcome: Outcome): nat {
    if sections == [] then 0 else
      Outcomes(sections[..|sections| - 1], outcome) + if sections[|sections| - 1].outcome == outcome then 1 else 0
  }

  predicate CountsInv(s: State) {
    && s.out.rejected == Outcomes(s.sections, Rejected)
    && s.out.dropCnt + |A.Dropping(s.out)| == Outcomes(s.sections, Dropped)
  }

  lemma CountsInvStep(s: State, a: Action)
    requires CountsInv(s) && Enabled(s, a)
    ensures CountsInv(Step(s, a))
  {
    hide A.Step, A.Enabled, N.Step, N.Enabled;
    OutStepsOnly(s, a);
    match OutAction(s, a)
    case None =>
    case Some(b) =>
      A.CountsStep(s.out, b);
      if a.SelectOut? { assert Step(s, a).sections[..|s.sections|] == s.sections; }
  }

  lemma {:induction false} CountsInvRun(s: State, acts: seq<Action>, s': State)
    requires CountsInv(s) && Run(s, acts, s')
    ensures CountsInv(s')
    decreases |acts|
  {
    if acts != [] {
      CountsInvStep(s, acts[0]);
      CountsInvRun(Step(s, acts[0]), acts[1..], s');
    }
  }

  /** The writer's counters tell what happened to the lines: rejected lines are those written after Close, and the drop
      counter, but for a call that has yet to count itself, is the number of lines that found the channel full. */
  lemma CountersTell(s: State)
    requires Reachable(s)
    ensures s.out.rejected == Outcomes(s.sections, Rejected)
    ensures s.out.dropCnt + |A.Dropping(s.out)| == Outcomes(s.sections, Dropped)
  {
    var bufferSize, destIsSyncer, period, acts :| Run(Init(bufferSize, destIsSyncer, period), acts, s);
    assert A.Dropping(Init(bufferSize, destIsSyncer, period).out) == {};
    CountsInvRun(Init(bufferSize, destIsSyncer, period), acts, s);
  }

  // ---- the writer the logger was made over

  lemma {:induction false} WriterFixed(s: State, acts: seq<Action>, s': State)
    requires Run(s, acts, s')
    ensures s'.out.cap == s.out.cap && s'.out.destIsSyncer == s.out.destIsSyncer
    decreases |acts|
  {
    hide Step, Enabled;
    if acts != [] {
      OutStepsOnly(s, acts[0]);
      var b := OutAction(s, acts[0]);
      if b.Some? { A.GrowsStep(s.out, b.value); }
      WriterFixed(Step(s, acts[0]), acts[1..], s');
    }
  }

  /** A line at its select meets a closed channel, a full one or one with room for it, by the size the writer was made with;
      and the shutdown by Sync or FATAL syncs the destination exactly if it can be synced. */
  lemma LinesMeetTheWriter(bufferSize: int, destIsSyncer: bool, period: Option<int>, acts: seq<Action>, s: State, t: Tid)
    requires Run(Init(bufferSize, destIsSyncer, period), acts, s) && t in s.calls
    ensures Enabled(s, SelectOut(t)) ==>
              var line, size, s' := s.calls[t].line, if bufferSize > 0 then bufferSize else 4096, Step(s, SelectOut(t));
              && s'.sections == s.sections + [Section(t, s.calls[t].level, line,
                                                      if s.out.closed then Rejected
                                                      else if |s.out.queue| < size then Accepted else Dropped)]
              && s'.out.queue == s.out.queue + if !s.out.closed && |s.out.queue| < size then [line] else []
    ensures s.calls[t] in [SyncDone, LogDone(FATAL, Completed)] ==> s.out.destSyncs == if destIsSyncer then 1 else 0
  {
    hide Step, Enabled, Run;
    InvRun(Init(bufferSize, destIsSyncer, period), acts, s);
    WriterFixed(Init(bufferSize, destIsSyncer, period), acts, s);
    assert CallInv(s, t);
    if Enabled(s, SelectOut(t)) { SelectMeets(s, t); }
  }

  lemma SelectMeets(s: State, t: Tid)
    requires Inv(s) && Enabled(s, SelectOut(t))
    ensures t in s.calls && s.calls[t].Writing?
    ensures var line, s' := s.calls[t].line, Step(s, SelectOut(t));
            && s'.sections == s.sections + [Section(t, s.calls[t].level, line,
                                                    if s.out.closed then Rejected
                                                    else if |s.out.queue| < s.out.cap then Accepted else Dropped)]
            && s'.out.queue == s.out.queue + if !s.out.closed && |s.out.queue| < s.out.cap then [line] else []
  {
    assert CallInv(s, t);
  }

  // ---- shutdown

  /** The calls that are past the closed check and have not reached their select. */
  predicate MayWrite(pc: Pc) {
    pc.Gating? || pc.Sampling? || pc.Ticketed? || pc.Filtering? || pc.Assembled? || pc.Writing?
  }

  function InFlight(s: State): set<Tid> {
    set t | t in s.calls && MayWrite(s.calls[t])
  }

  /** After Sync's store no call joins the ones in flight, and a call leaves them when it writes. */
  lemma ClosedStep(s: State, a: Action)
    requires s.closed && Enabled(s, a)
    ensures var s' := Step(s, a);
            && s'.closed
            && InFlight(s') <= InFlight(s)
            && (s'.sections == s.sections
                || (a.SelectOut? && a.t in InFlight(s) - InFlight(s')
                    && |s'.sections| == |s.sections| + 1 && s'.sections[..|s.sections|] == s.sections
                    && s'.sections[|s.sections|].t == a.t))
  {
    hide A.Step, A.Enabled, N.Step, N.Enabled;
  }

  /** The sections added by a run that starts after Sync's store. */
  function Added(s: State, s': State): seq<Section>
    requires |s.sections| <= |s'.sections|
  {
    s'.sections[|s.sections|..]
  }

  /**
   After Sync's store, every line written comes from a call that had already passed its closed check, each such call
   writes at most one line, and so there are at most as many lines as such calls.
   */
  lemma {:induction false} LateLines(s: State, acts: seq<Action>, s': State)
    requires s.closed && Run(s, acts, s')
    ensures s'.closed && s.sections <= s'.sections && InFlight(s') <= InFlight(s)
    ensures forall c | c in Added(s, s') :: c.t in InFlight(s) - InFlight(s')
    ensures |Added(s, s')| + |InFlight(s')| <= |InFlight(s)|
    decreases |acts|
  {
    if acts != [] {
      var m := Step(s, acts[0]);
      ClosedStep(s, acts[0]);
      LateLines(m, acts[1..], s');
      LateStep(s, m, s');
    }
  }

  lemma LateStep(s: State, m: State, s': State)
    requires s.sections <= m.sections <= s'.sections && InFlight(s') <= InFlight(m) <= InFlight(s)
    requires forall c | c in Added(m, s') :: c.t in InFlight(m) - InFlight(s')
    requires |Added(m, s')| + |InFlight(s')| <= |InFlight(m)|
    requires m.sections == s.sections || (|m.sections| == |s.sections| + 1 && m.sections[|s.sections|].t in InFlight(s) - InFlight(m))
    ensures forall c | c in Added(s, s') :: c.t in InFlight(s) - InFlight(s')
    ensures |Added(s, s')| + |InFlight(s')| <= |InFlight(s)|
  {
    if m.sections != s.sections {
      assert Added(s, s') == [m.sections[|s.sections|]] + Added(m, s');
      var t := m.sections[|s.sections|].t;
      Smaller(InFlight(m), InFlight(s), t);
    } else {
      Subset(InFlight(m), InFlight(s));
    }
  }

  lemma Subset(a: set<Tid>, b: set<Tid>)
    requires a <= b
    ensures |a| <= |b|
  {
    assert b == a + (b - a);
  }

  lemma Smaller(a: set<Tid>, b: set<Tid>, t: Tid)
    requires a <= b && t in b - a
    ensures |a| < |b|
  {
    Subset(a, b - {t});
  }

  /** A log call that makes its closed check after Sync's store never writes. */
  lemma LateCallNeverWrites(s: State, acts: seq<Action>, s': State, t: Tid)
    requires s.closed && Run(s, acts, s')
    requires t in s.calls ==> s.calls[t].Checking?
    ensures s.sections <= s'.sections && forall c | c in Added(s, s') :: c.t != t
  {
    LateLines(s, acts, s');
  }

  /** Once some Logger.Sync has returned, the destination holds every accepted line and never changes again, whatever
      calls are still racing. */
  lemma SyncFreezesDestination(s: State, t: Tid, acts: seq<Action>, s': State)
    requires Reachable(s) && t in s.calls && s.calls[t] == SyncDone && Run(s, acts, s')
    ensures s.out.delivered == AcceptedLines(s.sections)
    ensures s'.out.delivered == s.out.delivered && AcceptedLines(s'.sections) == AcceptedLines(s.sections)
  {
    ReachableInv(s);
    assert CallInv(s, t);
    FrozenRun(s, acts, s');
    InvRun(s, acts, s');
    assert s.out.delivered + [] + [] == s.out.delivered;
  }

  lemma {:induction false} FrozenRun(s: State, acts: seq<Action>, s': State)
    requires Inv(s) && s.out.once == A.Finished && Run(s, acts, s')
    ensures s'.out.delivered == s.out.delivered && s'.out.accepted == s.out.accepted
    decreases |acts|
  {
    if acts != [] {
      var m := Step(s, acts[0]);
      InvStep(s, acts[0]);
      OutInvStep(s, acts[0]);
      OutStepsOnly(s, acts[0]);
      match OutAction(s, acts[0]) {
        case None =>
        case Some(b) =>
          assert A.Run(m.out, [], m.out);
          A.FinishedFreezes(s.out, [b], m.out);
      }
      FrozenRun(m, acts[1..], s');
    }
  }

  /** Mutual exclusion, in every reachable state. */
  lemma OneWriterAtATime(s: State, t: Tid, u: Tid)
    requires Reachable(s) && t in s.calls && u in s.calls && HoldsMutex(s.calls[t]) && HoldsMutex(s.calls[u])
    ensures t == u
  {
    ReachableInv(s);
  }

  /** The destination receives lines in mutex order, at every moment of every run. */
  lemma MutexOrder(s: State)
    requires Reachable(s)
    ensures s.out.delivered <= AcceptedLines(s.sections)
    ensures |AcceptedLines(s.sections)| - |s.out.delivered| <= s.out.cap + 1
  {
    ReachableInv(s);
  }

  // ---- the sampler in front of the lock

  /** The level of a log call. */
  function LevelOf(pc: Pc): Option<Level> {
    match pc
    case Checking(l, _) => Some(l)
    case Gating(l, _) => Some(l)
    case Sampling(l, _) => Some(l)
    case Ticketed(l, _) => Some(l)
    case Filtering(l, _) => Some(l)
    case Assembled(l, _) => Some(l)
    case Writing(l, _) => Some(l)
    case Returning(l, _) => Some(l)
    case Flushing(_) => Some(FATAL)
    case Exiting(_) => Some(FATAL)
    case Leaving(l) => Some(l)
    case LogDone(l, _) => Some(l)
    case _ => None
  }

  /** The call got past the sampler, or had no need to ask it. */
  predicate WentOn(pc: Pc) {
    || pc.Filtering? || pc.Assembled? || pc.Writing? || pc.Returning? || pc.Flushing? || pc.Exiting? || pc.Leaving?
    || (pc.LogDone? && (pc.why == DroppedByMiddleware || pc.why == Completed))
  }

  predicate AtSampler(pc: Pc) {
    pc.Sampling? || pc.Ticketed? || (pc.LogDone? && pc.why == SampledOut)
  }

  /** What the sampler knows of a call that stands at `pc`. */
  predicate SamplerKnows(n: N.State, t: Tid, pc: Pc) {
    && (AtSampler(pc) ==> TRACE <= LevelOf(pc).value < ERROR)
    && (WentOn(pc) && LevelOf(pc).value < ERROR ==> t in n.verdicts && n.verdicts[t])
    && (pc.LogDone? && pc.why == SampledOut ==> t in n.verdicts && !n.verdicts[t])
    && (pc.Ticketed? ==> t in n.tickets && t !in n.verdicts)
    && (t in n.tickets ==> pc.Ticketed? || ((WentOn(pc) || AtSampler(pc)) && !pc.Sampling? && LevelOf(pc).value < ERROR))
  }

  predicate SamplerInv(s: State) {
    if s.sampler.None? then forall t | t in s.calls :: !AtSampler(s.calls[t]) else
      var n := s.sampler.value;
      && N.WellFormed(n) && n.counts[ERROR] == 0 && n.counts[FATAL] == 0
      && (forall t | t in n.verdicts :: t in n.tickets)
      && (forall t | t in n.tickets :: t in s.calls)
      && (forall c | c in n.adds :: c.t in n.tickets && LevelOf(s.calls[c.t]) == Some(c.level))
      && (forall t | t in s.calls :: SamplerKnows(n, t, s.calls[t]))
      && (forall t | t in s.calls && LevelOf(s.calls[t]).Some? :: TRACE <= LevelOf(s.calls[t]).value <= FATAL)
  }

  lemma SamplerInvStep(s: State, a: Action)
    requires SamplerInv(s) && Enabled(s, a)
    ensures SamplerInv(Step(s, a))
  {
    if a.Sample? { TicketTaken(s, a.t); } else if a.Decide? { VerdictGiven(s, a.t); } else { SamplerUntouched(s, a); }
  }

  /** The sampler's step for one call tells it nothing about another. */
  lemma OthersAsKnown(n: N.State, b: N.Action, t: Tid, u: Tid, pc: Pc)
    requires N.WellFormed(n) && N.Enabled(n, b) && b.t == t && u != t && SamplerKnows(n, u, pc)
    ensures SamplerKnows(N.Step(n, b), u, pc)
  {
  }

  lemma TicketTaken(s: State, t: Tid)
    requires SamplerInv(s) && Enabled(s, Sample(t))
    ensures SamplerInv(Step(s, Sample(t)))
  {
    var s', n := Step(s, Sample(t)), s.sampler.value;
    var b := N.Add(t, s.calls[t].level);
    assert SamplerKnows(n, t, s.calls[t]);
    forall u | u in s'.calls ensures SamplerKnows(s'.sampler.value, u, s'.calls[u]) {
      if u != t { OthersAsKnown(n, b, t, u, s.calls[u]); }
    }
  }

  lemma VerdictIsKnown(n: N.State, t: Tid, pc: Pc)
    requires N.WellFormed(n) && N.Enabled(n, N.Return(t)) && pc.Ticketed? && SamplerKnows(n, t, pc)
    ensures var n' := N.Step(n, N.Return(t));
            SamplerKnows(n', t, if n'.verdicts[t] then Filtering(pc.level, pc.line) else LogDone(pc.level, SampledOut))
  {
  }

  lemma VerdictGiven(s: State, t: Tid)
    requires SamplerInv(s) && Enabled(s, Decide(t))
    ensures SamplerInv(Step(s, Decide(t)))
  {
    var s', n := Step(s, Decide(t)), s.sampler.value;
    VerdictIsKnown(n, t, s.calls[t]);
    assert LevelOf(s'.calls[t]) == LevelOf(s.calls[t]);
    forall u | u in s'.calls ensures SamplerKnows(s'.sampler.value, u, s'.calls[u]) {
      if u != t { OthersAsKnown(n, N.Return(t), t, u, s.calls[u]); }
    }
  }

  lemma SamplerUntouched(s: State, a: Action)
    requires SamplerInv(s) && Enabled(s, a) && !a.Sample? && !a.Decide?
    ensures SamplerInv(Step(s, a))
  {
    hide Step, Enabled, SamplerKnows;
    var s' := Step(s, a);
    KeepsSampler(s, a);
    forall t | t in s'.calls && (a.Drain? || a.t != t) ensures t in s.calls && s'.calls[t] == s.calls[t] {
      StepIsLocal(s, a, t);
    }
    forall t | t in s.calls ensures t in s'.calls {
      if a.Drain? || a.t != t { StepIsLocal(s, a, t); }
    }
    if !a.Drain? && a.t in s'.calls {
      if s.sampler.None? { OwnPcWithout(s, a); } else { OwnPcKnown(s, a); }
    }
  }

  lemma KeepsSampler(s: State, a: Action)
    requires Enabled(s, a) && !a.Sample? && !a.Decide?
    ensures Step(s, a).sampler == s.sampler
    ensures !a.Drain? && a.t in s.calls ==> a.t in Step(s, a).calls
  {
    hide A.Step, A.Enabled, N.Step, N.Enabled;
  }

  lemma OwnPcWithout(s: State, a: Action)
    requires SamplerInv(s) && s.sampler.None? && Enabled(s, a) && !a.Drain? && a.t in Step(s, a).calls
    ensures !AtSampler(Step(s, a).calls[a.t])
  {
  }

  /** What a step that leaves the sampler alone has to keep true of the acting call. */
  ghost predicate StaysKnown(s: State, a: Action) {
    s.sampler.Some? && Enabled(s, a) && !a.Drain? && a.t in Step(s, a).calls &&
    var pc := Step(s, a).calls[a.t];
    && SamplerKnows(s.sampler.value, a.t, pc)
    && (LevelOf(pc).Some? ==> TRACE <= LevelOf(pc).value <= FATAL)
    && (a.t in s.calls && LevelOf(s.calls[a.t]).Some? ==> LevelOf(pc) == LevelOf(s.calls[a.t]))
  }

  lemma OwnPcKnown(s: State, a: Action)
    requires SamplerInv(s) && s.sampler.Some? && Enabled(s, a) && !a.Sample? && !a.Decide? && !a.Drain? && a.t in Step(s, a).calls
    ensures StaysKnown(s, a)
  {
    if a.t in s.calls { assert SamplerKnows(s.sampler.value, a.t, s.calls[a.t]); }
    if a.BeginLog? || a.BeginSync? { BeginIsKnown(s, a); }
    else if BeforeLock(a) { EarlyStepIsKnown(s, a); }
    else if IsLater(a) { LaterStepIsKnown(s, a); }
  }

  predicate BeforeLock(a: Action) {
    a.Check? || a.Gate? || a.Filter? || a.Store?
  }

  lemma BeginIsKnown(s: State, a: Action)
    requires SamplerInv(s) && s.sampler.Some? && Enabled(s, a) && (a.BeginLog? || a.BeginSync?)
    ensures StaysKnown(s, a)
  {
    hide A.Step, A.Enabled, N.Step, N.Enabled;
  }

  lemma EarlyStepIsKnown(s: State, a: Action)
    requires s.sampler.Some? && Enabled(s, a) && BeforeLock(a)
    requires SamplerKnows(s.sampler.value, a.t, s.calls[a.t])
    requires LevelOf(s.calls[a.t]).Some? ==> TRACE <= LevelOf(s.calls[a.t]).value <= FATAL
    ensures StaysKnown(s, a)
  {
    hide A.Step, A.Enabled, N.Step, N.Enabled;
  }

  lemma LaterStepIsKnown(s: State, a: Action)
    requires s.sampler.Some? && Enabled(s, a) && IsLater(a) && a.t in s.calls
    requires SamplerKnows(s.sampler.value, a.t, s.calls[a.t])
    requires LevelOf(s.calls[a.t]).Some? ==> TRACE <= LevelOf(s.calls[a.t]).value <= FATAL
    ensures StaysKnown(s, a)
  {
    LaterStepShape(s, a);
    AlikeIsKnown(s.sampler.value, a.t, s.calls[a.t], Step(s, a).calls[a.t]);
  }

  predicate IsLater(a: Action) {
    a.Lock? || a.LockSync? || a.SelectOut? || a.Hooks? || a.Finish? || a.Exit? || a.Unlock? || a.LockSync? || a.OutStep?
  }

  /** Both past the sampler at the same level, or neither a log call. */
  predicate Alike(pc: Pc, pc': Pc) {
    pc' == pc || (WentOn(pc) && WentOn(pc') && LevelOf(pc') == LevelOf(pc)) || (LevelOf(pc) == LevelOf(pc') == None)
  }

  lemma LaterStepShape(s: State, a: Action)
    requires Enabled(s, a) && IsLater(a)
    ensures a.t in s.calls && a.t in Step(s, a).calls && Alike(s.calls[a.t], Step(s, a).calls[a.t])
  {
    hide A.Step, A.Enabled, N.Step, N.Enabled;
  }

  lemma AlikeIsKnown(n: N.State, t: Tid, pc: Pc, pc': Pc)
    requires SamplerKnows(n, t, pc) && Alike(pc, pc')
    ensures SamplerKnows(n, t, pc')
  {
  }

  lemma {:induction false} SamplerInvRun(s: State, acts: seq<Action>, s': State)
    requires SamplerInv(s) && Run(s, acts, s')
    ensures SamplerInv(s')
    decreases |acts|
  {
    if acts != [] {
      SamplerInvStep(s, acts[0]);
      SamplerInvRun(Step(s, acts[0]), acts[1..], s');
    }
  }

  lemma ReachableSamplerInv(s: State)
    requires Reachable(s)
    ensures SamplerInv(s)
  {
    var bufferSize, destIsSyncer, period, acts :| Run(Init(bufferSize, destIsSyncer, period), acts, s);
    SamplerInvRun(Init(bufferSize, destIsSyncer, period), acts, s);
  }

  /**
   Sampling never costs an ERROR or FATAL entry, in any run: such calls take no ticket, so the counters of the two levels
   stay at zero, and one that has ended did so because the logger was closed, the minimum was higher or the middleware
   dropped it, or it completed. A call below ERROR, in contrast, is past the sampler only with a ticket it admitted.
   */
  lemma SamplerSparesErrors(s: State, t: Tid)
    requires Reachable(s) && t in s.calls && LevelOf(s.calls[t]).Some?
    ensures LevelOf(s.calls[t]).value >= ERROR ==> !AtSampler(s.calls[t])
    ensures s.sampler.Some? ==>
              && N.WellFormed(s.sampler.value) && s.sampler.value.counts[ERROR] == s.sampler.value.counts[FATAL] == 0
              && (LevelOf(s.calls[t]).value >= ERROR ==> t !in s.sampler.value.tickets)
              && (LevelOf(s.calls[t]).value < ERROR && WentOn(s.calls[t]) ==>
                    t in s.sampler.value.verdicts && s.sampler.value.verdicts[t])
  {
    ReachableSamplerInv(s);
    if s.sampler.Some? { assert SamplerKnows(s.sampler.value, t, s.calls[t]); }
  }

  /** A call at the sampler is never stuck there. */
  lemma SamplerNeverBlocks(s: State, t: Tid)
    requires Reachable(s) && t in s.calls
    ensures s.calls[t].Sampling? ==> Enabled(s, Sample(t))
    ensures s.calls[t].Ticketed? ==> Enabled(s, Decide(t))
  {
    ReachableSamplerInv(s);
    if s.sampler.Some? { assert SamplerKnows(s.sampler.value, t, s.calls[t]); }
  }

  /** What the logger does is, for the sampler, a run of its own. */
  lemma {:induction false} SamplerRun(s: State, acts: seq<Action>, s': State) returns (its: seq<N.Action>)
    requires Run(s, acts, s') && s.sampler.Some? && N.WellFormed(s.sampler.value)
    ensures s'.sampler.Some? && N.Run(s.sampler.value, its, s'.sampler.value)
    decreases |acts|
  {
    if acts == [] {
      its := [];
    } else {
      var a, m := acts[0], Step(s, acts[0]);
      if a.Sample? || a.Decide? {
        var b := if a.Sample? then N.Add(a.t, s.calls[a.t].level) else N.Return(a.t);
        var rest := SamplerRun(m, acts[1..], s');
        its := [b] + rest;
        assert its[1..] == rest;
      } else {
        KeepsSampler(s, a);
        its := SamplerRun(m, acts[1..], s');
      }
    }
  }

  /** How many of the calls that took a ticket at `level` went on to the lock or the middleware. */
  function Continuing(adds: seq<N.Call>, calls: map<Tid, Pc>, level: Level): nat {
    if adds == [] then 0 else
      var last := adds[|adds| - 1];
      Continuing(adds[..|adds| - 1], calls, level) +
      if last.level == level && last.t in calls && WentOn(calls[last.t]) then 1 else 0
  }

  lemma {:induction false} ContinuingAreAdmitted(adds: seq<N.Call>, n: N.State, calls: map<Tid, Pc>, level: Level)
    requires forall c | c in adds :: c.t in calls && c.t in n.verdicts && (WentOn(calls[c.t]) <==> n.verdicts[c.t])
    ensures Continuing(adds, calls, level) == N.Admitted(adds, n.verdicts, level)
  {
    if adds != [] {
      assert adds[|adds| - 1] in adds;
      ContinuingAreAdmitted(adds[..|adds| - 1], n, calls, level);
    }
  }

  /** When no call is inside Sample, every ticket has its verdict and every call acted on it. */
  lemma TicketsUsed(s: State)
    requires SamplerInv(s) && s.sampler.Some? && forall t | t in s.calls :: !s.calls[t].Ticketed?
    ensures var n := s.sampler.value;
            && (forall t | t in n.tickets :: t in n.verdicts)
            && forall c | c in n.adds ::
                 && c.t in s.calls && LevelOf(s.calls[c.t]) == Some(c.level)
                 && c.t in n.verdicts && (WentOn(s.calls[c.t]) <==> n.verdicts[c.t])
                 && (WentOn(s.calls[c.t]) || s.calls[c.t] == LogDone(c.level, SampledOut))
  {
    var n := s.sampler.value;
    forall t | t in n.tickets
      ensures t in n.verdicts && (WentOn(s.calls[t]) <==> n.verdicts[t])
      ensures WentOn(s.calls[t]) || (s.calls[t].LogDone? && s.calls[t].why == SampledOut)
    {
      assert SamplerKnows(n, t, s.calls[t]);
    }
  }

  /**
   The every-N sampler behind the gate, in any interleaving with everything else: once no call is inside Sample, of the k
   calls of a level that reached the sampler exactly ceil(k / n) went on, and every other one ended there.
   */
  lemma SampledShare(s: State, bufferSize: int, destIsSyncer: bool, period: int, acts: seq<Action>, level: Level)
    requires Run(Init(bufferSize, destIsSyncer, Some(period)), acts, s)
    requires s.sampler.Some? ==> |s.sampler.value.adds| < 0x8000_0000_0000_0000
    requires forall t | t in s.calls :: !s.calls[t].Ticketed?
    ensures s.sampler.Some?
    ensures var n := s.sampler.value;
            && n.n == (if period <= 0 then 1 else period)
            && Continuing(n.adds, s.calls, level) == (N.CallsAt(n.adds, level) + n.n - 1) / n.n
            && forall c | c in n.adds ::
                 c.t in s.calls && LevelOf(s.calls[c.t]) == Some(c.level)
                 && (WentOn(s.calls[c.t]) || s.calls[c.t] == LogDone(c.level, SampledOut))
  {
    var s0 := Init(bufferSize, destIsSyncer, Some(period));
    var its := SamplerRun(s0, acts, s);
    SamplerInvRun(s0, acts, s);
    TicketsUsed(s);
    N.EveryNExact(period, its, s.sampler.value, level);
    ContinuingAreAdmitted(s.sampler.value.adds, s.sampler.value, s.calls, level);
  }

  // ---- no call is stuck

  /** The next step of call `t` itself is possible. */
  ghost predicate CanMove(s: State, t: Tid) {
    t in s.calls &&
    match s.calls[t]
    case Checking(_, _) => Enabled(s, Check(t))
    case Gating(_, _) => forall m :: Enabled(s, Gate(t, m))
    case Sampling(_, _) => Enabled(s, Sample(t))
    case Ticketed(_, _) => Enabled(s, Decide(t))
    case Filtering(_, _) => Enabled(s, Filter(t, true)) && Enabled(s, Filter(t, false))
    case Assembled(_, _) => Enabled(s, Lock(t))
    case Writing(_, _) => Enabled(s, SelectOut(t))
    case Returning(_, _) => Enabled(s, Hooks(t)) || Enabled(s, OutStep(t, A.CountDrop(t)))
    case Flushing(_) => Enabled(s, Finish(t)) || exists b :: Enabled(s, OutStep(t, b))
    case Exiting(_) => Enabled(s, Exit(t))
    case Leaving(_) => Enabled(s, Unlock(t))
    case LogDone(_, _) => true
    case Storing => Enabled(s, Store(t))
    case Locking => Enabled(s, LockSync(t))
    case Syncing => Enabled(s, Finish(t)) || exists b :: Enabled(s, OutStep(t, b))
    case SyncLeaving => Enabled(s, Unlock(t))
    case SyncDone => true
  }

  /**
   In every reachable state each call can move, or waits for the mutex that another call holds, or waits inside Close for
   the drain goroutine or for a Close called by other code, which can then move. The holder of the mutex is never one that
   waits for it.
   */
  lemma NoCallIsStuck(s: State, t: Tid)
    requires Reachable(s) && t in s.calls
    ensures CanMove(s, t)
            || ((s.calls[t].Assembled? || s.calls[t].Locking?) && s.mutex.Some? && s.mutex != Some(t))
            || (InCloseOf(s, t) && exists a: Action :: (a.Drain? || a.Direct?) && Enabled(s, a))
  {
    hide Inv, SamplerInv, CanMove, Enabled;
    ReachableInv(s);
    if InCloseOf(s, t) { CloseMoves(s, t); }
    else if s.calls[t].Sampling? || s.calls[t].Ticketed? { SamplerMoves(s, t); }
    else { OutsideMoves(s, t); }
  }

  lemma SamplerMoves(s: State, t: Tid)
    requires Reachable(s) && t in s.calls && (s.calls[t].Sampling? || s.calls[t].Ticketed?)
    ensures CanMove(s, t)
  {
    SamplerNeverBlocks(s, t);
  }

  lemma OutsideMoves(s: State, t: Tid)
    requires Inv(s) && t in s.calls && !s.calls[t].Sampling? && !s.calls[t].Ticketed? && !InCloseOf(s, t)
    ensures CanMove(s, t) || ((s.calls[t].Assembled? || s.calls[t].Locking?) && s.mutex.Some? && s.mutex != Some(t))
  {
    hide A.Inv, A.Step, N.Enabled;
    assert CallInv(s, t);
  }

  predicate InCloseOf(s: State, t: Tid) {
    t in s.calls && (s.calls[t].Flushing? || s.calls[t].Syncing?)
  }

  /** The action with which a call goes on inside Close. */
  function CloseAction(pc: A.Pc, t: Tid): A.Action {
    match pc
    case AtOnce => A.EnterOnce(t)
    case ClosingChan => A.CloseChan(t)
    case AwaitingDone => A.SeeDone(t)
    case SyncingDest => A.SyncDest(t)
    case LeavingOnce => A.LeaveOnce(t)
    case _ => A.PassOnce(t)
  }

  lemma CloseMoves(s: State, t: Tid)
    requires Inv(s) && InCloseOf(s, t)
    ensures CanMove(s, t) || exists a: Action :: (a.Drain? || a.Direct?) && Enabled(s, a)
  {
    hide A.Inv, A.Step, MutexInv;
    assert CallInv(s, t);
    A.CallsMove(s.out, t);
    var pc := s.out.calls[t];
    if A.CanMove(s.out, t) {
      if pc != A.CloseReturned { assert Enabled(s, OutStep(t, CloseAction(pc, t))); }
    } else if b :| A.IsDrainAction(b) && A.Enabled(s.out, b) {
      assert Enabled(s, Drain(b));
    } else {
      OwnerIsOutside(s, t, s.out.once.owner);
    }
  }

  /** The call that runs the once body while `t` waits for it is no call of the logger. */
  lemma OwnerIsOutside(s: State, t: Tid, o: Tid)
    requires Inv(s) && InCloseOf(s, t) && s.out.once == A.Running(o) && o != t && A.CanMove(s.out, o)
    ensures exists a: Action :: a.Direct? && Enabled(s, a)
  {
    assert A.FlagsInv(s.out) && CallInv(s, t);
    assert o in s.calls ==> CallInv(s, o);
    assert o !in s.calls;
    assert Enabled(s, Direct(o, CloseAction(s.out.calls[o], o)));
  }

  // ---- the middleware and the lock

  /** The middleware is documented to run under the logger's mutex; no call ever holds the mutex when it runs it. */
  lemma MiddlewareOutsideLock(s: State, t: Tid, kept: bool)
    requires Reachable(s) && Enabled(s, Filter(t, kept))
    ensures s.mutex != Some(t)
  {
    ReachableInv(s);
  }

  lemma OneMore(s: State, acts: seq<Action>, m: State, a: Action) returns (more: seq<Action>, s': State)
    requires Run(s, acts, m) && Enabled(m, a)
    ensures Run(s, more, s') && s' == Step(m, a)
    decreases |acts|
  {
    s' := Step(m, a);
    if acts == [] {
      more := [a];
      assert more[1..] == [];
    } else {
      var rest;
      rest, s' := OneMore(Step(s, acts[0]), acts[1..], m, a);
      more := [acts[0]] + rest;
      assert more[1..] == rest;
    }
  }

  /** Call `t` logs at INFO and gets as far as the middleware. */
  lemma ToMiddleware(s: State, acts: seq<Action>, m: State, t: Tid) returns (more: seq<Action>, s': State)
    requires Run(s, acts, m) && !m.closed && m.sampler.None? && t !in m.calls && t !in m.out.calls
    ensures Run(s, more, s') && s' == m.(calls := m.calls[t := Filtering(INFO, [])])
  {
    more, s' := OneMore(s, acts, m, BeginLog(t, INFO, []));
    more, s' := OneMore(s, more, s', Check(t));
    more, s' := OneMore(s, more, s', Gate(t, TRACE));
    assert s'.calls == m.calls[t := Filtering(INFO, [])];
  }

  /** Two calls can be in the middleware at once, while a third holds the mutex. */
  lemma MiddlewareRunsConcurrently() returns (s: State)
    ensures Reachable(s) && s.mutex == Some(3) && {1, 2} <= s.calls.Keys
    ensures s.calls[1].Filtering? && s.calls[2].Filtering?
  {
    var s0 := Init(1, true, None);
    var acts: seq<Action> := [];
    acts, s := ToMiddleware(s0, acts, s0, 1);
    acts, s := ToMiddleware(s0, acts, s, 2);
    acts, s := ToMiddleware(s0, acts, s, 3);
    acts, s := OneMore(s0, acts, s, Filter(3, true));
    acts, s := OneMore(s0, acts, s, Lock(3));
  }

  /** A whole life: for every buffer size, destination and line, a FATAL call alone is delivered and exits the program. */
  lemma OneFatalCall(bufferSize: int, destIsSyncer: bool, line: bytes) returns (acts: seq<Action>, s: State)
    ensures Run(Init(bufferSize, destIsSyncer, None), acts, s)
    ensures s.out.delivered == [line] && s.exits == [1] && s.mutex == None
    ensures 1 in s.calls && s.calls[1] == LogDone(FATAL, Completed)
  {
    hide Run;
    var s0 := Init(bufferSize, destIsSyncer, None);
    acts, s := [], s0;
    RunNothing(s0);
    acts, s := FatalWrites(s0, acts, s, line);
    acts, s := FatalCloses(s0, acts, s);
    acts, s := FatalDrains(s0, acts, s);
    acts, s := FatalLeaves(s0, acts, s);
  }

  lemma RunNothing(s: State)
    ensures Run(s, [], s)
  {
  }

  lemma FatalWrites(s0: State, acts: seq<Action>, m: State, line: bytes) returns (more: seq<Action>, s: State)
    requires Run(s0, acts, m) && !m.closed && m.mutex == None && m.sampler == None && m.calls == map[] && m.out.calls == map[]
    requires !m.out.closed && m.out.queue == [] && m.out.cap > 0
    ensures Run(s0, more, s) && s.mutex == Some(1) && s.calls == map[1 := Returning(FATAL, line)] && s.exits == m.exits
    ensures s.out == m.out.(queue := [line], accepted := m.out.accepted + [line], completed := m.out.completed + 1,
                            calls := map[1 := A.WriteReturned(|line|, None)])
  {
    hide Run;
    more, s := FatalAssembles(s0, acts, m, line);
    more, s := OneMore(s0, more, s, Lock(1));
    more, s := OneMore(s0, more, s, SelectOut(1));
    assert s.calls == map[1 := Returning(FATAL, line)];
    assert s.out.calls == map[1 := A.WriteReturned(|line|, None)];
  }

  lemma FatalAssembles(s0: State, acts: seq<Action>, m: State, line: bytes) returns (more: seq<Action>, s: State)
    requires Run(s0, acts, m) && !m.closed && m.sampler == None && m.calls == map[] && m.out.calls == map[]
    ensures Run(s0, more, s) && s == m.(calls := map[1 := Assembled(FATAL, line)])
  {
    hide Run, A.Step, A.Enabled, N.Step, N.Enabled;
    more, s := OneMore(s0, acts, m, BeginLog(1, FATAL, line));
    more, s := OneMore(s0, more, s, Check(1));
    more, s := OneMore(s0, more, s, Gate(1, TRACE));
    more, s := OneMore(s0, more, s, Filter(1, true));
    assert s.calls == map[1 := Assembled(FATAL, line)];
  }

  /** Call 1 holds the mutex alone, with its flush at `pc` of the writer's Close. */
  predicate FlushAt(s: State, pc: A.Pc) {
    s.mutex == Some(1) && s.calls.Keys == {1} && s.calls[1].Flushing? && s.out.calls == map[1 := pc]
  }

  lemma FatalCloses(s0: State, acts: seq<Action>, m: State) returns (more: seq<Action>, s: State)
    requires Run(s0, acts, m) && m.mutex == Some(1) && m.calls.Keys == {1} && m.calls[1].Returning? && m.calls[1].level == FATAL
    requires m.out.calls.Keys == {1} && m.out.calls[1].WriteReturned? && m.out.once == A.Fresh
    ensures Run(s0, more, s) && FlushAt(s, A.AwaitingDone) && s.exits == m.exits
    ensures s.out == m.out.(once := A.Running(1), closed := true, calls := s.out.calls)
  {
    hide Run, N.Step, N.Enabled;
    more, s := OneMore(s0, acts, m, Hooks(1));
    more, s := FlushStep(s0, more, s, A.EnterOnce(1));
    more, s := FlushStep(s0, more, s, A.CloseChan(1));
    assert s.out.calls == map[1 := A.AwaitingDone];
  }

  lemma FatalDrains(s0: State, acts: seq<Action>, m: State) returns (more: seq<Action>, s: State)
    requires Run(s0, acts, m) && FlushAt(m, A.AwaitingDone) && m.out.closed && |m.out.queue| == 1 && m.out.drain == A.Receiving
    ensures Run(s0, more, s) && FlushAt(s, A.AwaitingDone) && s.exits == m.exits && s.out.done
    ensures s.out.delivered == m.out.delivered + m.out.queue && s.out.destIsSyncer == m.out.destIsSyncer
  {
    hide Run, N.Step, N.Enabled;
    more, s := DrainOne(s0, acts, m);
    more, s := OneMore(s0, more, s, Drain(A.EndRange));
    more, s := OneMore(s0, more, s, Drain(A.CloseDone));
  }

  lemma DrainOne(s0: State, acts: seq<Action>, m: State) returns (more: seq<Action>, s: State)
    requires Run(s0, acts, m) && |m.out.queue| == 1 && m.out.drain == A.Receiving
    ensures Run(s0, more, s) && s == m.(out := m.out.(queue := [], delivered := m.out.delivered + m.out.queue))
  {
    hide Run, N.Step, N.Enabled;
    more, s := OneMore(s0, acts, m, Drain(A.Receive));
    more, s := OneMore(s0, more, s, Drain(A.Deliver));
    assert m.out.queue == [m.out.queue[0]] && m.out.queue[1..] == [];
  }

  lemma FatalLeaves(s0: State, acts: seq<Action>, m: State) returns (more: seq<Action>, s: State)
    requires Run(s0, acts, m) && FlushAt(m, A.AwaitingDone) && m.out.done
    ensures Run(s0, more, s) && s.mutex == None && 1 in s.calls && s.calls[1] == LogDone(FATAL, Completed)
    ensures s.exits == m.exits + [1] && s.out.delivered == m.out.delivered
  {
    hide Run, N.Step, N.Enabled;
    more, s := FatalFlushes(s0, acts, m);
    more, s := OneMore(s0, more, s, Finish(1));
    more, s := OneMore(s0, more, s, Exit(1));
    more, s := OneMore(s0, more, s, Unlock(1));
  }

  /** One step of the flush. */
  lemma FlushStep(s0: State, acts: seq<Action>, m: State, b: A.Action) returns (more: seq<Action>, s: State)
    requires Run(s0, acts, m) && 1 in m.calls && m.calls[1].Flushing? && IsCloseAction(b, 1) && A.Enabled(m.out, b)
    ensures Run(s0, more, s) && s == m.(out := A.Step(m.out, b))
  {
    hide Run, A.Step, A.Enabled, N.Step, N.Enabled;
    more, s := OneMore(s0, acts, m, OutStep(1, b));
  }

  lemma FatalFlushes(s0: State, acts: seq<Action>, m: State) returns (more: seq<Action>, s: State)
    requires Run(s0, acts, m) && FlushAt(m, A.AwaitingDone) && m.out.done
    ensures Run(s0, more, s) && FlushAt(s, A.CloseReturned) && s.exits == m.exits && s.out.delivered == m.out.delivered
  {
    hide Run, Step, Enabled;
    more, s := FlushStep(s0, acts, m, A.SeeDone(1));
    if m.out.destIsSyncer { more, s := FlushStep(s0, more, s, A.SyncDest(1)); }
    more, s := FlushStep(s0, more, s, A.LeaveOnce(1));
    assert s.out.calls == map[1 := A.CloseReturned];
  }
}
