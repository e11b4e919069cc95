/**
 writer_async.go as a step system. Any number of Write and Close (or Sync) calls and the drain goroutine interleave;
 each step is one atomic operation of the Go code.
 */
module AsyncWriter {
  import opened Bytes

  /** The identity of one call in progress. */
  type Tid = nat

  /** The error the package declares for late writes. */
  datatype WriteError = ErrWriterClosed

  /** Where a call stands: the first three are Write, the others Close. */
  datatype Pc =
    | Selecting(msg: bytes)  // the copy is made; the select comes next
    | Counting               // the default branch was taken; dropCnt.Add comes next
    | WriteReturned(n: nat, err: Option<WriteError>)
    | AtOnce                 // before once.Do
    | ClosingChan            // inside once.Do, before close(aw.ch)
    | AwaitingDone           // at <-aw.done
    | SyncingDest            // before dest.Sync
    | LeavingOnce            // the once body has finished
    | WaitingOnce            // blocked in once.Do behind the call that runs the body
    | CloseReturned

  datatype Once = Fresh | Running(owner: Tid) | Finished
  datatype Drain = Receiving | InHand(msg: bytes) | Exiting | Exited

  /**
   `accepted`, `rejected` and `completed` are histories: the messages put on the channel in order, the writes that
   met a closed channel, and the writes that returned. `calls` is the program counter of every call.
   */
  datatype State = State(
    cap: nat, destIsSyncer: bool,
    queue: seq<bytes>, closed: bool, done: bool, once: Once, drain: Drain,
    delivered: seq<bytes>, dropCnt: nat, destSyncs: nat,
    calls: map<Tid, Pc>,
    accepted: seq<bytes>, rejected: nat, completed: nat)

  /** NewAsyncWriter. */
  function Init(bufferSize: int, destIsSyncer: bool): State {
    State(if bufferSize <= 0 then 4096 else bufferSize, destIsSyncer,
          [], false, false, Fresh, Receiving, [], 0, 0, map[], [], 0, 0)
  }

  datatype Action =
    | BeginWrite(t: Tid, msg: bytes)
    | Select(t: Tid)
    | CountDrop(t: Tid)
    | BeginClose(t: Tid)
    | EnterOnce(t: Tid)
    | CloseChan(t: Tid)
    | SeeDone(t: Tid)
    | SyncDest(t: Tid)
    | LeaveOnce(t: Tid)
    | PassOnce(t: Tid)
    | Receive
    | Deliver
    | EndRange
    | CloseDone

  predicate IsDrainAction(a: Action) {
    a.Receive? || a.Deliver? || a.EndRange? || a.CloseDone?
  }

  predicate At(s: State, t: Tid, pc: Pc) {
    t in s.calls && s.calls[t] == pc
  }

  predicate Free(s: State, t: Tid) {
    t in s.calls ==> s.calls[t].WriteReturned? || s.calls[t].CloseReturned?
  }

  predicate Enabled(s: State, a: Action) {
    match a
    case BeginWrite(t, _) => Free(s, t)
    case Select(t) => t in s.calls && s.calls[t].Selecting?
    case CountDrop(t) => At(s, t, Counting)
    case BeginClose(t) => Free(s, t)
    case EnterOnce(t) => At(s, t, AtOnce)
    case CloseChan(t) => At(s, t, ClosingChan)
    case SeeDone(t) => At(s, t, AwaitingDone) && s.done
    case SyncDest(t) => At(s, t, SyncingDest)
    case LeaveOnce(t) => At(s, t, LeavingOnce)
    case PassOnce(t) => At(s, t, WaitingOnce) && s.once == Finished
    case Receive => s.drain == Receiving && s.queue != []
    case Deliver => s.drain.InHand?
    case EndRange => s.drain == Receiving && s.queue == [] && s.closed
    case CloseDone => s.drain == Exiting
  }

  function Goto(s: State, t: Tid, pc: Pc): State {
    s.(calls := s.calls[t := pc])
  }

  /** The select of Write. A send on the closed channel panics; the recovered call returns the zero values of its results. */
  function SelectStep(s: State, t: Tid): State
    requires Enabled(s, Select(t))
  {
    var msg := s.calls[t].msg;
    if s.closed then
      Goto(s, t, WriteReturned(0, None)).(rejected := s.rejected + 1, completed := s.completed + 1)
    else if |s.queue| < s.cap then
      Goto(s, t, WriteReturned(|msg|, None)).(
        queue := s.queue + [msg], accepted := s.accepted + [msg], completed := s.completed + 1)
    else
      Goto(s, t, Counting)
  }

  function Step(s: State, a: Action): State
    requires Enabled(s, a)
  {
    match a
    case BeginWrite(t, msg) => Goto(s, t, Selecting(msg))
    case Select(t) => SelectStep(s, t)
    case CountDrop(t) => Goto(s, t, WriteReturned(0, None)).(dropCnt := s.dropCnt + 1, completed := s.completed + 1)
    case BeginClose(t) => Goto(s, t, AtOnce)
    case EnterOnce(t) =>
      if s.once == Fresh then Goto(s, t, ClosingChan).(once := Running(t))
      else if s.once == Finished then Goto(s, t, CloseReturned)
      else Goto(s, t, WaitingOnce)
    case CloseChan(t) => Goto(s, t, AwaitingDone).(closed := true)
    case SeeDone(t) => Goto(s, t, if s.destIsSyncer then SyncingDest else LeavingOnce)
    case SyncDest(t) => Goto(s, t, LeavingOnce).(destSyncs := s.destSyncs + 1)
    case LeaveOnce(t) => Goto(s, t, CloseReturned).(once := Finished)
    case PassOnce(t) => Goto(s, t, CloseReturned)
    case Receive => s.(drain := InHand(s.queue[0]), queue := s.queue[1..])
    case Deliver => s.(drain := Receiving, delivered := s.delivered + [s.drain.msg])
    case EndRange => s.(drain := Exiting)
    case CloseDone => s.(drain := Exited, done := true)
  }

  /** A step changes the program counter of the acting call only. */
  lemma StepIsLocal(s: State, a: Action, t: Tid)
    requires Enabled(s, a) && (IsDrainAction(a) || a.t != t)
    ensures t in Step(s, a).calls <==> t in s.calls
    ensures t in s.calls ==> Step(s, a).calls[t] == s.calls[t]
  {
    if !IsDrainAction(a) { if IsWriteAction(a) { WriteIsLocal(s, a, t); } else { CloseIsLocal(s, a, t); } }
  }

  predicate IsWriteAction(a: Action) {
    a.BeginWrite? || a.Select? || a.CountDrop?
  }

  lemma WriteIsLocal(s: State, a: Action, t: Tid)
    requires Enabled(s, a) && IsWriteAction(a) && a.t != t
    ensures t in Step(s, a).calls <==> t in s.calls
    ensures t in s.calls ==> Step(s, a).calls[t] == s.calls[t]
  {
  }

  lemma CloseIsLocal(s: State, a: Action, t: Tid)
    requires Enabled(s, a) && !IsDrainAction(a) && !IsWriteAction(a) && a.t != t
    ensures t in Step(s, a).calls <==> t in s.calls
    ensures t in s.calls ==> Step(s, a).calls[t] == s.calls[t]
  {
  }

  /** `acts` is a run from `s` to `s'`. */
  predicate Run(s: State, acts: seq<Action>, s': State)
    decreases |acts|
  {
    if acts == [] then s == s' else Enabled(s, acts[0]) && Run(Step(s, acts[0]), acts[1..], s')
  }

  ghost predicate Reachable(s: State) {
    exists bufferSize, destIsSyncer, acts :: Run(Init(bufferSize, destIsSyncer), acts, s)
  }

  // ---- the invariant

  /** The message the drain goroutine has received and not yet written. */
  function Hand(s: State): seq<bytes> {
    if s.drain.InHand? then [s.drain.msg] else []
  }

  predicate ChannelInv(s: State) {
    && |s.queue| <= s.cap
    && s.delivered + Hand(s) + s.queue == s.accepted
    && (s.done <==> s.drain == Exited)
    && (s.drain == Exiting || s.drain == Exited ==> s.closed && s.queue == [])
  }

  predicate CountInv(s: State) {
    s.completed == |s.accepted| + s.dropCnt + s.rejected
  }

  /** `pc` is inside the body of once.Do. */
  predicate InBody(pc: Pc) {
    pc == ClosingChan || pc == AwaitingDone || pc == SyncingDest || pc == LeavingOnce
  }

  /** What the shared flags say about the call that runs the once body. */
  predicate BodyInv(s: State, pc: Pc) {
    && (s.closed <==> pc != ClosingChan)
    && (pc == SyncingDest || pc == LeavingOnce ==> s.done)
    && s.destSyncs == (if pc == LeavingOnce && s.destIsSyncer then 1 else 0)
    && (pc == SyncingDest ==> s.destIsSyncer)
  }

  predicate CallInv(s: State, t: Tid) {
    && t in s.calls
    && (InBody(s.calls[t]) ==> s.once == Running(t))
    && (s.calls[t] == CloseReturned ==> s.once == Finished)
    && (s.calls[t] == WaitingOnce ==> s.once != Fresh)
  }

  predicate FlagsInv(s: State) {
    match s.once
    case Fresh => !s.closed && s.destSyncs == 0
    case Running(t) => t in s.calls && InBody(s.calls[t]) && BodyInv(s, s.calls[t])
    case Finished => s.closed && s.done && s.destSyncs == if s.destIsSyncer then 1 else 0
  }

  predicate OnceInv(s: State) {
    (forall t | t in s.calls :: CallInv(s, t)) && FlagsInv(s)
  }

  predicate Inv(s: State) {
    ChannelInv(s) && CountInv(s) && OnceInv(s)
  }

  lemma ChannelInvStep(s: State, a: Action)
    requires Inv(s) && Enabled(s, a)
    ensures ChannelInv(Step(s, a)) && CountInv(Step(s, a))
  {
    if IsDrainAction(a) { DrainKeepsOrder(s, a); } else { CallKeepsOrder(s, a); }
  }

  lemma DrainKeepsOrder(s: State, a: Action)
    requires Inv(s) && Enabled(s, a) && IsDrainAction(a)
    ensures ChannelInv(Step(s, a)) && CountInv(Step(s, a))
  {
    if a.Receive? {
      assert s.delivered + [s.queue[0]] + s.queue[1..] == s.delivered + [] + s.queue;
    } else if a.Deliver? {
      assert s.delivered + [s.drain.msg] + [] == s.delivered + [s.drain.msg];
    }
  }

  lemma CallKeepsOrder(s: State, a: Action)
    requires Inv(s) && Enabled(s, a) && !IsDrainAction(a)
    ensures ChannelInv(Step(s, a)) && CountInv(Step(s, a))
  {
    if a.Select? {
      var msg := s.calls[a.t].msg;
      assert s.delivered + Hand(s) + (s.queue + [msg]) == s.delivered + Hand(s) + s.queue + [msg];
    }
  }

  lemma OnceInvStep(s: State, a: Action)
    requires Inv(s) && Enabled(s, a)
    ensures OnceInv(Step(s, a))
  {
    var s' := Step(s, a);
    if IsDrainAction(a) || IsWriteAction(a) || a.BeginClose? { OutsideKeepsFlags(s, a); } else { CloserKeepsFlags(s, a); }
    forall t | t in s'.calls ensures CallInv(s', t) {
      if IsDrainAction(a) || t != a.t { StepIsLocal(s, a, t); }
      assert t in s.calls ==> CallInv(s, t);
    }
  }

  lemma OutsideKeepsFlags(s: State, a: Action)
    requires Inv(s) && Enabled(s, a) && (IsDrainAction(a) || IsWriteAction(a) || a.BeginClose?)
    ensures Step(s, a).once == s.once && FlagsInv(Step(s, a))
    ensures !IsDrainAction(a) ==> CallInv(Step(s, a), a.t)
  {
    if !IsDrainAction(a) { assert a.t in s.calls ==> CallInv(s, a.t); }
  }

  lemma CloserKeepsFlags(s: State, a: Action)
    requires Inv(s) && Enabled(s, a) && !IsDrainAction(a) && !IsWriteAction(a) && !a.BeginClose?
    ensures FlagsInv(Step(s, a)) && CallInv(Step(s, a), a.t)
    ensures s.once == Finished ==> Step(s, a).once == Finished
    ensures s.once.Running? ==> Step(s, a).once == s.once || (Step(s, a).once == Finished && s.once == Running(a.t))
  {
    assert CallInv(s, a.t);
  }

  lemma {:induction false} InvRun(s: State, acts: seq<Action>, s': State)
    requires Inv(s) && Run(s, acts, s')
    ensures Inv(s')
    decreases |acts|
  {
    if acts != [] {
      ChannelInvStep(s, acts[0]);
      OnceInvStep(s, acts[0]);
      InvRun(Step(s, acts[0]), acts[1..], s');
    }
  }

  lemma ReachableInv(s: State)
    requires Reachable(s)
    ensures Inv(s)
  {
    var bufferSize, destIsSyncer, acts :| Run(Init(bufferSize, destIsSyncer), acts, s);
    InvRun(Init(bufferSize, destIsSyncer), acts, s);
  }

  // ---- order and conservation

  /** Nothing accepted is lost, duplicated or reordered, the channel never overflows, and every completed write is
      accounted for exactly once. */
  lemma OrderAndConservation(s: State)
    requires Reachable(s)
    ensures s.delivered + Hand(s) + s.queue == s.accepted
    ensures |s.queue| <= s.cap
    ensures s.completed == |s.delivered| + |Hand(s)| + |s.queue| + s.dropCnt + s.rejected
  {
    ReachableInv(s);
  }

  /** The destination only ever grows, by accepted messages in acceptance order. */
  lemma {:induction false} DestinationGrows(s: State, acts: seq<Action>, s': State)
    requires Run(s, acts, s')
    ensures s.delivered <= s'.delivered && s.accepted <= s'.accepted
    ensures s.closed ==> s'.closed && s'.accepted == s.accepted
    ensures s.once == Finished ==> s'.once == Finished
    decreases |acts|
  {
    if acts != [] {
      GrowsStep(s, acts[0]);
      DestinationGrows(Step(s, acts[0]), acts[1..], s');
    }
  }

  lemma GrowsStep(s: State, a: Action)
    requires Enabled(s, a)
    ensures Grows(s, Step(s, a))
  {
  }

  /** What no step takes back. */
  predicate Grows(s: State, s': State) {
    && s.delivered <= s'.delivered
    && s.accepted <= s'.accepted
    && (s.closed ==> s'.closed && s'.accepted == s.accepted)
    && (s.once == Finished ==> s'.once == Finished)
    && s'.destIsSyncer == s.destIsSyncer && s'.cap == s.cap
  }

  // ---- Close

  /** When some Close or Sync call has returned, everything accepted has been delivered, and in every continuation
      the destination, the accepted messages and the number of dest.Sync calls stay as they are. */
  lemma CloseDrainsAndFreezes(s: State, t: Tid, acts: seq<Action>, s': State)
    requires Reachable(s) && At(s, t, CloseReturned) && Run(s, acts, s')
    ensures s.delivered == s.accepted && s.queue == []
    ensures s'.delivered == s.delivered && s'.accepted == s.accepted
    ensures s'.destSyncs == s.destSyncs == if s.destIsSyncer then 1 else 0
  {
    ReachableInv(s);
    FinishedFreezes(s, acts, s');
  }

  /** Once a Close has returned, another one returns without waiting and does nothing else. */
  lemma CloseIsIdempotent(s: State, u: Tid, t: Tid)
    requires Reachable(s) && At(s, u, CloseReturned) && Free(s, t)
    ensures Enabled(s, BeginClose(t)) && Enabled(Step(s, BeginClose(t)), EnterOnce(t))
    ensures Step(Step(s, BeginClose(t)), EnterOnce(t)) == s.(calls := s.calls[t := CloseReturned])
  {
    ReachableInv(s);
    assert CallInv(s, u);
    assert s.calls[t := AtOnce][t := CloseReturned] == s.calls[t := CloseReturned];
  }

  lemma FinishedFreezes(s: State, acts: seq<Action>, s': State)
    requires Inv(s) && s.once == Finished && Run(s, acts, s')
    ensures s.delivered == s.accepted && s'.delivered == s.delivered && s'.accepted == s.accepted
    ensures s'.destSyncs == s.destSyncs == if s.destIsSyncer then 1 else 0
    ensures s'.once == Finished
  {
    InvRun(s, acts, s');
    DestinationGrows(s, acts, s');
    SyncerFixed(s, acts, s');
    assert s.delivered + [] + [] == s.delivered && s'.delivered + [] + [] == s'.delivered;
  }

  lemma {:induction false} SyncerFixed(s: State, acts: seq<Action>, s': State)
    requires Run(s, acts, s')
    ensures s'.destIsSyncer == s.destIsSyncer && s'.cap == s.cap
    decreases |acts|
  {
    if acts != [] {
      GrowsStep(s, acts[0]);
      SyncerFixed(Step(s, acts[0]), acts[1..], s');
    }
  }

  /** dest.Sync runs at most once in the whole run, and never while a message is still on its way. */
  lemma DestSyncedAtMostOnce(s: State)
    requires Reachable(s)
    ensures s.destSyncs <= 1
    ensures s.destSyncs == 1 ==> s.delivered == s.accepted
  {
    ReachableInv(s);
    assert s.delivered + [] + [] == s.delivered;
  }

  // ---- progress of the drain goroutine

  function DrainSteps(acts: seq<Action>): nat {
    if acts == [] then 0 else (if IsDrainAction(acts[0]) then 1 else 0) + DrainSteps(acts[1..])
  }

  /** How many steps the drain goroutine still has to take once the channel is closed. */
  function Remaining(s: State): nat {
    2 * |s.queue| + match s.drain case Receiving => 2 case InHand(_) => 3 case Exiting => 1 case Exited => 0
  }

  /** Once the channel is closed the drain goroutine is never stuck before it has closed `done`. */
  lemma DrainIsEnabled(s: State)
    requires Reachable(s) && s.closed && !s.done
    ensures exists a :: IsDrainAction(a) && Enabled(s, a)
  {
    ReachableInv(s);
    DrainMoves(s);
  }

  lemma DrainMoves(s: State)
    requires Inv(s) && s.closed && !s.done
    ensures exists a :: IsDrainAction(a) && Enabled(s, a)
  {
    match s.drain
    case Receiving => assert Enabled(s, if s.queue != [] then Receive else EndRange);
    case InHand(_) => assert Enabled(s, Deliver);
    case Exiting => assert Enabled(s, CloseDone);
  }

  /** From then on exactly Remaining(s) drain steps lead to `done`, however the other calls interleave. */
  lemma {:induction false} DrainCountdown(s: State, acts: seq<Action>, s': State)
    requires Inv(s) && s.closed && Run(s, acts, s')
    ensures DrainSteps(acts) + Remaining(s') == Remaining(s)
    ensures s'.done <==> DrainSteps(acts) == Remaining(s)
    decreases |acts|
  {
    if acts != [] {
      ChannelInvStep(s, acts[0]);
      OnceInvStep(s, acts[0]);
      CountdownStep(s, acts[0]);
      DrainCountdown(Step(s, acts[0]), acts[1..], s');
    }
  }

  lemma CountdownStep(s: State, a: Action)
    requires s.closed && Enabled(s, a)
    ensures Step(s, a).closed
    ensures Remaining(Step(s, a)) == Remaining(s) - if IsDrainAction(a) then 1 else 0
  {
  }

  /** A closer waiting on `done`, and every call queued behind it, can return once the drain steps are taken. */
  lemma ClosersAreReleased(s: State, t: Tid)
    requires Reachable(s) && s.done && t in s.calls
    ensures s.calls[t] == AwaitingDone ==> Enabled(s, SeeDone(t))
    ensures s.calls[t] == WaitingOnce ==>
              Enabled(s, PassOnce(t)) ||
              (s.once.Running? && var o := s.once.owner;
               Enabled(s, SeeDone(o)) || Enabled(s, SyncDest(o)) || Enabled(s, LeaveOnce(o)))
  {
    ReachableInv(s);
  }

  // ---- the documentation and the code

  /** How many writes reach their select in a run. */
  function Selects(acts: seq<Action>): nat {
    if acts == [] then 0 else (if acts[0].Select? then 1 else 0) + Selects(acts[1..])
  }

  /** The writes that have taken the default branch and not yet counted the drop. */
  function Dropping(s: State): set<Tid> {
    set t | t in s.calls && s.calls[t] == Counting
  }

  /** Write is documented to return ErrWriterClosed on a closed writer; no write of any run returns an error. */
  lemma NoWriteFails(s: State, t: Tid)
    requires Reachable(s) && t in s.calls && s.calls[t].WriteReturned?
    ensures s.calls[t].err == None
  {
    var bufferSize, destIsSyncer, acts :| Run(Init(bufferSize, destIsSyncer), acts, s);
    NoErrorsRun(Init(bufferSize, destIsSyncer), acts, s);
  }

  ghost predicate NoErrors(s: State) {
    forall t | t in s.calls && s.calls[t].WriteReturned? :: s.calls[t].err == None
  }

  lemma {:induction false} NoErrorsRun(s: State, acts: seq<Action>, s': State)
    requires NoErrors(s) && Run(s, acts, s')
    ensures NoErrors(s')
    decreases |acts|
  {
    if acts != [] {
      NoErrorsStep(s, acts[0]);
      NoErrorsRun(Step(s, acts[0]), acts[1..], s');
    }
  }

  lemma NoErrorsStep(s: State, a: Action)
    requires NoErrors(s) && Enabled(s, a)
    ensures NoErrors(Step(s, a))
  {
    var s' := Step(s, a);
    forall t | t in s'.calls && s'.calls[t].WriteReturned? ensures s'.calls[t].err == None {
      if IsDrainAction(a) || a.t != t { StepIsLocal(s, a, t); }
    }
  }

  /**
   Once the channel is closed, every write that reaches its select is counted as rejected, whenever it began, and the
   drop counter moves only for the writes that had found the open channel full.
   */
  lemma {:induction false} LateWritesAreRejected(s: State, acts: seq<Action>, s': State)
    requires s.closed && Run(s, acts, s')
    ensures s'.rejected == s.rejected + Selects(acts)
    ensures Dropping(s') <= Dropping(s)
    ensures s'.dropCnt + |Dropping(s')| == s.dropCnt + |Dropping(s)|
    decreases |acts|
  {
    if acts != [] {
      ClosedWriteStep(s, acts[0]);
      LateWritesAreRejected(Step(s, acts[0]), acts[1..], s');
    }
  }

  /** The write that this step starts to drop finds the open channel full. */
  predicate FindsFull(s: State, a: Action) {
    a.Select? && !s.closed && |s.queue| >= s.cap
  }

  lemma DroppingStep(s: State, a: Action)
    requires Enabled(s, a)
    ensures Dropping(Step(s, a)) ==
            if a.CountDrop? then Dropping(s) - {a.t} else if FindsFull(s, a) then Dropping(s) + {a.t} else Dropping(s)
    ensures a.CountDrop? ==> a.t in Dropping(s)
    ensures FindsFull(s, a) ==> a.t !in Dropping(s)
  {
    forall t | IsDrainAction(a) || t != a.t ensures t in Dropping(Step(s, a)) <==> t in Dropping(s) {
      StepIsLocal(s, a, t);
    }
  }

  /** Where a write goes: it is counted as rejected on a closed channel, and as dropped, sooner or later, on a full one. */
  lemma CountsStep(s: State, a: Action)
    requires Enabled(s, a)
    ensures var s' := Step(s, a);
            && s'.rejected == s.rejected + (if a.Select? && s.closed then 1 else 0)
            && s'.dropCnt + |Dropping(s')| ==
               s.dropCnt + |Dropping(s)| + (if a.Select? && !s.closed && |s.queue| >= s.cap then 1 else 0)
  {
    hide Dropping;
    DroppingStep(s, a);
  }

  lemma ClosedWriteStep(s: State, a: Action)
    requires s.closed && Enabled(s, a)
    ensures var s' := Step(s, a);
            && s'.closed
            && s'.rejected == s.rejected + (if a.Select? then 1 else 0)
            && Dropping(s') == Dropping(s) - (if a.CountDrop? then {a.t} else {})
            && s'.dropCnt == s.dropCnt + (if a.CountDrop? then 1 else 0)
            && (a.CountDrop? ==> a.t in Dropping(s))
  {
    hide Dropping;
    DroppingStep(s, a);
  }

  /** Call `t` begins nothing new. */
  predicate StaysOn(acts: seq<Action>, t: Tid) {
    forall a | a in acts && (a.BeginWrite? || a.BeginClose?) :: a.t != t
  }

  /** A write that is still before its select when the channel is closed ends, as soon as it gets there, with 0 bytes and
      no error; at no point is it about to be counted as dropped. */
  lemma LateWriteIsSilent(s: State, acts: seq<Action>, s': State, t: Tid)
    requires s.closed && t in s.calls && s.calls[t].Selecting? && Run(s, acts, s') && StaysOn(acts, t)
    ensures t in s'.calls && s'.calls[t] == if Select(t) in acts then WriteReturned(0, None) else s.calls[t]
    ensures t !in Dropping(s')
    ensures Select(t) !in acts ==> Enabled(s', Select(t))
  {
    LateWriteRun(s, acts, s', t);
  }

  lemma {:induction false} LateWriteRun(s: State, acts: seq<Action>, s': State, t: Tid)
    requires s.closed && t in s.calls && (s.calls[t].Selecting? || s.calls[t] == WriteReturned(0, None))
    requires Run(s, acts, s') && StaysOn(acts, t)
    ensures t in s'.calls
    ensures s'.calls[t] == if s.calls[t].Selecting? && Select(t) !in acts then s.calls[t] else WriteReturned(0, None)
    decreases |acts|
  {
    if acts != [] {
      var a := acts[0];
      ClosedWriteStep(s, a);
      if IsDrainAction(a) || a.t != t { StepIsLocal(s, a, t); } else { assert a in acts && a == Select(t); }
      assert Select(t) in acts <==> a == Select(t) || Select(t) in acts[1..];
      LateWriteRun(Step(s, a), acts[1..], s', t);
    }
  }

  // ---- from the calls to the channel

  /** The message call `t` has last begun to write. */
  function LastMessage(acts: seq<Action>, t: Tid): Option<bytes> {
    if acts == [] then None else
      var last := acts[|acts| - 1];
      if last.BeginWrite? && last.t == t then Some(last.msg) else LastMessage(acts[..|acts| - 1], t)
  }

  /** What the steps so far say about the writes in progress. */
  predicate MessagesInv(s: State, done: seq<Action>) {
    forall t | t in s.calls ::
      match s.calls[t]
      case Selecting(msg) => LastMessage(done, t) == Some(msg)
      case Counting => LastMessage(done, t).Some?
      case WriteReturned(n, _) => LastMessage(done, t).Some? && (n == 0 || n == |LastMessage(done, t).value|)
      case _ => true
  }

  lemma MessagesStep(s: State, done: seq<Action>, a: Action)
    requires MessagesInv(s, done) && Enabled(s, a)
    ensures MessagesInv(Step(s, a), done + [a])
  {
    assert (done + [a])[..|done|] == done;
    forall t | t in Step(s, a).calls && (IsDrainAction(a) || t != a.t)
      ensures t in s.calls && Step(s, a).calls[t] == s.calls[t] && LastMessage(done + [a], t) == LastMessage(done, t)
    {
      StepIsLocal(s, a, t);
    }
  }

  lemma {:induction false} MessagesRun(s: State, done: seq<Action>, acts: seq<Action>, s': State)
    requires MessagesInv(s, done) && Run(s, acts, s')
    ensures MessagesInv(s', done + acts)
    decreases |acts|
  {
    if acts == [] {
      assert done + acts == done;
    } else {
      MessagesStep(s, done, acts[0]);
      MessagesRun(Step(s, acts[0]), done + [acts[0]], acts[1..], s');
      assert done + acts == done + [acts[0]] + acts[1..];
    }
  }

  /** What NewAsyncWriter makes of its buffer size. */
  function Capacity(bufferSize: int): nat {
    if bufferSize > 0 then bufferSize else 4096
  }

  /** An open channel takes the message the call began with exactly when fewer are queued than the writer was made for, and
      reports its length; otherwise the write is on its way to being counted as dropped. */
  lemma DropIffFull(bufferSize: int, destIsSyncer: bool, acts: seq<Action>, s: State, t: Tid)
    requires Run(Init(bufferSize, destIsSyncer), acts, s) && !s.closed && Enabled(s, Select(t))
    ensures LastMessage(acts, t).Some?
    ensures var msg, s' := LastMessage(acts, t).value, Step(s, Select(t));
            if |s.queue| < (if bufferSize > 0 then bufferSize else 4096)
            then s'.accepted == s.accepted + [msg] && s'.calls[t] == WriteReturned(|msg|, None)
            else s'.accepted == s.accepted && s'.calls[t] == Counting
  {
    assert MessagesInv(Init(bufferSize, destIsSyncer), []);
    MessagesRun(Init(bufferSize, destIsSyncer), [], acts, s);
    assert [] + acts == acts;
    SyncerFixed(Init(bufferSize, destIsSyncer), acts, s);
  }

  /** An accepted write goes on to report the length of its message until the call begins something new. */
  lemma AcceptedWriteReturns(bufferSize: int, destIsSyncer: bool, acts: seq<Action>, s: State, t: Tid, later: seq<Action>, s': State)
    requires Run(Init(bufferSize, destIsSyncer), acts, s) && !s.closed && Enabled(s, Select(t)) && |s.queue| < Capacity(bufferSize)
    requires Run(Step(s, Select(t)), later, s') && StaysOn(later, t)
    ensures LastMessage(acts, t).Some? && At(s', t, WriteReturned(|LastMessage(acts, t).value|, None))
    ensures LastMessage(acts, t).value in s'.accepted
  {
    DropIffFull(bufferSize, destIsSyncer, acts, s, t);
    ReturnedStays(Step(s, Select(t)), later, s', t);
    DestinationGrows(Step(s, Select(t)), later, s');
    assert Step(s, Select(t)).accepted[|s.accepted|] == s'.accepted[|s.accepted|];
  }

  lemma {:induction false} ReturnedStays(s: State, acts: seq<Action>, s': State, t: Tid)
    requires t in s.calls && s.calls[t].WriteReturned? && Run(s, acts, s') && StaysOn(acts, t)
    ensures At(s', t, s.calls[t])
    decreases |acts|
  {
    if acts != [] {
      var a := acts[0];
      assert a in acts;
      StepIsLocal(s, a, t);
      ReturnedStays(Step(s, a), acts[1..], s', t);
    }
  }

  /** Once a Close has returned, the destination has been synced exactly if it can be. */
  lemma SyncedIffSyncer(bufferSize: int, destIsSyncer: bool, acts: seq<Action>, s: State, t: Tid)
    requires Run(Init(bufferSize, destIsSyncer), acts, s) && At(s, t, CloseReturned)
    ensures s.destSyncs == if destIsSyncer then 1 else 0
  {
    SyncerFixed(Init(bufferSize, destIsSyncer), acts, s);
    InvRun(Init(bufferSize, destIsSyncer), acts, s);
    assert CallInv(s, t);
  }

  // ---- no call is stuck

  /** The next step of call `t` itself is possible. */
  predicate CanMove(s: State, t: Tid) {
    t in s.calls &&
    match s.calls[t]
    case Selecting(_) => Enabled(s, Select(t))
    case Counting => Enabled(s, CountDrop(t))
    case WriteReturned(_, _) => true
    case AtOnce => Enabled(s, EnterOnce(t))
    case ClosingChan => Enabled(s, CloseChan(t))
    case AwaitingDone => Enabled(s, SeeDone(t))
    case SyncingDest => Enabled(s, SyncDest(t))
    case LeavingOnce => Enabled(s, LeaveOnce(t))
    case WaitingOnce => Enabled(s, PassOnce(t))
    case CloseReturned => true
  }

  /** In every reachable state each call can move, or waits for the drain goroutine or the call that runs the once body,
      and then one of these can. */
  lemma NoCallIsStuck(s: State, t: Tid)
    requires Reachable(s) && t in s.calls
    ensures CanMove(s, t)
            || (s.closed && exists a :: IsDrainAction(a) && Enabled(s, a))
            || (s.calls[t] == WaitingOnce && s.once.Running? && s.once.owner != t && CanMove(s, s.once.owner))
  {
    ReachableInv(s);
    CallsMove(s, t);
  }

  lemma CallsMove(s: State, t: Tid)
    requires Inv(s) && t in s.calls
    ensures CanMove(s, t)
            || (s.closed && exists a :: IsDrainAction(a) && Enabled(s, a))
            || (s.calls[t] == WaitingOnce && s.once.Running? && s.once.owner != t && CanMove(s, s.once.owner))
  {
    assert CallInv(s, t);
    if s.once.Running? { assert CallInv(s, s.once.owner); }
    if s.closed && !s.done { DrainMoves(s); }
  }

  lemma {:induction false} OneMore(s: State, acts: seq<Action>, m: State, a: Action) returns (more: seq<Action>, s': State)
    requires Run(s, acts, m) && Enabled(m, a)
    ensures more == acts + [a] && s' == Step(m, a) && Run(s, more, s')
    decreases |acts|
  {
    more, s' := acts + [a], Step(m, a);
    if acts == [] {
      assert more[1..] == [];
    } else {
      var rest, last := OneMore(Step(s, acts[0]), acts[1..], m, a);
      assert more[1..] == rest;
    }
  }

  /** A whole life: for every buffer size and message, one write and one Close deliver the message. */
  lemma OneWriteIsDelivered(bufferSize: int, destIsSyncer: bool, msg: bytes) returns (acts: seq<Action>, s: State)
    ensures Run(Init(bufferSize, destIsSyncer), acts, s)
    ensures s.delivered == [msg] && At(s, 1, WriteReturned(|msg|, None)) && At(s, 2, CloseReturned)
  {
    var s0 := Init(bufferSize, destIsSyncer);
    acts, s := WriteOnce(s0, [], s0, msg);
    acts, s := CloseOnce(s0, acts, s);
  }

  lemma WriteOnce(s0: State, acts: seq<Action>, m: State, msg: bytes) returns (more: seq<Action>, s: State)
    requires Run(s0, acts, m) && !m.closed && m.queue == [] && m.cap > 0 && m.drain == Receiving && Free(m, 1)
    ensures Run(s0, more, s)
    ensures s.delivered == m.delivered + [msg] && s.calls == m.calls[1 := WriteReturned(|msg|, None)]
    ensures !s.closed && s.queue == [] && s.drain == Receiving && s.once == m.once && s.done == m.done
    ensures s.destIsSyncer == m.destIsSyncer
  {
    hide Run;
    more, s := OneMore(s0, acts, m, BeginWrite(1, msg));
    more, s := OneMore(s0, more, s, Select(1));
    more, s := OneMore(s0, more, s, Receive);
    more, s := OneMore(s0, more, s, Deliver);
    assert s.calls == m.calls[1 := WriteReturned(|msg|, None)];
  }

  lemma CloseOnce(s0: State, acts: seq<Action>, m: State) returns (more: seq<Action>, s: State)
    requires Run(s0, acts, m) && m.queue == [] && m.drain == Receiving && m.once == Fresh && Free(m, 2)
    ensures Run(s0, more, s)
    ensures s.delivered == m.delivered && s.calls == m.calls[2 := CloseReturned]
  {
    hide Run;
    more, s := CloseAndDrain(s0, acts, m);
    more, s := OneMore(s0, more, s, SeeDone(2));
    if m.destIsSyncer { more, s := OneMore(s0, more, s, SyncDest(2)); }
    more, s := OneMore(s0, more, s, LeaveOnce(2));
    assert s.calls == m.calls[2 := CloseReturned];
  }

  lemma CloseAndDrain(s0: State, acts: seq<Action>, m: State) returns (more: seq<Action>, s: State)
    requires Run(s0, acts, m) && m.queue == [] && m.drain == Receiving && m.once == Fresh && Free(m, 2)
    ensures Run(s0, more, s) && s.done && s.delivered == m.delivered && s.destIsSyncer == m.destIsSyncer
    ensures s.calls == m.calls[2 := AwaitingDone]
  {
    hide Run;
    more, s := OneMore(s0, acts, m, BeginClose(2));
    more, s := OneMore(s0, more, s, EnterOnce(2));
    more, s := OneMore(s0, more, s, CloseChan(2));
    more, s := OneMore(s0, more, s, EndRange);
    more, s := OneMore(s0, more, s, CloseDone);
    assert s.calls == m.calls[2 := AwaitingDone];
  }
}
