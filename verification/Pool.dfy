/**
 The worker pool (pool.go) as a step system: any number of Enqueue and Shutdown callers and workers,
 interleaved one atomic action at a time. A job is named by the caller that enqueued it.
 */
module Pool {
  import opened Items

  /** Where a goroutine is. */
  datatype Pc =
    // an Enqueue caller
    | Arriving | Locked | Sending | Sent | Dropped | Returned(accepted: bool)
    // a Shutdown caller
    | Stopping | Queued | Guarded | Closing | Unlocking | AlreadyClosed | Waiting | ClosingQuit | ClosingErrors | Stopped(first: bool)
    // a worker
    | Select | Running(job: nat) | Reporting(job: nat) | Finishing(job: nat) | Exited

  /**
   `writer` is the Shutdown caller queued at the lock or holding it: from then on no new reader gets in.
   `jobsCloses`, `quitCloses` and `errCloses` count the closings of the channels; `panics` counts sends on
   closed channels, second closings and negative wait counts; `closer`, `ran`, `failed` (jobs that returned
   an error) and `read` (errors taken from the channel) record history.
   */
  datatype State = State(
    pcs: map<nat, Pc>, readers: set<nat>, writer: Option<nat>, closed: bool,
    buffer: seq<nat>, slots: nat, errs: nat, errSlots: nat, wg: int,
    jobsCloses: nat, quitCloses: nat, errCloses: nat,
    panics: nat, closer: Option<nat>, ran: seq<nat>, failed: nat, read: nat)

  /** What a step may choose: a job's outcome, or the quit branch of the worker's select. */
  datatype Choice = Go | Fail | Quit

  datatype Event = Act(t: nat, c: Choice) | DrainError

  function Goto(s: State, t: nat, pc: Pc): State {
    s.(pcs := s.pcs[t := pc])
  }

  function Panic(s: State, bad: bool): State {
    if bad then s.(panics := s.panics + 1) else s
  }

  function EnqueueStep(s: State, t: nat): State
    requires t in s.pcs
  {
    match s.pcs[t]
    case Arriving => if s.writer.None? then Goto(s, t, Locked).(readers := s.readers + {t}) else s
    case Locked => if s.closed then Goto(s, t, Dropped) else Goto(s, t, Sending).(wg := s.wg + 1)
    case Sending =>
      if s.jobsCloses > 0 then Panic(s, true)
      else if |s.buffer| < s.slots then Goto(s, t, Sent).(buffer := s.buffer + [t])
      else s
    case Sent => Goto(s, t, Returned(true)).(readers := s.readers - {t})
    case Dropped => Goto(s, t, Returned(false)).(readers := s.readers - {t})
    case _ => s
  }

  function ShutdownStep(s: State, t: nat): State
    requires t in s.pcs
  {
    match s.pcs[t]
    case Stopping => if s.writer.None? then Goto(s, t, Queued).(writer := Some(t)) else s
    case Queued => if s.readers == {} then Goto(s, t, Guarded) else s
    case Guarded => if s.closed then Goto(s, t, AlreadyClosed) else Goto(s, t, Closing).(closed := true, closer := Some(t))
    case Closing => Panic(Goto(s, t, Unlocking).(jobsCloses := s.jobsCloses + 1), s.jobsCloses > 0)
    case Unlocking => Goto(s, t, Waiting).(writer := None)
    case AlreadyClosed => Goto(s, t, Stopped(false)).(writer := None)
    case Waiting => if s.wg == 0 then Goto(s, t, ClosingQuit) else s
    case ClosingQuit => Panic(Goto(s, t, ClosingErrors).(quitCloses := s.quitCloses + 1), s.quitCloses > 0)
    case ClosingErrors => Panic(Goto(s, t, Stopped(true)).(errCloses := s.errCloses + 1), s.errCloses > 0)
    case _ => s
  }

  function WorkerStep(s: State, t: nat, c: Choice): State
    requires t in s.pcs
  {
    match s.pcs[t]
    case Select =>
      if c == Quit then (if s.quitCloses > 0 then Goto(s, t, Exited) else s)
      else if s.buffer != [] then Goto(s, t, Running(s.buffer[0])).(buffer := s.buffer[1..])
      else if s.jobsCloses > 0 then Goto(s, t, Exited)
      else s
    case Running(j) =>
      if c == Fail then Goto(s, t, Reporting(j)).(ran := s.ran + [j], failed := s.failed + 1)
      else Goto(s, t, Finishing(j)).(ran := s.ran + [j])
    case Reporting(j) =>
      if s.errCloses > 0 then Panic(s, true)
      else if s.errs < s.errSlots then Goto(s, t, Finishing(j)).(errs := s.errs + 1)
      else s
    case Finishing(_) => Panic(Goto(s, t, Select).(wg := s.wg - 1), s.wg <= 0)
    case _ => s
  }

  predicate IsEnqueue(pc: Pc) {
    pc.Arriving? || pc.Locked? || pc.Sending? || pc.Sent? || pc.Dropped? || pc.Returned?
  }

  predicate IsWorker(pc: Pc) {
    pc.Select? || pc.Running? || pc.Reporting? || pc.Finishing? || pc.Exited?
  }

  function Step(s: State, e: Event): State {
    match e
    case DrainError => if s.errs > 0 then s.(errs := s.errs - 1, read := s.read + 1) else s
    case Act(t, c) =>
      if t !in s.pcs then s
      else if IsEnqueue(s.pcs[t]) then EnqueueStep(s, t)
      else if IsWorker(s.pcs[t]) then WorkerStep(s, t, c)
      else ShutdownStep(s, t)
  }

  /** A new pool: everyone is about to start. */
  predicate Init(s: State) {
    && (forall t :: t in s.pcs ==> s.pcs[t] in {Arriving, Stopping, Select})
    && s.readers == {} && s.writer.None? && !s.closed && s.buffer == [] && s.errs == 0 && s.wg == 0
    && s.jobsCloses == 0 && s.quitCloses == 0 && s.errCloses == 0 && s.panics == 0 && s.closer.None? && s.ran == [] && s.failed == 0 && s.read == 0
  }

  function Run(s: State, es: seq<Event>): State {
    if es == [] then s else Step(Run(s, es[..|es| - 1]), es[|es| - 1])
  }

  // ---------- the invariant ----------

  predicate HoldsRead(pc: Pc) {
    pc.Locked? || pc.Sending? || pc.Sent? || pc.Dropped?
  }

  predicate HoldsWrite(pc: Pc) {
    pc.Guarded? || pc.Closing? || pc.Unlocking? || pc.AlreadyClosed?
  }

  /** Queued at the lock or holding it. */
  predicate IsWriter(pc: Pc) {
    pc.Queued? || HoldsWrite(pc)
  }

  predicate IsCloser(pc: Pc) {
    pc.Closing? || pc.Unlocking? || pc.Waiting? || pc.ClosingQuit? || pc.ClosingErrors? || pc == Stopped(true)
  }

  predicate SawClosed(pc: Pc) {
    pc.AlreadyClosed? || pc == Stopped(false)
  }

  predicate IsSending(pc: Pc) {
    pc.Sending?
  }

  predicate IsActive(pc: Pc) {
    pc.Running? || pc.Reporting? || pc.Finishing?
  }

  predicate Accepted(pc: Pc) {
    pc.Sent? || pc == Returned(true)
  }

  function Those(pcs: map<nat, Pc>, p: Pc -> bool): set<nat> {
    set t | t in pcs && p(pcs[t])
  }

  function RunningOn(pcs: map<nat, Pc>, j: nat): set<nat> {
    set t | t in pcs && pcs[t] == Running(j)
  }

  /** The lock is held by exactly those whose position says so, and a writer excludes readers. */
  ghost predicate LockInv(pcs: map<nat, Pc>, readers: set<nat>, writer: Option<nat>) {
    && readers == Those(pcs, HoldsRead)
    && (writer.Some? ==> writer.value in pcs && IsWriter(pcs[writer.value]) && (HoldsWrite(pcs[writer.value]) ==> readers == {}))
    && (forall t :: t in pcs && IsWriter(pcs[t]) ==> writer == Some(t))
  }

  /** Exactly one caller closes, and nobody is sending from then on. */
  ghost predicate CloserInv(pcs: map<nat, Pc>, closed: bool, closer: Option<nat>) {
    && (closed <==> closer.Some?)
    && (closed ==> closer.value in pcs && IsCloser(pcs[closer.value]))
    && (forall t :: t in pcs && IsCloser(pcs[t]) ==> closer == Some(t))
    && (forall t :: t in pcs && IsSending(pcs[t]) ==> !closed)
    && (forall t :: t in pcs && SawClosed(pcs[t]) ==> closed)
  }

  /** How far the closer got. */
  function Phase(pcs: map<nat, Pc>, closer: Option<nat>): nat {
    if closer.None? || closer.value !in pcs then 0
    else
      match pcs[closer.value]
      case Unlocking => 1
      case Waiting => 1
      case ClosingQuit => 2
      case ClosingErrors => 3
      case Stopped(_) => 4
      case _ => 0
  }

  /** The closer's progress tells which channels are closed, each at most once. */
  ghost predicate ChannelInv(s: State) {
    var n := Phase(s.pcs, s.closer);
    s.jobsCloses == (if n >= 1 then 1 else 0) && s.quitCloses == (if n >= 3 then 1 else 0) && s.errCloses == if n >= 4 then 1 else 0
  }

  /** The wait count is mid-send plus buffered plus running jobs, and zero once the wait is over. */
  ghost predicate WaitInv(s: State) {
    && s.wg == |Those(s.pcs, IsSending)| + |s.buffer| + |Those(s.pcs, IsActive)|
    && (Phase(s.pcs, s.closer) >= 2 ==> s.wg == 0)
  }

  /** How often `j` occurs. */
  function Occ(b: seq<nat>, j: nat): nat {
    if b == [] then 0 else Occ(b[..|b| - 1], j) + if b[|b| - 1] == j then 1 else 0
  }

  lemma OccSnoc(b: seq<nat>, x: nat, j: nat)
    ensures Occ(b + [x], j) == Occ(b, j) + if x == j then 1 else 0
  {
    assert (b + [x])[..|b|] == b;
  }

  lemma {:induction false} OccHead(b: seq<nat>, j: nat)
    requires b != []
    ensures Occ(b, j) == Occ(b[1..], j) + if j == b[0] then 1 else 0
  {
    if |b| > 1 {
      var n := |b| - 1;
      assert b[1..][..n - 1] == b[..n][1..];
      OccHead(b[..n], j);
    }
  }

  /** How often job `j` is buffered, being run, or has run. */
  ghost function Times(s: State, j: nat): nat {
    Occ(s.buffer, j) + |RunningOn(s.pcs, j)| + Occ(s.ran, j)
  }

  /** An accepted job is in exactly one place, any other in none. */
  ghost predicate JobInv(s: State) {
    forall j :: Times(s, j) == if j in s.pcs && Accepted(s.pcs[j]) then 1 else 0
  }

  ghost predicate Inv(s: State) {
    && LockInv(s.pcs, s.readers, s.writer) && CloserInv(s.pcs, s.closed, s.closer)
    && ChannelInv(s) && WaitInv(s) && JobInv(s) && s.panics == 0
  }

  // ---------- counting ----------

  lemma CountOne(a: set<nat>, t: nat)
    ensures |a| == |a - {t}| + if t in a then 1 else 0
  {
    assert t in a ==> a == (a - {t}) + {t};
    assert t !in a ==> a == a - {t};
  }

  lemma ThoseSet(pcs: map<nat, Pc>, t: nat, q: Pc, p: Pc -> bool)
    requires t in pcs
    ensures Those(pcs[t := q], p) == if p(q) then Those(pcs, p) + {t} else Those(pcs, p) - {t}
    ensures t in Those(pcs, p) <==> p(pcs[t])
  {
  }

  lemma ThoseUpdate(pcs: map<nat, Pc>, t: nat, q: Pc, p: Pc -> bool)
    requires t in pcs
    ensures Those(pcs[t := q], p) == if p(q) then Those(pcs, p) + {t} else Those(pcs, p) - {t}
    ensures |Those(pcs[t := q], p)| == |Those(pcs, p)| - (if p(pcs[t]) then 1 else 0) + if p(q) then 1 else 0
  {
    hide Those;
    ThoseSet(pcs, t, q, p);
    CountOne(Those(pcs, p), t);
  }

  lemma RunningSet(pcs: map<nat, Pc>, t: nat, q: Pc, j: nat)
    requires t in pcs
    ensures RunningOn(pcs[t := q], j) == if q == Running(j) then RunningOn(pcs, j) + {t} else RunningOn(pcs, j) - {t}
    ensures t in RunningOn(pcs, j) <==> pcs[t] == Running(j)
  {
  }

  lemma RunningUpdate(pcs: map<nat, Pc>, t: nat, q: Pc, j: nat)
    requires t in pcs
    ensures |RunningOn(pcs[t := q], j)| == |RunningOn(pcs, j)| - (if pcs[t] == Running(j) then 1 else 0) + if q == Running(j) then 1 else 0
  {
    hide RunningOn;
    RunningSet(pcs, t, q, j);
    CountOne(RunningOn(pcs, j), t);
  }

  lemma InitInv(s: State)
    requires Init(s)
    ensures Inv(s)
  {
    assert Those(s.pcs, IsSending) == {} && Those(s.pcs, IsActive) == {};
    forall j ensures RunningOn(s.pcs, j) == {} {
    }
  }

  // ---------- the lock ----------

  lemma LockKeep(pcs: map<nat, Pc>, readers: set<nat>, writer: Option<nat>, t: nat, q: Pc)
    requires LockInv(pcs, readers, writer) && t in pcs
    requires HoldsRead(q) == HoldsRead(pcs[t]) && HoldsWrite(q) == HoldsWrite(pcs[t]) && IsWriter(q) == IsWriter(pcs[t])
    ensures LockInv(pcs[t := q], readers, writer)
  {
    ThoseUpdate(pcs, t, q, HoldsRead);
  }

  lemma LockRead(pcs: map<nat, Pc>, readers: set<nat>, writer: Option<nat>, t: nat, q: Pc)
    requires LockInv(pcs, readers, writer) && t in pcs && !IsWriter(pcs[t]) && !IsWriter(q)
    ensures HoldsRead(q) && writer.None? ==> LockInv(pcs[t := q], readers + {t}, writer)
    ensures !HoldsRead(q) ==> LockInv(pcs[t := q], readers - {t}, writer)
  {
    ThoseUpdate(pcs, t, q, HoldsRead);
  }

  lemma LockWrite(pcs: map<nat, Pc>, readers: set<nat>, writer: Option<nat>, t: nat, q: Pc)
    requires LockInv(pcs, readers, writer) && t in pcs && !HoldsRead(pcs[t]) && !HoldsRead(q)
    ensures q.Queued? && writer.None? ==> LockInv(pcs[t := q], readers, Some(t))
    ensures pcs[t].Queued? && HoldsWrite(q) && readers == {} ==> LockInv(pcs[t := q], readers, writer)
    ensures IsWriter(pcs[t]) && !IsWriter(q) ==> LockInv(pcs[t := q], readers, None)
  {
    ThoseUpdate(pcs, t, q, HoldsRead);
  }

  lemma EnqueueLock(s: State, t: nat)
    requires LockInv(s.pcs, s.readers, s.writer) && t in s.pcs
    ensures var r := EnqueueStep(s, t); LockInv(r.pcs, r.readers, r.writer)
  {
    hide LockInv;
    match s.pcs[t]
    case Arriving => LockRead(s.pcs, s.readers, s.writer, t, Locked);
    case Locked => LockKeep(s.pcs, s.readers, s.writer, t, if s.closed then Dropped else Sending);
    case Sending => LockKeep(s.pcs, s.readers, s.writer, t, Sent);
    case Sent => LockRead(s.pcs, s.readers, s.writer, t, Returned(true));
    case Dropped => LockRead(s.pcs, s.readers, s.writer, t, Returned(false));
    case _ =>
  }

  lemma ShutdownLock(s: State, t: nat)
    requires LockInv(s.pcs, s.readers, s.writer) && t in s.pcs
    ensures var r := ShutdownStep(s, t); LockInv(r.pcs, r.readers, r.writer)
  {
    hide LockInv;
    match s.pcs[t]
    case Stopping => LockWrite(s.pcs, s.readers, s.writer, t, Queued);
    case Queued => LockWrite(s.pcs, s.readers, s.writer, t, Guarded);
    case Guarded => LockKeep(s.pcs, s.readers, s.writer, t, if s.closed then AlreadyClosed else Closing);
    case Closing => LockKeep(s.pcs, s.readers, s.writer, t, Unlocking);
    case Unlocking => LockWrite(s.pcs, s.readers, s.writer, t, Waiting);
    case AlreadyClosed => LockWrite(s.pcs, s.readers, s.writer, t, Stopped(false));
    case Waiting => LockKeep(s.pcs, s.readers, s.writer, t, ClosingQuit);
    case ClosingQuit => LockKeep(s.pcs, s.readers, s.writer, t, ClosingErrors);
    case ClosingErrors => LockKeep(s.pcs, s.readers, s.writer, t, Stopped(true));
    case _ =>
  }

  lemma WorkerLock(s: State, t: nat, c: Choice)
    requires LockInv(s.pcs, s.readers, s.writer) && t in s.pcs && IsWorker(s.pcs[t])
    ensures var r := WorkerStep(s, t, c); LockInv(r.pcs, r.readers, r.writer)
  {
    hide LockInv;
    WorkerMoves(s, t, c);
    LockKeep(s.pcs, s.readers, s.writer, t, WorkerStep(s, t, c).pcs[t]);
  }

  lemma WorkerMoves(s: State, t: nat, c: Choice)
    requires t in s.pcs && IsWorker(s.pcs[t])
    ensures var r := WorkerStep(s, t, c);
            && t in r.pcs && IsWorker(r.pcs[t]) && r.pcs == s.pcs[t := r.pcs[t]]
            && r.readers == s.readers && r.writer == s.writer && r.closed == s.closed && r.closer == s.closer
  {
  }

  // ---------- the closer ----------

  lemma CloserKeep(pcs: map<nat, Pc>, closed: bool, closer: Option<nat>, t: nat, q: Pc)
    requires CloserInv(pcs, closed, closer) && t in pcs && IsCloser(q) == IsCloser(pcs[t])
    requires (IsSending(q) ==> !closed) && (SawClosed(q) ==> closed)
    ensures CloserInv(pcs[t := q], closed, closer)
    ensures !IsCloser(q) ==> Phase(pcs[t := q], closer) == Phase(pcs, closer)
  {
  }

  lemma CloserSet(pcs: map<nat, Pc>, readers: set<nat>, writer: Option<nat>, closer: Option<nat>, t: nat)
    requires LockInv(pcs, readers, writer) && CloserInv(pcs, false, closer) && t in pcs && HoldsWrite(pcs[t])
    ensures CloserInv(pcs[t := Closing], true, Some(t))
  {
    forall u | u in pcs ensures !IsSending(pcs[u]) {
      assert HoldsRead(pcs[u]) ==> u in Those(pcs, HoldsRead);
    }
  }

  /** What the closing invariants are about. */
  ghost predicate Shut(s: State) {
    CloserInv(s.pcs, s.closed, s.closer) && ChannelInv(s)
  }

  lemma EnqueueClose(s: State, t: nat)
    requires Shut(s) && t in s.pcs && IsEnqueue(s.pcs[t])
    ensures Shut(EnqueueStep(s, t)) && EnqueueStep(s, t).panics == s.panics
  {
    hide CloserInv;
    NotSendingClosed(s, t);
    match s.pcs[t]
    case Arriving => CloserKeep(s.pcs, s.closed, s.closer, t, Locked);
    case Locked => CloserKeep(s.pcs, s.closed, s.closer, t, if s.closed then Dropped else Sending);
    case Sending => CloserKeep(s.pcs, s.closed, s.closer, t, Sent);
    case Sent => CloserKeep(s.pcs, s.closed, s.closer, t, Returned(true));
    case Dropped => CloserKeep(s.pcs, s.closed, s.closer, t, Returned(false));
    case _ =>
  }

  lemma NotSendingClosed(s: State, t: nat)
    requires Shut(s) && t in s.pcs
    ensures IsSending(s.pcs[t]) ==> s.jobsCloses == 0 && !s.closed
    ensures IsCloser(s.pcs[t]) ==> s.closer == Some(t) && s.closed
    ensures SawClosed(s.pcs[t]) ==> s.closed
    ensures !s.closed ==> s.jobsCloses == 0 && s.quitCloses == 0 && s.errCloses == 0
  {
  }

  lemma ShutdownClose(s: State, t: nat)
    requires Shut(s) && LockInv(s.pcs, s.readers, s.writer) && t in s.pcs && !IsEnqueue(s.pcs[t]) && !IsWorker(s.pcs[t])
    ensures Shut(ShutdownStep(s, t)) && ShutdownStep(s, t).panics == s.panics
  {
    hide CloserInv;
    hide LockInv;
    NotSendingClosed(s, t);
    match s.pcs[t]
    case Stopping => CloserKeep(s.pcs, s.closed, s.closer, t, Queued);
    case Queued => CloserKeep(s.pcs, s.closed, s.closer, t, Guarded);
    case Guarded =>
      if s.closed {
        CloserKeep(s.pcs, s.closed, s.closer, t, AlreadyClosed);
      } else {
        CloserSet(s.pcs, s.readers, s.writer, s.closer, t);
      }
    case Closing => CloserKeep(s.pcs, s.closed, s.closer, t, Unlocking);
    case Unlocking => CloserKeep(s.pcs, s.closed, s.closer, t, Waiting);
    case AlreadyClosed => CloserKeep(s.pcs, s.closed, s.closer, t, Stopped(false));
    case Waiting => CloserKeep(s.pcs, s.closed, s.closer, t, ClosingQuit);
    case ClosingQuit => CloserKeep(s.pcs, s.closed, s.closer, t, ClosingErrors);
    case ClosingErrors => CloserKeep(s.pcs, s.closed, s.closer, t, Stopped(true));
    case _ =>
  }

  // ---------- the wait count ----------

  lemma WaitMove(pcs: map<nat, Pc>, t: nat, q: Pc)
    requires t in pcs
    ensures |Those(pcs[t := q], IsSending)| == |Those(pcs, IsSending)| - (if IsSending(pcs[t]) then 1 else 0) + if IsSending(q) then 1 else 0
    ensures |Those(pcs[t := q], IsActive)| == |Those(pcs, IsActive)| - (if IsActive(pcs[t]) then 1 else 0) + if IsActive(q) then 1 else 0
  {
    ThoseUpdate(pcs, t, q, IsSending);
    ThoseUpdate(pcs, t, q, IsActive);
  }

  lemma EnqueueWait(s: State, t: nat)
    requires Shut(s) && WaitInv(s) && t in s.pcs && IsEnqueue(s.pcs[t])
    ensures WaitInv(EnqueueStep(s, t))
  {
    hide CloserInv;
    hide Those;
    var r := EnqueueStep(s, t);
    NotSendingClosed(s, t);
    EnqueueMoves(s, t);
    WaitMove(s.pcs, t, r.pcs[t]);
    CloserKeep(s.pcs, s.closed, s.closer, t, r.pcs[t]);
  }

  lemma EnqueueMoves(s: State, t: nat)
    requires t in s.pcs && IsEnqueue(s.pcs[t])
    ensures var r := EnqueueStep(s, t);
            && t in r.pcs && IsEnqueue(r.pcs[t]) && r.pcs == s.pcs[t := r.pcs[t]] && r.closer == s.closer
            && r.errs == s.errs && r.errSlots == s.errSlots && r.slots == s.slots && r.failed == s.failed && r.read == s.read
    ensures EnqueueStep(s, t).pcs[t].Sending? ==> s.pcs[t].Sending? || !s.closed
  {
  }

  /** While the closer has not passed the wait, or the count is zero, a Shutdown step cannot disturb it. */
  lemma ShutdownWait(s: State, t: nat)
    requires Shut(s) && WaitInv(s) && t in s.pcs && !IsEnqueue(s.pcs[t]) && !IsWorker(s.pcs[t])
    ensures WaitInv(ShutdownStep(s, t))
  {
    hide CloserInv;
    hide Those;
    var r := ShutdownStep(s, t);
    NotSendingClosed(s, t);
    ShutdownMoves(s, t);
    WaitMove(s.pcs, t, r.pcs[t]);
    if IsCloser(r.pcs[t]) == IsCloser(s.pcs[t]) {
      CloserKeep(s.pcs, s.closed, s.closer, t, r.pcs[t]);
    }
  }

  lemma ShutdownMoves(s: State, t: nat)
    requires t in s.pcs && !IsEnqueue(s.pcs[t]) && !IsWorker(s.pcs[t])
    ensures var r := ShutdownStep(s, t);
            t in r.pcs && !IsEnqueue(r.pcs[t]) && !IsWorker(r.pcs[t]) && r.pcs == s.pcs[t := r.pcs[t]] && SameWork(s, r)
  {
    ShutdownFrame(s, t);
  }

  /** Jobs, errors and their counts are untouched. */
  ghost predicate SameWork(s: State, r: State) {
    && r.wg == s.wg && r.buffer == s.buffer && r.ran == s.ran && r.slots == s.slots && r.errSlots == s.errSlots
    && r.errs == s.errs && r.failed == s.failed && r.read == s.read && r.jobsCloses >= s.jobsCloses
  }

  lemma ShutdownFrame(s: State, t: nat)
    requires t in s.pcs
    ensures SameWork(s, ShutdownStep(s, t))
  {
  }

  lemma WorkerWait(s: State, t: nat, c: Choice)
    requires Shut(s) && WaitInv(s) && t in s.pcs && IsWorker(s.pcs[t])
    ensures WaitInv(WorkerStep(s, t, c)) && WorkerStep(s, t, c).panics == s.panics && Shut(WorkerStep(s, t, c))
  {
    hide CloserInv;
    hide Those;
    var r := WorkerStep(s, t, c);
    WorkerMoves(s, t, c);
    WaitMove(s.pcs, t, r.pcs[t]);
    CloserKeep(s.pcs, s.closed, s.closer, t, r.pcs[t]);
    if IsActive(s.pcs[t]) {
      ActiveCounts(s, t);
    }
  }

  lemma ActiveCounts(s: State, t: nat)
    requires t in s.pcs && IsActive(s.pcs[t])
    ensures |Those(s.pcs, IsActive)| > 0
  {
    assert t in Those(s.pcs, IsActive);
  }

  // ---------- every job in one place ----------

  lemma EnqueueJobs(s: State, t: nat)
    requires JobInv(s) && t in s.pcs && IsEnqueue(s.pcs[t])
    ensures JobInv(EnqueueStep(s, t))
  {
    hide RunningOn;
    hide Occ;
    var r := EnqueueStep(s, t);
    EnqueueMoves(s, t);
    forall j ensures Times(r, j) == if j in r.pcs && Accepted(r.pcs[j]) then 1 else 0 {
      OccSnoc(s.buffer, t, j);
      RunningUpdate(s.pcs, t, r.pcs[t], j);
      assert Times(s, j) == if j in s.pcs && Accepted(s.pcs[j]) then 1 else 0;
    }
  }

  lemma ShutdownJobs(s: State, t: nat)
    requires JobInv(s) && t in s.pcs && !IsEnqueue(s.pcs[t]) && !IsWorker(s.pcs[t])
    ensures JobInv(ShutdownStep(s, t))
  {
    hide RunningOn;
    hide Occ;
    hide ShutdownStep;
    var r := ShutdownStep(s, t);
    ShutdownMoves(s, t);
    forall j ensures Times(r, j) == if j in r.pcs && Accepted(r.pcs[j]) then 1 else 0 {
      RunningUpdate(s.pcs, t, r.pcs[t], j);
      assert Times(s, j) == if j in s.pcs && Accepted(s.pcs[j]) then 1 else 0;
    }
  }

  lemma WorkerTimes(s: State, t: nat, c: Choice, j: nat)
    requires t in s.pcs && IsWorker(s.pcs[t])
    ensures Times(WorkerStep(s, t, c), j) == Times(s, j)
  {
    hide RunningOn;
    hide Occ;
    if s.buffer != [] {
      OccHead(s.buffer, j);
    }
    if s.pcs[t].Running? {
      OccSnoc(s.ran, s.pcs[t].job, j);
    }
    WorkerMoves(s, t, c);
    RunningUpdate(s.pcs, t, WorkerStep(s, t, c).pcs[t], j);
  }

  lemma WorkerJobs(s: State, t: nat, c: Choice)
    requires JobInv(s) && t in s.pcs && IsWorker(s.pcs[t])
    ensures JobInv(WorkerStep(s, t, c))
  {
    hide RunningOn;
    hide Times;
    hide WorkerStep;
    var r := WorkerStep(s, t, c);
    WorkerMoves(s, t, c);
    forall j ensures Times(r, j) == if j in r.pcs && Accepted(r.pcs[j]) then 1 else 0 {
      WorkerTimes(s, t, c, j);
    }
  }

  // ---------- every run ----------

  lemma StepInv(s: State, e: Event)
    requires Inv(s)
    ensures Inv(Step(s, e))
  {
    hide LockInv;
    hide CloserInv;
    hide RunningOn;
    hide Those;
    if e.Act? && e.t in s.pcs {
      hide EnqueueStep;
      hide ShutdownStep;
      hide WorkerStep;
      hide JobInv;
      hide WaitInv;
      var t := e.t;
      if IsEnqueue(s.pcs[t]) {
        EnqueueLock(s, t);
        EnqueueClose(s, t);
        EnqueueWait(s, t);
        EnqueueJobs(s, t);
      } else if IsWorker(s.pcs[t]) {
        WorkerLock(s, t, e.c);
        WorkerWait(s, t, e.c);
        WorkerJobs(s, t, e.c);
      } else {
        ShutdownLock(s, t);
        ShutdownClose(s, t);
        ShutdownWait(s, t);
        ShutdownJobs(s, t);
      }
    } else {
      var r := Step(s, e);
      forall j ensures Times(r, j) == Times(s, j) {
      }
    }
  }

  lemma {:induction false} Reachable(s: State, es: seq<Event>)
    requires Init(s)
    ensures Inv(Run(s, es))
  {
    if es == [] {
      InitInv(s);
    } else {
      Reachable(s, es[..|es| - 1]);
      StepInv(Run(s, es[..|es| - 1]), es[|es| - 1]);
    }
  }

  /**
   In every interleaving: no send on a closed channel, no second closing, no negative count; the wait count
   is mid-send plus buffered plus running jobs; no job runs twice or without having been accepted.
   */
  lemma PoolSafe(s: State, es: seq<Event>)
    requires Init(s)
    ensures var r := Run(s, es);
            && r.panics == 0 && r.jobsCloses <= 1 && r.quitCloses <= 1 && r.errCloses <= 1
            && r.wg == |Those(r.pcs, IsSending)| + |r.buffer| + |Those(r.pcs, IsActive)|
            && forall j :: Occ(r.ran, j) <= if j in r.pcs && Accepted(r.pcs[j]) then 1 else 0
  {
    Reachable(s, es);
    var r := Run(s, es);
    forall j ensures Occ(r.ran, j) <= if j in r.pcs && Accepted(r.pcs[j]) then 1 else 0 {
      assert Times(r, j) <= 1;
    }
  }

  /** Once Shutdown has passed its wait, every accepted job has run exactly once. */
  lemma ShutdownWaitsForAll(s: State, es: seq<Event>, t: nat, j: nat)
    requires Init(s)
    requires var r := Run(s, es);
             && t in r.pcs && (r.pcs[t].ClosingQuit? || r.pcs[t].ClosingErrors? || r.pcs[t] == Stopped(true))
             && j in r.pcs && Accepted(r.pcs[j])
    ensures Occ(Run(s, es).ran, j) == 1
  {
    Reachable(s, es);
    var r := Run(s, es);
    hide Run;
    assert r.closer == Some(t) && Phase(r.pcs, r.closer) >= 2;
    assert |Those(r.pcs, IsActive)| == 0 && r.buffer == [];
    assert RunningOn(r.pcs, j) == {} by {
      assert forall w :: w in RunningOn(r.pcs, j) ==> w in Those(r.pcs, IsActive);
    }
    assert Times(r, j) == 1;
  }

  // ---------- when the wait can end ----------

  /** Workers leave only after the jobs channel is closed and drained. */
  ghost predicate ExitInv(s: State) {
    forall t :: t in s.pcs && s.pcs[t].Exited? ==> s.closed && s.jobsCloses > 0 && s.buffer == []
  }

  lemma StepExit(s: State, e: Event)
    requires Inv(s) && ExitInv(s)
    ensures ExitInv(Step(s, e))
  {
    hide LockInv;
    hide JobInv;
    if e.Act? && e.t in s.pcs {
      NotSendingClosed(s, e.t);
      QuitMeansDone(s);
      hide CloserInv;
      hide WaitInv;
      var t, r := e.t, Step(s, e);
      if IsWorker(s.pcs[t]) {
        WorkerMoves(s, t, e.c);
      } else if IsEnqueue(s.pcs[t]) {
        EnqueueMoves(s, t);
      } else {
        ShutdownMoves(s, t);
      }
    }
  }

  lemma QuitMeansDone(s: State)
    requires Inv(s)
    ensures s.quitCloses > 0 ==> s.closed && s.jobsCloses > 0 && s.buffer == []
    ensures s.jobsCloses > 0 ==> s.closed
    ensures s.closed ==> Those(s.pcs, IsSending) == {}
  {
  }

  lemma {:induction false} ReachableExit(s: State, es: seq<Event>)
    requires Init(s)
    ensures Inv(Run(s, es)) && ExitInv(Run(s, es))
  {
    Reachable(s, es);
    if es != [] {
      ReachableExit(s, es[..|es| - 1]);
      StepExit(Run(s, es[..|es| - 1]), es[|es| - 1]);
    }
  }

  /** Both channels have one place per worker, as the constructor makes them. */
  ghost predicate Built(s: State) {
    |Those(s.pcs, IsWorker)| == s.slots == s.errSlots
  }

  predicate IsReporting(pc: Pc) {
    pc.Reporting?
  }

  /** Every error a job returned is in the channel, was read from it, or waits to be reported. */
  ghost predicate Counted(s: State) {
    s.errs <= s.errSlots && s.errs + s.read + |Those(s.pcs, IsReporting)| == s.failed
  }

  ghost predicate Sound(s: State) {
    Inv(s) && ExitInv(s) && Built(s) && Counted(s) && |s.buffer| <= s.slots
  }

  lemma StepSound(s: State, e: Event)
    requires Sound(s)
    ensures Sound(Step(s, e))
  {
    StepInv(s, e);
    StepExit(s, e);
    hide Inv;
    hide ExitInv;
    if e.Act? && e.t in s.pcs {
      StepRoles(s, e.t, e.c);
      ThoseUpdate(s.pcs, e.t, Step(s, e).pcs[e.t], IsWorker);
      StepCounted(s, e.t, e.c);
    }
  }

  lemma StepCounted(s: State, t: nat, c: Choice)
    requires t in s.pcs && |s.buffer| <= s.slots && Counted(s)
    ensures Counted(Step(s, Act(t, c)))
  {
    hide Those;
    if IsEnqueue(s.pcs[t]) {
      hide EnqueueStep;
      EnqueueMoves(s, t);
      ThoseUpdate(s.pcs, t, EnqueueStep(s, t).pcs[t], IsReporting);
    } else if IsWorker(s.pcs[t]) {
      WorkerCounted(s, t, c);
    } else {
      hide ShutdownStep;
      ShutdownMoves(s, t);
      ThoseUpdate(s.pcs, t, ShutdownStep(s, t).pcs[t], IsReporting);
    }
  }

  lemma WorkerCounted(s: State, t: nat, c: Choice)
    requires t in s.pcs && IsWorker(s.pcs[t]) && Counted(s)
    ensures Counted(WorkerStep(s, t, c))
  {
    hide Those;
    WorkerMoves(s, t, c);
    ThoseUpdate(s.pcs, t, WorkerStep(s, t, c).pcs[t], IsReporting);
  }

  /** A goroutine keeps its role, and the channels their size. */
  lemma StepRoles(s: State, t: nat, c: Choice)
    requires t in s.pcs && |s.buffer| <= s.slots
    ensures var r := Step(s, Act(t, c));
            && t in r.pcs && r.pcs == s.pcs[t := r.pcs[t]] && IsWorker(r.pcs[t]) == IsWorker(s.pcs[t])
            && r.slots == s.slots && r.errSlots == s.errSlots && |r.buffer| <= r.slots
  {
    if IsEnqueue(s.pcs[t]) {
      EnqueueMoves(s, t);
    } else if IsWorker(s.pcs[t]) {
      WorkerMoves(s, t, c);
    } else {
      ShutdownMoves(s, t);
    }
  }

  lemma {:induction false} ReachableSound(s: State, es: seq<Event>)
    requires Init(s) && Built(s)
    ensures Sound(Run(s, es))
  {
    if es == [] {
      InitInv(s);
      assert Those(s.pcs, IsReporting) == {};
    } else {
      ReachableSound(s, es[..|es| - 1]);
      StepSound(Run(s, es[..|es| - 1]), es[|es| - 1]);
    }
  }

  // ---------- who can step ----------

  predicate IsShutdown(pc: Pc) {
    !IsEnqueue(pc) && !IsWorker(pc)
  }

  /** No goroutine can step, whatever it chooses. */
  ghost predicate Idle(s: State) {
    forall t, c :: t in s.pcs ==> Step(s, Act(t, c)) == s
  }

  /** Some Shutdown call has not returned. */
  ghost predicate Unreturned(s: State) {
    exists t :: t in s.pcs && IsShutdown(s.pcs[t]) && !s.pcs[t].Stopped?
  }

  /** `t` cannot step. */
  ghost predicate Stays(s: State, t: nat)
    requires t in s.pcs
  {
    match s.pcs[t]
    case Arriving => s.writer.Some?
    case Sending => s.jobsCloses == 0 && |s.buffer| >= s.slots
    case Returned(_) => true
    case Stopping => s.writer.Some?
    case Queued => s.readers != {}
    case Waiting => s.wg != 0
    case Stopped(_) => true
    case Select => s.buffer == [] && s.jobsCloses == 0 && s.quitCloses == 0
    case Reporting(_) => s.errCloses == 0 && s.errs >= s.errSlots
    case Exited => true
    case _ => false
  }

  lemma EnqueueStays(s: State, t: nat)
    requires t in s.pcs && IsEnqueue(s.pcs[t])
    ensures EnqueueStep(s, t) == s <==> Stays(s, t)
  {
    if !Stays(s, t) {
      assert EnqueueStep(s, t).pcs[t] != s.pcs[t] || EnqueueStep(s, t).panics != s.panics;
    }
  }

  lemma ShutdownStays(s: State, t: nat)
    requires t in s.pcs && IsShutdown(s.pcs[t])
    ensures ShutdownStep(s, t) == s <==> Stays(s, t)
  {
    if !Stays(s, t) {
      assert ShutdownStep(s, t).pcs[t] != s.pcs[t];
    }
  }

  lemma WorkerStays(s: State, t: nat)
    requires t in s.pcs && IsWorker(s.pcs[t])
    ensures (forall c :: WorkerStep(s, t, c) == s) <==> Stays(s, t)
  {
    if !Stays(s, t) {
      var c := if s.pcs[t].Select? && s.buffer == [] && s.jobsCloses == 0 then Quit else Go;
      assert WorkerStep(s, t, c).pcs[t] != s.pcs[t] || WorkerStep(s, t, c).panics != s.panics;
    }
  }

  lemma StaysIff(s: State, t: nat)
    requires t in s.pcs
    ensures (forall c :: Step(s, Act(t, c)) == s) <==> Stays(s, t)
  {
    hide Stays;
    hide EnqueueStep;
    hide ShutdownStep;
    hide WorkerStep;
    if IsEnqueue(s.pcs[t]) {
      EnqueueStays(s, t);
      assert Step(s, Act(t, Go)) == EnqueueStep(s, t);
    } else if IsWorker(s.pcs[t]) {
      WorkerStays(s, t);
      forall c ensures Step(s, Act(t, c)) == WorkerStep(s, t, c) {
      }
    } else {
      ShutdownStays(s, t);
      assert Step(s, Act(t, Go)) == ShutdownStep(s, t);
    }
  }

  lemma IdleIff(s: State)
    ensures Idle(s) <==> forall t :: t in s.pcs ==> Stays(s, t)
  {
    hide Step;
    hide Stays;
    forall t | t in s.pcs ensures (forall c :: Step(s, Act(t, c)) == s) <==> Stays(s, t) {
      StaysIff(s, t);
    }
  }

  // ---------- deadlock ----------

  ghost predicate WorkersStuck(s: State) {
    forall t :: t in s.pcs && IsWorker(s.pcs[t]) ==> s.pcs[t].Reporting? || s.pcs[t].Exited?
  }

  /** Nobody can get the workers' errors out of the way, and jobs or a sender wait for the workers. */
  ghost predicate Dead(s: State) {
    && s.errs >= s.errSlots && WorkersStuck(s)
    && ((s.jobsCloses > 0 && s.wg > 0) || (|s.buffer| >= s.slots && exists t :: t in s.pcs && s.pcs[t].Sending?))
  }

  /** Every caller has returned, or waits at a send, for the jobs, at the lock, or behind a queued Shutdown. */
  ghost predicate CallersParked(s: State) {
    forall t :: t in s.pcs && !IsWorker(s.pcs[t]) ==>
      var pc := s.pcs[t];
      || pc.Sending? || pc.Returned? || pc.Waiting? || pc.Stopped?
      || (pc.Queued? && s.jobsCloses == 0) || ((pc.Arriving? || pc.Stopping?) && s.writer.Some?)
  }

  /** What the invariants say of one goroutine. */
  lemma Facts(s: State, t: nat)
    requires Sound(s) && t in s.pcs
    ensures s.pcs[t].Sending? ==> s.jobsCloses == 0 && s.quitCloses == 0 && s.errCloses == 0 && t in s.readers
    ensures s.pcs[t].Waiting? ==> s.jobsCloses > 0 && s.closed
    ensures IsWriter(s.pcs[t]) <==> s.writer == Some(t)
    ensures s.pcs[t].Exited? ==> s.jobsCloses > 0 && s.buffer == []
    ensures s.wg > 0 ==> s.errCloses == 0 && s.quitCloses == 0
    ensures IsActive(s.pcs[t]) || s.pcs[t].Sending? ==> s.wg > 0
    ensures |s.buffer| <= s.slots
  {
    hide JobInv;
    NotSendingClosed(s, t);
    assert HoldsRead(s.pcs[t]) ==> t in Those(s.pcs, HoldsRead);
    assert IsSending(s.pcs[t]) ==> t in Those(s.pcs, IsSending);
    assert IsActive(s.pcs[t]) ==> t in Those(s.pcs, IsActive);
  }

  /** A reader that stays is a sender. */
  lemma ReaderSends(s: State) returns (t: nat)
    requires Sound(s) && Idle(s) && s.readers != {}
    ensures t in s.pcs && s.pcs[t].Sending?
  {
    IdleIff(s);
    hide Idle;
    t :| t in s.readers;
    assert t in Those(s.pcs, HoldsRead);
    assert Stays(s, t);
  }

  /** At rest only a Shutdown caller queued behind readers is at the lock. */
  lemma WriterQueued(s: State)
    requires Sound(s) && Idle(s) && s.writer.Some?
    ensures s.readers != {}
  {
    IdleIff(s);
    hide Idle;
    hide JobInv;
    assert Stays(s, s.writer.value);
  }

  /** With a sender or an outstanding job waiting, a pool at rest has its errors full and its workers stuck. */
  lemma RestIsStuck(s: State)
    requires Sound(s) && Idle(s)
    requires (exists t :: t in s.pcs && s.pcs[t].Sending?) || (s.jobsCloses > 0 && s.wg > 0)
    ensures s.errs >= s.errSlots && WorkersStuck(s) && (s.jobsCloses == 0 ==> |s.buffer| >= s.slots)
  {
    hide Inv;
    hide ExitInv;
    IdleIff(s);
    hide Idle;
    if s.jobsCloses == 0 {
      var t :| t in s.pcs && s.pcs[t].Sending?;
      assert Stays(s, t);
    }
    forall w | w in s.pcs && IsWorker(s.pcs[w]) ensures s.pcs[w].Reporting? || s.pcs[w].Exited? {
      assert Stays(s, w);
      if s.pcs[w].Select? {
        SomeWorker(s, w);
      }
    }
    if s.errSlots > 0 {
      var w := Unstuck(s);
      assert Stays(s, w);
    }
  }

  lemma SomeWorker(s: State, w: nat)
    requires Built(s) && w in s.pcs && IsWorker(s.pcs[w])
    ensures s.slots > 0
  {
    assert w in Those(s.pcs, IsWorker);
  }

  /** Room for errors and something to wait for: some worker has not left. */
  lemma Unstuck(s: State) returns (w: nat)
    requires Sound(s) && s.errSlots > 0 && WorkersStuck(s)
    requires (exists t :: t in s.pcs && s.pcs[t].Sending?) || (s.jobsCloses > 0 && s.wg > 0)
    ensures w in s.pcs && s.pcs[w].Reporting?
  {
    hide JobInv;
    assert Those(s.pcs, IsWorker) != {};
    w :| w in Those(s.pcs, IsWorker);
    Facts(s, w);
    if s.pcs[w].Exited? {
      if t :| t in s.pcs && s.pcs[t].Sending? {
        Facts(s, t);
      }
      QuitMeansDone(s);
      assert |Those(s.pcs, IsActive)| > 0;
      w :| w in Those(s.pcs, IsActive);
    }
  }

  /**
   Deadlock, before or after the close: a Shutdown call has not returned and no goroutine can step if and only
   if the callers are parked, the error channel is full, every worker that has not left waits to report on it,
   and either the jobs channel is closed with jobs outstanding or a full buffer holds up a sender, and with it
   the read lock a Shutdown call waits for.
   */
  lemma DeadlockIff(s: State)
    requires Sound(s)
    ensures Unreturned(s) && Idle(s) <==> Unreturned(s) && CallersParked(s) && Dead(s)
  {
    if Unreturned(s) && Idle(s) {
      RestIsDead(s);
    }
    if Unreturned(s) && CallersParked(s) && Dead(s) {
      DeadIsRest(s);
    }
  }

  lemma RestIsDead(s: State)
    requires Sound(s) && Unreturned(s) && Idle(s)
    ensures CallersParked(s) && Dead(s)
  {
    IdleIff(s);
    var t :| t in s.pcs && IsShutdown(s.pcs[t]) && !s.pcs[t].Stopped?;
    assert Stays(s, t);
    Facts(s, t);
    if s.writer.Some? {
      WriterQueued(s);
      var u := ReaderSends(s);
      Facts(s, u);
    }
    WaitNotNegative(s);
    RestIsStuck(s);
    hide Idle;
    hide Inv;
    hide ExitInv;
    forall u | u in s.pcs && !IsWorker(s.pcs[u])
      ensures var pc := s.pcs[u];
              || pc.Sending? || pc.Returned? || pc.Waiting? || pc.Stopped?
              || (pc.Queued? && s.jobsCloses == 0) || ((pc.Arriving? || pc.Stopping?) && s.writer.Some?)
    {
      assert Stays(s, u);
      if s.pcs[u].Queued? {
        var v := Reader(s);
        Facts(s, v);
      }
    }
  }

  lemma WaitNotNegative(s: State)
    requires Sound(s)
    ensures s.wg >= 0
  {
  }

  lemma Reader(s: State) returns (t: nat)
    requires Sound(s) && s.readers != {} && forall t :: t in s.pcs ==> Stays(s, t)
    ensures t in s.pcs && s.pcs[t].Sending?
  {
    IdleIff(s);
    t := ReaderSends(s);
  }

  lemma DeadIsRest(s: State)
    requires Sound(s) && CallersParked(s) && Dead(s)
    ensures Idle(s)
  {
    hide Sound;
    hide Idle;
    IdleIff(s);
    forall t | t in s.pcs ensures Stays(s, t) {
      Facts(s, t);
      if u :| u in s.pcs && s.pcs[u].Sending? {
        Facts(s, u);
      }
    }
  }

  /** Only reading an error helps: a dead pool stays dead through every step of every goroutine. */
  lemma DeadStays(s: State, t: nat, c: Choice)
    requires Sound(s) && Dead(s)
    ensures Dead(Step(s, Act(t, c)))
  {
    hide Sound;
    if t in s.pcs {
      Facts(s, t);
      StepRoles(s, t, c);
      if u :| u in s.pcs && s.pcs[u].Sending? {
        Facts(s, u);
        SenderHeld(s, t, c, u);
      } else {
        CloseKept(s, t, c);
      }
      StuckKept(s, t, c);
    }
  }

  lemma SenderHeld(s: State, t: nat, c: Choice, u: nat)
    requires t in s.pcs && u in s.pcs && s.pcs[u].Sending? && |s.buffer| >= s.slots && s.jobsCloses == 0 && WorkersStuck(s)
    ensures var r := Step(s, Act(t, c)); u in r.pcs && r.pcs[u].Sending? && |r.buffer| >= r.slots
  {
    if IsWorker(s.pcs[t]) {
      assert s.pcs[t].Reporting? || s.pcs[t].Exited?;
    } else if !IsEnqueue(s.pcs[t]) {
      hide ShutdownStep;
      ShutdownMoves(s, t);
    } else {
      EnqueueHeld(s, t, u);
    }
  }

  lemma EnqueueHeld(s: State, t: nat, u: nat)
    requires t in s.pcs && u in s.pcs && s.pcs[u].Sending? && |s.buffer| >= s.slots && s.jobsCloses == 0
    ensures var r := EnqueueStep(s, t); u in r.pcs && r.pcs[u].Sending? && |r.buffer| >= r.slots
  {
  }

  lemma CloseKept(s: State, t: nat, c: Choice)
    requires t in s.pcs && s.jobsCloses > 0 && s.wg > 0 && WorkersStuck(s)
    ensures var r := Step(s, Act(t, c)); r.jobsCloses > 0 && r.wg > 0
  {
    if IsWorker(s.pcs[t]) {
      assert s.pcs[t].Reporting? || s.pcs[t].Exited?;
    } else if !IsEnqueue(s.pcs[t]) {
      hide ShutdownStep;
      ShutdownFrame(s, t);
    }
  }

  lemma StuckKept(s: State, t: nat, c: Choice)
    requires t in s.pcs && WorkersStuck(s) && s.errs >= s.errSlots && |s.buffer| <= s.slots
    ensures WorkersStuck(Step(s, Act(t, c))) && Step(s, Act(t, c)).errs >= Step(s, Act(t, c)).errSlots
  {
    StepRoles(s, t, c);
    if IsWorker(s.pcs[t]) {
      assert s.pcs[t].Reporting? || s.pcs[t].Exited?;
    }
  }

  lemma {:induction false} DeadForever(s: State, es: seq<Event>)
    requires Sound(s) && Dead(s) && forall i :: 0 <= i < |es| ==> es[i].Act?
    ensures Sound(Run(s, es)) && Dead(Run(s, es))
    ensures forall t :: t in Run(s, es).pcs ==> var pc := Run(s, es).pcs[t]; !pc.ClosingQuit? && !pc.ClosingErrors? && pc != Stopped(true)
  {
    hide Sound;
    hide Dead;
    if es != [] {
      var pre, e := es[..|es| - 1], es[|es| - 1];
      DeadForever(s, pre);
      StepSound(Run(s, pre), e);
      DeadStays(Run(s, pre), e.t, e.c);
    }
    NoneReturns(Run(s, es));
  }

  /** In a dead pool no Shutdown call is past its wait. */
  lemma NoneReturns(s: State)
    requires Sound(s) && Dead(s)
    ensures forall t :: t in s.pcs ==> !s.pcs[t].ClosingQuit? && !s.pcs[t].ClosingErrors? && s.pcs[t] != Stopped(true)
  {
    hide JobInv;
    if u :| u in s.pcs && s.pcs[u].Sending? {
      Facts(s, u);
    }
  }

  // ---------- when Shutdown returns ----------

  /** Somebody calls Shutdown. */
  ghost predicate Called(s: State) {
    exists t :: t in s.pcs && IsShutdown(s.pcs[t])
  }

  /**
   At rest a Shutdown call has not returned exactly when one was made and more jobs failed than the error channel
   holds and readers have taken.
   */
  lemma AtRestIff(s: State)
    requires Sound(s) && s.slots > 0 && Idle(s)
    ensures Unreturned(s) <==> Called(s) && s.failed > s.errSlots + s.read
  {
    if Unreturned(s) {
      RestIsDead(s);
      var w := Unstuck(s);
      assert w in Those(s.pcs, IsReporting);
    } else if Called(s) && s.failed > s.errSlots + s.read {
      ReportersHoldShutdown(s);
    }
  }

  /** While a worker waits to report, no call of Shutdown that was first has returned. */
  lemma ReportersHoldShutdown(s: State)
    requires Sound(s) && Called(s) && s.failed > s.errSlots + s.read
    ensures Unreturned(s)
  {
    hide JobInv;
    assert |Those(s.pcs, IsReporting)| > 0;
    var w :| w in Those(s.pcs, IsReporting);
    Facts(s, w);
    var t :| t in s.pcs && IsShutdown(s.pcs[t]);
    NotSendingClosed(s, t);
    if s.pcs[t].Stopped? {
      var u := s.closer.value;
      assert Phase(s.pcs, s.closer) < 2;
      assert IsShutdown(s.pcs[u]) && !s.pcs[u].Stopped?;
    }
  }

  /** Over every run that comes to rest. */
  lemma ShutdownBlockedIff(s: State, es: seq<Event>)
    requires Init(s) && Built(s) && s.slots > 0 && Idle(Run(s, es))
    ensures var r := Run(s, es); Unreturned(r) <==> Called(r) && r.failed > r.errSlots + r.read
  {
    ReachableSound(s, es);
    SameSize(s, es);
    AtRestIff(Run(s, es));
  }

  lemma {:induction false} SameSize(s: State, es: seq<Event>)
    requires Init(s) && Built(s)
    ensures Run(s, es).slots == s.slots
  {
    if es != [] {
      var pre, e := es[..|es| - 1], es[|es| - 1];
      SameSize(s, pre);
      ReachableSound(s, pre);
      if e.Act? && e.t in Run(s, pre).pcs {
        StepRoles(Run(s, pre), e.t, e.c);
      }
    }
  }

  // ---------- every schedule ends ----------

  /** How many steps a goroutine may still take by itself. */
  function Rank(pc: Pc): nat {
    match pc
    case Arriving => 20
    case Locked => 19
    case Sending => 18
    case Sent => 1
    case Dropped => 1
    case Returned(_) => 0
    case Stopping => 10
    case Queued => 9
    case Guarded => 8
    case Closing => 7
    case Unlocking => 6
    case Waiting => 5
    case ClosingQuit => 4
    case ClosingErrors => 3
    case AlreadyClosed => 1
    case Stopped(_) => 0
    case Select => 1
    case Running(_) => 4
    case Reporting(_) => 3
    case Finishing(_) => 2
    case Exited => 0
  }

  ghost function RankSum(pcs: map<nat, Pc>): nat {
    if pcs == map[] then 0
    else
      var t :| t in pcs;
      Rank(pcs[t]) + RankSum(pcs - {t})
  }

  lemma {:induction false} RankPick(pcs: map<nat, Pc>, t: nat)
    requires t in pcs
    ensures RankSum(pcs) == Rank(pcs[t]) + RankSum(pcs - {t})
    decreases |pcs|
  {
    var u :| u in pcs && RankSum(pcs) == Rank(pcs[u]) + RankSum(pcs - {u});
    if u != t {
      var a, b := pcs - {u}, pcs - {t};
      assert a - {t} == b - {u};
      hide RankSum;
      hide Rank;
      RankPick(a, t);
      RankPick(b, u);
    }
  }

  lemma RankUpdate(pcs: map<nat, Pc>, t: nat, q: Pc)
    requires t in pcs
    ensures RankSum(pcs[t := q]) == RankSum(pcs) - Rank(pcs[t]) + Rank(q)
  {
    RankPick(pcs, t);
    RankPick(pcs[t := q], t);
    assert pcs[t := q] - {t} == pcs - {t};
  }

  /** A buffered job still has to be taken and run. */
  ghost function Measure(s: State): nat {
    RankSum(s.pcs) + 4 * |s.buffer|
  }

  lemma EnqueueDecreases(s: State, t: nat)
    requires t in s.pcs && IsEnqueue(s.pcs[t]) && EnqueueStep(s, t) != s && (s.pcs[t].Sending? ==> s.jobsCloses == 0)
    ensures Measure(EnqueueStep(s, t)) < Measure(s)
  {
    hide RankSum;
    EnqueueMoves(s, t);
    RankUpdate(s.pcs, t, EnqueueStep(s, t).pcs[t]);
  }

  lemma ShutdownDecreases(s: State, t: nat)
    requires t in s.pcs && IsShutdown(s.pcs[t]) && ShutdownStep(s, t) != s
    ensures Measure(ShutdownStep(s, t)) < Measure(s)
  {
    hide RankSum;
    ShutdownMoves(s, t);
    RankUpdate(s.pcs, t, ShutdownStep(s, t).pcs[t]);
  }

  lemma WorkerDecreases(s: State, t: nat, c: Choice)
    requires t in s.pcs && IsWorker(s.pcs[t]) && WorkerStep(s, t, c) != s && (s.pcs[t].Reporting? ==> s.errCloses == 0)
    ensures Measure(WorkerStep(s, t, c)) < Measure(s)
  {
    hide RankSum;
    WorkerMoves(s, t, c);
    RankUpdate(s.pcs, t, WorkerStep(s, t, c).pcs[t]);
  }

  /** Every step that changes anything brings the pool closer to rest. */
  lemma StepDecreases(s: State, t: nat, c: Choice)
    requires Sound(s) && t in s.pcs && Step(s, Act(t, c)) != s
    ensures Measure(Step(s, Act(t, c))) < Measure(s)
  {
    Facts(s, t);
    hide Sound;
    hide Measure;
    hide EnqueueStep;
    hide ShutdownStep;
    hide WorkerStep;
    if IsEnqueue(s.pcs[t]) {
      EnqueueDecreases(s, t);
    } else if IsWorker(s.pcs[t]) {
      WorkerDecreases(s, t, c);
    } else {
      ShutdownDecreases(s, t);
    }
  }

  /** Event `i` of the schedule is a goroutine's step that changes something. */
  ghost predicate Effective(s: State, es: seq<Event>, i: nat)
    requires i < |es|
  {
    es[i].Act? && Run(s, es[..i + 1]) != Run(s, es[..i])
  }

  /** No livelock: a schedule of such steps is no longer than the measure, whatever the goroutines choose. */
  lemma {:induction false} SchedulesEnd(s: State, es: seq<Event>)
    requires Sound(s) && forall i: nat :: i < |es| ==> Effective(s, es, i)
    ensures Sound(Run(s, es)) && |es| + Measure(Run(s, es)) <= Measure(s)
  {
    hide Sound;
    hide Measure;
    if es != [] {
      var n := |es| - 1;
      var pre := es[..n];
      forall i: nat | i < n ensures Effective(s, pre, i) {
        assert pre[..i + 1] == es[..i + 1] && pre[..i] == es[..i];
        assert Effective(s, es, i);
      }
      SchedulesEnd(s, pre);
      assert Effective(s, es, n) && es[..n + 1] == es;
      StepSound(Run(s, pre), es[n]);
      StepDecreases(Run(s, pre), es[n].t, es[n].c);
    }
  }

  /** A goroutine that can step, without a job failing. */
  lemma Mover(s: State) returns (t: nat, c: Choice)
    requires !Idle(s)
    ensures t in s.pcs && c != Fail && Step(s, Act(t, c)) != s
  {
    IdleIff(s);
    hide Idle;
    t :| t in s.pcs && !Stays(s, t);
    c := if s.pcs[t].Select? && s.buffer == [] && s.jobsCloses == 0 then Quit else Go;
    if IsEnqueue(s.pcs[t]) {
      EnqueueStays(s, t);
    } else if IsWorker(s.pcs[t]) {
      assert WorkerStep(s, t, c).pcs[t] != s.pcs[t] || WorkerStep(s, t, c).panics != s.panics;
    } else {
      ShutdownStays(s, t);
    }
  }

  lemma SameErrors(s: State, t: nat, c: Choice)
    requires t in s.pcs && c != Fail
    ensures var r := Step(s, Act(t, c)); r.failed == s.failed && r.read == s.read && r.errSlots == s.errSlots && r.slots == s.slots
  {
    if IsEnqueue(s.pcs[t]) {
      EnqueueMoves(s, t);
    } else if !IsWorker(s.pcs[t]) {
      ShutdownFrame(s, t);
    }
  }

  ghost predicate Quiet(e: Event) {
    e.Act? && e.c != Fail
  }

  lemma {:induction false} ComesToRest(s: State) returns (es: seq<Event>)
    requires Sound(s)
    ensures forall i :: 0 <= i < |es| ==> Quiet(es[i])
    ensures var r := Run(s, es);
            Sound(r) && Idle(r) && r.failed == s.failed && r.read == s.read && r.errSlots == s.errSlots && r.slots == s.slots
    decreases Measure(s)
  {
    hide Sound;
    hide Idle;
    hide Measure;
    if Idle(s) {
      es := [];
    } else {
      var t, c := Mover(s);
      StepDecreases(s, t, c);
      StepSound(s, Act(t, c));
      SameErrors(s, t, c);
      var rest := ComesToRest(Step(s, Act(t, c)));
      es := [Act(t, c)] + rest;
      RunAppend(s, [Act(t, c)], rest);
      RunSingle(s, Act(t, c));
    }
  }

  /**
   Progress: from any point of any run at which no more jobs have failed than the error channel holds and readers
   have taken, the goroutines can go on, without anybody reading an error, until every Shutdown call has returned.
   */
  lemma ShutdownCanReturn(s: State, es: seq<Event>) returns (more: seq<Event>)
    requires Init(s) && Built(s) && s.slots > 0 && Run(s, es).failed <= Run(s, es).errSlots + Run(s, es).read
    ensures forall i :: 0 <= i < |more| ==> Quiet(more[i])
    ensures !Unreturned(Run(s, es + more))
  {
    ReachableSound(s, es);
    SameSize(s, es);
    more := ComesToRest(Run(s, es));
    RunAppend(s, es, more);
    AtRestIff(Run(s, es + more));
  }

  // ---------- both deadlocks are reachable ----------

  lemma {:induction false} RunAppend(s: State, a: seq<Event>, b: seq<Event>)
    ensures Run(s, a + b) == Run(Run(s, a), b)
  {
    if b == [] {
      assert a + b == a;
    } else {
      assert (a + b)[..|a + b| - 1] == a + b[..|b| - 1];
      RunAppend(s, a, b[..|b| - 1]);
    }
  }

  lemma RunFour(s: State, a: Event, b: Event, c: Event, d: Event)
    ensures Run(s, [a, b, c, d]) == Step(Step(Step(Step(s, a), b), c), d)
  {
    assert [a, b, c, d][..3] == [a, b, c] && [a, b, c][..2] == [a, b] && [a, b][..1] == [a] && [a][..0] == [];
    assert Run(s, []) == s;
    assert Run(s, [a]) == Step(s, a);
    assert Run(s, [a, b]) == Step(Step(s, a), b);
    assert Run(s, [a, b, c]) == Step(Step(Step(s, a), b), c);
  }

  function Four(t: nat, second: Choice): seq<Event> {
    [Act(t, Go), Act(t, second), Act(t, Go), Act(t, Go)]
  }

  /** One caller enqueues into an open pool; without room it is held up at the send. */
  lemma EnqueueRun(s: State, t: nat)
    requires t in s.pcs && s.pcs[t].Arriving? && s.readers == {} && s.writer.None? && !s.closed && s.jobsCloses == 0
    ensures Run(s, Four(t, Go)) ==
            if |s.buffer| < s.slots then s.(pcs := s.pcs[t := Returned(true)], wg := s.wg + 1, buffer := s.buffer + [t])
            else s.(pcs := s.pcs[t := Sending], wg := s.wg + 1, readers := {t})
  {
    hide Run;
    hide Step;
    RunFour(s, Act(t, Go), Act(t, Go), Act(t, Go), Act(t, Go));
    ComeIn(s, t);
    Send(s.(pcs := s.pcs[t := Sending], wg := s.wg + 1, readers := {t}), t);
  }

  lemma ComeIn(s: State, t: nat)
    requires t in s.pcs && s.pcs[t].Arriving? && s.readers == {} && s.writer.None? && !s.closed
    ensures Step(Step(s, Act(t, Go)), Act(t, Go)) == s.(pcs := s.pcs[t := Sending], wg := s.wg + 1, readers := {t})
  {
  }

  lemma Send(s: State, t: nat)
    requires t in s.pcs && s.pcs[t].Sending? && s.readers == {t} && s.jobsCloses == 0
    ensures Step(Step(s, Act(t, Go)), Act(t, Go)) ==
            if |s.buffer| < s.slots then s.(pcs := s.pcs[t := Returned(true)], buffer := s.buffer + [t], readers := {}) else s
  {
    assert {t} - {t} == {};
  }

  /** A worker runs a failing job; it gets through its report only if the error channel has room. */
  lemma FailRun(s: State, t: nat, j: nat)
    requires t in s.pcs && s.pcs[t].Select? && s.buffer == [j] && s.errCloses == 0 && s.wg > 0
    ensures Run(s, Four(t, Fail)) ==
            if s.errs < s.errSlots then s.(buffer := [], errs := s.errs + 1, wg := s.wg - 1, ran := s.ran + [j], failed := s.failed + 1)
            else s.(pcs := s.pcs[t := Reporting(j)], buffer := [], ran := s.ran + [j], failed := s.failed + 1)
  {
    hide Run;
    hide Step;
    RunFour(s, Act(t, Go), Act(t, Fail), Act(t, Go), Act(t, Go));
    TakeAndFail(s, t, j);
    Report(s.(pcs := s.pcs[t := Reporting(j)], buffer := [], ran := s.ran + [j], failed := s.failed + 1), t, j);
    assert s.pcs[t := Select] == s.pcs;
  }

  lemma TakeAndFail(s: State, t: nat, j: nat)
    requires t in s.pcs && s.pcs[t].Select? && s.buffer == [j]
    ensures Step(Step(s, Act(t, Go)), Act(t, Fail)) ==
            s.(pcs := s.pcs[t := Reporting(j)], buffer := [], ran := s.ran + [j], failed := s.failed + 1)
  {
  }

  lemma Report(s: State, t: nat, j: nat)
    requires t in s.pcs && s.pcs[t] == Reporting(j) && s.errCloses == 0 && s.wg > 0
    ensures Step(Step(s, Act(t, Go)), Act(t, Go)) ==
            if s.errs < s.errSlots then s.(pcs := s.pcs[t := Select], errs := s.errs + 1, wg := s.wg - 1) else s
  {
  }

  lemma ShutdownRun(s: State, t: nat)
    requires t in s.pcs && s.pcs[t].Stopping? && s.readers == {} && s.writer.None? && !s.closed && s.jobsCloses == 0
    ensures Run(s, Four(t, Go) + [Act(t, Go)]) == s.(pcs := s.pcs[t := Waiting], closed := true, closer := Some(t), jobsCloses := 1)
  {
    hide Step;
    RunFour(s, Act(t, Go), Act(t, Go), Act(t, Go), Act(t, Go));
    RunAppend(s, Four(t, Go), [Act(t, Go)]);
    RunSingle(Run(s, Four(t, Go)), Act(t, Go));
    hide Run;
    ShutdownLocks(s, t);
    ShutdownCloses(s.(pcs := s.pcs[t := Guarded], writer := Some(t)), t);
  }

  lemma RunSingle(s: State, e: Event)
    ensures Run(s, [e]) == Step(s, e)
  {
    assert [e][..0] == [];
    assert Run(s, []) == s;
  }

  lemma ShutdownLocks(s: State, t: nat)
    requires t in s.pcs && s.pcs[t].Stopping? && s.readers == {} && s.writer.None?
    ensures Step(Step(s, Act(t, Go)), Act(t, Go)) == s.(pcs := s.pcs[t := Guarded], writer := Some(t))
  {
  }

  lemma ShutdownCloses(s: State, t: nat)
    requires t in s.pcs && s.pcs[t].Guarded? && !s.closed && s.jobsCloses == 0
    ensures Step(Step(Step(s, Act(t, Go)), Act(t, Go)), Act(t, Go)) ==
            s.(pcs := s.pcs[t := Waiting], writer := None, closed := true, closer := Some(t), jobsCloses := 1)
  {
  }

  /** A pool of one worker after two failing jobs whose errors nobody reads: the second report is held up. */
  lemma TwoFailures(s: State)
    requires Init(s) && s.slots == 1 && s.errSlots == 1
    requires 0 in s.pcs && 1 in s.pcs && 2 in s.pcs && s.pcs[0].Select? && s.pcs[1].Arriving? && s.pcs[2].Arriving?
    ensures Run(s, Four(1, Go) + Four(0, Fail) + Four(2, Go) + Four(0, Fail)) ==
            s.(pcs := s.pcs[1 := Returned(true)][2 := Returned(true)][0 := Reporting(2)], errs := 1, wg := 1, ran := [1, 2], failed := 2)
  {
    hide Run;
    hide Four;
    var a, b, c, d := Four(1, Go), Four(0, Fail), Four(2, Go), Four(0, Fail);
    EnqueueRun(s, 1);
    var s1 := Run(s, a);
    FailRun(s1, 0, 1);
    var s2 := Run(s1, b);
    EnqueueRun(s2, 2);
    var s3 := Run(s2, c);
    FailRun(s3, 0, 2);
    RunAppend(s, a, b);
    RunAppend(s, a + b, c);
    RunAppend(s, a + b + c, d);
  }

  /** Then Shutdown closes the jobs channel and waits; nobody can step. */
  lemma UnreadErrorsBlockShutdown(s: State)
    requires Init(s) && s.slots == 1 && s.errSlots == 1
    requires s.pcs == map[0 := Select, 1 := Arriving, 2 := Arriving, 3 := Stopping]
    ensures var r := Run(s, Four(1, Go) + Four(0, Fail) + Four(2, Go) + Four(0, Fail) + (Four(3, Go) + [Act(3, Go)]));
            Unreturned(r) && Dead(r) && Idle(r) && r.jobsCloses == 1 && r.wg == 1
  {
    hide Run;
    hide Four;
    TwoFailures(s);
    var es := Four(1, Go) + Four(0, Fail) + Four(2, Go) + Four(0, Fail);
    ShutdownRun(Run(s, es), 3);
    RunAppend(s, es, Four(3, Go) + [Act(3, Go)]);
    var r := Run(s, es + (Four(3, Go) + [Act(3, Go)]));
    assert r.pcs[3].Waiting?;
    hide Idle;
    IdleIff(r);
  }

  /**
   Or a third job fills the buffer, a fourth caller is held up at the send, Shutdown queues at the lock behind it,
   and a fifth caller waits behind Shutdown: nobody can step.
   */
  lemma HeldUpSenderBlocksShutdown(s: State)
    requires Init(s) && s.slots == 1 && s.errSlots == 1
    requires s.pcs == map[0 := Select, 1 := Arriving, 2 := Arriving, 3 := Arriving, 4 := Arriving, 5 := Stopping, 6 := Arriving]
    ensures var r := Run(s, Four(1, Go) + Four(0, Fail) + Four(2, Go) + Four(0, Fail) + Four(3, Go) + Four(4, Go) + [Act(5, Go)]);
            Unreturned(r) && Dead(r) && Idle(r) && 6 in r.pcs && r.pcs[6].Arriving? && r.jobsCloses == 0 && r.wg == 3
  {
    hide Run;
    hide Four;
    TwoFailures(s);
    var es := Four(1, Go) + Four(0, Fail) + Four(2, Go) + Four(0, Fail);
    var s1 := Run(s, es);
    EnqueueRun(s1, 3);
    var s2 := Run(s1, Four(3, Go));
    EnqueueRun(s2, 4);
    var s3 := Run(s2, Four(4, Go));
    RunSingle(s3, Act(5, Go));
    RunAppend(s, es, Four(3, Go));
    RunAppend(s, es + Four(3, Go), Four(4, Go));
    RunAppend(s, es + Four(3, Go) + Four(4, Go), [Act(5, Go)]);
    var r := Run(s, es + Four(3, Go) + Four(4, Go) + [Act(5, Go)]);
    HeldUp(s, s3);
  }

  lemma HeldUp(s: State, s3: State)
    requires Init(s) && s.slots == 1 && s.errSlots == 1
    requires s.pcs == map[0 := Select, 1 := Arriving, 2 := Arriving, 3 := Arriving, 4 := Arriving, 5 := Stopping, 6 := Arriving]
    requires s3 == s.(pcs := map[0 := Reporting(2), 1 := Returned(true), 2 := Returned(true), 3 := Returned(true), 4 := Sending,
                                 5 := Stopping, 6 := Arriving],
                      errs := 1, wg := 3, ran := [1, 2], failed := 2, buffer := [3], readers := {4})
    ensures var r := Step(s3, Act(5, Go));
            Unreturned(r) && Dead(r) && Idle(r) && 6 in r.pcs && r.pcs[6].Arriving? && r.jobsCloses == 0 && r.wg == 3
  {
    hide Idle;
    var r := Step(s3, Act(5, Go));
    assert r == s3.(pcs := s3.pcs[5 := Queued], writer := Some(5));
    assert r.pcs[5].Queued? && r.pcs[4].Sending?;
    IdleIff(r);
  }
}
