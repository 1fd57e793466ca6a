/**
 The log writer with any number of calling threads: every interleaving of routine writes,
 critical writes, flushes, one shutdown at a time and the writer thread, and what holds
 in every state such a run can reach.
 */
module LogProtocol {
  import opened Sequences
  import opened LogCore
  import opened LogInvariant

  /** A call in progress: the bytes to deliver, how many of them have been dealt with, which
      accepted records carry them, the number of shutdowns begun when it started (or -1
      when one was stopping a running writer), and whether it is the flush inside a shutdown. */
  datatype Call = Call(data: seq<byte>, done: nat, recs: seq<nat>, epoch: int, last: bool)

  /** Where a calling thread is. `calm`: no shutdown was stopping the writer when
      the call began, and none began during it. */
  datatype Client =
    | NextChunk(call: Call)
    | SpaceWait(call: Call, target: nat)
    | FlushEntry(call: Call)
    | FlushWait(call: Call, target: nat)
    | Returned(call: Call, calm: bool)
    | StopEntry
    | Joining(join: bool)
    | StopDone

  datatype Sys = Sys(shared: State, stops: nat, clients: map<nat, Client>)

  datatype Step =
    | Routine(data: seq<byte>, n: nat)
    | ByWriter(op: Op)
    | StartWriter(created: bool)
    | BeginCritical(t: nat, data: seq<byte>)
    | BeginFlush(t: nat)
    | BeginShutdown(t: nat)
    | StoreChunk(t: nat, n: nat)
    | EnterFlush(t: nat, ok: bool)
    | LeaveFlush(t: nat)
    | RaiseStop(t: nat)
    | FinishStop(t: nat)

  predicate WriterOp(op: Op) {
    op.Lock? || op.Wake? || op.Put? || op.PutFails? || op.Announce? || op.Commit? || op.Publish?
  }

  predicate InShutdown(c: Client) {
    c.StopEntry? || c.Joining? || ((c.FlushEntry? || c.FlushWait?) && c.call.last)
  }

  ghost predicate ShuttingDown(s: Sys) {
    exists t | t in s.clients :: InShutdown(s.clients[t])
  }

  predicate Free(s: Sys, t: nat) {
    t !in s.clients || s.clients[t].Returned? || s.clients[t].StopDone?
  }

  predicate Stopping(s: State) { s.stopping && s.running }

  function Epoch(s: Sys): int { if Stopping(s.shared) then -1 else s.stops }

  /** The next piece of a critical write: at most a whole buffer. */
  function ChunkOf(call: Call): seq<byte>
    requires call.done <= |call.data|
  {
    var size := |call.data| - call.done;
    call.data[call.done..call.done + (if size < CAPACITY then size else CAPACITY)]
  }

  predicate WantsChunk(s: Sys, t: nat) {
    && t in s.clients
    && (s.clients[t].NextChunk?
        || (s.clients[t].SpaceWait? && s.shared.completed >= s.clients[t].target))
    && s.clients[t].call.done < |s.clients[t].call.data|
  }

  /** Shutdowns are not concurrent with each other or with melee_nx_log_init. */
  ghost predicate Enabled(s: Sys, a: Step) {
    match a
    case Routine(data, n) => n <= |data|
    case ByWriter(op) => WriterOp(op) && CanDo(s.shared, op)
    case StartWriter(_) => !ShuttingDown(s)
    case BeginCritical(t, data) => Free(s, t) && |data| > 0
    case BeginFlush(t) => Free(s, t)
    case BeginShutdown(t) => Free(s, t) && !ShuttingDown(s)
    case StoreChunk(t, n) => WantsChunk(s, t) && n <= |ChunkOf(s.clients[t].call)|
    case EnterFlush(t, _) => t in s.clients && s.clients[t].FlushEntry?
    case LeaveFlush(t) =>
      t in s.clients && s.clients[t].FlushWait? && s.shared.completed >= s.clients[t].target
    case RaiseStop(t) => t in s.clients && s.clients[t].StopEntry?
    case FinishStop(t) =>
      t in s.clients && s.clients[t].Joining? && (s.clients[t].join ==> s.shared.writer.Exited?)
  }

  function AfterFlush(call: Call, stops: nat): Client {
    if call.last then StopEntry else Returned(call, call.epoch == stops)
  }

  function AfterChunk(call: Call, size: nat, recs: seq<nat>): Client {
    var after := call.(done := call.done + size, recs := recs);
    if after.done >= |call.data| then FlushEntry(after) else NextChunk(after)
  }

  function StoreStep(s: Sys, t: nat, n: nat): Sys
    requires WantsChunk(s, t) && n <= |ChunkOf(s.clients[t].call)|
  {
    var call := s.clients[t].call;
    var chunk := ChunkOf(call);
    var (after, outcome) := ChunkLock(s.shared, chunk, n);
    var c := match outcome
      case NeedSpace(target) => SpaceWait(call, target)
      case Stored => AfterChunk(call, |chunk|, call.recs + [|s.shared.accepted|])
      case Discarded => AfterChunk(call, |chunk|, call.recs);
    s.(shared := after, clients := s.clients[t := c])
  }

  function FlushStep(s: Sys, t: nat, ok: bool): Sys
    requires t in s.clients && s.clients[t].FlushEntry?
  {
    var call := s.clients[t].call;
    var (after, outcome) := FlushLock(s.shared, ok);
    var c := match outcome
      case Await(target) => FlushWait(call, target)
      case Flushed => AfterFlush(call, s.stops);
    s.(shared := after, clients := s.clients[t := c])
  }

  ghost function Apply(s: Sys, a: Step): Sys
    requires Enabled(s, a)
  {
    match a
    case Routine(data, n) => s.(shared := WriteRecord(s.shared, data, n))
    case ByWriter(op) => s.(shared := Do(s.shared, op))
    case StartWriter(created) => s.(shared := Init(s.shared, created))
    case BeginCritical(t, data) => s.(clients := s.clients[t := NextChunk(Call(data, 0, [], Epoch(s), false))])
    case BeginFlush(t) => s.(clients := s.clients[t := FlushEntry(Call([], 0, [], Epoch(s), false))])
    case BeginShutdown(t) => s.(clients := s.clients[t := FlushEntry(Call([], 0, [], Epoch(s), true))])
    case StoreChunk(t, n) => StoreStep(s, t, n)
    case EnterFlush(t, ok) => FlushStep(s, t, ok)
    case LeaveFlush(t) => s.(clients := s.clients[t := AfterFlush(s.clients[t].call, s.stops)])
    case RaiseStop(t) =>
      Sys(BeginStop(s.shared), s.stops + 1, s.clients[t := Joining(s.shared.running)])
    case FinishStop(t) => s.(shared := EndStop(s.shared), clients := s.clients[t := StopDone])
  }

  const START := Sys(INITIAL, 0, map[])

  ghost predicate Next(s: Sys, s': Sys) { exists a :: Enabled(s, a) && s' == Apply(s, a) }

  ghost predicate Run(run: seq<Sys>) {
    && |run| > 0
    && run[0] == START
    && forall i | 0 <= i < |run| - 1 :: Next(run[i], run[i + 1])
  }

  // ---------- what holds of the calling threads ----------

  ghost predicate Below(recs: seq<nat>, m: nat) { forall i | 0 <= i < |recs| :: recs[i] < m }

  ghost predicate Increasing(recs: seq<nat>) { forall i, j | 0 <= i < j < |recs| :: recs[i] < recs[j] }

  ghost function Picked(accepted: seq<seq<byte>>, recs: seq<nat>): seq<byte>
    requires Below(recs, |accepted|)
  {
    if recs == [] then [] else Picked(accepted, recs[..|recs| - 1]) + accepted[recs[|recs| - 1]]
  }

  lemma {:induction false} PickedStays(a: seq<seq<byte>>, b: seq<seq<byte>>, recs: seq<nat>)
    requires a <= b && Below(recs, |a|)
    ensures Below(recs, |b|) && Picked(b, recs) == Picked(a, recs)
  {
    if recs != [] {
      PickedStays(a, b, recs[..|recs| - 1]);
    }
  }

  /** Every record of the call had left the buffers when the last fsync was issued. */
  ghost predicate Secured(s: State, recs: seq<nat>) {
    exists m: nat | m <= |s.accepted| :: Below(recs, m) && |Flatten(s.accepted[..m])| <= SyncedLength(s.trace)
  }

  ghost predicate CallOk(s: Sys, call: Call) {
    && call.done <= |call.data|
    && Below(call.recs, |s.shared.accepted|)
    && Increasing(call.recs)
    && call.epoch <= s.stops
    && (call.epoch == s.stops ==>
          !Stopping(s.shared) && Picked(s.shared.accepted, call.recs) == call.data[..call.done])
  }

  ghost predicate ClientOk(s: Sys, c: Client) {
    match c
    case NextChunk(call) => CallOk(s, call) && call.done < |call.data| && !call.last
    case SpaceWait(call, target) =>
      CallOk(s, call) && call.done < |call.data| && !call.last && target <= s.shared.requested
    case FlushEntry(call) => CallOk(s, call) && call.done == |call.data|
    case FlushWait(call, target) =>
      && CallOk(s, call) && call.done == |call.data|
      && 1 <= target <= s.shared.requested && target <= |s.shared.marks|
      && Below(call.recs, s.shared.marks[target - 1])
    case Returned(call, calm) =>
      && Below(call.recs, |s.shared.accepted|)
      && Increasing(call.recs)
      && (calm ==> Picked(s.shared.accepted, call.recs) == call.data && Secured(s.shared, call.recs))
    case StopEntry => true
    case Joining(join) => s.shared.stopping && join == s.shared.running
    case StopDone => true
  }

  ghost predicate OneShutdown(s: Sys) {
    forall t, u | t in s.clients && u in s.clients && InShutdown(s.clients[t]) && InShutdown(s.clients[u]) :: t == u
  }

  ghost predicate SysInv(s: Sys) {
    && Inv(s.shared)
    && OneShutdown(s)
    && forall t | t in s.clients :: ClientOk(s, s.clients[t])
  }

  // ---------- every step keeps it ----------

  /** The step of the shared state that a system step performs, if any. */
  ghost function OpOf(s: Sys, a: Step): Option<Op>
    requires Enabled(s, a)
  {
    match a
    case Routine(data, n) => Some(Write(data, n))
    case ByWriter(op) => Some(op)
    case StartWriter(created) => Some(Start(created))
    case StoreChunk(t, n) => Some(Chunk(ChunkOf(s.clients[t].call), n))
    case EnterFlush(t, ok) => Some(Flush(ok))
    case RaiseStop(t) => Some(StopBegin)
    case FinishStop(t) => Some(StopEnd)
    case _ => None
  }

  lemma SharedStep(s: Sys, a: Step)
    requires SysInv(s) && Enabled(s, a)
    ensures OpOf(s, a).Some? ==>
              CanDo(s.shared, OpOf(s, a).value) && Apply(s, a).shared == Do(s.shared, OpOf(s, a).value)
    ensures OpOf(s, a).None? ==> Apply(s, a).shared == s.shared
  {
    if a.FinishStop? {
      assert ClientOk(s, s.clients[a.t]);
    }
  }

  ghost predicate Grows(s: State, s': State) {
    && s.accepted <= s'.accepted
    && s.marks <= s'.marks
    && s.requested <= s'.requested
    && SyncedLength(s.trace) <= SyncedLength(s'.trace)
  }

  lemma SharedGrows(s: Sys, a: Step)
    requires SysInv(s) && Enabled(s, a)
    ensures Inv(Apply(s, a).shared)
    ensures Grows(s.shared, Apply(s, a).shared)
  {
    SharedStep(s, a);
    if OpOf(s, a).Some? {
      var op := OpOf(s, a).value;
      StepKeepsInv(s.shared, op);
      StepTraceGrows(s.shared, op);
      StepHistory(s.shared, op);
      assert |s.shared.marks| <= |Do(s.shared, op).marks|;
    }
  }

  lemma SecuredStays(s: State, s': State, recs: seq<nat>)
    requires Grows(s, s') && Secured(s, recs)
    ensures Secured(s', recs)
  {
    var m: nat :| m <= |s.accepted| && Below(recs, m) && |Flatten(s.accepted[..m])| <= SyncedLength(s.trace);
    assert s'.accepted[..m] == s.accepted[..m];
  }

  /** A thread that does not move keeps its facts while the others work. */
  lemma BystanderOk(s: Sys, s': Sys, c: Client)
    requires ClientOk(s, c) && Grows(s.shared, s'.shared)
    requires s.stops <= s'.stops && (s'.stops == s.stops && !Stopping(s.shared) ==> !Stopping(s'.shared))
    requires c.Joining? ==> s'.shared.stopping && s'.shared.running == s.shared.running
    ensures ClientOk(s', c)
  {
    if !(c.StopEntry? || c.Joining? || c.StopDone?) {
      PickedStays(s.shared.accepted, s'.shared.accepted, c.call.recs);
      if c.Returned? && c.calm {
        SecuredStays(s.shared, s'.shared, c.call.recs);
      }
    }
  }

  /** Only the end of a shutdown stops the writer running, and only init, shut out meanwhile, starts it. */
  lemma StoppingStays(s: Sys, a: Step)
    requires Enabled(s, a)
    ensures s.stops <= Apply(s, a).stops
    ensures Apply(s, a).stops == s.stops && !Stopping(s.shared) ==> !Stopping(Apply(s, a).shared)
    ensures ShuttingDown(s) && !a.FinishStop? ==>
              Apply(s, a).shared.running == s.shared.running
              && (s.shared.stopping ==> Apply(s, a).shared.stopping)
  {
  }

  lemma BystandersOk(s: Sys, a: Step, t: nat)
    requires SysInv(s) && Enabled(s, a)
    requires t in s.clients && t in Apply(s, a).clients && Apply(s, a).clients[t] == s.clients[t]
    requires a.FinishStop? ==> a.t != t
    ensures ClientOk(Apply(s, a), s.clients[t])
  {
    SharedGrows(s, a);
    StoppingStays(s, a);
    var c := s.clients[t];
    assert ClientOk(s, c);
    if c.Joining? {
      assert InShutdown(c);
      assert a.FinishStop? ==> InShutdown(s.clients[a.t]);
    }
    BystanderOk(s, Apply(s, a), c);
  }

  /** A stored chunk extends what the call's records spell out. */
  lemma ChunkExtends(call: Call, accepted: seq<seq<byte>>, accepted': seq<seq<byte>>)
    requires call.done <= |call.data| && Below(call.recs, |accepted|) && Increasing(call.recs)
    requires accepted' == accepted + [ChunkOf(call)]
    ensures var recs := call.recs + [|accepted|];
            && Below(recs, |accepted'|) && Increasing(recs)
            && Picked(accepted', recs) == Picked(accepted, call.recs) + ChunkOf(call)
    ensures call.data[..call.done] + ChunkOf(call) == call.data[..call.done + |ChunkOf(call)|]
  {
    PickedStays(accepted, accepted', call.recs);
    assert (call.recs + [|accepted|])[..|call.recs|] == call.recs;
  }

  lemma StoredOk(s: Sys, s': Sys, call: Call)
    requires CallOk(s, call) && call.done < |call.data| && !call.last
    requires s'.shared.accepted == s.shared.accepted + [ChunkOf(call)]
    requires s'.stops == s.stops && Stopping(s'.shared) == Stopping(s.shared)
    ensures ClientOk(s', AfterChunk(call, |ChunkOf(call)|, call.recs + [|s.shared.accepted|]))
  {
    ChunkExtends(call, s.shared.accepted, s'.shared.accepted);
    assert CallOk(s', AfterChunk(call, |ChunkOf(call)|, call.recs + [|s.shared.accepted|]).call);
  }

  /** A chunk is thrown away only when a running writer is being stopped, so the call is not calm. */
  lemma DiscardedOk(s: Sys, s': Sys, call: Call)
    requires CallOk(s, call) && call.done < |call.data| && !call.last && Stopping(s.shared)
    requires s'.shared == s.shared && s'.stops == s.stops
    ensures ClientOk(s', AfterChunk(call, |ChunkOf(call)|, call.recs))
  {
  }

  lemma StoreOk(s: Sys, t: nat, n: nat)
    requires SysInv(s) && Enabled(s, StoreChunk(t, n))
    ensures ClientOk(Apply(s, StoreChunk(t, n)), Apply(s, StoreChunk(t, n)).clients[t])
  {
    assert ClientOk(s, s.clients[t]);
    var call := s.clients[t].call;
    var (after, outcome) := ChunkLock(s.shared, ChunkOf(call), n);
    var s' := StoreStep(s, t, n);
    hide SysInv, Inv;
    if outcome.Stored? {
      StoredOk(s, s', call);
    } else if outcome.Discarded? {
      DiscardedOk(s, s', call);
    } else {
      assert CallOk(s', call);
    }
  }

  /** A flush that finds no writer thread syncs at once everything accepted so far. */
  lemma DirectFlushSecures(s: State, ok: bool, recs: seq<nat>)
    requires Inv(s) && !s.running && Below(recs, |s.accepted|)
    ensures Secured(FlushLock(s, ok).0, recs)
  {
    TraceSnoc(s.trace, Sync(ok));
    var s' := FlushLock(s, ok).0;
    assert s.accepted[..|s.accepted|] == s.accepted;
    assert |Flatten(s'.accepted[..|s.accepted|])| <= SyncedLength(s'.trace);
  }

  lemma FlushOk(s: Sys, t: nat, ok: bool)
    requires SysInv(s) && Enabled(s, EnterFlush(t, ok))
    ensures ClientOk(Apply(s, EnterFlush(t, ok)), Apply(s, EnterFlush(t, ok)).clients[t])
  {
    var s' := Apply(s, EnterFlush(t, ok));
    var call := s.clients[t].call;
    assert ClientOk(s, s.clients[t]);
    if !s.shared.running {
      DirectFlushSecures(s.shared, ok, call.recs);
    }
    assert call.data[..call.done] == call.data;
  }

  /** Leaving the wait, every record of the call is covered by its target. */
  lemma LeaveOk(s: Sys, t: nat)
    requires SysInv(s) && Enabled(s, LeaveFlush(t))
    ensures ClientOk(Apply(s, LeaveFlush(t)), Apply(s, LeaveFlush(t)).clients[t])
  {
    var call, target := s.clients[t].call, s.clients[t].target;
    assert ClientOk(s, s.clients[t]);
    assert Covers(s.shared, target);
    assert Secured(s.shared, call.recs) by {
      var m := s.shared.marks[target - 1];
      assert m <= |s.shared.accepted| && Below(call.recs, m);
    }
    assert call.data[..call.done] == call.data;
  }

  lemma StepClient(s: Sys, a: Step, t: nat)
    requires SysInv(s) && Enabled(s, a) && t in Apply(s, a).clients
    ensures ClientOk(Apply(s, a), Apply(s, a).clients[t])
  {
    var s' := Apply(s, a);
    if (a.StoreChunk? || a.EnterFlush? || a.LeaveFlush?) && a.t == t {
      match a {
        case StoreChunk(_, n) => StoreOk(s, t, n);
        case EnterFlush(_, ok) => FlushOk(s, t, ok);
        case LeaveFlush(_) => LeaveOk(s, t);
      }
    } else if t in s.clients && s'.clients[t] == s.clients[t] && !(a.FinishStop? && a.t == t) {
      BystandersOk(s, a, t);
    } else {
      MoverOk(s, a, t);
    }
  }

  lemma MoverOk(s: Sys, a: Step, t: nat)
    requires SysInv(s) && Enabled(s, a)
    requires (a.BeginCritical? || a.BeginFlush? || a.BeginShutdown? || a.RaiseStop? || a.FinishStop?) && a.t == t
    ensures t in Apply(s, a).clients && ClientOk(Apply(s, a), Apply(s, a).clients[t])
  {
  }

  lemma StepOneShutdown(s: Sys, a: Step)
    requires SysInv(s) && Enabled(s, a)
    ensures OneShutdown(Apply(s, a))
  {
    hide Inv, CallOk, Do, CanDo, WriteRecord, ChunkLock, Init, BeginStop, EndStop;
    var s' := Apply(s, a);
    forall t | t in s'.clients && InShutdown(s'.clients[t])
      ensures (t in s.clients && InShutdown(s.clients[t])) || (a.BeginShutdown? && a.t == t)
    {
      if t in s.clients {
        assert ClientOk(s, s.clients[t]);
      }
    }
  }

  lemma StepKeepsSysInv(s: Sys, a: Step)
    requires SysInv(s) && Enabled(s, a)
    ensures SysInv(Apply(s, a))
  {
    SharedGrows(s, a);
    StepOneShutdown(s, a);
    forall t | t in Apply(s, a).clients ensures ClientOk(Apply(s, a), Apply(s, a).clients[t]) {
      StepClient(s, a, t);
    }
  }

  lemma NextKeepsSysInv(s: Sys, s': Sys)
    requires SysInv(s) && Next(s, s')
    ensures SysInv(s')
  {
    var a :| Enabled(s, a) && s' == Apply(s, a);
    StepKeepsSysInv(s, a);
  }

  lemma StartInv()
    ensures SysInv(START)
  {
    hide Inv;
    InitialInv();
  }

  lemma {:induction false} RunKeepsSysInv(run: seq<Sys>, i: nat)
    requires Run(run) && i < |run|
    ensures SysInv(run[i])
  {
    hide SysInv, Next;
    if i == 0 {
      StartInv();
    } else {
      RunKeepsSysInv(run, i - 1);
      assert Next(run[i - 1], run[i]);
      NextKeepsSysInv(run[i - 1], run[i]);
    }
  }

  // ---------- main results ----------

  /** Conservation. In every reachable state: what left the buffers, the unwritten rest of
      the writer's buffer and the used part of the pending buffer are the accepted records,
      whole, once and in mutex order; while no write fails the file holds exactly that
      first part; the writer's own lines fall between records; every routine record is
      kept, or counted in `dropped`, in the writer's hand, or in a report. */
  lemma RecordsAreConserved(run: seq<Sys>, i: nat)
    requires Run(run) && i < |run|
    ensures var s := run[i].shared;
            && Payload(s.trace) + Rest(s.writer) + s.buffered == Flatten(s.accepted)
            && (NoWriteError(s.trace) ==> FileBytes(s.trace) + Rest(s.writer) + s.buffered == Flatten(s.accepted))
            && |s.buffered| <= CAPACITY
            && LinesBetweenRecords(s)
            && s.offered == s.kept + Reported(s.trace) + InHand(s.writer) + s.dropped
  {
    RunKeepsSysInv(run, i);
    var s := run[i].shared;
    TakeAll(s.accepted, s.taken);
    if NoWriteError(s.trace) {
      NoErrorFileIsPayload(s.trace);
    }
  }

  /** An fsync was issued after the first `m` accepted records had left the buffers. */
  ghost predicate SyncedAfter(s: State, m: nat)
    requires m <= |s.accepted|
  {
    exists i: nat | i < |s.trace| ::
      s.trace[i].Sync? && Flatten(s.accepted[..m]) <= Payload(s.trace[..i])
      && (NoWriteError(s.trace) ==> Flatten(s.accepted[..m]) <= FileBytes(s.trace[..i]))
  }

  /** Two beginnings of one sequence: the shorter is a prefix of the longer. */
  lemma PrefixByLength(a: seq<byte>, b: seq<byte>, whole: seq<byte>)
    requires a <= whole && b <= whole && |a| <= |b|
    ensures a <= b
  {
    assert a == whole[..|a|] == whole[..|b|][..|a|];
  }

  lemma PayloadIsAccepted(s: State, k: nat)
    requires Inv(s) && k <= |s.trace|
    ensures Payload(s.trace[..k]) <= Flatten(s.accepted)
  {
    PayloadPrefix(s.trace, k);
    FlattenPrefix(s.accepted, s.taken);
  }

  /** The bytes of the last fsync's prefix of the trace. */
  lemma BeforeLastSync(s: State)
    requires LastSync(s.trace) > 0
    ensures |Payload(s.trace[..LastSync(s.trace) - 1])| == SyncedLength(s.trace)
    ensures NoWriteError(s.trace) ==>
              FileBytes(s.trace[..LastSync(s.trace) - 1]) == Payload(s.trace[..LastSync(s.trace) - 1])
  {
    var k := LastSync(s.trace);
    var before := s.trace[..k - 1];
    assert s.trace[..k] == before + [s.trace[k - 1]];
    TraceSnoc(before, s.trace[k - 1]);
    if NoWriteError(s.trace) {
      NoErrorFileIsPayload(before);
    }
  }

  lemma CoverageIsSync(s: State, m: nat)
    requires Inv(s) && m <= |s.accepted| && |Flatten(s.accepted[..m])| <= SyncedLength(s.trace)
    ensures SyncedAfter(s, m) || Flatten(s.accepted[..m]) == []
  {
    var k := LastSync(s.trace);
    if k > 0 {
      BeforeLastSync(s);
      PayloadIsAccepted(s, k - 1);
      FlattenPrefix(s.accepted, m);
      PrefixByLength(Flatten(s.accepted[..m]), Payload(s.trace[..k - 1]), Flatten(s.accepted));
      hide Inv;
      assert s.trace[k - 1].Sync? && Flatten(s.accepted[..m]) <= Payload(s.trace[..k - 1]);
    }
  }

  /** Durability of a flush. Once `completed` has reached a target, every record accepted
      before `requested` was raised to it was written, and an fsync came after. */
  lemma FlushIsDurable(run: seq<Sys>, i: nat, target: nat)
    requires Run(run) && i < |run| && 1 <= target <= run[i].shared.completed
    ensures var s := run[i].shared;
            && target <= |s.marks| && s.marks[target - 1] <= |s.accepted|
            && (SyncedAfter(s, s.marks[target - 1]) || Flatten(s.accepted[..s.marks[target - 1]]) == [])
  {
    RunKeepsSysInv(run, i);
    var s := run[i].shared;
    assert Covers(s, target);
    CoverageIsSync(s, s.marks[target - 1]);
  }

  /** A critical write that has returned, with no shutdown stopping the writer when it began and
      none begun during it, left its bytes in accepted records of its own, in order, all of them
      written and fsynced; the synchronous writes after a finished shutdown are among them. */
  lemma CriticalWriteIsDurable(run: seq<Sys>, i: nat, t: nat)
    requires Run(run) && i < |run| && t in run[i].clients
    requires run[i].clients[t].Returned? && run[i].clients[t].calm && run[i].clients[t].call.data != []
    ensures var s, call := run[i].shared, run[i].clients[t].call;
            && Below(call.recs, |s.accepted|) && Increasing(call.recs)
            && Picked(s.accepted, call.recs) == call.data
            && exists m: nat | m <= |s.accepted| :: Below(call.recs, m) && SyncedAfter(s, m)
  {
    RunKeepsSysInv(run, i);
    var s, call := run[i].shared, run[i].clients[t].call;
    assert ClientOk(run[i], run[i].clients[t]);
    var m: nat :| m <= |s.accepted| && Below(call.recs, m) && |Flatten(s.accepted[..m])| <= SyncedLength(s.trace);
    CoverageIsSync(s, m);
    if Flatten(s.accepted[..m]) == [] {
      PickedFromEmpty(s.accepted, call.recs, m);
    }
  }

  lemma {:induction false} PickedFromEmpty(accepted: seq<seq<byte>>, recs: seq<nat>, m: nat)
    requires m <= |accepted| && Below(recs, m) && Flatten(accepted[..m]) == []
    ensures Below(recs, |accepted|) && Picked(accepted, recs) == []
  {
    if recs != [] {
      var k := recs[|recs| - 1];
      PickedFromEmpty(accepted, recs[..|recs| - 1], m);
      FlattenMonotone(accepted, k + 1, m);
      assert accepted[..k + 1] == accepted[..k] + [accepted[k]];
      FlattenSnoc(accepted[..k], accepted[k]);
    }
  }

  /** Shutdown strands nobody: once the writer has left, every waiting thread may go on. */
  lemma ShutdownReleasesWaiters(run: seq<Sys>, i: nat, t: nat)
    requires Run(run) && i < |run| && run[i].shared.writer.Exited? && t in run[i].clients
    ensures run[i].shared.completed == run[i].shared.requested
    ensures run[i].clients[t].FlushWait? ==> Enabled(run[i], LeaveFlush(t))
    ensures run[i].clients[t].SpaceWait? ==> Enabled(run[i], StoreChunk(t, 0))
    ensures run[i].clients[t].Joining? ==> Enabled(run[i], FinishStop(t))
  {
    RunKeepsSysInv(run, i);
    assert ClientOk(run[i], run[i].clients[t]);
  }

  /** No target is handed out once `stopping` is set. */
  lemma RequestsFreeze(s: Sys, a: Step)
    requires Enabled(s, a) && s.shared.stopping
    ensures Apply(s, a).shared.requested == s.shared.requested
    ensures Apply(s, a).shared.marks == s.shared.marks
  {
  }

  lemma OnlyFinishStopFinishes(s: Sys, s': Sys, t: nat)
    requires Next(s, s') && t in s.clients && t in s'.clients
    requires s.clients[t].Joining? && s'.clients[t].StopDone?
    ensures !s'.shared.running
  {
  }

  /** Shutdown drains: when it returns the pending buffer is empty and every accepted
      record has left the buffers, in the file byte for byte unless a write failed. */
  lemma ShutdownDrains(run: seq<Sys>, i: nat, t: nat)
    requires Run(run) && i + 1 < |run| && t in run[i].clients && t in run[i + 1].clients
    requires run[i].clients[t].Joining? && run[i + 1].clients[t].StopDone?
    ensures var s := run[i + 1].shared;
            && !s.running && s.buffered == []
            && Payload(s.trace) == Flatten(s.accepted)
            && (NoWriteError(s.trace) ==> FileBytes(s.trace) == Flatten(s.accepted))
            && s.offered == s.kept + Reported(s.trace) + s.dropped
  {
    RunKeepsSysInv(run, i + 1);
    RecordsAreConserved(run, i + 1);
    assert Next(run[i], run[i + 1]);
    OnlyFinishStopFinishes(run[i], run[i + 1], t);
    var s := run[i + 1].shared;
    hide Next;
    assert Rest(s.writer) == [] && s.buffered == [];
  }
}
