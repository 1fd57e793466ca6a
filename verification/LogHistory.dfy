/**
 What the calls of a run come to, told from the calls alone: which of them get a record accepted,
 which are refused, and what the writer owes to a flush, to dirty data and to a restart.
 */
module LogHistory {
  import opened Sequences
  import opened LogCore
  import opened LogInvariant
  import opened LogProtocol
  import opened LogLiveness

  predicate Room(s: State, data: seq<byte>) { |s.buffered| + |data| <= CAPACITY }

  /** A record offered now is to be kept: there is no writer, or it has room and no shutdown. */
  predicate Keeps(s: State, data: seq<byte>) {
    data != [] && (s.running ==> !s.stopping && Room(s, data))
  }

  // ---------- one routine write ----------

  /** A record with room in the pending buffer of a running writer goes to its end, and nowhere else. */
  lemma RoutineIsBuffered(s: Sys, data: seq<byte>, n: nat)
    requires n <= |data| && s.shared.running && Keeps(s.shared, data)
    ensures var t, t' := s.shared, Apply(s, Routine(data, n)).shared;
            && t'.buffered == t.buffered + data && t'.accepted == t.accepted + [data]
            && t'.trace == t.trace && t'.taken == t.taken
            && t'.dropped == t.dropped && t'.kept == t.kept + 1 && t'.offered == t.offered + 1
  {
  }

  /** Without a writer it is put out at once: the part sent is in the file, the whole has left. */
  lemma RoutineIsSent(s: Sys, data: seq<byte>, n: nat)
    requires n <= |data| && !s.shared.running && data != []
    ensures var t, t' := s.shared, Apply(s, Routine(data, n)).shared;
            && Payload(t'.trace) == Payload(t.trace) + data && FileBytes(t'.trace) == FileBytes(t.trace) + data[..n]
            && (NoWriteError(t'.trace) <==> NoWriteError(t.trace) && n == |data|)
            && t'.accepted == t.accepted + [data] && t'.taken == |t'.accepted| && t'.buffered == t.buffered
            && t'.dropped == t.dropped && t'.kept == t.kept + 1 && t'.offered == t.offered + 1
  {
    DirectTrace(s.shared, data, n);
    DirectBytes(s.shared, data, n);
    DirectHistory(s.shared, data, n);
    hide Direct, Payload, FileBytes;
  }

  lemma FileSnoc(trace: seq<Event>, e: Event)
    ensures FileBytes(trace + [e]) == FileBytes(trace) + if e.Data? then e.bytes else []
  {
    TraceSnoc(trace, e);
  }

  lemma DirectBytes(s: State, data: seq<byte>, n: nat)
    requires n <= |data|
    ensures FileBytes(Direct(s, data, n).trace) == FileBytes(s.trace) + data[..n]
    ensures NoWriteError(Direct(s, data, n).trace) <==> NoWriteError(s.trace) && n == |data|
  {
    var first := s.trace + [Data(data[..n])];
    var t := Direct(s, data, n).trace;
    TraceSnoc(s.trace, Data(data[..n]));
    if n < |data| {
      TraceSnoc(first, Lost(data[n..]));
      assert t == first + [Lost(data[n..])];
      assert t[|first|].Lost?;
    } else {
      assert t == first;
      assert forall i | 0 <= i < |s.trace| :: t[i] == s.trace[i];
    }
  }

  /** A record that is not kept is counted as dropped exactly when it is not empty, and changes
      nothing else. */
  lemma RoutineIsRefused(s: Sys, data: seq<byte>, n: nat)
    requires n <= |data| && !Keeps(s.shared, data)
    ensures var t, t', one := s.shared, Apply(s, Routine(data, n)).shared, if data == [] then 0 else 1;
            t' == t.(dropped := t.dropped + one, offered := t.offered + one)
  {
  }

  // ---------- the calling threads ----------

  /** A call begins with nothing done, remembering how many shutdowns have begun unless one is
      stopping the writer; a shutdown begins with a flush of its own. */
  lemma CallsBegin(s: Sys, a: Step)
    requires Enabled(s, a) && (a.BeginCritical? || a.BeginFlush? || a.BeginShutdown?)
    ensures var s' := Apply(s, a);
            && s' == s.(clients := s.clients[a.t := s'.clients[a.t]])
            && var c := s'.clients[a.t];
               && (if a.BeginCritical? then c.NextChunk? && c.call.data == a.data
                   else c.FlushEntry? && c.call.data == [] && c.call.last == a.BeginShutdown?)
               && c.call.done == 0 && c.call.recs == [] && (InShutdown(c) <==> a.BeginShutdown?)
               && (c.call.epoch == s.stops <==> !(s.shared.stopping && s.shared.running))
  {
  }

  /** Every locked section moves its thread on: a chunk waits for space or is behind it, a flush
      waits for its target or is over, and a flush that is over returns to the caller, or to the
      shutdown it belongs to; it tells whether a shutdown has begun since the call did. */
  lemma CallsAdvance(s: Sys, a: Step)
    requires Enabled(s, a) && (a.StoreChunk? || a.EnterFlush? || a.LeaveFlush?)
    ensures var call, s' := s.clients[a.t].call, Apply(s, a);
            var c := s'.clients[a.t];
            && s'.stops == s.stops && s'.clients == s.clients[a.t := c]
            && (a.StoreChunk? && s.shared.running && !s.shared.stopping && !Room(s.shared, ChunkOf(call)) ==>
                  c == SpaceWait(call, s'.shared.requested))
            && (a.StoreChunk? && !(s.shared.running && !s.shared.stopping && !Room(s.shared, ChunkOf(call))) ==>
                  && c.call.data == call.data && c.call.done == call.done + |ChunkOf(call)| > call.done
                  && (if c.call.done >= |call.data| then c.FlushEntry? else c.NextChunk?))
            && (a.EnterFlush? && s.shared.running && !s.shared.stopping ==> c == FlushWait(call, s'.shared.requested))
            && (a.LeaveFlush? || (a.EnterFlush? && !(s.shared.running && !s.shared.stopping)) ==>
                  if call.last then c == StopEntry else c == Returned(call, call.epoch == s.stops))
  {
    if a.StoreChunk? {
      assert ChunkOf(s.clients[a.t].call) != [];
    }
    hide CanDo, Do, Direct;
  }

  /** A shutdown sets `stopping`, waits for the writer if one runs, and is then over with no writer
      left; only its first section counts it as begun. */
  lemma ShutdownAdvances(s: Sys, a: Step)
    requires Enabled(s, a)
    ensures Apply(s, a).stops == s.stops + if a.RaiseStop? then 1 else 0
    ensures a.RaiseStop? ==>
              && Apply(s, a).shared == s.shared.(stopping := true)
              && Apply(s, a).clients == s.clients[a.t := Joining(s.shared.running)]
    ensures a.FinishStop? ==>
              && Apply(s, a).shared == s.shared.(running := false, writer := Absent)
              && Apply(s, a).clients == s.clients[a.t := StopDone]
  {
  }

  // ---------- a run's records ----------

  /** The record that a step is to have accepted, if any. */
  ghost function Enters(s: Sys, a: Step): seq<seq<byte>>
    requires Enabled(s, a)
  {
    match a
    case Routine(data, _) => if Keeps(s.shared, data) then [data] else []
    case StoreChunk(t, _) =>
      var chunk := ChunkOf(s.clients[t].call);
      if Keeps(s.shared, chunk) then [chunk] else []
    case _ => []
  }

  lemma StepEnters(s: Sys, a: Step)
    requires Enabled(s, a)
    ensures Apply(s, a).shared.accepted == s.shared.accepted + Enters(s, a)
    ensures var one := if a.Routine? && Enters(s, a) != [] then 1 else 0;
            Apply(s, a).shared.kept == s.shared.kept + one
    ensures var one := if a.Routine? && a.data != [] then 1 else 0;
            Apply(s, a).shared.offered == s.shared.offered + one
  {
    if a.StoreChunk? {
      assert ChunkOf(s.clients[a.t].call) != [];
    }
  }

  ghost function Entered(run: seq<Sys>, steps: seq<Step>, i: nat): seq<seq<byte>>
    requires Taken(run, steps) && i < |run|
  {
    if i == 0 then [] else Entered(run, steps, i - 1) + Enters(run[i - 1], steps[i - 1])
  }

  /** How many of the first `i` steps were routine writes whose record was to be kept, and how
      many were to be refused. */
  ghost function KeptWrites(run: seq<Sys>, steps: seq<Step>, i: nat): nat
    requires Taken(run, steps) && i < |run|
  {
    if i == 0 then 0
    else
      KeptWrites(run, steps, i - 1)
      + if steps[i - 1].Routine? && Keeps(run[i - 1].shared, steps[i - 1].data) then 1 else 0
  }

  ghost function RefusedWrites(run: seq<Sys>, steps: seq<Step>, i: nat): nat
    requires Taken(run, steps) && i < |run|
  {
    if i == 0 then 0
    else
      var a := steps[i - 1];
      RefusedWrites(run, steps, i - 1)
      + if a.Routine? && a.data != [] && !Keeps(run[i - 1].shared, a.data) then 1 else 0
  }

  lemma {:induction false} EnteredOnRun(run: seq<Sys>, steps: seq<Step>, i: nat)
    requires Run(run) && Taken(run, steps) && i < |run|
    ensures run[i].shared.accepted == Entered(run, steps, i)
    ensures run[i].shared.kept == KeptWrites(run, steps, i)
    ensures run[i].shared.offered == KeptWrites(run, steps, i) + RefusedWrites(run, steps, i)
  {
    if i > 0 {
      EnteredOnRun(run, steps, i - 1);
      assert Enabled(run[i - 1], steps[i - 1]) && run[i - 1 + 1] == Apply(run[i - 1], steps[i - 1]);
      StepEnters(run[i - 1], steps[i - 1]);
      hide Apply, Enabled, Run, Keeps;
    }
  }

  /** Which records a run accepts is decided by its calls: exactly those of the routine writes and
      chunks that came when there was no writer, or room and no shutdown, each once and in order;
      `kept` counts those of routine writes, and every other routine record is a counted loss. */
  lemma AcceptedAreTheKept(run: seq<Sys>, steps: seq<Step>, i: nat)
    requires Run(run) && Taken(run, steps) && i < |run|
    ensures var s := run[i].shared;
            && s.accepted == Entered(run, steps, i)
            && s.kept == KeptWrites(run, steps, i)
            && Reported(s.trace) + InHand(s.writer) + s.dropped == RefusedWrites(run, steps, i)
            && Payload(s.trace) + Rest(s.writer) + s.buffered == Flatten(Entered(run, steps, i))
  {
    EnteredOnRun(run, steps, i);
    RecordsAreConserved(run, i);
    hide *;
  }

  // ---------- the writer's duties ----------

  /** The writer does not go to sleep on a waiting flush, on a shutdown or on 16 KiB, and does on
      less; woken up it goes on. It takes over everything buffered, the request, the losses and
      the stop flag as they are. */
  lemma WriterStaysAwake(s: State, op: Op)
    requires (op.Lock? || op.Wake?) && CanDo(s, op)
    ensures var s', awake := Do(s, op), op.Wake? || s.requested != s.completed || s.stopping || |s.buffered| >= 16384;
            if awake then
              && HasJob(s'.writer) && s'.writer.job == Job(s.requested, s.dropped, s.stopping)
              && Rest(s'.writer) == s.buffered && s'.buffered == [] && s'.dropped == 0
              && s' == s.(writer := s'.writer, buffered := [], dropped := 0, taken := |s.accepted|)
            else s' == s.(writer := Waiting)
  {
  }

  /** What a turn puts out is counted with its failures, and makes the file due for an fsync. */
  lemma TurnIsCounted(s: State, op: Op)
    requires CanDo(s, op) && (op.Put? || op.PutFails?)
    ensures var s', w := Do(s, op), s.writer;
            if op.Put? && op.n < |w.rest| then
              s'.tally == s.tally && s'.writer == Writing(w.rest[op.n..], w.length, w.job)
            else
              && s'.writer == Reporting(w.job) && s'.tally.dirty && s'.tally.bytes == s.tally.bytes + w.length
              && s'.tally.errors == s.tally.errors + if op.PutFails? then 1 else 0
    ensures Do(s, op).trace == s.trace + [if op.Put? then Data(s.writer.rest[..op.n]) else Lost(s.writer.rest)]
  {
  }

  // ---------- what callers are told ----------

  /** A chunk asks for space, with a target of its own, exactly when a running writer has none and no
      shutdown has begun; it is given up exactly when a running writer is being stopped. */
  lemma ChunkOutcomeIs(s: State, chunk: seq<byte>, n: nat)
    requires n <= |chunk|
    ensures var (s', outcome) := ChunkLock(s, chunk, n);
            && (outcome.NeedSpace? <==> s.running && !s.stopping && !Room(s, chunk))
            && (outcome.NeedSpace? ==>
                  && outcome.target == s'.requested == s.requested + 1 && s'.marks == s.marks + [|s.accepted|]
                  && s' == s.(requested := s'.requested, marks := s'.marks))
            && (outcome.Discarded? <==> s.running && s.stopping)
            && (outcome.Discarded? ==> s' == s)
            && (outcome.Stored? ==> s'.accepted == s.accepted + [chunk])
  {
  }

  /** A flush waits, for a target of its own, exactly when a writer runs and no shutdown has begun;
      without a writer it syncs at once. */
  lemma FlushOutcomeIs(s: State, ok: bool)
    ensures var (s', outcome) := FlushLock(s, ok);
            && (outcome.Await? <==> s.running && !s.stopping)
            && (outcome.Await? ==>
                  && outcome.target == s'.requested == s.requested + 1 && s'.marks == s.marks + [|s.accepted|]
                  && s' == s.(requested := s'.requested, marks := s'.marks))
            && (outcome.Flushed? ==> s' == s.(trace := if s.running then s.trace else s.trace + [Sync(ok)]))
  {
  }

  /** A flush that waits, a shutdown, and dirty data that is due each get an fsync; nothing else does. */
  lemma SyncedExactlyWhenDue(s: State, due: bool, ok: bool)
    requires CanDo(s, Commit(due, ok))
    ensures var s', job := Do(s, Commit(due, ok)), s.writer.job;
            && (s'.trace == s.trace || s'.trace == s.trace + [Sync(ok)])
            && (s'.trace != s.trace <==> job.request != s.completed || job.stop || (s.tally.dirty && due))
            && (s'.tally.dirty ==> !due && s.tally.dirty)
            && (s'.trace != s.trace ==> !s'.tally.dirty)
            && s'.tally.errors == s.tally.errors + if s'.trace != s.trace && !ok then 1 else 0
  {
  }

  /** Losses in hand are announced in the same turn, and so is a shutdown's end. */
  lemma LossesAreAnnounced(s: State, due: bool)
    requires CanDo(s, Announce(due))
    ensures var s', job := Do(s, Announce(due)), s.writer.job;
            && (s'.trace == s.trace || s'.trace == s.trace + [Report(s.tally.bytes, job.lost, s.tally.errors)])
            && (s'.trace != s.trace <==> job.lost > 0 || job.stop || due)
            && (s'.trace != s.trace ==> s'.tally == Tally(0, 0, true))
            && (s'.trace == s.trace ==> s'.tally == s.tally)
  {
  }

  /** Starting a writer on a logger without one leaves it running, about to take the mutex, and
      no earlier shutdown in its way; if no thread can be created the logger stays synchronous. */
  lemma StartedWriterRuns(s: State, created: bool)
    requires Inv(s)
    ensures var s' := Do(s, Start(created));
            && (s.running ==> s' == s)
            && (!s.running && created ==>
                  && s'.running && !s'.stopping && s'.writer == Enter && CanDo(s', Lock)
                  && s'.tally == Tally(0, 0, false) && s'.trace == s.trace)
            && (!s.running && !created ==>
                  !s'.running && !s'.stopping && s'.writer == Absent && s'.trace == s.trace + [Notice])
            && s'.buffered == s.buffered && s'.accepted == s.accepted
  {
  }
}
