/** What every step of the log writer keeps, whoever takes it. */
module LogInvariant {
  import opened Sequences
  import opened LogCore

  /** One step of any thread on the shared state. */
  datatype Op =
    | Write(data: seq<byte>, n: nat)
    | Chunk(chunk: seq<byte>, n: nat)
    | Flush(ok: bool)
    | Start(created: bool)
    | StopBegin
    | StopEnd
    | Lock
    | Wake
    | Put(n: nat)
    | PutFails
    | Announce(due: bool)
    | Commit(due: bool, ok: bool)
    | Publish

  /** pthread_join lets the last section of the shutdown run only once the writer has left. */
  ghost predicate CanDo(s: State, op: Op) {
    match op
    case Write(data, n) => n <= |data|
    case Chunk(chunk, n) => n <= |chunk| && 0 < |chunk| <= CAPACITY
    case Flush(_) => true
    case Start(_) => true
    case StopBegin => true
    case StopEnd => !s.running || s.writer.Exited?
    case Lock => s.writer.Enter?
    case Wake => s.writer.Waiting?
    case Put(n) => s.writer.Writing? && 0 < n <= |s.writer.rest|
    case PutFails => s.writer.Writing?
    case Announce(_) => s.writer.Reporting?
    case Commit(_, _) => s.writer.Syncing?
    case Publish => s.writer.Publishing?
  }

  ghost function Do(s: State, op: Op): State
    requires CanDo(s, op)
  {
    match op
    case Write(data, n) => WriteRecord(s, data, n)
    case Chunk(chunk, n) => ChunkLock(s, chunk, n).0
    case Flush(ok) => FlushLock(s, ok).0
    case Start(created) => Init(s, created)
    case StopBegin => BeginStop(s)
    case StopEnd => EndStop(s)
    case Lock => WriterEnter(s)
    case Wake => Swap(s)
    case Put(n) => WriterWrite(s, n)
    case PutFails => WriterWriteFails(s)
    case Announce(due) => WriterReport(s, due)
    case Commit(due, ok) => WriterSync(s, due, ok)
    case Publish => WriterPublish(s)
  }

  predicate HasJob(w: Writer) { w.Writing? || w.Reporting? || w.Syncing? || w.Publishing? }

  function Rest(w: Writer): seq<byte> { if w.Writing? then w.rest else [] }

  function InHand(w: Writer): nat { if w.Writing? || w.Reporting? then w.job.lost else 0 }

  /** Everything the pending buffer ever held has been handed to the writer. */
  ghost predicate Drained(s: State) { s.buffered == [] && s.taken == |s.accepted| }

  ghost predicate Modes(s: State) {
    && s.taken <= |s.accepted|
    && s.completed <= s.requested
    && (s.running <==> !s.writer.Absent?)
    && (!s.running ==> Drained(s) && s.completed == s.requested && s.tally.bytes == 0)
    && (s.writer.Exited? ==> s.stopping && Drained(s) && s.completed == s.requested && s.tally.bytes == 0)
    && (s.writer.Writing? ==> 0 < |s.writer.rest|)
    && (HasJob(s.writer) ==> s.completed <= s.writer.job.request <= s.requested)
    && (HasJob(s.writer) && s.writer.job.stop ==>
          s.stopping && Drained(s) && s.writer.job.request == s.requested
          && (s.writer.Syncing? || s.writer.Publishing? ==> s.tally.bytes == 0))
  }

  /** What left the buffers, the unwritten rest of the writer's buffer and the used part
      of the pending buffer are the accepted records in mutex order. */
  ghost predicate Conserved(s: State)
    requires s.taken <= |s.accepted|
  {
    && Payload(s.trace) + Rest(s.writer) == Flatten(s.accepted[..s.taken])
    && s.buffered == Flatten(s.accepted[s.taken..])
    && |s.buffered| <= CAPACITY
  }

  ghost predicate Marked(s: State) {
    && |s.marks| == s.requested
    && (forall i | 0 <= i < |s.marks| :: s.marks[i] <= |s.accepted|)
    && (HasJob(s.writer) ==> forall i | 0 <= i < s.writer.job.request && i < |s.marks| :: s.marks[i] <= s.taken)
  }

  /** The records accepted before `requested` reached `t` had left the buffers by the last fsync. */
  ghost predicate Covers(s: State, t: nat)
    requires 1 <= t <= |s.marks| && s.marks[t - 1] <= |s.accepted|
  {
    |Flatten(s.accepted[..s.marks[t - 1]])| <= SyncedLength(s.trace)
  }

  function Settled(s: State): nat { if s.writer.Publishing? then s.writer.job.request else s.completed }

  ghost predicate Covered(s: State)
    requires Modes(s) && Marked(s)
  {
    forall t | 1 <= t <= Settled(s) :: Covers(s, t)
  }

  ghost predicate Counted(s: State)
    requires s.taken <= |s.accepted|
  {
    && s.offered == s.kept + Reported(s.trace) + InHand(s.writer) + s.dropped
    && ReportedBytes(s.trace) + s.tally.bytes + (if s.writer.Writing? then s.writer.length else 0) + s.direct
       == |Flatten(s.accepted[..s.taken])|
  }

  ghost predicate OnBoundary(trace: seq<Event>, i: nat, accepted: seq<seq<byte>>)
    requires i < |trace|
  {
    exists k: nat | k <= |accepted| :: Payload(trace[..i]) == Flatten(accepted[..k])
  }

  /** The writer's own lines never split a record. */
  ghost predicate LinesBetweenRecords(s: State) {
    forall i | 0 <= i < |s.trace| && (s.trace[i].Report? || s.trace[i].Notice?) ::
      OnBoundary(s.trace, i, s.accepted)
  }

  ghost predicate Inv(s: State) {
    && Modes(s)
    && Conserved(s)
    && Marked(s)
    && Covered(s)
    && Counted(s)
    && LinesBetweenRecords(s)
  }

  // ---------- records ----------

  /** Adding a record leaves every earlier cut of the list as it was. */
  lemma CutsStay(accepted: seq<seq<byte>>, r: seq<byte>, k: nat)
    requires k <= |accepted|
    ensures (accepted + [r])[..k] == accepted[..k]
    ensures (accepted + [r])[k..] == accepted[k..] + [r]
    ensures Flatten((accepted + [r])[k..]) == Flatten(accepted[k..]) + r
  {
    FlattenSnoc(accepted[k..], r);
  }

  lemma TakeAll(accepted: seq<seq<byte>>, k: nat)
    requires k <= |accepted|
    ensures Flatten(accepted[..|accepted|]) == Flatten(accepted[..k]) + Flatten(accepted[k..])
    ensures accepted[..|accepted|] == accepted
    ensures accepted[|accepted|..] == []
  {
    FlattenConcat(accepted[..k], accepted[k..]);
    assert accepted[..k] + accepted[k..] == accepted[..|accepted|] == accepted;
  }

  /** A direct write is one or two events whose payload is the whole record. */
  lemma DirectTrace(s: State, data: seq<byte>, n: nat)
    requires n <= |data|
    ensures Payload(Direct(s, data, n).trace) == Payload(s.trace) + data
    ensures SyncedLength(Direct(s, data, n).trace) == SyncedLength(s.trace)
    ensures Reported(Direct(s, data, n).trace) == Reported(s.trace)
    ensures ReportedBytes(Direct(s, data, n).trace) == ReportedBytes(s.trace)
  {
    var first := s.trace + [Data(data[..n])];
    TraceSnoc(s.trace, Data(data[..n]));
    if n < |data| {
      TraceSnoc(first, Lost(data[n..]));
      assert s.trace + [Data(data[..n])] + [Lost(data[n..])] == first + [Lost(data[n..])];
      assert Payload(s.trace) + data[..n] + data[n..] == Payload(s.trace) + data by {
        assert data[..n] + data[n..] == data;
      }
    } else {
      assert data[..n] == data;
      assert s.trace + [Data(data[..n])] + [] == first;
    }
  }

  /** Conservation and counting: what the books say. */
  ghost predicate Books(s: State) {
    && s.taken <= |s.accepted|
    && Conserved(s)
    && Counted(s)
  }

  // ---------- each part of the invariant, step by step ----------

  predicate ByProducer(op: Op) { op.Write? || op.Chunk? || op.Flush? }

  predicate ByOwner(op: Op) { op.Start? || op.StopBegin? || op.StopEnd? }

  lemma ProducerModes(s: State, op: Op)
    requires Modes(s) && CanDo(s, op) && ByProducer(op)
    ensures Modes(Do(s, op))
  {
  }

  lemma OwnerModes(s: State, op: Op)
    requires Modes(s) && CanDo(s, op) && ByOwner(op)
    ensures Modes(Do(s, op))
  {
  }

  lemma WriterModes(s: State, op: Op)
    requires Modes(s) && CanDo(s, op) && !ByProducer(op) && !ByOwner(op)
    ensures Modes(Do(s, op))
  {
  }

  lemma StepModes(s: State, op: Op)
    requires Modes(s) && CanDo(s, op)
    ensures Modes(Do(s, op))
  {
    hide Modes, Do, CanDo;
    if ByProducer(op) {
      ProducerModes(s, op);
    } else if ByOwner(op) {
      OwnerModes(s, op);
    } else {
      WriterModes(s, op);
    }
  }

  lemma DirectConserved(s: State, data: seq<byte>, n: nat)
    requires Drained(s) && s.writer.Absent? && Conserved(s) && n <= |data|
    ensures Conserved(Direct(s, data, n))
  {
    DirectTrace(s, data, n);
    FlattenSnoc(s.accepted, data);
    TakeAll(s.accepted, s.taken);
    TakeAll(s.accepted + [data], |s.accepted| + 1);
    hide Direct, Payload;
    assert Payload(s.trace) == Flatten(s.accepted);
    DirectHistory(s, data, n);
  }

  lemma DirectHistory(s: State, data: seq<byte>, n: nat)
    requires n <= |data|
    ensures var s' := Direct(s, data, n);
            && s' == s.(trace := s'.trace, accepted := s.accepted + [data], taken := |s.accepted| + 1,
                        direct := s.direct + |data|)
  {
  }

  lemma DirectCounted(s: State, data: seq<byte>, n: nat)
    requires Drained(s) && s.writer.Absent? && Counted(s) && n <= |data|
    ensures Counted(Direct(s, data, n))
  {
    DirectTrace(s, data, n);
    FlattenSnoc(s.accepted, data);
    TakeAll(s.accepted, s.taken);
    TakeAll(s.accepted + [data], |s.accepted| + 1);
    DirectHistory(s, data, n);
    hide Direct, Flatten, Reported, ReportedBytes;
  }

  lemma DirectKeeps(s: State, data: seq<byte>, n: nat)
    requires Drained(s) && s.writer.Absent? && Books(s) && n <= |data|
    ensures Books(Direct(s, data, n))
  {
    DirectConserved(s, data, n);
    DirectCounted(s, data, n);
    DirectHistory(s, data, n);
    hide Direct, Conserved, Counted, Flatten;
  }

  lemma AppendKeeps(s: State, data: seq<byte>)
    requires Books(s) && |data| <= CAPACITY - |s.buffered|
    ensures Books(Append(s, data))
  {
    CutsStay(s.accepted, data, s.taken);
    hide Flatten, Payload, Reported, ReportedBytes;
  }

  /** One more routine record offered and kept. */
  lemma KeptKeeps(s: State)
    requires Books(s)
    ensures Books(s.(offered := s.offered + 1, kept := s.kept + 1))
  {
    hide Flatten, Payload, Reported, ReportedBytes;
  }

  lemma DroppedKeeps(s: State)
    requires Books(s)
    ensures Books(s.(offered := s.offered + 1, dropped := s.dropped + 1))
  {
    hide Flatten, Payload, Reported, ReportedBytes;
  }

  lemma WriteKeeps(s: State, data: seq<byte>, n: nat)
    requires Modes(s) && Books(s) && n <= |data|
    ensures Books(WriteRecord(s, data, n))
  {
    hide Books, Direct;
    if !s.running {
      DirectKeeps(s, data, n);
      KeptKeeps(Direct(s, data, n));
      DirectHistory(s, data, n);
    } else if |data| <= CAPACITY - |s.buffered| {
      AppendKeeps(s, data);
      KeptKeeps(Append(s, data));
      DroppedKeeps(s);
    } else {
      DroppedKeeps(s);
    }
  }

  lemma RaiseKeeps(s: State)
    requires Books(s)
    ensures Books(RaiseRequest(s))
  {
    hide Flatten, Payload, Reported, ReportedBytes;
  }

  lemma ChunkKeeps(s: State, chunk: seq<byte>, n: nat)
    requires Modes(s) && Books(s) && n <= |chunk| <= CAPACITY
    ensures Books(ChunkLock(s, chunk, n).0)
  {
    hide Books, Direct, Append, RaiseRequest;
    if !s.running {
      DirectKeeps(s, chunk, n);
    } else if |chunk| <= CAPACITY - |s.buffered| {
      AppendKeeps(s, chunk);
    } else {
      RaiseKeeps(s);
    }
  }

  lemma PutKeeps(s: State, n: nat)
    requires Books(s) && s.writer.Writing? && 0 < n <= |s.writer.rest|
    ensures Books(WriterWrite(s, n))
  {
    var rest := s.writer.rest;
    TraceSnoc(s.trace, Data(rest[..n]));
    hide Flatten, Payload, Reported, ReportedBytes, FileBytes, LastSync, SyncedLength;
    assert rest[..n] + rest[n..] == rest;
    assert Payload(s.trace) + rest[..n] + rest[n..] == Payload(s.trace) + rest;
  }

  lemma PutFailsKeeps(s: State)
    requires Books(s) && s.writer.Writing?
    ensures Books(WriterWriteFails(s))
  {
    TraceSnoc(s.trace, Lost(s.writer.rest));
    hide Flatten, Payload, Reported, ReportedBytes, FileBytes, LastSync, SyncedLength;
  }

  lemma SwapKeeps(s: State)
    requires Books(s) && (s.writer.Enter? || s.writer.Waiting?)
    ensures Books(Swap(s))
  {
    TakeAll(s.accepted, s.taken);
    hide Payload, Reported, ReportedBytes;
  }

  lemma EnterKeeps(s: State)
    requires Books(s) && s.writer.Enter?
    ensures Books(WriterEnter(s))
  {
    SwapKeeps(s);
    hide Swap, Flatten, Payload, Reported, ReportedBytes;
  }

  lemma AnnounceKeeps(s: State, due: bool)
    requires Books(s) && s.writer.Reporting?
    ensures Books(WriterReport(s, due))
  {
    TraceSnoc(s.trace, Report(s.tally.bytes, s.writer.job.lost, s.tally.errors));
    hide Flatten, Payload, Reported, ReportedBytes, FileBytes, LastSync, SyncedLength;
  }

  lemma CommitKeeps(s: State, due: bool, ok: bool)
    requires Books(s) && s.writer.Syncing?
    ensures Books(WriterSync(s, due, ok))
  {
    TraceSnoc(s.trace, Sync(ok));
    hide Flatten, Payload, Reported, ReportedBytes, FileBytes, LastSync, SyncedLength;
  }

  lemma FlushKeeps(s: State, ok: bool)
    requires Books(s)
    ensures Books(FlushLock(s, ok).0)
  {
    RaiseKeeps(s);
    TraceSnoc(s.trace, Sync(ok));
    hide RaiseRequest, Flatten, Payload, Reported, ReportedBytes, FileBytes, LastSync, SyncedLength;
  }

  lemma InitKeeps(s: State, created: bool)
    requires Modes(s) && Books(s)
    ensures Books(Init(s, created))
  {
    TraceSnoc(s.trace, Notice);
    hide Flatten, Payload, Reported, ReportedBytes, FileBytes, LastSync, SyncedLength;
  }

  lemma PublishKeeps(s: State)
    requires Books(s) && s.writer.Publishing?
    ensures Books(WriterPublish(s))
  {
    hide Flatten, Payload, Reported, ReportedBytes;
  }

  lemma StopKeeps(s: State)
    requires Books(s)
    ensures Books(BeginStop(s))
    ensures s.writer.Absent? || s.writer.Exited? ==> Books(EndStop(s))
  {
    hide Flatten, Payload, Reported, ReportedBytes;
  }

  lemma StepBooks(s: State, op: Op)
    requires Modes(s) && Books(s) && CanDo(s, op)
    ensures Books(Do(s, op))
  {
    hide Books, WriteRecord, ChunkLock, FlushLock, Init, BeginStop, EndStop, WriterEnter, Swap, WriterWrite;
    hide WriterWriteFails, WriterReport, WriterSync, WriterPublish;
    match op
    case Write(data, n) => WriteKeeps(s, data, n);
    case Chunk(chunk, n) => ChunkKeeps(s, chunk, n);
    case Flush(ok) => FlushKeeps(s, ok);
    case Start(created) => InitKeeps(s, created);
    case StopBegin => StopKeeps(s);
    case StopEnd => StopKeeps(s);
    case Lock => EnterKeeps(s);
    case Wake => SwapKeeps(s);
    case Put(n) => PutKeeps(s, n);
    case PutFails => PutFailsKeeps(s);
    case Announce(due) => AnnounceKeeps(s, due);
    case Commit(due, ok) => CommitKeeps(s, due, ok);
    case Publish => PublishKeeps(s);
  }

  lemma RaiseMarked(s: State)
    requires Modes(s) && Marked(s)
    ensures Marked(RaiseRequest(s))
  {
  }

  lemma SwapMarked(s: State)
    requires Marked(s)
    ensures Marked(Swap(s))
  {
  }

  /** Targets already given out stay where they are while records are added and taken. */
  lemma MarkedStays(s: State, s': State)
    requires Marked(s)
    requires s'.marks == s.marks && s'.requested == s.requested
    requires |s.accepted| <= |s'.accepted| && s.taken <= s'.taken
    requires HasJob(s'.writer) ==> HasJob(s.writer) && s'.writer.job.request == s.writer.job.request
    ensures Marked(s')
  {
  }

  predicate Raises(s: State, op: Op) {
    && s.running && !s.stopping
    && (op.Flush? || (op.Chunk? && |op.chunk| > CAPACITY - |s.buffered|))
  }

  predicate Swaps(s: State, op: Op) {
    op.Wake? || (op.Lock? && !(|s.buffered| < WAKE_LEVEL && s.requested == s.completed && !s.stopping))
  }

  lemma StepMarks(s: State, op: Op)
    requires Modes(s) && CanDo(s, op) && !Raises(s, op) && !Swaps(s, op)
    ensures var s' := Do(s, op);
            && s'.marks == s.marks && s'.requested == s.requested
            && |s.accepted| <= |s'.accepted| && s.taken <= s'.taken
            && (HasJob(s'.writer) ==> HasJob(s.writer) && s'.writer.job.request == s.writer.job.request)
  {
  }

  lemma StepMarked(s: State, op: Op)
    requires Modes(s) && Marked(s) && CanDo(s, op)
    ensures Marked(Do(s, op))
  {
    if Raises(s, op) {
      RaiseMarked(s);
      hide Marked, RaiseRequest;
    } else if Swaps(s, op) {
      SwapMarked(s);
      hide Marked, Swap;
    } else {
      StepMarks(s, op);
      hide Do;
      MarkedStays(s, Do(s, op));
    }
  }

  /** What an fsync covered stays covered, whatever is added later. */
  lemma CoversStays(s: State, s': State, t: nat)
    requires 1 <= t <= |s.marks| <= |s'.marks| && s.marks[t - 1] <= |s.accepted|
    requires s.marks <= s'.marks && s.accepted <= s'.accepted
    requires SyncedLength(s.trace) <= SyncedLength(s'.trace)
    requires Covers(s, t)
    ensures Covers(s', t)
  {
    assert s'.accepted[..s.marks[t - 1]] == s.accepted[..s.marks[t - 1]];
  }

  lemma SyncedGrows(trace: seq<Event>, e: Event)
    ensures SyncedLength(trace) <= SyncedLength(trace + [e])
  {
    TraceSnoc(trace, e);
    PayloadPrefix(trace, LastSync(trace));
  }

  /** A step adds at most two events to the trace. */
  lemma StepAddsEvents(s: State, op: Op)
    requires CanDo(s, op)
    ensures s.trace <= Do(s, op).trace
    ensures |Do(s, op).trace| <= |s.trace| + 2
  {
  }

  lemma SyncedGrowsByTwo(trace: seq<Event>, trace': seq<Event>)
    requires trace <= trace' && |trace'| <= |trace| + 2
    ensures SyncedLength(trace) <= SyncedLength(trace')
  {
    if |trace'| == |trace| {
      assert trace' == trace;
    } else {
      var one := trace + [trace'[|trace|]];
      SyncedGrows(trace, trace'[|trace|]);
      if |trace'| == |trace| + 1 {
        assert trace' == one;
      } else {
        SyncedGrows(one, trace'[|trace| + 1]);
        assert trace' == one + [trace'[|trace| + 1]];
      }
    }
  }

  lemma StepTraceGrows(s: State, op: Op)
    requires CanDo(s, op)
    ensures s.trace <= Do(s, op).trace
    ensures SyncedLength(s.trace) <= SyncedLength(Do(s, op).trace)
  {
    StepAddsEvents(s, op);
    SyncedGrowsByTwo(s.trace, Do(s, op).trace);
  }

  lemma StepHistory(s: State, op: Op)
    requires CanDo(s, op)
    ensures s.accepted <= Do(s, op).accepted
    ensures s.marks <= Do(s, op).marks
  {
  }

  /** The fsync that precedes a raise of `completed` covers every target up to the new value. */
  lemma CommitCovers(s: State, due: bool, ok: bool, t: nat)
    requires Modes(s) && Conserved(s) && Marked(s) && s.writer.Syncing? && Settled(s) < t <= s.writer.job.request
    ensures t <= |s.marks| && s.marks[t - 1] <= |s.accepted| && Covers(WriterSync(s, due, ok), t)
  {
    TraceSnoc(s.trace, Sync(ok));
    FlattenMonotone(s.accepted, s.marks[t - 1], s.taken);
    hide Flatten, Payload, SyncedLength, LastSync, FileBytes, Reported, ReportedBytes;
  }

  /** Only the writer's fsync step raises what is settled. */
  lemma SettledStays(s: State, op: Op)
    requires Modes(s) && CanDo(s, op)
    ensures op.Commit? || Settled(Do(s, op)) == Settled(s)
  {
  }

  lemma StepCovered(s: State, op: Op)
    requires Modes(s) && Conserved(s) && Marked(s) && Covered(s) && CanDo(s, op)
    ensures Modes(Do(s, op)) && Marked(Do(s, op)) && Covered(Do(s, op))
  {
    StepModes(s, op);
    StepMarked(s, op);
    StepTraceGrows(s, op);
    StepHistory(s, op);
    SettledStays(s, op);
    var s' := Do(s, op);
    hide Do, CanDo, Modes, Marked, Conserved, Covers, SyncedLength;
    CoveredStays(s, s');
    if op.Commit? {
      CommitKeepsCovered(s, op.due, op.ok);
    }
  }

  lemma CommitKeepsCovered(s: State, due: bool, ok: bool)
    requires Modes(s) && Conserved(s) && Marked(s) && s.writer.Syncing?
    requires Modes(WriterSync(s, due, ok)) && Marked(WriterSync(s, due, ok))
    ensures forall t | Settled(s) < t <= Settled(WriterSync(s, due, ok)) :: Covers(WriterSync(s, due, ok), t)
  {
    var s' := WriterSync(s, due, ok);
    hide Conserved, Covers;
    forall t | Settled(s) < t <= Settled(s') ensures Covers(s', t) {
      CommitCovers(s, due, ok, t);
    }
  }

  lemma CoveredStays(s: State, s': State)
    requires Modes(s) && Marked(s) && Covered(s) && Modes(s') && Marked(s')
    requires s.marks <= s'.marks && s.accepted <= s'.accepted
    requires SyncedLength(s.trace) <= SyncedLength(s'.trace)
    ensures forall t | 1 <= t <= Settled(s) && t <= Settled(s') :: Covers(s', t)
  {
    hide Covers, SyncedLength;
    forall t | 1 <= t <= Settled(s) && t <= Settled(s') ensures Covers(s', t) {
      CoversStays(s, s', t);
    }
  }

  lemma BoundaryStays(s: State, s': State, i: nat)
    requires i < |s.trace| && s.trace <= s'.trace && s.accepted <= s'.accepted
    requires OnBoundary(s.trace, i, s.accepted)
    ensures OnBoundary(s'.trace, i, s'.accepted)
  {
    var k: nat :| k <= |s.accepted| && Payload(s.trace[..i]) == Flatten(s.accepted[..k]);
    assert s'.trace[..i] == s.trace[..i];
    assert s'.accepted[..k] == s.accepted[..k];
  }

  lemma WhoWritesLines(s: State, op: Op, i: nat)
    requires CanDo(s, op) && |s.trace| <= i < |Do(s, op).trace|
    requires Do(s, op).trace[i].Report? || Do(s, op).trace[i].Notice?
    ensures i == |s.trace| && (op.Announce? || op.Start?)
  {
  }

  lemma StepLines(s: State, op: Op)
    requires Modes(s) && Conserved(s) && LinesBetweenRecords(s) && CanDo(s, op)
    ensures LinesBetweenRecords(Do(s, op))
  {
    StepTraceGrows(s, op);
    StepHistory(s, op);
    LinesStay(s, op, Do(s, op));
  }

  lemma LinesStay(s: State, op: Op, s': State)
    requires Modes(s) && Conserved(s) && LinesBetweenRecords(s) && CanDo(s, op) && s' == Do(s, op)
    requires s.trace <= s'.trace && s.accepted <= s'.accepted
    ensures LinesBetweenRecords(s')
  {
    hide Do, CanDo, Modes, Conserved, OnBoundary;
    forall i | 0 <= i < |s'.trace| && (s'.trace[i].Report? || s'.trace[i].Notice?)
      ensures OnBoundary(s'.trace, i, s'.accepted)
    {
      if i < |s.trace| {
        assert s'.trace[i] == s.trace[i];
        BoundaryStays(s, s', i);
      } else {
        WhoWritesLines(s, op, i);
        NewLineOnBoundary(s, op);
      }
    }
  }

  lemma NewLineOnBoundary(s: State, op: Op)
    requires Modes(s) && Conserved(s) && CanDo(s, op) && |Do(s, op).trace| > |s.trace|
    requires op.Announce? || op.Start?
    ensures OnBoundary(Do(s, op).trace, |s.trace|, Do(s, op).accepted)
  {
    hide Flatten, Payload;
    assert Do(s, op).trace[..|s.trace|] == s.trace;
    assert Payload(s.trace) == Flatten(s.accepted[..s.taken]);
  }

  lemma StepKeepsInv(s: State, op: Op)
    requires Inv(s) && CanDo(s, op)
    ensures Inv(Do(s, op))
  {
    StepBooks(s, op);
    StepCovered(s, op);
    StepLines(s, op);
    hide Do, CanDo, Modes, Conserved, Counted, Marked, Covered, LinesBetweenRecords;
  }

  lemma InitialInv()
    ensures Inv(INITIAL)
  {
  }
}
