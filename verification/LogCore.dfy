/**
 The buffered log writer of switch/src/log_switch.cpp: its shared state and every section
 of code that runs under the mutex, plus the writer's steps between two such sections.
 Each function below maps the state before such a step to the state after it; class
 `LogSwitch.Logger` runs the same steps on two real arrays.
 */
module LogCore {
  import opened Sequences

  const CAPACITY: nat := 131072
  const WAKE_LEVEL: nat := 16384

  /** What happens to standard output, in order. `Lost` marks the part of a buffer
      that write_all gave up on after a failed write: it never reached the file. */
  datatype Event =
    | Data(bytes: seq<byte>)
    | Lost(bytes: seq<byte>)
    | Report(total: nat, lost: nat, errors: nat)
    | Notice
    | Sync(ok: bool)

  /** The values the writer copies out of the shared state when it swaps buffers. */
  datatype Job = Job(request: nat, lost: nat, stop: bool)

  /** Where the writer thread is, and which bytes of its buffer are still unwritten. */
  datatype Writer =
    | Absent
    | Enter
    | Waiting
    | Writing(rest: seq<byte>, length: nat, job: Job)
    | Reporting(job: Job)
    | Syncing(job: Job)
    | Publishing(job: Job)
    | Exited

  /** The writer's counters that outlive one iteration. */
  datatype Tally = Tally(bytes: nat, errors: nat, dirty: bool)

  /** `buffered` is the used part of the pending buffer. The components after `tally` are
      history: the output so far, the accepted records in mutex order, how many of them
      left the pending buffer, the number of accepted records at each raise of
      `requested`, how many routine records were offered and kept, and how many bytes
      were written without a writer thread. */
  datatype State = State(
    buffered: seq<byte>,
    running: bool,
    stopping: bool,
    requested: nat,
    completed: nat,
    dropped: nat,
    writer: Writer,
    tally: Tally,
    trace: seq<Event>,
    accepted: seq<seq<byte>>,
    taken: nat,
    marks: seq<nat>,
    offered: nat,
    kept: nat,
    direct: nat)

  const INITIAL := State([], false, false, 0, 0, 0, Absent, Tally(0, 0, false), [], [], 0, [], 0, 0, 0)

  // ---------- producers ----------

  /** write_all without a writer thread: `n` bytes go out before the first error. */
  function Direct(s: State, data: seq<byte>, n: nat): State
    requires n <= |data|
  {
    s.(trace := s.trace + [Data(data[..n])] + (if n < |data| then [Lost(data[n..])] else []),
       accepted := s.accepted + [data],
       taken := |s.accepted| + 1,
       direct := s.direct + |data|)
  }

  function Append(s: State, data: seq<byte>): State {
    s.(buffered := s.buffered + data, accepted := s.accepted + [data])
  }

  /** melee_nx_log_write. */
  function WriteRecord(s: State, data: seq<byte>, n: nat): State
    requires n <= |data|
  {
    if |data| == 0 then s
    else if !s.running then Direct(s, data, n).(offered := s.offered + 1, kept := s.kept + 1)
    else if s.stopping || |data| > CAPACITY - |s.buffered| then
      s.(dropped := s.dropped + 1, offered := s.offered + 1)
    else Append(s, data).(offered := s.offered + 1, kept := s.kept + 1)
  }

  function RaiseRequest(s: State): State {
    s.(requested := s.requested + 1, marks := s.marks + [|s.accepted|])
  }

  datatype FlushOutcome = Await(target: nat) | Flushed

  /** The first half of melee_nx_log_flush, up to its wait. */
  function FlushLock(s: State, ok: bool): (State, FlushOutcome) {
    if s.running && !s.stopping then (RaiseRequest(s), Await(s.requested + 1))
    else if !s.running then (s.(trace := s.trace + [Sync(ok)]), Flushed)
    else (s, Flushed)
  }

  datatype ChunkOutcome = NeedSpace(target: nat) | Stored | Discarded

  /** One pass over the locked part of the loop in melee_nx_log_write_critical: the test
      for space (made on entry and again after each wait) and what follows it. */
  function ChunkLock(s: State, chunk: seq<byte>, n: nat): (State, ChunkOutcome)
    requires n <= |chunk|
  {
    if s.running && !s.stopping && |chunk| > CAPACITY - |s.buffered| then
      (RaiseRequest(s), NeedSpace(s.requested + 1))
    else if !s.running then (Direct(s, chunk, n), Stored)
    else if !s.stopping then (Append(s, chunk), Stored)
    else (s, Discarded)
  }

  /** melee_nx_log_init; `created` is the outcome of pthread_create. */
  function Init(s: State, created: bool): State {
    if s.running then s
    else if created then
      s.(stopping := false, running := true, writer := Enter, tally := Tally(0, 0, false))
    else s.(stopping := false, trace := s.trace + [Notice])
  }

  /** melee_nx_log_shutdown, its middle and its last locked section. */
  function BeginStop(s: State): State { s.(stopping := true) }

  function EndStop(s: State): State { s.(running := false, writer := Absent) }

  // ---------- writer ----------

  function Swap(s: State): State {
    var job := Job(s.requested, s.dropped, s.stopping);
    s.(writer := if |s.buffered| > 0 then Writing(s.buffered, |s.buffered|, job) else Reporting(job),
       buffered := [],
       dropped := 0,
       taken := |s.accepted|)
  }

  function WriterEnter(s: State): State {
    if |s.buffered| < WAKE_LEVEL && s.requested == s.completed && !s.stopping then s.(writer := Waiting)
    else Swap(s)
  }

  /** write(2) took `n` bytes. */
  function WriterWrite(s: State, n: nat): State
    requires s.writer.Writing? && 0 < n <= |s.writer.rest|
  {
    var w := s.writer;
    var after := s.(trace := s.trace + [Data(w.rest[..n])]);
    if n == |w.rest| then
      after.(writer := Reporting(w.job), tally := Tally(s.tally.bytes + w.length, s.tally.errors, true))
    else after.(writer := w.(rest := w.rest[n..]))
  }

  /** write(2) failed with anything but EINTR. */
  function WriterWriteFails(s: State): State
    requires s.writer.Writing?
  {
    var w := s.writer;
    s.(trace := s.trace + [Lost(w.rest)],
       writer := Reporting(w.job),
       tally := Tally(s.tally.bytes + w.length, s.tally.errors + 1, true))
  }

  /** `due`: two seconds have passed since the last report. */
  function WriterReport(s: State, due: bool): State
    requires s.writer.Reporting?
  {
    var job := s.writer.job;
    if job.lost > 0 || due || job.stop then
      s.(trace := s.trace + [Report(s.tally.bytes, job.lost, s.tally.errors)],
         writer := Syncing(job),
         tally := Tally(0, 0, true))
    else s.(writer := Syncing(job))
  }

  /** `due`: a second has passed since the last fsync; `ok`: what fsync answers. */
  function WriterSync(s: State, due: bool, ok: bool): State
    requires s.writer.Syncing?
  {
    var job := s.writer.job;
    if job.request != s.completed || job.stop || (s.tally.dirty && due) then
      s.(trace := s.trace + [Sync(ok)],
         writer := Publishing(job),
         tally := Tally(s.tally.bytes, if ok then s.tally.errors else s.tally.errors + 1, false))
    else s.(writer := Publishing(job))
  }

  function WriterPublish(s: State): State
    requires s.writer.Publishing?
  {
    s.(completed := s.writer.job.request, writer := if s.writer.job.stop then Exited else Enter)
  }

  // ---------- what standard output holds ----------

  /** Bytes that left a buffer, whether they reached the file or were given up. */
  function Payload(trace: seq<Event>): seq<byte> {
    if trace == [] then []
    else
      var last := trace[|trace| - 1];
      Payload(trace[..|trace| - 1]) + (if last.Data? || last.Lost? then last.bytes else [])
  }

  /** Bytes of records that reached the file. */
  function FileBytes(trace: seq<Event>): seq<byte> {
    if trace == [] then []
    else
      var last := trace[|trace| - 1];
      FileBytes(trace[..|trace| - 1]) + (if last.Data? then last.bytes else [])
  }

  ghost predicate NoWriteError(trace: seq<Event>) {
    forall i | 0 <= i < |trace| :: !trace[i].Lost?
  }

  /** Number of events up to and including the last fsync. */
  function LastSync(trace: seq<Event>): (n: nat)
    ensures n <= |trace|
    ensures n > 0 ==> trace[n - 1].Sync?
  {
    if trace == [] then 0
    else if trace[|trace| - 1].Sync? then |trace|
    else LastSync(trace[..|trace| - 1])
  }

  /** Length of what had left the buffers when the last fsync was issued. */
  function SyncedLength(trace: seq<Event>): nat { |Payload(trace[..LastSync(trace)])| }

  /** Losses announced in report lines. */
  function Reported(trace: seq<Event>): nat {
    if trace == [] then 0
    else
      var last := trace[|trace| - 1];
      Reported(trace[..|trace| - 1]) + (if last.Report? then last.lost else 0)
  }

  /** Byte counts announced in report lines. */
  function ReportedBytes(trace: seq<Event>): nat {
    if trace == [] then 0
    else
      var last := trace[|trace| - 1];
      ReportedBytes(trace[..|trace| - 1]) + (if last.Report? then last.total else 0)
  }

  lemma TraceSnoc(trace: seq<Event>, e: Event)
    ensures Payload(trace + [e]) == Payload(trace) + (if e.Data? || e.Lost? then e.bytes else [])
    ensures FileBytes(trace + [e]) == FileBytes(trace) + (if e.Data? then e.bytes else [])
    ensures Reported(trace + [e]) == Reported(trace) + (if e.Report? then e.lost else 0)
    ensures ReportedBytes(trace + [e]) == ReportedBytes(trace) + (if e.Report? then e.total else 0)
    ensures LastSync(trace + [e]) == if e.Sync? then |trace| + 1 else LastSync(trace)
    ensures SyncedLength(trace + [e]) == if e.Sync? then |Payload(trace)| else SyncedLength(trace)
  {
    assert (trace + [e])[..|trace|] == trace;
    if e.Sync? {
      assert (trace + [e])[..|trace| + 1] == trace + [e];
      assert Payload(trace + [e]) == Payload(trace) + [];
    } else {
      var k := LastSync(trace);
      assert (trace + [e])[..k] == trace[..k];
    }
  }

  /** Without a write error the file holds exactly what left the buffers. */
  lemma {:induction false} NoErrorFileIsPayload(trace: seq<Event>)
    requires NoWriteError(trace)
    ensures FileBytes(trace) == Payload(trace)
  {
    if trace != [] {
      NoErrorFileIsPayload(trace[..|trace| - 1]);
    }
  }

  lemma {:induction false} PayloadPrefix(trace: seq<Event>, k: nat)
    requires k <= |trace|
    ensures Payload(trace[..k]) <= Payload(trace)
  {
    if k < |trace| {
      PayloadPrefix(trace[..|trace| - 1], k);
      assert trace[..|trace| - 1][..k] == trace[..k];
    } else {
      assert trace[..k] == trace;
    }
  }
}
