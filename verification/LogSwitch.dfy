/**
 The log writer on its real storage: two fixed buffers, one filled by producers while the
 other is written out. Every method is one section of switch/src/log_switch.cpp that runs
 under the mutex, or one step of the writer thread outside it, and is proved to take the
 state it represents exactly where `LogCore` says.
 */
module LogSwitch {
  import opened Sequences
  import opened LogCore
  import opened LogInvariant
  import opened LogHistory

  datatype Place = NotRunning | AtLock | InWait | InWrite | InReport | InSync | InPublish | Left

  /** History, as in LogCore.State. */
  datatype Past = Past(
    trace: seq<Event>,
    accepted: seq<seq<byte>>,
    taken: nat,
    marks: seq<nat>,
    offered: nat,
    kept: nat,
    direct: nat)

  /** Standard output: the bytes of records that reached it. */
  class Output {
    ghost var bytes: seq<byte>

    constructor ()
      ensures bytes == []
    {
      bytes := [];
    }

    /** What write(2) does: it takes some bytes and answers how many, or -1 with errno EINTR or
        another error. A call is interrupted only finitely often, `budget` more times at most. */
    method Put(data: seq<byte>, budget: nat) returns (n: int, interrupted: bool)
      requires |data| > 0
      modifies this
      ensures n <= |data| && (interrupted ==> n < 0 && budget > 0)
      ensures bytes == old(bytes) + if n > 0 then data[..n] else []
    {
      n :| n <= |data|;
      interrupted :| interrupted ==> n < 0 && budget > 0;
      bytes := bytes + if n > 0 then data[..n] else [];
    }
  }

  class Logger {
    const out: Output
    const first: array<byte>
    const second: array<byte>
    var used: nat
    var pending: nat
    var running: bool
    var stopping: bool
    var requested: nat
    var completed: nat
    var dropped: nat

    // The writer thread: its place in the loop and its local variables. `offset` is how
    // far write_all has got.
    var place: Place
    var ready: nat
    var offset: nat
    var length: nat
    var job: Job
    var tally: Tally

    ghost var past: Past

    function Buffer(i: nat): array<byte> { if i == 0 then first else second }

    /** The writer's buffer is never the one producers fill. */
    ghost predicate Shape()
      reads this, first, second
    {
      && first != second && first.Length == CAPACITY && second.Length == CAPACITY
      && pending < 2 && used <= CAPACITY
      && (place.InWrite? ==> ready == 1 - pending && offset < length <= CAPACITY)
    }

    ghost function WriterView(): Writer
      requires Shape()
      reads this, first, second
    {
      match place
      case NotRunning => Absent
      case AtLock => Enter
      case InWait => Waiting
      case InWrite => Writing(Buffer(ready)[offset..length], length, job)
      case InReport => Reporting(job)
      case InSync => Syncing(job)
      case InPublish => Publishing(job)
      case Left => Exited
    }

    ghost function View(): State
      requires Shape()
      reads this, first, second
    {
      State(Buffer(pending)[..used], running, stopping, requested, completed, dropped, WriterView(),
            tally, past.trace, past.accepted, past.taken, past.marks, past.offered, past.kept, past.direct)
    }

    /** The invariant of the protocol's runs, and the history's bytes are those of the file. */
    ghost predicate Valid()
      reads this, first, second, out
    {
      Shape() && Inv(View()) && FileBytes(past.trace) == out.bytes
    }

    constructor ()
      ensures Valid() && View() == INITIAL
    {
      hide Inv;
      out := new Output();
      first, second := new byte[CAPACITY], new byte[CAPACITY];
      used, pending, running, stopping, requested, completed, dropped := 0, 0, false, false, 0, 0, 0;
      place, ready, offset, length := NotRunning, 0, 0, 0;
      job, tally := Job(0, 0, false), Tally(0, 0, false);
      past := Past([], [], 0, [], 0, 0, 0);
      new;
      InitialInv();
      assert Buffer(pending)[..used] == [];
    }

    /** write_all: `sent` is what went out, all of it exactly when the call succeeds. */
    method WriteAll(data: seq<byte>, interruptions: nat) returns (ok: bool, sent: seq<byte>)
      modifies out
      ensures sent <= data && out.bytes == old(out.bytes) + sent
      ensures ok <==> sent == data
    {
      var budget := interruptions;
      var rest := data;
      ok, sent := true, [];
      while |rest| > 0
        invariant ok && sent + rest == data && out.bytes == old(out.bytes) + sent
        decreases |rest|, budget
      {
        var n, interrupted := out.Put(rest, budget);
        if interrupted {
          budget := budget - 1;
        } else if n <= 0 {
          ok := false;
          return;
        } else {
          assert rest == rest[..n] + rest[n..];
          sent := sent + rest[..n];
          rest := rest[n..];
        }
      }
    }

    /** memcpy to the end of the pending buffer. */
    method Store(data: seq<byte>)
      requires Shape() && |data| <= CAPACITY - used
      modifies this`used, this`past, first, second
      ensures Shape() && View() == Append(old(View()), data)
    {
      var buffer := Buffer(pending);
      forall i | 0 <= i < |data| {
        buffer[used + i] := data[i];
      }
      used := used + |data|;
      past := past.(accepted := past.accepted + [data]);
      assert buffer[..used] == old(Buffer(pending)[..used]) + data;
      assert place.InWrite? ==> Buffer(ready)[offset..length] == old(Buffer(ready)[offset..length]);
    }

    method WriteDirectly(data: seq<byte>, interruptions: nat) returns (ghost n: nat)
      requires Shape()
      modifies this`past, out
      ensures Shape() && n <= |data| && View() == Direct(old(View()), data, n)
      ensures out.bytes == old(out.bytes) + data[..n]
    {
      var ok, sent := WriteAll(data, interruptions);
      n := |sent|;
      assert sent == data[..n] && (ok <==> n == |data|);
      past := past.(trace := past.trace + [Data(sent)] + (if ok then [] else [Lost(data[n..])]),
                    accepted := past.accepted + [data],
                    taken := |past.accepted| + 1,
                    direct := past.direct + |data|);
    }

    /** melee_nx_log_write. */
    method Write(data: seq<byte>, interruptions: nat)
      requires Valid()
      modifies this`used, this`dropped, this`past, first, second, out
      ensures Valid() && exists n: nat | n <= |data| :: View() == WriteRecord(old(View()), data, n)
      ensures var kept := data != [] && (running ==> !stopping && old(used) + |data| <= CAPACITY);
              && dropped == old(dropped) + (if data != [] && !kept then 1 else 0)
              && Buffer(pending)[..used]
                 == old(Buffer(pending)[..used]) + (if kept && running then data else [])
              && past.accepted == old(past.accepted) + (if kept then [data] else [])
              && if kept && !running then old(out.bytes) <= out.bytes <= old(out.bytes) + data
                 else out.bytes == old(out.bytes)
    {
      hide Inv, FileBytes;
      ghost var was := View();
      ghost var n := WriteRoutine(data, interruptions);
      StepKeepsInv(was, LogInvariant.Write(data, n));
      if !running && data != [] {
        DirectBytes(was, data, n);
      }
    }

    method WriteRoutine(data: seq<byte>, interruptions: nat) returns (ghost n: nat)
      requires Shape()
      modifies this`used, this`dropped, this`past, first, second, out
      ensures Shape() && n <= |data| && View() == WriteRecord(old(View()), data, n)
      ensures out.bytes == old(out.bytes) + if running then [] else data[..n]
    {
      n := 0;
      if |data| == 0 {
        return;
      }
      if !running {
        n := WriteDirectly(data, interruptions);
        past := past.(offered := past.offered + 1, kept := past.kept + 1);
      } else if stopping || |data| > CAPACITY - used {
        dropped := dropped + 1;
        past := past.(offered := past.offered + 1);
      } else {
        Store(data);
        past := past.(offered := past.offered + 1, kept := past.kept + 1);
      }
    }

    method Raise() returns (target: nat)
      requires Shape()
      modifies this`requested, this`past
      ensures Shape() && View() == RaiseRequest(old(View())) && target == old(requested) + 1
    {
      requested := requested + 1;
      past := past.(marks := past.marks + [|past.accepted|]);
      target := requested;
    }

    /** melee_nx_log_flush up to its wait; `ok` is what fsync answers. */
    method FlushUntilWait(ok: bool) returns (outcome: FlushOutcome)
      requires Valid()
      modifies this`requested, this`past
      ensures Valid() && (View(), outcome) == FlushLock(old(View()), ok)
    {
      hide Inv, FileBytes;
      ghost var was := View();
      outcome := RequestFlush(ok);
      StepKeepsInv(was, LogInvariant.Flush(ok));
      FileSnoc(was.trace, Sync(ok));
    }

    method RequestFlush(ok: bool) returns (outcome: FlushOutcome)
      requires Shape()
      modifies this`requested, this`past
      ensures Shape() && (View(), outcome) == FlushLock(old(View()), ok)
    {
      outcome := Flushed;
      if running && !stopping {
        var target := Raise();
        outcome := Await(target);
      } else if !running {
        past := past.(trace := past.trace + [Sync(ok)]);
      }
    }

    /** The locked part of melee_nx_log_write_critical, from the space test on. */
    method PutChunk(chunk: seq<byte>, interruptions: nat) returns (outcome: ChunkOutcome)
      requires Valid() && 0 < |chunk| <= CAPACITY
      modifies this, first, second, out
      ensures Valid() && exists n: nat | n <= |chunk| :: (View(), outcome) == ChunkLock(old(View()), chunk, n)
    {
      hide Inv, FileBytes;
      ghost var was := View();
      ghost var n;
      outcome, n := PlaceChunk(chunk, interruptions);
      StepKeepsInv(was, Chunk(chunk, n));
      if !was.running {
        DirectBytes(was, chunk, n);
      }
    }

    method PlaceChunk(chunk: seq<byte>, interruptions: nat) returns (outcome: ChunkOutcome, ghost n: nat)
      requires Shape()
      modifies this`used, this`requested, this`past, first, second, out
      ensures Shape() && n <= |chunk| && (View(), outcome) == ChunkLock(old(View()), chunk, n)
      ensures out.bytes == old(out.bytes) + if running then [] else chunk[..n]
    {
      n := 0;
      if running && !stopping && |chunk| > CAPACITY - used {
        var target := Raise();
        outcome := NeedSpace(target);
      } else if !running {
        n := WriteDirectly(chunk, interruptions);
        outcome := Stored;
      } else if !stopping {
        Store(chunk);
        outcome := Stored;
      } else {
        outcome := Discarded;
      }
    }

    method InitWriter(created: bool)
      requires Valid()
      modifies this
      ensures Valid() && View() == Init(old(View()), created)
    {
      hide Inv, FileBytes;
      ghost var was := View();
      if !running {
        stopping := false;
        running := created;
        if created {
          place := AtLock;
          tally := Tally(0, 0, false);
        } else {
          past := past.(trace := past.trace + [Notice]);
        }
      }
      StepKeepsInv(was, Start(created));
      FileSnoc(was.trace, Notice);
    }

    method StartShutdown() returns (join: bool)
      requires Valid()
      modifies this`stopping
      ensures Valid() && View() == BeginStop(old(View())) && join == running
    {
      hide Inv, FileBytes;
      ghost var was := View();
      join := running;
      stopping := true;
      StepKeepsInv(was, StopBegin);
    }

    /** After pthread_join, if a writer was running. */
    method FinishShutdown()
      requires Valid() && (running ==> place.Left?)
      modifies this`running, this`place
      ensures Valid() && View() == EndStop(old(View()))
    {
      hide Inv, FileBytes;
      ghost var was := View();
      running := false;
      place := NotRunning;
      StepKeepsInv(was, StopEnd);
    }

    // ---------- the writer thread ----------

    /** The filled array becomes the writer's, the other one the producers'. */
    method SwapBuffers()
      requires Shape() && !place.InWrite?
      modifies this`used, this`pending, this`ready, this`offset, this`length
      ensures Shape() && used == offset == 0 && length == old(used) <= CAPACITY && ready == 1 - pending
      ensures Buffer(pending)[..used] == [] && Buffer(ready)[offset..length] == old(Buffer(pending)[..used])
    {
      length, ready, pending, used, offset := used, pending, 1 - pending, 0, 0;
    }

    method TakeBuffer()
      requires Shape() && !place.InWrite?
      modifies this`used, this`pending, this`dropped, this`place, this`ready, this`offset, this`length, this`job,
               this`past
      ensures Shape() && View() == Swap(old(View()))
    {
      SwapBuffers();
      job := Job(requested, dropped, stopping);
      dropped := 0;
      past := past.(taken := |past.accepted|);
      place := if length > 0 then InWrite else InReport;
    }

    method WakeAndTake()
      requires Valid() && place.InWait?
      modifies this
      ensures Valid() && View() == Swap(old(View()))
    {
      hide Inv, FileBytes;
      ghost var was := View();
      TakeBuffer();
      StepKeepsInv(was, Wake);
    }

    method LockAndTake()
      requires Valid() && place.AtLock?
      modifies this
      ensures Valid() && View() == WriterEnter(old(View()))
    {
      hide Inv, FileBytes;
      ghost var was := View();
      if used < WAKE_LEVEL && requested == completed && !stopping {
        place := InWait;
      } else {
        TakeBuffer();
      }
      StepKeepsInv(was, Lock);
    }

    method Advance(n: nat)
      requires Shape() && place.InWrite? && 0 < n <= length - offset
      modifies this`offset, this`place, this`past, this`tally
      ensures Shape() && View() == WriterWrite(old(View()), n)
    {
      ghost var rest := Buffer(ready)[offset..length];
      past := past.(trace := past.trace + [Data(rest[..n])]);
      offset := offset + n;
      assert rest[n..] == Buffer(ready)[offset..length];
      if offset == length {
        tally := Tally(tally.bytes + length, tally.errors, true);
        place := InReport;
      }
    }

    method GiveUp()
      requires Shape() && place.InWrite?
      modifies this`place, this`past, this`tally
      ensures Shape() && View() == WriterWriteFails(old(View()))
    {
      past := past.(trace := past.trace + [Lost(Buffer(ready)[offset..length])]);
      tally := Tally(tally.bytes + length, tally.errors + 1, true);
      place := InReport;
    }

    /** One turn of write_all in the writer; nothing moves when the call is interrupted. */
    method WriteSome(budget: nat) returns (moved: bool)
      requires Valid() && place.InWrite?
      modifies this`offset, this`place, this`past, this`tally, out
      ensures Valid()
      ensures !moved ==> View() == old(View()) && out.bytes == old(out.bytes)
      ensures moved ==>
                View() == WriterWriteFails(old(View()))
                || exists n: nat | 0 < n <= |old(View()).writer.rest| :: View() == WriterWrite(old(View()), n)
    {
      hide Inv, FileBytes;
      ghost var was := View();
      ghost var rest := was.writer.rest;
      var n, interrupted := out.Put(Buffer(ready)[offset..length], budget);
      moved := !interrupted;
      if !interrupted {
        if n <= 0 {
          GiveUp();
          StepKeepsInv(was, PutFails);
          FileSnoc(was.trace, Lost(rest));
        } else {
          Advance(n);
          StepKeepsInv(was, LogInvariant.Put(n));
          FileSnoc(was.trace, Data(rest[..n]));
        }
      }
    }

    method ReportLosses(due: bool)
      requires Valid() && place.InReport?
      modifies this`place, this`past, this`tally
      ensures Valid() && View() == WriterReport(old(View()), due)
    {
      hide Inv, FileBytes;
      ghost var was := View();
      if job.lost > 0 || due || job.stop {
        past := past.(trace := past.trace + [Report(tally.bytes, job.lost, tally.errors)]);
        tally := Tally(0, 0, true);
      }
      place := InSync;
      StepKeepsInv(was, Announce(due));
      FileSnoc(was.trace, Report(was.tally.bytes, was.writer.job.lost, was.tally.errors));
    }

    method SyncFile(due: bool, ok: bool)
      requires Valid() && place.InSync?
      modifies this`place, this`past, this`tally
      ensures Valid() && View() == WriterSync(old(View()), due, ok)
    {
      hide Inv, FileBytes;
      ghost var was := View();
      if job.request != completed || job.stop || (tally.dirty && due) {
        past := past.(trace := past.trace + [Sync(ok)]);
        tally := Tally(tally.bytes, if ok then tally.errors else tally.errors + 1, false);
      }
      place := InPublish;
      StepKeepsInv(was, Commit(due, ok));
      FileSnoc(was.trace, Sync(ok));
    }

    method PublishCompletion()
      requires Valid() && place.InPublish?
      modifies this`completed, this`place
      ensures Valid() && View() == WriterPublish(old(View()))
    {
      hide Inv, FileBytes;
      ghost var was := View();
      completed := job.request;
      place := if job.stop then Left else AtLock;
      StepKeepsInv(was, Publish);
    }
  }
}
