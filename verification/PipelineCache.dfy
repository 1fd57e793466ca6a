/**
 The scheduler's shared state and the code that changes it, section by section, proved against
 the protocol of PipelineScheduler. What each thread keeps to itself between its sections, the
 job a worker compiles and the grant under way, is ghost here.
 */
module PipelineCache {
  import opened PipelineScheduler

  class Scheduler {
    var pipelineQueue: seq<Job>
    var backgroundQueue: seq<Job>
    var pendingPipelines: set<Hash>
    var pipelineRequests: map<Hash, Request>
    var pipelines: map<Hash, Frame>
    var backgroundCredits: nat
    ghost var workers: seq<Worker>
    ghost var granting: bool
    ghost var asked: seq<Ask>
    ghost var writes: seq<Write>
    ghost var starts: seq<Start>
    ghost var publishedAt: map<Hash, nat>
    ghost var frames: nat

    ghost function View(): State
      reads this
    {
      State(pipelineQueue, backgroundQueue, pendingPipelines, pipelineRequests, pipelines, workers,
            backgroundCredits, granting, asked, writes, starts, publishedAt, frames)
    }

    /** The invariant of the protocol's runs. */
    ghost predicate Valid()
      reads this
    {
      Inv(View())
    }

    constructor (ghost workerCount: nat)
      ensures Valid() && View() == Initial(workerCount)
    {
      pipelineQueue, backgroundQueue, pendingPipelines := [], [], {};
      pipelineRequests, pipelines, backgroundCredits := map[], map[], 0;
      workers, granting := seq(workerCount, _ => Idle), false;
      asked, writes, starts, publishedAt, frames := [], [], [], map[], 0;
      new;
      InitialInv(workerCount);
    }

    /** PipelineRequestState::remember on the hash's request, and the write it asks for. */
    method Remember(h: Hash, frame: Frame, persist: bool) returns (write: bool)
      modifies this`pipelineRequests, this`asked, this`writes
      ensures View() == PipelineScheduler.Remember(old(View()), h, frame, persist)
      ensures write == (|writes| > |old(writes)|)
    {
      var request := if h in pipelineRequests then pipelineRequests[h] else FRESH;
      var changed := !request.known || frame < request.first;
      if changed {
        request := request.(first := frame);
      }
      request := request.(known := true);
      pipelineRequests := pipelineRequests[h := request];
      write := persist && changed;
      asked := asked + [Ask(h, frame, persist)];
      if write {
        writes := writes + [Write(h, frame)];
      }
    }

    /** find_pending_pipeline. */
    static method FindPending(q: seq<Job>, h: Hash) returns (i: nat)
      ensures i == IndexOf(q, h)
    {
      i := 0;
      while i < |q| && q[i].hash != h
        invariant i <= |q|
        invariant IndexOf(q, h) == i + IndexOf(q[i..], h)
      {
        assert q[i..][1..] == q[i + 1..];
        i := i + 1;
      }
    }

    /** touch_pending_pipeline, and the caller's lowering of the job it returns. */
    method TouchPending(h: Hash, frame: Frame, p: Priority)
      modifies this`pipelineQueue, this`backgroundQueue
      ensures View() == Touch(old(View()), h, frame, p)
    {
      if h in pipelineRequests && pipelineRequests[h].compiling {
        return;
      }
      var i := FindPending(pipelineQueue, h);
      if i < |pipelineQueue| {
        pipelineQueue := LowerAt(pipelineQueue, i, frame);
        return;
      }
      var k := FindPending(backgroundQueue, h);
      if k == |backgroundQueue| {
        return;
      }
      if p.Background? {
        backgroundQueue := LowerAt(backgroundQueue, k, frame);
      } else {
        var job := backgroundQueue[k];
        backgroundQueue := backgroundQueue[..k] + backgroundQueue[k + 1..];
        pipelineQueue := pipelineQueue + [job];
        pipelineQueue := LowerAt(pipelineQueue, |pipelineQueue| - 1, frame);
      }
    }

    static method LowerAt(q: seq<Job>, i: nat, frame: Frame) returns (r: seq<Job>)
      requires i < |q|
      ensures r == q[i := Lowered(q[i], frame)]
    {
      r := q;
      if frame < q[i].frame {
        r := q[i := q[i].(frame := frame)];
      }
    }

    /** The locked section of find_pipeline_impl. */
    method FindPipeline(h: Hash, frame: Frame, p: Priority) returns (ready: bool, notifyWorker: bool)
      requires Valid()
      modifies this
      ensures Valid() && View() == Find(old(View()), h, frame, p)
      ensures ready == (h in old(pipelines))
      ensures notifyWorker == (h !in old(pipelines) && (h in old(pendingPipelines) ==> !p.Background?))
    {
      hide Inv;
      StepKeepsInv(View(), Asks(h, frame, p));
      var persist := !p.Background?;
      ready, notifyWorker := false, false;
      var write := Remember(h, frame, persist);
      ghost var s1 := View();
      assert s1 == PipelineScheduler.Remember(old(View()), h, frame, persist);
      hide PipelineScheduler.Remember, Touch;
      if h in pipelines {
        ready := true;
        if persist && frame < pipelines[h] {
          pipelines := pipelines[h := frame];
        }
        assert persist ==> pipelines == old(pipelines)[h := Lower(old(pipelines)[h], frame)];
        assert View() == s1.(published := pipelines);
      } else if h in pendingPipelines {
        TouchPending(h, frame, p);
        notifyWorker := !p.Background?;
      } else {
        match p {
          case Background => backgroundQueue := backgroundQueue + [Job(h, frame)];
          case Normal => pipelineQueue := pipelineQueue + [Job(h, frame)];
        }
        pendingPipelines := pendingPipelines + {h};
        notifyWorker := true;
        assert View() == Enqueue(s1, h, frame, p);
      }
    }

    /** A worker's first locked section; nothing is taken when it has to wait. */
    method TakeJob(ghost w: nat) returns (taken: bool, job: Job, fromBackground: bool)
      requires Valid() && w < |workers| && workers[w].Idle?
      modifies this
      ensures Valid() && taken == old(CanTake(View(), w))
      ensures taken ==> View() == Take(old(View()), w) && workers[w] == Compiling(job)
      ensures taken ==> fromBackground == (old(pipelineQueue) == [])
      ensures !taken ==> View() == old(View())
    {
      hide Inv;
      if CanTake(View(), w) {
        StepKeepsInv(View(), Takes(w));
      }
      hide Take, CanTake;
      taken, job, fromBackground := PopJob(w);
    }

    method PopJob(ghost w: nat) returns (taken: bool, job: Job, fromBackground: bool)
      requires w < |workers| && workers[w].Idle?
      modifies this`pipelineQueue, this`backgroundQueue, this`backgroundCredits, this`pipelineRequests,
               this`workers, this`starts
      ensures taken == old(CanTake(View(), w))
      ensures taken ==> View() == Take(old(View()), w) && workers[w] == Compiling(job)
      ensures taken ==> fromBackground == (old(pipelineQueue) == [])
      ensures !taken ==> View() == old(View())
    {
      taken, job, fromBackground := false, Job(0, 0), false;
      if pipelineQueue == [] {
        if backgroundQueue == [] || backgroundCredits == 0 {
          return;
        }
        backgroundCredits := backgroundCredits - 1;
      }
      taken := true;
      fromBackground := pipelineQueue == [];
      if fromBackground {
        job, backgroundQueue := backgroundQueue[0], backgroundQueue[1..];
      } else {
        job, pipelineQueue := pipelineQueue[0], pipelineQueue[1..];
      }
      var request := if job.hash in pipelineRequests then pipelineRequests[job.hash] else FRESH;
      pipelineRequests := pipelineRequests[job.hash := request.(compiling := true)];
      workers := workers[w := Compiling(job)];
      starts := starts + [Start(job.hash, fromBackground)];
    }

    /** A worker's second locked section, with the job it compiled. */
    method PublishJob(ghost w: nat, job: Job) returns (hasMore: bool)
      requires Valid() && w < |workers| && workers[w] == Compiling(job)
      modifies this
      ensures Valid() && View() == Publish(old(View()), w)
      ensures hasMore == (pipelineQueue != [] || backgroundQueue != [])
    {
      hide Inv;
      StepKeepsInv(View(), Publishes(w));
      hide Publish;
      hasMore := StorePipeline(w, job);
    }

    method StorePipeline(ghost w: nat, job: Job) returns (hasMore: bool)
      requires w < |workers| && workers[w] == Compiling(job)
      modifies this`pipelineRequests, this`pipelines, this`publishedAt, this`pendingPipelines, this`workers
      ensures View() == Publish(old(View()), w)
      ensures hasMore == (pipelineQueue != [] || backgroundQueue != [])
    {
      var first := SettleRequest(job);
      if job.hash !in pipelines {
        pipelines := pipelines[job.hash := first];
        publishedAt := publishedAt[job.hash := |asked|];
      }
      pendingPipelines := pendingPipelines - {job.hash};
      workers := workers[w := Idle];
      hasMore := pipelineQueue != [] || backgroundQueue != [];
    }

    /** The compile is over: the request's first use, remembered or else the job's own. */
    method SettleRequest(job: Job) returns (first: Frame)
      modifies this`pipelineRequests
      ensures var r := RequestOf(old(pipelineRequests), job.hash).(compiling := false);
              var r' := if r.known then r else Remembered(r, job.frame);
              pipelineRequests == old(pipelineRequests)[job.hash := r'] && first == r'.first
    {
      var request := if job.hash in pipelineRequests then pipelineRequests[job.hash] else FRESH;
      request := request.(compiling := false);
      if !request.known {
        request := request.(first := job.frame, known := true);
      }
      pipelineRequests := pipelineRequests[job.hash := request];
      first := request.first;
    }

    /** begin_pipeline_frame up to the unlocked test of the credits. */
    method TestCredits(pinned: bool, frameDelta: int) returns (grant: bool)
      requires Valid() && !granting
      modifies this`granting, this`frames
      ensures Valid() && View() == BeginFrame(old(View()), pinned || 0 < frameDelta <= 20_000_000)
      ensures grant == granting
    {
      hide Inv;
      StepKeepsInv(View(), BeginsFrame(pinned || 0 < frameDelta <= 20_000_000));
      grant := (pinned || (frameDelta > 0 && frameDelta <= 20_000_000)) && backgroundCredits < CREDIT_CAP;
      granting := grant;
      frames := frames + 1;
    }

    /** The fetch_add that follows the test. */
    method GrantCredit()
      requires Valid() && granting
      modifies this`granting, this`backgroundCredits
      ensures Valid() && View() == AddCredit(old(View()))
    {
      hide Inv;
      StepKeepsInv(View(), AddsCredit);
      backgroundCredits := backgroundCredits + 1;
      granting := false;
    }
  }
}
