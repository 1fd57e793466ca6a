/**
 Which queue a pipeline waits in, in every run of the scheduler: the draws' own queue as soon as a
 draw has asked for it, the paced one as long as only background requests have.
 */
module PipelineQueues {
  import opened PipelineScheduler

  /** Some request that was not a background one has asked for this hash. */
  predicate DrawAsked(asked: seq<Ask>, h: Hash) {
    exists i :: 0 <= i < |asked| && asked[i].hash == h && asked[i].persist
  }

  /** Pending and not being compiled. */
  predicate Waits(s: State, h: Hash) { h in s.pending && InFlight(s.workers, h) == 0 }

  ghost predicate QueueOk(s: State, h: Hash) {
    Waits(s, h) ==> if DrawAsked(s.asked, h) then InQueue(s.priority, h) == 1 else InQueue(s.background, h) == 1
  }

  ghost predicate QueuesOk(s: State) { forall h: Hash :: QueueOk(s, h) }

  /** Every request enters the history with its frame, marked as a draw's unless it is a
      background one, and no other step does. */
  lemma AsksAreRecorded(s: State, a: Step)
    requires Enabled(s, a)
    ensures Apply(s, a).asked == s.asked + if a.Asks? then [Ask(a.h, a.frame, a.p.Normal?)] else []
  {
    if a.Asks? {
      FindHistory(s, a.h, a.frame, a.p);
    }
  }

  lemma DrawAskedSnoc(asked: seq<Ask>, a: Ask, h: Hash)
    ensures DrawAsked(asked + [a], h) <==> DrawAsked(asked, h) || (a.hash == h && a.persist)
  {
    var all := asked + [a];
    if i :| 0 <= i < |asked| && asked[i].hash == h && asked[i].persist {
      assert all[i] == asked[i];
    }
    assert all[|asked|] == a;
  }

  // ---------- touching ----------

  lemma TouchLeaves(s: State, h: Hash, frame: Frame, p: Priority, k: Hash)
    requires k != h
    ensures InQueue(Touch(s, h, frame, p).priority, k) == InQueue(s.priority, k)
    ensures InQueue(Touch(s, h, frame, p).background, k) == InQueue(s.background, k)
  {
    var i, b := IndexOf(s.priority, h), IndexOf(s.background, h);
    if i < |s.priority| {
      InQueueUpdate(s.priority, i, Lowered(s.priority[i], frame), k);
    } else if b < |s.background| {
      var job := Lowered(s.background[b], frame);
      InQueueUpdate(s.background, b, job, k);
      InQueueSplit(s.background, b, k);
      InQueueConcat(s.priority, [job], k);
      InQueueSingle(job, k);
      hide InQueue, IndexOf;
    }
  }

  /** A waiting job stays in the draws' queue, and comes there when a draw asks for it. */
  lemma TouchMoves(s: State, h: Hash, frame: Frame, p: Priority)
    requires !RequestOf(s.requests, h).compiling && InQueue(s.priority, h) + InQueue(s.background, h) == 1
    ensures var s' := Touch(s, h, frame, p);
            if p.Normal? || InQueue(s.priority, h) == 1 then
              InQueue(s'.priority, h) == 1 && InQueue(s'.background, h) == 0
            else InQueue(s'.priority, h) == 0 && InQueue(s'.background, h) == 1
  {
    var i, b := IndexOf(s.priority, h), IndexOf(s.background, h);
    IndexOfMisses(s.priority, h);
    IndexOfMisses(s.background, h);
    if i < |s.priority| {
      InQueueUpdate(s.priority, i, Lowered(s.priority[i], frame), h);
    } else {
      var job := Lowered(s.background[b], frame);
      InQueueUpdate(s.background, b, job, h);
      InQueueSplit(s.background, b, h);
      InQueueConcat(s.priority, [job], h);
      InQueueSingle(job, h);
      hide InQueue, IndexOf;
    }
  }

  // ---------- each step ----------

  lemma FindQueuesOthers(s: State, h: Hash, frame: Frame, p: Priority, k: Hash)
    requires QueueOk(s, k) && k != h
    ensures QueueOk(Find(s, h, frame, p), k)
  {
    var s1, job := Remember(s, h, frame, !p.Background?), Job(h, frame);
    FindPlaces(s, h, frame, p, k);
    FindHistory(s, h, frame, p);
    DrawAskedSnoc(s.asked, Ask(h, frame, !p.Background?), k);
    TouchLeaves(s1, h, frame, p, k);
    InQueueConcat(s.priority, [job], k);
    InQueueConcat(s.background, [job], k);
    InQueueSingle(job, k);
    hide Touch, InQueue, InFlight, DrawAsked, Places, RequestOf, Remembered, WantsWrite;
  }

  lemma FindQueuesOwn(s: State, h: Hash, frame: Frame, p: Priority)
    requires HashOk(s, h) && QueueOk(s, h)
    ensures QueueOk(Find(s, h, frame, p), h)
  {
    var s1, job := Remember(s, h, frame, !p.Background?), Job(h, frame);
    FindPlaces(s, h, frame, p, h);
    FindHistory(s, h, frame, p);
    DrawAskedSnoc(s.asked, Ask(h, frame, !p.Background?), h);
    OnlyAskedOnes(s, h);
    assert RequestOf(s1.requests, h).compiling == RequestOf(s.requests, h).compiling;
    if h in s.pending && InFlight(s.workers, h) == 0 {
      assert Places(s, h) == 1;
      TouchMoves(s1, h, frame, p);
    }
    InQueueConcat(s.priority, [job], h);
    InQueueConcat(s.background, [job], h);
    InQueueSingle(job, h);
    hide Touch, InQueue, InFlight, DrawAsked, RequestOf, Remembered, WantsWrite, Earliest, WasAsked, CountStarts;
  }

  /** A hash that is neither pending nor published was never asked for. */
  lemma OnlyAskedOnes(s: State, h: Hash)
    requires HashOk(s, h)
    ensures DrawAsked(s.asked, h) ==> h in s.pending || h in s.published
  {
    hide Places, InFlight, Earliest, CountStarts;
  }

  lemma TakeQueues(s: State, w: nat, k: Hash)
    requires CanTake(s, w) && HashOk(s, k) && QueueOk(s, k)
    ensures QueueOk(Take(s, w), k)
  {
    var job := Take(s, w).workers[w].job;
    if s.priority == [] {
      InQueueSplit(s.background, 0, k);
    } else {
      InQueueSplit(s.priority, 0, k);
    }
    InFlightUpdate(s.workers, w, Compiling(job), k);
    hide InQueue, InFlight, DrawAsked, Earliest, WasAsked, CountStarts;
  }

  lemma PublishQueues(s: State, w: nat, k: Hash)
    requires CanPublish(s, w) && QueueOk(s, k)
    ensures QueueOk(Publish(s, w), k)
  {
    InFlightUpdate(s.workers, w, Idle, k);
    hide InQueue, InFlight, DrawAsked;
  }

  lemma StepQueues(s: State, a: Step)
    requires Inv(s) && QueuesOk(s) && Enabled(s, a)
    ensures QueuesOk(Apply(s, a))
  {
    hide HashOk, QueueOk, Find, Take, Publish;
    forall k: Hash ensures QueueOk(Apply(s, a), k) {
      assert HashOk(s, k) && QueueOk(s, k);
      match a {
        case Asks(h, frame, p) =>
          if k == h {
            FindQueuesOwn(s, h, frame, p);
          } else {
            FindQueuesOthers(s, h, frame, p, k);
          }
        case Takes(w) => TakeQueues(s, w, k);
        case Publishes(w) => PublishQueues(s, w, k);
        case _ => SameQueues(s, a, k);
      }
    }
  }

  lemma SameQueues(s: State, a: Step, k: Hash)
    requires Enabled(s, a) && (a.BeginsFrame? || a.AddsCredit?) && QueueOk(s, k)
    ensures QueueOk(Apply(s, a), k)
  {
  }

  lemma {:induction false} QueuesOnRun(run: seq<State>, i: nat)
    requires Run(run) && i < |run|
    ensures QueuesOk(run[i])
  {
    if i > 0 {
      QueuesOnRun(run, i - 1);
      InvOnRun(run, i - 1);
      assert Next(run[i - 1], run[i - 1 + 1]);
      var a :| Enabled(run[i - 1], a) && run[i] == Apply(run[i - 1], a);
      hide *;
      StepQueues(run[i - 1], a);
    }
  }

  // ---------- what every run keeps ----------

  /** A pipeline that waits is in the draws' queue if any draw has asked for it, and in the
      background queue if only background requests have; once each, and in no other place. */
  lemma WaitsWhereAskedFor(run: seq<State>, i: nat, h: Hash)
    requires Run(run) && i < |run| && Waits(run[i], h)
    ensures var s := run[i]; InQueue(s.priority, h) == if DrawAsked(s.asked, h) then 1 else 0
    ensures var s := run[i]; InQueue(s.background, h) == if DrawAsked(s.asked, h) then 0 else 1
  {
    QueuesOnRun(run, i);
    InvOnRun(run, i);
    assert HashOk(run[i], h) && QueueOk(run[i], h);
  }

  lemma {:induction false} NotEmpty(q: seq<Job>, h: Hash)
    requires InQueue(q, h) > 0
    ensures q != []
  {
  }

  /** A draw's pipeline is never delayed: as long as one waits, any idle worker can take a job
      without a credit, and takes one that a draw waits for. */
  lemma DrawsNeedNoCredit(run: seq<State>, i: nat, h: Hash, w: nat)
    requires Run(run) && i < |run| && Waits(run[i], h) && DrawAsked(run[i].asked, h)
    requires w < |run[i].workers| && run[i].workers[w].Idle?
    ensures var s := run[i].(credits := 0);
            && Enabled(s, Takes(w))
            && var s' := Apply(s, Takes(w));
               s'.workers[w].Compiling? && DrawAsked(s.asked, s'.workers[w].job.hash)
  {
    var s := run[i];
    WaitsWhereAskedFor(run, i, h);
    NotEmpty(s.priority, h);
    var first := s.priority[0].hash;
    InQueueSplit(s.priority, 0, first);
    InvOnRun(run, i);
    QueuesOnRun(run, i);
    assert HashOk(s, first) && QueueOk(s, first);
    hide InQueue, InFlight, DrawAsked, Earliest, WasAsked, CountStarts;
  }

  /** A worker takes the first job of the draws' queue; only when that is empty, and for a credit,
      the first of the other; the start is recorded as what it is. */
  lemma TakesFirst(s: State, w: nat)
    requires Enabled(s, Takes(w))
    ensures var s' := Apply(s, Takes(w));
            if s.priority != [] then
              && s'.workers[w] == Compiling(s.priority[0]) && s.priority == [s.priority[0]] + s'.priority
              && s'.background == s.background && s'.credits == s.credits
              && s'.starts == s.starts + [Start(s.priority[0].hash, false)]
            else
              && s.background != [] && s'.workers[w] == Compiling(s.background[0])
              && s.background == [s.background[0]] + s'.background
              && s'.priority == [] && s'.credits == s.credits - 1
              && s'.starts == s.starts + [Start(s.background[0].hash, true)]
  {
  }

  /** An idle worker may take a job exactly when a draw's waits, or a background one and a credit. */
  lemma TakesExactlyWhen(s: State, w: nat)
    requires w < |s.workers| && s.workers[w].Idle?
    ensures Enabled(s, Takes(w)) <==> s.priority != [] || (s.background != [] && s.credits >= 1)
  {
  }

  /** A scheduler starts with nothing queued and no credit, and takes requests at any time. */
  lemma StartsEmpty(run: seq<State>, h: Hash, frame: Frame, p: Priority)
    requires Run(run)
    ensures var s := run[0];
            && s.priority == [] && s.background == [] && s.pending == {} && s.published == map[]
            && s.credits == 0 && !s.granting && (forall w | 0 <= w < |s.workers| :: s.workers[w].Idle?)
    ensures forall i | 0 <= i < |run| :: Enabled(run[i], Asks(h, frame, p))
  {
  }

  // ---------- order ----------

  ghost predicate Before(q: seq<Job>, h: Hash, k: Hash) {
    exists i, j :: 0 <= i < j < |q| && q[i].hash == h && q[j].hash == k
  }

  lemma TouchKeepsOrder(s: State, g: Hash, frame: Frame, p: Priority, h: Hash, k: Hash)
    requires Before(s.priority, h, k)
    ensures Before(Touch(s, g, frame, p).priority, h, k)
  {
    var q, q' := s.priority, Touch(s, g, frame, p).priority;
    var i, j :| 0 <= i < j < |q| && q[i].hash == h && q[j].hash == k;
    hide IndexOf;
    assert q'[i].hash == h && q'[j].hash == k;
  }

  /** The draws' queue is served in the order in which the draws came: of two that wait, the
      later one stays until the earlier one has been taken. */
  lemma DrawsAreServedInOrder(s: State, a: Step, h: Hash, k: Hash)
    requires Inv(s) && Enabled(s, a) && Before(s.priority, h, k)
    ensures var s' := Apply(s, a);
            Before(s'.priority, h, k) || (InFlight(s'.workers, h) > 0 && InQueue(s'.priority, k) > 0)
  {
    match a
    case Asks(g, frame, p) => FindKeepsOrder(s, g, frame, p, h, k);
    case Takes(w) => TakeKeepsOrder(s, w, h, k);
    case _ =>
  }

  lemma FindKeepsOrder(s: State, g: Hash, frame: Frame, p: Priority, h: Hash, k: Hash)
    requires Before(s.priority, h, k)
    ensures Before(Find(s, g, frame, p).priority, h, k)
  {
    TouchKeepsOrder(Remember(s, g, frame, !p.Background?), g, frame, p, h, k);
    hide Touch;
    var q, q' := s.priority, Find(s, g, frame, p).priority;
    var i, j :| 0 <= i < j < |q| && q[i].hash == h && q[j].hash == k;
    if q' == q + [Job(g, frame)] {
      assert q'[i].hash == h && q'[j].hash == k;
    }
  }

  lemma {:induction false} InQueueAt(q: seq<Job>, j: nat)
    requires j < |q|
    ensures InQueue(q, q[j].hash) > 0
  {
    InQueueSplit(q, j, q[j].hash);
    hide InQueue;
  }

  lemma TakeKeepsOrder(s: State, w: nat, h: Hash, k: Hash)
    requires CanTake(s, w) && Before(s.priority, h, k)
    ensures var s' := Take(s, w);
            Before(s'.priority, h, k) || (InFlight(s'.workers, h) > 0 && InQueue(s'.priority, k) > 0)
  {
    var q, q' := s.priority, Take(s, w).priority;
    var i, j :| 0 <= i < j < |q| && q[i].hash == h && q[j].hash == k;
    assert q'[j - 1].hash == k;
    InQueueAt(q', j - 1);
    if i > 0 {
      assert q'[i - 1].hash == h;
    } else {
      InFlightUpdate(s.workers, w, Compiling(q[0]), h);
    }
    hide InQueue, InFlight;
  }

  // ---------- credits ----------

  /** A frame with time to spare adds one credit to fewer than four, whatever requests come
      before the credit is added; a frame without, or with four in hand, adds none. */
  lemma SpareFrameAddsCredit(s: State, grant: bool)
    requires Inv(s) && Enabled(s, BeginsFrame(grant))
    ensures var s1 := Apply(s, BeginsFrame(grant));
            && s1.credits == s.credits && s1.frames == s.frames + 1
            && (Enabled(s1, AddsCredit) <==> grant && s.credits < 4)
            && (grant && s.credits < 4 ==>
                  Apply(s1, AddsCredit).credits == s.credits + 1 && !Apply(s1, AddsCredit).granting)
  {
  }

  /** Only taking a background job spends a credit, and only that step and the grant change them. */
  lemma CreditsMove(s: State, a: Step)
    requires Enabled(s, a)
    ensures var s' := Apply(s, a);
            s'.credits == s.credits + (if a.AddsCredit? then 1 else 0)
                          - (if a.Takes? && s.priority == [] then 1 else 0)
    ensures a.BeginsFrame? || a.AddsCredit? || Apply(s, a).granting == s.granting
  {
    if a.Asks? {
      FindHistory(s, a.h, a.frame, a.p);
    }
  }

  // ---------- the frames of queued jobs ----------

  /** The job carries the earliest frame that anyone has asked for its hash. */
  predicate JobOk(asked: seq<Ask>, j: Job) { j.frame == Earliest(asked, j.hash, |asked|) }

  ghost predicate FramesOk(s: State) {
    && (forall j | j in s.priority :: JobOk(s.asked, j))
    && forall j | j in s.background :: JobOk(s.asked, j)
  }

  lemma OnlyOne(q: seq<Job>, i: nat, j: nat)
    requires i < |q| && j < |q| && i != j && InQueue(q, q[i].hash) <= 1
    ensures q[j].hash != q[i].hash
  {
    InQueueSplit(q, i, q[i].hash);
    var rest := q[..i] + q[i + 1..];
    var k := if j < i then j else j - 1;
    assert rest[k] == q[j];
    if q[j].hash == q[i].hash {
      InQueueAt(rest, k);
    }
    hide InQueue;
  }

  /** After a touch every queued job of the hash is an old one lowered, and every other an old one. */
  ghost predicate Old(s: State, h: Hash, frame: Frame, x: Job) {
    if x.hash != h then x in s.priority || x in s.background
    else exists y :: (y in s.priority || y in s.background) && y.hash == h && x == Lowered(y, frame)
  }

  lemma LoweredIsOld(s: State, h: Hash, frame: Frame, y: Job)
    requires (y in s.priority || y in s.background) && y.hash == h
    ensures Old(s, h, frame, Lowered(y, frame))
  {
  }

  lemma TouchIsOld(s: State, h: Hash, frame: Frame, p: Priority)
    requires !RequestOf(s.requests, h).compiling && InQueue(s.priority, h) + InQueue(s.background, h) == 1
    ensures forall x | x in Touch(s, h, frame, p).priority || x in Touch(s, h, frame, p).background ::
              Old(s, h, frame, x)
  {
    var s', i, b := Touch(s, h, frame, p), IndexOf(s.priority, h), IndexOf(s.background, h);
    IndexOfMisses(s.priority, h);
    IndexOfMisses(s.background, h);
    if i < |s.priority| {
      LoweredIsOld(s, h, frame, s.priority[i]);
    } else {
      LoweredIsOld(s, h, frame, s.background[b]);
    }
    hide InQueue, IndexOf, Lowered, Old;
    forall x | x in s'.priority ensures Old(s, h, frame, x) {
      var k :| 0 <= k < |s'.priority| && s'.priority[k] == x;
      if i < |s.priority| && k != i {
        OnlyOne(s.priority, i, k);
        OtherIsOld(s, h, frame, x);
      } else if i == |s.priority| && k < |s.priority| {
        InQueueAt(s.priority, k);
        OtherIsOld(s, h, frame, x);
      }
    }
    forall x | x in s'.background ensures Old(s, h, frame, x) {
      var k :| 0 <= k < |s'.background| && s'.background[k] == x;
      if |s'.background| == |s.background| && !(i == |s.priority| && k == b) {
        if i < |s.priority| {
          InQueueAt(s.background, k);
        } else {
          OnlyOne(s.background, b, k);
        }
        OtherIsOld(s, h, frame, x);
      } else if |s'.background| < |s.background| {
        var m := if k < b then k else k + 1;
        OnlyOne(s.background, b, m);
        assert s.background[m] == x;
        OtherIsOld(s, h, frame, x);
      }
    }
  }

  lemma OtherIsOld(s: State, h: Hash, frame: Frame, x: Job)
    requires (x in s.priority || x in s.background) && x.hash != h
    ensures Old(s, h, frame, x)
  {
  }

  lemma OldIsOk(s: State, h: Hash, frame: Frame, persist: bool, x: Job)
    requires FramesOk(s) && Old(s, h, frame, x)
    ensures JobOk(s.asked + [Ask(h, frame, persist)], x)
  {
    EarliestSnoc(s.asked, Ask(h, frame, persist), x.hash, |s.asked| + 1);
    EarliestCut(s.asked, x.hash, |s.asked| + 1, |s.asked|);
    hide Earliest;
    if x.hash == h {
      var y :| (y in s.priority || y in s.background) && y.hash == h && x == Lowered(y, frame);
      assert JobOk(s.asked, y);
    } else {
      assert JobOk(s.asked, x);
    }
  }

  lemma NewIsOk(s: State, h: Hash, frame: Frame, persist: bool)
    requires !WasAsked(s.asked, h)
    ensures JobOk(s.asked + [Ask(h, frame, persist)], Job(h, frame))
  {
    NeverAsked(s.asked, h, |s.asked|);
    EarliestSnoc(s.asked, Ask(h, frame, persist), h, |s.asked| + 1);
    EarliestCut(s.asked, h, |s.asked| + 1, |s.asked|);
    hide Earliest;
  }

  /** A hash that is published or being compiled is in no queue. */
  lemma NoneQueued(s: State, h: Hash)
    requires HashOk(s, h) && (h !in s.pending || RequestOf(s.requests, h).compiling)
    ensures InQueue(s.priority, h) == 0 && InQueue(s.background, h) == 0
  {
    hide InQueue, InFlight, Earliest, WasAsked, CountStarts;
  }

  lemma SameIsOld(s: State, h: Hash, frame: Frame)
    requires InQueue(s.priority, h) == 0 && InQueue(s.background, h) == 0
    ensures forall x | x in s.priority || x in s.background :: Old(s, h, frame, x)
  {
    forall x | x in s.priority ensures Old(s, h, frame, x) {
      var k :| 0 <= k < |s.priority| && s.priority[k] == x;
      InQueueAt(s.priority, k);
    }
    forall x | x in s.background ensures Old(s, h, frame, x) {
      var k :| 0 <= k < |s.background| && s.background[k] == x;
      InQueueAt(s.background, k);
    }
    hide InQueue;
  }

  lemma FindFrames(s: State, h: Hash, frame: Frame, p: Priority)
    requires HashOk(s, h) && FramesOk(s)
    ensures FramesOk(Find(s, h, frame, p))
  {
    var s1, s', a := Remember(s, h, frame, !p.Background?), Find(s, h, frame, p), Ask(h, frame, !p.Background?);
    FindHistory(s, h, frame, p);
    assert RequestOf(s1.requests, h).compiling == RequestOf(s.requests, h).compiling;
    if h in s.pending && h !in s.published && !RequestOf(s.requests, h).compiling {
      Single(s, h);
      TouchIsOld(s1, h, frame, p);
    } else {
      NoneQueued(s, h);
      SameIsOld(s, h, frame);
    }
    hide Touch, InQueue, Earliest, JobOk, Old, HashOk;
    forall x | x in s'.priority || x in s'.background ensures JobOk(s'.asked, x) {
      if h !in s.pending && h !in s.published && x == Job(h, frame) {
        Fresh(s, h);
        NewIsOk(s, h, frame, a.persist);
      } else {
        assert Old(s1, h, frame, x) == Old(s, h, frame, x) by {
          SameOld(s, s1, h, frame, x);
        }
        OldIsOk(s, h, frame, a.persist, x);
      }
    }
  }

  lemma SameOld(s: State, s1: State, h: Hash, frame: Frame, x: Job)
    requires s1.priority == s.priority && s1.background == s.background
    ensures Old(s1, h, frame, x) == Old(s, h, frame, x)
  {
  }

  lemma Fresh(s: State, h: Hash)
    requires HashOk(s, h) && h !in s.pending && h !in s.published
    ensures !WasAsked(s.asked, h)
  {
    hide Places, InFlight, Earliest, WasAsked, CountStarts;
  }

  lemma Single(s: State, h: Hash)
    requires HashOk(s, h) && h in s.pending && !RequestOf(s.requests, h).compiling
    ensures InQueue(s.priority, h) + InQueue(s.background, h) == 1
  {
    hide InQueue, InFlight, Earliest, WasAsked, CountStarts;
  }

  lemma {:induction false} FramesOnRun(run: seq<State>, i: nat)
    requires Run(run) && i < |run|
    ensures FramesOk(run[i])
  {
    if i > 0 {
      FramesOnRun(run, i - 1);
      InvOnRun(run, i - 1);
      assert Next(run[i - 1], run[i - 1 + 1]);
      var a :| Enabled(run[i - 1], a) && run[i] == Apply(run[i - 1], a);
      hide JobOk, Find, HashOk, Run;
      match a {
        case Asks(h, frame, p) =>
          assert HashOk(run[i - 1], h);
          FindFrames(run[i - 1], h, frame, p);
        case _ =>
      }
    }
  }

  /** Whoever asked, and in whichever queue it waits: a queued job carries the earliest frame that
      any request for its hash has had. */
  lemma QueuedFrameIsEarliest(run: seq<State>, i: nat, j: Job)
    requires Run(run) && i < |run| && (j in run[i].priority || j in run[i].background)
    ensures var s := run[i];
            && (forall k | 0 <= k < |s.asked| && s.asked[k].hash == j.hash :: j.frame <= s.asked[k].frame)
            && exists k :: 0 <= k < |s.asked| && s.asked[k].hash == j.hash && s.asked[k].frame == j.frame
  {
    FramesOnRun(run, i);
    InvOnRun(run, i);
    var s := run[i];
    assert JobOk(s.asked, j) && HashOk(s, j.hash);
    QueuedWasAsked(s, j);
    EarliestIs(s.asked, j.hash, |s.asked|);
    var k :| 0 <= k < |s.asked| && s.asked[k].hash == j.hash;
    hide Earliest, HashOk, Run, WasAsked;
  }

  lemma QueuedWasAsked(s: State, j: Job)
    requires HashOk(s, j.hash) && (j in s.priority || j in s.background)
    ensures WasAsked(s.asked, j.hash)
  {
    if j in s.priority {
      var k :| 0 <= k < |s.priority| && s.priority[k] == j;
      InQueueAt(s.priority, k);
    } else {
      var k :| 0 <= k < |s.background| && s.background[k] == j;
      InQueueAt(s.background, k);
    }
    hide InQueue, InFlight, Earliest, CountStarts;
  }
}
