/**
 The pipeline compile scheduler as a protocol: requests under the pipeline mutex, the workers'
 take and publish sections, and the two unlocked halves of the credit grant at frame start.
 The history fields record what happened; no step looks at them.
 */
module PipelineScheduler {
  type Hash = nat
  type Frame = f: nat | f < 0x1_0000_0000

  const NO_FRAME: Frame := 0xFFFF_FFFF
  const CREDIT_CAP := 4

  datatype Priority = Background | Normal

  /** A queued pipeline: PendingPipeline without its creation callback. */
  datatype Job = Job(hash: Hash, frame: Frame)

  /** PipelineRequestState. */
  datatype Request = Request(first: Frame, known: bool, compiling: bool)

  const FRESH := Request(NO_FRAME, false, false)

  datatype Worker = Idle | Compiling(job: Job)

  datatype Ask = Ask(hash: Hash, frame: Frame, persist: bool)
  datatype Write = Write(hash: Hash, frame: Frame)
  datatype Start = Start(hash: Hash, background: bool)

  datatype State = State(
    priority: seq<Job>, background: seq<Job>, pending: set<Hash>, requests: map<Hash, Request>,
    published: map<Hash, Frame>, workers: seq<Worker>, credits: nat, granting: bool,
    asked: seq<Ask>, writes: seq<Write>, starts: seq<Start>, publishedAt: map<Hash, nat>, frames: nat)

  function Initial(workers: nat): State {
    State([], [], {}, map[], map[], seq(workers, _ => Idle), 0, false, [], [], [], map[], 0)
  }

  /** The map's operator[]: a missing request is a fresh one. */
  function RequestOf(requests: map<Hash, Request>, h: Hash): Request {
    if h in requests then requests[h] else FRESH
  }

  function Lower(a: Frame, b: Frame): Frame { if b < a then b else a }

  /** PipelineRequestState::remember: the request's new state. */
  function Remembered(r: Request, frame: Frame): Request {
    r.(first := if !r.known || frame < r.first then frame else r.first, known := true)
  }

  /** Whether remember asks for a descriptor write. */
  predicate WantsWrite(r: Request, frame: Frame, persist: bool) { persist && (!r.known || frame < r.first) }

  /** Where the first job of this hash is in the queue; its length if there is none. */
  function IndexOf(q: seq<Job>, h: Hash): (i: nat)
    ensures i <= |q|
    ensures i < |q| ==> q[i].hash == h
    decreases |q|
  {
    if q == [] || q[0].hash == h then 0 else 1 + IndexOf(q[1..], h)
  }

  function Lowered(j: Job, frame: Frame): Job { j.(frame := Lower(j.frame, frame)) }

  /** touch_pending_pipeline and the lowering of what it returns. */
  function Touch(s: State, h: Hash, frame: Frame, p: Priority): State {
    if RequestOf(s.requests, h).compiling then s
    else
      var i := IndexOf(s.priority, h);
      if i < |s.priority| then s.(priority := s.priority[i := Lowered(s.priority[i], frame)])
      else
        var k := IndexOf(s.background, h);
        if k == |s.background| then s
        else if p.Background? then s.(background := s.background[k := Lowered(s.background[k], frame)])
        else s.(priority := s.priority + [Lowered(s.background[k], frame)],
                background := s.background[..k] + s.background[k + 1..])
  }

  function Enqueue(s: State, h: Hash, frame: Frame, p: Priority): State {
    var job := Job(h, frame);
    var s1 := s.(pending := s.pending + {h});
    if p.Background? then s1.(background := s1.background + [job]) else s1.(priority := s1.priority + [job])
  }

  /** The first lines of the locked section: remember the request, write its descriptor. */
  function Remember(s: State, h: Hash, frame: Frame, persist: bool): State {
    var r := RequestOf(s.requests, h);
    s.(requests := s.requests[h := Remembered(r, frame)],
       writes := if WantsWrite(r, frame, persist) then s.writes + [Write(h, frame)] else s.writes,
       asked := s.asked + [Ask(h, frame, persist)])
  }

  /** find_pipeline_impl's locked section. */
  function Find(s: State, h: Hash, frame: Frame, p: Priority): State {
    var persist := !p.Background?;
    var s1 := Remember(s, h, frame, persist);
    if h in s.published then
      if persist then s1.(published := s.published[h := Lower(s.published[h], frame)]) else s1
    else if h in s.pending then Touch(s1, h, frame, p)
    else Enqueue(s1, h, frame, p)
  }

  predicate CanTake(s: State, w: nat) {
    && w < |s.workers| && s.workers[w].Idle?
    && (s.priority != [] || (s.background != [] && s.credits > 0))
  }

  /** A worker's first locked section. */
  function Take(s: State, w: nat): State
    requires CanTake(s, w)
  {
    var pre := s.priority == [];
    var job := if pre then s.background[0] else s.priority[0];
    s.(priority := if pre then [] else s.priority[1..],
       background := if pre then s.background[1..] else s.background,
       credits := if pre then s.credits - 1 else s.credits,
       requests := s.requests[job.hash := RequestOf(s.requests, job.hash).(compiling := true)],
       workers := s.workers[w := Compiling(job)],
       starts := s.starts + [Start(job.hash, pre)])
  }

  predicate CanPublish(s: State, w: nat) { w < |s.workers| && s.workers[w].Compiling? }

  /** A worker's second locked section. */
  function Publish(s: State, w: nat): State
    requires CanPublish(s, w)
  {
    var job := s.workers[w].job;
    var r := RequestOf(s.requests, job.hash).(compiling := false);
    var r' := if r.known then r else Remembered(r, job.frame);
    s.(requests := s.requests[job.hash := r'],
       published := if job.hash in s.published then s.published else s.published[job.hash := r'.first],
       publishedAt := if job.hash in s.published then s.publishedAt else s.publishedAt[job.hash := |s.asked|],
       pending := s.pending - {job.hash},
       workers := s.workers[w := Idle])
  }

  /** The unlocked test of the grant; `grant`: the frame time or the core pinning allows one. */
  function BeginFrame(s: State, grant: bool): State {
    s.(granting := grant && s.credits < CREDIT_CAP, frames := s.frames + 1)
  }

  function AddCredit(s: State): State { s.(credits := s.credits + 1, granting := false) }

  datatype Step =
    | Asks(h: Hash, frame: Frame, p: Priority)
    | Takes(w: nat)
    | Publishes(w: nat)
    | BeginsFrame(grant: bool)
    | AddsCredit

  /** Frames are begun by one thread, which adds its credit before it begins the next one. */
  predicate Enabled(s: State, a: Step) {
    match a
    case Asks(_, _, _) => true
    case Takes(w) => CanTake(s, w)
    case Publishes(w) => CanPublish(s, w)
    case BeginsFrame(_) => !s.granting
    case AddsCredit => s.granting
  }

  function Apply(s: State, a: Step): State
    requires Enabled(s, a)
  {
    match a
    case Asks(h, frame, p) => Find(s, h, frame, p)
    case Takes(w) => Take(s, w)
    case Publishes(w) => Publish(s, w)
    case BeginsFrame(grant) => BeginFrame(s, grant)
    case AddsCredit => AddCredit(s)
  }

  ghost predicate Next(s: State, s': State) { exists a :: Enabled(s, a) && s' == Apply(s, a) }

  ghost predicate Run(run: seq<State>) {
    && |run| > 0
    && (exists n: nat :: run[0] == Initial(n))
    && forall i | 0 <= i < |run| - 1 :: Next(run[i], run[i + 1])
  }

  // ---------- counting where a hash is ----------

  function InQueue(q: seq<Job>, h: Hash): nat
    decreases |q|
  {
    if q == [] then 0 else (if q[0].hash == h then 1 else 0) + InQueue(q[1..], h)
  }

  function InFlight(ws: seq<Worker>, h: Hash): nat
    decreases |ws|
  {
    if ws == [] then 0 else (if ws[0].Compiling? && ws[0].job.hash == h then 1 else 0) + InFlight(ws[1..], h)
  }

  function Places(s: State, h: Hash): nat {
    InQueue(s.priority, h) + InQueue(s.background, h) + InFlight(s.workers, h)
  }

  function CountStarts(starts: seq<Start>, h: Hash): nat
    decreases |starts|
  {
    if starts == [] then 0
    else CountStarts(starts[..|starts| - 1], h) + if starts[|starts| - 1].hash == h then 1 else 0
  }

  function BackgroundStarts(starts: seq<Start>): nat
    decreases |starts|
  {
    if starts == [] then 0
    else BackgroundStarts(starts[..|starts| - 1]) + if starts[|starts| - 1].background then 1 else 0
  }

  lemma {:induction false} InQueueConcat(a: seq<Job>, b: seq<Job>, h: Hash)
    ensures InQueue(a + b, h) == InQueue(a, h) + InQueue(b, h)
    decreases |a|
  {
    if a == [] {
      assert a + b == b;
    } else {
      assert (a + b)[1..] == a[1..] + b;
      InQueueConcat(a[1..], b, h);
    }
  }

  lemma InQueueSingle(j: Job, h: Hash)
    ensures InQueue([j], h) == if j.hash == h then 1 else 0
  {
    assert [j][1..] == [];
  }

  /** Queue `q` is what comes before index `i`, the job there and what comes after. */
  lemma InQueueSplit(q: seq<Job>, i: nat, h: Hash)
    requires i < |q|
    ensures InQueue(q, h) == InQueue(q[..i], h) + (if q[i].hash == h then 1 else 0) + InQueue(q[i + 1..], h)
    ensures InQueue(q, h) == InQueue(q[..i] + q[i + 1..], h) + if q[i].hash == h then 1 else 0
  {
    assert q == q[..i] + ([q[i]] + q[i + 1..]);
    InQueueConcat(q[..i], [q[i]] + q[i + 1..], h);
    InQueueConcat([q[i]], q[i + 1..], h);
    InQueueSingle(q[i], h);
    InQueueConcat(q[..i], q[i + 1..], h);
  }

  lemma InQueueUpdate(q: seq<Job>, i: nat, j: Job, h: Hash)
    requires i < |q| && j.hash == q[i].hash
    ensures InQueue(q[i := j], h) == InQueue(q, h)
  {
    InQueueSplit(q, i, h);
    InQueueSplit(q[i := j], i, h);
    assert q[i := j][..i] == q[..i] && q[i := j][i + 1..] == q[i + 1..];
  }

  lemma {:induction false} IndexOfMisses(q: seq<Job>, h: Hash)
    ensures IndexOf(q, h) == |q| <==> InQueue(q, h) == 0
    decreases |q|
  {
    if q != [] {
      IndexOfMisses(q[1..], h);
    }
  }

  lemma {:induction false} InFlightUpdate(ws: seq<Worker>, w: nat, x: Worker, h: Hash)
    requires w < |ws|
    ensures InFlight(ws[w := x], h) + InFlightOne(ws[w], h) == InFlight(ws, h) + InFlightOne(x, h)
    decreases |ws|
  {
    if w == 0 {
      assert ws[w := x][1..] == ws[1..];
    } else {
      assert ws[w := x][1..] == ws[1..][w - 1 := x];
      InFlightUpdate(ws[1..], w - 1, x, h);
    }
  }

  function InFlightOne(x: Worker, h: Hash): nat { if x.Compiling? && x.job.hash == h then 1 else 0 }

  lemma {:induction false} IdleWorkers(n: nat, h: Hash)
    ensures InFlight(seq(n, _ => Idle), h) == 0
    decreases n
  {
    if n > 0 {
      assert seq(n, _ => Idle)[1..] == seq(n - 1, _ => Idle);
      IdleWorkers(n - 1, h);
    }
  }

  // ---------- what the history says ----------

  /** The earliest frame asked for this hash: by anyone before `cut`, by persisting requests after. */
  function Earliest(asked: seq<Ask>, h: Hash, cut: nat): (m: Frame)
    decreases |asked|
  {
    if asked == [] then NO_FRAME
    else
      var n := |asked| - 1;
      var before := Earliest(asked[..n], h, cut);
      if asked[n].hash == h && (n < cut || asked[n].persist) then Lower(before, asked[n].frame) else before
  }

  predicate WasAsked(asked: seq<Ask>, h: Hash) { exists i :: 0 <= i < |asked| && asked[i].hash == h }

  /** The writes that should happen: one per persisting request earlier than all before it. */
  function WritesOf(asked: seq<Ask>): seq<Write>
    decreases |asked|
  {
    if asked == [] then []
    else
      var n := |asked| - 1;
      var a := asked[n];
      WritesOf(asked[..n]) +
      if a.persist && forall i | 0 <= i < n :: asked[i].hash == a.hash ==> a.frame < asked[i].frame
      then [Write(a.hash, a.frame)] else []
  }

  /** `Earliest` is a lower bound that one of the counted requests attains. */
  lemma {:induction false} EarliestIs(asked: seq<Ask>, h: Hash, cut: nat)
    ensures forall i | 0 <= i < |asked| && asked[i].hash == h && (i < cut || asked[i].persist) ::
              Earliest(asked, h, cut) <= asked[i].frame
    ensures Earliest(asked, h, cut) == NO_FRAME
            || exists i :: 0 <= i < |asked| && asked[i].hash == h && (i < cut || asked[i].persist)
                           && asked[i].frame == Earliest(asked, h, cut)
    decreases |asked|
  {
    if asked != [] {
      var n := |asked| - 1;
      EarliestIs(asked[..n], h, cut);
      assert forall i | 0 <= i < n :: asked[..n][i] == asked[i];
    }
  }

  /** A cut at or beyond the end counts every request. */
  lemma {:induction false} EarliestCut(asked: seq<Ask>, h: Hash, c: nat, d: nat)
    requires |asked| <= c && |asked| <= d
    ensures Earliest(asked, h, c) == Earliest(asked, h, d)
    decreases |asked|
  {
    if asked != [] {
      EarliestCut(asked[..|asked| - 1], h, c, d);
    }
  }

  lemma EarliestSnoc(asked: seq<Ask>, a: Ask, h: Hash, cut: nat)
    ensures Earliest(asked + [a], h, cut) ==
            if a.hash == h && (|asked| < cut || a.persist) then Lower(Earliest(asked, h, cut), a.frame)
            else Earliest(asked, h, cut)
  {
    assert (asked + [a])[..|asked|] == asked;
  }

  lemma CountStartsSnoc(starts: seq<Start>, x: Start, h: Hash)
    ensures CountStarts(starts + [x], h) == CountStarts(starts, h) + if x.hash == h then 1 else 0
    ensures BackgroundStarts(starts + [x]) == BackgroundStarts(starts) + if x.background then 1 else 0
  {
    assert (starts + [x])[..|starts|] == starts;
  }

  // ---------- the invariant ----------

  /** One hash's place, flags and history. */
  ghost predicate HashOk(s: State, h: Hash) {
    var r := RequestOf(s.requests, h);
    && Places(s, h) == (if h in s.pending then 1 else 0)
    && (h in s.published ==> h !in s.pending)
    && (r.known <==> h in s.pending || h in s.published)
    && (r.compiling <==> InFlight(s.workers, h) > 0)
    && CountStarts(s.starts, h) == InFlight(s.workers, h) + (if h in s.published then 1 else 0)
    && (r.known <==> WasAsked(s.asked, h))
    && r.first == Earliest(s.asked, h, |s.asked|)
    && (h in s.published <==> h in s.publishedAt)
    && (h in s.published ==>
          && s.publishedAt[h] <= |s.asked|
          && WasAsked(s.asked[..s.publishedAt[h]], h)
          && s.published[h] == Earliest(s.asked, h, s.publishedAt[h]))
  }

  ghost predicate Inv(s: State) {
    && (forall h: Hash :: HashOk(s, h))
    && s.writes == WritesOf(s.asked)
    && s.credits + (if s.granting then 1 else 0) <= CREDIT_CAP
  }

  // ---------- each step keeps the invariant ----------

  lemma InitialInv(n: nat)
    ensures Inv(Initial(n))
  {
    forall h: Hash ensures HashOk(Initial(n), h) {
      IdleWorkers(n, h);
    }
  }

  /** Touching a pending pipeline moves it at most from one queue to the other. */
  lemma TouchKeepsPlaces(s: State, h: Hash, frame: Frame, p: Priority, k: Hash)
    ensures Places(Touch(s, h, frame, p), k) == Places(s, k)
    ensures Touch(s, h, frame, p)
            == s.(priority := Touch(s, h, frame, p).priority, background := Touch(s, h, frame, p).background)
  {
    var i := IndexOf(s.priority, h);
    var b := IndexOf(s.background, h);
    if i < |s.priority| {
      InQueueUpdate(s.priority, i, Lowered(s.priority[i], frame), k);
    } else if b < |s.background| {
      var job := Lowered(s.background[b], frame);
      InQueueUpdate(s.background, b, job, k);
      InQueueSplit(s.background, b, k);
      InQueueConcat(s.priority, [job], k);
      InQueueSingle(job, k);
      hide InQueue, InFlight, IndexOf;
    }
  }

  /** A request adds one place, for a hash that was neither pending nor published. */
  lemma FindPlaces(s: State, h: Hash, frame: Frame, p: Priority, k: Hash)
    ensures var s' := Find(s, h, frame, p);
            var added := h !in s.published && h !in s.pending;
            && Places(s', k) == Places(s, k) + (if added && k == h then 1 else 0)
            && s'.pending == (if added then s.pending + {h} else s.pending)
            && s'.workers == s.workers && s'.requests == Remember(s, h, frame, !p.Background?).requests
            && s'.publishedAt == s.publishedAt
            && s'.published == if h in s.published && !p.Background?
                               then s.published[h := Lower(s.published[h], frame)] else s.published
  {
    var s1 := Remember(s, h, frame, !p.Background?);
    TouchKeepsPlaces(s1, h, frame, p, k);
    InQueueConcat(s.priority, [Job(h, frame)], k);
    InQueueConcat(s.background, [Job(h, frame)], k);
    InQueueSingle(Job(h, frame), k);
    hide Touch, Remembered, WantsWrite, InQueue, InFlight, RequestOf, IndexOf;
  }

  /** A request changes nothing about other hashes. */
  lemma FindLeavesOthers(s: State, h: Hash, frame: Frame, p: Priority, k: Hash)
    requires HashOk(s, k) && k != h
    ensures HashOk(Find(s, h, frame, p), k)
  {
    FindPlaces(s, h, frame, p, k);
    FindHistory(s, h, frame, p);
    hide Find, Places, Earliest, WasAsked, CountStarts, InFlight;
    if k in s.published {
      assert (s.asked + [Ask(h, frame, !p.Background?)])[..s.publishedAt[k]] == s.asked[..s.publishedAt[k]];
    }
    AskedOther(s, Ask(h, frame, !p.Background?), k);
  }

  lemma AskedOther(s: State, a: Ask, k: Hash)
    requires a.hash != k
    ensures WasAsked(s.asked + [a], k) <==> WasAsked(s.asked, k)
    ensures Earliest(s.asked + [a], k, |s.asked| + 1) == Earliest(s.asked, k, |s.asked|)
    ensures k in s.publishedAt ==>
              Earliest(s.asked + [a], k, s.publishedAt[k]) == Earliest(s.asked, k, s.publishedAt[k])
  {
    EarliestSnoc(s.asked, a, k, |s.asked| + 1);
    EarliestCut(s.asked, k, |s.asked| + 1, |s.asked|);
    if k in s.publishedAt {
      EarliestSnoc(s.asked, a, k, s.publishedAt[k]);
    }
    if WasAsked(s.asked, k) {
      var i :| 0 <= i < |s.asked| && s.asked[i].hash == k;
      assert (s.asked + [a])[i].hash == k;
    }
  }

  /** The request remembers the earliest frame anyone asked for. */
  lemma FindKeepsOwn(s: State, h: Hash, frame: Frame, p: Priority)
    requires HashOk(s, h)
    ensures HashOk(Find(s, h, frame, p), h)
  {
    var a := Ask(h, frame, !p.Background?);
    FindPlaces(s, h, frame, p, h);
    FindHistory(s, h, frame, p);
    assert (s.asked + [a])[|s.asked|] == a;
    assert WasAsked(s.asked + [a], h);
    NeverAsked(s.asked, h, |s.asked|);
    hide Find, Places, Earliest, WasAsked, CountStarts, InFlight;
    EarliestSnoc(s.asked, a, h, |s.asked| + 1);
    EarliestCut(s.asked, h, |s.asked| + 1, |s.asked|);
    if h in s.published {
      assert (s.asked + [a])[..s.publishedAt[h]] == s.asked[..s.publishedAt[h]];
      EarliestSnoc(s.asked, a, h, s.publishedAt[h]);
    }
  }

  lemma {:induction false} NeverAsked(asked: seq<Ask>, h: Hash, cut: nat)
    ensures !WasAsked(asked, h) ==> Earliest(asked, h, cut) == NO_FRAME
    decreases |asked|
  {
    if asked != [] && !WasAsked(asked, h) {
      var n := |asked| - 1;
      NeverAsked(asked[..n], h, cut);
      assert asked[n].hash != h;
      assert forall i | 0 <= i < n :: asked[..n][i] == asked[i];
    }
  }

  lemma FindHistory(s: State, h: Hash, frame: Frame, p: Priority)
    ensures var s' := Find(s, h, frame, p);
            && s'.asked == s.asked + [Ask(h, frame, !p.Background?)]
            && s'.writes == Remember(s, h, frame, !p.Background?).writes
            && s'.credits == s.credits && s'.granting == s.granting && s'.frames == s.frames && s'.starts == s.starts
  {
    TouchKeepsPlaces(Remember(s, h, frame, !p.Background?), h, frame, p, h);
    hide Touch, Remembered, RequestOf, WantsWrite, IndexOf;
  }

  /** A write happens exactly when the history calls for one. */
  lemma FindWrites(s: State, h: Hash, frame: Frame, p: Priority)
    requires HashOk(s, h) && s.writes == WritesOf(s.asked)
    ensures var s' := Find(s, h, frame, p); s'.writes == WritesOf(s'.asked)
  {
    FindHistory(s, h, frame, p);
    hide Find;
    var a := Ask(h, frame, !p.Background?);
    EarlierThanAll(s, h, frame);
    hide HashOk;
    var asked := s.asked + [a];
    assert asked[..|s.asked|] == s.asked;
    assert (forall i | 0 <= i < |s.asked| :: asked[i].hash == h ==> frame < asked[i].frame)
           <==> forall i | 0 <= i < |s.asked| :: s.asked[i].hash == h ==> frame < s.asked[i].frame by {
      assert forall i | 0 <= i < |s.asked| :: asked[i] == s.asked[i];
    }
  }

  lemma EarlierThanAll(s: State, h: Hash, frame: Frame)
    requires HashOk(s, h)
    ensures !RequestOf(s.requests, h).known || frame < RequestOf(s.requests, h).first
            <==> forall i | 0 <= i < |s.asked| :: s.asked[i].hash == h ==> frame < s.asked[i].frame
  {
    EarliestIs(s.asked, h, |s.asked|);
    hide Earliest, Places, InFlight, CountStarts;
  }

  lemma FindKeepsInv(s: State, h: Hash, frame: Frame, p: Priority)
    requires Inv(s)
    ensures Inv(Find(s, h, frame, p))
  {
    assert HashOk(s, h);
    FindWrites(s, h, frame, p);
    FindKeepsOwn(s, h, frame, p);
    FindHistory(s, h, frame, p);
    hide Find, HashOk, WritesOf;
    forall k: Hash ensures HashOk(Find(s, h, frame, p), k) {
      assert HashOk(s, k);
      if k != h {
        FindLeavesOthers(s, h, frame, p, k);
      }
    }
  }

  /** A worker takes the front job out of the queues and into flight. */
  lemma TakeKeepsHash(s: State, w: nat, k: Hash)
    requires CanTake(s, w) && HashOk(s, k)
    ensures HashOk(Take(s, w), k)
  {
    var s' := Take(s, w);
    var job := s'.workers[w].job;
    if s.priority == [] {
      InQueueSplit(s.background, 0, k);
    } else {
      InQueueSplit(s.priority, 0, k);
    }
    InFlightUpdate(s.workers, w, Compiling(job), k);
    CountStartsSnoc(s.starts, Start(job.hash, s.priority == []), k);
  }

  /** A worker publishes the earliest frame asked for so far, whatever its job says. */
  lemma PublishKeepsHash(s: State, w: nat, k: Hash)
    requires CanPublish(s, w) && HashOk(s, k) && HashOk(s, s.workers[w].job.hash)
    ensures HashOk(Publish(s, w), k)
  {
    var job := s.workers[w].job;
    InFlightUpdate(s.workers, w, Idle, k);
    InFlightUpdate(s.workers, w, Idle, job.hash);
    assert s.asked[..|s.asked|] == s.asked;
  }

  lemma StepKeepsInv(s: State, a: Step)
    requires Inv(s) && Enabled(s, a)
    ensures Inv(Apply(s, a))
  {
    match a
    case Asks(h, frame, p) => FindKeepsInv(s, h, frame, p);
    case Takes(w) =>
      forall k: Hash ensures HashOk(Take(s, w), k) {
        assert HashOk(s, k);
        TakeKeepsHash(s, w, k);
      }
    case Publishes(w) =>
      assert HashOk(s, s.workers[w].job.hash);
      forall k: Hash ensures HashOk(Publish(s, w), k) {
        assert HashOk(s, k);
        PublishKeepsHash(s, w, k);
      }
    case _ =>
      forall k: Hash ensures HashOk(Apply(s, a), k) {
        assert HashOk(s, k);
      }
  }

  lemma {:induction false} InvOnRun(run: seq<State>, i: nat)
    requires Run(run) && i < |run|
    ensures Inv(run[i])
  {
    if i == 0 {
      var n: nat :| run[0] == Initial(n);
      InitialInv(n);
    } else {
      InvOnRun(run, i - 1);
      assert Next(run[i - 1], run[i - 1 + 1]);
      var a :| Enabled(run[i - 1], a) && run[i] == Apply(run[i - 1], a);
      hide *;
      StepKeepsInv(run[i - 1], a);
    }
  }

  // ---------- what every run keeps ----------

  /** A pending hash is in exactly one of the two queues and the workers, once; a published one
      is in none; every hash asked for is pending or published; and none is compiled twice. */
  lemma ExactlyOnePlace(run: seq<State>, i: nat, h: Hash)
    requires Run(run) && i < |run|
    ensures h in run[i].pending ==> Places(run[i], h) == 1
    ensures h !in run[i].pending ==> Places(run[i], h) == 0
    ensures h in run[i].published ==> h !in run[i].pending
    ensures WasAsked(run[i].asked, h) <==> h in run[i].pending || h in run[i].published
    ensures CountStarts(run[i].starts, h) <= 1
  {
    InvOnRun(run, i);
    assert HashOk(run[i], h);
  }

  /** The frame published with a pipeline is the earliest anyone asked for until it was
      published, or a persisting request asked for since: it bounds them all and is one of them. */
  lemma PublishedFrameIsEarliest(run: seq<State>, i: nat, h: Hash)
    requires Run(run) && i < |run| && h in run[i].published
    ensures h in run[i].publishedAt
    ensures var s := run[i]; forall k | 0 <= k < |s.asked| && s.asked[k].hash == h
              && (k < s.publishedAt[h] || s.asked[k].persist) :: s.published[h] <= s.asked[k].frame
    ensures var s := run[i];
            exists k ::
              && 0 <= k < |s.asked| && s.asked[k].hash == h
              && (k < s.publishedAt[h] || s.asked[k].persist) && s.asked[k].frame == s.published[h]
  {
    var s := run[i];
    InvOnRun(run, i);
    assert HashOk(s, h);
    EarliestIs(s.asked, h, s.publishedAt[h]);
    var k :| 0 <= k < |s.asked[..s.publishedAt[h]]| && s.asked[..s.publishedAt[h]][k].hash == h;
    assert s.asked[k].hash == h && s.published[h] <= s.asked[k].frame;
  }

  /** Each descriptor write of a hash carries an earlier frame than the writes before it. */
  lemma WritesDecrease(run: seq<State>, i: nat, x: nat, y: nat)
    requires Run(run) && i < |run| && x < y < |run[i].writes| && run[i].writes[x].hash == run[i].writes[y].hash
    ensures run[i].writes[y].frame < run[i].writes[x].frame
  {
    InvOnRun(run, i);
    WritesOfDecrease(run[i].asked, x, y);
  }

  lemma {:induction false} WritesOfDecrease(asked: seq<Ask>, x: nat, y: nat)
    requires x < y < |WritesOf(asked)| && WritesOf(asked)[x].hash == WritesOf(asked)[y].hash
    ensures WritesOf(asked)[y].frame < WritesOf(asked)[x].frame
    decreases |asked|
  {
    var front := asked[..|asked| - 1];
    if y < |WritesOf(front)| {
      WritesOfDecrease(front, x, y);
    } else {
      var i := WriteWasAsked(front, x);
      assert asked[i] == front[i];
    }
  }

  /** Every write repeats a request. */
  lemma {:induction false} WriteWasAsked(asked: seq<Ask>, x: nat) returns (i: nat)
    requires x < |WritesOf(asked)|
    ensures i < |asked| && asked[i].hash == WritesOf(asked)[x].hash && asked[i].frame == WritesOf(asked)[x].frame
    decreases |asked|
  {
    var front := asked[..|asked| - 1];
    if x < |WritesOf(front)| {
      i := WriteWasAsked(front, x);
    } else {
      i := |asked| - 1;
    }
  }

  /** A request writes its descriptor exactly when it persists and is earlier than every request
      for the hash so far, whether those persisted, were queued or came during the compile. */
  lemma WritesExactlyNewMinima(run: seq<State>, i: nat, h: Hash, frame: Frame, p: Priority)
    requires Run(run) && i < |run|
    ensures var s := run[i];
            Find(s, h, frame, p).writes ==
            if !p.Background? && forall k | 0 <= k < |s.asked| :: s.asked[k].hash == h ==> frame < s.asked[k].frame
            then s.writes + [Write(h, frame)] else s.writes
  {
    InvOnRun(run, i);
    assert HashOk(run[i], h);
    FindHistory(run[i], h, frame, p);
    EarlierThanAll(run[i], h, frame);
    hide HashOk, Find, WasAsked, Earliest;
  }

  // ---------- the credit bucket ----------

  /** Credits in hand, one being granted and background compiles started so far. */
  function Spent(s: State): nat {
    BackgroundStarts(s.starts) + s.credits + if s.granting then 1 else 0
  }

  /** Only beginning a frame adds to what is spent or can be. */
  lemma SpendingIsGranted(s: State, a: Step)
    requires Enabled(s, a)
    ensures Spent(Apply(s, a)) <= Spent(s) + (Apply(s, a).frames - s.frames)
    ensures s.frames <= Apply(s, a).frames
  {
    match a
    case Asks(h, frame, p) => FindHistory(s, h, frame, p);
    case Takes(w) => CountStartsSnoc(s.starts, Take(s, w).starts[|s.starts|], 0);
    case _ =>
  }

  lemma {:induction false} SpendingOnRun(run: seq<State>, i: nat, j: nat)
    requires Run(run) && i <= j < |run|
    ensures run[i].frames <= run[j].frames
    ensures Spent(run[j]) <= Spent(run[i]) + (run[j].frames - run[i].frames)
    decreases j
  {
    if i < j {
      SpendingOnRun(run, i, j - 1);
      assert Next(run[j - 1], run[j - 1 + 1]);
      var a :| Enabled(run[j - 1], a) && run[j] == Apply(run[j - 1], a);
      SpendingIsGranted(run[j - 1], a);
    }
  }

  /** Credits stay between 0 and the cap, and in every window of a run the background compiles
      started are at most the cap plus the frames begun in it. */
  lemma BackgroundIsPaced(run: seq<State>, i: nat, j: nat)
    requires Run(run) && i <= j < |run|
    ensures 0 <= run[j].credits <= CREDIT_CAP
    ensures BackgroundStarts(run[j].starts) - BackgroundStarts(run[i].starts)
            <= CREDIT_CAP + run[j].frames - run[i].frames
  {
    InvOnRun(run, i);
    InvOnRun(run, j);
    SpendingOnRun(run, i, j);
  }

  /** No background job is taken while a draw waits for a pipeline, and each costs a credit. */
  lemma BackgroundWaitsForDraws(s: State, a: Step)
    requires Enabled(s, a) && BackgroundStarts(Apply(s, a).starts) != BackgroundStarts(s.starts)
    ensures s.priority == [] && s.credits > 0 && Apply(s, a).credits == s.credits - 1
  {
    match a
    case Asks(h, frame, p) => FindHistory(s, h, frame, p);
    case Takes(w) => CountStartsSnoc(s.starts, Take(s, w).starts[|s.starts|], 0);
    case _ =>
  }
}
