/**
 The thread wrappers of switch/src/clang_tls_switch.c as a protocol: creating, finishing,
 exiting, detaching and joining threads, and the reaper, in every interleaving of their
 locked sections and of what they do outside the lock.
 */
module ThreadReaper {
  import opened Sequences

  /** How far the caller's pthread_join of a thread has come: not called, waiting in the real
      join, between the real join and the lookup, holding the record it unlinked, done. */
  datatype Joining = NoJoin | Called | Window | Unlinked(found: nat) | Returned

  /** A record and the thread it belongs to. `exited`: the thread has left its trampoline and
      its stack; `joined`: the real join of this thread has returned; `frees`: how often the
      record and its stack were freed; the two times say when each flag was set. */
  datatype Rec = Rec(
    id: nat, finished: bool, exited: bool, detached: bool, join: Joining, joined: bool, frees: nat,
    finishedAt: nat, detachedAt: nat)
  {
    /** When the second of finishing and detaching happened. */
    function ReadyAt(): nat { if finishedAt < detachedAt then detachedAt else finishedAt }

    /** The thread still owns its id, or its joiner has yet to look it up. */
    predicate HoldsId() { !joined || join.Window? }
  }

  datatype Reaper = Idle | Popped(rec: nat) | Joined(rec: nat)

  /** Records are numbered in order of creation. `creating`: a creator holds the mutex, its
      thread may already run and its record is not in the registry yet. */
  datatype State = State(
    recs: seq<Rec>, registry: seq<nat>, queue: seq<nat>, reaper: Reaper, reaperRunning: bool,
    creating: Option<nat>, clock: nat)

  const INITIAL := State([], [], [], Idle, false, None, 0)

  datatype Step =
    | Spawn(id: nat)
    | Register
    | Finish(r: nat)
    | Exit(r: nat)
    | Detach(r: nat, started: bool)
    | CallJoin(r: nat)
    | RealJoin(r: nat)
    | LookUp(r: nat)
    | FreeJoined(r: nat)
    | Pop
    | ReapJoin
    | ReapFree

  /** kp_find_locked: the first record in the registry with this id. */
  function FindRec(recs: seq<Rec>, registry: seq<nat>, id: nat): (r: Option<nat>)
    requires Below(registry, |recs|)
    ensures r.Some? ==> r.value in registry && r.value < |recs| && recs[r.value].id == id
    ensures r.None? ==> forall i | 0 <= i < |registry| :: recs[registry[i]].id != id
    decreases |registry|
  {
    if registry == [] then None
    else if recs[registry[0]].id == id then Some(registry[0])
    else FindRec(recs, registry[1..], id)
  }

  ghost predicate Below(s: seq<nat>, n: nat) { forall i | 0 <= i < |s| :: s[i] < n }

  /** What the system promises of a new id: no thread that has not been joined has it. */
  ghost predicate IdFree(s: State, id: nat) {
    forall k | 0 <= k < |s.recs| :: !s.recs[k].joined ==> s.recs[k].id != id
  }

  /** No joiner is between the real join of a thread with this id and its lookup. */
  ghost predicate NotAwaited(s: State, id: nat) {
    forall k | 0 <= k < |s.recs| :: s.recs[k].join.Window? ==> s.recs[k].id != id
  }

  /** Callers join or detach a thread once, never both. */
  ghost predicate Enabled(s: State, a: Step) {
    Below(s.registry, |s.recs|) && Below(s.queue, |s.recs|) &&
    match a
    case Spawn(id) => s.creating.None? && IdFree(s, id)
    case Register => s.creating.Some?
    case Finish(r) => s.creating.None? && r < |s.recs| && !s.recs[r].finished
    case Exit(r) => r < |s.recs| && s.recs[r].finished && !s.recs[r].exited
    case Detach(r, _) => s.creating.None? && r < |s.recs| && !s.recs[r].detached && s.recs[r].join.NoJoin?
    case CallJoin(r) => r < |s.recs| && !s.recs[r].detached && s.recs[r].join.NoJoin?
    case RealJoin(r) => r < |s.recs| && s.recs[r].join.Called? && s.recs[r].exited
    case LookUp(r) => s.creating.None? && r < |s.recs| && s.recs[r].join.Window?
    case FreeJoined(r) => r < |s.recs| && s.recs[r].join.Unlinked? && s.recs[r].join.found < |s.recs|
    case Pop => s.creating.None? && s.reaperRunning && s.reaper.Idle? && s.queue != []
    case ReapJoin => s.reaper.Popped? && s.reaper.rec < |s.recs| && s.recs[s.reaper.rec].exited
    case ReapFree => s.reaper.Joined? && s.reaper.rec < |s.recs|
  }

  /** The trampoline's locked section: mark the record, queue it if it is detached already. */
  function FinishStep(s: State, r: nat): State
    requires r < |s.recs|
  {
    var x := s.recs[r].(finished := true, finishedAt := s.clock);
    s.(recs := s.recs[r := x], queue := if x.detached then s.queue + [r] else s.queue, clock := s.clock + 1)
  }

  /** The locked section of pthread_detach for thread `r`: the lookup goes by id. */
  function DetachStep(s: State, r: nat, started: bool): State
    requires Below(s.registry, |s.recs|) && r < |s.recs|
  {
    var s1 := s.(reaperRunning := s.reaperRunning || started, clock := s.clock + 1);
    match FindRec(s.recs, s.registry, s.recs[r].id)
    case None => s1
    case Some(k) =>
      var x := s.recs[k].(detached := true, detachedAt := s.clock);
      s1.(recs := s.recs[k := x], queue := if x.finished then s.queue + [k] else s.queue)
  }

  /** pthread_join after the real join: look the record up by id, leave detached ones alone. */
  function LookUpStep(s: State, r: nat): State
    requires Below(s.registry, |s.recs|) && r < |s.recs|
  {
    match FindRec(s.recs, s.registry, s.recs[r].id)
    case None => s.(recs := s.recs[r := s.recs[r].(join := Returned)])
    case Some(k) =>
      if s.recs[k].detached then s.(recs := s.recs[r := s.recs[r].(join := Returned)])
      else s.(registry := Remove(s.registry, k), recs := s.recs[r := s.recs[r].(join := Unlinked(k))])
  }

  /** free(rec->stack_buf); free(rec). */
  function Free(recs: seq<Rec>, k: nat): seq<Rec>
    requires k < |recs|
  {
    recs[k := recs[k].(frees := recs[k].frees + 1)]
  }

  function FreeJoinedStep(s: State, r: nat): State
    requires r < |s.recs| && s.recs[r].join.Unlinked? && s.recs[r].join.found < |s.recs|
  {
    var done := s.recs[r := s.recs[r].(join := Returned)];
    s.(recs := Free(done, s.recs[r].join.found))
  }

  function PopStep(s: State): State
    requires s.queue != []
  {
    s.(queue := s.queue[1..], registry := Remove(s.registry, s.queue[0]), reaper := Popped(s.queue[0]))
  }

  function SpawnStep(s: State, id: nat): State {
    s.(recs := s.recs + [Rec(id, false, false, false, NoJoin, false, 0, 0, 0)], creating := Some(|s.recs|))
  }

  function RegisterStep(s: State): State
    requires s.creating.Some?
  {
    s.(registry := [s.creating.value] + s.registry, creating := None)
  }

  ghost function Apply(s: State, a: Step): State
    requires Enabled(s, a)
  {
    match a
    case Spawn(id) => SpawnStep(s, id)
    case Register => RegisterStep(s)
    case Finish(r) => FinishStep(s, r)
    case Exit(r) => s.(recs := s.recs[r := s.recs[r].(exited := true)])
    case Detach(r, started) => DetachStep(s, r, started)
    case CallJoin(r) => s.(recs := s.recs[r := s.recs[r].(join := Called)])
    case RealJoin(r) => s.(recs := s.recs[r := s.recs[r].(join := Window, joined := true)])
    case LookUp(r) => LookUpStep(s, r)
    case FreeJoined(r) => FreeJoinedStep(s, r)
    case Pop => PopStep(s)
    case ReapJoin =>
      s.(recs := s.recs[s.reaper.rec := s.recs[s.reaper.rec].(joined := true)], reaper := Joined(s.reaper.rec))
    case ReapFree => s.(recs := Free(s.recs, s.reaper.rec), reaper := Idle)
  }

  /** Steps of a system that does not reuse an id between a real join and the lookup after it. */
  ghost predicate Allowed(s: State, a: Step) { Enabled(s, a) && (a.Spawn? ==> NotAwaited(s, a.id)) }

  ghost predicate Next(s: State, s': State) { exists a :: Allowed(s, a) && s' == Apply(s, a) }

  ghost predicate Run(run: seq<State>) {
    && |run| > 0
    && run[0] == INITIAL
    && forall i | 0 <= i < |run| - 1 :: Next(run[i], run[i + 1])
  }

  // ---------- invariant ----------

  predicate ReaperHas(s: State, r: nat) { !s.reaper.Idle? && s.reaper.rec == r }

  /** The life of one record: which flags go together. */
  predicate LifeOk(x: Rec, r: nat, clock: nat) {
    && (x.exited ==> x.finished)
    && (x.joined ==> x.exited)
    && x.frees <= 1
    && (x.frees == 1 ==> x.joined && (x.join.Returned? || x.detached))
    && (x.detached ==> x.join.NoJoin?)
    && (x.join.NoJoin? && x.joined ==> x.detached)
    && (x.join.Window? || x.join.Unlinked? || x.join.Returned? ==> x.joined)
    && (x.join.Called? ==> !x.joined)
    && (x.join.Unlinked? ==> x.join.found == r && x.frees == 0)
    && (x.join.Returned? ==> x.frees == 1)
    && (x.finished ==> x.finishedAt < clock)
    && (x.detached ==> x.detachedAt < clock)
  }

  /** Where a record is, given its flags. */
  ghost predicate PlaceOk(s: State, r: nat)
    requires r < |s.recs|
  {
    var x := s.recs[r];
    && (s.creating == Some(r) ==> !x.finished && !x.detached && r !in s.registry)
    && (r in s.registry ==> x.frees == 0 && (x.joined ==> x.join.Window?))
    && (r !in s.registry ==> s.creating == Some(r) || ReaperHas(s, r) || x.join.Unlinked? || x.frees == 1)
    && (x.join.Unlinked? ==> r !in s.registry)
    && (ReaperHas(s, r) ==>
          x.finished && x.detached && x.frees == 0 && r !in s.registry && (x.joined <==> s.reaper.Joined?))
    && (r in s.queue <==> r in s.registry && x.finished && x.detached)
  }

  ghost predicate RecOk(s: State, r: nat)
    requires r < |s.recs|
  {
    LifeOk(s.recs[r], r, s.clock) && PlaceOk(s, r)
  }

  ghost predicate AllOk(s: State) { forall r | 0 <= r < |s.recs| :: RecOk(s, r) }

  ghost predicate ListsOk(s: State) {
    && Below(s.registry, |s.recs|)
    && Below(s.queue, |s.recs|)
    && Distinct(s.registry)
    && Distinct(s.queue)
    && (!s.reaper.Idle? ==> s.reaper.rec < |s.recs|)
    && (s.creating.Some? ==> s.creating.value < |s.recs|)
  }

  /** Two records that both hold their ids hold different ones. */
  ghost predicate IdsDiffer(recs: seq<Rec>) {
    forall j, k | 0 <= j < k < |recs| :: recs[j].HoldsId() && recs[k].HoldsId() ==> recs[j].id != recs[k].id
  }

  /** The queue is in the order in which its records became ready. */
  ghost predicate QueueInOrder(recs: seq<Rec>, queue: seq<nat>)
    requires Below(queue, |recs|)
  {
    forall i, j | 0 <= i < j < |queue| :: recs[queue[i]].ReadyAt() < recs[queue[j]].ReadyAt()
  }

  ghost predicate Inv(s: State) {
    ListsOk(s) && IdsDiffer(s.recs) && QueueInOrder(s.recs, s.queue) && AllOk(s)
  }

  // ---------- lookups ----------

  /** A search by id finds `r` exactly when `r` is listed and no record listed before it has
      its id. */
  lemma {:induction false} FindsExactlyFirst(recs: seq<Rec>, registry: seq<nat>, i: nat)
    requires Below(registry, |recs|) && Distinct(registry) && i < |registry|
    ensures FindRec(recs, registry, recs[registry[i]].id) == Some(registry[i])
            <==> forall j | 0 <= j < i :: recs[registry[j]].id != recs[registry[i]].id
    decreases |registry|
  {
    var id := recs[registry[i]].id;
    if i > 0 {
      var rest := registry[1..];
      assert rest[i - 1] == registry[i];
      FindsExactlyFirst(recs, rest, i - 1);
      if recs[registry[0]].id != id {
        assert FindRec(recs, registry, id) == FindRec(recs, rest, id);
        assert forall j | 1 <= j < i :: registry[j] == rest[j - 1];
        assert forall j | 0 <= j < i - 1 :: rest[j] == registry[j + 1];
      }
    }
  }

  /** While ids are unambiguous a lookup in the registry finds the thread's own record. */
  lemma FindsOwn(s: State, r: nat)
    requires Inv(s) && r < |s.recs| && r in s.registry
    ensures FindRec(s.recs, s.registry, s.recs[r].id) == Some(r)
  {
    var k := FindRec(s.recs, s.registry, s.recs[r].id);
    assert RecOk(s, r);
    var i :| 0 <= i < |s.registry| && s.registry[i] == r;
    assert RecOk(s, k.value);
    assert s.recs[r].HoldsId() && s.recs[k.value].HoldsId();
  }

  lemma AwaitedIsListed(s: State, r: nat)
    requires Inv(s) && r < |s.recs| && s.creating != Some(r)
    requires s.recs[r].join.Window? || (!s.recs[r].detached && s.recs[r].join.NoJoin?)
    ensures r in s.registry
  {
    assert RecOk(s, r);
  }

  // ---------- each step keeps the invariant ----------

  lemma SpawnKeeps(s: State, id: nat)
    requires Inv(s) && Allowed(s, Spawn(id))
    ensures Inv(SpawnStep(s, id))
  {
    var s' := SpawnStep(s, id);
    var n := |s.recs|;
    assert n !in s.registry && n !in s.queue;
    forall r | 0 <= r < |s'.recs| ensures RecOk(s', r) {
      if r < n {
        assert RecOk(s, r);
      }
    }
    forall j, k | 0 <= j < k < |s'.recs| && s'.recs[j].HoldsId() && s'.recs[k].HoldsId()
      ensures s'.recs[j].id != s'.recs[k].id
    {
      assert s'.recs[j] == s.recs[j];
    }
  }

  lemma RegisterKeeps(s: State)
    requires Inv(s) && Enabled(s, Register)
    ensures Inv(RegisterStep(s))
  {
    var s' := RegisterStep(s);
    var c := s.creating.value;
    assert RecOk(s, c);
    assert s'.registry[1..] == s.registry;
    assert forall r :: r in s'.registry <==> r == c || r in s.registry;
    forall r | 0 <= r < |s'.recs| ensures RecOk(s', r) {
      assert RecOk(s, r);
    }
  }

  /** Changing one record's flags, no list and nothing about its id, keeps the rest. */
  lemma ChangeKeeps(s: State, s': State, r: nat)
    requires Inv(s) && r < |s.recs|
    requires s' == s.(recs := s'.recs, clock := s'.clock, reaper := s'.reaper, reaperRunning := s'.reaperRunning)
    requires s.clock <= s'.clock && |s'.recs| == |s.recs| && s'.recs == s.recs[r := s'.recs[r]]
    requires s'.recs[r].id == s.recs[r].id && (s'.recs[r].HoldsId() ==> s.recs[r].HoldsId())
    requires r in s.queue ==> s'.recs[r].ReadyAt() == s.recs[r].ReadyAt()
    requires !s'.reaper.Idle? ==> s'.reaper.rec < |s.recs|
    requires forall k | 0 <= k < |s.recs| && k != r :: ReaperHas(s', k) <==> ReaperHas(s, k)
    requires !s.reaper.Idle? && s.reaper.rec != r ==> s'.reaper == s.reaper
    requires RecOk(s', r)
    ensures Inv(s')
  {
    forall k | 0 <= k < |s'.recs| ensures RecOk(s', k) {
      assert RecOk(s, k);
    }
  }

  lemma FinishKeeps(s: State, r: nat)
    requires Inv(s) && Enabled(s, Finish(r))
    ensures Inv(FinishStep(s, r))
  {
    var s' := FinishStep(s, r);
    assert RecOk(s, r);
    if s.recs[r].detached {
      PushKeeps(s, s', r);
    } else {
      ChangeKeeps(s, s', r);
    }
  }

  /** Queueing a record that just became finished and detached. */
  lemma PushKeeps(s: State, s': State, r: nat)
    requires Inv(s) && r < |s.recs| && r !in s.queue && r in s.registry && !ReaperHas(s, r)
    requires s' == s.(recs := s'.recs, clock := s.clock + 1, queue := s.queue + [r], reaperRunning := s'.reaperRunning)
    requires |s'.recs| == |s.recs| && s'.recs == s.recs[r := s'.recs[r]]
    requires s'.recs[r].id == s.recs[r].id && (s'.recs[r].HoldsId() ==> s.recs[r].HoldsId())
    requires s'.recs[r].ReadyAt() == s.clock && s'.recs[r].finished && s'.recs[r].detached
    requires RecOk(s', r)
    ensures Inv(s')
  {
    forall k | 0 <= k < |s'.recs| ensures RecOk(s', k) {
      assert RecOk(s, k);
      assert k != r ==> (k in s'.queue <==> k in s.queue);
    }
    forall i, j | 0 <= i < j < |s'.queue|
      ensures s'.recs[s'.queue[i]].ReadyAt() < s'.recs[s'.queue[j]].ReadyAt()
    {
      var k := s.queue[i];
      assert k in s.queue;
      assert RecOk(s, k);
    }
  }

  lemma DetachKeeps(s: State, r: nat, started: bool)
    requires Inv(s) && Enabled(s, Detach(r, started))
    ensures Inv(DetachStep(s, r, started))
  {
    var s' := DetachStep(s, r, started);
    AwaitedIsListed(s, r);
    FindsOwn(s, r);
    assert RecOk(s, r);
    if s.recs[r].finished {
      assert s'.recs[r].ReadyAt() == s.clock;
      PushKeeps(s, s', r);
    } else {
      ChangeKeeps(s, s', r);
    }
  }

  lemma LookUpKeeps(s: State, r: nat)
    requires Inv(s) && Enabled(s, LookUp(r))
    ensures Inv(LookUpStep(s, r))
    ensures LookUpStep(s, r).recs[r].join == Unlinked(r)
  {
    var s' := LookUpStep(s, r);
    AwaitedIsListed(s, r);
    FindsOwn(s, r);
    assert RecOk(s, r);
    RemoveIs(s.registry, r);
    RemoveBelow(s.registry, r, |s.recs|);
    forall k | 0 <= k < |s'.recs| ensures RecOk(s', k) {
      assert RecOk(s, k);
    }
  }

  lemma RemoveBelow(s: seq<nat>, x: nat, n: nat)
    requires Below(s, n) && Distinct(s)
    ensures Below(Remove(s, x), n)
  {
    RemoveIs(s, x);
    var t := Remove(s, x);
    hide Remove;
    forall i | 0 <= i < |t| ensures t[i] < n {
      assert t[i] in t;
      assert t[i] in s;
    }
  }

  lemma PopKeeps(s: State)
    requires Inv(s) && Enabled(s, Pop)
    ensures Inv(PopStep(s))
  {
    var s' := PopStep(s);
    var r := s.queue[0];
    assert r in s.queue;
    assert RecOk(s, r);
    RemoveIs(s.registry, r);
    RemoveBelow(s.registry, r, |s.recs|);
    forall k | 0 <= k < |s'.recs| ensures RecOk(s', k) {
      assert RecOk(s, k);
      assert k in s.queue <==> k == r || k in s'.queue;
      assert r !in s'.queue;
    }
  }

  lemma FreeJoinedKeeps(s: State, r: nat)
    requires Inv(s) && Enabled(s, FreeJoined(r))
    ensures Inv(FreeJoinedStep(s, r))
  {
    var s' := FreeJoinedStep(s, r);
    assert RecOk(s, r);
    assert s'.recs == s.recs[r := s'.recs[r]];
    ChangeKeeps(s, s', r);
  }

  lemma ReapFreeKeeps(s: State)
    requires Inv(s) && Enabled(s, ReapFree)
    ensures Inv(Apply(s, ReapFree))
  {
    assert RecOk(s, s.reaper.rec);
    ChangeKeeps(s, Apply(s, ReapFree), s.reaper.rec);
  }

  lemma ReapJoinKeeps(s: State)
    requires Inv(s) && Enabled(s, ReapJoin)
    ensures Inv(Apply(s, ReapJoin))
  {
    assert RecOk(s, s.reaper.rec);
    ChangeKeeps(s, Apply(s, ReapJoin), s.reaper.rec);
  }

  lemma FlagKeeps(s: State, a: Step)
    requires Inv(s) && (a.Exit? || a.CallJoin? || a.RealJoin?) && Enabled(s, a)
    ensures Inv(Apply(s, a))
  {
    assert RecOk(s, a.r);
    ChangeKeeps(s, Apply(s, a), a.r);
  }

  lemma StepKeepsInv(s: State, a: Step)
    requires Inv(s) && Allowed(s, a)
    ensures Inv(Apply(s, a))
  {
    hide ListsOk, IdsDiffer, QueueInOrder, AllOk, FinishStep, DetachStep, LookUpStep, PopStep, FreeJoinedStep;
    match a
    case Spawn(id) => SpawnKeeps(s, id);
    case Register => RegisterKeeps(s);
    case Finish(r) => FinishKeeps(s, r);
    case Detach(r, started) => DetachKeeps(s, r, started);
    case LookUp(r) => LookUpKeeps(s, r);
    case FreeJoined(r) => FreeJoinedKeeps(s, r);
    case Pop => PopKeeps(s);
    case ReapJoin => ReapJoinKeeps(s);
    case ReapFree => ReapFreeKeeps(s);
    case _ => FlagKeeps(s, a);
  }

  lemma {:induction false} InvOnRun(run: seq<State>, i: nat)
    requires Run(run) && i < |run|
    ensures Inv(run[i])
  {
    if i > 0 {
      InvOnRun(run, i - 1);
      assert Next(run[i - 1], run[i - 1 + 1]);
      var a :| Allowed(run[i - 1], a) && run[i] == Apply(run[i - 1], a);
      StepKeepsInv(run[i - 1], a);
    }
  }

  // ---------- what every run keeps ----------

  /** Each record and its stack are freed at most once, only after the real join of the thread
      returned, and by then no list, no reaper and no joiner can reach the record. */
  lemma FreedOnceAndUnreachable(run: seq<State>, i: nat, r: nat)
    requires Run(run) && i < |run| && r < |run[i].recs|
    ensures run[i].recs[r].frees <= 1
    ensures run[i].recs[r].frees == 1 ==>
              && run[i].recs[r].joined && run[i].recs[r].exited
              && r !in run[i].registry && r !in run[i].queue && !ReaperHas(run[i], r)
              && forall k | 0 <= k < |run[i].recs| :: run[i].recs[k].join != Unlinked(r)
    ensures run[i].recs[r].join.Returned? ==> run[i].recs[r].frees == 1
  {
    InvOnRun(run, i);
    assert RecOk(run[i], r);
    forall k | 0 <= k < |run[i].recs| && run[i].recs[k].join == Unlinked(r)
      ensures run[i].recs[r].frees == 0
    {
      assert RecOk(run[i], k);
    }
  }

  /** Nothing is under way: no creator, no reaping, nothing queued, and every thread has left and
      was given up by its callers, detached or joined by a joiner that is done. */
  ghost predicate Quiescent(s: State) {
    && s.creating.None? && s.reaper.Idle? && s.queue == []
    && forall r | 0 <= r < |s.recs| :: s.recs[r].exited && (s.recs[r].detached || s.recs[r].join.Returned?)
  }

  /** Nothing leaks: when all is quiet every record and its stack were freed exactly once, and
      none is registered. */
  lemma QuietMeansAllFreed(run: seq<State>, i: nat)
    requires Run(run) && i < |run| && Quiescent(run[i])
    ensures forall r | 0 <= r < |run[i].recs| :: run[i].recs[r].frees == 1 && r !in run[i].registry
  {
    InvOnRun(run, i);
    forall r | 0 <= r < |run[i].recs| ensures run[i].recs[r].frees == 1 && r !in run[i].registry {
      assert RecOk(run[i], r);
    }
  }

  /** A detach leaves a reaper running unless none ran and none could be started; nothing else
      starts or stops it. */
  lemma DetachStartsReaper(s: State, a: Step)
    requires Enabled(s, a)
    ensures Apply(s, a).reaperRunning <==> s.reaperRunning || (a.Detach? && a.started)
  {
  }

  /** A running reaper that is idle takes the first of a waiting queue, once no creator is inside. */
  lemma QueueIsServed(run: seq<State>, i: nat)
    requires Run(run) && i < |run|
    requires run[i].reaperRunning && run[i].reaper.Idle? && run[i].creating.None? && run[i].queue != []
    ensures Allowed(run[i], Pop) && Apply(run[i], Pop).reaper == Popped(run[i].queue[0])
  {
    InvOnRun(run, i);
  }

  /** A join whose id is not registered, or is that of a detached record, returns and leaves every
      record and list alone. */
  lemma JoinLeavesStrangers(s: State, r: nat)
    requires Enabled(s, LookUp(r))
    requires var k := FindRec(s.recs, s.registry, s.recs[r].id); k.None? || s.recs[k.value].detached
    ensures Apply(s, LookUp(r)) == s.(recs := s.recs[r := s.recs[r].(join := Returned)])
  {
  }

  /** The reap queue holds exactly the finished and detached records the reaper has not taken,
      each once, whichever of the two events came first, in the order of the later event. */
  lemma QueueIsTheReadyRecords(run: seq<State>, i: nat)
    requires Run(run) && i < |run|
    ensures forall r | 0 <= r < |run[i].recs| :: r in run[i].queue <==>
              var x := run[i].recs[r]; x.finished && x.detached && !ReaperHas(run[i], r) && x.frees == 0
    ensures Distinct(run[i].queue) && Below(run[i].queue, |run[i].recs|)
    ensures QueueInOrder(run[i].recs, run[i].queue)
  {
    InvOnRun(run, i);
    forall r | 0 <= r < |run[i].recs|
      ensures r in run[i].queue <==>
              var x := run[i].recs[r]; x.finished && x.detached && !ReaperHas(run[i], r) && x.frees == 0
    {
      assert RecOk(run[i], r);
    }
  }

  /** The reaper takes the record that became ready first, and what it waits for has already
      returned from its start routine: a detached thread still at work is never waited for. */
  lemma ReaperTakesFirstReady(run: seq<State>, i: nat, r: nat)
    requires Run(run) && i < |run| && Enabled(run[i], Pop) && r < |run[i].recs|
    requires run[i].recs[r].finished && run[i].recs[r].detached && run[i].recs[r].frees == 0
    ensures var first := PopStep(run[i]).reaper.rec;
            && run[i].recs[first].finished && run[i].recs[first].detached
            && run[i].recs[first].ReadyAt() <= run[i].recs[r].ReadyAt()
  {
    QueueIsTheReadyRecords(run, i);
    assert run[i].queue[0] in run[i].queue;
    assert r in run[i].queue;
  }

  /** A thread that reaches the end of its trampoline finds its own record registered. */
  lemma FinishedIsRegistered(run: seq<State>, i: nat, r: nat)
    requires Run(run) && i < |run| && Enabled(run[i], Finish(r))
    ensures r in run[i].registry && run[i].recs[r].frees == 0
  {
    InvOnRun(run, i);
    assert RecOk(run[i], r);
  }

  /** A thread's joiner and its detacher find the thread's own record. */
  lemma LookUpsFindTheirRecord(run: seq<State>, i: nat, r: nat, started: bool)
    requires Run(run) && i < |run|
    requires Enabled(run[i], LookUp(r)) || Enabled(run[i], Detach(r, started))
    ensures FindRec(run[i].recs, run[i].registry, run[i].recs[r].id) == Some(r)
  {
    InvOnRun(run, i);
    AwaitedIsListed(run[i], r);
    FindsOwn(run[i], r);
  }

  /** The records a step reads or writes. */
  ghost predicate Touches(s: State, a: Step, k: nat)
    requires Enabled(s, a)
  {
    match a
    case Finish(r) => k == r
    case Detach(_, _) => k in s.registry || (s.queue != [] && k == s.queue[|s.queue| - 1])
    case LookUp(_) => k in s.registry
    case FreeJoined(r) => k == s.recs[r].join.found
    case Pop => k in s.registry || k == s.queue[0]
    case ReapJoin => k == s.reaper.rec
    case ReapFree => k == s.reaper.rec
    case _ => false
  }

  /** No step of any run touches a record that was freed. */
  lemma NoUseAfterFree(run: seq<State>, i: nat, a: Step, k: nat)
    requires Run(run) && i < |run| && Enabled(run[i], a) && Touches(run[i], a, k)
    ensures k < |run[i].recs| && run[i].recs[k].frees == 0
  {
    var s := run[i];
    InvOnRun(run, i);
    hide IdsDiffer, QueueInOrder;
    forall q | q in s.queue ensures q in s.registry {
      assert RecOk(s, q);
    }
    if a.FreeJoined? {
      assert RecOk(s, a.r);
    } else if a.Finish? || a.LookUp? || a.Detach? || a.Pop? || a.ReapJoin? || a.ReapFree? {
      assert RecOk(s, k);
    }
  }

  // ---------- reuse of an id between the real join and the lookup ----------

  /** After a new thread is created, every joiner's lookup still finds its own record exactly
      when nobody was waiting to look the new id up. */
  lemma LookUpsStayRightExactlyWhen(s: State, id: nat)
    requires Inv(s) && Enabled(s, Spawn(id))
    ensures (forall r: nat :: Enabled(RegisterStep(SpawnStep(s, id)), LookUp(r)) ==>
               var s' := RegisterStep(SpawnStep(s, id));
               FindRec(s'.recs, s'.registry, s'.recs[r].id) == Some(r))
            <==> NotAwaited(s, id)
  {
    var s' := RegisterStep(SpawnStep(s, id));
    if NotAwaited(s, id) {
      SpawnKeeps(s, id);
      RegisterKeeps(SpawnStep(s, id));
      forall r: nat | Enabled(s', LookUp(r)) ensures FindRec(s'.recs, s'.registry, s'.recs[r].id) == Some(r) {
        AwaitedIsListed(s', r);
        FindsOwn(s', r);
      }
    } else {
      var r :| 0 <= r < |s.recs| && s.recs[r].join.Window? && s.recs[r].id == id;
      assert Enabled(s', LookUp(r));
      StrangerIsFound(s, r);
    }
  }

  /** With a reused id the joiner of the old thread finds the new thread's record instead,
      unlinks it and frees its stack although nobody joined that thread. */
  lemma StrangerIsFound(s: State, r: nat)
    requires Inv(s) && r < |s.recs| && s.recs[r].join.Window? && Enabled(s, Spawn(s.recs[r].id))
    ensures var s1 := RegisterStep(SpawnStep(s, s.recs[r].id));
            var s2 := LookUpStep(s1, r);
            && FindRec(s1.recs, s1.registry, s1.recs[r].id) == Some(|s.recs|)
            && s2.recs[r].join == Unlinked(|s.recs|)
            && FreeJoinedStep(s2, r).recs[|s.recs|].frees == 1
            && !FreeJoinedStep(s2, r).recs[|s.recs|].joined
  {
    var s1 := RegisterStep(SpawnStep(s, s.recs[r].id));
    assert s1.registry[0] == |s.recs|;
  }

  /** The window is reachable: one thread created, finished and really joined, its joiner not
      yet at the lookup, and its id free for the system to give out again. */
  lemma WindowIsReachable() returns (run: seq<State>)
    ensures Run(run)
    ensures var s := run[|run| - 1];
            |s.recs| == 1 && s.recs[0].join.Window? && Enabled(s, Spawn(s.recs[0].id)) && !NotAwaited(s, s.recs[0].id)
  {
    hide FindRec, DetachStep, LookUpStep, FreeJoinedStep, PopStep;
    run := [INITIAL];
    var s1 := SpawnStep(INITIAL, 7);
    run := Extend(run, INITIAL, Spawn(7), s1);
    var s2 := RegisterStep(s1);
    run := Extend(run, s1, Register, s2);
    var s3 := FinishStep(s2, 0);
    run := Extend(run, s2, Finish(0), s3);
    var s4 := s3.(recs := s3.recs[0 := s3.recs[0].(exited := true)]);
    run := Extend(run, s3, Exit(0), s4);
    var s5 := s4.(recs := s4.recs[0 := s4.recs[0].(join := Called)]);
    run := Extend(run, s4, CallJoin(0), s5);
    var s6 := s5.(recs := s5.recs[0 := s5.recs[0].(join := Window, joined := true)]);
    run := Extend(run, s5, RealJoin(0), s6);
  }

  lemma Extend(run: seq<State>, s: State, a: Step, s': State) returns (longer: seq<State>)
    requires Run(run) && run[|run| - 1] == s && Allowed(s, a) && s' == Apply(s, a)
    ensures Run(longer) && longer == run + [s']
  {
    longer := run + [s'];
    forall i | 0 <= i < |longer| - 1 ensures Next(longer[i], longer[i + 1]) {
      if i < |run| - 1 {
        assert Next(run[i], run[i + 1]);
      }
    }
  }
}
