/**
 Shutdown ends: once `stopping` is set the writer is a bounded number of its own steps away from
 leaving, whatever the other threads do meanwhile, and it can always take the next one.
 */
module LogLiveness {
  import opened LogCore
  import opened LogInvariant
  import opened LogProtocol

  /** Steps the writer still needs in its present turn: one per byte at worst, then the report,
      the fsync and the completion. */
  function InTurn(w: Writer): nat {
    match w
    case Writing(rest, _, _) => 3 + |rest|
    case Reporting(_) => 3
    case Syncing(_) => 2
    case Publishing(_) => 1
    case _ => 0
  }

  /** How many steps of the writer are left at most until it leaves: the rest of this turn and,
      unless this turn saw the shutdown, one more turn over what is buffered. */
  function StepsLeft(s: State): nat {
    if s.writer.Absent? || s.writer.Exited? then 0
    else InTurn(s.writer) + if HasJob(s.writer) && s.writer.job.stop then 0 else 4 + |s.buffered|
  }

  lemma WriterStepLowers(s: State, op: Op)
    requires Inv(s) && CanDo(s, op) && WriterOp(op) && s.stopping
    ensures StepsLeft(Do(s, op)) < StepsLeft(s)
  {
    hide Conserved, Marked, Covered, Counted, LinesBetweenRecords;
  }

  /** Producers, flushes and critical writes add nothing while a shutdown is under way. */
  lemma OthersDoNotRaise(s: State, op: Op)
    requires CanDo(s, op) && !WriterOp(op) && s.stopping && s.running
    ensures StepsLeft(Do(s, op)) <= StepsLeft(s)
  {
  }

  /** A writer that has not left has a next step, and needs no other thread for it. */
  lemma WriterCanMove(s: State) returns (op: Op)
    requires Inv(s) && s.running && !s.writer.Exited?
    ensures WriterOp(op) && CanDo(s, op)
  {
    hide Conserved, Marked, Covered, Counted, LinesBetweenRecords;
    match s.writer
    case Enter => op := Lock;
    case Waiting => op := Wake;
    case Writing(_, _, _) => op := PutFails;
    case Reporting(_) => op := Announce(false);
    case Syncing(_) => op := Commit(false, true);
    case Publishing(_) => op := Publish;
  }

  lemma StepsAreBounded(s: State)
    requires Inv(s) && |Rest(s.writer)| <= CAPACITY
    ensures StepsLeft(s) <= 2 * CAPACITY + 7
    ensures s.running ==> (StepsLeft(s) == 0 <==> s.writer.Exited?)
  {
    hide Marked, Covered, Counted, LinesBetweenRecords;
  }

  /** What the writer holds came out of one buffer. */
  lemma StepKeepsRest(s: State, op: Op)
    requires Inv(s) && CanDo(s, op) && |Rest(s.writer)| <= CAPACITY
    ensures |Rest(Do(s, op).writer)| <= CAPACITY
  {
    hide Marked, Covered, Counted, LinesBetweenRecords;
  }

  lemma {:induction false} RestFits(run: seq<Sys>, i: nat)
    requires Run(run) && i < |run|
    ensures |Rest(run[i].shared.writer)| <= CAPACITY
  {
    if i > 0 {
      RestFits(run, i - 1);
      RunKeepsSysInv(run, i - 1);
      assert Next(run[i - 1], run[i - 1 + 1]);
      var a :| Enabled(run[i - 1], a) && run[i] == Apply(run[i - 1], a);
      SharedStep(run[i - 1], a);
      hide Apply, Enabled, Inv, Rest, Do;
      match OpOf(run[i - 1], a)
      case None =>
      case Some(op) => StepKeepsRest(run[i - 1].shared, op);
    }
  }

  predicate ByTheWriter(a: Step) { a.ByWriter? }

  /** How many of the steps from `i` to `j` are the writer's. */
  function WriterSteps(steps: seq<Step>, i: nat, j: nat): nat
    requires i <= j <= |steps|
    decreases j - i
  {
    if i == j then 0 else WriterSteps(steps, i, j - 1) + if ByTheWriter(steps[j - 1]) then 1 else 0
  }

  /** The steps that lead from each state of the run to the next. */
  ghost predicate Taken(run: seq<Sys>, steps: seq<Step>) {
    && |steps| == |run| - 1
    && forall k | 0 <= k < |steps| :: Enabled(run[k], steps[k]) && run[k + 1] == Apply(run[k], steps[k])
  }

  lemma SystemStep(s: Sys, a: Step)
    requires SysInv(s) && Enabled(s, a) && s.shared.stopping && s.shared.running
    ensures StepsLeft(Apply(s, a).shared) + (if ByTheWriter(a) then 1 else 0) <= StepsLeft(s.shared)
  {
    SharedStep(s, a);
    hide SysInv, Inv, Do, StepsLeft, Apply, Enabled;
    match OpOf(s, a)
    case None =>
    case Some(op) =>
      if ByTheWriter(a) {
        WriterStepLowers(s.shared, op);
      } else {
        OthersDoNotRaise(s.shared, op);
      }
  }

  /** Step `k` lowers the measure if it is the writer's and does not raise it otherwise. */
  ghost predicate Lowers(run: seq<Sys>, steps: seq<Step>, k: nat)
    requires k < |steps| < |run|
  {
    StepsLeft(run[k + 1].shared) + (if ByTheWriter(steps[k]) then 1 else 0) <= StepsLeft(run[k].shared)
  }

  lemma {:induction false} LoweringAddsUp(run: seq<Sys>, steps: seq<Step>, i: nat, j: nat)
    requires i <= j <= |steps| < |run|
    requires forall k | i <= k < j :: Lowers(run, steps, k)
    ensures WriterSteps(steps, i, j) + StepsLeft(run[j].shared) <= StepsLeft(run[i].shared)
    decreases j - i
  {
    if i < j {
      LoweringAddsUp(run, steps, i, j - 1);
      assert Lowers(run, steps, j - 1);
      hide StepsLeft;
    }
  }

  /** In every stretch of a run during which a shutdown is under way the writer takes no more
      steps than were left at its beginning, which is at most two buffers and seven; and when
      none are left it has left. */
  lemma WriterLeaves(run: seq<Sys>, steps: seq<Step>, i: nat, j: nat)
    requires Run(run) && Taken(run, steps) && i <= j < |run|
    requires forall k | i <= k <= j :: run[k].shared.stopping && run[k].shared.running
    ensures WriterSteps(steps, i, j) + StepsLeft(run[j].shared) <= StepsLeft(run[i].shared)
    ensures StepsLeft(run[i].shared) <= 2 * CAPACITY + 7
    ensures StepsLeft(run[j].shared) == 0 <==> run[j].shared.writer.Exited?
  {
    hide StepsLeft, Run, Apply, Enabled, WriterSteps, Lowers;
    BoundOnRun(run, i);
    BoundOnRun(run, j);
    forall k | i <= k < j ensures Lowers(run, steps, k) {
      StepTaken(run, steps, k);
    }
    LoweringAddsUp(run, steps, i, j);
  }

  lemma BoundOnRun(run: seq<Sys>, i: nat)
    requires Run(run) && i < |run|
    ensures StepsLeft(run[i].shared) <= 2 * CAPACITY + 7
    ensures run[i].shared.running ==> (StepsLeft(run[i].shared) == 0 <==> run[i].shared.writer.Exited?)
  {
    hide Run, StepsLeft, Rest, Inv;
    RunKeepsSysInv(run, i);
    RestFits(run, i);
    StepsAreBounded(run[i].shared);
  }

  /** The step from state `k` of the run to the next. */
  lemma StepTaken(run: seq<Sys>, steps: seq<Step>, k: nat)
    requires Run(run) && Taken(run, steps) && k < |steps|
    requires run[k].shared.stopping && run[k].shared.running
    ensures Lowers(run, steps, k)
  {
    hide Run, StepsLeft, SysInv, Apply, Enabled;
    RunKeepsSysInv(run, k);
    assert Enabled(run[k], steps[k]) && run[k + 1] == Apply(run[k], steps[k]);
    SystemStep(run[k], steps[k]);
  }
}
