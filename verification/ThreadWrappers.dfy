/**
 The locked sections of the pthread wrappers in switch/src/clang_tls_switch.c as calls on the two
 lists and the reaper flag. `state` is the protocol's state, `objs` the records in order of creation;
 every method takes the protocol's step, so any sequence of calls is a run of ThreadReaper.
 */
module ThreadWrappers {
  import opened Sequences
  import opened ThreadRegistry
  import TR = ThreadReaper

  lemma ModelsAfter(list: seq<ThreadRec>, objs: seq<ThreadRec>, recs: seq<TR.Rec>, recs': seq<TR.Rec>,
                    numbers: seq<nat>)
    requires Models(list, objs, recs, numbers) && |recs'| == |recs|
    requires forall i | 0 <= i < |recs| :: recs'[i].id == recs[i].id
    ensures Models(list, objs, recs', numbers)
  {
  }

  lemma ModelsAppend(queue: seq<ThreadRec>, objs: seq<ThreadRec>, recs: seq<TR.Rec>, numbers: seq<nat>, k: nat)
    requires Models(queue, objs, recs, numbers) && k < |objs|
    ensures Models(queue + [objs[k]], objs, recs, numbers + [k])
  {
  }

  /** A new thread's record joins the ones already numbered. */
  lemma ModelsGrow(list: seq<ThreadRec>, objs: seq<ThreadRec>, recs: seq<TR.Rec>, numbers: seq<nat>, o: ThreadRec,
                   x: TR.Rec)
    requires Models(list, objs, recs, numbers) && o !in objs && o.id == x.id
    ensures Models(list, objs + [o], recs + [x], numbers)
  {
    var all := objs + [o];
    forall i, j | 0 <= i < j < |all| ensures all[i] != all[j] {
      assert all[i] in objs;
    }
  }

  lemma ModelsPrepend(list: seq<ThreadRec>, objs: seq<ThreadRec>, recs: seq<TR.Rec>, numbers: seq<nat>, k: nat)
    requires Models(list, objs, recs, numbers) && k < |objs|
    ensures Models([objs[k]] + list, objs, recs, [k] + numbers)
  {
  }

  /** The queue's first record and the rest. */
  lemma QueueHeads(queue: seq<ThreadRec>, objs: seq<ThreadRec>, recs: seq<TR.Rec>, numbers: seq<nat>)
    requires Models(queue, objs, recs, numbers) && numbers != []
    ensures queue != [] && numbers[0] < |objs| && queue[0] == objs[numbers[0]]
    ensures Models(queue[1..], objs, recs, numbers[1..])
  {
  }

  lemma ListedIsNumbered(list: seq<ThreadRec>, objs: seq<ThreadRec>, recs: seq<TR.Rec>, numbers: seq<nat>, k: nat)
    requires Models(list, objs, recs, numbers) && k < |objs|
    ensures objs[k] in list <==> k in numbers
  {
    if objs[k] in list {
      var i :| 0 <= i < |list| && list[i] == objs[k];
      assert numbers[i] == k;
    }
    if k in numbers {
      var i :| 0 <= i < |numbers| && numbers[i] == k;
      assert list[i] == objs[k];
    }
  }

  lemma Numbered(list: seq<ThreadRec>, objs: seq<ThreadRec>, recs: seq<TR.Rec>, numbers: seq<nat>)
    requires Models(list, objs, recs, numbers)
    ensures |objs| == |recs| && |list| == |numbers| && TR.Below(numbers, |recs|)
    ensures forall i, j | 0 <= i < j < |objs| :: objs[i] != objs[j]
    ensures forall i | 0 <= i < |objs| :: objs[i].id == recs[i].id
  {
  }

  /** Steps that no list sees. */
  predicate Unlocked(a: TR.Step) {
    a.Exit? || a.CallJoin? || a.RealJoin? || a.FreeJoined? || a.ReapJoin? || a.ReapFree?
  }

  ghost predicate SameFlags(s: TR.State, s': TR.State) {
    && |s'.recs| == |s.recs|
    && forall i | 0 <= i < |s.recs| ::
         && s'.recs[i].id == s.recs[i].id
         && s'.recs[i].finished == s.recs[i].finished && s'.recs[i].detached == s.recs[i].detached
  }

  lemma UnlockedKeeps(s: TR.State, a: TR.Step)
    requires TR.Inv(s) && TR.Allowed(s, a) && Unlocked(a)
    ensures var s' := TR.Apply(s, a);
            && SameFlags(s, s') && s'.registry == s.registry && s'.queue == s.queue
            && s'.reaperRunning == s.reaperRunning && s'.creating == s.creating
  {
  }

  /** Record `k`'s flags change, no id does, and the queue may grow by it. */
  lemma ListsAfter(list: seq<ThreadRec>, queue: seq<ThreadRec>, objs: seq<ThreadRec>, s: TR.State, s': TR.State, k: nat)
    requires Models(list, objs, s.recs, s.registry) && Models(queue, objs, s.recs, s.queue) && k < |objs|
    requires |s'.recs| == |s.recs| && forall i | 0 <= i < |s.recs| :: s'.recs[i].id == s.recs[i].id
    requires s'.registry == s.registry && (s'.queue == s.queue || s'.queue == s.queue + [k])
    ensures Models(list, objs, s'.recs, s'.registry)
    ensures s'.queue == s.queue ==> Models(queue, objs, s'.recs, s'.queue)
    ensures s'.queue == s.queue + [k] ==> Models(queue + [objs[k]], objs, s'.recs, s'.queue)
  {
    ModelsAfter(list, objs, s.recs, s'.recs, s.registry);
    ModelsAfter(queue, objs, s.recs, s'.recs, s.queue);
    ModelsAppend(queue, objs, s'.recs, s.queue, k);
    hide Models;
  }

  lemma ListsWithout(list: seq<ThreadRec>, queue: seq<ThreadRec>, objs: seq<ThreadRec>, s: TR.State, s': TR.State,
                     k: nat)
    requires Models(list, objs, s.recs, s.registry) && Models(queue, objs, s.recs, s.queue) && k < |objs|
    requires SameFlags(s, s') && s'.queue == s.queue && s'.registry == Remove(s.registry, k)
    ensures Models(Remove(list, objs[k]), objs, s'.recs, s'.registry)
    ensures Models(queue, objs, s'.recs, s'.queue)
  {
    RemoveStaysInStep(list, objs, s.recs, s.registry, k);
    ModelsAfter(Remove(list, objs[k]), objs, s.recs, s'.recs, s'.registry);
    ModelsAfter(queue, objs, s.recs, s'.recs, s.queue);
    hide Models;
  }

  lemma FoundById(list: seq<ThreadRec>, objs: seq<ThreadRec>, s: TR.State, r: nat)
    requires Models(list, objs, s.recs, s.registry) && r < |objs| && r < |s.recs|
    requires r in s.registry && TR.FindRec(s.recs, s.registry, s.recs[r].id) == Some(r)
    ensures objs[r] in list && Lookup(list, s.recs[r].id) == objs[r]
  {
    LookupFindsTheSame(list, objs, s.recs, s.registry, s.recs[r].id);
    ListedIsNumbered(list, objs, s.recs, s.registry, r);
  }

  lemma LookUpIs(s: TR.State, r: nat)
    requires TR.Inv(s) && TR.Allowed(s, TR.LookUp(r))
    ensures var s' := TR.LookUpStep(s, r);
            && SameFlags(s, s') && s'.queue == s.queue && s'.reaperRunning == s.reaperRunning
            && s'.registry == Remove(s.registry, r) && !s.recs[r].detached
            && r in s.registry && TR.FindRec(s.recs, s.registry, s.recs[r].id) == Some(r)
  {
    TR.AwaitedIsListed(s, r);
    TR.FindsOwn(s, r);
    assert TR.RecOk(s, r);
  }

  lemma DetachIs(s: TR.State, r: nat, started: bool)
    requires TR.Inv(s) && TR.Allowed(s, TR.Detach(r, started))
    ensures r in s.registry && TR.FindRec(s.recs, s.registry, s.recs[r].id) == Some(r)
    ensures var s' := TR.DetachStep(s, r, started);
            && s'.registry == s.registry && s'.reaperRunning == (s.reaperRunning || started)
            && s'.queue == (if s.recs[r].finished then s.queue + [r] else s.queue)
            && |s'.recs| == |s.recs|
            && forall i | 0 <= i < |s.recs| ::
                 && s'.recs[i].id == s.recs[i].id && s'.recs[i].finished == s.recs[i].finished
                 && s'.recs[i].detached == (s.recs[i].detached || i == r)
  {
    TR.AwaitedIsListed(s, r);
    TR.FindsOwn(s, r);
  }

  lemma RegisterIs(s: TR.State)
    requires TR.Inv(s) && s.creating.Some?
    ensures TR.Allowed(s, TR.Register)
    ensures var c := s.creating.value; c < |s.recs| && c !in s.registry && !s.recs[c].finished && !s.recs[c].detached
  {
    assert TR.RecOk(s, s.creating.value);
  }

  lemma FinishIs(s: TR.State, r: nat)
    requires TR.Inv(s) && TR.Allowed(s, TR.Finish(r))
    ensures r in s.registry
    ensures var s' := TR.FinishStep(s, r);
            && s'.registry == s.registry && s'.reaperRunning == s.reaperRunning
            && s'.queue == (if s.recs[r].detached then s.queue + [r] else s.queue)
            && |s'.recs| == |s.recs|
            && forall i | 0 <= i < |s.recs| ::
                 && s'.recs[i].id == s.recs[i].id && s'.recs[i].detached == s.recs[i].detached
                 && s'.recs[i].finished == (s.recs[i].finished || i == r)
  {
    assert TR.RecOk(s, r);
  }

  class Wrappers {
    const registry: Registry
    var reaperRunning: bool
    ghost var state: TR.State
    ghost var objs: seq<ThreadRec>

    /** The heap is what the protocol's state says. */
    ghost predicate Tied()
      reads this, registry, objs
    {
      && reaperRunning == state.reaperRunning
      && Models(registry.list, objs, state.recs, state.registry)
      && Models(registry.queue, objs, state.recs, state.queue)
      && forall i | 0 <= i < |objs| ::
           objs[i].finished == state.recs[i].finished && objs[i].detached == state.recs[i].detached
    }

    ghost predicate Valid()
      reads this, registry, registry.list, registry.queue, objs
    {
      registry.Valid() && TR.Inv(state) && Tied()
    }

    constructor ()
      ensures Valid() && state == TR.INITIAL
    {
      registry := new Registry();
      reaperRunning, state, objs := false, TR.INITIAL, [];
    }

    /** What happens outside the lock: leaving the trampoline, real joins, frees. */
    ghost method Elsewhere(a: TR.Step)
      requires Valid() && TR.Allowed(state, a) && Unlocked(a)
      modifies this`state
      ensures Valid() && state == TR.Apply(old(state), a)
    {
      hide TR.Inv, TR.DetachStep, TR.FinishStep, TR.LookUpStep, TR.FindRec, Models, Lookup;
      hide Registry.Valid, Registry.Listed, Registry.Queued, Remove, Distinct;
      hide TR.Apply;
      Numbered(registry.list, objs, state.recs, state.registry);
      TR.StepKeepsInv(state, a);
      UnlockedKeeps(state, a);
      ModelsAfter(registry.list, objs, state.recs, TR.Apply(state, a).recs, state.registry);
      ModelsAfter(registry.queue, objs, state.recs, TR.Apply(state, a).recs, state.queue);
      state := TR.Apply(state, a);
    }

    /** The real create succeeded; the creator still holds the mutex. */
    method StartThread(id: nat) returns (rec: ThreadRec)
      requires Valid() && TR.Allowed(state, TR.Spawn(id))
      modifies this`state, this`objs
      ensures Valid() && fresh(rec) && rec.id == id && objs == old(objs) + [rec]
      ensures state == TR.SpawnStep(old(state), id)
    {
      rec := new ThreadRec(id);
      TR.StepKeepsInv(state, TR.Spawn(id));
      ghost var x := TR.SpawnStep(state, id).recs[|state.recs|];
      ModelsGrow(registry.list, objs, state.recs, state.registry, rec, x);
      ModelsGrow(registry.queue, objs, state.recs, state.queue, rec, x);
      hide TR.Inv, Models;
      objs := objs + [rec];
      state := TR.SpawnStep(state, id);
    }

    /** pthread_create publishes the record. */
    method Publish(rec: ThreadRec)
      requires Valid() && state.creating.Some? && state.creating.value < |objs| && rec == objs[state.creating.value]
      modifies this`state, registry, rec`next
      ensures Valid() && state == TR.RegisterStep(old(state))
    {
      hide TR.Inv, TR.DetachStep, TR.FinishStep, TR.LookUpStep, TR.FindRec, Models, Lookup;
      hide Registry.Valid, Registry.Listed, Registry.Queued, Remove, Distinct;
      Numbered(registry.list, objs, state.recs, state.registry);
      ghost var s, s', c := state, TR.RegisterStep(state), state.creating.value;
      RegisterIs(s);
      ListedIsNumbered(registry.list, objs, s.recs, s.registry, c);
      TR.StepKeepsInv(s, TR.Register);
      ModelsPrepend(registry.list, objs, s.recs, s.registry, c);
      registry.Publish(rec);
      state := s';
    }

    /** Start the reaper unless it runs. */
    method EnsureReaper(startOk: bool) returns (failed: bool)
      modifies this`reaperRunning
      ensures reaperRunning == (old(reaperRunning) || startOk) && failed == !reaperRunning
    {
      if !reaperRunning {
        reaperRunning := startOk;
      }
      failed := !reaperRunning;
    }

    /** pthread_detach for thread `r` with this id; `startOk` is whether a reaper can be started. */
    method Detach(id: nat, startOk: bool, ghost r: nat) returns (reaperFailed: bool)
      requires Valid() && TR.Allowed(state, TR.Detach(r, startOk)) && state.recs[r].id == id
      modifies this`state, this`reaperRunning, registry, registry.list
      ensures Valid() && state == TR.DetachStep(old(state), r, startOk) && objs == old(objs)
      ensures reaperFailed == (!old(reaperRunning) && !startOk)
    {
      hide TR.Inv, TR.DetachStep, TR.FindRec, Models, Lookup;
      hide Registry.Valid, Registry.Listed, Registry.Queued, Distinct;
      ghost var s, s' := state, TR.DetachStep(state, r, startOk);
      Numbered(registry.list, objs, s.recs, s.registry);
      DetachIs(s, r, startOk);
      TR.StepKeepsInv(s, TR.Detach(r, startOk));
      ListsAfter(registry.list, registry.queue, objs, s, s', r);
      FoundById(registry.list, objs, s, r);
      reaperFailed := EnsureReaper(startOk);
      state := s';
      registry.Detach(id);
    }

    /** The end of thread `r`'s trampoline. */
    method Finish(rec: ThreadRec, ghost r: nat)
      requires Valid() && TR.Allowed(state, TR.Finish(r)) && rec == objs[r]
      modifies this`state, registry, registry.list
      ensures Valid() && state == TR.FinishStep(old(state), r) && objs == old(objs)
    {
      hide TR.Inv, TR.FinishStep, Models, Lookup;
      hide Registry.Valid, Registry.Listed, Registry.Queued, Distinct;
      ghost var s, s' := state, TR.FinishStep(state, r);
      Numbered(registry.list, objs, s.recs, s.registry);
      FinishIs(s, r);
      TR.StepKeepsInv(s, TR.Finish(r));
      ListsAfter(registry.list, registry.queue, objs, s, s', r);
      ListedIsNumbered(registry.list, objs, s.recs, s.registry, r);
      state := s';
      registry.Finish(rec);
    }

    /** pthread_join of thread `r` with this id, after the real join: the record to free. */
    method TakeJoined(id: nat, ghost r: nat) returns (rec: ThreadRec?)
      requires Valid() && TR.Allowed(state, TR.LookUp(r)) && state.recs[r].id == id
      modifies this`state, registry, registry.list`next
      ensures Valid() && state == TR.LookUpStep(old(state), r) && objs == old(objs) && rec == objs[r]
    {
      hide TR.Inv, TR.LookUpStep, TR.FindRec, Models, Lookup;
      hide Registry.Valid, Registry.Listed, Registry.Queued, Distinct, Remove;
      ghost var s, s' := state, TR.LookUpStep(state, r);
      Numbered(registry.list, objs, s.recs, s.registry);
      LookUpIs(s, r);
      TR.StepKeepsInv(s, TR.LookUp(r));
      ListsWithout(registry.list, registry.queue, objs, s, s', r);
      FoundById(registry.list, objs, s, r);
      state := s';
      rec := registry.TakeJoined(id);
    }

    /** The reaper takes the first record of its queue. */
    method Reap() returns (rec: ThreadRec)
      requires Valid() && TR.Allowed(state, TR.Pop)
      modifies this`state, registry, registry.list`next
      ensures Valid() && state == TR.PopStep(old(state)) && objs == old(objs)
      ensures old(state.queue[0]) < |objs| && rec == objs[old(state.queue[0])]
    {
      hide TR.Inv, TR.DetachStep, TR.FinishStep, TR.LookUpStep, TR.FindRec, Models, Lookup;
      hide Registry.Valid, Registry.Listed, Registry.Queued, Remove, Distinct;
      Numbered(registry.list, objs, state.recs, state.registry);
      ghost var s, s' := state, TR.PopStep(state);
      TR.StepKeepsInv(s, TR.Pop);
      Numbered(registry.queue, objs, s.recs, s.queue);
      QueueHeads(registry.queue, objs, s.recs, s.queue);
      RemoveStaysInStep(registry.list, objs, s.recs, s.registry, s.queue[0]);
      rec := registry.PopLocked();
      state := s';
    }
  }
}
