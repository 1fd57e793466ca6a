/**
 What every run of opens and closes keeps: one native handle per file, closed once and with its last
 connection, flushed before and deleted after as asked.
 */
module SqliteRuns {
  import opened SqliteHandles

  // ---------- what the log looks like ----------

  lemma {:induction false} CountPositive(log: seq<Event>, p: nat)
    requires p < |log|
    ensures Count(log, log[p]) >= 1
    decreases |log|
  {
    if p < |log| - 1 {
      CountPositive(log[..|log| - 1], p);
    }
  }

  /** Around a close at `p`: the flush of a writable handle before it, the deletion that some
      open of the file asked for after it. */
  ghost predicate CloseOk(s: State, p: nat)
    requires p < |s.log| && s.log[p].Closed?
  {
    var h := s.log[p].handle;
    && h < |s.modes|
    && (s.modes[h] ==> p > 0 && s.log[p - 1] == Flushed(h))
    && (AskedToDelete(s.opens, h) <==> p + 1 < |s.log| && s.log[p + 1] == Deleted(h))
  }

  ghost predicate ShapeOk(s: State) {
    && |s.modes| == s.nextHandle
    && (forall i | 0 <= i < |s.handles| ::
          s.handles[i].handle < |s.modes| && s.modes[s.handles[i].handle] == s.handles[i].writable)
    && forall p | 0 <= p < |s.log| && s.log[p].Closed? :: CloseOk(s, p)
  }

  /** A handle that was closed has left the list. */
  lemma ClosedHasLeft(s: State, p: nat)
    requires Inv(s) && p < |s.log| && s.log[p].Closed?
    ensures At(s.handles, s.log[p].handle) == |s.handles|
  {
    CountPositive(s.log, p);
    assert LogOk(s, s.log[p].handle);
  }

  lemma AttachKeepsShape(s: State, c: nat, i: nat, flags: Flags)
    requires ShapeOk(s) && i < |s.handles|
    requires forall p | 0 <= p < |s.log| && s.log[p].Closed? :: s.log[p].handle != s.handles[i].handle
    ensures ShapeOk(Attach(s, c, i, flags))
  {
    var s' := Attach(s, c, i, flags);
    forall p | 0 <= p < |s'.log| && s'.log[p].Closed? ensures CloseOk(s', p) {
      assert CloseOk(s, p);
      AskedSnoc(s.opens, s'.opens[|s.opens|], s.log[p].handle);
      hide AskedToDelete;
    }
  }

  lemma AddEntryKeepsShape(s: State, x: Shared)
    requires ShapeOk(s) && x.handle == s.nextHandle
    ensures ShapeOk(AddEntry(s, x))
  {
    var s' := AddEntry(s, x);
    assert forall i | 1 <= i < |s'.handles| :: s'.handles[i] == s.handles[i - 1];
    forall p | 0 <= p < |s'.log| && s'.log[p].Closed? ensures CloseOk(s', p) {
      assert CloseOk(s, p);
      hide AskedToDelete;
    }
  }

  lemma OpenNewKeepsShape(s: State, c: nat, x: Shared, flags: Flags)
    requires Inv(s) && ShapeOk(s) && x.handle == s.nextHandle
    ensures ShapeOk(Attach(AddEntry(s, x), c, 0, flags))
  {
    AddEntryKeepsShape(s, x);
    forall p | 0 <= p < |s.log| && s.log[p].Closed? ensures s.log[p].handle != x.handle {
      assert CloseOk(s, p);
    }
    hide ShapeOk, Inv;
    AttachKeepsShape(AddEntry(s, x), c, 0, flags);
  }

  lemma OpenKeepsShape(s: State, c: nat, fs: nat, path: string, flags: Flags, n: Native)
    requires Inv(s) && ShapeOk(s)
    ensures ShapeOk(Open(s, c, fs, path, flags, n).0)
  {
    var i := Find(s.handles, KeyOf(fs, path));
    hide ShapeOk, Inv, Attach, AddEntry, Fold, Find, At;
    if i < |s.handles| {
      AttachOpenShape(s, c, i, flags);
    } else {
      OpenNewKeepsShape(s, c, Shared(s.nextHandle, fs, path, WantsWritable(flags) && n.opensWritable, 0, false), flags);
    }
  }

  lemma DirsDoNotShape(s: State, dirs: set<Key>)
    requires ShapeOk(s)
    ensures ShapeOk(s.(lockDirs := dirs))
  {
    hide AskedToDelete;
    assert forall p | 0 <= p < |s.log| && s.log[p].Closed? :: CloseOk(s, p);
  }

  lemma AttachOpenShape(s: State, c: nat, i: nat, flags: Flags)
    requires Inv(s) && ShapeOk(s) && i < |s.handles|
    ensures ShapeOk(Attach(s, c, i, flags))
  {
    forall p | 0 <= p < |s.log| && s.log[p].Closed? ensures s.log[p].handle != s.handles[i].handle {
      ClosedHasLeft(s, p);
    }
    hide Inv, ShapeOk;
    AttachKeepsShape(s, c, i, flags);
  }

  /** What the last close appends has the right shape. */
  lemma DetachKeepsShape(s: State, c: nat)
    requires Inv(s) && ShapeOk(s) && c in s.conns && At(s.handles, s.conns[c].handle) < |s.handles|
    ensures ShapeOk(Detach(s, c))
  {
    var i := At(s.handles, s.conns[c].handle);
    hide Inv, At, ShapeOk, LeaveLast, LeaveShared;
    if s.handles[i].references <= 1 {
      LeaveLastKeepsShape(s, c, i);
    } else {
      LeaveSharedKeepsShape(s, c, i);
    }
  }

  lemma LeaveSharedKeepsShape(s: State, c: nat, i: nat)
    requires ShapeOk(s) && i < |s.handles| && s.handles[i].references > 0
    ensures ShapeOk(LeaveShared(s, c, i))
  {
    hide AskedToDelete;
    assert forall p | 0 <= p < |s.log| && s.log[p].Closed? :: CloseOk(s, p);
  }

  lemma LeaveLastKeepsShape(s: State, c: nat, i: nat)
    requires Inv(s) && ShapeOk(s) && i < |s.handles|
    ensures ShapeOk(LeaveLast(s, c, i))
  {
    var s' := LeaveLast(s, c, i);
    assert EntryOk(s, s.handles[i]);
    forall p | 0 <= p < |s'.log| && s'.log[p].Closed? ensures CloseOk(s', p) {
      ReleaseShape(s, s.handles[i], p);
      hide AskedToDelete, Release, Inv, EntryOk;
    }
    LeaveLastModes(s, c, i);
    hide CloseOk, LeaveLast, Inv, EntryOk;
  }

  lemma LeaveLastModes(s: State, c: nat, i: nat)
    requires ShapeOk(s) && i < |s.handles|
    ensures var s' := LeaveLast(s, c, i);
            && |s'.modes| == s'.nextHandle
            && forall j | 0 <= j < |s'.handles| ::
                 s'.handles[j].handle < |s'.modes| && s'.modes[s'.handles[j].handle] == s'.handles[j].writable
  {
    var s' := LeaveLast(s, c, i);
    hide CloseOk, Release;
    assert forall j | 0 <= j < |s'.handles| :: s'.handles[j] == s.handles[if j < i then j else j + 1];
  }

  lemma ReleaseShape(s: State, x: Shared, p: nat)
    requires ShapeOk(s) && EntryOk(s, x) && x.handle < |s.modes| && s.modes[x.handle] == x.writable
    requires p < |s.log + Release(x)| && (s.log + Release(x))[p].Closed?
    ensures CloseOk(s.(log := s.log + Release(x)), p)
  {
    hide AskedToDelete, Users;
    if p < |s.log| {
      assert CloseOk(s, p);
    }
  }

  lemma RelockKeepsShape(s: State, c: nat, level: nat, ok: bool)
    requires ShapeOk(s) && c in s.conns
    ensures ShapeOk(Lock(s, c, level, ok).0) && ShapeOk(Unlock(s, c, level, ok).0)
  {
    assert forall p | 0 <= p < |s.log| && s.log[p].Closed? :: CloseOk(s, p);
    hide AskedToDelete;
  }

  lemma StepKeepsShape(s: State, a: Step)
    requires Inv(s) && ShapeOk(s) && Enabled(s, a)
    ensures ShapeOk(Apply(s, a))
  {
    hide ShapeOk, Inv, Open, Lock, Unlock, Detach;
    match a
    case DoClear(fs, path, unlocked) => DirsDoNotShape(s, s.lockDirs - {KeyOf(fs, path)});
    case DoOpen(c, fs, path, flags, n) => OpenKeepsShape(s, c, fs, path, flags, n);
    case DoLock(c, level, creates) => RelockKeepsShape(s, c, level, creates);
    case DoUnlock(c, level, deletes) => RelockKeepsShape(s, c, level, deletes);
    case DoDetach(c) => DetachKeepsShape(s, c);
  }

  lemma {:induction false} ShapeOnRun(run: seq<State>, i: nat)
    requires Run(run) && i < |run|
    ensures ShapeOk(run[i])
  {
    if i > 0 {
      ShapeOnRun(run, i - 1);
      InvOnRun(run, i - 1);
      assert Next(run[i - 1], run[i - 1 + 1]);
      var a :| Enabled(run[i - 1], a) && run[i] == Apply(run[i - 1], a);
      hide Inv, ShapeOk, Apply, Enabled;
      StepKeepsShape(run[i - 1], a);
    }
  }

  // ---------- what every run keeps ----------

  /** At most one entry, hence one native handle, per file system and case-folded path; its
      reference count is the number of live connections, never 0; each connection stands on an
      entry for its own file, and writes only if the native handle can. */
  lemma OneHandlePerFile(run: seq<State>, i: nat)
    requires Run(run) && i < |run|
    ensures var s := run[i]; forall j, k | 0 <= j < k < |s.handles| :: s.handles[j].Key() != s.handles[k].Key()
    ensures var s := run[i]; forall j | 0 <= j < |s.handles| ::
              s.handles[j].references == |Users(s.conns, s.handles[j].handle)| >= 1
    ensures var s := run[i]; forall c | c in s.conns ::
              var j := At(s.handles, s.conns[c].handle);
              && j < |s.handles| && s.handles[j].Key() == s.conns[c].key
              && (!s.conns[c].readOnly ==> s.handles[j].writable)
  {
    var s := run[i];
    InvOnRun(run, i);
    forall j | 0 <= j < |s.handles| ensures s.handles[j].references == |Users(s.conns, s.handles[j].handle)| >= 1 {
      assert EntryOk(s, s.handles[j]);
    }
    forall c | c in s.conns ensures ConnOk(s, c) {
    }
  }

  /** A native handle is closed exactly when its last connection has closed, and only once. */
  lemma ClosedWithLastConnection(run: seq<State>, i: nat, h: nat)
    requires Run(run) && i < |run| && h < run[i].nextHandle
    ensures Count(run[i].log, Closed(h)) <= 1
    ensures Count(run[i].log, Closed(h)) == 1 <==> Users(run[i].conns, h) == {}
  {
    var s := run[i];
    InvOnRun(run, i);
    assert LogOk(s, h);
    var j := At(s.handles, h);
    if j < |s.handles| {
      assert EntryOk(s, s.handles[j]);
    } else {
      forall c | c in s.conns ensures s.conns[c].handle != h {
        assert ConnOk(s, c);
      }
    }
  }

  /** A writable handle is flushed right before it is closed, and the file is deleted right
      after exactly when some open of it asked for that, however many connections came and went. */
  lemma LastCloseFlushesAndDeletes(run: seq<State>, i: nat, p: nat)
    requires Run(run) && i < |run| && p < |run[i].log| && run[i].log[p].Closed?
    ensures CloseOk(run[i], p)
  {
    ShapeOnRun(run, i);
  }

  /** An open that fails changes no entry, no connection and no native handle: nothing at all but
      the lock directory cleared before. */
  lemma FailedOpenChangesNothing(s: State, c: nat, fs: nat, path: string, flags: Flags, n: Native)
    requires Open(s, c, fs, path, flags, n).1 != Ok
    ensures Open(s, c, fs, path, flags, n).0 == s
  {
    hide Find, Attach, AddEntry, Fold;
  }
}
