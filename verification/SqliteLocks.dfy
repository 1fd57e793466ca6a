/**
 The lock directories: when at most one connection holds a lock on a file, and how two can.
 */
module SqliteLocks {
  import opened SqliteHandles

  ghost predicate Holds(s: State, c: nat, key: Key) { c in s.conns && s.conns[c].key == key && s.conns[c].lock > 0 }

  ghost predicate Free(s: State, key: Key) { forall c :: !Holds(s, c, key) }

  /** At most one connection holds a lock on the file, and then its lock directory exists. */
  ghost predicate Guarded(s: State, key: Key) {
    && (forall c, d :: Holds(s, c, key) && Holds(s, d, key) ==> c == d)
    && (key in s.lockDirs || Free(s, key))
  }

  /** The step clears the lock directory of a file somebody holds. */
  ghost predicate ClearsHeld(s: State, a: Step, key: Key) {
    a.DoClear? && a.unlocked && KeyOf(a.fs, a.path) == key && !Free(s, key)
  }

  /** The locked section of an open touches no lock: a new connection holds none. */
  lemma OpenHolds(s: State, c: nat, fs: nat, path: string, flags: Flags, n: Native, key: Key)
    requires c !in s.conns
    ensures var s' := Open(s, c, fs, path, flags, n).0;
            s'.lockDirs == s.lockDirs && forall d :: Holds(s', d, key) <==> Holds(s, d, key)
  {
    hide Find, Fold;
  }

  lemma StepKeepsGuard(s: State, a: Step, key: Key)
    requires Enabled(s, a) && Guarded(s, key) && !ClearsHeld(s, a, key)
    ensures Guarded(Apply(s, a), key)
  {
    match a
    case DoClear(fs, path, unlocked) =>
      hide Fold;
      assert forall c :: Holds(Clear(s, fs, path, unlocked), c, key) <==> Holds(s, c, key);
    case DoOpen(c, fs, path, flags, n) =>
      OpenHolds(s, c, fs, path, flags, n, key);
      hide Open;
    case DoDetach(c) => DetachKeepsGuard(s, c, key);
    case DoUnlock(c, level, deletes) => UnlockKeepsGuard(s, c, level, deletes, key);
    case DoLock(c, level, creates) => LockKeepsGuard(s, c, level, creates, key);
  }

  lemma LockKeepsGuard(s: State, c: nat, level: nat, creates: bool, key: Key)
    requires c in s.conns && Guarded(s, key)
    ensures Guarded(Lock(s, c, level, creates).0, key)
  {
    var s' := Lock(s, c, level, creates).0;
    var f := s.conns[c];
    assert forall d | d != c :: Holds(s', d, key) <==> Holds(s, d, key);
    if Holds(s', c, key) && !Holds(s, c, key) {
      assert f.key == key && f.lock == 0 && key !in s.lockDirs && key in s'.lockDirs;
      assert Free(s, key);
    }
  }

  lemma UnlockKeepsGuard(s: State, c: nat, level: nat, deletes: bool, key: Key)
    requires c in s.conns && level <= s.conns[c].lock && Guarded(s, key)
    ensures Guarded(Unlock(s, c, level, deletes).0, key)
  {
    var s' := Unlock(s, c, level, deletes).0;
    assert forall d | d != c :: Holds(s', d, key) <==> Holds(s, d, key);
    assert Holds(s', c, key) ==> Holds(s, c, key);
    if key in s.lockDirs && key !in s'.lockDirs {
      assert Holds(s, c, key) && !Holds(s', c, key);
      assert forall d :: Holds(s', d, key) ==> Holds(s, d, key);
    }
  }

  lemma DetachKeepsGuard(s: State, c: nat, key: Key)
    requires c in s.conns && At(s.handles, s.conns[c].handle) < |s.handles| && Guarded(s, key)
    ensures Guarded(Detach(s, c), key)
  {
    hide At, Fold, Release;
    assert forall d :: Holds(Detach(s, c), d, key) ==> Holds(s, d, key);
  }

  /** A connection without a lock gets one exactly when no lock directory is there and the system
      lets one be made, which then is there; one that has a lock raises it freely. */
  lemma LockedExactlyWhen(s: State, c: nat, level: nat, creates: bool)
    requires c in s.conns && level > s.conns[c].lock
    ensures var (s', code), key, free := Lock(s, c, level, creates), s.conns[c].key, s.conns[c].lock == 0;
            && (code == Ok <==> !free || (key !in s.lockDirs && creates))
            && (code == Busy <==> free && key in s.lockDirs)
            && (code != Ok ==> s' == s)
            && (code == Ok ==>
                  s' == s.(conns := s.conns[c := s.conns[c].(lock := level)],
                           lockDirs := if free then s.lockDirs + {key} else s.lockDirs))
  {
  }

  /** Giving the lock up removes the directory, or fails and keeps the lock when the system cannot;
      lowering it within reach of the lock leaves the directory. */
  lemma UnlockedExactlyWhen(s: State, c: nat, level: nat, deletes: bool)
    requires c in s.conns && level <= s.conns[c].lock
    ensures var (s', code), key, leaves := Unlock(s, c, level, deletes), s.conns[c].key, level == 0 < s.conns[c].lock;
            && (code == Ok <==> leaves ==> deletes)
            && (code != Ok ==> s' == s)
            && (code == Ok ==>
                  s' == s.(conns := s.conns[c := s.conns[c].(lock := level)],
                           lockDirs := if leaves then s.lockDirs - {key} else s.lockDirs))
  {
  }

  /** Locks are exclusive in every run in which no open clears the lock directory of a file while a
      connection holds a lock on it, wherever the steps of opens and closes fall. */
  lemma {:induction false} LocksExclude(run: seq<State>, steps: seq<Step>, i: nat, key: Key)
    requires Run(run) && i < |run| && |steps| == |run| - 1
    requires forall j | 0 <= j < |steps| :: Enabled(run[j], steps[j]) && run[j + 1] == Apply(run[j], steps[j])
    requires forall j | 0 <= j < i :: !ClearsHeld(run[j], steps[j], key)
    ensures Guarded(run[i], key)
  {
    if i > 0 {
      LocksExclude(run, steps, i - 1, key);
      hide Guarded, Apply, Enabled, ClearsHeld;
      assert Enabled(run[i - 1], steps[i - 1]) && run[i - 1 + 1] == Apply(run[i - 1], steps[i - 1]);
      StepKeepsGuard(run[i - 1], steps[i - 1], key);
    }
  }

  /** Clearing keeps a file guarded exactly when nobody holds a lock on it: the open does not ask
      whose lock directory it clears. */
  lemma OpenKeepsGuardExactlyWhen(s: State, fs: nat, path: string)
    requires Guarded(s, KeyOf(fs, path))
    ensures Guarded(Clear(s, fs, path, true), KeyOf(fs, path)) <==> Free(s, KeyOf(fs, path))
  {
    hide Fold;
    var s', key := Clear(s, fs, path, true), KeyOf(fs, path);
    assert forall c :: Holds(s', c, key) <==> Holds(s, c, key);
  }

  /** Without that condition two connections can hold locks on one file at once: the second one
      opens the file after the first has locked it, and then locks it too. */
  lemma LocksCanOverlap() returns (run: seq<State>)
    ensures Run(run)
    ensures Holds(run[|run| - 1], 0, KeyOf(0, "a")) && Holds(run[|run| - 1], 1, KeyOf(0, "a"))
  {
    var flags := Flags(true, false, true, true, false);
    var n := Native(Created, true, true, true);
    var x := Shared(0, 0, "a", true, 1, false);
    var key := KeyOf(0, "a");
    hide Fold;
    var clear := DoClear(0, "a", true);
    run := [INITIAL];
    var s0 := Clear(INITIAL, 0, "a", true);
    assert s0 == INITIAL;
    run := Extend(run, INITIAL, clear, s0);
    var s1 := FirstOpen(flags, n, x);
    run := Extend(run, s0, DoOpen(0, 0, "a", flags, n), s1);
    var s2 := Lock(s1, 0, 1, true).0;
    assert s2 == s1.(conns := map[0 := Conn(0, key, false, 1)], lockDirs := {key});
    run := Extend(run, s1, DoLock(0, 1, true), s2);
    var s3 := Clear(s2, 0, "a", true);
    assert s3 == s2.(lockDirs := {});
    run := Extend(run, s2, clear, s3);
    var s4 := Open(s3, 1, 0, "a", flags, n).0;
    assert s4.conns == map[0 := Conn(0, key, false, 1), 1 := Conn(0, key, false, 0)] && s4.lockDirs == {} by {
      assert Find(s3.handles, key) == 0;
    }
    run := Extend(run, s3, DoOpen(1, 0, "a", flags, n), s4);
    hide Open, Find, Attach, AddEntry;
    var s5 := Lock(s4, 1, 1, true).0;
    assert s5.conns == map[0 := Conn(0, key, false, 1), 1 := Conn(0, key, false, 1)];
    run := Extend(run, s4, DoLock(1, 1, true), s5);
  }

  lemma FirstOpen(flags: Flags, n: Native, x: Shared) returns (s: State)
    requires flags == Flags(true, false, true, true, false) && n == Native(Created, true, true, true)
    requires x == Shared(0, 0, "a", true, 1, false)
    ensures s == Open(INITIAL, 0, 0, "a", flags, n).0
    ensures s.handles == [x] && s.conns == map[0 := Conn(0, KeyOf(0, "a"), false, 0)] && s.lockDirs == {}
  {
    hide Fold;
    s := Open(INITIAL, 0, 0, "a", flags, n).0;
  }

  lemma Extend(run: seq<State>, s: State, a: Step, s': State) returns (longer: seq<State>)
    requires Run(run) && run[|run| - 1] == s && Enabled(s, a) && s' == Apply(s, a)
    ensures Run(longer) && longer == run + [s']
  {
    hide Enabled, Apply;
    longer := run + [s'];
    forall i | 0 <= i < |longer| - 1 ensures Next(longer[i], longer[i + 1]) {
      if i < |run| - 1 {
        assert Next(run[i], run[i + 1]);
      }
    }
  }
}
