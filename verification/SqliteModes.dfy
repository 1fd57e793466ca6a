/**
 Who may write, who shares and who opens: the outcome of every open told from its flags and the
 system's answers, and what a live connection may do told from the open that made it.
 */
module SqliteModes {
  import opened SqliteHandles
  import opened SqliteRuns

  // ---------- one open ----------

  /** The file is open already. */
  ghost predicate IsOpen(s: State, key: Key) { exists i :: 0 <= i < |s.handles| && s.handles[i].Key() == key }

  /** The system lets the file be created, or need not. */
  predicate MayCreate(flags: Flags, n: Native) {
    flags.create ==> n.create.Created? || (n.create.AlreadyExists? && !flags.exclusive)
  }

  /** An open file is shared unless the open insists on being the first, or on creating it; a new
      one takes memory and a native handle, for reading at least. */
  lemma OpensExactlyWhen(s: State, c: nat, fs: nat, path: string, flags: Flags, n: Native)
    ensures var (s', code), shared := Open(s, c, fs, path, flags, n), IsOpen(s, KeyOf(fs, path));
            && (code == Ok <==>
                  && MayCreate(flags, n) && !(flags.exclusive && shared)
                  && (shared
                      || (n.memory && (n.opensReadable || ((flags.readWrite || flags.mainDb) && n.opensWritable)))))
            && (code == NoMem <==> MayCreate(flags, n) && !shared && !n.memory)
            && (code == Ok || code == NoMem || code == CantOpen)
            && (code != Ok ==> s' == s)
  {
    var i := Find(s.handles, KeyOf(fs, path));
    hide Attach, AddEntry, Fold;
    if i < |s.handles| {
      assert s.handles[i].Key() == KeyOf(fs, path);
    }
  }

  /** A successful open is recorded with its flags, keeps every other connection, and makes one
      for this file without a lock, which may write exactly if the open asked for READWRITE and
      the native handle was opened for writing. */
  lemma OpenedIs(s: State, c: nat, fs: nat, path: string, flags: Flags, n: Native)
    requires Inv(s) && Open(s, c, fs, path, flags, n).1 == Ok
    ensures var s' := Open(s, c, fs, path, flags, n).0;
            && c in s'.conns && s'.conns == s.conns[c := s'.conns[c]]
            && var x := s'.conns[c];
               && x.key == KeyOf(fs, path) && x.lock == 0
               && s'.opens == s.opens + [OpenRec(c, x.handle, flags.deleteOnClose, flags.readWrite)]
               && s'.lockDirs == s.lockDirs
               && At(s'.handles, x.handle) < |s'.handles|
               && var entry := s'.handles[At(s'.handles, x.handle)];
                  entry.handle == x.handle && (x.readOnly <==> !flags.readWrite || !entry.writable)
  {
    var key := KeyOf(fs, path);
    var i := Find(s.handles, key);
    hide Fold, KeyOf;
    var s' := Open(s, c, fs, path, flags, n).0;
    if i < |s.handles| {
      assert DistinctEntries(s.handles);
      AtIs(s.handles, i);
      AttachedAt(s, c, i, flags);
    } else {
      var x := Shared(s.nextHandle, fs, path, WantsWritable(flags) && n.opensWritable, 0, false);
      assert x.Key() == key;
      AttachedAt(AddEntry(s, x), c, 0, flags);
    }
  }

  lemma AttachedAt(s: State, c: nat, i: nat, flags: Flags)
    requires i < |s.handles| && At(s.handles, s.handles[i].handle) == i
    ensures var h, s' := s.handles[i].handle, Attach(s, c, i, flags);
            && At(s'.handles, h) == i && s'.handles[i].handle == h && s'.handles[i].writable == s.handles[i].writable
            && s'.conns[c].handle == h
  {
    hide Fold, KeyOf;
    AtUpdate(s.handles, i, Attach(s, c, i, flags).handles[i], s.handles[i].handle);
    hide At;
  }

  /** A file that was not open gets a native handle of its own, opened for writing exactly when
      READWRITE or MAIN_DB asks for that and the system allows it. */
  lemma NewHandleIs(s: State, c: nat, fs: nat, path: string, flags: Flags, n: Native)
    requires Open(s, c, fs, path, flags, n).1 == Ok && !IsOpen(s, KeyOf(fs, path))
    ensures var s' := Open(s, c, fs, path, flags, n).0;
            && s'.conns[c].handle == s.nextHandle && s'.nextHandle == s.nextHandle + 1
            && s'.log == s.log + [Opened(s.nextHandle)]
            && s'.modes == s.modes + [(flags.readWrite || flags.mainDb) && n.opensWritable]
            && |s'.handles| == |s.handles| + 1 && s'.handles[1..] == s.handles
            && s'.handles[0] == Shared(s.nextHandle, fs, path, (flags.readWrite || flags.mainDb) && n.opensWritable, 1,
                                       flags.deleteOnClose)
  {
    hide Fold, KeyOf;
    assert Find(s.handles, KeyOf(fs, path)) == |s.handles|;
  }

  /** A file that was open gets no second one. */
  lemma SharedHandleIs(s: State, c: nat, fs: nat, path: string, flags: Flags, n: Native)
    requires Open(s, c, fs, path, flags, n).1 == Ok && IsOpen(s, KeyOf(fs, path))
    ensures var s' := Open(s, c, fs, path, flags, n).0;
            && s'.log == s.log && s'.modes == s.modes && s'.nextHandle == s.nextHandle
            && |s'.handles| == |s.handles|
            && exists i | 0 <= i < |s.handles| ::
                 && s.handles[i].Key() == KeyOf(fs, path) && s'.conns[c].handle == s.handles[i].handle
                 && s'.handles == s.handles[i := s.handles[i].(
                                     references := s.handles[i].references + 1,
                                     deleteOnClose := s.handles[i].deleteOnClose || flags.deleteOnClose)]
  {
    var i := Find(s.handles, KeyOf(fs, path));
    hide Fold, KeyOf;
    assert i < |s.handles|;
    assert s.handles[i].Key() == KeyOf(fs, path);
  }

  // ---------- live connections ----------

  /** The open that made the present connection `c`. */
  ghost predicate Latest(opens: seq<OpenRec>, c: nat, p: nat) {
    p < |opens| && opens[p].conn == c && forall q | p < q < |opens| :: opens[q].conn != c
  }

  /** The open that made it asked for READWRITE, and its native handle was opened for writing. */
  ghost predicate MadeBy(s: State, c: nat, p: nat)
    requires c in s.conns
  {
    && Latest(s.opens, c, p) && s.opens[p].handle == s.conns[c].handle < |s.modes|
    && (!s.conns[c].readOnly <==> s.opens[p].readWrite && s.modes[s.conns[c].handle])
  }

  ghost predicate AccessOk(s: State) { forall c | c in s.conns :: exists p :: MadeBy(s, c, p) }

  lemma OpenKeepsAccess(s: State, c: nat, fs: nat, path: string, flags: Flags, n: Native)
    requires Inv(s) && AccessOk(s) && ShapeOk(s) && c !in s.conns && Open(s, c, fs, path, flags, n).1 == Ok
    requires ShapeOk(Open(s, c, fs, path, flags, n).0)
    ensures AccessOk(Open(s, c, fs, path, flags, n).0)
  {
    var s' := Open(s, c, fs, path, flags, n).0;
    hide Open, At, ShapeOk, KeyOf, Inv;
    OpenedIs(s, c, fs, path, flags, n);
    ModesGrow(s, c, fs, path, flags, n);
    ModeOfEntry(s', At(s'.handles, s'.conns[c].handle));
    forall d | d in s'.conns ensures exists p :: MadeBy(s', d, p) {
      if d == c {
        assert MadeBy(s', c, |s.opens|);
      } else {
        var p :| MadeBy(s, d, p);
        assert MadeBy(s', d, p);
      }
    }
  }

  lemma ModeOfEntry(s: State, i: nat)
    requires ShapeOk(s) && i < |s.handles|
    ensures s.handles[i].handle < |s.modes| && s.modes[s.handles[i].handle] == s.handles[i].writable
  {
    hide CloseOk;
  }

  lemma ModesGrow(s: State, c: nat, fs: nat, path: string, flags: Flags, n: Native)
    ensures s.modes <= Open(s, c, fs, path, flags, n).0.modes
  {
    hide Find, Fold;
  }

  lemma StepKeepsAccess(s: State, a: Step)
    requires Inv(s) && AccessOk(s) && ShapeOk(s) && Enabled(s, a) && ShapeOk(Apply(s, a))
    ensures AccessOk(Apply(s, a))
  {
    if a.DoOpen? && Open(s, a.c, a.fs, a.path, a.flags, a.n).1 == Ok {
      OpenKeepsAccess(s, a.c, a.fs, a.path, a.flags, a.n);
    } else {
      OthersKeepConns(s, a);
      hide Apply, Enabled, ShapeOk, Inv;
      var s' := Apply(s, a);
      forall d | d in s'.conns ensures exists p :: MadeBy(s', d, p) {
        var p :| MadeBy(s, d, p);
        assert MadeBy(s', d, p);
      }
    }
  }

  /** Nothing but a successful open makes a connection or changes what one may do. */
  lemma OthersKeepConns(s: State, a: Step)
    requires Enabled(s, a) && (a.DoOpen? ==> Open(s, a.c, a.fs, a.path, a.flags, a.n).1 != Ok)
    ensures var s' := Apply(s, a);
            && s'.opens == s.opens && s'.modes == s.modes
            && forall d | d in s'.conns ::
                 d in s.conns && s'.conns[d] == s.conns[d].(lock := s'.conns[d].lock)
  {
    hide At, Release, Fold;
    if a.DoOpen? {
      FailedOpenChangesNothing(s, a.c, a.fs, a.path, a.flags, a.n);
      hide Open;
    }
  }

  lemma {:induction false} AccessOnRun(run: seq<State>, i: nat)
    requires Run(run) && i < |run|
    ensures AccessOk(run[i])
  {
    if i > 0 {
      AccessOnRun(run, i - 1);
      InvOnRun(run, i - 1);
      ShapeOnRun(run, i - 1);
      ShapeOnRun(run, i);
      assert Next(run[i - 1], run[i - 1 + 1]);
      var a :| Enabled(run[i - 1], a) && run[i] == Apply(run[i - 1], a);
      hide *;
      StepKeepsAccess(run[i - 1], a);
    }
  }

  /** In every run: a live connection may write if and only if the open that made it asked for
      READWRITE and its native handle was opened for writing. */
  lemma WritesExactlyAsOpened(run: seq<State>, i: nat, c: nat) returns (p: nat)
    requires Run(run) && i < |run| && c in run[i].conns
    ensures var s := run[i];
            && Latest(s.opens, c, p) && s.opens[p].handle == s.conns[c].handle < |s.modes|
            && (!s.conns[c].readOnly <==> s.opens[p].readWrite && s.modes[s.conns[c].handle])
  {
    AccessOnRun(run, i);
    p :| MadeBy(run[i], c, p);
  }
}
