/**
 The VFS of switch/src/sqlite_vfs.cpp in its own shape. `Vfs` holds the shared handle list, the
 open connections and the card's lock directories, and its methods are proved against the
 protocol of SqliteHandles. `HosFile` holds one connection's reads and writes, with the retry
 through a bounce buffer, proved against the bytes of the file.
 */
module SqliteVfs {
  import opened Sequences
  import opened SqliteHandles
  import opened SqliteRuns
  import opened SqliteModes

  ghost predicate Good(s: State) { Inv(s) && ShapeOk(s) && AccessOk(s) }

  lemma StepKeepsGood(s: State, a: Step)
    requires Good(s) && Enabled(s, a)
    ensures Good(Apply(s, a))
  {
    hide Inv, ShapeOk, AccessOk, Apply, Enabled;
    StepKeepsInv(s, a);
    StepKeepsShape(s, a);
    StepKeepsAccess(s, a);
  }

  lemma InitialIsGood()
    ensures Good(INITIAL)
  {
  }

  /** What the new connection may do. */
  lemma OpenedMode(s: State, c: nat, fs: nat, path: string, flags: Flags, n: Native)
    requires Good(s) && c !in s.conns && SqliteHandles.Open(s, c, fs, path, flags, n).1 == Ok
    ensures var s' := SqliteHandles.Open(s, c, fs, path, flags, n).0;
            && c in s'.conns && s'.conns[c].key == KeyOf(fs, path) && s'.conns[c].lock == 0
            && s'.conns[c].handle < |s'.modes|
            && (s'.conns[c].readOnly <==> !flags.readWrite || !s'.modes[s'.conns[c].handle])
  {
    hide Inv, ShapeOk, AccessOk, SqliteHandles.Open, At, KeyOf;
    OpenedIs(s, c, fs, path, flags, n);
    var s' := SqliteHandles.Open(s, c, fs, path, flags, n).0;
    OpenedShape(s, c, fs, path, flags, n);
    ModeOfEntry(s', At(s'.handles, s'.conns[c].handle));
  }

  lemma OpenedShape(s: State, c: nat, fs: nat, path: string, flags: Flags, n: Native)
    requires Inv(s) && ShapeOk(s) && c !in s.conns
    ensures ShapeOk(SqliteHandles.Open(s, c, fs, path, flags, n).0)
  {
    hide Inv, ShapeOk, SqliteHandles.Open;
    StepKeepsShape(s, DoOpen(c, fs, path, flags, n));
  }

  /** A live connection stands on an entry with references. */
  lemma ConnHasEntry(s: State, c: nat)
    requires Good(s) && c in s.conns
    ensures Enabled(s, DoDetach(c)) && s.handles[At(s.handles, s.conns[c].handle)].references > 0
  {
    assert ConnOk(s, c);
    hide At, EntryOk, LogOk, CloseOk;
  }

  class Vfs {
    var handles: seq<Shared>
    var conns: map<nat, Conn>
    var lockDirs: set<Key>
    var nextHandle: nat
    ghost var log: seq<Event>
    ghost var opens: seq<OpenRec>
    ghost var modes: seq<bool>

    ghost function View(): State
      reads this
    {
      State(handles, conns, lockDirs, log, opens, modes, nextHandle)
    }

    /** The invariant of the protocol's runs. */
    ghost predicate Valid()
      reads this
    {
      Good(View())
    }

    constructor ()
      ensures Valid() && View() == INITIAL
    {
      handles, conns, lockDirs, nextHandle := [], map[], {}, 0;
      log, opens, modes := [], [], [];
      new;
      InitialIsGood();
    }

    /** findHandle. */
    method FindHandle(key: Key) returns (i: nat)
      ensures i == Find(handles, key)
    {
      i := 0;
      while i < |handles| && handles[i].Key() != key
        invariant i <= |handles|
        invariant Find(handles, key) == i + Find(handles[i..], key)
      {
        assert handles[i..][1..] == handles[i + 1..];
        i := i + 1;
      }
    }

    /** open, with what the system answers: a name that does not translate, a stale lock directory
        cleared or not, and then `n`. */
    method Open(c: nat, fs: nat, path: string, pathOk: bool, unlocked: bool, flags: Flags, n: Native)
      returns (code: Code)
      requires Valid() && c !in conns
      modifies this
      ensures Valid()
      ensures !pathOk ==> code == CantOpen && View() == old(View())
      ensures pathOk ==>
                (View(), code) == SqliteHandles.Open(Clear(old(View()), fs, path, unlocked), c, fs, path, flags, n)
    {
      if !pathOk {
        return CantOpen;
      }
      ClearStale(fs, path, unlocked);
      code := OpenShared(c, fs, path, flags, n);
    }

    /** The deletions before open takes the handle mutex. */
    method ClearStale(fs: nat, path: string, unlocked: bool)
      requires Valid()
      modifies this`lockDirs
      ensures Valid() && View() == Clear(old(View()), fs, path, unlocked)
    {
      ghost var before := View();
      if unlocked {
        lockDirs := lockDirs - {KeyOf(fs, path)};
      }
      hide Good;
      StepKeepsGood(before, DoClear(fs, path, unlocked));
    }

    /** open under the handle mutex. */
    method OpenShared(c: nat, fs: nat, path: string, flags: Flags, n: Native) returns (code: Code)
      requires Valid() && c !in conns
      modifies this
      ensures Valid() && (View(), code) == SqliteHandles.Open(old(View()), c, fs, path, flags, n)
      ensures code == Ok ==>
                && c in conns && conns[c].key == KeyOf(fs, path) && conns[c].lock == 0
                && conns[c].handle < |modes|
                && (conns[c].readOnly <==> !flags.readWrite || !modes[conns[c].handle])
    {
      hide Good, Attach, AddEntry, KeyOf, Inv, ShapeOk;
      ghost var was := View();
      StepKeepsGood(was, DoOpen(c, fs, path, flags, n));
      code := OpenEntry(c, fs, path, flags, n);
      if code == Ok {
        OpenedMode(was, c, fs, path, flags, n);
      }
    }

    method OpenEntry(c: nat, fs: nat, path: string, flags: Flags, n: Native) returns (code: Code)
      modifies this
      ensures (View(), code) == SqliteHandles.Open(old(View()), c, fs, path, flags, n)
    {
      var i := FindHandle(KeyOf(fs, path));
      hide Find, Fold;
      if i < |handles| && flags.exclusive {
        return CantOpen;
      }
      if flags.create && !n.create.Created? && (n.create != AlreadyExists || flags.exclusive) {
        return CantOpen;
      }
      if i == |handles| {
        if !n.memory {
          return NoMem;
        }
        var write := flags.readWrite || flags.mainDb;
        var granted := if write then n.opensWritable else n.opensReadable;
        if !granted && write {
          write := false;
          granted := n.opensReadable;
        }
        if !granted {
          return CantOpen;
        }
        EnterHandle(fs, path, write);
        i := 0;
      }
      Share(c, i, flags);
      code := Ok;
    }

    /** A new entry at the head of the list, without a reference yet. */
    method EnterHandle(fs: nat, path: string, write: bool)
      modifies this
      ensures View() == AddEntry(old(View()), Shared(old(nextHandle), fs, path, write, 0, false))
    {
      var shared := Shared(nextHandle, fs, path, write, 0, false);
      handles := [shared] + handles;
      nextHandle := nextHandle + 1;
      modes, log := modes + [write], log + [Opened(shared.handle)];
    }

    /** The end of open: one more reference to the entry at `i`. */
    method Share(c: nat, i: nat, flags: Flags)
      requires i < |handles|
      modifies this
      ensures View() == Attach(old(View()), c, i, flags)
    {
      var shared := handles[i].(references := handles[i].references + 1);
      if flags.deleteOnClose {
        shared := shared.(deleteOnClose := true);
      }
      handles := handles[i := shared];
      var readOnly := !flags.readWrite || !shared.writable;
      conns := conns[c := Conn(shared.handle, shared.Key(), readOnly, 0)];
      opens := opens + [OpenRec(c, shared.handle, flags.deleteOnClose, flags.readWrite)];
    }

    /** unlock; `deletes`: the lock directory was deleted, or there was none. */
    method Unlock(c: nat, level: nat, deletes: bool) returns (code: Code)
      requires Valid() && c in conns && level <= conns[c].lock
      modifies this`conns, this`lockDirs
      ensures Valid() && (View(), code) == SqliteHandles.Unlock(old(View()), c, level, deletes)
    {
      hide Good;
      StepKeepsGood(View(), DoUnlock(c, level, deletes));
      var f := conns[c];
      if level == 0 && f.lock != 0 {
        if !deletes {
          return IoError;
        }
        lockDirs := lockDirs - {f.key};
      }
      conns := conns[c := f.(lock := level)];
      code := Ok;
    }

    method Lock(c: nat, level: nat, creates: bool) returns (code: Code)
      requires Valid() && c in conns
      modifies this`conns, this`lockDirs
      ensures Valid() && (View(), code) == SqliteHandles.Lock(old(View()), c, level, creates)
    {
      hide Good;
      StepKeepsGood(View(), DoLock(c, level, creates));
      var f := conns[c];
      if level <= f.lock {
        return Ok;
      }
      if f.lock == 0 {
        if f.key in lockDirs {
          return Busy;
        }
        if !creates {
          return IoError;
        }
        lockDirs := lockDirs + {f.key};
      }
      conns := conns[c := f.(lock := level)];
      code := Ok;
    }

    /** close: give up the lock, then drop the reference and, with the last one, the handle. */
    method Close(c: nat, deletes: bool) returns (code: Code)
      requires Valid() && c in conns
      modifies this
      ensures Valid() && c !in conns
      ensures var (unlocked, rc) := SqliteHandles.Unlock(old(View()), c, 0, deletes);
              code == rc && Enabled(unlocked, DoDetach(c)) && View() == Detach(unlocked, c)
    {
      code := Unlock(c, 0, deletes);
      hide Good;
      Leave(c);
    }

    /** Where the entry of a native handle is in the list. */
    method FindEntry(h: nat) returns (entry: nat)
      ensures entry == At(handles, h)
    {
      entry := 0;
      while entry < |handles| && handles[entry].handle != h
        invariant entry <= |handles|
        invariant At(handles, h) == entry + At(handles[entry..], h)
      {
        assert handles[entry..][1..] == handles[entry + 1..];
        entry := entry + 1;
      }
    }

    /** close's section under the handle mutex. */
    method Leave(c: nat)
      requires Valid() && c in conns
      modifies this`handles, this`conns, this`log
      ensures Valid() && c !in conns && Enabled(old(View()), DoDetach(c)) && View() == Detach(old(View()), c)
    {
      ConnHasEntry(View(), c);
      hide Good;
      StepKeepsGood(View(), DoDetach(c));
      hide Detach;
      DropReference(c);
    }

    method DropReference(c: nat)
      requires c in conns && At(handles, conns[c].handle) < |handles|
      requires handles[At(handles, conns[c].handle)].references > 0
      modifies this`handles, this`conns, this`log
      ensures c !in conns && View() == Detach(old(View()), c)
    {
      var h := conns[c].handle;
      var entry := FindEntry(h);
      hide At;
      var shared := handles[entry].(references := handles[entry].references - 1);
      if shared.references == 0 {
        if shared.writable {
          log := log + [Flushed(h)];
        }
        log := log + [Closed(h)];
        if shared.deleteOnClose {
          log := log + [Deleted(h)];
        }
        assert log == old(log) + Release(handles[entry]);
        handles := handles[..entry] + handles[entry + 1..];
      } else {
        handles := handles[entry := shared];
      }
      conns := conns - {c};
    }
  }

  // ---------- reading and writing ----------

  datatype Rc = Success | Unmappable | Failure

  /** The file with `b` at `offset`; a write beyond the end fills the gap with zeros. */
  function Splice(file: seq<byte>, offset: nat, b: seq<byte>): (r: seq<byte>)
    ensures |r| == if offset + |b| > |file| then offset + |b| else |file|
  {
    var padded := if |file| < offset then file + seq(offset - |file|, _ => 0) else file;
    padded[..offset] + b + if offset + |b| < |padded| then padded[offset + |b|..] else []
  }

  /** The part of the file a read of `n` bytes at `offset` can see. */
  function Visible(file: seq<byte>, offset: nat, n: nat): (r: seq<byte>)
    ensures |r| <= n
  {
    if offset >= |file| then [] else if offset + n > |file| then file[offset..] else file[offset..offset + n]
  }

  /** Writing in pieces is writing at once. */
  lemma SpliceConcat(file: seq<byte>, offset: nat, a: seq<byte>, b: seq<byte>)
    ensures Splice(Splice(file, offset, a), offset + |a|, b) == Splice(file, offset, a + b)
  {
    var once := Splice(file, offset, a + b);
    var pieces := Splice(Splice(file, offset, a), offset + |a|, b);
    forall k | 0 <= k < |once| ensures pieces[k] == once[k] {
      SpliceAt(file, offset, a + b, k);
      SpliceAt(Splice(file, offset, a), offset + |a|, b, k);
      if k < |Splice(file, offset, a)| {
        SpliceAt(file, offset, a, k);
      }
    }
  }

  /** The file once a piece of a write is in place; before the first piece it is untouched. */
  function Put(file: seq<byte>, offset: nat, b: seq<byte>): seq<byte> {
    if b == [] then file else Splice(file, offset, b)
  }

  lemma PutNext(file: seq<byte>, offset: nat, buffer: seq<byte>, written: nat, chunk: nat)
    requires chunk > 0 && written + chunk <= |buffer|
    ensures Splice(Put(file, offset, buffer[..written]), offset + written, buffer[written..written + chunk])
            == Put(file, offset, buffer[..written + chunk])
  {
    var a, b := buffer[..written], buffer[written..written + chunk];
    assert a + b == buffer[..written + chunk];
    if written == 0 {
      assert a + b == b;
    } else {
      SpliceConcat(file, offset, a, b);
    }
    hide Splice;
  }

  /** The first `n` bytes of the buffer are in place. */
  ghost predicate Placed(now: seq<byte>, was: seq<byte>, offset: nat, buffer: seq<byte>, n: nat)
    requires n <= |buffer|
  {
    now == Put(was, offset, buffer[..n])
  }

  lemma NothingPlaced(was: seq<byte>, offset: nat, buffer: seq<byte>)
    ensures Placed(was, was, offset, buffer, 0)
  {
  }

  lemma PlacedAll(now: seq<byte>, was: seq<byte>, offset: nat, buffer: seq<byte>)
    requires buffer != [] && Placed(now, was, offset, buffer, |buffer|)
    ensures now == Splice(was, offset, buffer)
  {
    assert buffer[..|buffer|] == buffer;
    hide Splice;
  }

  lemma SpliceAt(file: seq<byte>, offset: nat, b: seq<byte>, k: nat)
    requires k < |Splice(file, offset, b)|
    ensures Splice(file, offset, b)[k] ==
            if offset <= k < offset + |b| then b[k - offset] else if k < |file| then file[k] else 0
  {
  }

  /** An open native file: the system decides which calls fail, which cannot use the caller's
      memory, and how much a read returns. `own` is memory that it can use; `refusals` counts what
      it failed to do of what it could. */
  class NativeFile {
    var bytes: seq<byte>
    ghost var refusals: nat

    constructor (bytes: seq<byte>)
      ensures this.bytes == bytes
    {
      this.bytes, refusals := bytes, 0;
    }

    method Write(offset: nat, b: seq<byte>, own: bool) returns (rc: Rc)
      modifies this
      ensures rc.Success? ==> bytes == Splice(old(bytes), offset, b)
      ensures rc.Unmappable? ==> bytes == old(bytes)
      ensures refusals == old(refusals) + if rc.Failure? || (rc.Unmappable? && own) then 1 else 0
    {
      rc := *;
      if rc.Success? {
        bytes := Splice(bytes, offset, b);
      } else if rc.Failure? {
        bytes := *;
      }
      refusals := refusals + if rc.Failure? || (rc.Unmappable? && own) then 1 else 0;
    }

    method SetSize(size: nat) returns (rc: Rc)
      modifies this
      ensures rc.Success? ==> bytes == if size <= |old(bytes)| then old(bytes)[..size]
                                       else old(bytes) + Zeros(size - |old(bytes)|)
      ensures !rc.Success? ==> bytes == old(bytes)
      ensures refusals == old(refusals) + if rc.Success? then 0 else 1
    {
      rc := *;
      if rc.Success? {
        bytes := if size <= |bytes| then bytes[..size] else bytes + Zeros(size - |bytes|);
      }
      refusals := refusals + if rc.Success? then 0 else 1;
    }

    /** Some of what is there, from the offset on. */
    method Read(offset: nat, n: nat, own: bool) returns (rc: Rc, got: seq<byte>)
      modifies this`refusals
      ensures rc.Success? ==> got <= Visible(bytes, offset, n)
      ensures var refused := if rc.Success? then got != Visible(bytes, offset, n) else rc.Failure? || own;
              refusals == old(refusals) + if refused then 1 else 0
    {
      rc := *;
      var all := Visible(bytes, offset, n);
      var some: nat :| some <= |all|;
      got := all[..some];
      var refused := if rc.Success? then got != all else rc.Failure? || own;
      refusals := refusals + if refused then 1 else 0;
    }
  }

  datatype IoCode = Done | ShortRead | ReadOnly | Error

  const BOUNCE: nat := 4096

  /** A connection's view of the native file it shares with others. */
  class HosFile {
    const shared: NativeFile
    const readOnly: bool

    constructor (shared: NativeFile, readOnly: bool)
      ensures this.shared == shared && this.readOnly == readOnly
    {
      this.shared, this.readOnly := shared, readOnly;
    }

    /** write: a read-only connection changes nothing; a write that reports success has put
        exactly its bytes in place, in one call or piece by piece. */
    method Write(buffer: seq<byte>, offset: nat) returns (code: IoCode)
      modifies shared
      ensures readOnly ==> code == ReadOnly && shared.bytes == old(shared.bytes)
      ensures code == Done ==> shared.bytes == Splice(old(shared.bytes), offset, buffer)
      ensures !readOnly && shared.refusals == old(shared.refusals) && buffer != [] ==> code == Done
    {
      hide Splice;
      if readOnly {
        return ReadOnly;
      }
      var rc := shared.Write(offset, buffer, false);
      if rc == Unmappable {
        rc := WriteBounced(buffer, offset);
      }
      code := if rc == Success then Done else Error;
    }

    /** Copy the buffer piece by piece to memory the system can map, and write the pieces. */
    method WriteBounced(buffer: seq<byte>, offset: nat) returns (rc: Rc)
      modifies shared
      ensures rc == Success ==> shared.bytes == Splice(old(shared.bytes), offset, buffer)
      ensures rc != Success ==> buffer == [] || shared.refusals > old(shared.refusals)
    {
      ghost var was := shared.bytes;
      rc := Unmappable;
      var written := 0;
      NothingPlaced(was, offset, buffer);
      hide Splice, Put, Placed;
      while written < |buffer|
        invariant written <= |buffer|
        invariant rc == if written == 0 then Unmappable else Success
        invariant Placed(shared.bytes, was, offset, buffer, written)
        invariant shared.refusals == old(shared.refusals)
      {
        var chunk := if |buffer| - written < BOUNCE then |buffer| - written else BOUNCE;
        rc := WritePiece(was, buffer, offset, written, chunk);
        if rc != Success {
          break;
        }
        written := written + chunk;
      }
      if rc == Success {
        PlacedAll(shared.bytes, was, offset, buffer);
      }
    }

    method WritePiece(ghost was: seq<byte>, buffer: seq<byte>, offset: nat, written: nat, chunk: nat) returns (rc: Rc)
      requires chunk > 0 && written + chunk <= |buffer| && Placed(shared.bytes, was, offset, buffer, written)
      modifies shared
      ensures rc == Success ==> Placed(shared.bytes, was, offset, buffer, written + chunk)
      ensures shared.refusals == old(shared.refusals) + if rc == Success then 0 else 1
    {
      PutNext(was, offset, buffer, written, chunk);
      hide Splice, Put;
      var bounce := buffer[written..written + chunk];
      rc := shared.Write(offset + written, bounce, true);
    }

    method Truncate(size: nat) returns (code: IoCode)
      modifies shared
      ensures readOnly ==> code == ReadOnly && shared.bytes == old(shared.bytes)
      ensures code == Done ==> |shared.bytes| == size
      ensures code == Done ==> forall k | 0 <= k < size ::
                shared.bytes[k] == if k < |old(shared.bytes)| then old(shared.bytes)[k] else 0
      ensures !readOnly && shared.refusals == old(shared.refusals) ==> code == Done
    {
      if readOnly {
        return ReadOnly;
      }
      var rc := shared.SetSize(size);
      code := if rc == Success then Done else Error;
    }

    /** The size hint: grows the file with zeros at most, and never for a read-only connection. */
    method SizeHint(hint: nat)
      modifies shared
      ensures readOnly ==> shared.bytes == old(shared.bytes)
      ensures old(shared.bytes) <= shared.bytes
      ensures forall k | |old(shared.bytes)| <= k < |shared.bytes| :: shared.bytes[k] == 0
      ensures !readOnly && shared.refusals == old(shared.refusals) ==>
                |shared.bytes| == if hint > |old(shared.bytes)| then hint else |old(shared.bytes)|
    {
      if readOnly {
        return;
      }
      if hint > |shared.bytes| {
        var rc := shared.SetSize(hint);
      }
    }

    /** read: what it returns are the file's bytes from the offset on; a full read has all of
        them, a short one zeros where it has none; and nothing is missing that the system gives. */
    method Read(amount: nat, offset: nat) returns (code: IoCode, buffer: seq<byte>)
      modifies shared`refusals
      ensures code == Done ==> buffer == Visible(shared.bytes, offset, amount) && |buffer| == amount
      ensures code == ShortRead ==>
                exists n :: 0 <= n < amount && |buffer| == amount
                            && buffer[..n] <= Visible(shared.bytes, offset, amount)
                            && forall k | n <= k < amount :: buffer[k] == 0
      ensures code == Done || code == ShortRead || code == Error
      ensures shared.refusals == old(shared.refusals) ==>
                var all := Visible(shared.bytes, offset, amount);
                code != Error && buffer == all + Zeros(amount - |all|) && (code == Done <==> |all| == amount)
    {
      hide Visible, Zeros;
      var available := if offset < |shared.bytes| then |shared.bytes| - offset else 0;
      var requested := if available < amount then available else amount;
      VisibleIs(shared.bytes, offset, amount, requested);
      var rc, got: seq<byte> := Success, [];
      if requested > 0 {
        rc, got := shared.Read(offset, requested, false);
      }
      if rc == Unmappable {
        rc, got := ReadBounced(requested, offset);
      }
      if rc != Success {
        return Error, [];
      }
      if |got| < amount {
        buffer := got + Zeros(amount - |got|);
        assert buffer[..|got|] == got;
        return ShortRead, buffer;
      }
      assert got + Zeros(0) == got;
      return Done, got;
    }

    /** Read piece by piece into memory the system can map. */
    method ReadBounced(requested: nat, offset: nat) returns (rc: Rc, got: seq<byte>)
      requires requested > 0
      modifies shared`refusals
      ensures rc == Success ==> got <= Visible(shared.bytes, offset, requested)
      ensures shared.refusals >= old(shared.refusals)
      ensures shared.refusals == old(shared.refusals) && |Visible(shared.bytes, offset, requested)| == requested ==>
                rc == Success && got == Visible(shared.bytes, offset, requested)
    {
      hide Visible;
      rc, got := Unmappable, [];
      while |got| < requested
        invariant |got| <= requested && got <= Visible(shared.bytes, offset, requested)
        invariant rc == if got == [] then Unmappable else Success
        invariant shared.refusals == old(shared.refusals)
        decreases requested - |got|
      {
        var chunk := if requested - |got| < BOUNCE then requested - |got| else BOUNCE;
        var received;
        rc, received := shared.Read(offset + |got|, chunk, true);
        if rc != Success {
          break;
        }
        VisibleConcat(shared.bytes, offset, requested, got, chunk, received);
        VisiblePiece(shared.bytes, offset, requested, |got|, chunk);
        got := got + received;
        if |received| < chunk {
          break;
        }
      }
    }
  }

  /** What of a read lies inside the file. */
  lemma VisibleIs(file: seq<byte>, offset: nat, amount: nat, requested: nat)
    requires requested == var available := if offset < |file| then |file| - offset else 0;
                          if available < amount then available else amount
    ensures |Visible(file, offset, requested)| == requested
    ensures Visible(file, offset, amount) == Visible(file, offset, requested)
  {
  }

  lemma VisiblePiece(file: seq<byte>, offset: nat, n: nat, i: nat, chunk: nat)
    requires i + chunk <= n
    ensures |Visible(file, offset, n)| == n ==> |Visible(file, offset + i, chunk)| == chunk
  {
  }

  function Zeros(n: nat): (r: seq<byte>)
    ensures |r| == n && forall i | 0 <= i < n :: r[i] == 0
  {
    seq(n, _ => 0)
  }

  lemma VisiblePrefix(file: seq<byte>, offset: nat, n: nat, m: nat)
    requires n <= m
    ensures Visible(file, offset, n) <= Visible(file, offset, m)
  {
  }

  lemma VisibleConcat(file: seq<byte>, offset: nat, n: nat, got: seq<byte>, chunk: nat, more: seq<byte>)
    requires got <= Visible(file, offset, n) && |got| + chunk <= n
    requires more <= Visible(file, offset + |got|, chunk)
    ensures got + more <= Visible(file, offset, n)
  {
    var all := Visible(file, offset, n);
    if more != [] {
      forall k | 0 <= k < |got + more| ensures k < |all| && (got + more)[k] == all[k] {
        if k >= |got| {
          assert more[k - |got|] == Visible(file, offset + |got|, chunk)[k - |got|] == file[offset + k];
        }
      }
    }
  }
}
