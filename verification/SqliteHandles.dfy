/**
 The shared native handles and the lock directories behind switch/src/sqlite_vfs.cpp: opening,
 closing, locking and unlocking connections, with every outcome of the native calls. What open and
 close do to the lock directory before they take the handle mutex are steps of their own. The log
 records the native calls on handles, `modes` which handles were opened for writing, and `opens`
 every successful open.
 */
module SqliteHandles {
  /** A file system and a path as the card tells files apart: by its case-folded name. */
  datatype Key = Key(fs: nat, name: string)

  function FoldChar(c: char): char { if 'A' <= c <= 'Z' then c - 'A' + 'a' else c }

  function Fold(s: string): (r: string)
    ensures |r| == |s|
  {
    seq(|s|, i requires 0 <= i < |s| => FoldChar(s[i]))
  }

  function KeyOf(fs: nat, path: string): Key { Key(fs, Fold(path)) }

  /** Two letters that the card takes for one: the same, or one the capital of the other. */
  predicate SameLetter(a: char, b: char) {
    a == b || ('A' <= a <= 'Z' && b as int == a as int + 32) || ('A' <= b <= 'Z' && a as int == b as int + 32)
  }

  /** Paths name one file exactly when they agree letter for letter, capitals apart. */
  lemma SameKeyExactly(fs: nat, p: string, gs: nat, q: string)
    ensures KeyOf(fs, p) == KeyOf(gs, q)
            <==> fs == gs && |p| == |q| && forall i | 0 <= i < |p| :: SameLetter(p[i], q[i])
  {
    if fs == gs && |p| == |q| && forall i | 0 <= i < |p| :: SameLetter(p[i], q[i]) {
      forall i | 0 <= i < |p| ensures Fold(p)[i] == Fold(q)[i] {
        assert SameLetter(p[i], q[i]);
      }
    }
    if KeyOf(fs, p) == KeyOf(gs, q) {
      forall i | 0 <= i < |p| ensures SameLetter(p[i], q[i]) {
        assert Fold(p)[i] == Fold(q)[i];
      }
    }
  }

  /** SharedFile. */
  datatype Shared = Shared(
    handle: nat, fs: nat, path: string, writable: bool, references: nat, deleteOnClose: bool)
  {
    function Key(): Key { KeyOf(fs, path) }
  }

  /** HosFile: an open connection. */
  datatype Conn = Conn(handle: nat, key: Key, readOnly: bool, lock: nat)

  datatype Event = Opened(handle: nat) | Flushed(handle: nat) | Closed(handle: nat) | Deleted(handle: nat)

  /** A successful open: whose, of which native handle, and what its flags asked for. */
  datatype OpenRec = OpenRec(conn: nat, handle: nat, deleteOnClose: bool, readWrite: bool)

  datatype State = State(
    handles: seq<Shared>, conns: map<nat, Conn>, lockDirs: set<Key>, log: seq<Event>, opens: seq<OpenRec>,
    modes: seq<bool>, nextHandle: nat)

  const INITIAL := State([], map[], {}, [], [], [], 0)

  datatype Flags = Flags(create: bool, exclusive: bool, readWrite: bool, mainDb: bool, deleteOnClose: bool)

  datatype CreateRc = Created | AlreadyExists | CreateFailed

  /** What the system answers during an open: the create, the memory for a new entry and the native
      opens for writing and for reading. */
  datatype Native = Native(create: CreateRc, memory: bool, opensWritable: bool, opensReadable: bool)

  datatype Code = Ok | Busy | CantOpen | NoMem | IoError

  /** findHandle. */
  function Find(handles: seq<Shared>, key: Key): (i: nat)
    ensures i <= |handles|
    ensures i < |handles| ==> handles[i].Key() == key
    ensures forall j | 0 <= j < i :: handles[j].Key() != key
    decreases |handles|
  {
    if handles == [] || handles[0].Key() == key then 0
    else
      var i := Find(handles[1..], key);
      assert forall j | 1 <= j < i + 1 :: handles[j] == handles[1..][j - 1];
      1 + i
  }

  /** Sharing the entry at `i`: one more reference, the delete flag sticks, and the connection is
      read-only unless it asked to write and the native handle can. */
  function Attach(s: State, c: nat, i: nat, flags: Flags): State
    requires i < |s.handles|
  {
    var x := s.handles[i].(references := s.handles[i].references + 1,
                           deleteOnClose := s.handles[i].deleteOnClose || flags.deleteOnClose);
    s.(handles := s.handles[i := x],
       conns := s.conns[c := Conn(x.handle, x.Key(), !flags.readWrite || !x.writable, 0)],
       opens := s.opens + [OpenRec(c, x.handle, flags.deleteOnClose, flags.readWrite)])
  }

  /** A new native handle enters the list at its head, without a reference yet. */
  function AddEntry(s: State, x: Shared): State {
    s.(handles := [x] + s.handles, nextHandle := s.nextHandle + 1, modes := s.modes + [x.writable],
       log := s.log + [Opened(x.handle)])
  }

  predicate WantsWritable(flags: Flags) { flags.readWrite || flags.mainDb }

  /** The native open: writable when the flags ask for it and the system allows it. */
  predicate OpensNative(flags: Flags, n: Native) { (WantsWritable(flags) && n.opensWritable) || n.opensReadable }

  /** What open does first: clear a lock directory left behind, whoever holds it; `unlocked`: the
      system lets it. */
  function Clear(s: State, fs: nat, path: string, unlocked: bool): State {
    if unlocked then s.(lockDirs := s.lockDirs - {KeyOf(fs, path)}) else s
  }

  /** open's section under the handle mutex, of `path` for connection `c`. */
  function Open(s: State, c: nat, fs: nat, path: string, flags: Flags, n: Native): (State, Code) {
    var i := Find(s.handles, KeyOf(fs, path));
    if i < |s.handles| && flags.exclusive then (s, CantOpen)
    else if flags.create && (n.create.CreateFailed? || (n.create.AlreadyExists? && flags.exclusive)) then (s, CantOpen)
    else if i < |s.handles| then (Attach(s, c, i, flags), Ok)
    else if !n.memory then (s, NoMem)
    else if !OpensNative(flags, n) then (s, CantOpen)
    else
      var x := Shared(s.nextHandle, fs, path, WantsWritable(flags) && n.opensWritable, 0, false);
      (Attach(AddEntry(s, x), c, 0, flags), Ok)
  }

  /** Where the entry with this native handle is. */
  function At(handles: seq<Shared>, h: nat): (i: nat)
    ensures i <= |handles|
    ensures i < |handles| ==> handles[i].handle == h
    ensures forall j | 0 <= j < i :: handles[j].handle != h
    decreases |handles|
  {
    if handles == [] || handles[0].handle == h then 0
    else
      var i := At(handles[1..], h);
      assert forall j | 1 <= j < i + 1 :: handles[j] == handles[1..][j - 1];
      1 + i
  }

  /** unlock: leaving the last level deletes the lock directory; `deletes`: the system does so, or
      finds none. */
  function Unlock(s: State, c: nat, level: nat, deletes: bool): (State, Code)
    requires c in s.conns
  {
    var f := s.conns[c];
    if level == 0 && f.lock != 0 && !deletes then (s, IoError)
    else
      var s1 := if level == 0 && f.lock != 0 then s.(lockDirs := s.lockDirs - {f.key}) else s;
      (s1.(conns := s.conns[c := f.(lock := level)]), Ok)
  }

  /** lock: leaving level none creates the lock directory; `creates`: the system lets it. */
  function Lock(s: State, c: nat, level: nat, creates: bool): (State, Code)
    requires c in s.conns
  {
    var f := s.conns[c];
    if level <= f.lock then (s, Ok)
    else if f.lock == 0 && f.key in s.lockDirs then (s, Busy)
    else if f.lock == 0 && !creates then (s, IoError)
    else
      var s1 := if f.lock == 0 then s.(lockDirs := s.lockDirs + {f.key}) else s;
      (s1.(conns := s.conns[c := f.(lock := level)]), Ok)
  }

  /** The native calls of the last close of a shared file. */
  function Release(x: Shared): seq<Event> {
    (if x.writable then [Flushed(x.handle)] else []) + [Closed(x.handle)]
    + if x.deleteOnClose then [Deleted(x.handle)] else []
  }

  /** The last connection leaves the entry at `i`. */
  function LeaveLast(s: State, c: nat, i: nat): State
    requires i < |s.handles|
  {
    s.(conns := s.conns - {c}, handles := s.handles[..i] + s.handles[i + 1..], log := s.log + Release(s.handles[i]))
  }

  /** A connection leaves the entry at `i` to the others. */
  function LeaveShared(s: State, c: nat, i: nat): State
    requires i < |s.handles| && s.handles[i].references > 0
  {
    s.(conns := s.conns - {c}, handles := s.handles[i := s.handles[i].(references := s.handles[i].references - 1)])
  }

  /** close's section under the handle mutex. */
  function Detach(s: State, c: nat): State
    requires c in s.conns && At(s.handles, s.conns[c].handle) < |s.handles|
  {
    var i := At(s.handles, s.conns[c].handle);
    if s.handles[i].references <= 1 then LeaveLast(s, c, i) else LeaveShared(s, c, i)
  }

  datatype Step =
    | DoClear(fs: nat, path: string, unlocked: bool)
    | DoOpen(c: nat, fs: nat, path: string, flags: Flags, n: Native)
    | DoDetach(c: nat)
    | DoLock(c: nat, level: nat, creates: bool)
    | DoUnlock(c: nat, level: nat, deletes: bool)

  /** A connection is opened once at a time, used only while open, and unlock lowers its level. */
  ghost predicate Enabled(s: State, a: Step) {
    match a
    case DoClear(_, _, _) => true
    case DoOpen(c, _, _, _, _) => c !in s.conns
    case DoDetach(c) => c in s.conns && At(s.handles, s.conns[c].handle) < |s.handles|
    case DoLock(c, _, _) => c in s.conns
    case DoUnlock(c, level, _) => c in s.conns && level <= s.conns[c].lock
  }

  ghost function Apply(s: State, a: Step): State
    requires Enabled(s, a)
  {
    match a
    case DoClear(fs, path, unlocked) => Clear(s, fs, path, unlocked)
    case DoOpen(c, fs, path, flags, n) => Open(s, c, fs, path, flags, n).0
    case DoDetach(c) => Detach(s, c)
    case DoLock(c, level, creates) => Lock(s, c, level, creates).0
    case DoUnlock(c, level, deletes) => Unlock(s, c, level, deletes).0
  }

  ghost predicate Next(s: State, s': State) { exists a :: Enabled(s, a) && s' == Apply(s, a) }

  ghost predicate Run(run: seq<State>) {
    && |run| > 0
    && run[0] == INITIAL
    && forall i | 0 <= i < |run| - 1 :: Next(run[i], run[i + 1])
  }

  // ---------- invariant ----------

  /** The live connections behind a native handle. */
  function Users(conns: map<nat, Conn>, h: nat): set<nat> { set c | c in conns && conns[c].handle == h }

  function Count(log: seq<Event>, e: Event): nat
    decreases |log|
  {
    if log == [] then 0 else Count(log[..|log| - 1], e) + if log[|log| - 1] == e then 1 else 0
  }

  predicate AskedToDelete(opens: seq<OpenRec>, h: nat) {
    exists i :: 0 <= i < |opens| && opens[i].handle == h && opens[i].deleteOnClose
  }

  /** A reference per live connection, and the delete flag iff some open asked for it. */
  ghost predicate EntryOk(s: State, x: Shared) {
    && x.handle < s.nextHandle
    && x.references == |Users(s.conns, x.handle)|
    && (x.deleteOnClose <==> AskedToDelete(s.opens, x.handle))
  }

  ghost predicate DistinctEntries(handles: seq<Shared>) {
    forall i, j | 0 <= i < j < |handles| ::
      handles[i].handle != handles[j].handle && handles[i].Key() != handles[j].Key()
  }

  /** Every connection stands on an entry of the list, of its own file. */
  ghost predicate ConnOk(s: State, c: nat)
    requires c in s.conns
  {
    var i := At(s.handles, s.conns[c].handle);
    && i < |s.handles|
    && s.handles[i].Key() == s.conns[c].key
    && (!s.conns[c].readOnly ==> s.handles[i].writable)
  }

  /** Each native handle is opened once, and closed once when it has left the list. */
  ghost predicate LogOk(s: State, h: nat) {
    && Count(s.log, Opened(h)) == (if h < s.nextHandle then 1 else 0)
    && Count(s.log, Closed(h)) == if h < s.nextHandle && At(s.handles, h) == |s.handles| then 1 else 0
  }

  /** Everything but that each entry is in use: an entry is added before it is attached. */
  ghost predicate Sound(s: State) {
    && DistinctEntries(s.handles)
    && (forall i | 0 <= i < |s.handles| :: EntryOk(s, s.handles[i]))
    && (forall c | c in s.conns :: ConnOk(s, c))
    && (forall h: nat :: LogOk(s, h))
    && forall i | 0 <= i < |s.opens| :: s.opens[i].handle < s.nextHandle
  }

  ghost predicate Inv(s: State) { Sound(s) && forall i | 0 <= i < |s.handles| :: s.handles[i].references >= 1 }

  // ---------- each step keeps the invariant ----------

  lemma CountConcat(a: seq<Event>, b: seq<Event>, e: Event)
    ensures Count(a + b, e) == Count(a, e) + Count(b, e)
    decreases |b|
  {
    if b == [] {
      assert a + b == a;
    } else {
      assert (a + b)[..|a + b| - 1] == a + b[..|b| - 1];
      CountConcat(a, b[..|b| - 1], e);
    }
  }

  lemma CountOne(x: Event, e: Event)
    ensures Count([x], e) == if x == e then 1 else 0
  {
    assert [x][..0] == [];
  }

  lemma UsersUpdate(conns: map<nat, Conn>, c: nat, x: Conn, h: nat)
    ensures Users(conns[c := x], h) == if x.handle == h then Users(conns, h) + {c} else Users(conns, h) - {c}
  {
  }

  /** Entries with distinct handles are found where they are. */
  lemma AtIs(handles: seq<Shared>, i: nat)
    requires DistinctEntries(handles) && i < |handles|
    ensures At(handles, handles[i].handle) == i
  {
  }

  /** Changing an entry's count or flag moves nothing. */
  lemma {:induction false} AtUpdate(handles: seq<Shared>, i: nat, x: Shared, h: nat)
    requires i < |handles| && x.handle == handles[i].handle
    ensures At(handles[i := x], h) == At(handles, h)
    decreases |handles|
  {
    if handles[0].handle != h {
      if i > 0 {
        assert handles[i := x][1..] == handles[1..][i - 1 := x];
        AtUpdate(handles[1..], i - 1, x, h);
      } else {
        assert handles[i := x][1..] == handles[1..];
      }
    }
  }

  lemma AskedSnoc(opens: seq<OpenRec>, r: OpenRec, h: nat)
    ensures AskedToDelete(opens + [r], h) <==> AskedToDelete(opens, h) || (r.handle == h && r.deleteOnClose)
  {
    if AskedToDelete(opens, h) {
      var i :| 0 <= i < |opens| && opens[i].handle == h && opens[i].deleteOnClose;
      assert (opens + [r])[i] == opens[i];
    }
    assert (opens + [r])[|opens|] == r;
  }

  /** Entries stay distinct when one changes its count or its flag, or leaves. */
  lemma DistinctUpdate(handles: seq<Shared>, i: nat, x: Shared)
    requires DistinctEntries(handles) && i < |handles|
    requires x.handle == handles[i].handle && x.fs == handles[i].fs && x.path == handles[i].path
    ensures DistinctEntries(handles[i := x])
  {
    hide Fold;
    assert x.Key() == handles[i].Key();
  }

  lemma DistinctRemove(handles: seq<Shared>, i: nat)
    requires DistinctEntries(handles) && i < |handles|
    ensures DistinctEntries(handles[..i] + handles[i + 1..])
  {
    var rest := handles[..i] + handles[i + 1..];
    assert forall j | 0 <= j < |rest| :: rest[j] == handles[if j < i then j else j + 1];
    hide Fold, KeyOf;
  }

  /** One more connection: its entry gains a reference and the other entries keep theirs. */
  lemma AttachKeeps(s: State, c: nat, i: nat, flags: Flags)
    requires Sound(s) && c !in s.conns && i < |s.handles|
    requires forall j | 0 <= j < |s.handles| && j != i :: s.handles[j].references >= 1
    ensures Inv(Attach(s, c, i, flags))
  {
    var s' := Attach(s, c, i, flags);
    hide DistinctEntries, EntryOk, ConnOk, LogOk;
    DistinctUpdate(s.handles, i, s'.handles[i]);
    AttachConns(s, c, i, flags);
    AttachLog(s, c, i, flags);
    AttachOpens(s, c, i, flags);
    hide Sound;
    forall j | 0 <= j < |s'.handles| ensures EntryOk(s', s'.handles[j]) && s'.handles[j].references >= 1 {
      AttachEntry(s, c, i, flags, j);
    }
    hide Attach;
    SoundFromParts(s');
  }

  lemma AttachOpens(s: State, c: nat, i: nat, flags: Flags)
    requires Sound(s) && i < |s.handles|
    ensures var s' := Attach(s, c, i, flags); forall j | 0 <= j < |s'.opens| :: s'.opens[j].handle < s'.nextHandle
  {
    hide DistinctEntries, ConnOk, LogOk;
    assert EntryOk(s, s.handles[i]);
  }

  lemma AttachConns(s: State, c: nat, i: nat, flags: Flags)
    requires Sound(s) && c !in s.conns && i < |s.handles|
    ensures forall k | k in Attach(s, c, i, flags).conns :: ConnOk(Attach(s, c, i, flags), k)
  {
    hide Fold, EntryOk, LogOk;
    var s' := Attach(s, c, i, flags);
    AtIs(s.handles, i);
    forall k | k in s'.conns ensures ConnOk(s', k) {
      AtUpdate(s.handles, i, s'.handles[i], s'.conns[k].handle);
      hide At;
      if k != c {
        assert ConnOk(s, k);
      }
    }
  }

  lemma AttachLog(s: State, c: nat, i: nat, flags: Flags)
    requires Sound(s) && i < |s.handles|
    ensures forall h: nat :: LogOk(Attach(s, c, i, flags), h)
  {
    hide Fold, EntryOk, ConnOk, Count;
    var s' := Attach(s, c, i, flags);
    forall h: nat ensures LogOk(s', h) {
      AtUpdate(s.handles, i, s'.handles[i], h);
      hide At;
      assert LogOk(s, h);
    }
  }

  lemma AttachEntry(s: State, c: nat, i: nat, flags: Flags, j: nat)
    requires Sound(s) && c !in s.conns && i < |s.handles| && j < |s.handles|
    requires j != i ==> s.handles[j].references >= 1
    ensures var s' := Attach(s, c, i, flags); EntryOk(s', s'.handles[j]) && s'.handles[j].references >= 1
  {
    var s' := Attach(s, c, i, flags);
    var h := s.handles[j].handle;
    assert EntryOk(s, s.handles[j]);
    UsersUpdate(s.conns, c, s'.conns[c], h);
    AskedSnoc(s.opens, s'.opens[|s.opens|], h);
  }

  /** A new native handle at the head of the list, before anyone is attached to it. */
  lemma AddEntryKeeps(s: State, x: Shared)
    requires Inv(s) && x.handle == s.nextHandle && x.references == 0 && !x.deleteOnClose
    requires forall i | 0 <= i < |s.handles| :: s.handles[i].Key() != x.Key()
    ensures Sound(AddEntry(s, x))
  {
    hide Fold, Count, AskedToDelete, At, Users;
    var s' := AddEntry(s, x);
    assert forall i | 1 <= i < |s'.handles| :: s'.handles[i] == s.handles[i - 1];
    HandlesAreOld(s);
    AddEntryCounts(s, x);
    forall h: nat ensures LogOk(s', h) {
      assert LogOk(s, h);
      AtAdded(s.handles, x, h);
    }
    forall c | c in s.conns ensures ConnOk(s', c) {
      assert ConnOk(s, c);
      AtAdded(s.handles, x, s.conns[c].handle);
    }
    forall i | 0 <= i < |s'.handles| ensures EntryOk(s', s'.handles[i]) {
      if i > 0 {
        assert EntryOk(s, s.handles[i - 1]);
      } else {
        NewHandleIsUnused(s);
      }
    }
  }

  lemma AtAdded(handles: seq<Shared>, x: Shared, h: nat)
    ensures At([x] + handles, h) == if x.handle == h then 0 else 1 + At(handles, h)
  {
    assert ([x] + handles)[1..] == handles;
  }

  lemma HandlesAreOld(s: State)
    requires Inv(s)
    ensures forall i | 0 <= i < |s.handles| :: s.handles[i].handle < s.nextHandle
    ensures forall c | c in s.conns :: s.conns[c].handle < s.nextHandle
  {
    assert forall i | 0 <= i < |s.handles| :: EntryOk(s, s.handles[i]);
    forall c | c in s.conns ensures s.conns[c].handle < s.nextHandle {
      assert ConnOk(s, c);
    }
  }

  lemma NewHandleIsUnused(s: State)
    requires Inv(s)
    ensures Users(s.conns, s.nextHandle) == {} && !AskedToDelete(s.opens, s.nextHandle)
  {
    HandlesAreOld(s);
  }

  lemma AddEntryCounts(s: State, x: Shared)
    ensures forall h: nat :: Count(s.log + [Opened(x.handle)], Opened(h)) ==
              Count(s.log, Opened(h)) + if h == x.handle then 1 else 0
    ensures forall h: nat :: Count(s.log + [Opened(x.handle)], Closed(h)) == Count(s.log, Closed(h))
  {
    assert (s.log + [Opened(x.handle)])[..|s.log|] == s.log;
  }

  lemma AddedBehind(s: State, x: Shared)
    requires forall i | 0 <= i < |s.handles| :: s.handles[i].references >= 1
    ensures |AddEntry(s, x).handles| > 0 && AddEntry(s, x).conns == s.conns
    ensures forall j | 1 <= j < |AddEntry(s, x).handles| :: AddEntry(s, x).handles[j].references >= 1
  {
  }

  lemma OpenNewKeeps(s: State, c: nat, x: Shared, flags: Flags)
    requires Inv(s) && c !in s.conns && x.handle == s.nextHandle && x.references == 0 && !x.deleteOnClose
    requires forall i | 0 <= i < |s.handles| :: s.handles[i].Key() != x.Key()
    ensures Inv(Attach(AddEntry(s, x), c, 0, flags))
  {
    AddEntryKeeps(s, x);
    OthersInUse(s);
    AddedBehind(s, x);
    hide Sound, Inv, AddEntry, Attach;
    AttachKeeps(AddEntry(s, x), c, 0, flags);
  }

  lemma OpenKeeps(s: State, c: nat, fs: nat, path: string, flags: Flags, n: Native)
    requires Inv(s) && c !in s.conns
    ensures Inv(Open(s, c, fs, path, flags, n).0)
  {
    var i := Find(s.handles, KeyOf(fs, path));
    OthersInUse(s);
    hide Fold, Find, Sound, Attach, At, Inv, AddEntry;
    if i < |s.handles| {
      AttachKeeps(s, c, i, flags);
    } else {
      OpenNewKeeps(s, c, Shared(s.nextHandle, fs, path, WantsWritable(flags) && n.opensWritable, 0, false), flags);
    }
  }

  lemma OthersInUse(s: State)
    requires Inv(s)
    ensures Sound(s) && forall i | 0 <= i < |s.handles| :: s.handles[i].references >= 1
  {
    hide Sound;
  }

  lemma DirsDoNotMatter(s: State, dirs: set<Key>)
    requires Inv(s)
    ensures Inv(s.(lockDirs := dirs))
  {
    hide DistinctEntries, Fold, KeyOf, Count, AskedToDelete, At;
    var s' := s.(lockDirs := dirs);
    assert forall i | 0 <= i < |s.handles| :: EntryOk(s, s.handles[i]) ==> EntryOk(s', s.handles[i]);
    assert forall c | c in s.conns :: ConnOk(s, c) ==> ConnOk(s', c);
    assert forall h: nat :: LogOk(s, h) ==> LogOk(s', h);
  }

  lemma UsersRelock(conns: map<nat, Conn>, c: nat, x: Conn)
    requires c in conns && x.handle == conns[c].handle
    ensures forall h: nat :: Users(conns[c := x], h) == Users(conns, h)
  {
  }

  function Relock(s: State, c: nat, level: nat): State
    requires c in s.conns
  {
    s.(conns := s.conns[c := s.conns[c].(lock := level)])
  }

  /** A connection changing its lock level is still the same connection. */
  lemma RelockKeeps(s: State, c: nat, level: nat)
    requires Inv(s) && c in s.conns
    ensures Inv(Relock(s, c, level))
  {
    RelockEntries(s, c, level);
    RelockConns(s, c, level);
    RelockLog(s, c, level);
    hide EntryOk, ConnOk, LogOk, DistinctEntries;
  }

  lemma RelockEntries(s: State, c: nat, level: nat)
    requires Inv(s) && c in s.conns
    ensures forall i | 0 <= i < |s.handles| :: EntryOk(Relock(s, c, level), s.handles[i])
  {
    UsersRelock(s.conns, c, s.conns[c].(lock := level));
    hide Users, AskedToDelete, DistinctEntries, ConnOk, LogOk;
    assert forall i | 0 <= i < |s.handles| :: EntryOk(s, s.handles[i]);
  }

  lemma RelockConns(s: State, c: nat, level: nat)
    requires Inv(s) && c in s.conns
    ensures forall k | k in Relock(s, c, level).conns :: ConnOk(Relock(s, c, level), k)
  {
    hide DistinctEntries, EntryOk, LogOk, At, Fold;
    assert forall k | k in s.conns :: ConnOk(s, k);
  }

  lemma RelockLog(s: State, c: nat, level: nat)
    requires Inv(s) && c in s.conns
    ensures forall h: nat :: LogOk(Relock(s, c, level), h)
  {
    hide DistinctEntries, EntryOk, ConnOk, At, Count;
    forall h: nat ensures LogOk(Relock(s, c, level), h) {
      assert LogOk(s, h);
    }
  }

  lemma LockKeeps(s: State, c: nat, level: nat, ok: bool)
    requires Inv(s) && c in s.conns
    ensures Inv(Lock(s, c, level, ok).0) && Inv(Unlock(s, c, level, ok).0)
  {
    RelockKeeps(s, c, level);
    var s1 := Relock(s, c, level);
    hide Inv;
    DirsDoNotMatter(s1, s.lockDirs + {s.conns[c].key});
    DirsDoNotMatter(s1, s.lockDirs - {s.conns[c].key});
  }

  lemma UsersRemove(conns: map<nat, Conn>, c: nat, h: nat)
    requires c in conns
    ensures Users(conns - {c}, h) == Users(conns, h) - {c}
    ensures conns[c].handle == h ==> |Users(conns - {c}, h)| == |Users(conns, h)| - 1
    ensures conns[c].handle != h ==> Users(conns - {c}, h) == Users(conns, h)
  {
  }

  /** A connection leaves a file that others still use. */
  lemma DetachSharedKeeps(s: State, c: nat)
    requires Inv(s) && c in s.conns && ConnOk(s, c)
    requires s.handles[At(s.handles, s.conns[c].handle)].references > 1
    ensures Inv(Detach(s, c))
  {
    var s' := Detach(s, c);
    var i := At(s.handles, s.conns[c].handle);
    DistinctUpdate(s.handles, i, s'.handles[i]);
    DetachSharedRest(s, c);
    hide DistinctEntries, At, ConnOk, LogOk, EntryOk, Fold, Sound;
    forall j | 0 <= j < |s'.handles| ensures EntryOk(s', s'.handles[j]) && s'.handles[j].references >= 1 {
      DetachEntry(s, c, j);
    }
    SoundFromParts(s');
  }

  lemma SoundFromParts(s: State)
    requires DistinctEntries(s.handles)
    requires forall i | 0 <= i < |s.handles| :: EntryOk(s, s.handles[i]) && s.handles[i].references >= 1
    requires forall c | c in s.conns :: ConnOk(s, c)
    requires forall h: nat :: LogOk(s, h)
    requires forall i | 0 <= i < |s.opens| :: s.opens[i].handle < s.nextHandle
    ensures Inv(s)
  {
    hide DistinctEntries, ConnOk, LogOk, EntryOk;
  }

  lemma DetachSharedRest(s: State, c: nat)
    requires Inv(s) && c in s.conns && ConnOk(s, c)
    requires s.handles[At(s.handles, s.conns[c].handle)].references > 1
    ensures forall k | k in Detach(s, c).conns :: ConnOk(Detach(s, c), k)
    ensures forall h: nat :: LogOk(Detach(s, c), h)
    ensures forall i | 0 <= i < |Detach(s, c).opens| :: Detach(s, c).opens[i].handle < Detach(s, c).nextHandle
  {
    var i := At(s.handles, s.conns[c].handle);
    hide DistinctEntries, EntryOk, Release;
    assert forall j | 0 <= j < |s.opens| :: s.opens[j].handle < s.nextHandle;
    forall k | k in s.conns && k != c ensures ConnOk(LeaveShared(s, c, i), k) {
      assert ConnOk(s, k);
      SharedConn(s, c, i, k);
    }
    forall h: nat ensures LogOk(LeaveShared(s, c, i), h) {
      assert LogOk(s, h);
      SharedLog(s, c, i, h);
    }
    hide ConnOk, LogOk, At, Inv, Sound;
  }

  lemma SharedConn(s: State, c: nat, i: nat, k: nat)
    requires i < |s.handles| && s.handles[i].references > 0 && k in s.conns && k != c && ConnOk(s, k)
    ensures ConnOk(LeaveShared(s, c, i), k)
  {
    hide Fold;
    AtUpdate(s.handles, i, LeaveShared(s, c, i).handles[i], s.conns[k].handle);
    hide At;
  }

  lemma SharedLog(s: State, c: nat, i: nat, h: nat)
    requires i < |s.handles| && s.handles[i].references > 0 && LogOk(s, h)
    ensures LogOk(LeaveShared(s, c, i), h)
  {
    hide Count;
    AtUpdate(s.handles, i, LeaveShared(s, c, i).handles[i], h);
    hide At;
  }

  lemma DetachEntry(s: State, c: nat, j: nat)
    requires Inv(s) && c in s.conns && ConnOk(s, c) && j < |s.handles|
    requires s.handles[At(s.handles, s.conns[c].handle)].references > 1
    ensures var s' := Detach(s, c); EntryOk(s', s'.handles[j]) && s'.handles[j].references >= 1
  {
    hide Fold, AskedToDelete, At;
    assert EntryOk(s, s.handles[j]);
    AtIs(s.handles, j);
    UsersRemove(s.conns, c, s.handles[j].handle);
    hide Users, DistinctEntries;
  }

  /** Where the other entries are once the one at `i` is gone. */
  lemma {:induction false} AtRemoved(handles: seq<Shared>, i: nat, h: nat)
    requires i < |handles| && DistinctEntries(handles)
    ensures var rest := handles[..i] + handles[i + 1..];
            && (h == handles[i].handle ==> At(rest, h) == |rest|)
            && (h != handles[i].handle && At(handles, h) == |handles| ==> At(rest, h) == |rest|)
            && (h != handles[i].handle && At(handles, h) < |handles| ==>
                  At(rest, h) < |rest| && rest[At(rest, h)] == handles[At(handles, h)])
  {
    var rest := handles[..i] + handles[i + 1..];
    var a := At(rest, h);
    var b := At(handles, h);
    hide At, Fold;
    if a < |rest| {
      assert rest[a] == handles[if a < i then a else a + 1];
    }
    if b < |handles| && b != i {
      assert rest[if b < i then b else b - 1] == handles[b];
    }
  }

  /** The last connection leaves: the entry goes, and every other one stays as it was. */
  lemma DetachLastKeeps(s: State, c: nat)
    requires Inv(s) && c in s.conns && ConnOk(s, c)
    requires s.handles[At(s.handles, s.conns[c].handle)].references == 1
    ensures Inv(Detach(s, c))
  {
    var s' := Detach(s, c);
    DetachLastLists(s, c);
    hide *;
    DetachLastConns(s, c);
    forall h: nat ensures LogOk(s', h) {
      DetachLastLog(s, c, h);
    }
    forall j | 0 <= j < |s'.handles| ensures EntryOk(s', s'.handles[j]) && s'.handles[j].references >= 1 {
      DetachLastEntry(s, c, j);
    }
    SoundFromParts(s');
  }

  lemma DetachLastLists(s: State, c: nat)
    requires Inv(s) && c in s.conns && ConnOk(s, c)
    requires s.handles[At(s.handles, s.conns[c].handle)].references == 1
    ensures var s' := Detach(s, c);
            && DistinctEntries(s'.handles)
            && forall j | 0 <= j < |s'.opens| :: s'.opens[j].handle < s'.nextHandle
  {
    hide DistinctEntries, At, LogOk, EntryOk, Release;
    DistinctRemove(s.handles, At(s.handles, s.conns[c].handle));
    hide ConnOk;
  }

  lemma OthersKeepUsers(s: State, c: nat, k: nat)
    requires Inv(s) && c in s.conns && ConnOk(s, c) && k < |s.handles| && k != At(s.handles, s.conns[c].handle)
    ensures Users(s.conns - {c}, s.handles[k].handle) == Users(s.conns, s.handles[k].handle)
  {
    hide Fold, LogOk;
    AtIs(s.handles, k);
    UsersRemove(s.conns, c, s.handles[k].handle);
  }

  lemma DetachLastEntry(s: State, c: nat, j: nat)
    requires Inv(s) && c in s.conns && ConnOk(s, c)
    requires s.handles[At(s.handles, s.conns[c].handle)].references == 1 && j < |Detach(s, c).handles|
    ensures EntryOk(Detach(s, c), Detach(s, c).handles[j]) && Detach(s, c).handles[j].references >= 1
  {
    hide DistinctEntries, At, AskedToDelete, Fold, Users, Release, LogOk;
    var i := At(s.handles, s.conns[c].handle);
    assert i < |s.handles|;
    hide ConnOk;
    var k := if j < i then j else j + 1;
    assert EntryOk(s, s.handles[k]);
    OthersKeepUsers(s, c, k);
  }

  lemma DetachLastConns(s: State, c: nat)
    requires Inv(s) && c in s.conns && ConnOk(s, c)
    requires s.handles[At(s.handles, s.conns[c].handle)].references == 1
    ensures forall k | k in Detach(s, c).conns :: ConnOk(Detach(s, c), k)
  {
    var i := At(s.handles, s.conns[c].handle);
    assert EntryOk(s, s.handles[i]);
    OnlyUser(s.conns, c, s.handles[i].handle);
    assert DistinctEntries(s.handles);
    hide At, Users, EntryOk;
    forall k | k in s.conns && k != c ensures ConnOk(LeaveLast(s, c, i), k) {
      assert ConnOk(s, k);
      hide Sound, ConnOk;
      LeaveLastConn(s, c, i, k);
    }
    hide Inv, ConnOk, Release;
  }

  lemma LeaveLastConn(s: State, c: nat, i: nat, k: nat)
    requires DistinctEntries(s.handles) && i < |s.handles| && k in s.conns && k != c && ConnOk(s, k)
    requires s.conns[k].handle != s.handles[i].handle
    ensures ConnOk(LeaveLast(s, c, i), k)
  {
    AtRemoved(s.handles, i, s.conns[k].handle);
    hide At, Release, Fold, DistinctEntries;
  }

  lemma OnlyUser(conns: map<nat, Conn>, c: nat, h: nat)
    requires c in conns && conns[c].handle == h && |Users(conns, h)| == 1
    ensures forall k | k in conns && k != c :: conns[k].handle != h
  {
    assert Users(conns, h) - {c} == {} by {
      assert |Users(conns, h) - {c}| == 0;
    }
    forall k | k in conns && k != c ensures conns[k].handle != h {
      assert k !in Users(conns, h) - {c};
    }
  }

  lemma DetachLastLog(s: State, c: nat, h: nat)
    requires Inv(s) && c in s.conns && ConnOk(s, c)
    requires s.handles[At(s.handles, s.conns[c].handle)].references == 1
    ensures LogOk(Detach(s, c), h)
  {
    hide Fold, AskedToDelete, At, Count, Release, Users;
    var i := At(s.handles, s.conns[c].handle);
    var x := s.handles[i];
    assert LogOk(s, h) && EntryOk(s, x);
    AtRemoved(s.handles, i, h);
    CountConcat(s.log, Release(x), Opened(h));
    CountConcat(s.log, Release(x), Closed(h));
    ReleaseCounts(x, h);
  }

  /** The last close flushes a writable handle, closes it once and opens nothing. */
  lemma ReleaseCounts(x: Shared, h: nat)
    ensures Count(Release(x), Opened(h)) == 0
    ensures Count(Release(x), Closed(h)) == if h == x.handle then 1 else 0
  {
    var flush := if x.writable then [Flushed(x.handle)] else [];
    var delete := if x.deleteOnClose then [Deleted(x.handle)] else [];
    CountConcat(flush + [Closed(x.handle)], delete, Opened(h));
    CountConcat(flush + [Closed(x.handle)], delete, Closed(h));
    CountConcat(flush, [Closed(x.handle)], Opened(h));
    CountConcat(flush, [Closed(x.handle)], Closed(h));
    CountOne(Flushed(x.handle), Opened(h));
    CountOne(Flushed(x.handle), Closed(h));
    CountOne(Closed(x.handle), Opened(h));
    CountOne(Closed(x.handle), Closed(h));
    CountOne(Deleted(x.handle), Opened(h));
    CountOne(Deleted(x.handle), Closed(h));
  }

  lemma DetachKeeps(s: State, c: nat)
    requires Inv(s) && Enabled(s, DoDetach(c))
    ensures Inv(Detach(s, c))
  {
    assert ConnOk(s, c);
    OthersInUse(s);
    hide Sound;
    if s.handles[At(s.handles, s.conns[c].handle)].references > 1 {
      DetachSharedKeeps(s, c);
    } else {
      DetachLastKeeps(s, c);
    }
  }

  lemma StepKeepsInv(s: State, a: Step)
    requires Inv(s) && Enabled(s, a)
    ensures Inv(Apply(s, a))
  {
    hide Inv, Open, Detach, Lock, Unlock;
    match a
    case DoClear(fs, path, unlocked) => DirsDoNotMatter(s, s.lockDirs - {KeyOf(fs, path)});
    case DoOpen(c, fs, path, flags, n) => OpenKeeps(s, c, fs, path, flags, n);
    case DoDetach(c) => DetachKeeps(s, c);
    case DoLock(c, level, creates) => LockKeeps(s, c, level, creates);
    case DoUnlock(c, level, deletes) => LockKeeps(s, c, level, deletes);
  }

  lemma {:induction false} InvOnRun(run: seq<State>, i: nat)
    requires Run(run) && i < |run|
    ensures Inv(run[i])
  {
    if i > 0 {
      InvOnRun(run, i - 1);
      assert Next(run[i - 1], run[i - 1 + 1]);
      var a :| Enabled(run[i - 1], a) && run[i] == Apply(run[i - 1], a);
      hide Inv, Apply, Enabled;
      StepKeepsInv(run[i - 1], a);
    }
  }
}
