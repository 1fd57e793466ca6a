/**
 The shader blob cache over whole runs: RAM cache, pending batch and database together answer
 every run of operations as one hash-keyed map does, and a stored value stays readable.
 */
module GpuBlobMap {
  import opened Sequences
  import opened GpuBlobCache
  import RC = BlobReadCache

  /** One map, and the keys that were used. */
  datatype Table = Table(rows: map<Hash, Row>, used: seq<Hash>)

  function TableOf(s: State): Table { Table(Contents(s), s.used) }

  /** Whether the row's size is one that RAM may hold; it depends on nothing else of RAM. */
  function SizeFits(limits: RC.Cache, key: seq<byte>, rows: map<Hash, Row>, hash: Hash): bool {
    hash in rows && rows[hash].size > 0 && RC.Accepts(limits, |key|, rows[hash].size)
  }

  /** What one map does: loads read it, stores set one row, prunes keep the used rows. */
  function TableStep(codec: Codec, limits: RC.Cache, t: Table, op: Op): (Table, Reply) {
    match op
    case LoadOp(key, out, _) =>
      var hash := codec.hash(key);
      var (reply, uses) := MapReply(codec, t.rows, SizeFits(limits, key, t.rows, hash), hash, out);
      (t.(used := if uses then t.used + [hash] else t.used), reply)
    case StoreOp(key, value, compress, _, _) =>
      var hash := codec.hash(key);
      (Table(t.rows[hash := RowOf(codec, value, compress)], t.used + [hash]), SILENT)
    case FlushOp(_) => (t, SILENT)
    case PruneOp(_, _) =>
      (t.(rows := if t.used == [] then t.rows else map h | h in t.rows && h in t.used :: t.rows[h]), SILENT)
  }

  function TableReplies(codec: Codec, limits: RC.Cache, t: Table, ops: seq<Op>): seq<Reply>
    decreases |ops|
  {
    if ops == [] then []
    else
      var (t', reply) := TableStep(codec, limits, t, ops[0]);
      [reply] + TableReplies(codec, limits, t', ops[1..])
  }

  ghost predicate Ready(codec: Codec, s: State) { Coherent(codec, s) && s.open }

  predicate SameLimits(a: RC.Cache, b: RC.Cache) { a.budget == b.budget && a.limit == b.limit }

  // ---------- one step ----------

  lemma LoadIsTableStep(codec: Codec, s: State, op: Op)
    requires Ready(codec, s) && op.LoadOp?
    ensures (TableOf(Step(codec, s, op).0), Step(codec, s, op).1) == TableStep(codec, s.ram, TableOf(s), op)
  {
    hide Coherent, Load, MapReply, RC.Accepts;
    assert Open(s, op.initOk) == s;
    LoadReadsMap(codec, s, op.key, op.out, op.initOk);
  }

  lemma StoreIsTableStep(codec: Codec, s: State, op: Op)
    requires Ready(codec, s) && op.StoreOp? && op.flushOk
    ensures (TableOf(Step(codec, s, op).0), Step(codec, s, op).1) == TableStep(codec, s.ram, TableOf(s), op)
  {
    hide Coherent, Store;
    assert Open(s, op.initOk) == s;
    StoreWritesMap(codec, s, op.key, op.value, op.compress, op.initOk);
  }

  lemma PruneIsTableStep(codec: Codec, s: State, op: Op)
    requires Ready(codec, s) && op.PruneOp? && op.flushOk
    ensures (TableOf(Step(codec, s, op).0), Step(codec, s, op).1) == TableStep(codec, s.ram, TableOf(s), op)
  {
    PruneKeepsUsed(codec, s, op.initOk);
    var s' := Prune(s, op.initOk, true);
    assert s'.used == s.used;
    hide Coherent, Prune, Contents;
    assert Contents(s') == TableStep(codec, s.ram, TableOf(s), op).0.rows;
  }

  lemma FlushIsTableStep(codec: Codec, s: State, op: Op)
    requires Ready(codec, s) && op.FlushOp? && op.flushOk
    ensures (TableOf(Step(codec, s, op).0), Step(codec, s, op).1) == TableStep(codec, s.ram, TableOf(s), op)
  {
    FlushKeepsMap(codec, s);
    hide Coherent, Contents;
  }

  lemma StepIsTableStep(codec: Codec, s: State, op: Op)
    requires Ready(codec, s) && NoFailedFlush(op)
    ensures (TableOf(Step(codec, s, op).0), Step(codec, s, op).1) == TableStep(codec, s.ram, TableOf(s), op)
  {
    hide Step, TableStep, Coherent;
    match op
    case LoadOp(_, _, _) => LoadIsTableStep(codec, s, op);
    case StoreOp(_, _, _, _, _) => StoreIsTableStep(codec, s, op);
    case FlushOp(_) => FlushIsTableStep(codec, s, op);
    case PruneOp(_, _) => PruneIsTableStep(codec, s, op);
  }

  lemma StaysReady(codec: Codec, s: State, op: Op)
    requires Ready(codec, s) && NoFailedFlush(op)
    ensures Ready(codec, Step(codec, s, op).0)
  {
    LimitsStay(codec, s, op);
    hide Step, Coherent;
    StepKeepsCoherent(codec, s, op);
  }

  lemma LimitsStay(codec: Codec, s: State, op: Op)
    requires Ready(codec, s)
    ensures SameLimits(Step(codec, s, op).0.ram, s.ram) && Step(codec, s, op).0.open
  {
    hide Load, Store, Prune;
    match op
    case LoadOp(key, out, initOk) => LoadKeepsLimits(codec, s, key, out, initOk);
    case StoreOp(key, value, compress, initOk, flushOk) =>
      StoreKeepsLimits(codec, s, key, value, compress, initOk, flushOk);
    case FlushOp(_) =>
    case PruneOp(initOk, flushOk) => PruneKeepsLimits(s, initOk, flushOk);
  }

  lemma LoadKeepsLimits(codec: Codec, s: State, key: seq<byte>, out: Option<nat>, initOk: bool)
    requires Ready(codec, s)
    ensures var s' := Load(codec, s, key, out, initOk).0; SameLimits(s'.ram, s.ram) && s'.open
  {
    var hash := codec.hash(key);
    hide RC.FindIndex, RC.ToFront, LoadBelow, Coherent;
    BelowKeepsLimits(codec, s, hash, key, out);
  }

  lemma BelowKeepsLimits(codec: Codec, s: State, hash: Hash, key: seq<byte>, out: Option<nat>)
    requires Ready(codec, s)
    ensures var s' := LoadBelow(codec, s, hash, key, out).0; SameLimits(s'.ram, s.ram) && s'.open
  {
    hide FindPending, FindRow, LoadRow, RC.Sound;
    var waiting, row := FindPending(s.pending, hash), FindRow(s.db, hash);
    FoundIsPending(s.pending, hash);
    if waiting.Some? {
      LoadRowIs(codec, s, hash, key, waiting.value, out);
    } else if row.Some? && row.value.size > 0 {
      LoadRowIs(codec, s, hash, key, row.value, out);
    }
  }

  lemma StoreKeepsLimits(codec: Codec, s: State, key: seq<byte>, value: seq<byte>, compress: bool, initOk: bool,
                         flushOk: bool)
    requires s.open
    ensures var s' := Store(codec, s, key, value, compress, initOk, flushOk); SameLimits(s'.ram, s.ram) && s'.open
  {
    hide RC.Without, Fold, PendingBytes, RowOf;
  }

  lemma PruneKeepsLimits(s: State, initOk: bool, flushOk: bool)
    requires s.open
    ensures var s' := Prune(s, initOk, flushOk); SameLimits(s'.ram, s.ram) && s'.open
  {
    hide Fold;
  }

  lemma SameLimitsSameStep(codec: Codec, a: RC.Cache, b: RC.Cache, t: Table, op: Op)
    requires SameLimits(a, b)
    ensures TableStep(codec, a, t, op) == TableStep(codec, b, t, op)
  {
    hide MapReply;
  }

  // ---------- whole runs ----------

  /** Over any run of loads, stores, successful flushes and prunes on an open cache the three
      layers answer exactly what one hash-keyed map answers. */
  lemma {:induction false} RunIsOneMap(codec: Codec, limits: RC.Cache, s: State, ops: seq<Op>)
    requires Ready(codec, s) && SameLimits(limits, s.ram)
    requires forall i | 0 <= i < |ops| :: NoFailedFlush(ops[i])
    ensures Replies(codec, s, ops) == TableReplies(codec, limits, TableOf(s), ops)
    decreases |ops|
  {
    if ops != [] {
      var op := ops[0];
      StepIsTableStep(codec, s, op);
      StaysReady(codec, s, op);
      LimitsStay(codec, s, op);
      SameLimitsSameStep(codec, limits, s.ram, TableOf(s), op);
      hide Step, TableStep, Coherent, TableOf;
      RunIsOneMap(codec, limits, Step(codec, s, op).0, ops[1..]);
    }
  }

  ghost function After(codec: Codec, s: State, ops: seq<Op>): State
    requires Ready(codec, s) && forall i | 0 <= i < |ops| :: NoFailedFlush(ops[i])
    ensures Ready(codec, After(codec, s, ops))
    decreases |ops|
  {
    if ops == [] then s
    else
      StaysReady(codec, s, ops[0]);
      After(codec, Step(codec, s, ops[0]).0, ops[1..])
  }

  /** A row stays in the map as long as its key is used and nobody stores under its hash. */
  lemma {:induction false} RowStays(codec: Codec, s: State, ops: seq<Op>, hash: Hash, row: Row)
    requires Ready(codec, s) && forall i | 0 <= i < |ops| :: NoFailedFlush(ops[i])
    requires forall i | 0 <= i < |ops| :: ops[i].StoreOp? ==> codec.hash(ops[i].key) != hash
    requires hash in Contents(s) && Contents(s)[hash] == row && hash in s.used
    ensures var s' := After(codec, s, ops); hash in Contents(s') && Contents(s')[hash] == row && hash in s'.used
    decreases |ops|
  {
    if ops != [] {
      var s1 := Step(codec, s, ops[0]).0;
      StepIsTableStep(codec, s, ops[0]);
      StaysReady(codec, s, ops[0]);
      hide Step, Coherent, Contents, MapReply, RowOf, SizeFits;
      assert hash in Contents(s1) && Contents(s1)[hash] == row && hash in s1.used;
      RowStays(codec, s1, ops[1..], hash, row);
    }
  }

  /** Read your writes: a non-empty value that was stored is what its key loads after any further
      loads, flushes, prunes and stores under other hashes, for every buffer size. */
  lemma ReadYourWrites(codec: Codec, s: State, key: seq<byte>, value: seq<byte>, compress: bool, ops: seq<Op>,
                       out: Option<nat>)
    requires Ready(codec, s) && Lossless(codec, value) && |value| > 0
    requires forall i | 0 <= i < |ops| :: NoFailedFlush(ops[i])
    requires forall i | 0 <= i < |ops| :: ops[i].StoreOp? ==> codec.hash(ops[i].key) != codec.hash(key)
    ensures var stored := Step(codec, s, StoreOp(key, value, compress, true, true)).0;
            && Ready(codec, stored)
            && Step(codec, After(codec, stored, ops), LoadOp(key, out, true)).1
               == Reply(|value|, if out == Some(|value|) then Copied(value) else Untouched)
  {
    var store, load := StoreOp(key, value, compress, true, true), LoadOp(key, out, true);
    var hash, row := codec.hash(key), RowOf(codec, value, compress);
    RowDecodes(codec, value, compress);
    StaysReady(codec, s, store);
    hide Ready, Step, RowOf, Decode, Lossless, Contents;
    StoredRow(codec, s, key, value, compress);
    var stored := Step(codec, s, store).0;
    RowStays(codec, stored, ops, hash, row);
    LoadsRow(codec, After(codec, stored, ops), key, out, row, value);
  }

  lemma RowDecodes(codec: Codec, value: seq<byte>, compress: bool)
    requires Lossless(codec, value) && |value| > 0
    ensures RowOf(codec, value, compress).size == |value|
    ensures Decode(codec, RowOf(codec, value, compress)) == Some(value)
  {
  }

  lemma StoredRow(codec: Codec, s: State, key: seq<byte>, value: seq<byte>, compress: bool)
    requires Ready(codec, s)
    ensures var stored, hash := Step(codec, s, StoreOp(key, value, compress, true, true)).0, codec.hash(key);
            && hash in Contents(stored) && Contents(stored)[hash] == RowOf(codec, value, compress)
            && hash in stored.used
  {
    StepIsTableStep(codec, s, StoreOp(key, value, compress, true, true));
    hide Ready, Step, Contents, RowOf;
    assert TableOf(Step(codec, s, StoreOp(key, value, compress, true, true)).0).used == s.used + [codec.hash(key)];
  }

  lemma LoadsRow(codec: Codec, s: State, key: seq<byte>, out: Option<nat>, row: Row, value: seq<byte>)
    requires Ready(codec, s) && codec.hash(key) in Contents(s) && Contents(s)[codec.hash(key)] == row
    requires row.size == |value| > 0 && Decode(codec, row) == Some(value)
    ensures Step(codec, s, LoadOp(key, out, true)).1 == Answer(value, out)
  {
    StepIsTableStep(codec, s, LoadOp(key, out, true));
    hide Ready, Step, Contents, Decode;
  }
}
