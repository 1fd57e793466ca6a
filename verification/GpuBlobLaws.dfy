/**
 The shader blob cache as its callers see it: when it opens, what reading a stored value gives,
 which keys count as used, when a batch is written out and what stays in RAM.
 */
module GpuBlobLaws {
  import opened Sequences
  import opened GpuBlobCache
  import opened GpuBlobMap
  import RC = BlobReadCache

  // ---------- opening ----------

  /** Whether a first opening during this call succeeds. */
  predicate InitOk(op: Op) {
    match op
    case LoadOp(_, _, initOk) => initOk
    case StoreOp(_, _, _, initOk, _) => initOk
    case FlushOp(_) => false
    case PruneOp(initOk, _) => initOk
  }

  /** Loads, stores and prunes open the cache unless an opening has failed before; one failure
      breaks it for good, and a flush opens nothing. */
  lemma OpensExactlyWhen(codec: Codec, s: State, op: Op)
    requires forall w | w in s.pending :: w.row.size >= 0
    ensures var s' := Step(codec, s, op).0;
            && (s'.open <==> s.open || (!s.broken && InitOk(op)))
            && (s'.broken <==> s.broken || (!op.FlushOp? && !s.open && !InitOk(op)))
  {
    hide RC.Fill, RC.Find, Decode, Fold, PendingBytes;
    FoundIsPending(s.pending, codec.hash(if op.LoadOp? then op.key else []));
  }

  /** An opening that fails empties RAM, and so does a prune. */
  lemma FailureEmptiesRam(codec: Codec, s: State, op: Op)
    requires forall w | w in s.pending :: w.row.size >= 0
    requires (!s.broken && Step(codec, s, op).0.broken) || op.PruneOp?
    ensures Step(codec, s, op).0.ram.entries == []
  {
    OpensExactlyWhen(codec, s, op);
    hide RC.Fill, RC.Find, Decode, Fold, PendingBytes, LoadBelow;
  }

  /** A cache that does not open answers nothing and keeps what it has. */
  lemma ClosedDoesNothing(codec: Codec, s: State, op: Op)
    requires (forall w | w in s.pending :: w.row.size >= 0) && (s.pending != [] ==> s.open)
    requires !Step(codec, s, op).0.open
    ensures var (s', reply) := Step(codec, s, op);
            reply == Reply(0, Untouched) && s'.pending == s.pending && s'.db == s.db && s'.used == s.used
  {
    OpensExactlyWhen(codec, s, op);
    hide RC.Fill, RC.Find, Decode, Fold, PendingBytes, LoadBelow;
  }

  // ---------- reading what was stored ----------

  lemma OpenedTwin(codec: Codec, s: State)
    requires Coherent(codec, s) && !s.open
    ensures Ready(codec, s.(open := true))
  {
    var s1 := s.(open := true);
    assert s.pending == [] && s.ram.entries == [];
  }

  /** From a cache that can be opened: after storing a non-empty value its key reads that value
      into a buffer of its size, and its size with any other or none, whatever loads, flushes,
      prunes and stores under other hashes come between. */
  lemma ReadsWhatWasStored(codec: Codec, s: State, key: seq<byte>, value: seq<byte>, compress: bool, ops: seq<Op>,
                           out: Option<nat>)
    requires Coherent(codec, s) && (s.open || !s.broken) && Lossless(codec, value) && |value| > 0
    requires forall i | 0 <= i < |ops| :: NoFailedFlush(ops[i])
    requires forall i | 0 <= i < |ops| :: ops[i].StoreOp? ==> codec.hash(ops[i].key) != codec.hash(key)
    ensures var stored := Step(codec, s, StoreOp(key, value, compress, true, true)).0;
            && Ready(codec, stored)
            && Step(codec, After(codec, stored, ops), LoadOp(key, out, true)).1
               == Reply(|value|, if out == Some(|value|) then Copied(value) else Untouched)
  {
    var s1 := s.(open := true);
    if !s.open {
      OpenedTwin(codec, s);
      SameStore(codec, s, key, value, compress);
    } else {
      assert s1 == s;
    }
    hide Coherent, Step, Lossless;
    ReadYourWrites(codec, s1, key, value, compress, ops, out);
  }

  lemma SameStore(codec: Codec, s: State, key: seq<byte>, value: seq<byte>, compress: bool)
    requires Coherent(codec, s) && !s.open && !s.broken
    ensures Step(codec, s, StoreOp(key, value, compress, true, true))
            == Step(codec, s.(open := true), StoreOp(key, value, compress, true, true))
  {
    hide Coherent, AppendWrite, CommitIfFull, RowOf;
  }

  // ---------- which keys are used ----------

  /** A key is used when its value was stored or copied out, and only then. */
  lemma UsedExactly(codec: Codec, s: State, op: Op)
    requires Ready(codec, s) && NoFailedFlush(op)
    ensures var (s', reply) := Step(codec, s, op);
            s'.used == s.used + if op.StoreOp? || (op.LoadOp? && reply.output.Copied?)
                                then [codec.hash(op.key)] else []
  {
    StepIsTableStep(codec, s, op);
    if op.LoadOp? {
      var hash := codec.hash(op.key);
      CopiedIsUse(codec, Contents(s), SizeFits(s.ram, op.key, Contents(s), hash), hash, op.out);
    }
    hide Step, Ready, MapReply, RowOf, Contents, SizeFits;
  }

  lemma CopiedIsUse(codec: Codec, m: map<Hash, Row>, accepts: bool, hash: Hash, out: Option<nat>)
    ensures var (reply, uses) := MapReply(codec, m, accepts, hash, out); uses <==> reply.output.Copied?
  {
    hide Decode;
  }

  // ---------- the batch ----------

  /** Fewer than 64 writes and less than 4 MiB are ever left in the batch. */
  lemma BatchIsBounded(codec: Codec, s: State)
    requires Coherent(codec, s)
    ensures |s.pending| < 64 && PendingBytes(s.pending) < 0x40_0000
  {
    hide PendingBytes;
  }

  lemma BytesOfBatch(pending: seq<PendingWrite>, w: PendingWrite)
    ensures PendingBytes([]) == 0 && PendingBytes(pending + [w]) == PendingBytes(pending) + |w.row.stored|
  {
    PendingBytesAppend(pending, w);
  }

  /** A store leaves its write in the batch, unless that makes 64 of them or 4 MiB; then, and only
      then, the whole batch goes to the database. */
  lemma StoreWritesOutExactlyWhenFull(codec: Codec, s: State, key: seq<byte>, value: seq<byte>, compress: bool)
    requires Ready(codec, s)
    ensures var s' := Step(codec, s, StoreOp(key, value, compress, true, true)).0;
            var row := Row(if compress then codec.deflate(value) else value, |value|, compress);
            var hash := codec.hash(key);
            if |s.pending| + 1 >= 64 || PendingBytes(s.pending) + |row.stored| >= 0x40_0000 then
              s'.pending == [] && s'.db == Contents(s)[hash := row]
            else
              s'.pending == s.pending + [PendingWrite(hash, row)] && s'.db == s.db
  {
    var row := RowOf(codec, value, compress);
    var w := PendingWrite(codec.hash(key), row);
    PendingBytesAppend(s.pending, w);
    FoldAppend(s.pending, s.db, w);
    hide PendingBytes, Fold, Coherent, RC.Invalidate;
  }

  // ---------- RAM ----------

  /** Loading a value that RAM may hold, but did not, leaves it first in RAM. */
  lemma LoadedIsCached(codec: Codec, s: State, key: seq<byte>, out: Option<nat>)
    requires Ready(codec, s) && codec.hash(key) in Contents(s)
    requires var row := Contents(s)[codec.hash(key)];
             && row.size > 0 && Decode(codec, row).Some? && (out.None? || out == Some(row.size))
             && s.ram.limit > 0 && |key| + row.size <= s.ram.budget
    ensures var s', data := Step(codec, s, LoadOp(key, out, true)).0, Decode(codec, Contents(s)[codec.hash(key)]).value;
            s'.ram.entries != [] && s'.ram.entries[0] == RC.Entry(codec.hash(key), key, data)
  {
    var hash, row := codec.hash(key), Contents(s)[codec.hash(key)];
    LookupIsFold(s.pending, s.db, hash);
    FoundIsPending(s.pending, hash);
    RC.FindKeepsSound(s.ram, hash, key);
    var (ram, cached) := RC.Find(s.ram, hash, key);
    if cached.Some? {
      assert Backed(codec, s, RC.Entry(hash, key, cached.value));
      FoundFirst(s.ram, hash, key);
    } else {
      RC.FilledIsFound(s.ram, hash, key, row.size, Decode(codec, row));
    }
  }

  /** A row that does not decode leaves nothing of its hash in RAM. */
  lemma UndecodedIsNotCached(codec: Codec, s: State, key: seq<byte>, out: Option<nat>)
    requires Ready(codec, s) && codec.hash(key) in Contents(s)
    requires var row := Contents(s)[codec.hash(key)];
             && row.size > 0 && Decode(codec, row).None? && (out.None? || out == Some(row.size))
             && s.ram.limit > 0 && |key| + row.size <= s.ram.budget
    ensures var s', reply := Step(codec, s, LoadOp(key, out, true)).0, Step(codec, s, LoadOp(key, out, true)).1;
            reply == Reply(0, Untouched) && forall e | e in s'.ram.entries :: e.hash != codec.hash(key)
  {
    var hash, row := codec.hash(key), Contents(s)[codec.hash(key)];
    LookupIsFold(s.pending, s.db, hash);
    FoundIsPending(s.pending, hash);
    RC.FindKeepsSound(s.ram, hash, key);
    var cached := RC.Find(s.ram, hash, key).1;
    assert forall e | e in s.ram.entries :: Backed(codec, s, e);
    assert cached.None?;
    RC.FillKeepsSound(s.ram, hash, key, row.size, None);
  }

  lemma FoundFirst(c: RC.Cache, hash: Hash, key: seq<byte>)
    requires RC.Find(c, hash, key).1.Some?
    ensures var (c', data) := RC.Find(c, hash, key);
            c'.entries != [] && c'.entries[0] == RC.Entry(hash, key, data.value)
  {
  }
}
