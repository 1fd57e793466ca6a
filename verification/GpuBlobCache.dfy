/**
 The shader blob cache (switch/patches/aurora-switch-blob-cache-batch.patch): a decoded
 read cache in RAM over a batch of pending writes over the database. Hashing, compression
 and the database engine are parameters; nothing assumes that hashes are injective.
 */
module GpuBlobCache {
  import opened Sequences
  import RC = BlobReadCache

  type Hash = RC.Hash

  const MAX_PENDING_WRITES: nat := 64
  const MAX_PENDING_BYTES: nat := 0x40_0000

  /** XXH128 and the two halves of zstd; `inflate` takes the size of the output. */
  datatype Codec = Codec(
    hash: seq<byte> -> Hash,
    deflate: seq<byte> -> seq<byte>,
    inflate: (seq<byte>, nat) -> Option<seq<byte>>)

  /** What storing a value needs of the compressor: the value comes back from its own image. */
  ghost predicate Lossless(codec: Codec, v: seq<byte>) {
    |codec.deflate(v)| > 0 && codec.inflate(codec.deflate(v), |v|) == Some(v)
  }

  datatype Row = Row(stored: seq<byte>, size: int, compressed: bool)

  datatype PendingWrite = PendingWrite(key: Hash, row: Row)

  datatype State = State(
    ram: RC.Cache, pending: seq<PendingWrite>, db: map<Hash, Row>, used: seq<Hash>, open: bool, broken: bool)

  /** What a caller sees of its output buffer; decoding straight into it can leave garbage. */
  datatype Output = Untouched | Copied(data: seq<byte>) | Garbled

  datatype Reply = Reply(size: nat, output: Output)

  // ---------- lookup below the RAM cache ----------

  /** find_pending_write: the most recent write wins. */
  function FindPending(pending: seq<PendingWrite>, hash: Hash): Option<Row> {
    if pending == [] then None
    else if pending[|pending| - 1].key == hash then Some(pending[|pending| - 1].row)
    else FindPending(pending[..|pending| - 1], hash)
  }

  function FindRow(db: map<Hash, Row>, hash: Hash): Option<Row> { if hash in db then Some(db[hash]) else None }

  function Lookup(pending: seq<PendingWrite>, db: map<Hash, Row>, hash: Hash): Option<Row> {
    match FindPending(pending, hash)
    case Some(row) => Some(row)
    case None => FindRow(db, hash)
  }

  /** The batched transaction: one upsert per pending write, in order. */
  function Fold(pending: seq<PendingWrite>, db: map<Hash, Row>): map<Hash, Row> {
    if pending == [] then db
    else Fold(pending[..|pending| - 1], db)[pending[|pending| - 1].key := pending[|pending| - 1].row]
  }

  /** Looking in the batch from the back and then in the database is looking in the database
      after the batch has been committed. */
  lemma {:induction false} LookupIsFold(pending: seq<PendingWrite>, db: map<Hash, Row>, hash: Hash)
    ensures Lookup(pending, db, hash) == FindRow(Fold(pending, db), hash)
  {
    if pending != [] {
      LookupIsFold(pending[..|pending| - 1], db, hash);
    }
  }

  /** decode_blob into `row.size` bytes. */
  function Decode(codec: Codec, row: Row): (r: Option<seq<byte>>)
    requires row.size > 0
    ensures r.Some? ==> |r.value| == row.size
  {
    if |row.stored| == 0 then None
    else if !row.compressed then (if |row.stored| == row.size then Some(row.stored) else None)
    else
      match codec.inflate(row.stored, row.size)
      case Some(data) => if |data| == row.size then Some(data) else None
      case None => None
  }

  // ---------- operations ----------

  /** cache_init; `ok` is whether a first opening, with one rebuild, succeeds. */
  function Open(s: State, ok: bool): State {
    if s.broken || s.open then s
    else if ok then s.(open := true)
    else s.(broken := true, ram := RC.Clear(s.ram))
  }

  function Copy(s: State, hash: Hash, data: seq<byte>, out: Option<nat>): (State, Reply) {
    if out == Some(|data|) then (s.(used := s.used + [hash]), Reply(|data|, Copied(data)))
    else (s, Reply(|data|, Untouched))
  }

  /** The lambda `load`. */
  function LoadRow(codec: Codec, s: State, hash: Hash, key: seq<byte>, row: Row, out: Option<nat>): (State, Reply)
    requires row.size >= 0
  {
    if row.size == 0 then (s, Reply(0, Untouched))
    else if out.Some? && out.value != row.size then (s, Reply(row.size, Untouched))
    else if RC.Accepts(s.ram, |key|, row.size) then
      var (ram, filled) := RC.Fill(s.ram, hash, key, row.size, Decode(codec, row));
      match filled
      case None => (s.(ram := ram), Reply(0, Untouched))
      case Some(data) => Copy(s.(ram := ram), hash, data, out)
    else if out.Some? then
      match Decode(codec, row)
      case None => (s, Reply(0, Garbled))
      case Some(data) => (s.(used := s.used + [hash]), Reply(row.size, Copied(data)))
    else (s, Reply(row.size, Untouched))
  }

  /** The part of load_blob_locked below the RAM cache. */
  function LoadBelow(codec: Codec, s: State, hash: Hash, key: seq<byte>, out: Option<nat>): (State, Reply)
    requires forall w | w in s.pending :: w.row.size >= 0
  {
    match FindPending(s.pending, hash)
    case Some(row) =>
      FoundIsPending(s.pending, hash);
      LoadRow(codec, s, hash, key, row, out)
    case None =>
      match FindRow(s.db, hash)
      case None => (s, Reply(0, Untouched))
      case Some(row) =>
        if row.size <= 0 then (s, Reply(0, Untouched))
        else if (out.Some? && out.value != row.size) || (out.None? && !RC.Accepts(s.ram, |key|, row.size)) then
          (s, Reply(row.size, Untouched))
        else LoadRow(codec, s, hash, key, row, out)
  }

  lemma {:induction false} FoundIsPending(pending: seq<PendingWrite>, hash: Hash)
    ensures FindPending(pending, hash).Some? ==>
              exists w :: w in pending && w.key == hash && w.row == FindPending(pending, hash).value
  {
    if pending != [] {
      var front := pending[..|pending| - 1];
      FoundIsPending(front, hash);
      if pending[|pending| - 1].key != hash && FindPending(front, hash).Some? {
        var w :| w in front && w.key == hash && w.row == FindPending(front, hash).value;
        assert w in pending;
      }
    }
  }

  /** load_from_cache: `out` is the size of the caller's buffer, None for a size query. */
  function Load(codec: Codec, s: State, key: seq<byte>, out: Option<nat>, initOk: bool): (State, Reply)
    requires forall w | w in s.pending :: w.row.size >= 0
  {
    var s1 := Open(s, initOk);
    if !s1.open then (s1, Reply(0, Untouched))
    else
      var hash := codec.hash(key);
      var (ram, cached) := RC.Find(s1.ram, hash, key);
      match cached
      case Some(data) => Copy(s1.(ram := ram), hash, data, out)
      case None => LoadBelow(codec, s1, hash, key, out)
  }

  function PendingBytes(pending: seq<PendingWrite>): nat {
    if pending == [] then 0
    else PendingBytes(pending[..|pending| - 1]) + |pending[|pending| - 1].row.stored|
  }

  lemma PendingBytesAppend(pending: seq<PendingWrite>, w: PendingWrite)
    ensures PendingBytes(pending + [w]) == PendingBytes(pending) + |w.row.stored|
  {
    assert (pending + [w])[..|pending|] == pending;
  }

  predicate BatchFull(pending: seq<PendingWrite>) {
    |pending| >= MAX_PENDING_WRITES || PendingBytes(pending) >= MAX_PENDING_BYTES
  }

  /** flush_pending_writes_locked; `ok` is whether the transaction commits. */
  function Flush(s: State, ok: bool): State {
    s.(pending := [], db := if ok && s.open then Fold(s.pending, s.db) else s.db)
  }

  function RowOf(codec: Codec, value: seq<byte>, compress: bool): Row {
    Row(if compress then codec.deflate(value) else value, |value|, compress)
  }

  /** store_to_cache; `compress` is whether the compressed form is kept. */
  function Store(codec: Codec, s: State, key: seq<byte>, value: seq<byte>, compress: bool, initOk: bool, flushOk: bool)
    : State
  {
    var s1 := Open(s, initOk);
    if !s1.open then s1
    else
      CommitIfFull(AppendWrite(s1, PendingWrite(codec.hash(key), RowOf(codec, value, compress))), flushOk)
  }

  /** The RAM entry goes before the write becomes visible in the batch. */
  function AppendWrite(s: State, w: PendingWrite): State {
    s.(ram := RC.Invalidate(s.ram, w.key), pending := s.pending + [w], used := s.used + [w.key])
  }

  function CommitIfFull(s: State, flushOk: bool): State {
    if BatchFull(s.pending) then Flush(s, flushOk) else s
  }

  function OfUsed(db: map<Hash, Row>, used: seq<Hash>): map<Hash, Row> { map h | h in db && h in used :: db[h] }

  /** cache_prune: the database keeps only the rows whose keys were used. */
  function Prune(s: State, initOk: bool, flushOk: bool): State {
    var s1 := Open(s.(ram := RC.Clear(s.ram)), initOk);
    if !s1.open then s1
    else
      var s2 := Flush(s1, flushOk);
      if s2.used == [] then s2
      else s2.(db := OfUsed(s2.db, s2.used))
  }

  // ---------- runs ----------

  datatype Op =
    | LoadOp(key: seq<byte>, out: Option<nat>, initOk: bool)
    | StoreOp(key: seq<byte>, value: seq<byte>, compress: bool, initOk: bool, flushOk: bool)
    | FlushOp(flushOk: bool)
    | PruneOp(initOk: bool, flushOk: bool)

  /** Only a successful flush keeps the batch; a failed one drops it on purpose. */
  predicate NoFailedFlush(op: Op) { op.LoadOp? || op.flushOk }

  const SILENT := Reply(0, Untouched)

  function Step(codec: Codec, s: State, op: Op): (State, Reply)
    requires forall w | w in s.pending :: w.row.size >= 0
  {
    match op
    case LoadOp(key, out, initOk) => Load(codec, s, key, out, initOk)
    case StoreOp(key, value, compress, initOk, flushOk) =>
      (Store(codec, s, key, value, compress, initOk, flushOk), SILENT)
    case FlushOp(flushOk) => (if s.pending == [] then s else Flush(s, flushOk), SILENT)
    case PruneOp(initOk, flushOk) => (Prune(s, initOk, flushOk), SILENT)
  }

  /** The entry's bytes are what the layers below give for its hash. */
  ghost predicate Backed(codec: Codec, s: State, e: RC.Entry) {
    var row := Lookup(s.pending, s.db, e.hash);
    row.Some? && row.value.size == |e.data| > 0 && Decode(codec, row.value) == Some(e.data)
  }

  ghost predicate Coherent(codec: Codec, s: State) {
    && RC.Sound(s.ram)
    && (forall w | w in s.pending :: w.row.size >= 0)
    && (forall e | e in s.ram.entries :: codec.hash(e.key) == e.hash && Backed(codec, s, e))
    && (s.pending != [] ==> s.open)
    && (s.ram.entries != [] ==> s.open)
    && !BatchFull(s.pending)
  }

  /** The same layers with nothing in RAM. */
  ghost predicate Twin(s: State, bare: State) {
    && bare.ram.entries == []
    && bare.ram.budget == s.ram.budget && bare.ram.limit == s.ram.limit
    && bare.pending == s.pending && bare.db == s.db && bare.used == s.used
    && bare.open == s.open && bare.broken == s.broken
  }

  function Bare(s: State): State { s.(ram := RC.Clear(s.ram)) }

  // ---------- loads ----------

  /** A row found below with its decoded bytes: what both stacks answer. */
  function Answer(data: seq<byte>, out: Option<nat>): Reply {
    Reply(|data|, if out == Some(|data|) then Copied(data) else Untouched)
  }

  /** What a row answers, and whether its key counts as used. */
  function RowAnswer(codec: Codec, accepts: bool, row: Row, out: Option<nat>): (Reply, bool)
    requires row.size >= 0
  {
    if row.size == 0 then (Reply(0, Untouched), false)
    else if out.Some? && out.value != row.size then (Reply(row.size, Untouched), false)
    else
      match Decode(codec, row)
      case Some(data) =>
        if accepts || out.Some? then (Answer(data, out), out == Some(|data|)) else (Reply(row.size, Untouched), false)
      case None =>
        if accepts then (Reply(0, Untouched), false)
        else if out.Some? then (Reply(0, Garbled), false)
        else (Reply(row.size, Untouched), false)
  }

  /** Only the RAM cache, within its limits, and the used keys have changed. */
  ghost predicate Moves(s: State, s': State, hash: Hash, uses: bool) {
    && s' == s.(ram := s'.ram, used := if uses then s.used + [hash] else s.used)
    && s'.ram.budget == s.ram.budget && s'.ram.limit == s.ram.limit
    && RC.Sound(s'.ram)
  }

  /** Loading a row depends on RAM only through the sizes it accepts. */
  lemma LoadRowIs(codec: Codec, s: State, hash: Hash, key: seq<byte>, row: Row, out: Option<nat>)
    requires RC.Sound(s.ram) && row.size >= 0
    ensures var (s', r) := LoadRow(codec, s, hash, key, row, out);
            var (q, uses) := RowAnswer(codec, row.size > 0 && RC.Accepts(s.ram, |key|, row.size), row, out);
            r == q && Moves(s, s', hash, uses)
  {
    if row.size > 0 {
      RC.FillKeepsSound(s.ram, hash, key, row.size, Decode(codec, row));
      hide RC.Sound, Decode;
    }
  }

  lemma EntryFits(c: RC.Cache, e: RC.Entry)
    requires RC.Sound(c) && e in c.entries
    ensures RC.Accepts(c, |e.key|, |e.data|)
  {
    var i :| 0 <= i < |c.entries| && c.entries[i] == e;
    RC.TotalErase(c.entries, i);
  }

  /** A RAM hit answers what the layers below would answer with nothing in RAM. */
  lemma HitAgrees(codec: Codec, s: State, bare: State, e: RC.Entry, out: Option<nat>)
    requires Coherent(codec, s) && Twin(s, bare) && e in s.ram.entries
    ensures LoadBelow(codec, bare, e.hash, e.key, out).1 == Answer(e.data, out)
    ensures Moves(bare, LoadBelow(codec, bare, e.hash, e.key, out).0, e.hash, out == Some(|e.data|))
  {
    EntryFits(s.ram, e);
    assert Backed(codec, s, e);
    FoundIsPending(s.pending, e.hash);
    var row := Lookup(s.pending, s.db, e.hash).value;
    assert RC.Sound(bare.ram);
    LoadRowIs(codec, bare, e.hash, e.key, row, out);
    hide LoadRow;
  }

  /** RAM may change only within what the layers below back, and the used keys grow. */
  lemma StaysCoherent(codec: Codec, s: State, s': State)
    requires Coherent(codec, s) && RC.Sound(s'.ram)
    requires s' == s.(ram := s'.ram, used := s'.used) && s.open
    requires forall e | e in s'.ram.entries ::
               e in s.ram.entries || (codec.hash(e.key) == e.hash && Backed(codec, s, e))
    ensures Coherent(codec, s')
  {
    forall e | e in s'.ram.entries ensures codec.hash(e.key) == e.hash && Backed(codec, s', e) {
      assert Backed(codec, s, e);
    }
  }

  lemma TwinAfter(s: State, s': State, bare: State, b': State, hash: Hash, uses: bool)
    requires Twin(s, bare) && Moves(s, s', hash, uses) && Moves(bare, b', hash, uses)
    ensures Twin(s', Bare(b'))
  {
  }

  lemma RowEntries(codec: Codec, s: State, key: seq<byte>, row: Row, out: Option<nat>)
    requires RC.Sound(s.ram) && row.size >= 0
    requires Lookup(s.pending, s.db, codec.hash(key)) == Some(row)
    ensures forall e | e in LoadRow(codec, s, codec.hash(key), key, row, out).0.ram.entries ::
              e in s.ram.entries || (codec.hash(e.key) == e.hash && Backed(codec, s, e))
  {
    if row.size > 0 {
      RC.FillKeepsSound(s.ram, codec.hash(key), key, row.size, Decode(codec, row));
      hide RC.Sound, RC.Fill;
    }
  }

  /** Loading a row answers the same whatever else is in RAM, and leaves RAM coherent. */
  lemma RowAgrees(codec: Codec, s: State, bare: State, key: seq<byte>, row: Row, out: Option<nat>)
    requires Coherent(codec, s) && Twin(s, bare) && s.open
    requires Lookup(s.pending, s.db, codec.hash(key)) == Some(row) && row.size >= 0
    ensures var (s', r), (b', q) := LoadRow(codec, s, codec.hash(key), key, row, out),
                                    LoadRow(codec, bare, codec.hash(key), key, row, out);
            r == q && Twin(s', Bare(b')) && Coherent(codec, s')
  {
    var hash := codec.hash(key);
    assert RC.Sound(bare.ram);
    LoadRowIs(codec, s, hash, key, row, out);
    LoadRowIs(codec, bare, hash, key, row, out);
    RowEntries(codec, s, key, row, out);
    var s', b' := LoadRow(codec, s, hash, key, row, out).0, LoadRow(codec, bare, hash, key, row, out).0;
    assert RC.Accepts(s.ram, |key|, row.size) == RC.Accepts(bare.ram, |key|, row.size);
    hide LoadRow, RC.Sound, RowAnswer;
    TwinAfter(s, s', bare, b', hash, s'.used != s.used);
    StaysCoherent(codec, s, s');
  }

  lemma BelowAgrees(codec: Codec, s: State, bare: State, key: seq<byte>, out: Option<nat>)
    requires Coherent(codec, s) && Twin(s, bare) && s.open
    ensures var (s', r), (b', q) := LoadBelow(codec, s, codec.hash(key), key, out),
                                    LoadBelow(codec, bare, codec.hash(key), key, out);
            r == q && Twin(s', Bare(b')) && Coherent(codec, s')
  {
    var hash := codec.hash(key);
    FoundIsPending(s.pending, hash);
    var row := Lookup(s.pending, s.db, hash);
    if row.Some? && row.value.size >= 0 {
      RowAgrees(codec, s, bare, key, row.value, out);
    }
  }

  lemma OpenAgrees(codec: Codec, s: State, bare: State, ok: bool)
    requires Coherent(codec, s) && Twin(s, bare)
    ensures Coherent(codec, Open(s, ok)) && Twin(Open(s, ok), Open(bare, ok))
  {
    assert forall e | e in s.ram.entries :: Backed(codec, s, e) ==> Backed(codec, Open(s, ok), e);
  }

  /** load_blob_locked when the RAM cache has the blob. */
  lemma HitLoadAgrees(codec: Codec, s: State, bare: State, hash: Hash, key: seq<byte>, out: Option<nat>)
    requires Coherent(codec, s) && Twin(s, bare) && s.open && RC.Find(s.ram, hash, key).1.Some?
    ensures var (ram, cached) := RC.Find(s.ram, hash, key);
            var (s', r), (b', q) := Copy(s.(ram := ram), hash, cached.value, out),
                                    LoadBelow(codec, bare, hash, key, out);
            r == q && Twin(s', Bare(b')) && Coherent(codec, s')
  {
    RC.FindKeepsSound(s.ram, hash, key);
    var (ram, cached) := RC.Find(s.ram, hash, key);
    assert ram.budget == s.ram.budget && ram.limit == s.ram.limit;
    hide RC.Find, LoadBelow, RC.Sound;
    HitAgrees(codec, s, bare, RC.Entry(hash, key, cached.value), out);
    var s', b' := Copy(s.(ram := ram), hash, cached.value, out).0, LoadBelow(codec, bare, hash, key, out).0;
    assert Moves(s, s', hash, out == Some(|cached.value|));
    TwinAfter(s, s', bare, b', hash, out == Some(|cached.value|));
    StaysCoherent(codec, s, s');
  }

  /** load_blob_locked once the cache is open. */
  lemma OpenLoadAgrees(codec: Codec, s: State, bare: State, key: seq<byte>, out: Option<nat>, initOk: bool)
    requires Coherent(codec, s) && Twin(s, bare) && s.open
    ensures var (s', r), (b', q) := Load(codec, s, key, out, initOk), Load(codec, bare, key, out, initOk);
            r == q && Twin(s', Bare(b')) && Coherent(codec, s')
  {
    var hash := codec.hash(key);
    RC.FindKeepsSound(s.ram, hash, key);
    assert RC.Find(bare.ram, hash, key) == (bare.ram, None);
    if RC.Find(s.ram, hash, key).1.Some? {
      HitLoadAgrees(codec, s, bare, hash, key, out);
    } else {
      assert RC.Find(s.ram, hash, key) == (s.ram, None);
      BelowAgrees(codec, s, bare, key, out);
    }
    hide RC.Find, LoadBelow, Copy, Coherent, Twin;
  }

  lemma LoadAgrees(codec: Codec, s: State, bare: State, key: seq<byte>, out: Option<nat>, initOk: bool)
    requires Coherent(codec, s) && Twin(s, bare)
    ensures var (s', r), (b', q) := Load(codec, s, key, out, initOk), Load(codec, bare, key, out, initOk);
            r == q && Twin(s', Bare(b')) && Coherent(codec, s')
  {
    OpenAgrees(codec, s, bare, initOk);
    if Open(s, initOk).open {
      OpenLoadAgrees(codec, Open(s, initOk), Open(bare, initOk), key, out, initOk);
      assert Load(codec, Open(s, initOk), key, out, initOk) == Load(codec, s, key, out, initOk);
      assert Load(codec, Open(bare, initOk), key, out, initOk) == Load(codec, bare, key, out, initOk);
      hide Load;
    }
  }

  // ---------- stores, flushes, prunes ----------

  lemma FlushAgrees(codec: Codec, s: State, bare: State)
    requires RC.Sound(s.ram) && Twin(s, bare) && s.open
    requires forall e | e in s.ram.entries :: codec.hash(e.key) == e.hash && Backed(codec, s, e)
    ensures Coherent(codec, Flush(s, true)) && Twin(Flush(s, true), Flush(bare, true))
  {
    var s' := Flush(s, true);
    forall e | e in s'.ram.entries ensures Backed(codec, s', e) {
      assert Backed(codec, s, e);
      LookupIsFold(s.pending, s.db, e.hash);
    }
  }

  /** A new pending write changes what is found for its own hash only. */
  lemma AppendLookup(pending: seq<PendingWrite>, db: map<Hash, Row>, w: PendingWrite, hash: Hash)
    ensures Lookup(pending + [w], db, hash) == if hash == w.key then Some(w.row) else Lookup(pending, db, hash)
  {
    assert (pending + [w])[..|pending|] == pending;
  }

  lemma AppendBacked(codec: Codec, s: State, w: PendingWrite)
    requires Coherent(codec, s)
    ensures RC.Sound(AppendWrite(s, w).ram)
    ensures forall e | e in AppendWrite(s, w).ram.entries ::
              codec.hash(e.key) == e.hash && Backed(codec, AppendWrite(s, w), e)
  {
    var s2 := AppendWrite(s, w);
    RC.InvalidateKeepsSound(s.ram, w.key);
    forall e | e in s2.ram.entries ensures codec.hash(e.key) == e.hash && Backed(codec, s2, e) {
      assert Backed(codec, s, e);
      AppendLookup(s.pending, s.db, w, e.hash);
    }
  }

  lemma AppendTwin(s: State, bare: State, w: PendingWrite)
    requires Twin(s, bare)
    ensures Twin(AppendWrite(s, w), AppendWrite(bare, w))
  {
    assert RC.Without([], w.key) == [];
  }

  lemma CommitAgrees(codec: Codec, s: State, bare: State)
    requires RC.Sound(s.ram) && Twin(s, bare) && s.open && forall w | w in s.pending :: w.row.size >= 0
    requires forall e | e in s.ram.entries :: codec.hash(e.key) == e.hash && Backed(codec, s, e)
    ensures Coherent(codec, CommitIfFull(s, true)) && Twin(CommitIfFull(s, true), CommitIfFull(bare, true))
  {
    if BatchFull(s.pending) {
      FlushAgrees(codec, s, bare);
    }
  }

  lemma StoreAgrees(codec: Codec, s: State, bare: State, key: seq<byte>, value: seq<byte>, compress: bool, initOk: bool)
    requires Coherent(codec, s) && Twin(s, bare)
    ensures var s', b' := Store(codec, s, key, value, compress, initOk, true),
                          Store(codec, bare, key, value, compress, initOk, true);
            Twin(s', Bare(b')) && Coherent(codec, s')
  {
    var s1, b1 := Open(s, initOk), Open(bare, initOk);
    OpenAgrees(codec, s, bare, initOk);
    if s1.open {
      var w := PendingWrite(codec.hash(key), RowOf(codec, value, compress));
      AppendBacked(codec, s1, w);
      AppendTwin(s1, b1, w);
      assert forall x | x in AppendWrite(s1, w).pending :: x.row.size >= 0;
      CommitAgrees(codec, AppendWrite(s1, w), AppendWrite(b1, w));
      hide AppendWrite, CommitIfFull, Coherent, RowOf, Backed;
    }
  }

  lemma PruneIsCoherent(codec: Codec, s: State, initOk: bool, flushOk: bool)
    requires RC.Sound(s.ram) && (s.pending != [] ==> s.open)
    ensures Coherent(codec, Prune(s, initOk, flushOk))
  {
    assert !BatchFull([]);
  }

  lemma PruneAgrees(codec: Codec, s: State, bare: State, initOk: bool, flushOk: bool)
    requires Coherent(codec, s) && Twin(s, bare)
    ensures var s', b' := Prune(s, initOk, flushOk), Prune(bare, initOk, flushOk);
            Twin(s', Bare(b')) && Coherent(codec, s')
  {
    PruneIsCoherent(codec, s, initOk, flushOk);
    hide Coherent, Fold, RC.Sound;
  }

  lemma StepAgrees(codec: Codec, s: State, bare: State, op: Op)
    requires Coherent(codec, s) && Twin(s, bare) && NoFailedFlush(op)
    ensures Step(codec, s, op).1 == Step(codec, bare, op).1
    ensures Twin(Step(codec, s, op).0, Bare(Step(codec, bare, op).0))
    ensures Coherent(codec, Step(codec, s, op).0)
  {
    match op
    case LoadOp(key, out, initOk) => LoadAgrees(codec, s, bare, key, out, initOk);
    case StoreOp(key, value, compress, initOk, flushOk) => StoreAgrees(codec, s, bare, key, value, compress, initOk);
    case FlushOp(flushOk) =>
      if s.pending != [] {
        FlushAgrees(codec, s, bare);
      }
    case PruneOp(initOk, flushOk) => PruneAgrees(codec, s, bare, initOk, flushOk);
  }

  // ---------- main results ----------

  function Replies(codec: Codec, s: State, ops: seq<Op>): seq<Reply>
    requires forall w | w in s.pending :: w.row.size >= 0
    decreases |ops|
  {
    if ops == [] then []
    else
      StepSizes(codec, s, ops[0]);
      [Step(codec, s, ops[0]).1] + Replies(codec, Step(codec, s, ops[0]).0, ops[1..])
  }

  /** The same code, its RAM cache emptied before every operation. */
  function BareReplies(codec: Codec, s: State, ops: seq<Op>): seq<Reply>
    requires forall w | w in s.pending :: w.row.size >= 0
    decreases |ops|
  {
    if ops == [] then []
    else
      StepSizes(codec, Bare(s), ops[0]);
      [Step(codec, Bare(s), ops[0]).1] + BareReplies(codec, Step(codec, Bare(s), ops[0]).0, ops[1..])
  }

  lemma StepSizes(codec: Codec, s: State, op: Op)
    requires forall w | w in s.pending :: w.row.size >= 0
    ensures forall w | w in Step(codec, s, op).0.pending :: w.row.size >= 0
  {
  }

  /** Over any run of loads, stores, successful flushes and prunes the three layers answer
      exactly what the same code answers with its RAM cache always empty. */
  lemma {:induction false} RamCacheIsInvisible(codec: Codec, s: State, bare: State, ops: seq<Op>)
    requires Coherent(codec, s) && Twin(s, Bare(bare))
    requires forall i | 0 <= i < |ops| :: NoFailedFlush(ops[i])
    ensures Replies(codec, s, ops) == BareReplies(codec, bare, ops)
    decreases |ops|
  {
    if ops != [] {
      StepAgrees(codec, s, Bare(bare), ops[0]);
      RamCacheIsInvisible(codec, Step(codec, s, ops[0]).0, Step(codec, Bare(bare), ops[0]).0, ops[1..]);
    }
  }

  /** Read your writes: a non-empty value that was stored is what its key loads next, whoever
      else shares its hash, at any buffer size. */
  lemma StoreThenLoad(codec: Codec, s: State, key: seq<byte>, value: seq<byte>, compress: bool, out: Option<nat>,
                      initOk: bool, initOk': bool)
    requires Coherent(codec, s) && Lossless(codec, value) && |value| > 0 && Open(s, initOk).open
    ensures var s' := Store(codec, s, key, value, compress, initOk, true);
            Coherent(codec, s') && Load(codec, s', key, out, initOk').1 == Answer(value, out)
  {
    var hash, row := codec.hash(key), RowOf(codec, value, compress);
    var s' := Store(codec, s, key, value, compress, initOk, true);
    StoreAgrees(codec, s, Bare(s), key, value, compress, initOk);
    assert Decode(codec, row) == Some(value);
    StoredIsFound(codec, s, key, value, compress, initOk);
    hide Store, Load, Decode, Lookup, Coherent;
    LoadOfGoodRow(codec, s', key, row, value, out, initOk');
  }

  lemma StoredIsFound(codec: Codec, s: State, key: seq<byte>, value: seq<byte>, compress: bool, initOk: bool)
    requires Coherent(codec, s) && Open(s, initOk).open
    ensures var s' := Store(codec, s, key, value, compress, initOk, true);
            s'.open && Lookup(s'.pending, s'.db, codec.hash(key)) == Some(RowOf(codec, value, compress))
  {
    var s1, w := Open(s, initOk), PendingWrite(codec.hash(key), RowOf(codec, value, compress));
    AppendLookup(s1.pending, s1.db, w, w.key);
    LookupIsFold(s1.pending + [w], s1.db, w.key);
  }

  /** A key whose row decodes loads those bytes, from RAM or from below. */
  lemma LoadOfGoodRow(codec: Codec, s: State, key: seq<byte>, row: Row, data: seq<byte>, out: Option<nat>, initOk: bool)
    requires Coherent(codec, s) && s.open && row.size > 0 && Decode(codec, row) == Some(data)
    requires Lookup(s.pending, s.db, codec.hash(key)) == Some(row)
    ensures Load(codec, s, key, out, initOk).1 == Answer(data, out)
  {
    var hash := codec.hash(key);
    LoadAgrees(codec, s, Bare(s), key, out, initOk);
    LoadRowIs(codec, Bare(s), hash, key, row, out);
    FoundIsPending(s.pending, hash);
    hide LoadRow;
  }

  // ---------- one map ----------

  /** The map that the batch and the database make up together. */
  function Contents(s: State): map<Hash, Row> { Fold(s.pending, s.db) }

  /** What one hash-keyed map answers to a load. */
  function MapReply(codec: Codec, m: map<Hash, Row>, accepts: bool, hash: Hash, out: Option<nat>): (Reply, bool) {
    if hash !in m || m[hash].size <= 0 then (SILENT, false) else RowAnswer(codec, accepts, m[hash], out)
  }

  function SizeAccepted(s: State, key: seq<byte>, hash: Hash): bool {
    var m := Contents(s);
    hash in m && m[hash].size > 0 && RC.Accepts(s.ram, |key|, m[hash].size)
  }

  lemma BelowIsMap(codec: Codec, s: State, hash: Hash, key: seq<byte>, out: Option<nat>)
    requires RC.Sound(s.ram) && forall w | w in s.pending :: w.row.size >= 0
    ensures var (s', r) := LoadBelow(codec, s, hash, key, out);
            var (q, uses) := MapReply(codec, Contents(s), SizeAccepted(s, key, hash), hash, out);
            r == q && Moves(s, s', hash, uses)
  {
    LookupIsFold(s.pending, s.db, hash);
    FoundIsPending(s.pending, hash);
    var row := Lookup(s.pending, s.db, hash);
    if row.Some? && row.value.size >= 0 {
      LoadRowIs(codec, s, hash, key, row.value, out);
    }
    hide LoadRow, RC.Sound, Decode;
  }

  /** Loads read one map, stores write it, successful flushes leave it alone and prunes keep
      its used keys: the three layers together are one hash-keyed map. */
  lemma {:induction false} LoadReadsMap(codec: Codec, s: State, key: seq<byte>, out: Option<nat>, initOk: bool)
    requires Coherent(codec, s) && Open(s, initOk).open
    ensures var hash := codec.hash(key);
            var (s', r) := Load(codec, s, key, out, initOk);
            var (q, uses) := MapReply(codec, Contents(s), SizeAccepted(s, key, hash), hash, out);
            && r == q
            && Contents(s') == Contents(s)
            && s'.used == if uses then s.used + [hash] else s.used
  {
    var hash := codec.hash(key);
    var s1 := Open(s, initOk);
    LoadAgrees(codec, s, Bare(s), key, out, initOk);
    var b1 := Open(Bare(s), initOk);
    assert RC.Find(b1.ram, hash, key) == (b1.ram, None);
    assert RC.Sound(b1.ram);
    BelowIsMap(codec, b1, hash, key, out);
    assert SizeAccepted(b1, key, hash) == SizeAccepted(s, key, hash);
    hide LoadBelow, MapReply, RC.Find, RC.Sound, Coherent;
  }

  lemma StoreWritesMap(codec: Codec, s: State, key: seq<byte>, value: seq<byte>, compress: bool, initOk: bool)
    requires Coherent(codec, s) && Open(s, initOk).open
    ensures var s' := Store(codec, s, key, value, compress, initOk, true);
            && Contents(s') == Contents(s)[codec.hash(key) := RowOf(codec, value, compress)]
            && s'.used == s.used + [codec.hash(key)]
            && !BatchFull(s'.pending)
  {
    var s1, w := Open(s, initOk), PendingWrite(codec.hash(key), RowOf(codec, value, compress));
    FoldAppend(s1.pending, s1.db, w);
    hide RC.Sound, RC.Invalidate, Fold, PendingBytes, Backed;
    assert !BatchFull([]) by {
      EmptyBatch();
    }
  }

  lemma FoldAppend(pending: seq<PendingWrite>, db: map<Hash, Row>, w: PendingWrite)
    ensures Fold(pending + [w], db) == Fold(pending, db)[w.key := w.row]
    ensures Fold([], Fold(pending + [w], db)) == Fold(pending + [w], db)
  {
    assert (pending + [w])[..|pending|] == pending;
  }

  lemma EmptyBatch()
    ensures !BatchFull([])
  {
  }

  lemma FlushKeepsMap(codec: Codec, s: State)
    requires Coherent(codec, s)
    ensures var s' := Step(codec, s, FlushOp(true)).0;
            s'.pending == [] && s'.db == Contents(s) && Contents(s') == Contents(s) && s'.used == s.used
  {
  }

  lemma PruneKeepsUsed(codec: Codec, s: State, initOk: bool)
    requires Coherent(codec, s) && Open(s, initOk).open
    ensures var s' := Prune(s, initOk, true);
            && s'.pending == []
            && (forall h :: h in Contents(s') <==> h in Contents(s) && (h in s.used || s.used == []))
            && (forall h | h in Contents(s') :: Contents(s')[h] == Contents(s)[h])
  {
  }

  // ---------- failed flushes ----------

  /** A failed flush drops the batch. The answers stay those of an empty RAM cache exactly when
      every entry in RAM is still what the database alone gives for its hash. */
  ghost predicate SurvivesDrop(codec: Codec, s: State) {
    forall e | e in s.ram.entries ::
      var row := FindRow(s.db, e.hash);
      row.Some? && row.value.size == |e.data| > 0 && Decode(codec, row.value) == Some(e.data)
  }

  ghost predicate LoadsAgree(codec: Codec, s: State)
    requires forall w | w in s.pending :: w.row.size >= 0
  {
    forall key, out :: Load(codec, s, key, out, true).1 == Load(codec, Bare(s), key, out, true).1
  }

  lemma FailedFlushExactly(codec: Codec, s: State)
    requires Coherent(codec, s) && s.open
    ensures LoadsAgree(codec, Flush(s, false)) <==> SurvivesDrop(codec, s)
  {
    var t := Flush(s, false);
    if SurvivesDrop(codec, s) {
      assert Coherent(codec, t);
      forall key, out ensures Load(codec, t, key, out, true).1 == Load(codec, Bare(t), key, out, true).1 {
        LoadAgrees(codec, t, Bare(t), key, out, true);
      }
    }
    if LoadsAgree(codec, t) {
      forall e | e in s.ram.entries
        ensures var row := FindRow(s.db, e.hash);
                row.Some? && row.value.size == |e.data| > 0 && Decode(codec, row.value) == Some(e.data)
      {
        LoadsShowEntry(codec, s, e);
      }
    }
  }

  lemma LoadsShowEntry(codec: Codec, s: State, e: RC.Entry)
    requires Coherent(codec, s) && s.open && e in s.ram.entries && LoadsAgree(codec, Flush(s, false))
    ensures var row := FindRow(s.db, e.hash);
            row.Some? && row.value.size == |e.data| > 0 && Decode(codec, row.value) == Some(e.data)
  {
    var t, out := Flush(s, false), Some(|e.data|);
    RC.FindKeepsSound(t.ram, e.hash, e.key);
    OnlyEntry(t.ram, e);
    assert Load(codec, t, e.key, out, true).1 == Reply(|e.data|, Copied(e.data));
    assert Load(codec, Bare(t), e.key, out, true).1 == Reply(|e.data|, Copied(e.data));
    var row := FindRow(s.db, e.hash);
    assert row.Some? && row.value.size > 0;
    LoadRowIs(codec, Bare(t), e.hash, e.key, row.value, out);
    hide LoadRow;
  }

  /** With one entry per hash, looking an entry up finds it. */
  lemma OnlyEntry(c: RC.Cache, e: RC.Entry)
    requires RC.Sound(c) && e in c.entries
    ensures RC.Find(c, e.hash, e.key).1 == Some(e.data)
  {
    RC.FindKeepsSound(c, e.hash, e.key);
    assert RC.Matches(e, e.hash, e.key);
    var i := RC.FindIndex(c.entries, e.hash, e.key, 0);
    var j :| 0 <= j < |c.entries| && c.entries[j] == e;
    assert i == j;
  }

  // ---------- the class ----------

  // ---------- the invariant of single calls ----------

  lemma StepKeepsCoherent(codec: Codec, s: State, op: Op)
    requires Coherent(codec, s) && NoFailedFlush(op)
    ensures Coherent(codec, Step(codec, s, op).0)
  {
    BareIsTwin(s);
    hide Step, Coherent, Twin, Bare;
    StepAgrees(codec, s, Bare(s), op);
  }

  lemma BareIsTwin(s: State)
    ensures Twin(s, Bare(s))
  {
  }

  lemma FlushKeepsCoherent(codec: Codec, s: State)
    requires Coherent(codec, s)
    ensures Coherent(codec, Flush(s, true))
  {
    StepKeepsCoherent(codec, s, FlushOp(true));
    assert s.pending == [] ==> Flush(s, true) == s;
    hide Coherent;
  }

  class BlobCache {
    const codec: Codec
    const ram: RC.ReadCache
    var pending: seq<PendingWrite>
    var pendingBytes: nat
    var db: map<Hash, Row>
    var used: seq<Hash>
    var open: bool
    var broken: bool

    /** A failed flush has dropped writes since RAM was last emptied. */
    ghost var dropped: bool

    ghost predicate Shape()
      reads this, ram
    {
      && ram.Valid()
      && pendingBytes == PendingBytes(pending)
      && (forall w | w in pending :: w.row.size >= 0)
      && (pending != [] ==> open)
    }

    ghost function View(): State
      reads this, ram
    {
      State(ram.View(), pending, db, used, open, broken)
    }

    /** The invariant of the runs: RAM agrees with the layers below, unless a flush has failed. */
    ghost predicate Valid()
      reads this, ram
    {
      Shape() && (!dropped ==> Coherent(codec, View()))
    }

    constructor (codec: Codec, db: map<Hash, Row>, budget: nat, limit: nat)
      ensures Valid() && fresh(ram) && this.codec == codec
      ensures View() == State(RC.Cache(budget, limit, [], 0), [], db, [], false, false)
    {
      this.codec, this.db := codec, db;
      ram := new RC.ReadCache(budget, limit);
      pending, pendingBytes, used, open, broken, dropped := [], 0, [], false, false, false;
    }

    method InitCache(ok: bool) returns (ready: bool)
      requires Shape()
      modifies this`open, this`broken, ram
      ensures Shape() && View() == Open(old(View()), ok) && ready == open
    {
      if broken || open {
        return open;
      }
      if ok {
        open := true;
      } else {
        assert pending == [];
        ram.ClearAll();
        broken := true;
      }
      ready := open;
    }

    method FindPendingWrite(hash: Hash) returns (found: Option<Row>)
      ensures found == FindPending(pending, hash)
    {
      var i := |pending|;
      assert pending[..i] == pending;
      while i > 0
        invariant i <= |pending| && FindPending(pending, hash) == FindPending(pending[..i], hash)
      {
        i := i - 1;
        assert pending[..i + 1][..i] == pending[..i];
        if pending[i].key == hash {
          return Some(pending[i].row);
        }
      }
      found := None;
    }

    /** The caller's buffer as `Load` sees it. */
    function SizeOf(value: array?<byte>): Option<nat> { if value == null then None else Some(value.Length) }

    ghost predicate Shows(value: array?<byte>, before: seq<byte>, output: Output)
      reads value
    {
      match output
      case Untouched => value != null ==> value[..] == before
      case Copied(data) => value != null && value[..] == data
      case Garbled => value != null
    }

    method CopyOut(hash: Hash, data: seq<byte>, value: array?<byte>) returns (size: nat, ghost output: Output)
      requires Shape()
      modifies this`used, value
      ensures Shape() && (View(), Reply(size, output)) == Copy(old(View()), hash, data, SizeOf(value))
      ensures value != null ==> Shows(value, old(value[..]), output)
    {
      size, output := |data|, Untouched;
      if value != null && value.Length == |data| {
        forall i | 0 <= i < |data| {
          value[i] := data[i];
        }
        assert value[..] == data;
        used := used + [hash];
        output := Copied(data);
      }
    }

    /** decode_blob straight into the caller's buffer; a failure may leave anything there. */
    method DecodeInto(value: array<byte>, row: Row) returns (ok: bool)
      requires row.size == value.Length > 0
      modifies value
      ensures ok == Decode(codec, row).Some?
      ensures ok ==> value[..] == Decode(codec, row).value
    {
      var decoded := Decode(codec, row);
      ok := decoded.Some?;
      if ok {
        var data := decoded.value;
        forall i | 0 <= i < value.Length {
          value[i] := data[i];
        }
        assert value[..] == data;
      } else {
        var garbage: byte :| true;
        forall i | 0 <= i < value.Length {
          value[i] := garbage;
        }
      }
    }

    method LoadFromRow(hash: Hash, key: seq<byte>, row: Row, value: array?<byte>)
      returns (size: nat, ghost output: Output)
      requires Shape() && row.size >= 0
      modifies this`used, ram, value
      ensures Shape() && (View(), Reply(size, output)) == LoadRow(codec, old(View()), hash, key, row, SizeOf(value))
      ensures value != null ==> Shows(value, old(value[..]), output)
    {
      hide RC.Sound, RC.Fill, Decode, PendingBytes;
      size, output := row.size, Untouched;
      if row.size == 0 || (value != null && value.Length != row.size) {
        return;
      }
      if ram.AcceptsSizes(|key|, row.size) {
        var filled := ram.FillBlob(hash, key, row.size, Decode(codec, row));
        match filled {
          case None => size := 0;
          case Some(data) => size, output := CopyOut(hash, data, value);
        }
      } else if value != null {
        var ok := DecodeInto(value, row);
        if ok {
          used := used + [hash];
          output := Copied(value[..]);
        } else {
          size, output := 0, Garbled;
        }
      }
    }

    /** load_blob_locked after a miss in RAM. */
    method LoadFromBelow(hash: Hash, key: seq<byte>, value: array?<byte>) returns (size: nat, ghost output: Output)
      requires Shape()
      modifies this`used, ram, value
      ensures Shape() && (View(), Reply(size, output)) == LoadBelow(codec, old(View()), hash, key, SizeOf(value))
      ensures value != null ==> Shows(value, old(value[..]), output)
    {
      hide LoadRow, RC.Sound;
      size, output := 0, Untouched;
      var waiting := FindPendingWrite(hash);
      if waiting.Some? {
        FoundIsPending(pending, hash);
        size, output := LoadFromRow(hash, key, waiting.value, value);
        return;
      }
      if hash !in db || db[hash].size <= 0 {
        return;
      }
      var row := db[hash];
      if (value != null && value.Length != row.size) || (value == null && !ram.AcceptsSizes(|key|, row.size)) {
        size := row.size;
        return;
      }
      size, output := LoadFromRow(hash, key, row, value);
    }

    /** load_from_cache. */
    method LoadFromCache(key: seq<byte>, value: array?<byte>, initOk: bool) returns (size: nat, ghost output: Output)
      requires Valid()
      modifies this`open, this`broken, this`used, ram, value
      ensures Valid() && (View(), Reply(size, output)) == Load(codec, old(View()), key, SizeOf(value), initOk)
      ensures value != null ==> Shows(value, old(value[..]), output)
    {
      hide Coherent, Load, RC.Sound;
      ghost var was := View();
      size, output := LoadBlob(key, value, initOk);
      if !dropped {
        StepKeepsCoherent(codec, was, LoadOp(key, SizeOf(value), initOk));
      }
    }

    method LoadBlob(key: seq<byte>, value: array?<byte>, initOk: bool) returns (size: nat, ghost output: Output)
      requires Shape()
      modifies this`open, this`broken, this`used, ram, value
      ensures Shape() && (View(), Reply(size, output)) == Load(codec, old(View()), key, SizeOf(value), initOk)
      ensures value != null ==> Shows(value, old(value[..]), output)
    {
      hide RC.Sound, RC.Find, LoadBelow;
      size, output := 0, Untouched;
      var ready := InitCache(initOk);
      if !ready {
        return;
      }
      var hash := codec.hash(key);
      RC.FindKeepsSound(ram.View(), hash, key);
      var cached := ram.FindBlob(hash, key);
      if cached.Some? {
        size, output := CopyOut(hash, cached.value, value);
      } else {
        size, output := LoadFromBelow(hash, key, value);
      }
    }

    /** flush_pending_writes. */
    method FlushPendingWrites(ok: bool)
      requires Valid()
      modifies this`pending, this`pendingBytes, this`db, this`dropped
      ensures Valid() && View() == Flush(old(View()), ok)
      ensures dropped == (old(dropped) || View() != Flush(old(View()), true))
    {
      hide Coherent, Flush, RC.Sound;
      ghost var was := View();
      CommitBatch(ok);
      dropped := dropped || View() != Flush(was, true);
      if !dropped {
        FlushKeepsCoherent(codec, was);
      }
    }

    method CommitBatch(ok: bool)
      requires Shape()
      modifies this`pending, this`pendingBytes, this`db
      ensures Shape() && View() == Flush(old(View()), ok)
    {
      if pending == [] {
        return;
      }
      if ok {
        var i := 0;
        ghost var before := db;
        assert pending[..0] == [];
        while i < |pending|
          invariant i <= |pending| && db == Fold(pending[..i], before)
          modifies this`db
        {
          assert pending[..i + 1][..i] == pending[..i];
          db := db[pending[i].key := pending[i].row];
          i := i + 1;
        }
        assert pending[..i] == pending;
      }
      pending, pendingBytes := [], 0;
    }

    /** The middle of store_to_cache: drop the RAM entry, then queue the write. */
    method QueueWrite(w: PendingWrite)
      requires Shape() && open && w.row.size >= 0
      modifies this`pending, this`pendingBytes, this`used, ram
      ensures Shape() && open && View() == AppendWrite(old(View()), w)
    {
      hide RC.Sound, RC.Invalidate, PendingBytes;
      PendingBytesAppend(pending, w);
      ram.InvalidateHash(w.key);
      pendingBytes := pendingBytes + |w.row.stored|;
      pending := pending + [w];
      used := used + [w.key];
    }

    /** store_to_cache. */
    method StoreToCache(key: seq<byte>, value: seq<byte>, compress: bool, initOk: bool, flushOk: bool)
      requires Valid()
      modifies this, ram
      ensures Valid() && View() == Store(codec, old(View()), key, value, compress, initOk, flushOk)
      ensures dropped == (old(dropped) || View() != Store(codec, old(View()), key, value, compress, initOk, true))
    {
      hide Coherent, Store, RC.Sound;
      ghost var was := View();
      StoreBlob(key, value, compress, initOk, flushOk);
      dropped := dropped || View() != Store(codec, was, key, value, compress, initOk, true);
      if !dropped {
        StepKeepsCoherent(codec, was, StoreOp(key, value, compress, initOk, true));
      }
    }

    method StoreBlob(key: seq<byte>, value: seq<byte>, compress: bool, initOk: bool, flushOk: bool)
      requires Shape()
      modifies this`pending, this`pendingBytes, this`db, this`used, this`open, this`broken, ram
      ensures Shape() && View() == Store(codec, old(View()), key, value, compress, initOk, flushOk)
    {
      hide RC.Sound, AppendWrite, Fold, PendingBytes;
      var ready := InitCache(initOk);
      if !ready {
        return;
      }
      QueueWrite(PendingWrite(codec.hash(key), RowOf(codec, value, compress)));
      if |pending| >= MAX_PENDING_WRITES || pendingBytes >= MAX_PENDING_BYTES {
        CommitBatch(flushOk);
      }
    }

    /** cache_prune. RAM is empty afterwards, so nothing in it can be out of date. */
    method PruneCache(initOk: bool, flushOk: bool)
      requires Valid()
      modifies this, ram
      ensures Valid() && !dropped && View() == Prune(old(View()), initOk, flushOk)
    {
      hide Coherent, Prune, RC.Sound, PendingBytes;
      ghost var was := View();
      PruneRows(initOk, flushOk);
      dropped := false;
      PruneIsCoherent(codec, was, initOk, flushOk);
    }

    method PruneRows(initOk: bool, flushOk: bool)
      requires Shape()
      modifies this`pending, this`pendingBytes, this`db, this`open, this`broken, ram
      ensures Shape() && View() == Prune(old(View()), initOk, flushOk)
    {
      hide RC.Sound, RC.Clear, PendingBytes, Open, Flush, OfUsed;
      ram.ClearAll();
      var ready := InitCache(initOk);
      if !ready {
        return;
      }
      CommitBatch(flushOk);
      if used == [] {
        return;
      }
      db := OfUsed(db, used);
    }
  }
}
