/** The least-recently-used cache of decoded blobs (switch/src/blob_read_cache.hpp). */
module BlobReadCache {
  import opened Sequences

  /** The two halves of a 128-bit key hash. Nothing assumes that hashes are injective. */
  datatype Hash = Hash(low: nat, high: nat)

  datatype Entry = Entry(hash: Hash, key: seq<byte>, data: seq<byte>)

  function SizeOf(e: Entry): nat { |e.key| + |e.data| }

  /** The cache as a value, most recent entry first. */
  datatype Cache = Cache(budget: nat, limit: nat, entries: seq<Entry>, evictions: nat)

  function Total(es: seq<Entry>): nat {
    if es == [] then 0 else Total(es[..|es| - 1]) + SizeOf(es[|es| - 1])
  }

  ghost predicate OnePerHash(es: seq<Entry>) {
    forall i, j | 0 <= i < j < |es| :: es[i].hash != es[j].hash
  }

  /** What every run of operations keeps. */
  ghost predicate Sound(c: Cache) {
    && Total(c.entries) <= c.budget
    && |c.entries| <= c.limit
    && OnePerHash(c.entries)
    && forall i | 0 <= i < |c.entries| :: |c.entries[i].data| > 0
  }

  // ---------- specification ----------

  predicate Accepts(c: Cache, keySize: nat, dataSize: nat) {
    c.limit > 0 && keySize <= c.budget && dataSize > 0 && dataSize <= c.budget - keySize
  }

  predicate Matches(e: Entry, hash: Hash, key: seq<byte>) { e.hash == hash && e.key == key }

  /** First matching position from `i` on, or the length. */
  function FindIndex(es: seq<Entry>, hash: Hash, key: seq<byte>, i: nat): (r: nat)
    requires i <= |es|
    ensures i <= r <= |es|
    ensures r < |es| ==> Matches(es[r], hash, key)
    ensures forall k | i <= k < r :: !Matches(es[k], hash, key)
    decreases |es| - i
  {
    if i == |es| || Matches(es[i], hash, key) then i else FindIndex(es, hash, key, i + 1)
  }

  function ToFront(es: seq<Entry>, i: nat): seq<Entry>
    requires i < |es|
  {
    [es[i]] + es[..i] + es[i + 1..]
  }

  function Find(c: Cache, hash: Hash, key: seq<byte>): (Cache, Option<seq<byte>>) {
    var i := FindIndex(c.entries, hash, key, 0);
    if i == |c.entries| then (c, None)
    else (c.(entries := ToFront(c.entries, i)), Some(c.entries[i].data))
  }

  function Without(es: seq<Entry>, hash: Hash): seq<Entry> {
    if es == [] then []
    else
      var rest := Without(es[..|es| - 1], hash);
      if es[|es| - 1].hash == hash then rest else rest + [es[|es| - 1]]
  }

  function Invalidate(c: Cache, hash: Hash): Cache { c.(entries := Without(c.entries, hash)) }

  /** How many entries survive eviction from the back. */
  function Keep(es: seq<Entry>, budget: nat, limit: nat, needed: nat): (n: nat)
    requires limit > 0 && needed <= budget
    ensures n <= |es|
  {
    if |es| >= limit || Total(es) > budget - needed then
      assert es != [];
      Keep(es[..|es| - 1], budget, limit, needed)
    else |es|
  }

  function Evict(c: Cache, needed: nat): Cache
    requires c.limit > 0 && needed <= c.budget
  {
    var n := Keep(c.entries, c.budget, c.limit, needed);
    c.(entries := c.entries[..n], evictions := c.evictions + (|c.entries| - n))
  }

  /** `decoded` is what the decoder will answer if it is asked. */
  function Fill(c: Cache, hash: Hash, key: seq<byte>, dataSize: nat, decoded: Option<seq<byte>>)
    : (Cache, Option<seq<byte>>)
  {
    var c1 := Invalidate(c, hash);
    if !Accepts(c, |key|, dataSize) then (c1, None)
    else
      var c2 := Evict(c1, |key| + dataSize);
      match decoded
      case None => (c2, None)
      case Some(data) => (Push(c2, Entry(hash, key, data)), Some(data))
  }

  function Push(c: Cache, e: Entry): Cache { c.(entries := [e] + c.entries) }

  function Clear(c: Cache): Cache { c.(entries := []) }

  // ---------- facts about sizes ----------

  lemma {:induction false} TotalConcat(a: seq<Entry>, b: seq<Entry>)
    ensures Total(a + b) == Total(a) + Total(b)
  {
    if b == [] {
      assert a + b == a;
    } else {
      var front := b[..|b| - 1];
      TotalConcat(a, front);
      assert (a + b)[..|a + b| - 1] == a + front;
    }
  }

  lemma TotalPrefix(es: seq<Entry>, n: nat)
    requires n <= |es|
    ensures Total(es[..n]) <= Total(es)
  {
    TotalConcat(es[..n], es[n..]);
    assert es[..n] + es[n..] == es;
  }

  lemma TotalOne(e: Entry)
    ensures Total([e]) == |e.key| + |e.data|
  {
    assert [e][..0] == [];
    assert Total([e][..0]) == 0;
  }

  lemma TotalMiddle(a: seq<Entry>, e: Entry, b: seq<Entry>)
    ensures Total(a + [e] + b) == Total(a) + SizeOf(e) + Total(b)
    ensures Total([e] + a + b) == Total(a) + SizeOf(e) + Total(b)
    ensures Total(a + b) == Total(a) + Total(b)
  {
    hide Total;
    TotalOne(e);
    TotalConcat(a, b);
    TotalConcat(a, [e]);
    TotalConcat(a + [e], b);
    TotalConcat([e], a);
    TotalConcat([e] + a, b);
  }

  lemma TotalErase(es: seq<Entry>, i: nat)
    requires i < |es|
    ensures Total(es[..i] + es[i + 1..]) + SizeOf(es[i]) == Total(es)
    ensures Total(ToFront(es, i)) == Total(es)
    ensures SizeOf(es[i]) <= Total(es)
  {
    hide Total;
    TotalMiddle(es[..i], es[i], es[i + 1..]);
    assert es[..i] + [es[i]] + es[i + 1..] == es;
  }

  // ---------- eviction ----------

  predicate MakesRoom(es: seq<Entry>, n: nat, budget: nat, limit: nat, needed: nat)
    requires n <= |es| && needed <= budget
  {
    n < limit && Total(es[..n]) <= budget - needed
  }

  /** Eviction drops exactly the shortest least-recent suffix that makes room. */
  lemma {:induction false} EvictsShortestSuffix(es: seq<Entry>, budget: nat, limit: nat, needed: nat, n: nat)
    requires limit > 0 && needed <= budget && n <= |es|
    ensures MakesRoom(es, Keep(es, budget, limit, needed), budget, limit, needed)
    ensures MakesRoom(es, n, budget, limit, needed) ==> n <= Keep(es, budget, limit, needed)
  {
    if |es| >= limit || Total(es) > budget - needed {
      var front := es[..|es| - 1];
      EvictsShortestSuffix(front, budget, limit, needed, if n < |es| then n else 0);
      var k := Keep(es, budget, limit, needed);
      assert front[..k] == es[..k];
      if n < |es| {
        assert front[..n] == es[..n];
      } else {
        assert es[..n] == es;
      }
    } else {
      assert es[..|es|] == es;
    }
  }

  // ---------- every operation keeps the cache sound ----------

  lemma {:induction false} WithoutMembers(es: seq<Entry>, hash: Hash, e: Entry)
    ensures e in Without(es, hash) <==> e in es && e.hash != hash
  {
    if es != [] {
      var front, last := es[..|es| - 1], es[|es| - 1];
      WithoutMembers(front, hash, e);
      assert e in es <==> e in front || e == last;
    }
  }

  lemma {:induction false} WithoutShrinks(es: seq<Entry>, hash: Hash)
    ensures |Without(es, hash)| <= |es| && Total(Without(es, hash)) <= Total(es)
  {
    if es != [] {
      var front, last := es[..|es| - 1], es[|es| - 1];
      WithoutShrinks(front, hash);
      TotalOne(last);
      TotalConcat(Without(front, hash), [last]);
    }
  }

  lemma {:induction false} WithoutDistinct(es: seq<Entry>, hash: Hash)
    requires OnePerHash(es)
    ensures OnePerHash(Without(es, hash))
  {
    if es != [] {
      var front, last := es[..|es| - 1], es[|es| - 1];
      WithoutDistinct(front, hash);
      var w := Without(front, hash);
      forall i | 0 <= i < |w| ensures w[i].hash != last.hash {
        WithoutMembers(front, hash, w[i]);
      }
    }
  }

  lemma InvalidateKeepsSound(c: Cache, hash: Hash)
    requires Sound(c)
    ensures Sound(Invalidate(c, hash))
    ensures forall e :: e in Invalidate(c, hash).entries <==> e in c.entries && e.hash != hash
  {
    WithoutShrinks(c.entries, hash);
    WithoutDistinct(c.entries, hash);
    forall e ensures e in Invalidate(c, hash).entries <==> e in c.entries && e.hash != hash {
      WithoutMembers(c.entries, hash, e);
    }
    var w := Without(c.entries, hash);
    forall i | 0 <= i < |w| ensures |w[i].data| > 0 {
      assert w[i] in c.entries;
    }
  }

  lemma ToFrontMembers(es: seq<Entry>, i: nat)
    requires i < |es|
    ensures forall e :: e in ToFront(es, i) <==> e in es
    ensures OnePerHash(es) ==> OnePerHash(ToFront(es, i))
  {
    var t := ToFront(es, i);
    forall e | e in es ensures e in t {
      var k :| 0 <= k < |es| && es[k] == e;
      assert t[if k == i then 0 else if k < i then k + 1 else k] == e;
    }
  }

  lemma FindKeepsSound(c: Cache, hash: Hash, key: seq<byte>)
    requires Sound(c)
    ensures Sound(Find(c, hash, key).0)
    ensures forall e :: e in Find(c, hash, key).0.entries <==> e in c.entries
    ensures Find(c, hash, key).1.Some? ==> Entry(hash, key, Find(c, hash, key).1.value) in c.entries
    ensures Find(c, hash, key).1.None? ==>
              Find(c, hash, key).0 == c && forall e | e in c.entries :: !Matches(e, hash, key)
  {
    var i := FindIndex(c.entries, hash, key, 0);
    if i < |c.entries| {
      TotalErase(c.entries, i);
      ToFrontMembers(c.entries, i);
      var t := ToFront(c.entries, i);
      forall j | 0 <= j < |t| ensures |t[j].data| > 0 {
        assert t[j] in c.entries;
      }
      assert c.entries[i] == Entry(hash, key, c.entries[i].data);
    }
  }

  /** What is left after eviction, and the room it makes. */
  lemma EvictKeepsSound(c: Cache, needed: nat)
    requires Sound(c) && c.limit > 0 && needed <= c.budget
    ensures Sound(Evict(c, needed))
    ensures |Evict(c, needed).entries| < c.limit && Total(Evict(c, needed).entries) + needed <= c.budget
    ensures forall e | e in Evict(c, needed).entries :: e in c.entries
  {
    EvictsShortestSuffix(c.entries, c.budget, c.limit, needed, 0);
    TotalPrefix(c.entries, Keep(c.entries, c.budget, c.limit, needed));
  }

  lemma PushKeepsSound(c: Cache, e: Entry)
    requires Sound(c) && |c.entries| < c.limit && Total(c.entries) + SizeOf(e) <= c.budget && |e.data| > 0
    requires forall x | x in c.entries :: x.hash != e.hash
    ensures Sound(Push(c, e))
    ensures forall x :: x in Push(c, e).entries <==> x == e || x in c.entries
  {
    TotalOne(e);
    TotalConcat([e], c.entries);
    FrontIsSound(e, c.entries);
  }

  lemma FillKeepsSound(c: Cache, hash: Hash, key: seq<byte>, dataSize: nat, decoded: Option<seq<byte>>)
    requires Sound(c) && (decoded.Some? ==> |decoded.value| == dataSize)
    ensures Sound(Fill(c, hash, key, dataSize, decoded).0)
    ensures Fill(c, hash, key, dataSize, decoded).1 == if Accepts(c, |key|, dataSize) then decoded else None
    ensures forall e | e in Fill(c, hash, key, dataSize, decoded).0.entries ::
              (e in c.entries && e.hash != hash) || (decoded.Some? && e == Entry(hash, key, decoded.value))
  {
    var c1 := Invalidate(c, hash);
    InvalidateKeepsSound(c, hash);
    hide Invalidate, Evict, Push, Sound;
    if Accepts(c, |key|, dataSize) {
      EvictKeepsSound(c1, |key| + dataSize);
      if decoded.Some? {
        PushKeepsSound(Evict(c1, |key| + dataSize), Entry(hash, key, decoded.value));
      }
    }
  }

  lemma FrontIsSound(e: Entry, es: seq<Entry>)
    requires OnePerHash(es) && forall x | x in es :: x.hash != e.hash
    ensures OnePerHash([e] + es)
  {
    var whole := [e] + es;
    forall i, j | 0 <= i < j < |whole| ensures whole[i].hash != whole[j].hash {
      assert whole[j] == es[j - 1] && es[j - 1] in es;
      if i > 0 {
        assert whole[i] == es[i - 1];
      }
    }
  }

  // ---------- what a fill leaves ----------

  /** The entries of other hashes in their order, when at most one has this hash. */
  ghost predicate OthersOf(es: seq<Entry>, hash: Hash, others: seq<Entry>) {
    || (others == es && forall i | 0 <= i < |es| :: es[i].hash != hash)
    || exists i | 0 <= i < |es| :: es[i].hash == hash && others == es[..i] + es[i + 1..]
  }

  /** The first `n` of the others, and no more of them, fit beside `needed` bytes of one more entry. */
  ghost predicate Fitting(others: seq<Entry>, n: nat, budget: nat, limit: nat, needed: nat) {
    && n <= |others| && n + 1 <= limit && Total(others[..n]) + needed <= budget
    && (n < |others| ==> n + 2 > limit || Total(others[..n + 1]) + needed > budget)
  }

  lemma {:induction false} WithoutIsOthers(es: seq<Entry>, hash: Hash)
    requires OnePerHash(es)
    ensures OthersOf(es, hash, Without(es, hash))
  {
    if es != [] {
      var front, last := es[..|es| - 1], es[|es| - 1];
      WithoutIsOthers(front, hash);
      if last.hash == hash {
        assert forall i | 0 <= i < |front| :: front[i].hash != hash;
        assert es[..|es| - 1] + es[|es|..] == front;
      } else {
        OthersSnoc(front, last, hash, Without(front, hash));
        assert front + [last] == es;
      }
    }
  }

  lemma OthersSnoc(es: seq<Entry>, e: Entry, hash: Hash, others: seq<Entry>)
    requires OthersOf(es, hash, others) && e.hash != hash
    ensures OthersOf(es + [e], hash, others + [e])
  {
    var all := es + [e];
    if i :| 0 <= i < |es| && es[i].hash == hash && others == es[..i] + es[i + 1..] {
      assert all[i].hash == hash && all[..i] + all[i + 1..] == others + [e];
    }
  }

  lemma KeepIsFitting(others: seq<Entry>, budget: nat, limit: nat, needed: nat)
    requires limit > 0 && needed <= budget
    ensures Fitting(others, Keep(others, budget, limit, needed), budget, limit, needed)
  {
    var n := Keep(others, budget, limit, needed);
    EvictsShortestSuffix(others, budget, limit, needed, if n < |others| then n + 1 else n);
    hide Total, Keep;
  }

  /** The filled entry, if any, and behind it the others that fit. */
  ghost predicate FilledWith(c: Cache, c': Cache, hash: Hash, key: seq<byte>, filled: Option<seq<byte>>,
                             dataSize: nat, others: seq<Entry>, n: nat)
  {
    && OthersOf(c.entries, hash, others) && Fitting(others, n, c.budget, c.limit, |key| + dataSize)
    && c'.entries == (if filled.Some? then [Entry(hash, key, filled.value)] else []) + others[..n]
    && c' == c.(entries := c'.entries, evictions := c.evictions + (|others| - n))
  }

  /** A fill of a size that can be held returns what the decoder made and puts exactly that first;
      behind it stay the most recent entries of other hashes, as many as fit; a failing decoder
      leaves only these, and a size that cannot be held only drops the hash's own entry. */
  lemma FillIs(c: Cache, hash: Hash, key: seq<byte>, dataSize: nat, decoded: Option<seq<byte>>)
    requires Sound(c) && (decoded.Some? ==> |decoded.value| == dataSize)
    ensures var (c', r) := Fill(c, hash, key, dataSize, decoded);
            if c.limit > 0 && 0 < dataSize && |key| + dataSize <= c.budget then
              r == decoded && exists others, n :: FilledWith(c, c', hash, key, r, dataSize, others, n)
            else r == None && OthersOf(c.entries, hash, c'.entries) && c' == c.(entries := c'.entries)
  {
    hide Without, Total, OthersOf, Keep, Fitting;
    var others := Without(c.entries, hash);
    WithoutIsOthers(c.entries, hash);
    if Accepts(c, |key|, dataSize) {
      FitsIs(c, hash, key, dataSize, decoded);
      hide Fill, FilledWith;
    }
  }

  lemma FitsIs(c: Cache, hash: Hash, key: seq<byte>, dataSize: nat, decoded: Option<seq<byte>>)
    requires Accepts(c, |key|, dataSize) && OthersOf(c.entries, hash, Without(c.entries, hash))
    ensures var (c', r) := Fill(c, hash, key, dataSize, decoded);
            var others := Without(c.entries, hash);
            && r == decoded
            && FilledWith(c, c', hash, key, r, dataSize, others,
                          Keep(others, c.budget, c.limit, |key| + dataSize))
  {
    hide Without, Total, OthersOf, Keep, Fitting;
    var others := Without(c.entries, hash);
    KeepIsFitting(others, c.budget, c.limit, |key| + dataSize);
  }

  /** What a fill returned is what the next search finds, without moving anything. */
  lemma FilledIsFound(c: Cache, hash: Hash, key: seq<byte>, dataSize: nat, decoded: Option<seq<byte>>)
    requires Sound(c) && (decoded.Some? ==> |decoded.value| == dataSize)
    requires Fill(c, hash, key, dataSize, decoded).1.Some?
    ensures var (c', r) := Fill(c, hash, key, dataSize, decoded);
            c'.entries != [] && c'.entries[0] == Entry(hash, key, r.value) && Find(c', hash, key) == (c', r)
  {
    FillIs(c, hash, key, dataSize, decoded);
    hide Fill, OthersOf, Fitting, Sound;
    var c' := Fill(c, hash, key, dataSize, decoded).0;
    assert ToFront(c'.entries, 0) == c'.entries;
  }

  lemma ClearedIsEmpty(c: Cache)
    ensures Clear(c) == c.(entries := [])
  {
  }

  // ---------- recency ----------

  datatype Op =
    | FindOp(hash: Hash, key: seq<byte>)
    | FillOp(hash: Hash, key: seq<byte>, dataSize: nat, decoded: Option<seq<byte>>)
    | InvalidateOp(hash: Hash)
    | ClearOp

  /** A decoder that succeeds fills exactly the size it was asked for. */
  ghost predicate Proper(ops: seq<Op>) {
    forall i | 0 <= i < |ops| ::
      ops[i].FillOp? && ops[i].decoded.Some? ==> |ops[i].decoded.value| == ops[i].dataSize
  }

  function Apply(c: Cache, op: Op): Cache {
    match op
    case FindOp(hash, key) => Find(c, hash, key).0
    case FillOp(hash, key, dataSize, decoded) => Fill(c, hash, key, dataSize, decoded).0
    case InvalidateOp(hash) => Invalidate(c, hash)
    case ClearOp => Clear(c)
  }

  function RunOps(c: Cache, ops: seq<Op>): Cache {
    if ops == [] then c else Apply(RunOps(c, ops[..|ops| - 1]), ops[|ops| - 1])
  }

  /** The operation hands out the blob stored under this hash. */
  predicate Touches(c: Cache, op: Op, hash: Hash) {
    match op
    case FindOp(h, key) => h == hash && Find(c, h, key).1.Some?
    case FillOp(h, key, dataSize, decoded) => h == hash && Fill(c, h, key, dataSize, decoded).1.Some?
    case _ => false
  }

  /** One plus the position of the last operation that handed out this hash's blob. */
  function LastTouch(c: Cache, ops: seq<Op>, hash: Hash): (n: nat)
    ensures n <= |ops|
  {
    if ops == [] then 0
    else
      var front := ops[..|ops| - 1];
      if Touches(RunOps(c, front), ops[|ops| - 1], hash) then |ops| else LastTouch(c, front, hash)
  }

  ghost predicate Ranked(es: seq<Entry>, rank: Hash -> nat) {
    forall i, j | 0 <= i < j < |es| :: rank(es[i].hash) > rank(es[j].hash)
  }

  lemma {:induction false} WithoutRanked(es: seq<Entry>, hash: Hash, rank: Hash -> nat)
    requires Ranked(es, rank)
    ensures Ranked(Without(es, hash), rank)
  {
    if es != [] {
      var front, last := es[..|es| - 1], es[|es| - 1];
      WithoutRanked(front, hash, rank);
      var w := Without(front, hash);
      forall i | 0 <= i < |w| ensures rank(w[i].hash) > rank(last.hash) {
        WithoutMembers(front, hash, w[i]);
      }
    }
  }

  /** A new first entry with the highest rank, the others keeping theirs. */
  lemma PushRanked(e: Entry, es: seq<Entry>, rank: Hash -> nat, rank': Hash -> nat)
    requires Ranked(es, rank)
    requires forall x | x in es :: rank'(x.hash) == rank(x.hash) && rank(x.hash) < rank'(e.hash)
    ensures Ranked([e] + es, rank')
  {
    var whole := [e] + es;
    forall i, j | 0 <= i < j < |whole| ensures rank'(whole[i].hash) > rank'(whole[j].hash) {
      assert whole[j] == es[j - 1] && es[j - 1] in es;
      if i > 0 {
        assert whole[i] == es[i - 1] && es[i - 1] in es;
      }
    }
  }

  lemma OthersRanked(es: seq<Entry>, i: nat, rank: Hash -> nat)
    requires i < |es| && Ranked(es, rank) && OnePerHash(es)
    ensures Ranked(es[..i] + es[i + 1..], rank)
    ensures forall x | x in es[..i] + es[i + 1..] :: x.hash != es[i].hash
  {
    var others := es[..i] + es[i + 1..];
    forall j | 0 <= j < |others| ensures others[j] == es[if j < i then j else j + 1] {
    }
  }

  /** Moving entry `i` to the front under the highest rank. */
  lemma ToFrontRanked(es: seq<Entry>, i: nat, rank: Hash -> nat, rank': Hash -> nat, top: nat)
    requires i < |es| && OnePerHash(es) && Ranked(es, rank) && (forall h :: rank(h) < top)
    requires forall h | h != es[i].hash :: rank'(h) == rank(h)
    requires rank'(es[i].hash) == top
    ensures Ranked(ToFront(es, i), rank')
  {
    var e, others := es[i], es[..i] + es[i + 1..];
    OthersRanked(es, i, rank);
    assert ToFront(es, i) == [e] + others;
    hide Ranked, OnePerHash, ToFront;
    PushRanked(e, others, rank, rank');
  }

  lemma FindRanked(c: Cache, hash: Hash, key: seq<byte>, rank: Hash -> nat, rank': Hash -> nat, top: nat)
    requires OnePerHash(c.entries) && Ranked(c.entries, rank) && (forall h :: rank(h) < top)
    requires forall h | h != hash :: rank'(h) == rank(h)
    requires rank'(hash) == if Find(c, hash, key).1.Some? then top else rank(hash)
    ensures Ranked(Find(c, hash, key).0.entries, rank')
  {
    hide FindIndex, ToFront, OnePerHash;
    var i := FindIndex(c.entries, hash, key, 0);
    if i < |c.entries| {
      hide Ranked;
      ToFrontRanked(c.entries, i, rank, rank', top);
    }
  }

  lemma InvalidateRanked(c: Cache, hash: Hash, rank: Hash -> nat)
    requires Sound(c) && Ranked(c.entries, rank)
    ensures Sound(Invalidate(c, hash)) && Ranked(Invalidate(c, hash).entries, rank)
    ensures forall e | e in Invalidate(c, hash).entries :: e.hash != hash
    ensures Invalidate(c, hash).budget == c.budget && Invalidate(c, hash).limit == c.limit
  {
    WithoutRanked(c.entries, hash, rank);
    InvalidateKeepsSound(c, hash);
  }

  lemma EvictRanked(c: Cache, needed: nat, rank: Hash -> nat)
    requires c.limit > 0 && needed <= c.budget && Ranked(c.entries, rank)
    ensures Ranked(Evict(c, needed).entries, rank)
    ensures forall e | e in Evict(c, needed).entries :: e in c.entries
  {
  }

  lemma FillRanked(c: Cache, op: Op, rank: Hash -> nat, rank': Hash -> nat, top: nat)
    requires op.FillOp? && Sound(c) && Ranked(c.entries, rank) && (forall h :: rank(h) < top)
    requires forall h | h != op.hash :: rank'(h) == rank(h)
    requires Fill(c, op.hash, op.key, op.dataSize, op.decoded).1.Some? ==> rank'(op.hash) == top
    ensures Ranked(Apply(c, op).entries, rank')
  {
    var c1 := Invalidate(c, op.hash);
    InvalidateRanked(c, op.hash, rank);
    hide Invalidate, Sound;
    if Accepts(c, |op.key|, op.dataSize) {
      var c2 := Evict(c1, |op.key| + op.dataSize);
      EvictRanked(c1, |op.key| + op.dataSize, rank);
      hide Evict;
      if op.decoded.Some? {
        PushRanked(Entry(op.hash, op.key, op.decoded.value), c2.entries, rank, rank');
      }
    }
  }

  /** After any run from an empty cache: the byte and entry limits hold, no two entries share
      a hash, and the list is ordered by when each blob was last handed out. */
  lemma {:induction false} RunIsSoundAndRecent(c: Cache, ops: seq<Op>)
    requires c.entries == [] && Proper(ops)
    ensures Sound(RunOps(c, ops))
    ensures Ranked(RunOps(c, ops).entries, h => LastTouch(c, ops, h))
    ensures RunOps(c, ops).budget == c.budget && RunOps(c, ops).limit == c.limit
  {
    if ops != [] {
      var front, op := ops[..|ops| - 1], ops[|ops| - 1];
      RunIsSoundAndRecent(c, front);
      var c1 := RunOps(c, front);
      var rank, rank' := h => LastTouch(c, front, h), h => LastTouch(c, ops, h);
      assert forall h :: rank'(h) == if Touches(c1, op, h) then |ops| else rank(h);
      hide LastTouch;
      match op
      case FindOp(hash, key) =>
        FindKeepsSound(c1, hash, key);
        FindRanked(c1, hash, key, rank, rank', |ops|);
      case FillOp(hash, key, dataSize, decoded) =>
        FillKeepsSound(c1, hash, key, dataSize, decoded);
        FillRanked(c1, op, rank, rank', |ops|);
      case InvalidateOp(hash) =>
        InvalidateKeepsSound(c1, hash);
        WithoutRanked(c1.entries, hash, rank);
      case ClearOp =>
    }
  }

  // ---------- the class ----------

  /** One turn of the erase loop: entry `k` is kept or dropped. */
  lemma WithoutStep(es: seq<Entry>, k: nat, hash: Hash)
    requires k < |es|
    ensures var w, w' := Without(es[..k], hash), Without(es[..k + 1], hash);
            var whole := w + es[k..];
            && whole[|w|] == es[k]
            && (es[k].hash == hash ==> w' == w && whole[..|w|] + whole[|w| + 1..] == w + es[k + 1..])
            && (es[k].hash != hash ==> |w'| == |w| + 1 && whole == w' + es[k + 1..])
  {
    assert es[..k + 1][..k] == es[..k];
  }

  class ReadCache {
    var entries: seq<Entry>
    var bytes: nat
    var evictions: nat
    const budget: nat
    const limit: nat

    ghost predicate Valid()
      reads this
    {
      Sound(View()) && bytes == Total(entries)
    }

    ghost function View(): Cache
      reads this
    {
      Cache(budget, limit, entries, evictions)
    }

    constructor (budget: nat, limit: nat)
      ensures Valid() && View() == Cache(budget, limit, [], 0)
    {
      this.budget, this.limit := budget, limit;
      entries, bytes, evictions := [], 0, 0;
    }

    predicate AcceptsSizes(keySize: nat, dataSize: nat)
      reads this
      ensures AcceptsSizes(keySize, dataSize) == Accepts(View(), keySize, dataSize)
    {
      limit > 0 && keySize <= budget && dataSize > 0 && dataSize <= budget - keySize
    }

    method FindBlob(hash: Hash, key: seq<byte>) returns (found: Option<seq<byte>>)
      requires Valid()
      modifies this`entries
      ensures Valid() && (View(), found) == Find(old(View()), hash, key)
    {
      FindKeepsSound(View(), hash, key);
      hide Total, Sound;
      var i := 0;
      while i < |entries|
        invariant i <= |entries| && FindIndex(entries, hash, key, 0) == FindIndex(entries, hash, key, i)
      {
        if entries[i].hash == hash && |entries[i].key| == |key| && entries[i].key == key {
          TotalErase(entries, i);
          found := Some(entries[i].data);
          entries := [entries[i]] + entries[..i] + entries[i + 1..];
          return;
        }
        i := i + 1;
      }
      found := None;
    }

    method EraseHash(hash: Hash)
      requires bytes == Total(entries)
      modifies this`entries, this`bytes
      ensures bytes == Total(entries) && entries == Without(old(entries), hash)
    {
      hide Total;
      ghost var before := entries;
      ghost var k := 0;
      var i := 0;
      assert before[..k] == [];
      while i < |entries|
        invariant k <= |before| && i == |Without(before[..k], hash)|
        invariant entries == Without(before[..k], hash) + before[k..]
        invariant bytes == Total(entries)
        decreases |before| - k
      {
        var e := entries[i];
        WithoutStep(before, k, hash);
        if e.hash == hash {
          TotalErase(entries, i);
          bytes := bytes - (|e.key| + |e.data|);
          entries := entries[..i] + entries[i + 1..];
        } else {
          i := i + 1;
        }
        k := k + 1;
      }
      assert before[..k] == before;
    }

    method InvalidateHash(hash: Hash)
      requires Valid()
      modifies this`entries, this`bytes
      ensures Valid() && View() == Invalidate(old(View()), hash)
    {
      InvalidateKeepsSound(View(), hash);
      EraseHash(hash);
      assert View() == Invalidate(old(View()), hash);
    }

    /** The eviction loop of fill: it never pops an empty list. */
    method MakeRoom(needed: nat)
      requires bytes == Total(entries) && limit > 0 && needed <= budget
      modifies this`entries, this`bytes, this`evictions
      ensures bytes == Total(entries) && View() == Evict(old(View()), needed)
    {
      ghost var before := entries;
      assert before[..|before|] == before;
      while |entries| >= limit || bytes > budget - needed
        invariant entries == before[..|entries|] && |entries| <= |before|
        invariant bytes == Total(entries)
        invariant evictions == old(evictions) + |before| - |entries|
        invariant Keep(entries, budget, limit, needed) == Keep(before, budget, limit, needed)
        decreases |entries|
      {
        var last := entries[|entries| - 1];
        assert before[..|entries|][..|entries| - 1] == before[..|entries| - 1];
        bytes := bytes - (|last.key| + |last.data|);
        entries := entries[..|entries| - 1];
        evictions := evictions + 1;
      }
    }

    /** `decoded` is what the caller's decoder answers when it is run. */
    method FillBlob(hash: Hash, key: seq<byte>, dataSize: nat, decoded: Option<seq<byte>>)
      returns (filled: Option<seq<byte>>)
      requires Valid() && (decoded.Some? ==> |decoded.value| == dataSize)
      modifies this
      ensures Valid() && (View(), filled) == Fill(old(View()), hash, key, dataSize, decoded)
      ensures filled.Some? ==> entries != [] && entries[0] == Entry(hash, key, filled.value)
    {
      ghost var before := View();
      EraseHash(hash);
      assert View() == Invalidate(before, hash);
      filled := None;
      if AcceptsSizes(|key|, dataSize) {
        filled := Replace(hash, key, dataSize, decoded);
      }
      FillKeepsSound(before, hash, key, dataSize, decoded);
      if filled.Some? {
        FilledIsFound(before, hash, key, dataSize, decoded);
      }
    }

    /** The rest of fill, for sizes the cache accepts. */
    method Replace(hash: Hash, key: seq<byte>, dataSize: nat, decoded: Option<seq<byte>>)
      returns (filled: Option<seq<byte>>)
      requires bytes == Total(entries) && limit > 0 && |key| + dataSize <= budget
      requires decoded.Some? ==> |decoded.value| == dataSize
      modifies this
      ensures bytes == Total(entries) && filled == decoded
      ensures View() == var c := Evict(old(View()), |key| + dataSize);
                        if decoded.None? then c else Push(c, Entry(hash, key, decoded.value))
    {
      hide Keep;
      filled := decoded;
      var needed := |key| + dataSize;
      MakeRoom(needed);
      if decoded.Some? {
        var e := Entry(hash, key, decoded.value);
        TotalOne(e);
        TotalConcat([e], entries);
        entries := [e] + entries;
        bytes := bytes + needed;
      }
    }

    method ClearAll()
      requires Valid()
      modifies this`entries, this`bytes
      ensures Valid() && View() == Clear(old(View()))
    {
      entries, bytes := [], 0;
    }
  }
}
