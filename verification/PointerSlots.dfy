/**
 32-bit disc pointer slots on a console whose memory lies above 4 GB: the window that
 switch/patches/aurora-switch-mem1-window.patch finds a place for, and the encoding and
 resolving of slots of switch/patches/melee-switch-disc-ptr-window.patch. Pointers are 64-bit
 addresses; 32-bit arithmetic wraps.
 */
module PointerSlots {
  import opened Sequences

  const WORD: nat := 0x1_0000_0000
  const ESCAPE: nat := 0x0200_0000
  const ID_LIMIT: nat := 0x0100_0000
  const ARAM_LIMIT: nat := 0x0100_0000
  const FIRST_SLOT: nat := 0x0300_0000

  type Slot = s: nat | s < WORD

  /** pc_mem1_hi, pc_mem1_lo and pc_mem1_len. */
  datatype Window = Window(hi: nat, lo: Slot, len: Slot)

  /** pc_disc_set_mem1_window. */
  function WindowAt(base: nat, size: Slot): Window { Window(base - base % WORD, base % WORD, size) }

  /** Mem1WindowUsable. */
  predicate Usable(p: nat, size: Slot) { FIRST_SLOT <= p % WORD && p % WORD + size <= WORD }

  /** 32-bit subtraction. */
  function Minus(a: Slot, b: Slot): Slot { (a - b) % WORD }

  /** pc_dp_in_window. */
  predicate InWindow(w: Window, p: nat) {
    if w.len == 0 then p < WORD else p - p % WORD == w.hi && Minus(p % WORD, w.lo) < w.len
  }

  /** The table of pointers outside the window: ids count from 1. */
  function IdOf(ext: seq<nat>, p: nat): (i: nat)
    ensures i <= |ext|
    ensures i < |ext| ==> ext[i] == p
    ensures i == |ext| <==> p !in ext
    decreases |ext|
  {
    if ext == [] || ext[0] == p then 0 else 1 + IdOf(ext[1..], p)
  }

  /** pc_register_ext_ptr: the pointer's id, new at the end of the table if need be. */
  function Register(ext: seq<nat>, p: nat): (r: (seq<nat>, nat))
    ensures ext <= r.0 && 1 <= r.1 <= |r.0| && r.0[r.1 - 1] == p
  {
    var i := IdOf(ext, p);
    if i < |ext| then (ext, i + 1) else (ext + [p], |ext| + 1)
  }

  /** pc_encode_dp: the slot, and the table after registering what does not fit. */
  function Encode(w: Window, ext: seq<nat>, p: nat): (seq<nat>, nat) {
    if p == 0 then (ext, 0)
    else if InWindow(w, p) then (ext, p % WORD)
    else if p < WORD then (ext, p)
    else (Register(ext, p).0, ESCAPE + Register(ext, p).1)
  }

  /** pc_resolve_dp; a slot that names no table entry resolves to null. */
  function Resolve(w: Window, ext: seq<nat>, slot: nat): nat {
    if slot / ID_LIMIT == 2 then
      var id := slot % ID_LIMIT;
      if 1 <= id <= |ext| then ext[id - 1] else 0
    else if w.len != 0 && slot < WORD && Minus(slot, w.lo) < w.len then w.hi + slot
    else slot
  }

  /** The window of a block the allocator accepted. */
  ghost predicate Accepted(w: Window, base: nat, size: Slot) {
    w == WindowAt(base, size) && Usable(base, size) && size > 0
  }

  // ---------- the window ----------

  /** The window test is membership in the block. */
  lemma InWindowIsInBlock(w: Window, base: nat, size: Slot, p: nat)
    requires Accepted(w, base, size)
    ensures InWindow(w, p) <==> base <= p < base + size
  {
  }

  /** Slots of the block are those from its low half on: above every other kind of slot. */
  lemma SlotRangesAreDisjoint(w: Window, base: nat, size: Slot, slot: Slot)
    requires Accepted(w, base, size)
    ensures Minus(slot, w.lo) < w.len <==> base % WORD <= slot < base % WORD + size
    ensures Minus(slot, w.lo) < w.len ==> slot >= FIRST_SLOT && slot / ID_LIMIT != 2 && slot >= ARAM_LIMIT
  {
  }

  // ---------- round trips ----------

  /** A table that only holds what encode registers, with room for one more. */
  ghost predicate TableOk(ext: seq<nat>) { |ext| + 1 < ID_LIMIT && forall i | 0 <= i < |ext| :: ext[i] >= WORD }

  /** Encode registers nothing but pointers beyond 4 GB, and keeps the ids it gave out. */
  lemma EncodeKeepsTable(w: Window, ext: seq<nat>, p: nat)
    requires TableOk(ext)
    ensures var table := Encode(w, ext, p).0; ext <= table && forall i | 0 <= i < |table| :: table[i] >= WORD
  {
  }

  /** Resolve undoes encode, with the table as it is then or any later one, for null, for
      everything in the block, for every pointer beyond 4 GB, and among the other low addresses for
      exactly those whose value is neither an escaped slot nor a slot of the block: every ARAM
      offset below 16 MB is one of them. */
  lemma ResolveUndoesEncodeExactly(w: Window, base: nat, size: Slot, ext: seq<nat>, later: seq<nat>, p: nat)
    requires Accepted(w, base, size) && Encode(w, ext, p).0 <= later && TableOk(later)
    ensures Resolve(w, later, Encode(w, ext, p).1) == p <==>
              || InWindow(w, p)
              || p >= WORD
              || (p / ID_LIMIT != 2 && !(base % WORD <= p < base % WORD + size))
  {
  }

  lemma BlockRoundTrip(w: Window, base: nat, size: Slot, ext: seq<nat>, p: nat)
    requires Accepted(w, base, size) && InWindow(w, p)
    ensures Resolve(w, ext, p % WORD) == p
  {
    InWindowIsInBlock(w, base, size, p);
    SlotRangesAreDisjoint(w, base, size, p % WORD);
    hide Minus;
  }

  /** Relocation by raw 32-bit addition: adding k to a slot of the block, modulo 2 to the 32,
      resolves to the pointer plus k whenever both lie in the block. */
  lemma RelocationIsAddition(w: Window, base: nat, size: Slot, ext: seq<nat>, p: nat, k: int)
    requires Accepted(w, base, size)
    requires base <= p < base + size && base <= p + k < base + size
    ensures Resolve(w, ext, (Encode(w, ext, p).1 + k) % WORD) == p + k
  {
    InWindowIsInBlock(w, base, size, p);
    InWindowIsInBlock(w, base, size, p + k);
    BlockRoundTrip(w, base, size, ext, p + k);
    hide Resolve, InWindow, Accepted;
    SlotsMoveTogether(p, k);
  }

  lemma SlotsMoveTogether(p: nat, k: int)
    requires p + k >= 0
    ensures (p % WORD + k) % WORD == (p + k) % WORD
  {
    var q := p / WORD;
    assert p == q * WORD + p % WORD;
    var r, m := (p % WORD + k) / WORD, (p % WORD + k) % WORD;
    assert p % WORD + k == r * WORD + m;
    assert p + k == (q + r) * WORD + m;
  }

  // ---------- the slots themselves ----------

  /** The slot of a pointer by where it points, and the one pointer that the table may gain. */
  lemma SlotIs(w: Window, base: nat, size: Slot, ext: seq<nat>, p: nat)
    requires Accepted(w, base, size) && TableOk(ext)
    ensures var (table, slot) := Encode(w, ext, p);
            && slot < 0x1_0000_0000
            && (base <= p < base + size ==> slot == p % 0x1_0000_0000 && table == ext)
            && (p < 0x1_0000_0000 && !(base <= p < base + size) ==> slot == p && table == ext)
            && (p >= 0x1_0000_0000 && !(base <= p < base + size) ==>
                  && 0x0200_0000 < slot < 0x0300_0000 && table[slot - 0x0200_0000 - 1] == p
                  && table == if p in ext then ext else ext + [p])
  {
    InWindowIsInBlock(w, base, size, p);
    hide InWindow;
  }

  /** Before a window is set every low address is its own slot. */
  lemma WithoutWindow(ext: seq<nat>, p: nat)
    ensures var none := Window(0, 0, 0);
            && (InWindow(none, p) <==> p < 0x1_0000_0000)
            && (p < 0x1_0000_0000 ==> Encode(none, ext, p) == (ext, p))
            && (p < 0x1_0000_0000 && p / 0x0100_0000 != 2 ==> Resolve(none, ext, p) == p)
  {
  }

  /** An escaped slot that names no registered pointer resolves to null. */
  lemma UnknownIsNull(w: Window, ext: seq<nat>, id: nat)
    requires id < 0x0100_0000 && (id == 0 || id > |ext|)
    ensures Resolve(w, ext, 0x0200_0000 + id) == 0
  {
  }

  /** A block can be a window exactly when all its addresses share their high half and have low
      halves from 48 MiB on. */
  lemma UsableExactlyWhen(p: nat, size: Slot)
    requires size > 0
    ensures Usable(p, size) <==> forall q | p <= q < p + size ::
              q / 0x1_0000_0000 == p / 0x1_0000_0000 && q % 0x1_0000_0000 >= 0x0300_0000
  {
    var hi, lo := p / WORD, p % WORD;
    assert p == hi * WORD + lo;
    if Usable(p, size) {
      forall q | p <= q < p + size ensures q / WORD == hi && q % WORD >= FIRST_SLOT {
        HalvesOf(q, hi, lo + (q - p));
      }
    } else if lo >= FIRST_SLOT {
      HalvesOf((hi + 1) * WORD, hi + 1, 0);
      assert p <= (hi + 1) * WORD < p + size;
    } else {
      assert p <= p < p + size;
    }
  }

  lemma HalvesOf(q: nat, hi: nat, lo: nat)
    requires q == hi * WORD + lo && lo < WORD
    ensures q / WORD == hi && q % WORD == lo
  {
  }

  // ---------- finding a place ----------

  /** The allocator: it may refuse, and it never hands out memory that is held. `given` is every
      answer so far; `freed` every block given back. */
  class Heap {
    var held: set<nat>
    ghost var given: seq<Option<nat>>
    ghost var freed: seq<nat>

    constructor ()
      ensures held == {} && given == [] && freed == []
    {
      held, given, freed := {}, [], [];
    }

    method Memalign(size: nat) returns (p: Option<nat>)
      modifies this
      ensures given == old(given) + [p] && freed == old(freed)
      ensures p == None ==> held == old(held)
      ensures p.Some? ==> p.value !in old(held) && held == old(held) + {p.value}
    {
      p := *;
      if p.Some? && p.value in held {
        p := None;
      }
      if p.Some? {
        held := held + {p.value};
      }
      given := given + [p];
    }

    method Free(p: nat)
      requires p in held
      modifies this
      ensures held == old(held) - {p} && freed == old(freed) + [p] && given == old(given)
    {
      held := held - {p};
      freed := freed + [p];
    }
  }

  ghost function Elements(s: seq<nat>): set<nat> { set x | x in s }

  ghost function Answers(s: seq<nat>): seq<Option<nat>> { seq(|s|, i requires 0 <= i < |s| => Some(s[i])) }

  lemma AnswersSnoc(s: seq<nat>, x: nat)
    ensures Answers(s + [x]) == Answers(s) + [Some(x)]
    ensures Elements(s + [x]) == Elements(s) + {x}
  {
  }

  /** AllocMEM1's search, up to its fatal error. It takes the first block the window scheme can
      describe and asks at most five times; every refused block is freed once, whatever the
      outcome, and nothing else is held afterwards. */
  method AllocMem1(heap: Heap, size: Slot) returns (p: Option<nat>, ghost refused: seq<nat>)
    modifies heap
    ensures p.Some? ==> Usable(p.value, size) && p.value !in old(heap.held)
    ensures forall i | 0 <= i < |refused| :: !Usable(refused[i], size)
    ensures |refused| <= 5 && (|refused| == 5 ==> p == None)
    ensures heap.given == old(heap.given) + Answers(refused) + if |refused| == 5 then [] else [p]
    ensures heap.held == old(heap.held) + if p.Some? then {p.value} else {}
    ensures Distinct(refused) && multiset(heap.freed) == multiset(old(heap.freed)) + multiset(refused)
  {
    hide Usable;
    ghost var was := heap.held;
    var rejects: array<nat>, rejected: nat := new nat[4], 0;
    refused, p := [], None;
    var last: Option<nat> := None;
    assert heap.given == old(heap.given) + Answers(refused);
    while true
      invariant rejected <= 4 == rejects.Length && fresh(rejects) && p == None
      invariant refused == rejects[..rejected] && Distinct(refused)
      invariant heap.given == old(heap.given) + Answers(refused) && heap.freed == old(heap.freed)
      invariant heap.held == was + Elements(refused) && was !! Elements(refused)
      invariant forall i | 0 <= i < |refused| :: !Usable(refused[i], size)
      decreases 4 - rejected
    {
      var cand := heap.Memalign(size);
      if cand.None? {
        break;
      }
      if Usable(cand.value, size) {
        p := cand;
        break;
      }
      AnswersSnoc(refused, cand.value);
      refused := refused + [cand.value];
      if rejected == rejects.Length {
        heap.Free(cand.value);
        break;
      }
      rejects[rejected] := cand.value;
      rejected := rejected + 1;
    }
    FreeAll(heap, rejects, rejected);
  }

  /** The loop that gives the rejects back. */
  method FreeAll(heap: Heap, rejects: array<nat>, rejected: nat)
    requires rejected <= rejects.Length && Distinct(rejects[..rejected])
    requires Elements(rejects[..rejected]) <= heap.held
    modifies heap
    ensures heap.held == old(heap.held) - Elements(rejects[..rejected]) && heap.given == old(heap.given)
    ensures heap.freed == old(heap.freed) + rejects[..rejected]
  {
    ghost var all := rejects[..rejected];
    for i := 0 to rejected
      invariant heap.held == old(heap.held) - Elements(all[..i]) && heap.given == old(heap.given)
      invariant heap.freed == old(heap.freed) + all[..i]
    {
      AnswersSnoc(all[..i], all[i]);
      assert all[..i + 1] == all[..i] + [all[i]];
      assert all[i] in Elements(all) && all[i] !in Elements(all[..i]);
      heap.Free(rejects[i]);
    }
    assert all[..rejected] == all;
  }
}
