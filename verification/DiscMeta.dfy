/**
 The disc.meta format: what aurora_dvd_save_meta writes, what aurora_dvd_open_files makes of a
 file, and that the two undo each other. Integers are little-endian with fixed width.
 */
module DiscMeta {
  import opened Sequences
  import opened Endian

  type I32 = x: int | -0x8000_0000 <= x < 0x8000_0000
  type Word = n: nat | n < U32

  const MAGIC: nat := 0x4D4C_5601
  const VERSION: nat := 1
  const DISK_ID_SIZE: nat := 32
  const MAX_ENTRIES: nat := 200_000
  const MAX_NAME: nat := 4096
  const INVALID: nat := 0xFFFF_FFFF

  /** FSTEntry; `overlay` marks an entry a mod added, which the format does not record. */
  datatype Entry = Entry(
    isDir: bool, parent: I32, nextOrLength: Word, origEntryNum: I32, name: seq<byte>, overlay: bool)

  datatype Meta = Meta(diskId: seq<byte>, baseCount: I32, entries: seq<Entry>)

  /** The sizes of C++ objects on the console: every count fits in 32 bits. */
  ghost predicate Sized(m: Meta) {
    && |m.diskId| == DISK_ID_SIZE
    && |m.entries| < U32
    && forall i | 0 <= i < |m.entries| :: |m.entries[i].name| < U32
  }

  /** static_cast between s32 and u32. */
  function ToWord(x: I32): (w: Word) { if x < 0 then x + U32 else x }

  function OfWord(w: Word): (x: I32)
    ensures ToWord(x) == w
  {
    if w < 0x8000_0000 then w else w - U32
  }

  // ---------- writing ----------

  function EncodeEntry(e: Entry): (b: seq<byte>)
    requires |e.name| < U32
    ensures |b| == 17 + |e.name|
  {
    [if e.isDir then 1 else 0] + ToLe32(ToWord(e.parent)) + ToLe32(e.nextOrLength)
    + ToLe32(ToWord(e.origEntryNum)) + ToLe32(|e.name|) + e.name
  }

  ghost function EncodeEntries(es: seq<Entry>): seq<byte>
    requires forall i | 0 <= i < |es| :: |es[i].name| < U32
    decreases |es|
  {
    if es == [] then [] else EncodeEntries(es[..|es| - 1]) + EncodeEntry(es[|es| - 1])
  }

  function EncodeHeader(m: Meta): (b: seq<byte>)
    requires |m.entries| < U32
    ensures |b| == 16 + |m.diskId|
  {
    ToLe32(MAGIC) + ToLe32(VERSION) + m.diskId + ToLe32(ToWord(m.baseCount)) + ToLe32(|m.entries|)
  }

  ghost function Encode(m: Meta): seq<byte>
    requires Sized(m)
  {
    EncodeHeader(m) + EncodeEntries(m.entries)
  }

  // ---------- reading ----------

  /** One entry at `pos` and where the next one starts. */
  function ReadEntry(b: seq<byte>, pos: nat): (r: Option<(Entry, nat)>)
    ensures r.Some? ==> pos + 17 <= r.value.1 <= |b|
  {
    if pos + 17 > |b| then None
    else
      var nameLen := Le32(b[pos + 13..pos + 17]);
      if nameLen > MAX_NAME || pos + 17 + nameLen > |b| then None
      else
        var e := Entry(b[pos] != 0, OfWord(Le32(b[pos + 1..pos + 5])), Le32(b[pos + 5..pos + 9]),
                       OfWord(Le32(b[pos + 9..pos + 13])), b[pos + 17..pos + 17 + nameLen], false);
        Some((e, pos + 17 + nameLen))
  }

  /** `n` more entries from `pos`, after those in `acc`. */
  function ReadEntries(b: seq<byte>, pos: nat, n: nat, acc: seq<Entry>): (r: Option<(seq<Entry>, nat)>)
    decreases n
  {
    if n == 0 then Some((acc, pos))
    else
      match ReadEntry(b, pos)
      case None => None
      case Some(one) => ReadEntries(b, one.1, n - 1, acc + [one.0])
  }

  function MaxEntryNum(es: seq<Entry>): (m: int)
    ensures -1 <= m < 0x8000_0000
    ensures forall i | 0 <= i < |es| :: es[i].origEntryNum <= m
    ensures m >= 0 ==> exists i :: 0 <= i < |es| && es[i].origEntryNum == m
    decreases |es|
  {
    if es == [] then -1
    else
      var n := |es| - 1;
      var before := MaxEntryNum(es[..n]);
      assert forall i | 0 <= i < n :: es[..n][i] == es[i];
      if es[n].origEntryNum > before then es[n].origEntryNum else before
  }

  lemma MaxOfNone()
    ensures MaxEntryNum([]) == -1
  {
  }

  lemma MaxOfOneMore(es: seq<Entry>, e: Entry)
    ensures MaxEntryNum(es + [e]) ==
            if e.origEntryNum > MaxEntryNum(es) then e.origEntryNum else MaxEntryNum(es)
  {
    assert (es + [e])[..|es|] == es;
  }

  const HEADER_SIZE := 48

  function Decode(b: seq<byte>): Option<Meta> {
    if |b| < HEADER_SIZE || Le32(b[0..4]) != MAGIC || Le32(b[4..8]) != VERSION then None
    else
      var count := Le32(b[44..48]);
      if count == 0 || count > MAX_ENTRIES then None
      else
        match ReadEntries(b, HEADER_SIZE, count, [])
        case None => None
        case Some(all) =>
          if MaxEntryNum(all.0) < 0 then None else Some(Meta(b[8..40], OfWord(Le32(b[40..44])), all.0))
  }

  // ---------- what a saved file reads back as ----------

  /** The bounds the loader puts on a table. */
  ghost predicate Loadable(m: Meta) {
    && 0 < |m.entries| <= MAX_ENTRIES
    && (forall i | 0 <= i < |m.entries| :: |m.entries[i].name| <= MAX_NAME)
    && exists i :: 0 <= i < |m.entries| && m.entries[i].origEntryNum >= 0
  }

  /** The table as a disc without mods has it. */
  function Plain(es: seq<Entry>): (r: seq<Entry>)
    ensures |r| == |es|
    ensures forall i | 0 <= i < |es| :: r[i] == es[i].(overlay := false)
  {
    seq(|es|, i requires 0 <= i < |es| => es[i].(overlay := false))
  }

  /** The fields of an encoded entry. */
  lemma EntrySlices(e: Entry)
    requires |e.name| < U32
    ensures var x := EncodeEntry(e);
            && x[0] == (if e.isDir then 1 else 0)
            && x[1..5] == ToLe32(ToWord(e.parent)) && x[5..9] == ToLe32(e.nextOrLength)
            && x[9..13] == ToLe32(ToWord(e.origEntryNum)) && x[13..17] == ToLe32(|e.name|)
            && x[17..17 + |e.name|] == e.name
  {
    hide ToLe32;
  }

  /** Where the fields of the header stand. */
  lemma HeaderSlices(m: Meta)
    requires Sized(m)
    ensures var x := Encode(m);
            && |x| >= 48
            && x[0..4] == [0x01, 0x56, 0x4C, 0x4D] && x[4..8] == [1, 0, 0, 0] && x[8..40] == m.diskId
            && x[40..44] == ToLe32(ToWord(m.baseCount)) && x[44..48] == ToLe32(|m.entries|)
  {
    BytesOf32(MAGIC);
    BytesOf32(VERSION);
    hide ToLe32, EncodeEntries, ToWord;
    var h := EncodeHeader(m);
    assert forall i, j | 0 <= i <= j <= 48 :: Encode(m)[i..j] == h[i..j];
  }

  lemma MagicIs(b: seq<byte>)
    requires |b| == 4
    ensures Le32(b) == MAGIC <==> b == [0x01, 0x56, 0x4C, 0x4D]
    ensures Le32(b) == VERSION <==> b == [1, 0, 0, 0]
  {
  }

  /** Every file that loads begins with the magic and version 1, names between 1 and 200000 entries,
      each with a name of at most 4096 bytes, and some entry has a number. */
  lemma LoadsOnly(b: seq<byte>)
    requires Decode(b).Some?
    ensures |b| >= 48 && b[0..4] == [0x01, 0x56, 0x4C, 0x4D] && b[4..8] == [1, 0, 0, 0]
    ensures var m := Decode(b).value;
            && m.diskId == b[8..40] && ToWord(m.baseCount) == Le32(b[40..44])
            && 0 < |m.entries| == Le32(b[44..48]) <= 200_000
            && (forall i | 0 <= i < |m.entries| :: |m.entries[i].name| <= 4096 && !m.entries[i].overlay)
            && exists i :: 0 <= i < |m.entries| && m.entries[i].origEntryNum >= 0
  {
    MagicIs(b[0..4]);
    MagicIs(b[4..8]);
    EntriesRead(b, HEADER_SIZE, Le32(b[44..48]), []);
    hide Le32, ReadEntries, ToWord;
  }

  lemma {:induction false} EntriesRead(b: seq<byte>, pos: nat, n: nat, acc: seq<Entry>)
    requires ReadEntries(b, pos, n, acc).Some?
    ensures var es := ReadEntries(b, pos, n, acc).value.0;
            && acc <= es && |es| == |acc| + n
            && forall i | |acc| <= i < |es| :: |es[i].name| <= MAX_NAME && !es[i].overlay
    decreases n
  {
    if n > 0 {
      var one := ReadEntry(b, pos).value;
      assert |one.0.name| <= MAX_NAME && !one.0.overlay;
      hide ReadEntry;
      EntriesRead(b, one.1, n - 1, acc + [one.0]);
      var es := ReadEntries(b, pos, n, acc).value.0;
      assert es[|acc|] == (acc + [one.0])[|acc|];
    }
  }

  lemma MiddleSlice(pre: seq<byte>, x: seq<byte>, post: seq<byte>, i: nat, j: nat)
    requires i <= j <= |x|
    ensures (pre + x + post)[|pre| + i..|pre| + j] == x[i..j]
  {
  }

  lemma ReadEncoded(pre: seq<byte>, e: Entry, post: seq<byte>)
    requires |e.name| < U32
    ensures ReadEntry(pre + EncodeEntry(e) + post, |pre|) ==
            if |e.name| <= MAX_NAME then Some((e.(overlay := false), |pre| + 17 + |e.name|)) else None
  {
    hide EncodeEntry, ToLe32, Le32;
    var b, p, x := pre + EncodeEntry(e) + post, |pre|, EncodeEntry(e);
    EntrySlices(e);
    assert b[p] == x[0];
    MiddleSlice(pre, x, post, 1, 5);
    MiddleSlice(pre, x, post, 5, 9);
    MiddleSlice(pre, x, post, 9, 13);
    MiddleSlice(pre, x, post, 13, 17);
    MiddleSlice(pre, x, post, 17, 17 + |e.name|);
  }

  lemma {:induction false} EncodeSplit(es: seq<Entry>, i: nat) returns (post: seq<byte>)
    requires i < |es| && forall k | 0 <= k < |es| :: |es[k].name| < U32
    ensures EncodeEntries(es) == EncodeEntries(es[..i]) + EncodeEntry(es[i]) + post
    decreases |es|
  {
    hide EncodeEntry;
    var n := |es| - 1;
    if i == n {
      post := [];
    } else {
      var front := EncodeSplit(es[..n], i);
      assert es[..n][..i] == es[..i];
      post := front + EncodeEntry(es[n]);
      assert EncodeEntries(es) == EncodeEntries(es[..n]) + EncodeEntry(es[n]);
      hide EncodeEntries;
      Associates(EncodeEntries(es[..i]) + EncodeEntry(es[i]), front, EncodeEntry(es[n]));
    }
  }

  lemma Associates(a: seq<byte>, b: seq<byte>, c: seq<byte>)
    ensures (a + b) + c == a + (b + c)
  {
  }

  /** Reading entry after entry: as long as the names fit, entry `i` starts where the first `i`
      encodings end. */
  lemma {:induction false} ReadsUpTo(pre: seq<byte>, es: seq<Entry>, i: nat)
    requires i <= |es|
    requires forall k | 0 <= k < |es| :: |es[k].name| < U32
    requires forall k | 0 <= k < i :: |es[k].name| <= MAX_NAME
    ensures ReadEntries(pre + EncodeEntries(es), |pre|, |es|, [])
            == ReadEntries(pre + EncodeEntries(es), |pre| + |EncodeEntries(es[..i])|, |es| - i, Plain(es[..i]))
    decreases i
  {
    hide ReadEntry, EncodeEntry;
    if i == 0 {
      assert es[..0] == [] && Plain(es[..0]) == [];
      hide ReadEntries;
    } else {
      var k := i - 1;
      ReadsUpTo(pre, es, k);
      ReadsOne(pre, es, k);
      EncodeSnoc(es, k);
      hide EncodeEntries;
      assert Plain(es[..k]) + [es[k].(overlay := false)] == Plain(es[..i]);
    }
  }

  lemma EncodeSnoc(es: seq<Entry>, k: nat)
    requires k < |es| && forall j | 0 <= j < |es| :: |es[j].name| < U32
    ensures |EncodeEntries(es[..k + 1])| == |EncodeEntries(es[..k])| + 17 + |es[k].name|
  {
    hide EncodeEntry;
    assert es[..k + 1][..k] == es[..k];
  }

  lemma ReadsOne(pre: seq<byte>, es: seq<Entry>, k: nat)
    requires k < |es|
    requires forall j | 0 <= j < |es| :: |es[j].name| < U32
    ensures ReadEntry(pre + EncodeEntries(es), |pre| + |EncodeEntries(es[..k])|) ==
            if |es[k].name| <= MAX_NAME
            then Some((es[k].(overlay := false), |pre| + |EncodeEntries(es[..k])| + 17 + |es[k].name|)) else None
  {
    hide EncodeEntries, EncodeEntry, ReadEntry;
    var post := EncodeSplit(es, k);
    Associates(pre, EncodeEntries(es[..k]) + EncodeEntry(es[k]), post);
    Associates(pre, EncodeEntries(es[..k]), EncodeEntry(es[k]));
    ReadEncoded(pre + EncodeEntries(es[..k]), es[k], post);
  }

  /** All the entries read back, unless one of the names is too long. */
  lemma ReadsAll(pre: seq<byte>, es: seq<Entry>)
    requires forall k | 0 <= k < |es| :: |es[k].name| < U32
    ensures ReadEntries(pre + EncodeEntries(es), |pre|, |es|, []) ==
            if forall k | 0 <= k < |es| :: |es[k].name| <= MAX_NAME
            then Some((Plain(es), |pre| + |EncodeEntries(es)|)) else None
  {
    hide ReadEntry, EncodeEntry, EncodeEntries;
    if forall k | 0 <= k < |es| :: |es[k].name| <= MAX_NAME {
      ReadsUpTo(pre, es, |es|);
      assert es[..|es|] == es;
    } else {
      var k := FirstLong(es);
      ReadsUpTo(pre, es, k);
      ReadsOne(pre, es, k);
    }
  }

  lemma {:induction false} FirstLong(es: seq<Entry>) returns (k: nat)
    requires exists k :: 0 <= k < |es| && |es[k].name| > MAX_NAME
    ensures k < |es| && |es[k].name| > MAX_NAME
    ensures forall j | 0 <= j < k :: |es[j].name| <= MAX_NAME
    decreases |es|
  {
    if |es[0].name| > MAX_NAME {
      k := 0;
    } else {
      var t := es[1..];
      var j :| 0 <= j < |es| && |es[j].name| > MAX_NAME;
      assert t[j - 1] == es[j];
      k := FirstLong(t);
      k := k + 1;
      assert forall j | 1 <= j < k :: es[j] == t[j - 1];
    }
  }

  lemma HeaderReads(m: Meta)
    requires Sized(m)
    ensures var b := Encode(m);
            && |b| >= HEADER_SIZE && Le32(b[0..4]) == MAGIC && Le32(b[4..8]) == VERSION && b[8..40] == m.diskId
            && OfWord(Le32(b[40..44])) == m.baseCount && Le32(b[44..48]) == |m.entries|
  {
    var b := Encode(m);
    assert b[0..4] == ToLe32(MAGIC);
    assert b[4..8] == ToLe32(VERSION);
    assert b[8..40] == m.diskId;
    assert b[40..44] == ToLe32(ToWord(m.baseCount));
    assert b[44..48] == ToLe32(|m.entries|);
  }

  /** A saved file loads exactly when the table is within the loader's bounds, and then gives
      back the disc id, the base count and every entry. */
  lemma DecodeUndoesEncode(m: Meta)
    requires Sized(m)
    ensures Decode(Encode(m)) == if Loadable(m) then Some(m.(entries := Plain(m.entries))) else None
  {
    HeaderReads(m);
    ReadsAll(EncodeHeader(m), m.entries);
    hide EncodeHeader, EncodeEntries, ReadEntries, Le32, Plain, MaxEntryNum;
    MaxIsNatural(m.entries);
  }

  lemma MaxIsNatural(es: seq<Entry>)
    ensures (exists i :: 0 <= i < |es| && es[i].origEntryNum >= 0) <==> MaxEntryNum(Plain(es)) >= 0
  {
    var all := Plain(es);
    hide MaxEntryNum, Plain;
    assert forall i | 0 <= i < |es| :: all[i].origEntryNum == es[i].origEntryNum;
  }

  // ---------- short files ----------

  lemma PrefixSlice(b: seq<byte>, k: nat, i: nat, j: nat)
    requires i <= j <= k <= |b|
    ensures b[..k][i..j] == b[i..j]
  {
  }

  lemma ReadEntryPrefix(b: seq<byte>, k: nat, pos: nat)
    requires k <= |b| && ReadEntry(b[..k], pos).Some?
    ensures ReadEntry(b, pos) == ReadEntry(b[..k], pos)
  {
    hide Le32;
    PrefixSlice(b, k, pos + 1, pos + 5);
    PrefixSlice(b, k, pos + 5, pos + 9);
    PrefixSlice(b, k, pos + 9, pos + 13);
    PrefixSlice(b, k, pos + 13, pos + 17);
    var nameLen := Le32(b[pos + 13..pos + 17]);
    PrefixSlice(b, k, pos + 17, pos + 17 + nameLen);
  }

  lemma {:induction false} ReadEntriesPrefix(b: seq<byte>, k: nat, pos: nat, n: nat, acc: seq<Entry>)
    requires pos <= k <= |b| && ReadEntries(b[..k], pos, n, acc).Some?
    ensures ReadEntries(b, pos, n, acc) == ReadEntries(b[..k], pos, n, acc)
    ensures ReadEntries(b, pos, n, acc).value.1 <= k
    decreases n
  {
    if n > 0 {
      ReadEntryPrefix(b, k, pos);
      var one := ReadEntry(b[..k], pos).value;
      hide ReadEntry;
      ReadEntriesPrefix(b, k, one.1, n - 1, acc + [one.0]);
    }
  }

  /** What a shortened file decodes to, the whole file decodes to as well. */
  lemma DecodePrefix(b: seq<byte>, k: nat)
    requires k <= |b| && Decode(b[..k]).Some?
    ensures Decode(b) == Decode(b[..k])
    ensures ReadEntries(b, HEADER_SIZE, Le32(b[44..48]), []).Some?
    ensures ReadEntries(b, HEADER_SIZE, Le32(b[44..48]), []).value.1 <= k
  {
    hide Le32, ReadEntries, MaxEntryNum;
    PrefixSlice(b, k, 0, 4);
    PrefixSlice(b, k, 4, 8);
    PrefixSlice(b, k, 8, 40);
    PrefixSlice(b, k, 40, 44);
    PrefixSlice(b, k, 44, 48);
    ReadEntriesPrefix(b, k, HEADER_SIZE, Le32(b[44..48]), []);
  }

  /** No proper prefix of a saved file loads, whatever the table. */
  lemma ShortFileIsRejected(m: Meta, k: nat)
    requires Sized(m) && k < |Encode(m)|
    ensures Decode(Encode(m)[..k]) == None
  {
    var b := Encode(m);
    if Decode(b[..k]).Some? {
      DecodePrefix(b, k);
      HeaderReads(m);
      ReadsAll(EncodeHeader(m), m.entries);
      assert false;
    }
  }

  // ---------- the index from entry numbers to entries ----------

  /** The last entry with this number, or INVALID. */
  function LastWith(es: seq<Entry>, num: int): (i: nat)
    decreases |es|
  {
    if es == [] then INVALID
    else if es[|es| - 1].origEntryNum == num then |es| - 1
    else LastWith(es[..|es| - 1], num)
  }

  /** s_entryNumToFstIndex as the loader rebuilds it. */
  function EntryIndex(es: seq<Entry>): (r: seq<nat>) {
    seq(MaxEntryNum(es) + 1, num => LastWith(es, num))
  }

  /** The index inverts the entry numbers: every slot names the last entry with its number, or
      is invalid when there is none, and every non-negative number has a slot. */
  lemma {:induction false} IndexInverts(es: seq<Entry>, num: nat)
    requires |es| <= MAX_ENTRIES
    ensures num < |EntryIndex(es)| ==>
              var i := EntryIndex(es)[num];
              && (i == INVALID <==> forall k | 0 <= k < |es| :: es[k].origEntryNum != num)
              && (i != INVALID ==> i < |es| && es[i].origEntryNum == num
                                   && forall k | i < k < |es| :: es[k].origEntryNum != num)
    ensures (exists k :: 0 <= k < |es| && es[k].origEntryNum == num) ==> num < |EntryIndex(es)|
  {
    LastWithIs(es, num);
  }

  lemma {:induction false} LastWithIs(es: seq<Entry>, num: int)
    requires |es| <= MAX_ENTRIES
    ensures var i := LastWith(es, num);
            && (i == INVALID <==> forall k | 0 <= k < |es| :: es[k].origEntryNum != num)
            && (i != INVALID ==> i < |es| && es[i].origEntryNum == num
                                 && forall k | i < k < |es| :: es[k].origEntryNum != num)
    decreases |es|
  {
    if es != [] {
      var n := |es| - 1;
      LastWithIs(es[..n], num);
      assert forall k | 0 <= k < n :: es[..n][k] == es[k];
    }
  }
}
