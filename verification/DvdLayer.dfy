/**
 The DVD layer's saved metadata in the source's own shape: the writes of aurora_dvd_save_meta,
 the reads of aurora_dvd_open_files and the rebuilding of the entry index, on the layer's
 fields, proved against the format in DiscMeta.
 */
module DvdLayer {
  import opened Sequences
  import opened Endian
  import opened DiscMeta

  /** A stream opened for writing on a card with room for `capacity` bytes: a write that does
      not fit stores what it can and fails. `asked` is all that was asked for. */
  class OutStream {
    const capacity: nat
    var data: seq<byte>
    ghost var asked: seq<byte>

    ghost predicate Valid()
      reads this
    {
      data == if |asked| <= capacity then asked else asked[..capacity]
    }

    constructor (capacity: nat)
      ensures Valid() && asked == [] && this.capacity == capacity
    {
      this.capacity, data, asked := capacity, [], [];
    }

    method Write(b: seq<byte>) returns (ok: bool)
      requires Valid() && |asked| <= capacity
      modifies this
      ensures Valid() && asked == old(asked) + b
      ensures ok == (|asked| <= capacity)
    {
      ok := |data| + |b| <= capacity;
      data := data + if ok then b else b[..capacity - |data|];
      asked := asked + b;
    }
  }

  /** A stream opened for reading; a read past the end fails. */
  class InStream {
    const data: seq<byte>
    var pos: nat

    constructor (data: seq<byte>)
      ensures this.data == data && pos == 0
    {
      this.data, pos := data, 0;
    }

    method Read(n: nat) returns (ok: bool, b: seq<byte>)
      requires pos <= |data|
      modifies this
      ensures pos <= |data|
      ensures ok == (old(pos) + n <= |data|)
      ensures ok ==> b == data[old(pos)..old(pos) + n] && pos == old(pos) + n
    {
      ok, b := pos + n <= |data|, [];
      if ok {
        b := data[pos..pos + n];
        pos := pos + n;
      } else {
        pos := |data|;
      }
    }

    method ReadU32() returns (ok: bool, w: Word)
      requires pos <= |data|
      modifies this
      ensures pos <= |data|
      ensures ok == (old(pos) + 4 <= |data|)
      ensures ok ==> w == Le32(data[old(pos)..old(pos) + 4]) && pos == old(pos) + 4
    {
      var b;
      ok, b := Read(4);
      w := if ok then Le32(b) else 0;
    }
  }

  class Layer {
    var diskId: seq<byte>
    var baseEntryCount: I32
    var entries: seq<Entry>
    var entryIndex: seq<nat>
    var looseMode: bool
    var looseFilesDir: seq<byte>
    var initialized: bool

    ghost predicate Cleared()
      reads this
    {
      && diskId == seq(DISK_ID_SIZE, _ => 0) && baseEntryCount == 0 && entries == [] && entryIndex == []
      && !looseMode && looseFilesDir == [] && !initialized
    }

    /** Booted from files: the table of the saved metadata and its index are in place. */
    ghost predicate Loaded(m: Meta, dir: seq<byte>)
      reads this
    {
      && diskId == m.diskId && baseEntryCount == m.baseCount && entries == m.entries
      && entryIndex == EntryIndex(m.entries) && looseMode && looseFilesDir == dir && initialized
    }

    ghost function Table(): Meta
      reads this
    {
      Meta(diskId, baseEntryCount, entries)
    }

    constructor ()
      ensures Cleared()
    {
      diskId, baseEntryCount, entries, entryIndex := seq(DISK_ID_SIZE, _ => 0), 0, [], [];
      looseMode, looseFilesDir, initialized := false, [], false;
    }

    method ClearState()
      modifies this
      ensures Cleared()
    {
      diskId, baseEntryCount, entries, entryIndex := seq(DISK_ID_SIZE, _ => 0), 0, [], [];
      looseMode, looseFilesDir, initialized := false, [], false;
    }

    /** aurora_dvd_save_meta; no stream when the file cannot be created. The file holds the
        whole encoding when it reports success and a proper prefix of it when a write failed. */
    method SaveMeta(io: OutStream?) returns (ok: bool)
      requires Sized(Table())
      requires io != null ==> io.Valid() && io.asked == []
      modifies io
      ensures ok <==> initialized && !looseMode && entries != [] && io != null && |Encode(Table())| <= io.capacity
      ensures ok ==> io.data == Encode(Table())
      ensures !ok && initialized && !looseMode && entries != [] && io != null ==> io.data < Encode(Table())
    {
      hide Encode, Upto, EncodeHeader;
      if !initialized || looseMode || entries == [] || io == null {
        return false;
      }
      ghost var m := Table();
      UptoEnds(m);
      ok := WriteHeader(io);
      ok := WriteEntries(io, m, ok);
    }

    /** The write loop, after the header. */
    method WriteEntries(io: OutStream, ghost m: Meta, header: bool) returns (ok: bool)
      requires m == Table() && Sized(m) && io.Valid() && header == (|io.asked| <= io.capacity)
      requires io.asked <= Encode(m) && (header ==> io.asked == Upto(m, 0))
      modifies io
      ensures io.Valid() && ok == (|io.asked| <= io.capacity)
      ensures io.asked <= Encode(m) && (ok ==> io.asked == Upto(m, |entries|))
    {
      hide Encode, Upto, EncodeEntry;
      ok := header;
      var i := 0;
      while i < |entries| && ok
        invariant i <= |entries| && io.Valid()
        invariant ok == (|io.asked| <= io.capacity)
        invariant ok ==> io.asked == Upto(m, i)
        invariant io.asked <= Encode(m)
        decreases |entries| - i, ok
      {
        EncodeStep(m, i);
        ok := WriteEntry(io, entries[i]);
        if ok {
          i := i + 1;
        }
      }
    }

    static lemma HeaderParts(m: Meta)
      requires |m.entries| < U32
      ensures EncodeHeader(m)
              == ToLe32(MAGIC) + ToLe32(VERSION) + m.diskId + ToLe32(ToWord(m.baseCount)) + ToLe32(|m.entries|)
    {
    }

    method WriteHeader(io: OutStream) returns (ok: bool)
      requires |entries| < U32 && io.Valid() && io.asked == []
      modifies io
      ensures io.Valid() && ok == (|io.asked| <= io.capacity)
      ensures io.asked <= EncodeHeader(Table())
      ensures ok ==> io.asked == EncodeHeader(Table())
    {
      ghost var p2 := ToLe32(MAGIC) + ToLe32(VERSION);
      ghost var p3 := p2 + diskId;
      ghost var p4 := p3 + ToLe32(ToWord(baseEntryCount));
      HeaderParts(Table());
      hide ToLe32, ToWord, EncodeHeader;
      ok := io.Write(ToLe32(MAGIC));
      if ok {
        ok := io.Write(ToLe32(VERSION));
      }
      if ok {
        assert io.asked == p2;
        ok := io.Write(diskId);
      }
      if ok {
        assert io.asked == p3;
        ok := io.Write(ToLe32(ToWord(baseEntryCount)));
      }
      if ok {
        ok := io.Write(ToLe32(|entries|));
      }
    }

    static method WriteEntry(io: OutStream, e: Entry) returns (ok: bool)
      requires |e.name| < U32 && io.Valid() && |io.asked| <= io.capacity
      modifies io
      ensures io.Valid() && ok == (|io.asked| <= io.capacity)
      ensures io.asked <= old(io.asked) + EncodeEntry(e)
      ensures ok ==> io.asked == old(io.asked) + EncodeEntry(e)
    {
      ghost var start := io.asked;
      PartsMakeEntry(e);
      hide EncodeEntry, Part, ToLe32, ToWord;
      ok := WriteField(io, start, e, 0, [if e.isDir then 1 else 0]);
      if ok {
        ok := WriteField(io, start, e, 1, ToLe32(ToWord(e.parent)));
      }
      if ok {
        ok := WriteField(io, start, e, 2, ToLe32(e.nextOrLength));
      }
      if ok {
        ok := WriteField(io, start, e, 3, ToLe32(ToWord(e.origEntryNum)));
      }
      if ok {
        ok := WriteField(io, start, e, 4, ToLe32(|e.name|));
      }
      if ok {
        ok := WriteField(io, start, e, 5, e.name);
      }
    }

    /** One field of an entry; an empty name is not written at all. */
    static method WriteField(io: OutStream, ghost start: seq<byte>, ghost e: Entry, ghost k: nat, b: seq<byte>)
      returns (ok: bool)
      requires |e.name| < U32 && k < 6 && b == Field(e, k)
      requires io.Valid() && |io.asked| <= io.capacity
      requires if k == 0 then io.asked == start else io.asked == start + Part(e, k)
      modifies io
      ensures io.Valid() && ok == (|io.asked| <= io.capacity)
      ensures io.asked == start + Part(e, k + 1) <= start + Part(e, 6)
    {
      PartStep(start, e, k);
      hide Part, Field;
      ok := true;
      if b != [] {
        ok := io.Write(b);
      }
    }

    /** One pass of the loader's loop up to the name. */
    static method ReadEntry(io: InStream) returns (ok: bool, e: Entry)
      requires io.pos <= |io.data|
      modifies io
      ensures io.pos <= |io.data|
      ensures ok == DiscMeta.ReadEntry(io.data, old(io.pos)).Some?
      ensures ok ==> DiscMeta.ReadEntry(io.data, old(io.pos)) == Some((e, io.pos))
    {
      hide Le32;
      e := Entry(false, 0, 0, 0, [], false);
      var isDir, parent: Word, nextOrLength: Word, origEntryNum: Word, nameLen: Word := [], 0, 0, 0, 0;
      ok, isDir := io.Read(1);
      if ok {
        ok, parent := io.ReadU32();
      }
      if ok {
        ok, nextOrLength := io.ReadU32();
      }
      if ok {
        ok, origEntryNum := io.ReadU32();
      }
      if ok {
        ok, nameLen := io.ReadU32();
      }
      if !ok || nameLen > MAX_NAME {
        return false, e;
      }
      var name;
      ok, name := io.Read(nameLen);
      if ok {
        e := Entry(isDir[0] != 0, OfWord(parent), nextOrLength, OfWord(origEntryNum), name, false);
      }
    }

    /** Rebuild the index: fill it with the invalid entry, then enter every table entry. */
    method RebuildIndex(maxEntryNum: int)
      requires maxEntryNum == MaxEntryNum(entries) && maxEntryNum >= 0
      modifies this`entryIndex
      ensures entryIndex == EntryIndex(entries)
    {
      entryIndex := seq(maxEntryNum + 1, _ => INVALID);
      var i := 0;
      while i < |entries|
        invariant i <= |entries| && |entryIndex| == maxEntryNum + 1
        invariant forall num | 0 <= num < |entryIndex| :: entryIndex[num] == LastWith(entries[..i], num)
      {
        assert entries[..i + 1][..i] == entries[..i];
        var num := entries[i].origEntryNum;
        if num >= 0 && num < |entryIndex| {
          entryIndex := entryIndex[num := i];
        }
        i := i + 1;
      }
      assert entries[..|entries|] == entries;
    }

    /** Read the header; the disc id goes straight into the layer. */
    method ReadHeader(io: InStream) returns (ok: bool, baseCount: Word, count: Word)
      requires io.pos == 0
      modifies io, this`diskId
      ensures io.pos <= |io.data|
      ensures ok == (&& |io.data| >= HEADER_SIZE && Le32(io.data[0..4]) == MAGIC && Le32(io.data[4..8]) == VERSION
                     && 0 < Le32(io.data[44..48]) <= MAX_ENTRIES)
      ensures ok ==> io.pos == HEADER_SIZE && diskId == io.data[8..40]
      ensures ok ==> baseCount == Le32(io.data[40..44]) && count == Le32(io.data[44..48])
    {
      hide Le32;
      var magic: Word, version: Word := 0, 0;
      baseCount, count := 0, 0;
      ok, magic := io.ReadU32();
      if ok {
        ok, version := io.ReadU32();
      }
      if !ok || magic != MAGIC || version != VERSION {
        return false, 0, 0;
      }
      ok, diskId := io.Read(DISK_ID_SIZE);
      if ok {
        ok, baseCount := io.ReadU32();
      }
      if ok {
        ok, count := io.ReadU32();
      }
      ok := ok && count > 0 && count <= MAX_ENTRIES;
    }

    /** The loader's loop: entry after entry, keeping the largest entry number. */
    method ReadTable(io: InStream, count: nat) returns (ok: bool, maxEntryNum: int)
      requires io.pos <= |io.data|
      modifies io, this`entries
      ensures ok == ReadEntries(io.data, old(io.pos), count, []).Some?
      ensures ok ==> ReadEntries(io.data, old(io.pos), count, []) == Some((entries, io.pos))
      ensures ok ==> maxEntryNum == MaxEntryNum(entries)
    {
      hide DiscMeta.ReadEntry, MaxEntryNum;
      MaxOfNone();
      entries, maxEntryNum, ok := [], -1, true;
      var i := 0;
      while i < count
        invariant i <= count && io.pos <= |io.data| && maxEntryNum == MaxEntryNum(entries)
        invariant ReadEntries(io.data, old(io.pos), count, []) == ReadEntries(io.data, io.pos, count - i, entries)
      {
        var entry;
        ok, entry := ReadEntry(io);
        if !ok {
          return;
        }
        MaxOfOneMore(entries, entry);
        if entry.origEntryNum > maxEntryNum {
          maxEntryNum := entry.origEntryNum;
        }
        entries := entries + [entry];
        i := i + 1;
      }
    }

    /** aurora_dvd_open_files: boots exactly from the files that decode, and is left closed and
        cleared by every other one. A null argument changes nothing. */
    method OpenFiles(filesDir: Option<seq<byte>>, metaPathGiven: bool, io: InStream?) returns (ok: bool)
      requires io != null ==> io.pos == 0
      modifies this, io
      ensures filesDir.None? || !metaPathGiven ==> !ok && unchanged(this)
      ensures filesDir.Some? && metaPathGiven ==> ok == (io != null && Decode(io.data).Some?)
      ensures ok ==> Loaded(Decode(io.data).value, filesDir.value)
      ensures filesDir.Some? && metaPathGiven && !ok ==> Cleared()
    {
      if filesDir.None? || !metaPathGiven {
        return false;
      }
      ClearState();
      if io == null {
        return false;
      }
      hide Decode, EntryIndex;
      ok := Load(io);
      if !ok {
        ClearState();
        return;
      }
      looseMode, looseFilesDir, initialized := true, filesDir.value, true;
    }

    /** What the file says, into the layer's fields; on failure they hold whatever was read. */
    method Load(io: InStream) returns (ok: bool)
      requires io.pos == 0
      modifies io, this`diskId, this`baseEntryCount, this`entries, this`entryIndex
      ensures ok == Decode(io.data).Some?
      ensures ok ==> Table() == Decode(io.data).value && entryIndex == EntryIndex(entries)
    {
      var baseCount, count, maxEntryNum := 0, 0, -1;
      ok, baseCount, count := ReadHeader(io);
      hide Le32, EntryIndex, MaxEntryNum, ReadEntries;
      if ok {
        ok, maxEntryNum := ReadTable(io, count);
        if ok && maxEntryNum >= 0 {
          RebuildIndex(maxEntryNum);
          baseEntryCount := OfWord(baseCount);
        } else {
          ok := false;
        }
      }
    }
  }

  /** The fields of an entry in the order they are written, and the first `k` of them. */
  ghost function Field(e: Entry, k: nat): seq<byte>
    requires |e.name| < U32
  {
    match k
    case 0 => [if e.isDir then 1 else 0]
    case 1 => ToLe32(ToWord(e.parent))
    case 2 => ToLe32(e.nextOrLength)
    case 3 => ToLe32(ToWord(e.origEntryNum))
    case 4 => ToLe32(|e.name|)
    case _ => e.name
  }

  ghost function Part(e: Entry, k: nat): seq<byte>
    requires |e.name| < U32
    decreases k
  {
    if k == 0 then [] else Part(e, k - 1) + Field(e, k - 1)
  }

  lemma PartsMakeEntry(e: Entry)
    requires |e.name| < U32
    ensures Part(e, 6) == EncodeEntry(e)
  {
    hide ToLe32, ToWord;
    assert Part(e, 1) == Field(e, 0);
    assert Part(e, 2) == Part(e, 1) + Field(e, 1);
    assert Part(e, 3) == Part(e, 2) + Field(e, 2);
    assert Part(e, 4) == Part(e, 3) + Field(e, 3);
    assert Part(e, 5) == Part(e, 4) + Field(e, 4);
    assert Part(e, 6) == Part(e, 5) + Field(e, 5);
  }

  lemma PartStep(start: seq<byte>, e: Entry, k: nat)
    requires |e.name| < U32 && k < 6
    ensures start + Part(e, 0) == start
    ensures start + Part(e, k) + Field(e, k) == start + Part(e, k + 1)
    ensures start + Part(e, k + 1) <= start + Part(e, 6)
  {
    Associates(start, Part(e, k), Field(e, k));
    PartsNest(e, k + 1, 6);
    hide Field;
  }

  lemma {:induction false} PartsNest(e: Entry, j: nat, k: nat)
    requires |e.name| < U32 && j <= k
    ensures Part(e, j) <= Part(e, k)
    decreases k
  {
    hide Field;
    if j < k {
      PartsNest(e, j, k - 1);
    }
  }

  /** The header and the first `i` entries. */
  ghost function Upto(m: Meta, i: nat): seq<byte>
    requires Sized(m) && i <= |m.entries|
  {
    EncodeHeader(m) + EncodeEntries(m.entries[..i])
  }

  lemma UptoEnds(m: Meta)
    requires Sized(m)
    ensures Upto(m, 0) == EncodeHeader(m) <= Encode(m) == Upto(m, |m.entries|)
  {
    hide EncodeHeader, EncodeEntry;
    assert m.entries[..|m.entries|] == m.entries;
    assert EncodeEntries(m.entries[..0]) == [];
  }

  lemma EntriesStep(es: seq<Entry>, i: nat)
    requires i < |es| && forall k | 0 <= k < |es| :: |es[k].name| < U32
    ensures EncodeEntries(es[..i + 1]) == EncodeEntries(es[..i]) + EncodeEntry(es[i])
  {
    hide EncodeEntry;
    assert es[..i + 1][..i] == es[..i];
  }

  /** Writing entry `i` after the first `i` goes on with the encoding. */
  lemma EncodeStep(m: Meta, i: nat)
    requires Sized(m) && i < |m.entries|
    ensures Upto(m, i + 1) == Upto(m, i) + EncodeEntry(m.entries[i]) <= Encode(m)
  {
    hide EncodeEntry, EncodeHeader, EncodeEntries;
    var es, e := m.entries, EncodeEntry(m.entries[i]);
    var post := EncodeSplit(es, i);
    EntriesStep(es, i);
    Associates(EncodeHeader(m), EncodeEntries(es[..i]) + e, post);
    Associates(EncodeHeader(m), EncodeEntries(es[..i]), e);
  }

  /** Save, then boot from whatever reached the card: a complete save of a table the loader
      accepts restores it, and a save cut short is refused with the layer left closed. */
  method SaveThenOpen(disc: Layer, capacity: nat, filesDir: seq<byte>) returns (files: Layer, saved: bool, booted: bool)
    requires disc.initialized && !disc.looseMode && disc.entries != [] && Sized(disc.Table())
    ensures saved <==> |Encode(disc.Table())| <= capacity
    ensures booted <==> saved && Loadable(disc.Table())
    ensures booted ==> files.Loaded(disc.Table().(entries := Plain(disc.entries)), filesDir)
    ensures !booted ==> files.Cleared()
  {
    hide Encode, Decode;
    ghost var m := disc.Table();
    var card := new OutStream(capacity);
    saved := disc.SaveMeta(card);
    files := new Layer();
    var io := new InStream(card.data);
    booted := files.OpenFiles(Some(filesDir), true, io);
    if saved {
      DecodeUndoesEncode(m);
    } else {
      assert card.data == Encode(m)[..|card.data|];
      ShortFileIsRejected(m, |card.data|);
    }
  }
}
