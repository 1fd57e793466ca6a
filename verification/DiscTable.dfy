/**
 The GameCube file table (switch/src/nod/gc_disc.c, format in gc_disc.h): the directory
 tree, its preorder table with subtree-end indices, the bytes of that table on a disc,
 and the parser. Parsing what the encoder wrote gives back the table.
 */
module DiscTable {
  import opened Sequences
  import opened Endian

  const ENTRY_SIZE: nat := 12
  const MAX_ENTRIES: nat := 0x10_0000
  const STRING_CAP: nat := 0x100_0000

  type Name = seq<byte>

  /** A directory's contents, first entry first; `next` is what follows it in the same directory. */
  datatype Tree =
    | End
    | File(name: Name, offset: nat, length: nat, next: Tree)
    | Folder(name: Name, inside: Tree, next: Tree)

  datatype Entry =
    | FileEntry(name: Name, offset: nat, length: nat)
    | DirEntry(name: Name, parent: nat, end: nat)

  function Count(t: Tree): nat {
    match t
    case End => 0
    case File(_, _, _, next) => 1 + Count(next)
    case Folder(_, inside, next) => 1 + Count(inside) + Count(next)
  }

  /** Preorder: a directory entry carries the index just after its subtree. */
  function Table(t: Tree, base: nat, parent: nat): (es: seq<Entry>)
    ensures |es| == Count(t)
  {
    match t
    case End => []
    case File(name, offset, length, next) =>
      [FileEntry(name, offset, length)] + Table(next, base + 1, parent)
    case Folder(name, inside, next) =>
      var end := base + 1 + Count(inside);
      [DirEntry(name, parent, end)] + Table(inside, base + 1, base) + Table(next, end, parent)
  }

  function FullTable(t: Tree): seq<Entry> { [DirEntry([], 0, 1 + Count(t))] + Table(t, 1, 0) }

  // ---------- the disc ----------

  /** One cell per byte of the image; None is a byte the medium fails to read. */
  type Image = seq<Option<byte>>

  /** The bytes from `offset` on, up to `length`, the end of the image or the first bad cell. */
  function Readable(image: Image, offset: nat, length: nat): (r: seq<byte>)
    ensures |r| <= length
    decreases |image| - offset
  {
    if length == 0 || offset >= |image| || image[offset].None? then []
    else [image[offset].value] + Readable(image, offset + 1, length - 1)
  }

  /** path_read_at over fread: an error only when not a single byte could be read. */
  function ReadAt(image: Image, offset: nat, length: nat): Option<seq<byte>> {
    var r := Readable(image, offset, length);
    if r == [] && length > 0 && offset < |image| then None else Some(r)
  }

  /** What is read is what the cells hold. */
  lemma {:induction false} ReadableCells(image: Image, offset: nat, length: nat)
    ensures var r := Readable(image, offset, length); |r| > 0 ==> Holds(image, offset, r)
    decreases length
  {
    var r := Readable(image, offset, length);
    if |r| > 1 {
      ReadableCells(image, offset + 1, length - 1);
      forall i | 0 <= i < |r| ensures image[offset + i] == Some(r[i]) {
        if i > 0 {
          assert image[offset + 1 + (i - 1)] == Some(r[1..][i - 1]);
        }
      }
    }
  }

  ghost predicate Holds(image: Image, offset: nat, bytes: seq<byte>) {
    && offset + |bytes| <= |image|
    && forall i | 0 <= i < |bytes| :: image[offset + i] == Some(bytes[i])
  }

  lemma {:induction false} ReadableHeld(image: Image, offset: nat, bytes: seq<byte>, length: nat)
    requires Holds(image, offset, bytes) && length <= |bytes|
    ensures Readable(image, offset, length) == bytes[..length]
    ensures length > 0 ==> ReadAt(image, offset, length) == Some(bytes[..length])
    decreases length
  {
    if length > 0 {
      var rest := bytes[1..];
      forall i | 0 <= i < |rest| ensures image[offset + 1 + i] == Some(rest[i]) {
        assert image[offset + (1 + i)] == Some(bytes[1 + i]);
      }
      ReadableHeld(image, offset + 1, rest, length - 1);
      assert image[offset + 0] == Some(bytes[0]);
      assert bytes[..length] == [bytes[0]] + rest[..length - 1];
    }
  }

  /** A run of bytes can be read exactly when the image holds it whole. */
  lemma ReadableExactly(image: Image, offset: nat, length: nat)
    requires length > 0
    ensures |Readable(image, offset, length)| == length
            <==> exists b :: |b| == length && Holds(image, offset, b)
  {
    ReadableCells(image, offset, length);
    if b :| |b| == length && Holds(image, offset, b) {
      ReadableHeld(image, offset, b, length);
    }
  }

  // ---------- encoder ----------

  predicate Encodable(e: Entry) {
    && (forall i | 0 <= i < |e.name| :: e.name[i] != 0)
    && (e.FileEntry? ==> e.offset < U32 && e.length < U32)
    && (e.DirEntry? ==> e.parent < U32 && e.end < U32)
  }

  /** Names in table order, each ended by a zero byte; the root has none. */
  function Strings(es: seq<Entry>): seq<byte> {
    if |es| <= 1 then [] else Strings(es[..|es| - 1]) + es[|es| - 1].name + [0]
  }

  function NameOffset(es: seq<Entry>, i: nat): nat
    requires i < |es|
  {
    if i == 0 then 0 else |Strings(es[..i])|
  }

  predicate EncodableTable(es: seq<Entry>) {
    && 1 <= |es| <= MAX_ENTRIES
    && es[0] == DirEntry([], 0, |es|)
    && (forall i | 0 <= i < |es| :: Encodable(es[i]))
    && |Strings(es)| <= STRING_CAP
  }

  function EncodeEntry(es: seq<Entry>, i: nat): (b: seq<byte>)
    requires i < |es| && Encodable(es[i]) && NameOffset(es, i) < STRING_CAP
    ensures |b| == ENTRY_SIZE
  {
    var e := es[i];
    [if e.DirEntry? then 1 else 0] + ToBe24(NameOffset(es, i)) +
    ToBe32(if e.DirEntry? then e.parent else e.offset) +
    ToBe32(if e.DirEntry? then e.end else e.length)
  }

  lemma {:induction false} StringsGrow(es: seq<Entry>, i: nat, j: nat)
    requires i <= j <= |es|
    ensures Strings(es[..i]) <= Strings(es[..j])
    ensures 1 <= i < j ==> |Strings(es[..i])| < |Strings(es[..j])|
  {
    if i < j {
      StringsGrow(es, i, j - 1);
      assert es[..j][..j - 1] == es[..j - 1];
    }
  }

  lemma OffsetFits(es: seq<Entry>, i: nat)
    requires EncodableTable(es) && i < |es|
    ensures NameOffset(es, i) < STRING_CAP
    ensures i > 0 ==> NameOffset(es, i) < |Strings(es)|
  {
    if i > 0 {
      StringsGrow(es, i, |es|);
      assert es[..|es|] == es;
    }
  }

  /** The first `n` entries of the table, twelve bytes each. */
  function EncodeEntries(es: seq<Entry>, n: nat): (b: seq<byte>)
    requires EncodableTable(es) && n <= |es|
    ensures |b| == n * ENTRY_SIZE
  {
    if n == 0 then [] else
      OffsetFits(es, n - 1);
      EncodeEntries(es, n - 1) + EncodeEntry(es, n - 1)
  }

  function EncodeTable(es: seq<Entry>): seq<byte>
    requires EncodableTable(es)
  {
    EncodeEntries(es, |es|) + Strings(es)
  }

  // ---------- parser ----------

  /** strnlen and memcpy: the bytes before the first zero. */
  function CString(s: seq<byte>): Name {
    if |s| == 0 || s[0] == 0 then [] else [s[0]] + CString(s[1..])
  }

  function NameAt(strings: seq<byte>, offset: nat): Name {
    if offset >= |strings| then [] else CString(strings[offset..])
  }

  /** One turn of the loop in gc_disc_ensure_fst. */
  function ParseEntry(raw: seq<byte>, strings: seq<byte>, i: nat): Entry
    requires (i + 1) * ENTRY_SIZE <= |raw|
  {
    var e := raw[i * ENTRY_SIZE..(i + 1) * ENTRY_SIZE];
    var name := NameAt(strings, Be24(e[1..4]));
    var field2, field3 := Be32(e[4..8]), Be32(e[8..12]);
    if i == 0 then DirEntry([], 0, field3)
    else if e[0] != 0 then DirEntry(name, field2, field3)
    else FileEntry(name, field2, field3)
  }

  function ParseEntries(raw: seq<byte>, strings: seq<byte>, n: nat): (es: seq<Entry>)
    requires n * ENTRY_SIZE <= |raw|
    ensures |es| == n
  {
    if n == 0 then [] else ParseEntries(raw, strings, n - 1) + [ParseEntry(raw, strings, n - 1)]
  }

  function StringLimit(fstSize: nat, tableBytes: nat): (n: nat)
    ensures 0 < n <= STRING_CAP
  {
    var size := if fstSize > tableBytes then fstSize - tableBytes else 0;
    if size == 0 || size > STRING_CAP then STRING_CAP else size
  }

  /** gc_disc_ensure_fst on a disc whose header names this offset and size. */
  function ParseFst(image: Image, fstOffset: nat, fstSize: nat): Option<seq<Entry>> {
    match ReadAt(image, fstOffset, ENTRY_SIZE)
    case None => None
    case Some(entry0) =>
      if |entry0| != ENTRY_SIZE || entry0[0] != 1 then None else
        var count := Be32(entry0[8..12]);
        if count == 0 || count > MAX_ENTRIES then None else
          var size := count * ENTRY_SIZE;
          var raw := ReadAt(image, fstOffset, size);
          if raw.None? || |raw.value| != size then None else
            var strings := ReadAt(image, fstOffset + size, StringLimit(fstSize, size));
            if strings.None? || strings.value == [] then None
            else Some(ParseEntries(raw.value, strings.value, count))
  }

  // ---------- parse after encode ----------

  lemma {:induction false} CStringStops(name: Name, rest: seq<byte>)
    requires forall i | 0 <= i < |name| :: name[i] != 0
    ensures CString(name + [0] + rest) == name
  {
    var s := name + [0] + rest;
    if name != [] {
      assert s[1..] == name[1..] + [0] + rest;
      CStringStops(name[1..], rest);
    }
  }

  lemma CutAfter(whole: seq<byte>, before: seq<byte>, name: Name)
    requires before + name + [0] <= whole
    ensures CString(whole[|before|..]) == name || exists i :: 0 <= i < |name| && name[i] == 0
    ensures |before| < |whole|
  {
    var rest := whole[|before + name + [0]|..];
    assert whole == before + name + [0] + rest;
    assert whole[|before|..] == name + [0] + rest;
    if forall i | 0 <= i < |name| :: name[i] != 0 {
      CStringStops(name, rest);
    }
  }

  lemma NameInStrings(es: seq<Entry>, i: nat)
    requires 0 < i < |es|
    ensures Strings(es[..i]) + es[i].name + [0] <= Strings(es)
  {
    var cut := es[..i + 1];
    assert cut[..|cut| - 1] == es[..i] && cut[|cut| - 1] == es[i];
    assert Strings(cut) == Strings(es[..i]) + es[i].name + [0];
    StringsGrow(es, i + 1, |es|);
    hide Strings;
    assert es[..|es|] == es;
  }

  lemma NameFound(es: seq<Entry>, i: nat, strings: seq<byte>)
    requires EncodableTable(es) && 0 < i < |es| && Strings(es) <= strings
    ensures NameAt(strings, NameOffset(es, i)) == es[i].name
  {
    assert Encodable(es[i]);
    NameInStrings(es, i);
    CutAfter(strings, Strings(es[..i]), es[i].name);
  }

  lemma {:induction false} EncodedSlice(es: seq<Entry>, n: nat, i: nat)
    requires EncodableTable(es) && i < n <= |es|
    ensures Encodable(es[i]) && NameOffset(es, i) < STRING_CAP
    ensures EncodeEntries(es, n)[i * ENTRY_SIZE..(i + 1) * ENTRY_SIZE] == EncodeEntry(es, i)
  {
    OffsetFits(es, i);
    OffsetFits(es, n - 1);
    assert Encodable(es[i]) && Encodable(es[n - 1]);
    var front, last := EncodeEntries(es, n - 1), EncodeEntry(es, n - 1);
    assert EncodeEntries(es, n) == front + last;
    hide EncodeEntry, EncodeEntries, EncodableTable, Encodable, Strings, NameOffset;
    if i < n - 1 {
      EncodedSlice(es, n - 1, i);
      FrontSlice(front, last, i * ENTRY_SIZE, (i + 1) * ENTRY_SIZE);
    } else {
      assert (front + last)[i * ENTRY_SIZE..(i + 1) * ENTRY_SIZE] == last;
    }
  }

  lemma FrontSlice(front: seq<byte>, last: seq<byte>, i: nat, j: nat)
    requires i <= j <= |front|
    ensures (front + last)[i..j] == front[i..j]
  {
  }

  /** The four fields of an encoded entry. */
  lemma EntryFields(es: seq<Entry>, i: nat)
    requires i < |es| && Encodable(es[i]) && NameOffset(es, i) < STRING_CAP
    ensures var b := EncodeEntry(es, i);
            && (b[0] != 0 <==> es[i].DirEntry?)
            && (es[i].DirEntry? ==> b[0] == 1)
            && Be24(b[1..4]) == NameOffset(es, i)
            && Be32(b[4..8]) == (if es[i].DirEntry? then es[i].parent else es[i].offset)
            && Be32(b[8..12]) == (if es[i].DirEntry? then es[i].end else es[i].length)
  {
    var b := EncodeEntry(es, i);
    var offset := ToBe24(NameOffset(es, i));
    var field2 := ToBe32(if es[i].DirEntry? then es[i].parent else es[i].offset);
    var field3 := ToBe32(if es[i].DirEntry? then es[i].end else es[i].length);
    assert b == [b[0]] + offset + field2 + field3;
    hide Be32, Be24, ToBe32, ToBe24, NameOffset, EncodeEntry;
    assert b[1..4] == offset && b[4..8] == field2 && b[8..12] == field3;
  }

  lemma EntryRoundTrip(es: seq<Entry>, i: nat, strings: seq<byte>)
    requires EncodableTable(es) && i < |es| && (i > 0 ==> Strings(es) <= strings)
    ensures ParseEntry(EncodeEntries(es, |es|), strings, i) == es[i]
  {
    EncodedSlice(es, |es|, i);
    EntryFields(es, i);
    hide Be32, Be24, EncodeEntry, EncodeEntries, NameOffset, NameAt, Strings;
    if i > 0 {
      NameFound(es, i, strings);
    }
  }

  lemma {:induction false} EntriesRoundTrip(es: seq<Entry>, strings: seq<byte>, n: nat)
    requires EncodableTable(es) && n <= |es| && (n > 1 ==> Strings(es) <= strings)
    ensures ParseEntries(EncodeEntries(es, |es|), strings, n) == es[..n]
  {
    hide ParseEntry, EncodeEntries, EncodableTable, Strings;
    if n > 0 {
      EntriesRoundTrip(es, strings, n - 1);
      EntryRoundTrip(es, n - 1, strings);
      assert es[..n] == es[..n - 1] + [es[n - 1]];
    }
  }

  /** A disc carries the table: its bytes stand at the offset the header names, with the size
      the header names, and a table without names is followed by one more readable byte. */
  ghost predicate Carries(image: Image, fstOffset: nat, fstSize: nat, es: seq<Entry>) {
    && EncodableTable(es)
    && Holds(image, fstOffset, EncodeTable(es))
    && fstSize == |EncodeTable(es)|
    && (|es| == 1 ==> fstOffset + ENTRY_SIZE < |image| && image[fstOffset + ENTRY_SIZE].Some?)
  }

  lemma HeldParts(image: Image, offset: nat, a: seq<byte>, b: seq<byte>)
    requires Holds(image, offset, a + b)
    ensures Holds(image, offset, a) && Holds(image, offset + |a|, b)
  {
    forall i | 0 <= i < |b| ensures image[offset + |a| + i] == Some(b[i]) {
      assert image[offset + (|a| + i)] == Some((a + b)[|a| + i]);
    }
    forall i | 0 <= i < |a| ensures image[offset + i] == Some(a[i]) {
      assert image[offset + i] == Some((a + b)[i]);
    }
  }

  lemma HeldReads(image: Image, offset: nat, raw: seq<byte>, strings: seq<byte>)
    requires Holds(image, offset, raw + strings) && |raw| >= ENTRY_SIZE
    ensures ReadAt(image, offset, ENTRY_SIZE) == Some(raw[..ENTRY_SIZE])
    ensures ReadAt(image, offset, |raw|) == Some(raw)
    ensures Holds(image, offset + |raw|, strings)
  {
    hide Readable, Holds, ReadAt;
    HeldParts(image, offset, raw, strings);
    ReadableHeld(image, offset, raw, ENTRY_SIZE);
    ReadableHeld(image, offset, raw, |raw|);
    assert raw[..|raw|] == raw;
  }

  lemma CarriedEntries(image: Image, fstOffset: nat, fstSize: nat, es: seq<Entry>)
    requires Carries(image, fstOffset, fstSize, es)
    ensures ReadAt(image, fstOffset, ENTRY_SIZE) == Some(EncodeEntries(es, |es|)[..ENTRY_SIZE])
    ensures ReadAt(image, fstOffset, |es| * ENTRY_SIZE) == Some(EncodeEntries(es, |es|))
    ensures Holds(image, fstOffset + |es| * ENTRY_SIZE, Strings(es))
  {
    hide Readable, ReadAt, Holds, Strings, EncodeEntries;
    HeldReads(image, fstOffset, EncodeEntries(es, |es|), Strings(es));
  }

  lemma OneReadable(image: Image, offset: nat, length: nat)
    requires offset < |image| && image[offset].Some? && length > 0
    ensures ReadAt(image, offset, length).Some? && ReadAt(image, offset, length).value != []
  {
  }

  lemma NamesReadable(image: Image, offset: nat, strings: seq<byte>)
    requires Holds(image, offset, strings) && strings != []
    ensures ReadAt(image, offset, |strings|) == Some(strings)
  {
    ReadableHeld(image, offset, strings, |strings|);
    assert strings[..|strings|] == strings;
  }

  lemma CarriedStrings(image: Image, fstOffset: nat, fstSize: nat, es: seq<Entry>)
    requires Carries(image, fstOffset, fstSize, es)
    ensures var size := |es| * ENTRY_SIZE;
            var strings := ReadAt(image, fstOffset + size, StringLimit(fstSize, size));
            strings.Some? && strings.value != [] && (|es| > 1 ==> strings.value == Strings(es))
  {
    hide Readable, ReadAt, Holds, Strings, EncodeEntries;
    CarriedEntries(image, fstOffset, fstSize, es);
    var size := |es| * ENTRY_SIZE;
    if |es| > 1 {
      OffsetFits(es, |es| - 1);
      assert StringLimit(fstSize, size) == |Strings(es)|;
      hide StringLimit;
      NamesReadable(image, fstOffset + size, Strings(es));
    } else {
      hide StringLimit;
      OneReadable(image, fstOffset + size, StringLimit(fstSize, size));
    }
  }

  lemma FirstEntry(es: seq<Entry>)
    requires EncodableTable(es)
    ensures var b := EncodeEntries(es, |es|)[..ENTRY_SIZE]; b[0] == 1 && Be32(b[8..12]) == |es|
  {
    EncodedSlice(es, |es|, 0);
    EntryFields(es, 0);
    hide EncodeEntry, EncodeEntries, Be32;
    assert EncodeEntries(es, |es|)[..ENTRY_SIZE] == EncodeEntries(es, |es|)[0 * ENTRY_SIZE..1 * ENTRY_SIZE];
  }

  /** Round trip: parsing a disc that carries a table gives back that table. */
  lemma ParseInvertsEncode(image: Image, fstOffset: nat, fstSize: nat, es: seq<Entry>)
    requires Carries(image, fstOffset, fstSize, es)
    ensures ParseFst(image, fstOffset, fstSize) == Some(es)
  {
    hide Readable, ReadAt, Holds, Strings, EncodeEntries, EncodeTable, ParseEntries, Be32, StringLimit;
    CarriedEntries(image, fstOffset, fstSize, es);
    CarriedStrings(image, fstOffset, fstSize, es);
    FirstEntry(es);
    var size := |es| * ENTRY_SIZE;
    var strings := ReadAt(image, fstOffset + size, StringLimit(fstSize, size)).value;
    EntriesRoundTrip(es, strings, |es|);
    assert es[..|es|] == es;
  }

  // ---------- any disc ----------

  lemma ReadsHeld(image: Image, offset: nat, length: nat)
    requires length > 0
    ensures (ReadAt(image, offset, length).Some? && |ReadAt(image, offset, length).value| == length)
            <==> |Readable(image, offset, length)| == length
    ensures ReadAt(image, offset, length).Some? ==>
              ReadAt(image, offset, length).value == Readable(image, offset, length)
  {
    hide Readable;
  }

  /** A read fails only on a byte that the medium fails to read, and then before anything was read;
      beyond the end there is nothing to read. */
  lemma ReadAtIs(image: Image, offset: nat, length: nat)
    ensures ReadAt(image, offset, length) == None <==> length > 0 && offset < |image| && image[offset].None?
    ensures ReadAt(image, offset, length).Some? ==>
              ReadAt(image, offset, length).value == Readable(image, offset, length)
  {
  }

  /** A readable byte begins every readable run. */
  lemma BeginsReadable(image: Image, offset: nat, length: nat)
    requires length > 0
    ensures ReadAt(image, offset, length).Some? && ReadAt(image, offset, length).value != []
            <==> offset < |image| && image[offset].Some?
  {
  }

  /** The image holds these entries at the offset, as many as the first one says, and a first byte
      of names behind them. */
  ghost predicate HoldsTable(image: Image, offset: nat, raw: seq<byte>) {
    && Holds(image, offset, raw) && |raw| >= 12 && raw[0] == 1
    && 0 < Be32(raw[8..12]) <= 0x10_0000 && |raw| == 12 * Be32(raw[8..12])
    && offset + |raw| < |image| && image[offset + |raw|].Some?
  }

  /** Which discs have a table, and that its entries are those of its bytes. */
  lemma ParsesExactlyWhen(image: Image, offset: nat, fstSize: nat)
    ensures ParseFst(image, offset, fstSize).Some? <==> exists raw :: HoldsTable(image, offset, raw)
  {
    if ParseFst(image, offset, fstSize).Some? {
      var raw := ParsedHolds(image, offset, fstSize);
    }
    if raw :| HoldsTable(image, offset, raw) {
      HeldParses(image, offset, fstSize, raw);
    }
  }

  lemma ParsedHolds(image: Image, offset: nat, fstSize: nat) returns (raw: seq<byte>)
    requires ParseFst(image, offset, fstSize).Some?
    ensures HoldsTable(image, offset, raw)
  {
    var entry0 := ReadAt(image, offset, ENTRY_SIZE).value;
    var n := Be32(entry0[8..12]);
    var size := n * ENTRY_SIZE;
    raw := ReadAt(image, offset, size).value;
    hide Readable, Be32;
    ReadsHeld(image, offset, ENTRY_SIZE);
    ReadsHeld(image, offset, size);
    ReadableCells(image, offset, ENTRY_SIZE);
    ReadableCells(image, offset, size);
    SameStart(image, offset, entry0, raw);
    BeginsReadable(image, offset + size, StringLimit(fstSize, size));
    hide ParseEntries, StringLimit, Holds;
    assert raw[8..12] == raw[..12][8..12] == entry0[8..12];
  }

  lemma SameStart(image: Image, offset: nat, a: seq<byte>, b: seq<byte>)
    requires Holds(image, offset, a) && Holds(image, offset, b) && |a| <= |b|
    ensures b[..|a|] == a
  {
    forall i | 0 <= i < |a| ensures a[i] == b[i] {
      assert image[offset + i] == Some(a[i]) && image[offset + i] == Some(b[i]);
    }
  }

  lemma HeldParses(image: Image, offset: nat, fstSize: nat, raw: seq<byte>)
    requires HoldsTable(image, offset, raw)
    ensures ParseFst(image, offset, fstSize).Some?
    ensures exists strings :: ParseFst(image, offset, fstSize).value == ParseEntries(raw, strings, |raw| / 12)
  {
    var n := Be32(raw[8..12]);
    hide Be32, Readable;
    ReadableHeld(image, offset, raw, 12);
    ReadableHeld(image, offset, raw, |raw|);
    assert raw[..|raw|] == raw && raw[..12][8..12] == raw[8..12];
    BeginsReadable(image, offset + |raw|, StringLimit(fstSize, |raw|));
    hide ReadAt, Holds, StringLimit;
    assert |raw| / 12 == n;
  }

  /** Each entry says what its twelve bytes say: a directory if the first is not zero, the root in
      any case; its two words; and the name that stands at its 24-bit offset, if one does. */
  lemma ParsedIs(raw: seq<byte>, strings: seq<byte>, n: nat, i: nat)
    requires i < n && n * 12 <= |raw|
    ensures var e, at := ParseEntries(raw, strings, n)[i], 12 * i;
            && (e.DirEntry? <==> i == 0 || raw[at] != 0)
            && (e.DirEntry? ==> e.end == Be32(raw[at + 8..at + 12]))
            && (e.DirEntry? && i > 0 ==> e.parent == Be32(raw[at + 4..at + 8]))
            && (e.FileEntry? ==> e.offset == Be32(raw[at + 4..at + 8]) && e.length == Be32(raw[at + 8..at + 12]))
            && (i == 0 ==> e.name == [])
            && (i > 0 ==> NameStands(strings, Be24(raw[at + 1..at + 4]), e.name))
  {
    ParsedAt(raw, strings, n, i);
    OneParsed(raw, strings, i);
    hide *;
  }

  lemma OneParsed(raw: seq<byte>, strings: seq<byte>, i: nat)
    requires i * 12 + 12 <= |raw|
    ensures var e, at := ParseEntry(raw, strings, i), 12 * i;
            && (e.DirEntry? <==> i == 0 || raw[at] != 0)
            && (e.DirEntry? ==> e.end == Be32(raw[at + 8..at + 12]))
            && (e.DirEntry? && i > 0 ==> e.parent == Be32(raw[at + 4..at + 8]))
            && (e.FileEntry? ==> e.offset == Be32(raw[at + 4..at + 8]) && e.length == Be32(raw[at + 8..at + 12]))
            && (i == 0 ==> e.name == [])
            && (i > 0 ==> NameStands(strings, Be24(raw[at + 1..at + 4]), e.name))
  {
    hide Be32, Be24, NameAt, NameStands;
    var at := 12 * i;
    var b := raw[i * ENTRY_SIZE..(i + 1) * ENTRY_SIZE];
    assert b == raw[at..at + 12];
    SliceOfSlice(raw, at, at + 12, 1, 4);
    SliceOfSlice(raw, at, at + 12, 4, 8);
    SliceOfSlice(raw, at, at + 12, 8, 12);
    assert b[0] == raw[at];
    NameAtStands(strings, Be24(b[1..4]));
  }

  lemma SliceOfSlice(s: seq<byte>, i: nat, j: nat, a: nat, b: nat)
    requires i <= j <= |s| && a <= b <= j - i
    ensures s[i..j][a..b] == s[i + a..i + b]
  {
    var x, y := s[i..j][a..b], s[i + a..i + b];
    forall k | 0 <= k < b - a ensures x[k] == y[k] {
      assert x[k] == s[i..j][a + k] == s[i + (a + k)];
    }
  }

  lemma {:induction false} ParsedAt(raw: seq<byte>, strings: seq<byte>, n: nat, i: nat)
    requires i < n && n * ENTRY_SIZE <= |raw|
    ensures ParseEntries(raw, strings, n)[i] == ParseEntry(raw, strings, i)
  {
    hide ParseEntry;
    if i < n - 1 {
      ParsedAt(raw, strings, n - 1, i);
    }
  }

  /** The name ends before the first zero byte from its offset on, or where the names end. */
  ghost predicate NameStands(strings: seq<byte>, offset: nat, name: Name) {
    if offset >= |strings| then name == []
    else
      && offset + |name| <= |strings| && strings[offset..offset + |name|] == name
      && (forall i | 0 <= i < |name| :: name[i] != 0)
      && (offset + |name| < |strings| ==> strings[offset + |name|] == 0)
  }

  lemma NameAtStands(strings: seq<byte>, offset: nat)
    ensures NameStands(strings, offset, NameAt(strings, offset))
  {
    if offset < |strings| {
      var s, r := strings[offset..], NameAt(strings, offset);
      CStringIs(s);
      assert s[..|r|] == strings[offset..offset + |r|];
    }
  }

  lemma {:induction false} CStringIs(s: seq<byte>)
    ensures var r := CString(s);
            && |r| <= |s| && r == s[..|r|] && (forall i | 0 <= i < |r| :: r[i] != 0)
            && (|r| < |s| ==> s[|r|] == 0)
  {
    if |s| > 0 && s[0] != 0 {
      CStringIs(s[1..]);
    }
  }

  /** How much is read for the names: what the header's size leaves beyond the entries, or up to
      16 MiB when that is nothing or more. */
  lemma StringLimitIs(fstSize: nat, tableBytes: nat)
    ensures var rest := fstSize - tableBytes;
            StringLimit(fstSize, tableBytes) == if 0 < rest <= 0x100_0000 then rest else 0x100_0000
  {
  }
}
