/** An open disc (switch/src/nod/gc_disc.c): header checks and the lazily parsed file table. */
module DiscReader {
  import opened Sequences
  import opened Endian
  import opened DiscTable

  const HEADER_SIZE: nat := 0x440
  const MAGIC: nat := 0xC233_9F3D

  datatype Header = Header(
    gameId: seq<byte>, discNum: byte, version: byte, dolOffset: nat, fstOffset: nat, fstSize: nat)

  /** gc_disc_open. */
  function OpenHeader(image: Image): Option<Header> {
    if |image| <= HEADER_SIZE then None else
      match ReadAt(image, 0, HEADER_SIZE)
      case None => None
      case Some(h) =>
        if |h| != HEADER_SIZE || Be32(h[0x1C..0x20]) != MAGIC then None else
          var dol, fst := Be32(h[0x420..0x424]), Be32(h[0x424..0x428]);
          if fst == 0 || fst <= dol || fst >= |image| then None
          else Some(Header(h[..6], h[6], h[7], dol, fst, Be32(h[0x428..0x42C])))
  }

  /** The image begins with a disc header of these fields, wherever else its bytes are from. */
  ghost predicate HeaderAt(image: Image, h: Header) {
    && |image| > 0x440 && (forall i | 0 <= i < 0x440 :: image[i].Some?)
    && |h.gameId| == 6 && h.dolOffset < U32 && h.fstOffset < U32 && h.fstSize < U32
    && Holds(image, 0, h.gameId + [h.discNum, h.version])
    && Holds(image, 0x1C, [0xC2, 0x33, 0x9F, 0x3D])
    && Holds(image, 0x420, ToBe32(h.dolOffset))
    && Holds(image, 0x424, ToBe32(h.fstOffset))
    && Holds(image, 0x428, ToBe32(h.fstSize))
  }

  /** And its file table is where one can be. */
  ghost predicate Opens(image: Image, h: Header) {
    HeaderAt(image, h) && 0 < h.fstOffset && h.dolOffset < h.fstOffset < |image|
  }

  /** Which images open, and with what: exactly those that begin with a header whose file table
      lies beyond the program and inside the image, with exactly that header's fields. */
  lemma OpensExactly(image: Image, h: Header)
    ensures OpenHeader(image) == Some(h) <==> Opens(image, h)
  {
    if OpenHeader(image) == Some(h) {
      OpenedIsHeader(image, h);
    }
    if Opens(image, h) {
      HeaderIsOpened(image, h);
    }
  }

  lemma HeldSlice(image: Image, bytes: seq<byte>, i: nat, j: nat)
    requires i <= j <= |bytes| && Holds(image, 0, bytes)
    ensures Holds(image, i, bytes[i..j])
  {
    forall k | 0 <= k < j - i ensures image[i + k] == Some(bytes[i..j][k]) {
      assert image[0 + (i + k)] == Some(bytes[i + k]);
    }
  }

  lemma OpenedIsHeader(image: Image, h: Header)
    requires OpenHeader(image) == Some(h)
    ensures Opens(image, h)
  {
    var b := ReadAt(image, 0, HEADER_SIZE).value;
    ReadableCells(image, 0, HEADER_SIZE);
    forall i | 0 <= i < 0x440 ensures image[i].Some? {
      assert image[0 + i] == Some(b[i]);
    }
    hide Readable, Be32, ToBe32;
    HeldSlice(image, b, 0, 8);
    assert b[0..8] == h.gameId + [h.discNum, h.version];
    HeldSlice(image, b, 0x1C, 0x20);
    MagicBytes();
    ToBe32OfBe32(b[0x1C..0x20]);
    HeldSlice(image, b, 0x420, 0x424);
    ToBe32OfBe32(b[0x420..0x424]);
    HeldSlice(image, b, 0x424, 0x428);
    ToBe32OfBe32(b[0x424..0x428]);
    HeldSlice(image, b, 0x428, 0x42C);
    ToBe32OfBe32(b[0x428..0x42C]);
    hide Holds;
  }

  lemma MagicBytes()
    ensures ToBe32(MAGIC) == [0xC2, 0x33, 0x9F, 0x3D]
    ensures Be32([0xC2, 0x33, 0x9F, 0x3D]) == MAGIC
  {
    assert Be32([0xC2, 0x33, 0x9F, 0x3D]) == MAGIC;
    ToBe32OfBe32([0xC2, 0x33, 0x9F, 0x3D]);
  }

  /** The bytes of the cells. */
  function Bytes(image: Image, n: nat): (b: seq<byte>)
    requires n <= |image| && forall i | 0 <= i < n :: image[i].Some?
  {
    seq(n, i requires 0 <= i < n => image[i].value)
  }

  lemma SliceHeld(image: Image, b: seq<byte>, i: nat, part: seq<byte>)
    requires Holds(image, 0, b) && Holds(image, i, part) && i + |part| <= |b|
    ensures b[i..i + |part|] == part
  {
    forall k | 0 <= k < |part| ensures b[i + k] == part[k] {
      assert image[0 + (i + k)] == Some(b[i + k]);
      assert image[i + k] == Some(part[k]);
    }
  }

  lemma HeaderIsOpened(image: Image, h: Header)
    requires Opens(image, h)
    ensures OpenHeader(image) == Some(h)
  {
    var b := Bytes(image, HEADER_SIZE);
    assert Holds(image, 0, b);
    ReadableHeld(image, 0, b, HEADER_SIZE);
    assert b[..HEADER_SIZE] == b;
    hide Readable, Be32, ToBe32;
    MagicBytes();
    SliceHeld(image, b, 0, h.gameId + [h.discNum, h.version]);
    SliceHeld(image, b, 0x1C, [0xC2, 0x33, 0x9F, 0x3D]);
    SliceHeld(image, b, 0x420, ToBe32(h.dolOffset));
    SliceHeld(image, b, 0x424, ToBe32(h.fstOffset));
    SliceHeld(image, b, 0x428, ToBe32(h.fstSize));
    var first := h.gameId + [h.discNum, h.version];
    assert b[0..8] == first;
    assert b[..6] == b[0..8][..6] == h.gameId && b[6] == b[0..8][6] && b[7] == b[0..8][7];
    hide Holds;
  }

  const MELEE_ID: seq<byte> := [71, 65, 76, 69, 48, 49]

  /** looksLikeMeleeDisc. */
  predicate LooksLikeMelee(image: Image) {
    match OpenHeader(image)
    case None => false
    case Some(h) => h.gameId == MELEE_ID && h.version == 2 && h.discNum == 0
  }

  /** A disc of Melee 1.02: "GALE01", disc 0, version 2. */
  ghost predicate MeleeDisc(image: Image, h: Header) {
    Opens(image, h) && h.gameId == [0x47, 0x41, 0x4C, 0x45, 0x30, 0x31] && h.discNum == 0 && h.version == 2
  }

  lemma LooksLikeMeleeExactly(image: Image)
    ensures LooksLikeMelee(image) <==> exists h :: MeleeDisc(image, h)
    ensures forall h | MeleeDisc(image, h) :: OpenHeader(image) == Some(h)
  {
    hide OpenHeader, Opens;
    if h :| MeleeDisc(image, h) {
      OpensExactly(image, h);
    }
    forall h | MeleeDisc(image, h) ensures OpenHeader(image) == Some(h) {
      OpensExactly(image, h);
    }
    if LooksLikeMelee(image) {
      OpensExactly(image, OpenHeader(image).value);
      assert MeleeDisc(image, OpenHeader(image).value);
    }
  }

  /** The table a disc's header leads to. */
  function DiscTableOf(image: Image): Option<seq<Entry>> {
    match OpenHeader(image)
    case None => None
    case Some(h) => ParseFst(image, h.fstOffset, h.fstSize)
  }

  class GcDisc {
    const image: Image
    const fstOffset: nat
    const fstSize: nat
    var parsed: bool
    var fst: array?<Entry>

    ghost predicate Valid()
      reads this, fst
    {
      && (fst != null ==> parsed && ParseFst(image, fstOffset, fstSize) == Some(fst[..]))
      && (parsed && fst == null ==> ParseFst(image, fstOffset, fstSize) == None)
    }

    constructor (image: Image, header: Header)
      requires OpenHeader(image) == Some(header)
      ensures Valid() && !parsed && this.image == image
      ensures ParseFst(this.image, fstOffset, fstSize) == DiscTableOf(image)
    {
      this.image, fstOffset, fstSize := image, header.fstOffset, header.fstSize;
      parsed, fst := false, null;
    }

    /** The loop of gc_disc_ensure_fst. */
    method Fill(raw: seq<byte>, strings: seq<byte>, count: nat) returns (entries: array<Entry>)
      requires |raw| == count * ENTRY_SIZE
      ensures fresh(entries) && entries[..] == ParseEntries(raw, strings, count)
    {
      entries := new Entry[count](_ => DirEntry([], 0, 0));
      var i := 0;
      while i < count
        invariant i <= count
        invariant entries[..i] == ParseEntries(raw, strings, i)
      {
        entries[i] := ParseEntry(raw, strings, i);
        i := i + 1;
      }
      assert entries[..count] == entries[..];
    }

    /** gc_disc_ensure_fst: parses on the first call, answers from the first result afterwards. */
    method EnsureFst() returns (ok: bool)
      requires Valid()
      modifies this
      ensures Valid() && parsed
      ensures ok <==> fst != null
      ensures ok <==> ParseFst(image, fstOffset, fstSize).Some?
      ensures ok ==> fst[..] == ParseFst(image, fstOffset, fstSize).value
      ensures old(parsed) ==> fst == old(fst)
      ensures fst == old(fst) || fresh(fst)
    {
      if parsed {
        return fst != null;
      }
      parsed, ok := true, false;
      var entry0 := ReadAt(image, fstOffset, ENTRY_SIZE);
      if entry0.None? || |entry0.value| != ENTRY_SIZE {
        return;
      }
      if entry0.value[0] != 1 {
        return;
      }
      var count := Be32(entry0.value[8..12]);
      if count == 0 || count > MAX_ENTRIES {
        return;
      }
      var size := count * ENTRY_SIZE;
      var raw := ReadAt(image, fstOffset, size);
      if raw.None? || |raw.value| != size {
        return;
      }
      var strings := ReadAt(image, fstOffset + size, StringLimit(fstSize, size));
      if strings.None? || strings.value == [] {
        return;
      }
      fst := Fill(raw.value, strings.value, count);
      ok := true;
    }
  }
}
