/**
 Extracting a disc's files to the SD card (switch/src/game_data/disc_extractor.cpp).
 Every file-system call may fail, every progress callback may cancel; what a successful
 extraction leaves on the card is stated on the table and then on the tree.
 */
module DiscExtract {
  import opened Sequences
  import opened DiscTable
  import opened DiscWalk
  import opened DiscReader
  import opened CardPaths
  import opened DiscNames

  const CHUNK_SIZE: nat := 0x10_0000
  const WALK_STOP: nat := 0xFFFF_FFFF

  type Files = map<Place, seq<byte>>

  /** What the completion manifest records. */
  datatype Manifest = Manifest(files: nat, bytes: nat)

  datatype Result = Complete(files: nat, bytes: nat) | Refused | Canceled | Failed

  // ---------- specification ----------

  /** Publishing one file: its temporary is gone, its path holds its bytes. */
  function Publish(files: Files, path: Name, bytes: seq<byte>): Files {
    (files - {At(path + PART)})[At(path) := bytes]
  }

  /** Publishing the files of a walk in order. */
  function PublishAll(image: Image, files: Files, items: seq<Item>): Files
    decreases items
  {
    if items == [] then files
    else
      match items[0]
      case DirItem(_) => PublishAll(image, files, items[1..])
      case FileItem(path, offset, length) =>
        PublishAll(image, Publish(files, path, Readable(image, offset, length)), items[1..])
  }

  /** Where an entry ends up on the card, and where its temporary does. */
  function PlaceOf(item: Item): Place { At(item.path) }

  function PartOf(item: Item): Place { At(item.path + PART) }

  /** The directories of a walk in order: made when shown, and gone when a file takes their place. */
  function FoldersAfter(folders: set<Place>, items: seq<Item>): set<Place>
    decreases items
  {
    if items == [] then folders
    else
      match items[0]
      case DirItem(path) => FoldersAfter(folders + {At(path)}, items[1..])
      case FileItem(path, _, _) => FoldersAfter(folders - {At(path)}, items[1..])
  }

  function Folders(items: seq<Item>): set<Place> {
    set i | 0 <= i < |items| && items[i].DirItem? :: PlaceOf(items[i])
  }

  function FilePlaces(items: seq<Item>): set<Place> {
    set i | 0 <= i < |items| && items[i].FileItem? :: PlaceOf(items[i])
  }

  function FileCount(items: seq<Item>): nat {
    if items == [] then 0 else (if items[0].FileItem? then 1 else 0) + FileCount(items[1..])
  }

  function ByteCount(items: seq<Item>): nat {
    if items == [] then 0 else (if items[0].FileItem? then items[0].length else 0) + ByteCount(items[1..])
  }

  /** The bytes of the entry, if it is a file, can all be read from the disc. */
  predicate EntryReadable(image: Image, e: Entry) {
    e.FileEntry? ==> |Readable(image, e.offset, e.length)| == e.length
  }

  ghost predicate FilesReadable(image: Image, table: seq<Entry>, n: nat)
    requires n <= |table|
  {
    forall k | 0 < k < n :: EntryReadable(image, table[k])
  }

  /** The extractor's stack and counters and the card, between two callbacks. */
  datatype Progress = Progress(
    stack: seq<Frame>, files: Files, folders: set<Place>, filesDone: nat, bytesDone: nat)

  /** Doing one entry whose path is known. */
  function Done(image: Image, e: Entry, path: Name, p: Progress): Progress {
    match e
    case DirEntry(_, _, end) => p.(stack := p.stack + [Frame(path, end)], folders := p.folders + {At(path)})
    case FileEntry(_, offset, length) =>
      Progress(p.stack, Publish(p.files, path, Readable(image, offset, length)), p.folders - {At(path)},
               p.filesDone + 1, p.bytesDone + length)
  }

  /** One callback that does not stop the walk. */
  function EntryDone(image: Image, e: Entry, index: nat, p: Progress): (q: Progress)
    requires Grounded(p.stack, index + 1)
    ensures q.stack != [] && q.stack[0] == p.stack[0]
  {
    var s := PopTo(p.stack, index);
    Done(image, e, Join(s[|s| - 1].path, e.name), p.(stack := s))
  }

  function WalkDone(image: Image, table: seq<Entry>, i: nat, p: Progress): Progress
    requires i <= |table| && Grounded(p.stack, |table|)
    decreases |table| - i
  {
    if i == |table| then p else WalkDone(image, table, i + 1, EntryDone(image, table[i], i, p))
  }

  // ---------- the card ----------

  /** A card may refuse any call, and refuses what its contents rule out; `refusals` counts the
      refusals that the extractor looks at. */
  class SdCard {
    var files: Files
    var folders: set<Place>
    var manifest: Option<Manifest>
    ghost var refusals: nat

    constructor ()
    {
      files, folders, manifest, refusals := map[], {}, None, 0;
    }

    method CreateDirectories(at: Place) returns (ok: bool)
      modifies this`folders, this`refusals
      ensures old(folders) <= folders && (ok ==> at !in files && folders == old(folders) + {at})
      ensures refusals == if ok then old(refusals) else old(refusals) + 1
    {
      ok := *;
      ok := ok && at !in files;
      if ok {
        folders := folders + {at};
      } else {
        refusals := refusals + 1;
      }
    }

    /** fopen(path, "wb"). */
    method Create(at: Place) returns (ok: bool)
      modifies this`files, this`refusals
      ensures files == if ok then old(files)[at := []] else old(files)
      ensures ok ==> at !in folders
      ensures refusals == if ok then old(refusals) else old(refusals) + 1
    {
      ok := *;
      ok := ok && at !in folders;
      if ok {
        files := files[at := []];
      } else {
        refusals := refusals + 1;
      }
    }

    /** fwrite to the open file; a short write leaves part of the data. */
    method AppendTo(at: Place, data: seq<byte>) returns (ok: bool)
      requires at in files
      modifies this`files, this`refusals
      ensures ok ==> files == old(files)[at := old(files)[at] + data]
      ensures files - {at} == old(files) - {at} && at in files
      ensures refusals == if ok then old(refusals) else old(refusals) + 1
    {
      ok := *;
      var n :| 0 <= n <= |data|;
      files := files[at := files[at] + (if ok then data else data[..n])];
      if !ok {
        refusals := refusals + 1;
      }
    }

    /** remove: a file, or an empty directory; its outcome is not looked at. */
    method Remove(at: Place)
      modifies this`files, this`folders
      ensures files == old(files) || files == old(files) - {at}
      ensures folders == old(folders) || folders == old(folders) - {at}
    {
      var ok: bool := *;
      if ok {
        files, folders := files - {at}, folders - {at};
      }
    }

    /** rename of a file; not onto a directory. */
    method Rename(from: Place, to: Place) returns (ok: bool)
      requires from in files
      modifies this`files, this`refusals
      ensures files == if ok then (old(files) - {from})[to := old(files)[from]] else old(files)
      ensures ok ==> to !in folders
      ensures refusals == if ok then old(refusals) else old(refusals) + 1
    {
      ok := *;
      ok := ok && to !in folders;
      if ok {
        files := (files - {from})[to := files[from]];
      } else {
        refusals := refusals + 1;
      }
    }

    /** Writing the manifest to its temporary, removing the old one and renaming. */
    method PublishManifest(m: Manifest) returns (ok: bool)
      modifies this`manifest, this`refusals
      ensures ok ==> manifest == Some(m)
      ensures !ok ==> manifest == old(manifest) || manifest == None
      ensures refusals == if ok then old(refusals) else old(refusals) + 1
    {
      var writable: bool := *;
      ok := false;
      if writable {
        var removed: bool := *;
        if removed {
          manifest := None;
        }
        ok := *;
      }
      if ok {
        manifest := Some(m);
      } else {
        refusals := refusals + 1;
      }
    }
  }

  // ---------- the extraction ----------

  class ExtractCtx {
    const disc: GcDisc
    const card: SdCard
    const watched: bool
    var stack: seq<Frame>
    const filesTotal: nat
    const bytesTotal: nat
    var filesDone: nat
    var bytesDone: nat
    var failed: bool
    var canceled: bool

    constructor (disc: GcDisc, card: SdCard, watched: bool, filesTotal: nat, bytesTotal: nat)
      ensures this.disc == disc && this.card == card && this.watched == watched
      ensures this.filesTotal == filesTotal && this.bytesTotal == bytesTotal
      ensures stack == [BASE] && filesDone == bytesDone == 0 && !failed && !canceled
    {
      this.disc, this.card, this.watched := disc, card, watched;
      this.filesTotal, this.bytesTotal := filesTotal, bytesTotal;
      stack, filesDone, bytesDone, failed, canceled := [BASE], 0, 0, false, false;
    }

    /** reportProgress: without a callback the answer is always to go on. */
    method ReportProgress() returns (keep: bool)
      modifies this`canceled
      ensures canceled == (old(canceled) || !keep)
      ensures !watched ==> keep
    {
      keep := true;
      if watched {
        keep := *;
        if !keep {
          canceled := true;
        }
      }
    }

    /** The copy loop of extractOneFile, into the temporary at `part`. */
    method CopyChunks(part: Place, offset: nat, length: nat) returns (ok: bool)
      requires part in card.files && card.files[part] == []
      modifies this`bytesDone, this`canceled, card`files, card`refusals
      ensures part in card.files && card.files - {part} == old(card.files) - {part}
      ensures (old(canceled) ==> canceled) && (canceled ==> old(canceled) || watched)
      ensures ok ==> canceled == old(canceled) && card.refusals == old(card.refusals)
      ensures ok ==> |Readable(disc.image, offset, length)| == length
      ensures ok ==> card.files[part] == Readable(disc.image, offset, length) && bytesDone == old(bytesDone) + length
      ensures card.refusals >= old(card.refusals)
      ensures !ok ==> |Readable(disc.image, offset, length)| < length || canceled || card.refusals > old(card.refusals)
    {
      var written := 0;
      ok := true;
      while written < length
        invariant written <= length && part in card.files && card.files - {part} == old(card.files) - {part}
        invariant canceled == old(canceled) && card.refusals == old(card.refusals)
        invariant card.files[part] == Readable(disc.image, offset, written)
        invariant |Readable(disc.image, offset, written)| == written
        invariant bytesDone == old(bytesDone) + written
        invariant ok
      {
        var want := if CHUNK_SIZE < length - written then CHUNK_SIZE else length - written;
        var got := ReadAt(disc.image, offset + written, want);
        if got.None? || got.value == [] {
          ReadStops(disc.image, offset, written, want, length);
          ok := false;
          break;
        }
        var stored := card.AppendTo(part, got.value);
        if !stored {
          ok := false;
          break;
        }
        ReadableSplit(disc.image, offset, written, want);
        written := written + |got.value|;
        bytesDone := bytesDone + |got.value|;
        var keep := ReportProgress();
        if !keep {
          ok := false;
          break;
        }
      }
    }

    method ExtractOneFile(path: Name, offset: nat, length: nat) returns (ok: bool)
      modifies this`bytesDone, this`canceled, card`files, card`folders, card`refusals
      ensures (old(canceled) ==> canceled) && (canceled ==> old(canceled) || watched)
      ensures card.refusals >= old(card.refusals)
      ensures ok ==> canceled == old(canceled) && card.refusals == old(card.refusals)
      ensures ok ==> |Readable(disc.image, offset, length)| == length
      ensures ok ==> card.files == Publish(old(card.files), path, Readable(disc.image, offset, length))
      ensures ok ==> card.folders == old(card.folders) - {At(path)}
      ensures ok ==> bytesDone == old(bytesDone) + length
      ensures !ok ==> var touched := {At(path), At(path + PART)}; card.files - touched == old(card.files) - touched
      ensures !ok ==> |Readable(disc.image, offset, length)| < length || canceled || card.refusals > old(card.refusals)
    {
      hide At, Readable;
      var part, to := At(path + PART), At(path);
      ok := card.Create(part);
      if !ok {
        return;
      }
      ok := CopyChunks(part, offset, length);
      PartDiffers(path);
      Untouched(old(card.files), card.files, part, to);
      if !ok {
        card.Remove(part);
        return;
      }
      card.Remove(to);
      ok := card.Rename(part, to);
    }

    ghost function Now(): Progress
      reads this, card
    {
      Progress(stack, card.files, card.folders, filesDone, bytesDone)
    }

    /** The loop that pops directories whose subtree is over. */
    method PopFrames(index: nat)
      requires Grounded(stack, index + 1)
      modifies this`stack
      ensures stack == PopTo(old(stack), index) && Now() == old(Now()).(stack := stack)
      ensures stack != [] && stack[0] == old(stack)[0] && old(Now()).stack == old(stack)
    {
      while index >= stack[|stack| - 1].end
        invariant Grounded(stack, index + 1) && PopTo(stack, index) == PopTo(old(stack), index)
        decreases |stack|
      {
        stack := stack[..|stack| - 1];
      }
    }

    method EnterDirectory(path: Name, end: nat) returns (ok: bool)
      modifies this`stack, this`failed, card`folders, card`refusals
      ensures failed == (old(failed) || !ok)
      ensures card.refusals == if ok then old(card.refusals) else old(card.refusals) + 1
      ensures !ok ==> stack == old(stack)
      ensures ok ==> Now() == old(Now().(stack := stack + [Frame(path, end)], folders := card.folders + {At(path)}))
    {
      hide At;
      ok := card.CreateDirectories(At(path));
      if ok {
        stack := stack + [Frame(path, end)];
      } else {
        failed := true;
      }
    }

    method CopyEntry(path: Name, offset: nat, length: nat) returns (ok: bool)
      modifies this`filesDone, this`bytesDone, this`failed, this`canceled, card`files, card`folders, card`refusals
      ensures (old(failed) ==> failed) && (old(canceled) ==> canceled) && (canceled ==> old(canceled) || watched)
      ensures card.refusals >= old(card.refusals)
      ensures !ok ==> failed || canceled
      ensures !ok && !canceled ==>
                |Readable(disc.image, offset, length)| < length || card.refusals > old(card.refusals)
      ensures ok ==>
                && failed == old(failed) && canceled == old(canceled) && card.refusals == old(card.refusals)
                && |Readable(disc.image, offset, length)| == length
                && Now() == Progress(stack, Publish(old(card.files), path, Readable(disc.image, offset, length)),
                                     old(card.folders) - {At(path)}, old(filesDone) + 1, old(bytesDone) + length)
    {
      hide At, Readable, Publish;
      ok := ExtractOneFile(path, offset, length);
      if !ok {
        failed := true;
        return;
      }
      filesDone := filesDone + 1;
      ok := ReportProgress();
    }

    /** The rest of extractCallback, once the entry's path is known. */
    method ProcessEntry(e: Entry, path: Name) returns (ok: bool)
      modifies this, card
      ensures card.manifest == old(card.manifest)
      ensures old(stack) <= stack
      ensures (old(failed) ==> failed) && (old(canceled) ==> canceled) && (canceled ==> old(canceled) || watched)
      ensures card.refusals >= old(card.refusals)
      ensures !ok ==> failed || canceled
      ensures !ok && !canceled ==> !EntryReadable(disc.image, e) || card.refusals > old(card.refusals)
      ensures ok ==> failed == old(failed) && canceled == old(canceled) && card.refusals == old(card.refusals)
      ensures ok ==> EntryReadable(disc.image, e) && Now() == Done(disc.image, e, path, old(Now()))
    {
      hide Publish, Readable, At;
      match e {
        case DirEntry(_, _, end) => ok := EnterDirectory(path, end);
        case FileEntry(_, offset, length) => ok := CopyEntry(path, offset, length);
      }
    }

    /** extractCallback after its test for an earlier stop. */
    method VisitEntry(index: nat) returns (ok: bool)
      requires disc.fst != null && 0 < index < disc.fst.Length <= MAX_ENTRIES && Grounded(stack, disc.fst.Length)
      modifies this, card
      ensures Grounded(stack, disc.fst.Length) && card.manifest == old(card.manifest)
      ensures (old(failed) ==> failed) && (old(canceled) ==> canceled) && (canceled ==> old(canceled) || watched)
      ensures card.refusals >= old(card.refusals)
      ensures !ok ==> failed || canceled
      ensures !ok && !canceled ==> !EntryReadable(disc.image, disc.fst[index]) || card.refusals > old(card.refusals)
      ensures ok ==> failed == old(failed) && canceled == old(canceled) && card.refusals == old(card.refusals)
      ensures ok ==> EntryReadable(disc.image, disc.fst[index])
                     && Now() == EntryDone(disc.image, disc.fst[index], index, old(Now()))
    {
      hide *;
      ghost var was := Now();
      GroundedLess(stack, index + 1, disc.fst.Length);
      PopFrames(index);
      ghost var s := stack;
      GroundedAfterPop(was.stack, s, disc.fst.Length);
      var e := disc.fst[index];
      ok := ProcessEntry(e, Join(stack[|stack| - 1].path, e.name));
      GroundedAfterPush(s, stack, disc.fst.Length);
      if ok {
        EntryDoneIs(disc.image, e, index, was, s);
      }
    }

    /** extractCallback for the entry at `index` of the parsed table. */
    method ExtractCallback(index: nat) returns (next: nat)
      requires disc.fst != null && 0 < index < disc.fst.Length <= MAX_ENTRIES && Grounded(stack, disc.fst.Length)
      modifies this, card
      ensures Grounded(stack, disc.fst.Length) && card.manifest == old(card.manifest)
      ensures next == index + 1 || next == WALK_STOP
      ensures next == WALK_STOP ==> failed || canceled
      ensures next == WALK_STOP && !old(failed) && !canceled ==>
                !EntryReadable(disc.image, disc.fst[index]) || card.refusals > old(card.refusals)
      ensures (old(failed) ==> failed) && (old(canceled) ==> canceled) && (canceled ==> old(canceled) || watched)
      ensures card.refusals >= old(card.refusals)
      ensures next == index + 1 ==>
                && !old(failed) && !old(canceled) && !failed && !canceled
                && card.refusals == old(card.refusals)
                && EntryReadable(disc.image, disc.fst[index])
                && Now() == EntryDone(disc.image, disc.fst[index], index, old(Now()))
    {
      if failed || canceled {
        return WALK_STOP;
      }
      hide EntryDone, EntryReadable;
      var ok := VisitEntry(index);
      next := if ok then index + 1 else WALK_STOP;
    }

    /** gc_disc_walk_fst with extractCallback. */
    method ExtractWalk()
      requires disc.fst != null && 0 < disc.fst.Length <= MAX_ENTRIES && Grounded(stack, disc.fst.Length)
      modifies this, card
      ensures card.manifest == old(card.manifest)
      ensures (old(failed) ==> failed) && (old(canceled) ==> canceled) && (canceled ==> old(canceled) || watched)
      ensures failed && !old(failed) && !canceled ==>
                !FilesReadable(disc.image, disc.fst[..], disc.fst.Length) || card.refusals > old(card.refusals)
      ensures card.refusals >= old(card.refusals)
      ensures !failed && !canceled ==>
                && card.refusals == old(card.refusals)
                && FilesReadable(disc.image, disc.fst[..], disc.fst.Length)
                && Now() == WalkDone(disc.image, disc.fst[..], 1, old(Now()))
    {
      hide PopTo, EntryDone, Publish, EntryReadable;
      ghost var table, start := disc.fst[..], Now();
      var i := 1;
      while i < disc.fst.Length
        invariant 1 <= i <= disc.fst.Length && Grounded(stack, disc.fst.Length)
        invariant card.manifest == old(card.manifest)
        invariant failed == old(failed) && canceled == old(canceled)
        invariant card.refusals == old(card.refusals)
        invariant !failed && !canceled ==>
                    FilesReadable(disc.image, table, i)
                    && WalkDone(disc.image, table, i, Now()) == WalkDone(disc.image, table, 1, start)
      {
        var next := ExtractCallback(i);
        if next == WALK_STOP {
          assert table[i] == disc.fst[i];
          return;
        }
        i := if next > i then next else i + 1;
      }
    }
  }

  /** What a complete extraction of the files of `table` did to the card. */
  ghost predicate ExtractedTable(image: Image, table: seq<Entry>, before: Files, folders: set<Place>, after: Files,
                                 folders': set<Place>, files: nat, bytes: nat)
  {
    && 0 < |table| <= MAX_ENTRIES
    && FilesReadable(image, table, |table|)
    && var items := WalkFrom(table, 1, [BASE]);
       && after == PublishAll(image, before, items)
       && folders' == FoldersAfter(folders + {HERE}, items)
       && files == FileCount(items) && bytes == ByteCount(items)
  }

  /** The table that a header's offset and size lead to. */
  function TableAt(image: Image, h: Header): Option<seq<Entry>> { ParseFst(image, h.fstOffset, h.fstSize) }

  /** What a complete extraction of `image` did to the card. */
  ghost predicate Extracted(image: Image, before: Files, folders: set<Place>, after: Files, folders': set<Place>,
                            files: nat, bytes: nat)
  {
    exists h | MeleeDisc(image, h) && TableAt(image, h).Some? ::
      ExtractedTable(image, TableAt(image, h).value, before, folders, after, folders', files, bytes)
  }

  /** gc_disc_walk_fst with countCallback. */
  method CountFiles(disc: GcDisc) returns (files: nat, bytes: nat)
    requires disc.fst != null && 0 < disc.fst.Length <= MAX_ENTRIES
    ensures files == FileCount(WalkFrom(disc.fst[..], 1, [BASE]))
    ensures bytes == ByteCount(WalkFrom(disc.fst[..], 1, [BASE]))
  {
    ghost var table, stack := disc.fst[..], [BASE];
    var i := 1;
    files, bytes := 0, 0;
    while i < disc.fst.Length
      invariant 1 <= i <= disc.fst.Length && Grounded(stack, |table|)
      invariant files + FileCount(WalkFrom(table, i, stack)) == FileCount(WalkFrom(table, 1, [BASE]))
      invariant bytes + ByteCount(WalkFrom(table, i, stack)) == ByteCount(WalkFrom(table, 1, [BASE]))
    {
      ghost var s := PopTo(stack, i);
      ghost var path := Join(s[|s| - 1].path, table[i].name);
      match disc.fst[i] {
        case FileEntry(_, _, length) =>
          files, bytes := files + 1, bytes + length;
          stack := s;
        case DirEntry(_, _, end) =>
          stack := s + [Frame(path, end)];
      }
      i := i + 1;
    }
  }

  /** The middle of extractGameFiles: count, create the output directory, walk. */
  method WalkDisc(disc: GcDisc, card: SdCard, watched: bool) returns (r: Result, filesTotal: nat, bytesTotal: nat)
    requires disc.Valid() && disc.fst != null && 0 < disc.fst.Length <= MAX_ENTRIES
    modifies card
    ensures card.manifest == old(card.manifest) && r != Refused
    ensures r.Canceled? ==> watched
    ensures card.refusals >= old(card.refusals)
    ensures r.Complete? <==> FilesReadable(disc.image, old(disc.fst[..]), disc.fst.Length)
                             && card.refusals == old(card.refusals) && !r.Canceled?
    ensures var items := WalkFrom(old(disc.fst[..]), 1, [BASE]);
            filesTotal == FileCount(items) && bytesTotal == ByteCount(items)
    ensures r.Complete? ==>
              var items := WalkFrom(old(disc.fst[..]), 1, [BASE]);
              && card.files == PublishAll(disc.image, old(card.files), items)
              && card.folders == FoldersAfter(old(card.folders) + {HERE}, items)
              && r.files == filesTotal && r.bytes == bytesTotal
  {
    hide WalkFrom, WalkDone, PublishAll, FileCount, ByteCount, FoldersAfter, EntryReadable;
    filesTotal, bytesTotal := CountFiles(disc);
    var made := card.CreateDirectories(HERE);
    if !made {
      return Failed, filesTotal, bytesTotal;
    }
    var ctx := new ExtractCtx(disc, card, watched, filesTotal, bytesTotal);
    var _ := ctx.ReportProgress();
    ghost var start := ctx.Now();
    ctx.ExtractWalk();
    if ctx.canceled {
      return Canceled, filesTotal, bytesTotal;
    }
    if ctx.failed {
      return Failed, filesTotal, bytesTotal;
    }
    WalkDoneIs(disc.image, disc.fst[..], 1, start);
    return Complete(ctx.filesDone, ctx.bytesDone), filesTotal, bytesTotal;
  }

  /** What an image must be for its extraction to go through. */
  ghost predicate Extractable(image: Image) {
    exists h | MeleeDisc(image, h) && TableAt(image, h).Some? ::
      FilesReadable(image, TableAt(image, h).value, |TableAt(image, h).value|)
  }

  /** The disc's one header, and the one table it leads to. */
  lemma ExtractableIs(image: Image, h: Header)
    requires OpenHeader(image) == Some(h) && LooksLikeMelee(image)
    ensures MeleeDisc(image, h) && DiscTableOf(image) == TableAt(image, h)
    ensures Extractable(image) <==>
            TableAt(image, h).Some? && FilesReadable(image, TableAt(image, h).value, |TableAt(image, h).value|)
  {
    LooksLikeMeleeExactly(image);
    OpensExactly(image, h);
    hide OpenHeader, Opens, FilesReadable, ParseFst;
    var m :| MeleeDisc(image, m);
    assert m == h;
  }

  /** extractGameFiles on a readable image file: complete exactly when the disc is Melee's, its
      table parses, its files can be read, the card refuses nothing and nobody cancels. */
  method ExtractGameFiles(image: Image, card: SdCard, watched: bool) returns (r: Result)
    modifies card
    ensures r.Complete? <==> Extractable(image) && card.refusals == old(card.refusals) && !r.Canceled?
    ensures r.Complete? ==>
              && Extracted(image, old(card.files), old(card.folders), card.files, card.folders, r.files, r.bytes)
              && card.manifest == Some(Manifest(r.files, r.bytes))
    ensures !r.Complete? ==> card.manifest == old(card.manifest) || card.manifest == None
    ensures r.Canceled? ==> watched
  {
    hide ReadAt, ParseFst, WalkFrom, PublishAll, FileCount, ByteCount, FilesReadable, FoldersAfter, Opens;
    LooksLikeMeleeExactly(image);
    if !LooksLikeMelee(image) {
      return Refused;
    }
    var disc := new GcDisc(image, OpenHeader(image).value);
    ExtractableIs(image, OpenHeader(image).value);
    ghost var h := OpenHeader(image).value;
    var parsed := disc.EnsureFst();
    if !parsed {
      return Refused;
    }
    ParsedSize(image);
    assert TableAt(image, h) == Some(disc.fst[..]);
    hide OpenHeader, DiscTableOf, LooksLikeMelee, MeleeDisc, TableAt;
    var files, bytes;
    r, files, bytes := WalkDisc(disc, card, watched);
    if !r.Complete? {
      return;
    }
    var ok := card.PublishManifest(Manifest(r.files, r.bytes));
    if !ok {
      return Failed;
    }
  }

  lemma ParsedSize(image: Image)
    ensures DiscTableOf(image).Some? ==> 0 < |DiscTableOf(image).value| <= MAX_ENTRIES
  {
  }

  lemma GroundedLess(stack: seq<Frame>, n: nat, limit: nat)
    requires Grounded(stack, limit) && n <= limit
    ensures Grounded(stack, n)
  {
  }

  lemma GroundedAfterPop(was: seq<Frame>, s: seq<Frame>, limit: nat)
    requires Grounded(was, limit) && s != [] && s[0] == was[0]
    ensures Grounded(s, limit)
  {
  }

  lemma GroundedAfterPush(s: seq<Frame>, s': seq<Frame>, limit: nat)
    requires Grounded(s, limit) && s <= s'
    ensures Grounded(s', limit)
  {
  }

  lemma EntryDoneIs(image: Image, e: Entry, index: nat, p: Progress, s: seq<Frame>)
    requires Grounded(p.stack, index + 1) && s == PopTo(p.stack, index)
    ensures EntryDone(image, e, index, p) == Done(image, e, Join(s[|s| - 1].path, e.name), p.(stack := s))
  {
    hide Done, Join;
  }

  // ---------- what the walk's fold amounts to ----------

  lemma {:induction false} WalkDoneIs(image: Image, table: seq<Entry>, i: nat, p: Progress)
    requires i <= |table| && Grounded(p.stack, |table|)
    ensures var items, q := WalkFrom(table, i, p.stack), WalkDone(image, table, i, p);
            && q.files == PublishAll(image, p.files, items)
            && q.folders == FoldersAfter(p.folders, items)
            && q.filesDone == p.filesDone + FileCount(items)
            && q.bytesDone == p.bytesDone + ByteCount(items)
    decreases |table| - i
  {
    hide At, Publish, Join, Readable, PopTo;
    if i < |table| {
      var p' := EntryDone(image, table[i], i, p);
      WalkDoneIs(image, table, i + 1, p');
      var items := WalkFrom(table, i, p.stack);
      assert items[1..] == WalkFrom(table, i + 1, p'.stack);
    }
  }

  /** The counts are of files alone, one and its length for each. */
  lemma {:induction false} CountsAdd(items: seq<Item>, x: Item)
    ensures FileCount([]) == 0 && FileCount(items + [x]) == FileCount(items) + if x.FileItem? then 1 else 0
    ensures ByteCount([]) == 0 && ByteCount(items + [x]) == ByteCount(items) + if x.FileItem? then x.length else 0
    decreases items
  {
    if items == [] {
      assert [x][1..] == [] && items + [x] == [x];
    } else {
      assert (items + [x])[1..] == items[1..] + [x];
      CountsAdd(items[1..], x);
    }
  }

  // ---------- when publishing keeps every file ----------

  /** The temporary of a later file has the very path of item `k`. */
  ghost predicate Overwritten(items: seq<Item>, k: nat)
    requires k < |items|
  {
    exists j :: k < j < |items| && items[j].FileItem? && PartOf(items[j]) == PlaceOf(items[k])
  }

  ghost predicate PublishedItem(image: Image, files: Files, item: Item)
    requires item.FileItem?
  {
    PlaceOf(item) in files && files[PlaceOf(item)] == Readable(image, item.offset, item.length)
  }

  ghost predicate DistinctFiles(items: seq<Item>) {
    forall i, j | 0 <= i < j < |items| && items[i].FileItem? && items[j].FileItem? ::
      PlaceOf(items[i]) != PlaceOf(items[j])
  }

  /** A place no item writes to or clears keeps its contents. */
  lemma {:induction false} PlaceKept(image: Image, files: Files, items: seq<Item>, at: Place)
    requires forall j | 0 <= j < |items| && items[j].FileItem? ::
               PlaceOf(items[j]) != at && PartOf(items[j]) != at
    ensures var after := PublishAll(image, files, items);
            (at in after <==> at in files) && (at in files ==> after[at] == files[at])
    decreases items
  {
    hide At;
    if items != [] {
      match items[0]
      case DirItem(_) => PlaceKept(image, files, items[1..], at);
      case FileItem(p, offset, length) =>
        PlaceKept(image, Publish(files, p, Readable(image, offset, length)), items[1..], at);
    }
  }

  /** File `j` writes to the place or clears it with its temporary. */
  ghost predicate Touches(items: seq<Item>, j: nat, at: Place)
    requires j < |items|
  {
    items[j].FileItem? && (PlaceOf(items[j]) == at || PartOf(items[j]) == at)
  }

  ghost predicate UntouchedAfter(items: seq<Item>, j: nat, at: Place) {
    forall i | j < i < |items| :: !Touches(items, i, at)
  }

  lemma {:induction false} LastToucher(items: seq<Item>, k: nat, at: Place) returns (j: nat)
    requires k < |items| && Touches(items, k, at)
    ensures k <= j < |items| && Touches(items, j, at) && UntouchedAfter(items, j, at)
    decreases |items| - k
  {
    hide Touches;
    if i :| k < i < |items| && Touches(items, i, at) {
      j := LastToucher(items, i, at);
    } else {
      j := k;
    }
  }

  /** The last file that touches a place decides what is there at the end. */
  lemma {:induction false} LastDecides(image: Image, files: Files, items: seq<Item>, j: nat, at: Place)
    requires j < |items| && Touches(items, j, at) && UntouchedAfter(items, j, at)
    ensures var after, item := PublishAll(image, files, items), items[j];
            if PlaceOf(item) == at then at in after && after[at] == Readable(image, item.offset, item.length)
            else at !in after
    decreases items
  {
    hide At;
    var rest := items[1..];
    var next := match items[0]
      case DirItem(_) => files
      case FileItem(p, offset, length) => Publish(files, p, Readable(image, offset, length));
    assert PublishAll(image, files, items) == PublishAll(image, next, rest);
    if j > 0 {
      assert Touches(rest, j - 1, at);
      forall i | j - 1 < i < |rest| ensures !Touches(rest, i, at) {
        assert !Touches(items, i + 1, at);
      }
      LastDecides(image, next, rest, j - 1, at);
    } else {
      forall i | 0 <= i < |rest| && rest[i].FileItem? ensures PlaceOf(rest[i]) != at && PartOf(rest[i]) != at {
        assert !Touches(items, i + 1, at);
      }
      PlaceKept(image, next, rest, at);
    }
  }

  /** File `j` is the last to touch the place of file `k`, and leaves there what `k` put there. */
  ghost predicate StandsFor(image: Image, items: seq<Item>, k: nat, j: nat)
    requires k < |items| && items[k].FileItem? && j < |items|
  {
    && items[j].FileItem? && PlaceOf(items[j]) == PlaceOf(items[k])
    && Readable(image, items[j].offset, items[j].length) == Readable(image, items[k].offset, items[k].length)
    && UntouchedAfter(items, j, PlaceOf(items[k]))
  }

  /** Whatever the paths: a file is there with its bytes at the end exactly when it, or a later
      file of the same place and bytes, is the last that touches its place. */
  lemma PublishedExactlyWhen(image: Image, files: Files, items: seq<Item>, k: nat)
    requires k < |items| && items[k].FileItem?
    ensures PublishedItem(image, PublishAll(image, files, items), items[k])
            <==> exists j | k <= j < |items| :: StandsFor(image, items, k, j)
  {
    hide At, PublishAll, Readable;
    var at := PlaceOf(items[k]);
    var last := LastToucher(items, k, at);
    LastDecides(image, files, items, last, at);
    if PublishedItem(image, PublishAll(image, files, items), items[k]) {
      assert StandsFor(image, items, k, last);
    }
    if j :| k <= j < |items| && StandsFor(image, items, k, j) {
      assert Touches(items, j, at);
      assert j == last;
    }
  }

  /** With a place of its own, a file is there at the end exactly when no later file's temporary
      leads to its place. */
  lemma KeptExactlyWhen(image: Image, files: Files, items: seq<Item>, k: nat)
    requires k < |items| && items[k].FileItem? && DistinctFiles(items)
    ensures PublishedItem(image, PublishAll(image, files, items), items[k]) <==> !Overwritten(items, k)
  {
    PublishedExactlyWhen(image, files, items, k);
    OwnPlace(image, items, k);
    hide *;
    if j :| k <= j < |items| && StandsFor(image, items, k, j) {
      OnlyItself(image, items, k, j);
    }
  }

  lemma OnlyItself(image: Image, items: seq<Item>, k: nat, j: nat)
    requires k < |items| && items[k].FileItem? && DistinctFiles(items) && k <= j < |items|
    requires StandsFor(image, items, k, j)
    ensures j == k
  {
    hide PlaceOf, UntouchedAfter, Readable;
  }

  lemma OwnPlace(image: Image, items: seq<Item>, k: nat)
    requires k < |items| && items[k].FileItem? && DistinctFiles(items)
    ensures StandsFor(image, items, k, k) <==> !Overwritten(items, k)
  {
    hide PlaceOf, PartOf, Readable;
    var at := PlaceOf(items[k]);
    if Overwritten(items, k) {
      var j :| k < j < |items| && items[j].FileItem? && PartOf(items[j]) == at;
      assert Touches(items, j, at);
    } else {
      forall i | k < i < |items| ensures !Touches(items, i, at) {
        assert items[i].FileItem? ==> PlaceOf(items[i]) != at;
      }
    }
  }

  /** When no file takes a directory's place, what is left is what was there, and made, less the
      places of the files. */
  lemma {:induction false} FoldersAre(folders: set<Place>, items: seq<Item>)
    requires Folders(items) !! FilePlaces(items)
    ensures FoldersAfter(folders, items) == folders + Folders(items) - FilePlaces(items)
    decreases items
  {
    hide At;
    if items != [] {
      PlacesStep(items);
      hide Folders, FilePlaces;
      match items[0]
      case DirItem(path) => FoldersAre(folders + {At(path)}, items[1..]);
      case FileItem(path, _, _) => FoldersAre(folders - {At(path)}, items[1..]);
    }
  }

  lemma PlacesStep(items: seq<Item>)
    requires items != []
    ensures var first, rest := {PlaceOf(items[0])}, items[1..];
            && Folders(items) == Folders(rest) + (if items[0].DirItem? then first else {})
            && FilePlaces(items) == FilePlaces(rest) + (if items[0].FileItem? then first else {})
  {
    hide PlaceOf;
    var rest := items[1..];
    forall p | p in Folders(rest) ensures p in Folders(items) {
      var i :| 0 <= i < |rest| && rest[i].DirItem? && PlaceOf(rest[i]) == p;
      assert items[i + 1] == rest[i];
    }
    forall p | p in FilePlaces(rest) ensures p in FilePlaces(items) {
      var i :| 0 <= i < |rest| && rest[i].FileItem? && PlaceOf(rest[i]) == p;
      assert items[i + 1] == rest[i];
    }
    assert items[0] == items[0];
  }

  // ---------- losses that go unreported ----------

  /** Extracting "a.part" and then "a" loses the first file, whatever proper name a is. */
  lemma {:induction false} PartNameIsLost(image: Image, files: Files, name: Name, o: nat, n: nat, p: nat, m: nat)
    requires ProperName(name)
    ensures var t := File(name + PART, o, n, File(name, p, m, End));
            && ProperNames(t) && Lost(t, 0)
            && |Items(t, [])| == 2 && Items(t, [])[0].FileItem?
            && !PublishedItem(image, PublishAll(image, files, Items(t, [])), Items(t, [])[0])
  {
    hide *;
    var rest := File(name, p, m, End);
    ProperWithPart(name);
    NamesOfPair(name + PART, o, n, name, p, m);
    PairOfItems(FileItem(name + PART, o, n), rest, FileItem(name, p, m));
    PublishedExactlyUnlessLost(image, files, File(name + PART, o, n, rest), 0);
  }

  lemma ProperWithPart(name: Name)
    requires ProperName(name)
    ensures ProperName(name + PART) && Fold(name + PART) == Fold(name) + PART
  {
    FoldPart(name);
    assert SLASH !in PART;
  }

  lemma {:induction false} NamesOfPair(a: Name, o: nat, n: nat, b: Name, p: nat, m: nat)
    requires ProperName(a) && ProperName(b) && Fold(a) == Fold(b) + PART
    ensures var t := File(a, o, n, File(b, p, m, End)); ProperNames(t) && Lost(t, 0)
  {
    hide Fold, ProperName;
    assert |Fold(a)| > |Fold(b)|;
    assert Names(File(b, p, m, End)) == [Fold(b)] + [] == [Fold(b)];
    assert ProperNames(File(b, p, m, End));
  }

  /** Of two files at one place the later one's bytes stay. */
  lemma LaterTwinStays(image: Image, files: Files, a: Item, b: Item)
    requires a.FileItem? && b.FileItem? && PlaceOf(a) == PlaceOf(b)
    ensures PublishedItem(image, PublishAll(image, files, [a, b]), b)
  {
    hide At;
    var next := Publish(files, a.path, Readable(image, a.offset, a.length));
    assert [a, b][1..] == [b] && [b][1..] == [];
    assert PublishAll(image, next, [b])
           == PublishAll(image, Publish(next, b.path, Readable(image, b.offset, b.length)), []);
    hide Publish;
    assert PublishAll(image, files, [a, b]) == PublishAll(image, next, [b]);
  }

  lemma DottedPlace(name: Name)
    requires SLASH !in name
    ensures At([DOT, SLASH] + name) == At(name)
  {
    hide At;
    AtSegment([DOT]);
    AtSegment(name);
    AtLast([DOT], name);
    assert [DOT] + [SLASH] + name == [DOT, SLASH] + name;
  }

  /** Names that are not proper: "x" and "./x" are one file on the card, which ends up with the
      bytes of the later one. */
  lemma DottedNameIsLost(image: Image, files: Files, name: Name, o: nat, n: nat, p: nat, m: nat)
    requires ProperName(name)
    ensures var t := File(name, o, n, File([DOT, SLASH] + name, p, m, End));
            var after := PublishAll(image, files, Items(t, []));
            && !ProperNames(t)
            && At(name) in after && after[At(name)] == Readable(image, p, m)
  {
    var a, b := FileItem(name, o, n), FileItem([DOT, SLASH] + name, p, m);
    DottedPlace(name);
    assert b.path[1] == SLASH;
    PairOfItems(a, File(b.path, p, m, End), b);
    hide At, Items, PublishAll;
    LaterTwinStays(image, files, a, b);
  }

  lemma PairOfItems(a: Item, rest: Tree, b: Item)
    requires b.FileItem? && rest == File(b.path, b.offset, b.length, End)
    ensures a.FileItem? ==> Items(File(a.path, a.offset, a.length, rest), []) == [a, b]
    ensures a.DirItem? ==> Items(Folder(a.path, End, rest), []) == [a, b]
  {
    assert Items(rest, []) == [b];
    assert [a] + [b] == [a, b];
  }

  /** And a file takes the place of an empty directory of its own name. */
  lemma EmptyFolderIsLost(folders: set<Place>, name: Name)
    ensures var t := Folder(name, End, File(name, 0, 0, End));
            !ProperNames(t) && At(name) !in FoldersAfter(folders, Items(t, []))
  {
    var a, b := DirItem(name), FileItem(name, 0, 0);
    PairOfItems(a, File(name, 0, 0, End), b);
    hide Items, At, Fold;
    FoldersOfPair(folders, a, b);
  }

  lemma FoldersOfPair(folders: set<Place>, a: Item, b: Item)
    requires a.DirItem? && b.FileItem?
    ensures FoldersAfter(folders, [a, b]) == folders + {PlaceOf(a)} - {PlaceOf(b)}
  {
    hide At;
    assert [a, b][1..] == [b] && [b][1..] == [];
    assert FoldersAfter(folders, [a, b]) == FoldersAfter(folders + {At(a.path)}, [b]);
  }

  // ---------- end to end ----------

  /** The disc's header leads to the encoded table of this tree. */
  ghost predicate CarriesTree(image: Image, t: Tree) {
    exists h :: Opens(image, h) && Carries(image, h.fstOffset, h.fstSize, FullTable(t))
  }

  lemma TreeTable(image: Image, t: Tree, m: Header)
    requires CarriesTree(image, t) && Opens(image, m)
    ensures TableAt(image, m) == Some(FullTable(t))
    ensures 1 + Count(t) <= MAX_ENTRIES
    ensures WalkFrom(FullTable(t), 1, [BASE]) == Items(t, [])
  {
    hide OpenHeader;
    var table := FullTable(t);
    var h :| Opens(image, h) && Carries(image, h.fstOffset, h.fstSize, table);
    OpensExactly(image, h);
    OpensExactly(image, m);
    hide Opens;
    ParseInvertsEncode(image, h.fstOffset, h.fstSize, table);
    assert EncodableTable(table);
    WalkOfTable(t);
  }

  /** The table of an extraction from a disc that carries a tree. */
  lemma ExtractedTree(image: Image, t: Tree, before: Files, folders: set<Place>, after: Files, folders': set<Place>,
                      files: nat, bytes: nat)
    requires CarriesTree(image, t)
    requires Extracted(image, before, folders, after, folders', files, bytes)
    ensures ExtractedTable(image, FullTable(t), before, folders, after, folders', files, bytes)
    ensures WalkFrom(FullTable(t), 1, [BASE]) == Items(t, [])
  {
    hide ExtractedTable, CarriesTree, TableAt, Opens;
    var h :| MeleeDisc(image, h) && TableAt(image, h).Some?
             && ExtractedTable(image, TableAt(image, h).value, before, folders, after, folders', files, bytes);
    TreeTable(image, t, h);
  }

  /** A disc of Melee that carries a tree can be extracted exactly when every file of the tree lies
      inside the readable part of the image. */
  lemma CarriedTreeIsExtractable(image: Image, h: Header, t: Tree)
    requires MeleeDisc(image, h) && Carries(image, h.fstOffset, h.fstSize, FullTable(t))
    ensures Extractable(image) <==> forall k | 0 <= k < |Items(t, [])| :: ItemHeld(image, Items(t, [])[k])
  {
    hide Opens, Items, WalkFrom, Readable, ItemHeld, EntryReadable;
    LooksLikeMeleeExactly(image);
    TreeTable(image, t, h);
    ExtractableIs(image, h);
    var table, items := FullTable(t), Items(t, []);
    WalkVisitsEachOnce(table, 1, [BASE], 1);
    forall k | 0 <= k < |items| ensures ItemHeld(image, items[k]) <==> EntryReadable(image, table[k + 1]) {
      WalkVisitsEachOnce(table, 1, [BASE], k + 1);
      HeldIsReadable(image, items[k], table[k + 1]);
    }
    if forall k | 0 <= k < |items| :: ItemHeld(image, items[k]) {
      forall k | 0 < k < |table| ensures EntryReadable(image, table[k]) {
        assert ItemHeld(image, items[k - 1]);
      }
    }
  }

  /** The image holds the whole of the file, if the entry is one. */
  ghost predicate ItemHeld(image: Image, item: Item) {
    item.FileItem? && item.length > 0 ==> exists b :: |b| == item.length && Holds(image, item.offset, b)
  }

  lemma HeldIsReadable(image: Image, item: Item, e: Entry)
    requires Shows(item, e)
    ensures ItemHeld(image, item) <==> EntryReadable(image, e)
  {
    if item.FileItem? && item.length > 0 {
      ReadableExactly(image, item.offset, item.length);
    }
    hide Holds;
  }

  /** Proper names give every file and directory of the disc a place of its own. */
  lemma ProperPlaces(t: Tree)
    requires ProperNames(t)
    ensures DistinctFiles(Items(t, []))
    ensures Folders(Items(t, [])) !! FilePlaces(Items(t, []))
    ensures HERE !in FilePlaces(Items(t, []))
  {
    var items := Items(t, []);
    ItemsAre(t, []);
    hide At, Items;
    forall i, j | 0 <= i < j < |items| ensures PlaceOf(items[i]) != PlaceOf(items[j]) {
      PlacesDiffer(t, [], i, j);
    }
    forall i | 0 <= i < |items| ensures PlaceOf(items[i]) != HERE {
      ItemWithin(t, [], i);
    }
  }

  /** On such a disc a file is overwritten exactly when a later file of its directory has its
      name without ".part". */
  lemma OverwrittenIsLost(t: Tree, k: nat)
    requires ProperNames(t) && k < |Items(t, [])| && Items(t, [])[k].FileItem?
    ensures k < Count(t) && (Overwritten(Items(t, []), k) <==> Lost(t, k))
  {
    var items := Items(t, []);
    ItemsAre(t, []);
    hide At, Items;
    if Overwritten(items, k) {
      var j :| k < j < |items| && items[j].FileItem? && PartOf(items[j]) == PlaceOf(items[k]);
      ClashIsSibling(t, [], k, j);
    }
    if Lost(t, k) {
      var j := SiblingClashes(t, [], k);
      assert items[j] == ItemAt(t, [], j);
    }
  }

  lemma ItemReadable(image: Image, table: seq<Entry>, k: nat)
    requires 0 < |table| <= MAX_ENTRIES && FilesReadable(image, table, |table|)
    requires k < |WalkFrom(table, 1, [BASE])| && WalkFrom(table, 1, [BASE])[k].FileItem?
    ensures var item := WalkFrom(table, 1, [BASE])[k]; |Readable(image, item.offset, item.length)| == item.length
  {
    hide WalkFrom, Readable;
    WalkVisitsEachOnce(table, 1, [BASE], 1);
    WalkVisitsEachOnce(table, 1, [BASE], k + 1);
    assert EntryReadable(image, table[k + 1]);
  }

  /** Publishing the files of a properly named disc leaves exactly those that are not lost. */
  lemma PublishedExactlyUnlessLost(image: Image, files: Files, t: Tree, k: nat)
    requires ProperNames(t) && k < |Items(t, [])| && Items(t, [])[k].FileItem?
    ensures k < Count(t)
    ensures PublishedItem(image, PublishAll(image, files, Items(t, [])), Items(t, [])[k]) <==> !Lost(t, k)
  {
    hide ProperNames, Lost, Items, PublishedItem, PublishAll, Overwritten, DistinctFiles, Folders, FilePlaces;
    ProperPlaces(t);
    OverwrittenIsLost(t, k);
    KeptExactlyWhen(image, files, Items(t, []), k);
  }

  /** End to end: from a disc that carries the table of a properly named tree, a complete
      extraction leaves every directory of the tree, and counts its files and bytes. */
  lemma ExtractionCountsTree(image: Image, t: Tree, before: Files, folders: set<Place>, after: Files,
                             folders': set<Place>, files: nat, bytes: nat)
    requires CarriesTree(image, t) && ProperNames(t)
    requires Extracted(image, before, folders, after, folders', files, bytes)
    ensures var items := Items(t, []);
            && Folders(items) <= folders' == folders + {HERE} + Folders(items) - FilePlaces(items)
            && files == FileCount(items) && bytes == ByteCount(items)
  {
    hide Items, WalkFrom, PublishAll, CarriesTree, FileCount, ByteCount, Readable, Extracted;
    hide FoldersAfter, At, ProperNames, Folders, FilePlaces, DistinctFiles;
    ExtractedTree(image, t, before, folders, after, folders', files, bytes);
    ProperPlaces(t);
    FoldersAre(folders + {HERE}, Items(t, []));
  }

  /** And it leaves each file at its true path with exactly its disc bytes, exactly unless a later
      file of the same directory has the file's name without ".part". */
  lemma ExtractionFollowsTree(image: Image, t: Tree, before: Files, folders: set<Place>, after: Files,
                              folders': set<Place>, files: nat, bytes: nat, k: nat)
    requires CarriesTree(image, t) && ProperNames(t)
    requires Extracted(image, before, folders, after, folders', files, bytes)
    requires k < |Items(t, [])| && Items(t, [])[k].FileItem?
    ensures var item := Items(t, [])[k];
            && |Readable(image, item.offset, item.length)| == item.length
            && (item.length > 0 ==> Holds(image, item.offset, Readable(image, item.offset, item.length)))
            && k < Count(t)
            && (PublishedItem(image, after, item) <==> !Lost(t, k))
  {
    ReadableCells(image, Items(t, [])[k].offset, Items(t, [])[k].length);
    hide Items, WalkFrom, PublishAll, CarriesTree, FileCount, ByteCount, Readable, Extracted;
    hide FoldersAfter, At, PublishedItem, ProperNames, DistinctFiles;
    ExtractedTree(image, t, before, folders, after, folders', files, bytes);
    ItemReadable(image, FullTable(t), k);
    PublishedExactlyUnlessLost(image, before, t, k);
  }

  lemma Untouched(before: Files, after: Files, part: Place, path: Place)
    requires after - {part} == before - {part}
    ensures after - {path, part} == before - {path, part}
    ensures after - {path} - {path, part} == before - {path, part}
    ensures after - {part} - {path, part} == before - {path, part}
  {
    assert (after - {part}) - {path} == after - {path, part};
    assert (before - {part}) - {path} == before - {path, part};
    assert after - {path} - {path, part} == after - {path, part};
    assert after - {part} - {path, part} == after - {path, part};
  }

  /** A read that yields nothing shows that the file ends there. */
  lemma ReadStops(image: Image, offset: nat, written: nat, want: nat, length: nat)
    requires |Readable(image, offset, written)| == written && written + want <= length && want > 0
    requires ReadAt(image, offset + written, want).None? || ReadAt(image, offset + written, want).value == []
    ensures |Readable(image, offset, length)| < length
  {
    ReadableSum(image, offset, written, length - written);
    assert Readable(image, offset + written, want) == [];
    assert Readable(image, offset + written, length - written) == [];
  }

  lemma {:induction false} ReadableSum(image: Image, offset: nat, a: nat, b: nat)
    requires |Readable(image, offset, a)| == a
    ensures |Readable(image, offset, a + b)| == a + |Readable(image, offset + a, b)|
    decreases a
  {
    if a > 0 {
      ReadableSum(image, offset + 1, a - 1, b);
    }
  }

  /** Reading on from where a complete read stopped. */
  lemma {:induction false} ReadableSplit(image: Image, offset: nat, a: nat, b: nat)
    requires |Readable(image, offset, a)| == a
    ensures var more := Readable(image, offset + a, b);
            Readable(image, offset, a) + more == Readable(image, offset, a + |more|)
    decreases a
  {
    var more := Readable(image, offset + a, b);
    if a == 0 {
      ReadableExact(image, offset, b);
      assert Readable(image, offset, 0) + more == more;
    } else {
      ReadableSplit(image, offset + 1, a - 1, b);
      assert Readable(image, offset, a)[1..] == Readable(image, offset + 1, a - 1);
      assert Readable(image, offset, a) + more == [image[offset].value] + (Readable(image, offset + 1, a - 1) + more);
    }
  }

  lemma {:induction false} ReadableExact(image: Image, offset: nat, b: nat)
    ensures Readable(image, offset, |Readable(image, offset, b)|) == Readable(image, offset, b)
    decreases b
  {
    if Readable(image, offset, b) != [] {
      ReadableExact(image, offset + 1, b - 1);
    }
  }
}
