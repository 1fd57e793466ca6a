# Melee NX runtime models

Dafny models of the parts of the Switch runtime that keep state across threads or transform data,
with proofs of what they promise. Protocols with several threads are state machines whose steps are
the locked sections and what happens between them; a main result then speaks of every run, that is
of every interleaving. Code that updates fields or buffers is a class (or a method with a loop) proved
against the state machine's step functions, and its methods keep the invariant of the runs, so that what is
proved of the runs holds of any sequence of calls.

| files | what they model |
|---|---|
| `LogCore`, `LogInvariant`, `LogProtocol`, `LogLiveness`, `LogHistory`, `LogSwitch` | the buffered log writer: producers, the writer thread, flushes, critical records, shutdown and its end |
| `DiscTable`, `DiscTrees`, `DiscReader`, `DiscWalk` | the GameCube disc header, the file table and its walk with a directory stack |
| `CardPaths`, `DiscNames`, `DiscExtract` | where paths lead on the card, where a disc's names lead, and the extraction |
| `BlobReadCache`, `GpuBlobCache`, `GpuBlobMap`, `GpuBlobLaws` | the shader blob cache: RAM cache over pending batch over database, and over whole runs |
| `ThreadReaper`, `ThreadRegistry`, `ThreadWrappers` | the thread registry and the reaper behind the pthread wrappers: the protocol, the two intrusive lists, the wrappers' locked sections on them |
| `PipelineScheduler`, `PipelineQueues`, `PipelineCache` | the pipeline compile scheduler: two queues, workers, credits, first-use frames |
| `DiscMeta`, `DvdLayer` | `disc.meta`, written and read back |
| `SqliteHandles`, `SqliteRuns`, `SqliteModes`, `SqliteLocks`, `SqliteVfs` | shared native handles, lock directories, reads and writes of the SQLite VFS |
| `PointerSlots` | MEM1's window, 32-bit disc pointer slots, the search for a place |
| `BitReader` | the THP bit reader, old loop and new four-byte read |
| `FrameHistogram` | the frame-time histogram and its percentiles |
| `Sequences`, `Endian` | shared facts about sequences and fixed-width integers |

What the models take as given:

- Logger: shutdowns are not concurrent with each other or with initialisation, and `EINTR` interrupts a
  write only finitely often. A spurious or timed wakeup is a step that finds its condition again. The
  writer's own report lines appear as counts; the file's bytes are those of records. An fsync counts as issued whatever it answers, as in the
  code, which reports the error and goes on.
- Disc: an image is a sequence of cells, some of them unreadable; reads may be short as `fread` is. The
  card may refuse any operation. The disc carries the table described by the file-table format when its
  bytes stand where the header says. The card resolves `.`, `..` and empty segments of a path, lets an
  absolute path replace the output directory, and compares ASCII letters without regard to case.
- Blob cache: hash and compressor are parameters; hashes are not assumed injective. `store_stmt` is an
  upsert by hash. The rows a prune keeps are those of used keys.
- Threads: callers join or detach each thread once, never both, and a thread leaves by returning from its
  start routine. The system does not reuse the id of a thread that was not joined. Reuse of an id between
  a real join and the lookup after it is excluded from runs, and that exclusion is shown to be exactly
  what the lookups need.
- Scheduler: the threaded Switch configuration, with any number of workers. Where the patch does not show
  the end of `touch_pending_pipeline`, a pending background job that a draw asks for moves to the back of
  the priority queue. The descriptor writes are those the code counts; queueing them is not modelled.
- `disc.meta`: the disc id has 32 bytes, and sizes fit in 32 bits.
- Pointer slots: external pointers get ids from 1 on and stay in their table, which holds fewer than 2^24.

Where code and comments or expectations differ, the code is modelled:

- A file whose name is that of a later file of its directory plus `.part` is lost by the extraction although
  it reports success. On a properly named disc (every name one segment of its own, no two in a directory equal
  up to case) those are exactly the files lost (`DiscExtract.PublishedExactlyUnlessLost`);
  `DiscExtract.PartNameIsLost` gives the smallest disc for every name.
- The extractor checks no names. With other names more is lost: of `x` and `./x` the earlier one
  (`DiscExtract.DottedNameIsLost`), an empty directory to a file of its name (`DiscExtract.EmptyFolderIsLost`).
  `DiscExtract.PublishedExactlyWhen` says for every disc which files are left.
- Opening a database file clears its lock directory, before the handle mutex is taken, even if another
  connection holds the lock. `SqliteLocks.OpenKeepsGuardExactlyWhen` says when locks stay exclusive,
  `SqliteLocks.LocksCanOverlap` reaches two holders.
- A failed flush drops the batch on purpose. `GpuBlobCache.FailedFlushExactly` says when the RAM cache stays
  invisible nevertheless.
- The four-byte bit read is right on all data exactly when the run lies in the four bytes
  (`BitReader.ShiftedExactlyWithinWord`); up to 25 bits always do.
- A joiner whose thread's id is reused before its lookup frees the stack of the new thread
  (`ThreadReaper.StrangerIsFound`).

## Model

| member | source | states |
|---|---|---|
| LogProtocol.RecordsAreConserved | switch/src/log_switch.cpp:53-146 | In every interleaving, what left the buffers, the unwritten rest of the writer's buffer and the used part of the pending buffer are the accepted records, whole, once, in mutex order; while no write fails the file holds exactly the first part; the writer's own lines never split a record; routine records offered equal those kept plus those reported, in the writer's hand and in `dropped` |
| LogHistory.AcceptedAreTheKept | switch/src/log_switch.cpp:129-184 | Told from the calls of the run alone: the accepted records are exactly those of the routine writes and critical chunks that came when there was no writer, or room and no shutdown, each once and in order; `kept` counts the routine ones, every other non-empty routine record is a counted loss; and file, writer buffer and pending buffer are those records |
| LogHistory.RoutineIsBuffered | switch/src/log_switch.cpp:139-144 | A record that fits while the writer runs and no shutdown has begun goes whole to the end of the pending buffer and nowhere else |
| LogHistory.RoutineIsSent | switch/src/log_switch.cpp:133-134 | Without a writer the part that could be sent is in the file and the whole record is accounted for |
| LogHistory.RoutineIsRefused | switch/src/log_switch.cpp:135-138 | Any other non-empty record is counted as dropped and changes nothing else |
| LogHistory.ChunkOutcomeIs | switch/src/log_switch.cpp:166-179 | A critical chunk asks for space, with a target of its own, exactly when a running writer has none and no shutdown has begun, and is given up exactly when a running writer is being stopped |
| LogHistory.FlushOutcomeIs | switch/src/log_switch.cpp:147-157 | A flush waits, with a target of its own, exactly when a writer runs and no shutdown has begun; without a writer it syncs at once |
| LogHistory.CallsAdvance | switch/src/log_switch.cpp:147-184 | Every locked section moves its caller on, and a flush that is over tells whether a shutdown has begun since the call did |
| LogHistory.TurnIsCounted | switch/src/log_switch.cpp:72-80 | What a turn puts out is counted with its failures, and makes the file due for an fsync |
| LogHistory.WriterStaysAwake | switch/src/log_switch.cpp:54-70 | The writer sleeps exactly when no flush and no shutdown waits and less than 16 KiB are there; otherwise it takes over the whole buffer, request, losses and stop flag |
| LogHistory.SyncedExactlyWhenDue | switch/src/log_switch.cpp:95-102 | A waiting flush, a shutdown, and dirty data that is due each get an fsync, and nothing else does; due data is not left dirty |
| LogHistory.LossesAreAnnounced | switch/src/log_switch.cpp:81-94 | Losses in hand, a shutdown and a due report are each announced in the same turn, and nothing else is |
| LogHistory.StartedWriterRuns | switch/src/log_switch.cpp:118-128 | Starting a writer on a stopped logger leaves it running, about to take the mutex, with no earlier shutdown in its way |
| LogProtocol.FlushIsDurable | switch/src/log_switch.cpp:64-106 | Once `completed` reaches a target, every record accepted before `requested` was raised to it had left the buffers before an fsync that has been issued |
| LogProtocol.CriticalWriteIsDurable | switch/src/log_switch.cpp:159-184 | A critical write that returned, with no shutdown stopping the writer when it began and none begun meanwhile, left its bytes in accepted records of its own, in order, all written before an issued fsync; the synchronous writes before a start and after a finished shutdown are among them |
| LogProtocol.ShutdownReleasesWaiters | switch/src/log_switch.cpp:95-110 | Once the writer has left, `completed` equals `requested`, and every thread waiting for a flush, for space or for the join can go on; that it leaves is LogLiveness.WriterLeaves |
| LogLiveness.WriterLeaves | switch/src/log_switch.cpp:44-110 | In every stretch of a run during which a shutdown is under way, the writer takes no more steps than were left at its beginning, at most two buffers and seven, whatever the other threads do; none are left exactly when it has left |
| LogLiveness.WriterStepLowers | switch/src/log_switch.cpp:53-108 | While `stopping` is set, every step of the writer lowers the bound on the steps left |
| LogLiveness.OthersDoNotRaise | switch/src/log_switch.cpp:129-191 | While `stopping` is set, no step of a producer, a flush or a critical write raises that bound |
| LogLiveness.WriterCanMove | switch/src/log_switch.cpp:53-108 | A writer that has not left always has a next step that needs no other thread |
| LogProtocol.ShutdownDrains | switch/src/log_switch.cpp:185-197 | When a shutdown returns the pending buffer is empty and every accepted record has left the buffers, in the file byte for byte unless a write failed, with all losses accounted for |
| LogProtocol.StepKeepsSysInv | switch/src/log_switch.cpp:129-197 | Every step of every thread keeps the invariant that ties calls in progress to the shared state |
| LogInvariant.StepKeepsInv | switch/src/log_switch.cpp:44-197 | Every step keeps conservation, the flush targets' coverage, the loss counts and the placing of the writer's lines |
| LogInvariant.CommitCovers | switch/src/log_switch.cpp:95-106 | The fsync that precedes a raise of `completed` covers every flush target up to the new value |
| LogInvariant.DirectTrace | switch/src/log_switch.cpp:133-134 | A write without a writer thread puts out the record, the sent part and the part given up together being the whole record, and neither reports nor syncs |
| LogCore.NoErrorFileIsPayload | switch/src/log_switch.cpp:32-43 | Without a failed write the file holds exactly what left the buffers |
| LogSwitch.Logger.Write | switch/src/log_switch.cpp:129-146 | On the two arrays and the file: a non-empty record that fits while the writer runs and no shutdown has begun is appended to the pending buffer, without a writer a prefix of it reaches the file, any other is counted as dropped and changes nothing; the protocol's invariant is kept |
| LogSwitch.Logger.FlushUntilWait | switch/src/log_switch.cpp:147-157 | Raises a new target exactly when the writer runs and no shutdown has begun, and fsyncs at once only without a writer |
| LogSwitch.Logger.PutChunk | switch/src/log_switch.cpp:166-179 | One pass of a critical write: ask for space, store the whole chunk, write it directly, or find a shutdown, as the protocol's step says |
| LogSwitch.Logger.WriteAll | switch/src/log_switch.cpp:32-43 | What reaches the file is a prefix of the data, all of it exactly when it reports success, through short and interrupted writes |
| LogSwitch.Logger.TakeBuffer | switch/src/log_switch.cpp:64-71 | The swap: the filled array becomes the writer's, the other one, empty, the producers' |
| LogSwitch.Logger.LockAndTake | switch/src/log_switch.cpp:53-71 | The writer waits only below 16 KiB with nothing requested and no shutdown, and otherwise swaps |
| LogSwitch.Logger.WakeAndTake | switch/src/log_switch.cpp:59-71 | A writer that was waiting swaps the buffers when it goes on |
| LogSwitch.Logger.WriteSome | switch/src/log_switch.cpp:32-80 | One turn of the writer's write_all: some bytes move, or nothing, or the rest of the buffer is given up and one error counted |
| LogSwitch.Logger.ReportLosses | switch/src/log_switch.cpp:81-94 | A report carries exactly the losses in hand and the bytes and errors since the last one |
| LogSwitch.Logger.SyncFile | switch/src/log_switch.cpp:95-102 | fsync is issued whenever a flush waits, a shutdown runs, or dirty data is due |
| LogSwitch.Logger.PublishCompletion | switch/src/log_switch.cpp:103-108 | `completed` becomes the request copied at the swap, and the writer leaves exactly when it saw the shutdown then |
| LogSwitch.Logger.InitWriter | switch/src/log_switch.cpp:118-128 | Starts the writer once, or leaves the logger in its synchronous state |
| LogSwitch.Logger.StartShutdown | switch/src/log_switch.cpp:187-191 | Sets `stopping` and decides to join exactly when a writer runs |
| LogSwitch.Logger.FinishShutdown | switch/src/log_switch.cpp:192-197 | After the join the logger is back in its synchronous state |
| DiscTable.ParseInvertsEncode | switch/src/nod/gc_disc.c:171-282 | Parsing a disc that carries an encoded table gives back that table, entry for entry, names included |
| DiscTable.EntriesRoundTrip | switch/src/nod/gc_disc.c:241-273 | The entry loop decodes the twelve-byte entries and the string table back to the entries they encode |
| DiscTable.EntryRoundTrip | switch/src/nod/gc_disc.c:242-272 | One encoded entry, its 24-bit name offset and its two words decode to that entry |
| DiscTable.ParsesExactlyWhen | switch/src/nod/gc_disc.c:183-240 | Any disc has a table exactly when a directory entry stands at the offset, all the entries it counts, at most 2 to the 20, can be read, and at least one byte behind them |
| DiscTable.ParsedIs | switch/src/nod/gc_disc.c:241-273 | Whatever the bytes, each entry says what its twelve bytes say, and has the name that stands at its offset |
| DiscTable.ReadAtIs | switch/src/nod/gc_disc.c:161-168 | A read fails only on a first byte the medium fails to read, and otherwise gives what can be read |
| DiscTable.ReadableExactly | switch/src/nod/gc_disc.c:161-168 | A run can be read whole exactly when the image holds it |
| DiscTrees.WritableExactlyWhen | switch/src/nod/gc_disc.h:2-35 | A tree has a table of the format exactly when its entries, fields and names fit |
| DiscTrees.LinksAreRight | switch/src/nod/gc_disc.h:2-35 | In the table of a tree each directory ends behind its contents and names the innermost directory around it |
| DiscReader.OpensExactly | switch/src/nod/gc_disc.c:112-158 | An image opens with exactly these header fields if and only if it begins with id, disc number and version, the magic at 0x1C and the three words at 0x420, 0x424 and 0x428 that spell them, and the table lies beyond the program and inside the image |
| DiscReader.LooksLikeMeleeExactly | switch/src/game_data/disc_extractor.cpp:37-70 | A disc is taken for Melee exactly when its header says GALE01, disc 0, version 2 |
| DiscReader.GcDisc.EnsureFst | switch/src/nod/gc_disc.c:171-282 | Succeeds exactly when the table parses, fills the array with it, and answers later calls from the first result |
| DiscReader.GcDisc.Fill | switch/src/nod/gc_disc.c:241-273 | The loop fills the array with the parsed entries |
| DiscWalk.WalkVisitsEachOnce | switch/src/nod/gc_disc.c:284-298 | Whatever the table says, the walk calls back once for every entry after the root, in table order |
| DiscWalk.WalkFollowsTree | switch/src/game_data/disc_extractor.cpp:184-212 | From the start of a directory's entries with that directory on top of the stack, the walk lists exactly the tree below it, each entry under its true path, and goes on with the same stack |
| DiscWalk.WalkOfTable | switch/src/game_data/disc_extractor.cpp:177-213 | Walking the preorder table of a tree from the disc root lists the tree |
| DiscWalk.SpentFrame | switch/src/game_data/disc_extractor.cpp:184-186 | A stack frame whose subtree has ended plays no further part in the walk |
| DiscExtract.ExtractionFollowsTree | switch/src/game_data/disc_extractor.cpp:217-299 | End to end, on the bytes of the image: from a disc whose header leads to the table of a properly named tree, a complete extraction leaves each file at its true path with exactly the bytes the image holds at its offset, exactly unless a later file of the same directory has its name without `.part` |
| DiscExtract.ExtractionCountsTree | switch/src/game_data/disc_extractor.cpp:217-299 | And it leaves every directory of the tree and counts its files and bytes, also for a tree of directories only; of the directories there before, only those in a file's place go |
| DiscExtract.PublishedExactlyUnlessLost | switch/src/game_data/disc_extractor.cpp:124-213 | Extracting a properly named tree leaves a file with its bytes exactly unless a later file of its directory has its name without `.part` |
| DiscExtract.OverwrittenIsLost | switch/src/game_data/disc_extractor.cpp:126-169 | On such a disc the only temporary that can lead to a file's place is that later sibling's |
| DiscExtract.ProperPlaces | switch/src/game_data/disc_extractor.cpp:184-189 | Proper names give every file and directory a place of its own on the card, inside the output directory |
| DiscNames.PlacesDiffer | switch/src/game_data/disc_extractor.cpp:184-189 | No two entries of a properly named tree, wherever they lie in it, share a place |
| DiscNames.ClashIsSibling | switch/src/game_data/disc_extractor.cpp:126-127 | A later file whose temporary leads to a file's place is a sibling with its name without `.part` |
| DiscNames.SiblingClashes | switch/src/game_data/disc_extractor.cpp:126-127 | And the temporary of such a sibling leads there |
| CardPaths.AtJoin | switch/src/game_data/disc_extractor.cpp:188-189 | A name without slashes leads one segment further from where its directory's path leads, dot segments included |
| CardPaths.PartDiffers | switch/src/game_data/disc_extractor.cpp:126-127 | Whatever the path, its temporary lies at another place than the file itself |
| CardPaths.SameNameExactly | switch/src/game_data/disc_extractor.cpp:188-189 | Two names lead to one entry exactly when they have equal length and agree letter for letter up to ASCII case |
| CardPaths.DotSegments | switch/src/game_data/disc_extractor.cpp:188-189 | A dot segment changes nothing, two dots undo a segment or climb out, a leading slash starts from the root |
| DiscExtract.ExtractGameFiles | switch/src/game_data/disc_extractor.cpp:217-300 | Complete exactly when the bytes of the header are those of Melee, the table they lead to parses, all its files can be read, the card refused nothing that is looked at and nobody cancelled; then every file was published and counted and the manifest written with those counts; any other result leaves the old manifest or none; only a watched run is cancelled |
| DiscExtract.CarriedTreeIsExtractable | switch/src/game_data/disc_extractor.cpp:217-299 | A Melee disc that carries a tree meets the condition for a complete extraction exactly when the image holds every file of the tree whole |
| DiscExtract.CountsAdd | switch/src/game_data/disc_extractor.cpp:86-94 | The counts are of files alone, one and its length for each |
| DiscExtract.PublishedExactlyWhen | switch/src/game_data/disc_extractor.cpp:124-175 | Whatever the paths, a file is there with its bytes at the end exactly when it, or a later file of the same place and bytes, is the last whose place or temporary touches its place |
| DiscExtract.KeptExactlyWhen | switch/src/game_data/disc_extractor.cpp:124-175 | When no two files lead to one place, a file is there with its bytes at the end exactly when no later file's temporary leads to its place |
| DiscExtract.PartNameIsLost | switch/src/game_data/disc_extractor.cpp:126-169 | The disc with the files `a.part` and then `a`, for every proper name a, loses the first |
| DiscExtract.DottedNameIsLost | switch/src/game_data/disc_extractor.cpp:184-189 | The disc with the files `x` and then `./x` keeps only the bytes of the second |
| DiscExtract.EmptyFolderIsLost | switch/src/game_data/disc_extractor.cpp:166-169 | The disc with an empty directory and then a file of the same name loses the directory |
| DiscExtract.WalkDoneIs | switch/src/game_data/disc_extractor.cpp:177-213 | The callbacks' effects add up: files published in walk order, directories created, counters equal to the number and bytes of the files |
| DiscExtract.FoldersAre | switch/src/game_data/disc_extractor.cpp:166-198 | When no file shares a place with a directory of the walk, the directories left are those before and those made, less the places of files |
| DiscExtract.ExtractCtx.ExtractOneFile | switch/src/game_data/disc_extractor.cpp:124-175 | Success means the whole file was read and stands at its place with no temporary left; failure touches no other place, and happens only for unreadable data, a refusal of the card or a cancellation |
| DiscExtract.ExtractCtx.CopyChunks | switch/src/game_data/disc_extractor.cpp:135-155 | The chunk loop leaves exactly the file's bytes in the temporary, or stops for unreadable data, a refused write or a cancellation |
| DiscExtract.ExtractCtx.ExtractCallback | switch/src/game_data/disc_extractor.cpp:177-213 | The walk goes on exactly after a callback that did all its entry asks for; a first stop means an unreadable file, a refusal of the card or a cancellation |
| DiscExtract.ExtractCtx.ExtractWalk | switch/src/nod/gc_disc.c:284-298 | A walk without failure or cancellation did every entry of the table in order; one that failed met an unreadable file or a refusal of the card |
| DiscExtract.CountFiles | switch/src/game_data/disc_extractor.cpp:86-94 | The totals are the number of files the walk will show and their bytes |
| DiscExtract.WalkDisc | switch/src/game_data/disc_extractor.cpp:239-270 | Complete exactly when all files can be read, the card refuses nothing and nobody cancels; the done counts then equal the totals counted before the walk |
| BlobReadCache.EvictsShortestSuffix | switch/src/blob_read_cache.hpp:55-60 | Eviction makes room and drops exactly the shortest least-recent suffix that does |
| BlobReadCache.RunIsSoundAndRecent | switch/src/blob_read_cache.hpp:25-73 | After any run from an empty cache the budget and the entry limit hold, no two entries share a hash, and the list is ordered by when each blob was last handed out |
| BlobReadCache.FindKeepsSound | switch/src/blob_read_cache.hpp:28-37 | A search keeps the limits and the same entries; it returns the data of an entry with this hash and full key, and misses, changing nothing, only when there is none |
| BlobReadCache.FillKeepsSound | switch/src/blob_read_cache.hpp:49-69 | Filling keeps the limits and one entry per hash, also when the decoder fails after the eviction, and every entry left was there before or is the new one |
| BlobReadCache.FillIs | switch/src/blob_read_cache.hpp:49-69 | A fill of a size that can be held returns what the decoder made and puts exactly that first; behind it stay the most recent entries of other hashes, as many as the limits allow, also when the decoder fails; a size that cannot be held only drops the hash's own entry |
| BlobReadCache.FilledIsFound | switch/src/blob_read_cache.hpp:28-68 | What a fill returned is what the next search for it finds, at the front |
| BlobReadCache.InvalidateKeepsSound | switch/src/blob_read_cache.hpp:40-48 | Invalidation removes every entry with the hash and no other |
| BlobReadCache.ReadCache.FindBlob | switch/src/blob_read_cache.hpp:28-37 | The scan finds the first entry with this hash and key and splices it to the front |
| BlobReadCache.ReadCache.EraseHash | switch/src/blob_read_cache.hpp:40-48 | The erase loop leaves exactly the entries of other hashes, in order, and the byte count right |
| BlobReadCache.ReadCache.MakeRoom | switch/src/blob_read_cache.hpp:56-60 | The eviction loop ends without popping an empty list, having dropped the shortest suffix and counted the evictions |
| BlobReadCache.ReadCache.FillBlob | switch/src/blob_read_cache.hpp:49-69 | Fill on the list and the byte counter does what the specification of filling says; what it returns is the first entry afterwards |
| GpuBlobCache.LookupIsFold | switch/patches/aurora-switch-blob-cache-batch.patch:197-228 | Searching the batch from the back and then the database finds what the database would hold after committing the batch in order |
| GpuBlobCache.RamCacheIsInvisible | switch/patches/aurora-switch-blob-cache-batch.patch:257-310 | Over any run of loads, stores, successful flushes and prunes the three layers give the same sizes, the same bytes and the same untouched buffers as the same code with its RAM cache always empty |
| GpuBlobMap.RunIsOneMap | switch/patches/aurora-switch-blob-cache-batch.patch:174-523 | Over any run of loads, stores, successful flushes and prunes, the three layers answer exactly what one hash-keyed map answers |
| GpuBlobMap.ReadYourWrites | switch/patches/aurora-switch-blob-cache-batch.patch:221-507 | A stored non-empty value is what its key loads after any further loads, flushes, prunes and stores under other hashes, for every buffer size |
| GpuBlobLaws.ReadsWhatWasStored | switch/patches/aurora-switch-blob-cache-batch.patch:221-507 | From any cache that can be opened: a stored non-empty value reads back into a buffer of its size, and gives its size with any other or none, after any loads, flushes, prunes and stores under other hashes |
| GpuBlobLaws.OpensExactlyWhen | switch/patches/aurora-switch-blob-cache-batch.patch:257-523 | Loads, stores and prunes open the cache unless an opening has failed before; one failure breaks it for good |
| GpuBlobLaws.ClosedDoesNothing | switch/patches/aurora-switch-blob-cache-batch.patch:257-523 | A cache that does not open answers nothing and keeps its batch, rows and used keys |
| GpuBlobLaws.UsedExactly | switch/patches/aurora-switch-blob-cache-batch.patch:257-507 | A key counts as used when its value was stored or copied out, and only then |
| GpuBlobLaws.BatchIsBounded | switch/patches/aurora-switch-blob-cache-batch.patch:486-507 | Fewer than 64 writes and less than 4 MiB are ever left in the batch |
| GpuBlobLaws.StoreWritesOutExactlyWhenFull | switch/patches/aurora-switch-blob-cache-batch.patch:486-507 | A store leaves its row in the batch, unless that makes 64 or 4 MiB; then, and only then, the whole batch goes to the database |
| GpuBlobLaws.LoadedIsCached | switch/patches/aurora-switch-blob-cache-batch.patch:257-316 | Loading a value that RAM may hold leaves it first in RAM |
| GpuBlobLaws.UndecodedIsNotCached | switch/patches/aurora-switch-blob-cache-batch.patch:257-316 | A row that does not decode is answered with nothing and leaves nothing of its hash in RAM |
| GpuBlobLaws.FailureEmptiesRam | switch/patches/aurora-switch-blob-cache-batch.patch:509-523 | An opening that fails empties RAM, and so does a prune |
| GpuBlobCache.StepAgrees | switch/patches/aurora-switch-blob-cache-batch.patch:174-310 | Each operation answers the same with and without entries in RAM and keeps every RAM entry backed by the layers below |
| GpuBlobCache.StoreThenLoad | switch/patches/aurora-switch-blob-cache-batch.patch:486-507 | Read your writes: the next load of a key returns the non-empty value stored under it, whatever shares its hash in RAM, for every buffer size |
| GpuBlobCache.LoadReadsMap | switch/patches/aurora-switch-blob-cache-batch.patch:257-310 | A load answers what one hash-keyed map of batch and database says, and changes that map in nothing but the record of used keys |
| GpuBlobCache.StoreWritesMap | switch/patches/aurora-switch-blob-cache-batch.patch:486-507 | A store sets its key's entry in that map and no other, and leaves the batch below its limits |
| GpuBlobCache.FlushKeepsMap | switch/patches/aurora-switch-blob-cache-batch.patch:174-213 | A successful flush empties the batch and leaves the map as it was, now all in the database |
| GpuBlobCache.PruneKeepsUsed | switch/patches/aurora-switch-blob-cache-batch.patch:509-523 | A prune keeps exactly the entries of used keys, or all of them when no key was used, buffered writes included |
| GpuBlobCache.FailedFlushExactly | switch/patches/aurora-switch-blob-cache-batch.patch:178-189 | After a failed flush all loads still agree with those of an empty RAM cache exactly when every RAM entry is what the database alone gives for its hash |
| GpuBlobCache.BlobCache.LoadFromCache | switch/patches/aurora-switch-blob-cache-batch.patch:257-316 | On the caller's array: the size and bytes of the specified load, a wrong-sized buffer untouched |
| GpuBlobCache.BlobCache.StoreToCache | switch/patches/aurora-switch-blob-cache-batch.patch:486-507 | The RAM entry goes before the write is queued, and a full batch is committed; the runs' invariant is kept unless a failed flush lost writes |
| GpuBlobCache.BlobCache.FlushPendingWrites | switch/patches/aurora-switch-blob-cache-batch.patch:174-213 | One upsert per pending write in order on success, the batch dropped either way |
| GpuBlobCache.BlobCache.PruneCache | switch/patches/aurora-switch-blob-cache-batch.patch:509-523 | RAM is cleared and the batch committed before rows of unused keys go; the runs' invariant holds afterwards, also after failed flushes |
| GpuBlobCache.BlobCache.FindPendingWrite | switch/patches/aurora-switch-blob-cache-batch.patch:221-228 | The backward scan finds the most recent write of the hash |
| ThreadReaper.FreedOnceAndUnreachable | switch/src/clang_tls_switch.c:89-162 | In every run each record and its stack are freed at most once, only after the real join of its thread returned and the thread left its stack, when neither list, reaper nor joiner can reach the record; a finished join has freed its record |
| ThreadReaper.QuietMeansAllFreed | switch/src/clang_tls_switch.c:89-162 | Nothing leaks: when reaper and creators are idle, the queue is empty and every thread has left and been detached or joined, every record was freed exactly once |
| ThreadReaper.QueueIsTheReadyRecords | switch/src/clang_tls_switch.c:78-132 | The reap queue holds exactly the finished and detached records the reaper has not taken, each once, whichever event came first, ordered by when the second one happened |
| ThreadReaper.ReaperTakesFirstReady | switch/src/clang_tls_switch.c:93-108 | The reaper takes the record that became ready first, and only joins threads that have returned from their start routine, so a detached thread still at work delays nobody |
| ThreadReaper.QueueIsServed | switch/src/clang_tls_switch.c:93-108 | A running reaper that is idle can take the first of a waiting queue once no creator is inside |
| ThreadReaper.DetachStartsReaper | switch/src/clang_tls_switch.c:116-124 | A detach leaves a reaper running unless none ran and none could be started; nothing else starts or stops it |
| ThreadReaper.JoinLeavesStrangers | switch/src/clang_tls_switch.c:146-162 | A join of an id that is not registered, or of a detached record, leaves every record and list alone |
| ThreadReaper.FinishedIsRegistered | switch/src/clang_tls_switch.c:170-293 | A thread at the end of its trampoline finds its own record registered and not freed |
| ThreadReaper.LookUpsFindTheirRecord | switch/src/clang_tls_switch.c:113-147 | The lookups of joiners and detachers find the thread's own record |
| ThreadReaper.NoUseAfterFree | switch/src/clang_tls_switch.c:58-185 | No step of any run reads or writes a record that was freed |
| ThreadReaper.FindsExactlyFirst | switch/src/clang_tls_switch.c:58-65 | A search by id finds a listed record exactly when no record listed before it has the same id |
| ThreadReaper.LookUpsStayRightExactlyWhen | switch/src/clang_tls_switch.c:141-154 | After a thread is created, every joiner's lookup still finds its own record exactly when no joiner was waiting to look the new id up |
| ThreadReaper.StrangerIsFound | switch/src/clang_tls_switch.c:146-160 | With a reused id the joiner unlinks and frees the record of the new thread, which nobody joined |
| ThreadReaper.WindowIsReachable | switch/src/clang_tls_switch.c:142-147 | A run reaches the moment between real join and lookup with the id free to be given out again |
| ThreadReaper.StepKeepsInv | switch/src/clang_tls_switch.c:89-293 | Every step of create, finish, detach, join and reaper keeps the invariant |
| ThreadReaper.LookUpKeeps | switch/src/clang_tls_switch.c:146-156 | The joiner's locked section unlinks the joiner's own record and keeps the invariant |
| ThreadReaper.DetachKeeps | switch/src/clang_tls_switch.c:113-132 | The detacher's locked section marks its own thread's record, queues it if it has finished, and keeps the invariant |
| ThreadRegistry.Registry.FindLocked | switch/src/clang_tls_switch.c:58-65 | Following `next` finds the first record of the list with this id, or null |
| ThreadRegistry.Registry.UnlinkLocked | switch/src/clang_tls_switch.c:67-76 | Relinking removes exactly this record from the list and keeps the chain of the others |
| ThreadRegistry.Registry.PushReapLocked | switch/src/clang_tls_switch.c:78-87 | The record becomes the last of the reap chain, the chain before it unchanged |
| ThreadRegistry.Registry.PopLocked | switch/src/clang_tls_switch.c:93-103 | Takes the first record off the reap chain and out of the registry; the queue goes on holding exactly the registered records that are finished and detached |
| ThreadRegistry.Registry.Detach | switch/src/clang_tls_switch.c:115-132 | Marks the found record only, and queues it exactly when it has finished |
| ThreadRegistry.Registry.Finish | switch/src/clang_tls_switch.c:176-183 | Marks this record only, and queues it exactly when it is detached |
| ThreadRegistry.Registry.TakeJoined | switch/src/clang_tls_switch.c:146-156 | Hands out the found record unless it is detached, and removes it from the registry exactly then |
| ThreadRegistry.Registry.Publish | switch/src/clang_tls_switch.c:286-293 | The new record becomes the first of the registry |
| ThreadRegistry.LookupFindsTheSame | switch/src/clang_tls_switch.c:58-65 | The search of the heap list finds the record that the protocol's lookup numbers |
| ThreadRegistry.RemoveStaysInStep | switch/src/clang_tls_switch.c:67-76 | Unlinking on the heap and in the protocol keep the two lists in step |
| ThreadWrappers.Wrappers.StartThread | switch/src/clang_tls_switch.c:285-289 | A thread that was just created has a record of its own id that no list holds yet, while the creator keeps the mutex |
| ThreadWrappers.Wrappers.Publish | switch/src/clang_tls_switch.c:286-293 | On the heap lists the protocol's registration, keeping its invariant |
| ThreadWrappers.Wrappers.Detach | switch/src/clang_tls_switch.c:113-132 | Starts the reaper if none runs and reports exactly a failed start; for the id of any thread that may be detached, the protocol's detach of that thread, keeping its invariant |
| ThreadWrappers.Wrappers.Finish | switch/src/clang_tls_switch.c:176-183 | The protocol's end of a trampoline, which the invariant shows to be on a registered record |
| ThreadWrappers.Wrappers.TakeJoined | switch/src/clang_tls_switch.c:146-156 | Hands out the very record of the joined thread, as the protocol's lookup says, keeping its invariant |
| ThreadWrappers.Wrappers.Reap | switch/src/clang_tls_switch.c:93-103 | Takes the record of the thread that became ready first, as the protocol's pop says, keeping its invariant |
| PipelineScheduler.ExactlyOnePlace | switch/patches/aurora-switch-cache-recovery.patch:485-530 | In every run with any number of workers a pending hash is in exactly one of priority queue, background queue and flight, once; a published one in none; every hash asked for is pending or published; none is compiled twice |
| PipelineScheduler.PublishedFrameIsEarliest | switch/patches/aurora-switch-cache-recovery.patch:515-528 | The frame published with a pipeline bounds, and is one of, the frames of all requests until it was published and of the persisting ones since |
| PipelineScheduler.WritesExactlyNewMinima | switch/patches/aurora-switch-cache-recovery.patch:223-229 | A request writes its descriptor exactly when it persists and is earlier than every request for the hash so far, including those during the compile |
| PipelineScheduler.WritesDecrease | switch/src/pipeline_request_state.hpp:15-21 | The descriptor writes of one hash carry strictly decreasing frames |
| PipelineScheduler.BackgroundIsPaced | switch/patches/aurora-switch-cache-recovery.patch:655-672 | Credits stay between 0 and 4 despite unlocked grants and several consumers, and in every window of a run the background compiles started are at most 4 plus the frames begun in it |
| PipelineQueues.WaitsWhereAskedFor | switch/patches/aurora-switch-cache-recovery.patch:109-280 | In every run a waiting pipeline is in the draws' queue if any draw has asked for it, and in the background queue if only background requests have |
| PipelineQueues.DrawsNeedNoCredit | switch/patches/aurora-switch-cache-recovery.patch:485-506 | As long as a draw's pipeline waits, any idle worker can take a job without a credit, and takes one that a draw asked for |
| PipelineQueues.DrawsAreServedInOrder | switch/patches/aurora-switch-cache-recovery.patch:187-506 | Of two pipelines that draws wait for, the later one stays until the earlier one has been taken |
| PipelineQueues.QueuedFrameIsEarliest | switch/patches/aurora-switch-cache-recovery.patch:187-252 | A queued job carries the earliest frame that any request for its hash has had |
| PipelineQueues.TakesFirst | switch/patches/aurora-switch-cache-recovery.patch:485-506 | A worker takes the first job of the draws' queue, or, when that is empty and for a credit, the first background one |
| PipelineQueues.TakesExactlyWhen | switch/patches/aurora-switch-cache-recovery.patch:485-500 | An idle worker may take a job exactly when a draw's waits, or a background one and a credit |
| PipelineQueues.SpareFrameAddsCredit | switch/patches/aurora-switch-cache-recovery.patch:663-668 | A frame with time to spare and fewer than four credits leads to exactly one more, and any other frame to none |
| PipelineQueues.CreditsMove | switch/patches/aurora-switch-cache-recovery.patch:485-668 | Only a grant adds a credit and only taking a background job spends one |
| PipelineScheduler.TouchKeepsPlaces | switch/patches/aurora-switch-cache-recovery.patch:187-201 | Touching a pending pipeline moves it at most from one queue to the other and changes nothing else |
| PipelineScheduler.FindPlaces | switch/patches/aurora-switch-cache-recovery.patch:222-280 | A request adds a place only for a hash that was neither pending nor published |
| PipelineScheduler.StepKeepsInv | switch/patches/aurora-switch-cache-recovery.patch:222-530 | Every request, take, publish and grant keeps places, flags, frames, writes and credits consistent |
| PipelineScheduler.EarliestIs | switch/src/pipeline_request_state.hpp:15-21 | The remembered first use is a lower bound of the counted requests that one of them attains |
| PipelineScheduler.SpendingIsGranted | switch/patches/aurora-switch-cache-recovery.patch:499-672 | Compiles started plus credits in hand or being granted grow by no more than the frames begun |
| PipelineCache.Scheduler.Remember | switch/src/pipeline_request_state.hpp:15-21 | Updates the hash's request only, and asks for a write exactly when one was recorded |
| PipelineCache.Scheduler.FindPipeline | switch/patches/aurora-switch-cache-recovery.patch:222-280 | The locked section on the queues, sets and maps does what the protocol's request step says, which the laws of PipelineQueues fix, and keeps its invariant; ready exactly when published |
| PipelineCache.Scheduler.TouchPending | switch/patches/aurora-switch-cache-recovery.patch:187-252 | Finds the pending job in either queue unless it is compiling, lowers its frame, and moves it for a draw |
| PipelineCache.Scheduler.FindPending | switch/patches/aurora-switch-cache-recovery.patch:196-196 | The scan finds the first job of the hash |
| PipelineCache.Scheduler.TakeJob | switch/patches/aurora-switch-cache-recovery.patch:485-506 | Takes a job exactly when the protocol allows it, from the priority queue if it has one, a credit otherwise, and keeps the protocol's invariant |
| PipelineCache.Scheduler.PublishJob | switch/patches/aurora-switch-cache-recovery.patch:515-530 | Publishes the remembered frame, clears the compiling flag and the pending mark, and keeps the protocol's invariant |
| PipelineCache.Scheduler.TestCredits | switch/patches/aurora-switch-cache-recovery.patch:663-668 | Decides on a grant by pinning, frame time and a credit count below the cap, before anything is added |
| DiscMeta.DecodeUndoesEncode | switch/patches/aurora-switch-no-mmap.patch:259-377 | A saved table loads exactly when it is within the loader's bounds, and then gives back disc id, base count and every entry, its overlay mark cleared |
| DiscMeta.LoadsOnly | switch/patches/aurora-switch-no-mmap.patch:313-368 | Every file that loads begins with the magic and version 1 and has between 1 and 200000 entries, names of at most 4096 bytes and some entry number |
| DiscMeta.HeaderSlices | switch/patches/aurora-switch-no-mmap.patch:259-276 | Magic, version, disc id, base count and number of entries stand at 0, 4, 8, 40 and 44 |
| DiscMeta.ShortFileIsRejected | switch/patches/aurora-switch-no-mmap.patch:313-368 | No proper prefix of a saved file loads, whatever the table |
| DiscMeta.IndexInverts | switch/patches/aurora-switch-no-mmap.patch:350-357 | Each slot of the rebuilt index names the last entry with its number, or is invalid exactly when there is none; every non-negative number has a slot |
| DiscMeta.ReadsAll | switch/patches/aurora-switch-no-mmap.patch:323-349 | Reading entry after entry gives back all encoded entries, and fails exactly when a name is longer than 4096 bytes |
| DiscMeta.ReadEncoded | switch/patches/aurora-switch-no-mmap.patch:277-348 | One encoded entry reads back at its position, whatever surrounds it |
| DiscMeta.DecodePrefix | switch/patches/aurora-switch-no-mmap.patch:313-361 | What a shortened file loads as, the whole file loads as too, and the entries end within the shortened part |
| DvdLayer.Layer.SaveMeta | switch/patches/aurora-switch-no-mmap.patch:259-290 | Success exactly when the layer is a booted disc with entries and the file has room; the file then holds the encoding, and after a failed write a proper prefix of it |
| DvdLayer.Layer.WriteEntry | switch/patches/aurora-switch-no-mmap.patch:277-286 | The chain of field writes asks for the entry's encoding, stopping at the first failure |
| DvdLayer.Layer.OpenFiles | switch/patches/aurora-switch-no-mmap.patch:296-377 | Boots exactly from the files that decode, with table and index in place, and leaves the layer cleared for every other file; null arguments change nothing |
| DvdLayer.Layer.ReadTable | switch/patches/aurora-switch-no-mmap.patch:319-349 | The read loop gives the table of the specification and its largest entry number |
| DvdLayer.Layer.RebuildIndex | switch/patches/aurora-switch-no-mmap.patch:351-357 | The loop builds the specified index, later entries winning |
| DvdLayer.SaveThenOpen | switch/patches/aurora-switch-no-mmap.patch:255-377 | Saving and then booting from what reached the card restores a loadable table exactly when the save succeeded, and otherwise leaves the layer cleared |
| SqliteRuns.OneHandlePerFile | switch/src/sqlite_vfs.cpp:19-39 | In every run, failed opens included, the list has at most one entry per file system and case-folded path, its count is the number of live connections and at least one, each connection stands on its own file's entry, and writes only if the native handle can |
| SqliteModes.WritesExactlyAsOpened | switch/src/sqlite_vfs.cpp:260-318 | In every run a live connection may write if and only if the open that made it asked for READWRITE and its native handle was opened for writing |
| SqliteModes.OpensExactlyWhen | switch/src/sqlite_vfs.cpp:275-301 | An open succeeds exactly when the file may be created if it asks for that, is not open already if it insists, and is shared or gets memory and a native handle; a failed open changes nothing |
| SqliteModes.OpenedIs | switch/src/sqlite_vfs.cpp:308-316 | A successful open is recorded with its flags, keeps every other connection and makes one for this file without a lock, writable as its flags and native handle allow |
| SqliteModes.NewHandleIs | switch/src/sqlite_vfs.cpp:284-307 | A file that was not open gets a native handle of its own, for writing exactly when READWRITE or MAIN_DB asks for that and the system allows it |
| SqliteModes.SharedHandleIs | switch/src/sqlite_vfs.cpp:308-309 | A file that was open gets no second handle, one more reference, and keeps a delete flag once set |
| SqliteHandles.SameKeyExactly | switch/src/sqlite_vfs.cpp:34-39 | Two paths name one file exactly when they have equal length and agree letter for letter up to ASCII case |
| SqliteRuns.ClosedWithLastConnection | switch/src/sqlite_vfs.cpp:66-89 | A native handle is closed exactly when its last connection has closed, and once |
| SqliteRuns.LastCloseFlushesAndDeletes | switch/src/sqlite_vfs.cpp:71-85 | A writable handle is flushed right before it is closed, and the file deleted right after exactly when some open of it asked for that |
| SqliteLocks.LocksExclude | switch/src/sqlite_vfs.cpp:56-301 | Locks are exclusive in every run in which no open clears the file's lock directory while a connection holds a lock on it, however the unlocked parts of opens and closes interleave with the rest |
| SqliteLocks.LockedExactlyWhen | switch/src/sqlite_vfs.cpp:175-190 | A connection without a lock gets one exactly when no lock directory is there and the system lets one be made |
| SqliteLocks.UnlockedExactlyWhen | switch/src/sqlite_vfs.cpp:56-65 | Giving a lock up removes its directory, or fails and keeps the lock when the system cannot |
| SqliteLocks.OpenKeepsGuardExactlyWhen | switch/src/sqlite_vfs.cpp:272-274 | The clearing an open does before it takes the mutex keeps locks exclusive exactly when nobody holds one |
| SqliteLocks.LocksCanOverlap | switch/src/sqlite_vfs.cpp:175-274 | Otherwise two connections can hold locks on one file at once |
| SqliteHandles.StepKeepsInv | switch/src/sqlite_vfs.cpp:56-318 | Every clearing, locked section of open and close, lock and unlock keeps list, connections and log consistent |
| SqliteHandles.AttachKeeps | switch/src/sqlite_vfs.cpp:308-311 | One more connection raises its own entry's count only, and the delete flag sticks |
| SqliteHandles.DetachKeeps | switch/src/sqlite_vfs.cpp:69-88 | The locked section of a close, last or not, keeps list, connections and log consistent |
| SqliteHandles.DetachLastKeeps | switch/src/sqlite_vfs.cpp:71-85 | When the last connection leaves, its entry goes and every other stays as it was |
| SqliteHandles.ReleaseCounts | switch/src/sqlite_vfs.cpp:75-79 | The last close closes its own handle once and opens none |
| SqliteVfs.Vfs.Open | switch/src/sqlite_vfs.cpp:248-318 | On the handle list and the connections, for every answer of the system: the protocol's clearing and then its open, error for error, keeping its invariant; a refused path changes nothing |
| SqliteVfs.Vfs.ClearStale | switch/src/sqlite_vfs.cpp:272-274 | Does the protocol's clearing step |
| SqliteVfs.Vfs.OpenShared | switch/src/sqlite_vfs.cpp:275-318 | The section under the mutex does the protocol's open step; a successful one makes a connection for this file that is read-only exactly when the flags lack READWRITE or the native handle is not writable |
| SqliteVfs.Vfs.Close | switch/src/sqlite_vfs.cpp:66-89 | Gives up the lock and then, unlock failed or not, drops the reference and with the last one the handle, as the protocol's two steps say |
| SqliteVfs.Vfs.Leave | switch/src/sqlite_vfs.cpp:69-88 | The section under the mutex does the protocol's detach step, which the invariant always enables |
| SqliteVfs.Vfs.Lock | switch/src/sqlite_vfs.cpp:175-190 | Busy exactly when the directory is there, otherwise the protocol's lock |
| SqliteVfs.Vfs.Unlock | switch/src/sqlite_vfs.cpp:56-65 | Leaving the last level deletes the directory, or fails with the level unchanged when the system cannot, whether the directory is there or not |
| SqliteVfs.Vfs.FindHandle | switch/src/sqlite_vfs.cpp:34-39 | The scan finds the first entry of this file system and folded path |
| SqliteVfs.HosFile.Write | switch/src/sqlite_vfs.cpp:131-152 | A read-only connection changes nothing; a write that reports success put exactly its bytes at the offset, whether in one call or through the bounce buffer, and a non-empty one succeeds unless the system refuses it |
| SqliteVfs.HosFile.WriteBounced | switch/src/sqlite_vfs.cpp:138-150 | Writing in pieces of at most 4096 bytes has the effect of one write |
| SqliteVfs.HosFile.Truncate | switch/src/sqlite_vfs.cpp:153-160 | A read-only connection changes nothing; otherwise success sets the size, keeping the bytes below it, and only a refusal of the system is an error |
| SqliteVfs.HosFile.SizeHint | switch/src/sqlite_vfs.cpp:213-226 | Grows the file to the hint with zeros at most, and never for a read-only connection |
| SqliteVfs.HosFile.Read | switch/src/sqlite_vfs.cpp:90-130 | A full read returns the file's bytes at the offset, a short read the bytes it got and zeros after them; when the system gives all it has, nothing that lies in the file is missing, whether read at once or through the bounce buffer |
| SqliteVfs.HosFile.ReadBounced | switch/src/sqlite_vfs.cpp:102-121 | The pieces read through the bounce buffer are the bytes of one read |
| SqliteVfs.SpliceConcat | switch/src/sqlite_vfs.cpp:140-149 | Two adjacent writes are one write of both pieces |
| PointerSlots.ResolveUndoesEncodeExactly | switch/patches/melee-switch-disc-ptr-window.patch:655-675 | For every accepted block, resolving an encoded pointer, with the table of then or later, gives it back for null, MEM1, every pointer beyond 4 GB, and of the other low addresses exactly those that look like no escaped and no MEM1 slot, ARAM offsets below 16 MB included |
| PointerSlots.RelocationIsAddition | switch/patches/melee-switch-disc-ptr-window.patch:655-675 | Adding k to a MEM1 slot modulo 2^32 resolves to the pointer plus k whenever both lie in the block |
| PointerSlots.InWindowIsInBlock | switch/patches/melee-switch-disc-ptr-window.patch:647-653 | The window test, with its wrapping subtraction, is membership in the block |
| PointerSlots.SlotRangesAreDisjoint | switch/patches/aurora-switch-mem1-window.patch:22-32 | MEM1 slots lie above ARAM offsets and the escape prefix, in one range that does not wrap |
| PointerSlots.EncodeKeepsTable | switch/patches/melee-switch-disc-ptr-window.patch:655-663 | Encoding registers only pointers beyond 4 GB and keeps every id given out |
| PointerSlots.SlotIs | switch/patches/melee-switch-disc-ptr-window.patch:655-663 | The slot of a pointer by where it points: the low half inside the block, itself below 4 GB, an escaped id of the table otherwise |
| PointerSlots.WithoutWindow | switch/patches/melee-switch-disc-ptr-window.patch:647-675 | Before a window is set every low address is its own slot |
| PointerSlots.UnknownIsNull | switch/patches/melee-switch-disc-ptr-window.patch:665-675 | An escaped slot that names no registered pointer resolves to null |
| PointerSlots.UsableExactlyWhen | switch/patches/aurora-switch-mem1-window.patch:22-32 | A block can be a window exactly when its addresses share their high half and have low halves from 48 MiB on |
| PointerSlots.AllocMem1 | switch/patches/aurora-switch-mem1-window.patch:34-58 | At most five tries; the first block that fits the window is taken; every rejected block is freed once and nothing else stays held |
| BitReader.ShiftedIsBits | switch/patches/aurora-switch-platform-compat.patch:158-166 | The shifted four-byte read returns the run's bits for all data as long as the run lies in the four bytes |
| BitReader.ShiftedExactlyWithinWord | switch/patches/aurora-switch-platform-compat.patch:158-166 | It does so on all data exactly then |
| BitReader.NewReadIsOldRead | switch/patches/aurora-switch-platform-compat.patch:144-167 | For up to 25 bits at every bit position the new read returns what the old loop returned |
| BitReader.Reader.ReadByBits | switch/patches/aurora-switch-platform-compat.patch:144-151 | The removed loop returns the run modulo 2^32 and moves by its length |
| BitReader.Reader.Read | switch/patches/aurora-switch-platform-compat.patch:152-167 | The new read moves by the length and returns the run's bits whenever they lie in the four bytes |
| BitReader.Reader.ReadBit | switch/patches/aurora-switch-platform-compat.patch:169-172 | Agrees with a read of one bit |
| BitReader.DataBitIsWordBit | switch/patches/aurora-switch-platform-compat.patch:161-165 | The bits of four bytes in reading order are the bits of their big-endian word |
| FrameHistogram.Window.ReadPercentile | switch/src/perf_switch.cpp:24-33 | The scan returns the upper edge of the bin of the nearest-rank sample of the sorted frame times, or nothing exactly when that sample is a second or more |
| FrameHistogram.Window.Frame | switch/src/perf_switch.cpp:119-148 | A window closes exactly when its times reach two seconds, reporting count, overflow, worst time and the three percentiles of its times, and starts over |
| FrameHistogram.PercentileIsEdgeAbove | switch/src/perf_switch.cpp:16-32 | The percentile is the multiple of 0.25 ms just above the nearest-rank sample, and is missing exactly when that sample is at least 1000 ms |
| FrameHistogram.PercentilesAreMonotone | switch/src/perf_switch.cpp:24-33 | A higher percentile is never reported lower, a missing one counting as infinite |
| FrameHistogram.BinsReachRank | switch/src/perf_switch.cpp:26-31 | The running sum reaches a rank at exactly the bin of the sample of that rank |
| FrameHistogram.BinsAndOverflowAreAll | switch/src/perf_switch.cpp:126-130 | Bins and overflow together count every frame once |
| FrameHistogram.SortIsPermutation | switch/src/perf_switch.cpp:24-33 | The sorted times the percentiles refer to are the window's times |

## Left out

- DiscReader.GcDisc.EnsureFst: the allocation failures it answers are not modelled.
- Allocation failures other than the ones the code's own branches answer, `fclose` and stream errors on the
  manifest, and 64-bit counters wrapping around.
- LogSwitch.Logger.SyncFile: the error an fsync answers is counted as in the code but does not undo the
  completion, because the code completes the flush regardless.
- LogLiveness.WriterLeaves: bounds the writer's steps and not time. A short write is a step; an interrupted one is
  none, since it changes nothing, and interruptions are finitely many by assumption. The timed wait depends on the
  scheduler, and outside a shutdown a critical writer can be overtaken for space for ever.
- A critical chunk that meets a shutdown of a running writer is discarded without being counted, as in the code;
  the durability of critical writes is stated for the calls that no such shutdown overlaps.
- LogSwitch.Logger.ReportLosses: the text and timing fields of the report line are not modelled, only its counts.
- DiscExtract.ExtractionFollowsTree: is about discs whose names are one segment each and differ within a directory
  by more than ASCII case; a card that merges names differing in the case of other letters, or shortens names, is
  left out. For other names only the losses named above are stated; an absolute name or one that climbs out leads
  to a place outside the output directory, and directories made on the way to such a place are not recorded.
- DiscExtract.SdCard: a card holds files and directories as a map and a set; free space, and a directory in the
  way of a file, appear only as operations that may fail.
- GpuBlobCache.BlobCache.PruneCache: the part of cache_prune the patch does not show is taken to delete the rows
  of unused keys; vacuuming is left out.
- GpuBlobCache.BlobCache.LoadFromCache: read errors of the database engine, the statistics and cache_shutdown are
  left out.
- ThreadReaper.NoUseAfterFree: the trampoline's context block, the stack size policy and the thread-local storage
  set-up are left out; a record stands for itself and its stack.
- ThreadReaper.FreedOnceAndUnreachable: a reaper that cannot be started leaves its queue unread, as in the code, so
  nothing is claimed about when a detached thread's memory comes back.
- ThreadRegistry.Registry.Detach: is the part on the lists; starting the reaper is ThreadWrappers.Wrappers.Detach.
- PipelineCache.Scheduler.FindPipeline: the blocking priority, the unthreaded build, the callback that creates the
  pipeline and the throttle after a background compile are left out.
- PipelineScheduler.ExactlyOnePlace: the end of a run at shutdown, which clears every container, is left out.
- DvdLayer.Layer.SaveMeta: a write to the stream fails only when the file has no room left.
- DvdLayer.Layer.OpenFiles: read errors before the end of the file, the current directory and the worker thread are
  left out.
- SqliteVfs.Vfs.Open: temporary names, path translation and normalisation are one answer of the system; `access`,
  `remove` and the flush of all handles at exit are left out.
- SqliteVfs.HosFile.Read: when the system returns fewer bytes than it has, the short read is zero-filled from there,
  as in the code.
- PointerSlots.ResolveUndoesEncodeExactly: the external-pointer table is not part of the patches; it is modelled as
  a list that never forgets, with room for one more pointer.
- FrameHistogram.Window.Frame: the late-frame count, the stage averages and 32-bit counter overflow are left out.
- BitReader.Reader.Read: reading four bytes past the end of the data is excluded by its precondition, where the code
  has no check.
- The console interface, controller input, GPU and audio code, build scripts, and texture signatures.
