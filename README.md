# Chunked storage and versioning engine — a Dafny model

This project models the storage engine of a single-node file store written in Go
(`internal/services/chunk.go` and `internal/services/file.go`). The engine has two
cooperating parts.

- **The chunk store (`ChunkService`).**
  - It cuts an input stream into chunks of at most 1 MiB.
  - It names each chunk `"chunk_" + hex(sha256(bytes))`.
  - It writes each chunk once into a content-addressed directory of blobs.
  - It compares two chunk lists position by position.
  - It rebuilds a stream by writing stored chunks in list order.
- **The file store (`FileService`).**
  - It keeps one metadata record per file id, in a directory of `<id>.json` entries.
  - Upload creates a record at version 1.
  - Update re-chunks the content, diffs it against the stored list, runs a second
    persist pass over the changed chunks, and bumps the version.
  - Download reconstructs the content.
  - List and delete complete the operations.

The model follows the source's own form.

- The two services are classes whose fields are the two directories.
  - `ChunkService.blobs` maps a blob name to its bytes.
  - `FileService.dir` maps an entry name to an entry.
- The Go loops are Dafny methods with loop invariants.
  - `CreateChunks`, `UpdateChunks`, `ReconstructFile`, `CompareChunks`, `ListFiles`.
  - The two size-summing loops of `file.go`, as `TotalSize`.
- Each method is proved against a specification function:
  - `Segment`, `SaveAll` and `ChunksOf` for chunking;
  - `HashIndex`, `Changed` and `Diff` for the diff;
  - `Resave` for the second persist pass;
  - `Rebuild` for reconstruction;
  - `Listed` for listing.
- The lemmas beside those functions state what the engine promises.

Modules, in dependency order:

- `Models` (`models.dfy`): the `Chunk` and `FileMetadata` records, `ChunkSize` and the error kinds.
- `Streams` (`streams.dfy`): the input stream and the output sink.
  - How many bytes a `Read` hands over is the environment's choice. So a `Reader`
    carries a schedule of its next reads:
    - `Deliver(k)` hands over at most `k` bytes, and `Deliver(0)` is the
      "no bytes, no error" read;
    - `Faulty` is a read error;
    - once the schedule is used up, reads are full.
  - A `Sink` takes a given number of writes and then refuses.
- `Segmentation` (`segmentation.dfy`):
  - segmentation, chunk records and layout;
  - the write-once store;
  - reconstruction and the round trip;
  - the second persist pass.
- `ChunkDiff` (`chunk_diff.dfy`): the positional diff.
- `Chunks` (`chunks.dfy`): the `ChunkService` class.
- `Files` (`files.dfy`): the metadata directory, `filepath.Ext`, listing, and the `FileService` class.
- `Workflows` (`workflows.dfy`): end-to-end properties that run several operations in a row.

The SHA-256 digest with hex formatting is a parameter `digest: seq<byte> -> string`
of the chunk store. The round-trip properties require it to be injective. The fresh
uuid of an upload and the clock readings are method parameters.

### Behaviour of the code worth noting

- Update, delete and download fail with whatever error loading the record
  gives (`internal/services/file.go:60-63`, `:99-102`, `:149-152`): `NotFound`
  for a missing entry, and also `Corrupt` for an entry that exists but does not load.
- The update time is a fresh clock reading (`internal/services/file.go:88`). It is
  not compared with the previous one, so nothing makes it later.
- A read that returns no bytes and no error ends chunking as end of input does
  (`internal/services/chunk.go:39-41`). The rest of the stream is not chunked.

## Model

| member | source | states |
|---|---|---|
| Streams.ReadStep | internal/services/chunk.go:34-37 | one read never hands over more than the buffer or the bytes left, advances the position by what it hands over, hands over nothing with an error or end of input, and with no schedule left fills the buffer as far as the data allows |
| Streams.Reader.Read | internal/services/chunk.go:34 | a read changes the stream as ReadStep says and copies the bytes it hands over to the front of the buffer |
| Streams.Reader.Seek | internal/services/chunk.go:108-111 | a seek to a non-negative offset moves the read position there; a negative offset is refused and changes nothing |
| Streams.Sink.Write | internal/services/chunk.go:136-139 | a write succeeds exactly when the sink still accepts writes, and only a successful write appends its bytes to the output |
| Segmentation.ChunkId | internal/services/chunk.go:45-46 | a chunk's id is "chunk_" followed by the digest of its bytes, so it depends on the bytes alone |
| Segmentation.Segment | internal/services/chunk.go:33-63 | chunking keeps the stream's data; an exhausted stream yields no payload, and so does a stream whose next read hands over no bytes and no error, without a failure |
| Segmentation.SegmentBounds | internal/services/chunk.go:29-43 | every payload holds between 1 and ChunkSize bytes |
| Segmentation.SegmentConsumes | internal/services/chunk.go:33-63 | the payloads laid end to end are exactly the bytes between the old and the new read position |
| Segmentation.SegmentFullReads | internal/services/chunk.go:33-63 | with full reads chunking never fails, reads to the end, and makes ceil(L / ChunkSize) payloads, all but the last of exactly ChunkSize bytes |
| Segmentation.FullReadExample | internal/services/chunk.go:27-66 | a 2.5 MiB stream read in full gives three chunks of 1048576, 1048576 and 524288 bytes, 2621440 in all |
| Segmentation.ChunksOfLayout | internal/services/chunk.go:43-62 | chunk records made from payloads of 1 to ChunkSize bytes have indices 0, 1, 2, … without gaps, each offset equal to the total size of the chunks before it, the payload's digest as hash and its length as size, the prefixed hash as id, and sizes adding up to the total length |
| Segmentation.SameBytesSameId | internal/services/chunk.go:45-46 | byte-identical payloads get the same id wherever they occur, whatever the digest; with a collision-free digest, different payloads get different ids |
| Segmentation.ChunksOf | internal/services/chunk.go:43-62 | one chunk record per payload, in payload order (the layout of the records is ChunksOfLayout's) |
| Segmentation.CeilStep | internal/services/chunk.go:29-34 | one read of up to ChunkSize bytes off a non-empty remainder leaves exactly one chunk fewer to make |
| Segmentation.Save | internal/services/chunk.go:68-83 | saving adds the name and no other; a name already stored keeps its bytes even when the new bytes differ; a new name gets the new bytes |
| Segmentation.SaveTwice | internal/services/chunk.go:71-73 | saving the same name twice equals saving it once, whatever the second bytes are |
| Segmentation.SaveAll | internal/services/chunk.go:56 | the saves of a chunking run never remove a stored name |
| Segmentation.SaveAllGrows | internal/services/chunk.go:56 | after chunking, every payload's id is stored and no blob stored before has changed |
| Segmentation.SaveAllOnlyPayloads | internal/services/chunk.go:56-58 | chunking stores no name other than its payloads' ids, and a store in which every blob sits under its own content id stays so |
| Segmentation.AppendPayload | internal/services/chunk.go:43-62 | one more non-empty read adds one save, one chunk record with the next index and the running offset, and its bytes at the end |
| Segmentation.ResumesAdvance | internal/services/chunk.go:43-62 | a read that hands over bytes adds them as the next payload of the segmentation |
| Segmentation.ResumesStop | internal/services/chunk.go:35-41 | a read that hands over nothing ends the segmentation, with a failure exactly when it reported an error |
| Segmentation.SegmentedChunks | internal/services/chunk.go:27-66 | a finished segmentation leaves a well laid-out chunk list whose every id is stored, whose sizes add up to the bytes consumed, in a store that stays sound |
| Segmentation.Rebuild | internal/services/chunk.go:129-143 | reconstruction fails only with WriteFailed for a refused write, or with NotFound for an id that has no blob |
| Segmentation.RebuildComplete | internal/services/chunk.go:129-143 | with every blob present and a sink that takes every write, reconstruction succeeds and writes the blobs in list order, laid end to end |
| Segmentation.RebuildStopsAtMissing | internal/services/chunk.go:131-134 | at the first missing blob reconstruction fails with NotFound for that id, having written exactly the blobs of the chunks before it |
| Segmentation.Delivered | internal/services/chunk.go:130-140 | the number of chunks reconstruction writes is at most the list's length, and every chunk before it has a stored blob |
| Segmentation.RebuildWritesPrefix | internal/services/chunk.go:129-143 | reconstruction writes exactly the blobs of the chunks it delivered, in order, and succeeds only when it delivered the whole list |
| Segmentation.RoundTrip | internal/services/chunk.go:129-143 | in a sound store holding every payload's id, with a collision-free digest, reconstructing the chunk list of some payloads gives back the payloads laid end to end |
| Segmentation.StreamRoundTrip | internal/services/chunk.go:129-143 | chunking a stream into a sound store and then reconstructing the chunk list succeeds and writes back exactly the bytes chunking consumed, which are the next bytes of the stream |
| Segmentation.SegmentRebuilds | internal/services/chunk.go:129-143 | reconstructing a segmentation's chunk list from the store it was saved into, with a collision-free digest and enough writes, succeeds and gives back its payloads laid end to end |
| Segmentation.Resave | internal/services/chunk.go:106-127 | the second persist pass keeps the stream's data, fails only with SeekFailed or ReadFailed, and succeeds only when every changed chunk's offset is non-negative |
| Segmentation.ResaveWriteOnce | internal/services/chunk.go:106-127 | the second persist pass never changes a stored blob, and leaves the store as it was when every changed chunk's id is already stored, whatever the stream does |
| ChunkDiff.HashIndex | internal/services/chunk.go:91-94 | the old-list map has exactly one key per index an old chunk carries |
| ChunkDiff.Changed | internal/services/chunk.go:96-101 | the filter reports no more chunks than the new list holds |
| ChunkDiff.Diff | internal/services/chunk.go:90-104 | the diff reports no more chunks than the new list holds |
| ChunkDiff.DiffAgainstNothing | internal/services/chunk.go:90-104 | against an empty old list every new chunk is reported, in order |
| ChunkDiff.HashIndexLast | internal/services/chunk.go:91-94 | the old-list index map has a key exactly when some old chunk has that index, and maps it to the hash of the last such chunk |
| ChunkDiff.ChangedMembers | internal/services/chunk.go:96-101 | a chunk is reported exactly when it is a new chunk whose index is missing from the map or maps to a different hash |
| ChunkDiff.ChangedAppend | internal/services/chunk.go:97-101 | the diff keeps the order of the new list: the diff of a concatenation is the diff of the first part followed by the diff of the second |
| ChunkDiff.ChangedSized | internal/services/chunk.go:97-101 | reported chunks are new chunks, so they keep the new list's non-negative sizes |
| ChunkDiff.ChangedNone | internal/services/chunk.go:97-101 | when no new chunk differs, nothing is reported |
| ChunkDiff.HashIndexOfWellIndexed | internal/services/chunk.go:91-94 | for a list whose indices are its positions, the index map sends each position to the hash there and has no other key |
| ChunkDiff.DiffPositional | internal/services/chunk.go:90-104 | between lists indexed by position, a new chunk is reported exactly when it lies beyond the old list or its hash differs from the old chunk at its position |
| ChunkDiff.DiffSelf | internal/services/chunk.go:90-104 | a list in which no index occurs twice compared with itself reports nothing |
| ChunkDiff.DiffSingle | internal/services/chunk.go:90-104 | two equally long lists indexed by position that differ in hash at one position only: exactly the new chunk there is reported |
| Chunks.ChunkService.SaveChunk | internal/services/chunk.go:68-83 | the store becomes Save of the old store: write-once by name |
| Chunks.ChunkService.ReadChunk | internal/services/chunk.go:85-88 | reading returns the stored bytes, or NotFound for a name that is not stored |
| Chunks.ChunkService.CreateChunks | internal/services/chunk.go:27-66 | the stream ends where Segment says; the store gains the saves of every payload read, even when a later read fails; a read error yields ReadFailed and no list; otherwise the list is ChunksOf the payloads, well laid out, every id stored, sizes adding up to the bytes consumed; a sound store stays sound |
| Chunks.ChunkService.CompareChunks | internal/services/chunk.go:90-104 | the result is Diff of the two lists: exactly the new chunks that differ from the index map, in their order; it never fails |
| Chunks.ChunkService.UpdateChunks | internal/services/chunk.go:106-127 | the store, the stream and the outcome are those of Resave: seek to each changed chunk's offset, read up to its size, save what was read, stopping at the first seek or read error |
| Chunks.ChunkService.ReconstructFile | internal/services/chunk.go:129-143 | the sink receives what Rebuild writes, and the outcome is Rebuild's; the store is not modified |
| Files.Load | internal/services/file.go:111-125 | a record loads exactly when its `<id>.json` entry exists and is readable, and is that entry's record; a missing entry fails with NotFound for its name, and an unreadable one with another error |
| Files.MetadataNameInjective | internal/services/file.go:112 | different ids name different metadata entries |
| Files.Ext | internal/services/file.go:135 | the extension is never longer than the name |
| Files.ExtShape | internal/services/file.go:135 | the extension is empty, or a suffix of the name that starts with its only dot and holds no separator |
| Files.ExtJson | internal/services/file.go:135-136 | a name has extension ".json" exactly when it ends in ".json", so dropping its last five characters leaves the id |
| Files.Pick | internal/services/file.go:134-143 | one directory entry contributes at most one record |
| Files.Listed | internal/services/file.go:127-146 | listing yields at most one record per directory entry |
| Files.PickHolds | internal/services/file.go:134-143 | one directory entry contributes a record exactly when it is a ".json" entry whose record loads |
| Files.ListedMembers | internal/services/file.go:127-146 | a record is listed exactly when some ".json" entry of the listing holds it; entries that do not load are skipped |
| Files.ListedOnce | internal/services/file.go:127-146 | when every record sits under its own id's entry and the listing names no entry twice, no record is listed twice |
| Files.ListedAppend | internal/services/file.go:134-144 | listing keeps directory order: the records of a listing split in two are those of the first part followed by those of the second |
| Files.TotalSize | internal/services/file.go:36-39 | the loop computes the sum of the chunk sizes |
| Files.FileService.SaveFileMetadata | internal/services/file.go:164-177 | exactly the entry named after the record's id is overwritten with the record; every other entry is unchanged and no prior version is kept |
| Files.FileService.GetFileMetadata | internal/services/file.go:111-125 | the result is Load of the directory; a loaded record is the one stored under the id's entry |
| Files.FileService.UploadFile | internal/services/file.go:28-57 | the stream is chunked as Segment says and the chunks are saved; on a read error nothing is written to the directory; otherwise the stored and returned record has the given id, name and content type, the chunk list, the sum of its sizes, the two given times and version 1, and it is the only entry that changes |
| Files.FileService.Rechunk | internal/services/file.go:65-79 | re-chunking saves every payload; when the new list does not differ from the stored one the second pass is skipped and the stream stays where chunking left it; otherwise the stream, the outcome and any error are those of the second persist pass |
| Files.FileService.UpdateFile | internal/services/file.go:59-96 | a record that does not load fails with its load error and nothing changes; a failed re-chunk or second pass writes no record; on success the record keeps id, name, content type and creation time, gets the new chunk list, the sum of its sizes, the given update time and the previous version plus one, and only its entry changes; in a valid service the rewritten record is fileId's own |
| Files.FileService.DownloadFile | internal/services/file.go:98-109 | a record that does not load fails and writes nothing; otherwise the sink receives what reconstructing the record's chunk list writes, and the record is returned exactly when reconstruction succeeds |
| Files.FileService.ListFiles | internal/services/file.go:127-146 | given the directory's entries, each once, the result is the listed records in directory order; a record is in it exactly when some ".json" entry holds it; every record that loads is listed; and when every record sits under its own id's entry none is listed twice |
| Files.FileService.DeleteFile | internal/services/file.go:148-162 | a record that does not load fails and nothing changes; otherwise exactly its entry is removed; afterwards the id does not load; the chunk store is never touched |
| Workflows.UploadThenDownload | internal/services/file.go:98-109 | after an upload that succeeds, downloading the same id returns the uploaded record and writes exactly the bytes the upload consumed; a stream that fills every read uploads successfully and comes back whole |
| Workflows.DeleteThenAccess | internal/services/file.go:148-162 | after a delete, reading the metadata, updating and downloading the id all fail without reading the stream, writing to the sink or changing the chunk store; reading the metadata reports NotFound when the delete succeeded |
| Workflows.UpdateWithSameContent | internal/services/file.go:59-96 | updating a file with the content it already holds succeeds, skips the second persist pass, keeps the chunk list and bumps the version by one |

## Left out

- The SHA-256 algorithm and `%x` formatting are not modelled: the digest is a parameter, and only the round trips assume it has no collisions.
- JSON encoding and decoding of the metadata are not modelled: an entry that does not load is `Unreadable`.
- Filesystem failures other than a missing name are not modelled. These are errors from `os.Stat` other than "not found", `os.Create`, file writes in `saveChunk`, `os.WriteFile` in `saveFileMetadata`, and `os.Remove` in `DeleteFile`. `SaveChunk`, `SaveFileMetadata` and the removal in `DeleteFile` never fail.
- An error from `os.ReadDir` in `ListFiles` is not modelled. The directory listing is a parameter: every entry of the directory, each once, in the order the directory gives them.
- The fresh uuid of `UploadFile` and the `time.Now` readings are parameters. The code never checks that the uuid is unused, and `CreatedAt` and `UpdatedAt` come from two separate clock readings.
- `int64` overflow of sizes and offsets, and `int` overflow of indices and versions, are not modelled: integers are unbounded.
- Streams.ReadStep: a Go reader may return bytes together with `io.EOF`; the model hands over bytes or reports end of input, never both. For chunking this changes nothing, because the next read reports end of input with no bytes.
- Streams.ReadStep: a Go reader may also return bytes together with an error other than `io.EOF`. `CreateChunks` and `UpdateChunks` then discard those bytes, but the stream has already moved past them. The model's failing read hands over nothing and leaves the position where it was. Outcomes are the same; only the stream's position after a failed read differs.
- Streams.Reader.Seek: only a negative offset is refused, as for an in-memory reader; seeking past the end succeeds and the following read reports end of input.
- Streams.Sink.Write: a writer that accepts part of a buffer is not modelled; a write takes all its bytes or fails.
- Path cleaning by `filepath.Join`, and ids containing separators, are not modelled: names are plain keys.
- Concurrency is not modelled; there is no locking in the engine.
- Chunks.ChunkService.UpdateChunks and Segmentation.Resave require non-negative chunk sizes, because Go panics when it makes a buffer of negative length. The chunk lists the engine builds satisfy this.
- ChunkDiff.DiffSelf: requires that no index occurs twice, because a list that repeats an index with different hashes reports differences against itself. `CreateChunks` never builds such a list.
- Files.FileService.Rechunk is a proof decomposition of lines 65-79 of `UpdateFile`, not a function of the source.
- The HTTP handlers, routing and the request and response envelope types are not part of this model.
