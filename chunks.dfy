/** The chunk store of internal/services/chunk.go: a write-once,
    content-addressed directory of blobs, the loop that cuts a stream into
    chunks, the positional diff, the second persist pass of an update and
    reconstruction. Each method is proved against the functions of module
    Segmentation or ChunkDiff. */
module Chunks {
  import opened Models
  import opened Streams
  import opened Segmentation
  import opened ChunkDiff

  class ChunkService {
    /** The chunk directory. */
    var blobs: Blobs
    /** How a chunk's bytes are hashed (SHA-256, hex). */
    const digest: Digest

    /** Every blob is stored under its own content id. */
    ghost predicate Sound()
      reads this
    {
      StoreSound(blobs, digest)
    }

    constructor (digest: Digest, blobs: Blobs)
      ensures this.digest == digest && this.blobs == blobs
    {
      this.digest := digest;
      this.blobs := blobs;
    }

    /** saveChunk: writes `data` under `id` unless a blob of that name
        exists, in which case nothing changes. */
    method SaveChunk(id: string, data: seq<byte>)
      modifies this
      ensures blobs == Save(old(blobs), id, data)
    {
      if id !in blobs {
        blobs := blobs[id := data];
      }
    }

    /** ReadChunk: the blob stored under `id`, or NotFound. */
    method ReadChunk(id: string) returns (r: Result<seq<byte>>)
      ensures id in blobs ==> r == Ok(blobs[id])
      ensures id !in blobs ==> r == Err(NotFound(id))
    {
      if id in blobs {
        r := Ok(blobs[id]);
      } else {
        r := Err(NotFound(id));
      }
    }

    /** CreateChunks: reads the stream with a reused ChunkSize buffer, makes
        one chunk record per non-empty read and saves its bytes at once. A
        read error discards the list but keeps the blobs already saved. */
    method CreateChunks(reader: Reader) returns (r: Result<seq<Chunk>>)
      modifies this, reader
      ensures var s := Segment(old(reader.State()));
        && reader.State() == s.rest
        && blobs == SaveAll(old(blobs), digest, s.payloads)
        && r == if s.failed then Err(ReadFailed) else Ok(ChunksOf(digest, s.payloads))
      ensures r.Ok? ==> WellLaidOut(r.value)
      ensures r.Ok? ==> forall i :: 0 <= i < |r.value| ==> r.value[i].id in blobs
      ensures r.Ok? ==> SumSizes(r.value) == |Flatten(Segment(old(reader.State())).payloads)|
      ensures old(Sound()) ==> Sound()
    {
      ghost var start := reader.State();
      ghost var done: seq<seq<byte>> := [];
      ResumesStart(start);
      var chunks: seq<Chunk> := [];
      var buffer := new byte[ChunkSize];
      var chunkIndex := 0;
      var totalOffset := 0;
      while true
        invariant buffer.Length == ChunkSize
        invariant Resumes(start, done, reader.State())
        invariant blobs == SaveAll(old(blobs), digest, done)
        invariant chunks == ChunksOf(digest, done)
        invariant chunkIndex == |done| && totalOffset == |Flatten(done)|
        decreases Remaining(reader.State())
      {
        ghost var before := reader.State();
        var n, status := reader.Read(buffer);
        if status == Broken {
          ResumesStop(start, done, before);
          SegmentedChunks(old(blobs), digest, start);
          r := Err(ReadFailed);
          return;
        }
        if n == 0 {
          ResumesStop(start, done, before);
          SegmentedChunks(old(blobs), digest, start);
          break;
        }
        var chunkData := buffer[..n];
        var hash := digest(chunkData);
        var chunkId := ChunkPrefix + hash;
        var chunk := Chunk(chunkId, hash, n, chunkIndex, totalOffset);
        SaveChunk(chunkId, chunkData);
        AppendPayload(old(blobs), digest, done, chunkData);
        ResumesAdvance(start, done, before);
        chunks := chunks + [chunk];
        chunkIndex := chunkIndex + 1;
        totalOffset := totalOffset + n;
        done := done + [chunkData];
      }
      r := Ok(chunks);
    }

    /** CompareChunks: builds the index-to-hash map of the old list, then
        keeps, in order, the new chunks whose index is missing from it or
        whose hash differs. It never fails. */
    method CompareChunks(olds: seq<Chunk>, news: seq<Chunk>) returns (changed: seq<Chunk>)
      ensures changed == Diff(olds, news)
      ensures forall c :: c in changed <==> c in news && Differs(HashIndex(olds), c)
    {
      var oldChunkMap: map<int, string> := map[];
      for i := 0 to |olds|
        invariant oldChunkMap == HashIndex(olds[..i])
      {
        assert olds[..i + 1][..i] == olds[..i];
        oldChunkMap := oldChunkMap[olds[i].index := olds[i].hash];
      }
      assert olds[..|olds|] == olds;
      changed := [];
      for i := 0 to |news|
        invariant changed == Changed(oldChunkMap, news[..i])
      {
        assert news[..i + 1][..i] == news[..i];
        var c := news[i];
        if c.index !in oldChunkMap || oldChunkMap[c.index] != c.hash {
          changed := changed + [c];
        }
      }
      assert news[..|news|] == news;
      ChangedMembers(oldChunkMap, news);
    }

    /** UpdateChunks: for each changed chunk, seeks to its offset, reads up
        to its size into a fresh buffer and saves what was read under its
        id. Stops at the first seek or read error. */
    method UpdateChunks(changed: seq<Chunk>, reader: Reader) returns (o: Outcome)
      requires forall i :: 0 <= i < |changed| ==> changed[i].size >= 0
      modifies this, reader
      ensures Resaved(blobs, reader.State(), o) == Resave(old(blobs), changed, old(reader.State()))
    {
      ghost var goal := Resave(blobs, changed, reader.State());
      var i := 0;
      while i < |changed|
        invariant 0 <= i <= |changed|
        invariant Resave(blobs, changed[i..], reader.State()) == goal
      {
        var chunk := changed[i];
        assert changed[i..][1..] == changed[i + 1..];
        var ok := reader.Seek(chunk.offset);
        if !ok {
          return Fail(SeekFailed);
        }
        var chunkData := new byte[chunk.size];
        var n, status := reader.Read(chunkData);
        if status == Broken {
          return Fail(ReadFailed);
        }
        SaveChunk(chunk.id, chunkData[..n]);
        i := i + 1;
      }
      o := Pass;
    }

    /** ReconstructFile: fetches each chunk's blob in list order and writes
        it to the sink; stops at the first missing blob or refused write,
        with what was written so far left in the sink. */
    method ReconstructFile(chunks: seq<Chunk>, sink: Sink) returns (o: Outcome)
      modifies sink
      ensures var rb := Rebuild(blobs, chunks, old(sink.accepts));
        sink.written == old(sink.written) + rb.out && o == rb.outcome
    {
      ghost var goal := Rebuild(blobs, chunks, sink.accepts);
      for i := 0 to |chunks|
        invariant old(sink.written) + goal.out
          == sink.written + Rebuild(blobs, chunks[i..], sink.accepts).out
        invariant Rebuild(blobs, chunks[i..], sink.accepts).outcome == goal.outcome
      {
        assert chunks[i..][1..] == chunks[i + 1..];
        var chunkData := ReadChunk(chunks[i].id);
        if chunkData.Err? {
          return Fail(chunkData.error);
        }
        var ok := sink.Write(chunkData.value);
        if !ok {
          return Fail(WriteFailed);
        }
      }
      o := Pass;
    }
  }
}
