/** End-to-end properties of the file service, each stated as a caller that
    runs several operations in a row. */
module Workflows {
  import opened Models
  import opened Streams
  import opened Segmentation
  import opened ChunkDiff
  import opened Chunks
  import opened Files

  /** Upload then download: the download returns the uploaded record and
      writes exactly the bytes the upload consumed from the stream. A
      stream that fills every read is consumed to its end, so the upload
      succeeds and the whole content comes back. */
  method UploadThenDownload(fs: FileService, name: string, contentType: string, reader: Reader,
                            fileId: string, createdAt: Time, updatedAt: Time, sink: Sink)
      returns (up: Result<FileMetadata>, down: Result<FileMetadata>)
    requires fs.chunks.Sound() && Injective(fs.chunks.digest)
    requires reader.pos <= |reader.data| && sink.accepts >= |reader.data|
    modifies fs, fs.chunks, reader, sink
    ensures up.Ok? ==> down == Ok(up.value)
    ensures up.Ok? ==>
      && old(reader.pos) <= reader.pos <= |reader.data|
      && sink.written == old(sink.written) + reader.data[old(reader.pos)..reader.pos]
    ensures old(reader.plan) == [] ==> up.Ok? && reader.pos == |reader.data|
  {
    ghost var c := reader.State();
    ghost var d := fs.chunks.digest;
    ghost var ps := Segment(c).payloads;
    ghost var rb := Rebuild(SaveAll(fs.chunks.blobs, d, ps), ChunksOf(d, ps), sink.accepts);
    if c.plan == [] {
      SegmentFullReads(c);
    }
    StreamRoundTrip(fs.chunks.blobs, d, c, sink.accepts);
    assert rb.out == c.data[c.pos..Segment(c).rest.pos] by {
      assert rb.out <= c.data[c.pos..];
    }
    up := fs.UploadFile(name, contentType, reader, fileId, createdAt, updatedAt);
    if up.Err? {
      down := up;
      return;
    }
    assert Load(fs.dir, fileId) == up && up.value.chunks == ChunksOf(d, ps);
    down := fs.DownloadFile(fileId, sink);
  }

  /** Delete then access: once the record is gone, reading its metadata,
      updating it and downloading it all fail, without reading the stream or
      writing to the sink; the metadata read reports NotFound when the
      delete succeeded. */
  method DeleteThenAccess(fs: FileService, fileId: string, reader: Reader, now: Time, sink: Sink)
      returns (o: Outcome, got: Result<FileMetadata>, updated: Result<FileMetadata>,
               downloaded: Result<FileMetadata>)
    modifies fs, fs.chunks, reader, sink
    ensures got.Err? && updated.Err? && downloaded.Err?
    ensures o.Pass? ==> got == Err(NotFound(MetadataName(fileId)))
    ensures reader.State() == old(reader.State()) && sink.written == old(sink.written)
    ensures fs.chunks.blobs == old(fs.chunks.blobs)
  {
    o := fs.DeleteFile(fileId);
    got := fs.GetFileMetadata(fileId);
    updated := fs.UpdateFile(fileId, reader, now);
    downloaded := fs.DownloadFile(fileId, sink);
  }

  /** Updating a file with the content it already holds: the differ reports
      nothing, so the second persist pass is skipped and the stream is left
      where chunking left it; the new record keeps the chunk list and has the
      next version. */
  method UpdateWithSameContent(fs: FileService, fileId: string, reader: Reader, now: Time)
      returns (r: Result<FileMetadata>)
    requires Load(fs.dir, fileId).Ok?
    requires !Segment(reader.State()).failed
    requires Load(fs.dir, fileId).value.chunks == ChunksOf(fs.chunks.digest, Segment(reader.State()).payloads)
    modifies fs, fs.chunks, reader
    ensures r.Ok?
    ensures r.value.chunks == old(Load(fs.dir, fileId).value.chunks)
    ensures r.value.version == old(Load(fs.dir, fileId).value.version) + 1
    ensures reader.State() == Segment(old(reader.State())).rest
  {
    ghost var c := reader.State();
    ghost var cs := ChunksOf(fs.chunks.digest, Segment(c).payloads);
    SegmentedChunks(fs.chunks.blobs, fs.chunks.digest, c);
    assert DistinctIndices(cs) by {
      assert WellIndexed(cs);
    }
    DiffSelf(cs);
    r := fs.UpdateFile(fileId, reader, now);
  }
}
