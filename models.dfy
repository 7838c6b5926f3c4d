/** The records of the storage engine (internal/models/file.go) and the small
    value types every other module shares. */
module Models {

  /** One byte of file content. */
  newtype byte = x: int | 0 <= x < 256

  /** A wall-clock instant (Go's time.Time), as nanoseconds since the epoch. */
  type Time = int

  /** Largest number of bytes in one chunk: 1 MiB. */
  const ChunkSize: nat := 1024 * 1024

  /** One segment of a file's content, as recorded in the file's metadata.
      Go's int64 and int fields are unbounded integers here. */
  datatype Chunk = Chunk(
    id: string,      // "chunk_" + hash: the name of the stored blob
    hash: string,    // hex digest of the chunk's bytes
    size: int,       // number of bytes in the chunk
    index: int,      // position of the chunk in the file, from 0
    offset: int)     // position of the chunk's first byte in the file

  /** The current description of one stored file. */
  datatype FileMetadata = FileMetadata(
    id: string,
    name: string,
    size: int,
    contentType: string,
    chunks: seq<Chunk>,
    createdAt: Time,
    updatedAt: Time,
    version: int)

  /** The failures the engine reports (the wrapped Go errors, by kind). */
  datatype Error =
    | NotFound(key: string)   // no stored blob or metadata entry under this name
    | Corrupt(key: string)    // a metadata entry exists but cannot be loaded
    | ReadFailed              // the input stream reported an error other than end of input
    | SeekFailed              // the input stream refused to seek
    | WriteFailed             // the output sink refused a write

  datatype Result<T> = Ok(value: T) | Err(error: Error)

  datatype Outcome = Pass | Fail(error: Error)
}
