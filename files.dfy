/** The file store of internal/services/file.go: one metadata record per
    file id in a directory of "<id>.json" entries, built on the chunk store.
    Upload creates a record at version 1, update re-chunks the content and
    bumps the version, download reconstructs the content, list and delete
    complete the operations. */
module Files {
  import opened Models
  import opened Streams
  import opened Segmentation
  import opened ChunkDiff
  import opened Chunks

  /** A directory entry: a record that loads, or one that does not (unreadable
      or not valid JSON). */
  datatype Entry = Record(meta: FileMetadata) | Unreadable

  /** The metadata directory: entry name to entry. */
  type Directory = map<string, Entry>

  const MetadataExt: string := ".json"

  /** Name of the entry that holds a file's metadata. */
  function MetadataName(id: string): string {
    id + MetadataExt
  }

  /** Different ids name different entries. */
  lemma MetadataNameInjective(a: string, b: string)
    ensures MetadataName(a) == MetadataName(b) ==> a == b
  {
    if MetadataName(a) == MetadataName(b) {
      assert a == MetadataName(a)[..|a|];
      assert b == MetadataName(b)[..|b|];
    }
  }

  /** GetFileMetadata: the record stored for `id`; NotFound when there is no
      entry, Corrupt when the entry does not load. */
  function Load(dir: Directory, id: string): (r: Result<FileMetadata>)
    ensures r.Ok? <==> MetadataName(id) in dir && dir[MetadataName(id)].Record?
    ensures r.Ok? ==> dir[MetadataName(id)] == Record(r.value)
    ensures r.Err? ==> (r.error == NotFound(MetadataName(id)) <==> MetadataName(id) !in dir)
  {
    var name := MetadataName(id);
    if name !in dir then Err(NotFound(name))
    else match dir[name]
      case Record(m) => Ok(m)
      case Unreadable => Err(Corrupt(name))
  }

  /** Go's filepath.Ext: the suffix of the last path element that starts at
      its final dot, or "" when that element has no dot. */
  function Ext(path: string): (e: string)
    ensures |e| <= |path|
  {
    ExtFrom(path, |path| - 1)
  }

  /** The backward scan of Ext from position i. */
  function ExtFrom(path: string, i: int): (e: string)
    requires -1 <= i < |path|
    ensures |e| <= |path|
    decreases i + 1
  {
    if i < 0 || path[i] == '/' then ""
    else if path[i] == '.' then path[i..]
    else ExtFrom(path, i - 1)
  }

  /** The scan from position i, everything after which is neither a
      separator nor a dot, yields "" or a suffix of the path that starts
      with a dot and holds no other dot and no separator. */
  lemma {:induction false} ExtFromShape(path: string, i: int)
    requires -1 <= i < |path|
    requires forall j :: i < j < |path| ==> path[j] != '/' && path[j] != '.'
    ensures var e := ExtFrom(path, i);
      && e == path[|path| - |e|..]
      && (e != [] ==> e[0] == '.')
      && (forall j :: 0 <= j < |e| ==> e[j] != '/')
      && (forall j :: 1 <= j < |e| ==> e[j] != '.')
    decreases i + 1
  {
    if 0 <= i && path[i] != '/' && path[i] != '.' {
      ExtFromShape(path, i - 1);
    }
  }

  /** The extension is "" or a suffix of the path made of a dot followed by
      characters that are neither dots nor separators. */
  lemma ExtShape(path: string)
    ensures var e := Ext(path);
      && e == path[|path| - |e|..]
      && (e != [] ==> e[0] == '.')
      && (forall j :: 0 <= j < |e| ==> e[j] != '/')
      && (forall j :: 1 <= j < |e| ==> e[j] != '.')
  {
    ExtFromShape(path, |path| - 1);
  }

  /** An entry name has extension ".json" exactly when it ends in ".json". */
  lemma ExtJson(name: string)
    ensures Ext(name) == MetadataExt <==> IsJsonName(name)
  {
    ExtShape(name);
    var k := |name|;
    if k >= 5 && name[k - 5..] == MetadataExt {
      assert name[k - 5] == '.' && name[k - 4] == 'j' && name[k - 3] == 's'
        && name[k - 2] == 'o' && name[k - 1] == 'n';
      assert ExtFrom(name, k - 5) == MetadataExt;
      assert ExtFrom(name, k - 4) == MetadataExt;
      assert ExtFrom(name, k - 3) == MetadataExt;
      assert ExtFrom(name, k - 2) == MetadataExt;
    }
  }

  /** What ListFiles keeps of one directory entry: the record, when the name
      has extension ".json" and the record under the name without its last
      five characters loads; nothing otherwise. */
  function Pick(dir: Directory, entry: string): (picked: seq<FileMetadata>)
    ensures |picked| <= 1
  {
    if Ext(entry) == MetadataExt then
      match Load(dir, entry[..|entry| - 5])
      case Ok(m) => [m]
      case Err(_) => []
    else []
  }

  /** The records ListFiles returns for a directory listing, in listing order. */
  function Listed(dir: Directory, names: seq<string>): (files: seq<FileMetadata>)
    ensures |files| <= |names|
  {
    if names == [] then []
    else Listed(dir, names[..|names| - 1]) + Pick(dir, names[|names| - 1])
  }

  /** Names that end in ".json". */
  predicate IsJsonName(name: string) {
    |name| >= 5 && name[|name| - 5..] == MetadataExt
  }

  /** Entry `name` of the listing is a ".json" entry holding record `m`. */
  predicate Holds(dir: Directory, name: string, m: FileMetadata) {
    IsJsonName(name) && name in dir && dir[name] == Record(m)
  }

  /** A listing's records are those of all but its last entry, then what
      the last entry yields: its record, when it is a ".json" entry holding
      one. */
  lemma ListedSnoc(dir: Directory, names: seq<string>, m: FileMetadata)
    requires names != []
    ensures m in Listed(dir, names) <==>
      m in Listed(dir, names[..|names| - 1]) || Holds(dir, names[|names| - 1], m)
  {
    var entry := names[|names| - 1];
    assert Listed(dir, names) == Listed(dir, names[..|names| - 1]) + Pick(dir, entry);
    PickHolds(dir, entry, m);
  }

  /** One entry yields record `m` exactly when it is a ".json" entry holding
      it. */
  lemma PickHolds(dir: Directory, entry: string, m: FileMetadata)
    ensures m in Pick(dir, entry) <==> Holds(dir, entry, m)
  {
    ExtJson(entry);
    if IsJsonName(entry) {
      var id := entry[..|entry| - 5];
      assert MetadataName(id) == entry by {
        assert id + entry[|entry| - 5..] == entry;
      }
    }
  }

  /** A record is listed exactly when some ".json" entry of the listing holds
      it; entries that do not load are skipped. */
  lemma {:induction false} ListedMembers(dir: Directory, names: seq<string>, m: FileMetadata)
    ensures m in Listed(dir, names) <==> HeldBySome(dir, names, m)
  {
    if names != [] {
      ListedSnoc(dir, names, m);
      ListedMembers(dir, names[..|names| - 1], m);
      HeldBySomeSnoc(dir, names, m);
    }
  }

  /** Some entry of the listing holds record `m`. */
  predicate HeldBySome(dir: Directory, names: seq<string>, m: FileMetadata) {
    exists k :: 0 <= k < |names| && Holds(dir, names[k], m)
  }

  lemma HeldBySomeSnoc(dir: Directory, names: seq<string>, m: FileMetadata)
    requires names != []
    ensures HeldBySome(dir, names, m) <==>
      HeldBySome(dir, names[..|names| - 1], m) || Holds(dir, names[|names| - 1], m)
  {
    var init := names[..|names| - 1];
    if HeldBySome(dir, init, m) {
      var k :| 0 <= k < |init| && Holds(dir, init[k], m);
      assert names[k] == init[k];
    }
    if HeldBySome(dir, names, m) {
      var k :| 0 <= k < |names| && Holds(dir, names[k], m);
      if k < |init| {
        assert init[k] == names[k];
      }
    }
  }

  /** Listings that name no entry twice, as a directory read gives them. */
  predicate NoRepeats(names: seq<string>) {
    forall i, j :: 0 <= i < j < |names| ==> names[i] != names[j]
  }

  /** In a directory where every record sits under its own id's entry, a
      listing that names no entry twice lists no record twice. */
  lemma {:induction false} ListedOnce(dir: Directory, names: seq<string>, m: FileMetadata)
    requires Filed(dir) && NoRepeats(names)
    ensures multiset(Listed(dir, names))[m] <= 1
  {
    if names != [] {
      var init, last := names[..|names| - 1], names[|names| - 1];
      assert NoRepeats(init) by {
        forall i, j | 0 <= i < j < |init| ensures init[i] != init[j] {
          assert init[i] == names[i] && init[j] == names[j];
        }
      }
      ListedOnce(dir, init, m);
      assert Listed(dir, names) == Listed(dir, init) + Pick(dir, last);
      PickHolds(dir, last, m);
      ListedMembers(dir, init, m);
    }
  }

  /** Listing keeps directory order: the records of a listing split in two
      are those of the first part followed by those of the second. */
  lemma {:induction false} ListedAppend(dir: Directory, a: seq<string>, b: seq<string>)
    ensures Listed(dir, a + b) == Listed(dir, a) + Listed(dir, b)
  {
    if b == [] {
      assert a + b == a;
    } else {
      var b', last := b[..|b| - 1], b[|b| - 1];
      assert (a + b)[..|a + b| - 1] == a + b' && (a + b)[|a + b| - 1] == last;
      assert Listed(dir, a + b) == Listed(dir, a + b') + Pick(dir, last);
      assert Listed(dir, b) == Listed(dir, b') + Pick(dir, last);
      ListedAppend(dir, a, b');
    }
  }

  /** The total size of a chunk list, summed in a loop (file.go:37-39 and
      82-84). */
  method TotalSize(chunks: seq<Chunk>) returns (total: int)
    ensures total == SumSizes(chunks)
  {
    total := 0;
    for i := 0 to |chunks|
      invariant total == SumSizes(chunks[..i])
    {
      assert chunks[..i + 1][..i] == chunks[..i];
      total := total + chunks[i].size;
    }
    assert chunks[..|chunks|] == chunks;
  }

  /** Every record sits under its own id's entry name. */
  ghost predicate Filed(dir: Directory) {
    forall name :: name in dir && dir[name].Record? ==> name == MetadataName(dir[name].meta.id)
  }

  /** Writing a record under its own id's entry name keeps every record
      filed under its own name. */
  lemma FiledPut(dir: Directory, meta: FileMetadata)
    requires Filed(dir)
    ensures Filed(dir[MetadataName(meta.id) := Record(meta)])
  {
  }

  /** The second persist pass of an update: UpdateChunks over the chunks of
      the fresh segmentation `s` that differ from the stored list `olds`,
      reading from the stream where segmentation left it. */
  ghost function SecondPass(m: Blobs, olds: seq<Chunk>, digest: Digest, s: Segmented): Resaved {
    var news := ChunksOf(digest, s.payloads);
    ChangedSized(HashIndex(olds), news);
    Resave(m, Diff(olds, news), s.rest)
  }

  class FileService {
    /** The metadata directory. */
    var dir: Directory
    /** The chunk store the records point into. */
    const chunks: ChunkService

    /** What the service keeps true: every record sits under its own id's
        entry name, and the chunk store is sound. */
    ghost predicate Valid()
      reads this, chunks
    {
      Filed(dir) && chunks.Sound()
    }

    constructor (dir: Directory, chunks: ChunkService)
      ensures this.dir == dir && this.chunks == chunks
    {
      this.dir := dir;
      this.chunks := chunks;
    }

    /** saveFileMetadata: writes the record under its own id's entry name,
        replacing whatever was there; no other entry changes. */
    method SaveFileMetadata(meta: FileMetadata)
      modifies this
      ensures dir == old(dir)[MetadataName(meta.id) := Record(meta)]
    {
      dir := dir[MetadataName(meta.id) := Record(meta)];
    }

    /** GetFileMetadata. */
    method GetFileMetadata(fileId: string) returns (r: Result<FileMetadata>)
      ensures r == Load(dir, fileId)
      ensures r.Ok? ==> MetadataName(fileId) in dir && dir[MetadataName(fileId)] == Record(r.value)
    {
      var name := MetadataName(fileId);
      if name !in dir {
        return Err(NotFound(name));
      }
      match dir[name]
      case Record(m) => r := Ok(m);
      case Unreadable => r := Err(Corrupt(name));
    }

    /** UploadFile: chunks the stream and stores a version-1 record under the
        given id, whose size is the sum of the chunk sizes. When chunking
        fails no record is written, though the chunks saved so far stay. */
    method UploadFile(name: string, contentType: string, reader: Reader, fileId: string,
                      createdAt: Time, updatedAt: Time) returns (r: Result<FileMetadata>)
      modifies this, chunks, reader
      ensures var s := Segment(old(reader.State()));
        var cs := ChunksOf(chunks.digest, s.payloads);
        && reader.State() == s.rest
        && chunks.blobs == SaveAll(old(chunks.blobs), chunks.digest, s.payloads)
        && (s.failed ==> r == Err(ReadFailed) && dir == old(dir))
        && (!s.failed ==>
              && r == Ok(FileMetadata(fileId, name, SumSizes(cs), contentType, cs, createdAt, updatedAt, 1))
              && dir == old(dir)[MetadataName(fileId) := Record(r.value)])
      ensures old(Valid()) ==> Valid()
    {
      var created := chunks.CreateChunks(reader);
      if created.Err? {
        return Err(created.error);
      }
      var cs := created.value;
      var totalSize := TotalSize(cs);
      var meta := FileMetadata(fileId, name, totalSize, contentType, cs, createdAt, updatedAt, 1);
      SaveFileMetadata(meta);
      r := Ok(meta);
    }

    /** The middle of UpdateFile (file.go:65-79): re-chunks the whole
        stream, diffs the new chunk list against the stored list `olds` and,
        when some chunk changed, runs the second persist pass. Yields the new
        chunk list, or the first error. */
    method Rechunk(olds: seq<Chunk>, reader: Reader) returns (r: Result<seq<Chunk>>)
      modifies chunks, reader
      ensures var s := Segment(old(reader.State()));
        var news := ChunksOf(chunks.digest, s.payloads);
        && chunks.blobs == SaveAll(old(chunks.blobs), chunks.digest, s.payloads)
        && (s.failed ==> r == Err(ReadFailed) && reader.State() == s.rest)
        && (!s.failed && Diff(olds, news) == [] ==> r == Ok(news) && reader.State() == s.rest)
        && (!s.failed && Diff(olds, news) != [] ==>
              var pass := SecondPass(chunks.blobs, olds, chunks.digest, s);
              && reader.State() == pass.rest
              && r == if pass.outcome.Pass? then Ok(news) else Err(pass.outcome.error))
      ensures old(chunks.Sound()) ==> chunks.Sound()
    {
      var created := chunks.CreateChunks(reader);
      if created.Err? {
        return Err(created.error);
      }
      var newChunks := created.value;
      var changed := chunks.CompareChunks(olds, newChunks);
      if |changed| > 0 {
        forall i | 0 <= i < |changed|
          ensures changed[i].id in chunks.blobs
        {
          assert changed[i] in changed;
        }
        ChangedSized(HashIndex(olds), newChunks);
        ResaveWriteOnce(chunks.blobs, changed, reader.State());
        var o := chunks.UpdateChunks(changed, reader);
        if o.Fail? {
          return Err(o.error);
        }
      }
      r := Ok(newChunks);
    }

    /** UpdateFile: loads the record, re-chunks the stream (Rechunk) and
        replaces the record with one carrying the new chunk list and size,
        the new update time and the next version; id, name, content type and
        creation time are kept. A missing record fails before anything is
        read or written; a failed re-chunk writes no record. */
    method UpdateFile(fileId: string, reader: Reader, now: Time) returns (r: Result<FileMetadata>)
      modifies this, chunks, reader
      ensures Load(old(dir), fileId).Err? ==>
        && r == Err(Load(old(dir), fileId).error)
        && dir == old(dir) && chunks.blobs == old(chunks.blobs) && reader.State() == old(reader.State())
      ensures Load(old(dir), fileId).Ok? ==>
        var prev := Load(old(dir), fileId).value;
        var s := Segment(old(reader.State()));
        var news := ChunksOf(chunks.digest, s.payloads);
        && chunks.blobs == SaveAll(old(chunks.blobs), chunks.digest, s.payloads)
        && (s.failed ==> r == Err(ReadFailed) && reader.State() == s.rest)
        && (!s.failed && Diff(prev.chunks, news) == [] ==> r.Ok? && reader.State() == s.rest)
        && (!s.failed && Diff(prev.chunks, news) != [] ==>
              var pass := SecondPass(chunks.blobs, prev.chunks, chunks.digest, s);
              && reader.State() == pass.rest
              && (r.Ok? <==> pass.outcome.Pass?)
              && (pass.outcome.Fail? ==> r == Err(pass.outcome.error)))
        && (r.Err? ==> dir == old(dir))
        && (r.Ok? ==>
              && r.value == prev.(chunks := news, size := SumSizes(news), updatedAt := now,
                                  version := prev.version + 1)
              && dir == old(dir)[MetadataName(prev.id) := Record(r.value)])
      ensures old(Valid()) && r.Ok? ==> r.value.id == fileId
      ensures old(Valid()) ==> Valid()
    {
      ghost var wasFiled := Filed(dir);
      var loaded := GetFileMetadata(fileId);
      if loaded.Err? {
        return Err(loaded.error);
      }
      var existingFile := loaded.value;
      if wasFiled {
        MetadataNameInjective(fileId, existingFile.id);
      }
      var rechunked := Rechunk(existingFile.chunks, reader);
      if rechunked.Err? {
        return Err(rechunked.error);
      }
      var newChunks := rechunked.value;
      var totalSize := TotalSize(newChunks);
      existingFile := existingFile.(chunks := newChunks, size := totalSize, updatedAt := now,
                                    version := existingFile.version + 1);
      if wasFiled {
        FiledPut(dir, existingFile);
      }
      SaveFileMetadata(existingFile);
      r := Ok(existingFile);
    }

    /** DownloadFile: loads the record and reconstructs its content into the
        sink; a failed reconstruction fails the download, with the bytes
        written so far left in the sink. */
    method DownloadFile(fileId: string, sink: Sink) returns (r: Result<FileMetadata>)
      modifies sink
      ensures Load(dir, fileId).Err? ==>
        r == Err(Load(dir, fileId).error) && sink.written == old(sink.written)
      ensures Load(dir, fileId).Ok? ==>
        var rb := Rebuild(chunks.blobs, Load(dir, fileId).value.chunks, old(sink.accepts));
        && sink.written == old(sink.written) + rb.out
        && r == if rb.outcome.Pass? then Ok(Load(dir, fileId).value) else Err(rb.outcome.error)
    {
      var loaded := GetFileMetadata(fileId);
      if loaded.Err? {
        return Err(loaded.error);
      }
      var o := chunks.ReconstructFile(loaded.value.chunks, sink);
      if o.Fail? {
        return Err(o.error);
      }
      r := loaded;
    }

    /** ListFiles over the directory listing `names` (the entry names in the
        order the directory gives them). */
    method ListFiles(names: seq<string>) returns (files: seq<FileMetadata>)
      requires forall n :: n in names <==> n in dir
      requires NoRepeats(names)
      ensures files == Listed(dir, names)
      ensures forall m :: m in files <==> exists k :: 0 <= k < |names| && Holds(dir, names[k], m)
      ensures forall id :: Load(dir, id).Ok? ==> Load(dir, id).value in files
      ensures Filed(dir) ==> forall m :: multiset(files)[m] <= 1
    {
      files := [];
      for i := 0 to |names|
        invariant files == Listed(dir, names[..i])
      {
        assert names[..i + 1][..i] == names[..i];
        var entry := names[i];
        if Ext(entry) == MetadataExt {
          var fileId := entry[..|entry| - 5];
          var metadata := GetFileMetadata(fileId);
          if metadata.Ok? {
            files := files + [metadata.value];
          }
        }
      }
      assert names[..|names|] == names;
      forall m ensures m in files <==> exists k :: 0 <= k < |names| && Holds(dir, names[k], m) {
        ListedMembers(dir, names, m);
      }
      forall id | Load(dir, id).Ok? ensures Load(dir, id).value in files {
        var name := MetadataName(id);
        assert IsJsonName(name) by {
          assert name[|name| - 5..] == MetadataExt;
        }
        var k :| 0 <= k < |names| && names[k] == name;
        assert Holds(dir, names[k], Load(dir, id).value);
        ListedMembers(dir, names, Load(dir, id).value);
      }
      if Filed(dir) {
        forall m ensures multiset(files)[m] <= 1 {
          ListedOnce(dir, names, m);
        }
      }
    }

    /** DeleteFile: fails when the record does not load; otherwise removes
        that one entry. Chunks are never removed. */
    method DeleteFile(fileId: string) returns (o: Outcome)
      modifies this
      ensures Load(old(dir), fileId).Err? ==> o == Fail(Load(old(dir), fileId).error) && dir == old(dir)
      ensures Load(old(dir), fileId).Ok? ==> o == Pass && dir == old(dir) - {MetadataName(fileId)}
      ensures Load(dir, fileId).Err?
      ensures chunks.blobs == old(chunks.blobs)
      ensures old(Valid()) ==> Valid()
    {
      var loaded := GetFileMetadata(fileId);
      if loaded.Err? {
        return Fail(loaded.error);
      }
      dir := dir - {MetadataName(fileId)};
      o := Pass;
    }
  }
}
