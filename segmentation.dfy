/** What chunk.go computes, as functions: the segmentation of a stream into
    chunk payloads, the chunk records made from them, the write-once blob
    store, reconstruction of a stream from a chunk list and the second
    persist pass of an update. The ChunkService class (chunks.dfy) is proved
    against these functions; the lemmas here state what the source promises
    about them. */
module Segmentation {
  import opened Models
  import opened Streams

  /** The chunk directory: blob name to blob bytes. */
  type Blobs = map<string, seq<byte>>

  /** The content digest (SHA-256 in hex), supplied by the caller. */
  type Digest = seq<byte> -> string

  const ChunkPrefix: string := "chunk_"

  /** Name of the blob holding `data`: a function of the bytes alone. */
  function ChunkId(digest: Digest, data: seq<byte>): (id: string)
    ensures |id| == |ChunkPrefix| + |digest(data)|
    ensures id[..|ChunkPrefix|] == ChunkPrefix && id[|ChunkPrefix|..] == digest(data)
  {
    ChunkPrefix + digest(data)
  }

  ghost predicate Injective(digest: Digest) {
    forall a, b :: digest(a) == digest(b) ==> a == b
  }

  // ---------------------------------------------------------------------
  // Concatenation and sizes

  /** The payloads laid end to end, in order. */
  function Flatten(ps: seq<seq<byte>>): seq<byte> {
    if ps == [] then [] else Flatten(ps[..|ps| - 1]) + ps[|ps| - 1]
  }

  lemma {:induction false} FlattenAppend(a: seq<seq<byte>>, b: seq<seq<byte>>)
    ensures Flatten(a + b) == Flatten(a) + Flatten(b)
  {
    if b == [] {
      assert a + b == a;
    } else {
      var b' := b[..|b| - 1];
      assert (a + b)[..|a + b| - 1] == a + b';
      FlattenAppend(a, b');
    }
  }

  lemma FlattenCons(p: seq<byte>, ps: seq<seq<byte>>)
    ensures Flatten([p] + ps) == p + Flatten(ps)
  {
    FlattenAppend([p], ps);
    assert Flatten([p]) == Flatten([]) + p;
  }

  /** A list of non-empty payloads is no longer than its concatenation. */
  lemma {:induction false} FlattenLength(ps: seq<seq<byte>>)
    requires forall i :: 0 <= i < |ps| ==> |ps[i]| >= 1
    ensures |ps| <= |Flatten(ps)|
  {
    if ps != [] {
      FlattenLength(ps[..|ps| - 1]);
    }
  }

  /** The sum of the chunks' sizes (the loops at file.go:37-39 and 82-84). */
  function SumSizes(cs: seq<Chunk>): int {
    if cs == [] then 0 else SumSizes(cs[..|cs| - 1]) + cs[|cs| - 1].size
  }

  // ---------------------------------------------------------------------
  // Chunk records

  /** The record CreateChunks makes for the i-th payload of a stream. */
  function ChunkAt(digest: Digest, ps: seq<seq<byte>>, i: nat): Chunk
    requires i < |ps|
  {
    Chunk(ChunkId(digest, ps[i]), digest(ps[i]), |ps[i]|, i, |Flatten(ps[..i])|)
  }

  /** The chunk list CreateChunks returns for the payloads `ps`. */
  function ChunksOf(digest: Digest, ps: seq<seq<byte>>): (cs: seq<Chunk>)
    ensures |cs| == |ps|
  {
    seq(|ps|, i requires 0 <= i < |ps| => ChunkAt(digest, ps, i))
  }

  lemma ChunksOfSnoc(digest: Digest, ps: seq<seq<byte>>, p: seq<byte>)
    ensures ChunksOf(digest, ps + [p]) == ChunksOf(digest, ps) + [ChunkAt(digest, ps + [p], |ps|)]
  {
    var ps' := ps + [p];
    forall i | 0 <= i < |ps|
      ensures ChunksOf(digest, ps')[i] == ChunksOf(digest, ps)[i]
    {
      assert ps'[..i] == ps[..i];
    }
  }

  /** Layout of a chunk list: indices 0, 1, 2, ... with no gap, each offset
      the total size of the chunks before it, sizes between 1 and ChunkSize,
      and each id the prefixed hash. */
  ghost predicate WellLaidOut(cs: seq<Chunk>) {
    forall i :: 0 <= i < |cs| ==>
      && cs[i].index == i
      && cs[i].offset == SumSizes(cs[..i])
      && 1 <= cs[i].size <= ChunkSize
      && cs[i].id == ChunkPrefix + cs[i].hash
  }

  lemma {:induction false} PrefixSizes(digest: Digest, ps: seq<seq<byte>>, i: nat)
    requires i <= |ps|
    ensures SumSizes(ChunksOf(digest, ps)[..i]) == |Flatten(ps[..i])|
  {
    if i > 0 {
      var cs := ChunksOf(digest, ps);
      PrefixSizes(digest, ps, i - 1);
      assert cs[..i][..i - 1] == cs[..i - 1];
      assert ps[..i][..i - 1] == ps[..i - 1];
    }
  }

  /** Chunk records made from payloads of 1 to ChunkSize bytes are laid out
      as WellLaidOut says, name each payload by its digest, and their sizes
      add up to the length of the concatenated payloads. */
  lemma ChunksOfLayout(digest: Digest, ps: seq<seq<byte>>)
    requires forall i :: 0 <= i < |ps| ==> 1 <= |ps[i]| <= ChunkSize
    ensures WellLaidOut(ChunksOf(digest, ps))
    ensures forall i :: 0 <= i < |ps| ==>
      ChunksOf(digest, ps)[i].hash == digest(ps[i]) && ChunksOf(digest, ps)[i].size == |ps[i]|
    ensures SumSizes(ChunksOf(digest, ps)) == |Flatten(ps)|
  {
    var cs := ChunksOf(digest, ps);
    forall i | 0 <= i < |cs|
      ensures cs[i].offset == SumSizes(cs[..i])
    {
      PrefixSizes(digest, ps, i);
    }
    PrefixSizes(digest, ps, |ps|);
    assert cs[..|cs|] == cs && ps[..|ps|] == ps;
  }

  /** Byte-identical payloads get the same id, wherever they occur and
      whatever the digest; with a collision-free digest different payloads
      get different ids. */
  lemma SameBytesSameId(digest: Digest, ps: seq<seq<byte>>, qs: seq<seq<byte>>, i: nat, j: nat)
    requires i < |ps| && j < |qs|
    ensures ps[i] == qs[j] ==> ChunksOf(digest, ps)[i].id == ChunksOf(digest, qs)[j].id
    ensures Injective(digest) && ChunksOf(digest, ps)[i].id == ChunksOf(digest, qs)[j].id ==> ps[i] == qs[j]
  {
    var a, b := ChunkId(digest, ps[i]), ChunkId(digest, qs[j]);
    if a == b {
      assert a[|ChunkPrefix|..] == b[|ChunkPrefix|..];
    }
  }

  // ---------------------------------------------------------------------
  // Segmentation (CreateChunks, chunk.go:27-66)

  /** The payloads read from a stream, whether a read error ended the run,
      and the stream's state afterwards. */
  datatype Segmented = Segmented(payloads: seq<seq<byte>>, failed: bool, rest: Cursor)

  /** Reads with a ChunkSize buffer until a read hands over nothing (end of
      input, or a read that returns no bytes and no error) or fails; each
      non-empty read is one payload. */
  function Segment(c: Cursor): (s: Segmented)
    ensures s.rest.data == c.data
    ensures Remaining(c) == 0 ==> s.payloads == []
    ensures c.plan != [] && c.plan[0] == Deliver(0) ==> s.payloads == [] && !s.failed
    decreases Remaining(c)
  {
    var r := ReadStep(c, ChunkSize);
    if r.status == Broken then Segmented([], true, r.after)
    else if r.n == 0 then Segmented([], false, r.after)
    else
      var s := Segment(r.after);
      Segmented([Taken(c, r.n)] + s.payloads, s.failed, s.rest)
  }

  /** Every payload holds between 1 and ChunkSize bytes. */
  lemma {:induction false} SegmentBounds(c: Cursor)
    ensures forall i :: 0 <= i < |Segment(c).payloads| ==> 1 <= |Segment(c).payloads[i]| <= ChunkSize
    decreases Remaining(c)
  {
    var r := ReadStep(c, ChunkSize);
    if r.status != Broken && r.n != 0 {
      SegmentBounds(r.after);
    }
  }

  /** n bytes at the read position followed by k bytes at the position n
      further on are the n + k bytes at the read position. */
  lemma TakenSplit(c: Cursor, d: Cursor, n: nat, k: nat)
    requires n <= Remaining(c) && d.data == c.data && d.pos == c.pos + n && k <= Remaining(d)
    ensures n + k <= Remaining(c)
    ensures Taken(c, n) + Taken(d, k) == Taken(c, n + k)
  {
    var joined := Taken(c, n) + Taken(d, k);
    forall i | 0 <= i < n + k
      ensures joined[i] == Taken(c, n + k)[i]
    {
      if i >= n {
        assert joined[i] == Taken(d, k)[i - n];
      }
    }
  }

  /** The payloads, laid end to end, are exactly the bytes the reads
      consumed: those between the old and the new read position. */
  lemma {:induction false} SegmentConsumes(c: Cursor)
    ensures |Flatten(Segment(c).payloads)| <= Remaining(c)
    ensures Segment(c).rest.pos == c.pos + |Flatten(Segment(c).payloads)|
    ensures Flatten(Segment(c).payloads) == Taken(c, |Flatten(Segment(c).payloads)|)
    decreases Remaining(c)
  {
    var r := ReadStep(c, ChunkSize);
    if r.status != Broken && r.n != 0 {
      var s := Segment(r.after);
      SegmentConsumes(r.after);
      var head := Taken(c, r.n);
      assert Segment(c).payloads == [head] + s.payloads;
      FlattenCons(head, s.payloads);
      TakenSplit(c, r.after, r.n, |Flatten(s.payloads)|);
    }
  }

  /** With full reads (an empty schedule) segmentation never fails, reads to
      the end of the stream, and cuts it into ceil(L / ChunkSize) payloads
      of which all but the last hold exactly ChunkSize bytes. */
  lemma {:induction false} SegmentFullReads(c: Cursor)
    requires c.plan == [] && c.pos <= |c.data|
    ensures !Segment(c).failed
    ensures Segment(c).rest.pos == |c.data|
    ensures |Segment(c).payloads| == (Remaining(c) + ChunkSize - 1) / ChunkSize
    ensures forall i :: 0 <= i < |Segment(c).payloads| - 1 ==> |Segment(c).payloads[i]| == ChunkSize
    decreases Remaining(c)
  {
    var r := ReadStep(c, ChunkSize);
    if Remaining(c) > 0 {
      assert r.status == Good && r.n == Min(ChunkSize, Remaining(c));
      SegmentFullReads(r.after);
      var s := Segment(r.after);
      assert Segment(c).payloads == [Taken(c, r.n)] + s.payloads;
      CeilStep(Remaining(c));
    }
  }

  /** Taking one read of up to ChunkSize bytes off L > 0 bytes leaves one
      chunk fewer to make. */
  lemma CeilStep(L: nat)
    requires L > 0
    ensures (L - Min(ChunkSize, L) + ChunkSize - 1) / ChunkSize + 1 == (L + ChunkSize - 1) / ChunkSize
  {
    if L > ChunkSize {
      assert L - Min(ChunkSize, L) + ChunkSize - 1 == (L + ChunkSize - 1) - ChunkSize;
    }
  }

  /** The example of a 2.5 MiB upload read in full: three chunks of 1 MiB,
      1 MiB and 0.5 MiB, 2621440 bytes in all. */
  lemma FullReadExample(digest: Digest, data: seq<byte>)
    requires |data| == 2621440
    ensures var cs := ChunksOf(digest, Segment(Cursor(data, 0, [])).payloads);
      && |cs| == 3
      && cs[0].size == 1048576 && cs[1].size == 1048576 && cs[2].size == 524288
      && SumSizes(cs) == 2621440
  {
    var c := Cursor(data, 0, []);
    var ps := Segment(c).payloads;
    SegmentFullReads(c);
    SegmentConsumes(c);
    SegmentBounds(c);
    ChunksOfLayout(digest, ps);
    assert |ps| == 3;
    assert ps[..2][..1] == ps[..1] && ps[..1][..0] == [];
    assert Flatten(ps) == Flatten(ps[..2]) + ps[2];
    assert Flatten(ps[..2]) == Flatten(ps[..1]) + ps[1];
    assert Flatten(ps[..1]) == Flatten([]) + ps[0];
  }

  // ---------------------------------------------------------------------
  // The write-once blob store (saveChunk, chunk.go:68-83)

  /** saveChunk: a name that is already stored keeps its bytes, even when
      the new bytes differ; otherwise the name is added. */
  function Save(m: Blobs, id: string, data: seq<byte>): (m': Blobs)
    ensures m'.Keys == m.Keys + {id}
    ensures forall k :: k in m ==> m'[k] == m[k]
    ensures id !in m ==> m'[id] == data
  {
    if id in m then m else m[id := data]
  }

  /** Saving the same name twice is saving it once, whatever the second
      bytes are. */
  lemma SaveTwice(m: Blobs, id: string, data: seq<byte>, data': seq<byte>)
    ensures Save(Save(m, id, data), id, data') == Save(m, id, data)
  {
  }

  /** The saves of CreateChunks, one per payload, in order. */
  function SaveAll(m: Blobs, digest: Digest, ps: seq<seq<byte>>): (m': Blobs)
    ensures m.Keys <= m'.Keys
  {
    if ps == [] then m
    else
      var p := ps[|ps| - 1];
      Save(SaveAll(m, digest, ps[..|ps| - 1]), ChunkId(digest, p), p)
  }

  /** The store invariant: every blob is stored under its own content id. */
  ghost predicate StoreSound(m: Blobs, digest: Digest) {
    forall k :: k in m ==> k == ChunkId(digest, m[k])
  }

  /** After the saves every payload's id is stored and nothing stored
      before has changed. */
  lemma {:induction false} SaveAllGrows(m: Blobs, digest: Digest, ps: seq<seq<byte>>)
    ensures forall i :: 0 <= i < |ps| ==> ChunkId(digest, ps[i]) in SaveAll(m, digest, ps)
    ensures forall k :: k in m ==> k in SaveAll(m, digest, ps) && SaveAll(m, digest, ps)[k] == m[k]
  {
    if ps != [] {
      SaveAllGrows(m, digest, ps[..|ps| - 1]);
    }
  }

  /** The saves add no name other than the payloads' ids, and a sound store
      stays sound. */
  lemma {:induction false} SaveAllOnlyPayloads(m: Blobs, digest: Digest, ps: seq<seq<byte>>)
    ensures forall k :: k in SaveAll(m, digest, ps) ==> k in m || exists i :: 0 <= i < |ps| && k == ChunkId(digest, ps[i])
    ensures StoreSound(m, digest) ==> StoreSound(SaveAll(m, digest, ps), digest)
  {
    if ps != [] {
      var init := ps[..|ps| - 1];
      SaveAllOnlyPayloads(m, digest, init);
      forall k | k in SaveAll(m, digest, ps)
        ensures k in m || exists i :: 0 <= i < |ps| && k == ChunkId(digest, ps[i])
      {
        if k !in SaveAll(m, digest, init) {
          assert k == ChunkId(digest, ps[|ps| - 1]);
        } else if k !in m {
          var i :| 0 <= i < |init| && k == ChunkId(digest, init[i]);
          assert init[i] == ps[i];
        }
      }
    }
  }

  /** One more payload: its save, its chunk record and its bytes go after
      those of the payloads before it. */
  lemma AppendPayload(m: Blobs, digest: Digest, done: seq<seq<byte>>, p: seq<byte>)
    ensures SaveAll(m, digest, done + [p]) == Save(SaveAll(m, digest, done), ChunkId(digest, p), p)
    ensures ChunksOf(digest, done + [p])
      == ChunksOf(digest, done) + [Chunk(ChunkId(digest, p), digest(p), |p|, |done|, |Flatten(done)|)]
    ensures Flatten(done + [p]) == Flatten(done) + p
  {
    assert (done + [p])[..|done|] == done;
    ChunksOfSnoc(digest, done, p);
  }

  /** A segmentation from `start` that has produced `done` and now reads
      from `cur` ends as the segmentation from `cur` does, after `done`. */
  ghost predicate Resumes(start: Cursor, done: seq<seq<byte>>, cur: Cursor) {
    var s := Segment(cur);
    Segment(start) == Segmented(done + s.payloads, s.failed, s.rest)
  }

  lemma ResumesStart(start: Cursor)
    ensures Resumes(start, [], start)
  {
    assert [] + Segment(start).payloads == Segment(start).payloads;
  }

  /** A read that hands over bytes adds them as the next payload. */
  lemma ResumesAdvance(start: Cursor, done: seq<seq<byte>>, cur: Cursor)
    requires Resumes(start, done, cur)
    requires ReadStep(cur, ChunkSize).status != Broken && ReadStep(cur, ChunkSize).n != 0
    ensures Resumes(start, done + [Taken(cur, ReadStep(cur, ChunkSize).n)], ReadStep(cur, ChunkSize).after)
  {
    var r := ReadStep(cur, ChunkSize);
    var p := Taken(cur, r.n);
    assert Segment(cur).payloads == [p] + Segment(r.after).payloads;
    assert done + Segment(cur).payloads == done + [p] + Segment(r.after).payloads;
  }

  /** A read that hands over nothing ends the segmentation: with a failure
      when it reported an error, without one otherwise. */
  lemma ResumesStop(start: Cursor, done: seq<seq<byte>>, cur: Cursor)
    requires Resumes(start, done, cur)
    requires ReadStep(cur, ChunkSize).n == 0
    ensures var r := ReadStep(cur, ChunkSize);
      Segment(start) == Segmented(done, r.status == Broken, r.after)
  {
    assert done + [] == done;
  }

  /** What a finished segmentation leaves behind: a well laid-out chunk
      list whose every id is stored, whose sizes add up to the bytes
      consumed, in a store that stays sound. */
  lemma SegmentedChunks(m: Blobs, digest: Digest, c: Cursor)
    ensures var ps := Segment(c).payloads;
      && WellLaidOut(ChunksOf(digest, ps))
      && (forall i :: 0 <= i < |ps| ==> ChunksOf(digest, ps)[i].id in SaveAll(m, digest, ps))
      && SumSizes(ChunksOf(digest, ps)) == |Flatten(ps)|
      && (StoreSound(m, digest) ==> StoreSound(SaveAll(m, digest, ps), digest))
  {
    var ps := Segment(c).payloads;
    SegmentBounds(c);
    ChunksOfLayout(digest, ps);
    SaveAllGrows(m, digest, ps);
    SaveAllOnlyPayloads(m, digest, ps);
  }

  // ---------------------------------------------------------------------
  // Reconstruction (ReconstructFile, chunk.go:129-143)

  /** What reconstruction wrote to the sink, and how it ended. */
  datatype Rebuilt = Rebuilt(out: seq<byte>, outcome: Outcome)

  /** Fetches each chunk's blob in list order and writes it to a sink that
      takes `accepts` more writes; stops at the first missing blob or
      refused write. */
  function Rebuild(m: Blobs, cs: seq<Chunk>, accepts: nat): (r: Rebuilt)
    ensures r.outcome.Fail? ==> r.outcome.error == WriteFailed || (r.outcome.error.NotFound? && r.outcome.error.key !in m)
  {
    if cs == [] then Rebuilt([], Pass)
    else if cs[0].id !in m then Rebuilt([], Fail(NotFound(cs[0].id)))
    else if accepts == 0 then Rebuilt([], Fail(WriteFailed))
    else
      var r := Rebuild(m, cs[1..], accepts - 1);
      Rebuilt(m[cs[0].id] + r.out, r.outcome)
  }

  /** The blobs of a chunk list, in order. */
  function Fetch(m: Blobs, cs: seq<Chunk>): (bs: seq<seq<byte>>)
    requires forall i :: 0 <= i < |cs| ==> cs[i].id in m
    ensures |bs| == |cs|
  {
    seq(|cs|, i requires 0 <= i < |cs| => m[cs[i].id])
  }

  /** With every blob present and a sink that takes every write,
      reconstruction succeeds and writes the blobs laid end to end. */
  lemma {:induction false} RebuildComplete(m: Blobs, cs: seq<Chunk>, accepts: nat)
    requires forall i :: 0 <= i < |cs| ==> cs[i].id in m
    requires accepts >= |cs|
    ensures Rebuild(m, cs, accepts) == Rebuilt(Flatten(Fetch(m, cs)), Pass)
  {
    if cs != [] {
      RebuildComplete(m, cs[1..], accepts - 1);
      assert Fetch(m, cs) == [m[cs[0].id]] + Fetch(m, cs[1..]);
      FlattenCons(m[cs[0].id], Fetch(m, cs[1..]));
    }
  }

  /** At the first missing blob reconstruction fails with NotFound for it,
      having written exactly the blobs of the chunks before it. */
  lemma {:induction false} RebuildStopsAtMissing(m: Blobs, cs: seq<Chunk>, accepts: nat, j: nat)
    requires j < |cs| && cs[j].id !in m
    requires forall i :: 0 <= i < j ==> cs[i].id in m
    requires accepts >= j
    ensures Rebuild(m, cs, accepts) == Rebuilt(Flatten(Fetch(m, cs[..j])), Fail(NotFound(cs[j].id)))
  {
    if j > 0 {
      RebuildStopsAtMissing(m, cs[1..], accepts - 1, j - 1);
      FetchCons(m, cs, j - 1);
      FlattenCons(m[cs[0].id], Fetch(m, cs[1..][..j - 1]));
    }
  }

  /** The blobs of a non-empty prefix: the first chunk's blob, then those of
      the rest of the prefix. */
  lemma FetchCons(m: Blobs, cs: seq<Chunk>, k: nat)
    requires k < |cs| && forall i :: 0 <= i <= k ==> cs[i].id in m
    ensures Fetch(m, cs[..k + 1]) == [m[cs[0].id]] + Fetch(m, cs[1..][..k])
  {
    assert cs[1..][..k] == cs[..k + 1][1..];
  }

  /** How many chunks reconstruction writes before it stops. */
  function Delivered(m: Blobs, cs: seq<Chunk>, accepts: nat): (j: nat)
    ensures j <= |cs|
    ensures forall i :: 0 <= i < j ==> cs[i].id in m
  {
    if cs == [] || cs[0].id !in m || accepts == 0 then 0
    else
      var j := Delivered(m, cs[1..], accepts - 1);
      assert forall i :: 1 <= i < j + 1 ==> cs[i] == cs[1..][i - 1];
      j + 1
  }

  /** Reconstruction never writes more than the blobs it fetched: its output
      is the concatenation of the blobs of the first Delivered chunks, and it
      succeeds only when those are the whole list. */
  lemma {:induction false} RebuildWritesPrefix(m: Blobs, cs: seq<Chunk>, accepts: nat)
    ensures Rebuild(m, cs, accepts).out == Flatten(Fetch(m, cs[..Delivered(m, cs, accepts)]))
    ensures Rebuild(m, cs, accepts).outcome.Pass? ==> Delivered(m, cs, accepts) == |cs|
  {
    if cs == [] || cs[0].id !in m || accepts == 0 {
      assert Delivered(m, cs, accepts) == 0;
      assert Fetch(m, cs[..0]) == [];
    } else {
      var tail := cs[1..];
      var k := Delivered(m, tail, accepts - 1);
      RebuildWritesPrefix(m, tail, accepts - 1);
      assert Delivered(m, cs, accepts) == k + 1;
      assert Rebuild(m, cs, accepts).out == m[cs[0].id] + Rebuild(m, tail, accepts - 1).out;
      FetchCons(m, cs, k);
      FlattenCons(m[cs[0].id], Fetch(m, tail[..k]));
    }
  }

  /** The round trip: in a sound store that holds every payload's id and
      whose digest is collision-free, reconstructing the chunk list of a
      segmentation gives back the segmented bytes. */
  lemma RoundTrip(m: Blobs, digest: Digest, ps: seq<seq<byte>>, accepts: nat)
    requires Injective(digest) && StoreSound(m, digest)
    requires forall i :: 0 <= i < |ps| ==> ChunkId(digest, ps[i]) in m
    requires accepts >= |ps|
    ensures Rebuild(m, ChunksOf(digest, ps), accepts) == Rebuilt(Flatten(ps), Pass)
  {
    var cs := ChunksOf(digest, ps);
    RebuildComplete(m, cs, accepts);
    forall i | 0 <= i < |ps|
      ensures Fetch(m, cs)[i] == ps[i]
    {
      var k := ChunkId(digest, ps[i]);
      assert k == ChunkId(digest, m[k]);
      assert digest(m[k]) == k[|ChunkPrefix|..] == digest(ps[i]);
    }
    assert Fetch(m, cs) == ps;
  }

  /** The round trip seen from the stream: segmenting a stream into a
      sound store and reconstructing the resulting chunk list, with a sink
      that takes at least as many writes as there are bytes left, succeeds
      and writes back exactly the bytes the segmentation consumed, which
      are the next bytes of the stream. */
  lemma StreamRoundTrip(m: Blobs, digest: Digest, c: Cursor, accepts: nat)
    requires Injective(digest) && StoreSound(m, digest)
    requires c.pos <= |c.data| && accepts >= Remaining(c)
    ensures var s := Segment(c);
      var rb := Rebuild(SaveAll(m, digest, s.payloads), ChunksOf(digest, s.payloads), accepts);
      && rb.outcome == Pass
      && rb.out <= c.data[c.pos..]
      && |rb.out| == s.rest.pos - c.pos
  {
    var ps := Segment(c).payloads;
    var n := |Flatten(ps)|;
    SegmentConsumes(c);
    SegmentRebuilds(m, digest, c, accepts);
    assert Taken(c, n) == c.data[c.pos..][..n];
  }

  /** Reconstructing the chunk list of a segmentation from the store it was
      saved into gives back its payloads laid end to end. */
  lemma SegmentRebuilds(m: Blobs, digest: Digest, c: Cursor, accepts: nat)
    requires Injective(digest) && StoreSound(m, digest)
    requires c.pos <= |c.data| && accepts >= Remaining(c)
    ensures var ps := Segment(c).payloads;
      Rebuild(SaveAll(m, digest, ps), ChunksOf(digest, ps), accepts) == Rebuilt(Flatten(ps), Pass)
  {
    var ps := Segment(c).payloads;
    var m' := SaveAll(m, digest, ps);
    assert |ps| <= accepts by {
      SegmentBounds(c);
      FlattenLength(ps);
      SegmentConsumes(c);
    }
    assert StoreSound(m', digest) && forall i :: 0 <= i < |ps| ==> ChunkId(digest, ps[i]) in m' by {
      SaveAllGrows(m, digest, ps);
      SaveAllOnlyPayloads(m, digest, ps);
    }
    RoundTrip(m', digest, ps, accepts);
  }

  // ---------------------------------------------------------------------
  // The second persist pass of an update (UpdateChunks, chunk.go:106-127)

  /** The store, the stream and the outcome after the pass. */
  datatype Resaved = Resaved(blobs: Blobs, rest: Cursor, outcome: Outcome)

  /** For each changed chunk: seek to its offset, read up to its size into a
      fresh buffer and save what was read under the chunk's id. */
  function Resave(m: Blobs, changed: seq<Chunk>, c: Cursor): (r: Resaved)
    requires forall i :: 0 <= i < |changed| ==> changed[i].size >= 0
    ensures r.rest.data == c.data
    ensures r.outcome.Fail? ==> r.outcome.error == SeekFailed || r.outcome.error == ReadFailed
    ensures r.outcome.Pass? ==> forall i :: 0 <= i < |changed| ==> changed[i].offset >= 0
    decreases |changed|
  {
    if changed == [] then Resaved(m, c, Pass)
    else
      var ch := changed[0];
      if ch.offset < 0 then Resaved(m, c, Fail(SeekFailed))
      else
        var at := c.(pos := ch.offset);
        var r := ReadStep(at, ch.size as nat);
        if r.status == Broken then Resaved(m, r.after, Fail(ReadFailed))
        else Resave(Save(m, ch.id, Taken(at, r.n)), changed[1..], r.after)
  }

  /** The pass never changes a stored blob; when every changed chunk's id is
      already stored (as CreateChunks guarantees) it leaves the store as it
      was, whatever the stream does. */
  lemma {:induction false} ResaveWriteOnce(m: Blobs, changed: seq<Chunk>, c: Cursor)
    requires forall i :: 0 <= i < |changed| ==> changed[i].size >= 0
    ensures forall k :: k in m ==> k in Resave(m, changed, c).blobs && Resave(m, changed, c).blobs[k] == m[k]
    ensures (forall i :: 0 <= i < |changed| ==> changed[i].id in m) ==> Resave(m, changed, c).blobs == m
    decreases |changed|
  {
    if changed != [] && changed[0].offset >= 0 {
      var ch := changed[0];
      var at := c.(pos := ch.offset);
      var r := ReadStep(at, ch.size as nat);
      if r.status != Broken {
        var m' := Save(m, ch.id, Taken(at, r.n));
        ResaveWriteOnce(m', changed[1..], r.after);
        if forall i :: 0 <= i < |changed| ==> changed[i].id in m {
          assert m' == m;
          assert forall i :: 0 <= i < |changed[1..]| ==> changed[1..][i].id in m by {
            forall i | 0 <= i < |changed[1..]| ensures changed[1..][i].id in m {
              assert changed[1..][i] == changed[i + 1];
            }
          }
        }
      }
    }
  }
}
