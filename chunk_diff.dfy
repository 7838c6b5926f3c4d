/** The positional diff of CompareChunks (chunk.go:90-104): which chunks of a
    new chunk list count as changed against the old list. */
module ChunkDiff {
  import opened Models

  /** The indices the chunks of a list carry. */
  function Indices(cs: seq<Chunk>): set<int> {
    set i | 0 <= i < |cs| :: cs[i].index
  }

  /** The index-to-hash map built from the old list: one key per index an
      old chunk carries; when two old chunks share an index, the later one
      wins. */
  function HashIndex(olds: seq<Chunk>): (index: map<int, string>)
    ensures index.Keys == Indices(olds)
  {
    if olds == [] then map[]
    else
      var init, c := olds[..|olds| - 1], olds[|olds| - 1];
      assert Indices(olds) == Indices(init) + {c.index} by {
        forall k | k in Indices(olds) ensures k in Indices(init) + {c.index} {
          var i :| 0 <= i < |olds| && olds[i].index == k;
          if i < |init| {
            assert init[i] == olds[i];
          }
        }
        forall k | k in Indices(init) ensures k in Indices(olds) {
          var i :| 0 <= i < |init| && init[i].index == k;
          assert olds[i] == init[i];
        }
      }
      HashIndex(init)[c.index := c.hash]
  }

  /** A new chunk is changed when no old chunk has its index or the old
      hash at that index differs. */
  predicate Differs(index: map<int, string>, c: Chunk) {
    c.index !in index || index[c.index] != c.hash
  }

  /** The changed chunks of `news`, in the order of `news`. */
  function Changed(index: map<int, string>, news: seq<Chunk>): (r: seq<Chunk>)
    ensures |r| <= |news|
  {
    if news == [] then []
    else
      var c := news[|news| - 1];
      Changed(index, news[..|news| - 1]) + (if Differs(index, c) then [c] else [])
  }

  /** What CompareChunks returns. */
  function Diff(olds: seq<Chunk>, news: seq<Chunk>): (changed: seq<Chunk>)
    ensures |changed| <= |news|
  {
    Changed(HashIndex(olds), news)
  }

  /** Against an empty old list every new chunk is reported, in order. */
  lemma {:induction false} DiffAgainstNothing(news: seq<Chunk>)
    ensures Diff([], news) == news
  {
    if news != [] {
      DiffAgainstNothing(news[..|news| - 1]);
      assert news[..|news| - 1] + [news[|news| - 1]] == news;
    }
  }

  /** An index has an entry exactly when some old chunk has it, and the
      entry is the hash of the last old chunk with that index. */
  lemma {:induction false} HashIndexLast(olds: seq<Chunk>, k: int)
    ensures k in HashIndex(olds) <==> exists j :: 0 <= j < |olds| && olds[j].index == k
    ensures forall j :: (0 <= j < |olds| && olds[j].index == k
      && (forall j' :: j < j' < |olds| ==> olds[j'].index != k)) ==> HashIndex(olds)[k] == olds[j].hash
  {
    assert k in Indices(olds) <==> exists j :: 0 <= j < |olds| && olds[j].index == k;
    if olds != [] {
      var init, last := olds[..|olds| - 1], olds[|olds| - 1];
      HashIndexLast(init, k);
      forall j | 0 <= j < |olds| && olds[j].index == k
        && (forall j' :: j < j' < |olds| ==> olds[j'].index != k)
        ensures HashIndex(olds)[k] == olds[j].hash
      {
        if j < |init| {
          assert init[j] == olds[j] && last.index != k;
          forall j' | j < j' < |init| ensures init[j'].index != k {
            assert init[j'] == olds[j'];
          }
        }
      }
    }
  }

  /** The result holds exactly the new chunks that differ. */
  lemma {:induction false} ChangedMembers(index: map<int, string>, news: seq<Chunk>)
    ensures forall c :: c in Changed(index, news) <==> c in news && Differs(index, c)
  {
    if news != [] {
      var init := news[..|news| - 1];
      ChangedMembers(index, init);
      assert news == init + [news[|news| - 1]];
    }
  }

  /** The diff keeps the order of the new list: the changed chunks of a
      concatenation are those of the first part followed by those of the
      second. */
  lemma {:induction false} ChangedAppend(index: map<int, string>, a: seq<Chunk>, b: seq<Chunk>)
    ensures Changed(index, a + b) == Changed(index, a) + Changed(index, b)
  {
    if b == [] {
      assert a + b == a;
    } else {
      var b' := b[..|b| - 1];
      assert (a + b)[..|a + b| - 1] == a + b';
      ChangedAppend(index, a, b');
    }
  }

  /** Chunk lists with no negative size. */
  predicate Sized(cs: seq<Chunk>) {
    forall i :: 0 <= i < |cs| ==> cs[i].size >= 0
  }

  /** The changed chunks are new chunks, so they keep the new list's sizes. */
  lemma {:induction false} ChangedSized(index: map<int, string>, news: seq<Chunk>)
    requires Sized(news)
    ensures Sized(Changed(index, news))
  {
    if news != [] {
      var init := news[..|news| - 1];
      assert Sized(init) by {
        forall i | 0 <= i < |init| ensures init[i].size >= 0 {
          assert init[i] == news[i];
        }
      }
      ChangedSized(index, init);
    }
  }

  /** When no new chunk differs, nothing is reported. */
  lemma {:induction false} ChangedNone(index: map<int, string>, news: seq<Chunk>)
    requires forall i :: 0 <= i < |news| ==> !Differs(index, news[i])
    ensures Changed(index, news) == []
  {
    if news != [] {
      ChangedNone(index, news[..|news| - 1]);
    }
  }

  /** Chunk lists whose indices are their positions, as CreateChunks makes. */
  predicate WellIndexed(cs: seq<Chunk>) {
    forall i :: 0 <= i < |cs| ==> cs[i].index == i
  }

  /** For a well-indexed old list the index map sends each position to the
      hash of the chunk there, and has no other key. */
  lemma {:induction false} HashIndexOfWellIndexed(olds: seq<Chunk>)
    requires WellIndexed(olds)
    ensures forall k :: k in HashIndex(olds) <==> 0 <= k < |olds|
    ensures forall k :: 0 <= k < |olds| ==> HashIndex(olds)[k] == olds[k].hash
  {
    if olds != [] {
      var init := olds[..|olds| - 1];
      assert WellIndexed(init) by {
        forall i | 0 <= i < |init| ensures init[i].index == i {
          assert init[i] == olds[i];
        }
      }
      HashIndexOfWellIndexed(init);
    }
  }

  /** Between well-indexed lists a new chunk is changed exactly when it lies
      beyond the end of the old list or its hash differs from the old chunk
      at the same position. */
  lemma DiffPositional(olds: seq<Chunk>, news: seq<Chunk>)
    requires WellIndexed(olds) && WellIndexed(news)
    ensures forall c :: c in Diff(olds, news) <==>
      c in news && (c.index >= |olds| || olds[c.index].hash != c.hash)
  {
    HashIndexOfWellIndexed(olds);
    ChangedMembers(HashIndex(olds), news);
    forall c | c in news
      ensures Differs(HashIndex(olds), c) <==> (c.index >= |olds| || olds[c.index].hash != c.hash)
    {
      var i :| 0 <= i < |news| && news[i] == c;
      assert c.index == i;
    }
  }

  /** Chunk lists in which no index occurs twice. */
  predicate DistinctIndices(cs: seq<Chunk>) {
    forall i, j :: 0 <= i < j < |cs| ==> cs[i].index != cs[j].index
  }

  /** A list with no repeated index compared with itself has no changed
      chunk; in particular re-uploading identical content reports nothing. */
  lemma DiffSelf(cs: seq<Chunk>)
    requires DistinctIndices(cs)
    ensures Diff(cs, cs) == []
  {
    forall i | 0 <= i < |cs|
      ensures !Differs(HashIndex(cs), cs[i])
    {
      HashIndexLast(cs, cs[i].index);
    }
    ChangedNone(HashIndex(cs), cs);
  }

  /** Two well-indexed lists of equal length that differ in hash at position
      k only: the diff is exactly the new chunk at k. */
  lemma DiffSingle(olds: seq<Chunk>, news: seq<Chunk>, k: nat)
    requires WellIndexed(olds) && WellIndexed(news) && |olds| == |news|
    requires k < |news| && olds[k].hash != news[k].hash
    requires forall i :: 0 <= i < |news| && i != k ==> olds[i].hash == news[i].hash
    ensures Diff(olds, news) == [news[k]]
  {
    HashIndexOfWellIndexed(olds);
    ChangedUpTo(HashIndex(olds), olds, news, k, |news|);
    assert news[..|news|] == news;
  }

  lemma {:induction false} ChangedUpTo(index: map<int, string>, olds: seq<Chunk>, news: seq<Chunk>, k: nat, j: nat)
    requires WellIndexed(news) && |olds| == |news| && k < |news| && j <= |news|
    requires forall i :: 0 <= i < |olds| ==> i in index && index[i] == olds[i].hash
    requires olds[k].hash != news[k].hash
    requires forall i :: 0 <= i < |news| && i != k ==> olds[i].hash == news[i].hash
    ensures Changed(index, news[..j]) == if j > k then [news[k]] else []
  {
    if j > 0 {
      ChangedUpTo(index, olds, news, k, j - 1);
      var c := news[j - 1];
      assert news[..j][..j - 1] == news[..j - 1] && news[..j][j - 1] == c;
      assert c.index == j - 1;
      assert Differs(index, c) <==> j - 1 == k;
      assert Changed(index, news[..j]) == Changed(index, news[..j - 1]) + (if Differs(index, c) then [c] else []);
    }
  }
}
