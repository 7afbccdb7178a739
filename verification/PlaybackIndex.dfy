/**
 The sample index of an RTSA source (src/file_source.rs): the per-sub-stream start
 table and the hinted wrap-around search for the chunk that holds a sample.
 */
module PlaybackIndex {
  import opened Bits
  import opened ByteFile
  import opened Chunks
  import opened ChunkScan
  import opened Results

  const U32_VALUES: nat := 0x1_0000_0000

  /** A stream and sub-stream identifier. */
  type Key = (nat, nat)

  function KeyOf(f: Found): Key {
    (f.samp.streamId, f.samp.subStreamId)
  }

  /** Samples of sub-stream `key` in the first `n` chunks. */
  function SamplesBefore(chunks: seq<Found>, key: Key, n: nat): nat
    requires n <= |chunks|
  {
    if n == 0 then 0
    else SamplesBefore(chunks, key, n - 1) + (if KeyOf(chunks[n - 1]) == key then chunks[n - 1].samp.numSamples else 0)
  }

  /** The first sample of chunk `i`, counted within its own sub-stream. */
  function StartOf(chunks: seq<Found>, i: nat): nat
    requires i < |chunks|
  {
    SamplesBefore(chunks, KeyOf(chunks[i]), i)
  }

  function EndOf(chunks: seq<Found>, i: nat): nat
    requires i < |chunks|
  {
    StartOf(chunks, i) + chunks[i].samp.numSamples
  }

  /** Offsets in file order, as the scan produces them, and sample counts that came from a u32. */
  predicate Indexed(chunks: seq<Found>) {
    && (forall i, j | 0 <= i < j < |chunks| :: chunks[i].offset < chunks[j].offset)
    && (forall i | 0 <= i < |chunks| :: chunks[i].samp.numSamples < U32_VALUES)
  }

  /** The chunk list a scan collects can be indexed. */
  lemma {:induction false} ScanIsIndexed(file: seq<byte>, p: nat, end: nat)
    ensures Indexed(Walk(file, p, end, true).found)
  {
    hide Walk, RealChunk;
    var found := Walk(file, p, end, true).found;
    WalkIsOrdered(file, p, end, true);
    forall i | 0 <= i < |found|
      ensures found[i].samp.numSamples < U32_VALUES
    {
      assert found[i] in found;
      RealChunkCount(file, found[i]);
    }
  }

  lemma {:induction false} RealChunkCount(file: seq<byte>, f: Found)
    requires RealChunk(file, f)
    ensures f.samp.numSamples < U32_VALUES
  {
    hide UnsignedAt, HeaderAt;
    FieldBound(file, f.offset + 60, 4);
  }

  predicate TableFor(starts: map<nat, nat>, chunks: seq<Found>) {
    forall i | 0 <= i < |chunks| :: chunks[i].offset in starts && starts[chunks[i].offset] == StartOf(chunks, i)
  }

  lemma {:induction false} NoSamplesYet(chunks: seq<Found>)
    ensures forall key :: SamplesBefore(chunks, key, 0) == 0
  {
  }

  lemma {:induction false} StartIsCount(chunks: seq<Found>, i: nat)
    requires i < |chunks|
    ensures StartOf(chunks, i) == SamplesBefore(chunks, KeyOf(chunks[i]), i)
    ensures forall key ::
              SamplesBefore(chunks, key, i + 1)
              == SamplesBefore(chunks, key, i) + (if KeyOf(chunks[i]) == key then chunks[i].samp.numSamples else 0)
  {
  }

  /** The start table, with a running counter per sub-stream. */
  method BuildStartTable(chunks: seq<Found>) returns (starts: map<nat, nat>)
    requires Indexed(chunks)
    ensures TableFor(starts, chunks)
  {
    hide StartOf, SamplesBefore;
    starts := map[];
    NoSamplesYet(chunks);
    var counters: map<Key, nat> := map[];
    for i := 0 to |chunks|
      invariant forall j | 0 <= j < i :: chunks[j].offset in starts && starts[chunks[j].offset] == StartOf(chunks, j)
      invariant forall key :: (if key in counters then counters[key] else 0) == SamplesBefore(chunks, key, i)
    {
      var key := KeyOf(chunks[i]);
      StartIsCount(chunks, i);
      var counter := if key in counters then counters[key] else 0;
      starts := starts[chunks[i].offset := counter];
      counters := counters[key := counter + chunks[i].samp.numSamples];
    }
  }

  // ---------------------------------------------------------------- finding a chunk

  /** Chunk `f` belongs to the stream, and to the requested sub-stream if one is requested. */
  predicate Selected(f: Found, stream: nat, filter: Option<nat>) {
    f.samp.streamId == stream && (filter.None? || filter == Some(f.samp.subStreamId))
  }

  /** Chunk `i` is selected and holds sample `cur`. */
  predicate Holds(chunks: seq<Found>, stream: nat, filter: Option<nat>, cur: nat, i: nat) {
    && i < |chunks|
    && Selected(chunks[i], stream, filter)
    && StartOf(chunks, i) <= cur < EndOf(chunks, i)
  }

  /** The `k`-th index of `(hint..n)` followed by `0..hint`. */
  function WrapIndex(hint: nat, n: nat, k: nat): (i: nat)
    requires hint <= n && k < n
    ensures i < n
  {
    if hint + k < n then hint + k else hint + k - n
  }

  function Clamp(hint: nat, n: nat): (h: nat)
    ensures h <= n
  {
    if hint < n then hint else n
  }

  /** The first chunk in wrap-around order, from its `k`-th on, that holds sample `cur`. */
  function LocateFrom(
    chunks: seq<Found>, stream: nat, filter: Option<nat>, cur: nat, hint: nat, k: nat): (found: Option<nat>)
    requires hint <= |chunks| && k <= |chunks|
    ensures found.Some? ==> Holds(chunks, stream, filter, cur, found.value)
    decreases |chunks| - k
  {
    if k == |chunks| then None
    else
      var i := WrapIndex(hint, |chunks|, k);
      if Holds(chunks, stream, filter, cur, i) then Some(i) else LocateFrom(chunks, stream, filter, cur, hint, k + 1)
  }

  lemma {:induction false} LocateStep(
    chunks: seq<Found>, stream: nat, filter: Option<nat>, cur: nat, hint: nat, k: nat)
    requires hint <= |chunks| && k < |chunks|
    ensures var i := WrapIndex(hint, |chunks|, k);
            LocateFrom(chunks, stream, filter, cur, hint, k)
            == if Holds(chunks, stream, filter, cur, i) then Some(i)
               else LocateFrom(chunks, stream, filter, cur, hint, k + 1)
  {
  }

  lemma {:induction false} LocateNothing(chunks: seq<Found>, stream: nat, filter: Option<nat>, cur: nat, hint: nat)
    requires hint <= |chunks|
    ensures LocateFrom(chunks, stream, filter, cur, hint, |chunks|) == None
  {
  }

  /** The table turns the search condition into a comparison. */
  lemma {:induction false} TableHolds(
    starts: map<nat, nat>, chunks: seq<Found>, stream: nat, filter: Option<nat>, cur: nat, i: nat)
    requires TableFor(starts, chunks) && i < |chunks|
    ensures chunks[i].offset in starts && starts[chunks[i].offset] == StartOf(chunks, i)
    ensures Holds(chunks, stream, filter, cur, i)
            <==> Selected(chunks[i], stream, filter) && StartOf(chunks, i) <= cur < EndOf(chunks, i)
  {
  }

  function Locate(chunks: seq<Found>, stream: nat, filter: Option<nat>, cur: nat, hint: nat): (found: Option<nat>)
    ensures found.Some? ==> Holds(chunks, stream, filter, cur, found.value)
  {
    LocateFrom(chunks, stream, filter, cur, Clamp(hint, |chunks|), 0)
  }

  /** Nothing is found exactly when nothing holds the sample. */
  lemma {:induction false} LocateComplete(
    chunks: seq<Found>, stream: nat, filter: Option<nat>, cur: nat, hint: nat, i: nat)
    requires Holds(chunks, stream, filter, cur, i)
    ensures Locate(chunks, stream, filter, cur, hint).Some?
  {
    var h := Clamp(hint, |chunks|);
    var k := if h <= i then i - h else i + |chunks| - h;
    LocateFromReaches(chunks, stream, filter, cur, h, 0, k);
  }

  lemma {:induction false} LocateFromReaches(
    chunks: seq<Found>, stream: nat, filter: Option<nat>, cur: nat, hint: nat, k: nat, target: nat)
    requires hint <= |chunks| && k <= target < |chunks|
    requires Holds(chunks, stream, filter, cur, WrapIndex(hint, |chunks|, target))
    ensures LocateFrom(chunks, stream, filter, cur, hint, k).Some?
    decreases target - k
  {
    if k < target {
      LocateFromReaches(chunks, stream, filter, cur, hint, k + 1, target);
    }
  }

  /** `i` is the first chunk in file order that is selected and holds sample `cur`. */
  predicate FirstHolding(chunks: seq<Found>, stream: nat, filter: Option<nat>, cur: nat, i: nat) {
    Holds(chunks, stream, filter, cur, i) && forall j: nat | j < i :: !Holds(chunks, stream, filter, cur, j)
  }

  /** With the hint at zero the search finds the first chunk in file order. */
  lemma {:induction false} LocateFromFront(
    chunks: seq<Found>, stream: nat, filter: Option<nat>, cur: nat, k: nat, i: nat)
    requires FirstHolding(chunks, stream, filter, cur, i) && k <= i < |chunks|
    ensures LocateFrom(chunks, stream, filter, cur, 0, k) == Some(i)
    decreases i - k
  {
    if k < i {
      LocateFromFront(chunks, stream, filter, cur, k + 1, i);
    }
  }

  /** No two selected chunks hold sample `cur`. */
  predicate Unambiguous(chunks: seq<Found>, stream: nat, filter: Option<nat>, cur: nat) {
    forall i: nat, j: nat | i < |chunks| && j < |chunks| ::
      Holds(chunks, stream, filter, cur, i) && Holds(chunks, stream, filter, cur, j) ==> i == j
  }

  /** The hint is only a speed-up exactly where the sample lies in no more than one selected chunk. */
  lemma {:induction false} HintIrrelevantIff(chunks: seq<Found>, stream: nat, filter: Option<nat>, cur: nat)
    ensures Unambiguous(chunks, stream, filter, cur)
            <==> forall hint: nat ::
                   Locate(chunks, stream, filter, cur, hint) == Locate(chunks, stream, filter, cur, 0)
  {
    hide Holds, LocateFrom;
    if Unambiguous(chunks, stream, filter, cur) {
      forall hint: nat
        ensures Locate(chunks, stream, filter, cur, hint) == Locate(chunks, stream, filter, cur, 0)
      {
        var a, b := Locate(chunks, stream, filter, cur, hint), Locate(chunks, stream, filter, cur, 0);
        if a.Some? {
          LocateComplete(chunks, stream, filter, cur, 0, a.value);
        }
        if b.Some? {
          LocateComplete(chunks, stream, filter, cur, hint, b.value);
          HoldsInside(chunks, stream, filter, cur, a.value);
          HoldsInside(chunks, stream, filter, cur, b.value);
          assert a.value == b.value;
        }
      }
    } else {
      var i: nat, j: nat :| i < |chunks| && j < |chunks| && i != j
        && Holds(chunks, stream, filter, cur, i) && Holds(chunks, stream, filter, cur, j);
      LocateAtHint(chunks, stream, filter, cur, i);
      LocateAtHint(chunks, stream, filter, cur, j);
    }
  }

  lemma {:induction false} HoldsInside(chunks: seq<Found>, stream: nat, filter: Option<nat>, cur: nat, i: nat)
    requires Holds(chunks, stream, filter, cur, i)
    ensures i < |chunks|
  {
  }

  /** A hint that holds the sample is taken at once. */
  lemma {:induction false} LocateAtHint(chunks: seq<Found>, stream: nat, filter: Option<nat>, cur: nat, i: nat)
    requires Holds(chunks, stream, filter, cur, i)
    ensures Locate(chunks, stream, filter, cur, i) == Some(i)
  {
  }

  // ---------------------------------------------------------------- one sub-stream tiles its samples

  /** All selected chunks belong to sub-stream `key`, and all its chunks are selected. */
  predicate SelectsKey(chunks: seq<Found>, stream: nat, filter: Option<nat>, key: Key) {
    forall f | f in chunks :: Selected(f, stream, filter) <==> KeyOf(f) == key
  }

  lemma {:induction false} FilterSelectsKey(chunks: seq<Found>, stream: nat, subStream: nat)
    ensures SelectsKey(chunks, stream, Some(subStream), (stream, subStream))
  {
  }

  lemma {:induction false} SamplesBeforeMonotone(chunks: seq<Found>, key: Key, m: nat, n: nat)
    requires m <= n <= |chunks|
    ensures SamplesBefore(chunks, key, m) <= SamplesBefore(chunks, key, n)
  {
    if m < n {
      SamplesBeforeMonotone(chunks, key, m, n - 1);
    }
  }

  /** Sample `x` of sub-stream `key` lies in chunk `i`. */
  predicate LiesIn(chunks: seq<Found>, key: Key, x: nat, i: nat) {
    i < |chunks| && KeyOf(chunks[i]) == key && StartOf(chunks, i) <= x < EndOf(chunks, i)
  }

  /** The chunks of one sub-stream do not overlap. */
  lemma {:induction false} TilesDisjoint(chunks: seq<Found>, key: Key, x: nat, i: nat, j: nat)
    requires LiesIn(chunks, key, x, i) && LiesIn(chunks, key, x, j)
    ensures i == j
  {
    if i < j {
      SamplesBeforeMonotone(chunks, key, i + 1, j);
    } else if j < i {
      SamplesBeforeMonotone(chunks, key, j + 1, i);
    }
  }

  /** They leave no gap: every sample of the sub-stream lies in one of them. */
  lemma {:induction false} TilesCover(chunks: seq<Found>, key: Key, x: nat, n: nat) returns (i: nat)
    requires n <= |chunks| && x < SamplesBefore(chunks, key, n)
    ensures i < n && LiesIn(chunks, key, x, i)
    decreases n
  {
    if x < SamplesBefore(chunks, key, n - 1) {
      i := TilesCover(chunks, key, x, n - 1);
    } else {
      i := n - 1;
    }
  }

  /** The ranges of one sub-stream tile `0..total` without gap or overlap, and go no further. */
  lemma {:induction false} TilesExactly(chunks: seq<Found>, key: Key, x: nat)
    ensures x < SamplesBefore(chunks, key, |chunks|) <==> exists i: nat :: LiesIn(chunks, key, x, i)
    ensures forall i: nat, j: nat | LiesIn(chunks, key, x, i) && LiesIn(chunks, key, x, j) :: i == j
  {
    hide LiesIn;
    if x < SamplesBefore(chunks, key, |chunks|) {
      var i := TilesCover(chunks, key, x, |chunks|);
    }
    if exists i: nat :: LiesIn(chunks, key, x, i) {
      var i: nat :| LiesIn(chunks, key, x, i);
      LiesBelowTotal(chunks, key, x, i);
    }
    forall i: nat, j: nat | LiesIn(chunks, key, x, i) && LiesIn(chunks, key, x, j)
      ensures i == j
    {
      TilesDisjoint(chunks, key, x, i, j);
    }
  }

  lemma {:induction false} LiesBelowTotal(chunks: seq<Found>, key: Key, x: nat, i: nat)
    requires LiesIn(chunks, key, x, i)
    ensures x < SamplesBefore(chunks, key, i + 1) <= SamplesBefore(chunks, key, |chunks|)
  {
    SamplesBeforeMonotone(chunks, key, i + 1, |chunks|);
  }

  /** A search within one sub-stream gives the same chunk from every hint. */
  lemma {:induction false} SubStreamUnambiguous(
    chunks: seq<Found>, stream: nat, filter: Option<nat>, key: Key, cur: nat)
    requires SelectsKey(chunks, stream, filter, key)
    ensures Unambiguous(chunks, stream, filter, cur)
  {
    forall i: nat, j: nat | i < |chunks| && j < |chunks|
      ensures Holds(chunks, stream, filter, cur, i) && Holds(chunks, stream, filter, cur, j) ==> i == j
    {
      assert chunks[i] in chunks && chunks[j] in chunks;
      if Holds(chunks, stream, filter, cur, i) && Holds(chunks, stream, filter, cur, j) {
        TilesDisjoint(chunks, key, cur, i, j);
      }
    }
  }

  /** With a sub-stream filter the hint never changes the answer. */
  lemma {:induction false} HintIrrelevantWithFilter(
    chunks: seq<Found>, stream: nat, subStream: nat, cur: nat, hint: nat)
    ensures Locate(chunks, stream, Some(subStream), cur, hint) == Locate(chunks, stream, Some(subStream), cur, 0)
  {
    hide Locate, Unambiguous, SelectsKey;
    FilterSelectsKey(chunks, stream, subStream);
    SubStreamUnambiguous(chunks, stream, Some(subStream), (stream, subStream), cur);
    HintIrrelevantIff(chunks, stream, Some(subStream), cur);
  }

  /** Without one it may: two sub-streams that both hold the sample. */
  lemma {:induction false} HintMattersUnfiltered(f: Found, g: Found, cur: nat)
    requires f.samp.streamId == g.samp.streamId && f.samp.subStreamId != g.samp.subStreamId
    requires cur < f.samp.numSamples && cur < g.samp.numSamples
    ensures Locate([f, g], f.samp.streamId, None, cur, 0) == Some(0)
    ensures Locate([f, g], f.samp.streamId, None, cur, 1) == Some(1)
  {
    var chunks, stream := [f, g], f.samp.streamId;
    assert SamplesBefore(chunks, KeyOf(g), 0) == 0;
    assert SamplesBefore(chunks, KeyOf(g), 1) == 0;
    LocateAtHint(chunks, stream, None, cur, 0);
    LocateAtHint(chunks, stream, None, cur, 1);
  }
}
