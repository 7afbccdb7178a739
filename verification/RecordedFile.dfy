/**
 From writing to playback: a file of whole chunks, scanned and played, gives back the
 payloads that were written.
 */
module RecordedFile {
  import opened Bits
  import opened ByteFile
  import opened Chunks
  import opened ChunkScan
  import opened ChunkPrinting
  import opened PlaybackIndex
  import opened Playback
  import opened PlaybackExact
  import opened Results

  /** Bytes per sample of the layouts playback delivers: float pairs, int16 pairs, float spectra. */
  function SampleBytes(samp: Samp): nat {
    match samp.payloadType
    case Iq => if samp.sampleType == F32 || samp.sampleType == F32N then 8 else 4
    case Spectra => 4 * samp.sampleSize
    case OtherPayload => 0
  }

  /** A chunk written as the format means it: a 64-byte header, no compression, and all its samples. */
  predicate WrittenWell(c: ChunkText) {
    c.SampleChunk? &&
    var samp := c.text.samp;
    && samp.headerSize == 64 && samp.compression == 0
    && (match samp.payloadType
        case Iq => samp.sampleSize == 2 && samp.sampleType in {F32, F32N, S16, S16N}
        case Spectra => samp.sampleSize > 0 && samp.sampleType in {F32, F32N}
        case OtherPayload => false)
    && |c.payload| == samp.numSamples * SampleBytes(samp)
  }

  predicate OfKey(c: ChunkText, key: Key) {
    c.SampleChunk? && (c.text.samp.streamId, c.text.samp.subStreamId) == key
  }

  /** A file of whole chunks in which one sub-stream is written well; the others may hold anything. */
  predicate WrittenFile(chunks: seq<ChunkText>, key: Key)
    ensures WrittenFile(chunks, key) ==> PrintableFile(chunks)
  {
    PrintableFile(chunks) && forall c | c in chunks && OfKey(c, key) :: WrittenWell(c)
  }

  /** What was written to one sub-stream. */
  function Written(chunks: seq<ChunkText>, key: Key): seq<byte> {
    if chunks == [] then []
    else (if OfKey(chunks[0], key) then chunks[0].payload else []) + Written(chunks[1..], key)
  }

  lemma {:induction false} WellIsPlayable(c: ChunkText)
    requires WrittenWell(c)
    ensures Playable(c.text.samp)
    ensures c.text.samp.Stride() == SampleBytes(c.text.samp)
  {
  }

  /** The recording of a sub-stream, chunk after chunk from the first. */
  ghost function Recorded(file: seq<byte>, found: seq<Found>, key: Key): seq<byte> {
    if found == [] then []
    else
      var f := found[0];
      (if KeyOf(f) == key && Playable(f.samp) then Payload(file, f, 0, f.samp.numSamples) else [])
      + Recorded(file, found[1..], key)
  }

  lemma {:induction false} RecordingIsRecorded(file: seq<byte>, found: seq<Found>, key: Key)
    ensures Recording(file, found, key, |found|) == Recorded(file, found, key)
    decreases |found|
  {
    hide Payload, Playable;
    if found != [] {
      var init, last := found[..|found| - 1], found[|found| - 1];
      RecordingOfPrefix(file, found, key, |init|);
      RecordingIsRecorded(file, init, key);
      RecordedSnoc(file, init, key, last);
      assert init + [last] == found;
    }
  }

  lemma {:induction false} RecordingOfPrefix(file: seq<byte>, found: seq<Found>, key: Key, n: nat)
    requires n < |found|
    ensures Recording(file, found, key, n) == Recording(file, found[..|found| - 1], key, n)
  {
    hide Payload, Playable;
    if n > 0 {
      RecordingOfPrefix(file, found, key, n - 1);
    }
  }

  lemma {:induction false} RecordedSnoc(file: seq<byte>, found: seq<Found>, key: Key, f: Found)
    ensures Recorded(file, found + [f], key)
            == Recorded(file, found, key)
               + (if KeyOf(f) == key && Playable(f.samp) then Payload(file, f, 0, f.samp.numSamples) else [])
    decreases |found|
  {
    hide Payload, Playable;
    if found == [] {
      assert [f][1..] == [];
    } else {
      assert (found + [f])[1..] == found[1..] + [f];
      RecordedSnoc(file, found[1..], key, f);
    }
  }

  /** The payload of a chunk written well is where playback looks for it. */
  lemma {:induction false} PayloadInPlace(before: seq<byte>, c: ChunkText, after: seq<byte>)
    requires PrintableChunk(c) && WrittenWell(c)
    ensures var file, f := before + PrintChunk(c) + after, Found(|before|, c.text.samp);
            && Payload(file, f, 0, f.samp.numSamples) == c.payload
            && (|file| < U64_VALUES ==> WellFormed(file, f))
  {
    hide PrintHeader, PrintSamp;
    var file, samp := before + PrintChunk(c) + after, c.text.samp;
    WellIsPlayable(c);
    OneTimes(samp.Stride());
    var lead := before + PrintHeader(c.header) + PrintSamp(c.text);
    assert file == lead + c.payload + after;
    assert Times(samp.numSamples, samp.Stride()) == |c.payload|;
    assert file[|lead|..|lead| + |c.payload|] == c.payload;
  }

  lemma {:induction false} RecordedFirst(file: seq<byte>, f: Found, rest: seq<Found>, key: Key)
    ensures Recorded(file, [f] + rest, key)
            == (if KeyOf(f) == key && Playable(f.samp) then Payload(file, f, 0, f.samp.numSamples) else [])
               + Recorded(file, rest, key)
  {
    assert ([f] + rest)[1..] == rest;
  }

  lemma {:induction false} SampleChunksFirst(chunks: seq<ChunkText>, at: nat)
    requires chunks != []
    ensures var c, rest := chunks[0], SampleChunks(chunks[1..], at + chunks[0].header.size);
            SampleChunks(chunks, at) == if c.SampleChunk? then [Found(at, c.text.samp)] + rest else rest
  {
  }

  /** What is recorded in the printed chunks is what was written, and every chunk of the sub-stream is well formed. */
  lemma {:induction false} RecordedIsWritten(before: seq<byte>, chunks: seq<ChunkText>, key: Key)
    requires WrittenFile(chunks, key)
    ensures var file, found := before + PrintFile(chunks), SampleChunks(chunks, |before|);
            && Recorded(file, found, key) == Written(chunks, key)
            && (|file| < U64_VALUES ==> forall f | f in found && KeyOf(f) == key :: WellFormed(file, f))
    decreases |chunks|
  {
    hide PrintChunk, WrittenWell, WellFormed, Payload, Playable, Recorded, SampleChunks;
    if chunks == [] {
      NothingRecorded(before, key);
    } else {
      var c, rest := chunks[0], PrintFile(chunks[1..]);
      var file := before + PrintFile(chunks);
      assert file == before + PrintChunk(c) + rest;
      RecordedIsWritten(before + PrintChunk(c), chunks[1..], key);
      SampleChunksFirst(chunks, |before|);
      if c.SampleChunk? {
        RecordedFirst(file, Found(|before|, c.text.samp), SampleChunks(chunks[1..], |before| + c.header.size), key);
        if OfKey(c, key) {
          PayloadInPlace(before, c, rest);
          WellIsPlayable(c);
        }
      }
    }
  }

  lemma {:induction false} NothingRecorded(before: seq<byte>, key: Key)
    ensures SampleChunks([], |before|) == [] && Recorded(before, [], key) == [] && before + PrintFile([]) == before
  {
  }

  /**
   From file to samples: scanning a written file and playing one of its sub-streams, with
   any positive request sizes, delivers a prefix of what was written to it, and reports
   the end exactly when all of that has been delivered.
   */
  lemma {:induction false} PlaybackOfWritten(
    chunks: seq<ChunkText>, stream: nat, subStream: nat, requests: seq<nat>)
    requires WrittenFile(chunks, (stream, subStream)) && |PrintFile(chunks)| < U64_VALUES
    requires forall num | num in requests :: num > 0
    ensures var file, written := PrintFile(chunks), Written(chunks, (stream, subStream));
            var scan := Walk(file, 0, |file|, true);
            var run := Play(file, scan.found, stream, Some(subStream), 0, 0, requests);
            && scan.complete
            && run.delivered <= written
            && (requests != [] ==>
                  (run.ended <==> Play(file, scan.found, stream, Some(subStream), 0, 0,
                                       requests[..|requests| - 1]).delivered == written))
  {
    hide Play, Walk, WellFormed, Recording, Recorded, Written, Rest, SampleChunks, PrintFile, SelectsKey, WrittenFile;
    var key := (stream, subStream);
    assert PrintableFile(chunks);
    var file := PrintFile(chunks);
    ScanOfPrinted([], chunks, []);
    assert [] + file + [] == file && [] + file == file;
    var found := Walk(file, 0, |file|, true).found;
    RecordedIsWritten([], chunks, key);
    RecordingIsRecorded(file, found, key);
    FilterSelectsKey(found, stream, subStream);
    PlaybackFromStart(file, found, stream, Some(subStream), key, requests);
  }
}
