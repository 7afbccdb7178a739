/**
 Reading samples and seeking in an RTSA source (src/file_source.rs).  Samples are
 delivered as the bytes they are stored in; turning those into floats is left out.
 */
module Playback {
  import opened Bits
  import opened ByteFile
  import opened Chunks
  import opened ChunkScan
  import opened PlaybackIndex
  import opened Results

  datatype ReadError =
    | NotPairs(offset: nat)
    | NoCompleteSample(offset: nat)
    | CompressedPayload(offset: nat)
    | UnexpectedEof
    | SeekOutOfBounds
    | NoSuchSample

  /** Delivered samples: how many, and their bytes. */
  datatype Samples = Samples(count: nat, bytes: seq<byte>)

  // ---------------------------------------------------------------- one chunk

  predicate IsFloat(t: SampleType) {
    t == F32 || t == F32N
  }

  predicate IsInt16(t: SampleType) {
    t == S16 || t == S16N
  }

  /** The largest u32. */
  const U32_MAX: nat := 0xFFFF_FFFF

  const U64_VALUES: nat := 0x1_0000_0000_0000_0000

  /** A u64 that has wrapped around. */
  function Wrap64(x: nat): (w: nat)
    ensures w == x <==> x < U64_VALUES
  {
    x % U64_VALUES
  }

  function SaturatingSub(a: nat, b: nat): nat {
    if a < b then 0 else a - b
  }

  function Times(a: nat, b: nat): nat {
    a * b
  }

  /** Whole samples in `payload` bytes; none when a sample has no width. */
  function WholeSamples(payload: nat, stride: nat): nat {
    if stride == 0 then 0 else payload / stride
  }

  /** Bytes of the samples before the `before`-th; the count passes through a u32, the product is a u64. */
  function BytesToSkip(samp: Samp, before: nat): nat {
    Wrap64(Times(before % U32_VALUES, samp.Stride()))
  }

  /** Where a chunk's data starts. */
  function DataStart(f: Found): nat {
    Wrap64(f.offset + f.samp.headerSize)
  }

  /** Where the bytes of the `before`-th sample of a chunk start. */
  function DataOffset(f: Found, before: nat): nat {
    Wrap64(f.offset + f.samp.headerSize + BytesToSkip(f.samp, before))
  }

  /** How many samples one read takes from a chunk. */
  function ToRead(samp: Samp, before: nat, num: nat): nat {
    var wanted := Min(Min(num, U32_MAX), SaturatingSub(samp.numSamples, before % U32_VALUES));
    if samp.compression == 0 then
      var payload := SaturatingSub(SaturatingSub(samp.size, samp.headerSize), BytesToSkip(samp, before));
      Min(wanted, Min(WholeSamples(payload, samp.Stride()), U32_MAX))
    else wanted
  }

  datatype ChunkRead = Fail(error: ReadError) | Skip | Deliver(at: nat, count: nat, width: nat)

  /** What a read does with the chunk it has found: the branches of `read_samples`. */
  function ReadChunk(f: Found, before: nat, num: nat): ChunkRead {
    var samp := f.samp;
    var isPair := IsFloat(samp.sampleType) || IsInt16(samp.sampleType);
    var n := ToRead(samp, before, num);
    if samp.payloadType == Iq && isPair && samp.sampleSize != 2 then Fail(NotPairs(f.offset))
    else if samp.compression == 0 && n == 0 && num > 0 && samp.numSamples > before % U32_VALUES then
      Fail(NoCompleteSample(f.offset))
    else match samp.payloadType
      case Iq =>
        if IsFloat(samp.sampleType) then
          if samp.compression > 0 then Fail(CompressedPayload(f.offset)) else Deliver(DataOffset(f, before), n, 8)
        else if IsInt16(samp.sampleType) then Deliver(DataOffset(f, before), n, 4)
        else Skip
      case Spectra =>
        if IsFloat(samp.sampleType) then
          if samp.compression > 0 then Fail(CompressedPayload(f.offset))
          else Deliver(DataOffset(f, before), n, samp.sampleSize * 4)
        else Skip
      case OtherPayload => Skip
  }

  // ---------------------------------------------------------------- a whole read

  datatype Read = Read(result: Result<Option<Samples>, ReadError>, cur: nat, hint: nat)

  /** No chunk ends beyond this sample. */
  function LastEnd(chunks: seq<Found>, n: nat): nat
    requires n <= |chunks|
  {
    if n == 0 then 0
    else
      var rest, end := LastEnd(chunks, n - 1), EndOf(chunks, n - 1);
      if rest < end then end else rest
  }

  lemma {:induction false} EndBelowLast(chunks: seq<Found>, i: nat, n: nat)
    requires i < n <= |chunks|
    ensures EndOf(chunks, i) <= LastEnd(chunks, n)
  {
    if i < n - 1 {
      EndBelowLast(chunks, i, n - 1);
    }
  }

  /** The result of `read_samples` and the cursor and hint it leaves behind. */
  ghost function ReadFrom(
    file: seq<byte>, chunks: seq<Found>, stream: nat, filter: Option<nat>, cur: nat, hint: nat, num: nat): Read
    decreases SaturatingSub(LastEnd(chunks, |chunks|), cur)
  {
    match Locate(chunks, stream, filter, cur, hint)
    case None => Read(Ok(None), cur, hint)
    case Some(i) =>
      EndBelowLast(chunks, i, |chunks|);
      match ReadChunk(chunks[i], cur - StartOf(chunks, i), num)
      case Fail(e) => Read(Err(e), cur, i)
      case Skip => ReadFrom(file, chunks, stream, filter, EndOf(chunks, i), i, num)
      case Deliver(at, count, width) =>
        if Times(count, width) > 0 && at + Times(count, width) > |file| then Read(Err(UnexpectedEof), cur, i)
        else Read(Ok(Some(Samples(count, Window(file, at, Times(count, width))))), cur + count, i)
  }

  class RtsaSource {
    const reader: Reader
    const chunks: seq<Found>
    const startSamples: map<nat, nat>
    const iqStreamId: nat
    const totalSamples: nat
    var currentSampleIndex: nat
    var chunkScanHint: nat

    predicate Valid() {
      Indexed(chunks) && TableFor(startSamples, chunks)
    }

    /** The standard-format part of opening a file: the chunk list is what the scan found. */
    constructor (reader: Reader, chunks: seq<Found>, iqStreamId: nat, totalSamples: nat)
      requires Indexed(chunks)
      ensures Valid() && this.reader == reader && this.chunks == chunks
      ensures this.iqStreamId == iqStreamId && this.totalSamples == totalSamples
      ensures currentSampleIndex == 0 && chunkScanHint == 0
    {
      var starts := BuildStartTable(chunks);
      this.reader, this.chunks, this.startSamples := reader, chunks, starts;
      this.iqStreamId, this.totalSamples := iqStreamId, totalSamples;
      currentSampleIndex, chunkScanHint := 0, 0;
    }

    /** The table lookup, zero for an unknown offset. */
    function StartSample(offset: nat): nat {
      if offset in startSamples then startSamples[offset] else 0
    }

    /** The scan for the chunk that holds the cursor. */
    method FindChunk(filter: Option<nat>) returns (found: Option<nat>)
      requires Valid()
      ensures found == Locate(chunks, iqStreamId, filter, currentSampleIndex, chunkScanHint)
    {
      hide LocateFrom, Holds, TableFor, Indexed, StartOf;
      var n := |chunks|;
      var startHint := if chunkScanHint < n then chunkScanHint else n;
      var k := 0;
      while k < n
        invariant k <= n
        invariant Locate(chunks, iqStreamId, filter, currentSampleIndex, chunkScanHint)
                  == LocateFrom(chunks, iqStreamId, filter, currentSampleIndex, startHint, k)
      {
        var idx := WrapIndex(startHint, n, k);
        var f := chunks[idx];
        LocateStep(chunks, iqStreamId, filter, currentSampleIndex, startHint, k);
        TableHolds(startSamples, chunks, iqStreamId, filter, currentSampleIndex, idx);
        if f.samp.streamId == iqStreamId && (filter.None? || filter == Some(f.samp.subStreamId)) {
          var start := StartSample(f.offset);
          if currentSampleIndex < start + f.samp.numSamples && currentSampleIndex >= start {
            return Some(idx);
          }
        }
        k := k + 1;
      }
      LocateNothing(chunks, iqStreamId, filter, currentSampleIndex, startHint);
      found := None;
    }

    method ReadSamples(num: nat, filter: Option<nat>) returns (r: Result<Option<Samples>, ReadError>)
      requires Valid()
      modifies this, reader
      ensures Read(r, currentSampleIndex, chunkScanHint)
              == old(ReadFrom(reader.file, chunks, iqStreamId, filter, currentSampleIndex, chunkScanHint, num))
    {
      hide Locate, ReadChunk, Window, Holds, TableFor, Indexed, StartOf, LastEnd, Times;
      ghost var goal := ReadFrom(reader.file, chunks, iqStreamId, filter, currentSampleIndex, chunkScanHint, num);
      while true
        invariant ReadFrom(reader.file, chunks, iqStreamId, filter, currentSampleIndex, chunkScanHint, num) == goal
        decreases SaturatingSub(LastEnd(chunks, |chunks|), currentSampleIndex)
      {
        var found := FindChunk(filter);
        if found.None? {
          return Ok(None);
        }
        var idx := found.value;
        HoldsRange(chunks, iqStreamId, filter, currentSampleIndex, idx);
        TableHolds(startSamples, chunks, iqStreamId, filter, currentSampleIndex, idx);
        EndBelowLast(chunks, idx, |chunks|);
        chunkScanHint := idx;
        var f := chunks[idx];
        var start := StartSample(f.offset);
        match ReadChunk(f, currentSampleIndex - start, num) {
          case Fail(e) =>
            return Err(e);
          case Deliver(at, count, width) =>
            reader.Seek(at);
            var bytes := reader.ReadExact(Times(count, width));
            if bytes.None? {
              return Err(UnexpectedEof);
            }
            WindowIsSlice(reader.file, at, bytes.value);
            currentSampleIndex := currentSampleIndex + count;
            return Ok(Some(Samples(count, bytes.value)));
          case Skip =>
            currentSampleIndex := start + f.samp.numSamples;
        }
      }
    }

    /** Positions the cursor and the reader at a sample of the stream. */
    method SeekToSample(sampleIndex: nat) returns (r: Result<(), ReadError>)
      requires Valid()
      modifies this, reader
      ensures r.Ok? <==> sampleIndex < totalSamples && exists i: nat :: Holds(chunks, iqStreamId, None, sampleIndex, i)
      ensures r.Err? ==> currentSampleIndex == old(currentSampleIndex) && chunkScanHint == old(chunkScanHint)
      ensures r.Err? ==> reader.cursor == old(reader.cursor)
      ensures r.Err? ==> r.error == if sampleIndex >= totalSamples then SeekOutOfBounds else NoSuchSample
      ensures r.Ok? ==> currentSampleIndex == sampleIndex && chunkScanHint == 0
      ensures r.Ok? ==> exists i: nat ::
                && FirstHolding(chunks, iqStreamId, None, sampleIndex, i)
                && reader.cursor == SamplePosition(chunks, i, sampleIndex)
    {
      hide Holds, TableFor, Indexed, StartOf, Times, Wrap64;
      if sampleIndex >= totalSamples {
        return Err(SeekOutOfBounds);
      }
      var i := 0;
      while i < |chunks|
        invariant i <= |chunks|
        invariant currentSampleIndex == old(currentSampleIndex) && chunkScanHint == old(chunkScanHint)
        invariant reader.cursor == old(reader.cursor)
        invariant forall j: nat | j < i :: !Holds(chunks, iqStreamId, None, sampleIndex, j)
      {
        var f := chunks[i];
        TableHolds(startSamples, chunks, iqStreamId, None, sampleIndex, i);
        if f.samp.streamId == iqStreamId {
          var start := StartSample(f.offset);
          if start <= sampleIndex < start + f.samp.numSamples {
            assert FirstHolding(chunks, iqStreamId, None, sampleIndex, i);
            var byteOffset := Wrap64(Times(sampleIndex - start, f.samp.Stride()));
            reader.Seek(Wrap64(f.offset + f.samp.headerSize + byteOffset));
            currentSampleIndex := sampleIndex;
            chunkScanHint := 0;
            return Ok(());
          }
        }
        i := i + 1;
      }
      NothingHolds(chunks, iqStreamId, sampleIndex);
      r := Err(NoSuchSample);
    }

    /** Back to the first sample; the next read starts its search at the front. */
    method Reset()
      requires Valid()
      modifies this, reader
      ensures currentSampleIndex == 0 && chunkScanHint == 0
      ensures match FirstOfStream(chunks, iqStreamId, 0)
              case Some(i) => reader.cursor == DataStart(chunks[i])
              case None => reader.cursor == 0
    {
      currentSampleIndex := 0;
      chunkScanHint := 0;
      var i := 0;
      while i < |chunks| && chunks[i].samp.streamId != iqStreamId
        invariant i <= |chunks| && FirstOfStream(chunks, iqStreamId, 0) == FirstOfStream(chunks, iqStreamId, i)
      {
        i := i + 1;
      }
      if i < |chunks| {
        reader.Seek(DataStart(chunks[i]));
      } else {
        reader.Seek(0);
      }
    }
  }

  function FirstOfStream(chunks: seq<Found>, stream: nat, i: nat): (first: Option<nat>)
    requires i <= |chunks|
    ensures first.Some? ==> first.value < |chunks|
    decreases |chunks| - i
  {
    if i == |chunks| then None
    else if chunks[i].samp.streamId == stream then Some(i) else FirstOfStream(chunks, stream, i + 1)
  }

  lemma {:induction false} HoldsRange(chunks: seq<Found>, stream: nat, filter: Option<nat>, cur: nat, i: nat)
    requires Holds(chunks, stream, filter, cur, i)
    ensures i < |chunks| && StartOf(chunks, i) <= cur < EndOf(chunks, i)
  {
  }

  lemma {:induction false} WindowIsSlice(file: seq<byte>, at: nat, bytes: seq<byte>)
    requires bytes == [] || (at + |bytes| <= |file| && bytes == file[at..at + |bytes|])
    ensures Window(file, at, |bytes|) == bytes
  {
  }

  lemma {:induction false} NothingHolds(chunks: seq<Found>, stream: nat, cur: nat)
    requires forall j: nat | j < |chunks| :: !Holds(chunks, stream, None, cur, j)
    ensures forall j: nat :: !Holds(chunks, stream, None, cur, j)
  {
  }

  // ---------------------------------------------------------------- seek and read agree

  /** The byte position of sample `cur`, which chunk `i` holds. */
  function SamplePosition(chunks: seq<Found>, i: nat, cur: nat): nat
    requires i < |chunks| && StartOf(chunks, i) <= cur
  {
    var f := chunks[i];
    Wrap64(f.offset + f.samp.headerSize + Wrap64(Times(cur - StartOf(chunks, i), f.samp.Stride())))
  }

  /**
   After a successful seek to sample `cur` (hint zero, reader at the sample's position in
   the first chunk that holds it) an unfiltered read selects that chunk, and unless it
   fails or skips the chunk it delivers the bytes at the position the seek left.
   */
  lemma {:induction false} SeekThenRead(
    file: seq<byte>, chunks: seq<Found>, stream: nat, cur: nat, num: nat, i: nat)
    requires Indexed(chunks) && FirstHolding(chunks, stream, None, cur, i)
    ensures Locate(chunks, stream, None, cur, 0) == Some(i)
    ensures var step := ReadChunk(chunks[i], cur - StartOf(chunks, i), num);
            var read := ReadFrom(file, chunks, stream, None, cur, 0, num);
            && (step.Deliver? ==> step.at == SamplePosition(chunks, i, cur))
            && (step.Deliver? && read.result.Ok? ==>
                  && read.result.value.Some?
                  && var samples := read.result.value.value;
                     samples.bytes == Window(file, SamplePosition(chunks, i, cur), Times(samples.count, step.width))
                     && read.cur == cur + samples.count)
  {
    hide ToRead, LocateFrom, Window, Wrap64, Times;
    HoldsRange(chunks, stream, None, cur, i);
    LocateFromFront(chunks, stream, None, cur, 0, i);
    assert cur - StartOf(chunks, i) < U32_VALUES;
  }

  /** After a reset, an unfiltered read starts where the reset left the reader, unless that chunk is empty. */
  lemma {:induction false} ResetThenRead(chunks: seq<Found>, stream: nat, num: nat)
    requires FirstOfStream(chunks, stream, 0).Some?
    requires chunks[FirstOfStream(chunks, stream, 0).value].samp.numSamples > 0
    ensures var i := FirstOfStream(chunks, stream, 0).value;
            && StartOf(chunks, i) == 0
            && Locate(chunks, stream, None, 0, 0) == Some(i)
            && DataOffset(chunks[i], 0) == DataStart(chunks[i])
  {
    var i := FirstOfStream(chunks, stream, 0).value;
    FirstOfStreamIsFirst(chunks, stream, 0);
    NoneBefore(chunks, stream, i);
    assert FirstHolding(chunks, stream, None, 0, i);
    LocateFromFront(chunks, stream, None, 0, 0, i);
  }

  lemma {:induction false} FirstOfStreamIsFirst(chunks: seq<Found>, stream: nat, i: nat)
    requires i <= |chunks| && FirstOfStream(chunks, stream, i).Some?
    ensures var first := FirstOfStream(chunks, stream, i).value;
            && i <= first < |chunks| && chunks[first].samp.streamId == stream
            && forall j | i <= j < first :: chunks[j].samp.streamId != stream
    decreases |chunks| - i
  {
    if chunks[i].samp.streamId != stream {
      FirstOfStreamIsFirst(chunks, stream, i + 1);
    }
  }

  lemma {:induction false} NoneBefore(chunks: seq<Found>, stream: nat, n: nat)
    requires n <= |chunks| && forall j | 0 <= j < n :: chunks[j].samp.streamId != stream
    ensures forall subStream: nat :: SamplesBefore(chunks, (stream, subStream), n) == 0
  {
    if n > 0 {
      NoneBefore(chunks, stream, n - 1);
    }
  }
}
