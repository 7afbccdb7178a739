/**
 Playback of one sub-stream delivers exactly its samples: nothing is lost, repeated or
 reordered, whatever the request sizes and wherever the chunk search starts.
 */
module PlaybackExact {
  import opened Bits
  import opened ByteFile
  import opened Chunks
  import opened ChunkScan
  import opened PlaybackIndex
  import opened Playback
  import opened Results

  // ---------------------------------------------------------------- well-formed chunks

  /** A chunk whose samples a read delivers: uncompressed float or int16 IQ pairs, or float spectra. */
  predicate Playable(samp: Samp) {
    && samp.compression == 0
    && samp.sampleSize > 0
    && ((samp.payloadType == Iq && samp.sampleSize == 2 && samp.sampleType in {F32, F32N, S16, S16N})
        || (samp.payloadType == Spectra && samp.sampleType in {F32, F32N}))
  }

  /** The payload and sample types a read can turn into samples. */
  predicate Decodable(samp: Samp) {
    match samp.payloadType
    case Iq => samp.sampleType in {F32, F32N, S16, S16N}
    case Spectra => samp.sampleType in {F32, F32N}
    case OtherPayload => false
  }

  /** A chunk of another known payload or sample type: a read skips it whole. */
  predicate Unsupported(samp: Samp) {
    samp.sampleType != UnknownType && !Decodable(samp)
  }

  /** A playable chunk's samples are all in the chunk and in the file; a skipped one holds at least one sample. */
  predicate WellFormed(file: seq<byte>, f: Found) {
    var samp := f.samp;
    && samp.numSamples < U32_VALUES
    && (if Playable(samp) then
          && samp.headerSize + Times(samp.numSamples, samp.Stride()) <= samp.size
          && f.offset + samp.headerSize + Times(samp.numSamples, samp.Stride()) <= |file| < U64_VALUES
        else
          && Unsupported(samp)
          && samp.sampleSize > 0
          && samp.headerSize + samp.Stride() <= samp.size)
  }

  /** Bytes `from..to`, counted in samples, of a chunk's payload. */
  function Payload(file: seq<byte>, f: Found, from: nat, to: nat): seq<byte> {
    var stride := f.samp.Stride();
    Window(file, f.offset + f.samp.headerSize + Times(from, stride), Times(SaturatingSub(to, from), stride))
  }

  // ---------------------------------------------------------------- arithmetic of strides

  lemma {:induction false} TimesMonotone(a: nat, b: nat, m: nat)
    requires a <= b
    ensures Times(a, m) <= Times(b, m)
  {
    Distribute(b - a, a, m);
  }

  lemma {:induction false} TimesSplit(a: nat, b: nat, m: nat)
    ensures Times(a + b, m) == Times(a, m) + Times(b, m)
  {
    Distribute(a, b, m);
  }

  lemma {:induction false} WholeSamplesOfAtLeast(n: nat, payload: nat, stride: nat)
    requires stride > 0 && Times(n, stride) <= payload
    ensures WholeSamples(payload, stride) >= n
  {
    var q, r := payload / stride, payload % stride;
    assert payload == q * stride + r;
    if q < n {
      MulAtLeast(n - q, stride);
      Distribute(n - q, q, stride);
    }
  }

  // ---------------------------------------------------------------- one chunk

  /** Within a playable chunk a read takes the wanted samples up to the end of the chunk, from where they are stored. */
  lemma {:induction false} PlayableRead(file: seq<byte>, f: Found, before: nat, num: nat)
    requires WellFormed(file, f) && Playable(f.samp) && before < f.samp.numSamples && num > 0
    ensures var n := Min(Min(num, U32_MAX), f.samp.numSamples - before);
            && n > 0
            && ReadChunk(f, before, num)
               == Deliver(f.offset + f.samp.headerSize + Times(before, f.samp.Stride()), n, f.samp.Stride())
  {
    hide Times, WholeSamples, Wrap64;
    var samp := f.samp;
    var stride := samp.Stride();
    PlayableStride(samp);
    OffsetsFit(file, f, before);
    var rest := samp.numSamples - before;
    TimesSplit(before, rest, stride);
    WholeSamplesOfAtLeast(rest, samp.size - samp.headerSize - Times(before, stride), stride);
    assert before % U32_VALUES == before;
  }

  lemma {:induction false} PlayableStride(samp: Samp)
    requires Playable(samp)
    ensures samp.Stride() > 0
    ensures samp.Stride()
            == if samp.payloadType == Spectra then samp.sampleSize * 4
               else if samp.sampleType in {F32, F32N} then 8 else 4
  {
  }

  /** In a well-formed playable chunk no u64 position wraps around. */
  lemma {:induction false} OffsetsFit(file: seq<byte>, f: Found, before: nat)
    requires WellFormed(file, f) && Playable(f.samp) && before <= f.samp.numSamples
    ensures BytesToSkip(f.samp, before) == Times(before, f.samp.Stride())
    ensures DataOffset(f, before) == f.offset + f.samp.headerSize + Times(before, f.samp.Stride())
  {
    hide Times;
    TimesMonotone(before, f.samp.numSamples, f.samp.Stride());
    assert before % U32_VALUES == before;
  }

  /** With an absurd sample width they do: the product of 2^31 samples and their stride is past the largest u64. */
  lemma {:induction false} SkipWraps(samp: Samp)
    requires samp.sampleSize == U32_MAX && samp.sampleType == F32
    ensures BytesToSkip(samp, 0x8000_0000) == Times(0x8000_0000, samp.Stride()) - U64_VALUES
  {
    assert samp.Stride() == 0x3_FFFF_FFFC;
    assert Times(0x8000_0000, samp.Stride()) == 0x1_FFFF_FFFE_0000_0000;
  }

  /**
   Exactly which chunks a read skips: those it cannot decode, unless they are
   uncompressed and hold no complete sample at the cursor; a chunk of unknown sample
   type, having no stride, never holds one.
   */
  lemma {:induction false} SkippedIff(f: Found, before: nat, num: nat)
    requires before < f.samp.numSamples < U32_VALUES && num > 0
    ensures var samp, skip := f.samp, BytesToSkip(f.samp, before);
            ReadChunk(f, before, num) == Skip
            <==> !Decodable(samp)
                 && (samp.compression != 0
                     || (samp.Stride() > 0 && samp.headerSize + skip + samp.Stride() <= samp.size))
    ensures var samp := f.samp;
            Times(before, samp.Stride()) < U64_VALUES ==>
              (ReadChunk(f, before, num) == Skip
               <==> !Decodable(samp)
                    && (samp.compression != 0
                        || (samp.Stride() > 0 && samp.headerSize + Times(before + 1, samp.Stride()) <= samp.size)))
    ensures !Decodable(f.samp) ==>
              ReadChunk(f, before, num) == Skip || ReadChunk(f, before, num) == Fail(NoCompleteSample(f.offset))
  {
    hide Times, WholeSamples, BytesToSkip;
    var samp, skip := f.samp, BytesToSkip(f.samp, before);
    var stride := samp.Stride();
    assert before % U32_VALUES == before;
    WholeSampleIff(SaturatingSub(SaturatingSub(samp.size, samp.headerSize), skip), stride);
    TimesSplit(before, 1, stride);
    OneTimes(stride);
    SkipIsExact(samp, before);
  }

  /**
   What a read does with a chunk it can decode.  Pairs must be pairs.  Uncompressed, it
   takes as many samples as are wanted, left, and wholly in the chunk, and fails when that
   is none; a compressed float chunk always fails.  Compressed int16, and anything under a
   negative factor, is read as it stands, unchecked against the chunk's size.
   */
  lemma {:induction false} DecodableRead(f: Found, before: nat, num: nat)
    requires before < f.samp.numSamples < U32_VALUES && num > 0 && Decodable(f.samp)
    ensures var samp, read := f.samp, ReadChunk(f, before, num);
            var left := samp.numSamples - before;
            var unchecked := if num < left then num else left;
            var width :=
              if samp.payloadType == Spectra then samp.sampleSize * 4
              else if samp.sampleType in {F32, F32N} then 8 else 4;
            var start := samp.headerSize + BytesToSkip(samp, before);
            if samp.payloadType == Iq && samp.sampleSize != 2 then read == Fail(NotPairs(f.offset))
            else if samp.compression > 0 && samp.sampleType in {F32, F32N} then
              read == Fail(CompressedPayload(f.offset))
            else if samp.compression != 0 then read == Deliver(DataOffset(f, before), unchecked, width)
            else if width == 0 || start + width > samp.size then read == Fail(NoCompleteSample(f.offset))
            else
              && read.Deliver? && read.at == DataOffset(f, before) && read.width == width
              && 0 < read.count <= unchecked && start + Times(read.count, width) <= samp.size
              && (read.count < unchecked ==> start + Times(read.count + 1, width) > samp.size)
  {
    hide Times, WholeSamples, BytesToSkip, DataOffset;
    var samp := f.samp;
    var stride, skip := samp.Stride(), BytesToSkip(samp, before);
    assert before % U32_VALUES == before;
    assert samp.payloadType == Spectra || samp.sampleSize == 2 ==>
        stride
        == if samp.payloadType == Spectra then samp.sampleSize * 4
           else if samp.sampleType in {F32, F32N} then 8 else 4;
    var payload := SaturatingSub(SaturatingSub(samp.size, samp.headerSize), skip);
    WholeSampleIff(payload, stride);
    WholeSamplesFit(payload, stride);
    if stride > 0 {
      var n := ToRead(samp, before, num);
      TimesMonotone(if n <= WholeSamples(payload, stride) then n else 0, WholeSamples(payload, stride), stride);
      if Times(WholeSamples(payload, stride) + 1, stride) <= payload {
        WholeSamplesOfAtLeast(WholeSamples(payload, stride) + 1, payload, stride);
      }
    }
  }

  lemma {:induction false} SkipIsExact(samp: Samp, before: nat)
    requires before < U32_VALUES
    ensures BytesToSkip(samp, before) == Times(before, samp.Stride()) <==> Times(before, samp.Stride()) < U64_VALUES
  {
    assert before % U32_VALUES == before;
  }

  lemma {:induction false} WholeSampleIff(payload: nat, stride: nat)
    ensures WholeSamples(payload, stride) > 0 <==> stride > 0 && payload >= stride
  {
    hide Times;
    OneTimes(stride);
    if stride > 0 && payload >= stride {
      WholeSamplesOfAtLeast(1, payload, stride);
    } else if stride > 0 {
      DivModUnique(payload, stride, 0, payload);
    }
  }

  /** A failing chunk, or one whose samples run off the file, is an error that leaves the cursor where it was. */
  lemma {:induction false} FailedRead(
    file: seq<byte>, chunks: seq<Found>, stream: nat, filter: Option<nat>, cur: nat, hint: nat, num: nat, i: nat)
    requires Locate(chunks, stream, filter, cur, hint) == Some(i)
    ensures var step, read := ReadChunk(chunks[i], cur - StartOf(chunks, i), num),
                              ReadFrom(file, chunks, stream, filter, cur, hint, num);
            && (step.Fail? ==> read == Read(Err(step.error), cur, i))
            && (step.Deliver? && 0 < Times(step.count, step.width) && |file| < step.at + Times(step.count, step.width)
                ==> read == Read(Err(UnexpectedEof), cur, i))
  {
    hide ReadChunk, Locate, Times, StartOf;
  }

  /** From its first sample, an unsupported chunk is skipped. */
  lemma {:induction false} UnsupportedSkipped(file: seq<byte>, f: Found, num: nat)
    requires WellFormed(file, f) && !Playable(f.samp) && f.samp.numSamples > 0 && num > 0
    ensures ReadChunk(f, 0, num) == Skip
  {
    hide Times, WholeSamples;
    SkippedIff(f, 0, num);
    MulAtLeast(f.samp.sampleSize, f.samp.ValueBytes());
    OneTimes(f.samp.Stride());
    SkipIsExact(f.samp, 0);
  }

  lemma {:induction false} OneTimes(m: nat)
    ensures Times(0, m) == 0 && Times(1, m) == m
  {
  }

  /** An uncompressed chunk of unknown sample type is an error, not a chunk to skip. */
  lemma {:induction false} UnknownTypeFails(f: Found, before: nat, num: nat)
    requires f.samp.sampleType == UnknownType && f.samp.compression == 0
    requires before < f.samp.numSamples < U32_VALUES && num > 0
    ensures ReadChunk(f, before, num) == Fail(NoCompleteSample(f.offset))
  {
    hide ReadChunk, BytesToSkip;
    SkippedIff(f, before, num);
  }

  /** Whatever an uncompressed chunk's header declares, a read stays inside the chunk. */
  lemma {:induction false} ReadStaysInChunk(f: Found, before: nat, num: nat)
    requires f.offset + f.samp.size < U64_VALUES
    requires f.samp.compression == 0 && ReadChunk(f, before, num).Deliver? && ReadChunk(f, before, num).count > 0
    ensures var Deliver(at, count, width) := ReadChunk(f, before, num);
            && f.offset + f.samp.headerSize <= at
            && at + Times(count, width) <= f.offset + f.samp.size
  {
    hide Times, WholeSamples;
    var samp := f.samp;
    var step, stride, skip := ReadChunk(f, before, num), samp.Stride(), BytesToSkip(samp, before);
    DeliveredWidth(f, before, num);
    var payload := SaturatingSub(SaturatingSub(samp.size, samp.headerSize), skip);
    WholeSamplesFit(payload, stride);
    TimesMonotone(step.count, WholeSamples(payload, stride), stride);
    SomeSampleFits(payload, stride);
  }

  /** Samples are read at the stride they are stored at. */
  lemma {:induction false} DeliveredWidth(f: Found, before: nat, num: nat)
    requires ReadChunk(f, before, num).Deliver?
    ensures ReadChunk(f, before, num).width == f.samp.Stride()
    ensures ReadChunk(f, before, num).at == DataOffset(f, before)
    ensures ReadChunk(f, before, num).count == ToRead(f.samp, before, num)
  {
    hide ToRead, DataOffset;
  }

  lemma {:induction false} WholeSamplesFit(payload: nat, stride: nat)
    ensures Times(WholeSamples(payload, stride), stride) <= payload
  {
    if stride > 0 {
      assert payload == payload / stride * stride + payload % stride;
    }
  }

  lemma {:induction false} SomeSampleFits(payload: nat, stride: nat)
    ensures WholeSamples(payload, stride) > 0 ==> payload > 0
  {
    if stride > 0 && payload == 0 {
      DivModUnique(0, stride, 0, 0);
    }
  }

  lemma {:induction false} WindowSplit(file: seq<byte>, p: nat, a: nat, b: nat)
    requires p + a + b <= |file|
    ensures Window(file, p, a + b) == Window(file, p, a) + Window(file, p + a, b)
  {
  }

  lemma {:induction false} PayloadSplit(file: seq<byte>, f: Found, from: nat, mid: nat, to: nat)
    requires WellFormed(file, f) && Playable(f.samp) && from <= mid <= to <= f.samp.numSamples
    ensures Payload(file, f, from, to) == Payload(file, f, from, mid) + Payload(file, f, mid, to)
  {
    hide Times;
    var stride := f.samp.Stride();
    TimesSplit(from, mid - from, stride);
    TimesSplit(mid - from, to - mid, stride);
    TimesSplit(from, to - from, stride);
    TimesMonotone(to, f.samp.numSamples, stride);
    var at := f.offset + f.samp.headerSize + Times(from, stride);
    WindowSplit(file, at, Times(mid - from, stride), Times(to - mid, stride));
  }

  // ---------------------------------------------------------------- what is left to play

  /** The sub-stream being played and the file it is in: all its chunks are well formed. */
  ghost predicate Playing(file: seq<byte>, chunks: seq<Found>, stream: nat, filter: Option<nat>, key: Key) {
    && SelectsKey(chunks, stream, filter, key)
    && forall f | f in chunks && KeyOf(f) == key :: WellFormed(file, f)
  }

  /** Bytes that chunk `i` still has to contribute when the cursor is at `cur`. */
  ghost function Share(file: seq<byte>, chunks: seq<Found>, key: Key, cur: nat, i: nat): seq<byte>
    requires i < |chunks|
  {
    var f, start := chunks[i], StartOf(chunks, i);
    if KeyOf(f) != key || !Playable(f.samp) || EndOf(chunks, i) <= cur then []
    else Payload(file, f, if cur < start then 0 else cur - start, f.samp.numSamples)
  }

  /** What the first `n` chunks still have to contribute, in file order. */
  ghost function Rest(file: seq<byte>, chunks: seq<Found>, key: Key, cur: nat, n: nat): seq<byte>
    requires n <= |chunks|
  {
    if n == 0 then [] else Rest(file, chunks, key, cur, n - 1) + Share(file, chunks, key, cur, n - 1)
  }

  /** The payloads of the sub-stream's playable chunks, one after another. */
  ghost function Recording(file: seq<byte>, chunks: seq<Found>, key: Key, n: nat): seq<byte>
    requires n <= |chunks|
  {
    if n == 0 then []
    else
      var f := chunks[n - 1];
      Recording(file, chunks, key, n - 1)
      + (if KeyOf(f) == key && Playable(f.samp) then Payload(file, f, 0, f.samp.numSamples) else [])
  }

  /** The cursor is not inside a chunk that can only be skipped whole. */
  ghost predicate AtBoundary(chunks: seq<Found>, key: Key, cur: nat) {
    forall i: nat | i < |chunks| && KeyOf(chunks[i]) == key && !Playable(chunks[i].samp) ::
      !(StartOf(chunks, i) < cur < EndOf(chunks, i))
  }

  lemma {:induction false} PayloadNothing(file: seq<byte>, f: Found, at: nat)
    ensures Payload(file, f, at, at) == []
  {
    OneTimes(f.samp.Stride());
  }

  /** At the start of the recording everything is left. */
  lemma {:induction false} RestAtStart(file: seq<byte>, chunks: seq<Found>, key: Key, n: nat)
    requires n <= |chunks|
    ensures Rest(file, chunks, key, 0, n) == Recording(file, chunks, key, n)
  {
    hide Payload;
    if n > 0 {
      RestAtStart(file, chunks, key, n - 1);
      if chunks[n - 1].samp.numSamples == 0 {
        PayloadNothing(file, chunks[n - 1], 0);
      }
    }
  }

  /** Once no sample of the sub-stream lies at or past the cursor, nothing is left. */
  lemma {:induction false} RestAtEnd(file: seq<byte>, chunks: seq<Found>, key: Key, cur: nat, n: nat)
    requires n <= |chunks| && SamplesBefore(chunks, key, n) <= cur
    ensures Rest(file, chunks, key, cur, n) == []
  {
    if n > 0 {
      RestAtEnd(file, chunks, key, cur, n - 1);
    }
  }

  /** Moving the cursor inside chunk `i` takes bytes off chunk `i`'s share only, and those come first. */
  lemma {:induction false} RestAdvances(
    file: seq<byte>, chunks: seq<Found>, key: Key, cur: nat, next: nat, i: nat, n: nat, taken: seq<byte>)
    requires i < |chunks| && KeyOf(chunks[i]) == key && n <= |chunks|
    requires StartOf(chunks, i) <= cur <= next <= EndOf(chunks, i)
    requires Share(file, chunks, key, cur, i) == taken + Share(file, chunks, key, next, i)
    ensures n <= i ==> Rest(file, chunks, key, cur, n) == [] == Rest(file, chunks, key, next, n)
    ensures i < n ==> Rest(file, chunks, key, cur, n) == taken + Rest(file, chunks, key, next, n)
  {
    hide Share, Payload;
    if n <= i {
      SamplesBeforeMonotone(chunks, key, n, i);
      RestAtEnd(file, chunks, key, cur, n);
      RestAtEnd(file, chunks, key, next, n);
    } else {
      RestAdvances(file, chunks, key, cur, next, i, n - 1, taken);
      if n - 1 > i {
        SamplesBeforeMonotone(chunks, key, i + 1, n - 1);
        ShareOfLater(file, chunks, key, cur, next, n - 1);
        AppendAssociates(taken, Rest(file, chunks, key, next, n - 1), Share(file, chunks, key, cur, n - 1));
      }
    }
  }

  lemma {:induction false} AppendAssociates<T>(a: seq<T>, b: seq<T>, c: seq<T>)
    ensures a + b + c == a + (b + c)
  {
  }

  lemma {:induction false} ShareOfLater(file: seq<byte>, chunks: seq<Found>, key: Key, cur: nat, next: nat, j: nat)
    requires j < |chunks| && cur <= next
    requires KeyOf(chunks[j]) == key ==> next <= StartOf(chunks, j)
    ensures Share(file, chunks, key, cur, j) == Share(file, chunks, key, next, j)
  {
    hide Payload;
    if KeyOf(chunks[j]) == key && chunks[j].samp.numSamples == 0 {
      PayloadNothing(file, chunks[j], 0);
    }
  }

  // ---------------------------------------------------------------- one read

  /** A place in a playable chunk, or at the end of any chunk, is inside no chunk to be skipped. */
  lemma {:induction false} BoundaryInside(chunks: seq<Found>, key: Key, i: nat, cur: nat)
    requires i < |chunks| && KeyOf(chunks[i]) == key
    requires StartOf(chunks, i) <= cur <= EndOf(chunks, i)
    requires Playable(chunks[i].samp) || cur == EndOf(chunks, i)
    ensures AtBoundary(chunks, key, cur)
  {
    hide Playable;
    forall j: nat | j < |chunks| && KeyOf(chunks[j]) == key && !Playable(chunks[j].samp)
      ensures !(StartOf(chunks, j) < cur < EndOf(chunks, j))
    {
      if j < i {
        SamplesBeforeMonotone(chunks, key, j + 1, i);
      } else if i < j {
        SamplesBeforeMonotone(chunks, key, i + 1, j);
      }
    }
  }

  /** What one read contributes to the playback. */
  function Bytes(read: Read): seq<byte> {
    if read.result.Ok? && read.result.value.Some? then read.result.value.value.bytes else []
  }

  /**
   One read of a positive number of samples: it never fails; it returns nothing exactly
   when nothing is left; otherwise it returns the next bytes of what is left, at least
   one sample of them, and moves the cursor past them.
   */
  lemma {:induction false} ReadIsExact(
    file: seq<byte>, chunks: seq<Found>, stream: nat, filter: Option<nat>, key: Key, cur: nat, hint: nat, num: nat)
    requires Playing(file, chunks, stream, filter, key) && AtBoundary(chunks, key, cur) && num > 0
    ensures var read := ReadFrom(file, chunks, stream, filter, cur, hint, num);
            && read.result.Ok?
            && Rest(file, chunks, key, cur, |chunks|) == Bytes(read) + Rest(file, chunks, key, read.cur, |chunks|)
            && (read.result.value.None? <==> Rest(file, chunks, key, cur, |chunks|) == [])
            && (read.result.value.Some? ==> read.cur > cur && 0 < read.result.value.value.count <= num)
            && AtBoundary(chunks, key, read.cur)
    decreases SaturatingSub(LastEnd(chunks, |chunks|), cur)
  {
    hide Locate, ReadChunk, Rest, Share, Playable, WellFormed, AtBoundary, LastEnd;
    match Locate(chunks, stream, filter, cur, hint)
    case None =>
      NothingLeft(file, chunks, stream, filter, key, cur, hint);
      assert [] + Rest(file, chunks, key, cur, |chunks|) == Rest(file, chunks, key, cur, |chunks|);
    case Some(i) =>
      SelectedChunk(file, chunks, stream, filter, key, cur, i);
      EndBelowLast(chunks, i, |chunks|);
      if Playable(chunks[i].samp) {
        PlayableStep(file, chunks, key, cur, num, i);
      } else {
        SkipStep(file, chunks, key, cur, num, i);
        ReadIsExact(file, chunks, stream, filter, key, EndOf(chunks, i), i, num);
      }
  }

  lemma {:induction false} SelectedChunk(
    file: seq<byte>, chunks: seq<Found>, stream: nat, filter: Option<nat>, key: Key, cur: nat, i: nat)
    requires Playing(file, chunks, stream, filter, key) && Holds(chunks, stream, filter, cur, i)
    ensures i < |chunks| && KeyOf(chunks[i]) == key && WellFormed(file, chunks[i])
    ensures StartOf(chunks, i) <= cur < EndOf(chunks, i)
  {
    hide WellFormed;
    assert chunks[i] in chunks;
  }

  lemma {:induction false} NothingLeft(
    file: seq<byte>, chunks: seq<Found>, stream: nat, filter: Option<nat>, key: Key, cur: nat, hint: nat)
    requires SelectsKey(chunks, stream, filter, key) && Locate(chunks, stream, filter, cur, hint).None?
    ensures Rest(file, chunks, key, cur, |chunks|) == []
  {
    if cur < SamplesBefore(chunks, key, |chunks|) {
      var i := TilesCover(chunks, key, cur, |chunks|);
      assert chunks[i] in chunks;
      LocateComplete(chunks, stream, filter, cur, hint, i);
    }
    RestAtEnd(file, chunks, key, cur, |chunks|);
  }

  lemma {:induction false} PlayableStep(file: seq<byte>, chunks: seq<Found>, key: Key, cur: nat, num: nat, i: nat)
    requires i < |chunks| && KeyOf(chunks[i]) == key && WellFormed(file, chunks[i]) && Playable(chunks[i].samp)
    requires StartOf(chunks, i) <= cur < EndOf(chunks, i) && num > 0
    ensures var step := ReadChunk(chunks[i], cur - StartOf(chunks, i), num);
            && step.Deliver?
            && 0 < step.count <= num
            && Times(step.count, step.width) > 0
            && step.at + Times(step.count, step.width) <= |file|
            && Rest(file, chunks, key, cur, |chunks|)
               == Window(file, step.at, Times(step.count, step.width))
                  + Rest(file, chunks, key, cur + step.count, |chunks|)
            && AtBoundary(chunks, key, cur + step.count)
  {
    hide Times, WholeSamples, ReadChunk, AtBoundary, Window, Rest, Playable;
    var f, start := chunks[i], StartOf(chunks, i);
    var before := cur - start;
    PlayableRead(file, f, before, num);
    PlayableStride(f.samp);
    var n := Min(Min(num, U32_MAX), f.samp.numSamples - before);
    PayloadSplit(file, f, before, before + n, f.samp.numSamples);
    SampleRange(file, f, before, n);
    if before + n == f.samp.numSamples {
      PayloadNothing(file, f, f.samp.numSamples);
    }
    RestAdvances(file, chunks, key, cur, cur + n, i, |chunks|, Payload(file, f, before, before + n));
    BoundaryInside(chunks, key, i, cur + n);
  }

  lemma {:induction false} SampleRange(file: seq<byte>, f: Found, before: nat, n: nat)
    requires WellFormed(file, f) && Playable(f.samp) && n > 0 && before + n <= f.samp.numSamples
    ensures Times(n, f.samp.Stride()) > 0
    ensures f.offset + f.samp.headerSize + Times(before, f.samp.Stride()) + Times(n, f.samp.Stride()) <= |file|
  {
    hide Times;
    var stride := f.samp.Stride();
    PlayableStride(f.samp);
    TimesSplit(before, n, stride);
    TimesMonotone(before + n, f.samp.numSamples, stride);
    OneTimes(stride);
    TimesMonotone(1, n, stride);
  }

  lemma {:induction false} SkipStep(file: seq<byte>, chunks: seq<Found>, key: Key, cur: nat, num: nat, i: nat)
    requires i < |chunks| && KeyOf(chunks[i]) == key && WellFormed(file, chunks[i]) && !Playable(chunks[i].samp)
    requires StartOf(chunks, i) <= cur < EndOf(chunks, i) && num > 0 && AtBoundary(chunks, key, cur)
    ensures ReadChunk(chunks[i], cur - StartOf(chunks, i), num) == Skip
    ensures Rest(file, chunks, key, cur, |chunks|) == Rest(file, chunks, key, EndOf(chunks, i), |chunks|)
    ensures AtBoundary(chunks, key, EndOf(chunks, i))
  {
    hide Times, WholeSamples, ReadChunk, Rest, Playable;
    assert cur == StartOf(chunks, i);
    UnsupportedSkipped(file, chunks[i], num);
    assert Share(file, chunks, key, cur, i) == [] + Share(file, chunks, key, EndOf(chunks, i), i);
    RestAdvances(file, chunks, key, cur, EndOf(chunks, i), i, |chunks|, []);
    BoundaryInside(chunks, key, i, EndOf(chunks, i));
    var rest := Rest(file, chunks, key, EndOf(chunks, i), |chunks|);
    assert [] + rest == rest;
  }

  // ---------------------------------------------------------------- runs of reads

  /** The bytes delivered by a run of reads, and the cursor and hint it ends with. */
  datatype Run = Run(delivered: seq<byte>, cur: nat, hint: nat, ended: bool)

  /** Reads with the given request sizes, one after another, from cursor `cur` and search hint `hint`. */
  ghost function Play(
    file: seq<byte>, chunks: seq<Found>, stream: nat, filter: Option<nat>, cur: nat, hint: nat,
    requests: seq<nat>): Run
    decreases |requests|
  {
    if requests == [] then Run([], cur, hint, false)
    else
      var before := Play(file, chunks, stream, filter, cur, hint, requests[..|requests| - 1]);
      var read := ReadFrom(file, chunks, stream, filter, before.cur, before.hint, requests[|requests| - 1]);
      Run(before.delivered + Bytes(read), read.cur, read.hint, read.result == Ok(None))
  }

  /**
   Playback is exact: from any cursor that is not inside a chunk to be skipped, any
   search hint and any positive request sizes, what has been delivered followed by what
   is left is what was left at the outset; and the last read came back empty-handed
   exactly when the reads before it had delivered all of it.
   */
  lemma {:induction false} PlaybackIsExact(
    file: seq<byte>, chunks: seq<Found>, stream: nat, filter: Option<nat>, key: Key, cur: nat, hint: nat,
    requests: seq<nat>)
    requires Playing(file, chunks, stream, filter, key) && AtBoundary(chunks, key, cur)
    requires forall num | num in requests :: num > 0
    ensures var run := Play(file, chunks, stream, filter, cur, hint, requests);
            var whole := Rest(file, chunks, key, cur, |chunks|);
            && run.delivered + Rest(file, chunks, key, run.cur, |chunks|) == whole
            && AtBoundary(chunks, key, run.cur)
            && (requests != [] ==>
                  (run.ended <==> Play(file, chunks, stream, filter, cur, hint, requests[..|requests| - 1]).delivered
                                  == whole))
    decreases |requests|
  {
    hide Playing, AtBoundary, Rest, ReadFrom;
    var whole := Rest(file, chunks, key, cur, |chunks|);
    if requests == [] {
      assert [] + whole == whole;
    } else {
      var init, num := requests[..|requests| - 1], requests[|requests| - 1];
      assert forall n | n in init :: n in requests;
      PlaybackIsExact(file, chunks, stream, filter, key, cur, hint, init);
      var before := Play(file, chunks, stream, filter, cur, hint, init);
      var read := ReadFrom(file, chunks, stream, filter, before.cur, before.hint, num);
      assert num in requests;
      ReadIsExact(file, chunks, stream, filter, key, before.cur, before.hint, num);
      AppendAssociates(before.delivered, Bytes(read), Rest(file, chunks, key, read.cur, |chunks|));
      NothingMoreIff(before.delivered, Rest(file, chunks, key, before.cur, |chunks|));
    }
  }

  /** From the start, a prefix of the recording is delivered, all of it exactly when the end is reported next. */
  lemma {:induction false} PlaybackFromStart(
    file: seq<byte>, chunks: seq<Found>, stream: nat, filter: Option<nat>, key: Key, requests: seq<nat>)
    requires Playing(file, chunks, stream, filter, key)
    requires forall num | num in requests :: num > 0
    ensures var run := Play(file, chunks, stream, filter, 0, 0, requests);
            && run.delivered + Rest(file, chunks, key, run.cur, |chunks|) == Recording(file, chunks, key, |chunks|)
            && run.delivered <= Recording(file, chunks, key, |chunks|)
            && (requests != [] ==>
                  (run.ended <==> Play(file, chunks, stream, filter, 0, 0, requests[..|requests| - 1]).delivered
                                  == Recording(file, chunks, key, |chunks|)))
  {
    hide Playing, AtBoundary, Rest, Recording, Play;
    RestAtStart(file, chunks, key, |chunks|);
    StartIsBoundary(chunks, key);
    PlaybackIsExact(file, chunks, stream, filter, key, 0, 0, requests);
  }

  /**
   After a seek to sample `cur` of playable chunk `i`, what is left is the recording from
   that sample on, and playback delivers it from there.
   */
  lemma {:induction false} SeekThenPlay(
    file: seq<byte>, chunks: seq<Found>, stream: nat, filter: Option<nat>, key: Key, cur: nat, i: nat,
    requests: seq<nat>)
    requires Playing(file, chunks, stream, filter, key) && Holds(chunks, stream, filter, cur, i)
    requires Playable(chunks[i].samp)
    requires forall num | num in requests :: num > 0
    ensures var run, f := Play(file, chunks, stream, filter, cur, 0, requests), chunks[i];
            && run.delivered + Rest(file, chunks, key, run.cur, |chunks|)
               == Payload(file, f, cur - StartOf(chunks, i), f.samp.numSamples)
                  + Rest(file, chunks, key, EndOf(chunks, i), |chunks|)
            && Recording(file, chunks, key, |chunks|)
               == Recording(file, chunks, key, i) + Payload(file, f, 0, cur - StartOf(chunks, i))
                  + run.delivered + Rest(file, chunks, key, run.cur, |chunks|)
  {
    hide Playing, AtBoundary, Rest, Recording, Play, Payload, WellFormed, Playable;
    var f, before := chunks[i], cur - StartOf(chunks, i);
    SelectedChunk(file, chunks, stream, filter, key, cur, i);
    BoundaryInside(chunks, key, i, cur);
    PlaybackIsExact(file, chunks, stream, filter, key, cur, 0, requests);
    RecordingSplits(file, chunks, key, cur, i, |chunks|);
    PayloadNothing(file, f, f.samp.numSamples);
    RestAdvances(file, chunks, key, cur, EndOf(chunks, i), i, |chunks|, Payload(file, f, before, f.samp.numSamples));
    var run := Play(file, chunks, stream, filter, cur, 0, requests);
    AppendAssociates(Recording(file, chunks, key, i) + Payload(file, f, 0, before), run.delivered,
                     Rest(file, chunks, key, run.cur, |chunks|));
  }

  /** The recording is what lies before a place in playable chunk `i` followed by what is left there. */
  lemma {:induction false} RecordingSplits(
    file: seq<byte>, chunks: seq<Found>, key: Key, cur: nat, i: nat, n: nat)
    requires i < n <= |chunks| && KeyOf(chunks[i]) == key && Playable(chunks[i].samp) && WellFormed(file, chunks[i])
    requires StartOf(chunks, i) <= cur < EndOf(chunks, i)
    ensures Recording(file, chunks, key, n)
            == Recording(file, chunks, key, i) + Payload(file, chunks[i], 0, cur - StartOf(chunks, i))
               + Rest(file, chunks, key, cur, n)
    decreases n
  {
    hide Payload, Playable, WellFormed, Share, StartOf;
    var f, last, into := chunks[i], n - 1, cur - StartOf(chunks, i);
    var before := Recording(file, chunks, key, i) + Payload(file, f, 0, into);
    if last == i {
      RestAtEndOf(file, chunks, key, cur, i);
      PartialShare(file, chunks, key, cur, i);
      PayloadSplit(file, f, 0, into, f.samp.numSamples);
      AppendAssociates(Recording(file, chunks, key, i), Payload(file, f, 0, into), Share(file, chunks, key, cur, i));
    } else {
      RecordingSplits(file, chunks, key, cur, i, last);
      LaterShare(file, chunks, key, cur, i, last);
      AppendAssociates(before, Rest(file, chunks, key, cur, last), Share(file, chunks, key, cur, last));
      WholeShare(file, chunks, key, last);
    }
  }

  lemma {:induction false} RestAtEndOf(file: seq<byte>, chunks: seq<Found>, key: Key, cur: nat, i: nat)
    requires i < |chunks| && KeyOf(chunks[i]) == key && StartOf(chunks, i) <= cur
    ensures Rest(file, chunks, key, cur, i) == []
  {
    RestAtEnd(file, chunks, key, cur, i);
  }

  lemma {:induction false} PartialShare(file: seq<byte>, chunks: seq<Found>, key: Key, cur: nat, i: nat)
    requires i < |chunks| && KeyOf(chunks[i]) == key && Playable(chunks[i].samp)
    requires StartOf(chunks, i) <= cur < EndOf(chunks, i)
    ensures Share(file, chunks, key, cur, i)
            == Payload(file, chunks[i], cur - StartOf(chunks, i), chunks[i].samp.numSamples)
  {
  }

  lemma {:induction false} LaterShare(file: seq<byte>, chunks: seq<Found>, key: Key, cur: nat, i: nat, last: nat)
    requires i < last < |chunks| && KeyOf(chunks[i]) == key && cur < EndOf(chunks, i)
    ensures Share(file, chunks, key, 0, last) == Share(file, chunks, key, cur, last)
  {
    hide Share;
    SamplesBeforeMonotone(chunks, key, i + 1, last);
    ShareOfLater(file, chunks, key, 0, cur, last);
  }

  /** From the start a chunk contributes all of its payload. */
  lemma {:induction false} WholeShare(file: seq<byte>, chunks: seq<Found>, key: Key, i: nat)
    requires i < |chunks|
    ensures Share(file, chunks, key, 0, i)
            == if KeyOf(chunks[i]) == key && Playable(chunks[i].samp)
               then Payload(file, chunks[i], 0, chunks[i].samp.numSamples) else []
  {
    hide Payload;
    if chunks[i].samp.numSamples == 0 {
      PayloadNothing(file, chunks[i], 0);
    }
  }

  lemma {:induction false} StartIsBoundary(chunks: seq<Found>, key: Key)
    ensures AtBoundary(chunks, key, 0)
  {
  }

  lemma {:induction false} NothingMoreIff<T>(a: seq<T>, b: seq<T>)
    ensures b == [] <==> a == a + b
  {
    if b != [] {
      assert |a + b| > |a|;
    }
  }
}
