/**
 The layout of chunk headers and sample chunks, field by field, and files made of whole
 chunks laid end to end: what the readers of module Chunks and the scan make of them.
 */
module ChunkPrinting {
  import opened Bits
  import opened ByteFile
  import opened Chunks
  import opened ChunkScan
  import opened Results

  // ---------------------------------------------------------------- tags

  predicate IsAscii(name: string) {
    forall i | 0 <= i < |name| :: name[i] < 128 as char
  }

  function Ascii(name: string): (tag: seq<byte>)
    requires IsAscii(name)
    ensures |tag| == |name|
  {
    seq(|name|, i requires 0 <= i < |name| => name[i] as int)
  }

  /** The tags are the ASCII codes of their names, and these eleven are all that is known. */
  lemma {:induction false} KnownTags(tag: Tag)
    ensures SAMP == Ascii("SAMP") && SSTR == Ascii("SSTR") && ANTA == Ascii("ANTA")
            && MDTT == Ascii("MDTT") && SPRV == Ascii("SPRV")
    ensures IsKnownTag(tag)
            <==> tag in [Ascii("DSFH"), Ascii("STRM"), Ascii("SAMP"), Ascii("SSTR"), Ascii("SSCA"), Ascii("ANTA"),
                         Ascii("MDTT"), Ascii("SPRV"), Ascii("STRT"), Ascii("DSFT"), Ascii("ANTS")]
  {
    assert DSFH == Ascii("DSFH") && STRM == Ascii("STRM") && SSCA == Ascii("SSCA");
    assert STRT == Ascii("STRT") && DSFT == Ascii("DSFT") && ANTS == Ascii("ANTS");
  }

  // ---------------------------------------------------------------- headers

  /** Tag, size, flags, version, header size. */
  function PrintHeader(h: Header): (bytes: seq<byte>)
    requires |h.tag| == 4
    ensures |bytes| == 16
  {
    h.tag + LittleEndianBytes(h.size, 4) + LittleEndianBytes(h.flags, 4)
    + LittleEndianBytes(h.version, 2) + LittleEndianBytes(h.headerSize, 2)
  }

  predicate PrintableHeader(h: Header) {
    && |h.tag| == 4
    && h.size <= 1_000_000_000
    && h.flags < 0x1_0000_0000
    && h.version < 0x1_0000
    && h.headerSize < 0x1_0000
  }

  lemma {:induction false} SmallSizes()
    ensures Pow2(8 * 1) == 0x100 && Pow2(8 * 2) == 0x1_0000 && Pow2(8 * 4) == 0x1_0000_0000
    ensures Pow2(8 * 8) == 0x1_0000_0000_0000_0000 && Pow2(8 * 1 - 1) == 0x80
  {
    WordSizes();
    Pow2EightMore(8, 0x100);
  }

  lemma {:induction false} HeaderFields(before: seq<byte>, h: Header, after: seq<byte>)
    requires |h.tag| == 4
    ensures var bytes, p := before + PrintHeader(h) + after, |before|;
            && bytes[p..p + 4] == h.tag
            && bytes[p + 4..p + 8] == LittleEndianBytes(h.size, 4)
            && bytes[p + 8..p + 12] == LittleEndianBytes(h.flags, 4)
            && bytes[p + 12..p + 14] == LittleEndianBytes(h.version, 2)
            && bytes[p + 14..p + 16] == LittleEndianBytes(h.headerSize, 2)
  {
    hide LittleEndianBytes;
  }

  /** A printed header reads back wherever it stands. */
  lemma {:induction false} HeaderReadsBack(before: seq<byte>, h: Header, after: seq<byte>)
    requires PrintableHeader(h)
    ensures HeaderAt(before + PrintHeader(h) + after, |before|) == Some(h)
  {
    hide LittleEndianBytes, UnsignedAt, Pow2, PrintHeader;
    var bytes, p := before + PrintHeader(h) + after, |before|;
    SmallSizes();
    HeaderFields(before, h, after);
    FieldReadsBack(bytes, p + 4, h.size, 4);
    FieldReadsBack(bytes, p + 8, h.flags, 4);
    FieldReadsBack(bytes, p + 12, h.version, 2);
    FieldReadsBack(bytes, p + 14, h.headerSize, 2);
  }

  /** A header is refused exactly when the file ends inside it or it claims more than 10^9 bytes. */
  lemma {:induction false} HeaderRefusedIff(file: seq<byte>, p: nat)
    ensures HeaderAt(file, p).None? <==> p + 16 > |file| || UnsignedAt(file, p + 4, 4) > 1_000_000_000
  {
  }

  // ---------------------------------------------------------------- sample chunks

  const SAMPLE_TYPES: seq<SampleType> := [U8, U16, S16, U32, S32, F32, U8N, U16N, S16N, U32N, S32N, F32N]

  predicate TypeCode(code: byte, t: SampleType) {
    if code < 12 then t == SAMPLE_TYPES[code] else t == UnknownType
  }

  predicate PayloadCode(code: byte, t: PayloadType) {
    (t == Iq <==> code == 2) && (t == Spectra <==> code == 3)
  }

  lemma {:induction false} CodesReadBack(typeCode: byte, t: SampleType, payloadCode: byte, p: PayloadType)
    requires TypeCode(typeCode, t) && PayloadCode(payloadCode, p)
    ensures SampleTypeOf(typeCode) == t && PayloadTypeOf(payloadCode) == p
  {
  }

  /** The width in bytes of a value of each type code. */
  lemma {:induction false} ValueWidths(samp: Samp, code: byte)
    requires TypeCode(code, samp.sampleType)
    ensures samp.Stride()
            == samp.sampleSize * (if code < 12 then [1, 2, 2, 4, 4, 4, 1, 2, 2, 4, 4, 4][code] else 0)
  {
  }

  /** The fixed fields of a sample chunk, with the bytes of those nothing reads: unit, times and flags, depth. */
  datatype SampText = SampText(
    samp: Samp, typeCode: byte, unit: byte, payloadCode: byte, times: seq<byte>, depth: seq<byte>)

  function PrintSamp(t: SampText): (bytes: seq<byte>)
    requires |t.times| == 20 && |t.depth| == 4
    ensures |bytes| == 48
  {
    LittleEndianBytes(t.samp.streamId, 8) + LittleEndianBytes(t.samp.subStreamId, 4)
    + [t.typeCode, t.unit, t.payloadCode] + CompressionByte(t.samp.compression)
    + t.times
    + LittleEndianBytes(t.samp.sampleSize, 4) + t.depth + LittleEndianBytes(t.samp.numSamples, 4)
  }

  /** A compression factor as a two's-complement byte. */
  function CompressionByte(compression: int): (bytes: seq<byte>)
    ensures |bytes| == 1
  {
    LittleEndianBytes(compression % 256, 1)
  }

  predicate PrintableSamp(h: Header, t: SampText) {
    && |t.times| == 20 && |t.depth| == 4
    && t.samp.size == h.size && t.samp.headerSize == h.headerSize
    && t.samp.streamId < 0x1_0000_0000_0000_0000
    && t.samp.subStreamId < 0x1_0000_0000
    && TypeCode(t.typeCode, t.samp.sampleType)
    && PayloadCode(t.payloadCode, t.samp.payloadType)
    && -128 <= t.samp.compression < 128
    && t.samp.sampleSize < 0x1_0000_0000
    && t.samp.numSamples < 0x1_0000_0000
  }

  lemma {:induction false} SampFields(before: seq<byte>, t: SampText, after: seq<byte>)
    requires |t.times| == 20 && |t.depth| == 4
    ensures var bytes, p := before + PrintSamp(t) + after, |before|;
            && bytes[p..p + 8] == LittleEndianBytes(t.samp.streamId, 8)
            && bytes[p + 8..p + 12] == LittleEndianBytes(t.samp.subStreamId, 4)
            && bytes[p + 12] == t.typeCode && bytes[p + 14] == t.payloadCode
            && bytes[p + 15..p + 16] == CompressionByte(t.samp.compression)
            && bytes[p + 36..p + 40] == LittleEndianBytes(t.samp.sampleSize, 4)
            && bytes[p + 44..p + 48] == LittleEndianBytes(t.samp.numSamples, 4)
  {
    hide LittleEndianBytes, CompressionByte;
  }

  lemma {:induction false} CompressionReadsBack(bytes: seq<byte>, p: nat, compression: int)
    requires -128 <= compression < 128 && p + 1 <= |bytes|
    requires bytes[p..p + 1] == CompressionByte(compression)
    ensures Signed(UnsignedAt(bytes, p, 1), 1) == compression
  {
    hide UnsignedAt, Pow2, LittleEndianBytes;
    SmallSizes();
    FieldReadsBack(bytes, p, compression % 256, 1);
  }

  /** A printed sample chunk reads back wherever it stands, whatever stands in the fields nothing reads. */
  lemma {:induction false} SampReadsBack(before: seq<byte>, h: Header, t: SampText, after: seq<byte>)
    requires PrintableHeader(h) && PrintableSamp(h, t)
    ensures SampAt(before + PrintHeader(h) + PrintSamp(t) + after, |before|, h) == Some(t.samp)
  {
    hide LittleEndianBytes, UnsignedAt, Pow2, PrintHeader, PrintSamp, CompressionByte, Signed;
    hide SampleTypeOf, PayloadTypeOf, TypeCode, PayloadCode;
    var bytes, p := before + PrintHeader(h) + PrintSamp(t) + after, |before| + 16;
    SmallSizes();
    SampFields(before + PrintHeader(h), t, after);
    FieldReadsBack(bytes, p, t.samp.streamId, 8);
    FieldReadsBack(bytes, p + 8, t.samp.subStreamId, 4);
    FieldBytes(bytes, p + 12);
    FieldBytes(bytes, p + 14);
    CompressionReadsBack(bytes, p + 15, t.samp.compression);
    FieldReadsBack(bytes, p + 36, t.samp.sampleSize, 4);
    FieldReadsBack(bytes, p + 44, t.samp.numSamples, 4);
    CodesReadBack(t.typeCode, t.samp.sampleType, t.payloadCode, t.samp.payloadType);
  }

  // ---------------------------------------------------------------- whole files

  /** A sample chunk with its payload, or a chunk of another known kind with whatever it holds. */
  datatype ChunkText =
    | SampleChunk(header: Header, text: SampText, payload: seq<byte>)
    | OtherChunk(header: Header, body: seq<byte>)

  predicate PrintableChunk(c: ChunkText) {
    && PrintableHeader(c.header)
    && match c
       case SampleChunk(h, text, payload) => h.tag == SAMP && h.size == 64 + |payload| && PrintableSamp(h, text)
       case OtherChunk(h, body) => h.tag != SAMP && IsKnownTag(h.tag) && h.size == 16 + |body|
  }

  function PrintChunk(c: ChunkText): (bytes: seq<byte>)
    requires PrintableChunk(c)
    ensures |bytes| == c.header.size >= 16
  {
    match c
    case SampleChunk(h, text, payload) => PrintHeader(h) + PrintSamp(text) + payload
    case OtherChunk(h, body) => PrintHeader(h) + body
  }

  predicate PrintableFile(chunks: seq<ChunkText>) {
    forall c | c in chunks :: PrintableChunk(c)
  }

  function PrintFile(chunks: seq<ChunkText>): seq<byte>
    requires PrintableFile(chunks)
  {
    if chunks == [] then [] else PrintChunk(chunks[0]) + PrintFile(chunks[1..])
  }

  /** The sample chunks, each with its place when the first chunk stands at `at`. */
  function SampleChunks(chunks: seq<ChunkText>, at: nat): seq<Found> {
    if chunks == [] then []
    else
      var c := chunks[0];
      (if c.SampleChunk? then [Found(at, c.text.samp)] else []) + SampleChunks(chunks[1..], at + c.header.size)
  }

  /** One step of the scan at a printed chunk. */
  lemma {:induction false} ScanOneChunk(before: seq<byte>, c: ChunkText, after: seq<byte>, end: nat)
    requires PrintableChunk(c) && |before| < end
    ensures var file, next := before + PrintChunk(c) + after, |before| + c.header.size;
            Walk(file, |before|, end, true)
            == match c
               case SampleChunk(_, text, _) => Prepend(Found(|before|, text.samp), Walk(file, next, end, true))
               case OtherChunk(_, _) => Walk(file, next, end, true)
  {
    hide PrintHeader, PrintSamp, HeaderAt, SampAt, TypeCode, PayloadCode, IsKnownTag, Walk;
    var file := before + PrintChunk(c) + after;
    WalkStep(file, |before|, end);
    var h := c.header;
    KnownTags(h.tag);
    match c
    case SampleChunk(_, text, payload) =>
      assert file == before + PrintHeader(h) + (PrintSamp(text) + payload + after);
      HeaderReadsBack(before, h, PrintSamp(text) + payload + after);
      assert file == before + PrintHeader(h) + PrintSamp(text) + (payload + after);
      SampReadsBack(before, h, text, payload + after);
    case OtherChunk(_, body) =>
      assert file == before + PrintHeader(h) + (body + after);
      HeaderReadsBack(before, h, body + after);
  }

  /** A scan over chunks laid end to end, between any other bytes, returns exactly the sample chunks, in order. */
  lemma {:induction false} ScanOfPrinted(before: seq<byte>, chunks: seq<ChunkText>, after: seq<byte>)
    requires PrintableFile(chunks)
    ensures Walk(before + PrintFile(chunks) + after, |before|, |before| + |PrintFile(chunks)|, true)
            == Scan(SampleChunks(chunks, |before|), true)
    decreases |chunks|
  {
    hide Walk, PrintChunk;
    var file, end := before + PrintFile(chunks) + after, |before| + |PrintFile(chunks)|;
    if chunks == [] {
      WalkEnds(file, |before|, end);
    } else {
      var c, rest := chunks[0], PrintFile(chunks[1..]);
      assert file == before + PrintChunk(c) + (rest + after);
      ScanOneChunk(before, c, rest + after, end);
      assert file == before + PrintChunk(c) + rest + after;
      ScanOfPrinted(before + PrintChunk(c), chunks[1..], after);
    }
  }
}
