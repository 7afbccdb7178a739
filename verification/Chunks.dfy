/**
 Chunk headers and sample chunks of an RTSA file (src/file_source.rs): the fields that
 scanning and playback need, read from their places in the byte string.
 */
module Chunks {
  import opened Bits
  import opened ByteFile
  import opened Results

  const MAX_RTSA_CHUNK_SIZE: nat := 1_000_000_000
  const HEADER_BYTES: nat := 16
  const SAMP_BYTES: nat := 64

  type Tag = seq<byte>

  const SAMP: Tag := [83, 65, 77, 80]
  const SSTR: Tag := [83, 83, 84, 82]
  const ANTA: Tag := [65, 78, 84, 65]
  const MDTT: Tag := [77, 68, 84, 84]
  const SPRV: Tag := [83, 80, 82, 86]
  const DSFH: Tag := [68, 83, 70, 72]
  const STRM: Tag := [83, 84, 82, 77]
  const SSCA: Tag := [83, 83, 67, 65]
  const STRT: Tag := [83, 84, 82, 84]
  const DSFT: Tag := [68, 83, 70, 84]
  const ANTS: Tag := [65, 78, 84, 83]

  predicate IsKnownTag(tag: Tag) {
    || tag == DSFH || tag == STRM || tag == SAMP || tag == SSTR || tag == SSCA || tag == ANTA
    || tag == MDTT || tag == SPRV || tag == STRT || tag == DSFT || tag == ANTS
  }

  datatype Header = Header(tag: Tag, size: nat, flags: nat, version: nat, headerSize: nat)

  /** The header at `p`; none where the file ends too soon or the size is over the limit. */
  function HeaderAt(file: seq<byte>, p: nat): Option<Header> {
    if p + HEADER_BYTES > |file| || UnsignedAt(file, p + 4, 4) > MAX_RTSA_CHUNK_SIZE then None
    else
      Some(Header(file[p..p + 4], UnsignedAt(file, p + 4, 4), UnsignedAt(file, p + 8, 4),
                  UnsignedAt(file, p + 12, 2), UnsignedAt(file, p + 14, 2)))
  }

  method ReadHeader(reader: Reader) returns (header: Option<Header>)
    modifies reader
    ensures header == HeaderAt(reader.file, old(reader.cursor))
    ensures header.Some? ==> reader.cursor == old(reader.cursor) + HEADER_BYTES
  {
    hide LittleEndian;
    var tag :- reader.ReadExact(4);
    var size :- reader.ReadUnsigned(4);
    if size > MAX_RTSA_CHUNK_SIZE {
      return None;
    }
    var flags :- reader.ReadUnsigned(4);
    var version :- reader.ReadUnsigned(2);
    var headerSize :- reader.ReadUnsigned(2);
    header := Some(Header(tag, size, flags, version, headerSize));
  }

  datatype SampleType =
    | U8 | U16 | S16 | U32 | S32 | F32
    | U8N | U16N | S16N | U32N | S32N | F32N
    | UnknownType

  /** Unrecognised codes become `UnknownType` rather than an error. */
  function SampleTypeOf(code: nat): SampleType {
    match code
    case 0 => U8
    case 1 => U16
    case 2 => S16
    case 3 => U32
    case 4 => S32
    case 5 => F32
    case 6 => U8N
    case 7 => U16N
    case 8 => S16N
    case 9 => U32N
    case 10 => S32N
    case 11 => F32N
    case _ => UnknownType
  }

  /** Only IQ and spectra payloads are told apart; the reader skips all others alike. */
  datatype PayloadType = Iq | Spectra | OtherPayload

  function PayloadTypeOf(code: nat): PayloadType {
    if code == 2 then Iq else if code == 3 then Spectra else OtherPayload
  }

  datatype Samp = Samp(
    size: nat, headerSize: nat, streamId: nat, subStreamId: nat, sampleType: SampleType,
    payloadType: PayloadType, compression: int, sampleSize: nat, numSamples: nat)
  {
    /** Byte width of one value. */
    function ValueBytes(): nat {
      match sampleType
      case U8 | U8N => 1
      case U16 | S16 | U16N | S16N => 2
      case U32 | S32 | F32 | U32N | S32N | F32N => 4
      case UnknownType => 0
    }

    /** Byte stride of one sample. */
    function Stride(): nat {
      sampleSize * ValueBytes()
    }
  }

  /** The sample chunk whose header is at `p`; none where its fixed fields run off the file. */
  function SampAt(file: seq<byte>, p: nat, header: Header): Option<Samp> {
    if p + SAMP_BYTES > |file| then None
    else
      Some(Samp(header.size, header.headerSize, UnsignedAt(file, p + 16, 8), UnsignedAt(file, p + 24, 4),
                SampleTypeOf(UnsignedAt(file, p + 28, 1)), PayloadTypeOf(UnsignedAt(file, p + 30, 1)),
                Signed(UnsignedAt(file, p + 31, 1), 1), UnsignedAt(file, p + 52, 4), UnsignedAt(file, p + 60, 4)))
  }

  /** Reads the fixed fields of a sample chunk, the reader standing just after its header. */
  method ReadSamp(reader: Reader, header: Header) returns (samp: Option<Samp>)
    requires reader.cursor >= HEADER_BYTES
    modifies reader
    ensures samp == SampAt(reader.file, old(reader.cursor) - HEADER_BYTES, header)
  {
    hide LittleEndian, SampleTypeOf, PayloadTypeOf, Signed;
    var start := reader.cursor;
    var fields :- reader.ReadExact(SAMP_BYTES - HEADER_BYTES);
    var b := fields;
    FieldsAt(reader.file, start, b);
    samp := Some(Samp(header.size, header.headerSize, LittleEndian(b[0..8]), LittleEndian(b[8..12]),
                      SampleTypeOf(LittleEndian(b[12..13])), PayloadTypeOf(LittleEndian(b[14..15])),
                      Signed(LittleEndian(b[15..16]), 1), LittleEndian(b[36..40]), LittleEndian(b[44..48])));
  }

  lemma {:induction false} FieldsAt(file: seq<byte>, start: nat, fields: seq<byte>)
    requires start + |fields| <= |file| && fields == file[start..start + |fields|]
    ensures forall i, j | 0 <= i <= j <= |fields| :: fields[i..j] == file[start + i..start + j]
  {
    forall i, j | 0 <= i <= j <= |fields|
      ensures fields[i..j] == file[start + i..start + j]
    {
      SliceOfSlice(file, start, start + |fields|, i, j);
    }
  }

  lemma {:induction false} SliceOfSlice<T>(s: seq<T>, a: nat, b: nat, i: nat, j: nat)
    requires a <= b <= |s| && i <= j <= b - a
    ensures s[a..b][i..j] == s[a + i..a + j]
  {
    forall k | 0 <= k < j - i
      ensures s[a..b][i..j][k] == s[a + i..a + j][k]
    {
      assert s[a..b][i..j][k] == s[a..b][i + k] == s[a + (i + k)];
    }
  }

  /** Four bytes at `p` satisfy `hit`. */
  predicate HitAt(bytes: seq<byte>, p: nat, hit: Tag -> bool) {
    p + 4 <= |bytes| && hit(bytes[p..p + 4])
  }

  /** First place in a block whose four bytes satisfy `hit`. */
  method FirstWindow(block: seq<byte>, hit: Tag -> bool) returns (at: Option<nat>)
    ensures at.Some? ==> HitAt(block, at.value, hit) && forall j: nat | j < at.value :: !HitAt(block, j, hit)
    ensures at.None? ==> forall j: nat :: !HitAt(block, j, hit)
  {
    var i := 0;
    while i + 4 <= |block|
      invariant forall j: nat | j < i :: !HitAt(block, j, hit)
      decreases |block| - i
    {
      if hit(block[i..i + 4]) {
        return Some(i);
      }
      i := i + 1;
    }
    at := None;
  }
}
