/**
 The layout of the linked chunks: where each kind keeps its key and its link, and that a
 list written into a file is the list the walkers of module ChunkChain find there.
 */
module ChainPrinting {
  import opened Bits
  import opened ByteFile
  import opened Chunks
  import opened ChunkChain
  import opened ChunkPrinting
  import opened Mdtt
  import opened Results

  /** The four kinds of chunk, field by field, with the bytes of the fields the walkers do not use. */
  datatype Body =
    | SubStreamBody(stream: seq<byte>, key: nat, pad: seq<byte>, next: int, rest: seq<byte>)
    | AntennaBody(key: nat, next: int, rest: seq<byte>)
    | MetaDataBody(key: nat, next: int, definition: Option<Definition>)
    | PreviewBody(level: seq<byte>, offsets: seq<int>, rest: seq<byte>)

  function KindOf(b: Body): Kind {
    match b
    case SubStreamBody(_, _, _, _, _) => SubStreams
    case AntennaBody(_, _, _) => Antennas
    case MetaDataBody(_, _, _) => MetaData
    case PreviewBody(_, _, _) => Previews
  }

  predicate IsI64(x: int) {
    -0x8000_0000_0000_0000 <= x < 0x8000_0000_0000_0000
  }

  function PrintSigned(x: int): (bytes: seq<byte>)
    ensures |bytes| == 8
  {
    LittleEndianBytes(x % 0x1_0000_0000_0000_0000, 8)
  }

  function PrintOffsets(offsets: seq<int>): (bytes: seq<byte>)
    ensures |bytes| == 8 * |offsets|
  {
    if offsets == [] then [] else PrintSigned(offsets[0]) + PrintOffsets(offsets[1..])
  }

  function PrintBody(b: Body): seq<byte> {
    match b
    case SubStreamBody(stream, key, pad, next, rest) =>
      stream + LittleEndianBytes(key, 4) + pad + PrintSigned(next) + rest
    case AntennaBody(key, next, rest) => LittleEndianBytes(key, 8) + PrintSigned(next) + rest
    case MetaDataBody(key, next, definition) =>
      LittleEndianBytes(key, 8) + PrintSigned(next)
      + (match definition case None => [] case Some(d) => PrintDefinition(d))
    case PreviewBody(level, offsets, rest) => level + PrintOffsets(offsets) + rest
  }

  predicate PrintableBody(h: Header, b: Body) {
    && PrintableHeader(h)
    && match b
       case SubStreamBody(stream, key, pad, next, rest) =>
         h.tag == Ascii("SSTR") && |stream| == 8 && key < 0x1_0000_0000 && |pad| == 4 && IsI64(next) && |rest| == 200
       case AntennaBody(key, next, rest) =>
         h.tag == Ascii("ANTA") && key < 0x1_0000_0000_0000_0000 && IsI64(next) && |rest| == 232
       case MetaDataBody(key, next, definition) =>
         && h.tag == Ascii("MDTT") && key < 0x1_0000_0000_0000_0000 && IsI64(next)
         && (match definition
             case None => h.size <= 32
             case Some(d) => Printable(d, 0) && h.size == 32 + |PrintDefinition(d)| && h.size <= 32 + 16_777_216)
       case PreviewBody(level, offsets, rest) =>
         h.tag == Ascii("SPRV") && |level| == 8 && |offsets| == 16 && |rest| == 256
         && forall i | 0 <= i < 16 :: IsI64(offsets[i])
  }

  /** The first positive entry, or zero. */
  function FirstAbove(offsets: seq<int>): int {
    if offsets == [] then 0 else if offsets[0] > 0 then offsets[0] else FirstAbove(offsets[1..])
  }

  /** What the walkers are to read off a chunk at `p`: previews have no key and are told apart by their place. */
  function Meaning(b: Body, p: nat): Link {
    match b
    case SubStreamBody(_, key, _, next, _) => Link(p, key, next)
    case AntennaBody(key, next, _) => Link(p, key, next)
    case MetaDataBody(key, next, _) => Link(p, key, next)
    case PreviewBody(_, offsets, _) => Link(p, p, FirstAbove(offsets))
  }

  // ---------------------------------------------------------------- fields

  lemma {:induction false} SignedReadsBack(bytes: seq<byte>, p: nat, x: int)
    requires IsI64(x) && p + 8 <= |bytes| && bytes[p..p + 8] == PrintSigned(x)
    ensures SignedAt(bytes, p) == x
  {
    hide UnsignedAt, LittleEndianBytes, Pow2;
    SmallSizes();
    FieldReadsBack(bytes, p, x % 0x1_0000_0000_0000_0000, 8);
  }

  lemma {:induction false} OffsetInPlace(offsets: seq<int>, i: nat)
    requires i < |offsets|
    ensures PrintOffsets(offsets)[8 * i..8 * i + 8] == PrintSigned(offsets[i])
  {
    hide PrintSigned;
    var all, first, rest := PrintOffsets(offsets), PrintSigned(offsets[0]), PrintOffsets(offsets[1..]);
    assert all == first + rest;
    if i > 0 {
      OffsetInPlace(offsets[1..], i - 1);
      assert all[8 * i..8 * i + 8] == rest[8 * (i - 1)..8 * (i - 1) + 8];
    }
  }

  /** The search through the slots finds the first positive offset written. */
  lemma {:induction false} SlotsReadBack(file: seq<byte>, p: nat, offsets: seq<int>, i: nat)
    requires |offsets| == 16 && i <= 16 && p + 128 <= |file| && file[p..p + 128] == PrintOffsets(offsets)
    requires forall k | 0 <= k < 16 :: IsI64(offsets[k])
    ensures FirstPositive(file, p, i) == FirstAbove(offsets[i..])
    decreases 16 - i
  {
    hide SignedAt, PrintOffsets, PrintSigned;
    if i < 16 {
      OffsetInPlace(offsets, i);
      SliceOfSlice(file, p, p + 128, 8 * i, 8 * i + 8);
      SignedReadsBack(file, p + 8 * i, offsets[i]);
      SlotsReadBack(file, p, offsets, i + 1);
      assert offsets[i..][1..] == offsets[i + 1..];
    }
  }

  lemma {:induction false} PartInPlace(before: seq<byte>, part: seq<byte>, after: seq<byte>)
    ensures (before + part + after)[|before|..|before| + |part|] == part
  {
  }

  // ---------------------------------------------------------------- one chunk

  lemma {:induction false} SubStreamReadsBack(lead: seq<byte>, b: Body, after: seq<byte>, h: Header)
    requires b.SubStreamBody? && PrintableBody(h, b) && |lead| >= 16
    ensures BodyAt(SubStreams, lead + PrintBody(b) + after, |lead| - 16, h) == Some(Meaning(b, |lead| - 16))
  {
    hide LittleEndianBytes, PrintSigned, UnsignedAt, SignedAt, Pow2;
    SmallSizes();
    var file, p := lead + PrintBody(b) + after, |lead|;
    assert file[p + 8..p + 12] == LittleEndianBytes(b.key, 4);
    assert file[p + 16..p + 24] == PrintSigned(b.next);
    FieldReadsBack(file, p + 8, b.key, 4);
    SignedReadsBack(file, p + 16, b.next);
  }

  lemma {:induction false} AntennaReadsBack(lead: seq<byte>, b: Body, after: seq<byte>, h: Header)
    requires b.AntennaBody? && PrintableBody(h, b) && |lead| >= 16
    ensures BodyAt(Antennas, lead + PrintBody(b) + after, |lead| - 16, h) == Some(Meaning(b, |lead| - 16))
  {
    hide LittleEndianBytes, PrintSigned, UnsignedAt, SignedAt, Pow2;
    SmallSizes();
    var file, p := lead + PrintBody(b) + after, |lead|;
    assert file[p..p + 8] == LittleEndianBytes(b.key, 8);
    assert file[p + 8..p + 16] == PrintSigned(b.next);
    FieldReadsBack(file, p, b.key, 8);
    SignedReadsBack(file, p + 8, b.next);
  }

  lemma {:induction false} MetaDataReadsBack(lead: seq<byte>, b: Body, after: seq<byte>, h: Header)
    requires b.MetaDataBody? && PrintableBody(h, b) && |lead| >= 16
    ensures BodyAt(MetaData, lead + PrintBody(b) + after, |lead| - 16, h) == Some(Meaning(b, |lead| - 16))
  {
    hide LittleEndianBytes, PrintSigned, UnsignedAt, SignedAt, Pow2, PrintDefinition, ParseDefinition, Printable;
    SmallSizes();
    var file, p := lead + PrintBody(b) + after, |lead|;
    assert file[p..p + 8] == LittleEndianBytes(b.key, 8);
    assert file[p + 8..p + 16] == PrintSigned(b.next);
    FieldReadsBack(file, p, b.key, 8);
    SignedReadsBack(file, p + 8, b.next);
    match b.definition
    case None =>
    case Some(d) =>
      var text := PrintDefinition(d);
      assert file[p + 16..p + 16 + |text|] == text;
      PrintThenParse([], d, [], 0);
      assert [] + text + [] == text;
  }

  lemma {:induction false} PreviewReadsBack(lead: seq<byte>, b: Body, after: seq<byte>, h: Header)
    requires b.PreviewBody? && PrintableBody(h, b) && |lead| >= 16
    ensures BodyAt(Previews, lead + PrintBody(b) + after, |lead| - 16, h) == Some(Meaning(b, |lead| - 16))
  {
    hide PrintOffsets, FirstPositive, FirstAbove;
    var file, p := lead + PrintBody(b) + after, |lead|;
    assert file[p + 8..p + 136] == PrintOffsets(b.offsets);
    SlotsReadBack(file, p + 8, b.offsets, 0);
    assert b.offsets[0..] == b.offsets;
  }

  /** A printed linked chunk reads back wherever it stands: its key and its link, for each of the four kinds. */
  lemma {:induction false} LinkReadsBack(before: seq<byte>, h: Header, b: Body, after: seq<byte>)
    requires PrintableBody(h, b)
    ensures LinkAt(KindOf(b), before + PrintHeader(h) + PrintBody(b) + after, |before|) == Some(Meaning(b, |before|))
  {
    hide BodyAt, HeaderAt, PrintBody, Meaning, PrintHeader;
    var lead := before + PrintHeader(h);
    KnownTags(h.tag);
    assert lead + PrintBody(b) + after == before + PrintHeader(h) + (PrintBody(b) + after);
    HeaderReadsBack(before, h, PrintBody(b) + after);
    match b
    case SubStreamBody(_, _, _, _, _) => SubStreamReadsBack(lead, b, after, h);
    case AntennaBody(_, _, _) => AntennaReadsBack(lead, b, after, h);
    case MetaDataBody(_, _, _) => MetaDataReadsBack(lead, b, after, h);
    case PreviewBody(_, _, _) => PreviewReadsBack(lead, b, after, h);
  }

  // ---------------------------------------------------------------- a whole list

  /** A chunk of a list and its place. */
  datatype Placed = Placed(at: nat, header: Header, body: Body)

  /** The chunk stands at its place in the file. */
  predicate StandsIn(file: seq<byte>, c: Placed) {
    && PrintableBody(c.header, c.body)
    && var text := PrintHeader(c.header) + PrintBody(c.body);
       c.at + |text| <= |file| && file[c.at..c.at + |text|] == text
  }

  /** A list as a writer lays it out: distinct places, each chunk naming the next one's, the last naming none. */
  predicate WrittenList(kind: Kind, file: seq<byte>, list: seq<Placed>) {
    && (forall c | c in list :: StandsIn(file, c) && KindOf(c.body) == kind && c.at > 0)
    && (forall i, j | 0 <= i < j < |list| :: list[i].at != list[j].at)
    && (forall i | 0 <= i < |list| ::
          var next := Meaning(list[i].body, list[i].at).next;
          if i + 1 < |list| then next == list[i + 1].at else next <= 0)
  }

  function Links(list: seq<Placed>): (links: seq<Link>)
    ensures |links| == |list|
  {
    seq(|list|, i requires 0 <= i < |list| => Meaning(list[i].body, list[i].at))
  }

  lemma {:induction false} StandingReads(file: seq<byte>, c: Placed)
    requires StandsIn(file, c)
    ensures LinkAt(KindOf(c.body), file, c.at) == Some(Meaning(c.body, c.at))
    ensures Meaning(c.body, c.at).offset == c.at
  {
    hide LinkAt, PrintBody, PrintHeader;
    var text := PrintHeader(c.header) + PrintBody(c.body);
    var before, after := file[..c.at], file[c.at + |text|..];
    LinkReadsBack(before, c.header, c.body, after);
    assert before + PrintHeader(c.header) + PrintBody(c.body) + after == before + text + after == file;
  }

  lemma {:induction false} FollowsList(kind: Kind, file: seq<byte>, list: seq<Placed>, i: nat)
    requires WrittenList(kind, file, list) && list != [] && i <= |list|
    ensures Follow(kind, file, list[0].at, i) == if i < |list| then list[i].at else 0
    decreases i
  {
    hide LinkAt, StandsIn, Meaning;
    if i > 0 {
      FollowsList(kind, file, list, i - 1);
      assert list[i - 1] in list && (i < |list| ==> list[i] in list);
      StandingReads(file, list[i - 1]);
    }
  }

  /** A written list is the list found from its first chunk: exactly its chunks, with their keys, in order. */
  lemma {:induction false} WrittenListIsFound(kind: Kind, file: seq<byte>, list: seq<Placed>)
    requires WrittenList(kind, file, list) && list != []
    ensures Chain(kind, file, list[0].at, Links(list))
  {
    hide LinkAt, StandsIn, Meaning, Follow, KindOf;
    var links := Links(list);
    forall i | 0 <= i < |links|
      ensures links[i].offset == list[i].at == Follow(kind, file, list[0].at, i)
      ensures links[i].offset > 0 && LinkAt(kind, file, links[i].offset) == Some(links[i])
    {
      assert list[i] in list;
      StandingReads(file, list[i]);
      FollowsList(kind, file, list, i);
    }
    FollowsList(kind, file, list, |list|);
  }
}
