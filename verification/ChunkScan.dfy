/**
 Finding chunks in damaged files (src/file_source.rs): block-wise resynchronisation,
 the scan that collects sample chunks, and the broad search for a signature.
 */
module ChunkScan {
  import opened Bits
  import opened ByteFile
  import opened Chunks
  import opened Results

  const BLOCK: nat := 64 * 1024
  const SEARCH_CHUNK_SIZE: nat := 10_000_000

  predicate KnownTagAt(file: seq<byte>, p: nat) {
    HitAt(file, p, IsKnownTag)
  }

  // ---------------------------------------------------------------- resynchronisation

  /** `p` is the first place from `from` on whose known tag lies wholly before `end`, or `end` when there is none. */
  ghost predicate ResyncStop(file: seq<byte>, from: nat, end: nat, p: nat) {
    || (from <= p && p + 4 <= end && KnownTagAt(file, p) && NoTagBetween(file, from, end, p))
    || (p == end && NoTagBetween(file, from, end, end))
  }

  ghost predicate NoTagBetween(file: seq<byte>, from: nat, end: nat, p: nat) {
    forall q: nat | from <= q < p && q + 4 <= end :: !KnownTagAt(file, q)
  }

  /** A block read at `pos` shows exactly the tags that lie wholly inside it. */
  lemma {:induction false} BlockHits(file: seq<byte>, pos: nat, want: nat, j: nat, hit: Tag -> bool)
    ensures HitAt(Window(file, pos, want), j, hit)
            <==> HitAt(file, pos + j, hit) && j + 4 <= |Window(file, pos, want)|
  {
    var block := Window(file, pos, want);
    if j + 4 <= |block| {
      SliceOfSlice(file, pos, pos + |block|, j, j + 4);
      assert block == file[pos..pos + |block|];
    }
  }

  method ResyncToChunkId(reader: Reader, from: nat, end: nat)
    modifies reader
    ensures ResyncStop(reader.file, from, end, reader.cursor)
  {
    hide HitAt, Window;
    var pos := from;
    reader.Seek(pos);
    while pos < end
      invariant from <= pos && reader.cursor == pos
      invariant NoTagBetween(reader.file, from, end, pos)
      decreases end - pos
    {
      var want := if BLOCK < end - pos then BLOCK else end - pos;
      var block := reader.ReadUpTo(want);
      var found := FirstWindow(block, IsKnownTag);
      BlockTags(reader.file, pos, want, end, found);
      if found.Some? {
        reader.Seek(pos + found.value);
        assert NoTagBetween(reader.file, from, end, pos + found.value);
        return;
      }
      if |block| < 4 {
        assert NoTagBetween(reader.file, from, end, end);
        break;
      }
      pos := pos + (|block| - 3);
      reader.Seek(pos);
    }
    reader.Seek(end);
  }

  lemma {:induction false} TagFits(file: seq<byte>, p: nat)
    ensures KnownTagAt(file, p) ==> p + 4 <= |file|
  {
  }

  /** What a block scan at `pos` says about the file: the three-byte overlap misses no tag. */
  lemma {:induction false} BlockTags(file: seq<byte>, pos: nat, want: nat, end: nat, found: Option<nat>)
    requires 0 < want && pos + want <= end && (want < 4 ==> pos + want == end)
    requires var block := Window(file, pos, want);
             match found
             case Some(i) => HitAt(block, i, IsKnownTag) && forall j: nat | j < i :: !HitAt(block, j, IsKnownTag)
             case None => forall j: nat :: !HitAt(block, j, IsKnownTag)
    ensures found.Some? ==> KnownTagAt(file, pos + found.value) && pos + found.value + 4 <= end
    ensures found.Some? ==> NoTagBetween(file, pos, end, pos + found.value)
    ensures found.None? ==>
              var got := |Window(file, pos, want)|;
              NoTagBetween(file, pos, end, if got < 4 then end else pos + got - 3)
  {
    hide HitAt, Window;
    var block := Window(file, pos, want);
    forall q: nat | pos <= q
      ensures HitAt(block, q - pos, IsKnownTag) <==> KnownTagAt(file, q) && q - pos + 4 <= |block|
      ensures KnownTagAt(file, q) ==> q + 4 <= |file|
    {
      TagFits(file, q);
      BlockHits(file, pos, want, q - pos, IsKnownTag);
    }
    if found.Some? {
      assert pos + found.value - pos == found.value;
    }
  }

  // ---------------------------------------------------------------- the scan

  datatype Found = Found(offset: nat, samp: Samp)

  /** Chunks in order; `complete` is false when a sample chunk's fields ran off the file and ended the scan. */
  datatype Scan = Scan(found: seq<Found>, complete: bool)

  /** A header the scan accepts. */
  predicate Accepted(file: seq<byte>, p: nat) {
    var header := HeaderAt(file, p);
    header.Some? && header.value.size >= 16 && IsKnownTag(header.value.tag)
  }

  function Prepend(f: Found, scan: Scan): Scan {
    scan.(found := [f] + scan.found)
  }

  /**
   The byte-at-a-time walk: try a header at every position, jump over accepted chunks.
   A position reached by single steps must hold its tag wholly before `end`; one the
   walk landed on (the start, or the end of a chunk) need not.
   */
  ghost function Walk(file: seq<byte>, p: nat, end: nat, landed: bool): Scan
    decreases if p < end then end - p else 0
  {
    if p >= end then Scan([], true)
    else if Accepted(file, p) && (landed || p + 4 <= end) then
      var header := HeaderAt(file, p).value;
      if header.tag != SAMP then Walk(file, p + header.size, end, true)
      else match SampAt(file, p, header)
        case None => Scan([], false)
        case Some(samp) => Prepend(Found(p, samp), Walk(file, p + header.size, end, true))
    else Walk(file, p + 1, end, false)
  }

  /** Single steps over tag-free ground, taken all at once. */
  lemma {:induction false} WalkSkips(file: seq<byte>, from: nat, end: nat, p: nat)
    requires from <= p <= end && NoTagBetween(file, from, end, p)
    ensures Walk(file, from, end, false) == Walk(file, p, end, false)
    decreases p - from
  {
    hide IsKnownTag, SampAt;
    if from < p {
      assert Accepted(file, from) ==> KnownTagAt(file, from);
      WalkSkips(file, from + 1, end, p);
    }
  }

  lemma {:induction false} LandingIrrelevant(file: seq<byte>, p: nat, end: nat)
    requires p + 4 <= end || p >= end
    ensures Walk(file, p, end, true) == Walk(file, p, end, false)
  {
  }

  /** Resynchronising from `from` leaves the rest of the walk unchanged. */
  lemma {:induction false} ResyncRefinesWalk(file: seq<byte>, from: nat, end: nat, p: nat)
    requires from <= end && ResyncStop(file, from, end, p)
    ensures Walk(file, from, end, false) == Walk(file, p, end, true)
  {
    hide Walk, KnownTagAt;
    WalkSkips(file, from, end, p);
    LandingIrrelevant(file, p, end);
  }

  function Append(found: seq<Found>, scan: Scan): Scan {
    scan.(found := found + scan.found)
  }

  method ScanForSampChunks(reader: Reader, startPos: nat, endPos: nat) returns (scan: Scan)
    modifies reader
    ensures scan == Walk(reader.file, startPos, if endPos < |reader.file| then endPos else |reader.file|, true)
  {
    hide Walk, ResyncStop, IsKnownTag, HeaderAt, SampAt;
    var file := reader.file;
    var actualEnd := if endPos < |file| then endPos else |file|;
    var found: seq<Found> := [];
    reader.Seek(startPos);
    while reader.cursor < actualEnd
      invariant Walk(file, startPos, actualEnd, true) == Append(found, Walk(file, reader.cursor, actualEnd, true))
      decreases if reader.cursor < actualEnd then actualEnd - reader.cursor else 0
    {
      var p := reader.cursor;
      WalkStep(file, p, actualEnd);
      var header := ReadHeader(reader);
      if header.None? || header.value.size < 16 || !IsKnownTag(header.value.tag) {
        ResyncToChunkId(reader, p + 1, actualEnd);
        ResyncRefinesWalk(file, p + 1, actualEnd, reader.cursor);
        ResyncAdvances(file, p + 1, actualEnd, reader.cursor);
      } else {
        var next := p + header.value.size;
        if header.value.tag == SAMP {
          var samp := ReadSamp(reader, header.value);
          if samp.None? {
            return Scan(found, false);
          }
          AppendOne(found, Found(p, samp.value), Walk(file, next, actualEnd, true));
          found := found + [Found(p, samp.value)];
        }
        reader.Seek(next);
      }
    }
    WalkEnds(file, reader.cursor, actualEnd);
    scan := Scan(found, true);
  }

  lemma {:induction false} WalkEnds(file: seq<byte>, p: nat, end: nat)
    requires p >= end
    ensures Walk(file, p, end, true) == Scan([], true)
  {
  }

  lemma {:induction false} WalkStep(file: seq<byte>, p: nat, end: nat)
    requires p < end
    ensures Walk(file, p, end, true)
            == if !Accepted(file, p) then Walk(file, p + 1, end, false)
               else
                 var header := HeaderAt(file, p).value;
                 if header.tag != SAMP then Walk(file, p + header.size, end, true)
                 else match SampAt(file, p, header)
                   case None => Scan([], false)
                   case Some(samp) => Prepend(Found(p, samp), Walk(file, p + header.size, end, true))
  {
  }

  lemma {:induction false} ResyncAdvances(file: seq<byte>, from: nat, end: nat, p: nat)
    requires from <= end && ResyncStop(file, from, end, p)
    ensures from <= p <= end
  {
  }

  lemma {:induction false} AppendOne(found: seq<Found>, f: Found, rest: Scan)
    ensures Append(found, Prepend(f, rest)) == Append(found + [f], rest)
  {
  }

  // ---------------------------------------------------------------- the scan's result

  /** A sample chunk of the file, found where it is. */
  ghost predicate RealChunk(file: seq<byte>, f: Found) {
    && Accepted(file, f.offset)
    && HeaderAt(file, f.offset).value.tag == SAMP
    && SampAt(file, f.offset, HeaderAt(file, f.offset).value) == Some(f.samp)
  }

  /** Chunks lie in `lo..end`, strictly increasing and none reaching into the next. */
  ghost predicate Ordered(found: seq<Found>, lo: nat, end: nat) {
    && (forall i | 0 <= i < |found| :: lo <= found[i].offset < end && found[i].samp.size >= 16)
    && (forall i, j | 0 <= i < j < |found| :: found[i].offset + found[i].samp.size <= found[j].offset)
  }

  lemma {:induction false} OrderedEmpty(lo: nat, end: nat)
    ensures Ordered([], lo, end)
  {
  }

  lemma {:induction false} OrderedFromBelow(found: seq<Found>, lo: nat, lo': nat, end: nat)
    requires lo <= lo' && Ordered(found, lo', end)
    ensures Ordered(found, lo, end)
  {
  }

  lemma {:induction false} OrderedPrepend(f: Found, found: seq<Found>, end: nat)
    requires f.offset < end && f.samp.size >= 16 && Ordered(found, f.offset + f.samp.size, end)
    ensures Ordered([f] + found, f.offset, end)
  {
  }

  lemma {:induction false} AcceptedSampSize(file: seq<byte>, f: Found)
    requires RealChunk(file, f)
    ensures f.samp.size == HeaderAt(file, f.offset).value.size >= 16
  {
  }

  /** The chunks found are real sample chunks, in strictly increasing order, and none overlaps the next. */
  lemma {:induction false} WalkIsOrdered(file: seq<byte>, p: nat, end: nat, landed: bool)
    ensures Ordered(Walk(file, p, end, landed).found, p, end)
    ensures forall f | f in Walk(file, p, end, landed).found :: RealChunk(file, f)
    decreases if p < end then end - p else 0
  {
    hide HeaderAt, IsKnownTag, SampAt, Ordered;
    if p < end {
      if Accepted(file, p) && (landed || p + 4 <= end) {
        var header := HeaderAt(file, p).value;
        WalkIsOrdered(file, p + header.size, end, true);
        var rest := Walk(file, p + header.size, end, true).found;
        OrderedFromBelow(rest, p, p + header.size, end);
        var samp := SampAt(file, p, header);
        if header.tag == SAMP && samp.Some? {
          var f := Found(p, samp.value);
          AcceptedSampSize(file, f);
          OrderedPrepend(f, rest, end);
        }
      } else {
        WalkIsOrdered(file, p + 1, end, false);
        OrderedFromBelow(Walk(file, p + 1, end, false).found, p, p + 1, end);
      }
    }
    OrderedEmpty(p, end);
  }

  /** The walk that only ever accepts headers whose tag lies wholly before `end`. */
  ghost function SimpleWalk(file: seq<byte>, p: nat, end: nat): Scan
    decreases if p < end then end - p else 0
  {
    if p >= end then Scan([], true)
    else if Accepted(file, p) && p + 4 <= end then
      var header := HeaderAt(file, p).value;
      if header.tag != SAMP then SimpleWalk(file, p + header.size, end)
      else match SampAt(file, p, header)
        case None => Scan([], false)
        case Some(samp) => Prepend(Found(p, samp), SimpleWalk(file, p + header.size, end))
    else SimpleWalk(file, p + 1, end)
  }

  /** A sample chunk whose tag straddles `end`. */
  predicate StraddlerAt(file: seq<byte>, end: nat, p: nat) {
    p < end < p + 4 && Accepted(file, p) && HeaderAt(file, p).value.tag == SAMP
  }

  predicate NoStraddler(file: seq<byte>, end: nat) {
    forall p: nat | p < end :: !StraddlerAt(file, end, p)
  }

  /** Without a straddling sample chunk the scan is the simple walk. */
  lemma {:induction false} WalkIsSimple(file: seq<byte>, p: nat, end: nat, landed: bool)
    requires NoStraddler(file, end)
    ensures Walk(file, p, end, landed) == SimpleWalk(file, p, end)
    decreases if p < end then end - p else 0
  {
    hide HeaderAt, IsKnownTag, SampAt;
    if p < end {
      if Accepted(file, p) && p + 4 <= end {
        WalkIsSimple(file, p + HeaderAt(file, p).value.size, end, true);
      } else if Accepted(file, p) && landed {
        assert !StraddlerAt(file, end, p);
        SimpleTailIsEmpty(file, p, end);
      } else {
        WalkIsSimple(file, p + 1, end, false);
      }
    }
  }

  /** The scan is the simple walk from every start if and only if no sample chunk straddles the bound. */
  lemma {:induction false} ScanIsSimpleIff(file: seq<byte>, end: nat)
    ensures NoStraddler(file, end) <==> forall p: nat :: Walk(file, p, end, true) == SimpleWalk(file, p, end)
  {
    hide HeaderAt, IsKnownTag, SampAt, Walk, SimpleWalk;
    if NoStraddler(file, end) {
      forall p: nat
        ensures Walk(file, p, end, true) == SimpleWalk(file, p, end)
      {
        WalkIsSimple(file, p, end, true);
      }
    } else {
      var q: nat :| q < end && StraddlerAt(file, end, q);
      WalkStep(file, q, end);
      SimpleTailIsEmpty(file, q, end);
    }
  }

  /** A start three bytes before the bound: the scan takes a chunk that the simple walk refuses. */
  lemma {:induction false} StraddlerExample()
    ensures var file := SAMP + [64, 0, 0, 0] + seq(56, _ => 0);
            Walk(file, 0, 3, true) != SimpleWalk(file, 0, 3)
  {
    var file: seq<byte> := SAMP + [64, 0, 0, 0] + seq(56, _ => 0);
    assert file[0..4] == SAMP && file[4..8] == [64, 0, 0, 0];
    assert StraddlerAt(file, 3, 0) by {
      assert LittleEndian([0, 0, 0]) == 0 by {
        assert LittleEndian([0]) == 0;
        assert LittleEndian([0, 0]) == 0;
      }
      assert file[4..8][1..] == [0, 0, 0];
    }
    WalkStep(file, 0, 3);
    SimpleTailIsEmpty(file, 0, 3);
  }

  /** Scanning to the end of the file is the simple walk: a straddling header would not fit in the file. */
  lemma {:induction false} WholeFileScanIsSimple(file: seq<byte>, p: nat)
    ensures Walk(file, p, |file|, true) == SimpleWalk(file, p, |file|)
  {
    hide Walk, SimpleWalk;
    assert NoStraddler(file, |file|);
    WalkIsSimple(file, p, |file|, true);
  }

  /** In general the scan is the simple walk plus at most one chunk, whose tag straddles `end`. */
  lemma {:induction false} WalkIsSimpleAndAStraddler(file: seq<byte>, p: nat, end: nat, landed: bool)
    ensures var walk, simple := Walk(file, p, end, landed), SimpleWalk(file, p, end);
            && simple.found <= walk.found
            && |walk.found| <= |simple.found| + 1
            && (walk.complete ==> simple.complete)
            && (forall i | |simple.found| <= i < |walk.found| :: walk.found[i].offset < end < walk.found[i].offset + 4)
    decreases if p < end then end - p else 0
  {
    hide IsKnownTag, SampAt;
    if p < end {
      if Accepted(file, p) && p + 4 <= end {
        WalkIsSimpleAndAStraddler(file, p + HeaderAt(file, p).value.size, end, true);
      } else if Accepted(file, p) && landed {
        SimpleTailIsEmpty(file, p, end);
      } else {
        WalkIsSimpleAndAStraddler(file, p + 1, end, false);
      }
    }
  }

  lemma {:induction false} SimpleTailIsEmpty(file: seq<byte>, p: nat, end: nat)
    requires p + 4 > end
    ensures SimpleWalk(file, p, end) == Scan([], true)
    decreases if p < end then end - p else 0
  {
    hide HeaderAt, IsKnownTag, SampAt;
    if p < end {
      SimpleTailIsEmpty(file, p + 1, end);
    }
  }

  // ---------------------------------------------------------------- broad search

  /** A single read at `p` came back with less than a tag although the file goes on. */
  predicate CutShort(file: seq<byte>, p: nat, cursor: nat) {
    p < cursor < p + 4 && cursor < |file|
  }

  /**
   The search reads each block with one read, which may come back short.  A hit is always
   the first occurrence.  No hit means that none starts below the bound, unless a read
   delivered fewer than four bytes before the end of the file: then the search stops at
   that place, having missed nothing before it.
   */
  method BroadSearchForChunk(reader: Reader, bound: nat, signature: Tag)
    returns (at: Option<nat>, ghost stop: Option<nat>)
    requires |signature| == 4
    modifies reader
    ensures var hit := (tag: Tag) => tag == signature;
            match at
            case Some(o) => HitAt(reader.file, o, hit) && forall q: nat | q < o :: !HitAt(reader.file, q, hit)
            case None =>
              match stop
              case None => forall q: nat | q < bound :: !HitAt(reader.file, q, hit)
              case Some(p) =>
                p < bound && CutShort(reader.file, p, reader.cursor)
                && forall q: nat | q < p :: !HitAt(reader.file, q, hit)
  {
    hide Window;
    var hit := (tag: Tag) => tag == signature;
    stop := None;
    var position := 0;
    while position < bound
      invariant forall q: nat | q < position :: !HitAt(reader.file, q, hit)
      invariant stop == None
      decreases bound - position
    {
      reader.Seek(position);
      var buffer := reader.Read(SEARCH_CHUNK_SIZE);
      var found := FirstWindow(buffer, hit);
      forall q: nat | position <= q
        ensures HitAt(buffer, q - position, hit) <==> HitAt(reader.file, q, hit) && q - position + 4 <= |buffer|
      {
        BlockHits(reader.file, position, |buffer|, q - position, hit);
      }
      if found.Some? {
        assert position + found.value - position == found.value;
        return Some(position + found.value), None;
      }
      if |buffer| < 4 {
        stop := if reader.cursor < |reader.file| then Some(position) else None;
        return None, stop;
      }
      position := position + (|buffer| - 3);
    }
    at := None;
  }
}
