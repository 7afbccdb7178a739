/**
 The backward-linked chunk lists of an RTSA file (src/file_source.rs): sub-stream,
 antenna, metadata and preview chunks, each naming the offset of the next.  The links
 are untrusted, so a list may run off the file or loop.
 */
module ChunkChain {
  import opened Bits
  import opened ByteFile
  import opened Chunks
  import opened Mdtt
  import opened Results

  datatype Kind = SubStreams | Antennas | MetaData | Previews

  const SSTR_FIELDS: nat := 224
  const ANTA_FIELDS: nat := 248
  const MDTT_FIELDS: nat := 16
  const SPRV_FIELDS: nat := 392
  const SPRV_SLOTS: nat := 16
  const MAX_MDTT_PAYLOAD: nat := 16 * 1024 * 1024

  /** A chunk of a list: where it is, the key it is filed under, and where the next one is said to be. */
  datatype Link = Link(offset: nat, key: nat, next: int)

  function KindTag(kind: Kind): Tag {
    match kind
    case SubStreams => SSTR
    case Antennas => ANTA
    case MetaData => Chunks.MDTT
    case Previews => SPRV
  }

  function SignedAt(file: seq<byte>, p: nat): int
    requires p + 8 <= |file|
  {
    Signed(UnsignedAt(file, p, 8), 8)
  }

  /** The first positive offset among the preview slots from `i` on, or zero. */
  function FirstPositive(file: seq<byte>, p: nat, i: nat): int
    requires i <= SPRV_SLOTS && p + 8 * SPRV_SLOTS <= |file|
    decreases SPRV_SLOTS - i
  {
    if i == SPRV_SLOTS then 0
    else if SignedAt(file, p + 8 * i) > 0 then SignedAt(file, p + 8 * i)
    else FirstPositive(file, p, i + 1)
  }

  /** The body of a chunk whose header at `p` has been accepted; none on a short read or a malformed definition. */
  function BodyAt(kind: Kind, file: seq<byte>, p: nat, header: Header): Option<Link> {
    var body := p + HEADER_BYTES;
    match kind
    case SubStreams =>
      if body + SSTR_FIELDS > |file| then None
      else Some(Link(p, UnsignedAt(file, body + 8, 4), SignedAt(file, body + 16)))
    case Antennas =>
      if body + ANTA_FIELDS > |file| then None
      else Some(Link(p, UnsignedAt(file, body, 8), SignedAt(file, body + 8)))
    case MetaData =>
      var payload := header.size - HEADER_BYTES - MDTT_FIELDS;
      if body + MDTT_FIELDS > |file| || payload > MAX_MDTT_PAYLOAD then None
      else if payload > 0 && !DefinitionReads(file, body + MDTT_FIELDS, payload) then None
      else Some(Link(p, UnsignedAt(file, body, 8), SignedAt(file, body + 8)))
    case Previews =>
      if body + SPRV_FIELDS > |file| then None
      else Some(Link(p, p, FirstPositive(file, body + 8, 0)))
  }

  predicate DefinitionReads(file: seq<byte>, p: nat, length: nat) {
    p + length <= |file| && ParseDefinition(file[p..p + length], 0, 0).Some?
  }

  function LinkAt(kind: Kind, file: seq<byte>, p: nat): Option<Link> {
    match HeaderAt(file, p)
    case None => None
    case Some(header) => if header.tag != KindTag(kind) then None else BodyAt(kind, file, p, header)
  }

  function Next(link: Link): nat {
    if link.next > 0 then link.next else 0
  }

  // ---------------------------------------------------------------- reading one chunk

  method ReadMdttBody(reader: Reader, p: nat, header: Header) returns (link: Option<Link>)
    requires reader.cursor == p + HEADER_BYTES
    modifies reader
    ensures link == BodyAt(MetaData, reader.file, p, header)
  {
    hide LittleEndian, Signed, ParseDefinition;
    ghost var body := reader.cursor;
    var key :- reader.ReadUnsigned(8);
    var next :- reader.ReadUnsigned(8);
    var payload := header.size - HEADER_BYTES - MDTT_FIELDS;
    if payload > MAX_MDTT_PAYLOAD {
      return None;
    }
    if payload > 0 {
      var bytes :- reader.ReadExact(payload);
      var nested := new Reader(bytes);
      var _ :- ReadMetaTypeDefinition(nested, 0);
    }
    link := Some(Link(p, key, Signed(next, 8)));
  }

  /** The `find` over the sixteen preview offsets. */
  method FindPreviewOffset(fields: seq<byte>, ghost file: seq<byte>, ghost p: nat) returns (offset: int)
    requires |fields| == 8 * SPRV_SLOTS && p + |fields| <= |file| && fields == file[p..p + |fields|]
    ensures offset == FirstPositive(file, p, 0)
  {
    hide LittleEndian, Signed;
    var i := 0;
    while i < SPRV_SLOTS
      invariant i <= SPRV_SLOTS && FirstPositive(file, p, 0) == FirstPositive(file, p, i)
    {
      SliceOfSlice(file, p, p + |fields|, 8 * i, 8 * i + 8);
      offset := Signed(LittleEndian(fields[8 * i..8 * i + 8]), 8);
      if offset > 0 {
        return;
      }
      i := i + 1;
    }
    offset := 0;
  }

  method ReadSprvBody(reader: Reader, p: nat, header: Header) returns (link: Option<Link>)
    requires reader.cursor == p + HEADER_BYTES
    modifies reader
    ensures link == BodyAt(Previews, reader.file, p, header)
  {
    hide LittleEndian, Signed, FirstPositive;
    ghost var body := reader.cursor;
    var fields :- reader.ReadExact(SPRV_FIELDS);
    SliceOfSlice(reader.file, body, body + SPRV_FIELDS, 8, 8 + 8 * SPRV_SLOTS);
    var offset := FindPreviewOffset(fields[8..8 + 8 * SPRV_SLOTS], reader.file, body + 8);
    link := Some(Link(p, p, offset));
  }

  /** Sub-stream and antenna chunks: a block of fixed fields with a key and a link in it. */
  method ReadFixedBody(kind: Kind, reader: Reader, p: nat, header: Header) returns (link: Option<Link>)
    requires kind.SubStreams? || kind.Antennas?
    requires reader.cursor == p + HEADER_BYTES
    modifies reader
    ensures link == BodyAt(kind, reader.file, p, header)
  {
    hide LittleEndian, Signed;
    ghost var body := reader.cursor;
    var width := if kind.SubStreams? then SSTR_FIELDS else ANTA_FIELDS;
    var fields :- reader.ReadExact(width);
    var b := fields;
    FieldsAt(reader.file, body, b);
    if kind.SubStreams? {
      link := Some(Link(p, LittleEndian(b[8..12]), Signed(LittleEndian(b[16..24]), 8)));
    } else {
      link := Some(Link(p, LittleEndian(b[0..8]), Signed(LittleEndian(b[8..16]), 8)));
    }
  }

  method ReadLink(kind: Kind, reader: Reader, p: nat) returns (link: Option<Link>)
    modifies reader
    ensures link == LinkAt(kind, reader.file, p)
  {
    hide BodyAt, HeaderAt;
    reader.Seek(p);
    var header :- ReadHeader(reader);
    if header.tag != KindTag(kind) {
      return None;
    }
    match kind
    case SubStreams => link := ReadFixedBody(kind, reader, p, header);
    case Antennas => link := ReadFixedBody(kind, reader, p, header);
    case MetaData => link := ReadMdttBody(reader, p, header);
    case Previews => link := ReadSprvBody(reader, p, header);
  }

  // ---------------------------------------------------------------- what a list is

  /** The `i`-th offset met when following links from `start`, whether or not it has been seen before. */
  function Follow(kind: Kind, file: seq<byte>, start: nat, i: nat): nat {
    if i == 0 then start
    else match LinkAt(kind, file, Follow(kind, file, start, i - 1))
      case None => 0
      case Some(link) => Next(link)
  }

  /** An offset at which following stops: the null offset, a repeat, or a chunk that does not read. */
  predicate Stops(kind: Kind, file: seq<byte>, links: seq<Link>, p: nat) {
    p == 0 || (exists i | 0 <= i < |links| :: links[i].offset == p) || LinkAt(kind, file, p).None?
  }

  /** `links` are the chunks met from `start` on: read, non-null and each met once. */
  predicate Path(kind: Kind, file: seq<byte>, start: nat, links: seq<Link>) {
    && (forall i | 0 <= i < |links| ::
          && links[i].offset == Follow(kind, file, start, i)
          && links[i].offset > 0
          && LinkAt(kind, file, links[i].offset) == Some(links[i]))
    && (forall i, j | 0 <= i < j < |links| :: links[i].offset != links[j].offset)
  }

  /** The list that starts at `start`: the path up to the first place where following stops. */
  predicate Chain(kind: Kind, file: seq<byte>, start: nat, links: seq<Link>) {
    && Path(kind, file, start, links)
    && Stops(kind, file, links, Follow(kind, file, start, |links|))
  }

  ghost function Below(n: nat): (s: set<nat>)
    ensures forall p: nat :: p in s <==> p < n
  {
    if n == 0 then {} else Below(n - 1) + {n - 1}
  }

  function Offsets(links: seq<Link>): set<nat> {
    set link | link in links :: link.offset
  }

  lemma {:induction false} LinkIsInside(kind: Kind, file: seq<byte>, p: nat)
    requires LinkAt(kind, file, p).Some?
    ensures p < |file| && LinkAt(kind, file, p).value.offset == p
  {
    hide ParseDefinition, LittleEndian, FirstPositive;
  }

  /** Chunks cut short by the end of the file, and metadata payloads over 16 MiB, end a list. */
  lemma {:induction false} RefusedLinks(file: seq<byte>, p: nat)
    ensures p + 16 + 224 > |file| ==> LinkAt(SubStreams, file, p).None?
    ensures p + 16 + 248 > |file| ==> LinkAt(Antennas, file, p).None?
    ensures p + 16 + 16 > |file| ==> LinkAt(MetaData, file, p).None?
    ensures p + 16 + 392 > |file| ==> LinkAt(Previews, file, p).None?
    ensures HeaderAt(file, p).Some? && HeaderAt(file, p).value.size > 32 + 16_777_216 ==>
              LinkAt(MetaData, file, p).None?
  {
    hide ParseDefinition, UnsignedAt, FirstPositive, Signed, HeaderAt;
  }

  lemma {:induction false} PathExtends(kind: Kind, file: seq<byte>, start: nat, links: seq<Link>, p: nat)
    requires Path(kind, file, start, links) && p == Follow(kind, file, start, |links|)
    requires !Stops(kind, file, links, p)
    ensures var link := LinkAt(kind, file, p).value;
            && Path(kind, file, start, links + [link])
            && Follow(kind, file, start, |links| + 1) == Next(link)
            && Offsets(links + [link]) == Offsets(links) + {p}
  {
    hide LinkAt;
    LinkIsInside(kind, file, p);
    var link := LinkAt(kind, file, p).value;
    var longer := links + [link];
    forall x | x in Offsets(longer)
      ensures x in Offsets(links) + {p}
    {
    }
    forall x | x in Offsets(links) + {p}
      ensures x in Offsets(longer)
    {
      if x == p {
        assert link in longer;
      } else {
        var l :| l in links && l.offset == x;
        assert l in longer;
      }
    }
  }

  // ---------------------------------------------------------------- the walkers

  /** The sub-stream, antenna and metadata walkers: each chunk read is filed under its key. */
  method ParseChain(kind: Kind, reader: Reader, start: nat, chunks: map<nat, Link>)
    returns (filed: map<nat, Link>, ghost links: seq<Link>)
    modifies reader
    ensures Chain(kind, reader.file, start, links)
    ensures filed == FileAll(chunks, links)
  {
    hide LinkAt, Path, Stops, Follow;
    ghost var file := reader.file;
    filed, links := chunks, [];
    var chainOffset := start;
    var visited: set<nat> := {};
    PathStarts(kind, file, start);
    while chainOffset > 0 && chainOffset !in visited
      invariant Path(kind, file, start, links) && chainOffset == Follow(kind, file, start, |links|)
      invariant visited == Offsets(links) && filed == FileAll(chunks, links)
      decreases Below(|file|) - visited
    {
      visited := visited + {chainOffset};
      var link := ReadLink(kind, reader, chainOffset);
      if link.None? {
        ChainStops(kind, file, links, chainOffset);
        return;
      }
      NotStopped(kind, file, links, chainOffset);
      LinkIsInside(kind, file, chainOffset);
      PathExtends(kind, file, start, links, chainOffset);
      FileOneMore(chunks, links, link.value);
      chainOffset := if link.value.next > 0 then link.value.next else 0;
      filed := filed[link.value.key := link.value];
      links := links + [link.value];
    }
    ChainStops(kind, file, links, chainOffset);
  }

  /** The preview walker: each chunk read is appended. */
  method ParseSprvTree(reader: Reader, start: nat, chunks: seq<Link>)
    returns (all: seq<Link>, ghost links: seq<Link>)
    modifies reader
    ensures Chain(Previews, reader.file, start, links)
    ensures all == chunks + links
  {
    hide LinkAt, Path, Stops, Follow;
    ghost var file := reader.file;
    all, links := chunks, [];
    var treeOffset := start;
    var visited: set<nat> := {};
    PathStarts(Previews, file, start);
    while treeOffset > 0 && treeOffset !in visited
      invariant Path(Previews, file, start, links) && treeOffset == Follow(Previews, file, start, |links|)
      invariant visited == Offsets(links) && all == chunks + links
      decreases Below(|file|) - visited
    {
      visited := visited + {treeOffset};
      var link := ReadLink(Previews, reader, treeOffset);
      if link.None? {
        ChainStops(Previews, file, links, treeOffset);
        return;
      }
      NotStopped(Previews, file, links, treeOffset);
      LinkIsInside(Previews, file, treeOffset);
      PathExtends(Previews, file, start, links, treeOffset);
      treeOffset := if link.value.next > 0 then link.value.next else 0;
      all := all + [link.value];
      links := links + [link.value];
    }
    ChainStops(Previews, file, links, treeOffset);
  }

  lemma {:induction false} PathStarts(kind: Kind, file: seq<byte>, start: nat)
    ensures Path(kind, file, start, []) && Follow(kind, file, start, 0) == start && Offsets([]) == {}
  {
  }

  lemma {:induction false} ChainStops(kind: Kind, file: seq<byte>, links: seq<Link>, p: nat)
    requires p == 0 || p in Offsets(links) || LinkAt(kind, file, p).None?
    ensures Stops(kind, file, links, p)
  {
    if p in Offsets(links) {
      var link :| link in links && link.offset == p;
      var i :| 0 <= i < |links| && links[i] == link;
    }
  }

  lemma {:induction false} NotStopped(kind: Kind, file: seq<byte>, links: seq<Link>, p: nat)
    requires p > 0 && p !in Offsets(links) && LinkAt(kind, file, p).Some?
    ensures !Stops(kind, file, links, p)
  {
    if exists i | 0 <= i < |links| :: links[i].offset == p {
      var i :| 0 <= i < |links| && links[i].offset == p;
      assert links[i] in links;
    }
  }

  // ---------------------------------------------------------------- what the walkers return

  /** Links filed in order under their keys. */
  function FileAll(chunks: map<nat, Link>, links: seq<Link>): map<nat, Link>
    decreases |links|
  {
    if links == [] then chunks
    else FileAll(chunks, links[..|links| - 1])[links[|links| - 1].key := links[|links| - 1]]
  }

  lemma {:induction false} FileOneMore(chunks: map<nat, Link>, links: seq<Link>, link: Link)
    ensures FileAll(chunks, links + [link]) == FileAll(chunks, links)[link.key := link]
  {
    assert (links + [link])[..|links|] == links;
  }

  /** `i` is the last link with key `k`. */
  predicate LastWithKey(links: seq<Link>, k: nat, i: nat) {
    i < |links| && links[i].key == k && forall j | i < j < |links| :: links[j].key != k
  }

  /** The last link with a key wins; without one the earlier entry stays. */
  lemma {:induction false} LastWriteWins(chunks: map<nat, Link>, links: seq<Link>, k: nat)
    ensures var filed := FileAll(chunks, links);
            && (forall i: nat | LastWithKey(links, k, i) :: k in filed && filed[k] == links[i])
            && ((forall link | link in links :: link.key != k) ==>
                  (k in filed <==> k in chunks) && (k in chunks ==> filed[k] == chunks[k]))
    decreases |links|
  {
    if links != [] {
      var init, last := links[..|links| - 1], links[|links| - 1];
      LastWriteWins(chunks, init, k);
      assert last in links;
      forall i: nat | LastWithKey(links, k, i)
        ensures k in FileAll(chunks, links) && FileAll(chunks, links)[k] == links[i]
      {
        if last.key != k {
          assert LastWithKey(init, k, i);
        }
      }
    }
  }

  /** A list is determined by the file and its start, so the walkers' results are too. */
  lemma {:induction false} ChainUnique(kind: Kind, file: seq<byte>, start: nat, a: seq<Link>, b: seq<Link>)
    requires Chain(kind, file, start, a) && Chain(kind, file, start, b)
    ensures a == b
  {
    hide LinkAt, Follow;
  }

  /** However the links point, a list is no longer than the file. */
  lemma {:induction false} ChainBounded(kind: Kind, file: seq<byte>, start: nat, links: seq<Link>)
    requires Path(kind, file, start, links)
    ensures |links| <= |file|
  {
    hide LinkAt, Follow;
    var offsets := seq(|links|, i requires 0 <= i < |links| => links[i].offset);
    forall i | 0 <= i < |links|
      ensures offsets[i] < |file|
    {
      LinkIsInside(kind, file, links[i].offset);
    }
    DistinctBelow(offsets, |file|);
  }

  lemma {:induction false} DistinctBelow(offsets: seq<nat>, n: nat)
    requires forall i | 0 <= i < |offsets| :: offsets[i] < n
    requires forall i, j | 0 <= i < j < |offsets| :: offsets[i] != offsets[j]
    ensures |offsets| <= n
    decreases n
  {
    if offsets != [] {
      assert offsets[0] < n;
      if k :| 0 <= k < |offsets| && offsets[k] == n - 1 {
        DistinctBelow(offsets[..k] + offsets[k + 1..], n - 1);
      } else {
        DistinctBelow(offsets, n - 1);
      }
    }
  }
}
