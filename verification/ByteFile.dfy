/**
 A file as a byte string with a read cursor.  A single read may come back short, as
 the operating system allows; the loops that cope with that are in the source.
 */
module ByteFile {
  import opened Bits
  import opened Results

  /** The bytes from `p`, at most `limit` of them and none past the end of the file. */
  function Window(file: seq<byte>, p: nat, limit: nat): (bytes: seq<byte>)
    ensures |bytes| <= limit
    ensures |bytes| < limit ==> p + |bytes| >= |file|
    ensures bytes == [] || p + |bytes| <= |file|
  {
    if p >= |file| then [] else if p + limit <= |file| then file[p..p + limit] else file[p..]
  }

  function LittleEndian(bytes: seq<byte>): nat {
    if bytes == [] then 0 else bytes[0] + 256 * LittleEndian(bytes[1..])
  }

  /** The `width`-byte unsigned integer at `p`. */
  function UnsignedAt(file: seq<byte>, p: nat, width: nat): nat
    requires p + width <= |file|
  {
    LittleEndian(file[p..p + width])
  }

  lemma {:induction false} LittleEndianBound(bytes: seq<byte>)
    ensures LittleEndian(bytes) < Pow2(8 * |bytes|)
  {
    if bytes != [] {
      Pow2EightMore(8 * (|bytes| - 1), Pow2(8 * (|bytes| - 1)));
      LittleEndianBound(bytes[1..]);
    }
  }

  lemma {:induction false} FieldBound(bytes: seq<byte>, p: nat, width: nat)
    requires p + width <= |bytes|
    ensures width == 4 ==> UnsignedAt(bytes, p, width) < 0x1_0000_0000
    ensures width == 8 ==> UnsignedAt(bytes, p, width) < 0x1_0000_0000_0000_0000
  {
    WordSizes();
    LittleEndianBound(bytes[p..p + width]);
  }

  /** Little-endian fields of the widths that occur, byte by byte. */
  lemma {:induction false} FieldBytes(file: seq<byte>, p: nat)
    ensures p + 1 <= |file| ==> UnsignedAt(file, p, 1) == file[p]
    ensures p + 2 <= |file| ==> UnsignedAt(file, p, 2) == file[p] as int + 0x100 * file[p + 1] as int
    ensures p + 4 <= |file| ==>
              UnsignedAt(file, p, 4) == file[p] as int + 0x100 * file[p + 1] as int
                                        + 0x1_0000 * file[p + 2] as int + 0x100_0000 * file[p + 3] as int
    ensures p + 8 <= |file| ==>
              UnsignedAt(file, p, 8) == UnsignedAt(file, p, 4) + 0x1_0000_0000 * UnsignedAt(file, p + 4, 4)
  {
    hide UnsignedAt;
    FieldStep(file, p, 1);
    FieldStep(file, p, 2);
    FieldStep(file, p + 1, 1);
    FieldStep(file, p, 4);
    FieldStep(file, p + 1, 3);
    FieldStep(file, p + 2, 2);
    FieldStep(file, p + 3, 1);
    FieldStep(file, p + 4, 1);
    FieldStep(file, p, 8);
    FieldStep(file, p + 1, 7);
    FieldStep(file, p + 2, 6);
    FieldStep(file, p + 3, 5);
  }

  lemma {:induction false} FieldStep(file: seq<byte>, p: nat, width: nat)
    requires width > 0
    ensures p + width <= |file| ==>
              UnsignedAt(file, p, width) == file[p] as int + 0x100 * UnsignedAt(file, p + 1, width - 1)
    ensures p <= |file| ==> UnsignedAt(file, p, 0) == 0
  {
    if p + width <= |file| {
      assert file[p..p + width][1..] == file[p + 1..p + 1 + (width - 1)];
    }
  }

  // ---------------------------------------------------------------- writing fields

  function LittleEndianBytes(value: nat, width: nat): (bytes: seq<byte>)
    ensures |bytes| == width
    decreases width, value
  {
    if width == 0 then [] else [value % 256] + LittleEndianBytes(value / 256, width - 1)
  }

  function Nuls(n: nat): (bytes: seq<byte>)
    ensures |bytes| == n
  {
    seq(n, _ => 0)
  }

  lemma {:induction false} LittleEndianRoundTrip(value: nat, width: nat)
    requires value < Pow2(8 * width)
    ensures LittleEndian(LittleEndianBytes(value, width)) == value
    decreases width
  {
    if width > 0 {
      Pow2EightMore(8 * (width - 1), Pow2(8 * (width - 1)));
      LittleEndianRoundTrip(value / 256, width - 1);
      var bytes := LittleEndianBytes(value, width);
      assert bytes[1..] == LittleEndianBytes(value / 256, width - 1);
    }
  }

  /** A printed field reads back wherever it stands. */
  lemma {:induction false} FieldReadsBack(bytes: seq<byte>, p: nat, value: nat, width: nat)
    requires value < Pow2(8 * width) && p + width <= |bytes|
    requires bytes[p..p + width] == LittleEndianBytes(value, width)
    ensures UnsignedAt(bytes, p, width) == value
  {
    LittleEndianRoundTrip(value, width);
  }

  /** The same bytes read as a two's-complement integer of `8 * width` bits. */
  function Signed(value: nat, width: nat): int {
    if 2 * value < Pow2(8 * width) then value else value - Pow2(8 * width)
  }

  /** The two's complement: in range, and equal to the field modulo its size. */
  lemma {:induction false} SignedMeaning(value: nat, width: nat)
    requires width > 0 && value < Pow2(8 * width)
    ensures 0 <= Signed(value, width) + Pow2(8 * width - 1) < Pow2(8 * width)
    ensures Signed(value, width) == value || Signed(value, width) == value - Pow2(8 * width)
  {
    assert Pow2(8 * width) == 2 * Pow2(8 * width - 1);
  }

  /** The field that holds an integer in two's complement. */
  function Unsigned(value: int, width: nat): int {
    if value < 0 then value + Pow2(8 * width) else value
  }

  lemma {:induction false} SignedRoundTrip(value: int, width: nat)
    requires width > 0 && 0 <= value + Pow2(8 * width - 1) < Pow2(8 * width)
    ensures 0 <= Unsigned(value, width) < Pow2(8 * width)
    ensures Signed(Unsigned(value, width), width) == value
  {
    assert Pow2(8 * width) == 2 * Pow2(8 * width - 1);
  }

  class Reader {
    const file: seq<byte>
    var cursor: nat

    constructor (file: seq<byte>)
      ensures this.file == file && cursor == 0
    {
      this.file := file;
      cursor := 0;
    }

    /** Positions the cursor; positions past the end are allowed. */
    method Seek(position: nat)
      modifies this
      ensures cursor == position
    {
      cursor := position;
    }

    /** One read: any non-empty prefix of what was asked for, or nothing at the end of the file. */
    method Read(limit: nat) returns (bytes: seq<byte>)
      modifies this
      ensures |bytes| <= limit && bytes == Window(file, old(cursor), |bytes|)
      ensures bytes == [] <==> limit == 0 || old(cursor) >= |file|
      ensures cursor == old(cursor) + |bytes|
    {
      var available := Window(file, cursor, limit);
      if available == [] {
        return [];
      }
      var n: nat :| 1 <= n <= |available|;
      bytes := available[..n];
      assert bytes == file[cursor..cursor + n];
      cursor := cursor + n;
    }

    /** Reads until `limit` bytes are in or the file ends. */
    method ReadUpTo(limit: nat) returns (filled: seq<byte>)
      modifies this
      ensures filled == Window(file, old(cursor), limit)
      ensures cursor == old(cursor) + |filled|
    {
      filled := [];
      while |filled| < limit
        invariant |filled| <= limit && cursor == old(cursor) + |filled|
        invariant filled == Window(file, old(cursor), |filled|)
        decreases limit - |filled|
      {
        var more := Read(limit - |filled|);
        if more == [] {
          break;
        }
        filled := filled + more;
        assert filled == file[old(cursor)..cursor];
      }
    }

    /** Exactly `width` bytes, or nothing when the file ends first. */
    method ReadExact(width: nat) returns (bytes: Option<seq<byte>>)
      modifies this
      ensures bytes.Some? <==> width == 0 || old(cursor) + width <= |file|
      ensures bytes.Some? ==> |bytes.value| == width && cursor == old(cursor) + width
      ensures bytes.Some? && width > 0 ==> bytes.value == file[old(cursor)..old(cursor) + width]
    {
      var filled := ReadUpTo(width);
      bytes := if |filled| == width then Some(filled) else None;
    }

    /** A little-endian unsigned integer. */
    method ReadUnsigned(width: nat) returns (value: Option<nat>)
      requires width > 0
      modifies this
      ensures value.Some? <==> old(cursor) + width <= |file|
      ensures value.Some? ==> value.value == UnsignedAt(file, old(cursor), width) && cursor == old(cursor) + width
    {
      var bytes := ReadExact(width);
      value := match bytes case None => None case Some(b) => Some(LittleEndian(b));
    }
  }
}
