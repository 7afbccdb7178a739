/**
 The bit reader of src/decompression.rs: a 64-bit reservoir refilled a byte at a
 time from a byte slice.  The class invariant says what the reservoir means; the
 methods are specified over the bit sequence alone.
 */
module BitReading {
  import opened Bits
  import opened Results

  datatype ReadError = NotEnoughBits

  const RESERVOIR_BITS: nat := 64
  const U64_VALUES: nat := 0x1_0000_0000_0000_0000

  /** The number read off `n` bits from position `p`, most significant first. */
  ghost function ValueAt(all: seq<bit>, p: nat, n: nat): nat
    requires p + n <= |all|
  {
    ValueOf(all[p..p + n])
  }

  /** `n` bits shifted down out of a word. */
  function Extract(word: nat, shift: nat, n: nat): nat {
    word / Pow2(shift) % Pow2(n)
  }

  /** The low `held` bits of the reservoir are the `held` bits of `all` that end at `end`. */
  ghost predicate Live(all: seq<bit>, end: nat, reservoir: nat, held: nat) {
    held <= end <= |all| && reservoir % Pow2(held) == ValueOf(all[end - held..end])
  }

  class BitReader {
    const bytes: seq<byte>
    var bytePos: nat
    var reservoir: nat
    var bitsInReservoir: nat

    /** The reservoir is a u64 whose low `bitsInReservoir` bits are the newest bits loaded and not yet read. */
    ghost predicate Valid()
      reads this
    {
      && bytePos <= |bytes|
      && bitsInReservoir <= RESERVOIR_BITS
      && bitsInReservoir <= 8 * bytePos
      && reservoir < U64_VALUES
      && Live(BitsOf(bytes), 8 * bytePos, reservoir, bitsInReservoir)
    }

    constructor (bytes: seq<byte>)
      ensures Valid() && this.bytes == bytes && Position() == 0
    {
      this.bytes := bytes;
      bytePos, reservoir, bitsInReservoir := 0, 0, 0;
    }

    /** Bits consumed so far. */
    function Position(): (p: nat)
      requires Valid()
      reads this
      ensures p <= 8 * |bytes|
    {
      bytePos * 8 - bitsInReservoir
    }

    /** Loads bytes until the reservoir holds more than 56 bits or the input ends; consumes nothing. */
    method Fill()
      requires Valid()
      modifies this
      ensures Valid() && Position() == old(Position())
      ensures bitsInReservoir > 56 || bytePos == |bytes|
      ensures bitsInReservoir >= old(bitsInReservoir)
    {
      hide Live;
      while bitsInReservoir <= 56 && bytePos < |bytes|
        invariant Valid() && Position() == old(Position())
        invariant bitsInReservoir >= old(bitsInReservoir)
        decreases |bytes| - bytePos
      {
        WordSizes();
        LoadByte(bytes, bytePos, reservoir, bitsInReservoir, RESERVOIR_BITS, U64_VALUES);
        // The u64 shift drops the top eight bits; the OR fills the zeroed low byte.
        reservoir := reservoir * 256 % U64_VALUES + bytes[bytePos];
        bitsInReservoir := bitsInReservoir + 8;
        bytePos := bytePos + 1;
      }
    }

    /** Shifts the oldest `n` live bits out of the reservoir. */
    method Take(n: nat) returns (v: nat)
      requires Valid() && n <= bitsInReservoir && n <= 32
      modifies `bitsInReservoir
      ensures Valid() && Position() == old(Position()) + n
      ensures v == ValueAt(BitsOf(bytes), old(Position()), n) < 0x1_0000_0000
      ensures n == 1 ==> v == BitsOf(bytes)[old(Position())]
    {
      hide Live, ValueAt, Extract;
      TakeBits(BitsOf(bytes), 8 * bytePos, reservoir, bitsInReservoir, n);
      ValueAtBounds(BitsOf(bytes), Position(), n);
      bitsInReservoir := bitsInReservoir - n;
      v := Extract(reservoir, bitsInReservoir, n);
    }

    /** Reads the next bit, or fails at the end of the input without consuming anything. */
    method ReadBit() returns (r: Result<bit, ReadError>)
      requires Valid()
      modifies this
      ensures Valid()
      ensures r.Ok? <==> old(Position()) < 8 * |bytes|
      ensures r.Ok? ==> r.value == BitsOf(bytes)[old(Position())] && Position() == old(Position()) + 1
      ensures r.Err? ==> Position() == old(Position())
    {
      hide Live;
      if bitsInReservoir == 0 {
        Fill();
        if bitsInReservoir == 0 {
          return Err(NotEnoughBits);
        }
      }
      var b := Take(1);
      r := Ok(b);
    }

    /** Reads the next `n` bits as a number, or fails without consuming anything when fewer remain. */
    method ReadBits(n: nat) returns (r: Result<nat, ReadError>)
      requires Valid() && n <= 32
      modifies this
      ensures Valid()
      ensures r.Ok? <==> old(Position()) + n <= 8 * |bytes|
      ensures r.Ok? ==> Position() == old(Position()) + n
      ensures r.Ok? ==> r.value == ValueAt(BitsOf(bytes), old(Position()), n) < 0x1_0000_0000
      ensures r.Err? ==> Position() == old(Position())
    {
      hide Live;
      if n == 0 {
        return Ok(0);
      }
      if bitsInReservoir < n {
        Fill();
        if bitsInReservoir < n {
          return Err(NotEnoughBits);
        }
      }
      var v := Take(n);
      r := Ok(v);
    }
  }

  /** The arithmetic of a shift-and-OR in a word of `live * k * 256` values, `live` of them held so far. */
  lemma {:induction false} ShiftInArithmetic(reservoir: nat, live: nat, k: nat, b: byte)
    requires live > 0 && k > 0
    ensures live * k * 256 > 0
    ensures reservoir * 256 % (live * k * 256) + b < live * k * 256
    ensures (reservoir * 256 % (live * k * 256) + b) % (live * 256) == reservoir % live * 256 + b
  {
    MulAtLeast(k, live);
    ScaledRemainder(reservoir, live * k, 256);
    NestedRemainder(reservoir, live, k);
    // Only the low part of the reservoir survives; its low byte is free.
    var kept := reservoir % (live * k);
    var q, r := kept / live, kept % live;
    assert kept == q * live + r;
    assert kept * 256 + b == q * (live * 256) + (r * 256 + b) by {
      Distribute(q * live, r, 256);
      assert q * live * 256 == q * (live * 256);
    }
    DivModUnique(kept * 256 + b, live * 256, q, r * 256 + b);
  }

  lemma {:induction false} MoveFactor(live: nat, k: nat)
    ensures 256 * live * k == live * k * 256
  {
  }

  /** Shifting a byte into a u64 reservoir appends it to the `held` live low bits, whatever the dead high bits are. */
  lemma {:induction false} ShiftInByte(reservoir: nat, held: nat, word: nat, b: byte)
    requires held + 8 <= word
    ensures reservoir * 256 % Pow2(word) + b < Pow2(word)
    ensures (reservoir * 256 % Pow2(word) + b) % Pow2(held + 8) == reservoir % Pow2(held) * 256 + b
  {
    hide Pow2;
    var live, k := Pow2(held), Pow2(word - held - 8);
    Pow2EightMore(held, live);
    Pow2Add(held + 8, word - held - 8);
    assert word == held + 8 + (word - held - 8);
    MoveFactor(live, k);
    ShiftInArithmetic(reservoir, live, k, b);
  }

  /** Loading byte `k` into a word of `size` values keeps the reservoir live, eight bits further on. */
  lemma {:induction false} LoadByte(bytes: seq<byte>, k: nat, reservoir: nat, held: nat, word: nat, size: nat)
    requires k < |bytes| && held + 8 <= word && size == Pow2(word)
    requires Live(BitsOf(bytes), 8 * k, reservoir, held)
    ensures reservoir * 256 % size + bytes[k] < size
    ensures Live(BitsOf(bytes), 8 * k + 8, reservoir * 256 % size + bytes[k], held + 8)
  {
    ShiftInByte(reservoir, held, word, bytes[k]);
    BitsExtendedByByte(bytes, k, held);
  }

  lemma {:induction false} BitsExtendedByByte(bytes: seq<byte>, k: nat, held: nat)
    requires k < |bytes| && held <= 8 * k
    ensures ValueOf(BitsOf(bytes)[8 * k - held..8 * k + 8])
            == ValueOf(BitsOf(bytes)[8 * k - held..8 * k]) * 256 + bytes[k]
  {
    var all := BitsOf(bytes);
    var unread, loaded := all[8 * k - held..8 * k], all[8 * k..8 * k + 8];
    BitsOfByte(bytes, k);
    ByteValue(bytes[k]);
    ValueOfAppend(unread, loaded);
    assert unread + loaded == all[8 * k - held..8 * k + 8];
  }

  lemma {:induction false} ValueAtBounds(all: seq<bit>, p: nat, n: nat)
    requires n <= 32 && p + n <= |all|
    ensures ValueAt(all, p, n) < 0x1_0000_0000
    ensures n == 1 ==> ValueAt(all, p, n) == all[p]
  {
    WordSizes();
    ValueOfBound(all[p..p + n]);
    Pow2Monotone(n, 32);
    if n == 1 {
      assert all[p..p + n][..0] == [];
    }
  }

  /** Splitting live bits worth `hi * low + lo` under any dead part. */
  lemma {:induction false} TakeArithmetic(reservoir: nat, top: nat, low: nat, hi: nat, lo: nat)
    requires hi < top && lo < low && top * low > 0
    requires reservoir % (top * low) == hi * low + lo
    ensures reservoir / low % top == hi
    ensures reservoir % low == lo
  {
    var dead := reservoir / (top * low);
    assert reservoir == dead * (top * low) + (hi * low + lo);
    assert dead * (top * low) == dead * top * low;
    Distribute(dead * top, hi, low);
    DivModUnique(reservoir, low, dead * top + hi, lo);
    DivModUnique(dead * top + hi, top, dead, hi);
  }

  /** Shifting `n` bits off the top of the live bits yields their value and leaves the rest live. */
  lemma {:induction false} TakeBits(all: seq<bit>, end: nat, reservoir: nat, held: nat, n: nat)
    requires n <= held <= end <= |all| && Live(all, end, reservoir, held)
    ensures Extract(reservoir, held - n, n) == ValueAt(all, end - held, n)
    ensures Live(all, end, reservoir, held - n)
  {
    var taken, rest := all[end - held..end - held + n], all[end - held + n..end];
    assert taken + rest == all[end - held..end];
    ValueOfAppend(taken, rest);
    ValueOfBound(taken);
    ValueOfBound(rest);
    Pow2Add(n, held - n);
    TakeArithmetic(reservoir, Pow2(n), Pow2(held - n), ValueOf(taken), ValueOf(rest));
  }
}
