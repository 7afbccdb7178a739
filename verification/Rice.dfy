/**
 The tiered Rice code of src/decompression.rs: the coefficient unpacker, the code
 table it reads, and the round trip between them.
 */
module Rice {
  import opened Bits
  import opened BitReading
  import opened Results

  const MAX_TIER: nat := 9
  const MAX_DECOMPRESSED_SAMPLES: nat := 0x100_0000

  /** The largest magnitude of tier `MAX_TIER`. */
  const MAX_MAGNITUDE: nat := 613_566_755

  datatype UnpackError = OutputLimit | Truncated(cause: ReadError)

  // ---------------------------------------------------------------- the code table

  /** Tier L holds magnitudes from `TierOffset(L)` up to but not including `TierOffset(L + 1)`. */
  function TierOffset(tier: nat): nat {
    if tier == 0 then 0 else TierOffset(tier - 1) + Pow2(3 * (tier - 1) + 2)
  }

  function ResidualBits(tier: nat): nat {
    3 * (tier + 1)
  }

  function Magnitude(v: int): nat {
    if v < 0 then -v else v
  }

  /** The first tier from `tier` on, but at most `last`, that does not lie wholly below `m`. */
  function TierFrom(m: nat, tier: nat, last: nat): (t: nat)
    requires tier <= last
    ensures tier <= t <= last
    decreases last - tier, m
  {
    if tier == last || m < TierOffset(tier + 1) then tier else TierFrom(m, tier + 1, last)
  }

  /** The tier whose magnitudes include `m`. */
  function TierOf(m: nat): nat {
    TierFrom(m, 0, MAX_TIER)
  }

  function Zeros(n: nat): (bits: seq<bit>)
    ensures |bits| == n
  {
    seq(n, _ => 0)
  }

  /** Tier-many zeros, a stop bit, then the magnitude within the tier followed by the sign bit. */
  function Code(tier: nat, residual: nat): (bits: seq<bit>)
    ensures |bits| == tier + 1 + ResidualBits(tier)
  {
    Zeros(tier) + [1] + BitsOfValue(residual, ResidualBits(tier))
  }

  function Encode(v: int): seq<bit>
    requires Magnitude(v) <= MAX_MAGNITUDE
  {
    var tier := TierOf(Magnitude(v));
    Code(tier, ResidualOf(v, tier))
  }

  function ResidualOf(v: int, tier: nat): nat {
    var within := Magnitude(v) - TierOffset(tier);
    2 * (if within < 0 then 0 else within) + (if v < 0 then 1 else 0)
  }

  predicate Encodable(vs: seq<int>) {
    forall v | v in vs :: Magnitude(v) <= MAX_MAGNITUDE
  }

  function EncodeAll(vs: seq<int>): seq<bit>
    requires Encodable(vs)
  {
    if vs == [] then [] else Encode(vs[0]) + EncodeAll(vs[1..])
  }

  // ---------------------------------------------------------------- the unpacker

  /** Truncation to a two's-complement i32. */
  function ToI32(x: int): int {
    (x + 0x8000_0000) % 0x1_0000_0000 - 0x8000_0000
  }

  /** The coefficient a code's tier and residual stand for. */
  function Coefficient(tier: nat, residual: nat): int {
    var magnitude := ToI32(residual / 2 + TierOffset(tier));
    if residual % 2 == 1 then -magnitude else magnitude
  }

  /** How many zeros in a row start at `p`. */
  function ZeroRun(bits: seq<bit>, p: nat): (n: nat)
    requires p <= |bits|
    ensures p + n <= |bits|
    decreases |bits| - p
  {
    if p < |bits| && bits[p] == 0 then 1 + ZeroRun(bits, p + 1) else 0
  }

  datatype Next = Stop | Coded(value: int, end: nat)

  /** The code that starts at `p`: stop at a zero run too long to be a code, or when the residual is cut short. */
  ghost function NextCode(bits: seq<bit>, p: nat): (next: Next)
    requires p <= |bits|
    ensures next.Coded? ==> p < next.end <= |bits|
  {
    var tier := ZeroRun(bits, p);
    var start := if p + tier < |bits| then p + tier + 1 else p + tier;
    var end := start + ResidualBits(tier);
    if tier > MAX_TIER || end > |bits| then Stop
    else Coded(Coefficient(tier, ValueAt(bits, start, end - start)), end)
  }

  /** What unpacking from bit `p` yields after `unpacked`: the specification of `UnpackCoefficients`. */
  ghost function UnpackFrom(bits: seq<bit>, p: nat, unpacked: seq<int>): Result<seq<int>, UnpackError>
    requires p <= |bits|
    decreases |bits| - p
  {
    if p == |bits| then Ok(unpacked)
    else if |unpacked| >= MAX_DECOMPRESSED_SAMPLES then Err(OutputLimit)
    else match NextCode(bits, p)
      case Stop => Ok(unpacked)
      case Coded(value, end) => UnpackFrom(bits, end, unpacked + [value])
  }

  ghost function Unpacked(data: seq<byte>): Result<seq<int>, UnpackError> {
    UnpackFrom(BitsOf(data), 0, [])
  }

  /** Counts zeros up to the stop bit, which is consumed too, or up to the end of the input. */
  method CountLeadingZeros(reader: BitReader) returns (zeros: nat)
    requires reader.Valid()
    modifies reader
    ensures reader.Valid()
    ensures zeros == ZeroRun(BitsOf(reader.bytes), old(reader.Position()))
    ensures var end := old(reader.Position()) + zeros;
            reader.Position() == if end < 8 * |reader.bytes| then end + 1 else end
  {
    hide Live;
    ghost var bits := BitsOf(reader.bytes);
    ghost var start := reader.Position();
    zeros := 0;
    while true
      invariant reader.Valid() && reader.Position() == start + zeros
      invariant ZeroRun(bits, start) == zeros + ZeroRun(bits, start + zeros)
      decreases |bits| - zeros
    {
      var r := reader.ReadBit();
      if r.Err? || r.value != 0 {
        break;
      }
      zeros := zeros + 1;
    }
  }

  /** Adds up the sizes of the lower tiers and applies the sign. */
  method CoefficientOf(leadingZeros: nat, residual: nat) returns (value: int)
    ensures value == Coefficient(leadingZeros, residual)
  {
    var magnitude := residual / 2;
    for k := 0 to leadingZeros
      invariant magnitude == residual / 2 + TierOffset(k)
    {
      magnitude := magnitude + Pow2(3 * k + 2);
    }
    value := if residual % 2 == 1 then -ToI32(magnitude) else ToI32(magnitude);
  }

  /** Reads one code; `Ok(None)` is the decoder's quiet stop at trailing padding. */
  method ReadCode(reader: BitReader) returns (r: Result<Option<int>, UnpackError>)
    requires reader.Valid()
    modifies reader
    ensures reader.Valid() && r.Ok?
    ensures var next := NextCode(BitsOf(reader.bytes), old(reader.Position()));
            && r.value == (if next.Stop? then None else Some(next.value))
            && (next.Coded? ==> reader.Position() == next.end)
  {
    hide Live, ValueAt, Coefficient, ZeroRun;
    var leadingZeros := CountLeadingZeros(reader);
    if leadingZeros > MAX_TIER {
      return Ok(None);
    }
    var residualBits := 3 * (leadingZeros + 1);
    if reader.Position() + residualBits > |reader.bytes| * 8 {
      return Ok(None);
    }
    var residual := reader.ReadBits(residualBits);
    match residual
    case Err(e) => r := Err(Truncated(e));
    case Ok(v) =>
      var value := CoefficientOf(leadingZeros, v);
      r := Ok(Some(value));
  }

  method UnpackCoefficients(data: seq<byte>) returns (r: Result<seq<int>, UnpackError>)
    ensures r == Unpacked(data)
  {
    var reader := new BitReader(data);
    ghost var bits := BitsOf(data);
    var coefficients: seq<int> := [];
    while reader.Position() < |data| * 8
      invariant reader.Valid() && fresh(reader) && reader.bytes == data
      invariant Unpacked(data) == UnpackFrom(bits, reader.Position(), coefficients)
      decreases |bits| - reader.Position()
    {
      if |coefficients| >= MAX_DECOMPRESSED_SAMPLES {
        return Err(OutputLimit);
      }
      var code := ReadCode(reader);
      match code
      case Err(e) => return Err(e);
      case Ok(None) => break;
      case Ok(Some(value)) => coefficients := coefficients + [value];
    }
    r := Ok(coefficients);
  }
}
