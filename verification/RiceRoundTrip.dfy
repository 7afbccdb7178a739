/**
 What the Rice unpacker accepts: it returns a sequence exactly when the bits are
 that sequence written with the code table followed by a tail that holds no code.
 */
module RiceRoundTrip {
  import opened Bits
  import opened BitReading
  import opened Results
  import opened Rice

  // ---------------------------------------------------------------- the tiers partition the magnitudes

  lemma {:induction false} EightTimes(tier: nat)
    ensures Pow2(3 * (tier + 1) + 2) == 8 * Pow2(3 * tier + 2)
  {
    assert Pow2(3 * tier + 3) == 2 * Pow2(3 * tier + 2);
    assert Pow2(3 * tier + 4) == 4 * Pow2(3 * tier + 2);
  }

  /** The offsets are a geometric sum. */
  lemma {:induction false} TierOffsetClosedForm(tier: nat)
    ensures 7 * TierOffset(tier) + 4 == Pow2(3 * tier + 2)
  {
    if tier > 0 {
      TierOffsetClosedForm(tier - 1);
      EightTimes(tier - 1);
    }
  }

  lemma {:induction false} LastTierEnds()
    ensures TierOffset(MAX_TIER + 1) == MAX_MAGNITUDE + 1
  {
    WordSizes();
    TierOffsetClosedForm(MAX_TIER + 1);
  }

  lemma {:induction false} TierOffsetMonotone(a: nat, b: nat)
    requires a <= b
    ensures TierOffset(a) <= TierOffset(b)
  {
    if a < b {
      TierOffsetMonotone(a, b - 1);
    }
  }

  lemma {:induction false} TierFromHolds(m: nat, tier: nat, last: nat)
    requires tier <= last && TierOffset(tier) <= m < TierOffset(last + 1)
    ensures TierOffset(TierFrom(m, tier, last)) <= m < TierOffset(TierFrom(m, tier, last) + 1)
    decreases last - tier
  {
    if tier < last && m >= TierOffset(tier + 1) {
      TierFromHolds(m, tier + 1, last);
    }
  }

  lemma {:induction false} TierUnique(m: nat, a: nat, b: nat)
    requires TierOffset(a) <= m < TierOffset(a + 1) && TierOffset(b) <= m < TierOffset(b + 1)
    ensures a == b
  {
    if a < b {
      TierOffsetMonotone(a + 1, b);
    } else if b < a {
      TierOffsetMonotone(b + 1, a);
    }
  }

  lemma {:induction false} TierFromIff(m: nat, tier: nat, last: nat)
    requires m < TierOffset(last + 1)
    ensures TierOffset(tier) <= m < TierOffset(tier + 1) <==> tier == TierFrom(m, 0, last)
  {
    TierFromHolds(m, 0, last);
    if TierOffset(tier) <= m < TierOffset(tier + 1) {
      TierUnique(m, tier, TierFrom(m, 0, last));
    }
  }

  /** Every magnitude up to the top of tier 9 lies in exactly one tier, and `TierOf` finds it. */
  lemma {:induction false} TiersPartition(m: nat, tier: nat)
    requires m <= MAX_MAGNITUDE
    ensures TierOffset(tier) <= m < TierOffset(tier + 1) <==> tier == TierOf(m)
  {
    LastTierEnds();
    TierFromIff(m, tier, MAX_TIER);
  }

  lemma {:induction false} TierTopBound(tier: nat)
    requires tier <= MAX_TIER
    ensures TierOffset(tier + 1) <= MAX_MAGNITUDE + 1
  {
    LastTierEnds();
    TierOffsetMonotone(tier + 1, MAX_TIER + 1);
  }

  lemma {:induction false} FirstOffsets()
    ensures TierOffset(0) == 0 && TierOffset(1) == 4 && TierOffset(2) == 36
  {
    assert Pow2(2) == 4 && Pow2(5) == 32;
  }

  lemma {:induction false} ResidualRange(tier: nat)
    ensures Pow2(ResidualBits(tier)) == 2 * (TierOffset(tier + 1) - TierOffset(tier))
  {
  }

  /** No i32 conversion in the decoder truncates. */
  lemma {:induction false} FitsI32(m: nat)
    requires m <= MAX_MAGNITUDE
    ensures ToI32(m) == m
  {
  }

  lemma {:induction false} ResidualMagnitude(tier: nat, residual: nat)
    requires tier <= MAX_TIER && residual < Pow2(ResidualBits(tier))
    ensures var m := residual / 2 + TierOffset(tier);
            m <= MAX_MAGNITUDE && TierOf(m) == tier && ToI32(m) == m && (m == 0 ==> tier == 0)
  {
    hide Pow2, TierOffset, TierOf, ToI32;
    var m := residual / 2 + TierOffset(tier);
    FirstOffsets();
    ResidualRange(tier);
    TierTopBound(tier);
    FitsI32(m);
    TiersPartition(m, tier);
    if tier > 0 {
      TierOffsetMonotone(1, tier);
    }
  }

  /** Residuals of a tier are coefficients of that tier; only the residual of -0 is not the one `Encode` writes. */
  lemma {:induction false} ResidualMeaning(tier: nat, residual: nat)
    requires tier <= MAX_TIER && residual < Pow2(ResidualBits(tier))
    ensures var v := Coefficient(tier, residual);
            && Magnitude(v) <= MAX_MAGNITUDE
            && TierOf(Magnitude(v)) == tier
            && (residual == ResidualOf(v, tier) || (v == 0 && tier == 0 && residual == 1))
  {
    hide Pow2, TierOf, ToI32;
    ResidualMagnitude(tier, residual);
    var m := residual / 2 + TierOffset(tier);
    assert Magnitude(Coefficient(tier, residual)) == m;
  }

  lemma {:induction false} CoefficientOfResidual(v: int)
    requires Magnitude(v) <= MAX_MAGNITUDE
    ensures var tier := TierOf(Magnitude(v));
            ResidualOf(v, tier) < Pow2(ResidualBits(tier)) && Coefficient(tier, ResidualOf(v, tier)) == v
  {
    var m := Magnitude(v);
    var tier := TierOf(m);
    TiersPartition(m, tier);
    ResidualRange(tier);
    assert ResidualOf(v, tier) / 2 == m - TierOffset(tier);
    FitsI32(m);
  }

  lemma {:induction false} NegativeZero()
    ensures 1 < Pow2(ResidualBits(0)) && Coefficient(0, 1) == 0
  {
  }

  // ---------------------------------------------------------------- one code

  lemma {:induction false} ZeroRunIs(bits: seq<bit>, p: nat, n: nat)
    requires p + n <= |bits|
    requires forall i :: p <= i < p + n ==> bits[i] == 0
    requires p + n == |bits| || bits[p + n] == 1
    ensures ZeroRun(bits, p) == n
    decreases n
  {
    if n > 0 {
      ZeroRunIs(bits, p + 1, n - 1);
    }
  }

  lemma {:induction false} ZeroRunZeros(bits: seq<bit>, p: nat)
    requires p <= |bits|
    ensures var n := ZeroRun(bits, p);
            && (forall i :: p <= i < p + n ==> bits[i] == 0)
            && (p + n < |bits| ==> bits[p + n] == 1)
    decreases |bits| - p
  {
    if p < |bits| && bits[p] == 0 {
      ZeroRunZeros(bits, p + 1);
    }
  }

  /** A code read bit by bit: its zeros, its stop bit and its residual. */
  lemma {:induction false} CodeParts(bits: seq<bit>, p: nat, tier: nat, residual: nat)
    requires p + |Code(tier, residual)| <= |bits|
    requires bits[p..p + |Code(tier, residual)|] == Code(tier, residual)
    ensures ZeroRun(bits, p) == tier
    ensures bits[p + tier + 1..p + |Code(tier, residual)|] == BitsOfValue(residual, ResidualBits(tier))
  {
    var code := Code(tier, residual);
    var window := bits[p..p + |code|];
    forall i | p <= i <= p + tier
      ensures bits[i] == if i < p + tier then 0 else 1
    {
      assert bits[i] == window[i - p];
    }
    ZeroRunIs(bits, p, tier);
    assert bits[p + tier + 1..p + |code|] == window[tier + 1..];
  }

  /** The unpacker reads back any code of the table. */
  lemma {:induction false} NextCodeReadsCode(bits: seq<bit>, p: nat, tier: nat, residual: nat)
    requires tier <= MAX_TIER && residual < Pow2(ResidualBits(tier))
    requires p + |Code(tier, residual)| <= |bits|
    requires bits[p..p + |Code(tier, residual)|] == Code(tier, residual)
    ensures NextCode(bits, p) == Coded(Coefficient(tier, residual), p + |Code(tier, residual)|)
  {
    hide Coefficient, Code, ZeroRun, Pow2, ValueOf, BitsOfValue;
    CodeParts(bits, p, tier, residual);
    ValueOfBits(residual, ResidualBits(tier));
  }

  lemma {:induction false} PartsAreCode(bits: seq<bit>, p: nat, tier: nat, end: nat)
    requires p + tier < end == p + tier + 1 + ResidualBits(tier) <= |bits|
    requires (forall i :: p <= i < p + tier ==> bits[i] == 0) && bits[p + tier] == 1
    ensures bits[p..end] == Code(tier, ValueAt(bits, p + tier + 1, ResidualBits(tier)))
  {
    BitsOfValueOf(bits[p + tier + 1..end]);
    assert bits[p..end] == bits[p..p + tier] + [bits[p + tier]] + bits[p + tier + 1..end];
    assert bits[p..p + tier] == Zeros(tier);
  }

  /** Whatever the unpacker reads is a code of the table, or the second code for zero. */
  lemma {:induction false} NextCodeIsCode(bits: seq<bit>, p: nat)
    requires p <= |bits| && NextCode(bits, p).Coded?
    ensures ReadsAs(bits, p, NextCode(bits, p).value, NextCode(bits, p).end)
  {
    hide Coefficient, ResidualOf, TierOf, Code, ZeroRun;
    var tier := ZeroRun(bits, p);
    ZeroRunZeros(bits, p);
    var start, end := p + tier + 1, NextCode(bits, p).end;
    var residual := ValueAt(bits, start, end - start);
    ValueOfBound(bits[start..end]);
    ResidualMeaning(tier, residual);
    PartsAreCode(bits, p, tier, end);
  }

  /** Bits `p..end` write `v`: its code, or the alternative code 1001 for a zero. */
  ghost predicate ReadsAs(bits: seq<bit>, p: nat, v: int, end: nat) {
    && p <= end <= |bits|
    && Magnitude(v) <= MAX_MAGNITUDE
    && (bits[p..end] == Encode(v) || (v == 0 && bits[p..end] == Code(0, 1)))
  }

  lemma {:induction false} ReadsAsNextCode(bits: seq<bit>, p: nat, v: int, end: nat)
    requires ReadsAs(bits, p, v, end)
    ensures NextCode(bits, p) == Coded(v, end) && p < end
  {
    var tier := TierOf(Magnitude(v));
    CoefficientOfResidual(v);
    if bits[p..end] == Encode(v) {
      NextCodeReadsCode(bits, p, tier, ResidualOf(v, tier));
    } else {
      NegativeZero();
      NextCodeReadsCode(bits, p, 0, 1);
    }
  }

  // ---------------------------------------------------------------- whole streams

  /** Bits `p..end` write the coefficients `vs` one after another. */
  ghost predicate Reads(bits: seq<bit>, p: nat, vs: seq<int>, end: nat)
    decreases vs
  {
    if vs == [] then p == end <= |bits|
    else exists q :: ReadsAs(bits, p, vs[0], q) && Reads(bits, q, vs[1..], end)
  }

  /** Unpacking passes over written coefficients, and stops with an error exactly when there are too many. */
  lemma {:induction false} UnpackWritten(bits: seq<bit>, p: nat, unpacked: seq<int>, vs: seq<int>, end: nat)
    requires Reads(bits, p, vs, end) && p <= |bits| && end <= |bits|
    requires |unpacked| <= MAX_DECOMPRESSED_SAMPLES
    ensures UnpackFrom(bits, p, unpacked)
            == if |unpacked| + |vs| <= MAX_DECOMPRESSED_SAMPLES then UnpackFrom(bits, end, unpacked + vs)
               else Err(OutputLimit)
    decreases |vs|
  {
    hide NextCode, ReadsAs;
    if vs == [] {
      assert unpacked + vs == unpacked;
    } else {
      var q :| ReadsAs(bits, p, vs[0], q) && Reads(bits, q, vs[1..], end);
      ReadsAsNextCode(bits, p, vs[0], q);
      if |unpacked| < MAX_DECOMPRESSED_SAMPLES {
        UnpackWritten(bits, q, unpacked + [vs[0]], vs[1..], end);
        assert unpacked + [vs[0]] + vs[1..] == unpacked + vs;
      }
    }
  }

  /** Everything unpacked was written. */
  lemma {:induction false} UnpackedWasWritten(
    bits: seq<bit>, p: nat, unpacked: seq<int>, vs: seq<int>) returns (end: nat)
    requires p <= |bits| && |unpacked| <= MAX_DECOMPRESSED_SAMPLES
    requires UnpackFrom(bits, p, unpacked) == Ok(unpacked + vs)
    ensures p <= end <= |bits| && Reads(bits, p, vs, end)
    ensures |unpacked + vs| <= MAX_DECOMPRESSED_SAMPLES
    ensures end == |bits| || (|unpacked + vs| < MAX_DECOMPRESSED_SAMPLES && NextCode(bits, end).Stop?)
    decreases |bits| - p
  {
    hide NextCode, ReadsAs;
    if p < |bits| && NextCode(bits, p).Coded? {
      var Coded(value, q) := NextCode(bits, p);
      UnpackGrows(bits, q, unpacked + [value]);
      assert (unpacked + vs)[|unpacked|] == value;
      assert unpacked + vs == unpacked + [value] + vs[1..];
      end := UnpackedWasWritten(bits, q, unpacked + [value], vs[1..]);
      NextCodeIsCode(bits, p);
    } else {
      assert vs == (unpacked + vs)[|unpacked|..] == unpacked[|unpacked|..] == [];
      end := p;
    }
  }

  lemma {:induction false} UnpackGrows(bits: seq<bit>, p: nat, unpacked: seq<int>)
    requires p <= |bits|
    ensures UnpackFrom(bits, p, unpacked).Ok? ==> unpacked <= UnpackFrom(bits, p, unpacked).value
    decreases |bits| - p
  {
    if p < |bits| && |unpacked| < MAX_DECOMPRESSED_SAMPLES && NextCode(bits, p).Coded? {
      var Coded(value, q) := NextCode(bits, p);
      UnpackGrows(bits, q, unpacked + [value]);
    }
  }

  /** Nothing more is unpacked at `end`: the bits run out, or no code starts there (later bits may still hold some). */
  ghost predicate Finished(bits: seq<bit>, end: nat, count: nat) {
    && end <= |bits|
    && (end == |bits| || (count < MAX_DECOMPRESSED_SAMPLES && NextCode(bits, end).Stop?))
  }

  lemma {:induction false} UnpackFinished(bits: seq<bit>, end: nat, unpacked: seq<int>)
    requires Finished(bits, end, |unpacked|)
    ensures UnpackFrom(bits, end, unpacked) == Ok(unpacked)
  {
  }

  /**
   The unpacker on any bytes at all: it returns `vs` if and only if the bytes write
   `vs` up to a place where they end or where no code starts, within the output limit.
   */
  lemma {:induction false} UnpackedIffWritten(bits: seq<bit>, vs: seq<int>)
    ensures UnpackFrom(bits, 0, []) == Ok(vs)
            <==> && |vs| <= 16_777_216
                 && exists end: nat :: Reads(bits, 0, vs, end) && Finished(bits, end, |vs|)
  {
    assert [] + vs == vs;
    if UnpackFrom(bits, 0, []) == Ok(vs) {
      var end := UnpackedWasWritten(bits, 0, [], vs);
      assert Finished(bits, end, |vs|);
    }
    if |vs| <= MAX_DECOMPRESSED_SAMPLES && exists end: nat :: Reads(bits, 0, vs, end) && Finished(bits, end, |vs|) {
      var end: nat :| Reads(bits, 0, vs, end) && Finished(bits, end, |vs|);
      UnpackWritten(bits, 0, [], vs, end);
      UnpackFinished(bits, end, vs);
    }
  }

  /** Unpacking never reports anything but the output limit: reading a residual cannot fail. */
  lemma {:induction false} OnlyTheLimitFails(bits: seq<bit>, p: nat, unpacked: seq<int>)
    requires p <= |bits| && |unpacked| <= MAX_DECOMPRESSED_SAMPLES
    ensures UnpackFrom(bits, p, unpacked).Err?
            <==> exists vs, end: nat ::
                   Reads(bits, p, vs, end) && end < |bits| && |unpacked + vs| == 16_777_216
    ensures UnpackFrom(bits, p, unpacked).Err? ==> UnpackFrom(bits, p, unpacked) == Err(OutputLimit)
    decreases |bits| - p
  {
    if exists vs, end: nat :: Reads(bits, p, vs, end) && end < |bits| && |unpacked + vs| == MAX_DECOMPRESSED_SAMPLES {
      var vs, end: nat :| Reads(bits, p, vs, end) && end < |bits| && |unpacked + vs| == MAX_DECOMPRESSED_SAMPLES;
      UnpackWritten(bits, p, unpacked, vs, end);
    }
    if UnpackFrom(bits, p, unpacked).Err? {
      if |unpacked| == MAX_DECOMPRESSED_SAMPLES {
        assert Reads(bits, p, [], p) && |unpacked + []| == MAX_DECOMPRESSED_SAMPLES;
      } else {
        var Coded(value, q) := NextCode(bits, p);
        NextCodeIsCode(bits, p);
        OnlyTheLimitFails(bits, q, unpacked + [value]);
        var vs, end: nat :|
          Reads(bits, q, vs, end) && end < |bits| && |unpacked + [value] + vs| == MAX_DECOMPRESSED_SAMPLES;
        assert ([value] + vs)[1..] == vs;
        assert Reads(bits, p, [value] + vs, end) && |unpacked + ([value] + vs)| == MAX_DECOMPRESSED_SAMPLES;
      }
    }
  }

  // ---------------------------------------------------------------- the round trip

  lemma {:induction false} EncodedReads(before: seq<bit>, vs: seq<int>, after: seq<bit>)
    requires Encodable(vs)
    ensures Reads(before + EncodeAll(vs) + after, |before|, vs, |before| + |EncodeAll(vs)|)
    decreases |vs|
  {
    hide ReadsAs, Encode;
    if vs != [] {
      var code, rest := Encode(vs[0]), EncodeAll(vs[1..]);
      EncodedReads(before + code, vs[1..], after);
      Regroup(before, code, rest, after);
      WindowReads(before + (code + rest) + after, |before|, vs[0]);
    }
  }

  lemma {:induction false} Regroup(before: seq<bit>, code: seq<bit>, rest: seq<bit>, after: seq<bit>)
    ensures before + code + rest + after == before + (code + rest) + after
    ensures (before + (code + rest) + after)[|before|..|before| + |code|] == code
  {
  }

  lemma {:induction false} WindowReads(bits: seq<bit>, p: nat, v: int)
    requires Magnitude(v) <= MAX_MAGNITUDE && p + |Encode(v)| <= |bits|
    requires bits[p..p + |Encode(v)|] == Encode(v)
    ensures ReadsAs(bits, p, v, p + |Encode(v)|)
  {
  }

  lemma {:induction false} PaddingHoldsNoCode(bits: seq<bit>, end: nat)
    requires end <= |bits| && forall i :: end <= i < |bits| ==> bits[i] == 0
    ensures NextCode(bits, end).Stop?
  {
    ZeroRunIs(bits, end, |bits| - end);
  }

  lemma {:induction false} UnpackPadding(bits: seq<bit>, end: nat, unpacked: seq<int>)
    requires end <= |bits| && forall i :: end <= i < |bits| ==> bits[i] == 0
    ensures UnpackFrom(bits, end, unpacked)
            == if end == |bits| || |unpacked| < MAX_DECOMPRESSED_SAMPLES then Ok(unpacked) else Err(OutputLimit)
  {
    PaddingHoldsNoCode(bits, end);
  }

  lemma {:induction false} UnpackEncoded(bits: seq<bit>, vs: seq<int>, padding: nat)
    requires Encodable(vs) && bits == EncodeAll(vs) + Zeros(padding)
    ensures UnpackFrom(bits, 0, [])
            == if |vs| < MAX_DECOMPRESSED_SAMPLES || (|vs| == MAX_DECOMPRESSED_SAMPLES && padding == 0) then Ok(vs)
               else Err(OutputLimit)
  {
    hide NextCode, Reads, EncodeAll;
    var end := |EncodeAll(vs)|;
    assert Reads(bits, 0, vs, end) by {
      EncodedReads([], vs, Zeros(padding));
      assert [] + EncodeAll(vs) + Zeros(padding) == bits;
    }
    UnpackWritten(bits, 0, [], vs, end);
    assert [] + vs == vs;
    UnpackPadding(bits, end, vs);
  }

  /**
   The round trip: coefficients written with the code table and padded with zero bits
   to a byte boundary are unpacked exactly, unless there are more than 2^24 of them
   or exactly 2^24 with padding after them.
   */
  lemma {:induction false} RoundTrip(vs: seq<int>, padding: nat)
    requires Encodable(vs) && (|EncodeAll(vs)| + padding) % 8 == 0
    ensures Unpacked(PackBits(EncodeAll(vs) + Zeros(padding)))
            == if |vs| < 16_777_216 || (|vs| == 16_777_216 && padding == 0) then Ok(vs) else Err(OutputLimit)
  {
    var bits := EncodeAll(vs) + Zeros(padding);
    BitsOfPacked(bits);
    UnpackEncoded(bits, vs, padding);
  }

  // ---------------------------------------------------------------- the documented code table

  lemma {:induction false} ThreeBits(v: nat)
    requires v < 8
    ensures BitsOfValue(v, 3) == [v / 4, v / 2 % 2, v % 2]
  {
    assert BitsOfValue(v / 8, 0) == [];
    assert BitsOfValue(v / 4, 1) == [v / 4];
    assert BitsOfValue(v / 2, 2) == [v / 4, v / 2 % 2];
  }

  /**
   The whole table: a magnitude from `first` up to but not including 8 * first + 4, where
   7 * first + 4 is 2^(3 tier + 2), is written as that many zeros, a stop bit, the
   magnitude counted from `first` in 3 * tier + 2 bits, and the sign.
   */
  lemma {:induction false} DocumentedTiers(v: int) returns (tier: nat, first: nat)
    requires Magnitude(v) <= 613_566_755
    ensures tier <= 9 && 7 * first + 4 == Pow2(3 * tier + 2)
    ensures first <= Magnitude(v) < 8 * first + 4
    ensures Encode(v)
            == seq(tier, _ => 0) + [1] + BitsOfValue(Magnitude(v) - first, 3 * tier + 2) + [if v < 0 then 1 else 0]
  {
    hide TierFrom, TierOffset, Pow2, Zeros;
    tier := TierOf(Magnitude(v));
    first := TierOffset(tier);
    TiersPartition(Magnitude(v), tier);
    TierOffsetClosedForm(tier);
    TierOffsetClosedForm(tier + 1);
    EightTimes(tier);
    assert Zeros(tier) == seq(tier, _ => 0) by {
      ZerosAre(tier);
    }
    SignLast(Magnitude(v) - first, if v < 0 then 1 else 0, 3 * tier + 2);
  }

  lemma {:induction false} ZerosAre(n: nat)
    ensures Zeros(n) == seq(n, _ => 0)
  {
  }

  lemma {:induction false} SignLast(magnitude: nat, sign: bit, width: nat)
    ensures BitsOfValue(2 * magnitude + sign, width + 1) == BitsOfValue(magnitude, width) + [sign]
  {
  }

  /** Ten zeros start no code. */
  lemma {:induction false} TenZerosStop(bits: seq<bit>, p: nat)
    requires p + 10 <= |bits| && forall i | p <= i < p + 10 :: bits[i] == 0
    ensures NextCode(bits, p).Stop?
  {
    ZeroRunZeros(bits, p);
  }

  /** The table's tier 0: a stop bit, two magnitude bits and the sign. */
  lemma {:induction false} DocumentedTier0(v: int)
    requires -3 <= v <= 3
    ensures Encode(v) == [1, Magnitude(v) / 2, Magnitude(v) % 2, if v < 0 then 1 else 0]
  {
    hide TierOf, TierOffset, BitsOfValue;
    FirstOffsets();
    TiersPartition(Magnitude(v), 0);
    var residual := ResidualOf(v, 0);
    ThreeBits(residual);
    assert Zeros(0) == [];
    assert Encode(v) == [1] + BitsOfValue(residual, 3);
  }

  /** The first codes of the table's tier 1. */
  lemma {:induction false} DocumentedTier1(v: int)
    requires 4 <= Magnitude(v) <= 7
    ensures Encode(v) == [0, 1, 0, 0, 0] + [Magnitude(v) / 2 - 2, Magnitude(v) % 2, if v < 0 then 1 else 0]
  {
    hide TierOf, TierOffset, BitsOfValue;
    FirstOffsets();
    TiersPartition(Magnitude(v), 1);
    var residual := ResidualOf(v, 1);
    ThreeBits(residual);
    SixBits(residual);
    assert Zeros(1) == [0];
    assert Encode(v) == [0] + [1] + BitsOfValue(residual, 6);
  }

  lemma {:induction false} SixBits(v: nat)
    requires v < 8
    ensures BitsOfValue(v, 6) == [0, 0, 0] + BitsOfValue(v, 3)
  {
    ThreeBits(v);
    assert BitsOfValue(0, 3) == [0, 0, 0] by {
      ThreeBits(0);
    }
    assert BitsOfValue(v / 4, 4) == [0, 0, 0, v / 4];
    assert BitsOfValue(v / 2, 5) == [0, 0, 0, v / 4, v / 2 % 2];
  }
}
