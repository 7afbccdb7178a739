/**
 `Decompressor::decompress` of src/decompression.rs: validation, unpacking,
 dequantisation, fitting to the requested dimensions, and the inverse transform.
 */
module Decompression {
  import opened Bits
  import opened Haar
  import opened HaarImpulse
  import opened HaarLaws
  import opened Results
  import opened Rice
  import opened RiceRoundTrip

  const MAX_OUTPUT_VALUES: nat := 0x100_0000

  datatype DecompressError =
    | NotCompressed
    | FactorOutOfRange
    | ZeroDimension
    | IqUnsupported
    | UnpackFailed(cause: UnpackError)
    | TooManyValues

  // ---------------------------------------------------------------- specification

  /** The quantisation step of a compression factor. */
  function Quantum(factor: nat): real
    requires factor >= 1
  {
    0.1 * (Pow2(factor - 1) as real)
  }

  function Dequantized(coefficients: seq<int>, factor: nat): (values: seq<real>)
    requires factor >= 1
  {
    seq(|coefficients|, i requires 0 <= i < |coefficients| => Scaled(coefficients[i], Quantum(factor)))
  }

  function Scaled(coefficient: int, quant: real): real {
    coefficient as real * quant
  }

  /** Zero-padded or truncated to `n` values. */
  function Fitted(values: seq<real>, n: nat): (fitted: seq<real>)
    ensures |fitted| == n
  {
    if |values| < n then values + seq(n - |values|, _ => 0.0) else values[..n]
  }

  /** What `decompress` demands of its numeric arguments. */
  predicate ValidArguments(factor: nat, rows: nat, cols: nat) {
    && 1 <= factor <= 31
    && rows > 0 && cols > 0
    && !(rows == 1 && cols >= 128)
    && rows * cols <= MAX_OUTPUT_VALUES
  }

  ghost function Transformed(coefficients: seq<int>, factor: nat, rows: nat, cols: nat, c: real): seq<real>
    requires factor >= 1 && cols > 0
  {
    RunPasses(Fitted(Dequantized(coefficients, factor), rows * cols), InversePasses(rows, cols), cols, c)
  }

  // ---------------------------------------------------------------- the code

  method Dequantize(coefficients: seq<int>, factor: nat) returns (values: seq<real>)
    requires factor >= 1
    ensures values == Dequantized(coefficients, factor)
  {
    var quant := Quantum(factor);
    values := seq(|coefficients|, i requires 0 <= i < |coefficients| => Scaled(coefficients[i], quant));
  }

  method Decompress(data: seq<byte>, factor: nat, rows: nat, cols: nat, c: real)
    returns (r: Result<seq<real>, DecompressError>)
    ensures r == if factor == 0 then Err(NotCompressed)
                 else if factor > 31 then Err(FactorOutOfRange)
                 else if rows == 0 || cols == 0 then Err(ZeroDimension)
                 else if rows == 1 && cols >= 128 then Err(IqUnsupported)
                 else if Unpacked(data).Err? then Err(UnpackFailed(OutputLimit))
                 else if rows * cols > 16_777_216 then Err(TooManyValues)
                 else Ok(Transformed(Unpacked(data).value, factor, rows, cols, c))
    ensures r.Ok? <==> ValidArguments(factor, rows, cols) && Unpacked(data).Ok?
    ensures r.Ok? ==> |r.value| == rows * cols
  {
    hide Dequantized, RunPasses, InversePasses, BitsOf, UnpackFrom;
    if factor == 0 {
      return Err(NotCompressed);
    }
    if factor > 31 {
      return Err(FactorOutOfRange);
    }
    if rows == 0 || cols == 0 {
      return Err(ZeroDimension);
    }
    if rows == 1 && cols >= 128 {
      return Err(IqUnsupported);
    }
    var coefficients := UnpackCoefficients(data);
    OnlyTheLimitFails(BitsOf(data), 0, []);
    match coefficients
    case Err(e) => r := Err(UnpackFailed(e));
    case Ok(unpacked) =>
      var dequantized := Dequantize(unpacked, factor);
      var expected := rows * cols;
      if expected > MAX_OUTPUT_VALUES {
        return Err(TooManyValues);
      }
      if |dequantized| < expected {
        dequantized := dequantized + seq(expected - |dequantized|, _ => 0.0);
      } else if |dequantized| > expected {
        dequantized := dequantized[..expected];
      }
      var buffer := new real[expected](i requires 0 <= i < expected => dequantized[i]);
      assert buffer[..] == Fitted(Dequantized(unpacked, factor), expected);
      InverseWaveletTransform(buffer, rows, cols, c);
      r := Ok(buffer[..]);
  }

  // ---------------------------------------------------------------- laws

  lemma {:induction false} FittedValue(coefficients: seq<int>, factor: nat, n: nat, i: nat)
    requires factor >= 1 && i < n
    ensures 10.0 * Fitted(Dequantized(coefficients, factor), n)[i]
            == (if i < |coefficients| then coefficients[i] as real else 0.0) * (Pow2(factor - 1) as real)
  {
    var power := Pow2(factor - 1) as real;
    if i < |coefficients| {
      var v := coefficients[i] as real;
      assert Fitted(Dequantized(coefficients, factor), n)[i] == v * (0.1 * power);
      assert 10.0 * (v * (0.1 * power)) == v * power;
    } else {
      assert Fitted(Dequantized(coefficients, factor), n)[i] == 0.0;
    }
  }

  /**
   Whatever the payload, its coefficients, in steps of a tenth of 2^(factor - 1) and padded
   with zeros, can be read back off the output by running the passes backwards; the
   output has their energy.
   */
  lemma {:induction false} OutputRecoverable(
    coefficients: seq<int>, factor: nat, rows: nat, cols: nat, c: real, i: nat)
    requires ValidArguments(factor, rows, cols) && 2.0 * c * c == 1.0 && i < rows * cols
    ensures var output := Transformed(coefficients, factor, rows, cols, c);
            var recovered := RunPasses(output, Reverse(InversePasses(rows, cols)), cols, c);
            && |recovered| == rows * cols
            && 10.0 * recovered[i]
               == (if i < |coefficients| then coefficients[i] as real else 0.0) * (Pow2(factor - 1) as real)
            && SumOfSquares(output) == SumOfSquares(recovered)
  {
    hide Dequantized, Fitted, RunPasses, InversePasses, Pow2;
    var fitted := Fitted(Dequantized(coefficients, factor), rows * cols);
    TransformInvertible(fitted, rows, cols, c);
    TransformKeepsEnergy(fitted, rows, cols, c);
    FittedValue(coefficients, factor, rows * cols, i);
  }

  /**
   The whole codec: coefficients written with the code table are recovered, one by
   one, by running the passes of the transform backwards over the decompressed output.
   */
  lemma {:induction false} CodecRoundTrip(
    vs: seq<int>, padding: nat, factor: nat, rows: nat, cols: nat, c: real, i: nat)
    requires ValidArguments(factor, rows, cols) && 2.0 * c * c == 1.0
    requires Encodable(vs) && |vs| == rows * cols && (|EncodeAll(vs)| + padding) % 8 == 0
    requires |vs| < MAX_DECOMPRESSED_SAMPLES || padding == 0
    requires i < |vs|
    ensures var payload := PackBits(EncodeAll(vs) + Zeros(padding));
            && Unpacked(payload) == Ok(vs)
            && 10.0 * RunPasses(Transformed(vs, factor, rows, cols, c), Reverse(InversePasses(rows, cols)), cols, c)[i]
               == vs[i] as real * (Pow2(factor - 1) as real)
  {
    hide EncodeAll, PackBits, Unpacked, RunPasses, InversePasses, Pow2;
    RoundTrip(vs, padding);
    OutputRecoverable(vs, factor, rows, cols, c, i);
  }

  /** A factor one higher doubles every value of the output. */
  lemma {:induction false} FactorDoubles(coefficients: seq<int>, factor: nat, rows: nat, cols: nat, c: real, i: nat)
    requires factor >= 1 && cols > 0 && i < rows * cols
    ensures |Transformed(coefficients, factor, rows, cols, c)| == rows * cols
    ensures Transformed(coefficients, factor + 1, rows, cols, c)[i]
            == 2.0 * Transformed(coefficients, factor, rows, cols, c)[i]
  {
    hide RunPasses, InversePasses, Pow2;
    var n := rows * cols;
    var fitted := Fitted(Dequantized(coefficients, factor), n);
    var doubled := Fitted(Dequantized(coefficients, factor + 1), n);
    forall q: nat | q < n
      ensures doubled[q] == Amplified(fitted, 2.0)[q]
    {
      FittedDoubles(coefficients, factor, n, q);
    }
    assert doubled == Amplified(fitted, 2.0);
    RunScales(fitted, InversePasses(rows, cols), cols, c, 2.0);
  }

  lemma {:induction false} FittedDoubles(coefficients: seq<int>, factor: nat, n: nat, i: nat)
    requires factor >= 1 && i < n
    ensures Fitted(Dequantized(coefficients, factor + 1), n)[i] == 2.0 * Fitted(Dequantized(coefficients, factor), n)[i]
  {
    hide Fitted, Dequantized;
    FittedValue(coefficients, factor, n, i);
    FittedValue(coefficients, factor + 1, n, i);
    var v, power := if i < |coefficients| then coefficients[i] as real else 0.0, Pow2(factor - 1) as real;
    assert Pow2(factor) as real == 2.0 * power;
    assert v * (2.0 * power) == 2.0 * (v * power);
  }

  /** A lone first coefficient comes out as one value over the cells it is the average of. */
  lemma {:induction false} LoneCoefficient(v: int, factor: nat, m: nat, n: nat, c: real, p: nat)
    requires factor >= 1 && p < Pow2(m) * Pow2(n)
    ensures |Transformed([v], factor, Pow2(m), Pow2(n), c)| == Pow2(m) * Pow2(n)
    ensures 10.0 * Transformed([v], factor, Pow2(m), Pow2(n), c)[p]
            == v as real * (Pow2(factor - 1) as real) * Power(c, m + n)
  {
    hide RunPasses, InversePasses, Pow2, Power, Fitted, Dequantized;
    var size := Pow2(m) * Pow2(n);
    var fitted := Fitted(Dequantized([v], factor), size);
    forall q: nat | q < size
      ensures q > 0 ==> fitted[q] == 0.0
    {
      FittedValue([v], factor, size, q);
    }
    FittedValue([v], factor, size, 0);
    FirstCoefficientFills(fitted, m, n, c, p);
    var power := Power(c, m + n);
    assert 10.0 * (fitted[0] * power) == 10.0 * fitted[0] * power;
  }
}
