/**
 The in-place inverse Haar transform of src/decompression.rs.  Samples are reals and
 `c` stands for the square root of one half, so its laws assume 2*c*c == 1.
 */
module Haar {
  import opened Bits

  // ---------------------------------------------------------------- specification

  function ScaledSum(s: real, t: real, c: real): real {
    c * (s + t)
  }

  function ScaledDifference(s: real, t: real, c: real): real {
    c * (s - t)
  }

  /** One butterfly: replaces a pair by its scaled sum and difference. */
  function Butterfly(a: seq<real>, i: nat, j: nat, c: real): (b: seq<real>)
    requires i < |a| && j < |a|
    ensures |b| == |a|
  {
    a[i := ScaledSum(a[i], a[j], c)][j := ScaledDifference(a[i], a[j], c)]
  }

  /** Pairs `step` apart along rows, or `step` rows apart, on a grid refined to `step`. */
  datatype Pass = Horizontal(step: nat) | Vertical(step: nat) {
    function ColumnStride(): nat {
      if Horizontal? then 2 * step else step
    }

    function RowStride(): nat {
      if Horizontal? then step else 2 * step
    }

    function Distance(cols: nat): nat {
      if Horizontal? then step else step * cols
    }
  }

  /** Position `p` of a buffer with `cols` columns lies on the grid with the given strides. */
  predicate OnGrid(p: nat, sx: nat, sy: nat, cols: nat)
    requires sx > 0 && sy > 0 && cols > 0
  {
    p / cols % sy == 0 && p % cols % sx == 0
  }

  /** The buffer after every grid position below `n` has had its butterfly, in increasing order. */
  ghost function Sweep(a: seq<real>, sx: nat, sy: nat, d: nat, cols: nat, n: nat, c: real): (b: seq<real>)
    requires sx > 0 && sy > 0 && cols > 0 && n <= |a|
    ensures |b| == |a|
  {
    if n == 0 then a
    else
      var b := Sweep(a, sx, sy, d, cols, n - 1, c);
      if OnGrid(n - 1, sx, sy, cols) && n - 1 + d < |a| then Butterfly(b, n - 1, n - 1 + d, c) else b
  }

  /** A whole step sweeps the complete rows of the buffer. */
  ghost function SweepAll(a: seq<real>, sx: nat, sy: nat, d: nat, cols: nat, c: real): (b: seq<real>)
    requires sx > 0 && sy > 0 && cols > 0
    ensures |b| == |a|
  {
    WholeRows(|a|, cols);
    Sweep(a, sx, sy, d, cols, |a| / cols * cols, c)
  }

  lemma {:induction false} WholeRows(length: nat, cols: nat)
    requires cols > 0
    ensures 0 <= length / cols * cols <= length
  {
  }

  ghost function RunPass(a: seq<real>, pass: Pass, cols: nat, c: real): (b: seq<real>)
    requires pass.step > 0 && cols > 0
    ensures |b| == |a|
  {
    SweepAll(a, pass.ColumnStride(), pass.RowStride(), pass.Distance(cols), cols, c)
  }

  predicate Proper(passes: seq<Pass>) {
    forall pass | pass in passes :: pass.step > 0
  }

  ghost function RunPasses(a: seq<real>, passes: seq<Pass>, cols: nat, c: real): (b: seq<real>)
    requires Proper(passes) && cols > 0
    ensures |b| == |a|
    decreases |passes|
  {
    if passes == [] then a
    else RunPasses(RunPass(a, passes[0], cols, c), passes[1..], cols, c)
  }

  /** The passes of the descending loop entered with step 2^levels. */
  ghost function PassesFrom(levels: nat, rows: nat, cols: nat): (passes: seq<Pass>)
    ensures Proper(passes)
  {
    if levels == 0 then []
    else
      var step := Pow2(levels - 1);
      (if levels <= TwoPower(cols) then [Horizontal(step)] else [])
      + (if levels <= TwoPower(rows) then [Vertical(step)] else [])
      + PassesFrom(levels - 1, rows, cols)
  }

  /** The exponent of two in `n` (zero for zero). */
  function TwoPower(n: nat): nat {
    if n == 0 || n % 2 == 1 then 0 else 1 + TwoPower(n / 2)
  }

  function Max(a: nat, b: nat): nat {
    if a < b then b else a
  }

  ghost function InversePasses(rows: nat, cols: nat): (passes: seq<Pass>)
    ensures Proper(passes)
  {
    PassesFrom(Max(TwoPower(rows), TwoPower(cols)), rows, cols)
  }

  // ---------------------------------------------------------------- the code

  /** The body of a step, with its bounds check. */
  method TransformPair(data: array<real>, idx1: nat, idx2: nat, c: real)
    requires idx1 < data.Length
    modifies data
    ensures data[..] == if idx2 < data.Length then Butterfly(old(data[..]), idx1, idx2, c) else old(data[..])
  {
    ghost var a := data[..];
    if idx2 < data.Length {
      var s, t := data[idx1], data[idx2];
      data[idx1] := ScaledSum(s, t, c);
      data[idx2] := ScaledDifference(s, t, c);
      assert data[..] == Butterfly(a, idx1, idx2, c);
    }
  }

  /** The inner loop of a step: the butterflies of one row of the grid. */
  method TransformRow(data: array<real>, row: nat, sx: nat, sy: nat, dxy: nat, cols: nat, c: real, ghost a: seq<real>)
    requires sx > 0 && sy > 0 && cols > 0 && row % sy == 0
    requires |a| == data.Length && row * cols + cols <= |a|
    requires data[..] == Sweep(a, sx, sy, dxy, cols, row * cols, c)
    modifies data
    ensures data[..] == Sweep(a, sx, sy, dxy, cols, row * cols + cols, c)
  {
    hide Sweep, OnGrid, Butterfly;
    var col := 0;
    while col < cols
      invariant col % sx == 0
      invariant data[..] == Sweep(a, sx, sy, dxy, cols, row * cols + Min(col, cols), c)
      decreases cols - col
    {
      var idx1 := row * cols + col;
      GridPosition(row, col, sx, sy, cols);
      SweepStep(a, sx, sy, dxy, cols, c, idx1);
      SkipColumns(a, sx, sy, dxy, cols, c, row, col);
      TransformPair(data, idx1, idx1 + dxy, c);
      NextMultiple(col, sx);
      col := col + sx;
    }
  }

  /** A step of the transform, in place. */
  method WaveTransformStep(data: array<real>, sx: nat, sy: nat, dxy: nat, cols: nat, c: real)
    requires sx > 0 && sy > 0 && cols > 0
    modifies data
    ensures data[..] == SweepAll(old(data[..]), sx, sy, dxy, cols, c)
  {
    hide Sweep;
    var rows := data.Length / cols;
    ghost var a := data[..];
    WholeRows(data.Length, cols);
    SweepNothing(a, sx, sy, dxy, cols, c);
    var row := 0;
    while row < rows
      invariant row % sy == 0
      invariant 0 <= Min(row, rows) * cols <= |a|
      invariant data[..] == Sweep(a, sx, sy, dxy, cols, Min(row, rows) * cols, c)
      decreases rows - row
    {
      RowFits(row, rows, cols);
      TransformRow(data, row, sx, sy, dxy, cols, c, a);
      SkipRows(a, sx, sy, dxy, cols, c, row, rows);
      NextMultiple(row, sy);
      row := row + sy;
    }
  }

  /** Doubles the step as far as either dimension stays divisible by twice the step. */
  method CoarsestStep(rows: nat, cols: nat) returns (step: nat)
    requires rows > 0 && cols > 0
    ensures step == Pow2(Max(TwoPower(rows), TwoPower(cols)))
    ensures step <= rows || step <= cols
  {
    hide TwoPower, BitAnd;
    step := 1;
    ghost var levels, target := 0, Max(TwoPower(rows), TwoPower(cols));
    MaskTestsTwoPower(rows, 1);
    while BitAnd(rows, 2 * step - 1) == 0
      invariant step == Pow2(levels) && levels <= TwoPower(rows)
      invariant BitAnd(rows, 2 * step - 1) == 0 <==> levels < TwoPower(rows)
      decreases TwoPower(rows) - levels
    {
      MaskTestsTwoPower(rows, levels + 2);
      step := step * 2;
      levels := levels + 1;
    }
    MaskTestsTwoPower(cols, levels + 1);
    while BitAnd(cols, 2 * step - 1) == 0
      invariant step == Pow2(levels) && TwoPower(rows) <= levels <= target
      invariant BitAnd(cols, 2 * step - 1) == 0 <==> levels < TwoPower(cols)
      decreases target - levels
    {
      MaskTestsTwoPower(cols, levels + 2);
      step := step * 2;
      levels := levels + 1;
    }
    PowerOfTwoPower(rows);
    PowerOfTwoPower(cols);
  }

  /** The descending loop over the levels and the passes it runs. */
  method InverseWaveletTransform(data: array<real>, rows: nat, cols: nat, c: real)
    requires rows > 0 && cols > 0
    modifies data
    ensures data[..] == RunPasses(old(data[..]), InversePasses(rows, cols), cols, c)
  {
    hide RunPass, RunPasses, PassesFrom, SweepAll, TwoPower, BitAnd, Max;
    var step := CoarsestStep(rows, cols);
    ghost var levels := Max(TwoPower(rows), TwoPower(cols));
    ghost var a := data[..];
    while step > 1
      invariant step == Pow2(levels)
      invariant RunPasses(data[..], PassesFrom(levels, rows, cols), cols, c)
                == RunPasses(a, InversePasses(rows, cols), cols, c)
      decreases levels
    {
      step := step / 2;
      MaskTestsTwoPower(cols, levels);
      MaskTestsTwoPower(rows, levels);
      ghost var before := data[..];
      if BitAnd(cols, 2 * step - 1) == 0 {
        WaveTransformStep(data, 2 * step, step, step, cols, c);
        RunPassIsSweep(before, Horizontal(step), cols, c);
      }
      ghost var between := data[..];
      if BitAnd(rows, 2 * step - 1) == 0 {
        WaveTransformStep(data, step, 2 * step, step * cols, cols, c);
        RunPassIsSweep(between, Vertical(step), cols, c);
      }
      RunLevel(before, between, data[..], levels, rows, cols, c);
      levels := levels - 1;
    }
    RunNoLevels(data[..], levels, rows, cols, c);
  }

  // ---------------------------------------------------------------- grid arithmetic

  lemma {:induction false} RowFits(row: nat, rows: nat, cols: nat)
    requires row < rows
    ensures row * cols + cols <= rows * cols
  {
    MulAtLeast(rows - row, cols);
    Distribute(rows - row, row, cols);
  }

  lemma {:induction false} GridPosition(row: nat, col: nat, sx: nat, sy: nat, cols: nat)
    requires sx > 0 && sy > 0 && col < cols
    ensures OnGrid(row * cols + col, sx, sy, cols) <==> row % sy == 0 && col % sx == 0
    ensures (row * cols + col) / cols == row && (row * cols + col) % cols == col
  {
    DivModUnique(row * cols + col, cols, row, col);
  }

  lemma {:induction false} MultiplePlus(x: nat, m: nat, k: nat)
    requires k < m && x % m == 0
    ensures (x + k) % m == k
  {
    DivModUnique(x + k, m, x / m, k);
  }

  lemma {:induction false} NextMultiple(x: nat, m: nat)
    requires m > 0 && x % m == 0
    ensures (x + m) % m == 0
  {
    Distribute(x / m, 1, m);
    DivModUnique(x + m, m, x / m + 1, 0);
  }

  lemma {:induction false} SweepNothing(a: seq<real>, sx: nat, sy: nat, d: nat, cols: nat, c: real)
    requires sx > 0 && sy > 0 && cols > 0
    ensures Sweep(a, sx, sy, d, cols, 0 * cols, c) == a
  {
  }

  /** A position on the grid adds its butterfly to the sweep. */
  lemma {:induction false} SweepStep(a: seq<real>, sx: nat, sy: nat, d: nat, cols: nat, c: real, n: nat)
    requires sx > 0 && sy > 0 && cols > 0 && n < |a| && OnGrid(n, sx, sy, cols)
    ensures var b := Sweep(a, sx, sy, d, cols, n, c);
            Sweep(a, sx, sy, d, cols, n + 1, c) == if n + d < |a| then Butterfly(b, n, n + d, c) else b
  {
  }

  /** Positions off the grid change nothing. */
  lemma {:induction false} Skip(a: seq<real>, sx: nat, sy: nat, d: nat, cols: nat, c: real, lo: nat, hi: nat)
    requires sx > 0 && sy > 0 && cols > 0 && lo <= hi <= |a|
    requires forall p | lo <= p < hi :: !OnGrid(p, sx, sy, cols)
    ensures Sweep(a, sx, sy, d, cols, lo, c) == Sweep(a, sx, sy, d, cols, hi, c)
    decreases hi - lo
  {
    if lo < hi {
      Skip(a, sx, sy, d, cols, c, lo, hi - 1);
    }
  }

  lemma {:induction false} SkipColumns(a: seq<real>, sx: nat, sy: nat, d: nat, cols: nat, c: real, row: nat, col: nat)
    requires sx > 0 && sy > 0 && col < cols && col % sx == 0
    requires row * cols + cols <= |a|
    ensures Sweep(a, sx, sy, d, cols, row * cols + col + 1, c)
            == Sweep(a, sx, sy, d, cols, row * cols + Min(col + sx, cols), c)
  {
    var lo, hi := row * cols + col + 1, row * cols + Min(col + sx, cols);
    forall p | lo <= p < hi
      ensures !OnGrid(p, sx, sy, cols)
    {
      var k := p - (row * cols + col);
      MultiplePlus(col, sx, k);
      GridPosition(row, col + k, sx, sy, cols);
    }
    Skip(a, sx, sy, d, cols, c, lo, hi);
  }

  lemma {:induction false} SkipRows(a: seq<real>, sx: nat, sy: nat, d: nat, cols: nat, c: real, row: nat, rows: nat)
    requires sx > 0 && sy > 0 && cols > 0 && row < rows && row % sy == 0
    requires rows * cols <= |a|
    ensures row * cols + cols <= Min(row + sy, rows) * cols <= |a|
    ensures Sweep(a, sx, sy, d, cols, row * cols + cols, c)
            == Sweep(a, sx, sy, d, cols, Min(row + sy, rows) * cols, c)
  {
    var next := Min(row + sy, rows);
    hide Sweep;
    var lo, hi := row * cols + cols, next * cols;
    RowFits(row, next, cols);
    Distribute(rows - next, next, cols);
    Distribute(row, 1, cols);
    forall p | lo <= p < hi
      ensures !OnGrid(p, sx, sy, cols)
    {
      RowBetween(p, row + 1, next, cols);
      MultiplePlus(row, sy, p / cols - row);
    }
    Skip(a, sx, sy, d, cols, c, lo, hi);
  }

  lemma {:induction false} RowBetween(p: nat, first: nat, last: nat, cols: nat)
    requires cols > 0 && first * cols <= p < last * cols
    ensures first <= p / cols < last
  {
    var q := p / cols;
    assert q * cols <= p < q * cols + cols;
    if q < first {
      RowFits(q, first, cols);
    }
    if q >= last {
      Distribute(q - last, last, cols);
    }
  }

  // ---------------------------------------------------------------- levels

  /** A number is divisible by 2^k exactly when k is at most its exponent of two. */
  lemma {:induction false} DividesTwoPower(n: nat, k: nat)
    requires n > 0
    ensures n % Pow2(k) == 0 <==> k <= TwoPower(n)
    decreases k
  {
    if k > 0 {
      var p := Pow2(k - 1);
      RemainderOfDouble(n, p);
      if n % 2 == 0 {
        DividesTwoPower(n / 2, k - 1);
      }
    }
  }

  /** The loop guards' AND with an all-ones mask tests divisibility by a power of two. */
  lemma {:induction false} MaskTestsTwoPower(n: nat, k: nat)
    requires n > 0
    ensures BitAnd(n, Pow2(k) - 1) == 0 <==> k <= TwoPower(n)
  {
    MaskIsRemainder(n, k);
    DividesTwoPower(n, k);
  }

  lemma {:induction false} PowerOfTwoPower(n: nat)
    requires n > 0
    ensures Pow2(TwoPower(n)) <= n
  {
    if n % 2 == 0 {
      PowerOfTwoPower(n / 2);
    }
  }

  lemma {:induction false} RunPassIsSweep(a: seq<real>, pass: Pass, cols: nat, c: real)
    requires pass.step > 0 && cols > 0
    ensures RunPass(a, pass, cols, c)
            == match pass
               case Horizontal(step) => SweepAll(a, 2 * step, step, step, cols, c)
               case Vertical(step) => SweepAll(a, step, 2 * step, step * cols, cols, c)
  {
  }

  lemma {:induction false} RunNoLevels(a: seq<real>, levels: nat, rows: nat, cols: nat, c: real)
    requires cols > 0 && Pow2(levels) <= 1
    ensures RunPasses(a, PassesFrom(levels, rows, cols), cols, c) == a
  {
  }

  lemma {:induction false} RunFirst(a: seq<real>, first: Pass, rest: seq<Pass>, cols: nat, c: real)
    requires first.step > 0 && Proper(rest) && cols > 0
    ensures RunPasses(a, [first] + rest, cols, c) == RunPasses(RunPass(a, first, cols, c), rest, cols, c)
  {
    assert ([first] + rest)[1..] == rest;
  }

  lemma {:induction false} RunLevel(
    before: seq<real>, between: seq<real>, after: seq<real>, levels: nat, rows: nat, cols: nat, c: real)
    requires levels > 0 && cols > 0
    requires between
             == if levels <= TwoPower(cols) then RunPass(before, Horizontal(Pow2(levels - 1)), cols, c) else before
    requires after
             == if levels <= TwoPower(rows) then RunPass(between, Vertical(Pow2(levels - 1)), cols, c) else between
    ensures RunPasses(before, PassesFrom(levels, rows, cols), cols, c)
            == RunPasses(after, PassesFrom(levels - 1, rows, cols), cols, c)
  {
    hide RunPass, RunPasses, Pow2, TwoPower;
    var step, rest := Pow2(levels - 1), PassesFrom(levels - 1, rows, cols);
    var vertical := if levels <= TwoPower(rows) then [Vertical(step)] else [];
    if levels <= TwoPower(rows) {
      RunFirst(between, Vertical(step), rest, cols, c);
    } else {
      assert vertical + rest == rest;
    }
    var passes := PassesFrom(levels, rows, cols);
    if levels <= TwoPower(cols) {
      assert passes == [Horizontal(step)] + (vertical + rest);
      RunFirst(before, Horizontal(step), vertical + rest, cols, c);
    } else {
      assert passes == vertical + rest;
    }
  }
}
