/**
 The transform in rows and columns: what a pass leaves in every cell, and what becomes
 of a buffer that holds nothing but its first coefficient.
 */
module HaarImpulse {
  import opened Bits
  import opened Haar
  import opened HaarLaws

  // ---------------------------------------------------------------- a pass, cell by cell

  /** Multiples of a step are even or odd multiples of it, the odd ones a step past the even ones. */
  lemma {:induction false} EvenOrOdd(x: nat, step: nat)
    requires step > 0
    ensures x % step == 0 <==> x % (2 * step) == 0 || x % (2 * step) == step
    ensures x % (2 * step) == step <==> step <= x && (x - step) % (2 * step) == 0
  {
    var m, t := x / (2 * step), x % (2 * step);
    assert x == m * (2 * step) + t;
    assert m * (2 * step) == (2 * m) * step;
    if t < step {
      DivModUnique(x, step, 2 * m, t);
      if step <= x {
        assert (m - 1) * (2 * step) == m * (2 * step) - 2 * step;
        MulAtMost(m, 2 * step);
        DivModUnique(x - step, 2 * step, m - 1, t + step);
      }
    } else {
      assert (2 * m + 1) * step == (2 * m) * step + step;
      DivModUnique(x, step, 2 * m + 1, t - step);
      DivModUnique(x - step, 2 * step, m, t - step);
    }
  }

  lemma {:induction false} MulAtMost(m: nat, k: nat)
    ensures m == 0 ==> m * k == 0
  {
  }

  /** The position a step before column `col` starts a pair exactly when `col` is an odd multiple of the step. */
  lemma {:induction false} StepBefore(row: nat, col: nat, step: nat, cols: nat)
    requires step > 0 && col < cols && cols % (2 * step) == 0
    ensures var p := row * cols + col;
            step <= p && OnGrid(p - step, 2 * step, step, cols)
            <==> row % step == 0 && col % (2 * step) == step
  {
    EvenOrOdd(col, step);
    if step <= col {
      GridPosition(row, col - step, 2 * step, step, cols);
    } else if row > 0 {
      MultipleGap(0, cols, 2 * step);
      assert row * cols == (row - 1) * cols + cols by {
        Distribute(row - 1, 1, cols);
      }
      var before := cols - step + col;
      GridPosition(row - 1, before, 2 * step, step, cols);
      var k := cols / (2 * step);
      assert cols == k * (2 * step);
      assert (k - 1) * (2 * step) == k * (2 * step) - 2 * step;
      DivModUnique(before, 2 * step, k - 1, step + col);
    }
  }

  /** What a horizontal pass leaves in each cell. */
  lemma {:induction false} HorizontalPass(
    a: seq<real>, step: nat, rows: nat, cols: nat, c: real, row: nat, col: nat)
    requires step > 0 && |a| == rows * cols && cols % (2 * step) == 0 && row < rows && col < cols
    ensures row * cols + col < |a|
    ensures col % (2 * step) == 0 ==> row * cols + col + step < |a|
    ensures col % (2 * step) == step ==> step <= row * cols + col
    ensures var p := row * cols + col;
            RunPass(a, Horizontal(step), cols, c)[p]
            == if row % step == 0 && col % (2 * step) == 0 then c * (a[p] + a[p + step])
               else if row % step == 0 && col % (2 * step) == step then c * (a[p - step] - a[p])
               else a[p]
  {
    hide Sweep, OnGrid;
    var p := row * cols + col;
    RowFits(row, rows, cols);
    MultipleGap0(col, cols, 2 * step);
    FittingPassIsDisjoint(Horizontal(step), rows, cols);
    DivModUnique(|a|, cols, rows, 0);
    SweepValue(a, 2 * step, step, step, cols, |a|, c, p);
    GridPosition(row, col, 2 * step, step, cols);
    StepBefore(row, col, step, cols);
    EvenOrOdd(col, step);
  }

  lemma {:induction false} MultipleGap0(x: nat, y: nat, m: nat)
    requires m > 0 && x < y && y % m == 0
    ensures x % m == 0 ==> x + m <= y
  {
    if x % m == 0 {
      MultipleGap(x, y, m);
    }
  }

  /** What a vertical pass leaves in each cell. */
  lemma {:induction false} VerticalPass(
    a: seq<real>, step: nat, rows: nat, cols: nat, c: real, row: nat, col: nat)
    requires step > 0 && |a| == rows * cols && rows % (2 * step) == 0 && row < rows && col < cols
    ensures row * cols + col < |a|
    ensures row % (2 * step) == 0 ==> row * cols + col + step * cols < |a|
    ensures row % (2 * step) == step ==> step * cols <= row * cols + col
    ensures var p := row * cols + col;
            RunPass(a, Vertical(step), cols, c)[p]
            == if row % (2 * step) == 0 && col % step == 0 then c * (a[p] + a[p + step * cols])
               else if row % (2 * step) == step && col % step == 0 then c * (a[p - step * cols] - a[p])
               else a[p]
  {
    hide Sweep, OnGrid;
    var p, d := row * cols + col, step * cols;
    RowFits(row, rows, cols);
    MultipleGap0(row, rows, 2 * step);
    FittingPassIsDisjoint(Vertical(step), rows, cols);
    DivModUnique(|a|, cols, rows, 0);
    SweepValue(a, step, 2 * step, d, cols, |a|, c, p);
    GridPosition(row, col, step, 2 * step, cols);
    EvenOrOdd(row, step);
    if row + 2 * step <= rows {
      RowFits(row + step, rows, cols);
      Distribute(row, step, cols);
    }
    if step <= row {
      Distribute(row - step, step, cols);
      GridPosition(row - step, col, step, 2 * step, cols);
    } else {
      RowFits(row, step, cols);
    }
  }

  /** A pair and its image determine each other: the sum and the difference bring back the two values. */
  lemma {:induction false} HorizontalPairAverages(
    a: seq<real>, step: nat, rows: nat, cols: nat, c: real, row: nat, col: nat)
    requires step > 0 && |a| == rows * cols && cols % (2 * step) == 0 && row < rows && col < cols
    requires row % step == 0 && col % (2 * step) == 0
    ensures row * cols + col + step < |a|
    ensures var p, out := row * cols + col, RunPass(a, Horizontal(step), cols, c);
            && out[p] + out[p + step] == 2.0 * c * a[p]
            && out[p] - out[p + step] == 2.0 * c * a[p + step]
  {
    hide RunPass;
    var p := row * cols + col;
    MultipleGap0(col, cols, 2 * step);
    HorizontalPass(a, step, rows, cols, c, row, col);
    MultiplePlus(col, 2 * step, step);
    HorizontalPass(a, step, rows, cols, c, row, col + step);
    SumAndDifference(a[p], a[p + step], c);
  }

  lemma {:induction false} VerticalPairAverages(
    a: seq<real>, step: nat, rows: nat, cols: nat, c: real, row: nat, col: nat)
    requires step > 0 && |a| == rows * cols && rows % (2 * step) == 0 && row < rows && col < cols
    requires row % (2 * step) == 0 && col % step == 0
    ensures row * cols + col + step * cols < |a|
    ensures var p, out := row * cols + col, RunPass(a, Vertical(step), cols, c);
            && out[p] + out[p + step * cols] == 2.0 * c * a[p]
            && out[p] - out[p + step * cols] == 2.0 * c * a[p + step * cols]
  {
    hide RunPass;
    var p := row * cols + col;
    MultipleGap0(row, rows, 2 * step);
    VerticalPass(a, step, rows, cols, c, row, col);
    MultiplePlus(row, 2 * step, step);
    Distribute(row, step, cols);
    VerticalPass(a, step, rows, cols, c, row + step, col);
    SumAndDifference(a[p], a[p + step * cols], c);
  }

  lemma {:induction false} SumAndDifference(x: real, y: real, c: real)
    ensures c * (x + y) + c * (x - y) == 2.0 * c * x
    ensures c * (x + y) - c * (x - y) == 2.0 * c * y
  {
  }

  // ---------------------------------------------------------------- the first coefficient

  function Power(c: real, n: nat): real {
    if n == 0 then 1.0 else c * Power(c, n - 1)
  }

  function Cell(a: seq<real>, rows: nat, cols: nat, row: nat, col: nat): real
    requires |a| == rows * cols && row < rows && col < cols
  {
    RowFits(row, rows, cols);
    a[row * cols + col]
  }

  /** A value spread over the top-left 2^down by 2^across cells, so far on rows and columns divisible by 2^x and 2^y. */
  function Spread(value: real, c: real, down: nat, across: nat, x: nat, y: nat, row: nat, col: nat): real
    requires x <= down && y <= across
  {
    if row < Pow2(down) && col < Pow2(across) && row % Pow2(x) == 0 && col % Pow2(y) == 0
    then value * Power(c, down - x + across - y) else 0.0
  }

  ghost predicate IsSpread(a: seq<real>, rows: nat, cols: nat, value: real, c: real, x: nat, y: nat) {
    && |a| == rows * cols
    && x <= TwoPower(rows) && y <= TwoPower(cols)
    && forall row: nat, col: nat | row < rows && col < cols ::
         Cell(a, rows, cols, row, col) == Spread(value, c, TwoPower(rows), TwoPower(cols), x, y, row, col)
  }

  /** A multiple of the exponent's power is a multiple of every smaller one; below the power only zero is. */
  lemma {:induction false} CoarseRow(row: nat, down: nat, x: nat, k: nat)
    requires row < Pow2(down) && row % Pow2(x) == 0
    requires k <= x || x == down
    ensures row % Pow2(k) == 0
  {
    hide Pow2;
    DivModUnique(0, Pow2(k), 0, 0);
    if k <= x {
      Pow2Add(k, x - k);
      assert k + (x - k) == x;
      NestedRemainder(row, Pow2(k), Pow2(x - k));
    } else {
      DivModUnique(row, Pow2(down), 0, row);
    }
  }

  lemma {:induction false} SpreadGrows(value: real, c: real, n: nat)
    ensures value * Power(c, n + 1) == c * (value * Power(c, n))
  {
  }

  /** The places a step apart in one direction lie in the spread area together. */
  lemma {:induction false} AreaAligned(at: nat, across: nat, y: nat)
    requires 0 < y <= across && at % Pow2(y) == 0
    ensures at < Pow2(across) <==> at + Pow2(y - 1) < Pow2(across)
  {
    if at < Pow2(across) {
      Pow2Add(y, across - y);
      DivModUnique(Pow2(across), Pow2(y), Pow2(across - y), 0);
      MultipleGap(at, Pow2(across), Pow2(y));
    }
  }

  /** What a butterfly of step 2^(y-1) makes of the spread along one direction. */
  lemma {:induction false} SpreadPair(
    value: real, c: real, down: nat, across: nat, x: nat, y: nat, row: nat, col: nat)
    requires x <= down && 0 < y <= across && col % Pow2(y) == 0
    ensures var s, t := Spread(value, c, down, across, x, y, row, col),
                        Spread(value, c, down, across, x, y, row, col + Pow2(y - 1));
            && t == 0.0
            && Spread(value, c, down, across, x, y - 1, row, col) == c * (s + t)
            && Spread(value, c, down, across, x, y - 1, row, col + Pow2(y - 1)) == c * (s - t)
  {
    var step := Pow2(y - 1);
    assert Pow2(y) == 2 * step;
    MultiplePlus(col, 2 * step, step);
    EvenOrOdd(col, step);
    EvenOrOdd(col + step, step);
    AreaAligned(col, across, y);
    SpreadGrows(value, c, down - x + across - y);
  }

  /** The spread does not care which direction is which. */
  lemma {:induction false} SpreadTransposed(
    value: real, c: real, down: nat, across: nat, x: nat, y: nat, row: nat, col: nat)
    requires x <= down && y <= across
    ensures Spread(value, c, down, across, x, y, row, col) == Spread(value, c, across, down, y, x, col, row)
  {
  }

  /** Off the pass's grid nothing is spread, before or after. */
  lemma {:induction false} SpreadOffGrid(
    value: real, c: real, down: nat, across: nat, x: nat, y: nat, row: nat, col: nat)
    requires x <= down && 0 < y <= across && (y - 1 <= x || x == down)
    requires row % Pow2(y - 1) != 0 || (col % Pow2(y) != 0 && col % Pow2(y) != Pow2(y - 1))
    ensures Spread(value, c, down, across, x, y, row, col) == 0.0
    ensures Spread(value, c, down, across, x, y - 1, row, col) == 0.0
  {
    EvenOrOdd(col, Pow2(y - 1));
    if row < Pow2(down) && row % Pow2(x) == 0 {
      CoarseRow(row, down, x, y - 1);
    }
  }

  lemma {:induction false} HorizontalSpreads(
    a: seq<real>, rows: nat, cols: nat, value: real, c: real, x: nat, y: nat)
    requires rows > 0 && cols > 0 && IsSpread(a, rows, cols, value, c, x, y)
    requires y > 0 && (y - 1 <= x || x == TwoPower(rows))
    ensures IsSpread(RunPass(a, Horizontal(Pow2(y - 1)), cols, c), rows, cols, value, c, x, y - 1)
  {
    hide RunPass, Spread, TwoPower;
    var step, down, across := Pow2(y - 1), TwoPower(rows), TwoPower(cols);
    assert 2 * step == Pow2(y);
    DividesTwoPower(cols, y);
    var out := RunPass(a, Horizontal(step), cols, c);
    forall row: nat, col: nat | row < rows && col < cols
      ensures Cell(out, rows, cols, row, col) == Spread(value, c, down, across, x, y - 1, row, col)
    {
      HorizontalPass(a, step, rows, cols, c, row, col);
      EvenOrOdd(col, step);
      if row % step != 0 || (col % (2 * step) != 0 && col % (2 * step) != step) {
        SpreadOffGrid(value, c, down, across, x, y, row, col);
        assert Cell(a, rows, cols, row, col) == 0.0;
      } else {
        var even := if col % (2 * step) == 0 then col else col - step;
        MultipleGap0(even, cols, 2 * step);
        SpreadPair(value, c, down, across, x, y, row, even);
        assert Cell(a, rows, cols, row, even) == Spread(value, c, down, across, x, y, row, even);
        assert Cell(a, rows, cols, row, even + step) == Spread(value, c, down, across, x, y, row, even + step);
      }
    }
  }

  lemma {:induction false} VerticalSpreads(
    a: seq<real>, rows: nat, cols: nat, value: real, c: real, x: nat, y: nat)
    requires rows > 0 && cols > 0 && IsSpread(a, rows, cols, value, c, x, y)
    requires x > 0 && (x - 1 <= y || y == TwoPower(cols))
    ensures IsSpread(RunPass(a, Vertical(Pow2(x - 1)), cols, c), rows, cols, value, c, x - 1, y)
  {
    hide RunPass, Spread, TwoPower;
    var step, down, across := Pow2(x - 1), TwoPower(rows), TwoPower(cols);
    assert 2 * step == Pow2(x);
    DividesTwoPower(rows, x);
    var out := RunPass(a, Vertical(step), cols, c);
    forall row: nat, col: nat | row < rows && col < cols
      ensures Cell(out, rows, cols, row, col) == Spread(value, c, down, across, x - 1, y, row, col)
    {
      VerticalPass(a, step, rows, cols, c, row, col);
      EvenOrOdd(row, step);
      SpreadTransposed(value, c, down, across, x - 1, y, row, col);
      if col % step != 0 || (row % (2 * step) != 0 && row % (2 * step) != step) {
        SpreadOffGrid(value, c, across, down, y, x, col, row);
        SpreadTransposed(value, c, down, across, x, y, row, col);
        assert Cell(a, rows, cols, row, col) == 0.0;
      } else {
        var even := if row % (2 * step) == 0 then row else row - step;
        MultipleGap0(even, rows, 2 * step);
        SpreadPair(value, c, across, down, y, x, col, even);
        SpreadTransposed(value, c, down, across, x, y, even, col);
        SpreadTransposed(value, c, down, across, x, y, even + step, col);
        Distribute(even, step, cols);
        assert Cell(a, rows, cols, even, col) == Spread(value, c, down, across, x, y, even, col);
        assert Cell(a, rows, cols, even + step, col) == Spread(value, c, down, across, x, y, even + step, col);
      }
    }
  }

  /** The levels still to run finish the spreading. */
  lemma {:induction false} LevelsSpread(a: seq<real>, levels: nat, rows: nat, cols: nat, value: real, c: real)
    requires rows > 0 && cols > 0
    requires IsSpread(a, rows, cols, value, c, Min(levels, TwoPower(rows)), Min(levels, TwoPower(cols)))
    ensures IsSpread(RunPasses(a, PassesFrom(levels, rows, cols), cols, c), rows, cols, value, c, 0, 0)
    decreases levels
  {
    hide RunPass, RunPasses, PassesFrom, TwoPower, IsSpread, Pow2;
    if levels == 0 {
      RunNoLevels0(a, rows, cols, c);
    } else {
      var x, y := Min(levels, TwoPower(rows)), Min(levels, TwoPower(cols));
      var between, after := a, a;
      if levels <= TwoPower(cols) {
        HorizontalSpreads(a, rows, cols, value, c, x, y);
        between := RunPass(a, Horizontal(Pow2(levels - 1)), cols, c);
      }
      var y' := Min(levels - 1, TwoPower(cols));
      after := between;
      if levels <= TwoPower(rows) {
        VerticalSpreads(between, rows, cols, value, c, x, y');
        after := RunPass(between, Vertical(Pow2(levels - 1)), cols, c);
      }
      RunLevel(a, between, after, levels, rows, cols, c);
      LevelsSpread(after, levels - 1, rows, cols, value, c);
    }
  }

  lemma {:induction false} RunNoLevels0(a: seq<real>, rows: nat, cols: nat, c: real)
    requires cols > 0
    ensures RunPasses(a, PassesFrom(0, rows, cols), cols, c) == a
  {
  }

  lemma {:induction false} OnlyFirstIsCoarse(at: nat, k: nat)
    ensures at < Pow2(k) && at % Pow2(k) == 0 <==> at == 0
  {
    DivModUnique(0, Pow2(k), 0, 0);
    if at < Pow2(k) {
      DivModUnique(at, Pow2(k), 0, at);
    }
  }

  lemma {:induction false} StartsSpread(a: seq<real>, rows: nat, cols: nat, c: real)
    requires rows > 0 && cols > 0 && |a| == rows * cols > 0
    requires forall p | 0 < p < |a| :: a[p] == 0.0
    ensures IsSpread(a, rows, cols, a[0], c, TwoPower(rows), TwoPower(cols))
  {
    hide TwoPower, Pow2;
    forall row: nat, col: nat | row < rows && col < cols
      ensures Cell(a, rows, cols, row, col)
              == Spread(a[0], c, TwoPower(rows), TwoPower(cols), TwoPower(rows), TwoPower(cols), row, col)
    {
      OnlyFirstIsCoarse(row, TwoPower(rows));
      OnlyFirstIsCoarse(col, TwoPower(cols));
      RowFits(row, rows, cols);
      if row > 0 {
        MulAtLeast(row, cols);
      }
    }
  }

  /**
   The first coefficient is the average of the top-left cells: alone in the buffer, it is
   spread evenly, scaled by one factor `c` per level, over as many rows and columns as
   the dimensions have factors of two, and reaches nothing else.
   */
  lemma {:induction false} FirstCoefficientSpreads(a: seq<real>, rows: nat, cols: nat, c: real, row: nat, col: nat)
    requires rows > 0 && cols > 0 && |a| == rows * cols && row < rows && col < cols
    requires forall p | 0 < p < |a| :: a[p] == 0.0
    ensures 0 <= row * cols + col < |a|
    ensures RunPasses(a, InversePasses(rows, cols), cols, c)[row * cols + col]
            == if row < Pow2(TwoPower(rows)) && col < Pow2(TwoPower(cols))
               then a[0] * Power(c, TwoPower(rows) + TwoPower(cols)) else 0.0
  {
    hide RunPasses, PassesFrom, TwoPower;
    RowFits(row, rows, cols);
    MulAtLeast(rows, cols);
    StartsSpread(a, rows, cols, c);
    LevelsSpread(a, Max(TwoPower(rows), TwoPower(cols)), rows, cols, a[0], c);
    var out := RunPasses(a, InversePasses(rows, cols), cols, c);
    assert Cell(out, rows, cols, row, col) == out[row * cols + col];
  }

  /** For dimensions that are powers of two the whole buffer takes that one value. */
  lemma {:induction false} FirstCoefficientFills(a: seq<real>, m: nat, n: nat, c: real, p: nat)
    requires |a| == Pow2(m) * Pow2(n) && p < |a|
    requires forall q | 0 < q < |a| :: a[q] == 0.0
    ensures RunPasses(a, InversePasses(Pow2(m), Pow2(n)), Pow2(n), c)[p] == a[0] * Power(c, m + n)
  {
    hide RunPasses, InversePasses, Pow2;
    var rows, cols := Pow2(m), Pow2(n);
    TwoPowerOfPower(m);
    TwoPowerOfPower(n);
    RowBetween(p, 0, rows, cols);
    assert p == p / cols * cols + p % cols;
    FirstCoefficientSpreads(a, rows, cols, c, p / cols, p % cols);
  }

  lemma {:induction false} TwoPowerOfPower(m: nat)
    ensures TwoPower(Pow2(m)) == m
  {
    if m > 0 {
      TwoPowerOfPower(m - 1);
    }
  }

  // ---------------------------------------------------------------- scaling

  function Product(k: real, x: real): real {
    k * x
  }

  function Amplified(a: seq<real>, k: real): (b: seq<real>)
    ensures |b| == |a|
  {
    seq(|a|, i requires 0 <= i < |a| => Product(k, a[i]))
  }

  lemma {:induction false} PairScales(x: real, y: real, c: real, k: real)
    ensures Product(k, ScaledSum(x, y, c)) == ScaledSum(Product(k, x), Product(k, y), c)
    ensures Product(k, ScaledDifference(x, y, c)) == ScaledDifference(Product(k, x), Product(k, y), c)
  {
    assert k * (c * (x + y)) == c * (k * x + k * y);
    assert k * (c * (x - y)) == c * (k * x - k * y);
  }

  lemma {:induction false} ButterflyScales(a: seq<real>, i: nat, j: nat, c: real, k: real)
    requires i < |a| && j < |a| && i != j
    ensures Butterfly(Amplified(a, k), i, j, c) == Amplified(Butterfly(a, i, j, c), k)
  {
    hide ScaledSum, ScaledDifference, Product;
    PairScales(a[i], a[j], c, k);
  }

  lemma {:induction false} SweepScales(
    a: seq<real>, sx: nat, sy: nat, d: nat, cols: nat, n: nat, c: real, k: real)
    requires sx > 0 && sy > 0 && cols > 0 && d > 0 && n <= |a|
    ensures Sweep(Amplified(a, k), sx, sy, d, cols, n, c) == Amplified(Sweep(a, sx, sy, d, cols, n, c), k)
    decreases n
  {
    hide OnGrid, Butterfly, Amplified;
    if n > 0 {
      SweepScales(a, sx, sy, d, cols, n - 1, c, k);
      if n - 1 + d < |a| {
        ButterflyScales(Sweep(a, sx, sy, d, cols, n - 1, c), n - 1, n - 1 + d, c, k);
      }
    }
  }

  /** The passes scale with the buffer. */
  lemma {:induction false} RunScales(a: seq<real>, passes: seq<Pass>, cols: nat, c: real, k: real)
    requires Proper(passes) && cols > 0
    ensures RunPasses(Amplified(a, k), passes, cols, c) == Amplified(RunPasses(a, passes, cols, c), k)
    decreases |passes|
  {
    hide Amplified, Sweep;
    if passes != [] {
      var pass := passes[0];
      WholeRows(|a|, cols);
      MulAtLeast(cols, pass.step);
      SweepScales(a, pass.ColumnStride(), pass.RowStride(), pass.Distance(cols), cols, |a| / cols * cols, c, k);
      RunScales(RunPass(a, pass, cols, c), passes[1..], cols, c, k);
    }
  }
}
