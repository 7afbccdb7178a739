/**
 Laws of the transform in module Haar: which positions a pass pairs, that every pass
 is its own inverse, that the whole transform can be undone and keeps the energy of
 its buffer, and how many passes of each kind it runs.
 */
module HaarLaws {
  import opened Bits
  import opened Haar

  // ---------------------------------------------------------------- geometry of a pass

  /**
   On a buffer of `length` values every pair of the pass is whole and no position is
   in two pairs: a position is never both the first of one pair and the second of
   another, and equal distances cannot share a second position.
   */
  ghost predicate Disjoint(sx: nat, sy: nat, d: nat, cols: nat, length: nat)
    requires sx > 0 && sy > 0 && cols > 0
  {
    forall p: nat {:trigger OnGrid(p, sx, sy, cols)} | p < length && OnGrid(p, sx, sy, cols) ::
      p + d < length && !OnGrid(p + d, sx, sy, cols)
  }

  ghost predicate DisjointPass(pass: Pass, cols: nat, length: nat)
    requires pass.step > 0 && cols > 0
  {
    Disjoint(pass.ColumnStride(), pass.RowStride(), pass.Distance(cols), cols, length)
  }

  /** Doubling the step divides the dimension along which the pass pairs positions. */
  predicate Fits(pass: Pass, rows: nat, cols: nat)
    requires pass.step > 0
  {
    (if pass.Horizontal? then cols else rows) % (2 * pass.step) == 0
  }

  lemma {:induction false} MultipleGap(x: nat, y: nat, m: nat)
    requires m > 0 && x < y && x % m == 0 && y % m == 0
    ensures x + m <= y
  {
    var a, b := x / m, y / m;
    assert x == a * m && y == b * m;
    if b <= a {
      Distribute(a - b, b, m);
    } else {
      MulAtLeast(b - a, m);
      Distribute(b - a, a, m);
    }
  }

  /** A pair of a horizontal pass stays inside one row. */
  lemma {:induction false} HorizontalPair(step: nat, rows: nat, cols: nat, p: nat)
    requires step > 0 && cols > 0 && cols % (2 * step) == 0 && p < rows * cols
    requires OnGrid(p, 2 * step, step, cols)
    ensures p + step < rows * cols && (p + step) / cols == p / cols
    ensures !OnGrid(p + step, 2 * step, step, cols)
  {
    var row, col := p / cols, p % cols;
    assert p == row * cols + col;
    MultipleGap(col, cols, 2 * step);
    RowBetween(p, 0, rows, cols);
    RowFits(row, rows, cols);
    GridPosition(row, col + step, 2 * step, step, cols);
    MultiplePlus(col, 2 * step, step);
  }

  /** A pair of a vertical pass stays inside one column. */
  lemma {:induction false} VerticalPair(step: nat, rows: nat, cols: nat, p: nat)
    requires step > 0 && cols > 0 && rows % (2 * step) == 0 && p < rows * cols
    requires OnGrid(p, step, 2 * step, cols)
    ensures p + step * cols < rows * cols && (p + step * cols) % cols == p % cols
    ensures !OnGrid(p + step * cols, step, 2 * step, cols)
  {
    var row, col := p / cols, p % cols;
    assert p == row * cols + col;
    RowBetween(p, 0, rows, cols);
    MultipleGap(row, rows, 2 * step);
    Distribute(row, step, cols);
    RowFits(row + step, rows, cols);
    GridPosition(row + step, col, step, 2 * step, cols);
    MultiplePlus(row, 2 * step, step);
  }

  /** The bounds check of the transform never drops a pair, and pairs never overlap. */
  lemma {:induction false} FittingPassIsDisjoint(pass: Pass, rows: nat, cols: nat)
    requires pass.step > 0 && cols > 0 && Fits(pass, rows, cols)
    ensures DisjointPass(pass, cols, rows * cols)
  {
    hide OnGrid;
    var sx, sy, d := pass.ColumnStride(), pass.RowStride(), pass.Distance(cols);
    forall p: nat | p < rows * cols && OnGrid(p, sx, sy, cols)
      ensures p + d < rows * cols && !OnGrid(p + d, sx, sy, cols)
    {
      if pass.Horizontal? {
        HorizontalPair(pass.step, rows, cols, p);
      } else {
        VerticalPair(pass.step, rows, cols, p);
      }
    }
  }

  // ---------------------------------------------------------------- a pass value by value

  /** What a disjoint pass leaves at position `q` when it has swept the positions below `n`. */
  ghost function SweptValue(a: seq<real>, sx: nat, sy: nat, d: nat, cols: nat, n: nat, c: real, q: nat): real
    requires sx > 0 && sy > 0 && cols > 0 && q < |a|
  {
    if OnGrid(q, sx, sy, cols) && q < n && q + d < |a| then ScaledSum(a[q], a[q + d], c)
    else if d <= q && OnGrid(q - d, sx, sy, cols) && q - d < n then ScaledDifference(a[q - d], a[q], c)
    else a[q]
  }

  lemma {:induction false} ButterflyValue(a: seq<real>, i: nat, j: nat, c: real, q: nat)
    requires i < |a| && j < |a| && i != j && q < |a|
    ensures Butterfly(a, i, j, c)[q]
            == if q == i then ScaledSum(a[i], a[j], c) else if q == j then ScaledDifference(a[i], a[j], c) else a[q]
  {
  }

  lemma {:induction false} SweepValue(a: seq<real>, sx: nat, sy: nat, d: nat, cols: nat, n: nat, c: real, q: nat)
    requires sx > 0 && sy > 0 && cols > 0 && n <= |a| && q < |a|
    requires Disjoint(sx, sy, d, cols, |a|)
    ensures Sweep(a, sx, sy, d, cols, n, c)[q] == SweptValue(a, sx, sy, d, cols, n, c, q)
    decreases n
  {
    hide OnGrid, ScaledSum, ScaledDifference, Butterfly;
    if n > 0 {
      SweepValue(a, sx, sy, d, cols, n - 1, c, q);
      if OnGrid(n - 1, sx, sy, cols) {
        SweepValue(a, sx, sy, d, cols, n - 1, c, n - 1);
        SweepValue(a, sx, sy, d, cols, n - 1, c, n - 1 + d);
        ButterflyValue(Sweep(a, sx, sy, d, cols, n - 1, c), n - 1, n - 1 + d, c, q);
        if d <= n - 1 {
          assert !OnGrid(n - 1 - d, sx, sy, cols);
        }
      }
    }
  }

  lemma {:induction false} PairRestored(x: real, y: real, c: real)
    requires 2.0 * c * c == 1.0
    ensures ScaledSum(ScaledSum(x, y, c), ScaledDifference(x, y, c), c) == x
    ensures ScaledDifference(ScaledSum(x, y, c), ScaledDifference(x, y, c), c) == y
  {
    assert c * (c * (x + y) + c * (x - y)) == 2.0 * c * c * x;
    assert c * (c * (x + y) - c * (x - y)) == 2.0 * c * c * y;
  }

  /** Running a pass twice restores the buffer. */
  lemma {:induction false} SweepTwice(a: seq<real>, sx: nat, sy: nat, d: nat, cols: nat, c: real)
    requires sx > 0 && sy > 0 && cols > 0 && Disjoint(sx, sy, d, cols, |a|)
    requires 2.0 * c * c == 1.0
    ensures Sweep(Sweep(a, sx, sy, d, cols, |a|, c), sx, sy, d, cols, |a|, c) == a
  {
    hide OnGrid, ScaledSum, ScaledDifference, Sweep;
    var b := Sweep(a, sx, sy, d, cols, |a|, c);
    forall q: nat | q < |a|
      ensures Sweep(b, sx, sy, d, cols, |a|, c)[q] == a[q]
    {
      SweepValue(b, sx, sy, d, cols, |a|, c, q);
      SweepValue(a, sx, sy, d, cols, |a|, c, q);
      if OnGrid(q, sx, sy, cols) {
        SweepValue(a, sx, sy, d, cols, |a|, c, q + d);
        PairRestored(a[q], a[q + d], c);
      } else if d <= q && OnGrid(q - d, sx, sy, cols) {
        SweepValue(a, sx, sy, d, cols, |a|, c, q - d);
        PairRestored(a[q - d], a[q], c);
      }
    }
  }

  lemma {:induction false} PassIsSelfInverse(a: seq<real>, pass: Pass, rows: nat, cols: nat, c: real)
    requires pass.step > 0 && cols > 0 && |a| == rows * cols && Fits(pass, rows, cols)
    requires 2.0 * c * c == 1.0
    ensures RunPass(RunPass(a, pass, cols, c), pass, cols, c) == a
  {
    FittingPassIsDisjoint(pass, rows, cols);
    DivModUnique(|a|, cols, rows, 0);
    SweepTwice(a, pass.ColumnStride(), pass.RowStride(), pass.Distance(cols), cols, c);
  }

  // ---------------------------------------------------------------- energy

  function SumOfSquares(a: seq<real>): real {
    if a == [] then 0.0 else SumOfSquares(a[..|a| - 1]) + a[|a| - 1] * a[|a| - 1]
  }

  lemma {:induction false} SumOfSquaresUpdate(a: seq<real>, i: nat, x: real)
    requires i < |a|
    ensures SumOfSquares(a[i := x]) == SumOfSquares(a) - a[i] * a[i] + x * x
    decreases |a|
  {
    var last := |a| - 1;
    if i == last {
      assert a[i := x][..last] == a[..last];
    } else {
      assert a[i := x][..last] == a[..last][i := x];
      SumOfSquaresUpdate(a[..last], i, x);
    }
  }

  lemma {:induction false} PairEnergy(x: real, y: real, c: real)
    requires 2.0 * c * c == 1.0
    ensures var (s, d) := (ScaledSum(x, y, c), ScaledDifference(x, y, c)); s * s + d * d == x * x + y * y
  {
    var s, d := c * (x + y), c * (x - y);
    assert s * s == c * c * ((x + y) * (x + y));
    assert d * d == c * c * ((x - y) * (x - y));
    assert (x + y) * (x + y) + (x - y) * (x - y) == 2.0 * (x * x + y * y);
    assert s * s + d * d == c * c * (2.0 * (x * x + y * y));
  }

  lemma {:induction false} ButterflyEnergy(a: seq<real>, i: nat, j: nat, c: real)
    requires i < |a| && j < |a| && i != j && 2.0 * c * c == 1.0
    ensures SumOfSquares(Butterfly(a, i, j, c)) == SumOfSquares(a)
  {
    hide SumOfSquares, ScaledSum, ScaledDifference;
    var s, d := ScaledSum(a[i], a[j], c), ScaledDifference(a[i], a[j], c);
    var half := a[i := s];
    assert half[j] == a[j];
    assert Butterfly(a, i, j, c) == half[j := d];
    SumOfSquaresUpdate(a, i, s);
    SumOfSquaresUpdate(half, j, d);
    PairEnergy(a[i], a[j], c);
  }

  /** Every prefix of a sweep keeps the energy. */
  lemma {:induction false} SweepEnergy(a: seq<real>, sx: nat, sy: nat, d: nat, cols: nat, n: nat, c: real)
    requires sx > 0 && sy > 0 && cols > 0 && d > 0 && n <= |a| && 2.0 * c * c == 1.0
    ensures SumOfSquares(Sweep(a, sx, sy, d, cols, n, c)) == SumOfSquares(a)
    decreases n
  {
    hide OnGrid, SumOfSquares, Butterfly;
    if n > 0 {
      SweepEnergy(a, sx, sy, d, cols, n - 1, c);
      if n - 1 + d < |a| {
        ButterflyEnergy(Sweep(a, sx, sy, d, cols, n - 1, c), n - 1, n - 1 + d, c);
      }
    }
  }

  // ---------------------------------------------------------------- runs of passes

  function Reverse(passes: seq<Pass>): (r: seq<Pass>)
    ensures forall pass :: pass in r <==> pass in passes
  {
    if passes == [] then [] else Reverse(passes[1..]) + [passes[0]]
  }

  predicate AllFit(passes: seq<Pass>, rows: nat, cols: nat)
    requires Proper(passes)
  {
    forall pass | pass in passes :: Fits(pass, rows, cols)
  }

  lemma {:induction false} RunAppend(a: seq<real>, first: seq<Pass>, second: seq<Pass>, cols: nat, c: real)
    requires Proper(first) && Proper(second) && cols > 0
    ensures RunPasses(a, first + second, cols, c) == RunPasses(RunPasses(a, first, cols, c), second, cols, c)
    decreases |first|
  {
    hide RunPass;
    if first == [] {
      assert first + second == second;
    } else {
      assert (first + second)[1..] == first[1..] + second;
      RunAppend(RunPass(a, first[0], cols, c), first[1..], second, cols, c);
    }
  }

  /** Running passes and then the same passes in reverse order restores the buffer. */
  lemma {:induction false} RunReversed(a: seq<real>, passes: seq<Pass>, rows: nat, cols: nat, c: real)
    requires Proper(passes) && AllFit(passes, rows, cols) && cols > 0 && |a| == rows * cols
    requires 2.0 * c * c == 1.0
    ensures RunPasses(RunPasses(a, passes, cols, c), Reverse(passes), cols, c) == a
    decreases |passes|
  {
    hide RunPass, Fits;
    if passes != [] {
      var pass, rest := passes[0], passes[1..];
      var b := RunPass(a, pass, cols, c);
      RunReversed(b, rest, rows, cols, c);
      var done := RunPasses(b, rest, cols, c);
      RunAppend(done, Reverse(rest), [pass], cols, c);
      RunFirst(b, pass, [], cols, c);
      assert [pass] + [] == [pass];
      PassIsSelfInverse(a, pass, rows, cols, c);
    }
  }

  lemma {:induction false} RunEnergy(a: seq<real>, passes: seq<Pass>, cols: nat, c: real)
    requires Proper(passes) && cols > 0 && 2.0 * c * c == 1.0
    ensures SumOfSquares(RunPasses(a, passes, cols, c)) == SumOfSquares(a)
    decreases |passes|
  {
    if passes != [] {
      var pass := passes[0];
      WholeRows(|a|, cols);
      MulAtLeast(cols, pass.step);
      SweepEnergy(a, pass.ColumnStride(), pass.RowStride(), pass.Distance(cols), cols, |a| / cols * cols, c);
      RunEnergy(RunPass(a, pass, cols, c), passes[1..], cols, c);
    }
  }

  // ---------------------------------------------------------------- the whole transform

  lemma {:induction false} PassesFromFit(levels: nat, rows: nat, cols: nat)
    requires rows > 0 && cols > 0
    ensures AllFit(PassesFrom(levels, rows, cols), rows, cols)
  {
    hide TwoPower;
    if levels > 0 {
      PassesFromFit(levels - 1, rows, cols);
      DividesTwoPower(rows, levels);
      DividesTwoPower(cols, levels);
    }
  }

  /** The inverse transform has an inverse: its passes in reverse order. */
  lemma {:induction false} TransformInvertible(a: seq<real>, rows: nat, cols: nat, c: real)
    requires rows > 0 && cols > 0 && |a| == rows * cols && 2.0 * c * c == 1.0
    ensures var passes := InversePasses(rows, cols);
            && RunPasses(RunPasses(a, passes, cols, c), Reverse(passes), cols, c) == a
            && RunPasses(RunPasses(a, Reverse(passes), cols, c), passes, cols, c) == a
  {
    var passes := InversePasses(rows, cols);
    PassesFromFit(Max(TwoPower(rows), TwoPower(cols)), rows, cols);
    RunReversed(a, passes, rows, cols, c);
    RunReversed(a, Reverse(passes), rows, cols, c);
    ReverseTwice(passes);
  }

  lemma {:induction false} ReverseTwice(passes: seq<Pass>)
    ensures Reverse(Reverse(passes)) == passes
  {
    if passes != [] {
      ReverseTwice(passes[1..]);
      ReverseSnoc(Reverse(passes[1..]), passes[0]);
    }
  }

  lemma {:induction false} ReverseSnoc(passes: seq<Pass>, last: Pass)
    ensures Reverse(passes + [last]) == [last] + Reverse(passes)
  {
    if passes == [] {
      assert passes + [last] == [last];
    } else {
      assert (passes + [last])[1..] == passes[1..] + [last];
      ReverseSnoc(passes[1..], last);
    }
  }

  /** The transform is orthonormal: the energy of the buffer is unchanged. */
  lemma {:induction false} TransformKeepsEnergy(a: seq<real>, rows: nat, cols: nat, c: real)
    requires cols > 0 && 2.0 * c * c == 1.0
    ensures SumOfSquares(RunPasses(a, InversePasses(rows, cols), cols, c)) == SumOfSquares(a)
  {
    RunEnergy(a, InversePasses(rows, cols), cols, c);
  }

  // ---------------------------------------------------------------- counting levels

  function CountHorizontal(passes: seq<Pass>): nat {
    if passes == [] then 0 else (if passes[0].Horizontal? then 1 else 0) + CountHorizontal(passes[1..])
  }

  lemma {:induction false} CountHorizontalAppend(first: seq<Pass>, second: seq<Pass>)
    ensures CountHorizontal(first + second) == CountHorizontal(first) + CountHorizontal(second)
    decreases |first|
  {
    if first == [] {
      assert first + second == second;
    } else {
      assert (first + second)[1..] == first[1..] + second;
      CountHorizontalAppend(first[1..], second);
    }
  }

  lemma {:induction false} PassesFromCount(levels: nat, rows: nat, cols: nat)
    ensures CountHorizontal(PassesFrom(levels, rows, cols)) == Min(levels, TwoPower(cols))
    ensures |PassesFrom(levels, rows, cols)| == Min(levels, TwoPower(cols)) + Min(levels, TwoPower(rows))
  {
    hide TwoPower;
    if levels > 0 {
      PassesFromCount(levels - 1, rows, cols);
      var step, rest := Pow2(levels - 1), PassesFrom(levels - 1, rows, cols);
      var across := if levels <= TwoPower(cols) then [Horizontal(step)] else [];
      var down := if levels <= TwoPower(rows) then [Vertical(step)] else [];
      CountHorizontalAppend(across + down, rest);
      CountHorizontalAppend(across, down);
    }
  }

  /** One horizontal pass per factor of two in the columns, one vertical pass per factor of two in the rows. */
  lemma {:induction false} LevelCount(rows: nat, cols: nat)
    ensures CountHorizontal(InversePasses(rows, cols)) == TwoPower(cols)
    ensures |InversePasses(rows, cols)| - CountHorizontal(InversePasses(rows, cols)) == TwoPower(rows)
  {
    PassesFromCount(Max(TwoPower(rows), TwoPower(cols)), rows, cols);
  }

  lemma {:induction false} InAppend<T>(x: T, all: seq<T>, has: bool, u: T, hasToo: bool, v: T, rest: seq<T>)
    requires all == (if has then [u] else []) + (if hasToo then [v] else []) + rest
    ensures x in all <==> (has && x == u) || (hasToo && x == v) || x in rest
  {
  }

  lemma {:induction false} PassesFromLevels(levels: nat, rows: nat, cols: nat, k: nat)
    ensures Horizontal(Pow2(k)) in PassesFrom(levels, rows, cols) <==> k < levels && k < TwoPower(cols)
    ensures Vertical(Pow2(k)) in PassesFrom(levels, rows, cols) <==> k < levels && k < TwoPower(rows)
  {
    hide TwoPower, Pow2;
    if levels > 0 {
      PassesFromLevels(levels - 1, rows, cols, k);
      if Pow2(levels - 1) == Pow2(k) {
        Pow2Injective(levels - 1, k);
      }
      var step, rest := Pow2(levels - 1), PassesFrom(levels - 1, rows, cols);
      InAppend(Horizontal(Pow2(k)), PassesFrom(levels, rows, cols), levels <= TwoPower(cols), Horizontal(step),
               levels <= TwoPower(rows), Vertical(step), rest);
      InAppend(Vertical(Pow2(k)), PassesFrom(levels, rows, cols), levels <= TwoPower(cols), Horizontal(step),
               levels <= TwoPower(rows), Vertical(step), rest);
    }
  }

  /** With the counts above: exactly one pass at each step below the dimension's power of two. */
  lemma {:induction false} LevelsPresent(rows: nat, cols: nat, k: nat)
    ensures Horizontal(Pow2(k)) in InversePasses(rows, cols) <==> k < TwoPower(cols)
    ensures Vertical(Pow2(k)) in InversePasses(rows, cols) <==> k < TwoPower(rows)
  {
    PassesFromLevels(Max(TwoPower(rows), TwoPower(cols)), rows, cols, k);
  }
}
