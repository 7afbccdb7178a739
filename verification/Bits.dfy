/**
 Powers of two, the bitwise AND the wavelet's loop guards use, and
 most-significant-bit-first bit sequences.
 */
module Bits {
  type byte = x: int | 0 <= x < 256
  type bit = x: int | 0 <= x < 2

  function Pow2(n: nat): (p: nat)
    ensures p >= 1
  {
    if n == 0 then 1 else 2 * Pow2(n - 1)
  }

  lemma {:induction false} Pow2Add(m: nat, n: nat)
    ensures Pow2(m + n) == Pow2(m) * Pow2(n)
  {
    if m == 0 {
    } else {
      Pow2Add(m - 1, n);
      assert m - 1 + n == m + n - 1;
      assert 2 * (Pow2(m - 1) * Pow2(n)) == (2 * Pow2(m - 1)) * Pow2(n);
    }
  }

  lemma {:induction false} Pow2Monotone(m: nat, n: nat)
    requires m <= n
    ensures Pow2(m) <= Pow2(n)
  {
    if m < n {
      Pow2Monotone(m, n - 1);
    }
  }

  lemma {:induction false} Pow2Injective(m: nat, n: nat)
    requires Pow2(m) == Pow2(n)
    ensures m == n
  {
    if m < n {
      Pow2Monotone(m + 1, n);
    } else if n < m {
      Pow2Monotone(n + 1, m);
    }
  }

  lemma {:induction false} Pow2EightMore(n: nat, v: nat)
    requires Pow2(n) == v
    ensures Pow2(n + 8) == 256 * v
  {
    assert Pow2(n + 2) == 4 * v;
    assert Pow2(n + 4) == 16 * v;
    assert Pow2(n + 6) == 64 * v;
  }

  /** The sizes of a byte, a u32 and a u64. */
  lemma {:induction false} WordSizes()
    ensures Pow2(8) == 0x100 && Pow2(32) == 0x1_0000_0000 && Pow2(64) == 0x1_0000_0000_0000_0000
  {
    Pow2EightMore(0, 1);
    Pow2EightMore(8, 0x100);
    Pow2EightMore(16, 0x1_0000);
    Pow2EightMore(24, 0x100_0000);
    Pow2EightMore(32, 0x1_0000_0000);
    Pow2EightMore(40, 0x100_0000_0000);
    Pow2EightMore(48, 0x1_0000_0000_0000);
    Pow2EightMore(56, 0x100_0000_0000_0000);
  }

  function Min(a: nat, b: nat): nat {
    if a < b then a else b
  }

  lemma {:induction false} MulAtLeast(k: int, m: nat)
    requires k >= 1
    ensures k * m >= m
  {
  }

  /** Quotient and remainder are determined by any decomposition with a small enough remainder. */
  lemma {:induction false} DivModUnique(x: nat, m: nat, q: int, r: nat)
    requires r < m && x == q * m + r
    ensures x / m == q && x % m == r
  {
    var q', r' := x / m, x % m;
    assert x == q' * m + r';
    assert (q - q') * m == q * m - q' * m == r' - r;
    if q > q' {
      MulAtLeast(q - q', m);
    } else if q < q' {
      assert (q' - q) * m == r - r';
      MulAtLeast(q' - q, m);
    }
  }

  /** Scaling both operands of a remainder scales the remainder. */
  lemma {:induction false} ScaledRemainder(x: nat, m: nat, c: nat)
    requires m > 0 && c > 0
    ensures m * c > 0 && x * c % (m * c) == x % m * c
  {
    var q, r := x / m, x % m;
    assert x == q * m + r;
    Distribute(q * m, r, c);
    assert q * m * c == q * (m * c);
    MulAtLeast(m, c);
    assert r * c < m * c by {
      assert (m - r) * c == m * c - r * c;
      MulAtLeast(m - r, c);
    }
    DivModUnique(x * c, m * c, q, r * c);
  }

  lemma {:induction false} Distribute(a: int, b: int, c: int)
    ensures (a + b) * c == a * c + b * c
  {
  }

  /** A remainder modulo a multiple of m can be reduced modulo m. */
  lemma {:induction false} NestedRemainder(x: nat, m: nat, k: nat)
    requires m > 0 && k > 0
    ensures m * k > 0 && x % (m * k) % m == x % m
  {
    MulAtLeast(k, m);
    var q, y := x / (m * k), x % (m * k);
    assert x == q * (m * k) + y;
    var q', r := y / m, y % m;
    assert y == q' * m + r;
    assert q * (m * k) == (q * k) * m;
    Distribute(q * k, q', m);
    DivModUnique(x, m, q * k + q', r);
  }

  /** Bitwise AND of two unsigned integers. */
  function BitAnd(a: nat, b: nat): nat
    decreases a
  {
    if a == 0 || b == 0 then 0 else 2 * BitAnd(a / 2, b / 2) + (if a % 2 == 1 && b % 2 == 1 then 1 else 0)
  }

  lemma {:induction false} RemainderOfDouble(n: nat, p: nat)
    requires p > 0
    ensures n % (2 * p) == 2 * (n / 2 % p) + n % 2
  {
    var q, r := n / 2 / p, n / 2 % p;
    assert n / 2 == q * p + r;
    assert q * (2 * p) == 2 * (q * p);
    DivModUnique(n, 2 * p, q, 2 * r + n % 2);
  }

  /** ANDing with a mask of k ones keeps the remainder modulo 2^k. */
  lemma {:induction false} MaskIsRemainder(n: nat, k: nat)
    ensures BitAnd(n, Pow2(k) - 1) == n % Pow2(k)
    decreases k
  {
    if k == 0 {
    } else if n == 0 {
      DivModUnique(0, Pow2(k), 0, 0);
    } else {
      var p := Pow2(k - 1);
      MaskIsRemainder(n / 2, k - 1);
      WiderMask(n, p);
    }
  }

  lemma {:induction false} WiderMask(n: nat, p: nat)
    requires n > 0 && p > 0 && BitAnd(n / 2, p - 1) == n / 2 % p
    ensures BitAnd(n, 2 * p - 1) == n % (2 * p)
  {
    RemainderOfDouble(n, p);
    assert (2 * p - 1) / 2 == p - 1;
  }

  /** The value of a bit string, first bit most significant. */
  function ValueOf(bits: seq<bit>): nat
  {
    if bits == [] then 0 else 2 * ValueOf(bits[..|bits| - 1]) + bits[|bits| - 1]
  }

  /** The `width` low bits of `v`, most significant first. */
  function BitsOfValue(v: nat, width: nat): (bits: seq<bit>)
    ensures |bits| == width
    decreases width, v
  {
    if width == 0 then [] else BitsOfValue(v / 2, width - 1) + [v % 2]
  }

  lemma {:induction false} ValueOfBits(v: nat, width: nat)
    requires v < Pow2(width)
    ensures ValueOf(BitsOfValue(v, width)) == v
    decreases width
  {
    if width > 0 {
      ValueOfBits(v / 2, width - 1);
      var bits := BitsOfValue(v, width);
      assert bits[..|bits| - 1] == BitsOfValue(v / 2, width - 1);
    }
  }

  lemma {:induction false} BitsOfValueOf(bits: seq<bit>)
    ensures BitsOfValue(ValueOf(bits), |bits|) == bits
  {
    if bits != [] {
      BitsOfValueOf(bits[..|bits| - 1]);
    }
  }

  lemma {:induction false} ValueOfBound(bits: seq<bit>)
    ensures ValueOf(bits) < Pow2(|bits|)
  {
    if bits != [] {
      ValueOfBound(bits[..|bits| - 1]);
    }
  }

  lemma {:induction false} ValueOfAppend(a: seq<bit>, b: seq<bit>)
    ensures ValueOf(a + b) == ValueOf(a) * Pow2(|b|) + ValueOf(b)
    decreases |b|
  {
    if b == [] {
      assert a + b == a;
    } else {
      var b' := b[..|b| - 1];
      ValueOfAppend(a, b');
      assert (a + b)[..|a + b| - 1] == a + b';
      assert 2 * (ValueOf(a) * Pow2(|b'|)) == ValueOf(a) * (2 * Pow2(|b'|));
    }
  }

  /** A byte string as bits, most significant bit of each byte first. */
  function BitsOf(data: seq<byte>): (bits: seq<bit>)
    ensures |bits| == 8 * |data|
  {
    if data == [] then [] else BitsOf(data[..|data| - 1]) + BitsOfValue(data[|data| - 1], 8)
  }

  lemma {:induction false} BitsOfPrefix(data: seq<byte>, k: nat)
    requires k <= |data|
    ensures BitsOf(data)[..8 * k] == BitsOf(data[..k])
    decreases |data|
  {
    if k == |data| {
      assert data[..k] == data;
    } else {
      var init := data[..|data| - 1];
      BitsOfPrefix(init, k);
      assert init[..k] == data[..k];
      assert BitsOf(data)[..8 * k] == BitsOf(init)[..8 * k];
    }
  }

  lemma {:induction false} SliceAfterPrefix<T>(all: seq<T>, before: seq<T>, middle: seq<T>)
    requires |before + middle| <= |all| && all[..|before + middle|] == before + middle
    ensures all[|before|..|before| + |middle|] == middle
  {
    assert all[|before|..|before| + |middle|] == all[..|before + middle|][|before|..];
  }

  lemma {:induction false} BitsOfSnoc(data: seq<byte>, b: byte)
    ensures BitsOf(data + [b]) == BitsOf(data) + BitsOfValue(b, 8)
  {
    assert (data + [b])[..|data|] == data;
  }

  lemma {:induction false} BitsOfPrefixSnoc(data: seq<byte>, k: nat)
    requires k < |data|
    ensures BitsOf(data)[..8 * k + 8] == BitsOf(data[..k]) + BitsOfValue(data[k], 8)
  {
    BitsOfPrefix(data, k + 1);
    BitsOfSnoc(data[..k], data[k]);
    assert data[..k + 1] == data[..k] + [data[k]];
  }

  /** Eight consecutive bits starting on a byte boundary are that byte. */
  lemma {:induction false} BitsOfByte(data: seq<byte>, k: nat)
    requires k < |data|
    ensures BitsOf(data)[8 * k..8 * k + 8] == BitsOfValue(data[k], 8)
  {
    BitsOfPrefixSnoc(data, k);
    SliceAfterPrefix(BitsOf(data), BitsOf(data[..k]), BitsOfValue(data[k], 8));
  }

  /** Bit `j` of a byte counts from its most significant bit. */
  lemma {:induction false} BitsMostSignificantFirst(data: seq<byte>, k: nat, j: nat)
    requires k < |data| && j < 8
    ensures BitsOf(data)[8 * k + j] == data[k] / Pow2(7 - j) % 2
  {
    BitsOfByte(data, k);
    assert BitsOf(data)[8 * k + j] == BitsOf(data)[8 * k..8 * k + 8][j];
    BitOfValue(data[k], 8, j);
  }

  lemma {:induction false} BitOfValue(v: nat, width: nat, j: nat)
    requires j < width
    ensures BitsOfValue(v, width)[j] == v / Pow2(width - 1 - j) % 2
    decreases width
  {
    if j == width - 1 {
      assert Pow2(0) == 1;
    } else {
      BitOfValue(v / 2, width - 1, j);
      HalfThenDivide(v, Pow2(width - 2 - j));
    }
  }

  lemma {:induction false} HalfThenDivide(v: nat, p: nat)
    requires p > 0
    ensures v / (2 * p) == v / 2 / p
  {
    var q, r := v / 2 / p, v / 2 % p;
    assert v / 2 == q * p + r;
    assert q * (2 * p) == 2 * (q * p);
    DivModUnique(v, 2 * p, q, 2 * r + v % 2);
  }

  lemma {:induction false} ByteValue(b: byte)
    ensures ValueOf(BitsOfValue(b, 8)) == b && Pow2(8) == 256
  {
    WordSizes();
    ValueOfBits(b, 8);
  }

  /** Bytes holding the given bits: the inverse of `BitsOf`. */
  function PackBits(bits: seq<bit>): (data: seq<byte>)
    requires |bits| % 8 == 0
  {
    if bits == [] then []
    else
      ByteOfEightBits(bits[|bits| - 8..]);
      PackBits(bits[..|bits| - 8]) + [ValueOf(bits[|bits| - 8..])]
  }

  lemma {:induction false} ByteOfEightBits(bits: seq<bit>)
    requires |bits| == 8
    ensures ValueOf(bits) < 256
  {
    WordSizes();
    ValueOfBound(bits);
  }

  lemma {:induction false} BitsOfPacked(bits: seq<bit>)
    requires |bits| % 8 == 0
    ensures BitsOf(PackBits(bits)) == bits
  {
    if bits != [] {
      var init, last := bits[..|bits| - 8], bits[|bits| - 8..];
      BitsOfPacked(init);
      BitsOfValueOf(last);
      ByteOfEightBits(last);
      BitsOfSnoc(PackBits(init), ValueOf(last));
      assert init + last == bits;
    }
  }
}
