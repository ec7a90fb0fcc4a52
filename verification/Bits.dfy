/** Bits of byte buffers and of fixed-width words, as natural numbers. */
module Bits {

  type byte = b: int | 0 <= b < 256

  /** What a `uint32_t` keeps of a number. */
  function Wrap32(x: int): (r: nat)
    ensures r < 0x1_0000_0000 && (0 <= x < 0x1_0000_0000 ==> r == x)
  {
    x % 0x1_0000_0000
  }

  /** What a `uint64_t` keeps of a number. */
  function Wrap64(x: int): (r: nat)
    ensures r < 0x1_0000_0000_0000_0000 && (0 <= x < 0x1_0000_0000_0000_0000 ==> r == x)
  {
    x % 0x1_0000_0000_0000_0000
  }

  /** What an `int16_t` keeps. */
  function ToInt16(x: int): (r: int)
    ensures -0x8000 <= r < 0x8000
    ensures r == x <==> -0x8000 <= x < 0x8000
  {
    (x + 0x8000) % 0x1_0000 - 0x8000
  }

  /** `(int32_t)` of an unsigned 32-bit value. */
  function ToInt32(x: nat): (r: int)
    ensures x < 0x8000_0000 ==> r == x
  {
    var w := Wrap32(x);
    if w < 0x8000_0000 then w else w - 0x1_0000_0000
  }

  /** What a machine word keeps of a number is the one representative of it in the word's range. */
  lemma WordsKeep(x: int, n: nat)
    ensures (Wrap32(x) - x) % 0x1_0000_0000 == 0
    ensures (Wrap64(x) - x) % 0x1_0000_0000_0000_0000 == 0
    ensures (ToInt16(x) - x) % 0x1_0000 == 0
    ensures -0x8000_0000 <= ToInt32(n) < 0x8000_0000 && (ToInt32(n) - n) % 0x1_0000_0000 == 0
  {
    RemainderKeeps(x, 0x1_0000_0000, 0);
    RemainderKeeps(x, 0x1_0000_0000_0000_0000, 0);
    RemainderKeeps(x + 0x8000, 0x1_0000, 0);
    RemainderKeeps(n, 0x1_0000_0000, 0);
    RemainderKeeps(n, 0x1_0000_0000, 1);
  }

  /** A remainder differs from its number by a multiple, and so it does less the modulus. */
  lemma RemainderKeeps(x: int, m: nat, k: nat)
    requires m > 0
    ensures (x % m - k * m - x) % m == 0
  {
    var q := x / m;
    assert x == q * m + x % m;
    assert (0 - q - k) * m == 0 - q * m - k * m;
    DivUnique(x % m - k * m - x, m, 0 - q - k, 0);
  }

  /** Index of the first element from `i` on that satisfies `p`, or -1. */
  function FirstFrom<T>(s: seq<T>, p: T -> bool, i: nat): (r: int)
    requires i <= |s|
    ensures r == -1 || i <= r < |s|
    ensures r == -1 ==> forall k | i <= k < |s| :: !p(s[k])
    ensures r != -1 ==> p(s[r]) && forall k | i <= k < r :: !p(s[k])
    decreases |s| - i
  {
    if i == |s| then -1 else if p(s[i]) then i else FirstFrom(s, p, i + 1)
  }

  function Pow2(n: nat): (p: nat)
    ensures p > 0
  {
    if n == 0 then 1 else 2 * Pow2(n - 1)
  }

  lemma Pow2Small()
    ensures Pow2(0) == 1 && Pow2(1) == 2
  {}

  lemma Pow2Step(n: nat)
    ensures Pow2(n + 1) == 2 * Pow2(n)
  {}

  lemma {:induction false} Pow2Add(m: nat, n: nat)
    ensures Pow2(m + n) == Pow2(m) * Pow2(n)
  {
    hide Pow2;
    Pow2Small();
    if m > 0 {
      Pow2Add(m - 1, n);
      Pow2Step(m - 1);
      Pow2Step(m - 1 + n);
      TwoTimes(Pow2(m - 1), Pow2(n));
    }
  }

  lemma TwoTimes(a: nat, b: nat)
    ensures (2 * a) * b == 2 * (a * b)
  {}

  lemma Pow2Bytes()
    ensures Pow2(8) == 256 && Pow2(16) == 65536 && Pow2(24) == 0x100_0000 && Pow2(32) == 0x1_0000_0000
  {
    assert Pow2(4) == 16;
    Pow2Add(4, 4);
    Pow2Add(8, 8);
    Pow2Add(16, 8);
    Pow2Add(16, 16);
  }

  lemma {:induction false} Pow2Monotone(m: nat, n: nat)
    requires m <= n
    ensures Pow2(m) <= Pow2(n)
  {
    if m < n { Pow2Monotone(m, n - 1); }
  }

  function FloorLog2(n: nat): (l: nat)
    requires n >= 1
    ensures Pow2(l) <= n < 2 * Pow2(l)
  {
    if n == 1 then 0 else FloorLog2(n / 2) + 1
  }

  /** A number written in a fixed number of bits. */
  datatype Field = Field(value: nat, width: nat)

  function WidthOf(fields: seq<Field>): nat {
    if fields == [] then 0 else fields[0].width + WidthOf(fields[1..])
  }

  /** `a | b` on unsigned words. */
  function BitOr(a: nat, b: nat): nat {
    if a == 0 then b
    else if b == 0 then a
    else (if a % 2 == 1 || b % 2 == 1 then 1 else 0) + 2 * BitOr(a / 2, b / 2)
  }

  /** Or-ing `b` into the cleared low `k` bits of `a` is addition. */
  lemma {:induction false} OrIntoClearedBits(a: nat, b: nat, k: nat)
    requires a % Pow2(k) == 0 && b < Pow2(k)
    ensures BitOr(a, b) == a + b
  {
    if k > 0 && a > 0 && b > 0 {
      var q, h := a / Pow2(k), Pow2(k - 1);
      assert a == (2 * h) * q == 2 * (h * q);
      assert a / 2 == h * q;
      MultipleMod(h, q);
      OrIntoClearedBits(a / 2, b / 2, k - 1);
    }
  }

  lemma MultipleMod(d: nat, q: nat)
    requires d > 0
    ensures (d * q) % d == 0 && (d * q) / d == q
  {
    DivUnique(d * q, d, q, 0);
  }

  lemma DivUnique(a: int, d: nat, q: int, r: int)
    requires d > 0 && 0 <= r < d && a == q * d + r
    ensures a / d == q && a % d == r
  {
    var dq := a / d - q;
    assert a == (a / d) * d + a % d;
    assert dq * d == r - a % d;
    MulSign(dq, d);
  }

  lemma Halves(j: nat)
    ensures (2 * j) % 2 == 0 && (2 * j) / 2 == j
    ensures (2 * j + 1) % 2 == 1 && (2 * j + 1 + 1) / 2 == j + 1
  {
    DivUnique(2 * j, 2, j, 0);
    DivUnique(2 * j + 1, 2, j, 1);
    DivUnique(2 * j + 2, 2, j + 1, 0);
  }

  lemma DivBelow(a: nat, d: nat, k: nat)
    requires d > 0 && a < k * d
    ensures a / d < k
  {
    assert a / d * d <= a;
    MulSign(a / d - k, d);
    assert (a / d - k) * d == a / d * d - k * d;
  }

  lemma Doubling(v: nat, p: nat)
    requires p > 0
    ensures v * (2 * p) == 2 * v * p == 2 * (v * p) >= 2 * v
  {
    MulSign(p, v);
  }

  lemma Distribute(a: nat, b: nat, p: nat)
    ensures (a + b) * p == a * p + b * p
  {}

  lemma MulBelow(n: nat, a: nat, b: nat)
    requires n > 0 && a < b
    ensures n * a < n * b
  {
    assert n * (b - a) == n * b - n * a;
    MulSign(b - a, n);
  }

  lemma MulAtMost(n: nat, a: nat, b: nat)
    requires a <= b
    ensures n * a <= n * b
  {
    assert n * (b - a) == n * b - n * a;
  }

  lemma DivNat(x: nat, p: nat)
    requires p > 0
    ensures x / p >= 0
  {}

  lemma Associate(a: nat, b: nat, c: nat)
    ensures a * (b * c) == (a * b) * c
  {}

  lemma MulSign(k: int, d: nat)
    ensures k >= 1 ==> k * d >= d
    ensures k <= -1 ==> k * d + d <= 0
  {
    if k >= 1 { assert (k - 1) * d >= 0; }
    if k <= -1 { assert (k + 1) * d <= 0; }
  }

  lemma SubsetSize<T>(a: set<T>, b: set<T>)
    requires a <= b
    ensures |a| <= |b|
  {
    assert b == a + (b - a);
  }

  lemma Carry(low: nat, p: nat, high: nat, q: nat)
    requires low < p && high < q
    ensures low + p * high < p * q
  {
    assert p * (high + 1) == p * high + p;
    MulAtMost(p, high + 1, q);
  }

  lemma DivTwice(x: nat, p: nat, q: nat)
    requires p > 0 && q > 0
    ensures x / (p * q) == x / p / q
  {
    var y := x / p;
    var h, r, s := y / q, y % q, x % p;
    assert x == y * p + s && y == h * q + r;
    assert x == h * (p * q) + (r * p + s);
    Carry(s, p, r, q);
    DivUnique(x, p * q, h, r * p + s);
  }

  /** Bit `i` of a number, counted from the lowest. */
  predicate TestBit(x: nat, i: nat) {
    if i == 0 then x % 2 == 1 else TestBit(x / 2, i - 1)
  }

  lemma {:induction false} TestBitIs(x: nat, i: nat)
    ensures TestBit(x, i) <==> x / Pow2(i) % 2 == 1
  {
    hide Pow2;
    if i == 0 {
      Pow2Small();
    } else {
      TestBitIs(x / 2, i - 1);
      Pow2Step(i - 1);
      DivTwice(x, 2, Pow2(i - 1));
    }
  }

  /** Bit `i` of a buffer, most significant bit of each byte first; zero past the end. */
  function Bit(data: seq<byte>, i: nat): (b: nat)
    ensures b <= 1
  {
    if i / 8 < |data| then (data[i / 8] / Pow2(7 - i % 8)) % 2 else 0
  }

  /** The `n` bits starting at bit `i`, as a big-endian number. */
  function Window(data: seq<byte>, i: nat, n: nat): nat {
    if n == 0 then 0 else 2 * Window(data, i, n - 1) + Bit(data, i + n - 1)
  }

  lemma WindowNone(data: seq<byte>, i: nat)
    ensures Window(data, i, 0) == 0
  {}

  lemma WindowNext(data: seq<byte>, i: nat, n: nat)
    ensures Window(data, i, n + 1) == 2 * Window(data, i, n) + Bit(data, i + n)
  {}

  lemma {:induction false} WindowBound(data: seq<byte>, i: nat, n: nat)
    ensures Window(data, i, n) < Pow2(n)
  {
    if n > 0 { WindowBound(data, i, n - 1); }
  }

  lemma {:induction false} WindowSplit(data: seq<byte>, i: nat, m: nat, n: nat)
    ensures Window(data, i, m + n) == Window(data, i, m) * Pow2(n) + Window(data, i + m, n)
  {
    hide Bit, Pow2;
    if n == 0 {
      Pow2Small();
    } else {
      WindowSplit(data, i, m, n - 1);
      assert i + (m + n) - 1 == (i + m) + n - 1 && m + n - 1 == m + (n - 1);
      TwiceProduct(Window(data, i, m), n);
    }
  }

  lemma TwiceProduct(w: nat, n: nat)
    requires n > 0
    ensures w * Pow2(n) == 2 * (w * Pow2(n - 1))
  {
    assert Pow2(n) == 2 * Pow2(n - 1);
  }

  lemma WindowFirst(data: seq<byte>, i: nat, n: nat)
    ensures Window(data, i, n + 1) == Bit(data, i) * Pow2(n) + Window(data, i + 1, n)
    ensures Window(data, i, n + 1)
         == if Bit(data, i) == 0 then Window(data, i + 1, n) else Pow2(n) + Window(data, i + 1, n)
  {
    WindowSplit(data, i, 1, n);
    assert Window(data, i, 1) == Bit(data, i);
  }

  /** Past the end every window is zero. */
  lemma {:induction false} WindowPastEnd(data: seq<byte>, i: nat, n: nat)
    requires 8 * |data| <= i
    ensures Window(data, i, n) == 0
  {
    if n > 0 { WindowPastEnd(data, i, n - 1); }
  }

  /** Two buffers that agree on the bits of a window give the same window. */
  lemma {:induction false} WindowSame(a: seq<byte>, b: seq<byte>, i: nat, n: nat)
    requires forall k :: i <= k < i + n ==> Bit(a, k) == Bit(b, k)
    ensures Window(a, i, n) == Window(b, i, n)
  {
    if n > 0 { WindowSame(a, b, i, n - 1); }
  }

  lemma WindowOfPrefix(data: seq<byte>, k: nat, i: nat, n: nat)
    requires k <= |data| && (i + n <= 8 * k || k == |data|)
    ensures Window(data[..k], i, n) == Window(data, i, n)
  {
    if k == |data| {
      assert data[..k] == data;
    } else {
      WindowSame(data[..k], data, i, n);
    }
  }

  lemma WindowByte(data: seq<byte>, k: nat)
    ensures Window(data, 8 * k, 8) == if k < |data| then data[k] else 0
  {
    if k < |data| {
      BytePrefix(data, k, 8);
    } else {
      WindowPastEnd(data, 8 * k, 8);
    }
  }

  /** The first `n` bits of byte `k`. */
  lemma {:induction false} BytePrefix(data: seq<byte>, k: nat, n: nat)
    requires k < |data| && n <= 8
    ensures Window(data, 8 * k, n) == data[k] / Pow2(8 - n)
  {
    hide Pow2, Bit;
    if n == 0 {
      Pow2Bytes();
    } else {
      BytePrefix(data, k, n - 1);
      BitOfByte(data, k, n - 1);
      Pow2Step(8 - n);
      HalveDiv(data[k], Pow2(8 - n));
    }
  }

  lemma BitOfByte(data: seq<byte>, k: nat, j: nat)
    requires k < |data| && j < 8
    ensures Bit(data, 8 * k + j) == data[k] / Pow2(7 - j) % 2
  {
    hide Pow2;
    DivUnique(8 * k + j, 8, k, j);
  }

  lemma HalveDiv(a: nat, p: nat)
    requires p > 0
    ensures a / p == 2 * (a / (2 * p)) + (a / p) % 2
  {
    var q, r := a / p, a % p;
    var h, b := q / 2, q % 2;
    HalveProduct(h, b, p);
    DivUnique(a, 2 * p, h, b * p + r);
  }

  lemma HalveProduct(h: nat, b: nat, p: nat)
    requires b <= 1
    ensures (h * 2 + b) * p == h * (2 * p) + b * p && b * p <= p
  {
    Associate(h, 2, p);
    Distribute(h * 2, b, p);
    if b == 0 { assert b * p == 0; } else { assert b * p == p; }
  }
}
