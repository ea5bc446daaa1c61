/** Unsigned machine words and the bitwise operators the pixel code uses.
    `ulong` in the image code is a 32-bit unsigned long; `&`, `|`, `<<` and `>>` are
    defined here on natural numbers, bit by bit, and the lemmas turn the mask and shift
    shapes that occur in the pixel code into plain division and remainder. */
module Bits {

  const WordLimit: int := 0x1_0000_0000

  /** A 32-bit `ulong`. */
  type Word = x: int | 0 <= x < 0x1_0000_0000

  /** An 8-bit `uchar`. */
  type Byte = x: int | 0 <= x < 0x100

  function Pow2(k: nat): (r: nat)
    ensures r >= 1
  {
    if k == 0 then 1 else 2 * Pow2(k - 1)
  }

  /** `x & y` on unsigned values. */
  function And(x: nat, y: nat): nat
    decreases x
  {
    if x == 0 || y == 0 then 0
    else 2 * And(x / 2, y / 2) + (if x % 2 == 1 && y % 2 == 1 then 1 else 0)
  }

  /** `x | y` on unsigned values. */
  function Or(x: nat, y: nat): nat
    decreases x
  {
    if x == 0 then y
    else if y == 0 then x
    else 2 * Or(x / 2, y / 2) + (if x % 2 == 1 || y % 2 == 1 then 1 else 0)
  }

  /** `x * y` on unsigned values, below any word limit. */
  function Mul(x: nat, y: nat): nat
  {
    MulNonneg(x, y);
    x * y
  }

  /** `x | y` on two 32-bit values. */
  function Or32(x: Word, y: Word): Word
  {
    Pow2Values();
    OrBound(x, y, 32, WordLimit);
    Or(x, y)
  }

  /** `x & m` with a 32-bit mask. */
  function And32(x: nat, m: Word): (r: Word)
    ensures r <= x && r <= m
  {
    AndBound(x, m);
    And(x, m)
  }

  /** `x >> k` on an unsigned value. */
  function Shr(x: nat, k: nat): nat
  {
    DivNonneg(x, Pow2(k));
    x / Pow2(k)
  }

  /** `x << k` on a 32-bit unsigned value: the bits shifted past bit 31 are lost. */
  function Shl(x: nat, k: nat): Word
  {
    (x * Pow2(k)) % WordLimit
  }

  lemma Pow2Values()
    ensures Pow2(8) == 0x100 && Pow2(16) == 0x1_0000 && Pow2(24) == 0x100_0000 && Pow2(32) == WordLimit
  {
    assert Pow2(4) == 16;
    assert Pow2(8) == 256;
    assert Pow2(16) == Pow2(8) * Pow2(8) by { Pow2Add(8, 8); }
    assert Pow2(24) == Pow2(16) * Pow2(8) by { Pow2Add(16, 8); }
    assert Pow2(32) == Pow2(16) * Pow2(16) by { Pow2Add(16, 16); }
  }

  lemma {:induction false} Pow2Add(a: nat, b: nat)
    ensures Pow2(a + b) == Pow2(a) * Pow2(b)
  {
    if a > 0 {
      Pow2Add(a - 1, b);
    }
  }

  lemma {:induction false} Pow2Monotone(a: nat, b: nat)
    requires a <= b
    ensures Pow2(a) <= Pow2(b)
  {
    if a < b {
      Pow2Monotone(a, b - 1);
    }
  }

  /** `(k * m) / (d * m) == k / d`: a common factor cancels. */
  lemma DivCancel(k: nat, d: nat, m: nat)
    requires d > 0 && m > 0
    ensures (k * m) / (d * m) == k / d
  {
    var q, r := k / d, k % d;
    assert k == d * q + r;
    assert k * m == (d * q) * m + r * m by { assert (d * q + r) * m == (d * q) * m + r * m; }
    assert (d * q) * m == (d * m) * q;
    assert r * m < d * m by { MulAtMost(r + 1, d, m); }
    MulNonneg(r, m);
    DivModUnique(k * m, d * m, q, r * m);
  }

  /** Division and remainder are determined by a quotient and a remainder in range. */
  lemma MulNonneg(a: int, b: int)
    requires a >= 0 && b >= 0
    ensures a * b >= 0
  {
  }

  /** MulNonneg without a precondition, for use on a hypothesis. */
  lemma MulSign(a: int, b: int)
    ensures a >= 0 && b >= 0 ==> a * b >= 0
  {
  }

  lemma DivNonneg(x: int, d: int)
    requires x >= 0 && d > 0
    ensures x / d >= 0
  {
    var q := x / d;
    assert x == d * q + x % d;
    MulSign(d, -q - 1);
  }

  lemma DivModUnique(x: int, d: int, q: int, r: int)
    requires d > 0 && 0 <= r < d && x == d * q + r
    ensures x / d == q && x % d == r
  {
    var q', r' := x / d, x % d;
    assert x == d * q' + r';
    MulSign(d, q' - q - 1);
    MulSign(d, q - q' - 1);
  }

  /** A quotient is at most m when the dividend is below d * (m + 1). */
  lemma DivAtMost(x: int, d: int, m: int)
    requires d > 0 && x >= 0 && x < d * (m + 1)
    ensures x / d <= m
  {
    var q := x / d;
    assert x == d * q + x % d;
    MulSign(d, q - m - 1);
  }

  /** A quotient is at least m when the dividend is at least d * m. */
  lemma DivAtLeast(x: int, d: int, m: int)
    requires d > 0 && d * m <= x
    ensures m <= x / d
  {
    var q := x / d;
    assert x == d * q + x % d;
    MulSign(d, m - q - 1);
  }

  lemma DivDiv(x: nat, a: nat, b: nat)
    requires a > 0 && b > 0
    ensures x / a / b == x / (a * b)
  {
    var q1, r1 := x / a, x % a;
    var q, r2 := q1 / b, q1 % b;
    assert x == a * q1 + r1;
    assert q1 == b * q + r2;
    assert a * q1 == a * (b * q) + a * r2 by { assert a * (b * q + r2) == a * (b * q) + a * r2; }
    assert a * (b * q) == (a * b) * q;
    assert a * r2 <= a * (b - 1) by { MulNonneg(a, b - 1 - r2); }
    assert a * (b - 1) + a == a * b;
    MulNonneg(a, r2);
    DivModUnique(x, a * b, q, a * r2 + r1);
  }

  lemma HalfMod(x: nat, m: nat)
    requires m > 0
    ensures 2 * ((x / 2) % m) + x % 2 == x % (2 * m)
  {
    var t := (x / 2) / m;
    var r := 2 * ((x / 2) % m) + x % 2;
    assert x / 2 == m * t + (x / 2) % m;
    assert x == 2 * (x / 2) + x % 2;
    assert x == (2 * m) * t + r;
    DivModUnique(x, 2 * m, t, r);
  }

  lemma MulAtMost(a: int, b: int, c: int)
    requires 0 <= a <= b && 0 <= c
    ensures a * c <= b * c
  {
    MulNonneg(b - a, c);
    assert (b - a) * c == b * c - a * c;
  }

  lemma Scaled(a: int, c: int, b: int)
    ensures a * c * b == (a * b) * c
  {
  }

  lemma Twice(e: int, p: int)
    ensures 2 * (e * p) == e * (2 * p)
  {
  }

  lemma AndOdd(x: nat, p: nat)
    requires x > 0 && p > 0
    ensures And(x, 2 * p - 1) == 2 * And(x / 2, p - 1) + x % 2
  {
    assert (2 * p - 1) / 2 == p - 1;
  }

  lemma AndEven(x: nat, q: nat)
    requires x > 0 && q > 0
    ensures And(x, 2 * q) == 2 * And(x / 2, q)
  {
    assert (2 * q) / 2 == q && (2 * q) % 2 == 0;
  }

  /** Masking with `m - 1`, m = 2^k, keeps the low k bits. */
  lemma {:induction false} AndLowMask(x: nat, k: nat, m: nat)
    requires m == Pow2(k)
    ensures And(x, m - 1) == x % m
  {
    if k > 0 && x > 0 {
      var p := Pow2(k - 1);
      assert m == 2 * p;
      AndOdd(x, p);
      AndLowMask(x / 2, k - 1, p);
      HalfMod(x, p);
    } else if k == 0 {
      DivModUnique(x, 1, x, 0);
    } else {
      DivModUnique(0, m, 0, 0);
    }
  }

  /** Masking with a contiguous field of w bits at bit s, `(pw - 1) * ps` with pw = 2^w and
      ps = 2^s, extracts that field in place. */
  lemma {:induction false} AndFieldMask(x: nat, s: nat, ps: nat, w: nat, pw: nat)
    requires ps == Pow2(s) && pw == Pow2(w)
    ensures And(x, (pw - 1) * ps) == (x / ps) % pw * ps
  {
    var f := pw - 1;
    if s == 0 {
      assert ps == 1 && f * ps == f;
      DivModUnique(x, 1, x, 0);
      AndLowMask(x, w, pw);
    } else if x == 0 {
      DivModUnique(0, ps, 0, 0);
      DivModUnique(0, pw, 0, 0);
    } else if f == 0 {
      assert pw == 1 && f * ps == 0;
      DivModUnique(x / ps, 1, x / ps, 0);
    } else {
      var p := Pow2(s - 1);
      assert ps == 2 * p;
      assert f * ps == 2 * (f * p);
      AndEven(x, f * p);
      AndFieldMask(x / 2, s - 1, p, w, pw);
      DivDiv(x, 2, p);
      var q := x / ps;
      assert x / 2 / p == q;
      var e := q % pw;
      assert And(x / 2, f * p) == e * p;
      assert And(x, f * ps) == 2 * (e * p);
      Twice(e, p);
    }
  }

  lemma {:induction false} AndBound(x: nat, y: nat)
    ensures And(x, y) <= x && And(x, y) <= y
  {
    if x > 0 && y > 0 {
      AndBound(x / 2, y / 2);
    }
  }

  lemma {:induction false} OrBound(x: nat, y: nat, k: nat, m: nat)
    requires m == Pow2(k) && x < m && y < m
    ensures Or(x, y) < m
  {
    if x > 0 && y > 0 {
      var p := Pow2(k - 1);
      assert m == 2 * p;
      OrBound(x / 2, y / 2, k - 1, p);
    }
  }

  /** Or-ing a value into zero bits is addition, in either order. */
  lemma {:induction false} OrDisjoint(hi: nat, lo: nat, k: nat, m: nat)
    requires m == Pow2(k) && hi % m == 0 && lo < m
    ensures Or(hi, lo) == hi + lo && Or(lo, hi) == hi + lo
  {
    if k > 0 && hi > 0 && lo > 0 {
      var p := Pow2(k - 1);
      assert m == 2 * p;
      var t := hi / m;
      assert hi == m * t;
      assert hi == 2 * (p * t);
      DivModUnique(hi, 2, p * t, 0);
      DivModUnique(hi / 2, p, t, 0);
      OrDisjoint(hi / 2, lo / 2, k - 1, p);
    }
  }

  /** The packed value a*m + lo, m = 2^k, split back into its two parts. */
  lemma SplitAt(a: nat, lo: nat, m: nat)
    requires m > 0 && lo < m
    ensures (a * m + lo) / m == a && (a * m + lo) % m == lo
    ensures (a * m) % m == 0 && (a * m) / m == a
  {
    DivModUnique(a * m + lo, m, a, lo);
    DivModUnique(a * m, m, a, 0);
  }

  lemma OrHalf(x: nat, y: nat)
    ensures Or(x, y) / 2 == Or(x / 2, y / 2)
    ensures Or(x, y) % 2 == (if x % 2 == 1 || y % 2 == 1 then 1 else 0)
  {
  }

  lemma {:induction false} OrAssoc(x: nat, y: nat, z: nat)
    ensures Or(Or(x, y), z) == Or(x, Or(y, z))
    decreases x + y + z
  {
    if x > 0 && y > 0 && z > 0 {
      var l, r := Or(Or(x, y), z), Or(x, Or(y, z));
      OrHalf(x, y);
      OrHalf(y, z);
      OrHalf(Or(x, y), z);
      OrHalf(x, Or(y, z));
      OrAssoc(x / 2, y / 2, z / 2);
      assert l / 2 == r / 2 && l % 2 == r % 2;
    }
  }
}
