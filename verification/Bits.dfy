/** Powers of two, right shifts and cyclic positions. */
module Bits {
  function Pow2(n: nat): (r: nat)
    ensures r >= 1
  {
    if n == 0 then 1 else 2 * Pow2(n - 1)
  }

  // h >> n
  function Shr(h: nat, n: nat): nat
    decreases n
  {
    if n == 0 then h else Shr(h / 2, n - 1)
  }

  lemma {:induction false} Pow2Add(a: nat, b: nat)
    ensures Pow2(a + b) == Pow2(a) * Pow2(b)
  {
    if a != 0 {
      Pow2Add(a - 1, b);
      calc {
        Pow2(a + b);
        2 * Pow2(a - 1 + b);
        2 * (Pow2(a - 1) * Pow2(b));
        Pow2(a) * Pow2(b);
      }
    }
  }

  lemma {:induction false} Pow2Monotone(a: nat, b: nat)
    requires a <= b
    ensures Pow2(a) <= Pow2(b)
    decreases b
  {
    if a < b { Pow2Monotone(a, b - 1); }
  }

  lemma {:induction false} ShrShr(h: nat, a: nat, b: nat)
    ensures Shr(Shr(h, a), b) == Shr(h, a + b)
    decreases a
  {
    if a != 0 { ShrShr(h / 2, a - 1, b); }
  }

  lemma ShrLast(h: nat, n: nat)
    ensures Shr(h, n + 1) == Shr(h, n) / 2
  {
    ShrShr(h, n, 1);
    assert Shr(Shr(h, n), 1) == Shr(Shr(h, n) / 2, 0);
  }

  // The numbers with the same upper bits fill one aligned block.
  lemma {:induction false} ShrBlock(h: nat, n: nat, p: nat)
    ensures Shr(h, n) == p <==> p * Pow2(n) <= h < (p + 1) * Pow2(n)
    decreases n
  {
    if n != 0 {
      ShrBlock(h / 2, n - 1, p);
      var q := Pow2(n - 1);
      assert Pow2(n) == 2 * q;
      hide Pow2;
      DoubleBlock(h, p, q);
    }
  }

  lemma DoubleBlock(h: nat, p: nat, q: nat)
    ensures p * q <= h / 2 < (p + 1) * q <==> p * (2 * q) <= h < (p + 1) * (2 * q)
  {
    assert p * (2 * q) == 2 * (p * q) && (p + 1) * (2 * q) == 2 * ((p + 1) * q);
  }

  lemma QuotientBounds(x: int, n: int)
    requires n > 0
    ensures (x / n) * n <= x < (x / n + 1) * n
    ensures x - x % n == (x / n) * n
  {
    assert x == (x / n) * n + x % n;
    assert (x / n + 1) * n == (x / n) * n + n;
  }

  lemma {:induction false} ShrBound(h: nat, n: nat, m: nat)
    requires h < Pow2(m + n)
    ensures Shr(h, n) < Pow2(m)
    decreases n
  {
    if n != 0 { ShrBound(h / 2, n - 1, m); }
  }

  lemma MulSign(d: int, n: int)
    requires n > 0
    ensures d >= 1 ==> d * n >= n
    ensures d <= -1 ==> d * n <= -n
  {
    if d >= 1 {
      assert d * n == (d - 1) * n + n;
    } else if d <= -1 {
      assert d * n == (d + 1) * n - n;
    }
  }

  lemma ModUnique(x: int, n: int, q: int, r: int)
    requires n > 0 && x == q * n + r && 0 <= r < n
    ensures x % n == r && x / n == q
  {
    var d := x / n - q;
    assert d * n == (x / n) * n - q * n;
    QuotientBounds(x, n);
    MulSign(d, n);
    assert d * n == r - x % n;
  }

  lemma ShrIsDivision(h: nat, n: nat)
    ensures Shr(h, n) == h / Pow2(n)
    ensures h - h % Pow2(n) == Shr(h, n) * Pow2(n)
  {
    hide Shr, Pow2;
    ShrBlock(h, n, Shr(h, n));
    BlockQuotient(h, Pow2(n), Shr(h, n));
  }

  lemma BlockQuotient(h: nat, m: nat, q: nat)
    requires q * m <= h < (q + 1) * m
    ensures m > 0 && h / m == q && h - h % m == q * m
  {
    assert (q + 1) * m == q * m + m;
    ModUnique(h, m, q, h - q * m);
  }

  lemma ModSum(a: nat, b: nat, c: nat, m: nat)
    requires m > 0 && a % m == b % m
    ensures (a + c) % m == (b + c) % m
  {
    var q, r := a / m - b / m, (b + c) / m;
    QuotientBounds(a, m);
    QuotientBounds(b, m);
    QuotientBounds(b + c, m);
    assert (q + r) * m == (a / m) * m - (b / m) * m + r * m;
    ModUnique(a + c, m, q + r, (b + c) % m);
  }

  // The slot looked at by step i of a cyclic scan.
  function Slot(start: nat, i: nat, n: nat): (r: nat)
    requires n > 0
    ensures r < n
  {
    (start + i) % n
  }

  // The probe step that reaches slot j when the scan starts at `start`.
  function StepTo(start: nat, j: nat, n: nat): (k: nat)
    requires j < n
    ensures k < n
  {
    (j + n - start % n) % n
  }

  lemma StepToReaches(start: nat, j: nat, n: nat)
    requires j < n
    ensures Slot(start, StepTo(start, j, n), n) == j
  {
    var s := start % n;
    var q := start / n;
    assert start == q * n + s;
    if s <= j {
      ModUnique(j + n - s, n, 1, j - s);
      ModUnique(start + (j - s), n, q, j);
    } else {
      ModUnique(j + n - s, n, 0, j + n - s);
      assert (q + 1) * n == q * n + n;
      ModUnique(start + (j + n - s), n, q + 1, j);
    }
  }

  // 64-bit arithmetic is modulo 2^64.
  const WORD: nat := 0x1_0000_0000_0000_0000

  lemma Pow2Of8()
    ensures Pow2(8) == 256
  {}

  lemma Pow2Twice(n: nat, m: nat, p: nat, q: nat)
    requires Pow2(n) == p && m == n + n && q == p * p
    ensures Pow2(m) == q
  {
    Pow2Add(n, n);
  }

  lemma Pow2Of64()
    ensures Pow2(64) == WORD
  {
    Pow2Of8();
    hide Pow2;
    Pow2Twice(8, 16, 256, 0x1_0000);
    Pow2Twice(16, 32, 0x1_0000, 0x1_0000_0000);
    Pow2Twice(32, 64, 0x1_0000_0000, WORD);
  }

  lemma ModMod(x: nat, m: nat, cap: nat)
    requires cap > 0 && m > 0 && m % cap == 0
    ensures x % m % cap == x % cap
  {
    var a, b, c := x / m, m / cap, (x % m) / cap;
    QuotientBounds(x, m);
    QuotientBounds(x % m, cap);
    assert m == b * cap by { QuotientBounds(m, cap); }
    assert a * m == (a * b) * cap;
    assert (a * b + c) * cap == (a * b) * cap + c * cap;
    ModUnique(x, cap, a * b + c, x % m % cap);
  }

  // Reducing modulo 2^64 first does not change the lower n bits.
  lemma LowBits(x: nat, n: nat)
    requires n <= 64
    ensures x % WORD % Pow2(n) == x % Pow2(n)
  {
    Pow2Of64();
    Pow2Add(64 - n, n);
    ModUnique(WORD, Pow2(n), Pow2(64 - n), 0);
    ModMod(x, WORD, Pow2(n));
  }

  lemma BlockEnd(p: nat, n: nat, g: nat)
    requires p < n
    ensures (p + 1) * g <= n * g
    ensures (p + 1) * g == p * g + g
  {
    assert n * g == (p + 1) * g + (n - p - 1) * g;
  }

  // The aligned block of x ends within the first 2^d numbers.
  lemma BlockInside(x: nat, n: nat, d: nat)
    requires 1 <= n <= d && x < Pow2(d)
    ensures 0 <= x - x % Pow2(n) && x - x % Pow2(n) + Pow2(n) <= Pow2(d)
  {
    hide Shr, Pow2;
    ShrIsDivision(x, n);
    ShrBound(x, n, d - n);
    Pow2Add(d - n, n);
    BlockEnd(Shr(x, n), Pow2(d - n), Pow2(n));
    MulSign(Shr(x, n), Pow2(n));
  }

  // Its two halves, as ranges.
  lemma HalfBlocks(x: nat, n: nat, i: nat)
    requires 1 <= n
    ensures var loc, half := x - x % Pow2(n), Pow2(n) / 2;
            && (Shr(i, n - 1) == 2 * Shr(x, n) <==> loc <= i < loc + half)
            && (Shr(i, n - 1) == 2 * Shr(x, n) + 1 <==> loc + half <= i < loc + half + half)
  {
    HalfPow2(n);
    hide Shr, Pow2;
    var p, q := Shr(x, n), Pow2(n - 1);
    ShrIsDivision(x, n);
    ShrBlock(i, n - 1, 2 * p);
    ShrBlock(i, n - 1, 2 * p + 1);
    HalfRanges(i, p, q);
  }

  lemma HalfPow2(n: nat)
    requires n >= 1
    ensures Pow2(n) == 2 * Pow2(n - 1) && Pow2(n) / 2 == Pow2(n - 1)
  {}

  lemma HalfRanges(i: nat, p: nat, q: nat)
    ensures (2 * p) * q <= i < (2 * p + 1) * q <==> p * (2 * q) <= i < p * (2 * q) + q
    ensures (2 * p + 1) * q <= i < (2 * p + 1 + 1) * q <==> p * (2 * q) + q <= i < p * (2 * q) + q + q
  {
    HalfProducts(p, q);
  }

  lemma HalfProducts(p: nat, q: nat)
    ensures (2 * p) * q == p * (2 * q)
    ensures (2 * p + 1) * q == p * (2 * q) + q
    ensures (2 * p + 2) * q == p * (2 * q) + 2 * q
  {}
}
