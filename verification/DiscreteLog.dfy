/**
  discrete_log (bench/utils.h): the discrete logarithm to base G in the group of the numbers
  1 + 4k modulo 4P, where P = 2^n.  Elements are represented by k modulo P.
*/
module DiscreteLog {
  import opened Bits

  // Every base has an odd (G - 1) / 4, which is all the proof uses.
  predicate GoodBase(g: nat) {
    g % 8 == 5
  }

  // POWER_TO_G[power - 10]
  function Base(power: nat): (g: nat)
    requires 10 <= power <= 55
    ensures GoodBase(g)
  {
    match power
    case 10 => 29
    case 11 => 29
    case 12 => 53
    case 13 => 53
    case 14 => 117
    case 15 => 125
    case 16 => 229
    case 17 => 221
    case 18 => 469
    case 19 => 517
    case 20 => 589
    case 21 => 861
    case 22 => 1189
    case 23 => 1653
    case 24 => 2333
    case 25 => 3381
    case 26 => 4629
    case 27 => 6565
    case 28 => 9293
    case 29 => 13093
    case 30 => 18509
    case 31 => 26253
    case 32 => 37117
    case 33 => 52317
    case 34 => 74101
    case 35 => 104581
    case 36 => 147973
    case 37 => 209173
    case 38 => 296029
    case 39 => 418341
    case 40 => 91733
    case 41 => 836661
    case 42 => 1183221
    case 43 => 1673485
    case 44 => 2366509
    case 45 => 3346853
    case 46 => 4732789
    case 47 => 6693237
    case 48 => 9465541
    case 49 => 13386341
    case 50 => 18931141
    case 51 => 26772693
    case 52 => 37862197
    case 53 => 53545221
    case 54 => 75724373
    case _ => 107090317
  }

  // The table of the program; the entry for 40 is out of the row, but good all the same.
  lemma Bases10To21()
    ensures Base(10) == 29 && Base(11) == 29 && Base(12) == 53 && Base(13) == 53
    ensures Base(14) == 117 && Base(15) == 125 && Base(16) == 229 && Base(17) == 221
    ensures Base(18) == 469 && Base(19) == 517 && Base(20) == 589 && Base(21) == 861
  {}

  lemma Bases22To33()
    ensures Base(22) == 1189 && Base(23) == 1653 && Base(24) == 2333 && Base(25) == 3381
    ensures Base(26) == 4629 && Base(27) == 6565 && Base(28) == 9293 && Base(29) == 13093
    ensures Base(30) == 18509 && Base(31) == 26253 && Base(32) == 37117 && Base(33) == 52317
  {}

  lemma Bases34To45()
    ensures Base(34) == 74101 && Base(35) == 104581 && Base(36) == 147973 && Base(37) == 209173
    ensures Base(38) == 296029 && Base(39) == 418341 && Base(40) == 91733 && Base(41) == 836661
    ensures Base(42) == 1183221 && Base(43) == 1673485 && Base(44) == 2366509 && Base(45) == 3346853
  {}

  lemma Bases46To55()
    ensures Base(46) == 4732789 && Base(47) == 6693237 && Base(48) == 9465541 && Base(49) == 13386341
    ensures Base(50) == 18931141 && Base(51) == 26772693 && Base(52) == 37862197 && Base(53) == 53545221
    ensures Base(54) == 75724373 && Base(55) == 107090317
  {}

  lemma NamedBases()
    ensures Base(10) == 29 && Base(40) == 91733 && Base(55) == 107090317
  {}

  function Pow(g: nat, e: nat): nat {
    if e == 0 then 1 else g * Pow(g, e - 1)
  }

  // a and b agree modulo m.
  ghost predicate Cong(a: int, b: int, m: nat) {
    exists q: int :: Witness(a, b, m, q)
  }

  ghost predicate Witness(a: int, b: int, m: nat, q: int) {
    a - b == q * m
  }

  // r is a logarithm of 1 + 4k.
  ghost predicate IsLog(g: nat, n: nat, k: nat, r: nat) {
    k < Pow2(n) && 1 <= r <= Pow2(n) && Cong(Pow(g, r), 1 + 4 * k, 4 * Pow2(n))
  }

  // ---------------------------------------------------------------- congruences

  lemma CongRefl(a: int, m: nat)
    ensures Cong(a, a, m)
  {
    assert Witness(a, a, m, 0);
  }

  lemma CongSym(a: int, b: int, m: nat)
    requires Cong(a, b, m)
    ensures Cong(b, a, m)
  {
    var q :| Witness(a, b, m, q);
    assert Witness(b, a, m, -q) by { assert (-q) * m == -(q * m); }
  }

  lemma CongTrans(a: int, b: int, c: int, m: nat)
    requires Cong(a, b, m) && Cong(b, c, m)
    ensures Cong(a, c, m)
  {
    var p :| Witness(a, b, m, p);
    var q :| Witness(b, c, m, q);
    assert Witness(a, c, m, p + q) by { assert (p + q) * m == p * m + q * m; }
  }

  lemma CongMul(a: int, b: int, c: int, d: int, m: nat)
    requires Cong(a, b, m) && Cong(c, d, m)
    ensures Cong(a * c, b * d, m)
  {
    var p :| Witness(a, b, m, p);
    var q :| Witness(c, d, m, q);
    assert a * c - b * d == (a - b) * c + b * (c - d);
    assert (p * m) * c == (p * c) * m && b * (q * m) == (b * q) * m;
    assert (p * c + b * q) * m == (p * c) * m + (b * q) * m;
    assert Witness(a * c, b * d, m, p * c + b * q);
  }

  lemma Swap(a: int, b: int, c: int)
    ensures (a * c) * b == (a * b) * c
  {}

  // Reduction modulo P of the index is reduction modulo 4P of the element.
  lemma CongIndex(x: nat, p: nat)
    requires p > 0
    ensures Cong(1 + 4 * (x % p), 1 + 4 * x, 4 * p)
  {
    QuotientBounds(x, p);
    var q := x / p;
    assert (-q) * (4 * p) == -4 * (q * p);
    assert Witness(1 + 4 * (x % p), 1 + 4 * x, 4 * p, -q);
  }

  // Two indices below P with congruent elements are equal.
  lemma IndexUnique(x: nat, y: nat, p: nat)
    requires x < p && y < p && Cong(1 + 4 * x, 1 + 4 * y, 4 * p)
    ensures x == y
  {
    var q :| Witness(1 + 4 * x, 1 + 4 * y, 4 * p, q);
    assert q * (4 * p) == 4 * (q * p);
    MulSign(q, p);
  }

  lemma {:induction false} PowAdd(g: nat, a: nat, b: nat)
    ensures Pow(g, a + b) == Pow(g, a) * Pow(g, b)
    decreases a
  {
    if a > 0 {
      PowAdd(g, a - 1, b);
      assert g * (Pow(g, a - 1) * Pow(g, b)) == (g * Pow(g, a - 1)) * Pow(g, b);
    }
  }

  // The product of two elements, on indices.
  function Mul(a: nat, b: nat): nat {
    a + b + 4 * a * b
  }

  // The product reduced modulo P = 2^n.
  function MulMod(a: nat, b: nat, n: nat): (r: nat)
    ensures r < Pow2(n)
  {
    Mul(a, b) % Pow2(n)
  }

  lemma MulElement(a: nat, b: nat)
    ensures 1 + 4 * Mul(a, b) == (1 + 4 * a) * (1 + 4 * b)
  {
    assert (1 + 4 * a) * (1 + 4 * b) == 1 + 4 * a + 4 * b + 16 * (a * b);
  }

  // ---------------------------------------------------------------- the order of G

  // v is an odd multiple of 2^i.
  ghost predicate Valuation(v: nat, i: nat) {
    exists o: nat :: OddPart(v, i, o)
  }

  ghost predicate OddPart(v: nat, i: nat, o: nat) {
    o % 2 == 1 && v == o * Pow2(i)
  }

  // x is a multiple of 2^i.
  ghost predicate Multiple(x: nat, i: nat) {
    exists c: nat :: Times(x, c, i)
  }

  ghost predicate Times(x: nat, c: nat, i: nat) {
    x == c * Pow2(i)
  }

  lemma MulFactor(v: nat, w: nat, o: nat, u: nat, p: nat)
    requires v == o * p && w == u * p
    ensures Mul(v, w) == (o + u + 4 * (o * w)) * p
  {
    assert v * w == (o * w) * p by { assert (o * p) * w == (o * w) * p; }
    assert (o + u + 4 * (o * w)) * p == o * p + u * p + 4 * ((o * w) * p);
    assert 4 * v * w == 4 * (v * w);
  }

  lemma Halve(a: nat, p: nat)
    requires a % 2 == 0
    ensures a * p == (a / 2) * (2 * p)
  {
    assert a == 2 * (a / 2);
    Regroup(a / 2, p);
  }

  lemma Regroup(c: nat, p: nat)
    ensures c * (2 * p) == (2 * c) * p
  {}

  lemma TimesNext(x: nat, c: nat, i: nat)
    ensures Times(x, c, i + 1) <==> Times(x, 2 * c, i)
  {
    Regroup(c, Pow2(i));
  }

  // The odd part of a product of two elements.
  lemma OddSum(o: nat, c: nat, z: nat)
    requires o % 2 == 1
    ensures (o + 2 * c + 4 * z) % 2 == 1
  {
    ModUnique(o + 2 * c + 4 * z, 2, o / 2 + c + 2 * z, 1);
  }

  // Multiplying by an element of higher valuation keeps the valuation.
  lemma MixedValuation(v: nat, w: nat, i: nat)
    requires Valuation(v, i) && Multiple(w, i + 1)
    ensures Valuation(Mul(v, w), i)
  {
    var o: nat :| OddPart(v, i, o);
    var c: nat :| Times(w, c, i + 1);
    TimesNext(w, c, i);
    hide Pow2, Mul;
    MulFactor(v, w, o, 2 * c, Pow2(i));
    OddSum(o, c, o * w);
    assert OddPart(Mul(v, w), i, o + 2 * c + 4 * (o * w));
  }

  // An even multiple of 2^i.
  lemma EvenMultiple(x: nat, a: nat, i: nat)
    requires a % 2 == 0 && x == a * Pow2(i)
    ensures Times(x, a / 2, i + 1)
  {
    TimesNext(x, a / 2, i);
  }

  lemma EvenSum(o: nat, u: nat, z: nat)
    requires o % 2 == 1 && u % 2 == 1
    ensures (o + u + 4 * z) % 2 == 0
    ensures o == u ==> (o + u + 4 * z) / 2 == o + 2 * z
  {
    ModUnique(o + u + 4 * z, 2, o / 2 + u / 2 + 1 + 2 * z, 0);
  }

  // Multiplying two elements of valuation i gives a multiple of 2^(i+1).
  lemma EqualValuation(v: nat, w: nat, i: nat)
    requires Valuation(v, i) && Valuation(w, i)
    ensures Multiple(Mul(v, w), i + 1)
  {
    var o: nat :| OddPart(v, i, o);
    var u: nat :| OddPart(w, i, u);
    hide Pow2, Mul;
    MulFactor(v, w, o, u, Pow2(i));
    EvenSum(o, u, o * w);
    EvenMultiple(Mul(v, w), o + u + 4 * (o * w), i);
  }

  // Squaring an element raises the valuation of its index by exactly one.
  lemma SquareValuation(v: nat, i: nat)
    requires Valuation(v, i)
    ensures Valuation(Mul(v, v), i + 1)
  {
    var o: nat :| OddPart(v, i, o);
    hide Pow2, Mul;
    MulFactor(v, v, o, o, Pow2(i));
    EvenSum(o, o, o * v);
    EvenMultiple(Mul(v, v), o + o + 4 * (o * v), i);
    OddSum(o, o * v, 0);
    assert OddPart(Mul(v, v), i + 1, o + 2 * (o * v));
  }

  // Reduction modulo 2^n keeps multiples of 2^i, and valuations below n.
  lemma ReduceMultiple(x: nat, i: nat, n: nat)
    requires Multiple(x, i) && i <= n
    ensures Multiple(x % Pow2(n), i)
  {
    var c: nat :| Times(x, c, i);
    var p, r := Pow2(i), Pow2(n - i);
    Pow2Add(n - i, i);
    ReduceFactor(x, c, p, r);
    assert Times(x % Pow2(n), c % r, i);
  }

  lemma ReduceFactor(x: nat, c: nat, p: nat, r: nat)
    requires x == c * p && p > 0 && r > 0
    ensures r * p > 0 && x % (r * p) == (c % r) * p
  {
    MulSign(r, p);
    var q, d := c / r, c % r;
    assert c == q * r + d;
    assert c * p == q * (r * p) + d * p;
    assert d * p + (r - d) * p == r * p;
    MulSign(r - d, p);
    ModUnique(x, r * p, q, d * p);
  }

  lemma ReduceValuation(x: nat, i: nat, n: nat)
    requires Valuation(x, i) && i < n
    ensures Valuation(x % Pow2(n), i)
  {
    var o: nat :| OddPart(x, i, o);
    var p, r := Pow2(i), Pow2(n - i);
    Pow2Add(n - i, i);
    ReduceFactor(x, o, p, r);
    assert r == 2 * Pow2(n - i - 1);
    ReduceOdd(o, Pow2(n - i - 1));
    assert OddPart(x % Pow2(n), i, o % r);
  }

  lemma ReduceOdd(o: nat, h: nat)
    requires o % 2 == 1 && h > 0
    ensures o % (2 * h) % 2 == 1
  {
    QuotientBounds(o, 2 * h);
    assert (o / (2 * h)) * (2 * h) == 2 * ((o / (2 * h)) * h);
  }

  // A multiple of 2^i is a multiple of 2^(i+1) or has valuation i, as its bit i tells.
  lemma BitDecides(x: nat, i: nat)
    requires Multiple(x, i)
    ensures if Shr(x, i) % 2 == 1 then Valuation(x, i) else Multiple(x, i + 1)
  {
    var c: nat :| Times(x, c, i);
    var p := Pow2(i);
    assert (c + 1) * p == c * p + p;
    ShrBlock(x, i, c);
    if c % 2 == 1 {
      assert OddPart(x, i, c);
    } else {
      Halve(c, p);
      assert Times(x, c / 2, i + 1);
    }
  }

  lemma MultipleBelow(x: nat, n: nat)
    requires Multiple(x, n) && x < Pow2(n)
    ensures x == 0
  {
    var c: nat :| Times(x, c, n);
    MulSign(c, Pow2(n));
  }

  lemma NotMultiple(x: nat, i: nat)
    requires Valuation(x, i)
    ensures !Multiple(x, i + 1)
  {
    var o: nat :| OddPart(x, i, o);
    if Multiple(x, i + 1) {
      var c: nat :| Times(x, c, i + 1);
      assert c * (2 * Pow2(i)) == (2 * c) * Pow2(i);
      assert (o - 2 * c) * Pow2(i) == 0;
      MulSign(o - 2 * c, Pow2(i));
    }
  }

  // The index of G^m.
  function Index(g: nat, m: nat): nat
    requires GoodBase(g)
  {
    if m == 0 then 0 else Mul((g - 1) / 4, Index(g, m - 1))
  }

  lemma {:induction false} PowIndex(g: nat, m: nat)
    requires GoodBase(g)
    ensures Pow(g, m) == 1 + 4 * Index(g, m)
  {
    if m > 0 {
      PowIndex(g, m - 1);
      Unfold(g, m);
      hide *;
      PowIndexStep(g, (g - 1) / 4, Pow(g, m - 1), Index(g, m - 1));
    }
  }

  lemma Unfold(g: nat, m: nat)
    requires GoodBase(g) && m > 0
    ensures Pow(g, m) == g * Pow(g, m - 1) && Index(g, m) == Mul((g - 1) / 4, Index(g, m - 1))
    ensures g == 1 + 4 * ((g - 1) / 4)
  {
    hide Mul;
  }

  lemma PowIndexStep(g: nat, b: nat, x: nat, v: nat)
    requires g == 1 + 4 * b && x == 1 + 4 * v
    ensures g * x == 1 + 4 * Mul(b, v)
  {
    MulElement(b, v);
  }

  lemma IndexDouble(g: nat, m: nat)
    requires GoodBase(g)
    ensures Index(g, m + m) == Mul(Index(g, m), Index(g, m))
  {
    PowIndex(g, m);
    PowIndex(g, m + m);
    PowAdd(g, m, m);
    MulElement(Index(g, m), Index(g, m));
  }

  lemma ValuationMultiple(v: nat, i: nat, j: nat)
    requires Valuation(v, i) && j <= i
    ensures Multiple(v, j)
  {
    var o: nat :| OddPart(v, i, o);
    Pow2Add(i - j, j);
    assert o * (Pow2(i - j) * Pow2(j)) == (o * Pow2(i - j)) * Pow2(j);
    assert Times(v, o * Pow2(i - j), j);
  }

  lemma DoubleValuation(h: nat, i: nat)
    requires Valuation(h, i)
    ensures Valuation(2 * h, i + 1)
  {
    var o: nat :| OddPart(h, i, o);
    assert o * (2 * Pow2(i)) == 2 * (o * Pow2(i));
    assert OddPart(2 * h, i + 1, o);
  }

  lemma OddValuation(v: nat)
    requires v % 2 == 1
    ensures Valuation(v, 0)
  {
    assert OddPart(v, 0, v);
  }

  // The index of an even power is a multiple of 2.
  lemma IndexEven(g: nat, h: nat, j: nat)
    requires GoodBase(g) && (h == 0 || Valuation(Index(g, h), j))
    ensures Multiple(Index(g, h + h), 1)
  {
    hide Mul;
    if h == 0 {
      assert Times(Index(g, h + h), 0, 1);
    } else {
      IndexDouble(g, h);
      SquareValuation(Index(g, h), j);
      ValuationMultiple(Index(g, h + h), j + 1, 1);
    }
  }

  lemma IndexOdd(g: nat, h: nat, j: nat)
    requires GoodBase(g) && (h == 0 || Valuation(Index(g, h), j))
    ensures Valuation(Index(g, h + h + 1), 0)
  {
    hide Valuation, Multiple;
    IndexEven(g, h, j);
    OddValuation((g - 1) / 4);
    MixedValuation((g - 1) / 4, Index(g, h + h), 0);
  }

  // G^m - 1 has exactly two more factors 2 than m.
  lemma {:induction false} IndexValuation(g: nat, m: nat) returns (i: nat)
    requires GoodBase(g) && m > 0
    ensures Valuation(m, i) && Valuation(Index(g, m), i)
    decreases m
  {
    hide Index, Valuation, Mul;
    var h := m / 2;
    i := 0;
    if h > 0 { i := IndexValuation(g, h); }
    if m % 2 == 0 {
      assert m == h + h;
      DoubleValuation(h, i);
      IndexDouble(g, h);
      SquareValuation(Index(g, h), i);
      i := i + 1;
    } else {
      assert m == h + h + 1;
      IndexOdd(g, h, i);
      OddValuation(m);
      i := 0;
    }
  }

  lemma MultipleCong(e: nat, v: nat, c: nat, p: nat)
    requires e * v == c * p
    ensures Cong(e * (1 + 4 * v), e, 4 * p)
  {
    assert e * (1 + 4 * v) - e == 4 * (e * v);
    assert c * (4 * p) == 4 * (c * p);
    assert Witness(e * (1 + 4 * v), e, 4 * p, c);
  }

  lemma CongMultiple(e: nat, v: nat, n: nat)
    requires Cong(e * (1 + 4 * v), e, 4 * Pow2(n))
    ensures Multiple(e * v, n)
  {
    var p := Pow2(n);
    var q :| Witness(e * (1 + 4 * v), e, 4 * p, q);
    assert e * (1 + 4 * v) - e == 4 * (e * v);
    assert q * (4 * p) == 4 * (q * p);
    assert e * v >= 0;
    MulSign(q, p);
    assert Times(e * v, q, n);
  }

  // G^P is 1 modulo 4P.
  lemma FullPower(g: nat, n: nat)
    requires GoodBase(g)
    ensures Cong(Pow(g, Pow2(n)), 1, 4 * Pow2(n))
  {
    var p := Pow2(n);
    var i := IndexValuation(g, p);
    assert OddPart(p, n, 1);
    SameValuation(p, i, n);
    var o: nat :| OddPart(Index(g, p), n, o);
    PowIndex(g, p);
    MultipleCong(1, Index(g, p), o, p);
  }

  lemma SameValuation(v: nat, i: nat, j: nat)
    requires Valuation(v, i) && Valuation(v, j)
    ensures i == j
  {
    if i < j { ValuationMultiple(v, j, i + 1); NotMultiple(v, i); }
    if j < i { ValuationMultiple(v, i, j + 1); NotMultiple(v, j); }
  }

  lemma OddFactor(e: nat, v: nat, i: nat)
    requires e % 2 == 1 && Valuation(v, i)
    ensures Valuation(e * v, i)
  {
    var o: nat :| OddPart(v, i, o);
    assert e * (o * Pow2(i)) == (e * o) * Pow2(i);
    OddTimesOdd(e, o);
    assert OddPart(e * v, i, e * o);
  }

  lemma MultipleDown(x: nat, n: nat, i: nat)
    requires Multiple(x, n) && i <= n
    ensures Multiple(x, i)
  {
    var q: nat :| Times(x, q, n);
    Pow2Add(n - i, i);
    assert q * (Pow2(n - i) * Pow2(i)) == (q * Pow2(n - i)) * Pow2(i);
    assert Times(x, q * Pow2(n - i), i);
  }

  // No smaller power is, and multiplying by an odd number does not help.
  lemma OrderOfG(g: nat, n: nat, m: nat, e: nat)
    requires GoodBase(g) && 0 < m < Pow2(n) && e % 2 == 1
    ensures !Cong(e * Pow(g, m), e, 4 * Pow2(n))
  {
    hide Cong, Multiple, Valuation, Pow, Index, Pow2;
    var i := IndexValuation(g, m);
    ValuationBelow(m, i, n);
    PowIndex(g, m);
    OddFactor(e, Index(g, m), i);
    NotMultiple(e * Index(g, m), i);
    if Cong(e * Pow(g, m), e, 4 * Pow2(n)) {
      CongMultiple(e, Index(g, m), n);
      MultipleDown(e * Index(g, m), n, i + 1);
    }
  }

  lemma OddTimesOdd(a: nat, b: nat)
    requires a % 2 == 1 && b % 2 == 1
    ensures a * b % 2 == 1
  {
    var h := a / 2;
    assert a * b == 2 * (h * b) + b by { assert a == 2 * h + 1; }
  }

  lemma ValuationBelow(m: nat, i: nat, n: nat)
    requires Valuation(m, i) && m < Pow2(n)
    ensures i < n
  {
    if n <= i {
      var o: nat :| OddPart(m, i, o);
      Pow2Monotone(n, i);
      MulSign(o, Pow2(i));
    }
  }

  // ---------------------------------------------------------------- the loop

  // What holds when round i of the loop begins: 2^i divides up and exactly divides gpow.
  ghost predicate Round(g: nat, n: nat, k: nat, i: nat, up: nat, gpow: nat, x: nat) {
    var p := Pow2(n);
    && i <= n && up < p && x < Pow2(i)
    && Multiple(up, i)
    && (i < n ==> Valuation(gpow, i))
    && Cong(Pow(g, x) * (1 + 4 * k), 1 + 4 * up, 4 * p)
    && Cong(Pow(g, Pow2(i)), 1 + 4 * gpow, 4 * p)
  }

  lemma FirstRound(g: nat, n: nat, k: nat)
    requires GoodBase(g) && k < Pow2(n)
    ensures Round(g, n, k, 0, k, (g - 1) / 4, 0)
  {
    var p := Pow2(n);
    assert Times(k, k, 0);
    assert OddPart((g - 1) / 4, 0, (g - 1) / 4);
    assert Multiple(k, 0) && Valuation((g - 1) / 4, 0);
    assert Pow2(0) == 1 && Pow(g, 0) == 1 && Pow(g, 1) == g * Pow(g, 0);
    assert g == 1 + 4 * ((g - 1) / 4);
    hide Cong, Multiple, Valuation, Pow, Pow2;
    CongRefl(1 + 4 * k, 4 * p);
    CongRefl(g, 4 * p);
  }

  // Multiplying two elements and reducing the index.
  lemma CongReduce(a: int, b: int, u: nat, v: nat, p: nat)
    requires p > 0 && Cong(a, 1 + 4 * u, 4 * p) && Cong(b, 1 + 4 * v, 4 * p)
    ensures Cong(a * b, 1 + 4 * (Mul(u, v) % p), 4 * p)
  {
    CongMul(a, 1 + 4 * u, b, 1 + 4 * v, 4 * p);
    MulElement(u, v);
    CongIndex(Mul(u, v), p);
    CongSym(1 + 4 * (Mul(u, v) % p), 1 + 4 * Mul(u, v), 4 * p);
    CongTrans(a * b, 1 + 4 * Mul(u, v), 1 + 4 * (Mul(u, v) % p), 4 * p);
  }

  // The new value of gpow.
  lemma SquareRound(g: nat, n: nat, k: nat, i: nat, up: nat, gpow: nat, x: nat)
    requires GoodBase(g) && Round(g, n, k, i, up, gpow, x) && i < n
    ensures var gpow' := MulMod(gpow, gpow, n);
            && (i + 1 < n ==> Valuation(gpow', i + 1))
            && Cong(Pow(g, Pow2(i + 1)), 1 + 4 * gpow', 4 * Pow2(n))
  {
    SquareValuation(gpow, i);
    if i + 1 < n { ReduceValuation(Mul(gpow, gpow), i + 1, n); }
    PowAdd(g, Pow2(i), Pow2(i));
    CongReduce(Pow(g, Pow2(i)), Pow(g, Pow2(i)), gpow, gpow, Pow2(n));
  }

  // The new values of up and x when bit i of up is set.
  lemma BitRound(g: nat, n: nat, k: nat, i: nat, up: nat, gpow: nat, x: nat)
    requires GoodBase(g) && Round(g, n, k, i, up, gpow, x) && i < n && Shr(up, i) % 2 == 1
    ensures var up' := MulMod(up, gpow, n);
            && up' < Pow2(n) && Multiple(up', i + 1)
            && Cong(Pow(g, x + Pow2(i)) * (1 + 4 * k), 1 + 4 * up', 4 * Pow2(n))
  {
    BitDecides(up, i);
    EqualValuation(up, gpow, i);
    ReduceMultiple(Mul(up, gpow), i + 1, n);
    var a, b, c := Pow(g, x), Pow(g, Pow2(i)), 1 + 4 * k;
    PowAdd(g, x, Pow2(i));
    Swap(a, b, c);
    CongReduce(a * c, b, up, gpow, Pow2(n));
  }

  lemma NextRound(g: nat, n: nat, k: nat, i: nat, up: nat, gpow: nat, x: nat)
    requires GoodBase(g) && Round(g, n, k, i, up, gpow, x) && up != 0
    ensures i < n
    ensures var odd := Shr(up, i) % 2 == 1;
            Round(g, n, k, i + 1, if odd then MulMod(up, gpow, n) else up, MulMod(gpow, gpow, n),
                  if odd then x + Pow2(i) else x)
  {
    if i == n { MultipleBelow(up, n); }
    hide Cong, Multiple, Valuation, MulMod, Pow, Shr;
    SquareRound(g, n, k, i, up, gpow, x);
    BitDecides(up, i);
    if Shr(up, i) % 2 == 1 { BitRound(g, n, k, i, up, gpow, x); }
  }

  lemma Cancel(a: int, b: int, c: int, m: nat)
    requires Cong(a * c, 1, m) && Cong(a * b, 1, m)
    ensures Cong(b, c, m)
  {
    CongRefl(b, m);
    CongRefl(c, m);
    CongMul(a * c, 1, b, b, m);
    CongMul(a * b, 1, c, c, m);
    Swap(a, b, c);
    CongSym((a * b) * c, b, m);
    CongTrans(b, (a * b) * c, c, m);
  }

  // When up has become 0, P - x is the logarithm.
  lemma LastRound(g: nat, n: nat, k: nat, i: nat, gpow: nat, x: nat)
    requires GoodBase(g) && k < Pow2(n) && Round(g, n, k, i, 0, gpow, x)
    ensures x < Pow2(n) && IsLog(g, n, k, Pow2(n) - x)
  {
    var p := Pow2(n);
    Pow2Monotone(i, n);
    PowAdd(g, x, p - x);
    FullPower(g, n);
    Cancel(Pow(g, x), Pow(g, p - x), 1 + 4 * k, 4 * p);
  }

  // (a + b + 4 * a * b) & P_MASK in 64-bit arithmetic; P_MASK keeps the lower n bits.
  function MulMasked(a: nat, b: nat, n: nat): (r: nat)
    requires n <= 64
    ensures r == MulMod(a, b, n)
  {
    LowBits(Mul(a, b), n);
    (a + b + 4 * a * b) % WORD % Pow2(n)
  }

  // The program's discrete_log<n> with the base of its table, in 64-bit arithmetic.
  method DiscreteLog(n: nat, k: nat) returns (r: nat, rounds: nat)
    requires 8 <= n <= 53 && k < Pow2(n)
    ensures IsLog(Base(n + 2), n, k, r)
    ensures n == 8 ==> IsLog(29, n, k, r)
    ensures n == 38 ==> IsLog(91733, n, k, r)
    ensures n == 53 ==> IsLog(107090317, n, k, r)
    ensures rounds <= n
  {
    NamedBases();
    hide IsLog, Base, Round, MulMod, Shr;
    var G, P := Base(n + 2), Pow2(n);
    var up, x, radix, Gpow := k, 0, 1, (G - 1) / 4;
    rounds := 0;
    FirstRound(G, n, k);
    while up != 0
      invariant rounds <= n && radix == Pow2(rounds)
      invariant Round(G, n, k, rounds, up, Gpow, x)
      decreases n - rounds
    {
      NextRound(G, n, k, rounds, up, Gpow, x);
      ShrIsDivision(up, rounds);
      if up / radix % 2 == 1 {  // up & radix
        x := x + radix;
        up := MulMasked(up, Gpow, n);
      }
      radix := radix * 2;
      Gpow := MulMasked(Gpow, Gpow, n);
      rounds := rounds + 1;
    }
    LastRound(G, n, k, rounds, Gpow, x);
    r := P - x;
  }

  // ---------------------------------------------------------------- the bijection

  lemma {:induction false} LogExistsFrom(g: nat, n: nat, k: nat, i: nat, up: nat, gpow: nat, x: nat) returns (r: nat)
    requires GoodBase(g) && k < Pow2(n) && Round(g, n, k, i, up, gpow, x)
    ensures IsLog(g, n, k, r)
    decreases n - i
  {
    if up == 0 {
      LastRound(g, n, k, i, gpow, x);
      r := Pow2(n) - x;
    } else {
      NextRound(g, n, k, i, up, gpow, x);
      var odd := Shr(up, i) % 2 == 1;
      r := LogExistsFrom(g, n, k, i + 1, if odd then MulMod(up, gpow, n) else up, MulMod(gpow, gpow, n),
                         if odd then x + Pow2(i) else x);
    }
  }

  lemma PowOdd(g: nat, r: nat)
    requires GoodBase(g)
    ensures Pow(g, r) % 2 == 1
  {
    hide Pow, Index;
    PowIndex(g, r);
    ModUnique(Pow(g, r), 2, 2 * Index(g, r), 1);
  }

  lemma LogLess(g: nat, n: nat, k: nat, r: nat, s: nat)
    requires GoodBase(g) && IsLog(g, n, k, r) && r < s
    ensures !IsLog(g, n, k, s)
  {
    PowOdd(g, r);
    if IsLog(g, n, k, s) {
      hide Cong, Pow, Pow2;
      var m := 4 * Pow2(n);
      CongSym(Pow(g, r), 1 + 4 * k, m);
      CongTrans(Pow(g, s), 1 + 4 * k, Pow(g, r), m);
      PowAdd(g, r, s - r);
      OrderOfG(g, n, s - r, Pow(g, r));
    }
  }

  // IsLog is a bijection between [0, P) and [1, P]: every k has exactly one logarithm, and every
  // r is the logarithm of exactly one k.
  lemma LogOfEach(g: nat, n: nat, k: nat) returns (r: nat)
    requires GoodBase(g) && k < Pow2(n)
    ensures forall s: nat :: IsLog(g, n, k, s) <==> s == r
  {
    FirstRound(g, n, k);
    r := LogExistsFrom(g, n, k, 0, k, (g - 1) / 4, 0);
    forall s: nat ensures IsLog(g, n, k, s) <==> s == r {
      if s < r && IsLog(g, n, k, s) { LogLess(g, n, k, s, r); }
      if r < s { LogLess(g, n, k, r, s); }
    }
  }

  lemma EachIsLog(g: nat, n: nat, r: nat) returns (k: nat)
    requires GoodBase(g) && 1 <= r <= Pow2(n)
    ensures forall j: nat :: IsLog(g, n, j, r) <==> j == k
  {
    var p := Pow2(n);
    k := Index(g, r) % p;
    PowIndex(g, r);
    CongIndex(Index(g, r), p);
    CongSym(1 + 4 * k, 1 + 4 * Index(g, r), 4 * p);
    assert IsLog(g, n, k, r);
    forall j: nat ensures IsLog(g, n, j, r) <==> j == k {
      if IsLog(g, n, j, r) {
        CongSym(Pow(g, r), 1 + 4 * j, 4 * p);
        CongTrans(1 + 4 * j, Pow(g, r), 1 + 4 * k, 4 * p);
        IndexUnique(j, k, p);
      }
    }
  }
}
