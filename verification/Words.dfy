/** 64-bit words as the numbers below 2^64, their bit operations, and little-endian bytes. */
module Words {
  import opened Bits

  type Word = x: nat | x < WORD witness 0
  type Byte = x: nat | x < 256 witness 0

  function Add(a: Word, b: Word): Word { (a + b) % WORD }
  function Sub(a: Word, b: Word): Word { (a + WORD - b) % WORD }
  function Mul(a: nat, b: nat): Word { (a * b) % WORD }

  function Xor(a: nat, b: nat): nat
    decreases a + b
  {
    if a == 0 && b == 0 then 0 else (a % 2 + b % 2) % 2 + 2 * Xor(a / 2, b / 2)
  }

  function Or(a: nat, b: nat): nat
    decreases a + b
  {
    if a == 0 && b == 0 then 0 else (if a % 2 == 1 || b % 2 == 1 then 1 else 0) + 2 * Or(a / 2, b / 2)
  }

  // (x << r) | (x >> (64 - r))
  function Rotl(x: Word, r: nat): nat
    requires 0 < r < 64
  {
    Or(Mul(x, Pow2(r)), Shr(x, 64 - r))
  }

  // x ^ (x >> n)
  function XorShift(x: nat, n: nat): nat {
    Xor(x, Shr(x, n))
  }

  // ---------------------------------------------------------------- arithmetic

  lemma AddSub(a: Word, b: Word)
    ensures Sub(Add(a, b), b) == a && Add(Sub(a, b), b) == a
  {}

  // Multiplication by a is undone by a number b with a * b == 1 modulo 2^64.
  lemma MulCancel(x: Word, a: nat, b: nat)
    requires a * b % WORD == 1
    ensures Mul(Mul(x, a), b) == x
  {
    var q, p, m := a * b / WORD, x * a / WORD, Mul(x, a);
    QuotientBounds(a * b, WORD);
    QuotientBounds(x * a, WORD);
    assert m == x * a - p * WORD && a * b == q * WORD + 1;
    MulCancelSum(x, a, b, p, q, m);
    ModUnique(m * b, WORD, x * q - p * b, x);
  }

  lemma MulCancelSum(x: nat, a: nat, b: nat, p: nat, q: nat, m: nat)
    requires m == x * a - p * WORD && a * b == q * WORD + 1
    ensures m * b == (x * q - p * b) * WORD + x
  {
    assert m * b == (x * a) * b - (p * WORD) * b;
    assert (x * a) * b == x * (a * b);
    assert x * (q * WORD + 1) == (x * q) * WORD + x;
    assert (p * WORD) * b == (p * b) * WORD;
    assert (x * q - p * b) * WORD == (x * q) * WORD - (p * b) * WORD;
  }

  // ---------------------------------------------------------------- exclusive or

  lemma {:induction false} XorZero(a: nat)
    ensures Xor(a, 0) == a && Xor(0, a) == a && Xor(a, a) == 0
    decreases a
  {
    if a > 0 { XorZero(a / 2); }
  }

  lemma XorHalf(a: nat, b: nat)
    ensures Xor(a, b) / 2 == Xor(a / 2, b / 2) && Xor(a, b) % 2 == (a % 2 + b % 2) % 2
  {}

  lemma SameHalves(x: nat, y: nat)
    requires x / 2 == y / 2 && x % 2 == y % 2
    ensures x == y
  {}

  lemma {:induction false} XorAssoc(a: nat, b: nat, c: nat)
    ensures Xor(Xor(a, b), c) == Xor(a, Xor(b, c))
    decreases a + b + c
  {
    if a + b + c > 0 {
      var x, y := Xor(Xor(a, b), c), Xor(a, Xor(b, c));
      XorHalves(a, b, c);
      XorAssoc(a / 2, b / 2, c / 2);
      SameHalves(x, y);
    }
  }

  lemma XorHalves(a: nat, b: nat, c: nat)
    ensures Xor(Xor(a, b), c) / 2 == Xor(Xor(a / 2, b / 2), c / 2)
    ensures Xor(a, Xor(b, c)) / 2 == Xor(a / 2, Xor(b / 2, c / 2))
    ensures Xor(Xor(a, b), c) % 2 == Xor(a, Xor(b, c)) % 2
  {
    hide Xor;
    XorHalf(a, b);
    XorHalf(b, c);
    XorHalf(Xor(a, b), c);
    XorHalf(a, Xor(b, c));
    ParityAssoc(a % 2, b % 2, c % 2);
  }

  lemma ParityAssoc(x: nat, y: nat, z: nat)
    requires x < 2 && y < 2 && z < 2
    ensures ((x + y) % 2 + z) % 2 == (x + (y + z) % 2) % 2
  {}

  lemma {:induction false} XorBound(a: nat, b: nat, n: nat)
    requires a < Pow2(n) && b < Pow2(n)
    ensures Xor(a, b) < Pow2(n)
    decreases n
  {
    if n > 0 {
      XorHalf(a, b);
      XorBound(a / 2, b / 2, n - 1);
    }
  }

  lemma {:induction false} XorShr(a: nat, b: nat, n: nat)
    ensures Shr(Xor(a, b), n) == Xor(Shr(a, n), Shr(b, n))
    decreases n
  {
    if n > 0 {
      XorHalf(a, b);
      XorShr(a / 2, b / 2, n - 1);
    }
  }

  // Applying the same mask twice.
  lemma XorTwice(a: nat, b: nat)
    ensures Xor(Xor(a, b), b) == a && Xor(b, Xor(b, a)) == a
  {
    XorAssoc(a, b, b);
    XorAssoc(b, b, a);
    XorZero(a);
    XorZero(b);
  }

  lemma XorWord(a: Word, b: Word)
    ensures Xor(a, b) < WORD
  {
    Pow2Of64();
    XorBound(a, b, 64);
  }

  lemma ShrSmaller(x: nat, n: nat)
    ensures Shr(x, n) <= x
    decreases n
  {
    if n > 0 { ShrSmaller(x / 2, n - 1); }
  }

  lemma XorShiftWord(x: Word, n: nat)
    ensures XorShift(x, n) < WORD
  {
    ShrSmaller(x, n);
    XorWord(x, Shr(x, n));
  }

  // x ^ (x >> n) is undone by itself twice over: shifting by n, then by 2n.
  lemma XorShiftTwice(x: nat, n: nat)
    ensures XorShift(XorShift(x, n), n) == XorShift(x, 2 * n)
  {
    var y, z := Shr(x, n), Shr(x, 2 * n);
    ShrShr(x, n, n);
    XorShr(x, y, n);
    assert Shr(XorShift(x, n), n) == Xor(y, z);
    XorAssoc(Xor(x, y), y, z);
    XorTwice(x, y);
  }

  lemma {:induction false} ShrVanishes(x: nat, n: nat, m: nat)
    requires x < Pow2(m) && m <= n
    ensures Shr(x, n) == 0
    decreases n
  {
    if n > 0 {
      if m == 0 { ShrVanishes(0, n - 1, 0); } else { ShrVanishes(x / 2, n - 1, m - 1); }
    }
  }

  // The inverse of x ^ (x >> n) on words, for shifts of at least 16 bits.
  function UnXorShift(x: nat, n: nat): nat {
    XorShift(XorShift(x, n), 2 * n)
  }

  lemma XorShiftInverse(x: Word, n: nat)
    requires n >= 16
    ensures UnXorShift(XorShift(x, n), n) == x && XorShift(UnXorShift(x, n), n) == x
  {
    XorShiftTwice(x, n);
    XorShiftTwice(x, 2 * n);
    Pow2Of64();
    ShrVanishes(x, 4 * n, 64);
    XorZero(x);
    XorShiftCommute(XorShift(x, n), 2 * n, n);
  }

  // Two shifts may be exchanged.
  lemma XorShiftCommute(x: nat, m: nat, n: nat)
    ensures XorShift(XorShift(x, m), n) == XorShift(XorShift(x, n), m)
  {
    var a, b, c := Shr(x, m), Shr(x, n), Shr(x, m + n);
    ShrShr(x, m, n);
    ShrShr(x, n, m);
    XorShr(x, a, n);
    XorShr(x, b, m);
    XorAssoc(x, a, Xor(b, c));
    XorAssoc(x, b, Xor(a, c));
    XorAssoc(a, b, c);
    XorAssoc(b, a, c);
    XorCommutes(a, b);
  }

  lemma {:induction false} XorCommutes(a: nat, b: nat)
    ensures Xor(a, b) == Xor(b, a)
    decreases a + b
  {
    if a + b > 0 { XorCommutes(a / 2, b / 2); }
  }

  // ---------------------------------------------------------------- rotation

  // Numbers without a common bit: or is addition.
  lemma {:induction false} OrDisjoint(a: nat, b: nat, r: nat)
    requires b < Pow2(r)
    ensures Or(a * Pow2(r), b) == a * Pow2(r) + b
    decreases r
  {
    if r == 0 {
      OrZero(a);
    } else {
      var x := a * Pow2(r - 1);
      assert a * Pow2(r) == 2 * x;
      OrDisjoint(a, b / 2, r - 1);
      if x + b > 0 {
        assert Or(2 * x, b) == b % 2 + 2 * Or(x, b / 2);
      }
    }
  }

  lemma {:induction false} OrZero(a: nat)
    ensures Or(a, 0) == a
    decreases a
  {
    if a > 0 { OrZero(a / 2); }
  }

  lemma UpperPart(x: nat, q: nat, hi: nat, lo: nat)
    requires x == hi * q + lo && lo < q
    ensures hi * q <= x < (hi + 1) * q
  {
    assert (hi + 1) * q == hi * q + q;
  }

  lemma LowerShifted(x: nat, p: nat, q: nat, hi: nat, lo: nat)
    requires x == hi * q + lo && lo < q && p > 0 && q * p == WORD
    ensures x * p % WORD == lo * p
  {
    assert x * p == (hi * q) * p + lo * p;
    assert (hi * q) * p == hi * (q * p);
    assert q * p == lo * p + (q - lo) * p;
    MulSign(q - lo, p);
    ModUnique(x * p, WORD, hi, lo * p);
  }

  lemma QuotientBelow(x: nat, p: nat, q: nat)
    requires q > 0 && x < p * q
    ensures x / q < p
  {
    QuotientBounds(x, q);
    var d := x / q - p;
    MulSign(d, q);
    assert d * q == (x / q) * q - p * q;
  }

  // A rotation exchanges the upper r bits and the lower 64 - r bits.
  lemma RotlParts(x: Word, r: nat, p: nat, q: nat, hi: nat, lo: nat)
    requires 0 < r < 64 && p == Pow2(r) && q == Pow2(64 - r) && q * p == WORD
    requires x == hi * q + lo && hi < p && lo < q
    ensures Rotl(x, r) == lo * p + hi
  {
    UpperPart(x, q, hi, lo);
    ShrBlock(x, 64 - r, hi);
    LowerShifted(x, p, q, hi, lo);
    OrDisjoint(lo, hi, r);
  }

  lemma PartsBelow(p: nat, q: nat, hi: nat, lo: nat)
    requires q * p == WORD && hi < p && lo < q
    ensures lo * p + hi < WORD
  {
    assert q * p == lo * p + (q - lo) * p;
    MulSign(q - lo, p);
  }

  // 2^64 as a product.
  lemma Factors(r: nat) returns (p: nat, q: nat)
    requires r <= 64
    ensures p == Pow2(r) && q == Pow2(64 - r) && q * p == WORD
  {
    p, q := Pow2(r), Pow2(64 - r);
    Pow2Of64();
    Pow2Add(64 - r, r);
  }

  lemma RotlInverse(x: Word, r: nat)
    requires 0 < r < 64
    ensures Rotl(x, r) < WORD && Rotl(Rotl(x, r), 64 - r) == x
  {
    hide Rotl;
    var p, q := Factors(r);
    var hi, lo := x / q, x % q;
    QuotientBounds(x, q);
    QuotientBelow(x, p, q);
    RotlTwice(x, r, p, q, hi, lo);
  }

  lemma RotlTwice(x: Word, r: nat, p: nat, q: nat, hi: nat, lo: nat)
    requires 0 < r < 64 && p == Pow2(r) && q == Pow2(64 - r) && q * p == WORD
    requires x == hi * q + lo && hi < p && lo < q
    ensures Rotl(x, r) < WORD && Rotl(Rotl(x, r), 64 - r) == x
  {
    hide Rotl;
    RotlParts(x, r, p, q, hi, lo);
    PartsBelow(p, q, hi, lo);
    assert p * q == WORD;
    RotlParts(lo * p + hi, 64 - r, q, p, lo, hi);
  }

  // ---------------------------------------------------------------- bytes

  // The n bytes of x, least significant first.
  function ToBytes(x: nat, n: nat): (s: seq<Byte>)
    ensures |s| == n
  {
    if n == 0 then [] else [x % 256] + ToBytes(x / 256, n - 1)
  }

  function FromBytes(s: seq<Byte>): nat {
    if s == [] then 0 else s[0] + 256 * FromBytes(s[1..])
  }

  lemma BytePower(n: nat)
    requires n > 0
    ensures Pow2(8 * n) == 256 * Pow2(8 * (n - 1))
  {
    hide Pow2;
    Pow2Of8();
    Pow2Add(8, 8 * (n - 1));
  }

  lemma {:induction false} FromToBytes(x: nat, n: nat)
    requires x < Pow2(8 * n)
    ensures FromBytes(ToBytes(x, n)) == x
    decreases n
  {
    if n > 0 {
      BytePower(n);
      hide Pow2;
      FromToBytes(x / 256, n - 1);
      assert ToBytes(x, n)[1..] == ToBytes(x / 256, n - 1);
    }
  }

  lemma {:induction false} ToFromBytes(s: seq<Byte>)
    ensures ToBytes(FromBytes(s), |s|) == s && FromBytes(s) < Pow2(8 * |s|)
    decreases |s|
  {
    if s != [] {
      BytePower(|s|);
      hide Pow2;
      ToFromBytes(s[1..]);
      assert s == [s[0]] + s[1..];
      assert FromBytes(s) / 256 == FromBytes(s[1..]);
    }
  }
}
