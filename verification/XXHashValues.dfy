/**
  Hash values worked out step by step: the bytes 1, 2, 3, ... up to lengths 0, 1, 4, 8 and 32 under
  the seed that the tables use, and the empty input under seed 0.
*/
module XXHashValues {
  import opened Bits
  import opened Words
  import opened XXHash

  // ---------------------------------------------------------------- exclusive or, byte by byte

  function Of(a: bv8): nat { a as nat }
  function Half(a: bv8): bv8 { a >> 1 }
  function Both(a: bv8, b: bv8): bv8 { a ^ b }

  lemma HalfOfByte(a: bv8)
    ensures (a >> 1) as nat == a as nat / 2 && (a & 1) as nat == a as nat % 2
  {}

  lemma XorParts(a: bv8, b: bv8)
    ensures (a ^ b) >> 1 == (a >> 1) ^ (b >> 1) && (a ^ b) & 1 == (a & 1) ^ (b & 1)
  {}

  lemma BitSum(a: bv8, b: bv8)
    requires a <= 1 && b <= 1
    ensures (a ^ b) as nat == (a as nat + b as nat) % 2
  {}

  lemma ByteHalves(a: bv8, b: bv8)
    ensures Of(Half(a)) == Of(a) / 2 && Of(Half(b)) == Of(b) / 2
    ensures Of(Both(a, b)) / 2 == Of(Both(Half(a), Half(b)))
    ensures Of(Both(a, b)) % 2 == (Of(a) % 2 + Of(b) % 2) % 2
  {
    HalfOfByte(a);
    HalfOfByte(b);
    HalfOfByte(a ^ b);
    XorParts(a, b);
    BitSum(a & 1, b & 1);
  }

  lemma BothZero(a: bv8, b: bv8)
    requires Of(a) == 0 && Of(b) == 0
    ensures Of(Both(a, b)) == 0
  {
    assert a == 0 && b == 0;
  }

  // The numbers agree with the bytes.
  lemma {:induction false} XorOfBytes(a: bv8, b: bv8)
    ensures Xor(Of(a), Of(b)) == Of(Both(a, b))
    decreases Of(a) + Of(b)
  {
    hide Xor, Of, Half, Both;
    if Of(a) + Of(b) > 0 {
      ByteHalves(a, b);
      XorOfBytes(Half(a), Half(b));
      XorHalf(Of(a), Of(b));
      SameHalves(Xor(Of(a), Of(b)), Of(Both(a, b)));
    } else {
      XorZero(0);
      BothZero(a, b);
    }
  }

  // Numbers cut at bit n.
  lemma {:induction false} XorCut(a: nat, b: nat, x: nat, y: nat, n: nat)
    requires x < Pow2(n) && y < Pow2(n)
    ensures Xor(a * Pow2(n) + x, b * Pow2(n) + y) == Xor(a, b) * Pow2(n) + Xor(x, y)
    decreases n
  {
    if n == 0 {
      XorZero(0);
    } else {
      var q := Pow2(n - 1);
      XorCut(a, b, x / 2, y / 2, n - 1);
      assert Pow2(n) == 2 * q;
      hide *;
      CutStep(a, b, x, y, q);
    }
  }

  lemma CutStep(a: nat, b: nat, x: nat, y: nat, q: nat)
    requires Xor(a * q + x / 2, b * q + y / 2) == Xor(a, b) * q + Xor(x / 2, y / 2)
    ensures Xor(a * (2 * q) + x, b * (2 * q) + y) == Xor(a, b) * (2 * q) + Xor(x, y)
  {
    hide Xor;
    var u, v, z := a * (2 * q) + x, b * (2 * q) + y, Xor(a, b) * (2 * q) + Xor(x, y);
    CutHalf(a, x, q);
    CutHalf(b, y, q);
    CutHalf(Xor(a, b), Xor(x, y), q);
    XorHalf(x, y);
    XorHalf(u, v);
    SameHalves(Xor(u, v), z);
  }

  lemma CutHalf(a: nat, x: nat, q: nat)
    ensures (a * (2 * q) + x) / 2 == a * q + x / 2 && (a * (2 * q) + x) % 2 == x % 2
  {
    assert a * (2 * q) == 2 * (a * q);
  }

  function Then(x: nat, b: nat): nat {
    x * 256 + b
  }

  // The number with the given bytes, the most significant first.
  function Number(a: nat, b: nat, c: nat, d: nat, e: nat, f: nat, g: nat, h: nat): nat {
    Then(Then(Then(Then(Then(Then(Then(a, b), c), d), e), f), g), h)
  }

  lemma ByteBound(a: bv8)
    ensures Of(a) < 256
  {}

  lemma XorNext(x: nat, y: nat, a: bv8, b: bv8)
    ensures Xor(Then(x, Of(a)), Then(y, Of(b))) == Then(Xor(x, y), Of(Both(a, b)))
  {
    Pow2Of8();
    ByteBound(a);
    ByteBound(b);
    hide Pow2, Xor, Of, Both;
    XorOfBytes(a, b);
    XorCut(x, y, Of(a), Of(b), 8);
  }

  // The exclusive or of two words, given by their bytes.
  lemma XorIs(a: bv8, b: bv8, c: bv8, d: bv8, e: bv8, f: bv8, g: bv8, h: bv8,
              a': bv8, b': bv8, c': bv8, d': bv8, e': bv8, f': bv8, g': bv8, h': bv8)
    ensures Xor(Number(Of(a), Of(b), Of(c), Of(d), Of(e), Of(f), Of(g), Of(h)),
                Number(Of(a'), Of(b'), Of(c'), Of(d'), Of(e'), Of(f'), Of(g'), Of(h')))
         == Number(Of(Both(a, a')), Of(Both(b, b')), Of(Both(c, c')), Of(Both(d, d')),
                   Of(Both(e, e')), Of(Both(f, f')), Of(Both(g, g')), Of(Both(h, h')))
  {
    hide Xor, Then, Of, Both;
    var x2, y2 := Then(Of(a), Of(b)), Then(Of(a'), Of(b'));
    var x3, y3 := Then(x2, Of(c)), Then(y2, Of(c'));
    var x4, y4 := Then(x3, Of(d)), Then(y3, Of(d'));
    var x5, y5 := Then(x4, Of(e)), Then(y4, Of(e'));
    var x6, y6 := Then(x5, Of(f)), Then(y5, Of(f'));
    var x7, y7 := Then(x6, Of(g)), Then(y6, Of(g'));
    XorOfBytes(a, a');
    XorNext(Of(a), Of(a'), b, b');
    XorNext(x2, y2, c, c');
    XorNext(x3, y3, d, d');
    XorNext(x4, y4, e, e');
    XorNext(x5, y5, f, f');
    XorNext(x6, y6, g, g');
    XorNext(x7, y7, h, h');
  }

  // ---------------------------------------------------------------- the rounds

  // Powers used by the rotations and shifts.
  lemma PowerOf(n: nat, p: nat)
    requires n <= 64 && Pow2(n) == p
    ensures p > 0 && Pow2(64 - n) * p == WORD
  {
    var x, y := Factors(n);
  }

  lemma Powers()
    ensures Pow2(1) == 2 && Pow2(7) == 0x80 && Pow2(11) == 0x800 && Pow2(12) == 0x1000 && Pow2(18) == 0x4_0000
    ensures Pow2(23) == 0x80_0000 && Pow2(27) == 0x800_0000 && Pow2(29) == 0x2000_0000
    ensures Pow2(31) == 0x8000_0000 && Pow2(32) == 0x1_0000_0000 && Pow2(33) == 0x2_0000_0000
  {
    Pow2Of8();
    assert Pow2(1) == 2 && Pow2(3) == 8 && Pow2(4) == 16 && Pow2(7) == 128;
    hide Pow2;
    Pow2Add(8, 3);
    Pow2Add(8, 4);
    Pow2Add(8, 8);
    Pow2Add(16, 3);
    Pow2Add(11, 7);
    Pow2Add(16, 7);
    Pow2Add(16, 11);
    Pow2Add(18, 11);
    Pow2Add(16, 16);
    Pow2Add(27, 4);
    Pow2Add(32, 1);
  }

  // The rotation of a word whose upper r bits are hi.
  lemma RotIs(x: Word, r: nat, hi: nat, lo: nat, p: nat, q: nat)
    requires 0 < r < 64 && p == Pow2(r) && q * p == WORD
    requires x == hi * q + lo && hi < p && lo < q
    ensures Rot(x, r) == lo * p + hi
  {
    PowerOf(r, p);
    hide Rotl, Pow2;
    assert q == Pow2(64 - r) by { SameFactor(q, Pow2(64 - r), p); }
    RotlParts(x, r, p, q, hi, lo);
  }

  lemma SameFactor(a: nat, b: nat, p: nat)
    requires p > 0 && a * p == b * p
    ensures a == b
  {
    MulSign(a - b, p);
    assert (a - b) * p == a * p - b * p;
  }

  lemma ShiftIs(x: Word, n: nat, p: nat, y: nat)
    requires Pow2(n) == p && y * p <= x < (y + 1) * p
    ensures Shift(x, n) == Xor(x, y)
  {
    hide Xor, Shr, Pow2;
    ShrBlock(x, n, y);
  }

  lemma MulIs(a: nat, b: nat, q: nat, r: nat)
    requires a * b == q * WORD + r && r < WORD
    ensures Mul(a, b) == r
  {
    ModUnique(a * b, WORD, q, r);
  }

  lemma MixIs(k: Word, hi: nat, lo: nat, m: Word)
    requires Mul(k, NUMBER64_2) == hi * 0x2_0000_0000 + lo && hi < 0x8000_0000 && lo < 0x2_0000_0000
    requires m == Mul(lo * 0x8000_0000 + hi, NUMBER64_1)
    ensures MixWord(k) == m
  {
    Powers();
    hide Pow2, Rotl, Mul;
    RotIs(Mul(k, NUMBER64_2), 31, hi, lo, 0x8000_0000, 0x2_0000_0000);
  }

  lemma LaneIs(v: Word, w: Word, hi: nat, lo: nat, r: Word)
    requires Add(v, Mul(w, NUMBER64_2)) == hi * 0x2_0000_0000 + lo && hi < 0x8000_0000 && lo < 0x2_0000_0000
    requires r == Mul(lo * 0x8000_0000 + hi, NUMBER64_1)
    ensures Lane(v, w) == r
  {
    Powers();
    hide Pow2, Rotl, Mul, Add;
    RotIs(Add(v, Mul(w, NUMBER64_2)), 31, hi, lo, 0x8000_0000, 0x2_0000_0000);
  }

  lemma MergeLaneIs(h: Word, v: Word, m: Word, x: Word, r: Word)
    requires MixWord(v) == m && Xor(h, m) == x && r == Add(Mul(x, NUMBER64_1), NUMBER64_4)
    ensures MergeLane(h, v) == r
  {
    hide MixWord, Xor, Mul, Add;
  }

  lemma EatWordIs(h: Word, k: Word, m: Word, hi: nat, lo: nat, r: Word)
    requires MixWord(k) == m && Xor(h, m) == hi * 0x20_0000_0000 + lo && hi < 0x800_0000 && lo < 0x20_0000_0000
    requires r == Add(Mul(lo * 0x800_0000 + hi, NUMBER64_1), NUMBER64_4)
    ensures EatWord(h, k) == r
  {
    Powers();
    hide Pow2, Rotl, Mul, Add, MixWord, Xor;
    RotIs(Mask(h, m), 27, hi, lo, 0x800_0000, 0x20_0000_0000);
  }

  lemma EatHalfIs(h: Word, k: Word, m: Word, hi: nat, lo: nat, r: Word)
    requires Mul(k, NUMBER64_1) == m && Xor(h, m) == hi * 0x200_0000_0000 + lo && hi < 0x80_0000 && lo < 0x200_0000_0000
    requires r == Add(Mul(lo * 0x80_0000 + hi, NUMBER64_2), NUMBER64_3)
    ensures EatHalf(h, k) == r
  {
    Powers();
    hide Pow2, Rotl, Mul, Add, Xor;
    RotIs(Mask(h, m), 23, hi, lo, 0x80_0000, 0x200_0000_0000);
  }

  lemma EatByteIs(h: Word, b: Byte, m: Word, hi: nat, lo: nat, r: Word)
    requires Mul(b, NUMBER64_5) == m && Xor(h, m) == hi * 0x20_0000_0000_0000 + lo
    requires hi < 0x800 && lo < 0x20_0000_0000_0000
    requires r == Mul(lo * 0x800 + hi, NUMBER64_1)
    ensures EatByte(h, b) == r
  {
    Powers();
    hide Pow2, Rotl, Mul, Xor;
    RotIs(Mask(h, m), 11, hi, lo, 0x800, 0x20_0000_0000_0000);
  }

  // s1, s2 and s3 are the values shifted in.
  lemma FinishIs(h: Word, s1: nat, x1: Word, a: Word, s2: nat, x2: Word, b: Word, s3: nat, r: Word)
    requires s1 * 0x2_0000_0000 <= h < (s1 + 1) * 0x2_0000_0000 && Xor(h, s1) == x1 && Mul(x1, NUMBER64_2) == a
    requires s2 * 0x2000_0000 <= a < (s2 + 1) * 0x2000_0000 && Xor(a, s2) == x2 && Mul(x2, NUMBER64_3) == b
    requires s3 * 0x1_0000_0000 <= b < (s3 + 1) * 0x1_0000_0000 && Xor(b, s3) == r
    ensures Finish(h) == r
  {
    Powers();
    hide Pow2, Shift, Mul, Xor;
    ShiftIs(h, 33, 0x2_0000_0000, s1);
    ShiftIs(a, 29, 0x2000_0000, s2);
    ShiftIs(b, 32, 0x1_0000_0000, s3);
  }

  // ---------------------------------------------------------------- the steps of the five hashes

  lemma FinishNoneZero()
    ensures Finish(0x27D4EB2F165667C5) == 0xEF46DB3751D8E999
  {
    hide Xor, Mul, Finish;
    XorIs(0x27, 0xD4, 0xEB, 0x2F, 0x16, 0x56, 0x67, 0xC5,
          0x00, 0x00, 0x00, 0x00, 0x13, 0xEA, 0x75, 0x97);
    MulIs(0x27D4EB2F05BC1252, NUMBER64_2, 0x1E4B276164D31384, 0xBEB13DDA13C2ED4E);
    XorIs(0xBE, 0xB1, 0x3D, 0xDA, 0x13, 0xC2, 0xED, 0x4E,
          0x00, 0x00, 0x00, 0x05, 0xF5, 0x89, 0xEE, 0xD0);
    MulIs(0xBEB13DDFE64B039E, NUMBER64_3, 0x10A39819A54D6418, 0xEF46DB37BE9E32AE);
    XorIs(0xEF, 0x46, 0xDB, 0x37, 0xBE, 0x9E, 0x32, 0xAE,
          0x00, 0x00, 0x00, 0x00, 0xEF, 0x46, 0xDB, 0x37);
    FinishIs(0x27D4EB2F165667C5, 0x13EA7597, 0x27D4EB2F05BC1252, 0xBEB13DDA13C2ED4E, 0x5F589EED0,
             0xBEB13DDFE64B039E, 0xEF46DB37BE9E32AE, 0xEF46DB37, 0xEF46DB3751D8E999);
  }

  lemma FinishNone()
    ensures Finish(0x27D4EB2FDD65D0CC) == 0xD6BE8DD0AB3E7CCE
  {
    hide Xor, Mul, Finish;
    XorIs(0x27, 0xD4, 0xEB, 0x2F, 0xDD, 0x65, 0xD0, 0xCC,
          0x00, 0x00, 0x00, 0x00, 0x13, 0xEA, 0x75, 0x97);
    MulIs(0x27D4EB2FCE8FA55B, NUMBER64_2, 0x1E4B2761FD8F94BD, 0x948CA833677A9015);
    XorIs(0x94, 0x8C, 0xA8, 0x33, 0x67, 0x7A, 0x90, 0x15,
          0x00, 0x00, 0x00, 0x04, 0xA4, 0x65, 0x41, 0x9B);
    MulIs(0x948CA837C31FD18E, NUMBER64_3, 0xCF639E0F63E0793, 0xD6BE8DD07D80F11E);
    XorIs(0xD6, 0xBE, 0x8D, 0xD0, 0x7D, 0x80, 0xF1, 0x1E,
          0x00, 0x00, 0x00, 0x00, 0xD6, 0xBE, 0x8D, 0xD0);
    FinishIs(0x27D4EB2FDD65D0CC, 0x13EA7597, 0x27D4EB2FCE8FA55B, 0x948CA833677A9015, 0x4A465419B,
             0x948CA837C31FD18E, 0xD6BE8DD07D80F11E, 0xD6BE8DD0, 0xD6BE8DD0AB3E7CCE);
  }

  lemma EatOne()
    ensures EatByte(0x27D4EB2FDD65D0CD, 0x1) == 0x4ADED1184EA9C000
  {
    hide Xor, Mul, MixWord, EatWord, EatHalf, EatByte, MergeLane, Finish;
    MulIs(0x1, NUMBER64_5, 0x0, 0x27D4EB2F165667C5);
    XorIs(0x27, 0xD4, 0xEB, 0x2F, 0xDD, 0x65, 0xD0, 0xCD,
          0x27, 0xD4, 0xEB, 0x2F, 0x16, 0x56, 0x67, 0xC5);
    MulIs(0x6599DB84000, NUMBER64_1, 0x3ECAF9D5CEA, 0x4ADED1184EA9C000);
    EatByteIs(0x27D4EB2FDD65D0CD, 0x1, 0x27D4EB2F165667C5, 0x0, 0xCB33B708, 0x4ADED1184EA9C000);
  }

  lemma FinishOne()
    ensures Finish(0x4ADED1184EA9C000) == 0x34A8091CC4643F44
  {
    hide Xor, Mul, Finish;
    XorIs(0x4A, 0xDE, 0xD1, 0x18, 0x4E, 0xA9, 0xC0, 0x00,
          0x00, 0x00, 0x00, 0x00, 0x25, 0x6F, 0x68, 0x8C);
    MulIs(0x4ADED1186BC6A88C, NUMBER64_2, 0x38F11C5739841F1F, 0x8395C70586F68734);
    XorIs(0x83, 0x95, 0xC7, 0x05, 0x86, 0xF6, 0x87, 0x34,
          0x00, 0x00, 0x00, 0x04, 0x1C, 0xAE, 0x38, 0x2C);
    MulIs(0x8395C7019A58BF18, NUMBER64_3, 0xB7B48B78CC0AC24, 0x34A8091CF0CC3658);
    XorIs(0x34, 0xA8, 0x09, 0x1C, 0xF0, 0xCC, 0x36, 0x58,
          0x00, 0x00, 0x00, 0x00, 0x34, 0xA8, 0x09, 0x1C);
    FinishIs(0x4ADED1184EA9C000, 0x256F688C, 0x4ADED1186BC6A88C, 0x8395C70586F68734, 0x41CAE382C,
             0x8395C7019A58BF18, 0x34A8091CF0CC3658, 0x34A8091C, 0x34A8091CC4643F44);
  }

  lemma EatFour()
    ensures EatHalf(0x27D4EB2FDD65D0D0, 0x4030201) == 0xDA41EB51FE9DBF6E
  {
    hide Xor, Mul, MixWord, EatWord, EatHalf, EatByte, MergeLane, Finish;
    MulIs(0x4030201, NUMBER64_1, 0x27AB9CA, 0x40571DAAD915D887);
    XorIs(0x27, 0xD4, 0xEB, 0x2F, 0xDD, 0x65, 0xD0, 0xD0,
          0x40, 0x57, 0x1D, 0xAA, 0xD9, 0x15, 0xD8, 0x87);
    MulIs(0x428238042BB3C1FB, NUMBER64_2, 0x32951A428177F230, 0xC3EB83A060664575);
    EatHalfIs(0x27D4EB2FDD65D0D0, 0x4030201, 0x40571DAAD915D887, 0x33C1FB, 0x8504700857, 0xDA41EB51FE9DBF6E);
  }

  lemma FinishFour()
    ensures Finish(0xDA41EB51FE9DBF6E) == 0x7045D4E7B7501C3E
  {
    hide Xor, Mul, Finish;
    XorIs(0xDA, 0x41, 0xEB, 0x51, 0xFE, 0x9D, 0xBF, 0x6E,
          0x00, 0x00, 0x00, 0x00, 0x6D, 0x20, 0xF5, 0xA8);
    MulIs(0xDA41EB5193BD4AC6, NUMBER64_2, 0xA5FE4AB6624A4331, 0x1105151F7105D51A);
    XorIs(0x11, 0x05, 0x15, 0x1F, 0x71, 0x05, 0xD5, 0x1A,
          0x00, 0x00, 0x00, 0x00, 0x88, 0x28, 0xA8, 0xFB);
    MulIs(0x1105151FF92D7DE1, NUMBER64_3, 0x17C2E6AB2AFE9B3, 0x7045D4E7C715C8D9);
    XorIs(0x70, 0x45, 0xD4, 0xE7, 0xC7, 0x15, 0xC8, 0xD9,
          0x00, 0x00, 0x00, 0x00, 0x70, 0x45, 0xD4, 0xE7);
    FinishIs(0xDA41EB51FE9DBF6E, 0x6D20F5A8, 0xDA41EB5193BD4AC6, 0x1105151F7105D51A, 0x8828A8FB,
             0x1105151FF92D7DE1, 0x7045D4E7C715C8D9, 0x7045D4E7, 0x7045D4E7B7501C3E);
  }

  lemma EatEight()
    ensures EatWord(0x27D4EB2FDD65D0D4, 0x807060504030201) == 0x126D17AFCBEF42A6
  {
    hide Xor, Mul, MixWord, EatWord, EatHalf, EatByte, MergeLane, Finish;
    MulIs(0x807060504030201, NUMBER64_2, 0x61AECE8AD8AA8A4, 0xD33B6643CF98894F);
    MulIs(0xE7CC44A7E99DB321, NUMBER64_1, 0x8F424D72AC33FA83, 0x9731878735CC8067);
    MixIs(0x807060504030201, 0x699DB321, 0x1CF98894F, 0x9731878735CC8067);
    XorIs(0x27, 0xD4, 0xEB, 0x2F, 0xDD, 0x65, 0xD0, 0xD4,
          0x97, 0x31, 0x87, 0x87, 0x35, 0xCC, 0x80, 0x67);
    MulIs(0x47454A859D872B65, NUMBER64_1, 0x2C0C35C2A658975E, 0x8C814D38093C9443);
    EatWordIs(0x27D4EB2FDD65D0D4, 0x807060504030201, 0x9731878735CC8067, 0x5872B65, 0x8E8A950B3, 0x126D17AFCBEF42A6);
  }

  lemma FinishEight()
    ensures Finish(0x126D17AFCBEF42A6) == 0x10AAF7BD54B4E7B2
  {
    hide Xor, Mul, Finish;
    XorIs(0x12, 0x6D, 0x17, 0xAF, 0xCB, 0xEF, 0x42, 0xA6,
          0x00, 0x00, 0x00, 0x00, 0x09, 0x36, 0x8B, 0xD7);
    MulIs(0x126D17AFC2D9C971, NUMBER64_2, 0xE03885836D4934A, 0x6006FF1315B3E4DF);
    XorIs(0x60, 0x06, 0xFF, 0x13, 0x15, 0xB3, 0xE4, 0xDF,
          0x00, 0x00, 0x00, 0x03, 0x00, 0x37, 0xF8, 0x98);
    MulIs(0x6006FF1015841C47, NUMBER64_3, 0x861032A820F8844, 0x10AAF7BD441E100F);
    XorIs(0x10, 0xAA, 0xF7, 0xBD, 0x44, 0x1E, 0x10, 0x0F,
          0x00, 0x00, 0x00, 0x00, 0x10, 0xAA, 0xF7, 0xBD);
    FinishIs(0x126D17AFCBEF42A6, 0x9368BD7, 0x126D17AFC2D9C971, 0x6006FF1315B3E4DF, 0x30037F898,
             0x6006FF1015841C47, 0x10AAF7BD441E100F, 0x10AAF7BD, 0x10AAF7BD54B4E7B2);
  }

  lemma MergeLane1()
    ensures MergeLane(0xC5351D2FA1D02922, 0x9B3CF23051F3B82F) == 0x815D89CA407E4DC2
  {
    hide Xor, Mul, MixWord, EatWord, EatHalf, EatByte, MergeLane, Finish;
    MulIs(0x9B3CF23051F3B82F, NUMBER64_2, 0x7610899185FDA04F, 0xA391EC3AB434FB81);
    MulIs(0x5A1A7DC0D1C8F61D, NUMBER64_1, 0x37AFE02306CAF07A, 0xD6B1509B30CBAB4B);
    MixIs(0x9B3CF23051F3B82F, 0x51C8F61D, 0xB434FB81, 0xD6B1509B30CBAB4B);
    XorIs(0xC5, 0x35, 0x1D, 0x2F, 0xA1, 0xD0, 0x29, 0x22,
          0xD6, 0xB1, 0x50, 0x9B, 0x30, 0xCB, 0xAB, 0x4B);
    MulIs(0x13844DB4911B8269, NUMBER64_1, 0xC0FE2A934C3F016, 0xFB71BF527DCB9F5F);
    MergeLaneIs(0xC5351D2FA1D02922, 0x9B3CF23051F3B82F, 0xD6B1509B30CBAB4B, 0x13844DB4911B8269, 0x815D89CA407E4DC2);
  }

  lemma MergeLane2()
    ensures MergeLane(0x815D89CA407E4DC2, 0x6A5B022A314B7EF7) == 0x565C9A6B3CCE0EB3
  {
    hide Xor, Mul, MixWord, EatWord, EatHalf, EatByte, MergeLane, Finish;
    MulIs(0x6A5B022A314B7EF7, NUMBER64_2, 0x50E3334EBE6600B9, 0x1A8CDBFD4964EB39);
    MulIs(0xA4B2759C8D466DFE, NUMBER64_1, 0x65C9D53872F68B40, 0x5445EE7201186CF2);
    MixIs(0x6A5B022A314B7EF7, 0xD466DFE, 0x14964EB39, 0x5445EE7201186CF2);
    XorIs(0x81, 0x5D, 0x89, 0xCA, 0x40, 0x7E, 0x4D, 0xC2,
          0x54, 0x45, 0xEE, 0x72, 0x01, 0x18, 0x6C, 0xF2);
    MulIs(0xD51867B841662130, NUMBER64_1, 0x83B33D8E4F52D69A, 0xD070CFF37A1B6050);
    MergeLaneIs(0x815D89CA407E4DC2, 0x6A5B022A314B7EF7, 0x5445EE7201186CF2, 0xD51867B841662130, 0x565C9A6B3CCE0EB3);
  }

  lemma MergeLane3()
    ensures MergeLane(0x565C9A6B3CCE0EB3, 0xFE5F0926015795C) == 0x8AE72EDAB8D13670
  {
    hide Xor, Mul, MixWord, EatWord, EatHalf, EatByte, MergeLane, Finish;
    MulIs(0xFE5F0926015795C, NUMBER64_2, 0xC175902485E25C4, 0x1938E590E137E764);
    MulIs(0x709BF3B20C9C72C8, NUMBER64_1, 0x4598A7710BF4A85F, 0x68EAC05F5EAA5778);
    MixIs(0xFE5F0926015795C, 0xC9C72C8, 0xE137E764, 0x68EAC05F5EAA5778);
    XorIs(0x56, 0x5C, 0x9A, 0x6B, 0x3C, 0xCE, 0x0E, 0xB3,
          0x68, 0xEA, 0xC0, 0x5F, 0x5E, 0xAA, 0x57, 0x78);
    MulIs(0x3EB65A34626459CB, NUMBER64_1, 0x26C222A96380B393, 0x4FB6462F61E880D);
    MergeLaneIs(0x565C9A6B3CCE0EB3, 0xFE5F0926015795C, 0x68EAC05F5EAA5778, 0x3EB65A34626459CB, 0x8AE72EDAB8D13670);
  }

  lemma MergeLane4()
    ensures MergeLane(0x8AE72EDAB8D13670, 0xDF04008C3F6D4024) == 0x4188B963C82847EC
  {
    hide Xor, Mul, MixWord, EatWord, EatHalf, EatByte, MergeLane, Finish;
    MulIs(0xDF04008C3F6D4024, NUMBER64_2, 0xA99CB0FCA89B717C, 0x9033D5537667D71C);
    MulIs(0xBB33EB8E4819EAA9, NUMBER64_1, 0x73B29C86C73BFFFD, 0xA9754379AEF7191F);
    MixIs(0xDF04008C3F6D4024, 0x4819EAA9, 0x17667D71C, 0xA9754379AEF7191F);
    XorIs(0x8A, 0xE7, 0x2E, 0xDA, 0xB8, 0xD1, 0x36, 0x70,
          0xA9, 0x75, 0x43, 0x79, 0xAE, 0xF7, 0x19, 0x1F);
    MulIs(0x23926DA316262F6F, NUMBER64_1, 0x15FC150916610D39, 0xBB9CEEEC05759989);
    MergeLaneIs(0x8AE72EDAB8D13670, 0xDF04008C3F6D4024, 0xA9754379AEF7191F, 0x23926DA316262F6F, 0x4188B963C82847EC);
  }

  lemma FinishThirtyTwo()
    ensures Finish(0x4188B963C828480C) == 0x5445A2C96D457216
  {
    hide Xor, Mul, Finish;
    XorIs(0x41, 0x88, 0xB9, 0x63, 0xC8, 0x28, 0x48, 0x0C,
          0x00, 0x00, 0x00, 0x00, 0x20, 0xC4, 0x5C, 0xB1);
    MulIs(0x4188B963E8EC14BD, NUMBER64_2, 0x31D75A2933C346B1, 0x165C2E588F67E553);
    XorIs(0x16, 0x5C, 0x2E, 0x58, 0x8F, 0x67, 0xE5, 0x53,
          0x00, 0x00, 0x00, 0x00, 0xB2, 0xE1, 0x72, 0xC4);
    MulIs(0x165C2E583D869797, NUMBER64_3, 0x1F37801C1218511, 0x5445A2C93900D0DF);
    XorIs(0x54, 0x45, 0xA2, 0xC9, 0x39, 0x00, 0xD0, 0xDF,
          0x00, 0x00, 0x00, 0x00, 0x54, 0x45, 0xA2, 0xC9);
    FinishIs(0x4188B963C828480C, 0x20C45CB1, 0x4188B963E8EC14BD, 0x165C2E588F67E553, 0xB2E172C4,
             0x165C2E583D869797, 0x5445A2C93900D0DF, 0x5445A2C9, 0x5445A2C96D457216);
  }

  // ---------------------------------------------------------------- hash values

  // The seed of the tables.
  const SEED: Word := 0xC70F6907

  // The bytes 1, 2, ..., n.
  function Count(n: nat): (s: Bytes)
    requires n < 256
    ensures |s| == n && forall i :: 0 <= i < n ==> s[i] == i + 1
  {
    seq(n, i requires 0 <= i < n => i + 1)
  }

  lemma Seeded()
    ensures Add(Add(SEED, NUMBER64_5), 1) == 0x27D4EB2FDD65D0CD
    ensures Add(Add(SEED, NUMBER64_5), 4) == 0x27D4EB2FDD65D0D0
    ensures Add(Add(SEED, NUMBER64_5), 8) == 0x27D4EB2FDD65D0D4
  {}

  lemma HashOfNone()
    ensures Hash([], 0) == 0xEF46DB3751D8E999
    ensures Hash([], SEED) == 0xD6BE8DD0AB3E7CCE
  {
    FinishNoneZero();
    FinishNone();
    hide Finish;
  }

  lemma HashOfOneByte()
    ensures Hash([1], SEED) == 0x34A8091CC4643F44
  {
    hide *;
    Seeded();
    HashOfOne(1, SEED);
    EatOne();
    FinishOne();
  }

  lemma HashOfFourBytes()
    ensures Hash([1, 2, 3, 4], SEED) == 0x7045D4E7B7501C3E
  {
    hide *;
    Seeded();
    FourBytes(1, 2, 3, 4);
    HashOfFour([1, 2, 3, 4], SEED);
    EatFour();
    FinishFour();
  }

  lemma HashOfEightBytes()
    ensures Hash([1, 2, 3, 4, 5, 6, 7, 8], SEED) == 0x10AAF7BD54B4E7B2
  {
    hide *;
    Seeded();
    EightLow();
    HashOfEight([1, 2, 3, 4, 5, 6, 7, 8], SEED);
    EatEight();
    FinishEight();
  }

  lemma FourBytes(a: Byte, b: Byte, c: Byte, d: Byte)
    ensures FromBytes([a, b, c, d]) == 0x100_0000 * d + 0x1_0000 * c + 0x100 * b + a
  {
    hide FromBytes;
    FromOne(d);
    FromCons(c, [d]);
    FromCons(b, [c] + [d]);
    FromCons(a, [b] + ([c] + [d]));
    assert [a, b, c, d] == [a] + ([b] + ([c] + [d]));
  }

  lemma EightLow()
    ensures FromBytes([1, 2, 3, 4, 5, 6, 7, 8]) == 0x0807060504030201
  {
    EightBytes(1, 2, 3, 4, 5, 6, 7, 8);
    hide FromBytes;
  }

  const LANES := Lanes(0x9B3CF23051F3B82F, 0x6A5B022A314B7EF7, 0xFE5F0926015795C, 0xDF04008C3F6D4024)

  lemma FirstLanes()
    ensures Start(SEED) == Lanes(0x60EA27EF74D01EDD, 0xC2B2AE3DEEE45456, 0xC70F6907, 0x61C8864F41239E80)
    ensures Lane(0x60EA27EF74D01EDD, 0x807060504030201) == 0x9B3CF23051F3B82F
    ensures Lane(0xC2B2AE3DEEE45456, 0x100F0E0D0C0B0A09) == 0x6A5B022A314B7EF7
    ensures Lane(0xC70F6907, 0x1817161514131211) == 0xFE5F0926015795C
    ensures Lane(0x61C8864F41239E80, 0x201F1E1D1C1B1A19) == 0xDF04008C3F6D4024
  {
    hide Mul, Lane;
    MulIs(0x807060504030201, NUMBER64_2, 0x61AECE8AD8AA8A4, 0xD33B6643CF98894F);
    MulIs(0xA23454161A12C719, NUMBER64_1, 0x643F723EEB9E5C90, 0x9B3CF23051F3B82F);
    LaneIs(0x60EA27EF74D01EDD, 0x807060504030201, 0x1A12C719, 0x14468A82C, 0x9B3CF23051F3B82F);
    MulIs(0x100F0E0D0C0B0A09, NUMBER64_2, 0xC369E0BB9D59AF1, 0x91E479E588125BC7);
    MulIs(0xBB7B580EAA4B9411, NUMBER64_1, 0x73DEC0F8473BCF8C, 0x6A5B022A314B7EF7);
    LaneIs(0xC2B2AE3DEEE45456, 0x100F0E0D0C0B0A09, 0x2A4B9411, 0x176F6B01D, 0x6A5B022A314B7EF7);
    MulIs(0x1817161514131211, NUMBER64_2, 0x12524F2EC6208D3E, 0x508D8D87408C2E3F);
    MulIs(0x3CDCBA32846C6C4, NUMBER64_1, 0x259D6B45B70AB72, 0xFE5F0926015795C);
    LaneIs(0xC70F6907, 0x1817161514131211, 0x2846C6C4, 0x79B9746, 0xFE5F0926015795C);
    MulIs(0x201F1E1D1C1B1A19, NUMBER64_2, 0x186E0051D26B7F8B, 0xF36A128F90600B7);
    MulIs(0x1D14CF9BB87F93BC, NUMBER64_1, 0x11F9256DB70E1E6D, 0xDF04008C3F6D4024);
    LaneIs(0x61C8864F41239E80, 0x201F1E1D1C1B1A19, 0x387F93BC, 0x3A299F37, 0xDF04008C3F6D4024);
  }

  // The only stripe of the bytes 1, 2, ..., 32.
  lemma FirstStripe(s: Bytes)
    requires s == Count(32)
    ensures Stripes(s, SEED, 1) == LANES
  {
    ReadCount(s, 0, 0x807060504030201, 1, 2, 3, 4, 5, 6, 7, 8);
    ReadCount(s, 8, 0x100F0E0D0C0B0A09, 9, 10, 11, 12, 13, 14, 15, 16);
    ReadCount(s, 16, 0x1817161514131211, 17, 18, 19, 20, 21, 22, 23, 24);
    ReadCount(s, 24, 0x201F1E1D1C1B1A19, 25, 26, 27, 28, 29, 30, 31, 32);
    FirstLanes();
    hide Lane, Read64;
    assert Stripes(s, SEED, 0) == Start(SEED);
    assert Stripes(s, SEED, 1) == NextStripe(Start(SEED), s, 0);
  }

  lemma ReadCount(s: Bytes, p: nat, w: nat, a: nat, b: nat, c: nat, d: nat, e: nat, f: nat, g: nat, h: nat)
    requires p + 8 <= |s| < 256 && s == Count(|s|)
    requires a == p + 1 && b == p + 2 && c == p + 3 && d == p + 4
    requires e == p + 5 && f == p + 6 && g == p + 7 && h == p + 8
    requires w == Number(h, g, f, e, d, c, b, a)
    ensures Read64(s, p) == w
  {
    assert s[p..p + 8] == [a, b, c, d, e, f, g, h];
    EightBytes(a, b, c, d, e, f, g, h);
  }

  lemma FromCons(x: Byte, s: seq<Byte>)
    ensures FromBytes([x] + s) == x + 256 * FromBytes(s)
  {
    assert ([x] + s)[1..] == s;
  }

  lemma EightBytes(a: Byte, b: Byte, c: Byte, d: Byte, e: Byte, f: Byte, g: Byte, h: Byte)
    ensures FromBytes([a, b, c, d, e, f, g, h]) == Number(h, g, f, e, d, c, b, a)
  {
    hide FromBytes;
    FromOne(h);
    FromCons(g, [h]);
    FromCons(f, [g] + [h]);
    FromCons(e, [f] + ([g] + [h]));
    FromCons(d, [e] + ([f] + ([g] + [h])));
    FromCons(c, [d] + ([e] + ([f] + ([g] + [h]))));
    FromCons(b, [c] + ([d] + ([e] + ([f] + ([g] + [h])))));
    FromCons(a, [b] + ([c] + ([d] + ([e] + ([f] + ([g] + [h]))))));
    assert [a, b, c, d, e, f, g, h] == [a] + ([b] + ([c] + ([d] + ([e] + ([f] + ([g] + [h]))))));
  }

  lemma FromOne(x: Byte)
    ensures FromBytes([x]) == x
  {}

  lemma LanesMerged()
    ensures Merge(LANES) == 0x4188B963C82847EC
  {
    Powers();
    hide Pow2, Rot, MergeLane;
    RotIs(0x9B3CF23051F3B82F, 1, 0x1, 0x1B3CF23051F3B82F, 0x2, 0x8000000000000000);
    RotIs(0x6A5B022A314B7EF7, 7, 0x35, 0x5B022A314B7EF7, 0x80, 0x200000000000000);
    RotIs(0xFE5F0926015795C, 12, 0xFE, 0x5F0926015795C, 0x1000, 0x10000000000000);
    RotIs(0xDF04008C3F6D4024, 18, 0x37C10, 0x8C3F6D4024, 0x40000, 0x400000000000);
    MergeLane1();
    MergeLane2();
    MergeLane3();
    MergeLane4();
  }

  lemma HashOfThirtyTwo()
    ensures Hash(Count(32), SEED) == 0x5445A2C96D457216
  {
    var s := Count(32);
    FirstStripe(s);
    LanesMerged();
    FinishThirtyTwo();
    hide Stripes, Merge, Finish;
    assert Tail(0x4188B963C828480C, s, 32) == 0x4188B963C828480C;
  }
}
