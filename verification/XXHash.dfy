/** hash_compute and xxhash (util/hash.h): a 64-bit hash of a byte sequence. */
module XXHash {
  import opened Bits
  import opened Words

  const NUMBER64_1: Word := 11400714785074694791
  const NUMBER64_2: Word := 14029467366897019727
  const NUMBER64_3: Word := 1609587929392839161
  const NUMBER64_4: Word := 9650029242287828579
  const NUMBER64_5: Word := 2870177450012600261

  type Bytes = s: seq<Byte> | |s| < WORD

  function Read64(s: seq<Byte>, p: nat): Word
    requires p + 8 <= |s|
  {
    ToFromBytes(s[p..p + 8]);
    Pow2Of64();
    FromBytes(s[p..p + 8])
  }

  function Read32(s: seq<Byte>, p: nat): Word
    requires p + 4 <= |s|
  {
    ToFromBytes(s[p..p + 4]);
    Pow2Of64();
    Pow2Monotone(32, 64);
    FromBytes(s[p..p + 4])
  }

  // ---------------------------------------------------------------- rounds

  function Rot(x: Word, r: nat): Word
    requires 0 < r < 64
  {
    RotlInverse(x, r);
    Rotl(x, r)
  }

  function Mask(h: Word, x: Word): Word {
    XorWord(h, x);
    Xor(h, x)
  }

  function Shift(x: Word, n: nat): Word {
    XorShiftWord(x, n);
    XorShift(x, n)
  }

  // One lane of a 32-byte stripe.
  function Lane(v: Word, w: Word): Word {
    Mul(Rot(Add(v, Mul(w, NUMBER64_2)), 31), NUMBER64_1)
  }

  function MixWord(k: Word): Word {
    Mul(Rot(Mul(k, NUMBER64_2), 31), NUMBER64_1)
  }

  function MergeLane(h: Word, v: Word): Word {
    Add(Mul(Mask(h, MixWord(v)), NUMBER64_1), NUMBER64_4)
  }

  function EatWord(h: Word, k: Word): Word {
    Add(Mul(Rot(Mask(h, MixWord(k)), 27), NUMBER64_1), NUMBER64_4)
  }

  function EatHalf(h: Word, k: Word): Word {
    Add(Mul(Rot(Mask(h, Mul(k, NUMBER64_1)), 23), NUMBER64_2), NUMBER64_3)
  }

  function EatByte(h: Word, b: Byte): Word {
    Mul(Rot(Mask(h, Mul(b, NUMBER64_5)), 11), NUMBER64_1)
  }

  function Finish(h: Word): Word {
    Shift(Mul(Shift(Mul(Shift(h, 33), NUMBER64_2), 29), NUMBER64_3), 32)
  }

  // ---------------------------------------------------------------- the hash of a sequence

  datatype Lanes = Lanes(v1: Word, v2: Word, v3: Word, v4: Word)

  function Start(seed: Word): Lanes {
    Lanes(Add(Add(seed, NUMBER64_1), NUMBER64_2), Add(seed, NUMBER64_2), seed, Sub(seed, NUMBER64_1))
  }

  function NextStripe(l: Lanes, s: seq<Byte>, p: nat): Lanes
    requires p + 32 <= |s|
  {
    Lanes(Lane(l.v1, Read64(s, p)), Lane(l.v2, Read64(s, p + 8)),
          Lane(l.v3, Read64(s, p + 16)), Lane(l.v4, Read64(s, p + 24)))
  }

  // The lanes after the first n stripes.
  function Stripes(s: seq<Byte>, seed: Word, n: nat): Lanes
    requires 32 * n <= |s|
  {
    if n == 0 then Start(seed) else NextStripe(Stripes(s, seed, n - 1), s, 32 * (n - 1))
  }

  function Merge(l: Lanes): Word {
    var h := Add(Add(Add(Rot(l.v1, 1), Rot(l.v2, 7)), Rot(l.v3, 12)), Rot(l.v4, 18));
    MergeLane(MergeLane(MergeLane(MergeLane(h, l.v1), l.v2), l.v3), l.v4)
  }

  function Head(s: Bytes, seed: Word): Word {
    if |s| >= 32 then Merge(Stripes(s, seed, |s| / 32)) else Add(seed, NUMBER64_5)
  }

  // The rest from position p on: whole words, then at most one half word, then single bytes.
  function Tail(h: Word, s: seq<Byte>, p: nat): Word
    requires p <= |s|
    decreases |s| - p
  {
    if p + 8 <= |s| then Tail(EatWord(h, Read64(s, p)), s, p + 8)
    else if p + 4 <= |s| then TailBytes(EatHalf(h, Read32(s, p)), s, p + 4)
    else TailBytes(h, s, p)
  }

  function TailBytes(h: Word, s: seq<Byte>, p: nat): Word
    requires p <= |s|
    decreases |s| - p
  {
    if p == |s| then h else TailBytes(EatByte(h, s[p]), s, p + 1)
  }

  function Hash(s: Bytes, seed: Word): Word {
    Finish(Tail(Add(Head(s, seed), |s|), s, |s| - |s| % 32))
  }

  // ---------------------------------------------------------------- the program

  // Lines 142-166: whole stripes.
  method StripePhase(s: Bytes, seed: Word) returns (v: Lanes, p: nat, stripes: nat)
    requires |s| >= 32
    ensures p == 32 * stripes == |s| - |s| % 32
    ensures v == Stripes(s, seed, |s| / 32)
  {
    hide Lane, Read64;
    var limitation := |s| - 32;
    v, p, stripes := Start(seed), 0, 0;
    while true
      invariant p == 32 * stripes <= limitation && v == Stripes(s, seed, stripes)
      decreases |s| - p
    {
      var v1 := Lane(v.v1, Read64(s, p));
      p := p + 8;
      var v2 := Lane(v.v2, Read64(s, p));
      p := p + 8;
      var v3 := Lane(v.v3, Read64(s, p));
      p := p + 8;
      var v4 := Lane(v.v4, Read64(s, p));
      p := p + 8;
      stripes := stripes + 1;
      v := Lanes(v1, v2, v3, v4);
      if !(p <= limitation) { break; }
    }
    assert stripes == |s| / 32;
  }

  // Lines 201-224: the bytes after the stripes.
  method TailPhase(h: Word, s: Bytes, from: nat) returns (hash: Word, words: nat, halves: nat, bytes: nat)
    requires from <= |s|
    ensures hash == Tail(h, s, from)
    ensures from + 8 * words + 4 * halves + bytes == |s|
    ensures halves < 2 && bytes < 4
  {
    hide EatWord, EatHalf, EatByte, Read64, Read32;
    var p := from;
    hash, words, halves, bytes := h, 0, 0, 0;
    while p + 8 <= |s|
      invariant p == from + 8 * words <= |s| && Tail(hash, s, p) == Tail(h, s, from)
    {
      hash := EatWord(hash, Read64(s, p));
      p := p + 8;
      words := words + 1;
    }
    if p + 4 <= |s| {
      hash := EatHalf(hash, Read32(s, p));
      p := p + 4;
      halves := 1;
    }
    while p < |s|
      invariant p == from + 8 * words + 4 * halves + bytes <= |s| && TailBytes(hash, s, p) == Tail(h, s, from)
    {
      hash := EatByte(hash, s[p]);
      p := p + 1;
      bytes := bytes + 1;
    }
  }

  // hash_compute; both alignments read the same bytes.  The counters tell how often each phase
  // was entered: together they consume the input exactly, and every read is inside it.
  method HashCompute(s: Bytes, seed: Word)
    returns (hash: Word, stripes: nat, words: nat, halves: nat, bytes: nat)
    ensures hash == Hash(s, seed)
    ensures 32 * stripes + 8 * words + 4 * halves + bytes == |s|
    ensures words < 4 && halves < 2 && bytes < 4
  {
    hide Merge, Finish, Tail, Stripes;
    var p := 0;
    stripes := 0;
    if |s| >= 32 {
      var v;
      v, p, stripes := StripePhase(s, seed);
      hash := Merge(v);
    } else {
      hash := Add(seed, NUMBER64_5);
    }
    assert p == |s| - |s| % 32;
    hash := Add(hash, |s|);
    hash, words, halves, bytes := TailPhase(hash, s, p);
    hash := Finish(hash);
  }

  // ---------------------------------------------------------------- inverses of the rounds

  // The odd constants have inverses modulo 2^64.
  const INVERSE_1: Word := 614540362697595703
  const INVERSE_2: Word := 839798700976720815
  const INVERSE_3: Word := 16855272203555305545
  const INVERSE_5: Word := 14236653164957433613

  lemma Inverses()
    ensures NUMBER64_1 * INVERSE_1 % WORD == 1 && INVERSE_1 * NUMBER64_1 % WORD == 1
    ensures NUMBER64_2 * INVERSE_2 % WORD == 1 && INVERSE_2 * NUMBER64_2 % WORD == 1
    ensures NUMBER64_3 * INVERSE_3 % WORD == 1 && INVERSE_3 * NUMBER64_3 % WORD == 1
    ensures NUMBER64_5 * INVERSE_5 % WORD == 1
  {}

  lemma MulInverse(x: Word)
    ensures Mul(Mul(x, NUMBER64_1), INVERSE_1) == x && Mul(Mul(x, INVERSE_1), NUMBER64_1) == x
    ensures Mul(Mul(x, NUMBER64_2), INVERSE_2) == x && Mul(Mul(x, INVERSE_2), NUMBER64_2) == x
    ensures Mul(Mul(x, NUMBER64_3), INVERSE_3) == x && Mul(Mul(x, INVERSE_3), NUMBER64_3) == x
  {
    hide Mul;
    Inverses();
    MulCancel(x, NUMBER64_1, INVERSE_1);
    MulCancel(x, INVERSE_1, NUMBER64_1);
    MulCancel(x, NUMBER64_2, INVERSE_2);
    MulCancel(x, INVERSE_2, NUMBER64_2);
    MulCancel(x, NUMBER64_3, INVERSE_3);
    MulCancel(x, INVERSE_3, NUMBER64_3);
  }

  function Unshift(x: Word, n: nat): Word {
    XorShiftWord(x, n);
    XorShiftWord(XorShift(x, n), 2 * n);
    UnXorShift(x, n)
  }

  lemma ShiftInverse(x: Word, n: nat)
    requires n >= 16
    ensures Unshift(Shift(x, n), n) == x && Shift(Unshift(x, n), n) == x
  {
    XorShiftInverse(x, n);
  }

  function Unfinish(r: Word): Word {
    Unshift(Mul(Unshift(Mul(Unshift(r, 32), INVERSE_3), 29), INVERSE_2), 33)
  }

  lemma FinishInverse(h: Word)
    ensures Unfinish(Finish(h)) == h && Finish(Unfinish(h)) == h
  {
    hide Mul, Shift, Unshift;
    var a := Mul(Shift(h, 33), NUMBER64_2);
    var b := Mul(Shift(a, 29), NUMBER64_3);
    ShiftInverse(h, 33);
    MulInverse(Shift(h, 33));
    ShiftInverse(a, 29);
    MulInverse(Shift(a, 29));
    ShiftInverse(b, 32);
    var c := Mul(Unshift(h, 32), INVERSE_3);
    var d := Mul(Unshift(c, 29), INVERSE_2);
    ShiftInverse(d, 33);
    MulInverse(Unshift(c, 29));
    ShiftInverse(c, 29);
    MulInverse(Unshift(h, 32));
    ShiftInverse(h, 32);
  }

  function UnmixWord(m: Word): Word {
    Mul(Rot(Mul(m, INVERSE_1), 33), INVERSE_2)
  }

  lemma RotInverse(x: Word, r: nat)
    requires 0 < r < 64
    ensures Rot(Rot(x, r), 64 - r) == x
  {
    RotlInverse(x, r);
  }

  lemma MixInverse(k: Word)
    ensures UnmixWord(MixWord(k)) == k && MixWord(UnmixWord(k)) == k
  {
    hide Mul, Rot;
    MulInverse(k);
    RotInverse(Mul(k, NUMBER64_2), 31);
    MulInverse(Rot(Mul(k, NUMBER64_2), 31));
    RotInverse(Mul(k, INVERSE_1), 33);
    MulInverse(Rot(Mul(k, INVERSE_1), 33));
  }

  lemma MaskTwice(h: Word, x: Word)
    ensures Mask(h, Mask(h, x)) == x && Mask(Mask(h, x), x) == h
  {
    XorTwice(x, h);
    XorTwice(h, x);
  }

  // The word that takes hash h to g.
  function UneatWord(h: Word, g: Word): Word {
    UnmixWord(Mask(h, Rot(Mul(Sub(g, NUMBER64_4), INVERSE_1), 37)))
  }

  lemma EatWordInverse(h: Word, k: Word)
    ensures UneatWord(h, EatWord(h, k)) == k && EatWord(h, UneatWord(h, k)) == k
  {
    hide Mul, Rot, Mask, Add, Sub, MixWord, UnmixWord;
    var x := Mask(h, MixWord(k));
    MixInverse(k);
    MaskTwice(h, MixWord(k));
    RotInverse(x, 27);
    MulInverse(Rot(x, 27));
    AddSub(Mul(Rot(x, 27), NUMBER64_1), NUMBER64_4);
    var y := Mul(Sub(k, NUMBER64_4), INVERSE_1);
    MixInverse(Mask(h, Rot(y, 37)));
    MaskTwice(h, Rot(y, 37));
    RotInverse(y, 37);
    MulInverse(Sub(k, NUMBER64_4));
    AddSub(k, NUMBER64_4);
  }

  // ---------------------------------------------------------------- 8-byte keys

  lemma HashOfEight(s: Bytes, seed: Word)
    requires |s| == 8
    ensures FromBytes(s) < WORD
    ensures Hash(s, seed) == Finish(EatWord(Add(Add(seed, NUMBER64_5), 8), FromBytes(s)))
  {
    hide Finish, EatWord, Add, EatHalf, EatByte, Read32;
    assert s[0..8] == s;
    assert Read64(s, 0) == FromBytes(s);
    hide Read64;
    var h := EatWord(Add(Add(seed, NUMBER64_5), 8), Read64(s, 0));
    assert Tail(Add(Add(seed, NUMBER64_5), 8), s, 0) == Tail(h, s, 8);
    assert Tail(h, s, 8) == TailBytes(h, s, 8) == h;
  }

  lemma HashOfFour(s: Bytes, seed: Word)
    requires |s| == 4
    ensures FromBytes(s) < WORD
    ensures Hash(s, seed) == Finish(EatHalf(Add(Add(seed, NUMBER64_5), 4), FromBytes(s)))
  {
    hide Finish, EatWord, Add, EatHalf, EatByte;
    assert s[0..4] == s;
    assert Read32(s, 0) == FromBytes(s);
    hide Read32;
    var h := Add(Add(seed, NUMBER64_5), 4);
    assert Tail(h, s, 0) == TailBytes(EatHalf(h, Read32(s, 0)), s, 4);
  }

  lemma HashOfOne(b: Byte, seed: Word)
    ensures Hash([b], seed) == Finish(EatByte(Add(Add(seed, NUMBER64_5), 1), b))
  {
    hide Finish, EatWord, Add, EatHalf, EatByte;
    var h := Add(Add(seed, NUMBER64_5), 1);
    assert Tail(h, [b], 0) == TailBytes(h, [b], 0) == TailBytes(EatByte(h, b), [b], 1);
  }

  // The 8-byte key with a given hash.
  function Unhash(r: Word, seed: Word): Bytes {
    ToBytes(UneatWord(Add(Add(seed, NUMBER64_5), 8), Unfinish(r)), 8)
  }

  // For a fixed seed xxhash is a bijection between the 8-byte keys and the 64-bit words.
  lemma HashIsPermutation(s: Bytes, r: Word, seed: Word)
    requires |s| == 8
    ensures Unhash(Hash(s, seed), seed) == s
    ensures |Unhash(r, seed)| == 8 && Hash(Unhash(r, seed), seed) == r
  {
    hide Finish, Unfinish, EatWord, UneatWord, Add;
    var h := Add(Add(seed, NUMBER64_5), 8);
    var k := FromBytes(s);
    ToFromBytes(s);
    Pow2Of64();
    HashOfEight(s, seed);
    FinishInverse(EatWord(h, k));
    EatWordInverse(h, k);
    var w := UneatWord(h, Unfinish(r));
    FromToBytes(w, 8);
    HashOfEight(ToBytes(w, 8), seed);
    EatWordInverse(h, Unfinish(r));
    FinishInverse(r);
  }

  lemma HashInjective(s: Bytes, t: Bytes, seed: Word)
    requires |s| == |t| == 8 && Hash(s, seed) == Hash(t, seed)
    ensures s == t
  {
    HashIsPermutation(s, 0, seed);
    HashIsPermutation(t, 0, seed);
  }

  // ---------------------------------------------------------------- inputs that differ in one word

  // A hash value that has been rotated, multiplied and shifted by constants can be recovered.
  lemma RoundInjective(x: Word, y: Word, r: nat, a: Word, b: Word, c: Word)
    requires 0 < r < 64 && a * b % WORD == 1
    requires Add(Mul(Rot(x, r), a), c) == Add(Mul(Rot(y, r), a), c)
    ensures x == y
  {
    hide Mul, Rot, Add, Sub;
    AddSub(Mul(Rot(x, r), a), c);
    AddSub(Mul(Rot(y, r), a), c);
    MulCancel(Rot(x, r), a, b);
    MulCancel(Rot(y, r), a, b);
    RotInverse(x, r);
    RotInverse(y, r);
  }

  lemma MaskInjective(h: Word, g: Word, x: Word)
    requires Mask(h, x) == Mask(g, x)
    ensures h == g
  {
    hide Mask;
    MaskTwice(h, x);
    MaskTwice(g, x);
  }

  // Different hash values stay different when the same bytes follow.
  lemma EatInjective(h: Word, g: Word, k: Word, b: Byte)
    ensures EatWord(h, k) == EatWord(g, k) ==> h == g
    ensures EatHalf(h, k) == EatHalf(g, k) ==> h == g
    ensures EatByte(h, b) == EatByte(g, b) ==> h == g
  {
    Inverses();
    hide Mul, Rot, Add, Mask, MixWord;
    if EatWord(h, k) == EatWord(g, k) {
      RoundInjective(Mask(h, MixWord(k)), Mask(g, MixWord(k)), 27, NUMBER64_1, INVERSE_1, NUMBER64_4);
      MaskInjective(h, g, MixWord(k));
    }
    if EatHalf(h, k) == EatHalf(g, k) {
      var x := Mul(k, NUMBER64_1);
      RoundInjective(Mask(h, x), Mask(g, x), 23, NUMBER64_2, INVERSE_2, NUMBER64_3);
      MaskInjective(h, g, x);
    }
    if EatByte(h, b) == EatByte(g, b) {
      var x := Mul(b, NUMBER64_5);
      RoundInjective(Mask(h, x), Mask(g, x), 11, NUMBER64_1, INVERSE_1, 0);
      MaskInjective(h, g, x);
    }
  }

  lemma {:induction false} BytesInjective(h: Word, g: Word, s: seq<Byte>, p: nat)
    requires p <= |s| && TailBytes(h, s, p) == TailBytes(g, s, p)
    ensures h == g
    decreases |s| - p
  {
    hide EatByte;
    if p < |s| {
      BytesInjective(EatByte(h, s[p]), EatByte(g, s[p]), s, p + 1);
      EatInjective(h, g, 0, s[p]);
    }
  }

  lemma {:induction false} TailInjective(h: Word, g: Word, s: seq<Byte>, p: nat)
    requires p <= |s| && Tail(h, s, p) == Tail(g, s, p)
    ensures h == g
    decreases |s| - p
  {
    hide EatWord, EatHalf, TailBytes, Read64, Read32;
    if p + 8 <= |s| {
      TailInjective(EatWord(h, Read64(s, p)), EatWord(g, Read64(s, p)), s, p + 8);
      EatInjective(h, g, Read64(s, p), 0);
    } else if p + 4 <= |s| {
      BytesInjective(EatHalf(h, Read32(s, p)), EatHalf(g, Read32(s, p)), s, p + 4);
      EatInjective(h, g, Read32(s, p), 0);
    } else {
      BytesInjective(h, g, s, p);
    }
  }

  // The tail depends on the bytes from p on only.
  lemma {:induction false} BytesSame(h: Word, s: seq<Byte>, t: seq<Byte>, p: nat)
    requires p <= |s| == |t| && s[p..] == t[p..]
    ensures TailBytes(h, s, p) == TailBytes(h, t, p)
    decreases |s| - p
  {
    hide EatByte;
    if p < |s| {
      assert s[p] == s[p..][0] && t[p] == t[p..][0];
      assert s[p + 1..] == s[p..][1..] && t[p + 1..] == t[p..][1..];
      BytesSame(EatByte(h, s[p]), s, t, p + 1);
    }
  }

  lemma SameFrom(s: seq<Byte>, t: seq<Byte>, p: nat, n: nat)
    requires p + n <= |s| == |t| && s[p..] == t[p..]
    ensures s[p..p + n] == t[p..p + n] && s[p + n..] == t[p + n..]
  {
    assert s[p..p + n] == s[p..][..n] && t[p..p + n] == t[p..][..n];
    assert s[p + n..] == s[p..][n..] && t[p + n..] == t[p..][n..];
  }

  lemma {:induction false} TailSame(h: Word, s: seq<Byte>, t: seq<Byte>, p: nat)
    requires p <= |s| == |t| && s[p..] == t[p..]
    ensures Tail(h, s, p) == Tail(h, t, p)
    decreases |s| - p
  {
    hide EatWord, EatHalf, TailBytes;
    if p + 8 <= |s| {
      SameFrom(s, t, p, 8);
      TailSame(EatWord(h, Read64(s, p)), s, t, p + 8);
    } else if p + 4 <= |s| {
      SameFrom(s, t, p, 4);
      BytesSame(EatHalf(h, Read32(s, p)), s, t, p + 4);
    } else {
      BytesSame(h, s, t, p);
    }
  }

  lemma ReadSame(s: seq<Byte>, t: seq<Byte>, m: nat, p: nat)
    requires p + 8 <= m <= |s| == |t| && s[..m] == t[..m]
    ensures Read64(s, p) == Read64(t, p)
  {
    assert s[p..p + 8] == s[..m][p..p + 8] && t[p..p + 8] == t[..m][p..p + 8];
  }

  // The stripes depend on the bytes they read only.
  lemma {:induction false} StripesSame(s: seq<Byte>, t: seq<Byte>, seed: Word, n: nat, m: nat)
    requires 32 * n <= m <= |s| == |t| && s[..m] == t[..m]
    ensures Stripes(s, seed, n) == Stripes(t, seed, n)
    decreases n
  {
    hide Read64, Lane;
    if n > 0 {
      var p := 32 * (n - 1);
      StripesSame(s, t, seed, n - 1, m);
      ReadSame(s, t, m, p);
      ReadSame(s, t, m, p + 8);
      ReadSame(s, t, m, p + 16);
      ReadSame(s, t, m, p + 24);
    }
  }

  // Two inputs that differ in the word at q and nowhere else.
  ghost predicate DifferAt(s: Bytes, t: Bytes, q: nat) {
    |s| == |t| && q + 8 <= |s| && s[..q] == t[..q] && s[q..q + 8] != t[q..q + 8] && s[q + 8..] == t[q + 8..]
  }

  lemma WordDiffers(h: Word, s: Bytes, t: Bytes, q: nat)
    requires DifferAt(s, t, q)
    ensures EatWord(h, Read64(s, q)) != EatWord(h, Read64(t, q))
  {
    hide EatWord, UneatWord;
    EatWordInverse(h, Read64(s, q));
    EatWordInverse(h, Read64(t, q));
    ToFromBytes(s[q..q + 8]);
    ToFromBytes(t[q..q + 8]);
  }

  lemma TailStep(h: Word, s: seq<Byte>, p: nat)
    requires p + 8 <= |s|
    ensures Tail(h, s, p) == Tail(EatWord(h, Read64(s, p)), s, p + 8)
  {}

  lemma {:induction false} TailDiffers(h: Word, s: Bytes, t: Bytes, p: nat, m: nat)
    requires DifferAt(s, t, p + 8 * m)
    ensures Tail(h, s, p) != Tail(h, t, p)
    decreases m
  {
    hide EatWord, Read64, Tail;
    TailStep(h, s, p);
    TailStep(h, t, p);
    if m > 0 {
      ReadSame(s, t, p + 8 * m, p);
      TailDiffers(EatWord(h, Read64(s, p)), s, t, p + 8, m - 1);
    } else {
      WordDiffers(h, s, t, p);
      TailSame(EatWord(h, Read64(t, p)), s, t, p + 8);
      if Tail(h, s, p) == Tail(h, t, p) {
        TailInjective(EatWord(h, Read64(s, p)), EatWord(h, Read64(t, p)), s, p + 8);
      }
    }
  }

  lemma HeadSame(s: Bytes, t: Bytes, seed: Word, q: nat)
    requires DifferAt(s, t, q) && |s| - |s| % 32 <= q
    ensures Head(s, seed) == Head(t, seed)
  {
    hide Merge, Stripes;
    StripesSame(s, t, seed, |s| / 32, q);
  }

  // Inputs of any length that differ in one whole word behind the stripes never collide.
  lemma OneWordDiffers(s: Bytes, t: Bytes, seed: Word, m: nat)
    requires DifferAt(s, t, |s| - |s| % 32 + 8 * m)
    ensures Hash(s, seed) != Hash(t, seed)
  {
    var n := |s| - |s| % 32;
    HeadSame(s, t, seed, n + 8 * m);
    var h := Add(Head(s, seed), |s|);
    hide Finish, Unfinish, Tail, Head, Add, DifferAt;
    TailDiffers(h, s, t, n, m);
    FinishInverse(Tail(h, s, n));
    FinishInverse(Tail(h, t, n));
  }

  // ---------------------------------------------------------------- stripes, half words, bytes

  lemma MulInjective(x: Word, y: Word, a: nat, b: nat)
    requires a * b % WORD == 1 && Mul(x, a) == Mul(y, a)
    ensures x == y
  {
    MulCancel(x, a, b);
    MulCancel(y, a, b);
  }

  // A lane depends on every bit of its value and of its word.
  lemma LaneInjective(v: Word, w: Word, x: Word)
    ensures Lane(v, w) == Lane(v, x) ==> w == x
    ensures Lane(v, w) == Lane(x, w) ==> v == x
  {
    Inverses();
    hide Mul, Rot, Add, Sub;
    if Lane(v, w) == Lane(v, x) {
      LaneSum(Add(v, Mul(w, NUMBER64_2)), Add(v, Mul(x, NUMBER64_2)));
      AddInjective(Mul(w, NUMBER64_2), Mul(x, NUMBER64_2), v);
      MulInjective(w, x, NUMBER64_2, INVERSE_2);
    }
    if Lane(v, w) == Lane(x, w) {
      LaneSum(Add(v, Mul(w, NUMBER64_2)), Add(x, Mul(w, NUMBER64_2)));
      AddInjective(v, x, Mul(w, NUMBER64_2));
    }
  }

  lemma LaneSum(a: Word, b: Word)
    requires Mul(Rot(a, 31), NUMBER64_1) == Mul(Rot(b, 31), NUMBER64_1)
    ensures a == b
  {
    Inverses();
    hide Mul, Rot;
    MulInjective(Rot(a, 31), Rot(b, 31), NUMBER64_1, INVERSE_1);
    RotInverse(a, 31);
    RotInverse(b, 31);
  }

  lemma AddInjective(x: Word, y: Word, c: Word)
    ensures Add(x, c) == Add(y, c) ==> x == y
    ensures Add(c, x) == Add(c, y) ==> x == y
  {
    AddSub(x, c);
    AddSub(y, c);
  }

  function LaneOf(l: Lanes, m: nat): Word
    requires m < 4
  {
    match m
    case 0 => l.v1
    case 1 => l.v2
    case 2 => l.v3
    case _ => l.v4
  }

  lemma NextLane(l: Lanes, s: seq<Byte>, p: nat, m: nat)
    requires p + 32 <= |s| && m < 4
    ensures LaneOf(NextStripe(l, s, p), m) == Lane(LaneOf(l, m), Read64(s, p + 8 * m))
  {
    hide Lane, Read64;
  }

  lemma NextStripes(s: seq<Byte>, seed: Word, n: nat)
    requires 0 < n && 32 * n <= |s|
    ensures Stripes(s, seed, n) == NextStripe(Stripes(s, seed, n - 1), s, 32 * (n - 1))
  {
    hide NextStripe;
  }

  // One stripe: either the lane or the word it reads differs.
  lemma StripeStep(s: Bytes, t: Bytes, seed: Word, n: nat, m: nat, q: nat)
    requires 32 * n + 32 <= |s| == |t| && m < 4 && q == 32 * n + 8 * m
    requires LaneOf(Stripes(s, seed, n), m) == LaneOf(Stripes(t, seed, n), m) <==> Read64(s, q) != Read64(t, q)
    ensures LaneOf(Stripes(s, seed, n + 1), m) != LaneOf(Stripes(t, seed, n + 1), m)
  {
    hide *;
    var v, u := LaneOf(Stripes(s, seed, n), m), LaneOf(Stripes(t, seed, n), m);
    NextStripes(s, seed, n + 1);
    NextStripes(t, seed, n + 1);
    NextLane(Stripes(s, seed, n), s, 32 * n, m);
    NextLane(Stripes(t, seed, n), t, 32 * n, m);
    if u == v {
      LaneInjective(v, Read64(s, q), Read64(t, q));
    } else {
      LaneInjective(v, Read64(s, q), u);
    }
  }

  // The stripe in which the inputs differ, and those behind it.
  lemma FirstDifference(s: Bytes, t: Bytes, seed: Word, k: nat, m: nat, q: nat)
    requires q == 32 * k + 8 * m && DifferAt(s, t, q) && m < 4 && 32 * k + 32 <= |s| == |t|
    ensures LaneOf(Stripes(s, seed, k + 1), m) != LaneOf(Stripes(t, seed, k + 1), m)
  {
    hide *;
    StripesBefore(s, t, seed, k, q);
    ReadDiffers(s, t, q);
    StripeStep(s, t, seed, k, m, q);
  }

  lemma LaterStripe(s: Bytes, t: Bytes, seed: Word, n: nat, m: nat, q: nat)
    requires DifferAt(s, t, q) && m < 4 && q + 8 <= 32 * n && 32 * n + 32 <= |s| == |t|
    requires LaneOf(Stripes(s, seed, n), m) != LaneOf(Stripes(t, seed, n), m)
    ensures LaneOf(Stripes(s, seed, n + 1), m) != LaneOf(Stripes(t, seed, n + 1), m)
  {
    hide *;
    ReadAfter(s, t, q, 32 * n + 8 * m);
    StripeStep(s, t, seed, n, m, 32 * n + 8 * m);
  }

  // Inputs that differ in word m of a stripe differ in lane m after all stripes.
  lemma {:induction false} StripeWordDiffers(s: Bytes, t: Bytes, seed: Word, n: nat, k: nat, m: nat)
    requires DifferAt(s, t, 32 * k + 8 * m) && m < 4 && k < n && 32 * n <= |s| == |t|
    ensures LaneOf(Stripes(s, seed, n), m) != LaneOf(Stripes(t, seed, n), m)
    decreases n
  {
    hide *;
    if k == n - 1 {
      FirstDifference(s, t, seed, k, m, 32 * k + 8 * m);
    } else {
      StripeWordDiffers(s, t, seed, n - 1, k, m);
      LaterStripe(s, t, seed, n - 1, m, 32 * k + 8 * m);
    }
  }

  lemma ReadAfter(s: Bytes, t: Bytes, q: nat, p: nat)
    requires DifferAt(s, t, q) && q + 8 <= p && p + 8 <= |s|
    ensures p + 8 <= |t| && Read64(s, p) == Read64(t, p)
  {
    var i := p - (q + 8);
    var u, v := s[q + 8..], t[q + 8..];
    assert s[p..p + 8] == u[i..i + 8];
    assert t[p..p + 8] == v[i..i + 8];
  }

  lemma ReadDiffers(s: Bytes, t: Bytes, q: nat)
    requires DifferAt(s, t, q)
    ensures q + 8 <= |s| == |t| && Read64(s, q) != Read64(t, q)
  {
    ToFromBytes(s[q..q + 8]);
    ToFromBytes(t[q..q + 8]);
  }

  lemma StripesBefore(s: Bytes, t: Bytes, seed: Word, n: nat, q: nat)
    requires DifferAt(s, t, q) && 32 * n <= q
    ensures 32 * n <= |s| == |t| && Stripes(s, seed, n) == Stripes(t, seed, n)
  {
    StripesSame(s, t, seed, n, q);
  }

  // So do a half word and a byte decide the round that reads them.
  lemma EatHalfInjective(h: Word, k: Word, j: Word)
    requires EatHalf(h, k) == EatHalf(h, j)
    ensures k == j
  {
    Inverses();
    hide Mul, Rot, Add, Mask;
    var x, y := Mul(k, NUMBER64_1), Mul(j, NUMBER64_1);
    RoundInjective(Mask(h, x), Mask(h, y), 23, NUMBER64_2, INVERSE_2, NUMBER64_3);
    MaskTwice(h, x);
    MaskTwice(h, y);
    MulInjective(k, j, NUMBER64_1, INVERSE_1);
  }

  lemma EatByteInjective(h: Word, b: Byte, c: Byte)
    requires EatByte(h, b) == EatByte(h, c)
    ensures b == c
  {
    Inverses();
    hide Mul, Rot, Add, Mask;
    var x, y := Mul(b, NUMBER64_5), Mul(c, NUMBER64_5);
    ByteRound(Mask(h, x), Mask(h, y));
    MaskTwice(h, x);
    MaskTwice(h, y);
    MulInjective(b, c, NUMBER64_5, INVERSE_5);
  }

  lemma ByteRound(x: Word, y: Word)
    requires Mul(Rot(x, 11), NUMBER64_1) == Mul(Rot(y, 11), NUMBER64_1)
    ensures x == y
  {
    Inverses();
    hide Mul, Rot;
    MulInjective(Rot(x, 11), Rot(y, 11), NUMBER64_1, INVERSE_1);
    RotInverse(x, 11);
    RotInverse(y, 11);
  }

  // Different keys of one or of four bytes have different hashes.
  lemma ShortInjective(s: Bytes, t: Bytes, seed: Word)
    requires |s| == |t| && (|s| == 1 || |s| == 4) && Hash(s, seed) == Hash(t, seed)
    ensures s == t
  {
    hide Hash, Finish, Unfinish, EatHalf, EatByte, Add;
    var h := Add(Add(seed, NUMBER64_5), |s|);
    if |s| == 1 {
      assert s == [s[0]] && t == [t[0]];
      HashOfOne(s[0], seed);
      HashOfOne(t[0], seed);
      FinishInverse(EatByte(h, s[0]));
      FinishInverse(EatByte(h, t[0]));
      EatByteInjective(h, s[0], t[0]);
    } else {
      HashOfFour(s, seed);
      HashOfFour(t, seed);
      FinishInverse(EatHalf(h, FromBytes(s)));
      FinishInverse(EatHalf(h, FromBytes(t)));
      EatHalfInjective(h, FromBytes(s), FromBytes(t));
      ToFromBytes(s);
      ToFromBytes(t);
    }
  }
}
