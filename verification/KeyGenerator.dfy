/** Sequential key generation (bench/key_generator.h with multiplicative_hash of bench/utils.h). */
module KeyGenerator {
  import opened Bits
  import opened Words

  const KEY_MAX: nat := 128

  // The multiplier of multiplicative_hash<uint64_t>, and its inverse modulo 2^64.
  const A: Word := 11400714819323198393
  const A_INVERSE: Word := 7581284681210600073

  function MultiplicativeHash(x: Word): Word {
    Mul(A, x)
  }

  // hashed_id <<= bits; hashed_id >>= bits
  function KeepLow(x: Word, bits: nat): nat
    requires bits < 64
  {
    Shr(Mul(x, Pow2(bits)), bits)
  }

  // The bytes written after the prefix.
  function KeyBytes(size: nat, id: Word): (s: seq<Byte>)
    requires size >= 1
    ensures |s| == size
  {
    var hashed := MultiplicativeHash(id);
    if size < 8 then ToBytes(KeepLow(hashed, (8 - size) * 8), size)
    else seq(size - 8, _ => 1) + ToBytes(hashed, 8)
  }

  lemma ShortKey(size: nat, id: Word)
    requires 1 <= size < 8
    ensures KeyBytes(size, id) == ToBytes(KeepLow(MultiplicativeHash(id), (8 - size) * 8), size)
  {}

  lemma LongKey(size: nat, id: Word)
    requires size >= 8
    ensures KeyBytes(size, id) == seq(size - 8, _ => 1) + ToBytes(MultiplicativeHash(id), 8)
  {}

  // The bits of the id that survive.
  function IdBits(size: nat): (b: nat)
    ensures b <= 64
  {
    8 * (if size < 8 then size else 8)
  }

  // ---------------------------------------------------------------- arithmetic modulo 2^b

  lemma ModEqual(x: nat, y: nat, m: nat, q: int)
    requires m > 0 && x == y + q * m
    ensures x % m == y % m
  {
    QuotientBounds(y, m);
    assert (y / m + q) * m == (y / m) * m + q * m;
    ModUnique(x, m, y / m + q, y % m);
  }

  lemma ModMul(a: nat, x: nat, m: nat)
    requires m > 0
    ensures (a * (x % m)) % m == (a * x) % m
  {
    QuotientBounds(x, m);
    assert a * x == a * (x % m) + (a * (x / m)) * m by {
      assert x == x % m + (x / m) * m;
      assert a * ((x / m) * m) == (a * (x / m)) * m;
      assert a * (x % m + (x / m) * m) == a * (x % m) + a * ((x / m) * m);
    }
    ModEqual(a * x, a * (x % m), m, a * (x / m));
  }

  // Multiplying by a number with an inverse permutes the residues.
  lemma MulPermutes(a: nat, b: nat, x: nat, y: nat, m: nat)
    requires m > 0 && (b * a) % m == 1 % m
    ensures (a * x) % m == (a * y) % m <==> x % m == y % m
  {
    ModMul(a, x, m);
    ModMul(a, y, m);
    Undo(a, b, x, m);
    Undo(a, b, y, m);
  }

  lemma Undo(a: nat, b: nat, x: nat, m: nat)
    requires m > 0 && (b * a) % m == 1 % m
    ensures (b * ((a * x) % m)) % m == x % m
  {
    ModMul(b, a * x, m);
    assert b * (a * x) == x * (b * a);
    ModMul(x, b * a, m);
    ModMul(x, 1, m);
  }

  lemma InverseOfA(n: nat)
    requires n <= 64
    ensures (A_INVERSE * A) % Pow2(n) == 1 % Pow2(n)
  {
    LowBits(A_INVERSE * A, n);
    assert A_INVERSE * A % WORD == 1;
  }

  lemma ShrTimes(r: nat, n: nat)
    ensures Shr(r * Pow2(n), n) == r
  {
    assert (r + 1) * Pow2(n) == r * Pow2(n) + Pow2(n);
    ShrBlock(r * Pow2(n), n, r);
  }

  lemma KeepLowParts(x: Word, bits: nat, p: nat, q: nat, hi: nat, lo: nat)
    requires bits < 64 && p == Pow2(bits) && q * p == WORD && x == hi * q + lo && lo < q
    ensures KeepLow(x, bits) == lo
  {
    LowerShifted(x, p, q, hi, lo);
    ShrTimes(lo, bits);
  }

  lemma KeepLowMod(x: Word, bits: nat, p: nat, q: nat)
    requires bits < 64 && p == Pow2(bits) && q > 0 && q * p == WORD
    ensures KeepLow(x, bits) == x % q
  {
    hide KeepLow, Pow2;
    QuotientBounds(x, q);
    KeepLowParts(x, bits, p, q, x / q, x % q);
  }

  // The shift pair keeps the lower bits.
  lemma KeepLowIs(x: Word, bits: nat)
    requires bits < 64
    ensures KeepLow(x, bits) == x % Pow2(64 - bits)
  {
    var p, q := Factors(bits);
    KeepLowMod(x, bits, p, q);
  }

  // The multiplier is odd and 92 below the integer part of 2^64 divided by the golden ratio, which is
  // the positive x with x * (x + 2^64) == 2^128.
  lemma GoldenRatio()
    ensures A % 2 == 1
    ensures (A + 92) * (A + 92 + WORD) < WORD * WORD < (A + 93) * (A + 93 + WORD)
  {}

  // ---------------------------------------------------------------- keys

  // Byte m of a number, from the low end.
  lemma {:induction false} BytesAt(x: nat, n: nat, m: nat)
    requires m < n
    ensures ToBytes(x, n)[m] == x / Pow2(8 * m) % 256
    decreases m
  {
    if m > 0 {
      BytePower(m);
      hide Pow2;
      BytesAt(x / 256, n - 1, m - 1);
      DivDiv(x, 256, Pow2(8 * (m - 1)));
    }
  }

  lemma DivDiv(x: nat, a: nat, b: nat)
    requires a > 0 && b > 0
    ensures a * b > 0 && x / a / b == x / (a * b)
  {
    MulSign(a, b);
    var q := x / a / b;
    QuotientBounds(x, a);
    QuotientBounds(x / a, b);
    var r := x - q * (a * b);
    assert r == (x / a - q * b) * a + x % a by {
      assert (q * b) * a == q * (a * b);
      assert (x / a - q * b) * a == (x / a) * a - (q * b) * a;
    }
    BelowProduct(x / a - q * b, x % a, a, b);
    ModUnique(x, a * b, q, r);
  }

  lemma BelowProduct(u: int, v: nat, a: nat, b: nat)
    requires 0 <= u < b && v < a
    ensures 0 <= u * a + v < a * b
  {
    assert a * b == u * a + (b - u) * a;
    MulSign(b - u, a);
    MulSign(u, a);
  }

  lemma KeyBytesIs(size: nat, id: Word)
    requires size >= 1
    ensures KeyBytes(size, id)
         == seq(if size < 8 then 0 else size - 8, _ => 1)
              + ToBytes((A * id) % Pow2(IdBits(size)), if size < 8 then size else 8)
  {
    LowBits(A * id, IdBits(size));
    if size < 8 {
      KeepLowIs(MultiplicativeHash(id), (8 - size) * 8);
    } else {
      Pow2Of64();
    }
  }

  // The bytes beyond the eighth are cut off, those above 2^(8n) do not matter.
  lemma {:induction false} ToBytesLow(x: nat, n: nat)
    ensures ToBytes(x % Pow2(8 * n), n) == ToBytes(x, n)
    decreases n
  {
    if n > 0 {
      BytePower(n);
      hide Pow2;
      LowByte(x, Pow2(8 * (n - 1)));
      ToBytesLow(x / 256, n - 1);
    }
  }

  lemma LowByte(x: nat, q: nat)
    requires q > 0
    ensures x % (256 * q) % 256 == x % 256 && x % (256 * q) / 256 == x / 256 % q
  {
    DivDiv(x, 256, q);
    var y := x / 256;
    QuotientBounds(y, q);
    QuotientBounds(x, 256 * q);
    assert x % (256 * q) == x - (256 * q) * (y / q);
    assert (256 * q) * (y / q) == 256 * ((y / q) * q);
  }

  // After as many bytes 1 as the size exceeds 8, byte m of the key is byte m from the low end of the
  // product modulo 2^64.
  lemma KeyBytesAt(size: nat, id: Word, m: nat)
    requires size >= 1 && m < (if size < 8 then size else 8)
    ensures var n := if size < 8 then size else 8;
            KeyBytes(size, id)[size - n + m] == 11400714819323198393 * id % WORD / Pow2(8 * m) % 256
    ensures forall i :: 0 <= i < size - 8 ==> KeyBytes(size, id)[i] == 1
  {
    hide Pow2, ToBytes;
    var hashed := MultiplicativeHash(id);
    if size < 8 {
      KeepLowIs(hashed, (8 - size) * 8);
      ToBytesLow(hashed, size);
      BytesAt(hashed, size, m);
    } else {
      BytesAt(hashed, 8, m);
    }
  }

  // The same in a buffer that begins with the prefix and the key.
  lemma KeyInBuffer(s: seq<Byte>, prefix: seq<Byte>, size: nat, id: Word)
    requires size >= 1 && |prefix| + size <= |s| && s[..|prefix| + size] == prefix + KeyBytes(size, id)
    ensures forall i :: |prefix| <= i < |prefix| + size - 8 ==> s[i] == 1
    ensures forall m :: 0 <= m < (if size < 8 then size else 8) ==>
              s[|prefix| + size - (if size < 8 then size else 8) + m]
                == 11400714819323198393 * id % WORD / Pow2(8 * m) % 256
  {
    hide KeyBytes, Pow2;
    var k, n := KeyBytes(size, id), if size < 8 then size else 8;
    assert forall i :: 0 <= i < size ==> s[|prefix| + i] == s[..|prefix| + size][|prefix| + i] == k[i];
    KeyBytesAt(size, id, 0);
    forall i | |prefix| <= i < |prefix| + size - 8 ensures s[i] == 1 {
      assert s[i] == k[i - |prefix|];
    }
    forall m | 0 <= m < n ensures s[|prefix| + size - n + m] == 11400714819323198393 * id % WORD / Pow2(8 * m) % 256 {
      KeyBytesAt(size, id, m);
      assert s[|prefix| + (size - n + m)] == k[size - n + m];
    }
  }

  lemma NextByte(b: Byte, q: nat, n: nat)
    requires n > 0
    ensures ToBytes(b + 256 * q, n) == [b] + ToBytes(q, n - 1)
  {
    ModUnique(b + 256 * q, 256, q, b);
    SplitByte(b + 256 * q, q, b, n);
  }

  lemma SplitByte(x: nat, q: nat, b: Byte, n: nat)
    requires n > 0 && x % 256 == b && x / 256 == q
    ensures ToBytes(x, n) == [b] + ToBytes(q, n - 1)
  {}

  lemma NextBytes(x: nat, n: nat, q: nat, a: Byte, b: Byte, c: Byte, d: Byte)
    requires n >= 4 && x == a + 256 * (b + 256 * (c + 256 * (d + 256 * q)))
    ensures ToBytes(x, n) == [a, b, c, d] + ToBytes(q, n - 4)
  {
    hide ToBytes;
    var z := d + 256 * q;
    var y := c + 256 * z;
    var w := b + 256 * y;
    NextByte(a, w, n);
    NextByte(b, y, n - 1);
    NextByte(c, z, n - 2);
    NextByte(d, q, n - 3);
  }

  // The bytes of the first key of eight bytes.
  lemma FirstKeyBytes()
    ensures KeyBytes(8, 1) == [0xB9, 0x7B, 0x4A, 0x7F, 0xB9, 0x79, 0x37, 0x9E]
  {
    hide KeyBytes, ToBytes, MultiplicativeHash;
    EightKey(1);
    assert MultiplicativeHash(1) == A by { HashOfOneId(); }
    EightOfA();
  }

  lemma EightKey(id: Word)
    ensures KeyBytes(8, id) == ToBytes(MultiplicativeHash(id), 8)
  {}

  lemma HashOfOneId()
    ensures MultiplicativeHash(1) == 0x9E3779B97F4A7BB9 == A
  {}

  lemma EightOfA()
    ensures ToBytes(0x9E3779B97F4A7BB9, 8) == [0xB9, 0x7B, 0x4A, 0x7F, 0xB9, 0x79, 0x37, 0x9E]
  {
    assert ToBytes(0, 0) == [];
    hide ToBytes;
    NextBytes(0x9E3779B97F4A7BB9, 8, 0x9E3779B9, 0xB9, 0x7B, 0x4A, 0x7F);
    NextBytes(0x9E3779B9, 4, 0, 0xB9, 0x79, 0x37, 0x9E);
  }

  // Two ids give the same key if and only if they agree in the bits that survive.
  lemma SameKeyIff(size: nat, i: Word, j: Word)
    requires size >= 1
    ensures KeyBytes(size, i) == KeyBytes(size, j) <==> i % Pow2(IdBits(size)) == j % Pow2(IdBits(size))
  {
    var m, n := Pow2(IdBits(size)), if size < 8 then size else 8;
    var x, y := (A * i) % m, (A * j) % m;
    KeyBytesIs(size, i);
    KeyBytesIs(size, j);
    InverseOfA(IdBits(size));
    MulPermutes(A, A_INVERSE, i, j, m);
    FromToBytes(x, n);
    FromToBytes(y, n);
    if KeyBytes(size, i) == KeyBytes(size, j) {
      assert KeyBytes(size, i)[size - n..] == ToBytes(x, n);
      assert KeyBytes(size, j)[size - n..] == ToBytes(y, n);
    }
  }

  // The ids of consecutive calls, from `first` on.
  function Id(first: Word, n: nat): Word {
    (first + n) % WORD
  }

  lemma SameCallIff(size: nat, first: Word, i: nat, j: nat)
    requires size >= 1
    ensures KeyBytes(size, Id(first, i)) == KeyBytes(size, Id(first, j))
       <==> (first + i) % Pow2(IdBits(size)) == (first + j) % Pow2(IdBits(size))
  {
    hide KeyBytes, Pow2;
    SameKeyIff(size, Id(first, i), Id(first, j));
    LowBits(first + i, IdBits(size));
    LowBits(first + j, IdBits(size));
  }

  // Of any number of consecutive calls all keys differ if and only if there are at most
  // 2^(8 * min(size, 8)) of them.
  lemma DistinctIff(size: nat, first: Word, count: nat)
    requires size >= 1
    ensures (forall i, j :: 0 <= i < j < count ==> KeyBytes(size, Id(first, i)) != KeyBytes(size, Id(first, j)))
       <==> count <= Pow2(IdBits(size))
  {
    hide KeyBytes, Id, Pow2, IdBits;
    var m := Pow2(IdBits(size));
    if count <= m {
      forall i, j | 0 <= i < j < count ensures KeyBytes(size, Id(first, i)) != KeyBytes(size, Id(first, j)) {
        SameCallIff(size, first, i, j);
        CloseNumbers(first + i, first + j, m);
      }
    } else {
      SameCallIff(size, first, 0, m);
      ModEqual(first + m, first, m, 1);
      assert KeyBytes(size, Id(first, 0)) == KeyBytes(size, Id(first, m));
    }
  }

  lemma CloseNumbers(x: nat, y: nat, m: nat)
    requires x < y < x + m
    ensures x % m != y % m
  {
    if x % m == y % m {
      QuotientBounds(x, m);
      QuotientBounds(y, m);
      var d := y / m - x / m;
      assert d * m == (y / m) * m - (x / m) * m;
      MulSign(d, m);
      if d >= 2 { MulSign(d - 1, m); }
    }
  }

  // ---------------------------------------------------------------- the generator

  // The buffer and the counter are shared by all generators of the program.
  class Generator {
    const prefix: seq<Byte>
    const size: nat
    const buf: array<Byte>
    var currentId: Word

    ghost predicate Valid()
      reads this, buf
    {
      && size >= 1 && |prefix| + size <= KEY_MAX == buf.Length
      && buf[..|prefix|] == prefix
    }

    constructor (n: nat, p: seq<Byte>)
      requires n >= 1 && |p| + n <= KEY_MAX
      ensures Valid() && fresh(buf) && size == n && prefix == p && currentId == 1
    {
      prefix := p;
      size := n;
      currentId := 1;
      buf := new Byte[KEY_MAX](i requires i >= 0 => if i < |p| then p[i] else 0);
    }

    method Copy(at: nat, s: seq<Byte>)
      requires at + |s| <= buf.Length
      modifies buf
      ensures buf[..] == old(buf[..at]) + s + old(buf[at + |s|..])
    {
      var i := 0;
      while i < |s|
        invariant 0 <= i <= |s|
        invariant forall k :: 0 <= k < buf.Length ==> buf[k] == if at <= k < at + i then s[k - at] else old(buf[k])
      {
        buf[at + i] := s[i];
        i := i + 1;
      }
    }

    // Lines 53-69: the key of an id is written behind the prefix.
    method Write(id: Word)
      requires Valid()
      modifies buf
      ensures Valid() && buf[..|prefix| + size] == prefix + KeyBytes(size, id)
    {
      hide KeyBytes, MultiplicativeHash, KeepLow, ToBytes, Pow2;
      var ptr := |prefix|;
      var hashedId := MultiplicativeHash(id);
      if size < 8 {
        var bitsToShift := (8 - size) * 8;
        KeepLowWord(hashedId, bitsToShift);
        hashedId := KeepLow(hashedId, bitsToShift);
        ShortKey(size, id);
        Copy(ptr, ToBytes(hashedId, size));
      } else {
        LongKey(size, id);
        var bytesToPrepend := size - 8;
        if bytesToPrepend > 0 {
          Copy(ptr, seq(bytesToPrepend, _ => 1));
          ptr := ptr + bytesToPrepend;
        }
        Copy(ptr, ToBytes(hashedId, 8));
      }
    }

    // next(true); the key is the first |prefix| + size bytes of the buffer.
    method Next()
      requires Valid()
      modifies this`currentId, buf
      ensures Valid()
      ensures buf[..|prefix| + size] == prefix + KeyBytes(size, old(currentId))
      ensures forall i :: |prefix| <= i < |prefix| + size - 8 ==> buf[..][i] == 1
      ensures forall m :: 0 <= m < (if size < 8 then size else 8) ==>
                buf[..][|prefix| + size - (if size < 8 then size else 8) + m]
                  == 11400714819323198393 * old(currentId) % WORD / Pow2(8 * m) % 256
      ensures currentId == (old(currentId) + 1) % WORD
    {
      hide KeyBytes, Pow2;
      var id := currentId;
      currentId := (currentId + 1) % WORD;
      Write(id);
      KeyInBuffer(buf[..], prefix, size, id);
    }
  }

  // The first key of eight bytes that a program generates.
  method FirstKey() returns (key: seq<Byte>)
    ensures key == [0xB9, 0x7B, 0x4A, 0x7F, 0xB9, 0x79, 0x37, 0x9E]
  {
    hide KeyBytes;
    var g := new Generator(8, []);
    g.Next();
    FirstKeyBytes();
    key := g.buf[..8];
  }

  lemma KeepLowWord(x: Word, bits: nat)
    requires bits < 64
    ensures KeepLow(x, bits) < WORD
  {
    ShrSmaller(Mul(x, Pow2(bits)), bits);
  }
}
