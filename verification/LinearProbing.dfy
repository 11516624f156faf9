/**
  The linear probing table (index/linear_probing.h) on values: what its probes reach when the sum
  of hash and step wraps at 2^64, and what each operation does to the slots.
*/
module LinearProbing {
  import opened Pairs
  import opened Bits
  import opened Probing
  import opened TableSpec

  // (loc + i) % capacity, where the sum may wrap
  function ProbeSlot(h: nat, i: nat, cap: nat): (r: nat)
    requires cap > 0
    ensures r < cap
  {
    (h + i) % WORD % cap
  }

  ghost predicate Covers(h: nat, cap: nat)
    requires cap > 0
  {
    forall j :: 0 <= j < cap ==> Reached(h, cap, j)
  }

  ghost predicate Reached(h: nat, cap: nat, j: nat)
    requires cap > 0
  {
    exists i :: 0 <= i < cap && ProbeSlot(h, i, cap) == j
  }

  // Without a wrap, or when the capacity divides 2^64, the probe is a cyclic scan.
  lemma ProbeIsCyclic(h: nat, i: nat, cap: nat)
    requires cap > 0 && (h + i < WORD || WORD % cap == 0)
    ensures ProbeSlot(h, i, cap) == Slot(h, i, cap)
  {
    if h + i < WORD {
      ModUnique(h + i, WORD, 0, h + i);
    } else {
      ModMod(h + i, WORD, cap);
    }
  }

  // Where the probe is before and after the wrap, d steps before 2^64 or i - (2^64 - h) after.
  lemma BeforeWrap(d: nat, cap: nat)
    requires 1 <= d <= cap <= WORD
    ensures (WORD - d) % cap == if d <= WORD % cap then WORD % cap - d else WORD % cap - d + cap
  {
    var q, r := WORD / cap, WORD % cap;
    QuotientBounds(WORD, cap);
    assert (q - 1) * cap == q * cap - cap;
    if d <= r {
      ModUnique(WORD - d, cap, q, r - d);
    } else {
      ModUnique(WORD - d, cap, q - 1, r - d + cap);
    }
  }

  // A slot that the wrapped probe of hash h never looks at.
  function Missed(h: nat, cap: nat): (j: int)
    requires 0 < cap
  {
    var i0, r := WORD - h, WORD % cap;
    if r <= i0 then r + cap - i0 - 1 else cap - 1
  }

  lemma MissedIsMissed(h: nat, cap: nat, i: nat)
    requires h < WORD && 0 < cap <= WORD && h + cap > WORD && WORD % cap != 0 && i < cap
    ensures 0 <= Missed(h, cap) < cap && ProbeSlot(h, i, cap) != Missed(h, cap)
  {
    var i0 := WORD - h;
    if i < i0 {
      ModUnique(h + i, WORD, 0, h + i);
      BeforeWrap(i0 - i, cap);
    } else {
      ModUnique(h + i, WORD, 1, i - i0);
      ModUnique(i - i0, cap, 0, i - i0);
    }
  }

  // The probe of hash h looks at every slot if and only if it does not wrap at 2^64 or the
  // capacity divides 2^64.
  lemma ProbeCoversIff(h: nat, cap: nat)
    requires h < WORD && 0 < cap <= WORD
    ensures Covers(h, cap) <==> h + cap <= WORD || WORD % cap == 0
  {
    if h + cap <= WORD || WORD % cap == 0 {
      forall j | 0 <= j < cap ensures Reached(h, cap, j) {
        var i := StepTo(h, j, cap);
        StepToReaches(h, j, cap);
        ProbeIsCyclic(h, i, cap);
      }
    } else {
      MissedIsMissed(h, cap, 0);
      var m := Missed(h, cap);
      if Reached(h, cap, m) {
        var i :| 0 <= i < cap && ProbeSlot(h, i, cap) == m;
        MissedIsMissed(h, cap, i);
      }
    }
  }

  // With three slots, a key of the largest hash value never looks at slot 2.
  lemma ThreeSlotsMissOne()
    ensures !Covers(WORD - 1, 3) && !Reached(WORD - 1, 3, 2)
  {
    ProbeCoversIff(WORD - 1, 3);
    if Reached(WORD - 1, 3, 2) {
      var i :| 0 <= i < 3 && ProbeSlot(WORD - 1, i, 3) == 2;
      MissedIsMissed(WORD - 1, 3, i);
    }
  }

  ghost predicate HashFits(hash: Key -> nat) {
    forall k: Key :: hash(k) < WORD
  }

  // The capacities for which the table works with this hash function.  2^14 doubled any number
  // of times divides 2^64, so it is one for every hash function.
  ghost predicate Usable(hash: Key -> nat, cap: nat) {
    && 0 < cap <= WORD
    && HashFits(hash)
    && (WORD % cap == 0 || forall k: Key :: k != INVALID ==> hash(k) + cap <= WORD)
  }

  // They are exactly those for which the probe of every key looks at every slot.
  lemma UsableIff(hash: Key -> nat, cap: nat)
    requires 0 < cap <= WORD && HashFits(hash)
    ensures (forall k: Key :: k != INVALID ==> Covers(hash(k), cap)) <==> Usable(hash, cap)
  {
    forall k: Key ensures Covers(hash(k), cap) <==> hash(k) + cap <= WORD || WORD % cap == 0 {
      ProbeCoversIff(hash(k), cap);
    }
  }

  // For any other capacity some key can be stored where no operation on it will look.
  lemma UnusableLoses(hash: Key -> nat, cap: nat) returns (s: seq<Pair>, k: Key)
    requires 0 < cap <= WORD && HashFits(hash) && !Usable(hash, cap)
    ensures |s| == cap && HasKey(Stored(s), k)
    ensures forall i :: 0 <= i < cap ==> s[ProbeSlot(hash(k), i, cap)].key != k
  {
    k :| k != INVALID && hash(k) + cap > WORD;
    MissedIsMissed(hash(k), cap, 0);
    var m := Missed(hash(k), cap);
    s := seq(cap, i => if i == m then Pair(k, NONE) else EMPTY);
    StoredMember(s, Pair(k, NONE));
    assert s[m] == Pair(k, NONE);
    forall i | 0 <= i < cap ensures s[ProbeSlot(hash(k), i, cap)].key != k {
      MissedIsMissed(hash(k), cap, i);
    }
  }

  // The next slot of the probe is the next slot of the table, or the first.
  lemma NextSlot(h: nat, i: nat, cap: nat)
    requires cap > 0
    ensures ProbeSlot(h, i + 1, cap) == ProbeSlot(h, i, cap) + 1 || ProbeSlot(h, i + 1, cap) == 0
  {
    WrapStep(h + i, WORD);
    if (h + i + 1) % WORD != 0 { WrapStep((h + i) % WORD, cap); }
  }

  lemma WrapStep(x: nat, m: nat)
    requires m > 0
    ensures (x + 1) % m == if x % m + 1 == m then 0 else x % m + 1
  {
    var q, r := x / m, x % m;
    QuotientBounds(x, m);
    assert (q + 1) * m == q * m + m;
    if r + 1 == m {
      ModUnique(x + 1, m, q + 1, 0);
    } else {
      ModUnique(x + 1, m, q, r + 1);
    }
  }

  // ---------------------------------------------------------------- probes over slots

  // The first step from i on whose slot satisfies q, or |s| when the rest of the probe meets none.
  ghost function Probe(s: seq<Pair>, h: nat, i: nat, q: Pair -> bool): (r: nat)
    requires i <= |s|
    ensures i <= r <= |s|
    ensures forall m :: i <= m < r ==> !q(s[ProbeSlot(h, m, |s|)])
    ensures r < |s| ==> q(s[ProbeSlot(h, r, |s|)])
    decreases |s| - i
  {
    if i == |s| || q(s[ProbeSlot(h, i, |s|)]) then i else Probe(s, h, i + 1, q)
  }

  lemma ProbeIs(s: seq<Pair>, h: nat, i: nat, q: Pair -> bool)
    requires i <= |s| && forall m :: 0 <= m < i ==> !q(s[ProbeSlot(h, m, |s|)])
    requires i < |s| ==> q(s[ProbeSlot(h, i, |s|)])
    ensures Probe(s, h, 0, q) == i
  {
    var r := Probe(s, h, 0, q);
    assert r < |s| ==> q(s[ProbeSlot(h, r, |s|)]);
  }

  ghost predicate Has(s: seq<Pair>, q: Pair -> bool) {
    exists j :: 0 <= j < |s| && q(s[j])
  }

  // The operations on key k look at a slot that holds it.
  ghost predicate Seen(hash: Key -> nat, s: seq<Pair>, k: Key) {
    Probe(s, hash(k), 0, KeyIs(k)) < |s|
  }

  // A lookup finds its key exactly when one of the probe steps meets it.
  lemma SeenIff(hash: Key -> nat, s: seq<Pair>, k: Key)
    ensures Seen(hash, s, k) <==> exists i :: 0 <= i < |s| && s[ProbeSlot(hash(k), i, |s|)].key == k
  {
    hide ProbeSlot;
    var n := Probe(s, hash(k), 0, KeyIs(k));
    if n < |s| { assert s[ProbeSlot(hash(k), n, |s|)].key == k; }
  }

  // A probe that covers the table meets whatever the table has.
  lemma CoveredProbe(s: seq<Pair>, h: nat, q: Pair -> bool)
    requires |s| > 0 && Covers(h, |s|)
    ensures Probe(s, h, 0, q) < |s| <==> Has(s, q)
  {
    if Has(s, q) {
      var j :| 0 <= j < |s| && q(s[j]);
      assert Reached(h, |s|, j);
      var i :| 0 <= i < |s| && ProbeSlot(h, i, |s|) == j;
    }
  }

  // A key that is seen is stored.  On a usable capacity every stored key is seen.
  lemma SeenStored(hash: Key -> nat, s: seq<Pair>, k: Key)
    requires k != INVALID
    ensures Seen(hash, s, k) ==> HasKey(Stored(s), k)
    ensures Usable(hash, |s|) ==> (Seen(hash, s, k) <==> HasKey(Stored(s), k))
  {
    if Seen(hash, s, k) {
      var p := s[ProbeSlot(hash(k), Probe(s, hash(k), 0, KeyIs(k)), |s|)];
      StoredMember(s, p);
      assert p == Pair(k, p.value);
    }
    if Usable(hash, |s|) && HasKey(Stored(s), k) {
      var v :| Pair(k, v) in Stored(s);
      StoredMember(s, Pair(k, v));
      var j :| 0 <= j < |s| && s[j] == Pair(k, v);
      assert KeyIs(k)(s[j]);
      ProbeCoversIff(hash(k), |s|);
      CoveredProbe(s, hash(k), KeyIs(k));
    }
  }

  // ---------------------------------------------------------------- the operations on slots

  // size < capacity * kResizingThreshold
  predicate BelowThreshold(size: nat, cap: nat) {
    20 * size < 19 * cap
  }

  // getLocation and the copy that follows it, from slot `start` on.
  ghost function Moved(t: seq<Pair>, start: nat, p: Pair): (r: seq<Pair>)
    ensures |r| == |t|
  {
    var i := Find(t, start, 0, KeyIs(INVALID));
    if i < |t| then t[Slot(start, i, |t|) := p] else t
  }

  // The array of a resize after the first n slots have been copied.
  ghost function Rehashed(hash: Key -> nat, s: seq<Pair>, cap: nat, n: nat): (r: seq<Pair>)
    requires n <= |s| && cap > 0
    ensures |r| == cap
  {
    if n == 0 then seq(cap, _ => EMPTY)
    else if s[n - 1].key == INVALID then Rehashed(hash, s, cap, n - 1)
    else Moved(Rehashed(hash, s, cap, n - 1), hash(s[n - 1].key) % cap, s[n - 1])
  }

  // A larger array receives every pair.
  lemma {:induction false} RehashedBag(hash: Key -> nat, s: seq<Pair>, cap: nat, n: nat)
    requires n <= |s| < cap
    ensures Stored(Rehashed(hash, s, cap, n)) == Stored(s[..n])
    decreases n
  {
    if n == 0 {
      StoredNone(cap);
    } else {
      var t, r, p := Rehashed(hash, s, cap, n - 1), Rehashed(hash, s, cap, n), s[n - 1];
      assert r == if p.key == INVALID then t else Moved(t, hash(p.key) % cap, p);
      RehashedBag(hash, s, cap, n - 1);
      hide *;
      StoredSnoc(s, n - 1);
      assert One(p) == if p.key == INVALID then multiset{} else multiset{p} by { OneIs(p); }
      if p.key != INVALID { MovedBag(t, s[..n - 1], hash(p.key) % cap, p); }
    }
  }

  lemma OneIs(p: Pair)
    ensures One(p) == if p.key == INVALID then multiset{} else multiset{p}
  {}

  lemma MovedBag(t: seq<Pair>, s: seq<Pair>, start: nat, p: Pair)
    requires |s| < |t| && Stored(t) == Stored(s) && p.key != INVALID
    ensures Find(t, start, 0, KeyIs(INVALID)) < |t|
    ensures Stored(Moved(t, start, p)) == Stored(t) + One(p)
  {
    StoredSize(s);
    StoredSize(t);
    FindCovers(t, start, KeyIs(INVALID));
    StoredUpdate(t, Slot(start, Find(t, start, 0, KeyIs(INVALID)), |t|), p);
  }

  // The slots when the probe of an insert begins: at the threshold the table is doubled first.
  ghost function Grown(hash: Key -> nat, s: seq<Pair>, size: nat): (r: seq<Pair>)
    requires |s| > 0
    ensures |r| >= |s|
  {
    if BelowThreshold(size, |s|) then s else Rehashed(hash, s, 2 * |s|, |s|)
  }

  lemma RehashedSized(hash: Key -> nat, s: seq<Pair>, cap: nat, size: nat)
    requires Sized(s, size) && |s| < cap && 20 * size < 19 * cap + 20
    ensures Sized(Rehashed(hash, s, cap, |s|), size)
    ensures Stored(Rehashed(hash, s, cap, |s|)) == Stored(s)
  {
    RehashedBag(hash, s, cap, |s|);
    assert s[..|s|] == s;
    hide Rehashed, Stored;
  }

  lemma GrownBag(hash: Key -> nat, s: seq<Pair>, size: nat)
    requires |s| > 0
    ensures Stored(Grown(hash, s, size)) == Stored(s)
  {
    RehashedBag(hash, s, 2 * |s|, |s|);
    assert s[..|s|] == s;
  }

  // An insert stores its pair in the first free slot of its probe; when the probe meets none it
  // changes nothing and starts again, for ever.
  datatype Outcome = Placed(slots: seq<Pair>, size: nat) | Hangs(slots: seq<Pair>, size: nat)

  ghost function Inserted(hash: Key -> nat, s: seq<Pair>, size: nat, p: Pair): Outcome
    requires |s| > 0
  {
    var t := Grown(hash, s, size);
    var i := Probe(t, hash(p.key), 0, KeyIs(INVALID));
    if i < |t| then Placed(t[ProbeSlot(hash(p.key), i, |t|) := p], size + 1) else Hangs(t, size)
  }

  // An insert returns exactly when one of the probe steps meets a free slot, after the doubling that
  // is due at 95 percent.
  lemma InsertedIff(hash: Key -> nat, s: seq<Pair>, size: nat, p: Pair)
    requires |s| > 0
    ensures var t := if 100 * size < 95 * |s| then s else Rehashed(hash, s, 2 * |s|, |s|);
            Inserted(hash, s, size, p).Placed? <==>
              exists i :: 0 <= i < |t| && t[ProbeSlot(hash(p.key), i, |t|)].key == INVALID
  {
    hide Rehashed, ProbeSlot;
    var t := Grown(hash, s, size);
    var n := Probe(t, hash(p.key), 0, KeyIs(INVALID));
    if n < |t| { assert t[ProbeSlot(hash(p.key), n, |t|)].key == INVALID; }
  }

  // An insert whose probe passes i occupied slots.
  lemma InsertAt(hash: Key -> nat, s: seq<Pair>, size: nat, p: Pair, i: nat)
    requires i < |s| && BelowThreshold(size, |s|)
    requires forall m :: 0 <= m < i ==> s[ProbeSlot(hash(p.key), m, |s|)].key != INVALID
    requires s[ProbeSlot(hash(p.key), i, |s|)].key == INVALID
    ensures Inserted(hash, s, size, p) == Placed(s[ProbeSlot(hash(p.key), i, |s|) := p], size + 1)
  {
    ProbeIs(s, hash(p.key), i, KeyIs(INVALID));
  }

  // An insert whose probe meets no free slot.
  lemma InsertHangs(hash: Key -> nat, s: seq<Pair>, size: nat, p: Pair)
    requires |s| > 0 && BelowThreshold(size, |s|)
    requires forall m :: 0 <= m < |s| ==> s[ProbeSlot(hash(p.key), m, |s|)].key != INVALID
    ensures Inserted(hash, s, size, p) == Hangs(s, size)
  {
    ProbeIs(s, hash(p.key), |s|, KeyIs(INVALID));
  }

  // What every table keeps: size is at least the number of pairs, and stays near the threshold.
  ghost predicate Sized(s: seq<Pair>, size: nat) {
    |s| > 0 && |Stored(s)| <= size && 20 * size < 19 * |s| + 20
  }

  lemma GrownSized(hash: Key -> nat, s: seq<Pair>, size: nat)
    requires Sized(s, size)
    ensures Sized(Grown(hash, s, size), size) && BelowThreshold(size, |Grown(hash, s, size)|)
    ensures Has(Grown(hash, s, size), KeyIs(INVALID))
  {
    GrownLength(hash, s, size);
    hide Grown, Stored, Has, Rehashed, BelowThreshold;
    GrownBag(hash, s, size);
    var t := Grown(hash, s, size);
    StaysBelow(|s|, |t|, size);
    RoomLeft(t, size);
  }

  lemma GrownLength(hash: Key -> nat, s: seq<Pair>, size: nat)
    requires |s| > 0
    ensures |Grown(hash, s, size)| == if BelowThreshold(size, |s|) then |s| else 2 * |s|
  {
    hide Rehashed;
  }

  lemma StaysBelow(n: nat, m: nat, size: nat)
    requires n > 0 && 20 * size < 19 * n + 20 && m == if BelowThreshold(size, n) then n else 2 * n
    ensures BelowThreshold(size, m) && 20 * size < 19 * m + 20
  {}

  // Below the threshold a slot is free.
  lemma RoomLeft(t: seq<Pair>, size: nat)
    requires |Stored(t)| <= size && BelowThreshold(size, |t|)
    ensures Has(t, KeyIs(INVALID))
  {
    StoredSize(t);
    hide Stored;
    var j :| 0 <= j < |t| && t[j].key == INVALID;
    assert KeyIs(INVALID)(t[j]);
  }

  // An insert that returns adds exactly its pair.  On a usable capacity it returns.
  lemma InsertedBag(hash: Key -> nat, s: seq<Pair>, size: nat, p: Pair)
    requires Sized(s, size) && p.key != INVALID
    ensures var r := Inserted(hash, s, size, p);
            && Sized(r.slots, r.size)
            && Stored(r.slots) == (if r.Placed? then Stored(s) + multiset{p} else Stored(s))
            && (Usable(hash, |Grown(hash, s, size)|) ==> r.Placed?)
  {
    var t := Grown(hash, s, size);
    GrownBag(hash, s, size);
    GrownSized(hash, s, size);
    var i := Probe(t, hash(p.key), 0, KeyIs(INVALID));
    if i < |t| { StoredUpdate(t, ProbeSlot(hash(p.key), i, |t|), p); }
    if Usable(hash, |t|) {
      ProbeCoversIff(hash(p.key), |t|);
      CoveredProbe(t, hash(p.key), KeyIs(INVALID));
    }
  }

  // The operation does what the interface promises: an insert meets a free slot, and the key of
  // any other operation is seen if it is stored.
  ghost predicate Works(hash: Key -> nat, s: seq<Pair>, size: nat, op: Op)
    requires |s| > 0
  {
    if op.Insert? then Inserted(hash, s, size, Pair(op.k, op.v)).Placed?
    else HasKey(Stored(s), op.k) ==> Seen(hash, s, op.k)
  }

  lemma UsableWorks(hash: Key -> nat, s: seq<Pair>, size: nat, op: Op)
    requires Sized(s, size) && op.k != INVALID
    requires Usable(hash, |s|) && (!BelowThreshold(size, |s|) ==> Usable(hash, 2 * |s|))
    ensures Works(hash, s, size, op)
  {
    if op.Insert? {
      InsertedBag(hash, s, size, Pair(op.k, op.v));
    } else {
      SeenStored(hash, s, op.k);
    }
  }

  // The capacity after j doublings.
  ghost function Capacity(cap: nat, j: nat): nat {
    if j == 0 then cap else 2 * Capacity(cap, j - 1)
  }

  // `count` inserts can make a table that starts with `cap` slots double j times.
  ghost predicate Doubles(cap: nat, count: nat, j: nat) {
    j == 0 || 19 * Capacity(cap, j - 1) <= 20 * count
  }

  ghost predicate UsableUpTo(hash: Key -> nat, cap: nat, count: nat) {
    forall j: nat :: Doubles(cap, count, j) ==> Usable(hash, Capacity(cap, j))
  }

  // ---------------------------------------------------------------- runs that fail

  // A new table of three slots, two inserts, and an insert that never returns although the size
  // is below the threshold and slot 2 is free.
  lemma ThirdInsertHangs(hash: Key -> nat, a: Pair, b: Pair, c: Pair)
    requires a.key != INVALID && b.key != INVALID && c.key != INVALID
    requires hash(a.key) == 0 && hash(b.key) == 1 && hash(c.key) == WORD - 1
    ensures Inserted(hash, [EMPTY, EMPTY, EMPTY], 0, a) == Placed([a, EMPTY, EMPTY], 1)
    ensures Inserted(hash, [a, EMPTY, EMPTY], 1, b) == Placed([a, b, EMPTY], 2)
    ensures Inserted(hash, [a, b, EMPTY], 2, c) == Hangs([a, b, EMPTY], 2) && BelowThreshold(2, 3)
  {
    InsertAt(hash, [EMPTY, EMPTY, EMPTY], 0, a, 0);
    InsertAt(hash, [a, EMPTY, EMPTY], 1, b, 0);
    InsertHangs(hash, [a, b, EMPTY], 2, c);
  }

  // Pairs with the hash values 4, 5, 6, 7, 2^64 - 2 and 0.
  ghost predicate Losing(hash: Key -> nat, a: seq<Pair>) {
    && |a| == 6 && (forall i :: 0 <= i < 6 ==> a[i].key != INVALID)
    && hash(a[0].key) == 4 && hash(a[1].key) == 5 && hash(a[2].key) == 6 && hash(a[3].key) == 7
    && hash(a[4].key) == WORD - 2 && hash(a[5].key) == 0
  }

  // A table of five slots with the first n of them, and the last of the five pairs.
  ghost function Filled(a: seq<Pair>, n: nat): (r: seq<Pair>)
    requires |a| == 6 && n <= 4
    ensures |r| == 5
  {
    seq(5, i requires 0 <= i < 5 => if i < n || i == 4 then a[i] else EMPTY)
  }

  // They fill a new table of five slots when the pair of hash 2^64 - 2 comes first.
  lemma FiveInserts(hash: Key -> nat, a: seq<Pair>, n: nat)
    requires Losing(hash, a) && n < 4
    ensures a[n].key != INVALID && a[4].key != INVALID && a[5].key != INVALID
    ensures Inserted(hash, seq(5, _ => EMPTY), 0, a[4]) == Placed(Filled(a, 0), 1)
    ensures Inserted(hash, Filled(a, n), n + 1, a[n]) == Placed(Filled(a, n + 1), n + 2)
  {
    hide Inserted;
    assert ProbeSlot(WORD - 2, 0, 5) == 4;
    assert ProbeSlot(4 + n, 1, 5) == n;
    assert ProbeSlot(4 + n, 0, 5) == (if n == 0 then 4 else n - 1);
    assert hash(a[n].key) == 4 + n;
    assert seq(5, _ => EMPTY)[4 := a[4]] == Filled(a, 0);
    assert Filled(a, n)[n := a[n]] == Filled(a, n + 1);
    hide ProbeSlot;
    InsertAt(hash, seq(5, _ => EMPTY), 0, a[4], 0);
    InsertAt(hash, Filled(a, n), n + 1, a[n], 1);
  }

  // The table of ten slots that the next insert makes of it.
  ghost function Spread(a: seq<Pair>, n: nat): (r: seq<Pair>)
    requires |a| == 6 && n <= 5
    ensures |r| == 10
  {
    seq(10, i requires 0 <= i < 10 => if 4 <= i < 4 + n then a[i - 4] else EMPTY)
  }

  lemma SpreadStep(hash: Key -> nat, a: seq<Pair>, n: nat)
    requires Losing(hash, a) && n < 5
    ensures Moved(Spread(a, n), hash(a[n].key) % 10, a[n]) == Spread(a, n + 1)
  {
    var t, start := Spread(a, n), hash(a[n].key) % 10;
    var i := if n < 4 then 0 else 4;
    assert start == if n < 4 then 4 + n else 4;
    var r := Find(t, start, 0, KeyIs(INVALID));
    assert Slot(start, i, 10) == 4 + n;
    assert forall m :: 0 <= m < i ==> Slot(start, m, 10) == start + m;
    assert KeyIs(INVALID)(t[Slot(start, i, 10)]);
    assert r == i;
    assert t[4 + n := a[n]] == Spread(a, n + 1);
  }

  lemma {:induction false} SpreadIs(hash: Key -> nat, a: seq<Pair>, n: nat)
    requires Losing(hash, a) && n <= 5
    ensures Rehashed(hash, Filled(a, 4), 10, n) == Spread(a, n)
    decreases n
  {
    if n == 0 {
      assert seq(10, _ => EMPTY) == Spread(a, 0);
    } else {
      SpreadIs(hash, a, n - 1);
      SpreadStep(hash, a, n - 1);
      assert Filled(a, 4)[n - 1] == a[n - 1];
      hide Moved, Spread, Filled;
    }
  }

  // The sixth insert doubles the table, and the pair of hash 2^64 - 2 moves to slot 8, which is
  // the one slot besides 9 that its probe never looks at.
  lemma SixthInsertLoses(hash: Key -> nat, a: seq<Pair>)
    requires Losing(hash, a)
    ensures Inserted(hash, Filled(a, 4), 5, a[5]) == Placed(Spread(a, 5)[0 := a[5]], 6)
    ensures a[4] in Stored(Spread(a, 5)[0 := a[5]])
    ensures !Seen(hash, Spread(a, 5)[0 := a[5]], a[4].key)
  {
    SpreadIs(hash, a, 5);
    var t := Spread(a, 5)[0 := a[5]];
    assert Filled(a, 4)[..5] == Filled(a, 4);
    assert ProbeSlot(0, 0, 10) == 0;
    ProbeIs(Spread(a, 5), 0, 0, KeyIs(INVALID));
    assert t[8] == a[4];
    StoredMember(t, a[4]);
    SlotEightMissed(hash, a, t);
  }

  lemma SlotEightMissed(hash: Key -> nat, a: seq<Pair>, t: seq<Pair>)
    requires Losing(hash, a) && t == Spread(a, 5)[0 := a[5]]
    ensures !Seen(hash, t, a[4].key)
  {
    var h := hash(a[4].key);
    forall m | 0 <= m < 10 ensures t[ProbeSlot(h, m, 10)].key != a[4].key {
      assert ProbeSlot(h, m, 10) == if m < 2 then 4 + m else m - 2;
    }
    ProbeIs(t, h, 10, KeyIs(a[4].key));
  }
}
