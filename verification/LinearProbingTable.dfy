/**
  The class of index/linear_probing.h as one thread runs it.  Its methods are proved to do to the
  slots what the functions of module LinearProbing do, at every capacity.
*/
module LinearProbingTable {
  import opened Pairs
  import opened Bits
  import opened Probing
  import opened TableSpec
  import opened LinearProbing

  // The lock that covers a slot; locksize is 256.
  function Stripe(slot: nat): nat {
    slot / 256
  }

  class LinearProbingHash {
    const hash: Key -> nat
    var capacity: nat
    var dict: array<Pair>
    var size: nat
    var nlocks: nat

    // size counts the inserts; it is not lowered by Delete and not reset by a resize.
    ghost predicate Valid()
      reads this, dict
    {
      && HashFits(hash)
      && capacity == dict.Length >= 1
      && nlocks == capacity / 256 + 1
      && Sized(dict[..], size)
    }

    ghost function Contents(): multiset<Pair>
      reads this, dict
    {
      Stored(dict[..])
    }

    constructor (h: Key -> nat, cap: nat)
      requires cap >= 1 && HashFits(h)
      ensures Valid() && fresh(dict) && hash == h && capacity == cap
      ensures dict[..] == seq(cap, _ => EMPTY) && size == 0 && Contents() == multiset{}
    {
      hash := h;
      capacity := cap;
      dict := new Pair[cap](_ => EMPTY);
      size := 0;
      nlocks := cap / 256 + 1;
      new;
      assert dict[..] == seq(cap, _ => EMPTY);
      StoredNone(cap);
    }

    // Lines 91-119: one stripe of the probe, under one lock.  It ends at a free slot of the
    // stripe, or having looked at the steps from..next - 1 without finding one.
    method ProbeStripe(h: nat, from: nat) returns (found: bool, slot: nat, next: nat)
      requires Valid() && from < capacity
      ensures from <= next <= capacity
      ensures forall m :: from <= m < next ==> dict[ProbeSlot(h, m, capacity)].key != INVALID
      ensures found ==> next < capacity && slot == ProbeSlot(h, next, capacity) && dict[slot].key == INVALID
      ensures found ==> Stripe(slot) == Stripe(ProbeSlot(h, from, capacity)) < nlocks
      ensures found ==> slot / 256 == ProbeSlot(h, from, capacity) / 256
      ensures !found ==> from < next
    {
      slot := ProbeSlot(h, from, capacity);
      var stripe := Stripe(slot);
      StripeInRange(slot, capacity);
      next := from;
      while true
        invariant from <= next < capacity
        invariant slot == ProbeSlot(h, next, capacity) && Stripe(slot) == stripe
        invariant forall m :: from <= m < next ==> dict[ProbeSlot(h, m, capacity)].key != INVALID
        decreases capacity - next
      {
        if dict[slot].key == INVALID { return true, slot, next; }
        NextSlot(h, next, capacity);
        next := next + 1;
        var following := ProbeSlot(h, next, capacity);
        SameStripe(slot, following);
        slot := following;
        if !(next < capacity) || slot % 256 == 0 { return false, slot, next; }
      }
    }

    // Lines 106-112: the write, and one more insert counted.
    method Write(slot: nat, p: Pair)
      requires slot < dict.Length
      modifies dict, this`size
      ensures dict[..] == old(dict[..])[slot := p] && size == old(size) + 1
    {
      dict[slot] := p;
      size := size + 1;
    }

    // Lines 89-120: the striped probe and the write.
    method ProbeAndWrite(key: Key, value: Value) returns (stored: bool)
      requires Valid() && BelowThreshold(size, capacity) && key != INVALID
      modifies dict, this`size
      ensures Valid()
      ensures (if stored then Placed(dict[..], size) else Hangs(dict[..], size))
           == Inserted(hash, old(dict[..]), old(size), Pair(key, value))
      ensures size == if stored then old(size) + 1 else old(size)
    {
      ghost var s, h := dict[..], hash(key);
      InsertedBag(hash, s, size, Pair(key, value));
      hide Sized, Usable, Inserted, Stored, HashFits, ProbeSlot;
      var i := 0;
      while i < capacity
        invariant 0 <= i <= capacity && dict[..] == s && size == old(size)
        invariant forall m :: 0 <= m < i ==> s[ProbeSlot(h, m, |s|)].key != INVALID
        decreases capacity - i
      {
        var found, slot, next := ProbeStripe(hash(key), i);
        if found {
          InsertAt(hash, s, size, Pair(key, value), next);
          Write(slot, Pair(key, value));
          return true;
        }
        i := next;
      }
      InsertHangs(hash, s, size, Pair(key, value));
      return false;
    }

    // The RETRY loop.  It resizes at most once.  A pass that meets no free slot changes nothing,
    // so the loop repeats that pass for ever; stored is false then.
    method Retry(key: Key, value: Value) returns (stored: bool, resizes: nat)
      requires Valid() && key != INVALID
      modifies this, dict
      ensures Valid() && (dict == old(dict) || fresh(dict))
      ensures (if stored then Placed(dict[..], size) else Hangs(dict[..], size))
           == Inserted(hash, old(dict[..]), old(size), Pair(key, value))
      ensures resizes == if BelowThreshold(old(size), old(capacity)) then 0 else 1
      ensures capacity == if resizes == 0 then old(capacity) else 2 * old(capacity)
      ensures size == if stored then old(size) + 1 else old(size)
    {
      GrownOnce(hash, dict[..], size, Pair(key, value));
      ghost var s, t := dict[..], Grown(hash, dict[..], size);
      ghost var below := BelowThreshold(size, capacity);
      assert t == if below then s else Rehashed(hash, s, 2 * capacity, capacity);
      hide Inserted, Sized, Stored, Grown, Rehashed, HashFits;
      resizes := 0;
      while true
        invariant Valid() && size == old(size) && (dict == old(dict) || fresh(dict))
        invariant dict[..] == (if resizes == 0 then s else t) && resizes <= if below then 0 else 1
        decreases 1 - resizes
      {
        if BelowThreshold(size, capacity) {
          stored := ProbeAndWrite(key, value);
          return;
        }
        Resize(2 * capacity);
        resizes := resizes + 1;
      }
    }

    method Insert(key: Key, value: Value) returns (stored: bool, resizes: nat)
      requires Valid() && key != INVALID
      modifies this, dict
      ensures Valid() && (dict == old(dict) || fresh(dict))
      ensures (if stored then Placed(dict[..], size) else Hangs(dict[..], size))
           == Inserted(hash, old(dict[..]), old(size), Pair(key, value))
      ensures resizes == if BelowThreshold(old(size), old(capacity)) then 0 else 1
      ensures capacity == if resizes == 0 then old(capacity) else 2 * old(capacity)
      ensures size == if stored then old(size) + 1 else old(size)
      ensures resizes == 1 <==> 20 * old(size) >= 19 * old(capacity)
      ensures stored ==> BagStep(old(Contents()), Op.Insert(key, value), Contents(), Unit)
      ensures !stored ==> Contents() == old(Contents())
    {
      InsertedBag(hash, dict[..], size, Pair(key, value));
      hide Inserted, Sized, Stored, Usable, HashFits;
      stored, resizes := Retry(key, value);
    }

    // An insert whose outcome is known.
    method InsertKnown(p: Pair, ghost slots: seq<Pair>, ghost n: nat) returns (stored: bool)
      requires Valid() && p.key != INVALID && |slots| > 0
      requires var r := Inserted(hash, dict[..], size, p); r == Placed(slots, n) || r == Hangs(slots, n)
      modifies this, dict
      ensures Valid() && (dict == old(dict) || fresh(dict)) && dict[..] == slots && size == n
      ensures stored <==> Inserted(hash, old(dict[..]), old(size), p) == Placed(slots, n)
    {
      hide Inserted, Sized, Stored, BagStep, HashFits;
      var resizes;
      stored, resizes := Insert(p.key, p.value);
    }

    // The first free slot from `from` on, or -1 after looking at all of them.
    static method GetLocation(from: nat, cap: nat, d: array<Pair>) returns (loc: int)
      requires from < cap == d.Length
      ensures var i := Find(d[..], from, 0, KeyIs(INVALID));
              loc == if i < cap then Slot(from, i, cap) else -1
      ensures loc == -1 <==> forall j :: 0 <= j < cap ==> d[j].key != INVALID
    {
      ghost var s := d[..];
      FindCovers(s, from, KeyIs(INVALID));
      SlotStart(from, cap);
      hide Slot;
      var cur, i := from, 0;
      while d[cur].key != INVALID
        invariant 0 <= i < cap && cur == Slot(from, i, cap)
        invariant Find(s, from, 0, KeyIs(INVALID)) == Find(s, from, i, KeyIs(INVALID))
        decreases cap - i
      {
        SlotStep(from, i, cap);
        cur := (cur + 1) % cap;
        i := i + 1;
        if !(i < cap) { return -1; }
      }
      return cur;
    }

    // Lines 264-279: copy every pair to its place in a larger array; GetLocation never fails.
    method Rehash(newDict: array<Pair>)
      requires Valid() && newDict != dict && newDict.Length > capacity
      requires newDict[..] == seq(newDict.Length, _ => EMPTY)
      modifies newDict
      ensures newDict[..] == Rehashed(hash, dict[..], newDict.Length, capacity)
    {
      hide Sized, HashFits, Rehashed, Moved;
      ghost var s, cap := dict[..], newDict.Length;
      RehashedStart(hash, s, cap);
      var i := 0;
      while i < capacity
        invariant 0 <= i <= capacity && dict[..] == s
        invariant newDict[..] == Rehashed(hash, s, cap, i)
      {
        RehashedStep(hash, s, cap, i);
        if dict[i].key != INVALID {
          MoveTo(hash(dict[i].key) % newDict.Length, dict[i], newDict);
        }
        i := i + 1;
      }
    }

    // Lines 268-269: getLocation and the copy.
    static method MoveTo(start: nat, p: Pair, d: array<Pair>)
      requires start < d.Length && Find(d[..], start, 0, KeyIs(INVALID)) < d.Length
      modifies d
      ensures d[..] == Moved(old(d[..]), start, p)
    {
      var loc := GetLocation(start, d.Length, d);
      ghost var t := d[..];
      d[loc] := p;
      assert d[..] == t[loc := p];
    }

    // The size is kept.
    method Resize(cap: nat)
      requires Valid() && cap > capacity && 20 * size < 19 * cap + 20
      modifies this`capacity, this`dict, this`nlocks
      ensures Valid() && fresh(dict) && capacity == cap && size == old(size)
      ensures dict[..] == Rehashed(hash, old(dict[..]), cap, old(capacity))
      ensures Contents() == old(Contents())
    {
      var newDict := new Pair[cap](_ => EMPTY);
      assert newDict[..] == seq(cap, _ => EMPTY);
      Rehash(newDict);
      RehashedSized(hash, dict[..], cap, size);
      hide Stored, Rehashed, Sized, HashFits;
      nlocks := cap / 256 + 1;
      capacity := cap;
      dict := newDict;
    }

    // The scan of Update, Delete and Get.
    method FindKey(key: Key) returns (found: bool, loc: nat)
      requires Valid() && key != INVALID
      ensures found <==> Seen(hash, dict[..], key)
      ensures found ==> loc == ProbeSlot(hash(key), Probe(dict[..], hash(key), 0, KeyIs(key)), capacity)
      ensures found ==> loc < capacity && dict[loc].key == key && dict[loc] in Contents()
    {
      ghost var s, h, q := dict[..], hash(key), KeyIs(key);
      var i := 0;
      while i < capacity
        invariant 0 <= i <= capacity
        invariant forall m :: 0 <= m < i ==> !q(s[ProbeSlot(h, m, |s|)])
      {
        loc := ProbeSlot(hash(key), i, capacity);
        if dict[loc].key == key {
          ProbeIs(s, h, i, q);
          StoredMember(s, s[loc]);
          return true, loc;
        }
        i := i + 1;
      }
      ProbeIs(s, h, i, q);
      return false, 0;
    }

    // A key that is seen is updated; of a key that is not, nothing changes.  This is what the
    // interface promises if and only if no stored key is unseen.
    method Update(key: Key, value: Value) returns (found: bool)
      requires Valid() && key != INVALID
      modifies dict
      ensures Valid()
      ensures found <==> Seen(hash, old(dict[..]), key)
      ensures BagStep(old(Contents()), Op.Update(key, value), Contents(), Flag(found))
         <==> (HasKey(old(Contents()), key) ==> found)
      ensures !found ==> dict[..] == old(dict[..])
    {
      ghost var s := dict[..];
      var loc;
      found, loc := FindKey(key);
      SeenStored(hash, s, key);
      if found {
        Replaced(s, size, loc, Pair(key, value));
        dict[loc] := Pair(key, value);
        assert dict[..] == s[loc := Pair(key, value)];
        hide Sized, Stored;
        assert s[loc] == Pair(key, s[loc].value);
      }
    }

    method Delete(key: Key) returns (found: bool)
      requires Valid() && key != INVALID
      modifies dict
      ensures Valid()
      ensures found <==> Seen(hash, old(dict[..]), key)
      ensures BagStep(old(Contents()), Op.Delete(key), Contents(), Flag(found))
         <==> (HasKey(old(Contents()), key) ==> found)
      ensures !found ==> dict[..] == old(dict[..])
    {
      ghost var s := dict[..];
      var loc;
      found, loc := FindKey(key);
      SeenStored(hash, s, key);
      if found {
        var p := Pair(INVALID, dict[loc].value);
        Replaced(s, size, loc, p);
        dict[loc] := p;
        assert dict[..] == s[loc := p];
        hide Sized, Stored;
        assert s[loc] == Pair(key, s[loc].value);
      }
    }

    method Get(key: Key) returns (value: Value)
      requires Valid() && key != INVALID
      ensures (HasKey(Contents(), key) ==> Seen(hash, dict[..], key)) ==>
                BagStep(Contents(), Op.Get(key), Contents(), Val(value))
      ensures !Seen(hash, dict[..], key) ==> value == NONE
    {
      SeenStored(hash, dict[..], key);
      var found, loc := FindKey(key);
      value := if found then dict[loc].value else NONE;
      assert found ==> dict[loc] == Pair(key, value);
    }

    // returned is false for an insert that repeats its pass for ever.
    method Apply(op: Op) returns (r: Reply, returned: bool)
      requires Valid() && op.k != INVALID
      modifies this, dict
      ensures Valid() && (dict == old(dict) || fresh(dict))
      ensures returned <==> op.Insert? ==> Inserted(hash, old(dict[..]), old(size), Pair(op.k, op.v)).Placed?
      ensures Works(hash, old(dict[..]), old(size), op) ==> returned && BagStep(old(Contents()), op, Contents(), r)
      ensures capacity
           == if op.Insert? && !BelowThreshold(old(size), old(capacity)) then 2 * old(capacity) else old(capacity)
      ensures old(size) <= size <= old(size) + 1
    {
      hide Inserted, Sized, BagStep, Stored, HashFits, Seen;
      returned := true;
      match op
      case Insert(k, v) =>
        var resizes;
        returned, resizes := Insert(k, v);
        r := Unit;
      case Update(k, v) =>
        var found := Update(k, v);
        r := Flag(found);
      case Delete(k) =>
        var found := Delete(k);
        r := Flag(found);
      case Get(k) =>
        var value := Get(k);
        r := Val(value);
    }

    // j counts the doublings since the table had `cap` slots, and `count` bounds the inserts.
    ghost predicate Grows(cap: nat, count: nat, j: nat)
      reads this, dict
    {
      Valid() && capacity == Capacity(cap, j) && Doubles(cap, size, j) && UsableUpTo(hash, cap, count)
    }

    // At usable capacities every operation returns and does what the interface promises.
    method Perform(op: Op, ghost cap: nat, ghost count: nat, ghost j: nat) returns (r: Reply, ghost j': nat)
      requires Grows(cap, count, j) && size < count && op.k != INVALID
      modifies this, dict
      ensures Grows(cap, count, j') && size <= old(size) + 1 && (dict == old(dict) || fresh(dict))
      ensures BagStep(old(Contents()), op, Contents(), r)
    {
      hide BagStep, Works, Usable, UsableUpTo, Sized, Inserted, Stored;
      NextDoubling(hash, cap, count, j, size);
      UsableWorks(hash, dict[..], size, op);
      j' := if op.Insert? && !BelowThreshold(size, capacity) then j + 1 else j;
      var returned;
      r, returned := Apply(op);
    }

    // From a table that holds the map m, at usable capacities, every run with fresh inserts
    // answers like the map.
    method Run(ops: seq<Op>, ghost m: map<Key, Value>) returns (replies: seq<Reply>)
      requires Valid() && Models(Contents(), m) && FreshRun(m, ops)
      requires UsableUpTo(hash, capacity, size + |ops|)
      modifies this, dict
      ensures Valid()
      ensures replies == MapReplies(m, ops)
      ensures Models(Contents(), MapAfter(m, ops))
    {
      assert Capacity(capacity, 0) == capacity;
      hide BagStep, Models, FreshRun, UsableUpTo, Sized, BagRun, Stored, Capacity, MapReplies;
      FreshKeys(m, ops);
      replies := [];
      ghost var bags, j, cap, count := [Contents()], 0, capacity, size + |ops|;
      BagRunNone(bags, ops);
      var i := 0;
      while i < |ops|
        invariant 0 <= i <= |ops| && (dict == old(dict) || fresh(dict))
        invariant |bags| == i + 1 && bags[0] == old(Contents()) && bags[i] == Contents()
        invariant BagRun(bags, ops[..i], replies)
        invariant Grows(cap, count, j) && size <= old(size) + i
      {
        var r;
        r, j := Perform(ops[i], cap, count, j);
        BagRunSnoc(bags, ops, replies, i, Contents(), r);
        bags := bags + [Contents()];
        replies := replies + [r];
        i := i + 1;
      }
      assert ops[..|ops|] == ops;
      RunRefinesMap(m, bags, ops, replies);
    }
  }

  // One more doubling.
  lemma NextDoubling(hash: Key -> nat, cap: nat, count: nat, j: nat, size: nat)
    requires UsableUpTo(hash, cap, count) && Doubles(cap, size, j) && size <= count
    ensures Usable(hash, Capacity(cap, j))
    ensures !BelowThreshold(size, Capacity(cap, j)) ==>
              && Doubles(cap, size, j + 1) && Usable(hash, Capacity(cap, j + 1))
              && Capacity(cap, j + 1) == 2 * Capacity(cap, j)
  {
    hide Usable;
    assert Doubles(cap, count, j);
    if !BelowThreshold(size, Capacity(cap, j)) { assert Doubles(cap, count, j + 1); }
  }

  // A new table of three slots on which the third insert never returns, although its size is
  // below the threshold and slot 2 is free.
  method HangingRun(hash: Key -> nat, a: Pair, b: Pair, c: Pair) returns (table: LinearProbingHash, stored: bool)
    requires HashFits(hash) && a.key != INVALID && b.key != INVALID && c.key != INVALID
    requires hash(a.key) == 0 && hash(b.key) == 1 && hash(c.key) == WORD - 1
    ensures !stored && table.capacity == table.dict.Length == 3
    ensures BelowThreshold(table.size, 3) && table.dict[2].key == INVALID
  {
    ThirdInsertHangs(hash, a, b, c);
    hide Inserted, Sized, HashFits, Stored, BagStep;
    table := new LinearProbingHash(hash, 3);
    assert table.dict[..] == [EMPTY, EMPTY, EMPTY];
    stored := table.InsertKnown(a, [a, EMPTY, EMPTY], 1);
    stored := table.InsertKnown(b, [a, b, EMPTY], 2);
    stored := table.InsertKnown(c, [a, b, EMPTY], 2);
  }

  // A new table of five slots that five inserts fill.
  method FillingRun(hash: Key -> nat, a: seq<Pair>) returns (table: LinearProbingHash)
    requires HashFits(hash) && Losing(hash, a)
    ensures fresh(table) && fresh(table.dict) && table.Valid()
    ensures table.hash == hash && table.dict[..] == Filled(a, 4) && table.size == 5
  {
    assert |a| == 6;
    hide *;
    FiveInserts(hash, a, 0);
    table := new LinearProbingHash(hash, 5);
    var stored := table.InsertKnown(a[4], Filled(a, 0), 1);
    var n := 0;
    while n < 4
      invariant 0 <= n <= 4 && table.Valid() && fresh(table) && fresh(table.dict)
      invariant table.hash == hash && table.dict[..] == Filled(a, n) && table.size == n + 1
    {
      FiveInserts(hash, a, n);
      stored := table.InsertKnown(a[n], Filled(a, n + 1), n + 2);
      n := n + 1;
    }
  }

  // One more insert doubles it and returns, and then the lookup of a stored key does not find it.
  method LosingRun(hash: Key -> nat, a: seq<Pair>) returns (table: LinearProbingHash, value: Value)
    requires HashFits(hash) && Losing(hash, a)
    ensures table.Valid() && a[4] in table.Contents() && !Seen(hash, table.dict[..], a[4].key) && value == NONE
  {
    SixthInsertLoses(hash, a);
    FiveInserts(hash, a, 0);
    hide Inserted, Sized, Seen, Stored, BagStep, Filled, Spread, HashFits, Losing;
    table := FillingRun(hash, a);
    var stored := table.InsertKnown(a[5], Spread(a, 5)[0 := a[5]], 6);
    value := table.Get(a[4].key);
  }

  // The insert is the one into the table that has been grown.
  lemma GrownOnce(hash: Key -> nat, s: seq<Pair>, size: nat, p: Pair)
    requires Sized(s, size)
    ensures var t := Grown(hash, s, size);
            BelowThreshold(size, |t|) && Inserted(hash, t, size, p) == Inserted(hash, s, size, p)
  {
    GrownSized(hash, s, size);
  }

  // Overwriting a slot that holds a pair.
  lemma Replaced(s: seq<Pair>, size: nat, i: nat, p: Pair)
    requires Sized(s, size) && i < |s| && s[i].key != INVALID
    ensures Sized(s[i := p], size)
    ensures s[i] in Stored(s)
    ensures Stored(s[i := p]) == Stored(s) - multiset{s[i]} + (if p.key == INVALID then multiset{} else multiset{p})
  {
    StoredUpdate(s, i, p);
    StoredMember(s, s[i]);
    hide Stored;
  }

  lemma RehashedStart(hash: Key -> nat, s: seq<Pair>, cap: nat)
    requires cap > 0
    ensures Rehashed(hash, s, cap, 0) == seq(cap, _ => EMPTY)
  {}

  // Fewer pairs have been moved than the larger array has slots.
  lemma RehashedStep(hash: Key -> nat, s: seq<Pair>, cap: nat, i: nat)
    requires i < |s| < cap
    ensures var t, start := Rehashed(hash, s, cap, i), hash(s[i].key) % cap;
            if s[i].key == INVALID then Rehashed(hash, s, cap, i + 1) == t
            else Find(t, start, 0, KeyIs(INVALID)) < cap && Rehashed(hash, s, cap, i + 1) == Moved(t, start, s[i])
  {
    RehashedBag(hash, s, cap, i);
    hide Stored, Moved;
    if s[i].key != INVALID {
      MovedBag(Rehashed(hash, s, cap, i), s[..i], hash(s[i].key) % cap, s[i]);
    }
  }

  lemma SlotStart(start: nat, n: nat)
    requires start < n
    ensures Slot(start, 0, n) == start
  {}

  lemma SlotStep(start: nat, i: nat, n: nat)
    requires n > 0
    ensures (Slot(start, i, n) + 1) % n == Slot(start, i + 1, n)
  {
    WrapStep(start + i, n);
    WrapStep((start + i) % n, n);
    ModUnique((start + i) % n, n, 0, (start + i) % n);
  }

  lemma StripeInRange(slot: nat, cap: nat)
    requires slot < cap
    ensures Stripe(slot) < cap / 256 + 1
  {}

  // The probe stays in its stripe until the slot number is a multiple of the stripe width.
  lemma SameStripe(slot: nat, next: nat)
    requires next == slot + 1 || next == 0
    ensures next % 256 == 0 || Stripe(next) == Stripe(slot)
  {}
}
