/** The class of index/cuckoo_hash.h as one thread runs it. */
module CuckooTable {
  import opened Pairs
  import opened Probing
  import opened TableSpec
  import opened Cuckoo

  // A path element: a slot and the key that was seen there.
  datatype Hop = Hop(slot: nat, key: Key)

  ghost function Slots(path: seq<Hop>): (r: seq<nat>)
    ensures |r| == |path| && forall i :: 0 <= i < |path| ==> r[i] == path[i].slot
  {
    seq(|path|, i requires 0 <= i < |path| => path[i].slot)
  }

  // How one pass of Insert from RETRY on ends; Exited is the exit(1) of a failed resize.
  datatype Pass = Stored | Resized | Exited

  class CuckooHash {
    const H: Hashes
    var table: array<Pair>
    var capacity: nat
    const pushed: array<Pair>

    ghost predicate Valid()
      reads this, table
    {
      && capacity == table.Length >= 1
      && pushed.Length == 2 && pushed != table
      && InPlace(H, table[..])
    }

    ghost function Contents(): multiset<Pair>
      reads this, table
    {
      Probing.Stored(table[..])
    }

    constructor (hashes: Hashes, cap: nat)
      requires cap >= 1
      ensures Valid() && fresh(table) && fresh(pushed) && H == hashes
      ensures capacity == cap && table[..] == seq(cap, _ => EMPTY) && Contents() == multiset{}
    {
      H := hashes;
      capacity := cap;
      table := new Pair[cap](_ => EMPTY);
      pushed := new Pair[2](_ => EMPTY);
      new;
      assert table[..] == seq(cap, _ => EMPTY);
      StoredNone(cap);
    }

    // The "something terribly wrong" exit is unreachable.
    method FindPath(target: nat) returns (path: seq<Hop>)
      requires Valid() && target < capacity
      ensures Slots(path) == PathFrom(H, table[..], target, CUCKOO_THRESHOLD)
      ensures forall i :: 0 <= i < |path| ==> path[i].slot < capacity && path[i].key == table[path[i].slot].key
    {
      ghost var T := table[..];
      path := [Hop(target, table[target].key)];
      var cur, i := target, 0;
      while i < CUCKOO_THRESHOLD
        invariant 0 <= i <= CUCKOO_THRESHOLD && cur < capacity
        invariant |path| == i + 1 && path[i].slot == cur
        invariant forall m :: 0 <= m < |path| ==> path[m].slot < capacity && path[m].key == table[path[m].slot].key
        invariant forall m :: 0 <= m < i ==> T[path[m].slot].key != INVALID
        invariant forall m :: 0 <= m <= i ==> path[m].slot == Walk(H, T, target, m)
      {
        var key := table[cur].key;
        if key == INVALID { break; }
        assert Candidate(H, key, capacity, cur);
        var fIdx, sIdx := H.first(key) % capacity, H.second(key) % capacity;
        WalkSnoc(H, T, target, i);
        if fIdx == cur {
          path := path + [Hop(sIdx, table[sIdx].key)];
          cur := sIdx;
        } else if sIdx == cur {
          path := path + [Hop(fIdx, table[fIdx].key)];
          cur := fIdx;
        } else {
          assert false;
        }
        i := i + 1;
      }
      if i == CUCKOO_THRESHOLD {
        NoPathByWalk(H, T, target, path);
        path := [];
      } else {
        PathByWalk(H, T, target, Slots(path), CUCKOO_THRESHOLD);
      }
    }

    // Copies backwards along the path, then writes the new pair into its first slot.
    method ExecutePath(path: seq<Hop>, key: Key, value: Value)
      requires path != [] && Distinct(Slots(path)) && forall i :: 0 <= i < |path| ==> path[i].slot < table.Length
      modifies table
      ensures table[..] == Shift(old(table[..]), Slots(path), Pair(key, value))
    {
      hide Shift, Copied, Distinct;
      ghost var T, ps := table[..], Slots(path);
      var i := |path| - 1;
      CopyStart(T, ps);
      while i > 0
        invariant 0 <= i < |path| && Copied(T, ps, i, table[..])
      {
        ghost var r := table[..];
        CopyStep(T, ps, i, r);
        table[path[i].slot] := table[path[i - 1].slot];
        assert table[..] == r[ps[i] := r[ps[i - 1]]];
        i := i - 1;
      }
      ghost var r := table[..];
      CopyEnd(T, ps, r, Pair(key, value));
      table[path[0].slot] := Pair(key, value);
      assert table[..] == r[ps[0] := Pair(key, value)];
    }

    // The same displacement with two buffers; the new pair is in pushed[0].
    method ExecutePushed(path: seq<Hop>)
      requires pushed.Length == 2 && pushed != table
      requires forall i :: 0 <= i < |path| ==> path[i].slot < table.Length
      modifies table, pushed
      ensures table[..] == Shift(old(table[..]), Slots(path), old(pushed[0]))
    {
      ghost var goal := Shift(table[..], Slots(path), pushed[0]);
      var i, j := 0, 1;
      assert Slots(path[0..]) == Slots(path);
      for n := 0 to |path|
        invariant 0 <= i <= 1 && j == (i + 1) % 2
        invariant Shift(table[..], Slots(path[n..]), pushed[i]) == goal
      {
        ghost var T, rest := table[..], Slots(path[n..]);
        assert rest[1..] == Slots(path[n + 1..]);
        pushed[j] := table[path[n].slot];
        table[path[n].slot] := pushed[i];
        assert table[..] == T[rest[0] := pushed[i]];
        i := (i + 1) % 2;
        j := (i + 1) % 2;
      }
    }

    // Writes a pair into a slot.
    method Put(i: nat, key: Key, value: Value)
      requires i < table.Length
      modifies table
      ensures table[..] == old(table[..])[i := Pair(key, value)]
    {
      table[i] := Pair(key, value);
    }

    // Lines 305-320: both candidate slots are occupied.
    method Push(fIdx: nat, sIdx: nat, p: Pair) returns (ok: bool)
      requires Valid() && fIdx == FirstSlot(H, p.key, capacity) && sIdx == SecondSlot(H, p.key, capacity)
      requires table[fIdx].key != INVALID
      modifies table, pushed
      ensures ok <==> Chosen(H, old(table[..]), p.key, true) != []
      ensures table[..] == if ok then Settled(H, old(table[..]), p, true) else old(table[..])
    {
      hide PathFrom, Shift, Chosen, Settled, InPlace, Distinct, FirstSlot, SecondSlot;
      ghost var T := table[..];
      var path1 := FindPath(fIdx);
      var path2 := FindPath(sIdx);
      pushed[0] := p;
      if |path1| == 0 && |path2| == 0 {
        NoPaths(H, T, p.key, true);
        return false;
      }
      var useSecond := |path1| == 0 || (|path2| != 0 && !(|path1| < |path2|));
      ShorterPath(H, T, p, true, Slots(path1), Slots(path2), useSecond);
      ExecutePushed(if useSecond then path2 else path1);
      return true;
    }

    // Stores one pair of the old table; false when neither candidate slot leads to a free one.
    method Insert4resize(key: Key, value: Value) returns (ok: bool)
      requires Valid() && key != INVALID
      modifies table, pushed
      ensures Valid()
      ensures ok <==> Fits(H, old(table[..]), key)
      ensures table[..] == Settled(H, old(table[..]), Pair(key, value), true)
      ensures Contents() == if ok then old(Contents()) + multiset{Pair(key, value)} else old(Contents())
    {
      ghost var T := table[..];
      var p := Pair(key, value);
      var fIdx, sIdx := H.first(key) % capacity, H.second(key) % capacity;
      assert fIdx == FirstSlot(H, key, |T|) && sIdx == SecondSlot(H, key, |T|);
      ChosenIff(H, T, key, true);
      SettledBag(H, T, p, true);
      hide Chosen, Settled, InPlace, Fits, FirstSlot, SecondSlot, Probing.Stored;
      ok := true;
      if table[fIdx].key == INVALID {
        SettledFree(H, T, p, true);
        FreeFits(H, T, key);
        Put(fIdx, key, value);
      } else if table[sIdx].key == INVALID {
        SettledFree(H, T, p, true);
        FreeFits(H, T, key);
        Put(sIdx, key, value);
      } else {
        ok := Push(fIdx, sIdx, p);
      }
    }

    // Grows and rehashes until every pair fits, at most 128 (kMaxGrows) times.
    method Resize() returns (success: bool, grows: nat)
      requires Valid()
      modifies this`table, this`capacity, pushed
      ensures 1 <= grows <= 128 && Valid() && fresh(table) && capacity == Grown(old(capacity), grows)
      ensures success ==> FirstFit(H, old(table[..]), grows) && GrownFrom(H, old(table[..]), 1) == Filled(table[..])
      ensures success ==> Contents() == old(Contents())
      ensures !success ==> grows == 128 && GrownFrom(H, old(table[..]), 1).Jammed?
    {
      hide Refilled, GrownFrom, InPlace, Probing.Stored;
      var oldTab, oldCap := table, capacity;
      ghost var T := oldTab[..];
      success, grows := false, 0;
      while !success && grows < MAX_GROWS
        invariant 0 <= grows <= MAX_GROWS
        invariant Valid() && capacity == Grown(oldCap, grows)
        invariant (grows == 0 ==> table == oldTab && !success) && (grows > 0 ==> fresh(table))
        invariant oldTab[..] == T
        invariant forall g :: 1 <= g <= grows && !(success && g == grows) ==> Refilled(H, T, |T|, Grown(|T|, g)).Jammed?
        invariant success ==> grows > 0 && Refilled(H, T, |T|, Grown(|T|, grows)) == Filled(table[..])
        invariant success ==> Contents() == Probing.Stored(T)
        decreases MAX_GROWS - grows
      {
        success := Attempt(oldTab);
        grows := grows + 1;
      }
      GrownIff(H, T);
    }

    // One round of the loop of Resize: a larger table receives the pairs in slot order.
    method Attempt(oldTab: array<Pair>) returns (success: bool)
      requires Valid() && oldTab != pushed
      modifies this`table, this`capacity, pushed
      ensures Valid() && fresh(table)
      ensures 5 * capacity <= 6 * old(capacity) < 5 * capacity + 5
      ensures success ==> Refilled(H, oldTab[..], oldTab.Length, capacity) == Filled(table[..])
      ensures success ==> Contents() == Probing.Stored(oldTab[..])
      ensures !success ==> Refilled(H, oldTab[..], oldTab.Length, capacity).Jammed?
      ensures !success ==> exists i :: 0 <= i < oldTab.Length && Blocked(oldTab[..], i)
      ensures Spread(H, oldTab[..], capacity) ==> success
    {
      hide Fits, Settled, InPlace, Spread, Probing.Stored;
      capacity := Grow(capacity);
      table := new Pair[capacity](_ => EMPTY);
      assert table[..] == seq(capacity, _ => EMPTY);
      NoneInPlace(H, capacity);
      ghost var T := oldTab[..];
      success := true;
      var i := 0;
      while i < oldTab.Length && success
        invariant 0 <= i <= oldTab.Length && oldTab[..] == T
        invariant Valid() && fresh(table) && capacity == Grow(old(capacity))
        invariant success ==> Refilled(H, T, i, capacity) == Filled(table[..])
        invariant !success ==> i > 0 && Refilled(H, T, i, capacity).Jammed? && JamsAt(H, T, capacity, i - 1)
        invariant !success ==> Refilled(H, T, i - 1, capacity) == Filled(table[..])
      {
        if oldTab[i].key != INVALID {
          ghost var B := table[..];
          success := Insert4resize(oldTab[i].key, oldTab[i].value);
          if !success { SettledBag(H, B, T[i], true); }
        }
        i := i + 1;
      }
      if success {
        RefilledBag(H, T, |T|, capacity);
        assert T[..|T|] == T;
      } else {
        RefilledBag(H, T, i - 1, capacity);
        JammedIff(H, T, |T|, capacity);
        assert Blocked(T, i - 1);
      }
      if Spread(H, T, capacity) { SpreadFills(H, T, |T|, capacity); }
    }

    // The table holds exactly the pairs of the slots of T before slot i, and the pair in slot i does
    // not fit into it.
    ghost predicate Blocked(T: seq<Pair>, i: nat)
      requires i < |T| && table.Length > 0
      reads this, table
    {
      && T[i].key != INVALID
      && Contents() == Probing.Stored(T[..i])
      && !Fits(H, table[..], T[i].key)
    }

    // Lines 189-237: both candidate slots are occupied.
    method Displace(fIdx: nat, sIdx: nat, key: Key, value: Value) returns (ok: bool)
      requires Valid() && fIdx == FirstSlot(H, key, capacity) && sIdx == SecondSlot(H, key, capacity)
      requires table[fIdx].key != INVALID
      modifies table
      ensures ok <==> Chosen(H, old(table[..]), key, false) != []
      ensures table[..] == if ok then Settled(H, old(table[..]), Pair(key, value), false) else old(table[..])
    {
      hide PathFrom, Shift, Chosen, Settled, InPlace, Distinct, FirstSlot, SecondSlot;
      ghost var T, p := table[..], Pair(key, value);
      var path1 := FindPath(fIdx);
      var path2 := FindPath(sIdx);
      if |path1| == 0 && |path2| == 0 {
        NoPaths(H, T, key, false);
        return false;
      }
      PathStart(H, T, fIdx);
      var useSecond :=
        || |path1| == 0
        || (|path2| != 0 && |path2| < |path1|)
        || (|path2| != 0 && path1[0].key == INVALID);
      var path := if useSecond then path2 else path1;
      ShorterPath(H, T, p, false, Slots(path1), Slots(path2), useSecond);
      // Nothing has changed since the path was found, so no retry follows.
      assert forall i :: 0 <= i < |path| ==> path[i].key == table[path[i].slot].key;
      ExecutePath(path, key, value);
      return true;
    }

    // One pass of Insert from RETRY on.
    method InsertPass(key: Key, value: Value) returns (r: Pass)
      requires Valid() && key != INVALID
      modifies this`table, this`capacity, table, pushed
      ensures Valid() && (table == old(table) || fresh(table))
      ensures r.Stored? <==> Fits(H, old(table[..]), key)
      ensures r.Stored? ==> table[..] == Settled(H, old(table[..]), Pair(key, value), false)
      ensures r.Stored? ==> Contents() == old(Contents()) + multiset{Pair(key, value)}
      ensures r.Resized? ==> GrownFrom(H, old(table[..]), 1) == Filled(table[..]) && Contents() == old(Contents())
      ensures r.Exited? ==> GrownFrom(H, old(table[..]), 1).Jammed?
    {
      ghost var T := table[..];
      var p := Pair(key, value);
      var fIdx, sIdx := H.first(key) % capacity, H.second(key) % capacity;
      assert fIdx == FirstSlot(H, key, |T|) && sIdx == SecondSlot(H, key, |T|);
      ChosenIff(H, T, key, false);
      SettledBag(H, T, p, false);
      hide Chosen, Settled, InPlace, Fits, FirstSlot, SecondSlot, GrownFrom, FirstFit, Grown, Probing.Stored;
      if table[fIdx].key == INVALID {
        SettledFree(H, T, p, false);
        FreeFits(H, T, key);
        Put(fIdx, key, value);
        return Pass.Stored;
      }
      if table[sIdx].key == INVALID {
        SettledFree(H, T, p, false);
        FreeFits(H, T, key);
        Put(sIdx, key, value);
        return Pass.Stored;
      }
      var ok := Displace(fIdx, sIdx, key, value);
      if ok { return Pass.Stored; }
      var success, grows := Resize();
      return if success then Resized else Exited;
    }

    // At most `passes` passes.  An insert may go on for ever: three keys with equal hash values
    // never fit, whatever the capacity.
    method Insert(key: Key, value: Value, passes: nat) returns (r: Pass)
      requires Valid() && key != INVALID
      modifies this`table, this`capacity, table, pushed
      ensures Valid() && (table == old(table) || fresh(table))
      ensures r.Stored? <==> Inserted(H, old(table[..]), Pair(key, value), passes).Settles?
      ensures r.Exited? <==> Inserted(H, old(table[..]), Pair(key, value), passes).Exits?
      ensures !r.Exited? ==> table[..] == Inserted(H, old(table[..]), Pair(key, value), passes).slots
      ensures r.Stored? ==> BagStep(old(Contents()), Op.Insert(key, value), Contents(), Unit)
      ensures r.Resized? ==> Contents() == old(Contents())
      ensures passes > 0 && Fits(H, old(table[..]), key) ==> r.Stored?
      ensures Crowded(H, old(Contents()), key) ==> !r.Stored?
    {
      hide Fits, Settled, GrownFrom, InPlace, Crowded, Probing.Stored;
      ghost var c, T, p := Contents(), table[..], Pair(key, value);
      r := Resized;
      var n := 0;
      while n < passes && r.Resized?
        invariant 0 <= n <= passes && Valid() && (table == old(table) || fresh(table))
        invariant r.Resized? ==> Contents() == c
        invariant r.Resized? ==> Inserted(H, table[..], p, passes - n) == Inserted(H, T, p, passes)
        invariant r.Stored? ==> Contents() == c + multiset{p} && Inserted(H, T, p, passes) == Settles(table[..])
        invariant r.Exited? ==> Inserted(H, T, p, passes).Exits?
        decreases passes - n
      {
        r := InsertPass(key, value);
        n := n + 1;
      }
      if r.Stored? { NotCrowded(H, table[..], c, p); }
    }

    // returned is false for an insert that has not returned after `passes` passes, or has exited.
    method Apply(op: Op, passes: nat) returns (r: Reply, returned: bool)
      requires Valid() && op.k != INVALID
      modifies this`table, this`capacity, table, pushed
      ensures Valid() && (table == old(table) || fresh(table))
      ensures returned ==> BagStep(old(Contents()), op, Contents(), r)
      ensures !returned <==> op.Insert? && !Inserted(H, old(table[..]), Pair(op.k, op.v), passes).Settles?
    {
      hide Inserted, InPlace, Probing.Stored;
      returned := true;
      match op
      case Insert(k, v) =>
        var pass := Insert(k, v, passes);
        r, returned := Unit, pass.Stored?;
      case Update(k, v) =>
        var found := Update(k, v);
        r := Flag(found);
      case Delete(k) =>
        var found := Delete(k);
        r := Flag(found);
      case Get(k) =>
        var value := Get(k);
        r := Val(value);
    }

    // From a table that holds the map m, a run with fresh inserts answers like the map as long as
    // its operations return.  `last` are the slots before the one that did not: an insert that does
    // not settle.
    method Run(ops: seq<Op>, passes: nat, ghost m: map<Key, Value>) returns (replies: seq<Reply>, ghost last: seq<Pair>)
      requires Valid() && Models(Contents(), m) && FreshRun(m, ops)
      modifies this`table, this`capacity, table, pushed
      ensures Valid() && |replies| <= |ops|
      ensures replies == MapReplies(m, ops[..|replies|])
      ensures |replies| < |ops| ==> Stuck(ops[|replies|], passes, last)
      ensures |replies| < |ops| ==> Models(Probing.Stored(last), MapAfter(m, ops[..|replies|]))
      ensures |replies| == |ops| ==> Models(Contents(), MapAfter(m, ops))
    {
      hide BagStep, Models, FreshRun, BagRun, MapReplies, Inserted, Probing.Stored;
      FreshKeys(m, ops);
      replies := [];
      ghost var bags := [Contents()];
      BagRunNone(bags, ops);
      var i := 0;
      last := table[..];
      while i < |ops|
        invariant 0 <= i <= |ops| && Valid() && (table == old(table) || fresh(table))
        invariant |replies| == i && |bags| == i + 1 && bags[0] == old(Contents()) && bags[i] == Contents()
        invariant BagRun(bags, ops[..i], replies)
      {
        last := table[..];
        var r, returned := Apply(ops[i], passes);
        if !returned { break; }
        BagRunSnoc(bags, ops, replies, i, Contents(), r);
        bags := bags + [Contents()];
        replies := replies + [r];
        i := i + 1;
      }
      FreshPrefix(m, ops, i);
      assert ops[..|ops|] == ops;
      RunRefinesMap(m, bags, ops[..i], replies);
    }

    // op is an insert whose passes run out, or that exits.
    ghost predicate Stuck(op: Op, passes: nat, T: seq<Pair>) {
      op.Insert? && |T| > 0 && !Inserted(H, T, Pair(op.k, op.v), passes).Settles?
    }

    // Both candidate slots are looked at, so a stored key is found.
    method FindSlot(key: Key) returns (found: bool, i: nat)
      requires Valid() && key != INVALID
      ensures found <==> HasKey(Contents(), key)
      ensures found ==> i < capacity && table[i].key == key && table[i] in Contents()
    {
      ghost var T := table[..];
      var fIdx, sIdx := H.first(key) % capacity, H.second(key) % capacity;
      found := true;
      if table[fIdx].key == key {
        i := fIdx;
      } else if table[sIdx].key == key {
        i := sIdx;
      } else {
        found, i := false, 0;
        KeyAtCandidate(H, T, key);
      }
      if found {
        StoredMember(T, T[i]);
        assert T[i] == Pair(key, T[i].value);
      }
    }

    method Update(key: Key, value: Value) returns (found: bool)
      requires Valid() && key != INVALID
      modifies table
      ensures Valid()
      ensures BagStep(old(Contents()), Op.Update(key, value), Contents(), Flag(found))
    {
      var i;
      found, i := FindSlot(key);
      if found {
        ghost var T := table[..];
        StoredUpdate(T, i, Pair(key, value));
        assert T[i] == Pair(key, T[i].value);
        table[i] := Pair(key, value);
        assert table[..] == T[i := Pair(key, value)];
      }
    }

    method Delete(key: Key) returns (found: bool)
      requires Valid() && key != INVALID
      modifies table
      ensures Valid()
      ensures BagStep(old(Contents()), Op.Delete(key), Contents(), Flag(found))
    {
      var i;
      found, i := FindSlot(key);
      if found {
        ghost var T := table[..];
        var p := Pair(INVALID, table[i].value);
        StoredUpdate(T, i, p);
        assert T[i] == Pair(key, T[i].value);
        table[i] := p;
        assert table[..] == T[i := p];
      }
    }

    method Get(key: Key) returns (value: Value)
      requires Valid() && key != INVALID
      ensures BagStep(Contents(), Op.Get(key), Contents(), Val(value))
    {
      var found, i := FindSlot(key);
      value := if found then table[i].value else NONE;
      assert found ==> table[i] == Pair(key, value);
    }
  }

  lemma KeyAtCandidate(H: Hashes, T: seq<Pair>, k: Key)
    requires InPlace(H, T) && |T| > 0
    ensures HasKey(Probing.Stored(T), k) ==> T[FirstSlot(H, k, |T|)].key == k || T[SecondSlot(H, k, |T|)].key == k
  {
    if HasKey(Probing.Stored(T), k) {
      var v :| Pair(k, v) in Probing.Stored(T);
      StoredMember(T, Pair(k, v));
      var x :| 0 <= x < |T| && T[x] == Pair(k, v);
      assert Candidate(H, T[x].key, |T|, x);
    }
  }

  // Two other keys with both hash values of k are stored.
  ghost predicate Crowded(H: Hashes, c: multiset<Pair>, k: Key) {
    exists a: Key, b: Key :: Twins(H, a, k) && Twins(H, b, k) && a != b && HasKey(c, a) && HasKey(c, b)
  }

  ghost predicate Twins(H: Hashes, a: Key, k: Key) {
    a != k && H.first(a) == H.first(k) && H.second(a) == H.second(k)
  }

  // The insert of a third such key never stores it, whatever the capacity: its passes exit or
  // go on for ever.
  lemma NotCrowded(H: Hashes, T: seq<Pair>, c: multiset<Pair>, p: Pair)
    requires InPlace(H, T) && |T| > 0 && Probing.Stored(T) == c + multiset{p}
    ensures !Crowded(H, c, p.key)
  {
    if Crowded(H, c, p.key) {
      var a: Key, b: Key :| Twins(H, a, p.key) && Twins(H, b, p.key) && a != b && HasKey(c, a) && HasKey(c, b);
      assert Pair(p.key, p.value) in c + multiset{p};
      ThreeKeysDoNotFit(H, T, a, b, p.key);
    }
  }

  // Two candidate slots hold two keys.
  lemma ThreeKeysDoNotFit(H: Hashes, T: seq<Pair>, a: Key, b: Key, c: Key)
    requires InPlace(H, T) && |T| > 0 && a != b && a != c && b != c
    requires H.first(a) == H.first(b) == H.first(c) && H.second(a) == H.second(b) == H.second(c)
    ensures !(HasKey(Probing.Stored(T), a) && HasKey(Probing.Stored(T), b) && HasKey(Probing.Stored(T), c))
  {
    KeyAtCandidate(H, T, a);
    KeyAtCandidate(H, T, b);
    KeyAtCandidate(H, T, c);
  }

  lemma PathStart(H: Hashes, T: seq<Pair>, cur: nat)
    requires cur < |T|
    ensures PathFrom(H, T, cur, CUCKOO_THRESHOLD) != [] ==> PathFrom(H, T, cur, CUCKOO_THRESHOLD)[0] == cur
  {}

  // Which of the two paths from occupied candidate slots is taken.
  lemma ShorterPath(H: Hashes, T: seq<Pair>, p: Pair, resizing: bool, a: seq<nat>, b: seq<nat>, second: bool)
    requires |T| > 0 && (a != [] || b != [])
    requires a == PathFrom(H, T, FirstSlot(H, p.key, |T|), CUCKOO_THRESHOLD)
    requires b == PathFrom(H, T, SecondSlot(H, p.key, |T|), CUCKOO_THRESHOLD)
    requires T[FirstSlot(H, p.key, |T|)].key != INVALID
    requires second <==> a == [] || (b != [] && if resizing then |b| <= |a| else |b| < |a|)
    ensures var path := if second then b else a;
            path != [] && Distinct(path) && Settled(H, T, p, resizing) == Shift(T, path, p)
    ensures Chosen(H, T, p.key, resizing) != []
  {
    hide PathFrom, FirstSlot, SecondSlot, Distinct, Shift;
    PathDistinct(H, T, FirstSlot(H, p.key, |T|), CUCKOO_THRESHOLD);
    PathDistinct(H, T, SecondSlot(H, p.key, |T|), CUCKOO_THRESHOLD);
    OccupiedPath(H, T, FirstSlot(H, p.key, |T|));
  }

  lemma NoPaths(H: Hashes, T: seq<Pair>, k: Key, resizing: bool)
    requires |T| > 0
    requires PathFrom(H, T, FirstSlot(H, k, |T|), CUCKOO_THRESHOLD) == []
    requires PathFrom(H, T, SecondSlot(H, k, |T|), CUCKOO_THRESHOLD) == []
    ensures Chosen(H, T, k, resizing) == []
  {}

  // The pairs of the slots before the last have moved on by one slot, from slot i of the path on.
  ghost predicate Copied(T: seq<Pair>, ps: seq<nat>, i: nat, r: seq<Pair>)
    requires forall m :: 0 <= m < |ps| ==> ps[m] < |T|
  {
    && |r| == |T| && i < |ps|
    && (forall m :: i < m < |ps| ==> r[ps[m]] == T[ps[m - 1]])
    && (forall x :: 0 <= x < |T| && x !in ps[i + 1..] ==> r[x] == T[x])
  }

  lemma CopyStart(T: seq<Pair>, ps: seq<nat>)
    requires ps != [] && forall m :: 0 <= m < |ps| ==> ps[m] < |T|
    ensures Copied(T, ps, |ps| - 1, T)
  {}

  lemma CopyStep(T: seq<Pair>, ps: seq<nat>, i: nat, r: seq<Pair>)
    requires (forall m :: 0 <= m < |ps| ==> ps[m] < |T|) && Distinct(ps) && 0 < i && Copied(T, ps, i, r)
    ensures i < |ps| && |r| == |T| && Copied(T, ps, i - 1, r[ps[i] := r[ps[i - 1]]])
  {
    assert ps[i..] == [ps[i]] + ps[i + 1..];
    assert r[ps[i - 1]] == T[ps[i - 1]];
  }

  lemma CopyEnd(T: seq<Pair>, ps: seq<nat>, r: seq<Pair>, p: Pair)
    requires (forall m :: 0 <= m < |ps| ==> ps[m] < |T|) && Distinct(ps) && ps != [] && Copied(T, ps, 0, r)
    ensures |r| == |T| && r[ps[0] := p] == Shift(T, ps, p)
  {
    assert ps == [ps[0]] + ps[1..];
    var r' := r[ps[0] := p];
    forall x | 0 <= x < |T| ensures r'[x] == Shift(T, ps, p)[x] {
      if x in ps {
        var m :| 0 <= m < |ps| && ps[m] == x;
        ShiftMoved(T, ps, p, m);
      } else {
        ShiftKept(T, ps, p, x);
      }
    }
  }

  lemma {:induction false} WalkSnoc(H: Hashes, T: seq<Pair>, cur: nat, n: nat)
    requires cur < |T|
    ensures Walk(H, T, cur, n + 1) == Other(H, T, Walk(H, T, cur, n))
    decreases n
  {
    if n > 0 { WalkSnoc(H, T, Other(H, T, cur), n - 1); }
  }

  lemma NoPathByWalk(H: Hashes, T: seq<Pair>, cur: nat, path: seq<Hop>)
    requires cur < |T| && |path| > CUCKOO_THRESHOLD
    requires forall m :: 0 <= m < CUCKOO_THRESHOLD ==>
               path[m].slot == Walk(H, T, cur, m) && T[path[m].slot].key != INVALID
    ensures PathFrom(H, T, cur, CUCKOO_THRESHOLD) == []
  {
    NoPath(H, T, cur, CUCKOO_THRESHOLD);
    forall n | 0 <= n < CUCKOO_THRESHOLD ensures T[Walk(H, T, cur, n)].key != INVALID {
      assert path[n].slot == Walk(H, T, cur, n);
    }
  }

  // The slots of the walk up to the first empty one are the path.
  lemma {:induction false} PathByWalk(H: Hashes, T: seq<Pair>, cur: nat, path: seq<nat>, rounds: nat)
    requires cur < |T| && 0 < |path| <= rounds
    requires forall m :: 0 <= m < |path| ==> path[m] < |T|
    requires forall m :: 0 <= m < |path| ==> path[m] == Walk(H, T, cur, m)
    requires forall m :: 0 <= m < |path| - 1 ==> T[path[m]].key != INVALID
    requires T[path[|path| - 1]].key == INVALID
    ensures path == PathFrom(H, T, cur, rounds)
    decreases rounds
  {
    assert path[0] == Walk(H, T, cur, 0) == cur;
    if |path| > 1 {
      var rest, next := path[1..], Other(H, T, cur);
      forall m | 0 <= m < |rest| ensures rest[m] == Walk(H, T, next, m) {
        assert path[m + 1] == Walk(H, T, cur, m + 1);
      }
      assert rest[|rest| - 1] == path[|path| - 1];
      PathByWalk(H, T, next, rest, rounds - 1);
      assert path == [cur] + rest;
    } else {
      assert path == [cur];
    }
  }
}
