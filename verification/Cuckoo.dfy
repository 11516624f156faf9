/**
  The displacement walk of the cuckoo table (index/cuckoo_hash.h) on values: how a path is found
  and what moving the pairs along it does.
*/
module Cuckoo {
  import opened Pairs
  import opened Probing

  datatype Hashes = Hashes(first: Key -> nat, second: Key -> nat)

  const CUCKOO_THRESHOLD: nat := 512
  const MAX_GROWS: nat := 128

  function FirstSlot(H: Hashes, k: Key, cap: nat): (i: nat)
    requires cap > 0
    ensures i < cap
  {
    H.first(k) % cap
  }

  function SecondSlot(H: Hashes, k: Key, cap: nat): (i: nat)
    requires cap > 0
    ensures i < cap
  {
    H.second(k) % cap
  }

  // Every key sits in one of its two candidate slots.
  ghost predicate InPlace(H: Hashes, T: seq<Pair>) {
    forall i :: 0 <= i < |T| && T[i].key != INVALID ==> Candidate(H, T[i].key, |T|, i)
  }

  ghost predicate Candidate(H: Hashes, k: Key, cap: nat, i: nat) {
    cap > 0 && (i == FirstSlot(H, k, cap) || i == SecondSlot(H, k, cap))
  }

  // The other candidate slot of the key in slot cur.
  ghost function Other(H: Hashes, T: seq<Pair>, cur: nat): (next: nat)
    requires cur < |T|
    ensures next < |T|
  {
    var f := FirstSlot(H, T[cur].key, |T|);
    if f == cur then SecondSlot(H, T[cur].key, |T|) else f
  }

  // ---------------------------------------------------------------- the walk

  // The slots from cur to the first empty one, if fewer than `rounds` moves reach it.
  ghost function PathFrom(H: Hashes, T: seq<Pair>, cur: nat, rounds: nat): (path: seq<nat>)
    requires cur < |T|
    ensures |path| <= rounds
    ensures forall i :: 0 <= i < |path| ==> path[i] < |T|
    ensures path != [] ==> path[0] == cur
    decreases rounds
  {
    if rounds == 0 then []
    else if T[cur].key == INVALID then [cur]
    else
      var rest := PathFrom(H, T, Other(H, T, cur), rounds - 1);
      if rest == [] then [] else [cur] + rest
  }

  // The slot reached from cur by n moves.
  ghost function Walk(H: Hashes, T: seq<Pair>, cur: nat, n: nat): (r: nat)
    requires cur < |T|
    ensures r < |T|
    decreases n
  {
    if n == 0 then cur else Walk(H, T, Other(H, T, cur), n - 1)
  }

  ghost predicate Distinct(path: seq<nat>) {
    forall i, j :: 0 <= i < j < |path| ==> path[i] != path[j]
  }

  // Only the last slot of the path is empty.
  ghost predicate EndsEmpty(T: seq<Pair>, path: seq<nat>)
    requires forall i :: 0 <= i < |path| ==> path[i] < |T|
  {
    forall i :: 0 <= i < |path| ==> (T[path[i]].key == INVALID <==> i == |path| - 1)
  }

  lemma {:induction false} PathWalks(H: Hashes, T: seq<Pair>, cur: nat, rounds: nat)
    requires cur < |T|
    ensures var path := PathFrom(H, T, cur, rounds);
            && EndsEmpty(T, path)
            && (forall i :: 0 <= i < |path| ==> path[i] == Walk(H, T, cur, i))
            && (forall i :: 0 <= i < |path| - 1 ==> path[i + 1] == Other(H, T, path[i]))
    decreases rounds
  {
    if rounds > 0 && T[cur].key != INVALID {
      PathWalks(H, T, Other(H, T, cur), rounds - 1);
    }
  }

  lemma {:induction false} NoPathAt(H: Hashes, T: seq<Pair>, cur: nat, rounds: nat, n: nat)
    requires cur < |T| && PathFrom(H, T, cur, rounds) == [] && n < rounds
    ensures T[Walk(H, T, cur, n)].key != INVALID
    decreases rounds
  {
    if n > 0 { NoPathAt(H, T, Other(H, T, cur), rounds - 1, n - 1); }
  }

  // There is no path exactly when none of the first `rounds` slots of the walk is empty.
  lemma NoPath(H: Hashes, T: seq<Pair>, cur: nat, rounds: nat)
    requires cur < |T|
    ensures PathFrom(H, T, cur, rounds) == [] <==>
              forall n :: 0 <= n < rounds ==> T[Walk(H, T, cur, n)].key != INVALID
  {
    var path := PathFrom(H, T, cur, rounds);
    if path == [] {
      forall n | 0 <= n < rounds ensures T[Walk(H, T, cur, n)].key != INVALID {
        NoPathAt(H, T, cur, rounds, n);
      }
    } else {
      PathWalks(H, T, cur, rounds);
      var m := |path| - 1;
      assert path[m] == Walk(H, T, cur, m);
    }
  }

  // The rest of the path depends on the slot alone.
  lemma {:induction false} PathBySlot(H: Hashes, T: seq<Pair>, cur: nat, m: nat, n: nat)
    requires cur < |T| && PathFrom(H, T, cur, m) != [] && PathFrom(H, T, cur, n) != []
    ensures PathFrom(H, T, cur, m) == PathFrom(H, T, cur, n)
    decreases m
  {
    if T[cur].key != INVALID {
      PathBySlot(H, T, Other(H, T, cur), m - 1, n - 1);
    }
  }

  lemma {:induction false} PathSuffix(H: Hashes, T: seq<Pair>, cur: nat, rounds: nat, i: nat)
    requires cur < |T| && i < |PathFrom(H, T, cur, rounds)|
    ensures i < rounds && PathFrom(H, T, cur, rounds)[i] < |T|
    ensures PathFrom(H, T, cur, rounds)[i..] == PathFrom(H, T, PathFrom(H, T, cur, rounds)[i], rounds - i)
    decreases rounds
  {
    if i > 0 {
      var next := Other(H, T, cur);
      var path, rest := PathFrom(H, T, cur, rounds), PathFrom(H, T, next, rounds - 1);
      assert path == [cur] + rest;
      hide PathFrom, Other;
      assert path[i] == rest[i - 1] && path[i..] == rest[i - 1..];
      PathSuffix(H, T, next, rounds - 1, i - 1);
    }
  }

  // A walk that ends in an empty slot visits no slot twice.
  lemma PathDistinct(H: Hashes, T: seq<Pair>, cur: nat, rounds: nat)
    requires cur < |T|
    ensures Distinct(PathFrom(H, T, cur, rounds))
  {
    hide PathFrom, Other;
    var path := PathFrom(H, T, cur, rounds);
    forall i, j | 0 <= i < j < |path| ensures path[i] != path[j] {
      PathSuffix(H, T, cur, rounds, i);
      PathSuffix(H, T, cur, rounds, j);
      if path[i] == path[j] {
        PathBySlot(H, T, path[i], rounds - i, rounds - j);
      }
    }
  }

  // ---------------------------------------------------------------- displacement

  // Put p into the first slot of the path, its old pair into the second, and so on.
  ghost function Shift(T: seq<Pair>, path: seq<nat>, p: Pair): (r: seq<Pair>)
    requires forall i :: 0 <= i < |path| ==> path[i] < |T|
    ensures |r| == |T|
    decreases |path|
  {
    if path == [] then T
    else
      assert forall i :: 0 <= i < |path[1..]| ==> path[1..][i] == path[i + 1];
      Shift(T[path[0] := p], path[1..], T[path[0]])
  }

  // On distinct slots every pair moves to the next slot and the rest stays.
  lemma {:induction false} ShiftKept(T: seq<Pair>, path: seq<nat>, p: Pair, x: nat)
    requires (forall i :: 0 <= i < |path| ==> path[i] < |T|) && x < |T| && x !in path
    ensures Shift(T, path, p)[x] == T[x]
    decreases |path|
  {
    if path != [] {
      assert forall i :: 0 <= i < |path[1..]| ==> path[1..][i] == path[i + 1];
      ShiftKept(T[path[0] := p], path[1..], T[path[0]], x);
    }
  }

  lemma {:induction false} ShiftMoved(T: seq<Pair>, path: seq<nat>, p: Pair, i: nat)
    requires (forall i :: 0 <= i < |path| ==> path[i] < |T|) && Distinct(path) && i < |path|
    ensures Shift(T, path, p)[path[i]] == if i == 0 then p else T[path[i - 1]]
    decreases |path|
  {
    var T', rest, o := T[path[0] := p], path[1..], T[path[0]];
    assert forall m :: 0 <= m < |rest| ==> rest[m] == path[m + 1];
    if i == 0 {
      assert path[0] !in rest;
      ShiftKept(T', rest, o, path[0]);
    } else {
      ShiftMoved(T', rest, o, i - 1);
      assert i == 1 || T'[path[i - 1]] == T[path[i - 1]];
    }
  }

  // Displacing along a path adds exactly the new pair.
  lemma {:induction false} ShiftStored(T: seq<Pair>, path: seq<nat>, p: Pair)
    requires (forall i :: 0 <= i < |path| ==> path[i] < |T|) && Distinct(path) && path != []
    requires T[path[|path| - 1]].key == INVALID
    ensures Stored(Shift(T, path, p)) == Stored(T) + One(p)
    decreases |path|
  {
    var T', rest, o := T[path[0] := p], path[1..], T[path[0]];
    StoredUpdate(T, path[0], p);
    assert Stored(T') + One(o) == Stored(T) + One(p);
    if rest != [] {
      assert forall i :: 0 <= i < |rest| ==> rest[i] == path[i + 1];
      assert rest[|rest| - 1] == path[|path| - 1] != path[0];
      ShiftStored(T', rest, o);
    }
  }

  // It keeps every key in a candidate slot.
  lemma ShiftInPlace(H: Hashes, T: seq<Pair>, cur: nat, rounds: nat, p: Pair)
    requires cur < |T| && InPlace(H, T) && Candidate(H, p.key, |T|, cur)
    requires PathFrom(H, T, cur, rounds) != []
    ensures InPlace(H, Shift(T, PathFrom(H, T, cur, rounds), p))
  {
    var path := PathFrom(H, T, cur, rounds);
    PathWalks(H, T, cur, rounds);
    PathDistinct(H, T, cur, rounds);
    var r := Shift(T, path, p);
    forall x | 0 <= x < |r| && r[x].key != INVALID ensures Candidate(H, r[x].key, |r|, x) {
      if x !in path {
        ShiftKept(T, path, p, x);
      } else {
        var i :| 0 <= i < |path| && path[i] == x;
        ShiftMoved(T, path, p, i);
        if i > 0 {
          assert path[i - 1 + 1] == Other(H, T, path[i - 1]);
          assert Candidate(H, T[path[i - 1]].key, |T|, path[i - 1]);
        }
      }
    }
  }

  // ---------------------------------------------------------------- where a pair goes

  // One of the first kCuckooThreshold slots of the walk from cur is free.
  ghost predicate Reaches(H: Hashes, T: seq<Pair>, cur: nat)
    requires cur < |T|
  {
    exists n :: 0 <= n < 512 && T[Walk(H, T, cur, n)].key == INVALID
  }

  // The walk from a candidate slot of k reaches a free slot.
  ghost predicate Fits(H: Hashes, T: seq<Pair>, k: Key)
    requires |T| > 0
  {
    Reaches(H, T, FirstSlot(H, k, |T|)) || Reaches(H, T, SecondSlot(H, k, |T|))
  }

  // The path that a pair of key k is displaced along.  Insert and insert4resize treat paths of the
  // same length differently.
  ghost function Chosen(H: Hashes, T: seq<Pair>, k: Key, resizing: bool): (path: seq<nat>)
    requires |T| > 0
    ensures forall i :: 0 <= i < |path| ==> path[i] < |T|
  {
    var a := PathFrom(H, T, FirstSlot(H, k, |T|), CUCKOO_THRESHOLD);
    var b := PathFrom(H, T, SecondSlot(H, k, |T|), CUCKOO_THRESHOLD);
    if a == [] then b
    else if b == [] then a
    else if |a| == |b| then (if resizing && |a| > 1 then b else a)
    else if |a| < |b| then a else b
  }

  ghost function Settled(H: Hashes, T: seq<Pair>, p: Pair, resizing: bool): (r: seq<Pair>)
    requires |T| > 0
    ensures |r| == |T|
  {
    Shift(T, Chosen(H, T, p.key, resizing), p)
  }

  lemma PathIff(H: Hashes, T: seq<Pair>, cur: nat)
    requires cur < |T|
    ensures PathFrom(H, T, cur, CUCKOO_THRESHOLD) != [] <==> Reaches(H, T, cur)
  {
    hide PathFrom, Walk, Other;
    if n :| 0 <= n < 512 && T[Walk(H, T, cur, n)].key == INVALID {
      assert n < CUCKOO_THRESHOLD;
      if PathFrom(H, T, cur, CUCKOO_THRESHOLD) == [] { NoPathAt(H, T, cur, CUCKOO_THRESHOLD, n); }
    } else {
      NoPath(H, T, cur, CUCKOO_THRESHOLD);
    }
  }

  lemma ChosenIff(H: Hashes, T: seq<Pair>, k: Key, resizing: bool)
    requires |T| > 0
    ensures Chosen(H, T, k, resizing) != [] <==> Fits(H, T, k)
  {
    hide PathFrom, Reaches, FirstSlot, SecondSlot;
    PathIff(H, T, FirstSlot(H, k, |T|));
    PathIff(H, T, SecondSlot(H, k, |T|));
  }

  lemma PathOccupied(H: Hashes, T: seq<Pair>, cur: nat, n: nat)
    requires cur < |T| && n < |PathFrom(H, T, cur, CUCKOO_THRESHOLD)| - 1
    ensures T[Walk(H, T, cur, n)].key != INVALID
  {
    hide PathFrom, Walk, Other;
    PathWalks(H, T, cur, CUCKOO_THRESHOLD);
    assert PathFrom(H, T, cur, CUCKOO_THRESHOLD)[n] == Walk(H, T, cur, n);
  }

  // No walk from a candidate slot reaches a free slot in fewer moves.
  lemma ChosenShortest(H: Hashes, T: seq<Pair>, k: Key, resizing: bool, cur: nat, n: nat)
    requires |T| > 0 && Candidate(H, k, |T|, cur) && n < 512 && T[Walk(H, T, cur, n)].key == INVALID
    ensures 0 < |Chosen(H, T, k, resizing)| <= n + 1
  {
    hide PathFrom, Walk, Other;
    var path := PathFrom(H, T, cur, CUCKOO_THRESHOLD);
    assert Reaches(H, T, cur);
    PathIff(H, T, cur);
    if n < |path| - 1 { PathOccupied(H, T, cur, n); }
  }

  // The path of a free slot is that slot.
  lemma FreePath(H: Hashes, T: seq<Pair>, cur: nat)
    requires cur < |T| && T[cur].key == INVALID
    ensures PathFrom(H, T, cur, CUCKOO_THRESHOLD) == [cur]
  {}

  lemma OccupiedPath(H: Hashes, T: seq<Pair>, cur: nat)
    requires cur < |T| && T[cur].key != INVALID
    ensures |PathFrom(H, T, cur, CUCKOO_THRESHOLD)| != 1
  {
    hide PathFrom;
    PathWalks(H, T, cur, CUCKOO_THRESHOLD);
  }

  // A free candidate slot is taken without displacing any pair, the first one if both are free.
  lemma SettledFree(H: Hashes, T: seq<Pair>, p: Pair, resizing: bool)
    requires |T| > 0
    ensures T[FirstSlot(H, p.key, |T|)].key == INVALID ==>
              Settled(H, T, p, resizing) == T[FirstSlot(H, p.key, |T|) := p]
    ensures T[FirstSlot(H, p.key, |T|)].key != INVALID && T[SecondSlot(H, p.key, |T|)].key == INVALID ==>
              Settled(H, T, p, resizing) == T[SecondSlot(H, p.key, |T|) := p]
  {
    hide PathFrom, FirstSlot, SecondSlot;
    var f, s := FirstSlot(H, p.key, |T|), SecondSlot(H, p.key, |T|);
    if T[f].key == INVALID {
      FreePath(H, T, f);
      assert Settled(H, T, p, resizing) == Shift(T, [f], p);
    } else if T[s].key == INVALID {
      FreePath(H, T, s);
      OccupiedPath(H, T, f);
      assert Settled(H, T, p, resizing) == Shift(T, [s], p);
    }
  }

  // Settling a pair adds exactly that pair if it fits, and changes nothing otherwise.
  lemma SettledBag(H: Hashes, T: seq<Pair>, p: Pair, resizing: bool)
    requires |T| > 0 && InPlace(H, T) && p.key != INVALID
    ensures InPlace(H, Settled(H, T, p, resizing))
    ensures Fits(H, T, p.key) ==> Stored(Settled(H, T, p, resizing)) == Stored(T) + multiset{p}
    ensures !Fits(H, T, p.key) ==> Settled(H, T, p, resizing) == T
  {
    ChosenIff(H, T, p.key, resizing);
    var path := Chosen(H, T, p.key, resizing);
    if path != [] {
      var f, s := FirstSlot(H, p.key, |T|), SecondSlot(H, p.key, |T|);
      var cur := if path == PathFrom(H, T, f, CUCKOO_THRESHOLD) then f else s;
      assert path == PathFrom(H, T, cur, CUCKOO_THRESHOLD);
      assert Candidate(H, p.key, |T|, cur);
      hide PathFrom, Shift, Chosen, Stored, InPlace, Distinct, Fits, Candidate, FirstSlot, SecondSlot, Other;
      PathDistinct(H, T, cur, CUCKOO_THRESHOLD);
      PathWalks(H, T, cur, CUCKOO_THRESHOLD);
      ShiftInPlace(H, T, cur, CUCKOO_THRESHOLD, p);
      ShiftStored(T, path, p);
    }
  }

  // ---------------------------------------------------------------- growing

  // capacity * kResizingFactor, rounded down
  function Grow(cap: nat): (r: nat)
    ensures 5 * r <= 6 * cap < 5 * r + 5
    ensures cap >= 1 ==> r >= 1
  {
    cap * 6 / 5
  }

  function Grown(cap: nat, times: nat): (r: nat)
    ensures cap >= 1 ==> r >= 1
  {
    if times == 0 then cap else Grow(Grown(cap, times - 1))
  }

  datatype Refill = Jammed | Filled(slots: seq<Pair>)

  // A new table of cap slots to which the first n slots of T have been moved in order.
  ghost function Refilled(H: Hashes, T: seq<Pair>, n: nat, cap: nat): (r: Refill)
    requires n <= |T| && cap > 0
    ensures r.Filled? ==> |r.slots| == cap
    decreases n
  {
    if n == 0 then Filled(seq(cap, _ => EMPTY))
    else
      var r := Refilled(H, T, n - 1, cap);
      if r.Jammed? || T[n - 1].key == INVALID then r
      else if Fits(H, r.slots, T[n - 1].key) then Filled(Settled(H, r.slots, T[n - 1], true))
      else Jammed
  }

  // The moved pairs are stored and nothing else is.
  lemma {:induction false} RefilledBag(H: Hashes, T: seq<Pair>, n: nat, cap: nat)
    requires n <= |T| && cap > 0 && Refilled(H, T, n, cap).Filled?
    ensures InPlace(H, Refilled(H, T, n, cap).slots)
    ensures Stored(Refilled(H, T, n, cap).slots) == Stored(T[..n])
    decreases n
  {
    hide Fits, Settled, InPlace, Stored;
    if n == 0 {
      NoneInPlace(H, cap);
      assert T[..0] == [];
      StoredNone(cap);
      StoredNone(0);
      assert seq(0, _ => EMPTY) == T[..0];
    } else {
      RefilledBag(H, T, n - 1, cap);
      StoredSnoc(T, n - 1);
      var r := Refilled(H, T, n - 1, cap);
      if T[n - 1].key != INVALID { SettledBag(H, r.slots, T[n - 1], true); }
    }
  }

  lemma NoneInPlace(H: Hashes, cap: nat)
    ensures InPlace(H, seq(cap, _ => EMPTY))
  {}

  // Slot i of T holds a pair that does not fit into the table made of the slots before it.
  ghost predicate JamsAt(H: Hashes, T: seq<Pair>, cap: nat, i: nat)
    requires i < |T| && cap > 0
  {
    var r := Refilled(H, T, i, cap);
    T[i].key != INVALID && r.Filled? && !Fits(H, r.slots, T[i].key)
  }

  // Moving fails only at such a slot.
  lemma {:induction false} JammedIff(H: Hashes, T: seq<Pair>, n: nat, cap: nat)
    requires n <= |T| && cap > 0
    ensures Refilled(H, T, n, cap).Jammed? <==> exists i :: 0 <= i < n && JamsAt(H, T, cap, i)
    decreases n
  {
    hide Fits, Settled;
    if n > 0 {
      JammedIff(H, T, n - 1, cap);
      if Refilled(H, T, n, cap).Jammed? && Refilled(H, T, n - 1, cap).Filled? {
        assert JamsAt(H, T, cap, n - 1);
      }
    }
  }

  // The stored pairs have pairwise different first slots at capacity cap.
  ghost predicate Spread(H: Hashes, T: seq<Pair>, cap: nat)
    requires cap > 0
  {
    forall i, j :: 0 <= i < j < |T| && T[i].key != INVALID && T[j].key != INVALID ==>
      FirstSlot(H, T[i].key, cap) != FirstSlot(H, T[j].key, cap)
  }

  // Each of the first n pairs of T is in its first slot, and the other slots are free.
  ghost predicate AtFirst(H: Hashes, T: seq<Pair>, n: nat, r: seq<Pair>)
    requires n <= |T| && |r| > 0
  {
    && (forall x :: 0 <= x < |r| && r[x].key != INVALID ==>
         exists i :: 0 <= i < n && T[i] == r[x] && FirstSlot(H, T[i].key, |r|) == x)
    && (forall i :: 0 <= i < n && T[i].key != INVALID ==> r[FirstSlot(H, T[i].key, |r|)] == T[i])
  }

  // Then every pair fits, without any displacement.
  lemma {:induction false} SpreadFills(H: Hashes, T: seq<Pair>, n: nat, cap: nat)
    requires n <= |T| && cap > 0 && Spread(H, T, cap)
    ensures Refilled(H, T, n, cap).Filled? && AtFirst(H, T, n, Refilled(H, T, n, cap).slots)
    decreases n
  {
    hide Fits, Settled, FirstSlot;
    if n > 0 {
      SpreadFills(H, T, n - 1, cap);
      var r, p := Refilled(H, T, n - 1, cap).slots, T[n - 1];
      if p.key != INVALID {
        var f := FirstSlot(H, p.key, cap);
        assert r[f].key == INVALID;
        FreeFits(H, r, p.key);
        SettledFree(H, r, p, true);
        assert Settled(H, r, p, true) == r[f := p];
        AtFirstNext(H, T, n, r);
      }
    }
  }

  lemma FreeFits(H: Hashes, T: seq<Pair>, k: Key)
    requires |T| > 0
    requires T[FirstSlot(H, k, |T|)].key == INVALID || T[SecondSlot(H, k, |T|)].key == INVALID
    ensures Fits(H, T, k)
  {
    hide FirstSlot, SecondSlot;
    assert Walk(H, T, FirstSlot(H, k, |T|), 0) == FirstSlot(H, k, |T|);
    assert Walk(H, T, SecondSlot(H, k, |T|), 0) == SecondSlot(H, k, |T|);
  }

  lemma AtFirstNext(H: Hashes, T: seq<Pair>, n: nat, r: seq<Pair>)
    requires 0 < n <= |T| && |r| > 0 && Spread(H, T, |r|) && AtFirst(H, T, n - 1, r)
    requires T[n - 1].key != INVALID && r[FirstSlot(H, T[n - 1].key, |r|)].key == INVALID
    ensures AtFirst(H, T, n, r[FirstSlot(H, T[n - 1].key, |r|) := T[n - 1]])
  {
    hide FirstSlot;
    var f := FirstSlot(H, T[n - 1].key, |r|);
    var r' := r[f := T[n - 1]];
    forall x | 0 <= x < |r'| && r'[x].key != INVALID
      ensures exists i :: 0 <= i < n && T[i] == r'[x] && FirstSlot(H, T[i].key, |r'|) == x
    {
      if x == f {
        assert T[n - 1] == r'[x] && FirstSlot(H, T[n - 1].key, |r'|) == x;
      } else {
        var i :| 0 <= i < n - 1 && T[i] == r[x] && FirstSlot(H, T[i].key, |r|) == x;
        assert T[i] == r'[x] && FirstSlot(H, T[i].key, |r'|) == x;
      }
    }
  }

  // The growth of resize: the first capacity from attempt g on at which every pair fits.
  ghost function GrownFrom(H: Hashes, T: seq<Pair>, g: nat): (r: Refill)
    requires |T| > 0 && 1 <= g <= MAX_GROWS + 1
    ensures r.Filled? ==> |r.slots| > 0
    decreases MAX_GROWS + 1 - g
  {
    if g > MAX_GROWS then Jammed
    else
      var r := Refilled(H, T, |T|, Grown(|T|, g));
      if r.Filled? then r else GrownFrom(H, T, g + 1)
  }

  // Attempt g is the first one that succeeds.
  ghost predicate FirstFit(H: Hashes, T: seq<Pair>, g: nat)
    requires |T| > 0
  {
    && Refilled(H, T, |T|, Grown(|T|, g)).Filled?
    && forall h :: 1 <= h < g ==> Refilled(H, T, |T|, Grown(|T|, h)).Jammed?
  }

  lemma {:induction false} GrownSkip(H: Hashes, T: seq<Pair>, g: nat, h: nat)
    requires |T| > 0 && 1 <= g <= h <= MAX_GROWS + 1
    requires forall x :: g <= x < h ==> Refilled(H, T, |T|, Grown(|T|, x)).Jammed?
    ensures GrownFrom(H, T, g) == GrownFrom(H, T, h)
    decreases h - g
  {
    hide Refilled, Grown;
    if g < h { GrownSkip(H, T, g + 1, h); }
  }

  // resize fails exactly when the pairs fit at none of 128 (kMaxGrows) capacities; otherwise it
  // ends at the first one at which they fit.
  lemma GrownIff(H: Hashes, T: seq<Pair>)
    requires |T| > 0
    ensures GrownFrom(H, T, 1).Jammed? <==> forall g :: 1 <= g <= 128 ==> Refilled(H, T, |T|, Grown(|T|, g)).Jammed?
    ensures forall g :: 1 <= g <= 128 && FirstFit(H, T, g) ==>
              GrownFrom(H, T, 1) == Refilled(H, T, |T|, Grown(|T|, g))
  {
    hide Refilled, Grown;
    forall g | 1 <= g <= 128 && FirstFit(H, T, g)
      ensures GrownFrom(H, T, 1) == Refilled(H, T, |T|, Grown(|T|, g))
    {
      GrownSkip(H, T, 1, g);
    }
    if g :| 1 <= g <= 128 && Refilled(H, T, |T|, Grown(|T|, g)).Filled? {
      var h := LeastFit(H, T, g);
      GrownSkip(H, T, 1, h);
    } else {
      GrownSkip(H, T, 1, MAX_GROWS + 1);
    }
  }

  lemma {:induction false} LeastFit(H: Hashes, T: seq<Pair>, g: nat) returns (h: nat)
    requires |T| > 0 && 1 <= g && Refilled(H, T, |T|, Grown(|T|, g)).Filled?
    ensures 1 <= h <= g && FirstFit(H, T, h)
  {
    hide Refilled, Grown;
    if x :| 1 <= x < g && Refilled(H, T, |T|, Grown(|T|, x)).Filled? {
      h := LeastFit(H, T, x);
    } else {
      h := g;
    }
  }

  // ---------------------------------------------------------------- inserting

  // How an insert ends within so many passes.
  datatype Ending = Settles(slots: seq<Pair>) | Retries(slots: seq<Pair>) | Exits

  ghost function Inserted(H: Hashes, T: seq<Pair>, p: Pair, passes: nat): (r: Ending)
    requires |T| > 0
    ensures !r.Exits? ==> |r.slots| > 0
    decreases passes
  {
    if passes == 0 then Retries(T)
    else if Fits(H, T, p.key) then Settles(Settled(H, T, p, false))
    else
      match GrownFrom(H, T, 1)
      case Jammed => Exits
      case Filled(T') => Inserted(H, T', p, passes - 1)
  }

  // Tables that a pair of key k does not fit into, each grown from the one before; the last one is
  // left open.
  ghost predicate Growth(H: Hashes, tables: seq<seq<Pair>>, k: Key) {
    && tables != []
    && (forall i :: 0 <= i < |tables| ==> |tables[i]| > 0)
    && forall i :: 0 <= i < |tables| - 1 ==>
         !Fits(H, tables[i], k) && GrownFrom(H, tables[i], 1) == Filled(tables[i + 1])
  }

  // An insert stores its pair in the first table of that sequence that it fits into, exits at the
  // first one that cannot be grown, and otherwise uses up its passes.
  lemma {:induction false} InsertedChain(H: Hashes, T: seq<Pair>, p: Pair, passes: nat)
    returns (tables: seq<seq<Pair>>)
    requires |T| > 0
    ensures Growth(H, tables, p.key) && tables[0] == T
    ensures var r, last := Inserted(H, T, p, passes), tables[|tables| - 1];
            match r
            case Settles(T') => |tables| <= passes && Fits(H, last, p.key) && T' == Settled(H, last, p, false)
            case Exits => |tables| <= passes && !Fits(H, last, p.key) && GrownFrom(H, last, 1).Jammed?
            case Retries(T') => |tables| == passes + 1 && T' == last
    decreases passes
  {
    hide Fits, Settled, GrownFrom;
    if passes == 0 || Fits(H, T, p.key) || GrownFrom(H, T, 1).Jammed? {
      tables := [T];
    } else {
      var rest := InsertedChain(H, GrownFrom(H, T, 1).slots, p, passes - 1);
      tables := [T] + rest;
      forall i | 0 <= i < |tables| - 1
        ensures !Fits(H, tables[i], p.key) && GrownFrom(H, tables[i], 1) == Filled(tables[i + 1])
      {
        if i > 0 { assert tables[i] == rest[i - 1] && tables[i + 1] == rest[i]; }
      }
    }
  }

  // More passes do not change how an insert ends.
  lemma {:induction false} InsertedStable(H: Hashes, T: seq<Pair>, p: Pair, m: nat, n: nat)
    requires |T| > 0 && m <= n && !Inserted(H, T, p, m).Retries?
    ensures Inserted(H, T, p, n) == Inserted(H, T, p, m)
    decreases m
  {
    hide Fits, Settled, GrownFrom;
    if !Fits(H, T, p.key) && GrownFrom(H, T, 1).Filled? {
      InsertedStable(H, GrownFrom(H, T, 1).slots, p, m - 1, n - 1);
    }
  }

  lemma GrownBag(H: Hashes, T: seq<Pair>)
    requires |T| > 0 && GrownFrom(H, T, 1).Filled?
    ensures InPlace(H, GrownFrom(H, T, 1).slots)
    ensures Stored(GrownFrom(H, T, 1).slots) == Stored(T)
  {
    GrownIff(H, T);
    hide Refilled, Grown, GrownFrom, InPlace, Stored;
    var g :| 1 <= g <= 128 && Refilled(H, T, |T|, Grown(|T|, g)).Filled?;
    var h := LeastFit(H, T, g);
    RefilledBag(H, T, |T|, Grown(|T|, h));
    assert T[..|T|] == T;
  }

  // If the stored pairs and the new one have pairwise different first slots at the next capacity,
  // the insert ends after at most one resize.
  lemma SpreadSettles(H: Hashes, T: seq<Pair>, p: Pair)
    requires |T| > 0 && p.key != INVALID && Spread(H, T + [p], Grow(|T|))
    ensures Inserted(H, T, p, 2).Settles?
  {
    if !Fits(H, T, p.key) {
      var cap := Grow(|T|);
      assert Grown(|T|, 1) == cap by { assert Grown(|T|, 0) == |T|; }
      SpreadTake(H, T, p, cap);
      SpreadFills(H, T, |T|, cap);
      var r := Refilled(H, T, |T|, cap).slots;
      assert GrownFrom(H, T, 1) == Filled(r);
      SpreadFree(H, T, p, r);
      FreeFits(H, r, p.key);
      hide Fits, GrownFrom, Refilled;
      assert Inserted(H, T, p, 2) == Inserted(H, r, p, 1);
    }
  }

  lemma SpreadFree(H: Hashes, T: seq<Pair>, p: Pair, r: seq<Pair>)
    requires |r| > 0 && p.key != INVALID && Spread(H, T + [p], |r|) && AtFirst(H, T, |T|, r)
    ensures r[FirstSlot(H, p.key, |r|)].key == INVALID
  {
    hide FirstSlot;
    forall i | 0 <= i < |T| && T[i].key != INVALID
      ensures FirstSlot(H, T[i].key, |r|) != FirstSlot(H, p.key, |r|)
    {
      assert (T + [p])[i] == T[i] && (T + [p])[|T|] == p;
    }
  }

  lemma SpreadTake(H: Hashes, T: seq<Pair>, p: Pair, cap: nat)
    requires cap > 0 && Spread(H, T + [p], cap)
    ensures Spread(H, T, cap)
  {
    hide FirstSlot;
    forall i, j | 0 <= i < j < |T| && T[i].key != INVALID && T[j].key != INVALID
      ensures FirstSlot(H, T[i].key, cap) != FirstSlot(H, T[j].key, cap)
    {
      assert (T + [p])[i] == T[i] && (T + [p])[j] == T[j];
    }
  }
}
