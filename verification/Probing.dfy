/** Cyclic scans over a slot sequence and the bag of pairs the slots hold. */
module Probing {
  import opened Pairs
  import opened Bits

  // The first probe step from i on whose slot satisfies q, or |s| when there is none.
  ghost function Find(s: seq<Pair>, start: nat, i: nat, q: Pair -> bool): (r: nat)
    requires i <= |s|
    ensures i <= r <= |s|
    ensures r < |s| ==> q(s[Slot(start, r, |s|)])
    ensures forall k :: i <= k < r ==> !q(s[Slot(start, k, |s|)])
    decreases |s| - i
  {
    if i == |s| || q(s[Slot(start, i, |s|)]) then i else Find(s, start, i + 1, q)
  }

  // The scan covers every slot: it gives up only when no slot qualifies.
  lemma FindCovers(s: seq<Pair>, start: nat, q: Pair -> bool)
    ensures Find(s, start, 0, q) == |s| <==> forall j :: 0 <= j < |s| ==> !q(s[j])
  {
    if Find(s, start, 0, q) == |s| {
      forall j | 0 <= j < |s| ensures !q(s[j]) {
        StepToReaches(start, j, |s|);
        assert !q(s[Slot(start, StepTo(start, j, |s|), |s|)]);
      }
    }
  }

  ghost function KeyIs(k: Key): Pair -> bool {
    (p: Pair) => p.key == k
  }

  ghost function Filter(s: seq<Pair>, q: Pair -> bool): (r: seq<Pair>)
    ensures |r| <= |s|
    ensures forall i :: 0 <= i < |r| ==> q(r[i])
    ensures |r| == |s| ==> r == s
  {
    if s == [] then []
    else
      var n := |s| - 1;
      Filter(s[..n], q) + (if q(s[n]) then [s[n]] else [])
  }

  lemma {:induction false} FilterBag(s: seq<Pair>, q: Pair -> bool, p: Pair)
    ensures multiset(Filter(s, q))[p] == if q(p) then multiset(s)[p] else 0
    decreases |s|
  {
    if s != [] {
      var n := |s| - 1;
      FilterBag(s[..n], q, p);
      assert s == s[..n] + [s[n]];
    }
  }

  // One more element read.
  lemma FilterSnoc(s: seq<Pair>, n: nat, q: Pair -> bool)
    requires n < |s|
    ensures Filter(s[..n + 1], q) == Filter(s[..n], q) + (if q(s[n]) then [s[n]] else [])
  {
    assert s[..n + 1][..n] == s[..n];
  }

  // Occurrences of a pair are slots that hold it.
  lemma BagMember(s: seq<Pair>, p: Pair)
    ensures multiset(s)[p] > 0 <==> exists i :: 0 <= i < |s| && s[i] == p
  {
    assert multiset(s)[p] > 0 <==> p in s;
  }

  // Overwriting one slot exchanges one pair of the bag.
  lemma BagUpdate(s: seq<Pair>, i: nat, x: Pair, p: Pair)
    requires i < |s|
    ensures multiset(s[i := x]) == multiset(s) - multiset{s[i]} + multiset{x}
    ensures multiset(s[i := x])[p]
         == multiset(s)[p] - (if p == s[i] then 1 else 0) + (if p == x then 1 else 0)
  {
    assert multiset(s[i := x]) == multiset(s) - multiset{s[i]} + multiset{x} by {
      assert s == s[..i] + [s[i]] + s[i + 1..];
      assert s[i := x] == s[..i] + [x] + s[i + 1..];
    }
    assert multiset(s)[s[i]] > 0;
  }

  ghost predicate All(s: seq<Pair>, q: Pair -> bool) {
    forall i :: 0 <= i < |s| ==> q(s[i])
  }

  lemma {:induction false} FilterAll(s: seq<Pair>, q: Pair -> bool)
    ensures |Filter(s, q)| == |s| <==> All(s, q)
    decreases |s|
  {
    if s != [] {
      var n := |s| - 1;
      FilterAll(s[..n], q);
      if All(s, q) {
        assert All(s[..n], q);
      }
    }
  }

  // All depends on the bag only.
  lemma AllBag(s: seq<Pair>, r: seq<Pair>, q: Pair -> bool)
    requires multiset(s) == multiset(r) && All(s, q)
    ensures All(r, q)
  {
    forall i | 0 <= i < |r| ensures q(r[i]) {
      BagMember(r, r[i]);
      BagMember(s, r[i]);
    }
  }

  ghost function HasAKey(): Pair -> bool {
    (p: Pair) => p.key != INVALID
  }

  // The pairs held by a slot array whose free slots have the key INVALID.
  ghost function Stored(s: seq<Pair>): multiset<Pair> {
    multiset(Filter(s, HasAKey()))
  }

  ghost function One(p: Pair): multiset<Pair> {
    if p.key == INVALID then multiset{} else multiset{p}
  }

  lemma StoredAt(s: seq<Pair>, p: Pair)
    ensures Stored(s)[p] == if p.key == INVALID then 0 else multiset(s)[p]
  {
    FilterBag(s, HasAKey(), p);
  }

  lemma StoredUpdate(s: seq<Pair>, i: nat, x: Pair)
    requires i < |s|
    ensures One(s[i]) <= Stored(s)
    ensures Stored(s[i := x]) == Stored(s) - One(s[i]) + One(x)
  {
    StoredAt(s, s[i]);
    BagMember(s, s[i]);
    forall p: Pair ensures Stored(s[i := x])[p] == (Stored(s) - One(s[i]) + One(x))[p] {
      StoredAt(s, p);
      StoredAt(s[i := x], p);
      BagUpdate(s, i, x, p);
    }
  }

  // A pair is stored when some slot holds it.
  lemma StoredMember(s: seq<Pair>, p: Pair)
    ensures p in Stored(s) <==> p.key != INVALID && p in s
  {
    StoredAt(s, p);
    BagMember(s, p);
  }

  lemma StoredSnoc(s: seq<Pair>, n: nat)
    requires n < |s|
    ensures Stored(s[..n + 1]) == Stored(s[..n]) + One(s[n])
  {
    FilterSnoc(s, n, HasAKey());
  }

  lemma {:induction false} StoredNone(n: nat)
    ensures Stored(seq(n, _ => EMPTY)) == multiset{}
  {
    var s := seq(n, _ => EMPTY);
    forall p: Pair ensures p !in Stored(s) {
      StoredMember(s, p);
    }
  }

  lemma {:induction false} BagSize(s: seq<Pair>)
    ensures |multiset(s)| == |s|
  {
    if s != [] {
      BagSize(s[1..]);
      assert s == [s[0]] + s[1..];
    }
  }

  // As long as fewer pairs than slots are stored, some slot is free.
  lemma StoredSize(s: seq<Pair>)
    ensures |Stored(s)| <= |s|
    ensures |Stored(s)| < |s| <==> exists i :: 0 <= i < |s| && s[i].key == INVALID
  {
    BagSize(Filter(s, HasAKey()));
    FilterAll(s, HasAKey());
    if forall i :: 0 <= i < |s| ==> s[i].key != INVALID {
      assert All(s, HasAKey());
    }
  }
}
