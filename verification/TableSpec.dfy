/**
  What the common table interface (index/interface.h) promises.  A table is seen as the bag of
  its live pairs; a table whose inserts are fresh is seen as a finite map.
*/
module TableSpec {
  import opened Pairs

  datatype Op =
    | Insert(k: Key, v: Value)
    | Update(k: Key, v: Value)
    | Delete(k: Key)
    | Get(k: Key)

  datatype Reply = Unit | Flag(found: bool) | Val(value: Value)

  type Bag = multiset<Pair>

  ghost predicate HasKey(c: Bag, k: Key) {
    exists v :: Pair(k, v) in c
  }

  // One operation on the bag.  With duplicate keys it says that one of the pairs is affected.
  ghost predicate BagStep(c: Bag, op: Op, c': Bag, r: Reply) {
    match op
    case Insert(k, v) =>
      r == Unit && c' == c + multiset{Pair(k, v)}
    case Update(k, v) =>
      if HasKey(c, k) then
        r == Flag(true) && exists w :: Pair(k, w) in c && c' == c - multiset{Pair(k, w)} + multiset{Pair(k, v)}
      else
        r == Flag(false) && c' == c
    case Delete(k) =>
      if HasKey(c, k) then
        r == Flag(true) && exists w :: Pair(k, w) in c && c' == c - multiset{Pair(k, w)}
      else
        r == Flag(false) && c' == c
    case Get(k) =>
      c' == c && r.Val? && if HasKey(c, k) then Pair(k, r.value) in c else r.value == NONE
  }

  // A lookup that fails yields the value 0, which is what NONE is.
  function MapStep(m: map<Key, Value>, op: Op): (map<Key, Value>, Reply) {
    match op
    case Insert(k, v) => (m[k := v], Unit)
    case Update(k, v) => if k in m then (m[k := v], Flag(true)) else (m, Flag(false))
    case Delete(k) => (m - {k}, Flag(k in m))
    case Get(k) => (m, Val(if k in m then m[k] else 0))
  }

  // The bag holds every binding of the map exactly once and nothing else.
  ghost predicate Models(c: Bag, m: map<Key, Value>) {
    forall p: Pair :: c[p] == if p.key in m && m[p.key] == p.value then 1 else 0
  }

  // Insert never looks for an existing key, so only fresh keys may be inserted.
  predicate Fresh(m: map<Key, Value>, op: Op) {
    op.k != INVALID && (op.Insert? ==> op.k !in m)
  }

  lemma ModelsHasKey(c: Bag, m: map<Key, Value>, k: Key)
    requires Models(c, m)
    ensures HasKey(c, k) <==> k in m
    ensures forall v :: Pair(k, v) in c <==> k in m && m[k] == v
  {
    if k in m { assert c[Pair(k, m[k])] == 1; }
    forall v ensures Pair(k, v) in c <==> k in m && m[k] == v {
      assert Pair(k, v) in c <==> c[Pair(k, v)] > 0;
    }
  }

  lemma StepRefinesMap(c: Bag, m: map<Key, Value>, op: Op, c': Bag, r: Reply)
    requires Models(c, m) && BagStep(c, op, c', r) && Fresh(m, op)
    ensures Models(c', MapStep(m, op).0) && r == MapStep(m, op).1
  {
    ModelsHasKey(c, m, op.k);
  }

  // The replies of a finite map to a run of operations, and the map after it.
  function MapReplies(m: map<Key, Value>, ops: seq<Op>): (r: seq<Reply>)
    ensures |r| == |ops|
    decreases |ops|
  {
    if ops == [] then [] else [MapStep(m, ops[0]).1] + MapReplies(MapStep(m, ops[0]).0, ops[1..])
  }

  function MapAfter(m: map<Key, Value>, ops: seq<Op>): map<Key, Value>
    decreases |ops|
  {
    if ops == [] then m else MapAfter(MapStep(m, ops[0]).0, ops[1..])
  }

  predicate FreshRun(m: map<Key, Value>, ops: seq<Op>)
    decreases |ops|
  {
    ops == [] || (Fresh(m, ops[0]) && FreshRun(MapStep(m, ops[0]).0, ops[1..]))
  }

  // A run of a table: bags[i] are the contents before operation i.
  ghost predicate BagRun(bags: seq<Bag>, ops: seq<Op>, replies: seq<Reply>) {
    && |bags| == |ops| + 1
    && |replies| == |ops|
    && forall i :: 0 <= i < |ops| ==> BagStep(bags[i], ops[i], bags[i + 1], replies[i])
  }

  // Every run of bag steps with fresh inserts answers like a finite map and ends in its image.
  lemma {:induction false} RunRefinesMap(m: map<Key, Value>, bags: seq<Bag>, ops: seq<Op>, replies: seq<Reply>)
    requires BagRun(bags, ops, replies) && Models(bags[0], m) && FreshRun(m, ops)
    ensures replies == MapReplies(m, ops)
    ensures Models(bags[|ops|], MapAfter(m, ops))
    decreases |ops|
  {
    if ops != [] {
      assert BagStep(bags[0], ops[0], bags[1], replies[0]);
      StepRefinesMap(bags[0], m, ops[0], bags[1], replies[0]);
      forall i | 0 <= i < |ops[1..]|
        ensures BagStep(bags[1..][i], ops[1..][i], bags[1..][i + 1], replies[1..][i])
      {
        assert BagStep(bags[i + 1], ops[i + 1], bags[i + 2], replies[i + 1]);
      }
      RunRefinesMap(MapStep(m, ops[0]).0, bags[1..], ops[1..], replies[1..]);
      assert replies == [replies[0]] + replies[1..];
    }
  }

  lemma BagRunNone(bags: seq<Bag>, ops: seq<Op>)
    requires |bags| == 1
    ensures BagRun(bags, ops[..0], [])
  {}

  lemma BagRunSnoc(bags: seq<Bag>, ops: seq<Op>, replies: seq<Reply>, n: nat, c: Bag, r: Reply)
    requires n < |ops| && BagRun(bags, ops[..n], replies) && BagStep(bags[n], ops[n], c, r)
    ensures BagRun(bags + [c], ops[..n + 1], replies + [r])
  {
    hide BagStep;
    forall i | 0 <= i < n + 1
      ensures BagStep((bags + [c])[i], ops[..n + 1][i], (bags + [c])[i + 1], (replies + [r])[i])
    {
      if i < n { assert BagStep(bags[i], ops[..n][i], bags[i + 1], replies[i]); }
    }
  }

  lemma {:induction false} FreshKeys(m: map<Key, Value>, ops: seq<Op>)
    requires FreshRun(m, ops)
    ensures forall i :: 0 <= i < |ops| ==> ops[i].k != INVALID
    decreases |ops|
  {
    if ops != [] {
      FreshKeys(MapStep(m, ops[0]).0, ops[1..]);
      assert forall i :: 0 < i < |ops| ==> ops[i] == ops[1..][i - 1];
    }
  }

  lemma {:induction false} FreshPrefix(m: map<Key, Value>, ops: seq<Op>, n: nat)
    requires FreshRun(m, ops) && n <= |ops|
    ensures FreshRun(m, ops[..n])
    decreases n
  {
    if n > 0 {
      FreshPrefix(MapStep(m, ops[0]).0, ops[1..], n - 1);
      assert ops[1..][..n - 1] == ops[..n][1..];
    }
  }
}
