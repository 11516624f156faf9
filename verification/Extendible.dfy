/**
  Sequential behaviour of the extendible hash table (index/extendible_hash.h) on values: a
  directory of 2^depth entries naming shared segments, lazy deletion, splits in place or by
  copying, and directory doubling.
*/
module Extendible {
  import opened Pairs
  import opened Bits
  import opened Probing

  // The hash function into [0, 2^W), the slots per segment, and the build (INPLACE or not).
  // The program has W == 64 and N == 1024.
  datatype Params = Params(hash: Key -> nat, W: nat, N: nat, inplace: bool) {
    ghost predicate Ok() {
      W >= 1 && N >= 1 && forall k: Key :: hash(k) < Pow2(W)
    }
  }

  // A segment; prefix is the hash prefix of the directory block that names it.
  datatype Seg = Seg(depth: nat, prefix: nat, slots: seq<Pair>)

  // dir[i] is an index into segs.
  datatype Table = Table(depth: nat, dir: seq<nat>, segs: seq<Seg>)

  // kMask + 1 == 256 and kNumPairPerCacheLine == 4
  function Home(h: nat): nat {
    (h % 256) * 4
  }

  // A scan starts with the cache line of four slots that the low byte of the hash names, of 256 lines.
  lemma HomeLine(h: nat)
    ensures Home(h) % 4 == 0 && Home(h) / 4 == h % 256 && Home(h) + 4 <= 1024
  {}

  // The upper l bits of a hash value.
  function Prefix(P: Params, h: nat, l: nat): nat
    requires l <= P.W
  {
    Shr(h, P.W - l)
  }

  // Bit l of a hash value, counted from the top.
  function NextBit(P: Params, h: nat, l: nat): nat
    requires l < P.W
  {
    Prefix(P, h, l + 1) % 2
  }

  lemma PrefixStep(P: Params, h: nat, l: nat)
    requires l < P.W
    ensures Prefix(P, h, l) == Prefix(P, h, l + 1) / 2
    ensures Prefix(P, h, l + 1) == 2 * Prefix(P, h, l) + NextBit(P, h, l) && NextBit(P, h, l) <= 1
  {
    ShrLast(h, P.W - l - 1);
  }

  // What an insert may overwrite: a free slot, or a copy of a pair that a split moved out.
  ghost function Dead(P: Params, l: nat, pattern: nat): Pair -> bool
    requires l <= P.W
  {
    (p: Pair) => Prefix(P, P.hash(p.key), l) != pattern || p.key == INVALID
  }

  ghost function BitIs(P: Params, l: nat, b: nat): Pair -> bool
    requires l < P.W
  {
    (p: Pair) => NextBit(P, P.hash(p.key), l) == b
  }

  // ---------------------------------------------------------------- invariant

  // Segment j of local depth l fills exactly the aligned block of 2^(depth - l) directory
  // entries whose upper bits are its prefix, so distinct blocks name distinct segments.
  ghost predicate Inv(P: Params, t: Table) {
    && P.Ok()
    && 1 <= t.depth <= P.W
    && |t.dir| == Pow2(t.depth)
    && (forall i :: 0 <= i < |t.dir| ==> t.dir[i] < |t.segs|)
    && (forall j :: 0 <= j < |t.segs| ==> SegOk(P, t, t.segs[j]))
    && (forall i, j :: 0 <= i < |t.dir| && 0 <= j < |t.segs| ==> (t.dir[i] == j <==> InBlock(t, t.segs[j], i)))
  }

  ghost predicate SegOk(P: Params, t: Table, s: Seg) {
    1 <= s.depth <= t.depth && s.prefix < Pow2(s.depth) && |s.slots| == P.N
  }

  ghost predicate InBlock(t: Table, s: Seg, i: nat) {
    s.depth <= t.depth && Shr(i, t.depth - s.depth) == s.prefix
  }

  // Directory index and segment of a hash value.
  ghost function Index(P: Params, t: Table, h: nat): (x: nat)
    requires Inv(P, t) && h < Pow2(P.W)
    ensures x < |t.dir|
  {
    ShrBound(h, P.W - t.depth, t.depth);
    Prefix(P, h, t.depth)
  }

  ghost function Route(P: Params, t: Table, h: nat): (j: nat)
    requires Inv(P, t) && h < Pow2(P.W)
    ensures j < |t.segs|
  {
    t.dir[Index(P, t, h)]
  }

  // A hash value is routed to a segment exactly when it has the segment's prefix.
  lemma RouteIff(P: Params, t: Table, h: nat, j: nat)
    requires Inv(P, t) && h < Pow2(P.W) && j < |t.segs|
    ensures Route(P, t, h) == j <==> Prefix(P, h, t.segs[j].depth) == t.segs[j].prefix
  {
    var s := t.segs[j];
    assert SegOk(P, t, s);
    ShrShr(h, P.W - t.depth, t.depth - s.depth);
    assert Shr(Index(P, t, h), t.depth - s.depth) == Prefix(P, h, s.depth);
    assert InBlock(t, s, Index(P, t, h)) <==> Prefix(P, h, s.depth) == s.prefix;
  }

  // ---------------------------------------------------------------- split

  // Insert4split: the pair goes to the first free slot from its home position.
  ghost function Place(P: Params, slots: seq<Pair>, p: Pair): (r: seq<Pair>)
    requires P.Ok() && |slots| == P.N
    ensures |r| == P.N
  {
    var start := Home(P.hash(p.key));
    var i := Find(slots, start, 0, KeyIs(INVALID));
    if i < |slots| then slots[Slot(start, i, |slots|) := p] else slots
  }

  // A fresh segment after Insert4split of the pairs ps in order.
  ghost function Fill(P: Params, ps: seq<Pair>): (r: seq<Pair>)
    requires P.Ok()
    ensures |r| == P.N
  {
    if ps == [] then seq(P.N, _ => EMPTY)
    else Place(P, Fill(P, ps[..|ps| - 1]), ps[|ps| - 1])
  }

  ghost function Split(P: Params, s: Seg): (r: (Seg, Seg))
    requires P.Ok() && s.depth < P.W && |s.slots| == P.N
    ensures |r.0.slots| == |r.1.slots| == P.N
  {
    var left := if P.inplace then s.slots else Fill(P, Filter(s.slots, BitIs(P, s.depth, 0)));
    var right := Fill(P, Filter(s.slots, BitIs(P, s.depth, 1)));
    (Seg(s.depth + 1, 2 * s.prefix, left), Seg(s.depth + 1, 2 * s.prefix + 1, right))
  }

  // Every entry of the directory is repeated.
  ghost function Double(t: Table): Table {
    Table(t.depth + 1, seq(2 * |t.dir|, i requires 0 <= i < 2 * |t.dir| => t.dir[i / 2]), t.segs)
  }

  // Segment j is replaced by its halves; the right half takes the upper half of the block.
  ghost function Publish(t: Table, j: nat, left: Seg, right: Seg): Table
    requires j < |t.segs| && left.depth <= t.depth
  {
    var n := t.depth - left.depth;
    Table(t.depth,
          seq(|t.dir|, i requires 0 <= i < |t.dir| => if Shr(i, n) == right.prefix then |t.segs| else t.dir[i]),
          t.segs[j := left] + [right])
  }

  ghost function SplitStep(P: Params, t: Table, h: nat): Table
    requires Inv(P, t) && h < Pow2(P.W) && t.segs[Route(P, t, h)].depth < P.W
  {
    var j := Route(P, t, h);
    var (left, right) := Split(P, t.segs[j]);
    Publish(if t.segs[j].depth == t.depth then Double(t) else t, j, left, right)
  }

  lemma DoubleInv(P: Params, t: Table)
    requires Inv(P, t) && t.depth < P.W
    ensures Inv(P, Double(t))
    ensures forall h :: 0 <= h < Pow2(P.W) ==> Route(P, Double(t), h) == Route(P, t, h)
  {
    var d := Double(t);
    forall j | 0 <= j < |d.segs| ensures SegOk(P, d, d.segs[j]) {
      assert SegOk(P, t, t.segs[j]);
    }
    forall i, j | 0 <= i < |d.dir| && 0 <= j < |d.segs|
      ensures d.dir[i] == j <==> InBlock(d, d.segs[j], i)
    {
      assert SegOk(P, t, t.segs[j]);
      assert t.dir[i / 2] == j <==> InBlock(t, t.segs[j], i / 2);
    }
    forall h | 0 <= h < Pow2(P.W) ensures Route(P, d, h) == Route(P, t, h) {
      PrefixStep(P, h, t.depth);
    }
  }

  // The directory part of publishing the halves of segment j.
  lemma PublishBlocks(P: Params, t: Table, j: nat, left: Seg, right: Seg, i: nat, m: nat)
    requires Inv(P, t) && j < |t.segs| && t.segs[j].depth < t.depth
    requires left.depth == right.depth == t.segs[j].depth + 1
    requires left.prefix == 2 * t.segs[j].prefix && right.prefix == left.prefix + 1
    requires i < |t.dir| && m < |t.segs| + 1
    ensures var t' := Publish(t, j, left, right);
            t'.dir[i] == m <==> InBlock(t', t'.segs[m], i)
  {
    var n := t.depth - left.depth;
    var t' := Publish(t, j, left, right);
    ShrLast(i, n);
    assert t.dir[i] == j <==> InBlock(t, t.segs[j], i);
    if m < |t.segs| && m != j {
      assert t.dir[i] == m <==> InBlock(t, t.segs[m], i);
      assert t'.segs[m] == t.segs[m];
    }
  }

  lemma PublishInv(P: Params, t: Table, j: nat, left: Seg, right: Seg)
    requires Inv(P, t) && j < |t.segs| && t.segs[j].depth < t.depth
    requires left.depth == right.depth == t.segs[j].depth + 1
    requires left.prefix == 2 * t.segs[j].prefix && right.prefix == left.prefix + 1
    requires |left.slots| == |right.slots| == P.N
    ensures Inv(P, Publish(t, j, left, right))
  {
    var t' := Publish(t, j, left, right);
    forall m | 0 <= m < |t'.segs| ensures SegOk(P, t', t'.segs[m]) {
      assert SegOk(P, t, t.segs[j]);
      if m < |t.segs| { assert SegOk(P, t, t.segs[m]); }
    }
    forall i, m | 0 <= i < |t'.dir| && 0 <= m < |t'.segs|
      ensures t'.dir[i] == m <==> InBlock(t', t'.segs[m], i)
    {
      PublishBlocks(P, t, j, left, right, i, m);
    }
  }

  // A split keeps the directory invariant, in both branches, and leaves the routed segment one
  // level deeper.  Hashes of other segments are routed as before.
  lemma SplitStepInv(P: Params, t: Table, h: nat)
    requires Inv(P, t) && h < Pow2(P.W) && t.segs[Route(P, t, h)].depth < P.W
    ensures var t' := SplitStep(P, t, h);
            && Inv(P, t')
            && t'.segs[Route(P, t', h)].depth == t.segs[Route(P, t, h)].depth + 1
  {
    var j := Route(P, t, h);
    var s := t.segs[j];
    var (left, right) := Split(P, s);
    var d := if s.depth == t.depth then Double(t) else t;
    assert SegOk(P, t, s);
    if s.depth == t.depth { DoubleInv(P, t); }
    PublishInv(P, d, j, left, right);
    SplitRoute(P, t, h, h);
  }

  lemma SplitSegs(P: Params, t: Table, h: nat)
    requires Inv(P, t) && h < Pow2(P.W) && t.segs[Route(P, t, h)].depth < P.W
    ensures var j, s, t' := Route(P, t, h), t.segs[Route(P, t, h)], SplitStep(P, t, h);
            && SegOk(P, t, s) && s.prefix == Prefix(P, h, s.depth)
            && |t'.segs| == |t.segs| + 1
            && t'.segs[j].depth == t'.segs[|t.segs|].depth == s.depth + 1
            && t'.segs[j].prefix == 2 * s.prefix && t'.segs[|t.segs|].prefix == 2 * s.prefix + 1
            && forall m :: 0 <= m < |t.segs| && m != j ==> t'.segs[m] == t.segs[m]
  {
    RouteIff(P, t, h, Route(P, t, h));
    assert SegOk(P, t, t.segs[Route(P, t, h)]);
    hide Fill, Filter, Prefix, InBlock;
  }

  lemma SplitDir(P: Params, t: Table, h: nat)
    requires Inv(P, t) && h < Pow2(P.W) && t.segs[Route(P, t, h)].depth < t.depth
    ensures var s, t' := t.segs[Route(P, t, h)], SplitStep(P, t, h);
            && t'.depth == t.depth && |t'.dir| == |t.dir|
            && forall i :: 0 <= i < |t.dir| ==>
                 t'.dir[i] == if Shr(i, t.depth - s.depth - 1) == 2 * s.prefix + 1 then |t.segs| else t.dir[i]
  {
    hide Fill, Filter, Prefix, InBlock, SegOk, Shr, Pow2;
  }

  lemma HashBound(P: Params, t: Table, k: Key)
    requires Inv(P, t)
    ensures P.hash(k) < Pow2(P.W)
  {}

  // Where a split sends a hash value.
  lemma SplitRoute(P: Params, t: Table, h: nat, g: nat)
    requires Inv(P, t) && h < Pow2(P.W) && t.segs[Route(P, t, h)].depth < P.W && g < Pow2(P.W)
    requires Inv(P, SplitStep(P, t, h))
    ensures var j := Route(P, t, h);
            Route(P, SplitStep(P, t, h), g) ==
              if Route(P, t, g) == j && NextBit(P, g, t.segs[j].depth) == 1 then |t.segs| else Route(P, t, g)
  {
    SplitSegs(P, t, h);
    hide *;
    var j, m := Route(P, t, h), Route(P, t, g);
    var t' := SplitStep(P, t, h);
    RouteIff(P, t, g, m);
    if m != j {
      RouteIff(P, t', g, m);
    } else {
      PrefixStep(P, g, t.segs[j].depth);
      RouteIff(P, t', g, if NextBit(P, g, t.segs[j].depth) == 1 then |t.segs| else j);
    }
  }

  // ---------------------------------------------------------------- contents

  // How often a pair is stored: copies in other segments than its own are garbage.
  ghost function Mult(P: Params, t: Table, p: Pair): nat
    requires Inv(P, t)
  {
    if p.key == INVALID then 0 else multiset(t.segs[Route(P, t, P.hash(p.key))].slots)[p]
  }

  // Every slot of the segment is live: the probe of an insert of hash h fails.
  ghost predicate Full(P: Params, s: Seg)
    requires s.depth <= P.W
  {
    forall i :: 0 <= i < |s.slots| ==> !Dead(P, s.depth, s.prefix)(s.slots[i])
  }

  ghost predicate Keyed(ps: seq<Pair>) {
    forall i :: 0 <= i < |ps| ==> ps[i].key != INVALID
  }

  // Insert4split takes a free slot while there is one.
  lemma PlaceBag(P: Params, s: seq<Pair>, ps: seq<Pair>, n: nat, p: Pair)
    requires P.Ok() && |s| == P.N && Keyed(ps) && n >= 1
    requires multiset(s) == multiset(ps) + multiset{}[EMPTY := n]
    ensures multiset(Place(P, s, p)) == multiset(ps) + multiset{p} + multiset{}[EMPTY := n - 1]
  {
    assert multiset(s)[EMPTY] >= 1;
    BagMember(s, EMPTY);
    var start := Home(P.hash(p.key));
    FindCovers(s, start, KeyIs(INVALID));
    var k := Slot(start, Find(s, start, 0, KeyIs(INVALID)), |s|);
    FreeIsEmpty(ps, s, n, k);
    BagUpdate(s, k, p, p);
    assert multiset{}[EMPTY := n] - multiset{EMPTY} == multiset{}[EMPTY := n - 1];
  }

  // It never fails on at most N pairs, and Fill stores exactly the given ones.
  lemma {:induction false} FillBag(P: Params, ps: seq<Pair>)
    requires P.Ok() && Keyed(ps) && |ps| <= P.N
    ensures multiset(Fill(P, ps)) == multiset(ps) + multiset{}[EMPTY := P.N - |ps|]
    decreases |ps|
  {
    if ps == [] {
      EmptyBag(P.N);
    } else {
      var n := |ps| - 1;
      var rest, p := ps[..n], ps[n];
      assert ps == rest + [p];
      assert Fill(P, ps) == Place(P, Fill(P, rest), p);
      FillBag(P, rest);
      hide Fill, Place;
      PlaceBag(P, Fill(P, rest), rest, P.N - n, p);
    }
  }

  lemma {:induction false} EmptyBag(n: nat)
    ensures multiset(seq(n, _ => EMPTY)) == multiset{}[EMPTY := n]
  {
    if n > 0 {
      EmptyBag(n - 1);
      assert seq(n, _ => EMPTY) == seq(n - 1, _ => EMPTY) + [EMPTY];
    }
  }

  lemma FreeIsEmpty(ps: seq<Pair>, s: seq<Pair>, n: nat, k: nat)
    requires Keyed(ps) && k < |s| && s[k].key == INVALID
    requires multiset(s) == multiset(ps) + multiset{}[EMPTY := n]
    ensures s[k] == EMPTY
  {
    assert s[k] in multiset(s);
    assert s[k] !in multiset(ps);
  }

  // Splitting a full segment partitions its pairs by the next hash bit, in either build.
  lemma SplitPartitions(P: Params, s: Seg, p: Pair)
    requires P.Ok() && s.depth < P.W && |s.slots| == P.N && Full(P, s) && p.key != INVALID
    ensures multiset(Split(P, s).1.slots)[p]
         == if NextBit(P, P.hash(p.key), s.depth) == 1 then multiset(s.slots)[p] else 0
    ensures NextBit(P, P.hash(p.key), s.depth) == 0 ==> multiset(Split(P, s).0.slots)[p] == multiset(s.slots)[p]
  {
    forall b: nat | b <= 1
      ensures multiset(Fill(P, Filter(s.slots, BitIs(P, s.depth, b))))[p]
           == if NextBit(P, P.hash(p.key), s.depth) == b then multiset(s.slots)[p] else 0
    {
      var f := Filter(s.slots, BitIs(P, s.depth, b));
      FullKeyed(P, s);
      FilterKeyed(s.slots, BitIs(P, s.depth, b));
      FillBag(P, f);
      FilterBag(s.slots, BitIs(P, s.depth, b), p);
    }
  }

  lemma FullKeyed(P: Params, s: Seg)
    requires P.Ok() && s.depth <= P.W && Full(P, s)
    ensures Keyed(s.slots)
  {
    forall i | 0 <= i < |s.slots| ensures s.slots[i].key != INVALID {
      assert !Dead(P, s.depth, s.prefix)(s.slots[i]);
    }
  }

  lemma FilterKeyed(s: seq<Pair>, q: Pair -> bool)
    requires Keyed(s)
    ensures Keyed(Filter(s, q))
  {
    var f := Filter(s, q);
    forall k | 0 <= k < |f| ensures f[k].key != INVALID {
      FilterBag(s, q, f[k]);
      BagMember(f, f[k]);
      BagMember(s, f[k]);
    }
  }

  // A split neither loses nor duplicates a stored pair.
  lemma SplitStepMult(P: Params, t: Table, h: nat, p: Pair)
    requires Inv(P, t) && h < Pow2(P.W) && t.segs[Route(P, t, h)].depth < P.W
    requires Full(P, t.segs[Route(P, t, h)])
    requires Inv(P, SplitStep(P, t, h))
    ensures Mult(P, SplitStep(P, t, h), p) == Mult(P, t, p)
  {
    if p.key != INVALID {
      var j := Route(P, t, h);
      assert SegOk(P, t, t.segs[j]);
      SplitRoute(P, t, h, P.hash(p.key));
      SplitPartitions(P, t.segs[j], p);
    }
  }

  // ---------------------------------------------------------------- operations

  // An insert either stores the pair or comes to a full segment whose local depth is W, where
  // the bit to split on has the undefined position -1.
  datatype Outcome = Placed(table: Table) | NoBitLeft(table: Table)

  ghost function PutSlot(t: Table, j: nat, i: nat, p: Pair): Table
    requires j < |t.segs| && i < |t.segs[j].slots|
  {
    t.(segs := t.segs[j := t.segs[j].(slots := t.segs[j].slots[i := p])])
  }

  // The step at which the probe of an insert of hash h succeeds, or N.
  ghost function FreeStep(P: Params, t: Table, h: nat): (i: nat)
    requires Inv(P, t) && h < Pow2(P.W)
    ensures i <= P.N
  {
    var s := t.segs[Route(P, t, h)];
    assert SegOk(P, t, s);
    Find(s.slots, Home(h), 0, Dead(P, s.depth, Prefix(P, h, s.depth)))
  }

  // Each round either stores the pair or splits the key's segment, whose local depth rises; at
  // most W rounds are made.
  ghost function Insert(P: Params, t: Table, k: Key, v: Value): (r: Outcome)
    requires Inv(P, t)
    decreases P.W - t.segs[Route(P, t, P.hash(k))].depth
  {
    var h := P.hash(k);
    var j := Route(P, t, h);
    assert SegOk(P, t, t.segs[j]);
    var i := FreeStep(P, t, h);
    if i < P.N then
      Placed(PutSlot(t, j, Slot(Home(h), i, P.N), Pair(k, v)))
    else if t.segs[j].depth == P.W then
      NoBitLeft(t)
    else
      SplitStepInv(P, t, h);
      Insert(P, SplitStep(P, t, h), k, v)
  }

  // Local depth of a key's segment.
  ghost function Depth(P: Params, t: Table, k: Key): (d: nat)
    requires Inv(P, t)
    ensures d <= P.W
  {
    assert SegOk(P, t, t.segs[Route(P, t, P.hash(k))]);
    t.segs[Route(P, t, P.hash(k))].depth
  }

  // What the first round does when it does not split.
  lemma InsertRound(P: Params, t: Table, k: Key, v: Value)
    requires Inv(P, t)
    ensures var h, j := P.hash(k), Route(P, t, P.hash(k));
            && |t.segs[j].slots| == P.N
            && (FreeStep(P, t, h) < P.N ==>
                  Insert(P, t, k, v) == Placed(PutSlot(t, j, Slot(Home(h), FreeStep(P, t, h), P.N), Pair(k, v))))
            && (FreeStep(P, t, h) == P.N && Depth(P, t, k) == P.W ==> Insert(P, t, k, v) == NoBitLeft(t))
  {
    assert SegOk(P, t, t.segs[Route(P, t, P.hash(k))]);
  }

  // A round that splits leaves the same work to do, one level deeper.
  lemma InsertAfterSplit(P: Params, t: Table, k: Key, v: Value)
    requires Inv(P, t) && FreeStep(P, t, P.hash(k)) == P.N && Depth(P, t, k) < P.W
    ensures var t' := SplitStep(P, t, P.hash(k));
            Inv(P, t') && Depth(P, t', k) == Depth(P, t, k) + 1 && Insert(P, t, k, v) == Insert(P, t', k, v)
  {
    SplitStepInv(P, t, P.hash(k));
  }

  // The step at which the scan for a key succeeds, or N.
  ghost function KeyStep(P: Params, t: Table, k: Key): (i: nat)
    requires Inv(P, t)
    ensures i <= P.N
  {
    var s := t.segs[Route(P, t, P.hash(k))];
    assert SegOk(P, t, s);
    Find(s.slots, Home(P.hash(k)), 0, KeyIs(k))
  }

  // The pair that the scan for a key finds.
  ghost function Hit(P: Params, t: Table, k: Key): Pair
    requires Inv(P, t) && KeyStep(P, t, k) < P.N
  {
    assert SegOk(P, t, t.segs[Route(P, t, P.hash(k))]);
    t.segs[Route(P, t, P.hash(k))].slots[Slot(Home(P.hash(k)), KeyStep(P, t, k), P.N)]
  }

  ghost function PutHit(P: Params, t: Table, k: Key, p: Pair): Table
    requires Inv(P, t) && KeyStep(P, t, k) < P.N
  {
    assert SegOk(P, t, t.segs[Route(P, t, P.hash(k))]);
    PutSlot(t, Route(P, t, P.hash(k)), Slot(Home(P.hash(k)), KeyStep(P, t, k), P.N), p)
  }

  ghost function Update(P: Params, t: Table, k: Key, v: Value): (r: (Table, bool))
    requires Inv(P, t)
  {
    if KeyStep(P, t, k) < P.N then (PutHit(P, t, k, Pair(k, v)), true) else (t, false)
  }

  // Delete clears the key and leaves the value.
  ghost function Delete(P: Params, t: Table, k: Key): (r: (Table, bool))
    requires Inv(P, t)
  {
    if KeyStep(P, t, k) < P.N then (PutHit(P, t, k, Pair(INVALID, Hit(P, t, k).value)), true) else (t, false)
  }

  ghost function Get(P: Params, t: Table, k: Key): (v: Value)
    requires Inv(P, t)
  {
    if KeyStep(P, t, k) < P.N then Hit(P, t, k).value else NONE
  }

  lemma PutSlotInv(P: Params, t: Table, j: nat, i: nat, p: Pair)
    requires Inv(P, t) && j < |t.segs| && i < |t.segs[j].slots|
    ensures Inv(P, PutSlot(t, j, i, p))
    ensures forall h :: 0 <= h < Pow2(P.W) ==> Route(P, PutSlot(t, j, i, p), h) == Route(P, t, h)
  {
    var t' := PutSlot(t, j, i, p);
    forall m | 0 <= m < |t'.segs| ensures SegOk(P, t', t'.segs[m]) {
      assert SegOk(P, t, t.segs[m]);
    }
    forall x, m | 0 <= x < |t'.dir| && 0 <= m < |t'.segs|
      ensures t'.dir[x] == m <==> InBlock(t', t'.segs[m], x)
    {
      assert t.dir[x] == m <==> InBlock(t, t.segs[m], x);
    }
  }

  // Overwriting slot i of segment j when the new pair, if any, belongs there.
  lemma PutSlotMult(P: Params, t: Table, j: nat, i: nat, p: Pair, q: Pair)
    requires Inv(P, t) && j < |t.segs| && i < |t.segs[j].slots|
    requires p.key != INVALID ==> Route(P, t, P.hash(p.key)) == j
    requires Inv(P, PutSlot(t, j, i, p))
    ensures var was := t.segs[j].slots[i];
            Mult(P, PutSlot(t, j, i, p), q) == Mult(P, t, q)
              - (if q == was && q.key != INVALID && Route(P, t, P.hash(q.key)) == j then 1 else 0)
              + (if q == p && p.key != INVALID then 1 else 0)
  {
    PutSlotInv(P, t, j, i, p);
    BagUpdate(t.segs[j].slots, i, p, q);
  }

  // The probe of an insert fails exactly when the key's segment is full.
  lemma ProbeFailsIffFull(P: Params, t: Table, h: nat)
    requires Inv(P, t) && h < Pow2(P.W)
    ensures t.segs[Route(P, t, h)].depth <= P.W
    ensures FreeStep(P, t, h) == P.N <==> Full(P, t.segs[Route(P, t, h)])
  {
    var j := Route(P, t, h);
    var s := t.segs[j];
    assert SegOk(P, t, s);
    RouteIff(P, t, h, j);
    FindCovers(s.slots, Home(h), Dead(P, s.depth, s.prefix));
  }

  lemma {:induction false} InsertInv(P: Params, t: Table, k: Key, v: Value)
    requires Inv(P, t)
    ensures Inv(P, Insert(P, t, k, v).table)
    decreases P.W - t.segs[Route(P, t, P.hash(k))].depth
  {
    var h := P.hash(k);
    var j := Route(P, t, h);
    assert SegOk(P, t, t.segs[j]);
    if FreeStep(P, t, h) < P.N {
      PutSlotInv(P, t, j, Slot(Home(h), FreeStep(P, t, h), P.N), Pair(k, v));
    } else if t.segs[j].depth < P.W {
      SplitStepInv(P, t, h);
      InsertInv(P, SplitStep(P, t, h), k, v);
    }
  }

  // An insert that returns has stored exactly its pair, however many splits it made; one that
  // runs out of hash bits has stored nothing.
  lemma {:induction false} InsertMult(P: Params, t: Table, k: Key, v: Value, q: Pair)
    requires Inv(P, t) && k != INVALID
    requires Inv(P, Insert(P, t, k, v).table)
    ensures Mult(P, Insert(P, t, k, v).table, q)
         == Mult(P, t, q) + (if Insert(P, t, k, v).Placed? && q == Pair(k, v) then 1 else 0)
    decreases P.W - t.segs[Route(P, t, P.hash(k))].depth
  {
    var h := P.hash(k);
    var j := Route(P, t, h);
    assert SegOk(P, t, t.segs[j]);
    var i := FreeStep(P, t, h);
    if i < P.N {
      PutSlotMult(P, t, j, Slot(Home(h), i, P.N), Pair(k, v), q);
      RouteIff(P, t, h, j);
      if q.key != INVALID { RouteIff(P, t, P.hash(q.key), j); }
    } else if t.segs[j].depth < P.W {
      ProbeFailsIffFull(P, t, h);
      SplitStepInv(P, t, h);
      SplitStepMult(P, t, h, q);
      InsertMult(P, SplitStep(P, t, h), k, v, q);
    }
  }

  // ---------------------------------------------------------------- when an insert returns

  ghost function HashIs(P: Params, h: nat): Pair -> bool {
    (p: Pair) => p.key != INVALID && P.hash(p.key) == h
  }

  // How many stored pairs share the full hash value h; all of them are in its segment.
  ghost function SameHash(P: Params, t: Table, h: nat): nat
    requires Inv(P, t) && h < Pow2(P.W)
  {
    |Filter(t.segs[Route(P, t, h)].slots, HashIs(P, h))|
  }

  lemma FillAllSame(P: Params, ps: seq<Pair>, h: nat)
    requires P.Ok() && Keyed(ps) && |ps| <= P.N
    ensures All(Fill(P, ps), HashIs(P, h)) <==> |ps| == P.N && All(ps, HashIs(P, h))
  {
    FillBag(P, ps);
    var s := Fill(P, ps);
    if |ps| == P.N {
      assert multiset{}[EMPTY := 0] == multiset{};
      assert multiset(s) == multiset(ps);
      if All(s, HashIs(P, h)) { AllBag(s, ps, HashIs(P, h)); }
      if All(ps, HashIs(P, h)) { AllBag(ps, s, HashIs(P, h)); }
    } else {
      assert multiset(s)[EMPTY] >= 1;
      BagMember(s, EMPTY);
    }
  }

  lemma HalfAllSame(P: Params, s: Seg, h: nat)
    requires P.Ok() && s.depth < P.W && |s.slots| == P.N && Full(P, s)
    ensures All(Fill(P, Filter(s.slots, BitIs(P, s.depth, NextBit(P, h, s.depth)))), HashIs(P, h))
       <==> All(s.slots, HashIs(P, h))
  {
    var q := BitIs(P, s.depth, NextBit(P, h, s.depth));
    var f := Filter(s.slots, q);
    FullKeyed(P, s);
    FilterKeyed(s.slots, q);
    FillAllSame(P, f, h);
    if All(s.slots, HashIs(P, h)) {
      assert All(s.slots, q);
      FilterAll(s.slots, q);
    }
  }

  // A split of a full segment leaves the half of hash h filled by that hash alone exactly when
  // the whole segment was.
  lemma SplitAllSame(P: Params, s: Seg, h: nat)
    requires P.Ok() && s.depth < P.W && |s.slots| == P.N && Full(P, s)
    ensures NextBit(P, h, s.depth) == 1 ==>
              (All(Split(P, s).1.slots, HashIs(P, h)) <==> All(s.slots, HashIs(P, h)))
    ensures NextBit(P, h, s.depth) == 0 ==>
              (All(Split(P, s).0.slots, HashIs(P, h)) <==> All(s.slots, HashIs(P, h)))
  {
    HalfAllSame(P, s, h);
  }

  // A segment that holds hash h in every slot is full; at depth W a full segment is such.
  lemma AllSameFull(P: Params, t: Table, h: nat)
    requires Inv(P, t) && h < Pow2(P.W)
    ensures var s := t.segs[Route(P, t, h)];
            && s.depth <= P.W
            && (All(s.slots, HashIs(P, h)) ==> Full(P, s))
            && (Full(P, s) && s.depth == P.W ==> All(s.slots, HashIs(P, h)))
  {
    var j := Route(P, t, h);
    var s := t.segs[j];
    assert SegOk(P, t, s);
    RouteIff(P, t, h, j);
    if All(s.slots, HashIs(P, h)) {
      forall i | 0 <= i < |s.slots| ensures !Dead(P, s.depth, s.prefix)(s.slots[i]) {
        assert HashIs(P, h)(s.slots[i]);
      }
    }
    if Full(P, s) && s.depth == P.W {
      forall i | 0 <= i < |s.slots| ensures HashIs(P, h)(s.slots[i]) {
        assert !Dead(P, s.depth, s.prefix)(s.slots[i]);
        assert Shr(h, 0) == h && Shr(P.hash(s.slots[i].key), 0) == P.hash(s.slots[i].key);
      }
    }
  }

  lemma SplitStepAllSame(P: Params, t: Table, h: nat)
    requires Inv(P, t) && h < Pow2(P.W) && t.segs[Route(P, t, h)].depth < P.W
    requires Full(P, t.segs[Route(P, t, h)])
    requires Inv(P, SplitStep(P, t, h))
    ensures var t' := SplitStep(P, t, h);
            All(t'.segs[Route(P, t', h)].slots, HashIs(P, h)) <==> All(t.segs[Route(P, t, h)].slots, HashIs(P, h))
  {
    assert SegOk(P, t, t.segs[Route(P, t, h)]);
    SplitRoute(P, t, h, h);
    SplitAllSame(P, t.segs[Route(P, t, h)], h);
  }

  lemma {:induction false} InsertPlacedIffAll(P: Params, t: Table, k: Key, v: Value)
    requires Inv(P, t)
    ensures Insert(P, t, k, v).NoBitLeft? <==> All(t.segs[Route(P, t, P.hash(k))].slots, HashIs(P, P.hash(k)))
    decreases P.W - t.segs[Route(P, t, P.hash(k))].depth
  {
    var h := P.hash(k);
    var j := Route(P, t, h);
    assert SegOk(P, t, t.segs[j]);
    ProbeFailsIffFull(P, t, h);
    AllSameFull(P, t, h);
    if FreeStep(P, t, h) == P.N && t.segs[j].depth < P.W {
      SplitStepInv(P, t, h);
      SplitStepAllSame(P, t, h);
      InsertPlacedIffAll(P, SplitStep(P, t, h), k, v);
    }
  }

  // An insert returns if and only if fewer than N stored pairs share the key's full hash.
  lemma InsertPlacedIff(P: Params, t: Table, k: Key, v: Value)
    requires Inv(P, t)
    ensures Insert(P, t, k, v).Placed? <==> SameHash(P, t, P.hash(k)) < P.N
  {
    var s := t.segs[Route(P, t, P.hash(k))];
    assert SegOk(P, t, s);
    InsertPlacedIffAll(P, t, k, v);
    FilterAll(s.slots, HashIs(P, P.hash(k)));
  }

  // The number of splits an insert makes is at most the bits left below the segment's depth.
  ghost function Splits(P: Params, t: Table, k: Key): nat
    requires Inv(P, t)
    decreases P.W - t.segs[Route(P, t, P.hash(k))].depth
  {
    var h := P.hash(k);
    assert SegOk(P, t, t.segs[Route(P, t, h)]);
    if FreeStep(P, t, h) < P.N || t.segs[Route(P, t, h)].depth == P.W then 0
    else
      SplitStepInv(P, t, h);
      1 + Splits(P, SplitStep(P, t, h), k)
  }

  lemma {:induction false} InsertDepth(P: Params, t: Table, k: Key, v: Value)
    requires Inv(P, t)
    requires Inv(P, Insert(P, t, k, v).table)
    ensures t.segs[Route(P, t, P.hash(k))].depth + Splits(P, t, k) <= P.W
    ensures var t' := Insert(P, t, k, v).table;
            && t'.segs[Route(P, t', P.hash(k))].depth == t.segs[Route(P, t, P.hash(k))].depth + Splits(P, t, k)
            && |t'.segs| == |t.segs| + Splits(P, t, k)
    decreases P.W - t.segs[Route(P, t, P.hash(k))].depth
  {
    var h := P.hash(k);
    var j := Route(P, t, h);
    assert SegOk(P, t, t.segs[j]);
    if FreeStep(P, t, h) < P.N {
      PutSlotInv(P, t, j, Slot(Home(h), FreeStep(P, t, h), P.N), Pair(k, v));
    } else if t.segs[j].depth < P.W {
      SplitStepInv(P, t, h);
      InsertDepth(P, SplitStep(P, t, h), k, v);
    }
  }

  // ---------------------------------------------------------------- lookups

  // The scan for a key finds a stored pair with that key, or there is none.
  lemma KeyStepMult(P: Params, t: Table, k: Key)
    requires Inv(P, t) && k != INVALID
    ensures KeyStep(P, t, k) < P.N ==> Hit(P, t, k).key == k && Mult(P, t, Hit(P, t, k)) >= 1
    ensures KeyStep(P, t, k) == P.N ==> forall v :: Mult(P, t, Pair(k, v)) == 0
  {
    var s := t.segs[Route(P, t, P.hash(k))];
    assert SegOk(P, t, s);
    FindCovers(s.slots, Home(P.hash(k)), KeyIs(k));
    if KeyStep(P, t, k) < P.N {
      BagMember(s.slots, Hit(P, t, k));
    } else {
      forall v ensures Mult(P, t, Pair(k, v)) == 0 {
        BagMember(s.slots, Pair(k, v));
      }
    }
  }

  // Rewriting the pair that was found exchanges that pair in the contents.
  lemma PutHitMult(P: Params, t: Table, k: Key, p: Pair, q: Pair)
    requires Inv(P, t) && k != INVALID && KeyStep(P, t, k) < P.N && p.key in {k, INVALID}
    ensures Inv(P, PutHit(P, t, k, p))
    ensures Mult(P, PutHit(P, t, k, p), q) == Mult(P, t, q)
              - (if q == Hit(P, t, k) then 1 else 0) + (if q == p && p.key != INVALID then 1 else 0)
  {
    var j := Route(P, t, P.hash(k));
    assert SegOk(P, t, t.segs[j]);
    var i := Slot(Home(P.hash(k)), KeyStep(P, t, k), P.N);
    PutSlotInv(P, t, j, i, p);
    PutSlotMult(P, t, j, i, p, q);
    KeyStepMult(P, t, k);
  }

  // ---------------------------------------------------------------- walking the directory

  ghost function Live(P: Params, l: nat, pattern: nat): Pair -> bool
    requires l <= P.W
  {
    (p: Pair) => Prefix(P, P.hash(p.key), l) == pattern && p.key != INVALID
  }

  function Stride(t: Table, s: Seg): nat
    requires s.depth <= t.depth
  {
    Pow2(t.depth - s.depth)
  }

  // Directory positions at which the walk stops: the end, and the start of every block.
  ghost predicate Aligned(P: Params, t: Table, i: nat)
    requires Inv(P, t)
  {
    i == |t.dir| || (i < |t.dir| &&
      (assert SegOk(P, t, t.segs[t.dir[i]]); i == t.segs[t.dir[i]].prefix * Stride(t, t.segs[t.dir[i]])))
  }

  lemma ZeroAligned(P: Params, t: Table)
    requires Inv(P, t)
    ensures Aligned(P, t, 0)
  {
    var s := t.segs[t.dir[0]];
    assert SegOk(P, t, s);
    assert t.dir[0] == t.dir[0] <==> InBlock(t, s, 0);
    ShrBlock(0, t.depth - s.depth, s.prefix);
    MulSign(s.prefix, Stride(t, s));
  }

  // The entries that name a segment are the stride entries from the block's start on.
  lemma BlockIs(P: Params, t: Table, i: nat, x: nat)
    requires Inv(P, t) && i < |t.dir| && Aligned(P, t, i) && x < |t.dir|
    ensures SegOk(P, t, t.segs[t.dir[i]])
    ensures t.dir[x] == t.dir[i] <==> i <= x < i + Stride(t, t.segs[t.dir[i]])
  {
    var j := t.dir[i];
    var s := t.segs[j];
    assert SegOk(P, t, s);
    assert t.dir[x] == j <==> InBlock(t, s, x);
    ShrBlock(x, t.depth - s.depth, s.prefix);
    assert (s.prefix + 1) * Stride(t, s) == s.prefix * Stride(t, s) + Stride(t, s);
  }

  // The walk never overshoots the directory and goes from block to block.
  lemma StrideAligned(P: Params, t: Table, i: nat)
    requires Inv(P, t) && i < |t.dir| && Aligned(P, t, i)
    ensures SegOk(P, t, t.segs[t.dir[i]])
    ensures i + Stride(t, t.segs[t.dir[i]]) <= |t.dir|
    ensures Aligned(P, t, i + Stride(t, t.segs[t.dir[i]]))
  {
    var s := t.segs[t.dir[i]];
    assert SegOk(P, t, s);
    var g := Stride(t, s);
    Pow2Add(s.depth, t.depth - s.depth);
    BlockEnd(s.prefix, Pow2(s.depth), g);
    assert (s.prefix + 1) * g == i + g;
    var x := i + g;
    if x < |t.dir| {
      var r := t.segs[t.dir[x]];
      assert SegOk(P, t, r);
      assert t.dir[x] == t.dir[x] <==> InBlock(t, r, x);
      assert t.dir[x - 1] == t.dir[x] <==> InBlock(t, r, x - 1);
      BlockIs(P, t, i, x);
      BlockIs(P, t, i, x - 1);
      ShrBlock(x, t.depth - r.depth, r.prefix);
      ShrBlock(x - 1, t.depth - r.depth, r.prefix);
    }
  }

  // The segments named by the first i entries.
  ghost function Seen(t: Table, i: nat): set<nat>
    requires i <= |t.dir|
  {
    set x | 0 <= x < i :: t.dir[x]
  }

  // Each step of the walk meets one new segment.
  lemma SeenStep(P: Params, t: Table, i: nat, s: Seg)
    requires Inv(P, t) && i < |t.dir| && Aligned(P, t, i) && s == t.segs[t.dir[i]] && SegOk(P, t, s)
    requires i + Stride(t, s) <= |t.dir|
    ensures |Seen(t, i + Stride(t, s))| == |Seen(t, i)| + 1
  {
    var n := i + Stride(t, s);
    forall x | 0 <= x < |t.dir| ensures t.dir[x] == t.dir[i] <==> i <= x < n {
      BlockIs(P, t, i, x);
    }
    assert t.dir[i] !in Seen(t, i);
    assert Seen(t, n) == Seen(t, i) + {t.dir[i]};
  }

  // The whole directory names all segments.
  lemma SeenAll(P: Params, t: Table)
    requires Inv(P, t)
    ensures |Seen(t, |t.dir|)| == |t.segs|
  {
    forall j | 0 <= j < |t.segs| ensures j in Seen(t, |t.dir|) {
      var s := t.segs[j];
      assert SegOk(P, t, s);
      var x := s.prefix * Stride(t, s);
      Pow2Add(s.depth, t.depth - s.depth);
      BlockEnd(s.prefix, Pow2(s.depth), Stride(t, s));
      MulSign(s.prefix, Stride(t, s));
      ShrBlock(x, t.depth - s.depth, s.prefix);
      assert t.dir[x] == j <==> InBlock(t, s, x);
    }
    assert Seen(t, |t.dir|) == UpTo(|t.segs|);
  }

  ghost function UpTo(n: nat): (r: set<nat>)
    ensures forall j: nat :: j in r <==> j < n
    ensures |r| == n
  {
    if n == 0 then {} else UpTo(n - 1) + {n - 1}
  }

  // The stored pairs, collected as the walk of Utilization does.
  ghost function ContentsFrom(P: Params, t: Table, i: nat): multiset<Pair>
    requires Inv(P, t) && Aligned(P, t, i)
    decreases |t.dir| - i
  {
    if i == |t.dir| then multiset{}
    else
      var s := t.segs[t.dir[i]];
      StrideAligned(P, t, i);
      multiset(Filter(s.slots, Live(P, s.depth, s.prefix))) + ContentsFrom(P, t, i + Stride(t, s))
  }

  ghost function Contents(P: Params, t: Table): multiset<Pair>
    requires Inv(P, t)
  {
    ZeroAligned(P, t);
    ContentsFrom(P, t, 0)
  }

  lemma WalkStart(P: Params, t: Table)
    requires Inv(P, t)
    ensures Aligned(P, t, 0) && |Seen(t, 0)| == 0 && ContentsFrom(P, t, 0) == Contents(P, t)
  {
    ZeroAligned(P, t);
    assert Seen(t, 0) == {};
  }

  lemma WalkEnd(P: Params, t: Table)
    requires Inv(P, t)
    ensures Aligned(P, t, |t.dir|) && |Seen(t, |t.dir|)| == |t.segs| && ContentsFrom(P, t, |t.dir|) == multiset{}
  {
    SeenAll(P, t);
  }

  lemma StrideStep(P: Params, t: Table, i: nat, s: Seg)
    requires Inv(P, t) && i < |t.dir| && Aligned(P, t, i) && s == t.segs[t.dir[i]]
    ensures SegOk(P, t, s) && s.prefix == Shr(i, t.depth - s.depth)
    ensures i + Stride(t, s) <= |t.dir| && Aligned(P, t, i + Stride(t, s))
  {
    StrideAligned(P, t, i);
    assert t.dir[i] == t.dir[i] <==> InBlock(t, s, i);
  }

  lemma ContentsFromNext(P: Params, t: Table, i: nat, s: Seg)
    requires Inv(P, t) && i < |t.dir| && Aligned(P, t, i) && s == t.segs[t.dir[i]] && SegOk(P, t, s)
    requires Aligned(P, t, i + Stride(t, s))
    ensures ContentsFrom(P, t, i)
         == multiset(Filter(s.slots, Live(P, s.depth, s.prefix))) + ContentsFrom(P, t, i + Stride(t, s))
  {
    hide Inv, Aligned, SegOk, Stride, Filter;
  }

  lemma ContentsFromStep(P: Params, t: Table, i: nat, s: Seg)
    requires Inv(P, t) && i < |t.dir| && Aligned(P, t, i) && s == t.segs[t.dir[i]] && SegOk(P, t, s)
    requires Aligned(P, t, i + Stride(t, s))
    ensures |ContentsFrom(P, t, i)|
         == |Filter(s.slots, Live(P, s.depth, s.prefix))| + |ContentsFrom(P, t, i + Stride(t, s))|
  {
    assert t.depth <= P.W && s.depth <= t.depth;
    hide *;
    ContentsFromNext(P, t, i, s);
    BagSize(Filter(s.slots, Live(P, s.depth, s.prefix)));
  }

  // One step of the walk: it stays inside the directory, meets one new segment, and leaves the
  // pairs of the remaining blocks.
  lemma WalkStep(P: Params, t: Table, i: nat) returns (j: nat, s: Seg)
    requires Inv(P, t) && i < |t.dir| && Aligned(P, t, i)
    ensures j == t.dir[i] && j < |t.segs| && s == t.segs[j]
    ensures SegOk(P, t, s) && t.depth <= P.W && s.prefix == Shr(i, t.depth - s.depth)
    ensures i + Stride(t, s) <= |t.dir| && Aligned(P, t, i + Stride(t, s))
    ensures |Seen(t, i + Stride(t, s))| == |Seen(t, i)| + 1
    ensures |ContentsFrom(P, t, i)|
         == |Filter(s.slots, Live(P, s.depth, s.prefix))| + |ContentsFrom(P, t, i + Stride(t, s))|
  {
    j := t.dir[i];
    s := t.segs[j];
    hide Inv, Aligned, Seen, ContentsFrom;
    StrideStep(P, t, i, s);
    SeenStep(P, t, i, s);
    ContentsFromStep(P, t, i, s);
  }

  // What one block contributes.
  lemma BlockContents(P: Params, t: Table, i: nat, q: Pair)
    requires Inv(P, t) && i < |t.dir| && Aligned(P, t, i)
    ensures SegOk(P, t, t.segs[t.dir[i]])
    ensures var s := t.segs[t.dir[i]];
            multiset(Filter(s.slots, Live(P, s.depth, s.prefix)))[q]
              == if q.key != INVALID && i <= Index(P, t, P.hash(q.key)) < i + Stride(t, s) then Mult(P, t, q) else 0
  {
    var j := t.dir[i];
    var s := t.segs[j];
    assert SegOk(P, t, s);
    FilterBag(s.slots, Live(P, s.depth, s.prefix), q);
    if q.key != INVALID {
      RouteIff(P, t, P.hash(q.key), j);
      BlockIs(P, t, i, Index(P, t, P.hash(q.key)));
    }
  }

  lemma {:induction false} ContentsFromAt(P: Params, t: Table, i: nat, q: Pair)
    requires Inv(P, t) && Aligned(P, t, i)
    ensures ContentsFrom(P, t, i)[q]
         == if q.key != INVALID && Index(P, t, P.hash(q.key)) >= i then Mult(P, t, q) else 0
    decreases |t.dir| - i
  {
    assert q.key != INVALID ==> Index(P, t, P.hash(q.key)) < |t.dir|;
    if i < |t.dir| {
      hide ContentsFrom, Filter, Mult, Index, Inv, Aligned;
      var s := t.segs[t.dir[i]];
      StrideStep(P, t, i, s);
      ContentsFromAt(P, t, i + Stride(t, s), q);
      BlockContents(P, t, i, q);
      ContentsFromNext(P, t, i, s);
    }
  }

  // The walk meets every stored pair as often as it is stored, and no stale copy.
  lemma ContentsAt(P: Params, t: Table, q: Pair)
    requires Inv(P, t)
    ensures Contents(P, t)[q] == Mult(P, t, q)
  {
    ZeroAligned(P, t);
    ContentsFromAt(P, t, 0, q);
  }

  lemma SameHashAll(P: Params, t: Table, h: nat)
    requires Inv(P, t) && h < Pow2(P.W)
    ensures SameHash(P, t, h) <= P.N
    ensures SameHash(P, t, h) == P.N <==> All(t.segs[Route(P, t, h)].slots, HashIs(P, h))
  {
    assert SegOk(P, t, t.segs[Route(P, t, h)]);
    FilterAll(t.segs[Route(P, t, h)].slots, HashIs(P, h));
  }

  // The part of a bag that has hash h.
  ghost predicate SharesHash(P: Params, c: multiset<Pair>, h: nat, part: multiset<Pair>) {
    forall p: Pair :: part[p] == if HashIs(P, h)(p) then c[p] else 0
  }

  // SameHash counts the stored pairs of hash h, all of them.
  lemma SameHashBag(P: Params, t: Table, h: nat, part: multiset<Pair>)
    requires Inv(P, t) && h < Pow2(P.W) && SharesHash(P, Contents(P, t), h, part)
    ensures SameHash(P, t, h) == |part|
  {
    var f := Filter(t.segs[Route(P, t, h)].slots, HashIs(P, h));
    forall p: Pair ensures multiset(f)[p] == part[p] {
      FilterBag(t.segs[Route(P, t, h)].slots, HashIs(P, h), p);
      ContentsAt(P, t, p);
    }
    assert multiset(f) == part;
    BagSize(f);
  }
}

/** Whole sequential runs of the extendible table refine a finite map. */
module ExtendibleRuns {
  import opened Pairs
  import opened Bits
  import opened Probing
  import opened TableSpec
  import E = Extendible

  // new ExtendibleHash(2^d): one empty segment per directory entry
  ghost function Initial(P: E.Params, d: nat): E.Table {
    E.Table(d, seq(Pow2(d), i => i), seq(Pow2(d), i requires 0 <= i => E.Seg(d, i, seq(P.N, _ => EMPTY))))
  }

  lemma InitialInv(P: E.Params, d: nat)
    requires P.Ok() && 1 <= d <= P.W
    ensures E.Inv(P, Initial(P, d))
  {
    var t := Initial(P, d);
    forall j | 0 <= j < |t.segs| ensures E.SegOk(P, t, t.segs[j]) {}
    forall i, j | 0 <= i < |t.dir| && 0 <= j < |t.segs|
      ensures t.dir[i] == j <==> E.InBlock(t, t.segs[j], i)
    {}
  }

  lemma InitialContents(P: E.Params, d: nat)
    requires P.Ok() && 1 <= d <= P.W
    ensures E.Inv(P, Initial(P, d))
    ensures E.Contents(P, Initial(P, d)) == multiset{}
  {
    InitialInv(P, d);
    var t := Initial(P, d);
    forall q: Pair ensures E.Contents(P, t)[q] == multiset{}[q] {
      E.ContentsAt(P, t, q);
      if q.key != INVALID {
        BagMember(t.segs[E.Route(P, t, P.hash(q.key))].slots, q);
      }
    }
  }

  ghost function Step(P: E.Params, t: E.Table, op: Op): (E.Table, Reply)
    requires E.Inv(P, t)
  {
    match op
    case Insert(k, v) => (E.Insert(P, t, k, v).table, Unit)
    case Update(k, v) => (E.Update(P, t, k, v).0, Flag(E.Update(P, t, k, v).1))
    case Delete(k) => (E.Delete(P, t, k).0, Flag(E.Delete(P, t, k).1))
    case Get(k) => (t, Val(E.Get(P, t, k)))
  }

  // The operation returns: an insert finds room for its full hash value.
  ghost predicate Returns(P: E.Params, t: E.Table, op: Op)
    requires E.Inv(P, t)
  {
    op.Insert? ==> E.SameHash(P, t, P.hash(op.k)) < P.N
  }

  lemma StepInv(P: E.Params, t: E.Table, op: Op)
    requires E.Inv(P, t) && op.k != INVALID
    ensures E.Inv(P, Step(P, t, op).0)
  {
    match op
    case Insert(k, v) => E.InsertInv(P, t, k, v);
    case Update(k, v) =>
      if E.KeyStep(P, t, k) < P.N { E.PutHitMult(P, t, k, Pair(k, v), EMPTY); }
    case Delete(k) =>
      if E.KeyStep(P, t, k) < P.N { E.PutHitMult(P, t, k, Pair(INVALID, E.Hit(P, t, k).value), EMPTY); }
    case Get(k) =>
  }

  lemma HasKeyIff(P: E.Params, t: E.Table, k: Key)
    requires E.Inv(P, t) && k != INVALID
    ensures HasKey(E.Contents(P, t), k) <==> E.KeyStep(P, t, k) < P.N
    ensures E.KeyStep(P, t, k) < P.N ==> E.Hit(P, t, k).key == k && E.Hit(P, t, k) in E.Contents(P, t)
  {
    E.KeyStepMult(P, t, k);
    if E.KeyStep(P, t, k) < P.N {
      E.ContentsAt(P, t, E.Hit(P, t, k));
      assert Pair(k, E.Hit(P, t, k).value) in E.Contents(P, t);
    } else if HasKey(E.Contents(P, t), k) {
      var v :| Pair(k, v) in E.Contents(P, t);
      E.ContentsAt(P, t, Pair(k, v));
    }
  }

  lemma InsertBag(P: E.Params, t: E.Table, k: Key, v: Value)
    requires E.Inv(P, t) && k != INVALID && E.SameHash(P, t, P.hash(k)) < P.N
    requires E.Inv(P, E.Insert(P, t, k, v).table)
    ensures E.Contents(P, E.Insert(P, t, k, v).table) == E.Contents(P, t) + multiset{Pair(k, v)}
  {
    var t' := E.Insert(P, t, k, v).table;
    E.InsertPlacedIff(P, t, k, v);
    forall q: Pair ensures E.Contents(P, t')[q] == (E.Contents(P, t) + multiset{Pair(k, v)})[q] {
      E.InsertMult(P, t, k, v, q);
      E.ContentsAt(P, t, q);
      E.ContentsAt(P, t', q);
    }
  }

  // n pairs with the same key, inserted one after the other.
  ghost function Repeated(P: E.Params, t: E.Table, p: Pair, n: nat): (r: E.Table)
    requires E.Inv(P, t)
    ensures E.Inv(P, r)
  {
    if n == 0 then t
    else
      E.InsertInv(P, Repeated(P, t, p, n - 1), p.key, p.value);
      E.Insert(P, Repeated(P, t, p, n - 1), p.key, p.value).table
  }

  lemma RepeatedNone(P: E.Params, t: E.Table, p: Pair)
    requires E.Inv(P, t)
    ensures Repeated(P, t, p, 0) == t
  {
    hide E.Inv, E.Insert;
  }

  lemma RepeatedNext(P: E.Params, t: E.Table, p: Pair, n: nat)
    requires E.Inv(P, t) && n > 0
    ensures E.Inv(P, E.Insert(P, Repeated(P, t, p, n - 1), p.key, p.value).table)
    ensures Repeated(P, t, p, n) == E.Insert(P, Repeated(P, t, p, n - 1), p.key, p.value).table
  {
    E.InsertInv(P, Repeated(P, t, p, n - 1), p.key, p.value);
    hide E.Inv, E.Insert;
  }

  ghost function Copies(p: Pair, n: nat): multiset<Pair> {
    multiset{}[p := n]
  }

  lemma CopiesShare(P: E.Params, p: Pair, n: nat)
    requires p.key != INVALID
    ensures E.SharesHash(P, Copies(p, n), P.hash(p.key), Copies(p, n)) && |Copies(p, n)| == n
    ensures Copies(p, n) + multiset{Pair(p.key, p.value)} == Copies(p, n + 1)
    ensures n == 0 ==> Copies(p, n) == multiset{}
  {
    assert p == Pair(p.key, p.value);
  }

  lemma CopiesHash(P: E.Params, t: E.Table, p: Pair, n: nat)
    requires E.Inv(P, t) && p.key != INVALID && E.Contents(P, t) == Copies(p, n)
    ensures P.hash(p.key) < Pow2(P.W) && E.SameHash(P, t, P.hash(p.key)) == n
  {
    E.HashBound(P, t, p.key);
    hide *;
    CopiesShare(P, p, n);
    E.SameHashBag(P, t, P.hash(p.key), Copies(p, n));
  }

  lemma CopiesInsert(P: E.Params, t: E.Table, p: Pair, n: nat)
    requires E.Inv(P, t) && p.key != INVALID && E.Contents(P, t) == Copies(p, n) && n < P.N
    requires E.Inv(P, E.Insert(P, t, p.key, p.value).table)
    ensures E.Contents(P, E.Insert(P, t, p.key, p.value).table) == Copies(p, n + 1)
  {
    hide *;
    CopiesHash(P, t, p, n);
    InsertBag(P, t, p.key, p.value);
    CopiesShare(P, p, n);
  }

  lemma {:induction false} RepeatedBag(P: E.Params, t: E.Table, p: Pair, n: nat)
    requires E.Inv(P, t) && E.Contents(P, t) == multiset{} && p.key != INVALID && n <= P.N
    ensures E.Contents(P, Repeated(P, t, p, n)) == Copies(p, n)
    decreases n
  {
    hide *;
    if n == 0 {
      RepeatedNone(P, t, p);
      CopiesShare(P, p, 0);
    } else {
      RepeatedBag(P, t, p, n - 1);
      RepeatedNext(P, t, p, n);
      CopiesInsert(P, Repeated(P, t, p, n - 1), p, n - 1);
    }
  }

  // A run that comes to the undefined shift: N inserts of one key into a new table return, and
  // one more does not.
  lemma NoBitLeftReached(P: E.Params, d: nat, p: Pair)
    requires P.Ok() && 1 <= d <= P.W && p.key != INVALID
    ensures E.Inv(P, Initial(P, d))
    ensures forall n :: 0 <= n < P.N ==>
              E.Insert(P, Repeated(P, Initial(P, d), p, n), p.key, p.value).Placed?
    ensures E.Insert(P, Repeated(P, Initial(P, d), p, P.N), p.key, p.value).NoBitLeft?
  {
    InitialContents(P, d);
    hide E.Insert, E.Inv, Repeated, Initial, E.Contents;
    forall n: nat | n <= P.N
      ensures E.Insert(P, Repeated(P, Initial(P, d), p, n), p.key, p.value).Placed? <==> n < P.N
    {
      RepeatedBag(P, Initial(P, d), p, n);
      CopiesHash(P, Repeated(P, Initial(P, d), p, n), p, n);
      E.InsertPlacedIff(P, Repeated(P, Initial(P, d), p, n), p.key, p.value);
    }
  }

  lemma PutHitBagAt(P: E.Params, t: E.Table, k: Key, p: Pair, q: Pair)
    requires E.Inv(P, t) && k != INVALID && E.KeyStep(P, t, k) < P.N && p.key in {k, INVALID}
    ensures E.Inv(P, E.PutHit(P, t, k, p))
    ensures E.Contents(P, E.PutHit(P, t, k, p))[q] + (if q == E.Hit(P, t, k) then 1 else 0)
         == E.Contents(P, t)[q] + (if q == p && p.key != INVALID then 1 else 0)
  {
    E.PutHitMult(P, t, k, p, q);
    var t' := E.PutHit(P, t, k, p);
    E.ContentsAt(P, t, q);
    E.ContentsAt(P, t', q);
  }

  lemma PutHitBag(P: E.Params, t: E.Table, k: Key, p: Pair)
    requires E.Inv(P, t) && k != INVALID && E.KeyStep(P, t, k) < P.N && p.key in {k, INVALID}
    ensures E.Inv(P, E.PutHit(P, t, k, p))
    ensures E.Contents(P, E.PutHit(P, t, k, p))
         == E.Contents(P, t) - multiset{E.Hit(P, t, k)} + (if p.key == INVALID then multiset{} else multiset{p})
  {
    PutHitBagAt(P, t, k, p, p);
    HasKeyIff(P, t, k);
    hide E.Contents, E.PutHit, E.Hit, E.KeyStep, E.Inv;
    forall q: Pair
      ensures E.Contents(P, E.PutHit(P, t, k, p))[q] + (if q == E.Hit(P, t, k) then 1 else 0)
           == E.Contents(P, t)[q] + (if q == p && p.key != INVALID then 1 else 0)
    {
      PutHitBagAt(P, t, k, p, q);
    }
    Exchanged(E.Contents(P, t), E.Contents(P, E.PutHit(P, t, k, p)), E.Hit(P, t, k), p);
  }

  lemma Exchanged(c: multiset<Pair>, c': multiset<Pair>, hit: Pair, p: Pair)
    requires hit in c
    requires forall q: Pair ::
               c'[q] + (if q == hit then 1 else 0) == c[q] + (if q == p && p.key != INVALID then 1 else 0)
    ensures c' == c - multiset{hit} + (if p.key == INVALID then multiset{} else multiset{p})
  {}

  // Every operation does to the stored pairs what the table interface promises.
  lemma StepBag(P: E.Params, t: E.Table, op: Op)
    requires E.Inv(P, t) && op.k != INVALID && Returns(P, t, op)
    ensures E.Inv(P, Step(P, t, op).0)
    ensures BagStep(E.Contents(P, t), op, E.Contents(P, Step(P, t, op).0), Step(P, t, op).1)
  {
    StepInv(P, t, op);
    if op.Insert? {
      InsertBag(P, t, op.k, op.v);
    } else {
      HasKeyIff(P, t, op.k);
      if E.KeyStep(P, t, op.k) < P.N {
        var p := E.Hit(P, t, op.k);
        assert p == Pair(op.k, p.value);
        if op.Update? { PutHitBag(P, t, op.k, Pair(op.k, op.v)); }
        if op.Delete? { PutHitBag(P, t, op.k, Pair(INVALID, p.value)); }
      }
    }
  }

  // ---------------------------------------------------------------- runs

  ghost function Collide(P: E.Params, m: map<Key, Value>, h: nat): set<Key> {
    set k | k in m.Keys && P.hash(k) == h
  }

  // What the caller must respect: keys are valid, inserts are fresh, and fewer than N keys
  // that share one full hash value are stored when one more comes.
  ghost predicate Legal(P: E.Params, m: map<Key, Value>, ops: seq<Op>)
    decreases |ops|
  {
    ops == [] || (
      && Fresh(m, ops[0])
      && (ops[0].Insert? ==> |Collide(P, m, P.hash(ops[0].k))| < P.N)
      && Legal(P, MapStep(m, ops[0]).0, ops[1..]))
  }

  ghost predicate Distinct(s: seq<Pair>) {
    forall i, j :: 0 <= i < j < |s| ==> s[i].key != s[j].key
  }

  lemma {:induction false} DistinctKeys(s: seq<Pair>, keys: set<Key>)
    requires Distinct(s) && forall i :: 0 <= i < |s| ==> s[i].key in keys
    ensures |s| <= |keys|
    decreases |s|
  {
    if s != [] {
      var n := |s| - 1;
      DistinctKeys(s[..n], keys - {s[n].key});
    }
  }

  lemma TwiceInBag(s: seq<Pair>, i: nat, j: nat)
    requires i < j < |s| && s[i] == s[j]
    ensures multiset(s)[s[i]] >= 2
  {
    assert s == s[..j] + s[j..];
    assert s[i] in s[..j] && s[j] in s[j..];
    BagMember(s[..j], s[i]);
    BagMember(s[j..], s[i]);
  }

  // The condition on the map is the condition on the table.
  lemma CollideReturns(P: E.Params, t: E.Table, m: map<Key, Value>, k: Key)
    requires E.Inv(P, t) && Models(E.Contents(P, t), m) && |Collide(P, m, P.hash(k))| < P.N
    ensures E.SameHash(P, t, P.hash(k)) < P.N
  {
    var h := P.hash(k);
    var s := t.segs[E.Route(P, t, h)];
    assert E.SegOk(P, t, s);
    E.SameHashAll(P, t, h);
    if E.SameHash(P, t, h) == P.N {
      forall i | 0 <= i < |s.slots|
        ensures s.slots[i].key in m && m[s.slots[i].key] == s.slots[i].value && multiset(s.slots)[s.slots[i]] == 1
      {
        assert E.HashIs(P, h)(s.slots[i]);
        BagMember(s.slots, s.slots[i]);
        E.ContentsAt(P, t, s.slots[i]);
      }
      forall i, j | 0 <= i < j < |s.slots| ensures s.slots[i].key != s.slots[j].key {
        if s.slots[i].key == s.slots[j].key { TwiceInBag(s.slots, i, j); }
      }
      forall i | 0 <= i < |s.slots| ensures s.slots[i].key in Collide(P, m, h) {
        assert E.HashIs(P, h)(s.slots[i]);
      }
      DistinctKeys(s.slots, Collide(P, m, h));
    }
  }

  ghost function RunReplies(P: E.Params, t: E.Table, ops: seq<Op>): seq<Reply>
    requires E.Inv(P, t) && forall i :: 0 <= i < |ops| ==> ops[i].k != INVALID
    decreases |ops|
  {
    if ops == [] then []
    else
      StepInv(P, t, ops[0]);
      [Step(P, t, ops[0]).1] + RunReplies(P, Step(P, t, ops[0]).0, ops[1..])
  }

  ghost function RunEnd(P: E.Params, t: E.Table, ops: seq<Op>): (r: E.Table)
    requires E.Inv(P, t) && forall i :: 0 <= i < |ops| ==> ops[i].k != INVALID
    ensures E.Inv(P, r)
    decreases |ops|
  {
    if ops == [] then t
    else
      StepInv(P, t, ops[0]);
      RunEnd(P, Step(P, t, ops[0]).0, ops[1..])
  }

  lemma RunNone(P: E.Params, t: E.Table, ops: seq<Op>)
    requires E.Inv(P, t) && ops == []
    ensures RunReplies(P, t, ops) == [] && RunEnd(P, t, ops) == t
  {
    hide E.Inv;
  }

  lemma RunNext(P: E.Params, t: E.Table, ops: seq<Op>)
    requires E.Inv(P, t) && ops != [] && forall i :: 0 <= i < |ops| ==> ops[i].k != INVALID
    ensures E.Inv(P, Step(P, t, ops[0]).0)
    ensures RunReplies(P, t, ops) == [Step(P, t, ops[0]).1] + RunReplies(P, Step(P, t, ops[0]).0, ops[1..])
    ensures RunEnd(P, t, ops) == RunEnd(P, Step(P, t, ops[0]).0, ops[1..])
  {
    StepInv(P, t, ops[0]);
    hide E.Inv, Step;
  }

  lemma {:induction false} LegalKeys(P: E.Params, m: map<Key, Value>, ops: seq<Op>)
    requires Legal(P, m, ops)
    ensures forall i :: 0 <= i < |ops| ==> ops[i].k != INVALID
    decreases |ops|
  {
    if ops != [] {
      LegalKeys(P, MapStep(m, ops[0]).0, ops[1..]);
      forall i | 0 <= i < |ops| ensures ops[i].k != INVALID {
        if i > 0 { assert ops[i] == ops[1..][i - 1]; }
      }
    }
  }

  lemma {:induction false} RunRefinesMap(P: E.Params, t: E.Table, m: map<Key, Value>, ops: seq<Op>)
    requires E.Inv(P, t) && Models(E.Contents(P, t), m) && Legal(P, m, ops)
    ensures forall i :: 0 <= i < |ops| ==> ops[i].k != INVALID
    ensures RunReplies(P, t, ops) == MapReplies(m, ops)
    ensures Models(E.Contents(P, RunEnd(P, t, ops)), MapAfter(m, ops))
    decreases |ops|
  {
    LegalKeys(P, m, ops);
    if ops != [] {
      var op := ops[0];
      if op.Insert? { CollideReturns(P, t, m, op.k); }
      StepBag(P, t, op);
      var t' := Step(P, t, op).0;
      StepRefinesMap(E.Contents(P, t), m, op, E.Contents(P, t'), Step(P, t, op).1);
      RunRefinesMap(P, t', MapStep(m, op).0, ops[1..]);
    }
  }

  // Every legal run from a new table answers like a finite map, in either build.
  lemma TableRefinesMap(P: E.Params, d: nat, ops: seq<Op>)
    requires P.Ok() && 1 <= d <= P.W && Legal(P, map[], ops)
    ensures E.Inv(P, Initial(P, d))
    ensures forall i :: 0 <= i < |ops| ==> ops[i].k != INVALID
    ensures RunReplies(P, Initial(P, d), ops) == MapReplies(map[], ops)
    ensures Models(E.Contents(P, RunEnd(P, Initial(P, d), ops)), MapAfter(map[], ops))
  {
    InitialContents(P, d);
    RunRefinesMap(P, Initial(P, d), map[], ops);
  }

  // The in-place and the copying build cannot be told apart.
  lemma BuildsAgree(P: E.Params, Q: E.Params, d: nat, ops: seq<Op>)
    requires P.Ok() && 1 <= d <= P.W && Legal(P, map[], ops) && Q == P.(inplace := !P.inplace)
    ensures E.Inv(P, Initial(P, d)) && E.Inv(Q, Initial(Q, d))
    ensures forall i :: 0 <= i < |ops| ==> ops[i].k != INVALID
    ensures RunReplies(P, Initial(P, d), ops) == RunReplies(Q, Initial(Q, d), ops)
    ensures E.Contents(P, RunEnd(P, Initial(P, d), ops)) == E.Contents(Q, RunEnd(Q, Initial(Q, d), ops))
  {
    LegalInBoth(P, Q, map[], ops);
    TableRefinesMap(P, d, ops);
    TableRefinesMap(Q, d, ops);
    hide E.Contents, RunReplies, RunEnd, Initial, Models, Legal, E.Inv;
    SameModel(E.Contents(P, RunEnd(P, Initial(P, d), ops)), E.Contents(Q, RunEnd(Q, Initial(Q, d), ops)),
              MapAfter(map[], ops));
  }

  lemma SameModel(c: multiset<Pair>, c': multiset<Pair>, m: map<Key, Value>)
    requires Models(c, m) && Models(c', m)
    ensures c == c'
  {
    assert forall p: Pair :: c[p] == c'[p];
  }

  lemma {:induction false} LegalInBoth(P: E.Params, Q: E.Params, m: map<Key, Value>, ops: seq<Op>)
    requires Legal(P, m, ops) && Q == P.(inplace := !P.inplace)
    ensures Legal(Q, m, ops)
    decreases |ops|
  {
    if ops != [] {
      assert Collide(P, m, P.hash(ops[0].k)) == Collide(Q, m, Q.hash(ops[0].k));
      LegalInBoth(P, Q, MapStep(m, ops[0]).0, ops[1..]);
    }
  }
}
