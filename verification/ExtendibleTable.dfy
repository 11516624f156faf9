/**
  The classes of index/extendible_hash.h as one thread runs them.  Every method is proved to do
  to the heap what the functions of module Extendible do to its abstract value.
*/
module ExtendibleTable {
  import opened Pairs
  import opened Bits
  import opened Probing
  import opened TableSpec
  import E = Extendible
  import ExtendibleRuns

  ghost predicate HasFree(s: seq<Pair>) {
    exists i :: 0 <= i < |s| && s[i].key == INVALID
  }

  class Segment {
    const slots: array<Pair>
    var localDepth: nat

    constructor (n: nat, depth: nat)
      ensures fresh(slots) && localDepth == depth
      ensures slots[..] == seq(n, _ => EMPTY)
    {
      slots := new Pair[n](_ => EMPTY);
      localDepth := depth;
    }

    // Reports failure only when no slot is free.
    method Insert4split(P: E.Params, p: Pair, loc: nat) returns (ok: bool)
      requires P.Ok() && slots.Length == P.N && loc == E.Home(P.hash(p.key))
      modifies slots
      ensures slots[..] == E.Place(P, old(slots[..]), p)
      ensures ok <==> HasFree(old(slots[..]))
    {
      FindCovers(slots[..], loc, KeyIs(INVALID));
      var i := 0;
      while i < P.N
        invariant 0 <= i <= P.N
        invariant slots[..] == old(slots[..])
        invariant Find(slots[..], loc, 0, KeyIs(INVALID)) == Find(slots[..], loc, i, KeyIs(INVALID))
      {
        var slot := Slot(loc, i, P.N);
        if slots[slot].key == INVALID {
          slots[slot] := p;
          return true;
        }
        i := i + 1;
      }
      return false;
    }

    // This segment has taken its share of the first i slots of s.
    ghost predicate Half(P: E.Params, s: seq<Pair>, i: nat, l: nat, b: nat)
      requires P.Ok() && i <= |s| && l < P.W
      reads this, slots
    {
      localDepth == l + 1 && slots[..] == Moved(P, s, i, l, b)
    }

    // Insert4split of slot i of a segment that is being split.
    method Receive(P: E.Params, p: Pair, ghost s: seq<Pair>, ghost i: nat, ghost l: nat, ghost b: nat)
      returns (ok: bool)
      requires P.Ok() && |s| == P.N && i < P.N && l < P.W && p == s[i] && E.NextBit(P, P.hash(p.key), l) == b
      requires Half(P, s, i, l, b)
      modifies slots
      ensures Half(P, s, i + 1, l, b)
      ensures E.Keyed(s) ==> ok
    {
      if E.Keyed(s) { RoomLeft(P, s, i, l, b); }
      MovedStep(P, s, i, l, b);
      ok := Insert4split(P, p, E.Home(P.hash(p.key)));
    }

    // Slot i belongs to the other half.
    lemma Skip(P: E.Params, s: seq<Pair>, i: nat, l: nat, b: nat)
      requires P.Ok() && |s| == P.N && i < P.N && l < P.W && E.NextBit(P, P.hash(s[i].key), l) != b
      requires Half(P, s, i, l, b)
      ensures Half(P, s, i + 1, l, b)
    {
      MovedStep(P, s, i, l, b);
    }

    static method NewHalf(P: E.Params, ghost s: seq<Pair>, l: nat, ghost b: nat) returns (r: Segment)
      requires P.Ok() && l < P.W
      ensures fresh(r) && fresh(r.slots) && r.Half(P, s, 0, l, b)
    {
      r := new Segment(P.N, l + 1);
      MovedEnds(P, s, l, b);
    }

    // One round of the loop of Split, for slot i.
    method MoveSlot(P: E.Params, s0: Segment, s1: Segment, i: nat) returns (ok: bool)
      requires P.Ok() && slots.Length == P.N && localDepth < P.W && i < P.N
      requires s1 != this && s1.slots != slots && s1.Half(P, slots[..], i, localDepth, 1)
      requires !P.inplace ==> s0 != s1 && s0.slots != s1.slots && s0.slots != slots
      requires !P.inplace ==> s0.Half(P, slots[..], i, localDepth, 0)
      modifies if P.inplace then {s1.slots} else {s0.slots, s1.slots}
      ensures slots[..] == old(slots[..])
      ensures s1.Half(P, slots[..], i + 1, localDepth, 1)
      ensures !P.inplace ==> s0.Half(P, slots[..], i + 1, localDepth, 0)
      ensures E.Keyed(slots[..]) ==> ok
    {
      ghost var s, l := slots[..], localDepth;
      var p := slots[i];
      assert p == s[i];
      var fHash := P.hash(p.key);
      BitTest(P, fHash, l);
      ok := true;
      // f_hash & pattern, with pattern == 1 << (W - local_depth - 1)
      if Shr(fHash, P.W - localDepth - 1) % 2 == 1 {
        if !P.inplace { s0.Skip(P, s, i, l, 0); }
        ok := s1.Receive(P, p, s, i, l, 1);
      } else {
        s1.Skip(P, s, i, l, 1);
        if !P.inplace {
          ok := s0.Receive(P, p, s, i, l, 0);
        }
      }
    }

    // errors counts the "something wrong" messages.
    method Split(P: E.Params) returns (s0: Segment, s1: Segment, errors: nat)
      requires P.Ok() && slots.Length == P.N && localDepth < P.W
      ensures fresh(s1) && fresh(s1.slots) && s1.Half(P, slots[..], P.N, localDepth, 1)
      ensures if P.inplace then s0 == this
              else fresh(s0) && fresh(s0.slots) && s0 != s1 && s0.slots != s1.slots
                   && s0.Half(P, slots[..], P.N, localDepth, 0)
      ensures E.Keyed(slots[..]) ==> errors == 0
    {
      hide E.Keyed, Moved;
      errors := 0;
      s1 := NewHalf(P, slots[..], localDepth, 1);
      if P.inplace {
        s0 := this;
      } else {
        s0 := NewHalf(P, slots[..], localDepth, 0);
      }
      var i := 0;
      while i < P.N
        invariant 0 <= i <= P.N && slots[..] == old(slots[..])
        invariant s1 != this && s1.slots != slots
        invariant s1.Half(P, slots[..], i, localDepth, 1)
        invariant !P.inplace ==> s0.Half(P, slots[..], i, localDepth, 0)
        invariant E.Keyed(slots[..]) ==> errors == 0
      {
        var ok := MoveSlot(P, s0, s1, i);
        if !ok { errors := errors + 1; }
        i := i + 1;
      }
    }
  }

  lemma BitTest(P: E.Params, h: nat, l: nat)
    requires l < P.W
    ensures Shr(h, P.W - l - 1) % 2 == E.NextBit(P, h, l)
  {}

  // The new segment after the first i slots of s have been moved or skipped.
  ghost function Moved(P: E.Params, s: seq<Pair>, i: nat, l: nat, b: nat): (r: seq<Pair>)
    requires P.Ok() && i <= |s| && l < P.W
    ensures |r| == P.N
  {
    E.Fill(P, Filter(s[..i], E.BitIs(P, l, b)))
  }

  lemma MovedEnds(P: E.Params, s: seq<Pair>, l: nat, b: nat)
    requires P.Ok() && l < P.W
    ensures Moved(P, s, 0, l, b) == seq(P.N, _ => EMPTY)
    ensures Moved(P, s, |s|, l, b) == E.Fill(P, Filter(s, E.BitIs(P, l, b)))
  {
    assert s[..|s|] == s;
  }

  lemma FillSnoc(P: E.Params, ps: seq<Pair>, p: Pair)
    requires P.Ok()
    ensures E.Fill(P, ps + [p]) == E.Place(P, E.Fill(P, ps), p)
  {
    assert (ps + [p])[..|ps|] == ps;
  }

  lemma MovedStep(P: E.Params, s: seq<Pair>, i: nat, l: nat, b: nat)
    requires P.Ok() && i < |s| && l < P.W
    ensures Moved(P, s, i + 1, l, b)
         == if E.BitIs(P, l, b)(s[i]) then E.Place(P, Moved(P, s, i, l, b), s[i]) else Moved(P, s, i, l, b)
  {
    var q := E.BitIs(P, l, b);
    var f := Filter(s[..i], q);
    FilterSnoc(s, i, q);
    if q(s[i]) {
      FillSnoc(P, f, s[i]);
    } else {
      assert f + [] == f;
    }
  }

  lemma FillHasRoom(P: E.Params, f: seq<Pair>)
    requires P.Ok() && E.Keyed(f) && |f| < P.N
    ensures HasFree(E.Fill(P, f))
  {
    E.FillBag(P, f);
    var r := E.Fill(P, f);
    assert multiset(r)[EMPTY] >= 1;
    BagMember(r, EMPTY);
  }

  // While pairs are being moved the new segment has a free slot.
  lemma RoomLeft(P: E.Params, s: seq<Pair>, i: nat, l: nat, b: nat)
    requires P.Ok() && |s| == P.N && i < P.N && l < P.W && E.Keyed(s)
    ensures HasFree(Moved(P, s, i, l, b))
  {
    E.FilterKeyed(s[..i], E.BitIs(P, l, b));
    FillHasRoom(P, Filter(s[..i], E.BitIs(P, l, b)));
  }

  // How a round of Insert ends.
  datatype Round = Stored | Split | Stuck

  // floor(log2(n))
  function Log2(n: nat): nat {
    if n < 2 then 0 else 1 + Log2(n / 2)
  }

  // The largest power of two that is not above n.
  lemma {:induction false} Log2Bounds(n: nat)
    requires n >= 1
    ensures Pow2(Log2(n)) <= n < 2 * Pow2(Log2(n))
    decreases n
  {
    if n >= 2 {
      Log2Bounds(n / 2);
      assert Pow2(Log2(n)) == 2 * Pow2(Log2(n / 2));
    }
  }

  lemma InitialDepth(P: E.Params, initCap: nat)
    requires P.Ok() && 2 <= initCap < 2 * Pow2(P.W)
    ensures 1 <= Log2(initCap) <= P.W && Pow2(Log2(initCap)) <= initCap < 2 * Pow2(Log2(initCap))
    ensures E.Inv(P, ExtendibleRuns.Initial(P, Log2(initCap)))
  {
    Log2Bounds(initCap);
    hide Pow2;
    PowerBelow(initCap, P.W, Log2(initCap));
    hide Log2;
    ExtendibleRuns.InitialInv(P, Log2(initCap));
  }

  lemma Pow2Of4()
    ensures Pow2(4) == 16
  {}

  lemma PowerBelow(n: nat, d: nat, e: nat)
    requires Pow2(e) <= n < 2 * Pow2(d)
    ensures e <= d
  {
    if d < e {
      assert Pow2(d + 1) == 2 * Pow2(d);
      hide Pow2;
      Pow2Monotone(d + 1, e);
    }
  }

  class Directory {
    const entries: array<Segment?>
    const depth: nat
    var sema: int

    constructor (d: nat)
      ensures fresh(entries) && entries.Length == Pow2(d) && depth == d && sema == 0
    {
      entries := new Segment?[Pow2(d)];
      depth := d;
      sema := 0;
    }

    // With one thread every compare-and-swap succeeds; a non-zero count would make it spin.
    method Suspend() returns (ok: bool)
      requires sema <= 0
      modifies this`sema
      ensures ok <==> old(sema) == 0
      ensures sema == if ok then -1 else old(sema)
    {
      var val := sema;
      if val < 0 { return false; }
      sema := -1;
      return true;
    }

    method Lock() returns (ok: bool)
      modifies this`sema
      ensures ok <==> old(sema) > -1
      ensures sema == if ok then old(sema) + 1 else old(sema)
    {
      var val := sema;
      if val > -1 {
        sema := val + 1;
        return true;
      }
      return false;
    }

    method Unlock()
      modifies this`sema
      ensures sema == old(sema) - 1
    {
      sema := sema - 1;
    }

    // The directory of twice the size, with the halves of the segment at entry x.
    method Doubled(x: nat, s0: Segment, s1: Segment) returns (d: Directory)
      requires x < entries.Length == Pow2(depth)
      ensures fresh(d) && fresh(d.entries) && d.depth == depth + 1 && d.sema == 0
      ensures d.entries.Length == 2 * entries.Length
      ensures forall i :: 0 <= i < d.entries.Length ==>
                d.entries[i] == if i == 2 * x then s0 else if i == 2 * x + 1 then s1 else entries[i / 2]
    {
      d := new Directory(depth + 1);
      var i := 0;
      while i < entries.Length
        invariant 0 <= i <= entries.Length
        invariant forall m :: 0 <= m < 2 * i ==>
                    d.entries[m] == if m == 2 * x then s0 else if m == 2 * x + 1 then s1 else entries[m / 2]
        modifies d.entries
      {
        if i == x {
          d.entries[2 * i] := s0;
          d.entries[2 * i + 1] := s1;
        } else {
          d.entries[2 * i] := entries[i];
          d.entries[2 * i + 1] := entries[i];
        }
        i := i + 1;
      }
    }

    // What entry i names after the halves of the segment of depth l at entry x are published.
    ghost function Published(was: seq<Segment?>, inplace: bool, x: nat, l: nat, s0: Segment, s1: Segment,
                             i: nat): Segment?
      requires l < depth && i < |was|
    {
      var half := Shr(i, depth - l - 1);
      if half == 2 * Shr(x, depth - l) + 1 then s1
      else if half == 2 * Shr(x, depth - l) && !inplace then s0
      else was[i]
    }

    method Fill(from: nat, count: nat, s: Segment)
      requires from + count <= entries.Length
      modifies entries
      ensures forall i :: 0 <= i < entries.Length ==>
                entries[i] == if from <= i < from + count then s else old(entries[i])
    {
      var i := 0;
      while i < count
        invariant 0 <= i <= count
        invariant forall m :: 0 <= m < entries.Length ==>
                    entries[m] == if from <= m < from + i then s else old(entries[m])
      {
        entries[from + i] := s;
        i := i + 1;
      }
    }

    // Lines 322-354: both branches of a split that does not double the directory.
    method Publish(inplace: bool, x: nat, l: nat, s0: Segment, s1: Segment)
      requires x < entries.Length == Pow2(depth) && l < depth
      modifies entries
      ensures forall i :: 0 <= i < entries.Length ==>
                entries[i] == Published(old(entries[..]), inplace, x, l, s0, s1, i)
    {
      if depth == l + 1 {
        assert Shr(x, 1) == Shr(x / 2, 0);
        if x % 2 == 0 {
          EvenBelow(x, depth);
          entries[x + 1] := s1;
          if !inplace { entries[x] := s0; }
        } else {
          entries[x] := s1;
          if !inplace { entries[x - 1] := s0; }
        }
      } else {
        PublishBlock(inplace, x, l, s0, s1);
      }
    }

    method PublishBlock(inplace: bool, x: nat, l: nat, s0: Segment, s1: Segment)
      requires x < entries.Length == Pow2(depth) && l < depth
      modifies entries
      ensures forall i :: 0 <= i < entries.Length ==>
                entries[i] == Published(old(entries[..]), inplace, x, l, s0, s1, i)
    {
      hide Published, Pow2, Shr;
      var stride := Pow2(depth - l);
      var loc := x - x % stride;
      BlockInside(x, depth - l, depth);
      HalfOfBlock(depth - l);
      forall i | 0 <= i < entries.Length
        ensures Published(entries[..], inplace, x, l, s0, s1, i)
             == if loc + stride / 2 <= i < loc + stride then s1
                else if loc <= i < loc + stride / 2 && !inplace then s0 else entries[i]
      {
        PublishedIs(entries[..], inplace, x, l, s0, s1, i);
      }
      Fill(loc + stride / 2, stride / 2, s1);
      if !inplace {
        Fill(loc, stride / 2, s0);
      }
    }

    lemma PublishedIs(was: seq<Segment?>, inplace: bool, x: nat, l: nat, s0: Segment, s1: Segment, i: nat)
      requires l < depth && i < |was|
      ensures var stride := Pow2(depth - l);
              var loc := x - x % stride;
              Published(was, inplace, x, l, s0, s1, i)
                == if loc + stride / 2 <= i < loc + stride then s1
                   else if loc <= i < loc + stride / 2 && !inplace then s0 else was[i]
    {
      HalfOfBlock(depth - l);
      hide Pow2, Shr;
      HalfBlocks(x, depth - l, i);
    }
  }

  lemma HalfOfBlock(n: nat)
    requires n >= 1
    ensures Pow2(n) == 2 * (Pow2(n) / 2)
  {
    var q := Pow2(n - 1);
    assert Pow2(n) == 2 * q;
    hide Pow2;
    assert 2 * q / 2 == q;
  }

  // sum of cnt * n slots, as a percentage
  function Percent(sum: nat, cnt: nat, n: nat): (r: real)
    requires cnt > 0 && n > 0
    ensures r * (cnt * n) as real == sum as real * 100.0
  {
    ProductAsReal(cnt, n);
    Cancels(sum as real, cnt as real * n as real);
    sum as real / (cnt as real * n as real) * 100.0
  }

  lemma Cancels(s: real, d: real)
    requires d > 0.0
    ensures s / d * 100.0 * d == s * 100.0
  {
    assert s / d * d == s;
    assert s / d * 100.0 * d == (s / d * d) * 100.0;
  }

  lemma {:induction false} ProductAsReal(a: nat, b: nat)
    ensures (a * b) as real == a as real * b as real
    ensures a > 0 && b > 0 ==> a as real * b as real > 0.0
    decreases a
  {
    if a > 0 {
      ProductAsReal(a - 1, b);
      assert a * b == (a - 1) * b + b;
      assert a as real == (a - 1) as real + 1.0;
    }
  }

  lemma EvenBelow(x: nat, d: nat)
    requires d >= 1 && x < Pow2(d) && x % 2 == 0
    ensures x + 1 < Pow2(d)
  {}

  class ExtendibleHash {
    const P: E.Params
    var dir: Directory
    ghost var table: E.Table
    ghost var arena: seq<Segment>  // the segments in the order of table.segs
    ghost var Repr: set<object>

    ghost predicate Valid()
      reads this, Repr
    {
      && {this, dir, dir.entries} <= Repr
      && E.Inv(P, table)
      && Segments()
      && dir.depth == table.depth && dir.sema == 0
      && Names(dir, table.dir, arena)
    }

    ghost predicate Segments()
      reads this, Repr
    {
      && |arena| == |table.segs|
      && (forall j :: 0 <= j < |arena| ==> arena[j] in Repr && arena[j].slots in Repr)
      && (forall i, j :: 0 <= i < j < |arena| ==> arena[i] != arena[j] && arena[i].slots != arena[j].slots)
      && (forall j :: 0 <= j < |arena| ==> Mirrors(arena[j], table.segs[j]))
    }

    static ghost predicate Mirrors(a: Segment, s: E.Seg)
      reads a, a.slots
    {
      a.localDepth == s.depth && a.slots[..] == s.slots
    }

    // initCap is rounded down to a power of two.
    constructor (params: E.Params, initCap: nat)
      requires params.Ok() && 2 <= initCap < 2 * Pow2(params.W)
      ensures Valid() && fresh(Repr) && P == params
      ensures 1 <= dir.depth <= P.W && Pow2(dir.depth) <= initCap < 2 * Pow2(dir.depth)
      ensures |arena| == dir.entries.Length == Pow2(dir.depth)
      ensures table == ExtendibleRuns.Initial(P, dir.depth)
    {
      P := params;
      var d := Log2(initCap);
      InitialDepth(params, initCap);
      dir := new Directory(d);
      table := ExtendibleRuns.Initial(params, d);
      arena := [];
      new;
      Repr := {this, dir, dir.entries};
      hide E.Inv, Log2, Pow2;
      var i := 0;
      while i < dir.entries.Length
        invariant 0 <= i <= dir.entries.Length == |table.dir| == |table.segs|
        invariant fresh(Repr) && {this, dir, dir.entries} <= Repr && Building(i)
        modifies dir.entries, `Repr, `arena
      {
        AddSegment(i, d);
        i := i + 1;
      }
    }

    // The constructor has made the first n segments.
    ghost predicate Building(n: nat)
      reads this, Repr, dir.entries
    {
      && |arena| == n <= |table.segs| && n <= dir.entries.Length
      && (forall j :: 0 <= j < n ==> arena[j] in Repr && arena[j].slots in Repr)
      && (forall j, m :: 0 <= j < m < n ==> arena[j] != arena[m] && arena[j].slots != arena[m].slots)
      && (forall j :: 0 <= j < n ==> Mirrors(arena[j], table.segs[j]) && dir.entries[j] == arena[j])
    }

    method AddSegment(i: nat, d: nat)
      requires {this, dir, dir.entries} <= Repr && Building(i) && i < dir.entries.Length && i < |table.segs|
      requires table.segs[i].depth == d && table.segs[i].slots == seq(P.N, _ => EMPTY)
      modifies dir.entries, `Repr, `arena
      ensures Building(i + 1) && old(Repr) <= Repr && fresh(Repr - old(Repr))
    {
      var s := new Segment(P.N, d);
      dir.entries[i] := s;
      arena := arena + [s];
      Repr := Repr + {s, s.slots};
    }

    // The stored pairs.
    ghost function Contents(): multiset<Pair>
      requires Valid()
      reads this, Repr
    {
      E.Contents(P, table)
    }

    // The segment of a hash value.
    method Target(h: nat) returns (target: Segment)
      requires Valid() && h < Pow2(P.W)
      ensures target == arena[E.Route(P, table, h)]
      ensures Mirrors(target, table.segs[E.Route(P, table, h)])
      ensures target.slots.Length == P.N && 1 <= target.localDepth <= dir.depth <= P.W
      ensures target in Repr && target.slots in Repr
    {
      ShrBound(h, P.W - dir.depth, dir.depth);
      var x := Shr(h, P.W - dir.depth);
      assert x == E.Index(P, table, h);
      assert E.SegOk(P, table, table.segs[E.Route(P, table, h)]);
      target := dir.entries[x];
    }

    // The scans of Update, Delete and Get.
    method ScanKey(target: Segment, key: Key) returns (i: nat)
      requires Valid() && target == arena[E.Route(P, table, P.hash(key))]
      requires target.slots.Length == P.N
      ensures i == E.KeyStep(P, table, key)
    {
      var fIdx := E.Home(P.hash(key));
      ghost var s := target.slots[..];
      assert Mirrors(target, table.segs[E.Route(P, table, P.hash(key))]);
      i := 0;
      while i < P.N
        invariant 0 <= i <= P.N
        invariant Find(s, fIdx, 0, KeyIs(key)) == Find(s, fIdx, i, KeyIs(key))
      {
        var loc := Slot(fIdx, i, P.N);
        if target.slots[loc].key == key { return; }
        i := i + 1;
      }
    }

    // The probe of Insert: a free slot or one whose key no longer belongs to the segment.
    method ScanFree(target: Segment, h: nat) returns (i: nat)
      requires Valid() && h < Pow2(P.W) && target == arena[E.Route(P, table, h)]
      requires target.slots.Length == P.N && target.localDepth <= P.W
      ensures i == E.FreeStep(P, table, h)
    {
      var fIdx := E.Home(h);
      var l := target.localDepth;
      var pattern := Shr(h, P.W - l);
      ghost var s := target.slots[..];
      assert Mirrors(target, table.segs[E.Route(P, table, h)]);
      i := 0;
      while i < P.N
        invariant 0 <= i <= P.N
        invariant Find(s, fIdx, 0, E.Dead(P, l, pattern)) == Find(s, fIdx, i, E.Dead(P, l, pattern))
      {
        var loc := Slot(fIdx, i, P.N);
        var k := target.slots[loc].key;
        if Shr(P.hash(k), P.W - l) != pattern || k == INVALID { return; }
        i := i + 1;
      }
    }

    // One slot of segment j is overwritten.
    method Write(ghost j: nat, target: Segment, loc: nat, p: Pair)
      requires Valid() && j < |arena| && target == arena[j] && loc < target.slots.Length
      modifies target.slots, this`table
      ensures Valid()
      ensures loc < |old(table).segs[j].slots| && table == E.PutSlot(old(table), j, loc, p)
    {
      assert Mirrors(target, table.segs[j]);
      E.PutSlotInv(P, table, j, loc, p);
      target.slots[loc] := p;
      ghost var was := table;
      table := E.PutSlot(table, j, loc, p);
      forall m | 0 <= m < |arena| ensures Mirrors(arena[m], table.segs[m]) {
        assert old(Mirrors(arena[m], was.segs[m]));
      }
    }

    method Update(key: Key, value: Value) returns (found: bool)
      requires Valid()
      modifies Repr
      ensures Valid() && Repr == old(Repr)
      ensures (table, found) == E.Update(P, old(table), key, value)
    {
      var target := Target(P.hash(key));
      var i := ScanKey(target, key);
      found := i < P.N;
      if found {
        var loc := Slot(E.Home(P.hash(key)), i, P.N);
        Write(E.Route(P, table, P.hash(key)), target, loc, Pair(key, value));
      }
    }

    method Delete(key: Key) returns (found: bool)
      requires Valid()
      modifies Repr
      ensures Valid() && Repr == old(Repr)
      ensures (table, found) == E.Delete(P, old(table), key)
    {
      var target := Target(P.hash(key));
      var i := ScanKey(target, key);
      found := i < P.N;
      if found {
        var loc := Slot(E.Home(P.hash(key)), i, P.N);
        Write(E.Route(P, table, P.hash(key)), target, loc, Pair(INVALID, target.slots[loc].value));
      }
    }

    method Get(key: Key) returns (value: Value)
      requires Valid()
      ensures value == E.Get(P, table, key)
    {
      var target := Target(P.hash(key));
      var i := ScanKey(target, key);
      if i < P.N {
        var loc := Slot(E.Home(P.hash(key)), i, P.N);
        return target.slots[loc].value;
      }
      return NONE;
    }

    // Lines 291-311: replace the directory by one of twice the size.
    method DoubleDirectory(x: nat, s0: Segment, s1: Segment, ghost j: nat, ghost dir': seq<nat>)
      requires j < |arena| && x < dir.entries.Length == Pow2(dir.depth) && dir.sema == 0
      requires Names(dir, table.dir, arena) && DoubledDir(table.dir, dir', x, j, |arena|)
      modifies this`dir, dir`sema
      ensures fresh(dir) && fresh(dir.entries) && dir.depth == old(dir.depth) + 1 && dir.sema == 0
      ensures Names(dir, dir', arena[j := s0] + [s1])
    {
      var ok := dir.Suspend();
      dir := dir.Doubled(x, s0, s1);
    }

    // Lines 317-354: overwrite the block of the target in place.
    method OverwriteBlock(x: nat, l: nat, s0: Segment, s1: Segment, ghost j: nat, ghost dir': seq<nat>)
      requires j < |arena| && x < dir.entries.Length == Pow2(dir.depth) && dir.sema == 0 && l < dir.depth
      requires Names(dir, table.dir, arena)
      requires HalvedDir(table.dir, dir', dir.depth - l, Shr(x, dir.depth - l), j, |arena|)
      requires P.inplace ==> s0 == arena[j]
      modifies dir`sema, dir.entries
      ensures dir.sema == 0
      ensures Names(dir, dir', arena[j := s0] + [s1])
    {
      ghost var was := dir.entries[..];
      var ok := dir.Lock();
      dir.Publish(P.inplace, x, l, s0, s1);
      dir.Unlock();
      forall i | 0 <= i < |dir'|
        ensures dir'[i] < |arena| + 1 && dir.entries[i] == (arena[j := s0] + [s1])[dir'[i]]
      {
        assert was[i] == arena[table.dir[i]];
        assert dir.entries[i] == dir.Published(was, P.inplace, x, l, s0, s1, i);
      }
    }

    // Split of a full segment, with the directory still untouched.
    method Halve(target: Segment, ghost s: E.Seg) returns (s0: Segment, s1: Segment)
      requires P.Ok() && Mirrors(target, s) && s.depth < P.W && |s.slots| == P.N && E.Full(P, s)
      ensures fresh(s1) && fresh(s1.slots) && Mirrors(s1, E.Split(P, s).1)
      ensures if P.inplace then s0 == target
              else fresh(s0) && fresh(s0.slots) && s0 != s1 && s0.slots != s1.slots && Mirrors(s0, E.Split(P, s).0)
    {
      E.FullKeyed(P, s);
      var errors: nat;
      s0, s1, errors := target.Split(P);
      assert errors == 0;
      MovedEnds(P, s.slots, s.depth, 0);
      MovedEnds(P, s.slots, s.depth, 1);
    }

    // Lines 287-354: split the full target and make the directory name the halves.
    method PublishHalves(target: Segment, x: nat, ghost j: nat, ghost s: E.Seg, ghost dir': seq<nat>)
      returns (s0: Segment, s1: Segment)
      requires P.Ok() && Mirrors(target, s) && s.depth < P.W && |s.slots| == P.N && E.Full(P, s)
      requires j < |arena| && target == arena[j] && s.depth <= dir.depth
      requires x < dir.entries.Length == Pow2(dir.depth) && dir.sema == 0
      requires Names(dir, table.dir, arena)
      requires s.depth == dir.depth ==> DoubledDir(table.dir, dir', x, j, |arena|)
      requires s.depth < dir.depth ==>
                 HalvedDir(table.dir, dir', dir.depth - s.depth, Shr(x, dir.depth - s.depth), j, |arena|)
      modifies this`dir, dir`sema, dir.entries
      ensures dir == old(dir) || (fresh(dir) && fresh(dir.entries))
      ensures dir.sema == 0 && dir.depth == (if s.depth == old(dir.depth) then s.depth + 1 else old(dir.depth))
      ensures Names(dir, dir', arena[j := s0] + [s1])
      ensures fresh(s1) && fresh(s1.slots) && Mirrors(s1, E.Split(P, s).1)
      ensures if P.inplace then s0 == target
              else fresh(s0) && fresh(s0.slots) && s0 != s1 && s0.slots != s1.slots && Mirrors(s0, E.Split(P, s).0)
    {
      hide E.Full, E.Split, DoubledDir, HalvedDir;
      var l := target.localDepth;
      s0, s1 := Halve(target, s);
      if l == dir.depth {
        DoubleDirectory(x, s0, s1, j, dir');
      } else {
        OverwriteBlock(x, l, s0, s1, j, dir');
      }
    }

    // The old segment's local depth is raised and the new segments take their place.
    method Finish(s0: Segment, s1: Segment, ghost j: nat, ghost t': E.Table, ghost left: E.Seg, ghost right: E.Seg)
      requires this in Repr && Segments() && j < |arena| && E.Inv(P, t')
      requires t'.segs == table.segs[j := left] + [right]
      requires left.depth == table.segs[j].depth + 1
      requires P.inplace ==> s0 == arena[j] && left.slots == table.segs[j].slots
      requires !P.inplace ==> s0 !in Repr && s0.slots !in Repr && s0 != s1 && s0.slots != s1.slots && Mirrors(s0, left)
      requires s1 !in Repr && s1.slots !in Repr && Mirrors(s1, right)
      requires dir.depth == t'.depth && dir.sema == 0 && Names(dir, t'.dir, arena[j := s0] + [s1])
      modifies this`table, this`arena, this`Repr, s0`localDepth
      ensures Valid() && table == t'
      ensures Repr == old(Repr) + {dir, dir.entries, s0, s0.slots, s1, s1.slots}
    {
      hide E.Inv;
      assert Mirrors(arena[j], table.segs[j]);
      if P.inplace {
        s0.localDepth := s0.localDepth + 1;
      }
      ghost var was, wasArena := table, arena;
      table := t';
      arena := arena[j := s0] + [s1];
      Repr := Repr + {dir, dir.entries, s0, s0.slots, s1, s1.slots};
      forall m | 0 <= m < |arena| ensures Mirrors(arena[m], table.segs[m]) {
        if m < |was.segs| && m != j { assert old(Mirrors(wasArena[m], was.segs[m])); }
      }
    }

    // Lines 287-361: split the full target and publish its halves.
    method SplitTarget(h: nat, target: Segment)
      requires Valid() && h < Pow2(P.W) && target == arena[E.Route(P, table, h)]
      requires target.localDepth < P.W
      requires E.SegOk(P, table, table.segs[E.Route(P, table, h)])
      requires E.Full(P, table.segs[E.Route(P, table, h)])
      modifies Repr
      ensures Valid() && fresh(Repr - old(Repr))
      ensures table == E.SplitStep(P, old(table), h)
    {
      ghost var j := E.Route(P, table, h);
      assert Mirrors(target, table.segs[j]);
      ghost var t' := SplitFacts(P, table, h);
      var x := Shr(h, P.W - dir.depth);
      SplitAndPublish(target, x, j, t');
    }

    method SplitAndPublish(target: Segment, x: nat, ghost j: nat, ghost t': E.Table)
      requires {this, dir, dir.entries} <= Repr && Segments() && Names(dir, table.dir, arena)
      requires dir.depth == table.depth && dir.sema == 0
      requires j < |arena| && target == arena[j] && Mirrors(target, table.segs[j])
      requires E.Inv(P, t') && IsSplit(P, table, t', j, x) && E.Full(P, table.segs[j])
      modifies Repr
      ensures Valid() && fresh(Repr - old(Repr)) && table == t'
    {
      hide E.Full, E.Split;
      ghost var s := table.segs[j];
      var s0, s1 := PublishHalves(target, x, j, s, t'.dir);
      Finish(s0, s1, j, t', E.Split(P, s).0, E.Split(P, s).1);
    }

    // One round of Insert, from RETRY on.
    method InsertRound(key: Key, value: Value) returns (r: Round)
      requires Valid()
      modifies Repr
      ensures Valid() && fresh(Repr - old(Repr))
      ensures r.Stored? ==> E.Insert(P, old(table), key, value) == E.Placed(table)
      ensures r.Stuck? ==> E.Insert(P, old(table), key, value) == E.NoBitLeft(table)
      ensures r.Split? ==> E.Insert(P, old(table), key, value) == E.Insert(P, table, key, value)
      ensures r.Split? ==> E.Depth(P, old(table), key) < E.Depth(P, table, key)
    {
      hide E.Insert, E.Full, E.FreeStep, E.PutSlot, E.SplitStep, E.Inv, E.Home, Slot, Pow2;
      var h := P.hash(key);
      E.HashBound(P, table, key);
      E.InsertRound(P, table, key, value);
      var target := Target(h);
      var i := ScanFree(target, h);
      if i < P.N {
        var loc := Slot(E.Home(h), i, P.N);
        Write(E.Route(P, table, h), target, loc, Pair(key, value));
        return Stored;
      }
      if target.localDepth == P.W {
        return Stuck;
      }
      SplitRound(key, value, target);
      return Split;
    }

    // The end of a round whose probe has failed.
    method SplitRound(key: Key, ghost value: Value, target: Segment)
      requires Valid() && target == arena[E.Route(P, table, P.hash(key))]
      requires target.localDepth < P.W && E.FreeStep(P, table, P.hash(key)) == P.N
      modifies Repr
      ensures Valid() && fresh(Repr - old(Repr))
      ensures E.Insert(P, old(table), key, value) == E.Insert(P, table, key, value)
      ensures E.Depth(P, old(table), key) < E.Depth(P, table, key)
    {
      hide E.Insert, E.Full, E.FreeStep, E.SplitStep;
      assert Mirrors(target, table.segs[E.Route(P, table, P.hash(key))]);
      assert E.SegOk(P, table, table.segs[E.Route(P, table, P.hash(key))]);
      E.ProbeFailsIffFull(P, table, P.hash(key));
      E.InsertAfterSplit(P, table, key, value);
      SplitTarget(P.hash(key), target);
    }

    // Rounds until the pair is stored; placed is false when the bit to split on does not exist.
    method Insert(key: Key, value: Value) returns (placed: bool)
      requires Valid()
      modifies Repr
      ensures Valid() && fresh(Repr - old(Repr))
      ensures E.Insert(P, old(table), key, value) == if placed then E.Placed(table) else E.NoBitLeft(table)
    {
      hide E.Insert, E.Inv;
      while true
        invariant Valid() && fresh(Repr - old(Repr))
        invariant E.Insert(P, table, key, value) == E.Insert(P, old(table), key, value)
        decreases P.W - E.Depth(P, table, key)
      {
        var r := InsertRound(key, value);
        match r
        case Stored => return true;
        case Stuck => return false;
        case Split =>
      }
    }

    // One operation; an insert that runs out of hash bits leaves the table of its last round.
    method Apply(op: Op) returns (r: Reply)
      requires Valid() && op.k != INVALID
      modifies Repr
      ensures Valid() && fresh(Repr - old(Repr))
      ensures (table, r) == ExtendibleRuns.Step(P, old(table), op)
    {
      match op
      case Insert(k, v) =>
        var placed := Insert(k, v);
        r := Unit;
      case Update(k, v) =>
        var found := Update(k, v);
        r := Flag(found);
      case Delete(k) =>
        var found := Delete(k);
        r := Flag(found);
      case Get(k) =>
        var value := Get(k);
        r := Val(value);
    }

    // From a table that holds the map m, every legal run answers like the map.
    method Run(ops: seq<Op>, ghost m: map<Key, Value>) returns (replies: seq<Reply>)
      requires Valid() && Models(Contents(), m) && ExtendibleRuns.Legal(P, m, ops)
      modifies Repr
      ensures Valid() && fresh(Repr - old(Repr))
      ensures replies == MapReplies(m, ops)
      ensures Models(Contents(), MapAfter(m, ops))
    {
      hide *;
      ghost var t := table;
      ValidTable();
      ExtendibleRuns.LegalKeys(P, m, ops);
      ExtendibleRuns.RunRefinesMap(P, t, m, ops);
      replies := [];
      var i := 0;
      assert ops[0..] == ops;
      while i < |ops|
        invariant 0 <= i <= |ops| && Valid() && fresh(Repr - old(Repr)) && E.Inv(P, table)
        invariant replies + ExtendibleRuns.RunReplies(P, table, ops[i..]) == ExtendibleRuns.RunReplies(P, t, ops)
        invariant ExtendibleRuns.RunEnd(P, table, ops[i..]) == ExtendibleRuns.RunEnd(P, t, ops)
      {
        ExtendibleRuns.RunNext(P, table, ops[i..]);
        assert ops[i..][0] == ops[i] && ops[i..][1..] == ops[i + 1..];
        var r := Apply(ops[i]);
        replies := replies + [r];
        i := i + 1;
        ValidTable();
      }
      ExtendibleRuns.RunNone(P, table, ops[i..]);
      ValidTable();
    }

    lemma ValidTable()
      requires Valid()
      ensures E.Inv(P, table) && Contents() == E.Contents(P, table)
    {
      hide E.Inv, E.Contents;
    }

    // One step of the walks below: the target at position i and the position of the next block.
    method Walk(i: nat) returns (target: Segment, next: nat, ghost s: E.Seg)
      requires Valid() && i < dir.entries.Length && E.Aligned(P, table, i)
      ensures E.SegOk(P, table, s) && table.depth <= P.W && dir.depth == table.depth && Mirrors(target, s)
      ensures s.prefix == Shr(i, dir.depth - target.localDepth) && target.slots.Length == P.N
      ensures i < next <= |table.dir| == dir.entries.Length && E.Aligned(P, table, next)
      ensures |E.Seen(table, next)| == |E.Seen(table, i)| + 1
      ensures |E.ContentsFrom(P, table, i)|
           == |Filter(s.slots, E.Live(P, s.depth, s.prefix))| + |E.ContentsFrom(P, table, next)|
    {
      hide E.Inv, E.Aligned, E.Seen, E.ContentsFrom;
      ghost var j;
      j, s := E.WalkStep(P, table, i);
      target := dir.entries[i];
      assert Mirrors(target, s);
      var stride := Pow2(dir.depth - target.localDepth);
      next := i + stride;
    }

    // Strides from block to block, meeting every segment exactly once.
    method Capacity() returns (slots: nat)
      requires Valid()
      ensures slots == |arena| * P.N
    {
      hide E.Inv, E.Aligned, E.Seen, E.ContentsFrom, E.SegOk;
      var cnt, i := 0, 0;
      E.WalkStart(P, table);
      while i < dir.entries.Length
        invariant 0 <= i <= |table.dir| && E.Aligned(P, table, i)
        invariant |E.Seen(table, i)| == cnt
        decreases |table.dir| - i
      {
        var target, next;
        ghost var s;
        target, next, s := Walk(i);
        i := next;
        cnt := cnt + 1;
      }
      E.WalkEnd(P, table);
      slots := cnt * P.N;
    }

    // The capacity of a new table; the benchmark makes one of 16 segments of 1024 slots
    // (util/config.h:82-84).
    static method NewCapacity(params: E.Params, initCap: nat) returns (slots: nat)
      requires params.Ok() && 2 <= initCap < 2 * Pow2(params.W)
      ensures forall d :: Pow2(d) <= initCap < 2 * Pow2(d) ==> slots == Pow2(d) * params.N
      ensures initCap == 16 && params.N == 1024 ==> slots == 16384
    {
      var t := new ExtendibleHash(params, initCap);
      slots := t.Capacity();
      ghost var e := t.dir.depth;
      hide *;
      forall d | Pow2(d) <= initCap < 2 * Pow2(d) ensures slots == Pow2(d) * params.N {
        PowerBelow(initCap, d, e);
        PowerBelow(initCap, e, d);
      }
      assert Pow2(4) == 16 by { Pow2Of4(); }
    }

    // The percentage of slots that hold a stored pair, from two counters.
    method Utilization() returns (percent: real)
      requires Valid()
      ensures |arena| > 0
      ensures percent * (|arena| * P.N) as real == |Contents()| as real * 100.0
    {
      hide *;
      ArenaNotEmpty();
      var sum, cnt := CountSlots();
      percent := Percent(sum, cnt, P.N);
    }

    lemma ArenaNotEmpty()
      requires Valid()
      ensures |arena| > 0 && P.N > 0
    {
      assert table.dir[0] < |table.segs|;
    }

    // The loop of Utilization: the slots that hold a stored pair, and the segments.
    method CountSlots() returns (sum: nat, cnt: nat)
      requires Valid()
      ensures sum == |Contents()| && cnt == |arena|
    {
      hide E.Inv, E.Aligned, E.Seen, E.ContentsFrom;
      sum, cnt := 0, 0;
      var i := 0;
      E.WalkStart(P, table);
      while i < dir.entries.Length
        invariant 0 <= i <= |table.dir| && E.Aligned(P, table, i)
        invariant |E.Seen(table, i)| == cnt
        invariant sum + |E.ContentsFrom(P, table, i)| == |E.Contents(P, table)|
        decreases |table.dir| - i
      {
        var target, next;
        ghost var s;
        target, next, s := Walk(i);
        var n := CountLive(target, Shr(i, dir.depth - target.localDepth));
        sum := sum + n;
        i := next;
        cnt := cnt + 1;
      }
      E.WalkEnd(P, table);
    }

    // The inner loop of Utilization.
    method CountLive(target: Segment, pattern: nat) returns (n: nat)
      requires target.localDepth <= P.W && target.slots.Length == P.N
      ensures n == |Filter(target.slots[..], E.Live(P, target.localDepth, pattern))|
    {
      n := 0;
      ghost var s := target.slots[..];
      var j := 0;
      while j < P.N
        invariant 0 <= j <= P.N
        invariant n == |Filter(s[..j], E.Live(P, target.localDepth, pattern))|
      {
        FilterSnoc(s, j, E.Live(P, target.localDepth, pattern));
        var k := target.slots[j].key;
        if Shr(P.hash(k), P.W - target.localDepth) == pattern && k != INVALID {
          n := n + 1;
        }
        j := j + 1;
      }
      assert s[..P.N] == s;
    }
  }

  // What a split does to the table, in the terms of the heap operations.
  ghost predicate IsSplit(P: E.Params, t: E.Table, t': E.Table, j: nat, x: nat) {
    && P.Ok() && j < |t.segs| && x < |t.dir| == Pow2(t.depth)
    && var s := t.segs[j];
    && s.depth < P.W && s.depth <= t.depth && |s.slots| == P.N
    && t'.segs == t.segs[j := E.Split(P, s).0] + [E.Split(P, s).1]
    && E.Split(P, s).0.depth == s.depth + 1 && (P.inplace ==> E.Split(P, s).0.slots == s.slots)
    && t'.depth == (if s.depth == t.depth then t.depth + 1 else t.depth)
    && (s.depth == t.depth ==> DoubledDir(t.dir, t'.dir, x, j, |t.segs|))
    && (s.depth < t.depth ==> HalvedDir(t.dir, t'.dir, t.depth - s.depth, Shr(x, t.depth - s.depth), j, |t.segs|))
  }

  lemma SplitFacts(P: E.Params, t: E.Table, h: nat) returns (t': E.Table)
    requires E.Inv(P, t) && h < Pow2(P.W) && t.segs[E.Route(P, t, h)].depth < P.W
    ensures t' == E.SplitStep(P, t, h) && E.Inv(P, t')
    ensures IsSplit(P, t, t', E.Route(P, t, h), Shr(h, P.W - t.depth))
  {
    var j := E.Route(P, t, h);
    assert E.SegOk(P, t, t.segs[j]);
    E.SplitStepInv(P, t, h);
    t' := E.SplitStep(P, t, h);
    assert E.Index(P, t, h) == Shr(h, P.W - t.depth);
    if t.segs[j].depth == t.depth {
      DoubledEntries(P, t, h);
    } else {
      HalvedEntries(P, t, h);
    }
  }

  // The entries of a directory name segments of the arena.
  ghost predicate Names(d: Directory, dir: seq<nat>, arena: seq<Segment>)
    reads d.entries
  {
    && d.entries.Length == |dir|
    && forall i :: 0 <= i < |dir| ==> dir[i] < |arena| && d.entries[i] == arena[dir[i]]
  }

  ghost predicate DoubledDir(dir: seq<nat>, dir': seq<nat>, x: nat, j: nat, r: nat) {
    && |dir'| == 2 * |dir|
    && (forall i :: 0 <= i < |dir'| ==> dir'[i] == if i == 2 * x + 1 then r else dir[i / 2])
    && (forall i :: 0 <= i < |dir| ==> (dir[i] == j <==> i == x))
  }

  ghost predicate HalvedDir(dir: seq<nat>, dir': seq<nat>, n: nat, p: nat, j: nat, r: nat)
    requires n >= 1
  {
    && |dir'| == |dir|
    && (forall i :: 0 <= i < |dir| ==> dir'[i] == if Shr(i, n - 1) == 2 * p + 1 then r else dir[i])
    && (forall i :: 0 <= i < |dir| ==> (dir'[i] == j <==> Shr(i, n - 1) == 2 * p))
  }

  lemma DoubledEntries(P: E.Params, t: E.Table, h: nat)
    requires E.Inv(P, t) && h < Pow2(P.W) && t.segs[E.Route(P, t, h)].depth < P.W
    requires t.segs[E.Route(P, t, h)].depth == t.depth
    ensures DoubledDir(t.dir, E.SplitStep(P, t, h).dir, E.Index(P, t, h), E.Route(P, t, h), |t.segs|)
  {
    var j, x := E.Route(P, t, h), E.Index(P, t, h);
    var s := t.segs[j];
    assert t.dir[x] == j <==> E.InBlock(t, s, x);
    forall i | 0 <= i < |t.dir| ensures t.dir[i] == j <==> i == x {
      assert t.dir[i] == j <==> E.InBlock(t, s, i);
    }
  }

  // The entries that still name the old segment are those of the lower half.
  lemma HalvedKeeps(P: E.Params, t: E.Table, h: nat, i: nat)
    requires E.Inv(P, t) && h < Pow2(P.W) && t.segs[E.Route(P, t, h)].depth < t.depth && i < |t.dir|
    requires E.Inv(P, E.SplitStep(P, t, h))
    ensures var j, s, t' := E.Route(P, t, h), t.segs[E.Route(P, t, h)], E.SplitStep(P, t, h);
            && |t'.dir| == |t.dir|
            && (t'.dir[i] == j <==> Shr(i, t.depth - s.depth - 1) == 2 * s.prefix)
  {
    E.SplitSegs(P, t, h);
    E.SplitDir(P, t, h);
    hide E.SplitStep, Shr, E.SegOk, E.Route;
    var j, t' := E.Route(P, t, h), E.SplitStep(P, t, h);
    assert t'.dir[i] == j <==> E.InBlock(t', t'.segs[j], i);
  }

  lemma OwnPrefix(P: E.Params, t: E.Table, h: nat)
    requires E.Inv(P, t) && h < Pow2(P.W)
    ensures var s := t.segs[E.Route(P, t, h)];
            s.depth <= t.depth && Shr(E.Index(P, t, h), t.depth - s.depth) == s.prefix
  {
    var j, x := E.Route(P, t, h), E.Index(P, t, h);
    assert t.dir[x] == j <==> E.InBlock(t, t.segs[j], x);
  }

  lemma HalvedEntries(P: E.Params, t: E.Table, h: nat)
    requires E.Inv(P, t) && h < Pow2(P.W) && t.segs[E.Route(P, t, h)].depth < t.depth
    requires E.Inv(P, E.SplitStep(P, t, h))
    ensures var n := t.depth - t.segs[E.Route(P, t, h)].depth;
            HalvedDir(t.dir, E.SplitStep(P, t, h).dir, n, Shr(E.Index(P, t, h), n), E.Route(P, t, h), |t.segs|)
  {
    OwnPrefix(P, t, h);
    E.SplitDir(P, t, h);
    hide E.SplitStep, Shr, E.SegOk, E.Inv, E.InBlock, E.Route, E.Index;
    var j := E.Route(P, t, h);
    var s := t.segs[j];
    forall i | 0 <= i < |t.dir|
      ensures E.SplitStep(P, t, h).dir[i] == j <==> Shr(i, t.depth - s.depth - 1) == 2 * s.prefix
    {
      HalvedKeeps(P, t, h, i);
    }
  }
}
