/**
  Concurrent splits of the extendible table (index/extendible_hash.h:280-361): any number of
  threads, each holding the lock of the segment it splits, double the directory or overwrite a
  block of it, one shared access at a time.
*/
module SplitProtocol {
  import opened Bits

  // ---------------------------------------------------------------- state

  // How much of its directory block a segment has, and the thread that is writing it.
  //   Unborn: the new half of a split that is not published yet.
  //   Whole: the block of (depth, prefix).
  //   Giving: that block without the first n entries of its upper half.
  //   Taking: the first n entries of the block.
  datatype Phase = Unborn | Whole | Giving(n: nat, writer: nat) | Taking(n: nat, writer: nat)

  // local_depth and the mutex; the other fields serve the proof and no step looks at them.
  datatype Seg = Seg(localDepth: nat, locked: bool, depth: nat, prefix: nat, phase: Phase)

  // The suspend that swapped the counter, for the proof.
  datatype Swap = None | Some(val: int, winner: nat)

  datatype Dir = Dir(depth: nat, entries: seq<nat>, sema: int, swap: Swap)

  // A split: the full segment, the new one, target_local_depth and the hash of the pair that
  // is being inserted.
  datatype Job = Job(target: nat, right: nat, l: nat, hash: nat)

  datatype PC =
    | Idle
    | AtRetry(job: Job)                       // line 289, s[1] built
    | CallSuspend(job: Job)                   // line 292, before dir is read
    | InSuspend(job: Job, d: nat)             // in suspend of directory d
    | Waiting(job: Job, d: nat, val: int)     // counter swapped, line 66
    | Copying(job: Job, copy: seq<nat>)       // lines 297-310
    | CallLock(job: Job)                      // line 318, before dir is read
    | InLock(job: Job, d: nat)                // in lock of directory d
    | Writing(job: Job, n: nat)               // lines 322-347, n entries written
    | Unlocking(job: Job)                     // all entries written, line 348
    | Closing(job: Job)                       // local_depth and mutex to do

  // The current directory is the last one; pointers to older ones may still be held.
  datatype State = State(dirs: seq<Dir>, segs: seq<Seg>, pcs: seq<PC>)

  function Current(s: State): Dir
    requires |s.dirs| > 0
  {
    s.dirs[|s.dirs| - 1]
  }

  // ---------------------------------------------------------------- ownership

  // The first entry of the upper half of a block.
  function Middle(d: nat, s: Seg): nat {
    if s.depth < d then (2 * s.prefix + 1) * Pow2(d - s.depth - 1) else 0
  }

  predicate InBlock(d: nat, s: Seg, k: nat) {
    s.depth <= d && Shr(k, d - s.depth) == s.prefix
  }

  predicate Owns(d: nat, s: Seg, k: nat) {
    match s.phase
    case Unborn => false
    case Whole => InBlock(d, s, k)
    case Giving(n, _) => InBlock(d, s, k) && !(Middle(d, s) <= k < Middle(d, s) + n)
    case Taking(n, _) => InBlock(d, s, k) && k < s.prefix * Pow2(d - s.depth) + n
  }

  // Every entry names the one segment that owns it.
  ghost predicate Tiled(d: nat, entries: seq<nat>, segs: seq<Seg>) {
    && |entries| == Pow2(d)
    && (forall k :: 0 <= k < |entries| ==> entries[k] < |segs|)
    && (forall k, j :: 0 <= k < |entries| && 0 <= j < |segs| ==> (entries[k] == j <==> Owns(d, segs[j], k)))
  }

  // A segment born beside the tiling does not disturb it.
  lemma TiledBirth(d: nat, entries: seq<nat>, segs: seq<Seg>, segs': seq<Seg>)
    requires Tiled(d, entries, segs) && |segs'| == |segs| + 1 && segs'[|segs|].phase == Unborn
    requires forall j, k :: 0 <= j < |segs| && 0 <= k < |entries| ==> Owns(d, segs'[j], k) == Owns(d, segs[j], k)
    ensures Tiled(d, entries, segs')
  {
    forall k, j | 0 <= k < |entries| && 0 <= j < |segs'| ensures entries[k] == j <==> Owns(d, segs'[j], k) {
      if j < |segs| { assert entries[k] == j <==> Owns(d, segs[j], k); }
    }
  }

  // Neither does changing segments without changing what they own.
  lemma TiledSame(d: nat, entries: seq<nat>, segs: seq<Seg>, segs': seq<Seg>)
    requires Tiled(d, entries, segs) && |segs'| == |segs|
    requires forall j, k :: 0 <= j < |segs| && 0 <= k < |entries| ==> Owns(d, segs'[j], k) == Owns(d, segs[j], k)
    ensures Tiled(d, entries, segs')
  {
    forall k, j | 0 <= k < |entries| && 0 <= j < |segs'| ensures entries[k] == j <==> Owns(d, segs'[j], k) {
      assert entries[k] == j <==> Owns(d, segs[j], k);
    }
  }

  // The halves of (depth, prefix), and the upper half as a range.
  lemma UpperHalf(d: nat, s: Seg, k: nat)
    requires s.depth < d
    ensures Shr(k, d - s.depth - 1) == 2 * s.prefix + 1 <==> Middle(d, s) <= k < Middle(d, s) + Pow2(d - s.depth - 1)
    ensures InBlock(d, s, k) <==> Shr(k, d - s.depth - 1) == 2 * s.prefix || Shr(k, d - s.depth - 1) == 2 * s.prefix + 1
  {
    var q := Pow2(d - s.depth - 1);
    ShrBlock(k, d - s.depth - 1, 2 * s.prefix + 1);
    ShrLast(k, d - s.depth - 1);
    assert (2 * s.prefix + 1 + 1) * q == (2 * s.prefix + 1) * q + q;
  }

  // The new half as it is published entry by entry.
  predicate IsHalf(s: Seg, r: Seg) {
    r.depth == s.depth + 1 && r.prefix == 2 * s.prefix + 1
  }

  lemma TakingIs(d: nat, s: Seg, r: Seg, n: nat, i: nat, k: nat)
    requires s.depth < d && IsHalf(s, r) && r.phase == Taking(n, i) && n <= Pow2(d - s.depth - 1)
    ensures Owns(d, r, k) <==> Middle(d, s) <= k < Middle(d, s) + n
  {
    UpperHalf(d, s, k);
  }

  // The write of one entry: it keeps the tiling if and only if the entry still names the target.
  lemma WriteIff(d: nat, entries: seq<nat>, segs: seq<Seg>, t: nat, r: nat, n: nat, i: nat)
    requires Tiled(d, entries, segs) && t < |segs| && r < |segs| && t != r
    requires segs[t].depth < d && IsHalf(segs[t], segs[r]) && n < Pow2(d - segs[t].depth - 1)
    requires segs[t].phase == Giving(n, i) && segs[r].phase == Taking(n, i)
    requires Middle(d, segs[t]) + n < |entries|
    ensures Tiled(d, entries[Middle(d, segs[t]) + n := r],
                  segs[t := segs[t].(phase := Giving(n + 1, i))][r := segs[r].(phase := Taking(n + 1, i))])
       <==> entries[Middle(d, segs[t]) + n] == t
  {
    var x := Middle(d, segs[t]) + n;
    var entries' := entries[x := r];
    var segs' := segs[t := segs[t].(phase := Giving(n + 1, i))][r := segs[r].(phase := Taking(n + 1, i))];
    if entries[x] == t {
      forall k, j | 0 <= k < |entries'| && 0 <= j < |segs'| ensures entries'[k] == j <==> Owns(d, segs'[j], k) {
        assert entries[k] == j <==> Owns(d, segs[j], k);
        assert entries[x] == j <==> Owns(d, segs[j], x);
        UpperHalf(d, segs[t], k);
        TakingIs(d, segs[t], segs[r], n, i, k);
        TakingIs(d, segs[t], segs'[r], n + 1, i, k);
      }
    } else {
      var e := entries[x];
      assert entries[x] == e <==> Owns(d, segs[e], x);
      assert entries[x] == r <==> Owns(d, segs[r], x);
      TakingIs(d, segs[t], segs[r], n, i, x);
      assert entries'[x] != e && Owns(d, segs'[e], x);
    }
  }

  // After the last entry the halves are whole.
  lemma TiledWhole(d: nat, entries: seq<nat>, segs: seq<Seg>, t: nat, r: nat, i: nat)
    requires Tiled(d, entries, segs) && t < |segs| && r < |segs| && t != r
    requires segs[t].depth < d && IsHalf(segs[t], segs[r])
    requires segs[t].phase == Giving(Pow2(d - segs[t].depth - 1), i)
    requires segs[r].phase == Taking(Pow2(d - segs[t].depth - 1), i)
    ensures Tiled(d, entries, Halved(segs, t, r))
  {
    var segs' := Halved(segs, t, r);
    forall j, k | 0 <= j < |segs| && 0 <= k < |entries| ensures Owns(d, segs'[j], k) == Owns(d, segs[j], k) {
      UpperHalf(d, segs[t], k);
      TakingIs(d, segs[t], segs[r], Pow2(d - segs[t].depth - 1), i, k);
    }
    TiledSame(d, entries, segs, segs');
  }

  // The target keeps the lower half of its block and the new segment has the upper half.
  function Halved(segs: seq<Seg>, t: nat, r: nat): seq<Seg>
    requires t < |segs| && r < |segs|
  {
    segs[t := segs[t].(depth := segs[t].depth + 1, prefix := 2 * segs[t].prefix, phase := Whole)]
        [r := segs[r].(phase := Whole)]
  }

  // What the copying loop of a doubling puts at position m.
  function DoubledEntry(entries: seq<nat>, x: nat, t: nat, r: nat, m: nat): nat
    requires m < 2 * |entries|
  {
    if m == 2 * x then t else if m == 2 * x + 1 then r else entries[m / 2]
  }

  function Doubled(entries: seq<nat>, x: nat, t: nat, r: nat): seq<nat> {
    seq(2 * |entries|, m requires 0 <= m < 2 * |entries| => DoubledEntry(entries, x, t, r, m))
  }

  ghost predicate NoWriter(segs: seq<Seg>) {
    forall j :: 0 <= j < |segs| ==> segs[j].phase == Unborn || segs[j].phase == Whole
  }

  // Publishing a doubled directory: it is tiled by the halves if and only if the depth test of
  // line 291 still holds for the directory that was suspended.
  lemma DoubleIff(d: nat, entries: seq<nat>, segs: seq<Seg>, t: nat, r: nat, x: nat)
    requires Tiled(d, entries, segs) && NoWriter(segs) && t < |segs| && r < |segs|
    requires (forall j :: 0 <= j < |segs| && segs[j].phase == Whole ==> segs[j].depth <= d)
    requires segs[t].phase == Whole && segs[r].phase == Unborn && IsHalf(segs[t], segs[r])
    requires x < |entries| && InBlock(d, segs[t], x)
    ensures Tiled(d + 1, Doubled(entries, x, t, r), Halved(segs, t, r)) <==> segs[t].depth == d
  {
    var entries', segs' := Doubled(entries, x, t, r), Halved(segs, t, r);
    if segs[t].depth == d {
      forall m, j | 0 <= m < |entries'| && 0 <= j < |segs'| ensures entries'[m] == j <==> Owns(d + 1, segs'[j], m) {
        assert entries[m / 2] == j <==> Owns(d, segs[j], m / 2);
        assert entries[x] == j <==> Owns(d, segs[j], x);
        assert entries[m / 2] == t <==> Owns(d, segs[t], m / 2);
      }
      assert forall m :: 0 <= m < |entries'| ==> entries'[m] < |segs'|;
    } else {
      StaleDouble(d, entries, segs, t, r, x);
    }
  }

  // With a stale test the new half would need at least two entries and gets one.
  lemma StaleDouble(d: nat, entries: seq<nat>, segs: seq<Seg>, t: nat, r: nat, x: nat)
    requires Tiled(d, entries, segs) && t < |segs| && r < |segs| && segs[t].depth < d
    requires segs[t].phase == Whole && segs[r].phase == Unborn && IsHalf(segs[t], segs[r])
    requires x < |entries| && InBlock(d, segs[t], x)
    ensures !Tiled(d + 1, Doubled(entries, x, t, r), Halved(segs, t, r))
  {
    var entries', segs' := Doubled(entries, x, t, r), Halved(segs, t, r);
    var m := OtherEntry(d - segs[t].depth, 2 * segs[t].prefix + 1, 2 * x + 1);
    UpperInside(d, entries, segs, t, x, m);
    assert entries[x] == r <==> Owns(d, segs[r], x);
    assert entries[m / 2] == r <==> Owns(d, segs[r], m / 2);
    assert Owns(d + 1, segs'[r], m) && entries'[m] != r;
  }

  // A block of two or more numbers has one that differs from y.
  lemma OtherEntry(n: nat, p: nat, y: nat) returns (m: nat)
    requires n >= 1
    ensures Shr(m, n) == p && m != y
  {
    var b := p * Pow2(n);
    m := if b == y then b + 1 else b;
    assert Pow2(n) == 2 * Pow2(n - 1);
    assert (p + 1) * Pow2(n) == b + Pow2(n);
    ShrBlock(m, n, p);
  }

  lemma UpperInside(d: nat, entries: seq<nat>, segs: seq<Seg>, t: nat, x: nat, m: nat)
    requires |entries| == Pow2(d) && t < |segs| && segs[t].depth < d && x < |entries| && InBlock(d, segs[t], x)
    requires Shr(m, d - segs[t].depth) == 2 * segs[t].prefix + 1
    ensures m < 2 * |entries|
  {
    ShrBound(x, d - segs[t].depth, segs[t].depth);
    var n := d - segs[t].depth;
    ShrBlock(m, n, 2 * segs[t].prefix + 1);
    Pow2Add(segs[t].depth + 1, n);
    BlockEnd(2 * segs[t].prefix + 1, Pow2(segs[t].depth + 1), Pow2(n));
  }

  // ---------------------------------------------------------------- steps

  function Index(W: nat, d: nat, h: nat): nat {
    if d <= W then Shr(h, W - d) else 0
  }

  function Goto(s: State, i: nat, pc: PC): State
    requires i < |s.pcs|
  {
    s.(pcs := s.pcs[i := pc])
  }

  function WithDir(s: State, d: nat, dir: Dir): State
    requires d < |s.dirs|
  {
    s.(dirs := s.dirs[d := dir])
  }

  // Lines 203-287: an idle thread with a pair of hash h finds segment j, locks it, finds it full
  // and builds the new half.
  predicate CanBegin(W: nat, s: State, i: nat, j: nat, h: nat) {
    && i < |s.pcs| && s.pcs[i] == Idle && |s.dirs| > 0
    && h < Pow2(W)
    && Index(W, Current(s).depth, h) < |Current(s).entries|
    && Current(s).entries[Index(W, Current(s).depth, h)] == j
    && j < |s.segs| && !s.segs[j].locked && s.segs[j].localDepth < W
  }

  function Begin(W: nat, s: State, i: nat, j: nat, h: nat): State
    requires CanBegin(W, s, i, j, h)
  {
    var l := s.segs[j].localDepth;
    var half := Seg(l + 1, false, l + 1, 2 * Index(W, l, h) + 1, Unborn);
    State(s.dirs, s.segs[j := s.segs[j].(locked := true)] + [half], s.pcs[i := AtRetry(Job(j, |s.segs|, l, h))])
  }

  // The entry that round n of the writing loop overwrites.
  function WriteIndex(W: nat, d: nat, job: Job, n: nat): int
    requires job.l < d
  {
    var x := Index(W, d, job.hash);
    var stride := Pow2(d - job.l);
    var loc := x - x % stride;
    loc + stride / 2 + n
  }

  // The step of a thread that is splitting.
  function Do(W: nat, s: State, i: nat): State
    requires i < |s.pcs| && |s.dirs| > 0
  {
    var cur := |s.dirs| - 1;
    var dir := s.dirs[cur];
    match s.pcs[i]
    case Idle => s
    case AtRetry(job) => Goto(s, i, if job.l == dir.depth then CallSuspend(job) else CallLock(job))
    case CallSuspend(job) => Goto(s, i, InSuspend(job, cur))
    case InSuspend(job, d) =>
      if d >= |s.dirs| then s
      else if s.dirs[d].sema < 0 then Goto(s, i, AtRetry(job))
      else
        var swapped := s.dirs[d].(sema := -1, swap := Some(s.dirs[d].sema, i));
        Goto(WithDir(s, d, swapped), i, Waiting(job, d, s.dirs[d].sema))
    case Waiting(job, d, v) =>
      if d >= |s.dirs| || (v != 0 && s.dirs[d].sema != 0 - v - 1) then s else Goto(s, i, Copying(job, []))
    case Copying(job, copy) =>
      var x := Index(W, dir.depth, job.hash);
      if |copy| < 2 * |dir.entries| then
        var k := |copy| / 2;
        Goto(s, i, Copying(job, copy + (if k == x then [job.target, job.right] else [dir.entries[k], dir.entries[k]])))
      else
        Publish(s.(dirs := s.dirs + [Dir(dir.depth + 1, copy, 0, None)]), i, job, Closing(job))
    case CallLock(job) => Goto(s, i, InLock(job, cur))
    case InLock(job, d) =>
      if d >= |s.dirs| then s
      else if s.dirs[d].sema < 0 then Goto(s, i, CallLock(job))
      else Open(WithDir(s, d, s.dirs[d].(sema := s.dirs[d].sema + 1)), i, job)
    case Writing(job, n) =>
      if dir.depth <= job.l || job.target >= |s.segs| || job.right >= |s.segs| then s
      else
        var k := WriteIndex(W, dir.depth, job, n);
        if 0 <= k < |dir.entries| then
          var s' := WithDir(s, cur, dir.(entries := dir.entries[k := job.right]));
          if n + 1 < Pow2(dir.depth - job.l) / 2 then Write(s', i, job, n + 1) else Publish(s', i, job, Unlocking(job))
        else s
    case Unlocking(job) => Goto(WithDir(s, cur, dir.(sema := dir.sema - 1)), i, Closing(job))
    case Closing(job) =>
      if job.target >= |s.segs| then s
      else
        var t := s.segs[job.target];
        Goto(s.(segs := s.segs[job.target := t.(localDepth := t.localDepth + 1, locked := false)]), i, Idle)
  }

  // The proof fields while a block is being overwritten, and when the halves are published.
  function Open(s: State, i: nat, job: Job): State
    requires i < |s.pcs|
  {
    if job.target < |s.segs| && job.right < |s.segs| then Write(s, i, job, 0) else s
  }

  function Write(s: State, i: nat, job: Job, n: nat): State
    requires i < |s.pcs| && job.target < |s.segs| && job.right < |s.segs|
  {
    Goto(s.(segs := s.segs[job.target := s.segs[job.target].(phase := Giving(n, i))]
                        [job.right := s.segs[job.right].(phase := Taking(n, i))]), i, Writing(job, n))
  }

  function Publish(s: State, i: nat, job: Job, pc: PC): State
    requires i < |s.pcs|
  {
    if job.target < |s.segs| && job.right < |s.segs| then
      Goto(s.(segs := Halved(s.segs, job.target, job.right)), i, pc)
    else s
  }

  ghost predicate Next(W: nat, s: State, s': State) {
    |s.dirs| > 0 &&
    ((exists i :: 0 <= i < |s.pcs| && s' == Do(W, s, i)) ||
     (exists i: nat, j: nat, h: nat :: CanBegin(W, s, i, j, h) && s' == Begin(W, s, i, j, h)))
  }

  // What the program does not check, first: the depth test of line 291 still holds for the
  // directory whose suspend succeeds.
  predicate DepthHolds(s: State, s': State) {
    forall i :: 0 <= i < |s.pcs| && i < |s'.pcs| && s.pcs[i].InSuspend? && s'.pcs[i].Waiting? ==>
      s.pcs[i].d < |s.dirs| && s.dirs[s.pcs[i].d].depth == s.pcs[i].job.l
  }

  // Second: a split does not begin on a segment that another thread is still publishing.
  predicate StartsWhole(s: State, s': State) {
    forall i :: 0 <= i < |s.pcs| && i < |s'.pcs| && s.pcs[i] == Idle && s'.pcs[i].AtRetry? ==>
      s'.pcs[i].job.target < |s.segs| && !s.segs[s'.pcs[i].job.target].phase.Taking?
  }

  predicate Guarded(s: State, s': State) {
    DepthHolds(s, s') && StartsWhole(s, s')
  }

  // ---------------------------------------------------------------- invariant

  predicate HasJob(pc: PC) {
    pc != Idle
  }

  // The new half is completely published.
  predicate Published(pc: PC) {
    pc.Unlocking? || pc.Closing?
  }

  predicate Pending(pc: PC) {
    pc != Idle && !Published(pc)
  }

  // The thread holds the lock of a directory.
  predicate Holds(pc: PC) {
    pc.Writing? || pc.Unlocking?
  }

  function Holders(pcs: seq<PC>): nat {
    if pcs == [] then 0 else Holders(pcs[1..]) + (if Holds(pcs[0]) then 1 else 0)
  }

  ghost predicate SegInv(s: State, j: nat)
    requires |s.dirs| > 0 && j < |s.segs|
  {
    var g := s.segs[j];
    && (g.phase != Unborn ==> g.depth <= Current(s).depth)
    && (!g.locked ==> g.localDepth == g.depth)
    && (g.phase.Giving? ==> g.phase.writer < |s.pcs| && s.pcs[g.phase.writer].Writing?
                             && s.pcs[g.phase.writer].job.target == j)
    && (g.phase.Taking? ==> g.phase.writer < |s.pcs| && s.pcs[g.phase.writer].Writing?
                             && s.pcs[g.phase.writer].job.right == j)
  }

  // The segments of a job.
  ghost predicate JobInv(W: nat, s: State, job: Job) {
    && job.target < |s.segs| && job.right < |s.segs| && job.target != job.right
    && job.l < W && job.hash < Pow2(W)
    && s.segs[job.target].locked && s.segs[job.target].localDepth == job.l
  }

  // Before it is published.
  ghost predicate FreshJob(W: nat, s: State, job: Job) {
    && JobInv(W, s, job)
    && s.segs[job.target].phase == Whole && s.segs[job.right].phase == Unborn
    && Halves(W, s, job)
  }

  ghost predicate Halves(W: nat, s: State, job: Job)
    requires JobInv(W, s, job)
  {
    var t, r := s.segs[job.target], s.segs[job.right];
    t.depth == job.l && t.prefix == Index(W, job.l, job.hash) && IsHalf(t, r) && r.localDepth == r.depth
  }

  ghost predicate ThreadInv(W: nat, s: State, i: nat)
    requires |s.dirs| > 0 && i < |s.pcs|
  {
    var cur := |s.dirs| - 1;
    var dir := s.dirs[cur];
    match s.pcs[i]
    case Idle => true
    case AtRetry(job) => FreshJob(W, s, job)
    case CallSuspend(job) => FreshJob(W, s, job)
    case InSuspend(job, d) => FreshJob(W, s, job) && d <= cur
    case Waiting(job, d, v) => FreshJob(W, s, job) && d == cur && dir.swap == Some(v, i) && job.l == dir.depth
    case Copying(job, copy) =>
      && FreshJob(W, s, job) && job.l == dir.depth && dir.swap.Some? && dir.swap.winner == i
      && |copy| <= 2 * |dir.entries| && |copy| % 2 == 0
      && forall m :: 0 <= m < |copy| ==>
           copy[m] == DoubledEntry(dir.entries, Index(W, dir.depth, job.hash), job.target, job.right, m)
    case CallLock(job) => FreshJob(W, s, job) && job.l < dir.depth
    case InLock(job, d) => FreshJob(W, s, job) && d <= cur && job.l < dir.depth
    case Writing(job, n) =>
      && JobInv(W, s, job) && Halves(W, s, job) && job.l < dir.depth && n < Pow2(dir.depth - job.l - 1)
      && s.segs[job.target].phase == Giving(n, i) && s.segs[job.right].phase == Taking(n, i)
    case Unlocking(job) => Settled(W, s, job)
    case Closing(job) => Settled(W, s, job)
  }

  // After it is published: the new half may have been split again.
  ghost predicate Settled(W: nat, s: State, job: Job) {
    && JobInv(W, s, job) && s.segs[job.target].phase == Whole
    && s.segs[job.target].depth == job.l + 1 && s.segs[job.target].prefix == 2 * Index(W, job.l, job.hash)
    && Within(s.segs[job.right], job.l + 1, 2 * Index(W, job.l, job.hash) + 1)
  }

  // A published segment whose block lies in the one of (depth, prefix).
  predicate Within(g: Seg, depth: nat, prefix: nat) {
    g.phase != Unborn && g.depth >= depth && Shr(g.prefix, g.depth - depth) == prefix
  }

  // No two threads split the same segment or build the same half.
  ghost predicate Apart(s: State, i: nat, m: nat)
    requires i < |s.pcs| && m < |s.pcs|
  {
    i != m ==>
      && (HasJob(s.pcs[i]) && HasJob(s.pcs[m]) ==> s.pcs[i].job.target != s.pcs[m].job.target)
      && (Pending(s.pcs[i]) && Pending(s.pcs[m]) ==> s.pcs[i].job.right != s.pcs[m].job.right)
  }

  ghost predicate SemaInv(s: State)
    requires |s.dirs| > 0
  {
    var dir := Current(s);
    match dir.swap
    case None => dir.sema == Holders(s.pcs)
    case Some(v, w) =>
      && dir.sema == Holders(s.pcs) - v - 1 && Holders(s.pcs) <= v
      && w < |s.pcs|
      && (s.pcs[w].Waiting? || (s.pcs[w].Copying? && Holders(s.pcs) == 0))
  }

  ghost predicate Inv(W: nat, s: State) {
    && |s.dirs| > 0 && 1 <= Current(s).depth <= W
    && Tiled(Current(s).depth, Current(s).entries, s.segs)
    && (forall j :: 0 <= j < |s.segs| ==> SegInv(s, j))
    && (forall i :: 0 <= i < |s.pcs| ==> ThreadInv(W, s, i))
    && (forall i, m :: 0 <= i < |s.pcs| && 0 <= m < |s.pcs| ==> Apart(s, i, m))
    && SemaInv(s)
    && (forall d :: 0 <= d < |s.dirs| - 1 ==> s.dirs[d].sema < 0)
  }

  lemma {:induction false} HoldersMove(pcs: seq<PC>, i: nat, pc: PC)
    requires i < |pcs|
    ensures Holders(pcs[i := pc]) + (if Holds(pcs[i]) then 1 else 0) == Holders(pcs) + (if Holds(pc) then 1 else 0)
    decreases |pcs|
  {
    if i == 0 {
      assert pcs[0 := pc][1..] == pcs[1..];
    } else {
      assert pcs[i := pc][1..] == pcs[1..][i - 1 := pc];
      HoldersMove(pcs[1..], i - 1, pc);
    }
  }

  lemma {:induction false} NoHolder(pcs: seq<PC>, i: nat)
    requires Holders(pcs) == 0 && i < |pcs|
    ensures !Holds(pcs[i])
    decreases |pcs|
  {
    if i > 0 { NoHolder(pcs[1..], i - 1); }
  }

  lemma Shape(W: nat, s: State)
    requires Inv(W, s)
    ensures |s.dirs| > 0 && 1 <= Current(s).depth <= W
  {
    hide ThreadInv, SegInv, Apart, SemaInv, Tiled;
  }

  lemma ThreadOf(W: nat, s: State, i: nat)
    requires Inv(W, s) && i < |s.pcs|
    ensures ThreadInv(W, s, i)
  {
    hide ThreadInv, SegInv, Apart, SemaInv, Tiled;
  }

  lemma SegOf(W: nat, s: State, j: nat)
    requires Inv(W, s) && j < |s.segs|
    ensures SegInv(s, j)
  {
    hide ThreadInv, SegInv, Apart, SemaInv, Tiled;
  }

  lemma PairOf(W: nat, s: State, i: nat, m: nat)
    requires Inv(W, s) && i < |s.pcs| && m < |s.pcs|
    ensures Apart(s, i, m)
  {
    hide ThreadInv, SegInv, Apart, SemaInv, Tiled;
  }

  // ---------------------------------------------------------------- steps keep the invariant

  // A step that moves one thread and touches nothing shared.
  lemma QuietInv(W: nat, s: State, i: nat, pc: PC)
    requires Inv(W, s) && i < |s.pcs|
    requires Pending(s.pcs[i]) && Pending(pc) && s.pcs[i].job == pc.job
    requires !Holds(s.pcs[i]) && !Holds(pc)
    requires ThreadInv(W, Goto(s, i, pc), i)
    requires s.pcs[i].Waiting? || s.pcs[i].Copying? ==> pc.Copying? && Holders(s.pcs) == 0
    ensures Inv(W, Goto(s, i, pc))
  {
    var s' := Goto(s, i, pc);
    HoldersMove(s.pcs, i, pc);
    forall j | 0 <= j < |s'.segs| ensures SegInv(s', j) {
      hide Inv, ThreadInv;
      SegOf(W, s, j);
    }
    forall m | 0 <= m < |s'.pcs| ensures ThreadInv(W, s', m) {
      hide Inv;
      ThreadOf(W, s, m);
    }
    hide ThreadInv, SegInv, Tiled, Holders;
    forall m, k | 0 <= m < |s'.pcs| && 0 <= k < |s'.pcs| ensures Apart(s', m, k) {
      PairOf(W, s, m, k);
    }
  }

  // The steps of QuietInv.
  lemma QuietSteps(W: nat, s: State, i: nat)
    requires Inv(W, s) && i < |s.pcs|
    requires var pc := s.pcs[i];
             || pc.AtRetry? || pc.CallSuspend? || pc.CallLock?
             || ((pc.InSuspend? || pc.InLock?) && pc.d < |s.dirs| && s.dirs[pc.d].sema < 0)
    ensures Inv(W, Do(W, s, i))
  {
    ThreadOf(W, s, i);
    var pc, pc' := s.pcs[i], Do(W, s, i).pcs[i];
    SegOf(W, s, pc.job.target);
    QuietInv(W, s, i, pc');
  }

  lemma WaitInv(W: nat, s: State, i: nat)
    requires Inv(W, s) && i < |s.pcs| && s.pcs[i].Waiting?
    ensures Inv(W, Do(W, s, i))
  {
    ThreadOf(W, s, i);
    if Do(W, s, i) != s {
      QuietInv(W, s, i, Copying(s.pcs[i].job, []));
    }
  }

  lemma CopyInv(W: nat, s: State, i: nat)
    requires Inv(W, s) && i < |s.pcs| && s.pcs[i].Copying? && |s.pcs[i].copy| < 2 * |Current(s).entries|
    ensures Inv(W, Do(W, s, i))
  {
    ThreadOf(W, s, i);
    QuietInv(W, s, i, Do(W, s, i).pcs[i]);
  }

  // A compare-and-swap that finds a non-negative counter is on the current directory.
  lemma OnCurrent(W: nat, s: State, d: nat)
    requires Inv(W, s) && d < |s.dirs| && s.dirs[d].sema >= 0
    ensures d == |s.dirs| - 1 && s.dirs[d].swap == None && s.dirs[d].sema == Holders(s.pcs)
    ensures forall m :: 0 <= m < |s.pcs| ==> !s.pcs[m].Waiting? && !s.pcs[m].Copying?
  {
    forall m | 0 <= m < |s.pcs| ensures !s.pcs[m].Waiting? && !s.pcs[m].Copying? {
      ThreadOf(W, s, m);
    }
  }

  lemma SuspendInv(W: nat, s: State, i: nat)
    requires Inv(W, s) && i < |s.pcs| && s.pcs[i].InSuspend? && s.pcs[i].d < |s.dirs|
    requires s.dirs[s.pcs[i].d].sema >= 0 && s.dirs[s.pcs[i].d].depth == s.pcs[i].job.l
    ensures Inv(W, Do(W, s, i))
  {
    ThreadOf(W, s, i);
    OnCurrent(W, s, s.pcs[i].d);
    var s' := Do(W, s, i);
    HoldersMove(s.pcs, i, s'.pcs[i]);
    forall j | 0 <= j < |s'.segs| ensures SegInv(s', j) {
      hide ThreadInv;
      SegOf(W, s, j);
    }
    forall m | 0 <= m < |s'.pcs| ensures ThreadInv(W, s', m) {
      ThreadOf(W, s, m);
    }
    hide ThreadInv, SegInv, Tiled, Holders;
    forall m, k | 0 <= m < |s'.pcs| && 0 <= k < |s'.pcs| ensures Apart(s', m, k) {
      PairOf(W, s, m, k);
    }
  }

  // A thread's segments are not those of another thread.
  lemma Disjoint(W: nat, s: State, i: nat, m: nat)
    requires Inv(W, s) && i < |s.pcs| && m < |s.pcs| && i != m && Pending(s.pcs[i]) && HasJob(s.pcs[m])
    ensures var a, b := s.pcs[i].job, s.pcs[m].job;
            && a.target != b.target && a.right != b.target
            && (Pending(s.pcs[m]) ==> a.right != b.right && a.target != b.right)
  {
    ThreadOf(W, s, i);
    ThreadOf(W, s, m);
    PairOf(W, s, i, m);
  }

  lemma OpenInv(W: nat, s: State, i: nat)
    requires Inv(W, s) && i < |s.pcs| && s.pcs[i].InLock? && s.pcs[i].d < |s.dirs|
    requires s.dirs[s.pcs[i].d].sema >= 0
    ensures Inv(W, Do(W, s, i))
  {
    ThreadOf(W, s, i);
    OnCurrent(W, s, s.pcs[i].d);
    var s', job, dir := Do(W, s, i), s.pcs[i].job, Current(s);
    HoldersMove(s.pcs, i, s'.pcs[i]);
    forall j, k | 0 <= j < |s.segs| && 0 <= k < |dir.entries|
      ensures Owns(dir.depth, s'.segs[j], k) == Owns(dir.depth, s.segs[j], k)
    {
      TakingIs(dir.depth, s.segs[job.target], s'.segs[job.right], 0, i, k);
    }
    TiledSame(dir.depth, dir.entries, s.segs, s'.segs);
    WriteFrame(W, s, i, s', 0);
  }

  // A step of thread i into Writing, as the other threads and segments see it.
  ghost predicate IsWrite(s: State, i: nat, s': State, n: nat)
    requires |s.dirs| > 0
  {
    && i < |s.pcs| && Pending(s.pcs[i]) && |s'.dirs| == |s.dirs|
    && (forall m :: 0 <= m < |s.pcs| ==> !s.pcs[m].Copying?)
    && Current(s').swap == Current(s).swap
    && Current(s').depth == Current(s).depth && |Current(s').entries| == |Current(s).entries|
    && s.pcs[i].job.target < |s.segs| && s.pcs[i].job.right < |s.segs|
    && s'.segs == Write(s, i, s.pcs[i].job, n).segs && s'.pcs == Write(s, i, s.pcs[i].job, n).pcs
    && s.pcs[i].job.l < Current(s).depth && n < Pow2(Current(s).depth - s.pcs[i].job.l - 1)
  }

  lemma WriteSeg(W: nat, s: State, i: nat, s': State, n: nat, j: nat)
    requires Inv(W, s) && IsWrite(s, i, s', n) && j < |s.segs|
    ensures SegInv(s', j)
  {
    ThreadOf(W, s, i);
    SegOf(W, s, j);
    SegOf(W, s, s.pcs[i].job.target);
  }

  lemma WriteThread(W: nat, s: State, i: nat, s': State, n: nat, m: nat)
    requires Inv(W, s) && IsWrite(s, i, s', n) && m < |s.pcs|
    ensures ThreadInv(W, s', m)
  {
    hide Tiled, SemaInv, Apart, SegInv, DoubledEntry, Index, Shr, Pow2;
    ThreadOf(W, s, i);
    ThreadOf(W, s, m);
    if m != i && HasJob(s.pcs[m]) { Disjoint(W, s, i, m); }
  }

  lemma WriteFrame(W: nat, s: State, i: nat, s': State, n: nat)
    requires Inv(W, s) && IsWrite(s, i, s', n)
    ensures forall j :: 0 <= j < |s'.segs| ==> SegInv(s', j)
    ensures forall m :: 0 <= m < |s'.pcs| ==> ThreadInv(W, s', m)
    ensures forall m, k :: 0 <= m < |s'.pcs| && 0 <= k < |s'.pcs| ==> Apart(s', m, k)
  {
    forall j | 0 <= j < |s'.segs| ensures SegInv(s', j) {
      WriteSeg(W, s, i, s', n, j);
    }
    forall m | 0 <= m < |s'.pcs| ensures ThreadInv(W, s', m) {
      WriteThread(W, s, i, s', n, m);
    }
    forall m, k | 0 <= m < |s'.pcs| && 0 <= k < |s'.pcs| ensures Apart(s', m, k) {
      PairOf(W, s, m, k);
    }
  }

  // While a thread holds the lock, no directory is being copied.
  lemma NoCopy(W: nat, s: State, i: nat)
    requires Inv(W, s) && i < |s.pcs| && Holds(s.pcs[i])
    ensures forall m :: 0 <= m < |s.pcs| ==> !s.pcs[m].Copying?
  {
    forall m | 0 <= m < |s.pcs| ensures !s.pcs[m].Copying? {
      ThreadOf(W, s, m);
      if s.pcs[m].Copying? { NoHolder(s.pcs, i); }
    }
  }

  // The writing loop walks through the upper half of the target's block.
  lemma WriteIndexIs(W: nat, d: nat, t: Seg, job: Job, n: nat)
    requires t.depth == job.l < d <= W && job.hash < Pow2(W) && t.prefix == Index(W, job.l, job.hash)
    requires n < Pow2(d - job.l - 1)
    ensures WriteIndex(W, d, job, n) == Middle(d, t) + n
    ensures Middle(d, t) + n < Pow2(d)
  {
    var x := Index(W, d, job.hash);
    ShrShr(job.hash, W - d, d - job.l);
    assert Shr(x, d - job.l) == t.prefix;
    ShrBound(job.hash, W - d, d);
    ShrIsDivision(x, d - job.l);
    HalfProducts(t.prefix, Pow2(d - job.l - 1));
    BlockInside(x, d - job.l, d);
  }

  // The entry that is overwritten names the target.
  lemma WriteTiled(W: nat, s: State, i: nat)
    requires Inv(W, s) && i < |s.pcs| && s.pcs[i].Writing?
    ensures |s.dirs| > 0 && ThreadInv(W, s, i)
    ensures var job, n, dir := s.pcs[i].job, s.pcs[i].n, Current(s);
            var x := Middle(dir.depth, s.segs[job.target]) + n;
            && x < |dir.entries| && WriteIndex(W, dir.depth, job, n) == x
            && Tiled(dir.depth, dir.entries[x := job.right], Write(s, i, job, n + 1).segs)
  {
    ThreadOf(W, s, i);
    Shape(W, s);
    var job, n, dir := s.pcs[i].job, s.pcs[i].n, Current(s);
    var t := s.segs[job.target];
    WriteIndexIs(W, dir.depth, t, job, n);
    var x := Middle(dir.depth, t) + n;
    assert dir.entries[x] == job.target <==> Owns(dir.depth, t, x);
    UpperHalf(dir.depth, t, x);
    hide WriteIndex, Middle, Owns;
    WriteIff(dir.depth, dir.entries, s.segs, job.target, job.right, n, i);
  }

  lemma HalfStride(d: nat)
    requires d >= 1
    ensures Pow2(d) / 2 == Pow2(d - 1)
  {}

  // The state after a write that is not the last.
  lemma WriteInv(W: nat, s: State, i: nat)
    requires Inv(W, s) && i < |s.pcs| && s.pcs[i].Writing?
    requires |s.dirs| > 0 && s.pcs[i].job.l < Current(s).depth
    requires s.pcs[i].n + 1 < Pow2(Current(s).depth - s.pcs[i].job.l - 1)
    ensures Inv(W, Do(W, s, i))
  {
    WriteTiled(W, s, i);
    HalfStride(Current(s).depth - s.pcs[i].job.l);
    var s' := Do(W, s, i);
    assert s'.pcs[i] == Writing(s.pcs[i].job, s.pcs[i].n + 1);
    hide Tiled, Index, Middle, WriteIndex, SegInv, Apart;
    NoCopy(W, s, i);
    HoldersMove(s.pcs, i, s'.pcs[i]);
    WriteFrame(W, s, i, s', s.pcs[i].n + 1);
    hide ThreadInv, Holders;
  }

  // The last write makes the halves whole.
  lemma LastTiled(W: nat, s: State, i: nat)
    requires Inv(W, s) && i < |s.pcs| && s.pcs[i].Writing?
    requires |s.dirs| > 0 && s.pcs[i].job.l < Current(s).depth
    requires s.pcs[i].n + 1 == Pow2(Current(s).depth - s.pcs[i].job.l - 1)
    ensures ThreadInv(W, s, i)
    ensures var job, n, dir := s.pcs[i].job, s.pcs[i].n, Current(s);
            var x := Middle(dir.depth, s.segs[job.target]) + n;
            && x < |dir.entries| && WriteIndex(W, dir.depth, job, n) == x
            && Tiled(dir.depth, dir.entries[x := job.right], Halved(s.segs, job.target, job.right))
  {
    WriteTiled(W, s, i);
    var job, n, dir := s.pcs[i].job, s.pcs[i].n, Current(s);
    var x := Middle(dir.depth, s.segs[job.target]) + n;
    var segs := Write(s, i, job, n + 1).segs;
    hide Tiled, Middle, WriteIndex, Inv;
    TiledWhole(dir.depth, dir.entries[x := job.right], segs, job.target, job.right, i);
    assert Halved(segs, job.target, job.right) == Halved(s.segs, job.target, job.right);
  }

  lemma LastInv(W: nat, s: State, i: nat)
    requires Inv(W, s) && i < |s.pcs| && s.pcs[i].Writing?
    requires |s.dirs| > 0 && s.pcs[i].job.l < Current(s).depth
    requires s.pcs[i].n + 1 == Pow2(Current(s).depth - s.pcs[i].job.l - 1)
    ensures Inv(W, Do(W, s, i))
  {
    LastTiled(W, s, i);
    HalfStride(Current(s).depth - s.pcs[i].job.l);
    var s' := Do(W, s, i);
    assert s'.pcs[i] == Unlocking(s.pcs[i].job);
    hide Tiled, Index, Middle, WriteIndex, SegInv, Apart;
    NoCopy(W, s, i);
    HoldersMove(s.pcs, i, s'.pcs[i]);
    PublishFrame(W, s, i, s');
    hide ThreadInv, Holders;
  }

  // The publication of thread i's halves, as the other threads and segments see it: on the
  // same directory, or on a new one when no thread waits, copies or writes.
  ghost predicate IsPublish(W: nat, s: State, i: nat, s': State)
    requires |s.dirs| > 0
  {
    && i < |s.pcs| && Pending(s.pcs[i]) && |s'.dirs| >= |s.dirs|
    && JobInv(W, s, s.pcs[i].job) && Halves(W, s, s.pcs[i].job)
    && s.segs[s.pcs[i].job.target].depth < Current(s').depth
    && Current(s').depth >= Current(s).depth
    && s'.segs == Halved(s.segs, s.pcs[i].job.target, s.pcs[i].job.right)
    && |s'.pcs| == |s.pcs| && s'.pcs == s.pcs[i := s'.pcs[i]] && Published(s'.pcs[i])
    && s'.pcs[i].job == s.pcs[i].job
    && forall m :: 0 <= m < |s.pcs| && m != i ==>
         && !s.pcs[m].Copying?
         && (s.pcs[m].Waiting? || s.pcs[m].Writing? ==>
               |s'.dirs| == |s.dirs| && Current(s').swap == Current(s).swap && Current(s').depth == Current(s).depth)
  }

  lemma PublishSeg(W: nat, s: State, i: nat, s': State, j: nat)
    requires Inv(W, s) && IsPublish(W, s, i, s') && j < |s.segs|
    ensures SegInv(s', j)
  {
    ThreadOf(W, s, i);
    SegOf(W, s, j);
  }

  lemma PublishThread(W: nat, s: State, i: nat, s': State, m: nat)
    requires Inv(W, s) && IsPublish(W, s, i, s') && m < |s.pcs|
    ensures ThreadInv(W, s', m)
  {
    hide Inv, Index, Shr, Pow2, DoubledEntry, Within;
    Shape(W, s);
    var job := s.pcs[i].job;
    if m == i {
      HalvesWithin(Halved(s.segs, job.target, job.right), job, Index(W, job.l, job.hash));
    } else {
      ThreadOf(W, s, m);
      if HasJob(s.pcs[m]) { Disjoint(W, s, i, m); }
      if Published(s.pcs[m]) {
        var other := s.pcs[m].job;
        HalvedWithin(s.segs, job.target, job.right, other.right, other.l + 1, 2 * Index(W, other.l, other.hash) + 1);
      }
    }
  }

  lemma HalvesWithin(segs: seq<Seg>, job: Job, p: nat)
    requires job.right < |segs| && segs[job.right].phase == Whole
    requires segs[job.right].depth == job.l + 1 && segs[job.right].prefix == 2 * p + 1
    ensures Within(segs[job.right], job.l + 1, 2 * p + 1)
  {
    assert Shr(2 * p + 1, 0) == 2 * p + 1;
  }

  // The lower half lies in the block; no other block changes.
  lemma HalvedWithin(segs: seq<Seg>, t: nat, r: nat, j: nat, depth: nat, prefix: nat)
    requires t < |segs| && r < |segs| && t != r && j < |segs| && Within(segs[j], depth, prefix)
    ensures Within(Halved(segs, t, r)[j], depth, prefix)
  {}

  lemma PublishFrame(W: nat, s: State, i: nat, s': State)
    requires Inv(W, s) && IsPublish(W, s, i, s')
    ensures forall j :: 0 <= j < |s'.segs| ==> SegInv(s', j)
    ensures forall m :: 0 <= m < |s'.pcs| ==> ThreadInv(W, s', m)
    ensures forall m, k :: 0 <= m < |s'.pcs| && 0 <= k < |s'.pcs| ==> Apart(s', m, k)
  {
    forall j | 0 <= j < |s'.segs| ensures SegInv(s', j) {
      PublishSeg(W, s, i, s', j);
    }
    forall m | 0 <= m < |s'.pcs| ensures ThreadInv(W, s', m) {
      PublishThread(W, s, i, s', m);
    }
    forall m, k | 0 <= m < |s'.pcs| && 0 <= k < |s'.pcs| ensures Apart(s', m, k) {
      PairOf(W, s, m, k);
    }
  }

  lemma UnlockSeg(W: nat, s: State, i: nat, j: nat)
    requires Inv(W, s) && i < |s.pcs| && s.pcs[i].Unlocking? && j < |s.segs|
    ensures var s' := Do(W, s, i); |s'.dirs| > 0 && j < |s'.segs| && SegInv(s', j)
  {
    hide Inv;
    Shape(W, s);
    SegOf(W, s, j);
  }

  lemma UnlockThread(W: nat, s: State, i: nat, m: nat)
    requires Inv(W, s) && i < |s.pcs| && s.pcs[i].Unlocking? && m < |s.pcs|
    ensures var s' := Do(W, s, i); |s'.dirs| > 0 && m < |s'.pcs| && ThreadInv(W, s', m)
  {
    hide Inv, Index, Shr, Pow2, Within;
    Shape(W, s);
    ThreadOf(W, s, m);
    NoCopy(W, s, i);
  }

  lemma UnlockInv(W: nat, s: State, i: nat)
    requires Inv(W, s) && i < |s.pcs| && s.pcs[i].Unlocking?
    ensures Inv(W, Do(W, s, i))
  {
    ThreadOf(W, s, i);
    var s' := Do(W, s, i);
    HoldersMove(s.pcs, i, s'.pcs[i]);
    NoCopy(W, s, i);
    hide ThreadInv, SegInv, Tiled, Holders;
    forall j | 0 <= j < |s'.segs| ensures SegInv(s', j) {
      UnlockSeg(W, s, i, j);
    }
    forall m | 0 <= m < |s'.pcs| ensures ThreadInv(W, s', m) {
      UnlockThread(W, s, i, m);
    }
    forall m, k | 0 <= m < |s'.pcs| && 0 <= k < |s'.pcs| ensures Apart(s', m, k) {
      PairOf(W, s, m, k);
    }
  }

  lemma DoubleInv(W: nat, s: State, i: nat)
    requires Inv(W, s) && i < |s.pcs| && s.pcs[i].Copying? && |s.pcs[i].copy| >= 2 * |Current(s).entries|
    ensures Inv(W, Do(W, s, i))
  {
    ThreadOf(W, s, i);
    var job, copy, dir, s' := s.pcs[i].job, s.pcs[i].copy, Current(s), Do(W, s, i);
    var t, x := s.segs[job.target], Index(W, dir.depth, job.hash);
    ShrBound(job.hash, W - dir.depth, dir.depth);
    assert copy == Doubled(dir.entries, x, job.target, job.right);
    forall j | 0 <= j < |s.segs|
      ensures s.segs[j].phase == Unborn || s.segs[j].phase == Whole
      ensures s.segs[j].phase == Whole ==> s.segs[j].depth <= dir.depth
    {
      SegOf(W, s, j);
      if s.segs[j].phase.Giving? || s.segs[j].phase.Taking? { NoHolder(s.pcs, s.segs[j].phase.writer); }
    }
    DoubleIff(dir.depth, dir.entries, s.segs, job.target, job.right, x);
    forall m | 0 <= m < |s.pcs| && m != i
      ensures !s.pcs[m].Copying? && !s.pcs[m].Waiting? && !s.pcs[m].Writing?
    {
      ThreadOf(W, s, m);
      NoHolder(s.pcs, m);
    }
    HoldersMove(s.pcs, i, s'.pcs[i]);
    PublishFrame(W, s, i, s');
  }

  lemma CloseThread(W: nat, s: State, i: nat, m: nat)
    requires Inv(W, s) && i < |s.pcs| && m < |s.pcs| && s.pcs[i].Closing?
    ensures |Do(W, s, i).dirs| > 0 && |Do(W, s, i).pcs| == |s.pcs| && ThreadInv(W, Do(W, s, i), m)
  {
    hide Inv, Index, Shr, Pow2, DoubledEntry;
    Shape(W, s);
    ThreadOf(W, s, i);
    if m != i {
      ThreadOf(W, s, m);
      PairOf(W, s, i, m);
      if Pending(s.pcs[m]) { Disjoint(W, s, m, i); }
    }
  }

  lemma CloseSeg(W: nat, s: State, i: nat, j: nat)
    requires Inv(W, s) && i < |s.pcs| && s.pcs[i].Closing? && j < |s.segs|
    ensures j < |Do(W, s, i).segs| && |Do(W, s, i).dirs| > 0 && SegInv(Do(W, s, i), j)
  {
    hide Inv, Index, Shr, Pow2, DoubledEntry, Within;
    Shape(W, s);
    ThreadOf(W, s, i);
    SegOf(W, s, j);
  }

  lemma CloseInv(W: nat, s: State, i: nat)
    requires Inv(W, s) && i < |s.pcs| && s.pcs[i].Closing?
    ensures Inv(W, Do(W, s, i))
  {
    ThreadOf(W, s, i);
    var job, dir, s' := s.pcs[i].job, Current(s), Do(W, s, i);
    HoldersMove(s.pcs, i, Idle);
    TiledSame(dir.depth, dir.entries, s.segs, s'.segs);
    hide ThreadInv, SegInv, Tiled, JobInv, Holders;
    forall j | 0 <= j < |s'.segs| ensures SegInv(s', j) {
      CloseSeg(W, s, i, j);
    }
    forall m | 0 <= m < |s'.pcs| ensures ThreadInv(W, s', m) {
      CloseThread(W, s, i, m);
    }
    forall m, k | 0 <= m < |s'.pcs| && 0 <= k < |s'.pcs| ensures Apart(s', m, k) {
      PairOf(W, s, m, k);
    }
  }

  lemma GivingLocked(W: nat, s: State, j: nat)
    requires Inv(W, s) && j < |s.segs|
    ensures s.segs[j].phase.Giving? ==> s.segs[j].locked
  {
    SegOf(W, s, j);
    forall i | 0 <= i < |s.pcs| && s.pcs[i].Writing?
      ensures s.pcs[i].job.target < |s.segs| && s.segs[s.pcs[i].job.target].locked
    {
      ThreadOf(W, s, i);
    }
  }

  // A segment found through the directory, unlocked and not being published, is whole.
  lemma BeginWhole(W: nat, s: State, i: nat, j: nat, h: nat)
    requires Inv(W, s) && CanBegin(W, s, i, j, h) && !s.segs[j].phase.Taking?
    ensures var g := s.segs[j];
            g.phase == Whole && g.depth == g.localDepth && g.prefix == Index(W, g.localDepth, h)
  {
    var dir, g := Current(s), s.segs[j];
    var x := Index(W, dir.depth, h);
    SegOf(W, s, j);
    assert dir.entries[x] == j <==> Owns(dir.depth, g, x);
    GivingLocked(W, s, j);
    ShrShr(h, W - dir.depth, dir.depth - g.depth);
  }

  lemma BeginSelf(W: nat, s: State, i: nat, j: nat, h: nat)
    requires Inv(W, s) && CanBegin(W, s, i, j, h) && !s.segs[j].phase.Taking?
    ensures ThreadInv(W, Begin(W, s, i, j, h), i)
  {
    BeginWhole(W, s, i, j, h);
    hide Inv, Index, Shr, Pow2, DoubledEntry, Within;
  }

  lemma BeginThread(W: nat, s: State, i: nat, j: nat, h: nat, m: nat)
    requires Inv(W, s) && CanBegin(W, s, i, j, h) && !s.segs[j].phase.Taking? && m < |s.pcs|
    ensures ThreadInv(W, Begin(W, s, i, j, h), m)
  {
    hide Inv, Index, Shr, Pow2, DoubledEntry;
    Shape(W, s);
    if m == i {
      BeginSelf(W, s, i, j, h);
    } else {
      BeginWhole(W, s, i, j, h);
      ThreadOf(W, s, m);
    }
  }

  lemma BeginApart(W: nat, s: State, i: nat, j: nat, h: nat, m: nat, k: nat)
    requires Inv(W, s) && CanBegin(W, s, i, j, h) && !s.segs[j].phase.Taking? && m < |s.pcs| && k < |s.pcs|
    ensures Apart(Begin(W, s, i, j, h), m, k)
  {
    PairOf(W, s, m, k);
    ThreadOf(W, s, m);
    ThreadOf(W, s, k);
  }

  lemma BeginInv(W: nat, s: State, i: nat, j: nat, h: nat)
    requires Inv(W, s) && CanBegin(W, s, i, j, h) && !s.segs[j].phase.Taking?
    ensures Inv(W, Begin(W, s, i, j, h))
  {
    var dir, s' := Current(s), Begin(W, s, i, j, h);
    HoldersMove(s.pcs, i, s'.pcs[i]);
    TiledBirth(dir.depth, dir.entries, s.segs, s'.segs);
    forall m | 0 <= m < |s'.segs| ensures SegInv(s', m) {
      if m < |s.segs| { SegOf(W, s, m); }
    }
    forall m | 0 <= m < |s'.pcs| ensures ThreadInv(W, s', m) {
      BeginThread(W, s, i, j, h, m);
    }
    forall m, k | 0 <= m < |s'.pcs| && 0 <= k < |s'.pcs| ensures Apart(s', m, k) {
      BeginApart(W, s, i, j, h, m, k);
    }
  }

  lemma WritingInv(W: nat, s: State, i: nat)
    requires Inv(W, s) && i < |s.pcs| && s.pcs[i].Writing?
    ensures Inv(W, Do(W, s, i))
  {
    hide Inv, Do, Halves, JobInv;
    Shape(W, s);
    ThreadOf(W, s, i);
    if s.pcs[i].n + 1 < Pow2(Current(s).depth - s.pcs[i].job.l - 1) { WriteInv(W, s, i); } else { LastInv(W, s, i); }
  }

  lemma DoInv(W: nat, s: State, i: nat)
    requires Inv(W, s) && i < |s.pcs| && Guarded(s, Do(W, s, i))
    ensures Inv(W, Do(W, s, i))
  {
    hide Inv, StartsWhole, FreshJob, JobInv, Settled;
    Shape(W, s);
    ThreadOf(W, s, i);
    match s.pcs[i]
    case Idle =>
    case AtRetry(_) => QuietSteps(W, s, i);
    case CallSuspend(_) => QuietSteps(W, s, i);
    case CallLock(_) => QuietSteps(W, s, i);
    case InSuspend(_, d) =>
      if s.dirs[d].sema < 0 { QuietSteps(W, s, i); } else { SuspendInv(W, s, i); }
    case InLock(_, d) =>
      if s.dirs[d].sema < 0 { QuietSteps(W, s, i); } else { OpenInv(W, s, i); }
    case Waiting(_, _, _) => WaitInv(W, s, i);
    case Copying(_, copy) =>
      if |copy| < 2 * |Current(s).entries| { CopyInv(W, s, i); } else { DoubleInv(W, s, i); }
    case Writing(_, _) => WritingInv(W, s, i);
    case Unlocking(_) => UnlockInv(W, s, i);
    case Closing(_) => CloseInv(W, s, i);
  }

  // Every guarded step keeps the directory tiled by the segments.
  lemma NextInv(W: nat, s: State, s': State)
    requires Inv(W, s) && Next(W, s, s') && Guarded(s, s')
    ensures Inv(W, s')
  {
    if i :| 0 <= i < |s.pcs| && s' == Do(W, s, i) {
      DoInv(W, s, i);
    } else {
      var i: nat, j: nat, h: nat :| CanBegin(W, s, i, j, h) && s' == Begin(W, s, i, j, h);
      assert s'.pcs[i].AtRetry? && s'.pcs[i].job.target == j;
      BeginInv(W, s, i, j, h);
    }
  }

  // ---------------------------------------------------------------- whole runs

  // A table at rest.
  ghost predicate AtRest(W: nat, s: State) {
    Inv(W, s) && forall i :: 0 <= i < |s.pcs| ==> s.pcs[i] == Idle
  }

  // new ExtendibleHash(2^d) used by n threads
  function Fresh(d: nat, n: nat): State {
    State([Dir(d, seq(Pow2(d), k => k), 0, None)],
          seq(Pow2(d), k requires 0 <= k => Seg(d, false, d, k, Whole)),
          seq(n, _ => Idle))
  }

  lemma {:induction false} IdleHolders(pcs: seq<PC>)
    requires forall i :: 0 <= i < |pcs| ==> pcs[i] == Idle
    ensures Holders(pcs) == 0
    decreases |pcs|
  {
    if pcs != [] { IdleHolders(pcs[1..]); }
  }

  lemma FreshAtRest(W: nat, d: nat, n: nat)
    requires 1 <= d <= W
    ensures AtRest(W, Fresh(d, n))
  {
    IdleHolders(Fresh(d, n).pcs);
  }

  // Every step of the run is guarded.
  ghost predicate GuardedRun(W: nat, r: seq<State>) {
    && |r| > 0 && AtRest(W, r[0])
    && (forall n :: 0 <= n < |r| ==> |r[n].dirs| > 0)
    && forall n :: 0 <= n < |r| - 1 ==> Next(W, r[n], r[n + 1]) && Guarded(r[n], r[n + 1])
  }

  lemma {:induction false} RunInv(W: nat, r: seq<State>, n: nat)
    requires GuardedRun(W, r) && n < |r|
    ensures Inv(W, r[n])
    decreases n
  {
    if n > 0 {
      hide *;
      RunInv(W, r, n - 1);
      RunNext(W, r, n - 1);
      NextInv(W, r[n - 1], r[n]);
    }
  }

  lemma WithinTrans(g: Seg, g': Seg, depth: nat, prefix: nat)
    requires Within(g, depth, prefix) && Within(g', g.depth, g.prefix)
    ensures Within(g', depth, prefix)
  {
    ShrShr(g'.prefix, g'.depth - g.depth, g.depth - depth);
  }

  // A published segment keeps its block or splits it.
  lemma DoWithin(W: nat, s: State, i: nat, j: nat)
    requires |s.dirs| > 0 && i < |s.pcs| && j < |s.segs| && s.segs[j].phase != Unborn
    ensures var s' := Do(W, s, i);
            j < |s'.segs| && Within(s'.segs[j], s.segs[j].depth, s.segs[j].prefix)
  {
    assert Shr(2 * s.segs[j].prefix, 1) == Shr(s.segs[j].prefix, 0) == s.segs[j].prefix;
    if s.pcs[i].Writing? || s.pcs[i].Copying? || s.pcs[i].InLock? {
      hide WriteIndex, Index;
    }
  }

  lemma NextWithin(W: nat, s: State, s': State, j: nat)
    requires Next(W, s, s') && j < |s.segs| && s.segs[j].phase != Unborn
    ensures j < |s'.segs| && Within(s'.segs[j], s.segs[j].depth, s.segs[j].prefix)
  {
    hide Do;
    if i: nat :| 0 <= i < |s.pcs| && s' == Do(W, s, i) {
      DoWithin(W, s, i, j);
    }
  }

  lemma StepWithin(W: nat, s: State, s': State, j: nat, depth: nat, prefix: nat)
    requires Next(W, s, s') && j < |s.segs| && Within(s.segs[j], depth, prefix)
    ensures j < |s'.segs| && Within(s'.segs[j], depth, prefix)
  {
    hide Next;
    NextWithin(W, s, s', j);
    WithinTrans(s.segs[j], s'.segs[j], depth, prefix);
  }

  lemma RunNext(W: nat, r: seq<State>, n: nat)
    requires GuardedRun(W, r) && n < |r| - 1
    ensures Next(W, r[n], r[n + 1]) && Guarded(r[n], r[n + 1])
  {
    hide Next, Guarded, AtRest;
  }

  lemma {:induction false} RunWithin(W: nat, r: seq<State>, a: nat, b: nat, j: nat, depth: nat, prefix: nat)
    requires GuardedRun(W, r) && a <= b < |r| && j < |r[a].segs| && Within(r[a].segs[j], depth, prefix)
    ensures j < |r[b].segs| && Within(r[b].segs[j], depth, prefix)
    decreases b
  {
    hide *;
    if a < b {
      RunWithin(W, r, a, b - 1, j, depth, prefix);
      RunNext(W, r, b - 1);
      StepWithin(W, r[b - 1], r[b], j, depth, prefix);
    }
  }

  // The segment to which the published directory sends a hash value.
  function Route(W: nat, s: State, h: nat): int
    requires |s.dirs| > 0
  {
    var x := Index(W, Current(s).depth, h);
    if x < |Current(s).entries| then Current(s).entries[x] else -1
  }

  // ---------------------------------------------------------------- where hash values are sent

  // Every hash value is sent to a published segment that has its prefix.
  lemma RouteOwner(W: nat, s: State, h: nat)
    requires Inv(W, s) && h < Pow2(W)
    ensures |s.dirs| > 0 && 0 <= Route(W, s, h) < |s.segs|
    ensures var g := s.segs[Route(W, s, h)];
            g.phase != Unborn && g.depth <= W && Index(W, g.depth, h) == g.prefix
  {
    hide ThreadInv, SegInv, Apart, SemaInv;
    var dir := Current(s);
    var x := Index(W, dir.depth, h);
    ShrBound(h, W - dir.depth, dir.depth);
    var g := s.segs[dir.entries[x]];
    assert dir.entries[x] == dir.entries[x] <==> Owns(dir.depth, g, x);
    ShrShr(h, W - dir.depth, dir.depth - g.depth);
  }

  // A whole segment is sent every hash value of its prefix.
  lemma RouteWhole(W: nat, s: State, h: nat, j: nat)
    requires Inv(W, s) && h < Pow2(W) && j < |s.segs| && s.segs[j].phase == Whole
    requires Index(W, s.segs[j].depth, h) == s.segs[j].prefix
    ensures |s.dirs| > 0 && Route(W, s, h) == j
  {
    Shape(W, s);
    SegOf(W, s, j);
    hide ThreadInv, SegInv, Apart, SemaInv;
    var dir, g := Current(s), s.segs[j];
    var x := Index(W, dir.depth, h);
    ShrBound(h, W - dir.depth, dir.depth);
    ShrShr(h, W - dir.depth, dir.depth - g.depth);
    assert dir.entries[x] == j <==> Owns(dir.depth, g, x);
  }

  // What a step of thread i does to the segment of a hash value: nothing, or its split moves it.
  ghost predicate Moves(W: nat, s: State, i: nat, s': State, h: nat)
    requires |s.dirs| > 0 && |s'.dirs| > 0
  {
    || Route(W, s', h) == Route(W, s, h)
    || (i < |s.pcs| && s.pcs[i] != Idle
        && var job := s.pcs[i].job;
           && Route(W, s, h) == job.target && Route(W, s', h) == job.right
           && job.target < |s.segs| && job.right < |s'.segs|
           && Within(s'.segs[job.right], s.segs[job.target].depth, s.segs[job.target].prefix))
  }

  lemma HalfWithin(t: Seg, r: Seg, r': Seg)
    requires IsHalf(t, r) && r'.depth == r.depth && r'.prefix == r.prefix && r'.phase != Unborn
    ensures Within(r', t.depth, t.prefix)
  {
    assert Shr(2 * t.prefix + 1, 1) == Shr(t.prefix, 0) == t.prefix;
  }

  lemma WriteTarget(W: nat, s: State, i: nat)
    requires Inv(W, s) && i < |s.pcs| && s.pcs[i].Writing?
    ensures |s.dirs| > 0 && ThreadInv(W, s, i)
    ensures var job, dir := s.pcs[i].job, Current(s);
            var x := Middle(dir.depth, s.segs[job.target]) + s.pcs[i].n;
            x < |dir.entries| && dir.entries[x] == job.target
  {
    WriteTiled(W, s, i);
    var job, dir := s.pcs[i].job, Current(s);
    var x := Middle(dir.depth, s.segs[job.target]) + s.pcs[i].n;
    hide SegInv, Apart, SemaInv, DoubledEntry, WriteIndex;
    assert dir.entries[x] == job.target <==> Owns(dir.depth, s.segs[job.target], x);
    UpperHalf(dir.depth, s.segs[job.target], x);
  }

  // The entry that is overwritten sent its hash values to the target.
  lemma WriteMoves(W: nat, s: State, i: nat, h: nat)
    requires Inv(W, s) && i < |s.pcs| && s.pcs[i].Writing? && h < Pow2(W)
    ensures |s.dirs| > 0 && |Do(W, s, i).dirs| > 0 && Moves(W, s, i, Do(W, s, i), h)
  {
    WriteTiled(W, s, i);
    WriteTarget(W, s, i);
    var job, n, dir, s' := s.pcs[i].job, s.pcs[i].n, Current(s), Do(W, s, i);
    var x := Middle(dir.depth, s.segs[job.target]) + n;
    hide Tiled, Inv, Middle, WriteIndex, Within, Pow2, Index, Shr;
    HalfWithin(s.segs[job.target], s.segs[job.right], s'.segs[job.right]);
    assert Current(s').entries == dir.entries[x := job.right] && Current(s').depth == dir.depth;
  }

  // A doubled directory sends hash values as before, but for the halves.
  lemma CopyMoves(W: nat, s: State, i: nat, h: nat)
    requires Inv(W, s) && i < |s.pcs| && s.pcs[i].Copying? && |s.pcs[i].copy| >= 2 * |Current(s).entries|
    requires h < Pow2(W)
    ensures |s.dirs| > 0 && |Do(W, s, i).dirs| > 0 && Moves(W, s, i, Do(W, s, i), h)
  {
    ThreadOf(W, s, i);
    Shape(W, s);
    var job, dir, s' := s.pcs[i].job, Current(s), Do(W, s, i);
    var x := Index(W, dir.depth, job.hash);
    TargetEntry(W, s, i);
    HalfWithin(s.segs[job.target], s.segs[job.right], s'.segs[job.right]);
    DeeperIndex(W, dir.depth, h);
    var z := Index(W, dir.depth + 1, h);
    assert |dir.entries| == Pow2(dir.depth);
    hide Tiled, Inv, ThreadInv, Within, Pow2, Shr, FreshJob, Index;
    assert Current(s').entries[z] == DoubledEntry(dir.entries, x, job.target, job.right, z);
  }

  lemma TargetEntry(W: nat, s: State, i: nat)
    requires Inv(W, s) && i < |s.pcs| && s.pcs[i].Copying?
    ensures |s.dirs| > 0
    ensures var x := Index(W, Current(s).depth, s.pcs[i].job.hash);
            x < |Current(s).entries| && Current(s).entries[x] == s.pcs[i].job.target
  {
    ThreadOf(W, s, i);
    Shape(W, s);
    var job, dir := s.pcs[i].job, Current(s);
    var x := Index(W, dir.depth, job.hash);
    ShrBound(job.hash, W - dir.depth, dir.depth);
    hide ThreadInv, SegInv, Apart, SemaInv;
    assert dir.entries[x] == job.target <==> Owns(dir.depth, s.segs[job.target], x);
    assert Shr(x, 0) == x;
  }

  lemma DeeperIndex(W: nat, d: nat, h: nat)
    requires d < W && h < Pow2(W)
    ensures Index(W, d, h) < Pow2(d) && Index(W, d + 1, h) < 2 * Pow2(d)
    ensures Index(W, d + 1, h) / 2 == Index(W, d, h)
  {
    ShrBound(h, W - d, d);
    ShrBound(h, W - d - 1, d + 1);
    ShrLast(h, W - d - 1);
  }

  // No other step changes an entry of the current directory.
  lemma DoMoves(W: nat, s: State, i: nat, h: nat)
    requires Inv(W, s) && i < |s.pcs| && h < Pow2(W)
    ensures |s.dirs| > 0 && |Do(W, s, i).dirs| > 0 && Moves(W, s, i, Do(W, s, i), h)
  {
    Shape(W, s);
    if s.pcs[i].Writing? {
      WriteMoves(W, s, i, h);
    } else if s.pcs[i].Copying? && |s.pcs[i].copy| >= 2 * |Current(s).entries| {
      CopyMoves(W, s, i, h);
    } else {
      SameEntries(W, s, i);
      hide Do, Inv;
    }
  }

  lemma SameEntries(W: nat, s: State, i: nat)
    requires |s.dirs| > 0 && i < |s.pcs| && !s.pcs[i].Writing?
    requires s.pcs[i].Copying? ==> |s.pcs[i].copy| < 2 * |Current(s).entries|
    ensures var s' := Do(W, s, i);
            && |s'.dirs| == |s.dirs|
            && Current(s').depth == Current(s).depth && Current(s').entries == Current(s).entries
  {
    hide Index;
  }

  // The hash value is sent to a published segment whose block lies in the one of (depth, prefix).
  ghost predicate SentInto(W: nat, s: State, h: nat, depth: nat, prefix: nat) {
    |s.dirs| > 0 && 0 <= Route(W, s, h) < |s.segs| && Within(s.segs[Route(W, s, h)], depth, prefix)
  }

  // It stays there.
  lemma NextRoute(W: nat, s: State, s': State, h: nat, depth: nat, prefix: nat)
    requires Inv(W, s) && Next(W, s, s') && h < Pow2(W) && |s'.dirs| > 0 && SentInto(W, s, h, depth, prefix)
    ensures SentInto(W, s', h, depth, prefix)
  {
    StepWithin(W, s, s', Route(W, s, h), depth, prefix);
    if i: nat :| 0 <= i < |s.pcs| && s' == Do(W, s, i) {
      DoMoves(W, s, i, h);
      hide Do, Inv, Route, Next, Within;
      if Route(W, s', h) != Route(W, s, h) {
        var job := s.pcs[i].job;
        WithinTrans(s.segs[job.target], s'.segs[job.right], depth, prefix);
      }
    }
  }

  lemma {:induction false} RunRoute(W: nat, r: seq<State>, a: nat, b: nat, h: nat, depth: nat, prefix: nat)
    requires GuardedRun(W, r) && a <= b < |r| && h < Pow2(W) && SentInto(W, r[a], h, depth, prefix)
    ensures SentInto(W, r[b], h, depth, prefix)
    decreases b
  {
    hide *;
    if a < b {
      RunRoute(W, r, a, b - 1, h, depth, prefix);
      RunNext(W, r, b - 1);
      RunInv(W, r, b - 1);
      RunDirs(W, r, b);
      NextRoute(W, r[b - 1], r[b], h, depth, prefix);
    }
  }

  ghost predicate LeavesHalves(W: nat, s: State, job: Job) {
    && job.target < |s.segs| && job.right < |s.segs|
    && IsBlock(s.segs[job.target], job.l + 1, 2 * Index(W, job.l, job.hash))
    && IsBlock(s.segs[job.right], job.l + 1, 2 * Index(W, job.l, job.hash) + 1)
  }

  lemma OwnPublish(W: nat, s: State, i: nat)
    requires |s.dirs| > 0 && i < |s.pcs| && ThreadInv(W, s, i) && Published(Do(W, s, i).pcs[i])
    ensures HasJob(s.pcs[i]) && s.pcs[i].job == Do(W, s, i).pcs[i].job
    ensures Published(s.pcs[i]) || LeavesHalves(W, Do(W, s, i), s.pcs[i].job)
  {
    hide Index, Pow2, Shr, WriteIndex, Within, DoubledEntry;
  }

  // A split that has been published was published by a step of its thread, which left both halves
  // whole.
  lemma PublishStep(W: nat, s: State, s': State, i: nat, job: Job)
    requires Inv(W, s) && Next(W, s, s') && i < |s.pcs| && i < |s'.pcs| && PublishedBy(s'.pcs[i], job)
    ensures PublishedBy(s.pcs[i], job) || LeavesHalves(W, s', job)
  {
    Shape(W, s);
    ThreadOf(W, s, i);
    hide Inv, LeavesHalves, ThreadInv, Index;
    if m: nat :| 0 <= m < |s.pcs| && s' == Do(W, s, m) {
      if m == i { OwnPublish(W, s, i); } else { OtherMoves(W, s, m, i); }
    }
    hide Do;
  }

  predicate IsBlock(g: Seg, depth: nat, prefix: nat) {
    g.phase == Whole && g.depth == depth && g.prefix == prefix
  }

  predicate PublishedBy(pc: PC, job: Job) {
    Published(pc) && pc.job == job
  }

  // The hash value shares the upper l bits with the pair that caused the split.
  ghost predicate InBlockOf(W: nat, job: Job, h: nat) {
    var p := Index(W, job.l, job.hash);
    Index(W, job.l + 1, h) == 2 * p || Index(W, job.l + 1, h) == 2 * p + 1
  }

  // The hash value is sent into its half of the split.
  ghost predicate SentByHalf(W: nat, s: State, job: Job, h: nat) {
    SentInto(W, s, h, job.l + 1, Index(W, job.l + 1, h))
  }

  lemma HalfRoute(W: nat, s: State, job: Job, h: nat)
    requires Inv(W, s) && h < Pow2(W) && LeavesHalves(W, s, job) && InBlockOf(W, job, h)
    ensures SentByHalf(W, s, job, h)
  {
    var q := Index(W, job.l + 1, h);
    RouteWhole(W, s, h, if q == 2 * Index(W, job.l, job.hash) then job.target else job.right);
    assert Shr(q, 0) == q;
    hide Inv, Index, Route;
  }

  lemma SentNext(W: nat, s: State, s': State, job: Job, h: nat)
    requires Inv(W, s) && Inv(W, s') && Next(W, s, s') && h < Pow2(W) && SentByHalf(W, s, job, h)
    ensures SentByHalf(W, s', job, h)
  {
    hide Inv, Next, SentInto, Index, Pow2;
    Shape(W, s');
    NextRoute(W, s, s', h, job.l + 1, Index(W, job.l + 1, h));
  }

  lemma PublishedStep(W: nat, s: State, s': State, i: nat, job: Job, h: nat)
    requires Inv(W, s) && Inv(W, s') && Next(W, s, s') && h < Pow2(W) && i < |s.pcs| && i < |s'.pcs|
    requires PublishedBy(s'.pcs[i], job) && InBlockOf(W, job, h)
    requires PublishedBy(s.pcs[i], job) ==> SentByHalf(W, s, job, h)
    ensures SentByHalf(W, s', job, h)
  {
    hide *;
    PublishStep(W, s, s', i, job);
    if PublishedBy(s.pcs[i], job) {
      SentNext(W, s, s', job, h);
    } else {
      HalfRoute(W, s', job, h);
    }
  }

  // A published split sends every hash value of its block into its half.
  lemma {:induction false} PublishedRoute(W: nat, r: seq<State>, a: nat, i: nat, job: Job, h: nat)
    requires GuardedRun(W, r) && a < |r| && i < |r[a].pcs| && PublishedBy(r[a].pcs[i], job)
    requires InBlockOf(W, job, h) && h < Pow2(W)
    ensures SentByHalf(W, r[a], job, h)
    decreases a
  {
    hide *;
    if a == 0 {
      RunStart(W, r, i, job);
    } else {
      SameThreads(W, r, a - 1);
      RunInv(W, r, a - 1);
      RunInv(W, r, a);
      RunNext(W, r, a - 1);
      if PublishedBy(r[a - 1].pcs[i], job) { PublishedRoute(W, r, a - 1, i, job, h); }
      PublishedStep(W, r[a - 1], r[a], i, job, h);
    }
  }

  lemma RunDirs(W: nat, r: seq<State>, n: nat)
    requires GuardedRun(W, r) && n < |r|
    ensures |r[n].dirs| > 0
  {
    hide AtRest, Next, Guarded;
  }

  lemma RunStart(W: nat, r: seq<State>, i: nat, job: Job)
    requires GuardedRun(W, r) && i < |r[0].pcs|
    ensures !PublishedBy(r[0].pcs[i], job)
  {
    hide Inv, Next, Guarded;
  }

  lemma SameThreads(W: nat, r: seq<State>, n: nat)
    requires GuardedRun(W, r) && n < |r| - 1
    ensures |r[n + 1].pcs| == |r[n].pcs|
  {
    RunNext(W, r, n);
    hide GuardedRun;
    hide Index, WriteIndex;
  }

  // No update is lost: once a split has been published, whatever splits and doublings follow,
  // every hash value of its block is sent into its half, so none of the upper half to the old
  // segment and none of the lower half to the new one.
  lemma NoLostSplit(W: nat, r: seq<State>, a: nat, b: nat, i: nat, job: Job, h: nat)
    requires GuardedRun(W, r) && a <= b < |r| && i < |r[a].pcs| && PublishedBy(r[a].pcs[i], job)
    requires InBlockOf(W, job, h) && h < Pow2(W)
    ensures |r[b].dirs| > 0 && SentByHalf(W, r[b], job, h)
    ensures Index(W, job.l + 1, h) % 2 == 1 ==> Route(W, r[b], h) != job.target
    ensures Index(W, job.l + 1, h) % 2 == 0 ==> Route(W, r[b], h) != job.right
  {
    hide *;
    PublishedRoute(W, r, a, i, job, h);
    SentRun(W, r, a, b, job, h);
    LaterWithin(W, r, a, b, i, job);
    RunDirs(W, r, b);
    HalfKept(W, r[b], job, h);
  }

  lemma SentRun(W: nat, r: seq<State>, a: nat, b: nat, job: Job, h: nat)
    requires GuardedRun(W, r) && a <= b < |r| && h < Pow2(W) && SentByHalf(W, r[a], job, h)
    ensures SentByHalf(W, r[b], job, h)
  {
    hide GuardedRun, SentInto;
    RunRoute(W, r, a, b, h, job.l + 1, Index(W, job.l + 1, h));
  }

  // The old segment keeps the lower half and the new one the upper half, or parts of them.
  ghost predicate HalvesKept(W: nat, s: State, job: Job) {
    && job.target < |s.segs| && job.right < |s.segs|
    && Within(s.segs[job.target], job.l + 1, 2 * Index(W, job.l, job.hash))
    && Within(s.segs[job.right], job.l + 1, 2 * Index(W, job.l, job.hash) + 1)
  }

  lemma PublishedWithin(W: nat, s: State, i: nat, job: Job)
    requires Inv(W, s) && i < |s.pcs| && PublishedBy(s.pcs[i], job)
    ensures HalvesKept(W, s, job)
  {
    ThreadOf(W, s, i);
    var p := Index(W, job.l, job.hash);
    assert Shr(2 * p, 0) == 2 * p;
    hide Inv, Index;
  }

  lemma LaterWithin(W: nat, r: seq<State>, a: nat, b: nat, i: nat, job: Job)
    requires GuardedRun(W, r) && a <= b < |r| && i < |r[a].pcs| && PublishedBy(r[a].pcs[i], job)
    ensures HalvesKept(W, r[b], job)
  {
    RunInv(W, r, a);
    PublishedWithin(W, r[a], i, job);
    hide GuardedRun, Inv, Within, Index, PublishedBy;
    RunWithin(W, r, a, b, job.target, job.l + 1, 2 * Index(W, job.l, job.hash));
    RunWithin(W, r, a, b, job.right, job.l + 1, 2 * Index(W, job.l, job.hash) + 1);
  }

  lemma HalfKept(W: nat, s: State, job: Job, h: nat)
    requires |s.dirs| > 0 && HalvesKept(W, s, job) && SentByHalf(W, s, job, h) && InBlockOf(W, job, h)
    ensures Index(W, job.l + 1, h) % 2 == 1 ==> Route(W, s, h) != job.target
    ensures Index(W, job.l + 1, h) % 2 == 0 ==> Route(W, s, h) != job.right
  {
    hide Index, Shr, Route;
  }

  // A lock that succeeds is on the published directory.
  lemma LockOnCurrent(W: nat, r: seq<State>, n: nat, i: nat)
    requires GuardedRun(W, r) && n < |r| - 1 && i < |r[n].pcs| && i < |r[n + 1].pcs|
    requires r[n].pcs[i].InLock? && r[n + 1].pcs[i].Writing?
    ensures r[n].pcs[i].d == |r[n].dirs| - 1
    ensures |r[n + 1].dirs| == |r[n].dirs|
  {
    RunInv(W, r, n);
    assert Next(W, r[n], r[n + 1]);
    LockStep(W, r[n], r[n + 1], i);
  }

  lemma LockStep(W: nat, s: State, s': State, i: nat)
    requires Inv(W, s) && Next(W, s, s') && i < |s.pcs| && i < |s'.pcs|
    requires s.pcs[i].InLock? && s'.pcs[i].Writing?
    ensures s.pcs[i].d == |s.dirs| - 1 && |s'.dirs| == |s.dirs|
  {
    ThreadOf(W, s, i);
    assert forall j: nat, m: nat, h: nat :: CanBegin(W, s, m, j, h) ==> Begin(W, s, m, j, h).pcs[i] == s.pcs[i];
    var m: nat :| 0 <= m < |s.pcs| && s' == Do(W, s, m);
    assert m == i by { OtherMoves(W, s, m, i); }
    if s.dirs[s.pcs[i].d].sema >= 0 { OnCurrent(W, s, s.pcs[i].d); }
  }

  // While a thread holds the lock, the directory is not replaced.
  lemma HeldStep(W: nat, s: State, s': State, i: nat)
    requires Inv(W, s) && Next(W, s, s') && i < |s.pcs| && Holds(s.pcs[i])
    ensures |s'.dirs| == |s.dirs|
  {
    NoCopy(W, s, i);
    hide Inv, Index, WriteIndex;
  }

  lemma {:induction false} HeldDirectory(W: nat, r: seq<State>, a: nat, b: nat, i: nat)
    requires GuardedRun(W, r) && a <= b < |r|
    requires forall n :: a <= n < b ==> i < |r[n].pcs| && Holds(r[n].pcs[i])
    ensures |r[b].dirs| == |r[a].dirs|
    decreases b
  {
    hide *;
    if a < b {
      HeldDirectory(W, r, a, b - 1, i);
      RunInv(W, r, b - 1);
      RunNext(W, r, b - 1);
      HeldStep(W, r[b - 1], r[b], i);
    }
  }

  lemma OtherMoves(W: nat, s: State, m: nat, i: nat)
    requires |s.dirs| > 0 && m < |s.pcs| && i < |s.pcs|
    ensures m != i ==> Do(W, s, m).pcs[i] == s.pcs[i]
  {}

  // Two threads that write at the same time overwrite disjoint blocks.
  lemma WritersDisjoint(W: nat, r: seq<State>, n: nat, i: nat, m: nat, k: nat)
    requires GuardedRun(W, r) && n < |r| && i < |r[n].pcs| && m < |r[n].pcs| && i != m
    requires r[n].pcs[i].Writing? && r[n].pcs[m].Writing? && k < |Current(r[n]).entries|
    ensures r[n].pcs[i].job.target < |r[n].segs| && r[n].pcs[m].job.target < |r[n].segs|
    ensures !(InBlock(Current(r[n]).depth, r[n].segs[r[n].pcs[i].job.target], k)
              && InBlock(Current(r[n]).depth, r[n].segs[r[n].pcs[m].job.target], k))
  {
    var s := r[n];
    RunInv(W, r, n);
    Disjoint(W, s, i, m);
    BlockOwner(W, s, i, k);
    BlockOwner(W, s, m, k);
  }

  // While a thread writes, the entries of its target's block name the target or the new half.
  lemma BlockOwner(W: nat, s: State, i: nat, k: nat)
    requires Inv(W, s) && i < |s.pcs| && s.pcs[i].Writing? && k < |Current(s).entries|
    ensures s.pcs[i].job.target < |s.segs|
    ensures InBlock(Current(s).depth, s.segs[s.pcs[i].job.target], k) ==>
              Current(s).entries[k] == s.pcs[i].job.target || Current(s).entries[k] == s.pcs[i].job.right
  {
    ThreadOf(W, s, i);
    var dir, job, n := Current(s), s.pcs[i].job, s.pcs[i].n;
    var t, r := s.segs[job.target], s.segs[job.right];
    assert dir.entries[k] == job.target <==> Owns(dir.depth, t, k);
    assert dir.entries[k] == job.right <==> Owns(dir.depth, r, k);
    TakingIs(dir.depth, t, r, n, i, k);
  }
}
