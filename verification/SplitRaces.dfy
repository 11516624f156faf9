/**
  Two runs of the split protocol on a new table that lose an update
  (index/extendible_hash.h:289-361): each breaks one of the two conditions of
  SplitProtocol.Guarded and respects the other.
*/
module SplitRaces {
  import opened Bits
  import opened SplitProtocol

  // A run of two threads on a new table of two segments, with hash values of three bits.  Every
  // step obeys the rule.
  ghost predicate RuledRun(rule: (State, State) -> bool, r: seq<State>) {
    && |r| > 0 && r[0] == Fresh(1, 2)
    && forall n :: 0 <= n < |r| - 1 ==> Next(3, r[n], r[n + 1]) && rule(r[n], r[n + 1])
  }

  ghost predicate Reachable(rule: (State, State) -> bool, s: State) {
    exists r :: RuledRun(rule, r) && r[|r| - 1] == s
  }

  // Thread i has published its split, and the directory sends a hash value of the upper half to the
  // segment that gave it away.
  predicate Lost(s: State, i: nat, job: Job, h: nat) {
    && |s.dirs| > 0 && i < |s.pcs| && PublishedBy(s.pcs[i], job) && h < Pow2(3)
    && Index(3, job.l + 1, h) == 2 * Index(3, job.l, job.hash) + 1
    && Route(3, s, h) == job.target
  }

  lemma Extend(rule: (State, State) -> bool, s: State, s': State)
    requires Reachable(rule, s) && Next(3, s, s') && rule(s, s')
    ensures Reachable(rule, s')
  {
    hide Fresh, Next;
    var r :| RuledRun(rule, r) && r[|r| - 1] == s;
    var r' := r + [s'];
    forall n | 0 <= n < |r'| - 1 ensures Next(3, r'[n], r'[n + 1]) && rule(r'[n], r'[n + 1]) {
      if n < |r| - 1 { assert Next(3, r[n], r[n + 1]) && rule(r[n], r[n + 1]); }
    }
    assert RuledRun(rule, r');
  }

  lemma FreshReachable(rule: (State, State) -> bool)
    ensures Reachable(rule, Fresh(1, 2))
  {
    hide Fresh;
    assert RuledRun(rule, [Fresh(1, 2)]);
  }

  // Steps of a thread that is not in suspend obey the rule.
  ghost predicate Harmless(rule: (State, State) -> bool) {
    forall s: State, i: nat :: Calm(s, i) ==> rule(s, Do(3, s, i))
  }

  predicate Calm(s: State, i: nat) {
    |s.dirs| > 0 && i < |s.pcs| && !s.pcs[i].InSuspend?
  }

  lemma BothHarmless()
    ensures Harmless(StartsWhole) && Harmless(DepthHolds)
  {
    forall s: State, i: nat | Calm(s, i) ensures StartsWhole(s, Do(3, s, i)) && DepthHolds(s, Do(3, s, i)) {
      StepStarts(s, i);
    }
  }

  lemma StepStarts(s: State, i: nat)
    requires |s.dirs| > 0 && i < |s.pcs|
    ensures StartsWhole(s, Do(3, s, i))
  {}

  lemma Step(rule: (State, State) -> bool, s: State, i: nat, s': State)
    requires Reachable(rule, s) && Harmless(rule) && Calm(s, i) && Do(3, s, i) == s'
    ensures Reachable(rule, s')
  {
    hide Reachable;
    Extend(rule, s, s');
  }

  lemma SuspendStep(rule: (State, State) -> bool, s: State, i: nat, s': State)
    requires Reachable(rule, s) && |s.dirs| > 0 && i < |s.pcs| && Do(3, s, i) == s' && rule(s, s')
    ensures Reachable(rule, s')
  {
    hide Reachable;
    Extend(rule, s, s');
  }

  lemma Start(rule: (State, State) -> bool, s: State, i: nat, j: nat, h: nat, s': State)
    requires Reachable(rule, s) && CanBegin(3, s, i, j, h) && Begin(3, s, i, j, h) == s' && rule(s, s')
    ensures Reachable(rule, s')
  {
    hide Reachable;
    Extend(rule, s, s');
  }

  // One round of the loop of lines 300-309.
  lemma CopyRound(rule: (State, State) -> bool, s: State, i: nat, job: Job, copy: seq<nat>, k: nat, pair: seq<nat>,
                  s': State)
    requires Reachable(rule, s) && Harmless(rule) && |s.dirs| > 0 && i < |s.pcs| && s.pcs[i] == Copying(job, copy)
    requires k < |Current(s).entries| && |copy| == 2 * k
    requires pair == if k == Index(3, Current(s).depth, job.hash) then [job.target, job.right]
                     else [Current(s).entries[k], Current(s).entries[k]]
    requires s'.dirs == s.dirs && s'.segs == s.segs && s'.pcs == s.pcs[i := Copying(job, copy + pair)]
    ensures Reachable(rule, s')
  {
    hide Reachable, Harmless;
    Step(rule, s, i, s');
  }

  // ---------------------------------------------------------------- the first split

  const LEFT := Seg(1, false, 1, 0, Whole)
  const FIRST := Job(1, 2, 1, 4)
  const HALF1 := Seg(2, false, 2, 3, Unborn)
  const HALF1_WHOLE := Seg(2, false, 2, 3, Whole)

  const DIR1 := Dir(1, [0, 1], 0, None)
  const DIR2 := Dir(2, [0, 0, 1, 2], 0, None)
  const GONE1 := Dir(1, [0, 1], -1, Some(0, 0))

  lemma FreshIs()
    ensures Fresh(1, 2) == State([DIR1], [LEFT, Seg(1, false, 1, 1, Whole)], [Idle, Idle])
  {
    assert Pow2(1) == 2;
    assert Fresh(1, 2).dirs[0].entries == [0, 1];
    assert Fresh(1, 2).segs == [LEFT, Seg(1, false, 1, 1, Whole)];
    assert Fresh(1, 2).pcs == [Idle, Idle];
  }

  // Thread 0 splits segment 1.
  function Splitting(dirs: seq<Dir>, a: PC): State {
    State(dirs, [LEFT, Seg(1, true, 1, 1, Whole), HALF1], [a, Idle])
  }

  lemma FirstBegins(rule: (State, State) -> bool)
    requires rule == StartsWhole || rule == DepthHolds
    ensures Reachable(rule, Splitting([DIR1], AtRetry(FIRST)))
  {
    FreshIs();
    assert Index(3, 1, 4) == 1;
    FreshReachable(rule);
    hide Fresh, Reachable;
    Start(rule, Fresh(1, 2), 0, 1, 4, Splitting([DIR1], AtRetry(FIRST)));
  }

  // ---------------------------------------------------------------- a stale depth test

  const SECOND := Job(0, 3, 1, 0)
  const HALF0 := Seg(2, false, 2, 1, Unborn)
  const DIR3 := Dir(3, [0, 3, 0, 0, 1, 1, 2, 2], 0, None)
  const GONE2 := Dir(2, [0, 0, 1, 2], -1, Some(0, 1))

  // Threads a and b split the two segments of a directory of depth 1.
  function Both(dirs: seq<Dir>, a: PC, b: PC): State {
    State(dirs, [Seg(1, true, 1, 0, Whole), Seg(1, true, 1, 1, Whole), HALF1, HALF0], [a, b])
  }

  // Segment 1 is split.
  function OneDone(dirs: seq<Dir>, b: PC): State {
    State(dirs, [Seg(1, true, 1, 0, Whole), Seg(1, true, 2, 2, Whole), HALF1_WHOLE, HALF0], [Closing(FIRST), b])
  }

  // Both are.
  function BothDone(dirs: seq<Dir>): State {
    State(dirs, [Seg(1, true, 2, 0, Whole), Seg(1, true, 2, 2, Whole), HALF1_WHOLE, Seg(2, false, 2, 1, Whole)],
          [Closing(FIRST), Closing(SECOND)])
  }

  lemma BothBegin()
    ensures Reachable(StartsWhole, Both([DIR1], AtRetry(FIRST), AtRetry(SECOND)))
  {
    FirstBegins(StartsWhole);
    assert Index(3, 1, 0) == 0;
    hide Reachable;
    Start(StartsWhole, Splitting([DIR1], AtRetry(FIRST)), 1, 0, 0, Both([DIR1], AtRetry(FIRST), AtRetry(SECOND)));
  }

  lemma FirstSuspends()
    ensures Reachable(StartsWhole, Both([GONE1], Copying(FIRST, []), CallSuspend(SECOND)))
  {
    BothBegin();
    BothHarmless();
    hide Reachable, Harmless;
    var b := CallSuspend(SECOND);
    var a := AtRetry(SECOND);
    Step(StartsWhole, Both([DIR1], AtRetry(FIRST), a), 0, Both([DIR1], CallSuspend(FIRST), a));
    Step(StartsWhole, Both([DIR1], CallSuspend(FIRST), a), 1, Both([DIR1], CallSuspend(FIRST), b));
    Step(StartsWhole, Both([DIR1], CallSuspend(FIRST), b), 0, Both([DIR1], InSuspend(FIRST, 0), b));
    SuspendStep(StartsWhole, Both([DIR1], InSuspend(FIRST, 0), b), 0, Both([GONE1], Waiting(FIRST, 0, 0), b));
    Step(StartsWhole, Both([GONE1], Waiting(FIRST, 0, 0), b), 0, Both([GONE1], Copying(FIRST, []), b));
  }

  lemma FirstCopies()
    ensures Reachable(StartsWhole, Both([GONE1], Copying(FIRST, [0, 0, 1, 2]), CallSuspend(SECOND)))
  {
    FirstSuspends();
    BothHarmless();
    hide Reachable, Harmless, Do;
    assert Index(3, 1, 4) == 1;
    assert [] + [0, 0] == [0, 0] && [0, 0] + [1, 2] == [0, 0, 1, 2];
    var b := CallSuspend(SECOND);
    var s0, s1 := Both([GONE1], Copying(FIRST, []), b), Both([GONE1], Copying(FIRST, [0, 0]), b);
    CopyRound(StartsWhole, s0, 0, FIRST, [], 0, [0, 0], s1);
    CopyRound(StartsWhole, s1, 0, FIRST, [0, 0], 1, [1, 2], Both([GONE1], Copying(FIRST, [0, 0, 1, 2]), b));
  }

  lemma SecondSuspends()
    ensures Reachable(StartsWhole, OneDone([GONE1, GONE2], Copying(SECOND, [])))
  {
    FirstCopies();
    BothHarmless();
    hide Reachable, Harmless;
    var b, dirs := CallSuspend(SECOND), [GONE1, DIR2];
    Step(StartsWhole, Both([GONE1], Copying(FIRST, [0, 0, 1, 2]), b), 0, OneDone(dirs, b));
    Step(StartsWhole, OneDone(dirs, b), 1, OneDone(dirs, InSuspend(SECOND, 1)));
    SuspendStep(StartsWhole, OneDone(dirs, InSuspend(SECOND, 1)), 1, OneDone([GONE1, GONE2], Waiting(SECOND, 1, 0)));
    Step(StartsWhole, OneDone([GONE1, GONE2], Waiting(SECOND, 1, 0)), 1, OneDone([GONE1, GONE2], Copying(SECOND, [])));
  }

  // The state of the second copying loop.
  function Copied(copy: seq<nat>): State {
    OneDone([GONE1, GONE2], Copying(SECOND, copy))
  }

  lemma SecondCopies()
    ensures Reachable(StartsWhole, Copied([0, 3, 0, 0, 1, 1, 2, 2]))
  {
    SecondSuspends();
    BothHarmless();
    hide Reachable, Harmless, Do;
    assert Index(3, 2, 0) == 0;
    var c1, c2, c3 := [0, 3], [0, 3, 0, 0], [0, 3, 0, 0, 1, 1];
    assert [] + [0, 3] == c1 && c1 + [0, 0] == c2 && c2 + [1, 1] == c3;
    assert c3 + [2, 2] == [0, 3, 0, 0, 1, 1, 2, 2];
    CopyRound(StartsWhole, Copied([]), 1, SECOND, [], 0, [0, 3], Copied(c1));
    CopyRound(StartsWhole, Copied(c1), 1, SECOND, c1, 1, [0, 0], Copied(c2));
    CopyRound(StartsWhole, Copied(c2), 1, SECOND, c2, 2, [1, 1], Copied(c3));
    CopyRound(StartsWhole, Copied(c3), 1, SECOND, c3, 3, [2, 2], Copied([0, 3, 0, 0, 1, 1, 2, 2]));
  }

  // Without the depth condition: both threads pass the test of line 291, the second doubles the
  // doubled directory, and hash 2, which moved to segment 3, is still sent to segment 0.
  lemma StaleDepthLoses()
    ensures exists s :: Reachable(StartsWhole, s) && Lost(s, 1, SECOND, 2)
  {
    SecondCopies();
    BothHarmless();
    hide Reachable, Harmless;
    var s := BothDone([GONE1, GONE2, DIR3]);
    Step(StartsWhole, Copied([0, 3, 0, 0, 1, 1, 2, 2]), 1, s);
    assert Lost(s, 1, SECOND, 2);
  }

  // ---------------------------------------------------------------- two sequential splits

  const MID := Seg(2, false, 2, 2, Whole)
  const LOW := Seg(3, false, 3, 6, Whole)
  const HIGH := Seg(3, false, 3, 7, Whole)
  const THIRD := Job(2, 3, 2, 6)
  const GONE2_ALONE := Dir(2, [0, 0, 1, 2], -1, Some(0, 0))

  lemma FirstAlone()
    ensures Reachable(DepthHolds, Splitting([GONE1], Copying(FIRST, [])))
  {
    FirstBegins(DepthHolds);
    BothHarmless();
    hide Reachable, Harmless;
    Step(DepthHolds, Splitting([DIR1], AtRetry(FIRST)), 0, Splitting([DIR1], CallSuspend(FIRST)));
    Step(DepthHolds, Splitting([DIR1], CallSuspend(FIRST)), 0, Splitting([DIR1], InSuspend(FIRST, 0)));
    SuspendStep(DepthHolds, Splitting([DIR1], InSuspend(FIRST, 0)), 0, Splitting([GONE1], Waiting(FIRST, 0, 0)));
    Step(DepthHolds, Splitting([GONE1], Waiting(FIRST, 0, 0)), 0, Splitting([GONE1], Copying(FIRST, [])));
  }

  lemma FirstAloneCopies()
    ensures Reachable(DepthHolds, Splitting([GONE1], Copying(FIRST, [0, 0, 1, 2])))
  {
    FirstAlone();
    BothHarmless();
    hide Reachable, Harmless, Do;
    assert Index(3, 1, 4) == 1;
    assert [] + [0, 0] == [0, 0] && [0, 0] + [1, 2] == [0, 0, 1, 2];
    var s0, s1 := Splitting([GONE1], Copying(FIRST, [])), Splitting([GONE1], Copying(FIRST, [0, 0]));
    CopyRound(DepthHolds, s0, 0, FIRST, [], 0, [0, 0], s1);
    CopyRound(DepthHolds, s1, 0, FIRST, [0, 0], 1, [1, 2], Splitting([GONE1], Copying(FIRST, [0, 0, 1, 2])));
  }

  // After the first split, and during the second, of segment 2.
  const ONCE := State([GONE1, DIR2], [LEFT, MID, HALF1_WHOLE], [Idle, Idle])

  function Again(dirs: seq<Dir>, a: PC): State {
    State([GONE1] + dirs, [LEFT, MID, Seg(2, true, 2, 3, Whole), Seg(3, false, 3, 7, Unborn)], [a, Idle])
  }

  lemma FirstDone()
    ensures Reachable(DepthHolds, ONCE)
  {
    FirstAloneCopies();
    BothHarmless();
    hide Reachable, Harmless;
    var s := State([GONE1, DIR2], [LEFT, Seg(1, true, 2, 2, Whole), HALF1_WHOLE], [Closing(FIRST), Idle]);
    Step(DepthHolds, Splitting([GONE1], Copying(FIRST, [0, 0, 1, 2])), 0, s);
    Step(DepthHolds, s, 0, ONCE);
  }

  lemma ThirdBegins()
    ensures CanBegin(3, ONCE, 0, 2, 6) && Begin(3, ONCE, 0, 2, 6) == Again([DIR2], AtRetry(THIRD))
    ensures DepthHolds(ONCE, Again([DIR2], AtRetry(THIRD)))
  {
    assert Index(3, 2, 6) == 3;
    assert [GONE1] + [DIR2] == [GONE1, DIR2];
  }

  lemma ThirdAlone()
    ensures Reachable(DepthHolds, Again([GONE2_ALONE], Copying(THIRD, [])))
  {
    FirstDone();
    ThirdBegins();
    BothHarmless();
    hide Reachable, Harmless, CanBegin, Begin;
    Start(DepthHolds, ONCE, 0, 2, 6, Again([DIR2], AtRetry(THIRD)));
    Step(DepthHolds, Again([DIR2], AtRetry(THIRD)), 0, Again([DIR2], CallSuspend(THIRD)));
    Step(DepthHolds, Again([DIR2], CallSuspend(THIRD)), 0, Again([DIR2], InSuspend(THIRD, 1)));
    SuspendStep(DepthHolds, Again([DIR2], InSuspend(THIRD, 1)), 0, Again([GONE2_ALONE], Waiting(THIRD, 1, 0)));
    Step(DepthHolds, Again([GONE2_ALONE], Waiting(THIRD, 1, 0)), 0, Again([GONE2_ALONE], Copying(THIRD, [])));
  }

  function Recopied(copy: seq<nat>): State {
    Again([GONE2_ALONE], Copying(THIRD, copy))
  }

  const START := [0, 0, 0, 0, 1, 1, 2, 3]

  lemma ThirdCopies()
    ensures Reachable(DepthHolds, Recopied(START))
  {
    ThirdAlone();
    BothHarmless();
    hide Reachable, Harmless, Do;
    assert Index(3, 2, 6) == 3;
    var c1, c2, c3 := [0, 0], [0, 0, 0, 0], [0, 0, 0, 0, 1, 1];
    assert [] + [0, 0] == c1 && c1 + [0, 0] == c2 && c2 + [1, 1] == c3 && c3 + [2, 3] == START;
    CopyRound(DepthHolds, Recopied([]), 0, THIRD, [], 0, [0, 0], Recopied(c1));
    CopyRound(DepthHolds, Recopied(c1), 0, THIRD, c1, 1, [0, 0], Recopied(c2));
    CopyRound(DepthHolds, Recopied(c2), 0, THIRD, c2, 2, [1, 1], Recopied(c3));
    CopyRound(DepthHolds, Recopied(c3), 0, THIRD, c3, 3, [2, 3], Recopied(START));
  }

  // The directories of what follows; only the last one changes.
  function Dirs(entries: seq<nat>, sema: int): seq<Dir> {
    [GONE1, GONE2_ALONE, Dir(3, entries, sema, None)]
  }

  // Again a table at rest.
  const TWICE := State(Dirs(START, 0), [LEFT, MID, LOW, HIGH], [Idle, Idle])

  lemma ThirdDone()
    ensures Reachable(DepthHolds, TWICE)
  {
    ThirdCopies();
    BothHarmless();
    hide Reachable, Harmless;
    var s := State(Dirs(START, 0), [LEFT, MID, Seg(2, true, 3, 6, Whole), HIGH], [Closing(THIRD), Idle]);
    Step(DepthHolds, Recopied(START), 0, s);
    Step(DepthHolds, s, 0, TWICE);
  }

  // ---------------------------------------------------------------- a split of a half that is still published

  const OUTER := Job(0, 4, 1, 0)
  const INNER := Job(4, 5, 2, 2)

  // Thread 0 splits segment 0 into segments 0 and 4.
  function OuterHas(entries: seq<nat>, sema: int, t: Seg, r: Seg, a: PC): State {
    State(Dirs(entries, sema), [t, MID, LOW, HIGH, r], [a, Idle])
  }

  function OuterIdle(a: PC): State {
    OuterHas(START, 0, Seg(1, true, 1, 0, Whole), Seg(2, false, 2, 1, Unborn), a)
  }

  function OuterAt(entries: seq<nat>, n: nat): State {
    OuterHas(entries, 1, Seg(1, true, 1, 0, Giving(n, 0)), Seg(2, false, 2, 1, Taking(n, 0)), Writing(OUTER, n))
  }

  // Thread 1 splits segment 4, one of whose two entries is written, into segments 4 and 5.
  function InnerHas(entries: seq<nat>, sema: int, t: Seg, r: Seg, b: PC): State {
    State(Dirs(entries, sema), [Seg(1, true, 1, 0, Giving(1, 0)), MID, LOW, HIGH, t, r], [Writing(OUTER, 1), b])
  }

  const ONE_WRITTEN := [0, 0, 4, 0, 1, 1, 2, 3]
  const INNER_WRITTEN := [0, 0, 4, 5, 1, 1, 2, 3]
  const OVERWRITTEN := [0, 0, 4, 4, 1, 1, 2, 3]

  function InnerIdle(b: PC): State {
    InnerHas(ONE_WRITTEN, 1, Seg(2, true, 2, 1, Taking(1, 0)), Seg(3, false, 3, 3, Unborn), b)
  }

  const INNER_OPEN :=
    InnerHas(ONE_WRITTEN, 2, Seg(2, true, 2, 1, Giving(0, 1)), Seg(3, false, 3, 3, Taking(0, 1)), Writing(INNER, 0))

  function InnerDone(sema: int, b: PC): State {
    InnerHas(INNER_WRITTEN, sema, Seg(2, true, 3, 2, Whole), Seg(3, false, 3, 3, Whole), b)
  }

  // The outer split has written its last entry over that of the inner one.
  const BROKEN := State(Dirs(OVERWRITTEN, 1),
                        [Seg(1, true, 2, 0, Whole), MID, LOW, HIGH,
                         Seg(2, true, 3, 2, Whole), Seg(3, false, 3, 3, Whole)],
                        [Unlocking(OUTER), Closing(INNER)])

  lemma OuterBegins()
    ensures CanBegin(3, TWICE, 0, 0, 0) && Begin(3, TWICE, 0, 0, 0) == OuterIdle(AtRetry(OUTER))
    ensures DepthHolds(TWICE, OuterIdle(AtRetry(OUTER)))
  {
    assert Index(3, 3, 0) == 0 && Index(3, 1, 0) == 0;
  }

  lemma OuterStarts()
    ensures Reachable(DepthHolds, OuterAt(START, 0))
  {
    ThirdDone();
    OuterBegins();
    BothHarmless();
    hide Reachable, Harmless, CanBegin, Begin;
    Start(DepthHolds, TWICE, 0, 0, 0, OuterIdle(AtRetry(OUTER)));
    Step(DepthHolds, OuterIdle(AtRetry(OUTER)), 0, OuterIdle(CallLock(OUTER)));
    Step(DepthHolds, OuterIdle(CallLock(OUTER)), 0, OuterIdle(InLock(OUTER, 2)));
    Step(DepthHolds, OuterIdle(InLock(OUTER, 2)), 0, OuterAt(START, 0));
  }

  // One round of the writing loop.
  lemma WriteRound(s: State, i: nat, job: Job, n: nat, k: nat, half: nat)
    requires |s.dirs| > 0 && i < |s.pcs| && s.pcs[i] == Writing(job, n)
    requires job.target < |s.segs| && job.right < |s.segs|
    requires job.l < Current(s).depth && half == Pow2(Current(s).depth - job.l) / 2
    requires k == WriteIndex(3, Current(s).depth, job, n) && k < |Current(s).entries|
    ensures var cur := |s.dirs| - 1;
            var w := WithDir(s, cur, Current(s).(entries := Current(s).entries[k := job.right]));
            Do(3, s, i) == if n + 1 < half then Write(w, i, job, n + 1) else Publish(w, i, job, Unlocking(job))
  {
    hide WriteIndex, Pow2, Index, Write, Publish;
  }

  lemma OuterIndex()
    ensures WriteIndex(3, 3, OUTER, 0) == 2 && WriteIndex(3, 3, OUTER, 1) == 3 && Pow2(2) / 2 == 2
  {
    assert Index(3, 3, 0) == 0;
  }

  lemma OuterWrite()
    ensures Do(3, OuterAt(START, 0), 0) == OuterAt(ONE_WRITTEN, 1)
  {
    hide Do, WriteIndex, Index;
    OuterIndex();
    hide Pow2;
    WriteRound(OuterAt(START, 0), 0, OUTER, 0, 2, 2);
    assert START[2 := 4] == ONE_WRITTEN;
  }

  lemma InnerBegins()
    ensures CanBegin(3, OuterAt(ONE_WRITTEN, 1), 1, 4, 2)
    ensures Begin(3, OuterAt(ONE_WRITTEN, 1), 1, 4, 2) == InnerIdle(AtRetry(INNER))
    ensures DepthHolds(OuterAt(ONE_WRITTEN, 1), InnerIdle(AtRetry(INNER)))
  {
    assert Index(3, 3, 2) == 2 && Index(3, 2, 2) == 1;
  }

  lemma InnerStarts()
    ensures Reachable(DepthHolds, INNER_OPEN)
  {
    OuterStarts();
    OuterWrite();
    InnerBegins();
    BothHarmless();
    hide Reachable, Harmless, CanBegin, Begin, WriteIndex, Index, Pow2;
    Step(DepthHolds, OuterAt(START, 0), 0, OuterAt(ONE_WRITTEN, 1));
    Start(DepthHolds, OuterAt(ONE_WRITTEN, 1), 1, 4, 2, InnerIdle(AtRetry(INNER)));
    Step(DepthHolds, InnerIdle(AtRetry(INNER)), 1, InnerIdle(CallLock(INNER)));
    Step(DepthHolds, InnerIdle(CallLock(INNER)), 1, InnerIdle(InLock(INNER, 2)));
    Step(DepthHolds, InnerIdle(InLock(INNER, 2)), 1, INNER_OPEN);
  }

  lemma InnerIndex(job: Job, t: Seg)
    requires job == INNER && t.depth == 2 && t.prefix == 1
    ensures WriteIndex(3, 3, job, 0) == 3
  {
    assert Index(3, 2, job.hash) == 1 && Pow2(0) == 1;
    hide WriteIndex;
    WriteIndexIs(3, 3, t, job, 0);
  }

  lemma InnerWrites()
    ensures Do(3, INNER_OPEN, 1) == InnerDone(2, Unlocking(INNER))
  {
    hide Do, WriteIndex, Index;
    InnerIndex(INNER, Seg(2, true, 2, 1, Whole));
    assert Pow2(1) == 2;
    hide Pow2;
    WriteRound(INNER_OPEN, 1, INNER, 0, 3, 1);
    assert ONE_WRITTEN[3 := 5] == INNER_WRITTEN;
  }

  lemma OuterOverwrites()
    ensures Do(3, InnerDone(1, Closing(INNER)), 0) == BROKEN
  {
    hide Do, WriteIndex, Index;
    OuterIndex();
    hide Pow2;
    WriteRound(InnerDone(1, Closing(INNER)), 0, OUTER, 1, 3, 2);
    assert INNER_WRITTEN[3 := 4] == OVERWRITTEN;
  }

  lemma InnerIsLost()
    ensures Lost(BROKEN, 1, INNER, 3)
  {
    assert Index(3, 3, 3) == 3 && Index(3, 2, 2) == 1;
  }

  // Without the other condition: the new half is split while its own entries are still being
  // written, the outer writer then overwrites an entry of the inner split, and hash 3, which moved
  // to segment 5, is sent to segment 4.
  lemma NestedSplitLoses()
    ensures exists s :: Reachable(DepthHolds, s) && Lost(s, 1, INNER, 3)
  {
    InnerStarts();
    InnerWrites();
    OuterOverwrites();
    InnerIsLost();
    BothHarmless();
    hide Reachable, Harmless, Lost, WriteIndex, Index, Pow2;
    Step(DepthHolds, INNER_OPEN, 1, InnerDone(2, Unlocking(INNER)));
    Step(DepthHolds, InnerDone(2, Unlocking(INNER)), 1, InnerDone(1, Closing(INNER)));
    Step(DepthHolds, InnerDone(1, Closing(INNER)), 0, BROKEN);
  }
}
