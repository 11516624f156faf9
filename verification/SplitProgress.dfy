/**
  A split that nobody disturbs is carried out (index/extendible_hash.h:287-361): how the steps of one
  thread go on from any state that a guarded run reaches.
*/
module SplitProgress {
  import opened Bits
  import opened SplitProtocol

  // Nothing is in the way of thread i: where its next test is one of the counter, no suspend has
  // swapped it, and it is 0 where the thread has to double the directory.
  ghost predicate Clear(s: State, i: nat, job: Job) {
    && |s.dirs| > 0 && i < |s.pcs| && s.pcs[i] != Idle && s.pcs[i].job == job
    && match s.pcs[i]
       case AtRetry(_) => if job.l == Current(s).depth then Current(s).sema == 0 else Current(s).sema >= 0
       case CallSuspend(_) => Current(s).sema == 0 && job.l == Current(s).depth
       case InSuspend(_, d) => d == |s.dirs| - 1 && Current(s).sema == 0 && job.l == Current(s).depth
       case Waiting(_, _, v) => v == 0
       case CallLock(_) => Current(s).sema >= 0
       case InLock(_, d) => d == |s.dirs| - 1 && Current(s).sema >= 0
       case _ => true
  }

  // Half the entries of the block that is divided.
  function HalfBlock(s: State, job: Job): nat
    requires |s.dirs| > 0
  {
    if job.l < Current(s).depth then Pow2(Current(s).depth - job.l - 1) else 0
  }

  // The number of steps to the end of the split.
  function Steps(s: State, i: nat): int
    requires |s.dirs| > 0 && i < |s.pcs|
  {
    var e := |Current(s).entries|;
    match s.pcs[i]
    case Idle => 0
    case AtRetry(job) => if job.l == Current(s).depth then e + 6 else HalfBlock(s, job) + 5
    case CallSuspend(_) => e + 5
    case InSuspend(_, _) => e + 4
    case Waiting(_, _, _) => e + 3
    case Copying(_, copy) => e - |copy| / 2 + 2
    case CallLock(job) => HalfBlock(s, job) + 4
    case InLock(job, _) => HalfBlock(s, job) + 3
    case Writing(job, n) => HalfBlock(s, job) - n + 2
    case Unlocking(_) => 2
    case Closing(_) => 1
  }

  // ---------------------------------------------------------------- one step

  lemma StepGuarded(W: nat, s: State, i: nat, job: Job)
    requires Inv(W, s) && Clear(s, i, job)
    ensures Guarded(s, Do(W, s, i))
  {
    hide Inv, Index, WriteIndex;
  }

  // The phases before the shared data are written.
  lemma StepBefore(W: nat, s: State, i: nat, job: Job)
    requires Inv(W, s) && Clear(s, i, job)
    requires var pc := s.pcs[i];
             pc.AtRetry? || pc.CallSuspend? || pc.InSuspend? || pc.Waiting? || pc.CallLock? || pc.InLock?
    ensures var s' := Do(W, s, i); Clear(s', i, job) && Steps(s', i) == Steps(s, i) - 1
  {
    ThreadOf(W, s, i);
    hide Inv, Index, Pow2;
  }

  lemma StepCopy(W: nat, s: State, i: nat, job: Job)
    requires Inv(W, s) && Clear(s, i, job) && s.pcs[i].Copying?
    ensures var s' := Do(W, s, i); Clear(s', i, job) && Steps(s', i) == Steps(s, i) - 1
  {
    ThreadOf(W, s, i);
    hide Inv, Index, Pow2;
  }

  lemma StepWrite(W: nat, s: State, i: nat, job: Job)
    requires Inv(W, s) && Clear(s, i, job) && s.pcs[i].Writing?
    ensures var s' := Do(W, s, i); Clear(s', i, job) && Steps(s', i) == Steps(s, i) - 1
  {
    WriteTiled(W, s, i);
    HalfStride(Current(s).depth - job.l);
    hide Inv, Tiled, Index, WriteIndex, Middle;
  }

  lemma StepClear(W: nat, s: State, i: nat, job: Job)
    requires Inv(W, s) && Clear(s, i, job) && !s.pcs[i].Closing?
    ensures var s' := Do(W, s, i);
            Inv(W, s') && Guarded(s, s') && Clear(s', i, job) && Steps(s', i) == Steps(s, i) - 1
  {
    StepGuarded(W, s, i, job);
    DoInv(W, s, i);
    match s.pcs[i]
    case Copying(_, _) => StepCopy(W, s, i, job);
    case Writing(_, _) => StepWrite(W, s, i, job);
    case Unlocking(_) =>
    case _ => StepBefore(W, s, i, job);
  }

  // ---------------------------------------------------------------- the whole split

  ghost function Last(r: seq<State>): State
    requires r != []
  {
    r[|r| - 1]
  }

  // From its state number a on, the run consists of steps of thread i.
  ghost predicate StepsOf(W: nat, i: nat, r: seq<State>, a: nat) {
    forall n :: a <= n < |r| - 1 ==> |r[n].dirs| > 0 && i < |r[n].pcs| && r[n + 1] == Do(W, r[n], i)
  }

  lemma Append(W: nat, r: seq<State>, i: nat)
    requires GuardedRun(W, r) && i < |Last(r).pcs| && |Last(r).dirs| > 0 && Guarded(Last(r), Do(W, Last(r), i))
    requires |Do(W, Last(r), i).dirs| > 0
    ensures GuardedRun(W, r + [Do(W, Last(r), i)])
  {
    hide Do, Guarded, AtRest;
    var r' := r + [Do(W, Last(r), i)];
    assert Next(W, Last(r), Do(W, Last(r), i));
    hide Next;
    forall n | 0 <= n < |r'| - 1 ensures Next(W, r'[n], r'[n + 1]) && Guarded(r'[n], r'[n + 1]) {
      if n < |r| - 1 { assert Next(W, r[n], r[n + 1]) && Guarded(r[n], r[n + 1]); }
    }
  }

  // The split goes on to the point where both halves are published.
  lemma {:induction false} Continue(W: nat, r: seq<State>, i: nat, job: Job) returns (r': seq<State>)
    requires r != [] && GuardedRun(W, r) && Clear(Last(r), i, job)
    ensures GuardedRun(W, r') && r <= r' && StepsOf(W, i, r', |r| - 1) && |r'| == |r| + Steps(Last(r), i) - 1
    ensures i < |Last(r').pcs| && Last(r').pcs[i] == Closing(job)
    decreases Steps(Last(r), i)
  {
    var s := Last(r);
    RunInv(W, r, |r| - 1);
    if s.pcs[i].Closing? {
      r' := r;
    } else {
      StepClear(W, s, i, job);
      StepsLeft(W, s, i, job);
      hide *;
      var t := Do(W, s, i);
      Shape(W, t);
      Append(W, r, i);
      r' := Continue(W, r + [t], i, job);
      JoinSteps(W, i, r, t, r');
    }
  }

  lemma StepsLeft(W: nat, s: State, i: nat, job: Job)
    requires Inv(W, s) && Clear(s, i, job)
    ensures Steps(s, i) >= 1
  {
    ThreadOf(W, s, i);
    hide Inv, Tiled, Pow2;
  }

  lemma JoinSteps(W: nat, i: nat, r: seq<State>, t: State, r': seq<State>)
    requires r != [] && |Last(r).dirs| > 0 && i < |Last(r).pcs| && t == Do(W, Last(r), i)
    requires r + [t] <= r' && StepsOf(W, i, r', |r|)
    ensures r <= r' && StepsOf(W, i, r', |r| - 1)
  {
    hide Do;
    assert r'[|r|] == (r + [t])[|r|] == t && r'[|r| - 1] == (r + [t])[|r| - 1];
  }

  // The splitter is done: its segment is unlocked and one level deeper, and every hash value of the
  // block is sent into its half.
  ghost predicate Done(W: nat, s: State, i: nat, job: Job) {
    && i < |s.pcs| && s.pcs[i] == Idle
    && job.target < |s.segs| && !s.segs[job.target].locked && s.segs[job.target].localDepth == job.l + 1
    && forall h :: 0 <= h < Pow2(W) && InBlockOf(W, job, h) ==>
         && SentByHalf(W, s, job, h)
         && (Index(W, job.l + 1, h) % 2 == 1 ==> Route(W, s, h) != job.target)
         && (Index(W, job.l + 1, h) % 2 == 0 ==> Route(W, s, h) != job.right)
  }

  lemma ClosingStep(W: nat, s: State, i: nat, job: Job)
    requires Inv(W, s) && i < |s.pcs| && s.pcs[i] == Closing(job)
    ensures |s.dirs| > 0 && Guarded(s, Do(W, s, i)) && PublishedBy(s.pcs[i], job)
    ensures var s' := Do(W, s, i);
            && i < |s'.pcs| && s'.pcs[i] == Idle
            && job.target < |s'.segs| && !s'.segs[job.target].locked && s'.segs[job.target].localDepth == job.l + 1
  {
    ThreadOf(W, s, i);
    StepGuarded(W, s, i, job);
    hide Inv, Index, WriteIndex, Guarded;
  }

  lemma SnocSteps(W: nat, i: nat, r: seq<State>, a: nat)
    requires a < |r| && StepsOf(W, i, r, a) && |Last(r).dirs| > 0 && i < |Last(r).pcs|
    ensures StepsOf(W, i, r + [Do(W, Last(r), i)], a)
  {
    hide Do;
  }

  // After every guarded run, a split with a clear way and no other step in between is carried out
  // in exactly that many steps.
  lemma SplitAlone(W: nat, r: seq<State>, i: nat, job: Job) returns (r': seq<State>)
    requires r != [] && GuardedRun(W, r) && Clear(Last(r), i, job)
    ensures GuardedRun(W, r') && r <= r' && StepsOf(W, i, r', |r| - 1) && |r'| == |r| + Steps(Last(r), i)
    ensures Done(W, Last(r'), i, job)
  {
    hide GuardedRun, Inv, Clear, Steps, StepsOf, Do, Guarded, Index, Route, SentByHalf, InBlockOf, PublishedBy;
    var q := Continue(W, r, i, job);
    var s := Last(q);
    RunInv(W, q, |q| - 1);
    ClosingStep(W, s, i, job);
    assert |s.dirs| > 0;
    DoInv(W, s, i);
    Shape(W, Do(W, s, i));
    Append(W, q, i);
    r' := q + [Do(W, s, i)];
    SnocSteps(W, i, q, |r| - 1);
    forall h | 0 <= h < Pow2(W) && InBlockOf(W, job, h)
      ensures SentByHalf(W, Last(r'), job, h)
      ensures Index(W, job.l + 1, h) % 2 == 1 ==> Route(W, Last(r'), h) != job.target
      ensures Index(W, job.l + 1, h) % 2 == 0 ==> Route(W, Last(r'), h) != job.right
    {
      NoLostSplit(W, r', |q| - 1, |q|, i, job, h);
    }
  }

  // A split whose segment is as deep as the directory has a clear way when no other thread holds or
  // suspends it, and any other split when none suspends it.
  lemma BegunClear(W: nat, s: State, i: nat, job: Job)
    requires Inv(W, s) && i < |s.pcs| && s.pcs[i] == AtRetry(job) && Current(s).swap.None?
    requires job.l == Current(s).depth ==> Holders(s.pcs) == 0
    ensures Clear(s, i, job)
    ensures job.l <= Current(s).depth
    ensures Steps(s, i) == if job.l == Current(s).depth then Pow2(job.l) + 6
                           else Pow2(Current(s).depth - job.l - 1) + 5
  {
    ThreadOf(W, s, i);
    SegOf(W, s, job.target);
    hide Index, Pow2;
  }
}
