/**
  The counter protocol of Directory (index/extendible_hash.h): lock, unlock and suspend by any
  number of threads, one shared read or compare-and-swap at a time.
*/
module DirectorySemaphore {
  // Where a thread is.  Values are what it last read from sema.
  datatype PC =
    | Idle
    | InLock | LockCas(val: int)
    | Locked
    | InUnlock | UnlockCas(val: int)
    | InSuspend | SuspendCas(val: int)
    | Waiting(val: int)
    | Suspended

  datatype Swap = None | Some(val: int, winner: nat)

  // swap records the suspend whose compare-and-swap succeeded; no step reads it.
  datatype State = State(sema: int, pcs: seq<PC>, swap: Swap)

  predicate Holds(pc: PC) {
    pc.Locked? || pc.InUnlock? || pc.UnlockCas?
  }

  function Holders(pcs: seq<PC>): nat {
    if pcs == [] then 0 else Holders(pcs[1..]) + (if Holds(pcs[0]) then 1 else 0)
  }

  predicate Init(s: State) {
    s.sema == 0 && s.swap == None && forall i :: 0 <= i < |s.pcs| ==> s.pcs[i] == Idle
  }

  function Move(s: State, i: nat, pc: PC): State
    requires i < |s.pcs|
  {
    s.(pcs := s.pcs[i := pc])
  }

  // The steps of thread i.
  predicate Step(s: State, i: nat, s': State)
    requires i < |s.pcs|
  {
    match s.pcs[i]
    case Idle => s' == Move(s, i, InLock) || s' == Move(s, i, InSuspend)
    case InLock => s' == Move(s, i, if s.sema > -1 then LockCas(s.sema) else Idle)
    case LockCas(v) => s' == if s.sema == v then Move(s, i, Locked).(sema := v + 1) else Move(s, i, InLock)
    case Locked => s' == Move(s, i, InUnlock)
    case InUnlock => s' == Move(s, i, UnlockCas(s.sema))
    case UnlockCas(v) => s' == if s.sema == v then Move(s, i, Idle).(sema := v - 1) else Move(s, i, InUnlock)
    case InSuspend => s' == Move(s, i, if s.sema < 0 then Idle else SuspendCas(s.sema))
    case SuspendCas(v) =>
      s' == if s.sema == v then Move(s, i, Waiting(v)).(sema := -1, swap := Some(v, i)) else Move(s, i, InSuspend)
    case Waiting(v) => s' == if v != 0 && s.sema != 0 - v - 1 then s else Move(s, i, Suspended)
    case Suspended => s' == Move(s, i, Idle)
  }

  ghost predicate Next(s: State, s': State) {
    exists i :: 0 <= i < |s.pcs| && Step(s, i, s')
  }

  ghost predicate Run(r: seq<State>) {
    |r| > 0 && Init(r[0]) && forall n :: 0 <= n < |r| - 1 ==> Next(r[n], r[n + 1])
  }

  // ---------------------------------------------------------------- invariant

  ghost predicate Inv(s: State) {
    (forall i :: 0 <= i < |s.pcs| ==> ThreadInv(s, i)) && SwapInv(s)
  }

  ghost predicate SwapInv(s: State) {
    match s.swap
    case None => s.sema == Holders(s.pcs)
    case Some(v, w) =>
      && s.sema == Holders(s.pcs) - v - 1
      && Holders(s.pcs) <= v
      && w < |s.pcs|
      && (s.pcs[w] == Waiting(v) || (Holders(s.pcs) == 0 && !s.pcs[w].Waiting?))
  }

  ghost predicate ThreadInv(s: State, i: nat)
    requires i < |s.pcs|
  {
    && (s.pcs[i].LockCas? || s.pcs[i].SuspendCas? ==> s.pcs[i].val >= 0)
    && (s.pcs[i].Waiting? || s.pcs[i].Suspended? ==> s.swap.Some? && s.swap.winner == i)
  }

  lemma {:induction false} HoldersMove(pcs: seq<PC>, i: nat, pc: PC)
    requires i < |pcs|
    ensures Holders(pcs[i := pc]) + (if Holds(pcs[i]) then 1 else 0) == Holders(pcs) + (if Holds(pc) then 1 else 0)
    decreases |pcs|
  {
    if i == 0 {
      assert pcs[0 := pc][1..] == pcs[1..];
    } else {
      assert pcs[i := pc][1..] == pcs[1..][i - 1 := pc];
      HoldersMove(pcs[1..], i - 1, pc);
    }
  }

  lemma {:induction false} NoHolder(pcs: seq<PC>, i: nat)
    requires Holders(pcs) == 0 && i < |pcs|
    ensures !Holds(pcs[i])
    decreases |pcs|
  {
    if i > 0 { NoHolder(pcs[1..], i - 1); }
  }

  lemma {:induction false} InitHolders(pcs: seq<PC>)
    requires forall i :: 0 <= i < |pcs| ==> pcs[i] == Idle
    ensures Holders(pcs) == 0
    decreases |pcs|
  {
    if pcs != [] { InitHolders(pcs[1..]); }
  }

  lemma StepThread(s: State, i: nat, s': State, m: nat)
    requires Inv(s) && i < |s.pcs| && Step(s, i, s') && m < |s.pcs|
    ensures |s'.pcs| == |s.pcs| && ThreadInv(s', m)
  {
    assert ThreadInv(s, m) && ThreadInv(s, i);
  }

  // A step moves one thread.
  lemma StepHolders(s: State, i: nat, s': State)
    requires i < |s.pcs| && Step(s, i, s') && s' != s
    ensures |s'.pcs| == |s.pcs| && forall m :: 0 <= m < |s.pcs| && m != i ==> s'.pcs[m] == s.pcs[m]
    ensures Holders(s'.pcs) + (if Holds(s.pcs[i]) then 1 else 0)
         == Holders(s.pcs) + (if Holds(s'.pcs[i]) then 1 else 0)
  {
    assert s'.pcs == s.pcs[i := s'.pcs[i]];
    hide Step, Holders, Holds;
    HoldersMove(s.pcs, i, s'.pcs[i]);
  }

  lemma StepNoSwap(s: State, i: nat, s': State)
    requires Inv(s) && i < |s.pcs| && Step(s, i, s') && s' != s && s.swap.None?
    ensures SwapInv(s')
  {
    assert ThreadInv(s, i);
    StepHolders(s, i, s');
    hide Inv, ThreadInv, Holders;
  }

  lemma StepSwapped(s: State, i: nat, s': State)
    requires Inv(s) && i < |s.pcs| && Step(s, i, s') && s' != s && s.swap.Some?
    ensures SwapInv(s')
  {
    assert ThreadInv(s, i);
    StepHolders(s, i, s');
    hide Inv, ThreadInv, Holders;
  }

  // Every step keeps the counter exact.
  lemma StepInv(s: State, i: nat, s': State)
    requires Inv(s) && i < |s.pcs| && Step(s, i, s')
    ensures Inv(s') && |s'.pcs| == |s.pcs|
  {
    if s' != s {
      hide Step, ThreadInv, SwapInv, Holders, Holds;
      StepHolders(s, i, s');
      if s.swap.None? { StepNoSwap(s, i, s'); } else { StepSwapped(s, i, s'); }
      forall m | 0 <= m < |s'.pcs| ensures ThreadInv(s', m) {
        StepThread(s, i, s', m);
      }
    }
  }

  lemma RunStep(r: seq<State>, n: nat) returns (i: nat)
    requires Run(r) && n < |r| - 1
    ensures i < |r[n].pcs| && Step(r[n], i, r[n + 1])
  {
    hide Step;
    assert Next(r[n], r[n + 1]);
    i :| 0 <= i < |r[n].pcs| && Step(r[n], i, r[n + 1]);
  }

  lemma {:induction false} RunInv(r: seq<State>, n: nat)
    requires Run(r) && n < |r|
    ensures Inv(r[n]) && |r[n].pcs| == |r[0].pcs|
    decreases n
  {
    if n == 0 {
      InitHolders(r[0].pcs);
    } else {
      hide *;
      RunInv(r, n - 1);
      var i := RunStep(r, n - 1);
      StepInv(r[n - 1], i, r[n]);
    }
  }

  // ---------------------------------------------------------------- safety

  // The winner's wait is over.  It may have returned since, and may be calling again.
  ghost predicate WinnerDone(s: State) {
    s.swap.Some? && s.swap.winner < |s.pcs| && !s.pcs[s.swap.winner].Waiting?
  }

  lemma StepSwap(s: State, i: nat, s': State)
    requires Inv(s) && i < |s.pcs| && Step(s, i, s') && s.swap.Some?
    ensures s'.swap == s.swap
    ensures WinnerDone(s) ==> WinnerDone(s')
  {
    assert ThreadInv(s, i);
  }

  // Once a suspend has swapped the counter it stays swapped, and its winner stays the winner.
  lemma {:induction false} SwapStays(r: seq<State>, a: nat, b: nat)
    requires Run(r) && a <= b < |r| && r[a].swap.Some?
    ensures Inv(r[b]) && r[b].swap == r[a].swap
    ensures WinnerDone(r[a]) ==> WinnerDone(r[b])
    decreases b - a
  {
    hide *;
    RunInv(r, b);
    if a < b {
      SwapStays(r, a, b - 1);
      var i := RunStep(r, b - 1);
      StepSwap(r[b - 1], i, r[b]);
    }
  }

  // suspend returns true to thread i, or a lock succeeds for it.
  ghost predicate Returns(s: State, s': State, i: nat) {
    i < |s.pcs| == |s'.pcs| && s.pcs[i] != Suspended && s'.pcs[i] == Suspended
  }

  ghost predicate Acquires(s: State, s': State, i: nat) {
    i < |s.pcs| == |s'.pcs| && s.pcs[i] != Locked && s'.pcs[i] == Locked
  }

  // A step to Suspended ends the winner's wait.
  lemma ReturnStep(s: State, k: nat, s': State, i: nat)
    requires Inv(s) && k < |s.pcs| && Step(s, k, s') && Returns(s, s', i)
    ensures !WinnerDone(s) && s.swap.Some? && s.swap.winner == i && WinnerDone(s')
  {
    assert ThreadInv(s, i);
  }

  lemma ReturnedEarlier(r: seq<State>, a: nat, i: nat, b: nat, j: nat)
    requires Run(r) && a < b < |r| - 1 && Returns(r[a], r[a + 1], i)
    ensures !Returns(r[b], r[b + 1], j)
  {
    hide *;
    RunInv(r, a);
    var k := RunStep(r, a);
    ReturnStep(r[a], k, r[a + 1], i);
    DoneSwapped(r[a + 1]);
    SwapStays(r, a + 1, b);
    if Returns(r[b], r[b + 1], j) {
      var m := RunStep(r, b);
      ReturnStep(r[b], m, r[b + 1], j);
    }
  }

  lemma DoneSwapped(s: State)
    requires WinnerDone(s)
    ensures s.swap.Some?
  {}

  // suspend returns true at most once per directory, to whatever thread and however often the
  // threads call it.
  lemma SuspendOnce(r: seq<State>, a: nat, i: nat, b: nat, j: nat)
    requires Run(r) && a < |r| - 1 && b < |r| - 1
    requires Returns(r[a], r[a + 1], i) && Returns(r[b], r[b + 1], j)
    ensures a == b && i == j
  {
    hide *;
    if a < b { ReturnedEarlier(r, a, i, b, j); }
    if b < a { ReturnedEarlier(r, b, j, a, i); }
    RunInv(r, a);
    var k := RunStep(r, a);
    ReturnStep(r[a], k, r[a + 1], i);
    ReturnStep(r[a], k, r[a + 1], j);
  }

  // When it has returned, no thread is between a successful lock and its unlock.
  lemma SuspendExclusive(r: seq<State>, a: nat, b: nat, i: nat, j: nat)
    requires Run(r) && a <= b < |r| && i < |r[a].pcs| && r[a].pcs[i] == Suspended
    requires j < |r[b].pcs|
    ensures !Holds(r[b].pcs[j])
  {
    RunInv(r, a);
    assert ThreadInv(r[a], i);
    SwapStays(r, a, b);
    NoHolder(r[b].pcs, j);
  }

  // After the swap no lock succeeds, whatever its thread read before.
  lemma NoLockAfterSwap(r: seq<State>, a: nat, b: nat, i: nat)
    requires Run(r) && a <= b < |r| - 1 && r[a].swap.Some?
    ensures !Acquires(r[b], r[b + 1], i)
  {
    SwapStays(r, a, b);
    var k := RunStep(r, b);
    assert ThreadInv(r[b], k);
  }

  // The counter tells the holders, before and after a suspend that swapped out v; the wait of
  // the winner ends exactly when the last holder is gone.
  lemma CounterExact(r: seq<State>, n: nat)
    requires Run(r) && n < |r|
    ensures r[n].swap.None? ==> r[n].sema == Holders(r[n].pcs)
    ensures r[n].swap.Some? ==>
              var v := r[n].swap.val;
              && r[n].sema == Holders(r[n].pcs) - v - 1
              && (v == 0 || r[n].sema == 0 - v - 1 <==> Holders(r[n].pcs) == 0)
    ensures r[n].sema < 0 <==> r[n].swap.Some?
  {
    RunInv(r, n);
  }

  // ---------------------------------------------------------------- when the calls succeed

  // A lock gives up exactly when the counter has been swapped.
  lemma LockFailsIff(r: seq<State>, n: nat, i: nat)
    requires Run(r) && n < |r| - 1 && i < |r[n].pcs| && r[n].pcs[i] == InLock && Step(r[n], i, r[n + 1])
    ensures r[n + 1].pcs[i] == Idle <==> r[n].swap.Some?
    ensures r[n].swap.None? ==> r[n + 1].pcs[i] == LockCas(r[n].sema)
  {
    CounterExact(r, n);
  }

  // So does a suspend.
  lemma SuspendFailsIff(r: seq<State>, n: nat, i: nat)
    requires Run(r) && n < |r| - 1 && i < |r[n].pcs| && r[n].pcs[i] == InSuspend && Step(r[n], i, r[n + 1])
    ensures r[n + 1].pcs[i] == Idle <==> r[n].swap.Some?
    ensures r[n].swap.None? ==> r[n + 1].pcs[i] == SuspendCas(r[n].sema)
  {
    CounterExact(r, n);
  }

  // The winner's wait ends with its next step exactly when no holder is left.
  lemma WaitEndsIff(r: seq<State>, n: nat, i: nat)
    requires Run(r) && n < |r| - 1 && i < |r[n].pcs| && r[n].pcs[i].Waiting? && Step(r[n], i, r[n + 1])
    ensures r[n + 1].pcs[i] == Suspended <==> Holders(r[n].pcs) == 0
    ensures r[n + 1].pcs[i] != Suspended ==> r[n + 1] == r[n]
  {
    RunInv(r, n);
    assert ThreadInv(r[n], i);
  }

  // Thread i takes all the steps of q, the first one from s.
  ghost predicate Alone(s: State, i: nat, q: seq<State>)
    decreases |q|
  {
    i < |s.pcs| && (q == [] || (Step(s, i, q[0]) && Alone(q[0], i, q[1..])))
  }

  ghost function Last(r: seq<State>): State
    requires r != []
  {
    r[|r| - 1]
  }

  lemma {:induction false} AloneRuns(r: seq<State>, i: nat, q: seq<State>)
    requires Run(r) && Alone(Last(r), i, q)
    ensures Run(r + q)
    decreases |q|
  {
    hide Step, Init;
    if q != [] {
      assert Next(Last(r), q[0]);
      AloneRuns(r + [q[0]], i, q[1..]);
      assert r + q == r + [q[0]] + q[1..];
    } else {
      assert r + q == r;
    }
  }

  // A thread that is not in a call may begin either.
  lemma CallsBegin(r: seq<State>, i: nat)
    requires Run(r) && i < |Last(r).pcs| && Last(r).pcs[i] == Idle
    ensures Run(r + [Move(Last(r), i, InLock)]) && Run(r + [Move(Last(r), i, InSuspend)])
  {
    forall pc | pc == InLock || pc == InSuspend ensures Run(r + [Move(Last(r), i, pc)]) {
      var q := [Move(Last(r), i, pc)];
      assert Alone(q[0], i, q[1..]);
      AloneRuns(r, i, q);
    }
  }

  // After every run without a swap, a thread that has called lock and is not disturbed holds the
  // lock two steps later, and the counter is one higher.  It can take no other steps.
  lemma LockAlone(r: seq<State>, i: nat) returns (q: seq<State>)
    requires Run(r) && Last(r).swap.None? && i < |Last(r).pcs| && Last(r).pcs[i] == InLock
    ensures |q| == 2 && Alone(Last(r), i, q) && Run(r + q)
    ensures q[1] == Move(Last(r), i, Locked).(sema := Last(r).sema + 1)
    ensures forall s1, s2 :: Step(Last(r), i, s1) && Step(s1, i, s2) ==> s2 == q[1]
  {
    var s := Last(r);
    CounterExact(r, |r| - 1);
    q := [Move(s, i, LockCas(s.sema)), Move(s, i, Locked).(sema := s.sema + 1)];
    assert Alone(q[1], i, q[2..]) && Alone(q[0], i, q[1..]);
    AloneRuns(r, i, q);
  }

  // A holder that unlocks and is not disturbed lowers the counter by one.
  lemma UnlockAlone(r: seq<State>, i: nat) returns (q: seq<State>)
    requires Run(r) && i < |Last(r).pcs| && Last(r).pcs[i] == Locked
    ensures |q| == 3 && Alone(Last(r), i, q) && Run(r + q)
    ensures q[2] == Move(Last(r), i, Idle).(sema := Last(r).sema - 1)
    ensures forall s1, s2, s3 :: Step(Last(r), i, s1) && Step(s1, i, s2) && Step(s2, i, s3) ==> s3 == q[2]
  {
    var s := Last(r);
    q := [Move(s, i, InUnlock), Move(s, i, UnlockCas(s.sema)), Move(s, i, Idle).(sema := s.sema - 1)];
    assert Alone(q[2], i, q[3..]) && Alone(q[1], i, q[2..]) && Alone(q[0], i, q[1..]);
    AloneRuns(r, i, q);
  }

  // After every run without a swap, a thread that has called suspend and is not disturbed has
  // swapped out the number of holders two steps later; if there are none it then returns true.
  lemma SuspendAlone(r: seq<State>, i: nat) returns (q: seq<State>)
    requires Run(r) && Last(r).swap.None? && i < |Last(r).pcs| && Last(r).pcs[i] == InSuspend
    ensures |q| == 3 && Alone(Last(r), i, q) && Run(r + q)
    ensures var v := Holders(Last(r).pcs);
            && q[1] == Move(Last(r), i, Waiting(v)).(sema := -1, swap := Some(v, i))
            && q[2] == if v == 0 then Move(q[1], i, Suspended) else q[1]
    ensures forall s1, s2, s3 :: Step(Last(r), i, s1) && Step(s1, i, s2) && Step(s2, i, s3) ==> s3 == q[2]
  {
    var s := Last(r);
    CounterExact(r, |r| - 1);
    var v := s.sema;
    var s2 := Move(s, i, Waiting(v)).(sema := -1, swap := Some(v, i));
    q := [Move(s, i, SuspendCas(v)), s2, if v == 0 then Move(s2, i, Suspended) else s2];
    assert Alone(q[2], i, q[3..]) && Alone(q[1], i, q[2..]) && Alone(q[0], i, q[1..]);
    AloneRuns(r, i, q);
  }
}
