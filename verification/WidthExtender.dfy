/**
  CounterWidthExtender (pcm/width_extender.h): a 64-bit counter on top of a hardware counter of
  `width` bits, read by clients and by a watchdog thread under one mutex.
*/
module WidthExtender {
  import opened Bits
  import opened Words

  // What internal_read adds to extended_value, in 64-bit arithmetic.
  function Advance(width: nat, last: Word, raw: Word): Word
    requires width < 64
  {
    if raw < last then (Pow2(width) + WORD - last + raw) % WORD else raw - last
  }

  // What a counter of this width shows after n events.
  function Raw(width: nat, n: nat): (r: nat)
    ensures r < Pow2(width)
  {
    n % Pow2(width)
  }

  class CounterWidthExtender {
    var extendedValue: Word
    var lastRawValue: Word
    const counterWidth: nat

    predicate Valid()
      reads this
    {
      counterWidth < 64 && lastRawValue < Pow2(counterWidth)
    }

    constructor (width: nat, raw: Word)
      requires width < 64 && raw < Pow2(width)
      ensures Valid() && counterWidth == width && extendedValue == raw && lastRawValue == raw
    {
      counterWidth := width;
      lastRawValue := raw;
      extendedValue := raw;
    }

    // raw is what the hardware counter shows.
    method InternalRead(raw: Word) returns (result: Word)
      requires Valid() && raw < Pow2(counterWidth)
      modifies this
      ensures Valid() && lastRawValue == raw && extendedValue == result
      ensures result == Add(old(extendedValue), Advance(counterWidth, old(lastRawValue), raw))
    {
      if raw < lastRawValue {
        extendedValue := Add(extendedValue, (Pow2(counterWidth) + WORD - lastRawValue + raw) % WORD);
      } else {
        extendedValue := Add(extendedValue, raw - lastRawValue);
      }
      lastRawValue := raw;
      result := extendedValue;
    }
  }

  // ---------------------------------------------------------------- threads

  // Where a reading thread is; at is the number of events when it sampled the hardware, and
  // lost is the number of events missed up to then.
  datatype PC =
    | Idle
    | Locked
    | Sampled(raw: Word, at: nat)
    | Returning(result: Word, at: nat, lost: nat)

  datatype Owner = Free | By(thread: nat)

  // events counts for ever; seen is its value at the last update of the extender.
  datatype State = State(events: nat, extended: Word, last: Word, mutex: Owner, pcs: seq<PC>, seen: nat, lost: nat)

  predicate Init(width: nat, s: State, start: nat) {
    && width < 64
    && s.events == s.seen == start && s.lost == 0
    && s.last == s.extended == Raw(width, start)
    && s.mutex == Free
    && forall i :: 0 <= i < |s.pcs| ==> s.pcs[i] == Idle
  }

  function Goto(s: State, i: nat, pc: PC): State
    requires i < |s.pcs|
  {
    s.(pcs := s.pcs[i := pc])
  }

  // The events between two updates that a counter of this width cannot show.
  function Missed(width: nat, from: nat, to: nat): nat {
    if to < from then 0 else
    RawSmaller(width, to - from);
    to - from - Raw(width, to - from)
  }

  lemma RawSmaller(width: nat, d: nat)
    ensures Raw(width, d) <= d
    ensures Raw(width, d) == d <==> d < Pow2(width)
  {
    QuotientBounds(d, Pow2(width));
    MulSign(d / Pow2(width), Pow2(width));
  }

  predicate Step(width: nat, s: State, i: nat, s': State)
    requires i < |s.pcs| && width < 64
  {
    match s.pcs[i]
    case Idle => s.mutex == Free && s' == Goto(s, i, Locked).(mutex := By(i))
    case Locked => s' == Goto(s, i, Sampled(Raw(width, s.events) % WORD, s.events))
    case Sampled(raw, at) =>
      var value := Add(s.extended, Advance(width, s.last, raw));
      var lost := s.lost + Missed(width, s.seen, at);
      s' == Goto(s, i, Returning(value, at, lost)).(extended := value, last := raw, seen := at, lost := lost)
    case Returning(_, _, _) => s' == Goto(s, i, Idle).(mutex := Free)
  }

  // The hardware counts on, or one thread makes a step.
  ghost predicate Next(width: nat, s: State, s': State)
    requires width < 64
  {
    (exists n: nat :: s' == Tick(s, n)) || (exists i :: 0 <= i < |s.pcs| && Step(width, s, i, s'))
  }

  function Tick(s: State, n: nat): State {
    s.(events := s.events + n)
  }

  ghost predicate Run(width: nat, start: nat, r: seq<State>) {
    && width < 64 && |r| > 0 && Init(width, r[0], start)
    && forall n :: 0 <= n < |r| - 1 ==> Next(width, r[n], r[n + 1])
  }

  // ---------------------------------------------------------------- invariant

  // What value should be: the first raw value and the events since, less those missed.
  ghost predicate Accounts(width: nat, start: nat, value: Word, at: nat, lost: nat) {
    start <= at && (value + lost) % WORD == (Raw(width, start) + (at - start)) % WORD
  }

  ghost predicate Inv(width: nat, start: nat, s: State)
    requires width < 64
  {
    && s.last == Raw(width, s.seen) && s.seen <= s.events
    && Accounts(width, start, s.extended, s.seen, s.lost)
    && forall i :: 0 <= i < |s.pcs| ==> ThreadInv(width, start, s, i)
  }

  ghost predicate ThreadInv(width: nat, start: nat, s: State, i: nat)
    requires i < |s.pcs| && width < 64
  {
    && (s.pcs[i] != Idle ==> s.mutex == By(i))
    && match s.pcs[i]
       case Sampled(raw, at) => raw == Raw(width, at) && s.seen <= at <= s.events
       case Returning(result, at, lost) => Accounts(width, start, result, at, lost) && lost == s.lost && at == s.seen
       case _ => true
  }

  // The difference of two raw values is what the counter shows of the events between them.
  lemma AdvanceIs(width: nat, from: nat, to: nat)
    requires width < 64 && from <= to && Pow2(width) <= WORD
    ensures Advance(width, Raw(width, from), Raw(width, to)) == Raw(width, to - from)
  {
    DifferenceMod(from, to, Pow2(width));
    AdvanceValue(width, Raw(width, from), Raw(width, to));
  }

  lemma AdvanceValue(width: nat, last: Word, raw: Word)
    requires width < 64 && last < Pow2(width) && raw < Pow2(width) <= WORD
    ensures Advance(width, last, raw) == if raw < last then Pow2(width) - last + raw else raw - last
  {
    if raw < last { ModUnique(Pow2(width) + WORD - last + raw, WORD, 1, Pow2(width) - last + raw); }
  }

  lemma DifferenceMod(from: nat, to: nat, m: nat)
    requires from <= to && m > 0
    ensures (to - from) % m == if to % m < from % m then m - from % m + to % m else to % m - from % m
  {
    var a, b := from / m, to / m;
    QuotientBounds(from, m);
    QuotientBounds(to, m);
    assert (b - a) * m == b * m - a * m;
    assert (b - a - 1) * m == (b - a) * m - m;
    if to % m < from % m {
      ModUnique(to - from, m, b - a - 1, m - from % m + to % m);
    } else {
      ModUnique(to - from, m, b - a, to % m - from % m);
    }
  }

  lemma WidthFits(width: nat)
    requires width < 64
    ensures Pow2(width) <= WORD
  {
    Pow2Of64();
    Pow2Monotone(width, 64);
  }

  lemma UpdateAccounts(width: nat, start: nat, value: Word, from: nat, to: nat, lost: nat)
    requires width < 64 && from <= to && Accounts(width, start, value, from, lost) && Pow2(width) <= WORD
    ensures Accounts(width, start, Add(value, Advance(width, Raw(width, from), Raw(width, to))), to,
                     lost + Missed(width, from, to))
  {
    RawSmaller(width, to - from);
    AdvanceIs(width, from, to);
    hide Advance, Raw, Pow2, Add;
    AddAccounts(value, Raw(width, to - from), lost, Missed(width, from, to), Raw(width, start) + (from - start),
                Raw(width, start) + (to - start));
  }

  lemma AddAccounts(value: Word, shown: Word, lost: nat, missed: nat, before: nat, after: nat)
    requires (value + lost) % WORD == before % WORD && after == before + shown + missed
    ensures (Add(value, shown) + (lost + missed)) % WORD == after % WORD
  {
    ModSum(Add(value, shown), value + shown, lost + missed, WORD);
    ModSum(value + lost, before, shown + missed, WORD);
  }

  lemma StepThread(width: nat, start: nat, s: State, i: nat, s': State, m: nat)
    requires width < 64 && Inv(width, start, s) && i < |s.pcs| && Step(width, s, i, s') && m < |s.pcs|
    requires Accounts(width, start, s'.extended, s'.seen, s'.lost)
    ensures |s'.pcs| == |s.pcs| && ThreadInv(width, start, s', m)
  {
    hide Raw, Advance, Missed, Accounts, Pow2;
    WidthFits(width);
    assert ThreadInv(width, start, s, m) && ThreadInv(width, start, s, i);
  }

  lemma StepInv(width: nat, start: nat, s: State, i: nat, s': State)
    requires width < 64 && Inv(width, start, s) && i < |s.pcs| && Step(width, s, i, s')
    ensures Inv(width, start, s')
  {
    WidthFits(width);
    hide Raw, Advance, Missed, Accounts, Pow2;
    assert ThreadInv(width, start, s, i);
    if s.pcs[i].Sampled? {
      UpdateAccounts(width, start, s.extended, s.seen, s.pcs[i].at, s.lost);
    }
    hide ThreadInv;
    forall m | 0 <= m < |s'.pcs| ensures ThreadInv(width, start, s', m) {
      StepThread(width, start, s, i, s', m);
    }
  }

  lemma {:induction false} RunInv(width: nat, start: nat, r: seq<State>, n: nat)
    requires Run(width, start, r) && n < |r|
    ensures Inv(width, start, r[n])
    decreases n
  {
    if n > 0 {
      RunInv(width, start, r, n - 1);
      assert Next(width, r[n - 1], r[n - 1 + 1]);
      var s, s' := r[n - 1], r[n];
      if k: nat :| s' == Tick(s, k) {
        forall m | 0 <= m < |s'.pcs| ensures ThreadInv(width, start, s', m) {
          assert ThreadInv(width, start, s, m);
        }
      } else {
        var i :| 0 <= i < |s.pcs| && Step(width, s, i, s');
        StepInv(width, start, s, i, s');
      }
    }
  }

  // No update so far came 2^width or more events after the one before.
  ghost predicate Timely(width: nat, r: seq<State>, n: nat)
    requires n < |r|
  {
    forall m :: 0 <= m < n ==> r[m + 1].seen - r[m].seen < Pow2(width)
  }

  lemma SeenStep(width: nat, start: nat, s: State, s': State)
    requires width < 64 && Inv(width, start, s) && Next(width, s, s')
    ensures s.seen <= s'.seen && s'.lost == s.lost + Missed(width, s.seen, s'.seen)
  {
    assert Missed(width, s.seen, s.seen) == 0;
    if !(exists k: nat :: s' == Tick(s, k)) {
      var i :| 0 <= i < |s.pcs| && Step(width, s, i, s');
      assert ThreadInv(width, start, s, i);
    }
  }

  lemma {:induction false} NothingLost(width: nat, start: nat, r: seq<State>, n: nat)
    requires Run(width, start, r) && n < |r|
    ensures r[n].lost == 0 <==> Timely(width, r, n)
    decreases n
  {
    if n > 0 {
      NothingLost(width, start, r, n - 1);
      RunInv(width, start, r, n - 1);
      assert Next(width, r[n - 1], r[n - 1 + 1]);
      SeenStep(width, start, r[n - 1], r[n]);
      MissedZero(width, r[n - 1].seen, r[n].seen);
      if Timely(width, r, n) {
        assert r[n - 1 + 1].seen - r[n - 1].seen < Pow2(width);
        assert Timely(width, r, n - 1);
      }
    }
  }

  lemma MissedZero(width: nat, from: nat, to: nat)
    requires from <= to
    ensures Missed(width, from, to) == 0 <==> to - from < Pow2(width)
  {
    RawSmaller(width, to - from);
  }

  lemma RunWidth(width: nat, start: nat, r: seq<State>)
    requires Run(width, start, r)
    ensures width < 64 && |r| > 0
  {}

  lemma ExactIff(v: Word, l: nat, e: nat)
    requires (v + l) % WORD == e % WORD
    ensures v == e % WORD <==> l % WORD == 0
  {}

  // Any interleaving of readers and hardware: a read returns the first raw value plus the exact
  // number of events up to its sample, modulo 2^64, if all updates were timely; in general it is
  // exact if and only if the events missed are a multiple of 2^64.
  lemma ReadExact(width: nat, start: nat, r: seq<State>, n: nat, i: nat)
    requires Run(width, start, r) && n < |r| && i < |r[n].pcs| && r[n].pcs[i].Returning?
    ensures var pc := r[n].pcs[i];
            && start <= pc.at && pc.lost == r[n].lost
            && (Timely(width, r, n) ==> pc.result == (Raw(width, start) + (pc.at - start)) % WORD)
            && (pc.result == (Raw(width, start) + (pc.at - start)) % WORD <==> pc.lost % WORD == 0)
  {
    hide Raw, Timely, Run;
    assert width < 64 by { RunWidth(width, start, r); }
    RunInv(width, start, r, n);
    assert ThreadInv(width, start, r[n], i);
    var pc := r[n].pcs[i];
    ExactIff(pc.result, pc.lost, Raw(width, start) + (pc.at - start));
    NothingLost(width, start, r, n);
  }

  // ---------------------------------------------------------------- one read

  lemma Snoc(width: nat, start: nat, r: seq<State>, i: nat, s': State)
    requires Run(width, start, r) && i < |r[|r| - 1].pcs| && width < 64 && Step(width, r[|r| - 1], i, s')
    ensures Run(width, start, r + [s'])
  {
    hide Step;
    var q := r + [s'];
    assert Next(width, r[|r| - 1], s');
    hide Next;
    forall n | 0 <= n < |q| - 1 ensures Next(width, q[n], q[n + 1]) {
      if n < |r| - 1 { assert Next(width, r[n], r[n + 1]); }
    }
  }

  // The four steps of a read.
  lemma ReadSteps(width: nat, s: State, i: nat) returns (q: seq<State>)
    requires width < 64 && Pow2(width) <= WORD && s.mutex == Free && i < |s.pcs| && s.pcs[i] == Idle
    ensures |q| == 4 && Step(width, s, i, q[0])
    ensures forall n :: 0 <= n < 3 ==> i < |q[n].pcs| && Step(width, q[n], i, q[n + 1])
    ensures |q[2].pcs| == |s.pcs| && q[2].pcs[i].Returning?
            && q[2].pcs[i].result == q[2].extended == q[3].extended
            && q[2].pcs[i].at == q[3].seen == q[3].events == s.events
            && q[2].pcs[i].lost == s.lost + Missed(width, s.seen, s.events)
            && q[3].last == Raw(width, s.events) && q[3].mutex == Free && q[3].pcs == s.pcs
  {
    hide Advance, Missed, Pow2, Add, Raw;
    var raw := Raw(width, s.events);
    var value := Add(s.extended, Advance(width, s.last, raw));
    var lost := s.lost + Missed(width, s.seen, s.events);
    var done := Returning(value, s.events, lost);
    var s1 := Goto(s, i, Locked).(mutex := By(i));
    var s2 := Goto(s1, i, Sampled(raw, s.events));
    var s3 := Goto(s2, i, done).(extended := value, last := raw, seen := s.events, lost := lost);
    var s4 := Goto(s3, i, Idle).(mutex := Free);
    assert s4.pcs == s.pcs;
    assert raw % WORD == raw;
    q := [s1, s2, s3, s4];
  }

  // After every run, a thread that calls read when the mutex is free and is not disturbed samples
  // the counter, returns the value it has stored, and leaves the mutex free.
  lemma ReadAlone(width: nat, start: nat, r: seq<State>, i: nat) returns (q: seq<State>)
    requires Run(width, start, r) && r[|r| - 1].mutex == Free && i < |r[|r| - 1].pcs| && r[|r| - 1].pcs[i] == Idle
    ensures |q| == 4 && Run(width, start, r + q)
    ensures var s := r[|r| - 1];
            && |q[2].pcs| == |s.pcs| && q[2].pcs[i].Returning?
            && q[2].pcs[i].result == q[2].extended == q[3].extended
            && q[2].pcs[i].at == q[3].seen == q[3].events == s.events
            && q[2].pcs[i].lost == s.lost + Missed(width, s.seen, s.events)
            && q[3].last == Raw(width, s.events) && q[3].mutex == Free && q[3].pcs == s.pcs
  {
    RunWidth(width, start, r);
    hide *;
    WidthFits(width);
    q := ReadSteps(width, r[|r| - 1], i);
    assert Step(width, q[0], i, q[0 + 1]) && Step(width, q[1], i, q[1 + 1]) && Step(width, q[2], i, q[2 + 1]);
    Snoc(width, start, r, i, q[0]);
    Snoc(width, start, r + [q[0]], i, q[1]);
    Snoc(width, start, r + [q[0]] + [q[1]], i, q[2]);
    Snoc(width, start, r + [q[0]] + [q[1]] + [q[2]], i, q[3]);
    assert r + [q[0]] + [q[1]] + [q[2]] + [q[3]] == r + q;
  }

  // Any number of events may happen after any run.
  lemma EventsHappen(width: nat, start: nat, r: seq<State>, n: nat)
    requires Run(width, start, r)
    ensures width < 64 && |r| > 0 && Run(width, start, r + [Tick(r[|r| - 1], n)])
  {
    hide Step, Init;
    var q := r + [Tick(r[|r| - 1], n)];
    assert Next(width, r[|r| - 1], Tick(r[|r| - 1], n));
    forall m | 0 <= m < |q| - 1 ensures Next(width, q[m], q[m + 1]) {
      if m < |r| - 1 { assert Next(width, r[m], r[m + 1]); }
    }
  }

  // The condition is needed: for every width and first value there is a run in which 2^width events
  // pass before the first read, and that read is wrong.
  lemma LateReadWrong(width: nat, start: nat) returns (r: seq<State>, n: nat)
    requires width < 64
    ensures Run(width, start, r) && n < |r| && |r[n].pcs| == 1 && r[n].pcs[0].Returning?
    ensures r[n].pcs[0].at == start + Pow2(width)
    ensures r[n].pcs[0].result != (Raw(width, start) + Pow2(width)) % WORD
  {
    var s, t := LateStart(width, start);
    OneMissed(width, start);
    hide *;
    var q := ReadAlone(width, start, [s] + [t], 0);
    r, n := [s] + [t] + q, 4;
    ReadExact(width, start, r, n, 0);
  }

  lemma LateStart(width: nat, start: nat) returns (s: State, t: State)
    requires width < 64
    ensures Run(width, start, [s] + [t])
    ensures t.mutex == Free && t.pcs == [Idle] && t.events == start + Pow2(width) && t.seen == start && t.lost == 0
  {
    WidthFits(width);
    var first := Raw(width, start);
    hide Raw, Pow2;
    s := State(start, first, first, Free, [Idle], start, 0);
    t := Tick(s, Pow2(width));
    assert Run(width, start, [s]);
    EventsHappen(width, start, [s], Pow2(width));
  }

  lemma OneMissed(width: nat, start: nat)
    requires width < 64
    ensures Missed(width, start, start + Pow2(width)) == Pow2(width)
    ensures Pow2(width) % WORD != 0
  {
    Pow2Of64();
    Pow2Monotone(width + 1, 64);
    assert Pow2(width + 1) == 2 * Pow2(width);
    hide Pow2;
    ModUnique(Pow2(width), Pow2(width), 1, 0);
  }
}
