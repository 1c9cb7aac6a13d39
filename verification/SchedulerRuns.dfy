/** Whole runs of the scheduler: which cycles the prover wakes up for, and when it proves twice for one. */
module SchedulerRuns {
  import opened Arithmetic
  import opened Scheduler

  /** One round: the clock at its calculation, and whether it got as far as adopting the next `last`. */
  datatype Call = Call(now: int, completed: bool)

  function LastBefore(t: Timing, calls: seq<Call>, i: nat): int
    requires t.Valid() && i <= |calls|
  {
    if i == 0 then 0
    else
      var d := Decide(t, LastBefore(t, calls, i - 1), calls[i - 1].now);
      if calls[i - 1].completed then d.next else d.last
  }

  function WakeAt(t: Timing, calls: seq<Call>, i: nat): int
    requires t.Valid() && i < |calls|
  {
    Wake(t, LastBefore(t, calls, i), calls[i].now)
  }

  /** The cycle for which round i wakes up. */
  function Served(t: Timing, calls: seq<Call>, i: nat): int
    requires t.Valid() && i < |calls|
  {
    CycleOf(t, WakeAt(t, calls, i))
  }

  predicate StaleAt(t: Timing, calls: seq<Call>, i: nat)
    requires t.Valid() && i < |calls|
  {
    Stale(t, LastBefore(t, calls, i), calls[i].now)
  }

  /** The clock does not run backwards: each round is calculated after the previous wake-up. */
  predicate Clocked(t: Timing, calls: seq<Call>)
    requires t.Valid()
  {
    && (calls != [] ==> calls[0].now >= 0)
    && forall i :: 0 < i < |calls| ==> calls[i].now >= WakeAt(t, calls, i - 1)
  }

  /** The invariant of every run: `last` stays on the grid and is never a whole cycle ahead. */
  lemma {:induction false} RunInvariant(t: Timing, calls: seq<Call>, i: nat)
    requires t.Valid() && Clocked(t, calls) && i < |calls|
    ensures OnGrid(t, LastBefore(t, calls, i))
    ensures LastBefore(t, calls, i) < calls[i].now + t.Cycle()
    ensures LastBefore(t, calls, i) <= LastBefore(t, calls, i + 1)
    ensures InWindow(t, WakeAt(t, calls, i))
    ensures calls[i].now <= WakeAt(t, calls, i) < calls[i].now + t.Cycle() + t.prepare
  {
    hide InWindow, Decide;
    var last := LastBefore(t, calls, i);
    if i == 0 {
      ModUnique(0, t.Cycle(), 0, 0);
    } else {
      RunInvariant(t, calls, i - 1);
      GridStep(t, LastBefore(t, calls, i - 1), calls[i - 1].now);
      WakeInWindow(t, LastBefore(t, calls, i - 1), calls[i - 1].now);
      NextBeforeWake(t, LastBefore(t, calls, i - 1), calls[i - 1].now);
    }
    GridStep(t, last, calls[i].now);
    WakeInWindow(t, last, calls[i].now);
    LastNeverDecreases(t, last, calls[i].now);
  }

  lemma NextBeforeWake(t: Timing, last: int, now: int)
    requires t.Valid()
    ensures Decide(t, last, now).last < Wake(t, last, now)
  {
    var q, e := (now - last) / t.Cycle(), (now - last) % t.Cycle();
    DecideCases(t, last, now, q, e);
  }

  lemma {:induction false} LastMonotone(t: Timing, calls: seq<Call>, i: nat, j: nat)
    requires t.Valid() && Clocked(t, calls) && i <= j <= |calls|
    ensures LastBefore(t, calls, i) <= LastBefore(t, calls, j)
    decreases j
  {
    hide Decide;
    if i < j {
      LastMonotone(t, calls, i, j - 1);
      RunInvariant(t, calls, j - 1);
    }
  }

  lemma {:induction false} ClockMonotone(t: Timing, calls: seq<Call>, i: nat, j: nat)
    requires t.Valid() && Clocked(t, calls) && i < j < |calls|
    ensures WakeAt(t, calls, i) <= calls[j].now
    decreases j
  {
    hide WakeAt, InWindow;
    if i < j - 1 {
      ClockMonotone(t, calls, i, j - 1);
      RunInvariant(t, calls, j - 1);
    }
  }

  lemma CycleMonotone(t: Timing, a: int, b: int)
    requires t.Valid() && a <= b
    ensures CycleOf(t, a) <= CycleOf(t, b)
    ensures CycleOf(t, a) == CycleOf(t, b) ==> a % t.Cycle() <= b % t.Cycle()
  {
    var c := t.Cycle();
    if a / c > b / c {
      MulGap(c, a / c, b / c);
    }
  }

  predicate SameWindow(t: Timing, a: int, b: int)
    requires t.Valid()
  {
    CycleOf(t, a) == CycleOf(t, b) && b % t.Cycle() <= t.prepare + t.prove
  }

  /** A completed round that was not stale is never repeated: every later wake-up is for a later cycle. */
  lemma FreshSeparates(t: Timing, calls: seq<Call>, i: nat, j: nat)
    requires t.Valid() && Clocked(t, calls) && i < j < |calls|
    requires calls[i].completed && !StaleAt(t, calls, i)
    ensures Served(t, calls, i) < Served(t, calls, j)
  {
    var c := t.Cycle();
    RunInvariant(t, calls, i);
    RunInvariant(t, calls, j);
    GridStep(t, LastBefore(t, calls, i), calls[i].now);
    WakeInWindow(t, LastBefore(t, calls, i), calls[i].now);
    GridStep(t, LastBefore(t, calls, j), calls[j].now);
    LastNeverDecreases(t, LastBefore(t, calls, j), calls[j].now);
    LastMonotone(t, calls, i + 1, j);
    hide Decide, InWindow, OnGrid, Wake, CycleOf, Stale, Clocked;
    assert c * Served(t, calls, i) + c <= c * Served(t, calls, j);
    if Served(t, calls, j) < Served(t, calls, i) {
      MulGap(c, Served(t, calls, i), Served(t, calls, j));
    }
  }

  lemma StaleSeparates(t: Timing, calls: seq<Call>, i: nat, j: nat)
    requires t.Valid() && Clocked(t, calls) && i < j < |calls|
    requires StaleAt(t, calls, i) && !SameWindow(t, calls[i].now, calls[j].now)
    ensures Served(t, calls, i) < Served(t, calls, j)
  {
    RunInvariant(t, calls, i);
    RunInvariant(t, calls, j);
    GridStep(t, LastBefore(t, calls, i), calls[i].now);
    ClockMonotone(t, calls, i, j);
    CycleMonotone(t, calls[i].now, calls[j].now);
    CycleMonotone(t, calls[j].now, WakeAt(t, calls, j));
  }

  /** A call inside the window of a cycle that `last` has not passed stays where it is. */
  lemma WindowCall(t: Timing, last: int, now: int)
    requires t.Valid() && OnGrid(t, last) && InWindow(t, now) && last <= t.Cycle() * CycleOf(t, now)
    ensures Decide(t, last, now) == Decision(last, 0, last + t.Cycle())
  {
    var c := t.Cycle();
    var k, m, e := last / c, now / c, now % c;
    if k > m {
      MulGap(c, k, m);
    }
    assert c * (m - k) == c * m - c * k;
    QuotientSign(c, m - k, e);
    DecideCases(t, last, now, m - k, e);
  }

  lemma CallInStaleWindow(t: Timing, calls: seq<Call>, i: nat, m: nat)
    requires t.Valid() && Clocked(t, calls) && i < m < |calls|
    requires StaleAt(t, calls, i) && SameWindow(t, calls[i].now, calls[m].now)
    requires LastBefore(t, calls, m) == LastBefore(t, calls, i) + t.Cycle()
    ensures Decide(t, LastBefore(t, calls, m), calls[m].now).last == LastBefore(t, calls, m)
    ensures WakeAt(t, calls, m) == calls[m].now
  {
    hide LastBefore;
    RunInvariant(t, calls, i);
    RunInvariant(t, calls, m);
    GridStep(t, LastBefore(t, calls, i), calls[i].now);
    ClockMonotone(t, calls, i, m);
    CycleMonotone(t, calls[i].now, calls[m].now);
    WindowCall(t, LastBefore(t, calls, m), calls[m].now);
  }

  lemma Between(t: Timing, a: int, m: int, b: int)
    requires t.Valid() && a <= m <= b && SameWindow(t, a, b)
    ensures SameWindow(t, a, m)
  {
    CycleMonotone(t, a, m);
    CycleMonotone(t, m, b);
  }

  /** After a stale round completes, failed rounds in the same window leave `last` where it put it. */
  lemma {:induction false} StaleWindowKeepsLast(t: Timing, calls: seq<Call>, i: nat, m: nat)
    requires t.Valid() && Clocked(t, calls) && i < m < |calls|
    requires calls[i].completed && StaleAt(t, calls, i) && SameWindow(t, calls[i].now, calls[m].now)
    requires forall k :: i < k < m ==> !calls[k].completed
    ensures LastBefore(t, calls, m) == LastBefore(t, calls, i) + t.Cycle()
    decreases m
  {
    hide Decide, OnGrid, InWindow, Stale, SameWindow, CycleOf, WakeAt;
    RunInvariant(t, calls, i);
    StaleStep(t, LastBefore(t, calls, i), calls[i].now);
    if i < m - 1 {
      RunInvariant(t, calls, m - 1);
      ClockMonotone(t, calls, i, m - 1);
      Between(t, calls[i].now, calls[m - 1].now, calls[m].now);
      StaleWindowKeepsLast(t, calls, i, m - 1);
      CallInStaleWindow(t, calls, i, m - 1);
    }
  }

  predicate NextCompleted(calls: seq<Call>, i: nat, j: nat) {
    i < j < |calls| && calls[i].completed && calls[j].completed && forall k :: i < k < j ==> !calls[k].completed
  }

  /** A stale round completes, and the next round to complete is calculated in the same window. */
  predicate Repeats(t: Timing, calls: seq<Call>, i: nat, j: nat)
    requires t.Valid()
  {
    NextCompleted(calls, i, j) && StaleAt(t, calls, i) && SameWindow(t, calls[i].now, calls[j].now)
  }

  /** Rounds that complete wake up for different, strictly increasing cycles. */
  ghost predicate OncePerCycle(t: Timing, calls: seq<Call>)
    requires t.Valid()
  {
    forall i, j :: 0 <= i < j < |calls| && calls[i].completed && calls[j].completed ==>
      Served(t, calls, i) < Served(t, calls, j)
  }

  ghost predicate NeverRepeats(t: Timing, calls: seq<Call>)
    requires t.Valid()
  {
    forall i: nat, j: nat :: !Repeats(t, calls, i, j)
  }

  lemma {:induction false} NeverRepeatsSeparates(t: Timing, calls: seq<Call>, i: nat, j: nat)
    requires t.Valid() && Clocked(t, calls) && NeverRepeats(t, calls)
    requires i < j < |calls| && calls[i].completed && calls[j].completed
    ensures Served(t, calls, i) < Served(t, calls, j)
    decreases j - i
  {
    hide Served, StaleAt, SameWindow, Clocked;
    if k :| i < k < j && calls[k].completed {
      NeverRepeatsSeparates(t, calls, i, k);
      NeverRepeatsSeparates(t, calls, k, j);
    } else {
      assert NextCompleted(calls, i, j) && !Repeats(t, calls, i, j);
      if StaleAt(t, calls, i) {
        StaleSeparates(t, calls, i, j);
      } else {
        FreshSeparates(t, calls, i, j);
      }
    }
  }

  lemma RepeatServesTwice(t: Timing, calls: seq<Call>, i: nat, j: nat)
    requires t.Valid() && Clocked(t, calls) && Repeats(t, calls, i, j)
    ensures Served(t, calls, i) == Served(t, calls, j)
  {
    StaleWindowKeepsLast(t, calls, i, j);
    CallInStaleWindow(t, calls, i, j);
    RunInvariant(t, calls, i);
    GridStep(t, LastBefore(t, calls, i), calls[i].now);
  }

  /** Main theorem, for every run with a clock that does not run backwards, whatever rounds fail: the
      prover serves each cycle at most once exactly when no stale round completes and the next round to
      complete is calculated in the same window. */
  lemma OncePerCycleExactly(t: Timing, calls: seq<Call>)
    requires t.Valid() && Clocked(t, calls)
    ensures OncePerCycle(t, calls) <==> NeverRepeats(t, calls)
  {
    hide Served, StaleAt, SameWindow, Clocked;
    if i: nat, j: nat :| Repeats(t, calls, i, j) {
      RepeatServesTwice(t, calls, i, j);
    } else {
      forall i, j | 0 <= i < j < |calls| && calls[i].completed && calls[j].completed
        ensures Served(t, calls, i) < Served(t, calls, j)
      {
        NeverRepeatsSeparates(t, calls, i, j);
      }
    }
  }

  /** In particular a run is safe if no call that lands in a window finds `last` a cycle or more behind. */
  lemma FreshRunsServeOnce(t: Timing, calls: seq<Call>)
    requires t.Valid() && Clocked(t, calls)
    requires forall i :: 0 <= i < |calls| ==> !StaleAt(t, calls, i)
    ensures OncePerCycle(t, calls)
  {
    hide Served, StaleAt, SameWindow, Clocked;
    OncePerCycleExactly(t, calls);
  }

  /** The exception is real: the very first round can be stale, and then a cycle is served twice. */
  lemma FirstWindowServedTwice()
    ensures var t := Timing(10, 10, 100);
      var calls := [Call(135, true), Call(136, true)];
      Clocked(t, calls) && !OncePerCycle(t, calls)
      && Served(t, calls, 0) == Served(t, calls, 1) == 1
  {
    var t, calls := Timing(10, 10, 100), [Call(135, true), Call(136, true)];
    assert LastBefore(t, calls, 0) == 0;
    assert Decide(t, 0, 135) == Decision(0, 0, 120);
    assert LastBefore(t, calls, 1) == 120;
    assert Decide(t, 120, 136) == Decision(120, 0, 240);
    assert WakeAt(t, calls, 0) == 135 && WakeAt(t, calls, 1) == 136;
  }

  /** At most one call more than cycles since the anchor, all in the window of cycle q. */
  predicate Burst(t: Timing, calls: seq<Call>, q: nat)
    requires t.Valid()
  {
    && |calls| <= q + 1
    && (forall i :: 0 <= i < |calls| ==> CycleOf(t, calls[i].now) == q && InWindow(t, calls[i].now))
    && forall i :: 0 < i < |calls| ==> calls[i - 1].now <= calls[i].now
  }

  lemma {:induction false} BurstLast(t: Timing, calls: seq<Call>, q: nat, i: nat)
    requires t.Valid() && Burst(t, calls, q) && i <= |calls|
    ensures OnGrid(t, LastBefore(t, calls, i)) && LastBefore(t, calls, i) <= t.Cycle() * i
    ensures i < |calls| ==> WakeAt(t, calls, i) == calls[i].now
    decreases i
  {
    hide Decide, InWindow, CycleOf;
    if i == 0 {
      At(t, 0, 0, 0);
    } else {
      BurstLast(t, calls, q, i - 1);
      BurstCall(t, LastBefore(t, calls, i - 1), calls[i - 1].now, q, i - 1);
    }
    if i < |calls| {
      BurstCall(t, LastBefore(t, calls, i), calls[i].now, q, i);
    }
  }

  lemma BurstCall(t: Timing, last: int, now: int, q: nat, i: nat)
    requires t.Valid() && OnGrid(t, last) && InWindow(t, now) && CycleOf(t, now) == q && i <= q
    requires last <= t.Cycle() * i
    ensures Decide(t, last, now) == Decision(last, 0, last + t.Cycle())
    ensures OnGrid(t, last + t.Cycle()) && last + t.Cycle() <= t.Cycle() * (i + 1)
  {
    if i < q {
      MulGap(t.Cycle(), q, i);
    }
    WindowCall(t, last, now);
    Cycles(t, i, 0);
    Cycles(t, last / t.Cycle(), 0);
    At(t, last + t.Cycle(), last / t.Cycle() + 1, 0);
  }

  /** While `last` catches up from the anchor, every call in a window wakes up at once, for one and the
      same cycle, whatever the timing and whatever rounds fail. */
  lemma BurstServesOneCycle(t: Timing, calls: seq<Call>, q: nat)
    requires t.Valid() && Burst(t, calls, q)
    ensures Clocked(t, calls)
    ensures forall i :: 0 <= i < |calls| ==> Served(t, calls, i) == q
  {
    forall i | 0 <= i < |calls|
      ensures WakeAt(t, calls, i) == calls[i].now
    {
      BurstLast(t, calls, q, i);
    }
    hide WakeAt, InWindow, CycleOf;
    if calls != [] && calls[0].now < 0 {
      CycleMonotone(t, calls[0].now, -1);
      At(t, -1, -1, t.Cycle() - 1);
    }
  }

  /** For every timing and every cycle q there is such a run with a completed round every second, up to
      the end of the window or q + 1 rounds. */
  lemma EveryWindowServedRepeatedly(t: Timing, q: nat, n: nat)
    requires t.Valid() && n <= q && n <= t.prove
    ensures var calls := seq(n + 1, k => Call(t.Cycle() * q + t.prepare + k, true));
      && Clocked(t, calls)
      && (forall i :: 0 <= i <= n ==> Served(t, calls, i) == q)
      && (n > 0 ==> !OncePerCycle(t, calls))
  {
    var calls := seq(n + 1, k => Call(t.Cycle() * q + t.prepare + k, true));
    forall i | 0 <= i < |calls|
      ensures CycleOf(t, calls[i].now) == q && InWindow(t, calls[i].now)
    {
      At(t, calls[i].now, q, t.prepare + i);
    }
    hide CycleOf, InWindow, Served, Clocked;
    BurstServesOneCycle(t, calls, q);
    if n > 0 {
      assert calls[0].completed && calls[1].completed && Served(t, calls, 0) == Served(t, calls, 1);
    }
  }

  /** Every round is calculated less than the rest interval after the previous wake-up. */
  predicate Prompt(t: Timing, calls: seq<Call>)
    requires t.Valid()
  {
    forall i :: 0 < i < |calls| ==> calls[i].now < WakeAt(t, calls, i - 1) + t.rest
  }

  /** From a call that is not stale, a prompt next call is not stale either; it wakes up for the same
      cycle or the next one, and for the next one if the round completed. */
  lemma PromptNext(t: Timing, calls: seq<Call>, i: nat)
    requires t.Valid() && Clocked(t, calls) && Prompt(t, calls) && i + 1 < |calls| && !StaleAt(t, calls, i)
    ensures !StaleAt(t, calls, i + 1)
    ensures Served(t, calls, i) <= Served(t, calls, i + 1) <= Served(t, calls, i) + 1
    ensures calls[i].completed ==> Served(t, calls, i + 1) == Served(t, calls, i) + 1
  {
    var cycle, now := Served(t, calls, i), calls[i + 1].now;
    AfterFresh(t, calls, i);
    RunInvariant(t, calls, i + 1);
    hide LastBefore, Decide, InWindow;
    assert now >= WakeAt(t, calls, i) && now < WakeAt(t, calls, i) + t.rest;
    NextWake(t, LastBefore(t, calls, i + 1), now, cycle, calls[i].completed);
    CycleMonotone(t, WakeAt(t, calls, i), WakeAt(t, calls, i + 1));
  }

  lemma AfterFresh(t: Timing, calls: seq<Call>, i: nat)
    requires t.Valid() && Clocked(t, calls) && i < |calls| && !StaleAt(t, calls, i)
    ensures var cycle := Served(t, calls, i);
      && LastBefore(t, calls, i + 1) == t.Cycle() * (if calls[i].completed then cycle + 1 else cycle)
      && t.prepare <= WakeAt(t, calls, i) - t.Cycle() * cycle <= t.prepare + t.prove
  {
    hide Decide, InWindow, CycleOf, Stale, Clocked;
    RunInvariant(t, calls, i);
    FreshStep(t, LastBefore(t, calls, i), calls[i].now);
  }

  lemma NextWake(t: Timing, last: int, now: int, cycle: int, completed: bool)
    requires t.Valid() && last == t.Cycle() * (if completed then cycle + 1 else cycle)
    requires t.Cycle() * cycle < now < t.Cycle() * cycle + t.Cycle()
    ensures !Stale(t, last, now)
    ensures CycleOf(t, Wake(t, last, now)) <= cycle + 1
    ensures completed ==> CycleOf(t, Wake(t, last, now)) == cycle + 1
  {
    var c, e := t.Cycle(), now - t.Cycle() * cycle;
    assert c * (cycle + 1) == c * cycle + c;
    var q := if completed then -1 else 0;
    assert now - last == c * q + e;
    DecideCases(t, last, now, q, e);
    assert now == c * cycle + e;
    if completed {
      assert Wake(t, last, now) == c * (cycle + 1) + t.prepare;
      At(t, Wake(t, last, now), cycle + 1, t.prepare);
    } else if e < t.prepare {
      At(t, Wake(t, last, now), cycle, t.prepare);
    } else if e <= t.prepare + t.prove {
      At(t, now, cycle, e);
    } else {
      At(t, Wake(t, last, now), cycle + 1, t.prepare);
    }
  }

  lemma {:induction false} PromptRunsStayFresh(t: Timing, calls: seq<Call>, i: nat)
    requires t.Valid() && Clocked(t, calls) && Prompt(t, calls) && i < |calls| && !StaleAt(t, calls, 0)
    ensures !StaleAt(t, calls, i)
  {
    hide StaleAt, Served;
    if i > 0 {
      PromptRunsStayFresh(t, calls, i - 1);
      PromptNext(t, calls, i - 1);
    }
  }

  /** A run whose first call is not stale and whose rounds are prompt skips no cycle and repeats none:
      after a completed round comes exactly the next cycle, after a failed one the same or the next. */
  lemma PromptRunsServeEveryCycle(t: Timing, calls: seq<Call>)
    requires t.Valid() && Clocked(t, calls) && Prompt(t, calls) && (calls != [] ==> !StaleAt(t, calls, 0))
    ensures OncePerCycle(t, calls)
    ensures forall i :: 0 < i < |calls| ==>
      Served(t, calls, i) - Served(t, calls, i - 1) in (if calls[i - 1].completed then {1} else {0, 1})
  {
    hide Served, StaleAt, Clocked;
    forall i | 0 <= i < |calls|
      ensures !StaleAt(t, calls, i)
    {
      PromptRunsStayFresh(t, calls, i);
    }
    FreshRunsServeOnce(t, calls);
    forall i | 0 < i < |calls|
      ensures Served(t, calls, i) - Served(t, calls, i - 1) in (if calls[i - 1].completed then {1} else {0, 1})
    {
      PromptNext(t, calls, i - 1);
    }
  }
}
