/** The challenge cycle: prepare, prove, rest, over and over; when the prover wakes up, and for which
    cycle. Times are whole Unix seconds; cycles are counted from the anchor 0. */
module Scheduler {
  import opened Arithmetic

  datatype Timing = Timing(prepare: int, prove: int, rest: int)
  {
    predicate Valid() {
      prepare > 0 && prove > 0 && rest > 0
    }

    function Cycle(): int {
      prepare + prove + rest
    }
  }

  /** The remainder of Go: it has the sign of the dividend. */
  function GoMod(a: int, b: int): int
    requires b > 0
  {
    if a >= 0 then a % b else -((-a) % b)
  }

  /** What one calculation decides: the new `last`, the seconds to wait, and the `last` to adopt if the
      round succeeds. */
  datatype Decision = Decision(last: int, wait: int, next: int)

  function Decide(t: Timing, last: int, now: int): Decision
    requires t.Valid()
  {
    var cycle := t.Cycle();
    var over := GoMod(now - last, cycle);
    if over < t.prepare then
      Decision(now - over, t.prepare - over, now - over + cycle)
    else if over > t.prepare + t.prove then
      Decision(now - over + cycle, cycle + t.prepare - over, now - over + cycle + cycle)
    else
      Decision(last, 0, last + cycle)
  }

  /** The moment at which the prover is to wake up after a call. */
  function Wake(t: Timing, last: int, now: int): int
    requires t.Valid()
  {
    now + Decide(t, last, now).wait
  }

  function CycleOf(t: Timing, time: int): int
    requires t.Valid()
  {
    time / t.Cycle()
  }

  /** The prove window of every cycle. */
  predicate InWindow(t: Timing, time: int)
    requires t.Valid()
  {
    t.prepare <= time % t.Cycle() <= t.prepare + t.prove
  }

  /** `last` sits on a cycle boundary. */
  predicate OnGrid(t: Timing, last: int)
    requires t.Valid()
  {
    last % t.Cycle() == 0
  }

  /** The branch that leaves `last` alone, taken when `last` is a whole cycle or more behind. */
  predicate Stale(t: Timing, last: int, now: int)
    requires t.Valid()
  {
    now - last >= t.Cycle() && InWindow(t, now - last)
  }

  lemma QuotientSign(c: int, q: int, e: int)
    requires c > 0 && 0 <= e < c
    ensures c * q + e >= 0 <==> q >= 0
    ensures c * q + e >= c <==> q >= 1
    ensures c * q + e > -c ==> q >= -1
    ensures q == -1 ==> c * q == -c
    ensures q >= 0 ==> c * q >= 0
  {
    if q < -1 {
      MulGap(c, -1, q);
    } else if q > 1 {
      MulGap(c, q, 1);
    }
  }

  /** What a call decides, when it comes q whole cycles and e seconds after `last`. */
  lemma DecideCases(t: Timing, last: int, now: int, q: int, e: int)
    requires t.Valid() && now - last == t.Cycle() * q + e && 0 <= e < t.Cycle()
    ensures var c := t.Cycle();
      Decide(t, last, now) ==
        if e < t.prepare && (now >= last || e == 0) then Decision(now - e, t.prepare - e, now - e + c)
        else if now >= last && e <= t.prepare + t.prove then Decision(last, 0, last + c)
        else Decision(now - e + c, c + t.prepare - e, now - e + c + c)
    ensures Stale(t, last, now) <==> now >= last && t.prepare <= e <= t.prepare + t.prove && q >= 1
  {
    var c := t.Cycle();
    ModUnique(now - last, c, q, e);
    QuotientSign(c, q, e);
    if now < last && e > 0 {
      NegateProduct(c, q);
      ModUnique(last - now, c, -q - 1, c - e);
    } else if now < last {
      NegateProduct(c, q);
      ModUnique(last - now, c, -q, 0);
    }
  }

  lemma NegateProduct(c: int, q: int)
    ensures c * (-q) == -(c * q) && c * (-q - 1) == -(c * q) - c
  {
  }

  /** Every wake-up lands in the prove window, seen from `last`; no wait is negative or reaches a cycle
      and a preparation; and `last` moves by whole cycles only. */
  lemma WakeInWindow(t: Timing, last: int, now: int)
    requires t.Valid()
    ensures InWindow(t, Wake(t, last, now) - last)
    ensures 0 <= Decide(t, last, now).wait < t.Cycle() + t.prepare
    ensures (Decide(t, last, now).last - last) % t.Cycle() == 0
    ensures Decide(t, last, now).next == Decide(t, last, now).last + t.Cycle()
  {
    WakeInWindowAt(t, last, now, (now - last) / t.Cycle(), (now - last) % t.Cycle());
  }

  lemma WakeInWindowAt(t: Timing, last: int, now: int, q: int, e: int)
    requires t.Valid() && now - last == t.Cycle() * q + e && 0 <= e < t.Cycle()
    ensures InWindow(t, Wake(t, last, now) - last)
    ensures 0 <= Decide(t, last, now).wait < t.Cycle() + t.prepare
    ensures (Decide(t, last, now).last - last) % t.Cycle() == 0
    ensures Decide(t, last, now).next == Decide(t, last, now).last + t.Cycle()
  {
    var c, d := t.Cycle(), Decide(t, last, now);
    DecideCases(t, last, now, q, e);
    hide Decide;
    if e < t.prepare && (now >= last || e == 0) {
      ModUnique(d.last - last, c, q, 0);
      ModUnique(Wake(t, last, now) - last, c, q, t.prepare);
    } else if now >= last && e <= t.prepare + t.prove {
      ModUnique(d.last - last, c, 0, 0);
      ModUnique(now - last, c, q, e);
    } else {
      assert c * (q + 1) == c * q + c;
      ModUnique(d.last - last, c, q + 1, 0);
      ModUnique(Wake(t, last, now) - last, c, q + 1, t.prepare);
    }
  }

  /** A time is a number of whole cycles and a remainder. */
  lemma At(t: Timing, time: int, m: int, r: int)
    requires t.Valid() && time == t.Cycle() * m + r && 0 <= r < t.Cycle()
    ensures CycleOf(t, time) == m && time % t.Cycle() == r
  {
    ModUnique(time, t.Cycle(), m, r);
  }

  lemma Cycles(t: Timing, k: int, q: int)
    ensures t.Cycle() * (k + q) == t.Cycle() * k + t.Cycle() * q
    ensures t.Cycle() * (k + q + 1) == t.Cycle() * k + t.Cycle() * q + t.Cycle()
    ensures t.Cycle() * (k + 1) == t.Cycle() * k + t.Cycle()
    ensures t.Valid() && q >= 1 ==> t.Cycle() * q >= t.Cycle()
  {
    var c := t.Cycle();
    if t.Valid() && q >= 1 {
      assert c * (q - 1) >= 0;
    }
  }

  /** A wake-up at the start of a prove window, q cycles after `last`. */
  lemma GridJump(t: Timing, last: int, k: int, q: int, wake: int)
    requires t.Valid() && last == t.Cycle() * k && wake == last + t.Cycle() * q + t.prepare
    ensures OnGrid(t, wake - t.prepare) && OnGrid(t, wake - t.prepare + t.Cycle()) && InWindow(t, wake)
    ensures t.Cycle() * CycleOf(t, wake) == wake - t.prepare
  {
    Cycles(t, k, q);
    At(t, wake, k + q, t.prepare);
    At(t, wake - t.prepare, k + q, 0);
    At(t, wake - t.prepare + t.Cycle(), k + q + 1, 0);
  }

  /** A wake-up at once, q cycles and e seconds after `last`. */
  lemma GridStay(t: Timing, last: int, k: int, q: int, e: int, now: int)
    requires t.Valid() && last == t.Cycle() * k && now == last + t.Cycle() * q + e
    requires q >= 0 && t.prepare <= e <= t.prepare + t.prove
    ensures OnGrid(t, last + t.Cycle()) && InWindow(t, now)
    ensures t.Cycle() * CycleOf(t, now) == last + t.Cycle() * q
  {
    Cycles(t, k, q);
    At(t, now, k + q, e);
    At(t, last + t.Cycle(), k + 1, 0);
  }

  lemma GridStepAt(t: Timing, last: int, now: int, k: int, q: int, e: int)
    requires t.Valid() && last == t.Cycle() * k && now - last == t.Cycle() * q + e && 0 <= e < t.Cycle()
    ensures OnGrid(t, Decide(t, last, now).last) && OnGrid(t, Decide(t, last, now).next)
    ensures InWindow(t, Wake(t, last, now))
    ensures var start := t.Cycle() * CycleOf(t, Wake(t, last, now));
      if Stale(t, last, now)
      then Wake(t, last, now) == now && Decide(t, last, now).last == last && last + t.Cycle() <= start
      else Decide(t, last, now).last == start
  {
    var c, w := t.Cycle(), Wake(t, last, now);
    ModUnique(last, c, k, 0);
    DecideCases(t, last, now, q, e);
    hide Decide, Stale, CycleOf;
    if e < t.prepare && (now >= last || e == 0) {
      GridJump(t, last, k, q, w);
    } else if now >= last && e <= t.prepare + t.prove {
      QuotientSign(c, q, e);
      GridStay(t, last, k, q, e, now);
      Cycles(t, 0, q);
    } else {
      Cycles(t, q, 0);
      GridJump(t, last, k, q + 1, w);
    }
  }

  /** Where a call leaves `last`, for a `last` on the grid. Unless the call is stale, `last` becomes the
      start of the cycle in which the prover wakes up. */
  lemma GridStep(t: Timing, last: int, now: int)
    requires t.Valid() && OnGrid(t, last)
    ensures OnGrid(t, Decide(t, last, now).last) && OnGrid(t, Decide(t, last, now).next)
    ensures InWindow(t, Wake(t, last, now))
    ensures var start := t.Cycle() * CycleOf(t, Wake(t, last, now));
      if Stale(t, last, now)
      then Wake(t, last, now) == now && Decide(t, last, now).last == last && last + t.Cycle() <= start
      else Decide(t, last, now).last == start
  {
    GridStepAt(t, last, now, last / t.Cycle(), (now - last) / t.Cycle(), (now - last) % t.Cycle());
  }

  lemma StaleStep(t: Timing, last: int, now: int)
    requires t.Valid() && Stale(t, last, now)
    ensures Decide(t, last, now) == Decision(last, 0, last + t.Cycle())
  {
    DecideCases(t, last, now, (now - last) / t.Cycle(), (now - last) % t.Cycle());
  }

  /** A call that is not stale: `last` is the start of the cycle served, and the next one follows. */
  lemma FreshStep(t: Timing, last: int, now: int)
    requires t.Valid() && OnGrid(t, last) && !Stale(t, last, now)
    ensures var cycle := CycleOf(t, Wake(t, last, now));
      && Decide(t, last, now).last == t.Cycle() * cycle
      && Decide(t, last, now).next == t.Cycle() * (cycle + 1)
      && t.prepare <= Wake(t, last, now) - t.Cycle() * cycle <= t.prepare + t.prove
  {
    GridStep(t, last, now);
    WakeInWindow(t, last, now);
    hide Decide, Wake, Stale, OnGrid;
    Cycles(t, CycleOf(t, Wake(t, last, now)), 0);
  }

  /** A call that finds `last` less than a cycle ahead never moves it back. */
  lemma LastNeverDecreases(t: Timing, last: int, now: int)
    requires t.Valid() && last < now + t.Cycle()
    ensures last <= Decide(t, last, now).last
  {
    var c := t.Cycle();
    var q, e := (now - last) / c, (now - last) % c;
    assert now - last == c * q + e;
    QuotientSign(c, q, e);
    DecideCases(t, last, now, q, e);
  }
}
