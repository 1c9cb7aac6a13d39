/** The prover object: its `last` field, the calculation that updates it, and the endless loop. */
module GridProver {
  import opened Scheduler
  import opened SchedulerRuns

  /** How far a round gets once the prover has woken up. */
  datatype Round = CountFailed | NoOrders | ChallengeFailed | ProofFailed | SubmitFailed | Submitted
  {
    /** Only a round that reaches the submission, successful or not, adopts the next `last`. */
    predicate Completes() {
      SubmitFailed? || Submitted?
    }
  }

  /** One turn of the loop as the environment shapes it: the clock at the calculation, whether the wait
      is interrupted by the context or by a call to stop, and what the round runs into. */
  datatype Turn = Turn(now: int, interrupted: bool, round: Round)

  function CallsOf(turns: seq<Turn>): (calls: seq<Call>)
    ensures |calls| == |turns|
  {
    seq(|turns|, i requires 0 <= i < |turns| => Call(turns[i].now, turns[i].round.Completes()))
  }

  /** Which rounds adopt the next `last`: those that reach the submission, even if it then fails. */
  lemma AdoptsNext(t: Timing, turns: seq<Turn>, i: nat)
    requires t.Valid() && i < |turns|
    ensures var d := Decide(t, LastBefore(t, CallsOf(turns), i), turns[i].now);
      LastBefore(t, CallsOf(turns), i + 1) == match turns[i].round
        case CountFailed => d.last
        case NoOrders => d.last
        case ChallengeFailed => d.last
        case ProofFailed => d.last
        case SubmitFailed => d.next
        case Submitted => d.next
  {
  }

  class GRIDProver {
    var last: int
    var doned: bool
    const timing: Timing

    constructor (prepareInterval: int, proverInterval: int, waitInterval: int)
      ensures last == 0 && !doned && timing == Timing(prepareInterval, proverInterval, waitInterval)
    {
      last := 0;
      doned := false;
      timing := Timing(prepareInterval, proverInterval, waitInterval);
    }

    method CalculateWaitingTime(now: int) returns (wait: int, next: int)
      requires timing.Valid()
      modifies this`last
      ensures Decide(timing, old(last), now) == Decision(last, wait, next)
      ensures 0 <= wait < timing.Cycle() + timing.prepare
      ensures InWindow(timing, now + wait - old(last)) && (last - old(last)) % timing.Cycle() == 0
    {
      ghost var before := last;
      var challengeCycleSeconds := timing.Cycle();
      var duration := now - last;
      var over := GoMod(duration, challengeCycleSeconds);
      var waitingSeconds := 0;
      if over < timing.prepare {
        waitingSeconds := timing.prepare - over;
        last := now - over;
      } else if over > timing.prepare + timing.prove {
        waitingSeconds := challengeCycleSeconds + timing.prepare - over;
        last := now - over + challengeCycleSeconds;
      }
      next := last + challengeCycleSeconds;
      wait := waitingSeconds;
      WakeInWindow(timing, before, now);
    }

    /** The loop, over the turns the environment offers; it returns when a wait is interrupted. The
        results are the number of rounds begun and the moments at which they were due. */
    method Start(turns: seq<Turn>) returns (rounds: nat, wakes: seq<int>)
      requires timing.Valid() && last == 0 && !doned
      modifies this
      ensures rounds <= |turns| && doned == (rounds < |turns|)
      ensures forall i :: 0 <= i < rounds ==> !turns[i].interrupted
      ensures doned ==> turns[rounds].interrupted
      ensures var before := LastBefore(timing, CallsOf(turns), rounds);
        last == if doned then Decide(timing, before, turns[rounds].now).last else before
      ensures |wakes| == rounds && forall i :: 0 <= i < rounds ==> wakes[i] == WakeAt(timing, CallsOf(turns), i)
      ensures !doned && rounds > 0 ==>
        var turn := turns[rounds - 1];
        var d := Decide(timing, LastBefore(timing, CallsOf(turns), rounds - 1), turn.now);
        last == if turn.round in {SubmitFailed, Submitted} then d.next else d.last
    {
      rounds, wakes := 0, [];
      while rounds < |turns|
        invariant rounds <= |turns| && !doned
        invariant forall i :: 0 <= i < rounds ==> !turns[i].interrupted
        invariant last == LastBefore(timing, CallsOf(turns), rounds)
        invariant |wakes| == rounds && forall i :: 0 <= i < rounds ==> wakes[i] == WakeAt(timing, CallsOf(turns), i)
      {
        var turn := turns[rounds];
        var wait, nextTime := CalculateWaitingTime(turn.now);
        if turn.interrupted {
          doned := true;
          return;
        }
        wakes := wakes + [turn.now + wait];
        rounds := rounds + 1;
        if turn.round.CountFailed? {
          continue;
        }
        if turn.round.NoOrders? {
          continue;
        }
        if turn.round.ChallengeFailed? {
          continue;
        }
        if turn.round.ProofFailed? {
          continue;
        }
        last := nextTime;
      }
    }
  }
}
