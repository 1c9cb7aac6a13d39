/** The allowed outcomes of the nonce search are exactly the possible ones: every winner of the lowest
    winning device is the answer of some interleaving. */
module PowOutcomes {
  import opened Pow
  import opened PowMachine

  function Last(run: seq<State>): State
    requires run != []
  {
    run[|run| - 1]
  }

  lemma Extend(job: Job, untouched: int, run: seq<State>, s: State) returns (longer: seq<State>)
    requires job.Valid() && IsRun(job, untouched, run) && Step(job, Last(run), s)
    ensures IsRun(job, untouched, longer) && Last(longer) == s
  {
    hide Step;
    longer := run + [s];
    forall k | 0 <= k < |longer| - 1
      ensures Step(job, longer[k], longer[k + 1])
    {
      if k < |run| - 1 {
        assert Step(job, run[k], run[k + 1]);
      }
    }
  }

  lemma ExtendByHost(job: Job, untouched: int, run: seq<State>, s: State) returns (longer: seq<State>)
    requires job.Valid() && IsRun(job, untouched, run) && HostStep(job, Last(run), s)
    ensures IsRun(job, untouched, longer) && Last(longer) == s
  {
    hide HostStep, IsRun;
    assert Step(job, Last(run), s);
    longer := Extend(job, untouched, run, s);
  }

  lemma ExtendByThread(job: Job, untouched: int, run: seq<State>, t: Thread) returns (longer: seq<State>)
    requires job.Valid() && IsRun(job, untouched, run)
    requires t in Last(run).pending && t.gpu < |Last(run).cells|
    ensures IsRun(job, untouched, longer)
    ensures Last(longer) == Last(run).(cells := WriteOf(job, Last(run).cells, t), pending := Last(run).pending - {t})
  {
    hide IsRun, WriteOf;
    var s := Last(run);
    var s' := s.(cells := WriteOf(job, s.cells, t), pending := s.pending - {t});
    assert ThreadStep(job, s, s', t);
    assert Step(job, s, s');
    longer := Extend(job, untouched, run, s');
  }

  /** The host can launch all devices before any thread gets to run. */
  lemma {:induction false} LaunchAll(job: Job, untouched: int, i: nat) returns (run: seq<State>)
    requires job.Valid() && i <= job.devices
    ensures IsRun(job, untouched, run) && Last(run).host == Launching(i)
    ensures forall t: Thread :: t in Last(run).pending <==> t.InGrid(job) && t.gpu < i
  {
    if i == 0 {
      run := [State(Launching(0), seq(job.devices, _ => 0), {}, untouched)];
    } else {
      run := LaunchAll(job, untouched, i - 1);
      RunKeepsInv(job, untouched, run, |run| - 1);
      var s := Last(run);
      run := ExtendByHost(job, untouched, run,
        s.(host := Launching(i), cells := s.cells[i - 1 := -1], pending := s.pending + Grid(job, i - 1)));
    }
  }

  /** All pending threads but those in `keep` can run, in any order. */
  lemma {:induction false} Drain(job: Job, untouched: int, run: seq<State>, keep: set<Thread>)
    returns (longer: seq<State>)
    requires job.Valid() && IsRun(job, untouched, run)
    requires Last(run).host == Joining(0) && keep <= Last(run).pending
    ensures IsRun(job, untouched, longer)
    ensures Last(longer).host == Joining(0) && Last(longer).pending == keep
    decreases |Last(run).pending - keep|
  {
    hide IsRun, WriteOf, Wins, Covered, CellSound, Outcome;
    var s := Last(run);
    if t :| t in s.pending && t !in keep {
      RunKeepsInv(job, untouched, run, |run| - 1);
      longer := ExtendByThread(job, untouched, run, t);
      assert Last(longer).pending - keep == (s.pending - keep) - {t};
      longer := Drain(job, untouched, longer, keep);
    } else {
      longer := run;
    }
  }

  lemma {:induction false} JoinUpTo(job: Job, untouched: int, run: seq<State>, i: nat) returns (longer: seq<State>)
    requires job.Valid() && IsRun(job, untouched, run) && i <= job.devices
    requires Last(run).host == Joining(0) && Last(run).pending == {}
    ensures IsRun(job, untouched, longer) && Last(longer) == Last(run).(host := Joining(i))
  {
    hide IsRun;
    if i == 0 {
      longer := run;
    } else {
      longer := JoinUpTo(job, untouched, run, i - 1);
      longer := ExtendByHost(job, untouched, longer, Last(run).(host := Joining(i)));
    }
  }

  lemma {:induction false} SelectUpTo(job: Job, untouched: int, run: seq<State>, i: nat) returns (longer: seq<State>)
    requires job.Valid() && IsRun(job, untouched, run) && i <= job.devices == |Last(run).cells|
    requires Last(run).host == Selecting(0) && forall g :: 0 <= g < i ==> Last(run).cells[g] == -1
    ensures IsRun(job, untouched, longer) && Last(longer) == Last(run).(host := Selecting(i))
  {
    hide IsRun;
    if i == 0 {
      longer := run;
    } else {
      longer := SelectUpTo(job, untouched, run, i - 1);
      longer := ExtendByHost(job, untouched, longer, Last(run).(host := Selecting(i)));
    }
  }

  /** From a state in which every thread has run, the host can look through the empty cells below gpu. */
  lemma ReachSelection(job: Job, untouched: int, run: seq<State>, gpu: nat) returns (longer: seq<State>)
    requires job.Valid() && IsRun(job, untouched, run) && gpu <= job.devices
    requires Last(run).host == Joining(0) && Last(run).pending == {}
    requires forall h :: 0 <= h < gpu ==> NoWinner(job, h)
    ensures IsRun(job, untouched, longer) && Last(longer) == Last(run).(host := Selecting(gpu))
    ensures |Last(run).cells| == job.devices
  {
    hide IsRun, Wins, Covered, Outcome;
    RunKeepsInv(job, untouched, run, |run| - 1);
    forall h | 0 <= h < gpu
      ensures Last(run).cells[h] == -1
    {
      assert NoWinner(job, h) && CellSound(job, h, Last(run).cells[h]);
    }
    longer := JoinUpTo(job, untouched, run, job.devices);
    longer := ExtendByHost(job, untouched, longer, Last(run).(host := Selecting(0)));
    longer := SelectUpTo(job, untouched, longer, gpu);
  }

  lemma StartJoining(job: Job, untouched: int) returns (run: seq<State>)
    requires job.Valid()
    ensures IsRun(job, untouched, run) && Last(run).host == Joining(0)
    ensures forall t: Thread :: t in Last(run).pending <==> t.InGrid(job)
  {
    hide IsRun;
    run := LaunchAll(job, untouched, job.devices);
    run := ExtendByHost(job, untouched, run, Last(run).(host := Joining(0)));
  }

  /** The winner whose thread writes last is the one returned. */
  lemma WinnerIsPossible(job: Job, untouched: int, gpu: nat, offset: int) returns (run: seq<State>)
    requires job.Valid() && gpu < job.devices && Winner(job, gpu, offset)
    requires forall h :: 0 <= h < gpu ==> NoWinner(job, h)
    ensures IsRun(job, untouched, run) && Last(run).host == Returned && Last(run).answer == offset
  {
    hide IsRun, Wins, Covered, Outcome, CellSound, NoWinner;
    var w := WinnerHasThread(job, gpu, offset);
    run := StartJoining(job, untouched);
    run := Drain(job, untouched, run, {w});
    RunKeepsInv(job, untouched, run, |run| - 1);
    run := ExtendByThread(job, untouched, run, w);
    assert Last(run).pending == {} && Last(run).cells[gpu] == offset;
    run := ReachSelection(job, untouched, run, gpu);
    run := ExtendByHost(job, untouched, run, Last(run).(host := Returned, answer := offset));
  }

  lemma NoneIsPossible(job: Job, untouched: int) returns (run: seq<State>)
    requires job.Valid() && forall h :: 0 <= h < job.devices ==> NoWinner(job, h)
    ensures IsRun(job, untouched, run) && Last(run).host == Returned && Last(run).answer == untouched
  {
    hide IsRun, Wins, Covered, Outcome, CellSound, NoWinner;
    run := StartJoining(job, untouched);
    run := Drain(job, untouched, run, {});
    RunKeepsInv(job, untouched, run, |run| - 1);
    run := ReachSelection(job, untouched, run, job.devices);
    run := ExtendByHost(job, untouched, run, Last(run).(host := Returned));
  }

  ghost predicate Possible(job: Job, untouched: int, answer: int)
    requires job.Valid()
  {
    exists run :: IsRun(job, untouched, run) && Last(run).host == Returned && Last(run).answer == answer
  }

  /** Main theorem: an answer is returned under some interleaving if and only if it is a winner of the
      lowest-numbered device that has one, or the untouched value when no device has one. */
  lemma PossibleAnswers(job: Job, untouched: int, answer: int)
    requires job.Valid()
    ensures Possible(job, untouched, answer) <==> Outcome(job, untouched, answer)
  {
    hide IsRun, Wins, Winner, NoWinner, Covered, CellSound;
    if Possible(job, untouched, answer) {
      var run :| IsRun(job, untouched, run) && Last(run).host == Returned && Last(run).answer == answer;
      RunKeepsInv(job, untouched, run, |run| - 1);
    }
    if Outcome(job, untouched, answer) {
      if g :| 0 <= g < job.devices && Winner(job, g, answer) && forall h :: 0 <= h < g ==> NoWinner(job, h) {
        var run := WinnerIsPossible(job, untouched, g, answer);
      } else {
        var run := NoneIsPossible(job, untouched);
      }
    }
  }
}
