/** The host and the threads of the nonce search as one transition system. The host launches a grid
    on every device, joins the devices, then looks at their cells in order. From the moment its grid is
    launched, a thread may take its only visible step at any time: an unsynchronised, atomic write. */
module PowMachine {
  import opened Pow

  datatype Host =
    | Launching(gpu: nat)
    | Joining(gpu: nat)
    | Selecting(gpu: nat)
    | Returned

  /** `cells[g]` is the result cell of device g; `answer` is the caller's cell. */
  datatype State = State(host: Host, cells: seq<int>, pending: set<Thread>, answer: int)

  ghost predicate Initial(job: Job, untouched: int, s: State) {
    s.host == Launching(0) && |s.cells| == job.devices && s.pending == {} && s.answer == untouched
  }

  function Launched(job: Job, host: Host): nat {
    if host.Launching? then host.gpu else job.devices
  }

  function WriteOf(job: Job, cells: seq<int>, t: Thread): (cells': seq<int>)
    requires job.Valid() && t.gpu < |cells|
    ensures |cells'| == |cells|
  {
    if t.Active(job) && Wins(job, t.Offset(job)) then cells[t.gpu := t.Offset(job)] else cells
  }

  ghost predicate ThreadStep(job: Job, s: State, s': State, t: Thread)
    requires job.Valid()
  {
    && t in s.pending
    && t.gpu < |s.cells|
    && s' == s.(cells := WriteOf(job, s.cells, t), pending := s.pending - {t})
  }

  ghost predicate HostStep(job: Job, s: State, s': State) {
    match s.host
    case Launching(i) =>
      if i < job.devices then
        && i < |s.cells|
        && s' == s.(host := Launching(i + 1), cells := s.cells[i := -1], pending := s.pending + Grid(job, i))
      else
        s' == s.(host := Joining(0))
    case Joining(i) =>
      if i < job.devices then
        (forall t :: t in s.pending ==> t.gpu != i) && s' == s.(host := Joining(i + 1))
      else
        s' == s.(host := Selecting(0))
    case Selecting(i) =>
      if i < job.devices then
        i < |s.cells| && s' == if s.cells[i] != -1 then s.(host := Returned, answer := s.cells[i])
                               else s.(host := Selecting(i + 1))
      else
        s' == s.(host := Returned)
    case Returned => false
  }

  ghost predicate Step(job: Job, s: State, s': State)
    requires job.Valid()
  {
    HostStep(job, s, s') || exists t :: ThreadStep(job, s, s', t)
  }

  ghost predicate IsRun(job: Job, untouched: int, run: seq<State>): (b: bool)
    requires job.Valid()
    ensures b ==> run != []
  {
    && run != []
    && Initial(job, untouched, run[0])
    && forall k :: 0 <= k < |run| - 1 ==> Step(job, run[k], run[k + 1])
  }

  // What a run must deliver.

  /** A winning nonce of the device's own slice. */
  predicate Winner(job: Job, gpu: nat, offset: int)
    requires job.Valid()
  {
    InSlice(job, gpu, offset) && Wins(job, offset)
  }

  /** The cell contents that are ever visible: nothing found yet, or a winner of the device's slice. */
  predicate CellSound(job: Job, gpu: nat, cell: int)
    requires job.Valid()
  {
    cell == -1 || Winner(job, gpu, cell)
  }

  ghost predicate NoWinner(job: Job, gpu: nat)
    requires job.Valid()
  {
    forall o :: InSlice(job, gpu, o) ==> !Wins(job, o)
  }

  /** The answer is a winner from the lowest-numbered device that has one; without any winner the
      caller's cell keeps what it held. */
  ghost predicate Outcome(job: Job, untouched: int, answer: int)
    requires job.Valid()
  {
    || (exists g :: 0 <= g < job.devices && Winner(job, g, answer) && forall h :: 0 <= h < g ==> NoWinner(job, h))
    || (answer == untouched && forall h :: 0 <= h < job.devices ==> NoWinner(job, h))
  }

  // The invariant of every reachable state.

  /** A thread that could still write, or whose device already has a result. */
  predicate Covered(s: State, t: Thread) {
    t in s.pending || (t.gpu < |s.cells| && s.cells[t.gpu] != -1)
  }

  ghost predicate ThreadsInv(job: Job, s: State) {
    && (forall t :: t in s.pending ==> t.InGrid(job) && t.gpu < Launched(job, s.host))
    && (s.host.Joining? ==> forall t :: t in s.pending ==> t.gpu >= s.host.gpu)
    && (s.host.Selecting? || s.host.Returned? ==> s.pending == {})
  }

  ghost predicate CellsInv(job: Job, s: State)
    requires job.Valid()
  {
    && |s.cells| == job.devices
    && Launched(job, s.host) <= job.devices
    && (forall g :: 0 <= g < Launched(job, s.host) ==> CellSound(job, g, s.cells[g]))
    && (forall t: Thread :: t.InGrid(job) && t.gpu < Launched(job, s.host) && t.Active(job) && Wins(job, t.Offset(job))
          ==> Covered(s, t))
  }

  ghost predicate AnswerInv(job: Job, untouched: int, s: State)
    requires job.Valid()
  {
    && (!s.host.Returned? ==> s.answer == untouched)
    && (s.host.Joining? || s.host.Selecting? ==> s.host.gpu <= job.devices)
    && (s.host.Selecting? ==> forall g :: 0 <= g < s.host.gpu ==> NoWinner(job, g))
    && (s.host.Returned? ==> Outcome(job, untouched, s.answer))
  }

  ghost predicate Inv(job: Job, untouched: int, s: State)
    requires job.Valid()
  {
    ThreadsInv(job, s) && CellsInv(job, s) && AnswerInv(job, untouched, s)
  }

  lemma WinnerHasThread(job: Job, gpu: nat, offset: int) returns (t: Thread)
    requires job.Valid() && gpu < job.devices && InSlice(job, gpu, offset)
    ensures t.InGrid(job) && t.Active(job) && t.gpu == gpu && t.Offset(job) == offset
  {
    SliceOrder(job, gpu, job.devices);
    t := ThreadFor(job, offset);
    EveryOffsetHasThread(job, offset);
    OwnerOfOffset(job, gpu, offset - SliceStart(job, gpu));
  }

  /** Once a device is joined, an empty cell means that its slice has no winner. */
  lemma EmptyCellMeansNoWinner(job: Job, s: State, gpu: nat)
    requires job.Valid() && CellsInv(job, s) && s.pending == {}
    requires gpu < job.devices == Launched(job, s.host) && s.cells[gpu] == -1
    ensures NoWinner(job, gpu)
  {
    hide Wins;
    forall o | InSlice(job, gpu, o)
      ensures !Wins(job, o)
    {
      var t := WinnerHasThread(job, gpu, o);
      assert !Covered(s, t);
    }
  }

  lemma ThreadStepKeeps(job: Job, untouched: int, s: State, s': State, t: Thread)
    requires job.Valid() && Inv(job, untouched, s) && ThreadStep(job, s, s', t)
    ensures Inv(job, untouched, s')
  {
    hide Wins;
    ActiveOffset(job, t);
    assert s.host == s'.host;
    forall g | 0 <= g < Launched(job, s'.host)
      ensures CellSound(job, g, s'.cells[g])
    {
      assert CellSound(job, g, s.cells[g]);
    }
    forall u: Thread | u.InGrid(job) && u.gpu < Launched(job, s'.host) && u.Active(job) && Wins(job, u.Offset(job))
      ensures Covered(s', u)
    {
      assert Covered(s, u);
    }
  }

  lemma ActiveOffset(job: Job, t: Thread)
    requires job.Valid() && t.InGrid(job)
    ensures t.Active(job) ==> InSlice(job, t.gpu, t.Offset(job)) && t.Offset(job) != -1
  {
    if t.Active(job) {
      ActiveThreadsAreSearched(job, t);
    }
  }

  lemma LaunchKeepsCells(job: Job, s: State, s': State)
    requires job.Valid() && ThreadsInv(job, s) && CellsInv(job, s) && HostStep(job, s, s')
    requires s.host.Launching? && s.host.gpu < job.devices
    ensures CellsInv(job, s')
  {
    hide Wins;
    var i := s.host.gpu;
    assert s'.cells == s.cells[i := -1] && s'.pending == s.pending + Grid(job, i);
    forall g | 0 <= g < i + 1
      ensures CellSound(job, g, s'.cells[g])
    {
      if g < i {
        assert CellSound(job, g, s.cells[g]);
      }
    }
    forall u: Thread | u.InGrid(job) && u.gpu < i + 1 && u.Active(job) && Wins(job, u.Offset(job))
      ensures Covered(s', u)
    {
      if u.gpu < i {
        assert Covered(s, u);
      } else {
        assert u in Grid(job, i);
      }
    }
  }

  lemma LaunchKeepsThreads(job: Job, s: State, s': State)
    requires ThreadsInv(job, s) && HostStep(job, s, s') && s.host.Launching?
    ensures ThreadsInv(job, s')
  {
  }

  lemma LaunchKeeps(job: Job, untouched: int, s: State, s': State)
    requires job.Valid() && Inv(job, untouched, s) && HostStep(job, s, s') && s.host.Launching?
    ensures Inv(job, untouched, s')
  {
    hide Wins, CellSound, Covered, ThreadsInv;
    LaunchKeepsThreads(job, s, s');
    if s.host.gpu < job.devices {
      LaunchKeepsCells(job, s, s');
    } else {
      SameCells(job, s, s');
    }
  }

  lemma SameCells(job: Job, s: State, s': State)
    requires job.Valid() && CellsInv(job, s)
    requires s'.cells == s.cells && s'.pending == s.pending && Launched(job, s'.host) == Launched(job, s.host)
    ensures CellsInv(job, s')
  {
    hide Wins, CellSound;
    forall u: Thread | u.InGrid(job) && u.gpu < Launched(job, s'.host) && u.Active(job) && Wins(job, u.Offset(job))
      ensures Covered(s', u)
    {
      assert Covered(s, u);
    }
  }

  lemma JoinKeeps(job: Job, untouched: int, s: State, s': State)
    requires job.Valid() && Inv(job, untouched, s) && HostStep(job, s, s') && s.host.Joining?
    ensures Inv(job, untouched, s')
  {
    hide Wins, CellSound, Covered;
    SameCells(job, s, s');
  }

  lemma SelectKeeps(job: Job, untouched: int, s: State, s': State)
    requires job.Valid() && Inv(job, untouched, s) && HostStep(job, s, s') && s.host.Selecting?
    ensures Inv(job, untouched, s')
  {
    hide Wins, Covered;
    var i := s.host.gpu;
    if i < job.devices {
      assert CellSound(job, i, s.cells[i]);
      if s.cells[i] == -1 {
        EmptyCellMeansNoWinner(job, s, i);
      }
    }
    SameCells(job, s, s');
  }

  lemma StepKeeps(job: Job, untouched: int, s: State, s': State)
    requires job.Valid() && Inv(job, untouched, s) && Step(job, s, s')
    ensures Inv(job, untouched, s')
  {
    if HostStep(job, s, s') {
      if s.host.Launching? {
        LaunchKeeps(job, untouched, s, s');
      } else if s.host.Joining? {
        JoinKeeps(job, untouched, s, s');
      } else {
        SelectKeeps(job, untouched, s, s');
      }
    } else {
      var t :| ThreadStep(job, s, s', t);
      ThreadStepKeeps(job, untouched, s, s', t);
    }
  }

  /** Safety, for every interleaving: in every state of every run, each launched cell is empty or
      holds a winner of its own slice; and the host returns only with the right answer. */
  lemma {:induction false} RunKeepsInv(job: Job, untouched: int, run: seq<State>, k: nat)
    requires job.Valid() && IsRun(job, untouched, run) && k < |run|
    ensures Inv(job, untouched, run[k])
  {
    if k == 0 {
      hide Wins;
    } else {
      RunKeepsInv(job, untouched, run, k - 1);
      StepKeeps(job, untouched, run[k - 1], run[k]);
    }
  }

  // Every run ends, and only by returning.

  function GridSize(job: Job): nat {
    BLOCK_SIZE * job.NumBlocks()
  }

  /** For each device still to be launched, the launch itself and one step for each of its threads. */
  function LaunchBudget(job: Job, devices: nat): nat {
    if devices == 0 then 0 else LaunchBudget(job, devices - 1) + GridSize(job) + 1
  }

  function HostLeft(job: Job, host: Host): nat
    requires !host.Returned? ==> host.gpu <= job.devices
  {
    match host
    case Launching(i) => LaunchBudget(job, job.devices - i) + 2 * job.devices + 4
    case Joining(i) => (job.devices - i) + job.devices + 3
    case Selecting(i) => (job.devices - i) + 2
    case Returned => 0
  }

  function StepsLeft(job: Job, s: State): nat
    requires !s.host.Returned? ==> s.host.gpu <= job.devices
  {
    HostLeft(job, s.host) + |s.pending|
  }

  lemma UnionSize<T>(a: set<T>, b: set<T>)
    ensures |a + b| <= |a| + |b|
  {
    assert |a + b| + |a * b| == |a| + |b|;
  }

  lemma GridFits(job: Job, gpu: nat)
    ensures |Grid(job, gpu)| <= GridSize(job)
  {
  }

  lemma HostStepDecreases(job: Job, s: State, s': State)
    requires HostStep(job, s, s') && (!s.host.Returned? ==> s.host.gpu <= job.devices)
    ensures !s'.host.Returned? ==> s'.host.gpu <= job.devices
    ensures StepsLeft(job, s') < StepsLeft(job, s)
  {
    hide GridSize, Grid;
    if s.host.Launching? && s.host.gpu < job.devices {
      UnionSize(s.pending, Grid(job, s.host.gpu));
      GridFits(job, s.host.gpu);
    }
  }

  /** Every step of every thread and of the host uses up one unit of a budget fixed at the start. */
  lemma StepDecreases(job: Job, s: State, s': State)
    requires job.Valid() && Step(job, s, s') && (!s.host.Returned? ==> s.host.gpu <= job.devices)
    ensures !s'.host.Returned? ==> s'.host.gpu <= job.devices
    ensures StepsLeft(job, s') < StepsLeft(job, s)
  {
    hide Wins, HostLeft, HostStep, WriteOf;
    if HostStep(job, s, s') {
      HostStepDecreases(job, s, s');
    }
  }

  function Budget(job: Job): nat {
    LaunchBudget(job, job.devices) + 2 * job.devices + 4
  }

  /** After k steps a run has used up at least k units, so no run is longer than the initial budget. */
  lemma {:induction false} RunsAreBounded(job: Job, untouched: int, run: seq<State>, k: nat)
    requires job.Valid() && IsRun(job, untouched, run) && k < |run|
    ensures !run[k].host.Returned? ==> run[k].host.gpu <= job.devices
    ensures StepsLeft(job, run[k]) + k <= Budget(job)
  {
    hide Wins, Step;
    if k > 0 {
      RunsAreBounded(job, untouched, run, k - 1);
      StepDecreases(job, run[k - 1], run[k]);
    }
  }

  ghost predicate Stuck(job: Job, s: State)
    requires job.Valid()
  {
    forall s' :: !Step(job, s, s')
  }

  /** No interleaving gets stuck: until the host has returned, something can happen. */
  lemma Progress(job: Job, untouched: int, s: State)
    requires job.Valid() && Inv(job, untouched, s) && !s.host.Returned?
    ensures !Stuck(job, s)
  {
    hide Wins, CellSound, Covered, Outcome;
    if s.pending != {} {
      var t :| t in s.pending;
      var s' := s.(cells := WriteOf(job, s.cells, t), pending := s.pending - {t});
      assert ThreadStep(job, s, s', t);
      assert Step(job, s, s');
    } else {
      var i := s.host.gpu;
      var s' :=
        if s.host.Launching? then
          if i < job.devices then
            s.(host := Launching(i + 1), cells := s.cells[i := -1], pending := s.pending + Grid(job, i))
          else s.(host := Joining(0))
        else if s.host.Joining? then
          if i < job.devices then s.(host := Joining(i + 1)) else s.(host := Selecting(0))
        else if i < job.devices then
          if s.cells[i] != -1 then s.(host := Returned, answer := s.cells[i]) else s.(host := Selecting(i + 1))
        else s.(host := Returned);
      assert HostStep(job, s, s');
      assert Step(job, s, s');
    }
  }

  /** Every run that cannot be continued has returned, with every device drained and the right answer. */
  lemma FinishedRun(job: Job, untouched: int, run: seq<State>)
    requires job.Valid() && IsRun(job, untouched, run) && Stuck(job, run[|run| - 1])
    ensures var end := run[|run| - 1];
      end.host == Returned && end.pending == {} && Outcome(job, untouched, end.answer)
  {
    hide Wins, Step, Outcome, CellsInv;
    var end := run[|run| - 1];
    RunKeepsInv(job, untouched, run, |run| - 1);
    if !end.host.Returned? {
      Progress(job, untouched, end);
    }
  }
}
