/** The nonce search as code: the kernel that each thread runs, the host routine that launches, joins
    and selects, and the prover's entry point. Threads run at arbitrary moments, in arbitrary order. */
module PowSearch {
  import opened Bytes
  import opened Fips180
  import opened Sha256
  import opened Streaming
  import opened Difficulty
  import opened ProverTypes
  import opened Pow
  import opened PowMachine
  import opened PowOutcomes
  import opened PowResult

  /** The eight bytes of a nonce, lowest first. */
  method OffsetBytes(offset: nat) returns (idx: array<byte>)
    ensures fresh(idx) && idx[..] == LittleEndian(offset, INT_BYTES)
  {
    hide ByteAt, LittleEndian;
    idx := new byte[8];
    EightDigits(offset);
    idx[0] := ByteAt(offset, 1);
    idx[1] := ByteAt(offset, 0x100);
    idx[2] := ByteAt(offset, 0x1_0000);
    idx[3] := ByteAt(offset, 0x100_0000);
    idx[4] := ByteAt(offset, 0x1_0000_0000);
    idx[5] := ByteAt(offset, 0x100_0000_0000);
    idx[6] := ByteAt(offset, 0x1_0000_0000_0000);
    idx[7] := ByteAt(offset, 0x100_0000_0000_0000);
  }

  method HashNonce(data: seq<byte>, offset: nat) returns (hash: array<byte>)
    requires |data| < TWO32
    ensures fresh(hash) && hash.Length == 32
    ensures hash[..] == Fips180.Sha256(data + LittleEndian(offset, INT_BYTES))
  {
    hide Compress, Finished, Started, DigestBytes, LittleEndian;
    var idx := OffsetBytes(offset);
    var ctx := new Sha256Ctx();
    hash := new byte[32];
    ghost var garbage := ctx.data[..];
    ctx.Init();
    ctx.Update(data);
    ctx.Update(idx[..]);
    ctx.Final(hash);
    TwoUpdates(garbage, data, idx[..]);
    assert hash[..] == hash[..32];
  }

  /** One thread: hash its nonce, and write it to the device's cell if the digest passes. */
  method Sha256Cuda(job: Job, t: Thread, cells: array<int>)
    requires job.Valid() && t.gpu < cells.Length
    modifies cells
    ensures cells[..] == WriteOf(job, old(cells[..]), t)
  {
    hide Meets, Fips180.Sha256;
    var n := job.Share();
    var i := t.block * BLOCK_SIZE + t.lane;
    var start := t.gpu * n;
    if i < n {
      var offset := start + i;
      assert offset == t.Offset(job);
      var hash := HashNonce(job.prefix, offset);
      var r := CheckOutput(hash, job.difficulty);
      if r == 0 {
        cells[t.gpu] := offset;
      }
    }
  }

  /** A pending thread takes its step: the machine's thread step, carried out on the real cells. */
  method StepThread(job: Job, t: Thread, cells: array<int>, pending: set<Thread>,
                    ghost untouched: int, ghost run: seq<State>)
    returns (rest: set<Thread>, ghost longer: seq<State>)
    requires job.Valid() && IsRun(job, untouched, run) && t in pending
    requires Last(run).cells == cells[..] && Last(run).pending == pending
    modifies cells
    ensures IsRun(job, untouched, longer) && rest == pending - {t}
    ensures Last(longer) == Last(run).(cells := cells[..], pending := rest)
  {
    hide IsRun, WriteOf, Covered, CellSound, Outcome;
    RunKeepsInv(job, untouched, run, |run| - 1);
    longer := ExtendByThread(job, untouched, run, t);
    Sha256Cuda(job, t, cells);
    rest := pending - {t};
  }

  /** Any number of pending threads run, in any order. */
  method Interleave(job: Job, cells: array<int>, pending: set<Thread>, ghost untouched: int, ghost run: seq<State>)
    returns (rest: set<Thread>, ghost longer: seq<State>)
    requires job.Valid() && IsRun(job, untouched, run)
    requires Last(run).cells == cells[..] && Last(run).pending == pending
    modifies cells
    ensures IsRun(job, untouched, longer) && rest <= pending
    ensures Last(longer) == Last(run).(cells := cells[..], pending := rest)
  {
    hide IsRun;
    rest, longer := pending, run;
    var more: bool := *;
    while more && rest != {}
      invariant IsRun(job, untouched, longer) && rest <= pending
      invariant Last(longer) == Last(run).(cells := cells[..], pending := rest)
      decreases rest
    {
      var t :| t in rest;
      rest, longer := StepThread(job, t, cells, rest, untouched, longer);
      more := *;
    }
  }

  /** The join of one device: threads of all devices go on running until none of its own is left. */
  method Synchronize(job: Job, gpu: nat, cells: array<int>, pending: set<Thread>,
                     ghost untouched: int, ghost run: seq<State>)
    returns (rest: set<Thread>, ghost longer: seq<State>)
    requires job.Valid() && IsRun(job, untouched, run)
    requires Last(run).cells == cells[..] && Last(run).pending == pending
    modifies cells
    ensures IsRun(job, untouched, longer) && forall t :: t in rest ==> t.gpu != gpu
    ensures Last(longer) == Last(run).(cells := cells[..], pending := rest)
  {
    hide IsRun;
    rest, longer := pending, run;
    while exists t :: t in rest && t.gpu == gpu
      invariant IsRun(job, untouched, longer)
      invariant Last(longer) == Last(run).(cells := cells[..], pending := rest)
      decreases rest
    {
      var t :| t in rest;
      rest, longer := StepThread(job, t, cells, rest, untouched, longer);
    }
  }

  /** The host routine: whatever the threads do, its behaviour is a run of the transition system. */
  method HostGeneratePow(rand: seq<byte>, difficulty: nat, devices: nat, index0: int)
    returns (index: int, ghost run: seq<State>)
    requires Job(rand, difficulty, devices).Valid()
    ensures var job := Job(rand, difficulty, devices);
      IsRun(job, index0, run) && Last(run).host == Returned && Last(run).answer == index
    ensures Outcome(Job(rand, difficulty, devices), index0, index)
  {
    hide IsRun, Outcome, CellsInv;
    var job := Job(rand, difficulty, devices);
    var indexes := new int[devices];
    var pending: set<Thread> := {};
    run := FirstState(job, index0, indexes[..]);
    var i := 0;
    while i < devices
      invariant i <= devices && IsRun(job, index0, run)
      invariant Last(run) == State(Launching(i), indexes[..], pending, index0)
    {
      pending, run := Interleave(job, indexes, pending, index0, run);
      indexes[i] := -1;
      pending := pending + Grid(job, i);
      run := ExtendByHost(job, index0, run, State(Launching(i + 1), indexes[..], pending, index0));
      i := i + 1;
    }
    run := ExtendByHost(job, index0, run, State(Joining(0), indexes[..], pending, index0));
    i := 0;
    while i < devices
      invariant i <= devices && IsRun(job, index0, run)
      invariant Last(run) == State(Joining(i), indexes[..], pending, index0)
    {
      pending, run := Synchronize(job, i, indexes, pending, index0, run);
      run := ExtendByHost(job, index0, run, State(Joining(i + 1), indexes[..], pending, index0));
      i := i + 1;
    }
    run := ExtendByHost(job, index0, run, State(Selecting(0), indexes[..], pending, index0));
    index := index0;
    i := 0;
    while i < devices
      invariant i <= devices && IsRun(job, index0, run)
      invariant Last(run) == State(Selecting(i), indexes[..], pending, index0) && index == index0
    {
      if indexes[i] != -1 {
        index := indexes[i];
        break;
      }
      run := ExtendByHost(job, index0, run, State(Selecting(i + 1), indexes[..], pending, index0));
      i := i + 1;
    }
    run := ExtendByHost(job, index0, run, State(Returned, indexes[..], pending, index));
    RunKeepsInv(job, index0, run, |run| - 1);
  }

  lemma FirstState(job: Job, untouched: int, cells: seq<int>) returns (run: seq<State>)
    requires job.Valid() && |cells| == job.devices
    ensures IsRun(job, untouched, run) && Last(run) == State(Launching(0), cells, {}, untouched)
  {
    run := [State(Launching(0), cells, {}, untouched)];
  }

  /** The prover's entry point: the search over the challenge followed by the node's bytes. */
  method GeneratePow(node: NodeID, rnd: seq<byte>, difficulty: nat, devices: nat) returns (nonce: int)
    requires JobOf(node, rnd, difficulty, devices).Valid()
    ensures Outcome(JobOf(node, rnd, difficulty, devices), 0, nonce)
    ensures var limit := SliceStart(JobOf(node, rnd, difficulty, devices), devices);
      && limit <= 0x4000_0000 && (limit > 0 ==> difficulty <= 28)
      && if exists o: nat :: o < limit && ProofMeets(node, rnd, difficulty, o)
         then 0 <= nonce < limit && ProofMeets(node, rnd, difficulty, nonce)
         else nonce == 0
  {
    hide ProofMeets, Outcome, SliceStart;
    var res := 0;
    var nodeBytes := NodeToBytes(node);
    var prefixBuf := rnd + nodeBytes;
    var index, _ := HostGeneratePow(prefixBuf, difficulty, devices, res);
    nonce := index;
    ReturnedNonce(node, rnd, difficulty, devices, nonce);
  }
}
