/** What a returned nonce means for the proof that the prover submits. */
module PowResult {
  import opened Arithmetic
  import opened Bytes
  import opened Fips180
  import opened Difficulty
  import opened ProverTypes
  import opened Pow
  import opened PowMachine
  import opened PowOutcomes

  function JobOf(node: NodeID, rnd: seq<byte>, difficulty: nat, devices: nat): Job {
    Job(rnd + NodeBytes(node), difficulty, devices)
  }

  /** The digest of the challenge followed by the submitted proof has d leading zero bits. */
  predicate ProofMeets(node: NodeID, rnd: seq<byte>, difficulty: nat, nonce: int64)
    requires difficulty <= 256
  {
    Meets(Sha256(rnd + ProofBytes(Proof(node, nonce))), difficulty)
  }

  /** The bytes a thread hashes are the challenge and the proof with its own nonce. */
  lemma HashedMessageIsProof(node: NodeID, rnd: seq<byte>, difficulty: nat, devices: nat, nonce: int64)
    requires JobOf(node, rnd, difficulty, devices).Valid()
    ensures Wins(JobOf(node, rnd, difficulty, devices), nonce) <==> ProofMeets(node, rnd, difficulty, nonce)
    ensures Wins(JobOf(node, rnd, difficulty, devices), nonce) <==>
      ValueBE(Sha256(rnd + node.address + LittleEndian(node.id, 8) + LittleEndian(nonce, 8))) < Pow2(256 - difficulty)
  {
    hide Sha256, LittleEndian, ValueBE, Pow2;
    assert rnd + NodeBytes(node) == rnd + node.address + LittleEndian(node.id, INT_BYTES);
    assert rnd + NodeBytes(node) + LittleEndian(nonce, INT_BYTES) == rnd + ProofBytes(Proof(node, nonce));
  }

  ghost predicate SomeWinner(job: Job)
    requires job.Valid()
  {
    exists o: nat :: Searched(job, o) && Wins(job, o)
  }

  /** The count is the power of two it is meant to be up to difficulty 28; at 29 it is negative, and at
      30 it is zero. */
  lemma CountMeaning(job: Job)
    requires job.Valid()
    ensures job.Count() ==
      if job.difficulty <= 28 then 2 * Pow2(job.difficulty + 1) else if job.difficulty == 29 then -TWO31 else 0
    ensures job.Count() <= 0x4000_0000
  {
    PowersAround29();
    if job.difficulty <= 28 {
      Pow2Monotone(job.difficulty + 1, 29);
    }
  }

  lemma PowersAround29()
    ensures Pow2(29) == 0x2000_0000 && Pow2(30) == 0x4000_0000 && Pow2(31) == 0x8000_0000
  {
    assert Pow2(10) == 0x400;
    Pow2Add(10, 10);
    Pow2Add(20, 9);
    assert Pow2(9) == 0x200;
  }

  lemma CountBound(job: Job)
    requires job.Valid()
    ensures 0 <= SliceStart(job, job.devices) <= 0x4000_0000
    ensures SliceStart(job, job.devices) > 0 ==> job.difficulty <= 28
  {
    CountMeaning(job);
    if job.devices > 0 && job.Count() >= 0 {
      LeftOver(job);
    }
  }

  lemma SliceOfSearched(job: Job, offset: nat) returns (gpu: nat)
    requires job.Valid() && Searched(job, offset)
    ensures gpu < job.devices && InSlice(job, gpu, offset)
  {
    var t := ThreadFor(job, offset);
    EveryOffsetHasThread(job, offset);
    ActiveThreadsAreSearched(job, t);
    gpu := t.gpu;
  }

  lemma InSliceIsSearched(job: Job, gpu: nat, offset: int)
    requires gpu < job.devices && InSlice(job, gpu, offset)
    ensures Searched(job, offset)
  {
    SliceOrder(job, gpu, job.devices);
  }

  /** An outcome is a winning searched nonce when there is one, and the untouched value otherwise. */
  lemma OutcomeMeaning(job: Job, untouched: int, answer: int)
    requires job.Valid() && Outcome(job, untouched, answer)
    ensures SomeWinner(job) ==> Searched(job, answer) && Wins(job, answer)
    ensures !SomeWinner(job) ==> answer == untouched
  {
    hide Wins;
    if SomeWinner(job) {
      var o: nat :| Searched(job, o) && Wins(job, o);
      var h := SliceOfSearched(job, o);
      assert !NoWinner(job, h);
    }
    if g :| 0 <= g < job.devices && Winner(job, g, answer) {
      InSliceIsSearched(job, g, answer);
    }
  }

  /** End to end: the nonce returned for a challenge makes the submitted proof pass, whenever any nonce
      of the searched range does; otherwise it is zero. */
  lemma ReturnedNonce(node: NodeID, rnd: seq<byte>, difficulty: nat, devices: nat, nonce: int)
    requires JobOf(node, rnd, difficulty, devices).Valid()
    requires Outcome(JobOf(node, rnd, difficulty, devices), 0, nonce)
    ensures var limit := SliceStart(JobOf(node, rnd, difficulty, devices), devices);
      && limit <= 0x4000_0000 && (limit > 0 ==> difficulty <= 28)
      && if exists o: nat :: o < limit && ProofMeets(node, rnd, difficulty, o)
         then 0 <= nonce < limit && ProofMeets(node, rnd, difficulty, nonce)
         else nonce == 0
  {
    hide Wins, ProofMeets, Outcome;
    var job := JobOf(node, rnd, difficulty, devices);
    var limit := SliceStart(job, devices);
    CountBound(job);
    OutcomeMeaning(job, 0, nonce);
    if o: nat :| o < limit && ProofMeets(node, rnd, difficulty, o) {
      HashedMessageIsProof(node, rnd, difficulty, devices, o);
      assert Searched(job, o);
      HashedMessageIsProof(node, rnd, difficulty, devices, nonce);
    } else if SomeWinner(job) {
      HashedMessageIsProof(node, rnd, difficulty, devices, nonce);
    }
  }

  /** Whether passing tells that something was found: exactly unless there are more devices than nonces
      (so that nothing is searched) or no device at all, and zero happens to pass. */
  lemma PassingMeansFound(job: Job, answer: int)
    requires job.Valid() && Outcome(job, 0, answer)
    ensures (Wins(job, answer) <==> SomeWinner(job)) <==> (0 < job.devices <= job.Count() || !Wins(job, 0))
  {
    hide Wins;
    OutcomeMeaning(job, 0, answer);
    ZeroIsSearched(job);
    if !(0 < job.devices <= job.Count()) {
      NothingSearched(job);
    }
  }

  lemma EveryDeviceHasWork(job: Job)
    requires 0 < job.devices <= job.Count()
    ensures SliceStart(job, job.devices) > 0
  {
    LeftOver(job);
  }

  lemma NothingSearched(job: Job)
    requires job.devices == 0 || job.devices > job.Count()
    ensures SliceStart(job, job.devices) == 0
  {
    if job.devices > 0 && job.Count() >= 0 {
      ModUnique(job.Count(), job.devices, 0, job.Count());
    }
  }

  lemma FourNonces(job: Job)
    requires job.Valid() && job.difficulty == 0
    ensures job.Count() == 4
  {
    CountMeaning(job);
    assert Pow2(1) == 2;
  }

  /** The exception is real: with five devices at difficulty zero nothing is searched, yet zero passes. */
  lemma FiveDevicesDifficultyZero(prefix: seq<byte>, answer: int)
    requires |prefix| < 0x8000_0000 && Outcome(Job(prefix, 0, 5), 0, answer)
    ensures !SomeWinner(Job(prefix, 0, 5)) && answer == 0 && Wins(Job(prefix, 0, 5), answer)
  {
    var job := Job(prefix, 0, 5);
    FourNonces(job);
    EveryNoncePassesDifficultyZero(job, 0);
    NothingSearched(job);
    hide Wins;
    OutcomeMeaning(job, 0, answer);
  }

  /** What the repository's rate test relies on: the answer, whatever the interleaving, is nonzero exactly
      when some searched nonce wins. */
  ghost predicate NonzeroTells(job: Job)
    requires job.Valid()
  {
    forall answer :: Possible(job, 0, answer) ==> (answer != 0 <==> SomeWinner(job))
  }

  lemma ZeroIsSearched(job: Job)
    ensures Searched(job, 0) <==> 0 < job.devices <= job.Count()
  {
    if 0 < job.devices <= job.Count() {
      EveryDeviceHasWork(job);
    } else {
      NothingSearched(job);
    }
  }

  /** When nonce zero is searched and wins, some interleaving returns it. */
  lemma ZeroIsPossible(job: Job)
    requires job.Valid() && Searched(job, 0) && Wins(job, 0)
    ensures Possible(job, 0, 0)
  {
    hide Wins, Possible;
    var gpu := SliceOfSearched(job, 0);
    if gpu > 0 {
      SliceOrder(job, 0, gpu);
    }
    assert gpu == 0 && Winner(job, gpu, 0);
    PossibleAnswers(job, 0, 0);
  }

  /** Nonzero tells exactly unless nonce zero is searched, which takes at least one device and no more
      devices than nonces, and wins. One hash decides this before the call. */
  lemma NonzeroTellsExactly(job: Job)
    requires job.Valid()
    ensures NonzeroTells(job) <==> !(Searched(job, 0) && Wins(job, 0))
    ensures NonzeroTells(job) <==> !(0 < job.devices <= job.Count() && Wins(job, 0))
  {
    ZeroIsSearched(job);
    hide Wins, Possible, Outcome;
    if Searched(job, 0) && Wins(job, 0) {
      ZeroIsPossible(job);
      assert SomeWinner(job);
    } else {
      forall answer | Possible(job, 0, answer)
        ensures answer != 0 <==> SomeWinner(job)
      {
        PossibleAnswers(job, 0, answer);
        OutcomeMeaning(job, 0, answer);
      }
    }
  }

  /** Above difficulty 28 nothing is searched, and the caller's value comes back whatever it was. */
  lemma NothingAbove28(job: Job, untouched: int, answer: int)
    requires job.Valid() && job.difficulty > 28
    ensures !SomeWinner(job) && (Possible(job, untouched, answer) <==> answer == untouched)
  {
    CountBound(job);
    PossibleAnswers(job, untouched, answer);
    hide Wins, Possible;
    forall g | 0 <= g < job.devices
      ensures NoWinner(job, g)
    {
      SliceOrder(job, g, job.devices);
    }
    hide SliceStart;
    assert !SomeWinner(job);
    if Outcome(job, untouched, answer) {
      OutcomeMeaning(job, untouched, answer);
    }
  }

  lemma EveryNoncePassesDifficultyZero(job: Job, offset: int)
    requires job.Valid() && job.difficulty == 0
    ensures Wins(job, offset)
  {
    hide Sha256;
    ValueBEBound(Sha256(job.prefix + LittleEndian(offset, INT_BYTES)));
    Pow256IsPow2(32);
  }

  /** An instance for every prefix: one device at difficulty zero can return zero although it wins. */
  lemma OneDeviceDifficultyZero(prefix: seq<byte>)
    requires |prefix| < 0x8000_0000
    ensures var job := Job(prefix, 0, 1);
      Wins(job, 0) && SomeWinner(job) && Possible(job, 0, 0) && !NonzeroTells(job)
  {
    var job := Job(prefix, 0, 1);
    FourNonces(job);
    EveryNoncePassesDifficultyZero(job, 0);
    hide Wins, Possible;
    ZeroIsSearched(job);
    ZeroIsPossible(job);
    NonzeroTellsExactly(job);
    assert Searched(job, 0) && Wins(job, 0);
  }
}
