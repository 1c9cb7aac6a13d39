/** The nonce search: what is searched, how it is divided among the threads of several devices, and
    the host and its threads as one transition system in which anything enabled may happen next. */
module Pow {
  import opened Arithmetic
  import opened Bytes
  import opened Fips180
  import opened Difficulty
  import opened ProverTypes

  /** One call of the search: the hashed prefix, the difficulty and the number of devices. */
  datatype Job = Job(prefix: seq<byte>, difficulty: nat, devices: nat)
  {
    /** The host shifts a 32-bit integer by one more than the difficulty, which must be below its width. */
    predicate Valid() {
      difficulty <= 30 && |prefix| < 0x8000_0000
    }

    /** The shifted integer, with the bits that leave it lost and its top bit the sign. */
    function Count(): int {
      var bits := 2 * Pow2(difficulty + 1) % TWO32;
      if bits < TWO31 then bits else bits - TWO32
    }

    /** The offsets each device searches: none if the count is not positive. */
    function Share(): nat {
      if devices == 0 || Count() < 0 then 0 else Count() / devices
    }

    function NumBlocks(): nat {
      (Share() + BLOCK_SIZE - 1) / BLOCK_SIZE
    }
  }

  const BLOCK_SIZE: nat := 16
  const TWO31: int := 0x8000_0000

  predicate Wins(job: Job, offset: int)
    requires job.Valid()
  {
    Meets(Sha256(job.prefix + LittleEndian(offset, INT_BYTES)), job.difficulty)
  }

  function SliceStart(job: Job, gpu: nat): nat {
    gpu * job.Share()
  }

  predicate InSlice(job: Job, gpu: nat, offset: int) {
    SliceStart(job, gpu) <= offset < SliceStart(job, gpu) + job.Share()
  }

  predicate Searched(job: Job, offset: int) {
    0 <= offset < SliceStart(job, job.devices)
  }

  // The grid of threads, and the division of the offsets among them.

  datatype Thread = Thread(gpu: nat, block: nat, lane: nat)
  {
    function Index(): nat {
      block * BLOCK_SIZE + lane
    }

    predicate Active(job: Job) {
      Index() < job.Share()
    }

    function Offset(job: Job): nat {
      SliceStart(job, gpu) + Index()
    }

    predicate InGrid(job: Job) {
      gpu < job.devices && block < job.NumBlocks() && lane < BLOCK_SIZE
    }
  }

  function ThreadFor(job: Job, offset: nat): Thread
    requires job.Share() > 0
  {
    var i := offset % job.Share();
    Thread(offset / job.Share(), i / BLOCK_SIZE, i % BLOCK_SIZE)
  }

  lemma SliceOrder(job: Job, g: nat, h: nat)
    requires g < h
    ensures SliceStart(job, g) + job.Share() <= SliceStart(job, h)
  {
    if job.Share() > 0 {
      MulGap(job.Share(), h, g);
    }
  }

  lemma OwnerOfOffset(job: Job, g: nat, i: nat)
    requires i < job.Share()
    ensures (SliceStart(job, g) + i) / job.Share() == g
    ensures (SliceStart(job, g) + i) % job.Share() == i
  {
    ModUnique(SliceStart(job, g) + i, job.Share(), g, i);
  }

  /** Rounding the grid up to whole blocks drops no offset: each searched offset has a thread... */
  lemma EveryOffsetHasThread(job: Job, offset: nat)
    requires Searched(job, offset)
    ensures job.Share() > 0
    ensures var t := ThreadFor(job, offset); t.InGrid(job) && t.Active(job) && t.Offset(job) == offset
  {
    var n := job.Share();
    assert n > 0;
    var g, i := offset / n, offset % n;
    assert offset == n * g + i;
    if g >= job.devices {
      if g > job.devices {
        SliceOrder(job, job.devices, g);
      }
    }
    assert i == (i / BLOCK_SIZE) * BLOCK_SIZE + i % BLOCK_SIZE;
  }

  /** ... and only one: two active threads of the grid never hash the same nonce. */
  lemma ThreadsAreDistinct(job: Job, t: Thread, u: Thread)
    requires t.InGrid(job) && t.Active(job) && u.InGrid(job) && u.Active(job)
    requires t.Offset(job) == u.Offset(job)
    ensures t == u
  {
    OwnerOfOffset(job, t.gpu, t.Index());
    OwnerOfOffset(job, u.gpu, u.Index());
    QuotientUnique(BLOCK_SIZE, t.block, t.lane, u.block, u.lane);
  }

  lemma ActiveThreadsAreSearched(job: Job, t: Thread)
    requires t.InGrid(job) && t.Active(job)
    ensures Searched(job, t.Offset(job)) && InSlice(job, t.gpu, t.Offset(job))
  {
    SliceOrder(job, t.gpu, job.devices);
  }

  /** Fewer nonces than there are devices are left out of the nominal count. */
  lemma LeftOver(job: Job)
    requires job.devices > 0 && job.Count() >= 0
    ensures 0 <= job.Count() - SliceStart(job, job.devices) < job.devices
  {
    assert job.Count() == job.devices * job.Share() + job.Count() % job.devices;
  }

  function ThreadsUpTo(gpu: nat, k: nat): (threads: set<Thread>)
    ensures forall t :: t in threads <==> t.gpu == gpu && t.lane < BLOCK_SIZE && t.Index() < k
    ensures |threads| <= k
  {
    if k == 0 then
      {}
    else
      var last := Thread(gpu, (k - 1) / BLOCK_SIZE, (k - 1) % BLOCK_SIZE);
      ThreadsUpTo(gpu, k - 1) + {last}
  }

  /** The whole grid launched on one device. */
  function Grid(job: Job, gpu: nat): (threads: set<Thread>)
    ensures forall t :: t in threads <==> t.gpu == gpu && t.lane < BLOCK_SIZE && t.block < job.NumBlocks()
    ensures |threads| <= BLOCK_SIZE * job.NumBlocks()
  {
    var threads := ThreadsUpTo(gpu, BLOCK_SIZE * job.NumBlocks());
    threads
  }
}
