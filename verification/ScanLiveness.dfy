/** No thread of the chunk ring is ever left asleep for good, and every run ends. */
module ScanLiveness {
  import opened ScanRing
  import opened Collections

  // ----- no lost wake-up -----

  /** What a sleeping thread waits for has not happened, or the broadcast that tells it is still to come. */
  ghost predicate RightlyAsleep(p: Plan, r: Ring, t: Thread)
    requires |r.slots| == RING_SLOTS
  {
    match t
    case Reader => r.reader.Filling? && r.cur < p.end && r.slots[SlotOf(r.produced)].phase != Empty
    case Worker(w) =>
      && w < |r.workers| && r.workers[w].Waiting?
      && var c := r.workers[w].chunk;
      && !(r.slots[SlotOf(c)].phase == Filled && r.slots[SlotOf(c)].chunk == c)
      && StillToBeTold(r, c)
    case Writer =>
      && r.writer.Checking?
      && !(r.slots[SlotOf(r.nextWrite)].phase == Done && r.slots[SlotOf(r.nextWrite)].chunk == r.nextWrite)
      && StillToBeTold(r, r.nextWrite)
  }

  predicate StillToBeTold(r: Ring, c: nat) {
    r.readerDone && c >= r.total ==> r.reader.Announcing? && r.reader.slot <= SlotOf(c)
  }

  ghost predicate Alert(p: Plan, r: Ring)
    requires |r.slots| == RING_SLOTS
  {
    forall t | t in r.asleep :: RightlyAsleep(p, r, t)
  }

  lemma StepKeepsAlert(p: Plan, n: nat, r: Ring, t: Thread)
    requires Inv(p, n, r) && Alert(p, r) && r.Runnable(t)
    ensures |Step(p, r, t).slots| == RING_SLOTS && Alert(p, Step(p, r, t))
  {
    match t
    case Reader => ReaderKeepsAlert(p, n, r);
    case Worker(w) => WorkerKeepsAlert(p, n, r, w);
    case Writer => WriterKeepsAlert(p, n, r);
  }

  lemma ReaderKeepsAlert(p: Plan, n: nat, r: Ring)
    requires Inv(p, n, r) && Alert(p, r) && r.Runnable(Reader)
    ensures |ReaderStep(p, r).slots| == RING_SLOTS && Alert(p, ReaderStep(p, r))
  {
    var q := ReaderStep(p, r);
    forall u | u in q.asleep ensures RightlyAsleep(p, q, u) {
      if u in r.asleep { ReaderKeepsSleeper(p, n, r, u); }
    }
  }

  lemma WorkerKeepsAlert(p: Plan, n: nat, r: Ring, w: nat)
    requires Inv(p, n, r) && Alert(p, r) && r.Runnable(Worker(w))
    ensures |WorkerStep(p, r, w).slots| == RING_SLOTS && Alert(p, WorkerStep(p, r, w))
  {
    var q := WorkerStep(p, r, w);
    forall u | u in q.asleep ensures RightlyAsleep(p, q, u) {
      if u in r.asleep { WorkerKeepsSleeper(p, n, r, w, u); }
    }
  }

  lemma WriterKeepsAlert(p: Plan, n: nat, r: Ring)
    requires Inv(p, n, r) && Alert(p, r) && r.Runnable(Writer)
    ensures |WriterStep(r).slots| == RING_SLOTS && Alert(p, WriterStep(r))
  {
    var q := WriterStep(r);
    forall u | u in q.asleep ensures RightlyAsleep(p, q, u) {
      if u in r.asleep { WriterKeepsSleeper(p, n, r, u); }
    }
  }

  lemma ReaderKeepsSleeper(p: Plan, n: nat, r: Ring, u: Thread)
    requires Inv(p, n, r) && r.Runnable(Reader) && u in r.asleep && RightlyAsleep(p, r, u)
    requires u in ReaderStep(p, r).asleep
    ensures |ReaderStep(p, r).slots| == RING_SLOTS && RightlyAsleep(p, ReaderStep(p, r), u)
  {
  }

  lemma WorkerKeepsSleeper(p: Plan, n: nat, r: Ring, w: nat, u: Thread)
    requires Inv(p, n, r) && r.Runnable(Worker(w)) && u in r.asleep && RightlyAsleep(p, r, u)
    requires u in WorkerStep(p, r, w).asleep
    ensures |WorkerStep(p, r, w).slots| == RING_SLOTS && RightlyAsleep(p, WorkerStep(p, r, w), u)
  {
    assert WorkerOk(p, r, r.workers[w]);
    match r.workers[w]
    case Claiming =>
    case Waiting(_) => TakingKeepsSleeper(p, r, w, u);
    case Scanning(_, _) => ScanningKeepsSleeper(p, r, w, u);
  }

  lemma TakingKeepsSleeper(p: Plan, r: Ring, w: nat, u: Thread)
    requires |r.slots| == RING_SLOTS && r.Runnable(Worker(w)) && r.workers[w].Waiting?
    requires u in r.asleep && RightlyAsleep(p, r, u)
    ensures |WorkerStep(p, r, w).slots| == RING_SLOTS && RightlyAsleep(p, WorkerStep(p, r, w), u)
  {
  }

  lemma ScanningKeepsSleeper(p: Plan, r: Ring, w: nat, u: Thread)
    requires |r.slots| == RING_SLOTS && r.Runnable(Worker(w)) && r.workers[w].Scanning?
    requires r.slots[SlotOf(r.workers[w].chunk)].phase == Processing
    requires u in r.asleep && RightlyAsleep(p, r, u) && u in WorkerStep(p, r, w).asleep
    ensures |WorkerStep(p, r, w).slots| == RING_SLOTS && RightlyAsleep(p, WorkerStep(p, r, w), u)
  {
  }

  lemma WriterKeepsSleeper(p: Plan, n: nat, r: Ring, u: Thread)
    requires Inv(p, n, r) && r.Runnable(Writer) && u in r.asleep && RightlyAsleep(p, r, u)
    requires u in WriterStep(r).asleep
    ensures |WriterStep(r).slots| == RING_SLOTS && RightlyAsleep(p, WriterStep(r), u)
  {
    match r.writer
    case Dumping(_, _) => DumpingKeepsSleeper(p, r, u);
    case _ =>
  }

  lemma DumpingKeepsSleeper(p: Plan, r: Ring, u: Thread)
    requires |r.slots| == RING_SLOTS && r.writer.Dumping? && r.slots[SlotOf(r.nextWrite)].phase == Done
    requires u in r.asleep && RightlyAsleep(p, r, u) && u in WriterStep(r).asleep
    ensures |WriterStep(r).slots| == RING_SLOTS && RightlyAsleep(p, WriterStep(r), u)
  {
  }

  // ----- no deadlock -----

  /** Until every thread has exited some thread can take a step. */
  lemma SomeoneRuns(p: Plan, n: nat, r: Ring) returns (t: Thread)
    requires Inv(p, n, r) && Alert(p, r) && n >= 1 && !r.Final()
    ensures r.Runnable(t)
  {
    if r.reader.ReaderExited? {
      if w :| 0 <= w < n && !r.workers[w].WorkerExited? {
        NoWorkerSleepsAfterReader(p, n, r, w);
        t := Worker(w);
      } else {
        WriterAwakeAfterWorkers(p, n, r);
        t := Writer;
      }
    } else if Reader !in r.asleep {
      t := Reader;
    } else if Writer !in r.asleep {
      assert WriterInv(p, r) && RightlyAsleep(p, r, Reader);
      t := Writer;
    } else {
      t := RingFullRuns(p, n, r);
    }
  }

  lemma NoWorkerSleepsAfterReader(p: Plan, n: nat, r: Ring, w: nat)
    requires Inv(p, n, r) && Alert(p, r) && r.reader.ReaderExited? && w < n
    ensures Worker(w) !in r.asleep
  {
    assert WorkerOk(p, r, r.workers[w]);
    assert Worker(w) in r.asleep ==> RightlyAsleep(p, r, Worker(w));
  }

  lemma WriterAwakeAfterWorkers(p: Plan, n: nat, r: Ring)
    requires Inv(p, n, r) && Alert(p, r) && r.reader.ReaderExited? && n >= 1
    requires forall w | 0 <= w < n :: r.workers[w].WorkerExited?
    ensures Writer !in r.asleep
  {
    assert WorkerOk(p, r, r.workers[0]);
    assert Pending(r, r.nextWrite) ==> exists w: nat :: r.Holds(w, r.nextWrite);
    assert Writer in r.asleep ==> RightlyAsleep(p, r, Writer);
  }

  /** Reader and writer both wait: the ring is full and its oldest chunk is in a worker's hands or unclaimed. */
  lemma RingFullRuns(p: Plan, n: nat, r: Ring) returns (t: Thread)
    requires Inv(p, n, r) && Alert(p, r) && n >= 1 && Reader in r.asleep && Writer in r.asleep
    ensures r.Runnable(t)
  {
    assert RightlyAsleep(p, r, Reader) && RightlyAsleep(p, r, Writer);
    var c := r.nextWrite;
    assert c < r.produced by {
      var k := SlotOf(r.produced);
      assert Occupied(p, r, k);
    }
    if c < r.nextClaim {
      assert Pending(r, c);
      var w: nat :| r.Holds(w, c);
      assert WorkerOk(p, r, r.workers[w]);
      assert Worker(w) in r.asleep ==> RightlyAsleep(p, r, Worker(w));
      t := Worker(w);
    } else {
      assert WorkerOk(p, r, r.workers[0]);
      assert Worker(0) in r.asleep ==> RightlyAsleep(p, r, Worker(0));
      t := Worker(0);
    }
  }

  // ----- termination -----

  datatype Measure = Measure(unread: nat, announce: nat, filled: nat, unwritten: nat,
                             workers: nat, writer: nat, awake: nat)
  {
    predicate Exceeds(m: Measure) {
      || unread > m.unread
      || (unread == m.unread &&
          (|| announce > m.announce
           || (announce == m.announce &&
               (|| filled > m.filled
                || (filled == m.filled &&
                    (|| unwritten > m.unwritten
                     || (unwritten == m.unwritten &&
                         (|| workers > m.workers
                          || (workers == m.workers &&
                              (|| writer > m.writer
                               || (writer == m.writer && awake > m.awake)))))))))))
    }
  }

  function Sum<T>(s: seq<T>, f: T -> nat): nat {
    if s == [] then 0 else Sum(s[..|s| - 1], f) + f(s[|s| - 1])
  }

  lemma {:induction false} SumUpdate<T>(s: seq<T>, f: T -> nat, i: nat, x: T)
    requires i < |s|
    ensures Sum(s[i := x], f) + f(s[i]) == Sum(s, f) + f(x)
  {
    var m := |s| - 1;
    if i == m {
      assert s[i := x][..m] == s[..m];
    } else {
      assert s[i := x][..m] == s[..m][i := x];
      SumUpdate(s[..m], f, i, x);
    }
  }

  function AllThreads(n: nat): (ts: set<Thread>)
    ensures Reader in ts && Writer in ts && forall w: nat :: Worker(w) in ts <==> w < n
    ensures |ts| == n + 2
  {
    if n == 0 then {Reader, Writer}
    else
      var rest := AllThreads(n - 1);
      assert Worker(n - 1) !in rest;
      rest + {Worker(n - 1)}
  }

  lemma Listed(n: nat, t: Thread)
    ensures t in AllThreads(n) <==> (t.Worker? ==> t.id < n)
  {
    match t
    case Reader =>
    case Worker(w) =>
    case Writer =>
  }

  const IsFilled: Slot -> nat := (s: Slot) => if s.phase == Filled then 1 else 0

  function WorkerRank(p: Plan): WorkerPc -> nat {
    (pc: WorkerPc) =>
      match pc
      case WorkerExited => 0
      case Waiting(_) => 1
      case Claiming => 2
      case Scanning(_, b) => 3 + if b <= p.perChunk then p.perChunk - b else 0
  }

  function WriterRank(p: Plan, pc: WriterPc): nat {
    match pc
    case WriterExited => 0
    case Advancing => 1
    case Dumping(hits, h) => 2 + if h <= |hits| then |hits| - h else 0
    case Checking => p.perChunk + 3
    case Idle => p.perChunk + 4
  }

  function Sub(a: nat, b: nat): nat {
    if b <= a then a - b else 0
  }

  /** What is left to do, most significant first. */
  function Left(p: Plan, r: Ring): Measure {
    Measure(
      Sub(p.Limit(), r.cur),
      match r.reader {
        case Filling => RING_SLOTS + 2
        case Announcing(i) => 1 + Sub(RING_SLOTS, i)
        case ReaderExited => 0
      },
      Sum(r.slots, IsFilled),
      Sub(r.produced, r.nextWrite),
      Sum(r.workers, WorkerRank(p)),
      WriterRank(p, r.writer),
      Sub(|r.workers| + 2, |r.asleep|))
  }

  ghost predicate SleepersExist(r: Ring) {
    r.asleep <= AllThreads(|r.workers|)
  }

  /** Falling asleep is a step too: it leaves one thread fewer awake. */
  lemma SleepFalls(p: Plan, r: Ring, t: Thread)
    requires r.Runnable(t) && SleepersExist(r)
    ensures Left(p, r).Exceeds(Left(p, r.(asleep := r.asleep + {t})))
  {
    var all := AllThreads(|r.workers|);
    Listed(|r.workers|, t);
    SubsetSize(r.asleep + {t}, all);
    assert |r.asleep + {t}| == |r.asleep| + 1;
  }

  lemma ReaderFalls(p: Plan, n: nat, r: Ring)
    requires Inv(p, n, r) && r.Runnable(Reader) && SleepersExist(r)
    ensures Left(p, r).Exceeds(Left(p, ReaderStep(p, r)))
  {
    BoundaryRange(p, r.produced);
    if r.reader.Filling? && r.cur < p.end && r.slots[SlotOf(r.produced)].phase != Empty {
      SleepFalls(p, r, Reader);
    }
  }

  lemma ClaimingFalls(p: Plan, r: Ring, w: nat)
    requires |r.slots| == RING_SLOTS && w < |r.workers| && r.workers[w].Claiming?
    ensures Left(p, r).Exceeds(Left(p, WorkerStep(p, r, w)))
  {
    SumUpdate(r.workers, WorkerRank(p), w, WorkerStep(p, r, w).workers[w]);
  }

  /** A waiting worker that does not go to sleep takes its chunk or leaves. */
  lemma TakingFalls(p: Plan, r: Ring, w: nat)
    requires |r.slots| == RING_SLOTS && w < |r.workers| && r.workers[w].Waiting?
    requires WorkerStep(p, r, w).asleep == r.asleep
    requires Worker(w) !in r.asleep
    ensures Left(p, r).Exceeds(Left(p, WorkerStep(p, r, w)))
  {
    var q, k := WorkerStep(p, r, w), SlotOf(r.workers[w].chunk);
    SumUpdate(r.workers, WorkerRank(p), w, q.workers[w]);
    SumUpdate(r.slots, IsFilled, k, q.slots[k]);
  }

  lemma WaitingFalls(p: Plan, r: Ring, w: nat)
    requires |r.slots| == RING_SLOTS && r.Runnable(Worker(w)) && r.workers[w].Waiting? && SleepersExist(r)
    ensures Left(p, r).Exceeds(Left(p, WorkerStep(p, r, w)))
  {
    var q := WorkerStep(p, r, w);
    if q.asleep != r.asleep { SleepFalls(p, r, Worker(w)); } else { TakingFalls(p, r, w); }
  }

  lemma ScanningFalls(p: Plan, r: Ring, w: nat)
    requires |r.slots| == RING_SLOTS && w < |r.workers| && r.workers[w].Scanning?
    requires var s := r.slots[SlotOf(r.workers[w].chunk)]; s.phase == Processing && s.count <= p.perChunk
    ensures Left(p, r).Exceeds(Left(p, WorkerStep(p, r, w)))
  {
    var q := WorkerStep(p, r, w);
    var k := SlotOf(r.workers[w].chunk);
    SumUpdate(r.workers, WorkerRank(p), w, q.workers[w]);
    SumUpdate(r.slots, IsFilled, k, q.slots[k]);
  }

  lemma WorkerFalls(p: Plan, n: nat, r: Ring, w: nat)
    requires Inv(p, n, r) && r.Runnable(Worker(w)) && SleepersExist(r)
    ensures Left(p, r).Exceeds(Left(p, WorkerStep(p, r, w)))
  {
    assert WorkerOk(p, r, r.workers[w]);
    match r.workers[w]
    case Claiming => ClaimingFalls(p, r, w);
    case Waiting(c) => WaitingFalls(p, r, w);
    case Scanning(c, b) =>
      assert Occupied(p, r, SlotOf(c));
      ChunkFits(p, c);
      ScanningFalls(p, r, w);
  }

  lemma ChunkFits(p: Plan, c: nat)
    ensures p.Boundary(c + 1) <= p.Boundary(c) + p.perChunk
  {
  }

  lemma {:induction false} HitsFit(p: Plan, lo: nat, hi: nat)
    requires lo <= hi
    ensures |p.Hits(lo, hi)| <= hi - lo
  {
    if lo < hi { HitsFit(p, lo, hi - 1); }
  }

  lemma HitsBounded(p: Plan, n: nat, r: Ring)
    requires Inv(p, n, r) && r.writer.Checking?
    ensures var s := r.slots[SlotOf(r.nextWrite)]; s.phase == Done ==> |s.hits| <= p.perChunk
  {
    var k := SlotOf(r.nextWrite);
    if r.slots[k].phase == Done {
      assert Occupied(p, r, k) && HitsOk(p, r, r.slots[k]);
      HitsFit(p, r.slots[k].first, r.slots[k].first + r.slots[k].count);
      ChunkFits(p, r.slots[k].chunk);
    }
  }

  lemma CheckingFalls(p: Plan, r: Ring)
    requires |r.slots| == RING_SLOTS && r.Runnable(Writer) && SleepersExist(r) && r.writer.Checking?
    requires var s := r.slots[SlotOf(r.nextWrite)]; s.phase == Done ==> |s.hits| <= p.perChunk
    ensures Left(p, r).Exceeds(Left(p, WriterStep(r)))
  {
    var q, k := WriterStep(r), SlotOf(r.nextWrite);
    if q.asleep != r.asleep {
      SleepFalls(p, r, Writer);
    } else if q.writer.Dumping? {
      SumUpdate(r.slots, IsFilled, k, q.slots[k]);
    }
  }

  lemma DumpingFalls(p: Plan, r: Ring)
    requires |r.slots| == RING_SLOTS && r.writer.Dumping?
    requires r.slots[SlotOf(r.nextWrite)].phase == Done
    ensures Left(p, r).Exceeds(Left(p, WriterStep(r)))
  {
    var q, k := WriterStep(r), SlotOf(r.nextWrite);
    SumUpdate(r.slots, IsFilled, k, q.slots[k]);
  }

  lemma WriterFalls(p: Plan, n: nat, r: Ring)
    requires Inv(p, n, r) && r.Runnable(Writer) && SleepersExist(r)
    ensures Left(p, r).Exceeds(Left(p, WriterStep(r)))
  {
    match r.writer
    case Checking =>
      HitsBounded(p, n, r);
      CheckingFalls(p, r);
    case Dumping(_, _) => DumpingFalls(p, r);
    case _ =>
  }

  /** Every step, falling asleep included, strictly lowers what is left. */
  lemma StepFalls(p: Plan, n: nat, r: Ring, t: Thread)
    requires Inv(p, n, r) && r.Runnable(t) && SleepersExist(r)
    ensures Left(p, r).Exceeds(Left(p, Step(p, r, t)))
  {
    match t
    case Reader => ReaderFalls(p, n, r);
    case Worker(w) => WorkerFalls(p, n, r, w);
    case Writer => WriterFalls(p, n, r);
  }

  lemma SleepersAreThreads(p: Plan, r: Ring)
    requires |r.slots| == RING_SLOTS && Alert(p, r)
    ensures SleepersExist(r)
  {
    forall t | t in r.asleep ensures t in AllThreads(|r.workers|) {
      assert RightlyAsleep(p, r, t);
      Listed(|r.workers|, t);
    }
  }
}
