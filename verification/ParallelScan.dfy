/** The parallel scan as a whole (improved/parallel_scan.c): the ring together with what the writer
    recovers, against the single-threaded scan of improved/aggressive_scan_v5.c. */
module ParallelScan {
  import opened ScanRing
  import opened ScanLiveness

  const MAX_WORKERS: nat := 16

  /** `visit` is what both scans do with one block: skip it if it is already recovered or has no
      extent magic, otherwise try to recover it and report whether a file came out. */
  datatype Job<!S> = Job(plan: Plan, visit: (S, nat) -> (S, bool))

  /** The workers only drop blocks that a visit would leave without effect. */
  ghost predicate FilterHarmless<S(!new)>(job: Job<S>) {
    forall s: S, b: nat | !job.plan.hit(b) :: job.visit(s, b) == (s, false)
  }

  function Visit<S>(job: Job<S>, at: (S, nat), b: nat): (S, nat) {
    var (s, ok) := job.visit(at.0, b);
    (s, at.1 + if ok then 1 else 0)
  }

  /** Visit the given blocks in order, counting the recoveries. */
  function Apply<S>(job: Job<S>, s: S, blocks: seq<nat>): (S, nat) {
    if blocks == [] then (s, 0)
    else Visit(job, Apply(job, s, blocks[..|blocks| - 1]), blocks[|blocks| - 1])
  }

  // ----- the serial scan -----

  function Serial<S>(job: Job<S>, s: S, lo: nat, hi: nat): (S, nat)
    decreases hi
  {
    if hi <= lo then (s, 0) else Visit(job, Serial(job, s, lo, hi - 1), hi - 1)
  }

  method ScanSerially<S>(job: Job<S>, s0: S) returns (s: S, found: nat)
    ensures (s, found) == Serial(job, s0, job.plan.start, job.plan.Limit())
  {
    s, found := s0, 0;
    var block := job.plan.start;
    while block < job.plan.end
      invariant job.plan.start <= block <= job.plan.Limit()
      invariant (s, found) == Serial(job, s0, job.plan.start, block)
    {
      var (s', ok) := job.visit(s, block);
      s := s';
      if ok { found := found + 1; }
      block := block + 1;
    }
  }

  /** Leaving out blocks whose visit has no effect changes neither the outcome nor the count. */
  lemma {:induction false} FilteredEqualsSerial<S(!new)>(job: Job<S>, s: S, lo: nat, hi: nat)
    requires FilterHarmless(job)
    ensures Apply(job, s, job.plan.Hits(lo, hi)) == Serial(job, s, lo, hi)
    decreases hi
  {
    if lo < hi {
      FilteredEqualsSerial(job, s, lo, hi - 1);
      var hits := job.plan.Hits(lo, hi - 1);
      if job.plan.hit(hi - 1) {
        assert (hits + [hi - 1])[..|hits|] == hits;
      } else {
        assert job.plan.Hits(lo, hi) == hits;
      }
    }
  }

  // ----- the parallel scan -----

  datatype State<S> = State(ring: Ring, rec: S, found: nat)

  datatype Event = Run(thread: Thread) | SpuriousWake(thread: Thread)

  function Init<S>(job: Job<S>, n: nat, s: S): State<S> {
    State(Start(job.plan, n), s, 0)
  }

  predicate AboutToDump(r: Ring) {
    r.writer.Dumping? && r.writer.next < |r.writer.hits|
  }

  function Next<S>(job: Job<S>, st: State<S>, t: Thread): State<S>
    requires |st.ring.slots| == RING_SLOTS && st.ring.Exists(t)
  {
    var ring := Step(job.plan, st.ring, t);
    if t == Writer && AboutToDump(st.ring) then
      var (rec, found) := Visit(job, (st.rec, st.found), st.ring.writer.hits[st.ring.writer.next]);
      State(ring, rec, found)
    else
      st.(ring := ring)
  }

  /** An event whose thread cannot take it changes nothing. */
  function Happen<S>(job: Job<S>, st: State<S>, e: Event): State<S>
    requires |st.ring.slots| == RING_SLOTS
  {
    match e
    case Run(t) => if st.ring.Runnable(t) then Next(job, st, t) else st
    case SpuriousWake(t) => st.(ring := st.ring.(asleep := st.ring.asleep - {t}))
  }

  /** The hits the writer has dumped so far. */
  ghost function Dumped(p: Plan, r: Ring): seq<nat> {
    match r.writer
    case Dumping(hits, h) =>
      p.Hits(p.start, p.Boundary(r.nextWrite)) + if h <= |hits| then hits[..h] else hits
    case _ => p.Hits(p.start, p.Boundary(r.Released()))
  }

  /** All that every reachable state satisfies. */
  ghost predicate Good<S>(job: Job<S>, n: nat, s0: S, st: State<S>) {
    && Inv(job.plan, n, st.ring) && Alert(job.plan, st.ring)
    && (st.rec, st.found) == Apply(job, s0, Dumped(job.plan, st.ring))
  }

  lemma InitGood<S>(job: Job<S>, n: nat, s0: S)
    requires job.plan.perChunk > 0
    ensures Good(job, n, s0, Init(job, n, s0))
  {
    StartInv(job.plan, n);
    assert job.plan.Boundary(0) == job.plan.start;
    assert job.plan.Hits(job.plan.start, job.plan.start) == [];
  }

  lemma {:induction false} HitsSplit(p: Plan, lo: nat, mid: nat, hi: nat)
    requires lo <= mid <= hi
    ensures p.Hits(lo, mid) + p.Hits(mid, hi) == p.Hits(lo, hi)
    decreases hi
  {
    if mid == hi {
      assert p.Hits(mid, hi) == [];
    } else {
      HitsSplit(p, lo, mid, hi - 1);
    }
  }

  lemma BoundaryAscends(p: Plan, c: nat)
    ensures p.start <= p.Boundary(c) <= p.Boundary(c + 1) <= p.Limit()
  {
    BoundaryRange(p, c);
    BoundaryRange(p, c + 1);
  }

  lemma OthersDumpNothing(p: Plan, r: Ring, t: Thread)
    requires |r.slots| == RING_SLOTS && r.Exists(t) && t != Writer
    ensures Step(p, r, t).writer == r.writer && Step(p, r, t).nextWrite == r.nextWrite
  {
  }

  lemma WriterDumpsOne(p: Plan, n: nat, r: Ring)
    requires Inv(p, n, r)
    ensures Dumped(p, WriterStep(r)) ==
            if AboutToDump(r) then Dumped(p, r) + [r.writer.hits[r.writer.next]] else Dumped(p, r)
  {
    if r.writer.Dumping? { DumpingDumpsOne(p, n, r); }
  }

  lemma DumpingDumpsOne(p: Plan, n: nat, r: Ring)
    requires Inv(p, n, r) && r.writer.Dumping?
    ensures Dumped(p, WriterStep(r)) ==
            if AboutToDump(r) then Dumped(p, r) + [r.writer.hits[r.writer.next]] else Dumped(p, r)
  {
    var hits, h := r.writer.hits, r.writer.next;
    if h < |hits| { assert hits[..h + 1] == hits[..h] + [hits[h]]; } else { ChunkDumped(p, n, r); }
  }

  /** Once all hits of a chunk are dumped, the chunk counts as released. */
  lemma ChunkDumped(p: Plan, n: nat, r: Ring)
    requires Inv(p, n, r) && r.writer.Dumping? && r.writer.next == |r.writer.hits|
    ensures Dumped(p, r) == p.Hits(p.start, p.Boundary(r.nextWrite + 1))
  {
    BoundaryAscends(p, r.nextWrite);
    HitsSplit(p, p.start, p.Boundary(r.nextWrite), p.Boundary(r.nextWrite + 1));
    assert r.writer.hits[..r.writer.next] == r.writer.hits;
  }

  lemma NextGood<S>(job: Job<S>, n: nat, s0: S, st: State<S>, t: Thread)
    requires Good(job, n, s0, st) && st.ring.Runnable(t)
    ensures Good(job, n, s0, Next(job, st, t))
  {
    var p, r := job.plan, st.ring;
    StepKeepsInv(p, n, r, t);
    StepKeepsAlert(p, n, r, t);
    if t == Writer {
      WriterDumpsOne(p, n, r);
      if AboutToDump(r) {
        var d, b := Dumped(p, r), r.writer.hits[r.writer.next];
        assert (d + [b])[..|d|] == d;
      }
    } else {
      OthersDumpNothing(p, r, t);
      assert Dumped(p, Step(p, r, t)) == Dumped(p, r);
    }
  }

  lemma HappenGood<S>(job: Job<S>, n: nat, s0: S, st: State<S>, e: Event)
    requires Good(job, n, s0, st)
    ensures Good(job, n, s0, Happen(job, st, e))
  {
    match e
    case Run(t) =>
      if st.ring.Runnable(t) { NextGood(job, n, s0, st, t); }
    case SpuriousWake(t) =>
      var q := st.ring.(asleep := st.ring.asleep - {t});
      InvIgnoresSleep(job.plan, n, st.ring, q.asleep);
      forall u | u in q.asleep ensures RightlyAsleep(job.plan, q, u) {
        assert RightlyAsleep(job.plan, st.ring, u);
      }
      assert Dumped(job.plan, q) == Dumped(job.plan, st.ring);
  }

  /** The states a schedule leads through. */
  ghost predicate IsRun<S>(job: Job<S>, n: nat, s0: S, events: seq<Event>, states: seq<State<S>>) {
    && |states| == |events| + 1 && states[0] == Init(job, n, s0)
    && forall i | 0 <= i < |events| ::
         |states[i].ring.slots| == RING_SLOTS && states[i + 1] == Happen(job, states[i], events[i])
  }

  /** Every sequence of events is a run. */
  lemma {:induction false} RunExists<S>(job: Job<S>, n: nat, s0: S, events: seq<Event>) returns (states: seq<State<S>>)
    requires job.plan.perChunk > 0
    ensures IsRun(job, n, s0, events, states)
  {
    if events == [] {
      states := [Init(job, n, s0)];
    } else {
      var m := |events| - 1;
      states := RunExists(job, n, s0, events[..m]);
      RunsAreGood(job, n, s0, events[..m], states, m);
      states := states + [Happen(job, states[m], events[m])];
    }
  }

  lemma {:induction false} RunsAreGood<S>(job: Job<S>, n: nat, s0: S, events: seq<Event>, states: seq<State<S>>, i: nat)
    requires job.plan.perChunk > 0 && IsRun(job, n, s0, events, states) && i < |states|
    ensures Good(job, n, s0, states[i])
  {
    if i == 0 {
      InitGood(job, n, s0);
    } else {
      RunsAreGood(job, n, s0, events, states, i - 1);
      HappenGood(job, n, s0, states[i - 1], events[i - 1]);
    }
  }

  /** Under every interleaving, with spurious wake-ups, the writer's dump order is the serial order, and
      once it exits recovery state and count are those of the serial scan. */
  lemma ParallelEqualsSerial<S(!new)>(job: Job<S>, n: nat, s0: S, events: seq<Event>, states: seq<State<S>>, i: nat)
    requires job.plan.perChunk > 0 && FilterHarmless(job)
    requires IsRun(job, n, s0, events, states) && i < |states|
    ensures Dumped(job.plan, states[i].ring) <= job.plan.Hits(job.plan.start, job.plan.Limit())
    ensures states[i].ring.writer.WriterExited? ==>
              (states[i].rec, states[i].found) == Serial(job, s0, job.plan.start, job.plan.Limit())
  {
    RunsAreGood(job, n, s0, events, states, i);
    DumpedIsPrefix(job.plan, n, states[i].ring);
    if states[i].ring.writer.WriterExited? { ExitIsSerial(job, n, s0, states[i]); }
  }

  lemma DumpedIsPrefix(p: Plan, n: nat, r: Ring)
    requires Inv(p, n, r)
    ensures Dumped(p, r) <= p.Hits(p.start, p.Limit())
  {
    if r.writer.Dumping? {
      BoundaryAscends(p, r.nextWrite);
      HitsPrefix(p, p.Boundary(r.nextWrite), p.Boundary(r.nextWrite + 1), r.writer.next);
    } else {
      BoundaryRange(p, r.Released());
      HitsSplit(p, p.start, p.Boundary(r.Released()), p.Limit());
    }
  }

  lemma HitsPrefix(p: Plan, a: nat, b: nat, h: nat)
    requires p.start <= a <= b <= p.Limit() && h <= |p.Hits(a, b)|
    ensures p.Hits(p.start, a) + p.Hits(a, b)[..h] <= p.Hits(p.start, p.Limit())
  {
    HitsSplit(p, p.start, a, b);
    HitsSplit(p, p.start, b, p.Limit());
    PrefixGrows(p.Hits(p.start, a), p.Hits(a, b), p.Hits(b, p.Limit()), h);
  }

  lemma PrefixGrows(x: seq<nat>, y: seq<nat>, z: seq<nat>, h: nat)
    requires h <= |y|
    ensures x + y[..h] <= x + y + z
  {
  }

  /** From every reachable state that is not final some thread can run, and any such step lowers what is left. */
  lemma NeverStuck<S>(job: Job<S>, n: nat, s0: S, events: seq<Event>, states: seq<State<S>>, i: nat) returns (t: Thread)
    requires job.plan.perChunk > 0 && n >= 1
    requires IsRun(job, n, s0, events, states) && i < |states| && !states[i].ring.Final()
    ensures states[i].ring.Runnable(t) && |states[i].ring.slots| == RING_SLOTS
    ensures forall u | states[i].ring.Runnable(u) ::
              Left(job.plan, states[i].ring).Exceeds(Left(job.plan, Next(job, states[i], u).ring))
  {
    RunsAreGood(job, n, s0, events, states, i);
    var p, r := job.plan, states[i].ring;
    t := SomeoneRuns(p, n, r);
    SleepersAreThreads(p, r);
    forall u | r.Runnable(u) ensures Left(p, r).Exceeds(Left(p, Next(job, states[i], u).ring)) {
      StepFalls(p, n, r, u);
    }
  }

  // ----- the ring's discipline -----

  predicate Follows(a: Phase, b: Phase) {
    || a == b
    || (a == Empty && b == Filled) || (a == Filled && b == Processing)
    || (a == Processing && b == Done) || (a == Done && b == Empty)
  }

  /** Each slot holds a chunk congruent to its index, at most 16 chunks are between reader and writer,
      no chunk has two claimants, and no slot's buffer two users. */
  lemma RingDiscipline<S>(job: Job<S>, n: nat, s0: S, events: seq<Event>, states: seq<State<S>>, i: nat)
    requires job.plan.perChunk > 0 && IsRun(job, n, s0, events, states) && i < |states|
    ensures var r := states[i].ring;
      && |r.slots| == 16
      && r.Released() <= r.produced <= r.Released() + 16
      && (r.produced <= r.nextWrite + 16 || (r.writer.Advancing? && r.produced == r.nextWrite + 17))
      && (forall k | 0 <= k < 16 && r.slots[k].phase != Empty ::
            r.slots[k].chunk % 16 == k && r.Released() <= r.slots[k].chunk < r.produced)
      && (forall v, w, c: nat | r.Holds(v, c) && r.Holds(w, c) :: v == w)
      && (forall w | 0 <= w < |r.workers| && r.workers[w].Scanning? ::
            r.slots[SlotOf(r.workers[w].chunk)].phase == Processing)
      && (forall v, w | 0 <= v < |r.workers| && 0 <= w < |r.workers| &&
                        r.workers[v].Scanning? && r.workers[w].Scanning? &&
                        SlotOf(r.workers[v].chunk) == SlotOf(r.workers[w].chunk) :: v == w)
  {
    RunsAreGood(job, n, s0, events, states, i);
    var p, r := job.plan, states[i].ring;
    forall k | 0 <= k < RING_SLOTS && r.slots[k].phase != Empty
      ensures r.slots[k].chunk % RING_SLOTS == k && r.Released() <= r.slots[k].chunk < r.produced
    {
      assert Occupied(p, r, k);
    }
    forall w | 0 <= w < |r.workers| && r.workers[w].Scanning?
      ensures r.slots[SlotOf(r.workers[w].chunk)].phase == Processing &&
              r.slots[SlotOf(r.workers[w].chunk)].chunk == r.workers[w].chunk
    {
      assert WorkerOk(p, r, r.workers[w]);
    }
  }

  /** Only a claim gives a worker a chunk, and it is the next one. */
  ghost predicate Hands(r: Ring, q: Ring) {
    && r.nextClaim <= q.nextClaim
    && forall w: nat, c: nat | q.Holds(w, c) :: r.Holds(w, c) || c == r.nextClaim
  }

  lemma StepHands(p: Plan, r: Ring, t: Thread)
    requires |r.slots| == RING_SLOTS && r.Runnable(t)
    ensures Hands(r, Step(p, r, t))
  {
  }

  lemma EventHands<S>(job: Job<S>, st: State<S>, e: Event)
    requires |st.ring.slots| == RING_SLOTS
    ensures Hands(st.ring, Happen(job, st, e).ring)
  {
    match e
    case Run(t) => if st.ring.Runnable(t) { StepHands(job.plan, st.ring, t); }
    case SpuriousWake(_) =>
  }

  /** Then a chunk claimed by `v` is never again given to anyone. */
  lemma {:induction false} NeverAgain(rings: seq<Ring>, i: nat, j: nat, v: nat, c: nat)
    requires forall k | 0 <= k < |rings| - 1 :: Hands(rings[k], rings[k + 1])
    requires i <= j < |rings| && c < rings[i].nextClaim && forall w: nat | rings[i].Holds(w, c) :: w == v
    ensures c < rings[j].nextClaim && forall w: nat | rings[j].Holds(w, c) :: w == v
    decreases j
  {
    if i < j {
      NeverAgain(rings, i, j - 1, v, c);
      assert Hands(rings[j - 1], rings[j - 1 + 1]);
    }
  }

  lemma HeldOnce<S>(job: Job<S>, n: nat, s0: S, events: seq<Event>, states: seq<State<S>>, i: nat, v: nat, c: nat)
    requires job.plan.perChunk > 0 && IsRun(job, n, s0, events, states) && i < |states| && states[i].ring.Holds(v, c)
    ensures c < states[i].ring.nextClaim && forall w: nat | states[i].ring.Holds(w, c) :: w == v
  {
    RunsAreGood(job, n, s0, events, states, i);
    assert WorkerOk(job.plan, states[i].ring, states[i].ring.workers[v]);
  }

  /** Over a whole run, no chunk is ever in the hands of two workers, at the same time or one after the other. */
  lemma OneClaimant<S>(job: Job<S>, n: nat, s0: S, events: seq<Event>, states: seq<State<S>>,
                       i: nat, j: nat, v: nat, w: nat, c: nat)
    requires job.plan.perChunk > 0 && IsRun(job, n, s0, events, states) && i <= j < |states|
    requires states[i].ring.Holds(v, c) && states[j].ring.Holds(w, c)
    ensures v == w
  {
    var rings := seq(|states|, k requires 0 <= k < |states| => states[k].ring);
    forall k | 0 <= k < |rings| - 1 ensures Hands(rings[k], rings[k + 1]) {
      EventHands(job, states[k], events[k]);
    }
    HeldOnce(job, n, s0, events, states, i, v, c);
    NeverAgain(rings, i, j, v, c);
  }

  ghost predicate InCycle(r: Ring, q: Ring) {
    && |r.slots| == RING_SLOTS == |q.slots|
    && (forall k | 0 <= k < RING_SLOTS :: Follows(r.slots[k].phase, q.slots[k].phase))
    && r.nextWrite <= q.nextWrite <= r.nextWrite + 1
    && r.produced <= q.produced <= r.produced + 1
  }

  lemma ReaderCycles(p: Plan, r: Ring)
    requires |r.slots| == RING_SLOTS
    ensures InCycle(r, ReaderStep(p, r))
  {
  }

  lemma WorkerCycles(p: Plan, n: nat, r: Ring, w: nat)
    requires Inv(p, n, r) && w < n
    ensures InCycle(r, WorkerStep(p, r, w))
  {
    assert WorkerOk(p, r, r.workers[w]);
  }

  lemma WriterCycles(p: Plan, n: nat, r: Ring)
    requires Inv(p, n, r)
    ensures InCycle(r, WriterStep(r))
  {
  }

  /** Slots only move along EMPTY, FILLED, PROCESSING, DONE, EMPTY, and neither reader nor writer skips a chunk. */
  lemma SlotsCycle<S>(job: Job<S>, n: nat, s0: S, events: seq<Event>, states: seq<State<S>>, i: nat)
    requires job.plan.perChunk > 0 && IsRun(job, n, s0, events, states) && i < |events|
    ensures InCycle(states[i].ring, states[i + 1].ring)
  {
    RunsAreGood(job, n, s0, events, states, i);
    var p, r := job.plan, states[i].ring;
    match events[i]
    case SpuriousWake(_) =>
    case Run(Reader) => ReaderCycles(p, r);
    case Run(Worker(w)) => if w < n { WorkerCycles(p, n, r, w); }
    case Run(Writer) => WriterCycles(p, n, r);
  }

  // ----- how far the reader gets ahead of the writer's counter -----

  /** The ring when the reader has filled `c` slots and nobody else has moved, for chunks of one block. */
  function AfterFills(c: nat): Ring {
    Ring(seq(RING_SLOTS, (i: nat) => if i < c then Slot(Filled, i, i, 1, []) else Slot(Empty, 0, 0, 0, [])),
         c, c, Filling, 0, [Claiming], false, -1, 0, Idle, {})
  }

  /** Seventeen blocks without a hit, in chunks of one. */
  const SEVENTEEN: Plan := Plan(0, RING_SLOTS + 1, 1, (b: nat) => false)

  lemma FillsNext(c: nat)
    requires c < RING_SLOTS
    ensures ReaderStep(SEVENTEEN, AfterFills(c)) == AfterFills(c + 1)
  {
    assert SlotOf(c) == c;
    assert AfterFills(c).slots[c := Slot(Filled, c, c, 1, [])] == AfterFills(c + 1).slots;
  }

  /** What the ring holds while the first chunk is worked on. */
  function Busy(s: Slot, claim: nat, worker: WorkerPc, writer: WriterPc): Ring {
    var r := AfterFills(RING_SLOTS);
    r.(slots := r.slots[0 := s], nextClaim := claim, workers := [worker], writer := writer)
  }

  lemma FirstChunkIsWorked()
    ensures var p, s := SEVENTEEN, Slot(Filled, 0, 0, 1, []); var processing := s.(phase := Processing);
      && AfterFills(RING_SLOTS) == Busy(s, 0, Claiming, Idle)
      && WorkerStep(p, Busy(s, 0, Claiming, Idle), 0) == Busy(s, 1, Waiting(0), Idle)
      && WorkerStep(p, Busy(s, 1, Waiting(0), Idle), 0) == Busy(processing, 1, Scanning(0, 0), Idle)
      && WorkerStep(p, Busy(processing, 1, Scanning(0, 0), Idle), 0) == Busy(processing, 1, Scanning(0, 1), Idle)
      && WorkerStep(p, Busy(processing, 1, Scanning(0, 1), Idle), 0) == Busy(s.(phase := Done), 1, Claiming, Idle)
  {
    var s := Slot(Filled, 0, 0, 1, []);
    assert AfterFills(RING_SLOTS).slots[0 := s] == AfterFills(RING_SLOTS).slots;
    assert [Claiming][0 := Waiting(0)] == [Waiting(0)];
    assert [Waiting(0)][0 := Scanning(0, 0)] == [Scanning(0, 0)];
    assert [Scanning(0, 0)][0 := Scanning(0, 1)] == [Scanning(0, 1)];
    assert [Scanning(0, 1)][0 := Claiming] == [Claiming];
  }

  lemma FirstChunkIsWritten()
    ensures var s := Slot(Done, 0, 0, 1, []); var empty := s.(phase := Empty);
      && WriterStep(Busy(s, 1, Claiming, Idle)) == Busy(s, 1, Claiming, Checking)
      && WriterStep(Busy(s, 1, Claiming, Checking)) == Busy(s, 1, Claiming, Dumping([], 0))
      && WriterStep(Busy(s, 1, Claiming, Dumping([], 0))) == Busy(empty, 1, Claiming, Advancing)
      && var r := ReaderStep(SEVENTEEN, Busy(empty, 1, Claiming, Advancing));
         r.produced == RING_SLOTS + 1 && r.nextWrite == 0
  {
  }

  /** One thread's step in a run. */
  lemma RingAfter<S>(job: Job<S>, n: nat, s0: S, events: seq<Event>, states: seq<State<S>>, i: nat, t: Thread)
    requires IsRun(job, n, s0, events, states) && i < |events| && events[i] == Run(t) && states[i].ring.Runnable(t)
    ensures states[i + 1].ring == Step(job.plan, states[i].ring, t)
  {
  }

  lemma {:induction false} RingFills<S>(job: Job<S>, s0: S, events: seq<Event>, states: seq<State<S>>, c: nat)
    requires job.plan == SEVENTEEN && IsRun(job, 1, s0, events, states) && c <= RING_SLOTS <= |events|
    requires forall i | 0 <= i < RING_SLOTS :: events[i] == Run(Reader)
    ensures states[c].ring == AfterFills(c)
  {
    if c == 0 {
      assert Start(SEVENTEEN, 1).slots == AfterFills(0).slots && Start(SEVENTEEN, 1).workers == [Claiming];
    } else {
      RingFills(job, s0, events, states, c - 1);
      FillsNext(c - 1);
      RingAfter(job, 1, s0, events, states, c - 1, Reader);
    }
  }

  /** Sixteen fills, the first chunk worked and written, its slot recycled, and one more fill before the counter moves:
      the reader is seventeen chunks ahead of next_chunk_to_write. */
  lemma SeventeenAhead<S>(visit: (S, nat) -> (S, bool), s0: S) returns (events: seq<Event>, states: seq<State<S>>)
    ensures var job := Job(SEVENTEEN, visit); IsRun(job, 1, s0, events, states)
    ensures var r := states[|states| - 1].ring; r.produced == r.nextWrite + 17
  {
    var job, w := Job(SEVENTEEN, visit), Run(Worker(0));
    var fills := seq(RING_SLOTS, (i: nat) => Run(Reader));
    events := fills + [w, w, w, w, Run(Writer), Run(Writer), Run(Writer), Run(Reader)];
    states := RunExists(job, 1, s0, events);
    RingFills(job, s0, events, states, RING_SLOTS);
    assert forall i | 16 <= i < 20 :: events[i] == w;
    assert events[20] == events[21] == events[22] == Run(Writer) && events[23] == Run(Reader);
    WorkerTurns(job, s0, events, states);
    WriterTurns(job, s0, events, states);
  }

  lemma WorkerTurns<S>(job: Job<S>, s0: S, events: seq<Event>, states: seq<State<S>>)
    requires job.plan == SEVENTEEN && IsRun(job, 1, s0, events, states) && |events| == 24
    requires (forall i | 16 <= i < 20 :: events[i] == Run(Worker(0))) && states[16].ring == AfterFills(RING_SLOTS)
    ensures states[20].ring == Busy(Slot(Done, 0, 0, 1, []), 1, Claiming, Idle)
  {
    FirstChunkIsWorked();
    RingAfter(job, 1, s0, events, states, 16, Worker(0));
    RingAfter(job, 1, s0, events, states, 17, Worker(0));
    RingAfter(job, 1, s0, events, states, 18, Worker(0));
    RingAfter(job, 1, s0, events, states, 19, Worker(0));
  }

  lemma WriterTurns<S>(job: Job<S>, s0: S, events: seq<Event>, states: seq<State<S>>)
    requires job.plan == SEVENTEEN && IsRun(job, 1, s0, events, states) && |events| == 24
    requires events[20] == events[21] == events[22] == Run(Writer) && events[23] == Run(Reader)
    requires states[20].ring == Busy(Slot(Done, 0, 0, 1, []), 1, Claiming, Idle)
    ensures states[24].ring.produced == RING_SLOTS + 1 && states[24].ring.nextWrite == 0
  {
    FirstChunkIsWritten();
    RingAfter(job, 1, s0, events, states, 20, Writer);
    RingAfter(job, 1, s0, events, states, 21, Writer);
    RingAfter(job, 1, s0, events, states, 22, Writer);
    RingAfter(job, 1, s0, events, states, 23, Reader);
  }

  // ----- running it -----

  lemma StepIsProgress<S>(job: Job<S>, n: nat, s0: S, st: State<S>, t: Thread)
    requires Good(job, n, s0, st) && st.ring.Runnable(t)
    ensures Good(job, n, s0, Next(job, st, t))
    ensures Left(job.plan, st.ring).Exceeds(Left(job.plan, Next(job, st, t).ring))
  {
    NextGood(job, n, s0, st, t);
    SleepersAreThreads(job.plan, st.ring);
    StepFalls(job.plan, n, st.ring, t);
  }

  lemma ExitIsSerial<S(!new)>(job: Job<S>, n: nat, s0: S, st: State<S>)
    requires FilterHarmless(job) && Good(job, n, s0, st) && st.ring.writer.WriterExited?
    ensures (st.rec, st.found) == Serial(job, s0, job.plan.start, job.plan.Limit())
  {
    var p := job.plan;
    BoundaryRange(p, st.ring.nextWrite);
    assert p.Boundary(st.ring.nextWrite) == p.Limit();
    FilteredEqualsSerial(job, s0, p.start, p.Limit());
  }

  /** Any scheduler that always picks some runnable thread brings every thread to its exit, with the serial result. */
  method ScanInParallel<S(!new)>(job: Job<S>, wanted: int, s0: S) returns (s: S, found: nat)
    requires job.plan.perChunk > 0 && FilterHarmless(job)
    ensures (s, found) == Serial(job, s0, job.plan.start, job.plan.Limit())
  {
    var n: nat := if wanted < 1 then 1 else if wanted > MAX_WORKERS then MAX_WORKERS else wanted;
    var st := Init(job, n, s0);
    InitGood(job, n, s0);
    ghost var left := Left(job.plan, st.ring);
    while !st.ring.Final()
      invariant Good(job, n, s0, st)
      invariant left == Left(job.plan, st.ring)
      decreases left.unread, left.announce, left.filled, left.unwritten, left.workers, left.writer, left.awake
    {
      ghost var t0 := SomeoneRuns(job.plan, n, st.ring);
      Listed(n, t0);
      var t: Thread :| t in AllThreads(n) && st.ring.Runnable(t);
      StepIsProgress(job, n, s0, st, t);
      st := Next(job, st, t);
      left := Left(job.plan, st.ring);
    }
    ExitIsSerial(job, n, s0, st);
    s, found := st.rec, st.found;
  }
}
