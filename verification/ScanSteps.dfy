/** How long a run of the parallel scan can be (improved/parallel_scan.c): a bound on the steps the threads take,
    whatever the schedule and however many spurious wake-ups there are. */
module ScanSteps {
  import opened ScanRing
  import opened ScanLiveness
  import opened ParallelScan
  import opened Arithmetic

  // ----- the measure as one number -----

  /** One digit more, in base `base`. */
  function Pack(high: nat, base: nat, digit: nat): nat {
    Product(high, base);
    high * base + digit
  }

  lemma PackFalls(h: nat, h': nat, base: nat, d: nat, d': nat)
    requires h > h' && d' < base
    ensures Pack(h, base, d) > Pack(h', base, d')
  {
    MulStep(h', h, base);
  }

  /** How large the ranks of `n` workers together can be. */
  function WorkersMost(p: Plan, n: nat): nat {
    Product(n, p.perChunk + 3);
    n * (p.perChunk + 3)
  }

  /** Bounds for all components but the first. */
  predicate Fits(p: Plan, n: nat, m: Measure) {
    && m.announce <= RING_SLOTS + 2 && m.filled <= RING_SLOTS && m.unwritten <= RING_SLOTS + 1
    && m.workers <= WorkersMost(p, n) && m.writer <= p.perChunk + 4 && m.awake <= n + 2
  }

  function ReaderWeight(m: Measure): nat {
    Pack(Pack(m.unread, RING_SLOTS + 3, m.announce), RING_SLOTS + 1, m.filled)
  }

  function WorkWeight(p: Plan, n: nat, m: Measure): nat {
    Pack(Pack(Pack(ReaderWeight(m), RING_SLOTS + 2, m.unwritten), WorkersMost(p, n) + 1, m.workers),
         p.perChunk + 5, m.writer)
  }

  /** The components as the digits of one number. */
  function Weight(p: Plan, n: nat, m: Measure): nat {
    Pack(WorkWeight(p, n, m), n + 3, m.awake)
  }

  lemma ReaderWeightFalls(p: Plan, n: nat, m: Measure, m': Measure)
    requires m.Exceeds(m') && Fits(p, n, m')
    ensures ReaderWeight(m) > ReaderWeight(m') ||
            (ReaderWeight(m) == ReaderWeight(m') && m.unread == m'.unread && m.announce == m'.announce &&
             m.filled == m'.filled)
  {
    if m.unread > m'.unread { PackFalls(m.unread, m'.unread, RING_SLOTS + 3, m.announce, m'.announce); }
    var h, h' := Pack(m.unread, RING_SLOTS + 3, m.announce), Pack(m'.unread, RING_SLOTS + 3, m'.announce);
    if h > h' { PackFalls(h, h', RING_SLOTS + 1, m.filled, m'.filled); }
  }

  lemma WorkWeightFalls(p: Plan, n: nat, m: Measure, m': Measure)
    requires m.Exceeds(m') && Fits(p, n, m')
    ensures WorkWeight(p, n, m) > WorkWeight(p, n, m') ||
            (WorkWeight(p, n, m) == WorkWeight(p, n, m') && m.awake > m'.awake)
  {
    ReaderWeightFalls(p, n, m, m');
    var r, r' := ReaderWeight(m), ReaderWeight(m');
    if r > r' { PackFalls(r, r', RING_SLOTS + 2, m.unwritten, m'.unwritten); }
    var u, u' := Pack(r, RING_SLOTS + 2, m.unwritten), Pack(r', RING_SLOTS + 2, m'.unwritten);
    if u > u' { PackFalls(u, u', WorkersMost(p, n) + 1, m.workers, m'.workers); }
    var k, k' := Pack(u, WorkersMost(p, n) + 1, m.workers), Pack(u', WorkersMost(p, n) + 1, m'.workers);
    if k > k' { PackFalls(k, k', p.perChunk + 5, m.writer, m'.writer); }
  }

  /** What lowers the measure lowers the number. */
  lemma WeightFalls(p: Plan, n: nat, m: Measure, m': Measure)
    requires m.Exceeds(m') && Fits(p, n, m')
    ensures Weight(p, n, m) > Weight(p, n, m')
  {
    WorkWeightFalls(p, n, m, m');
    if WorkWeight(p, n, m) > WorkWeight(p, n, m') {
      PackFalls(WorkWeight(p, n, m), WorkWeight(p, n, m'), n + 3, m.awake, m'.awake);
    }
  }

  // ----- its digits -----

  lemma {:induction false} SumBounded<T>(s: seq<T>, f: T -> nat, most: nat)
    requires forall i | 0 <= i < |s| :: f(s[i]) <= most
    ensures Sum(s, f) <= |s| * most
  {
    if s != [] {
      SumBounded(s[..|s| - 1], f, most);
      TimesNext(|s| - 1, most);
    }
  }

  lemma WriterFits(p: Plan, n: nat, r: Ring)
    requires Inv(p, n, r)
    ensures WriterRank(p, r.writer) <= p.perChunk + 4
  {
    if r.writer.Dumping? {
      var lo, hi := p.Boundary(r.nextWrite), p.Boundary(r.nextWrite + 1);
      BoundaryAscends(p, r.nextWrite);
      HitsFit(p, lo, hi);
      ChunkFits(p, r.nextWrite);
    }
  }

  lemma LeftFits(p: Plan, n: nat, r: Ring)
    requires Inv(p, n, r)
    ensures Fits(p, n, Left(p, r))
  {
    SumBounded(r.slots, IsFilled, 1);
    SumBounded(r.workers, WorkerRank(p), p.perChunk + 3);
    WriterFits(p, n, r);
  }

  /** A wake-up raises nothing but the number of threads awake, and that by at most one. */
  lemma WakeRaises(p: Plan, n: nat, r: Ring, t: Thread)
    ensures var m, m' := Left(p, r), Left(p, r.(asleep := r.asleep - {t}));
      && m' == m.(awake := m'.awake) && m.awake <= m'.awake <= m.awake + 1
      && Weight(p, n, m') <= Weight(p, n, m) + 1
  {
    assert |r.asleep - {t}| == |r.asleep| - if t in r.asleep then 1 else 0;
  }

  // ----- runs -----

  /** 1 if event `k` was a step of a thread that could run. */
  ghost function StepAt<S>(events: seq<Event>, states: seq<State<S>>, k: nat): nat
    requires k < |events| && |states| == |events| + 1
  {
    if events[k].Run? && states[k].ring.Runnable(events[k].thread) then 1 else 0
  }

  /** 1 if it was a spurious wake-up. */
  ghost function WakeAt(events: seq<Event>, k: nat): nat
    requires k < |events|
  {
    if events[k].SpuriousWake? then 1 else 0
  }

  /** How many steps there were among the first `i` events. */
  ghost function Steps<S>(events: seq<Event>, states: seq<State<S>>, i: nat): nat
    requires i <= |events| && |states| == |events| + 1
  {
    if i == 0 then 0 else Steps(events, states, i - 1) + StepAt(events, states, i - 1)
  }

  /** How many wake-ups there were among them. */
  ghost function Wakes(events: seq<Event>, i: nat): nat
    requires i <= |events|
  {
    if i == 0 then 0 else Wakes(events, i - 1) + WakeAt(events, i - 1)
  }

  ghost function WeightOf<S>(job: Job<S>, n: nat, st: State<S>): nat {
    Weight(job.plan, n, Left(job.plan, st.ring))
  }

  lemma EventWeight<S>(job: Job<S>, n: nat, s0: S, st: State<S>, e: Event)
    requires Good(job, n, s0, st)
    ensures var w, w' := WeightOf(job, n, st), WeightOf(job, n, Happen(job, st, e));
      match e
      case Run(t) => if st.ring.Runnable(t) then w' < w else w' == w
      case SpuriousWake(_) => w' <= w + 1
  {
    var p := job.plan;
    match e
    case Run(t) =>
      if st.ring.Runnable(t) {
        StepIsProgress(job, n, s0, st, t);
        LeftFits(p, n, Next(job, st, t).ring);
        WeightFalls(p, n, Left(p, st.ring), Left(p, Next(job, st, t).ring));
      }
    case SpuriousWake(t) => WakeRaises(p, n, st.ring, t);
  }

  lemma StepWeight<S>(job: Job<S>, n: nat, s0: S, events: seq<Event>, states: seq<State<S>>, k: nat)
    requires job.plan.perChunk > 0 && IsRun(job, n, s0, events, states) && k < |events|
    ensures WeightOf(job, n, states[k + 1]) + StepAt(events, states, k) <=
            WeightOf(job, n, states[k]) + WakeAt(events, k)
  {
    RunsAreGood(job, n, s0, events, states, k);
    EventWeight(job, n, s0, states[k], events[k]);
  }

  /** What every step takes away and only wake-ups add to, one at a time, bounds the steps. */
  lemma {:induction false} StepsSoFar<S>(events: seq<Event>, states: seq<State<S>>, weights: seq<nat>, i: nat)
    requires |states| == |weights| == |events| + 1 && i <= |events|
    requires forall k | 0 <= k < |events| ::
               weights[k + 1] + StepAt(events, states, k) <= weights[k] + WakeAt(events, k)
    ensures Steps(events, states, i) + weights[i] <= weights[0] + Wakes(events, i)
  {
    if i > 0 { StepsSoFar(events, states, weights, i - 1); }
  }

  /** A number of steps that depends on the range, the chunk size and the number of workers only. */
  function MostSteps(p: Plan, n: nat): nat {
    Weight(p, n, Left(p, Start(p, n)))
  }

  /** Under every schedule the threads take no more than so many steps and one for every spurious wake-up: a run goes
      on for ever only if it is woken for ever. */
  lemma StepsBounded<S>(job: Job<S>, n: nat, s0: S, events: seq<Event>, states: seq<State<S>>)
    requires job.plan.perChunk > 0 && IsRun(job, n, s0, events, states)
    ensures Steps(events, states, |events|) <= MostSteps(job.plan, n) + Wakes(events, |events|)
  {
    var weights := seq(|states|, i requires 0 <= i < |states| => WeightOf(job, n, states[i]));
    forall k | 0 <= k < |events|
      ensures weights[k + 1] + StepAt(events, states, k) <= weights[k] + WakeAt(events, k)
    {
      StepWeight(job, n, s0, events, states, k);
    }
    StepsSoFar(events, states, weights, |events|);
  }
}
