/** The chunk ring of the parallel extent-header scan (improved/parallel_scan.c): one reader,
    any number of workers and one writer, as steps over a shared state.

    Every lock region of the C code is one step.  Condition variables are explicit: a thread
    whose predicate fails joins `asleep`, only a broadcast on its slot (or a spurious wake-up)
    takes it out again, so a lost wake-up would be visible as a deadlock. */
module ScanRing {

  const RING_SLOTS: nat := 16

  /** The block range, the chunk length in blocks and the workers' test of one block. */
  datatype Plan = Plan(start: nat, end: nat, perChunk: nat, hit: nat -> bool)
  {
    function Limit(): nat {
      if start <= end then end else start
    }

    /** First block after the first `c` chunks. */
    function Boundary(c: nat): nat {
      if c == 0 then start
      else
        var b := Boundary(c - 1) + perChunk;
        if b <= Limit() then b else Limit()
    }

    /** The blocks of [lo, hi) that pass the workers' test, ascending. */
    function Hits(lo: nat, hi: nat): seq<nat>
      decreases hi
    {
      if hi <= lo then []
      else Hits(lo, hi - 1) + if hit(hi - 1) then [hi - 1] else []
    }
  }

  datatype Phase = Empty | Filled | Processing | Done

  datatype Slot = Slot(phase: Phase, chunk: nat, first: nat, count: nat, hits: seq<nat>)

  datatype ReaderPc = Filling | Announcing(slot: nat) | ReaderExited

  datatype WorkerPc = Claiming | Waiting(chunk: nat) | Scanning(chunk: nat, next: nat) | WorkerExited
  {
    predicate Holding() { Waiting? || Scanning? }
  }

  datatype WriterPc = Idle | Checking | Dumping(hits: seq<nat>, next: nat) | Advancing | WriterExited

  datatype Thread = Reader | Worker(id: nat) | Writer

  datatype Ring = Ring(
    slots: seq<Slot>,
    cur: nat,
    produced: nat,
    reader: ReaderPc,
    nextClaim: nat,
    workers: seq<WorkerPc>,
    readerDone: bool,
    total: int,
    nextWrite: nat,
    writer: WriterPc,
    asleep: set<Thread>)
  {
    predicate Exited(t: Thread) {
      match t
      case Reader => reader.ReaderExited?
      case Worker(w) => w < |workers| && workers[w].WorkerExited?
      case Writer => writer.WriterExited?
    }

    predicate Exists(t: Thread) {
      t.Worker? ==> t.id < |workers|
    }

    predicate Runnable(t: Thread) {
      Exists(t) && t !in asleep && !Exited(t)
    }

    predicate Final() {
      reader.ReaderExited? && writer.WriterExited? &&
      forall w | 0 <= w < |workers| :: workers[w].WorkerExited?
    }

    /** Chunks whose slot the writer has recycled. */
    function Released(): nat {
      nextWrite + if writer.Advancing? then 1 else 0
    }

    predicate Holds(w: nat, c: nat) {
      w < |workers| && workers[w].Holding() && workers[w].chunk == c
    }
  }

  function SlotOf(c: nat): (k: nat)
    ensures k < RING_SLOTS
  {
    c % RING_SLOTS
  }

  /** The slot whose condition variable a waiting thread sleeps on. */
  function WaitSlot(r: Ring, t: Thread): nat {
    match t
    case Reader => SlotOf(r.produced)
    case Worker(w) => if w < |r.workers| && r.workers[w].Waiting? then SlotOf(r.workers[w].chunk) else 0
    case Writer => SlotOf(r.nextWrite)
  }

  function Broadcast(r: Ring, k: nat): Ring {
    r.(asleep := set t | t in r.asleep && WaitSlot(r, t) != k)
  }

  function Start(p: Plan, n: nat): Ring {
    Ring(seq(RING_SLOTS, i => Slot(Empty, 0, 0, 0, [])), p.start, 0, Filling, 0,
         seq(n, i => Claiming), false, -1, 0, Idle, {})
  }

  // ----- the threads -----

  /** Lines 141-156: read the next chunk into its free slot. */
  function Fill(p: Plan, r: Ring): Ring
    requires |r.slots| == RING_SLOTS && r.cur < p.end
  {
    var n := if r.cur + p.perChunk > p.end then p.end - r.cur else p.perChunk;
    r.(slots := r.slots[SlotOf(r.produced) := Slot(Filled, r.produced, r.cur, n, [])],
       cur := r.cur + n, produced := r.produced + 1)
  }

  function ReaderStep(p: Plan, r: Ring): Ring
    requires |r.slots| == RING_SLOTS
  {
    match r.reader
    case Filling =>
      if r.cur < p.end then
        var k := SlotOf(r.produced);
        if r.slots[k].phase == Empty then Broadcast(Fill(p, r), k)
        else r.(asleep := r.asleep + {Reader})
      else
        r.(readerDone := true, total := r.produced, reader := Announcing(0))
    case Announcing(i) =>
      if i < RING_SLOTS then Broadcast(r, i).(reader := Announcing(i + 1))
      else r.(reader := ReaderExited)
    case ReaderExited => r
  }

  function SetWorker(r: Ring, w: nat, pc: WorkerPc): Ring
    requires w < |r.workers|
  {
    r.(workers := r.workers[w := pc])
  }

  function SetSlot(r: Ring, k: nat, s: Slot): Ring
    requires k < |r.slots|
  {
    r.(slots := r.slots[k := s])
  }

  /** Lines 189-204: claim the next index, produced or not. */
  function Claim(r: Ring, w: nat): Ring
    requires w < |r.workers|
  {
    SetWorker(r, w, Waiting(r.nextClaim)).(nextClaim := r.nextClaim + 1)
  }

  /** Lines 223-233, one block. */
  function ScanBlock(p: Plan, s: Slot, b: nat): Slot {
    if p.hit(s.first + b) then s.(hits := s.hits + [s.first + b]) else s
  }

  function WorkerStep(p: Plan, r: Ring, w: nat): Ring
    requires |r.slots| == RING_SLOTS && w < |r.workers|
  {
    match r.workers[w]
    case Claiming =>
      if r.readerDone && r.nextClaim >= r.total then SetWorker(r, w, WorkerExited)
      else Claim(r, w)
    case Waiting(c) =>
      var k := SlotOf(c);
      var s := r.slots[k];
      if s.phase == Filled && s.chunk == c then
        SetWorker(SetSlot(r, k, s.(phase := Processing)), w, Scanning(c, 0))
      else if r.readerDone && c >= r.total then SetWorker(r, w, WorkerExited)
      else r.(asleep := r.asleep + {Worker(w)})
    case Scanning(c, b) =>
      var k := SlotOf(c);
      var s := r.slots[k];
      if b < s.count then SetWorker(SetSlot(r, k, ScanBlock(p, s, b)), w, Scanning(c, b + 1))
      else Broadcast(SetWorker(SetSlot(r, k, s.(phase := Done)), w, Claiming), k)
    case WorkerExited => r
  }

  function WriterStep(r: Ring): Ring
    requires |r.slots| == RING_SLOTS
  {
    var k := SlotOf(r.nextWrite);
    var s := r.slots[k];
    match r.writer
    case Idle =>
      r.(writer := if r.readerDone && r.nextWrite >= r.total then WriterExited else Checking)
    case Checking =>
      if s.phase == Done && s.chunk == r.nextWrite then
        SetSlot(r, k, s.(hits := [])).(writer := Dumping(s.hits, 0))
      else if r.readerDone && r.nextWrite >= r.total then r.(writer := WriterExited)
      else r.(asleep := r.asleep + {Writer})
    case Dumping(hits, h) =>
      if h < |hits| then r.(writer := Dumping(hits, h + 1))
      else Broadcast(SetSlot(r, k, s.(phase := Empty)).(writer := Advancing), k)
    case Advancing => r.(nextWrite := r.nextWrite + 1, writer := Idle)
    case WriterExited => r
  }

  function Step(p: Plan, r: Ring, t: Thread): Ring
    requires |r.slots| == RING_SLOTS && r.Exists(t)
  {
    match t
    case Reader => ReaderStep(p, r)
    case Worker(w) => WorkerStep(p, r, w)
    case Writer => WriterStep(r)
  }

  // ----- the invariant -----

  ghost predicate ReaderInv(p: Plan, r: Ring) {
    && r.cur == p.Boundary(r.produced)
    && (r.readerDone <==> !r.reader.Filling?)
    && (r.readerDone ==> r.total == r.produced && p.Limit() <= r.cur)
    && (r.reader.Announcing? ==> r.reader.slot <= RING_SLOTS)
  }

  ghost predicate WindowInv(r: Ring) {
    r.Released() <= r.nextClaim && r.Released() <= r.produced <= r.Released() + RING_SLOTS
  }

  /** A non-empty slot holds a chunk of the window, in its own place. */
  ghost predicate SlotInv(p: Plan, r: Ring)
    requires |r.slots| == RING_SLOTS
  {
    forall k | 0 <= k < RING_SLOTS && r.slots[k].phase != Empty :: Occupied(p, r, k)
  }

  ghost predicate Occupied(p: Plan, r: Ring, k: nat)
    requires k < |r.slots|
  {
    var s := r.slots[k];
    && r.Released() <= s.chunk < r.produced
    && SlotOf(s.chunk) == k
    && s.first == p.Boundary(s.chunk)
    && s.first + s.count == p.Boundary(s.chunk + 1)
    && (s.phase == Filled || s.chunk < r.nextClaim)
  }

  /** Every chunk of the window sits in its slot. */
  ghost predicate WindowFull(r: Ring)
    requires |r.slots| == RING_SLOTS
  {
    forall c: nat | r.Released() <= c < r.produced ::
      r.slots[SlotOf(c)].phase != Empty && r.slots[SlotOf(c)].chunk == c
  }

  ghost predicate WorkerOk(p: Plan, r: Ring, pc: WorkerPc)
    requires |r.slots| == RING_SLOTS
  {
    match pc
    case Claiming => true
    case Waiting(c) =>
      r.Released() <= c < r.nextClaim && (c < r.produced ==> r.slots[SlotOf(c)].phase == Filled)
    case Scanning(c, b) =>
      var s := r.slots[SlotOf(c)];
      && r.Released() <= c < r.nextClaim && c < r.produced
      && s.phase == Processing && b <= s.count && s.hits == p.Hits(s.first, s.first + b)
    case WorkerExited => r.readerDone && r.nextClaim >= r.total
  }

  ghost predicate WorkersInv(p: Plan, r: Ring)
    requires |r.slots| == RING_SLOTS
  {
    forall w | 0 <= w < |r.workers| :: WorkerOk(p, r, r.workers[w])
  }

  ghost predicate ClaimsDistinct(r: Ring) {
    forall i, j | 0 <= i < j < |r.workers| && r.workers[i].Holding() && r.workers[j].Holding() ::
      r.workers[i].chunk != r.workers[j].chunk
  }

  /** A claimed chunk some worker still has to finish, not known to lie beyond the end. */
  predicate Pending(r: Ring, c: nat)
    requires |r.slots| == RING_SLOTS
  {
    && r.Released() <= c < r.nextClaim
    && if c < r.produced then r.slots[SlotOf(c)].phase in {Filled, Processing} else !r.readerDone
  }

  ghost predicate ClaimsServed(r: Ring)
    requires |r.slots| == RING_SLOTS
  {
    forall c: nat | Pending(r, c) :: exists w: nat :: r.Holds(w, c)
  }

  ghost predicate HitsOk(p: Plan, r: Ring, s: Slot) {
    && (s.phase == Filled ==> s.hits == [])
    && (s.phase == Done && !(r.writer.Dumping? && s.chunk == r.nextWrite) ==>
          s.hits == p.Hits(s.first, s.first + s.count))
  }

  ghost predicate HitsInv(p: Plan, r: Ring)
    requires |r.slots| == RING_SLOTS
  {
    forall k | 0 <= k < RING_SLOTS :: HitsOk(p, r, r.slots[k])
  }

  ghost predicate WriterInv(p: Plan, r: Ring)
    requires |r.slots| == RING_SLOTS
  {
    match r.writer
    case Dumping(hits, h) =>
      && r.nextWrite < r.produced
      && r.slots[SlotOf(r.nextWrite)].phase == Done
      && hits == p.Hits(p.Boundary(r.nextWrite), p.Boundary(r.nextWrite + 1))
      && h <= |hits|
    case WriterExited => r.readerDone && r.nextWrite >= r.total
    case _ => true
  }

  /** Where chunks are. */
  ghost predicate PlaceInv(p: Plan, r: Ring) {
    |r.slots| == RING_SLOTS && ReaderInv(p, r) && WindowInv(r) && SlotInv(p, r) && WindowFull(r)
  }

  /** Who works on them. */
  ghost predicate ClaimInv(p: Plan, r: Ring) {
    |r.slots| == RING_SLOTS && WorkersInv(p, r) && ClaimsDistinct(r) && ClaimsServed(r)
  }

  /** What has been found in them. */
  ghost predicate ResultInv(p: Plan, r: Ring) {
    |r.slots| == RING_SLOTS && HitsInv(p, r) && WriterInv(p, r)
  }

  ghost predicate Inv(p: Plan, n: nat, r: Ring) {
    p.perChunk > 0 && |r.workers| == n && PlaceInv(p, r) && ClaimInv(p, r) && ResultInv(p, r)
  }

  // ----- the invariant is inductive -----

  lemma StartInv(p: Plan, n: nat)
    requires p.perChunk > 0
    ensures Inv(p, n, Start(p, n))
  {
  }

  lemma {:induction false} BoundaryRange(p: Plan, c: nat)
    ensures p.start <= p.Boundary(c) <= p.Limit()
  {
    if c > 0 { BoundaryRange(p, c - 1); }
  }

  /** Chunk `c` is the `c`-th run of `perChunk` blocks, cut off at the end of the range. */
  lemma {:induction false} BoundaryIsMultiple(p: Plan, c: nat)
    ensures var b := p.start + c * p.perChunk; p.Boundary(c) == if b <= p.Limit() then b else p.Limit()
  {
    if c > 0 {
      BoundaryIsMultiple(p, c - 1);
      assert c * p.perChunk == (c - 1) * p.perChunk + p.perChunk;
    }
  }

  lemma ServedTransfer(r: Ring, q: Ring)
    requires |r.slots| == RING_SLOTS == |q.slots| && ClaimsServed(r)
    requires forall c: nat | Pending(q, c) :: Pending(r, c)
    requires forall c: nat, w: nat | Pending(q, c) && r.Holds(w, c) :: q.Holds(w, c)
    ensures ClaimsServed(q)
  {
    forall c: nat | Pending(q, c)
      ensures exists w: nat :: q.Holds(w, c)
    {
      var w: nat :| r.Holds(w, c);
      assert q.Holds(w, c);
    }
  }

  // What a step leaves alone keeps its part of the invariant.

  /** The same chunks in the same phases. */
  ghost predicate SameSlots(r: Ring, q: Ring) {
    && |r.slots| == |q.slots| && q.produced == r.produced && q.Released() == r.Released()
    && forall k | 0 <= k < |r.slots| :: q.slots[k].(hits := r.slots[k].hits) == r.slots[k]
  }

  ghost predicate SameEnd(r: Ring, q: Ring) {
    q.readerDone == r.readerDone && q.total == r.total
  }

  lemma PlaceFrame(p: Plan, r: Ring, q: Ring)
    requires PlaceInv(p, r) && SameSlots(r, q) && SameEnd(r, q)
    requires q.cur == r.cur && q.reader == r.reader && q.nextClaim >= r.nextClaim
    ensures PlaceInv(p, q)
  {
    forall k | 0 <= k < RING_SLOTS && q.slots[k].phase != Empty ensures Occupied(p, q, k) {
      assert Occupied(p, r, k);
    }
  }

  lemma ClaimFrame(p: Plan, r: Ring, q: Ring)
    requires ClaimInv(p, r) && SameSlots(r, q) && SameEnd(r, q)
    requires q.workers == r.workers && q.nextClaim == r.nextClaim
    requires forall k | 0 <= k < |r.slots| && r.slots[k].phase == Processing :: q.slots[k] == r.slots[k]
    ensures ClaimInv(p, q)
  {
    forall w | 0 <= w < |q.workers| ensures WorkerOk(p, q, q.workers[w]) {
      assert WorkerOk(p, r, r.workers[w]);
    }
    ServedTransfer(r, q);
  }

  lemma ResultFrame(p: Plan, r: Ring, q: Ring)
    requires ResultInv(p, r) && q.slots == r.slots && SameEnd(r, q) && q.produced == r.produced
    requires q.writer == r.writer && q.nextWrite == r.nextWrite
    ensures ResultInv(p, q)
  {
    forall k | 0 <= k < RING_SLOTS ensures HitsOk(p, q, q.slots[k]) {
      assert HitsOk(p, r, r.slots[k]);
    }
  }

  /** The invariant does not mention who sleeps. */
  lemma InvIgnoresSleep(p: Plan, n: nat, r: Ring, asleep: set<Thread>)
    requires Inv(p, n, r)
    ensures Inv(p, n, r.(asleep := asleep))
  {
    var q := r.(asleep := asleep);
    PlaceFrame(p, r, q);
    ClaimFrame(p, r, q);
    ResultFrame(p, r, q);
  }

  /** Chunks that share a slot inside one window are the same chunk. */
  lemma SameSlotSameChunk(c: nat, d: nat)
    requires SlotOf(c) == SlotOf(d) && c <= d < c + RING_SLOTS
    ensures c == d
  {
  }

  /** The reader is about to fill a free slot. */
  ghost predicate Fillable(p: Plan, r: Ring) {
    PlaceInv(p, r) && r.reader.Filling? && r.cur < p.end && r.slots[SlotOf(r.produced)].phase == Empty
  }

  lemma NextBoundary(p: Plan, r: Ring)
    requires p.perChunk > 0 && Fillable(p, r)
    ensures Fill(p, r).cur == p.Boundary(r.produced + 1)
  {
    BoundaryRange(p, r.produced);
  }

  /** A free slot for the next chunk means that the ring is not full. */
  lemma WindowOpen(r: Ring)
    requires |r.slots| == RING_SLOTS && WindowInv(r) && WindowFull(r) && r.slots[SlotOf(r.produced)].phase == Empty
    ensures r.produced < r.Released() + RING_SLOTS
  {
    if r.produced == r.Released() + RING_SLOTS { SameSlotAfterRound(r.Released()); }
  }

  lemma SameSlotAfterRound(c: nat)
    ensures SlotOf(c + RING_SLOTS) == SlotOf(c)
  {
  }

  lemma FillPlace(p: Plan, r: Ring)
    requires p.perChunk > 0 && Fillable(p, r)
    ensures PlaceInv(p, Fill(p, r))
  {
    NextBoundary(p, r);
    WindowOpen(r);
    FillOccupies(p, r);
    FillWindow(p, r);
  }

  lemma FillOccupies(p: Plan, r: Ring)
    requires p.perChunk > 0 && Fillable(p, r) && Fill(p, r).cur == p.Boundary(r.produced + 1)
    requires r.produced < r.Released() + RING_SLOTS
    ensures SlotInv(p, Fill(p, r))
  {
    var q := Fill(p, r);
    forall k | 0 <= k < RING_SLOTS && q.slots[k].phase != Empty ensures Occupied(p, q, k) {
      if k != SlotOf(r.produced) { assert Occupied(p, r, k); }
    }
  }

  lemma FillWindow(p: Plan, r: Ring)
    requires Fillable(p, r) && r.produced < r.Released() + RING_SLOTS
    ensures WindowFull(Fill(p, r))
  {
    var q := Fill(p, r);
    forall c: nat | q.Released() <= c < q.produced
      ensures q.slots[SlotOf(c)].phase != Empty && q.slots[SlotOf(c)].chunk == c
    {
      if c < r.produced && SlotOf(c) == SlotOf(r.produced) { SameSlotSameChunk(c, r.produced); }
    }
  }

  lemma FillClaim(p: Plan, r: Ring)
    requires PlaceInv(p, r) && ClaimInv(p, r)
    requires r.reader.Filling? && r.cur < p.end && r.slots[SlotOf(r.produced)].phase == Empty
    ensures ClaimInv(p, Fill(p, r))
  {
    var q := Fill(p, r);
    forall w | 0 <= w < |q.workers| ensures WorkerOk(p, q, q.workers[w]) {
      assert WorkerOk(p, r, r.workers[w]);
    }
    ServedTransfer(r, q);
  }

  lemma FillResult(p: Plan, r: Ring)
    requires PlaceInv(p, r) && ResultInv(p, r)
    requires r.reader.Filling? && r.cur < p.end && r.slots[SlotOf(r.produced)].phase == Empty
    ensures ResultInv(p, Fill(p, r))
  {
    var q := Fill(p, r);
    forall j | 0 <= j < RING_SLOTS ensures HitsOk(p, q, q.slots[j]) {
      assert HitsOk(p, r, r.slots[j]);
    }
  }

  lemma ReaderKeepsInv(p: Plan, n: nat, r: Ring)
    requires Inv(p, n, r)
    ensures Inv(p, n, ReaderStep(p, r))
  {
    if r.reader.Filling? && r.cur < p.end && r.slots[SlotOf(r.produced)].phase == Empty {
      FillPlace(p, r);
      FillClaim(p, r);
      FillResult(p, r);
      InvIgnoresSleep(p, n, Fill(p, r), ReaderStep(p, r).asleep);
    } else if r.reader.Filling? && r.cur < p.end {
      InvIgnoresSleep(p, n, r, ReaderStep(p, r).asleep);
    } else if r.reader.Filling? {
      FinishKeepsInv(p, n, r);
    } else {
      AnnounceKeepsInv(p, n, r);
    }
  }

  lemma FinishKeepsInv(p: Plan, n: nat, r: Ring)
    requires Inv(p, n, r) && r.reader.Filling? && r.cur >= p.end
    ensures Inv(p, n, ReaderStep(p, r))
  {
    var q := ReaderStep(p, r);
    BoundaryRange(p, r.produced);
    forall w | 0 <= w < |q.workers| ensures WorkerOk(p, q, q.workers[w]) {
      assert WorkerOk(p, r, r.workers[w]);
    }
    forall j | 0 <= j < RING_SLOTS ensures HitsOk(p, q, q.slots[j]) {
      assert HitsOk(p, r, r.slots[j]);
    }
    ServedTransfer(r, q);
  }

  lemma AnnounceKeepsInv(p: Plan, n: nat, r: Ring)
    requires Inv(p, n, r) && !r.reader.Filling?
    ensures Inv(p, n, ReaderStep(p, r))
  {
    var q := ReaderStep(p, r);
    PlaceFrame(p, r, q.(reader := r.reader));
    ClaimFrame(p, r, q);
    ResultFrame(p, r, q);
  }

  // A worker's step changes its own program counter and at most the phase and hits of its slot.

  lemma WorkerKeepsInv(p: Plan, n: nat, r: Ring, w: nat)
    requires Inv(p, n, r) && w < n
    ensures Inv(p, n, WorkerStep(p, r, w))
  {
    assert WorkerOk(p, r, r.workers[w]);
    match r.workers[w]
    case Claiming =>
      if r.readerDone && r.nextClaim >= r.total { LeaveKeepsInv(p, n, r, w); }
      else { ClaimKeepsInv(p, n, r, w); }
    case Waiting(c) =>
      if r.slots[SlotOf(c)].phase == Filled && r.slots[SlotOf(c)].chunk == c { TakeKeepsInv(p, n, r, w); }
      else if r.readerDone && c >= r.total { LeaveKeepsInv(p, n, r, w); }
      else { InvIgnoresSleep(p, n, r, WorkerStep(p, r, w).asleep); }
    case Scanning(c, b) =>
      var k, s := SlotOf(c), r.slots[SlotOf(c)];
      if b < s.count { ScanKeepsInv(p, n, r, w); }
      else {
        DoneKeepsInv(p, n, r, w);
        InvIgnoresSleep(p, n, SetWorker(SetSlot(r, k, s.(phase := Done)), w, Claiming), WorkerStep(p, r, w).asleep);
      }
    case WorkerExited =>
  }

  lemma LeaveKeepsInv(p: Plan, n: nat, r: Ring, w: nat)
    requires Inv(p, n, r) && w < n && r.readerDone && r.nextClaim >= r.total
    requires r.workers[w].Claiming? || (r.workers[w].Waiting? && r.workers[w].chunk >= r.total)
    ensures Inv(p, n, SetWorker(r, w, WorkerExited))
  {
    var q := SetWorker(r, w, WorkerExited);
    PlaceFrame(p, r, q);
    LeaveClaim(p, r, w);
    ResultFrame(p, r, q);
  }

  lemma LeaveClaim(p: Plan, r: Ring, w: nat)
    requires PlaceInv(p, r) && ClaimInv(p, r) && w < |r.workers| && r.readerDone && r.nextClaim >= r.total
    requires r.workers[w].Claiming? || (r.workers[w].Waiting? && r.workers[w].chunk >= r.total)
    ensures ClaimInv(p, SetWorker(r, w, WorkerExited))
  {
    var q := SetWorker(r, w, WorkerExited);
    forall v | 0 <= v < |q.workers| ensures WorkerOk(p, q, q.workers[v]) {
      assert WorkerOk(p, r, r.workers[v]);
    }
    ServedTransfer(r, q);
  }

  lemma ClaimKeepsInv(p: Plan, n: nat, r: Ring, w: nat)
    requires Inv(p, n, r) && w < n && r.workers[w].Claiming? && !(r.readerDone && r.nextClaim >= r.total)
    ensures Inv(p, n, Claim(r, w))
  {
    var q := Claim(r, w);
    PlaceFrame(p, r, q);
    ClaimWorkers(p, r, w);
    ClaimServed(r, w);
    ResultFrame(p, r, q);
  }

  lemma ClaimWorkers(p: Plan, r: Ring, w: nat)
    requires PlaceInv(p, r) && ClaimInv(p, r) && w < |r.workers| && r.workers[w].Claiming?
    requires !(r.readerDone && r.nextClaim >= r.total)
    ensures WorkersInv(p, Claim(r, w)) && ClaimsDistinct(Claim(r, w))
  {
    var q := Claim(r, w);
    forall v | 0 <= v < |q.workers| ensures WorkerOk(p, q, q.workers[v]) {
      assert WorkerOk(p, r, r.workers[v]);
      if v == w && r.nextClaim < r.produced { UnclaimedIsFilled(p, r); }
    }
    forall v | 0 <= v < |r.workers| && r.workers[v].Holding() ensures r.workers[v].chunk < r.nextClaim {
      assert WorkerOk(p, r, r.workers[v]);
    }
  }

  lemma UnclaimedIsFilled(p: Plan, r: Ring)
    requires PlaceInv(p, r) && r.nextClaim < r.produced
    ensures r.slots[SlotOf(r.nextClaim)].phase == Filled
  {
    assert Occupied(p, r, SlotOf(r.nextClaim));
  }

  lemma ClaimServed(r: Ring, w: nat)
    requires |r.slots| == RING_SLOTS && ClaimsServed(r) && w < |r.workers| && r.workers[w].Claiming?
    ensures ClaimsServed(Claim(r, w))
  {
    var q := Claim(r, w);
    forall c: nat | Pending(q, c) ensures exists v: nat :: q.Holds(v, c) {
      if c == r.nextClaim {
        assert q.Holds(w, c);
      } else {
        assert Pending(r, c);
        var v: nat :| r.Holds(v, c);
        assert q.Holds(v, c);
      }
    }
  }

  /** Worker `w` moves on and its slot takes a new phase and hit list. */
  function Work(r: Ring, w: nat, phase: Phase, hits: seq<nat>, pc: WorkerPc): Ring
    requires |r.slots| == RING_SLOTS && w < |r.workers| && r.workers[w].Holding()
  {
    var k := SlotOf(r.workers[w].chunk);
    SetWorker(SetSlot(r, k, r.slots[k].(phase := phase, hits := hits)), w, pc)
  }

  /** Worker `w` holds chunk `c`, whose slot is filled or being processed. */
  ghost predicate AtWork(p: Plan, n: nat, r: Ring, w: nat, c: nat) {
    && Inv(p, n, r) && w < n && r.Holds(w, c) && r.Released() <= c < r.produced
    && r.slots[SlotOf(c)].phase in {Filled, Processing}
  }

  lemma WorkPlace(p: Plan, n: nat, r: Ring, w: nat, c: nat, phase: Phase, hits: seq<nat>, pc: WorkerPc)
    requires AtWork(p, n, r, w, c) && phase in {Processing, Done}
    ensures PlaceInv(p, Work(r, w, phase, hits, pc))
  {
    assert WorkerOk(p, r, r.workers[w]);
  }

  lemma WorkClaim(p: Plan, n: nat, r: Ring, w: nat, c: nat, phase: Phase, hits: seq<nat>, pc: WorkerPc)
    requires AtWork(p, n, r, w, c)
    requires if phase == Done then pc == Claiming else phase == Processing && pc.Scanning? && pc.chunk == c
    requires pc.Scanning? ==> var s := r.slots[SlotOf(c)];
               pc.next <= s.count && hits == p.Hits(s.first, s.first + pc.next)
    ensures ClaimInv(p, Work(r, w, phase, hits, pc))
  {
    var q := Work(r, w, phase, hits, pc);
    assert WorkerOk(p, r, r.workers[w]);
    forall v | 0 <= v < |q.workers| ensures WorkerOk(p, q, q.workers[v]) {
      if v != w { OthersWork(p, r, w, v, phase, hits, pc); }
    }
    WorkServed(p, n, r, w, c, phase, hits, pc);
  }

  /** Another worker is not affected. */
  lemma OthersWork(p: Plan, r: Ring, w: nat, v: nat, phase: Phase, hits: seq<nat>, pc: WorkerPc)
    requires PlaceInv(p, r) && ClaimInv(p, r) && w < |r.workers| && v < |r.workers| && v != w
    requires r.workers[w].Holding() && r.workers[w].chunk < r.produced && phase in {Processing, Done}
    ensures WorkerOk(p, Work(r, w, phase, hits, pc), r.workers[v])
  {
    OthersElsewhere(p, r, w, v);
    WorkerFrame(p, r, Work(r, w, phase, hits, pc), r.workers[v]);
  }

  lemma OthersElsewhere(p: Plan, r: Ring, w: nat, v: nat)
    requires PlaceInv(p, r) && ClaimInv(p, r) && w < |r.workers| && v < |r.workers| && v != w
    requires r.workers[w].Holding() && r.workers[w].chunk < r.produced
    ensures WorkerOk(p, r, r.workers[v])
    ensures r.workers[v].Holding() && r.workers[v].chunk < r.produced ==>
              SlotOf(r.workers[v].chunk) != SlotOf(r.workers[w].chunk)
  {
    assert WorkerOk(p, r, r.workers[v]) && WorkerOk(p, r, r.workers[w]);
    if r.workers[v].Holding() && r.workers[v].chunk < r.produced {
      OtherSlot(p, r, r.workers[w].chunk, r.workers[v].chunk);
    }
  }

  /** What a worker relies on is its own slot and the counters. */
  lemma WorkerFrame(p: Plan, r: Ring, q: Ring, pc: WorkerPc)
    requires |r.slots| == RING_SLOTS == |q.slots| && WorkerOk(p, r, pc)
    requires q.Released() == r.Released() && q.nextClaim == r.nextClaim && q.produced == r.produced && SameEnd(r, q)
    requires pc.Holding() && pc.chunk < r.produced ==> q.slots[SlotOf(pc.chunk)] == r.slots[SlotOf(pc.chunk)]
    ensures WorkerOk(p, q, pc)
  {
  }

  lemma OtherSlot(p: Plan, r: Ring, c: nat, d: nat)
    requires PlaceInv(p, r) && r.Released() <= c < r.produced && r.Released() <= d < r.produced && c != d
    ensures SlotOf(c) != SlotOf(d)
  {
  }

  lemma WorkServed(p: Plan, n: nat, r: Ring, w: nat, c: nat, phase: Phase, hits: seq<nat>, pc: WorkerPc)
    requires AtWork(p, n, r, w, c)
    requires if phase == Done then pc == Claiming else phase == Processing && pc.Scanning? && pc.chunk == c
    ensures ClaimsServed(Work(r, w, phase, hits, pc))
  {
    var q := Work(r, w, phase, hits, pc);
    forall d: nat | Pending(q, d) ensures exists v: nat :: q.Holds(v, d) {
      assert Pending(r, d);
      var v: nat :| r.Holds(v, d);
      assert v == w ==> d == c;
      assert q.Holds(v, d);
    }
  }

  lemma WorkResult(p: Plan, n: nat, r: Ring, w: nat, c: nat, phase: Phase, hits: seq<nat>, pc: WorkerPc)
    requires AtWork(p, n, r, w, c)
    requires phase in {Processing, Done}
    requires phase == Done ==> var s := r.slots[SlotOf(c)]; hits == p.Hits(s.first, s.first + s.count)
    ensures ResultInv(p, Work(r, w, phase, hits, pc))
  {
    SlotResult(p, r, SlotOf(c), phase, hits, Work(r, w, phase, hits, pc));
  }

  /** A slot that was not done takes a new phase and hit list. */
  lemma SlotResult(p: Plan, r: Ring, k: nat, phase: Phase, hits: seq<nat>, q: Ring)
    requires ResultInv(p, r) && k < RING_SLOTS && r.slots[k].phase in {Filled, Processing}
    requires phase in {Processing, Done}
    requires phase == Done ==> hits == p.Hits(r.slots[k].first, r.slots[k].first + r.slots[k].count)
    requires q.slots == r.slots[k := r.slots[k].(phase := phase, hits := hits)] && SameEnd(r, q)
    requires q.produced == r.produced && q.writer == r.writer && q.nextWrite == r.nextWrite
    ensures ResultInv(p, q)
  {
    forall j | 0 <= j < RING_SLOTS ensures HitsOk(p, q, q.slots[j]) {
      assert HitsOk(p, r, r.slots[j]);
    }
  }

  lemma TakeKeepsInv(p: Plan, n: nat, r: Ring, w: nat)
    requires Inv(p, n, r) && w < n && r.workers[w].Waiting?
    requires r.slots[SlotOf(r.workers[w].chunk)].phase == Filled
    requires r.slots[SlotOf(r.workers[w].chunk)].chunk == r.workers[w].chunk
    ensures Inv(p, n, WorkerStep(p, r, w))
  {
    var c := r.workers[w].chunk;
    assert HitsOk(p, r, r.slots[SlotOf(c)]);
    assert WorkerStep(p, r, w) == Work(r, w, Processing, [], Scanning(c, 0));
    WorkPlace(p, n, r, w, c, Processing, [], Scanning(c, 0));
    WorkClaim(p, n, r, w, c, Processing, [], Scanning(c, 0));
    WorkResult(p, n, r, w, c, Processing, [], Scanning(c, 0));
  }

  lemma ScanKeepsInv(p: Plan, n: nat, r: Ring, w: nat)
    requires Inv(p, n, r) && w < n && r.workers[w].Scanning?
    requires r.workers[w].next < r.slots[SlotOf(r.workers[w].chunk)].count
    ensures Inv(p, n, WorkerStep(p, r, w))
  {
    var c, b := r.workers[w].chunk, r.workers[w].next;
    assert WorkerOk(p, r, r.workers[w]);
    var s := r.slots[SlotOf(c)];
    var hits := ScanBlock(p, s, b).hits;
    assert hits == p.Hits(s.first, s.first + (b + 1));
    assert WorkerStep(p, r, w) == Work(r, w, Processing, hits, Scanning(c, b + 1));
    WorkPlace(p, n, r, w, c, Processing, hits, Scanning(c, b + 1));
    WorkClaim(p, n, r, w, c, Processing, hits, Scanning(c, b + 1));
    WorkResult(p, n, r, w, c, Processing, hits, Scanning(c, b + 1));
  }

  lemma DoneKeepsInv(p: Plan, n: nat, r: Ring, w: nat)
    requires Inv(p, n, r) && w < n && r.workers[w].Scanning?
    requires r.workers[w].next >= r.slots[SlotOf(r.workers[w].chunk)].count
    ensures var k := SlotOf(r.workers[w].chunk);
      Inv(p, n, SetWorker(SetSlot(r, k, r.slots[k].(phase := Done)), w, Claiming))
  {
    var c := r.workers[w].chunk;
    assert WorkerOk(p, r, r.workers[w]);
    var s := r.slots[SlotOf(c)];
    WorkPlace(p, n, r, w, c, Done, s.hits, Claiming);
    WorkClaim(p, n, r, w, c, Done, s.hits, Claiming);
    WorkResult(p, n, r, w, c, Done, s.hits, Claiming);
  }

  // The writer.

  lemma WriterKeepsInv(p: Plan, n: nat, r: Ring)
    requires Inv(p, n, r)
    ensures Inv(p, n, WriterStep(r))
  {
    var k, s, q := SlotOf(r.nextWrite), r.slots[SlotOf(r.nextWrite)], WriterStep(r);
    match r.writer
    case Idle => WriterMoves(p, n, r, q.writer);
    case Checking =>
      if s.phase == Done && s.chunk == r.nextWrite { CollectKeepsInv(p, n, r); }
      else if r.readerDone && r.nextWrite >= r.total { WriterMoves(p, n, r, q.writer); }
      else { InvIgnoresSleep(p, n, r, q.asleep); }
    case Dumping(hits, h) =>
      if h < |hits| { WriterMoves(p, n, r, q.writer); }
      else {
        RecycleKeepsInv(p, n, r);
        InvIgnoresSleep(p, n, Recycled(r), q.asleep);
      }
    case Advancing => AdvanceKeepsInv(p, n, r);
    case WriterExited =>
  }

  lemma WriterMoves(p: Plan, n: nat, r: Ring, pc: WriterPc)
    requires Inv(p, n, r)
    requires !r.writer.Advancing? && !pc.Advancing? && (r.writer.Dumping? <==> pc.Dumping?)
    requires WriterInv(p, r.(writer := pc))
    ensures Inv(p, n, r.(writer := pc))
  {
    var q := r.(writer := pc);
    PlaceFrame(p, r, q);
    ClaimFrame(p, r, q);
    forall j | 0 <= j < RING_SLOTS ensures HitsOk(p, q, q.slots[j]) {
      assert HitsOk(p, r, r.slots[j]);
    }
  }

  lemma CollectKeepsInv(p: Plan, n: nat, r: Ring)
    requires Inv(p, n, r) && r.writer.Checking?
    requires r.slots[SlotOf(r.nextWrite)].phase == Done && r.slots[SlotOf(r.nextWrite)].chunk == r.nextWrite
    ensures Inv(p, n, WriterStep(r))
  {
    PlaceFrame(p, r, WriterStep(r));
    ClaimFrame(p, r, WriterStep(r));
    CollectResult(p, r);
  }

  lemma CollectResult(p: Plan, r: Ring)
    requires PlaceInv(p, r) && ResultInv(p, r) && r.writer.Checking?
    requires r.slots[SlotOf(r.nextWrite)].phase == Done && r.slots[SlotOf(r.nextWrite)].chunk == r.nextWrite
    ensures ResultInv(p, WriterStep(r))
  {
    var q := WriterStep(r);
    forall j | 0 <= j < RING_SLOTS ensures HitsOk(p, q, q.slots[j]) {
      assert HitsOk(p, r, r.slots[j]);
    }
  }

  lemma RecycleKeepsInv(p: Plan, n: nat, r: Ring)
    requires Inv(p, n, r) && r.writer.Dumping?
    ensures Inv(p, n, Recycled(r))
  {
    RecyclePlace(p, r);
    RecycleClaim(p, r);
    RecycleResult(p, r);
  }

  /** The ring with the writer's slot given back. */
  function Recycled(r: Ring): Ring
    requires |r.slots| == RING_SLOTS
  {
    var k := SlotOf(r.nextWrite);
    SetSlot(r, k, r.slots[k].(phase := Empty)).(writer := Advancing)
  }

  lemma RecycleClaim(p: Plan, r: Ring)
    requires PlaceInv(p, r) && ClaimInv(p, r) && WriterInv(p, r) && r.writer.Dumping?
    ensures ClaimInv(p, Recycled(r))
  {
    var q := Recycled(r);
    forall v | 0 <= v < |q.workers| ensures WorkerOk(p, q, q.workers[v]) {
      assert WorkerOk(p, r, r.workers[v]);
    }
    ServedTransfer(r, q);
  }

  lemma RecycleResult(p: Plan, r: Ring)
    requires PlaceInv(p, r) && ResultInv(p, r) && r.writer.Dumping?
    ensures ResultInv(p, Recycled(r))
  {
    var q := Recycled(r);
    forall j | 0 <= j < RING_SLOTS ensures HitsOk(p, q, q.slots[j]) {
      assert HitsOk(p, r, r.slots[j]);
      if q.slots[j].phase == Done { assert Occupied(p, r, j); }
    }
  }

  lemma RecyclePlace(p: Plan, r: Ring)
    requires PlaceInv(p, r) && r.writer.Dumping? && r.nextWrite < r.produced
    requires r.slots[SlotOf(r.nextWrite)].phase == Done
    ensures PlaceInv(p, Recycled(r))
  {
    var k, q := SlotOf(r.nextWrite), Recycled(r);
    forall j | 0 <= j < RING_SLOTS && q.slots[j].phase != Empty ensures Occupied(p, q, j) {
      assert Occupied(p, r, j);
    }
    forall c: nat | q.Released() <= c < q.produced
      ensures q.slots[SlotOf(c)].phase != Empty && q.slots[SlotOf(c)].chunk == c
    {
      if SlotOf(c) == k { SameSlotSameChunk(r.nextWrite, c); }
    }
  }

  lemma AdvanceKeepsInv(p: Plan, n: nat, r: Ring)
    requires Inv(p, n, r) && r.writer.Advancing?
    ensures Inv(p, n, WriterStep(r))
  {
    var q := WriterStep(r);
    PlaceFrame(p, r, q);
    ClaimFrame(p, r, q);
    forall j | 0 <= j < RING_SLOTS ensures HitsOk(p, q, q.slots[j]) {
      assert HitsOk(p, r, r.slots[j]);
    }
  }

  /** Every step of every thread keeps the invariant. */
  lemma StepKeepsInv(p: Plan, n: nat, r: Ring, t: Thread)
    requires Inv(p, n, r) && r.Exists(t)
    ensures Inv(p, n, Step(p, r, t))
  {
    match t
    case Reader => ReaderKeepsInv(p, n, r);
    case Worker(w) => WorkerKeepsInv(p, n, r, w);
    case Writer => WriterKeepsInv(p, n, r);
  }
}
