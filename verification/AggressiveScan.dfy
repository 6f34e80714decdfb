/** The aggressive scan of a whole device (improved/aggressive_scan_v5.c:235-505): the recovery of one
    block as a function of the state so far, the same in place over the hash set and the interval set,
    and the scan over all blocks, serial or parallel. */
module AggressiveScan {
  import opened ExtentTree
  import opened Reconstruct
  import opened Sorting
  import opened Collections
  import opened Arithmetic
  import opened Intervals
  import BlockSet
  import Ring = ScanRing
  import Scan = ParallelScan

  datatype Output = FromTree(root: nat) | FromLeaf(block: nat)

  /** The device, the C library's qsort as some fixed sorting function, and how copying goes: None if extent number
      `k` of an output is copied in full, else how many bytes of it arrive before the copy breaks off. */
  datatype Env = Env(dev: Device, sort: seq<Extent> -> seq<Extent>, copy: (Output, nat) -> Option<nat>)
  {
    function Fate(name: Output): nat -> Option<nat> {
      (k: nat) => copy(name, k)
    }

    /** All copies of the first `n` extents of an output succeed. */
    ghost predicate Arrives(name: Output, n: nat) {
      forall k: nat | k < n :: copy(name, k).None?
    }
  }

  ghost predicate EnvOk(env: Env) {
    env.dev.Valid() && forall s: seq<Extent> :: SortOf(env.sort(s), s, ByLogical)
  }

  /** There is such an environment for every device and every way copies may go. */
  lemma EnvExists(dev: Device, copy: (Output, nat) -> Option<nat>) returns (env: Env)
    requires dev.Valid()
    ensures EnvOk(env) && env.dev == dev && env.copy == copy
  {
    env := Env(dev, (s: seq<Extent>) => InsertionSort(s, ByLogical), copy);
    forall a, b, c ensures TransitiveAt(ByLogical, a, b, c) {
    }
    forall s: seq<Extent> ensures SortOf(env.sort(s), s, ByLogical) {
      SortExists(s, ByLogical);
    }
  }

  /** Blocks marked, physical blocks registered as copied, files written, and their number. */
  datatype Rec = Rec(marked: set<nat>, covered: set<nat>, files: map<Output, Image>, emitted: nat)

  function MarkBlock(s: Rec, b: nat): Rec {
    s.(marked := s.marked + if b == 0 then {} else {b})
  }

  /** Leaf entries the redundancy check looks at, among the first `k`. */
  function Candidates(buf: Block, k: nat): seq<Extent>
    requires HEADER <= |buf| && ValidHeader(buf) && k <= Entries(buf)
  {
    if k == 0 then []
    else
      EntriesInBlock(buf, k - 1);
      var e := ExtentAt(buf, k - 1);
      Candidates(buf, k - 1) + if e.len == 0 || e.phys == 0 then [] else [e]
  }

  /** A leaf entry as the standalone-leaf dump reads it: the length is taken as it stands. */
  function RawExtentAt(buf: Block, i: nat): Extent
    requires InBlock(buf, i)
  {
    ExtentAt(buf, i).(len := RawLen(buf, i), unwritten := false)
  }

  function RawExtents(buf: Block, total: nat, k: nat): (r: seq<Extent>)
    requires HEADER <= |buf| && ValidHeader(buf) && k <= Entries(buf)
    ensures AllUsable(r, total)
  {
    if k == 0 then []
    else
      EntriesInBlock(buf, k - 1);
      var e := RawExtentAt(buf, k - 1);
      RawExtents(buf, total, k - 1) + if Usable(e, total) then [e] else []
  }

  predicate CoveredBy(exts: seq<Extent>, covered: set<nat>) {
    forall i | 0 <= i < |exts| :: Range(exts[i].phys, exts[i].len) <= covered
  }

  predicate AnyWritten(exts: seq<Extent>) {
    exists i :: 0 <= i < |exts| && !exts[i].unwritten
  }

  /** Extent `i` is copied in full. */
  predicate FullyCopied(exts: seq<Extent>, fate: nat -> Option<nat>, i: nat) {
    i < |exts| && !exts[i].unwritten && fate(i).None?
  }

  predicate AnyCopied(exts: seq<Extent>, fate: nat -> Option<nat>) {
    exists i :: 0 <= i < |exts| && FullyCopied(exts, fate, i)
  }

  /** Physical blocks of the extents that are copied in full. */
  function PhysBlocks(exts: seq<Extent>, fate: nat -> Option<nat>): set<nat> {
    if exts == [] then {}
    else
      var m := |exts| - 1;
      PhysBlocks(exts[..m], fate) + if FullyCopied(exts, fate, m) then Range(exts[m].phys, exts[m].len) else {}
  }

  /** The file the copies leave. */
  function DumpUnder(dev: Device, exts: seq<Extent>, fate: nat -> Option<nat>): Image
    requires AllUsable(exts, dev.Total())
  {
    if exts == [] then map[]
    else
      var m := |exts| - 1;
      var f := DumpUnder(dev, exts[..m], fate);
      if exts[m].unwritten then f else CopyUnder(dev, f, exts[m], fate(m))
  }

  /** If all copies succeed the file is the one the extents denote. */
  lemma {:induction false} AllArrive(dev: Device, exts: seq<Extent>, fate: nat -> Option<nat>)
    requires AllUsable(exts, dev.Total()) && forall k: nat | k < |exts| :: fate(k).None?
    ensures DumpUnder(dev, exts, fate) == Dump(dev, exts)
    ensures AnyCopied(exts, fate) <==> AnyWritten(exts)
  {
    if exts != [] { AllArrive(dev, exts[..|exts| - 1], fate); }
    if i: nat :| i < |exts| && !exts[i].unwritten { assert FullyCopied(exts, fate, i); }
  }

  /** Write the extents to a file; a file into which no extent was copied in full is removed again. */
  function Emit(env: Env, s: Rec, b: nat, name: Output, exts: seq<Extent>): (Rec, bool)
    requires AllUsable(exts, env.dev.Total())
  {
    if !AnyCopied(exts, env.Fate(name)) then (s, false)
    else
      (MarkBlock(s, b).(covered := s.covered + PhysBlocks(exts, env.Fate(name)),
                        files := s.files[name := DumpUnder(env.dev, exts, env.Fate(name))],
                        emitted := s.emitted + 1), true)
  }

  function RecoverLeaf(env: Env, s: Rec, b: nat, buf: Block): (Rec, bool)
    requires env.dev.Valid() && |buf| == env.dev.bs && ValidHeader(buf)
  {
    var candidates := Candidates(buf, Entries(buf));
    var raw := RawExtents(buf, env.dev.Total(), Entries(buf));
    if candidates != [] && CoveredBy(candidates, s.covered) then (MarkBlock(s, b), false)
    else Emit(env, s, b, FromLeaf(b), raw)
  }

  lemma SortedUsable(env: Env, buf: Block, marked: set<nat>)
    requires EnvOk(env) && |buf| == env.dev.bs
    ensures var out := WalkTree(env.dev, buf, MAX_TREE_DEPTH, [], marked, MAX_COLLECTED).out;
      AllUsable(out, env.dev.Total()) && AllUsable(env.sort(out), env.dev.Total()) && |env.sort(out)| == |out|
  {
    var out := WalkTree(env.dev, buf, MAX_TREE_DEPTH, [], marked, MAX_COLLECTED).out;
    WalkSound(env.dev, buf, MAX_TREE_DEPTH, [], marked, MAX_COLLECTED);
    SameElements(env.sort(out), out);
    forall i | 0 <= i < |out| ensures Usable(env.sort(out)[i], env.dev.Total()) {
      assert env.sort(out)[i] in out;
    }
  }

  function RecoverTree(env: Env, s: Rec, b: nat, buf: Block): (Rec, bool)
    requires EnvOk(env) && |buf| == env.dev.bs
  {
    var w := WalkTree(env.dev, buf, MAX_TREE_DEPTH, [], s.marked, MAX_COLLECTED);
    var s1 := s.(marked := w.marked);
    if w.out == [] then (s1, false)
    else
      SortedUsable(env, buf, s.marked);
      FinishTree(env, s1, b, env.sort(w.out))
  }

  function FinishTree(env: Env, s: Rec, b: nat, sorted: seq<Extent>): (Rec, bool)
    requires AllUsable(sorted, env.dev.Total())
  {
    if CoveredBy(sorted, s.covered) then (MarkBlock(s, b), false)
    else Emit(env, s, b, FromTree(b), sorted)
  }

  function RecoverBlock(env: Env, s: Rec, b: nat, buf: Block): (Rec, bool)
    requires EnvOk(env) && |buf| == env.dev.bs
  {
    if !ValidHeader(buf) then (s, false)
    else if Depth(buf) != 0 then RecoverTree(env, s, b, buf)
    else RecoverLeaf(env, s, b, buf)
  }

  /** What both scans do with block `b`; a block that cannot be read is passed over. */
  function Visit(env: Env, s: Rec, b: nat): (Rec, bool)
    requires EnvOk(env)
  {
    if b in s.marked || b >= env.dev.Total() || !HasMagic(env.dev.blocks[b]) then (s, false)
    else RecoverBlock(env, s, b, env.dev.blocks[b])
  }

  // ----- what a visit recovers -----

  /** `f` holds exactly the written logical blocks of the extents, each with its physical block's content. */
  ghost predicate HasContent(dev: Device, f: Image, exts: seq<Extent>, l: nat)
    requires AllUsable(exts, dev.Total())
  {
    && (l in f <==> exists i: nat :: MapsAt(exts, i, l))
    && forall i: nat | MapsAt(exts, i, l) :: l in f && f[l] == dev.blocks[exts[i].phys + (l - exts[i].logical)]
  }

  /** Coverage and having content do not depend on the order of the extents. */
  lemma SamePermuted(a: seq<Extent>, b: seq<Extent>, covered: set<nat>)
    requires multiset(a) == multiset(b)
    ensures CoveredBy(a, covered) <==> CoveredBy(b, covered)
    ensures AnyWritten(a) <==> AnyWritten(b)
  {
    HalfPermuted(a, b, covered);
    HalfPermuted(b, a, covered);
  }

  lemma HalfPermuted(a: seq<Extent>, b: seq<Extent>, covered: set<nat>)
    requires multiset(a) == multiset(b)
    ensures CoveredBy(a, covered) ==> CoveredBy(b, covered)
    ensures AnyWritten(a) ==> AnyWritten(b)
  {
    SameElements(a, b);
    if CoveredBy(a, covered) {
      forall i | 0 <= i < |b| ensures Range(b[i].phys, b[i].len) <= covered {
        assert b[i] in a;
      }
    }
    if i :| 0 <= i < |a| && !a[i].unwritten {
      assert a[i] in b;
    }
  }

  /** The root of a well-formed tree that is new and not yet covered becomes a file with the content the tree
      denotes. */
  lemma TreeRecovered(env: Env, s: Rec, b: nat, t: Tree, d: nat, l: nat)
    requires EnvOk(env) && b < env.dev.Total() && b !in s.marked
    requires Encodes(env.dev, env.dev.blocks[b], t, d) && 0 < d <= 4
    requires DisjointLogical(Extents(t)) && |Extents(t)| <= MAX_COLLECTED
    requires !CoveredBy(Extents(t), s.covered) && AnyWritten(Extents(t)) && env.Arrives(FromTree(b), |Extents(t)|)
    ensures AllUsable(Extents(t), env.dev.Total())
    ensures var (s', ok) := Visit(env, s, b);
      ok && FromTree(b) in s'.files && HasContent(env.dev, s'.files[FromTree(b)], Extents(t), l)
  {
    WalkReady(env, s, b, t, d);
    TreeContent(env.dev, Extents(t), env.sort(Extents(t)), l);
    VisitsTree(env, s, b, Extents(t));
    SameElements(Extents(t), env.sort(Extents(t)));
    AllArrive(env.dev, env.sort(Extents(t)), env.Fate(FromTree(b)));
  }

  /** The walk gathers the tree's extents, which are still to be copied after sorting. */
  lemma WalkReady(env: Env, s: Rec, b: nat, t: Tree, d: nat)
    requires EnvOk(env) && b < env.dev.Total() && Encodes(env.dev, env.dev.blocks[b], t, d) && 0 < d <= 4
    requires |Extents(t)| <= MAX_COLLECTED && !CoveredBy(Extents(t), s.covered) && AnyWritten(Extents(t))
    ensures WalkTree(env.dev, env.dev.blocks[b], MAX_TREE_DEPTH, [], s.marked, MAX_COLLECTED).out == Extents(t) != []
    ensures var sorted := env.sort(Extents(t));
      && SortOf(sorted, Extents(t), ByLogical) && AllUsable(Extents(t), env.dev.Total())
      && AllUsable(sorted, env.dev.Total()) && !CoveredBy(sorted, s.covered) && AnyWritten(sorted)
  {
    RootCollects(env.dev, env.dev.blocks[b], t, d, s.marked);
    SortedUsable(env, env.dev.blocks[b], s.marked);
    SamePermuted(Extents(t), env.sort(Extents(t)), s.covered);
  }

  lemma TreeContent(dev: Device, exts: seq<Extent>, sorted: seq<Extent>, l: nat)
    requires AllUsable(exts, dev.Total()) && DisjointLogical(exts) && SortOf(sorted, exts, ByLogical)
    ensures AllUsable(sorted, dev.Total()) && HasContent(dev, Dump(dev, sorted), exts, l)
  {
    TreeFile(dev, exts, sorted, l);
  }

  lemma VisitsTree(env: Env, s: Rec, b: nat, exts: seq<Extent>)
    requires EnvOk(env) && b < env.dev.Total() && b !in s.marked
    requires var buf := env.dev.blocks[b]; ValidHeader(buf) && Depth(buf) != 0
    requires WalkTree(env.dev, env.dev.blocks[b], MAX_TREE_DEPTH, [], s.marked, MAX_COLLECTED).out == exts != []
    requires AllUsable(env.sort(exts), env.dev.Total()) && !CoveredBy(env.sort(exts), s.covered)
    ensures var (s', ok) := Visit(env, s, b); var fate := env.Fate(FromTree(b));
      && (ok <==> AnyCopied(env.sort(exts), fate))
      && (ok ==> FromTree(b) in s'.files && s'.files[FromTree(b)] == DumpUnder(env.dev, env.sort(exts), fate))
  {
  }

  // ----- leaves -----

  /** Read by its raw length, an unwritten extent does not fit into the device, so the leaf dump passes it over. */
  predicate Overlong(e: Extent, total: nat) {
    e.phys + e.len + UNWRITTEN > total
  }

  /** The leaf dump writes nothing for unwritten extents. */
  ghost predicate NothingMisread(exts: seq<Extent>, total: nat) {
    forall i | 0 <= i < |exts| && exts[i].unwritten :: Overlong(exts[i], total)
  }

  /** What the leaf dump makes of an extent. */
  function AsRead(e: Extent): Extent {
    e.(len := e.len + (if e.unwritten then UNWRITTEN else 0), unwritten := false)
  }

  function AsDumped(exts: seq<Extent>, total: nat): (r: seq<Extent>)
    ensures AllUsable(r, total)
  {
    if exts == [] then []
    else
      var m := |exts| - 1;
      AsDumped(exts[..m], total) + if Usable(AsRead(exts[m]), total) then [AsRead(exts[m])] else []
  }

  lemma {:induction false} RawIsAsDumped(dev: Device, buf: Block, exts: seq<Extent>, k: nat)
    requires dev.Valid() && Encodes(dev, buf, Leaf(exts), 0) && k <= |exts|
    ensures RawExtents(buf, dev.Total(), k) == AsDumped(exts[..k], dev.Total())
  {
    if k > 0 {
      RawIsAsDumped(dev, buf, exts, k - 1);
      EntriesInBlock(buf, k - 1);
      assert exts[..k][..k - 1] == exts[..k - 1];
      assert RawExtentAt(buf, k - 1) == AsRead(exts[k - 1]);
    }
  }

  /** If nothing is misread, the dump is that of the extents. */
  lemma {:induction false} DumpAsDumped(dev: Device, exts: seq<Extent>)
    requires AllUsable(exts, dev.Total()) && NothingMisread(exts, dev.Total())
    ensures Dump(dev, AsDumped(exts, dev.Total())) == Dump(dev, exts)
  {
    if exts != [] {
      var m := |exts| - 1;
      var r := AsDumped(exts[..m], dev.Total());
      DumpAsDumped(dev, exts[..m]);
      if !exts[m].unwritten {
        assert AsRead(exts[m]) == exts[m];
        assert (r + [exts[m]])[..|r|] == r;
      } else {
        assert Overlong(exts[m], dev.Total());
        assert AsDumped(exts, dev.Total()) == r;
      }
    }
  }

  /** An extent that is read as usable is dumped. */
  lemma {:induction false} ReadIsDumped(exts: seq<Extent>, total: nat, i: nat) returns (j: nat)
    requires i < |exts| && Usable(AsRead(exts[i]), total)
    ensures j < |AsDumped(exts, total)| && AsDumped(exts, total)[j] == AsRead(exts[i])
  {
    var m := |exts| - 1;
    if i < m { j := ReadIsDumped(exts[..m], total, i); } else { j := |AsDumped(exts[..m], total)|; }
  }

  /** The dump of a leaf has the content its extents denote if and only if no unwritten extent, read by its raw length,
      still fits into the device. */
  lemma LeafContentExact(dev: Device, exts: seq<Extent>)
    requires AllUsable(exts, dev.Total()) && DisjointLogical(exts)
    ensures (forall l: nat :: HasContent(dev, Dump(dev, AsDumped(exts, dev.Total())), exts, l)) <==>
            NothingMisread(exts, dev.Total())
  {
    if NothingMisread(exts, dev.Total()) {
      DumpAsDumped(dev, exts);
      forall l: nat ensures HasContent(dev, Dump(dev, exts), exts, l) { DumpHasContent(dev, exts, l); }
    } else {
      var i :| 0 <= i < |exts| && exts[i].unwritten && !Overlong(exts[i], dev.Total());
      MisreadShows(dev, exts, i);
    }
  }

  lemma DumpHasContent(dev: Device, exts: seq<Extent>, l: nat)
    requires AllUsable(exts, dev.Total()) && DisjointLogical(exts)
    ensures HasContent(dev, Dump(dev, exts), exts, l)
  {
    DumpDomain(dev, exts, l);
    forall i: nat | MapsAt(exts, i, l)
      ensures l in Dump(dev, exts) && Dump(dev, exts)[l] == dev.blocks[exts[i].phys + (l - exts[i].logical)]
    {
      DumpValue(dev, exts, i, l);
    }
  }

  /** A misread extent puts a block into the file that no written extent maps. */
  lemma MisreadShows(dev: Device, exts: seq<Extent>, i: nat)
    requires AllUsable(exts, dev.Total()) && DisjointLogical(exts)
    requires i < |exts| && exts[i].unwritten && !Overlong(exts[i], dev.Total())
    ensures var l, f := exts[i].logical, Dump(dev, AsDumped(exts, dev.Total()));
      l in f && !HasContent(dev, f, exts, l)
  {
    var l, raw := exts[i].logical, AsDumped(exts, dev.Total());
    var j := ReadIsDumped(exts, dev.Total(), i);
    assert MapsAt(raw, j, l);
    DumpDomain(dev, raw, l);
    forall k: nat ensures !MapsAt(exts, k, l) {
      if k < |exts| && k != i { assert if k < i then Apart(exts[k], exts[i]) else Apart(exts[i], exts[k]); }
    }
  }

  lemma {:induction false} CandidatesAreEntries(dev: Device, buf: Block, exts: seq<Extent>, k: nat)
    requires dev.Valid() && Encodes(dev, buf, Leaf(exts), 0) && k <= |exts|
    ensures Candidates(buf, k) == exts[..k]
  {
    if k > 0 {
      CandidatesAreEntries(dev, buf, exts, k - 1);
      EntriesInBlock(buf, k - 1);
      assert exts[..k] == exts[..k - 1] + [exts[k - 1]];
    }
  }

  /** A leaf without an index above it that is new and not yet covered becomes a file, which has the content the leaf
      denotes if and only if nothing is misread. */
  lemma LeafRecovered(env: Env, s: Rec, b: nat, exts: seq<Extent>)
    requires EnvOk(env) && b < env.dev.Total() && b !in s.marked
    requires Encodes(env.dev, env.dev.blocks[b], Leaf(exts), 0) && DisjointLogical(exts)
    requires !CoveredBy(exts, s.covered) && AnyWritten(exts) && env.Arrives(FromLeaf(b), |exts|)
    ensures AllUsable(exts, env.dev.Total())
    ensures var (s', ok) := Visit(env, s, b);
      && ok && FromLeaf(b) in s'.files
      && ((forall l: nat :: HasContent(env.dev, s'.files[FromLeaf(b)], exts, l)) <==>
          NothingMisread(exts, env.dev.Total()))
  {
    VisitsLeaf(env, s, b, exts);
    LeafContentExact(env.dev, exts);
  }

  lemma VisitsLeaf(env: Env, s: Rec, b: nat, exts: seq<Extent>)
    requires EnvOk(env) && b < env.dev.Total() && b !in s.marked
    requires Encodes(env.dev, env.dev.blocks[b], Leaf(exts), 0) && !CoveredBy(exts, s.covered)
    requires env.Arrives(FromLeaf(b), |exts|)
    ensures var (s', ok) := Visit(env, s, b); var raw := AsDumped(exts, env.dev.Total());
      if raw == [] then (s', ok) == (s, false)
      else ok && FromLeaf(b) in s'.files && s'.files[FromLeaf(b)] == Dump(env.dev, raw)
    ensures AnyWritten(exts) ==> AsDumped(exts, env.dev.Total()) != []
  {
    var buf := env.dev.blocks[b];
    assert exts[..|exts|] == exts;
    RawIsAsDumped(env.dev, buf, exts, |exts|);
    CandidatesAreEntries(env.dev, buf, exts, |exts|);
    RawsAreWritten(exts, env.dev.Total());
    AllArrive(env.dev, AsDumped(exts, env.dev.Total()), env.Fate(FromLeaf(b)));
    if i: nat :| i < |exts| && !exts[i].unwritten {
      assert AsRead(exts[i]) == exts[i];
      var j := ReadIsDumped(exts, env.dev.Total(), i);
    }
  }

  lemma {:induction false} RawsAreWritten(exts: seq<Extent>, total: nat)
    ensures forall i | 0 <= i < |AsDumped(exts, total)| :: !AsDumped(exts, total)[i].unwritten
    ensures AnyWritten(AsDumped(exts, total)) <==> AsDumped(exts, total) != []
    ensures |AsDumped(exts, total)| <= |exts|
  {
    if exts != [] { RawsAreWritten(exts[..|exts| - 1], total); }
    if AsDumped(exts, total) != [] { assert !AsDumped(exts, total)[0].unwritten; }
  }

  /** A leaf with one written and one unwritten extent. */
  function MisreadLeaf(): Block {
    [0x0A, 0xF3, 2, 0, 2, 0, 0, 0, 0, 0, 0, 0] + [0, 0, 0, 0, 1, 0, 0, 0, 5, 0, 0, 0]
    + [1, 0, 0, 0, 1, 0x80, 0, 0, 6, 0, 0, 0]
  }

  /** A device full of such leaves, large enough for the raw length. */
  function MisreadDevice(): Device {
    Device(36, Repeat(MisreadLeaf(), 40000))
  }

  /** From it the leaf at block 9 is recovered with a block the file does not have. */
  lemma LeafCanBeMisread(env: Env, s: Rec)
    requires EnvOk(env) && env.dev == MisreadDevice() && s.marked == {} && s.covered == {}
    requires env.Arrives(FromLeaf(9), 2)
    ensures var exts := [Extent(0, 1, 5, false), Extent(1, 1, 6, true)];
      && env.dev.Valid() && Encodes(env.dev, env.dev.blocks[9], Leaf(exts), 0) && AllUsable(exts, env.dev.Total())
      && var (s', ok) := Visit(env, s, 9);
         ok && FromLeaf(9) in s'.files && !HasContent(env.dev, s'.files[FromLeaf(9)], exts, 1)
  {
    var exts := [Extent(0, 1, 5, false), Extent(1, 1, 6, true)];
    MisreadEncodes();
    assert 5 in Range(exts[0].phys, exts[0].len);
    VisitsMisread(env, s, 9, exts, 1);
  }

  lemma VisitsMisread(env: Env, s: Rec, b: nat, exts: seq<Extent>, i: nat)
    requires EnvOk(env) && b < env.dev.Total() && b !in s.marked && i < |exts|
    requires Encodes(env.dev, env.dev.blocks[b], Leaf(exts), 0) && DisjointLogical(exts) && !CoveredBy(exts, s.covered)
    requires exts[i].unwritten && !Overlong(exts[i], env.dev.Total()) && env.Arrives(FromLeaf(b), |exts|)
    ensures AllUsable(exts, env.dev.Total())
    ensures var (s', ok) := Visit(env, s, b);
      ok && FromLeaf(b) in s'.files && !HasContent(env.dev, s'.files[FromLeaf(b)], exts, exts[i].logical)
  {
    VisitsLeaf(env, s, b, exts);
    MisreadShows(env.dev, exts, i);
  }

  lemma MisreadEncodes()
    ensures var dev := MisreadDevice();
      dev.Valid() && Encodes(dev, dev.blocks[9], Leaf([Extent(0, 1, 5, false), Extent(1, 1, 6, true)]), 0)
  {
    MisreadHeader();
    MisreadFirst();
    MisreadSecond();
  }

  lemma MisreadHeader()
    ensures |MisreadLeaf()| == 36 && ValidHeader(MisreadLeaf()) && Depth(MisreadLeaf()) == 0 &&
      Entries(MisreadLeaf()) == 2
  {
    var buf := MisreadLeaf();
    assert buf[0] == 0x0A && buf[1] == 0xF3 && buf[2] == 2 && buf[3] == 0 && buf[4] == 2 && buf[5] == 0;
    assert buf[6] == 0 && buf[7] == 0;
  }

  lemma MisreadFirst()
    ensures InBlock(MisreadLeaf(), 0) && ExtentAt(MisreadLeaf(), 0) == Extent(0, 1, 5, false)
  {
    var buf := MisreadLeaf();
    assert buf[12] == buf[13] == buf[14] == buf[15] == 0 && buf[16] == 1 && buf[17] == 0;
    assert buf[18] == buf[19] == 0 && buf[20] == 5 && buf[21] == buf[22] == buf[23] == 0;
  }

  lemma MisreadSecond()
    ensures InBlock(MisreadLeaf(), 1) && ExtentAt(MisreadLeaf(), 1) == Extent(1, 1, 6, true)
  {
    var buf := MisreadLeaf();
    assert buf[24] == 1 && buf[25] == buf[26] == buf[27] == 0 && buf[28] == 1 && buf[29] == 0x80;
    assert buf[30] == buf[31] == 0 && buf[32] == 6 && buf[33] == buf[34] == buf[35] == 0;
  }

  // ----- serial and parallel -----

  /** The workers' test of a block. */
  predicate IsHit(dev: Device, b: nat)
    requires dev.Valid()
  {
    b < dev.Total() && HasMagic(dev.blocks[b]) && ValidHeader(dev.blocks[b])
  }

  function ScanJob(env: Env, start: nat, end: nat, perChunk: nat): Scan.Job<Rec>
    requires EnvOk(env)
  {
    Scan.Job(Ring.Plan(start, end, perChunk, (b: nat) => IsHit(env.dev, b)),
             (s: Rec, b: nat) => Visit(env, s, b))
  }

  lemma PrefilterHarmless(env: Env, start: nat, end: nat, perChunk: nat)
    requires EnvOk(env)
    ensures Scan.FilterHarmless(ScanJob(env, start, end, perChunk))
  {
    var job := ScanJob(env, start, end, perChunk);
    forall s: Rec, b: nat | !job.plan.hit(b) ensures job.visit(s, b) == (s, false) {
      assert !IsHit(env.dev, b);
    }
  }

  /** The state and count a single-threaded scan of [start, end) ends with. */
  function SerialScan(env: Env, s: Rec, start: nat, end: nat): (Rec, nat)
    requires EnvOk(env)
    decreases end
  {
    if end <= start then (s, 0)
    else
      var (s1, found) := SerialScan(env, s, start, end - 1);
      var (s2, ok) := Visit(env, s1, end - 1);
      (s2, found + if ok then 1 else 0)
  }

  lemma {:induction false} JobIsSerialScan(env: Env, s: Rec, start: nat, end: nat, perChunk: nat, hi: nat)
    requires EnvOk(env)
    ensures Scan.Serial(ScanJob(env, start, end, perChunk), s, start, hi) == SerialScan(env, s, start, hi)
    decreases hi
  {
    if start < hi {
      JobIsSerialScan(env, s, start, end, perChunk, hi - 1);
      JobVisits(env, start, end, perChunk, SerialScan(env, s, start, hi - 1), hi - 1);
    }
  }

  lemma JobVisits(env: Env, start: nat, end: nat, perChunk: nat, at: (Rec, nat), b: nat)
    requires EnvOk(env)
    ensures var (s, ok) := Visit(env, at.0, b);
      Scan.Visit(ScanJob(env, start, end, perChunk), at, b) == (s, at.1 + if ok then 1 else 0)
  {
  }

  const CHUNK_BYTES: nat := 8 * 1024 * 1024

  /** The parallel scan of a device leaves exactly the recovery state, the files and the count of the serial one. */
  method ScanDeviceInParallel(env: Env, s0: Rec, start: nat, end: nat, workers: int) returns (s: Rec, found: nat)
    requires EnvOk(env) && env.dev.bs <= CHUNK_BYTES
    ensures (s, found) == SerialScan(env, s0, start, if start <= end then end else start)
  {
    var perChunk := CHUNK_BYTES / env.dev.bs;
    var job := ScanJob(env, start, end, perChunk);
    PrefilterHarmless(env, start, end, perChunk);
    s, found := Scan.ScanInParallel(job, workers, s0);
    JobIsSerialScan(env, s0, start, end, perChunk, job.plan.Limit());
  }

  // ----- in place -----

  /** Physical addresses have 48 bits, so interval arithmetic cannot wrap. */
  lemma AddressFits(buf: Block, i: nat)
    requires InBlock(buf, i)
    ensures ExtentAt(buf, i).phys + 0x1_0000 < U64 && ExtentAt(buf, i).len < 0x1_0000
  {
  }

  lemma AllCoveredSnoc(exts: seq<Extent>, e: Extent, covered: set<nat>)
    ensures CoveredBy(exts + [e], covered) <==> CoveredBy(exts, covered) && Range(e.phys, e.len) <= covered
  {
    assert (exts + [e])[..|exts|] == exts;
    assert CoveredBy(exts + [e], covered) ==> Range((exts + [e])[|exts|].phys, e.len) <= covered;
    forall i | 0 <= i < |exts| && CoveredBy(exts + [e], covered) ensures Range(exts[i].phys, exts[i].len) <= covered {
      assert (exts + [e])[i] == exts[i];
    }
  }

  lemma CandidatesStep(buf: Block, k: nat, covered: set<nat>)
    requires HEADER <= |buf| && ValidHeader(buf) && k < Entries(buf)
    ensures InBlock(buf, k) && ExtentAt(buf, k).phys + ExtentAt(buf, k).len < U64
    ensures var c, e := Candidates(buf, k), ExtentAt(buf, k);
      if e.len == 0 || e.phys == 0 then Candidates(buf, k + 1) == c
      else
        && |Candidates(buf, k + 1)| == |c| + 1
        && (CoveredBy(Candidates(buf, k + 1), covered) <==> CoveredBy(c, covered) && Range(e.phys, e.len) <= covered)
  {
    EntriesInBlock(buf, k);
    AddressFits(buf, k);
    AllCoveredSnoc(Candidates(buf, k), ExtentAt(buf, k), covered);
    assert Candidates(buf, k) + [] == Candidates(buf, k);
  }

  /** Lines 364-382: is every usable-looking extent of this leaf already registered? */
  method LeafRedundant(buf: Block, extents: RecoveredIntervals) returns (r: bool)
    requires extents.Valid() && HEADER <= |buf| && ValidHeader(buf)
    ensures r <==> Candidates(buf, Entries(buf)) != [] && CoveredBy(Candidates(buf, Entries(buf)), extents.Set())
  {
    var total, fully := 0, 0;
    ghost var covered := extents.Set();
    for k := 0 to Entries(buf)
      invariant fully <= total == |Candidates(buf, k)|
      invariant fully == total <==> CoveredBy(Candidates(buf, k), covered)
    {
      CandidatesStep(buf, k, covered);
      var counts, full := EntryRegistered(buf, k, extents);
      if counts { total := total + 1; }
      if full { fully := fully + 1; }
    }
    r := total > 0 && fully == total;
  }

  /** Does entry `k` count for the check, and is it covered? */
  method EntryRegistered(buf: Block, k: nat, extents: RecoveredIntervals) returns (counts: bool, full: bool)
    requires extents.Valid() && InBlock(buf, k)
    ensures var e := ExtentAt(buf, k);
      && (counts <==> e.len != 0 && e.phys != 0)
      && (full <==> counts && Range(e.phys, e.len) <= extents.Set())
  {
    var e := ExtentAt(buf, k);
    counts, full := e.len != 0 && e.phys != 0, false;
    if counts {
      AddressFits(buf, k);
      full := Registered(e, extents);
    }
  }

  /** Does intervals_query answer 1 for this extent? */
  method Registered(e: Extent, extents: RecoveredIntervals) returns (full: bool)
    requires extents.Valid() && e.len > 0 && e.phys + e.len < U64
    ensures full <==> Range(e.phys, e.len) <= extents.Set()
  {
    var rc := extents.Query(e.phys, e.len);
    full := rc == 1;
  }

  /** Lines 278-287: the same check over the extents of a tree. */
  method TreeRedundant(dev: Device, exts: seq<Extent>, extents: RecoveredIntervals) returns (r: bool)
    requires extents.Valid() && dev.Total() < U64 && AllUsable(exts, dev.Total())
    ensures r <==> CoveredBy(exts, extents.Set())
  {
    var fully := 0;
    for k := 0 to |exts|
      invariant fully <= k
      invariant fully == k <==> CoveredBy(exts[..k], extents.Set())
    {
      assert exts[..k + 1] == exts[..k] + [exts[k]];
      AllCoveredSnoc(exts[..k], exts[k], extents.Set());
      var full := Registered(exts[k], extents);
      if full { fully := fully + 1; }
    }
    assert exts[..|exts|] == exts;
    r := fully == |exts|;
  }

  /** Copy the written extents into a new file, registering each that arrives in full. */
  method DumpExtents(dev: Device, exts: seq<Extent>, fate: nat -> Option<nat>, extents: RecoveredIntervals)
    returns (file: Image, recovered: nat)
    requires extents.Valid() && dev.Total() < U64 && AllUsable(exts, dev.Total())
    modifies extents, extents.starts, extents.lens
    ensures extents.Valid() && extents.Set() == old(extents.Set()) + PhysBlocks(exts, fate)
    ensures file == DumpUnder(dev, exts, fate) && (recovered > 0 <==> AnyCopied(exts, fate))
    ensures extents.starts == old(extents.starts) || fresh(extents.starts)
    ensures extents.lens == old(extents.lens) || fresh(extents.lens)
  {
    file, recovered := map[], 0;
    ghost var before := extents.Set();
    for k := 0 to |exts|
      invariant extents.Valid() && extents.Set() == before + PhysBlocks(exts[..k], fate)
      invariant file == DumpUnder(dev, exts[..k], fate) && (recovered > 0 <==> AnyCopied(exts[..k], fate))
      invariant extents.starts == old(extents.starts) || fresh(extents.starts)
      invariant extents.lens == old(extents.lens) || fresh(extents.lens)
    {
      file, recovered := DumpNext(dev, exts, fate, k, file, recovered, extents, before);
    }
    assert exts[..|exts|] == exts;
  }

  /** One turn of the dump loop. */
  method DumpNext(dev: Device, exts: seq<Extent>, fate: nat -> Option<nat>, k: nat, file: Image, recovered: nat,
                  extents: RecoveredIntervals, ghost before: set<nat>)
    returns (file': Image, recovered': nat)
    requires extents.Valid() && dev.Total() < U64 && AllUsable(exts, dev.Total()) && k < |exts|
    requires extents.Set() == before + PhysBlocks(exts[..k], fate) && file == DumpUnder(dev, exts[..k], fate)
    requires recovered > 0 <==> AnyCopied(exts[..k], fate)
    modifies extents, extents.starts, extents.lens
    ensures extents.Valid() && extents.Set() == before + PhysBlocks(exts[..k + 1], fate)
    ensures file' == DumpUnder(dev, exts[..k + 1], fate) && (recovered' > 0 <==> AnyCopied(exts[..k + 1], fate))
    ensures extents.starts == old(extents.starts) || fresh(extents.starts)
    ensures extents.lens == old(extents.lens) || fresh(extents.lens)
  {
    Snoc(dev, exts, fate, k);
    var copied;
    copied, file' := DumpOne(dev, file, exts[k], fate(k), extents);
    recovered' := recovered + if copied then 1 else 0;
  }

  /** One extent: pass it over, or copy it and register it if it arrives in full. */
  method DumpOne(dev: Device, file: Image, e: Extent, fate: Option<nat>, extents: RecoveredIntervals)
    returns (copied: bool, after: Image)
    requires extents.Valid() && dev.Total() < U64 && Usable(e, dev.Total())
    modifies extents, extents.starts, extents.lens
    ensures extents.Valid() && copied == (!e.unwritten && fate.None?)
    ensures extents.Set() == old(extents.Set()) + if copied then Range(e.phys, e.len) else {}
    ensures after == if e.unwritten then file else CopyUnder(dev, file, e, fate)
    ensures extents.starts == old(extents.starts) || fresh(extents.starts)
    ensures extents.lens == old(extents.lens) || fresh(extents.lens)
  {
    copied, after := false, file;
    if !e.unwritten {
      copied, after := fate.None?, CopyUnder(dev, file, e, fate);
      if copied {
        var rc := extents.Add(e.phys, e.len, true);
      }
    }
  }

  lemma Snoc(dev: Device, exts: seq<Extent>, fate: nat -> Option<nat>, k: nat)
    requires AllUsable(exts, dev.Total()) && k < |exts|
    ensures var e, f := exts[k], DumpUnder(dev, exts[..k], fate); var full := FullyCopied(exts, fate, k);
      && PhysBlocks(exts[..k + 1], fate) == PhysBlocks(exts[..k], fate) + (if full then Range(e.phys, e.len) else {})
      && DumpUnder(dev, exts[..k + 1], fate) ==
         (if e.unwritten then f else CopyUnder(dev, f, e, fate(k)))
      && (AnyCopied(exts[..k + 1], fate) <==> AnyCopied(exts[..k], fate) || full)
  {
    assert exts[..k + 1][..k] == exts[..k];
    AnyCopiedSnoc(exts, fate, k);
  }

  lemma AnyCopiedSnoc(exts: seq<Extent>, fate: nat -> Option<nat>, k: nat)
    requires k < |exts|
    ensures AnyCopied(exts[..k + 1], fate) <==> AnyCopied(exts[..k], fate) || FullyCopied(exts, fate, k)
  {
    if i :| 0 <= i < k && FullyCopied(exts[..k], fate, i) { assert FullyCopied(exts[..k + 1], fate, i); }
    if FullyCopied(exts, fate, k) { assert FullyCopied(exts[..k + 1], fate, k); }
    var n, more := k + 1, exts[..k + 1];
    if i :| 0 <= i < n && FullyCopied(more, fate, i) {
      assert if i < k then FullyCopied(exts[..k], fate, i) else FullyCopied(exts, fate, k);
    }
  }

  ghost predicate Stores(rb: BlockSet.RecoveredBlocks, extents: RecoveredIntervals)
    reads rb, rb.keys, extents, extents.starts, extents.lens
  {
    rb.Valid() && extents.Valid() && rb.keys != extents.starts && rb.keys != extents.lens
  }

  method EmitInPlace(env: Env, b: nat, name: Output, exts: seq<Extent>,
                     rb: BlockSet.RecoveredBlocks, extents: RecoveredIntervals, files: map<Output, Image>, emitted: nat)
    returns (ok: bool, files': map<Output, Image>, emitted': nat)
    requires env.dev.Total() < U64 && AllUsable(exts, env.dev.Total())
    requires Stores(rb, extents)
    modifies rb, rb.keys, extents, extents.starts, extents.lens
    ensures Stores(rb, extents)
    ensures (Rec(rb.Set(), extents.Set(), files', emitted'), ok) ==
            Emit(env, Rec(old(rb.Set()), old(extents.Set()), files, emitted), b, name, exts)
    ensures rb.keys == old(rb.keys) || fresh(rb.keys)
    ensures extents.starts == old(extents.starts) || fresh(extents.starts)
    ensures extents.lens == old(extents.lens) || fresh(extents.lens)
  {
    ok, files', emitted' := false, files, emitted;
    ghost var s := Rec(rb.Set(), extents.Set(), files, emitted);
    var file, recovered := DumpExtents(env.dev, exts, env.Fate(name), extents);
    EmitIs(env, s, b, name, exts);
    if recovered > 0 {
      MarkOnly(rb, b, extents);
      ok, files', emitted' := true, files[name := file], emitted + 1;
    }
  }

  lemma EmitIs(env: Env, s: Rec, b: nat, name: Output, exts: seq<Extent>)
    requires AllUsable(exts, env.dev.Total())
    ensures var ok := AnyCopied(exts, env.Fate(name)); var covered := s.covered + PhysBlocks(exts, env.Fate(name));
      Emit(env, s, b, name, exts) ==
      (Rec(if ok then MarkBlock(s, b).marked else s.marked, covered,
           if ok then s.files[name := DumpUnder(env.dev, exts, env.Fate(name))] else s.files,
           s.emitted + if ok then 1 else 0), ok)
  {
    if !AnyCopied(exts, env.Fate(name)) {
      NoneCopied(exts, env.Fate(name));
      assert s.covered + {} == s.covered;
    }
  }

  /** Marking a block leaves the interval set alone. */
  method MarkOnly(rb: BlockSet.RecoveredBlocks, b: nat, extents: RecoveredIntervals)
    requires Stores(rb, extents)
    modifies rb, rb.keys
    ensures Stores(rb, extents) && extents.Set() == old(extents.Set())
    ensures rb.Set() == old(rb.Set()) + if b == 0 then {} else {b}
    ensures rb.keys == old(rb.keys) || fresh(rb.keys)
  {
    rb.Mark(b, true);
  }

  lemma {:induction false} NoneCopied(exts: seq<Extent>, fate: nat -> Option<nat>)
    requires !AnyCopied(exts, fate)
    ensures PhysBlocks(exts, fate) == {}
  {
    if exts != [] {
      var m := |exts| - 1;
      assert exts[..m + 1] == exts;
      AnyCopiedSnoc(exts, fate, m);
      NoneCopied(exts[..m], fate);
    }
  }

  /** recover_orphaned_extent_block on a leaf, over the hash set and the interval set. */
  method RecoverLeafInPlace(env: Env, b: nat, buf: Block, rb: BlockSet.RecoveredBlocks, extents: RecoveredIntervals,
                            files: map<Output, Image>, emitted: nat)
    returns (ok: bool, files': map<Output, Image>, emitted': nat)
    requires env.dev.Valid() && env.dev.Total() < U64 && |buf| == env.dev.bs && ValidHeader(buf)
    requires Stores(rb, extents)
    modifies rb, rb.keys, extents, extents.starts, extents.lens
    ensures Stores(rb, extents)
    ensures (Rec(rb.Set(), extents.Set(), files', emitted'), ok) ==
            RecoverLeaf(env, Rec(old(rb.Set()), old(extents.Set()), files, emitted), b, buf)
    ensures rb.keys == old(rb.keys) || fresh(rb.keys)
    ensures extents.starts == old(extents.starts) || fresh(extents.starts)
    ensures extents.lens == old(extents.lens) || fresh(extents.lens)
  {
    var redundant := LeafRedundant(buf, extents);
    if redundant {
      rb.Mark(b, true);
      ok, files', emitted' := false, files, emitted;
    } else {
      var raw := RawExtents(buf, env.dev.Total(), Entries(buf));
      ok, files', emitted' := EmitInPlace(env, b, FromLeaf(b), raw, rb, extents, files, emitted);
    }
  }

  /** recover_orphaned_extent_tree, over the hash set and the interval set. */
  method RecoverTreeInPlace(env: Env, b: nat, buf: Block, rb: BlockSet.RecoveredBlocks, extents: RecoveredIntervals,
                            files: map<Output, Image>, emitted: nat)
    returns (ok: bool, files': map<Output, Image>, emitted': nat)
    requires EnvOk(env) && env.dev.Total() < U64 && |buf| == env.dev.bs
    requires Stores(rb, extents)
    modifies rb, rb.keys, extents, extents.starts, extents.lens
    ensures Stores(rb, extents)
    ensures (Rec(rb.Set(), extents.Set(), files', emitted'), ok) ==
            RecoverTree(env, Rec(old(rb.Set()), old(extents.Set()), files, emitted), b, buf)
    ensures rb.keys == old(rb.keys) || fresh(rb.keys)
    ensures extents.starts == old(extents.starts) || fresh(extents.starts)
    ensures extents.lens == old(extents.lens) || fresh(extents.lens)
  {
    SortedUsable(env, buf, rb.Set());
    var sorted := GatherSorted(env, buf, rb);
    if sorted == [] {
      ok, files', emitted' := false, files, emitted;
    } else {
      ok, files', emitted' := FinishTreeInPlace(env, b, sorted, rb, extents, files, emitted);
    }
  }

  method FinishTreeInPlace(env: Env, b: nat, sorted: seq<Extent>, rb: BlockSet.RecoveredBlocks,
                           extents: RecoveredIntervals, files: map<Output, Image>, emitted: nat)
    returns (ok: bool, files': map<Output, Image>, emitted': nat)
    requires env.dev.Total() < U64 && AllUsable(sorted, env.dev.Total())
    requires Stores(rb, extents)
    modifies rb, rb.keys, extents, extents.starts, extents.lens
    ensures Stores(rb, extents)
    ensures (Rec(rb.Set(), extents.Set(), files', emitted'), ok) ==
            FinishTree(env, Rec(old(rb.Set()), old(extents.Set()), files, emitted), b, sorted)
    ensures rb.keys == old(rb.keys) || fresh(rb.keys)
    ensures extents.starts == old(extents.starts) || fresh(extents.starts)
    ensures extents.lens == old(extents.lens) || fresh(extents.lens)
  {
    var redundant := TreeRedundant(env.dev, sorted, extents);
    if redundant {
      rb.Mark(b, true);
      ok, files', emitted' := false, files, emitted;
    } else {
      ok, files', emitted' := EmitInPlace(env, b, FromTree(b), sorted, rb, extents, files, emitted);
    }
  }

  /** Walk into a fixed array and sort what was gathered. */
  method GatherSorted(env: Env, buf: Block, rb: BlockSet.RecoveredBlocks) returns (sorted: seq<Extent>)
    requires EnvOk(env) && |buf| == env.dev.bs && rb.Valid()
    modifies rb, rb.keys
    ensures rb.Valid() && (rb.keys == old(rb.keys) || fresh(rb.keys))
    ensures var w := WalkTree(env.dev, buf, MAX_TREE_DEPTH, [], old(rb.Set()), MAX_COLLECTED);
      rb.Set() == w.marked && sorted == env.sort(w.out) && (sorted == [] <==> w.out == [])
  {
    SortedUsable(env, buf, rb.Set());
    var exts := new Extent[MAX_COLLECTED](_ => Extent(0, 0, 0, false));
    var walked, n := WalkExtentTree(env.dev, buf, MAX_TREE_DEPTH, rb, exts, 0);
    sorted := env.sort(exts[..n]);
  }

  method VisitInPlace(env: Env, b: nat, rb: BlockSet.RecoveredBlocks, extents: RecoveredIntervals,
                      files: map<Output, Image>, emitted: nat)
    returns (ok: bool, files': map<Output, Image>, emitted': nat)
    requires EnvOk(env) && env.dev.Total() < U64
    requires Stores(rb, extents)
    modifies rb, rb.keys, extents, extents.starts, extents.lens
    ensures Stores(rb, extents)
    ensures (Rec(rb.Set(), extents.Set(), files', emitted'), ok) ==
            Visit(env, Rec(old(rb.Set()), old(extents.Set()), files, emitted), b)
    ensures rb.keys == old(rb.keys) || fresh(rb.keys)
    ensures extents.starts == old(extents.starts) || fresh(extents.starts)
    ensures extents.lens == old(extents.lens) || fresh(extents.lens)
  {
    ok, files', emitted' := false, files, emitted;
    var known := rb.Contains(b);
    if known || b >= env.dev.Total() {
      return;
    }
    var buf := env.dev.blocks[b];
    if !HasMagic(buf) || !ValidHeader(buf) {
      return;
    }
    if Depth(buf) != 0 {
      ok, files', emitted' := RecoverTreeInPlace(env, b, buf, rb, extents, files, emitted);
    } else {
      ok, files', emitted' := RecoverLeafInPlace(env, b, buf, rb, extents, files, emitted);
    }
  }

  /** The stores hold what the scan of [start, block) leaves. */
  ghost predicate Scanned(env: Env, s0: Rec, start: nat, block: nat, rb: BlockSet.RecoveredBlocks,
                          extents: RecoveredIntervals, found: nat, files: map<Output, Image>, emitted: nat)
    requires EnvOk(env)
    reads rb, rb.keys, extents, extents.starts, extents.lens
  {
    && Stores(rb, extents)
    && (Rec(rb.Set(), extents.Set(), files, emitted), found) == SerialScan(env, s0, start, block)
  }

  /** scan_for_extent_headers over the real stores computes the scan of the states they stand for. */
  method ScanDeviceSerially(env: Env, start: nat, end: nat, rb: BlockSet.RecoveredBlocks, extents: RecoveredIntervals)
    returns (found: nat, files: map<Output, Image>, emitted: nat)
    requires EnvOk(env) && env.dev.Total() < U64
    requires Stores(rb, extents)
    modifies rb, rb.keys, extents, extents.starts, extents.lens
    ensures Stores(rb, extents)
    ensures (Rec(rb.Set(), extents.Set(), files, emitted), found) ==
            SerialScan(env, Rec(old(rb.Set()), old(extents.Set()), map[], 0), start, end)
  {
    found, files, emitted := 0, map[], 0;
    ghost var s0 := Rec(rb.Set(), extents.Set(), map[], 0);
    var block := start;
    while block < end
      invariant start <= block && (block <= end || block == start)
      invariant rb.keys == old(rb.keys) || fresh(rb.keys)
      invariant extents.starts == old(extents.starts) || fresh(extents.starts)
      invariant extents.lens == old(extents.lens) || fresh(extents.lens)
      invariant Scanned(env, s0, start, block, rb, extents, found, files, emitted)
    {
      found, files, emitted := VisitNext(env, s0, start, block, rb, extents, found, files, emitted);
      block := block + 1;
    }
  }

  /** One turn of the scan. */
  method VisitNext(env: Env, ghost s0: Rec, ghost start: nat, block: nat,
                   rb: BlockSet.RecoveredBlocks, extents: RecoveredIntervals,
                   found: nat, files: map<Output, Image>, emitted: nat)
    returns (found': nat, files': map<Output, Image>, emitted': nat)
    requires EnvOk(env) && start <= block && env.dev.Total() < U64
    requires Scanned(env, s0, start, block, rb, extents, found, files, emitted)
    modifies rb, rb.keys, extents, extents.starts, extents.lens
    ensures rb.keys == old(rb.keys) || fresh(rb.keys)
    ensures extents.starts == old(extents.starts) || fresh(extents.starts)
    ensures extents.lens == old(extents.lens) || fresh(extents.lens)
    ensures Scanned(env, s0, start, block + 1, rb, extents, found', files', emitted')
  {
    SerialScanStep(env, s0, start, block);
    var ok;
    ok, files', emitted' := VisitInPlace(env, block, rb, extents, files, emitted);
    found' := found + if ok then 1 else 0;
  }

  lemma SerialScanStep(env: Env, s0: Rec, start: nat, block: nat)
    requires EnvOk(env) && start <= block
    ensures var (s, found) := SerialScan(env, s0, start, block);
      SerialScan(env, s0, start, block + 1) ==
      (Visit(env, s, block).0, found + if Visit(env, s, block).1 then 1 else 0)
  {
  }
}
