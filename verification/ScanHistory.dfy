/** What the state of a scan says about its past (improved/aggressive_scan_v5.c:277-293, 364-388, 447-505): whatever is
    skipped as covered is in a file already. */
module ScanHistory {
  import opened ExtentTree
  import opened Reconstruct
  import opened Intervals
  import opened AggressiveScan
  import opened Collections
  import opened Sorting

  /** Block `b` is one the visit looks into. */
  predicate Examined(env: Env, s: Rec, b: nat)
    requires EnvOk(env)
  {
    b !in s.marked && b < env.dev.Total() && HasMagic(env.dev.blocks[b]) && ValidHeader(env.dev.blocks[b])
  }

  /** The extents its redundancy check looks at. */
  function Considered(env: Env, s: Rec, b: nat): seq<Extent>
    requires EnvOk(env) && Examined(env, s, b)
  {
    var buf := env.dev.blocks[b];
    if Depth(buf) == 0 then Candidates(buf, Entries(buf))
    else
      var out := WalkTree(env.dev, buf, MAX_TREE_DEPTH, [], s.marked, MAX_COLLECTED).out;
      if out == [] then [] else env.sort(out)
  }

  /** The visit finds everything copied already. */
  predicate Skips(env: Env, s: Rec, b: nat)
    requires EnvOk(env)
  {
    Examined(env, s, b) && Considered(env, s, b) != [] && CoveredBy(Considered(env, s, b), s.covered)
  }

  /** The extents the visit copies to a file. */
  function Copied(env: Env, s: Rec, b: nat): (r: seq<Extent>)
    requires EnvOk(env)
    ensures AllUsable(r, env.dev.Total())
  {
    if !Examined(env, s, b) || Skips(env, s, b) then []
    else
      var buf := env.dev.blocks[b];
      if Depth(buf) == 0 then RawExtents(buf, env.dev.Total(), Entries(buf))
      else
        SortedUsable(env, buf, s.marked);
        Considered(env, s, b)
  }

  function FileOf(env: Env, b: nat): Output
    requires EnvOk(env) && b < env.dev.Total()
  {
    if Depth(env.dev.blocks[b]) == 0 then FromLeaf(b) else FromTree(b)
  }

  /** The physical blocks that arrive in full in the file of block `b`. */
  function Arrived(env: Env, b: nat, exts: seq<Extent>): set<nat>
    requires EnvOk(env)
  {
    if b < env.dev.Total() then PhysBlocks(exts, env.Fate(FileOf(env, b))) else {}
  }

  /** What a visit that copies `exts` for block `b` leaves. */
  ghost predicate Leaves(env: Env, s: Rec, b: nat, exts: seq<Extent>, s': Rec, ok: bool)
    requires EnvOk(env) && AllUsable(exts, env.dev.Total())
  {
    && s'.covered == s.covered + Arrived(env, b, exts)
    && (ok <==> b < env.dev.Total() && AnyCopied(exts, env.Fate(FileOf(env, b))))
    && s'.files == if !ok then s.files
                   else s.files[FileOf(env, b) := DumpUnder(env.dev, exts, env.Fate(FileOf(env, b)))]
  }

  lemma NothingLeaves(env: Env, s: Rec, b: nat, s': Rec)
    requires EnvOk(env) && s'.covered == s.covered && s'.files == s.files
    ensures Leaves(env, s, b, [], s', false)
  {
  }

  lemma EmitLeaves(env: Env, s: Rec, s1: Rec, b: nat, exts: seq<Extent>)
    requires EnvOk(env) && AllUsable(exts, env.dev.Total()) && b < env.dev.Total()
    requires s1.covered == s.covered && s1.files == s.files
    ensures var (s', ok) := Emit(env, s1, b, FileOf(env, b), exts); Leaves(env, s, b, exts, s', ok)
  {
    if !AnyCopied(exts, env.Fate(FileOf(env, b))) { NoneCopied(exts, env.Fate(FileOf(env, b))); }
  }

  /** A visit registers exactly what it copies, and makes a file of exactly that. */
  lemma VisitCopies(env: Env, s: Rec, b: nat)
    requires EnvOk(env)
    ensures var (s', ok) := Visit(env, s, b); Leaves(env, s, b, Copied(env, s, b), s', ok)
  {
    var (s', ok) := Visit(env, s, b);
    if !Examined(env, s, b) || Skips(env, s, b) {
      NothingLeaves(env, s, b, s');
    } else if Depth(env.dev.blocks[b]) == 0 {
      EmitLeaves(env, s, s, b, Copied(env, s, b));
    } else {
      TreeCopies(env, s, b);
    }
  }

  /** What is copied for a tree is what its walk gathered, in ascending order of logical blocks. */
  lemma TreeCopiedInOrder(env: Env, s: Rec, b: nat)
    requires EnvOk(env) && Examined(env, s, b) && !Skips(env, s, b) && Depth(env.dev.blocks[b]) != 0
    ensures var out := WalkTree(env.dev, env.dev.blocks[b], MAX_TREE_DEPTH, [], s.marked, MAX_COLLECTED).out;
      multiset(Copied(env, s, b)) == multiset(out)
    ensures forall i, j | 0 <= i < j < |Copied(env, s, b)| ::
              Copied(env, s, b)[i].logical <= Copied(env, s, b)[j].logical
  {
    var out := WalkTree(env.dev, env.dev.blocks[b], MAX_TREE_DEPTH, [], s.marked, MAX_COLLECTED).out;
    var sorted := env.sort(out);
    assert SortOf(sorted, out, ByLogical);
    forall i, j | 0 <= i < j < |sorted| ensures sorted[i].logical <= sorted[j].logical {
      assert ByLogical(sorted[i], sorted[j]);
    }
  }

  lemma TreeCopies(env: Env, s: Rec, b: nat)
    requires EnvOk(env) && Examined(env, s, b) && !Skips(env, s, b) && Depth(env.dev.blocks[b]) != 0
    ensures var (s', ok) := Visit(env, s, b); Leaves(env, s, b, Copied(env, s, b), s', ok)
  {
    var w := WalkTree(env.dev, env.dev.blocks[b], MAX_TREE_DEPTH, [], s.marked, MAX_COLLECTED);
    var s1 := s.(marked := w.marked);
    SortedUsable(env, env.dev.blocks[b], s.marked);
    if w.out == [] { NothingLeaves(env, s, b, s1); } else { EmitLeaves(env, s, s1, b, env.sort(w.out)); }
  }

  function StateAt(env: Env, s0: Rec, start: nat, b: nat): Rec
    requires EnvOk(env)
  {
    SerialScan(env, s0, start, b).0
  }

  // ----- what is covered is in a file -----

  /** Where extent `e` puts block `p` of the device. */
  function PlaceOf(e: Extent, p: nat): nat
    requires p in Range(e.phys, e.len)
  {
    e.logical + (p - e.phys)
  }

  /** Extent `i` is copied in full, and block `p` of the device is one of its blocks. */
  predicate InCopied(exts: seq<Extent>, fate: nat -> Option<nat>, i: nat, p: nat) {
    FullyCopied(exts, fate, i) && p in Range(exts[i].phys, exts[i].len)
  }

  lemma {:induction false} RegisteredExactlyIfCopied(exts: seq<Extent>, fate: nat -> Option<nat>, p: nat)
    ensures p in PhysBlocks(exts, fate) <==> exists i: nat :: InCopied(exts, fate, i, p)
  {
    if exts != [] {
      var m := |exts| - 1;
      RegisteredExactlyIfCopied(exts[..m], fate, p);
      if i: nat :| InCopied(exts[..m], fate, i, p) { assert InCopied(exts, fate, i, p); }
      if i: nat :| InCopied(exts, fate, i, p) { assert i < m ==> InCopied(exts[..m], fate, i, p); }
      assert FullyCopied(exts, fate, m) && p in Range(exts[m].phys, exts[m].len) ==> InCopied(exts, fate, m, p);
    }
  }

  /** Block `l` of the file after the copies of the first `n` extents. */
  ghost function BlockAfter(dev: Device, exts: seq<Extent>, fate: nat -> Option<nat>, n: nat, l: nat): Option<Block>
    requires AllUsable(exts, dev.Total()) && n <= |exts|
  {
    var f := DumpUnder(dev, exts[..n], fate);
    if l in f then Some(f[l]) else None
  }

  /** Copying extent `i` of `exts` puts the content of block `p` into the file, at the place the extent maps it to. */
  ghost predicate Receives(dev: Device, exts: seq<Extent>, fate: nat -> Option<nat>, i: nat, p: nat)
    requires AllUsable(exts, dev.Total())
  {
    InCopied(exts, fate, i, p) && BlockAfter(dev, exts, fate, i + 1, PlaceOf(exts[i], p)) == Some(dev.blocks[p])
  }

  lemma {:induction false} CopyReceives(dev: Device, exts: seq<Extent>, fate: nat -> Option<nat>, i: nat, p: nat)
    requires AllUsable(exts, dev.Total()) && InCopied(exts, fate, i, p)
    ensures BlockAfter(dev, exts, fate, i + 1, PlaceOf(exts[i], p)) == Some(dev.blocks[p])
  {
    FullSnoc(dev, exts, fate, i);
    CopyPuts(dev, DumpUnder(dev, exts[..i], fate), exts[i], p);
  }

  lemma FullSnoc(dev: Device, exts: seq<Extent>, fate: nat -> Option<nat>, i: nat)
    requires AllUsable(exts, dev.Total()) && FullyCopied(exts, fate, i)
    ensures DumpUnder(dev, exts[..i + 1], fate) == CopyExtent(dev, DumpUnder(dev, exts[..i], fate), exts[i])
  {
    Snoc(dev, exts, fate, i);
  }

  lemma CopyPuts(dev: Device, f: Image, e: Extent, p: nat)
    requires Usable(e, dev.Total()) && p in Range(e.phys, e.len)
    ensures p < dev.Total() && PlaceOf(e, p) in CopyExtent(dev, f, e)
    ensures CopyExtent(dev, f, e)[PlaceOf(e, p)] == dev.blocks[p]
  {
    CopyExtentMaps(dev, f, e, PlaceOf(e, p));
  }

  /** The registered blocks are exactly those whose content the file received. */
  lemma {:induction false} RegisteredExactlyIfReceived(dev: Device, exts: seq<Extent>, fate: nat -> Option<nat>,
                                                       p: nat)
    requires AllUsable(exts, dev.Total())
    ensures p in PhysBlocks(exts, fate) <==> exists i: nat :: Receives(dev, exts, fate, i, p)
  {
    RegisteredExactlyIfCopied(exts, fate, p);
    if i: nat :| InCopied(exts, fate, i, p) {
      CopyReceives(dev, exts, fate, i, p);
      assert Receives(dev, exts, fate, i, p);
    }
  }

  /** The copy of extent `j`, whole or not, writes block `l` of the file. */
  ghost predicate WritesTo(bs: nat, exts: seq<Extent>, fate: nat -> Option<nat>, j: nat, l: nat)
    requires j < |exts|
  {
    !exts[j].unwritten && Touches(exts[j], bs, fate(j), l)
  }

  /** Some extent after the `i`-th does. */
  ghost predicate Overwritten(bs: nat, exts: seq<Extent>, fate: nat -> Option<nat>, i: nat, l: nat) {
    exists j: nat :: i < j < |exts| && WritesTo(bs, exts, fate, j, l)
  }

  lemma {:induction false} BlockAfterNext(dev: Device, exts: seq<Extent>, fate: nat -> Option<nat>, n: nat, l: nat)
    requires AllUsable(exts, dev.Total()) && n < |exts| && BlockAfter(dev, exts, fate, n, l).Some?
    ensures var b, c := BlockAfter(dev, exts, fate, n, l), BlockAfter(dev, exts, fate, n + 1, l);
      c.Some? && (c == b || WritesTo(dev.bs, exts, fate, n, l))
  {
    Snoc(dev, exts, fate, n);
    CopyUnderKeeps(dev, DumpUnder(dev, exts[..n], fate), exts[n], fate(n), l);
  }

  /** `blocks[n]` is block `l` of the file after `n` extents: once there, it only changes where a copy writes it. */
  ghost predicate Evolves(bs: nat, exts: seq<Extent>, fate: nat -> Option<nat>, l: nat, blocks: seq<Option<Block>>) {
    && |blocks| == |exts| + 1
    && forall n: nat | n < |exts| && blocks[n].Some? ::
         blocks[n + 1].Some? && (blocks[n + 1] == blocks[n] || WritesTo(bs, exts, fate, n, l))
  }

  lemma {:induction false} EvolvedStays(bs: nat, exts: seq<Extent>, fate: nat -> Option<nat>, l: nat,
                                        blocks: seq<Option<Block>>, i: nat, n: nat)
    requires Evolves(bs, exts, fate, l, blocks) && i < n <= |exts| && blocks[i + 1].Some?
    ensures blocks[n].Some? && (blocks[n] == blocks[i + 1] || Overwritten(bs, exts, fate, i, l))
    decreases n
  {
    if i + 1 < n { EvolvedStays(bs, exts, fate, l, blocks, i, n - 1); }
  }

  /** What extent `i` put there is in the finished file unless a later copy wrote over it. */
  lemma {:induction false} StaysUnlessOverwritten(dev: Device, exts: seq<Extent>, fate: nat -> Option<nat>, i: nat,
                                                  l: nat)
    requires AllUsable(exts, dev.Total()) && i < |exts| && BlockAfter(dev, exts, fate, i + 1, l).Some?
    ensures var b, c := BlockAfter(dev, exts, fate, i + 1, l), BlockAfter(dev, exts, fate, |exts|, l);
      c.Some? && (c == b || Overwritten(dev.bs, exts, fate, i, l))
  {
    var blocks := seq(|exts| + 1, n requires 0 <= n <= |exts| => BlockAfter(dev, exts, fate, n, l));
    forall n: nat | n < |exts| && blocks[n].Some?
      ensures blocks[n + 1].Some? && (blocks[n + 1] == blocks[n] || WritesTo(dev.bs, exts, fate, n, l))
    {
      BlockAfterNext(dev, exts, fate, n, l);
    }
    EvolvedStays(dev.bs, exts, fate, l, blocks, i, |exts|);
  }

  /** The visit of block `c` copied block `p` of the device with extent `i`. */
  ghost predicate CopiedAt(env: Env, s0: Rec, start: nat, c: nat, i: nat, p: nat)
    requires EnvOk(env)
  {
    ReceivesIn(env, StateAt(env, s0, start, c), c, i, p)
  }

  /** Visited in state `s`, block `c` has block `p` of the device copied with extent `i`. */
  ghost predicate ReceivesIn(env: Env, s: Rec, c: nat, i: nat, p: nat)
    requires EnvOk(env)
  {
    c < env.dev.Total() && Receives(env.dev, Copied(env, s, c), env.Fate(FileOf(env, c)), i, p)
  }

  /** The output of block `c` is among `files`, with the content of block `p` where extent `i` of `exts` maps it, unless
      a later copy to the same file wrote over that place. */
  ghost predicate KeptIn(env: Env, files: map<Output, Image>, c: nat, exts: seq<Extent>, i: nat, p: nat)
    requires EnvOk(env) && c < env.dev.Total() && p < env.dev.Total()
    requires i < |exts| && p in Range(exts[i].phys, exts[i].len)
  {
    && FileOf(env, c) in files
    && var f, l := files[FileOf(env, c)], PlaceOf(exts[i], p);
       l in f && (f[l] == env.dev.blocks[p] || Overwritten(env.dev.bs, exts, env.Fate(FileOf(env, c)), i, l))
  }

  /** Some visit of the scan before block `b` copied block `p` of the device to a file. */
  ghost predicate CopiedBefore(env: Env, s0: Rec, start: nat, b: nat, p: nat)
    requires EnvOk(env)
  {
    exists c: nat, i: nat :: start <= c < b && CopiedAt(env, s0, start, c, i, p)
  }

  lemma StateStep(env: Env, s0: Rec, start: nat, b: nat)
    requires EnvOk(env) && start < b
    ensures StateAt(env, s0, start, b) == Visit(env, StateAt(env, s0, start, b - 1), b - 1).0
  {
  }

  ghost function CoveredAt(env: Env, s0: Rec, start: nat, b: nat): set<nat>
    requires EnvOk(env)
  {
    StateAt(env, s0, start, b).covered
  }

  /** What the scan's visit of block `c` has arrive in full. */
  ghost function ArrivedAt(env: Env, s0: Rec, start: nat, c: nat): set<nat>
    requires EnvOk(env)
  {
    Arrived(env, c, Copied(env, StateAt(env, s0, start, c), c))
  }

  lemma CoveredStep(env: Env, s0: Rec, start: nat, b: nat)
    requires EnvOk(env) && start < b
    ensures CoveredAt(env, s0, start, b) == CoveredAt(env, s0, start, b - 1) + ArrivedAt(env, s0, start, b - 1)
  {
    StateStep(env, s0, start, b);
    VisitCovers(env, StateAt(env, s0, start, b - 1), b - 1, StateAt(env, s0, start, b));
  }

  lemma VisitCovers(env: Env, s: Rec, b: nat, s': Rec)
    requires EnvOk(env) && s' == Visit(env, s, b).0
    ensures s'.covered == s.covered + Arrived(env, b, Copied(env, s, b))
  {
    VisitCopies(env, s, b);
  }

  /** Some visit before block `b` had block `p` arrive in full. */
  ghost predicate ArrivedBefore(env: Env, s0: Rec, start: nat, b: nat, p: nat)
    requires EnvOk(env)
  {
    exists c: nat :: start <= c < b && p in ArrivedAt(env, s0, start, c)
  }

  lemma {:induction false} CoveredExactlyIfArrived(env: Env, s0: Rec, start: nat, b: nat, p: nat)
    requires EnvOk(env) && start <= b
    ensures p in CoveredAt(env, s0, start, b) <==> p in s0.covered || ArrivedBefore(env, s0, start, b, p)
    decreases b
  {
    if start < b {
      CoveredExactlyIfArrived(env, s0, start, b - 1, p);
      CoveredStep(env, s0, start, b);
      ArrivedStep(env, s0, start, b, p);
    }
  }

  lemma ArrivedStep(env: Env, s0: Rec, start: nat, b: nat, p: nat)
    requires EnvOk(env) && start < b
    ensures ArrivedBefore(env, s0, start, b, p) <==>
            ArrivedBefore(env, s0, start, b - 1, p) || p in ArrivedAt(env, s0, start, b - 1)
  {
  }

  lemma ArrivedExactlyIfCopied(env: Env, s: Rec, c: nat, p: nat)
    requires EnvOk(env)
    ensures p in Arrived(env, c, Copied(env, s, c)) <==> exists i: nat :: ReceivesIn(env, s, c, i, p)
  {
    var exts := Copied(env, s, c);
    if c < env.dev.Total() { RegisteredExactlyIfReceived(env.dev, exts, env.Fate(FileOf(env, c)), p); }
    if i: nat :| c < env.dev.Total() && Receives(env.dev, exts, env.Fate(FileOf(env, c)), i, p) {
      assert ReceivesIn(env, s, c, i, p);
    }
  }

  lemma ArrivedIsCopied(env: Env, s0: Rec, start: nat, b: nat, p: nat)
    requires EnvOk(env) && ArrivedBefore(env, s0, start, b, p)
    ensures CopiedBefore(env, s0, start, b, p)
  {
    var c: nat :| start <= c < b && p in ArrivedAt(env, s0, start, c);
    ArrivedExactlyIfCopied(env, StateAt(env, s0, start, c), c, p);
    var i: nat :| ReceivesIn(env, StateAt(env, s0, start, c), c, i, p);
    assert CopiedAt(env, s0, start, c, i, p);
  }

  lemma CopiedIsArrived(env: Env, s0: Rec, start: nat, b: nat, p: nat)
    requires EnvOk(env) && CopiedBefore(env, s0, start, b, p)
    ensures ArrivedBefore(env, s0, start, b, p)
  {
    var c: nat, i: nat :| start <= c < b && CopiedAt(env, s0, start, c, i, p);
    ArrivedExactlyIfCopied(env, StateAt(env, s0, start, c), c, p);
    assert p in ArrivedAt(env, s0, start, c);
  }

  /** Over a whole scan, the covered blocks are those covered at the start and those whose content some file has
      received since. */
  lemma CoveredExactlyIfCopied(env: Env, s0: Rec, start: nat, b: nat, p: nat)
    requires EnvOk(env) && start <= b
    ensures p in StateAt(env, s0, start, b).covered <==> p in s0.covered || CopiedBefore(env, s0, start, b, p)
  {
    CoveredExactlyIfArrived(env, s0, start, b, p);
    if ArrivedBefore(env, s0, start, b, p) { ArrivedIsCopied(env, s0, start, b, p); }
    if CopiedBefore(env, s0, start, b, p) { CopiedIsArrived(env, s0, start, b, p); }
  }

  /** The output of block `c`, if there is one. */
  function OutputOf(env: Env, s: Rec, c: nat): Option<Image>
    requires EnvOk(env) && c < env.dev.Total()
  {
    if FileOf(env, c) in s.files then Some(s.files[FileOf(env, c)]) else None
  }

  /** What the visit of `c` in state `s` puts into its output. */
  function Made(env: Env, s: Rec, c: nat): Image
    requires EnvOk(env) && c < env.dev.Total()
  {
    DumpUnder(env.dev, Copied(env, s, c), env.Fate(FileOf(env, c)))
  }

  lemma OwnOutput(env: Env, s: Rec, c: nat)
    requires EnvOk(env) && c < env.dev.Total() && AnyCopied(Copied(env, s, c), env.Fate(FileOf(env, c)))
    ensures OutputOf(env, Visit(env, s, c).0, c) == Some(Made(env, s, c))
  {
    VisitCopies(env, s, c);
  }

  lemma OtherOutput(env: Env, s: Rec, b: nat, c: nat)
    requires EnvOk(env) && c < env.dev.Total() && b != c
    ensures OutputOf(env, Visit(env, s, b).0, c) == OutputOf(env, s, c)
  {
    VisitCopies(env, s, b);
  }

  /** The output of block `c` when the scan comes to block `b`. */
  ghost function OutputAt(env: Env, s0: Rec, start: nat, b: nat, c: nat): Option<Image>
    requires EnvOk(env) && c < env.dev.Total()
  {
    OutputOf(env, StateAt(env, s0, start, b), c)
  }

  lemma OutputStep(env: Env, s0: Rec, start: nat, b: nat, c: nat)
    requires EnvOk(env) && start < b && c < env.dev.Total() && c != b - 1
    ensures OutputAt(env, s0, start, b, c) == OutputAt(env, s0, start, b - 1, c)
  {
    StateStep(env, s0, start, b);
    OtherOutput(env, StateAt(env, s0, start, b - 1), b - 1, c);
  }

  lemma {:induction false} OutputStays(env: Env, s0: Rec, start: nat, b: nat, c: nat)
    requires EnvOk(env) && start <= c < b && c < env.dev.Total()
    ensures OutputAt(env, s0, start, b, c) == OutputAt(env, s0, start, c + 1, c)
    decreases b
  {
    if c + 1 < b {
      OutputStays(env, s0, start, b - 1, c);
      OutputStep(env, s0, start, b, c);
    }
  }

  /** A file, once made, is left alone by the rest of the scan. */
  lemma {:induction false} FilesStay(env: Env, s0: Rec, start: nat, c: nat, b: nat)
    requires EnvOk(env) && start <= c < b && c < env.dev.Total()
    requires AnyCopied(Copied(env, StateAt(env, s0, start, c), c), env.Fate(FileOf(env, c)))
    ensures OutputAt(env, s0, start, b, c) == Some(Made(env, StateAt(env, s0, start, c), c))
  {
    OutputStays(env, s0, start, b, c);
    StateStep(env, s0, start, c + 1);
    OwnOutput(env, StateAt(env, s0, start, c), c);
  }

  lemma CopiedIsKept(env: Env, s0: Rec, start: nat, b: nat, c: nat, i: nat, p: nat)
    requires EnvOk(env) && start <= c < b && CopiedAt(env, s0, start, c, i, p)
    ensures p < env.dev.Total()
    ensures KeptIn(env, StateAt(env, s0, start, b).files, c, Copied(env, StateAt(env, s0, start, c), c), i, p)
  {
    var exts, fate := Copied(env, StateAt(env, s0, start, c), c), env.Fate(FileOf(env, c));
    assert AnyCopied(exts, fate);
    FilesStay(env, s0, start, c, b);
    StaysUnlessOverwritten(env.dev, exts, fate, i, PlaceOf(exts[i], p));
    assert exts[..|exts|] == exts;
  }

  /** What a scan skips as redundant was covered when the scan began, or a visit before has put its content into an
      output file, which is still there. */
  lemma SkippedWasCopied(env: Env, s0: Rec, start: nat, b: nat, i: nat, p: nat)
    requires EnvOk(env) && start <= b && Skips(env, StateAt(env, s0, start, b), b)
    requires i < |Considered(env, StateAt(env, s0, start, b), b)|
    requires var e := Considered(env, StateAt(env, s0, start, b), b)[i]; p in Range(e.phys, e.len)
    ensures p in s0.covered ||
            exists c: nat, j: nat :: start <= c < b && CopiedAt(env, s0, start, c, j, p) && p < env.dev.Total() &&
              KeptIn(env, StateAt(env, s0, start, b).files, c, Copied(env, StateAt(env, s0, start, c), c), j, p)
  {
    CoveredExactlyIfCopied(env, s0, start, b, p);
    if p !in s0.covered {
      var c: nat, j: nat :| start <= c < b && CopiedAt(env, s0, start, c, j, p);
      CopiedIsKept(env, s0, start, b, c, j, p);
    }
  }

  lemma {:induction false} CoveredGrows(env: Env, s0: Rec, start: nat, a: nat, b: nat)
    requires EnvOk(env) && start <= a <= b
    ensures CoveredAt(env, s0, start, a) <= CoveredAt(env, s0, start, b)
    decreases b
  {
    if a < b {
      CoveredGrows(env, s0, start, a, b - 1);
      CoveredKept(env, s0, start, b);
    }
  }

  lemma CoveredKept(env: Env, s0: Rec, start: nat, b: nat)
    requires EnvOk(env) && start < b
    ensures CoveredAt(env, s0, start, b - 1) <= CoveredAt(env, s0, start, b)
  {
    CoveredStep(env, s0, start, b);
  }
}
