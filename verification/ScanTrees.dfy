/** Which trees and leaves a scan gives a file of their own (improved/aggressive_scan_v5.c:239-335, 340-442, 447-505),
    and that a tree whose leaves come first never gets one. */
module ScanTrees {
  import opened ExtentTree
  import opened Reconstruct
  import opened Intervals
  import opened AggressiveScan
  import opened ScanHistory
  import opened ScanMarks
  import opened Collections

  // ----- what gets a file -----

  /** Block `b` is new to the scan when it comes to it: not marked at the start, and no earlier walk followed a pointer
      to it. */
  ghost predicate New(env: Env, s0: Rec, start: nat, b: nat)
    requires EnvOk(env)
  {
    b !in s0.marked && !FollowedBefore(env, s0, start, b, b)
  }

  lemma KnownIsPassed(env: Env, s0: Rec, start: nat, b: nat)
    requires EnvOk(env) && start <= b && !New(env, s0, start, b)
    ensures Visit(env, StateAt(env, s0, start, b), b) == (StateAt(env, s0, start, b), false)
  {
    KnownExactly(env, s0, start, b);
  }

  /** In a scan, the root of a well-formed tree gets a file of its own if and only if no earlier walk followed a pointer
      to it and not all its extents have been copied before, and then the file has the content the tree denotes. */
  lemma TreeInScan(env: Env, s0: Rec, start: nat, b: nat, t: Tree, d: nat)
    requires EnvOk(env) && start <= b < env.dev.Total()
    requires Encodes(env.dev, env.dev.blocks[b], t, d) && 0 < d <= 4
    requires DisjointLogical(Extents(t)) && |Extents(t)| <= MAX_COLLECTED && AnyWritten(Extents(t))
    requires env.Arrives(FromTree(b), |Extents(t)|)
    ensures AllUsable(Extents(t), env.dev.Total())
    ensures var (s', ok) := Visit(env, StateAt(env, s0, start, b), b);
      && StateAt(env, s0, start, b + 1) == s'
      && (ok <==> New(env, s0, start, b) && !CoveredBy(Extents(t), StateAt(env, s0, start, b).covered))
      && (ok ==> FromTree(b) in s'.files &&
                 forall l: nat :: HasContent(env.dev, s'.files[FromTree(b)], Extents(t), l))
  {
    RootUsable(env, b, t, d);
    StateStep(env, s0, start, b + 1);
    if New(env, s0, start, b) {
      KnownExactly(env, s0, start, b);
      NewTree(env, StateAt(env, s0, start, b), b, t, d);
    } else {
      KnownIsPassed(env, s0, start, b);
    }
  }

  lemma RootUsable(env: Env, b: nat, t: Tree, d: nat)
    requires EnvOk(env) && b < env.dev.Total() && Encodes(env.dev, env.dev.blocks[b], t, d) && 0 < d <= 4
    requires |Extents(t)| <= MAX_COLLECTED && AnyWritten(Extents(t))
    ensures AllUsable(Extents(t), env.dev.Total())
  {
    RootCollects(env.dev, env.dev.blocks[b], t, d, {});
    SortedUsable(env, env.dev.blocks[b], {});
  }

  lemma NewTree(env: Env, s: Rec, b: nat, t: Tree, d: nat)
    requires EnvOk(env) && b < env.dev.Total() && b !in s.marked
    requires Encodes(env.dev, env.dev.blocks[b], t, d) && 0 < d <= 4
    requires DisjointLogical(Extents(t)) && |Extents(t)| <= MAX_COLLECTED && AnyWritten(Extents(t))
    requires env.Arrives(FromTree(b), |Extents(t)|) && AllUsable(Extents(t), env.dev.Total())
    ensures var (s', ok) := Visit(env, s, b);
      && (ok <==> !CoveredBy(Extents(t), s.covered))
      && (ok ==> FromTree(b) in s'.files &&
                 forall l: nat :: HasContent(env.dev, s'.files[FromTree(b)], Extents(t), l))
  {
    if CoveredBy(Extents(t), s.covered) {
      CoveredTree(env, s, b, t, d);
    } else {
      TreeRecovered(env, s, b, t, d, 0);
      var file := Visit(env, s, b).0.files[FromTree(b)];
      forall l: nat ensures HasContent(env.dev, file, Extents(t), l) {
        TreeRecovered(env, s, b, t, d, l);
      }
    }
  }

  /** The same for a leaf without an index above it, whose file has the content the leaf denotes if and only if nothing
      is misread. */
  lemma LeafInScan(env: Env, s0: Rec, start: nat, b: nat, exts: seq<Extent>)
    requires EnvOk(env) && start <= b < env.dev.Total()
    requires Encodes(env.dev, env.dev.blocks[b], Leaf(exts), 0) && DisjointLogical(exts) && AnyWritten(exts)
    requires env.Arrives(FromLeaf(b), |exts|)
    ensures AllUsable(exts, env.dev.Total())
    ensures var (s', ok) := Visit(env, StateAt(env, s0, start, b), b);
      && StateAt(env, s0, start, b + 1) == s'
      && (ok <==> New(env, s0, start, b) && !CoveredBy(exts, StateAt(env, s0, start, b).covered))
      && (ok ==> FromLeaf(b) in s'.files &&
                 ((forall l: nat :: HasContent(env.dev, s'.files[FromLeaf(b)], exts, l)) <==>
                  NothingMisread(exts, env.dev.Total())))
  {
    StateStep(env, s0, start, b + 1);
    if New(env, s0, start, b) {
      KnownExactly(env, s0, start, b);
      NewLeaf(env, StateAt(env, s0, start, b), b, exts);
    } else {
      KnownIsPassed(env, s0, start, b);
    }
  }

  lemma NewLeaf(env: Env, s: Rec, b: nat, exts: seq<Extent>)
    requires EnvOk(env) && b < env.dev.Total() && b !in s.marked
    requires Encodes(env.dev, env.dev.blocks[b], Leaf(exts), 0) && DisjointLogical(exts) && AnyWritten(exts)
    requires env.Arrives(FromLeaf(b), |exts|)
    ensures AllUsable(exts, env.dev.Total())
    ensures var (s', ok) := Visit(env, s, b);
      && (ok <==> !CoveredBy(exts, s.covered))
      && (ok ==> FromLeaf(b) in s'.files &&
                 ((forall l: nat :: HasContent(env.dev, s'.files[FromLeaf(b)], exts, l)) <==>
                  NothingMisread(exts, env.dev.Total())))
  {
    if CoveredBy(exts, s.covered) {
      CandidatesAreEntries(env.dev, env.dev.blocks[b], exts, |exts|);
      assert exts[..|exts|] == exts;
    } else {
      LeafRecovered(env, s, b, exts);
    }
  }

  lemma CoveredTree(env: Env, s: Rec, b: nat, t: Tree, d: nat)
    requires EnvOk(env) && b < env.dev.Total() && Encodes(env.dev, env.dev.blocks[b], t, d) && 0 < d <= 4
    requires |Extents(t)| <= MAX_COLLECTED && Extents(t) != [] && CoveredBy(Extents(t), s.covered)
    ensures AllUsable(Extents(t), env.dev.Total()) && !Visit(env, s, b).1 && Visit(env, s, b).0.files == s.files
  {
    RootCollects(env.dev, env.dev.blocks[b], t, d, s.marked);
    SortedUsable(env, env.dev.blocks[b], s.marked);
    SamePermuted(Extents(t), env.sort(Extents(t)), s.covered);
  }

  // ----- trees whose leaves come first -----

  ghost predicate AllWritten(exts: seq<Extent>) {
    forall i | 0 <= i < |exts| :: !exts[i].unwritten
  }

  lemma {:induction false} WrittenCovers(exts: seq<Extent>, fate: nat -> Option<nat>, i: nat)
    requires AllWritten(exts) && i < |exts| && forall k: nat | k < |exts| :: fate(k).None?
    ensures Range(exts[i].phys, exts[i].len) <= PhysBlocks(exts, fate)
  {
    var m := |exts| - 1;
    if i < m { WrittenCovers(exts[..m], fate, i); }
  }

  lemma {:induction false} WrittenAsDumped(exts: seq<Extent>, total: nat, k: nat)
    requires AllWritten(exts) && AllUsable(exts, total) && k <= |exts|
    ensures AsDumped(exts[..k], total) == exts[..k]
  {
    if k > 0 {
      WrittenAsDumped(exts, total, k - 1);
      AsDumpedNext(exts, total, k - 1);
    }
  }

  lemma {:induction false} AsDumpedNext(exts: seq<Extent>, total: nat, k: nat)
    requires k < |exts| && !exts[k].unwritten && Usable(exts[k], total)
    ensures AsDumped(exts[..k + 1], total) == AsDumped(exts[..k], total) + [exts[k]]
  {
    assert exts[..k + 1][..k] == exts[..k];
    assert AsRead(exts[k]) == exts[k];
  }

  /** Once a leaf of written extents has been visited, its extents are covered. */
  lemma LeafCovers(env: Env, s: Rec, c: nat, exts: seq<Extent>)
    requires EnvOk(env) && c < env.dev.Total() && c !in s.marked && env.Arrives(FromLeaf(c), |exts|)
    requires Encodes(env.dev, env.dev.blocks[c], Leaf(exts), 0) && AllWritten(exts)
    ensures CoveredBy(exts, Visit(env, s, c).0.covered)
  {
    var buf := env.dev.blocks[c];
    assert exts[..|exts|] == exts;
    RawIsAsDumped(env.dev, buf, exts, |exts|);
    WrittenAsDumped(exts, env.dev.Total(), |exts|);
    CandidatesAreEntries(env.dev, buf, exts, |exts|);
    VisitCopies(env, s, c);
    if !CoveredBy(exts, s.covered) {
      forall i | 0 <= i < |exts| ensures Range(exts[i].phys, exts[i].len) <= Visit(env, s, c).0.covered {
        WrittenCovers(exts, env.Fate(FromLeaf(c)), i);
      }
    }
  }

  lemma LeafCoveredLater(env: Env, s0: Rec, start: nat, c: nat, b: nat, exts: seq<Extent>)
    requires EnvOk(env) && start <= c < b && c < env.dev.Total() && New(env, s0, start, c)
    requires Encodes(env.dev, env.dev.blocks[c], Leaf(exts), 0) && AllWritten(exts)
    requires env.Arrives(FromLeaf(c), |exts|)
    ensures CoveredBy(exts, StateAt(env, s0, start, b).covered)
  {
    KnownExactly(env, s0, start, c);
    LeafCovers(env, StateAt(env, s0, start, c), c, exts);
    StateStep(env, s0, start, c + 1);
    CoveredGrows(env, s0, start, c + 1, b);
  }

  /** Every leaf of the tree lies below block `b`, holds written extents only, and is new when the scan comes to it. */
  ghost predicate LeavesFirst(env: Env, s0: Rec, start: nat, b: nat, t: Tree)
    requires EnvOk(env) && t.Node?
    decreases t
  {
    forall i | 0 <= i < |t.children| ::
      var c := t.children[i].block;
      match t.children[i].sub
      case Leaf(exts) =>
        && start <= c < b && New(env, s0, start, c)
        && AllWritten(exts) && env.Arrives(FromLeaf(c), |exts|)
      case Node(_) => LeavesFirst(env, s0, start, b, t.children[i].sub)
  }

  lemma {:induction false} LeavesCoverTree(env: Env, s0: Rec, start: nat, b: nat, buf: Block, t: Tree, d: nat, i: nat)
    requires EnvOk(env) && start <= b && t.Node? && Encodes(env.dev, buf, t, d) && LeavesFirst(env, s0, start, b, t)
    requires i <= |t.children|
    ensures CoveredBy(ExtentsFrom(t, i), StateAt(env, s0, start, b).covered)
    decreases t, |t.children| - i
  {
    if i < |t.children| {
      var c, covered := t.children[i], StateAt(env, s0, start, b).covered;
      LeavesCoverTree(env, s0, start, b, buf, t, d, i + 1);
      match c.sub {
        case Leaf(exts) => LeafCoveredLater(env, s0, start, c.block, b, exts);
        case Node(_) => LeavesCoverTree(env, s0, start, b, env.dev.blocks[c.block], c.sub, d - 1, 0);
      }
      CoveredAppend(Extents(c.sub), ExtentsFrom(t, i + 1), covered);
    }
  }

  lemma CoveredAppend(x: seq<Extent>, y: seq<Extent>, covered: set<nat>)
    requires CoveredBy(x, covered) && CoveredBy(y, covered)
    ensures CoveredBy(x + y, covered)
  {
  }

  /** A tree all of whose leaves the scan meets before the root is never put together: the leaves have been dumped one
      by one, and the root finds nothing left to copy. */
  lemma LeavesFirstNoTree(env: Env, s0: Rec, start: nat, b: nat, t: Tree, d: nat)
    requires EnvOk(env) && start <= b < env.dev.Total() && t.Node? && LeavesFirst(env, s0, start, b, t)
    requires Encodes(env.dev, env.dev.blocks[b], t, d) && 0 < d <= 4
    requires |Extents(t)| <= MAX_COLLECTED && Extents(t) != []
    ensures StateAt(env, s0, start, b + 1).files == StateAt(env, s0, start, b).files
  {
    LeavesCoverTree(env, s0, start, b, env.dev.blocks[b], t, d, 0);
    CoveredTree(env, StateAt(env, s0, start, b), b, t, d);
  }
}
