/** Which blocks a scan has marked (improved/aggressive_scan_v5.c:60-88, 210-229, 289-293, 326, 384-387, 434, 465-500):
    those an earlier walk followed a pointer to, and those the scan is done with. */
module ScanMarks {
  import opened ExtentTree
  import opened AggressiveScan
  import opened ScanHistory

  // ----- a walk -----

  /** The blocks a walk that starts at `buf` follows pointers to, `left` levels down. */
  function FollowedFrom(dev: Device, buf: Block, left: nat): set<nat>
    requires dev.Valid() && |buf| == dev.bs
    decreases left, 1, 0
  {
    if left == 0 || !ValidHeader(buf) || Depth(buf) == 0 then {} else FollowedIn(dev, buf, left, 0)
  }

  /** The same for the entries from the `i`-th on: a pointer is followed if it leads to a block with extent magic, from
      block 2 on. */
  function FollowedIn(dev: Device, buf: Block, left: nat, i: nat): set<nat>
    requires dev.Valid() && |buf| == dev.bs && ValidHeader(buf) && i <= Entries(buf) && left > 0
    decreases left, 0, Entries(buf) - i
  {
    if i == Entries(buf) then {}
    else
      EntriesInBlock(buf, i);
      var child := ChildAt(buf, i);
      (if 2 <= child < dev.Total() && HasMagic(dev.blocks[child])
       then {child} + FollowedFrom(dev, dev.blocks[child], left - 1) else {})
      + FollowedIn(dev, buf, left, i + 1)
  }

  /** Whatever a walk collects, and even where it gives up, it marks exactly the blocks it followed pointers to. */
  lemma {:induction false} WalkMarks(dev: Device, buf: Block, left: nat, out: seq<Extent>, marked: set<nat>, cap: nat)
    requires dev.Valid() && |buf| == dev.bs
    ensures WalkTree(dev, buf, left, out, marked, cap).marked == marked + FollowedFrom(dev, buf, left)
    decreases left, 1, 0
  {
    if left > 0 && ValidHeader(buf) && Depth(buf) != 0 { IndexMarks(dev, buf, left, 0, out, marked, cap); }
  }

  lemma {:induction false} IndexMarks(dev: Device, buf: Block, left: nat, i: nat, out: seq<Extent>, marked: set<nat>,
                                      cap: nat)
    requires dev.Valid() && |buf| == dev.bs && ValidHeader(buf) && i <= Entries(buf) && left > 0
    ensures WalkIndex(dev, buf, left, i, out, marked, cap).marked == marked + FollowedIn(dev, buf, left, i)
    decreases left, 0, Entries(buf) - i
  {
    if i < Entries(buf) {
      EntriesInBlock(buf, i);
      var child := ChildAt(buf, i);
      if Followed(dev, child) {
        var w := WalkTree(dev, dev.blocks[child], left - 1, out, marked + {child}, cap);
        WalkMarks(dev, dev.blocks[child], left - 1, out, marked + {child}, cap);
        IndexMarks(dev, buf, left, i + 1, w.out, w.marked, cap);
      } else {
        IndexMarks(dev, buf, left, i + 1, out, marked, cap);
      }
    }
  }

  /** In a well-formed tree within reach these are its blocks. */
  lemma TreeIsFollowed(dev: Device, buf: Block, t: Tree, d: nat, left: nat)
    requires dev.Valid() && Encodes(dev, buf, t, d) && d < left
    ensures FollowedFrom(dev, buf, left) == NodeBlocks(t)
  {
    WalkCollects(dev, buf, t, d, left, [], {}, 0);
    WalkMarks(dev, buf, left, [], {}, 0);
  }

  // ----- a visit -----

  /** The visit walks a tree from block `b`. */
  predicate Walks(env: Env, s: Rec, b: nat)
    requires EnvOk(env)
  {
    Examined(env, s, b) && Depth(env.dev.blocks[b]) != 0
  }

  /** What the visit's walk follows pointers to. */
  function FollowedBy(env: Env, s: Rec, b: nat): set<nat>
    requires EnvOk(env)
  {
    if Walks(env, s, b) then FollowedFrom(env.dev, env.dev.blocks[b], 5) else {}
  }

  /** A visit is done with block `b` if it made a file of it or found everything copied already. */
  predicate DoneWith(env: Env, s: Rec, b: nat)
    requires EnvOk(env)
  {
    b != 0 && (Visit(env, s, b).1 || Skips(env, s, b))
  }

  /** The blocks its walk followed pointers to, and the block itself if it is done with it. */
  function Marks(env: Env, s: Rec, b: nat): set<nat>
    requires EnvOk(env)
  {
    FollowedBy(env, s, b) + if DoneWith(env, s, b) then {b} else {}
  }

  /** These a visit marks, and no others. */
  lemma VisitMarks(env: Env, s: Rec, b: nat)
    requires EnvOk(env)
    ensures Visit(env, s, b).0.marked == s.marked + Marks(env, s, b)
  {
    if Examined(env, s, b) {
      if Depth(env.dev.blocks[b]) == 0 { LeafMarks(env, s, b); } else { TreeMarks(env, s, b); }
    }
  }

  lemma LeafMarks(env: Env, s: Rec, b: nat)
    requires EnvOk(env) && Examined(env, s, b) && Depth(env.dev.blocks[b]) == 0
    ensures Visit(env, s, b).0.marked == s.marked + Marks(env, s, b)
  {
  }

  lemma TreeMarks(env: Env, s: Rec, b: nat)
    requires EnvOk(env) && Walks(env, s, b)
    ensures Visit(env, s, b).0.marked == s.marked + Marks(env, s, b)
  {
    var buf := env.dev.blocks[b];
    var w := WalkTree(env.dev, buf, MAX_TREE_DEPTH, [], s.marked, MAX_COLLECTED);
    WalkMarks(env.dev, buf, MAX_TREE_DEPTH, [], s.marked, MAX_COLLECTED);
    SortedUsable(env, buf, s.marked);
    assert w.out != [] ==> env.sort(w.out) != [];
  }

  // ----- a whole scan -----

  ghost function MarksAt(env: Env, s0: Rec, start: nat, b: nat): set<nat>
    requires EnvOk(env)
  {
    StateAt(env, s0, start, b).marked
  }

  ghost function FollowedAt(env: Env, s0: Rec, start: nat, c: nat): set<nat>
    requires EnvOk(env)
  {
    FollowedBy(env, StateAt(env, s0, start, c), c)
  }

  ghost predicate DoneAt(env: Env, s0: Rec, start: nat, c: nat)
    requires EnvOk(env)
  {
    DoneWith(env, StateAt(env, s0, start, c), c)
  }

  /** What the scan's visit of block `c` marks. */
  ghost function NewMarks(env: Env, s0: Rec, start: nat, c: nat): set<nat>
    requires EnvOk(env)
  {
    Marks(env, StateAt(env, s0, start, c), c)
  }

  lemma MarksStep(env: Env, s0: Rec, start: nat, b: nat)
    requires EnvOk(env) && start < b
    ensures MarksAt(env, s0, start, b) == MarksAt(env, s0, start, b - 1) + NewMarks(env, s0, start, b - 1)
  {
    StateStep(env, s0, start, b);
    MarksTo(env, StateAt(env, s0, start, b - 1), b - 1, StateAt(env, s0, start, b));
  }

  lemma MarksTo(env: Env, s: Rec, b: nat, s': Rec)
    requires EnvOk(env) && s' == Visit(env, s, b).0
    ensures s'.marked == s.marked + Marks(env, s, b)
  {
    VisitMarks(env, s, b);
  }

  ghost predicate MarkedSince(env: Env, s0: Rec, start: nat, b: nat, x: nat)
    requires EnvOk(env)
  {
    exists c: nat :: start <= c < b && x in NewMarks(env, s0, start, c)
  }

  lemma {:induction false} MarkedIfSince(env: Env, s0: Rec, start: nat, b: nat, x: nat)
    requires EnvOk(env) && start <= b
    ensures x in MarksAt(env, s0, start, b) <==> x in s0.marked || MarkedSince(env, s0, start, b, x)
    decreases b
  {
    if start < b {
      MarkedIfSince(env, s0, start, b - 1, x);
      MarksStep(env, s0, start, b);
      SinceStep(env, s0, start, b, x);
    }
  }

  lemma SinceStep(env: Env, s0: Rec, start: nat, b: nat, x: nat)
    requires EnvOk(env) && start < b
    ensures MarkedSince(env, s0, start, b, x) <==>
            MarkedSince(env, s0, start, b - 1, x) || x in NewMarks(env, s0, start, b - 1)
  {
  }

  /** Some walk of the scan before block `b` followed a pointer to block `x`. */
  ghost predicate FollowedBefore(env: Env, s0: Rec, start: nat, b: nat, x: nat)
    requires EnvOk(env)
  {
    exists c: nat :: start <= c < b && x in FollowedAt(env, s0, start, c)
  }

  /** When the scan comes to block `b`, the marked blocks are those marked at the start, those an earlier walk followed
      a pointer to, and those it is done with. */
  lemma MarkedExactly(env: Env, s0: Rec, start: nat, b: nat, x: nat)
    requires EnvOk(env) && start <= b
    ensures x in StateAt(env, s0, start, b).marked <==>
            || x in s0.marked || FollowedBefore(env, s0, start, b, x)
            || (start <= x < b && DoneAt(env, s0, start, x))
  {
    MarkedIfSince(env, s0, start, b, x);
    if c: nat :| start <= c < b && x in NewMarks(env, s0, start, c) {
      assert x in FollowedAt(env, s0, start, c) || (x == c && DoneAt(env, s0, start, c));
    }
    if c: nat :| start <= c < b && x in FollowedAt(env, s0, start, c) { assert x in NewMarks(env, s0, start, c); }
    if start <= x < b && DoneAt(env, s0, start, x) { assert x in NewMarks(env, s0, start, x); }
  }

  /** So block `b` is passed over as known if and only if it was at the start, or an earlier walk followed a pointer to
      it: that its neighbours were recovered does not matter. */
  lemma KnownExactly(env: Env, s0: Rec, start: nat, b: nat)
    requires EnvOk(env) && start <= b
    ensures b in StateAt(env, s0, start, b).marked <==> b in s0.marked || FollowedBefore(env, s0, start, b, b)
  {
    MarkedExactly(env, s0, start, b, b);
  }

  // ----- how many files -----

  function BlockOfFile(f: Output): nat {
    match f case FromTree(b) => b case FromLeaf(b) => b
  }

  /** A state with as many files as recoveries counted, all of blocks below `b`. */
  ghost predicate Counted(s: Rec, start: nat, found: nat, b: nat) {
    |s.files| == found && s.emitted == start + found && forall f | f in s.files :: BlockOfFile(f) < b
  }

  ghost function FoundAt(env: Env, s0: Rec, start: nat, b: nat): nat
    requires EnvOk(env)
  {
    SerialScan(env, s0, start, b).1
  }

  /** Over a scan that starts without files, the recoveries it reports and those it counts are as many as there are
      files, one for each block that was recovered. */
  lemma {:induction false} FilesCounted(env: Env, s0: Rec, start: nat, b: nat)
    requires EnvOk(env) && s0.files == map[] && start <= b
    ensures Counted(StateAt(env, s0, start, b), s0.emitted, FoundAt(env, s0, start, b), b)
    decreases b
  {
    if start < b {
      FilesCounted(env, s0, start, b - 1);
      CountStep(env, s0, start, b);
      FileCounted(env, StateAt(env, s0, start, b - 1), b - 1, s0.emitted, FoundAt(env, s0, start, b - 1),
                  StateAt(env, s0, start, b), FoundAt(env, s0, start, b));
    }
  }

  lemma CountStep(env: Env, s0: Rec, start: nat, b: nat)
    requires EnvOk(env) && start < b
    ensures var (s, ok) := Visit(env, StateAt(env, s0, start, b - 1), b - 1);
      && StateAt(env, s0, start, b) == s
      && FoundAt(env, s0, start, b) == FoundAt(env, s0, start, b - 1) + if ok then 1 else 0
  {
    SerialScanStep(env, s0, start, b - 1);
  }

  lemma FileCounted(env: Env, s: Rec, b: nat, start: nat, found: nat, s': Rec, found': nat)
    requires EnvOk(env) && Counted(s, start, found, b) && s' == Visit(env, s, b).0
    requires found' == found + if Visit(env, s, b).1 then 1 else 0
    ensures Counted(s', start, found', b + 1)
  {
    VisitEmits(env, s, b);
    VisitAddsFile(env, s, b, s', Visit(env, s, b).1);
    if Visit(env, s, b).1 { OneMore(s.files, FileOf(env, b), s'.files[FileOf(env, b)]); }
  }

  lemma VisitEmits(env: Env, s: Rec, b: nat)
    requires EnvOk(env)
    ensures Visit(env, s, b).0.emitted == s.emitted + if Visit(env, s, b).1 then 1 else 0
  {
  }

  lemma VisitAddsFile(env: Env, s: Rec, b: nat, s': Rec, ok: bool)
    requires EnvOk(env) && (s', ok) == Visit(env, s, b)
    ensures if !ok then s'.files == s.files
            else b < env.dev.Total() && BlockOfFile(FileOf(env, b)) == b && FileOf(env, b) in s'.files &&
                 s'.files == s.files[FileOf(env, b) := s'.files[FileOf(env, b)]]
  {
    VisitCopies(env, s, b);
  }

  lemma OneMore<K, V>(m: map<K, V>, k: K, v: V)
    requires k !in m
    ensures |m[k := v]| == |m| + 1
  {
    assert m[k := v].Keys == m.Keys + {k};
    assert |m[k := v].Keys| == |m.Keys| + 1;
  }
}
