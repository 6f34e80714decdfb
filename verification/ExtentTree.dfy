/** Extent blocks on disk and the walk that gathers the leaf extents of an orphaned tree
    (improved/extent_validator_v5.c:18-65, improved/aggressive_scan_v5.c:102-233). */
module ExtentTree {
  import opened Bytes
  import opened Collections
  import BlockSet

  const EXT_MAGIC: nat := 0xF30A
  const HEADER: nat := 12
  const ENTRY: nat := 12
  const MAX_TREE_DEPTH: nat := 5
  const MAX_COLLECTED: nat := 65536
  const UNWRITTEN: nat := 32768

  type Block = seq<byte>

  datatype Device = Device(bs: nat, blocks: seq<Block>)
  {
    ghost predicate Valid() {
      HEADER <= bs && forall b | 0 <= b < |blocks| :: |blocks[b]| == bs
    }

    function Total(): nat { |blocks| }
  }

  datatype Extent = Extent(logical: nat, len: nat, phys: nat, unwritten: bool)

  // ----- headers and entries -----

  /** Leaf and index entries have the same size. */
  function MaxEntries(bs: nat): nat
    requires HEADER <= bs
  {
    (bs - HEADER) / ENTRY
  }

  predicate HasMagic(buf: Block)
    requires HEADER <= |buf|
  {
    Le16(buf, 0) == EXT_MAGIC
  }

  function Entries(buf: Block): nat
    requires HEADER <= |buf|
  {
    Le16(buf, 2)
  }

  function Depth(buf: Block): nat
    requires HEADER <= |buf|
  {
    Le16(buf, 6)
  }

  predicate ValidHeader(buf: Block)
    requires HEADER <= |buf|
  {
    && HasMagic(buf)
    && Depth(buf) <= 5
    && Le16(buf, 4) <= MaxEntries(|buf|)
    && Entries(buf) <= Le16(buf, 4)
  }

  predicate InBlock(buf: Block, i: nat) {
    HEADER + ENTRY * i + ENTRY <= |buf|
  }

  /** A valid header keeps every entry inside the block. */
  lemma EntriesInBlock(buf: Block, i: nat)
    requires HEADER <= |buf| && ValidHeader(buf) && i < Entries(buf)
    ensures InBlock(buf, i)
  {
  }

  function RawLen(buf: Block, i: nat): nat
    requires InBlock(buf, i)
  {
    Le16(buf, HEADER + ENTRY * i + 4)
  }

  /** Entry `i` of a leaf; lengths above 32768 mean an unwritten extent. */
  function ExtentAt(buf: Block, i: nat): Extent
    requires InBlock(buf, i)
  {
    var p := HEADER + ENTRY * i;
    var raw := RawLen(buf, i);
    Extent(Le32(buf, p), if raw > UNWRITTEN then raw - UNWRITTEN else raw,
           Le16(buf, p + 6) * 0x1_0000_0000 + Le32(buf, p + 8), raw > UNWRITTEN)
  }

  /** The block entry `i` of an index node points to. */
  function ChildAt(buf: Block, i: nat): nat
    requires InBlock(buf, i)
  {
    var p := HEADER + ENTRY * i;
    Le16(buf, p + 8) * 0x1_0000_0000 + Le32(buf, p + 4)
  }

  predicate Usable(e: Extent, total: nat) {
    e.len != 0 && e.phys != 0 && e.phys + e.len <= total
  }

  // ----- the walk -----

  datatype Walk = Walk(ok: bool, out: seq<Extent>, marked: set<nat>)

  function WalkLeaf(buf: Block, total: nat, i: nat, out: seq<Extent>, cap: nat): (bool, seq<Extent>)
    requires HEADER <= |buf| && ValidHeader(buf) && i <= Entries(buf)
    decreases Entries(buf) - i
  {
    if i == Entries(buf) then (true, out)
    else
      EntriesInBlock(buf, i);
      var e := ExtentAt(buf, i);
      if !Usable(e, total) then WalkLeaf(buf, total, i + 1, out, cap)
      else if |out| >= cap then (false, out)
      else WalkLeaf(buf, total, i + 1, out + [e], cap)
  }

  function WalkTree(dev: Device, buf: Block, left: nat, out: seq<Extent>, marked: set<nat>, cap: nat): Walk
    requires dev.Valid() && |buf| == dev.bs
    decreases left, 1, 0
  {
    if left == 0 || !ValidHeader(buf) then Walk(false, out, marked)
    else if Depth(buf) == 0 then
      var (ok, out') := WalkLeaf(buf, dev.Total(), 0, out, cap);
      Walk(ok, out', marked)
    else WalkIndex(dev, buf, left, 0, out, marked, cap)
  }

  predicate Followed(dev: Device, child: nat)
    requires dev.Valid()
  {
    2 <= child < dev.Total() && HasMagic(dev.blocks[child])
  }

  /** Children that fail are passed over; their siblings still count. */
  function WalkIndex(dev: Device, buf: Block, left: nat, i: nat, out: seq<Extent>, marked: set<nat>, cap: nat): Walk
    requires dev.Valid() && |buf| == dev.bs && ValidHeader(buf) && i <= Entries(buf) && left > 0
    decreases left, 0, Entries(buf) - i
  {
    if i == Entries(buf) then Walk(true, out, marked)
    else
      EntriesInBlock(buf, i);
      var child := ChildAt(buf, i);
      if !Followed(dev, child) then WalkIndex(dev, buf, left, i + 1, out, marked, cap)
      else
        var w := WalkTree(dev, dev.blocks[child], left - 1, out, marked + {child}, cap);
        WalkIndex(dev, buf, left, i + 1, w.out, w.marked, cap)
  }

  /** The walk in place: extents go into `out`, visited children into the recovered-block set. */
  method WalkExtentTree(dev: Device, buf: Block, left: nat, rb: BlockSet.RecoveredBlocks, out: array<Extent>, n0: nat)
    returns (ok: bool, n: nat)
    requires dev.Valid() && |buf| == dev.bs && rb.Valid() && n0 <= out.Length
    modifies rb, rb.keys, out
    decreases left, 1
    ensures rb.Valid() && (rb.keys == old(rb.keys) || fresh(rb.keys)) && n <= out.Length
    ensures WalkTree(dev, buf, left, old(out[..n0]), old(rb.Set()), out.Length) == Walk(ok, out[..n], rb.Set())
  {
    n := n0;
    if left == 0 || !ValidHeader(buf) {
      return false, n;
    }
    if Depth(buf) == 0 {
      ok, n := AppendLeaf(dev, buf, out, n0);
      return;
    }
    ghost var goal := WalkTree(dev, buf, left, out[..n0], rb.Set(), out.Length);
    for i := 0 to Entries(buf)
      invariant rb.Valid() && (rb.keys == old(rb.keys) || fresh(rb.keys)) && n <= out.Length
      invariant goal == WalkIndex(dev, buf, left, i, out[..n], rb.Set(), out.Length)
    {
      n := WalkChild(dev, buf, left, i, rb, out, n);
    }
    ok := true;
  }

  /** One turn of the loop over an index block. */
  method WalkChild(dev: Device, buf: Block, left: nat, i: nat, rb: BlockSet.RecoveredBlocks, out: array<Extent>,
                   n0: nat)
    returns (n: nat)
    requires dev.Valid() && |buf| == dev.bs && ValidHeader(buf) && i < Entries(buf) && left > 0
    requires rb.Valid() && n0 <= out.Length
    modifies rb, rb.keys, out
    decreases left, 0
    ensures rb.Valid() && (rb.keys == old(rb.keys) || fresh(rb.keys)) && n <= out.Length
    ensures WalkIndex(dev, buf, left, i + 1, out[..n], rb.Set(), out.Length) ==
            WalkIndex(dev, buf, left, i, old(out[..n0]), old(rb.Set()), out.Length)
  {
    n := n0;
    EntriesInBlock(buf, i);
    var child := ChildAt(buf, i);
    if Followed(dev, child) {
      rb.Mark(child, true);
      var ok;
      ok, n := WalkExtentTree(dev, dev.blocks[child], left - 1, rb, out, n0);
    }
  }

  method AppendLeaf(dev: Device, buf: Block, out: array<Extent>, n0: nat) returns (ok: bool, n: nat)
    requires dev.Valid() && |buf| == dev.bs && ValidHeader(buf) && n0 <= out.Length
    modifies out
    ensures n <= out.Length
    ensures WalkLeaf(buf, dev.Total(), 0, old(out[..n0]), out.Length) == (ok, out[..n])
  {
    n := n0;
    ghost var goal := WalkLeaf(buf, dev.Total(), 0, out[..n0], out.Length);
    for i := 0 to Entries(buf)
      invariant n <= out.Length
      invariant goal == WalkLeaf(buf, dev.Total(), i, out[..n], out.Length)
    {
      EntriesInBlock(buf, i);
      var e := ExtentAt(buf, i);
      if Usable(e, dev.Total()) {
        if n >= out.Length {
          return false, n;
        }
        ghost var before := out[..n];
        out[n] := e;
        n := n + 1;
        assert out[..n] == before + [e];
      }
    }
    ok := true;
  }

  // ----- any device content whatever -----

  /** What a walk may add: usable extents, never beyond the cap. */
  ghost predicate Sound(dev: Device, cap: nat, before: seq<Extent>, after: seq<Extent>) {
    && before <= after
    && |after| <= (if |before| <= cap then cap else |before|)
    && forall i | |before| <= i < |after| :: Usable(after[i], dev.Total())
  }

  lemma {:induction false} LeafSound(dev: Device, buf: Block, i: nat, out: seq<Extent>, cap: nat)
    requires HEADER <= |buf| && ValidHeader(buf) && i <= Entries(buf)
    ensures Sound(dev, cap, out, WalkLeaf(buf, dev.Total(), i, out, cap).1)
    decreases Entries(buf) - i
  {
    if i < Entries(buf) {
      EntriesInBlock(buf, i);
      var e := ExtentAt(buf, i);
      if !Usable(e, dev.Total()) {
        LeafSound(dev, buf, i + 1, out, cap);
      } else if |out| < cap {
        LeafSound(dev, buf, i + 1, out + [e], cap);
      }
    }
  }

  /** Garbage or cyclic pointers can neither overrun the array nor bring in an extent outside the device,
      and only blocks inside the device are marked. */
  lemma {:induction false} WalkSound(dev: Device, buf: Block, left: nat, out: seq<Extent>, marked: set<nat>, cap: nat)
    requires dev.Valid() && |buf| == dev.bs
    ensures var w := WalkTree(dev, buf, left, out, marked, cap);
      && Sound(dev, cap, out, w.out) && marked <= w.marked
      && forall b | b in w.marked :: b in marked || 2 <= b < dev.Total()
    decreases left, 1, 0
  {
    if left == 0 || !ValidHeader(buf) {
    } else if Depth(buf) == 0 {
      LeafSound(dev, buf, 0, out, cap);
    } else {
      IndexSound(dev, buf, left, 0, out, marked, cap);
    }
  }

  lemma {:induction false} IndexSound(dev: Device, buf: Block, left: nat, i: nat, out: seq<Extent>, marked: set<nat>,
                                      cap: nat)
    requires dev.Valid() && |buf| == dev.bs && ValidHeader(buf) && i <= Entries(buf) && left > 0
    ensures var w := WalkIndex(dev, buf, left, i, out, marked, cap);
      && Sound(dev, cap, out, w.out) && marked <= w.marked
      && forall b | b in w.marked :: b in marked || 2 <= b < dev.Total()
    decreases left, 0, Entries(buf) - i
  {
    if i < Entries(buf) {
      EntriesInBlock(buf, i);
      var child := ChildAt(buf, i);
      if !Followed(dev, child) {
        IndexSound(dev, buf, left, i + 1, out, marked, cap);
      } else {
        WalkSound(dev, dev.blocks[child], left - 1, out, marked + {child}, cap);
        var w := WalkTree(dev, dev.blocks[child], left - 1, out, marked + {child}, cap);
        IndexSound(dev, buf, left, i + 1, w.out, w.marked, cap);
      }
    }
  }

  // ----- well-formed trees -----

  datatype Tree = Leaf(exts: seq<Extent>) | Node(children: seq<Child>)
  /** An index entry: the first logical block below the child, and the child. */
  datatype Child = Child(first: nat, block: nat, sub: Tree)

  /** `buf` is the root of `t`, a tree of uniform depth `d` whose nodes lie in the device. */
  ghost predicate Encodes(dev: Device, buf: Block, t: Tree, d: nat)
    requires dev.Valid()
    decreases t
  {
    && |buf| == dev.bs && ValidHeader(buf) && Depth(buf) == d
    && match t
       case Leaf(exts) =>
         && d == 0 && Entries(buf) == |exts|
         && forall i | 0 <= i < |exts| :: InBlock(buf, i) && ExtentAt(buf, i) == exts[i] && Usable(exts[i], dev.Total())
       case Node(children) =>
         && d > 0 && Entries(buf) == |children|
         && forall i | 0 <= i < |children| ::
              && InBlock(buf, i) && ChildAt(buf, i) == children[i].block && 2 <= children[i].block < dev.Total()
              && Encodes(dev, dev.blocks[children[i].block], children[i].sub, d - 1)
  }

  /** The extents of the leaves, left to right. */
  function Extents(t: Tree): seq<Extent>
    decreases t, 1, 0
  {
    match t
    case Leaf(exts) => exts
    case Node(_) => ExtentsFrom(t, 0)
  }

  function ExtentsFrom(t: Tree, i: nat): seq<Extent>
    requires t.Node? && i <= |t.children|
    decreases t, 0, |t.children| - i
  {
    if i == |t.children| then [] else Extents(t.children[i].sub) + ExtentsFrom(t, i + 1)
  }

  /** All blocks below the root. */
  function NodeBlocks(t: Tree): set<nat>
    decreases t, 1, 0
  {
    if t.Leaf? then {} else NodeBlocksFrom(t, 0)
  }

  function NodeBlocksFrom(t: Tree, i: nat): set<nat>
    requires t.Node? && i <= |t.children|
    decreases t, 0, |t.children| - i
  {
    if i == |t.children| then {}
    else {t.children[i].block} + NodeBlocks(t.children[i].sub) + NodeBlocksFrom(t, i + 1)
  }

  lemma {:induction false} LeafCollects(dev: Device, buf: Block, t: Tree, i: nat, out: seq<Extent>, cap: nat)
    requires dev.Valid() && t.Leaf? && Encodes(dev, buf, t, 0) && i <= Entries(buf) && |out| <= cap
    ensures WalkLeaf(buf, dev.Total(), i, out, cap).1 == Take(out + t.exts[i..], cap)
    ensures WalkLeaf(buf, dev.Total(), i, out, cap).0 <==> |out + t.exts[i..]| <= cap
    decreases Entries(buf) - i
  {
    if i == Entries(buf) {
      assert out + t.exts[i..] == out;
    } else if |out| < cap {
      LeafCollects(dev, buf, t, i + 1, out + [t.exts[i]], cap);
      assert out + t.exts[i..] == out + [t.exts[i]] + t.exts[i + 1..];
    }
  }

  lemma TakeParts<T>(out: seq<T>, a: seq<T>, b: seq<T>, cap: nat)
    ensures Take(Take(out + a, cap) + b, cap) == Take(out + (a + b), cap)
  {
    Reassociate(out, a, b);
    TakeTwice(out + a, b, cap);
  }

  lemma TakeTwice<T>(s: seq<T>, b: seq<T>, cap: nat)
    ensures Take(Take(s, cap) + b, cap) == Take(s + b, cap)
  {
    if |s| > cap {
      assert (s[..cap] + b)[..cap] == s[..cap];
      assert (s + b)[..cap] == s[..cap];
    }
  }

  /** A tree no deeper than the walk reaches is gathered leaf by leaf, in order, up to the cap, and all its blocks
      are marked. */
  lemma {:induction false} WalkCollects(dev: Device, buf: Block, t: Tree, d: nat, left: nat, out: seq<Extent>,
                                        marked: set<nat>, cap: nat)
    requires dev.Valid() && Encodes(dev, buf, t, d) && d < left && |out| <= cap
    ensures var w := WalkTree(dev, buf, left, out, marked, cap);
      w.out == Take(out + Extents(t), cap) && w.marked == marked + NodeBlocks(t)
    decreases t, 1, 0
  {
    if t.Leaf? {
      LeafCollects(dev, buf, t, 0, out, cap);
      assert t.exts[0..] == t.exts;
    } else {
      IndexCollects(dev, buf, t, d, left, 0, out, marked, cap);
    }
  }

  lemma {:induction false} IndexCollects(dev: Device, buf: Block, t: Tree, d: nat, left: nat, i: nat,
                                         out: seq<Extent>, marked: set<nat>, cap: nat)
    requires dev.Valid() && t.Node? && Encodes(dev, buf, t, d) && d < left && i <= Entries(buf) && |out| <= cap
    ensures var w := WalkIndex(dev, buf, left, i, out, marked, cap);
      w.out == Take(out + ExtentsFrom(t, i), cap) && w.marked == marked + NodeBlocksFrom(t, i)
    decreases t, 0, Entries(buf) - i
  {
    if i == Entries(buf) {
      assert out + [] == out;
    } else {
      var c := t.children[i];
      EntriesInBlock(buf, i);
      WalkCollects(dev, dev.blocks[c.block], c.sub, d - 1, left - 1, out, marked + {c.block}, cap);
      var w := WalkTree(dev, dev.blocks[c.block], left - 1, out, marked + {c.block}, cap);
      IndexCollects(dev, buf, t, d, left, i + 1, w.out, w.marked, cap);
      TakeParts(out, Extents(c.sub), ExtentsFrom(t, i + 1), cap);
    }
  }

  /** A tree the walk cannot reach the leaves of yields nothing at all. */
  lemma {:induction false} TooDeepYieldsNothing(dev: Device, buf: Block, t: Tree, d: nat, left: nat, out: seq<Extent>,
                                                marked: set<nat>, cap: nat)
    requires dev.Valid() && Encodes(dev, buf, t, d) && left <= d
    ensures WalkTree(dev, buf, left, out, marked, cap).out == out
    decreases t, 1, 0
  {
    if left > 0 {
      IndexYieldsNothing(dev, buf, t, d, left, 0, out, marked, cap);
    }
  }

  lemma {:induction false} IndexYieldsNothing(dev: Device, buf: Block, t: Tree, d: nat, left: nat, i: nat,
                                              out: seq<Extent>, marked: set<nat>, cap: nat)
    requires dev.Valid() && t.Node? && Encodes(dev, buf, t, d) && 0 < left <= d && i <= Entries(buf)
    ensures WalkIndex(dev, buf, left, i, out, marked, cap).out == out
    decreases t, 0, Entries(buf) - i
  {
    if i < Entries(buf) {
      var c := t.children[i];
      EntriesInBlock(buf, i);
      TooDeepYieldsNothing(dev, dev.blocks[c.block], c.sub, d - 1, left - 1, out, marked + {c.block}, cap);
      var w := WalkTree(dev, dev.blocks[c.block], left - 1, out, marked + {c.block}, cap);
      IndexYieldsNothing(dev, buf, t, d, left, i + 1, w.out, w.marked, cap);
    }
  }

  /** From the root: a tree with extents is gathered in full exactly when it has depth at most 4 and at most 65536
      extents. */
  lemma RootCollects(dev: Device, buf: Block, t: Tree, d: nat, marked: set<nat>)
    requires dev.Valid() && Encodes(dev, buf, t, d) && Extents(t) != []
    ensures WalkTree(dev, buf, MAX_TREE_DEPTH, [], marked, MAX_COLLECTED).out == Extents(t) <==>
            d <= 4 && |Extents(t)| <= MAX_COLLECTED
  {
    if d < MAX_TREE_DEPTH {
      WalkCollects(dev, buf, t, d, MAX_TREE_DEPTH, [], marked, MAX_COLLECTED);
      assert [] + Extents(t) == Extents(t);
    } else {
      TooDeepYieldsNothing(dev, buf, t, d, MAX_TREE_DEPTH, [], marked, MAX_COLLECTED);
    }
  }
}
