/** Extent blocks given by their bytes (improved/extent_validator_v5.c:18-65, improved/aggressive_scan_v5.c:166-229,
    239-335, 340-442): what ext4 writes, and what walk, visit and scan make of it. */
module WrittenTrees {
  import opened Bytes
  import opened Collections
  import opened Intervals
  import opened ExtentTree
  import opened Reconstruct
  import opened AggressiveScan
  import opened ScanHistory
  import opened ScanTrees

  // ----- the bytes -----

  /** Magic 0xf30a, number of entries, room for entries, depth, generation. */
  function PutHeader(entries: nat, max: nat, depth: nat, generation: nat): (s: seq<byte>)
    requires entries < 0x1_0000 && max < 0x1_0000 && depth < 0x1_0000 && generation < 0x1_0000_0000
    ensures |s| == 12
  {
    [0x0a, 0xf3] + (PutLe16(entries) + (PutLe16(max) + (PutLe16(depth) + PutLe32(generation))))
  }

  /** A leaf entry: logical block, length as it is stored, and physical block in 16 high and 32 low bits. */
  datatype Slot = Slot(logical: nat, raw: nat, phys: nat)
  {
    predicate Fits() { logical < 0x1_0000_0000 && raw < 0x1_0000 && phys < 0x1_0000_0000_0000 }
  }

  function PutSlot(e: Slot): (s: seq<byte>)
    requires e.Fits()
    ensures |s| == 12
  {
    PutLe32(e.logical) + (PutLe16(e.raw) + (PutLe16(e.phys / 0x1_0000_0000) + PutLe32(e.phys % 0x1_0000_0000)))
  }

  /** An index entry: first logical block, and the child in 32 low and 16 high bits. */
  function PutIndex(first: nat, child: nat): (s: seq<byte>)
    requires first < 0x1_0000_0000 && child < 0x1_0000_0000_0000
    ensures |s| == 12
  {
    PutLe32(first) + (PutLe32(child % 0x1_0000_0000) + (PutLe16(child / 0x1_0000_0000) + [0, 0]))
  }

  ghost predicate SlotsFit(es: seq<Slot>) {
    forall i | 0 <= i < |es| :: es[i].Fits()
  }

  function PutSlots(es: seq<Slot>): (s: seq<byte>)
    requires SlotsFit(es)
    ensures |s| == 12 * |es|
  {
    if es == [] then [] else PutSlots(es[..|es| - 1]) + PutSlot(es[|es| - 1])
  }

  ghost predicate ChildrenFit(cs: seq<Child>) {
    forall i | 0 <= i < |cs| :: cs[i].first < 0x1_0000_0000 && cs[i].block < 0x1_0000_0000_0000
  }

  function PutChildren(cs: seq<Child>): (s: seq<byte>)
    requires ChildrenFit(cs)
    ensures |s| == 12 * |cs|
  {
    if cs == [] then [] else PutChildren(cs[..|cs| - 1]) + PutIndex(cs[|cs| - 1].first, cs[|cs| - 1].block)
  }

  /** The block begins with these entries under a header of this depth; the header's room for entries fits the block. */
  ghost predicate Begins(buf: Block, depth: nat, n: nat, body: seq<byte>) {
    exists max: nat, gen: nat ::
      && n <= max < 0x1_0000 && 12 + 12 * max <= |buf| && gen < 0x1_0000_0000 && depth <= 5
      && PutHeader(n, max, depth, gen) + body <= buf
  }

  ghost predicate HoldsLeaf(buf: Block, es: seq<Slot>) {
    SlotsFit(es) && Begins(buf, 0, |es|, PutSlots(es))
  }

  ghost predicate HoldsIndex(buf: Block, cs: seq<Child>, depth: nat) {
    ChildrenFit(cs) && depth > 0 && Begins(buf, depth, |cs|, PutChildren(cs))
  }

  // ----- reading them -----

  lemma MaxFits(max: nat, bs: nat)
    requires 12 + 12 * max <= bs
    ensures max <= (bs - 12) / 12
  {
  }

  lemma HeaderRead(buf: Block, n: nat, max: nat, depth: nat, gen: nat)
    requires n <= max < 0x1_0000 && 12 + 12 * max <= |buf| && gen < 0x1_0000_0000 && depth <= 5
    requires StandsAt(buf, 0, PutHeader(n, max, depth, gen))
    ensures ValidHeader(buf) && HasMagic(buf) && Entries(buf) == n && Depth(buf) == depth
  {
    StandsPart(buf, 0, [0x0a, 0xf3], PutLe16(n) + (PutLe16(max) + (PutLe16(depth) + PutLe32(gen))));
    StandsPart(buf, 2, PutLe16(n), PutLe16(max) + (PutLe16(depth) + PutLe32(gen)));
    StandsPart(buf, 4, PutLe16(max), PutLe16(depth) + PutLe32(gen));
    StandsPart(buf, 6, PutLe16(depth), PutLe32(gen));
    StandsBytes(buf, 0, [0x0a, 0xf3]);
    ReadsLe16(buf, 2, n);
    ReadsLe16(buf, 4, max);
    ReadsLe16(buf, 6, depth);
    MaxFits(max, |buf|);
  }

  lemma BlockRead(buf: Block, depth: nat, n: nat, body: seq<byte>)
    requires Begins(buf, depth, n, body)
    ensures 12 <= |buf| && ValidHeader(buf) && HasMagic(buf) && Entries(buf) == n && Depth(buf) == depth
    ensures StandsAt(buf, 12, body)
  {
    var max: nat, gen: nat :|
      && n <= max < 0x1_0000 && 12 + 12 * max <= |buf| && gen < 0x1_0000_0000 && depth <= 5
      && PutHeader(n, max, depth, gen) + body <= buf;
    PrefixStands(buf, [], PutHeader(n, max, depth, gen) + body);
    StandsPart(buf, 0, PutHeader(n, max, depth, gen), body);
    HeaderRead(buf, n, max, depth, gen);
  }

  lemma {:induction false} SlotStands(es: seq<Slot>, i: nat)
    requires SlotsFit(es) && i < |es|
    ensures StandsAt(PutSlots(es), 12 * i, PutSlot(es[i]))
  {
    var m := |es| - 1;
    if i < m { SlotStands(es[..m], i); }
  }

  lemma {:induction false} ChildStands(cs: seq<Child>, i: nat)
    requires ChildrenFit(cs) && i < |cs|
    ensures StandsAt(PutChildren(cs), 12 * i, PutIndex(cs[i].first, cs[i].block))
  {
    var m := |cs| - 1;
    if i < m { ChildStands(cs[..m], i); }
  }

  lemma SplitAddress(a: nat)
    requires a < 0x1_0000_0000_0000
    ensures a / 0x1_0000_0000 < 0x1_0000 && a == a / 0x1_0000_0000 * 0x1_0000_0000 + a % 0x1_0000_0000
  {
  }

  /** The extent a stored length stands for. */
  function Meaning(e: Slot): Extent {
    Extent(e.logical, if e.raw > 32768 then e.raw - 32768 else e.raw, e.phys, e.raw > 32768)
  }

  lemma SlotRead(buf: Block, i: nat, e: Slot)
    requires e.Fits() && StandsAt(buf, 12 + 12 * i, PutSlot(e))
    ensures InBlock(buf, i) && RawLen(buf, i) == e.raw && ExtentAt(buf, i) == Meaning(e)
  {
    var p, hi, lo := 12 + 12 * i, e.phys / 0x1_0000_0000, e.phys % 0x1_0000_0000;
    SplitAddress(e.phys);
    StandsPart(buf, p, PutLe32(e.logical), PutLe16(e.raw) + (PutLe16(hi) + PutLe32(lo)));
    StandsPart(buf, p + 4, PutLe16(e.raw), PutLe16(hi) + PutLe32(lo));
    StandsPart(buf, p + 6, PutLe16(hi), PutLe32(lo));
    ReadsLe32(buf, p, e.logical);
    ReadsLe16(buf, p + 4, e.raw);
    ReadsLe16(buf, p + 6, hi);
    ReadsLe32(buf, p + 8, lo);
  }

  lemma IndexRead(buf: Block, i: nat, first: nat, child: nat)
    requires first < 0x1_0000_0000 && child < 0x1_0000_0000_0000
    requires StandsAt(buf, 12 + 12 * i, PutIndex(first, child))
    ensures InBlock(buf, i) && ChildAt(buf, i) == child
  {
    var p, hi, lo := 12 + 12 * i, child / 0x1_0000_0000, child % 0x1_0000_0000;
    SplitAddress(child);
    StandsPart(buf, p, PutLe32(first), PutLe32(lo) + (PutLe16(hi) + [0, 0]));
    StandsPart(buf, p + 4, PutLe32(lo), PutLe16(hi) + [0, 0]);
    StandsPart(buf, p + 8, PutLe16(hi), [0, 0]);
    ReadsLe32(buf, p + 4, lo);
    ReadsLe16(buf, p + 8, hi);
  }

  lemma LeafRead(buf: Block, es: seq<Slot>)
    requires HoldsLeaf(buf, es)
    ensures 12 <= |buf| && ValidHeader(buf) && HasMagic(buf) && Entries(buf) == |es| && Depth(buf) == 0
    ensures forall i | 0 <= i < |es| ::
              InBlock(buf, i) && RawLen(buf, i) == es[i].raw && ExtentAt(buf, i) == Meaning(es[i])
  {
    BlockRead(buf, 0, |es|, PutSlots(es));
    forall i | 0 <= i < |es|
      ensures InBlock(buf, i) && RawLen(buf, i) == es[i].raw && ExtentAt(buf, i) == Meaning(es[i])
    {
      SlotStands(es, i);
      StandsWithin(buf, 12, PutSlots(es), 12 * i, PutSlot(es[i]));
      SlotRead(buf, i, es[i]);
    }
  }

  lemma IndexBlockRead(buf: Block, cs: seq<Child>, depth: nat)
    requires HoldsIndex(buf, cs, depth)
    ensures 12 <= |buf| && ValidHeader(buf) && HasMagic(buf) && Entries(buf) == |cs| && Depth(buf) == depth
    ensures forall i | 0 <= i < |cs| :: InBlock(buf, i) && ChildAt(buf, i) == cs[i].block
  {
    BlockRead(buf, depth, |cs|, PutChildren(cs));
    forall i | 0 <= i < |cs| ensures InBlock(buf, i) && ChildAt(buf, i) == cs[i].block {
      ChildStands(cs, i);
      StandsWithin(buf, 12, PutChildren(cs), 12 * i, PutIndex(cs[i].first, cs[i].block));
      IndexRead(buf, i, cs[i].first, cs[i].block);
    }
  }

  // ----- trees -----

  /** How an extent is stored: 32768 is added to the length of an unwritten one. */
  function Stored(e: Extent): Slot {
    Slot(e.logical, e.len + if e.unwritten then 32768 else 0, e.phys)
  }

  function AllStored(exts: seq<Extent>): seq<Slot> {
    seq(|exts|, i requires 0 <= i < |exts| => Stored(exts[i]))
  }

  /** An extent that can be stored and lies in a device of `total` blocks. */
  predicate Storable(e: Extent, total: nat) {
    && e.logical < 0x1_0000_0000 && 0 < e.len <= (if e.unwritten then 32767 else 32768)
    && 0 < e.phys < 0x1_0000_0000_0000 && e.phys + e.len <= total
  }

  /** Block `b` of the device is the root of `t`, written byte for byte. */
  ghost predicate WrittenAt(dev: Device, b: nat, t: Tree, d: nat)
    decreases t
  {
    && b < dev.Total()
    && match t
       case Leaf(exts) =>
         && d == 0 && (forall i | 0 <= i < |exts| :: Storable(exts[i], dev.Total()))
         && HoldsLeaf(dev.blocks[b], AllStored(exts))
       case Node(children) =>
         && HoldsIndex(dev.blocks[b], children, d)
         && forall i | 0 <= i < |children| ::
              2 <= children[i].block && d > 0 && WrittenAt(dev, children[i].block, children[i].sub, d - 1)
  }

  lemma StoredMeans(e: Extent, total: nat)
    requires Storable(e, total)
    ensures Stored(e).Fits() && Meaning(Stored(e)) == e && Usable(e, total)
  {
  }

  /** A tree so written is the tree the walk sees. */
  lemma {:induction false} WrittenEncodes(dev: Device, b: nat, t: Tree, d: nat)
    requires dev.Valid() && WrittenAt(dev, b, t, d)
    ensures Encodes(dev, dev.blocks[b], t, d)
    decreases t
  {
    match t
    case Leaf(exts) => LeafEncodes(dev, b, exts);
    case Node(children) =>
      IndexBlockRead(dev.blocks[b], children, d);
      forall i | 0 <= i < |children|
        ensures 2 <= children[i].block < dev.Total() &&
                Encodes(dev, dev.blocks[children[i].block], children[i].sub, d - 1)
      {
        WrittenEncodes(dev, children[i].block, children[i].sub, d - 1);
      }
  }

  lemma LeafEncodes(dev: Device, b: nat, exts: seq<Extent>)
    requires dev.Valid() && WrittenAt(dev, b, Leaf(exts), 0)
    ensures Encodes(dev, dev.blocks[b], Leaf(exts), 0)
  {
    LeafRead(dev.blocks[b], AllStored(exts));
    forall i | 0 <= i < |exts| ensures ExtentAt(dev.blocks[b], i) == exts[i] && Usable(exts[i], dev.Total()) {
      StoredMeans(exts[i], dev.Total());
    }
  }

  // ----- what comes back -----

  ghost predicate NoOverlap(exts: seq<Extent>) {
    forall i, j | 0 <= i < j < |exts| ::
      exts[i].logical + exts[i].len <= exts[j].logical || exts[j].logical + exts[j].len <= exts[i].logical
  }

  /** Extent `i` is written and says where logical block `l` is. */
  predicate Locates(exts: seq<Extent>, i: nat, l: nat) {
    i < |exts| && !exts[i].unwritten && exts[i].logical <= l < exts[i].logical + exts[i].len
  }

  /** The file has, block for block, what the extents say, and nothing else. */
  ghost predicate IsFile(dev: Device, f: Image, exts: seq<Extent>)
    requires AllUsable(exts, dev.Total())
  {
    forall l: nat ::
      && (l in f <==> exists i: nat :: Locates(exts, i, l))
      && forall i: nat | Locates(exts, i, l) :: l in f && f[l] == dev.blocks[exts[i].phys + (l - exts[i].logical)]
  }

  /** All blocks of the extents have been copied. */
  ghost predicate AllIn(exts: seq<Extent>, covered: set<nat>) {
    forall i | 0 <= i < |exts| :: BlocksIn(exts[i].phys, exts[i].len, covered)
  }

  ghost predicate BlocksIn(first: nat, n: nat, covered: set<nat>) {
    forall p | first <= p < first + n :: p in covered
  }

  lemma SameCoverage(exts: seq<Extent>, covered: set<nat>)
    ensures AllIn(exts, covered) <==> CoveredBy(exts, covered)
  {
    forall i | 0 <= i < |exts|
      ensures BlocksIn(exts[i].phys, exts[i].len, covered) <==> Range(exts[i].phys, exts[i].len) <= covered
    {
      RangeIn(exts[i].phys, exts[i].len, covered);
    }
  }

  lemma RangeIn(first: nat, n: nat, covered: set<nat>)
    ensures BlocksIn(first, n, covered) <==> Range(first, n) <= covered
  {
    if Range(first, n) <= covered {
      forall p | first <= p < first + n ensures p in covered {
        assert p in Range(first, n);
      }
    }
  }

  lemma ContentIsFile(dev: Device, f: Image, exts: seq<Extent>)
    requires AllUsable(exts, dev.Total()) && forall l: nat :: HasContent(dev, f, exts, l)
    ensures IsFile(dev, f, exts)
  {
    forall l: nat
      ensures l in f <==> exists i: nat :: Locates(exts, i, l)
      ensures forall i: nat | Locates(exts, i, l) ::
                l in f && f[l] == dev.blocks[exts[i].phys + (l - exts[i].logical)]
    {
      assert HasContent(dev, f, exts, l);
      forall i: nat ensures Locates(exts, i, l) <==> MapsAt(exts, i, l) {
      }
      if i: nat :| MapsAt(exts, i, l) { assert Locates(exts, i, l); }
    }
  }

  lemma FileIsContent(dev: Device, f: Image, exts: seq<Extent>)
    requires AllUsable(exts, dev.Total()) && IsFile(dev, f, exts)
    ensures forall l: nat :: HasContent(dev, f, exts, l)
  {
    forall l: nat ensures HasContent(dev, f, exts, l) {
      forall i: nat ensures Locates(exts, i, l) <==> MapsAt(exts, i, l) {
      }
      if i: nat :| Locates(exts, i, l) { assert MapsAt(exts, i, l); }
    }
  }

  /** The walk from the root of a written tree gathers all its extents if and only if its depth is at most 4 and they
      are at most 65536. */
  lemma WrittenTreeGathered(dev: Device, b: nat, t: Tree, d: nat, marked: set<nat>)
    requires dev.Valid() && WrittenAt(dev, b, t, d) && Extents(t) != []
    ensures WalkTree(dev, dev.blocks[b], MAX_TREE_DEPTH, [], marked, MAX_COLLECTED).out == Extents(t) <==>
            d <= 4 && |Extents(t)| <= 65536
  {
    WrittenEncodes(dev, b, t, d);
    RootCollects(dev, dev.blocks[b], t, d, marked);
  }

  /** In a scan of a device on which ext4 wrote this tree, its root gets a file if and only if no earlier walk followed
      a pointer to it and not all its blocks were copied before; and then the file is what the tree says. */
  lemma WrittenTreeInScan(env: Env, s0: Rec, start: nat, b: nat, t: Tree, d: nat)
    requires EnvOk(env) && start <= b && WrittenAt(env.dev, b, t, d) && 0 < d <= 4
    requires NoOverlap(Extents(t)) && |Extents(t)| <= 65536
    requires exists i :: 0 <= i < |Extents(t)| && !Extents(t)[i].unwritten
    requires forall k: nat | k < |Extents(t)| :: env.copy(FromTree(b), k) == None
    ensures AllUsable(Extents(t), env.dev.Total())
    ensures var (s', ok) := Visit(env, StateAt(env, s0, start, b), b);
      && (ok <==> New(env, s0, start, b) && !AllIn(Extents(t), StateAt(env, s0, start, b).covered))
      && (ok ==> FromTree(b) in s'.files && IsFile(env.dev, s'.files[FromTree(b)], Extents(t)))
  {
    WrittenEncodes(env.dev, b, t, d);
    Disjoint(Extents(t));
    TreeInScan(env, s0, start, b, t, d);
    SameCoverage(Extents(t), StateAt(env, s0, start, b).covered);
    var (s', ok) := Visit(env, StateAt(env, s0, start, b), b);
    if ok { ContentIsFile(env.dev, s'.files[FromTree(b)], Extents(t)); }
  }

  lemma Disjoint(exts: seq<Extent>)
    requires NoOverlap(exts)
    ensures DisjointLogical(exts)
  {
  }

  /** The same for a leaf that ext4 wrote; its file is right if and only if no unwritten extent, read by its stored
      length, still fits into the device. */
  lemma WrittenLeafInScan(env: Env, s0: Rec, start: nat, b: nat, exts: seq<Extent>)
    requires EnvOk(env) && start <= b && WrittenAt(env.dev, b, Leaf(exts), 0)
    requires NoOverlap(exts) && exists i :: 0 <= i < |exts| && !exts[i].unwritten
    requires forall k: nat | k < |exts| :: env.copy(FromLeaf(b), k) == None
    ensures AllUsable(exts, env.dev.Total())
    ensures var (s', ok) := Visit(env, StateAt(env, s0, start, b), b);
      && (ok <==> New(env, s0, start, b) && !AllIn(exts, StateAt(env, s0, start, b).covered))
      && (ok ==> FromLeaf(b) in s'.files &&
                 (IsFile(env.dev, s'.files[FromLeaf(b)], exts) <==> NoneFits(exts, env.dev.Total())))
  {
    WrittenEncodes(env.dev, b, Leaf(exts), 0);
    Disjoint(exts);
    LeafInScan(env, s0, start, b, exts);
    SameCoverage(exts, StateAt(env, s0, start, b).covered);
    var (s', ok) := Visit(env, StateAt(env, s0, start, b), b);
    if ok { FileIffContent(env.dev, s'.files[FromLeaf(b)], exts); }
    NoneMisread(exts, env.dev.Total());
  }

  /** No unwritten extent, read by its stored length, fits into a device of `total` blocks. */
  ghost predicate NoneFits(exts: seq<Extent>, total: nat) {
    forall i | 0 <= i < |exts| && exts[i].unwritten :: exts[i].phys + (exts[i].len + 32768) > total
  }

  lemma NoneMisread(exts: seq<Extent>, total: nat)
    ensures NothingMisread(exts, total) <==> NoneFits(exts, total)
  {
  }

  lemma FileIffContent(dev: Device, f: Image, exts: seq<Extent>)
    requires AllUsable(exts, dev.Total())
    ensures IsFile(dev, f, exts) <==> forall l: nat :: HasContent(dev, f, exts, l)
  {
    if IsFile(dev, f, exts) { FileIsContent(dev, f, exts); }
    if forall l: nat :: HasContent(dev, f, exts, l) { ContentIsFile(dev, f, exts); }
  }

  // ----- any leaf -----

  /** An entry the redundancy check looks at. */
  predicate Counts(e: Slot) {
    e.raw != 0 && e.phys != 0
  }

  /** The blocks of the entry, without the bit that says "unwritten", have been copied. */
  ghost predicate EntryIn(e: Slot, covered: set<nat>) {
    BlocksIn(e.phys, if e.raw > 32768 then e.raw - 32768 else e.raw, covered)
  }

  /** Every such entry has been copied, and there is one. */
  ghost predicate AllCopied(es: seq<Slot>, covered: set<nat>) {
    && (exists i :: 0 <= i < |es| && Counts(es[i]))
    && forall i | 0 <= i < |es| && Counts(es[i]) :: EntryIn(es[i], covered)
  }

  /** What a leaf dump copies: the entries that fit into the device, each by its stored length. */
  function ToDump(es: seq<Slot>, total: nat): (r: seq<Extent>)
    ensures AllUsable(r, total)
  {
    if es == [] then []
    else
      var m := |es| - 1;
      ToDump(es[..m], total)
      + if es[m].raw != 0 && es[m].phys != 0 && es[m].phys + es[m].raw <= total
        then [Extent(es[m].logical, es[m].raw, es[m].phys, false)]
        else []
  }

  lemma {:induction false} RawIsToDump(buf: Block, es: seq<Slot>, total: nat, k: nat)
    requires HoldsLeaf(buf, es) && k <= |es| && 12 <= |buf| && ValidHeader(buf) && Entries(buf) == |es|
    requires forall i | 0 <= i < |es| ::
               InBlock(buf, i) && RawLen(buf, i) == es[i].raw && ExtentAt(buf, i) == Meaning(es[i])
    ensures RawExtents(buf, total, k) == ToDump(es[..k], total)
  {
    if k > 0 {
      RawIsToDump(buf, es, total, k - 1);
      EntriesInBlock(buf, k - 1);
      assert es[..k][..k - 1] == es[..k - 1];
      assert RawExtentAt(buf, k - 1) == Extent(es[k - 1].logical, es[k - 1].raw, es[k - 1].phys, false);
    }
  }

  /** The entries that count among the first `k`. */
  function Looked(es: seq<Slot>): seq<Extent> {
    if es == [] then []
    else
      var m := |es| - 1;
      Looked(es[..m]) + if Counts(es[m]) then [Meaning(es[m])] else []
  }

  lemma {:induction false} CandidatesAreLooked(buf: Block, es: seq<Slot>, k: nat)
    requires HoldsLeaf(buf, es) && k <= |es| && 12 <= |buf| && ValidHeader(buf) && Entries(buf) == |es|
    requires forall i | 0 <= i < |es| ::
               InBlock(buf, i) && RawLen(buf, i) == es[i].raw && ExtentAt(buf, i) == Meaning(es[i])
    ensures Candidates(buf, k) == Looked(es[..k])
  {
    if k > 0 {
      CandidatesAreLooked(buf, es, k - 1);
      EntriesInBlock(buf, k - 1);
      assert es[..k][..k - 1] == es[..k - 1];
    }
  }

  lemma {:induction false} LookedIn(es: seq<Slot>, covered: set<nat>)
    ensures CoveredBy(Looked(es), covered) <==> forall i | 0 <= i < |es| && Counts(es[i]) :: EntryIn(es[i], covered)
  {
    if es != [] {
      var m := |es| - 1;
      LookedIn(es[..m], covered);
      RangeIn(Meaning(es[m]).phys, Meaning(es[m]).len, covered);
      AllCoveredSnoc(Looked(es[..m]), Meaning(es[m]), covered);
      assert Looked(es) == if Counts(es[m]) then Looked(es[..m]) + [Meaning(es[m])] else Looked(es[..m]);
      assert forall i | 0 <= i < m :: es[..m][i] == es[i];
    }
  }

  lemma {:induction false} LookedAny(es: seq<Slot>)
    ensures Looked(es) != [] <==> exists i :: 0 <= i < |es| && Counts(es[i])
  {
    if es != [] {
      var m := |es| - 1;
      LookedAny(es[..m]);
      if i :| 0 <= i < m && Counts(es[..m][i]) { assert Counts(es[i]); }
      if i :| 0 <= i < |es| && Counts(es[i]) { assert i < m ==> Counts(es[..m][i]); }
    }
  }

  /** Of any leaf whatever: the visit finds everything copied exactly if every entry that counts has been, and otherwise
      copies the entries that fit into the device, each by its stored length. */
  lemma LeafVisit(env: Env, s: Rec, b: nat, es: seq<Slot>)
    requires EnvOk(env) && b < env.dev.Total() && b !in s.marked && HoldsLeaf(env.dev.blocks[b], es)
    ensures Skips(env, s, b) <==> AllCopied(es, s.covered)
    ensures Copied(env, s, b) == if AllCopied(es, s.covered) then [] else ToDump(es, env.dev.Total())
  {
    var buf := env.dev.blocks[b];
    LeafRead(buf, es);
    assert es[..|es|] == es;
    CandidatesAreLooked(buf, es, |es|);
    RawIsToDump(buf, es, env.dev.Total(), |es|);
    LookedIn(es, s.covered);
    LookedAny(es);
  }

  // ----- nothing else is taken for an extent block -----

  /** A visit that has any effect is of a block that begins with the magic, at most as many entries as there is room
      for, no more room than the block has, and a depth of at most 5. */
  lemma OnlyHeaders(env: Env, s: Rec, b: nat)
    requires EnvOk(env) && Visit(env, s, b) != (s, false)
    ensures b < env.dev.Total() && b !in s.marked
    ensures exists depth: nat, n: nat :: Begins(env.dev.blocks[b], depth, n, [])
  {
    var buf := env.dev.blocks[b];
    HeaderBegins(buf);
  }

  lemma HeaderBegins(buf: Block)
    requires 12 <= |buf| && ValidHeader(buf)
    ensures Begins(buf, Depth(buf), Entries(buf), [])
  {
    var n, max, depth, gen := Le16(buf, 2), Le16(buf, 4), Le16(buf, 6), Le32(buf, 8);
    PutsLe16(buf, 0);
    PutsLe16(buf, 2);
    PutsLe16(buf, 4);
    PutsLe16(buf, 6);
    PutsLe32(buf, 8);
    assert PutLe16(0xF30A) == [0x0a, 0xf3];
    FourParts(buf, [0x0a, 0xf3], PutLe16(n), PutLe16(max), PutLe16(depth), PutLe32(gen));
    assert PutHeader(n, max, depth, gen) + [] == PutHeader(n, max, depth, gen);
  }

  lemma FourParts(buf: Block, a: seq<byte>, b: seq<byte>, c: seq<byte>, d: seq<byte>, e: seq<byte>)
    requires |buf| >= 12 && a == buf[0..2] && b == buf[2..4] && c == buf[4..6] && d == buf[6..8] && e == buf[8..12]
    ensures a + (b + (c + (d + e))) <= buf
  {
  }

  // ----- there are such devices -----

  /** Blocks of 24 bytes: an index block at `r` with one child at `c`, a leaf with one extent. */
  function SampleLeaf(): (buf: Block)
    ensures |buf| == 24
  {
    PutHeader(1, 1, 0, 0) + PutSlot(Slot(0, 1, 1))
  }

  function SampleIndex(c: nat): (buf: Block)
    requires c < 0x1_0000_0000_0000
    ensures |buf| == 24
  {
    PutHeader(1, 1, 1, 0) + PutIndex(0, c)
  }

  function SampleBlock(b: nat, r: nat, c: nat): (buf: Block)
    requires c < 0x1_0000_0000_0000
    ensures |buf| == 24
  {
    if b == c then SampleLeaf() else if b == r then SampleIndex(c) else Repeat(0, 24)
  }

  function Sample(total: nat, r: nat, c: nat): Device
    requires c < 0x1_0000_0000_0000
  {
    Device(24, seq(total, (b: nat) => SampleBlock(b, r, c)))
  }

  lemma SampleBlocks(c: nat)
    requires c < 0x1_0000_0000_0000
    ensures HoldsLeaf(SampleLeaf(), [Slot(0, 1, 1)])
    ensures HoldsIndex(SampleIndex(c), [Child(0, c, Leaf([Extent(0, 1, 1, false)]))], 1)
  {
    var cs := [Child(0, c, Leaf([Extent(0, 1, 1, false)]))];
    assert PutSlots([Slot(0, 1, 1)]) == PutSlot(Slot(0, 1, 1));
    assert PutChildren(cs) == PutIndex(0, c);
    assert PutHeader(1, 1, 0, 0) + PutSlots([Slot(0, 1, 1)]) <= SampleLeaf();
    assert PutHeader(1, 1, 1, 0) + PutChildren(cs) <= SampleIndex(c);
  }

  /** Wherever the child lies, below block 256 or beyond block 2^32. */
  lemma SampleWritten(total: nat, r: nat, c: nat)
    requires r < total && 2 <= c < total <= 0x1_0000_0000_0000 && r != c
    ensures Sample(total, r, c).Valid()
    ensures WrittenAt(Sample(total, r, c), r, Node([Child(0, c, Leaf([Extent(0, 1, 1, false)]))]), 1)
  {
    var dev, exts := Sample(total, r, c), [Extent(0, 1, 1, false)];
    SampleBlocks(c);
    assert AllStored(exts) == [Slot(0, 1, 1)];
    assert forall b | 0 <= b < total :: dev.blocks[b] == SampleBlock(b, r, c);
    assert WrittenAt(dev, c, Leaf(exts), 0);
  }
}
