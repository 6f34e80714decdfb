/** From journaled inode-table blocks to inode numbers (improved/journal_recovery_v5.c:110-205, 276-300), against
    the linear search per group it replaced (improved/journal_recovery.c:111-131, 169-191). */
module InodeTable {
  import opened Sorting
  import opened Arithmetic
  import opened Collections

  /** Where each group's inode table starts (0 for an uninitialised group), and the inode geometry. */
  datatype Layout = Layout(tables: seq<nat>, perGroup: nat, inodeSize: nat, bs: nat)
  {
    ghost predicate Valid() {
      && perGroup > 0 && inodeSize > 0 && bs > 0 && bs % inodeSize == 0
      && forall g, h | 0 <= g < h < |tables| && tables[g] != 0 && tables[h] != 0 ::
           tables[g] + TableBlocks() <= tables[h] || tables[h] + TableBlocks() <= tables[g]
    }

    function TableBlocks(): nat
      requires bs > 0
    {
      (perGroup * inodeSize + bs - 1) / bs
    }

    function PerBlock(): nat
      requires inodeSize > 0
    {
      bs / inodeSize
    }

    /** Block `b` belongs to the inode table of group `g`. */
    predicate Holds(g: nat, b: nat)
      requires bs > 0
    {
      g < |tables| && tables[g] != 0 && tables[g] <= b < tables[g] + TableBlocks()
    }
  }

  datatype Range = Range(start: nat, end: nat, group: nat)

  predicate ByStart(a: Range, b: Range) {
    a.start <= b.start
  }

  function Ranges(l: Layout, n: nat): seq<Range>
    requires l.bs > 0 && n <= |l.tables|
  {
    if n == 0 then []
    else if l.tables[n - 1] == 0 then Ranges(l, n - 1)
    else Ranges(l, n - 1) + [Range(l.tables[n - 1], l.tables[n - 1] + l.TableBlocks(), n - 1)]
  }

  /** The sorted interval map. */
  method BuildMap(l: Layout, qsort: seq<Range> -> seq<Range>) returns (m: seq<Range>)
    requires l.Valid() && SortOf(qsort(Ranges(l, |l.tables|)), Ranges(l, |l.tables|), ByStart)
    ensures SortOf(m, Ranges(l, |l.tables|), ByStart) && MapOk(l, m)
  {
    m := [];
    var blocks := l.TableBlocks();
    for g := 0 to |l.tables|
      invariant m == Ranges(l, g)
    {
      var start := l.tables[g];
      if start != 0 {
        m := m + [Range(start, start + blocks, g)];
      }
    }
    m := qsort(m);
    SortedMapOk(l, m);
  }

  /** What BuildMap asks of qsort can be met. */
  lemma SorterExists(rs: seq<Range>)
    ensures SortOf(InsertionSort(rs, ByStart), rs, ByStart)
  {
    forall a, b, c ensures TransitiveAt(ByStart, a, b, c) {
    }
    SortExists(rs, ByStart);
  }

  lemma {:induction false} RangeIn(l: Layout, n: nat, r: Range)
    requires l.bs > 0 && n <= |l.tables|
    ensures r in Ranges(l, n) <==>
            r.group < n && l.tables[r.group] != 0 && r.start == l.tables[r.group] && r.end == r.start + l.TableBlocks()
  {
    if n > 0 { RangeIn(l, n - 1, r); }
  }

  /** The map after sorting: ranges of the layout, ascending and apart. */
  ghost predicate MapOk(l: Layout, m: seq<Range>)
    requires l.bs > 0
  {
    && (forall r :: r in m <==>
          r.group < |l.tables| && l.tables[r.group] != 0 && r.start == l.tables[r.group] &&
            r.end == r.start + l.TableBlocks())
    && (forall i, j | 0 <= i < j < |m| :: m[i].end <= m[j].start)
  }

  lemma TablesNonEmpty(l: Layout)
    requires l.Valid()
    ensures l.TableBlocks() > 0
  {
    assert l.perGroup * l.inodeSize >= 1;
    DivPositive(l.perGroup * l.inodeSize + l.bs - 1, l.bs);
  }

  lemma DivPositive(a: nat, b: nat)
    requires a >= b > 0
    ensures a / b >= 1
  {
  }

  lemma {:induction false} RangesDistinct(l: Layout, n: nat, i: nat, j: nat)
    requires l.bs > 0 && n <= |l.tables| && i < j < |Ranges(l, n)|
    ensures Ranges(l, n)[i].group < Ranges(l, n)[j].group < n
  {
    RangeIn(l, n - 1, Ranges(l, n)[i]);
    if j < |Ranges(l, n - 1)| {
      RangesDistinct(l, n - 1, i, j);
    } else {
      assert Ranges(l, n)[i] in Ranges(l, n - 1);
    }
  }

  lemma SortedMapOk(l: Layout, m: seq<Range>)
    requires l.Valid() && SortOf(m, Ranges(l, |l.tables|), ByStart)
    ensures MapOk(l, m)
  {
    var rs := Ranges(l, |l.tables|);
    SameElements(m, rs);
    TablesNonEmpty(l);
    forall r ensures r in m <==>
      r.group < |l.tables| && l.tables[r.group] != 0 && r.start == l.tables[r.group] &&
        r.end == r.start + l.TableBlocks()
    {
      RangeIn(l, |l.tables|, r);
    }
    forall i, j | 0 <= i < j < |m| ensures m[i].end <= m[j].start {
      if m[i] == m[j] {
        TwiceIn(m, i, j);
        var a, b := TwoPlaces(rs, m[i]);
        RangesDistinct(l, |l.tables|, a, b);
      } else {
        assert m[i] in m && m[j] in m;
        assert ByStart(m[i], m[j]);
      }
    }
  }

  /** Bisection over the map. */
  method Lookup(l: Layout, m: seq<Range>, b: nat) returns (r: Option<Range>)
    requires l.Valid() && MapOk(l, m)
    ensures match r
      case Some(x) => x in m && x.start <= b < x.end
      case None => forall x | x in m :: !(x.start <= b < x.end)
  {
    var lo, hi := 0, |m| - 1;
    TablesNonEmpty(l);
    while lo <= hi
      invariant 0 <= lo <= hi + 1 <= |m|
      invariant forall i | 0 <= i < lo :: m[i].end <= b
      invariant forall i | hi < i < |m| :: b < m[i].start
    {
      var mid := (lo + hi) / 2;
      if b < m[mid].start {
        forall i | mid < i < |m| ensures b < m[i].start { assert m[mid] in m; }
        hi := mid - 1;
      } else if b >= m[mid].end {
        forall i | 0 <= i < mid ensures m[i].end <= b { assert m[mid] in m; }
        lo := mid + 1;
      } else {
        return Some(m[mid]);
      }
    }
    r := None;
  }

  // ----- inode numbers -----

  /** The first group whose table holds the block. */
  function GroupOf(l: Layout, b: nat, g: nat): Option<nat>
    requires l.bs > 0 && g <= |l.tables|
    decreases |l.tables| - g
  {
    if g == |l.tables| then None
    else if l.Holds(g, b) then Some(g)
    else GroupOf(l, b, g + 1)
  }

  lemma {:induction false} GroupOfMeaning(l: Layout, b: nat, g: nat)
    requires l.bs > 0 && g <= |l.tables|
    ensures match GroupOf(l, b, g)
      case Some(h) => g <= h && l.Holds(h, b)
      case None => forall h | g <= h < |l.tables| :: !l.Holds(h, b)
    decreases |l.tables| - g
  {
    if g < |l.tables| && !l.Holds(g, b) { GroupOfMeaning(l, b, g + 1); }
  }

  /** Inode number of slot `slot` in the table of group `g`; 0 for slots that only pad the table's last block. */
  function Number(l: Layout, g: nat, b: nat, slot: nat): nat
    requires l.Valid() && l.Holds(g, b)
  {
    Product(b - l.tables[g], l.PerBlock());
    Product(g, l.perGroup);
    var local := (b - l.tables[g]) * l.PerBlock() + slot;
    if local >= l.perGroup then 0 else g * l.perGroup + local + 1
  }

  /** The inode number of a slot of any block; 0 if the block belongs to no table. */
  function NumberAt(l: Layout, b: nat, slot: nat): nat
    requires l.Valid()
  {
    GroupOfMeaning(l, b, 0);
    match GroupOf(l, b, 0)
    case None => 0
    case Some(g) => Number(l, g, b, slot)
  }

  /** calc_inode_from_block: by bisection. */
  method CalcInode(l: Layout, m: seq<Range>, b: nat, slot: nat) returns (ino: nat)
    requires l.Valid() && MapOk(l, m) && slot < l.PerBlock()
    ensures ino == NumberAt(l, b, slot)
  {
    var r := Lookup(l, m, b);
    if r.None? {
      LookupMisses(l, m, b);
      return 0;
    }
    var x := r.value;
    LookupFinds(l, m, b, x);
    var blockOffset: nat := b - x.start;
    Product(blockOffset, l.PerBlock());
    var local: nat := blockOffset * l.PerBlock() + slot;
    if local >= l.perGroup {
      return 0;
    }
    Product(x.group, l.perGroup);
    ino := x.group * l.perGroup + local + 1;
  }

  lemma LookupFinds(l: Layout, m: seq<Range>, b: nat, x: Range)
    requires l.Valid() && MapOk(l, m) && x in m && x.start <= b < x.end
    ensures l.Holds(x.group, b) && x.start == l.tables[x.group] && GroupOf(l, b, 0) == Some(x.group)
  {
    GroupOfMeaning(l, b, 0);
    assert l.Holds(x.group, b);
    OneTable(l, b, x.group, GroupOf(l, b, 0).value);
  }

  lemma LookupMisses(l: Layout, m: seq<Range>, b: nat)
    requires l.Valid() && MapOk(l, m) && forall x | x in m :: !(x.start <= b < x.end)
    ensures GroupOf(l, b, 0) == None
  {
    GroupOfMeaning(l, b, 0);
    forall g: nat ensures !l.Holds(g, b) {
      if g < |l.tables| && l.tables[g] != 0 {
        assert Range(l.tables[g], l.tables[g] + l.TableBlocks(), g) in m;
      }
    }
  }

  lemma OneTable(l: Layout, b: nat, g: nat, h: nat)
    requires l.Valid() && l.Holds(g, b) && l.Holds(h, b)
    ensures g == h
  {
  }

  datatype Place = Place(group: nat, block: nat, slot: nat)

  /** Where inode `ino` lives. */
  function PlaceOf(l: Layout, ino: nat): Place
    requires l.Valid() && ino > 0 && (ino - 1) / l.perGroup < |l.tables|
    requires l.PerBlock() > 0
  {
    var g, local := (ino - 1) / l.perGroup, (ino - 1) % l.perGroup;
    Place(g, l.tables[g] + local / l.PerBlock(), local % l.PerBlock())
  }

  /** A table has at least as many slots as its group has inodes. */
  lemma TableHasRoom(l: Layout)
    requires l.Valid()
    ensures l.PerBlock() > 0 && l.perGroup <= l.TableBlocks() * l.PerBlock()
  {
    var s, pb, tb := l.inodeSize, l.PerBlock(), l.TableBlocks();
    assert l.bs == pb * s + l.bs % s;
    assert pb > 0;
    var bytes := l.perGroup * s;
    CeilCovers(bytes, l.bs);
    assert bytes <= tb * (pb * s);
    assert tb * (pb * s) == (tb * pb) * s;
    CancelFactor(l.perGroup, tb * pb, s);
  }

  /** Every inode of an initialised group is found again at its place. */
  lemma NumberOfPlace(l: Layout, ino: nat)
    requires l.Valid() && ino > 0 && (ino - 1) / l.perGroup < |l.tables| && l.tables[(ino - 1) / l.perGroup] != 0
    ensures l.PerBlock() > 0
    ensures var p := PlaceOf(l, ino);
      l.Holds(p.group, p.block) && p.slot < l.PerBlock() && Number(l, p.group, p.block, p.slot) == ino
  {
    TableHasRoom(l);
    var pb, g, local := l.PerBlock(), (ino - 1) / l.perGroup, (ino - 1) % l.perGroup;
    Quotient(local, pb);
    Quotient(ino - 1, l.perGroup);
    NumberHere(l, ino, g, local, pb, local / pb, local % pb);
  }

  lemma NumberHere(l: Layout, ino: nat, g: nat, local: nat, pb: nat, q: nat, r: nat)
    requires l.Valid() && g < |l.tables| && l.tables[g] != 0 && pb == l.PerBlock() > 0
    requires l.perGroup <= l.TableBlocks() * pb && local < l.perGroup && ino == g * l.perGroup + local + 1
    requires local == q * pb + r && r < pb
    ensures l.Holds(g, l.tables[g] + q) && Number(l, g, l.tables[g] + q, r) == ino
  {
    BelowCeil(q, pb, r, l.TableBlocks());
    NumberIs(l, g, q, r, local);
  }

  lemma NumberIs(l: Layout, g: nat, q: nat, r: nat, local: nat)
    requires l.Valid() && g < |l.tables| && l.tables[g] != 0 && q < l.TableBlocks()
    requires local == q * l.PerBlock() + r && local < l.perGroup
    ensures l.Holds(g, l.tables[g] + q) && Number(l, g, l.tables[g] + q, r) == g * l.perGroup + local + 1
  {
    assert l.tables[g] + q - l.tables[g] == q;
  }

  /** Every slot that has an inode number is that inode's place, so the numbering is one to one. */
  lemma PlaceOfNumber(l: Layout, g: nat, b: nat, slot: nat)
    requires l.Valid() && l.Holds(g, b) && slot < l.PerBlock() && Number(l, g, b, slot) != 0
    ensures var ino := Number(l, g, b, slot);
      ino <= |l.tables| * l.perGroup && (ino - 1) / l.perGroup < |l.tables| && PlaceOf(l, ino) == Place(g, b, slot)
  {
    var local := (b - l.tables[g]) * l.PerBlock() + slot;
    DivMod(g, l.perGroup, local);
    DivMod(b - l.tables[g], l.PerBlock(), slot);
    assert (g + 1) * l.perGroup == g * l.perGroup + l.perGroup;
    MulMonotone(g + 1, |l.tables|, l.perGroup);
  }

  // ----- in bytes -----

  /** A table has as many blocks as its inodes need, and no more. */
  lemma TableSize(l: Layout)
    requires l.Valid()
    ensures l.perGroup * l.inodeSize <= l.TableBlocks() * l.bs < l.perGroup * l.inodeSize + l.bs
  {
    CeilCovers(l.perGroup * l.inodeSize, l.bs);
    Quotient(l.perGroup * l.inodeSize + l.bs - 1, l.bs);
  }

  lemma SlotBytes(local: nat, size: nat, bs: nat, pb: nat)
    requires size > 0 && pb > 0 && bs == pb * size
    ensures local * size / bs == local / pb && local * size % bs == local % pb * size
  {
    var q, r := local / pb, local % pb;
    Quotient(local, pb);
    assert local * size == q * bs + r * size by {
      assert local * size == (q * pb + r) * size == q * pb * size + r * size;
      assert q * pb * size == q * (pb * size);
    }
    MulStep(r, pb, size);
    DivMod(q, bs, r * size);
  }

  /** Inode `ino` is where its record stands in its group's table, the inodes' records being laid end to end: in the
      block that holds byte `local * inodeSize` of the table, and at that byte's offset in the block. */
  lemma PlaceInBytes(l: Layout, ino: nat)
    requires l.Valid() && ino > 0 && (ino - 1) / l.perGroup < |l.tables|
    ensures l.PerBlock() > 0
    ensures var p, local := PlaceOf(l, ino), (ino - 1) % l.perGroup;
      && p.group == (ino - 1) / l.perGroup
      && p.block == l.tables[p.group] + local * l.inodeSize / l.bs
      && p.slot * l.inodeSize == local * l.inodeSize % l.bs
  {
    var pb, local := l.bs / l.inodeSize, (ino - 1) % l.perGroup;
    Quotient(l.bs, l.inodeSize);
    TableHasRoom(l);
    SlotBytes(local, l.inodeSize, l.bs, pb);
  }

  // ----- the search it replaced -----

  /** The test of the old loop: it does not look whether the group has a table at all. */
  predicate OldHolds(l: Layout, g: nat, b: nat)
    requires l.bs > 0
  {
    g < |l.tables| && l.tables[g] <= b < l.tables[g] + l.TableBlocks()
  }

  function OldGroup(l: Layout, b: nat, g: nat): (r: Option<nat>)
    requires l.bs > 0 && g <= |l.tables|
    decreases |l.tables| - g
  {
    if g == |l.tables| then None
    else if OldHolds(l, g, b) then Some(g)
    else OldGroup(l, b, g + 1)
  }

  /** The old numbering: slots that only pad a table's last block get numbers too. */
  function OldNumberAt(l: Layout, b: nat, slot: nat): nat
    requires l.Valid()
  {
    OldGroupMeaning(l, b, 0);
    match OldGroup(l, b, 0)
    case None => 0
    case Some(g) =>
      Product(b - l.tables[g], l.PerBlock());
      Product(g, l.perGroup);
      g * l.perGroup + (b - l.tables[g]) * l.PerBlock() + slot + 1
  }

  lemma {:induction false} OldGroupMeaning(l: Layout, b: nat, g: nat)
    requires l.bs > 0 && g <= |l.tables|
    ensures match OldGroup(l, b, g)
      case Some(h) => g <= h && OldHolds(l, h, b) && forall k | g <= k < h :: !OldHolds(l, k, b)
      case None => forall h | g <= h < |l.tables| :: !OldHolds(l, h, b)
    decreases |l.tables| - g
  {
    if g < |l.tables| && !OldHolds(l, g, b) { OldGroupMeaning(l, b, g + 1); }
  }

  /** An uninitialised group, taken for a table at block 0, comes before any group that really holds the block. */
  ghost predicate Shadowed(l: Layout, b: nat)
    requires l.bs > 0
  {
    b < l.TableBlocks() && exists g: nat :: Shadows(l, b, g)
  }

  ghost predicate Shadows(l: Layout, b: nat, g: nat)
    requires l.bs > 0
  {
    g < |l.tables| && l.tables[g] == 0 && forall h | 0 <= h < g :: !l.Holds(h, b)
  }

  /** The lookup agrees with the old search if and only if the block is not shadowed. */
  lemma GroupsAgree(l: Layout, b: nat)
    requires l.Valid()
    ensures OldGroup(l, b, 0) == GroupOf(l, b, 0) <==> !Shadowed(l, b)
  {
    OldGroupMeaning(l, b, 0);
    GroupOfMeaning(l, b, 0);
    var was, now := OldGroup(l, b, 0), GroupOf(l, b, 0);
    if Shadowed(l, b) {
      var g: nat :| Shadows(l, b, g);
      assert OldHolds(l, g, b);
      assert was.Some? && was.value <= g;
      assert now.Some? ==> l.Holds(now.value, b) && now.value > g;
    } else {
      Unshadowed(l, b);
    }
  }

  lemma Unshadowed(l: Layout, b: nat)
    requires l.Valid() && !Shadowed(l, b)
    ensures OldGroup(l, b, 0) == GroupOf(l, b, 0)
  {
    OldGroupMeaning(l, b, 0);
    GroupOfMeaning(l, b, 0);
    var was, now := OldGroup(l, b, 0), GroupOf(l, b, 0);
    assert forall h: nat | l.Holds(h, b) :: OldHolds(l, h, b);
    assert was.Some? && l.tables[was.value] == 0 ==> Shadows(l, b, was.value);
    if was.Some? {
      assert l.Holds(was.value, b);
      OneTable(l, b, was.value, now.value);
    }
  }

  /** Whether a block is taken for an inode-table block at all: exactly where some table holds it, or no uninitialised
      group reaches it. */
  lemma TestsAgree(l: Layout, b: nat)
    requires l.Valid()
    ensures OldGroup(l, b, 0).Some? == GroupOf(l, b, 0).Some? <==>
            GroupOf(l, b, 0).Some? || b >= l.TableBlocks() || forall g | 0 <= g < |l.tables| :: l.tables[g] != 0
  {
    OldGroupMeaning(l, b, 0);
    GroupOfMeaning(l, b, 0);
    assert forall g: nat | g < |l.tables| ::
        OldHolds(l, g, b) <==> l.Holds(g, b) || (l.tables[g] == 0 && b < l.TableBlocks());
  }

  /** For all blocks at once: exactly when every group has a table. */
  lemma AlwaysAgree(l: Layout)
    requires l.Valid()
    ensures (forall b: nat :: OldGroup(l, b, 0) == GroupOf(l, b, 0)) <==> (forall g | 0 <= g < |l.tables| ::
      l.tables[g] != 0)
  {
    TablesNonEmpty(l);
    if forall g | 0 <= g < |l.tables| :: l.tables[g] != 0 {
      forall b: nat ensures OldGroup(l, b, 0) == GroupOf(l, b, 0) {
        GroupsAgree(l, b);
      }
    } else {
      var g :| 0 <= g < |l.tables| && l.tables[g] == 0;
      assert Shadows(l, 0, g);
      GroupsAgree(l, 0);
    }
  }

  /** A slot of a table that lies beyond the group's last inode. */
  ghost predicate Padding(l: Layout, b: nat, slot: nat)
    requires l.Valid()
  {
    exists g: nat :: l.Holds(g, b) && (b - l.tables[g]) * l.PerBlock() + slot >= l.perGroup
  }

  /** The blocks of a table but the last are full. */
  lemma LastBlockStarts(l: Layout, b: nat)
    requires l.Valid() && b < l.TableBlocks()
    ensures b * l.PerBlock() < l.perGroup
  {
    var s, pb, tb := l.inodeSize, l.PerBlock(), l.TableBlocks();
    var bytes := l.perGroup * s;
    Quotient(bytes + l.bs - 1, l.bs);
    assert (tb - 1) * l.bs < bytes by { assert tb * l.bs == (tb - 1) * l.bs + l.bs; }
    Quotient(l.bs, s);
    assert (tb - 1) * (pb * s) == ((tb - 1) * pb) * s;
    if l.perGroup <= (tb - 1) * pb { MulMonotone(l.perGroup, (tb - 1) * pb, s); }
    MulMonotone(b, tb - 1, pb);
  }

  /** A shadowed block never gets the right number by accident. */
  lemma ShadowMisnumbers(l: Layout, b: nat, slot: nat)
    requires l.Valid() && Shadowed(l, b)
    ensures OldNumberAt(l, b, slot) != NumberAt(l, b, slot)
  {
    OldGroupMeaning(l, b, 0);
    GroupOfMeaning(l, b, 0);
    GroupsAgree(l, b);
    var k: nat :| Shadows(l, b, k);
    assert OldHolds(l, k, b);
    var g, now := OldGroup(l, b, 0).value, GroupOf(l, b, 0);
    Product(g, l.perGroup);
    Product(b - l.tables[g], l.PerBlock());
    if now.Some? {
      var h := now.value;
      assert OldHolds(l, h, b);
      LastBlockStarts(l, b);
      assert l.tables[g] == 0 by {
        if l.tables[g] != 0 { OneTable(l, b, g, h); }
      }
      MulStep(g, h, l.perGroup);
      Product(b - l.tables[h], l.PerBlock());
    }
  }

  /** The old numbering agrees if and only if the block is not shadowed and the slot is no padding. */
  lemma NumbersAgree(l: Layout, b: nat, slot: nat)
    requires l.Valid() && slot < l.PerBlock()
    ensures OldNumberAt(l, b, slot) == NumberAt(l, b, slot) <==> !Shadowed(l, b) && !Padding(l, b, slot)
  {
    if Shadowed(l, b) {
      ShadowMisnumbers(l, b, slot);
    } else {
      GroupsAgree(l, b);
      GroupOfMeaning(l, b, 0);
      PaddingIsLocal(l, b, slot);
    }
  }

  lemma PaddingIsLocal(l: Layout, b: nat, slot: nat)
    requires l.Valid()
    ensures match GroupOf(l, b, 0)
      case None => !Padding(l, b, slot)
      case Some(g) => l.Holds(g, b) && (Padding(l, b, slot) <==> (b - l.tables[g]) * l.PerBlock() + slot >= l.perGroup)
  {
    GroupOfMeaning(l, b, 0);
    if Padding(l, b, slot) {
      var h: nat :| l.Holds(h, b) && (b - l.tables[h]) * l.PerBlock() + slot >= l.perGroup;
      OneTable(l, b, h, GroupOf(l, b, 0).value);
    }
  }

  /** An uninitialised group before an initialised one: the old search takes block 5 for its table. */
  lemma OldTakesForeignBlock()
    ensures var l := Layout([0, 100], 40, 256, 1024);
      l.Valid() && l.TableBlocks() == 10 && OldGroup(l, 5, 0) == Some(0) && GroupOf(l, 5, 0) == None
  {
    var l := Layout([0, 100], 40, 256, 1024);
    assert OldHolds(l, 0, 5) && !l.Holds(0, 5) && !l.Holds(1, 5);
  }

  /** Ten inodes of which four fit a block: the third block has two slots that only pad. */
  lemma OldNumbersPadding()
    ensures var l := Layout([100], 10, 256, 1024);
      l.Valid() && l.PerBlock() == 4 && OldNumberAt(l, 102, 2) == 11 && NumberAt(l, 102, 2) == 0
  {
    var l := Layout([100], 10, 256, 1024);
    assert OldHolds(l, 0, 102) && l.Holds(0, 102);
  }
}
