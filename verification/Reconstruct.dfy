/** Turning orphaned extent blocks into files (improved/aggressive_scan_v5.c:235-505): what one block
    contributes, as a function of everything recovered so far, and the block-level content of a file. */
module Reconstruct {
  import opened ExtentTree
  import opened Sorting
  import opened Collections
  import opened Arithmetic

  type Image = map<nat, Block>

  predicate LogicalIn(l: nat, e: Extent) {
    e.logical <= l < e.logical + e.len
  }

  /** One extent copied into a file image. */
  function CopyExtent(dev: Device, f: Image, e: Extent): Image
    requires Usable(e, dev.Total())
  {
    f + map l | e.logical <= l < e.logical + e.len && LogicalIn(l, e) :: dev.blocks[e.phys + (l - e.logical)]
  }

  /** The first `n` bytes of an extent reach into block `l` of the file. */
  predicate Reached(l: nat, e: Extent, bs: nat, n: nat) {
    LogicalIn(l, e) && Offset(l - e.logical, bs) < n
  }

  /** A block of a file, as far as it was ever written, with the first `n` bytes of `data` written over it. */
  function Overlay(before: Block, data: Block, n: nat): Block {
    if n >= |data| then data else data[..n] + if n <= |before| then before[n..] else []
  }

  function BlockOf(f: Image, l: nat): Block {
    if l in f then f[l] else []
  }

  /** Block `l` of the file when the first `n` bytes of an extent have been copied into it. */
  function PrefixBlock(dev: Device, f: Image, e: Extent, n: nat, l: nat): Block
    requires Usable(e, dev.Total()) && Reached(l, e, dev.bs, n)
  {
    Overlay(BlockOf(f, l), dev.blocks[e.phys + (l - e.logical)], n - Offset(l - e.logical, dev.bs))
  }

  /** The first `n` bytes of an extent copied into a file image: what a copy that breaks off leaves. */
  function CopyPrefix(dev: Device, f: Image, e: Extent, n: nat): Image
    requires Usable(e, dev.Total())
  {
    f + map l | e.logical <= l < e.logical + e.len && Reached(l, e, dev.bs, n) :: PrefixBlock(dev, f, e, n, l)
  }

  /** What the copy of an extent makes of a file: None if all of it arrives, else how many bytes do. */
  function CopyUnder(dev: Device, f: Image, e: Extent, fate: Option<nat>): Image
    requires Usable(e, dev.Total())
  {
    match fate
    case None => CopyExtent(dev, f, e)
    case Some(n) => CopyPrefix(dev, f, e, n)
  }

  predicate AllUsable(exts: seq<Extent>, total: nat) {
    forall i | 0 <= i < |exts| :: Usable(exts[i], total)
  }

  /** The file made of the written extents, copied one after the other. */
  function Dump(dev: Device, exts: seq<Extent>): Image
    requires AllUsable(exts, dev.Total())
  {
    if exts == [] then map[]
    else
      var m := |exts| - 1;
      var f := Dump(dev, exts[..m]);
      if exts[m].unwritten then f else CopyExtent(dev, f, exts[m])
  }

  /** Extent `e` says where logical block `l` of the file is. */
  predicate Maps(e: Extent, l: nat) {
    !e.unwritten && LogicalIn(l, e)
  }

  ghost predicate DisjointLogical(exts: seq<Extent>) {
    forall i, j | 0 <= i < j < |exts| :: Apart(exts[i], exts[j])
  }

  predicate Apart(a: Extent, b: Extent) {
    a.logical + a.len <= b.logical || b.logical + b.len <= a.logical
  }

  predicate MapsAt(exts: seq<Extent>, i: nat, l: nat) {
    i < |exts| && Maps(exts[i], l)
  }

  lemma CopyExtentMaps(dev: Device, f: Image, e: Extent, l: nat)
    requires Usable(e, dev.Total())
    ensures l in CopyExtent(dev, f, e) <==> l in f || LogicalIn(l, e)
    ensures LogicalIn(l, e) ==> CopyExtent(dev, f, e)[l] == dev.blocks[e.phys + (l - e.logical)]
    ensures l in f && !LogicalIn(l, e) ==> CopyExtent(dev, f, e)[l] == f[l]
  {
  }

  lemma CopyPrefixMaps(dev: Device, f: Image, e: Extent, n: nat, l: nat)
    requires Usable(e, dev.Total())
    ensures l in CopyPrefix(dev, f, e, n) <==> l in f || Reached(l, e, dev.bs, n)
    ensures Reached(l, e, dev.bs, n) ==> CopyPrefix(dev, f, e, n)[l] == PrefixBlock(dev, f, e, n, l)
    ensures l in f && !Reached(l, e, dev.bs, n) ==> CopyPrefix(dev, f, e, n)[l] == f[l]
  {
  }

  /** The copy of extent `e`, whole or not, writes to block `l` of the file. */
  predicate Touches(e: Extent, bs: nat, fate: Option<nat>, l: nat) {
    match fate
    case None => LogicalIn(l, e)
    case Some(n) => Reached(l, e, bs, n)
  }

  /** A copy leaves all other blocks of the file alone. */
  lemma CopyUnderKeeps(dev: Device, f: Image, e: Extent, fate: Option<nat>, l: nat)
    requires Usable(e, dev.Total()) && l in f
    ensures var g := CopyUnder(dev, f, e, fate); l in g && (g[l] == f[l] || Touches(e, dev.bs, fate, l))
  {
    match fate
    case None => CopyExtentMaps(dev, f, e, l);
    case Some(n) => CopyPrefixMaps(dev, f, e, n, l);
  }

  /** What the last extent adds. */
  lemma DumpLast(dev: Device, exts: seq<Extent>, l: nat)
    requires AllUsable(exts, dev.Total()) && exts != []
    ensures var m := |exts| - 1; var f, g, e := Dump(dev, exts[..m]), Dump(dev, exts), exts[m];
      && (l in g <==> l in f || Maps(e, l))
      && (Maps(e, l) ==> g[l] == dev.blocks[e.phys + (l - e.logical)])
      && (l in f && !Maps(e, l) ==> g[l] == f[l])
  {
    CopyExtentMaps(dev, Dump(dev, exts[..|exts| - 1]), exts[|exts| - 1], l);
  }

  /** The file has exactly the blocks some written extent maps. */
  lemma {:induction false} DumpDomain(dev: Device, exts: seq<Extent>, l: nat)
    requires AllUsable(exts, dev.Total())
    ensures l in Dump(dev, exts) <==> exists i: nat :: MapsAt(exts, i, l)
  {
    if exts != [] {
      var m := |exts| - 1;
      DumpDomain(dev, exts[..m], l);
      DumpLast(dev, exts, l);
      if i: nat :| MapsAt(exts[..m], i, l) {
        assert MapsAt(exts, i, l);
      } else if i: nat :| MapsAt(exts, i, l) {
        assert i < m ==> MapsAt(exts[..m], i, l);
      }
      assert Maps(exts[m], l) ==> MapsAt(exts, m, l);
    }
  }

  lemma ButLast(exts: seq<Extent>, total: nat)
    requires exts != [] && AllUsable(exts, total) && DisjointLogical(exts)
    ensures AllUsable(exts[..|exts| - 1], total) && DisjointLogical(exts[..|exts| - 1])
  {
  }

  /** Block `l` of the file, if it has one. */
  ghost function DumpAt(dev: Device, exts: seq<Extent>, l: nat): Option<Block>
    requires AllUsable(exts, dev.Total())
  {
    var f := Dump(dev, exts);
    if l in f then Some(f[l]) else None
  }

  lemma {:induction false} DumpAtLast(dev: Device, exts: seq<Extent>, l: nat)
    requires AllUsable(exts, dev.Total()) && exts != []
    ensures var m := |exts| - 1; var e := exts[m];
      DumpAt(dev, exts, l) ==
      if Maps(e, l) then Some(dev.blocks[e.phys + (l - e.logical)]) else DumpAt(dev, exts[..m], l)
  {
    DumpLast(dev, exts, l);
  }

  lemma {:induction false} DumpAtIs(dev: Device, exts: seq<Extent>, i: nat, l: nat)
    requires AllUsable(exts, dev.Total()) && DisjointLogical(exts) && MapsAt(exts, i, l)
    ensures DumpAt(dev, exts, l) == Some(dev.blocks[exts[i].phys + (l - exts[i].logical)])
  {
    var m := |exts| - 1;
    DumpAtLast(dev, exts, l);
    if i < m {
      ButLast(exts, dev.Total());
      OnlyOneMaps(exts, i, m, l);
      DumpAtIs(dev, exts[..m], i, l);
    }
  }

  /** Where extents do not overlap, each block comes from the extent that maps it. */
  lemma {:induction false} DumpValue(dev: Device, exts: seq<Extent>, i: nat, l: nat)
    requires AllUsable(exts, dev.Total()) && DisjointLogical(exts) && MapsAt(exts, i, l)
    ensures l in Dump(dev, exts) && Dump(dev, exts)[l] == dev.blocks[exts[i].phys + (l - exts[i].logical)]
  {
    DumpAtIs(dev, exts, i, l);
  }

  lemma OnlyOneMaps(exts: seq<Extent>, i: nat, j: nat, l: nat)
    requires DisjointLogical(exts) && i < j < |exts| && MapsAt(exts, i, l)
    ensures !Maps(exts[j], l)
  {
    assert Apart(exts[i], exts[j]);
  }

  predicate ByLogical(a: Extent, b: Extent) {
    a.logical <= b.logical
  }

  lemma DisjointPermuted(a: seq<Extent>, b: seq<Extent>, total: nat)
    requires multiset(a) == multiset(b) && AllUsable(a, total) && DisjointLogical(a)
    ensures AllUsable(b, total) && DisjointLogical(b)
  {
    SameElements(a, b);
    forall i | 0 <= i < |b| ensures Usable(b[i], total) {
      assert b[i] in a;
    }
    forall i, j | 0 <= i < j < |b| ensures Apart(b[i], b[j]) {
      if b[i] == b[j] {
        TwiceIn(b, i, j);
        var p, q := TwoPlaces(a, b[i]);
        assert Apart(a[p], a[q]);
      } else {
        assert b[i] in a && b[j] in a;
        var p :| 0 <= p < |a| && a[p] == b[i];
        var q :| 0 <= q < |a| && a[q] == b[j];
        assert if p < q then Apart(a[p], a[q]) else Apart(a[q], a[p]);
      }
    }
  }

  /** However ties are sorted, the emitted file maps every written logical block of the tree to its physical
      block's content and holds nothing else. */
  lemma TreeFile(dev: Device, t: seq<Extent>, sorted: seq<Extent>, l: nat)
    requires AllUsable(t, dev.Total()) && DisjointLogical(t) && SortOf(sorted, t, ByLogical)
    ensures AllUsable(sorted, dev.Total())
    ensures l in Dump(dev, sorted) <==> exists i: nat :: MapsAt(t, i, l)
    ensures forall i: nat | MapsAt(t, i, l) ::
              l in Dump(dev, sorted) && Dump(dev, sorted)[l] == dev.blocks[t[i].phys + (l - t[i].logical)]
  {
    DisjointPermuted(t, sorted, dev.Total());
    SameElements(t, sorted);
    DumpDomain(dev, sorted, l);
    if j: nat :| MapsAt(sorted, j, l) { var i := MapsPermuted(sorted, t, j, l); }
    forall i: nat | MapsAt(t, i, l)
      ensures l in Dump(dev, sorted) && Dump(dev, sorted)[l] == dev.blocks[t[i].phys + (l - t[i].logical)]
    {
      DumpPermuted(dev, t, sorted, i, l);
    }
  }

  lemma DumpPermuted(dev: Device, t: seq<Extent>, sorted: seq<Extent>, i: nat, l: nat)
    requires AllUsable(sorted, dev.Total()) && DisjointLogical(sorted)
    requires multiset(t) == multiset(sorted) && MapsAt(t, i, l)
    ensures Usable(t[i], dev.Total())
    ensures l in Dump(dev, sorted) && Dump(dev, sorted)[l] == dev.blocks[t[i].phys + (l - t[i].logical)]
  {
    var j := MapsPermuted(t, sorted, i, l);
    DumpValue(dev, sorted, j, l);
  }

  lemma MapsPermuted(a: seq<Extent>, b: seq<Extent>, i: nat, l: nat) returns (j: nat)
    requires multiset(a) == multiset(b) && MapsAt(a, i, l)
    ensures MapsAt(b, j, l) && b[j] == a[i]
  {
    SameElements(a, b);
    assert a[i] in b;
    j :| j < |b| && b[j] == a[i];
  }
}
