/** The byte-level copy of an extent (improved/ext4recover_v5.c:44-120) as the block-level copy that the
    reconstruction of files reckons with. */
module CopyImage {
  import opened Bytes
  import opened Arithmetic
  import opened Collections
  import opened ExtentTree
  import opened Reconstruct
  import opened ChunkedCopy

  /** The first `n` blocks of the device, byte after byte. */
  function FlatTo(dev: Device, n: nat): (r: seq<byte>)
    requires dev.Valid() && n <= dev.Total()
    ensures |r| == Offset(n, dev.bs)
  {
    if n == 0 then [] else FlatTo(dev, n - 1) + dev.blocks[n - 1]
  }

  /** The device, byte after byte. */
  function Flat(dev: Device): (r: seq<byte>)
    requires dev.Valid()
    ensures |r| == Offset(dev.Total(), dev.bs)
  {
    FlatTo(dev, dev.Total())
  }

  lemma {:induction false} FlatToAt(dev: Device, n: nat, b: nat, j: nat)
    requires dev.Valid() && b < n <= dev.Total() && j < dev.bs
    ensures Offset(b, dev.bs) + j < |FlatTo(dev, n)| && FlatTo(dev, n)[Offset(b, dev.bs) + j] == dev.blocks[b][j]
  {
    if b < n - 1 { FlatToAt(dev, n - 1, b, j); }
  }

  /** Byte `j` of block `l` of a file image. */
  function CellOf(img: Image, l: nat, j: nat): Cell {
    CellIn(BlockOf(img, l), j)
  }

  function CellIn(b: Block, j: nat): Cell {
    if j < |b| then Byte(b[j]) else Hole
  }

  /** The sparse file holds exactly the blocks of the image. */
  ghost predicate Represents(file: File, img: Image, bs: nat) {
    forall l: nat, j: nat | j < bs :: CellAt(file, img, bs, l, j)
  }

  ghost predicate CellAt(file: File, img: Image, bs: nat, l: nat, j: nat) {
    At(file, Offset(l, bs) + j) == CellOf(img, l, j)
  }

  /** Block `l` lies in an extent exactly when its bytes do. */
  lemma InExtent(l: nat, j: nat, block: nat, len: nat, bs: nat)
    requires j < bs
    ensures block <= l < block + len <==>
            Offset(block, bs) <= Offset(l, bs) + j < Offset(block, bs) + Offset(len, bs)
    ensures block <= l ==> Offset(l, bs) == Offset(block, bs) + Offset(l - block, bs)
  {
    if l < block {
      OffsetAdd(l + 1, block - l - 1, bs);
    } else {
      OffsetAdd(block, l - block, bs);
      if l < block + len {
        OffsetAdd(l - block + 1, block + len - l - 1, bs);
      } else {
        OffsetAdd(len, l - block - len, bs);
      }
    }
  }

  /** What is copied to byte `j` of block `l` is byte `j` of the physical block the extent maps it to. */
  lemma CopiedCell(dev: Device, e: Extent, l: nat, j: nat, k: nat, n: nat)
    requires dev.Valid() && Usable(e, dev.Total()) && LogicalIn(l, e) && j < dev.bs
    requires k == Offset(l - e.logical, dev.bs) + j < n && Offset(e.phys, dev.bs) + n <= |Flat(dev)|
    ensures Part(Flat(dev), Offset(e.phys, dev.bs), n)[k] == dev.blocks[e.phys + (l - e.logical)][j]
  {
    OffsetAdd(e.phys, l - e.logical, dev.bs);
    FlatToAt(dev, dev.Total(), e.phys + (l - e.logical), j);
  }

  /** A copy of which `n` bytes arrive turns a file that represents an image into one that represents the image with
      so much of the extent copied into it. */
  lemma CopyIsCopyPrefix(dev: Device, f: File, g: File, img: Image, e: Extent, n: nat)
    requires dev.Valid() && Usable(e, dev.Total()) && Represents(f, img, dev.bs) && n <= Offset(e.len, dev.bs)
    requires Holds(Flat(dev), f, g, Offset(e.logical, dev.bs), Offset(e.phys, dev.bs), n)
    ensures Represents(g, CopyPrefix(dev, img, e, n), dev.bs)
  {
    forall l: nat, j: nat | j < dev.bs ensures CellAt(g, CopyPrefix(dev, img, e, n), dev.bs, l, j) {
      assert CellAt(f, img, dev.bs, l, j);
      PatchedAt(Flat(dev), f, g, Offset(e.logical, dev.bs), Offset(e.phys, dev.bs), n, Offset(l, dev.bs) + j);
      CopyCell(dev, img, e, n, l, j, At(g, Offset(l, dev.bs) + j));
    }
  }

  lemma CopyCell(dev: Device, img: Image, e: Extent, n: nat, l: nat, j: nat, after: Cell)
    requires dev.Valid() && Usable(e, dev.Total()) && j < dev.bs && n <= Offset(e.len, dev.bs)
    requires n > 0 ==> Offset(e.phys, dev.bs) + n <= |Flat(dev)|
    requires after == Patch(Flat(dev), Offset(e.logical, dev.bs), Offset(e.phys, dev.bs), n, Offset(l, dev.bs) + j,
                            CellOf(img, l, j))
    ensures after == CellOf(CopyPrefix(dev, img, e, n), l, j)
  {
    FileCell(dev, e, n, l, j, CellOf(img, l, j), after);
    ImageCell(dev, img, e, n, l, j);
  }

  /** Byte `j` of block `l` of a file, which was `before`, when `n` bytes of an extent have been written to the file. */
  ghost function NewCell(dev: Device, e: Extent, n: nat, l: nat, j: nat, before: Cell): Cell
    requires dev.Valid() && Usable(e, dev.Total()) && j < dev.bs
  {
    if LogicalIn(l, e) && Offset(l - e.logical, dev.bs) + j < n then Byte(dev.blocks[e.phys + (l - e.logical)][j])
    else before
  }

  /** What byte `at` of a file becomes, by where the bytes were written. */
  ghost function Patch(bytes: seq<byte>, off: nat, from: nat, n: nat, at: nat, before: Cell): Cell
    requires n > 0 ==> from + n <= |bytes|
  {
    if off <= at < off + n then Byte(Part(bytes, from, n)[at - off]) else before
  }

  lemma PatchedAt(bytes: seq<byte>, f: File, g: File, off: nat, from: nat, n: nat, at: nat)
    requires Holds(bytes, f, g, off, from, n)
    ensures At(g, at) == Patch(bytes, off, from, n, at, At(f, at))
  {
  }

  lemma FileCell(dev: Device, e: Extent, n: nat, l: nat, j: nat, before: Cell, after: Cell)
    requires dev.Valid() && Usable(e, dev.Total()) && j < dev.bs && n <= Offset(e.len, dev.bs)
    requires n > 0 ==> Offset(e.phys, dev.bs) + n <= |Flat(dev)|
    requires after == Patch(Flat(dev), Offset(e.logical, dev.bs), Offset(e.phys, dev.bs), n, Offset(l, dev.bs) + j,
                            before)
    ensures after == NewCell(dev, e, n, l, j, before)
  {
    InExtent(l, j, e.logical, e.len, dev.bs);
    if LogicalIn(l, e) && Offset(l - e.logical, dev.bs) + j < n {
      CopiedCell(dev, e, l, j, Offset(l - e.logical, dev.bs) + j, n);
    }
  }

  lemma ImageCell(dev: Device, img: Image, e: Extent, n: nat, l: nat, j: nat)
    requires dev.Valid() && Usable(e, dev.Total()) && j < dev.bs
    ensures CellOf(CopyPrefix(dev, img, e, n), l, j) == NewCell(dev, e, n, l, j, CellOf(img, l, j))
  {
    PrefixBlockOf(dev, img, e, n, l);
    if Reached(l, e, dev.bs, n) { PrefixCell(dev, img, e, n, l, j); }
  }

  lemma PrefixBlockOf(dev: Device, img: Image, e: Extent, n: nat, l: nat)
    requires Usable(e, dev.Total())
    ensures BlockOf(CopyPrefix(dev, img, e, n), l) ==
            if Reached(l, e, dev.bs, n) then PrefixBlock(dev, img, e, n, l) else BlockOf(img, l)
  {
    CopyPrefixMaps(dev, img, e, n, l);
  }

  lemma PrefixCell(dev: Device, img: Image, e: Extent, n: nat, l: nat, j: nat)
    requires dev.Valid() && Usable(e, dev.Total()) && Reached(l, e, dev.bs, n) && j < dev.bs
    ensures CellIn(PrefixBlock(dev, img, e, n, l), j) == NewCell(dev, e, n, l, j, CellOf(img, l, j))
  {
    OverlayCell(BlockOf(img, l), dev.blocks[e.phys + (l - e.logical)], n - Offset(l - e.logical, dev.bs), j);
  }

  lemma OverlayCell(before: Block, data: Block, n: nat, j: nat)
    requires j < |data|
    ensures CellIn(Overlay(before, data, n), j) == if j < n then Byte(data[j]) else CellIn(before, j)
  {
  }

  /** All bytes of an extent copied are the extent copied. */
  lemma WholePrefix(dev: Device, img: Image, e: Extent)
    requires dev.Valid() && Usable(e, dev.Total())
    ensures CopyPrefix(dev, img, e, Offset(e.len, dev.bs)) == CopyExtent(dev, img, e)
  {
    var f, g := CopyPrefix(dev, img, e, Offset(e.len, dev.bs)), CopyExtent(dev, img, e);
    forall l: nat ensures (l in f <==> l in g) && (l in f ==> f[l] == g[l]) { WholeBlock(dev, img, e, l); }
    assert f.Keys == g.Keys;
  }

  lemma WholeBlock(dev: Device, img: Image, e: Extent, l: nat)
    requires dev.Valid() && Usable(e, dev.Total())
    ensures var f, g := CopyPrefix(dev, img, e, Offset(e.len, dev.bs)), CopyExtent(dev, img, e);
      (l in f <==> l in g) && (l in f ==> f[l] == g[l])
  {
    CopyPrefixMaps(dev, img, e, Offset(e.len, dev.bs), l);
    CopyExtentMaps(dev, img, e, l);
    if LogicalIn(l, e) { PrefixReaches(dev, img, e, l); }
  }

  lemma PrefixReaches(dev: Device, img: Image, e: Extent, l: nat)
    requires dev.Valid() && Usable(e, dev.Total()) && LogicalIn(l, e)
    ensures Reached(l, e, dev.bs, Offset(e.len, dev.bs))
    ensures PrefixBlock(dev, img, e, Offset(e.len, dev.bs), l) == dev.blocks[e.phys + (l - e.logical)]
  {
    OffsetMonotone(l - e.logical + 1, e.len, dev.bs);
  }

  /** A copy that succeeds copies the extent. */
  lemma CopyIsCopyExtent(dev: Device, f: File, g: File, img: Image, e: Extent)
    requires dev.Valid() && Usable(e, dev.Total()) && Represents(f, img, dev.bs)
    requires Holds(Flat(dev), f, g, Offset(e.logical, dev.bs), Offset(e.phys, dev.bs), Offset(e.len, dev.bs))
    ensures Represents(g, CopyExtent(dev, img, e), dev.bs)
  {
    WholePrefix(dev, img, e);
    CopyIsCopyPrefix(dev, f, g, img, e, Offset(e.len, dev.bs));
  }

  /** The chunked copy, seen block by block: some prefix of the extent is copied, all of it on success. */
  method CopyAsImage(dev: Device, f: File, ghost img: Image, e: Extent) returns (ok: bool, g: File)
    requires dev.Valid() && Usable(e, dev.Total()) && Represents(f, img, dev.bs)
    ensures ok ==> Represents(g, CopyUnder(dev, img, e, None), dev.bs)
    ensures !ok ==> exists n: nat :: n <= Offset(e.len, dev.bs) &&
                      Represents(g, CopyUnder(dev, img, e, Some(n)), dev.bs)
  {
    ghost var n: nat;
    ok, g, n := CopyBlocks(Flat(dev), dev.bs, f, e.logical, e.len, e.phys);
    if ok {
      CopyIsCopyExtent(dev, f, g, img, e);
    } else {
      CopyIsCopyPrefix(dev, f, g, img, e, n);
      assert Represents(g, CopyUnder(dev, img, e, Some(n)), dev.bs);
    }
  }
}
