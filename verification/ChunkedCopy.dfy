/** Copying an extent to an output file (improved/ext4recover_v5.c:37-120): chunks of 256 blocks, reads and writes
    that may do less than asked, and registration of what was copied. */
module ChunkedCopy {
  import opened Bytes
  import opened Arithmetic

  const RBTF_CHUNK_BLOCKS: nat := 256

  /** A sparse file: the bytes ever written to it. */
  type File = map<nat, byte>

  datatype Cell = Hole | Byte(value: byte)

  function At(f: File, k: nat): Cell {
    if k in f then Byte(f[k]) else Hole
  }

  /** `g` is `f` with `data` at `off` and nothing else changed. */
  ghost predicate Patched(f: File, g: File, off: nat, data: seq<byte>) {
    forall k: nat :: At(g, k) == if off <= k < off + |data| then Byte(data[k - off]) else At(f, k)
  }

  lemma PatchAppend(f: File, g: File, h: File, off: nat, a: seq<byte>, b: seq<byte>)
    requires Patched(f, g, off, a) && Patched(g, h, off + |a|, b)
    ensures Patched(f, h, off, a + b)
  {
    forall k: nat ensures At(h, k) == if off <= k < off + |a + b| then Byte((a + b)[k - off]) else At(f, k) {
      assert At(g, k) == if off <= k < off + |a| then Byte(a[k - off]) else At(f, k);
    }
  }

  lemma PatchUnique(f: File, g: File, h: File, off: nat, data: seq<byte>)
    requires Patched(f, g, off, data) && Patched(f, h, off, data)
    ensures g == h
  {
    forall k: nat ensures (k in g <==> k in h) && (k in g ==> g[k] == h[k]) {
      assert At(g, k) == At(h, k);
    }
    assert g.Keys == h.Keys;
  }

  /** pread: an error, or any number of bytes up to what was asked for and what the device has. */
  method PRead(dev: seq<byte>, off: nat, want: nat) returns (got: int, data: seq<byte>)
    ensures got <= want && (got > 0 ==> off + got <= |dev| && data == dev[off..off + got])
  {
    got := *;
    if got > want || got < 0 || off + got > |dev| {
      got := -1;
    }
    data := if got > 0 then dev[off..off + got] else [];
  }

  /** pwrite: an error, or any prefix of the data. */
  method PWrite(f: File, off: nat, data: seq<byte>) returns (put: int, g: File)
    ensures put <= |data| && if put > 0 then Patched(f, g, off, data[..put]) else g == f
  {
    put := *;
    if put > |data| || put < 0 {
      put := -1;
    }
    g := f;
    if put > 0 {
      g := f + map k | off <= k < off + put && Within(k, off, put) :: data[k - off];
    }
  }

  /** Lines 87-96: fill the buffer. */
  method ReadChunk(dev: seq<byte>, off: nat, n: nat) returns (ok: bool, buf: seq<byte>)
    requires n > 0
    ensures ok ==> off + n <= |dev| && buf == dev[off..off + n]
  {
    buf := [];
    var r := 0;
    while r < n
      invariant r <= n && |buf| == r
      invariant r > 0 ==> off + r <= |dev| && buf == dev[off..off + r]
    {
      var got, data := PRead(dev, off + r, n - r);
      if got <= 0 {
        return false, buf;
      }
      assert r > 0 ==> dev[off..off + r] + dev[off + r..off + r + got] == dev[off..off + r + got];
      buf := buf + data;
      r := r + got;
    }
    ok := true;
  }

  /** Lines 98-107: write the buffer out; `w` bytes of it arrive. */
  method WriteChunk(f: File, off: nat, buf: seq<byte>) returns (ok: bool, g: File, w: nat)
    ensures w <= |buf| && Patched(f, g, off, buf[..w]) && (ok ==> w == |buf|)
  {
    ok, g, w := true, f, 0;
    while w < |buf|
      invariant w <= |buf| && Patched(f, g, off, buf[..w])
    {
      var put, h := PWrite(g, off + w, buf[w..]);
      if put <= 0 {
        return false, g, w;
      }
      PatchAppend(f, g, h, off, buf[..w], buf[w..][..put]);
      assert buf[..w] + buf[w..][..put] == buf[..w + put];
      g, w := h, w + put;
    }
  }

  // ----- a whole extent -----

  /** `n` bytes of the device from `from` on. */
  function Part(dev: seq<byte>, from: nat, n: nat): (d: seq<byte>)
    requires n > 0 ==> from + n <= |dev|
    ensures |d| == n
  {
    if n == 0 then [] else dev[from..from + n]
  }

  lemma PartAppend(dev: seq<byte>, from: nat, n: nat, m: nat)
    requires n + m > 0 ==> from + n + m <= |dev|
    ensures Part(dev, from, n) + Part(dev, from + n, m) == Part(dev, from, n + m)
  {
  }

  /** `g` is `f` with `n` bytes of the device, from `from` on, at `off`, and nothing else changed. */
  ghost predicate Holds(dev: seq<byte>, f: File, g: File, off: nat, from: nat, n: nat) {
    (n > 0 ==> from + n <= |dev|) && Patched(f, g, off, Part(dev, from, n))
  }

  lemma HoldsMore(dev: seq<byte>, f: File, g: File, h: File, off: nat, from: nat, n: nat, off': nat, from': nat, m: nat)
    requires Holds(dev, f, g, off, from, n) && Holds(dev, g, h, off', from', m)
    requires off' == off + n && from' == from + n
    ensures Holds(dev, f, h, off, from, n + m)
  {
    PartAppend(dev, from, n, m);
    PatchAppend(f, g, h, off, Part(dev, from, n), Part(dev, from', m));
  }

  /** Read a chunk and write it out: `w` bytes of it reach the file. */
  method CopyChunk(dev: seq<byte>, f: File, devOff: nat, inoOff: nat, bytes: nat) returns (ok: bool, g: File, w: nat)
    requires bytes > 0
    ensures w <= bytes && (ok ==> w == bytes) && Holds(dev, f, g, inoOff, devOff, w)
  {
    var buf;
    ok, buf := ReadChunk(dev, devOff, bytes);
    if !ok {
      return false, f, 0;
    }
    ok, g, w := WriteChunk(f, inoOff, buf);
    assert buf[..w] == Part(dev, devOff, w);
  }

  /** Whatever reads and writes do, what reaches the file is a prefix of the extent at its place and nothing else;
      on success it is the whole extent. */
  method CopyBlocks(dev: seq<byte>, bs: nat, f: File, block: nat, len: nat, start: nat)
    returns (ok: bool, g: File, ghost n: nat)
    requires bs > 0
    ensures n <= Offset(len, bs) && (ok ==> n == Offset(len, bs))
    ensures Holds(dev, f, g, Offset(block, bs), Offset(start, bs), n)
    ensures ok ==> Holds(dev, f, g, block * bs, start * bs, len * bs)
  {
    ok, g, n := StreamBlocks(dev, bs, f, block, len, start);
    OffsetIsProduct(block, bs);
    OffsetIsProduct(start, bs);
    OffsetIsProduct(len, bs);
  }

  /** The streaming loop. */
  method StreamBlocks(dev: seq<byte>, bs: nat, f: File, block: nat, len: nat, start: nat)
    returns (ok: bool, g: File, ghost n: nat)
    requires bs > 0
    ensures n <= Offset(len, bs) && (ok ==> n == Offset(len, bs))
    ensures Holds(dev, f, g, Offset(block, bs), Offset(start, bs), n)
  {
    g, n := f, 0;
    var done := 0;
    while done < len
      invariant done <= len && n == Offset(done, bs)
      invariant Holds(dev, f, g, Offset(block, bs), Offset(start, bs), n)
    {
      var blocks := if len - done > RBTF_CHUNK_BLOCKS then RBTF_CHUNK_BLOCKS else len - done;
      OffsetMonotone(done + blocks, len, bs);
      ok, g, n := CopyNext(dev, bs, f, g, block, start, done, blocks);
      if !ok {
        return;
      }
      done := done + blocks;
    }
    ok := true;
  }

  /** One turn of the streaming loop, after `done` blocks. */
  method CopyNext(dev: seq<byte>, bs: nat, ghost f: File, g: File, block: nat, start: nat, done: nat, blocks: nat)
    returns (ok: bool, h: File, ghost n: nat)
    requires bs > 0 && blocks > 0 && Holds(dev, f, g, Offset(block, bs), Offset(start, bs), Offset(done, bs))
    ensures n <= Offset(done + blocks, bs) && (ok ==> n == Offset(done + blocks, bs))
    ensures Holds(dev, f, h, Offset(block, bs), Offset(start, bs), n)
    ensures ok ==> Holds(dev, f, h, Offset(block, bs), Offset(start, bs), Offset(done + blocks, bs))
  {
    ChunkOffsets(start, block, done, blocks, done + blocks, bs);
    var devOff, inoOff := Offset(start + done, bs), Offset(block + done, bs);
    var w;
    ok, h, w := CopyChunk(dev, g, devOff, inoOff, Offset(blocks, bs));
    n := Offset(done, bs) + w;
    HoldsMore(dev, f, g, h, Offset(block, bs), Offset(start, bs), Offset(done, bs), inoOff, devOff, w);
  }

  lemma ChunkOffsets(start: nat, block: nat, done: nat, blocks: nat, len: nat, bs: nat)
    requires bs > 0 && 0 < blocks && done + blocks <= len
    ensures Offset(start + done, bs) == Offset(start, bs) + Offset(done, bs)
    ensures Offset(block + done, bs) == Offset(block, bs) + Offset(done, bs)
    ensures Offset(done + blocks, bs) == Offset(done, bs) + Offset(blocks, bs) <= Offset(len, bs)
    ensures Offset(blocks, bs) > 0
  {
    OffsetAdd(start, done, bs);
    OffsetAdd(block, done, bs);
    OffsetAdd(done, blocks, bs);
    OffsetAdd(done + blocks, len - done - blocks, bs);
  }

  /** `files[i]` is the file after copying `i` blocks, one at a time. */
  ghost predicate BlockByBlock(dev: seq<byte>, bs: nat, files: seq<File>, block: nat, start: nat) {
    |files| > 0 && forall i: nat | i + 1 < |files| :: CopiesOne(dev, bs, files, block, start, i)
  }

  ghost predicate CopiesOne(dev: seq<byte>, bs: nat, files: seq<File>, block: nat, start: nat, i: nat)
    requires i + 1 < |files|
  {
    Holds(dev, files[i], files[i + 1], Offset(block + i, bs), Offset(start + i, bs), bs)
  }

  /** What the block-by-block copy leaves is what a successful chunked copy leaves. */
  lemma {:induction false} BlockByBlockIsOnePatch(dev: seq<byte>, bs: nat, files: seq<File>, block: nat, start: nat,
                                                  i: nat)
    requires bs > 0 && BlockByBlock(dev, bs, files, block, start) && i < |files|
    ensures Holds(dev, files[0], files[i], Offset(block, bs), Offset(start, bs), Offset(i, bs))
  {
    if i > 0 {
      var m := i - 1;
      BlockByBlockIsOnePatch(dev, bs, files, block, start, m);
      assert CopiesOne(dev, bs, files, block, start, m);
      OffsetAdd(start, m, bs);
      OffsetAdd(block, m, bs);
      HoldsMore(dev, files[0], files[m], files[i], Offset(block, bs), Offset(start, bs), Offset(m, bs),
                Offset(block + m, bs), Offset(start + m, bs), bs);
    }
  }

  /** A chunked copy that succeeds leaves the same file as copying block by block. */
  lemma ChunkedIsBlockByBlock(dev: seq<byte>, bs: nat, files: seq<File>, g: File, block: nat, len: nat, start: nat)
    requires bs > 0 && BlockByBlock(dev, bs, files, block, start) && |files| == len + 1
    requires Holds(dev, files[0], g, block * bs, start * bs, len * bs)
    ensures g == files[len]
  {
    BlockByBlockIsOnePatch(dev, bs, files, block, start, len);
    OffsetIsProduct(block, bs);
    OffsetIsProduct(start, bs);
    OffsetIsProduct(len, bs);
    PatchUnique(files[0], g, files[len], block * bs, Part(dev, start * bs, len * bs));
  }
}
