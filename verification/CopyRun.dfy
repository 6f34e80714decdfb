/** A run of extent copies with cross-phase redundancy checks (improved/ext4recover_v5.c:44-120,
    improved/aggressive_scan_v5.c:277-293, 364-388): what the interval set says has really been copied. */
module CopyRun {
  import opened Bytes
  import opened Intervals
  import opened Arithmetic
  import opened ChunkedCopy

  /** One byte written: file, offset, value. */
  type Written = (nat, nat, byte)

  function Trace(f: nat, off: nat, data: seq<byte>): set<Written> {
    set i | 0 <= i < |data| :: (f, off + i, data[i])
  }

  /** All of device block `p` has been written, as block `l` of file `f`. */
  ghost predicate WrittenAs(log: set<Written>, dev: seq<byte>, bs: nat, p: nat, f: nat, l: nat) {
    && Offset(p + 1, bs) <= |dev|
    && forall j: nat | j < bs :: ByteWritten(log, dev, f, Offset(l, bs), Offset(p, bs), j)
  }

  ghost predicate ByteWritten(log: set<Written>, dev: seq<byte>, f: nat, off: nat, from: nat, j: nat) {
    from + j < |dev| && (f, off + j, dev[from + j]) in log
  }

  ghost predicate Copied(log: set<Written>, dev: seq<byte>, bs: nat, p: nat) {
    exists f: nat, l: nat :: WrittenAs(log, dev, bs, p, f, l)
  }

  lemma {:induction false} CopiedStays(a: set<Written>, b: set<Written>, dev: seq<byte>, bs: nat, p: nat)
    requires a <= b && Copied(a, dev, bs, p)
    ensures Copied(b, dev, bs, p)
  {
    var f: nat, l: nat :| WrittenAs(a, dev, bs, p, f, l);
    forall j: nat | j < bs ensures ByteWritten(b, dev, f, Offset(l, bs), Offset(p, bs), j) {
      assert ByteWritten(a, dev, f, Offset(l, bs), Offset(p, bs), j);
    }
    assert WrittenAs(b, dev, bs, p, f, l);
  }

  /** Writing an extent in full writes each of its blocks in full. */
  lemma {:induction false} ExtentCopied(log: set<Written>, dev: seq<byte>, bs: nat, f: nat, block: nat, len: nat,
                                        start: nat, d: nat, n: nat)
    requires bs > 0 && d < len && n == Offset(len, bs) && (n > 0 ==> Offset(start, bs) + n <= |dev|)
    requires Trace(f, Offset(block, bs), Part(dev, Offset(start, bs), n)) <= log
    ensures Copied(log, dev, bs, start + d)
  {
    BlockOffsets(block, len, start, d, bs);
    SpanWritten(log, dev, f, Offset(block, bs), Offset(start, bs), n, Offset(d, bs), bs,
                Offset(block + d, bs), Offset(start + d, bs));
    CopiedAs(log, dev, bs, start + d, f, block + d);
  }

  lemma {:induction false} CopiedAs(log: set<Written>, dev: seq<byte>, bs: nat, p: nat, f: nat, l: nat)
    requires Offset(p + 1, bs) <= |dev|
    requires forall j: nat | j < bs :: ByteWritten(log, dev, f, Offset(l, bs), Offset(p, bs), j)
    ensures Copied(log, dev, bs, p)
  {
    assert WrittenAs(log, dev, bs, p, f, l);
  }

  /** After a copy of `n` bytes, what was copied before still is, and so is the extent if the copy was complete. */
  lemma {:induction false} AllCopied(log0: set<Written>, log: set<Written>, dev: seq<byte>, bs: nat, covered: set<nat>,
                  f: nat, block: nat, len: nat, start: nat, n: nat)
    requires bs > 0 && n <= Offset(len, bs) && (n > 0 ==> Offset(start, bs) + n <= |dev|)
    requires log == log0 + Trace(f, Offset(block, bs), Part(dev, Offset(start, bs), n))
    requires forall p | p in covered :: Copied(log0, dev, bs, p)
    ensures forall p | p in covered :: Copied(log, dev, bs, p)
    ensures n == Offset(len, bs) ==> forall p | p in Range(start, len) :: Copied(log, dev, bs, p)
  {
    AllStayCopied(log0, log, dev, bs, covered);
    if n == Offset(len, bs) { ExtentAllCopied(log, dev, bs, f, block, len, start, n); }
  }

  lemma {:induction false} AllStayCopied(a: set<Written>, b: set<Written>, dev: seq<byte>, bs: nat, covered: set<nat>)
    requires a <= b && forall p | p in covered :: Copied(a, dev, bs, p)
    ensures forall p | p in covered :: Copied(b, dev, bs, p)
  {
    forall p | p in covered ensures Copied(b, dev, bs, p) {
      CopiedStays(a, b, dev, bs, p);
    }
  }

  lemma {:induction false} ExtentAllCopied(log: set<Written>, dev: seq<byte>, bs: nat, f: nat, block: nat, len: nat,
                                           start: nat, n: nat)
    requires bs > 0 && n == Offset(len, bs) && (n > 0 ==> Offset(start, bs) + n <= |dev|)
    requires Trace(f, Offset(block, bs), Part(dev, Offset(start, bs), n)) <= log
    ensures forall p | p in Range(start, len) :: Copied(log, dev, bs, p)
  {
    forall p | p in Range(start, len) ensures Copied(log, dev, bs, p) {
      ExtentCopied(log, dev, bs, f, block, len, start, p - start, n);
    }
  }

  lemma {:induction false} BlockOffsets(block: nat, len: nat, start: nat, d: nat, bs: nat)
    requires d < len
    ensures Offset(start + d, bs) == Offset(start, bs) + Offset(d, bs)
    ensures Offset(start + d + 1, bs) == Offset(start, bs) + Offset(d, bs) + bs
    ensures Offset(block + d, bs) == Offset(block, bs) + Offset(d, bs)
    ensures Offset(d, bs) + bs <= Offset(len, bs)
  {
    OffsetAdd(start, d, bs);
    OffsetAdd(block, d, bs);
    OffsetAdd(d + 1, len - d - 1, bs);
  }

  lemma {:induction false} SpanWritten(log: set<Written>, dev: seq<byte>, f: nat, off: nat, from: nat, n: nat, k: nat,
                                       bs: nat, offL: nat, offP: nat)
    requires from + n <= |dev| && Trace(f, off, Part(dev, from, n)) <= log
    requires k + bs <= n && offL == off + k && offP == from + k
    ensures forall j: nat | j < bs :: ByteWritten(log, dev, f, offL, offP, j)
  {
    forall j: nat | j < bs ensures ByteWritten(log, dev, f, offL, offP, j) {
      TraceHas(log, dev, f, off, from, n, k + j);
      assert off + (k + j) == offL + j && from + (k + j) == offP + j;
    }
  }

  lemma TraceHas(log: set<Written>, dev: seq<byte>, f: nat, off: nat, from: nat, n: nat, i: nat)
    requires i < n && from + n <= |dev| && Trace(f, off, Part(dev, from, n)) <= log
    ensures (f, off + i, dev[from + i]) in log
  {
    var data := Part(dev, from, n);
    assert data[i] == dev[from + i];
    assert (f, off + i, data[i]) in Trace(f, off, data);
  }

  function FileOf(files: map<nat, File>, f: nat): File {
    if f in files then files[f] else map[]
  }

  /** `n` bytes of the extent, all of it if the copy went well, arrived at their place in file `f`, and are logged. */
  ghost predicate Wrote(dev: seq<byte>, bs: nat, files: map<nat, File>, files': map<nat, File>,
                        log: set<Written>, log': set<Written>, f: nat, block: nat, len: nat, start: nat, ok: bool,
                        n: nat) {
    && n <= Offset(len, bs) && (ok ==> n == Offset(len, bs))
    && Holds(dev, FileOf(files, f), FileOf(files', f), Offset(block, bs), Offset(start, bs), n)
    && log' == log + Trace(f, Offset(block, bs), Part(dev, Offset(start, bs), n))
  }

  class Run {
    const dev: seq<byte>
    const bs: nat
    const extents: RecoveredIntervals
    var files: map<nat, File>
    /** Every byte any output file ever received. */
    ghost var log: set<Written>

    /** Nothing is registered that has not been copied. */
    ghost predicate Valid()
      reads this, extents, extents.starts, extents.lens
    {
      bs > 0 && extents.Valid() && forall p | p in extents.Set() :: Copied(log, dev, bs, p)
    }

    constructor (dev: seq<byte>, bs: nat)
      requires bs > 0
      ensures Valid() && this.dev == dev && this.bs == bs && files == map[] && log == {} && extents.Set() == {}
      ensures fresh(extents) && fresh(extents.starts) && fresh(extents.lens)
    {
      this.dev, this.bs := dev, bs;
      extents := new RecoveredIntervals();
      files, log := map[], {};
    }

    /** recover_block_to_file. */
    method CopyExtent(f: nat, block: nat, len: nat, start: nat) returns (ok: bool)
      requires Valid() && start + len < U64
      modifies this, extents, extents.starts, extents.lens
      ensures Valid() && old(log) <= log
      ensures f in files && forall g | g != f :: (g in files <==> g in old(files)) && (g in files ==>
        files[g] == old(files)[g])
      ensures extents.Set() == if ok then old(extents.Set()) + Range(start, len) else old(extents.Set())
      ensures exists n: nat :: Wrote(dev, bs, old(files), files, old(log), log, f, block, len, start, ok, n)
    {
      var before := FileOf(files, f);
      ghost var n: nat;
      var g;
      ok, g, n := CopyBlocks(dev, bs, before, block, len, start);
      files := files[f := g];
      ghost var log0 := log;
      log := log + Trace(f, Offset(block, bs), Part(dev, Offset(start, bs), n));
      AllCopied(log0, log, dev, bs, extents.Set(), f, block, len, start, n);
      assert Wrote(dev, bs, old(files), files, old(log), log, f, block, len, start, ok, n);
      if ok {
        var rc := extents.Add(start, len, true);
      }
    }

    /** The redundancy check before a file is created: skipping is only decided for what was copied in full. */
    method Redundant(exts: seq<Interval>) returns (skip: bool)
      requires Valid() && forall i | 0 <= i < |exts| :: exts[i].len > 0 && exts[i].End() < U64
      ensures skip <==> exts != [] && forall i | 0 <= i < |exts| :: Range(exts[i].start, exts[i].len) <= extents.Set()
      ensures skip ==> forall i, p | 0 <= i < |exts| && p in Range(exts[i].start, exts[i].len) ::
        Copied(log, dev, bs, p)
    {
      var fully := 0;
      for k := 0 to |exts|
        invariant fully <= k
        invariant fully == k <==> forall i | 0 <= i < k :: Range(exts[i].start, exts[i].len) <= extents.Set()
      {
        var rc := extents.Query(exts[k].start, exts[k].len);
        if rc == 1 { fully := fully + 1; }
      }
      skip := |exts| > 0 && fully == |exts|;
    }
  }
}
