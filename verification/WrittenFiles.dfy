/** Files mapped by indirect blocks, given by the bytes on the device (improved/indirect_recovery.c:37-136). */
module WrittenFiles {
  import opened Bytes
  import opened Arithmetic
  import opened Collections
  import opened ExtentTree
  import opened IndirectFiles
  import opened IndirectDump

  // ----- the bytes of an indirect block -----

  ghost predicate PointersFit(ps: seq<nat>) {
    forall i | 0 <= i < |ps| :: ps[i] < 0x1_0000_0000
  }

  /** Pointers as little-endian bytes. */
  function PutPointers(ps: seq<nat>): (s: seq<byte>)
    requires PointersFit(ps)
    ensures |s| == 4 * |ps|
  {
    if ps == [] then [] else PutPointers(ps[..|ps| - 1]) + PutLe32(ps[|ps| - 1])
  }

  lemma {:induction false} PointerStands(ps: seq<nat>, i: nat)
    requires PointersFit(ps) && i < |ps|
    ensures StandsAt(PutPointers(ps), 4 * i, PutLe32(ps[i]))
  {
    var m := |ps| - 1;
    if i < m { PointerStands(ps[..m], i); }
  }

  lemma InPrefix(buf: seq<byte>, t: seq<byte>, q: nat, u: seq<byte>)
    requires t <= buf && StandsAt(t, q, u)
    ensures StandsAt(buf, q, u)
  {
    assert buf[q..q + |u|] == t[q..q + |u|];
  }

  lemma PointerRead(buf: Block, ps: seq<nat>, i: nat)
    requires PointersFit(ps) && i < |ps| && PutPointers(ps) <= buf
    ensures 4 * i + 4 <= |buf| && Le32(buf, 4 * i) == ps[i]
  {
    PointerStands(ps, i);
    InPrefix(buf, PutPointers(ps), 4 * i, PutLe32(ps[i]));
    ReadsLe32(buf, 4 * i, ps[i]);
  }

  /** Block `b` was written with the pointers `ps`, as many as fit, and can be read as an indirect block. */
  ghost predicate HoldsPointers(dev: Device, unreadable: set<nat>, b: nat, ps: seq<nat>) {
    && 0 < b < dev.Total() && b !in unreadable
    && |ps| == dev.bs / 4 && PointersFit(ps) && PutPointers(ps) <= dev.blocks[b]
  }

  /** It is read with just these pointers. */
  lemma PointersRead(dev: Device, unreadable: set<nat>, b: nat, ps: seq<nat>)
    requires dev.Valid() && HoldsPointers(dev, unreadable, b, ps)
    ensures View(dev, unreadable).pointers(b) == ps
  {
    PointersAre(dev, b, ps);
  }

  lemma PointersAre(dev: Device, b: nat, ps: seq<nat>)
    requires b < dev.Total() && |dev.blocks[b]| == dev.bs && |ps| == dev.bs / 4
    requires PointersFit(ps) && PutPointers(ps) <= dev.blocks[b]
    ensures Pointers(dev, b) == ps
  {
    forall i | 0 <= i < |ps| ensures Le32(dev.blocks[b], 4 * i) == ps[i] {
      PointerRead(dev.blocks[b], ps, i);
    }
  }

  // ----- a file -----

  /** The indirect blocks of a file: pointers of the single one, pointers of the double one, and of each block below. */
  datatype Tables = Tables(single: seq<nat>, double: seq<nat>, rows: seq<seq<nat>>)

  /** Physical block `p` holds block `l` of the file: one of the first twelve, one of those behind the thirteenth
      pointer, or one of those two levels behind the fourteenth. */
  ghost predicate MappedTo(dev: Device, unreadable: set<nat>, f: Inode, tabs: Tables, l: nat, p: nat)
    requires f.Valid() && dev.Valid()
  {
    var per := dev.bs / 4;
    if l < 12 then f.ptrs[l] == p
    else if l < 12 + per then
      HoldsPointers(dev, unreadable, f.ptrs[12], tabs.single) && tabs.single[l - 12] == p
    else
      exists r: nat, k: nat ::
        k < per && l == 12 + per + r * per + k && DoublyMappedTo(dev, unreadable, f, tabs, r, k, p)
  }

  /** `p` is pointer `k` of the block that pointer `r` of the double indirect block leads to. */
  ghost predicate DoublyMappedTo(dev: Device, unreadable: set<nat>, f: Inode, tabs: Tables, r: nat, k: nat, p: nat)
    requires f.Valid() && dev.Valid()
  {
    && HoldsPointers(dev, unreadable, f.ptrs[13], tabs.double) && r < |tabs.double| && r < |tabs.rows|
    && HoldsPointers(dev, unreadable, tabs.double[r], tabs.rows[r]) && k < |tabs.rows[r]| && tabs.rows[r][k] == p
  }

  /** A file of `f.size` bytes in these blocks, written byte for byte. */
  ghost predicate WrittenFile(dev: Device, unreadable: set<nat>, f: Inode, tabs: Tables, blocks: seq<nat>) {
    && dev.Valid() && f.Valid() && !f.extents && f.size > 0
    && |blocks| == (f.size - 1) / dev.bs + 1
    && forall l | 0 <= l < |blocks| ::
         0 < blocks[l] < dev.Total() && MappedTo(dev, unreadable, f, tabs, l, blocks[l])
  }

  lemma EntryRead(dev: Device, unreadable: set<nat>, b: nat, ps: seq<nat>, k: nat)
    requires dev.Valid() && HoldsPointers(dev, unreadable, b, ps) && k < |ps|
    ensures Entry(View(dev, unreadable), b, k) == ps[k]
  {
    PointersRead(dev, unreadable, b, ps);
  }

  lemma SingleMapped(t: Table, f: Inode, k: nat)
    requires t.Valid() && f.Valid() && k < t.per
    ensures BlockOf(t, f, 12 + k) == Entry(t, f.ptrs[12], k)
  {
  }

  lemma DoubleMapped(t: Table, f: Inode, r: nat, k: nat, l: nat)
    requires t.Valid() && f.Valid() && k < t.per && l == 12 + t.per + r * t.per + k
    ensures BlockOf(t, f, l) == Entry(t, Entry(t, f.ptrs[13], r), k)
  {
    Product(r, t.per);
    DivMod(r, t.per, k);
    assert l - 12 - t.per == r * t.per + k;
  }

  lemma DoubleRead(dev: Device, unreadable: set<nat>, f: Inode, tabs: Tables, r: nat, k: nat, p: nat)
    requires dev.Valid() && f.Valid() && DoublyMappedTo(dev, unreadable, f, tabs, r, k, p)
    ensures Entry(View(dev, unreadable), Entry(View(dev, unreadable), f.ptrs[13], r), k) == p
  {
    EntryRead(dev, unreadable, f.ptrs[13], tabs.double, r);
    EntryRead(dev, unreadable, tabs.double[r], tabs.rows[r], k);
  }

  lemma DoubleCase(dev: Device, unreadable: set<nat>, f: Inode, tabs: Tables, r: nat, k: nat, l: nat, p: nat, t: Table)
    requires dev.Valid() && f.Valid() && DoublyMappedTo(dev, unreadable, f, tabs, r, k, p) && k < t.per
    requires t == View(dev, unreadable) && l == 12 + t.per + r * t.per + k
    ensures BlockOf(t, f, l) == p
  {
    DoubleRead(dev, unreadable, f, tabs, r, k, p);
    DoubleMapped(t, f, r, k, l);
  }

  lemma SingleCase(dev: Device, unreadable: set<nat>, f: Inode, tabs: Tables, k: nat, p: nat)
    requires dev.Valid() && f.Valid() && k < dev.bs / 4
    requires HoldsPointers(dev, unreadable, f.ptrs[12], tabs.single) && tabs.single[k] == p
    ensures BlockOf(View(dev, unreadable), f, 12 + k) == p
  {
    EntryRead(dev, unreadable, f.ptrs[12], tabs.single, k);
    SingleMapped(View(dev, unreadable), f, k);
  }

  lemma BlockMapRead(dev: Device, unreadable: set<nat>, f: Inode, tabs: Tables, l: nat, p: nat)
    requires dev.Valid() && f.Valid() && MappedTo(dev, unreadable, f, tabs, l, p)
    ensures BlockOf(View(dev, unreadable), f, l) == p
  {
    var per := dev.bs / 4;
    if l >= 12 + per {
      var r: nat, k: nat :|
        k < per && l == 12 + per + r * per + k && DoublyMappedTo(dev, unreadable, f, tabs, r, k, p);
      DoubleCase(dev, unreadable, f, tabs, r, k, l, p, View(dev, unreadable));
    } else if l >= 12 {
      SingleCase(dev, unreadable, f, tabs, l - 12, p);
    }
  }

  ghost predicate InDevice(dev: Device, blocks: seq<nat>) {
    forall l | 0 <= l < |blocks| :: blocks[l] < dev.Total()
  }

  /** The file a block list denotes. */
  ghost function BytesOf(dev: Device, blocks: seq<nat>, size: nat): (s: seq<byte>)
    requires dev.Valid() && size > 0 && |blocks| == (size - 1) / dev.bs + 1 && InDevice(dev, blocks)
    ensures |s| == size
  {
    seq(size, k requires 0 <= k < size => ByteAtPlace(dev, blocks, size, k))
  }

  /** Byte `k`: in block k / bs, at k % bs. */
  ghost function ByteAtPlace(dev: Device, blocks: seq<nat>, size: nat, k: nat): byte
    requires dev.Valid() && k < size && |blocks| == (size - 1) / dev.bs + 1 && InDevice(dev, blocks)
  {
    QuotientMonotone(k, size - 1, dev.bs);
    ByteIn(dev, blocks, k / dev.bs, k % dev.bs)
  }

  ghost function ByteIn(dev: Device, blocks: seq<nat>, q: nat, r: nat): byte
    requires dev.Valid() && q < |blocks| && InDevice(dev, blocks) && r < dev.bs
  {
    dev.blocks[blocks[q]][r]
  }

  lemma MapRead(dev: Device, unreadable: set<nat>, f: Inode, tabs: Tables, blocks: seq<nat>)
    requires WrittenFile(dev, unreadable, f, tabs, blocks)
    ensures forall l | 0 <= l < |blocks| :: BlockOf(View(dev, unreadable), f, l) == blocks[l]
    ensures Whole(dev, View(dev, unreadable), f)
  {
    var t := View(dev, unreadable);
    forall l | 0 <= l < |blocks| ensures BlockOf(t, f, l) == blocks[l] {
      BlockMapRead(dev, unreadable, f, tabs, l, blocks[l]);
    }
  }

  lemma WrittenIsWhole(dev: Device, unreadable: set<nat>, f: Inode, tabs: Tables, blocks: seq<nat>)
    requires WrittenFile(dev, unreadable, f, tabs, blocks)
    ensures Whole(dev, View(dev, unreadable), f)
    ensures FileBytes(dev, View(dev, unreadable), f) == BytesOf(dev, blocks, f.size)
  {
    MapRead(dev, unreadable, f, tabs, blocks);
    forall k: nat | k < f.size
      ensures ByteAt(dev, View(dev, unreadable), f, k) == ByteAtPlace(dev, blocks, f.size, k)
    {
      SameByte(dev, View(dev, unreadable), f, blocks, k);
    }
  }

  lemma SameByte(dev: Device, t: Table, f: Inode, blocks: seq<nat>, k: nat)
    requires Whole(dev, t, f) && k < f.size && |blocks| == (f.size - 1) / dev.bs + 1 && InDevice(dev, blocks)
    requires forall l | 0 <= l < |blocks| :: BlockOf(t, f, l) == blocks[l]
    ensures ByteAt(dev, t, f, k) == ByteAtPlace(dev, blocks, f.size, k)
  {
    QuotientMonotone(k, f.size - 1, dev.bs);
  }

  /** A file without holes, of at most 1048576 blocks, whose blocks are transferred well, comes out byte by byte. */
  method RecoverWritten(dev: Device, io: Attempts, unreadable: set<nat>, f: Inode, ghost tabs: Tables,
                        ghost blocks: seq<nat>)
    returns (r: Result)
    requires WrittenFile(dev, unreadable, f, tabs, blocks) && |blocks| <= 1048576
    requires forall i: nat | i < |blocks| :: io(i) == Fine
    ensures r == Recovered(BytesOf(dev, blocks, f.size))
  {
    r := RecoverIndirectFile(dev, io, unreadable, f, -1);
    WrittenIsWhole(dev, unreadable, f, tabs, blocks);
    FileRecovered(dev, io, View(dev, unreadable), f);
  }

  // ----- whatever goes wrong -----

  /** What reaches the output when the blocks are read and written one after the other: a block that cannot be read adds
      nothing, a write that stops short as much as it got through. */
  ghost function Transferred(dev: Device, io: Attempts, blocks: seq<nat>): seq<byte>
    requires InDevice(dev, blocks)
  {
    if blocks == [] then []
    else
      var m := |blocks| - 1;
      var data := dev.blocks[blocks[m]];
      Transferred(dev, io, blocks[..m]) +
        match io(m)
        case Fine => data
        case ReadFails => []
        case WriteFails(n) => if n <= |data| then data[..n] else data
  }

  /** The chain of a file without holes that ends after `n` blocks. */
  lemma ChainIsBlocks(t: Table, f: Inode, s: seq<Piece>, n: nat)
    requires t.Valid() && f.Valid() && s == Chain(t, f) && n > 0 && NoHole(t, f, n - 1)
    requires forall l: nat | l >= n :: !Mapped(t, f, l)
    ensures |s| == n && forall i | 0 <= i < n :: s[i].phys == BlockOf(t, f, i)
  {
    ChainTrue(t, f);
    ChainAscends(t, f);
    forall i: nat | i < n ensures i < |s| && s[i].logical == i {
      InPlace(t, f, s, i, n - 1);
    }
    InPlace(t, f, s, n - 1, n - 1);
    NothingAfter(t, f, s, 12 + t.per + Span(t, t.per), n);
  }

  lemma InPlace(t: Table, f: Inode, s: seq<Piece>, i: nat, last: nat)
    requires t.Valid() && f.Valid() && s == Chain(t, f) && NoHole(t, f, last) && i <= last
    ensures i < |s| && s[i].logical == i
  {
    ChainReaches(t, f, i);
  }

  lemma NothingAfter(t: Table, f: Inode, s: seq<Piece>, hi: nat, n: nat)
    requires t.Valid() && f.Valid() && TrueTo(t, f, s) && Ascending(s, 0, hi)
    requires forall l: nat | l >= n :: !Mapped(t, f, l)
    ensures |s| <= n
  {
    if |s| > n {
      LabelsDense(s, hi, n);
      LabelMapped(t, f, s, n);
    }
  }

  lemma LabelMapped(t: Table, f: Inode, s: seq<Piece>, k: nat)
    requires t.Valid() && f.Valid() && TrueTo(t, f, s) && k < |s|
    ensures Mapped(t, f, s[k].logical)
  {
  }

  lemma {:induction false} ContentIsTransferred(dev: Device, io: Attempts, s: seq<Piece>, blocks: seq<nat>, n: nat)
    requires InDevice(dev, blocks) && |s| == |blocks| && n <= |s|
    requires forall i | 0 <= i < |s| :: s[i].phys == blocks[i]
    ensures InDevice(dev, blocks[..n]) && Content(dev, io, s[..n]) == Transferred(dev, io, blocks[..n])
  {
    if n > 0 {
      ContentIsTransferred(dev, io, s, blocks, n - 1);
      ContentStep(dev, io, s, n - 1);
      TransferredStep(dev, io, blocks, n - 1);
    }
  }

  lemma {:induction false} ContentStep(dev: Device, io: Attempts, s: seq<Piece>, m: nat)
    requires m < |s|
    ensures Content(dev, io, s[..m + 1]) == Content(dev, io, s[..m]) + Arrives(io(m), BlockAt(dev, s[m].phys))
  {
    assert s[..m + 1][..m] == s[..m];
  }

  lemma {:induction false} TransferredStep(dev: Device, io: Attempts, blocks: seq<nat>, m: nat)
    requires InDevice(dev, blocks) && m < |blocks|
    ensures InDevice(dev, blocks[..m]) && InDevice(dev, blocks[..m + 1])
    ensures Transferred(dev, io, blocks[..m + 1]) ==
            Transferred(dev, io, blocks[..m]) + Arrives(io(m), BlockAt(dev, blocks[m]))
  {
    assert blocks[..m + 1][..m] == blocks[..m];
  }

  lemma {:induction false} NoSuccess(io: Attempts, n: nat)
    ensures Successes(io, 0, n) == 0 <==> forall i: nat | i < n :: io(i) != Fine
  {
    if n > 0 { NoSuccess(io, n - 1); }
  }

  lemma ChainTransferred(dev: Device, io: Attempts, t: Table, f: Inode, blocks: seq<nat>)
    requires t.Valid() && f.Valid() && InDevice(dev, blocks) && |blocks| <= 1048576
    requires |Chain(t, f)| == |blocks| && forall i | 0 <= i < |blocks| :: Chain(t, f)[i].phys == blocks[i]
    ensures var k := PutChain(dev, io, t, f);
      k.out == Transferred(dev, io, blocks) && k.count == |blocks|
      && (k.ok == 0 <==> forall i: nat | i < |blocks| :: io(i) != Fine)
  {
    var s := Chain(t, f);
    PutsChain(dev, io, s);
    ContentIsTransferred(dev, io, s, blocks, |s|);
    assert s[..|s|] == s && blocks[..|blocks|] == blocks;
    NoSuccess(io, |blocks|);
  }

  /** What comes of it: nothing if no block got through, else what did, at the file's size unless the file fills its
      blocks exactly. */
  ghost function Expected(dev: Device, io: Attempts, blocks: seq<nat>, size: nat): Result
    requires InDevice(dev, blocks)
  {
    var out := Transferred(dev, io, blocks);
    if forall i: nat | i < |blocks| :: io(i) != Fine then Nothing
    else if size == |blocks| * dev.bs then Recovered(out)
    else if size <= |out| then Recovered(out[..size])
    else Recovered(out + Repeat(0, size - |out|))
  }

  /** A file without holes that ends after its blocks, whatever reads and writes do; `existing` is the size of an output
      that is there already, -1 if there is none. */
  method RecoverWrittenAnyhow(dev: Device, io: Attempts, unreadable: set<nat>, f: Inode, existing: int,
                              ghost tabs: Tables, ghost blocks: seq<nat>)
    returns (r: Result)
    requires WrittenFile(dev, unreadable, f, tabs, blocks) && |blocks| <= 1048576 && InDevice(dev, blocks)
    requires forall l: nat | l >= |blocks| :: !Mapped(View(dev, unreadable), f, l)
    ensures r == if existing >= f.size then Kept else Expected(dev, io, blocks, f.size)
  {
    r := RecoverIndirectFile(dev, io, unreadable, f, existing);
    NoneThere(dev, io, View(dev, unreadable), f, existing);
    OutcomeExpected(dev, io, unreadable, f, tabs, blocks);
  }

  lemma NoneThere(dev: Device, io: Attempts, t: Table, f: Inode, existing: int)
    requires t.Valid() && f.Valid() && !f.extents && f.size > 0
    ensures Outcome(dev, io, t, f, existing) == if existing >= f.size then Kept else Outcome(dev, io, t, f, -1)
  {
  }

  /** Files of extents and empty ones are refused. */
  method RefuseOthers(dev: Device, io: Attempts, unreadable: set<nat>, f: Inode, existing: int) returns (r: Result)
    requires dev.Valid() && f.Valid()
    ensures r == Refused <==> f.extents || f.size == 0
  {
    r := RecoverIndirectFile(dev, io, unreadable, f, existing);
  }

  lemma OutcomeExpected(dev: Device, io: Attempts, unreadable: set<nat>, f: Inode, tabs: Tables, blocks: seq<nat>)
    requires WrittenFile(dev, unreadable, f, tabs, blocks) && |blocks| <= 1048576 && InDevice(dev, blocks)
    requires forall l: nat | l >= |blocks| :: !Mapped(View(dev, unreadable), f, l)
    ensures Outcome(dev, io, View(dev, unreadable), f, -1) == Expected(dev, io, blocks, f.size)
  {
    MapRead(dev, unreadable, f, tabs, blocks);
    OutcomeOf(dev, io, View(dev, unreadable), f, blocks);
  }

  lemma OutcomeOf(dev: Device, io: Attempts, t: Table, f: Inode, blocks: seq<nat>)
    requires Whole(dev, t, f) && !f.extents && InDevice(dev, blocks) && |blocks| == (f.size - 1) / dev.bs + 1 <= 1048576
    requires forall l | 0 <= l < |blocks| :: BlockOf(t, f, l) == blocks[l]
    requires forall l: nat | l >= |blocks| :: !Mapped(t, f, l)
    ensures Outcome(dev, io, t, f, -1) == Expected(dev, io, blocks, f.size)
  {
    EndsThere(dev, io, t, f, blocks);
    AnyhowOutcome(dev, io, t, f, |blocks|, Transferred(dev, io, blocks));
  }

  lemma EndsThere(dev: Device, io: Attempts, t: Table, f: Inode, blocks: seq<nat>)
    requires t.Valid() && f.Valid() && InDevice(dev, blocks) && 0 < |blocks| <= 1048576
    requires forall l | 0 <= l < |blocks| :: BlockOf(t, f, l) == blocks[l]
    requires NoHole(t, f, |blocks| - 1) && forall l: nat | l >= |blocks| :: !Mapped(t, f, l)
    ensures var k := PutChain(dev, io, t, f);
      k.out == Transferred(dev, io, blocks) && k.count == |blocks|
      && (k.ok == 0 <==> forall i: nat | i < |blocks| :: io(i) != Fine)
  {
    ChainIsBlocks(t, f, Chain(t, f), |blocks|);
    ChainTransferred(dev, io, t, f, blocks);
  }

  lemma AnyhowOutcome(dev: Device, io: Attempts, t: Table, f: Inode, n: nat, out: seq<byte>)
    requires t.Valid() && f.Valid() && dev.bs > 0 && !f.extents && f.size > 0 && n == (f.size - 1) / dev.bs + 1
    requires PutChain(dev, io, t, f).out == out && PutChain(dev, io, t, f).count == n
    ensures Outcome(dev, io, t, f, -1) ==
            if PutChain(dev, io, t, f).ok == 0 then Nothing
            else if f.size == n * dev.bs then Recovered(out)
            else if f.size <= |out| then Recovered(out[..f.size])
            else Recovered(out + Repeat(0, f.size - |out|))
  {
    LastBlock(f.size, dev.bs);
    if f.size > |out| { SizedByZeros(out, f.size); }
  }

  lemma LastBlock(size: nat, bs: nat)
    requires size > 0 && bs > 0
    ensures size <= ((size - 1) / bs + 1) * bs
  {
    Quotient(size - 1, bs);
    TimesNext((size - 1) / bs, bs);
  }

  lemma SizedByZeros(out: seq<byte>, size: nat)
    requires size > |out|
    ensures SetSize(out, size) == out + Repeat(0, size - |out|)
  {
  }

  // ----- an example -----

  function SampleBlock(b: nat): (buf: Block)
    ensures |buf| == 12
  {
    if b == 13 then [14, 0, 0, 0] + Repeat(0, 8) else Repeat(b % 256, 12)
  }

  /** Sixteen blocks of twelve bytes; block 13 points to block 14. */
  function Sample(): Device {
    Device(12, seq(16, (b: nat) => SampleBlock(b)))
  }

  /** A file of thirteen blocks on it, the last behind the indirect block. */
  function SampleFile(): Inode {
    Inode(false, 156, [1, 2, 3, 4, 5, 6, 7, 8, 9, 10, 11, 12, 13, 0])
  }

  lemma SamplePointers()
    ensures HoldsPointers(Sample(), {}, 13, [14, 0, 0])
  {
    assert Sample().blocks[13] == SampleBlock(13);
    assert [14, 0, 0][..2] == [14, 0] && [14, 0][..1] == [14] && [14][..0] == [];
    assert PutLe32(14) == [14, 0, 0, 0] && PutLe32(0) == [0, 0, 0, 0];
    assert PutPointers([14, 0, 0]) == [14, 0, 0, 0] + Repeat(0, 8);
  }

  lemma SampleWritten()
    ensures WrittenFile(Sample(), {}, SampleFile(), Tables([14, 0, 0], [], []),
                        [1, 2, 3, 4, 5, 6, 7, 8, 9, 10, 11, 12, 14])
  {
    assert forall b | 0 <= b < 16 :: Sample().blocks[b] == SampleBlock(b);
    SamplePointers();
  }
}
