/** The loops of improved/indirect_recovery.c: blocks read and appended to the output one by one, whatever goes wrong,
    and the bytes that come out. */
module IndirectDump {
  import opened Bytes
  import opened ExtentTree
  import opened Arithmetic
  import opened Collections
  import opened IndirectFiles

  /** How reading and writing one data block goes; a write can stop short. */
  datatype Attempt = Fine | ReadFails | WriteFails(bytes: nat)

  type Attempts = nat -> Attempt

  /** What of a block reaches the output. */
  function Arrives(a: Attempt, block: Block): seq<byte> {
    match a
    case Fine => block
    case ReadFails => []
    case WriteFails(n) => Take(block, n)
  }

  /** How many of the attempts [from, to) go well. */
  function Successes(io: Attempts, from: nat, to: nat): nat
    decreases to
  {
    if to <= from then 0 else Successes(io, from, to - 1) + if io(to - 1).Fine? then 1 else 0
  }

  // ----- the device -----

  /** The little-endian pointers a block holds. */
  function Pointers(dev: Device, b: nat): seq<nat> {
    if b < dev.Total() && dev.bs <= |dev.blocks[b]| then
      seq(dev.bs / 4, i requires 0 <= i < dev.bs / 4 => Le32(dev.blocks[b], 4 * i))
    else []
  }

  /** The device with some of its blocks unreadable when they are wanted as indirect blocks. */
  function View(dev: Device, unreadable: set<nat>): (t: Table)
    ensures dev.Valid() ==> t.Valid()
    ensures t.total == dev.Total()
  {
    Table(dev.Total(), dev.bs / 4, (b: nat) => if b in unreadable then [] else Pointers(dev, b))
  }

  // ----- the output -----

  /** The output file so far, how many blocks were tried and how many of them were transferred well. */
  datatype Sink = Sink(out: seq<byte>, count: nat, ok: nat)

  const NOTHING: Sink := Sink([], 0, 0)

  function BlockAt(dev: Device, b: nat): Block {
    if b < dev.Total() then dev.blocks[b] else []
  }

  /** Read one block and append it. */
  function Put(dev: Device, io: Attempts, k: Sink, b: nat): Sink {
    Sink(k.out + Arrives(io(k.count), BlockAt(dev, b)), k.count + 1, k.ok + if io(k.count).Fine? then 1 else 0)
  }

  /** Append the pieces one after the other, up to the block limit. */
  function PutAll(dev: Device, io: Attempts, k: Sink, s: seq<Piece>): Sink
    decreases |s|
  {
    if s == [] || k.count >= MAX_IND_BLOCKS then k else PutAll(dev, io, Put(dev, io, k, s[0].phys), s[1..])
  }

  lemma {:induction false} PutOne(dev: Device, io: Attempts, k: Sink, p: Piece, rest: seq<Piece>)
    requires k.count < MAX_IND_BLOCKS
    ensures PutAll(dev, io, k, [p] + rest) == PutAll(dev, io, Put(dev, io, k, p.phys), rest)
  {
    assert ([p] + rest)[1..] == rest;
  }

  lemma {:induction false} PutAppend(dev: Device, io: Attempts, k: Sink, a: seq<Piece>, b: seq<Piece>)
    ensures PutAll(dev, io, k, a + b) == PutAll(dev, io, PutAll(dev, io, k, a), b)
    decreases |a|
  {
    if a == [] {
      assert a + b == b;
    } else if k.count < MAX_IND_BLOCKS {
      PutAppend(dev, io, Put(dev, io, k, a[0].phys), a[1..], b);
      assert (a + b)[1..] == a[1..] + b;
    }
  }

  // ----- the loops -----

  /** The pointers from `i` on, up to the first bad one. */
  ghost function LeadingFrom(total: nat, ps: seq<nat>, i: nat, at: nat): seq<Piece>
    requires i <= |ps|
    decreases |ps| - i
  {
    if i == |ps| || !Good(total, ps[i]) then [] else [Piece(at, ps[i])] + LeadingFrom(total, ps, i + 1, at + 1)
  }

  lemma {:induction false} LeadingFromIsLeading(total: nat, ps: seq<nat>, i: nat, at: nat)
    requires i <= |ps|
    ensures LeadingFrom(total, ps, i, at) == Leading(total, ps[i..], at)
    decreases |ps| - i
  {
    if i < |ps| {
      LeadingFromIsLeading(total, ps, i + 1, at + 1);
      assert ps[i..][1..] == ps[i + 1..];
    }
  }

  /** The condition of both loops. */
  predicate GoesOn(total: nat, ps: seq<nat>, i: nat, k: Sink) {
    i < |ps| && k.count < MAX_IND_BLOCKS && Good(total, ps[i])
  }

  /** Append the blocks of a pointer list up to the first bad pointer or the block limit; used for the direct
      pointers and, with the pointers of an indirect block, by DumpIndirect. */
  method DumpPointers(dev: Device, io: Attempts, ps: seq<nat>, k0: Sink, ghost base: nat) returns (k: Sink)
    ensures k == PutAll(dev, io, k0, Leading(dev.Total(), ps, base))
  {
    ghost var at: nat, goal := base, PutAll(dev, io, k0, Leading(dev.Total(), ps, base));
    LeadingFromIsLeading(dev.Total(), ps, 0, base);
    assert ps[0..] == ps;
    assert PointersAhead(dev, io, ps, 0, base, k0) == goal;
    k := k0;
    var i := 0;
    while GoesOn(dev.Total(), ps, i, k)
      invariant i <= |ps| && PointersAhead(dev, io, ps, i, at, k) == goal
      decreases |ps| - i
    {
      PointerTaken(dev, io, ps, i, at, k, goal);
      k := Transfer(dev, io, k, ps[i]);
      i, at := i + 1, at + 1;
    }
    PointersEnd(dev, io, ps, i, at, k, goal);
  }

  /** Where the pointers from `i` on take the output. */
  ghost function PointersAhead(dev: Device, io: Attempts, ps: seq<nat>, i: nat, at: nat, k: Sink): Sink
    requires i <= |ps|
  {
    PutAll(dev, io, k, LeadingFrom(dev.Total(), ps, i, at))
  }

  lemma {:induction false} PointerTaken(dev: Device, io: Attempts, ps: seq<nat>, i: nat, at: nat, k: Sink, goal: Sink)
    requires i < |ps| && Good(dev.Total(), ps[i]) && k.count < MAX_IND_BLOCKS
    requires PointersAhead(dev, io, ps, i, at, k) == goal
    ensures PointersAhead(dev, io, ps, i + 1, at + 1, Put(dev, io, k, ps[i])) == goal
  {
    PutOne(dev, io, k, Piece(at, ps[i]), LeadingFrom(dev.Total(), ps, i + 1, at + 1));
  }

  lemma {:induction false} PointersEnd(dev: Device, io: Attempts, ps: seq<nat>, i: nat, at: nat, k: Sink, goal: Sink)
    requires i <= |ps| && PointersAhead(dev, io, ps, i, at, k) == goal
    requires i == |ps| || !Good(dev.Total(), ps[i]) || k.count >= MAX_IND_BLOCKS
    ensures k == goal
  {
  }

  /** Read one block and write it; whatever happens it is counted. */
  method Transfer(dev: Device, io: Attempts, k0: Sink, b: nat) returns (k: Sink)
    requires Good(dev.Total(), b)
    ensures k == Put(dev, io, k0, b)
  {
    var out, ok := k0.out, k0.ok;
    match io(k0.count) {
      case ReadFails =>
      case Fine => out, ok := out + dev.blocks[b], ok + 1;
      case WriteFails(n) => out := out + Take(dev.blocks[b], n);
    }
    k := Sink(out, k0.count + 1, ok);
  }

  method DumpIndirect(dev: Device, io: Attempts, t: Table, b: nat, k0: Sink, ghost base: nat) returns (k: Sink)
    requires t.Valid() && t.total == dev.Total()
    ensures k == PutAll(dev, io, k0, Single(t, b, base))
  {
    if !Good(dev.Total(), b) {
      return k0;
    }
    k := DumpPointers(dev, io, t.pointers(b), k0, base);
  }

  /** The rows of a double indirect block from row `i` on. */
  ghost function ManyFrom(t: Table, l1: seq<nat>, i: nat, at: nat): seq<Piece>
    requires t.Valid() && i <= |l1|
    decreases |l1| - i
  {
    if i == |l1| || !Good(t.total, l1[i]) then [] else Single(t, l1[i], at) + ManyFrom(t, l1, i + 1, at + t.per)
  }

  lemma {:induction false} ManyFromIsMany(t: Table, l1: seq<nat>, i: nat, at: nat)
    requires t.Valid() && i <= |l1|
    ensures ManyFrom(t, l1, i, at) == Many(t, l1[i..], at)
    decreases |l1| - i
  {
    if i < |l1| {
      ManyFromIsMany(t, l1, i + 1, at + t.per);
      assert l1[i..][1..] == l1[i + 1..];
    }
  }

  method DumpDoubleIndirect(dev: Device, io: Attempts, t: Table, b: nat, k0: Sink, ghost base: nat) returns (k: Sink)
    requires t.Valid() && t.total == dev.Total()
    ensures k == PutAll(dev, io, k0, Double(t, b, base))
  {
    if !Good(dev.Total(), b) {
      return k0;
    }
    var l1 := t.pointers(b);
    ManyFromIsMany(t, l1, 0, base);
    assert l1[0..] == l1;
    k := DumpRows(dev, io, t, l1, k0, base, PutAll(dev, io, k0, Many(t, l1, base)));
  }

  /** The loop over the indirect blocks. */
  method DumpRows(dev: Device, io: Attempts, t: Table, l1: seq<nat>, k0: Sink, ghost base: nat, ghost goal: Sink)
    returns (k: Sink)
    requires t.Valid() && t.total == dev.Total() && RowsAhead(dev, io, t, l1, 0, base, k0) == goal
    ensures k == goal
  {
    k := k0;
    ghost var at: nat := base;
    var i := 0;
    while GoesOn(dev.Total(), l1, i, k)
      invariant i <= |l1| && RowsAhead(dev, io, t, l1, i, at, k) == goal
      decreases |l1| - i
    {
      k := DumpRow(dev, io, t, l1, i, k, at, goal);
      i, at := i + 1, at + t.per;
    }
    RowsEnd(dev, io, t, l1, i, at, k, goal);
  }

  /** One turn of it. */
  method DumpRow(dev: Device, io: Attempts, t: Table, l1: seq<nat>, i: nat, k0: Sink, ghost at: nat, ghost goal: Sink)
    returns (k: Sink)
    requires t.Valid() && t.total == dev.Total() && GoesOn(t.total, l1, i, k0)
    requires RowsAhead(dev, io, t, l1, i, at, k0) == goal
    ensures RowsAhead(dev, io, t, l1, i + 1, at + t.per, k) == goal
  {
    k := DumpIndirect(dev, io, t, l1[i], k0, at);
    RowTaken(dev, io, t, l1, i, at, k0, k, goal);
  }

  /** Where the rows from `i` on take the output. */
  ghost function RowsAhead(dev: Device, io: Attempts, t: Table, l1: seq<nat>, i: nat, at: nat, k: Sink): Sink
    requires t.Valid() && i <= |l1|
  {
    PutAll(dev, io, k, ManyFrom(t, l1, i, at))
  }

  lemma {:induction false} RowTaken(dev: Device, io: Attempts, t: Table, l1: seq<nat>, i: nat, at: nat,
                                    k: Sink, k': Sink, goal: Sink)
    requires t.Valid() && i < |l1| && Good(t.total, l1[i]) && RowsAhead(dev, io, t, l1, i, at, k) == goal
    requires k' == PutAll(dev, io, k, Single(t, l1[i], at))
    ensures RowsAhead(dev, io, t, l1, i + 1, at + t.per, k') == goal
  {
    Splits(dev, io, k, ManyFrom(t, l1, i, at), Single(t, l1[i], at), ManyFrom(t, l1, i + 1, at + t.per), k', goal);
  }

  lemma {:induction false} Splits(dev: Device, io: Attempts, k: Sink, all: seq<Piece>, row: seq<Piece>,
                                  rest: seq<Piece>,
                                  k': Sink, goal: Sink)
    requires all == row + rest && PutAll(dev, io, k, all) == goal && PutAll(dev, io, k, row) == k'
    ensures PutAll(dev, io, k', rest) == goal
  {
    PutAppend(dev, io, k, row, rest);
  }

  lemma {:induction false} RowsEnd(dev: Device, io: Attempts, t: Table, l1: seq<nat>, i: nat, at: nat, k: Sink,
                                   goal: Sink)
    requires t.Valid() && i <= |l1| && RowsAhead(dev, io, t, l1, i, at, k) == goal
    requires !GoesOn(t.total, l1, i, k)
    ensures k == goal
  {
  }

  // ----- the whole file -----

  /** Refused: not such a file, or empty. Kept: an output of at least this size exists. Nothing: no block copied. */
  datatype Result = Refused | Kept | Nothing | Recovered(content: seq<byte>)

  /** ftruncate: cut off, or extend by zeros. */
  function SetSize(out: seq<byte>, size: nat): seq<byte> {
    if size <= |out| then out[..size] else out + seq(size - |out|, _ => 0)
  }

  /** What the pieces of the file's chain leave. */
  ghost function PutChain(dev: Device, io: Attempts, t: Table, f: Inode): Sink
    requires t.Valid() && f.Valid()
  {
    PutAll(dev, io, NOTHING, Chain(t, f))
  }

  /** What comes out: what the pieces of the chain leave, set to the file's size if the blocks tried reach beyond it. */
  ghost function Outcome(dev: Device, io: Attempts, t: Table, f: Inode, existing: int): Result
    requires t.Valid() && f.Valid()
  {
    var k := PutChain(dev, io, t, f);
    if f.extents || f.size == 0 then Refused
    else if existing >= f.size then Kept
    else if k.ok == 0 then Nothing
    else Recovered(if f.size < k.count * dev.bs then SetSize(k.out, f.size) else k.out)
  }

  /** recover_indirect_file; `existing` is the size of an earlier output, -1 if there is none. */
  method RecoverIndirectFile(dev: Device, io: Attempts, unreadable: set<nat>, f: Inode, existing: int)
    returns (r: Result)
    requires dev.Valid() && f.Valid()
    ensures r == Outcome(dev, io, View(dev, unreadable), f, existing)
  {
    if f.extents || f.size == 0 {
      return Refused;
    }
    if existing >= f.size {
      return Kept;
    }
    var k := DumpFile(dev, io, View(dev, unreadable), f);
    if k.ok == 0 {
      return Nothing;
    }
    r := Recovered(if f.size < k.count * dev.bs then SetSize(k.out, f.size) else k.out);
  }

  /** Direct blocks, then the single and the double indirect block. */
  method DumpFile(dev: Device, io: Attempts, t: Table, f: Inode) returns (k: Sink)
    requires t.Valid() && t.total == dev.Total() && f.Valid()
    ensures k == PutChain(dev, io, t, f)
  {
    k := DumpDirects(dev, io, t, f);
    k := DumpRest(dev, io, t, f, k);
    ChainInParts(dev, io, t, f);
  }

  method DumpDirects(dev: Device, io: Attempts, t: Table, f: Inode) returns (k: Sink)
    requires t.total == dev.Total() && f.Valid()
    ensures k == AfterDirects(dev, io, t, f)
  {
    k := DumpPointers(dev, io, f.ptrs[..DIRECT], NOTHING, 0);
  }

  method DumpRest(dev: Device, io: Attempts, t: Table, f: Inode, k0: Sink) returns (k: Sink)
    requires t.Valid() && t.total == dev.Total() && f.Valid()
    ensures k == AfterRest(dev, io, t, f, k0)
  {
    k := DumpIndirect(dev, io, t, f.ptrs[DIRECT], k0, DIRECT);
    k := DumpDoubleIndirect(dev, io, t, f.ptrs[DIRECT + 1], k, DIRECT + t.per);
  }

  ghost function AfterDirects(dev: Device, io: Attempts, t: Table, f: Inode): Sink
    requires f.Valid()
  {
    PutAll(dev, io, NOTHING, Directs(t, f))
  }

  ghost function AfterRest(dev: Device, io: Attempts, t: Table, f: Inode, k: Sink): Sink
    requires t.Valid() && f.Valid()
  {
    PutAll(dev, io, PutAll(dev, io, k, Indirects(t, f)), DoubleIndirects(t, f))
  }

  /** The pieces of the three parts, one part after the other, are those of the chain. */
  lemma {:induction false} ChainInParts(dev: Device, io: Attempts, t: Table, f: Inode)
    requires t.Valid() && f.Valid()
    ensures PutChain(dev, io, t, f) == AfterRest(dev, io, t, f, AfterDirects(dev, io, t, f))
  {
    ThreeParts(dev, io, Directs(t, f), Indirects(t, f), DoubleIndirects(t, f), NOTHING);
  }

  lemma {:induction false} ThreeParts(dev: Device, io: Attempts, a: seq<Piece>, b: seq<Piece>, c: seq<Piece>, k: Sink)
    ensures PutAll(dev, io, k, a + b + c) == PutAll(dev, io, PutAll(dev, io, PutAll(dev, io, k, a), b), c)
  {
    PutAppend(dev, io, k, a + b, c);
    PutAppend(dev, io, k, a, b);
  }

  // ----- what the pieces leave -----

  /** The bytes the pieces leave, attempt by attempt. */
  ghost function Content(dev: Device, io: Attempts, s: seq<Piece>): seq<byte> {
    if s == [] then []
    else
      var m := |s| - 1;
      Content(dev, io, s[..m]) + Arrives(io(m), BlockAt(dev, s[m].phys))
  }

  /** The output after the first `n` pieces. */
  ghost function After(dev: Device, io: Attempts, s: seq<Piece>, n: nat): Sink
    requires n <= |s|
  {
    Sink(Content(dev, io, s[..n]), n, Successes(io, 0, n))
  }

  /** Where the pieces from the `n`-th on take it. */
  ghost function Ahead(dev: Device, io: Attempts, s: seq<Piece>, n: nat): Sink
    requires n <= |s|
  {
    PutAll(dev, io, After(dev, io, s, n), s[n..])
  }

  lemma {:induction false} PutFrom(dev: Device, io: Attempts, s: seq<Piece>, n: nat, end: nat)
    requires n <= end == (if |s| <= MAX_IND_BLOCKS then |s| else MAX_IND_BLOCKS)
    ensures Ahead(dev, io, s, n) == After(dev, io, s, end)
    decreases end - n
  {
    if n < end {
      PutFrom(dev, io, s, n + 1, end);
      PutNext(dev, io, s, n);
    }
  }

  lemma {:induction false} PutNext(dev: Device, io: Attempts, s: seq<Piece>, n: nat)
    requires n < |s| && n < MAX_IND_BLOCKS
    ensures Ahead(dev, io, s, n) == Ahead(dev, io, s, n + 1)
  {
    AfterStep(dev, io, s, n);
    PutSplit(dev, io, After(dev, io, s, n), s, n);
  }

  lemma {:induction false} PutSplit(dev: Device, io: Attempts, k: Sink, s: seq<Piece>, n: nat)
    requires n < |s| && k.count < MAX_IND_BLOCKS
    ensures PutAll(dev, io, k, s[n..]) == PutAll(dev, io, Put(dev, io, k, s[n].phys), s[n + 1..])
  {
    assert s[n..] == [s[n]] + s[n + 1..];
    PutOne(dev, io, k, s[n], s[n + 1..]);
  }

  lemma {:induction false} AfterStep(dev: Device, io: Attempts, s: seq<Piece>, n: nat)
    requires n < |s|
    ensures After(dev, io, s, n + 1) == Put(dev, io, After(dev, io, s, n), s[n].phys)
  {
    assert s[..n + 1][..n] == s[..n];
  }

  /** Up to the block limit every piece of the chain is tried, in order. */
  lemma {:induction false} PutsChain(dev: Device, io: Attempts, s: seq<Piece>)
    ensures var tried := Take(s, MAX_IND_BLOCKS);
      PutAll(dev, io, NOTHING, s) == Sink(Content(dev, io, tried), |tried|, Successes(io, 0, |tried|))
  {
    PutFrom(dev, io, s, 0, |Take(s, MAX_IND_BLOCKS)|);
    assert s[0..] == s && s[..0] == [];
    assert s[..|Take(s, MAX_IND_BLOCKS)|] == Take(s, MAX_IND_BLOCKS);
  }

  // ----- when nothing goes wrong -----

  /** The first `n` attempts go well. */
  ghost predicate WellUntil(io: Attempts, n: nat) {
    forall i: nat | i < n :: io(i).Fine?
  }

  lemma {:induction false} ContentPrefix(dev: Device, io: Attempts, s: seq<Piece>, n: nat)
    requires n <= |s|
    ensures Content(dev, io, s[..n]) <= Content(dev, io, s)
  {
    if n == |s| {
      assert s[..n] == s;
    } else {
      var m := |s| - 1;
      ContentPrefix(dev, io, s[..m], n);
      assert s[..m][..n] == s[..n];
    }
  }

  ghost predicate AllGood(total: nat, s: seq<Piece>) {
    forall k | 0 <= k < |s| :: Good(total, s[k].phys)
  }

  lemma {:induction false} OutputGood(t: Table, f: Inode)
    requires t.Valid() && f.Valid()
    ensures AllGood(t.total, Output(t, f))
  {
    ChainTrue(t, f);
  }

  lemma {:induction false} ContentSize(dev: Device, io: Attempts, s: seq<Piece>)
    requires dev.Valid() && AllGood(dev.Total(), s) && WellUntil(io, |s|)
    ensures |Content(dev, io, s)| == |s| * dev.bs
  {
    if s != [] {
      ContentSize(dev, io, s[..|s| - 1]);
      TimesNext(|s| - 1, dev.bs);
    }
  }

  /** Up to where all went well, piece `q` is in place. */
  lemma {:induction false} ContentAt(dev: Device, io: Attempts, s: seq<Piece>, q: nat, r: nat, k: nat)
    requires dev.Valid() && AllGood(dev.Total(), s) && q < |s| && r < dev.bs && WellUntil(io, q + 1)
    requires k == q * dev.bs + r
    ensures k < |Content(dev, io, s)| && Content(dev, io, s)[k] == dev.blocks[s[q].phys][r]
  {
    ContentSize(dev, io, s[..q]);
    ContentNext(dev, io, s, q);
    ContentPrefix(dev, io, s, q + 1);
    InJoin(Content(dev, io, s[..q]), dev.blocks[s[q].phys], Content(dev, io, s), r);
  }

  lemma {:induction false} ContentNext(dev: Device, io: Attempts, s: seq<Piece>, q: nat)
    requires q < |s| && Good(dev.Total(), s[q].phys) && io(q).Fine?
    ensures Content(dev, io, s[..q + 1]) == Content(dev, io, s[..q]) + dev.blocks[s[q].phys]
  {
    assert s[..q + 1][..q] == s[..q];
  }

  lemma InJoin(a: seq<byte>, b: seq<byte>, all: seq<byte>, r: nat)
    requires a + b <= all && r < |b|
    ensures |a| + r < |all| && all[|a| + r] == b[r]
  {
    assert (a + b)[|a| + r] == b[r];
  }

  /** The file is not empty and has no hole up to its last byte. */
  ghost predicate Whole(dev: Device, t: Table, f: Inode) {
    && dev.Valid() && t.Valid() && t.total == dev.Total() && f.Valid()
    && f.size > 0 && NoHole(t, f, (f.size - 1) / dev.bs)
  }

  /** The file as its block map denotes it. */
  ghost function FileBytes(dev: Device, t: Table, f: Inode): seq<byte>
    requires Whole(dev, t, f)
  {
    seq(f.size, k requires 0 <= k < f.size => ByteAt(dev, t, f, k))
  }

  ghost function ByteAt(dev: Device, t: Table, f: Inode, k: nat): byte
    requires Whole(dev, t, f) && k < f.size
  {
    QuotientMonotone(k, f.size - 1, dev.bs);
    ByteOf(dev, t, f, k / dev.bs, k % dev.bs)
  }

  /** Byte `r` of logical block `q`. */
  ghost function ByteOf(dev: Device, t: Table, f: Inode, q: nat, r: nat): byte
    requires dev.Valid() && t.Valid() && t.total == dev.Total() && f.Valid() && NoHole(t, f, q) && r < dev.bs
  {
    assert Mapped(t, f, q);
    dev.blocks[BlockOf(t, f, q)][r]
  }

  lemma {:induction false} BlockInPlace(t: Table, f: Inode, last: nat, q: nat)
    requires t.Valid() && f.Valid() && NoHole(t, f, last) && q <= last < MAX_IND_BLOCKS
    ensures q < |Output(t, f)| && Output(t, f)[q].phys == BlockOf(t, f, q) && Good(t.total, BlockOf(t, f, q))
  {
    OwnPlace(t, f, q);
    assert Mapped(t, f, q);
  }

  lemma {:induction false} ByteInPlace(dev: Device, io: Attempts, t: Table, f: Inode, last: nat, q: nat, r: nat, k: nat)
    requires dev.Valid() && t.Valid() && t.total == dev.Total() && f.Valid() && WellUntil(io, last + 1)
    requires NoHole(t, f, last) && q <= last < MAX_IND_BLOCKS && r < dev.bs && k == q * dev.bs + r
    requires AllGood(dev.Total(), Output(t, f))
    ensures k < |Content(dev, io, Output(t, f))| && Content(dev, io, Output(t, f))[k] == ByteOf(dev, t, f, q, r)
  {
    BlockInPlace(t, f, last, q);
    ContentAt(dev, io, Output(t, f), q, r, k);
  }

  lemma {:induction false} ByteRecovered(dev: Device, io: Attempts, t: Table, f: Inode, last: nat, k: nat)
    requires Whole(dev, t, f) && k < f.size && last == (f.size - 1) / dev.bs < MAX_IND_BLOCKS && WellUntil(io, last + 1)
    ensures AllGood(dev.Total(), Output(t, f))
    ensures k < |Content(dev, io, Output(t, f))| && Content(dev, io, Output(t, f))[k] == ByteAt(dev, t, f, k)
  {
    QuotientMonotone(k, f.size - 1, dev.bs);
    Quotient(k, dev.bs);
    OutputGood(t, f);
    ByteInPlace(dev, io, t, f, last, k / dev.bs, k % dev.bs, k);
  }

  /** A file without holes within the reach of the walk and below the block limit comes out byte by byte if its own
      blocks are transferred well, whatever happens to blocks beyond its end. */
  lemma {:induction false} FileRecovered(dev: Device, io: Attempts, t: Table, f: Inode)
    requires Whole(dev, t, f) && !f.extents && (f.size - 1) / dev.bs < MAX_IND_BLOCKS
    requires WellUntil(io, (f.size - 1) / dev.bs + 1)
    ensures Outcome(dev, io, t, f, -1) == Recovered(FileBytes(dev, t, f))
  {
    var last := (f.size - 1) / dev.bs;
    OutputGood(t, f);
    BlockInPlace(t, f, last, last);
    BytesRecovered(dev, io, t, f, last);
    OutcomeIs(dev, io, t, f, last);
  }

  /** A file whose first block is transferred well is recovered from what the pieces leave. */
  lemma {:induction false} OutcomeIs(dev: Device, io: Attempts, t: Table, f: Inode, last: nat)
    requires Whole(dev, t, f) && !f.extents && last == (f.size - 1) / dev.bs && WellUntil(io, last + 1)
    requires AllGood(dev.Total(), Output(t, f)) && last < |Output(t, f)|
    requires f.size <= |Content(dev, io, Output(t, f))|
    ensures Outcome(dev, io, t, f, -1) == Recovered(Content(dev, io, Output(t, f))[..f.size])
  {
    PutsChain(dev, io, Chain(t, f));
    SomeSuccess(io, |Output(t, f)|);
    if f.size >= |Output(t, f)| * dev.bs { ExactSize(dev, io, t, f, last); }
    CutOff(Content(dev, io, Output(t, f)), f.size);
  }

  lemma {:induction false} CutOff(out: seq<byte>, size: nat)
    requires size <= |out|
    ensures SetSize(out, size) == out[..size] && (size == |out| ==> out == out[..size])
  {
  }

  lemma {:induction false} BytesRecovered(dev: Device, io: Attempts, t: Table, f: Inode, last: nat)
    requires Whole(dev, t, f) && last == (f.size - 1) / dev.bs < MAX_IND_BLOCKS && WellUntil(io, last + 1)
    requires AllGood(dev.Total(), Output(t, f))
    ensures f.size <= |Content(dev, io, Output(t, f))|
    ensures Content(dev, io, Output(t, f))[..f.size] == FileBytes(dev, t, f)
  {
    var out := Content(dev, io, Output(t, f));
    ByteRecovered(dev, io, t, f, last, f.size - 1);
    forall k: nat | k < f.size ensures k < |out| && out[k] == ByteAt(dev, t, f, k) {
      ByteRecovered(dev, io, t, f, last, k);
    }
  }

  lemma {:induction false} ExactSize(dev: Device, io: Attempts, t: Table, f: Inode, last: nat)
    requires Whole(dev, t, f) && last == (f.size - 1) / dev.bs && WellUntil(io, last + 1)
    requires AllGood(dev.Total(), Output(t, f)) && last < |Output(t, f)| && f.size >= |Output(t, f)| * dev.bs
    ensures |Content(dev, io, Output(t, f))| == f.size
  {
    LastPiece(f.size, |Output(t, f)|, last, dev.bs);
    ContentSize(dev, io, Output(t, f));
  }

  lemma {:induction false} SomeSuccess(io: Attempts, n: nat)
    requires n > 0 && io(0).Fine?
    ensures Successes(io, 0, n) > 0
  {
    if n > 1 { SomeSuccess(io, n - 1); }
  }

  lemma {:induction false} LastPiece(size: nat, n: nat, last: nat, bs: nat)
    requires bs > 0 && size > 0 && last == (size - 1) / bs && last < n && size >= n * bs
    ensures n == last + 1 && size == n * bs
  {
    Quotient(size - 1, bs);
    if last + 1 < n { MulStep(last + 1, n, bs); }
    assert (last + 1) * bs == last * bs + bs;
  }
}
