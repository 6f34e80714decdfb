/** Journals given by their bytes: what jbd2 writes, and what scan, sort and lookup make of it
    (improved/journal_recovery_v5.c:967-1080, improved/journal_index.c:36-83). */
module WrittenJournal {
  import opened Bytes
  import opened Collections
  import opened Sorting
  import opened JournalTags
  import opened JournalIndex
  import opened JournalScan

  /** A descriptor block of a transaction and where in the journal it stands. */
  datatype Descriptor = Descriptor(at: nat, seqno: nat, tags: seq<WireTag>)

  /** Magic, block type 1 and sequence number, big-endian, and the tags. */
  function DescriptorBytes(caps: Caps, d: Descriptor): seq<byte>
    requires d.seqno < 0x1_0000_0000 && AllFit(caps, d.tags)
  {
    DescriptorHeader(d.seqno) + Encode(caps, d.tags)
  }

  function DescriptorHeader(seqno: nat): (s: seq<byte>)
    requires seqno < 0x1_0000_0000
    ensures |s| == 12
  {
    [0xc0, 0x3b, 0x39, 0x98] + ([0, 0, 0, 1] + PutBe32(seqno))
  }

  /** The block `buf` is that descriptor, with anything behind it. */
  ghost predicate Carries(caps: Caps, buf: seq<byte>, d: Descriptor) {
    && d.seqno < 0x1_0000_0000 && AllFit(caps, d.tags) && DescriptorBytes(caps, d) <= buf
    && Terminated(caps, d.tags, |buf| - |DescriptorBytes(caps, d)|)
  }

  /** Block `blk` of the journal, None if it cannot be read. */
  function BlockOf(p: Params, blk: nat): Option<seq<byte>> {
    if blk < |p.journal| then p.journal[blk] else None
  }

  /** The block is no descriptor: it cannot be read, or it does not begin with the magic and block type 1. */
  ghost predicate Foreign(p: Params, blk: nat) {
    match BlockOf(p, blk)
    case None => true
    case Some(buf) => !StandsAt(buf, 0, [0xc0, 0x3b, 0x39, 0x98, 0, 0, 0, 1])
  }

  lemma HeaderRead(s: seq<byte>, seqno: nat)
    requires seqno < 0x1_0000_0000 && StandsAt(s, 0, DescriptorHeader(seqno))
    ensures IsDescriptor(s) && Be32(s, 8) == seqno
  {
    StandsPart(s, 0, [0xc0, 0x3b, 0x39, 0x98], [0, 0, 0, 1] + PutBe32(seqno));
    StandsPart(s, 4, [0, 0, 0, 1], PutBe32(seqno));
    StandsBytes(s, 4, [0, 0, 0, 1]);
    ReadsBe32(s, 8, seqno);
  }

  /** A written descriptor is found, with its sequence number and what its tags say. */
  lemma DescriptorRead(p: Params, buf: seq<byte>, d: Descriptor)
    requires Ok(p) && Sized(p.caps) && BlockOf(p, d.at) == Some(buf) && Carries(p.caps, buf, d)
    ensures DescriptorAt(p, d.at)
    ensures var g := GroupAt(p, d.at, buf);
      g.at == d.at && g.seqno == d.seqno && Senses(g.tags) == Meant(d.tags)
  {
    var head, tags := DescriptorHeader(d.seqno), Encode(p.caps, d.tags);
    PrefixStands(buf, [], head + tags);
    StandsPart(buf, 0, head, tags);
    HeaderRead(buf, d.seqno);
    ParseEncoded(p.caps, d.tags, buf, 12);
  }

  lemma DescriptorStarts(buf: seq<byte>)
    requires IsDescriptor(buf)
    ensures StandsAt(buf, 0, [0xc0, 0x3b, 0x39, 0x98, 0, 0, 0, 1])
  {
    assert buf[4..8] == [0, 0, 0, 1];
    assert buf[0..8] == buf[..4] + buf[4..8];
  }

  /** Blocks of another magic or type are no descriptors. */
  lemma ForeignIsPassed(p: Params, blk: nat)
    requires Foreign(p, blk)
    ensures !DescriptorAt(p, blk)
  {
    if DescriptorAt(p, blk) { DescriptorStarts(ReadAt(p.journal, blk).value); }
  }

  // ----- a whole journal -----

  /** From block `blk` on the journal holds the descriptors `ds`, each followed by its data blocks, and no others. */
  ghost predicate Layout(p: Params, ds: seq<Descriptor>, blk: nat) {
    && (forall i | 0 <= i < |ds| :: blk <= ds[i].at < p.len && Stands(p, ds[i]))
    && (forall i, j | 0 <= i < j < |ds| :: ds[i].at + |ds[i].tags| < ds[j].at)
    && (forall b | blk <= b < p.len && Between(ds, b) :: Foreign(p, b))
  }

  ghost predicate Stands(p: Params, d: Descriptor) {
    BlockOf(p, d.at).Some? && Carries(p.caps, BlockOf(p, d.at).value, d)
  }

  /** Block `b` is neither a descriptor nor one of its data blocks. */
  ghost predicate Between(ds: seq<Descriptor>, b: nat) {
    forall i | 0 <= i < |ds| :: Outside(ds[i], b)
  }

  predicate Outside(d: Descriptor, b: nat) {
    b < d.at || d.at + |d.tags| < b
  }

  /** The group the scan makes of a descriptor. */
  ghost predicate GroupOf(g: Group, d: Descriptor) {
    g.at == d.at && g.seqno == d.seqno && Senses(g.tags) == Meant(d.tags)
  }

  ghost predicate GroupsOf(gs: seq<Group>, ds: seq<Descriptor>) {
    |gs| == |ds| && forall i | 0 <= i < |ds| :: GroupOf(gs[i], ds[i])
  }

  lemma {:induction false} ConsumeEnds(p: Params, tags: seq<Tag>, at: nat, seqno: nat)
    requires Ok(p)
    ensures Consume(p, tags, at, seqno).1 == at + |tags| || p.len <= Consume(p, tags, at, seqno).1 <= at + |tags|
  {
    ConsumeAdvances(p, tags, at, seqno);
    if tags != [] && (!Reasonable(p, tags[0]) || at < p.len) { ConsumeEnds(p, tags[1..], at + 1, seqno); }
  }

  lemma Ends(p: Params, ds: seq<Descriptor>, blk: nat, i: nat)
    requires Layout(p, ds, blk) && i < |ds|
    ensures blk <= ds[i].at < p.len && (i > 0 ==> ds[0].at + |ds[0].tags| < ds[i].at)
  {
  }

  /** The scan finds exactly the descriptors of the journal, in order. */
  lemma {:induction false} ScanFindsLayout(p: Params, ds: seq<Descriptor>, blk: nat)
    requires Ok(p) && Sized(p.caps) && Layout(p, ds, blk)
    ensures GroupsOf(Groups(p, blk), ds)
    decreases p.len - blk
  {
    if ds != [] { Ends(p, ds, blk, 0); }
    if blk < p.len {
      if ds != [] && ds[0].at == blk {
        var g := FirstGroup(p, ds, blk);
        if g.next < p.len {
          RestLaidOut(p, ds, blk, g.next);
          ScanFindsLayout(p, ds[1..], g.next);
        } else {
          NothingBehind(p, ds, blk, g.next);
        }
        GroupsCons(g, Groups(p, g.next), ds);
      } else {
        ForeignFirst(p, ds, blk);
        ScanFindsLayout(p, ds, blk + 1);
      }
    }
  }

  lemma FirstGroup(p: Params, ds: seq<Descriptor>, blk: nat) returns (g: Group)
    requires Ok(p) && Sized(p.caps) && Layout(p, ds, blk) && ds != [] && ds[0].at == blk < p.len
    ensures GroupOf(g, ds[0]) && Groups(p, blk) == [g] + Groups(p, g.next)
    ensures blk < g.next && (g.next == blk + 1 + |ds[0].tags| || p.len <= g.next <= blk + 1 + |ds[0].tags|)
  {
    var buf := ReadAt(p.journal, blk).value;
    assert Stands(p, ds[0]);
    DescriptorRead(p, buf, ds[0]);
    g := GroupAt(p, blk, buf);
    GroupsStep(p, blk);
    ConsumeEnds(p, g.tags, blk + 1, g.seqno);
    ConsumeAdvances(p, g.tags, blk + 1, g.seqno);
    assert |g.tags| == |Senses(g.tags)| == |ds[0].tags|;
  }

  lemma RestLaidOut(p: Params, ds: seq<Descriptor>, blk: nat, next: nat)
    requires Layout(p, ds, blk) && ds != [] && ds[0].at == blk && next == blk + 1 + |ds[0].tags|
    ensures Layout(p, ds[1..], next)
  {
    var rest := ds[1..];
    forall i | 0 <= i < |rest| ensures next <= rest[i].at < p.len && Stands(p, rest[i]) {
      assert rest[i] == ds[i + 1];
    }
    forall b | next <= b < p.len && Between(rest, b) ensures Foreign(p, b) {
      forall i | 0 <= i < |ds| ensures Outside(ds[i], b) {
        if i > 0 { assert Outside(rest[i - 1], b); }
      }
      assert Between(ds, b);
    }
  }

  /** A descriptor whose data run to the end of the journal is the last. */
  lemma NothingBehind(p: Params, ds: seq<Descriptor>, blk: nat, next: nat)
    requires Ok(p) && Layout(p, ds, blk) && ds != [] && ds[0].at == blk && p.len <= next <= blk + 1 + |ds[0].tags|
    ensures ds[1..] == [] && Groups(p, next) == []
  {
    if |ds| > 1 { Ends(p, ds, blk, 1); }
  }

  lemma GroupsCons(g: Group, gs: seq<Group>, ds: seq<Descriptor>)
    requires ds != [] && GroupOf(g, ds[0]) && GroupsOf(gs, ds[1..])
    ensures GroupsOf([g] + gs, ds)
  {
    forall i | 0 <= i < |ds| ensures GroupOf(([g] + gs)[i], ds[i]) {
      if i > 0 { assert GroupOf(gs[i - 1], ds[1..][i - 1]); }
    }
  }

  lemma ForeignFirst(p: Params, ds: seq<Descriptor>, blk: nat)
    requires Ok(p) && Layout(p, ds, blk) && blk < p.len && (ds == [] || ds[0].at != blk)
    ensures Layout(p, ds, blk + 1) && Groups(p, blk) == Groups(p, blk + 1)
  {
    forall i | 0 <= i < |ds| ensures blk < ds[i].at {
      if i > 0 { assert ds[0].at + |ds[0].tags| < ds[i].at; }
    }
    forall i | 0 <= i < |ds| ensures Outside(ds[i], blk) {
    }
    assert Between(ds, blk);
    ForeignIsPassed(p, blk);
  }

  // ----- what the scan hands on -----

  /** What the scan makes of tag `k` of descriptor `i`: an index entry, and the block as it was before it was journaled,
      None if it cannot be read. */
  ghost predicate Handed(p: Params, ds: seq<Descriptor>, i: nat, k: nat, x: Item) {
    && i < |ds| && k < |ds[i].tags| && ds[i].at + 1 + k < p.len
    && var d, t := ds[i], ds[i].tags[k];
    && 0 < t.block < p.total && x.entry == Entry(t.block, d.at + 1 + k, d.seqno, t.escaped)
    && match BlockOf(p, d.at + 1 + k) {
         case None => x.data == None
         case Some(data) =>
           x.data == Some(if t.escaped && |data| >= 4 then [0xc0, 0x3b, 0x39, 0x98] + data[4..] else data)
       }
  }

  /** Of a journal that holds these descriptors, the scan hands on exactly the blocks of their reasonable tags. */
  lemma ScanDelivers(p: Params, ds: seq<Descriptor>, x: Item)
    requires Ok(p) && Sized(p.caps) && Layout(p, ds, p.start)
    ensures x in AllItems(Groups(p, p.start)) <==> exists i: nat, k: nat :: Handed(p, ds, i, k, x)
  {
    ScanFindsLayout(p, ds, p.start);
    GroupsPaired(p, p.start);
    GroupsHand(p, Groups(p, p.start), ds, x);
  }

  lemma GroupsHand(p: Params, gs: seq<Group>, ds: seq<Descriptor>, x: Item)
    requires Ok(p) && GroupsOf(gs, ds) && AllPaired(p, gs)
    ensures x in AllItems(gs) <==> exists i: nat, k: nat :: Handed(p, ds, i, k, x)
  {
    ItemOfGroup(gs, x);
    if g :| g in gs && x in g.items {
      var i: nat :| i < |gs| && gs[i] == g;
      var k := GroupHands(p, gs[i], ds, i, x);
    }
    if i: nat, k: nat :| Handed(p, ds, i, k, x) {
      assert gs[i] in gs && GroupOf(gs[i], ds[i]);
      GroupHolds(p, gs[i], ds, i, k, x);
    }
  }

  lemma GroupHands(p: Params, g: Group, ds: seq<Descriptor>, i: nat, x: Item) returns (k: nat)
    requires Ok(p) && i < |ds| && GroupOf(g, ds[i]) && g.items == PairUp(p, g.tags, g.at + 1, g.seqno) && x in g.items
    ensures Handed(p, ds, i, k, x)
  {
    PairUpPointwise(p, g.tags, g.at + 1, g.seqno, x);
    k :| FromTag(p, g.tags, g.at + 1, g.seqno, k, x);
    TagHands(p, g, ds, i, k, x);
  }

  lemma GroupHolds(p: Params, g: Group, ds: seq<Descriptor>, i: nat, k: nat, x: Item)
    requires Ok(p) && i < |ds| && GroupOf(g, ds[i]) && g.items == PairUp(p, g.tags, g.at + 1, g.seqno)
    requires Handed(p, ds, i, k, x)
    ensures x in g.items
  {
    TagHands(p, g, ds, i, k, x);
    PairUpPointwise(p, g.tags, g.at + 1, g.seqno, x);
  }

  lemma TagHands(p: Params, g: Group, ds: seq<Descriptor>, i: nat, k: nat, x: Item)
    requires Ok(p) && i < |ds| && GroupOf(g, ds[i])
    ensures FromTag(p, g.tags, g.at + 1, g.seqno, k, x) <==> Handed(p, ds, i, k, x)
  {
    assert |Senses(g.tags)| == |Meant(ds[i].tags)|;
    if k < |g.tags| { assert Senses(g.tags)[k] == Meant(ds[i].tags)[k]; }
  }

  // ----- lookup -----

  /** Tag `k` of descriptor `i` says that the journal block `k` places behind the descriptor's first data block is a
      copy of `fsBlock` in a transaction not after `maxSeq`; 0 means any. */
  ghost predicate CopyAt(p: Params, ds: seq<Descriptor>, i: nat, k: nat, fsBlock: nat, maxSeq: nat) {
    && i < |ds| && k < |ds[i].tags| && ds[i].tags[k].block == fsBlock && 0 < fsBlock < p.total
    && ds[i].at + 1 + k < p.len && (maxSeq == 0 || ds[i].seqno <= maxSeq)
  }

  ghost predicate NewestAt(p: Params, ds: seq<Descriptor>, i: nat, k: nat, fsBlock: nat, maxSeq: nat) {
    && CopyAt(p, ds, i, k, fsBlock, maxSeq)
    && forall j: nat, h: nat | CopyAt(p, ds, j, h, fsBlock, maxSeq) :: ds[j].seqno <= ds[i].seqno
  }

  /** `buf` is what was journaled: the data block, with the magic in front if the writer had to blank it out. */
  ghost predicate Journaled(p: Params, d: Descriptor, k: nat, buf: seq<byte>)
    requires k < |d.tags|
  {
    match BlockOf(p, d.at + 1 + k)
    case None => false
    case Some(data) =>
      if d.tags[k].escaped then |data| >= 4 && buf == [0xc0, 0x3b, 0x39, 0x98] + data[4..] else buf == data
  }

  lemma SameCopy(p: Params, gs: seq<Group>, ds: seq<Descriptor>, i: nat, k: nat, fsBlock: nat, maxSeq: nat)
    requires GroupsOf(gs, ds) && i < |ds|
    ensures |gs[i].tags| == |ds[i].tags|
    ensures CopyIn(p, gs[i], k, fsBlock, maxSeq) <==> CopyAt(p, ds, i, k, fsBlock, maxSeq)
    ensures k < |ds[i].tags| ==> gs[i].tags[k].Escaped() == ds[i].tags[k].escaped
  {
    assert GroupOf(gs[i], ds[i]);
    assert |Senses(gs[i].tags)| == |Meant(ds[i].tags)|;
    if k < |ds[i].tags| { assert Senses(gs[i].tags)[k] == Meant(ds[i].tags)[k]; }
  }

  lemma SameNewest(p: Params, gs: seq<Group>, ds: seq<Descriptor>, g: Group, k: nat, fsBlock: nat, maxSeq: nat)
    returns (i: nat)
    requires GroupsOf(gs, ds) && g in gs && NewestIn(p, gs, g, k, fsBlock, maxSeq)
    ensures i < |ds| && gs[i] == g && NewestAt(p, ds, i, k, fsBlock, maxSeq)
  {
    i :| 0 <= i < |gs| && gs[i] == g;
    SameCopy(p, gs, ds, i, k, fsBlock, maxSeq);
    assert GroupOf(gs[i], ds[i]);
    forall j: nat, h: nat | CopyAt(p, ds, j, h, fsBlock, maxSeq) ensures ds[j].seqno <= ds[i].seqno {
      SameCopy(p, gs, ds, j, h, fsBlock, maxSeq);
      assert GroupOf(gs[j], ds[j]) && gs[j] in gs;
    }
  }

  /** What the answer means for the journal. */
  ghost predicate Newest(p: Params, ds: seq<Descriptor>, fsBlock: nat, maxSeq: nat, seqno: nat, buf: seq<byte>) {
    exists i: nat, k: nat :: NewestAt(p, ds, i, k, fsBlock, maxSeq) && Journaled(p, ds[i], k, buf) &&
      seqno == if ds[i].seqno == 0 then 1 else ds[i].seqno
  }

  ghost predicate NoneReadable(p: Params, ds: seq<Descriptor>, fsBlock: nat, maxSeq: nat) {
    || (forall i: nat, k: nat :: !CopyAt(p, ds, i, k, fsBlock, maxSeq))
    || (exists i: nat, k: nat :: NewestAt(p, ds, i, k, fsBlock, maxSeq) && BlockOf(p, ds[i].at + 1 + k) == None)
  }

  lemma AnswerMeans(p: Params, gs: seq<Group>, ds: seq<Descriptor>, fsBlock: nat, maxSeq: nat, seqno: nat,
                    buf: seq<byte>)
    requires Ok(p) && GroupsOf(gs, ds) && Answers(p, gs, fsBlock, maxSeq, seqno, buf)
    ensures Newest(p, ds, fsBlock, maxSeq, seqno, buf)
  {
    var g, k: nat :| g in gs && NewestIn(p, gs, g, k, fsBlock, maxSeq) &&
      Delivers(EntryFor(g, k), p.journal, seqno, buf);
    var i := SameNewest(p, gs, ds, g, k, fsBlock, maxSeq);
    SameCopy(p, gs, ds, i, k, fsBlock, maxSeq);
    assert GroupOf(gs[i], ds[i]);
    assert Journaled(p, ds[i], k, buf);
  }

  lemma SilenceMeans(p: Params, gs: seq<Group>, ds: seq<Descriptor>, fsBlock: nat, maxSeq: nat)
    requires GroupsOf(gs, ds) && Silent(p, gs, fsBlock, maxSeq)
    ensures NoneReadable(p, ds, fsBlock, maxSeq)
  {
    if g, k: nat :| g in gs && NewestIn(p, gs, g, k, fsBlock, maxSeq) && ReadAt(p.journal, g.at + 1 + k) == None {
      var i := SameNewest(p, gs, ds, g, k, fsBlock, maxSeq);
      assert GroupOf(gs[i], ds[i]) && BlockOf(p, ds[i].at + 1 + k) == None;
    } else {
      forall i: nat, k: nat ensures !CopyAt(p, ds, i, k, fsBlock, maxSeq) {
        if CopyAt(p, ds, i, k, fsBlock, maxSeq) {
          SameCopy(p, gs, ds, i, k, fsBlock, maxSeq);
        }
      }
    }
  }

  /** Of a journal that holds these descriptors, scan, sort and lookup give back the newest copy of a block within the
      bound, as it was before it was journaled; nothing only if no descriptor names the block, or that copy cannot be
      read. */
  method LookUpWritten(p: Params, ghost ds: seq<Descriptor>, qsort: seq<Entry> -> seq<Entry>, fsBlock: nat,
                       maxSeq: nat)
    returns (seqno: nat, buf: seq<byte>)
    requires Ok(p) && Sized(p.caps) && Layout(p, ds, p.start)
    requires forall s: seq<Entry> :: SortOf(qsort(s), s, Before)
    ensures if seqno > 0 then Newest(p, ds, fsBlock, maxSeq, seqno, buf) else NoneReadable(p, ds, fsBlock, maxSeq)
  {
    seqno, buf := LookUp(p, qsort, fsBlock, maxSeq);
    ScanFindsLayout(p, ds, p.start);
    if seqno > 0 {
      AnswerMeans(p, Groups(p, p.start), ds, fsBlock, maxSeq, seqno, buf);
    } else {
      SilenceMeans(p, Groups(p, p.start), ds, fsBlock, maxSeq);
    }
  }

  // ----- an example -----

  /** A tag for block 100, the last of its descriptor. */
  const TAG: WireTag := WireTag(100, false, true, false, true, 0, 0, [0, 0],
                               [0, 0, 0, 0, 0, 0, 0, 0, 0, 0, 0, 0, 0, 0, 0, 0])

  const TAGS32: Caps := Caps(V1, false, 8)

  function Only(at: nat, seqno: nat): Descriptor {
    Descriptor(at, seqno, [TAG])
  }

  /** Transactions 7 and 9, each with a copy of block 100. */
  function TwoTransactions(data7: seq<byte>, data9: seq<byte>): Params {
    var d7, d9 := [0xc0, 0x3b, 0x39, 0x98, 0, 0, 0, 1, 0, 0, 0, 7] + [0, 0, 0, 100, 0, 0, 0, 10],
                  [0xc0, 0x3b, 0x39, 0x98, 0, 0, 0, 1, 0, 0, 0, 9] + [0, 0, 0, 100, 0, 0, 0, 10];
    Params([Some(d7), Some(data7), Some(d9), Some(data9)], TAGS32, 0, 4, 1000)
  }

  lemma TagBytes()
    ensures Fits(TAGS32, TAG) && EncodeTag(TAGS32, TAG) == [0, 0, 0, 100, 0, 0, 0, 10]
  {
    assert TAG.FlagWord() == 10;
    assert PutBe32(100) == [0, 0, 0, 100] && PutBe16(10) == [0, 10] && PutBe16(0) == [0, 0];
  }

  lemma HeaderBytes(n: byte)
    ensures DescriptorHeader(n) == [0xc0, 0x3b, 0x39, 0x98, 0, 0, 0, 1, 0, 0, 0, n]
  {
    assert PutBe32(n) == [0, 0, 0, n];
  }

  lemma OnlyBytes(at: nat, n: byte)
    ensures AllFit(TAGS32, [TAG])
    ensures DescriptorBytes(TAGS32, Only(at, n)) ==
            [0xc0, 0x3b, 0x39, 0x98, 0, 0, 0, 1, 0, 0, 0, n] + [0, 0, 0, 100, 0, 0, 0, 10]
  {
    TagBytes();
    assert Encoded(TAGS32, [TAG]) == [EncodeTag(TAGS32, TAG)];
    JoinOne(EncodeTag(TAGS32, TAG));
    HeaderBytes(n);
    assert Encode(TAGS32, [TAG]) == [0, 0, 0, 100, 0, 0, 0, 10];
  }

  /** There are such journals: a lookup of block 100 gives the copy of transaction 9, and up to transaction 8 that
      of transaction 7. */
  lemma TwoCopies(data7: seq<byte>, data9: seq<byte>)
    requires |data7| >= 12 && |data9| >= 12
    ensures var p, ds := TwoTransactions(data7, data9), [Only(0, 7), Only(2, 9)];
      && Ok(p) && Sized(p.caps) && Layout(p, ds, 0)
      && NewestAt(p, ds, 1, 0, 100, 0) && Journaled(p, ds[1], 0, data9)
      && NewestAt(p, ds, 0, 0, 100, 8) && Journaled(p, ds[0], 0, data7)
  {
    var p, ds := TwoTransactions(data7, data9), [Only(0, 7), Only(2, 9)];
    OnlyBytes(0, 7);
    OnlyBytes(2, 9);
    assert Terminated(TAGS32, [TAG], 0);
    forall b | 0 <= b < 4 ensures !Between(ds, b) {
      assert !Outside(ds[b / 2], b);
    }
    assert CopyAt(p, ds, 0, 0, 100, 8) && !CopyAt(p, ds, 1, 0, 100, 8);
  }
}
