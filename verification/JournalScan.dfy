/** The linear scan of the journal (improved/journal_recovery_v5.c:967-1073): descriptor blocks, their tags,
    and the data blocks that follow them. */
module JournalScan {
  import opened Bytes
  import opened JournalTags
  import opened JournalIndex
  import opened Collections
  import opened Sorting

  const DESCRIPTOR_BLOCK: nat := 1

  /** The readable journal, the tag format, the range of the scan and the size of the filesystem. */
  datatype Params = Params(journal: Journal, caps: Caps, start: nat, len: nat, total: nat)

  ghost predicate Ok(p: Params) {
    Readable(p.caps) && forall b | 0 <= b < |p.journal| && p.journal[b].Some? :: |p.journal[b].value| >= JOURNAL_HEADER
  }

  predicate IsDescriptor(buf: seq<byte>) {
    |buf| >= JOURNAL_HEADER && buf[..4] == JOURNAL_MAGIC && Be32(buf, 4) == DESCRIPTOR_BLOCK
  }

  /** An index entry and the data block it stands for, None if that cannot be read. */
  datatype Item = Item(entry: Entry, data: Option<seq<byte>>)

  predicate Reasonable(p: Params, t: Tag) {
    t.block != 0 && t.block < p.total
  }

  function ItemFor(p: Params, t: Tag, at: nat, seqno: nat): Item
    requires Ok(p)
  {
    Item(Entry(t.block, at, seqno, t.Escaped()),
         match ReadAt(p.journal, at)
         case None => None
         case Some(d) => Some(Restore(d, t.Escaped())))
  }

  /** The tag loop: what it records and where the next data block would be. */
  function Consume(p: Params, tags: seq<Tag>, at: nat, seqno: nat): (seq<Item>, nat)
    requires Ok(p)
  {
    if tags == [] then ([], at)
    else if !Reasonable(p, tags[0]) then Consume(p, tags[1..], at + 1, seqno)
    else if at >= p.len then ([], at)
    else
      var (items, next) := Consume(p, tags[1..], at + 1, seqno);
      ([ItemFor(p, tags[0], at, seqno)] + items, next)
  }

  datatype Group = Group(at: nat, seqno: nat, tags: seq<Tag>, items: seq<Item>, next: nat)

  function GroupAt(p: Params, blk: nat, buf: seq<byte>): Group
    requires Ok(p) && IsDescriptor(buf)
  {
    var tags := Parse(p.caps, buf, JOURNAL_HEADER);
    var (items, next) := Consume(p, tags, blk + 1, Be32(buf, 8));
    Group(blk, Be32(buf, 8), tags, items, next)
  }

  predicate DescriptorAt(p: Params, blk: nat) {
    ReadAt(p.journal, blk).Some? && IsDescriptor(ReadAt(p.journal, blk).value)
  }

  lemma {:induction false} ConsumeAdvances(p: Params, tags: seq<Tag>, at: nat, seqno: nat)
    requires Ok(p)
    ensures at <= Consume(p, tags, at, seqno).1 <= at + |tags|
  {
    if tags != [] && (!Reasonable(p, tags[0]) || at < p.len) {
      ConsumeAdvances(p, tags[1..], at + 1, seqno);
    }
  }

  /** The descriptors the scan finds from `blk` on. */
  function Groups(p: Params, blk: nat): seq<Group>
    requires Ok(p)
    decreases p.len - blk
  {
    if blk >= p.len then []
    else if !DescriptorAt(p, blk) then Groups(p, blk + 1)
    else
      var buf := ReadAt(p.journal, blk).value;
      var g := GroupAt(p, blk, buf);
      ConsumeAdvances(p, g.tags, blk + 1, g.seqno);
      [g] + Groups(p, g.next)
  }

  function AllItems(gs: seq<Group>): seq<Item> {
    if gs == [] then [] else gs[0].items + AllItems(gs[1..])
  }

  function EntriesOf(items: seq<Item>): seq<Entry> {
    if items == [] then [] else EntriesOf(items[..|items| - 1]) + [items[|items| - 1].entry]
  }

  // ----- the loops -----

  /** One descriptor: walk its bytes tag by tag, recording each reasonable tag's data block. */
  method ScanDescriptor(p: Params, blk: nat, buf: seq<byte>, index: Index) returns (items: seq<Item>, dataBlk: nat)
    requires Ok(p) && IsDescriptor(buf)
    modifies index
    ensures var g := GroupAt(p, blk, buf); items == g.items && dataBlk == g.next
    ensures index.entries == old(index.entries) + EntriesOf(items)
  {
    var seqno := Be32(buf, 8);
    var tagp := JOURNAL_HEADER;
    var remaining: int := |buf| - JOURNAL_HEADER;
    items, dataBlk := [], blk + 1;
    ghost var goal := Consume(p, Parse(p.caps, buf, tagp), dataBlk, seqno);
    ghost var before := index.entries;
    var stop := false;
    while !stop && remaining >= p.caps.tagBytes
      invariant remaining == |buf| - tagp
      invariant if stop then goal == (items, dataBlk)
                else Rest(p, Parse(p.caps, buf, tagp), dataBlk, seqno, items, goal)
      invariant index.entries == before + EntriesOf(items)
      decreases !stop, remaining
    {
      tagp, remaining, items, dataBlk, stop :=
        ScanTag(p, buf, tagp, remaining, seqno, items, dataBlk, index, before, goal);
    }
    if !stop {
      RestDone(p, dataBlk, seqno, items, goal);
    }
  }

  /** One turn of the tag loop; `stop` when it leaves the loop. */
  method ScanTag(p: Params, buf: seq<byte>, tagp0: nat, remaining0: int, seqno: nat, items0: seq<Item>, dataBlk0: nat,
                 index: Index, ghost before: seq<Entry>, ghost goal: (seq<Item>, nat))
    returns (tagp: nat, remaining: int, items: seq<Item>, dataBlk: nat, stop: bool)
    requires Ok(p) && remaining0 == |buf| - tagp0 && remaining0 >= p.caps.tagBytes
    requires Rest(p, Parse(p.caps, buf, tagp0), dataBlk0, seqno, items0, goal)
    requires index.entries == before + EntriesOf(items0)
    modifies index
    ensures index.entries == before + EntriesOf(items)
    ensures remaining == |buf| - tagp && tagp > tagp0
    ensures if stop then goal == (items, dataBlk) else Rest(p, Parse(p.caps, buf, tagp), dataBlk, seqno, items, goal)
  {
    var t, last;
    t, last, tagp, remaining := TakeTag(p.caps, buf, tagp0, remaining0);
    ghost var rest := After(p.caps, buf, tagp0);
    RestParse(p, buf, tagp0, dataBlk0, seqno, items0, goal);
    items, dataBlk, stop := UseTag(p, t, seqno, items0, dataBlk0, index, before, goal, rest);
    if !stop && last {
      RestDone(p, dataBlk, seqno, items, goal);
      stop := true;
    }
  }

  /** Decode the tag and step over it and its UUID. */
  method TakeTag(caps: Caps, buf: seq<byte>, tagp0: nat, remaining0: int)
    returns (t: Tag, last: bool, tagp: nat, remaining: int)
    requires Readable(caps) && remaining0 == |buf| - tagp0 && remaining0 >= caps.tagBytes
    ensures t == TagAt(caps, buf, tagp0) && remaining == |buf| - tagp && tagp > tagp0
    ensures After(caps, buf, tagp0) == if last then [] else Parse(caps, buf, tagp)
  {
    t := TagAt(caps, buf, tagp0);
    last := t.Last();
    tagp, remaining := tagp0 + caps.tagBytes, remaining0 - caps.tagBytes;
    if !t.SameUuid() {
      tagp, remaining := tagp + UUID_BYTES, remaining - UUID_BYTES;
    }
    TailIs(caps, buf, tagp0, tagp);
  }

  lemma TailIs(caps: Caps, buf: seq<byte>, p: nat, next: nat)
    requires Readable(caps) && p + caps.tagBytes <= |buf| && next == p + Width(caps, TagAt(caps, buf, p))
    ensures After(caps, buf, p) == if TagAt(caps, buf, p).Last() then [] else Parse(caps, buf, next)
  {
  }

  /** Record the data block of a reasonable tag; `stop` when the journal has no more blocks. */
  method UseTag(p: Params, t: Tag, seqno: nat, items0: seq<Item>, dataBlk0: nat, index: Index,
                ghost before: seq<Entry>, ghost goal: (seq<Item>, nat), ghost rest: seq<Tag>)
    returns (items: seq<Item>, dataBlk: nat, stop: bool)
    requires Ok(p) && index.entries == before + EntriesOf(items0)
    requires Expected(p, t, rest, dataBlk0, seqno, items0, goal)
    modifies index
    ensures index.entries == before + EntriesOf(items)
    ensures if stop then goal == (items, dataBlk) else Rest(p, rest, dataBlk, seqno, items, goal)
  {
    items, dataBlk, stop := items0, dataBlk0, false;
    if Reasonable(p, t) {
      if dataBlk >= p.len {
        stop := true;
        return;
      }
      items := Record(ItemFor(p, t, dataBlk, seqno), items0, index, before);
    }
    dataBlk := dataBlk + 1;
  }

  /** Index one data block. */
  method Record(item: Item, items0: seq<Item>, index: Index, ghost before: seq<Entry>) returns (items: seq<Item>)
    requires index.entries == before + EntriesOf(items0)
    modifies index
    ensures items == items0 + [item] && index.entries == before + EntriesOf(items)
  {
    var rc := index.Add(item.entry, true);
    EntriesSnoc(items0, item);
    items := items0 + [item];
  }

  /** What has to hold after tag `t` for the goal to be reached. */
  ghost predicate Expected(p: Params, t: Tag, rest: seq<Tag>, at: nat, seqno: nat, items: seq<Item>,
                           goal: (seq<Item>, nat))
    requires Ok(p)
  {
    if !Reasonable(p, t) then Rest(p, rest, at + 1, seqno, items, goal)
    else if at >= p.len then goal == (items, at)
    else Rest(p, rest, at + 1, seqno, items + [ItemFor(p, t, at, seqno)], goal)
  }

  lemma RestParse(p: Params, buf: seq<byte>, tagp: nat, at: nat, seqno: nat, items: seq<Item>, goal: (seq<Item>, nat))
    requires Ok(p) && tagp + p.caps.tagBytes <= |buf|
    requires Rest(p, Parse(p.caps, buf, tagp), at, seqno, items, goal)
    ensures Expected(p, TagAt(p.caps, buf, tagp), After(p.caps, buf, tagp), at, seqno, items, goal)
  {
    RestStep(p, TagAt(p.caps, buf, tagp), After(p.caps, buf, tagp), at, seqno, items, goal);
  }

  /** What is recorded so far and what the remaining tags will add make up the goal. */
  ghost predicate Rest(p: Params, tags: seq<Tag>, at: nat, seqno: nat, items: seq<Item>, goal: (seq<Item>, nat))
    requires Ok(p)
  {
    var (more, next) := Consume(p, tags, at, seqno);
    items + more == goal.0 && next == goal.1
  }

  lemma RestStep(p: Params, t: Tag, rest: seq<Tag>, at: nat, seqno: nat, items: seq<Item>, goal: (seq<Item>, nat))
    requires Ok(p) && Rest(p, [t] + rest, at, seqno, items, goal)
    ensures Expected(p, t, rest, at, seqno, items, goal)
  {
    assert ([t] + rest)[1..] == rest;
    assert items + [] == items;
    if Reasonable(p, t) && at < p.len {
      Regroup(items, ItemFor(p, t, at, seqno), Consume(p, rest, at + 1, seqno).0);
    }
  }

  lemma RestDone(p: Params, at: nat, seqno: nat, items: seq<Item>, goal: (seq<Item>, nat))
    requires Ok(p) && Rest(p, [], at, seqno, items, goal)
    ensures goal == (items, at)
  {
    assert items + [] == items;
  }

  lemma EntriesSnoc(items: seq<Item>, item: Item)
    ensures EntriesOf(items + [item]) == EntriesOf(items) + [item.entry]
  {
    assert (items + [item])[..|items|] == items;
  }

  lemma {:induction false} EntriesAppend(a: seq<Item>, b: seq<Item>)
    ensures EntriesOf(a + b) == EntriesOf(a) + EntriesOf(b)
  {
    if b == [] {
      assert a + b == a;
    } else {
      var m := |b| - 1;
      EntriesAppend(a, b[..m]);
      assert (a + b)[..|a + b| - 1] == a + b[..m];
    }
  }

  method ScanJournal(p: Params, index: Index) returns (items: seq<Item>)
    requires Ok(p)
    modifies index
    ensures items == AllItems(Groups(p, p.start))
    ensures index.entries == old(index.entries) + EntriesOf(items)
  {
    items := [];
    var blk := p.start;
    while blk < p.len
      invariant items + AllItems(Groups(p, blk)) == AllItems(Groups(p, p.start))
      invariant index.entries == old(index.entries) + EntriesOf(items)
    {
      var found, next := ScanBlock(p, blk, index);
      EntriesAppend(items, found);
      Reassociate(items, found, AllItems(Groups(p, next)));
      items, blk := items + found, next;
    }
  }

  /** One turn of the scan: a descriptor with its data blocks, or some other block. */
  method ScanBlock(p: Params, blk: nat, index: Index) returns (items: seq<Item>, next: nat)
    requires Ok(p) && blk < p.len
    modifies index
    ensures next > blk && items + AllItems(Groups(p, next)) == AllItems(Groups(p, blk))
    ensures index.entries == old(index.entries) + EntriesOf(items)
  {
    var desc := ReadAt(p.journal, blk);
    if desc.Some? && IsDescriptor(desc.value) {
      ghost var g := GroupAt(p, blk, desc.value);
      ConsumeAdvances(p, g.tags, blk + 1, g.seqno);
      items, next := ScanDescriptor(p, blk, desc.value, index);
      GroupsStep(p, blk);
    } else {
      items, next := [], blk + 1;
    }
  }

  lemma GroupsStep(p: Params, blk: nat)
    requires Ok(p) && blk < p.len && DescriptorAt(p, blk)
    ensures var g := GroupAt(p, blk, ReadAt(p.journal, blk).value);
      Groups(p, blk) == [g] + Groups(p, g.next) && AllItems(Groups(p, blk)) == g.items + AllItems(Groups(p, g.next))
  {
    var g := GroupAt(p, blk, ReadAt(p.journal, blk).value);
    assert ([g] + Groups(p, g.next))[1..] == Groups(p, g.next);
  }

  // ----- what the scan pairs with what -----

  /** Tag `k` belongs to the `k`-th block after the descriptor, whatever happens to the other tags. */
  function PairUp(p: Params, tags: seq<Tag>, at: nat, seqno: nat): seq<Item>
    requires Ok(p)
  {
    if tags == [] then []
    else
      (if Reasonable(p, tags[0]) && at < p.len then [ItemFor(p, tags[0], at, seqno)] else [])
      + PairUp(p, tags[1..], at + 1, seqno)
  }

  lemma {:induction false} BeyondTheEnd(p: Params, tags: seq<Tag>, at: nat, seqno: nat)
    requires Ok(p) && at >= p.len
    ensures PairUp(p, tags, at, seqno) == []
  {
    if tags != [] { BeyondTheEnd(p, tags[1..], at + 1, seqno); }
  }

  /** Skipped tags still use up their block, and leaving the loop early loses nothing. */
  lemma {:induction false} TagsStayInStep(p: Params, tags: seq<Tag>, at: nat, seqno: nat)
    requires Ok(p)
    ensures Consume(p, tags, at, seqno).0 == PairUp(p, tags, at, seqno)
  {
    if tags != [] {
      if Reasonable(p, tags[0]) && at >= p.len {
        BeyondTheEnd(p, tags, at, seqno);
      } else {
        TagsStayInStep(p, tags[1..], at + 1, seqno);
      }
    }
  }

  /** `item` is what tag `k` is paired with: the `k`-th block after the descriptor. */
  ghost predicate FromTag(p: Params, tags: seq<Tag>, at: nat, seqno: nat, k: nat, item: Item)
    requires Ok(p)
  {
    k < |tags| && Reasonable(p, tags[k]) && at + k < p.len && item == ItemFor(p, tags[k], at + k, seqno)
  }

  lemma {:induction false} PairUpPointwise(p: Params, tags: seq<Tag>, at: nat, seqno: nat, item: Item)
    requires Ok(p)
    ensures item in PairUp(p, tags, at, seqno) <==> exists k: nat :: FromTag(p, tags, at, seqno, k, item)
  {
    if tags != [] {
      var rest, next := tags[1..], at + 1;
      PairUpPointwise(p, rest, next, seqno, item);
      if k: nat :| FromTag(p, rest, next, seqno, k, item) { assert FromTag(p, tags, at, seqno, k + 1, item); }
      if k: nat :| FromTag(p, tags, at, seqno, k, item) {
        assert k > 0 ==> FromTag(p, rest, next, seqno, k - 1, item);
      }
      assert item == ItemFor(p, tags[0], at, seqno) && Reasonable(p, tags[0]) && at < p.len ==>
        FromTag(p, tags, at, seqno, 0, item);
    }
  }

  /** Tag by tag: what the loop records is exactly, for every reasonable tag `k` whose block lies in the journal, the
      block `at + k`, whatever happens to the other tags. */
  lemma TagsPointwise(p: Params, tags: seq<Tag>, at: nat, seqno: nat, item: Item)
    requires Ok(p)
    ensures item in Consume(p, tags, at, seqno).0 <==> exists k: nat :: FromTag(p, tags, at, seqno, k, item)
  {
    TagsStayInStep(p, tags, at, seqno);
    PairUpPointwise(p, tags, at, seqno, item);
  }

  /** Journal blocks of a list of items, in (lo, hi) and strictly ascending. */
  ghost predicate Ascending(items: seq<Item>, lo: int, hi: int) {
    && (forall i | 0 <= i < |items| :: lo <= items[i].entry.journalBlk < hi)
    && (forall i, j | 0 <= i < j < |items| :: items[i].entry.journalBlk < items[j].entry.journalBlk)
  }

  lemma {:induction false} ConsumeAscends(p: Params, tags: seq<Tag>, at: nat, seqno: nat)
    requires Ok(p)
    ensures var (items, next) := Consume(p, tags, at, seqno); Ascending(items, at, next) && Ascending(items, at, p.len)
  {
    if tags != [] {
      ConsumeAdvances(p, tags, at, seqno);
      if !Reasonable(p, tags[0]) || at < p.len {
        ConsumeAdvances(p, tags[1..], at + 1, seqno);
        ConsumeAscends(p, tags[1..], at + 1, seqno);
      }
    }
  }

  /** Group `g` is the descriptor at its place: its data blocks lie between it and the next group. */
  ghost predicate GroupOk(p: Params, g: Group) {
    && g.at < p.len && DescriptorAt(p, g.at) && g.at < g.next <= g.at + 1 + |g.tags|
    && Ok(p) && g == GroupAt(p, g.at, ReadAt(p.journal, g.at).value)
    && g.items == PairUp(p, g.tags, g.at + 1, g.seqno)
    && Ascending(g.items, g.at + 1, g.next) && Ascending(g.items, g.at + 1, p.len)
  }

  lemma DescriptorOk(p: Params, blk: nat)
    requires Ok(p) && blk < p.len && DescriptorAt(p, blk)
    ensures GroupOk(p, GroupAt(p, blk, ReadAt(p.journal, blk).value))
  {
    var g := GroupAt(p, blk, ReadAt(p.journal, blk).value);
    ConsumeAdvances(p, g.tags, blk + 1, g.seqno);
    ConsumeAscends(p, g.tags, blk + 1, g.seqno);
    TagsStayInStep(p, g.tags, blk + 1, g.seqno);
  }

  /** Groups from `blk` on, each starting after the data of the one before. */
  ghost predicate InOrder(p: Params, gs: seq<Group>, blk: nat) {
    && (forall i | 0 <= i < |gs| :: blk <= gs[i].at && GroupOk(p, gs[i]))
    && (forall i, j | 0 <= i < j < |gs| :: gs[i].next <= gs[j].at)
  }

  lemma InOrderCons(p: Params, g: Group, gs: seq<Group>, blk: nat)
    requires GroupOk(p, g) && blk <= g.at && InOrder(p, gs, g.next)
    ensures InOrder(p, [g] + gs, blk)
  {
  }

  /** No journal block serves as both data and descriptor: each group starts after the data of the one before. */
  lemma {:induction false} GroupsApart(p: Params, blk: nat)
    requires Ok(p)
    ensures InOrder(p, Groups(p, blk), blk)
    decreases p.len - blk
  {
    if blk < p.len {
      if !DescriptorAt(p, blk) {
        GroupsApart(p, blk + 1);
      } else {
        DescriptorOk(p, blk);
        GroupsStep(p, blk);
        var g := GroupAt(p, blk, ReadAt(p.journal, blk).value);
        GroupsApart(p, g.next);
        InOrderCons(p, g, Groups(p, g.next), blk);
      }
    }
  }

  /** Every descriptor in the range is found, unless it was consumed as data. */
  lemma {:induction false} NothingSkipped(p: Params, blk: nat, b: nat)
    requires Ok(p) && blk <= b < p.len && DescriptorAt(p, b)
    ensures exists i :: 0 <= i < |Groups(p, blk)| && Groups(p, blk)[i].at <= b < Groups(p, blk)[i].next
    decreases p.len - blk
  {
    if !DescriptorAt(p, blk) {
      NothingSkipped(p, blk + 1, b);
    } else {
      DescriptorOk(p, blk);
      GroupsStep(p, blk);
      var g := GroupAt(p, blk, ReadAt(p.journal, blk).value);
      if b < g.next {
        assert Groups(p, blk)[0] == g;
      } else {
        NothingSkipped(p, g.next, b);
        var i :| 0 <= i < |Groups(p, g.next)| && Groups(p, g.next)[i].at <= b < Groups(p, g.next)[i].next;
        assert Groups(p, blk)[i + 1] == Groups(p, g.next)[i];
      }
    }
  }

  lemma AscendingAppend(a: seq<Item>, b: seq<Item>, lo: int, mid: int, hi: int)
    requires lo <= mid <= hi && Ascending(a, lo, mid) && Ascending(b, mid, hi)
    ensures Ascending(a + b, lo, hi)
  {
  }

  /** Over the whole scan the indexed journal blocks strictly increase and stay in the journal. */
  lemma {:induction false} IndexAscends(p: Params, blk: nat)
    requires Ok(p)
    ensures Ascending(AllItems(Groups(p, blk)), blk, p.len)
    decreases p.len - blk
  {
    if blk < p.len {
      if !DescriptorAt(p, blk) {
        IndexAscends(p, blk + 1);
      } else {
        DescriptorOk(p, blk);
        GroupsStep(p, blk);
        var g := GroupAt(p, blk, ReadAt(p.journal, blk).value);
        if g.next <= p.len {
          IndexAscends(p, g.next);
          AscendingAppend(g.items, AllItems(Groups(p, g.next)), blk, g.next, p.len);
        } else {
          assert g.items + [] == g.items;
        }
      }
    }
  }

  // ----- scan, sort and lookup together -----

  /** Tag `k` of group `g` says that its block of the journal is a copy of `fsBlock` within the bound. */
  ghost predicate CopyIn(p: Params, g: Group, k: nat, fsBlock: nat, maxSeq: nat) {
    && k < |g.tags| && g.tags[k].block == fsBlock && Reasonable(p, g.tags[k]) && g.at + 1 + k < p.len
    && (maxSeq == 0 || g.seqno <= maxSeq)
  }

  /** No tag of any group names a newer one. */
  ghost predicate NewestIn(p: Params, gs: seq<Group>, g: Group, k: nat, fsBlock: nat, maxSeq: nat) {
    && CopyIn(p, g, k, fsBlock, maxSeq)
    && forall h, j: nat | h in gs && CopyIn(p, h, j, fsBlock, maxSeq) :: h.seqno <= g.seqno
  }

  function EntryFor(g: Group, k: nat): Entry
    requires k < |g.tags|
  {
    Entry(g.tags[k].block, g.at + 1 + k, g.seqno, g.tags[k].Escaped())
  }

  /** `e` is the index entry of tag `k` of group `g`. */
  ghost predicate Stands(p: Params, gs: seq<Group>, g: Group, k: nat, e: Entry) {
    g in gs && k < |g.tags| && Reasonable(p, g.tags[k]) && g.at + 1 + k < p.len && e == EntryFor(g, k)
  }

  lemma {:induction false} EntryOfItem(items: seq<Item>, e: Entry)
    ensures e in EntriesOf(items) <==> exists x :: x in items && x.entry == e
  {
    if items != [] {
      var m := |items| - 1;
      EntryOfItem(items[..m], e);
      assert items == items[..m] + [items[m]];
    }
  }

  lemma {:induction false} ItemOfGroup(gs: seq<Group>, x: Item)
    ensures x in AllItems(gs) <==> exists g :: g in gs && x in g.items
  {
    if gs != [] {
      ItemOfGroup(gs[1..], x);
      assert gs == [gs[0]] + gs[1..];
    }
  }

  /** The items of each group are those its tags are paired with. */
  ghost predicate AllPaired(p: Params, gs: seq<Group>)
    requires Ok(p)
  {
    forall g | g in gs :: g.items == PairUp(p, g.tags, g.at + 1, g.seqno)
  }

  lemma GroupsPaired(p: Params, blk: nat)
    requires Ok(p)
    ensures AllPaired(p, Groups(p, blk))
  {
    GroupsApart(p, blk);
    forall g | g in Groups(p, blk) ensures g.items == PairUp(p, g.tags, g.at + 1, g.seqno) {
      assert GroupOk(p, g);
    }
  }

  /** Every entry of the index is that of a reasonable tag whose block lies in the journal. */
  lemma EntryHasTag(p: Params, gs: seq<Group>, e: Entry) returns (g: Group, k: nat)
    requires Ok(p) && AllPaired(p, gs) && e in EntriesOf(AllItems(gs))
    ensures Stands(p, gs, g, k, e)
  {
    EntryOfItem(AllItems(gs), e);
    var x :| x in AllItems(gs) && x.entry == e;
    ItemOfGroup(gs, x);
    g :| g in gs && x in g.items;
    PairUpPointwise(p, g.tags, g.at + 1, g.seqno, x);
    k :| FromTag(p, g.tags, g.at + 1, g.seqno, k, x);
  }

  /** Every such tag has its entry in the index. */
  lemma TagHasEntry(p: Params, gs: seq<Group>, g: Group, k: nat)
    requires Ok(p) && AllPaired(p, gs) && g in gs
    requires k < |g.tags| && Reasonable(p, g.tags[k]) && g.at + 1 + k < p.len
    ensures EntryFor(g, k) in EntriesOf(AllItems(gs))
  {
    var x := ItemFor(p, g.tags[k], g.at + 1 + k, g.seqno);
    assert FromTag(p, g.tags, g.at + 1, g.seqno, k, x);
    PairUpPointwise(p, g.tags, g.at + 1, g.seqno, x);
    ItemOfGroup(gs, x);
    EntryOfItem(AllItems(gs), EntryFor(g, k));
  }

  /** A list of the index's entries, in whatever order. */
  ghost predicate Lists(entries: seq<Entry>, gs: seq<Group>) {
    multiset(entries) == multiset(EntriesOf(AllItems(gs)))
  }

  /** The newest entry of the index is that of a newest tag. */
  lemma NewestEntryNewestTag(p: Params, gs: seq<Group>, entries: seq<Entry>, e: Entry, fsBlock: nat, maxSeq: nat)
    returns (g: Group, k: nat)
    requires Ok(p) && AllPaired(p, gs) && Lists(entries, gs) && e in entries && Newest(e, entries, fsBlock, maxSeq)
    ensures Stands(p, gs, g, k, e) && NewestIn(p, gs, g, k, fsBlock, maxSeq)
  {
    SameElements(entries, EntriesOf(AllItems(gs)));
    g, k := EntryHasTag(p, gs, e);
    forall h, j: nat | h in gs && CopyIn(p, h, j, fsBlock, maxSeq) ensures h.seqno <= g.seqno {
      TagHasEntry(p, gs, h, j);
      assert EntryFor(h, j) in entries;
    }
  }

  lemma NoneMissed(p: Params, gs: seq<Group>, entries: seq<Entry>, fsBlock: nat, maxSeq: nat)
    requires Ok(p) && AllPaired(p, gs) && Lists(entries, gs)
    requires forall e | e in entries :: !Eligible(e, fsBlock, maxSeq)
    ensures forall g, k: nat | g in gs :: !CopyIn(p, g, k, fsBlock, maxSeq)
  {
    SameElements(entries, EntriesOf(AllItems(gs)));
    forall g, k: nat | g in gs ensures !CopyIn(p, g, k, fsBlock, maxSeq) {
      if CopyIn(p, g, k, fsBlock, maxSeq) { TagHasEntry(p, gs, g, k); }
    }
  }

  /** What is read is the block of a newest tag. */
  ghost predicate Answers(p: Params, gs: seq<Group>, fsBlock: nat, maxSeq: nat, seqno: nat, buf: seq<byte>)
    requires Ok(p)
  {
    exists g, k: nat :: g in gs && NewestIn(p, gs, g, k, fsBlock, maxSeq) &&
      Delivers(EntryFor(g, k), p.journal, seqno, buf)
  }

  /** There is no tag for the block, or the journal block of a newest one cannot be read. */
  ghost predicate Silent(p: Params, gs: seq<Group>, fsBlock: nat, maxSeq: nat) {
    || (forall g, k: nat | g in gs :: !CopyIn(p, g, k, fsBlock, maxSeq))
    || (exists g, k: nat :: g in gs && NewestIn(p, gs, g, k, fsBlock, maxSeq) &&
          ReadAt(p.journal, g.at + 1 + k) == None)
  }

  lemma NewestAnswers(p: Params, gs: seq<Group>, entries: seq<Entry>, e: Entry, fsBlock: nat, maxSeq: nat,
                      seqno: nat, buf: seq<byte>)
    requires Ok(p) && AllPaired(p, gs) && Lists(entries, gs) && e in entries && Newest(e, entries, fsBlock, maxSeq)
    requires Delivers(e, p.journal, seqno, buf)
    ensures Answers(p, gs, fsBlock, maxSeq, seqno, buf)
  {
    var g, k := NewestEntryNewestTag(p, gs, entries, e, fsBlock, maxSeq);
    assert g in gs && NewestIn(p, gs, g, k, fsBlock, maxSeq);
  }

  lemma UnreadableIsSilent(p: Params, gs: seq<Group>, entries: seq<Entry>, e: Entry, fsBlock: nat, maxSeq: nat)
    requires Ok(p) && AllPaired(p, gs) && Lists(entries, gs) && e in entries && Newest(e, entries, fsBlock, maxSeq)
    requires ReadAt(p.journal, e.journalBlk) == None
    ensures Silent(p, gs, fsBlock, maxSeq)
  {
    var g, k := NewestEntryNewestTag(p, gs, entries, e, fsBlock, maxSeq);
    assert g in gs && NewestIn(p, gs, g, k, fsBlock, maxSeq);
  }

  /** Scan a journal, sort the index and look a block up: what comes back is the content of the `k`-th block after the
      newest descriptor with a reasonable tag `k` for it, unescaped if the tag says so; nothing comes back only if no
      tag names the block within the bound, or that journal block cannot be read. */
  method LookUp(p: Params, qsort: seq<Entry> -> seq<Entry>, fsBlock: nat, maxSeq: nat)
    returns (seqno: nat, buf: seq<byte>)
    requires Ok(p) && forall s: seq<Entry> :: SortOf(qsort(s), s, Before)
    ensures if seqno > 0 then Answers(p, Groups(p, p.start), fsBlock, maxSeq, seqno, buf)
            else Silent(p, Groups(p, p.start), fsBlock, maxSeq)
  {
    var index := new Index();
    var items := ScanJournal(p, index);
    index.Sort(qsort);
    seqno, buf := index.Read(fsBlock, maxSeq, p.journal);
    ghost var gs, entries := Groups(p, p.start), index.entries;
    GroupsPaired(p, p.start);
    if seqno > 0 {
      ghost var e :| e in entries && Newest(e, entries, fsBlock, maxSeq) && Delivers(e, p.journal, seqno, buf);
      NewestAnswers(p, gs, entries, e, fsBlock, maxSeq, seqno, buf);
    } else if e :| e in entries && Newest(e, entries, fsBlock, maxSeq) && ReadAt(p.journal, e.journalBlk) == None {
      UnreadableIsSilent(p, gs, entries, e, fsBlock, maxSeq);
    } else {
      NoneMissed(p, gs, entries, fsBlock, maxSeq);
    }
  }
}
