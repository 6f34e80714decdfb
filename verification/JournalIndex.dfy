/** The index from filesystem blocks to their journal copies (improved/journal_index.c). */
module JournalIndex {
  import opened Bytes
  import opened Sorting
  import opened Collections

  datatype Entry = Entry(fsBlock: nat, journalBlk: nat, seqno: nat, escaped: bool)

  /** jindex_cmp: by filesystem block, then by sequence number. */
  predicate Before(a: Entry, b: Entry) {
    a.fsBlock < b.fsBlock || (a.fsBlock == b.fsBlock && a.seqno <= b.seqno)
  }

  // ----- magic escaping -----

  /** 0xc03b3998, big-endian. */
  const JOURNAL_MAGIC: seq<byte> := [0xc0, 0x3b, 0x39, 0x98]

  function Restore(data: seq<byte>, escaped: bool): seq<byte>
    requires |data| >= 4
  {
    if escaped then JOURNAL_MAGIC + data[4..] else data
  }

  /** What jbd2 does to a data block that would look like one of its own. */
  function Escape(data: seq<byte>): (seq<byte>, bool)
    requires |data| >= 4
  {
    if data[..4] == JOURNAL_MAGIC then ([0, 0, 0, 0] + data[4..], true) else (data, false)
  }

  lemma RestoreUndoesEscape(data: seq<byte>)
    requires |data| >= 4
    ensures var (stored, escaped) := Escape(data); Restore(stored, escaped) == data
  {
    if data[..4] == JOURNAL_MAGIC {
      assert data == data[..4] + data[4..];
      assert ([0, 0, 0, 0] + data[4..])[4..] == data[4..];
    }
  }

  // ----- the index -----

  /** A copy of the wanted block no newer than the bound; bound 0 means any. */
  predicate Eligible(e: Entry, fsBlock: nat, maxSeq: nat) {
    e.fsBlock == fsBlock && (maxSeq == 0 || e.seqno <= maxSeq)
  }

  /** Journal blocks as they can be read, None for a failing read. */
  type Journal = seq<Option<seq<byte>>>

  ghost predicate JournalOk(j: Journal) {
    forall b | 0 <= b < |j| && j[b].Some? :: |j[b].value| >= 4
  }

  function ReadAt(j: Journal, blk: nat): Option<seq<byte>> {
    if blk < |j| then j[blk] else None
  }

  /** The bisection of journal_index_read. */
  function Bisect(entries: seq<Entry>, fsBlock: nat, lo: nat, hi: nat): (r: nat)
    requires lo <= hi <= |entries|
    ensures lo <= r <= hi
    decreases hi - lo
  {
    if lo == hi then lo
    else
      var mid := (lo + hi) / 2;
      if entries[mid].fsBlock < fsBlock then Bisect(entries, fsBlock, mid + 1, hi)
      else Bisect(entries, fsBlock, lo, mid)
  }

  /** The last eligible entry of the run of equal blocks that starts at `i`. */
  function LastInRun(entries: seq<Entry>, fsBlock: nat, maxSeq: nat, i: nat, best: int): int
    requires i <= |entries|
    decreases |entries| - i
  {
    if i < |entries| && entries[i].fsBlock == fsBlock then
      LastInRun(entries, fsBlock, maxSeq, i + 1, if Eligible(entries[i], fsBlock, maxSeq) then i else best)
    else best
  }

  function Search(entries: seq<Entry>, fsBlock: nat, maxSeq: nat): int {
    LastInRun(entries, fsBlock, maxSeq, Bisect(entries, fsBlock, 0, |entries|), -1)
  }

  lemma {:induction false} BisectPartitions(entries: seq<Entry>, fsBlock: nat, lo: nat, hi: nat)
    requires Ordered(entries, Before) && lo <= hi <= |entries|
    requires forall i | 0 <= i < lo :: entries[i].fsBlock < fsBlock
    requires forall i | hi <= i < |entries| :: fsBlock <= entries[i].fsBlock
    ensures var r := Bisect(entries, fsBlock, lo, hi);
      (forall i | 0 <= i < r :: entries[i].fsBlock < fsBlock) &&
      (forall i | r <= i < |entries| :: fsBlock <= entries[i].fsBlock)
    decreases hi - lo
  {
    if lo < hi {
      var mid := (lo + hi) / 2;
      BlocksAscend(entries, mid);
      if entries[mid].fsBlock < fsBlock {
        BisectPartitions(entries, fsBlock, mid + 1, hi);
      } else {
        BisectPartitions(entries, fsBlock, lo, mid);
      }
    }
  }

  lemma {:induction false} BlocksAscend(entries: seq<Entry>, mid: nat)
    requires Ordered(entries, Before) && mid < |entries|
    ensures forall i | 0 <= i <= mid :: entries[i].fsBlock <= entries[mid].fsBlock
    ensures forall i | mid <= i < |entries| :: entries[mid].fsBlock <= entries[i].fsBlock
  {
    forall i | 0 <= i < mid ensures entries[i].fsBlock <= entries[mid].fsBlock {
      assert Before(entries[i], entries[mid]);
    }
    forall i | mid < i < |entries| ensures entries[mid].fsBlock <= entries[i].fsBlock {
      assert Before(entries[mid], entries[i]);
    }
  }

  lemma {:induction false} RunSound(entries: seq<Entry>, fsBlock: nat, maxSeq: nat, i: nat, best: int)
    requires i <= |entries|
    ensures var r := LastInRun(entries, fsBlock, maxSeq, i, best);
      r == best || (i <= r < |entries| && Eligible(entries[r], fsBlock, maxSeq))
    decreases |entries| - i
  {
    if i < |entries| && entries[i].fsBlock == fsBlock {
      RunSound(entries, fsBlock, maxSeq, i + 1, if Eligible(entries[i], fsBlock, maxSeq) then i else best);
    }
  }

  lemma {:induction false} RunNewest(entries: seq<Entry>, fsBlock: nat, maxSeq: nat, i: nat, best: int, k: nat)
    requires Ordered(entries, Before) && i <= |entries| && best < i
    requires k < |entries| && Eligible(entries[k], fsBlock, maxSeq)
    requires if k < i then 0 <= best && entries[k].seqno <= entries[best].seqno
             else forall j | i <= j < |entries| :: fsBlock <= entries[j].fsBlock
    requires best >= 0 ==> entries[best].fsBlock == fsBlock
    ensures var r := LastInRun(entries, fsBlock, maxSeq, i, best);
      0 <= r < |entries| && entries[k].seqno <= entries[r].seqno
    decreases |entries| - i
  {
    if i < |entries| && entries[i].fsBlock == fsBlock {
      var best' := if Eligible(entries[i], fsBlock, maxSeq) then i else best;
      assert best >= 0 ==> Before(entries[best], entries[i]);
      RunNewest(entries, fsBlock, maxSeq, i + 1, best', k);
    }
  }

  /** Whatever the order of the entries, what is found is a copy of the wanted block within the bound. */
  lemma SearchSound(entries: seq<Entry>, fsBlock: nat, maxSeq: nat)
    ensures var r := Search(entries, fsBlock, maxSeq);
      -1 <= r < |entries| && (r >= 0 ==> Eligible(entries[r], fsBlock, maxSeq))
  {
    RunSound(entries, fsBlock, maxSeq, Bisect(entries, fsBlock, 0, |entries|), -1);
  }

  /** In order, one is found whenever there is one, and none is newer. */
  lemma SearchNewest(entries: seq<Entry>, fsBlock: nat, maxSeq: nat)
    requires Ordered(entries, Before)
    ensures var r := Search(entries, fsBlock, maxSeq);
      forall k | 0 <= k < |entries| && Eligible(entries[k], fsBlock, maxSeq) ::
        0 <= r < |entries| && entries[k].seqno <= entries[r].seqno
  {
    BisectPartitions(entries, fsBlock, 0, |entries|);
    forall k | 0 <= k < |entries| && Eligible(entries[k], fsBlock, maxSeq)
      ensures var r := Search(entries, fsBlock, maxSeq); 0 <= r < |entries| && entries[k].seqno <= entries[r].seqno
    {
      RunNewest(entries, fsBlock, maxSeq, Bisect(entries, fsBlock, 0, |entries|), -1, k);
    }
  }

  class Index {
    var entries: seq<Entry>

    constructor ()
      ensures entries == []
    {
      entries := [];
    }

    /** `memory` says whether a needed growth gets its memory. */
    method Add(e: Entry, memory: bool) returns (rc: int)
      modifies this
      ensures memory ==> rc == 0
      ensures entries == if rc == 0 then old(entries) + [e] else old(entries)
    {
      if !memory {
        return -1;
      }
      entries := entries + [e];
      rc := 0;
    }

    method Sort(qsort: seq<Entry> -> seq<Entry>)
      requires SortOf(qsort(entries), entries, Before)
      modifies this
      ensures SortOf(entries, old(entries), Before)
    {
      if |entries| > 0 {
        entries := qsort(entries);
      }
    }

    /** The bisection and the run after it. */
    method FindBest(fsBlock: nat, maxSeq: nat) returns (best: int)
      ensures best == Search(entries, fsBlock, maxSeq)
    {
      var lo, hi := 0, |entries|;
      while lo < hi
        invariant 0 <= lo <= hi <= |entries|
        invariant Bisect(entries, fsBlock, lo, hi) == Bisect(entries, fsBlock, 0, |entries|)
      {
        var mid := (lo + hi) / 2;
        if entries[mid].fsBlock < fsBlock { lo := mid + 1; } else { hi := mid; }
      }
      best := -1;
      var i := lo;
      while i < |entries| && entries[i].fsBlock == fsBlock
        invariant lo <= i <= |entries|
        invariant LastInRun(entries, fsBlock, maxSeq, i, best) == Search(entries, fsBlock, maxSeq)
      {
        if maxSeq == 0 || entries[i].seqno <= maxSeq { best := i; }
        i := i + 1;
      }
    }

    /** Read the chosen copy; 0 when there is none or it cannot be read. */
    method Read(fsBlock: nat, maxSeq: nat, journal: Journal) returns (seqno: nat, buf: seq<byte>)
      requires JournalOk(journal)
      ensures seqno > 0 ==> exists e :: e in entries && Eligible(e, fsBlock, maxSeq) && Delivers(e, journal, seqno, buf)
      ensures Ordered(entries, Before) && seqno > 0 ==>
                exists e :: e in entries && Newest(e, entries, fsBlock, maxSeq) && Delivers(e, journal, seqno, buf)
      ensures Ordered(entries, Before) && seqno == 0 ==>
                (forall e | e in entries :: !Eligible(e, fsBlock, maxSeq)) ||
                (exists e :: e in entries && Newest(e, entries, fsBlock, maxSeq) &&
                  ReadAt(journal, e.journalBlk) == None)
    {
      seqno, buf := 0, [];
      var best := FindBest(fsBlock, maxSeq);
      SearchSound(entries, fsBlock, maxSeq);
      if Ordered(entries, Before) { SearchNewest(entries, fsBlock, maxSeq); }
      if best < 0 {
        return;
      }
      var e := entries[best];
      var data := ReadAt(journal, e.journalBlk);
      if data.None? {
        return;
      }
      buf := Restore(data.value, e.escaped);
      seqno := if e.seqno != 0 then e.seqno else 1;
      assert Delivers(e, journal, seqno, buf);
    }
  }

  /** `e`'s journal block, with the magic put back, is what was read. */
  ghost predicate Delivers(e: Entry, journal: Journal, seqno: nat, buf: seq<byte>)
    requires JournalOk(journal)
  {
    && seqno == (if e.seqno != 0 then e.seqno else 1)
    && ReadAt(journal, e.journalBlk).Some?
    && buf == Restore(ReadAt(journal, e.journalBlk).value, e.escaped)
  }

  ghost predicate Newest(e: Entry, entries: seq<Entry>, fsBlock: nat, maxSeq: nat) {
    && Eligible(e, fsBlock, maxSeq)
    && forall d | d in entries && Eligible(d, fsBlock, maxSeq) :: d.seqno <= e.seqno
  }

  /** The newest eligible sequence number found by looking at every entry in turn. */
  function LinearNewest(entries: seq<Entry>, fsBlock: nat, maxSeq: nat): Option<nat> {
    if entries == [] then None
    else
      var m := |entries| - 1;
      var rest := LinearNewest(entries[..m], fsBlock, maxSeq);
      if !Eligible(entries[m], fsBlock, maxSeq) then rest
      else if rest.Some? && rest.value > entries[m].seqno then rest
      else Some(entries[m].seqno)
  }

  lemma {:induction false} LinearNewestMeaning(entries: seq<Entry>, fsBlock: nat, maxSeq: nat)
    ensures match LinearNewest(entries, fsBlock, maxSeq)
      case None => forall e | e in entries :: !Eligible(e, fsBlock, maxSeq)
      case Some(n) => exists e :: e in entries && Newest(e, entries, fsBlock, maxSeq) && e.seqno == n
  {
    if entries != [] {
      var m := |entries| - 1;
      LinearNewestMeaning(entries[..m], fsBlock, maxSeq);
      assert entries == entries[..m] + [entries[m]];
      if LinearNewest(entries, fsBlock, maxSeq).Some? {
        var n := LinearNewest(entries, fsBlock, maxSeq).value;
        if Eligible(entries[m], fsBlock, maxSeq) && entries[m].seqno == n {
          assert Newest(entries[m], entries, fsBlock, maxSeq);
        } else {
          var e :| e in entries[..m] && Newest(e, entries[..m], fsBlock, maxSeq) && e.seqno == n;
          assert Newest(e, entries, fsBlock, maxSeq);
        }
      }
    }
  }

  /** After sorting, the search agrees with a linear search of everything that was added, in any order. */
  method FindAfterSort(added: seq<Entry>, qsort: seq<Entry> -> seq<Entry>, fsBlock: nat, maxSeq: nat)
    returns (found: Option<Entry>)
    requires SortOf(qsort(added), added, Before)
    ensures match LinearNewest(added, fsBlock, maxSeq)
      case None => found.None?
      case Some(n) => found.Some? && found.value in added && found.value.fsBlock == fsBlock && found.value.seqno == n
  {
    var index := new Index();
    for i := 0 to |added|
      invariant index.entries == added[..i]
    {
      var rc := index.Add(added[i], true);
      assert added[..i + 1] == added[..i] + [added[i]];
    }
    assert added[..|added|] == added;
    index.Sort(qsort);
    var best := index.FindBest(fsBlock, maxSeq);
    SearchSound(index.entries, fsBlock, maxSeq);
    SearchNewest(index.entries, fsBlock, maxSeq);
    LinearNewestMeaning(added, fsBlock, maxSeq);
    SameElements(index.entries, added);
    found := if best < 0 then None else Some(index.entries[best]);
    if best >= 0 {
      assert index.entries[best] in added;
    }
    forall e | e in added && Eligible(e, fsBlock, maxSeq)
      ensures best >= 0 && e.seqno <= index.entries[best].seqno
    {
      assert e in index.entries;
      var k :| 0 <= k < |index.entries| && index.entries[k] == e;
    }
  }

  /** What Sort asks of qsort can be met, whatever the entries. */
  lemma SorterExists(entries: seq<Entry>)
    ensures SortOf(InsertionSort(entries, Before), entries, Before)
  {
    forall a, b, c ensures TransitiveAt(Before, a, b, c) {
    }
    SortExists(entries, Before);
  }

  // ----- before sorting -----

  /** The search for a block within a bound finds the newest eligible entry if there is one. */
  ghost predicate RightFor(entries: seq<Entry>, fsBlock: nat, maxSeq: nat) {
    var r := Search(entries, fsBlock, maxSeq);
    forall k | 0 <= k < |entries| && Eligible(entries[k], fsBlock, maxSeq) ::
      0 <= r < |entries| && entries[k].seqno <= entries[r].seqno
  }

  ghost predicate AlwaysRight(entries: seq<Entry>) {
    forall fsBlock: nat, maxSeq: nat :: RightFor(entries, fsBlock, maxSeq)
  }

  /** No block has two copies of the same transaction. */
  ghost predicate Distinct(entries: seq<Entry>) {
    forall i, j | 0 <= i < j < |entries| ::
      entries[i].fsBlock != entries[j].fsBlock || entries[i].seqno != entries[j].seqno
  }

  /** Whatever the order of the entries, a later block is looked for no further left. */
  lemma {:induction false} BisectMonotone(entries: seq<Entry>, a: nat, b: nat, lo: nat, hi: nat)
    requires a <= b && lo <= hi <= |entries|
    ensures Bisect(entries, a, lo, hi) <= Bisect(entries, b, lo, hi)
    decreases hi - lo
  {
    if lo < hi {
      var mid := (lo + hi) / 2;
      if entries[mid].fsBlock < a {
        BisectMonotone(entries, a, b, mid + 1, hi);
      } else if !(entries[mid].fsBlock < b) {
        BisectMonotone(entries, a, b, lo, mid);
      }
    }
  }

  /** From `i` to `r` there are only entries of the block. */
  ghost predicate InRun(entries: seq<Entry>, fsBlock: nat, i: nat, r: int) {
    r < |entries| && forall j | i <= j <= r :: entries[j].fsBlock == fsBlock
  }

  /** What is found lies in one run of the block, and nothing eligible follows it there. */
  lemma {:induction false} RunShape(entries: seq<Entry>, fsBlock: nat, maxSeq: nat, i: nat, best: int)
    requires i <= |entries| && best < i
    ensures var r := LastInRun(entries, fsBlock, maxSeq, i, best);
      && r >= best && (r > best ==> i <= r && InRun(entries, fsBlock, i, r))
      && forall j | r < j < |entries| && i <= j && InRun(entries, fsBlock, i, j) ::
        !Eligible(entries[j], fsBlock, maxSeq)
    decreases |entries| - i
  {
    if i < |entries| && entries[i].fsBlock == fsBlock {
      var best' := if Eligible(entries[i], fsBlock, maxSeq) then i else best;
      RunShape(entries, fsBlock, maxSeq, i + 1, best');
      var r := LastInRun(entries, fsBlock, maxSeq, i, best);
      forall j | r < j < |entries| && i <= j && InRun(entries, fsBlock, i, j)
        ensures !Eligible(entries[j], fsBlock, maxSeq)
      {
        if j > i { assert InRun(entries, fsBlock, i + 1, j); }
      }
    } else if i < |entries| {
      assert forall j | i <= j :: !InRun(entries, fsBlock, i, j);
    }
  }

  /** If the search is right, an entry is what the search for its own block and sequence number finds. */
  lemma FindsItself(entries: seq<Entry>, i: nat)
    requires i < |entries| && Distinct(entries) && entries[i].seqno > 0
    requires RightFor(entries, entries[i].fsBlock, entries[i].seqno)
    ensures Search(entries, entries[i].fsBlock, entries[i].seqno) == i
  {
    SearchSound(entries, entries[i].fsBlock, entries[i].seqno);
    assert Eligible(entries[i], entries[i].fsBlock, entries[i].seqno);
  }

  /** Then its run starts where the bisection ends. */
  lemma OwnRun(entries: seq<Entry>, i: nat)
    requires i < |entries| && Distinct(entries) && entries[i].seqno > 0 && AlwaysRight(entries)
    ensures var b, n := entries[i].fsBlock, entries[i].seqno;
      && Bisect(entries, b, 0, |entries|) <= i && InRun(entries, b, Bisect(entries, b, 0, |entries|), i)
      && forall j | i < j < |entries| && InRun(entries, b, Bisect(entries, b, 0, |entries|), j) ::
           !Eligible(entries[j], b, n)
  {
    var b, n := entries[i].fsBlock, entries[i].seqno;
    assert RightFor(entries, b, n);
    FindsItself(entries, i);
    RunShape(entries, b, n, Bisect(entries, b, 0, |entries|), -1);
  }

  lemma PairInOrder(entries: seq<Entry>, i: nat, j: nat)
    requires i < j < |entries| && Distinct(entries) && AlwaysRight(entries)
    requires entries[i].seqno > 0 && entries[j].seqno > 0
    ensures Before(entries[i], entries[j])
  {
    var a, b := entries[i].fsBlock, entries[j].fsBlock;
    OwnRun(entries, i);
    OwnRun(entries, j);
    if b <= a { BisectMonotone(entries, b, a, 0, |entries|); }
  }

  /** With one copy per block and transaction and positive sequence numbers, every lookup is right if and only if the
      index is in order: before jindex_sort some lookup goes wrong unless the journal happened to be written in that
      order. */
  lemma RightExactlyInOrder(entries: seq<Entry>)
    requires Distinct(entries) && forall i | 0 <= i < |entries| :: entries[i].seqno > 0
    ensures AlwaysRight(entries) <==> Ordered(entries, Before)
  {
    if AlwaysRight(entries) {
      forall i, j | 0 <= i < j < |entries| ensures Before(entries[i], entries[j]) {
        PairInOrder(entries, i, j);
      }
    }
    if Ordered(entries, Before) {
      forall fsBlock: nat, maxSeq: nat ensures RightFor(entries, fsBlock, maxSeq) {
        SearchNewest(entries, fsBlock, maxSeq);
      }
    }
  }

  /** A copy that is in the index and is missed. */
  lemma UnsortedCanMiss()
    ensures var entries := [Entry(9, 1, 1, false), Entry(5, 2, 1, false), Entry(7, 3, 1, false)];
      Eligible(entries[0], 9, 0) && Search(entries, 9, 0) == -1
  {
    var entries := [Entry(9, 1, 1, false), Entry(5, 2, 1, false), Entry(7, 3, 1, false)];
    assert Bisect(entries, 9, 2, 3) == 3;
    assert Bisect(entries, 9, 0, 3) == 3;
  }

  /** With two copies of one transaction, an index out of order can be searched right. */
  lemma RepeatsCanHideDisorder()
    ensures var entries := [Entry(5, 1, 1, false), Entry(5, 2, 1, false), Entry(7, 3, 1, false), Entry(5, 4, 1, false)];
      AlwaysRight(entries) && !Ordered(entries, Before)
  {
    var entries := [Entry(5, 1, 1, false), Entry(5, 2, 1, false), Entry(7, 3, 1, false), Entry(5, 4, 1, false)];
    assert !Before(entries[2], entries[3]);
    forall fsBlock: nat, maxSeq: nat ensures RightFor(entries, fsBlock, maxSeq) {
      if fsBlock == 5 {
        assert Bisect(entries, 5, 0, 1) == 0;
        assert Bisect(entries, 5, 0, 2) == 0;
        assert Bisect(entries, 5, 0, 4) == 0;
        assert LastInRun(entries, 5, maxSeq, 2, 1) == 1;
        assert LastInRun(entries, 5, maxSeq, 1, 0) == 1;
        assert LastInRun(entries, 5, maxSeq, 0, -1) == 1;
      } else if fsBlock == 7 {
        assert Bisect(entries, 7, 2, 2) == 2;
        assert Bisect(entries, 7, 0, 2) == 2;
        assert Bisect(entries, 7, 0, 4) == 2;
        assert LastInRun(entries, 7, maxSeq, 3, 2) == 2;
        assert LastInRun(entries, 7, maxSeq, 2, -1) == 2;
      }
    }
  }

  /** So can one with a copy of sequence number 0, which no bound selects while there is one of sequence number 1. */
  lemma ZeroCanHideDisorder()
    ensures var entries := [Entry(5, 1, 1, false), Entry(7, 2, 1, false), Entry(5, 3, 0, false)];
      Distinct(entries) && AlwaysRight(entries) && !Ordered(entries, Before)
  {
    var entries := [Entry(5, 1, 1, false), Entry(7, 2, 1, false), Entry(5, 3, 0, false)];
    assert !Before(entries[1], entries[2]);
    forall fsBlock: nat, maxSeq: nat ensures RightFor(entries, fsBlock, maxSeq) {
      if fsBlock == 5 {
        assert Bisect(entries, 5, 0, 1) == 0;
        assert Bisect(entries, 5, 0, 3) == 0;
        assert LastInRun(entries, 5, maxSeq, 1, 0) == 0;
        assert LastInRun(entries, 5, maxSeq, 0, -1) == 0;
      } else if fsBlock == 7 {
        assert Bisect(entries, 7, 1, 1) == 1;
        assert Bisect(entries, 7, 0, 1) == 1;
        assert Bisect(entries, 7, 0, 3) == 1;
        assert LastInRun(entries, 7, maxSeq, 2, 1) == 1;
        assert LastInRun(entries, 7, maxSeq, 1, -1) == 1;
      }
    }
  }
}
