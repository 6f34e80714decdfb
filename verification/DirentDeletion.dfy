/** Deletion in a directory block as kernels before the wipe did it, each entry absorbed by its live predecessor
    (improved/ghost_dirent.c:4-14), in any order, and how far the scan is its inverse. */
module DirentDeletion {
  import opened Bytes
  import opened GhostDirents

  datatype Entry = Entry(ino: nat, name: seq<byte>, recLen: nat)

  ghost predicate EntryOk(e: Entry) {
    e.recLen % 4 == 0 && Used(|e.name|) <= e.recLen && |e.name| <= 255
  }

  function Off(es: seq<Entry>, i: nat): nat
    requires i <= |es|
  {
    if i == 0 then 0 else Off(es, i - 1) + es[i - 1].recLen
  }

  lemma {:induction false} OffMonotone(es: seq<Entry>, i: nat, j: nat)
    requires i <= j <= |es|
    ensures Off(es, i) <= Off(es, j)
    decreases j
  {
    if i < j { OffMonotone(es, i, j - 1); }
  }

  lemma {:induction false} OffAligned(es: seq<Entry>, i: nat)
    requires i <= |es| && forall k | 0 <= k < |es| :: EntryOk(es[k])
    ensures Off(es, i) % 4 == 0
  {
    if i > 0 {
      OffAligned(es, i - 1);
      assert EntryOk(es[i - 1]);
      AlignedSum(Off(es, i - 1), es[i - 1].recLen);
    }
  }

  lemma AlignedSum(a: nat, b: nat)
    requires a % 4 == 0 && b % 4 == 0
    ensures (a + b) % 4 == 0
  {
  }

  /** An entry is live, or deleted with a length field that was left reaching to entry `end`. */
  datatype Fate = Live | Gone(end: nat)

  type Fates = seq<Fate>

  /** A deleted entry's length field never reaches beyond the next live entry. */
  ghost predicate FatesOk(fs: Fates) {
    forall i | 0 <= i < |fs| && fs[i].Gone? :: i < fs[i].end <= |fs| && AllGone(fs, i + 1, fs[i].end)
  }

  ghost predicate AllGone(fs: Fates, i: nat, j: nat) {
    j <= |fs| && forall k | i <= k < j :: fs[k].Gone?
  }

  /** The next entry from `i` on that is live. */
  function NextLive(fs: Fates, i: nat): (j: nat)
    requires i <= |fs|
    ensures i <= j <= |fs| && (j < |fs| ==> fs[j].Live?) && AllGone(fs, i, j)
    decreases |fs| - i
  {
    if i == |fs| || fs[i].Live? then i else NextLive(fs, i + 1)
  }

  function PrevLive(fs: Fates, i: nat): (j: nat)
    requires 0 < i <= |fs| && fs[0].Live?
    ensures j < i && fs[j].Live? && AllGone(fs, j + 1, i)
  {
    if fs[i - 1].Live? then i - 1 else PrevLive(fs, i - 1)
  }

  lemma {:induction false} NextLiveUnique(fs: Fates, i: nat, j: nat)
    requires i <= j <= |fs| && (j < |fs| ==> fs[j].Live?) && AllGone(fs, i, j)
    ensures NextLive(fs, i) == j
  {
  }

  lemma {:induction false} PrevLiveUnique(fs: Fates, k: nat, i: nat)
    requires i < k <= |fs| && fs[0].Live? && fs[i].Live? && AllGone(fs, i + 1, k)
    ensures PrevLive(fs, k) == i
  {
    if i < k - 1 { PrevLiveUnique(fs, k - 1, i); }
  }

  /** Where the length field of entry `i` leads: from a live entry to the next live one. */
  function Target(fs: Fates, i: nat): nat
    requires i < |fs|
  {
    match fs[i]
    case Live => NextLive(fs, i + 1)
    case Gone(end) => end
  }

  /** Entry `i` as it stands in the block. */
  ghost predicate Stands(b: seq<byte>, es: seq<Entry>, fs: Fates, i: nat)
    requires i < |es| == |fs| && FatesOk(fs)
  {
    var p, e := Off(es, i), es[i];
    && p + e.recLen <= |b| && FIXED + |e.name| <= e.recLen
    && InoAt(b, p) == e.ino && NameLenAt(b, p) == |e.name| && b[p + FIXED..p + FIXED + |e.name|] == e.name
    && p + RecLenAt(b, p) == Off(es, Target(fs, i))
  }

  /** The unused tail of entry `i` is zero. */
  ghost predicate Slack(b: seq<byte>, es: seq<Entry>, i: nat)
    requires i < |es|
  {
    Off(es, i) + es[i].recLen <= |b| &&
    forall k | Off(es, i) + Used(|es[i].name|) <= k < Off(es, i) + es[i].recLen :: b[k] == 0
  }

  /** A block of `bs` bytes holding the entries, some of them deleted. */
  ghost predicate Laid(b: seq<byte>, bs: nat, es: seq<Entry>, fs: Fates) {
    && |fs| == |es| && FatesOk(fs) && Off(es, |es|) == bs < 0x1_0000 && bs + OVERREAD <= |b|
    && (forall i | 0 <= i < |es| :: EntryOk(es[i]))
    && (forall i | 0 <= i < |es| :: Stands(b, es, fs, i) && Slack(b, es, i))
  }

  /** Entries a deletion may remove: names and inodes the scan takes for valid. */
  ghost predicate Removable(e: Entry, maxIno: nat) {
    NameOk(e.name) && 0 < e.ino <= maxIno
  }

  ghost predicate GoneRemovable(es: seq<Entry>, fs: Fates, maxIno: nat) {
    |es| == |fs| && forall k | 0 <= k < |es| && fs[k].Gone? :: Removable(es[k], maxIno)
  }

  lemma {:induction false} EntrySize(b: seq<byte>, bs: nat, es: seq<Entry>, fs: Fates, i: nat)
    requires Laid(b, bs, es, fs) && i < |es|
    ensures Off(es, i + 1) == Off(es, i) + es[i].recLen <= bs && es[i].recLen >= FIXED
  {
    assert EntryOk(es[i]);
    UsedBound(|es[i].name|);
    OffMonotone(es, i + 1, |es|);
  }

  lemma {:induction false} UsedBound(n: nat)
    ensures FIXED + n <= Used(n) < FIXED + n + 4 && Used(n) % 4 == 0
  {
  }

  // ----- scanning what deletions left -----

  function GhostOf(e: Entry): Ghost {
    Ghost(e.ino, e.name)
  }

  /** The deleted entries among [i, j), by address. */
  function Deleted(es: seq<Entry>, fs: Fates, i: nat, j: nat): seq<Ghost>
    requires i <= j <= |es| == |fs|
    decreases j - i
  {
    if i == j then [] else (if fs[i].Gone? then [GhostOf(es[i])] else []) + Deleted(es, fs, i + 1, j)
  }

  /** The deleted entries met from `i` to `j` by following their length fields. */
  function Walked(es: seq<Entry>, fs: Fates, i: nat, j: nat): seq<Ghost>
    requires i <= |es| == |fs| && j <= |es|
    decreases |es| - i
  {
    if i >= j then []
    else [GhostOf(es[i])] + if i < Target(fs, i) <= |es| then Walked(es, fs, Target(fs, i), j) else []
  }

  /** What is met behind the live entry `i` and behind those after it. */
  function Found(es: seq<Entry>, fs: Fates, i: nat): seq<Ghost>
    requires i <= |es| == |fs|
    decreases |es| - i
  {
    if i == |es| then []
    else Walked(es, fs, i + 1, NextLive(fs, i + 1)) + Found(es, fs, NextLive(fs, i + 1))
  }

  /** Zero words are stepped over. */
  lemma {:induction false} SlackSkipped(b: seq<byte>, goff: nat, next: nat, end: nat, maxIno: nat, bs: nat)
    requires goff <= next && (next - goff) % 4 == 0 && next <= end <= |b|
    requires forall k | goff <= k < next :: b[k] == 0
    ensures GapScan(b, goff, end, maxIno, bs) == GapScan(b, next, end, maxIno, bs)
    decreases next - goff
  {
    if goff < next && goff + FIXED <= end {
      assert InoAt(b, goff) == 0;
      SlackSkipped(b, goff + 4, next, end, maxIno, bs);
    }
  }

  lemma {:induction false} TargetBounds(fs: Fates, i: nat)
    requires i < |fs| && FatesOk(fs)
    ensures i < Target(fs, i) <= |fs| && AllGone(fs, i + 1, Target(fs, i))
  {
  }

  /** A length field spans at least its own entry and is aligned. */
  lemma {:induction false} FieldSpans(b: seq<byte>, bs: nat, es: seq<Entry>, fs: Fates, i: nat)
    requires Laid(b, bs, es, fs) && i < |es|
    ensures i < Target(fs, i) <= |es| && Off(es, i + 1) <= Off(es, Target(fs, i)) <= bs
    ensures (Off(es, Target(fs, i)) - Off(es, i)) % 4 == 0
  {
    var t := Target(fs, i);
    TargetBounds(fs, i);
    OffMonotone(es, i, i + 1);
    OffMonotone(es, i + 1, t);
    OffMonotone(es, t, |es|);
    OffAligned(es, i);
    OffAligned(es, t);
    Difference(Off(es, t), Off(es, i));
  }

  lemma {:induction false} Difference(a: nat, b: nat)
    requires a % 4 == 0 && b % 4 == 0 && b <= a
    ensures (a - b) % 4 == 0
  {
  }

  /** A length field leads to where its target stands. */
  lemma {:induction false} FieldReads(b: seq<byte>, bs: nat, es: seq<Entry>, fs: Fates, i: nat)
    requires Laid(b, bs, es, fs) && i < |es|
    ensures Off(es, i) + FIXED <= bs && Off(es, i) + RecLenAt(b, Off(es, i)) == Off(es, Target(fs, i))
    ensures Off(es, i) < Off(es, i + 1) <= Off(es, Target(fs, i)) <= bs
  {
    assert Stands(b, es, fs, i);
    EntrySize(b, bs, es, fs, i);
    FieldSpans(b, bs, es, fs, i);
  }

  /** What stands at an entry that may be removed looks valid to the scan. */
  lemma {:induction false} StandsValid(b: seq<byte>, bs: nat, es: seq<Entry>, fs: Fates, i: nat, end: nat, maxIno: nat)
    requires Laid(b, bs, es, fs) && i < |es| && Removable(es[i], maxIno)
    requires Target(fs, i) <= |es| && Off(es, Target(fs, i)) <= end <= bs
    ensures LooksValid(b, Off(es, i), end, maxIno, bs) && GhostAt(b, Off(es, i)) == GhostOf(es[i])
  {
    assert Stands(b, es, fs, i);
    EntrySize(b, bs, es, fs, i);
    FieldReads(b, bs, es, fs, i);
    FieldSpans(b, bs, es, fs, i);
    ReadsValid(b, Off(es, i), es[i], end, maxIno, bs);
  }

  lemma {:induction false} ReadsValid(b: seq<byte>, p: nat, e: Entry, end: nat, maxIno: nat, bs: nat)
    requires p + e.recLen <= |b| && end <= |b| && FIXED + |e.name| <= e.recLen && Removable(e, maxIno)
    requires InoAt(b, p) == e.ino && NameLenAt(b, p) == |e.name| && b[p + FIXED..p + FIXED + |e.name|] == e.name
    requires e.recLen <= RecLenAt(b, p) <= bs && RecLenAt(b, p) % 4 == 0 && p + RecLenAt(b, p) <= end
    ensures LooksValid(b, p, end, maxIno, bs) && GhostAt(b, p) == GhostOf(e)
  {
  }

  /** A deleted entry is read as it was, and the scan goes on where its length field leads. */
  lemma {:induction false} DeletedRead(b: seq<byte>, bs: nat, es: seq<Entry>, fs: Fates, i: nat, end: nat, maxIno: nat)
    requires Laid(b, bs, es, fs) && i < |es| && Removable(es[i], maxIno)
    requires Target(fs, i) <= |es| && Off(es, Target(fs, i)) <= end <= bs
    ensures GapScan(b, Off(es, i), end, maxIno, bs) ==
            [GhostOf(es[i])] + GapScan(b, Off(es, Target(fs, i)), end, maxIno, bs)
  {
    FieldReads(b, bs, es, fs, i);
    StandsValid(b, bs, es, fs, i, end, maxIno);
  }

  /** A run of deleted entries is read by following the length fields. */
  lemma {:induction false} RunRead(b: seq<byte>, bs: nat, es: seq<Entry>, fs: Fates, i: nat, j: nat, maxIno: nat)
    requires Laid(b, bs, es, fs) && i <= j <= |es| && AllGone(fs, i, j) && (j < |es| ==> fs[j].Live?)
    requires GoneRemovable(es, fs, maxIno)
    ensures Off(es, j) <= bs && GapScan(b, Off(es, i), Off(es, j), maxIno, bs) == Walked(es, fs, i, j)
    decreases j - i
  {
    OffMonotone(es, j, |es|);
    if i < j {
      var t := Target(fs, i);
      TargetBounds(fs, i);
      assert t <= j;
      OffMonotone(es, t, j);
      DeletedRead(b, bs, es, fs, i, Off(es, j), maxIno);
      RunRead(b, bs, es, fs, t, j, maxIno);
    }
  }

  lemma {:induction false} Aligned(p: nat, used: nat, rec: nat)
    requires used % 4 == 0 && rec % 4 == 0 && used <= rec
    ensures (p + rec - (p + used)) % 4 == 0
  {
  }

  /** The scan of a live entry's gap gets past the entry's own slack. */
  lemma {:induction false} LiveSkipped(b: seq<byte>, bs: nat, es: seq<Entry>, fs: Fates, i: nat, end: nat, maxIno: nat)
    requires Laid(b, bs, es, fs) && i < |es| && Off(es, i + 1) <= end <= bs && Off(es, i) + FIXED <= |b|
    ensures Gap(b, Off(es, i), end, bs, maxIno) == GapScan(b, Off(es, i + 1), end, maxIno, bs)
  {
    assert Stands(b, es, fs, i) && Slack(b, es, i) && EntryOk(es[i]);
    PaddingSkipped(b, Off(es, i), Used(|es[i].name|), es[i].recLen, end, maxIno, bs, |es[i].name|);
  }

  lemma {:induction false} PaddingSkipped(b: seq<byte>, p: nat, used: nat, rec: nat, end: nat, maxIno: nat, bs: nat,
                                          n: nat)
    requires used == Used(n) <= rec && rec % 4 == 0 && p + rec <= end <= |b|
    requires forall k | p + used <= k < p + rec :: b[k] == 0
    ensures GapScan(b, p + used, end, maxIno, bs) == GapScan(b, p + rec, end, maxIno, bs)
  {
    UsedBound(n);
    Aligned(p, used, rec);
    SlackSkipped(b, p + used, p + rec, end, maxIno, bs);
  }

  /** What a live entry absorbed. */
  lemma {:induction false} GapRead(b: seq<byte>, bs: nat, es: seq<Entry>, fs: Fates, i: nat, j: nat, maxIno: nat)
    requires Laid(b, bs, es, fs) && i < |es| && fs[i].Live? && GoneRemovable(es, fs, maxIno) && j == NextLive(fs, i + 1)
    requires Off(es, i) + FIXED <= bs && Off(es, i + 1) <= Off(es, j) <= bs
    ensures Gap(b, Off(es, i), Off(es, j), bs, maxIno) == Walked(es, fs, i + 1, j)
  {
    LiveSkipped(b, bs, es, fs, i, Off(es, j), maxIno);
    RunRead(b, bs, es, fs, i + 1, j, maxIno);
  }

  /** On any block that deletions left, the scan finds what the length fields lead to. */
  lemma {:induction false} ScanFinds(b: seq<byte>, bs: nat, es: seq<Entry>, fs: Fates, i: nat, maxIno: nat)
    requires Laid(b, bs, es, fs) && i <= |es| && (i < |es| ==> fs[i].Live?) && GoneRemovable(es, fs, maxIno)
    ensures Rest(b, Off(es, i), bs, maxIno) == Found(es, fs, i)
    decreases |es| - i
  {
    if i < |es| {
      var j := NextLive(fs, i + 1);
      FieldReads(b, bs, es, fs, i);
      GapRead(b, bs, es, fs, i, j, maxIno);
      ScanFinds(b, bs, es, fs, j, maxIno);
      ScanStep(b, Off(es, i), Off(es, j), bs, maxIno);
    }
  }

  // ----- when nothing is missed -----

  /** Every deleted entry's length field still ends where the entry ends. */
  ghost predicate Tight(fs: Fates, i: nat, j: nat) {
    forall k | i <= k < j && k < |fs| && fs[k].Gone? :: fs[k].end == k + 1
  }

  lemma {:induction false} DeletedSplit(es: seq<Entry>, fs: Fates, i: nat, j: nat, n: nat)
    requires i <= j <= n <= |es| == |fs|
    ensures Deleted(es, fs, i, j) + Deleted(es, fs, j, n) == Deleted(es, fs, i, n)
    decreases j - i
  {
    if i < j { DeletedSplit(es, fs, i + 1, j, n); }
  }

  lemma {:induction false} RunDeleted(es: seq<Entry>, fs: Fates, i: nat, j: nat)
    requires i <= j <= |es| == |fs| && AllGone(fs, i, j)
    ensures |Deleted(es, fs, i, j)| == j - i
    decreases j - i
  {
    if i < j { RunDeleted(es, fs, i + 1, j); }
  }

  /** Following the length fields through a run meets every entry only if all are tight. */
  lemma {:induction false} WalkedAll(es: seq<Entry>, fs: Fates, i: nat, j: nat)
    requires i <= j <= |es| == |fs| && FatesOk(fs) && AllGone(fs, i, j) && (j < |es| ==> fs[j].Live?)
    ensures |Walked(es, fs, i, j)| <= j - i
    ensures |Walked(es, fs, i, j)| == j - i ==> Tight(fs, i, j)
    decreases j - i
  {
    if i < j {
      var t := Target(fs, i);
      TargetBounds(fs, i);
      assert t <= j;
      WalkedAll(es, fs, t, j);
      TightRun(fs, i, j, t);
      WalkedStep(es, fs, i, j, t);
    }
  }

  lemma {:induction false} TightWalksAll(es: seq<Entry>, fs: Fates, i: nat, j: nat)
    requires i <= j <= |es| == |fs| && AllGone(fs, i, j) && Tight(fs, i, j)
    ensures Walked(es, fs, i, j) == Deleted(es, fs, i, j)
    decreases j - i
  {
    if i < j {
      WalkedStep(es, fs, i, j, i + 1);
      TightWalksAll(es, fs, i + 1, j);
    }
  }

  lemma {:induction false} WalkedStep(es: seq<Entry>, fs: Fates, i: nat, j: nat, t: nat)
    requires i < t <= j <= |es| == |fs| && t == Target(fs, i) && fs[i].Gone?
    ensures Walked(es, fs, i, j) == [GhostOf(es[i])] + Walked(es, fs, t, j)
    ensures Deleted(es, fs, i, j) == [GhostOf(es[i])] + Deleted(es, fs, i + 1, j)
  {
  }

  lemma {:induction false} TightRun(fs: Fates, i: nat, j: nat, t: nat)
    requires i < t <= j <= |fs| && fs[i] == Gone(t)
    ensures Tight(fs, i, j) <==> t == i + 1 && Tight(fs, t, j)
  {
  }

  function FoundCount(es: seq<Entry>, fs: Fates, i: nat): nat
    requires i <= |es| == |fs|
  {
    |Found(es, fs, i)|
  }

  function DeletedCount(es: seq<Entry>, fs: Fates, i: nat): nat
    requires i <= |es| == |fs|
  {
    |Deleted(es, fs, i, |es|)|
  }

  /** No more is found than was deleted. */
  lemma {:induction false} FoundAtMost(es: seq<Entry>, fs: Fates, i: nat)
    requires i <= |es| == |fs| && FatesOk(fs) && (i < |es| ==> fs[i].Live?)
    ensures FoundCount(es, fs, i) <= DeletedCount(es, fs, i)
    decreases |es| - i
  {
    if i < |es| {
      var j := NextLive(fs, i + 1);
      WalkedAll(es, fs, i + 1, j);
      LengthsBehind(es, fs, i, j);
      FoundAtMost(es, fs, j);
    }
  }

  /** All of it is found only when every length field is tight. */
  lemma {:induction false} FoundAll(es: seq<Entry>, fs: Fates, i: nat)
    requires i <= |es| == |fs| && FatesOk(fs) && (i < |es| ==> fs[i].Live?)
    requires FoundCount(es, fs, i) == DeletedCount(es, fs, i)
    ensures Tight(fs, i, |fs|)
    decreases |es| - i
  {
    if i < |es| {
      var j := NextLive(fs, i + 1);
      AllBehind(es, fs, i, j);
      FoundAll(es, fs, j);
      TightSplit(fs, i, j);
    }
  }

  /** If all is found, the first run is tight and all of the rest is found. */
  lemma {:induction false} AllBehind(es: seq<Entry>, fs: Fates, i: nat, j: nat)
    requires i < |es| == |fs| && FatesOk(fs) && fs[i].Live? && j == NextLive(fs, i + 1)
    requires FoundCount(es, fs, i) == DeletedCount(es, fs, i)
    ensures Tight(fs, i + 1, j) && FoundCount(es, fs, j) == DeletedCount(es, fs, j)
  {
    WalkedAll(es, fs, i + 1, j);
    LengthsBehind(es, fs, i, j);
    FoundAtMost(es, fs, j);
  }

  lemma {:induction false} LengthsBehind(es: seq<Entry>, fs: Fates, i: nat, j: nat)
    requires i < |es| == |fs| && fs[i].Live? && j == NextLive(fs, i + 1)
    ensures FoundCount(es, fs, i) == |Walked(es, fs, i + 1, j)| + FoundCount(es, fs, j)
    ensures DeletedCount(es, fs, i) == j - (i + 1) + DeletedCount(es, fs, j)
  {
    DeletedBehind(es, fs, i, j);
  }

  lemma {:induction false} TightFindsAll(es: seq<Entry>, fs: Fates, i: nat)
    requires i <= |es| == |fs| && FatesOk(fs) && (i < |es| ==> fs[i].Live?) && Tight(fs, i, |fs|)
    ensures Found(es, fs, i) == Deleted(es, fs, i, |es|)
    decreases |es| - i
  {
    if i < |es| {
      var j := NextLive(fs, i + 1);
      TightSplit(fs, i, j);
      TightWalksAll(es, fs, i + 1, j);
      TightFindsAll(es, fs, j);
      DeletedBehind(es, fs, i, j);
    }
  }

  lemma {:induction false} DeletedBehind(es: seq<Entry>, fs: Fates, i: nat, j: nat)
    requires i < |es| == |fs| && fs[i].Live? && j == NextLive(fs, i + 1)
    ensures Deleted(es, fs, i, |es|) == Deleted(es, fs, i + 1, j) + Deleted(es, fs, j, |es|)
    ensures |Deleted(es, fs, i + 1, j)| == j - (i + 1)
  {
    DeletedSplit(es, fs, i + 1, j, |es|);
    RunDeleted(es, fs, i + 1, j);
    assert [] + Deleted(es, fs, i + 1, |es|) == Deleted(es, fs, i + 1, |es|);
  }

  lemma {:induction false} TightSplit(fs: Fates, i: nat, j: nat)
    requires i < |fs| && fs[i].Live? && i < j <= |fs|
    ensures Tight(fs, i, |fs|) <==> Tight(fs, i + 1, j) && Tight(fs, j, |fs|)
  {
  }

  /** The scan finds all deleted entries, by address, exactly when every length field is tight. */
  lemma {:induction false} ScanFindsAll(b: seq<byte>, bs: nat, es: seq<Entry>, fs: Fates, maxIno: nat)
    requires Laid(b, bs, es, fs) && GoneRemovable(es, fs, maxIno) && (es != [] ==> fs[0].Live?)
    ensures Scan(b, 0, bs, maxIno) == Deleted(es, fs, 0, |es|) <==> Tight(fs, 0, |fs|)
  {
    ScanFinds(b, bs, es, fs, 0, maxIno);
    if FoundCount(es, fs, 0) == DeletedCount(es, fs, 0) { FoundAll(es, fs, 0); }
    if Tight(fs, 0, |fs|) { TightFindsAll(es, fs, 0); }
  }

  // ----- deleting -----

  function SetLe16(b: seq<byte>, p: nat, v: nat): seq<byte>
    requires p + 2 <= |b| && v < 0x1_0000
  {
    b[p := v % 0x100][p + 1 := v / 0x100]
  }

  lemma {:induction false} SetLe16Reads(b: seq<byte>, p: nat, v: nat)
    requires p + 2 <= |b| && v < 0x1_0000
    ensures Le16(SetLe16(b, p, v), p) == v && |SetLe16(b, p, v)| == |b|
    ensures forall k | 0 <= k < |b| && k != p && k != p + 1 :: SetLe16(b, p, v)[k] == b[k]
  {
  }

  /** The entry before the one at `t` on the chain of length fields that starts at `p`. */
  function Predecessor(b: seq<byte>, p: nat, t: nat): (q: nat)
    requires p < t && t + FIXED <= |b|
    ensures p <= q < t
    decreases t - p
  {
    var next := p + RecLenAt(b, p);
    if next == p || next >= t then p else Predecessor(b, next, t)
  }

  /** Delete the entry at `t`: the length field of the entry before it takes over its length; nothing else is
      touched. */
  function Unlink(b: seq<byte>, t: nat): (c: seq<byte>)
    requires 0 < t && t + FIXED <= |b|
    ensures |c| == |b|
  {
    var p := Predecessor(b, 0, t);
    var v := RecLenAt(b, p) + RecLenAt(b, t);
    if v < 0x1_0000 then SetLe16(b, p + 4, v) else b
  }

  /** Delete the entries at these offsets one after the other. */
  function UnlinkAll(b: seq<byte>, ts: seq<nat>): (c: seq<byte>)
    requires forall i | 0 <= i < |ts| :: 0 < ts[i] && ts[i] + FIXED <= |b|
    ensures |c| == |b|
  {
    if ts == [] then b else Unlink(UnlinkAll(b, ts[..|ts| - 1]), ts[|ts| - 1])
  }

  /** What a deletion makes of the fates: the entry keeps the length field it has. */
  function Delete(fs: Fates, k: nat): Fates
    requires k < |fs|
  {
    fs[k := Gone(NextLive(fs, k + 1))]
  }

  lemma {:induction false} DeleteKeepsOk(fs: Fates, k: nat)
    requires k < |fs| && FatesOk(fs) && fs[k].Live?
    ensures FatesOk(Delete(fs, k))
  {
    var gs := Delete(fs, k);
    forall i | 0 <= i < |gs| && gs[i].Gone? ensures i < gs[i].end <= |gs| && AllGone(gs, i + 1, gs[i].end) {
      if i != k { assert AllGone(fs, i + 1, fs[i].end); }
    }
  }

  /** Only the live predecessor's length field changes its target, to that of the deleted entry. */
  lemma {:induction false} TargetChange(fs: Fates, k: nat, i: nat)
    requires 0 < k < |fs| && FatesOk(fs) && fs[0].Live? && fs[k].Live? && i < |fs|
    ensures Target(Delete(fs, k), i) == if i == PrevLive(fs, k) then Target(fs, k) else Target(fs, i)
    ensures Target(fs, PrevLive(fs, k)) == k
  {
    var p, gs := PrevLive(fs, k), Delete(fs, k);
    NextLiveUnique(fs, p + 1, k);
    if i == p {
      NextLiveUnique(gs, p + 1, NextLive(fs, k + 1));
    } else if fs[i].Live? && i != k {
      NextLiveUnique(gs, i + 1, NextLive(fs, i + 1));
    }
  }

  /** The chain of length fields leads to the live entry before `k`. */
  lemma {:induction false} PredecessorIsPrevLive(b: seq<byte>, bs: nat, es: seq<Entry>, fs: Fates, i: nat, k: nat)
    requires Laid(b, bs, es, fs) && i < k < |es| && fs[0].Live? && fs[i].Live? && fs[k].Live?
    ensures Off(es, i) < Off(es, k) && Off(es, k) + FIXED <= |b|
    ensures Predecessor(b, Off(es, i), Off(es, k)) == Off(es, PrevLive(fs, k))
    decreases k - i
  {
    var j := NextLive(fs, i + 1);
    if j < k {
      PredecessorIsPrevLive(b, bs, es, fs, j, k);
      NextLink(b, bs, es, fs, i, j, k);
    } else {
      LastLink(b, bs, es, fs, i, k);
    }
  }

  lemma {:induction false} NextLink(b: seq<byte>, bs: nat, es: seq<Entry>, fs: Fates, i: nat, j: nat, k: nat)
    requires Laid(b, bs, es, fs) && i < j < k < |es| && fs[i].Live? && NextLive(fs, i + 1) == j
    requires Off(es, j) < Off(es, k) && Off(es, k) + FIXED <= |b|
    ensures Off(es, i) < Off(es, k)
    ensures Predecessor(b, Off(es, i), Off(es, k)) == Predecessor(b, Off(es, j), Off(es, k))
  {
    FieldReads(b, bs, es, fs, i);
  }

  lemma {:induction false} LastLink(b: seq<byte>, bs: nat, es: seq<Entry>, fs: Fates, i: nat, k: nat)
    requires Laid(b, bs, es, fs) && i < k < |es| && fs[0].Live? && fs[i].Live? && NextLive(fs, i + 1) == k
    ensures Off(es, i) < Off(es, k) && Off(es, k) + FIXED <= |b|
    ensures Predecessor(b, Off(es, i), Off(es, k)) == Off(es, PrevLive(fs, k))
  {
    FieldReads(b, bs, es, fs, i);
    EntrySize(b, bs, es, fs, k);
    PrevLiveUnique(fs, k, i);
  }

  /** Bytes other than a length field at `q` are the same. */
  ghost predicate SameBut(b: seq<byte>, c: seq<byte>, q: nat) {
    |b| == |c| && forall j | 0 <= j < |b| && j != q + 4 && j != q + 5 :: c[j] == b[j]
  }

  /** What `Unlink` writes, and where. */
  lemma {:induction false} UnlinkWrites(b: seq<byte>, bs: nat, es: seq<Entry>, fs: Fates, k: nat, p: nat)
    requires Laid(b, bs, es, fs) && 0 < k < |es| && fs[0].Live? && fs[k].Live? && p == PrevLive(fs, k)
    ensures 0 < Off(es, k) && Off(es, k) + FIXED <= |b| && Off(es, p) + FIXED <= |b|
    ensures var c := Unlink(b, Off(es, k));
      SameBut(b, c, Off(es, p)) && Off(es, p) + RecLenAt(c, Off(es, p)) == Off(es, Target(fs, k))
  {
    PredecessorIsPrevLive(b, bs, es, fs, 0, k);
    FieldReads(b, bs, es, fs, p);
    FieldReads(b, bs, es, fs, k);
    TargetChange(fs, k, p);
    UnlinkSets(b, Off(es, k), Off(es, p), Off(es, Target(fs, k)));
  }

  lemma {:induction false} UnlinkSets(b: seq<byte>, t: nat, p: nat, end: nat)
    requires 0 < t && t + FIXED <= |b| && Predecessor(b, 0, t) == p && p + RecLenAt(b, p) == t
    requires t + RecLenAt(b, t) == end < 0x1_0000
    ensures SameBut(b, Unlink(b, t), p) && p + RecLenAt(Unlink(b, t), p) == end
  {
    SetLe16Reads(b, p + 4, end - p);
  }

  /** The entry whose length field changes keeps the rest. */
  lemma {:induction false} OwnerStands(b: seq<byte>, c: seq<byte>, es: seq<Entry>, fs: Fates, gs: Fates, p: nat)
    requires p < |es| == |fs| == |gs| && FatesOk(fs) && FatesOk(gs) && Stands(b, es, fs, p) && Slack(b, es, p)
    requires SameBut(b, c, Off(es, p)) && Off(es, p) + RecLenAt(c, Off(es, p)) == Off(es, Target(gs, p))
    ensures Stands(c, es, gs, p) && Slack(c, es, p)
  {
    var q, n := Off(es, p), |es[p].name|;
    assert c[q + FIXED..q + FIXED + n] == b[q + FIXED..q + FIXED + n];
    UsedBound(n);
  }

  /** Entries other than that keep everything. */
  lemma {:induction false} OtherStands(b: seq<byte>, c: seq<byte>, es: seq<Entry>, fs: Fates, gs: Fates, p: nat, i: nat)
    requires i < |es| == |fs| == |gs| && p < |es| && i != p && FatesOk(fs) && FatesOk(gs)
    requires SameBut(b, c, Off(es, p)) && Stands(b, es, fs, i) && Slack(b, es, i) && Target(gs, i) == Target(fs, i)
    requires es[p].recLen >= FIXED && es[i].recLen >= FIXED
    ensures Stands(c, es, gs, i) && Slack(c, es, i)
  {
    var q, e := Off(es, i), es[i];
    if i < p { OffMonotone(es, i + 1, p); } else { OffMonotone(es, p + 1, i); }
    assert forall k | q <= k < q + e.recLen :: c[k] == b[k];
    assert c[q + FIXED..q + FIXED + |e.name|] == b[q + FIXED..q + FIXED + |e.name|];
  }

  /** Deleting any live entry but the first keeps the block well laid out. */
  lemma {:induction false} UnlinkKeepsLaid(b: seq<byte>, bs: nat, es: seq<Entry>, fs: Fates, k: nat)
    requires Laid(b, bs, es, fs) && 0 < k < |es| && fs[0].Live? && fs[k].Live?
    ensures 0 < Off(es, k) && Off(es, k) + FIXED <= |b|
    ensures Laid(Unlink(b, Off(es, k)), bs, es, Delete(fs, k))
  {
    var p, gs := PrevLive(fs, k), Delete(fs, k);
    UnlinkWrites(b, bs, es, fs, k, p);
    DeleteKeepsOk(fs, k);
    var c := Unlink(b, Off(es, k));
    forall i | 0 <= i < |es|
      ensures Stands(c, es, gs, i) && Slack(c, es, i)
    {
      assert Stands(b, es, fs, i) && Slack(b, es, i);
      TargetChange(fs, k, i);
      if i == p {
        OwnerStands(b, c, es, fs, gs, p);
      } else {
        EntrySize(b, bs, es, fs, i);
        EntrySize(b, bs, es, fs, p);
        OtherStands(b, c, es, fs, gs, p, i);
      }
    }
  }

  // ----- whole histories of deletions -----

  /** Distinct entries other than the first, in any order. */
  ghost predicate History(ks: seq<nat>, n: nat) {
    (forall i | 0 <= i < |ks| :: 0 < ks[i] < n) && (forall i, j | 0 <= i < j < |ks| :: ks[i] != ks[j])
  }

  function AllLive(n: nat): Fates {
    seq(n, _ => Live)
  }

  function FatesAfter(n: nat, ks: seq<nat>): (fs: Fates)
    requires forall i | 0 <= i < |ks| :: ks[i] < n
    ensures |fs| == n && forall i | 0 <= i < n :: fs[i].Gone? <==> i in ks
  {
    if ks == [] then AllLive(n)
    else
      var m := |ks| - 1;
      assert ks == ks[..m] + [ks[m]];
      Delete(FatesAfter(n, ks[..m]), ks[m])
  }

  /** Each entry was deleted while its right neighbour was live, or there was none. */
  ghost predicate NeighbourLive(ks: seq<nat>, n: nat) {
    forall m | 0 <= m < |ks| :: RightLive(ks, n, m)
  }

  predicate RightLive(ks: seq<nat>, n: nat, m: nat)
    requires m < |ks|
  {
    ks[m] + 1 == n || ks[m] + 1 !in ks[..m]
  }

  lemma {:induction false} NeighbourSnoc(ks: seq<nat>, n: nat)
    requires ks != []
    ensures var m := |ks| - 1; NeighbourLive(ks, n) <==> NeighbourLive(ks[..m], n) && RightLive(ks, n, m)
  {
    var m := |ks| - 1;
    forall i | 0 <= i < m ensures RightLive(ks[..m], n, i) == RightLive(ks, n, i) {
      assert ks[..m][..i] == ks[..i];
    }
  }

  /** Length fields are tight exactly after such histories. */
  lemma {:induction false} TightIfNeighbourLive(n: nat, ks: seq<nat>)
    requires History(ks, n)
    ensures Tight(FatesAfter(n, ks), 0, n) <==> NeighbourLive(ks, n)
    decreases |ks|
  {
    if ks != [] {
      var m := |ks| - 1;
      TightIfNeighbourLive(n, ks[..m]);
      NeighbourSnoc(ks, n);
      LastDeletion(n, ks);
      TightStep(FatesAfter(n, ks[..m]), ks[m], n);
    }
  }

  lemma {:induction false} LastDeletion(n: nat, ks: seq<nat>)
    requires History(ks, n) && ks != []
    ensures var m := |ks| - 1; var fs, k := FatesAfter(n, ks[..m]), ks[m];
      && History(ks[..m], n) && FatesAfter(n, ks) == Delete(fs, k) && fs[k].Live?
      && (RightLive(ks, n, m) <==> k + 1 == n || fs[k + 1].Live?)
  {
  }

  lemma {:induction false} TightStep(fs: Fates, k: nat, n: nat)
    requires k < |fs| == n && fs[k].Live?
    ensures Tight(Delete(fs, k), 0, n) <==> Tight(fs, 0, n) && (k + 1 == n || fs[k + 1].Live?)
  {
    var gs := Delete(fs, k);
    assert forall i | 0 <= i < n && i != k :: gs[i] == fs[i];
    assert gs[k].end == k + 1 <==> k + 1 == n || fs[k + 1].Live?;
  }

  function Offsets(es: seq<Entry>, ks: seq<nat>): (ts: seq<nat>)
    requires forall i | 0 <= i < |ks| :: ks[i] < |es|
    ensures |ts| == |ks| && forall i | 0 <= i < |ks| :: ts[i] == Off(es, ks[i])
  {
    seq(|ks|, i requires 0 <= i < |ks| => Off(es, ks[i]))
  }

  lemma {:induction false} OffsetsInBlock(b: seq<byte>, bs: nat, es: seq<Entry>, ks: seq<nat>)
    requires Laid(b, bs, es, AllLive(|es|)) && History(ks, |es|)
    ensures forall i | 0 <= i < |ks| :: 0 < Off(es, ks[i]) && Off(es, ks[i]) + FIXED <= |b|
  {
    forall i | 0 <= i < |ks| ensures 0 < Off(es, ks[i]) && Off(es, ks[i]) + FIXED <= |b| {
      EntrySize(b, bs, es, AllLive(|es|), ks[i]);
      EntrySize(b, bs, es, AllLive(|es|), 0);
      OffMonotone(es, 1, ks[i]);
    }
  }

  ghost predicate InBlock(b: seq<byte>, es: seq<Entry>, ks: seq<nat>) {
    forall i | 0 <= i < |ks| :: ks[i] < |es| && 0 < Off(es, ks[i]) && Off(es, ks[i]) + FIXED <= |b|
  }

  /** The block after the deletions `ks`. */
  ghost function BlockAfter(b: seq<byte>, es: seq<Entry>, ks: seq<nat>): (c: seq<byte>)
    requires InBlock(b, es, ks)
    ensures |c| == |b|
  {
    UnlinkAll(b, Offsets(es, ks))
  }

  lemma {:induction false} BlockAfterLast(b: seq<byte>, es: seq<Entry>, ks: seq<nat>, m: nat)
    requires InBlock(b, es, ks) && |ks| == m + 1
    ensures InBlock(b, es, ks[..m])
    ensures BlockAfter(b, es, ks) == Unlink(BlockAfter(b, es, ks[..m]), Off(es, ks[m]))
  {
    assert Offsets(es, ks)[..m] == Offsets(es, ks[..m]);
  }

  lemma {:induction false} FatesAfterLast(n: nat, ks: seq<nat>, m: nat)
    requires History(ks, n) && |ks| == m + 1
    ensures History(ks[..m], n) && ks[m] < n && var fs := FatesAfter(n, ks[..m]);
      fs[0].Live? && fs[ks[m]].Live? && FatesAfter(n, ks) == Delete(fs, ks[m])
  {
    LastDeletion(n, ks);
  }

  lemma {:induction false} UnlinkStep(c0: seq<byte>, c: seq<byte>, bs: nat, es: seq<Entry>, fs0: Fates, fs: Fates,
                                      k: nat)
    requires Laid(c0, bs, es, fs0) && 0 < k < |es| && fs0[0].Live? && fs0[k].Live?
    requires 0 < Off(es, k) && Off(es, k) + FIXED <= |c0| && c == Unlink(c0, Off(es, k)) && fs == Delete(fs0, k)
    ensures Laid(c, bs, es, fs)
  {
    UnlinkKeepsLaid(c0, bs, es, fs0, k);
  }

  lemma {:induction false} BlockAfterLaid(b: seq<byte>, bs: nat, es: seq<Entry>, ks: seq<nat>)
    requires Laid(b, bs, es, AllLive(|es|)) && History(ks, |es|) && InBlock(b, es, ks)
    ensures Laid(BlockAfter(b, es, ks), bs, es, FatesAfter(|es|, ks))
    decreases |ks|
  {
    if ks != [] {
      var m := |ks| - 1;
      BlockAfterLast(b, es, ks, m);
      FatesAfterLast(|es|, ks, m);
      BlockAfterLaid(b, bs, es, ks[..m]);
      UnlinkStep(BlockAfter(b, es, ks[..m]), BlockAfter(b, es, ks), bs, es,
                 FatesAfter(|es|, ks[..m]), FatesAfter(|es|, ks), ks[m]);
    }
  }

  /** Whatever the order, deletions leave a well laid out block. */
  lemma {:induction false} UnlinkAllKeepsLaid(b: seq<byte>, bs: nat, es: seq<Entry>, ks: seq<nat>)
    requires Laid(b, bs, es, AllLive(|es|)) && History(ks, |es|)
    ensures forall i | 0 <= i < |ks| :: 0 < Off(es, ks[i]) && Off(es, ks[i]) + FIXED <= |b|
    ensures Laid(UnlinkAll(b, Offsets(es, ks)), bs, es, FatesAfter(|es|, ks))
  {
    OffsetsInBlock(b, bs, es, ks);
    BlockAfterLaid(b, bs, es, ks);
  }

  /** Of a directory block with zeroed slack, from which entries other than the first were deleted in any order, the
      scan reports exactly the deleted entries, by address, each with its inode and name, if and only if each was
      deleted while its right neighbour was live or it was the last. */
  lemma {:induction false} ScanUndoesDeletion(b: seq<byte>, bs: nat, es: seq<Entry>, ks: seq<nat>, maxIno: nat)
    requires Laid(b, bs, es, AllLive(|es|)) && History(ks, |es|)
    requires forall i | 0 <= i < |ks| :: Removable(es[ks[i]], maxIno)
    ensures forall i | 0 <= i < |ks| :: 0 < Off(es, ks[i]) && Off(es, ks[i]) + FIXED <= |b|
    ensures Scan(UnlinkAll(b, Offsets(es, ks)), 0, bs, maxIno) == Deleted(es, FatesAfter(|es|, ks), 0, |es|) <==>
            NeighbourLive(ks, |es|)
  {
    UnlinkAllKeepsLaid(b, bs, es, ks);
    ScanFindsAll(UnlinkAll(b, Offsets(es, ks)), bs, es, FatesAfter(|es|, ks), maxIno);
    TightIfNeighbourLive(|es|, ks);
  }

  /** In particular after deletions in ascending order. */
  lemma {:induction false} AscendingIsUndone(b: seq<byte>, bs: nat, es: seq<Entry>, ks: seq<nat>, maxIno: nat)
    requires Laid(b, bs, es, AllLive(|es|)) && History(ks, |es|)
    requires forall i, j | 0 <= i < j < |ks| :: ks[i] < ks[j]
    requires forall i | 0 <= i < |ks| :: Removable(es[ks[i]], maxIno)
    ensures forall i | 0 <= i < |ks| :: 0 < Off(es, ks[i]) && Off(es, ks[i]) + FIXED <= |b|
    ensures Scan(UnlinkAll(b, Offsets(es, ks)), 0, bs, maxIno) == Deleted(es, FatesAfter(|es|, ks), 0, |es|)
  {
    assert NeighbourLive(ks, |es|);
    ScanUndoesDeletion(b, bs, es, ks, maxIno);
  }

  /** Deleting an entry and then the one before it loses the first: its neighbour's length field hides it. */
  lemma {:induction false} NeighbourIsHidden(b: seq<byte>, bs: nat, es: seq<Entry>, k: nat, maxIno: nat)
    requires Laid(b, bs, es, AllLive(|es|)) && 0 < k && k + 1 < |es|
    requires Removable(es[k], maxIno) && Removable(es[k + 1], maxIno)
    ensures var ks := [k + 1, k];
      && (forall i | 0 <= i < |ks| :: 0 < Off(es, ks[i]) && Off(es, ks[i]) + FIXED <= |b|)
      && Scan(UnlinkAll(b, Offsets(es, ks)), 0, bs, maxIno) == [GhostOf(es[k])]
  {
    var ks := [k + 1, k];
    UnlinkAllKeepsLaid(b, bs, es, ks);
    TwoFates(|es|, k);
    ScanFinds(UnlinkAll(b, Offsets(es, ks)), bs, es, FatesAfter(|es|, ks), 0, maxIno);
    FoundOne(es, FatesAfter(|es|, ks), 0, k);
  }

  lemma {:induction false} TwoFates(n: nat, k: nat)
    requires k + 1 < n
    ensures var fs := FatesAfter(n, [k + 1, k]);
      && fs[k] == Gone(k + 2) && fs[k + 1].Gone?
      && forall j | 0 <= j < n && j != k && j != k + 1 :: fs[j].Live?
  {
    var one := FatesAfter(n, [k + 1]);
    assert [k + 1, k][..1] == [k + 1];
    NextLiveUnique(one, k + 1, k + 2);
  }

  lemma {:induction false} FoundOne(es: seq<Entry>, fs: Fates, i: nat, k: nat)
    requires i <= |es| == |fs| && k + 1 < |es| && fs[k] == Gone(k + 2) && fs[k + 1].Gone? && i != k && i != k + 1
    requires forall j | 0 <= j < |fs| && j != k && j != k + 1 :: fs[j].Live?
    ensures Found(es, fs, i) == if i < k then [GhostOf(es[k])] else []
    decreases |es| - i
  {
    if i < |es| {
      var j := if i + 1 == k then k + 2 else i + 1;
      NextLiveUnique(fs, i + 1, j);
      FoundNext(es, fs, i, j);
      FoundOne(es, fs, j, k);
      if i + 1 == k { WalkedOne(es, fs, k); }
    }
  }

  lemma {:induction false} FoundNext(es: seq<Entry>, fs: Fates, i: nat, j: nat)
    requires i < |es| == |fs| && NextLive(fs, i + 1) == j
    ensures Found(es, fs, i) == Walked(es, fs, i + 1, j) + Found(es, fs, j)
    ensures j == i + 1 ==> Walked(es, fs, i + 1, j) == []
  {
  }

  lemma {:induction false} WalkedOne(es: seq<Entry>, fs: Fates, k: nat)
    requires k + 1 < |es| == |fs| && fs[k] == Gone(k + 2)
    ensures Walked(es, fs, k, k + 2) == [GhostOf(es[k])]
  {
    assert Walked(es, fs, k + 2, k + 2) == [];
  }

  // ----- a block for which this happens -----

  /** Three entries of twelve bytes, "a", "b" and "c". */
  const ENTRIES: seq<Entry> := [Entry(11, [0x61], 12), Entry(12, [0x62], 12), Entry(13, [0x63], 12)]

  function Line(ino: byte, letter: byte): seq<byte> {
    [ino, 0, 0, 0, 12, 0, 1, 1, letter, 0, 0, 0]
  }

  function Example(): (b: seq<byte>)
    ensures |b| == 42
  {
    Line(11, 0x61) + Line(12, 0x62) + Line(13, 0x63) + [0, 0, 0, 0, 0, 0]
  }

  lemma {:induction false} ExampleEntry(i: nat)
    requires i < 3
    ensures Off(ENTRIES, i) == 12 * i && Target(AllLive(3), i) == i + 1 && FatesOk(AllLive(3))
    ensures Example()[12 * i..12 * i + 12] == Line(11 + i, 0x61 + i) && ENTRIES[i] == Entry(11 + i, [0x61 + i], 12)
  {
    assert Off(ENTRIES, 0) == 0 && Off(ENTRIES, 1) == 12 && Off(ENTRIES, 2) == 24;
  }

  lemma {:induction false} ExampleStands(i: nat)
    requires i < 3
    ensures FatesOk(AllLive(3)) && Stands(Example(), ENTRIES, AllLive(3), i) && Slack(Example(), ENTRIES, i)
  {
    ExampleEntry(i);
    assert Off(ENTRIES, i + 1) == 12 * i + 12;
    LineStands(Example(), ENTRIES, AllLive(3), i, 12 * i, 11 + i, 0x61 + i);
  }

  lemma {:induction false} LineStands(b: seq<byte>, es: seq<Entry>, fs: Fates, i: nat, p: nat, ino: byte, letter: byte)
    requires i < |es| == |fs| && FatesOk(fs) && Off(es, i) == p && es[i] == Entry(ino, [letter], 12)
    requires p + 12 <= |b| && b[p..p + 12] == Line(ino, letter) && Off(es, Target(fs, i)) == p + 12
    ensures Stands(b, es, fs, i) && Slack(b, es, i)
  {
    var line := b[p..p + 12];
    assert line[0] == b[p] && line[1] == b[p + 1] && line[2] == b[p + 2] && line[3] == b[p + 3];
    assert line[4] == b[p + 4] && line[5] == b[p + 5] && line[6] == b[p + 6] && line[8] == b[p + 8];
    assert line[9] == b[p + 9] && line[10] == b[p + 10] && line[11] == b[p + 11];
    assert b[p + FIXED..p + FIXED + 1] == [letter];
  }

  /** There are such blocks; in this one deleting "c" and then "b" leaves only "b" to be found. */
  lemma {:induction false} ExampleLosesOne()
    ensures Laid(Example(), 36, ENTRIES, AllLive(3)) && Off(ENTRIES, 1) == 12 && Off(ENTRIES, 2) == 24
    ensures Scan(UnlinkAll(Example(), [24, 12]), 0, 36, 100) == [Ghost(12, [0x62])]
  {
    forall i | 0 <= i < 3 ensures Stands(Example(), ENTRIES, AllLive(3), i) && Slack(Example(), ENTRIES, i) {
      ExampleStands(i);
    }
    ExampleEntry(2);
    assert Off(ENTRIES, 3) == 36;
    NeighbourIsHidden(Example(), 36, ENTRIES, 1, 100);
    assert Offsets(ENTRIES, [2, 1]) == [24, 12];
  }
}
