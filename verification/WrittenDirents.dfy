/** Directory blocks given by their bytes (improved/ghost_dirent.c:27-97): what ext4 writes, what the scan gives back of
    it after deletions, and what it takes for a ghost in any block. */
module WrittenDirents {
  import opened Bytes
  import opened GhostDirents
  import opened DirentDeletion

  // ----- what ext4 writes -----

  predicate Storable(e: Entry) {
    e.ino < 0x1_0000_0000 && e.recLen < 0x1_0000 && e.recLen % 4 == 0 && |e.name| <= 255 && 8 + |e.name| <= e.recLen
  }

  /** Inode, length field, name length, file type, name. */
  function DirentBytes(e: Entry, fileType: byte): seq<byte>
    requires Storable(e)
  {
    PutLe32(e.ino) + (PutLe16(e.recLen) + ([|e.name|, fileType] + e.name))
  }

  /** Entry `e` stands at `p`, with zeros from the next multiple of four behind its name on. */
  ghost predicate WrittenEntry(b: seq<byte>, p: nat, e: Entry, fileType: byte) {
    && Storable(e) && p + e.recLen <= |b| && StandsAt(b, p, DirentBytes(e, fileType))
    && forall k | p + (8 + |e.name| + 3) / 4 * 4 <= k < p + e.recLen :: b[k] == 0
  }

  /** A block of `bs` bytes, less than 64 KB, filled with these entries; what lies in memory behind it may be
      anything. */
  ghost predicate WrittenBlock(b: seq<byte>, bs: nat, es: seq<Entry>, types: seq<byte>) {
    && |types| == |es| && Off(es, |es|) == bs < 0x1_0000 && bs + 6 <= |b|
    && forall i | 0 <= i < |es| :: WrittenEntry(b, Off(es, i), es[i], types[i])
  }

  lemma EntryRead(b: seq<byte>, p: nat, e: Entry, fileType: byte)
    requires WrittenEntry(b, p, e, fileType)
    ensures InoAt(b, p) == e.ino && RecLenAt(b, p) == e.recLen && NameLenAt(b, p) == |e.name|
    ensures b[p + 8..p + 8 + |e.name|] == e.name
  {
    StandsPart(b, p, PutLe32(e.ino), PutLe16(e.recLen) + ([|e.name|, fileType] + e.name));
    StandsPart(b, p + 4, PutLe16(e.recLen), [|e.name|, fileType] + e.name);
    StandsPart(b, p + 6, [|e.name|, fileType], e.name);
    ReadsLe32(b, p, e.ino);
    ReadsLe16(b, p + 4, e.recLen);
    StandsBytes(b, p + 6, [|e.name|, fileType]);
  }

  lemma RoundedFits(n: nat, rec: nat)
    requires 8 + n <= rec && rec % 4 == 0
    ensures Used(n) <= rec
  {
  }

  lemma LiveTarget(n: nat, i: nat)
    requires i < n
    ensures FatesOk(AllLive(n)) && Target(AllLive(n), i) == i + 1
  {
    NextLiveUnique(AllLive(n), i + 1, i + 1);
  }

  lemma EntryStands(b: seq<byte>, es: seq<Entry>, i: nat, fileType: byte)
    requires i < |es| && WrittenEntry(b, Off(es, i), es[i], fileType)
    ensures FatesOk(AllLive(|es|)) && Stands(b, es, AllLive(|es|), i)
  {
    EntryRead(b, Off(es, i), es[i], fileType);
    LiveTarget(|es|, i);
    assert Off(es, i + 1) == Off(es, i) + es[i].recLen;
  }

  lemma EntryClean(b: seq<byte>, es: seq<Entry>, i: nat, fileType: byte)
    requires i < |es| && WrittenEntry(b, Off(es, i), es[i], fileType)
    ensures EntryOk(es[i]) && Slack(b, es, i)
  {
    RoundedFits(|es[i].name|, es[i].recLen);
  }

  /** A block so written is what the scan of deletions starts from. */
  lemma WrittenIsLaid(b: seq<byte>, bs: nat, es: seq<Entry>, types: seq<byte>)
    requires WrittenBlock(b, bs, es, types)
    ensures Laid(b, bs, es, AllLive(|es|))
  {
    forall i | 0 <= i < |es| ensures EntryOk(es[i]) && Stands(b, es, AllLive(|es|), i) && Slack(b, es, i) {
      EntryStands(b, es, i, types[i]);
      EntryClean(b, es, i, types[i]);
    }
  }

  /** The entries from the `i`-th on that are in `ks`, by address. */
  function Listed(es: seq<Entry>, ks: seq<nat>, i: nat): seq<Ghost>
    requires i <= |es|
    decreases |es| - i
  {
    if i == |es| then [] else (if i in ks then [Ghost(es[i].ino, es[i].name)] else []) + Listed(es, ks, i + 1)
  }

  lemma {:induction false} DeletedIsListed(es: seq<Entry>, ks: seq<nat>, fs: Fates, i: nat)
    requires i <= |es| == |fs| && forall k | 0 <= k < |es| :: fs[k].Gone? <==> k in ks
    ensures Deleted(es, fs, i, |es|) == Listed(es, ks, i)
    decreases |es| - i
  {
    if i < |es| { DeletedIsListed(es, ks, fs, i + 1); }
  }

  /** A name a directory entry can have. */
  predicate Name(s: seq<byte>) {
    s != [] && 0 !in s && 0x2f !in s && s != [0x2e] && s != [0x2e, 0x2e]
  }

  /** What the scan reports after the deletions. */
  ghost function Reported(b: seq<byte>, bs: nat, es: seq<Entry>, ks: seq<nat>, maxIno: nat): seq<Ghost>
    requires InBlock(b, es, ks) && bs + 6 <= |b|
  {
    Scan(UnlinkAll(b, Offsets(es, ks)), 0, bs, maxIno)
  }

  lemma ReportedExactly(b: seq<byte>, bs: nat, es: seq<Entry>, ks: seq<nat>, maxIno: nat)
    requires Laid(b, bs, es, AllLive(|es|)) && History(ks, |es|)
    requires forall i | 0 <= i < |ks| :: Removable(es[ks[i]], maxIno)
    ensures InBlock(b, es, ks)
    ensures Reported(b, bs, es, ks, maxIno) == Listed(es, ks, 0) <==> NeighbourLive(ks, |es|)
  {
    ScanUndoesDeletion(b, bs, es, ks, maxIno);
    DeletedIsListed(es, ks, FatesAfter(|es|, ks), 0);
  }

  /** Each of these entries was deleted while its right neighbour was still there, or it was the last. */
  ghost predicate NeighboursThere(ks: seq<nat>, n: nat) {
    forall m | 0 <= m < |ks| :: ks[m] + 1 == n || ks[m] + 1 !in ks[..m]
  }

  lemma SameNeighbours(ks: seq<nat>, n: nat)
    ensures NeighbourLive(ks, n) <==> NeighboursThere(ks, n)
  {
    forall m | 0 <= m < |ks| ensures RightLive(ks, n, m) <==> ks[m] + 1 == n || ks[m] + 1 !in ks[..m] {
    }
  }

  /** Of a block so written, from which entries other than the first were deleted in any order, the scan reports exactly
      the deleted ones, by address, each with its inode and name, if and only if each was deleted while its right
      neighbour was still there or it was the last. */
  lemma WrittenDeletionUndone(b: seq<byte>, bs: nat, es: seq<Entry>, types: seq<byte>, ks: seq<nat>, maxIno: nat)
    requires WrittenBlock(b, bs, es, types)
    requires (forall i | 0 <= i < |ks| :: 0 < ks[i] < |es|) && (forall i, j | 0 <= i < j < |ks| :: ks[i] != ks[j])
    requires forall i | 0 <= i < |ks| :: Name(es[ks[i]].name) && 0 < es[ks[i]].ino <= maxIno
    ensures InBlock(b, es, ks)
    ensures Reported(b, bs, es, ks, maxIno) == Listed(es, ks, 0) <==> NeighboursThere(ks, |es|)
  {
    WrittenIsLaid(b, bs, es, types);
    ReportedExactly(b, bs, es, ks, maxIno);
    SameNeighbours(ks, |es|);
  }

  // ----- what is taken for a ghost -----

  /** The bytes from `p` on, up to `end`, could be an entry. */
  predicate ValidAt(b: seq<byte>, p: nat, end: nat, maxIno: nat, bs: nat)
    requires end <= |b|
  {
    && p + 8 <= end
    && var ino, rec, n := Le32(b, p), Le16(b, p + 4), b[p + 6];
    && 0 < ino <= maxIno && 8 <= rec <= bs && rec % 4 == 0 && n + 8 <= rec && p + 8 + n <= end
    && Name(b[p + 8..p + 8 + n])
  }

  lemma ValidExactly(b: seq<byte>, p: nat, end: nat, maxIno: nat, bs: nat)
    requires end <= |b|
    ensures LooksValid(b, p, end, maxIno, bs) <==> ValidAt(b, p, end, maxIno, bs)
  {
  }

  /** How long the entry at `p` would be. */
  function SizeAt(b: seq<byte>, p: nat): nat {
    if p + 6 <= |b| then Le16(b, p + 4) else 0
  }

  /** The entry whose bytes stand at `p`. */
  function EntryAt(b: seq<byte>, p: nat, end: nat): Ghost
    requires p + 8 <= end <= |b| && p + 8 + b[p + 6] <= end
  {
    Ghost(Le32(b, p), b[p + 8..p + 8 + b[p + 6]])
  }

  /** From `goff` on: take a valid place and go on behind its entry, else go on four bytes further. */
  function PlacesOf(valid: nat -> bool, size: nat -> nat, goff: nat, end: nat): seq<nat>
    decreases end - goff
  {
    if goff + 8 > end then []
    else if valid(goff) && size(goff) > 0 then [goff] + PlacesOf(valid, size, goff + size(goff), end)
    else PlacesOf(valid, size, goff + 4, end)
  }

  /** The valid places whose entry would not end on a multiple of four or has no room for a header. */
  ghost function Unfit(valid: nat -> bool, size: nat -> nat, end: nat): iset<nat> {
    iset p: nat | valid(p) && !(p + 8 <= end && size(p) >= 8 && size(p) % 4 == 0)
  }

  ghost predicate Sane(valid: nat -> bool, size: nat -> nat, end: nat) {
    Unfit(valid, size, end) == iset{}
  }

  lemma SaneAt(valid: nat -> bool, size: nat -> nat, end: nat, p: nat)
    requires Sane(valid, size, end) && valid(p)
    ensures p + 8 <= end && size(p) >= 8 && size(p) % 4 == 0
  {
    assert p !in Unfit(valid, size, end);
  }

  /** Every place is valid and a multiple of four behind the start. */
  lemma {:induction false} PlaceIsValid(valid: nat -> bool, size: nat -> nat, goff: nat, end: nat, p: nat)
    returns (k: nat)
    requires Sane(valid, size, end) && p in PlacesOf(valid, size, goff, end)
    ensures p == goff + 4 * k && valid(p)
    decreases end - goff
  {
    if valid(goff) { SaneAt(valid, size, end, goff); }
    if valid(goff) && p == goff {
      k := 0;
    } else {
      var n := if valid(goff) then size(goff) else 4;
      k := PlaceIsValid(valid, size, goff + n, end, p);
      k := k + n / 4;
    }
  }

  lemma Jump(goff: nat, n: nat, k: nat) returns (j: nat)
    requires n % 4 == 0 && 0 < n <= 4 * k
    ensures j < k && goff + n + 4 * j == goff + 4 * k
  {
    j := k - n / 4;
  }

  lemma InTake(valid: nat -> bool, size: nat -> nat, goff: nat, end: nat, q: nat)
    requires goff + 8 <= end && valid(goff) && size(goff) > 0
    ensures goff in PlacesOf(valid, size, goff, end)
    ensures q in PlacesOf(valid, size, goff + size(goff), end) ==> q in PlacesOf(valid, size, goff, end)
  {
  }

  lemma InSkip(valid: nat -> bool, size: nat -> nat, goff: nat, end: nat, q: nat)
    requires goff + 8 <= end && !valid(goff)
    ensures q in PlacesOf(valid, size, goff + 4, end) ==> q in PlacesOf(valid, size, goff, end)
  {
  }

  /** Every valid place `p`, `4 * k` behind the start, lies within the entry at some place. */
  lemma {:induction false} PlaceTaken(valid: nat -> bool, size: nat -> nat, goff: nat, end: nat, k: nat, p: nat)
    returns (q: nat)
    requires Sane(valid, size, end) && p == goff + 4 * k && valid(p)
    ensures q in PlacesOf(valid, size, goff, end) && q <= p < q + size(q)
    decreases k
  {
    SaneAt(valid, size, end, p);
    if valid(goff) { SaneAt(valid, size, end, goff); }
    if !valid(goff) {
      q := PlaceTaken(valid, size, goff + 4, end, k - 1, p);
      InSkip(valid, size, goff, end, q);
    } else if p < goff + size(goff) {
      q := goff;
      InTake(valid, size, goff, end, q);
    } else {
      var j := Jump(goff, size(goff), k);
      q := PlaceTaken(valid, size, goff + size(goff), end, j, p);
      InTake(valid, size, goff, end, q);
    }
  }

  /** Each place lies behind the entries at the places before it. */
  ghost predicate InOrder(size: nat -> nat, ps: seq<nat>) {
    forall i, j | 0 <= i < j < |ps| :: Precedes(size, ps[i], ps[j])
  }

  predicate Precedes(size: nat -> nat, p: nat, q: nat) {
    p + size(p) <= q
  }

  lemma {:induction false} PlacesInOrder(valid: nat -> bool, size: nat -> nat, goff: nat, end: nat)
    requires Sane(valid, size, end)
    ensures InOrder(size, PlacesOf(valid, size, goff, end))
    decreases end - goff
  {
    if goff + 8 <= end {
      if valid(goff) {
        SaneAt(valid, size, end, goff);
        var next := goff + size(goff);
        PlacesInOrder(valid, size, next, end);
        forall p | p in PlacesOf(valid, size, next, end) ensures Precedes(size, goff, p) {
          var k := PlaceIsValid(valid, size, next, end, p);
        }
        OrderCons(size, goff, PlacesOf(valid, size, next, end));
      } else {
        PlacesInOrder(valid, size, goff + 4, end);
      }
    }
  }

  lemma OrderCons(size: nat -> nat, p: nat, ps: seq<nat>)
    requires InOrder(size, ps) && forall q | q in ps :: Precedes(size, p, q)
    ensures InOrder(size, [p] + ps)
  {
    var all := [p] + ps;
    forall i, j | 0 <= i < j < |all| ensures Precedes(size, all[i], all[j]) {
      assert all[j] == ps[j - 1] && ps[j - 1] in ps;
      if i > 0 { assert Precedes(size, ps[i - 1], ps[j - 1]); }
    }
  }

  // ----- in a gap of any block -----

  function ValidIn(b: seq<byte>, end: nat, maxIno: nat, bs: nat): nat -> bool
    requires end <= |b|
  {
    (p: nat) => ValidAt(b, p, end, maxIno, bs)
  }

  function SizeIn(b: seq<byte>): nat -> nat {
    (p: nat) => SizeAt(b, p)
  }

  /** Where the ghosts of a gap stand. */
  function Places(b: seq<byte>, goff: nat, end: nat, maxIno: nat, bs: nat): seq<nat>
    requires end <= |b|
  {
    PlacesOf(ValidIn(b, end, maxIno, bs), SizeIn(b), goff, end)
  }

  lemma ValidSize(b: seq<byte>, p: nat, end: nat, maxIno: nat, bs: nat)
    requires end <= |b| && ValidAt(b, p, end, maxIno, bs)
    ensures p + 8 <= end && SizeAt(b, p) >= 8 && SizeAt(b, p) % 4 == 0 && p + 8 + b[p + 6] <= end
  {
  }

  lemma ValidsSane(b: seq<byte>, end: nat, maxIno: nat, bs: nat)
    requires end <= |b|
    ensures Sane(ValidIn(b, end, maxIno, bs), SizeIn(b), end)
  {
    forall p: nat ensures p !in Unfit(ValidIn(b, end, maxIno, bs), SizeIn(b), end) {
      if ValidAt(b, p, end, maxIno, bs) { ValidSize(b, p, end, maxIno, bs); }
    }
  }

  /** What is reported of a gap of any block, in order. */
  lemma {:induction false} GapIsPlaces(b: seq<byte>, goff: nat, end: nat, maxIno: nat, bs: nat)
    requires end <= |b|
    ensures Entries(b, end, Places(b, goff, end, maxIno, bs), GapScan(b, goff, end, maxIno, bs))
    decreases end - goff
  {
    if goff + 8 <= end {
      if ValidAt(b, goff, end, maxIno, bs) {
        var next := goff + SizeAt(b, goff);
        ValidSize(b, goff, end, maxIno, bs);
        TakeStep(b, goff, end, maxIno, bs, next);
        GapIsPlaces(b, next, end, maxIno, bs);
        EntriesCons(b, end, goff, Places(b, next, end, maxIno, bs), GapScan(b, next, end, maxIno, bs));
      } else {
        SkipStep(b, goff, end, maxIno, bs);
        GapIsPlaces(b, goff + 4, end, maxIno, bs);
      }
    }
  }

  lemma GapTake(b: seq<byte>, goff: nat, end: nat, maxIno: nat, bs: nat, next: nat)
    requires goff + 8 <= end <= |b| && LooksValid(b, goff, end, maxIno, bs) && next == goff + RecLenAt(b, goff)
    ensures GapScan(b, goff, end, maxIno, bs) == [GhostAt(b, goff)] + GapScan(b, next, end, maxIno, bs)
  {
    GapUnfolds(b, goff, end, maxIno, bs);
  }

  lemma GapUnfolds(b: seq<byte>, goff: nat, end: nat, maxIno: nat, bs: nat)
    requires goff + 8 <= end <= |b|
    ensures GapScan(b, goff, end, maxIno, bs) ==
            if LooksValid(b, goff, end, maxIno, bs) then
              [GhostAt(b, goff)] + GapScan(b, goff + RecLenAt(b, goff), end, maxIno, bs)
            else GapScan(b, goff + 4, end, maxIno, bs)
  {
  }

  lemma PlacesTake(valid: nat -> bool, size: nat -> nat, goff: nat, end: nat, next: nat)
    requires goff + 8 <= end && valid(goff) && next == goff + size(goff) > goff
    ensures PlacesOf(valid, size, goff, end) == [goff] + PlacesOf(valid, size, next, end)
  {
  }

  lemma TakeStep(b: seq<byte>, goff: nat, end: nat, maxIno: nat, bs: nat, next: nat)
    requires goff + 8 <= end <= |b| && ValidAt(b, goff, end, maxIno, bs) && next == goff + SizeAt(b, goff)
    ensures goff + 8 + b[goff + 6] <= end && goff < next
    ensures GapScan(b, goff, end, maxIno, bs) == [EntryAt(b, goff, end)] + GapScan(b, next, end, maxIno, bs)
    ensures Places(b, goff, end, maxIno, bs) == [goff] + Places(b, next, end, maxIno, bs)
  {
    ValidSize(b, goff, end, maxIno, bs);
    ValidExactly(b, goff, end, maxIno, bs);
    GapTake(b, goff, end, maxIno, bs, next);
    PlacesTake(ValidIn(b, end, maxIno, bs), SizeIn(b), goff, end, next);
  }

  lemma SkipStep(b: seq<byte>, goff: nat, end: nat, maxIno: nat, bs: nat)
    requires goff + 8 <= end <= |b| && !ValidAt(b, goff, end, maxIno, bs)
    ensures GapScan(b, goff, end, maxIno, bs) == GapScan(b, goff + 4, end, maxIno, bs)
    ensures Places(b, goff, end, maxIno, bs) == Places(b, goff + 4, end, maxIno, bs)
  {
    ValidExactly(b, goff, end, maxIno, bs);
  }

  /** `out` are the entries at the places `ps`. */
  ghost predicate Entries(b: seq<byte>, end: nat, ps: seq<nat>, out: seq<Ghost>)
    requires end <= |b|
  {
    && |out| == |ps|
    && forall i | 0 <= i < |ps| ::
         ps[i] + 8 <= end && ps[i] + 8 + b[ps[i] + 6] <= end && out[i] == EntryAt(b, ps[i], end)
  }

  lemma EntriesCons(b: seq<byte>, end: nat, p: nat, ps: seq<nat>, out: seq<Ghost>)
    requires end <= |b| && Entries(b, end, ps, out) && p + 8 <= end && p + 8 + b[p + 6] <= end
    ensures Entries(b, end, [p] + ps, [EntryAt(b, p, end)] + out)
  {
  }

  /** The entries a gap yields stand at places, multiples of four behind its start, where an entry could stand, one
      behind the other. */
  lemma GapSoundly(b: seq<byte>, goff: nat, end: nat, maxIno: nat, bs: nat, p: nat)
    requires end <= |b|
    ensures InOrder(SizeIn(b), Places(b, goff, end, maxIno, bs))
    ensures p in Places(b, goff, end, maxIno, bs) ==>
              goff <= p && (p - goff) % 4 == 0 && ValidAt(b, p, end, maxIno, bs)
  {
    var valid, size := ValidIn(b, end, maxIno, bs), SizeIn(b);
    ValidsSane(b, end, maxIno, bs);
    PlacesInOrder(valid, size, goff, end);
    if p in Places(b, goff, end, maxIno, bs) { var k := PlaceIsValid(valid, size, goff, end, p); }
  }

  /** None is missed: wherever an entry could stand, `4 * k` behind the start of the gap, one is reported there or one
      that reaches over that place. */
  lemma GapCompletely(b: seq<byte>, goff: nat, end: nat, maxIno: nat, bs: nat, k: nat) returns (q: nat)
    requires end <= |b| && ValidAt(b, goff + 4 * k, end, maxIno, bs)
    ensures q in Places(b, goff, end, maxIno, bs) && q <= goff + 4 * k < q + SizeAt(b, q)
  {
    ValidsSane(b, end, maxIno, bs);
    q := PlaceTaken(ValidIn(b, end, maxIno, bs), SizeIn(b), goff, end, k, goff + 4 * k);
  }

  // ----- in a whole block -----

  /** The offsets that following the length fields leads to: on from each as long as its length field is not zero and
      does not reach beyond the block. */
  ghost predicate Follows(b: seq<byte>, bs: nat, os: seq<nat>)
    requires bs + 6 <= |b|
  {
    && os != [] && (forall i | 0 <= i < |os| - 1 :: os[i] < bs && LeadsTo(b, bs, os[i], os[i + 1]))
    && (os[|os| - 1] >= bs || Stops(b, bs, os[|os| - 1]))
  }

  predicate LeadsTo(b: seq<byte>, bs: nat, o: nat, next: nat)
    requires o < bs && bs + 6 <= |b|
  {
    next == o + Le16(b, o + 4) && o < next <= bs
  }

  predicate Stops(b: seq<byte>, bs: nat, o: nat)
    requires bs + 6 <= |b|
  {
    o < bs && (Le16(b, o + 4) == 0 || o + Le16(b, o + 4) > bs)
  }

  /** What the gaps between these offsets, from the `i`-th on, yield: each begins at the next multiple of four behind
      the entry's name. */
  ghost function Yield(b: seq<byte>, bs: nat, maxIno: nat, os: seq<nat>, i: nat): seq<Ghost>
    requires bs + 6 <= |b| && Follows(b, bs, os) && i < |os|
    decreases |os| - i
  {
    if i + 1 == |os| then []
    else
      assert LeadsTo(b, bs, os[i], os[i + 1]);
      YieldOne(b, os[i], os[i + 1], bs, maxIno) + Yield(b, bs, maxIno, os, i + 1)
  }

  ghost function YieldOne(b: seq<byte>, o: nat, next: nat, bs: nat, maxIno: nat): seq<Ghost>
    requires bs + 6 <= |b| && o < bs && LeadsTo(b, bs, o, next)
  {
    var n: nat := b[o + 6];
    GapScan(b, o + (8 + n + 3) / 4 * 4, next, maxIno, bs)
  }

  /** In any block the scan follows the length fields and yields what is in the gaps. */
  lemma {:induction false} ScanFollows(b: seq<byte>, bs: nat, maxIno: nat, os: seq<nat>, i: nat)
    requires bs + 6 <= |b| && Follows(b, bs, os) && i < |os|
    ensures Scan(b, os[i], bs, maxIno) == Yield(b, bs, maxIno, os, i)
    decreases |os| - i
  {
    if i + 1 < |os| {
      assert LeadsTo(b, bs, os[i], os[i + 1]);
      ScanFollows(b, bs, maxIno, os, i + 1);
      ScanOn(b, os[i], os[i + 1], bs, maxIno);
    } else {
      ScanEnds(b, os[i], bs, maxIno);
    }
  }

  lemma ScanEnds(b: seq<byte>, o: nat, bs: nat, maxIno: nat)
    requires bs + 6 <= |b| && (o >= bs || Stops(b, bs, o))
    ensures Scan(b, o, bs, maxIno) == []
  {
  }

  lemma ScanOn(b: seq<byte>, o: nat, next: nat, bs: nat, maxIno: nat)
    requires bs + 6 <= |b| && o < bs && LeadsTo(b, bs, o, next)
    ensures Scan(b, o, bs, maxIno) == YieldOne(b, o, next, bs, maxIno) + Scan(b, next, bs, maxIno)
  {
  }

  /** There are such offsets in every block. */
  lemma {:induction false} FollowsExists(b: seq<byte>, bs: nat, o: nat) returns (os: seq<nat>)
    requires bs + 6 <= |b| && o <= bs
    ensures Follows(b, bs, os) && os[0] == o
    decreases bs - o
  {
    if o >= bs || Stops(b, bs, o) {
      os := [o];
    } else {
      var rest := FollowsExists(b, bs, o + Le16(b, o + 4));
      os := [o] + rest;
      forall i | 0 <= i < |os| - 1 ensures os[i] < bs && LeadsTo(b, bs, os[i], os[i + 1]) {
        if i > 0 { assert rest[i - 1] < bs && LeadsTo(b, bs, rest[i - 1], rest[i]); }
      }
    }
  }
}
