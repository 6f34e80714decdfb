/** Names left behind in directory blocks (improved/ghost_dirent.c): the scan of one block for entries that a
    deletion absorbed into their predecessor. */
module GhostDirents {
  import opened Bytes
  import opened Collections

  const FIXED: nat := 8
  const SLASH: byte := 0x2F
  const DOT: byte := 0x2E
  /** How far past the block the scan may look at a would-be header; what it sees there never matters. */
  const OVERREAD: nat := 6

  datatype Ghost = Ghost(ino: nat, name: seq<byte>)

  function InoAt(b: seq<byte>, p: nat): nat
    requires p + 4 <= |b|
  {
    Le32(b, p)
  }

  function RecLenAt(b: seq<byte>, p: nat): nat
    requires p + 6 <= |b|
  {
    Le16(b, p + 4)
  }

  function NameLenAt(b: seq<byte>, p: nat): nat
    requires p + 7 <= |b|
  {
    b[p + 6]
  }

  predicate NameOk(name: seq<byte>) {
    name != [] && 0 !in name && SLASH !in name && name != [DOT] && name != [DOT, DOT]
  }

  /** ghost_dirent_looks_valid: an entry at `p` that fits before `end`. */
  predicate LooksValid(b: seq<byte>, p: nat, end: nat, maxIno: nat, bs: nat)
    requires end <= |b|
  {
    && p + FIXED <= end
    && 0 < InoAt(b, p) <= maxIno
    && FIXED <= RecLenAt(b, p) <= bs && RecLenAt(b, p) % 4 == 0
    && NameLenAt(b, p) + FIXED <= RecLenAt(b, p)
    && p + FIXED + NameLenAt(b, p) <= end
    && NameOk(b[p + FIXED..p + FIXED + NameLenAt(b, p)])
  }

  function GhostAt(b: seq<byte>, p: nat): Ghost
    requires p + FIXED <= |b| && p + FIXED + NameLenAt(b, p) <= |b|
  {
    Ghost(InoAt(b, p), b[p + FIXED..p + FIXED + NameLenAt(b, p)])
  }

  /** The ghosts in the gap [goff, end). */
  function GapScan(b: seq<byte>, goff: nat, end: nat, maxIno: nat, bs: nat): seq<Ghost>
    requires end <= |b|
    decreases end - goff
  {
    if goff + FIXED > end then []
    else if LooksValid(b, goff, end, maxIno, bs) then
      [GhostAt(b, goff)] + GapScan(b, goff + RecLenAt(b, goff), end, maxIno, bs)
    else GapScan(b, goff + 4, end, maxIno, bs)
  }

  /** Bytes an entry with a name of length `n` really uses. */
  function Used(n: nat): nat {
    (FIXED + n + 3) / 4 * 4
  }

  function Scan(b: seq<byte>, offset: nat, bs: nat, maxIno: nat): seq<Ghost>
    requires bs + OVERREAD <= |b|
    decreases bs - offset
  {
    if offset >= bs then []
    else
      var rec := RecLenAt(b, offset);
      if rec == 0 || offset + rec > bs then []
      else
        GapScan(b, offset + Used(NameLenAt(b, offset)), offset + rec, maxIno, bs) + Scan(b, offset + rec, bs, maxIno)
  }

  // ----- the loops -----

  method ScanGap(b: seq<byte>, start: nat, end: nat, maxIno: nat, bs: nat) returns (out: seq<Ghost>)
    requires end <= |b|
    ensures out == GapScan(b, start, end, maxIno, bs)
  {
    out := [];
    var goff := start;
    while goff + FIXED <= end
      invariant out + GapScan(b, goff, end, maxIno, bs) == GapScan(b, start, end, maxIno, bs)
      decreases end - goff
    {
      if LooksValid(b, goff, end, maxIno, bs) {
        Regroup(out, GhostAt(b, goff), GapScan(b, goff + RecLenAt(b, goff), end, maxIno, bs));
        out := out + [GhostAt(b, goff)];
        goff := goff + RecLenAt(b, goff);
      } else {
        goff := goff + 4;
      }
    }
  }

  lemma RoundedUp(n: nat)
    ensures (if n % 4 == 0 then n else n + (4 - n % 4)) == (n + 3) / 4 * 4
  {
  }

  method ScanDirBlock(b: seq<byte>, bs: nat, maxIno: nat) returns (out: seq<Ghost>)
    requires bs + OVERREAD <= |b|
    ensures out == Scan(b, 0, bs, maxIno)
  {
    out := [];
    var offset := 0;
    while offset < bs
      invariant out + Scan(b, offset, bs, maxIno) == Scan(b, 0, bs, maxIno)
    {
      var rec := RecLenAt(b, offset);
      if rec == 0 || offset + rec > bs {
        break;
      }
      var more := ScanEntry(b, offset, bs, maxIno);
      Reassociate(out, more, Scan(b, offset + rec, bs, maxIno));
      out := out + more;
      offset := offset + rec;
    }
  }

  /** The gap behind one live entry. */
  method ScanEntry(b: seq<byte>, offset: nat, bs: nat, maxIno: nat) returns (more: seq<Ghost>)
    requires bs + OVERREAD <= |b| && offset < bs && RecLenAt(b, offset) != 0 && offset + RecLenAt(b, offset) <= bs
    ensures more + Scan(b, offset + RecLenAt(b, offset), bs, maxIno) == Scan(b, offset, bs, maxIno)
  {
    var used := FIXED + NameLenAt(b, offset);
    if used % 4 != 0 {
      used := used + (4 - used % 4);
    }
    RoundedUp(FIXED + NameLenAt(b, offset));
    more := ScanGap(b, offset + used, offset + RecLenAt(b, offset), maxIno, bs);
  }

  // ----- any block whatever -----

  /** `g` is an entry that lies inside the block, with a usable name and inode. */
  ghost predicate Proper(b: seq<byte>, bs: nat, maxIno: nat, g: Ghost) {
    && 0 < g.ino <= maxIno && |g.name| <= 255 && NameOk(g.name)
    && exists p: nat :: At(b, bs, p, g)
  }

  predicate At(b: seq<byte>, bs: nat, p: nat, g: Ghost) {
    p + FIXED + |g.name| <= bs <= |b| && InoAt(b, p) == g.ino && b[p + FIXED..p + FIXED + |g.name|] == g.name
  }

  lemma {:induction false} GapSound(b: seq<byte>, goff: nat, end: nat, maxIno: nat, bs: nat)
    requires end <= bs <= |b|
    ensures forall g | g in GapScan(b, goff, end, maxIno, bs) :: Proper(b, bs, maxIno, g)
    decreases end - goff
  {
    if goff + FIXED <= end {
      if LooksValid(b, goff, end, maxIno, bs) {
        GapSound(b, goff + RecLenAt(b, goff), end, maxIno, bs);
        assert At(b, bs, goff, GhostAt(b, goff));
      } else {
        GapSound(b, goff + 4, end, maxIno, bs);
      }
    }
  }

  lemma {:induction false} ScanSound(b: seq<byte>, offset: nat, bs: nat, maxIno: nat)
    requires bs + OVERREAD <= |b|
    ensures forall g | g in Scan(b, offset, bs, maxIno) :: Proper(b, bs, maxIno, g)
    decreases bs - offset
  {
    if offset < bs {
      var rec := RecLenAt(b, offset);
      if rec != 0 && offset + rec <= bs {
        GapSound(b, offset + Used(NameLenAt(b, offset)), offset + rec, maxIno, bs);
        ScanSound(b, offset + rec, bs, maxIno);
      }
    }
  }

  /** A header that does not fit into the block yields nothing. */
  lemma {:induction false} NothingAtTheEnd(b: seq<byte>, offset: nat, bs: nat, maxIno: nat)
    requires bs + OVERREAD <= |b| && offset + FIXED > bs
    ensures Rest(b, offset, bs, maxIno) == []
    decreases bs - offset
  {
    if offset < bs {
      var rec := RecLenAt(b, offset);
      if rec != 0 && offset + rec <= bs {
        NothingAtTheEnd(b, offset + rec, bs, maxIno);
      }
    }
  }

  lemma SameHeader(a: seq<byte>, b: seq<byte>, p: nat, end: nat)
    requires end <= |a| && end <= |b| && a[..end] == b[..end] && p + FIXED <= end
    ensures InoAt(a, p) == InoAt(b, p) && RecLenAt(a, p) == RecLenAt(b, p) && NameLenAt(a, p) == NameLenAt(b, p)
  {
    assert forall k | 0 <= k < end :: a[k] == a[..end][k] && b[k] == b[..end][k];
  }

  lemma SameSlice(a: seq<byte>, b: seq<byte>, p: nat, q: nat, end: nat)
    requires p <= q <= end <= |a| && end <= |b| && a[..end] == b[..end]
    ensures a[p..q] == b[p..q]
  {
    assert a[..end][p..q] == a[p..q] && b[..end][p..q] == b[p..q];
  }

  lemma SameCandidate(a: seq<byte>, b: seq<byte>, p: nat, end: nat, maxIno: nat, bs: nat)
    requires end <= |a| && end <= |b| && a[..end] == b[..end]
    ensures LooksValid(a, p, end, maxIno, bs) == LooksValid(b, p, end, maxIno, bs)
    ensures LooksValid(a, p, end, maxIno, bs) ==>
      GhostAt(a, p) == GhostAt(b, p) && RecLenAt(a, p) == RecLenAt(b, p)
  {
    if p + FIXED <= end {
      SameHeader(a, b, p, end);
      var q := p + FIXED + NameLenAt(a, p);
      if q <= end { SameSlice(a, b, p + FIXED, q, end); }
    }
  }

  lemma {:induction false} GapSame(a: seq<byte>, b: seq<byte>, goff: nat, end: nat, maxIno: nat, bs: nat)
    requires end <= |a| && end <= |b| && a[..end] == b[..end]
    ensures GapScan(a, goff, end, maxIno, bs) == GapScan(b, goff, end, maxIno, bs)
    decreases end - goff
  {
    SameCandidate(a, b, goff, end, maxIno, bs);
    if goff + FIXED <= end {
      if LooksValid(a, goff, end, maxIno, bs) {
        GapSame(a, b, goff + RecLenAt(a, goff), end, maxIno, bs);
      } else {
        GapSame(a, b, goff + 4, end, maxIno, bs);
      }
    }
  }

  /** What the scan reports from `offset` on. */
  ghost function Rest(b: seq<byte>, offset: nat, bs: nat, maxIno: nat): seq<Ghost>
    requires bs + OVERREAD <= |b|
  {
    Scan(b, offset, bs, maxIno)
  }

  /** What lies between a live entry at `offset` and the next one. */
  ghost function Gap(b: seq<byte>, offset: nat, next: nat, bs: nat, maxIno: nat): seq<Ghost>
    requires offset + FIXED <= |b| && next <= |b|
  {
    GapScan(b, offset + Used(NameLenAt(b, offset)), next, maxIno, bs)
  }

  /** One live entry of the scan. */
  lemma {:induction false} ScanStep(b: seq<byte>, offset: nat, next: nat, bs: nat, maxIno: nat)
    requires bs + OVERREAD <= |b| && offset < next <= bs && offset + FIXED <= bs && next == offset + RecLenAt(b, offset)
    ensures Rest(b, offset, bs, maxIno) == Gap(b, offset, next, bs, maxIno) + Rest(b, next, bs, maxIno)
  {
  }

  lemma {:induction false} ScanStops(b: seq<byte>, offset: nat, bs: nat, maxIno: nat)
    requires bs + OVERREAD <= |b| && offset + FIXED <= bs
    requires RecLenAt(b, offset) == 0 || offset + RecLenAt(b, offset) > bs
    ensures Rest(b, offset, bs, maxIno) == []
  {
  }

  lemma {:induction false} GapsSame(a: seq<byte>, b: seq<byte>, offset: nat, next: nat, bs: nat, maxIno: nat)
    requires next <= bs <= |a| && bs <= |b| && offset + FIXED <= bs && a[..bs] == b[..bs]
    ensures Gap(a, offset, next, bs, maxIno) == Gap(b, offset, next, bs, maxIno)
  {
    SameHeader(a, b, offset, bs);
    ShorterSame(a, b, bs, next);
    GapSame(a, b, offset + Used(NameLenAt(a, offset)), next, maxIno, bs);
  }

  lemma ShorterSame(a: seq<byte>, b: seq<byte>, n: nat, m: nat)
    requires m <= n <= |a| && n <= |b| && a[..n] == b[..n]
    ensures a[..m] == b[..m]
  {
    assert a[..m] == a[..n][..m] && b[..m] == b[..n][..m];
  }

  lemma {:induction false} RestSame(a: seq<byte>, b: seq<byte>, offset: nat, bs: nat, maxIno: nat)
    requires bs + OVERREAD <= |a| && bs + OVERREAD <= |b| && a[..bs] == b[..bs]
    ensures Rest(a, offset, bs, maxIno) == Rest(b, offset, bs, maxIno)
    decreases bs - offset
  {
    if offset + FIXED > bs {
      NothingAtTheEnd(a, offset, bs, maxIno);
      NothingAtTheEnd(b, offset, bs, maxIno);
    } else {
      SameHeader(a, b, offset, bs);
      var next := offset + RecLenAt(a, offset);
      if offset < next <= bs {
        GapsSame(a, b, offset, next, bs, maxIno);
        RestSame(a, b, next, bs, maxIno);
        ScanStep(a, offset, next, bs, maxIno);
        ScanStep(b, offset, next, bs, maxIno);
      } else {
        ScanStops(a, offset, bs, maxIno);
        ScanStops(b, offset, bs, maxIno);
      }
    }
  }

  /** What lies in memory after the block has no influence on the result. */
  lemma OverreadHarmless(a: seq<byte>, b: seq<byte>, bs: nat, maxIno: nat)
    requires bs + OVERREAD <= |a| && bs + OVERREAD <= |b| && a[..bs] == b[..bs]
    ensures Scan(a, 0, bs, maxIno) == Scan(b, 0, bs, maxIno)
  {
    RestSame(a, b, 0, bs, maxIno);
  }
}
