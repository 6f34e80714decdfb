/** The set of recovered physical blocks (improved/recovered_intervals.c): sorted, merged
    [start, start + len) intervals, searched by bisection and edited in place. */
module Intervals {
  import opened Arithmetic

  datatype Interval = Interval(start: nat, len: nat)
  {
    function End(): nat { start + len }
  }

  function Range(s: nat, len: nat): set<nat> {
    set b | s <= b < s + len && Within(b, s, len)
  }

  /** The blocks a list of intervals stands for. */
  function Blocks(ivs: seq<Interval>): set<nat> {
    if ivs == [] then {}
    else Blocks(ivs[..|ivs| - 1]) + Range(ivs[|ivs| - 1].start, ivs[|ivs| - 1].len)
  }

  /** Non-empty, ascending and with at least one missing block between neighbours. */
  ghost predicate Canonical(ivs: seq<Interval>) {
    && (forall i | 0 <= i < |ivs| :: ivs[i].len > 0)
    && (forall i, j | 0 <= i < j < |ivs| :: ivs[i].End() < ivs[j].start)
  }

  /** Such a list of 64-bit intervals. */
  ghost predicate Fits(ivs: seq<Interval>) {
    Canonical(ivs) && forall i | 0 <= i < |ivs| :: ivs[i].End() < U64
  }

  predicate At(ivs: seq<Interval>, i: nat, b: nat) {
    i < |ivs| && ivs[i].start <= b < ivs[i].End()
  }

  lemma {:induction false} InBlocks(ivs: seq<Interval>, b: nat)
    ensures b in Blocks(ivs) <==> exists i: nat :: At(ivs, i, b)
  {
    if ivs != [] {
      var m := |ivs| - 1;
      InBlocks(ivs[..m], b);
      if b in Blocks(ivs[..m]) {
        var i: nat :| At(ivs[..m], i, b);
        assert At(ivs, i, b);
      }
      if i: nat :| At(ivs, i, b) {
        assert i < m ==> At(ivs[..m], i, b);
      }
      assert b in Range(ivs[m].start, ivs[m].len) ==> At(ivs, m, b);
    }
  }

  lemma {:induction false} RangeSize(s: nat, len: nat)
    ensures |Range(s, len)| == len
  {
    if len > 0 {
      RangeSize(s, len - 1);
      assert Range(s, len) == Range(s, len - 1) + {s + len - 1};
    } else {
      assert Range(s, len) == {};
    }
  }

  function TotalLen(ivs: seq<Interval>): nat {
    if ivs == [] then 0 else TotalLen(ivs[..|ivs| - 1]) + ivs[|ivs| - 1].len
  }

  /** The reported total is the number of distinct blocks. */
  lemma {:induction false} TotalIsCardinality(ivs: seq<Interval>)
    requires Canonical(ivs)
    ensures |Blocks(ivs)| == TotalLen(ivs)
  {
    if ivs != [] {
      var m := |ivs| - 1;
      TotalIsCardinality(ivs[..m]);
      RangeSize(ivs[m].start, ivs[m].len);
      LastApart(ivs, m);
    }
  }

  lemma {:induction false} LastApart(ivs: seq<Interval>, m: nat)
    requires Canonical(ivs) && |ivs| == m + 1
    ensures Blocks(ivs[..m]) !! Range(ivs[m].start, ivs[m].len)
  {
    forall b | b in Blocks(ivs[..m]) ensures b !in Range(ivs[m].start, ivs[m].len) {
      InBlocks(ivs[..m], b);
    }
  }

  /** The last block of a canonical list is the end of its last interval. */
  lemma LastBlock(ivs: seq<Interval>)
    requires Canonical(ivs) && ivs != []
    ensures var l := ivs[|ivs| - 1];
      l.End() - 1 in Blocks(ivs) && (forall b | b in Blocks(ivs) :: b < l.End()) &&
      (forall b: nat | l.start <= b < l.End() :: b in Blocks(ivs)) &&
      (l.start > 0 ==> l.start - 1 !in Blocks(ivs))
  {
    var l := ivs[|ivs| - 1];
    forall b | b in Blocks(ivs) ensures b < l.End() && b != l.start - 1 {
      InBlocks(ivs, b);
    }
    forall b: nat | l.start <= b < l.End() ensures b in Blocks(ivs) {
      InBlocks(ivs, b);
      assert At(ivs, |ivs| - 1, b);
    }
  }

  /** A set of blocks has one canonical list: histories with equal unions leave identical arrays. */
  lemma {:induction false} CanonicalUnique(a: seq<Interval>, b: seq<Interval>)
    requires Canonical(a) && Canonical(b) && Blocks(a) == Blocks(b)
    ensures a == b
  {
    BothEmpty(a, b);
    if a != [] {
      SameLast(a, b);
      SameButLast(a, b);
      CanonicalUnique(a[..|a| - 1], b[..|b| - 1]);
      assert a == a[..|a| - 1] + [a[|a| - 1]] && b == b[..|b| - 1] + [b[|b| - 1]];
    }
  }

  lemma BothEmpty(a: seq<Interval>, b: seq<Interval>)
    requires Canonical(a) && Canonical(b) && Blocks(a) == Blocks(b)
    ensures a == [] <==> b == []
  {
    if a != [] { LastBlock(a); }
    if b != [] { LastBlock(b); }
  }

  lemma SameButLast(a: seq<Interval>, b: seq<Interval>)
    requires Canonical(a) && Canonical(b) && Blocks(a) == Blocks(b) && a != [] && b != []
    requires a[|a| - 1] == b[|b| - 1]
    ensures var c, d := a[..|a| - 1], b[..|b| - 1]; Canonical(c) && Canonical(d) && Blocks(c) == Blocks(d)
  {
    BlocksButLast(a);
    BlocksButLast(b);
  }

  lemma SameLast(a: seq<Interval>, b: seq<Interval>)
    requires Canonical(a) && Canonical(b) && Blocks(a) == Blocks(b) && a != [] && b != []
    ensures a[|a| - 1] == b[|b| - 1]
  {
    LastBlock(a);
    LastBlock(b);
    var x, y := a[|a| - 1], b[|b| - 1];
    assert x.End() == y.End();
    assert x.start == y.start;
  }

  lemma BlocksButLast(ivs: seq<Interval>)
    requires Canonical(ivs) && ivs != []
    ensures var m := |ivs| - 1; Blocks(ivs[..m]) == Blocks(ivs) - Range(ivs[m].start, ivs[m].len)
  {
    var m := |ivs| - 1;
    forall b | b in Blocks(ivs[..m]) ensures b !in Range(ivs[m].start, ivs[m].len) {
      InBlocks(ivs[..m], b);
    }
  }

  // ----- inserting -----

  /** The list with the intervals [lo, hi) replaced by `iv`. */
  function Splice(ivs: seq<Interval>, lo: nat, hi: nat, iv: Interval): seq<Interval>
    requires lo <= hi <= |ivs|
  {
    ivs[..lo] + [iv] + ivs[hi..]
  }

  /** [lo, hi) are exactly the intervals that overlap or touch [s, e). */
  ghost predicate Touching(ivs: seq<Interval>, lo: nat, hi: nat, s: nat, e: nat) {
    && lo <= hi <= |ivs|
    && (forall i | 0 <= i < lo :: ivs[i].End() < s)
    && (forall i | lo <= i < |ivs| :: s <= ivs[i].End())
    && (forall i | lo <= i < hi :: ivs[i].start <= e)
    && (forall i | hi <= i < |ivs| :: e < ivs[i].start)
  }

  /** The difference of two 64-bit numbers. */
  function Minus(e: nat, s: nat): nat
    requires s < U64
  {
    if s <= e then e - s else e + U64 - s
  }

  /** The smallest interval that covers [s, e) and the intervals it touches. */
  function Hull(ivs: seq<Interval>, lo: nat, hi: nat, s: nat, e: nat): Interval
    requires lo <= hi <= |ivs| && s < U64
  {
    if lo == hi then Interval(s, Minus(e, s))
    else
      var s' := if ivs[lo].start < s then ivs[lo].start else s;
      var e' := if ivs[hi - 1].End() > e then ivs[hi - 1].End() else e;
      Interval(s', Minus(e', s'))
  }

  /** Some interval reaches from `e` or before to `s`. */
  ghost predicate Absorbs(ivs: seq<Interval>, s: nat, e: nat) {
    exists i :: 0 <= i < |ivs| && ivs[i].start <= e && s <= ivs[i].End()
  }

  /** A range whose end wraps around is swallowed by the interval that spans the wrapped end, if there is one, and is
      otherwise inserted as it is. */
  lemma WrappedSplice(ivs: seq<Interval>, lo: nat, hi: nat, s: nat, e: nat)
    requires Canonical(ivs) && e < s < U64 && Touching(ivs, lo, hi, s, e)
    ensures Absorbs(ivs, s, e) <==> lo < hi
    ensures lo < hi ==> Splice(ivs, lo, hi, Hull(ivs, lo, hi, s, e)) == ivs
    ensures lo == hi ==> Interval(s, Minus(e, s)) in Splice(ivs, lo, hi, Hull(ivs, lo, hi, s, e))
  {
    if lo < hi {
      assert ivs[lo].start <= e && s <= ivs[lo].End();
      assert lo + 1 < |ivs| ==> e < ivs[lo + 1].start;
      assert hi == lo + 1;
      assert Hull(ivs, lo, hi, s, e) == ivs[lo];
    }
  }

  lemma SpliceCanonical(ivs: seq<Interval>, lo: nat, hi: nat, s: nat, e: nat)
    requires Canonical(ivs) && s < e < U64 && Touching(ivs, lo, hi, s, e)
    ensures Canonical(Splice(ivs, lo, hi, Hull(ivs, lo, hi, s, e)))
  {
    var r := Splice(ivs, lo, hi, Hull(ivs, lo, hi, s, e));
    forall i | 0 <= i < |r| ensures r[i].len > 0 {
      SpliceAt(ivs, lo, hi, Hull(ivs, lo, hi, s, e), i);
    }
    forall i, j | 0 <= i < j < |r| ensures r[i].End() < r[j].start {
      SpliceAt(ivs, lo, hi, Hull(ivs, lo, hi, s, e), i);
      SpliceAt(ivs, lo, hi, Hull(ivs, lo, hi, s, e), j);
    }
  }

  lemma SpliceAt(ivs: seq<Interval>, lo: nat, hi: nat, iv: Interval, i: nat)
    requires lo <= hi <= |ivs| && i < |ivs| - (hi - lo) + 1
    ensures |Splice(ivs, lo, hi, iv)| == |ivs| - (hi - lo) + 1
    ensures Splice(ivs, lo, hi, iv)[i] == if i < lo then ivs[i] else if i == lo then iv else ivs[i + (hi - lo) - 1]
  {
  }

  /** A block of the spliced list was there before or is new. */
  lemma SpliceOnly(ivs: seq<Interval>, lo: nat, hi: nat, s: nat, e: nat, i: nat, b: nat)
    requires Canonical(ivs) && s < e < U64 && Touching(ivs, lo, hi, s, e)
    requires At(Splice(ivs, lo, hi, Hull(ivs, lo, hi, s, e)), i, b)
    ensures s <= b < e || exists j: nat :: At(ivs, j, b)
  {
    SpliceAt(ivs, lo, hi, Hull(ivs, lo, hi, s, e), i);
    if i < lo {
      assert At(ivs, i, b);
    } else if i > lo {
      assert At(ivs, i + (hi - lo) - 1, b);
    } else if b < s {
      assert At(ivs, lo, b);
    } else if e <= b {
      assert At(ivs, hi - 1, b);
    }
  }

  /** Blocks that were there before, and the new ones, are in the spliced list. */
  lemma SpliceAll(ivs: seq<Interval>, lo: nat, hi: nat, s: nat, e: nat, j: nat, b: nat)
    requires Canonical(ivs) && s < e < U64 && Touching(ivs, lo, hi, s, e)
    requires s <= b < e || At(ivs, j, b)
    ensures exists i: nat :: At(Splice(ivs, lo, hi, Hull(ivs, lo, hi, s, e)), i, b)
  {
    var r := Splice(ivs, lo, hi, Hull(ivs, lo, hi, s, e));
    if s <= b < e {
      assert At(r, lo, b);
    } else if j < lo {
      assert At(r, j, b);
    } else if j < hi {
      HullCovers(ivs, lo, hi, s, e, j);
      assert At(r, lo, b);
    } else {
      assert At(r, j - (hi - lo) + 1, b);
    }
  }

  lemma SpliceUnion(ivs: seq<Interval>, lo: nat, hi: nat, s: nat, e: nat)
    requires Canonical(ivs) && s < e < U64 && Touching(ivs, lo, hi, s, e)
    ensures Blocks(Splice(ivs, lo, hi, Hull(ivs, lo, hi, s, e))) == Blocks(ivs) + Range(s, e - s)
  {
    var r := Splice(ivs, lo, hi, Hull(ivs, lo, hi, s, e));
    forall b: nat ensures b in Blocks(r) <==> b in Blocks(ivs) + Range(s, e - s) {
      InBlocks(r, b);
      InBlocks(ivs, b);
      if b in Blocks(r) {
        var i: nat :| At(r, i, b);
        SpliceOnly(ivs, lo, hi, s, e, i, b);
      } else if j: nat :| At(ivs, j, b) {
        SpliceAll(ivs, lo, hi, s, e, j, b);
      } else if s <= b < e {
        SpliceAll(ivs, lo, hi, s, e, 0, b);
      }
    }
  }

  lemma SpliceFits(ivs: seq<Interval>, lo: nat, hi: nat, s: nat, e: nat)
    requires Fits(ivs) && s < e < U64 && Touching(ivs, lo, hi, s, e)
    ensures var r := Splice(ivs, lo, hi, Hull(ivs, lo, hi, s, e)); Fits(r) && Blocks(r) == Blocks(ivs) + Range(s, e - s)
  {
    SpliceCanonical(ivs, lo, hi, s, e);
    SpliceUnion(ivs, lo, hi, s, e);
  }

  /** What adding [s, s + len) to a list makes of it. */
  ghost predicate Added(before: seq<Interval>, after: seq<Interval>, s: nat, len: nat) {
    if s + len < U64 then Fits(after) && Blocks(after) == Blocks(before) + Range(s, len)
    else if Absorbs(before, s, s + len - U64) then after == before
    else Interval(s, len) in after && !Fits(after)
  }

  lemma SpliceAdds(ivs: seq<Interval>, lo: nat, hi: nat, s: nat, len: nat)
    requires Fits(ivs) && s < U64 && 0 < len < U64 && Touching(ivs, lo, hi, s, Sum64(s, len))
    ensures Added(ivs, Splice(ivs, lo, hi, Hull(ivs, lo, hi, s, Sum64(s, len))), s, len)
  {
    var e := Sum64(s, len);
    if s + len < U64 {
      SpliceFits(ivs, lo, hi, s, e);
    } else {
      WrappedSplice(ivs, lo, hi, s, e);
      TooLong(Splice(ivs, lo, hi, Hull(ivs, lo, hi, s, e)), Interval(s, len));
    }
  }

  lemma TooLong(ivs: seq<Interval>, iv: Interval)
    requires iv.End() >= U64
    ensures iv in ivs ==> !Fits(ivs)
  {
  }

  lemma HullCovers(ivs: seq<Interval>, lo: nat, hi: nat, s: nat, e: nat, i: nat)
    requires Canonical(ivs) && s <= e && s < U64 && lo <= i < hi <= |ivs|
    ensures var h := Hull(ivs, lo, hi, s, e); h.start <= ivs[i].start && ivs[i].End() <= h.End()
  {
  }

  // ----- the array form -----

  const INITIAL_CAPACITY: nat := 1024

  /** memmove of the items [at + gap, n) to `at`. */
  method MoveDown(a: array<nat>, at: nat, gap: nat, n: nat)
    requires at + gap <= n <= a.Length
    modifies a
    ensures forall i | 0 <= i < a.Length :: a[i] == old(a[if at <= i < n - gap then i + gap else i])
  {
    forall i | at <= i < n - gap { a[i] := a[i + gap]; }
  }

  lemma LastAfterFirst(ivs: seq<Interval>, lo: nat, hi: nat)
    requires Canonical(ivs) && lo < hi <= |ivs|
    ensures ivs[lo].start <= ivs[hi - 1].End()
  {
  }

  lemma GapClosed<T>(before: seq<T>, after: seq<T>, at: nat, gap: nat)
    requires at + gap <= |before| == |after| + gap
    requires forall i | 0 <= i < |after| :: after[i] == before[if i < at then i else i + gap]
    ensures after == before[..at] + before[at + gap..]
  {
  }

  class RecoveredIntervals {
    var starts: array<nat>
    var lens: array<nat>
    var count: nat

    predicate Shape()
      reads this
    {
      starts != lens && 0 < starts.Length == lens.Length && count <= starts.Length
    }

    function List(): seq<Interval>
      reads this, starts, lens
      requires Shape()
    {
      seq(count, i requires 0 <= i < count && Shape() reads this, starts, lens => Interval(starts[i], lens[i]))
    }

    ghost predicate Valid()
      reads this, starts, lens
    {
      Shape() && Fits(List())
    }

    ghost function Set(): set<nat>
      reads this, starts, lens
      requires Valid()
    {
      Blocks(List())
    }

    constructor ()
      ensures Valid() && Set() == {} && fresh(starts) && fresh(lens)
    {
      starts, lens, count := new nat[INITIAL_CAPACITY], new nat[INITIAL_CAPACITY], 0;
    }

    /** First interval whose end lies beyond `q`. */
    method FindFirst(q: nat) returns (lo: nat)
      requires Valid()
      ensures lo <= count
      ensures forall i | 0 <= i < lo :: List()[i].End() <= q
      ensures forall i | lo <= i < count :: q < List()[i].End()
    {
      lo := 0;
      var hi := count;
      while lo < hi
        invariant lo <= hi <= count
        invariant forall i | 0 <= i < lo :: List()[i].End() <= q
        invariant forall i | hi <= i < count :: q < List()[i].End()
      {
        var mid := (lo + hi) / 2;
        ghost var m := List()[mid];
        if starts[mid] + lens[mid] > q { hi := mid; } else { lo := mid + 1; }
      }
    }

    /** 1 exactly when [s, s + len) is recorded in full, 0 exactly when none of it is, 2 otherwise. For a range whose
        end wraps around only its first block counts. */
    method Query(s: nat, len: nat) returns (rc: nat)
      requires Valid() && s < U64 && len < U64
      ensures s + len < U64 ==> (rc == 1 <==> len > 0 && Range(s, len) <= Set())
      ensures s + len < U64 ==> (rc == 0 <==> Range(s, len) !! Set())
      ensures s + len >= U64 ==> rc == if s in Set() then 1 else 0
      ensures rc <= 2
    {
      if len == 0 {
        return 0;
      }
      var idx := FindFirst(s);
      rc := 0;
      if idx < count {
        var iS := starts[idx];
        var iE := iS + lens[idx];
        var qE := Sum64(s, len);
        assert List()[idx] == Interval(iS, lens[idx]);
        if iS <= s && iE >= qE { rc := 1; } else if iS < qE { rc := 2; }
      }
      if s + len < U64 { QueryMeaning(List(), idx, s, len); } else { FirstBlock(List(), idx, s); }
    }

    /** Insert [s, s + len); `memory` says whether a needed growth gets its memory. A range whose end wraps around
        leaves the array alone or spoils it. */
    method Add(s: nat, len: nat, memory: bool) returns (rc: int)
      requires Valid() && s < U64 && len < U64
      modifies this, starts, lens
      ensures Shape() && (rc == 0 && len > 0 ==> Added(old(List()), List(), s, len))
      ensures rc != 0 || len == 0 ==> List() == old(List())
      ensures rc != 0 ==> !memory
      ensures s + len < U64 ==> Valid() && (rc == 0 ==> Set() == old(Set()) + Range(s, len))
      ensures starts == old(starts) || fresh(starts)
      ensures lens == old(lens) || fresh(lens)
    {
      if len == 0 {
        assert Range(s, len) == {};
        return 0;
      }
      var e := Sum64(s, len);
      var lo, hi := FindTouching(s, e);
      SpliceAdds(List(), lo, hi, s, len);
      rc := Place(lo, hi, s, e, len, memory);
    }

    /** Merge [s, e) with the intervals it touches, or insert it where it touches none. */
    method Place(lo: nat, hi: nat, s: nat, e: nat, len: nat, memory: bool) returns (rc: int)
      requires Shape() && Canonical(List()) && lo <= hi <= count && s < U64 && len == Minus(e, s)
      modifies this, starts, lens
      ensures Shape()
      ensures rc == 0 ==> List() == Splice(old(List()), lo, hi, Hull(old(List()), lo, hi, s, e))
      ensures rc != 0 ==> !memory && List() == old(List())
      ensures starts == old(starts) || fresh(starts)
      ensures lens == old(lens) || fresh(lens)
    {
      if hi > lo {
        MergeInto(lo, hi, s, e);
      } else {
        if count >= starts.Length {
          if !memory {
            return -1;
          }
          Grow();
        }
        InsertAt(lo, s, len);
      }
      rc := 0;
    }

    /** The two bisections of an insertion. */
    method FindTouching(s: nat, e: nat) returns (lo: nat, hi: nat)
      requires Valid()
      ensures Touching(List(), lo, hi, s, e)
    {
      lo := FirstEndingFrom(s);
      hi := FirstStartingAfter(lo, e);
    }

    method FirstEndingFrom(s: nat) returns (lo: nat)
      requires Valid()
      ensures lo <= count
      ensures forall i | 0 <= i < lo :: List()[i].End() < s
      ensures forall i | lo <= i < count :: s <= List()[i].End()
    {
      var hi := count;
      lo := 0;
      while lo < hi
        invariant lo <= hi <= count
        invariant forall i | 0 <= i < lo :: List()[i].End() < s
        invariant forall i | hi <= i < count :: s <= List()[i].End()
      {
        var mid := (lo + hi) / 2;
        ghost var m := List()[mid];
        if starts[mid] + lens[mid] >= s { hi := mid; } else { lo := mid + 1; }
      }
    }

    method FirstStartingAfter(from: nat, e: nat) returns (lo: nat)
      requires Valid() && from <= count
      ensures from <= lo <= count
      ensures forall i | from <= i < lo :: List()[i].start <= e
      ensures forall i | lo <= i < count :: e < List()[i].start
    {
      var hi := count;
      lo := from;
      while lo < hi
        invariant from <= lo <= hi <= count
        invariant forall i | from <= i < lo :: List()[i].start <= e
        invariant forall i | hi <= i < count :: e < List()[i].start
      {
        var mid := (lo + hi) / 2;
        ghost var m := List()[mid];
        if starts[mid] > e { hi := mid; } else { lo := mid + 1; }
      }
    }

    /** Replace the intervals [lo, hi) by the hull. */
    method MergeInto(lo: nat, hi: nat, s: nat, e: nat)
      requires Shape() && Canonical(List()) && lo < hi <= count && s < U64
      modifies this`count, starts, lens
      ensures Shape()
      ensures List() == Splice(old(List()), lo, hi, Hull(old(List()), lo, hi, s, e))
    {
      StretchFirst(lo, hi, s, e);
      var gap := (hi - lo) - 1;
      if gap > 0 {
        CloseGap(lo + 1, gap);
      }
    }

    /** Put the hull in the place of the first interval. */
    method StretchFirst(lo: nat, hi: nat, s: nat, e: nat)
      requires Shape() && Canonical(List()) && lo < hi <= count && s < U64
      modifies starts, lens
      ensures Shape() && List() == old(List())[lo := Hull(old(List()), lo, hi, s, e)]
    {
      ghost var before := List();
      assert before[lo] == Interval(starts[lo], lens[lo]) && before[hi - 1] == Interval(starts[hi - 1], lens[hi - 1]);
      var newS := if starts[lo] < s then starts[lo] else s;
      var lastE := starts[hi - 1] + lens[hi - 1];
      var newE := if lastE > e then lastE else e;
      LastAfterFirst(before, lo, hi);
      starts[lo] := newS;
      lens[lo] := newE - newS;
      assert List() == before[lo := Hull(before, lo, hi, s, e)];
    }

    /** Remove the `gap` intervals from `at` on. */
    method CloseGap(at: nat, gap: nat)
      requires Shape() && at + gap <= count
      modifies this`count, starts, lens
      ensures Shape()
      ensures List() == old(List())[..at] + old(List())[at + gap..]
    {
      ghost var before := List();
      MoveDown(starts, at, gap, count);
      MoveDown(lens, at, gap, count);
      count := count - gap;
      GapClosed(before, List(), at, gap);
    }

    /** Double the capacity. */
    method Grow()
      requires Shape()
      modifies this`starts, this`lens
      ensures Shape() && List() == old(List())
      ensures starts.Length == 2 * old(starts.Length) && fresh(starts) && fresh(lens)
    {
      var ns, nl := new nat[2 * starts.Length], new nat[2 * lens.Length];
      forall i | 0 <= i < count { ns[i] := starts[i]; }
      forall i | 0 <= i < count { nl[i] := lens[i]; }
      ghost var before := List();
      starts, lens := ns, nl;
      assert List() == before;
    }

    /** Open a place at `lo` and put the new interval there. */
    method InsertAt(lo: nat, s: nat, len: nat)
      requires Shape() && lo <= count < starts.Length
      modifies this`count, starts, lens
      ensures Shape()
      ensures List() == Splice(old(List()), lo, lo, Interval(s, len))
    {
      ghost var before := List();
      forall i | lo < i <= count { starts[i] := starts[i - 1]; }
      forall i | lo < i <= count { lens[i] := lens[i - 1]; }
      starts[lo], lens[lo] := s, len;
      count := count + 1;
      forall i | 0 <= i < count
        ensures List()[i] == Splice(before, lo, lo, Interval(s, len))[i]
      {
        assert i < lo ==> before[i] == Interval(starts[i], lens[i]);
        assert i > lo ==> before[i - 1] == Interval(starts[i], lens[i]);
      }
    }

    method Stats() returns (n: nat, total: nat)
      requires Valid()
      ensures n == |List()| && total == |Set()|
    {
      n, total := count, 0;
      for i := 0 to count
        invariant total == TotalLen(List()[..i])
      {
        assert List()[..i + 1][..i] == List()[..i];
        total := total + lens[i];
      }
      assert List()[..count] == List();
      TotalIsCardinality(List());
    }
  }

  /** One interval decides the answer, because no two intervals touch. */
  lemma QueryMeaning(ivs: seq<Interval>, idx: nat, s: nat, len: nat)
    requires Canonical(ivs) && len > 0 && idx <= |ivs|
    requires forall i | 0 <= i < idx :: ivs[i].End() <= s
    requires forall i | idx <= i < |ivs| :: s < ivs[i].End()
    ensures Range(s, len) <= Blocks(ivs) <==>
            idx < |ivs| && ivs[idx].start <= s && s + len <= ivs[idx].End()
    ensures Range(s, len) !! Blocks(ivs) <==> !(idx < |ivs| && ivs[idx].start < s + len)
  {
    if idx == |ivs| || s < ivs[idx].start {
      Uncovered(ivs, idx, s);
      assert s in Range(s, len);
      StartsAhead(ivs, idx, s, len);
    } else {
      StartsInside(ivs, idx, s, len);
    }
  }

  lemma FirstBlock(ivs: seq<Interval>, idx: nat, s: nat)
    requires Canonical(ivs) && idx <= |ivs|
    requires forall i | 0 <= i < idx :: ivs[i].End() <= s
    requires forall i | idx <= i < |ivs| :: s < ivs[i].End()
    ensures s in Blocks(ivs) <==> idx < |ivs| && ivs[idx].start <= s
  {
    if idx < |ivs| && ivs[idx].start <= s {
      assert At(ivs, idx, s);
      InBlocks(ivs, s);
    } else {
      Uncovered(ivs, idx, s);
    }
  }

  /** Between interval `k - 1` and interval `k` nothing is covered. */
  lemma Uncovered(ivs: seq<Interval>, k: nat, b: nat)
    requires k <= |ivs|
    requires (forall i | 0 <= i < k :: ivs[i].End() <= b) && (k < |ivs| ==> b < ivs[k].start) && Canonical(ivs)
    ensures b !in Blocks(ivs)
  {
    InBlocks(ivs, b);
  }

  lemma StartsAhead(ivs: seq<Interval>, idx: nat, s: nat, len: nat)
    requires Canonical(ivs) && len > 0 && idx <= |ivs| && (idx < |ivs| ==> s < ivs[idx].start)
    requires forall i | 0 <= i < idx :: ivs[i].End() <= s
    ensures Range(s, len) !! Blocks(ivs) <==> !(idx < |ivs| && ivs[idx].start < s + len)
  {
    if idx < |ivs| && ivs[idx].start < s + len {
      assert At(ivs, idx, ivs[idx].start);
      InBlocks(ivs, ivs[idx].start);
      assert ivs[idx].start in Range(s, len);
    } else {
      forall b | b in Range(s, len) ensures b !in Blocks(ivs) { Uncovered(ivs, idx, b); }
    }
  }

  lemma StartsInside(ivs: seq<Interval>, idx: nat, s: nat, len: nat)
    requires Canonical(ivs) && len > 0 && idx < |ivs| && ivs[idx].start <= s < ivs[idx].End()
    requires forall i | 0 <= i < idx :: ivs[i].End() <= s
    ensures Range(s, len) <= Blocks(ivs) <==> s + len <= ivs[idx].End()
    ensures !(Range(s, len) !! Blocks(ivs))
  {
    var end := ivs[idx].End();
    IntervalHolds(ivs, idx, s, 1);
    assert s in Range(s, 1) && s in Range(s, len);
    if end < s + len {
      assert idx + 1 < |ivs| ==> end < ivs[idx + 1].start;
      Uncovered(ivs, idx + 1, end);
      assert end in Range(s, len);
    } else {
      IntervalHolds(ivs, idx, s, len);
    }
  }

  lemma IntervalHolds(ivs: seq<Interval>, idx: nat, s: nat, len: nat)
    requires idx < |ivs| && ivs[idx].start <= s && s + len <= ivs[idx].End()
    ensures Range(s, len) <= Blocks(ivs)
  {
    forall b | b in Range(s, len) ensures b in Blocks(ivs) {
      assert At(ivs, idx, b);
      InBlocks(ivs, b);
    }
  }

  /** Two sets of equal content hold identical arrays, whatever was added to them and in which order. */
  lemma SameSetSameList(a: RecoveredIntervals, b: RecoveredIntervals)
    requires a.Valid() && b.Valid() && a.Set() == b.Set()
    ensures a.List() == b.List()
  {
    CanonicalUnique(a.List(), b.List());
  }

  /** After any history of insertions the set is the union of what was inserted. */
  method Replay(history: seq<Interval>) returns (r: RecoveredIntervals)
    requires forall i | 0 <= i < |history| :: history[i].End() < U64
    ensures r.Valid() && r.Set() == Blocks(history)
  {
    r := new RecoveredIntervals();
    for i := 0 to |history|
      invariant r.Valid() && fresh(r) && fresh(r.starts) && fresh(r.lens)
      invariant r.Set() == Blocks(history[..i])
    {
      var rc := r.Add(history[i].start, history[i].len, true);
      assert history[..i + 1][..i] == history[..i];
    }
    assert history[..|history|] == history;
  }
}
