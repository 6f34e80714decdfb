/** Files mapped by indirect blocks (improved/indirect_recovery.c): the walk over direct, single and double indirect
    pointers that appends blocks to the output, against the block map of the file. */
module IndirectFiles {
  import opened Arithmetic
  import opened Collections

  const DIRECT: nat := 12
  const MAX_IND_BLOCKS: nat := 1024 * 1024

  /** What the walk uses of an inode: flag, size and the first fourteen block pointers. */
  datatype Inode = Inode(extents: bool, size: nat, ptrs: seq<nat>)
  {
    predicate Valid() { |ptrs| == DIRECT + 2 }
  }

  predicate Good(total: nat, b: nat) {
    0 < b < total
  }

  /** A device as the walk sees it: how many blocks, and the pointers each would hold as an indirect block, none if it
      cannot be read. */
  datatype Table = Table(total: nat, per: nat, pointers: nat -> seq<nat>)
  {
    ghost predicate Valid() {
      per > 0 && forall b: nat | b < total :: pointers(b) == [] || |pointers(b)| == per
    }
  }

  // ----- the block map of a file -----

  /** Physical block of logical block `l`; not a good block if there is none. */
  function BlockOf(t: Table, f: Inode, l: nat): nat
    requires t.Valid() && f.Valid()
  {
    var n := t.per;
    if l < DIRECT then f.ptrs[l]
    else if l < DIRECT + n then Entry(t, f.ptrs[DIRECT], l - DIRECT)
    else
      var m := l - DIRECT - n;
      Entry(t, Entry(t, f.ptrs[DIRECT + 1], m / n), m % n)
  }

  /** Pointer number `k` of the indirect block `b`. */
  function Entry(t: Table, b: nat, k: nat): nat
    requires t.Valid()
  {
    if Good(t.total, b) && k < |t.pointers(b)| then t.pointers(b)[k] else 0
  }

  predicate Mapped(t: Table, f: Inode, l: nat)
    requires t.Valid() && f.Valid()
  {
    Good(t.total, BlockOf(t, f, l))
  }

  // ----- what the walk collects -----

  /** A block of output and the logical block whose pointer it was found at. */
  datatype Piece = Piece(logical: nat, phys: nat)

  /** The pointers up to the first bad one. */
  function Leading(total: nat, ps: seq<nat>, base: nat): seq<Piece> {
    if ps == [] || !Good(total, ps[0]) then [] else [Piece(base, ps[0])] + Leading(total, ps[1..], base + 1)
  }

  function Single(t: Table, b: nat, base: nat): seq<Piece>
    requires t.Valid()
  {
    if Good(t.total, b) then Leading(t.total, t.pointers(b), base) else []
  }

  /** The indirect blocks up to the first bad one. */
  function Many(t: Table, bs: seq<nat>, base: nat): seq<Piece>
    requires t.Valid()
  {
    if bs == [] || !Good(t.total, bs[0]) then [] else Single(t, bs[0], base) + Many(t, bs[1..], base + t.per)
  }

  function Double(t: Table, b: nat, base: nat): seq<Piece>
    requires t.Valid()
  {
    if Good(t.total, b) then Many(t, t.pointers(b), base) else []
  }

  function Chain(t: Table, f: Inode): seq<Piece>
    requires t.Valid() && f.Valid()
  {
    Directs(t, f) + Indirects(t, f) + DoubleIndirects(t, f)
  }

  function Directs(t: Table, f: Inode): seq<Piece>
    requires f.Valid()
  {
    Leading(t.total, f.ptrs[..DIRECT], 0)
  }

  function Indirects(t: Table, f: Inode): seq<Piece>
    requires t.Valid() && f.Valid()
  {
    Single(t, f.ptrs[DIRECT], DIRECT)
  }

  function DoubleIndirects(t: Table, f: Inode): seq<Piece>
    requires t.Valid() && f.Valid()
  {
    Double(t, f.ptrs[DIRECT + 1], DIRECT + t.per)
  }

  /** What the walk puts out: the chain, up to the block limit. */
  function Output(t: Table, f: Inode): seq<Piece>
    requires t.Valid() && f.Valid()
  {
    Take(Chain(t, f), MAX_IND_BLOCKS)
  }

  // ----- every piece is where its label says, and labels ascend -----

  /** The pieces carry ascending labels from `lo` on, below `hi`. */
  ghost predicate Ascending(s: seq<Piece>, lo: nat, hi: nat) {
    && (forall i | 0 <= i < |s| :: lo <= s[i].logical < hi)
    && (forall i, j | 0 <= i < j < |s| :: s[i].logical < s[j].logical)
  }

  lemma {:induction false} AscendingAppend(a: seq<Piece>, b: seq<Piece>, lo: nat, mid: nat, hi: nat)
    requires lo <= mid <= hi && Ascending(a, lo, mid) && Ascending(b, mid, hi)
    ensures Ascending(a + b, lo, hi)
  {
  }

  lemma {:induction false} LeadingAt(total: nat, ps: seq<nat>, base: nat, k: nat)
    requires k < |Leading(total, ps, base)|
    ensures k < |ps| && Leading(total, ps, base)[k] == Piece(base + k, ps[k]) && Good(total, ps[k])
  {
    if k > 0 { LeadingAt(total, ps[1..], base + 1, k - 1); }
  }

  lemma {:induction false} LeadingAscends(total: nat, ps: seq<nat>, base: nat)
    ensures Ascending(Leading(total, ps, base), base, base + |ps|)
  {
    forall k | 0 <= k < |Leading(total, ps, base)|
      ensures k < |ps| && Leading(total, ps, base)[k].logical == base + k
    {
      LeadingAt(total, ps, base, k);
    }
  }

  /** As long as all pointers are good, each is taken. */
  lemma {:induction false} LeadingReaches(total: nat, ps: seq<nat>, base: nat, k: nat)
    requires k < |ps| && forall j | 0 <= j <= k :: Good(total, ps[j])
    ensures k < |Leading(total, ps, base)|
  {
    if k > 0 { LeadingReaches(total, ps[1..], base + 1, k - 1); }
  }

  /** Entry number `m` of the indirect blocks `bs` laid end to end. */
  function Row(t: Table, bs: seq<nat>, m: nat): nat
    requires t.Valid()
  {
    if bs == [] then 0
    else if m < t.per then Entry(t, bs[0], m)
    else Row(t, bs[1..], m - t.per)
  }

  /** All of the first `m + 1` entries are good. */
  ghost predicate RowsGood(t: Table, bs: seq<nat>, m: nat)
    requires t.Valid()
  {
    forall j: nat | j <= m :: Good(t.total, Row(t, bs, j))
  }

  lemma {:induction false} SingleAt(t: Table, b: nat, base: nat, k: nat)
    requires t.Valid() && k < |Single(t, b, base)|
    ensures k < t.per && Single(t, b, base)[k] == Piece(base + k, Entry(t, b, k)) && Good(t.total, Entry(t, b, k))
  {
    LeadingAt(t.total, t.pointers(b), base, k);
  }

  lemma {:induction false} SingleAscends(t: Table, b: nat, base: nat)
    requires t.Valid()
    ensures Ascending(Single(t, b, base), base, base + t.per)
  {
    if Good(t.total, b) { LeadingAscends(t.total, t.pointers(b), base); }
  }

  lemma {:induction false} SingleReaches(t: Table, b: nat, base: nat, k: nat)
    requires t.Valid() && forall j: nat | j <= k :: Good(t.total, Entry(t, b, j))
    ensures k < |Single(t, b, base)| && Single(t, b, base)[k].logical == base + k
  {
    assert Good(t.total, Entry(t, b, k)) && Good(t.total, Entry(t, b, 0));
    forall j | 0 <= j <= k ensures Good(t.total, t.pointers(b)[j]) {
      assert Good(t.total, Entry(t, b, j));
    }
    LeadingReaches(t.total, t.pointers(b), base, k);
    LeadingAt(t.total, t.pointers(b), base, k);
  }

  /** `p` is the piece for an entry of the rows. */
  ghost predicate FromRows(t: Table, bs: seq<nat>, base: nat, p: Piece)
    requires t.Valid()
  {
    base <= p.logical && p.phys == Row(t, bs, p.logical - base) && Good(t.total, p.phys)
  }

  lemma {:induction false} ManyAt(t: Table, bs: seq<nat>, base: nat, k: nat)
    requires t.Valid() && k < |Many(t, bs, base)|
    ensures FromRows(t, bs, base, Many(t, bs, base)[k])
    decreases |bs|
  {
    var first, next := Single(t, bs[0], base), base + t.per;
    var rest := Many(t, bs[1..], next);
    assert Many(t, bs, base) == first + rest;
    if k < |first| {
      FromFirstRow(t, bs, base, k);
    } else {
      ManyAt(t, bs[1..], next, k - |first|);
      FromLaterRows(t, bs, base, next, rest[k - |first|]);
    }
  }

  lemma {:induction false} FromFirstRow(t: Table, bs: seq<nat>, base: nat, k: nat)
    requires t.Valid() && bs != [] && k < |Single(t, bs[0], base)|
    ensures FromRows(t, bs, base, Single(t, bs[0], base)[k])
  {
    SingleAt(t, bs[0], base, k);
    assert base + k - base == k;
  }

  lemma {:induction false} FromLaterRows(t: Table, bs: seq<nat>, base: nat, next: nat, p: Piece)
    requires t.Valid() && bs != [] && next == base + t.per && FromRows(t, bs[1..], next, p)
    ensures FromRows(t, bs, base, p)
  {
    var m := p.logical - base;
    assert m - t.per == p.logical - next;
  }

  function Span(t: Table, rows: nat): nat {
    if rows == 0 then 0 else t.per + Span(t, rows - 1)
  }

  lemma {:induction false} ManyAscends(t: Table, bs: seq<nat>, base: nat)
    requires t.Valid()
    ensures Ascending(Many(t, bs, base), base, base + Span(t, |bs|))
    decreases |bs|
  {
    if bs != [] && Good(t.total, bs[0]) {
      var mid := base + t.per;
      SingleAscends(t, bs[0], base);
      ManyAscends(t, bs[1..], mid);
      AscendingAppend(Single(t, bs[0], base), Many(t, bs[1..], mid), base, mid, base + Span(t, |bs|));
    }
  }

  /** If the first row is good throughout, it is taken as a whole. */
  lemma {:induction false} FullRow(t: Table, bs: seq<nat>, base: nat, m: nat)
    requires t.Valid() && bs != [] && RowsGood(t, bs, m) && m + 1 >= t.per
    ensures Good(t.total, bs[0]) && |Single(t, bs[0], base)| == t.per
  {
    FirstRow(t, bs, base, t.per - 1);
    SingleAscends(t, bs[0], base);
    SingleAt(t, bs[0], base, |Single(t, bs[0], base)| - 1);
  }

  lemma {:induction false} FirstRow(t: Table, bs: seq<nat>, base: nat, m: nat)
    requires t.Valid() && bs != [] && RowsGood(t, bs, m) && m < t.per
    ensures Good(t.total, bs[0]) && m < |Single(t, bs[0], base)| && Single(t, bs[0], base)[m].logical == base + m
  {
    assert Good(t.total, Row(t, bs, 0));
    forall j: nat | j <= m ensures Good(t.total, Entry(t, bs[0], j)) {
      assert Good(t.total, Row(t, bs, j));
    }
    SingleReaches(t, bs[0], base, m);
  }

  lemma {:induction false} LaterRows(t: Table, bs: seq<nat>, m: nat)
    requires t.Valid() && bs != [] && RowsGood(t, bs, m) && m >= t.per
    ensures RowsGood(t, bs[1..], m - t.per)
  {
    forall j: nat | j <= m - t.per ensures Good(t.total, Row(t, bs[1..], j)) {
      assert Good(t.total, Row(t, bs, t.per + j));
    }
  }

  lemma {:induction false} ManyReaches(t: Table, bs: seq<nat>, base: nat, m: nat)
    requires t.Valid() && RowsGood(t, bs, m)
    ensures m < |Many(t, bs, base)| && Many(t, bs, base)[m].logical == base + m
    decreases |bs|
  {
    var n := t.per;
    assert Good(t.total, Row(t, bs, 0));
    if m < n {
      FirstRow(t, bs, base, m);
    } else {
      FullRow(t, bs, base, m);
      LaterRows(t, bs, m);
      ManyReaches(t, bs[1..], base + n, m - n);
      assert Many(t, bs, base) == Single(t, bs[0], base) + Many(t, bs[1..], base + n);
    }
  }

  /** Rows laid end to end: entry `r` of row `q`. */
  lemma {:induction false} RowIsEntry(t: Table, bs: seq<nat>, m: nat, q: nat, r: nat)
    requires t.Valid() && r < t.per && m == Span(t, q) + r
    ensures Row(t, bs, m) == Cell(t, bs, q, r)
    decreases |bs|
  {
    if bs != [] && q > 0 {
      RowIsEntry(t, bs[1..], m - t.per, q - 1, r);
      CellShift(t, bs, q - 1, r);
    }
  }

  lemma {:induction false} SpanIsProduct(t: Table, q: nat)
    ensures Span(t, q) == q * t.per
  {
    if q > 0 {
      SpanIsProduct(t, q - 1);
      assert q * t.per == (q - 1) * t.per + t.per;
    }
  }

  function Cell(t: Table, bs: seq<nat>, q: nat, r: nat): nat
    requires t.Valid()
  {
    if q < |bs| then Entry(t, bs[q], r) else 0
  }

  lemma {:induction false} CellShift(t: Table, bs: seq<nat>, q: nat, r: nat)
    requires t.Valid() && bs != []
    ensures Cell(t, bs[1..], q, r) == Cell(t, bs, q + 1, r)
  {
  }

  /** The double indirect part of the map. */
  lemma {:induction false} DoublePart(t: Table, f: Inode, m: nat)
    requires t.Valid() && f.Valid()
    ensures var b, l := f.ptrs[DIRECT + 1], DIRECT + t.per + m;
      BlockOf(t, f, l) == if Good(t.total, b) then Row(t, t.pointers(b), m) else 0
  {
    var b, n := f.ptrs[DIRECT + 1], t.per;
    Quotient(m, n);
    SpanIsProduct(t, m / n);
    if Good(t.total, b) { RowIsEntry(t, t.pointers(b), m, m / n, m % n); }
  }

  // ----- the walk against the map -----

  ghost predicate TrueTo(t: Table, f: Inode, s: seq<Piece>)
    requires t.Valid() && f.Valid()
  {
    forall k | 0 <= k < |s| :: s[k].phys == BlockOf(t, f, s[k].logical) && Good(t.total, s[k].phys)
  }

  lemma {:induction false} DirectTrue(t: Table, f: Inode)
    requires t.Valid() && f.Valid()
    ensures TrueTo(t, f, Directs(t, f))
  {
    var s := Directs(t, f);
    forall k | 0 <= k < |s| ensures s[k].phys == BlockOf(t, f, s[k].logical) && Good(t.total, s[k].phys) {
      LeadingAt(t.total, f.ptrs[..DIRECT], 0, k);
    }
  }

  lemma {:induction false} IndirectTrue(t: Table, f: Inode)
    requires t.Valid() && f.Valid()
    ensures TrueTo(t, f, Indirects(t, f))
  {
    var s := Indirects(t, f);
    forall k | 0 <= k < |s| ensures s[k].phys == BlockOf(t, f, s[k].logical) && Good(t.total, s[k].phys) {
      SingleAt(t, f.ptrs[DIRECT], DIRECT, k);
    }
  }

  lemma {:induction false} DoubleTrue(t: Table, f: Inode)
    requires t.Valid() && f.Valid()
    ensures TrueTo(t, f, DoubleIndirects(t, f))
  {
    var base := DIRECT + t.per;
    var s := DoubleIndirects(t, f);
    forall k | 0 <= k < |s| ensures s[k].phys == BlockOf(t, f, s[k].logical) && Good(t.total, s[k].phys) {
      ManyAt(t, t.pointers(f.ptrs[DIRECT + 1]), base, k);
      DoublePart(t, f, s[k].logical - base);
    }
  }

  lemma {:induction false} TrueAppend(t: Table, f: Inode, a: seq<Piece>, b: seq<Piece>)
    requires t.Valid() && f.Valid() && TrueTo(t, f, a) && TrueTo(t, f, b)
    ensures TrueTo(t, f, a + b)
  {
  }

  /** Every piece carries the logical block whose content it is. */
  lemma {:induction false} ChainTrue(t: Table, f: Inode)
    requires t.Valid() && f.Valid()
    ensures TrueTo(t, f, Chain(t, f))
  {
    var direct, single := Directs(t, f), Indirects(t, f);
    DirectTrue(t, f);
    IndirectTrue(t, f);
    DoubleTrue(t, f);
    TrueAppend(t, f, direct, single);
    TrueAppend(t, f, direct + single, DoubleIndirects(t, f));
  }

  lemma {:induction false} DoubleAscends(t: Table, b: nat, base: nat)
    requires t.Valid()
    ensures Ascending(Double(t, b, base), base, base + Span(t, t.per))
  {
    if Good(t.total, b) { ManyAscends(t, t.pointers(b), base); }
  }

  lemma {:induction false} ThreeAscend(a: seq<Piece>, b: seq<Piece>, c: seq<Piece>, k0: nat, k1: nat, k2: nat, k3: nat)
    requires k0 <= k1 <= k2 <= k3 && Ascending(a, k0, k1) && Ascending(b, k1, k2) && Ascending(c, k2, k3)
    ensures Ascending(a + b + c, k0, k3)
  {
    AscendingAppend(a, b, k0, k1, k2);
    AscendingAppend(a + b, c, k0, k2, k3);
  }

  lemma {:induction false} ChainAscends(t: Table, f: Inode)
    requires t.Valid() && f.Valid()
    ensures var n := t.per; Ascending(Chain(t, f), 0, DIRECT + n + Span(t, n))
  {
    var n := t.per;
    var direct, single := Directs(t, f), Indirects(t, f);
    var double := DoubleIndirects(t, f);
    LeadingAscends(t.total, f.ptrs[..DIRECT], 0);
    SingleAscends(t, f.ptrs[DIRECT], DIRECT);
    DoubleAscends(t, f.ptrs[DIRECT + 1], DIRECT + n);
    ThreeAscend(direct, single, double, 0, DIRECT, DIRECT + n, DIRECT + n + Span(t, n));
  }

  ghost predicate NoHole(t: Table, f: Inode, l: nat)
    requires t.Valid() && f.Valid()
  {
    forall j: nat | j <= l :: Mapped(t, f, j)
  }

  lemma {:induction false} DirectReaches(t: Table, f: Inode, l: nat)
    requires t.Valid() && f.Valid() && l < DIRECT && NoHole(t, f, l)
    ensures var s := Directs(t, f); l < |s| <= DIRECT && s[l].logical == l
  {
    forall j | 0 <= j <= l ensures Good(t.total, f.ptrs[..DIRECT][j]) {
      assert Mapped(t, f, j);
    }
    LeadingReaches(t.total, f.ptrs[..DIRECT], 0, l);
    LeadingAt(t.total, f.ptrs[..DIRECT], 0, l);
    LeadingAt(t.total, f.ptrs[..DIRECT], 0, |Leading(t.total, f.ptrs[..DIRECT], 0)| - 1);
  }

  lemma {:induction false} IndirectReaches(t: Table, f: Inode, l: nat)
    requires t.Valid() && f.Valid() && DIRECT <= l < DIRECT + t.per && NoHole(t, f, l)
    ensures var s := Indirects(t, f);
      l - DIRECT < |s| <= t.per && s[l - DIRECT].logical == l
  {
    forall j: nat | j <= l - DIRECT ensures Good(t.total, Entry(t, f.ptrs[DIRECT], j)) {
      assert Mapped(t, f, DIRECT + j);
    }
    SingleReaches(t, f.ptrs[DIRECT], DIRECT, l - DIRECT);
    SingleAt(t, f.ptrs[DIRECT], DIRECT, |Single(t, f.ptrs[DIRECT], DIRECT)| - 1);
  }

  lemma {:induction false} DoubleReaches(t: Table, f: Inode, l: nat)
    requires t.Valid() && f.Valid() && DIRECT + t.per <= l && NoHole(t, f, l)
    ensures var s, m := DoubleIndirects(t, f), l - DIRECT - t.per;
      m < |s| && s[m].logical == l
  {
    var b, base := f.ptrs[DIRECT + 1], DIRECT + t.per;
    forall j: nat | j <= l - base ensures Good(t.total, b) && Good(t.total, Row(t, t.pointers(b), j)) {
      RowGoodAt(t, f, l, j);
    }
    RowGoodAt(t, f, l, 0);
    ManyReaches(t, t.pointers(b), base, l - base);
  }

  lemma {:induction false} RowGoodAt(t: Table, f: Inode, l: nat, j: nat)
    requires t.Valid() && f.Valid() && NoHole(t, f, l) && DIRECT + t.per + j <= l
    ensures var b := f.ptrs[DIRECT + 1]; Good(t.total, b) && Good(t.total, Row(t, t.pointers(b), j))
  {
    DoublePart(t, f, j);
    assert Mapped(t, f, DIRECT + t.per + j);
  }

  /** Without holes up to `l` the walk gets as far as `l` and puts its block in place `l`. */
  lemma {:induction false} ChainReaches(t: Table, f: Inode, l: nat)
    requires t.Valid() && f.Valid() && NoHole(t, f, l)
    ensures l < |Chain(t, f)| && Chain(t, f)[l].logical == l
  {
    var n := t.per;
    var direct, single := Directs(t, f), Indirects(t, f);
    var double := DoubleIndirects(t, f);
    DirectReaches(t, f, if l < DIRECT then l else DIRECT - 1);
    if l >= DIRECT { IndirectReaches(t, f, if l < DIRECT + n then l else DIRECT + n - 1); }
    if l >= DIRECT + n { DoubleReaches(t, f, l); }
    ThreeReach(direct, single, double, DIRECT, n, l);
  }

  /** If each part is complete as far as `l` needs it, piece `l` of all three is in place. */
  lemma {:induction false} ThreeReach(a: seq<Piece>, b: seq<Piece>, c: seq<Piece>, d: nat, n: nat, l: nat)
    requires |a| <= d && (if l < d then l < |a| && a[l].logical == l else |a| == d)
    requires (d <= l < d + n ==> l - d < |b| && b[l - d].logical == l) && (l >= d + n ==> |b| == n)
    requires l >= d + n ==> l - d - n < |c| && c[l - d - n].logical == l
    ensures l < |a + b + c| && (a + b + c)[l].logical == l
  {
    PartOfThree(a, b, c, l);
  }

  lemma {:induction false} PartOfThree<T>(a: seq<T>, b: seq<T>, c: seq<T>, l: nat)
    requires l < |a| + |b| + |c|
    ensures (a + b + c)[l] ==
            if l < |a| then a[l] else if l < |a| + |b| then b[l - |a|] else c[l - |a| - |b|]
  {
  }

  /** In ascending labels, nothing can be left out before a label that equals its index. */
  lemma {:induction false} LabelsDense(s: seq<Piece>, hi: nat, l: nat)
    requires Ascending(s, 0, hi) && l < |s|
    ensures s[l].logical >= l
    ensures s[l].logical == l ==> forall j | 0 <= j <= l :: s[j].logical == j
  {
    if l > 0 { LabelsDense(s, hi, l - 1); }
  }

  /** Exactly when there is no hole up to `l`, logical block `l` comes out in its own place. */
  lemma {:induction false} OwnPlace(t: Table, f: Inode, l: nat)
    requires t.Valid() && f.Valid() && l < MAX_IND_BLOCKS
    ensures var out := Output(t, f);
      l < |out| && out[l] == Piece(l, BlockOf(t, f, l)) <==> NoHole(t, f, l)
  {
    var s := Chain(t, f);
    ChainTrue(t, f);
    ChainAscends(t, f);
    if NoHole(t, f, l) {
      ChainReaches(t, f, l);
    } else if l < |s| && s[l].logical == l {
      LabelsDense(s, DIRECT + t.per + Span(t, t.per), l);
      forall j: nat | j <= l ensures Mapped(t, f, j) {
        assert s[j].logical == j;
      }
    }
  }

  /** With a hole among the direct blocks, the first indirect block comes out in the hole's place. */
  lemma {:induction false} HoleIsFilled(t: Table, f: Inode, h: nat)
    requires t.Valid() && f.Valid() && h < DIRECT && !Good(t.total, f.ptrs[h]) && (h > 0 ==> NoHole(t, f, h - 1))
    requires Mapped(t, f, DIRECT)
    ensures h < |Chain(t, f)| && Chain(t, f)[h] == Piece(DIRECT, BlockOf(t, f, DIRECT))
  {
    var direct := Leading(t.total, f.ptrs[..DIRECT], 0);
    if h > 0 { DirectReaches(t, f, h - 1); }
    if |direct| > h { LeadingAt(t.total, f.ptrs[..DIRECT], 0, h); }
    assert |direct| == h;
    LeadingReaches(t.total, t.pointers(f.ptrs[DIRECT]), DIRECT, 0);
    SingleAt(t, f.ptrs[DIRECT], DIRECT, 0);
  }

  // ----- exactly which blocks come out -----

  /** A piece of `s` is labelled `l`. */
  ghost predicate Labelled(s: seq<Piece>, l: nat) {
    exists i :: 0 <= i < |s| && s[i].logical == l
  }

  /** The first `k + 1` entries of the indirect block `b` are all good. */
  ghost predicate GoodUpTo(t: Table, b: nat, k: nat)
    requires t.Valid()
  {
    forall j: nat | j <= k :: Good(t.total, Entry(t, b, j))
  }

  lemma {:induction false} LeadingExactly(total: nat, ps: seq<nat>, base: nat, k: nat)
    ensures Labelled(Leading(total, ps, base), base + k) <==> k < |ps| && forall j | 0 <= j <= k :: Good(total, ps[j])
  {
    var s := Leading(total, ps, base);
    if k < |s| {
      forall j | 0 <= j <= k ensures j < |ps| && Good(total, ps[j]) {
        LeadingAt(total, ps, base, j);
      }
      LeadingAt(total, ps, base, k);
    }
    if i :| 0 <= i < |s| && s[i].logical == base + k { LeadingAt(total, ps, base, i); }
    if k < |ps| && forall j | 0 <= j <= k :: Good(total, ps[j]) { LeadingReaches(total, ps, base, k); }
  }

  lemma {:induction false} SingleExactly(t: Table, b: nat, base: nat, k: nat)
    requires t.Valid()
    ensures Labelled(Single(t, b, base), base + k) <==> GoodUpTo(t, b, k)
  {
    if Good(t.total, b) {
      LeadingExactly(t.total, t.pointers(b), base, k);
      if GoodUpTo(t, b, k) {
        assert Good(t.total, Entry(t, b, k));
        forall j | 0 <= j <= k ensures Good(t.total, t.pointers(b)[j]) {
          assert Good(t.total, Entry(t, b, j));
        }
      }
    } else {
      assert !Good(t.total, Entry(t, b, 0));
    }
  }

  /** Entry `m` of the rows is reached: all rows up to its own are good blocks, and in its own all entries up to it. */
  ghost predicate RowReached(t: Table, bs: seq<nat>, m: nat)
    requires t.Valid()
    decreases |bs|
  {
    && bs != [] && Good(t.total, bs[0])
    && if m < t.per then GoodUpTo(t, bs[0], m) else RowReached(t, bs[1..], m - t.per)
  }

  lemma LabelledAppend(a: seq<Piece>, b: seq<Piece>, lo: nat, mid: nat, hi: nat, l: nat)
    requires Ascending(a, lo, mid) && Ascending(b, mid, hi)
    ensures Labelled(a + b, l) <==> if l < mid then Labelled(a, l) else Labelled(b, l)
  {
    if i :| 0 <= i < |a| && a[i].logical == l { assert (a + b)[i].logical == l; }
    if i :| 0 <= i < |b| && b[i].logical == l { assert (a + b)[|a| + i].logical == l; }
    if i :| 0 <= i < |a + b| && (a + b)[i].logical == l {
      assert if i < |a| then a[i].logical == l else b[i - |a|].logical == l;
    }
  }

  lemma {:induction false} ManyExactly(t: Table, bs: seq<nat>, base: nat, m: nat)
    requires t.Valid()
    ensures Labelled(Many(t, bs, base), base + m) <==> RowReached(t, bs, m)
    decreases |bs|
  {
    if bs != [] && Good(t.total, bs[0]) {
      var mid := base + t.per;
      SingleAscends(t, bs[0], base);
      ManyAscends(t, bs[1..], mid);
      LabelledAppend(Single(t, bs[0], base), Many(t, bs[1..], mid), base, mid, mid + Span(t, |bs| - 1), base + m);
      if m < t.per {
        SingleExactly(t, bs[0], base, m);
      } else {
        ManyExactly(t, bs[1..], mid, m - t.per);
        assert base + m == mid + (m - t.per);
      }
    }
  }

  lemma {:induction false} RowReachedMeans(t: Table, bs: seq<nat>, m: nat, r: nat, k: nat)
    requires t.Valid() && m == r * t.per + k && k < t.per
    ensures RowReached(t, bs, m) <==>
            r < |bs| && (forall j | 0 <= j <= r :: Good(t.total, bs[j])) && GoodUpTo(t, bs[r], k)
    decreases |bs|
  {
    if bs != [] {
      if r == 0 {
        assert m == k;
      } else {
        TimesNext(r - 1, t.per);
        RowReachedMeans(t, bs[1..], m - t.per, r - 1, k);
        assert r < |bs| ==> bs[1..][r - 1] == bs[r];
        if r < |bs| && (forall j | 0 <= j < r :: Good(t.total, bs[1..][j])) && Good(t.total, bs[0]) {
          assert forall j | 0 < j <= r :: bs[j] == bs[1..][j - 1];
        }
      }
    }
  }

  /** The walk reaches logical block `l`: no hole comes before it in its own pointer block, and no bad row before its
      row. */
  ghost predicate Reached(t: Table, f: Inode, l: nat)
    requires t.Valid() && f.Valid()
  {
    if l < 12 then forall j | 0 <= j <= l :: Good(t.total, f.ptrs[j])
    else if l < 12 + t.per then GoodUpTo(t, f.ptrs[12], l - 12)
    else
      var m := l - 12 - t.per;
      GoodUpTo(t, f.ptrs[13], m / t.per) && GoodUpTo(t, Entry(t, f.ptrs[13], m / t.per), m % t.per)
  }

  lemma ThreeLabelled(a: seq<Piece>, b: seq<Piece>, c: seq<Piece>, d: nat, e: nat, hi: nat, l: nat)
    requires d <= e <= hi && Ascending(a, 0, d) && Ascending(b, d, e) && Ascending(c, e, hi)
    ensures Labelled(a + b + c, l) <==>
            if l < d then Labelled(a, l) else if l < e then Labelled(b, l) else Labelled(c, l)
  {
    AscendingAppend(a, b, 0, d, e);
    LabelledAppend(a, b, 0, d, e, l);
    LabelledAppend(a + b, c, 0, e, hi, l);
  }

  lemma PartsAscend(t: Table, f: Inode, a: seq<Piece>, b: seq<Piece>, c: seq<Piece>)
    requires t.Valid() && f.Valid() && a == Directs(t, f) && b == Indirects(t, f) && c == DoubleIndirects(t, f)
    ensures Ascending(a, 0, 12) && Ascending(b, 12, 12 + t.per)
    ensures Ascending(c, 12 + t.per, 12 + t.per + Span(t, t.per))
  {
    LeadingAscends(t.total, f.ptrs[..12], 0);
    SingleAscends(t, f.ptrs[12], 12);
    DoubleAscends(t, f.ptrs[13], 12 + t.per);
  }

  lemma ChainLabelled(t: Table, f: Inode, l: nat, a: seq<Piece>, b: seq<Piece>, c: seq<Piece>)
    requires t.Valid() && f.Valid() && a == Directs(t, f) && b == Indirects(t, f) && c == DoubleIndirects(t, f)
    ensures Labelled(Chain(t, f), l) <==>
            if l < 12 then Labelled(a, l) else if l < 12 + t.per then Labelled(b, l) else Labelled(c, l)
  {
    PartsAscend(t, f, a, b, c);
    ThreeLabelled(a, b, c, 12, 12 + t.per, 12 + t.per + Span(t, t.per), l);
  }

  /** What comes out is exactly what is reached: with the pieces in ascending order (ChainAscends), each its label's
      block (ChainTrue), this says what the walk puts out, whatever the pointers. */
  lemma ChainExactly(t: Table, f: Inode, l: nat)
    requires t.Valid() && f.Valid()
    ensures Labelled(Chain(t, f), l) <==> Reached(t, f, l)
  {
    ChainLabelled(t, f, l, Directs(t, f), Indirects(t, f), DoubleIndirects(t, f));
    if l < 12 {
      LeadingExactly(t.total, f.ptrs[..12], 0, l);
      assert forall j | 0 <= j <= l :: f.ptrs[..12][j] == f.ptrs[j];
    } else if l < 12 + t.per {
      SingleExactly(t, f.ptrs[12], 12, l - 12);
    } else {
      DoubleExactly(t, f.ptrs[13], 12 + t.per, l - 12 - t.per);
    }
  }

  lemma DoubleExactly(t: Table, b: nat, base: nat, m: nat)
    requires t.Valid()
    ensures Labelled(Double(t, b, base), base + m) <==>
            GoodUpTo(t, b, m / t.per) && GoodUpTo(t, Entry(t, b, m / t.per), m % t.per)
  {
    var r, k := m / t.per, m % t.per;
    Quotient(m, t.per);
    if Good(t.total, b) {
      var bs := t.pointers(b);
      ManyExactly(t, bs, base, m);
      RowReachedMeans(t, bs, m, r, k);
      forall j: nat ensures Good(t.total, Entry(t, b, j)) <==> j < |bs| && Good(t.total, bs[j]) {
      }
    } else {
      assert !Good(t.total, Entry(t, b, 0));
    }
  }
}
