/** Which journal copy of an inode ends up as its output (improved/journal_recovery_v5.c:207-274, 748-768). */
module Versions {
  import opened Collections

  const MAX_RECOVERED_INODES: nat := 65536

  /** What recovering a copy does: writes the output, keeps the existing one, or fails. */
  datatype Outcome = Written | Kept | Failed

  /** A journal copy of a deleted inode that reaches the selection, with what its recovery would do. */
  datatype Copy = Copy(ino: nat, seqno: nat, size: nat, live: bool, outcome: Outcome)

  const ROOT_INO: nat := 2
  const FIRST_INO: nat := 11

  /** Empty copies and reserved inodes are passed over before, and only artifacts are checked for redundancy. */
  predicate CopyOk(c: Copy) {
    c.size > 0 && (c.ino > FIRST_INO || c.ino == ROOT_INO) && (c.live ==> c.outcome != Kept)
  }

  datatype Row = Row(ino: nat, size: nat, seqno: nat, live: bool)

  ghost predicate Distinct(rows: seq<Row>) {
    forall i, j | 0 <= i < j < |rows| :: rows[i].ino != rows[j].ino
  }

  /** First row of an inode, or the number of rows. */
  function Find(rows: seq<Row>, ino: nat): (i: nat)
    ensures i <= |rows|
    ensures i < |rows| ==> rows[i].ino == ino
    ensures forall k | 0 <= k < i :: rows[k].ino != ino
  {
    if rows == [] then 0
    else if rows[0].ino == ino then 0
    else 1 + Find(rows[1..], ino)
  }

  predicate SkipAgainst(r: Row, seqno: nat, size: nat, live: bool) {
    if live then r.live && r.seqno >= seqno
    else r.live || r.size >= size
  }

  predicate Skip(rows: seq<Row>, ino: nat, seqno: nat, size: nat, live: bool) {
    var i := Find(rows, ino);
    i < |rows| && SkipAgainst(rows[i], seqno, size, live)
  }

  function Updated(r: Row, size: nat, seqno: nat, live: bool): Row {
    if live && !r.live then Row(r.ino, size, seqno, true)
    else r.(size := if size > r.size then size else r.size, seqno := if seqno > r.seqno then seqno else r.seqno)
  }

  function Marked(rows: seq<Row>, cap: nat, ino: nat, size: nat, seqno: nat, live: bool): seq<Row> {
    var i := Find(rows, ino);
    if i < |rows| then rows[i := Updated(rows[i], size, seqno, live)]
    else if |rows| < cap then rows + [Row(ino, size, seqno, live)]
    else rows
  }

  // ----- the table in place -----

  class Table {
    const inodes: array<nat>
    const sizes: array<nat>
    const seqs: array<nat>
    const lives: array<bool>
    var count: nat

    ghost predicate Valid()
      reads this
    {
      && inodes.Length == sizes.Length == seqs.Length == lives.Length
      && inodes != sizes && inodes != seqs && sizes != seqs
      && count <= inodes.Length
    }

    function RowAt(i: nat): Row
      reads this, inodes, sizes, seqs, lives
      requires i < inodes.Length && i < sizes.Length && i < seqs.Length && i < lives.Length
    {
      Row(inodes[i], sizes[i], seqs[i], lives[i])
    }

    ghost function Rows(): (rows: seq<Row>)
      reads this, inodes, sizes, seqs, lives
      requires Valid()
      ensures |rows| == count && forall i | 0 <= i < count :: rows[i] == RowAt(i)
    {
      seq(count, i requires 0 <= i < count && Valid() reads this, inodes, sizes, seqs, lives => RowAt(i))
    }

    constructor (cap: nat)
      ensures Valid() && Rows() == [] && inodes.Length == cap
      ensures fresh(inodes) && fresh(sizes) && fresh(seqs) && fresh(lives)
    {
      inodes, sizes, seqs := new nat[cap](_ => 0), new nat[cap](_ => 0), new nat[cap](_ => 0);
      lives := new bool[cap](_ => false);
      count := 0;
    }

    method Lookup(ino: nat) returns (i: nat)
      requires Valid()
      ensures i == Find(Rows(), ino)
    {
      i := 0;
      while i < count && inodes[i] != ino
        invariant i <= count
        invariant forall k | 0 <= k < i :: Rows()[k].ino != ino
      {
        i := i + 1;
      }
      assert i < count ==> Rows()[i].ino == ino;
    }

    method ShouldSkip(ino: nat, seqno: nat, size: nat, live: bool) returns (skip: bool)
      requires Valid()
      ensures skip == Skip(Rows(), ino, seqno, size, live)
    {
      var i := Lookup(ino);
      if i == count {
        return false;
      }
      var rLive := lives[i];
      if live && rLive {
        return seqs[i] >= seqno;
      }
      if live && !rLive {
        return false;
      }
      if !live && rLive {
        return true;
      }
      return sizes[i] >= size;
    }

    method MarkVersion(ino: nat, size: nat, seqno: nat, live: bool)
      requires Valid()
      modifies this, inodes, sizes, seqs, lives
      ensures Valid() && Rows() == Marked(old(Rows()), inodes.Length, ino, size, seqno, live)
    {
      var i := Lookup(ino);
      if i < count {
        UpdateRow(i, size, seqno, live);
      } else if count < inodes.Length {
        AppendRow(ino, size, seqno, live);
      }
    }

    method UpdateRow(i: nat, size: nat, seqno: nat, live: bool)
      requires Valid() && i < count
      modifies sizes, seqs, lives
      ensures Valid() && Rows() == old(Rows())[i := Updated(old(Rows())[i], size, seqno, live)]
    {
      if live && !lives[i] {
        lives[i], sizes[i], seqs[i] := true, size, seqno;
      } else {
        if size > sizes[i] { sizes[i] := size; }
        if seqno > seqs[i] { seqs[i] := seqno; }
      }
    }

    method AppendRow(ino: nat, size: nat, seqno: nat, live: bool)
      requires Valid() && count < inodes.Length
      modifies this, inodes, sizes, seqs, lives
      ensures Valid() && Rows() == old(Rows()) + [Row(ino, size, seqno, live)]
    {
      inodes[count], sizes[count], seqs[count], lives[count] := ino, size, seqno, live;
      count := count + 1;
    }
  }

  // ----- the selection over a whole journal -----

  /** The table and, per inode, which copy supplied its output. */
  datatype State = State(rows: seq<Row>, supplier: map<nat, nat>)

  /** One copy, number `k`. */
  function Turn(cap: nat, s: State, c: Copy, k: nat): State {
    if Skip(s.rows, c.ino, c.seqno, c.size, c.live) then s
    else
      match c.outcome
      case Written => State(Marked(s.rows, cap, c.ino, c.size, c.seqno, c.live), s.supplier[c.ino := k])
      case Kept => s.(rows := Marked(s.rows, cap, c.ino, 0, c.seqno, c.live))
      case Failed => s
  }

  function Process(cap: nat, copies: seq<Copy>, n: nat): State
    requires n <= |copies|
  {
    if n == 0 then State([], map[]) else Turn(cap, Process(cap, copies, n - 1), copies[n - 1], n - 1)
  }

  /** The selection loop over the real table. */
  method SelectVersions(copies: seq<Copy>) returns (chosen: map<nat, nat>)
    ensures chosen == Process(65536, copies, |copies|).supplier
  {
    var cap := MAX_RECOVERED_INODES;
    var table := new Table(cap);
    chosen := map[];
    for n := 0 to |copies|
      invariant table.Valid() && fresh(table) && table.inodes.Length == cap
      invariant fresh(table.inodes) && fresh(table.sizes) && fresh(table.seqs) && fresh(table.lives)
      invariant State(table.Rows(), chosen) == Process(cap, copies, n)
    {
      chosen := ProcessCopy(table, copies[n], n, chosen);
    }
  }

  /** One copy: skip it, or recover it and record what came of it. */
  method ProcessCopy(table: Table, c: Copy, n: nat, chosen0: map<nat, nat>) returns (chosen: map<nat, nat>)
    requires table.Valid()
    modifies table, table.inodes, table.sizes, table.seqs, table.lives
    ensures table.Valid()
    ensures State(table.Rows(), chosen) == Turn(table.inodes.Length, State(old(table.Rows()), chosen0), c, n)
  {
    chosen := chosen0;
    var skip := table.ShouldSkip(c.ino, c.seqno, c.size, c.live);
    if !skip {
      if c.outcome == Written {
        table.MarkVersion(c.ino, c.size, c.seqno, c.live);
        chosen := chosen[c.ino := n];
      } else if c.outcome == Kept {
        table.MarkVersion(c.ino, 0, c.seqno, c.live);
      }
    }
  }

  /** Copy `i`, one of the first `n`, is of inode `x` and its recovery succeeds. */
  predicate Succeeds(copies: seq<Copy>, n: nat, x: nat, i: nat) {
    i < n <= |copies| && copies[i].ino == x && copies[i].outcome == Written
  }

  /** Live copies come before artifacts, live ones by sequence number, artifacts by size, ties by order in the
      journal. */
  predicate Preferred(copies: seq<Copy>, i: nat, j: nat)
    requires i < |copies| && j < |copies|
  {
    var a, b := copies[i], copies[j];
    if a.live then !b.live || b.seqno < a.seqno || (b.seqno == a.seqno && i <= j)
    else !b.live && (b.size < a.size || (b.size == a.size && i <= j))
  }

  ghost predicate Best(copies: seq<Copy>, n: nat, x: nat, i: nat) {
    Succeeds(copies, n, x, i) && forall j: nat | Succeeds(copies, n, x, j) :: Preferred(copies, i, j)
  }

  ghost predicate Latest(copies: seq<Copy>, n: nat, x: nat, i: nat) {
    Succeeds(copies, n, x, i) && forall j: nat | Succeeds(copies, n, x, j) :: j <= i
  }

  ghost predicate NoneSucceeds(copies: seq<Copy>, n: nat, x: nat) {
    forall j: nat :: !Succeeds(copies, n, x, j)
  }

  /** What the table says about an inode it has a row for. */
  ghost predicate RowTells(copies: seq<Copy>, n: nat, r: Row, supplier: map<nat, nat>) {
    if r.ino in supplier then
      var i := supplier[r.ino];
      && Best(copies, n, r.ino, i) && r.live == copies[i].live
      && (if r.live then r.seqno == copies[i].seqno else r.size == copies[i].size)
    else NoneSucceeds(copies, n, r.ino) && !r.live && r.size == 0
  }

  /** An inode without a row: nothing was written for it, or the table is full and the last written copy stands. */
  ghost predicate NoRowTells(cap: nat, copies: seq<Copy>, n: nat, x: nat, s: State) {
    if x in s.supplier then |s.rows| == cap && Latest(copies, n, x, s.supplier[x])
    else NoneSucceeds(copies, n, x)
  }

  ghost predicate Tells(cap: nat, copies: seq<Copy>, n: nat, x: nat, s: State) {
    && Distinct(s.rows) && |s.rows| <= cap
    && var i := Find(s.rows, x);
    if i < |s.rows| then RowTells(copies, n, s.rows[i], s.supplier) else NoRowTells(cap, copies, n, x, s)
  }

  lemma FindUnique(rows: seq<Row>, x: nat, i: nat)
    requires Distinct(rows) && i < |rows| && rows[i].ino == x
    ensures Find(rows, x) == i
  {
    var k := Find(rows, x);
    assert k <= i;
  }

  lemma {:induction false} MarkedFind(rows: seq<Row>, cap: nat, ino: nat, size: nat, seqno: nat, live: bool, x: nat)
    requires Distinct(rows) && |rows| <= cap
    ensures var rows' := Marked(rows, cap, ino, size, seqno, live);
      && Distinct(rows') && |rows| <= |rows'| <= cap
      && (x != ino ==> (Find(rows', x) < |rows'| <==> Find(rows, x) < |rows|) &&
                       (Find(rows, x) < |rows| ==> rows'[Find(rows', x)] == rows[Find(rows, x)]))
  {
    var rows' := Marked(rows, cap, ino, size, seqno, live);
    var k, i := Find(rows, ino), Find(rows, x);
    assert forall j | 0 <= j < |rows| :: rows'[j].ino == rows[j].ino;
    if i < |rows| { FindUnique(rows', x, i); }
  }

  lemma SameSuccesses(copies: seq<Copy>, n: nat, x: nat, i: nat)
    requires 0 < n <= |copies| && !Succeeds(copies, n, x, n - 1)
    ensures Best(copies, n - 1, x, i) ==> Best(copies, n, x, i)
    ensures Latest(copies, n - 1, x, i) ==> Latest(copies, n, x, i)
    ensures NoneSucceeds(copies, n - 1, x) ==> NoneSucceeds(copies, n, x)
  {
    assert forall j: nat :: Succeeds(copies, n, x, j) <==> Succeeds(copies, n - 1, x, j);
  }

  /** A copy of another inode leaves what is said about `x` as it was. */
  lemma {:induction false} OtherInode(cap: nat, copies: seq<Copy>, n: nat, x: nat, s: State)
    requires 0 < n <= |copies| && copies[n - 1].ino != x && Tells(cap, copies, n - 1, x, s)
    ensures Tells(cap, copies, n, x, Turn(cap, s, copies[n - 1], n - 1))
  {
    var c := copies[n - 1];
    SameSuccesses(copies, n, x, if x in s.supplier then s.supplier[x] else 0);
    TurnKeepsOthers(cap, s, c, n - 1, x);
  }

  lemma {:induction false} TurnKeepsOthers(cap: nat, s: State, c: Copy, k: nat, x: nat)
    requires Distinct(s.rows) && |s.rows| <= cap && c.ino != x
    ensures var t := Turn(cap, s, c, k); var i, j := Find(s.rows, x), Find(t.rows, x);
      && Distinct(t.rows) && |s.rows| <= |t.rows| <= cap
      && (j < |t.rows| <==> i < |s.rows|) && (i < |s.rows| ==> t.rows[j] == s.rows[i])
      && (x in t.supplier <==> x in s.supplier) && (x in s.supplier ==> t.supplier[x] == s.supplier[x])
  {
    match c.outcome
    case Written => MarkedFind(s.rows, cap, c.ino, c.size, c.seqno, c.live, x);
    case Kept => MarkedFind(s.rows, cap, c.ino, 0, c.seqno, c.live, x);
    case Failed =>
  }

  /** The row a copy's recovery leaves for its inode. */
  lemma {:induction false} MarkedRow(rows: seq<Row>, cap: nat, x: nat, size: nat, seqno: nat, live: bool)
    requires Distinct(rows) && |rows| <= cap
    ensures var rows' := Marked(rows, cap, x, size, seqno, live); var i := Find(rows, x);
      && Distinct(rows') && |rows'| <= cap && Find(rows', x) == i
      && (i < |rows'| ==>
            rows'[i] == if i < |rows| then Updated(rows[i], size, seqno, live) else Row(x, size, seqno, live))
      && (i == |rows'| ==> i == |rows| == cap)
  {
    var rows', i := Marked(rows, cap, x, size, seqno, live), Find(rows, x);
    assert forall j | 0 <= j < |rows| :: rows'[j].ino == rows[j].ino;
    if i < |rows'| { FindUnique(rows', x, i); }
  }

  /** What the successes among the first `n` copies of `x` are when copy `n - 1` is one of them. */
  lemma NewSuccess(copies: seq<Copy>, n: nat, x: nat)
    requires 0 < n <= |copies| && Succeeds(copies, n, x, n - 1)
    ensures Latest(copies, n, x, n - 1)
    ensures BeatsAll(copies, n - 1, x, n - 1) ==> Best(copies, n, x, n - 1)
    ensures forall i: nat | Best(copies, n - 1, x, i) && Preferred(copies, i, n - 1) :: Best(copies, n, x, i)
  {
    assert forall j: nat | Succeeds(copies, n, x, j) :: j == n - 1 || Succeeds(copies, n - 1, x, j);
  }

  /** Copy `k` is to be preferred to all successes for `x` among the first `n`. */
  ghost predicate BeatsAll(copies: seq<Copy>, n: nat, x: nat, k: nat)
    requires k < |copies|
  {
    forall j: nat | Succeeds(copies, n, x, j) :: Preferred(copies, k, j)
  }

  lemma BeatsBest(copies: seq<Copy>, n: nat, x: nat, i: nat, k: nat)
    requires n <= k < |copies| && Best(copies, n, x, i) && Preferred(copies, k, i)
    ensures BeatsAll(copies, n, x, k)
  {
  }

  lemma {:induction false} KnownWritten(cap: nat, copies: seq<Copy>, n: nat, s: State)
    requires 0 < n <= |copies| && CopyOk(copies[n - 1]) && copies[n - 1].outcome == Written
    requires Tells(cap, copies, n - 1, copies[n - 1].ino, s) && Find(s.rows, copies[n - 1].ino) < |s.rows|
    ensures Tells(cap, copies, n, copies[n - 1].ino, Turn(cap, s, copies[n - 1], n - 1))
  {
    var c := copies[n - 1];
    MarkedRow(s.rows, cap, c.ino, c.size, c.seqno, c.live);
    NewSuccess(copies, n, c.ino);
    if c.ino in s.supplier && Preferred(copies, n - 1, s.supplier[c.ino]) {
      BeatsBest(copies, n - 1, c.ino, s.supplier[c.ino], n - 1);
    }
  }

  lemma {:induction false} KnownUnwritten(cap: nat, copies: seq<Copy>, n: nat, s: State)
    requires 0 < n <= |copies| && CopyOk(copies[n - 1]) && copies[n - 1].outcome != Written
    requires Tells(cap, copies, n - 1, copies[n - 1].ino, s) && Find(s.rows, copies[n - 1].ino) < |s.rows|
    ensures Tells(cap, copies, n, copies[n - 1].ino, Turn(cap, s, copies[n - 1], n - 1))
  {
    var c := copies[n - 1];
    MarkedRow(s.rows, cap, c.ino, 0, c.seqno, c.live);
    SameSuccesses(copies, n, c.ino, if c.ino in s.supplier then s.supplier[c.ino] else 0);
  }

  lemma {:induction false} UnknownInode(cap: nat, copies: seq<Copy>, n: nat, s: State)
    requires 0 < n <= |copies| && CopyOk(copies[n - 1])
    requires Tells(cap, copies, n - 1, copies[n - 1].ino, s) && Find(s.rows, copies[n - 1].ino) == |s.rows|
    ensures Tells(cap, copies, n, copies[n - 1].ino, Turn(cap, s, copies[n - 1], n - 1))
  {
    var c := copies[n - 1];
    MarkedRow(s.rows, cap, c.ino, if c.outcome == Written then c.size else 0, c.seqno, c.live);
    if c.outcome == Written {
      NewSuccess(copies, n, c.ino);
    } else {
      SameSuccesses(copies, n, c.ino, if c.ino in s.supplier then s.supplier[c.ino] else 0);
    }
  }

  lemma {:induction false} TellsAlways(cap: nat, copies: seq<Copy>, n: nat, x: nat)
    requires n <= |copies| && forall i | 0 <= i < |copies| :: CopyOk(copies[i])
    ensures Tells(cap, copies, n, x, Process(cap, copies, n))
  {
    if n > 0 {
      TellsAlways(cap, copies, n - 1, x);
      var s := Process(cap, copies, n - 1);
      if copies[n - 1].ino != x {
        OtherInode(cap, copies, n, x, s);
      } else if Find(s.rows, x) == |s.rows| {
        UnknownInode(cap, copies, n, s);
      } else if copies[n - 1].outcome == Written {
        KnownWritten(cap, copies, n, s);
      } else {
        KnownUnwritten(cap, copies, n, s);
      }
    }
  }

  // ----- how many inodes the table can follow -----

  /** The inodes with a copy, among the first `n`, whose recovery does not fail. */
  function Seen(copies: seq<Copy>, n: nat): set<nat>
    requires n <= |copies|
  {
    if n == 0 then {} else Seen(copies, n - 1) + if copies[n - 1].outcome == Failed then {} else {copies[n - 1].ino}
  }

  /** Copy `i` is the first of its inode whose recovery does not fail. */
  ghost predicate FirstUse(copies: seq<Copy>, i: nat, x: nat) {
    i < |copies| && copies[i].ino == x && copies[i].outcome != Failed && x !in Seen(copies, i)
  }

  /** Fewer inodes than the table has rows came before `x`. */
  ghost predicate Early(cap: nat, copies: seq<Copy>, n: nat, x: nat)
    requires n <= |copies|
  {
    exists i: nat :: i < n && FirstUse(copies, i, x) && |Seen(copies, i)| < cap
  }

  function RowInos(rows: seq<Row>): set<nat> {
    set i | 0 <= i < |rows| :: rows[i].ino
  }

  lemma RowInosSnoc(rows: seq<Row>, r: Row)
    ensures RowInos(rows + [r]) == RowInos(rows) + {r.ino}
  {
    var all := rows + [r];
    forall x | x in RowInos(rows) + {r.ino} ensures x in RowInos(all) {
      if x == r.ino {
        assert all[|rows|].ino == x;
      } else {
        var i :| 0 <= i < |rows| && rows[i].ino == x;
        assert all[i].ino == x;
      }
    }
  }

  lemma {:induction false} RowInosSize(rows: seq<Row>)
    requires Distinct(rows)
    ensures |RowInos(rows)| == |rows|
  {
    if rows == [] {
      assert RowInos(rows) == {};
    } else {
      var m := |rows| - 1;
      RowInosSize(rows[..m]);
      assert rows == rows[..m] + [rows[m]];
      RowInosSnoc(rows[..m], rows[m]);
    }
  }

  lemma FindInRows(rows: seq<Row>, x: nat)
    ensures Find(rows, x) < |rows| <==> x in RowInos(rows)
  {
  }

  /** The copy gets a new row. */
  predicate NewRow(cap: nat, s: State, c: Copy) {
    c.outcome != Failed && Find(s.rows, c.ino) == |s.rows| < cap
  }

  /** A turn adds the copy's inode to the rows, or keeps the inodes of the rows. */
  lemma {:induction false} TurnRows(cap: nat, s: State, c: Copy, k: nat)
    ensures var rows := Turn(cap, s, c, k).rows;
      && |rows| == |s.rows| + (if NewRow(cap, s, c) then 1 else 0)
      && RowInos(rows) == RowInos(s.rows) + if NewRow(cap, s, c) then {c.ino} else {}
  {
    var rows := Turn(cap, s, c, k).rows;
    if NewRow(cap, s, c) {
      RowInosSnoc(s.rows, rows[|s.rows|]);
    } else {
      SameInos(s.rows, rows);
    }
  }

  lemma SameInos(a: seq<Row>, b: seq<Row>)
    requires |a| == |b| && forall i | 0 <= i < |a| :: a[i].ino == b[i].ino
    ensures RowInos(a) == RowInos(b)
  {
    assert forall i | 0 <= i < |a| :: a[i].ino in RowInos(b) && b[i].ino in RowInos(a);
  }

  lemma SubsetEqual<T>(a: set<T>, b: set<T>)
    requires a <= b && |a| == |b|
    ensures a == b
  {
    forall x | x in b ensures x in a {
      if x !in a { SubsetSize(a, b - {x}); }
    }
  }

  /** The rows belong to the first `cap` inodes seen. */
  ghost predicate Earliest(cap: nat, copies: seq<Copy>, n: nat, rows: seq<Row>)
    requires n <= |copies|
  {
    var seen := Seen(copies, n);
    Distinct(rows) && RowInos(rows) <= seen && |rows| == if |seen| < cap then |seen| else cap
  }

  /** A copy gets a new row exactly when it is its inode's first use and the table still has room. */
  lemma {:induction false} NewRowIsFirstUse(cap: nat, copies: seq<Copy>, n: nat, s: State)
    requires n < |copies| && Earliest(cap, copies, n, s.rows)
    ensures NewRow(cap, s, copies[n]) <==> FirstUse(copies, n, copies[n].ino) && |Seen(copies, n)| < cap
  {
    FindInRows(s.rows, copies[n].ino);
    RowInosSize(s.rows);
    if |Seen(copies, n)| < cap { SubsetEqual(RowInos(s.rows), Seen(copies, n)); }
  }

  lemma SeenSize(copies: seq<Copy>, n: nat)
    requires n < |copies|
    ensures |Seen(copies, n + 1)| == |Seen(copies, n)| + if FirstUse(copies, n, copies[n].ino) then 1 else 0
  {
    if !FirstUse(copies, n, copies[n].ino) { assert Seen(copies, n + 1) == Seen(copies, n); }
  }

  lemma {:induction false} TurnKeepsEarliest(cap: nat, copies: seq<Copy>, n: nat, s: State)
    requires n < |copies| && Earliest(cap, copies, n, s.rows)
    requires Distinct(Turn(cap, s, copies[n], n).rows)
    ensures Earliest(cap, copies, n + 1, Turn(cap, s, copies[n], n).rows)
  {
    NewRowIsFirstUse(cap, copies, n, s);
    TurnRows(cap, s, copies[n], n);
    SeenSize(copies, n);
  }

  lemma {:induction false} RowsAreEarliest(cap: nat, copies: seq<Copy>, n: nat)
    requires n <= |copies| && forall i | 0 <= i < |copies| :: CopyOk(copies[i])
    ensures Earliest(cap, copies, n, Process(cap, copies, n).rows)
  {
    TellsAlways(cap, copies, n, 0);
    if n == 0 {
      assert RowInos([]) == {};
    } else {
      RowsAreEarliest(cap, copies, n - 1);
      TurnKeepsEarliest(cap, copies, n - 1, Process(cap, copies, n - 1));
    }
  }

  lemma {:induction false} NewRowInos(cap: nat, copies: seq<Copy>, n: nat, s: State)
    requires n < |copies| && Earliest(cap, copies, n, s.rows)
    ensures forall x :: x in RowInos(Turn(cap, s, copies[n], n).rows) <==>
              x in RowInos(s.rows) || (FirstUse(copies, n, x) && |Seen(copies, n)| < cap)
  {
    NewRowIsFirstUse(cap, copies, n, s);
    TurnRows(cap, s, copies[n], n);
  }

  /** An inode has a row if and only if it came early. */
  lemma {:induction false} RowIfEarly(cap: nat, copies: seq<Copy>, n: nat, x: nat)
    requires n <= |copies| && forall i | 0 <= i < |copies| :: CopyOk(copies[i])
    ensures x in Tracked(cap, copies, n) <==> Early(cap, copies, n, x)
  {
    if n > 0 {
      RowIfEarly(cap, copies, n - 1, x);
      TrackedStep(cap, copies, n - 1);
      EarlyStep(cap, copies, n, x);
    }
  }

  /** The inodes that have a row after `n` copies. */
  function Tracked(cap: nat, copies: seq<Copy>, n: nat): set<nat>
    requires n <= |copies|
  {
    RowInos(Process(cap, copies, n).rows)
  }

  lemma {:induction false} TrackedStep(cap: nat, copies: seq<Copy>, n: nat)
    requires n < |copies| && forall i | 0 <= i < |copies| :: CopyOk(copies[i])
    ensures forall x :: x in Tracked(cap, copies, n + 1) <==>
              x in Tracked(cap, copies, n) || (FirstUse(copies, n, x) && |Seen(copies, n)| < cap)
  {
    RowsAreEarliest(cap, copies, n);
    NewRowInos(cap, copies, n, Process(cap, copies, n));
  }

  lemma EarlyStep(cap: nat, copies: seq<Copy>, n: nat, x: nat)
    requires 0 < n <= |copies|
    ensures Early(cap, copies, n, x) <==>
            Early(cap, copies, n - 1, x) || (FirstUse(copies, n - 1, x) && |Seen(copies, n - 1)| < cap)
  {
  }

  /** The output of an inode is the first live copy of maximal sequence number whose recovery succeeds, or else the
      first artifact of maximal size, if and only if the inode came early or its last success happens to be that. */
  lemma {:induction false} BestExactlyIfEarly(cap: nat, copies: seq<Copy>, n: nat, x: nat, last: nat)
    requires n <= |copies| && (forall i | 0 <= i < |copies| :: CopyOk(copies[i])) && Latest(copies, n, x, last)
    ensures var supplier := Process(cap, copies, n).supplier;
      x in supplier && (Best(copies, n, x, supplier[x]) <==> Early(cap, copies, n, x) || Best(copies, n, x, last))
  {
    TellsAlways(cap, copies, n, x);
    RowIfEarly(cap, copies, n, x);
    FindInRows(Process(cap, copies, n).rows, x);
  }

  lemma {:induction false} SeenGrows(copies: seq<Copy>, i: nat, n: nat)
    requires i <= n <= |copies|
    ensures Seen(copies, i) <= Seen(copies, n)
  {
    if i < n { SeenGrows(copies, i, n - 1); }
  }

  /** With no more inodes than rows everybody is early. */
  lemma {:induction false} FewAreEarly(cap: nat, copies: seq<Copy>, n: nat, x: nat)
    requires n <= |copies| && |Seen(copies, n)| <= cap && x in Seen(copies, n)
    ensures Early(cap, copies, n, x)
  {
    SeenGrows(copies, n - 1, n);
    SubsetSize(Seen(copies, n - 1), Seen(copies, n));
    EarlyStep(cap, copies, n, x);
    if x in Seen(copies, n - 1) {
      FewAreEarly(cap, copies, n - 1, x);
    }
  }

  lemma {:induction false} SuccessIsSeen(copies: seq<Copy>, n: nat, x: nat, i: nat)
    requires Succeeds(copies, n, x, i)
    ensures x in Seen(copies, n)
  {
    if i < n - 1 { SuccessIsSeen(copies, n - 1, x, i); }
  }

  /** In particular, with at most as many inodes as rows, every inode's output is its best copy, and an inode has no
      output only if none of its copies succeeds. */
  lemma {:induction false} SupplierIsBest(cap: nat, copies: seq<Copy>, n: nat, x: nat)
    requires n <= |copies| && forall i | 0 <= i < |copies| :: CopyOk(copies[i])
    requires |Seen(copies, n)| <= cap
    ensures var supplier := Process(cap, copies, n).supplier;
      if x in supplier then Best(copies, n, x, supplier[x]) else NoneSucceeds(copies, n, x)
  {
    TellsAlways(cap, copies, n, x);
    var s := Process(cap, copies, n);
    if Find(s.rows, x) == |s.rows| && x in s.supplier {
      SuccessIsSeen(copies, n, x, s.supplier[x]);
      FewAreEarly(cap, copies, n, x);
      BestExactlyIfEarly(cap, copies, n, x, s.supplier[x]);
    }
  }

  /** Once a live copy of an early inode is the output, no artifact ever replaces it. */
  lemma {:induction false} LiveStays(cap: nat, copies: seq<Copy>, n: nat, m: nat, x: nat)
    requires n <= m <= |copies| && forall i | 0 <= i < |copies| :: CopyOk(copies[i])
    requires Early(cap, copies, n, x)
    requires var before := Process(cap, copies, n).supplier;
      x in before && before[x] < |copies| && copies[before[x]].live
    ensures var after := Process(cap, copies, m).supplier; x in after && after[x] < |copies| && copies[after[x]].live
  {
    TellsAlways(cap, copies, n, x);
    TellsAlways(cap, copies, m, x);
    RowIfEarly(cap, copies, n, x);
    RowIfEarly(cap, copies, m, x);
    FindInRows(Process(cap, copies, n).rows, x);
    FindInRows(Process(cap, copies, m).rows, x);
    assert Early(cap, copies, m, x);
    assert Succeeds(copies, m, x, Process(cap, copies, n).supplier[x]);
  }

  // ----- one inode too many -----

  /** One live copy each of `cap` inodes, then a live copy and an artifact of one more. */
  function Filler(cap: nat): seq<Copy> {
    seq(cap, (i: nat) => Live(i)) + [Live(cap), Live(cap).(seqno := 2, live := false)]
  }

  function Live(i: nat): Copy {
    Copy(FIRST_INO + 1 + i, 1, 1, true, Written)
  }

  lemma {:induction false} FillerFills(cap: nat, n: nat)
    requires n <= cap
    ensures |Seen(Filler(cap), n)| == n && forall x | x in Seen(Filler(cap), n) :: x < FIRST_INO + 1 + n
  {
    if n > 0 {
      FillerFills(cap, n - 1);
      assert Filler(cap)[n - 1] == Live(n - 1);
    }
  }

  /** With one inode more than the table has room for, a deletion artifact can replace a live recovery. */
  lemma {:induction false} FullTableLosesLive(cap: nat)
    ensures var copies, x := Filler(cap), FIRST_INO + 1 + cap;
      && |copies| == cap + 2 && (forall i | 0 <= i < |copies| :: CopyOk(copies[i]))
      && var supplier := Process(cap, copies, |copies|).supplier;
      && x in supplier && Best(copies, |copies|, x, cap) && !Best(copies, |copies|, x, supplier[x])
  {
    var copies, x, n := Filler(cap), FIRST_INO + 1 + cap, cap + 2;
    assert copies[cap] == Live(cap) && copies[cap + 1] == Live(cap).(seqno := 2, live := false);
    assert forall i | 0 <= i < cap :: copies[i] == Live(i);
    forall j: nat | Succeeds(copies, n, x, j) ensures j == cap || j == cap + 1 {
    }
    assert Succeeds(copies, n, x, cap) && !Preferred(copies, cap + 1, cap);
    NotEarly(cap);
    BestExactlyIfEarly(cap, copies, n, x, cap + 1);
  }

  lemma {:induction false} NotEarly(cap: nat)
    ensures |Filler(cap)| == cap + 2 && !Early(cap, Filler(cap), cap + 2, FIRST_INO + 1 + cap)
  {
    var copies, x := Filler(cap), FIRST_INO + 1 + cap;
    FillerFills(cap, cap);
    assert forall i | 0 <= i < cap :: copies[i] == Live(i);
    forall i: nat | i < cap + 2 && FirstUse(copies, i, x) ensures |Seen(copies, i)| >= cap {
      assert i >= cap;
      SeenGrows(copies, cap, i);
      SubsetSize(Seen(copies, cap), Seen(copies, i));
    }
  }
}
