/** The set of recovered extent blocks (improved/aggressive_scan_v5.c:17-88): an open-addressing hash
    table with linear probing, against the linked list it replaced (improved/aggressive_scan.c:16-54). */
module BlockSet {
  import opened ProbeTable
  import opened Arithmetic

  const MULTIPLIER: nat := 0x9E37_79B9_7F4A_7C15
  const SMALLEST: nat := 4096

  /** Home slots in a table of `n` slots. */
  function Home(n: nat): nat -> nat
    requires n > 0
  {
    HashHome(MULTIPLIER, U64, n)
  }

  /** A table that holds its keys findably, at most half full. */
  ghost predicate TableOk(t: seq<nat>, count: nat) {
    && (|t| == 0 || (SMALLEST <= |t| && PowerOfTwo(|t|)))
    && (|t| > 0 ==> Reachable(t, Home(|t|))) && Distinct(t)
    && count == Occupied(t) && 2 * count <= |t|
  }

  lemma InsertFits(t: seq<nat>, count: nat, key: nat, h: nat)
    requires TableOk(t, count) && 2 * count < |t| && h < |t| && key != 0
    requires Probed(t, Home(|t|), key, h) && t[h] == 0 && key !in t
    ensures TableOk(t[h := key], count + 1) && Keys(t[h := key]) == Keys(t) + {key}
  {
    RoomForOne(|t|, count);
    InsertKeeps(t, Home(|t|), key, h);
    OccupiedUpdate(t, h, key);
  }

  // ----- the table in place -----

  class RecoveredBlocks {
    var keys: array<nat>
    var count: nat

    ghost predicate Valid()
      reads this, keys
    {
      TableOk(keys[..], count)
    }

    ghost function Set(): set<nat>
      reads this, keys
    {
      Keys(keys[..])
    }

    constructor ()
      ensures Valid() && Set() == {} && fresh(keys)
    {
      keys, count := new nat[0], 0;
    }

    method Contains(block: nat) returns (r: bool)
      requires Valid()
      ensures r <==> block in Set()
    {
      if keys.Length == 0 || block == 0 {
        return false;
      }
      HomeFits(MULTIPLIER, U64, keys.Length);
      var h := Probe(keys, Home(keys.Length), block);
      ProbeDecides(keys[..], Home(keys.Length), block, h);
      r := keys[h] == block;
    }

    /** Rehash into a table of at least `2 * least` slots. */
    method Grow(least: nat)
      requires Valid() && least > count
      modifies this`keys
      ensures Valid() && Set() == old(Set()) && fresh(keys) && 2 * least <= keys.Length
    {
      var ns := SMALLEST;
      assert PowerOfTwo(ns) by { SmallestArePowers(); }
      while ns < least * 2
        invariant SMALLEST <= ns && PowerOfTwo(ns)
      {
        ns := ns * 2;
      }
      var nk := Rehash(ns);
      keys := nk;
    }

    /** The keys of this table, placed in a new one of `ns` slots. */
    method Rehash(ns: nat) returns (nk: array<nat>)
      requires Valid() && ns > count
      ensures fresh(nk) && nk.Length == ns && Reachable(nk[..], Home(ns)) && Distinct(nk[..])
      ensures Keys(nk[..]) == Set() && Occupied(nk[..]) == count
    {
      nk := new nat[ns](_ => 0);
      AllFree(nk[..]);
      HomeFits(MULTIPLIER, U64, ns);
      ghost var t := keys[..];
      for i := 0 to keys.Length
        invariant Moved(t, i, nk[..], Home(ns))
      {
        assert Occupied(nk[..]) < ns by { OccupiedPrefix(t, i); }
        if keys[i] != 0 {
          var h := Probe(nk, Home(ns), keys[i]);
          ghost var u := nk[..];
          MoveOne(t, i, u, Home(ns), h);
          nk[h] := keys[i];
          assert nk[..] == u[h := keys[i]];
        } else {
          SkipOne(t, i, nk[..], Home(ns));
        }
      }
      assert t[..keys.Length] == t;
    }

    /** Mark a block; `memory` says whether a needed growth gets its memory. */
    method Mark(block: nat, memory: bool)
      requires Valid()
      modifies this, keys
      ensures Valid() && (keys == old(keys) || fresh(keys))
      ensures memory ==> Set() == old(Set()) + if block == 0 then {} else {block}
      ensures !memory && old(count) * 2 >= old(keys.Length) ==> Set() == old(Set())
      ensures !memory && old(count) * 2 < old(keys.Length) && block != 0 ==> Set() == old(Set()) + {block}
    {
      if block == 0 {
        return;
      }
      if count * 2 >= keys.Length {
        if !memory {
          return;
        }
        Grow(count + 1);
      }
      Insert(block);
    }

    method Insert(block: nat)
      requires Valid() && block != 0 && 2 * count < keys.Length
      modifies this`count, keys
      ensures Valid() && Set() == old(Set()) + {block}
    {
      ghost var t := keys[..];
      HomeFits(MULTIPLIER, U64, keys.Length);
      var h := Probe(keys, Home(keys.Length), block);
      ProbeDecides(t, Home(keys.Length), block, h);
      if keys[h] == block {
        assert Keys(t) + {block} == Keys(t);
        return;
      }
      InsertFits(t, count, block, h);
      keys[h] := block;
      count := count + 1;
      assert keys[..] == t[h := block];
    }
  }

  /** `u` holds exactly the first `i` entries of `t`. */
  ghost predicate Moved(t: seq<nat>, i: nat, u: seq<nat>, home: nat -> nat) {
    i <= |t| && Reachable(u, home) && Distinct(u) && Keys(u) == Keys(t[..i]) && Occupied(u) == Occupied(t[..i])
  }

  lemma SkipOne(t: seq<nat>, i: nat, u: seq<nat>, home: nat -> nat)
    requires i < |t| && Moved(t, i, u, home) && t[i] == 0
    ensures Moved(t, i + 1, u, home)
  {
    PrefixSnoc(t, i);
  }

  lemma MoveOne(t: seq<nat>, i: nat, u: seq<nat>, home: nat -> nat, h: nat)
    requires i < |t| && Distinct(t) && Moved(t, i, u, home) && t[i] != 0
    requires h < |u| && Probed(u, home, t[i], h) && (u[h] == 0 || u[h] == t[i])
    ensures u[h] == 0 && Moved(t, i + 1, u[h := t[i]], home)
  {
    PrefixSnoc(t, i);
    assert t[i] !in Keys(t[..i]);
    assert t[i] !in u;
    InsertKeeps(u, home, t[i], h);
    OccupiedUpdate(u, h, t[i]);
  }

  // ----- the linked list it replaced -----

  datatype List = Nil | Node(block: nat, next: List)

  predicate ListContains(l: List, block: nat) {
    l.Node? && (l.block == block || ListContains(l.next, block))
  }

  /** The list after marking the given blocks, first to last. */
  function ListOf(history: seq<nat>): List {
    if history == [] then Nil else Node(history[|history| - 1], ListOf(history[..|history| - 1]))
  }

  lemma {:induction false} ListHolds(history: seq<nat>, block: nat)
    ensures ListContains(ListOf(history), block) <==> block in history
  {
    if history != [] {
      var m := |history| - 1;
      ListHolds(history[..m], block);
      assert history == history[..m] + [history[m]];
    }
  }

  /** After any sequence of marks, growths included, table and list agree on every non-zero block. */
  method Replay(history: seq<nat>) returns (r: RecoveredBlocks)
    ensures r.Valid()
    ensures forall b: nat | b != 0 :: b in r.Set() <==> ListContains(ListOf(history), b)
    ensures 0 !in r.Set()
  {
    r := new RecoveredBlocks();
    for i := 0 to |history|
      invariant r.Valid() && fresh(r) && fresh(r.keys)
      invariant r.Set() == Keys(history[..i])
    {
      r.Mark(history[i], true);
      assert history[..i + 1] == history[..i] + [history[i]];
    }
    assert history[..|history|] == history;
    forall b: nat | b != 0 ensures b in r.Set() <==> ListContains(ListOf(history), b) {
      ListHolds(history, b);
    }
  }
}
