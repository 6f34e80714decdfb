/** The inode-to-name map and its hash index (improved/utils_v5.c:46-188), against a linear search of the names. */
module NameIndex {
  import opened ProbeTable
  import opened Collections

  const MULTIPLIER: nat := 2654435761
  const U32: nat := 0x1_0000_0000
  const SMALLEST: nat := 1024
  const INITIAL_CAPACITY: nat := 4096
  const MAX_FILENAME_MAP: nat := 100000
  const NAME_MAX: nat := 255

  datatype Named = Named(ino: nat, name: string)

  function Home(n: nat): nat -> nat
    requires n > 0
  {
    HashHome(MULTIPLIER, U32, n)
  }

  /** A name that cannot leave the output directory. */
  predicate Safe(name: string) {
    name != "" && name != "." && name != ".." && '/' !in name
  }

  function Clip(name: string): string {
    if |name| <= NAME_MAX then name else name[..NAME_MAX]
  }

  /** First place of an inode in the name array, or its length. */
  function Linear(names: seq<Named>, ino: nat): (i: nat)
    ensures i <= |names|
    ensures i < |names| ==> names[i].ino == ino
    ensures forall k | 0 <= k < i :: names[k].ino != ino
  {
    if names == [] || names[0].ino == ino then 0 else 1 + Linear(names[1..], ino)
  }

  /** No inode but 0, the invalid one, occurs twice. */
  ghost predicate Unique(names: seq<Named>) {
    forall i, j | 0 <= i < j < |names| && names[i].ino != 0 :: names[i].ino != names[j].ino
  }

  lemma LinearUnique(names: seq<Named>, i: nat)
    requires Unique(names) && i < |names| && names[i].ino != 0
    ensures Linear(names, names[i].ino) == i
  {
    assert Linear(names, names[i].ino) <= i;
  }

  /** The hash holds exactly the non-zero inodes among the first `n` names, each with its place. */
  ghost predicate Indexes(names: seq<Named>, n: nat, keys: seq<nat>, vals: seq<int>) {
    && n <= |names| && |keys| == |vals|
    && (forall h | 0 <= h < |keys| && keys[h] != 0 :: 0 <= vals[h] < n && names[vals[h]].ino == keys[h])
    && (forall i | 0 <= i < n && names[i].ino != 0 :: names[i].ino in keys)
  }

  /** A hash of the first `n` names that can be searched. */
  ghost predicate HashOk(names: seq<Named>, n: nat, keys: seq<nat>, vals: seq<int>) {
    && |keys| > 0 && Reachable(keys, Home(|keys|)) && Distinct(keys)
    && Occupied(keys) <= n && Indexes(names, n, keys, vals)
  }

  /** Putting the next name in keeps the hash right. */
  lemma PutKeeps(names: seq<Named>, n: nat, keys: seq<nat>, vals: seq<int>, h: nat)
    requires n < |names| && Unique(names) && HashOk(names, n, keys, vals)
    requires h < |keys| && Probed(keys, Home(|keys|), names[n].ino, h) && (keys[h] == 0 || keys[h] == names[n].ino)
    ensures HashOk(names, n + 1, keys[h := names[n].ino], vals[h := n])
  {
    var ino := names[n].ino;
    var keys', vals' := keys[h := ino], vals[h := n];
    if ino == 0 {
      assert keys' == keys;
    } else {
      NewKey(names, n, keys, vals);
      InsertKeeps(keys, Home(|keys|), ino, h);
      OccupiedUpdate(keys, h, ino);
      forall i | 0 <= i < n + 1 && names[i].ino != 0 ensures names[i].ino in keys' {
        if i < n {
          assert names[i].ino in keys;
          var k :| 0 <= k < |keys| && keys[k] == names[i].ino;
          assert keys'[k] == names[i].ino;
        } else {
          assert keys'[h] == ino;
        }
      }
    }
  }

  lemma NewKey(names: seq<Named>, n: nat, keys: seq<nat>, vals: seq<int>)
    requires n < |names| && Unique(names) && Indexes(names, n, keys, vals) && names[n].ino != 0
    ensures names[n].ino !in keys
  {
  }

  /** What the probe ends at is what a linear search of the names finds. */
  lemma GetAgrees(names: seq<Named>, keys: seq<nat>, vals: seq<int>, ino: nat, h: nat)
    requires Unique(names) && HashOk(names, |names|, keys, vals) && ino != 0
    requires h < |keys| && Probed(keys, Home(|keys|), ino, h) && (keys[h] == 0 || keys[h] == ino)
    ensures if keys[h] == 0 then Linear(names, ino) == |names| else vals[h] == Linear(names, ino) < |names|
  {
    HomeFits(MULTIPLIER, U32, |keys|);
    ProbeDecides(keys, Home(|keys|), ino, h);
    if keys[h] != 0 {
      LinearUnique(names, vals[h]);
    }
  }

  class NameMap {
    var names: seq<Named>
    var capacity: nat
    var hkeys: array<nat>
    var hvals: array<int>

    ghost predicate Valid()
      reads this, hkeys, hvals
    {
      && |names| <= capacity <= MAX_FILENAME_MAP && capacity > 0 && Unique(names)
      && hkeys.Length == hvals.Length >= SMALLEST && PowerOfTwo(hkeys.Length) && 2 * |names| <= hkeys.Length
      && HashOk(names, |names|, hkeys[..], hvals[..])
    }

    /** fm_hash_get: the place of an inode's name, -1 if it has none. */
    method HashGet(ino: nat) returns (idx: int)
      requires Valid()
      ensures idx == if ino == 0 || Linear(names, ino) == |names| then -1 else Linear(names, ino)
    {
      HomeFits(MULTIPLIER, U32, hkeys.Length);
      var h := Probe(hkeys, Home(hkeys.Length), ino);
      if ino == 0 {
        return -1;
      }
      GetAgrees(names, hkeys[..], hvals[..], ino, h);
      idx := if hkeys[h] == 0 then -1 else hvals[h];
    }

    /** get_filename_for_inode. */
    method Get(ino: nat) returns (found: bool, name: string)
      requires Valid()
      ensures found <==> ino != 0 && Linear(names, ino) < |names|
      ensures found ==> name == names[Linear(names, ino)].name
    {
      var idx := HashGet(ino);
      found, name := false, "";
      if 0 <= idx < |names| {
        found, name := true, names[idx].name;
      }
    }

    constructor ()
      ensures Valid() && names == [] && fresh(hkeys) && fresh(hvals)
    {
      names, capacity := [], INITIAL_CAPACITY;
      hkeys, hvals := new nat[0], new int[0];
      new;
      Rebuild(capacity);
    }

    /** fm_hash_put of name number `n`. */
    static method Put(names: seq<Named>, n: nat, ks: array<nat>, vs: array<int>)
      requires n < |names| && Unique(names) && n < ks.Length == vs.Length
      requires HashOk(names, n, ks[..], vs[..])
      modifies ks, vs
      ensures HashOk(names, n + 1, ks[..], vs[..])
    {
      ghost var keys, vals := ks[..], vs[..];
      HomeFits(MULTIPLIER, U32, ks.Length);
      var h := Probe(ks, Home(ks.Length), names[n].ino);
      PutKeeps(names, n, keys, vals, h);
      ks[h] := names[n].ino;
      vs[h] := n;
      assert ks[..] == keys[h := names[n].ino] && vs[..] == vals[h := n];
    }

    /** fm_hash_rebuild. */
    method Rebuild(least: nat)
      requires Unique(names) && |names| <= least
      modifies this`hkeys, this`hvals
      ensures fresh(hkeys) && fresh(hvals) && 2 * least <= hkeys.Length
      ensures hkeys.Length == hvals.Length >= SMALLEST && PowerOfTwo(hkeys.Length)
      ensures HashOk(names, |names|, hkeys[..], hvals[..])
    {
      var ns := SMALLEST;
      SmallestArePowers();
      while ns < least * 2
        invariant SMALLEST <= ns && PowerOfTwo(ns)
      {
        ns := ns * 2;
      }
      hkeys, hvals := new nat[ns](_ => 0), new int[ns](_ => 0);
      AllFree(hkeys[..]);
      for i := 0 to |names|
        invariant fresh(hkeys) && fresh(hvals) && hkeys.Length == hvals.Length == ns
        invariant HashOk(names, i, hkeys[..], hvals[..])
      {
        Put(names, i, hkeys, hvals);
      }
    }

    /** add_filename_mapping. */
    method Add(ino: nat, name: string) returns (rc: int)
      requires Valid()
      modifies this, hkeys, hvals
      ensures Valid()
      ensures rc == 0 <==>
              && name != "" && name != "." && name != ".." && '/' !in name
              && (Known(old(names), ino) || |old(names)| < 100000)
      ensures var x := Named(ino, if |name| <= 255 then name else name[..255]);
        names == if rc != 0 then old(names)
                 else if Known(old(names), ino) then old(names)[Linear(old(names), ino) := x]
                 else old(names) + [x]
      ensures hkeys == old(hkeys) || fresh(hkeys)
      ensures hvals == old(hvals) || fresh(hvals)
    {
      if !Safe(name) {
        return -1;
      }
      var hidx := HashGet(ino);
      if hidx >= 0 {
        RenameKeeps(names, hkeys[..], hvals[..], hidx, Clip(name));
        names := names[hidx := Named(ino, Clip(name))];
        return 0;
      }
      if |names| >= capacity {
        var newCap := if capacity * 2 > MAX_FILENAME_MAP then MAX_FILENAME_MAP else capacity * 2;
        if |names| >= newCap {
          return -1;
        }
        capacity := newCap;
      }
      Append(Named(ino, Clip(name)));
      rc := 0;
    }

    method Append(x: Named)
      requires Valid() && |names| < capacity && !Known(names, x.ino)
      modifies this, hkeys, hvals
      ensures Valid() && names == old(names) + [x]
      ensures hkeys == old(hkeys) || fresh(hkeys)
      ensures hvals == old(hvals) || fresh(hvals)
    {
      if |names| * 2 >= hkeys.Length {
        Rebuild(|names| + 1);
      }
      RoomFor(|names|, hkeys.Length);
      ExtendKeeps(names, hkeys[..], hvals[..], x);
      names := names + [x];
      Put(names, |names| - 1, hkeys, hvals);
    }
  }

  /** The name a map gives an inode, None if it gives none. */
  function NameOf(names: seq<Named>, ino: nat): Option<string> {
    if Known(names, ino) then Some(names[Linear(names, ino)].name) else None
  }

  lemma {:induction false} LinearFirst(names: seq<Named>, ino: nat, i: nat)
    requires i <= |names| && (i < |names| ==> names[i].ino == ino) && forall k | 0 <= k < i :: names[k].ino != ino
    ensures Linear(names, ino) == i
  {
    if i > 0 {
      assert names[0].ino != ino;
      LinearFirst(names[1..], ino, i - 1);
    }
  }

  lemma AddedName(names: seq<Named>, ino: nat, x: string, k: nat)
    requires !Known(names, ino)
    ensures NameOf(names + [Named(ino, x)], k) == if k == ino && ino != 0 then Some(x) else NameOf(names, k)
  {
    var more, i := names + [Named(ino, x)], Linear(names, k);
    if k == 0 {
      assert NameOf(more, k) == None;
    } else if k == ino {
      LinearFirst(more, k, |names|);
    } else {
      LinearFirst(more, k, if i < |names| then i else |names| + 1);
    }
  }

  lemma ChangedName(names: seq<Named>, ino: nat, x: string, k: nat)
    requires Known(names, ino)
    ensures NameOf(names[Linear(names, ino) := Named(ino, x)], k) == if k == ino then Some(x) else NameOf(names, k)
  {
    LinearFirst(names[Linear(names, ino) := Named(ino, x)], k, Linear(names, k));
  }

  /** Add a name, then ask for the name of some inode: that of `ino` is what was added, cut off at 255 characters, and
      all others are as before; inode 0 never has one. */
  method AddThenGet(nm: NameMap, ino: nat, name: string, k: nat) returns (rc: int, found: bool, got: string)
    requires nm.Valid()
    modifies nm, nm.hkeys, nm.hvals
    ensures nm.Valid()
    ensures var expected := if rc == 0 && k == ino && ino != 0 then Some(if |name| <= 255 then name else name[..255])
                            else old(NameOf(nm.names, k));
      if found then expected == Some(got) else expected == None
  {
    ghost var before := nm.names;
    rc := nm.Add(ino, name);
    found, got := nm.Get(k);
    ghost var x := if |name| <= 255 then name else name[..255];
    if rc == 0 {
      if Known(before, ino) { ChangedName(before, ino, x, k); } else { AddedName(before, ino, x, k); }
    }
  }

  predicate Known(names: seq<Named>, ino: nat) {
    ino != 0 && Linear(names, ino) < |names|
  }

  lemma RoomFor(count: nat, n: nat)
    requires 2 * (count + 1) <= n || (2 * count < n && n > 1 && PowerOfTwo(n))
    ensures 2 * (count + 1) <= n
  {
    if 2 * count < n && n > 1 && PowerOfTwo(n) { ProbeTable.RoomForOne(n, count); }
  }

  lemma RenameKeeps(names: seq<Named>, keys: seq<nat>, vals: seq<int>, i: nat, name: string)
    requires Unique(names) && i < |names| && HashOk(names, |names|, keys, vals)
    ensures var names' := names[i := Named(names[i].ino, name)];
      Unique(names') && HashOk(names', |names'|, keys, vals)
  {
  }

  lemma ExtendKeeps(names: seq<Named>, keys: seq<nat>, vals: seq<int>, x: Named)
    requires Unique(names) && HashOk(names, |names|, keys, vals) && !Known(names, x.ino)
    ensures Unique(names + [x]) && HashOk(names + [x], |names|, keys, vals)
  {
    forall i | 0 <= i < |names| && names[i].ino != 0 ensures names[i].ino != x.ino {
      LinearUnique(names, i);
    }
  }
}
