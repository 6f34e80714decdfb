/** Open addressing with linear probing, as both hash tables of the tool use it: a table is a sequence of keys,
    0 marking a free slot, and `home` gives the slot where a key's probe path starts. */
module ProbeTable {

  ghost predicate HomeOk(home: nat -> nat, n: nat) {
    forall k: nat :: home(k) < n
  }

  /** Multiplicative hashing: the product wraps at `width`, and a mask of table size `n`, a power of two, is the
      remainder. */
  function HashHome(multiplier: nat, width: nat, n: nat): nat -> nat
    requires width > 0 && n > 0
  {
    (key: nat) => key * multiplier % width % n
  }

  lemma HomeFits(multiplier: nat, width: nat, n: nat)
    requires width > 0 && n > 0
    ensures HomeOk(HashHome(multiplier, width, n), n)
  {
  }

  predicate PowerOfTwo(n: nat) {
    n == 1 || (n > 1 && n % 2 == 0 && PowerOfTwo(n / 2))
  }

  /** The tables' smallest sizes. */
  lemma SmallestArePowers()
    ensures PowerOfTwo(1024) && PowerOfTwo(4096)
  {
    assert PowerOfTwo(8);
    assert PowerOfTwo(64);
    assert PowerOfTwo(512);
  }

  /** A table size that is a power of two has room for one more key as long as it is less than half full. */
  lemma RoomForOne(n: nat, count: nat)
    requires PowerOfTwo(n) && n > 1 && 2 * count < n
    ensures 2 * (count + 1) <= n
  {
  }

  /** Slot `j` lies on the probe path from `h` up to, not including, `i`. */
  predicate OnPath(h: nat, i: nat, j: nat) {
    if h <= i then h <= j < i else h <= j || j < i
  }

  /** No free slot lies between a key's home and its place. */
  ghost predicate Reachable(t: seq<nat>, home: nat -> nat) {
    forall i, j | 0 <= i < |t| && 0 <= j < |t| && t[i] != 0 && OnPath(home(t[i]), i, j) :: t[j] != 0
  }

  ghost predicate Distinct(t: seq<nat>) {
    forall i, j | 0 <= i < j < |t| && t[i] != 0 :: t[i] != t[j]
  }

  function Keys(t: seq<nat>): set<nat> {
    set k | k in t && k != 0
  }

  function Occupied(t: seq<nat>): nat {
    if t == [] then 0 else Occupied(t[..|t| - 1]) + if t[|t| - 1] == 0 then 0 else 1
  }

  lemma {:induction false} OccupiedUpdate(t: seq<nat>, i: nat, k: nat)
    requires i < |t| && t[i] == 0 && k != 0
    ensures Occupied(t[i := k]) == Occupied(t) + 1
  {
    var m := |t| - 1;
    if i == m {
      assert t[i := k][..m] == t[..m];
    } else {
      assert t[i := k][..m] == t[..m][i := k];
      OccupiedUpdate(t[..m], i, k);
    }
  }

  lemma {:induction false} FreeSlot(t: seq<nat>) returns (e: nat)
    requires Occupied(t) < |t|
    ensures e < |t| && t[e] == 0
  {
    var m := |t| - 1;
    if t[m] == 0 { e := m; } else { e := FreeSlot(t[..m]); }
  }

  lemma {:induction false} AllFree(t: seq<nat>)
    requires forall i | 0 <= i < |t| :: t[i] == 0
    ensures Occupied(t) == 0
  {
    if t != [] { AllFree(t[..|t| - 1]); }
  }

  /** Steps from `h` forward to `e` in a table of `n` slots. */
  function Ahead(n: nat, h: nat, e: nat): nat
    requires h < n && e < n
  {
    if h <= e then e - h else e + n - h
  }

  /** A probe that came to `h` has seen no free slot and not the key. */
  ghost predicate Probed(t: seq<nat>, home: nat -> nat, key: nat, h: nat) {
    forall j | 0 <= j < |t| && OnPath(home(key), h, j) :: t[j] != 0 && t[j] != key
  }

  /** The key can only be where its probe path ends. */
  lemma ProbeDecides(t: seq<nat>, home: nat -> nat, key: nat, h: nat)
    requires 0 < |t| && h < |t| && key != 0 && Reachable(t, home) && HomeOk(home, |t|)
    requires Probed(t, home, key, h) && (t[h] == 0 || t[h] == key)
    ensures key in t <==> t[h] == key
  {
    if key in t {
      var p :| 0 <= p < |t| && t[p] == key;
      assert !OnPath(home(key), h, p);
    }
  }

  lemma InsertKeeps(t: seq<nat>, home: nat -> nat, key: nat, h: nat)
    requires 0 < |t| && h < |t| && key != 0 && Reachable(t, home) && Distinct(t)
    requires Probed(t, home, key, h) && t[h] == 0 && key !in t
    ensures Reachable(t[h := key], home) && Distinct(t[h := key]) && Keys(t[h := key]) == Keys(t) + {key}
  {
    var u := t[h := key];
    forall k ensures k in Keys(u) <==> k in Keys(t) + {key} {
      if k in Keys(t) {
        var i :| 0 <= i < |t| && t[i] == k;
        assert u[i] == k;
      }
      if k == key { assert u[h] == k; }
    }
  }

  /** Follow the probe path of a key to the key or to the first free slot. */
  method Probe(a: array<nat>, home: nat -> nat, key: nat) returns (h: nat)
    requires a.Length > 0 && HomeOk(home, a.Length) && Occupied(a[..]) < a.Length
    ensures h < a.Length && Probed(a[..], home, key, h) && (a[h] == 0 || a[h] == key)
  {
    ghost var t := a[..];
    ghost var e := FreeSlot(t);
    h := home(key);
    while a[h] != 0 && a[h] != key
      invariant h < a.Length
      invariant Probed(t, home, key, h)
      decreases Ahead(a.Length, h, e)
    {
      h := if h + 1 == a.Length then 0 else h + 1;
    }
  }

  lemma {:induction false} OccupiedPrefix(t: seq<nat>, i: nat)
    requires i <= |t|
    ensures Occupied(t[..i]) <= Occupied(t)
  {
    if i < |t| {
      OccupiedPrefix(t[..|t| - 1], i);
      assert t[..|t| - 1][..i] == t[..i];
    } else {
      assert t[..i] == t;
    }
  }

  lemma PrefixSnoc(t: seq<nat>, i: nat)
    requires i < |t|
    ensures t[..i + 1] == t[..i] + [t[i]]
    ensures Occupied(t[..i + 1]) == Occupied(t[..i]) + if t[i] == 0 then 0 else 1
    ensures Keys(t[..i + 1]) == Keys(t[..i]) + if t[i] == 0 then {} else {t[i]}
  {
    assert t[..i + 1][..i] == t[..i];
    assert t[..i + 1] == t[..i] + [t[i]];
  }

  /** The counter is the number of distinct blocks in the table. */
  lemma {:induction false} OccupiedIsCardinality(t: seq<nat>)
    requires Distinct(t)
    ensures Occupied(t) == |Keys(t)|
  {
    if t != [] {
      var m := |t| - 1;
      OccupiedIsCardinality(t[..m]);
      PrefixSnoc(t, m);
      assert t[..|t|] == t;
      assert t[m] !in Keys(t[..m]);
    }
  }
}
