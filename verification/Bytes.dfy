/** Bytes and the fixed-width integers stored in them. */
module Bytes {
  type byte = x: int | 0 <= x < 256

  function Le16(s: seq<byte>, i: nat): (v: nat)
    requires i + 2 <= |s|
    ensures v < 0x1_0000
  {
    s[i] as int + 0x100 * s[i + 1] as int
  }

  function Le32(s: seq<byte>, i: nat): (v: nat)
    requires i + 4 <= |s|
    ensures v < 0x1_0000_0000
  {
    s[i] as int + 0x100 * s[i + 1] as int + 0x1_0000 * s[i + 2] as int + 0x100_0000 * s[i + 3] as int
  }

  function Be16(s: seq<byte>, i: nat): (v: nat)
    requires i + 2 <= |s|
    ensures v < 0x1_0000
  {
    0x100 * s[i] as int + s[i + 1] as int
  }

  function Be32(s: seq<byte>, i: nat): (v: nat)
    requires i + 4 <= |s|
    ensures v < 0x1_0000_0000
  {
    0x100_0000 * s[i] as int + 0x1_0000 * s[i + 1] as int + 0x100 * s[i + 2] as int + s[i + 3] as int
  }

  // ----- the same integers as bytes -----

  function PutLe16(v: nat): (s: seq<byte>)
    requires v < 0x1_0000
    ensures |s| == 2
  {
    [v % 0x100, v / 0x100]
  }

  function PutLe32(v: nat): (s: seq<byte>)
    requires v < 0x1_0000_0000
    ensures |s| == 4
  {
    [v % 0x100, v / 0x100 % 0x100, v / 0x1_0000 % 0x100, v / 0x100_0000]
  }

  function PutBe16(v: nat): (s: seq<byte>)
    requires v < 0x1_0000
    ensures |s| == 2
  {
    [v / 0x100, v % 0x100]
  }

  function PutBe32(v: nat): (s: seq<byte>)
    requires v < 0x1_0000_0000
    ensures |s| == 4
  {
    [v / 0x100_0000, v / 0x1_0000 % 0x100, v / 0x100 % 0x100, v % 0x100]
  }

  /** Bytes `t` stand in `s` from position `p` on. */
  predicate StandsAt(s: seq<byte>, p: nat, t: seq<byte>) {
    p + |t| <= |s| && s[p..p + |t|] == t
  }

  lemma StandsBytes(s: seq<byte>, p: nat, t: seq<byte>)
    requires StandsAt(s, p, t)
    ensures forall k | 0 <= k < |t| :: s[p + k] == t[k]
  {
    forall k | 0 <= k < |t| ensures s[p + k] == t[k] {
      assert s[p..p + |t|][k] == t[k];
    }
  }

  lemma StandsPart(s: seq<byte>, p: nat, a: seq<byte>, b: seq<byte>)
    requires StandsAt(s, p, a + b)
    ensures StandsAt(s, p, a) && StandsAt(s, p + |a|, b)
  {
    var t := s[p..p + |a + b|];
    assert t[..|a|] == a && t[|a|..] == b;
  }

  lemma PrefixStands(s: seq<byte>, a: seq<byte>, t: seq<byte>)
    requires a + t <= s
    ensures StandsAt(s, |a|, t)
  {
    assert s[..|a + t|] == a + t;
  }

  lemma StandsWithin(s: seq<byte>, p: nat, t: seq<byte>, q: nat, u: seq<byte>)
    requires StandsAt(s, p, t) && StandsAt(t, q, u)
    ensures StandsAt(s, p + q, u)
  {
    StandsBytes(s, p, t);
    StandsBytes(t, q, u);
    forall k | 0 <= k < |u| ensures s[p + q + k] == u[k] {
      assert s[p + (q + k)] == t[q + k];
    }
  }

  /** Pieces laid end to end. */
  function Join(es: seq<seq<byte>>): seq<byte> {
    if es == [] then [] else Join(es[..|es| - 1]) + es[|es| - 1]
  }

  lemma {:induction false} JoinStands(es: seq<seq<byte>>, i: nat)
    requires i < |es|
    ensures StandsAt(Join(es), |Join(es[..i])|, es[i])
  {
    var m := |es| - 1;
    if i < m {
      JoinStands(es[..m], i);
      assert es[..m][..i] == es[..i];
    }
  }

  /** A piece stands where the ones before it end. */
  lemma PieceStands(es: seq<seq<byte>>, s: seq<byte>, p: nat, i: nat, e: seq<byte>)
    requires i < |es| && StandsAt(s, p, Join(es)) && es[i] == e
    ensures StandsAt(s, p + |Join(es[..i])|, e)
    ensures p + |Join(es[..i + 1])| == p + |Join(es[..i])| + |e|
  {
    JoinStands(es, i);
    JoinNext(es, i);
    StandsWithin(s, p, Join(es), |Join(es[..i])|, e);
  }

  lemma JoinOne(e: seq<byte>)
    ensures Join([e]) == e
  {
    assert [e][..0] == [];
  }

  lemma JoinNext(es: seq<seq<byte>>, i: nat)
    requires i < |es|
    ensures |Join(es[..i + 1])| == |Join(es[..i])| + |es[i]|
  {
    assert es[..i + 1][..i] == es[..i];
  }

  /** What was written is read, wherever it stands. */
  lemma ReadsLe16(s: seq<byte>, p: nat, v: nat)
    requires v < 0x1_0000 && StandsAt(s, p, PutLe16(v))
    ensures Le16(s, p) == v
  {
    StandsBytes(s, p, PutLe16(v));
  }

  lemma ReadsLe32(s: seq<byte>, p: nat, v: nat)
    requires v < 0x1_0000_0000 && StandsAt(s, p, PutLe32(v))
    ensures Le32(s, p) == v
  {
    StandsBytes(s, p, PutLe32(v));
    Digits(v);
  }

  lemma ReadsBe16(s: seq<byte>, p: nat, v: nat)
    requires v < 0x1_0000 && StandsAt(s, p, PutBe16(v))
    ensures Be16(s, p) == v
  {
    StandsBytes(s, p, PutBe16(v));
  }

  lemma ReadsBe32(s: seq<byte>, p: nat, v: nat)
    requires v < 0x1_0000_0000 && StandsAt(s, p, PutBe32(v))
    ensures Be32(s, p) == v
  {
    StandsBytes(s, p, PutBe32(v));
    Digits(v);
  }

  lemma Digits(v: nat)
    ensures v == v % 0x100 + 0x100 * (v / 0x100 % 0x100) + 0x1_0000 * (v / 0x1_0000 % 0x100)
              + 0x100_0000 * (v / 0x100_0000)
  {
    assert v / 0x1_0000 == v / 0x100 / 0x100 && v / 0x100_0000 == v / 0x100 / 0x100 / 0x100;
  }

  /** What is read is what was written. */
  lemma PutsLe16(s: seq<byte>, p: nat)
    requires p + 2 <= |s|
    ensures PutLe16(Le16(s, p)) == s[p..p + 2]
  {
  }

  lemma PutsLe32(s: seq<byte>, p: nat)
    requires p + 4 <= |s|
    ensures PutLe32(Le32(s, p)) == s[p..p + 4]
  {
    Bytewise(s[p], s[p + 1], s[p + 2], s[p + 3]);
  }

  lemma Bytewise(a: byte, b: byte, c: byte, d: byte)
    ensures var v: nat := a + 0x100 * b + 0x1_0000 * c + 0x100_0000 * d;
      v % 0x100 == a && v / 0x100 % 0x100 == b && v / 0x1_0000 % 0x100 == c && v / 0x100_0000 == d
  {
    var v: nat := a + 0x100 * b + 0x1_0000 * c + 0x100_0000 * d;
    assert v / 0x100 == b + 0x100 * c + 0x1_0000 * d;
    assert v / 0x1_0000 == c + 0x100 * d;
  }
}
