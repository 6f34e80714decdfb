/** Collision-free output names (improved/utils_v5.c:209-262): the first inode to ask for a mapped name owns it,
    every other inode is diverted to "<ino>_file". */
module OutputNames {
  import opened NameIndex

  // ----- the fallback name -----

  function Digit(d: nat): char
    requires d < 10
  {
    "0123456789"[d]
  }

  function Decimal(n: nat): (s: string)
    ensures s != ""
    ensures forall i | 0 <= i < |s| :: s[i] != '_'
  {
    if n < 10 then [Digit(n)] else Decimal(n / 10) + [Digit(n % 10)]
  }

  lemma {:induction false} DecimalInjective(a: nat, b: nat)
    requires Decimal(a) == Decimal(b)
    ensures a == b
  {
    var s, t := Decimal(a), Decimal(b);
    assert s[|s| - 1] == Digit(a % 10) && t[|t| - 1] == Digit(b % 10);
    DigitInjective(a % 10, b % 10);
    if a >= 10 && b >= 10 {
      assert Decimal(a / 10) == s[..|s| - 1] && Decimal(b / 10) == t[..|t| - 1];
      DecimalInjective(a / 10, b / 10);
    }
  }

  lemma DigitInjective(a: nat, b: nat)
    requires a < 10 && b < 10 && Digit(a) == Digit(b)
    ensures a == b
  {
  }

  /** The number a string of decimal digits stands for. */
  function Value(s: string): int {
    if s == [] then 0 else 10 * Value(s[..|s| - 1]) + (s[|s| - 1] as int - '0' as int)
  }

  /** Digits only, and no more of them than needed. */
  predicate Numeral(s: string) {
    s != "" && (forall i | 0 <= i < |s| :: '0' <= s[i] <= '9') && (|s| > 1 ==> s[0] != '0')
  }

  lemma {:induction false} DecimalReads(n: nat)
    ensures Numeral(Decimal(n)) && Value(Decimal(n)) == n
    ensures n > 0 ==> Decimal(n)[0] != '0'
  {
    DigitReads(n % 10);
    if n < 10 {
      assert Decimal(n)[..0] == [];
    } else {
      DecimalReads(n / 10);
      assert Decimal(n)[..|Decimal(n)| - 1] == Decimal(n / 10);
    }
  }

  lemma DigitReads(d: nat)
    requires d < 10
    ensures '0' <= Digit(d) <= '9' && Digit(d) as int - '0' as int == d
  {
  }

  const SUFFIX: string := "_file"

  function Fallback(ino: nat): string {
    Decimal(ino) + SUFFIX
  }

  /** The fallback name is the inode's number in decimal, and "_file". */
  lemma FallbackReads(ino: nat)
    ensures exists s :: Fallback(ino) == s + "_file" && Numeral(s) && Value(s) == ino
  {
    DecimalReads(ino);
    assert Fallback(ino) == Decimal(ino) + "_file";
  }

  lemma FallbackInjective(a: nat, b: nat)
    requires Fallback(a) == Fallback(b)
    ensures a == b
  {
    var s, t := Fallback(a), Fallback(b);
    assert |Decimal(a)| == |s| - |SUFFIX| && |Decimal(b)| == |t| - |SUFFIX|;
    assert Decimal(a) == s[..|Decimal(a)|] && Decimal(b) == t[..|Decimal(b)|];
    DecimalInjective(a, b);
  }

  // ----- claims -----

  type NameOf = map<nat, string>
  type Owners = map<string, nat>

  /** The name an inode gets, given who owns what. */
  function Answer(m: NameOf, owners: Owners, ino: nat): string {
    if ino in m && (m[ino] in owners ==> owners[m[ino]] == ino) then m[ino] else Fallback(ino)
  }

  function Claimed(m: NameOf, owners: Owners, ino: nat): Owners {
    if ino in m && m[ino] !in owners then owners[m[ino] := ino] else owners
  }

  /** Who owns what after a sequence of calls. */
  function After(m: NameOf, calls: seq<nat>): Owners {
    if calls == [] then map[] else Claimed(m, After(m, calls[..|calls| - 1]), calls[|calls| - 1])
  }

  /** The answer to call number `i`. */
  function AnswerTo(m: NameOf, calls: seq<nat>, i: nat): string
    requires i < |calls|
  {
    Answer(m, After(m, calls[..i]), calls[i])
  }

  /** Owners own names they are mapped to. */
  lemma {:induction false} OwnersAreMapped(m: NameOf, calls: seq<nat>)
    ensures forall n | n in After(m, calls) :: After(m, calls)[n] in m && m[After(m, calls)[n]] == n
  {
    if calls != [] { OwnersAreMapped(m, calls[..|calls| - 1]); }
  }

  /** A claim is never lost. */
  lemma {:induction false} ClaimsStay(m: NameOf, calls: seq<nat>, i: nat, n: string)
    requires i <= |calls| && n in After(m, calls[..i])
    ensures n in After(m, calls) && After(m, calls)[n] == After(m, calls[..i])[n]
  {
    if i == |calls| {
      assert calls[..i] == calls;
    } else {
      var c := |calls| - 1;
      assert calls[..c][..i] == calls[..i];
      ClaimsStay(m, calls[..c], i, n);
    }
  }

  /** Who owns an inode's mapped name is settled by the time the inode has asked. */
  lemma OwnerSettled(m: NameOf, calls: seq<nat>, i: nat)
    requires i < |calls| && calls[i] in m
    ensures m[calls[i]] in After(m, calls)
    ensures AnswerTo(m, calls, i) ==
            if After(m, calls)[m[calls[i]]] == calls[i] then m[calls[i]] else Fallback(calls[i])
  {
    var n := m[calls[i]];
    assert calls[..i + 1][..i] == calls[..i];
    assert After(m, calls[..i + 1]) == Claimed(m, After(m, calls[..i]), calls[i]);
    ClaimsStay(m, calls, i + 1, n);
    if n in After(m, calls[..i]) { ClaimsStay(m, calls, i, n); }
  }

  /** One inode always gets the same name. */
  lemma SameInodeSameName(m: NameOf, calls: seq<nat>, i: nat, j: nat)
    requires i < |calls| && j < |calls| && calls[i] == calls[j]
    ensures AnswerTo(m, calls, i) == AnswerTo(m, calls, j)
  {
    if calls[i] in m {
      OwnerSettled(m, calls, i);
      OwnerSettled(m, calls, j);
    }
  }

  /** An inode mapped to another's fallback name is harmless only if that other one cannot be diverted. */
  ghost predicate NoClash(m: NameOf) {
    forall i: nat, k: nat | i in m && i != k && m[i] == Fallback(k) ::
      k in m && OnlyHolder(m, k)
  }

  /** No other inode is mapped to `k`'s name. */
  ghost predicate OnlyHolder(m: NameOf, k: nat)
    requires k in m
  {
    forall j: nat | j in m && j != k :: m[j] != m[k]
  }

  ghost predicate AlwaysDistinct(m: NameOf) {
    forall calls: seq<nat>, i: nat, j: nat | i < |calls| && j < |calls| && calls[i] != calls[j] ::
      AnswerTo(m, calls, i) != AnswerTo(m, calls, j)
  }

  lemma MappedVersusDiverted(m: NameOf, calls: seq<nat>, i: nat, j: nat)
    requires NoClash(m) && i < |calls| && j < |calls| && calls[i] != calls[j]
    requires calls[i] in m && AnswerTo(m, calls, i) == m[calls[i]]
    requires AnswerTo(m, calls, j) == Fallback(calls[j])
    ensures AnswerTo(m, calls, i) != AnswerTo(m, calls, j)
  {
    if m[calls[i]] == Fallback(calls[j]) { DivertedHasRival(m, calls, j); }
  }

  /** An inode that has a name of its own and is diverted shares that name with another inode. */
  lemma DivertedHasRival(m: NameOf, calls: seq<nat>, j: nat)
    requires j < |calls| && AnswerTo(m, calls, j) == Fallback(calls[j])
    ensures calls[j] in m ==> m[calls[j]] == Fallback(calls[j]) || !OnlyHolder(m, calls[j])
  {
    if calls[j] in m {
      OwnersAreMapped(m, calls);
      OwnerSettled(m, calls, j);
    }
  }

  lemma DistinctNames(m: NameOf, calls: seq<nat>, i: nat, j: nat)
    requires NoClash(m) && i < |calls| && j < |calls| && calls[i] != calls[j]
    ensures AnswerTo(m, calls, i) != AnswerTo(m, calls, j)
  {
    if AnswerTo(m, calls, i) == Fallback(calls[i]) && AnswerTo(m, calls, j) == Fallback(calls[j]) {
      if Fallback(calls[i]) == Fallback(calls[j]) { FallbackInjective(calls[i], calls[j]); }
    } else if AnswerTo(m, calls, j) == Fallback(calls[j]) {
      MappedVersusDiverted(m, calls, i, j);
    } else if AnswerTo(m, calls, i) == Fallback(calls[i]) {
      MappedVersusDiverted(m, calls, j, i);
    } else {
      OwnerSettled(m, calls, i);
      OwnerSettled(m, calls, j);
    }
  }

  /** Otherwise some calls collide. */
  lemma ClashCollides(m: NameOf, i: nat, k: nat) returns (calls: seq<nat>, a: nat, b: nat)
    requires i in m && i != k && m[i] == Fallback(k) && (k in m ==> !OnlyHolder(m, k))
    ensures a < |calls| && b < |calls| && calls[a] != calls[b] && AnswerTo(m, calls, a) == AnswerTo(m, calls, b)
  {
    if k !in m {
      calls, a, b := [k, i], 0, 1;
      assert After(m, calls[..1]) == Claimed(m, After(m, []), k);
    } else if m[i] == m[k] {
      calls, a, b := [i, k], 0, 1;
      assert calls[..1] == [i];
    } else {
      var j: nat :| j in m && j != k && m[j] == m[k];
      calls, a, b := [j, k, i], 1, 2;
      assert calls[..1] == [j] && calls[..2] == [j, k];
      assert [j, k][..1] == [j];
      assert After(m, [j]) == map[m[j] := j];
      assert After(m, [j, k]) == Claimed(m, After(m, [j]), k);
    }
  }

  /** Over all sequences of calls distinct inodes get distinct names exactly when the map has no clash. */
  lemma DistinctExactlyWithoutClash(m: NameOf)
    ensures AlwaysDistinct(m) <==> NoClash(m)
  {
    if NoClash(m) {
      forall calls: seq<nat>, i: nat, j: nat | i < |calls| && j < |calls| && calls[i] != calls[j]
        ensures AnswerTo(m, calls, i) != AnswerTo(m, calls, j)
      {
        DistinctNames(m, calls, i, j);
      }
    } else {
      var i: nat, k: nat :| i in m && i != k && m[i] == Fallback(k) && (k in m ==> !OnlyHolder(m, k));
      var calls, a, b := ClashCollides(m, i, k);
    }
  }

  /** In particular when no file is named like a fallback. */
  lemma OrdinaryNamesAreDistinct(m: NameOf)
    requires forall i: nat, k: nat | i in m :: m[i] != Fallback(k)
    ensures AlwaysDistinct(m)
  {
    DistinctExactlyWithoutClash(m);
  }

  // ----- in place -----

  datatype Claim = Claim(ino: nat, name: string)

  /** What the list of claims means: the first claim of a name counts. */
  function Meaning(claims: seq<Claim>): Owners {
    if claims == [] then map[]
    else
      var m := |claims| - 1;
      var rest := Meaning(claims[..m]);
      if claims[m].name in rest then rest else rest[claims[m].name := claims[m].ino]
  }

  /** What the name array means. */
  ghost predicate MapOf(names: seq<Named>, m: NameOf) {
    && (forall ino: nat :: ino in m <==> Known(names, ino))
    && (forall ino: nat | ino in m :: m[ino] == names[Linear(names, ino)].name)
  }

  lemma {:induction false} ClaimIn(claims: seq<Claim>, n: string)
    ensures n in Meaning(claims) <==> exists i :: 0 <= i < |claims| && claims[i].name == n
  {
    if claims != [] {
      var m := |claims| - 1;
      ClaimIn(claims[..m], n);
      if i :| 0 <= i < m && claims[..m][i].name == n { assert claims[i].name == n; }
      if i :| 0 <= i < |claims| && claims[i].name == n { assert i < m ==> claims[..m][i].name == n; }
    }
  }

  lemma {:induction false} FirstClaim(claims: seq<Claim>, i: nat)
    requires i < |claims| && forall k | 0 <= k < i :: claims[k].name != claims[i].name
    ensures claims[i].name in Meaning(claims) && Meaning(claims)[claims[i].name] == claims[i].ino
  {
    var m := |claims| - 1;
    if i < m {
      FirstClaim(claims[..m], i);
    } else {
      ClaimIn(claims[..m], claims[m].name);
    }
  }

  /** The first claim of a name. */
  method FindClaim(claims: seq<Claim>, name: string) returns (i: nat)
    ensures i <= |claims| && (i < |claims| <==> name in Meaning(claims))
    ensures i < |claims| ==> claims[i].ino == Meaning(claims)[name]
  {
    i := 0;
    while i < |claims| && claims[i].name != name
      invariant i <= |claims|
      invariant forall k | 0 <= k < i :: claims[k].name != name
    {
      i := i + 1;
    }
    ClaimIn(claims, name);
    if i < |claims| { FirstClaim(claims, i); }
  }

  /** The answers are those specified for the first calls. */
  ghost predicate Answered(m: NameOf, calls: seq<nat>, answers: seq<string>) {
    |answers| <= |calls| && forall i | 0 <= i < |answers| :: answers[i] == AnswerTo(m, calls, i)
  }

  class Resolver {
    const names: NameMap
    var claims: seq<Claim>

    constructor (names: NameMap)
      ensures this.names == names && claims == []
    {
      this.names, claims := names, [];
    }

    /** resolve_output_name. */
    method Resolve(ino: nat, ghost m: NameOf) returns (out: string)
      requires names.Valid() && MapOf(names.names, m)
      modifies this
      ensures out == Answer(m, Meaning(old(claims)), ino)
      ensures Meaning(claims) == Claimed(m, Meaning(old(claims)), ino)
    {
      var found, name := names.Get(ino);
      if found {
        var i := FindClaim(claims, name);
        if i < |claims| {
          if claims[i].ino == ino {
            return name;
          }
        } else {
          assert (claims + [Claim(ino, name)])[..|claims|] == claims;
          claims := claims + [Claim(ino, name)];
          return name;
        }
      }
      out := Fallback(ino);
    }

    /** A whole sequence of calls against an unchanging map answers call by call as specified. */
    method ResolveAll(ghost m: NameOf, calls: seq<nat>) returns (answers: seq<string>)
      requires names.Valid() && MapOf(names.names, m) && claims == []
      modifies this
      ensures |answers| == |calls| && Answered(m, calls, answers)
    {
      answers := [];
      for i := 0 to |calls|
        invariant |answers| == i && Answered(m, calls, answers)
        invariant Meaning(claims) == After(m, calls[..i])
      {
        var out := ResolveNext(m, calls, i);
        answers := answers + [out];
      }
    }

    /** Call number `i` of a sequence. */
    method ResolveNext(ghost m: NameOf, calls: seq<nat>, i: nat) returns (out: string)
      requires names.Valid() && MapOf(names.names, m) && i < |calls| && Meaning(claims) == After(m, calls[..i])
      modifies this
      ensures out == AnswerTo(m, calls, i) && Meaning(claims) == After(m, calls[..i + 1])
    {
      AfterStep(m, calls, i);
      out := Resolve(calls[i], m);
    }
  }

  lemma AfterStep(m: NameOf, calls: seq<nat>, i: nat)
    requires i < |calls|
    ensures After(m, calls[..i + 1]) == Claimed(m, After(m, calls[..i]), calls[i])
  {
    assert calls[..i + 1][..i] == calls[..i];
  }
}
