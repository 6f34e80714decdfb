/** Ranges, products, quotients and remainders of naturals. */
module Arithmetic {
  const U64: nat := 0x1_0000_0000_0000_0000

  /** The sum of two 64-bit numbers, which wraps around. */
  function Sum64(a: nat, b: nat): (r: nat)
    requires a < U64 && b < U64
    ensures r < U64
  {
    if a + b < U64 then a + b else a + b - U64
  }

  /** `k` is one of the `n` numbers from `s` on. */
  predicate Within(k: nat, s: nat, n: nat) {
    s <= k < s + n
  }

  /** Byte offset of block `n`. */
  function Offset(n: nat, bs: nat): nat {
    if n == 0 then 0 else Offset(n - 1, bs) + bs
  }

  lemma {:induction false} OffsetIsProduct(n: nat, bs: nat)
    ensures Offset(n, bs) == n * bs
  {
    if n > 0 {
      OffsetIsProduct(n - 1, bs);
      assert n * bs == (n - 1) * bs + bs;
    }
  }

  lemma {:induction false} OffsetAdd(a: nat, b: nat, bs: nat)
    ensures Offset(a + b, bs) == Offset(a, bs) + Offset(b, bs)
  {
    if b > 0 { OffsetAdd(a, b - 1, bs); }
  }

  lemma {:induction false} OffsetMonotone(a: nat, b: nat, bs: nat)
    requires a <= b
    ensures Offset(a, bs) <= Offset(b, bs)
  {
    OffsetAdd(a, b - a, bs);
  }

  lemma Product(a: nat, b: nat)
    ensures a * b >= 0
  {
  }

  lemma TimesNext(a: nat, b: nat)
    ensures (a + 1) * b == a * b + b
  {
  }

  lemma MulMonotone(a: nat, b: nat, c: nat)
    requires a <= b
    ensures a * c <= b * c
  {
    assert b * c == a * c + (b - a) * c;
  }

  lemma MulStep(a: nat, b: nat, c: nat)
    requires a < b
    ensures a * c + c <= b * c
  {
    MulMonotone(a + 1, b, c);
  }

  lemma DivMod(q: nat, d: nat, r: nat)
    requires r < d
    ensures (q * d + r) / d == q && (q * d + r) % d == r
  {
    var a := q * d + r;
    var q', r' := a / d, a % d;
    assert a == q' * d + r';
    if q' < q { MulStep(q', q, d); } else if q < q' { MulStep(q, q', d); }
  }

  lemma CeilCovers(a: nat, d: nat)
    requires d > 0
    ensures a <= (a + d - 1) / d * d
  {
    var q, r := (a + d - 1) / d, (a + d - 1) % d;
    assert a + d - 1 == q * d + r;
  }

  lemma CancelFactor(a: nat, b: nat, s: nat)
    requires s > 0 && a * s <= b * s
    ensures a <= b
  {
    if b < a { MulStep(b, a, s); }
  }

  lemma BelowCeil(q: nat, d: nat, r: nat, t: nat)
    requires r < d && q * d + r < t * d
    ensures q < t
  {
    if t <= q { MulMonotone(t, q, d); }
  }

  lemma Quotient(a: nat, d: nat)
    requires d > 0
    ensures a == a / d * d + a % d
  {
  }

  lemma QuotientMonotone(a: nat, b: nat, d: nat)
    requires a <= b && d > 0
    ensures a / d <= b / d
  {
    if b / d < a / d {
      Quotient(a, d);
      Quotient(b, d);
      MulStep(b / d, a / d, d);
    }
  }
}
