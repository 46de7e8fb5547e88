/** Products and remainders of natural numbers, one step at a time. */
module Arithmetic {

  function RoundUpTo4(n: nat): nat { (n + 3) / 4 * 4 }

  function Min(a: int, b: int): int { if a <= b then a else b }

  function Pow2(k: nat): (p: nat)
    ensures p > 0
  {
    if k == 0 then 1 else 2 * Pow2(k - 1)
  }

  lemma MulMonotone(a: nat, b: nat, c: nat)
    requires a <= b
    ensures a * c <= b * c && c * a <= c * b
  {
  }

  lemma OneMore(a: nat, c: nat)
    ensures (a + 1) * c == a * c + c
  {
  }

  lemma Monotone(p: nat, q: nat, n: nat)
    ensures p < q ==> p * n + n <= q * n
  {
    if p < q {
      MulMonotone(p + 1, q, n);
      OneMore(p, n);
    }
  }

  lemma Distribute(a: nat, b: nat, c: nat)
    ensures (a + b) * c == a * c + b * c && 0 <= a * c
  {
  }

  lemma ModOf(q: nat, n: nat, r: nat)
    requires r < n
    ensures (q * n + r) % n == r
  {
    var v := q * n + r;
    var p := v / n;
    assert v == p * n + v % n;
    Monotone(q, p, n);
    Monotone(p, q, n);
  }

  lemma SmallMod(i: nat, n: nat)
    requires i < n
    ensures i % n == i
  {
  }
}
