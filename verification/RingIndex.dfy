/** Positions in a ring of n entries: unbounded totals against the wrapped indexes the code keeps. */
module RingIndex {
  import opened Arithmetic

  function Next(i: nat, n: nat): nat { if i + 1 == n then 0 else i + 1 }

  function Bit(b: bool): nat { if b then 1 else 0 }

  /** Adding at most one lap. */
  lemma Advance(a: nat, k: nat, n: nat)
    requires 0 < n && k <= n
    ensures a % n < n
    ensures (a + k) % n == if a % n + k < n then a % n + k else a % n + k - n
  {
    var q, r := a / n, a % n;
    assert a == q * n + r;
    if r + k < n {
      ModOf(q, n, r + k);
    } else {
      assert a + k == (q + 1) * n + (r + k - n);
      ModOf(q + 1, n, r + k - n);
    }
  }

  lemma Step(a: nat, n: nat)
    requires 0 < n
    ensures a % n < n && (a + 1) % n == Next(a % n, n)
  {
    Advance(a, 1, n);
  }

  /** Reader total r and writer total w less than a lap apart: what comparing the indexes tells. */
  lemma Compare(r: nat, w: nat, n: nat)
    requires 0 < n && r <= w < r + n
    ensures r % n < n && w % n < n
    ensures w % n >= r % n ==> w - r == w % n - r % n
    ensures w % n < r % n ==> w - r == n - r % n + w % n
    ensures Next(w % n, n) == r % n <==> w + 1 == r + n
  {
    Advance(r, w - r, n);
    Step(w, n);
  }

  /** Less than a lap apart, different totals have different indexes. */
  lemma Distinct(a: nat, b: nat, n: nat)
    requires 0 < n && a < b < a + n
    ensures a % n != b % n
  {
    Compare(a, b, n);
  }

  /** Frames lie at multiples of the height, which divides the ring. */
  lemma FrameStart(k: nat, h: nat)
    requires h > 0
    ensures k * h % (4 * h) == (k % 4) * h && (k % 4) * h + h <= 4 * h
  {
    var q, m := k / 4, k % 4;
    assert k * h == q * (4 * h) + m * h;
    Monotone(m, 4, h);
    ModOf(q, 4 * h, m * h);
  }
}
