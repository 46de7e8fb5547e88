/** Doubling sizes in rounds, one flow after the other, out of a common budget: which doublings that leads to. */
module RoundRobin {
  import opened Arithmetic
  import opened Words
  import opened PrimeFactor

  // ----- sums -----

  function Sum(s: seq<uint32>): nat { if s == [] then 0 else Sum(s[..|s| - 1]) + s[|s| - 1] }

  lemma SumAppend(s: seq<uint32>, x: uint32)
    ensures Sum(s + [x]) == Sum(s) + x
  {
    assert (s + [x])[..|s|] == s;
  }

  lemma {:induction false} SumUpdate(s: seq<uint32>, i: nat, x: uint32)
    requires i < |s|
    ensures Sum(s[i := x]) == Sum(s) - s[i] + x
  {
    var last := |s| - 1;
    if i < last {
      SumUpdate(s[..last], i, x);
      assert s[i := x][..last] == s[..last][i := x];
    } else {
      assert s[i := x][..last] == s[..last];
    }
  }

  // ----- turns -----

  /** A flow grows when the budget left covers its size once more and the doubled size divides the flow. */
  predicate CanDouble(flow: nat, b: nat, left: int) { b <= left && b < flow && Divides(2 * b, flow) }

  function Twice(b: nat): nat { 2 * b }

  /** Turns flow i has had before the turn of flow j in round k: one a round, flows in order. */
  function Turns(i: nat, k: nat, j: nat): nat { if i < j then k + 1 else k }

  /** Doublings of flow i before that turn: at most one a turn. */
  function DoublingsBy(count: nat, i: nat, k: nat, j: nat): nat {
    if count <= Turns(i, k, j) then count else Turns(i, k, j)
  }

  /** The sizes of the first n flows, added up, at the turn of flow j in round k. */
  function SizesAt(start: seq<uint32>, counts: seq<nat>, k: nat, j: nat, n: nat): nat
    requires n <= |start| == |counts|
  {
    if n == 0 then 0
    else SizesAt(start, counts, k, j, n - 1) + start[n - 1] * Pow2(DoublingsBy(counts[n - 1], n - 1, k, j))
  }

  /** At its turn in round k flow i, doubled in every round before, can be doubled once more. */
  ghost predicate Doubles(flows: seq<uint32>, start: seq<uint32>, counts: seq<nat>, budget: nat, k: nat, i: nat)
    requires |flows| == |start| == |counts| && i < |flows|
  {
    CanDouble(flows[i], start[i] * Pow2(k), budget - SizesAt(start, counts, k, i, |start|))
  }

  /** Flow i is doubled in the rounds before counts[i], and cannot be in that round. */
  ghost predicate StopsAt(flows: seq<uint32>, start: seq<uint32>, counts: seq<nat>, budget: nat, i: nat)
    requires |flows| == |start| == |counts| && i < |flows|
  {
    (forall k: nat :: k < counts[i] ==> Doubles(flows, start, counts, budget, k, i))
    && !Doubles(flows, start, counts, budget, counts[i], i)
  }

  /** Every flow takes its turn in every round and grows whenever it can, until it cannot. */
  ghost predicate IsRoundRobin(flows: seq<uint32>, start: seq<uint32>, counts: seq<nat>, budget: nat) {
    && |flows| == |start| == |counts|
    && forall i: nat :: i < |flows| ==> StopsAt(flows, start, counts, budget, i)
  }

  // ----- only one outcome -----

  ghost predicate Agree(c: seq<nat>, d: seq<nat>, k: nat, j: nat) {
    |c| == |d| && forall m: nat :: m < |c| ==> DoublingsBy(c[m], m, k, j) == DoublingsBy(d[m], m, k, j)
  }

  lemma {:induction false} SameSizes(start: seq<uint32>, c: seq<nat>, d: seq<nat>, k: nat, j: nat, n: nat)
    requires n <= |start| == |c| && Agree(c, d, k, j)
    ensures SizesAt(start, c, k, j, n) == SizesAt(start, d, k, j, n)
  {
    hide DoublingsBy;
    if n > 0 {
      SameSizes(start, c, d, k, j, n - 1);
    }
  }

  lemma {:induction false} AgreeAt(flows: seq<uint32>, start: seq<uint32>, c: seq<nat>, d: seq<nat>, budget: nat,
                                   k: nat, j: nat)
    requires IsRoundRobin(flows, start, c, budget) && IsRoundRobin(flows, start, d, budget) && j <= |flows|
    ensures Agree(c, d, k, j)
    decreases k, j
  {
    hide SizesAt, CanDouble;
    if j > 0 {
      AgreeAt(flows, start, c, d, budget, k, j - 1);
      TurnAgrees(flows, start, c, d, budget, k, j - 1);
    } else if k > 0 {
      AgreeAt(flows, start, c, d, budget, k - 1, |flows|);
      NextRoundAgrees(c, d, k - 1);
    }
  }

  /** Before the turn the sizes agree, so what it finds does. */
  lemma TurnAgrees(flows: seq<uint32>, start: seq<uint32>, c: seq<nat>, d: seq<nat>, budget: nat, k: nat, j: nat)
    requires IsRoundRobin(flows, start, c, budget) && IsRoundRobin(flows, start, d, budget) && j < |flows|
    requires Agree(c, d, k, j)
    ensures Agree(c, d, k, j + 1)
  {
    hide SizesAt, CanDouble;
    SameSizes(start, c, d, k, j, |start|);
    assert StopsAt(flows, start, c, budget, j) && StopsAt(flows, start, d, budget, j);
    assert Doubles(flows, start, c, budget, k, j) == Doubles(flows, start, d, budget, k, j);
    forall m: nat | m < |c|
      ensures DoublingsBy(c[m], m, k, j + 1) == DoublingsBy(d[m], m, k, j + 1)
    {
      assert DoublingsBy(c[m], m, k, j) == DoublingsBy(d[m], m, k, j);
    }
  }

  lemma NextRoundAgrees(c: seq<nat>, d: seq<nat>, k: nat)
    requires Agree(c, d, k, |c|)
    ensures Agree(c, d, k + 1, 0)
  {
    forall m: nat | m < |c|
      ensures DoublingsBy(c[m], m, k + 1, 0) == DoublingsBy(d[m], m, k + 1, 0)
    {
      assert DoublingsBy(c[m], m, k, |c|) == DoublingsBy(d[m], m, k, |c|);
    }
  }

  /** The rounds determine how often each flow is doubled. */
  lemma OneOutcome(flows: seq<uint32>, start: seq<uint32>, c: seq<nat>, d: seq<nat>, budget: nat)
    requires IsRoundRobin(flows, start, c, budget) && IsRoundRobin(flows, start, d, budget)
    ensures c == d
  {
    hide StopsAt;
    forall m: nat | m < |c|
      ensures c[m] == d[m]
    {
      var k := if c[m] <= d[m] then d[m] else c[m];
      AgreeAt(flows, start, c, d, budget, k, 0);
    }
  }

  // ----- what holds while the rounds go on -----

  ghost predicate AreGrown(start: seq<uint32>, counts: seq<nat>, bufs: seq<uint32>) {
    |start| == |counts| == |bufs| && forall i: nat :: i < |bufs| ==> bufs[i] == start[i] * Pow2(counts[i])
  }

  /** Up to the turn of flow j in round k every flow has grown exactly as it could. */
  ghost predicate SoFar(flows: seq<uint32>, start: seq<uint32>, counts: seq<nat>, budget: nat, k: nat, j: nat) {
    && |flows| == |start| == |counts|
    && forall i: nat :: i < |flows| ==> OneSoFar(flows, start, counts, budget, k, j, i)
  }

  ghost predicate OneSoFar(flows: seq<uint32>, start: seq<uint32>, counts: seq<nat>, budget: nat,
                           k: nat, j: nat, i: nat)
    requires |flows| == |start| == |counts| && i < |flows|
  {
    && counts[i] <= Turns(i, k, j)
    && (forall m: nat :: m < counts[i] ==> Doubles(flows, start, counts, budget, m, i))
    && (counts[i] < Turns(i, k, j) ==> !Doubles(flows, start, counts, budget, counts[i], i))
  }

  lemma {:induction false} PowMonotone(a: nat, b: nat)
    requires a <= b
    ensures 0 < Pow2(a) <= Pow2(b)
    decreases b
  {
    if a < b {
      PowMonotone(a, b - 1);
    } else if b > 0 {
      PowMonotone(a - 1, b - 1);
    }
  }

  /** At the turn reached the sizes are those in the buffers; at earlier ones they were no larger. */
  lemma {:induction false} SizesNow(start: seq<uint32>, counts: seq<nat>, bufs: seq<uint32>, k: nat, j: nat, n: nat)
    requires AreGrown(start, counts, bufs) && n <= |start|
    ensures SizesAt(start, counts, k, j, n) <= Sum(bufs[..n])
    ensures (forall i: nat :: i < n ==> counts[i] <= Turns(i, k, j)) ==>
              SizesAt(start, counts, k, j, n) == Sum(bufs[..n])
  {
    if n > 0 {
      SizesNow(start, counts, bufs, k, j, n - 1);
      assert bufs[..n] == bufs[..n - 1] + [bufs[n - 1]];
      SumAppend(bufs[..n - 1], bufs[n - 1]);
      var done := DoublingsBy(counts[n - 1], n - 1, k, j);
      PowMonotone(done, counts[n - 1]);
      MulMonotone(Pow2(done), Pow2(counts[n - 1]), start[n - 1]);
    }
  }

  lemma SizesAreBuffers(start: seq<uint32>, counts: seq<nat>, bufs: seq<uint32>, k: nat, j: nat)
    requires AreGrown(start, counts, bufs)
    ensures SizesAt(start, counts, k, j, |start|) <= Sum(bufs)
    ensures (forall i: nat :: i < |start| ==> counts[i] <= Turns(i, k, j)) ==>
              SizesAt(start, counts, k, j, |start|) == Sum(bufs)
  {
    SizesNow(start, counts, bufs, k, j, |start|);
    assert bufs[..|start|] == bufs;
  }

  /** A later doubling does not change what an earlier turn found. */
  lemma DoublesKept(flows: seq<uint32>, start: seq<uint32>, counts: seq<nat>, budget: nat,
                    k: nat, j: nat, m: nat, i: nat)
    requires |flows| == |start| == |counts| && i < |flows| && j < |flows|
    requires counts[j] == k && (m < k || (m == k && i <= j))
    ensures Doubles(flows, start, counts[j := k + 1], budget, m, i) == Doubles(flows, start, counts, budget, m, i)
  {
    assert Agree(counts, counts[j := k + 1], m, i);
    SameSizes(start, counts, counts[j := k + 1], m, i, |start|);
  }

  lemma StartOfRounds(flows: seq<uint32>, start: seq<uint32>, budget: nat)
    requires |flows| == |start|
    ensures var counts := seq(|start|, _ => 0);
            SoFar(flows, start, counts, budget, 0, 0) && AreGrown(start, counts, start)
  {
    var counts := seq(|start|, _ => 0);
    assert forall i: nat :: i < |start| ==> start[i] == start[i] * Pow2(counts[i]);
  }

  /** One turn: flow j grows exactly when it can. */
  lemma TurnTaken(flows: seq<uint32>, start: seq<uint32>, counts: seq<nat>, bufs: seq<uint32>, ram: nat, k: nat, j: nat)
    requires SoFar(flows, start, counts, ram + Sum(bufs), k, j) && AreGrown(start, counts, bufs) && j < |flows|
    ensures !CanDouble(flows[j], bufs[j], ram) ==> SoFar(flows, start, counts, ram + Sum(bufs), k, j + 1)
    ensures CanDouble(flows[j], bufs[j], ram) ==>
              SoFar(flows, start, counts[j := counts[j] + 1], ram + Sum(bufs), k, j + 1)
  {
    hide SizesAt, Sum, CanDouble, Doubles;
    var budget, after := ram + Sum(bufs), j + 1;
    var can := CanDouble(flows[j], bufs[j], ram);
    var next := if can then counts[j := counts[j] + 1] else counts;
    TurnFound(flows, start, counts, bufs, ram, k, j);
    forall i: nat | i < |flows|
      ensures OneSoFar(flows, start, next, budget, k, after, i)
    {
      assert OneSoFar(flows, start, counts, budget, k, j, i);
      if can {
        OtherTurns(flows, start, counts, budget, k, j, i);
      } else {
        SameTurns(flows, start, counts, budget, k, j, i);
      }
    }
  }

  /** What the turn of flow j finds is whether it can be doubled in round k; a flow refused before stays refused. */
  lemma TurnFound(flows: seq<uint32>, start: seq<uint32>, counts: seq<nat>, bufs: seq<uint32>, ram: nat, k: nat, j: nat)
    requires SoFar(flows, start, counts, ram + Sum(bufs), k, j) && AreGrown(start, counts, bufs) && j < |flows|
    ensures CanDouble(flows[j], bufs[j], ram) ==>
              counts[j] == k && Doubles(flows, start, counts, ram + Sum(bufs), k, j)
    ensures !CanDouble(flows[j], bufs[j], ram) ==> !Doubles(flows, start, counts, ram + Sum(bufs), counts[j], j)
  {
    hide SizesAt, Sum, Divides;
    assert OneSoFar(flows, start, counts, ram + Sum(bufs), k, j, j);
    SizesAreBuffers(start, counts, bufs, counts[j], j);
    forall i: nat | i < |flows|
      ensures counts[i] <= Turns(i, k, j)
    {
      assert OneSoFar(flows, start, counts, ram + Sum(bufs), k, j, i);
    }
  }

  lemma OtherTurns(flows: seq<uint32>, start: seq<uint32>, counts: seq<nat>, budget: nat, k: nat, j: nat, i: nat)
    requires |flows| == |start| == |counts| && i < |flows| && j < |flows| && counts[j] == k
    requires OneSoFar(flows, start, counts, budget, k, j, i) && Doubles(flows, start, counts, budget, k, j)
    ensures OneSoFar(flows, start, counts[j := k + 1], budget, k, j + 1, i)
  {
    hide Doubles;
    var next := counts[j := k + 1];
    forall m: nat | m < k || (m == k && i <= j)
      ensures Doubles(flows, start, next, budget, m, i) == Doubles(flows, start, counts, budget, m, i)
    {
      DoublesKept(flows, start, counts, budget, k, j, m, i);
    }
  }

  lemma SameTurns(flows: seq<uint32>, start: seq<uint32>, counts: seq<nat>, budget: nat, k: nat, j: nat, i: nat)
    requires |flows| == |start| == |counts| && i < |flows| && j < |flows|
    requires OneSoFar(flows, start, counts, budget, k, j, i) && !Doubles(flows, start, counts, budget, counts[j], j)
    ensures OneSoFar(flows, start, counts, budget, k, j + 1, i)
  {
    hide Doubles;
  }

  lemma RoundTaken(flows: seq<uint32>, start: seq<uint32>, counts: seq<nat>, budget: nat, k: nat)
    requires SoFar(flows, start, counts, budget, k, |flows|)
    ensures SoFar(flows, start, counts, budget, k + 1, 0)
  {
    hide Doubles;
    var next := k + 1;
    forall i: nat | i < |flows|
      ensures OneSoFar(flows, start, counts, budget, next, 0, i)
    {
      assert OneSoFar(flows, start, counts, budget, k, |flows|, i);
    }
  }

  lemma EndOfRounds(flows: seq<uint32>, start: seq<uint32>, counts: seq<nat>, bufs: seq<uint32>, ram: nat, k: nat)
    requires SoFar(flows, start, counts, ram + Sum(bufs), k, 0) && AreGrown(start, counts, bufs)
    requires forall i: nat :: i < |flows| ==> !CanDouble(flows[i], bufs[i], ram)
    ensures IsRoundRobin(flows, start, counts, ram + Sum(bufs))
  {
    hide SizesAt, Sum, CanDouble, Doubles;
    var budget := ram + Sum(bufs);
    forall i: nat | i < |flows|
      ensures StopsAt(flows, start, counts, budget, i)
    {
      LastTurn(flows, start, counts, bufs, ram, k, i);
    }
  }

  lemma LastTurn(flows: seq<uint32>, start: seq<uint32>, counts: seq<nat>, bufs: seq<uint32>, ram: nat, k: nat, i: nat)
    requires SoFar(flows, start, counts, ram + Sum(bufs), k, 0) && AreGrown(start, counts, bufs)
    requires i < |flows| && !CanDouble(flows[i], bufs[i], ram)
    ensures StopsAt(flows, start, counts, ram + Sum(bufs), i)
  {
    hide SizesAt, Sum, Divides;
    assert OneSoFar(flows, start, counts, ram + Sum(bufs), k, 0, i);
    SizesAreBuffers(start, counts, bufs, counts[i], i);
    if counts[i] == k {
      forall m: nat | m < |flows|
        ensures counts[m] <= Turns(m, k, i)
      {
        assert OneSoFar(flows, start, counts, ram + Sum(bufs), k, 0, m);
      }
    }
  }
}
