/** Splitting the output RAM among flows: quotient search, initial buffers, greedy doubling. */
module Allocator {
  import opened Arithmetic
  import opened Words
  import opened PrimeFactor
  import opened RoundRobin

  // ----- quotient search -----

  /** q divides every flow and equals none: it lies strictly below each flow that is not empty. */
  ghost predicate Good(flows: seq<uint32>, q: nat) {
    q > 0 && forall i :: 0 <= i < |flows| ==> Divides(q, flows[i]) && q != flows[i]
  }

  /** The least good quotient from q0 on. */
  ghost predicate IsLeastGood(flows: seq<uint32>, q0: nat, q: nat) {
    q0 <= q && Good(flows, q) && forall p: nat :: q0 <= p < q ==> !Good(flows, p)
  }

  /** The first flow that is not empty lies below q: no quotient from q on divides it. */
  ghost predicate Overshoots(flows: seq<uint32>, q: nat) {
    exists i :: 0 <= i < |flows| && FirstPositive(flows, i) && flows[i] < q
  }

  ghost predicate FirstPositive(flows: seq<uint32>, i: nat)
    requires i < |flows|
  {
    flows[i] > 0 && forall j :: 0 <= j < i ==> flows[j] == 0
  }

  datatype Verdict = Passes | Misses | Equals

  /** One pass over the flows: index and kind of the first flow that stops the candidate q. */
  method CheckQuotient(flows: seq<uint32>, q: uint32) returns (verdict: Verdict, i: nat)
    requires q > 0
    ensures i <= |flows| && forall j :: 0 <= j < i ==> Divides(q, flows[j]) && q != flows[j]
    ensures verdict == Passes <==> i == |flows|
    ensures verdict == Passes ==> Good(flows, q)
    ensures verdict == Misses ==> !Divides(q, flows[i])
    ensures verdict == Equals ==> flows[i] == q
  {
    i := 0;
    while i < |flows|
      invariant i <= |flows| && forall j :: 0 <= j < i ==> Divides(q, flows[j]) && q != flows[j]
    {
      if flows[i] % q != 0 {
        return Misses, i;
      }
      if q == flows[i] {
        return Equals, i;
      }
      i := i + 1;
    }
    verdict := Passes;
  }

  datatype Search = Found(q: uint32) | NoQuotient | DivideByZero

  /**
   The search from q0 upward.  It answers exactly when q0 is positive and does not overshoot; past the
   first positive flow it only stops when the 32-bit quotient has wrapped to zero and is divided by.
   */
  method FindQuotient(flows: seq<uint32>, q0: uint32) returns (result: Search)
    requires flows != []
    ensures result == DivideByZero <==> q0 == 0 || Overshoots(flows, q0)
    ensures result.Found? ==> IsLeastGood(flows, q0, result.q)
    ensures result == NoQuotient
            <==> q0 > 0 && !Overshoots(flows, q0) && forall q: nat :: q0 <= q ==> !Good(flows, q)
  {
    hide Good, Overshoots, Divides;
    var q: nat := q0;
    while true
      invariant q <= 0x1_0000_0000 && (q0 == 0 ==> q == 0) && q0 <= q
      invariant Overshoots(flows, q0) <==> Overshoots(flows, q)
      invariant q == 0x1_0000_0000 ==> Overshoots(flows, q)
      invariant forall p: nat :: q0 <= p < q ==> !Good(flows, p)
      decreases 0x1_0000_0000 - q
    {
      if q % 0x1_0000_0000 == 0 {
        return DivideByZero;
      }
      var verdict, i := CheckQuotient(flows, q);
      if verdict == Passes {
        PassingDoesNotOvershoot(flows, q);
        return Found(q);
      }
      if verdict == Equals {
        EqualEndsSearch(flows, q0, q, i);
        return NoQuotient;
      }
      MissGoesOn(flows, q, i);
      q := q + 1;
    }
  }

  lemma PassingDoesNotOvershoot(flows: seq<uint32>, q: nat)
    requires Good(flows, q)
    ensures !Overshoots(flows, q)
  {
    forall i | 0 <= i < |flows| && FirstPositive(flows, i)
      ensures flows[i] >= q
    {
      DividesBound(q, flows[i]);
    }
  }

  /** Meeting a flow equal to the candidate: no larger quotient can divide that flow. */
  lemma EqualEndsSearch(flows: seq<uint32>, q0: nat, q: nat, i: nat)
    requires q > 0 && i < |flows| && flows[i] == q
    requires forall j :: 0 <= j < i ==> Divides(q, flows[j]) && q != flows[j]
    requires forall p: nat :: q0 <= p < q ==> !Good(flows, p)
    ensures !Overshoots(flows, q)
    ensures forall p: nat :: q0 <= p ==> !Good(flows, p)
  {
    forall k | 0 <= k < |flows| && FirstPositive(flows, k)
      ensures flows[k] >= q
    {
      if k < i {
        DividesBound(q, flows[k]);
      }
    }
    forall p: nat | q0 <= p
      ensures !Good(flows, p)
    {
      if p > q && Divides(p, flows[i]) {
        DividesBound(p, flows[i]);
      }
    }
  }

  /** A candidate that misses flow i: the first positive flow is not equal to it. */
  lemma MissGoesOn(flows: seq<uint32>, q: nat, i: nat)
    requires 0 < q <= 0xFFFF_FFFF && i < |flows| && !Divides(q, flows[i])
    requires forall j :: 0 <= j < i ==> Divides(q, flows[j]) && q != flows[j]
    ensures !Good(flows, q)
    ensures Overshoots(flows, q) <==> Overshoots(flows, q + 1)
    ensures q == 0xFFFF_FFFF ==> Overshoots(flows, q)
  {
    assert Divides(q, 0);
    var k := FirstPositiveIndex(flows, i);
    assert FirstPositive(flows, k);
    if k == i {
      DividesProduct(q, 1);
      assert flows[k] != q;
    }
    assert forall m :: 0 <= m < |flows| && FirstPositive(flows, m) ==> m == k;
    if flows[k] < q {
      assert Overshoots(flows, q) && Overshoots(flows, q + 1);
    } else {
      assert flows[k] > q;
    }
  }

  lemma FirstPositiveIndex(flows: seq<uint32>, i: nat) returns (k: nat)
    requires i < |flows| && flows[i] > 0
    ensures k <= i && FirstPositive(flows, k)
  {
    k := 0;
    while flows[k] == 0
      invariant k <= i && forall j :: 0 <= j < k ==> flows[j] == 0
      decreases i - k
    {
      k := k + 1;
    }
  }

  // ----- initial buffers -----

  /** A size brought to a multiple of four by doubling once or twice, in 32 bits. */
  function Scaled(b: uint32): uint32 {
    if b % 4 == 0 then b else if b % 2 == 1 then b * 4 % 0x1_0000_0000 else b * 2 % 0x1_0000_0000
  }

  /** Error 4 or 2 when an odd or half-aligned buffer cannot be scaled, 6 when the RAM is too small, else 0. */
  function CodeFor(flow: uint32, b: uint32, ram: uint32): nat {
    var size := Scaled(b);
    if b % 4 != 0 && !(ram > size && flow >= size && Divides(size, flow)) then (if b % 2 == 1 then 4 else 2)
    else if ram < size then 6
    else 0
  }

  function Share(flow: uint32, q: nat): uint32
    requires q > 0
  {
    assert flow / q <= flow;
    flow / q
  }

  /** For a quotient that divides the flow the share is exact. */
  lemma ShareIsExact(flow: uint32, q: nat)
    requires Divides(q, flow)
    ensures Share(flow, q) * q == flow
  {
    DividesWitness(q, flow);
  }

  function InitialSize(flow: uint32, q: nat): uint32
    requires q > 0
  {
    Scaled(Share(flow, q))
  }

  function InitialCode(flow: uint32, q: nat, ram: uint32): nat
    requires q > 0
  {
    CodeFor(flow, Share(flow, q), ram)
  }

  /** RAM taken by the initial buffers of the first k flows. */
  function InitialUse(flows: seq<uint32>, q: nat, k: nat): nat
    requires q > 0 && k <= |flows|
  {
    if k == 0 then 0 else InitialUse(flows, q, k - 1) + InitialSize(flows[k - 1], q)
  }

  /** The first k flows get their initial buffers out of ram. */
  ghost predicate InitialFits(flows: seq<uint32>, q: nat, ram: uint32, k: nat)
    requires q > 0 && k <= |flows|
  {
    InitialUse(flows, q, k) <= ram
    && forall i: nat :: i < k ==> InitialUse(flows, q, i) <= ram
                                  && InitialCode(flows[i], q, ram - InitialUse(flows, q, i)) == 0
  }

  /** Flow k is the first that cannot get its initial buffer, for the reason `code`. */
  ghost predicate InitialFails(flows: seq<uint32>, q: nat, ram: uint32, k: nat, code: nat)
    requires q > 0 && k < |flows|
  {
    InitialFits(flows, q, ram, k) && code != 0 && code == InitialCode(flows[k], q, ram - InitialUse(flows, q, k))
  }

  method InitialBuffers(bufs: array<uint32>, flows: seq<uint32>, q: uint32, ram: uint32)
    returns (code: nat, left: uint32)
    requires q > 0 && |flows| <= bufs.Length
    modifies bufs
    ensures code == 0 ==> InitialFits(flows, q, ram, |flows|)
                          && forall i :: 0 <= i < |flows| ==> bufs[i] == InitialSize(flows[i], q)
    ensures code == 0 ==> left + Sum(bufs[..|flows|]) == ram
    ensures code != 0 ==> exists k: nat :: k < |flows| && InitialFails(flows, q, ram, k, code)
  {
    hide InitialSize, InitialCode, InitialFits, InitialFails, InitialUse, Sum;
    left := ram;
    code := 0;
    NothingPlaced(flows, q, ram);
    for i := 0 to |flows|
      invariant code == 0 && InitialFits(flows, q, ram, i) && left == ram - InitialUse(flows, q, i)
      invariant left + Sum(bufs[..i]) == ram
      invariant forall j :: 0 <= j < i ==> bufs[j] == InitialSize(flows[j], q)
    {
      ghost var taken := bufs[..i];
      code := OneInitialBuffer(bufs, i, flows[i], q, left);
      if code != 0 {
        PlaceFails(flows, q, ram, i, code);
        return;
      }
      PlaceOne(flows, q, ram, i);
      assert bufs[..i + 1] == taken + [bufs[i]];
      SumAppend(taken, bufs[i]);
      left := left - bufs[i];
    }
  }

  lemma NothingPlaced(flows: seq<uint32>, q: nat, ram: uint32)
    requires q > 0
    ensures InitialFits(flows, q, ram, 0) && InitialUse(flows, q, 0) == 0 && Sum([]) == 0
  {
  }

  lemma PlaceOne(flows: seq<uint32>, q: nat, ram: uint32, k: nat)
    requires q > 0 && k < |flows| && InitialFits(flows, q, ram, k)
    requires InitialCode(flows[k], q, ram - InitialUse(flows, q, k)) == 0
    requires InitialSize(flows[k], q) <= ram - InitialUse(flows, q, k)
    ensures InitialUse(flows, q, k + 1) == InitialUse(flows, q, k) + InitialSize(flows[k], q)
    ensures InitialFits(flows, q, ram, k + 1)
  {
    hide InitialSize, InitialCode, InitialUse;
    UseGrows(flows, q, k);
  }

  lemma PlaceFails(flows: seq<uint32>, q: nat, ram: uint32, k: nat, code: nat)
    requires q > 0 && k < |flows| && InitialFits(flows, q, ram, k)
    requires code == InitialCode(flows[k], q, ram - InitialUse(flows, q, k)) != 0
    ensures InitialFails(flows, q, ram, k, code)
  {
    hide InitialSize, InitialCode, InitialUse;
  }

  lemma UseGrows(flows: seq<uint32>, q: nat, k: nat)
    requires q > 0 && k < |flows|
    ensures InitialUse(flows, q, k + 1) == InitialUse(flows, q, k) + InitialSize(flows[k], q)
  {
    hide InitialSize;
  }

  lemma RemainderTest(flow: uint32, d: nat)
    requires d > 0
    ensures Divides(d, flow) <==> flow % d == 0
  {
  }

  method OneInitialBuffer(bufs: array<uint32>, i: nat, flow: uint32, q: uint32, ram: uint32) returns (code: nat)
    requires q > 0 && i < bufs.Length
    modifies bufs
    ensures code == InitialCode(flow, q, ram)
    ensures code == 0 ==> bufs[i] == InitialSize(flow, q) <= ram
    ensures forall j :: 0 <= j < bufs.Length && j != i ==> bufs[j] == old(bufs[j])
  {
    hide Scaled, CodeFor;
    var size;
    size, code := ScaleBuffer(flow, flow / q, ram);
    bufs[i] := size;
  }

  method ScaleBuffer(flow: uint32, b0: uint32, ram: uint32) returns (b: uint32, code: nat)
    ensures code == CodeFor(flow, b0, ram)
    ensures code == 0 ==> b == Scaled(b0) <= ram
  {
    hide Divides;
    b := b0;
    if b % 4 != 0 {
      var odd := b % 2 != 0;
      var scaled: nat := if odd then b * 4 % 0x1_0000_0000 else b * 2 % 0x1_0000_0000;
      ScaledIsAligned(b);
      RemainderTest(flow, scaled);
      if ram > scaled && flow >= scaled && flow % scaled == 0 {
        b := scaled;
      } else {
        return b, if odd then 4 else 2;
      }
    }
    code := if ram < b then 6 else 0;
  }

  /** k doublings bring b to a multiple of four, fewer do not. */
  ghost predicate ReachesFour(b: nat, k: nat) {
    b * Pow2(k) % 4 == 0 && forall j: nat :: j < k ==> b * Pow2(j) % 4 != 0
  }

  lemma DoubledMod(b: nat)
    ensures b * 4 % 4 == 0 && (b * 2 % 4 == 0 <==> b % 2 == 0) && (b % 4 == 0 ==> b % 2 == 0)
  {
    var k, e := b / 2, b % 2;
    ModFour(b, 0);
    ModFour(k, 2 * e);
    assert b * 2 == 4 * k + 2 * e && e < 2;
  }

  lemma ModFour(q: nat, r: nat)
    requires r < 4
    ensures (4 * q + r) % 4 == r
  {
  }

  /** An odd size takes two doublings to a multiple of four, a half-aligned one takes one. */
  lemma DoublingsOf(b: nat, k: nat)
    ensures ReachesFour(b, k) <==> k == if b % 4 == 0 then 0 else if b % 2 == 1 then 2 else 1
    ensures Pow2(0) == 1 && Pow2(1) == 2 && Pow2(2) == 4
  {
    DoubledMod(b);
    assert Pow2(1) == 2 && Pow2(2) == 4;
    var m := if b % 4 == 0 then 0 else if b % 2 == 1 then 2 else 1;
    assert b * Pow2(0) == b && b * Pow2(1) == b * 2 && b * Pow2(2) == b * 4;
    forall j: nat | j < m
      ensures b * Pow2(j) % 4 != 0
    {
      assert j == 0 || j == 1;
    }
    assert ReachesFour(b, m);
    assert ReachesFour(b, k) ==> !(k < m) && !(m < k);
  }

  /** Scaling is the least number of doublings to a multiple of four, at most two, cut to 32 bits. */
  lemma ScaledIsLeastDoubling(b: uint32, k: nat)
    requires ReachesFour(b, k)
    ensures k <= 2 && Scaled(b) == b * Pow2(k) % 0x1_0000_0000
  {
    DoublingsOf(b, k);
    SmallMod(b, 0x1_0000_0000);
    hide ReachesFour;
  }

  /** When each code arises, k being the doublings that a share b takes to a multiple of four. */
  lemma CodesByDoublings(flow: uint32, b: uint32, ram: uint32, k: nat)
    requires ReachesFour(b, k)
    ensures k <= 2
    ensures var size := b * Pow2(k) % 0x1_0000_0000;
            var fits := size < ram && size <= flow && Divides(size, flow);
            && (CodeFor(flow, b, ram) == 0 <==> if k == 0 then b <= ram else fits)
            && (CodeFor(flow, b, ram) == 2 <==> k == 1 && !fits)
            && (CodeFor(flow, b, ram) == 4 <==> k == 2 && !fits)
            && (CodeFor(flow, b, ram) == 6 <==> k == 0 && ram < b)
  {
    hide Divides;
    DoublingsOf(b, k);
    ScaledIsLeastDoubling(b, k);
    hide ReachesFour;
  }

  /** Scaling an unaligned size never wraps to zero and always reaches a multiple of four. */
  lemma ScaledIsAligned(b: uint32)
    ensures Scaled(b) % 4 == 0
    ensures b % 4 != 0 ==> Scaled(b) != 0
  {
    if b % 2 == 1 {
      WrappedFourfold(b);
    } else if b % 4 != 0 {
      var k := b / 2;
      assert b * 2 == k * 4 && k % 2 == 1;
      WrappedFourfold(k);
    }
  }

  lemma WrappedFourfold(k: uint32)
    ensures k * 4 % 0x1_0000_0000 % 4 == 0
    ensures k % 2 == 1 ==> k * 4 % 0x1_0000_0000 != 0
  {
    var a, r := k / 0x4000_0000, k % 0x4000_0000;
    assert k * 4 == a * 0x1_0000_0000 + 4 * r;
    assert a == 0 || a == 1 || a == 2 || a == 3;
    assert k * 4 % 0x1_0000_0000 == 4 * r;
  }

  /** An initial buffer is a multiple of four that divides its flow, and is empty only with its flow. */
  lemma InitialIsAligned(flow: uint32, q: nat, ram: uint32)
    requires q > 0 && Divides(q, flow) && InitialCode(flow, q, ram) == 0
    ensures Aligned(flow, InitialSize(flow, q))
  {
    hide Divides;
    ScaledIsAligned(Share(flow, q));
    if flow == 0 {
      assert flow / q == 0;
    } else if flow / q % 4 == 0 {
      DividesWitness(q, flow);
      DividesBound(q, flow);
      CofactorDivides(flow, q);
    }
  }

  lemma CofactorDivides(flow: nat, q: nat)
    requires q > 0 && flow > 0 && flow == q * (flow / q)
    ensures Divides(flow / q, flow)
  {
    assert flow == (flow / q) * q;
    assert flow != q * 0;
    DividesProduct(flow / q, q);
  }

  ghost predicate Aligned(flow: nat, b: nat) {
    b % 4 == 0 && if flow == 0 then b == 0 else b > 0 && Divides(b, flow)
  }

  // ----- greedy doubling -----

  /** A flow that cannot grow: whole, larger than the RAM left, or its double does not divide it. */
  ghost predicate Blocked(flow: nat, b: nat, ram: nat) {
    b == flow || b > ram || !Divides(2 * b, flow)
  }

  /** A buffer that may double stays aligned and inside its flow. */
  lemma DoublingKeepsAligned(flow: uint32, b: nat)
    requires Aligned(flow, b) && b < flow
    ensures 0 < 2 * b <= flow
    ensures Divides(2 * b, flow) ==> Aligned(flow, 2 * b)
  {
    DividesWitness(b, flow);
    assert flow != b * 0 && flow != b * 1;
    MulMonotone(2, flow / b, b);
  }

  lemma AlignedBound(flow: nat, b: nat)
    requires Aligned(flow, b)
    ensures b <= flow
  {
    if flow > 0 {
      DividesBound(b, flow);
    }
  }

  /** What holds of all buffers throughout the filling. */
  ghost predicate Filling(flows: seq<uint32>, bufs: seq<uint32>, checking: set<nat>, ram: nat) {
    && |bufs| == |flows|
    && (forall i :: i in checking ==> i < |flows|)
    && (forall i: nat :: i < |flows| ==> FillingOne(flows[i], bufs[i], i in checking, ram))
  }

  ghost predicate FillingOne(flow: nat, b: nat, checked: bool, ram: nat) {
    Aligned(flow, b) && (!checked ==> Blocked(flow, b, ram))
  }

  /** What one turn of the doubling loop does to one buffer, the RAM and the flow's checking bit. */
  method FillStep(flow: uint32, b: uint32, checked0: bool, ram0: uint32)
    returns (grown: uint32, checked: bool, ram: uint32)
    requires FillingOne(flow, b, checked0, ram0)
    ensures FillingOne(flow, grown, checked, ram)
    ensures if b <= ram0 && b < flow && Divides(2 * b, flow)
            then grown == 2 * b && ram == ram0 - b && checked == checked0
            else grown == b && ram == ram0 && !checked
    ensures ram < ram0 || (ram == ram0 && !checked)
  {
    hide Aligned, Divides;
    grown, checked, ram := b, checked0, ram0;
    AlignedBound(flow, b);
    if b == flow {
      checked := false;
    }
    if b > ram {
      checked := false;
    } else if flow > b {
      DoublingKeepsAligned(flow, b);
      var double: nat := 2 * b;
      assert double % 0x1_0000_0000 == double > 0;
      if flow % (double % 0x1_0000_0000) == 0 {
        RemainderTest(flow, double);
        ram := ram - b;
        grown := double;
      } else {
        RemainderTest(flow, double);
        checked := false;
      }
    }
    AlignedBound(flow, grown);
    if grown > flow {
      // the source returns 3 here
      assert false;
    }
  }

  lemma FillingAdvances(flows: seq<uint32>, bufs: seq<uint32>, next: seq<uint32>,
                        checking: set<nat>, next': set<nat>, ram: nat, ram': nat, i: nat)
    requires Filling(flows, bufs, checking, ram) && i < |flows| == |next| && ram' <= ram
    requires next == bufs[i := next[i]] && next' <= checking && forall j :: j in checking && j != i ==> j in next'
    requires FillingOne(flows[i], next[i], i in next', ram')
    ensures Filling(flows, next, next', ram')
  {
    forall j: nat | j < |flows|
      ensures FillingOne(flows[j], next[j], j in next', ram')
    {
      if j != i {
        assert FillingOne(flows[j], bufs[j], j in checking, ram);
      }
    }
  }

  /**
   The doubling loop: it ends, keeps the RAM balance, leaves no flow that could still grow, and on the way every flow
   has taken its turn in every round.
   */
  method FillGreedily(bufs: array<uint32>, flows: seq<uint32>, ram0: uint32, checking0: set<nat>)
    returns (ram: uint32, ghost counts: seq<nat>)
    requires |flows| <= bufs.Length
    requires forall i: nat :: i in checking0 <==> i < |flows|
    requires forall i :: 0 <= i < |flows| ==> Aligned(flows[i], bufs[i])
    modifies bufs
    ensures ram + Sum(bufs[..|flows|]) == ram0 + Sum(old(bufs[..|flows|]))
    ensures forall i :: 0 <= i < |flows| ==> Aligned(flows[i], bufs[i]) && Blocked(flows[i], bufs[i], ram)
    ensures AreGrown(old(bufs[..|flows|]), counts, bufs[..|flows|])
    ensures IsRoundRobin(flows, old(bufs[..|flows|]), counts, ram0 + Sum(old(bufs[..|flows|])))
  {
    hide Aligned, Blocked, AreGrown, SoFar, IsRoundRobin, Sum, CanDouble;
    ram := ram0;
    ghost var start := bufs[..|flows|];
    ghost var budget := ram0 + Sum(start);
    var checking := checking0;
    counts := seq(|flows|, _ => 0);
    ghost var round: nat := 0;
    StartOfRounds(flows, start, budget);
    assert forall i: nat :: i < |flows| ==> start[i] == bufs[i];
    while checking != {}
      invariant Filling(flows, bufs[..|flows|], checking, ram) && ram + Sum(bufs[..|flows|]) == budget
      invariant |counts| == |flows|
      invariant AreGrown(start, counts, bufs[..|flows|]) && SoFar(flows, start, counts, budget, round, 0)
      decreases ram, checking
    {
      ghost var ram1, checking1 := ram, checking;
      for i := 0 to |flows|
        invariant Filling(flows, bufs[..|flows|], checking, ram) && ram + Sum(bufs[..|flows|]) == budget
        invariant |counts| == |flows|
        invariant AreGrown(start, counts, bufs[..|flows|]) && SoFar(flows, start, counts, budget, round, i)
        invariant ram <= ram1 && (ram == ram1 ==> checking <= checking1 && forall j: nat :: j < i ==> j !in checking)
      {
        ghost var before := bufs[..|flows|];
        ghost var can := CanDouble(flows[i], before[i], ram);
        TurnTaken(flows, start, counts, before, ram, round, i);
        checking, ram := FillOne(bufs, i, flows, checking, ram);
        assert !can ==> bufs[..|flows|] == before;
        if can {
          GrowsOnce(start, counts, before, bufs[..|flows|], i);
          counts := counts[i := counts[i] + 1];
        }
      }
      RoundTaken(flows, start, counts, budget, round);
      round := round + 1;
      assert ram == ram1 ==> checking == {};
    }
    ghost var end := bufs[..|flows|];
    forall i: nat | i < |flows|
      ensures Aligned(flows[i], end[i]) && Blocked(flows[i], end[i], ram) && !CanDouble(flows[i], end[i], ram)
    {
      assert FillingOne(flows[i], end[i], false, ram);
      BlockedIsStuck(flows[i], end[i], ram);
    }
    EndOfRounds(flows, start, counts, end, ram, round);
  }

  lemma BlockedIsStuck(flow: nat, b: nat, ram: nat)
    requires Blocked(flow, b, ram)
    ensures !CanDouble(flow, b, ram)
  {
    hide Divides;
  }

  lemma GrowsOnce(start: seq<uint32>, counts: seq<nat>, bufs: seq<uint32>, next: seq<uint32>, i: nat)
    requires AreGrown(start, counts, bufs) && i < |bufs| == |next|
    requires next == bufs[i := next[i]] && next[i] == Twice(bufs[i])
    ensures AreGrown(start, counts[i := counts[i] + 1], next)
  {
    var c := counts[i];
    assert Pow2(c + 1) == 2 * Pow2(c);
    assert start[i] * Pow2(c + 1) == 2 * (start[i] * Pow2(c));
  }

  method FillOne(bufs: array<uint32>, i: nat, flows: seq<uint32>, checking0: set<nat>, ram0: uint32)
    returns (checking: set<nat>, ram: uint32)
    requires i < |flows| <= bufs.Length
    requires Filling(flows, bufs[..|flows|], checking0, ram0)
    modifies bufs
    ensures Filling(flows, bufs[..|flows|], checking, ram)
    ensures ram + Sum(bufs[..|flows|]) == ram0 + Sum(old(bufs[..|flows|]))
    ensures checking <= checking0 && ram <= ram0 && (ram == ram0 ==> i !in checking)
    ensures bufs[..|flows|] == old(bufs[..|flows|])[i := bufs[i]]
    ensures bufs[i] == if CanDouble(flows[i], old(bufs[i]), ram0) then Twice(old(bufs[i])) else old(bufs[i])
  {
    hide Aligned, Blocked, FillingOne, Sum, Divides;
    ghost var was := bufs[..|flows|];
    assert FillingOne(flows[i], was[i], i in checking0, ram0);
    var b, checked;
    b, checked, ram := FillStep(flows[i], bufs[i], i in checking0, ram0);
    checking := if checked then checking0 else checking0 - {i};
    bufs[i] := b;
    assert bufs[..|flows|] == was[i := b];
    SumUpdate(was, i, b);
    FillingAdvances(flows, was, was[i := b], checking0, checking, ram0, ram, i);
  }

  // ----- the whole allocation -----

  /** The quotient the search starts from: the 32-bit total over the RAM, rounded up. */
  function StartingQuotient(flows: seq<uint32>, ram: uint32): nat
    requires ram > 0
  {
    RoundedUp(Sum(flows) % 0x1_0000_0000, ram)
  }

  function RoundedUp(total: nat, ram: nat): nat
    requires ram > 0
  {
    total / ram + if total % ram != 0 then 1 else 0
  }

  /** No smaller quotient covers the total. */
  lemma RoundedUpIsLeast(total: nat, ram: nat, q: nat)
    requires ram > 0 && total <= q * ram
    ensures RoundedUp(total, ram) <= q
  {
    var k, r := total / ram, total % ram;
    assert total == k * ram + r;
    Monotone(q, k, ram);
    if r != 0 {
      Monotone(q, k + 1, ram);
      OneMore(k, ram);
      assert q == k ==> false;
    }
  }

  /** The starting quotient covers the total, and the increment cannot wrap. */
  lemma RoundedUpCovers(total: nat, ram: nat)
    requires ram > 0
    ensures RoundedUp(total, ram) <= total <= RoundedUp(total, ram) * ram
  {
    var k, r := total / ram, total % ram;
    assert total == k * ram + r;
    MulMonotone(1, ram, k);
    if r != 0 {
      MulMonotone(2, ram, k);
      assert (k + 1) * ram == k * ram + ram;
      assert ram > 1;
    }
  }

  /** The quotients that make the RAM cover the total, which wraps at 2^32, are those from the starting one on. */
  lemma StartingQuotientCovers(flows: seq<uint32>, ram: uint32, q: nat)
    requires ram > 0
    ensures q >= StartingQuotient(flows, ram) <==> q * ram >= Sum(flows) % 0x1_0000_0000
  {
    hide Sum, RoundedUp;
    var total, start := Sum(flows) % 0x1_0000_0000, StartingQuotient(flows, ram);
    RoundedUpCovers(total, ram);
    if q >= start {
      MulMonotone(start, q, ram);
    } else if q * ram >= total {
      RoundedUpIsLeast(total, ram, q);
    }
  }

  /** The search divides by zero: at once, or after wrapping past a first flow it can never divide. */
  ghost predicate Traps(flows: seq<uint32>, ram: uint32)
    requires ram > 0
  {
    flows != [] && (StartingQuotient(flows, ram) == 0 || Overshoots(flows, StartingQuotient(flows, ram)))
  }

  ghost predicate IsQuotient(flows: seq<uint32>, ram: uint32, q: nat)
    requires ram > 0
  {
    q > 0 && (flows != [] ==> IsLeastGood(flows, StartingQuotient(flows, ram), q))
  }

  function InitialSizes(flows: seq<uint32>, q: nat): (sizes: seq<uint32>)
    requires q > 0
    ensures |sizes| == |flows| && forall i: nat :: i < |flows| ==> sizes[i] == InitialSize(flows[i], q)
  {
    seq(|flows|, i requires 0 <= i < |flows| => InitialSize(flows[i], q))
  }

  /**
   A finished allocation: the initial sizes, doubled turn by turn out of the RAM for as long as each of them could be;
   no flow can grow any more.
   */
  ghost predicate Filled(flows: seq<uint32>, q: nat, ram: nat, bufs: seq<uint32>, left: nat)
    requires q > 0
  {
    && |bufs| == |flows|
    && (forall i: nat :: i < |flows| ==> Aligned(flows[i], bufs[i]) && Blocked(flows[i], bufs[i], left))
    && exists counts :: GrownInTurn(flows, q, ram, bufs, counts)
  }

  ghost predicate GrownInTurn(flows: seq<uint32>, q: nat, ram: nat, bufs: seq<uint32>, counts: seq<nat>)
    requires q > 0
  {
    AreGrown(InitialSizes(flows, q), counts, bufs) && IsRoundRobin(flows, InitialSizes(flows, q), counts, ram)
  }

  /** There is only one finished allocation. */
  lemma OneAllocation(flows: seq<uint32>, ram: uint32, q: nat, bufs: seq<uint32>, left: nat,
                      r: nat, other: seq<uint32>, rest: nat)
    requires ram > 0 && IsQuotient(flows, ram, q) && Filled(flows, q, ram, bufs, left)
    requires IsQuotient(flows, ram, r) && Filled(flows, r, ram, other, rest)
    ensures bufs == other
  {
    hide IsRoundRobin, InitialSize, Good, StartingQuotient, Aligned, Blocked;
    var c :| GrownInTurn(flows, q, ram, bufs, c);
    var d :| GrownInTurn(flows, r, ram, other, d);
    if flows != [] {
      var q0 := StartingQuotient(flows, ram);
      assert !(q0 <= q < r) && !(q0 <= r < q);
      OneOutcome(flows, InitialSizes(flows, q), c, d, ram);
    }
  }

  datatype Outcome = Code(code: nat) | Trap

  /** The flows all wait for checking; the total wraps. */
  method TotalFlow(flows: seq<uint32>) returns (total: uint32, checking: set<nat>)
    ensures total == Sum(flows) % 0x1_0000_0000
    ensures forall i: nat :: i in checking <==> i < |flows|
  {
    total, checking := 0, {};
    for i := 0 to |flows|
      invariant total == Sum(flows[..i]) % 0x1_0000_0000
      invariant forall j: nat :: j in checking <==> j < i
    {
      assert flows[..i + 1] == flows[..i] + [flows[i]];
      SumAppend(flows[..i], flows[i]);
      total := (total + flows[i]) % 0x1_0000_0000;
      checking := checking + {i};
    }
    assert flows[..|flows|] == flows;
  }

  /** The whole allocation; code 3, a buffer above its flow, is never returned. */
  method AllocateBuffers(bufs: array<uint32>, flows: seq<uint32>, ram: uint32) returns (outcome: Outcome, left: uint32)
    requires ram > 0 && |flows| <= 32 && |flows| <= bufs.Length
    modifies bufs
    ensures outcome == Trap <==> Traps(flows, ram)
    ensures outcome == Code(5) <==> !Traps(flows, ram) && forall q: nat :: !IsQuotient(flows, ram, q)
    ensures outcome == Code(0) ==>
              exists q: nat :: IsQuotient(flows, ram, q) && InitialFits(flows, q, ram, |flows|)
                               && Filled(flows, q, ram, bufs[..|flows|], left)
    ensures outcome == Code(0) ==> left + Sum(bufs[..|flows|]) == ram
    ensures outcome != Trap && outcome != Code(0) && outcome != Code(5) ==>
              exists q: nat, k: nat :: IsQuotient(flows, ram, q) && k < |flows|
                                       && InitialFails(flows, q, ram, k, outcome.code)
  {
    hide InitialFits, InitialFails, InitialSize, IsLeastGood, Overshoots, Aligned, Blocked, Sum, Divides, Good,
         AreGrown, IsRoundRobin;
    left := ram;
    var total, checking := TotalFlow(flows);
    RoundedUpCovers(total, ram);
    var quotient: nat := total / ram;
    var remainder := total % ram;
    if remainder != 0 {
      quotient := quotient + 1;
    }
    if flows == [] {
      quotient := 1;
    } else {
      assert quotient == StartingQuotient(flows, ram);
      var search := FindQuotient(flows, quotient);
      match search
      case DivideByZero =>
        return Trap, left;
      case NoQuotient =>
        NoQuotientAtAll(flows, ram);
        return Code(5), left;
      case Found(q) =>
        quotient := q;
        FoundIsGood(flows, StartingQuotient(flows, ram), q);
    }
    assert IsQuotient(flows, ram, quotient);
    var code;
    code, left := InitialBuffers(bufs, flows, quotient, ram);
    if code != 0 {
      FailureCodes(flows, quotient, ram, code);
      return Code(code), left;
    }
    AllAligned(flows, quotient, ram);
    assert bufs[..|flows|] == InitialSizes(flows, quotient);
    ghost var counts;
    left, counts := FillGreedily(bufs, flows, left, checking);
    assert GrownInTurn(flows, quotient, ram, bufs[..|flows|], counts);
    outcome := Code(0);
  }

  lemma FoundIsGood(flows: seq<uint32>, q0: nat, q: nat)
    requires IsLeastGood(flows, q0, q)
    ensures q > 0 && Good(flows, q)
  {
  }

  lemma NoQuotientAtAll(flows: seq<uint32>, ram: uint32)
    requires ram > 0 && flows != []
    requires forall q: nat :: StartingQuotient(flows, ram) <= q ==> !Good(flows, q)
    ensures forall q: nat :: !IsQuotient(flows, ram, q)
  {
    hide Good, StartingQuotient;
  }

  /** A failing initial buffer reports 2, 4 or 6. */
  lemma FailureCodes(flows: seq<uint32>, q: nat, ram: uint32, code: nat)
    requires q > 0 && exists k: nat :: k < |flows| && InitialFails(flows, q, ram, k, code)
    ensures code == 2 || code == 4 || code == 6
  {
    hide InitialFits, InitialUse;
  }

  lemma AllAligned(flows: seq<uint32>, q: nat, ram: uint32)
    requires q > 0 && InitialFits(flows, q, ram, |flows|) && (flows == [] || Good(flows, q))
    ensures forall i: nat :: i < |flows| ==> Aligned(flows[i], InitialSize(flows[i], q))
  {
    hide InitialCode, InitialUse, InitialSize, Aligned, Divides;
    forall i: nat | i < |flows|
      ensures Aligned(flows[i], InitialSize(flows[i], q))
    {
      InitialIsAligned(flows[i], q, ram - InitialUse(flows, q, i));
    }
  }

  /** A total that overshoots the first flow: the search skips every divisor of the flow of 4 bytes. */
  lemma SmallFirstFlowTraps()
    ensures Traps([4, 1000], 100)
  {
    var flows: seq<uint32> := [4, 1000];
    assert Sum(flows) == 1004 by {
      assert flows == [4] + [1000];
      SumAppend([4], 1000);
      SumAppend([], 4);
      assert [] + [4] == [4];
    }
    assert FirstPositive(flows, 0);
  }

  /** When no buffer has to be scaled up to alignment, the starting quotient alone makes them all fit. */
  lemma UnscaledAlwaysFits(flows: seq<uint32>, ram: uint32, q: nat)
    requires ram > 0 && IsQuotient(flows, ram, q) && Sum(flows) < 0x1_0000_0000
    requires forall i: nat :: i < |flows| ==> flows[i] / q % 4 == 0
    ensures InitialFits(flows, q, ram, |flows|)
  {
    hide InitialSize, InitialCode, InitialUse, Sum, IsLeastGood, StartingQuotient, InitialFits;
    NothingPlaced(flows, q, ram);
    for k := 0 to |flows|
      invariant InitialFits(flows, q, ram, k)
    {
      UseBound(flows, q, ram, k + 1);
      UseGrows(flows, q, k);
      UnscaledCode(flows[k], q, ram - InitialUse(flows, q, k));
      PlaceOne(flows, q, ram, k);
    }
  }

  lemma UnscaledCode(flow: uint32, q: nat, ram: int)
    requires q > 0 && flow / q % 4 == 0 && InitialSize(flow, q) <= ram <= 0xFFFF_FFFF
    ensures InitialCode(flow, q, ram) == 0
  {
  }

  lemma UseBound(flows: seq<uint32>, q: nat, ram: uint32, k: nat)
    requires ram > 0 && IsQuotient(flows, ram, q) && Sum(flows) < 0x1_0000_0000 && k <= |flows|
    requires forall i: nat :: i < |flows| ==> flows[i] / q % 4 == 0
    ensures InitialUse(flows, q, k) <= ram
  {
    hide Sum, InitialUse, Good, RoundedUp;
    if flows == [] {
      NothingPlaced(flows, q, ram);
    } else {
      var q0 := StartingQuotient(flows, ram);
      RoundedUpCovers(Sum(flows), ram);
      UseTimesQuotient(flows, q, k);
      PrefixSum(flows, k);
      MulMonotone(q0, q, ram);
      MulCancel(InitialUse(flows, q, k), ram, q);
    }
  }

  lemma MulCancel(a: nat, b: nat, c: nat)
    requires a * c <= b * c && c > 0
    ensures a <= b
  {
  }

  lemma {:induction false} UseTimesQuotient(flows: seq<uint32>, q: nat, k: nat)
    requires q > 0 && k <= |flows|
    requires forall i: nat :: i < |flows| ==> flows[i] / q % 4 == 0
    ensures InitialUse(flows, q, k) * q <= Sum(flows[..k])
  {
    hide Sum, InitialSize;
    if k == 0 {
      assert InitialUse(flows, q, k) == 0;
    } else {
      UseTimesQuotient(flows, q, k - 1);
      assert flows[..k] == flows[..k - 1] + [flows[k - 1]];
      SumAppend(flows[..k - 1], flows[k - 1]);
      UnscaledSize(flows[k - 1], q);
      assert InitialUse(flows, q, k) * q == InitialUse(flows, q, k - 1) * q + InitialSize(flows[k - 1], q) * q;
    }
  }

  lemma UnscaledSize(flow: uint32, q: nat)
    requires q > 0 && flow / q % 4 == 0
    ensures InitialSize(flow, q) * q <= flow
  {
    assert flow == flow / q * q + flow % q;
  }

  lemma {:induction false} PrefixSum(flows: seq<uint32>, k: nat)
    requires k <= |flows|
    ensures Sum(flows[..k]) <= Sum(flows)
    decreases |flows| - k
  {
    if k < |flows| {
      assert flows[..k + 1] == flows[..k] + [flows[k]];
      SumAppend(flows[..k], flows[k]);
      PrefixSum(flows, k + 1);
    } else {
      assert flows[..k] == flows;
    }
  }
}
