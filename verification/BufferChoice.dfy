/** Flow sizes and the choice of one output buffer size for a flow. */
module BufferChoice {
  import opened Arithmetic
  import opened Words
  import opened PrimeFactor

  // ----- flow size -----

  datatype Format = Gbf80 | Gbf80RowPad | Float16 | Float32 | Unsupported

  function ChannelBytes(ch: nat, format: Format): nat {
    match format
    case Gbf80 | Gbf80RowPad => (ch / 8 + if ch % 8 != 0 then 1 else 0) * 10
    case Float16 => ch * 2
    case Float32 => ch * 4
    case Unsupported => 0
  }

  /** Rounds up to a multiple of four; the addition wraps. */
  function AlignTo4(n: uint32): uint32 {
    if n % 4 != 0 then (n - n % 4 + 4) % 0x1_0000_0000 else n
  }

  /** Bytes of an output frame, padded per row or once per frame; every product wraps. */
  function OutputFlowSize(h: nat, w: nat, z: nat, ch: nat, format: Format, framePad: bool): uint32 {
    var row := w * z * ChannelBytes(ch, format) % 0x1_0000_0000;
    if framePad then AlignTo4(row * h % 0x1_0000_0000) else AlignTo4(row) * h % 0x1_0000_0000
  }

  lemma FlowSizeAligned(h: nat, w: nat, z: nat, ch: nat, format: Format, framePad: bool)
    ensures OutputFlowSize(h, w, z, ch, format, framePad) % 4 == 0
  {
    hide ChannelBytes, AlignTo4;
    var row := w * z * ChannelBytes(ch, format) % 0x1_0000_0000;
    if framePad {
      AlignedTo4(row * h % 0x1_0000_0000);
    } else {
      AlignedTo4(row);
      AlignedProduct(AlignTo4(row), h);
    }
  }

  lemma AlignedTo4(n: uint32)
    ensures AlignTo4(n) % 4 == 0
  {
  }

  /** Wrapping a product keeps its multiple of four. */
  lemma AlignedProduct(a: nat, h: nat)
    requires a % 4 == 0
    ensures a * h % 0x1_0000_0000 % 4 == 0
  {
    var k := a / 4 * h;
    assert a * h == 4 * k;
    var q := 4 * k / 0x1_0000_0000;
    assert 4 * k % 0x1_0000_0000 == 4 * (k - 0x4000_0000 * q);
  }

  /** c bytes hold ch channels: ten for each block of eight begun, two or four each, or nothing. */
  predicate HoldsChannels(c: nat, ch: nat, format: Format) {
    match format
    case Gbf80 | Gbf80RowPad => c % 10 == 0 && c / 10 * 8 - 8 < ch <= c / 10 * 8
    case Float16 => c == ch + ch
    case Float32 => c == ch + ch + ch + ch
    case Unsupported => c == 0
  }

  /** padded is the least multiple of four from n on. */
  predicate IsPadded(n: nat, padded: nat) { padded % 4 == 0 && n <= padded < n + 4 }

  /** All the wrapping comes to one: the flow is the padded rows, or the padded frame, cut to 32 bits at the end. */
  lemma FlowSizeIsExact(h: nat, w: nat, z: nat, ch: nat, format: Format, c: nat, row: nat, frame: nat, padded: nat)
    requires HoldsChannels(c, ch, format) && row == w * z * c && frame == row * h
    ensures IsPadded(row, padded) ==>
              OutputFlowSize(h, w, z, ch, format, false) == padded * h % 0x1_0000_0000
    ensures IsPadded(frame, padded) ==>
              OutputFlowSize(h, w, z, ch, format, true) == padded % 0x1_0000_0000
  {
    ChannelsHeld(c, ch, format);
    hide ChannelBytes, AlignTo4, IsPadded, HoldsChannels;
    PaddedRows(row, h, padded);
    PaddedFrame(row, h, padded);
  }

  lemma PaddedRows(row: nat, h: nat, padded: nat)
    ensures IsPadded(row, padded) ==>
              AlignTo4(row % 0x1_0000_0000) * h % 0x1_0000_0000 == padded * h % 0x1_0000_0000
  {
    hide AlignTo4, IsPadded;
    if IsPadded(row, padded) {
      AlignWrapped(row, padded);
      WrapProduct(padded, h);
    }
  }

  lemma PaddedFrame(row: nat, h: nat, padded: nat)
    ensures IsPadded(row * h, padded) ==>
              AlignTo4(row % 0x1_0000_0000 * h % 0x1_0000_0000) == padded % 0x1_0000_0000
  {
    hide AlignTo4, IsPadded;
    if IsPadded(row * h, padded) {
      WrapProduct(row, h);
      AlignWrapped(row * h, padded);
    }
  }

  lemma ChannelsHeld(c: nat, ch: nat, format: Format)
    requires HoldsChannels(c, ch, format)
    ensures c == ChannelBytes(ch, format)
  {
  }

  lemma WrapProduct(a: nat, h: nat)
    ensures a % 0x1_0000_0000 * h % 0x1_0000_0000 == a * h % 0x1_0000_0000
  {
    var q, r := a / 0x1_0000_0000, a % 0x1_0000_0000;
    assert a * h == r * h + q * h * 0x1_0000_0000;
    WrapSum(r * h, q * h);
  }

  lemma WrapSum(r: nat, k: nat)
    ensures (r + k * 0x1_0000_0000) % 0x1_0000_0000 == r % 0x1_0000_0000
  {
  }

  lemma AlignWrapped(n: nat, padded: nat)
    requires IsPadded(n, padded)
    ensures AlignTo4(n % 0x1_0000_0000) == padded % 0x1_0000_0000
  {
    var q, r := n / 0x1_0000_0000, n % 0x1_0000_0000;
    var up := padded - q * 0x1_0000_0000;
    FourBlocks(q, up, padded);
    AlignBelow(r, up);
    WrapSum(up, q);
  }

  lemma FourBlocks(q: nat, up: nat, padded: nat)
    requires padded == up + q * 0x1_0000_0000 && padded % 4 == 0
    ensures up % 4 == 0
  {
    assert up == 4 * (padded / 4 - q * 0x4000_0000);
  }

  lemma AlignBelow(r: uint32, up: nat)
    requires IsPadded(r, up)
    ensures AlignTo4(r) == up % 0x1_0000_0000
  {
    assert up == if r % 4 == 0 then r else r - r % 4 + 4;
  }

  // ----- choosing a buffer -----

  /** The unit buffers are cut from: a row when rows are exact and aligned, otherwise the whole flow. */
  function Unit(h: uint32, flow: uint32): uint32
    requires h > 0
  {
    if Divides(h, flow) && flow / h % 4 == 0 then flow / h else flow
  }

  /** The larger of two sizes within the cap, or the smaller of them when none is. */
  predicate IsPick(a: nat, b: nat, cap: nat, start: nat) {
    && (start == a || start == b)
    && (a <= cap || b <= cap ==> start <= cap && (a <= cap ==> a <= start) && (b <= cap ==> b <= start))
    && (a > cap && b > cap ==> start <= a && start <= b)
  }

  /** The choice between the two sizes built from the largest prime factor p; the first is cut to 32 bits. */
  ghost predicate IsPickFor(unit: uint32, p: uint32, cap: nat, start: nat) {
    p > 0 && IsLargestPrimeFactor(p, unit) && IsPick(p * 4 % 0x1_0000_0000, unit / p / 4 * 4, cap, start)
  }

  /** The size the search for multiples starts from; zero or above the cap when there is none. */
  ghost predicate IsStart(unit: uint32, cap: nat, start: nat) {
    if unit <= cap then start == unit else exists p: uint32 :: IsPickFor(unit, p, cap, start)
  }

  /** size is the largest multiple of start within the cap that divides the flow, or start itself if none does. */
  ghost predicate IsBestMultiple(flow: nat, cap: nat, start: nat, size: nat) {
    start > 0 && exists q: nat :: IsBestFactor(flow, cap, start, q) && size == start * q
  }

  ghost predicate IsBestFactor(flow: nat, cap: nat, start: nat, q: nat)
    requires start > 0
  {
    && q >= 1 && start * q <= cap && (q == 1 || Divides(start * q, flow))
    && forall k: nat :: q < k && start * k <= cap ==> !Divides(start * k, flow)
  }

  ghost predicate IsChoice(h: uint32, flow: uint32, cap: nat, size: nat)
    requires h > 0
  {
    exists start: nat :: IsStart(Unit(h, flow), cap, start)
                         && if start == 0 || start > cap then size == 4 else IsBestMultiple(flow, cap, start, size)
  }

  /** What the transfer set-up asks of a buffer size. */
  predicate Usable(flow: nat, cap: nat, size: nat) {
    size > 0 && size % 4 == 0 && size <= cap && Divides(size, flow)
  }

  method AssignSuitableBufferSize(h: uint32, flow: uint32, tryCount: uint32) returns (size: uint32)
    requires h > 0
    ensures var cap := (tryCount * 1024 - 64) % 0x1_0000_0000;
            && IsChoice(h, flow, cap, size)
            && (Usable(flow, cap, size) <==> flow % 4 == 0 && cap >= 4)
  {
    hide IsChoice, IsStart, IsBestMultiple, Usable, Divides, IsLargestPrimeFactor;
    var cap: uint32 := (tryCount * 1024 - 64) % 0x1_0000_0000;
    var row := flow / h;
    ExactQuotient(h, flow);
    if h * row != flow || row % 4 != 0 {
      row := flow;
    }
    var start := StartingSize(row, cap);
    if start == 0 || start > cap {
      size := 4;
    } else {
      size := LargestFittingMultiple(flow, cap, start);
    }
    MakeChoice(h, flow, cap, start, size);
    ChoiceIsUsable(h, flow, cap, size);
  }

  lemma ExactQuotient(h: nat, flow: nat)
    requires h > 0
    ensures h * (flow / h) == flow <==> Divides(h, flow)
  {
    assert flow == h * (flow / h) + flow % h;
  }

  lemma MakeChoice(h: uint32, flow: uint32, cap: nat, start: nat, size: nat)
    requires h > 0 && IsStart(Unit(h, flow), cap, start)
    requires if start == 0 || start > cap then size == 4 else IsBestMultiple(flow, cap, start, size)
    ensures IsChoice(h, flow, cap, size)
  {
  }

  /** A row that fits, or one of the two sizes built from its largest prime factor. */
  method StartingSize(row: uint32, cap: uint32) returns (start: uint32)
    ensures IsStart(row, cap, start)
  {
    hide IsLargestPrimeFactor;
    if row > cap {
      var p := FindMaxPrimeFactor(row);
      LargestIsPositive(p, row);
      QuarterBound(row, p);
      CandidateOrder(row, p);
      var divider := row / p / 4;
      start := if p > divider then p * 4 % 0x1_0000_0000 else divider * 4;
      if start > cap {
        start := if p < divider then p * 4 % 0x1_0000_0000 else divider * 4;
      }
      assert IsPickFor(row, p, cap, start);
    } else {
      start := row;
    }
  }

  lemma QuarterBound(row: uint32, p: nat)
    requires p > 0
    ensures 0 <= row / p / 4 && row / p / 4 * 4 <= row
  {
    DivisionBound(row, p);
  }

  /** Comparing p with the quarter compares the two sizes, although four times p may wrap. */
  lemma CandidateOrder(row: uint32, p: uint32)
    requires p > 0
    ensures p >= row / p / 4 ==> p * 4 % 0x1_0000_0000 >= row / p / 4 * 4
    ensures p <= row / p / 4 ==> p * 4 % 0x1_0000_0000 <= row / p / 4 * 4
  {
    QuarterBound(row, p);
    if p >= 0x4000_0000 {
      var k := row / p;
      assert row == k * p + row % p;
      MulMonotone(0x4000_0000, p, k);
      assert k < 4;
    }
  }

  lemma DivisionBound(n: nat, p: nat)
    requires p > 0
    ensures n / p <= n
  {
    var k := n / p;
    assert n == k * p + n % p;
    MulMonotone(1, p, k);
  }

  lemma LargestIsPositive(p: nat, n: nat)
    requires n > 0 && IsLargestPrimeFactor(p, n)
    ensures p > 0
  {
  }

  /** The downward scan over the multiplier. */
  method LargestFittingMultiple(flow: uint32, cap: nat, start: nat) returns (size: nat)
    requires 0 < start <= cap < 0x1_0000_0000
    ensures size <= cap && IsBestMultiple(flow, cap, start, size)
  {
    size := start;
    var q := cap / start + 1;
    NothingAbove(cap, start);
    assert q >= 2;
    while true
      invariant 2 <= q <= cap / start + 1
      invariant forall k: nat :: q <= k && start * k <= cap ==> !Divides(start * k, flow)
      decreases q
    {
      q := q - 1;
      MulMonotone(q, cap / start, start);
      MulMonotone(1, q, start);
      if flow % (start * q) == 0 {
        size := start * q;
        assert IsBestFactor(flow, cap, start, q);
        return;
      }
      if !(start * q <= cap && q > 1) {
        break;
      }
    }
    assert IsBestFactor(flow, cap, start, 1);
    assert size == start * 1;
  }

  lemma NothingAbove(cap: nat, start: nat)
    requires 0 < start <= cap
    ensures start * (cap / start) <= cap && cap / start >= 1
    ensures forall k: nat :: cap / start < k ==> start * k > cap
  {
    forall k: nat | cap / start < k
      ensures start * k > cap
    {
      MulMonotone(cap / start + 1, k, start);
    }
  }

  // ----- when the choice is usable -----

  /** An odd divisor leaves a factor of four in the cofactor. */
  lemma CofactorKeepsFour(p: nat, k: nat)
    requires p % 2 == 1 && p * k % 4 == 0
    ensures k % 4 == 0
  {
    var a, b, c, d := p / 4, p % 4, k / 4, k % 4;
    ProductBy4(a, b, c, d);
    assert b == 1 || b == 3;
    assert d == 0 || d == 1 || d == 2 || d == 3;
  }

  lemma ProductBy4(a: nat, b: nat, c: nat, d: nat)
    ensures (4 * a + b) * (4 * c + d) % 4 == b * d % 4
  {
    var m := 4 * (a * c) + a * d + b * c;
    assert (4 * a + b) * (4 * c + d) == 4 * m + b * d;
  }

  /** When 2 is the largest prime factor, the unit is a power of two. */
  lemma PowerOfTwo(unit: nat)
    requires unit % 4 == 0 && unit >= 8 && IsLargestPrimeFactor(2, unit)
    ensures unit % 8 == 0
  {
    var k := unit / 4;
    if k % 2 == 1 {
      HasPrimeFactor(k);
      var q: nat :| IsPrime(q) && Divides(q, k);
      assert unit == k * 4;
      DividesProduct(k, 4);
      DividesTransitive(q, k, unit);
    }
  }

  lemma EvenPrime(p: nat)
    requires IsPrime(p) && p % 2 == 0
    ensures p == 2
  {
    assert p > 2 ==> !Divides(2, p);
  }

  /** Both candidate sizes are positive multiples of four that divide the unit. */
  lemma CandidatesDivide(unit: uint32, p: uint32)
    requires unit % 4 == 0 && unit >= 8 && IsLargestPrimeFactor(p, unit)
    ensures p > 0 && p * 4 < 0x1_0000_0000 && Divides(p * 4, unit)
    ensures unit / p / 4 > 0 && Divides(unit / p / 4 * 4, unit)
  {
    var k := unit / p;
    DividesWitness(p, unit);
    DividesBound(p, unit);
    if p % 2 == 1 {
      CofactorKeepsFour(p, k);
      FourfoldDivides(unit, p, k / 4);
    } else {
      EvenPrime(p);
      PowerOfTwo(unit);
    }
    assert k == k / 4 * 4;
    assert unit == k * p;
    DividesProduct(k, p);
  }

  lemma FourfoldDivides(unit: uint32, p: nat, m: nat)
    requires unit > 0 && p > 0 && unit == p * (4 * m)
    ensures p * 4 < 0x1_0000_0000 && Divides(p * 4, unit)
  {
    assert p * (4 * m) == (p * 4) * m;
    DividesProduct(p * 4, m);
    DividesBound(p * 4, unit);
  }

  /** The unit is a row exactly when the rows fill the flow and a row is a multiple of four. */
  lemma UnitIsRow(h: uint32, flow: uint32, row: nat)
    requires h > 0
    ensures flow == h * row && row % 4 == 0 ==> Unit(h, flow) == row
    ensures (forall k: nat :: flow == h * k ==> k % 4 != 0) ==> Unit(h, flow) == flow
  {
    if flow == h * row {
      DividesProduct(h, row);
    }
    if Divides(h, flow) {
      DividesWitness(h, flow);
    }
  }

  lemma UnitDivides(h: uint32, flow: uint32)
    requires h > 0 && flow % 4 == 0
    ensures Unit(h, flow) % 4 == 0 && (flow > 0 ==> Unit(h, flow) > 0 && Divides(Unit(h, flow), flow))
  {
    var row := flow / h;
    if flow > 0 {
      if Unit(h, flow) == flow {
        DividesProduct(flow, 1);
      } else {
        DividesWitness(h, flow);
        assert flow == row * h;
        DividesProduct(row, h);
      }
    }
  }

  lemma ChoiceIsUsable(h: uint32, flow: uint32, cap: nat, size: nat)
    requires h > 0 && IsChoice(h, flow, cap, size)
    ensures Usable(flow, cap, size) <==> flow % 4 == 0 && cap >= 4
  {
    if Usable(flow, cap, size) {
      DividesProduct(4, size / 4);
      DividesTransitive(4, size, flow);
    }
    if flow % 4 == 0 && cap >= 4 {
      AlignedChoice(h, flow, cap, size);
    }
  }

  lemma AlignedChoice(h: uint32, flow: uint32, cap: nat, size: nat)
    requires h > 0 && IsChoice(h, flow, cap, size) && flow % 4 == 0 && cap >= 4
    ensures Usable(flow, cap, size)
  {
    hide Unit, IsStart, Divides;
    var unit := Unit(h, flow);
    UnitDivides(h, flow);
    var start: nat :| IsStart(unit, cap, start)
                      && if start == 0 || start > cap then size == 4 else IsBestMultiple(flow, cap, start, size);
    if start != 0 && start <= cap {
      AlignedStart(unit, cap, start);
      var q: nat :| IsBestFactor(flow, cap, start, q) && size == start * q;
      if flow > 0 {
        DividesTransitive(start, unit, flow);
      } else {
        EverythingDividesZero(start);
      }
      MultipleOfAligned(start, q);
      assert start * 1 == start;
    } else {
      DividesProduct(4, flow / 4);
    }
  }

  lemma AlignedStart(unit: uint32, cap: nat, start: nat)
    requires unit % 4 == 0 && cap >= 4 && IsStart(unit, cap, start) && 0 < start <= cap
    ensures unit > 0 && start % 4 == 0 && Divides(start, unit)
  {
    hide IsPickFor, Divides;
    if unit > cap {
      var p: uint32 :| IsPickFor(unit, p, cap, start);
      PickedDivides(unit, p, cap, start);
    } else {
      DividesProduct(unit, 1);
    }
  }

  lemma PickedDivides(unit: uint32, p: uint32, cap: nat, start: nat)
    requires unit % 4 == 0 && unit >= 8 && IsPickFor(unit, p, cap, start)
    ensures start % 4 == 0 && Divides(start, unit)
  {
    hide IsLargestPrimeFactor, Divides;
    CandidatesDivide(unit, p);
    FourfoldIsAligned(p);
    FourfoldIsAligned(unit / p / 4);
    SmallMod(p * 4, 0x1_0000_0000);
  }

  lemma FourfoldIsAligned(k: nat)
    ensures k * 4 % 4 == 0
  {
  }

  lemma EverythingDividesZero(d: nat)
    requires d > 0
    ensures Divides(d, 0)
  {
  }

  lemma MultipleOfAligned(start: nat, q: nat)
    requires start % 4 == 0 && start > 0 && q >= 1
    ensures start * q % 4 == 0 && start * q > 0
  {
    assert start * q == 4 * (start / 4 * q);
    MulMonotone(1, q, start);
  }

  /** The choice is determined: no other size meets the description. */
  lemma ChoiceIsUnique(h: uint32, flow: uint32, cap: nat, size: nat, other: nat)
    requires h > 0 && IsChoice(h, flow, cap, size) && IsChoice(h, flow, cap, other)
    ensures size == other
  {
    hide IsStart, IsBestMultiple, Unit;
    var a: nat :| IsStart(Unit(h, flow), cap, a)
                  && if a == 0 || a > cap then size == 4 else IsBestMultiple(flow, cap, a, size);
    var b: nat :| IsStart(Unit(h, flow), cap, b)
                  && if b == 0 || b > cap then other == 4 else IsBestMultiple(flow, cap, b, other);
    StartIsUnique(Unit(h, flow), cap, a, b);
    if a != 0 && a <= cap {
      BestIsUnique(flow, cap, a, size, other);
    }
  }

  lemma StartIsUnique(unit: uint32, cap: nat, a: nat, b: nat)
    requires IsStart(unit, cap, a) && IsStart(unit, cap, b)
    ensures a == b
  {
    hide IsPickFor;
    if unit > cap {
      var p: uint32 :| IsPickFor(unit, p, cap, a);
      var q: uint32 :| IsPickFor(unit, q, cap, b);
      PickIsUnique(unit, p, q, cap, a, b);
    }
  }

  lemma PickIsUnique(unit: uint32, p: uint32, q: uint32, cap: nat, a: nat, b: nat)
    requires IsPickFor(unit, p, cap, a) && IsPickFor(unit, q, cap, b)
    ensures a == b
  {
    LargestIsUnique(p, q, unit);
  }

  lemma LargestIsUnique(p: nat, q: nat, n: nat)
    requires IsLargestPrimeFactor(p, n) && IsLargestPrimeFactor(q, n)
    ensures p == q
  {
    hide IsPrime, Divides;
  }

  lemma BestIsUnique(flow: nat, cap: nat, start: nat, size: nat, other: nat)
    requires IsBestMultiple(flow, cap, start, size) && IsBestMultiple(flow, cap, start, other)
    ensures size == other
  {
    hide Divides;
    var q: nat :| IsBestFactor(flow, cap, start, q) && size == start * q;
    var r: nat :| IsBestFactor(flow, cap, start, r) && other == start * r;
    assert !(q < r) && !(r < q);
  }

  /** A flow of six bytes: the routine answers with the flow itself, which is no multiple of four. */
  lemma UnalignedFlowHasNoChoice()
    ensures IsChoice(1, 6, 960, 6) && !Usable(6, 960, 6)
  {
    forall k: nat | 1 < k
      ensures !Divides(6 * k, 6)
    {
      if Divides(6 * k, 6) {
        DividesBound(6 * k, 6);
      }
    }
    assert IsBestFactor(6, 960, 6, 1);
    assert IsStart(Unit(1, 6), 960, 6);
  }

  /** For every frame shape and every chosen size, the set-up check on divisibility and alignment passes. */
  lemma SetUpCheckPasses(h: nat, w: nat, z: nat, ch: nat, format: Format, framePad: bool,
                         rows: uint32, cap: nat, size: nat)
    requires rows > 0 && cap >= 4
    requires IsChoice(rows, OutputFlowSize(h, w, z, ch, format, framePad), cap, size)
    ensures Usable(OutputFlowSize(h, w, z, ch, format, framePad), cap, size)
  {
    hide OutputFlowSize, IsChoice, Usable;
    FlowSizeAligned(h, w, z, ch, format, framePad);
    ChoiceIsUsable(rows, OutputFlowSize(h, w, z, ch, format, framePad), cap, size);
  }
}
