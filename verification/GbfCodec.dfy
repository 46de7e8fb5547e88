/**
 GBF80 block floating point, one element at a time: a binary32 value against a shared exponent.

 Words and bytes are bit patterns written as bounded naturals, never real numbers.  A right
 shift by s is floor division by 2^s for every s; C leaves shifts of 32 or more open.
 */
module GbfCodec {
  import opened Arithmetic
  import opened Words

  // ----- binary32 fields -----

  /** The bit fields of a binary32 word, low half-word first. */
  datatype Float32 = Float32(zero: nat, man: nat, exp: uint8, sign: nat) {
    predicate Valid() { zero < 0x1_0000 && man < 0x80 && sign < 2 }
  }

  function Split(x: uint32): (f: Float32)
    ensures f.Valid()
  {
    var high := x / 0x1_0000;
    Float32(x % 0x1_0000, high % 0x80, high / 0x80 % 0x100, high / 0x8000)
  }

  function Join(f: Float32): uint32
    requires f.Valid()
  {
    f.zero + (f.man + f.exp * 0x80 + f.sign * 0x8000) * 0x1_0000
  }

  lemma SplitJoin(f: Float32)
    requires f.Valid()
    ensures Split(Join(f)) == f
  {
    var high := f.man + f.exp * 0x80 + f.sign * 0x8000;
    assert Join(f) / 0x1_0000 == high && Join(f) % 0x1_0000 == f.zero;
    assert high / 0x80 == f.exp + f.sign * 0x100;
  }

  /** The fields lie in the word as in section 3.4 of IEEE 754-2019: sign, eight bits of exponent, the fraction. */
  lemma FieldsOfWord(x: uint32)
    ensures var f := Split(x); x == f.sign * 0x8000_0000 + f.exp * 0x80_0000 + f.man * 0x1_0000 + f.zero
  {
    var high := x / 0x1_0000;
    assert high == high / 0x80 * 0x80 + high % 0x80;
    assert high / 0x8000 == high / 0x80 / 0x100;
  }

  /** The same fields by division. */
  lemma FieldsByDivision(x: uint32)
    ensures var f := Split(x);
            && x % 0x80_0000 == f.man * 0x1_0000 + f.zero
            && x / 0x80_0000 % 0x100 == f.exp
            && x % 0x8000_0000 == f.exp * 0x80_0000 + x % 0x80_0000
  {
    var f := Split(x);
    FieldsOfWord(x);
    hide Split;
    var fraction := f.man * 0x1_0000 + f.zero;
    assert fraction < 0x80_0000 && x == (f.sign * 0x100 + f.exp) * 0x80_0000 + fraction;
  }

  lemma WordOfFields(f: Float32)
    requires f.Valid()
    ensures Join(f) == f.sign * 0x8000_0000 + f.exp * 0x80_0000 + f.man * 0x1_0000 + f.zero
  {
  }

  /** Rounds to the upper 16 bits; the carry runs through mantissa, exponent and sign, and off the top. */
  function Round(x: uint32): uint32 {
    var sum := (x + 0x8000) % 0x1_0000_0000;
    sum / 0x1_0000 * 0x1_0000
  }

  lemma RoundClearsLowHalf(x: uint32)
    ensures Split(Round(x)).zero == 0
    ensures Split(x).zero == 0 ==> Round(x) == x
  {
    RoundedZero(x);
    if x % 0x1_0000 == 0 {
      RoundedAlready(x / 0x1_0000);
    }
  }

  lemma RoundedZero(x: uint32)
    ensures Round(x) % 0x1_0000 == 0
  {
    LowHalf((x + 0x8000) % 0x1_0000_0000 / 0x1_0000);
  }

  lemma RoundedAlready(high: nat)
    requires high < 0x1_0000
    ensures Round(high * 0x1_0000) == high * 0x1_0000
  {
    LowHalf(high);
  }

  lemma LowHalf(high: nat)
    ensures (high * 0x1_0000) % 0x1_0000 == 0
    ensures (high * 0x1_0000 + 0x8000) / 0x1_0000 == high
  {
  }

  lemma RoundIsNearest(x: uint32)
    ensures Round(x) % 0x1_0000 == 0
    ensures x < 0xFFFF_8000 ==> x - 0x8000 < Round(x) <= x + 0x8000
    ensures x >= 0xFFFF_8000 ==> Round(x) == 0
  {
    RoundedZero(x);
    if x < 0xFFFF_8000 {
      SmallMod(x + 0x8000, 0x1_0000_0000);
    } else {
      ModOf(1, 0x1_0000_0000, x - 0xFFFF_8000);
    }
  }

  /** y is the multiple of 2^16 nearest to x, the larger one in a tie; what rounds up to 2^32 becomes 0. */
  predicate IsNearest(x: uint32, y: uint32) {
    y % 0x1_0000 == 0 && if x < 0xFFFF_8000 then x - 0x8000 < y <= x + 0x8000 else y == 0
  }

  /** Rounding gives the nearest multiple of 2^16. */
  lemma RoundedIsNearest(x: uint32, y: uint32)
    ensures y == Round(x) <==> IsNearest(x, y)
  {
    RoundIsNearest(x);
    hide Round;
    if IsNearest(x, y) {
      OnlyNearest(x, y, Round(x));
    }
  }

  /** The word is rounded up out of its exponent field. */
  predicate Overflows(x: uint32) { x % 0x8000_0000 >= 0x7FFF_8000 }

  /** The exponent after rounding: a fraction that rounds up to the next power of two takes the exponent with it. */
  function RoundedExponent(x: uint32): uint8 {
    var exp := x / 0x80_0000 % 0x100;
    if Overflows(x) then 0 else if x % 0x80_0000 >= 0x7F_8000 then exp + 1 else exp
  }

  /** Up or down in the fraction, or on to the next exponent, or over the top. */
  function FieldsRounded(f: Float32): (g: Float32)
    requires f.Valid()
    ensures g.Valid() && g.zero == 0
  {
    if f.zero < 0x8000 then Float32(0, f.man, f.exp, f.sign)
    else if f.man < 0x7F then Float32(0, f.man + 1, f.exp, f.sign)
    else if f.exp < 0xFF then Float32(0, 0, f.exp + 1, f.sign)
    else Float32(0, 0, 0, 1 - f.sign)
  }

  /** What rounding a word does to its fields. */
  lemma RoundedFields(x: uint32)
    ensures Split(Round(x)) == FieldsRounded(Split(x))
  {
    var f := Split(x);
    var g := FieldsRounded(f);
    FieldsOfWord(x);
    RoundIsNearest(x);
    WordOfFields(g);
    SplitJoin(g);
    hide Split, Join, Round;
    AlignedFields(g, Join(g));
    WordRounded(f, x, Join(g));
    OnlyNearest(x, Join(g), Round(x));
  }

  lemma WordRounded(f: Float32, x: nat, word: nat)
    requires f.Valid() && x == f.sign * 0x8000_0000 + f.exp * 0x80_0000 + f.man * 0x1_0000 + f.zero
    requires var g := FieldsRounded(f);
             word == g.sign * 0x8000_0000 + g.exp * 0x80_0000 + g.man * 0x1_0000 + g.zero
    ensures if x < 0xFFFF_8000 then x - 0x8000 < word <= x + 0x8000 else word == 0
  {
  }

  lemma AlignedFields(g: Float32, word: nat)
    requires g.zero == 0 && word == g.sign * 0x8000_0000 + g.exp * 0x80_0000 + g.man * 0x1_0000 + g.zero
    ensures word % 0x1_0000 == 0
  {
    LowHalf(g.sign * 0x8000 + g.exp * 0x80 + g.man);
  }

  lemma OnlyNearest(x: nat, a: nat, b: nat)
    requires a % 0x1_0000 == 0 && b % 0x1_0000 == 0
    requires (x - 0x8000 < a <= x + 0x8000 && x - 0x8000 < b <= x + 0x8000) || a == b
    ensures a == b
  {
  }

  // ----- one element -----

  datatype Lane = Lane(man: uint8, sign: nat)

  /** x >> s, one halving at a time. */
  function ShiftRight(x: uint8, s: nat): uint8 {
    if s == 0 then x else ShiftRight(x, s - 1) / 2
  }

  /** x << d before it is cut to a byte. */
  function ShiftLeft(x: uint8, d: nat): nat {
    if d == 0 then x else 2 * ShiftLeft(x, d - 1)
  }

  /** The stored mantissa of a value whose exponent is `s` below the shared one. */
  function Mantissa(man: nat, zero: nat, s: nat): uint8
    requires man < 0x80 && zero < 0x1_0000
  {
    if s == 0 then
      if man == 0x7f then 0x80 + man else 0x80 + man + zero / 0x8000 % 2
    else
      ShiftRight(0x80 + man, s) + ShiftRight(man, s - 1) % 2
  }

  function EncodeLane(f: Float32, shared: uint8): (lane: Lane)
    requires f.Valid() && f.exp <= shared
    ensures lane.sign < 2
  {
    var man := Mantissa(f.man, f.zero, shared - f.exp);
    Lane(man, if man == 0 then 0 else f.sign)
  }

  /** Leading zeros of a byte: the ranges of the 256-entry table. */
  function LeadingZeros(t: uint8): nat {
    if t >= 0x80 then 0 else if t >= 0x40 then 1 else if t >= 0x20 then 2 else if t >= 0x10 then 3
    else if t >= 0x08 then 4 else if t >= 0x04 then 5 else if t >= 0x02 then 6 else if t >= 0x01 then 7
    else 8
  }

  /** Byte subtraction that keeps the wrapped difference only when it did not wrap. */
  function SaturatedSubtract(a: uint8, b: uint8): uint8 {
    var res := (a - b) % 0x100;
    if res <= a then res else 0
  }

  function DecodeLane(lane: Lane, shared: uint8): (f: Float32)
    requires lane.sign < 2
    ensures f.Valid()
  {
    var d := LeadingZeros(lane.man);
    Float32(0, ShiftLeft(lane.man, d) % 0x80, if d < 8 then SaturatedSubtract(shared, d) else 0, lane.sign)
  }

  /** Whatever the wrap, it is the difference cut off at 0. */
  lemma SaturationIsClamp(a: uint8, b: uint8)
    ensures SaturatedSubtract(a, b) == if a >= b then a - b else 0
  {
  }

  // ----- shifts -----

  lemma Pow2Table()
    ensures Pow2(0) == 1 && Pow2(1) == 2 && Pow2(2) == 4 && Pow2(3) == 8 && Pow2(4) == 16
    ensures Pow2(5) == 32 && Pow2(6) == 64 && Pow2(7) == 128 && Pow2(8) == 256
  {
    assert Pow2(2) == 4 && Pow2(4) == 16 && Pow2(6) == 64;
  }

  lemma Halving(y: nat, p: nat)
    ensures y * p == (y / 2) * (2 * p) + (y % 2) * p
    ensures 0 <= (y % 2) * p <= p
  {
    var h, b := y / 2, y % 2;
    assert y == 2 * h + b;
    assert (2 * h + b) * p == h * (2 * p) + b * p;
    assert b == 0 || b == 1;
  }

  lemma {:induction false} ShiftRightIsFloor(x: uint8, s: nat)
    ensures ShiftRight(x, s) * Pow2(s) <= x < ShiftRight(x, s) * Pow2(s) + Pow2(s)
  {
    if s > 0 {
      ShiftRightIsFloor(x, s - 1);
      Halving(ShiftRight(x, s - 1), Pow2(s - 1));
    }
  }

  lemma {:induction false} ShiftRightEmpties(x: uint8, s: nat)
    requires s >= 8 || (s == 7 && x < 0x80)
    ensures ShiftRight(x, s) == 0
  {
    if s <= 8 {
      ShiftRightIsFloor(x, s);
      Pow2Table();
    } else {
      ShiftRightEmpties(x, s - 1);
    }
  }

  /** The hidden bit moves down with the rest and, until shift 7, stays clear of the lowest place. */
  lemma {:induction false} ShiftRightHidden(m: nat, s: nat)
    requires m < 0x80 && s <= 7
    ensures ShiftRight(0x80 + m, s) == ShiftRight(m, s) + Pow2(7 - s)
  {
    Pow2Table();
    if s > 0 {
      ShiftRightHidden(m, s - 1);
      assert Pow2(7 - (s - 1)) == 2 * Pow2(7 - s);
    }
  }

  lemma {:induction false} ShiftLeftScales(t: uint8, d: nat)
    ensures ShiftLeft(t, d) == t * Pow2(d)
  {
    if d > 0 {
      ShiftLeftScales(t, d - 1);
    }
  }

  lemma ShiftLeftTable(t: uint8)
    ensures ShiftLeft(t, 0) == t && ShiftLeft(t, 1) == 2 * t && ShiftLeft(t, 2) == 4 * t && ShiftLeft(t, 3) == 8 * t
    ensures ShiftLeft(t, 4) == 16 * t && ShiftLeft(t, 5) == 32 * t && ShiftLeft(t, 6) == 64 * t
    ensures ShiftLeft(t, 7) == 128 * t && ShiftLeft(t, 8) == 256 * t
  {
    assert ShiftLeft(t, 1) == 2 * t;
    assert ShiftLeft(t, 3) == 8 * t;
    assert ShiftLeft(t, 5) == 32 * t;
    assert ShiftLeft(t, 7) == 128 * t;
  }

  /** Shifting down again undoes shifting up. */
  lemma {:induction false} ShiftBack(t: uint8, x: uint8, d: nat, s: nat)
    requires s <= d && x == ShiftLeft(t, d)
    ensures ShiftRight(x, s) == ShiftLeft(t, d - s)
  {
    if s > 0 {
      ShiftBack(t, x, d, s - 1);
    }
  }

  /** LeadingZeros is the number of places a byte can move up before it reaches the top bit. */
  lemma LeadingZerosByPow2(t: uint8, d: nat)
    requires d <= 7
    ensures LeadingZeros(t) <= d <==> Pow2(7 - d) <= t
  {
    Pow2Table();
  }

  lemma MantissaShift(m: nat, s: nat)
    requires m < 0x80
    ensures s == 0 ==> Mantissa(m, 0, s) == 0x80 + m
    ensures s <= 7 ==> Mantissa(m, 0, s) >= Pow2(7 - s) > 0 && LeadingZeros(Mantissa(m, 0, s)) <= s
    ensures s >= 8 ==> Mantissa(m, 0, s) == 0
  {
    Pow2Table();
    if s >= 8 {
      ShiftRightEmpties(0x80 + m, s);
      ShiftRightEmpties(m, s - 1);
    } else {
      ShiftRightHidden(m, s);
      LeadingZerosByPow2(Mantissa(m, 0, s), s);
    }
  }

  /** Normalising by the leading-zero count loses no bit, and encoding at that shift gives the byte back. */
  lemma NormaliseShift(t: uint8)
    requires t != 0
    ensures var d := LeadingZeros(t);
            d <= 7 && ShiftLeft(t, d) == 0x80 + ShiftLeft(t, d) % 0x80 && Mantissa(ShiftLeft(t, d) % 0x80, 0, d) == t
  {
    var d := LeadingZeros(t);
    ShiftLeftTable(t);
    ShiftsBackExactly(t, d);
  }

  lemma ShiftsBackExactly(t: uint8, d: nat)
    requires d <= 7 && 0x80 <= ShiftLeft(t, d) < 0x100
    ensures Mantissa(ShiftLeft(t, d) - 0x80, 0, d) == t
  {
    var x := ShiftLeft(t, d);
    if d > 0 {
      ShiftBack(t, x, d, d);
      ShiftBack(t, x, d, d - 1);
      ShiftRightHidden(x - 0x80, d - 1);
      assert Pow2(7 - (d - 1)) == 2 * Pow2(7 - d);
    }
  }

  /** A lane the encoder can produce under a shared exponent: what decoding and encoding again keeps. */
  predicate Canonical(lane: Lane, shared: uint8) {
    lane.sign < 2 && if lane.man == 0 then lane.sign == 0 && shared >= 8 else LeadingZeros(lane.man) <= shared
  }

  lemma EncodedLaneIsCanonical(f: Float32, shared: uint8)
    requires f.Valid() && f.zero == 0 && f.exp <= shared
    ensures Canonical(EncodeLane(f, shared), shared)
    ensures f.exp == shared ==> EncodeLane(f, shared).man >= 0x80
  {
    MantissaShift(f.man, shared - f.exp);
  }

  lemma LaneProjection(lane: Lane, shared: uint8)
    requires Canonical(lane, shared)
    ensures DecodeLane(lane, shared).exp <= shared
    ensures EncodeLane(DecodeLane(lane, shared), shared) == lane
    ensures lane.man >= 0x80 ==> DecodeLane(lane, shared).exp == shared
  {
    DecodedFields(lane, shared);
    if lane.man == 0 {
      MantissaShift(0, shared);
    } else {
      NormaliseShift(lane.man);
      var d := LeadingZeros(lane.man);
      var m := ShiftLeft(lane.man, d) % 0x80;
      assert EncodeLane(Float32(0, m, shared - d, lane.sign), shared).man == Mantissa(m, 0, d);
    }
  }

  lemma DecodedFields(lane: Lane, shared: uint8)
    requires Canonical(lane, shared)
    ensures lane.man == 0 ==> DecodeLane(lane, shared) == Float32(0, 0, 0, 0)
    ensures lane.man != 0 ==>
              var d := LeadingZeros(lane.man);
              DecodeLane(lane, shared) == Float32(0, ShiftLeft(lane.man, d) % 0x80, shared - d, lane.sign)
  {
    ShiftLeftTable(lane.man);
    if lane.man != 0 {
      NormaliseShift(lane.man);
    }
  }

  // ----- the other decoder, normalising by a loop -----

  /** The decoder that shifts until the leading one is reached; the exponent byte wraps. */
  method DecodeLaneByLoop(lane: Lane, shared: uint8) returns (f: Float32)
    ensures f == LoopDecoded(lane, shared)
  {
    var man: nat, exp: int := lane.man, shared;
    ghost var k: nat := 0;
    while man != 0 && man < 0x80
      invariant k <= LeadingZeros(lane.man)
      invariant man == ShiftLeft(lane.man, k) && exp == (shared - k as int) % 0x100
      invariant man == 0 ==> k == 0
      decreases 8 - k
    {
      DoublingStep(lane.man, k);
      exp := (exp - 1) % 0x100;
      man := man * 2;
      k := k + 1;
    }
    if man != 0 {
      LeadingOneReached(lane.man, k);
      NormaliseShift(lane.man);
    } else {
      ShiftLeftTable(lane.man);
    }
    f := Float32(0, man % 0x80, if man != 0 then exp else 0, lane.sign);
  }

  lemma DoublingStep(t: uint8, k: nat)
    requires k <= LeadingZeros(t) && 0 < ShiftLeft(t, k) < 0x80
    ensures k + 1 <= LeadingZeros(t) && k + 1 <= 7
  {
    ShiftLeftTable(t);
  }

  lemma LeadingOneReached(t: uint8, k: nat)
    requires k <= LeadingZeros(t) && 0x80 <= ShiftLeft(t, k)
    ensures t != 0 && k == LeadingZeros(t)
  {
    ShiftLeftTable(t);
  }

  function LoopDecoded(lane: Lane, shared: uint8): Float32 {
    if lane.man == 0 then Float32(0, 0, 0, lane.sign)
    else
      var d := LeadingZeros(lane.man);
      Float32(0, ShiftLeft(lane.man, d) % 0x80, (shared - d) % 0x100, lane.sign)
  }

  /** The table decoder and the loop decoder agree exactly when the exponent does not run below zero. */
  lemma FastDecodeIsLoopDecode(lane: Lane, shared: uint8)
    requires lane.sign < 2
    ensures DecodeLane(lane, shared) == LoopDecoded(lane, shared)
            <==> (lane.man == 0 || LeadingZeros(lane.man) <= shared)
  {
    ShiftLeftTable(lane.man);
  }

  /** The smallest mantissa under exponent 0: one decoder saturates, the other wraps. */
  lemma DecodersDiffer()
    ensures DecodeLane(Lane(1, 0), 0) == Float32(0, 0, 0, 0) && LoopDecoded(Lane(1, 0), 0) == Float32(0, 0, 0xF9, 0)
  {
    ShiftLeftTable(1);
  }

  /** A mantissa with more leading zeros than the exponent: one decoder stops at exponent 0, the other wraps around. */
  lemma DecodeBelowZero(lane: Lane, shared: uint8)
    requires lane.sign < 2 && lane.man != 0 && LeadingZeros(lane.man) > shared
    ensures var d := LeadingZeros(lane.man);
            && DecodeLane(lane, shared) == Float32(0, ShiftLeft(lane.man, d) % 0x80, 0, lane.sign)
            && LoopDecoded(lane, shared) == Float32(0, ShiftLeft(lane.man, d) % 0x80, shared + 0x100 - d, lane.sign)
  {
    NormaliseShift(lane.man);
    SaturationIsClamp(shared, LeadingZeros(lane.man));
  }

  // ----- values -----

  /** The value of a word, hidden bit included, in units of 2^-150. */
  function Magnitude(f: Float32): nat { (0x80_0000 + f.man * 0x1_0000 + f.zero) * Pow2(f.exp) }

  /** The value a stored mantissa stands for under the shared exponent, in the same units. */
  function Stored(man: nat, shared: nat): nat { man * 0x1_0000 * Pow2(shared) }

  /** b is within the tolerance of a, a tie going up. */
  predicate Near(a: int, b: int, tolerance: int) { a - tolerance < b <= a + tolerance }

  lemma {:induction false} PowerSum(a: nat, b: nat)
    ensures Pow2(a + b) == Pow2(a) * Pow2(b)
  {
    if a > 0 {
      PowerSum(a - 1, b);
    }
  }

  lemma ScaledNear(a: int, b: int, tolerance: int, p: nat)
    requires p > 0 && Near(a, b, tolerance)
    ensures Near(a * p, b * p, tolerance * p)
  {
    assert (a - tolerance) * p < b * p <= (a + tolerance) * p;
    assert (a - tolerance) * p == a * p - tolerance * p && (a + tolerance) * p == a * p + tolerance * p;
  }

  /** Rounding a word keeps its sign and moves its value by at most half a unit of the sixteenth fraction bit. */
  lemma RoundedValue(x: uint32)
    requires !Overflows(x)
    ensures var f, g := Split(x), Split(Round(x));
            && g.zero == 0 && g.sign == f.sign && g.exp == RoundedExponent(x)
            && Near(Magnitude(f), Magnitude(g), 0x8000 * Pow2(f.exp))
  {
    var f, g := Split(x), Split(Round(x));
    FieldsByDivision(x);
    RoundedFields(x);
    hide Split, Round, Magnitude, Near;
    var exact := 0x80_0000 + f.man * 0x1_0000 + f.zero;
    var rounded := if f.zero < 0x8000 then exact - f.zero else exact - f.zero + 0x1_0000;
    NearestUnit(exact, f.zero);
    ScaledNear(exact, rounded, 0x8000, Pow2(f.exp));
    MagnitudeOf(f, exact, f.exp);
    MagnitudeOf(g, rounded, f.exp);
  }

  lemma NearestUnit(exact: nat, zero: nat)
    requires zero < 0x1_0000
    ensures Near(exact, if zero < 0x8000 then exact - zero else exact - zero + 0x1_0000, 0x8000)
  {
  }

  /** The same value with the exponent of one power of two less. */
  lemma MagnitudeOf(f: Float32, significand: nat, e: nat)
    requires (f.exp == e && significand == 0x80_0000 + f.man * 0x1_0000 + f.zero)
             || (f.exp == e + 1 && f.man == 0 && f.zero == 0 && significand == 0x100_0000)
    ensures Magnitude(f) == significand * Pow2(e)
  {
  }

  /** Rounding over the top leaves a word with no exponent and no fraction, of the other sign. */
  lemma RoundedOver(x: uint32)
    requires Overflows(x)
    ensures Split(Round(x)) == Float32(0, 0, 0, 1 - Split(x).sign) && RoundedExponent(x) == 0
  {
    FieldsByDivision(x);
    RoundedFields(x);
    hide Split, Round;
  }

  /** Exact at shift 0, half a step 2^(s-1) at shifts 1 to 7 with ties upward, and gone from 8 on. */
  lemma EncodingError(f: Float32, shared: uint8)
    requires f.Valid() && f.zero == 0 && f.exp <= shared
    ensures var s := shared - f.exp; var lane := EncodeLane(f, shared); var exact := 0x80 + f.man;
            && (s == 0 ==> lane.man == exact)
            && (s != 0 && s <= 7 ==> Near(exact, lane.man * Pow2(s), Pow2(s - 1)))
            && (s <= 7 ==> lane.man != 0 && lane.sign == f.sign)
            && (s >= 8 ==> lane == Lane(0, 0))
  {
    var s := shared - f.exp;
    MantissaShift(f.man, s);
    if 1 <= s <= 7 {
      HalfStep(f.man, s);
    }
  }

  lemma HalfStep(m: nat, s: nat)
    requires m < 0x80 && 1 <= s <= 7
    ensures Near(0x80 + m, Mantissa(m, 0, s) * Pow2(s), Pow2(s - 1))
  {
    ShiftRightIsFloor(0x80 + m, s - 1);
    MantissaRoundsUp(m, s);
    HalfUp(0x80 + m, ShiftRight(0x80 + m, s - 1), Pow2(s - 1));
  }

  lemma MantissaRoundsUp(m: nat, s: nat)
    requires m < 0x80 && 1 <= s <= 7
    ensures var y := ShiftRight(0x80 + m, s - 1); Mantissa(m, 0, s) == y / 2 + y % 2
  {
    ShiftRightHidden(m, s - 1);
    assert Pow2(7 - (s - 1)) == 2 * Pow2(7 - s);
  }

  lemma HalfUp(x: nat, y: nat, p: nat)
    requires p > 0 && y * p <= x < y * p + p
    ensures Near(x, (y / 2 + y % 2) * (2 * p), p)
  {
    Halving(y, p);
    var h, b := y / 2, y % 2;
    assert (h + b) * (2 * p) == h * (2 * p) + b * p + b * p;
    assert b == 0 || b == 1;
  }

  /** What is stored of a rounded word: its own value, or one within half a step of it, or nothing. */
  ghost predicate IsStored(g: Float32, lane: Lane, shared: uint8) {
    var s := shared - g.exp;
    && 0 <= s && (s >= 8 ==> lane == Lane(0, 0)) && (s <= 7 ==> lane.man != 0 && lane.sign == g.sign)
    && (s == 0 ==> Stored(lane.man, shared) == Magnitude(g))
    && (0 < s <= 7 ==> Near(Magnitude(g), Stored(lane.man, shared), 0x8000 * Pow2(shared)))
  }

  /** Only one mantissa and sign is stored of a word. */
  lemma StoredIsUnique(g: Float32, a: Lane, b: Lane, shared: uint8)
    requires IsStored(g, a, shared) && IsStored(g, b, shared)
    ensures a == b
  {
    var step := 0x1_0000 * Pow2(shared);
    Associate(a.man, 0x1_0000, Pow2(shared));
    Associate(b.man, 0x1_0000, Pow2(shared));
    Monotone(a.man, b.man, step);
    Monotone(b.man, a.man, step);
  }

  lemma StoredValue(g: Float32, shared: uint8)
    requires g.Valid() && g.zero == 0 && g.exp <= shared
    ensures IsStored(g, EncodeLane(g, shared), shared)
  {
    var s := shared - g.exp;
    var lane := EncodeLane(g, shared);
    EncodingError(g, shared);
    HighHalf(g, 0x80 + g.man);
    hide EncodeLane, Near, Magnitude;
    if s == 0 {
      Associate(lane.man, 0x1_0000, Pow2(shared));
    } else if s <= 7 {
      ScaledNear(0x80 + g.man, lane.man * Pow2(s), Pow2(s - 1), 0x1_0000 * Pow2(g.exp));
      StepScale(lane.man, g.exp, s);
    }
  }

  lemma Associate(a: nat, b: nat, c: nat)
    ensures a * b * c == a * (b * c)
  {
  }

  lemma HighHalf(f: Float32, top: nat)
    requires f.zero == 0 && 0x80_0000 + f.man * 0x1_0000 == top * 0x1_0000
    ensures Magnitude(f) == top * (0x1_0000 * Pow2(f.exp))
  {
    Associate(top, 0x1_0000, Pow2(f.exp));
  }

  lemma StepScale(man: nat, e: nat, s: nat)
    requires s > 0
    ensures man * Pow2(s) * (0x1_0000 * Pow2(e)) == Stored(man, e + s)
    ensures Pow2(s - 1) * (0x1_0000 * Pow2(e)) == 0x8000 * Pow2(e + s)
  {
    PowerSum(s, e);
    PowerSum(s - 1, e);
    StepProduct(man, Pow2(s), Pow2(e), 0x1_0000);
    StepProduct(1, Pow2(s - 1), Pow2(e), 0x1_0000);
  }

  lemma StepProduct(a: nat, p: nat, q: nat, c: nat)
    ensures a * p * (c * q) == a * c * (p * q)
  {
    Associate(a, p, c * q);
    Associate(a, c, p * q);
    Associate(p, c, q);
    Associate(c, p, q);
    assert p * c == c * p;
  }

  /** Decoding keeps sign and stored value, rewritten with a leading one. */
  lemma DecodeKeepsValue(lane: Lane, shared: uint8)
    requires Canonical(lane, shared)
    ensures var f := DecodeLane(lane, shared);
            && f.sign == lane.sign && f.zero == 0
            && (lane.man == 0 ==> f.exp == 0 && f.man == 0)
            && (lane.man != 0 ==> f.exp <= shared && Magnitude(f) == Stored(lane.man, shared))
  {
    DecodedFields(lane, shared);
    if lane.man != 0 {
      NormaliseShift(lane.man);
      var d := LeadingZeros(lane.man);
      ShiftLeftScales(lane.man, d);
      var f := DecodeLane(lane, shared);
      PowerSum(d, f.exp);
      hide DecodeLane, Magnitude;
      HighHalf(f, lane.man * Pow2(d));
      StepProduct(lane.man, Pow2(d), Pow2(f.exp), 0x1_0000);
    }
  }

  /**
   What a stored lane may be, for word x under shared exponent E.  Let s be the distance of E from the exponent of the
   rounded word: from 8 on nothing is stored; below, the sign is, and a value within half a rounding unit of x, for
   s > 0 within half a step of E more.
   */
  ghost predicate LaneHolds(x: uint32, lane: Lane, shared: uint8) {
    var f, s := Split(x), shared - RoundedExponent(x);
    && 0 <= s && (s >= 8 ==> lane == Lane(0, 0))
    && (s <= 7 ==> lane.man != 0 && lane.sign == if Overflows(x) then 1 - f.sign else f.sign)
    && (s <= 7 && !Overflows(x) ==>
          Near(Magnitude(f), Stored(lane.man, shared),
               0x8000 * Pow2(f.exp) + if s > 0 then 0x8000 * Pow2(shared) else 0))
    && (s <= 7 && Overflows(x) ==> Near(0x80_0000, Stored(lane.man, shared), 0x8000 * Pow2(shared)))
  }

  /** What a word may come back as, in the same terms. */
  ghost predicate ValueHolds(x: uint32, d: uint32, shared: uint8) {
    var f, g, s := Split(x), Split(d), shared - RoundedExponent(x);
    && 0 <= s && (s >= 8 ==> d == 0)
    && (s <= 7 ==> g.zero == 0 && g.sign == if Overflows(x) then 1 - f.sign else f.sign)
    && (s <= 7 && !Overflows(x) ==>
          Near(Magnitude(f), Magnitude(g), 0x8000 * Pow2(f.exp) + if s > 0 then 0x8000 * Pow2(shared) else 0))
    && (s <= 7 && Overflows(x) ==> Near(0x80_0000, Magnitude(g), 0x8000 * Pow2(shared)))
  }

  lemma DecodedLaneHolds(x: uint32, lane: Lane, shared: uint8)
    requires LaneHolds(x, lane, shared) && Canonical(lane, shared)
    ensures ValueHolds(x, Join(DecodeLane(lane, shared)), shared)
  {
    DecodeKeepsValue(lane, shared);
    SplitJoin(DecodeLane(lane, shared));
    hide Split, DecodeLane, Magnitude, Stored, RoundedExponent, Overflows, Near;
  }

  lemma ExponentRounds(x: uint32)
    ensures Split(Round(x)).exp == RoundedExponent(x)
  {
    hide RoundedExponent, Split, Round;
    if Overflows(x) {
      RoundedOver(x);
    } else {
      RoundedValue(x);
    }
  }

  lemma LaneOfWord(x: uint32, shared: uint8)
    requires Split(Round(x)).exp <= shared
    ensures LaneHolds(x, EncodeLane(Split(Round(x)), shared), shared)
    ensures Canonical(EncodeLane(Split(Round(x)), shared), shared)
  {
    var g := Split(Round(x));
    if Overflows(x) {
      RoundedOver(x);
      assert Magnitude(g) == 0x80_0000;
    } else {
      RoundedValue(x);
    }
    StoredValue(g, shared);
    EncodedLaneIsCanonical(g, shared);
    hide Split, Round, EncodeLane, Magnitude, Stored, RoundedExponent, Overflows;
  }
}
