/** GBF80 blocks: eight lanes and a shared exponent in ten bytes. */
module GbfBlock {
  import opened Arithmetic
  import opened GbfCodec
  import opened Words

  datatype Block = Block(exp: uint8, lanes: seq<Lane>) {
    predicate Valid() {
      |lanes| == 8 && forall k :: 0 <= k < 8 ==> lanes[k].sign < 2
    }
  }

  // ----- packing: the bit layout of the 80-bit word -----

  /** Nine bits a lane, low lane first, below `top`. */
  function FieldsWord(lanes: seq<Lane>, top: nat): nat {
    if lanes == [] then top else lanes[0].man + 0x100 * lanes[0].sign + 0x200 * FieldsWord(lanes[1..], top)
  }

  /** word >> 9k. */
  function SkipFields(word: nat, k: nat): nat {
    if k == 0 then word else SkipFields(word / 0x200, k - 1)
  }

  function ToBytes(word: nat, n: nat): (b: seq<uint8>)
    ensures |b| == n
  {
    if n == 0 then [] else [word % 0x100] + ToBytes(word / 0x100, n - 1)
  }

  function FromBytes(b: seq<uint8>): nat {
    if b == [] then 0 else b[0] + 0x100 * FromBytes(b[1..])
  }

  /** Lanes 0 to 6 and the low mantissa bit of lane 7 fill 64 bits. */
  function LowWord(b: Block): nat
    requires b.Valid()
  {
    FieldsWord(b.lanes[..7], b.lanes[7].man % 2)
  }

  /** The rest of lane 7 and the exponent fill 16 bits. */
  function HighWord(b: Block): nat
    requires b.Valid()
  {
    b.lanes[7].man / 2 + 0x80 * b.lanes[7].sign + 0x100 * b.exp
  }

  function PackBlock(b: Block): (bytes: seq<uint8>)
    requires b.Valid()
    ensures |bytes| == 10
  {
    ToBytes(LowWord(b), 8) + ToBytes(HighWord(b), 2)
  }

  function LowLane(low: nat, k: nat): (lane: Lane)
    ensures lane.sign < 2
  {
    var word := SkipFields(low, k);
    Lane(word % 0x100, word / 0x100 % 2)
  }

  function HighLane(low: nat, high: nat): (lane: Lane)
    ensures lane.sign < 2
  {
    Lane(high % 0x80 * 2 + SkipFields(low, 7) % 2, high / 0x80 % 2)
  }

  function UnpackWords(low: nat, high: nat): (b: Block)
    ensures b.Valid()
  {
    Block(high / 0x100 % 0x100,
          [LowLane(low, 0), LowLane(low, 1), LowLane(low, 2), LowLane(low, 3), LowLane(low, 4), LowLane(low, 5),
           LowLane(low, 6), HighLane(low, high)])
  }

  function UnpackBlock(bytes: seq<uint8>): (b: Block)
    requires |bytes| == 10
    ensures b.Valid()
  {
    UnpackWords(FromBytes(bytes[..8]), FromBytes(bytes[8..]))
  }

  function Pow(base: nat, n: nat): nat { if n == 0 then 1 else base * Pow(base, n - 1) }

  lemma {:induction false} BytesRoundTrip(word: nat, n: nat)
    requires word < Pow(0x100, n)
    ensures FromBytes(ToBytes(word, n)) == word
  {
    if n > 0 {
      BytesRoundTrip(word / 0x100, n - 1);
      assert ToBytes(word, n)[1..] == ToBytes(word / 0x100, n - 1);
    }
  }

  lemma {:induction false} FieldsWordBound(lanes: seq<Lane>, top: nat, bound: nat)
    requires forall k :: 0 <= k < |lanes| ==> lanes[k].sign < 2
    requires top < bound
    ensures FieldsWord(lanes, top) < bound * Pow(0x200, |lanes|)
  {
    if lanes != [] {
      FieldsWordBound(lanes[1..], top, bound);
      var rest := bound * Pow(0x200, |lanes| - 1);
      assert bound * Pow(0x200, |lanes|) == 0x200 * rest;
    }
  }

  lemma {:induction false} SkipFieldsDrops(lanes: seq<Lane>, top: nat, k: nat)
    requires forall k :: 0 <= k < |lanes| ==> lanes[k].sign < 2
    requires k <= |lanes|
    ensures SkipFields(FieldsWord(lanes, top), k) == FieldsWord(lanes[k..], top)
  {
    if k > 0 {
      var rest := FieldsWord(lanes[1..], top);
      assert FieldsWord(lanes, top) / 0x200 == rest;
      SkipFieldsDrops(lanes[1..], top, k - 1);
      assert lanes[1..][k - 1..] == lanes[k..];
    }
  }

  lemma LowLaneIsLane(lanes: seq<Lane>, top: nat, k: nat)
    requires forall k :: 0 <= k < |lanes| ==> lanes[k].sign < 2
    requires k < |lanes|
    ensures LowLane(FieldsWord(lanes, top), k) == lanes[k]
  {
    SkipFieldsDrops(lanes, top, k);
    var word := FieldsWord(lanes[k..], top);
    var rest := FieldsWord(lanes[k..][1..], top);
    assert word == lanes[k].man + 0x100 * (lanes[k].sign + 2 * rest);
    assert word / 0x100 == lanes[k].sign + 2 * rest;
  }

  lemma PowTable()
    ensures Pow(0x100, 8) == 2 * Pow(0x200, 7) && Pow(0x100, 2) == 0x1_0000
  {
    assert Pow(0x100, 2) == 0x1_0000 && Pow(0x100, 4) == 0x1_0000_0000;
    assert Pow(0x100, 6) == 0x1_0000_0000_0000 && Pow(0x100, 8) == 0x1_0000_0000_0000_0000;
    assert Pow(0x200, 2) == 0x4_0000 && Pow(0x200, 4) == 0x10_0000_0000;
    assert Pow(0x200, 6) == 0x40_0000_0000_0000 && Pow(0x200, 7) == 0x8000_0000_0000_0000;
  }

  // ----- where the bits lie -----

  /** The nine bits of a lane: mantissa, then sign. */
  function Field(lane: Lane): nat { lane.man + 0x100 * lane.sign }

  /** Its low 8 - k bits, at the top of a byte, and the bits above them. */
  function LowBits(lane: Lane, k: nat): nat
    requires k <= 7
  {
    Modulo(Field(lane), Pow2(8 - k)) * Pow2(k)
  }

  function HighBits(lane: Lane, k: nat): nat
    requires k <= 7
  {
    Quotient(Field(lane), Pow2(8 - k))
  }

  function Modulo(a: nat, b: nat): nat
    requires b > 0
  {
    a % b
  }

  function Quotient(a: nat, b: nat): nat
    requires b > 0
  {
    a / b
  }

  /**
   Lane k takes bits 9k to 9k + 8 of the packet, low byte first: its low 8 - k bits stand at the top of byte k and the
   rest at the bottom of byte k + 1.  The exponent is the last byte.
   */
  lemma PackedBytes(b: Block, i: nat)
    requires b.Valid() && i <= 9
    ensures PackBlock(b)[i] == if i == 9 then b.exp
                               else (if i > 0 then HighBits(b.lanes[i - 1], i - 1) else 0)
                                    + if i < 8 then LowBits(b.lanes[i], i) else 0
  {
    hide HighBits, LowBits, FieldsWord, Drop, LowWord, HighWord;
    if i < 8 {
      ByteAt(LowWord(b), 8, i);
      LowBytes(b, i);
    } else {
      ByteAt(HighWord(b), 2, i - 8);
      HighBytes(b, i);
    }
  }

  lemma LowBytes(b: Block, i: nat)
    requires b.Valid() && i < 8
    ensures Drop(LowWord(b), i) % 0x100
         == (if i > 0 then HighBits(b.lanes[i - 1], i - 1) else 0) + LowBits(b.lanes[i], i)
  {
    hide HighBits, LowBits, Drop;
    var lanes, top := b.lanes[..7], b.lanes[7].man % 2;
    if i < 7 {
      NextByte(lanes, top, i);
    } else {
      Dropped(lanes, top, 7);
      LastBits(b.lanes[7]);
      Pow2Table();
      assert FieldsWord(lanes[7..], top) == top;
      var byte := Carried(lanes, 7) + 0x80 * top;
      DivideByte(0, byte);
    }
  }

  lemma HighBytes(b: Block, i: nat)
    requires b.Valid() && 8 <= i <= 9
    ensures Drop(HighWord(b), i - 8) % 0x100 == if i == 9 then b.exp else HighBits(b.lanes[7], 7)
  {
    hide HighBits, LowBits;
    var last := b.lanes[7];
    LastBits(last);
    HighFields(last.man, last.sign, b.exp);
    hide Field;
    DivideByte(b.exp, last.man / 2 + 0x80 * last.sign);
    assert Drop(HighWord(b), 1) == Drop(HighWord(b), 0) / 0x100;
  }

  lemma LastBits(lane: Lane)
    requires lane.sign < 2
    ensures HighBits(lane, 7) == lane.man / 2 + 0x80 * lane.sign
    ensures LowBits(lane, 7) == lane.man % 2 * 0x80
  {
    Pow2Table();
    assert HighBits(lane, 7) == Field(lane) / 2 && LowBits(lane, 7) == Field(lane) % 2 * 0x80;
    hide LowBits, HighBits;
    var half := lane.man / 2;
    assert Field(lane) == 2 * (half + 0x80 * lane.sign) + lane.man % 2;
  }

  /** word >> 8i. */
  function Drop(word: nat, i: nat): nat { if i == 0 then word else Drop(word, i - 1) / 0x100 }

  lemma {:induction false} DropOnce(word: nat, i: nat)
    ensures Drop(word / 0x100, i) == Drop(word, i + 1)
  {
    if i > 0 {
      DropOnce(word, i - 1);
    }
  }

  lemma {:induction false} ByteAt(word: nat, n: nat, i: nat)
    requires i < n
    ensures ToBytes(word, n)[i] == Drop(word, i) % 0x100
  {
    if i > 0 {
      ByteAt(word / 0x100, n - 1, i - 1);
      DropOnce(word, i - 1);
    }
  }

  /** The bits of lane i - 1 that byte i starts with. */
  function Carried(lanes: seq<Lane>, i: nat): nat
    requires i <= |lanes| && i <= 8
  {
    if i > 0 then HighBits(lanes[i - 1], i - 1) else 0
  }

  lemma {:induction false} Dropped(lanes: seq<Lane>, top: nat, i: nat)
    requires i <= |lanes| && i <= 7 && forall k :: 0 <= k < |lanes| ==> lanes[k].sign < 2
    ensures Carried(lanes, i) < Pow2(i)
    ensures Drop(FieldsWord(lanes, top), i) == Carried(lanes, i) + Pow2(i) * FieldsWord(lanes[i..], top)
  {
    hide LowBits, HighBits, Field, FieldsWord;
    if i == 0 {
      assert lanes[0..] == lanes;
    } else {
      hide Pow2;
      Dropped(lanes, top, i - 1);
      FieldsTail(lanes, top, i - 1);
      ByteStep(Carried(lanes, i - 1), lanes[i - 1], FieldsWord(lanes[i..], top), i - 1);
    }
  }

  /** Byte i: what is carried from lane i - 1, and the low bits of lane i. */
  lemma NextByte(lanes: seq<Lane>, top: nat, i: nat)
    requires i < |lanes| && i <= 7 && forall k :: 0 <= k < |lanes| ==> lanes[k].sign < 2
    ensures Drop(FieldsWord(lanes, top), i) % 0x100
         == Carried(lanes, i) + LowBits(lanes[i], i)
  {
    hide LowBits, HighBits, Field, FieldsWord, Drop, Carried;
    Dropped(lanes, top, i);
    FieldsTail(lanes, top, i);
    ByteStep(Carried(lanes, i), lanes[i], FieldsWord(lanes[i + 1..], top), i);
  }

  lemma FieldsTail(lanes: seq<Lane>, top: nat, i: nat)
    requires i < |lanes|
    ensures FieldsWord(lanes[i..], top) == Field(lanes[i]) + 0x200 * FieldsWord(lanes[i + 1..], top)
  {
    assert lanes[i..][1..] == lanes[i + 1..];
  }

  lemma ByteStep(carried: nat, lane: Lane, rest: nat, i: nat)
    requires i <= 7 && carried < Pow2(i) && lane.sign < 2
    ensures var word := carried + Pow2(i) * (Field(lane) + 0x200 * rest);
            && word % 0x100 == carried + LowBits(lane, i)
            && word / 0x100 == HighBits(lane, i) + Pow2(i + 1) * rest
    ensures HighBits(lane, i) < Pow2(i + 1)
  {
    PowersOfByte(i);
    assert Field(lane) < 0x200;
    hide Modulo, Quotient, Field, Pow2;
    SplitByte(carried, Field(lane), rest, Pow2(i), Pow2(8 - i));
  }

  lemma PowersOfByte(i: nat)
    requires i <= 7
    ensures Pow2(i) * Pow2(8 - i) == 0x100 && Pow2(i + 1) == 2 * Pow2(i)
  {
    PowerSum(i, 8 - i);
    Pow2Table();
  }

  lemma SplitByte(carried: nat, field: nat, rest: nat, p: nat, q: nat)
    requires p * q == 0x100 && carried < p && field < 0x200 && q > 0
    ensures var word := carried + p * (field + 0x200 * rest);
            && word % 0x100 == carried + Modulo(field, q) * p
            && word / 0x100 == Quotient(field, q) + 2 * p * rest
    ensures Quotient(field, q) < 2 * p
  {
    var high, low := Quotient(field, q), Modulo(field, q);
    Division(field, q);
    hide Modulo, Quotient;
    MulMonotone(low, q - 1, p);
    var byte := carried + low * p;
    assert (q - 1) * p == 0x100 - p;
    WordSplit(carried, p, q, high, low, rest);
    DivideByte(high + 2 * p * rest, byte);
    if high >= 2 * p {
      MulMonotone(2 * p, high, q);
    }
  }

  lemma Division(a: nat, b: nat)
    requires b > 0
    ensures a == Quotient(a, b) * b + Modulo(a, b) && Modulo(a, b) < b
  {
  }

  lemma DivideByte(k: nat, byte: nat)
    requires byte < 0x100
    ensures (0x100 * k + byte) / 0x100 == k && (0x100 * k + byte) % 0x100 == byte
  {
  }

  lemma WordSplit(carried: nat, p: nat, q: nat, high: nat, low: nat, rest: nat)
    requires p * q == 0x100
    ensures carried + p * (high * q + low + 0x200 * rest) == 0x100 * (high + 2 * p * rest) + (carried + low * p)
  {
    assert p * (high * q) == (p * q) * high;
    assert p * (high * q + low + 0x200 * rest) == p * (high * q) + p * low + 0x200 * (p * rest);
  }

  /** Unpacking the ten bytes gives the packed block back. */
  lemma UnpackPack(b: Block)
    requires b.Valid()
    ensures UnpackBlock(PackBlock(b)) == b
  {
    FieldsWordBound(b.lanes[..7], b.lanes[7].man % 2, 2);
    HighFields(b.lanes[7].man, b.lanes[7].sign, b.exp);
    PowTable();
    BytesRoundTrip(LowWord(b), 8);
    BytesRoundTrip(HighWord(b), 2);
    assert PackBlock(b)[..8] == ToBytes(LowWord(b), 8) && PackBlock(b)[8..] == ToBytes(HighWord(b), 2);
    UnpackedLanes(b);
    assert UnpackWords(LowWord(b), HighWord(b)).lanes == b.lanes;
  }

  lemma UnpackedLanes(b: Block)
    requires b.Valid()
    ensures forall k :: 0 <= k < 7 ==> LowLane(LowWord(b), k) == b.lanes[k]
    ensures HighLane(LowWord(b), HighWord(b)) == b.lanes[7] && HighWord(b) / 0x100 % 0x100 == b.exp
  {
    var lanes := b.lanes[..7];
    var top := b.lanes[7].man % 2;
    forall k | 0 <= k < 7
      ensures LowLane(LowWord(b), k) == b.lanes[k]
    {
      LowLaneIsLane(lanes, top, k);
    }
    SkipFieldsDrops(lanes, top, 7);
    assert lanes[7..] == [];
    HighFields(b.lanes[7].man, b.lanes[7].sign, b.exp);
  }

  lemma HighFields(man: uint8, sign: nat, exp: uint8)
    requires sign < 2
    ensures var high := man / 2 + 0x80 * sign + 0x100 * exp;
            high < 0x1_0000 && high / 0x100 == exp && high / 0x80 % 2 == sign && high % 0x80 * 2 + man % 2 == man
  {
    var high := man / 2 + 0x80 * sign + 0x100 * exp;
    assert high / 0x80 == sign + 2 * exp;
  }
}
