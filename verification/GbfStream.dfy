/** The GBF80 codec on runs of values, and what encoding and decoding do to each other. */
module GbfStream {
  import opened Arithmetic
  import opened GbfCodec
  import opened Words
  import opened GbfBlock
  import opened BlockStream

  // ----- what a run of values encodes to -----

  function Rounded(xs: seq<uint32>): (ys: seq<uint32>)
    ensures |ys| == |xs|
    ensures forall k :: 0 <= k < |xs| ==> ys[k] == Round(xs[k])
  {
    seq(|xs|, k requires 0 <= k < |xs| => Round(xs[k]))
  }

  function MaxExp(ys: seq<uint32>): uint8 {
    if ys == [] then 0
    else
      var e := MaxExp(ys[..|ys| - 1]);
      var last := Split(ys[|ys| - 1]).exp;
      if e > last then e else last
  }

  lemma {:induction false} MaxExpBounds(ys: seq<uint32>)
    ensures forall k :: 0 <= k < |ys| ==> Split(ys[k]).exp <= MaxExp(ys)
    ensures ys != [] ==> exists k :: 0 <= k < |ys| && Split(ys[k]).exp == MaxExp(ys)
  {
    if ys != [] {
      var last := |ys| - 1;
      MaxExpBounds(ys[..last]);
      assert forall k :: 0 <= k < last ==> ys[..last][k] == ys[k];
      if MaxExp(ys) == Split(ys[last]).exp {
      } else {
        assert MaxExp([]) == 0;
        var k :| 0 <= k < last && Split(ys[..last][k]).exp == MaxExp(ys[..last]);
        assert Split(ys[k]).exp == MaxExp(ys);
      }
    }
  }

  function EncodeLanes(ys: seq<uint32>, shared: uint8): (lanes: seq<Lane>)
    requires |ys| <= 8
    requires forall k :: 0 <= k < |ys| ==> Split(ys[k]).exp <= shared
    ensures |lanes| == 8
    ensures forall k :: 0 <= k < 8 ==>
                          lanes[k] == if k < |ys| then EncodeLane(Split(ys[k]), shared) else Lane(0, 0)
  {
    seq(8, k requires 0 <= k < 8 => if k < |ys| then EncodeLane(Split(ys[k]), shared) else Lane(0, 0))
  }

  /** At most eight values: rounded, brought to their largest exponent, and filled up with zero lanes. */
  function EncodeBlock(xs: seq<uint32>): (b: Block)
    requires |xs| <= 8
    ensures b.Valid()
  {
    var ys := Rounded(xs);
    MaxExpBounds(ys);
    Block(MaxExp(ys), EncodeLanes(ys, MaxExp(ys)))
  }

  /** Ten bytes for at most eight values. */
  function Packet(c: seq<uint32>): (bytes: seq<uint8>)
    ensures |bytes| == 10
  {
    PackBlock(EncodeBlock(c[..Min(8, |c|)]))
  }

  function DecodeBlock(b: Block): (xs: seq<uint32>)
    requires b.Valid()
    ensures |xs| == 8
    ensures forall k :: 0 <= k < 8 ==> xs[k] == Join(DecodeLane(b.lanes[k], b.exp))
  {
    seq(8, k requires 0 <= k < 8 => Join(DecodeLane(b.lanes[k], b.exp)))
  }

  /** Eight values from ten bytes. */
  function Unpacket(p: seq<uint8>): (xs: seq<uint32>)
    ensures |xs| == 8
  {
    if |p| == 10 then DecodeBlock(UnpackBlock(p)) else [0, 0, 0, 0, 0, 0, 0, 0]
  }

  ghost function Encode(xs: seq<uint32>): (bytes: seq<uint8>)
    ensures |bytes| == EncodedSize(|xs|)
  {
    EncodeRun(Packet, xs)
  }

  ghost function Decode(bytes: seq<uint8>, n: nat): (xs: seq<uint32>)
    requires |bytes| == EncodedSize(n)
    ensures |xs| == n
  {
    DecodeRun(Unpacket, bytes, n)
  }

  // ----- the codec is a projection -----

  /** Every lane the encoder writes decodes to a rounded value under the same shared exponent. */
  lemma BlockProjection(xs: seq<uint32>)
    requires 1 <= |xs| <= 8
    ensures EncodeBlock(DecodeBlock(EncodeBlock(xs))[..|xs|]) == EncodeBlock(xs)
  {
    var b := EncodeBlock(xs);
    var ys := Rounded(xs);
    var zs := DecodeBlock(b)[..|xs|];
    MaxExpBounds(ys);
    forall k | 0 <= k < |xs|
      ensures Round(zs[k]) == zs[k] && Split(zs[k]) == DecodeLane(b.lanes[k], b.exp)
      ensures Split(zs[k]).exp <= b.exp && EncodeLane(Split(zs[k]), b.exp) == b.lanes[k]
      ensures Split(ys[k]).exp == b.exp ==> Split(zs[k]).exp == b.exp
    {
      RoundClearsLowHalf(xs[k]);
      EncodedLaneIsCanonical(Split(ys[k]), b.exp);
      LaneProjection(b.lanes[k], b.exp);
      SplitJoin(DecodeLane(b.lanes[k], b.exp));
      RoundClearsLowHalf(zs[k]);
    }
    assert Rounded(zs) == zs;
    MaxExpBounds(zs);
    var k :| 0 <= k < |ys| && Split(ys[k]).exp == MaxExp(ys);
    assert Split(zs[k]).exp == b.exp;
    assert MaxExp(zs) == b.exp;
    assert EncodeLanes(zs, b.exp) == b.lanes;
  }

  /** The same for the ten bytes of a block. */
  lemma PacketProjection(c: seq<uint32>)
    requires 1 <= |c| <= 8
    ensures Unpacket(Packet(c)) == DecodeBlock(EncodeBlock(c))
    ensures Packet(Unpacket(Packet(c))[..|c|]) == Packet(c)
  {
    assert c[..|c|] == c;
    UnpackPack(EncodeBlock(c));
    BlockProjection(c);
    var zs := DecodeBlock(EncodeBlock(c))[..|c|];
    assert zs[..Min(8, |zs|)] == zs;
  }

  /** Encoding what decoding gives back changes no byte, for every length including ragged tails. */
  lemma Projection(xs: seq<uint32>)
    ensures Encode(Decode(Encode(xs), |xs|)) == Encode(xs)
  {
    hide Packet, Unpacket;
    forall c: seq<uint32> | 1 <= |c| <= 8
      ensures Packet(Unpacket(Packet(c))[..|c|]) == Packet(c)
    {
      PacketProjection(c);
    }
    RunProjection(Packet, Unpacket, xs);
  }

  // ----- value by value -----

  /** Block i of a run of packets. */
  function BlockOf(bytes: seq<uint8>, i: nat): (b: Block)
    requires 10 * i + 10 <= |bytes|
    ensures b.Valid()
  {
    UnpackBlock(bytes[10 * i..10 * i + 10])
  }

  lemma BlockEncoded(xs: seq<uint32>, i: nat)
    requires i < Blocks(|xs|)
    ensures Encode(xs)[10 * i..10 * i + 10] == PackBlock(EncodeBlock(Chunk(xs, i)))
    ensures BlockOf(Encode(xs), i) == EncodeBlock(Chunk(xs, i))
  {
    hide PackBlock, UnpackBlock, EncodeBlock;
    var c := Chunk(xs, i);
    BlockOfEncoded(Packet, xs, Blocks(|xs|), i);
    assert c[..Min(8, |c|)] == c;
    UnpackPack(EncodeBlock(c));
  }

  /**
   What is stored for value k: lane k % 8 of block k / 8 keeps its sign and, but for what rounding and the shared
   exponent cut off, its value.
   */
  lemma StoredLanes(xs: seq<uint32>, k: nat)
    requires k < |xs|
    ensures k / 8 < Blocks(|xs|)
    ensures var b := BlockOf(Encode(xs), k / 8); LaneHolds(xs[k], b.lanes[k % 8], b.exp)
  {
    hide LaneHolds, Canonical, PackBlock, BlockOf, EncodeBlock, Encode;
    ElementOfChunk(xs, k);
    BlockEncoded(xs, k / 8);
    LaneInBlock(Chunk(xs, k / 8), k % 8);
  }

  lemma LaneInBlock(c: seq<uint32>, l: nat)
    requires l < |c| <= 8
    ensures var b := EncodeBlock(c); LaneHolds(c[l], b.lanes[l], b.exp) && Canonical(b.lanes[l], b.exp)
  {
    hide LaneHolds, Canonical, EncodeLane, Split, Round, MaxExp;
    MaxExpBounds(Rounded(c));
    LaneOfWord(c[l], MaxExp(Rounded(c)));
  }

  /**
   The same to the bit: for y the multiple of 2^16 nearest to value k, the lane is exact, or within half a step of y
   with ties upward, or empty.
   */
  lemma StoredFromNearest(xs: seq<uint32>, k: nat, y: uint32)
    requires k < |xs| && IsNearest(xs[k], y)
    ensures k / 8 < Blocks(|xs|)
    ensures var b := BlockOf(Encode(xs), k / 8); IsStored(Split(y), b.lanes[k % 8], b.exp)
  {
    hide IsNearest, IsStored, PackBlock, BlockOf, EncodeBlock, Encode;
    ElementOfChunk(xs, k);
    BlockEncoded(xs, k / 8);
    StoredInBlock(Chunk(xs, k / 8), k % 8, y);
  }

  lemma StoredInBlock(c: seq<uint32>, l: nat, y: uint32)
    requires l < |c| <= 8 && IsNearest(c[l], y)
    ensures var b := EncodeBlock(c); IsStored(Split(y), b.lanes[l], b.exp)
  {
    hide IsNearest, IsStored, EncodeLane, Split, Round, MaxExp;
    MaxExpBounds(Rounded(c));
    RoundedIsNearest(c[l], y);
    RoundClearsLowHalf(c[l]);
    StoredValue(Split(y), MaxExp(Rounded(c)));
  }

  /** Lanes beyond the last value of a run are empty. */
  lemma PaddingLanes(xs: seq<uint32>, i: nat, l: nat)
    requires i < Blocks(|xs|) && |Chunk(xs, i)| <= l < 8
    ensures BlockOf(Encode(xs), i).lanes[l] == Lane(0, 0)
  {
    hide BlockOf, PackBlock, Encode;
    BlockEncoded(xs, i);
  }

  /** The last byte of a packet is the largest exponent its values have after rounding. */
  lemma SharedExponent(xs: seq<uint32>, i: nat)
    requires i < Blocks(|xs|)
    ensures var shared := Encode(xs)[10 * i + 9];
            && shared == BlockOf(Encode(xs), i).exp
            && (forall x :: x in Chunk(xs, i) ==> RoundedExponent(x) <= shared)
            && exists x :: x in Chunk(xs, i) && RoundedExponent(x) == shared
  {
    hide BlockOf, PackBlock, Encode, RoundedExponent;
    var c := Chunk(xs, i);
    BlockEncoded(xs, i);
    PackedBytes(EncodeBlock(c), 9);
    assert Encode(xs)[10 * i..10 * i + 10][9] == Encode(xs)[10 * i + 9];
    LargestRounded(c);
  }

  lemma LargestRounded(c: seq<uint32>)
    requires c != []
    ensures forall x :: x in c ==> RoundedExponent(x) <= MaxExp(Rounded(c))
    ensures exists x :: x in c && RoundedExponent(x) == MaxExp(Rounded(c))
  {
    hide RoundedExponent, Split, Round, MaxExp;
    var ys := Rounded(c);
    MaxExpBounds(ys);
    forall k | 0 <= k < |c|
      ensures Split(ys[k]).exp == RoundedExponent(c[k])
    {
      ExponentRounds(c[k]);
    }
    var k :| 0 <= k < |ys| && Split(ys[k]).exp == MaxExp(ys);
    assert c[k] in c;
  }

  /** Value k of any run of packets comes from lane k % 8 of packet k / 8 and that packet's exponent. */
  lemma DecodedWord(bytes: seq<uint8>, n: nat, k: nat)
    requires |bytes| == EncodedSize(n) && k < n
    ensures 10 * (k / 8) + 10 <= |bytes|
    ensures var b := BlockOf(bytes, k / 8); Decode(bytes, n)[k] == Join(DecodeLane(b.lanes[k % 8], b.exp))
  {
    hide DecodeLane, Join, UnpackBlock, Unpacket;
    ElementOfChunk(Decode(bytes, n), k);
    ChunkOfDecoded(Unpacket, bytes, n, Blocks(n), k / 8);
    UnpacketIsBlock(bytes[10 * (k / 8)..10 * (k / 8) + 10]);
  }

  lemma UnpacketIsBlock(p: seq<uint8>)
    requires |p| == 10
    ensures Unpacket(p) == DecodeBlock(UnpackBlock(p))
  {
    hide UnpackBlock, DecodeBlock;
  }

  lemma DecodedValue(xs: seq<uint32>, k: nat)
    requires k < |xs|
    ensures k / 8 < Blocks(|xs|)
    ensures Decode(Encode(xs), |xs|)[k] == DecodeBlock(EncodeBlock(Chunk(xs, k / 8)))[k % 8]
  {
    hide EncodeLane, DecodeLane, Split, Join, Round, MaxExp, Packet, Unpacket;
    ElementOfChunk(xs, k);
    ElementOfChunk(Decode(Encode(xs), |xs|), k);
    RoundTripChunk(Packet, Unpacket, xs, k / 8);
    PacketProjection(Chunk(xs, k / 8));
  }

  /** A round trip gives each value back, but for what rounding and the shared exponent of its block cut off. */
  lemma RoundTripError(xs: seq<uint32>, k: nat)
    requires k < |xs|
    ensures k / 8 < Blocks(|xs|) && ValueHolds(xs[k], Decode(Encode(xs), |xs|)[k], Encode(xs)[10 * (k / 8) + 9])
  {
    hide ValueHolds, EncodeBlock, DecodeBlock, Encode, Decode, BlockOf, PackBlock;
    ElementOfChunk(xs, k);
    DecodedValue(xs, k);
    SharedExponent(xs, k / 8);
    BlockEncoded(xs, k / 8);
    ValueInBlock(Chunk(xs, k / 8), k % 8);
  }

  lemma ValueInBlock(c: seq<uint32>, l: nat)
    requires l < |c| <= 8
    ensures ValueHolds(c[l], DecodeBlock(EncodeBlock(c))[l], EncodeBlock(c).exp)
  {
    hide ValueHolds, LaneHolds, Canonical, EncodeLane, DecodeLane, Join;
    LaneInBlock(c, l);
    DecodedLaneHolds(c[l], EncodeBlock(c).lanes[l], EncodeBlock(c).exp);
  }

  /** On encoder output, padding lanes included, the table decoder and the loop decoder agree. */
  lemma EncoderOutputDecodesAlike(xs: seq<uint32>, l: nat)
    requires |xs| <= 8 && l < 8
    ensures var b := EncodeBlock(xs); DecodeLane(b.lanes[l], b.exp) == LoopDecoded(b.lanes[l], b.exp)
  {
    var b := EncodeBlock(xs);
    FastDecodeIsLoopDecode(b.lanes[l], b.exp);
    MaxExpBounds(Rounded(xs));
    if l < |xs| {
      RoundClearsLowHalf(xs[l]);
      EncodedLaneIsCanonical(Split(Rounded(xs)[l]), b.exp);
    }
  }
}
