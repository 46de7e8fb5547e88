/** The GBF80 codec as loops over buffers, proved against the functions of GbfStream. */
module GbfBuffers {
  import opened Arithmetic
  import opened GbfCodec
  import opened Words
  import opened GbfBlock
  import opened BlockStream
  import opened GbfStream
  import opened Splicing

  // ----- encoder -----

  lemma RoundOne(was: seq<uint32>, f0: nat, n: nat, i: nat)
    requires i < n && f0 + n <= |was|
    ensures var target := Rounded(was[f0..f0 + n]);
            && |target| == n
            && var done := Splice(was, f0, target[..i]);
            && done[f0 + i] == was[f0 + i]
            && done[f0 + i := Round(was[f0 + i])] == Splice(was, f0, target[..i + 1])
  {
    var target := Rounded(was[f0..f0 + n]);
    SpliceOne(was, f0, target[..i], Round(was[f0 + i]));
    assert target[..i + 1] == target[..i] + [Round(was[f0 + i])];
  }

  method RoundInPlace(flt: array<uint32>, f0: nat, n: nat)
    requires n <= 8 && f0 + n <= flt.Length
    modifies flt
    ensures flt[..] == Splice(old(flt[..]), f0, Rounded(old(flt[f0..f0 + n])))
  {
    ghost var was := flt[..];
    ghost var target := Rounded(was[f0..f0 + n]);
    SpliceNothing(was, f0);
    for i := 0 to 8
      invariant flt[..] == Splice(was, f0, target[..Min(i, n)])
    {
      if i < n {
        RoundOne(was, f0, n, i);
        var x: nat := flt[f0 + i];
        var sum: nat := (x + 0x8000) % 0x1_0000_0000;
        flt[f0 + i] := sum / 0x1_0000 * 0x1_0000;
      }
    }
    assert target[..n] == target;
  }

  lemma MaxExpStep(ys: seq<uint32>, i: nat)
    requires i < |ys|
    ensures MaxExp(ys[..i + 1]) == if MaxExp(ys[..i]) > Split(ys[i]).exp then MaxExp(ys[..i]) else Split(ys[i]).exp
  {
    assert ys[..i + 1][..i] == ys[..i];
  }

  method MaxExponent(flt: array<uint32>, f0: nat, n: nat) returns (exp: uint8)
    requires n <= 8 && f0 + n <= flt.Length
    ensures exp == MaxExp(flt[f0..f0 + n])
  {
    ghost var ys := flt[f0..f0 + n];
    exp := 0;
    for i := 0 to 8
      invariant exp == MaxExp(ys[..Min(i, n)])
    {
      if i < n {
        MaxExpStep(ys, i);
        var e := Split(flt[f0 + i]).exp;
        exp := if exp > e then exp else e;
      }
    }
    assert ys[..n] == ys;
  }

  method CombineLanes(flt: array<uint32>, f0: nat, n: nat, exp: uint8) returns (lanes: seq<Lane>)
    requires n <= 8 && f0 + n <= flt.Length
    requires forall k :: f0 <= k < f0 + n ==> Split(flt[k]).exp <= exp
    ensures |lanes| == 8
    ensures forall k :: 0 <= k < 8 ==>
                          lanes[k] == if k < n then EncodeLane(Split(flt[f0 + k]), exp) else Lane(0, 0)
  {
    lanes := [];
    for i := 0 to 8
      invariant |lanes| == i
      invariant forall k :: 0 <= k < i ==>
                              lanes[k] == if k < n then EncodeLane(Split(flt[f0 + k]), exp) else Lane(0, 0)
    {
      lanes := lanes + [if i < n then EncodeLane(Split(flt[f0 + i]), exp) else Lane(0, 0)];
    }
  }

  method WriteBytes(gbf: array<uint8>, g0: nat, bytes: seq<uint8>)
    requires g0 + |bytes| <= gbf.Length
    modifies gbf
    ensures gbf[..] == Splice(old(gbf[..]), g0, bytes)
  {
    ghost var was := gbf[..];
    SpliceNothing(was, g0);
    for i := 0 to |bytes|
      invariant gbf[..] == Splice(was, g0, bytes[..i])
    {
      SpliceOne(was, g0, bytes[..i], bytes[i]);
      assert bytes[..i + 1] == bytes[..i] + [bytes[i]];
      gbf[g0 + i] := bytes[i];
    }
    assert bytes[..|bytes|] == bytes;
  }

  /** Encodes at most eight values; the source values are rounded where they stand. */
  method EncodeOneBlock(flt: array<uint32>, f0: nat, gbf: array<uint8>, g0: nat, n: nat)
    requires 1 <= n <= 8 && f0 + n <= flt.Length && g0 + 10 <= gbf.Length && flt as object != gbf
    modifies flt, gbf
    ensures flt[..] == Splice(old(flt[..]), f0, Rounded(old(flt[f0..f0 + n])))
    ensures gbf[..] == Splice(old(gbf[..]), g0, Packet(old(flt[f0..f0 + n])))
  {
    hide PackBlock, EncodeLane, Split, Round, MaxExp;
    ghost var xs := flt[f0..f0 + n];
    ghost var ys := Rounded(xs);
    RoundInPlace(flt, f0, n);
    assert flt[f0..f0 + n] == ys;
    var exp := MaxExponent(flt, f0, n);
    MaxExpBounds(ys);
    assert forall k :: f0 <= k < f0 + n ==> flt[k] == ys[k - f0];
    var lanes := CombineLanes(flt, f0, n, exp);
    assert lanes == EncodeLanes(ys, exp);
    assert xs[..n] == xs;
    WriteBytes(gbf, g0, PackBlock(Block(exp, lanes)));
  }

  /** The first j chunks of a run. */
  function Prefix(xs: seq<uint32>, j: nat): seq<uint32> { xs[..Min(8 * j, |xs|)] }

  lemma RoundedAppends(a: seq<uint32>, b: seq<uint32>)
    ensures Rounded(a + b) == Rounded(a) + Rounded(b)
  {
    hide Round;
  }

  lemma RoundedStep(xs: seq<uint32>, j: nat)
    requires j < Blocks(|xs|)
    ensures Rounded(Prefix(xs, j + 1)) == Rounded(Prefix(xs, j)) + Rounded(Chunk(xs, j))
  {
    hide Rounded;
    assert Prefix(xs, j + 1) == Prefix(xs, j) + Chunk(xs, j);
    RoundedAppends(Prefix(xs, j), Chunk(xs, j));
  }

  /** The next chunk still stands unrounded in the buffer. */
  lemma NextChunk(fwas: seq<uint32>, f0: nat, xs: seq<uint32>, j: nat)
    requires 8 * j < |xs| && f0 + |xs| <= |fwas| && xs == fwas[f0..f0 + |xs|]
    ensures j < Blocks(|xs|) && |Prefix(xs, j)| == 8 * j
    ensures var n := Min(8, |xs| - 8 * j);
            n == |Chunk(xs, j)| && Splice(fwas, f0, Rounded(Prefix(xs, j)))[f0 + 8 * j..f0 + 8 * j + n] == Chunk(xs, j)
  {
    hide Rounded;
    var n := Min(8, |xs| - 8 * j);
    SpliceBeyond(fwas, f0, Rounded(Prefix(xs, j)), f0 + 8 * j, f0 + 8 * j + n);
    SliceOfSlice(fwas, f0, f0 + |xs|, 8 * j, 8 * j + n);
  }

  lemma EncodeStep(xs: seq<uint32>, j: nat)
    requires j < Blocks(|xs|)
    ensures TenBytes(Packet) && EncodeBlocks(Packet, xs, j + 1) == EncodeBlocks(Packet, xs, j) + Packet(Chunk(xs, j))
  {
    hide Packet;
  }

  lemma EncodeStart(xs: seq<uint32>)
    ensures Rounded(Prefix(xs, 0)) == [] && TenBytes(Packet) && EncodeBlocks(Packet, xs, 0) == []
  {
    hide Packet;
  }

  lemma EncodeEnd(xs: seq<uint32>, j: nat)
    requires |xs| <= 8 * j && j <= Blocks(|xs|)
    ensures Prefix(xs, j) == xs && TenBytes(Packet)
    ensures EncodeBlocks(Packet, xs, j) == Encode(xs)
  {
    hide Packet;
  }

  /** gbf_encode: block after block, eight values to ten bytes, the last block possibly short. */
  method GbfEncode(flt: array<uint32>, f0: nat, gbf: array<uint8>, g0: nat, length: nat)
    requires f0 + length <= flt.Length && g0 + EncodedSize(length) <= gbf.Length && flt as object != gbf
    modifies flt, gbf
    ensures flt[..] == Splice(old(flt[..]), f0, Rounded(old(flt[f0..f0 + length])))
    ensures gbf[..] == Splice(old(gbf[..]), g0, Encode(old(flt[f0..f0 + length])))
  {
    hide Packet, Rounded, EncodeBlocks, Encode, Chunk, Prefix, Splice;
    ghost var gwas, fwas, xs := gbf[..], flt[..], flt[f0..f0 + length];
    ghost var j := 0;
    var fo, go := 0, 0;
    SpliceNothing(gwas, g0);
    SpliceNothing(fwas, f0);
    EncodeStart(xs);
    while fo < length
      invariant j <= Blocks(length) && fo == 8 * j && go == 10 * j
      invariant f0 + |Rounded(Prefix(xs, j))| <= |fwas| && flt[..] == Splice(fwas, f0, Rounded(Prefix(xs, j)))
      invariant gbf[..] == Splice(gwas, g0, EncodeBlocks(Packet, xs, j))
    {
      var n := Min(8, length - fo);
      ghost var c := Chunk(xs, j);
      NextChunk(fwas, f0, xs, j);
      RoundedStep(xs, j);
      EncodeStep(xs, j);
      assert flt[f0 + fo..f0 + fo + n] == flt[..][f0 + fo..f0 + fo + n];
      SpliceTwice(gwas, g0, EncodeBlocks(Packet, xs, j), Packet(c));
      SpliceTwice(fwas, f0, Rounded(Prefix(xs, j)), Rounded(c));
      EncodeOneBlock(flt, f0 + fo, gbf, g0 + go, n);
      j := j + 1;
      go := go + 10;
      fo := fo + 8;
    }
    EncodeEnd(xs, j);
  }

  // ----- decoder -----

  /** The 64-bit load: eight bytes, low byte first. */
  method LoadLow(gbf: array<uint8>, g0: nat, n: nat) returns (word: nat)
    requires g0 + n <= gbf.Length
    ensures word == FromBytes(gbf[g0..g0 + n])
  {
    word := 0;
    for i := n downto 0
      invariant word == FromBytes(gbf[g0 + i..g0 + n])
    {
      assert gbf[g0 + i..g0 + n][1..] == gbf[g0 + i + 1..g0 + n];
      word := gbf[g0 + i] + 0x100 * word;
    }
  }

  /** One packet: shared exponent, eight signs and mantissas, each normalised through the table. */
  method DecodeOneBlock(gbf: array<uint8>, g0: nat, flt: array<uint32>, f0: nat)
    requires g0 + 10 <= gbf.Length && f0 + 8 <= flt.Length && flt as object != gbf
    modifies flt
    ensures flt[..] == Splice(old(flt[..]), f0, Unpacket(gbf[g0..g0 + 10]))
  {
    hide DecodeLane, UnpackWords, Join;
    ghost var was, p := flt[..], gbf[g0..g0 + 10];
    ghost var target := Unpacket(p);
    assert p[..8] == gbf[g0..g0 + 8] && p[8..] == gbf[g0 + 8..g0 + 10];
    var low := LoadLow(gbf, g0, 8);
    var high := LoadLow(gbf, g0 + 8, 2);
    var b := UnpackWords(low, high);
    SpliceNothing(was, f0);
    for i := 0 to 8
      invariant flt[..] == Splice(was, f0, target[..i])
    {
      SpliceOne(was, f0, target[..i], target[i]);
      assert target[..i + 1] == target[..i] + [target[i]];
      flt[f0 + i] := Join(DecodeLane(b.lanes[i], b.exp));
    }
    assert target[..8] == target;
  }

  lemma DecodeStart(bytes: seq<uint8>, n: nat)
    requires |bytes| == EncodedSize(n)
    ensures EightValues(Unpacket) && DecodeBlocks(Unpacket, bytes, n, 0) == []
  {
    hide Unpacket;
  }

  lemma DecodeStep(bytes: seq<uint8>, n: nat, j: nat)
    requires |bytes| == EncodedSize(n) && 8 * j < n
    ensures j < Blocks(n) && 10 * (j + 1) <= |bytes| && EightValues(Unpacket)
    ensures DecodeBlocks(Unpacket, bytes, n, j + 1)
         == DecodeBlocks(Unpacket, bytes, n, j) + Unpacket(bytes[10 * j..10 * (j + 1)])[..Min(8, n - 8 * j)]
  {
    hide Unpacket;
  }

  lemma DecodeEnd(bytes: seq<uint8>, n: nat, j: nat)
    requires |bytes| == EncodedSize(n) && n <= 8 * j && j <= Blocks(n)
    ensures EightValues(Unpacket) && DecodeBlocks(Unpacket, bytes, n, j) == Decode(bytes, n)
  {
    hide Unpacket;
  }

  /** What decoding packet j adds to the decoded run. */
  lemma DecodeNext(was: seq<uint32>, f0: nat, gwas: seq<uint8>, g0: nat, length: nat, j: nat)
    requires g0 + EncodedSize(length) <= |gwas| && f0 + length <= |was| && 8 * j < length
    ensures g0 + 10 * j + 10 <= |gwas| && j < Blocks(length) && EightValues(Unpacket)
    ensures var bytes, n := gwas[g0..g0 + EncodedSize(length)], Min(8, length - 8 * j);
            var values := Unpacket(gwas[g0 + 10 * j..g0 + 10 * j + 10])[..n];
            && |DecodeBlocks(Unpacket, bytes, length, j)| == 8 * j
            && Splice(Splice(was, f0, DecodeBlocks(Unpacket, bytes, length, j)), f0 + 8 * j, values)
               == Splice(was, f0, DecodeBlocks(Unpacket, bytes, length, j + 1))
  {
    hide Unpacket, DecodeBlocks, Splice, EncodedSize, Blocks;
    var bytes, n := gwas[g0..g0 + EncodedSize(length)], Min(8, length - 8 * j);
    DecodeStep(bytes, length, j);
    SliceOfSlice(gwas, g0, g0 + EncodedSize(length), 10 * j, 10 * j + 10);
    SpliceTwice(was, f0, DecodeBlocks(Unpacket, bytes, length, j), Unpacket(bytes[10 * j..10 * (j + 1)])[..n]);
  }

  /** gbf_decode, portable form: whole packets in place, a ragged tail through a scratch block. */
  method GbfDecode(gbf: array<uint8>, g0: nat, flt: array<uint32>, f0: nat, length: nat)
    requires g0 + EncodedSize(length) <= gbf.Length && f0 + length <= flt.Length && flt as object != gbf
    modifies flt
    ensures flt[..] == Splice(old(flt[..]), f0, Decode(gbf[g0..g0 + EncodedSize(length)], length))
    decreases length % 8, 1
  {
    hide Unpacket, DecodeBlocks, Decode, Splice;
    ghost var was, gwas := flt[..], gbf[..];
    ghost var bytes := gwas[g0..g0 + EncodedSize(length)];
    ghost var j := 0;
    var fo, go := 0, 0;
    SpliceNothing(was, f0);
    DecodeStart(bytes, length);
    while fo + 8 <= length
      invariant fo <= length && fo == 8 * j && go == 10 * j
      invariant gbf[..] == gwas
      invariant flt[..] == Splice(was, f0, DecodeBlocks(Unpacket, bytes, length, j))
    {
      DecodeNext(was, f0, gwas, g0, length, j);
      WholePacket(Unpacket(gwas[g0 + go..g0 + go + 10]));
      assert gbf[g0 + go..g0 + go + 10] == gbf[..][g0 + go..g0 + go + 10];
      DecodeOneBlock(gbf, g0 + go, flt, f0 + fo);
      j := j + 1;
      fo := fo + 8;
      go := go + 10;
    }
    if fo < length {
      DecodeNext(was, f0, gwas, g0, length, j);
      DecodeEnd(bytes, length, j + 1);
      assert gbf[g0 + go..g0 + go + 10] == gbf[..][g0 + go..g0 + go + 10];
      DecodeTail(gbf, g0 + go, flt, f0 + fo, length - fo);
    } else {
      DecodeEnd(bytes, length, j);
    }
  }

  lemma WholePacket(values: seq<uint32>)
    requires |values| == 8
    ensures values[..8] == values
  {
  }

  method DecodeTail(gbf: array<uint8>, g0: nat, flt: array<uint32>, f0: nat, n: nat)
    requires 1 <= n < 8 && g0 + 10 <= gbf.Length && f0 + n <= flt.Length && flt as object != gbf
    modifies flt
    ensures flt[..] == Splice(old(flt[..]), f0, Unpacket(gbf[g0..g0 + 10])[..n])
    decreases n, 0
  {
    hide Unpacket, Decode, Splice;
    var tmp := new uint32[8](_ => 0);
    ghost var block := gbf[g0..g0 + 10];
    OneBlock(block, tmp[..]);
    GbfDecode(gbf, g0, tmp, 0, 8);
    CopyTail(tmp, flt, f0, n);
  }

  lemma OneBlock(block: seq<uint8>, tmp: seq<uint32>)
    requires |block| == 10 && |tmp| == 8
    ensures Decode(block, 8) == Unpacket(block)
    ensures Splice(tmp, 0, Unpacket(block)) == Unpacket(block)
  {
    hide Unpacket;
    assert block[0..10] == block;
    assert DecodeBlocks(Unpacket, block, 8, 0) == [];
    assert DecodeBlocks(Unpacket, block, 8, 1) == Unpacket(block)[..8];
  }

  method CopyTail(tmp: array<uint32>, flt: array<uint32>, f0: nat, n: nat)
    requires n <= tmp.Length && f0 + n <= flt.Length && tmp != flt
    modifies flt
    ensures flt[..] == Splice(old(flt[..]), f0, tmp[..n])
  {
    ghost var was := flt[..];
    SpliceNothing(was, f0);
    for r := 0 to n
      invariant flt[..] == Splice(was, f0, tmp[..r])
    {
      SpliceOne(was, f0, tmp[..r], tmp[r]);
      assert tmp[..r + 1] == tmp[..r] + [tmp[r]];
      flt[f0 + r] := tmp[r];
    }
  }
}
