/**
 Runs of values coded in blocks of eight values to ten bytes, whatever the block code is: where
 block i lies, which values it holds, and when coding a decoded run again changes nothing.
 */
module BlockStream {
  import opened Arithmetic
  import opened Splicing

  function Blocks(n: nat): nat { (n + 7) / 8 }

  function EncodedSize(n: nat): nat { 10 * Blocks(n) }

  /** The values of block j; the last block may be short. */
  function Chunk<A>(xs: seq<A>, j: nat): (c: seq<A>)
    requires j < Blocks(|xs|)
    ensures 1 <= |c| <= 8 && |c| == Min(8, |xs| - 8 * j)
  {
    xs[8 * j..Min(8 * j + 8, |xs|)]
  }

  ghost predicate TenBytes<A(!new), B>(enc: seq<A> -> seq<B>) { forall c :: |enc(c)| == 10 }

  ghost predicate EightValues<A, B(!new)>(dec: seq<B> -> seq<A>) { forall p :: |dec(p)| == 8 }

  /** The bytes of the first j blocks. */
  ghost function EncodeBlocks<A(!new), B>(enc: seq<A> -> seq<B>, xs: seq<A>, j: nat): (bytes: seq<B>)
    requires TenBytes(enc) && j <= Blocks(|xs|)
    ensures |bytes| == 10 * j
  {
    if j == 0 then [] else EncodeBlocks(enc, xs, j - 1) + enc(Chunk(xs, j - 1))
  }

  /** The values of the first j blocks, n values in all. */
  ghost function DecodeBlocks<A, B(!new)>(dec: seq<B> -> seq<A>, bytes: seq<B>, n: nat, j: nat): (xs: seq<A>)
    requires EightValues(dec) && |bytes| == EncodedSize(n) && j <= Blocks(n)
    ensures |xs| == Min(8 * j, n)
  {
    if j == 0 then []
    else DecodeBlocks(dec, bytes, n, j - 1) + dec(bytes[10 * (j - 1)..10 * j])[..Min(8, n - 8 * (j - 1))]
  }

  /** Block i of an encoded run is the code of chunk i. */
  lemma {:induction false} BlockOfEncoded<A(!new), B>(enc: seq<A> -> seq<B>, xs: seq<A>, j: nat, i: nat)
    requires TenBytes(enc) && i < j <= Blocks(|xs|)
    ensures EncodeBlocks(enc, xs, j)[10 * i..10 * (i + 1)] == enc(Chunk(xs, i))
  {
    if i < j - 1 {
      BlockOfEncoded(enc, xs, j - 1, i);
      SliceOfPrefix(EncodeBlocks(enc, xs, j - 1), enc(Chunk(xs, j - 1)), 10 * i, 10 * (i + 1));
    }
  }

  /** Chunk i of a decoded run comes from block i alone. */
  lemma {:induction false} ChunkOfDecoded<A, B(!new)>(dec: seq<B> -> seq<A>, bytes: seq<B>, n: nat, j: nat, i: nat)
    requires EightValues(dec) && |bytes| == EncodedSize(n) && i < j <= Blocks(n)
    ensures DecodeBlocks(dec, bytes, n, j)[8 * i..Min(8 * i + 8, n)]
         == dec(bytes[10 * i..10 * (i + 1)])[..Min(8, n - 8 * i)]
  {
    if i == j - 1 {
      var last := dec(bytes[10 * i..10 * j])[..Min(8, n - 8 * i)];
      SliceOfSuffix(DecodeBlocks(dec, bytes, n, i), last);
    } else {
      ChunkOfDecoded(dec, bytes, n, j - 1, i);
      SliceOfPrefix(DecodeBlocks(dec, bytes, n, j - 1), dec(bytes[10 * (j - 1)..10 * j])[..Min(8, n - 8 * (j - 1))],
                    8 * i, 8 * i + 8);
    }
  }

  ghost function EncodeRun<A(!new), B>(enc: seq<A> -> seq<B>, xs: seq<A>): (bytes: seq<B>)
    requires TenBytes(enc)
    ensures |bytes| == EncodedSize(|xs|)
  {
    EncodeBlocks(enc, xs, Blocks(|xs|))
  }

  ghost function DecodeRun<A, B(!new)>(dec: seq<B> -> seq<A>, bytes: seq<B>, n: nat): (xs: seq<A>)
    requires EightValues(dec) && |bytes| == EncodedSize(n)
    ensures |xs| == n
  {
    DecodeBlocks(dec, bytes, n, Blocks(n))
  }

  /** Chunk i of a decoded encoded run depends on chunk i of the run only. */
  lemma RoundTripChunk<A(!new), B(!new)>(enc: seq<A> -> seq<B>, dec: seq<B> -> seq<A>, xs: seq<A>, i: nat)
    requires TenBytes(enc) && EightValues(dec) && i < Blocks(|xs|)
    ensures Chunk(DecodeRun(dec, EncodeRun(enc, xs), |xs|), i) == dec(enc(Chunk(xs, i)))[..|Chunk(xs, i)|]
  {
    BlockOfEncoded(enc, xs, Blocks(|xs|), i);
    ChunkOfDecoded(dec, EncodeRun(enc, xs), |xs|, Blocks(|xs|), i);
  }

  /** A block code that is a projection on each block is one on runs of every length. */
  lemma RunProjection<A(!new), B(!new)>(enc: seq<A> -> seq<B>, dec: seq<B> -> seq<A>, xs: seq<A>)
    requires TenBytes(enc) && EightValues(dec)
    requires forall c :: 1 <= |c| <= 8 ==> enc(dec(enc(c))[..|c|]) == enc(c)
    ensures EncodeRun(enc, DecodeRun(dec, EncodeRun(enc, xs), |xs|)) == EncodeRun(enc, xs)
  {
    var ys := DecodeRun(dec, EncodeRun(enc, xs), |xs|);
    forall i: nat | i < Blocks(|xs|)
      ensures enc(Chunk(ys, i)) == enc(Chunk(xs, i))
    {
      RoundTripChunk(enc, dec, xs, i);
    }
    SameBlocks(enc, xs, ys, Blocks(|xs|));
  }

  /** Runs whose chunks code alike code alike. */
  lemma {:induction false} SameBlocks<A(!new), B>(enc: seq<A> -> seq<B>, xs: seq<A>, ys: seq<A>, j: nat)
    requires TenBytes(enc) && |ys| == |xs| && j <= Blocks(|xs|)
    requires forall i: nat | i < j :: enc(Chunk(ys, i)) == enc(Chunk(xs, i))
    ensures EncodeBlocks(enc, ys, j) == EncodeBlocks(enc, xs, j)
  {
    if j > 0 {
      SameBlocks(enc, xs, ys, j - 1);
    }
  }

  /** Index k of a run, as a place in its chunk. */
  lemma ElementOfChunk<A>(xs: seq<A>, k: nat)
    requires k < |xs|
    ensures k / 8 < Blocks(|xs|) && k % 8 < |Chunk(xs, k / 8)|
    ensures Chunk(xs, k / 8)[k % 8] == xs[k]
  {
    assert k == 8 * (k / 8) + k % 8;
  }
}
