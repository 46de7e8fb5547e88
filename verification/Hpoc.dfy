/** High-precision output channels on Cascade: decoding a frame while dropping the dummy channels. */
module Hpoc {
  import opened Arithmetic
  import opened Words
  import opened RingIndex
  import opened GbfCodec
  import opened GbfBlock
  import opened BlockStream
  import opened GbfStream
  import Splicing

  // ----- channels kept -----

  /** The channels below n that are not among the first m dummies, in order. */
  function Kept(dummies: seq<int>, m: nat, n: nat): seq<nat>
    requires m <= |dummies|
  {
    if n == 0 then [] else Kept(dummies, m, n - 1) + if n - 1 in dummies[..m] then [] else [n - 1]
  }

  /** They are in order, and exactly the channels that are no dummies. */
  lemma {:induction false} KeptChannels(dummies: seq<int>, m: nat, n: nat)
    requires m <= |dummies|
    ensures forall c: nat :: c in Kept(dummies, m, n) <==> c < n && c !in dummies[..m]
    ensures forall i, j :: 0 <= i < j < |Kept(dummies, m, n)| ==> Kept(dummies, m, n)[i] < Kept(dummies, m, n)[j]
  {
    if n > 0 {
      KeptChannels(dummies, m, n - 1);
      var before := Kept(dummies, m, n - 1);
      assert forall i :: 0 <= i < |before| ==> before[i] in before;
    }
  }

  /** Strictly increasing indexes of channels below n. */
  ghost predicate Proper(dummies: seq<int>, n: nat) {
    && (forall i :: 0 <= i < |dummies| ==> 0 <= dummies[i] < n)
    && (forall i, j :: 0 <= i < j < |dummies| ==> dummies[i] < dummies[j])
  }

  /** The first m dummies are as they should be, and the next one is not: it is never met on the way up to n. */
  ghost predicate Effective(dummies: seq<int>, n: nat, m: nat) {
    && m <= |dummies| && Proper(dummies[..m], n)
    && (m < |dummies| ==> !(0 <= dummies[m] < n) || (m > 0 && dummies[m] <= dummies[m - 1]))
  }

  lemma EffectiveExists(dummies: seq<int>, n: nat) returns (m: nat)
    ensures Effective(dummies, n, m)
  {
    m := 0;
    while m < |dummies| && 0 <= dummies[m] < n && (m == 0 || dummies[m - 1] < dummies[m])
      invariant m <= |dummies| && Proper(dummies[..m], n)
    {
      m := m + 1;
    }
  }

  /** p of the first m dummies lie below n. */
  ghost predicate Passed(dummies: seq<int>, m: nat, n: nat, p: nat) {
    p <= m <= |dummies| && (p > 0 ==> dummies[p - 1] < n) && (p < m ==> dummies[p] >= n)
  }

  lemma {:induction false} KeptCount(dummies: seq<int>, top: nat, m: nat, n: nat, p: nat)
    requires m <= |dummies| && Proper(dummies[..m], top) && Passed(dummies, m, n, p)
    ensures |Kept(dummies, m, n)| == n - p
  {
    var d := dummies[..m];
    if n > 0 {
      if p > 0 && d[p - 1] == n - 1 {
        assert n - 1 in d;
        KeptCount(dummies, top, m, n - 1, p - 1);
      } else {
        NotDummy(dummies, top, m, n, p);
        KeptCount(dummies, top, m, n - 1, p);
      }
    }
  }

  lemma NotDummy(dummies: seq<int>, top: nat, m: nat, n: nat, p: nat)
    requires m <= |dummies| && Proper(dummies[..m], top) && Passed(dummies, m, n, p)
    requires n > 0 && (p == 0 || dummies[p - 1] != n - 1)
    ensures n - 1 !in dummies[..m]
  {
    var d := dummies[..m];
    forall i | 0 <= i < m
      ensures d[i] != n - 1
    {
      if i >= p {
        assert d[i] >= d[p];
      } else {
        assert d[i] <= d[p - 1];
      }
    }
  }

  lemma PassedExists(dummies: seq<int>, m: nat, n: nat) returns (p: nat)
    requires m <= |dummies|
    ensures Passed(dummies, m, n, p)
  {
    p := 0;
    while p < m && dummies[p] < n
      invariant p <= m && (p > 0 ==> dummies[p - 1] < n)
    {
      p := p + 1;
    }
  }

  /**
   A pixel of n channels padded to `padded` yields as many floats as it has channels that are no dummies exactly
   when the dummies are strictly increasing channels below n; otherwise it yields more.
   */
  lemma FullPixelExactlyWhenProper(dummies: seq<int>, n: nat, padded: nat, m: nat)
    requires n <= padded && Effective(dummies, padded, m)
    ensures |Kept(dummies, m, n)| >= n - |dummies|
    ensures |Kept(dummies, m, n)| == n - |dummies| <==> Proper(dummies, n)
  {
    var p := PassedExists(dummies, m, n);
    KeptCount(dummies, padded, m, n, p);
    if p == |dummies| {
      assert dummies[..m] == dummies;
      assert forall i :: 0 <= i < |dummies| ==> dummies[i] <= dummies[p - 1];
    }
    if Proper(dummies, n) {
      assert m == |dummies|;
      assert dummies[..m] == dummies;
      assert p == m;
    }
  }

  /** One channel and two dummies in the wrong order: the second is never met, and a pixel gets a float too many. */
  lemma SwappedDummiesOverflow()
    ensures Effective([1, 0], 8, 1) && !Proper([1, 0], 3) && |Kept([1, 0], 1, 3)| == 2 > 3 - |[1, 0]|
  {
    var dummies: seq<int> := [1, 0];
    assert dummies[..1] == [1];
    assert dummies[0] == 1 && dummies[1] == 0;
    assert Kept(dummies, 1, 1) == [0];
    assert Kept(dummies, 1, 2) == [0];
    assert Kept(dummies, 1, 3) == [0, 2];
  }

  // ----- floats of a pixel -----

  /** The float of channel c of the pixel stored at `base`, as the looping decoder gives it. */
  function FloatAt(data: seq<uint8>, base: nat, c: nat): uint32 {
    var at := base + c / 8 * 10;
    if at + 10 <= |data| then BlockFloat(data[at..at + 10], c % 8) else 0
  }

  function BlockFloat(bytes: seq<uint8>, k: nat): uint32
    requires |bytes| == 10 && k < 8
  {
    var block := UnpackBlock(bytes);
    Join(LoopDecoded(block.lanes[k], block.exp))
  }

  /** The floats of the given channels of a pixel. */
  function Floats(data: seq<uint8>, base: nat, channels: seq<nat>): (floats: seq<uint32>)
    ensures |floats| == |channels|
  {
    if channels == [] then []
    else Floats(data, base, channels[..|channels| - 1]) + [FloatAt(data, base, channels[|channels| - 1])]
  }

  method DecodeLanes(data: seq<uint8>, at: nat) returns (buf: seq<uint32>)
    requires at + 10 <= |data|
    ensures |buf| == 8 && forall k :: 0 <= k < 8 ==> buf[k] == BlockFloat(data[at..at + 10], k)
  {
    hide UnpackBlock, LoopDecoded, Join;
    var bytes := data[at..at + 10];
    var block := UnpackBlock(bytes);
    buf := [];
    for k := 0 to 8
      invariant |buf| == k && forall i :: 0 <= i < k ==> buf[i] == BlockFloat(bytes, i)
    {
      var f := DecodeLaneByLoop(block.lanes[k], block.exp);
      DecodedIsFloat(block.lanes[k], block.exp);
      buf := buf + [Join(f)];
    }
  }

  lemma DecodedIsFloat(lane: Lane, exp: uint8)
    requires lane.sign < 2
    ensures LoopDecoded(lane, exp).Valid()
  {
  }

  // ----- floats of encoded pixels -----

  /** The bytes at `base` are the encoding of the values of a pixel. */
  ghost predicate HoldsPixel(data: seq<uint8>, base: nat, xs: seq<uint32>) {
    base + EncodedSize(|xs|) <= |data| && data[base..base + EncodedSize(|xs|)] == Encode(xs)
  }

  /** Channel c of an encoded pixel is value c as the other decoder gives it back. */
  lemma ChannelValue(data: seq<uint8>, base: nat, xs: seq<uint32>, c: nat)
    requires HoldsPixel(data, base, xs) && c < |xs|
    ensures FloatAt(data, base, c) == Decode(Encode(xs), |xs|)[c]
  {
    hide Encode, UnpackBlock, EncodeBlock, LoopDecoded, DecodeLane, Join, EncodedSize;
    var i, l := c / 8, c % 8;
    ElementOfChunk(xs, c);
    BlockPlace(|xs|, i);
    Splicing.SliceOfSlice(data, base, base + EncodedSize(|xs|), 10 * i, 10 * i + 10);
    BlockEncoded(xs, i);
    EncoderOutputDecodesAlike(Chunk(xs, i), l);
    DecodedValue(xs, c);
    var at := base + i * 10;
    assert data[at..at + 10] == Encode(xs)[10 * i..10 * i + 10];
  }

  lemma BlockPlace(n: nat, i: nat)
    requires i < Blocks(n)
    ensures 10 * i + 10 <= EncodedSize(n)
  {
  }

  lemma {:induction false} FloatsIndex(data: seq<uint8>, base: nat, channels: seq<nat>, k: nat)
    requires k < |channels|
    ensures Floats(data, base, channels)[k] == FloatAt(data, base, channels[k])
  {
    hide FloatAt;
    if k < |channels| - 1 {
      FloatsIndex(data, base, channels[..|channels| - 1], k);
    }
  }

  /** From an encoded pixel the chosen channels come out with their values, in the order chosen. */
  lemma PixelValues(data: seq<uint8>, base: nat, xs: seq<uint32>, channels: seq<nat>, k: nat)
    requires HoldsPixel(data, base, xs) && k < |channels| && channels[k] < |xs|
    ensures Floats(data, base, channels)[k] == Decode(Encode(xs), |xs|)[channels[k]]
  {
    FloatsIndex(data, base, channels, k);
    ChannelValue(data, base, xs, channels[k]);
  }

  // ----- one pixel -----

  /** The dummy looked for next is met exactly when the channel is an effective dummy. */
  lemma ChannelStep(dummies: seq<int>, top: nat, m: nat, c: nat, check: nat)
    requires Effective(dummies, top, m) && Passed(dummies, m, c, check) && c < top
    ensures var skip := check < |dummies| && dummies[check] == c;
            (skip <==> c in dummies[..m]) && Passed(dummies, m, c + 1, check + Bit(skip))
  {
    var d := dummies[..m];
    if check < m {
      assert d[check] == dummies[check];
      if dummies[check] == c {
        assert c in d;
        if check + 1 < m {
          assert d[check] < d[check + 1];
        }
      } else {
        NotDummy(dummies, top, m, c + 1, check);
      }
    } else {
      NotDummy(dummies, top, m, c + 1, check);
    }
  }

  /** A channel is written unless it is a dummy or lies beyond n. */
  lemma KeptStep(data: seq<uint8>, base: nat, dummies: seq<int>, m: nat, c: nat, n: nat)
    requires m <= |dummies|
    ensures Floats(data, base, Kept(dummies, m, Min(c + 1, n)))
         == Floats(data, base, Kept(dummies, m, Min(c, n)))
            + if c < n && c !in dummies[..m] then [FloatAt(data, base, c)] else []
  {
    if c < n {
      var before, after := Kept(dummies, m, c), Kept(dummies, m, c + 1);
      if c in dummies[..m] {
        assert after == before;
      } else {
        assert after == before + [c];
        assert after[..|after| - 1] == before;
      }
    }
  }

  /** One pixel: block by block, each channel checked against the next dummy. */
  method DecodePixel(data: seq<uint8>, base: nat, dummies: seq<int>, n: nat, padded: nat, ghost m: nat)
    returns (out: seq<uint32>)
    requires padded % 8 == 0 && n <= padded && base + padded / 8 * 10 <= |data| && Effective(dummies, padded, m)
    ensures out == Floats(data, base, Kept(dummies, m, n))
  {
    hide Kept, Floats, Effective, Passed, FloatAt, BlockFloat;
    out := [];
    var check := 0;
    var channel, at := 0, base;
    StartPixel(data, base, dummies, padded, m);
    while channel < padded
      invariant channel <= padded && channel % 8 == 0 && at == base + channel / 8 * 10
      invariant m <= |dummies| && Passed(dummies, m, channel, check)
      invariant out == Floats(data, base, Kept(dummies, m, Min(channel, n)))
    {
      var buf := DecodeLanes(data, at);
      for k := 0 to 8
        invariant m <= |dummies| && Passed(dummies, m, channel + k, check)
        invariant out == Floats(data, base, Kept(dummies, m, Min(channel + k, n)))
      {
        var c := channel + k;
        ChannelStep(dummies, padded, m, c, check);
        KeptStep(data, base, dummies, m, c, n);
        BlockOffset(data, base, channel, k);
        if check < |dummies| && c == dummies[check] {
          check := check + 1;
        } else if c < n {
          out := out + [buf[k]];
        }
      }
      channel, at := channel + 8, at + 10;
    }
  }

  lemma StartPixel(data: seq<uint8>, base: nat, dummies: seq<int>, top: nat, m: nat)
    requires Effective(dummies, top, m)
    ensures m <= |dummies| && Passed(dummies, m, 0, 0) && Floats(data, base, Kept(dummies, m, 0)) == []
  {
    if m > 0 {
      assert dummies[..m][0] >= 0;
    }
  }

  lemma BlockOffset(data: seq<uint8>, base: nat, channel: nat, k: nat)
    requires channel % 8 == 0 && k < 8 && base + channel / 8 * 10 + 10 <= |data|
    ensures var at := base + channel / 8 * 10;
            FloatAt(data, base, channel + k) == BlockFloat(data[at..at + 10], k)
  {
    hide BlockFloat;
    assert (channel + k) / 8 == channel / 8 && (channel + k) % 8 == k;
  }

  // ----- the flow and its frames -----

  function RoundUpTo8(n: nat): nat { (n + 7) / 8 * 8 }

  /** The floats of the first w pixels of a row. */
  function RowFloats(data: seq<uint8>, base: nat, pixel: nat, w: nat, channels: seq<nat>): seq<uint32> {
    if w == 0 then []
    else RowFloats(data, base, pixel, w - 1, channels) + Floats(data, base + (w - 1) * pixel, channels)
  }

  /** The floats of the first h rows of a frame. */
  function FrameFloats(data: seq<uint8>, base: nat, row: nat, pixel: nat, h: nat, w: nat, channels: seq<nat>)
    : seq<uint32>
  {
    if h == 0 then []
    else
      FrameFloats(data, base, row, pixel, h - 1, w, channels)
      + RowFloats(data, base + (h - 1) * row, pixel, w, channels)
  }

  lemma {:induction false} RowLength(data: seq<uint8>, base: nat, pixel: nat, w: nat, channels: seq<nat>)
    ensures |RowFloats(data, base, pixel, w, channels)| == w * |channels|
  {
    if w > 0 {
      RowLength(data, base, pixel, w - 1, channels);
      Distribute(w - 1, 1, |channels|);
    }
  }

  lemma {:induction false} FrameLength(data: seq<uint8>, base: nat, row: nat, pixel: nat, h: nat, w: nat,
                                       channels: seq<nat>)
    ensures |FrameFloats(data, base, row, pixel, h, w, channels)| == h * (w * |channels|)
  {
    if h > 0 {
      FrameLength(data, base, row, pixel, h - 1, w, channels);
      RowLength(data, base + (h - 1) * row, pixel, w, channels);
      Distribute(h - 1, 1, w * |channels|);
    }
  }

  lemma {:induction false} RowIndex(data: seq<uint8>, base: nat, pixel: nat, w: nat, channels: seq<nat>, j: nat, k: nat)
    requires j < w && k < |channels| && 0 <= j * pixel
    ensures 0 <= j * |channels| && j * |channels| + k < |RowFloats(data, base, pixel, w, channels)|
    ensures RowFloats(data, base, pixel, w, channels)[j * |channels| + k]
         == Floats(data, base + j * pixel, channels)[k]
  {
    hide Floats;
    RowLength(data, base, pixel, w - 1, channels);
    RowLength(data, base, pixel, w, channels);
    Monotone(j, w, |channels|);
    Monotone(j, w - 1, |channels|);
    if j < w - 1 {
      RowIndex(data, base, pixel, w - 1, channels, j, k);
    }
  }

  lemma {:induction false} FrameIndex(data: seq<uint8>, base: nat, row: nat, pixel: nat, h: nat, w: nat,
                                      channels: seq<nat>, i: nat, t: nat)
    requires i < h && t < w * |channels| && 0 <= i * row
    ensures 0 <= i * (w * |channels|)
    ensures i * (w * |channels|) + t < |FrameFloats(data, base, row, pixel, h, w, channels)|
    ensures |RowFloats(data, base + i * row, pixel, w, channels)| == w * |channels|
    ensures FrameFloats(data, base, row, pixel, h, w, channels)[i * (w * |channels|) + t]
         == RowFloats(data, base + i * row, pixel, w, channels)[t]
  {
    hide RowFloats;
    var m := w * |channels|;
    RowLength(data, base + i * row, pixel, w, channels);
    FrameLength(data, base, row, pixel, h - 1, w, channels);
    FrameLength(data, base, row, pixel, h, w, channels);
    Monotone(i, h, m);
    Monotone(i, h - 1, m);
    if i < h - 1 {
      FrameIndex(data, base, row, pixel, h - 1, w, channels, i, t);
    }
  }

  /**
   A frame whose pixel (i, j) is encoded at i rows and j pixels from `base`: chosen channel k of that pixel comes out
   with its value, at its place in row-major order.
   */
  lemma FrameValues(data: seq<uint8>, base: nat, row: nat, pixel: nat, h: nat, w: nat, channels: seq<nat>,
                    i: nat, j: nat, k: nat, xs: seq<uint32>)
    requires i < h && j < w && k < |channels| && channels[k] < |xs| && 0 <= i * row && 0 <= j * pixel
    requires HoldsPixel(data, base + i * row + j * pixel, xs)
    ensures 0 <= i * (w * |channels|) && 0 <= j * |channels|
    ensures var at := i * (w * |channels|) + (j * |channels| + k);
            var floats := FrameFloats(data, base, row, pixel, h, w, channels);
            at < |floats| && floats[at] == Decode(Encode(xs), |xs|)[channels[k]]
  {
    hide HoldsPixel, RowFloats, FrameFloats, Floats, Encode, Decode;
    RowIndex(data, base + i * row, pixel, w, channels, j, k);
    RowLength(data, base + i * row, pixel, w, channels);
    FrameIndex(data, base, row, pixel, h, w, channels, i, j * |channels| + k);
    PixelValues(data, base + i * row + j * pixel, xs, channels, k);
  }

  /** A flow in the floating-point format, with or without high-precision channels. */
  class OfmapInfo {
    var height: nat
    var width: nat
    var channelNumber: nat
    var rowSize: nat
    var userFrameSize: nat
    var fmapChannelNumber: nat
    var fmapPixelSize: nat
    var fmapRowSize: nat
    var dummies: seq<int>

    /** Sizes fit each other; the user's frame has room for the channels that are no dummies. */
    ghost predicate Valid()
      reads this
    {
      && height > 0 && width > 0 && channelNumber >= |dummies|
      && rowSize == width * channelNumber
      && userFrameSize == height * (width * (channelNumber - |dummies|))
      && channelNumber <= fmapChannelNumber < channelNumber + 8 && fmapChannelNumber % 8 == 0
      && fmapPixelSize == fmapChannelNumber / 8 * 10
      && width * fmapPixelSize <= fmapRowSize < width * fmapPixelSize + 4 && fmapRowSize % 4 == 0
    }

    /** A new flow of h x w pixels of c floats. */
    constructor (h: nat, w: nat, c: nat)
      requires h > 0 && w > 0 && c > 0
      ensures Valid() && height == h && width == w && channelNumber == c && dummies == []
      ensures userFrameSize == h * (w * c)
    {
      height, width, channelNumber, dummies := h, w, c, [];
      rowSize := w * c;
      userFrameSize := h * (w * c);
      var padded := RoundUpTo8(c);
      fmapChannelNumber, fmapPixelSize := padded, padded / 8 * 10;
      fmapRowSize := RoundUpTo4(w * (padded / 8 * 10));
      new;
      RoundsUp(c);
      RoundsUp(w * fmapPixelSize);
    }

    /**
     An empty list is refused.  Otherwise the indexes are stored as given; the user's frame keeps its size, the
     internal one grows by the dummies.
     */
    method UpdateHpoc(indexes: seq<int>) returns (ok: bool)
      requires Valid()
      modifies this
      ensures Valid() && (ok <==> |indexes| > 0) && height == old(height) && width == old(width)
      ensures if ok
              then dummies == indexes && channelNumber == old(channelNumber) + |indexes|
                   && userFrameSize == height * (width * old(channelNumber))
              else unchanged(this)
    {
      if |indexes| == 0 {
        return false;
      }
      userFrameSize := height * rowSize;
      channelNumber := channelNumber + |indexes|;
      rowSize := width * channelNumber;
      fmapChannelNumber := RoundUpTo8(channelNumber);
      fmapPixelSize := fmapChannelNumber / 8 * 10;
      fmapRowSize := RoundUpTo4(width * fmapPixelSize);
      dummies := indexes;
      RoundsUp(channelNumber);
      RoundsUp(width * fmapPixelSize);
      ok := true;
    }

    /** Decodes the frame at `offset`; its floats fill the user's frame exactly when the dummies are proper. */
    method DecodeFrame(data: seq<uint8>, offset: nat) returns (frame: seq<uint32>, ghost m: nat)
      requires Valid() && offset + height * fmapRowSize <= |data|
      ensures Effective(dummies, fmapChannelNumber, m)
      ensures frame == FrameFloats(data, offset, fmapRowSize, fmapPixelSize, height, width,
                                   Kept(dummies, m, channelNumber))
      ensures |frame| >= userFrameSize
      ensures |frame| == userFrameSize <==> Proper(dummies, channelNumber)
      ensures Proper(dummies, channelNumber) ==> m == |dummies|
    {
      hide Effective, Kept, Proper, RowFloats;
      m := EffectiveExists(dummies, fmapChannelNumber);
      EffectiveRange(dummies, fmapChannelNumber, m);
      ghost var channels := Kept(dummies, m, channelNumber);
      frame := [];
      var base := offset;
      for i := 0 to height
        invariant base == offset + i * fmapRowSize
        invariant frame == FrameFloats(data, offset, fmapRowSize, fmapPixelSize, i, width, channels)
      {
        Distribute(i, 1, fmapRowSize);
        Monotone(i, height, fmapRowSize);
        var row := DecodeRow(data, base, m);
        frame := frame + row;
        base := base + fmapRowSize;
      }
      FrameLength(data, offset, fmapRowSize, fmapPixelSize, height, width, channels);
      FullFrameExactlyWhenProper(dummies, channelNumber, fmapChannelNumber, m, height, width);
    }

    method DecodeRow(data: seq<uint8>, base: nat, ghost m: nat) returns (row: seq<uint32>)
      requires Valid() && base + fmapRowSize <= |data| && Effective(dummies, fmapChannelNumber, m) && m <= |dummies|
      ensures row == RowFloats(data, base, fmapPixelSize, width, Kept(dummies, m, channelNumber))
    {
      hide Effective, Kept, Floats;
      row := [];
      var at := base;
      for j := 0 to width
        invariant at == base + j * fmapPixelSize
        invariant row == RowFloats(data, base, fmapPixelSize, j, Kept(dummies, m, channelNumber))
      {
        Distribute(j, 1, fmapPixelSize);
        Monotone(j, width, fmapPixelSize);
        var pixel := DecodePixel(data, at, dummies, channelNumber, fmapChannelNumber, m);
        row := row + pixel;
        at := at + fmapPixelSize;
      }
    }
  }

  /** A frame of h x w pixels has room for what is written to it exactly when the dummies are proper. */
  lemma FullFrameExactlyWhenProper(dummies: seq<int>, n: nat, padded: nat, m: nat, h: nat, w: nat)
    requires |dummies| <= n <= padded && Effective(dummies, padded, m) && m <= |dummies| && h > 0 && w > 0
    ensures var written, room := h * (w * |Kept(dummies, m, n)|), h * (w * (n - |dummies|));
            written >= room && (written == room <==> Proper(dummies, n))
    ensures Proper(dummies, n) ==> m == |dummies|
  {
    FullPixelExactlyWhenProper(dummies, n, padded, m);
    SameProduct(h, w, |Kept(dummies, m, n)|, n - |dummies|);
    if Proper(dummies, n) {
      ProperIsEffective(dummies, n, padded, m);
    }
    hide Kept, Effective, Proper;
  }

  lemma RoundsUp(n: nat)
    ensures n <= RoundUpTo8(n) < n + 8 && RoundUpTo8(n) % 8 == 0
    ensures n <= RoundUpTo4(n) < n + 4 && RoundUpTo4(n) % 4 == 0
  {
  }

  lemma EffectiveRange(dummies: seq<int>, n: nat, m: nat)
    requires Effective(dummies, n, m)
    ensures m <= |dummies|
  {
  }

  lemma ProperIsEffective(dummies: seq<int>, n: nat, padded: nat, m: nat)
    requires n <= padded && Effective(dummies, padded, m) && Proper(dummies, n)
    ensures m == |dummies|
  {
  }

  lemma SameProduct(h: nat, w: nat, a: nat, b: nat)
    requires h > 0 && w > 0 && a >= b
    ensures h * (w * a) >= h * (w * b) && (h * (w * a) == h * (w * b) <==> a == b)
  {
    Monotone(b, a, w);
    assert w * a == a * w && w * b == b * w;
    Monotone(w * b, w * a, h);
    assert h * (w * a) == (w * a) * h && h * (w * b) == (w * b) * h;
  }
}
