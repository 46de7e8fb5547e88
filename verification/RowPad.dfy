/** The row-padded frame layout: pixels packed within a row, every row filled up to four bytes. */
module RowPad {
  import opened Arithmetic
  import BufferChoice
  import opened BlockStream
  import opened GbfCodec
  import opened Words
  import opened GbfStream
  import opened GbfBuffers
  import opened Splicing

  // ----- where a pixel lies -----

  /** Pixels in a row, bytes of a pixel, bytes of a row with its padding. */
  datatype Layout = Layout(perRow: nat, pixel: nat, row: nat) {
    ghost predicate Valid() { perRow > 0 && perRow * pixel <= row }

    /** First byte of pixel q, counting pixels row by row. */
    function Offset(q: nat): nat {
      if perRow == 0 then 0 else q / perRow * row + q % perRow * pixel
    }
  }

  function GbfLayout(width: nat, z: nat, ch: nat): Layout {
    Layout(width * z, EncodedSize(ch), RoundUpTo4(width * z * EncodedSize(ch)))
  }

  /** The size announced for a row-padded flow is the size of the frame the converter lays out. */
  lemma AnnouncedSizeIsFrameSize(height: nat, width: nat, z: nat, ch: nat)
    requires width * z * EncodedSize(ch) + 3 < 0x1_0000_0000 && height * GbfLayout(width, z, ch).row < 0x1_0000_0000
    ensures BufferChoice.OutputFlowSize(height, width, z, ch, BufferChoice.Gbf80RowPad, false)
         == height * GbfLayout(width, z, ch).row
  {
    hide EncodedSize, RoundUpTo4, BufferChoice.AlignTo4, BufferChoice.ChannelBytes;
    var row := width * z * EncodedSize(ch);
    ChannelBytesAgree(ch);
    PaddingAgrees(row);
    SmallMod(row, 0x1_0000_0000);
    SmallMod(height * RoundUpTo4(row), 0x1_0000_0000);
    assert RoundUpTo4(row) * height == height * RoundUpTo4(row);
  }

  lemma ChannelBytesAgree(ch: nat)
    ensures BufferChoice.ChannelBytes(ch, BufferChoice.Gbf80RowPad) == EncodedSize(ch)
  {
  }

  lemma PaddingAgrees(n: nat)
    requires n + 3 < 0x1_0000_0000
    ensures BufferChoice.AlignTo4(n) == RoundUpTo4(n)
  {
  }

  /** A pixel ends within its row. */
  lemma PixelInRow(l: Layout, q: nat)
    requires l.Valid()
    ensures l.Offset(q) + l.pixel <= (q / l.perRow + 1) * l.row
  {
    MulMonotone(q % l.perRow + 1, l.perRow, l.pixel);
    OneMore(q % l.perRow, l.pixel);
    OneMore(q / l.perRow, l.row);
  }

  /** Pixel regions follow one another without overlap. */
  lemma PixelsDisjoint(l: Layout, p: nat, q: nat)
    requires l.Valid() && p < q
    ensures l.Offset(p) + l.pixel <= l.Offset(q)
  {
    DivMonotone(p, q, l.perRow);
    if p / l.perRow == q / l.perRow {
      SameRow(p / l.perRow * l.row, p % l.perRow, q % l.perRow, l.pixel);
    } else {
      PixelInRow(l, p);
      MulMonotone(p / l.perRow + 1, q / l.perRow, l.row);
      MulMonotone(0, q % l.perRow, l.pixel);
    }
  }

  lemma SameRow(start: nat, i: nat, j: nat, pixel: nat)
    requires i < j
    ensures start + i * pixel + pixel <= start + j * pixel
  {
    MulMonotone(i + 1, j, pixel);
  }

  lemma DivMonotone(p: nat, q: nat, d: nat)
    requires d > 0 && p < q
    ensures p / d <= q / d
    ensures p / d == q / d ==> p % d < q % d
  {
    if p / d > q / d {
      MulMonotone(q / d + 1, p / d, d);
    }
  }

  /** Every pixel of a frame lies inside the frame. */
  lemma PixelInFrame(l: Layout, q: nat, height: nat)
    requires l.Valid() && q < height * l.perRow
    ensures q / l.perRow < height && l.Offset(q) + l.pixel <= height * l.row
  {
    RowBelow(q, height, l.perRow);
    PixelInRow(l, q);
    MulMonotone(q / l.perRow + 1, height, l.row);
  }

  lemma RowBelow(q: nat, height: nat, perRow: nat)
    requires perRow > 0 && q < height * perRow
    ensures q / perRow < height
  {
    if q / perRow >= height {
      MulMonotone(height, q / perRow, perRow);
    }
  }

  lemma RowAndColumn(row: nat, col: nat, perRow: nat)
    requires col < perRow
    ensures (row * perRow + col) / perRow == row && (row * perRow + col) % perRow == col
  {
    var q := row * perRow + col;
    if q / perRow > row {
      MulMonotone(row + 1, q / perRow, perRow);
    } else if q / perRow < row {
      MulMonotone(q / perRow + 1, row, perRow);
    }
  }

  // ----- frames -----

  function Pixel(xs: seq<uint32>, q: nat, ch: nat): (p: seq<uint32>)
    requires q * ch + ch <= |xs|
    ensures |p| == ch
  {
    xs[q * ch..q * ch + ch]
  }

  function Region(bytes: seq<uint8>, l: Layout, q: nat): (r: seq<uint8>)
    requires l.Offset(q) + l.pixel <= |bytes|
    ensures |r| == l.pixel
  {
    bytes[l.Offset(q)..l.Offset(q) + l.pixel]
  }

  /** Byte k belongs to one of the first n pixels. */
  ghost predicate InPixels(l: Layout, n: nat, k: int) {
    exists q: nat :: q < n && l.Offset(q) <= k < l.Offset(q) + l.pixel
  }

  /** The first n pixels of xs stand encoded in bytes. */
  ghost predicate Encoded(bytes: seq<uint8>, xs: seq<uint32>, l: Layout, ch: nat, n: nat) {
    l.pixel == EncodedSize(ch)
    && forall q: nat | q < n ::
         q * ch + ch <= |xs| && l.Offset(q) + l.pixel <= |bytes| && Region(bytes, l, q) == Encode(Pixel(xs, q, ch))
  }

  /** Outside the first n pixels nothing changed: row padding keeps its bytes. */
  ghost predicate Untouched(bytes: seq<uint8>, was: seq<uint8>, l: Layout, n: nat) {
    |bytes| == |was| && forall k :: 0 <= k < |was| && !InPixels(l, n, k) ==> bytes[k] == was[k]
  }

  lemma EncodeNextPixel(bytes: seq<uint8>, was: seq<uint8>, next: seq<uint8>, xs: seq<uint32>,
                        l: Layout, ch: nat, n: nat)
    requires l.Valid() && l.pixel == EncodedSize(ch)
    requires n * ch + ch <= |xs| && l.Offset(n) + l.pixel <= |bytes|
    requires Encoded(bytes, xs, l, ch, n) && Untouched(bytes, was, l, n)
    requires next == Splice(bytes, l.Offset(n), Encode(Pixel(xs, n, ch)))
    ensures Encoded(next, xs, l, ch, n + 1) && Untouched(next, was, l, n + 1)
  {
    hide Encode;
    forall q: nat | q < n + 1
      ensures q * ch + ch <= |xs| && l.Offset(q) + l.pixel <= |next| && Region(next, l, q) == Encode(Pixel(xs, q, ch))
    {
      if q < n {
        PixelsDisjoint(l, q, n);
        assert Region(next, l, q) == Region(bytes, l, q);
      }
    }
    forall k | 0 <= k < |was| && !InPixels(l, n + 1, k)
      ensures next[k] == was[k]
    {
      assert !InPixels(l, n, k);
      assert !(l.Offset(n) <= k < l.Offset(n) + l.pixel);
    }
  }

  /** The first n pixels of the source have been rounded, the rest is as it was. */
  ghost predicate RoundedUpTo(flt: seq<uint32>, xs: seq<uint32>, ch: nat, n: nat) {
    n * ch <= |xs| && flt == Splice(xs, 0, Rounded(xs[..n * ch]))
  }

  lemma RoundNextPixel(flt: seq<uint32>, next: seq<uint32>, xs: seq<uint32>, ch: nat, n: nat)
    requires n * ch + ch <= |xs| && RoundedUpTo(flt, xs, ch, n)
    ensures (n + 1) * ch == n * ch + ch
    ensures flt[n * ch..n * ch + ch] == Pixel(xs, n, ch)
    ensures next == Splice(flt, n * ch, Rounded(Pixel(xs, n, ch))) ==> RoundedUpTo(next, xs, ch, n + 1)
  {
    hide Rounded;
    OneMore(n, ch);
    SpliceBeyond(xs, 0, Rounded(xs[..n * ch]), n * ch, n * ch + ch);
    SpliceTwice(xs, 0, Rounded(xs[..n * ch]), Rounded(Pixel(xs, n, ch)));
    RoundedAppends(xs[..n * ch], Pixel(xs, n, ch));
    assert xs[..n * ch] + Pixel(xs, n, ch) == xs[..n * ch + ch];
  }

  /** Pixel col of row h: its number, its place in the frame, and its running offsets. */
  lemma PixelPlace(l: Layout, ch: nat, height: nat, h: nat, col: nat)
    requires l.perRow * l.pixel <= l.row && h < height && col < l.perRow
    ensures l.Valid()
    ensures var q := h * l.perRow + col;
            && q < height * l.perRow
            && l.Offset(q) == h * l.row + col * l.pixel
            && l.Offset(q) + l.pixel <= height * l.row
            && q * ch == h * (l.perRow * ch) + col * ch
            && q * ch + ch <= height * (l.perRow * ch)
  {
    var q := h * l.perRow + col;
    MulMonotone(h + 1, height, l.perRow);
    OneMore(h, l.perRow);
    RowAndColumn(h, col, l.perRow);
    PixelInFrame(l, q, height);
    PlaceOfFloat(h, l.perRow, col, ch);
    OneMore(q, ch);
    MulMonotone(q + 1, height * l.perRow, ch);
    PlaceOfFloat(height, l.perRow, 0, ch);
  }

  lemma PlaceOfFloat(h: nat, perRow: nat, col: nat, ch: nat)
    ensures (h * perRow + col) * ch == h * (perRow * ch) + col * ch
  {
    assert (h * perRow) * ch == h * (perRow * ch);
  }

  lemma GbfLayoutFields(width: nat, z: nat, ch: nat)
    ensures var l := GbfLayout(width, z, ch);
            && l.perRow == width * z && l.pixel == EncodedSize(ch)
            && l.row == (width * z * EncodedSize(ch) + 3) / 4 * 4 && l.perRow * l.pixel <= l.row
  {
  }

  /** convert_gbf_row_pad: every pixel of every row encoded at its place, row padding left alone. */
  method ConvertRowPad(src: array<uint32>, dst: array<uint8>, height: nat, width: nat, z: nat, ch: nat)
    requires src as object != dst
    requires height * (width * z * ch) <= src.Length && height * GbfLayout(width, z, ch).row <= dst.Length
    modifies src, dst
    ensures var l, n := GbfLayout(width, z, ch), height * (width * z);
            && Encoded(dst[..], old(src[..]), l, ch, n) && Untouched(dst[..], old(dst[..]), l, n)
            && RoundedUpTo(src[..], old(src[..]), ch, n)
  {
    hide *;
    ghost var xs, was, l := src[..], dst[..], GbfLayout(width, z, ch);
    GbfLayoutFields(width, z, ch);
    var gbfRowSize := (width * z * EncodedSize(ch) + 3) / 4 * 4;
    var fltRowSize := width * z * ch;
    var gbfRow, fltRow := 0, 0;
    NothingConverted(xs, was, l, ch);
    for h := 0 to height
      invariant gbfRow == h * l.row && fltRow == h * fltRowSize
      invariant Encoded(dst[..], xs, l, ch, h * l.perRow) && Untouched(dst[..], was, l, h * l.perRow)
      invariant RoundedUpTo(src[..], xs, ch, h * l.perRow)
    {
      ConvertRow(src, dst, gbfRow, fltRow, width, z, ch, l, xs, was, h, height);
      OneMore(h, l.row);
      OneMore(h, fltRowSize);
      gbfRow := gbfRow + gbfRowSize;
      fltRow := fltRow + fltRowSize;
    }
  }

  lemma NothingConverted(xs: seq<uint32>, was: seq<uint8>, l: Layout, ch: nat)
    requires l.pixel == EncodedSize(ch)
    ensures Encoded(was, xs, l, ch, 0) && Untouched(was, was, l, 0) && RoundedUpTo(xs, xs, ch, 0)
  {
    SpliceNothing(xs, 0);
    assert Rounded(xs[..0]) == [];
  }

  method ConvertRow(src: array<uint32>, dst: array<uint8>, gbfRow: nat, fltRow: nat, width: nat, z: nat, ch: nat,
                    ghost l: Layout, ghost xs: seq<uint32>, ghost was: seq<uint8>, ghost h: nat, ghost height: nat)
    requires src as object != dst && h < height && dst.Length == |was| && src.Length == |xs|
    requires l.perRow == width * z && l.pixel == EncodedSize(ch) && l.perRow * l.pixel <= l.row
    requires height * (l.perRow * ch) <= src.Length && height * l.row <= dst.Length
    requires gbfRow == h * l.row && fltRow == h * (l.perRow * ch)
    requires Encoded(dst[..], xs, l, ch, h * l.perRow) && Untouched(dst[..], was, l, h * l.perRow)
    requires RoundedUpTo(src[..], xs, ch, h * l.perRow)
    modifies src, dst
    ensures Encoded(dst[..], xs, l, ch, (h + 1) * l.perRow) && Untouched(dst[..], was, l, (h + 1) * l.perRow)
    ensures RoundedUpTo(src[..], xs, ch, (h + 1) * l.perRow)
  {
    hide *;
    var gbfPixel, fltPixel := 0, 0;
    ColumnsBefore(0, z, width);
    for w := 0 to width
      invariant gbfPixel == Before(w, z) * l.pixel && fltPixel == Before(w, z) * ch
      invariant Encoded(dst[..], xs, l, ch, h * l.perRow + Before(w, z))
      invariant Untouched(dst[..], was, l, h * l.perRow + Before(w, z))
      invariant RoundedUpTo(src[..], xs, ch, h * l.perRow + Before(w, z))
    {
      ColumnsBefore(w, z, width);
      gbfPixel, fltPixel := ConvertColumn(src, dst, gbfRow, fltRow, gbfPixel, fltPixel, z, ch,
                                          l, xs, was, h, height, Before(w, z));
    }
    OneMore(h, l.perRow);
  }

  /** Pixels of a row in front of column w. */
  function Before(w: nat, z: nat): nat { w * z }

  lemma ColumnsBefore(w: nat, z: nat, width: nat)
    requires w <= width
    ensures Before(0, z) == 0 && Before(width, z) == width * z
    ensures w < width ==> Before(w + 1, z) == Before(w, z) + z <= Before(width, z)
  {
    OneMore(w, z);
    if w < width {
      MulMonotone(w + 1, width, z);
    }
  }

  /** The z pixels of one column, from pixel col of row h on. */
  method ConvertColumn(src: array<uint32>, dst: array<uint8>, gbfRow: nat, fltRow: nat, gbfPixel0: nat, fltPixel0: nat,
                       z: nat, ch: nat, ghost l: Layout, ghost xs: seq<uint32>, ghost was: seq<uint8>,
                       ghost h: nat, ghost height: nat, ghost col: nat)
    returns (gbfPixel: nat, fltPixel: nat)
    requires src as object != dst && h < height && dst.Length == |was| && src.Length == |xs|
    requires l.pixel == EncodedSize(ch) && l.perRow * l.pixel <= l.row && col + z <= l.perRow
    requires height * (l.perRow * ch) <= src.Length && height * l.row <= dst.Length
    requires gbfRow == h * l.row && fltRow == h * (l.perRow * ch)
    requires gbfPixel0 == col * l.pixel && fltPixel0 == col * ch
    requires Encoded(dst[..], xs, l, ch, h * l.perRow + col) && Untouched(dst[..], was, l, h * l.perRow + col)
    requires RoundedUpTo(src[..], xs, ch, h * l.perRow + col)
    modifies src, dst
    ensures gbfPixel == (col + z) * l.pixel && fltPixel == (col + z) * ch
    ensures Encoded(dst[..], xs, l, ch, h * l.perRow + (col + z))
    ensures Untouched(dst[..], was, l, h * l.perRow + (col + z))
    ensures RoundedUpTo(src[..], xs, ch, h * l.perRow + (col + z))
  {
    hide *;
    gbfPixel, fltPixel := gbfPixel0, fltPixel0;
    for d := 0 to z
      invariant gbfPixel == (col + d) * l.pixel && fltPixel == (col + d) * ch
      invariant Encoded(dst[..], xs, l, ch, h * l.perRow + (col + d))
      invariant Untouched(dst[..], was, l, h * l.perRow + (col + d))
      invariant RoundedUpTo(src[..], xs, ch, h * l.perRow + (col + d))
    {
      PixelPlace(l, ch, height, h, col + d);
      ConvertPixel(src, dst, gbfRow + gbfPixel, fltRow + fltPixel, ch, l, xs, was, h * l.perRow + (col + d));
      OneMore(col + d, l.pixel);
      OneMore(col + d, ch);
      gbfPixel := gbfPixel + EncodedSize(ch);
      fltPixel := fltPixel + ch;
    }
  }

  method ConvertPixel(src: array<uint32>, dst: array<uint8>, g: nat, f: nat, ch: nat,
                      ghost l: Layout, ghost xs: seq<uint32>, ghost was: seq<uint8>, ghost n: nat)
    requires src as object != dst && dst.Length == |was| && src.Length == |xs|
    requires l.Valid() && l.pixel == EncodedSize(ch)
    requires g == l.Offset(n) && g + l.pixel <= dst.Length && f == n * ch && f + ch <= src.Length
    requires Encoded(dst[..], xs, l, ch, n) && Untouched(dst[..], was, l, n) && RoundedUpTo(src[..], xs, ch, n)
    modifies src, dst
    ensures Encoded(dst[..], xs, l, ch, n + 1) && Untouched(dst[..], was, l, n + 1)
    ensures RoundedUpTo(src[..], xs, ch, n + 1)
  {
    hide *;
    ghost var flt, bytes := src[..], dst[..];
    RoundNextPixel(flt, flt, xs, ch, n);
    assert src[f..f + ch] == flt[f..f + ch];
    GbfEncode(src, f, dst, g, ch);
    RoundNextPixel(flt, src[..], xs, ch, n);
    EncodeNextPixel(bytes, was, dst[..], xs, l, ch, n);
  }

  // ----- the way back -----

  /** The first n pixels of bytes stand decoded in flt; what follows them is as it was. */
  ghost predicate Decoded(flt: seq<uint32>, was: seq<uint32>, bytes: seq<uint8>, l: Layout, ch: nat, n: nat) {
    && l.pixel == EncodedSize(ch) && |flt| == |was| && n * ch <= |was| && flt[n * ch..] == was[n * ch..]
    && forall q: nat | q < n ::
         && q * ch + ch <= |flt| && l.Offset(q) + l.pixel <= |bytes|
         && Pixel(flt, q, ch) == Decode(Region(bytes, l, q), ch)
  }

  lemma DecodeNextPixel(flt: seq<uint32>, was: seq<uint32>, next: seq<uint32>, bytes: seq<uint8>,
                        l: Layout, ch: nat, n: nat)
    requires Decoded(flt, was, bytes, l, ch, n)
    requires n * ch + ch <= |flt| && l.Offset(n) + l.pixel <= |bytes|
    requires next == Splice(flt, n * ch, Decode(Region(bytes, l, n), ch))
    ensures Decoded(next, was, bytes, l, ch, n + 1)
  {
    hide Decode, Layout.Offset;
    OneMore(n, ch);
    forall q: nat | q < n + 1
      ensures q * ch + ch <= |next| && l.Offset(q) + l.pixel <= |bytes|
      ensures Pixel(next, q, ch) == Decode(Region(bytes, l, q), ch)
    {
      if q < n {
        MulMonotone(q + 1, n, ch);
        OneMore(q, ch);
        assert Pixel(next, q, ch) == Pixel(flt, q, ch);
      }
    }
    assert next[n * ch + ch..] == was[n * ch..][ch..];
  }

  /** unconvert_gbf_row_pad: every pixel of every row decoded from its place. */
  method UnconvertRowPad(src: array<uint8>, dst: array<uint32>, height: nat, width: nat, z: nat, ch: nat)
    requires dst as object != src
    requires height * (width * z * ch) <= dst.Length && height * GbfLayout(width, z, ch).row <= src.Length
    modifies dst
    ensures Decoded(dst[..], old(dst[..]), src[..], GbfLayout(width, z, ch), ch, height * (width * z))
  {
    hide *;
    ghost var was, bytes, l := dst[..], src[..], GbfLayout(width, z, ch);
    GbfLayoutFields(width, z, ch);
    var gbfRowSize := (width * z * EncodedSize(ch) + 3) / 4 * 4;
    var fltRowSize := width * z * ch;
    var gbfRow, fltRow := 0, 0;
    NothingDecoded(was, bytes, l, ch);
    for h := 0 to height
      invariant gbfRow == h * l.row && fltRow == h * fltRowSize
      invariant src[..] == bytes && Decoded(dst[..], was, bytes, l, ch, h * l.perRow)
    {
      UnconvertRow(src, dst, gbfRow, fltRow, width, z, ch, l, was, h, height);
      OneMore(h, l.row);
      OneMore(h, fltRowSize);
      gbfRow := gbfRow + gbfRowSize;
      fltRow := fltRow + fltRowSize;
    }
  }

  lemma NothingDecoded(was: seq<uint32>, bytes: seq<uint8>, l: Layout, ch: nat)
    requires l.pixel == EncodedSize(ch)
    ensures Decoded(was, was, bytes, l, ch, 0)
  {
  }

  method UnconvertRow(src: array<uint8>, dst: array<uint32>, gbfRow: nat, fltRow: nat, width: nat, z: nat, ch: nat,
                      ghost l: Layout, ghost was: seq<uint32>, ghost h: nat, ghost height: nat)
    requires dst as object != src && h < height && dst.Length == |was|
    requires l.perRow == width * z && l.pixel == EncodedSize(ch) && l.perRow * l.pixel <= l.row
    requires height * (l.perRow * ch) <= dst.Length && height * l.row <= src.Length
    requires gbfRow == h * l.row && fltRow == h * (l.perRow * ch)
    requires Decoded(dst[..], was, src[..], l, ch, h * l.perRow)
    modifies dst
    ensures Decoded(dst[..], was, src[..], l, ch, (h + 1) * l.perRow)
  {
    hide *;
    ghost var bytes := src[..];
    var pixelSize := EncodedSize(ch);
    var gbfPixel, fltPixel := 0, 0;
    ghost var col := 0;
    for w := 0 to width
      invariant col == w * z && gbfPixel == col * l.pixel && fltPixel == col * ch
      invariant src[..] == bytes && Decoded(dst[..], was, bytes, l, ch, h * l.perRow + col)
    {
      OneMore(w, z);
      MulMonotone(w + 1, width, z);
      for d := 0 to z
        invariant col == w * z + d && gbfPixel == col * l.pixel && fltPixel == col * ch
        invariant src[..] == bytes && Decoded(dst[..], was, bytes, l, ch, h * l.perRow + col)
      {
        PixelPlace(l, ch, height, h, col);
        UnconvertPixel(src, dst, gbfRow + gbfPixel, fltRow + fltPixel, ch, l, was, h * l.perRow + col);
        OneMore(col, l.pixel);
        OneMore(col, ch);
        gbfPixel := gbfPixel + pixelSize;
        fltPixel := fltPixel + ch;
        col := col + 1;
      }
    }
    OneMore(h, l.perRow);
  }

  method UnconvertPixel(src: array<uint8>, dst: array<uint32>, g: nat, f: nat, ch: nat,
                        ghost l: Layout, ghost was: seq<uint32>, ghost n: nat)
    requires dst as object != src && l.pixel == EncodedSize(ch)
    requires g == l.Offset(n) && g + l.pixel <= src.Length && f == n * ch && f + ch <= dst.Length
    requires Decoded(dst[..], was, src[..], l, ch, n)
    modifies dst
    ensures Decoded(dst[..], was, src[..], l, ch, n + 1)
  {
    hide EncodedSize, Decoded, Decode, Layout.Offset;
    ghost var flt, bytes := dst[..], src[..];
    assert src[g..g + l.pixel] == Region(bytes, l, n);
    GbfDecode(src, g, dst, f, ch);
    assert src[..] == bytes;
    DecodeNextPixel(flt, was, dst[..], bytes, l, ch, n);
  }

  // ----- both ways -----

  /**
   A frame converted to padded rows and back holds, pixel by pixel, the round trip of each pixel alone;
   converting it once more reproduces every pixel region byte for byte.
   */
  lemma RowPadRoundTrip(xs: seq<uint32>, bytes: seq<uint8>, flt: seq<uint32>, was: seq<uint32>, again: seq<uint8>,
                        l: Layout, ch: nat, n: nat, q: nat)
    requires Encoded(bytes, xs, l, ch, n) && Decoded(flt, was, bytes, l, ch, n)
    requires Encoded(again, flt, l, ch, n) && q < n
    ensures q * ch + ch <= |xs| && q * ch + ch <= |flt|
    ensures Pixel(flt, q, ch) == Decode(Encode(Pixel(xs, q, ch)), ch)
    ensures l.Offset(q) + l.pixel <= |bytes| && l.Offset(q) + l.pixel <= |again|
    ensures Region(again, l, q) == Region(bytes, l, q)
  {
    hide Encode, Decode, Layout.Offset;
    Projection(Pixel(xs, q, ch));
  }
}
