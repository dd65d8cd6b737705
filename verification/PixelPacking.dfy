// 2-bit glyph bitmaps in their two layouts (lib/EpdFont/FontDecompressor.cpp).
//
// A decompressed group stores each glyph row-aligned: every row starts on a byte boundary.
// Renderers want it packed: pixel p = y * width + x follows pixel p - 1 with no padding.
// In both layouts a byte holds four pixels, the first one in the two most significant bits.
module PixelPacking {
  import opened Wrappers

  type pixel = p: int | 0 <= p < 4

  // The 2-bit pixel at position k (0..3) of byte b.
  function PixelOfByte(b: byte, k: nat): pixel
    requires k < 4
  {
    if k == 0 then b / 64 else if k == 1 then b / 16 % 4 else if k == 2 then b / 4 % 4 else b % 4
  }

  // The p-th 2-bit pixel of a packed byte string.
  function PixelAt(data: seq<byte>, p: nat): pixel
    requires p / 4 < |data|
  {
    PixelOfByte(data[p / 4], p % 4)
  }

  // Bytes of one row-aligned row, and of a whole glyph in either layout.
  function RowStride(width: nat): nat {
    (width + 3) / 4
  }

  function AlignedLength(width: nat, height: nat): nat {
    RowStride(width) * height
  }

  function PackedLength(width: nat, height: nat): nat {
    (width * height + 3) / 4
  }

  // The extent of y whole rows.
  function Rows(y: nat, rowLength: nat): nat {
    y * rowLength
  }

  // Row y of a row-aligned glyph, and its x-th pixel.
  function Row(aligned: seq<byte>, width: nat, height: nat, y: nat): (row: seq<byte>)
    requires |aligned| == AlignedLength(width, height) && y < height
    ensures |row| == RowStride(width)
  {
    RowInBounds(width, height, y);
    aligned[Rows(y, RowStride(width))..Rows(y, RowStride(width)) + RowStride(width)]
  }

  function AlignedPixel(aligned: seq<byte>, width: nat, height: nat, y: nat, x: nat): pixel
    requires |aligned| == AlignedLength(width, height) && x < width && y < height
  {
    PixelAt(Row(aligned, width, height, y), x)
  }

  // The pixels of a row-aligned glyph in reading order: row by row, each from left to right.
  function Pixels(aligned: seq<byte>, width: nat, height: nat): (pixels: seq<pixel>)
    requires |aligned| == AlignedLength(width, height)
    ensures |pixels| == width * height
  {
    seq(width * height, p requires 0 <= p < width * height =>
      (RowColumnBounds(width, height, p); AlignedPixel(aligned, width, height, p / width, p % width)))
  }

  // Four pixels a byte, the last byte padded with zeros.
  function PackPixels(pixels: seq<pixel>): (packed: seq<byte>)
    ensures |packed| == (|pixels| + 3) / 4
  {
    seq((|pixels| + 3) / 4, k requires 0 <= k => PrefixOfByte(pixels, k, 4))
  }

  // The first n pixels of packed byte k, pushed in from the right two bits at a time.
  function PrefixOfByte(pixels: seq<pixel>, k: nat, n: nat): (b: byte)
    requires n <= 4
    ensures b < if n == 0 then 1 else if n == 1 then 4 else if n == 2 then 16 else if n == 3 then 64 else 256
  {
    if n == 0 then 0 else PrefixOfByte(pixels, k, n - 1) * 4 + PixelOrZero(pixels, 4 * k + n - 1)
  }

  function PixelOrZero(pixels: seq<pixel>, p: nat): pixel {
    if p < |pixels| then pixels[p] else 0
  }

  // The packed form of a row-aligned glyph.
  function Packed(aligned: seq<byte>, width: nat, height: nat): (packed: seq<byte>)
    requires |aligned| == AlignedLength(width, height)
    ensures |packed| == PackedLength(width, height)
  {
    PackPixels(Pixels(aligned, width, height))
  }

  // ----- arithmetic of rows and columns -----

  lemma TimesMonotone(a: nat, b: nat, c: nat)
    ensures a <= b ==> a * c <= b * c
  {
  }

  lemma RowInBounds(width: nat, height: nat, y: nat)
    requires y < height
    ensures Rows(y, RowStride(width)) + RowStride(width) <= AlignedLength(width, height)
  {
    TimesMonotone(y + 1, height, RowStride(width));
  }

  lemma RowColumn(width: nat, y: nat, x: nat)
    requires x < width
    ensures (y * width + x) / width == y && (y * width + x) % width == x
  {
    var p := y * width + x;
    var q := p / width;
    assert p == q * width + p % width;
    TimesMonotone(q + 1, y, width);
    TimesMonotone(y + 1, q, width);
  }

  lemma RowColumnBounds(width: nat, height: nat, p: nat)
    requires p < width * height
    ensures width > 0 && height > 0
    ensures 0 <= p / width < height && 0 <= p % width < width && p == p / width * width + p % width
  {
    TimesMonotone(height, p / width, width);
  }

  lemma PixelIndexBound(width: nat, height: nat, y: nat, x: nat)
    requires x < width && y < height
    ensures 0 <= y * width + x < width * height
  {
    TimesMonotone(y + 1, height, width);
  }

  lemma PixelRowInBounds(width: nat, height: nat, y: nat)
    requires y < height
    ensures Rows(y, width) + width == Rows(y + 1, width) <= width * height
  {
    TimesMonotone(y + 1, height, width);
  }

  lemma PixelRowsExtent(width: nat, height: nat)
    ensures Rows(0, width) == 0 && Rows(height, width) == width * height
  {
  }

  // ----- what the packed form means -----

  lemma DigitsOfByte(a: pixel, b: pixel, c: pixel, d: pixel)
    ensures var v := a * 64 + b * 16 + c * 4 + d;
            && v < 256 && PixelOfByte(v, 0) == a && PixelOfByte(v, 1) == b
            && PixelOfByte(v, 2) == c && PixelOfByte(v, 3) == d
  {
  }

  lemma WholeByte(pixels: seq<pixel>, k: nat)
    ensures PrefixOfByte(pixels, k, 4)
         == PixelOrZero(pixels, 4 * k) * 64 + PixelOrZero(pixels, 4 * k + 1) * 16
          + PixelOrZero(pixels, 4 * k + 2) * 4 + PixelOrZero(pixels, 4 * k + 3)
  {
    assert PrefixOfByte(pixels, k, 1) == PixelOrZero(pixels, 4 * k);
    assert PrefixOfByte(pixels, k, 2) == PixelOrZero(pixels, 4 * k) * 4 + PixelOrZero(pixels, 4 * k + 1);
    assert PrefixOfByte(pixels, k, 3) == PrefixOfByte(pixels, k, 2) * 4 + PixelOrZero(pixels, 4 * k + 2);
  }

  // Every pixel position of the packed string, including the padding of its last byte.
  lemma PackedPixelAt(pixels: seq<pixel>, p: nat)
    requires p / 4 < |PackPixels(pixels)|
    ensures PixelAt(PackPixels(pixels), p) == PixelOrZero(pixels, p)
  {
    var k := p / 4;
    WholeByte(pixels, k);
    DigitsOfByte(PixelOrZero(pixels, 4 * k), PixelOrZero(pixels, 4 * k + 1),
                 PixelOrZero(pixels, 4 * k + 2), PixelOrZero(pixels, 4 * k + 3));
    assert p == 4 * k + p % 4;
  }

  // Packing preserves every pixel: pixel y * width + x of the output is pixel (y, x) of the input.
  lemma PackingPreservesPixels(aligned: seq<byte>, width: nat, height: nat, y: nat, x: nat)
    requires |aligned| == AlignedLength(width, height) && x < width && y < height
    ensures 0 <= y * width + x < width * height
    ensures PixelAt(Packed(aligned, width, height), y * width + x) == AlignedPixel(aligned, width, height, y, x)
  {
    hide PackPixels, PrefixOfByte, PixelOfByte;
    PixelIndexBound(width, height, y, x);
    RowColumn(width, y, x);
    PackedPixelAt(Pixels(aligned, width, height), y * width + x);
  }

  // The padding pixels of the last byte are zero.
  lemma PackingPadsWithZero(aligned: seq<byte>, width: nat, height: nat, p: nat)
    requires |aligned| == AlignedLength(width, height)
    requires width * height <= p < 4 * PackedLength(width, height)
    ensures PixelAt(Packed(aligned, width, height), p) == 0
  {
    PackedPixelAt(Pixels(aligned, width, height), p);
  }

  // ----- whole-byte rows -----

  lemma BytePixels(b: byte)
    ensures b == PixelOfByte(b, 0) * 64 + PixelOfByte(b, 1) * 16 + PixelOfByte(b, 2) * 4 + PixelOfByte(b, 3)
  {
    var q, t := b / 4, b / 16;
    assert b == 4 * q + b % 4 && q / 4 == t && t / 4 == b / 64;
    assert q == 4 * t + q % 4 && t == 4 * (t / 4) + t % 4;
  }

  lemma WholeByteLengths(width: nat, height: nat)
    requires width % 4 == 0
    ensures RowStride(width) == width / 4 && PackedLength(width, height) == AlignedLength(width, height)
    ensures width * height == 4 * AlignedLength(width, height)
  {
    var q := width / 4;
    assert width * height == 4 * (q * height);
  }

  lemma WholeByteRowIndex(width: nat, y: nat, x: nat, p: nat)
    requires width % 4 == 0 && p == y * width + x
    ensures p / 4 == y * RowStride(width) + x / 4 && p % 4 == x % 4
  {
    var m := y * (width / 4);
    assert y * width == 4 * m;
  }

  lemma WholeByteRowPixel(aligned: seq<byte>, width: nat, height: nat, k: nat, j: nat)
    requires |aligned| == AlignedLength(width, height) && width % 4 == 0 && k < |aligned| && j < 4
    ensures PixelOrZero(Pixels(aligned, width, height), 4 * k + j) == PixelOfByte(aligned[k], j)
  {
    var p := 4 * k + j;
    WholeByteLengths(width, height);
    RowColumnBounds(width, height, p);
    var y, x := p / width, p % width;
    RowInBounds(width, height, y);
    WholeByteRowIndex(width, y, x, p);
    assert Row(aligned, width, height, y)[x / 4] == aligned[k];
  }

  // When rows fill whole bytes the two layouts coincide: copying equals repacking.
  lemma {:induction false} WholeByteRowsNeedNoPacking(aligned: seq<byte>, width: nat, height: nat)
    requires |aligned| == AlignedLength(width, height) && width % 4 == 0
    ensures Packed(aligned, width, height) == aligned
  {
    WholeByteLengths(width, height);
    var pixels := Pixels(aligned, width, height);
    forall k | 0 <= k < |aligned| ensures PackPixels(pixels)[k] == aligned[k] {
      WholeByte(pixels, k);
      BytePixels(aligned[k]);
      WholeByteRowPixel(aligned, width, height, k, 0);
      WholeByteRowPixel(aligned, width, height, k, 1);
      WholeByteRowPixel(aligned, width, height, k, 2);
      WholeByteRowPixel(aligned, width, height, k, 3);
    }
  }

  // ----- the packing loop on pixels -----

  // Where the loop stands after p pixels: writeIdx whole bytes, and outBits bits in outByte.
  ghost predicate Progress(pixels: seq<pixel>, p: nat, outByte: byte, outBits: nat, writeIdx: nat) {
    && p <= |pixels|
    && writeIdx == p / 4 && outBits == 2 * (p % 4)
    && outByte == PrefixOfByte(pixels, p / 4, p % 4)
  }

  lemma Start(pixels: seq<pixel>)
    ensures Progress(pixels, 0, 0, 0, 0)
  {
  }

  lemma Advance(pixels: seq<pixel>, p: nat, outByte: byte, outBits: nat, writeIdx: nat)
    requires Progress(pixels, p, outByte, outBits, writeIdx) && p < |pixels|
    ensures writeIdx < |PackPixels(pixels)| && outBits <= 6
    ensures var pushed := outByte * 4 + pixels[p];
            && pushed < 256
            && (outBits < 6 ==> Progress(pixels, p + 1, pushed, outBits + 2, writeIdx))
            && (outBits == 6 ==> pushed == PackPixels(pixels)[writeIdx])
            && (outBits == 6 ==> Progress(pixels, p + 1, 0, 0, writeIdx + 1))
  {
    var k, n := p / 4, p % 4;
    assert p == 4 * k + n;
    assert PrefixOfByte(pixels, k, n + 1) == PrefixOfByte(pixels, k, n) * 4 + PixelOrZero(pixels, 4 * k + n);
  }

  // The pixels missing from the last byte are zero, so left-aligning a partial byte completes it.
  lemma Flush(pixels: seq<pixel>, outByte: byte, outBits: nat, writeIdx: nat)
    requires Progress(pixels, |pixels|, outByte, outBits, writeIdx)
    ensures outBits == 0 ==> writeIdx == |PackPixels(pixels)|
    ensures outBits > 0 ==> writeIdx + 1 == |PackPixels(pixels)|
    ensures outBits > 0 ==> PackPixels(pixels)[writeIdx] == outByte * FlushFactor(outBits)
  {
    if outBits > 0 {
      WholeByte(pixels, writeIdx);
      assert PrefixOfByte(pixels, writeIdx, 1) == PixelOrZero(pixels, 4 * writeIdx);
      assert PrefixOfByte(pixels, writeIdx, 2)
          == PixelOrZero(pixels, 4 * writeIdx) * 4 + PixelOrZero(pixels, 4 * writeIdx + 1);
      assert PrefixOfByte(pixels, writeIdx, 3)
          == PrefixOfByte(pixels, writeIdx, 2) * 4 + PixelOrZero(pixels, 4 * writeIdx + 2);
    }
  }

  // 1 << (8 - outBits) for the partial bytes that can occur.
  function FlushFactor(outBits: nat): nat {
    if outBits == 2 then 64 else if outBits == 4 then 16 else 4
  }

  // ----- the in-place algorithm -----

  // Copies the row-aligned glyph at src[srcOffset..] to dst[dstOffset..] in packed form and
  // leaves every other byte of dst alone.
  method CompactSingleGlyph(src: array<byte>, srcOffset: nat, dst: array<byte>, dstOffset: nat,
                            width: byte, height: byte)
    requires src != dst
    requires srcOffset + AlignedLength(width, height) <= src.Length
    requires dstOffset + PackedLength(width, height) <= dst.Length
    modifies dst
    ensures var aligned := src[srcOffset..srcOffset + AlignedLength(width, height)];
            dst[..] == Spliced(old(dst[..]), dstOffset, Packed(aligned, width, height))
  {
    ghost var aligned := src[srcOffset..srcOffset + AlignedLength(width, height)];
    if width == 0 || height == 0 {
      assert Packed(aligned, width, height) == [];
      return;
    }
    if width % 4 == 0 {
      WholeByteLengths(width, height);
      WholeByteRowsNeedNoPacking(aligned, width, height);
      CopyBytes(src, srcOffset, dst, dstOffset, (width + 3) / 4 * height);
    } else {
      PackRows(src, srcOffset, dst, dstOffset, width, height);
    }
  }

  // dst with bytes overwriting the region that starts at offset.
  function Spliced(dst: seq<byte>, offset: nat, bytes: seq<byte>): (r: seq<byte>)
    requires offset + |bytes| <= |dst|
    ensures |r| == |dst|
  {
    dst[..offset] + bytes + dst[offset + |bytes|..]
  }

  method CopyBytes(src: array<byte>, srcOffset: nat, dst: array<byte>, dstOffset: nat, length: nat)
    requires src != dst && srcOffset + length <= src.Length && dstOffset + length <= dst.Length
    modifies dst
    ensures dst[..] == Spliced(old(dst[..]), dstOffset, src[srcOffset..srcOffset + length])
  {
    forall i | 0 <= i < length {
      dst[dstOffset + i] := src[srcOffset + i];
    }
  }

  // The general path, row by row.
  method PackRows(src: array<byte>, srcOffset: nat, dst: array<byte>, dstOffset: nat, width: byte, height: byte)
    requires src != dst && width > 0 && height > 0
    requires srcOffset + AlignedLength(width, height) <= src.Length
    requires dstOffset + PackedLength(width, height) <= dst.Length
    modifies dst
    ensures var aligned := src[srcOffset..srcOffset + AlignedLength(width, height)];
            dst[..] == Spliced(old(dst[..]), dstOffset, Packed(aligned, width, height))
  {
    hide Progress, PackPixels, PrefixOfByte, Pixels, RowHolds, RowStride, AlignedLength, PackedLength, Rows;
    ghost var before := dst[..];
    ghost var aligned := src[srcOffset..srcOffset + AlignedLength(width, height)];
    ghost var pixels := Pixels(aligned, width, height);
    ghost var packed := Packed(aligned, width, height);
    var rowStride := RowStride(width);
    var outByte: byte, outBits: nat, writeIdx: nat := 0, 0, 0;
    Start(pixels);
    PixelRowsExtent(width, height);
    var y := 0;
    while y < height
      invariant 0 <= y <= height
      invariant Progress(pixels, Rows(y, width), outByte, outBits, writeIdx)
      invariant writeIdx <= |packed| && dst[..] == Spliced(before, dstOffset, packed[..writeIdx])
    {
      PixelRowInBounds(width, height, y);
      RowInBounds(width, height, y);
      RowOfPixels(aligned, width, height, y);
      assert src[srcOffset + Rows(y, rowStride)..srcOffset + Rows(y, rowStride) + rowStride]
          == Row(aligned, width, height, y);
      outByte, outBits, writeIdx := PackRow(src, srcOffset + Rows(y, rowStride), dst, dstOffset, width,
                                            pixels, Rows(y, width), before, outByte, outBits, writeIdx);
      y := y + 1;
    }
    FlushByte(dst, dstOffset, pixels, before, outByte, outBits, writeIdx);
  }

  // Stores the last, partial byte with its pixels in the high bits.
  method FlushByte(dst: array<byte>, dstOffset: nat, ghost pixels: seq<pixel>, ghost before: seq<byte>,
                   outByte: byte, outBits: nat, writeIdx: nat)
    requires Progress(pixels, |pixels|, outByte, outBits, writeIdx)
    requires dstOffset + |PackPixels(pixels)| <= dst.Length == |before|
    requires writeIdx <= |PackPixels(pixels)|
    requires dst[..] == Spliced(before, dstOffset, PackPixels(pixels)[..writeIdx])
    modifies dst
    ensures dst[..] == Spliced(before, dstOffset, PackPixels(pixels))
  {
    hide Progress, PackPixels, PrefixOfByte;
    ghost var packed := PackPixels(pixels);
    Flush(pixels, outByte, outBits, writeIdx);
    if outBits > 0 {
      SpliceOneMore(before, dstOffset, packed, writeIdx);
      dst[dstOffset + writeIdx] := outByte * FlushFactor(outBits) % 256;
    }
    assert packed[..|packed|] == packed;
  }

  // The row's pixels are those from position p0 on.
  ghost predicate RowHolds(row: seq<byte>, width: nat, pixels: seq<pixel>, p0: nat) {
    && |row| == RowStride(width)
    && forall x :: 0 <= x < width ==> PixelAt(row, x) == PixelOrZero(pixels, p0 + x)
  }

  lemma RowOfPixels(aligned: seq<byte>, width: nat, height: nat, y: nat)
    requires |aligned| == AlignedLength(width, height) && y < height
    ensures RowHolds(Row(aligned, width, height, y), width, Pixels(aligned, width, height), Rows(y, width))
  {
    forall x | 0 <= x < width
      ensures PixelAt(Row(aligned, width, height, y), x)
           == PixelOrZero(Pixels(aligned, width, height), Rows(y, width) + x)
    {
      PixelIndexBound(width, height, y, x);
      RowColumn(width, y, x);
    }
  }

  lemma SpliceOneMore(before: seq<byte>, offset: nat, packed: seq<byte>, n: nat)
    requires offset + |packed| <= |before| && n < |packed|
    ensures Spliced(before, offset, packed[..n])[offset + n := packed[n]] == Spliced(before, offset, packed[..n + 1])
  {
  }

  // One row: shift its pixels into outByte and store outByte whenever it is full.
  method PackRow(src: array<byte>, rowStart: nat, dst: array<byte>, dstOffset: nat, width: byte,
                 ghost pixels: seq<pixel>, ghost p0: nat, ghost before: seq<byte>,
                 outByte0: byte, outBits0: nat, writeIdx0: nat)
    returns (outByte: byte, outBits: nat, writeIdx: nat)
    requires src != dst && rowStart + RowStride(width) <= src.Length
    requires p0 + width <= |pixels|
    requires RowHolds(src[rowStart..rowStart + RowStride(width)], width, pixels, p0)
    requires Progress(pixels, p0, outByte0, outBits0, writeIdx0)
    requires dstOffset + |PackPixels(pixels)| <= dst.Length == |before|
    requires writeIdx0 <= |PackPixels(pixels)|
    requires dst[..] == Spliced(before, dstOffset, PackPixels(pixels)[..writeIdx0])
    modifies dst
    ensures Progress(pixels, p0 + width, outByte, outBits, writeIdx)
    ensures writeIdx <= |PackPixels(pixels)|
    ensures dst[..] == Spliced(before, dstOffset, PackPixels(pixels)[..writeIdx])
  {
    hide Progress, PackPixels, PrefixOfByte;
    outByte, outBits, writeIdx := outByte0, outBits0, writeIdx0;
    ghost var packed := PackPixels(pixels);
    ghost var row := src[rowStart..rowStart + RowStride(width)];
    var x := 0;
    while x < width
      invariant 0 <= x <= width && src[rowStart..rowStart + RowStride(width)] == row
      invariant Progress(pixels, p0 + x, outByte, outBits, writeIdx)
      invariant writeIdx <= |packed| && dst[..] == Spliced(before, dstOffset, packed[..writeIdx])
    {
      var pixel := PixelOfByte(src[rowStart + x / 4], x % 4);
      assert pixel == PixelAt(row, x);
      Advance(pixels, p0 + x, outByte, outBits, writeIdx);
      outByte := (outByte * 4 + pixel) % 256;
      outBits := outBits + 2;
      if outBits == 8 {
        SpliceOneMore(before, dstOffset, packed, writeIdx);
        dst[dstOffset + writeIdx] := outByte;
        writeIdx := writeIdx + 1;
        outByte, outBits := 0, 0;
      }
      x := x + 1;
    }
  }
}
