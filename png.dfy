/**
 * The indexed-PNG writer (src/file.cpp): a 4-bit, colour-type-3 PNG
 * (ISO/IEC 15948, PNG Specification Second Edition) made of the
 * signature and the chunks IHDR, PLTE, IDAT and IEND. The zlib
 * compressor and the CRC-32 routine are foreign code and are parameters
 * here; the output stream is the sequence of bytes written to it.
 */
module PngFile {
  import opened Defs
  import opened Head
  import opened ByteBuffer
  import opened Util

  /** A `uint32_t` value. */
  type U32 = x: int | 0 <= x < 0x1_0000_0000

  datatype Option<T> = None | Some(value: T)

  // ---------------------------------------------------------------------
  // Network byte order (section 7.1 of the PNG Specification)
  // ---------------------------------------------------------------------

  /** `u32_to_8(x)`: the four bytes of `x`, most significant first. */
  function U32ToBytes(x: U32): (b: seq<Byte>)
    ensures |b| == 4
  {
    [x / 0x100_0000, (x / 0x1_0000) % 0x100, (x / 0x100) % 0x100, x % 0x100]
  }

  /** Reads four bytes as a big-endian unsigned 32-bit value. */
  function FromBigEndian(b: seq<Byte>): (x: U32)
    requires |b| == 4
  {
    b[0] as int * 0x100_0000 + b[1] as int * 0x1_0000 + b[2] as int * 0x100 + b[3] as int
  }

  /** Encoding then decoding gives the value back. */
  lemma U32RoundTrip(x: U32)
    ensures FromBigEndian(U32ToBytes(x)) == x
  {
    var b := U32ToBytes(x);
    assert x == (x / 0x100) * 0x100 + x % 0x100;
    assert x / 0x100 == (x / 0x1_0000) * 0x100 + (x / 0x100) % 0x100;
    assert x / 0x1_0000 == (x / 0x100_0000) * 0x100 + (x / 0x1_0000) % 0x100;
  }

  /** Decoding then encoding gives the bytes back, so the encoding is a bijection. */
  lemma BytesRoundTrip(b: seq<Byte>)
    requires |b| == 4
    ensures U32ToBytes(FromBigEndian(b)) == b
  {
    var x := FromBigEndian(b);
    var b0, b1, b2, b3 := b[0] as int, b[1] as int, b[2] as int, b[3] as int;
    ModUnique(x, 0x100_0000, b0, b1 * 0x1_0000 + b2 * 0x100 + b3);
    ModUnique(x, 0x1_0000, b0 * 0x100 + b1, b2 * 0x100 + b3);
    ModUnique(x / 0x1_0000, 0x100, b0, b1);
    ModUnique(x, 0x100, b0 * 0x1_0000 + b1 * 0x100 + b2, b3);
    ModUnique(x / 0x100, 0x100, b0 * 0x100 + b1, b2);
  }

  // ---------------------------------------------------------------------
  // Pixels and palette indices
  // ---------------------------------------------------------------------

  /** `px_from_coord(image, x, y)`: the byte offset of pixel (x, y), row-major. */
  function PxFromCoord(width: int, x: int, y: int): int {
    (y * width + x) * 3
  }

  lemma RowMajorBound(x: int, y: int, w: int, h: int)
    requires 0 <= x < w && 0 <= y < h
    ensures 0 <= y * w + x < w * h
  {
    assert (y + 1) * w == y * w + w;
    MulAtLeast(h - y, w);
    assert (h - y) * w == h * w - y * w;
  }

  /** The pixel `*px_from_coord(image, x, y)`. */
  function PixelAt(img: Img, x: int, y: int): Rgb
    requires WellFormed(img) && 0 <= x < img.width && 0 <= y < img.height
  {
    RowMajorBound(x, y, img.width, img.height);
    var o := PxFromCoord(img.width, x, y);
    Rgb(img.data[o], img.data[o + 1], img.data[o + 2])
  }

  /**
   * The pixel at (x, y) is pixel number `y * width + x` of the image's
   * data viewed as an array of pixels.
   */
  lemma PixelAtIsRowMajor(img: Img, x: int, y: int)
    requires WellFormed(img) && 0 <= x < img.width && 0 <= y < img.height
    ensures 0 <= y * img.width + x < img.width * img.height
    ensures PixelAt(img, x, y) == BytesToRgb(img.data, img.width * img.height)[y * img.width + x]
  {
    RowMajorBound(x, y, img.width, img.height);
  }

  /**
   * `std::find(palette, palette + 16, c) - palette`: the first position
   * holding `c`, or 16 when the palette does not hold it.
   */
  function PaletteIndex(palette: Palette, c: Rgb): (k: nat)
    ensures k <= PaletteSize
    ensures k < PaletteSize ==> palette[k] == c
    ensures forall m :: 0 <= m < k ==> palette[m] != c
  {
    FindFrom(palette, c, 0)
  }

  function FindFrom(palette: Palette, c: Rgb, from: nat): (k: nat)
    requires from <= PaletteSize
    requires forall m :: 0 <= m < from ==> palette[m] != c
    ensures from <= k <= PaletteSize
    ensures k < PaletteSize ==> palette[k] == c
    ensures forall m :: 0 <= m < k ==> palette[m] != c
    decreases PaletteSize - from
  {
    if from == PaletteSize then from
    else if RgbEq(palette[from], c) then from
    else FindFrom(palette, c, from + 1)
  }

  /** The palette holds the colour exactly when `std::find` stops before the end. */
  lemma PaletteIndexFound(palette: Palette, c: Rgb)
    ensures PaletteIndex(palette, c) < PaletteSize <==> c in palette
  {
    var k := PaletteIndex(palette, c);
    if c in palette {
      var m :| 0 <= m < |palette| && palette[m] == c;
      assert k <= m;
    }
  }

  // ---------------------------------------------------------------------
  // Scanlines (sections 7.2 and 9.2 of the PNG Specification)
  // ---------------------------------------------------------------------

  /**
   * `(p1 << 4) | p2` stored into an `unsigned char`, for indices up to
   * 16. Index 16 (a colour missing from the palette) has bit 4 set: in
   * the high position it is shifted out of the byte, in the low position
   * it sets the lowest bit of the high nibble.
   */
  function PackPair(hi: nat, lo: nat): (b: Byte)
    requires hi <= PaletteSize && lo <= PaletteSize
  {
    var low := if lo < 16 then lo else if hi % 2 == 1 then 0 else 16;
    (hi * 16 + low) % 256
  }

  /** Two genuine indices occupy the high and the low nibble. */
  lemma PackPairNibbles(hi: nat, lo: nat)
    requires hi < PaletteSize && lo < PaletteSize
    ensures PackPair(hi, lo) / 16 == hi && PackPair(hi, lo) % 16 == lo
  {
  }

  /**
   * A colour missing from the palette in the high position is read back
   * as index 0, the background; in the low position the low nibble reads
   * as 0 and the high nibble may change.
   */
  lemma PackPairMissing(i: nat)
    requires i < PaletteSize
    ensures PackPair(PaletteSize, i) == i && PackPair(PaletteSize, i) / 16 == 0
    ensures PackPair(i, PaletteSize) % 16 == 0
    ensures i % 2 == 0 ==> PackPair(i, PaletteSize) / 16 == i + 1
  {
  }

  /** `length`: one filter byte plus one byte per two pixels, rounded up. */
  function RowLength(width: nat): nat {
    (width + width % 2) / 2 + 1
  }

  /** The palette index of every pixel of row `y`. */
  function RowIndices(img: Img, y: int): (idx: seq<nat>)
    requires WellFormed(img) && 0 <= y < img.height
    ensures |idx| == img.width
    ensures forall x :: 0 <= x < img.width ==> idx[x] == PaletteIndex(img.palette, PixelAt(img, x, y))
  {
    seq(img.width, x requires 0 <= x < img.width => PaletteIndex(img.palette, PixelAt(img, x, y)))
  }

  /**
   * A scanline for the palette indices `idx`: filter type 0, then byte
   * `t` packing pixels `2t` and `2t + 1`; for an odd width the last byte
   * holds the last pixel in its high nibble and 0 in the low one.
   */
  function PackRow(idx: seq<nat>): (row: seq<Byte>)
    requires forall x :: 0 <= x < |idx| ==> idx[x] <= PaletteSize
    ensures |row| == RowLength(|idx|)
  {
    var w := |idx|;
    [0] + seq(RowLength(w) - 1, t requires 0 <= t < RowLength(w) - 1 =>
      PackPair(idx[2 * t], if 2 * t + 1 < w then idx[2 * t + 1] else 0))
  }

  /** Scanline `y` of the image. */
  function Row(img: Img, y: int): (row: seq<Byte>)
    requires WellFormed(img) && 0 <= y < img.height
    ensures |row| == RowLength(img.width)
  {
    PackRow(RowIndices(img, y))
  }

  /** Every scanline of the image, in order. */
  function AllRows(img: Img): (rows: seq<seq<Byte>>)
    requires WellFormed(img)
    ensures |rows| == img.height
    ensures forall y :: 0 <= y < img.height ==> rows[y] == Row(img, y)
  {
    seq(img.height, y requires 0 <= y < img.height => Row(img, y))
  }

  /** The filtered image data handed to the compressor. */
  function Scanlines(img: Img): seq<Byte>
    requires WellFormed(img)
  {
    Concat(AllRows(img))
  }

  /**
   * The image data is `height * length` bytes, and scanline `y` occupies
   * bytes `[y * length, (y + 1) * length)`.
   */
  lemma ScanlinesLayout(img: Img, y: int)
    requires WellFormed(img) && 0 <= y < img.height
    ensures |Scanlines(img)| == img.height * RowLength(img.width)
    ensures (y + 1) * RowLength(img.width) <= |Scanlines(img)|
    ensures Scanlines(img)[y * RowLength(img.width)..(y + 1) * RowLength(img.width)] == Row(img, y)
  {
    ConcatBlock(AllRows(img), RowLength(img.width), y);
  }

  /** Reading a scanline back: the high nibble for even x, the low one for odd x. */
  function UnpackRow(row: seq<Byte>, width: nat): (idx: seq<nat>)
    requires |row| == RowLength(width)
    ensures |idx| == width
  {
    seq(width, x requires 0 <= x < width => if x % 2 == 0 then row[1 + x / 2] / 16 else row[1 + x / 2] % 16)
  }

  /** Unpacking a packed scanline of genuine indices gives the indices back. */
  lemma UnpackPackRow(idx: seq<nat>)
    requires forall x :: 0 <= x < |idx| ==> idx[x] < PaletteSize
    ensures PackRow(idx)[0] == 0
    ensures UnpackRow(PackRow(idx), |idx|) == idx
  {
    var w := |idx|;
    var row := PackRow(idx);
    var back := UnpackRow(row, w);
    forall x | 0 <= x < w
      ensures back[x] == idx[x]
    {
      var t := x / 2;
      var lo := if 2 * t + 1 < w then idx[2 * t + 1] else 0;
      assert row[1 + t] == PackPair(idx[2 * t], lo);
      PackPairNibbles(idx[2 * t], lo);
      if x % 2 == 0 {
        assert x == 2 * t;
      } else {
        assert x == 2 * t + 1;
      }
    }
  }

  /**
   * When every pixel of row `y` is in the palette, the scanline starts
   * with filter type 0 and decodes, through the palette, to exactly the
   * pixels of the row.
   */
  lemma RowDecodes(img: Img, y: int)
    requires WellFormed(img) && 0 <= y < img.height
    requires forall x :: 0 <= x < img.width ==> PixelAt(img, x, y) in img.palette
    ensures Row(img, y)[0] == 0
    ensures UnpackRow(Row(img, y), img.width) == RowIndices(img, y)
    ensures forall x :: 0 <= x < img.width ==>
      img.palette[UnpackRow(Row(img, y), img.width)[x]] == PixelAt(img, x, y)
  {
    var idx := RowIndices(img, y);
    forall x | 0 <= x < img.width
      ensures idx[x] < PaletteSize
    {
      PaletteIndexFound(img.palette, PixelAt(img, x, y));
    }
    UnpackPackRow(idx);
  }

  // ---------------------------------------------------------------------
  // Building the scanlines and compressing them
  // ---------------------------------------------------------------------

  /** What the compressor leaves in an output window of `avail` bytes: the stream, or nothing. */
  function Compressed(stream: seq<Byte>, avail: nat): (c: seq<Byte>)
    ensures |c| <= avail
    ensures c == stream || c == []
    ensures c == stream <==> |stream| <= avail
  {
    if |stream| <= avail then stream else []
  }

  /**
   * `libdeflate_zlib_compress(compressor, in, n, out + at, avail)`, with
   * `zlib(input)` the stream the library produces: when it fits in
   * `avail` bytes it is written at `at` and its length returned,
   * otherwise 0 is returned. The call requires the whole window
   * `[at, at + avail)` to lie inside `out`; nothing outside it changes.
   */
  method ZlibCompress(zlib: seq<Byte> -> seq<Byte>, input: seq<Byte>, out: array<Byte>, at: nat, avail: nat)
    returns (m: nat)
    requires at + avail <= out.Length
    modifies out
    ensures m == |Compressed(zlib(input), avail)|
    ensures out[at..at + m] == Compressed(zlib(input), avail)
    ensures out[..at] == old(out[..at]) && out[at + avail..] == old(out[at + avail..])
  {
    var stream := zlib(input);
    if |stream| <= avail {
      forall k | at <= k < at + |stream| {
        out[k] := stream[k - at];
      }
      m := |stream|;
    } else {
      m := 0;
    }
  }

  /** The index write `lines[j / 2 + i * length + 1]` stays inside row `i`. */
  lemma RowInBounds(i: int, height: int, length: int, base: int, total: int)
    requires 0 <= i < height && length >= 0
    requires base == i * length && total == height * length
    ensures 0 <= base && base + length <= total
  {
    if i > 0 && length > 0 {
      MulAtLeast(i, length);
    }
    var k := height - i - 1;
    assert total == base + length + k * length by {
      assert height * length == (i + 1 + k) * length;
    }
    if k > 0 && length > 0 {
      MulAtLeast(k, length);
    }
  }

  /** Row `i + 1` starts where row `i` ends. */
  lemma RowStep(row: int, next: int, length: int, base: int, end: int)
    requires next == row + 1 && base == row * length && end == base + length
    ensures end == next * length
  {
  }

  /** The byte packing pixels `2t` and `2t + 1` of row `y` (0 for a missing second pixel). */
  function PairByte(img: Img, y: int, t: int): Byte
    requires WellFormed(img) && 0 <= y < img.height && 0 <= 2 * t < img.width
  {
    PackPair(
      PaletteIndex(img.palette, PixelAt(img, 2 * t, y)),
      if 2 * t + 1 < img.width then PaletteIndex(img.palette, PixelAt(img, 2 * t + 1, y)) else 0)
  }

  /** Byte `1 + t` of a packed row packs indices `2t` and `2t + 1` (0 past the end). */
  lemma PackRowByte(idx: seq<nat>, t: int)
    requires forall x :: 0 <= x < |idx| ==> idx[x] <= PaletteSize
    requires 0 <= t < RowLength(|idx|) - 1
    ensures 2 * t < |idx|
    ensures PackRow(idx)[1 + t] == PackPair(idx[2 * t], if 2 * t + 1 < |idx| then idx[2 * t + 1] else 0)
  {
    var half := RowShape(|idx|);
  }

  /** Byte `1 + t` of scanline `y` is the pair byte `t`. */
  lemma RowByte(img: Img, y: int, t: int)
    requires WellFormed(img) && 0 <= y < img.height && 0 <= t < RowLength(img.width) - 1
    ensures 2 * t < img.width
    ensures Row(img, y)[1 + t] == PairByte(img, y, t)
  {
    PackRowByte(RowIndices(img, y), t);
  }

  /**
   * One pass of the outer loop of `put_scanlines`: scanline `i` at
   * `base == i * length`.
   */
  method WriteRow(img: Img, lines: array<Byte>, i: int, base: nat, ghost end: nat)
    requires WellFormed(img) && 0 <= i < img.height
    requires end == base + RowLength(img.width) <= lines.Length
    modifies lines
    ensures lines[..base] == old(lines[..base])
    ensures lines[base..end] == Row(img, i)
  {
    ghost var length := RowLength(img.width);
    var odd := img.width % 2;
    var count := img.width - odd;
    ghost var half := RowShape(img.width);
    lines[base] := 0;
    ghost var pairs := seq(half, t requires 0 <= t < half => PairByte(img, i, t));
    WritePairs(img, lines, i, base, count, pairs);
    if odd == 1 {
      WriteLast(img, lines, i, base, count, half);
    }
    ghost var after := lines[..];
    assert forall t :: 0 <= t < half ==> after[base + 1 + t] == pairs[t];
    RowWritten(img, i, after, base, end, half);
    assert lines[..base] == old(lines[..base]);
  }

  /**
   * Filter byte 0 at `base`, the pair bytes after it and, for an odd
   * width, the last pixel's byte make `[base, end)` scanline `y`.
   */
  lemma RowWritten(img: Img, y: int, s: seq<Byte>, base: nat, end: nat, half: nat)
    requires WellFormed(img) && 0 <= y < img.height
    requires img.width - img.width % 2 == 2 * half && RowLength(img.width) == 1 + half + img.width % 2
    requires end == base + RowLength(img.width) <= |s|
    requires s[base] == 0
    requires forall t :: 0 <= t < half ==> s[base + 1 + t] == PairByte(img, y, t)
    requires img.width % 2 == 1 ==> 2 * half < img.width && s[base + 1 + half] == PairByte(img, y, half)
    ensures s[base..end] == Row(img, y)
  {
    var written := s[base..end];
    forall t | 0 <= t < |written| - 1
      ensures 2 * t < img.width && written[1 + t] == PairByte(img, y, t)
    {
      assert written[1 + t] == s[base + 1 + t];
    }
    RowFromPairs(img, y, written);
  }

  /** A filter byte 0 followed by the pair bytes of row `y`, in order, is scanline `y`. */
  lemma RowFromPairs(img: Img, y: int, s: seq<Byte>)
    requires WellFormed(img) && 0 <= y < img.height
    requires |s| == RowLength(img.width) && s[0] == 0
    requires forall t :: 0 <= t < |s| - 1 ==> 2 * t < img.width && s[1 + t] == PairByte(img, y, t)
    ensures s == Row(img, y)
  {
    forall k | 0 < k < |s|
      ensures s[k] == Row(img, y)[k]
    {
      RowByte(img, y, k - 1);
    }
  }

  /** The row length in terms of the even pixel count `2 * half` and the odd last pixel. */
  lemma RowShape(width: nat) returns (half: nat)
    ensures width - width % 2 == 2 * half
    ensures RowLength(width) == 1 + half + width % 2
  {
    half := width / 2;
  }

  /** The pixel-pair loop of one scanline: byte `1 + j / 2` packs pixels `j` and `j + 1`. */
  method WritePairs(img: Img, lines: array<Byte>, i: int, base: nat, count: int, ghost pairs: seq<Byte>)
    requires WellFormed(img) && 0 <= i < img.height
    requires count == 2 * |pairs| && count <= img.width
    requires forall t :: 0 <= t < |pairs| ==> pairs[t] == PairByte(img, i, t)
    requires base + 1 + |pairs| <= lines.Length
    modifies lines
    ensures forall k :: 0 <= k < lines.Length && !(base + 1 <= k < base + 1 + |pairs|) ==> lines[k] == old(lines[k])
    ensures forall k :: base + 1 <= k < base + 1 + |pairs| ==> lines[k] == pairs[k - base - 1]
  {
    var j := 0;
    ghost var t := 0;
    while j < count
      invariant 0 <= t <= |pairs| && j == 2 * t
      invariant forall k :: 0 <= k < lines.Length ==>
        lines[k] == if base + 1 <= k < base + 1 + t then pairs[k - base - 1] else old(lines[k])
    {
      WritePair(img, lines, i, base, j, t);
      assert lines[base + 1 + t] == pairs[t];
      j := j + 2;
      t := t + 1;
    }
  }

  /** One pass of the pixel-pair loop: pixels `j` and `j + 1` packed into byte `1 + j / 2`. */
  method WritePair(img: Img, lines: array<Byte>, i: int, base: nat, j: int, ghost t: nat)
    requires WellFormed(img) && 0 <= i < img.height
    requires j == 2 * t && j + 1 < img.width
    requires base + 1 + t < lines.Length
    modifies lines
    ensures lines[base + 1 + t] == PairByte(img, i, t)
    ensures forall k :: 0 <= k < lines.Length && k != base + 1 + t ==> lines[k] == old(lines[k])
  {
    var p1 := PaletteIndex(img.palette, PixelAt(img, j, i));
    var p2 := PaletteIndex(img.palette, PixelAt(img, j + 1, i));
    assert j / 2 == t;
    lines[j / 2 + base + 1] := PackPair(p1, p2);
  }

  /** The odd last pixel: its index in the high nibble of the row's last byte, 0 in the low one. */
  method WriteLast(img: Img, lines: array<Byte>, i: int, base: nat, count: int, ghost half: nat)
    requires WellFormed(img) && 0 <= i < img.height
    requires count == 2 * half && count + 1 == img.width
    requires base + 1 + half < lines.Length
    modifies lines
    ensures lines[base + 1 + half] == PairByte(img, i, half)
    ensures forall k :: 0 <= k < lines.Length && k != base + 1 + half ==> lines[k] == old(lines[k])
  {
    var p1 := PaletteIndex(img.palette, PixelAt(img, count, i));
    assert count / 2 == half;
    lines[count / 2 + base + 1] := PackPair(p1, 0);
  }

  /**
   * The scanline loops of `put_scanlines`: the filter byte of row `i`,
   * then one packed byte per pixel pair, then the odd last pixel.
   */
  method BuildScanlines(img: Img) returns (lines: array<Byte>)
    requires WellFormed(img)
    ensures fresh(lines)
    ensures lines[..] == Scanlines(img)
  {
    var odd := img.width % 2;
    var length := (img.width + odd) / 2 + 1;
    assert length == RowLength(img.width);
    var bytes := img.height * length;
    lines := new Byte[bytes];
    ghost var rows := AllRows(img);
    ConcatLength(rows, length);
    var i := 0;
    ghost var done := 0;
    while i < img.height
      invariant 0 <= i <= img.height
      invariant done == i * length && 0 <= done <= bytes
      invariant lines[..done] == Concat(rows[..i])
    {
      var base := i * length;
      RowInBounds(i, img.height, length, base, bytes);
      ghost var end := base + length;
      WriteRow(img, lines, i, base, end);
      ghost var row := i;
      done := end;
      i := i + 1;
      RowStep(row, i, length, base, done);
      ConcatExtend(lines[..], rows, row, base, length, i, done);
    }
    assert rows[..img.height] == rows;
    assert done == bytes;
  }

  /**
   * `put_scanlines` with the compressor offered the `size() - 4` bytes
   * that follow the chunk type: on return the buffer holds the 4 type
   * bytes followed by the zlib stream of the scanlines, or by nothing
   * when the stream does not fit.
   */
  method PutScanlines(img: Img, buf: Buffer, zlib: seq<Byte> -> seq<Byte>)
    requires WellFormed(img) && buf.Valid() && buf.len >= 4
    modifies buf
    ensures buf.Valid() && buf.pos == 0 && buf.buf != null && fresh(buf.buf)
    ensures buf.Bytes() == old(buf.Bytes())[..4] + Compressed(zlib(Scanlines(img)), |Scanlines(img)|)
  {
    ghost var tag := buf.Bytes()[..4];
    var lines := BuildScanlines(img);
    var bytes := lines.Length;
    buf.Alloc(bytes + 4);
    assert buf.Bytes()[..4] == tag;
    var out := buf.Data();
    var m := ZlibCompress(zlib, lines[..], out, 4, buf.Size() - 4);
    ghost var z := Compressed(zlib(Scanlines(img)), |Scanlines(img)|);
    assert buf.Bytes()[..m + 4] == tag + z by {
      assert buf.Bytes()[..4] == tag;
      assert buf.Bytes()[4..m + 4] == z;
    }
    buf.Alloc(m + 4);
  }

  /**
   * The output window `put_scanlines` offers as written: `buf.size()`,
   * the whole `bytes + 4`-byte buffer, although the window starts at
   * byte 4 of it.
   */
  function OfferedAsWritten(bytes: nat): (avail: nat)
    ensures 4 + avail > bytes + 4
  {
    bytes + 4
  }

  /**
   * A stream 1 to 4 bytes longer than the scanline data fits the window
   * as written, so the compressor writes it from byte 4 to past the end
   * of the `bytes + 4`-byte buffer; the `size() - 4` window of
   * `PutScanlines` refuses it and the buffer keeps only the tag.
   */
  lemma ScanlinesWindowOverrun(stream: seq<Byte>, bytes: nat)
    requires bytes < |stream| <= bytes + 4
    ensures Compressed(stream, OfferedAsWritten(bytes)) == stream
    ensures 4 + |Compressed(stream, OfferedAsWritten(bytes))| > bytes + 4
    ensures Compressed(stream, bytes) == []
  {
  }

  // ---------------------------------------------------------------------
  // Chunks (section 5.3 of the PNG Specification)
  // ---------------------------------------------------------------------

  const Two32: nat := 0x1_0000_0000

  /** `(uint32_t)buf.size() - 4`, computed in `uint32_t` arithmetic. */
  function LengthField(size: nat): U32 {
    (size % Two32 - 4) % Two32
  }

  /** For every size a 32-bit length can describe, the field is the payload length. */
  lemma LengthFieldIsPayload(size: nat)
    requires 4 <= size < Two32
    ensures LengthField(size) == size - 4
  {
  }

  /**
   * What `write_chunk` emits for a buffer holding `body` (chunk type and
   * payload): nothing when it is shorter than 4 bytes, else the payload
   * length, the body, and the CRC of the body, both big-endian.
   */
  function Chunk(body: seq<Byte>, crc: seq<Byte> -> U32): seq<Byte> {
    if |body| < 4 then []
    else U32ToBytes(LengthField(|body|)) + body + U32ToBytes(crc(body))
  }

  /**
   * Reads one chunk from the front of `bytes`: its type and payload and
   * what follows it, or nothing when the bytes are too short or the CRC
   * does not match.
   */
  function ParseChunk(bytes: seq<Byte>, crc: seq<Byte> -> U32): (r: Option<(seq<Byte>, seq<Byte>)>)
    ensures r.Some? ==> |r.value.0| >= 4 && |r.value.1| < |bytes|
  {
    if |bytes| < 12 then None
    else
      var len := FromBigEndian(bytes[..4]);
      if |bytes| < 12 + len then None
      else
        var body := bytes[4..8 + len];
        if FromBigEndian(bytes[8 + len..12 + len]) != crc(body) then None
        else Some((body, bytes[12 + len..]))
  }

  /** A written chunk reads back as the body it was written from. */
  lemma ChunkRoundTrip(body: seq<Byte>, crc: seq<Byte> -> U32, rest: seq<Byte>)
    requires 4 <= |body| < Two32
    ensures ParseChunk(Chunk(body, crc) + rest, crc) == Some((body, rest))
  {
    var bytes := Chunk(body, crc) + rest;
    var len := |body| - 4;
    LengthFieldIsPayload(|body|);
    U32RoundTrip(len);
    U32RoundTrip(crc(body));
    assert bytes[..4] == U32ToBytes(len);
    assert bytes[4..8 + len] == body;
    assert bytes[8 + len..12 + len] == U32ToBytes(crc(body));
    assert bytes[12 + len..] == rest;
  }

  /** Reads chunks until the bytes run out; nothing if one of them fails to read. */
  function ParseChunks(bytes: seq<Byte>, crc: seq<Byte> -> U32): Option<seq<seq<Byte>>>
    decreases |bytes|
  {
    if bytes == [] then Some([])
    else match ParseChunk(bytes, crc)
      case None => None
      case Some((body, rest)) =>
        match ParseChunks(rest, crc)
        case None => None
        case Some(bodies) => Some([body] + bodies)
  }

  /**
   * `write_chunk`: the bytes written to the stream for the current
   * buffer.
   */
  method WriteChunk(buf: Buffer, crc: seq<Byte> -> U32) returns (written: seq<Byte>)
    requires buf.Valid()
    ensures written == Chunk(buf.Bytes(), crc)
  {
    if buf.Size() < 4 {
      return [];
    }
    var data := buf.Data();
    var body := data[..];
    written := U32ToBytes(LengthField(buf.Size())) + body + U32ToBytes(crc(body));
  }

  // ---------------------------------------------------------------------
  // The whole file
  // ---------------------------------------------------------------------

  /** The PNG signature (section 5.2 of the PNG Specification). */
  const Signature: seq<Byte> := [0x89, 0x50, 0x4e, 0x47, 0x0d, 0x0a, 0x1a, 0x0a]

  const IhdrTag: seq<Byte> := [0x49, 0x48, 0x44, 0x52]
  const PlteTag: seq<Byte> := [0x50, 0x4c, 0x54, 0x45]
  const IdatTag: seq<Byte> := [0x49, 0x44, 0x41, 0x54]
  const IendTag: seq<Byte> := [0x49, 0x45, 0x4e, 0x44]

  /** Bit depth 4, colour type 3 (indexed), compression 0, filter 0, no interlace. */
  const IhdrTail: seq<Byte> := [4, 3, 0, 0, 0]

  /** The IHDR buffer: tag, width, height and the five fixed fields. */
  function IhdrBody(img: Img): seq<Byte>
    requires WellFormed(img)
  {
    IhdrTag + U32ToBytes(img.width) + U32ToBytes(img.height) + IhdrTail
  }

  /** The PLTE buffer: tag and the 16 colours, three bytes each. */
  function PlteBody(palette: Palette): seq<Byte> {
    PlteTag + RgbToBytes(palette)
  }

  /** The IDAT buffer: tag and the compressed scanlines (nothing if the stream does not fit). */
  function IdatBody(img: Img, zlib: seq<Byte> -> seq<Byte>): seq<Byte>
    requires WellFormed(img)
  {
    IdatTag + Compressed(zlib(Scanlines(img)), |Scanlines(img)|)
  }

  /** The four chunk bodies of the file, in order. */
  function PngBodies(img: Img, zlib: seq<Byte> -> seq<Byte>): seq<seq<Byte>>
    requires WellFormed(img)
  {
    [IhdrBody(img), PlteBody(img.palette), IdatBody(img, zlib), IendTag]
  }

  /** The bytes `write_image` sends to the file: the signature, then the four chunks. */
  function PngBytes(img: Img, zlib: seq<Byte> -> seq<Byte>, crc: seq<Byte> -> U32): seq<Byte>
    requires WellFormed(img)
  {
    Signature + Chunk(IhdrBody(img), crc) + Chunk(PlteBody(img.palette), crc)
      + Chunk(IdatBody(img, zlib), crc) + Chunk(IendTag, crc)
  }

  /** Fills a fresh 17-byte buffer with the IHDR fields. */
  method PutIhdr(img: Img, buf: Buffer)
    requires WellFormed(img) && buf.Valid()
    modifies buf
    ensures buf.Valid() && buf.buf != null && fresh(buf.buf)
    ensures buf.Bytes() == IhdrBody(img)
  {
    buf.Alloc(17);
    var k := buf.Put(IhdrTag, 4);
    assert buf.Bytes()[..4] == IhdrTag;
    k := buf.Put(U32ToBytes(img.width), 4);
    k := buf.Put(U32ToBytes(img.height), 4);
    k := buf.Put(IhdrTail, 5);
    assert buf.Bytes() == buf.Bytes()[..17];
  }

  /** Fills a fresh 52-byte buffer with the PLTE tag and the palette, one colour at a time. */
  method PutPalette(palette: Palette, buf: Buffer)
    requires buf.Valid()
    modifies buf
    ensures buf.Valid() && buf.buf != null && fresh(buf.buf)
    ensures buf.Bytes() == PlteBody(palette)
  {
    buf.Alloc(52);
    var k := buf.Put(PlteTag, 4);
    ghost var a := buf.buf;
    var i := 0;
    while i < 16
      invariant 0 <= i <= 16
      invariant buf.Valid() && buf.buf == a && a != null && buf.len == 52 && buf.pos == 4 + 3 * i
      invariant buf.Bytes()[..4 + 3 * i] == PlteTag + RgbToBytes(palette[..i])
    {
      PutColour(palette, i, buf);
      i := i + 1;
    }
    assert palette[..16] == palette;
  }

  /** One pass of the PLTE loop: colour `i` appended as its three bytes r, g, b. */
  method PutColour(palette: Palette, i: nat, buf: Buffer)
    requires i < 16 && buf.Valid() && buf.buf != null && buf.len == 52 && buf.pos == 4 + 3 * i
    requires buf.Bytes()[..4 + 3 * i] == PlteTag + RgbToBytes(palette[..i])
    modifies buf, buf.buf
    ensures buf.Valid() && buf.buf == old(buf.buf) && buf.len == 52 && buf.pos == 4 + 3 * (i + 1)
    ensures buf.Bytes()[..4 + 3 * (i + 1)] == PlteTag + RgbToBytes(palette[..i + 1])
  {
    var c := palette[i];
    var k := buf.Put([c.r, c.g, c.b], 3);
    assert k == 3;
    RgbToBytesAppend(palette[..i], c);
    assert palette[..i + 1] == palette[..i] + [c];
  }

  /** Fills a 4-byte buffer with a chunk tag. */
  method PutTag(tag: seq<Byte>, buf: Buffer)
    requires |tag| == 4 && buf.Valid()
    modifies buf
    ensures buf.Valid() && buf.buf != null && fresh(buf.buf) && buf.len == 4
    ensures buf.Bytes() == tag
  {
    buf.Alloc(4);
    var k := buf.Put(tag, 4);
  }

  /**
   * `write_image`: the signature, then IHDR, PLTE, IDAT and IEND, each
   * assembled in the buffer and written by `write_chunk`. The file is
   * exactly `PngBytes`.
   */
  method WriteImage(img: Img, zlib: seq<Byte> -> seq<Byte>, crc: seq<Byte> -> U32) returns (file: seq<Byte>)
    requires WellFormed(img)
    ensures file == PngBytes(img, zlib, crc)
  {
    var buf := new Buffer();
    file := Signature;
    var written := WriteIhdr(img, buf, crc);
    file := file + written;
    written := WritePlte(img.palette, buf, crc);
    file := file + written;
    written := WriteIdat(img, buf, zlib, crc);
    file := file + written;
    written := WriteIend(buf, crc);
    file := file + written;
  }

  /** The IHDR section of `write_image`: fill, write, release. */
  method WriteIhdr(img: Img, buf: Buffer, crc: seq<Byte> -> U32) returns (written: seq<Byte>)
    requires WellFormed(img) && buf.Valid()
    modifies buf
    ensures buf.Valid() && buf.buf == null
    ensures written == Chunk(IhdrBody(img), crc)
  {
    PutIhdr(img, buf);
    written := WriteChunk(buf, crc);
    buf.Dealloc();
  }

  /** The PLTE section of `write_image`: fill, write, release. */
  method WritePlte(palette: Palette, buf: Buffer, crc: seq<Byte> -> U32) returns (written: seq<Byte>)
    requires buf.Valid()
    modifies buf
    ensures buf.Valid() && buf.buf == null
    ensures written == Chunk(PlteBody(palette), crc)
  {
    PutPalette(palette, buf);
    written := WriteChunk(buf, crc);
    buf.Dealloc();
  }

  /** The IDAT section of `write_image`: tag, compressed scanlines, write, release. */
  method WriteIdat(img: Img, buf: Buffer, zlib: seq<Byte> -> seq<Byte>, crc: seq<Byte> -> U32) returns (written: seq<Byte>)
    requires WellFormed(img) && buf.Valid()
    modifies buf
    ensures buf.Valid() && buf.buf == null
    ensures written == Chunk(IdatBody(img, zlib), crc)
  {
    PutTag(IdatTag, buf);
    assert buf.Bytes()[..4] == IdatTag;
    PutScanlines(img, buf, zlib);
    assert buf.Bytes() == IdatBody(img, zlib);
    written := WriteChunk(buf, crc);
    buf.Dealloc();
  }

  /** The IEND section of `write_image`: tag only, write, release. */
  method WriteIend(buf: Buffer, crc: seq<Byte> -> U32) returns (written: seq<Byte>)
    requires buf.Valid()
    modifies buf
    ensures buf.Valid() && buf.buf == null
    ensures written == Chunk(IendTag, crc)
  {
    PutTag(IendTag, buf);
    written := WriteChunk(buf, crc);
    buf.Dealloc();
  }

  /** A written chunk in front of readable chunks reads back as one more body. */
  lemma ParseChunksCons(body: seq<Byte>, crc: seq<Byte> -> U32, rest: seq<Byte>, bodies: seq<seq<Byte>>)
    requires 4 <= |body| < Two32 && ParseChunks(rest, crc) == Some(bodies)
    ensures ParseChunks(Chunk(body, crc) + rest, crc) == Some([body] + bodies)
  {
    ChunkRoundTrip(body, crc, rest);
  }

  /** Four chunks written in a row read back as their four bodies. */
  lemma FourChunksReadBack(b1: seq<Byte>, b2: seq<Byte>, b3: seq<Byte>, b4: seq<Byte>, crc: seq<Byte> -> U32)
    requires 4 <= |b1| < Two32 && 4 <= |b2| < Two32 && 4 <= |b3| < Two32 && 4 <= |b4| < Two32
    ensures ParseChunks(Chunk(b1, crc) + Chunk(b2, crc) + Chunk(b3, crc) + Chunk(b4, crc), crc)
      == Some([b1, b2, b3, b4])
  {
    var c1, c2, c3, c4 := Chunk(b1, crc), Chunk(b2, crc), Chunk(b3, crc), Chunk(b4, crc);
    var none: seq<seq<Byte>> := [];
    var empty: seq<Byte> := [];
    ParseChunksCons(b4, crc, empty, none);
    assert c4 + empty == c4 && [b4] + none == [b4];
    ParseChunksCons(b3, crc, c4, [b4]);
    ParseChunksCons(b2, crc, c3 + c4, [b3] + [b4]);
    ParseChunksCons(b1, crc, c2 + (c3 + c4), [b2] + ([b3] + [b4]));
    Assoc4(c1, c2, c3, c4);
    Cons4(b1, b2, b3, b4);
  }

  /**
   * The file reads back: after the signature come exactly the four
   * chunks IHDR, PLTE, IDAT and IEND, with matching CRCs; IHDR holds the
   * width and the height, PLTE the 16 colours of the palette, and IDAT
   * the zlib stream of the scanlines whenever it fit.
   */
  lemma PngReadsBack(img: Img, zlib: seq<Byte> -> seq<Byte>, crc: seq<Byte> -> U32)
    requires WellFormed(img) && |Scanlines(img)| + 4 < Two32
    ensures PngBytes(img, zlib, crc)[..8] == Signature
    ensures ParseChunks(PngBytes(img, zlib, crc)[8..], crc) == Some(PngBodies(img, zlib))
    ensures IhdrBody(img)[..4] == IhdrTag && IhdrBody(img)[12..] == IhdrTail
    ensures FromBigEndian(IhdrBody(img)[4..8]) == img.width
    ensures FromBigEndian(IhdrBody(img)[8..12]) == img.height
    ensures PlteBody(img.palette)[..4] == PlteTag
    ensures BytesToRgb(PlteBody(img.palette)[4..], PaletteSize) == img.palette
    ensures IdatBody(img, zlib)[..4] == IdatTag
    ensures |zlib(Scanlines(img))| <= |Scanlines(img)| ==> IdatBody(img, zlib)[4..] == zlib(Scanlines(img))
  {
    ChunksReadBack(img, zlib, crc);
    IhdrReadsBack(img);
    PlteReadsBack(img.palette);
  }

  /** The file is the signature followed by the four chunks, in order, each with a good CRC. */
  lemma ChunksReadBack(img: Img, zlib: seq<Byte> -> seq<Byte>, crc: seq<Byte> -> U32)
    requires WellFormed(img) && |Scanlines(img)| + 4 < Two32
    ensures PngBytes(img, zlib, crc)[..8] == Signature
    ensures ParseChunks(PngBytes(img, zlib, crc)[8..], crc) == Some(PngBodies(img, zlib))
  {
    var ihdr, plte, idat := IhdrBody(img), PlteBody(img.palette), IdatBody(img, zlib);
    var c1, c2, c3, c4 := Chunk(ihdr, crc), Chunk(plte, crc), Chunk(idat, crc), Chunk(IendTag, crc);
    DropHead4(Signature, c1, c2, c3, c4);
    FourChunksReadBack(ihdr, plte, idat, IendTag, crc);
  }

  /** The IHDR body carries the width and height big-endian, then bit depth 4 and colour type 3. */
  lemma IhdrReadsBack(img: Img)
    requires WellFormed(img)
    ensures IhdrBody(img)[..4] == IhdrTag && IhdrBody(img)[12..] == IhdrTail
    ensures FromBigEndian(IhdrBody(img)[4..8]) == img.width
    ensures FromBigEndian(IhdrBody(img)[8..12]) == img.height
  {
    var ihdr := IhdrBody(img);
    U32RoundTrip(img.width);
    U32RoundTrip(img.height);
    assert ihdr[4..8] == U32ToBytes(img.width);
    assert ihdr[8..12] == U32ToBytes(img.height);
  }

  /** The PLTE body decodes back to the sixteen palette colours. */
  lemma PlteReadsBack(palette: Palette)
    ensures PlteBody(palette)[..4] == PlteTag
    ensures BytesToRgb(PlteBody(palette)[4..], PaletteSize) == palette
  {
    assert PlteBody(palette)[4..] == RgbToBytes(palette);
    RgbToBytesRoundTrip(palette);
  }
}
