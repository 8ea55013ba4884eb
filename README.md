# pngsquish, modelled in Dafny

pngsquish turns a photographed document into a 16-colour indexed PNG. The
user marks the document's corners in a preview; the program straightens the
quadrilateral with a perspective matrix, paints the background with one colour
using threshold rules in HSV space, quantises the remaining pixels to a
16-entry palette (k-means++ seeding, then Lloyd's k-means), and writes a
4-bit indexed PNG.

This project models the logic of that pipeline and proves what it promises:

- `defs.dfy` (`Defs`), `head.dfy` (`Head`) and `config.dfy` (`Config`): the value
  types. These are pixels, points, quads and palettes, the threshold record and the
  configuration fields the core reads.
- `buffer.dfy` (`ByteBuffer`): the `buffer` class. It holds an array, a capacity and
  a write cursor, and its methods change them in place.
- `png.dfy` (`PngFile`): `file.cpp`.
  - Big-endian 32-bit fields and nibble-packed scanlines with filter byte 0.
  - Chunk framing and the byte layout of the whole file.
  - The compressor and the CRC are function parameters.
  - The file is proved to read back: its signature, then IHDR, PLTE, IDAT and IEND,
    following sections 5.2, 5.3, 7.1, 7.2, 9.2 and 11.2.2 to 11.2.5 of the PNG
    Specification (Second Edition).
- `colour.dfy` (`Colour`), `background.dfy` (`Background`), `quantize.dfy` (`Quantize`)
  and `image.dfy` (`Processing`): `image.cpp`.
  - The HSV conversion and difference, and the most frequent colour.
  - The rule loop that paints the background.
  - k-means++ seeding, with the random draws given as a sequence.
  - The k-means passes.
  - Remapping every pixel to its nearest palette entry.
- `random.dfy` (`Random`): the SplitMix-style generator of `random.cpp` and
  `random.hpp`.
  - The state step and the mixers.
  - The bounded rejection draws, proved unbiased, or biased for the header's variant.
  - The weighted scan.
- `matrix.dfy` (`Matrix`), `matrix_array.dfy` (`MatrixArray`), `projective.dfy`
  (`Projective`), `heckbert.dfy` (`Heckbert`) and `perspective.dfy` (`Perspective`):
  `matrix.cpp`, `matrix.hpp` and `persp_matrix`. This covers:
  - the matrix constructors and operators, and the loops that fill the buffer;
  - the adjugate, the determinant and the inverse;
  - the projective divide;
  - Heckbert's square-to-quad mapping, proved to send the unit square's corners to
    the quad's corners.
- `preview.dfy` (`Preview`): `fix_quad`, and the vertex deque of the preview's click
  handler, modelled as a class whose click keeps a proved invariant.
- `gui.dfy` (`Gui`) and `program.dfy` (`Program`): `has_ext`, the threshold-list
  buttons, and the exit status of `main`.
- `util.dfy` (`Util`): arithmetic and sequence helpers.

Floating-point values (`float`, `double`) are modelled as `real`. Colour
distances and means are integers, as the byte arithmetic makes them.

## Model

| member | source | states |
|---|---|---|
| Defs.RgbEq | inc/defs.hpp:16-18 | `rgb ==` holds exactly when the two colours are the same value (all three components agree) |
| Defs.RgbToBytes | inc/defs.hpp:13-14 | a pixel array occupies three bytes per pixel, r, g, b in that order, with no padding |
| Defs.BytesToRgb | inc/defs.hpp:20-27 | `bytes_to_rgb` yields `count` pixels, pixel i made of bytes 3i, 3i+1, 3i+2 |
| Defs.BytesToRgbRoundTrip | inc/defs.hpp:20-27 | reinterpreting 3·count bytes as pixels changes no byte: the bytes of the pixels are the original bytes |
| Defs.RgbToBytesRoundTrip | inc/defs.hpp:13-14 | the other direction: the pixels read from a pixel array's bytes are the same pixels |
| Defs.PointEq | inc/defs.hpp:30 | `point ==` holds exactly when x and y both agree |
| Defs.InvalidPointIsOutside | inc/defs.hpp:31 | the sentinel `(-FLT_MAX, 0)` equals no point of the unit square |
| Head.RgbNe | src/head.hpp:40-42 | `rgb_t !=` is exactly the negation of `==` |
| ByteBuffer.Buffer.constructor | src/buffer.hpp:26 | the default buffer is null with capacity and cursor 0 |
| ByteBuffer.Buffer.SizedInline | src/buffer.hpp:28-30 | `buffer(len)` of the inline generation always allocates `len` bytes, cursor 0 |
| ByteBuffer.Buffer.Sized | inc/buffer.hpp:28-30 | `buffer(len)` allocates only for `len != 0`; capacity `len`, cursor 0 |
| ByteBuffer.Buffer.Put | src/buffer.cpp:5-12 | a null buffer takes nothing. Otherwise exactly `min(len - pos, count)` bytes are copied to the cursor and the cursor advances by that much. The bytes before and after that range and the capacity stay. `pos <= len` is preserved. |
| ByteBuffer.Buffer.PutByte | src/buffer.cpp:14-19 | refuses (0) when null or full; otherwise stores the byte at the cursor, advances it and returns 1; nothing else changes |
| ByteBuffer.Buffer.Alloc | src/buffer.cpp:21-33 | new array of `count` bytes, first `min(old len, count)` bytes kept, cursor always 0 |
| ByteBuffer.Buffer.Dealloc | src/buffer.cpp:35-41 | back to null, capacity 0, cursor 0, whatever the state before (so a second call is harmless) |
| ByteBuffer.Buffer.Data | inc/buffer.hpp:36-38 | `data()` is the array itself and changes nothing |
| ByteBuffer.Buffer.Size | inc/buffer.hpp:40-42 | `size()` is the capacity, the number of bytes held, not the cursor |
| ByteBuffer.Buffer.Offset | inc/buffer.hpp:44-46 | `offset(c)` sets the cursor to `c` and yields position `c`, keeping `pos <= len` for `c <= len` |
| PngFile.U32RoundTrip | src/file.cpp:39-44 | decoding the four bytes of `u32_to_8(x)` big-endian gives `x` back |
| PngFile.BytesRoundTrip | src/file.cpp:39-44 | encoding the big-endian value of four bytes gives the bytes back: the encoding is a bijection |
| PngFile.PixelAtIsRowMajor | src/file.cpp:47-49 | `px_from_coord(x, y)` addresses pixel number `y * width + x` of the data viewed as pixels, and it lies inside the image |
| PngFile.PaletteIndex | src/file.cpp:61-62 | the index is the first palette position holding the colour (duplicates resolve to the lowest), or 16 when none does |
| PngFile.PaletteIndexFound | src/file.cpp:61-62 | the index is below 16 exactly when the palette holds the colour |
| PngFile.PackPairNibbles | src/file.cpp:67 | for two genuine indices the byte's high nibble is the first and its low nibble the second |
| PngFile.PackPairMissing | src/file.cpp:61-67 | index 16 (a colour missing from the palette) corrupts the byte. In the high position it reads back as index 0. In the low position the low nibble reads 0 and an even high index reads back one larger. |
| PngFile.RowIndices | src/file.cpp:58-75 | row y's indices are the palette index of each of its `width` pixels, in order |
| PngFile.PackRow | src/file.cpp:55-75 | a scanline has length `(width + odd) / 2 + 1` |
| PngFile.PackRowByte | src/file.cpp:60-75 | byte `1 + t` of a scanline packs pixels `2t` and `2t + 1`, with low nibble 0 for the odd last pixel |
| PngFile.UnpackPackRow | src/file.cpp:59-75 | a scanline starts with filter byte 0 and, read back nibble by nibble, gives every index back |
| PngFile.RowDecodes | src/file.cpp:58-75 | when every pixel of a row is in the palette, its scanline has filter type 0 and decodes through the palette to exactly the row's pixels |
| PngFile.ScanlinesLayout | src/file.cpp:55-59 | the data is `height * length` bytes and scanline y occupies `[y * length, (y + 1) * length)` |
| PngFile.BuildScanlines | src/file.cpp:56-76 | the nested loops fill the new array with exactly the scanlines of the image |
| PngFile.WriteRow | src/file.cpp:58-76 | one outer pass writes scanline i at `i * length` and leaves the earlier rows alone |
| PngFile.WritePairs | src/file.cpp:60-71 | the pair loop writes byte `1 + j/2` as the packed pair j, j+1 and nothing else |
| PngFile.WritePair | src/file.cpp:61-67 | one pair packed into its byte, every other byte unchanged |
| PngFile.WriteLast | src/file.cpp:72-75 | for an odd width the last byte is the last pixel's index shifted into the high nibble |
| PngFile.Compressed | src/file.cpp:78 | the compressor leaves its whole stream when it fits in the window, else nothing (return value 0) |
| PngFile.ZlibCompress | src/file.cpp:78 | the returned length and the written bytes are the fitting stream, and no byte outside the window changes |
| PngFile.PutScanlines | src/file.cpp:77-78 | the buffer ends with the 4 chunk-type bytes kept through both `alloc`s, followed by the zlib stream of the scanlines, or by nothing when it does not fit. The cursor is 0. (Corrected window of `buf.size() - 4` bytes; the window as written is `PngFile.ScanlinesWindowOverrun`.) |
| PngFile.OfferedAsWritten | src/file.cpp:78 | the window as written, `buf.size()` bytes starting at byte 4, reaches past the end of the buffer |
| PngFile.ScanlinesWindowOverrun | src/file.cpp:77-78 | a stream 1 to 4 bytes longer than the scanline data fits the window as written, so it is written past the end of the buffer; the corrected window refuses it |
| PngFile.LengthFieldIsPayload | src/file.cpp:84 | `(uint32_t)buf.size() - 4` is the payload length for every size from 4 to 2^32 - 1 |
| PngFile.ParseChunk | src/file.cpp:81-87 | the reader of one chunk: a result always has a body of at least 4 bytes and consumes input |
| PngFile.ChunkRoundTrip | src/file.cpp:81-87 | a chunk written by `write_chunk` reads back as its type and payload, with matching CRC, and leaves what follows untouched |
| PngFile.WriteChunk | src/file.cpp:81-87 | `write_chunk` emits nothing for fewer than 4 bytes, else the length, the bytes and their CRC, both big-endian |
| PngFile.PutIhdr | src/file.cpp:104-108 | the IHDR buffer holds the tag, the width and height big-endian and 4, 3, 0, 0, 0 |
| PngFile.PutPalette | src/file.cpp:112-115 | the PLTE buffer holds the tag and the 16 colours as r, g, b |
| PngFile.PutColour | src/file.cpp:114-115 | one pass of the PLTE loop appends colour i's three bytes after the earlier ones |
| PngFile.PutTag | src/file.cpp:119-120 | a 4-byte buffer holding exactly the chunk type |
| PngFile.WriteIhdr | src/file.cpp:103-110 | the IHDR section writes the IHDR chunk and releases the buffer |
| PngFile.WritePlte | src/file.cpp:111-117 | the PLTE section writes the PLTE chunk and releases the buffer |
| PngFile.WriteIdat | src/file.cpp:118-123 | the IDAT section writes the chunk of the tag and the compressed scanlines and releases the buffer |
| PngFile.WriteIend | src/file.cpp:124-128 | the IEND section writes a chunk with empty payload and releases the buffer |
| PngFile.WriteImage | src/file.cpp:89-128 | the file is exactly the signature followed by the four chunks |
| PngFile.PngReadsBack | src/file.cpp:102-128 | the file reads back as: the signature; then exactly IHDR (width, height, 4, 3, 0, 0, 0), PLTE (the 16 colours) and IDAT (the stream whenever it fits), each with a good CRC; then IEND |
| PngFile.ChunksReadBack | src/file.cpp:102-128 | after the 8-byte signature the bytes parse as exactly the four chunk bodies |
| PngFile.IhdrReadsBack | src/file.cpp:104-108 | the IHDR body decodes back to the width and the height, then bit depth 4 and colour type 3 |
| PngFile.PlteReadsBack | src/file.cpp:112-115 | the PLTE body decodes back to the sixteen palette colours |
| Colour.ToHsvRange | src/image.cpp:15-28 | `to_hsv` lands in the HSV cube. The hue is in [0, 360) and saturation and value are in [0, 1]. The value is the largest channel over 255. Saturation is 0 exactly for greys, and a grey has hue 0. |
| Colour.PrimaryHues | src/image.cpp:15-28 | pure red, green and blue get hues 0, 120 and 240 at full saturation |
| Colour.HsvDiffProperties | src/image.cpp:30-35 | the difference is symmetric and zero on equal colours; for hues in range the hue difference is the circular `min(|Δh|, 360 - |Δh|)`, within [0, 180] |
| Colour.Dist2Properties | src/image.cpp:149-152 | `dist2` is symmetric, non-negative, at most 3·255², and 0 exactly on equal colours |
| Colour.WiderMatches | src/image.cpp:72-77 | raising any of a rule's hue, saturation or value tolerances (same mode) never stops it matching a pixel it matched |
| Colour.RangeMatchIsCompareMatch | src/image.cpp:72-77 | a pixel that passes a rule in range mode (value within the tolerance on both sides) also passes it in compare mode, for light and dark backgrounds |
| Background.KeyInjective | src/image.cpp:55 | distinct colours have distinct map keys, so the map counts colours |
| Background.KeyParts | src/image.cpp:55 | the key is the three bytes as base-256 digits and they can be read back |
| Background.TallyIsBackground | src/image.cpp:48-65 | the counting scan ends with a background colour: none more frequent, the first in scan order to reach the maximum count, black for no pixels |
| Background.BackgroundUnique | src/image.cpp:48-65 | that definition leaves no choice: at most one colour is a background |
| Background.ScanBackground | src/image.cpp:48-65 | the counting loop returns the background of the pixels |
| Background.FirstMatch | src/image.cpp:71-90 | the rule loop reports a match exactly when some rule of the list matches |
| Background.MaskedPaintsOnly | src/image.cpp:68-91 | every output pixel is its input or the paint colour; no rules leave the image unchanged; once some rule has non-negative tolerances, every pixel equal to the background is painted |
| Background.MaskedIgnoresEnabled | src/image.cpp:68-91 | masking never reads a rule's `enabled` flag: rule lists differing only there mask every image alike |
| Background.BackgroundMatches | src/image.cpp:72-77 | a background pixel matches every rule whose tolerances are non-negative, in every mode |
| Quantize.NearestUnique | src/image.cpp:229-237 | the nearest entry (lowest on ties) is determined: two qualifying candidates coincide |
| Quantize.LeadsStep | src/image.cpp:233-236 | the scan replaces its candidate exactly when the next entry is strictly closer, and the candidate stays nearest so far |
| Quantize.ClosestIsNearest | src/image.cpp:229-237 | no colour is nearer than the one found, and every one before it is strictly farther |
| Quantize.NearestIsNearest | src/image.cpp:229-237 | the chosen entry of `lo..15` is nearest, and the lowest such on ties |
| Quantize.FindNearest | src/image.cpp:229-237 | the entry loop, starting from `FLT_MAX`, returns the nearest entry, lowest on ties |
| Quantize.RemapInPalette | src/image.cpp:227-241 | after remapping every pixel is a palette colour, and a foreground pixel gets the colour closest to it |
| Quantize.RemapIdempotent | src/image.cpp:227-241 | remapping a pixel twice is remapping it once |
| Quantize.RemapAllAt | src/image.cpp:227-241 | position i of the remapped image is pixel i remapped |
| Quantize.RemapAllIdempotent | src/image.cpp:254-268 | remapping a whole image twice equals once: `use_palette` is idempotent |
| Quantize.ForegroundExact | src/image.cpp:216-220 | the foreground lists exactly the positions of non-background pixels, each once, in increasing order |
| Quantize.CollectForeground | src/image.cpp:216-220 | the collection loop yields the foreground |
| Quantize.SampleCount | src/image.cpp:222 | the sample size is `min(foreground size, sampled)`, a negative setting not limiting it |
| Quantize.RoundedMean | src/image.cpp:205-207 | the rounded mean is the nearest integer, halves up, and a mean of bytes is a byte |
| Quantize.CentroidWithin | src/image.cpp:193-208 | a centroid lies within the bounding box of its samples' channels; one colour's centroid is that colour; an empty entry keeps its colour |
| Quantize.SumAssigned | src/image.cpp:194-202 | the summing loop returns the count and channel sums of the samples assigned to the entry |
| Quantize.WeightPositive | src/image.cpp:161-166 | a k-means++ weight is positive exactly for the samples that are not yet a centre, and at most 3·255² |
| Processing.AssignOne | src/image.cpp:181-191 | one sample is assigned its lowest nearest entry among 1..15. `changed` is raised iff some running improvement differs from the old assignment, and not raising it means nothing changed. |
| Processing.RecordIff | src/image.cpp:184 | an entry improves on the running candidate exactly when it is strictly closer |
| Processing.ChangedWithoutChange | src/image.cpp:178-191 | `changed` is raised even for a sample already at its nearest entry, unless that entry is 1 |
| Processing.AssignmentAt | src/image.cpp:180-192 | the assignment of sample i is its nearest entry among 1..15 |
| Processing.UpdateIdempotent | src/image.cpp:193-208 | updating the centroids twice with the same assignment is updating them once |
| Processing.UpdateWithoutSamples | src/image.cpp:203-204 | with no samples no entry moves |
| Processing.LloydPass | src/image.cpp:178-209 | one pass of the iteration is an assignment then an update, stopping once the assignment repeats |
| Processing.ConvergingStep | src/image.cpp:178-209 | one pass keeps the state between passes on the way to Lloyd's palette |
| Processing.ConvergingDone | src/image.cpp:178 | once the assignment settles or no passes remain, the palette is Lloyd's palette |
| Processing.LloydFixedPoint | src/image.cpp:178-209 | a converged palette is a fixed point: further passes change nothing |
| Processing.PrefixZero | src/image.cpp:165 | the running total of non-negative weights is 0 exactly when every weight in it is |
| Processing.WeightsWhole | src/image.cpp:164 | every k-means++ weight is a non-negative whole number |
| Processing.PickFresh | src/image.cpp:167-170 | a new centre is never one already chosen while some sample is not a centre; once all are, the choice is `sample[0]` |
| Processing.ExtendPicks | src/image.cpp:159-171 | every added centre is the weighted pick for its draw given the centres before it |
| Processing.ExtendFresh | src/image.cpp:159-171 | each added centre is a sample, fresh unless every sample is already a centre |
| Processing.SeedsPick | src/image.cpp:159-171 | seed k is the weighted pick for draw k given the earlier seeds |
| Processing.SeedsFresh | src/image.cpp:155-172 | every one of entries 1..15 is copied from a sample, and a seed repeats only when every sample is already a seed, and is then `sample[0]` |
| Processing.QuantisedWithoutSamples | src/image.cpp:221-226 | with an empty sample the palette is left unchanged |
| Processing.QuantisedSeeds | src/image.cpp:225-226 | entry 0 is never modified, and without passes entries 1..15 are the seeds, all samples |
| Processing.Sample | src/image.cpp:223-224 | the sample is the foreground pixels the picks name, in order |
| Processing.EmptySample | src/image.cpp:221-225 | an all-background image has an empty foreground and sample size 0 |
| Processing.RemapForegroundAll | src/image.cpp:227-241 | remapping only the foreground positions remaps the whole image, since a background pixel maps to itself |
| Processing.ForegroundStep | src/image.cpp:216-220 | each foreground position is a non-background pixel, later than the previous one |
| Processing.MaskOne | src/image.cpp:69-90 | one pixel through the rule list: the paint colour if some rule matches, otherwise unchanged |
| Processing.ScanDistances | src/image.cpp:160-166 | the distance pass gives every sample its weight (0 for centres, otherwise the squared distance to the latest centre) and sums them; distance 0 marks exactly the centres |
| Processing.WeightsZero | src/image.cpp:162-164 | a sample weighs nothing exactly when it is a centre already |
| Processing.Choose | src/image.cpp:167-170 | for a total within `UINT32_MAX` (the bound src/random.cpp:34-35 documents) and exact arithmetic, the drawn index is in range and names the weighted pick, so the redraw loop ends after one draw and `distances[n]` is never read |
| Processing.NextCentre | src/image.cpp:159-171 | one entry of the seeding loop yields the next seed and keeps "distance 0 iff centre" |
| Processing.Image.MakeBackground | src/image.cpp:37-93 | the output is the dewarped image with every pixel some rule matches painted, compared against the chosen background; `palette[0]` becomes the paint colour, nothing else changes |
| Processing.Image.MaskAll | src/image.cpp:68-91 | the masking loop leaves exactly the masked image in the output |
| Processing.Image.KMeansPP | src/image.cpp:155-172 | entries 1..15 become the seeds, entry 0 and the images stay |
| Processing.Image.AssignAll | src/image.cpp:180-192 | the assignment pass stores every sample's nearest entry; no `changed` means no assignment changed |
| Processing.Image.UpdateCentroids | src/image.cpp:193-208 | the update pass sets the palette to the centroid update of the old palette |
| Processing.Image.KMeans | src/image.cpp:175-210 | the result is the palette of Lloyd's iteration, stopped at convergence or after `iters` passes |
| Processing.Image.Pass | src/image.cpp:179-208 | one pass keeps the convergence state, and `changed` false means the assignment settled |
| Processing.Image.RemapForeground | src/image.cpp:227-241 | remapping the foreground leaves the whole image remapped |
| Processing.Image.MakePalette | src/image.cpp:212-242 | the palette is the quantised palette of the sample and the image is remapped onto it (corrected: an empty sample is not seeded; as written it is, see `Processing.EmptySample`) |
| Processing.Image.UsePalette | src/image.cpp:244-269 | the image is remapped onto the palette as it stands |
| Random.Mix32 | src/random.cpp:15-19 | `mix32` yields a 32-bit value (the top half after the two rounds) |
| Random.Step | src/random.cpp:23 | the state step adds the golden gamma modulo 2^64 |
| Random.Limit | src/random.cpp:28 | `UINT32_MAX - UINT32_MAX % n` is the largest multiple of n not above the maximum, more than `max - n` |
| Random.RejectStep | src/random.cpp:30 | one more refused draw moves the known accepted draw further on |
| Random.WeightedIndex | src/random.cpp:36-44 | the result is the smallest i whose cumulative weight exceeds the draw, or n when none does |
| Random.Scan | src/random.cpp:38-43 | the subtracting loop returns that weighted index |
| Random.WeightedIndexUnique | src/random.cpp:36-44 | the characterisation pins the index down |
| Random.WeightedIndexInRange | src/random.hpp:34-44 | with non-negative weights and a draw below their total, the index is below n and has positive weight; n occurs only when the weights fall short |
| Random.BoundedDrawUnbiased | src/random.cpp:27-32 | the accepted range `[0, limit)` holds every residue modulo n equally often |
| Random.InclusiveDrawBiased | src/random.hpp:27-32 | the header's range `[0, limit]` hits residue 0 once more than every other |
| Random.Rng.constructor | src/random.cpp:9-12 | the generator starts from the given seed |
| Random.Rng.Next32 | src/random.cpp:22-24 | `mix32_rand()` advances the state by the gamma and returns `mix32` of the new state |
| Random.Rng.Next64 | src/random.hpp:17-24 | `mix64_rand()` advances the state by the gamma and returns `mix64` of the new state |
| Random.Rng.Reject | src/random.cpp:30 | the rejection loop stops at the first accepted draw and returns it |
| Random.Rng.Bounded32 | src/random.cpp:27-32 | the result is below n, drawn from the first raw value below the limit |
| Random.Rng.Bounded64 | src/random.cpp:69-74 | the 64-bit bounded draw, below n, from the first raw value below the limit |
| Random.Rng.BoundedInclusive64 | src/random.hpp:27-32 | accepts `raw == limit` too; the result is still below n |
| Random.Rng.Weighted32 | src/random.cpp:36-44 | the weighted index for a bounded draw below `(uint32_t)denominator` |
| Random.Rng.Weighted64 | src/random.cpp:78-86 | the same over the 64-bit bounded draw |
| Random.Rng.WeightedInclusive64 | src/random.hpp:36-44 | the same over the header's inclusive bounded draw |
| Matrix.Diagonal | src/matrix.cpp:8-20 | `mat()` and `mat(t)` are zero with t on the first `min(R, C)` diagonal entries |
| Matrix.Filled | src/matrix.cpp:22-27 | `mat(ts...)` with two or more arguments (fewer select `mat(void)` or `mat(t)`) takes the first `min(R·C, |ts|)` arguments row-major and leaves the rest zero |
| Matrix.AtFilled | inc/matrix.hpp:32-35 | the 1-based accessor at (row, column) reads argument `(row - 1)·C + column - 1` |
| Matrix.VecColumn | inc/matrix.hpp:53-55 | `vec(p)` is the column (x, y, 1) |
| Matrix.ScaleQuotientInverse | src/matrix.cpp:43-58 | dividing every element by t undoes multiplying by it, and conversely |
| Matrix.QuotientIsScale | src/matrix.cpp:52-58 | dividing by t is multiplying by 1/t |
| Matrix.Product | src/matrix.cpp:60-69 | the product is `R1 × C2`, entry (i, j) being `Σ_k left[i][k]·right[k][j]` |
| Matrix.DetAsWrittenError | src/matrix.cpp:71-76 | `det` as written differs from the cofactor determinant by `m13·m22·(m31 - m13)` |
| Matrix.Adj | src/matrix.cpp:78-92 | `adj` is the transposed cofactor matrix |
| Matrix.AdjugateProduct | src/matrix.cpp:78-92 | `m·adj(m) == adj(m)·m == D·I` with D the cofactor determinant |
| Matrix.InverseProduct | inc/matrix.hpp:45-48 | with D ≠ 0, `~m` is a two-sided inverse of m |
| Matrix.InverseAsWrittenScaled | inc/matrix.hpp:45-48 | the inverse as written (dividing by the typo'd `det`) is the true inverse scaled by `D / det` |
| Matrix.ProductScale | src/matrix.cpp:43-69 | scaling either factor scales the product |
| Matrix.ProductAssoc | src/matrix.cpp:60-69 | `(a·b)·v == a·(b·v)` for 3-by-3 a, b and a column v |
| Matrix.IdentityProduct | src/matrix.cpp:8-12 | `mat<3>()` is the identity on columns |
| MatrixArray.NewDiagonal | src/matrix.cpp:16-20 | the constructor loop builds exactly `Diagonal(R, C, t)` in a fresh buffer |
| MatrixArray.NewIdentity | src/matrix.cpp:8-12 | the default constructor builds the identity diagonal |
| MatrixArray.NewFilled | src/matrix.cpp:22-27 | the variadic constructor, for two or more arguments, builds `Filled(R, C, ts)` |
| MatrixArray.Copy | src/matrix.cpp:30-32 | the copy constructor copies every element |
| MatrixArray.MulScalar | src/matrix.cpp:43-49 | the loops build the scaled matrix and leave the operand unchanged |
| MatrixArray.DivScalar | src/matrix.cpp:52-58 | the loops build the quotient matrix and leave the operand unchanged |
| MatrixArray.Multiply | src/matrix.cpp:60-69 | the triple loop builds exactly the product |
| MatrixArray.Accumulate | src/matrix.cpp:66-67 | the innermost loop sums the dot product into one element, touching no other |
| Projective.HomogeneousValue | src/matrix.cpp:124 | `proj·vec(p)` is `(x', y', w')`, the rows applied to (x, y, 1) |
| Projective.PerspTransformValue | src/matrix.cpp:123-128 | `persp_transform` is `(x'/w', y'/w')` |
| Projective.PerspScaleInvariant | src/matrix.cpp:123-128 | scaling the matrix by any non-zero k leaves the transformed point unchanged |
| Projective.InverseMapsBack | src/matrix.cpp:123-128 | when m sends c to p with non-zero weight, `~m` sends p back to c |
| Projective.InverseUndoes | src/matrix.cpp:123-128 | whatever m sends to p, `~m` sends p back to |
| Projective.Compose | src/matrix.cpp:116-120 | applying `a·s` is applying s, then a, under the divide |
| Heckbert.Cramer | src/matrix.cpp:97-105 | m31 and m32 solve Heckbert's 2-by-2 system when d ≠ 0 |
| Heckbert.SquareToQuad | src/matrix.cpp:106-115 | the forward matrix is 3-by-3 with last entry 1 |
| Heckbert.ForwardCorners | src/matrix.cpp:106-115 | the forward matrix sends (0,0), (1,0), (0,1) to p0, p1, p3 with weights 1, 1 + m31, 1 + m32 |
| Heckbert.ThirdCorner | src/matrix.cpp:97-115 | with m31, m32 solving the system, (1,1) goes to p2 with weight 1 + m31 + m32 |
| Heckbert.SquareToQuadMapsCorners | src/matrix.cpp:96-115 | under the divide the unit square's corners go to p0, p1, p2, p3 wherever their weight is non-zero |
| Heckbert.RectScaleVec | src/matrix.cpp:116-120 | `diag(width, height, 1)` stretches (x, y) to (width·x, height·y) |
| Heckbert.PerspToRect | src/matrix.cpp:96-121 | `persp_to_rect` is `~m·diag(width, height, 1)`, a 3-by-3 matrix (corrected determinant) |
| Heckbert.PerspToRectAsWritten | src/matrix.cpp:96-121 | `persp_to_rect` with the typo'd `det` |
| Heckbert.RectCorner | src/matrix.cpp:96-121 | it sends `(p.x/width, p.y/height)` to the corner c whenever the forward matrix sends c to p |
| Heckbert.PerspToRectCorners | src/matrix.cpp:96-121 | each corner of the quad, divided by the rectangle's size, goes to the matching corner of the unit square |
| Heckbert.PerspToRectAsWrittenAgrees | src/matrix.cpp:71-76 | where both determinants are non-zero the matrix as written maps every point to the same place |
| Heckbert.PerspToRectTypoWitness | src/matrix.cpp:75 | a quad whose forward matrix has determinant 0.125 gets `det` 0 as written: `~m` divides by zero |
| Perspective.ClipScaleVec | src/perspective.cpp:126-130 | the right factor sends (u, v) to (2u - 1, 2v - 1), the unit square onto [-1, 1]² |
| Perspective.PerspMatrix | src/perspective.cpp:106-131 | `persp_matrix` is the same forward matrix's inverse times the right factor, 3-by-3 |
| Perspective.PerspMatrixAsWritten | src/perspective.cpp:106-131 | the same with the typo'd `det` |
| Perspective.ClipCorner | src/perspective.cpp:106-131 | it sends `((p.x + 1)/2, (p.y + 1)/2)` to the corner c whenever the forward matrix sends c to p |
| Perspective.PerspMatrixCorners | src/perspective.cpp:106-131 | each quad corner moved from [-1, 1]² to the unit square goes to the matching unit-square corner |
| Perspective.PerspMatrixAsWrittenAgrees | src/perspective.cpp:126-130 | where both determinants are non-zero, the matrix as written is the corrected one scaled and maps every point alike |
| Preview.Dist2 | src/preview.cpp:235-238 | the squared distance of two points is non-negative |
| Preview.FixQuad | src/preview.cpp:244-329 | the result is `FixQuadResult`. That is: false with `out` untouched unless there are 4 points; false with `out` equal to the input on a zero cross product; otherwise the reordered quad rotated to start at its first point of least `x + y`, which is written even when the result is false, with the result true iff no turn is 0 and the count is 0, 2 or 4. |
| Preview.Turns | src/preview.cpp:253-270 | the turn loop copies the input to `out`, computes every cross product and counts the positive ones and the zero ones exactly |
| Preview.Reordered | src/preview.cpp:275-299 | the switch gives `Reorder(in)` (reverse for 0, swap the first both-clockwise pair for 2, unchanged otherwise) and an error exactly for counts 1 and 3 |
| Preview.BottomLeftFirst | src/preview.cpp:313-323 | the rotation loop ends at the first point of the reordered quad whose `x + y` is the minimum over the input |
| Preview.SwapIndex | src/preview.cpp:286-289 | the swapped pair is the first with both turns negative, else pair 3, 0 |
| Preview.ReorderPermutes | src/preview.cpp:276-299 | reversing or swapping keeps the same four points |
| Preview.FixedPermutes | src/preview.cpp:301-327 | the output is a permutation of the input |
| Preview.FixedStartsBottomLeft | src/preview.cpp:313-325 | the output starts at a point of least `x + y` |
| Preview.ReorderCounterclockwise | src/preview.cpp:277-280 | reversing a quad whose every turn is clockwise makes every turn counterclockwise |
| Preview.RotateCounterclockwise | src/preview.cpp:320-323 | rotation keeps every turn's sign |
| Preview.FixedCounterclockwise | src/preview.cpp:276-298 | for counts 0 and 4 the output has four counterclockwise turns and no zero turn |
| Preview.FixedIdempotent | src/preview.cpp:240-243 | re-running `fix_quad` on an output accepted via count 0 or 4 gives the same quad |
| Preview.NearestIndexIsNearest | src/preview.cpp:103-111 | the erased vertex is nearest to the click and the first such in deque order |
| Preview.NearestVertex | src/preview.cpp:103-111 | the scan loop, starting from `FLT_MAX`, returns that vertex |
| Preview.Erase | src/preview.cpp:112 | erasing removes exactly one occurrence |
| Preview.AfterClick | src/preview.cpp:86-127 | the new deque has at most 4 points and the quad slot `|src| == 4` is kept |
| Preview.InitialConsistent | src/preview.cpp:86-127 | the empty deque is consistent |
| Preview.ClickConsistent | src/preview.cpp:86-127 | a click keeps the deque at most 4 distinct points; with 4, `dewarp_src` and `valid_quad` are those of `fix_quad` on the deque |
| Preview.ClickSelects | src/preview.cpp:93-127 | after a click the clicked point is in the deque, and last whenever the deque changed |
| Preview.VertexPicker.constructor | src/preview.cpp:86-127 | the picker starts with no vertices and no valid quad |
| Preview.VertexPicker.Click | src/preview.cpp:86-127 | a click updates the deque, `dewarp_src` and `valid_quad` as `AfterClick` says |
| Gui.ToUpper | src/gui.cpp:28 | `toupper` in the C locale moves only a–z, down by 32 |
| Gui.Upper | src/gui.cpp:27-28 | every character through `toupper`, same length |
| Gui.HasExt | src/gui.cpp:20-29 | true iff the path has at least 4 characters and its last four upper-case to ".PNG" |
| Gui.HasExtIgnoresPrefix | src/gui.cpp:25-28 | only the last four characters count |
| Gui.HasExtIgnoresCase | src/gui.cpp:27-28 | upper-casing the path does not change the answer |
| Gui.HasExtAcceptsAnyCase | src/gui.cpp:27-28 | ".png" in any mix of cases is accepted after any stem |
| Gui.NewThreshold | src/gui.cpp:98-99 | "+" adds an unselected, enabled, range-mode row with zero tolerances |
| Gui.UnselectedKeeps | src/gui.cpp:101-104 | no selected row survives "-" and every unselected row does |
| Gui.UnselectedAppend | src/gui.cpp:101-104 | removal works piece by piece, so the kept rows keep their order |
| Gui.UnselectedIdempotent | src/gui.cpp:101-104 | pressing "-" twice removes no more than once |
| Gui.ThresholdList.Add | src/gui.cpp:98-99 | the list grows by the new row at the end |
| Gui.ThresholdList.RemoveSelected | src/gui.cpp:101-104 | the compaction loop then `erase` leaves exactly the unselected rows in order |
| Gui.ThresholdList.Clear | src/gui.cpp:106-107 | the list becomes empty |
| Gui.ThresholdList.ToggleMode | src/gui.cpp:149-150 | only row i's `mode` flips |
| Program.HasExtAcceptsExamples | src/main.cpp:11-19 | ".png", "X.PnG" and "scan.PNG" are accepted |
| Program.RejectedAt | src/main.cpp:16-18 | a path whose k-th extension character differs from ".PNG" is rejected |
| Program.HasExtRejectsExamples | src/main.cpp:13-18 | "png", "a.pngx", "" and "a.jpg" are rejected |
| Program.ExitCode | src/main.cpp:21-26 | `main` fails exactly when the compressor cannot be allocated |

## Left out

- OpenGL, ImGui and GLFW code: rendering and layout. This includes shaders, textures, `transform_image`, vertex and edge drawing, window layout, slider conversions and status text.
- File and stream I/O: `load_image`, the `ofstream` writes, Windows path conversion, and `write_image`'s `!out.fail()` result. `PngFile.WriteImage` returns the bytes written instead.
- `libdeflate_zlib_compress` and `libdeflate_crc32` are foreign code. Both are function parameters; only the compressor's fit-or-zero contract is assumed.
- `libdeflate_alloc_compressor` is not modelled; its outcome is the parameter of `Program.ExitCode`.
- `res_sample`, `beta_func`, `random()`, `mix32_rand_pdf` and `mix64_rand_pdf` rest on floating-point transcendental functions and on a distributional claim. The sample is given as picks into the foreground (`Processing.Sample`).
- Seeding from `std::random_device` or the clock (`init_rand`, the header's static initialiser): the seed is a constructor parameter of `Random.Rng`.
- k-means++ draws are a sequence of numbers, not calls on a shared generator. `Processing.Image.KMeansPP` therefore does not tie them to `Random.Rng` states.
- Floating-point rounding is not modelled. HSV, geometry, cross products and matrices are `real`, so exact where the source rounds. `calc_prev_scale` (a square root) is not part of this model.
- Processing.Choose: the k-means++ total and draw are exact. The source sums `float` distances and converts the draw with `(float)`. Above 2^24 that conversion can round a draw up to the total, and the scan then returns n and reads `distances[n]`. The conclusion that one draw suffices does not cover such float totals.
- Processing.Pick and Processing.Choose require the total to be at most `UINT32_MAX`, the bound src/random.cpp:34-35 documents; above it `(uint32_t)total` is undefined.
- Processing.Extend, Seeds, Quantised, Image.KMeansPP and Image.MakePalette require a sample of at most 22017 colours (`n·3·255² <= UINT32_MAX`), which keeps every k-means++ total within that bound. `cfg.sampled` has no such limit in the source, and the model says nothing about larger samples.
- The destructor of `buffer`: releasing memory has no effect visible in this model.
- ByteBuffer.Buffer.Sized: the source leaves `buf` indeterminate for `len == 0`; the model can only represent that as null.
- ByteBuffer.Buffer.Put: requires `data` to hold the bytes `memcpy` reads, which the source assumes of its callers.
- Matrix.Inverse, Heckbert.PerspToRect, Perspective.PerspMatrix, Projective.PerspTransform and MatrixArray.DivScalar require the divisor (`d`, the determinant, `w'`, `t`) to be non-zero. The source divides unchecked, and the model does not represent the IEEE infinities and NaNs that result.
- A `mat` value is modelled by its buffer (`MatrixArray`) or as a sequence of rows (`Matrix`). The converting constructor between element types and the `double` default template parameters are not modelled, since element types are all `real`.
- Random.Mix64: no contract of its own. Its 64-bit range is kept by `XorBelow`, and the published SplitMix64 reference outputs are not evaluated.
- `mix64` in src/random.hpp and in src/random.cpp are textually identical and are modelled once, as `Random.Mix64`.
- Random.Rng.Bounded32, Bounded64 and BoundedInclusive64 require `n > 0` and that some later draw is accepted. The source divides by `n` unchecked. Termination of the rejection loop is a property of the mixer that is not proved.
- Random.Rng.Weighted32, Weighted64 and WeightedInclusive64 require `denominator >= 1`. Below that, `(uintN_t)denominator` is 0 and the draw divides by zero.
- Preview.FixQuad: requires that some input point has `x + y <= FLT_MAX`. Otherwise the source's rotation loop never ends.
- Preview.VertexPicker.Click: requires the click's `x + y <= FLT_MAX`, for the same reason.
- Preview.Dist2: the lemma that a zero squared distance means equal points is not proved. The solver cannot settle that nonlinear real fact.
- Preview.FixedIdempotent: stated only for quads accepted via counts 0 and 4. For count 2 the swapped quad is not proved convex.
- Only the three click behaviours `PNGSQ_VERT_MOVE_NEAREST`, `PNGSQ_VERT_MOVE_OLDEST` and `PNGSQ_VERT_CLEAR_ALL` exist in the model; the source's `switch` does nothing for any other value.
- Gui.ToUpper: the C locale only. A path is the sequence of characters before its terminating NUL.
- The threshold table's checkbox and slider edits in src/gui.cpp, and its "Reset" button, which the source leaves as a to-do.

## Findings

| source | as written | input that shows it | evidently intended | confidence | as-written member | corrected member |
|---|---|---|---|---|---|---|
| src/matrix.cpp:75 | the last product of `det` is `m(1,3)·m(2,2)·m(1,3)` | the quad (0.5, 0), (0.75, 0), (0.75, 0.5), (0.5, 0.5): its forward matrix has determinant 0.125 but `det` returns 0, so `~m` divides by zero | `m(1,3)·m(2,2)·m(3,1)`, the cofactor expansion | not executed; high | Heckbert.PerspToRectTypoWitness | Heckbert.PerspToRectCorners |
| src/random.hpp:30 | the bounded draw rejects only `raw > limit` | n = 3: `UINT64_MAX % 3 == 0`, so `limit == UINT64_MAX` and residue 0 is hit once more than residues 1 and 2 | reject `raw >= limit`, as src/random.cpp:72 does | not executed; high | Random.InclusiveDrawBiased | Random.BoundedDrawUnbiased |
| src/file.cpp:78 | the compressor gets `buf.size()` bytes starting at `buf.data() + 4` | an image whose zlib stream is 1 to 4 bytes longer than its scanline data: the library accepts it and writes up to 4 bytes past the end of the buffer | offer `buf.size() - 4` bytes | not executed; medium | PngFile.ScanlinesWindowOverrun | PngFile.PutScanlines |
| src/image.cpp:225 | `make_palette` calls `k_means_pp` even for an empty sample | an image whose every output pixel is the background colour: n = 0, and `mix32_rand(0)` takes `UINT32_MAX % 0` | seed only a non-empty sample | not executed; high | Processing.EmptySample | Processing.QuantisedWithoutSamples |
