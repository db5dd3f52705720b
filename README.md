# A model of the TGA texture loader of OpenGL2023

`source/texture.cpp` turns a Truevision TGA file into an OpenGL texture in
five steps:

1. It reads the 18-byte packed header `HeaderTGA` and refuses any file that
   is not 32 bits per pixel.
2. It picks a pixel stream from bit 3 of the image type. `TGAStreamRAW`
   reads one BGRA quadruple per call. `TGAStreamRLE` decodes TGA
   run-length packets.
3. It fills an `Image` of width × height colours row by row. Rows go top
   to bottom or bottom to top, as bit 5 of the image descriptor says.
4. It rounds each side up to a power of two with `nextPowerOf2`.
5. It resamples the picture into a buffer of that aligned size with
   `Image::fetch`.

The project models this pipeline on the file as a byte sequence and proves
what each step computes.

The modules follow the program's structure:

- `Bits`: the bit operations `|` (`Or`), `>>` (`Shr`, repeated halving)
  and `v & (1 << k)` (`HasBit`), stated on unbounded naturals, with the
  facts about them. The u32 bound is brought in by `PowerOfTwo`.
- `PowerOfTwo`: `nextPowerOf2` with its u32 wrap-around and s32 result.
  `CeilPow2` is the reference definition it is proved against.
- `Pixels`: `Color` and the on-disk B, G, R, A byte order.
- `TgaHeader`: the header layout, parsed and encoded.
- `Images`: the `Image` class, with `resize` and the clamping `pixel`
  accessor.
- `TgaStreams`: the two streams.
  - They are classes whose `Read` methods change their fields.
  - Each stream is tied to a value-level state machine (`Step`, `Next`).
    `Run` is that machine over n reads.
  - The packet lemmas say what a stream of run and raw packets decodes to.
- `TgaLoader`: the two fill loops, the resampling loop and `loadTGA`
  itself (`LoadTga`).
  - `SourceIndex` and `Placed` are the reference definitions of where each
    pixel of the file lands.
  - `Resampled` is the reference definition of the aligned buffer.

A few source constructs take a different form in the model:

- `Image::fetch` does bilinear filtering in `f32`. It is a function
  parameter of type `Sampler`. The model fixes only the coordinates it is
  called with and where its result is stored.
- The `std::ifstream` becomes the file's bytes plus a cursor in each
  stream.
- Reading past the end of the file is excluded by a precondition
  (`Loadable`: the file holds the w × h pixels the loops read).

## Model

| member | source | states |
|---|---|---|
| TgaHeader.ParseHeader | 2023107/OpenGL2023/source/texture.cpp:25-52 | The packed header puts `type_` at byte 2, `width_` and `height_` little-endian at bytes 12-15, `bpp_` at 16 and `attribute_` at 17. |
| TgaHeader.ParseEncoded | 2023107/OpenGL2023/source/texture.cpp:25-52 | Parsing the 18-byte encoding of any header, whatever follows it, gives that header back. |
| TgaHeader.EncodeParsed | 2023107/OpenGL2023/source/texture.cpp:322-323 | The header read from a file re-encodes to exactly the file's first 18 bytes, so no header byte is lost or moved. |
| TgaHeader.U16RoundTrip | 2023107/OpenGL2023/source/texture.cpp:38-44 | A u16 field and its two little-endian bytes convert into each other both ways. |
| TgaHeader.ImageTypes | 2023107/OpenGL2023/source/texture.cpp:338-345 | Type 2 (true colour) and 3 are read raw; types 10 and 11 (their RLE forms) are read through the RLE stream. |
| TgaHeader.Descriptors | 2023107/OpenGL2023/source/texture.cpp:353-368 | Descriptor 0x28 (bit 5 set) is read top-down and 0x08 bottom-up. |
| Images.Clamp | 2023107/OpenGL2023/source/texture.cpp:83-84 | `std::clamp` lands in [lo, hi]; it keeps in-range values and maps values below or above to the nearest bound. |
| Images.ClampStable | 2023107/OpenGL2023/source/texture.cpp:83-84 | Clamping is idempotent and monotone. |
| Images.Image.constructor | 2023107/OpenGL2023/source/texture.cpp:61 | A default `Image` is empty: no cells, width and height 0. |
| Images.Image.Resize | 2023107/OpenGL2023/source/texture.cpp:91-98 | It always returns true, leaves exactly w × h cells, keeps the old prefix, fills new cells with the default colour (taken to be `Color(0, 0, 0, 0)`) and sets width and height, so `Valid()` holds afterwards. |
| Images.Image.CellIndex | 2023107/OpenGL2023/source/texture.cpp:81-86 | The index `pixel(x, y)` refers to is always inside the buffer. Its column is the clamped x and its row the clamped y. |
| Images.Image.Pixel | 2023107/OpenGL2023/source/texture.cpp:81-86 | Reading `pixel(x, y)` gives the clamped cell, and cell y × width + x when (x, y) is in range. |
| Images.Image.SetPixel | 2023107/OpenGL2023/source/texture.cpp:81-86 | Assigning through `pixel(x, y)` changes the clamped cell and nothing else. |
| Images.PixelCorners | 2023107/OpenGL2023/source/texture.cpp:81-86 | In-range coordinates map to themselves. (-5, -5) maps to the top-left cell, (w + 5, h + 5) to the bottom-right and (w + 5, -5) to the top-right. |
| Images.CellIndexInRange | 2023107/OpenGL2023/source/texture.cpp:81-86 | An in-range coordinate addresses cell y × width + x. |
| Images.CellIndexInjective | 2023107/OpenGL2023/source/texture.cpp:81-86 | Two coordinates address the same cell exactly when they clamp to the same column and row. |
| PowerOfTwo.NextPowerOf2 | 2023107/OpenGL2023/source/texture.cpp:150-160 | The u32 decrement, five or-shift steps and increment, read back as s32, have these results: 1 ≤ x ≤ 2^30 gives `CeilPow2(x)`, the least power of two ≥ x; 2^30 < x ≤ 2^31 gives -2^31; 0 and x > 2^31 give 0. |
| PowerOfTwo.CeilPow2Spec | 2023107/OpenGL2023/source/texture.cpp:146-150 | The reference rounding is a power of two, at least x and, for x ≥ 1, below 2x. |
| PowerOfTwo.CeilPow2Least | 2023107/OpenGL2023/source/texture.cpp:146-150 | Every power of two ≥ x is ≥ `CeilPow2(x)`: it is the smallest. |
| PowerOfTwo.CeilPow2Samples | 2023107/OpenGL2023/source/texture.cpp:150-160 | Sample values: 3 → 4, 5 → 8, 100 → 128, 128 → 128, 129 → 256. |
| PowerOfTwo.WrapDec | 2023107/OpenGL2023/source/texture.cpp:152 | The u32 `x--` is the inverse of `x++` modulo 2^32, so 0 wraps to 2^32 - 1. |
| PowerOfTwo.WrapInc | 2023107/OpenGL2023/source/texture.cpp:158 | The u32 `x++` is x + 1 modulo 2^32, so 2^32 - 1 wraps to 0. |
| PowerOfTwo.ToS32 | 2023107/OpenGL2023/source/texture.cpp:159 | `return x` from a u32 into the s32 result gives a value in [-2^31, 2^31): itself below 2^31, otherwise x - 2^32. |
| Bits.Or | 2023107/OpenGL2023/source/texture.cpp:153-157 | The bitwise `\|` of the or-shift steps, one bit at a time from the least significant (body; its properties are the Or lemmas below). |
| Bits.OrComm | 2023107/OpenGL2023/source/texture.cpp:153-157 | `\|` is commutative. |
| Bits.OrBound | 2023107/OpenGL2023/source/texture.cpp:153-157 | The `\|` of two n-bit numbers is an n-bit number, so the u32 steps never leave 32 bits. |
| Bits.OrShr | 2023107/OpenGL2023/source/texture.cpp:153-157 | `>>` distributes over `\|`. |
| Bits.Shr | 2023107/OpenGL2023/source/texture.cpp:153-157 | The logical `x >> k` on an unsigned value never exceeds x. |
| Bits.ShrShr | 2023107/OpenGL2023/source/texture.cpp:153-157 | Two shifts in a row are one shift by the sum. |
| Bits.HasBit | 2023107/OpenGL2023/source/texture.cpp:230 | The test `v & (1 << k)`: bit k of v, read as the parity of `v >> k` (body; tied to division by ShrConstant, IsRle and TopDown). |
| Bits.ShrConstant | 2023107/OpenGL2023/source/texture.cpp:338 | `v >> 3` is v / 8 and `v >> 5` is v / 32. |
| TgaHeader.IsRle | 2023107/OpenGL2023/source/texture.cpp:338 | `type_ & (1 << 3)` holds exactly when type_ / 8 is odd. |
| TgaHeader.TopDown | 2023107/OpenGL2023/source/texture.cpp:353 | `attribute_ & (1 << 5)` holds exactly when attribute_ / 32 is odd. |
| Pixels.BgraAt | 2023107/OpenGL2023/source/texture.cpp:189-195 | The four bytes b, g, r, a at offset p read back as Color(r, g, b, a) (body; its inverse EncodeBgra is proved in BgraRoundTrip). |
| TgaStreams.IsRunFlag | 2023107/OpenGL2023/source/texture.cpp:230 | `flagCount & 0x80` on a byte: set for 128..255 (body; proved to be bit 7 by RunFlagIsTopBit). |
| TgaStreams.RleInit | 2023107/OpenGL2023/source/texture.cpp:263-265 | A fresh RLE state has `count_` 0 at the cursor given, so the first read takes a control byte. |
| TgaStreams.Next | 2023107/OpenGL2023/source/texture.cpp:357 | One `stream->read()` on whichever stream was chosen: the stream kind never changes (its results are pinned down by RawRun and PacketDecodes). |
| PowerOfTwo.ToS32Bits | 2023107/OpenGL2023/source/texture.cpp:159 | Returning the u32 as s32 keeps the bit pattern modulo 2^32 and is injective. |
| Pixels.BgraRoundTrip | 2023107/OpenGL2023/source/texture.cpp:189-195 | Reading b, g, r, a and returning `Color(r, g, b, a)` inverts the on-disk order, in both directions. |
| Pixels.EncodedAt | 2023107/OpenGL2023/source/texture.cpp:189-195 | Wherever the encoding of n colours sits in the file, the colour read at offset p + 4j is the j-th one. |
| Pixels.RawEncodesRegion | 2023107/OpenGL2023/source/texture.cpp:189-195 | Encoding the n colours read from offset p gives back exactly the 4n bytes they came from. |
| TgaStreams.RawStream.Read | 2023107/OpenGL2023/source/texture.cpp:187-196 | It takes the bytes b, g, r, a at the cursor and returns `Color(r, g, b, a)`. The cursor advances by exactly 4 and the stream keeps no other state. |
| TgaStreams.RawRun | 2023107/OpenGL2023/source/texture.cpp:187-196 | n raw reads from offset p return the n colours stored there and end at p + 4n; they stay in the file exactly when those 4n bytes are there. |
| TgaStreams.RawStream.constructor | 2023107/OpenGL2023/source/texture.cpp:181-184 | A new raw stream reads the file given, from the cursor given; it has no other state. |
| TgaStreams.RleStream.constructor | 2023107/OpenGL2023/source/texture.cpp:215-218 | A new RLE stream starts with `count_` 0, `state_` Unknown and `color_` (0, 0, 0, 0), at the cursor given. |
| TgaStreams.RleStream.Read | 2023107/OpenGL2023/source/texture.cpp:221-260 | One `read()` performs exactly the state transition `Step` on the fields `count_`, `state_`, `color_` and the cursor, and returns `Step`'s pixel. |
| TgaStreams.RleStream.ReadColor | 2023107/OpenGL2023/source/texture.cpp:233-239 | The four bytes at the cursor come back as a colour, and the cursor moves by 4. |
| TgaStreams.Step | 2023107/OpenGL2023/source/texture.cpp:221-260 | The pixel returned is the stream's new `color_`. |
| TgaStreams.StepConsumes | 2023107/OpenGL2023/source/texture.cpp:224-257 | Which bytes a read consumes. See the four cases below this table. |
| TgaStreams.StepValid | 2023107/OpenGL2023/source/texture.cpp:244-257 | `read()` keeps 0 ≤ `count_` ≤ 127 between calls, and a state other than Unknown while pixels remain. |
| TgaStreams.RunValid | 2023107/OpenGL2023/source/texture.cpp:262-265 | Any number of reads from a valid state ends in a valid state. |
| TgaStreams.RunFlagIsTopBit | 2023107/OpenGL2023/source/texture.cpp:230-244 | `flagCount & 0x80` is set exactly for control bytes 128..255. `(flagCount & 127) + 1` lies in 1..128. |
| TgaStreams.ReadPixel | 2023107/OpenGL2023/source/texture.cpp:336-345 | The virtual `stream->read()` performs `Next` on whichever stream was chosen. |
| TgaStreams.RunSplit | 2023107/OpenGL2023/source/texture.cpp:221-260 | Reading a + b pixels is reading a, then b more from the state the first a left. |
| TgaStreams.RunThen | 2023107/OpenGL2023/source/texture.cpp:221-260 | RunSplit stated for a known first read: the pixels concatenate and the final state is the second read's. |
| TgaStreams.EncodePacket | 2023107/OpenGL2023/source/texture.cpp:224-255 | A run packet takes 5 bytes and a raw packet of n pixels takes 1 + 4n. |
| TgaStreams.StoredIsEncoded | 2023107/OpenGL2023/source/texture.cpp:224-255 | The bytes at p hold packet pk (control byte, then colours) exactly when they are its encoding. |
| TgaStreams.EndState | 2023107/OpenGL2023/source/texture.cpp:257 | After a packet, `count_` is 0, the state is valid and the cursor is past the packet. |
| TgaStreams.RunPacketReads | 2023107/OpenGL2023/source/texture.cpp:230-259 | The first k reads of a run packet all return its colour. Only the first read consumes bytes (5 of them), and n - k pixels remain. |
| TgaStreams.RawPacketReads | 2023107/OpenGL2023/source/texture.cpp:241-259 | The first k reads of a raw packet return its first k colours. Each read takes 4 bytes after the control byte. |
| TgaStreams.PacketDecodes | 2023107/OpenGL2023/source/texture.cpp:221-260 | A packet stored at p, after any earlier state, decodes to its pixels in `\|Expand(pk)\|` reads and ends at p + Size(pk) with `count_` 0. |
| TgaStreams.PacketsDecode | 2023107/OpenGL2023/source/texture.cpp:221-260 | A sequence of stored packets decodes to the concatenation of their pixels and stops right after the last packet, with `count_` 0. |
| TgaStreams.RunThenRawExample | 2023107/OpenGL2023/source/texture.cpp:221-260 | A concrete 18-byte stream gives 5 copies of one colour, then 3 literal colours. It stops at byte 18. |
| TgaLoader.SourceIndex | 2023107/OpenGL2023/source/texture.cpp:353-368 | Cell i takes file pixel i when rows are stored top-down. Otherwise it takes the pixel in the same column and the mirrored row h - 1 - i / w. Either way the index stays below w × h. |
| TgaLoader.SourceIndexInvolution | 2023107/OpenGL2023/source/texture.cpp:361-368 | Mirroring twice is the identity, so every file pixel lands in exactly one cell. |
| TgaLoader.SourceIndexInjective | 2023107/OpenGL2023/source/texture.cpp:353-368 | Two cells take the same file pixel only if they are the same cell (both directions). |
| TgaLoader.SourceIndexAt | 2023107/OpenGL2023/source/texture.cpp:355-367 | Cell (x, y) takes file pixel y × w + x top-down and (h - 1 - y) × w + x bottom-up. |
| TgaLoader.PlacedTopDown | 2023107/OpenGL2023/source/texture.cpp:353-360 | A top-down picture is the pixels in reading order. |
| TgaLoader.PlacedBottomUp | 2023107/OpenGL2023/source/texture.cpp:361-368 | In a bottom-up picture, the k-th pixel read lands at column k % w, row h - 1 - k / w. |
| TgaLoader.PlacedSingleRow | 2023107/OpenGL2023/source/texture.cpp:361-368 | A picture one row high reads the same bottom-up as top-down. |
| TgaLoader.PlacedMirror | 2023107/OpenGL2023/source/texture.cpp:353-368 | Row y of the bottom-up picture is row h - 1 - y of the top-down picture of the same pixels. |
| TgaLoader.FillStep | 2023107/OpenGL2023/source/texture.cpp:357 | Storing the next pixel in the one cell it belongs to keeps all earlier pixels and all untouched cells. |
| TgaLoader.RunPrefix | 2023107/OpenGL2023/source/texture.cpp:355-367 | When n reads stay in the file, so do the first k of them; they give the first k pixels, and read k + 1 is possible. |
| TgaLoader.ReadNext | 2023107/OpenGL2023/source/texture.cpp:357 | One `stream->read()` inside the loop appends the next pixel of the decoded sequence. |
| TgaLoader.StorePixel | 2023107/OpenGL2023/source/texture.cpp:357 | `image.pixel(x, y) = c` stores the pixel just read in its cell; the image stays valid and its size unchanged. |
| TgaLoader.FillRow | 2023107/OpenGL2023/source/texture.cpp:356-358 | The inner loop reads exactly w more pixels and stores each in the cell it belongs to. |
| TgaLoader.RowStartIsProduct | 2023107/OpenGL2023/source/texture.cpp:355 | The rows read before row y come to y × w pixels. |
| TgaLoader.FillTopDown | 2023107/OpenGL2023/source/texture.cpp:353-360 | It reads exactly w × h pixels. The picture becomes `Placed(pixels, top-down)`, i.e. the pixels in reading order, and the stream stops where those w × h reads end. |
| TgaLoader.FillBottomUp | 2023107/OpenGL2023/source/texture.cpp:361-368 | It reads exactly w × h pixels, and the picture becomes the mirrored `Placed(pixels, bottom-up)`. This holds for every h ≥ 0, including 0 and 1. |
| TgaLoader.Resampled | 2023107/OpenGL2023/source/texture.cpp:376-385 | The aligned buffer has exactly aw × ah cells. |
| TgaLoader.ResampledAt | 2023107/OpenGL2023/source/texture.cpp:378-385 | Cell y × aw + x of the aligned buffer is `fetch(x / aw, y / ah)`, and both coordinates lie in [0, 1). |
| TgaLoader.Align | 2023107/OpenGL2023/source/texture.cpp:376-385 | The buffer is new, has aw × ah cells, and every cell holds the resampled colour. It resamples even when the sides already are powers of two. |
| TgaLoader.InitialDecoder | 2023107/OpenGL2023/source/texture.cpp:336-345 | The RLE stream is chosen exactly when bit 3 of the image type is set. |
| TgaLoader.AlignedSide | 2023107/OpenGL2023/source/texture.cpp:373-374 | An empty side stays 0. A non-empty side n becomes a power of two in [n, 2n). |
| TgaLoader.AlignedArea | 2023107/OpenGL2023/source/texture.cpp:373-376 | The aligned buffer has at least as many cells as the picture. |
| TgaLoader.Decoded | 2023107/OpenGL2023/source/texture.cpp:350-368 | The decoded picture has width × height cells. |
| TgaLoader.LoadTga | 2023107/OpenGL2023/source/texture.cpp:312-385 | When the outcomes hold is listed below this table. |

`StepConsumes` has four cases:

- `count_` 0, run packet: the control byte and one colour are read (5
  bytes). `count_` becomes `ctrl & 127`.
- `count_` 0, raw packet: the control byte and the first literal colour
  are read (5 bytes).
- Inside a raw packet: each read takes 4 bytes.
- Inside a run packet: a read takes no bytes and repeats the colour.

`LoadTga` has these outcomes:

- It returns true exactly when `bpp_` is 32.
- Otherwise it produces nothing: aligned sides 0 and an empty buffer.
- On success the sides are `nextPowerOf2` of width and height. The
  buffer is the resampling of the picture decoded through the stream the
  type chose, placed as the descriptor says.

## Left out

- Opening the file, `MessageBox`, `glTexImage2D` and the other OpenGL
  calls after line 385, `TextureImpl::load`, `loadFromFile` and the
  accessors are not modelled. The model starts from the file's bytes and
  ends with the aligned buffer.
- `Image::fetch` (lines 103-144) computes in `f32` and is not modelled. It
  is an arbitrary `Sampler` parameter, called with the cell list, width,
  height and the coordinates u, v.
- The coordinates u, v are exact reals `x / aw`, `y / ah`. The `f32`
  rounding of `(f32)x / (f32)alignedW` is not modelled.
- Reading past the end of the file is excluded by a precondition.
  - In the source, a read past the end of a truncated file leaves
    `flagCount` or the colour locals undetermined, and the pixel returned
    is built from them.
  - `LoadTga` requires `Loadable`: w × h reads stay in the file. `Run`
    reports `Exhausted` otherwise.
- `LoadTga` requires the products w × h and alignedW × alignedH to fit
  in s32, because signed overflow is undefined behaviour there. This
  excludes every picture whose aligned sides multiply to 2^31 or more,
  for example 32769 × 16385. `AlignedArea` shows the
  picture size is then in range too.
- `Images.Image.Resize` requires w × h < 2^31 for the same reason. The
  source passes s32 values, which the loader only ever makes from u16
  fields.
- The pixel data is taken to start at byte 18. The source does not skip
  the `id_` field or a colour map, and the model follows the code. In
  such files the decoded picture is shifted, in the source as in the
  model.
- Only 32-bit pixels are decoded. Other depths are refused by the `bpp_`
  test, as in the source.
- `Color` is not defined in the files modelled. Its default value, which
  `resize` gives new cells, is taken to be `Color(0, 0, 0, 0)`; the loader's
  result does not depend on it, because every cell is overwritten.
- Bit 4 of the descriptor (right-to-left rows) is ignored, as in the
  source.
- `TextureImpl::width_` and `height_` are not part of the model; the
  loader never assigns them.
- `PowerOfTwo.NextPowerOf2`: the values for 2^30 < x ≤ 2^32 - 1 are
  stated but play no part in the loader. Its arguments are u16 sides.
- Pixel rows are decoded into a `seq<Color>` field of `Image`. The
  `std::vector` is modelled by value, with no aliasing of the `Color&`
  that `pixel` returns; the assignment happens through `SetPixel`.
- When a side is 0, `alignedImage` is empty and the upload still passes
  `&alignedImage[0]`. That is outside the model along with the upload.
- The comment on `nextPowerOf2` speaks of the least power of two
  *greater than* x. The code returns the least one *at least* x, for
  example 4 for 4, and the model follows the code.
