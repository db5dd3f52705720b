/** `TextureImpl::loadTGA` of texture.cpp: the header check, the choice of
    pixel stream, the loop that fills the picture (top-down or bottom-up,
    as the descriptor says) and the loop that resamples it into a buffer
    whose sides are powers of two. */
module TgaLoader {
  import opened Pixels
  import opened PowerOfTwo
  import opened TgaHeader
  import opened Images
  import opened TgaStreams

  // ---------------------------------------------------------------------
  // Where each pixel of the file lands
  // ---------------------------------------------------------------------

  /** In a row-major grid of w columns and h rows, cell i lies in a row
      below h. */
  lemma RowBelow(i: int, w: int, h: int)
    requires w >= 1 && 0 <= i < w * h
    ensures 0 <= i / w < h
  {
    if i / w >= h {
      MulMono(h, i / w, w);
    }
  }

  /** A cell is given by its row and column. */
  lemma CellFromRowColumn(i: int, j: int, w: int)
    requires w >= 1 && 0 <= i && 0 <= j && i / w == j / w && i % w == j % w
    ensures i == j
  {
  }

  /** The number, in reading order, of the file pixel that lands in cell i
      of a picture w wide and h high: the cell itself when rows are stored
      top to bottom, the same column of the mirrored row otherwise. */
  function SourceIndex(i: int, w: int, h: int, topDown: bool): (k: int)
    requires w >= 1 && h >= 1 && 0 <= i < w * h
    ensures 0 <= k < w * h
    ensures topDown ==> k == i
    ensures k % w == i % w
    ensures k / w == if topDown then i / w else h - 1 - i / w
  {
    if topDown then i
    else
      var row, col := i / w, i % w;
      RowBelow(i, w, h);
      RowMajorInRange(col, h - 1 - row, w, h);
      RowMajorDivMod(col, h - 1 - row, w);
      (h - 1 - row) * w + col
  }

  /** Mirroring twice is the identity, so every file pixel lands in exactly
      one cell and every cell receives exactly one pixel. */
  lemma SourceIndexInvolution(i: int, w: int, h: int, topDown: bool)
    requires w >= 1 && h >= 1 && 0 <= i < w * h
    ensures SourceIndex(SourceIndex(i, w, h, topDown), w, h, topDown) == i
  {
    var k := SourceIndex(i, w, h, topDown);
    CellFromRowColumn(SourceIndex(k, w, h, topDown), i, w);
  }

  lemma SourceIndexInjective(i: int, j: int, w: int, h: int, topDown: bool)
    requires w >= 1 && h >= 1 && 0 <= i < w * h && 0 <= j < w * h
    ensures SourceIndex(i, w, h, topDown) == SourceIndex(j, w, h, topDown) <==> i == j
  {
    SourceIndexInvolution(i, w, h, topDown);
    SourceIndexInvolution(j, w, h, topDown);
  }

  /** The cell in column x of row y takes pixel y * w + x of the file when
      rows are stored top to bottom and pixel (h - 1 - y) * w + x
      otherwise. */
  lemma SourceIndexAt(x: int, y: int, w: int, h: int, topDown: bool)
    requires 0 <= x < w && 0 <= y < h
    ensures 0 <= y * w + x < w * h
    ensures SourceIndex(y * w + x, w, h, topDown)
         == if topDown then y * w + x else (h - 1 - y) * w + x
  {
    RowMajorInRange(x, y, w, h);
    RowMajorDivMod(x, y, w);
    RowMajorInRange(x, h - 1 - y, w, h);
    RowMajorDivMod(x, h - 1 - y, w);
    CellFromRowColumn(SourceIndex(y * w + x, w, h, topDown),
                      if topDown then y * w + x else (h - 1 - y) * w + x, w);
  }

  /** The picture made of the pixels px read in order: cell i holds the
      pixel SourceIndex(i). */
  function Placed(px: seq<Color>, w: int, h: int, topDown: bool): (cells: seq<Color>)
    requires 0 <= w && 0 <= h && |px| == w * h
    ensures |cells| == w * h
  {
    seq(w * h, i requires 0 <= i < w * h => px[SourceIndex(i, w, h, topDown)])
  }

  /** Rows stored top to bottom are copied as they are. */
  lemma PlacedTopDown(px: seq<Color>, w: int, h: int)
    requires 0 <= w && 0 <= h && |px| == w * h
    ensures Placed(px, w, h, true) == px
  {
  }

  /** Rows stored bottom to top are mirrored: the k-th pixel read lands in
      column k % w of row h - 1 - k / w. */
  lemma PlacedBottomUp(px: seq<Color>, w: int, h: int, k: int)
    requires 1 <= w && 1 <= h && |px| == w * h && 0 <= k < w * h
    ensures 0 <= (h - 1 - k / w) * w + k % w < w * h
    ensures Placed(px, w, h, false)[(h - 1 - k / w) * w + k % w] == px[k]
  {
    var x, y := k % w, h - 1 - k / w;
    RowBelow(k, w, h);
    SourceIndexAt(x, y, w, h, false);
    assert (h - 1 - y) * w + x == k by {
      CellFromRowColumn((h - 1 - y) * w + x, k, w) by {
        RowMajorDivMod(x, h - 1 - y, w);
      }
    }
  }

  /** A picture one row high reads the same in either direction. */
  lemma PlacedSingleRow(px: seq<Color>, w: int)
    requires 1 <= w && |px| == w
    ensures Placed(px, w, 1, false) == px
  {
    forall i | 0 <= i < w ensures Placed(px, w, 1, false)[i] == px[i] {
      DivModUnique(i, w, 0, i);
      CellFromRowColumn(SourceIndex(i, w, 1, false), i, w);
    }
  }

  /** Row y of a bottom-up picture is row h - 1 - y of the top-down one. */
  lemma PlacedMirror(px: seq<Color>, w: int, h: int, x: int, y: int)
    requires 0 <= x < w && 0 <= y < h && |px| == w * h
    ensures 0 <= y * w + x < w * h && 0 <= (h - 1 - y) * w + x < w * h
    ensures Placed(px, w, h, false)[y * w + x] == Placed(px, w, h, true)[(h - 1 - y) * w + x]
  {
    SourceIndexAt(x, y, w, h, false);
    SourceIndexAt(x, h - 1 - y, w, h, true);
  }

  // ---------------------------------------------------------------------
  // The fill loop
  // ---------------------------------------------------------------------

  /** The picture after the pixels px have been read: the cells they go to
      hold them, every other cell still holds what it held before. */
  ghost predicate Filled(cells: seq<Color>, before: seq<Color>, px: seq<Color>,
                         w: int, h: int, topDown: bool)
  {
    0 <= w && 0 <= h && |cells| == w * h && |before| == w * h && |px| <= w * h &&
    forall i :: 0 <= i < w * h ==>
      cells[i] == if SourceIndex(i, w, h, topDown) < |px| then px[SourceIndex(i, w, h, topDown)]
                  else before[i]
  }

  /** Storing the next pixel read in the cell it belongs to keeps the
      picture filled. */
  lemma FillStep(cells: seq<Color>, before: seq<Color>, px: seq<Color>,
                 w: int, h: int, topDown: bool, j: int, c: Color)
    requires Filled(cells, before, px, w, h, topDown) && |px| < w * h
    requires 0 <= j < w * h && SourceIndex(j, w, h, topDown) == |px|
    ensures Filled(cells[j := c], before, px + [c], w, h, topDown)
  {
    forall i | 0 <= i < w * h && i != j
      ensures SourceIndex(i, w, h, topDown) != |px|
    {
      SourceIndexInjective(i, j, w, h, topDown);
    }
  }

  /** Once all w * h pixels are read the picture is Placed(px). */
  lemma FilledComplete(cells: seq<Color>, before: seq<Color>, px: seq<Color>,
                       w: int, h: int, topDown: bool)
    requires Filled(cells, before, px, w, h, topDown) && |px| == w * h
    ensures cells == Placed(px, w, h, topDown)
  {
  }

  /** Reading the first k of n available pixels stays in the file, the next
      read does too, and gives a prefix of the n pixels. */
  lemma {:induction false} RunPrefix(data: seq<byte>, d: Decoder, n: nat, k: nat)
    requires Run(data, d, n).Trace? && k <= n
    ensures Run(data, d, k).Trace?
    ensures Run(data, d, k).pixels == Run(data, d, n).pixels[..k]
    ensures k < n ==> CanNext(data, Run(data, d, k).last)
    decreases n - k
  {
    if k < n {
      RunPrefix(data, d, n, k + 1);
      assert Run(data, d, k + 1).pixels[..k] == Run(data, d, k).pixels;
    }
  }

  /** `stream->read()` while the file still holds the pixels asked for:
      the stream hands out the next pixel of the run it is in. */
  method ReadNext(s: Stream, ghost d0: Decoder, ghost n: nat, ghost px: seq<Color>)
    returns (c: Color)
    requires Run(DataOf(s), d0, n).Trace? && |px| < n
    requires Run(DataOf(s), d0, |px|) == Trace(px, DecoderOf(s))
    modifies Footprint(s)
    ensures Run(DataOf(s), d0, |px| + 1) == Trace(px + [c], DecoderOf(s))
  {
    RunPrefix(DataOf(s), d0, n, |px|);
    c := ReadPixel(s);
    RunSnoc(DataOf(s), d0, |px|);
  }

  /** `image.pixel(x, y) = c` for the next pixel read: the picture stays
      filled with one more pixel. */
  method StorePixel(img: Image, x: int, y: int, c: Color, topDown: bool,
                    ghost before: seq<Color>, ghost px: seq<Color>)
    requires img.Valid() && 0 <= x < img.width && 0 <= y < img.height
    requires Filled(img.cells, before, px, img.width, img.height, topDown)
    requires |px| < img.width * img.height && 0 <= y * img.width + x < img.width * img.height
    requires SourceIndex(y * img.width + x, img.width, img.height, topDown) == |px|
    modifies img
    ensures img.Valid() && img.width == old(img.width) && img.height == old(img.height)
    ensures Filled(img.cells, before, px + [c], img.width, img.height, topDown)
  {
    CellIndexInRange(img, x, y);
    FillStep(img.cells, before, px, img.width, img.height, topDown, y * img.width + x, c);
    img.SetPixel(x, y, c);
  }

  /** The file row a picture row y holds. */
  function FileRow(y: int, h: int, topDown: bool): int
  {
    if topDown then y else h - 1 - y
  }

  /** Column x of row y is pixel FileRow(y) * w + x of the file. */
  lemma RowPixelIndex(x: int, y: int, w: int, h: int, topDown: bool, k: int)
    requires 0 <= x < w && 0 <= y < h && k == FileRow(y, h, topDown) * w + x
    ensures 0 <= y * w + x < w * h && SourceIndex(y * w + x, w, h, topDown) == k < w * h
  {
    SourceIndexAt(x, y, w, h, topDown);
  }

  /** The inner loop of loadTGA: row y from left to right, every cell set
      to the next pixel the stream reads.  px are the pixels read so far,
      the whole file rows before this one. */
  method FillRow(img: Image, s: Stream, y: int, topDown: bool,
                 ghost d0: Decoder, ghost before: seq<Color>, ghost px: seq<Color>)
    returns (ghost px': seq<Color>)
    requires img.Valid() && 0 <= y < img.height
    requires |px| == FileRow(y, img.height, topDown) * img.width
    requires Run(DataOf(s), d0, img.width * img.height).Trace?
    requires Run(DataOf(s), d0, |px|) == Trace(px, DecoderOf(s))
    requires Filled(img.cells, before, px, img.width, img.height, topDown)
    modifies img, Footprint(s)
    ensures img.Valid() && img.width == old(img.width) && img.height == old(img.height)
    ensures |px'| == |px| + img.width
    ensures Run(DataOf(s), d0, |px'|) == Trace(px', DecoderOf(s))
    ensures Filled(img.cells, before, px', img.width, img.height, topDown)
  {
    var w, h := img.width, img.height;
    ghost var data := DataOf(s);
    px' := px;
    var x := 0;
    while x < w
      invariant 0 <= x <= w && |px'| == |px| + x
      invariant img.Valid() && img.width == w && img.height == h
      invariant Run(data, d0, |px'|) == Trace(px', DecoderOf(s))
      invariant Filled(img.cells, before, px', w, h, topDown)
    {
      RowPixelIndex(x, y, w, h, topDown, |px'|);
      var c := ReadNext(s, d0, w * h, px');
      StorePixel(img, x, y, c, topDown, before, px');
      px' := px' + [c];
      x := x + 1;
    }
  }

  /** y * w as y additions of w, which keeps the loop counters linear. */
  function RowStart(y: nat, w: int): int
  {
    if y == 0 then 0 else RowStart(y - 1, w) + w
  }

  lemma {:induction false} RowStartIsProduct(y: nat, w: int)
    ensures RowStart(y, w) == y * w
  {
    if y > 0 {
      RowStartIsProduct(y - 1, w);
    }
  }

  /** The top-down loop of loadTGA: rows 0 .. height - 1 in turn. */
  method FillTopDown(img: Image, s: Stream)
    requires img.Valid()
    requires Run(DataOf(s), DecoderOf(s), img.width * img.height).Trace?
    modifies img, Footprint(s)
    ensures img.Valid() && img.width == old(img.width) && img.height == old(img.height)
    ensures var t := Run(DataOf(s), old(DecoderOf(s)), img.width * img.height);
      img.cells == Placed(t.pixels, img.width, img.height, true) && DecoderOf(s) == t.last
  {
    var w, h := img.width, img.height;
    ghost var data, d0, before := DataOf(s), DecoderOf(s), img.cells;
    ghost var px: seq<Color> := [];
    var y := 0;
    while y < h
      invariant 0 <= y <= h && |px| == RowStart(y, w)
      invariant img.Valid() && img.width == w && img.height == h
      invariant Run(data, d0, |px|) == Trace(px, DecoderOf(s))
      invariant Filled(img.cells, before, px, w, h, true)
    {
      RowStartIsProduct(y, w);
      px := FillRow(img, s, y, true, d0, before, px);
      y := y + 1;
    }
    RowStartIsProduct(h, w);
    FilledComplete(img.cells, before, px, w, h, true);
  }

  /** The bottom-up loop of loadTGA: rows height - 1 down to 0. */
  method FillBottomUp(img: Image, s: Stream)
    requires img.Valid()
    requires Run(DataOf(s), DecoderOf(s), img.width * img.height).Trace?
    modifies img, Footprint(s)
    ensures img.Valid() && img.width == old(img.width) && img.height == old(img.height)
    ensures var t := Run(DataOf(s), old(DecoderOf(s)), img.width * img.height);
      img.cells == Placed(t.pixels, img.width, img.height, false) && DecoderOf(s) == t.last
  {
    var w, h := img.width, img.height;
    ghost var data, d0, before := DataOf(s), DecoderOf(s), img.cells;
    ghost var px: seq<Color> := [];
    var y := h - 1;
    while y >= 0
      invariant -1 <= y <= h - 1 && |px| == RowStart(h - 1 - y, w)
      invariant img.Valid() && img.width == w && img.height == h
      invariant Run(data, d0, |px|) == Trace(px, DecoderOf(s))
      invariant Filled(img.cells, before, px, w, h, false)
    {
      RowStartIsProduct(h - 1 - y, w);
      px := FillRow(img, s, y, false, d0, before, px);
      y := y - 1;
    }
    RowStartIsProduct(h, w);
    FilledComplete(img.cells, before, px, w, h, false);
  }

  // ---------------------------------------------------------------------
  // The resampling loop
  // ---------------------------------------------------------------------

  /** `Image::fetch(u, v)`: the colour a picture of the given cells, width
      and height shows at texture coordinates (u, v). */
  type Sampler = (seq<Color>, int, int, real, real) -> Color

  /** Cell i of an aligned buffer aw wide and ah high: the picture sampled at
      u = x / aw, v = y / ah for the cell's column x and row y. */
  function AlignedSample(fetch: Sampler, cells: seq<Color>, w: int, h: int,
                         aw: int, ah: int, i: int): Color
    requires 1 <= aw && 1 <= ah && 0 <= i
  {
    fetch(cells, w, h, (i % aw) as real / aw as real, (i / aw) as real / ah as real)
  }

  /** The aligned buffer: every one of its aw * ah cells resampled from the
      picture, even when the picture's sides already are powers of two. */
  function Resampled(fetch: Sampler, cells: seq<Color>, w: int, h: int,
                     aw: int, ah: int): (r: seq<Color>)
    requires 0 <= aw && 0 <= ah
    ensures |r| == aw * ah
  {
    seq(aw * ah, i requires 0 <= i < aw * ah => AlignedSample(fetch, cells, w, h, aw, ah, i))
  }

  /** Cell (x, y) of the aligned buffer is the picture fetched at
      (x / aw, y / ah), and both coordinates lie in [0, 1). */
  lemma ResampledAt(fetch: Sampler, cells: seq<Color>, w: int, h: int,
                    aw: int, ah: int, x: int, y: int)
    requires 0 <= x < aw && 0 <= y < ah
    ensures 0 <= y * aw + x < aw * ah
    ensures Resampled(fetch, cells, w, h, aw, ah)[y * aw + x]
         == fetch(cells, w, h, x as real / aw as real, y as real / ah as real)
    ensures 0.0 <= x as real / aw as real < 1.0 && 0.0 <= y as real / ah as real < 1.0
  {
    RowMajorInRange(x, y, aw, ah);
    RowMajorDivMod(x, y, aw);
  }

  /** The resampling loop of loadTGA: rows 0 .. ah - 1, each from left to
      right, cell y * aw + x set to `image.fetch(x / aw, y / ah)`. */
  method Align(fetch: Sampler, img: Image, aw: int, ah: int) returns (buf: array<Color>)
    requires 0 <= aw && 0 <= ah && aw * ah < 0x8000_0000
    ensures fresh(buf)
    ensures buf[..] == Resampled(fetch, img.cells, img.width, img.height, aw, ah)
  {
    buf := new Color[aw * ah](_ => Blank);
    var y := 0;
    while y < ah
      invariant 0 <= y <= ah && y * aw <= buf.Length
      invariant forall i :: 0 <= i < y * aw ==>
        buf[i] == AlignedSample(fetch, img.cells, img.width, img.height, aw, ah, i)
    {
      var x := 0;
      while x < aw
        invariant 0 <= x <= aw && y * aw + x <= buf.Length
        invariant forall i :: 0 <= i < y * aw + x ==>
          buf[i] == AlignedSample(fetch, img.cells, img.width, img.height, aw, ah, i)
      {
        var u := x as real / aw as real;
        var v := y as real / ah as real;
        ResampledAt(fetch, img.cells, img.width, img.height, aw, ah, x, y);
        buf[y * aw + x] := fetch(img.cells, img.width, img.height, u, v);
        x := x + 1;
      }
      assert (y + 1) * aw == y * aw + aw;
      MulMono(y + 1, ah, aw);
      y := y + 1;
    }
    assert buf[..] == Resampled(fetch, img.cells, img.width, img.height, aw, ah) by {
      assert ah * aw == aw * ah;
    }
  }

  // ---------------------------------------------------------------------
  // loadTGA
  // ---------------------------------------------------------------------

  /** The stream loadTGA reads the pixels with, right after the header:
      the RLE stream when bit 3 of the image type is set, the raw one
      otherwise. */
  function InitialDecoder(hd: Header): (d: Decoder)
    ensures d.Rle? <==> IsRle(hd)
  {
    if IsRle(hd) then Rle(RleInit(HEADER_SIZE)) else Raw(HEADER_SIZE)
  }

  /** nextPowerOf2 of a 16-bit picture side: 0 for an empty side, otherwise
      the least power of two at least n. */
  function AlignedSide(n: u16): (r: int)
    ensures n == 0 ==> r == 0
    ensures n >= 1 ==> IsPowerOf2(r) && n <= r < 2 * n
  {
    CeilPow2Spec(n);
    if n == 0 then 0 else CeilPow2(n)
  }

  /** What loadTGA needs of a 32-bit file besides its header: the pixel data
      holds width * height pixels, and the aligned buffer's cell count fits
      an s32. */
  predicate Loadable(data: seq<byte>)
  {
    |data| >= HEADER_SIZE &&
    var hd := ParseHeader(data);
    AlignedSide(hd.width) * AlignedSide(hd.height) < 0x8000_0000 &&
    Run(data, InitialDecoder(hd), hd.width * hd.height).Trace?
  }

  /** The picture loadTGA decodes from a loadable file: its width * height
      pixels, placed top-down or mirrored as the descriptor says. */
  function Decoded(data: seq<byte>): (cells: seq<Color>)
    requires Loadable(data)
    ensures |cells| == ParseHeader(data).width * ParseHeader(data).height
  {
    var hd := ParseHeader(data);
    Placed(Run(data, InitialDecoder(hd), hd.width * hd.height).pixels, hd.width, hd.height, TopDown(hd))
  }

  /** The picture's cell count is no more than the aligned buffer's. */
  lemma AlignedArea(w: u16, h: u16)
    ensures w * h <= AlignedSide(w) * AlignedSide(h)
  {
    var aw, ah := AlignedSide(w), AlignedSide(h);
    MulMono(w, aw, h);
    assert aw * h <= aw * ah by {
      MulMono(h, ah, aw);
    }
  }

  /** `TextureImpl::loadTGA` on the bytes of the file: a file that is not
      32 bits per pixel is refused before any stream or picture exists;
      otherwise its pixels are decoded through the stream the image type
      selects, placed as the descriptor says and resampled into a buffer
      of nextPowerOf2(width) by nextPowerOf2(height) cells, which is what
      is handed to the texture. */
  method LoadTga(data: seq<byte>, fetch: Sampler)
    returns (ok: bool, aw: int, ah: int, aligned: array<Color>)
    requires |data| >= HEADER_SIZE
    requires ParseHeader(data).bpp == 32 ==> Loadable(data)
    ensures fresh(aligned)
    ensures ok <==> ParseHeader(data).bpp == 32
    ensures !ok ==> aw == 0 && ah == 0 && aligned.Length == 0
    ensures ok ==>
      var hd := ParseHeader(data);
      aw == AlignedSide(hd.width) && ah == AlignedSide(hd.height) &&
      aligned[..] == Resampled(fetch, Decoded(data), hd.width, hd.height, aw, ah)
  {
    var header := ParseHeader(data);
    if header.bpp != 32 {
      return false, 0, 0, new Color[0];
    }
    var width, height := header.width, header.height;

    var stream: Stream;
    if IsRle(header) {
      var rle := new RleStream(data, HEADER_SIZE);
      stream := RleSource(rle);
    } else {
      var raw := new RawStream(data, HEADER_SIZE);
      stream := RawSource(raw);
    }
    assert DecoderOf(stream) == InitialDecoder(header);

    var image := new Image();
    AlignedArea(width, height);
    var _ := image.Resize(width, height);
    if TopDown(header) {
      FillTopDown(image, stream);
    } else {
      FillBottomUp(image, stream);
    }

    aw := NextPowerOf2(width);
    ah := NextPowerOf2(height);
    aligned := Align(fetch, image, aw, ah);
    ok := true;
  }
}
