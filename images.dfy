/** `Image` of texture.cpp: a row-major buffer of colours with its width and
    height, a `resize` that keeps the vector's old prefix, and a `pixel`
    accessor that clamps its coordinates into the picture. */
module Images {
  import opened Pixels

  /** `std::clamp(v, lo, hi)`; the standard demands lo <= hi. */
  function Clamp(v: int, lo: int, hi: int): (r: int)
    requires lo <= hi
    ensures lo <= r <= hi
    ensures lo <= v <= hi ==> r == v
    ensures v < lo ==> r == lo
    ensures v > hi ==> r == hi
  {
    if v < lo then lo else if hi < v then hi else v
  }

  /** Clamping is idempotent and monotone. */
  lemma ClampStable(v: int, u: int, lo: int, hi: int)
    requires lo <= hi
    ensures Clamp(Clamp(v, lo, hi), lo, hi) == Clamp(v, lo, hi)
    ensures v <= u ==> Clamp(v, lo, hi) <= Clamp(u, lo, hi)
  {
  }

  /** Row y, column x of a row-major grid of width w lies in the grid. */
  lemma RowMajorInRange(x: int, y: int, w: int, h: int)
    requires 0 <= x < w && 0 <= y < h
    ensures 0 <= y * w + x < w * h
  {
    assert y * w <= (h - 1) * w by {
      MulMono(y, h - 1, w);
    }
  }

  lemma MulMono(a: int, b: int, w: int)
    requires a <= b && w >= 0
    ensures a * w <= b * w
  {
  }

  /** Euclidean division by w is unique: n == q * w + r with 0 <= r < w
      fixes q and r. */
  lemma DivModUnique(n: int, w: int, q: int, r: int)
    requires w >= 1 && 0 <= r < w && n == q * w + r
    ensures n / w == q && n % w == r
  {
    var q', r' := n / w, n % w;
    assert (q - q') * w == r' - r;
    if q - q' >= 1 {
      MulMono(1, q - q', w);
    } else if q - q' <= -1 {
      MulMono(q - q', -1, w);
    }
  }

  /** The cell y * w + x of a row-major grid gives back its column and row. */
  lemma RowMajorDivMod(x: int, y: int, w: int)
    requires 0 <= x < w && 0 <= y
    ensures (y * w + x) / w == y && (y * w + x) % w == x
  {
    DivModUnique(y * w + x, w, y, x);
  }

  /** Colours are stored row by row: cell y * width + x is pixel (x, y). */
  class Image {
    var cells: seq<Color>
    var width: int
    var height: int

    /** `image_.size() == width_ * height_`, both non-negative. */
    ghost predicate Valid()
      reads this
    {
      0 <= width && 0 <= height && |cells| == width * height
    }

    /** `Image() = default`: an empty picture. */
    constructor ()
      ensures Valid() && cells == [] && width == 0 && height == 0
    {
      cells := [];
      width := 0;
      height := 0;
    }

    /** `resize(w, h)`: the vector keeps its first min(old size, w * h)
        cells and gains value-initialised ones (Blank, taken as the default
        colour); the dimensions become w, h.
        The product w * h must not overflow s32. */
    method Resize(w: int, h: int) returns (ok: bool)
      requires 0 <= w && 0 <= h && w * h < 0x8000_0000
      modifies this
      ensures ok && Valid()
      ensures width == w && height == h
      ensures |cells| == w * h
      ensures forall i :: 0 <= i < |cells| && i < |old(cells)| ==> cells[i] == old(cells)[i]
      ensures forall i :: |old(cells)| <= i < |cells| ==> cells[i] == Blank
    {
      var n := w * h;
      if n <= |cells| {
        cells := cells[..n];
      } else {
        cells := cells + seq(n - |cells|, _ => Blank);
      }
      width := w;
      height := h;
      ok := true;
    }

    /** The index `pixel(x, y)` refers to: clamp(y) * width + clamp(x). */
    function CellIndex(x: int, y: int): (i: int)
      reads this
      requires Valid() && width >= 1 && height >= 1
      ensures 0 <= i < |cells|
      ensures i % width == Clamp(x, 0, width - 1)
      ensures i / width == Clamp(y, 0, height - 1)
    {
      var cx := Clamp(x, 0, width - 1);
      var cy := Clamp(y, 0, height - 1);
      RowMajorInRange(cx, cy, width, height);
      RowMajorDivMod(cx, cy, width);
      cy * width + cx
    }

    /** Reading `pixel(x, y)`. */
    function Pixel(x: int, y: int): (c: Color)
      reads this
      requires Valid() && width >= 1 && height >= 1
      ensures c == cells[CellIndex(x, y)]
      ensures 0 <= x < width && 0 <= y < height ==> c == cells[y * width + x]
    {
      cells[CellIndex(x, y)]
    }

    /** `pixel(x, y) = c`: the clamped cell is overwritten, nothing else. */
    method SetPixel(x: int, y: int, c: Color)
      requires Valid() && width >= 1 && height >= 1
      modifies this
      ensures Valid() && width == old(width) && height == old(height)
      ensures cells == old(cells)[old(CellIndex(x, y)) := c]
    {
      cells := cells[CellIndex(x, y) := c];
    }
  }

  /** `pixel` addresses every in-range coordinate as itself, and coordinates
      outside the picture fall on its edge: (-5, -5) is the top-left cell and
      (w + 5, h + 5) the bottom-right one. */
  lemma PixelCorners(img: Image)
    requires img.Valid() && img.width >= 1 && img.height >= 1
    ensures forall x, y :: 0 <= x < img.width && 0 <= y < img.height ==>
      img.CellIndex(x, y) == y * img.width + x
    ensures img.CellIndex(-5, -5) == 0
    ensures img.CellIndex(img.width + 5, img.height + 5) == |img.cells| - 1
    ensures img.CellIndex(img.width + 5, -5) == img.width - 1
  {
    var w, h := img.width, img.height;
    assert (h - 1) * w + (w - 1) == w * h - 1;
  }

  /** An in-range coordinate addresses its own cell y * width + x. */
  lemma CellIndexInRange(img: Image, x: int, y: int)
    requires img.Valid() && 0 <= x < img.width && 0 <= y < img.height
    ensures img.CellIndex(x, y) == y * img.width + x
  {
    RowMajorDivMod(x, y, img.width);
    RowMajorInRange(x, y, img.width, img.height);
  }

  /** Two coordinates address the same cell exactly when they clamp to the
      same column and row. */
  lemma CellIndexInjective(img: Image, x: int, y: int, x': int, y': int)
    requires img.Valid() && img.width >= 1 && img.height >= 1
    ensures img.CellIndex(x, y) == img.CellIndex(x', y') <==>
      Clamp(x, 0, img.width - 1) == Clamp(x', 0, img.width - 1) &&
      Clamp(y, 0, img.height - 1) == Clamp(y', 0, img.height - 1)
  {
  }
}
