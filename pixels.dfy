/** The optional value of the `None`-or-value results and parameters of remove_watermark.py. */
module Wrappers {
  datatype Option<T> = None | Some(value: T)
}

/** Shared vocabulary: 8-bit channels, RGBA pixels, rectangular grids and images,
    and crop as sub-grid extraction. */
module Pixels {

  /** An 8-bit channel value, as stored in an RGBA image or template. */
  type Byte = x: int | 0 <= x < 256

  /** One RGBA pixel; channel index 0, 1, 2, 3 is r, g, b, a. */
  datatype Pixel = Pixel(r: Byte, g: Byte, b: Byte, a: Byte)

  function Channel(p: Pixel, c: nat): Byte
    requires c < 4
  {
    if c == 0 then p.r else if c == 1 then p.g else if c == 2 then p.b else p.a
  }

  /** `g` has `h` rows of `w` cells each. */
  predicate IsGrid<T>(g: seq<seq<T>>, h: nat, w: nat)
  {
    |g| == h && forall i | 0 <= i < h :: |g[i]| == w
  }

  /** The number of columns of a grid, taken from its first row. */
  function Width<T>(g: seq<seq<T>>): nat
  {
    if |g| == 0 then 0 else |g[0]|
  }

  /** A decoded RGBA image: `rows[y][x]` is the pixel at column x of row y. */
  datatype Image = Image(width: nat, height: nat, rows: seq<seq<Pixel>>)
  {
    predicate WellFormed()
    {
      IsGrid(rows, height, width)
    }
  }

  /** The w-by-h sub-image whose top-left corner is (x, y); the box lies inside the image. */
  function Crop(img: Image, x: nat, y: nat, w: nat, h: nat): (r: Image)
    requires img.WellFormed() && x + w <= img.width && y + h <= img.height
    ensures r.WellFormed() && r.width == w && r.height == h
    ensures forall i, j | 0 <= i < h && 0 <= j < w :: r.rows[i][j] == img.rows[y + i][x + j]
  {
    Image(w, h, seq(h, i requires 0 <= i < h => img.rows[y + i][x .. x + w]))
  }

  /** Opacities at or below this are ignored by the presence test and the compositor. */
  const AlphaThreshold: real := 0.002

  function Min(a: int, b: int): int
  {
    if a <= b then a else b
  }
}
