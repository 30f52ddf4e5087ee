/** The alpha-map builder: a template's RGBA grid becomes a grid of opacities,
    one per template pixel. */
module AlphaMap {
  import opened Pixels

  function Max3(a: int, b: int, c: int): int
  {
    if a >= b && a >= c then a else if b >= c then b else c
  }

  function Min3(a: int, b: int, c: int): int
  {
    if a <= b && a <= c then a else if b <= c then b else c
  }

  /** Opacity of the watermark at one template pixel: how far its darkest channel is from
      white, as a fraction of 255, or 0 where the template pixel is fully transparent. */
  function AlphaOf(p: Pixel): (alpha: real)
    ensures 0.0 <= alpha <= 1.0
    ensures alpha == 0.0 <==> p.a == 0 || (p.r == 255 && p.g == 255 && p.b == 255)
    ensures p.a > 0 ==> alpha == (255 - Min3(p.r, p.g, p.b)) as real / 255.0
  {
    if p.a > 0 then Max3(255 - p.r, 255 - p.g, 255 - p.b) as real / 255.0 else 0.0
  }

  /** The alpha map of a template, entry by entry. */
  function AlphaMapOf(t: seq<seq<Pixel>>): (m: seq<seq<real>>)
    ensures |m| == |t|
    ensures forall i | 0 <= i < |t| :: |m[i]| == |t[i]|
    ensures forall i, j | 0 <= i < |t| && 0 <= j < |t[i]| :: 0.0 <= m[i][j] <= 1.0
    ensures forall i, j | 0 <= i < |t| && 0 <= j < |t[i]| :: t[i][j].a == 0 ==> m[i][j] == 0.0
    ensures forall i, j | 0 <= i < |t| && 0 <= j < |t[i]| ::
      t[i][j].a > 0 ==> m[i][j] == (255 - Min3(t[i][j].r, t[i][j].g, t[i][j].b)) as real / 255.0
  {
    seq(|t|, i requires 0 <= i < |t| => seq(|t[i]|, j requires 0 <= j < |t[i]| => AlphaOf(t[i][j])))
  }

  /** The contents of a two-dimensional array, row by row. */
  ghost function Cells(m: array2<real>): (g: seq<seq<real>>)
    reads m
    ensures IsGrid(g, m.Length0, m.Length1)
    ensures forall i, j | 0 <= i < m.Length0 && 0 <= j < m.Length1 :: g[i][j] == m[i, j]
  {
    seq(m.Length0, i reads m requires 0 <= i < m.Length0 =>
      seq(m.Length1, j reads m requires 0 <= j < m.Length1 => m[i, j]))
  }

  /** Two grids of the same shape that agree cell by cell are equal. */
  lemma GridExtensionality<T>(a: seq<seq<T>>, b: seq<seq<T>>, h: nat, w: nat)
    requires IsGrid(a, h, w) && IsGrid(b, h, w)
    requires forall i, j | 0 <= i < h && 0 <= j < w :: a[i][j] == b[i][j]
    ensures a == b
  {
    forall i | 0 <= i < h
      ensures a[i] == b[i]
    {
      assert |a[i]| == |b[i]| == w;
    }
  }

  /** Fills a fresh zeroed array cell by cell, writing the opacity of every template
      pixel whose alpha is positive; the array ends up holding the template's alpha map. */
  method CalculateAlphaMap(t: seq<seq<Pixel>>) returns (m: array2<real>)
    requires IsGrid(t, |t|, Width(t))
    ensures m.Length0 == |t| && m.Length1 == Width(t)
    ensures Cells(m) == AlphaMapOf(t)
  {
    var height, width := |t|, Width(t);
    m := new real[height, width]((i, j) => 0.0);
    var y := 0;
    while y < height
      invariant 0 <= y <= height
      invariant forall i, j | 0 <= i < height && 0 <= j < width ::
        m[i, j] == if i < y then AlphaOf(t[i][j]) else 0.0
    {
      var x := 0;
      while x < width
        invariant 0 <= x <= width
        invariant forall i, j | 0 <= i < height && 0 <= j < width ::
          m[i, j] == if i < y || (i == y && j < x) then AlphaOf(t[i][j]) else 0.0
      {
        var p := t[y][x];
        if p.a > 0 {
          var maxDiff := Max3(255 - p.r, 255 - p.g, 255 - p.b);
          m[y, x] := maxDiff as real / 255.0;
        }
        x := x + 1;
      }
      y := y + 1;
    }
    GridExtensionality(Cells(m), AlphaMapOf(t), height, width);
  }
}
