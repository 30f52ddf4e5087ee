/** The inverse compositor: every RGB channel of a box is solved out of
    blended = original * (1 - a) + 255 * a, with the watermark taken to be solid white. */
module Compositor {
  import opened Pixels
  import opened AlphaMap

  /** Opacity is capped here before the division, so 1 - a never vanishes. */
  const MaxAlpha: real := 0.99
  /** The colour of the watermark, in every channel. */
  const LogoValue: real := 255.0

  /** Clamp to the channel range [0, 255]. */
  function Clip(v: real): (r: real)
    ensures 0.0 <= r <= 255.0
    ensures 0.0 <= v <= 255.0 ==> r == v
    ensures v < 0.0 ==> r == 0.0
    ensures v > 255.0 ==> r == 255.0
  {
    if v < 0.0 then 0.0 else if v > 255.0 then 255.0 else v
  }

  /** Forward alpha compositing of the white watermark over an original channel value. */
  function Composite(original: real, alpha: real): real
  {
    original * (1.0 - alpha) + LogoValue * alpha
  }

  /** The inverse formula, solved for the original value. */
  function Uncomposite(blended: real, alpha: real): (original: real)
    requires alpha < 1.0
    ensures Composite(original, alpha) == blended
  {
    var original := (blended - LogoValue * alpha) / (1.0 - alpha);
    assert original * (1.0 - alpha) == blended - LogoValue * alpha;
    original
  }

  function CapAlpha(alpha: real): (a: real)
    ensures a <= MaxAlpha && a <= alpha
    ensures a == alpha || a == MaxAlpha
  {
    if alpha < MaxAlpha then alpha else MaxAlpha
  }

  /** One restored channel before the cast: inverse formula with the capped opacity, clamped. */
  function RestoreValue(blended: real, alpha: real): (v: real)
    requires alpha > AlphaThreshold
    ensures 0.0 <= v <= 255.0
  {
    Clip(Uncomposite(blended, CapAlpha(alpha)))
  }

  /** The cast to an 8-bit channel, which truncates a value in [0, 255]. */
  function Truncate(v: real): (b: Byte)
    requires 0.0 <= v <= 255.0
    ensures b as real <= v < b as real + 1.0
  {
    v.Floor
  }

  /** One pixel after restoration under opacity `alpha`: the three colour channels are
      restored when the opacity exceeds the threshold; the alpha channel never changes. */
  function RestoredPixel(p: Pixel, alpha: real): Pixel
  {
    if alpha > AlphaThreshold then
      Pixel(Truncate(RestoreValue(p.r as real, alpha)),
            Truncate(RestoreValue(p.g as real, alpha)),
            Truncate(RestoreValue(p.b as real, alpha)),
            p.a)
    else p
  }

  /** Is (i, j) in the size-by-size box whose top-left corner is (x, y)? */
  predicate InBox(x: nat, y: nat, size: nat, i: int, j: int)
  {
    y <= i < y + size && x <= j < x + size
  }

  /** The image after restoring the box at (x, y) against the alpha grid. */
  function RestoredImage(img: Image, x: nat, y: nat, size: nat, alphas: seq<seq<real>>): (r: Image)
    requires img.WellFormed()
    requires size <= |alphas| && forall k | 0 <= k < size :: size <= |alphas[k]|
    ensures r.WellFormed() && r.width == img.width && r.height == img.height
    ensures forall i, j | 0 <= i < img.height && 0 <= j < img.width ::
      r.rows[i][j].a == img.rows[i][j].a
    ensures forall i, j | 0 <= i < img.height && 0 <= j < img.width ::
      !InBox(x, y, size, i, j) ==> r.rows[i][j] == img.rows[i][j]
    ensures forall i, j | 0 <= i < img.height && 0 <= j < img.width && InBox(x, y, size, i, j) ::
      alphas[i - y][j - x] <= AlphaThreshold ==> r.rows[i][j] == img.rows[i][j]
  {
    Image(img.width, img.height,
      seq(img.height, i requires 0 <= i < img.height =>
        seq(img.width, j requires 0 <= j < img.width =>
          if InBox(x, y, size, i, j) then RestoredPixel(img.rows[i][j], alphas[i - y][j - x])
          else img.rows[i][j])))
  }

  // ----- The in-place loop over a float copy of the image -----

  /** What a cell of the float buffer holds once its pixel has been processed. */
  function RestoredCell(p: Pixel, alpha: real, c: nat): (v: real)
    requires c < 4
    ensures 0.0 <= v <= 255.0
  {
    if c < 3 && alpha > AlphaThreshold then RestoreValue(Channel(p, c) as real, alpha)
    else Channel(p, c) as real
  }

  /** Has pixel (i, j) been processed once the loops stand at (dy, dx)? The rows of the box
      above row dy are done, and the pixels of row dy left of column dx. */
  predicate Before(x: nat, y: nat, size: nat, dy: nat, dx: nat, i: int, j: int)
  {
    (y <= i < y + dy && x <= j < x + size) || (i == y + dy && x <= j < x + dx)
  }

  /** Expected content of one buffer cell: restored once processed, the original before. */
  function ExpectedCell(img: Image, x: nat, y: nat, alphas: seq<seq<real>>, processed: bool,
                        i: nat, j: nat, c: nat): (v: real)
    requires img.WellFormed() && i < img.height && j < img.width && c < 4
    requires processed ==> y <= i && x <= j && i - y < |alphas| && j - x < |alphas[i - y]|
    ensures 0.0 <= v <= 255.0
  {
    if processed then RestoredCell(img.rows[i][j], alphas[i - y][j - x], c)
    else Channel(img.rows[i][j], c) as real
  }

  /** Every cell of the buffer holds its expected content at loop position (dy, dx). */
  ghost predicate BufferAt(buf: array3<real>, img: Image, x: nat, y: nat, size: nat, alphas: seq<seq<real>>,
                           dy: nat, dx: nat)
    reads buf
    requires img.WellFormed() && buf.Length0 == img.height && buf.Length1 == img.width && buf.Length2 == 4
    requires size <= |alphas| && forall r | 0 <= r < size :: size <= |alphas[r]|
    requires dy <= size && dx <= size && (dx > 0 ==> dy < size)
  {
    forall i, j, k | 0 <= i < img.height && 0 <= j < img.width && 0 <= k < 4 ::
      buf[i, j, k] == ExpectedCell(img, x, y, alphas, Before(x, y, size, dy, dx, i, j), i, j, k)
  }

  /** Casting the four restored cells of a processed pixel gives the restored pixel. */
  lemma CastRestoredCells(p: Pixel, alpha: real)
    ensures Pixel(Truncate(RestoredCell(p, alpha, 0)), Truncate(RestoredCell(p, alpha, 1)),
                  Truncate(RestoredCell(p, alpha, 2)), Truncate(RestoredCell(p, alpha, 3)))
            == RestoredPixel(p, alpha)
  {
  }

  /** Casting the four cells of an untouched pixel gives the pixel back. */
  lemma CastOriginalCells(p: Pixel)
    ensures Pixel(Truncate(Channel(p, 0) as real), Truncate(Channel(p, 1) as real),
                  Truncate(Channel(p, 2) as real), Truncate(Channel(p, 3) as real)) == p
  {
  }

  /** Every cell of the buffer lies in the channel range. */
  ghost predicate InRange(buf: array3<real>)
    reads buf
  {
    forall i, j, k | 0 <= i < buf.Length0 && 0 <= j < buf.Length1 && 0 <= k < buf.Length2 ::
      0.0 <= buf[i, j, k] <= 255.0
  }

  /** The cast of the whole buffer back to an 8-bit RGBA image. */
  function CastBuffer(buf: array3<real>): (r: Image)
    reads buf
    requires buf.Length2 == 4 && InRange(buf)
    ensures r.WellFormed() && r.height == buf.Length0 && r.width == buf.Length1
    ensures forall i, j | 0 <= i < buf.Length0 && 0 <= j < buf.Length1 ::
      r.rows[i][j] == Pixel(Truncate(buf[i, j, 0]), Truncate(buf[i, j, 1]),
                            Truncate(buf[i, j, 2]), Truncate(buf[i, j, 3]))
  {
    Image(buf.Length1, buf.Length0,
      seq(buf.Length0, i requires 0 <= i < buf.Length0 && InRange(buf) reads buf =>
        seq(buf.Length1, j requires 0 <= j < buf.Length1 && InRange(buf) reads buf =>
          Pixel(Truncate(buf[i, j, 0]), Truncate(buf[i, j, 1]), Truncate(buf[i, j, 2]), Truncate(buf[i, j, 3])))))
  }

  /** Once every pixel of the box has been processed, the cast buffer is the restored image. */
  lemma FinalBuffer(buf: array3<real>, img: Image, x: nat, y: nat, size: nat, alphas: seq<seq<real>>)
    requires img.WellFormed() && buf.Length0 == img.height && buf.Length1 == img.width && buf.Length2 == 4
    requires size <= |alphas| && forall r | 0 <= r < size :: size <= |alphas[r]|
    requires BufferAt(buf, img, x, y, size, alphas, size, 0)
    ensures InRange(buf)
    ensures CastBuffer(buf) == RestoredImage(img, x, y, size, alphas)
  {
    var result := CastBuffer(buf);
    var expected := RestoredImage(img, x, y, size, alphas);
    forall i, j | 0 <= i < img.height && 0 <= j < img.width
      ensures result.rows[i][j] == expected.rows[i][j]
    {
      if InBox(x, y, size, i, j) {
        CastRestoredCells(img.rows[i][j], alphas[i - y][j - x]);
      } else {
        CastOriginalCells(img.rows[i][j]);
      }
    }
    GridExtensionality(result.rows, expected.rows, img.height, img.width);
  }

  /** The innermost loop of `_remove_watermark_from_region` in remove_watermark.py:
      channels 0, 1 and 2 of pixel (i, j) of the buffer are replaced by their
      inverse-composited, clamped values under opacity `alpha`. */
  method RestoreChannels(buf: array3<real>, i: nat, j: nat, alpha: real)
    requires i < buf.Length0 && j < buf.Length1 && buf.Length2 == 4
    requires alpha < 1.0
    modifies buf
    ensures forall c | 0 <= c < 3 :: buf[i, j, c] == Clip(Uncomposite(old(buf[i, j, c]), alpha))
    ensures forall a, b, c | 0 <= a < buf.Length0 && 0 <= b < buf.Length1 && 0 <= c < 4 ::
      (a != i || b != j || c == 3) ==> buf[a, b, c] == old(buf[a, b, c])
  {
    for c := 0 to 3
      invariant forall k | 0 <= k < c :: buf[i, j, k] == Clip(Uncomposite(old(buf[i, j, k]), alpha))
      invariant forall a, b, k | 0 <= a < buf.Length0 && 0 <= b < buf.Length1 && 0 <= k < 4 ::
        (a != i || b != j || k >= c) ==> buf[a, b, k] == old(buf[a, b, k])
    {
      var blended := buf[i, j, c];
      var original := (blended - LogoValue * alpha) / (1.0 - alpha);
      buf[i, j, c] := Clip(original);
    }
  }

  /** One row of the box: the pixels of box row dy that lie inside the image and carry an
      opacity above the threshold get their RGB channels rewritten. */
  method RestoreRow(buf: array3<real>, img: Image, x: nat, y: nat, size: nat, m: array2<real>, dy: nat)
    requires img.WellFormed() && buf.Length0 == img.height && buf.Length1 == img.width && buf.Length2 == 4
    requires size <= m.Length0 && size <= m.Length1 && dy < size
    requires BufferAt(buf, img, x, y, size, Cells(m), dy, 0)
    modifies buf
    ensures BufferAt(buf, img, x, y, size, Cells(m), dy + 1, 0)
  {
    ghost var alphas := Cells(m);
    for dx := 0 to size
      invariant BufferAt(buf, img, x, y, size, alphas, dy, dx)
    {
      var imgX, imgY := x + dx, y + dy;
      if imgY < img.height && imgX < img.width {
        var alpha := m[dy, dx];
        if alpha > AlphaThreshold {
          alpha := CapAlpha(alpha);
          RestoreChannels(buf, imgY, imgX, alpha);
        }
      }
    }
  }

  /** The triple loop of `_remove_watermark_from_region` in remove_watermark.py, rewriting
      the RGB channels of every pixel of the box that lies inside the image and carries an
      opacity above the threshold; the result is the buffer cast back to 8-bit channels. */
  method RestoreRegion(img: Image, x: nat, y: nat, size: nat, m: array2<real>) returns (result: Image)
    requires img.WellFormed()
    requires size <= m.Length0 && size <= m.Length1
    ensures result == RestoredImage(img, x, y, size, Cells(m))
  {
    var height, width := img.height, img.width;
    var buf := new real[height, width, 4]((i, j, c) requires 0 <= i < height && 0 <= j < width && 0 <= c < 4 =>
      Channel(img.rows[i][j], c) as real);
    for dy := 0 to size
      invariant BufferAt(buf, img, x, y, size, Cells(m), dy, 0)
    {
      RestoreRow(buf, img, x, y, size, m, dy);
    }
    FinalBuffer(buf, img, x, y, size, Cells(m));
    result := CastBuffer(buf);
  }
}

/** Properties of the inverse compositor. */
module CompositorFacts {
  import opened Pixels
  import opened AlphaMap
  import opened Compositor

  /** Real-arithmetic round trip: restoring a channel that was composited under an opacity
      in (0.002, 0.99] gives back the original value exactly. */
  lemma RestoreInvertsComposite(original: real, alpha: real)
    requires 0.0 <= original <= 255.0
    requires AlphaThreshold < alpha <= MaxAlpha
    ensures RestoreValue(Composite(original, alpha), alpha) == original
  {
    var blended := Composite(original, alpha);
    assert CapAlpha(alpha) == alpha;
    var q := 1.0 - alpha;
    var u := Uncomposite(blended, alpha);
    assert (u - original) * q == 0.0;
    SignOfFactor(u - original, q);
    SignOfFactor(original - u, q);
    assert u == original;
  }

  /** The same round trip after the 8-bit cast: a stored byte that is exactly the composite
      of an original byte comes back as that byte. */
  lemma RestoreByteInvertsComposite(original: Byte, blended: Byte, alpha: real)
    requires AlphaThreshold < alpha <= MaxAlpha
    requires blended as real == Composite(original as real, alpha)
    ensures Truncate(RestoreValue(blended as real, alpha)) == original
  {
    RestoreInvertsComposite(original as real, alpha);
  }

  /** Dividing by a positive factor keeps the sign. */
  lemma SignOfFactor(v: real, q: real)
    requires q > 0.0
    ensures v * q >= 0.0 ==> v >= 0.0
    ensures v * q < 0.0 ==> v < 0.0
  {
    if v < 0.0 {
      assert v * q < 0.0;
    }
  }

  /** The clamp never moves a value away from a point of the channel range. */
  lemma ClipCloser(u: real, o: real)
    requires 0.0 <= o <= 255.0
    ensures u <= o ==> u <= Clip(u) <= o
    ensures u >= o ==> o <= Clip(u) <= u
  {
  }

  /** Dividing by a positive factor scales a symmetric bound. */
  lemma ScaledBound(d: real, err: real, q: real)
    requires q > 0.0 && -err <= d <= err
    ensures -err / q <= d / q <= err / q
  {
    SignOfFactor((d + err) / q, q);
    SignOfFactor((err - d) / q, q);
    assert (d + err) / q * q == d + err && (err - d) / q * q == err - d;
    assert d / q + err / q == (d + err) / q && err / q - d / q == (err - d) / q;
  }

  /** A stored channel within `err` of the exact composite is restored to within
      err / (1 - a) of the original, where a is the capped opacity. */
  lemma RestoreErrorBound(original: real, blended: real, alpha: real, err: real)
    requires 0.0 <= original <= 255.0
    requires AlphaThreshold < alpha <= MaxAlpha
    requires -err <= blended - Composite(original, alpha) <= err
    ensures -err / (1.0 - alpha) <= RestoreValue(blended, alpha) - original <= err / (1.0 - alpha)
  {
    assert CapAlpha(alpha) == alpha;
    var q := 1.0 - alpha;
    var u := Uncomposite(blended, alpha);
    var d := blended - Composite(original, alpha);
    assert (u - original) * q == d;
    assert (u - original - d / q) * q == 0.0 by {
      assert d / q * q == d;
    }
    SignOfFactor(u - original - d / q, q);
    SignOfFactor(d / q - (u - original), q);
    assert u - original == d / q;
    ScaledBound(d, err, q);
    ClipCloser(u, original);
    assert RestoreValue(blended, alpha) == Clip(u);
  }

  /** Compositing the restored value reproduces the stored channel exactly when the clamp
      did not fire, that is when the stored value is at least 255 times the capped opacity. */
  lemma CompositeOfRestore(blended: real, alpha: real)
    requires 0.0 <= blended <= 255.0
    requires AlphaThreshold < alpha <= MaxAlpha
    ensures Composite(RestoreValue(blended, alpha), alpha) == blended <==> blended >= LogoValue * alpha
  {
    assert CapAlpha(alpha) == alpha;
    var q := 1.0 - alpha;
    var u := Uncomposite(blended, alpha);
    assert u * q == blended - LogoValue * alpha;
    assert (255.0 - u) * q == 255.0 - blended;
    SignOfFactor(255.0 - u, q);
    SignOfFactor(u, q);
    if blended < LogoValue * alpha {
      assert RestoreValue(blended, alpha) == 0.0;
      assert Composite(0.0, alpha) == LogoValue * alpha;
    }
  }

  /** A box whose opacities all stay at or below the threshold leaves the image as it was. */
  lemma WeakBoxUnchanged(img: Image, x: nat, y: nat, size: nat, alphas: seq<seq<real>>)
    requires img.WellFormed()
    requires size <= |alphas| && forall k | 0 <= k < size :: size <= |alphas[k]|
    requires forall i, j | 0 <= i < size && 0 <= j < size :: alphas[i][j] <= AlphaThreshold
    ensures RestoredImage(img, x, y, size, alphas) == img
  {
    var r := RestoredImage(img, x, y, size, alphas);
    forall i, j | 0 <= i < img.height && 0 <= j < img.width
      ensures r.rows[i][j] == img.rows[i][j]
    {
      if InBox(x, y, size, i, j) {
        assert alphas[i - y][j - x] <= AlphaThreshold;
      }
    }
    GridExtensionality(r.rows, img.rows, img.height, img.width);
  }

  /** `p` is what compositing the white watermark under `alpha` over `original` stores,
      with every colour channel landing exactly on a byte. */
  predicate ExactBlend(original: Pixel, p: Pixel, alpha: real)
  {
    && p.a == original.a
    && p.r as real == Composite(original.r as real, alpha)
    && p.g as real == Composite(original.g as real, alpha)
    && p.b as real == Composite(original.b as real, alpha)
  }

  /** Image-level round trip: if the watermarked image equals the original outside the box,
      and inside it is the exact composite wherever the opacity exceeds the threshold (the
      opacity then at most 0.99) and the original elsewhere, restoring gives the original. */
  lemma RestoreRecoversOriginal(original: Image, img: Image, x: nat, y: nat, size: nat, alphas: seq<seq<real>>)
    requires img.WellFormed() && original.WellFormed()
    requires original.width == img.width && original.height == img.height
    requires size <= |alphas| && forall k | 0 <= k < size :: size <= |alphas[k]|
    requires forall i, j | 0 <= i < img.height && 0 <= j < img.width ::
      if InBox(x, y, size, i, j) && alphas[i - y][j - x] > AlphaThreshold
      then alphas[i - y][j - x] <= MaxAlpha && ExactBlend(original.rows[i][j], img.rows[i][j], alphas[i - y][j - x])
      else img.rows[i][j] == original.rows[i][j]
    ensures RestoredImage(img, x, y, size, alphas) == original
  {
    var r := RestoredImage(img, x, y, size, alphas);
    forall i, j | 0 <= i < img.height && 0 <= j < img.width
      ensures r.rows[i][j] == original.rows[i][j]
    {
      if InBox(x, y, size, i, j) && alphas[i - y][j - x] > AlphaThreshold {
        var a, o, p := alphas[i - y][j - x], original.rows[i][j], img.rows[i][j];
        RestoreByteInvertsComposite(o.r, p.r, a);
        RestoreByteInvertsComposite(o.g, p.g, a);
        RestoreByteInvertsComposite(o.b, p.b, a);
      }
    }
    GridExtensionality(r.rows, original.rows, img.height, img.width);
  }
}
