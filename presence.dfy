/** The presence test: over the overlap of a candidate region and an alpha map, it averages the
    opacity of the bright counted pixels and compares that average with a small threshold. */
module Presence {
  import opened Pixels
  import opened AlphaMap

  /** The average correlation must exceed this for the watermark to count as present. */
  const PresenceThreshold: real := 0.01

  /** Mean of the three colour channels. */
  function Brightness(p: Pixel): real
  {
    (p.r + p.g + p.b) as real / 3.0
  }

  /** A pixel whose brightness lies strictly between 200 and 255 adds its opacity. */
  predicate Bright(p: Pixel)
  {
    200.0 < Brightness(p) < 255.0
  }

  /** The two accumulators of the scan. */
  datatype Tally = Tally(correlation: real, count: nat)

  /** One template position: counted when its opacity exceeds the threshold. */
  function Step(t: Tally, p: Pixel, alpha: real): Tally
  {
    if alpha > AlphaThreshold then
      Tally(t.correlation + (if Bright(p) then alpha else 0.0), t.count + 1)
    else t
  }

  /** The tally after the first n positions of one row. */
  function RowTally(t: Tally, pixels: seq<Pixel>, alphas: seq<real>, n: nat): Tally
    requires n <= |pixels| && n <= |alphas|
  {
    if n == 0 then t else Step(RowTally(t, pixels, alphas, n - 1), pixels[n - 1], alphas[n - 1])
  }

  /** The tally after the first n rows, each scanned over its first w positions. */
  function GridTally(pixels: seq<seq<Pixel>>, alphas: seq<seq<real>>, w: nat, n: nat): Tally
    requires n <= |pixels| && n <= |alphas|
    requires forall i | 0 <= i < n :: w <= |pixels[i]| && w <= |alphas[i]|
  {
    if n == 0 then Tally(0.0, 0)
    else RowTally(GridTally(pixels, alphas, w, n - 1), pixels[n - 1], alphas[n - 1], w)
  }

  /** The average opacity over the counted positions. */
  function Average(t: Tally): real
    requires t.count > 0
  {
    t.correlation / t.count as real
  }

  /** The decision on the finished tally: no counted position means absent. */
  predicate Decide(t: Tally)
  {
    t.count > 0 && Average(t) > PresenceThreshold
  }

  /** Number of rows and columns the scan covers: the overlap of region and map. */
  function OverlapHeight(region: Image, alphas: seq<seq<real>>): nat
  {
    Min(region.height, |alphas|)
  }

  function OverlapWidth(region: Image, alphas: seq<seq<real>>): nat
  {
    Min(region.width, Width(alphas))
  }

  /** The whole scan over the overlap. */
  function Scan(region: Image, alphas: seq<seq<real>>): Tally
    requires region.WellFormed() && IsGrid(alphas, |alphas|, Width(alphas))
  {
    GridTally(region.rows, alphas, OverlapWidth(region, alphas), OverlapHeight(region, alphas))
  }

  /** Is the watermark present in the region, judged against the alpha map? */
  predicate IsPresent(region: Image, alphas: seq<seq<real>>): (present: bool)
    requires region.WellFormed() && IsGrid(alphas, |alphas|, Width(alphas))
    ensures present ==> Scan(region, alphas).count > 0 && Scan(region, alphas).correlation > 0.0
  {
    DecideByProduct(Scan(region, alphas));
    Decide(Scan(region, alphas))
  }

  /** The nested scan of `_is_watermark_present` in remove_watermark.py, accumulating
      correlation and count in place. */
  method ScanRegion(region: Image, m: array2<real>) returns (present: bool)
    requires region.WellFormed()
    ensures present == IsPresent(region, Cells(m))
  {
    ghost var alphas := Cells(m);
    var height := Min(region.height, m.Length0);
    var width := Min(region.width, m.Length1);
    assert height == OverlapHeight(region, alphas);
    assert height == 0 || width == OverlapWidth(region, alphas);
    var correlation := 0.0;
    var count := 0;
    var y := 0;
    while y < height
      invariant 0 <= y <= height
      invariant Tally(correlation, count) == GridTally(region.rows, alphas, width, y)
    {
      var x := 0;
      while x < width
        invariant 0 <= x <= width
        invariant Tally(correlation, count) ==
          RowTally(GridTally(region.rows, alphas, width, y), region.rows[y], alphas[y], x)
      {
        if m[y, x] > AlphaThreshold {
          var p := region.rows[y][x];
          var brightness := (p.r + p.g + p.b) as real / 3.0;
          if 200.0 < brightness < 255.0 {
            correlation := correlation + m[y, x];
          }
          count := count + 1;
        }
        x := x + 1;
      }
      y := y + 1;
    }
    if count > 0 {
      var avgCorrelation := correlation / count as real;
      return avgCorrelation > PresenceThreshold;
    }
    return false;
  }

  // ----- Properties of the decision -----

  /** The test in cross-multiplied form: present exactly when the overlap counts a position
      and the correlation exceeds the threshold times the count. */
  lemma PresentByProduct(region: Image, alphas: seq<seq<real>>)
    requires region.WellFormed() && IsGrid(alphas, |alphas|, Width(alphas))
    ensures IsPresent(region, alphas) <==>
      Scan(region, alphas).count > 0
      && Scan(region, alphas).correlation > PresenceThreshold * Scan(region, alphas).count as real
  {
    DecideByProduct(Scan(region, alphas));
  }

  /** The average exceeds the threshold exactly when the correlation exceeds the threshold
      times the count. */
  lemma DecideByProduct(t: Tally)
    ensures Decide(t) <==> t.count > 0 && t.correlation > PresenceThreshold * t.count as real
  {
    if t.count > 0 {
      var c := t.count as real;
      assert t.correlation == (t.correlation / c) * c;
    }
  }

  /** Without a position whose opacity exceeds the threshold, nothing is counted. */
  lemma {:induction false} NoCountedCellsCountZero(pixels: seq<seq<Pixel>>, alphas: seq<seq<real>>, w: nat, n: nat)
    requires n <= |pixels| && n <= |alphas|
    requires forall i | 0 <= i < n :: w <= |pixels[i]| && w <= |alphas[i]|
    requires forall i, j | 0 <= i < n && 0 <= j < w :: alphas[i][j] <= AlphaThreshold
    ensures GridTally(pixels, alphas, w, n) == Tally(0.0, 0)
  {
    if n > 0 {
      NoCountedCellsCountZero(pixels, alphas, w, n - 1);
      RowUnchanged(Tally(0.0, 0), pixels[n - 1], alphas[n - 1], w);
    }
  }

  lemma {:induction false} RowUnchanged(t: Tally, pixels: seq<Pixel>, alphas: seq<real>, k: nat)
    requires k <= |pixels| && k <= |alphas|
    requires forall j | 0 <= j < k :: alphas[j] <= AlphaThreshold
    ensures RowTally(t, pixels, alphas, k) == t
  {
    if k > 0 {
      RowUnchanged(t, pixels, alphas, k - 1);
    }
  }

  /** When no counted pixel is bright, the correlation stays zero. */
  lemma {:induction false} NoBrightCellsCorrelationZero(pixels: seq<seq<Pixel>>, alphas: seq<seq<real>>, w: nat, n: nat)
    requires n <= |pixels| && n <= |alphas|
    requires forall i | 0 <= i < n :: w <= |pixels[i]| && w <= |alphas[i]|
    requires forall i, j | 0 <= i < n && 0 <= j < w :: alphas[i][j] > AlphaThreshold ==> !Bright(pixels[i][j])
    ensures GridTally(pixels, alphas, w, n).correlation == 0.0
  {
    if n > 0 {
      NoBrightCellsCorrelationZero(pixels, alphas, w, n - 1);
      RowNoBright(GridTally(pixels, alphas, w, n - 1), pixels[n - 1], alphas[n - 1], w);
    }
  }

  lemma {:induction false} RowNoBright(t: Tally, pixels: seq<Pixel>, alphas: seq<real>, k: nat)
    requires k <= |pixels| && k <= |alphas|
    requires forall j | 0 <= j < k :: alphas[j] > AlphaThreshold ==> !Bright(pixels[j])
    ensures RowTally(t, pixels, alphas, k).correlation == t.correlation
  {
    if k > 0 {
      RowNoBright(t, pixels, alphas, k - 1);
    }
  }

  /** When every counted pixel is bright under an opacity above the presence threshold,
      the correlation exceeds the threshold times the count (strictly, once anything counts). */
  lemma {:induction false} StrongBrightCellsLift(pixels: seq<seq<Pixel>>, alphas: seq<seq<real>>, w: nat, n: nat)
    requires n <= |pixels| && n <= |alphas|
    requires forall i | 0 <= i < n :: w <= |pixels[i]| && w <= |alphas[i]|
    requires forall i, j | 0 <= i < n && 0 <= j < w ::
      alphas[i][j] > AlphaThreshold ==> Bright(pixels[i][j]) && alphas[i][j] > PresenceThreshold
    ensures var t := GridTally(pixels, alphas, w, n);
      t.correlation >= PresenceThreshold * t.count as real &&
      (t.count > 0 ==> t.correlation > PresenceThreshold * t.count as real)
  {
    if n > 0 {
      StrongBrightCellsLift(pixels, alphas, w, n - 1);
      RowStrongBright(GridTally(pixels, alphas, w, n - 1), pixels[n - 1], alphas[n - 1], w);
    }
  }

  lemma {:induction false} RowStrongBright(t: Tally, pixels: seq<Pixel>, alphas: seq<real>, k: nat)
    requires k <= |pixels| && k <= |alphas|
    requires t.correlation >= PresenceThreshold * t.count as real
    requires t.count > 0 ==> t.correlation > PresenceThreshold * t.count as real
    requires forall j | 0 <= j < k ::
      alphas[j] > AlphaThreshold ==> Bright(pixels[j]) && alphas[j] > PresenceThreshold
    ensures var r := RowTally(t, pixels, alphas, k);
      r.correlation >= PresenceThreshold * r.count as real &&
      (r.count > 0 ==> r.correlation > PresenceThreshold * r.count as real)
  {
    if k > 0 {
      RowStrongBright(t, pixels, alphas, k - 1);
    }
  }

  /** Any position whose opacity exceeds the threshold is counted. */
  lemma {:induction false} CountedCellCounts(pixels: seq<seq<Pixel>>, alphas: seq<seq<real>>, w: nat, n: nat, i: nat, j: nat)
    requires n <= |pixels| && n <= |alphas|
    requires forall r | 0 <= r < n :: w <= |pixels[r]| && w <= |alphas[r]|
    requires i < n && j < w && alphas[i][j] > AlphaThreshold
    ensures GridTally(pixels, alphas, w, n).count > 0
  {
    if i == n - 1 {
      RowCounts(GridTally(pixels, alphas, w, n - 1), pixels[n - 1], alphas[n - 1], w, j);
    } else {
      CountedCellCounts(pixels, alphas, w, n - 1, i, j);
      RowCountGrows(GridTally(pixels, alphas, w, n - 1), pixels[n - 1], alphas[n - 1], w);
    }
  }

  lemma {:induction false} RowCounts(t: Tally, pixels: seq<Pixel>, alphas: seq<real>, k: nat, j: nat)
    requires k <= |pixels| && k <= |alphas|
    requires j < k && alphas[j] > AlphaThreshold
    ensures RowTally(t, pixels, alphas, k).count > 0
  {
    if j < k - 1 {
      RowCounts(t, pixels, alphas, k - 1, j);
    }
  }

  lemma {:induction false} RowCountGrows(t: Tally, pixels: seq<Pixel>, alphas: seq<real>, k: nat)
    requires k <= |pixels| && k <= |alphas|
    ensures RowTally(t, pixels, alphas, k).count >= t.count
  {
    if k > 0 {
      RowCountGrows(t, pixels, alphas, k - 1);
    }
  }

  // ----- Properties of the presence test -----

  /** A map with no opacity above the threshold over the overlap: never present. */
  lemma WeakMapAbsent(region: Image, alphas: seq<seq<real>>)
    requires region.WellFormed() && IsGrid(alphas, |alphas|, Width(alphas))
    requires forall i, j | 0 <= i < OverlapHeight(region, alphas) && 0 <= j < OverlapWidth(region, alphas) ::
      alphas[i][j] <= AlphaThreshold
    ensures !IsPresent(region, alphas)
  {
    NoCountedCellsCountZero(region.rows, alphas, OverlapWidth(region, alphas), OverlapHeight(region, alphas));
  }

  /** With no bright pixel under a counted position, the region is reported absent. */
  lemma NoBrightAbsent(region: Image, alphas: seq<seq<real>>)
    requires region.WellFormed() && IsGrid(alphas, |alphas|, Width(alphas))
    requires forall i, j | 0 <= i < OverlapHeight(region, alphas) && 0 <= j < OverlapWidth(region, alphas) ::
      alphas[i][j] > AlphaThreshold ==> !Bright(region.rows[i][j])
    ensures !IsPresent(region, alphas)
  {
    NoBrightCellsCorrelationZero(region.rows, alphas, OverlapWidth(region, alphas), OverlapHeight(region, alphas));
  }

  /** Lower bound is strict: counted pixels all of brightness at most 200 mean absent. */
  lemma DimRegionAbsent(region: Image, alphas: seq<seq<real>>)
    requires region.WellFormed() && IsGrid(alphas, |alphas|, Width(alphas))
    requires forall i, j | 0 <= i < OverlapHeight(region, alphas) && 0 <= j < OverlapWidth(region, alphas) ::
      alphas[i][j] > AlphaThreshold ==> Brightness(region.rows[i][j]) <= 200.0
    ensures !IsPresent(region, alphas)
  {
    NoBrightAbsent(region, alphas);
  }

  /** Upper bound is strict: counted pixels all pure white mean absent. */
  lemma WhiteRegionAbsent(region: Image, alphas: seq<seq<real>>)
    requires region.WellFormed() && IsGrid(alphas, |alphas|, Width(alphas))
    requires forall i, j | 0 <= i < OverlapHeight(region, alphas) && 0 <= j < OverlapWidth(region, alphas) ::
      var p := region.rows[i][j]; alphas[i][j] > AlphaThreshold ==> p.r == 255 && p.g == 255 && p.b == 255
    ensures !IsPresent(region, alphas)
  {
    NoBrightAbsent(region, alphas);
  }

  /** Some counted position, and every counted pixel bright under an opacity above 0.01:
      the watermark is reported present. */
  lemma StrongBrightPresent(region: Image, alphas: seq<seq<real>>, i0: nat, j0: nat)
    requires region.WellFormed() && IsGrid(alphas, |alphas|, Width(alphas))
    requires i0 < OverlapHeight(region, alphas) && j0 < OverlapWidth(region, alphas)
    requires alphas[i0][j0] > AlphaThreshold
    requires forall i, j | 0 <= i < OverlapHeight(region, alphas) && 0 <= j < OverlapWidth(region, alphas) ::
      alphas[i][j] > AlphaThreshold ==> Bright(region.rows[i][j]) && alphas[i][j] > PresenceThreshold
    ensures IsPresent(region, alphas)
  {
    var w, n := OverlapWidth(region, alphas), OverlapHeight(region, alphas);
    CountedCellCounts(region.rows, alphas, w, n, i0, j0);
    StrongBrightCellsLift(region.rows, alphas, w, n);
    DecideByProduct(Scan(region, alphas));
  }
}
