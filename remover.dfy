/** The watermark remover: the two templates, the alpha maps it computes once per size and
    keeps, the corner locator, and the driver that decides the output path and encoder. */
module Remover {
  import opened Wrappers
  import opened Pixels
  import opened AlphaMap
  import opened Presence
  import opened Compositor
  import opened CompositorFacts
  import opened OutputPath

  /** Where a watermark was found: the top-left corner of its box and the box's side. */
  datatype Position = Position(x: int, y: int, size: int)

  /** What the driver hands to the encoder, or the path it returns when nothing was found. */
  datatype Outcome =
    | NotDetected(path: string)
    | Saved(path: string, format: Format, result: Image)

  /** A box of side s fits in the bottom-right corner and the presence test accepts it. */
  predicate Hit(image: Image, s: nat, alphas: seq<seq<real>>)
    requires image.WellFormed() && IsGrid(alphas, |alphas|, Width(alphas))
  {
    s <= image.width && s <= image.height &&
    IsPresent(Crop(image, image.width - s, image.height - s, s, s), alphas)
  }

  /** The locator: the large template is tried first, then the small one, each flush with
      the bottom-right corner. */
  function Locate(image: Image, large: seq<seq<real>>, small: seq<seq<real>>): (pos: Option<Position>)
    requires image.WellFormed()
    requires IsGrid(large, |large|, Width(large)) && IsGrid(small, |small|, Width(small))
    ensures pos.Some? ==> (pos.value.size == 96 || pos.value.size == 48)
    ensures pos.Some? ==> (pos.value.x == image.width - pos.value.size >= 0
                           && pos.value.y == image.height - pos.value.size >= 0)
    ensures pos.Some? ==> Hit(image, pos.value.size, if pos.value.size == 96 then large else small)
    ensures Hit(image, 96, large) ==> pos == Some(Position(image.width - 96, image.height - 96, 96))
    ensures pos.None? <==> !Hit(image, 96, large) && !Hit(image, 48, small)
    ensures image.width < 48 || image.height < 48 ==> pos.None?
  {
    if Hit(image, 96, large) then Some(Position(image.width - 96, image.height - 96, 96))
    else if Hit(image, 48, small) then Some(Position(image.width - 48, image.height - 48, 48))
    else None
  }

  /** The whole effect of one call of the driver on an already decoded image. */
  function Pipeline(imagePath: string, outputPath: Option<string>, image: Image,
                    large: seq<seq<real>>, small: seq<seq<real>>): (r: Outcome)
    requires image.WellFormed()
    requires IsGrid(large, 96, 96) && IsGrid(small, 48, 48)
    ensures r.NotDetected? <==> Locate(image, large, small).None?
    ensures r.NotDetected? ==> r.path == imagePath
    ensures image.width < 48 || image.height < 48 ==> r == NotDetected(imagePath)
    ensures r.Saved? ==> r.path == OutputTarget(imagePath, outputPath) && r.format == ChooseFormat(r.path)
    ensures r.Saved? ==> r.result.WellFormed() && r.result.width == image.width && r.result.height == image.height
  {
    match Locate(image, large, small)
    case None => NotDetected(imagePath)
    case Some(pos) =>
      var out := OutputTarget(imagePath, outputPath);
      Saved(out, ChooseFormat(out),
            RestoredImage(image, pos.x, pos.y, pos.size, if pos.size == 96 then large else small))
  }

  /** The locator's effect on the stored maps, from (before48, before96) to (after48, after96):
      the large probe always runs and fills the large store when its box fits; the small probe
      runs only when the large one misses, and fills the small store when its box fits; a
      store no probe reached is as before. */
  ghost predicate LocatorCacheEffect(image: Image, large: seq<seq<real>>,
                                     before48: array2?<real>, before96: array2?<real>,
                                     after48: array2?<real>, after96: array2?<real>)
    requires image.WellFormed() && IsGrid(large, |large|, Width(large))
  {
    && (image.width >= 96 && image.height >= 96 ==> after96 != null)
    && (image.width < 96 || image.height < 96 ==> after96 == before96)
    && (image.width >= 48 && image.height >= 48 && !Hit(image, 96, large) ==> after48 != null)
    && (Hit(image, 96, large) || image.width < 48 || image.height < 48 ==> after48 == before48)
  }

  class WatermarkRemover {
    /** The decoded templates, 48 by 48 and 96 by 96. */
    const bg48: seq<seq<Pixel>>
    const bg96: seq<seq<Pixel>>
    /** The alpha maps, computed on first use; null until then. */
    var alphaMap48: array2?<real>
    var alphaMap96: array2?<real>

    /** A stored map always holds the alpha map of its template. */
    ghost predicate Valid()
      reads this, alphaMap48, alphaMap96
    {
      && IsGrid(bg48, 48, 48) && IsGrid(bg96, 96, 96)
      && (alphaMap48 != null ==> Cells(alphaMap48) == AlphaMapOf(bg48))
      && (alphaMap96 != null ==> Cells(alphaMap96) == AlphaMapOf(bg96))
    }

    /** A map once stored is never replaced. */
    twostate predicate CacheKept()
      reads this
    {
      && (old(alphaMap48) != null ==> alphaMap48 == old(alphaMap48))
      && (old(alphaMap96) != null ==> alphaMap96 == old(alphaMap96))
    }

    constructor (template48: seq<seq<Pixel>>, template96: seq<seq<Pixel>>)
      requires IsGrid(template48, 48, 48) && IsGrid(template96, 96, 96)
      ensures Valid()
      ensures bg48 == template48 && bg96 == template96
      ensures alphaMap48 == null && alphaMap96 == null
    {
      bg48, bg96 := template48, template96;
      alphaMap48, alphaMap96 := null, null;
    }

    /** The template a size selects: 96 picks the large one, every other size the small one. */
    function TemplateFor(size: int): seq<seq<Pixel>>
    {
      if size == 96 then bg96 else bg48
    }

    /** The map for a size, computed and stored on the first request and returned from the
        store afterwards; any size other than 48 and 96 is served the 48 map. */
    method GetAlphaMap(size: int) returns (m: array2<real>)
      requires Valid()
      modifies this
      decreases if size == 48 || size == 96 then 0 else 1
      ensures Valid() && CacheKept()
      ensures Cells(m) == AlphaMapOf(TemplateFor(size))
      ensures size == 96 ==> alphaMap96 == m && alphaMap48 == old(alphaMap48)
      ensures size != 96 ==> alphaMap48 == m && alphaMap96 == old(alphaMap96)
    {
      if size == 48 {
        if alphaMap48 == null {
          alphaMap48 := CalculateAlphaMap(bg48);
        }
        return alphaMap48;
      } else if size == 96 {
        if alphaMap96 == null {
          alphaMap96 := CalculateAlphaMap(bg96);
        }
        return alphaMap96;
      } else {
        m := GetAlphaMap(48);
      }
    }

    /** The presence test against the map for `size`. */
    method IsWatermarkPresent(region: Image, size: int) returns (present: bool)
      requires Valid() && region.WellFormed()
      modifies this
      ensures Valid() && CacheKept()
      ensures present == IsPresent(region, AlphaMapOf(TemplateFor(size)))
      ensures size == 96 ==> alphaMap96 != null && alphaMap48 == old(alphaMap48)
      ensures size != 96 ==> alphaMap48 != null && alphaMap96 == old(alphaMap96)
    {
      var m := GetAlphaMap(size);
      present := ScanRegion(region, m);
    }

    /** One pass of the locator's loop: the box of side `wmSize` in the bottom-right corner,
        when it fits, is cropped and tested against the map for that size. */
    method ProbeCorner(image: Image, wmSize: int) returns (present: bool)
      requires Valid() && image.WellFormed() && wmSize >= 0
      modifies this
      ensures Valid() && CacheKept()
      ensures present == Hit(image, wmSize, AlphaMapOf(TemplateFor(wmSize)))
      ensures wmSize <= image.width && wmSize <= image.height ==>
        if wmSize == 96 then alphaMap96 != null && alphaMap48 == old(alphaMap48)
        else alphaMap48 != null && alphaMap96 == old(alphaMap96)
      ensures wmSize > image.width || wmSize > image.height ==>
        alphaMap48 == old(alphaMap48) && alphaMap96 == old(alphaMap96)
    {
      var x := image.width - wmSize;
      var y := image.height - wmSize;
      if x >= 0 && y >= 0 {
        var region := Crop(image, x, y, wmSize, wmSize);
        present := IsWatermarkPresent(region, wmSize);
      } else {
        present := false;
      }
    }

    /** Tries sizes 96 and 48 in that order at the bottom-right corner. */
    method DetectWatermarkPosition(image: Image) returns (pos: Option<Position>)
      requires Valid() && image.WellFormed()
      modifies this
      ensures Valid() && CacheKept()
      ensures pos == Locate(image, AlphaMapOf(bg96), AlphaMapOf(bg48))
      ensures LocatorCacheEffect(image, AlphaMapOf(bg96), old(alphaMap48), old(alphaMap96), alphaMap48, alphaMap96)
    {
      var sizes := [96, 48];
      ghost var hit96 := Hit(image, 96, AlphaMapOf(bg96));
      ghost var hit48 := Hit(image, 48, AlphaMapOf(bg48));
      for i := 0 to |sizes|
        invariant Valid() && CacheKept()
        invariant i >= 1 ==> !hit96
        invariant i >= 2 ==> !hit48
        invariant i >= 1 && image.width >= 96 && image.height >= 96 ==> alphaMap96 != null
        invariant i == 0 || image.width < 96 || image.height < 96 ==> alphaMap96 == old(alphaMap96)
        invariant i >= 2 && image.width >= 48 && image.height >= 48 ==> alphaMap48 != null
        invariant i <= 1 || image.width < 48 || image.height < 48 ==> alphaMap48 == old(alphaMap48)
      {
        var wmSize := sizes[i];
        var present := ProbeCorner(image, wmSize);
        if present {
          return Some(Position(image.width - wmSize, image.height - wmSize, wmSize));
        }
      }
      return None;
    }

    /** Restores the box at `pos` against the map for its size. */
    method RemoveWatermarkFromRegion(image: Image, pos: Position) returns (result: Image)
      requires Valid() && image.WellFormed()
      requires pos.x >= 0 && pos.y >= 0 && 0 <= pos.size && (pos.size == 96 || pos.size <= 48)
      modifies this
      ensures Valid() && CacheKept()
      ensures result == RestoredImage(image, pos.x, pos.y, pos.size, AlphaMapOf(TemplateFor(pos.size)))
      ensures pos.size == 96 ==> alphaMap96 != null && alphaMap48 == old(alphaMap48)
      ensures pos.size != 96 ==> alphaMap48 != null && alphaMap96 == old(alphaMap96)
    {
      var m := GetAlphaMap(pos.size);
      ghost var t := TemplateFor(pos.size);
      assert |Cells(m)| == m.Length0 == |t| && |Cells(m)[0]| == m.Length1 == |t[0]|;
      result := RestoreRegion(image, pos.x, pos.y, pos.size, m);
    }

    /** The driver on a decoded image: locate, restore, then pick the output path and the
        encoder; when nothing is found the input path comes back and nothing is saved. */
    method RemoveWatermark(imagePath: string, outputPath: Option<string>, image: Image) returns (outcome: Outcome)
      requires Valid() && image.WellFormed()
      modifies this
      ensures Valid() && CacheKept()
      ensures outcome == Pipeline(imagePath, outputPath, image, AlphaMapOf(bg96), AlphaMapOf(bg48))
      ensures LocatorCacheEffect(image, AlphaMapOf(bg96), old(alphaMap48), old(alphaMap96), alphaMap48, alphaMap96)
    {
      var position := DetectWatermarkPosition(image);
      if position.None? {
        return NotDetected(imagePath);
      }
      ghost var found48, found96 := alphaMap48, alphaMap96;
      var result := RemoveWatermarkFromRegion(image, position.value);
      RestorationKeepsLocatorCacheEffect(image, AlphaMapOf(bg96), AlphaMapOf(bg48), position.value,
                                         old(alphaMap48), old(alphaMap96), found48, found96,
                                         alphaMap48, alphaMap96);
      PipelineOnHit(imagePath, outputPath, image, AlphaMapOf(bg96), AlphaMapOf(bg48));
      var target, format := SaveTarget(imagePath, outputPath);
      return Saved(target, format, result);
    }
  }

  // ----- Properties of the driver -----

  /** An image too small for the small template is never touched: the input path comes back. */
  lemma SmallImageUntouched(imagePath: string, outputPath: Option<string>, image: Image,
                            large: seq<seq<real>>, small: seq<seq<real>>)
    requires image.WellFormed() && IsGrid(large, 96, 96) && IsGrid(small, 48, 48)
    requires image.width < 48 || image.height < 48
    ensures Pipeline(imagePath, outputPath, image, large, small) == NotDetected(imagePath)
  {
  }

  /** A saved result has the input's size, never changes an alpha channel, and differs from
      the input only inside a box of side 96 or 48 flush with the bottom-right corner. */
  lemma SavedChangesOnlyCorner(imagePath: string, outputPath: Option<string>, image: Image,
                               large: seq<seq<real>>, small: seq<seq<real>>)
    requires image.WellFormed() && IsGrid(large, 96, 96) && IsGrid(small, 48, 48)
    ensures var r := Pipeline(imagePath, outputPath, image, large, small);
      r.Saved? ==>
        && Locate(image, large, small).Some?
        && r.result.WellFormed() && r.result.width == image.width && r.result.height == image.height
        && var s := Locate(image, large, small).value.size;
           forall i, j | 0 <= i < image.height && 0 <= j < image.width ::
             && r.result.rows[i][j].a == image.rows[i][j].a
             && (i < image.height - s || j < image.width - s ==> r.result.rows[i][j] == image.rows[i][j])
  {
    var r := Pipeline(imagePath, outputPath, image, large, small);
    if r.Saved? {
      var pos := Locate(image, large, small).value;
      var s := pos.size;
      assert forall i, j | 0 <= i < image.height && 0 <= j < image.width ::
        (i < image.height - s || j < image.width - s) ==> !InBox(pos.x, pos.y, s, i, j);
    }
  }

  /** The saved path is the given one, or the default whose encoder is named by the input's
      extension. */
  lemma SavedPathAndFormat(imagePath: string, outputPath: Option<string>, image: Image,
                           large: seq<seq<real>>, small: seq<seq<real>>)
    requires image.WellFormed() && IsGrid(large, 96, 96) && IsGrid(small, 48, 48)
    ensures var r := Pipeline(imagePath, outputPath, image, large, small);
      r.Saved? ==>
        && (outputPath.Some? ==> r.path == outputPath.value)
        && (outputPath.None? ==> r.path == DefaultOutputPath(imagePath)
                                 && r.format == FormatOfExtension(SplitExt(imagePath).1))
  {
    DefaultPathFormat(imagePath);
  }

  /** End to end: when the watermark is found and the image inside its box is the exact
      composite of an original under the map (opacities at most 0.99 where they count, the
      original elsewhere), the saved result is that original. */
  lemma DetectedExactBlendRecovered(imagePath: string, outputPath: Option<string>,
                                    original: Image, image: Image,
                                    large: seq<seq<real>>, small: seq<seq<real>>)
    requires image.WellFormed() && original.WellFormed()
    requires original.width == image.width && original.height == image.height
    requires IsGrid(large, 96, 96) && IsGrid(small, 48, 48)
    requires Locate(image, large, small).Some?
    requires var pos := Locate(image, large, small).value;
      var alphas := if pos.size == 96 then large else small;
      forall i, j | 0 <= i < image.height && 0 <= j < image.width ::
        if InBox(pos.x, pos.y, pos.size, i, j) && alphas[i - pos.y][j - pos.x] > AlphaThreshold
        then alphas[i - pos.y][j - pos.x] <= MaxAlpha
             && ExactBlend(original.rows[i][j], image.rows[i][j], alphas[i - pos.y][j - pos.x])
        else image.rows[i][j] == original.rows[i][j]
    ensures Pipeline(imagePath, outputPath, image, large, small).Saved?
    ensures Pipeline(imagePath, outputPath, image, large, small).result == original
  {
    var pos := Locate(image, large, small).value;
    var alphas := if pos.size == 96 then large else small;
    RestoreRecoversOriginal(original, image, pos.x, pos.y, pos.size, alphas);
    PipelineOnHit(imagePath, outputPath, image, large, small);
  }

  /** The restoration after a hit keeps the locator's cache effect: it fills the store of the
      detected size, whose box the locator has already found to fit, and leaves the other. */
  lemma RestorationKeepsLocatorCacheEffect(image: Image, large: seq<seq<real>>, small: seq<seq<real>>,
                                           pos: Position,
                                           before48: array2?<real>, before96: array2?<real>,
                                           found48: array2?<real>, found96: array2?<real>,
                                           after48: array2?<real>, after96: array2?<real>)
    requires image.WellFormed() && IsGrid(large, 96, 96) && IsGrid(small, 48, 48)
    requires Locate(image, large, small) == Some(pos)
    requires LocatorCacheEffect(image, large, before48, before96, found48, found96)
    requires pos.size == 96 ==> after96 != null && after48 == found48
    requires pos.size != 96 ==> after48 != null && after96 == found96
    ensures LocatorCacheEffect(image, large, before48, before96, after48, after96)
  {
  }

  /** When the locator finds a box, the driver saves the box restored under its size's map. */
  lemma PipelineOnHit(imagePath: string, outputPath: Option<string>, image: Image,
                      large: seq<seq<real>>, small: seq<seq<real>>)
    requires image.WellFormed() && IsGrid(large, 96, 96) && IsGrid(small, 48, 48)
    requires Locate(image, large, small).Some?
    ensures var pos := Locate(image, large, small).value;
      var out := OutputTarget(imagePath, outputPath);
      Pipeline(imagePath, outputPath, image, large, small)
        == Saved(out, ChooseFormat(out),
                 RestoredImage(image, pos.x, pos.y, pos.size, if pos.size == 96 then large else small))
  {
  }
}
