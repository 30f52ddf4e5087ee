# Watermark remover: a verified Dafny model

This project models the pixel arithmetic of `WatermarkRemover` in `remove_watermark.py`.
The tool strips a semi-transparent white logo that an image generator stamps on the
bottom-right corner of its images. It has these parts:

- **Alpha-map builder** (`AlphaMap`). It turns a decoded RGBA template into a grid of
  opacities. A template pixel with alpha 0 gets opacity 0. Any other pixel gets
  `max(255 - r, 255 - g, 255 - b) / 255`. The loop fills a fresh zeroed `array2<real>`
  one cell at a time.
- **Alpha-map cache** (`Remover.WatermarkRemover`). A class holds the two templates
  (48×48 and 96×96). Its two nullable array fields each hold one map once computed.
  Each map is computed on first request and never replaced. Any size other than 48 or 96
  gets the 48 map.
- **Presence test** (`Presence`). It scans only the overlap of the region and the map.
  A position is counted when its opacity exceeds 0.002. The opacity is added to the
  correlation only when the pixel's brightness lies strictly between 200 and 255. The
  result is "present" when something was counted and correlation / count exceeds 0.01.
  The two accumulators form a small `Tally` record. A separate `Decide` predicate makes
  the decision on the average (`Average`). `PresentByProduct` restates the test with the
  division cross-multiplied.
- **Locator** (`Remover.Locate`, `DetectWatermarkPosition`). Size 96 is tried first and
  then 48. Each box sits exactly in the bottom-right corner, with no margin. One pass of
  the loop is `ProbeCorner`. `LocatorCacheEffect` states which stored maps the locator
  fills and which it leaves as they were.
- **Inverse compositor** (`Compositor`). It inverts `blended = original·(1 − a) + 255·a`
  for each RGB channel. The opacity is capped at 0.99. Pixels with opacity ≤ 0.002 are
  skipped, and so are pixels outside the image. Each result is clamped to [0, 255]. The
  alpha channel is never written. The work happens in place on an `array3<real>` float
  copy of the image (height × width × 4). The copy is then cast back to 8-bit channels
  by truncation.
- **Output rules** (`OutputPath`). When no output path is given, the default is
  `base + "_no_watermark" + ext`, split by the POSIX `splitext` rule. The encoder is
  chosen from the lower-cased suffix: `.png` gives PNG, `.jpg`/`.jpeg` give JPEG, and
  any other suffix leads to `save` without a format argument (`DefaultEncoder`), where
  the image library picks the format from the file extension itself.

Threshold values, brightness bounds and sizes all follow `remove_watermark.py`. The
boxes have no margins. The opacity is `max(255 − r, 255 − g, 255 − b)/255` where the
template alpha is positive. The presence test is a threshold on average opacity.

The docstring of `remove_watermark` (remove_watermark.py:253) says that a missing output
path overwrites the original file. The code at lines 274-277 writes to
`base + "_no_watermark" + ext` instead. The model follows the code, and
`OutputPath.DefaultOutputPath` proves that the default path never equals the input path.

Images are `Pixels.Image` values: width, height and rows of `Pixel(r, g, b, a)`, where
each channel is a `Byte` in 0..255. Opacities and channel arithmetic use Dafny `real`.
The uint8 cast is `Floor` after the clamp.

Every loop of the source becomes a method proved against a specification function:
`CalculateAlphaMap` against `AlphaMapOf`, `ScanRegion` against `IsPresent`,
`RestoreRegion` against `RestoredImage`, and `DetectWatermarkPosition` against `Locate`.
The lemmas state what the source promises about those functions.

## Model

| member | source | states |
|---|---|---|
| `AlphaMap.AlphaOf` | remove_watermark.py:138-142 | opacity lies in [0,1]; it is 0 exactly when the template alpha is 0 or the pixel is pure white; otherwise it equals (255 − min(r,g,b))/255, the same value as the max-of-differences formula |
| `AlphaMap.AlphaMapOf` | remove_watermark.py:132-144 | the map has the template's rows and row lengths; each entry is in [0,1], 0 where the template alpha is 0, and (255 − min(r,g,b))/255 elsewhere |
| `AlphaMap.CalculateAlphaMap` | remove_watermark.py:127-144 | the zero-initialised array filled by the nested loops has the template's shape and holds exactly `AlphaMapOf(template)` |
| `Remover.WatermarkRemover.constructor` | remove_watermark.py:114-118 | the remover starts with the two templates and both cache fields empty |
| `Remover.WatermarkRemover.GetAlphaMap` | remove_watermark.py:146-158 | the returned map is the alpha map of the 96 template for size 96 and of the 48 template for every other size; it is stored in the matching field; a field once set is never replaced, so later calls return the same array; the other field is untouched |
| `Presence.ScanRegion` | remove_watermark.py:191-210 | the nested scan over the overlap min(region, map) returns exactly `IsPresent(region, map)`: something counted and correlation/count > 0.01 |
| `Presence.IsPresent` | remove_watermark.py:191-210 | a region judged present had at least one counted position in the overlap and a positive correlation |
| `Presence.PresentByProduct` | remove_watermark.py:191-210 | the region is judged present exactly when the scan of the overlap counted something and its correlation exceeds 0.01 times the count |
| `Presence.DecideByProduct` | remove_watermark.py:206-210 | the average test is equivalent to count > 0 and correlation > 0.01·count |
| `Presence.WeakMapAbsent` | remove_watermark.py:196-210 | when no map entry in the overlap exceeds 0.002, the count stays 0 and the result is "absent" |
| `Presence.NoBrightAbsent` | remove_watermark.py:198-205 | when no counted pixel has brightness strictly inside (200,255), the correlation is 0 and the result is "absent" |
| `Presence.DimRegionAbsent` | remove_watermark.py:201-203 | counted pixels that all have brightness ≤ 200 give "absent" |
| `Presence.WhiteRegionAbsent` | remove_watermark.py:201-203 | counted pixels that are all pure white (brightness 255) give "absent" |
| `Presence.StrongBrightPresent` | remove_watermark.py:196-208 | when some overlap entry exceeds 0.002 and every counted pixel is bright with opacity > 0.01, the result is "present" |
| `Remover.WatermarkRemover.IsWatermarkPresent` | remove_watermark.py:181-210 | the result is exactly `IsPresent(region, map)` for the alpha map of the 96 template when the size is 96 and of the 48 template otherwise; afterwards the field for the size is set (96 for size 96, 48 otherwise) and the other field is as before; a map already cached is kept |
| `Remover.Locate` | remove_watermark.py:165-179 | the result is None or (width − s, height − s, s) with s ∈ {96, 48} and both coordinates ≥ 0; a returned box passed the presence test for its size; a positive 96 test wins; None exactly when neither size is accepted; an image with either side < 48 yields None |
| `Remover.WatermarkRemover.ProbeCorner` | remove_watermark.py:170-176 | the probe of one size is exactly `Hit` for that size's map: false when the box does not fit, otherwise the presence test on the bottom-right crop; when the box fits the field for the size is set and the other is as before, otherwise both are as before |
| `Remover.WatermarkRemover.DetectWatermarkPosition` | remove_watermark.py:160-179 | the loop over [96, 48] with its early return gives exactly `Locate` under the two templates' alpha maps; afterwards the 96 field is set when the image is at least 96×96 and is otherwise as before; the 48 field is set when the image is at least 48×48 and the 96 test failed, and is as before when the 96 test passed or the image is below 48 |
| `Pixels.Crop` | remove_watermark.py:175 | the cropped region has the box's size, and pixel (i,j) comes from (y+i, x+j) of the image |
| `Compositor.Clip` | remove_watermark.py:243 | the result lies in [0,255]; values already inside are kept; values below become 0 and values above become 255 |
| `Compositor.Uncomposite` | remove_watermark.py:238-242 | the inverse formula is a right inverse of compositing: compositing its result under the same opacity gives back the blended value |
| `Compositor.CapAlpha` | remove_watermark.py:234-235 | the capped opacity is at most 0.99, at most the input, and equal to one of them |
| `Compositor.RestoreValue` | remove_watermark.py:235-243 | each rewritten channel value lies in [0,255] |
| `Compositor.Truncate` | remove_watermark.py:245 | the 8-bit cast is the integer part of the clamped value |
| `Compositor.RestoredImage` | remove_watermark.py:225-245 | the restored image keeps its size; no alpha channel changes; pixels outside the box, and pixels whose map entry is ≤ 0.002, are unchanged |
| `Compositor.RestoreRegion` | remove_watermark.py:218-245 | the triple loop over the float buffer followed by the cast gives exactly `RestoredImage(image, x, y, size, map)`; box pixels beyond the image edge are skipped |
| `Compositor.RestoreRow` | remove_watermark.py:226-243 | one pass of the middle loop moves the buffer from "rows above dy processed" to "rows up to dy processed": in-image pixels of that box row above the threshold are restored, every other cell keeps its value |
| `Compositor.RestoreChannels` | remove_watermark.py:239-243 | channels 0..2 of one pixel are replaced by the clamped inverse value computed from their old value; every other cell, including the alpha channel, keeps its value |
| `Compositor.FinalBuffer` | remove_watermark.py:245 | once the loops have finished, every buffer cell is in range and the cast buffer equals the restored image |
| `CompositorFacts.RestoreInvertsComposite` | remove_watermark.py:238-242 | round trip: if blended = orig·(1−a) + 255·a with orig ∈ [0,255] and 0.002 < a ≤ 0.99, the inverse returns orig exactly |
| `CompositorFacts.RestoreByteInvertsComposite` | remove_watermark.py:238-245 | the same round trip survives the 8-bit cast whenever the blended value is a byte |
| `CompositorFacts.RestoreErrorBound` | remove_watermark.py:235-243 | a stored value within err of the exact composite is restored to within err/(1−a) of the original |
| `CompositorFacts.CompositeOfRestore` | remove_watermark.py:238-243 | compositing the restored value gives back the stored value iff the stored value is ≥ 255·a, i.e. iff the clamp did not fire |
| `CompositorFacts.WeakBoxUnchanged` | remove_watermark.py:231-233 | a box whose map entries are all ≤ 0.002 leaves the whole image unchanged |
| `CompositorFacts.RestoreRecoversOriginal` | remove_watermark.py:225-245 | if the box is an exact composite of an original (opacity ≤ 0.99 where it exceeds 0.002) and the image equals the original everywhere else, restoration returns the original image |
| `Remover.WatermarkRemover.RemoveWatermarkFromRegion` | remove_watermark.py:212-245 | the result is `RestoredImage` under the cached map for the position's size; afterwards the field for the box's size is set and the other field is as before |
| `Remover.Pipeline` | remove_watermark.py:262-288 | nothing is saved exactly when the locator finds nothing, and then the input path is returned; an image with a side below 48 is never saved; a saved outcome uses the output target, the encoder its suffix names, and an image of the input's size |
| `Remover.WatermarkRemover.RemoveWatermark` | remove_watermark.py:262-288 | the driver's outcome is exactly `Pipeline`: the input path when nothing is found; otherwise the chosen path, the encoder picked from its suffix, and the restored image; the cache ends in the same state as after `DetectWatermarkPosition`: afterwards the 96 field is set when the image is at least 96×96 and is otherwise as before; the 48 field is set when the image is at least 48×48 and the 96 test failed, and is as before when the 96 test passed or the image is below 48 |
| `Remover.SmallImageUntouched` | remove_watermark.py:264-266 | an image with a side shorter than 48 returns the input path and saves nothing |
| `Remover.SavedChangesOnlyCorner` | remove_watermark.py:262-285 | a saved result has the input's size, keeps every alpha channel, and differs from the input only inside the 96 or 48 box in the bottom-right corner |
| `Remover.SavedPathAndFormat` | remove_watermark.py:273-285 | the saved path is the given one; when none is given it is the default path, saved with the encoder named by the input's extension |
| `Remover.RestorationKeepsLocatorCacheEffect` | remove_watermark.py:262-271 | the restoration that follows a hit leaves the cache as the locator left it, as described for `DetectWatermarkPosition` (`LocatorCacheEffect`), because it only fills the store of the size the locator already probed |
| `Remover.DetectedExactBlendRecovered` | remove_watermark.py:262-271 | end to end: if the watermark is found and its box is an exact composite of an original, the saved image is that original |
| `OutputPath.SplitExt` | remove_watermark.py:276 | base + ext is the path; ext is empty or starts with a dot and contains no further dot and no slash; a non-empty ext leaves a non-dot character in the base's last component; an empty ext means the last component has no dot, or only dots before its last dot |
| `OutputPath.DefaultOutputPath` | remove_watermark.py:276-277 | the default path is `_no_watermark` longer than the input, so it never equals the input path; it starts with the input's stem and ends with the input's extension |
| `OutputPath.OutputTarget` | remove_watermark.py:274-277 | a given output path is used as is; otherwise the default `base + "_no_watermark" + ext` is used |
| `OutputPath.DefaultPathSplit` | remove_watermark.py:276-277 | the default path splits again into the suffixed base and the same extension |
| `OutputPath.SaveTarget` | remove_watermark.py:273-285 | the path the driver saves to is exactly `OutputTarget`, and the encoder it picks is exactly `ChooseFormat` of that path |
| `OutputPath.ChooseFormat` | remove_watermark.py:280-285 | PNG exactly when the last four characters, lower-cased, are `.png`; JPEG exactly when the lower-cased tail is `.jpg` or `.jpeg`; otherwise `DefaultEncoder`, i.e. `save` without a format argument |
| `OutputPath.FormatByExtension` | remove_watermark.py:280-285 | for a path ending in a dotted extension, the encoder depends only on the lower-cased extension: .png gives PNG, .jpg/.jpeg give JPEG, anything else the default |
| `OutputPath.DefaultPathFormat` | remove_watermark.py:274-285 | the encoder label of the default output path is the one the input's extension names; an input without an extension gets `DefaultEncoder` (`save` without a format argument) |
| `OutputPath.FormatIgnoresCase` | remove_watermark.py:280-282 | the choice of encoder ignores letter case |

## Left out

- Decoding the embedded templates: the Base64 text and PNG decoding (remove_watermark.py:22-103 and 120-125). The decoded 48×48 and 96×96 RGBA grids are constructor parameters.
- Pillow calls. `Image.open`, `convert`, `copy`, `fromarray` and `save` are image I/O in a foreign library. `crop` is modelled as sub-grid extraction. The saving itself is not modelled: the driver returns the path, the encoder label and the image handed to `save`. The JPEG conversion to RGB and the quality setting are not modelled either.
- Pillow's `save` without a format argument picks the format from the extension and raises for a missing or unknown one. This affects every input without an extension when no output path is given. The model reports `Saved(…, DefaultEncoder, …)` in that case and does not model the exception.
- `main`, `sys.argv`, `os.path.exists`, `print` and `sys.exit`. These are command-line handling and I/O.
- numpy float32 rounding. Opacities and channel arithmetic are exact reals, so no IEEE behaviour is modelled.
- `str.lower` is modelled for ASCII letters only. Unicode case mapping is not.
- `os.path.splitext` follows the POSIX rule. The Windows alternative separator is not modelled.
- Remover.WatermarkRemover.RemoveWatermarkFromRegion: requires non-negative coordinates and a size of 96 or at most 48. Callers only ever pass the locator's result, which meets this. The source would index numpy arrays with negative values (which wraps around), or run past the 48 map (an IndexError). Neither is modelled.
- Each source method that calls `_get_alpha_map` is split into a class method, which fetches the map from the cache, and a module-level method that runs the loops (`ScanRegion`, `RestoreRegion`). The inner channel loop is the helper `RestoreChannels`. The computation is the same.
- Nothing here is concurrent. The cache is written in a single thread, as in the source.
