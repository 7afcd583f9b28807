# Texture masking of tiled orthoimage mosaics — a Dafny model

The scripts hide features of an orthoimage mosaic, such as dunes or vegetation, under a seamless
fill texture. The work for each tile of the mosaic runs in four steps:

- **Label the tile.** The tile is labelled by where it sits in the mosaic's bounding extent: one of
  the corners `bl`, `tl`, `tr`, `br`, one of the edges `l`, `t`, `r`, `b`, or the interior `i`.
- **Rasterise a mask.** An occlusion polygon is rasterised into a mask for the tile. Two sentinel
  unit squares outside the tile's corners make the rasterised layer cover the whole tile.
- **Crop the texture.** The seamless texture is resized to the largest tile size. A box that
  depends on the tile's label is then cut out of it.
- **Composite.** The tile and the texture are blended through the mask. Sidecar georeferencing
  files are copied to the output.

A separate script turns any image into a seamless texture by mirror-tiling it into a 2w x 2h image.

The model keeps the decision logic and the pixel-level rules. Toolkit calls (Describe, Clip,
PolygonToRaster, GetCount and the rest) become plain inputs. The raster algebra that decides the
mask (`Con`, `IsNull` and the unique-value count of `GetRasterProperties`) is modelled as functions
on grids. The inputs are:

- tile records with `real` coordinates;
- the list of clipped polygons;
- the rasterised ID grid, whose cells are `Option<int>` with `None` for NoData;
- the resized and blurred images that the imaging library hands back.

Images are rectangular `seq<seq<T>>` grids. File-system effects are sequences of actions
applied to a set of existing paths.

Modules:

- `Wrappers` (`wrappers.dfy`): `Option`.
- `Rasters` (`rasters.dfy`): grids, bytes, RGB pixels, formats, and row-major listing of a grid.
- `Text` (`text.dfy`): ASCII `lower()`, the `in` test on strings, and `rfind`.
- `Paths` (`paths.dfy`): Windows `os.path` functions `basename`, `dirname`, `splitext` and `join`,
  and the `pathlib` properties `name` and `stem`.
- `MosaicTextureMasking` (`mosaic.dfy`): mosaic extent, tile labels, largest tile size, the crop
  tuple of `get_clip_ext` and a corrected crop box, cropping, per-tile jobs and output names.
- `CreateMask` (`createmask.dfy`): sentinel squares, `is_masked`, the `Con`-based mask rule,
  output-extension dispatch, scratch files and their clean-up.
- `FillMaskedImage` (`fillmasked.dfy`): the fast-path test, the composite arithmetic, the
  blend-method dispatch, sidecar copies, and the whole of `mask_image`.
- `SeamlessTexture` (`seamless.dfy`): `rreplace`, the flips, the pastes, the mirror tiling, and
  the refusal to overwrite.

## Behaviour of the code worth knowing

- **Unknown position label.** `get_clip_ext` returns no tuple for a label outside the nine, and
  `texture.crop(None)` copies the whole texture. `MosaicTextureMasking.Crop` models that copy.
- **Crop origin for a top-right tile.** The box of a `tr` tile starts at
  (0, `max_height - height`), not at the texture's top-left corner (`MosaicTextureMasking.ClipExt`,
  Scripts/Mosaic_Texture_Masking.py:47-48).
- **Crop box for a bottom-left tile.** The tuple for `bl` and four other labels gives a width and
  height where the crop expects its right and lower edges. See "Findings".

## Model

| member | source | states |
|---|---|---|
| `MosaicTextureMasking.PositionOf` | Scripts/Mosaic_Texture_Masking.py:118-136 | reading a label gives a position whose label is that string |
| `MosaicTextureMasking.CodeRoundTrip` | Scripts/Mosaic_Texture_Masking.py:118-136 | each of the nine positions has its own label, and reading the label gives the position back |
| `MosaicTextureMasking.MinOf` | Scripts/Mosaic_Texture_Masking.py:105-107 | `min(..., key=...)` gives a value at most every element's key, and some element attains it |
| `MosaicTextureMasking.MaxOf` | Scripts/Mosaic_Texture_Masking.py:106-108 | `max(..., key=...)` gives a value at least every element's key, and some element attains it |
| `MosaicTextureMasking.MaxNat` | Scripts/Mosaic_Texture_Masking.py:17-18 | the largest height or width is at least every tile's, and some tile attains it |
| `MosaicTextureMasking.MosaicExtent` | Scripts/Mosaic_Texture_Masking.py:105-109 | there is no extent exactly when the list is empty; otherwise every tile lies inside it and each of its four bounds is some tile's coordinate |
| `MosaicTextureMasking.Classify` | Scripts/Mosaic_Texture_Masking.py:117-136 | for each of the nine labels, the exact combination of touched mosaic edges that yields it under first-match order; corners win over edges, and `i` means no edge is touched |
| `MosaicTextureMasking.LabelTiles` | Scripts/Mosaic_Texture_Masking.py:103-138 | no result exactly for an empty list; otherwise one labelled record per tile, in order, with the record unchanged, the label computed against the mosaic extent, and that extent returned |
| `MosaicTextureMasking.LeftmostTileLabel` | Scripts/Mosaic_Texture_Masking.py:118-128 | a tile whose left edge is leftmost in the mosaic is labelled bl, tl or l |
| `MosaicTextureMasking.SingleTileIsBottomLeft` | Scripts/Mosaic_Texture_Masking.py:105-119 | a one-tile mosaic has that tile's extent and labels it bl |
| `MosaicTextureMasking.MaxSizes` | Scripts/Mosaic_Texture_Masking.py:17-18 | no sizes for an empty list; otherwise the height and width are at least every tile's, and some tile attains each |
| `MosaicTextureMasking.ClipExt` | Scripts/Mosaic_Texture_Masking.py:42-60 | a tuple exists exactly for the nine labels; with tile sizes within the largest sizes every entry is non-negative; for tr, t, r and i the box is exactly width x height |
| `MosaicTextureMasking.ClipExtPairs` | Scripts/Mosaic_Texture_Masking.py:42-60 | bl/tl, br/b, tr/t and r/i get identical tuples |
| `MosaicTextureMasking.ClipExtSize` | Scripts/Mosaic_Texture_Masking.py:43-58 | for bl, tl, br, b and l the box is width x height exactly when the tile is as large as the largest tile in the direction(s) concerned |
| `MosaicTextureMasking.ClipExtBottomLeftCounterexample` | Scripts/Mosaic_Texture_Masking.py:43-63 | a 100 x 100 bl tile with largest size 256 x 256 gets the box (156, 156, 100, 100), and the crop is refused |
| `MosaicTextureMasking.IntendedCropBox` | Scripts/Mosaic_Texture_Masking.py:42-63 | a box exists exactly for the nine labels; it is exactly width x height, keeps the code's origin, equals the code's box for tr, t, r and i, lies inside the resized texture, and touches the texture's right or left edge and its lower or upper edge as the label dictates |
| `MosaicTextureMasking.Crop` | Scripts/Mosaic_Texture_Masking.py:63 | no box copies the image; a box with right < left or lower < upper is refused; otherwise the result has the box's size and holds the box's pixels, filled outside the image |
| `MosaicTextureMasking.AlignedTextureFits` | Scripts/Mosaic_Texture_Masking.py:62-63 | with the texture resized to the largest size and a valid label, the corrected crop is exactly the tile's size and every pixel comes from the texture |
| `MosaicTextureMasking.TextureJobs` | Scripts/Mosaic_Texture_Masking.py:16-23 | no jobs exactly for an empty list (the largest size fails); otherwise one job per labelled tile |
| `MosaicTextureMasking.TextureJob` | Scripts/Mosaic_Texture_Masking.py:17-23 | the i-th job carries the i-th tile's path, size and label, the output name built from its path, and the mosaic's largest sizes, shared by all jobs and at least the tile's |
| `MosaicTextureMasking.JobTextureFits` | Scripts/Mosaic_Texture_Masking.py:17-63 | every job's corrected texture crop has exactly its tile's width and height |
| `MosaicTextureMasking.DesignName` | Scripts/Mosaic_Texture_Masking.py:21 | the output's base name is the tile's file name without its extension followed by `_design.jpg`, placed in the output folder |
| `MosaicTextureMasking.MaskName` | Scripts/Mosaic_Texture_Masking.py:35 | the mask's base name is the output's stem followed by `_mask.jpg`, and it lies in the output's directory |
| `MosaicTextureMasking.DesignNameIsJpeg` | Scripts/Mosaic_Texture_Masking.py:21 | every output name has the extension `.jpg`, and its stem is the tile's file stem followed by `_design` |
| `MosaicTextureMasking.DesignNameContainsJpeg` | Scripts/Mosaic_Texture_Masking.py:21 | every output name, lower-cased, contains `.jpg` |
| `MosaicTextureMasking.MaskNameIsJpeg` | Scripts/Mosaic_Texture_Masking.py:35 | whatever the output name, the temporary mask name has the extension `.jpg` |
| `MosaicTextureMasking.TileFilesAreJpeg` | Scripts/Mosaic_Texture_Masking.py:21-36 | for every tile the mask is written as JPEG with no unsupported-format report, and on the fast path the output is copied as JPEG |
| `CreateMask.SentinelSquares` | Scripts/create_mask.py:47-61 | the squares are [XMin-2, XMin-1] x [YMin-2, YMin-1] and [XMax+1, XMax+2] x [YMax+1, YMax+2]; each ring is a unit square, disjoint from the tile extent; the two squares are disjoint from each other for a well-formed extent |
| `CreateMask.Augment` | Scripts/create_mask.py:64-85 | the clipped layer gains exactly two features, the two squares, after the clipped ones |
| `CreateMask.IsMasked` | Scripts/create_mask.py:87-93 | there is an answer exactly for counts of at least 1; the count is returned, and the verdict is masked exactly when the count is not 2 |
| `CreateMask.AugmentedIsMasked` | Scripts/create_mask.py:84-95 | after augmentation there is always an answer, with count = clipped + 2, and it is masked exactly when some polygon survived the clip |
| `CreateMask.CoverMaskValues` | Scripts/create_mask.py:112-114 | the whole-cover mask has at least two distinct values exactly when the ID grid has both data and NoData cells |
| `CreateMask.DeriveMask` | Scripts/create_mask.py:107-118 | per cell: all data cells 255 when not masked; 255 on ID 0 and 0 on other IDs for counts below 4; for larger counts, the whole-cover mask when it has two values, else 0 where ID <= count-2 and 255 elsewhere; NoData kept |
| `CreateMask.ExtensionDispatch` | Scripts/create_mask.py:122-135 | JPEG is written exactly when the lowered extension contains "jpg", TIFF exactly when it contains "tif", JPEG first; an error is reported exactly when the lowered extension is neither ".tif" nor ".jpg" |
| `CreateMask.SupportedExtension` | Scripts/create_mask.py:122-135 | ".jpg" and ".tif", in any case, are written once in their own format with no error |
| `CreateMask.LongTiffExtension` | Scripts/create_mask.py:129-135 | ".tiff" is written as TIFF and still reported as unsupported |
| `CreateMask.ScratchNames` | Scripts/create_mask.py:98-119 | the three scratch names are pairwise distinct, differ from the output name and from the in-memory clip |
| `CreateMask.CreateMaskRun` | Scripts/create_mask.py:73-139 | the verdict is (some polygon clipped, clipped + 2); the mask has the ID grid's shape; the mask is `DeriveMask` of that verdict over the ID grid, so with nothing clipped all data cells are 255; the output is written in exactly the dispatched formats; the error is reported exactly for unsupported extensions |
| `CreateMask.ApplyAppend` | Scripts/create_mask.py:83-139 | running two effect sequences one after the other is running their concatenation |
| `CreateMask.ApplyRunOps` | Scripts/create_mask.py:83-139 | applying the run's effects removes the in-memory clip and the three scratch rasters and adds the output exactly when some format was written |
| `CreateMask.RunOps` | Scripts/create_mask.py:100-139 | the output is written in exactly the dispatched formats, and the unsupported-extension error is reported exactly when the dispatch flags it |
| `CreateMask.RunOpsOrder` | Scripts/create_mask.py:100-139 | the effects in the code's order: the in-memory clip, the ID raster, the removal of the clip, the clipped raster and the saved mask first; then only the output writes, in the dispatched order (JPEG before TIFF); then the error report when the extension is unsupported; the three deletions last |
| `CreateMask.InterruptedRunLeavesScratch` | Scripts/create_mask.py:100-139 | a run cut off by a raising toolkit call after the ID raster is made and before the deletions leaves every scratch raster made so far on disk |
| `CreateMask.CreateMaskCleansUp` | Scripts/create_mask.py:100-139 | after a normal return no scratch file remains, the output is added when a format is written and is otherwise left as it was, and every other file is untouched |
| `FillMaskedImage.HasMaskingValueIff` | Scripts/fill_masked_image.py:38-40 | the fast-path test holds exactly when some mask cell is 0 |
| `FillMaskedImage.Div255Exact` | Scripts/fill_masked_image.py:49-55 | the composite's rounding division returns a byte exactly from its multiple of 255 |
| `FillMaskedImage.BlendBetween` | Scripts/fill_masked_image.py:49-55 | the composite's rounded weighted mean of two channel values never leaves the interval between them |
| `FillMaskedImage.BlendChannel` | Scripts/fill_masked_image.py:49-55 | a blended channel is the first image's where the mask is 255, the second's where it is 0, and lies between the two otherwise |
| `FillMaskedImage.Composite` | Scripts/fill_masked_image.py:49-55 | the composite has the images' shape, keeps the source where the mask is 255 and takes the texture where it is 0 |
| `FillMaskedImage.CompositeBinary` | Scripts/fill_masked_image.py:55 | through a mask of only 0 and 255 the composite equals the per-pixel select |
| `FillMaskedImage.BlendMask` | Scripts/fill_masked_image.py:46-55 | a blend mask exists exactly for "BoxBlur", "GaussianBlur" and "None"; both blur names use the feathered mask and "None" the mask itself |
| `FillMaskedImage.SidecarAttempts` | Scripts/fill_masked_image.py:11-23 | when the lowered output name contains ".jpg", .jgw, .jpg.aux.xml and .jpg.xml are tried in order from the source stem to the output stem; otherwise nothing is tried |
| `FillMaskedImage.CopyAuxiliaryFiles` | Scripts/fill_masked_image.py:11-23 | nothing is copied unless the lowered output name contains ".jpg"; every sidecar attempt whose source can be copied is copied; every copy made is a sidecar attempt with a copyable source |
| `FillMaskedImage.Copies` | Scripts/fill_masked_image.py:17-21 | every attempt whose source can be copied is copied, and nothing else; a failed copy does not stop the others |
| `FillMaskedImage.CopiesAppend` | Scripts/fill_masked_image.py:17-21 | the copies follow the attempts' order, one per copyable attempt: the copies of two runs of attempts are the first run's followed by the second's |
| `FillMaskedImage.FastCopies` | Scripts/fill_masked_image.py:60-67 | the fast path copies the source as JPEG exactly when the lowered output name contains ".jpg", as TIFF exactly when it contains ".tif", each at most once and JPEG first, and does nothing else |
| `FillMaskedImage.CompositeRun` | Scripts/fill_masked_image.py:41-59 | it fails exactly for an unknown method, after removing an existing output; otherwise it removes an existing output, saves an image of the source's shape and then copies the sidecars |
| `FillMaskedImage.MaskImage` | Scripts/fill_masked_image.py:26-67 | with no 0 in the mask, only the fast-path copies happen; it fails exactly for a mask with a 0 and an unknown method; a successful composite saves an image of the source's shape between the removal and the sidecar copies |
| `FillMaskedImage.BinaryMaskSelects` | Scripts/fill_masked_image.py:54-58 | with "None" and a 0/255 mask that marks some pixel, the saved image is the source where the mask is 255 and the texture where it is 0 |
| `FillMaskedImage.BlurMethodsAgree` | Scripts/fill_masked_image.py:46-53 | "BoxBlur" and "GaussianBlur" give the same run on the same inputs |
| `FillMaskedImage.KeepAllIsCopy` | Scripts/fill_masked_image.py:38-67 | an all-255 mask gives the plain copy whatever the method and texture, with no sidecar copies |
| `SeamlessTexture.RReplace` | Scripts/generate_seamless_texturemap.py:11-12 | there is no result exactly for an empty pattern |
| `SeamlessTexture.RReplaceLast` | Scripts/generate_seamless_texturemap.py:11-12 | an absent pattern leaves the string unchanged; otherwise the result replaces the one occurrence that has no later occurrence |
| `SeamlessTexture.RReplaceSelf` | Scripts/generate_seamless_texturemap.py:11-12 | replacing a pattern by itself gives the string back |
| `SeamlessTexture.RReplaceKeepsPrefix` | Scripts/generate_seamless_texturemap.py:11-12 | the text before the last occurrence and after it is kept, and the length changes by the length difference |
| `SeamlessTexture.FlipsAreInvolutions` | Scripts/generate_seamless_texturemap.py:38-43 | flipping top to bottom twice, or left to right twice, gives the image back |
| `SeamlessTexture.MirrorTile` | Scripts/generate_seamless_texturemap.py:32-48 | the result is 2w x 2h and each pixel is the source pixel at the mirrored coordinates |
| `SeamlessTexture.MirrorTileQuadrants` | Scripts/generate_seamless_texturemap.py:38-48 | top-left is the source, bottom-left its top-bottom flip, top-right its left-right flip, bottom-right both |
| `SeamlessTexture.MirrorTileSymmetric` | Scripts/generate_seamless_texturemap.py:38-48 | pixel (x, y) equals (2w-1-x, y) and (x, 2h-1-y), so opposite edges match |
| `SeamlessTexture.MirrorTileIgnoresCanvas` | Scripts/generate_seamless_texturemap.py:36-48 | the result does not depend on the resized canvas the quadrants are pasted into |
| `SeamlessTexture.SeamlessTexture` | Scripts/generate_seamless_texturemap.py:26-49 | an existing output is left alone; otherwise the mirror tiling is saved |
| `Paths.Basename` | Scripts/Mosaic_Texture_Masking.py:21 | the base name has no separator, ends the path, and is preceded by a separator or is the whole path |
| `Paths.Dirname` | Scripts/Mosaic_Texture_Masking.py:35 | the text up to the last separator with trailing separators stripped, or kept whole when it is only separators; empty exactly when the path has no separator |
| `Paths.Join` | Scripts/Mosaic_Texture_Masking.py:21-35 | a rooted second part replaces the first; otherwise the parts are concatenated, with one backslash between them exactly when the first is non-empty and does not end in a separator |
| `Paths.SplitExt` | Scripts/create_mask.py:98-122 | the root and extension concatenate to the path; the extension is empty or a dot followed by no dot or separator, with a non-dot character before it in the last component; when the last dot has such a character before it in the last component, the extension starts at that dot |
| `Paths.PathName` | Scripts/Mosaic_Texture_Masking.py:35 | the last component of the path with trailing separators removed: it ends that stripped path and is preceded by a separator or is all of it |
| `Paths.PathStem` | Scripts/Mosaic_Texture_Masking.py:35 | the name up to a dot that is neither its first nor its last character and has no dot after it; the whole name when there is no such dot |
| `Paths.DirnameJoin` | Scripts/Mosaic_Texture_Masking.py:35 | joining a directory as `dirname` returns it to a separator-free name, and splitting the result, gives the directory and the name back |
| `Paths.JoinSplit` | Scripts/Mosaic_Texture_Masking.py:21-35 | joining a folder and a separator-free name, then taking the folder and base name, gives them back |
| `Paths.JoinedExt` | Scripts/Mosaic_Texture_Masking.py:21-35 | a stem, a dot-free suffix and an extension, joined to any folder, keep that extension |
| `Paths.JoinedStem` | Scripts/Mosaic_Texture_Masking.py:21-35 | such a joined name has the stem followed by the suffix as its `pathlib` stem |
| `Text.Lower` | Scripts/create_mask.py:124-134 | same length; an upper-case ASCII letter becomes its lower-case letter and every other character is unchanged |
| `Text.RFind` | Scripts/generate_seamless_texturemap.py:12 | -1 or an index where the pattern occurs with no later occurrence |
| `Text.RFindFound` | Scripts/generate_seamless_texturemap.py:12 | the search finds something exactly when the pattern occurs |
| `Rasters.FlattenMembers` | Scripts/fill_masked_image.py:39 | a value is listed exactly when some cell holds it |
| `Rasters.FlattenLength` | Scripts/fill_masked_image.py:39 | a w x h grid lists w * h cells |

## Left out

- Toolkit calls are not modelled. Describe, ExportMosaicDatasetPaths, cursors, RasterToNumPyArray,
  Clip, PolygonToRaster and ClipRaster are foreign code; their results are inputs: tile records,
  the clipped polygons, the ID grid. CopyRaster and the raster writes appear as named effects.
- `BuildPyramids` (Scripts/Mosaic_Texture_Masking.py:71) is not modelled: it only adds overview
  levels to a finished output.
- Reading tiles from the mosaic (Scripts/Mosaic_Texture_Masking.py:75-102) is not modelled. It is
  file and raster I/O, so the tile list is an input.
- Resizing, GaussianBlur feathering and mode conversion in the imaging library are floating-point
  filters. The resized mask, the feathered mask and the resized texture are inputs of the shape the
  library guarantees. The composite is specified exactly only for 0/255 masks.
- License checks, `main`, parameter plumbing, `exit()`, messages and `print` are script plumbing.
  The output-folder collision check (Scripts/Mosaic_Texture_Masking.py:161-164) is left out for
  the same reason.
- The per-tile step `texture_image` (Scripts/Mosaic_Texture_Masking.py:26-72) is not modelled as
  one function. It only sequences the modelled parts: mask name, `create_mask`, texture crop and
  `mask_image`. The `Delete` of the mask at line 72 is not modelled.
- The `Delete(mask_raster)` of the in-memory Con result (Scripts/create_mask.py:115) leaves no file
  behind and is not listed as an effect.
- Paths are modelled with Windows `ntpath` rules. A drive prefix such as `C:` is treated as
  ordinary text, and `pathlib` handling of `.` and `..` components is not modelled.
- `Text.Lower` lowers ASCII letters only; Python's `lower()` also lowers other Unicode letters.
- Map coordinates are exact `real` numbers, so floating-point rounding and NaN are not modelled.
- The other scripts of the repository only orchestrate these pieces or duplicate the compositor:
  batch mosaic creation, batch masking, the texture subset clip, and the recursive folder
  compositor.
- `CreateMask.CreateMaskCleansUp` covers a normal return only. A toolkit call that raises skips the
  `Delete` calls, since `create_mask` has no `try`/`finally`; `CreateMask.InterruptedRunLeavesScratch`
  states which scratch rasters then stay behind.
- `MosaicTextureMasking.Crop`: a box that reaches outside the image is filled with a caller-given
  value instead of the library's mode-dependent zero pixel.
- `SeamlessTexture.RReplace`: `rreplace` is defined in the script but never called; only its
  default count of 1 is modelled.

## Findings

| source | as written | input that shows it | evidently intended | confidence | as-written member | corrected member |
|---|---|---|---|---|---|---|
| Scripts/Mosaic_Texture_Masking.py:43-58 | for `bl`, `tl`, `br`, `l` and `b`, `get_clip_ext` returns `width`/`height` as the third and fourth entries, which `crop` reads as the right and lower edges, not a size | label `bl`, tile 100 x 100, largest tile 256 x 256: box (156, 156, 100, 100), right edge left of the left edge, so `crop` raises; for `br` with height < largest height the box is 2·height − largest height tall when that is not negative, and refused otherwise; a non-empty box is then stretched to the tile | a box of exactly the tile's size at the origin the code picks: (x0, y0, x0 + width, y0 + height) | high (not executed) | `MosaicTextureMasking.ClipExtBottomLeftCounterexample` | `MosaicTextureMasking.AlignedTextureFits` |
