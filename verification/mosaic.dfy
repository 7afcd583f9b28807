/** The mosaic side of the texture-masking tool: the bounding extent of the mosaic's tiles, the
    nine-way position label of each tile, the largest tile size, the crop box that aligns the
    shared texture with a tile, and the names of the files written for each tile. */
module MosaicTextureMasking {
  import opened Wrappers
  import opened Rasters
  import opened Text
  import opened Paths
  import CreateMask
  import FillMaskedImage

  /** One raster of the mosaic: its path, its map extent and its size in pixels. */
  datatype Tile = Tile(path: string, xmin: real, xmax: real, ymin: real, ymax: real,
                       height: nat, width: nat)

  /** Where a tile sits in the mosaic: a corner, an edge, or the interior. */
  datatype Position =
    | BottomLeft | TopLeft | TopRight | BottomRight
    | Left | Top | Right | Bottom
    | Interior

  /** The label the tool appends to a tile record. */
  function Code(p: Position): string {
    match p
    case BottomLeft => "bl"
    case TopLeft => "tl"
    case TopRight => "tr"
    case BottomRight => "br"
    case Left => "l"
    case Top => "t"
    case Right => "r"
    case Bottom => "b"
    case Interior => "i"
  }

  /** Reads a label back; every other string is not a label. */
  function PositionOf(s: string): (r: Option<Position>)
    ensures r.Some? ==> Code(r.value) == s
  {
    match s
    case "bl" => Some(BottomLeft)
    case "tl" => Some(TopLeft)
    case "tr" => Some(TopRight)
    case "br" => Some(BottomRight)
    case "l" => Some(Left)
    case "t" => Some(Top)
    case "r" => Some(Right)
    case "b" => Some(Bottom)
    case "i" => Some(Interior)
    case _ => None
  }

  /** Every position has its own label, and reading the label gives the position back. */
  lemma CodeRoundTrip(p: Position)
    ensures PositionOf(Code(p)) == Some(p)
  {
  }

  // ---------------------------------------------------------------------------------------------
  // Mosaic extent

  /** The smallest key of a non-empty sequence, as `min(s, key=...)` reads it. */
  function MinOf<T>(s: seq<T>, key: T -> real): (r: real)
    requires |s| > 0
    ensures forall i :: 0 <= i < |s| ==> r <= key(s[i])
    ensures exists i :: 0 <= i < |s| && key(s[i]) == r
    decreases |s|
  {
    if |s| == 1 then key(s[0])
    else
      var m := MinOf(s[1..], key);
      assert forall i :: 1 <= i < |s| ==> s[i] == s[1..][i - 1];
      if key(s[0]) <= m then key(s[0]) else m
  }

  /** The largest key of a non-empty sequence, as `max(s, key=...)` reads it. */
  function MaxOf<T>(s: seq<T>, key: T -> real): (r: real)
    requires |s| > 0
    ensures forall i :: 0 <= i < |s| ==> key(s[i]) <= r
    ensures exists i :: 0 <= i < |s| && key(s[i]) == r
    decreases |s|
  {
    if |s| == 1 then key(s[0])
    else
      var m := MaxOf(s[1..], key);
      assert forall i :: 1 <= i < |s| ==> s[i] == s[1..][i - 1];
      if m <= key(s[0]) then key(s[0]) else m
  }

  /** The largest whole-number key of a non-empty sequence: the largest key read as a real. */
  function MaxNat<T>(s: seq<T>, key: T -> nat): (r: nat)
    requires |s| > 0
    ensures forall i :: 0 <= i < |s| ==> key(s[i]) <= r
    ensures exists i :: 0 <= i < |s| && key(s[i]) == r
  {
    MaxOf(s, (t: T) => key(t) as real).Floor
  }

  /** A tile's extent lies within the mosaic extent. */
  predicate Inside(t: Tile, e: Extent) {
    e.xmin <= t.xmin && t.xmax <= e.xmax && e.ymin <= t.ymin && t.ymax <= e.ymax
  }

  /** The mosaic extent: the least `xmin`/`ymin` and the greatest `xmax`/`ymax` over all tiles.
      An empty mosaic has none, since `min` of an empty list fails. */
  function MosaicExtent(tiles: seq<Tile>): (r: Option<Extent>)
    ensures r.None? <==> tiles == []
    ensures r.Some? ==> forall i :: 0 <= i < |tiles| ==> Inside(tiles[i], r.value)
    ensures r.Some? ==> exists i :: 0 <= i < |tiles| && tiles[i].xmin == r.value.xmin
    ensures r.Some? ==> exists i :: 0 <= i < |tiles| && tiles[i].xmax == r.value.xmax
    ensures r.Some? ==> exists i :: 0 <= i < |tiles| && tiles[i].ymin == r.value.ymin
    ensures r.Some? ==> exists i :: 0 <= i < |tiles| && tiles[i].ymax == r.value.ymax
  {
    if tiles == [] then None
    else
      Some(Extent(MinOf(tiles, (t: Tile) => t.xmin), MaxOf(tiles, (t: Tile) => t.xmax),
                  MinOf(tiles, (t: Tile) => t.ymin), MaxOf(tiles, (t: Tile) => t.ymax)))
  }

  // ---------------------------------------------------------------------------------------------
  // Position labels

  /** The four ways a tile can touch the mosaic's edge; coordinates are compared exactly. */
  predicate AtLeft(e: Extent, t: Tile) { t.xmin == e.xmin }
  predicate AtRight(e: Extent, t: Tile) { t.xmax == e.xmax }
  predicate AtBottom(e: Extent, t: Tile) { t.ymin == e.ymin }
  predicate AtTop(e: Extent, t: Tile) { t.ymax == e.ymax }

  /** The label of one tile. The tests run in a fixed order and the first that holds wins:
      the corners first, then the edges, so each label holds exactly under the conditions below. */
  function Classify(e: Extent, t: Tile): (r: Position)
    ensures r == BottomLeft <==> AtLeft(e, t) && AtBottom(e, t)
    ensures r == TopLeft <==> AtLeft(e, t) && !AtBottom(e, t) && AtTop(e, t)
    ensures r == TopRight <==> !AtLeft(e, t) && AtRight(e, t) && AtTop(e, t)
    ensures r == BottomRight <==> !AtLeft(e, t) && AtRight(e, t) && !AtTop(e, t) && AtBottom(e, t)
    ensures r == Left <==> AtLeft(e, t) && !AtBottom(e, t) && !AtTop(e, t)
    ensures r == Top <==> !AtLeft(e, t) && !AtRight(e, t) && AtTop(e, t)
    ensures r == Right <==> !AtLeft(e, t) && AtRight(e, t) && !AtTop(e, t) && !AtBottom(e, t)
    ensures r == Bottom <==> !AtLeft(e, t) && !AtRight(e, t) && !AtTop(e, t) && AtBottom(e, t)
    ensures r == Interior <==> !AtLeft(e, t) && !AtRight(e, t) && !AtTop(e, t) && !AtBottom(e, t)
  {
    if e.xmin == t.xmin && e.ymin == t.ymin then BottomLeft
    else if e.xmin == t.xmin && e.ymax == t.ymax then TopLeft
    else if e.xmax == t.xmax && e.ymax == t.ymax then TopRight
    else if e.xmax == t.xmax && e.ymin == t.ymin then BottomRight
    else if e.xmin == t.xmin then Left
    else if e.ymax == t.ymax then Top
    else if e.xmax == t.xmax then Right
    else if e.ymin == t.ymin then Bottom
    else Interior
  }

  /** A tile record with its label appended. */
  datatype LabelledTile = LabelledTile(tile: Tile, position: Position)

  /** The tile list with every record labelled against the mosaic extent, and that extent. */
  function LabelTiles(tiles: seq<Tile>): (r: Option<(seq<LabelledTile>, Extent)>)
    ensures r.None? <==> tiles == []
    ensures r.Some? ==> MosaicExtent(tiles) == Some(r.value.1)
    ensures r.Some? ==> |r.value.0| == |tiles|
    ensures r.Some? ==> forall i :: 0 <= i < |tiles| ==>
              r.value.0[i].tile == tiles[i] && r.value.0[i].position == Classify(r.value.1, tiles[i])
  {
    match MosaicExtent(tiles)
    case None => None
    case Some(e) => Some((seq(|tiles|, i requires 0 <= i < |tiles| => LabelledTile(tiles[i], Classify(e, tiles[i]))), e))
  }

  /** A tile whose left edge is the leftmost of the mosaic is labelled bottom-left, top-left or left. */
  lemma LeftmostTileLabel(tiles: seq<Tile>, i: int)
    requires 0 <= i < |tiles|
    requires forall j :: 0 <= j < |tiles| ==> tiles[i].xmin <= tiles[j].xmin
    ensures LabelTiles(tiles).Some?
    ensures LabelTiles(tiles).value.0[i].position in {BottomLeft, TopLeft, Left}
  {
    var e := MosaicExtent(tiles).value;
    var k :| 0 <= k < |tiles| && tiles[k].xmin == e.xmin;
    assert tiles[i].xmin <= tiles[k].xmin;
    assert Inside(tiles[i], e);
    assert AtLeft(e, tiles[i]);
  }

  /** A mosaic of one tile labels that tile bottom-left, with the tile's own extent. */
  lemma SingleTileIsBottomLeft(t: Tile)
    ensures LabelTiles([t]) == Some(([LabelledTile(t, BottomLeft)], Extent(t.xmin, t.xmax, t.ymin, t.ymax)))
  {
    var e := MosaicExtent([t]).value;
    assert e == Extent(t.xmin, t.xmax, t.ymin, t.ymax);
    assert LabelTiles([t]).value.0 == [LabelledTile(t, BottomLeft)];
  }

  // ---------------------------------------------------------------------------------------------
  // Largest tile

  /** The largest tile height and width, which the shared texture is resized to. */
  function MaxSizes(tiles: seq<LabelledTile>): (r: Option<(nat, nat)>)
    ensures r.None? <==> tiles == []
    ensures r.Some? ==> forall i :: 0 <= i < |tiles| ==>
              tiles[i].tile.height <= r.value.0 && tiles[i].tile.width <= r.value.1
    ensures r.Some? ==> exists i :: 0 <= i < |tiles| && tiles[i].tile.height == r.value.0
    ensures r.Some? ==> exists i :: 0 <= i < |tiles| && tiles[i].tile.width == r.value.1
  {
    if tiles == [] then None
    else Some((MaxNat(tiles, (t: LabelledTile) => t.tile.height), MaxNat(tiles, (t: LabelledTile) => t.tile.width)))
  }

  // ---------------------------------------------------------------------------------------------
  // Crop boxes

  /** A crop box as the imaging library reads a four-tuple: (left, upper, right, lower). */
  datatype CropBox = CropBox(left: int, upper: int, right: int, lower: int)

  function BoxWidth(b: CropBox): int { b.right - b.left }
  function BoxHeight(b: CropBox): int { b.lower - b.upper }

  /** The four-tuple chosen for a label, exactly as written in the tool; no tuple for any other
      string. The tuple is used as a crop box, not as an origin and a size. */
  function ClipExt(position: string, width: int, height: int, maxWidth: int, maxHeight: int): (r: Option<CropBox>)
    ensures r.Some? <==> PositionOf(position).Some?
    ensures r.Some? && 0 <= width <= maxWidth && 0 <= height <= maxHeight ==>
              0 <= r.value.left && 0 <= r.value.upper && 0 <= r.value.right && 0 <= r.value.lower
    ensures position in {"tr", "t", "r", "i"} ==>
              r.Some? && BoxWidth(r.value) == width && BoxHeight(r.value) == height
  {
    if position == "bl" then Some(CropBox(maxWidth - width, maxHeight - height, width, height))
    else if position == "tl" then Some(CropBox(maxWidth - width, maxHeight - height, width, height))
    else if position == "tr" then Some(CropBox(0, maxHeight - height, width, maxHeight))
    else if position == "br" then Some(CropBox(0, maxHeight - height, width, height))
    else if position == "l" then Some(CropBox(maxWidth - width, 0, width, height))
    else if position == "t" then Some(CropBox(0, maxHeight - height, width, maxHeight))
    else if position == "r" then Some(CropBox(0, 0, width, height))
    else if position == "b" then Some(CropBox(0, maxHeight - height, width, height))
    else if position == "i" then Some(CropBox(0, 0, width, height))
    else None
  }

  /** Labels come in pairs that get the same tuple. */
  lemma ClipExtPairs(width: int, height: int, maxWidth: int, maxHeight: int)
    ensures ClipExt("bl", width, height, maxWidth, maxHeight) == ClipExt("tl", width, height, maxWidth, maxHeight)
    ensures ClipExt("br", width, height, maxWidth, maxHeight) == ClipExt("b", width, height, maxWidth, maxHeight)
    ensures ClipExt("tr", width, height, maxWidth, maxHeight) == ClipExt("t", width, height, maxWidth, maxHeight)
    ensures ClipExt("r", width, height, maxWidth, maxHeight) == ClipExt("i", width, height, maxWidth, maxHeight)
  {
  }

  /** Read as a crop box, the tuple for the left and bottom labels spans the tile's size only when
      the tile is as large as the largest tile in the direction concerned. */
  lemma ClipExtSize(position: string, width: int, height: int, maxWidth: int, maxHeight: int)
    requires position in {"bl", "tl", "br", "b", "l"}
    ensures ClipExt(position, width, height, maxWidth, maxHeight).Some?
    ensures var b := ClipExt(position, width, height, maxWidth, maxHeight).value;
            BoxWidth(b) == width && BoxHeight(b) == height <==>
              (position in {"bl", "tl"} ==> width == maxWidth && height == maxHeight) &&
              (position in {"br", "b"} ==> height == maxHeight) &&
              (position == "l" ==> width == maxWidth)
  {
  }

  /** A bottom-left tile of 100 x 100 pixels in a mosaic whose largest tile is 256 x 256 gets a
      box whose right edge lies left of its left edge, which the imaging library refuses. */
  lemma ClipExtBottomLeftCounterexample<P>(texture: Grid<P>, fill: P)
    ensures ClipExt("bl", 100, 100, 256, 256) == Some(CropBox(156, 156, 100, 100))
    ensures TextureCrop(texture, "bl", 100, 100, 256, 256, fill).None?
  {
  }

  /** The crop box that aligns the texture with a tile: the origin the tool chooses for the label,
      extended by the tile's own width and height. */
  function IntendedCropBox(position: string, width: int, height: int, maxWidth: int, maxHeight: int): (r: Option<CropBox>)
    ensures r.Some? <==> PositionOf(position).Some?
    ensures r.Some? ==> BoxWidth(r.value) == width && BoxHeight(r.value) == height
    ensures r.Some? ==> r.value.left == ClipExt(position, width, height, maxWidth, maxHeight).value.left
    ensures r.Some? ==> r.value.upper == ClipExt(position, width, height, maxWidth, maxHeight).value.upper
    ensures position in {"tr", "t", "r", "i"} ==> r == ClipExt(position, width, height, maxWidth, maxHeight)
    ensures r.Some? && 0 <= width <= maxWidth && 0 <= height <= maxHeight ==>
              0 <= r.value.left && r.value.right <= maxWidth && 0 <= r.value.upper && r.value.lower <= maxHeight
    ensures r.Some? ==> (if position in {"bl", "tl", "l"} then r.value.right == maxWidth else r.value.left == 0)
    ensures r.Some? ==> (if position in {"l", "r", "i"} then r.value.upper == 0 else r.value.lower == maxHeight)
  {
    match ClipExt(position, width, height, maxWidth, maxHeight)
    case None => None
    case Some(b) => Some(CropBox(b.left, b.upper, b.left + width, b.upper + height))
  }

  /** The pixel at a position of the canvas, or the fill value outside it. */
  function PixelOr<P>(canvas: Grid<P>, y: int, x: int, fill: P): P {
    if InGrid(canvas, y, x) then canvas[y][x] else fill
  }

  /** Cropping: no box copies the whole image; a box with its right edge left of its left edge or
      its lower edge above its upper edge is refused; otherwise the result is the box's pixels,
      filled where the box reaches beyond the image. */
  function Crop<P>(canvas: Grid<P>, box: Option<CropBox>, fill: P): (r: Option<Grid<P>>)
    ensures box.None? ==> r == Some(canvas)
    ensures box.Some? ==> (r.Some? <==> box.value.left <= box.value.right && box.value.upper <= box.value.lower)
    ensures box.Some? && r.Some? ==> IsGrid(r.value, BoxWidth(box.value), BoxHeight(box.value))
    ensures box.Some? && r.Some? ==>
              forall y, x :: 0 <= y < BoxHeight(box.value) && 0 <= x < BoxWidth(box.value) ==>
                r.value[y][x] == PixelOr(canvas, box.value.upper + y, box.value.left + x, fill)
  {
    match box
    case None => Some(canvas)
    case Some(b) =>
      if b.right < b.left || b.lower < b.upper then None
      else Some(seq(b.lower - b.upper, y => seq(b.right - b.left, x => PixelOr(canvas, b.upper + y, b.left + x, fill))))
  }

  /** The texture crop as the tool performs it, with the tuple read as a crop box. */
  function TextureCrop<P>(texture: Grid<P>, position: string, width: int, height: int,
                          maxWidth: int, maxHeight: int, fill: P): Option<Grid<P>>
  {
    Crop(texture, ClipExt(position, width, height, maxWidth, maxHeight), fill)
  }

  /** The texture crop with the intended box. */
  function AlignedTexture<P>(texture: Grid<P>, position: string, width: int, height: int,
                             maxWidth: int, maxHeight: int, fill: P): Option<Grid<P>>
  {
    Crop(texture, IntendedCropBox(position, width, height, maxWidth, maxHeight), fill)
  }

  /** With the texture resized to the largest tile and a tile no larger, the intended crop is
      exactly the tile's size, lies inside the texture and uses no fill. */
  lemma AlignedTextureFits<P>(texture: Grid<P>, position: string, width: nat, height: nat,
                              maxWidth: nat, maxHeight: nat, fill: P)
    requires IsGrid(texture, maxWidth, maxHeight)
    requires width <= maxWidth && height <= maxHeight
    requires PositionOf(position).Some?
    ensures AlignedTexture(texture, position, width, height, maxWidth, maxHeight, fill).Some?
    ensures var b := IntendedCropBox(position, width, height, maxWidth, maxHeight).value;
            var g := AlignedTexture(texture, position, width, height, maxWidth, maxHeight, fill).value;
            IsGrid(g, width, height) &&
            forall y, x :: 0 <= y < height && 0 <= x < width ==> g[y][x] == texture[b.upper + y][b.left + x]
  {
    var b := IntendedCropBox(position, width, height, maxWidth, maxHeight).value;
    var g := AlignedTexture(texture, position, width, height, maxWidth, maxHeight, fill).value;
    forall y, x | 0 <= y < height && 0 <= x < width
      ensures g[y][x] == texture[b.upper + y][b.left + x]
    {
      assert InGrid(texture, b.upper + y, b.left + x);
    }
  }

  // ---------------------------------------------------------------------------------------------
  // Per-tile jobs and file names

  /** The output name for a tile: the tile's file name without its extension, with "_design.jpg",
      in the output folder. */
  function DesignName(outFolder: string, tilePath: string): (r: string)
    ensures Basename(r) == SplitExt(Basename(tilePath)).0 + "_design.jpg"
    ensures r == JoinPrefix(outFolder) + Basename(r)
  {
    var stem := SplitExt(Basename(tilePath)).0;
    SuffixFacts();
    SplitExtNoSep(Basename(tilePath));
    JoinName(outFolder, stem, "_design.jpg");
    Join(outFolder, stem + "_design.jpg")
  }

  /** The temporary mask written beside an output: its stem with "_mask.jpg". */
  function MaskName(outRaster: string): (r: string)
    ensures Basename(r) == PathStem(outRaster) + "_mask.jpg"
    ensures Dirname(r) == Dirname(outRaster)
  {
    var dir := Dirname(outRaster);
    var stem := PathStem(outRaster);
    SuffixFacts();
    DirnameJoinName(outRaster, stem, "_mask.jpg");
    Join(dir, stem + "_mask.jpg")
  }

  /** Everything the tool hands to the per-tile step. */
  datatype Job = Job(image: string, height: nat, width: nat, position: Position,
                     maxHeight: nat, maxWidth: nat, outRaster: string)

  function JobFor(t: LabelledTile, sizes: (nat, nat), outFolder: string): Job {
    Job(t.tile.path, t.tile.height, t.tile.width, t.position, sizes.0, sizes.1, DesignName(outFolder, t.tile.path))
  }

  /** One job per labelled tile, in list order; an empty list has no largest size. */
  function TextureJobs(tiles: seq<LabelledTile>, outFolder: string): (r: Option<seq<Job>>)
    ensures r.None? <==> tiles == []
    ensures r.Some? ==> |r.value| == |tiles|
  {
    match MaxSizes(tiles)
    case None => None
    case Some(sizes) => Some(seq(|tiles|, i requires 0 <= i < |tiles| => JobFor(tiles[i], sizes, outFolder)))
  }

  /** The job of a tile carries the tile's path, size and label, the output name built from the
      path, and the mosaic's largest sizes, which are shared by all jobs and at least the tile's. */
  lemma TextureJob(tiles: seq<LabelledTile>, outFolder: string, i: int)
    requires 0 <= i < |tiles|
    ensures TextureJobs(tiles, outFolder).Some? && MaxSizes(tiles).Some?
    ensures var j := TextureJobs(tiles, outFolder).value[i];
            j.image == tiles[i].tile.path && j.position == tiles[i].position &&
            j.height == tiles[i].tile.height && j.width == tiles[i].tile.width &&
            j.outRaster == DesignName(outFolder, tiles[i].tile.path) &&
            (j.maxHeight, j.maxWidth) == MaxSizes(tiles).value &&
            j.height <= j.maxHeight && j.width <= j.maxWidth
  {
  }

  /** Every job gets a texture crop of exactly its tile's size from the intended box, given a texture
      resized to the largest tile size. */
  lemma JobTextureFits<P>(tiles: seq<LabelledTile>, outFolder: string, i: int, maxHeight: nat, maxWidth: nat,
                          texture: Grid<P>, fill: P)
    requires 0 <= i < |tiles|
    requires MaxSizes(tiles) == Some((maxHeight, maxWidth))
    requires IsGrid(texture, maxWidth, maxHeight)
    ensures var j := TextureJobs(tiles, outFolder).value[i];
            var g := AlignedTexture(texture, Code(j.position), j.width, j.height, j.maxWidth, j.maxHeight, fill);
            g.Some? && IsGrid(g.value, tiles[i].tile.width, tiles[i].tile.height)
  {
    var j := TextureJobs(tiles, outFolder).value[i];
    TextureJob(tiles, outFolder, i);
    CodeRoundTrip(j.position);
    AlignedTextureFits(texture, Code(j.position), j.width, j.height, j.maxWidth, j.maxHeight, fill);
  }

  /** A lower-case ending of a name survives lower-casing the name. */
  lemma LowerKeepsSuffix(a: string, tail: string, suffix: string)
    requires |suffix| <= |tail| && tail[|tail| - |suffix|..] == suffix
    requires forall i :: 0 <= i < |suffix| ==> !IsUpper(suffix[i])
    ensures Contains(Lower(a + tail), suffix)
  {
    var k := |a| + |tail| - |suffix|;
    var l := Lower(a + tail);
    forall i | 0 <= i < |suffix|
      ensures l[k + i] == suffix[i]
    {
      assert (a + tail)[k + i] == tail[|tail| - |suffix| + i];
    }
    assert l[k..k + |suffix|] == suffix;
    assert OccursAt(l, suffix, k);
  }

  /** The character facts about the fixed name suffixes, stated once so that the prover does not
      rederive them from the literals in every proof that uses them. */
  lemma SuffixFacts()
    ensures NoDot("_design") && NoSep("_design") && NoDot("_mask") && NoSep("_mask")
    ensures NoSep("_design.jpg") && NoSep("_mask.jpg")
    ensures NoDot("jpg") && NoSep("jpg") && ".jpg" == "." + "jpg"
    ensures "_design.jpg" == "_design" + ".jpg" && "_mask.jpg" == "_mask" + ".jpg"
    ensures forall i :: 0 <= i < |".jpg"| ==> !IsUpper(".jpg"[i])
    ensures Lower(".jpg") == ".jpg" && "_design.jpg"[7..] == ".jpg"
  {
  }

  /** Every output name has the extension ".jpg", and its stem is the tile's stem with "_design". */
  lemma DesignNameIsJpeg(outFolder: string, tilePath: string)
    ensures SplitExt(DesignName(outFolder, tilePath)).1 == ".jpg"
    ensures PathStem(DesignName(outFolder, tilePath)) == SplitExt(Basename(tilePath)).0 + "_design"
  {
    SuffixFacts();
    var stem := SplitExt(Basename(tilePath)).0;
    SplitExtNoSep(Basename(tilePath));
    JoinedExt(outFolder, stem, "_design.jpg", "_design", "jpg", ".jpg");
    JoinedStem(outFolder, stem, "_design.jpg", "_design", "jpg", ".jpg");
  }

  /** Every output name, lower-cased, contains ".jpg". */
  lemma DesignNameContainsJpeg(outFolder: string, tilePath: string)
    ensures Contains(Lower(DesignName(outFolder, tilePath)), ".jpg")
  {
    SuffixFacts();
    var stem := SplitExt(Basename(tilePath)).0;
    SplitExtNoSep(Basename(tilePath));
    JoinStem(outFolder, stem, "_design.jpg");
    LowerKeepsSuffix(JoinPrefix(outFolder) + stem, "_design.jpg", ".jpg");
  }

  /** Whatever the output name, the temporary mask name ends in ".jpg". */
  lemma MaskNameIsJpeg(outRaster: string)
    ensures SplitExt(MaskName(outRaster)).1 == ".jpg"
  {
    SuffixFacts();
    var stem := PathStem(outRaster);
    var dir := Dirname(outRaster);
    JoinedExt(dir, stem, "_mask.jpg", "_mask", "jpg", ".jpg");
  }

  /** For every tile, the mask is written as JPEG with no unsupported-extension report, and when
      the mask has no masked pixel the output is copied as JPEG. */
  lemma TileFilesAreJpeg(outFolder: string, tilePath: string)
    ensures CreateMask.ExtensionDispatch(SplitExt(MaskName(DesignName(outFolder, tilePath))).1)
            == CreateMask.Dispatch([Jpeg], false)
    ensures FillMaskedImage.CopyRaster(tilePath, DesignName(outFolder, tilePath), Jpeg)
            in FillMaskedImage.FastCopies(tilePath, DesignName(outFolder, tilePath))
  {
    var out := DesignName(outFolder, tilePath);
    var ext := SplitExt(MaskName(out)).1;
    MaskNameIsJpeg(out);
    SuffixFacts();
    CreateMask.SupportedExtension(ext);
    DesignNameContainsJpeg(outFolder, tilePath);
  }
}
