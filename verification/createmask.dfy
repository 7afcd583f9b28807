/** Mask derivation of `create_mask.py`: the two sentinel squares added to the clipped polygons,
    the feature-count classifier, the per-cell mask rule over the rasterised feature IDs (with the
    toolkit's `Con`, `IsNull` and the unique-value count of `GetRasterProperties`), the
    output-format dispatch and the scratch files. The polygon clip and the rasterisation belong to
    the geoprocessing toolkit; their results are inputs here, and the raster writes are effects. */
module CreateMask {
  import opened Wrappers
  import opened Rasters
  import opened Text
  import opened Paths

  datatype Point = Point(x: real, y: real)

  predicate IsValidExtent(e: Extent) {
    e.xmin <= e.xmax && e.ymin <= e.ymax
  }

  /** The closed boxes `a` and `b` share no point. */
  predicate Disjoint(a: Extent, b: Extent) {
    a.xmax < b.xmin || b.xmax < a.xmin || a.ymax < b.ymin || b.ymax < a.ymin
  }

  function Min(a: real, b: real): real { if a <= b then a else b }
  function Max(a: real, b: real): real { if a <= b then b else a }

  /** The bounding box of a four-vertex ring. */
  function Bounds(ring: seq<Point>): Extent
    requires |ring| == 4
  {
    Extent(Min(Min(ring[0].x, ring[1].x), Min(ring[2].x, ring[3].x)),
         Max(Max(ring[0].x, ring[1].x), Max(ring[2].x, ring[3].x)),
         Min(Min(ring[0].y, ring[1].y), Min(ring[2].y, ring[3].y)),
         Max(Max(ring[0].y, ring[1].y), Max(ring[2].y, ring[3].y)))
  }

  /** Consecutive vertices of the ring (closing back to the first) differ in exactly one
      coordinate, by exactly `side`. */
  predicate IsSquareRing(ring: seq<Point>, side: real) {
    |ring| == 4 &&
    IsSide(ring[0], ring[1], side) && IsSide(ring[1], ring[2], side) &&
    IsSide(ring[2], ring[3], side) && IsSide(ring[3], ring[0], side)
  }

  /** `p` and `q` differ in exactly one coordinate, by `side`. */
  predicate IsSide(p: Point, q: Point, side: real) {
    (p.x == q.x && (q.y - p.y == side || p.y - q.y == side)) ||
    (p.y == q.y && (q.x - p.x == side || p.x - q.x == side))
  }

  /** Distance of the sentinel squares from the tile extent. */
  const Offset: real := 1.0
  /** Side length of the sentinel squares. */
  const SquareLength: real := 1.0

  /** The two squares `generate_squares` inserts: one below and left of the tile's bottom-left
      corner, one above and right of its top-right corner, as the code lists their vertices. */
  function SentinelSquares(e: Extent): (r: seq<seq<Point>>)
    ensures |r| == 2 && |r[0]| == 4 && |r[1]| == 4
    ensures Bounds(r[0]) == Extent(e.xmin - 2.0, e.xmin - 1.0, e.ymin - 2.0, e.ymin - 1.0)
    ensures Bounds(r[1]) == Extent(e.xmax + 1.0, e.xmax + 2.0, e.ymax + 1.0, e.ymax + 2.0)
    ensures IsSquareRing(r[0], 1.0) && IsSquareRing(r[1], 1.0)
    ensures Disjoint(Bounds(r[0]), e) && Disjoint(Bounds(r[1]), e)
    ensures IsValidExtent(e) ==> Disjoint(Bounds(r[0]), Bounds(r[1]))
  {
    var blX := e.xmin - Offset;
    var blY := e.ymin - Offset;
    var bottomLeft := [Point(blX - SquareLength, blY - SquareLength),
                       Point(blX - SquareLength, blY),
                       Point(blX, blY),
                       Point(blX, blY - SquareLength)];
    var trX := e.xmax + Offset;
    var trY := e.ymax + Offset;
    var topRight := [Point(trX, trY),
                     Point(trX, trY + SquareLength),
                     Point(trX + SquareLength, trY + SquareLength),
                     Point(trX + SquareLength, trY)];
    [bottomLeft, topRight]
  }

  /** A polygon of the clipped layer: its outer ring. */
  type Polygon = seq<Point>

  /** The clipped polygon layer after `generate_squares` has appended its two squares. */
  function Augment(clipped: seq<Polygon>, e: Extent): (r: seq<Polygon>)
    ensures |r| == |clipped| + 2
    ensures r[..|clipped|] == clipped
    ensures r[|clipped|..] == SentinelSquares(e)
  {
    clipped + SentinelSquares(e)
  }

  /** What `is_masked` returns: the verdict and the feature count. */
  datatype Masking = Masking(masked: bool, count: int)

  /** `is_masked`: one feature counts as masked, two as unmasked, more as masked; for a count below
      one no test matches and the function returns `None`. */
  function IsMasked(count: int): (r: Option<Masking>)
    ensures r.Some? <==> count >= 1
    ensures r.Some? ==> r.value.count == count
    ensures r.Some? ==> (r.value.masked <==> count != 2)
  {
    if count == 1 then Some(Masking(true, count))
    else if count == 2 then Some(Masking(false, count))
    else if count > 2 then Some(Masking(true, count))
    else None
  }

  /** After augmentation `is_masked` always answers, and it reports a mask exactly when the clip
      kept at least one real polygon; the one-feature case cannot arise. */
  lemma AugmentedIsMasked(clipped: seq<Polygon>, e: Extent)
    ensures IsMasked(|Augment(clipped, e)|) == Some(Masking(|clipped| > 0, |clipped| + 2))
  {
  }

  /** A rasterised ID grid or mask: `None` is NoData. */
  type Raster = Grid<Option<int>>

  /** The toolkit's `Con(raster, whenTrue, whenFalse, where)`: NoData stays NoData, other cells
      take `whenTrue` where the clause holds and `whenFalse` elsewhere. */
  function Con(g: Raster, whenTrue: int, whenFalse: int, clause: int -> bool): Raster {
    seq(|g|, y requires 0 <= y < |g| =>
      seq(|g[y]|, x requires 0 <= x < |g[y]| =>
        if g[y][x].None? then None else if clause(g[y][x].value) then Some(whenTrue) else Some(whenFalse)))
  }

  /** The toolkit's `IsNull(raster)`: 1 on NoData cells, 0 elsewhere, never NoData. */
  function IsNull(g: Raster): Raster {
    seq(|g|, y requires 0 <= y < |g| =>
      seq(|g[y]|, x requires 0 <= x < |g[y]| => Some(if g[y][x].None? then 1 else 0)))
  }

  /** The distinct values of the cells that hold data. */
  function DefinedValues(g: Raster): set<int> {
    set y, x | 0 <= y < |g| && 0 <= x < |g[y]| && g[y][x].Some? :: g[y][x].value
  }

  /** `GetRasterProperties(raster, "UNIQUEVALUECOUNT")`. */
  function UniqueValueCount(g: Raster): nat {
    |DefinedValues(g)|
  }

  /** Some cell holds a feature ID. */
  predicate HasData(g: Raster) {
    exists y, x :: 0 <= y < |g| && 0 <= x < |g[y]| && g[y][x].Some?
  }

  /** Some cell is NoData. */
  predicate HasNoData(g: Raster) {
    exists y, x :: 0 <= y < |g| && 0 <= x < |g[y]| && g[y][x].None?
  }

  /** The mask that treats the polygons as covering the whole tile: 0 on ID cells, 255 on NoData. */
  function CoverMask(ids: Raster): Raster {
    Con(IsNull(ids), 0, 255, v => v == 0)
  }

  /** The whole-cover mask has two distinct values exactly when the rasterised polygons cover
      some cells of the tile and leave others as NoData. */
  lemma CoverMaskValues(ids: Raster)
    ensures UniqueValueCount(CoverMask(ids)) >= 2 <==> HasData(ids) && HasNoData(ids)
  {
    var m := CoverMask(ids);
    var vs := DefinedValues(m);
    assert vs <= {0, 255};
    if HasData(ids) && HasNoData(ids) {
      var y0, x0 :| 0 <= y0 < |ids| && 0 <= x0 < |ids[y0]| && ids[y0][x0].Some?;
      var y1, x1 :| 0 <= y1 < |ids| && 0 <= x1 < |ids[y1]| && ids[y1][x1].None?;
      assert m[y0][x0] == Some(0);
      assert m[y1][x1] == Some(255);
      assert {0, 255} <= vs;
      assert |{0, 255}| == 2;
      SubsetCard({0, 255}, vs);
    } else if HasData(ids) {
      assert vs <= {0};
      SubsetCard(vs, {0});
    } else {
      assert vs <= {255};
      SubsetCard(vs, {255});
    }
  }

  lemma SubsetCard(a: set<int>, b: set<int>)
    requires a <= b
    ensures |a| <= |b|
  {
    assert b == a + (b - a);
  }

  /** The mask rule of `create_mask` (its `Con` branches) for the verdict `m` and the ID grid `ids`. */
  function DeriveMask(m: Masking, ids: Raster): (r: Raster)
    ensures SameShape(r, ids)
    ensures !m.masked ==> forall y, x :: InGrid(ids, y, x) ==>
      r[y][x] == (if ids[y][x].None? then None else Some(255))
    ensures m.masked && m.count < 4 ==> forall y, x :: InGrid(ids, y, x) ==>
      r[y][x] == (if ids[y][x].None? then None else if ids[y][x].value == 0 then Some(255) else Some(0))
    ensures m.masked && m.count >= 4 && HasData(ids) && HasNoData(ids) ==> forall y, x :: InGrid(ids, y, x) ==>
      r[y][x] == (if ids[y][x].None? then Some(255) else Some(0))
    ensures m.masked && m.count >= 4 && !(HasData(ids) && HasNoData(ids)) ==> forall y, x :: InGrid(ids, y, x) ==>
      r[y][x] == (if ids[y][x].None? then None else if ids[y][x].value <= m.count - 2 then Some(0) else Some(255))
  {
    if m.masked then
      if m.count < 4 then Con(ids, 255, 0, v => v == 0)
      else
        var first := CoverMask(ids);
        CoverMaskValues(ids);
        if UniqueValueCount(first) < 2 then Con(ids, 0, 255, v => v <= m.count - 2)
        else first
    else Con(ids, 255, 255, v => v == 0)
  }

  /** What the extension test of `create_mask` does: the formats written, in order, and whether
      the "only supports .jpg and .tif" error is reported. */
  datatype Dispatch = Dispatch(writes: seq<Format>, unsupported: bool)

  function ExtensionDispatch(ext: string): (r: Dispatch)
    ensures Jpeg in r.writes <==> Contains(Lower(ext), "jpg")
    ensures Tiff in r.writes <==> Contains(Lower(ext), "tif")
    ensures |r.writes| <= 2 && (|r.writes| == 2 ==> r.writes == [Jpeg, Tiff])
    ensures r.unsupported <==> Lower(ext) != ".tif" && Lower(ext) != ".jpg"
  {
    var e := Lower(ext);
    var jpeg := if Contains(e, "jpg") then [Jpeg] else [];
    var tiff := if Contains(e, "tif") then [Tiff] else [];
    Dispatch(jpeg + tiff, e != ".tif" && e != ".jpg")
  }

  /** An extension that is `.jpg` or `.tif` up to case is written once, in its own format, with
      no error. */
  lemma SupportedExtension(ext: string)
    ensures Lower(ext) == ".jpg" ==> ExtensionDispatch(ext) == Dispatch([Jpeg], false)
    ensures Lower(ext) == ".tif" ==> ExtensionDispatch(ext) == Dispatch([Tiff], false)
  {
    if Lower(ext) == ".jpg" {
      assert OccursAt(".jpg", "jpg", 1);
      forall i | 0 <= i <= 1
        ensures !OccursAt(".jpg", "tif", i)
      {
        assert ".jpg"[i..i + 3][0] != 't';
      }
    }
    if Lower(ext) == ".tif" {
      assert OccursAt(".tif", "tif", 1);
      forall i | 0 <= i <= 1
        ensures !OccursAt(".tif", "jpg", i)
      {
        assert ".tif"[i..i + 3][0] != 'j';
      }
    }
  }

  /** `.tiff` is written as TIFF and still reported as unsupported. */
  lemma LongTiffExtension()
    ensures ExtensionDispatch(".tiff") == Dispatch([Tiff], true)
  {
    assert OccursAt(Lower(".tiff"), "tif", 1);
    forall i | 0 <= i <= 2
      ensures !OccursAt(Lower(".tiff"), "jpg", i)
    {
      assert Lower(".tiff")[i..i + 3][0] != 'j';
    }
    assert Lower(".tiff") != ".tif" by {
      assert |Lower(".tiff")| == 5;
    }
  }

  /** The in-memory clip output. */
  const PolygonClipped: string := "in_memory\\polygon_clipped"

  /** The three scratch rasters: the ID raster, its clipped copy and the saved mask. */
  datatype Scratch = Scratch(idRaster: string, clipped: string, mask: string)

  function ScratchNames(outRaster: string): (r: Scratch)
    ensures r.idRaster != r.clipped && r.idRaster != r.mask && r.clipped != r.mask
    ensures outRaster !in {r.idRaster, r.clipped, r.mask}
    ensures PolygonClipped !in {r.idRaster, r.clipped, r.mask}
  {
    var file := SplitExt(outRaster).0;
    var s := Scratch(file + "Temp" + ".tif", file + "TempClipped" + ".tif", file + "TempMask" + ".tif");
    assert s.idRaster[|file| + 4] == '.' && s.clipped[|file| + 4] == 'C' && s.mask[|file| + 4] == 'M';
    assert outRaster != s.idRaster && outRaster != s.clipped && outRaster != s.mask by {
      var ext := SplitExt(outRaster).1;
      assert outRaster == file + ext;
      assert s.idRaster[|file|] == 'T' && s.clipped[|file|] == 'T' && s.mask[|file|] == 'T';
      if |ext| > 0 {
        assert outRaster[|file|] == '.';
      }
    }
    assert PolygonClipped[|PolygonClipped| - 1] == 'd';
    s
  }

  /** The file-system effects of `create_mask`, in order. */
  datatype FileOp = Create(path: string) | Write(path: string, format: Format) | Remove(path: string) | ReportUnsupported

  function Step(files: set<string>, op: FileOp): set<string> {
    match op
    case Create(p) => files + {p}
    case Write(p, _) => files + {p}
    case Remove(p) => files - {p}
    case ReportUnsupported => files
  }

  /** The files present after `ops` run on `files`. */
  function Apply(files: set<string>, ops: seq<FileOp>): set<string>
    decreases |ops|
  {
    if ops == [] then files else Apply(Step(files, ops[0]), ops[1..])
  }

  lemma {:induction false} ApplyAppend(files: set<string>, a: seq<FileOp>, b: seq<FileOp>)
    ensures Apply(files, a + b) == Apply(Apply(files, a), b)
    decreases |a|
  {
    if a != [] {
      assert (a + b)[1..] == a[1..] + b;
      ApplyAppend(Step(files, a[0]), a[1..], b);
    } else {
      assert a + b == b;
    }
  }

  /** Writing one path in several formats leaves that path present. */
  lemma {:induction false} ApplyWrites(files: set<string>, path: string, formats: seq<Format>)
    ensures Apply(files, WritesOf(path, formats)) == files + (if formats == [] then {} else {path})
    decreases |formats|
  {
    if formats != [] {
      assert WritesOf(path, formats)[1..] == WritesOf(path, formats[1..]);
      ApplyWrites(files + {path}, path, formats[1..]);
    }
  }

  function WritesOf(path: string, formats: seq<Format>): (r: seq<FileOp>)
    ensures |r| == |formats|
    ensures forall i :: 0 <= i < |r| ==> r[i] == Write(path, formats[i])
  {
    seq(|formats|, i requires 0 <= i < |formats| => Write(path, formats[i]))
  }

  /** The outcome of `create_mask`: the verdict of `is_masked`, the mask raster and the file effects. */
  datatype MaskRun = MaskRun(masking: Masking, mask: Raster, ops: seq<FileOp>)

  /** `create_mask` on output path `outRaster`, where the clip kept the polygons `clipped`, the tile's
      extent is `tile` and the toolkit rasterised the augmented layer to the ID grid `ids`. */
  function CreateMaskRun(outRaster: string, clipped: seq<Polygon>, tile: Extent, ids: Raster): (r: MaskRun)
    ensures r.masking == Masking(|clipped| > 0, |clipped| + 2)
    ensures SameShape(r.mask, ids)
    ensures |clipped| == 0 ==> forall y, x :: InGrid(ids, y, x) && ids[y][x].Some? ==> r.mask[y][x] == Some(255)
    ensures r.mask == DeriveMask(r.masking, ids)
    ensures forall f :: Write(outRaster, f) in r.ops <==> f in ExtensionDispatch(SplitExt(outRaster).1).writes
    ensures ReportUnsupported in r.ops <==> ExtensionDispatch(SplitExt(outRaster).1).unsupported
  {
    var layer := Augment(clipped, tile);
    AugmentedIsMasked(clipped, tile);
    var m := IsMasked(|layer|).value;
    var s := ScratchNames(outRaster);
    var d := ExtensionDispatch(SplitExt(outRaster).1);
    MaskRun(m, DeriveMask(m, ids), RunOps(outRaster, s, d))
  }

  /** The effects in the order the code performs them. */
  function RunOps(outRaster: string, s: Scratch, d: Dispatch): (r: seq<FileOp>)
    ensures forall f :: Write(outRaster, f) in r <==> f in d.writes
    ensures ReportUnsupported in r <==> d.unsupported
  {
    var r := SetupOps(s) + WritesOf(outRaster, d.writes) + ReportOps(d) + CleanupOps(s);
    WritesOfMembers(outRaster, d.writes);
    r
  }

  /** The order of the effects: the in-memory clip, the ID raster, the removal of the clip, the
      clipped raster and the saved mask; then the output writes in the dispatched order; then the
      error report when the extension is unsupported; the three deletions last. */
  lemma RunOpsOrder(outRaster: string, s: Scratch, d: Dispatch)
    ensures var r := RunOps(outRaster, s, d);
      && 8 + |d.writes| <= |r|
      && r[0] == Create(PolygonClipped) && r[1] == Create(s.idRaster) && r[2] == Remove(PolygonClipped)
      && r[3] == Create(s.clipped) && r[4] == Create(s.mask)
      && (forall i :: 5 <= i < |r| - 3 ==> !r[i].Remove? && !r[i].Create?)
      && (forall i :: 5 <= i < 5 + |d.writes| ==> r[i] == Write(outRaster, d.writes[i - 5]))
      && r[5 + |d.writes|..|r| - 3] == (if d.unsupported then [ReportUnsupported] else [])
      && r[|r| - 3..] == [Remove(s.clipped), Remove(s.mask), Remove(s.idRaster)]
  {
    var setup, writes, report, cleanup := SetupOps(s), WritesOf(outRaster, d.writes), ReportOps(d), CleanupOps(s);
    var middle := writes + report;
    var r := setup + middle + cleanup;
    assert RunOps(outRaster, s, d) == r;
    ConcatParts(setup, middle, cleanup);
    assert forall i :: 5 <= i < |r| - 3 ==> r[i] == middle[i - 5];
    assert middle[|writes|..] == report;
  }

  /** The three parts of a concatenation are where they were put. */
  lemma ConcatParts<T>(a: seq<T>, m: seq<T>, c: seq<T>)
    ensures var r := a + m + c;
            r[..|a|] == a && r[|a|..|r| - |c|] == m && r[|r| - |c|..] == c
  {
  }

  /** The output writes name each dispatched format and no other. */
  lemma WritesOfMembers(path: string, formats: seq<Format>)
    ensures forall f :: Write(path, f) in WritesOf(path, formats) <==> f in formats
  {
    var w := WritesOf(path, formats);
    forall f | f in formats
      ensures Write(path, f) in w
    {
      var i :| 0 <= i < |formats| && formats[i] == f;
      assert w[i] == Write(path, f);
    }
  }

  /** Clip to memory, rasterise, drop the in-memory clip, clip the raster, save the mask. */
  function SetupOps(s: Scratch): seq<FileOp> {
    [Create(PolygonClipped), Create(s.idRaster), Remove(PolygonClipped), Create(s.clipped), Create(s.mask)]
  }

  function ReportOps(d: Dispatch): seq<FileOp> {
    if d.unsupported then [ReportUnsupported] else []
  }

  /** The three `Delete` calls at the end. */
  function CleanupOps(s: Scratch): seq<FileOp> {
    [Remove(s.clipped), Remove(s.mask), Remove(s.idRaster)]
  }

  lemma ApplySetup(files: set<string>, s: Scratch)
    requires PolygonClipped !in {s.idRaster, s.clipped, s.mask}
    ensures Apply(files, SetupOps(s)) == (files - {PolygonClipped}) + {s.idRaster, s.clipped, s.mask}
  {
    var f1 := files + {PolygonClipped};
    var f2 := f1 + {s.idRaster};
    var f3 := f2 - {PolygonClipped};
    var f4 := f3 + {s.clipped};
    var f5 := f4 + {s.mask};
    assert Apply(f4, [Create(s.mask)]) == f5;
    assert Apply(f3, [Create(s.clipped), Create(s.mask)]) == f5;
    assert Apply(f2, [Remove(PolygonClipped), Create(s.clipped), Create(s.mask)]) == f5;
    assert Apply(f1, SetupOps(s)[1..]) == f5;
  }

  lemma ApplyCleanup(files: set<string>, s: Scratch)
    ensures Apply(files, CleanupOps(s)) == files - {s.idRaster, s.clipped, s.mask}
  {
    var f1 := files - {s.clipped};
    var f2 := f1 - {s.mask};
    assert Apply(f2, [Remove(s.idRaster)]) == f2 - {s.idRaster};
    assert Apply(f1, CleanupOps(s)[1..]) == f2 - {s.idRaster};
  }

  /** The effects of one run, applied in order to the files that exist before it. */
  lemma ApplyRunOps(files: set<string>, outRaster: string, s: Scratch, d: Dispatch)
    requires PolygonClipped !in {s.idRaster, s.clipped, s.mask}
    requires outRaster !in {s.idRaster, s.clipped, s.mask}
    ensures Apply(files, RunOps(outRaster, s, d)) ==
              (files - {PolygonClipped, s.idRaster, s.clipped, s.mask}) + (if d.writes == [] then {} else {outRaster})
  {
    var setup, writes, report, cleanup := SetupOps(s), WritesOf(outRaster, d.writes), ReportOps(d), CleanupOps(s);
    assert RunOps(outRaster, s, d) == ((setup + writes) + report) + cleanup;
    ApplyAppend(files, (setup + writes) + report, cleanup);
    ApplyAppend(files, setup + writes, report);
    ApplyAppend(files, setup, writes);
    ApplySetup(files, s);
    var afterSetup := (files - {PolygonClipped}) + {s.idRaster, s.clipped, s.mask};
    ApplyWrites(afterSetup, outRaster, d.writes);
    var written := afterSetup + (if d.writes == [] then {} else {outRaster});
    assert Apply(written, report) == written;
    ApplyCleanup(written, s);
  }

  /** A path created by some effect and not removed by a later one is present at the end. */
  lemma {:induction false} ApplyCreated(files: set<string>, ops: seq<FileOp>, j: int, p: string)
    requires 0 <= j < |ops| && ops[j] == Create(p)
    requires forall i :: j < i < |ops| ==> ops[i] != Remove(p)
    ensures p in Apply(files, ops)
    decreases |ops|
  {
    if j == 0 {
      ApplyKeeps(Step(files, ops[0]), ops[1..], p);
    } else {
      ApplyCreated(Step(files, ops[0]), ops[1..], j - 1, p);
    }
  }

  /** A present path that no effect removes stays present. */
  lemma {:induction false} ApplyKeeps(files: set<string>, ops: seq<FileOp>, p: string)
    requires p in files
    requires forall i :: 0 <= i < |ops| ==> ops[i] != Remove(p)
    ensures p in Apply(files, ops)
    decreases |ops|
  {
    if ops != [] {
      ApplyKeeps(Step(files, ops[0]), ops[1..], p);
    }
  }

  /** A toolkit call that raises ends `create_mask` before the `Delete` calls, since nothing catches
      it: when the run stops after its first `k` effects, with the ID raster made and the cleanup
      not reached, the scratch rasters made so far stay on disk. */
  lemma InterruptedRunLeavesScratch(files: set<string>, outRaster: string, s: Scratch, d: Dispatch, k: int)
    requires PolygonClipped !in {s.idRaster, s.clipped, s.mask}
    requires 2 <= k <= |RunOps(outRaster, s, d)| - 3
    ensures var done := Apply(files, RunOps(outRaster, s, d)[..k]);
            s.idRaster in done && (k >= 4 ==> s.clipped in done) && (k >= 5 ==> s.mask in done)
  {
    var r := RunOps(outRaster, s, d);
    RunOpsOrder(outRaster, s, d);
    var ops := r[..k];
    ApplyCreated(files, ops, 1, s.idRaster);
    if k >= 4 {
      ApplyCreated(files, ops, 3, s.clipped);
    }
    if k >= 5 {
      ApplyCreated(files, ops, 4, s.mask);
    }
  }

  /** When `create_mask` returns normally, every scratch file it makes is gone, whatever existed
      before; the output is added when some format is written and is otherwise left as it was,
      and nothing else changes. */
  lemma CreateMaskCleansUp(files: set<string>, outRaster: string, clipped: seq<Polygon>, tile: Extent, ids: Raster)
    ensures var s := ScratchNames(outRaster);
            var d := ExtensionDispatch(SplitExt(outRaster).1);
            Apply(files, CreateMaskRun(outRaster, clipped, tile, ids).ops) ==
              (files - {PolygonClipped, s.idRaster, s.clipped, s.mask}) + (if d.writes == [] then {} else {outRaster})
  {
    var s := ScratchNames(outRaster);
    var d := ExtensionDispatch(SplitExt(outRaster).1);
    assert CreateMaskRun(outRaster, clipped, tile, ids).ops == RunOps(outRaster, s, d);
    ApplyRunOps(files, outRaster, s, d);
  }
}
