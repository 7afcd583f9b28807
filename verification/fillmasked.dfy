/** The compositor of `fill_masked_image.py`: the fast-path test, Pillow's mask composite, the
    blend-method dispatch and the copying of georeference sidecar files. Decoding, `convert('L')`,
    resizing and Gaussian blurring are Pillow's; their results are inputs here. */
module FillMaskedImage {
  import opened Wrappers
  import opened Rasters
  import opened Text
  import opened Paths

  /** The mask value that marks a pixel for replacement. */
  const MaskingValue: Byte := 0

  /** The mask value that keeps the source pixel. */
  const KeepValue: Byte := 255

  /** `mask_image`'s fast-path test: the masking value is among the mask's pixels, listed row by row. */
  predicate HasMaskingValue(mask: Grid<Byte>) {
    MaskingValue in Flatten(mask)
  }

  /** The fast-path test looks at every cell: it fails exactly when no cell holds the masking value. */
  lemma HasMaskingValueIff(mask: Grid<Byte>)
    ensures HasMaskingValue(mask) <==> exists y, x :: InGrid(mask, y, x) && mask[y][x] == MaskingValue
  {
    FlattenMembers(mask, MaskingValue);
  }

  /** Pillow's rounding division by 255, `((v + 128) + ((v + 128) >> 8)) >> 8`. */
  function Div255(v: nat): nat {
    var t := v + 128;
    (t + t / 256) / 256
  }

  /** The rounding division is exact on multiples of 255 in the byte range. */
  lemma Div255Exact(a: Byte)
    ensures Div255(255 * a) == a
  {
    var t := 255 * a + 128;
    if a <= 128 {
      assert t == 256 * a + (128 - a);
      assert t / 256 == a;
      assert t + t / 256 == 256 * a + 128;
    } else {
      assert t == 256 * (a - 1) + (384 - a);
      assert t / 256 == a - 1;
      assert t + t / 256 == 256 * a + 127;
    }
  }

  /** The rounding division never decreases. */
  lemma Div255Monotone(v: nat, w: nat)
    requires v <= w
    ensures Div255(v) <= Div255(w)
  {
    var s, t := v + 128, w + 128;
    DivMonotone(s, t);
    DivMonotone(s + s / 256, t + t / 256);
  }

  lemma DivMonotone(a: nat, b: nat)
    requires a <= b
    ensures a / 256 <= b / 256
  {
  }

  lemma MulMonotone(a: nat, b: nat, c: nat)
    requires a <= b
    ensures a * c <= b * c
  {
  }

  /** `in1` weighted by `m` plus `in2` weighted by `255 - m`, before the rounding division. */
  function Weighted(in1: Byte, in2: Byte, m: Byte): nat {
    MulMonotone(0, in1, m);
    MulMonotone(0, in2, 255 - m);
    in1 * m + in2 * (255 - m)
  }

  /** The rounded weighted mean of two bytes lies between them. */
  lemma BlendBetween(in1: Byte, in2: Byte, m: Byte)
    ensures var r := Div255(Weighted(in1, in2, m));
      (in1 <= r <= in2) || (in2 <= r <= in1)
  {
    var lo := if in1 <= in2 then in1 else in2;
    var hi := if in1 <= in2 then in2 else in1;
    var v := Weighted(in1, in2, m);
    assert 255 * lo <= v <= 255 * hi by {
      MulMonotone(lo, in1, m);
      MulMonotone(in1, hi, m);
      MulMonotone(lo, in2, 255 - m);
      MulMonotone(in2, hi, 255 - m);
    }
    Div255Monotone(255 * lo, v);
    Div255Monotone(v, 255 * hi);
    Div255Exact(lo);
    Div255Exact(hi);
  }

  /** One channel of `Image.composite(image1, image2, mask)`: `image1` weighted by the mask value,
      `image2` by its complement, rounded. */
  function BlendChannel(in1: Byte, in2: Byte, m: Byte): (r: Byte)
    ensures m == KeepValue ==> r == in1
    ensures m == MaskingValue ==> r == in2
    ensures (in1 <= r <= in2) || (in2 <= r <= in1)
  {
    var v := Weighted(in1, in2, m);
    BlendBetween(in1, in2, m);
    assert m == KeepValue ==> Div255(v) == in1 by {
      if m == KeepValue {
        assert v == 255 * in1;
        Div255Exact(in1);
      }
    }
    assert m == MaskingValue ==> Div255(v) == in2 by {
      if m == MaskingValue {
        assert v == 255 * in2;
        Div255Exact(in2);
      }
    }
    Div255(v)
  }

  function BlendPixel(p1: Rgb, p2: Rgb, m: Byte): Rgb {
    Rgb(BlendChannel(p1.red, p2.red, m), BlendChannel(p1.green, p2.green, m), BlendChannel(p1.blue, p2.blue, m))
  }

  /** `Image.composite(image1, image2, mask)` on images of one size. */
  function Composite(image1: Grid<Rgb>, image2: Grid<Rgb>, mask: Grid<Byte>): (r: Grid<Rgb>)
    requires SameShape(image1, image2) && SameShape(image1, mask)
    ensures SameShape(r, image1)
    ensures forall y, x :: InGrid(image1, y, x) && mask[y][x] == KeepValue ==> r[y][x] == image1[y][x]
    ensures forall y, x :: InGrid(image1, y, x) && mask[y][x] == MaskingValue ==> r[y][x] == image2[y][x]
  {
    seq(|image1|, y requires 0 <= y < |image1| =>
      seq(|image1[y]|, x requires 0 <= x < |image1[y]| => BlendPixel(image1[y][x], image2[y][x], mask[y][x])))
  }

  /** Every mask value is 0 or 255. */
  ghost predicate IsBinary(mask: Grid<Byte>) {
    forall y, x :: InGrid(mask, y, x) ==> mask[y][x] == MaskingValue || mask[y][x] == KeepValue
  }

  /** The per-pixel choice a binary mask means: the source where it is 255, the texture where it is 0. */
  function Select(source: Grid<Rgb>, texture: Grid<Rgb>, mask: Grid<Byte>): Grid<Rgb>
    requires SameShape(source, texture) && SameShape(source, mask)
  {
    seq(|source|, y requires 0 <= y < |source| =>
      seq(|source[y]|, x requires 0 <= x < |source[y]| =>
        if mask[y][x] == KeepValue then source[y][x] else texture[y][x]))
  }

  /** Pillow's composite through a binary mask is exactly the per-pixel choice. */
  lemma CompositeBinary(source: Grid<Rgb>, texture: Grid<Rgb>, mask: Grid<Byte>)
    requires SameShape(source, texture) && SameShape(source, mask)
    requires IsBinary(mask)
    ensures Composite(source, texture, mask) == Select(source, texture, mask)
  {
    var c, s := Composite(source, texture, mask), Select(source, texture, mask);
    assert |c| == |s|;
    forall y | 0 <= y < |c|
      ensures c[y] == s[y]
    {
      assert |c[y]| == |s[y]|;
      forall x | 0 <= x < |c[y]|
        ensures c[y][x] == s[y][x]
      {
        assert InGrid(source, y, x);
      }
    }
  }

  /** The mask each blend method composites through: the feathered mask for both blur names (both
      branches call `GaussianBlur`), the mask itself for "None", and none for any other name, which
      leaves `im` unassigned. */
  function BlendMask(blend: string, mask: Grid<Byte>, feathered: Grid<Byte>): (r: Option<Grid<Byte>>)
    ensures r.Some? <==> blend in {"BoxBlur", "GaussianBlur", "None"}
    ensures blend == "None" ==> r == Some(mask)
    ensures blend == "BoxBlur" || blend == "GaussianBlur" ==> r == Some(feathered)
  {
    if blend == "BoxBlur" then Some(feathered)
    else if blend == "GaussianBlur" then Some(feathered)
    else if blend == "None" then Some(mask)
    else None
  }

  /** The sidecar suffixes tried, in order; overviews (`.jpg.ovr`) are left out by the code. */
  const SidecarSuffixes: seq<string> := [".jgw", ".jpg.aux.xml", ".jpg.xml"]

  /** The copies `copy_auxillary_files` attempts, as (source, destination) pairs: each sidecar
      suffix moved from the source stem to the destination stem when the lowered output name
      contains ".jpg", none otherwise. */
  function SidecarAttempts(inFile: string, outFile: string): (r: seq<(string, string)>)
    ensures Contains(Lower(outFile), ".jpg") ==> |r| == 3
    ensures Contains(Lower(outFile), ".jpg") ==> forall k :: 0 <= k < 3 ==>
      r[k] == (SplitExt(inFile).0 + SidecarSuffixes[k], SplitExt(outFile).0 + SidecarSuffixes[k])
    ensures !Contains(Lower(outFile), ".jpg") ==> r == []
  {
    var s := SplitExt(inFile).0;
    var d := SplitExt(outFile).0;
    if Contains(Lower(outFile), ".jpg") then
      seq(|SidecarSuffixes|, k requires 0 <= k < |SidecarSuffixes| => (s + SidecarSuffixes[k], d + SidecarSuffixes[k]))
    else []
  }

  /** Effects of the compositor on the file system. */
  datatype Action =
    | CopyRaster(source: string, destination: string, format: Format)
    | RemoveFile(path: string)
    | SaveImage(path: string, image: Grid<Rgb>)
    | CopyFile(source: string, destination: string)

  /** The attempts that succeed, in order: a copy succeeds when its source is in `copyable`, and a
      failed copy is swallowed without stopping the ones after it. */
  function Copies(attempts: seq<(string, string)>, copyable: set<string>): (r: seq<Action>)
    ensures |r| <= |attempts|
    ensures forall a :: a in attempts && a.0 in copyable ==> CopyFile(a.0, a.1) in r
    ensures forall i :: 0 <= i < |r| ==> r[i].CopyFile? && (r[i].source, r[i].destination) in attempts && r[i].source in copyable
  {
    if attempts == [] then []
    else
      var rest := Copies(attempts[1..], copyable);
      assert forall a :: a in attempts[1..] ==> a in attempts;
      var a := attempts[0];
      if a.0 in copyable then [CopyFile(a.0, a.1)] + rest else rest
  }

  /** The copies of a run of attempts are those of its first part followed by those of the rest,
      and one attempt is copied once or not at all: the copies keep the attempts' order and
      multiplicity. */
  lemma {:induction false} CopiesAppend(xs: seq<(string, string)>, ys: seq<(string, string)>, copyable: set<string>)
    ensures Copies(xs + ys, copyable) == Copies(xs, copyable) + Copies(ys, copyable)
    ensures forall a :: Copies([a], copyable) == (if a.0 in copyable then [CopyFile(a.0, a.1)] else [])
    decreases |xs|
  {
    if xs != [] {
      assert (xs + ys)[1..] == xs[1..] + ys;
      CopiesAppend(xs[1..], ys, copyable);
    } else {
      assert xs + ys == ys;
    }
    forall a ensures Copies([a], copyable) == (if a.0 in copyable then [CopyFile(a.0, a.1)] else []) {
      assert [a][1..] == [];
    }
  }

  /** `copy_auxillary_files(inFile, outFile)`. */
  function CopyAuxiliaryFiles(inFile: string, outFile: string, copyable: set<string>): (r: seq<Action>)
    ensures !Contains(Lower(outFile), ".jpg") ==> r == []
    ensures forall a :: a in SidecarAttempts(inFile, outFile) && a.0 in copyable ==> CopyFile(a.0, a.1) in r
    ensures forall i :: 0 <= i < |r| ==>
      r[i].CopyFile? && (r[i].source, r[i].destination) in SidecarAttempts(inFile, outFile) && r[i].source in copyable
  {
    Copies(SidecarAttempts(inFile, outFile), copyable)
  }

  /** The fast path of `mask_image`: a straight 8-bit copy of the source for each of ".jpg" and
      ".tif" the lowered output name contains. */
  function FastCopies(inImage: string, outImage: string): (r: seq<Action>)
    ensures forall a :: a in r ==> a.CopyRaster? && a.source == inImage && a.destination == outImage
    ensures CopyRaster(inImage, outImage, Jpeg) in r <==> Contains(Lower(outImage), ".jpg")
    ensures CopyRaster(inImage, outImage, Tiff) in r <==> Contains(Lower(outImage), ".tif")
    ensures |r| <= 2 && (|r| == 2 ==> r == [CopyRaster(inImage, outImage, Jpeg), CopyRaster(inImage, outImage, Tiff)])
  {
    (if Contains(Lower(outImage), ".jpg") then [CopyRaster(inImage, outImage, Jpeg)] else []) +
    (if Contains(Lower(outImage), ".tif") then [CopyRaster(inImage, outImage, Tiff)] else [])
  }

  /** What `mask_image` does: its effects in order, and whether it fails (at `im.save` with `im`
      unassigned). */
  datatype Run = Run(actions: seq<Action>, failed: bool)

  /** The removal of an existing output before `mask_image` saves the composite. */
  function Removal(outImage: string, existing: set<string>): seq<Action> {
    if outImage in existing then [RemoveFile(outImage)] else []
  }

  /** The composite path of `mask_image`, taken when the mask marks some pixel. */
  function CompositeRun(inImage: string, source: Grid<Rgb>, mask: Grid<Byte>, feathered: Grid<Byte>,
                        texture: Grid<Rgb>, outImage: string, blend: string,
                        existing: set<string>, copyable: set<string>): (r: Run)
    requires SameShape(source, mask) && SameShape(source, feathered) && SameShape(source, texture)
    ensures r.failed <==> blend !in {"BoxBlur", "GaussianBlur", "None"}
    ensures r.failed ==> r.actions == Removal(outImage, existing)
    ensures !r.failed ==> exists image :: (SameShape(image, source) &&
      r.actions == Removal(outImage, existing) + [SaveImage(outImage, image)] + CopyAuxiliaryFiles(inImage, outImage, copyable))
  {
    match BlendMask(blend, mask, feathered)
    case None => Run(Removal(outImage, existing), true)
    case Some(alpha) =>
      var image := Composite(source, texture, alpha);
      Run(Removal(outImage, existing) + [SaveImage(outImage, image)] + CopyAuxiliaryFiles(inImage, outImage, copyable), false)
  }

  /** `mask_image`. `mask` is the mask converted to "L" and resized to the source; `feathered` is the
      blurred mask, likewise resized; `texture` is the texture resized to the source. `existing` are
      the files present before the call and `copyable` the sidecar files that copy successfully. */
  function MaskImage(inImage: string, source: Grid<Rgb>, mask: Grid<Byte>, feathered: Grid<Byte>,
                     texture: Grid<Rgb>, outImage: string, blend: string,
                     existing: set<string>, copyable: set<string>): (r: Run)
    requires SameShape(source, mask) && SameShape(source, feathered) && SameShape(source, texture)
    ensures !HasMaskingValue(mask) ==> r == Run(FastCopies(inImage, outImage), false)
    ensures r.failed <==> HasMaskingValue(mask) && blend !in {"BoxBlur", "GaussianBlur", "None"}
    ensures r.failed ==> r.actions == Removal(outImage, existing)
    ensures HasMaskingValue(mask) && !r.failed ==> exists image :: (SameShape(image, source) &&
      r.actions == Removal(outImage, existing) + [SaveImage(outImage, image)] + CopyAuxiliaryFiles(inImage, outImage, copyable))
  {
    if !HasMaskingValue(mask) then Run(FastCopies(inImage, outImage), false)
    else CompositeRun(inImage, source, mask, feathered, texture, outImage, blend, existing, copyable)
  }

  /** With method "None" and a binary mask that marks some pixel, the saved image takes each pixel
      from the source where the mask is 255 and from the texture where it is 0. */
  lemma BinaryMaskSelects(inImage: string, source: Grid<Rgb>, mask: Grid<Byte>, feathered: Grid<Byte>,
                          texture: Grid<Rgb>, outImage: string, existing: set<string>, copyable: set<string>)
    requires SameShape(source, mask) && SameShape(source, feathered) && SameShape(source, texture)
    requires HasMaskingValue(mask) && IsBinary(mask)
    ensures SaveImage(outImage, Select(source, texture, mask))
            in MaskImage(inImage, source, mask, feathered, texture, outImage, "None", existing, copyable).actions
  {
    CompositeBinary(source, texture, mask);
    var removal := Removal(outImage, existing);
    var actions := MaskImage(inImage, source, mask, feathered, texture, outImage, "None", existing, copyable).actions;
    assert actions[|removal|] == SaveImage(outImage, Select(source, texture, mask));
  }

  /** The two blur names run the same code, so they give the same result on the same inputs. */
  lemma BlurMethodsAgree(inImage: string, source: Grid<Rgb>, mask: Grid<Byte>, feathered: Grid<Byte>,
                         texture: Grid<Rgb>, outImage: string, existing: set<string>, copyable: set<string>)
    requires SameShape(source, mask) && SameShape(source, feathered) && SameShape(source, texture)
    ensures MaskImage(inImage, source, mask, feathered, texture, outImage, "BoxBlur", existing, copyable) ==
            MaskImage(inImage, source, mask, feathered, texture, outImage, "GaussianBlur", existing, copyable)
  {
  }

  /** A mask that keeps every pixel takes the fast path: the output is a plain copy of the source,
      whatever the method and the texture, and no sidecar is copied. */
  lemma KeepAllIsCopy(inImage: string, source: Grid<Rgb>, mask: Grid<Byte>, feathered: Grid<Byte>,
                      texture: Grid<Rgb>, outImage: string, blend: string, existing: set<string>, copyable: set<string>)
    requires SameShape(source, mask) && SameShape(source, feathered) && SameShape(source, texture)
    requires forall y, x :: InGrid(mask, y, x) ==> mask[y][x] == KeepValue
    ensures MaskImage(inImage, source, mask, feathered, texture, outImage, blend, existing, copyable)
            == Run(FastCopies(inImage, outImage), false)
  {
    HasMaskingValueIff(mask);
  }
}
