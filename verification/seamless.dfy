/** `generate_seamless_texturemap.py`: the `rreplace` string helper and the mirror-quadrant tiling
    that turns a w x h texture into a 2w x 2h texture whose opposite edges match. */
module SeamlessTexture {
  import opened Wrappers
  import opened Rasters
  import opened Text

  /** `rreplace(s, pattern, repl)` with the default count of 1, that is
      `repl.join(s.rsplit(pattern, 1))`: the last occurrence of `pattern` becomes `repl`.
      `rsplit` refuses an empty separator, so an empty pattern gives `None`. */
  function RReplace(s: string, pattern: string, repl: string): (r: Option<string>)
    ensures r.None? <==> pattern == []
  {
    if pattern == [] then None
    else
      var i := RFind(s, pattern);
      if i < 0 then Some(s) else Some(s[..i] + repl + s[i + |pattern|..])
  }

  /** A pattern that does not occur leaves the text as it is; otherwise its last occurrence, and
      only that one, is replaced. */
  lemma RReplaceLast(s: string, pattern: string, repl: string)
    requires pattern != []
    ensures !Contains(s, pattern) ==> RReplace(s, pattern, repl) == Some(s)
    ensures Contains(s, pattern) ==>
      exists i :: OccursAt(s, pattern, i) &&
        (forall j :: i < j <= |s| - |pattern| ==> !OccursAt(s, pattern, j)) &&
        RReplace(s, pattern, repl) == Some(s[..i] + repl + s[i + |pattern|..])
  {
    var i := RFind(s, pattern);
    RFindFound(s, pattern);
    if i >= 0 {
      assert OccursAt(s, pattern, i);
      assert RReplace(s, pattern, repl) == Some(s[..i] + repl + s[i + |pattern|..]);
    }
  }

  /** Replacing the last occurrence of a pattern by itself changes nothing. */
  lemma RReplaceSelf(s: string, pattern: string)
    requires pattern != []
    ensures RReplace(s, pattern, pattern) == Some(s)
  {
    if Contains(s, pattern) {
      var i := RFind(s, pattern);
      RFindFound(s, pattern);
      assert s[..i] + pattern + s[i + |pattern|..] == s[..i] + s[i..i + |pattern|] + s[i + |pattern|..];
      assert s[..i] + s[i..i + |pattern|] + s[i + |pattern|..] == s;
    }
  }

  /** Only the last occurrence changes: the text before it, which holds every other occurrence
      that ends before it, is kept, and the length changes by the difference of the two strings. */
  lemma RReplaceKeepsPrefix(s: string, pattern: string, repl: string)
    requires pattern != [] && Contains(s, pattern)
    ensures var i := RFind(s, pattern);
            var r := RReplace(s, pattern, repl).value;
            r[..i] == s[..i] && |r| == |s| - |pattern| + |repl| && r[i + |repl|..] == s[i + |pattern|..]
  {
    RFindFound(s, pattern);
  }

  /** `transpose(FLIP_TOP_BOTTOM)`: the rows in reverse order. */
  function FlipTopBottom<P>(g: Grid<P>): (r: Grid<P>)
    ensures |r| == |g|
    ensures forall w, h :: IsGrid(g, w, h) ==> IsGrid(r, w, h)
  {
    seq(|g|, y requires 0 <= y < |g| => g[|g| - 1 - y])
  }

  /** `transpose(FLIP_LEFT_RIGHT)`: each row in reverse order. */
  function FlipLeftRight<P>(g: Grid<P>): (r: Grid<P>)
    ensures SameShape(r, g)
  {
    seq(|g|, y requires 0 <= y < |g| => seq(|g[y]|, x requires 0 <= x < |g[y]| => g[y][|g[y]| - 1 - x]))
  }

  /** Flipping twice restores the image, for both flips. */
  lemma FlipsAreInvolutions<P>(g: Grid<P>)
    ensures FlipTopBottom(FlipTopBottom(g)) == g
    ensures FlipLeftRight(FlipLeftRight(g)) == g
  {
    var f := FlipLeftRight(FlipLeftRight(g));
    assert |f| == |g|;
    forall y | 0 <= y < |g|
      ensures f[y] == g[y]
    {
      assert |f[y]| == |g[y]|;
    }
  }

  /** `canvas.paste(region, (left, upper, ...))`: the region's cells overwrite the canvas from
      `(left, upper)` on; cells the region does not reach keep their value. */
  function Paste<P>(canvas: Grid<P>, region: Grid<P>, left: int, upper: int): (r: Grid<P>)
    ensures SameShape(r, canvas)
    ensures forall y, x :: InGrid(canvas, y, x) ==>
      r[y][x] == (if InGrid(region, y - upper, x - left) then region[y - upper][x - left] else canvas[y][x])
  {
    seq(|canvas|, y requires 0 <= y < |canvas| =>
      seq(|canvas[y]|, x requires 0 <= x < |canvas[y]| =>
        if InGrid(region, y - upper, x - left) then region[y - upper][x - left] else canvas[y][x]))
  }

  /** The output coordinate `v` of a doubled axis of length `n`, reflected back into `[0, n)`. */
  function Reflect(v: int, n: int): int {
    if v < n then v else 2 * n - 1 - v
  }

  /** The cell of `img` that output cell `(y, x)` of the tiled texture shows. */
  function Source<P>(img: Grid<P>, w: nat, h: nat, y: int, x: int): P
    requires IsGrid(img, w, h) && 0 <= y < 2 * h && 0 <= x < 2 * w
  {
    img[Reflect(y, h)][Reflect(x, w)]
  }

  /** The four pastes of `seamless_texture`, in the order the source performs them. */
  function MirrorPastes<P>(img: Grid<P>, w: nat, h: nat, canvas: Grid<P>): Grid<P> {
    var a0 := Paste(canvas, img, 0, 0);
    var a1 := Paste(a0, FlipTopBottom(img), 0, h);
    var a2 := Paste(a1, FlipLeftRight(img), w, 0);
    Paste(a2, FlipLeftRight(FlipTopBottom(img)), w, h)
  }

  /** Each output cell of the four pastes shows the reflected source cell. */
  lemma MirrorPastesCell<P>(img: Grid<P>, w: nat, h: nat, canvas: Grid<P>, y: int, x: int)
    requires IsGrid(img, w, h) && IsGrid(canvas, 2 * w, 2 * h)
    requires 0 <= y < 2 * h && 0 <= x < 2 * w
    ensures InGrid(MirrorPastes(img, w, h, canvas), y, x)
    ensures MirrorPastes(img, w, h, canvas)[y][x] == Source(img, w, h, y, x)
  {
    var region1 := FlipTopBottom(img);
    var region2 := FlipLeftRight(img);
    var region3 := FlipLeftRight(FlipTopBottom(img));
    var a0 := Paste(canvas, img, 0, 0);
    var a1 := Paste(a0, region1, 0, h);
    var a2 := Paste(a1, region2, w, 0);
    var r := Paste(a2, region3, w, h);
    assert InGrid(canvas, y, x);
    if y < h && x < w {
      assert r[y][x] == a0[y][x];
    } else if y >= h && x < w {
      assert r[y][x] == a1[y][x] == region1[y - h][x];
    } else if y < h {
      assert r[y][x] == region2[y][x - w];
    } else {
      assert r[y][x] == region3[y - h][x - w] == FlipTopBottom(img)[y - h][w - 1 - (x - w)];
    }
  }

  /** `seamless_texture` after its existence check: four copies of `img` pasted onto the resized
      canvas; the bottom-left copy flipped top to bottom, the top-right copy flipped left to right
      and the bottom-right copy flipped both ways. */
  function MirrorTile<P>(img: Grid<P>, w: nat, h: nat, canvas: Grid<P>): (r: Grid<P>)
    requires IsGrid(img, w, h) && IsGrid(canvas, 2 * w, 2 * h)
    ensures IsGrid(r, 2 * w, 2 * h)
    ensures forall y, x :: 0 <= y < 2 * h && 0 <= x < 2 * w ==> r[y][x] == Source(img, w, h, y, x)
  {
    var r := MirrorPastes(img, w, h, canvas);
    assert forall y, x :: 0 <= y < 2 * h && 0 <= x < 2 * w ==> r[y][x] == Source(img, w, h, y, x) by {
      forall y, x | 0 <= y < 2 * h && 0 <= x < 2 * w
        ensures r[y][x] == Source(img, w, h, y, x)
      {
        MirrorPastesCell(img, w, h, canvas, y, x);
      }
    }
    r
  }

  /** The four quadrants of the tiled texture: top-left the source, bottom-left flipped top to
      bottom, top-right flipped left to right, bottom-right flipped both ways. */
  lemma MirrorTileQuadrants<P>(img: Grid<P>, w: nat, h: nat, canvas: Grid<P>)
    requires IsGrid(img, w, h) && IsGrid(canvas, 2 * w, 2 * h)
    ensures var r := MirrorTile(img, w, h, canvas);
      && (forall y, x :: 0 <= y < h && 0 <= x < w ==> r[y][x] == img[y][x])
      && (forall y, x :: h <= y < 2 * h && 0 <= x < w ==> r[y][x] == FlipTopBottom(img)[y - h][x])
      && (forall y, x :: 0 <= y < h && w <= x < 2 * w ==> r[y][x] == FlipLeftRight(img)[y][x - w])
      && (forall y, x :: h <= y < 2 * h && w <= x < 2 * w ==>
            r[y][x] == FlipLeftRight(FlipTopBottom(img))[y - h][x - w])
  {
  }

  /** The tiled texture is mirror-symmetric about its vertical and horizontal centre lines, so its
      left and right edges, and its top and bottom edges, are equal. */
  lemma MirrorTileSymmetric<P>(img: Grid<P>, w: nat, h: nat, canvas: Grid<P>)
    requires IsGrid(img, w, h) && IsGrid(canvas, 2 * w, 2 * h)
    ensures var r := MirrorTile(img, w, h, canvas);
      && (forall y, x, x' :: 0 <= y < 2 * h && 0 <= x < 2 * w && x + x' == 2 * w - 1 ==> r[y][x] == r[y][x'])
      && (forall y, y', x :: 0 <= y < 2 * h && 0 <= x < 2 * w && y + y' == 2 * h - 1 ==> r[y][x] == r[y'][x])
  {
    var r := MirrorTile(img, w, h, canvas);
    forall y, x, x' | 0 <= y < 2 * h && 0 <= x < 2 * w && x + x' == 2 * w - 1
      ensures r[y][x] == r[y][x']
    {
      assert Reflect(x', w) == Reflect(x, w);
    }
    forall y, y', x | 0 <= y < 2 * h && 0 <= x < 2 * w && y + y' == 2 * h - 1
      ensures r[y][x] == r[y'][x]
    {
      assert Reflect(y', h) == Reflect(y, h);
    }
  }

  /** The four pastes cover the whole canvas, so the resized image underneath does not show. */
  lemma MirrorTileIgnoresCanvas<P>(img: Grid<P>, w: nat, h: nat, canvas1: Grid<P>, canvas2: Grid<P>)
    requires IsGrid(img, w, h) && IsGrid(canvas1, 2 * w, 2 * h) && IsGrid(canvas2, 2 * w, 2 * h)
    ensures MirrorTile(img, w, h, canvas1) == MirrorTile(img, w, h, canvas2)
  {
    var r1, r2 := MirrorTile(img, w, h, canvas1), MirrorTile(img, w, h, canvas2);
    forall y | 0 <= y < 2 * h
      ensures r1[y] == r2[y]
    {
      assert forall x :: 0 <= x < 2 * w ==> r1[y][x] == r2[y][x];
    }
  }

  /** What `seamless_texture` does: nothing when the output already exists, else it saves the
      tiled image. */
  datatype Outcome<P> = AlreadyExists | Saved(image: Grid<P>)

  /** `seamless_texture`; `outExists` is `isfile(outImg)` and `canvas` the source resized to twice
      its size. */
  function SeamlessTexture<P>(outExists: bool, img: Grid<P>, w: nat, h: nat, canvas: Grid<P>): (r: Outcome<P>)
    requires IsGrid(img, w, h) && IsGrid(canvas, 2 * w, 2 * h)
    ensures r.AlreadyExists? <==> outExists
    ensures r.Saved? ==> IsGrid(r.image, 2 * w, 2 * h)
    ensures r.Saved? ==> forall y, x :: 0 <= y < 2 * h && 0 <= x < 2 * w ==> r.image[y][x] == Source(img, w, h, y, x)
  {
    if outExists then AlreadyExists else Saved(MirrorTile(img, w, h, canvas))
  }
}
