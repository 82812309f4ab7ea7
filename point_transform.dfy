/** The resampling half of `point_guided_deformation`: every destination
    pixel gets a 1-indexed coordinate, a source position (computed in the
    program by the radial-basis-function displacement and rounded to
    integers, here an input), and copies the input pixel at that position
    when it lies on the image; every other pixel stays white. */
module PointTransform {
  import opened Images

  /** The coordinate of destination pixel `k` in row-major order: the
      `np.meshgrid(np.arange(1, w + 1), np.arange(1, h + 1))` entry that
      `column_stack` puts at row `k`. It is 1-indexed and reading it back
      as a row-major position gives `k` again. */
  function Coord(k: nat, w: nat): (p: Point)
    requires w > 0
    ensures 1 <= p.x <= w && 1 <= p.y
    ensures (p.y - 1) * w + (p.x - 1) == k
  {
    Point(k % w + 1, k / w + 1)
  }

  /** The mask `RBF_Ind`: a source position is used exactly when both
      coordinates are positive, `x <= w` and `y <= h`. Every position the
      mask lets through has a row-major flat index inside the `h * w`
      buffer, so the lookup that follows it cannot read out of range. */
  predicate Accepted(p: Point, h: nat, w: nat)
    ensures Accepted(p, h, w) ==> 0 <= (p.y - 1) * w + (p.x - 1) < h * w
  {
    if p.x > 0 && p.y > 0 && p.x <= w && p.y <= h then
      RowMajorBound(p.y - 1, p.x - 1, h, w);
      true
    else
      false
  }

  /** `np.ravel_multi_index((y - 1, x - 1), (h, w))`: the flat index of an
      accepted position never leaves the `h * w` buffer, and the reshaped
      view reads it at row `y - 1`, column `x - 1`. */
  function FlatIndex(p: Point, h: nat, w: nat): (k: nat)
    requires Accepted(p, h, w)
    ensures k < h * w
    ensures k / w == p.y - 1 && k % w == p.x - 1
  {
    RowMajorBound(p.y - 1, p.x - 1, h, w);
    DivModUnique((p.y - 1) * w + (p.x - 1), p.y - 1, p.x - 1, w);
    (p.y - 1) * w + (p.x - 1)
  }

  /** The destination coordinates `X`, one per pixel: each is accepted and
      its flat index is its own row-major position. */
  function Mesh(h: nat, w: nat): (X: seq<Point>)
    ensures |X| == h * w
    ensures forall k :: 0 <= k < |X| ==> Accepted(X[k], h, w) && FlatIndex(X[k], h, w) == k
  {
    if w == 0 then []
    else
      var X := seq(h * w, k requires 0 <= k < h * w => Coord(k, w));
      assert forall k :: 0 <= k < h * w ==> Accepted(X[k], h, w) by {
        forall k | 0 <= k < h * w
          ensures X[k].y <= h
        {
          RowOf(k, h, w);
        }
      }
      X
  }

  /** The flat result buffer `RBF_image` after the masked assignment: entry
      `k` is the flat input pixel at the flat index of position `k` when
      that position is accepted, and white (the 255 fill) otherwise. Every
      entry is the fill or some input pixel: no new colours appear. */
  function WarpFlat(I: seq<Pixel>, h: nat, w: nat, positions: seq<Point>): (out: seq<Pixel>)
    requires |I| == h * w && |positions| == h * w
    ensures |out| == h * w
    ensures forall k :: 0 <= k < |out| ==> out[k] == White || out[k] in I
  {
    seq(h * w, k requires 0 <= k < h * w =>
      if Accepted(positions[k], h, w) then I[FlatIndex(positions[k], h, w)] else White)
  }

  /** The warped image: the input flattened (`image.reshape(h * w, 3)`),
      resampled, and reshaped back to `h` rows of `w` pixels. */
  function Warp(g: Grid, h: nat, w: nat, positions: seq<Point>): (out: Grid)
    requires IsImage(g, h, w) && |positions| == h * w
    ensures IsImage(out, h, w)
  {
    Reshape(WarpFlat(Flatten(g, h, w), h, w, positions), h, w)
  }

  /** Destination pixel (i, j) of the warped image copies input row `y - 1`,
      column `x - 1` when its source position (x, y) is accepted, and is
      white in every channel when it is not. */
  lemma WarpAt(g: Grid, h: nat, w: nat, positions: seq<Point>, i: nat, j: nat)
    requires IsImage(g, h, w) && |positions| == h * w && i < h && j < w
    ensures i * w + j < h * w
    ensures var p := positions[i * w + j];
      Warp(g, h, w, positions)[i][j] ==
        if Accepted(p, h, w) then g[p.y - 1][p.x - 1] else White
  {
    var I := Flatten(g, h, w);
    ReshapeAt(WarpFlat(I, h, w, positions), h, w, i, j);
    var p := positions[i * w + j];
    if Accepted(p, h, w) {
      var k := FlatIndex(p, h, w);
      FlattenAt(g, h, w, p.y - 1, p.x - 1);
      assert k == (p.y - 1) * w + (p.x - 1);
    }
  }

  /** A position is accepted exactly when it is the coordinate of some
      destination pixel. */
  lemma AcceptedIffInMesh(p: Point, h: nat, w: nat)
    ensures Accepted(p, h, w) <==> p in Mesh(h, w)
  {
    var X := Mesh(h, w);
    if Accepted(p, h, w) {
      var k := FlatIndex(p, h, w);
      assert X[k] == p by {
        assert FlatIndex(X[k], h, w) == k;
        assert X[k].x - 1 == k % w == p.x - 1;
        assert X[k].y - 1 == k / w == p.y - 1;
      }
    }
  }

  /** Zero displacement: when every pixel's source position is its own
      coordinate, the warped image equals the input pixel for pixel. */
  lemma ZeroDisplacementIdentity(g: Grid, h: nat, w: nat)
    requires IsImage(g, h, w)
    ensures Warp(g, h, w, Mesh(h, w)) == g
  {
    var I := Flatten(g, h, w);
    assert WarpFlat(I, h, w, Mesh(h, w)) == I;
    ReshapeFlatten(g, h, w);
  }

  /** The source positions of a displacement that is the same vector
      (dx, dy) at every pixel. */
  function Shifted(h: nat, w: nat, dx: int, dy: int): (positions: seq<Point>)
    ensures |positions| == h * w
  {
    var X := Mesh(h, w);
    seq(h * w, k requires 0 <= k < h * w => Point(X[k].x + dx, X[k].y + dy))
  }

  /** Under a uniform displacement (dx, dy), destination pixel (i, j) shows
      input pixel (i + dy, j + dx) when that exists and white otherwise: the
      content moves by (-dx, -dy) and the uncovered border is filled. */
  lemma UniformShift(g: Grid, h: nat, w: nat, dx: int, dy: int, i: nat, j: nat)
    requires IsImage(g, h, w) && i < h && j < w
    ensures Warp(g, h, w, Shifted(h, w, dx, dy))[i][j] ==
      if 0 <= i + dy < h && 0 <= j + dx < w then g[i + dy][j + dx] else White
  {
    var X := Mesh(h, w);
    WarpAt(g, h, w, Shifted(h, w, dx, dy), i, j);
    var k := i * w + j;
    DivModUnique(k, i, j, w);
    assert FlatIndex(X[k], h, w) == k;
    assert X[k] == Point(j + 1, i + 1);
  }

  /** `point_guided_deformation` after the source positions are known: a
      fresh buffer of the input's shape, filled with white, whose pixels are
      overwritten from the input where the position is accepted. The input
      is only read. */
  method PointGuidedDeformation(image: array2<Pixel>, positions: seq<Point>)
    returns (warped: array2<Pixel>)
    requires |positions| == image.Length0 * image.Length1
    ensures fresh(warped)
    ensures warped.Length0 == image.Length0 && warped.Length1 == image.Length1
    ensures Rows(warped) == Warp(Rows(image), image.Length0, image.Length1, positions)
  {
    var h, w := image.Length0, image.Length1;
    ghost var g := Rows(image);
    ghost var want := Warp(g, h, w, positions);
    warped := new Pixel[h, w]((_, _) => White);
    var r := 0;
    while r < h
      invariant 0 <= r <= h
      invariant forall i, j :: 0 <= i < h && 0 <= j < w ==>
        warped[i, j] == if i < r then want[i][j] else White
    {
      var c := 0;
      while c < w
        invariant 0 <= c <= w
        invariant forall i, j :: 0 <= i < h && 0 <= j < w ==>
          warped[i, j] == if i < r || (i == r && j < c) then want[i][j] else White
      {
        WarpAt(g, h, w, positions, r, c);
        var p := positions[r * w + c];
        if Accepted(p, h, w) {
          var k := FlatIndex(p, h, w);
          warped[r, c] := image[k / w, k % w];
        }
        c := c + 1;
      }
      r := r + 1;
    }
    SamePixels(Rows(warped), want, h, w);
  }
}
