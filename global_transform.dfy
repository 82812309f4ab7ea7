/** The padding step of `apply_transform` in the affine-transform
    playground: before rotating, scaling and translating, the image is
    placed in the middle of a white canvas with a margin of half its
    smaller side on every side, so that the transform has room to move it. */
module GlobalTransform {
  import opened Images

  /** `min(h, w) // 2`: the largest margin that twice fits into both the
      height and the width. */
  function PadSize(h: nat, w: nat): (p: nat)
    ensures 2 * p <= h && 2 * p <= w
    ensures h < 2 * p + 2 || w < 2 * p + 2
  {
    (if h <= w then h else w) / 2
  }

  /** The numpy slice `g[top:top + h, left:left + w]`. */
  function Window(g: Grid, top: nat, left: nat, h: nat, w: nat): (out: Grid)
    requires top + h <= |g|
    requires forall i :: top <= i < top + h ==> left + w <= |g[i]|
    ensures IsImage(out, h, w)
  {
    seq(h, i requires 0 <= i < h => g[top + i][left..left + w])
  }

  /** The padded canvas: `np.full` of white of shape `(h + 2p, w + 2p, 3)`,
      whose slice `[p:p + h, p:p + w]` is then set to the image. */
  function Padded(g: Grid, h: nat, w: nat): (out: Grid)
    requires IsImage(g, h, w)
    ensures var p := PadSize(h, w); IsImage(out, h + 2 * p, w + 2 * p)
  {
    var p := PadSize(h, w);
    seq(h + 2 * p, r requires 0 <= r < h + 2 * p =>
      seq(w + 2 * p, c requires 0 <= c < w + 2 * p =>
        if p <= r < p + h && p <= c < p + w then g[r - p][c - p] else White))
  }

  /** The image can be cut back out of the canvas at offset (p, p): it sits
      in the centre unchanged. */
  lemma WindowOfPadded(g: Grid, h: nat, w: nat)
    requires IsImage(g, h, w)
    ensures var p := PadSize(h, w);
      Window(Padded(g, h, w), p, p, h, w) == g
  {
    var p := PadSize(h, w);
    var out := Window(Padded(g, h, w), p, p, h, w);
    forall i, j | 0 <= i < h && 0 <= j < w
      ensures out[i][j] == g[i][j]
    {
    }
    SamePixels(out, g, h, w);
  }

  /** Everything outside the central `h x w` window is white: the margins
      above, below, left and right of the image are all background. */
  lemma PaddedBorderWhite(g: Grid, h: nat, w: nat, r: nat, c: nat)
    requires IsImage(g, h, w)
    requires var p := PadSize(h, w); r < h + 2 * p && c < w + 2 * p
    requires var p := PadSize(h, w); !(p <= r < p + h && p <= c < p + w)
    ensures Padded(g, h, w)[r][c] == White
  {
  }

  /** The padding step of `apply_transform`: a fresh white canvas of shape
      `(h + 2p, w + 2p)` with the image copied into its centre. The image
      itself is only read. */
  method PadImage(image: array2<Pixel>) returns (padded: array2<Pixel>)
    ensures fresh(padded)
    ensures var p := PadSize(image.Length0, image.Length1);
      padded.Length0 == image.Length0 + 2 * p && padded.Length1 == image.Length1 + 2 * p
    ensures Rows(padded) == Padded(Rows(image), image.Length0, image.Length1)
  {
    var h, w := image.Length0, image.Length1;
    var p := PadSize(h, w);
    ghost var want := Padded(Rows(image), h, w);
    padded := new Pixel[h + 2 * p, w + 2 * p]((_, _) => White);
    var i := 0;
    while i < h
      invariant 0 <= i <= h
      invariant forall r, c :: 0 <= r < h + 2 * p && 0 <= c < w + 2 * p ==>
        padded[r, c] == if p <= r < p + i && p <= c < p + w then want[r][c] else White
    {
      var j := 0;
      while j < w
        invariant 0 <= j <= w
        invariant forall r, c :: 0 <= r < h + 2 * p && 0 <= c < w + 2 * p ==>
          padded[r, c] ==
            if (p <= r < p + i && p <= c < p + w) || (r == p + i && p <= c < p + j)
            then want[r][c] else White
      {
        padded[p + i, p + j] := image[i, j];
        j := j + 1;
      }
      i := i + 1;
    }
    SamePixels(Rows(padded), want, h + 2 * p, w + 2 * p);
  }
}
