/** Images as the homework handles them: an H x W grid of RGB pixels, each
    channel an unsigned 8-bit value, stored row-major with the origin at the
    top-left corner. A numpy array of shape (h, w, 3) becomes an
    `array2<Pixel>`; its value is read through `Rows` as a `Grid`. */
module Images {

  /** One 8-bit channel value (numpy's uint8). */
  type Byte = x: int | 0 <= x < 256

  /** A pixel carries exactly three channels, so every image built from
      pixels has the third dimension 3. */
  datatype Pixel = Pixel(r: Byte, g: Byte, b: Byte)

  /** The background colour both transforms fill with (255 in every channel). */
  const White: Pixel := Pixel(255, 255, 255)

  /** An integer pixel coordinate (x = column, y = row). */
  datatype Point = Point(x: int, y: int)

  /** The value of an image: a sequence of rows. */
  type Grid = seq<seq<Pixel>>

  /** `g` has `h` rows of `w` pixels each. */
  predicate IsImage(g: Grid, h: nat, w: nat)
  {
    |g| == h && forall i :: 0 <= i < h ==> |g[i]| == w
  }

  /** The pixels currently held by an array, row by row. */
  ghost function Rows(a: array2<Pixel>): (g: Grid)
    reads a
    ensures IsImage(g, a.Length0, a.Length1)
    ensures forall i, j :: 0 <= i < a.Length0 && 0 <= j < a.Length1 ==> g[i][j] == a[i, j]
  {
    seq(a.Length0, i requires 0 <= i < a.Length0 reads a =>
      seq(a.Length1, j requires 0 <= j < a.Length1 reads a => a[i, j]))
  }

  /** Two images of the same shape are equal when they agree pixel by pixel. */
  lemma SamePixels(a: Grid, b: Grid, h: nat, w: nat)
    requires IsImage(a, h, w) && IsImage(b, h, w)
    requires forall i, j :: 0 <= i < h && 0 <= j < w ==> a[i][j] == b[i][j]
    ensures a == b
  {
    forall i | 0 <= i < h
      ensures a[i] == b[i]
    {
      assert forall j :: 0 <= j < w ==> a[i][j] == b[i][j];
    }
  }

  /** Row-major position `i * w + j` of pixel (i, j) lies inside an image
      of `h * w` pixels. */
  lemma RowMajorBound(i: int, j: int, h: int, w: int)
    requires 0 <= i < h && 0 <= j < w
    ensures 0 <= i * w + j < h * w
  {
    assert (h - i - 1) * w >= 0;
    assert h * w == i * w + w + (h - i - 1) * w;
  }

  /** `k == q * w + m` with `0 <= m < w` determines the quotient and the
      remainder of `k` by `w`. */
  lemma DivModUnique(k: int, q: int, m: int, w: int)
    requires 0 <= m < w && k == q * w + m
    ensures k / w == q && k % w == m
  {
    var q', m' := k / w, k % w;
    assert k == q' * w + m';
    assert (q - q') * w == m' - m by {
      assert (q - q') * w == q * w - q' * w;
    }
    if q > q' {
      AtLeastOnce(q - q', w);
    } else if q < q' {
      AtLeastOnce(q' - q, w);
    }
  }

  /** A positive multiple of a nonnegative `w` is at least `w`. */
  lemma AtLeastOnce(a: int, w: int)
    requires a >= 1 && w >= 0
    ensures a * w >= w
  {
    assert a * w == w + (a - 1) * w;
  }

  /** The row `k / w` of a flat position `k < h * w` is below `h`. */
  lemma RowOf(k: int, h: int, w: int)
    requires w > 0 && 0 <= k < h * w
    ensures k / w < h
  {
    var q := k / w;
    assert q * w <= k;
    assert (h - q) * w > 0 by {
      assert (h - q) * w == h * w - q * w;
    }
  }

  /** numpy's `reshape(h * w, 3)` of an (h, w, 3) image: its rows laid end
      to end. */
  function Flatten(g: Grid, h: nat, w: nat): (s: seq<Pixel>)
    requires IsImage(g, h, w)
    ensures |s| == h * w
  {
    if h == 0 then []
    else
      assert IsImage(g[1..], h - 1, w);
      g[0] + Flatten(g[1..], h - 1, w)
  }

  /** numpy's `reshape(h, w, 3)` of a buffer of `h * w` pixels: consecutive
      runs of `w` pixels become the rows. */
  function Reshape(s: seq<Pixel>, h: nat, w: nat): (g: Grid)
    requires |s| == h * w
    ensures IsImage(g, h, w)
  {
    if h == 0 then []
    else
      assert h * w == w + (h - 1) * w;
      [s[..w]] + Reshape(s[w..], h - 1, w)
  }

  /** Pixel (i, j) of an image sits at position `i * w + j` of its flat buffer. */
  lemma {:induction false} FlattenAt(g: Grid, h: nat, w: nat, i: nat, j: nat)
    requires IsImage(g, h, w) && i < h && j < w
    ensures i * w + j < h * w && Flatten(g, h, w)[i * w + j] == g[i][j]
  {
    RowMajorBound(i, j, h, w);
    assert IsImage(g[1..], h - 1, w);
    if i > 0 {
      FlattenAt(g[1..], h - 1, w, i - 1, j);
      assert (i - 1) * w + j == i * w + j - w;
    }
  }

  /** Row i, column j of a reshaped buffer is its element `i * w + j`. */
  lemma {:induction false} ReshapeAt(s: seq<Pixel>, h: nat, w: nat, i: nat, j: nat)
    requires |s| == h * w && i < h && j < w
    ensures i * w + j < |s| && Reshape(s, h, w)[i][j] == s[i * w + j]
  {
    RowMajorBound(i, j, h, w);
    assert h * w == w + (h - 1) * w;
    if i > 0 {
      ReshapeAt(s[w..], h - 1, w, i - 1, j);
      assert (i - 1) * w + j == i * w + j - w;
    }
  }

  /** Reshaping a flattened image gives the image back. */
  lemma ReshapeFlatten(g: Grid, h: nat, w: nat)
    requires IsImage(g, h, w)
    ensures Reshape(Flatten(g, h, w), h, w) == g
  {
    var back := Reshape(Flatten(g, h, w), h, w);
    forall i, j | 0 <= i < h && 0 <= j < w
      ensures back[i][j] == g[i][j]
    {
      FlattenAt(g, h, w, i, j);
      ReshapeAt(Flatten(g, h, w), h, w, i, j);
    }
    SamePixels(back, g, h, w);
  }

  /** Flattening a reshaped buffer gives the buffer back. */
  lemma {:induction false} FlattenReshape(s: seq<Pixel>, h: nat, w: nat)
    requires |s| == h * w
    ensures Flatten(Reshape(s, h, w), h, w) == s
  {
    if h > 0 {
      assert h * w == w + (h - 1) * w;
      FlattenReshape(s[w..], h - 1, w);
      var g := Reshape(s, h, w);
      assert g[1..] == Reshape(s[w..], h - 1, w);
      assert s == s[..w] + s[w..];
    }
  }
}
