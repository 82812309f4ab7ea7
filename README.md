# Image warping homework: the discrete core, in Dafny

This project models the exact, integer parts of an image-warping homework
(DIP HW1). Two demos make up the homework:

- **Point-guided deformation** (`HW1/run_point_transform.py`). The user clicks
  pairs of control points on an image. Each destination pixel is then mapped
  backwards through a radial-basis-function displacement to a source position.
  The model covers two parts of this demo:
  - **Resampling** (`PointTransform`). Destination pixel `k`, taken in row-major
    order, has the 1-indexed coordinate `(k mod w + 1, k div w + 1)`. A source
    position `(x, y)` is used when `1 <= x <= w` and `1 <= y <= h`. A used
    position is read at flat index `(y - 1) * w + (x - 1)` of the input's
    `h * w` pixel buffer. Any other destination pixel stays white,
    `(255, 255, 255)`. The positions are an input: in the program they are the
    rounded output of the floating-point interpolant.
  - **Point lists** (`PointStore`). Clicks alternate between the source list
    and the target list. Uploading an image or clearing the points empties
    both lists. The program keeps the lists and the current image in
    module-level variables; here they are the fields of a `Session` object.
- **Affine playground** (`HW1/run_global_transform.py`). Only its padding step
  is modelled (`GlobalTransform`). The image is placed in the centre of a white
  canvas with a margin of `min(h, w) div 2` on every side.

Images are `array2<Pixel>`, where `Pixel` has three 8-bit channels, so every
image has exactly three channels. `Rows` reads an array as a `Grid`, a
sequence of rows, and the specification functions work on grids.
`Flatten` and `Reshape` model numpy's `reshape` between `(h, w, 3)` and
`(h * w, 3)`. Each of the two methods writes a freshly allocated array. Each
has no `modifies` clause, so its input image is provably only read.

## Model

| member | source | states |
|---|---|---|
| `Images.Flatten` | HW1/run_point_transform.py:51 | flattening an h x w image gives a buffer of exactly h * w pixels |
| `Images.Reshape` | HW1/run_point_transform.py:78 | reshaping an h * w buffer gives h rows of w pixels |
| `Images.FlattenAt` | HW1/run_point_transform.py:51 | pixel (i, j) sits at flat position i * w + j, which is inside the buffer |
| `Images.ReshapeAt` | HW1/run_point_transform.py:78 | row i, column j of the reshaped buffer is its element i * w + j |
| `Images.ReshapeFlatten` | HW1/run_point_transform.py:51 | reshaping a flattened image returns the image (round trip) |
| `Images.FlattenReshape` | HW1/run_point_transform.py:78 | flattening a reshaped buffer returns the buffer (round trip) |
| `PointTransform.Coord` | HW1/run_point_transform.py:52-53 | destination pixel k has a 1-indexed coordinate with 1 <= x <= w and y >= 1, and reading it back row-major gives k |
| `PointTransform.Mesh` | HW1/run_point_transform.py:52-53 | there are h * w destination coordinates; each lies in [1, w] x [1, h], and the flat index of the k-th is k |
| `PointTransform.Accepted` | HW1/run_point_transform.py:73 | every position the mask lets through (x > 0, y > 0, x <= w, y <= h) has flat index (y - 1) * w + (x - 1) in [0, h * w), so the lookup it guards never reads out of range |
| `PointTransform.FlatIndex` | HW1/run_point_transform.py:74 | for an accepted position, the flat index lies in [0, h * w) and decodes to row y - 1, column x - 1, so the lookup never reads out of range |
| `PointTransform.AcceptedIffInMesh` | HW1/run_point_transform.py:73 | a source position is accepted exactly when it is some destination pixel's coordinate (both directions) |
| `PointTransform.WarpFlat` | HW1/run_point_transform.py:50-77 | the flat result buffer has h * w entries, and every entry is either the white fill or a pixel of the input: the resample creates no new colours |
| `PointTransform.Warp` | HW1/run_point_transform.py:73-78 | the warped image has the same height and width as the input |
| `PointTransform.WarpAt` | HW1/run_point_transform.py:73-77 | an accepted destination pixel gets input row y - 1, column x - 1; a rejected one is (255, 255, 255) |
| `PointTransform.ZeroDisplacementIdentity` | HW1/run_point_transform.py:73-78 | when every source position is the pixel's own coordinate, the output equals the input pixel for pixel |
| `PointTransform.UniformShift` | HW1/run_point_transform.py:73-77 | under one displacement (dx, dy) at every pixel, pixel (i, j) shows input (i + dy, j + dx) if it exists and white otherwise |
| `PointTransform.PointGuidedDeformation` | HW1/run_point_transform.py:43-80 | returns a fresh array of the input's shape whose value is `Warp` of the input; the input is not modified |
| `PointStore.Step` | HW1/run_point_transform.py:11-27 | a click only extends the lists (each old list is a prefix of the new one) and adds exactly one point; an upload (lines 11-16) or a clear (`clear_points`, lines 89-93) leaves both lists empty |
| `PointStore.Replay` | HW1/run_point_transform.py:11-27 | after any history, the two lists together hold exactly as many points as there were clicks since the last upload or clear (`clear_points`, lines 89-93) |
| `PointStore.ReplayPairsClicks` | HW1/run_point_transform.py:11-27 | after any history of clicks, uploads and clears, the source list is the 1st, 3rd, 5th, ... click since the last reset and the target list the 2nd, 4th, ... |
| `PointStore.ReplayBalanced` | HW1/run_point_transform.py:24-27 | after any history, len(points_src) - len(points_dst) is 0 or 1 |
| `PointStore.StepBalanced` | HW1/run_point_transform.py:24-27 | a single click, upload or clear keeps the lists balanced |
| `PointStore.Session.constructor` | HW1/run_point_transform.py:6-8 | the session starts with both lists empty and no image |
| `PointStore.Session.UploadImage` | HW1/run_point_transform.py:11-16 | empties both lists, stores the image and returns it; the balance invariant holds |
| `PointStore.Session.RecordPoint` | HW1/run_point_transform.py:19-27 | appends the point to the source list iff the lists are equally long, else to the target list; the other list, the image and the balance invariant are kept |
| `PointStore.Session.ClearPoints` | HW1/run_point_transform.py:89-93 | empties both lists and returns the current image; the balance invariant holds |
| `GlobalTransform.PadSize` | HW1/run_global_transform.py:14 | the margin is the largest p with 2p <= h and 2p <= w, i.e. min(h, w) div 2 |
| `GlobalTransform.Window` | HW1/run_global_transform.py:18 | the slice [top:top + h, left:left + w] has h rows of w pixels |
| `GlobalTransform.Padded` | HW1/run_global_transform.py:15-18 | the canvas has shape (h + 2p) x (w + 2p) |
| `GlobalTransform.WindowOfPadded` | HW1/run_global_transform.py:14-18 | the slice [p:p + h, p:p + w] of the canvas is the original image unchanged |
| `GlobalTransform.PaddedBorderWhite` | HW1/run_global_transform.py:15-18 | every canvas pixel outside the central h x w window at offset (p, p) is white in all channels |
| `GlobalTransform.PadImage` | HW1/run_global_transform.py:11-18 | returns a fresh (h + 2p) x (w + 2p) array whose value is `Padded` of the input; the input is not modified |

## Left out

- The radial-basis-function numerics are not modelled (HW1/run_point_transform.py:44, 47, 54-70). These are the kernel `1 / (r^2 + d)`, `pdist`/`squareform`, `np.linalg.solve`, the closed form for one control point, and the `np.round` of the float positions. They are floating-point work done by numpy and scipy. The rounded positions are an input to `PointGuidedDeformation`, one per pixel.
- PointTransform.PointGuidedDeformation: requires one source position per pixel. The program always computes exactly `h * w` of them.
- The program has no checks for empty or unequal point lists, and none for a singular matrix. The model adds none either. The identity case is stated for zero displacement, in `ZeroDisplacementIdentity`.
- `run_warping` (HW1/run_point_transform.py:81-86) is not modelled. It calls `point_guided_deformation` on the global image and the two point lists, each converted by `np.array`. That call includes the resample modelled here; the source positions that `PointGuidedDeformation` takes as input are the ones that call computes. The session does not call the resample itself, because the positions come from the floating-point part above.
- Marker and arrow drawing in `record_points` (HW1/run_point_transform.py:29-40) is not modelled, and neither is the marked image it returns. `RecordPoint` models only the list update. Before the first upload, the program appends the point and then fails on `image.copy()`. The model keeps the append and does not model that failure.
- The Gradio user interface of both files is not modelled (HW1/run_point_transform.py:95-119; HW1/run_global_transform.py:40-77). It is UI and I/O.
- The affine part of `apply_transform` is not modelled (HW1/run_global_transform.py:20-36). `getRotationMatrix2D`, `warpAffine` and `flip` are OpenCV calls, and the translation (lines 28-29) is float arithmetic on the matrix. The numpy helper `to_3x3` (lines 6-7) is not called anywhere and is not modelled either. The conversion of a PIL image by `np.array` (line 11) is taken as given: `PadImage` receives the array.
- The unused parameters `alpha` and `eps` of `point_guided_deformation` do not appear in the model.
