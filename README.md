# Voxel renderer core in Dafny

The voxel renderer draws a unit cube centred at the origin as seen from an
eye at `(0, 0, -50)`. Each pixel of a window gets one ray. The ray is
intersected with the cube by the slab method: `getParameter`,
`getParameterRange` and `intersectUnitCube` compute, per axis, the interval of
ray parameters `t` between the two faces, and intersect the three intervals
with `[0, +inf]`. The pixel is painted opaque white when the resulting `Range`
is non-empty and opaque black otherwise (`draw_cb`). Both programs also carry
a small image type that is filled with a sample picture (white, with a red
rectangle) and written as a binary PPM file (`test_ppm`). In `voxel.c` that
type is an array of row buffers (`init_image`, `free_image`, `save_image`). In
`voxel.cpp` it is one flat vector with `operator[]` row indexing and `save`.

The modules follow the program:

- `Doubles`: the values a C `double` takes here. These are exact reals, the
  two infinities and NaN, with C's `<=`/`>` and C99 `fmin`/`fmax`. They also
  include IEEE division, which yields an infinity or NaN when the divisor is 0.
- `Ranges`: `Range`, `is_empty_range` and `intersectRanges`.
- `UnitCube`: rays, the cube, `getParameter`, `getParameterRange`, and
  `intersectUnitCube` as a method that reassigns its local range three times.
  It is proved sound for every ray. It is proved complete whenever no axis runs
  inside a face plane, and hit-iff-non-empty when in addition `p != q`.
- `Raster`: the pixel loop of `draw_cb`. It is a method over an `array<bv32>`
  surface whose rows are `stride` bytes apart. It is proved to paint every pixel
  exactly once with the colour of its ray, and to leave every other word alone.
  The painted picture has a closed form: the pixels within 33 of the centre in
  both directions are white.
- `Bytes`, `Ppm`, `Pattern`: bytes, row flattening, and the P6 layout with an
  independent decoder `Decode` as the partner of the writers. `Pattern` holds
  the sample picture `test_ppm` paints.
- `ImageC`: the `voxel.c` image as a class holding an array of row arrays.
- `ImageCpp`: the `voxel.cpp` image as a class holding one flat byte array.
- `Arith`: two small facts about integer division and multiplication.

The division by zero is modelled rather than excluded. `draw_cb` produces it
itself: the centre column of an odd-width window (and the centre row of an
odd-height one) has `q.x == p.x == 0`. The z axis always moves, from `-50` to
`0`. So a precondition `p.axis != q.axis` would exclude pixels that the loop
really computes. Modelled with IEEE semantics, the cube test is total.
Its results on such an axis are as follows:

- `[-inf, +inf]` strictly between the faces;
- `[+inf, +inf]` or `[-inf, -inf]` outside them;
- the same via NaN and `fmin`/`fmax` exactly on a face.

## Model

| member | source | states |
|---|---|---|
| Doubles.Le | voxel.c:126 | C's `<=` on doubles: false when an operand is NaN, the real order on finite values, `-inf` below and `+inf` above every non-NaN value |
| Doubles.Gt | voxel.c:126 | C's `>` on doubles: false when an operand is NaN, otherwise `>=` and different, so the real `>` on finite values |
| Doubles.FMax | voxel.c:129 | `fmax` ignores a NaN operand; otherwise it returns one of its operands, and that operand is `>=` both |
| Doubles.FMin | voxel.c:129 | `fmin` ignores a NaN operand; otherwise it returns one of its operands, and that operand is `<=` both |
| Doubles.Div | voxel.c:145 | the quotient is exact for a non-zero divisor; for a zero divisor it is `+inf`, `-inf` or NaN as the numerator is positive, negative or zero |
| Doubles.LeTotalOrder | voxel.c:126 | on non-NaN doubles `<=` is reflexive, total, antisymmetric and transitive |
| Doubles.FMaxFMinAlgebra | voxel.c:128-131 | `fmax` and `fmin` are commutative, associative and idempotent, NaN included |
| Ranges.IsEmpty | voxel.c:126 | `is_empty_range`, C's `r.a > r.b`: an empty range has no NaN bound, on finite bounds it is `a > b`, and on NaN-free bounds it is `!(a <= b)`; `EmptyIffNoMember` gives its meaning |
| Ranges.Intersect | voxel.c:128-131 | on NaN-free ranges the intersection holds exactly the reals in both ranges and lies inside both; an empty argument gives an empty result |
| Ranges.EmptyIffNoMember | voxel.c:126 | `a > b` means no real lies in the range; otherwise some real does, except for the single points `[-inf, -inf]` and `[+inf, +inf]` |
| Ranges.IntersectAlgebra | voxel.c:128-131 | intersection is commutative and associative, and intersecting a range with itself leaves it unchanged |
| UnitCube.GetParameter | voxel.c:144-146 | for `a != b` the result is the `t` with `a + t * (b - a) == x`; for `a == b` it is `+inf`, `-inf` or NaN as `x` lies above, below or at `a` |
| UnitCube.GetParameterEnds | voxel.c:144-146 | for `a != b`, the parameter of `a` is 0 and that of `b` is 1 |
| UnitCube.GetParameterRange | voxel.c:148-153 | never NaN-bounded; for `a != b` it is finite and ordered with `lo < hi`, whatever the sign of `b - a` |
| UnitCube.SlabRange | voxel.c:148-153 | a `t` in the axis interval puts the coordinate between the faces; the converse holds unless the axis runs inside a face plane |
| UnitCube.MovingSlabRange | voxel.c:148-153 | for `a != b`, `t` is in the interval exactly when `a + t * (b - a)` lies in `[-0.5, 0.5]` |
| UnitCube.ParallelSlabRange | voxel.c:148-153 | for `a == b`, a `t` is in the interval exactly when `-0.5 < a < 0.5` |
| UnitCube.IntersectUnitCube | voxel.c:155-168 | the lower bound is `>= 0`, and every `t` in the result is `>= 0` with its point in the cube; unless a face is grazed, every such `t` is in the result, and for `p != q` the result is empty exactly when the ray misses |
| UnitCube.CubeRangeMembers | voxel.c:155-168 | the three-fold narrowing of `[0, +inf]` holds exactly the hitting parameters (the converse needs no grazed face) |
| UnitCube.HitIffNonEmpty | voxel.c:155-168 | when the result holds exactly the hitting parameters and `p != q`, it is empty exactly when the ray misses the cube |
| Raster.DrawCb | voxel.c:185-216 | on an ARGB32 surface, each pixel `(x, y)` gets `Colour`, at the word at byte offset `y * stride + 4 * x`; all other words, and every word of another format, are unchanged; the offsets written are strictly increasing, `width * height` of them, and all pixels, so each pixel is written exactly once |
| Raster.DrawRow | voxel.c:193-214 | the inner loop paints row `y`, which starts at word `rowStart == y * s` as `image_data` has advanced by `stride` per row, left to right, and changes nothing outside the row's `width` words |
| Raster.AppendRow | voxel.c:192-215 | appending a row's offsets keeps the write order strictly increasing, and keeps every offset within the painted rows |
| Raster.WordIndex | voxel.c:191-214 | the word of pixel `(x, y)` is at byte offset `y * stride + 4 * x`, inside the `height` rows of the buffer |
| Raster.Slot | voxel.c:193-214 | word `y * s + x` is read back as row `y`, column `x`, and lies in the buffer |
| Raster.PixelRay | voxel.c:181-202 | the ray of pixel `(x, y)` starts at the eye and passes through `((2x - width + 1) / 132, (height - 1 - 2y) / 132, 0)`, that is `px * (x - (width - 1) / 2)` and `px * ((height - 1) / 2 - y)` with `px = 30 / 1980` |
| Raster.PixelWord | voxel.c:195-212 | the word is opaque white when the pixel's ray hits the cube and opaque black otherwise; its alpha byte is 255 |
| Raster.Argb | voxel.c:212 | alpha 255 sits in the top byte; red, green and blue can each be read back from their byte |
| Raster.PixelHitsIff | voxel.c:181-202 | the ray of pixel `(x, y)` hits the cube exactly when `|2x - width + 1| <= 66` and `|2y - height + 1| <= 66` |
| Raster.EyeRayHits | voxel.c:181-202 | a ray from the eye through `(cx, cy, 0)` hits exactly when `|99 cx| <= 50` and `|99 cy| <= 50` |
| Raster.ColourIsRayColour | voxel.c:195-212 | the closed-form `Colour` is white exactly for the pixels whose rays hit the cube |
| Raster.CentrePixelHits | voxel.c:181-211 | in a 640 by 480 window, pixel `(320, 240)` is painted white |
| Raster.CornerPixelMisses | voxel.c:181-211 | in a 640 by 480 window, pixel `(0, 0)` is painted black |
| Bytes.FlattenLength | voxel.c:50-52 | concatenating `k` rows of `n` bytes gives `k * n` bytes |
| Bytes.FlattenAt | voxel.c:50-52 | byte `m` of row `i` lands at offset `i * n + m` of the concatenation |
| Ppm.Decimal | voxel.c:49 | `%d` of a natural number is a non-empty digit string, with a leading `0` only for zero |
| Ppm.ValueDecimal | voxel.c:49 | the digit string of `n` denotes `n` |
| Ppm.ReadDecimal | voxel.c:49 | a written number followed by a non-digit is read back whole, and the rest of the input is left |
| Ppm.Header | voxel.c:49 | the header starts with `P6\n`, then the decimal width and a space, and ends with `255\n`; `DecodeEncode` reads the width and height back from it |
| Ppm.Encode | voxel.cpp:22-26 | a file is the header followed by the payload bytes unchanged; `DecodeEncode` is its round trip |
| Ppm.DecodeEncode | voxel.cpp:22-26 | decoding a header plus `3 * width * height` bytes gives back the width, the height and the bytes |
| Ppm.EncodeInjective | voxel.cpp:22-26 | two files are equal only if their sizes and payloads are equal |
| Pattern.SamplePicture | voxel.c:66-79 | in the 480 by 640 sample picture, pixel `(i, j)` is `(255, 0, 0)` exactly when `100 <= i < 430` and `200 <= j < 540`, and `(255, 255, 255)` otherwise |
| Pattern.FlatPicture | voxel.cpp:44-57 | flattened row by row, channel `c` of pixel `(i, j)` of the picture is at byte `3 * (width * i + j) + c` |
| ImageC.Image.Init | voxel.c:25-34 | stores the size, and allocates `height` distinct fresh rows of `width` three-byte pixels |
| ImageC.Image.Free | voxel.c:36-44 | sets the height and width to 0 and the data to null |
| ImageC.Image.Save | voxel.c:46-54 | the file is the header followed by each row in turn, and decoding it gives back the size and the pixel bytes |
| ImageC.PaintWhite | voxel.c:66-72 | every channel of every pixel becomes 255; only row contents change |
| ImageC.PaintRectangle | voxel.c:73-79 | pixels in the rectangle become `(255, 0, 0)`; every other byte keeps its value |
| ImageC.PaintRowRed | voxel.c:74-78 | the rectangle's pixels in row `i` become red; the rest of the row keeps its value |
| ImageC.PaintSample | voxel.c:66-79 | the two loops leave exactly the sample picture in the rows |
| ImageC.TestPpm | voxel.c:63-82 | the saved file is the encoded sample picture, which decodes to 640 by 480 and the picture's bytes |
| ImageCpp.Image.constructor | voxel.cpp:15-16 | stores the size and allocates `height * width` zeroed pixels |
| ImageCpp.Image.Index | voxel.cpp:18 | channel `c` of `image[i][j]` is in bounds, and its byte is at pixel `width * i + j`; row, column and channel read back from it, so distinct `(i, j, c)` never share a byte |
| ImageCpp.IndexOnto | voxel.cpp:18 | every byte of the vector is channel `k % 3` of pixel `(k / 3 / width, k / 3 % width)` |
| ImageCpp.Image.Save | voxel.cpp:20-27 | the file is the header plus `3 * height * width` bytes, and decoding it gives back the size and the vector |
| ImageCpp.PaintWhite | voxel.cpp:44-50 | every channel of every pixel becomes 255 |
| ImageCpp.PaintRowWhite | voxel.cpp:45-49 | row `i` becomes white; every other row keeps its bytes |
| ImageCpp.PaintRectangle | voxel.cpp:51-57 | pixels in the rectangle become `(255, 0, 0)`; every other byte keeps its value |
| ImageCpp.PaintRowRed | voxel.cpp:52-56 | the rectangle's pixels in row `i` become red; every other byte keeps its value |
| ImageCpp.PaintSample | voxel.cpp:44-57 | after the two loops the vector is the flattened sample picture |
| ImageCpp.SampleBytes | voxel.cpp:44-57 | a vector whose every pixel has the picture's colours equals the flattened picture |
| ImageCpp.TestPpm | voxel.cpp:42-59 | the saved file is the encoded sample picture, which decodes to 640 by 480 and the picture's bytes |

## Left out

- GTK and cairo are not modelled: the window, the gesture handlers, `resize_cb`, `clear_surface`, `draw_brush`, `activate` and `test_gtk`. `example-3.c` is not part of this model.
- `draw_cb` takes the surface's flush, mark-dirty and paint steps as given. It also takes the format check as the boolean `argb32`, and the buffer and `stride` as parameters.
- `draw_cb` rests on the surface being at least `width` by `height`, as `resize_cb` arranges. The model states that as its requires.
- Floating-point rounding is not modelled: arithmetic on doubles is exact real arithmetic. The infinities and NaN are kept.
- Signed zeros are not modelled: `+0.0` and `-0.0` are both the real `0`, so Doubles.Div and UnitCube.GetParameter always divide by `+0`. For `a = +0.0, b = -0.0`, C's `getParameter` would return the opposite infinity. This is harmless here: `getParameterRange` orders the two parameters with `fmin`/`fmax`, so the range is `[-inf, +inf]` either way. `draw_cb` never produces `-0.0` either, since `px * +0.0` is `+0.0`.
- C's 32-bit `int` arithmetic (`height * width`, `y * stride`) is unbounded here. No overflow is modelled.
- File I/O is left out. The `fopen`/`fwrite`/`ofstream` calls become the returned byte sequence. The fixed file names are dropped.
- `malloc` failure, `check`, `fail`, `exit`, `help` and `main` are left out.
- ImageC.Image.Free: releasing the row buffers is not modelled, only the field updates.
- ImageC.Image.Init: the rows' initial bytes are left open, as `malloc` leaves them. The sizes are taken as naturals.
- ImageCpp.Image.constructor: negative sizes are excluded by taking naturals. `std::vector` rejects only a negative product `height * width`, which throws `length_error`. Two negative sizes, or a negative and a zero one, give a vector the model does not describe.
- UnitCube.IntersectUnitCube: completeness is weaker than "every hitting `t` is in the result". It is stated only for rays that run inside no face plane, because for such a ray the IEEE result `[+inf, +inf]` or `[-inf, -inf]` excludes every `t`. Hit-iff-non-empty additionally needs `p != q`. A ray of `draw_cb` never grazes a face and always has `p != q`.
- The general camera basis (normalising, orthogonalising, cross product) is not part of this model; only the fixed ray field of `draw_cb` is.
