# Whitted ray tracer: the ray–box renderer, in Dafny

This project models the core of `whitted-ray-tracing/application.cpp` and
`whitted-ray-tracing/colorRGB.h`. The program renders one axis-aligned box,
seen from a fixed camera, into a 600 × 600 image and writes it as a plain
(`P3`) PPM file. The model has these parts:

- `vectors.dfy` (module `Vectors`) holds the part of glm's `vec3` that is used: addition, scaling, `std::min`, `std::max`.
- `tracer.dfy` (module `Tracer`) holds `Ray`, `HitInfo`, the slab test `intersectBox` and its specification.
  - `intersectBox` is a method that follows the source statement by statement: per-axis distances, swaps, running max/min, the early returns, and the writes to the `HitInfo` out-parameter.
  - It is proved against specification functions: `Entry`/`Exit` (the combined slab interval), `Hits` and `HitT`.
  - Lemmas prove what those functions mean geometrically.
- `render.dfy` (module `Render`) holds `shade`, the normalised-device-coordinate formulas, and the nested pixel loop of `main` over a 2-D array.
- `ppm.dfy` (module `Ppm`) holds the text `saveAsPPM` sends to its stream: `operator<<` on `int`s, the truncating cast, the header, and one line per pixel. The loops build the text; a pure function `PpmText` states what it is.
- `scene.dfy` (module `Scene`) holds `main`: the scene constants, the pixel pass, and the saved file.
- `color.dfy` (module `Color`) holds the value type `colorRGB` and its operators.

All floating-point values are Dafny `real`s. `intersectBox` divides by every
direction component, so it is specified for rays whose direction has no zero
component (`Tracer.NonAxisParallel`). "Between `min` and `max`" means between
the smaller and the larger of the two, because the swaps make the test
symmetric in the two corners.

## Model

| member | source | states |
|---|---|---|
| Tracer.IntersectBox | whitted-ray-tracing/application.cpp:23-106 | the returned flag equals `info.hit` and is true exactly when the combined slab interval is non-empty and not wholly behind the origin; on every miss only `info.hit` changes; on a hit `t` is `HitT`, the hit point is `origin + t * direction`, and the normal is the as-written ±X normal |
| Tracer.HitT | whitted-ray-tracing/application.cpp:51-82 | on a hit the chosen `t` is non-negative, lies between the combined entry and exit, and is one of them |
| Tracer.SlabContains | whitted-ray-tracing/application.cpp:27-61 | the ordered pair of plane distances on one axis is exactly the set of `t` whose point lies between the two bounds on that axis |
| Tracer.InBoxWithin | whitted-ray-tracing/application.cpp:45-71 | a point of the ray is inside the box exactly when its `t` lies in the intersection of the three slab intervals |
| Tracer.HitsIffPointInBox | whitted-ray-tracing/application.cpp:23-81 | the test succeeds exactly when some `t >= 0` puts `origin + t * direction` inside the box on all three axes |
| Tracer.HitPointInBox | whitted-ray-tracing/application.cpp:82-83 | on a hit the written hit point lies inside the box |
| Tracer.HitTIsEntryOrExit | whitted-ray-tracing/application.cpp:82 | when the entry distance is not negative, the chosen `t` is the nearest non-negative `t` whose point is in the box; when it is negative (origin strictly inside), it is the farthest |
| Tracer.WrittenNormal | whitted-ray-tracing/application.cpp:86-103 | as written, the dispatch only ever yields an X-axis unit normal: `(-1,0,0)` or `(1,0,0)` |
| Tracer.SwappedNormal | whitted-ray-tracing/application.cpp:30-33 | the dispatch with the overwrite undone but comparing against each axis's swapped pair still yields an axis unit normal |
| Tracer.SwappedNormalMisnamesFace | whitted-ray-tracing/application.cpp:30-99 | for a ray travelling towards -X, the swapped entry distance is labelled as the left face `(-1,0,0)` although the hit point is on the right face, which `FaceNormal` reports as `(1,0,0)` |
| Tracer.FaceNormal | whitted-ray-tracing/application.cpp:86-103 | corrected dispatch: the returned normal is an axis unit vector, and the hit point lies on the box face it names |
| Tracer.WrittenNormalMisnamesFace | whitted-ray-tracing/application.cpp:51-91 | for one concrete ray the written normal is `(-1,0,0)` while the hit point is on the bottom face: not on the face the written normal names, and `FaceNormal` gives `(0,-1,0)` |
| Render.Shade | whitted-ray-tracing/application.cpp:108-111 | the colour is `(1,0,0)` exactly on a hit and `(0,0,0)` exactly on a miss |
| Render.NdcX | whitted-ray-tracing/application.cpp:163 | for a column inside the image the coordinate lies in [-1, 1), with column 0 at -1 |
| Render.NdcY | whitted-ray-tracing/application.cpp:164 | for a row inside the image the coordinate lies in (-1, 1], with row 0 at 1 |
| Render.RenderBox | whitted-ray-tracing/application.cpp:137-184 | the grid has `height` rows of `width` pixels; each pixel is red when the ray through its NDC point hits the box and the background colour otherwise |
| Ppm.NatToDecimal | whitted-ray-tracing/application.cpp:116-125 | a non-negative number is written as at least one decimal digit, with no leading zero |
| Ppm.IntToDecimal | whitted-ray-tracing/application.cpp:116-125 | a written `int` is non-empty and starts with `-` exactly when it is negative |
| Ppm.ParseIntToDecimal | whitted-ray-tracing/application.cpp:116-125 | reading back the text written for any `int` gives that `int` |
| Ppm.Truncate | whitted-ray-tracing/application.cpp:121-123 | `static_cast<int>` truncates toward zero: it is the floor for non-negative values and the ceiling for negative ones |
| Ppm.Channel | whitted-ray-tracing/application.cpp:121-123 | for a non-negative channel `c` the written integer is non-negative and is `c * 255` rounded down |
| Ppm.PixelLine | whitted-ray-tracing/application.cpp:125 | a pixel's `r g b` text contains no line break, so each pixel is exactly one line of the file |
| Ppm.Header | whitted-ray-tracing/application.cpp:115-117 | the header is three lines, `P3`, `width height` and `255`, none containing a line break |
| Ppm.ChannelRange | whitted-ray-tracing/application.cpp:121-123 | a channel in [0, 1] is written as an integer in [0, 255]; 1.0 gives 255 and 0.0 gives 0 |
| Ppm.RedAndBlackLines | whitted-ray-tracing/application.cpp:121-125 | a red pixel is written `255 0 0` and a black one `0 0 0` |
| Ppm.PpmLines | whitted-ray-tracing/application.cpp:115-127 | the file has three header lines plus one line per pixel (`RowStart(height, width)`, proved equal to `height * width`); the first three are `P3`, `width height` and `255` |
| Ppm.PpmLineAt | whitted-ray-tracing/application.cpp:119-127 | line `3 + RowStart(i, width) + j` is the line of pixel (i, j) |
| Ppm.RowStartIsProduct | whitted-ray-tracing/application.cpp:119-120 | `RowStart(i, width)`, the number of pixels written before row `i`, is `i * width` |
| Ppm.WriteHeader | whitted-ray-tracing/application.cpp:115-117 | the three header statements write the header lines, each ended by a newline |
| Ppm.WriteRow | whitted-ray-tracing/application.cpp:120-126 | the inner loop appends the lines of the first `width` pixels of the row, in order |
| Ppm.AppendRow | whitted-ray-tracing/application.cpp:119-127 | appending one row's lines to the text of the rows above it gives the text of one more row |
| Ppm.SaveAsPpm | whitted-ray-tracing/application.cpp:113-127 | the text written is exactly `PpmText`: the header, then the line of every pixel in row-major order |
| Scene.Image | whitted-ray-tracing/application.cpp:134-137 | the rendered image covers the 600 × 600 grid `saveAsPPM` reads |
| Scene.RenderScene | whitted-ray-tracing/application.cpp:132-187 | `main` produces the PPM text of the image in which a pixel is red exactly when its ray hits the box |
| Scene.SceneLine | whitted-ray-tracing/application.cpp:139-187 | line `3 + 600 i + j` of `red_box.ppm` is `255 0 0` when the ray through pixel (i, j) meets the box at some `t >= 0`, and `0 0 0` otherwise |
| Color.Default | whitted-ray-tracing/colorRGB.h:5-7 | the default colour has all three channels zero |
| Color.Times | whitted-ray-tracing/colorRGB.h:16-18 | scaling by 1 leaves a colour unchanged, and scaling by 0 gives the default colour |
| Color.Plus | whitted-ray-tracing/colorRGB.h:21-23 | the default colour is a left and right identity of `+` |
| Color.ScalarTimesCommutes | whitted-ray-tracing/colorRGB.h:16-29 | `s * c` equals `c * s`, and both scale every channel as glm's `s * v` does |
| Color.ScalarTimes | whitted-ray-tracing/colorRGB.h:27-29 | the free `scalar * color` multiplies every channel by `scalar`, scalar on the left |
| Color.PlusIsVecAdd | whitted-ray-tracing/colorRGB.h:21-23 | `+` adds channel-wise, as glm's vector `+` does |
| Color.PlusCommutesAssociates | whitted-ray-tracing/colorRGB.h:21-23 | `+` is commutative and associative |
| Color.TimesDistributes | whitted-ray-tracing/colorRGB.h:16-23 | scaling distributes over `+` |
| Color.TimesSum | whitted-ray-tracing/colorRGB.h:16-23 | scaling by `s + t` is the sum of the scalings by `s` and by `t` |
| Color.TimesTimes | whitted-ray-tracing/colorRGB.h:16-18 | scaling by `s` and then by `t` is scaling by `s * t` |

## Left out

- IEEE-754 single precision is not modelled. There is no rounding, infinity or NaN. In particular, a direction component of zero, where the source divides by zero and relies on infinities, is outside the model: `Tracer.IntersectBox` requires every component to be non-zero.
- The `==` comparisons of the normal dispatch are exact comparisons of reals, not of rounded floats.
- The glm camera transform (`lookAt`, `perspective`, `radians`, `inverse`, `normalize`) is foreign numeric code. It is the function parameter `unproject`, which maps a pixel's NDC point to its world-space ray direction. `Render.RenderBox` and `Scene.RenderScene` require every direction it yields to have no zero component.
- camera.cpp, camera.h and ray.h are not part of this model: `main` does not use them.
- Opening the output file and the console message are left out, as is the return value of `main`. The model keeps the text written to the stream.
- Ppm.Truncate: does not model the undefined behaviour of a float-to-`int` cast whose value does not fit in 32 bits. Channels of 0 and 1, the only ones `main` produces, are far from that.
- Ppm.IntToDecimal: `int` is unbounded. The 32-bit `width` and `height` of the source never exceed 600 here.
- The uninitialised `HitInfo hitInfo` of `main` is an arbitrary value in `Render.RenderBox`. Only `hit` is read afterwards, and `intersectBox` always writes it.
- `colorRGB` is not used by `application.cpp`, which stores colours as glm `vec3`. The lemmas `Color.ScalarTimesCommutes` and `Color.PlusIsVecAdd` tie the two together.
- The in-place update of `std::vector` rows in `main` is modelled by a 2-D array. `saveAsPPM` reads the grid as a sequence of rows, taken from that array (`Scene.Rows`).

## Findings

| source | as written | input that shows it | evidently intended | confidence | as-written member | corrected member |
|---|---|---|---|---|---|---|
| whitted-ray-tracing/application.cpp:51-103 | `tXMin`/`tXMax` are overwritten with the combined entry and exit before the normal dispatch. `info.t` is always one of them, so only `(-1,0,0)` or `(1,0,0)` is ever written, and the four Y and Z branches are dead. | ray from (0.5, -1, 0.5) along (0.01, 1, 0.01), box (0.2, 0.2, 0.2)–(0.8, 0.8, 0.8): `t` = 1.2, hit point (0.512, 0.2, 0.512) on the bottom face, written normal (-1, 0, 0) | the outward normal of the face the hit point lies on, here (0, -1, 0) | high; not executed | Tracer.WrittenNormalMisnamesFace | Tracer.FaceNormal |
| whitted-ray-tracing/application.cpp:30-99 | the Y/Z branches, and the X branches once the overwrite is undone, compare `t` with the swapped pair, so `t?Min` is labelled as the `min` face. When that direction component is negative, `t?Min` is the distance to the `max` plane. | ray from (2, 0.5, 0.5) along (-1, 0.01, 0.01), box (0.2, 0.2, 0.2)–(0.8, 0.8, 0.8): `t` = 1.2, hit point (0.8, 0.512, 0.512) on the right face, normal from the swapped pair (-1, 0, 0) | (1, 0, 0), the outward normal of the face at x = 0.8 | high; not executed | Tracer.SwappedNormalMisnamesFace | Tracer.FaceNormal |

The rendering pass reads only `hit`, so neither defect changes the image.
`Tracer.IntersectBox` keeps the as-written normal in its contract.
`Tracer.FaceNormal` compares `t` with the six plane distances as computed
before any swap, in the source's order, and is proved to name a face that
contains the hit point. This corrects both rows: the overwrite, and the
labelling of swapped distances.
