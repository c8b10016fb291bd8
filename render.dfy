/** The shading rule and the per-pixel pass of application.cpp's `main`. */
module Render {
  import opened Vectors
  import opened Tracer

  const Red := Vec3(1.0, 0.0, 0.0)

  /** application.cpp `shade`: flat red on a hit, black otherwise; the
      normal, `t` and hit point are ignored. */
  function Shade(info: HitInfo): (c: Vec3)
    ensures c.y == 0.0 && c.z == 0.0
    ensures c.x == 1.0 <==> info.hit
    ensures c.x == 0.0 <==> !info.hit
  {
    if info.hit then Red else Black
  }

  /** A pixel index over the image size lies in [0, 1). */
  lemma FractionOfSize(k: int, n: int)
    requires 0 <= k < n
    ensures 0.0 <= k as real / n as real < 1.0
  {
    var q := k as real / n as real;
    assert q * n as real == k as real;
  }

  /** Horizontal normalised device coordinate of pixel column `j`: the
      columns of a `width`-pixel row cover [-1, 1) from left to right. */
  function NdcX(j: int, width: int): (x: real)
    requires width > 0
    ensures 0 <= j < width ==> -1.0 <= x < 1.0
    ensures j == 0 ==> x == -1.0
  {
    if 0 <= j < width then FractionOfSize(j, width); 2.0 * j as real / width as real - 1.0
    else 2.0 * j as real / width as real - 1.0
  }

  /** Vertical normalised device coordinate of pixel row `i`: row 0 is the
      top of the image at 1, and the rows cover (-1, 1] from top to bottom. */
  function NdcY(i: int, height: int): (y: real)
    requires height > 0
    ensures 0 <= i < height ==> -1.0 < y <= 1.0
    ensures i == 0 ==> y == 1.0
  {
    if 0 <= i < height then FractionOfSize(i, height); 1.0 - 2.0 * i as real / height as real
    else 1.0 - 2.0 * i as real / height as real
  }

  /** The ray cast through pixel (i, j): from the camera position `eye`
      along `unproject(ndcX, ndcY)`, which stands for the glm inverse
      view-projection transform followed by normalisation. */
  function PixelRay(i: int, j: int, width: int, height: int, eye: Vec3,
                    unproject: (real, real) -> Vec3): Ray
    requires 0 <= i < height && 0 <= j < width
  {
    Ray(eye, unproject(NdcX(j, width), NdcY(i, height)))
  }

  /** Every pixel's ray lies in the domain of the slab test. */
  predicate RaysNonAxisParallel(width: int, height: int, eye: Vec3, unproject: (real, real) -> Vec3)
  {
    forall i, j :: 0 <= i < height && 0 <= j < width ==>
      NonAxisParallel(PixelRay(i, j, width, height, eye, unproject).direction)
  }

  /** The colour pixel (i, j) ends with: red when its ray hits the box,
      the background colour otherwise. */
  function PixelColor(i: int, j: int, width: int, height: int, background: Vec3, eye: Vec3,
                      boxMin: Vec3, boxMax: Vec3, unproject: (real, real) -> Vec3): Vec3
    requires 0 <= i < height && 0 <= j < width
    requires RaysNonAxisParallel(width, height, eye, unproject)
  {
    if Hits(PixelRay(i, j, width, height, eye, unproject), boxMin, boxMax) then Red else background
  }

  /** The pixel pass of application.cpp's `main`: a `height` x `width` grid
      filled with the background colour, then each pixel whose ray hits the
      box overwritten with its shade. */
  method RenderBox(width: nat, height: nat, background: Vec3, eye: Vec3, boxMin: Vec3, boxMax: Vec3,
                   unproject: (real, real) -> Vec3)
    returns (pixelData: array2<Vec3>)
    requires RaysNonAxisParallel(width, height, eye, unproject)
    ensures fresh(pixelData)
    ensures pixelData.Length0 == height && pixelData.Length1 == width
    ensures forall i, j :: 0 <= i < height && 0 <= j < width ==>
      pixelData[i, j] == PixelColor(i, j, width, height, background, eye, boxMin, boxMax, unproject)
  {
    pixelData := new Vec3[height, width]((i, j) => background);
    var i := 0;
    while i < height
      invariant 0 <= i <= height
      invariant forall r, c :: 0 <= r < i && 0 <= c < width ==>
        pixelData[r, c] == PixelColor(r, c, width, height, background, eye, boxMin, boxMax, unproject)
      invariant forall r, c :: i <= r < height && 0 <= c < width ==> pixelData[r, c] == background
    {
      var j := 0;
      while j < width
        invariant 0 <= j <= width
        invariant forall r, c :: 0 <= r < i && 0 <= c < width ==>
          pixelData[r, c] == PixelColor(r, c, width, height, background, eye, boxMin, boxMax, unproject)
        invariant forall c :: 0 <= c < j ==>
          pixelData[i, c] == PixelColor(i, c, width, height, background, eye, boxMin, boxMax, unproject)
        invariant forall r, c :: 0 <= r < height && 0 <= c < width && (r > i || (r == i && c >= j)) ==>
          pixelData[r, c] == background
      {
        var ndcX := NdcX(j, width);
        var ndcY := NdcY(i, height);
        var ray := Ray(eye, unproject(ndcX, ndcY));
        assert ray == PixelRay(i, j, width, height, eye, unproject);
        // the source's `HitInfo hitInfo;` is uninitialised; nothing below reads it on a miss
        var hitInfo: HitInfo :| true;
        var hit, info := IntersectBox(ray, boxMin, boxMax, hitInfo);
        if hit {
          pixelData[i, j] := Shade(info);
        }
        assert pixelData[i, j] == PixelColor(i, j, width, height, background, eye, boxMin, boxMax, unproject);
        j := j + 1;
      }
      i := i + 1;
    }
  }
}
