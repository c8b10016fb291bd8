/** application.cpp `main`: the fixed scene, the pixel pass and the file it saves. */
module Scene {
  import opened Vectors
  import opened Tracer
  import opened Render
  import opened Ppm

  const ImageWidth := 600
  const ImageHeight := 600
  const BackgroundColor := Black
  const BoxMin := Vec3(0.2, 0.2, 0.2)
  const BoxMax := Vec3(0.8, 0.8, 0.8)
  const CameraPosition := Vec3(0.0, 0.0, -2.0)

  /** The image `main` renders: pixel (i, j) is red when its ray hits the box
      and the background colour otherwise. */
  function Image(unproject: (real, real) -> Vec3): (image: seq<seq<Vec3>>)
    requires RaysNonAxisParallel(ImageWidth, ImageHeight, CameraPosition, unproject)
    ensures CoversGrid(image, ImageWidth, ImageHeight)
  {
    seq(ImageHeight, i requires 0 <= i < ImageHeight =>
      seq(ImageWidth, j requires 0 <= j < ImageWidth =>
        PixelColor(i, j, ImageWidth, ImageHeight, BackgroundColor, CameraPosition, BoxMin, BoxMax, unproject)))
  }

  /** The rows of a 2-D array, as the nested `std::vector` `saveAsPPM` reads. */
  function Rows(a: array2<Vec3>): seq<seq<Vec3>>
    reads a
  {
    seq(a.Length0, i requires 0 <= i < a.Length0 reads a =>
      seq(a.Length1, j requires 0 <= j < a.Length1 reads a => a[i, j]))
  }

  /** `main`: render the box into a 600 x 600 grid and produce the text of
      `red_box.ppm`. */
  method RenderScene(unproject: (real, real) -> Vec3) returns (text: string)
    requires RaysNonAxisParallel(ImageWidth, ImageHeight, CameraPosition, unproject)
    ensures text == PpmText(Image(unproject), ImageWidth, ImageHeight)
  {
    var pixelData := RenderBox(ImageWidth, ImageHeight, BackgroundColor, CameraPosition, BoxMin, BoxMax, unproject);
    var rows := Rows(pixelData);
    var image := Image(unproject);
    forall i | 0 <= i < ImageHeight
      ensures rows[i] == image[i]
    {
      assert forall j :: 0 <= j < ImageWidth ==> rows[i][j] == image[i][j];
    }
    assert rows == image;
    text := SaveAsPpm(rows, ImageWidth, ImageHeight);
  }

  /** Line `3 + 600 i + j` of `red_box.ppm` is `255 0 0` when the ray through
      pixel (i, j) meets the box at some `t >= 0`, and `0 0 0` otherwise. */
  lemma {:induction false} SceneLine(unproject: (real, real) -> Vec3, i: int, j: int)
    requires RaysNonAxisParallel(ImageWidth, ImageHeight, CameraPosition, unproject)
    requires 0 <= i < ImageHeight && 0 <= j < ImageWidth
    ensures |PpmLines(Image(unproject), ImageWidth, ImageHeight)| == 3 + ImageHeight * ImageWidth
    ensures var ray := PixelRay(i, j, ImageWidth, ImageHeight, CameraPosition, unproject);
      PpmLines(Image(unproject), ImageWidth, ImageHeight)[3 + i * ImageWidth + j]
        == if exists t :: 0.0 <= t && InBox(PointAt(ray, t), BoxMin, BoxMax) then "255 0 0" else "0 0 0"
  {
    var ray := PixelRay(i, j, ImageWidth, ImageHeight, CameraPosition, unproject);
    RowStartIsProduct(i, ImageWidth);
    RowStartIsProduct(ImageHeight, ImageWidth);
    PpmLineAt(Image(unproject), ImageWidth, ImageHeight, i, j);
    HitsIffPointInBox(ray, BoxMin, BoxMax);
    RedAndBlackLines();
  }
}
