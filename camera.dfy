/** make_viewport (src/fractal/fractal_camera.cpp): the viewport a camera
    sees, centred on the camera, with half-width scale and a half-height
    that keeps the image's aspect ratio. */
module Camera {
  import C = Complex
  import opened EscapeTime
  import Palette

  /** FractalCamera: the plane point at the image centre and the
      half-width of the visible region. */
  datatype FractalCamera = FractalCamera(center: C.Complex, scale: real)

  /** make_viewport(cam, image_width, image_height). The aspect ratio
      height / width is a floating-point division; a zero width is left
      out. The centre is the viewport's midpoint, the real extent is
      2·scale and the imaginary extent 2·scale·height / width. */
  function MakeViewport(cam: FractalCamera, imageWidth: int, imageHeight: int): (v: Viewport)
    requires imageWidth != 0
    ensures v.min.re + v.max.re == 2.0 * cam.center.re && v.min.im + v.max.im == 2.0 * cam.center.im
    ensures v.max.re - v.min.re == 2.0 * cam.scale
    ensures v.max.im - v.min.im == 2.0 * cam.scale * (imageHeight as real / imageWidth as real)
  {
    var aspect := imageHeight as real / imageWidth as real;
    var halfW := cam.scale;
    var halfH := cam.scale * aspect;
    Viewport(C.Complex(cam.center.re - halfW, cam.center.im - halfH),
             C.Complex(cam.center.re + halfW, cam.center.im + halfH))
  }

  /** The viewport's height-to-width ratio is the image's. */
  lemma AspectPreserved(cam: FractalCamera, imageWidth: int, imageHeight: int)
    requires imageWidth != 0
    ensures var v := MakeViewport(cam, imageWidth, imageHeight);
            (v.max.im - v.min.im) * imageWidth as real == (v.max.re - v.min.re) * imageHeight as real
  {
    var aspect := imageHeight as real / imageWidth as real;
    assert aspect * imageWidth as real == imageHeight as real;
  }

  /** A positive scale and a positive image size give a proper viewport:
      min lies below and to the left of max. */
  lemma ProperViewport(cam: FractalCamera, imageWidth: int, imageHeight: int)
    requires cam.scale > 0.0 && imageWidth > 0 && imageHeight > 0
    ensures var v := MakeViewport(cam, imageWidth, imageHeight);
            v.min.re < v.max.re && v.min.im < v.max.im
  {
    var aspect := imageHeight as real / imageWidth as real;
    assert aspect * imageWidth as real == imageHeight as real;
    if aspect <= 0.0 {
      Palette.MulNonneg(-aspect, imageWidth as real);
    }
    Palette.MulPos(cam.scale, aspect);
  }
}
