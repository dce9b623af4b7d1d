# fractal-renderer in Dafny

This project models the sequential core of fractal-renderer. That is a C/C++ program that renders escape-time fractals (Mandelbrot and Julia sets) into an in-memory 24-bit image and saves the image as an uncompressed BMP file. It draws lines and fills backgrounds on the same image and does its arithmetic with algebraic complex numbers and quaternions.

The model covers five parts:

- **Escape-time renderers.** Four loops are modelled:
  - `FractalRenderer::render`;
  - `AbstractFractalRenderer::render` with its `smooth` and `colorize` hooks;
  - the free `render_complex_fractal` of `src/fractal/fractal.cpp`, which colours from the integer count and builds `{r, g, b}`;
  - the greyscale `render_complex_fractal` of `src/fractal/complex_fractal.cpp`.

  Alongside them are the renderer builder, the camera-to-viewport conversion and keyframe interpolation (modules `EscapeTime`, `Palette`, `FractalRenderer`, `AbstractFractalRenderer`, `Fractal`, `ComplexFractal`, `Builder`, `Camera`, `Animation`).
  - Doubles are exact reals.
  - The iteration, initial and parameter callbacks are function-valued parameters.
  - The log-based smoothing term ν and `std::pow` are uninterpreted function parameters.
  - Each render is proved to write the image in which pixel (x, y) has the colour that a reference function gives for (x, y) alone. Interior points are proved black, and the escape count is proved to mean what the loop says.
- **The in-memory image** `iheay::bmp::Bmp` (module `Image`). It is a class with a row-major pixel sequence. Its methods are `set_pixel` (which throws), `try_set_pixel`, `get_pixel` and `empty`, each with "nothing else changes" frame conditions.
- **The BMP layout and its four codecs.**
  - Shared parts (modules `BmpFormat`, `Streams`, `BmpCodec`):
    - the packed 14-byte file header and the 40-byte BITMAPINFOHEADER, as little-endian bytes;
    - rows padded to 4 bytes;
    - bottom-up and top-down row order.
  - The codecs:
    - `Bmp::load`/`save` (module `BmpFile`);
    - `BmpIO::load`/`save` (module `BmpIO`);
    - the C `load_bmp`/`save_bmp`/`free_bmp` (module `CBmp`);
    - the C `bmp_load`/`bmp_save` (module `CBmpIO`).
  - The C `init_empty_bmp`/`set_pixel`/`get_pixel`/`free_bmp` of `src/bmp.cpp` (module `CBmpApi`) work over the `bmp_t` of include/bmp.h. `bmp_t` is modelled as a class `CBitmap.Bitmap` whose three pointers are NULL, live or freed, and whose `rows` table points into one contiguous pixel buffer.
  - Files are byte sequences. Save is encoding and load is decoding, and the round trip is proved for every codec.
- **Rasterizer** (module `Rasterizer`). `draw_line_bresenham` is a class method with its `while (true)` loop. It is proved to paint exactly the pixels of a reference walk, and that walk is proved to start at (x0, y0), end at (x1, y1), move between 8-neighbours and stay in the endpoints' bounding box. `fill_background` is proved to paint every pixel. `draw_line_dda` is modelled over exact reals.
- **Complex numbers and quaternions** (modules `Complex`, `Quaternion`). They cover add, sub, mul, conjugate, division with its zero check, scalar division and inverse. Quaternion `pow` is a binary-exponentiation loop, proved equal to the n-fold product.

Where the documented behaviour or the tests disagree with the code, the model follows the code, with one exception, the last item:

- `FractalRendererBuilder` does not validate its setters' arguments. Nor does it recompute the viewport for the image's aspect ratio.
- The C++ `Bmp::load` does not check that its reads succeed. A short file therefore still loads, with zero-filled headers and stale row bytes (`BmpFile.ZeroFilled`, `BmpFile.ReadRows`).
- `Bmp`'s constructor stores its arguments without comparing the pixel count with width·height, and `set_pixel`/`get_pixel` throw `std::out_of_range`. The model follows that code, not the tests in tests/bmp/test_bmp.cpp, which expect `std::runtime_error` in both places.
- The exception: `build()` passes its arguments to the `FractalRenderer` constructor in a different order from the one that constructor declares (`config` before the callbacks), so the argument types do not match the declared parameters. Here the model does not follow the code: it forwards every field by name, which is what the builder evidently means.

## Model

| member | source | states |
|---|---|---|
| EscapeTime.DefaultConfig | include/fractal/fractal_structures.hpp:8-11 | FractalConfig's member initialisers: max_iter 300, escape radius 2.0 |
| EscapeTime.GridOf | src/fractal/fractal_renderer.cpp:53-59 | the grid starts at min.real and max.imag; real_step·(W−1) and imag_step·(H−1) span the viewport exactly |
| EscapeTime.GridCorners | src/fractal/fractal_renderer.cpp:11-20 | for W, H ≥ 2, pixel (0,0) maps to (min.real, max.imag) and pixel (W−1,H−1) to (max.real, min.imag) |
| EscapeTime.Smoothed | src/fractal/fractal_renderer.cpp:91-99 | mu is iter itself once iter reaches max_iter |
| EscapeTime.WithinSq | src/fractal/fractal_renderer.cpp:83-85 | definition of the loop test: continue while zr²+zi² ≤ escape_radius² |
| EscapeTime.WithinRadius | src/fractal/complex_fractal.cpp:45-46 | definition of the test `get_modulus() <= escape_radius`, written as R ≥ 0 and \|z\|² ≤ R² |
| EscapeTime.Budget | src/fractal/fractal_renderer.cpp:78-79 | definition of the number of passes `while (iter < max_iter)` allows: max_iter if positive, else 0 |
| EscapeTime.FirstExit | src/fractal/fractal_renderer.cpp:79-89 | the first orbit index from k that is outside, or the budget; every index before it is inside |
| EscapeTime.EscapeCount | src/fractal/fractal_renderer.cpp:78-89 | the count the escape loop ends with never exceeds the budget |
| EscapeTime.EscapeCountUnique | src/fractal/fractal_renderer.cpp:78-89 | any m within the budget whose earlier iterates are inside, and whose m-th iterate is outside unless m is the budget, is the escape count |
| EscapeTime.EscapeLoop | src/fractal/fractal_renderer.cpp:75-89 | the loop ends with 0 ≤ iter ≤ max_iter, iter the escape count, and z equal to iterate(·, c) applied iter times to init(pixel) |
| EscapeTime.EscapeCountMeaning | src/fractal/fractal_renderer.cpp:79-88 | every iterate before the count is inside; if the count is below max_iter, the iterate at the count is outside |
| Palette.Trunc | src/fractal/fractal_animation.cpp:29-31 | static_cast<int> truncates toward zero: for x ≥ 0 the result i has i ≤ x < i + 1, for x < 0 it has i − 1 < x ≤ i |
| Palette.ToByte | src/fractal/fractal_renderer.cpp:107-109 | static_cast<uint8_t> of a value in [0, 256) is its floor |
| Palette.ColorFromMu | src/fractal/fractal_renderer.cpp:101-112 | black for mu ≥ max_iter; for 0 ≤ mu < max_iter, the floors of the blue, green and red blends of t = mu/max_iter, in {b, g, r} order |
| Palette.ColorFromMuRgb | src/fractal/fractal.cpp:89-100 | the fractal.cpp lambda gives the {b, g, r} colour with its red and blue bytes exchanged |
| Palette.UnitFraction | src/fractal/fractal_renderer.cpp:105 | for 0 ≤ mu < max_iter, t = mu/max_iter lies in [0, 1) |
| Palette.ChannelRange | src/fractal/fractal_renderer.cpp:107-109 | for t in [0, 1] each channel polynomial lies in [0, 255), so the uint8_t casts are in range |
| Palette.RedRange | src/fractal/fractal_renderer.cpp:107 | on [0, 1] the red blend 9(1−t)t³·255 is non-negative and at most 2295·27/256 |
| Palette.GreenRange | src/fractal/fractal_renderer.cpp:108 | on [0, 1] the green blend 15(1−t)²t²·255 is non-negative and at most 3825/16 |
| FractalRenderer.CountAt | src/fractal/fractal_renderer.cpp:69-89 | the escape count at (x, y), from init(pixel) with c = param(pixel), is within the budget |
| FractalRenderer.InteriorBlack | src/fractal/fractal_renderer.cpp:91-103 | a pixel whose orbit stays within the radius for max_iter steps keeps mu = max_iter and is coloured {0,0,0} |
| FractalRenderer.EscapedColour | src/fractal/fractal_renderer.cpp:101-111 | for 0 ≤ mu < max_iter the pixel's channels are the floors of the three blends of mu/max_iter, in {b,g,r} order, each below 255 |
| FractalRenderer.RenderPixel | src/fractal/fractal_renderer.cpp:69-114 | the inner loop body computes exactly the reference colour of (x, y) |
| FractalRenderer.RenderRow | src/fractal/fractal_renderer.cpp:67-115 | after row y, every pixel up to the end of row y holds its reference colour; try_set_pixel never fails |
| FractalRenderer.RenderRows | src/fractal/fractal_renderer.cpp:64-116 | after the outer loop, the image is exactly the drawn image of the reference colouring |
| FractalRenderer.Render | src/fractal/fractal_renderer.cpp:43-123 | Bmp::empty(W,H) fails only for W·H < 0 (length_error); otherwise the W×H result holds the reference colour at every pixel, whatever the visiting order, and stays white when W ≤ 0 |
| AbstractFractalRenderer.PixelToComplex | src/fractal/abstract_fractal_renderer.cpp:9-14 | (min.real + x·real_step, max.imag − y·imag_step) |
| AbstractFractalRenderer.PixelCorners | src/fractal/abstract_fractal_renderer.cpp:26-27 | with the steps render computes, (0,0) is the top-left corner and (W−1,H−1) the bottom-right corner of the viewport |
| AbstractFractalRenderer.Smooth | src/fractal/abstract_fractal_renderer.cpp:68-80 | definition of smooth: iter unchanged when iter ≥ max_iter; otherwise iter + 1 − ν(\|z\|²) |
| AbstractFractalRenderer.Colorize | src/fractal/abstract_fractal_renderer.cpp:83-94 | {0,0,0} whenever mu ≥ max_iter; below it, the floors of the three blends in {b,g,r} order |
| AbstractFractalRenderer.CountAt | src/fractal/abstract_fractal_renderer.cpp:37-53 | the escape count of the hooks' orbit at (x, y) is within the budget |
| AbstractFractalRenderer.InteriorBlack | src/fractal/abstract_fractal_renderer.cpp:42-57 | a pixel that never escapes within max_iter is written black |
| AbstractFractalRenderer.RenderPixel | src/fractal/abstract_fractal_renderer.cpp:37-57 | the inner body writes colorize(smooth(z, iter)) of the escape loop |
| AbstractFractalRenderer.RenderRow | src/fractal/abstract_fractal_renderer.cpp:35-58 | one row painted with its reference colours; try_set_pixel always succeeds |
| AbstractFractalRenderer.RenderRows | src/fractal/abstract_fractal_renderer.cpp:32-59 | the whole grid is the drawn image of the reference colouring |
| AbstractFractalRenderer.Render | src/fractal/abstract_fractal_renderer.cpp:16-66 | length_error exactly when W·H < 0; otherwise every grid pixel holds colorize(smooth(z, iter)) |
| Fractal.CountAt | src/fractal/fractal.cpp:57-77 | the escape count at (x, y) is within the budget |
| Fractal.CountColour | src/fractal/fractal.cpp:89-102 | the colour comes from the integer iter: black when iter = max_iter; otherwise t = iter/max_iter is in [0,1), and the red blend goes in the b field and the blue blend in the r field |
| Fractal.RenderPixel | src/fractal/fractal.cpp:57-102 | the inner body writes color_from_mu(iter); the computed mu does not affect the pixel |
| Fractal.RenderRow | src/fractal/fractal.cpp:55-103 | one row painted with its reference colours; try_set_pixel always succeeds |
| Fractal.RenderRows | src/fractal/fractal.cpp:52-104 | the whole grid is the drawn image of the reference colouring |
| Fractal.RenderComplexFractal | src/fractal/fractal.cpp:24-111 | length_error exactly when W·H < 0; otherwise every pixel is written once, in range, with its reference colour |
| ComplexFractal.PixelEdges | src/fractal/complex_fractal.cpp:7-21 | x = 0 maps to min.real, x = w−1 to max.real, y = 0 to max.imag and y = h−1 to min.imag |
| ComplexFractal.Shade | src/fractal/complex_fractal.cpp:51-53 | shade is 0 when iter = max_iter |
| ComplexFractal.ShadeInteger | src/fractal/complex_fractal.cpp:51-53 | below the budget, shade is ⌊255·iter/max_iter⌋ ≤ 254, and 0 for iter = 0 |
| ComplexFractal.CountAt | src/fractal/complex_fractal.cpp:44-49 | the loop count is within the budget |
| ComplexFractal.ColorAt | src/fractal/complex_fractal.cpp:51-55 | the pixel is grey {shade, shade, shade}, black when the budget is used up |
| ComplexFractal.StopsOutside | src/fractal/complex_fractal.cpp:45-46 | every iterate before the count has modulus ≤ escape_radius (not squared, non-strict); stopping below max_iter means the modulus exceeds it |
| ComplexFractal.RenderPixel | src/fractal/complex_fractal.cpp:34-55 | the inner body computes the grey pixel of (x, y) |
| ComplexFractal.RenderRow | src/fractal/complex_fractal.cpp:32-56 | row y painted with set_pixel, which never throws because the column bound is the image width |
| ComplexFractal.RenderRows | src/fractal/complex_fractal.cpp:31-57 | with a positive width the row loop paints every row, so the image is the drawn grey colouring |
| ComplexFractal.RenderComplexFractal | src/fractal/complex_fractal.cpp:23-58 | every pixel of the surface holds its grey level; a surface without columns is unchanged |
| Builder.FractalRendererBuilder.constructor | src/fractal/fractal_renderer_builder.cpp:6-16 | stores its seven arguments |
| Builder.FractalRendererBuilder.GetBuilder | src/fractal/fractal_renderer_builder.cpp:20-33 | a fresh builder: 256×256, viewport (−2,−1.5)–(1,1.5), max_iter 300, radius 2.0, iterate z·z+c, init the pixel, param 0 |
| Builder.FractalRendererBuilder.Build | src/fractal/fractal_renderer_builder.cpp:37-43 | a renderer holding the builder's fields unchanged; the builder is not modified |
| Builder.FractalRendererBuilder.SetImageWidth | src/fractal/fractal_renderer_builder.cpp:45-48 | only the width changes, to exactly the argument; returns the same builder |
| Builder.FractalRendererBuilder.SetImageHeight | src/fractal/fractal_renderer_builder.cpp:50-53 | only the height changes, to exactly the argument; returns the same builder |
| Builder.FractalRendererBuilder.SetViewport | src/fractal/fractal_renderer_builder.cpp:55-58 | only the viewport changes; returns the same builder |
| Builder.FractalRendererBuilder.SetViewportMax | src/fractal/fractal_renderer_builder.cpp:60-63 | only the viewport's max corner changes; returns the same builder |
| Builder.FractalRendererBuilder.SetViewportMin | src/fractal/fractal_renderer_builder.cpp:65-68 | only the viewport's min corner changes; returns the same builder |
| Builder.FractalRendererBuilder.SetMaxIter | src/fractal/fractal_renderer_builder.cpp:70-73 | only config.max_iter changes, unvalidated; returns the same builder |
| Builder.FractalRendererBuilder.SetEscapeRadius | src/fractal/fractal_renderer_builder.cpp:75-78 | only config.escape_radius changes, unvalidated; returns the same builder |
| Builder.FractalRendererBuilder.SetIterationFunc | src/fractal/fractal_renderer_builder.cpp:80-83 | only the iteration function changes; returns the same builder |
| Builder.FractalRendererBuilder.SetInitialFunc | src/fractal/fractal_renderer_builder.cpp:85-88 | only the initial function changes; returns the same builder |
| Builder.FractalRendererBuilder.SetParamFunc | src/fractal/fractal_renderer_builder.cpp:90-93 | only the parameter function changes; returns the same builder |
| Builder.ChainExample | src/fractal/fractal_renderer_builder.cpp:45-93 | chained setters on get_builder() give the configured renderer, and building again after one more setter changes only that field |
| Camera.MakeViewport | src/fractal/fractal_camera.cpp:6-26 | the centre is the midpoint of min and max; max.real − min.real = 2·scale; max.imag − min.imag = 2·scale·H/W |
| Camera.AspectPreserved | src/fractal/fractal_camera.cpp:11-14 | for a non-zero scale, the viewport's height/width ratio equals H/W |
| Camera.ProperViewport | src/fractal/fractal_camera.cpp:11-25 | for scale > 0 and W, H > 0, min < max in both components |
| Animation.Lerp | src/fractal/fractal_animation.cpp:6-8 | lerp(a,b,0) = a, lerp(a,b,1) = b, lerp(a,a,t) = a |
| Animation.LerpComplex | src/fractal/fractal_animation.cpp:10-15 | acts componentwise on real and imag, with a at t = 0 and b at t = 1 |
| Animation.Interpolate | src/fractal/fractal_animation.cpp:17-39 | the centre, escape radius and julia_c are linearly interpolated; scale is a.scale·pow(b.scale/a.scale, t); max_iter is the truncated lerp of the budgets |
| Animation.InterpolateStart | src/fractal/fractal_animation.cpp:17-39 | at t = 0 the frame is the first keyframe, given pow(x, 0) = 1 |
| Animation.InterpolateEnd | src/fractal/fractal_animation.cpp:17-39 | at t = 1 the frame is the second keyframe, given pow(x, 1) = x |
| Animation.BudgetBetween | src/fractal/fractal_animation.cpp:29-31 | for t in [0, 1] the truncated lerp of the budgets lies between the two keyframes' budgets |
| Animation.BudgetConstant | src/fractal/fractal_animation.cpp:29-31 | between keyframes with equal budgets the truncated budget does not move |
| Image.IndexInRange | src/bmp/bmp.cpp:101 | an in-bounds (x, y) has flat index y·w + x inside the w·h vector |
| Image.IndexInjective | src/bmp/bmp.cpp:101 | distinct in-bounds pixels have distinct flat indices |
| Image.WriteOnlyTouches | src/bmp/bmp.cpp:97-102 | writing index y·w + x changes pixel (x, y) and no other |
| Image.Drawn | src/bmp/bmp.cpp:111-116 | the w·h row-major vector whose pixel (x, y) is the given colour |
| Image.PaintedAll | src/fractal/fractal_renderer.cpp:64-67 | a vector painted in row-major order through w·h pixels is the drawn image |
| Image.Bmp.constructor | src/bmp/bmp.cpp:15-19 | stores width, height and pixels as given |
| Image.Bmp.Empty | src/bmp/bmp.cpp:28-31 | w·h copies of p; a negative w·h throws length_error |
| Image.Bmp.EmptyWhite | src/bmp/bmp.cpp:23-26 | an all-white w×h image |
| Image.Bmp.GetPixel | src/bmp/bmp.cpp:111-116 | out_of_range exactly outside [0,w)×[0,h); otherwise row y, column x |
| Image.Bmp.SetPixel | src/bmp/bmp.cpp:97-102 | out_of_range with the image unchanged outside the image; otherwise only index y·w + x changes, to p |
| Image.Bmp.TrySetPixel | src/bmp/bmp.cpp:104-109 | false with the image unchanged when out of range; true after writing only index y·w + x |
| Image.GetSetExample | tests/bmp/test_bmp.cpp:33-45 | get_pixel after set_pixel and try_set_pixel returns the written pixels, and out_of_range at (0, 2) |
| BmpFormat.Wrap32 | src/bmp/bmp.cpp:125-131 | a uint32_t conversion: the identity in range, congruent mod 2³² always |
| BmpFormat.CDiv | src/bmp.cpp:23 | C's integer division truncates toward zero: q·b ≤ a < q·b + b for a ≥ 0, q·b − b < a ≤ q·b for a < 0 |
| BmpFormat.FileHeaderRoundTrip | include/bmp/bmp_structs.hpp:9-15 | reading back an encoded 14-byte file header gives the header |
| BmpFormat.FileHeaderBytesRoundTrip | include/bmp/bmp_structs.hpp:9-15 | any 14 bytes are the encoding of the header read from them |
| BmpFormat.InfoHeaderRoundTrip | include/bmp/bmp_structs.hpp:17-29 | reading back an encoded 40-byte info header gives the header |
| BmpFormat.InfoHeaderBytesRoundTrip | include/bmp/bmp_structs.hpp:17-29 | any 40 bytes are the encoding of the info header read from them |
| BmpFormat.U16RoundTrip | include/bmp/bmp_structs.hpp:9-15 | a little-endian uint16_t field read back from its two bytes is the value |
| BmpFormat.U16BytesRoundTrip | include/bmp/bmp_structs.hpp:9-15 | any two bytes are the encoding of the uint16_t read from them |
| BmpFormat.U32RoundTrip | include/bmp/bmp_structs.hpp:9-15 | a little-endian uint32_t field read back from its four bytes is the value |
| BmpFormat.U32BytesRoundTrip | include/bmp/bmp_structs.hpp:9-15 | any four bytes are the encoding of the uint32_t read from them |
| BmpFormat.I32RoundTrip | include/bmp/bmp_structs.hpp:17-29 | a two's-complement int32_t field read back from its four bytes is the value |
| BmpFormat.I32BytesRoundTrip | include/bmp/bmp_structs.hpp:17-29 | any four bytes are the encoding of the int32_t read from them |
| BmpFormat.Wrap64 | src/bmp/bmp_io.cpp:40-50 | a size_t conversion: below 2⁶⁴, and the identity on values in range |
| BmpFormat.SignatureBytes | src/bmp.c:26 | the uint16 test signature == 0x4D42 is the two-byte test 'B','M' |
| BmpFormat.RowSize | src/bmp/bmp.cpp:7-9 | ((24w+31)/32)·4 is a multiple of 4 with 3w ≤ result < 3w + 4 |
| BmpFormat.RowSizeInt | src/bmp/bmp.cpp:7-9 | the int formula with C division equals RowSize for w ≥ 0 |
| BmpFormat.DecodePixelBytes | include/bmp/bmp_structs.hpp:31-33 | pixels written as BGR bytes read back as the same pixels |
| BmpFormat.PaddedRow | src/bmp/bmp.cpp:148-156 | a stored row is the pixel bytes followed by zero padding up to the row size |
| BmpFormat.DecodeEncodeRows | src/bmp/bmp.cpp:150-157 | decoding padded rows gives the rows back; padding is skipped |
| BmpFormat.Rows | src/bmp/bmp.cpp:101 | the h rows of a w·h row-major vector, whose concatenation is the vector |
| BmpFormat.RowsOfFlatten | src/bmp/bmp.cpp:101 | splitting concatenated equal-width rows gives the rows back |
| BmpFormat.ReplaceRow | src/bmp/bmp.cpp:75-79 | overwriting the slice of row y replaces image row y only |
| BmpFormat.FileOrder | src/bmp/bmp.cpp:70-71 | a bottom-up file stores image row h−1−i as file row i; a top-down file stores row i |
| BmpFormat.FileOrderInvolution | src/bmp/bmp.cpp:70-71 | converting to file order twice gives the rows back |
| Streams.Read | src/bmp/bmp.cpp:73 | an istream read delivers at most n bytes from the position and fails exactly when it delivers fewer |
| Streams.Seek | src/bmp/bmp.cpp:68 | seekg moves a good stream to the offset |
| BmpCodec.RowSizeU32 | src/bmp/bmp.cpp:125 | row_size as a uint32 from an int width: RowSize for w ≥ 0, wrapped otherwise |
| BmpCodec.ImageSize | src/bmp/bmp.cpp:126 | image_size = row_size·height when it fits |
| BmpCodec.SaveFileHeader | src/bmp/bmp.cpp:127-134 | 'BM', pixel_offset 14 + 40, file_size = offset + image_size (mod 2³²), reserved 0 |
| BmpCodec.SaveInfoHeader | src/bmp/bmp.cpp:136-143 | header_size 40, the image's width and positive height, planes 1, bpp 24, compression 0, image_size; other fields 0 |
| BmpCodec.SavedPixels | src/bmp/bmp.cpp:148-157 | height rows of row_size bytes, from the last image row to the first |
| BmpCodec.SavedFile | src/bmp/bmp.cpp:120-158 | the two headers then the saved pixel rows |
| BmpCodec.LoadCheck | src/bmp/bmp.cpp:44-54 | no error exactly for signature 'BM', header_size 40, planes 1, bpp 24, compression 0; errors in the loader's order |
| BmpCodec.IoCheck | src/bmp/bmp_io.cpp:35-38 | accepts the same headers; NotBmp for a bad signature, UnsupportedFormat for the rest |
| BmpCodec.FilePixels | src/bmp/bmp_io.cpp:56-61 | the w·h image held by the stored rows, in image order |
| BmpCodec.TargetRow | src/bmp/bmp_io.cpp:57 | file row i goes to image row h−1−i when bottom-up, to row i otherwise |
| BmpCodec.PlacedAll | src/bmp/bmp_io.cpp:56-61 | with every file row copied to its target row, the image rows are the file rows in file order |
| BmpCodec.Decode | src/bmp/bmp_io.cpp:22-65 | TruncatedHeader for fewer than 54 bytes; an accepted image has the header's width and \|height\| |
| BmpCodec.DecodeSaved | src/bmp/bmp_io.cpp:22-108 | load(save(b)) reproduces width, height and every pixel for non-negative sizes |
| BmpCodec.SavedHeaders | src/bmp/bmp.cpp:145-146 | the headers read back from a saved file are the headers written |
| BmpCodec.SavedRows | src/bmp/bmp.cpp:148-157 | the rows of a saved file, read bottom-up, are the image's pixels |
| BmpFile.ZeroFilled | src/bmp/bmp.cpp:41-42 | an unchecked read into a value-initialised struct: the file bytes where present, zeros past the end |
| BmpFile.LoadedFileHeader | src/bmp/bmp.cpp:38-41 | the file header Bmp::load sees is the decoded one when the file is long enough |
| BmpFile.LoadedInfoHeader | src/bmp/bmp.cpp:39-42 | the info header Bmp::load sees is the decoded one when the file is long enough |
| BmpFile.Load | src/bmp/bmp.cpp:33-83 | CannotOpen; the header errors in order; length_error for a negative w·h; width and \|height\| from the header; the file's rows bottom-up for a positive height when present; and the same result as the strict decoder on every file it accepts |
| BmpFile.ReadHeaders | src/bmp/bmp.cpp:38-42 | the two unchecked reads give the headers Bmp::load sees; the stream stays good for a file of 54 bytes or more |
| BmpFile.ReadRows | src/bmp/bmp.cpp:65-80 | the row loop leaves w·h pixels, and the file's rows in image order when they are all present |
| BmpFile.ReadOneRow | src/bmp/bmp.cpp:71-79 | one pass: the unchecked read advances the stream by row_size and overlays what it got on the old row buffer, and the first w pixels of the buffer replace image row h−1−i (bottom-up) or i |
| BmpFile.Save | src/bmp/bmp.cpp:120-158 | CannotOpen (the "Cannot create file" runtime_error) when the ofstream fails; otherwise the bytes written are SavedFile of the image |
| BmpFile.WriteRows | src/bmp/bmp.cpp:148-157 | the row loop appends the saved pixel rows |
| BmpIO.RowSizeSizeT | src/bmp/bmp_io.cpp:16-18 | row_size_bytes on size_t is RowSize for a non-negative width |
| BmpIO.Load | src/bmp/bmp_io.cpp:22-65 | CannotOpen, else exactly the strict decoder: truncated header or pixels, bad signature and unsupported format fail |
| BmpIO.ReadHeaders | src/bmp/bmp_io.cpp:26-33 | both checked header reads succeed exactly for files of 54 bytes or more |
| BmpIO.PixelReadAgrees | src/bmp/bmp_io.cpp:50-54 | the one-piece pixel read succeeds exactly when all rows are present, and delivers them |
| BmpIO.CopyRows | src/bmp/bmp_io.cpp:56-61 | buffer row r lands in image row h−1−r when bottom-up, row r otherwise |
| BmpIO.CopyRow | src/bmp/bmp_io.cpp:57-60 | one pass keeps the copy invariant: buffer row r now sits in its target image row, the rows already placed are unchanged |
| BmpIO.Save | src/bmp/bmp_io.cpp:69-108 | CannotOpen (the "Cannot create file" runtime_error) when the ofstream fails; otherwise, for a non-negative height, the bytes written are SavedFile of the image |
| BmpIO.NegativeHeightSizes | src/bmp/bmp_io.cpp:73-98 | for a negative height the size_t buffer size wraps: 0 bytes for width −1, 32 bytes for width −2 and height −8, while the row loop bound is 2⁶⁴ − 8 |
| BmpIO.SaveHeaders | src/bmp/bmp_io.cpp:73-94 | image_size = row_size·height and file_size = pixel_offset + image_size in the written headers |
| BmpIO.FillBuffer | src/bmp/bmp_io.cpp:96-103 | a zeroed row_size·height buffer whose row r holds image row h−1−r, padding zero |
| BmpIO.SizesFit | src/bmp/bmp_io.cpp:40-50 | for int32 width and height, the size_t products w·h and row_size·h do not wrap |
| BmpIO.SaveSizes | src/bmp/bmp_io.cpp:73-91 | the size_t sizes agree with the uint32 header fields |
| CBitmap.Bitmap.constructor | include/bmp.h:38-42 | a zero-initialised bmp_t with all three pointers NULL |
| CBitmap.RowByteWidth | src/bmp.c:5-8 | ((bpp·w + 31)/32)·4 in size_t, equal to RowSize for 24 bits |
| CBitmap.Starts | src/bmp.c:52-54 | rows[r] = pixels + r·width, for r < h |
| CBitmap.Image | include/bmp.h:41 | the image seen through the first h row pointers |
| CBitmap.TableImage | src/bmp.c:52-54 | the row table over a contiguous buffer shows exactly the image, rows[0] the top row |
| CBitmap.TablePixel | include/bmp.h:41 | in the row table of an image, rows[y][x] is addressable and is pixel (x, y) of the image |
| CBitmap.TableStore | src/bmp.cpp:67 | rows[y][x] = p on the table of an image is the table of the image with that pixel replaced |
| CBitmap.RowPointers | src/bmp.c:52-54 | the pointer loop computes Starts(w, h) |
| CBitmap.ReadRows | src/bmp.c:62-68 | the read loop succeeds exactly when every row is in the file, then file row i is at rows[i] (top-down) or rows[h−1−i] (bottom-up) |
| CBitmap.CFileRowsFull | src/bmp.c:62-68 | with all padded rows present, fread-and-skip reads the same rows as the padded layout |
| CBitmap.ParseHeaders | src/bmp.c:28-29 | the two headers read from a file that starts with their encodings are those headers |
| CBitmap.WriteRowsBottomUp | src/bmp.c:115-120 | rows h−1 down to 0, each followed by its zero padding |
| CBitmap.RowPiece | src/bmp.c:116-119 | the bytes one pass writes: the image row's pixels, then row_bytes − 3w zero bytes when that is not 0 |
| CBitmap.ParseRows | src/bmp.c:115-120 | rows written bottom-up read back, in file order, as the reversed image |
| CBmp.LoadResult | src/bmp.c:16-72 | accepted loads have the decoded headers, \|height\| rows of width pixels; rejected headers give failure |
| CBmp.LoadBmp | src/bmp.c:16-80 | 1 and nothing changed for NULL arguments or an unopenable file; 1 with both header pointers NULL on failure; 0 with the headers and the contiguous image, rows[0] the top row, on success |
| CBmp.Fail | src/bmp.c:74-79 | the fail path frees both headers and sets them to NULL |
| CBmp.SavedHeaders | src/bmp.c:95-105 | image_size = row_bytes·height; file_offset_to_pixels as given; file_size = offset + image_size |
| CBmp.SaveBytes | src/bmp.c:98-120 | the bytes save_bmp writes: both headers, then rows bottom-up with padding, with offset 14 + header_size |
| CBmp.IntendedSaveBytes | src/bmp.c:97-120 | the same file with the pixels right after the 54 header bytes |
| CBmp.SaveBmp | src/bmp.c:82-124 | 1 for NULL pointers, an unopenable path or width/height ≤ 0; otherwise 0 with exactly SaveBytes written |
| CBmp.FreeBmp | src/bmp.c:126-135 | each live header and the row table are freed (left dangling) and NULL ones stay NULL |
| CBmp.ParseSavedWith | src/bmp.c:95-109 | a saved file starts with the headers save_bmp computed |
| CBmp.LoadIntendedSave | src/bmp.c:97-120 | load_bmp of the intended file gives back the headers and exactly the image |
| CBmp.SaveLoadsWithStandardHeader | src/bmp.c:104 | with a 40-byte header the file as written is the intended one, and it loads back as the image |
| CBmp.SaveLoseImageWithV5Header | src/bmp.c:104 | with header_size 124, a 1×1 image is written as 58 bytes whose pixel offset is 138, and load_bmp rejects it |
| CBmp.RowsMissing | src/bmp.c:62-64 | an accepted header whose row lies past the end of the file makes load_bmp fail |
| CBmp.EmptyBitmapRoundTrip | src/bmp.c:82-124 | a bitmap with a standard header and row table saves to a file load_bmp reads back as the same image |
| CBmpIO.LoadResult | src/bmp_io.c:9-67 | accepted loads have the decoded headers, with the height normalised to the row count and the rows in image order; width and height are not checked |
| CBmpIO.BmpLoad | src/bmp_io.c:9-76 | 1 and nothing changed for NULL arguments or an unopenable file; 1 with both headers freed but not NULLed on failure; 0 with image_height normalised to H and the image on success |
| CBmpIO.LoadData | src/bmp_io.c:26-75 | after the allocations: 1 with both headers freed and rows NULL exactly when LoadResult rejects the file, otherwise 0 with the decoded headers, the normalised height and the row table of the image |
| CBmpIO.LoadPixels | src/bmp_io.c:36-75 | for headers that pass the checks: the row table, the per-row reads and the normalised height give the same outcome as LoadResult |
| CBmpIO.Fail | src/bmp_io.c:71-75 | the fail path frees both headers and leaves the pointers dangling |
| CBmpIO.ImageSize | src/bmp_io.c:96 | image_size = row_bytes·h reduced to uint32 |
| CBmpIO.SavedHeaders | src/bmp_io.c:92-99 | image_size consistent with row_bytes·h; file_size = offset + image_size |
| CBmpIO.SaveBytes | src/bmp_io.c:92-109 | both headers, then rows bottom-up each followed by zero padding; headers only for h ≤ 0 |
| CBmpIO.BmpSave | src/bmp_io.c:78-113 | 1 for NULL pointers or an unopenable path; otherwise 0 with exactly SaveBytes written |
| CBmpIO.WriteFile | src/bmp_io.c:92-109 | the bytes written for an open file are SaveBytes |
| CBmpIO.WriteHeaders | src/bmp_io.c:92-102 | the two header writes encode the headers with image_size recomputed and file_offset_to_pixels = 14 + header_size as uint32 |
| CBmpIO.ParseSavedWith | src/bmp_io.c:92-102 | a saved file starts with the headers bmp_save computed |
| CBmpIO.LoadIntendedSave | src/bmp_io.c:92-109 | bmp_load of the intended file gives back the headers and the image |
| CBmpIO.SaveLoadsWithStandardHeader | src/bmp_io.c:98 | with a 40-byte header the file as written is the intended one and loads back as the image |
| CBmpIO.SaveLoseImageWithV5Header | src/bmp_io.c:98 | with header_size 124, a 1×1 image is written as 58 bytes whose pixel offset is 138, and bmp_load rejects it |
| CBmpIO.RowsMissing | src/bmp_io.c:58-60 | an accepted header whose row lies past the end of the file makes bmp_load fail |
| CBmpApi.InitRowBytes | src/bmp.cpp:23 | ((3w+3)/4)·4 equals row_byte_width(24, w) |
| CBmpApi.EmptyFileHeader | src/bmp.cpp:26-29 | signature 0x4D42, offset 14 + 40, file_size = offset + image_size |
| CBmpApi.EmptyInfoHeader | src/bmp.cpp:31-41 | header_size 40, the given size, planes 1, bpp 24, compression 0, image_size = row_bytes·h |
| CBmpApi.Blank | src/bmp.cpp:43 | the calloc'ed image: h rows of w pixels {0,0,0} |
| CBmpApi.InitEmptyBmp | src/bmp.cpp:10-55 | 1 and nothing changed for a NULL bmp or a non-positive size; otherwise 0 with the headers and an all-black contiguous image |
| CBmpApi.AbsHeight | src/bmp.cpp:63 | `if (h < 0) h = -h` gives \|h\| for every h above INT_MIN |
| CBmpApi.SetPixel | src/bmp.cpp:57-69 | 0 after writing rows[y][x] only, exactly when in range of width and \|height\|; 1 with nothing changed otherwise |
| CBmpApi.SetPixelRgb | src/bmp.cpp:71-74 | set_pixel of the pixel {b, g, r} |
| CBmpApi.GetPixel | src/bmp.cpp:76-87 | 0 with *out = rows[y][x] exactly when in range and out is not NULL; 1 with out untouched otherwise |
| CBmpApi.GetAfterSet | src/bmp.cpp:57-87 | get_pixel after set_pixel returns the stored pixel at that spot and the old pixel elsewhere |
| CBmpApi.FreeBmp | src/bmp.cpp:89-102 | fileheader, infoheader and rows are all NULL afterwards |
| Rasterizer.TimesIsProduct | src/rasterizer/rasterizer.cpp:43-44 | k additions of d make k·d |
| Rasterizer.StepInRange | src/rasterizer/rasterizer.cpp:42-44 | before the endpoint, a step in x happens only while x has not reached x1 and a step in y only while y has not reached y1, and at least one of the two tests fires |
| Rasterizer.Next | src/rasterizer/rasterizer.cpp:42-44 | one pass adds 0 or 1 to each step count, at least one, without passing dx or dy |
| Rasterizer.Offsets | src/rasterizer/rasterizer.cpp:37-45 | the walk of step counts starts at (0,0) and ends at (dx, dy) |
| Rasterizer.OffsetsInBox | src/rasterizer/rasterizer.cpp:37-45 | the walk stays in [0,dx]×[0,dy] and meets (dx, dy) only at its end |
| Rasterizer.OffsetsMoves | src/rasterizer/rasterizer.cpp:42-44 | consecutive counts differ by 0 or 1 in each coordinate and are never equal |
| Rasterizer.LineEndpoints | src/rasterizer/rasterizer.cpp:37-40 | the first pixel set is (x0, y0); the last is (x1, y1), and no earlier pixel is (x1, y1), so the loop stops right after it |
| Rasterizer.LineConnected | src/rasterizer/rasterizer.cpp:32-44 | consecutive pixels are 8-neighbours, each coordinate moving by 0 or sx (sy) toward the endpoint |
| Rasterizer.LineInBox | src/rasterizer/rasterizer.cpp:29-44 | every pixel lies in the bounding box of the endpoints |
| Rasterizer.FirstOutside | src/rasterizer/rasterizer.cpp:38 | the first pixel at which set_pixel throws: every earlier pixel is in the image |
| Rasterizer.InsideEndpointsInside | src/rasterizer/rasterizer.cpp:29-44 | with both endpoints in the image, set_pixel never throws |
| Rasterizer.PaintAllMeaning | src/rasterizer/rasterizer.cpp:38 | after painting a list of in-image pixels, pixel i has the colour exactly when its (x, y) is in the list |
| Rasterizer.DrawLineBresenham | src/rasterizer/rasterizer.cpp:28-46 | the image has exactly the line's pixels painted up to the first one outside it; the call fails with out_of_range exactly when there is one |
| Rasterizer.Visit | src/rasterizer/rasterizer.cpp:38-44 | one pass at the i-th line pixel: either it stops with the outcome of the whole call (set_pixel threw, or the endpoint was drawn), or it moves to a later step count with x, y and err at that count and one more pixel painted |
| Rasterizer.Advance | src/rasterizer/rasterizer.cpp:42-44 | the two tests on e2 move x, y and err to the next step counts of the walk |
| Rasterizer.Round | src/rasterizer/rasterizer.cpp:22 | int(v + 0.5f) is ⌊v + 0.5⌋ for v ≥ −0.5 |
| Rasterizer.DdaSteps | src/rasterizer/rasterizer.cpp:9 | the maximum of \|dx\| and \|dy\| |
| Rasterizer.AccumulatedIsLinear | src/rasterizer/rasterizer.cpp:23-24 | i additions of the increment reach start + i·inc |
| Rasterizer.DdaPoints | src/rasterizer/rasterizer.cpp:9-13 | steps + 1 pixels; exactly the one pixel (x0, y0) when the endpoints coincide |
| Rasterizer.DdaEndpoints | src/rasterizer/rasterizer.cpp:15-25 | on non-negative coordinates the line starts at (x0, y0) and ends at (x1, y1) |
| Rasterizer.DdaLeftOfImage | src/rasterizer/rasterizer.cpp:22 | truncation toward zero moves the start (−1, 0) to pixel (0, 0), where Bresenham sets (−1, 0) |
| Rasterizer.DrawLineDda | src/rasterizer/rasterizer.cpp:5-26 | the image has the DDA pixels painted up to the first one outside it; out_of_range exactly when there is one |
| Rasterizer.DdaLoop | src/rasterizer/rasterizer.cpp:21-25 | the loop paints the rounded accumulated positions up to the first one outside the image, and fails with out_of_range exactly when there is one |
| Rasterizer.FillBackground | src/rasterizer/rasterizer.cpp:48-52 | every pixel of [0,W)×[0,H) is the colour; an empty image is unchanged |
| Rasterizer.FillRow | src/rasterizer/rasterizer.cpp:50-51 | the inner loop extends the painted prefix by one row of width pixels; a non-positive width changes nothing |
| Complex.NormSq | src/math/complex.cpp:98 | re² + im² is non-negative |
| Complex.AddNeg | src/math/complex.cpp:69-71 | z + (−z) = 0 |
| Complex.Sub | src/math/complex.cpp:86-88 | a − b is componentwise and undoes the addition of b |
| Complex.Div | src/math/complex.cpp:97-107 | fails exactly for a zero denominator; otherwise (a/b)·b = a |
| Complex.ScalarDiv | src/math/complex.cpp:111-113 | both parts divided by s: multiplying back by s gives z |
| Complex.QuotientTimesDivisor | src/math/complex.cpp:103-104 | the quotient formula times the divisor gives the dividend |
| Complex.ConjInvolution | src/math/complex.cpp:73-75 | conjugating twice gives z |
| Complex.MulConj | src/math/complex.cpp:90-95 | z·conj z is the real number \|z\|² |
| Complex.MulCommutative | src/math/complex.cpp:90-95 | multiplication is commutative |
| Complex.MulAssociative | src/math/complex.cpp:90-95 | multiplication is associative |
| Complex.MulDistributesOverAdd | src/math/complex.cpp:79-95 | multiplication distributes over addition |
| Complex.ConjOfMul | src/math/complex.cpp:73-95 | conjugation is multiplicative |
| Complex.NormSqOfMul | src/math/complex.cpp:90-98 | the squared modulus is multiplicative |
| Complex.ArithmeticExamples | tests/math/test_complex.cpp:22-41 | (1+2i)+(3+4i) = 4+6i, (1+2i)−(3+4i) = −2−2i, (1+2i)(3+4i) = −5+10i, (3+4i)/(1+2i) = 2.2−0.4i |
| Complex.UnaryExamples | tests/math/test_complex.cpp:44-54 | −(3−4i) = −3+4i and ~(3−4i) = 3+4i |
| Quaternion.FromParts | src/math/quaternion.cpp:7-10 | definition of the constructor: Quaternion(a,b,c,d) = (Complex(a,b), Complex(c,d)) |
| Quaternion.AddNeg | src/math/quaternion.cpp:33-48 | q + (−q) = 0 |
| Quaternion.Sub | src/math/quaternion.cpp:50-52 | the difference is componentwise on z0 and z1 and undoes the addition |
| Quaternion.NormSq | src/math/quaternion.cpp:27-29 | \|z0\|² + \|z1\|² is non-negative |
| Quaternion.Inverse | src/math/quaternion.cpp:81-89 | for a non-zero q, q·inverse(q) = (1,0,0,0) |
| Quaternion.Pow | src/math/quaternion.cpp:91-102 | binary exponentiation returns the n-fold product, and (1,0,0,0) for n ≤ 0 |
| Quaternion.PowStep | src/math/quaternion.cpp:95-99 | one round keeps result·baseⁿ = qⁿ⁰ |
| Quaternion.MulCoords | src/math/quaternion.cpp:54-59 | the complex-pair product equals the expanded quaternion coordinates |
| Quaternion.MulOneLeft | src/math/quaternion.cpp:92-96 | (1,0,0,0)·q = q |
| Quaternion.MulOneRight | src/math/quaternion.cpp:92-96 | q·(1,0,0,0) = q |
| Quaternion.MulAssociative | src/math/quaternion.cpp:54-59 | the product is associative |
| Quaternion.PowerOfSquare | src/math/quaternion.cpp:97 | q^(2k) = (q·q)^k |
| Quaternion.AddExamples | tests/math/test_quaternion.cpp:21-25 | the sums of the arithmetic tests |
| Quaternion.SubExamples | tests/math/test_quaternion.cpp:21-26 | the differences of the arithmetic tests |
| Quaternion.SubParts | src/math/quaternion.cpp:50-52 | differences are taken coordinate by coordinate |
| Quaternion.MulExamples | tests/math/test_quaternion.cpp:21-27 | (1+2i, 3−i)·(−2+4i, 5i) = (−5+15i, −20−5i), and the product of the second test |
| Quaternion.UnaryExamples | tests/math/test_quaternion.cpp:30-34 | −q and ~q of the unary test |
| Quaternion.InverseExample | tests/math/test_quaternion.cpp:36-42 | q = (1+2i, 3+4i) has modulus² 30 and q·inverse(q) = (1,0,0,0) |
| Quaternion.PowerTwo | tests/math/test_quaternion.cpp:44-51 | pow(2) is q·q |

## Left out

- Concurrency and timing: `#pragma omp parallel for`/`simd` and `omp_get_wtime`. The render loops are sequential. That each pixel's colour depends only on (x, y) is proved, and it is what makes the visiting order irrelevant.
- Logging (`LOG_INFO`): it only formats text to standard output.
- File and stream I/O. Files are byte sequences, and paths are abstract: NULL, unopenable, or a file's contents. `fopen`/`fread`/`fseek`/`fwrite` and `ifstream`/`ofstream` are folded into the decoders and encoders. Write failures of `fwrite` and of `ofstream::write` are not modelled; a file that cannot be created is modelled for every saver.
- Memory management beyond NULL, live and freed pointers. `malloc`/`calloc` are taken to succeed, except for three size_t overflows that make the loaders fail: load_bmp with a height of INT_MIN, bmp_load with a height of INT_MIN (`(size_t)(-h)` is 2⁶⁴ − 2³¹ rows), and bmp_load with a negative width and at least one row (`W * H` is at least 2⁶² pixels, src/bmp_io.c:40-51). `calloc(0, …)` for an image without rows is taken to return a usable pointer, although C lets it return NULL, which would make the load fail.
- CBmp.SaveBmp: Savable requires PaddingFits, which excludes a bits_per_pixel other than 24 whose padding exceeds the 4-byte `padbuf` (src/bmp.c:93-94, 111-118), an overread that is undefined behaviour. load_bmp and init_empty_bmp only produce 24 bits per pixel, so no bitmap they build is excluded.
- Floating point: doubles and floats are exact reals, so rounding is not modelled.
- Transcendental maths. The log-based ν, `std::pow` in the scale interpolation, `modulus` (hypot), `Complex::pow`, `take_roots`, the trigonometric forms and `Quaternion::rotate_*` are not computed. ν and `pow` are parameters. `modulus() <= r` is stated through the squared modulus.
- FractalRenderer.Render, AbstractFractalRenderer.Render, Fractal.RenderComplexFractal and ComplexFractal.RenderComplexFractal require W ≠ 1 and H ≠ 1. With a size of 1 the C++ code divides by zero, and the steps become infinities or NaN, which reals cannot represent.
- Camera.MakeViewport requires a non-zero image width, since the C++ division by zero gives an infinity.
- Animation.Interpolate requires a.scale ≠ 0, since b.scale / 0 is an infinity or NaN. Its max_iter is the unbounded truncation Palette.Trunc of the lerp; for a t outside [0, 1] whose lerp leaves the `int` range, `static_cast<int>` at src/fractal/fractal_animation.cpp:29-31 is undefined behaviour, which is not modelled.
- Animation.InterpolateStart, Animation.InterpolateEnd: `std::pow` is assumed only to satisfy x⁰ = 1 and x¹ = x.
- Palette.ToByte: out-of-range casts from double to uint8_t are undefined in C++. The model truncates and wraps modulo 256, and its contract speaks only of values in [0, 256).
- Palette.ChannelRange covers only exact real t in [0, 1]. The in-range property of the casts is proved for any real mu in [0, max_iter); rounding in the doubles is not covered.
- Quaternion.Inverse: the C++ code divides by modulus(), which is hypot(\|z0\|, \|z1\|), squared. The model divides by the exact \|z0\|² + \|z1\|², which the square root gives over reals. It requires q ≠ 0: for q = 0, src/math/quaternion.cpp:81-89 divides by a zero modulus and gets infinities or NaN.
- Complex.ScalarDiv requires s ≠ 0: src/math/complex.cpp:111-113 divides with no check, and s = 0 gives infinities or NaN, which reals cannot represent.
- Rasterizer.DrawLineDda: positions are exact reals. Float rounding of the increments and of their accumulation is not modelled, so its pixels can differ from those of a float run on long lines.
- Rasterizer.DrawLineBresenham: the 32-bit `int` overflow of `dx`, `dy` and `2 * err` for coordinates near the int range is not modelled; coordinates are unbounded integers.
- BmpCodec.Decode, BmpIO.Load, BmpFile.Load: a stored height of INT_MIN is decoded as 2³¹ (the model's Abs is exact). In the source, `std::abs(ih.height)` at src/bmp/bmp_io.cpp:42 and src/bmp/bmp.cpp:58 is undefined behaviour for INT_MIN (in practice it yields INT_MIN), so `m_height` cannot hold the model's height: for width > 0 the `resize` throws `std::length_error` where Decode reports TruncatedPixels or BmpFile.Load builds a 1×2³¹ picture, and for width 0 the row loop makes 2⁶⁴ − 2³¹ empty passes. This case is not modelled.
- BmpIO.Save requires a non-negative height. `Bmp::empty(-2, -8)` is a valid image (w·h = 16), and BmpIO::save of it writes both headers, then sizes its buffer by the size_t product row_size·height, which wraps, while the row loop runs 2⁶⁴ − 8 times (src/bmp/bmp_io.cpp:96-103). Depending on the width, the vector constructor throws, or the loop makes 2⁶⁴ − \|height\| passes whose pixel iterators point far outside the image, which is undefined behaviour; BmpIO.NegativeHeightSizes gives the wrapped sizes, and neither outcome is modelled.
- BmpCodec.RowSizeU32, BmpFormat.RowSizeInt, BmpFile.Load, BmpFile.Save: `Bmp::row_size_bytes(int)` computes `width * 24 + 31` in `int` (src/bmp/bmp.cpp:7-9), which overflows (undefined behaviour) for width ≥ 89,478,485 or width ≤ −89,478,486. The model computes it exactly.
- Image.Bmp.Empty, Image.Bmp.EmptyWhite, BmpFile.Load: `width * height` is an `int` product in `Bmp::empty` (src/bmp/bmp.cpp:29) and in the `resize` of `Bmp::load` (src/bmp/bmp.cpp:63). It overflows once w·h leaves the `int` range (65536×65536, say); the model makes the exact w·h pixels.
- CBmpApi.InitEmptyBmp requires width·3 + 3 < 2³¹, because `width * 3 + 3` at src/bmp.cpp:23 is an `int` expression that overflows above it. The `int` product `y * width` of the row-pointer loop at src/bmp.cpp:51 is computed exactly, so its overflow once (height − 1)·width reaches 2³¹ is not modelled.
- The unused smoothed `mu` of src/fractal/fractal.cpp is computed in Fractal.RenderPixel but, as in the code, does not reach the pixel.
- `IPixeled` implementations other than `Bmp`. The rasterizer and complex_fractal.cpp draw on `Image.Bmp`. complex_fractal.cpp calls `width()`/`height()` and `get_real()`/`get_imag()`, which the headers shown do not declare; they are read as the image's size and the complex number's parts.
- Overriding `smooth`/`colorize`, and the concrete hooks of AbstractFractalRenderer subclasses: the hooks are parameters of the model.
- The ray-tracing demo, vector geometry, the legacy polar complex of src/complex.cpp, the raylib and SFML adapters, drivers and usage examples. They are outside the rendering and BMP core.
- CBmp.FreeBmp: free_bmp of src/bmp.c also frees the bmp_t itself. The model records the three fields as freed but does not model the end of the bmp_t object's lifetime.

## Findings

| source | as written | input that shows it | evidently intended | confidence | as-written member | corrected member |
|---|---|---|---|---|---|---|
| src/bmp.c:104 | save_bmp sets file_offset_to_pixels to 14 + header_size, but writes only the 40-byte bmp_infoheader_t before the pixels | a 1×1 image whose info header says header_size = 124 (as loaded from a BITMAPV5HEADER file): the 58-byte file says the pixels start at 138, and load_bmp rejects it | pixels start right after the 54 header bytes written, so the saved file loads back as the image | high (not executed) | CBmp.SaveLoseImageWithV5Header | CBmp.LoadIntendedSave |
| src/bmp_io.c:98 | bmp_save sets file_offset_to_pixels to 14 + header_size, but writes only the 40-byte bmp_infoheader_t before the pixels | the same 1×1 image with header_size = 124: the file is 58 bytes with pixel offset 138, and bmp_load rejects it | pixels start right after the 54 header bytes written | high (not executed) | CBmpIO.SaveLoseImageWithV5Header | CBmpIO.LoadIntendedSave |
