# Glyph transforms of `make_glyphs.py`

The script turns a source icon into two glyph images. The first is a *glyph*: it is the
icon with its near-white background made fully transparent. The second is a *white
glyph*: every visible pixel of the glyph becomes opaque white and every invisible one
becomes transparent white. Only the pixel logic is modelled here.

- `rgba.dfy` (module `Rgba`) holds the data model. A pixel is four 8-bit channels
  (`Pixel`). An image is the flat, row-major `seq<Pixel>` that the image library's
  `getdata` yields and `putdata` takes. The module also holds the reference colour
  (`Background`) and the script's defaults: white and a tolerance of 12.
- `glyphs.dfy` (module `Glyphs`) holds the two passes and the driver:
  - `RemoveBackgroundToAlpha` and `ToWhiteSilhouette` are the source's loops. Each
    walks the pixels once and appends one output pixel per input pixel.
  - Each loop is proved equal to a specification function: `BackgroundRemoved` or
    `Silhouette`. Both are defined per pixel by `ClearPixel` and `SilhouettePixel`.
  - The lemmas state what the script promises about those functions.
  - `MakeGlyphs` is the part of `main` that feeds the glyph into the silhouette pass.

The reference colour and the tolerance are parameters of the background pass. Like
Python, the model accepts any integers for them. The driver passes the defaults, as
`main` does.

The background test (scripts/make_glyphs.py:15) requires all three colour channels to be
within `tol` of the reference colour. `IsBackground` states exactly that, and
`TurnsTransparent` adds the nonzero-alpha half of the guard.

`DefaultBackgroundBand`, `ExampleWhiteAndDark` and `ExampleTransparentNearWhite` are
documentation. They pin the model to concrete behaviour: the default band 243..255 and
two small worked images. Dafny checks each of them directly from the definitions, so they
carry no proof of their own.

## Model

| member | source | states |
|---|---|---|
| `Glyphs.ClearPixel` | scripts/make_glyphs.py:15-18 | one pixel keeps its RGB; it changes exactly when `TurnsTransparent` holds (the guard of line 15: `IsBackground`, every channel within `tol` of `bg`, and alpha nonzero), and a changed pixel has alpha 0 |
| `Glyphs.BackgroundRemoved` | scripts/make_glyphs.py:14-18 | the pass appends one output pixel per input pixel, so the pixel count is preserved |
| `Glyphs.BackgroundRemovedAt` | scripts/make_glyphs.py:14-18 | output position i is input pixel i passed through the per-pixel rule, in order |
| `Glyphs.RemoveBackgroundToAlpha` | scripts/make_glyphs.py:12-19 | the loop that builds `out` produces exactly the background-removed sequence |
| `Glyphs.BackgroundRemovedKeepsColour` | scripts/make_glyphs.py:15-18 | no pixel's R, G or B channel is ever changed |
| `Glyphs.BackgroundRemovedClearsExactly` | scripts/make_glyphs.py:7-8 | a pixel changes iff it is background with nonzero alpha; output alpha is 0 iff the input was background or already transparent; other pixels, partial alpha included, are copied verbatim |
| `Glyphs.BackgroundRemovedNeverRaisesAlpha` | scripts/make_glyphs.py:15-18 | each output alpha is 0 or the input alpha; a zero-alpha pixel stays zero-alpha |
| `Glyphs.BackgroundRemovedIdempotent` | scripts/make_glyphs.py:15-18 | running background removal twice gives the same result as once |
| `Glyphs.DefaultBackgroundBand` | scripts/make_glyphs.py:5 | with the defaults (white, tolerance 12) a pixel is background iff each colour channel is at least 243 |
| `Glyphs.SilhouettePixel` | scripts/make_glyphs.py:27-30 | the output pixel is white, its alpha is 0 or 255, and it is 0 exactly when the input alpha is 0 |
| `Glyphs.Silhouette` | scripts/make_glyphs.py:26-30 | the silhouette pass appends one output pixel per input pixel, so the pixel count is preserved |
| `Glyphs.SilhouetteAt` | scripts/make_glyphs.py:26-30 | output position i is the silhouette of input pixel i, in order |
| `Glyphs.ToWhiteSilhouette` | scripts/make_glyphs.py:25-31 | the loop that builds `out` produces exactly the silhouette sequence |
| `Glyphs.SilhouetteTwoValued` | scripts/make_glyphs.py:27-30 | every output pixel is (255,255,255,0) or (255,255,255,255), the first exactly where the input alpha is 0 |
| `Glyphs.SilhouetteKeepsShape` | scripts/make_glyphs.py:27-30 | the positions with alpha 0 are the same in input and output |
| `Glyphs.SilhouetteDependsOnlyOnShape` | scripts/make_glyphs.py:27-30 | two inputs with the same zero-alpha positions have the same silhouette, whatever their colours |
| `Glyphs.SilhouetteIdempotent` | scripts/make_glyphs.py:26-30 | running the silhouette pass twice gives the same result as once |
| `Glyphs.PipelineAt` | scripts/make_glyphs.py:43-47 | after both passes a pixel is opaque white iff the source pixel had nonzero alpha and was not background, and transparent white otherwise |
| `Glyphs.MakeGlyphs` | scripts/make_glyphs.py:42-47 | the glyph is the background-removed source under the defaults, the white glyph is its silhouette, the count is preserved, and each white-glyph pixel is characterised by the source pixel |
| `Glyphs.ExampleWhiteAndDark` | scripts/make_glyphs.py:14-30 | [(255,255,255,255), (10,20,30,255)] gives glyph [(255,255,255,0), (10,20,30,255)] and white glyph [(255,255,255,0), (255,255,255,255)] |
| `Glyphs.ExampleTransparentNearWhite` | scripts/make_glyphs.py:14-30 | an already transparent near-white pixel (250,250,250,0) is left as it is and becomes (255,255,255,0) |

## Left out

- Image I/O and conversion are not modelled. This covers `Image.open`, `convert('RGBA')`, `getdata`, `putdata` and `save` (scripts/make_glyphs.py:10-11, 19, 23-24, 31, 40, 44, 48), which are calls into the image library and the file system. The input is taken to be already RGBA.
- The image object is modelled by its pixel sequence. `convert` hands each pass a copy, so the caller's image is never changed. Each pass is therefore a method that returns the new sequence, and that sequence stands for the `putdata` that replaces the copy's pixels.
- Argument handling in `main` is not modelled: the `sys.argv` check, the usage message and `sys.exit(1)` (scripts/make_glyphs.py:35-37). This is process plumbing.
- Output paths are not modelled: `os.path.dirname` and the fixed file names `icon-glyph.png` and `icon-glyph-white.png` (scripts/make_glyphs.py:38-39, 44, 48). This is file-system plumbing.
- Image width and height are not modelled. Both passes treat the image as one flat sequence. Error paths from decoding or writing files are part of the library calls above.
