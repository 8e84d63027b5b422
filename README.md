# Font467 screenshot comparator

The JetBrains Runtime regression test `Font467` draws the letter `a` twice:
once alone and once followed by U+FE00 (VARIATION SELECTOR-1), a variation
sequence the test font does not define. It captures two 20×50 screen regions
and fails unless the two captures are pixel-identical. The decision is made by
`imagesAreEqual`. This project models that comparator and proves what it
computes.

An image is a Dafny `array2<int>`: `Length0` is `getWidth()`, `Length1` is
`getHeight()`, and `img[x, y]` is the packed colour value `getRGB(x, y)`,
treated as an opaque integer.

- `Font467.SameImage` is the specification: equal dimensions and equal colour
  values at every in-range coordinate.
- `Font467.ImagesAreEqual` is the comparator as written: a size check with an
  early `false`, then two nested `while` loops (x outer, y inner) that return
  `false` at the first differing pixel and `true` after a full scan. Its
  contract says the result is `true` exactly when `SameImage` holds. It has no
  `modifies` clause, so Dafny's frame rules guarantee that neither image is
  changed. A ghost counter in the loops counts the pixel comparisons. It shows
  that every comparison is one of the `width * height` pixels and that a
  successful scan makes exactly `width * height` comparisons.
- Lemmas give the remaining properties: a size mismatch or one differing
  pixel makes the images unequal, and zero-width or zero-height images of the
  same size are equal. Equality is reflexive and symmetric. Pixel-wise
  equality is the same as value equality of the two pixel grids, so there is
  no tolerance. The scan visits pixels in column-major order and compares each
  one at most once.

The comparator returns only a boolean. A richer result that reports a size
mismatch separately, or the first differing coordinate, is not computed by
the code, so it is not modelled.

## Model

| member | source | states |
|---|---|---|
| `Font467.ImagesAreEqual` | test/jb/java/awt/Font/Font467.java:153-162 | The result is `true` exactly when both images have the same width and height and the same colour value at every in-range `(x, y)`. A size mismatch gives `false` whatever the pixels hold. The images are only read. The loop invariants say that all columns before `i` match and that rows `0..j-1` of column `i` match. Every comparison the scan makes is at a position below `width * height`. |
| `Font467.ScanOrder` | test/jb/java/awt/Font/Font467.java:156-159 | The scan visits pixels in column-major order. Pixel `(x, y)` is compared strictly before `(x2, y2)` exactly when `x < x2`, or `x == x2` and `y < y2`. So distinct pixels are compared at distinct steps, and no pixel is compared twice. |
| `Font467.ColumnsBeforeGrows` | test/jb/java/awt/Font/Font467.java:156-157 | All `height` pixels of a column are compared before any pixel of a later column. |
| `Font467.ColumnsBeforeIsProduct` | test/jb/java/awt/Font/Font467.java:156-161 | The number of comparisons before column `w` is `w * height`. So a scan that reaches `return true` has made exactly `width * height` comparisons, and the scan ends within that many steps. |
| `Font467.SizeMismatchIsUnequal` | test/jb/java/awt/Font/Font467.java:155 | If the widths or the heights differ, the images are not equal, whatever their pixels. |
| `Font467.OneDifferingPixelIsUnequal` | test/jb/java/awt/Font/Font467.java:158 | For images of the same size, one in-range coordinate with different colour values is enough to make them unequal. There is no tolerance. |
| `Font467.SameImageReflexive` | test/jb/java/awt/Font/Font467.java:155-161 | Any image is equal to itself. |
| `Font467.SameImageSymmetric` | test/jb/java/awt/Font/Font467.java:155-158 | Equality of `a` with `b` holds exactly when equality of `b` with `a` does. Both the size test and the pixel test use a symmetric `!=`. |
| `Font467.EmptyImagesAreEqual` | test/jb/java/awt/Font/Font467.java:156-161 | Two images of the same size with width 0 or height 0 are equal, because the loops compare nothing and the method reaches `return true`. |
| `Font467.SameImageIffSamePixels` | test/jb/java/awt/Font/Font467.java:155-161 | Pixel-by-pixel equality holds exactly when the images have the same size and their contents, as grids of colour values, are the same value. |

## Left out

- The console message `Comparing screen shots` printed on entry (Font467.java:154) is output only and is not modelled.
- Colour values are plain integers. The ARGB colour-model conversion inside `BufferedImage.getRGB` is not modelled, since the comparison uses only equality of the returned values.
- Java's `BufferedImage` cannot have width or height 0. The model still allows such images, and they compare as the loops would compare them.
- The rest of the test is not modelled: window setup and disposal, the `wait`/`notifyAll` handshake and the focus callback, `Robot` screen capture and its delay, font loading and registration, glyph layout and drawing in `MyComponent`, PNG output with `ImageIO.write`, and the capture rectangle arithmetic. These are UI plumbing, concurrency, platform-dependent capture, file I/O, or the rendering engine under test, which is not part of this model.
