/** Exact bitmap comparison used by the variation-sequence rendering test.

    A captured screen region is a two-dimensional array of packed colour
    values: the first index is the x coordinate (0 <= x < width), the second
    the y coordinate (0 <= y < height), and `img[x, y]` is what
    `getRGB(x, y)` returns for it. Colour values are compared as opaque
    integers; no colour-model conversion is modelled. */
module Font467 {

  /** A captured image, indexed column first as `getRGB(x, y)` is. */
  type Image = array2<int>

  /** `getWidth()` of a captured image. */
  function Width(img: Image): nat { img.Length0 }

  /** `getHeight()` of a captured image. */
  function Height(img: Image): nat { img.Length1 }

  predicate SameSize(a: Image, b: Image) {
    Width(a) == Width(b) && Height(a) == Height(b)
  }

  /** Whole-image equality: equal dimensions and, at every in-range
      coordinate, the same colour value. */
  ghost predicate SameImage(a: Image, b: Image)
    reads a, b
  {
    SameSize(a, b) &&
    forall x, y :: 0 <= x < Width(a) && 0 <= y < Height(a) ==> a[x, y] == b[x, y]
  }

  /** The contents of an image as a value: its columns, each holding the
      colour values of that column from top to bottom. */
  ghost function Pixels(img: Image): (cols: seq<seq<int>>)
    reads img
    ensures |cols| == Width(img)
    ensures forall x :: 0 <= x < |cols| ==> |cols[x]| == Height(img)
    ensures forall x, y :: 0 <= x < Width(img) && 0 <= y < Height(img) ==> cols[x][y] == img[x, y]
  {
    seq(img.Length0, x requires 0 <= x < img.Length0 reads img =>
      seq(img.Length1, y requires 0 <= y < img.Length1 reads img => img[x, y]))
  }

  /** Number of pixels in columns 0 .. x - 1 of an image of height `h`: the
      comparisons a successful scan has made when it reaches column `x`. */
  ghost function ColumnsBefore(x: nat, h: nat): nat {
    if x == 0 then 0 else ColumnsBefore(x - 1, h) + h
  }

  /** Position of pixel (x, y) in the column-major scan order: the number of
      comparisons the scan makes before it compares that pixel. */
  ghost function ScanIndex(x: nat, y: nat, h: nat): nat {
    ColumnsBefore(x, h) + y
  }

  /** The scan compares the two images pixel by pixel, x outer and y
      inner, and answers false at the first difference. It only reads the
      two images: there is no modifies clause. The ghost counter `compared`
      counts the pixel comparisons made so far. */
  method ImagesAreEqual(i1: Image, i2: Image) returns (equal: bool)
    ensures !SameSize(i1, i2) ==> !equal
    ensures equal <==> SameImage(i1, i2)
  {
    if Width(i1) != Width(i2) || Height(i1) != Height(i2) {
      return false;
    }
    ghost var compared: nat := 0;
    var i := 0;
    while i < Width(i1)
      invariant 0 <= i <= Width(i1)
      invariant compared == ColumnsBefore(i, Height(i1))
      invariant forall x, y :: 0 <= x < i && 0 <= y < Height(i1) ==> i1[x, y] == i2[x, y]
      decreases Width(i1) - i
    {
      var j := 0;
      while j < Height(i1)
        invariant 0 <= j <= Height(i1)
        invariant compared == ScanIndex(i, j, Height(i1))
        invariant forall x, y :: 0 <= x < i && 0 <= y < Height(i1) ==> i1[x, y] == i2[x, y]
        invariant forall y :: 0 <= y < j ==> i1[i, y] == i2[i, y]
        decreases Height(i1) - j
      {
        // every comparison is one of the width * height pixels
        ScanOrder(i, j, Width(i1), 0, Height(i1));
        ColumnsBeforeIsProduct(Width(i1), Height(i1));
        assert compared < Width(i1) * Height(i1);
        compared := compared + 1;
        if i1[i, j] != i2[i, j] {
          return false;
        }
        j := j + 1;
      }
      i := i + 1;
    }
    ColumnsBeforeIsProduct(Width(i1), Height(i1));
    assert compared == Width(i1) * Height(i1);
    return true;
  }

  /** A full scan of a w-by-h image makes w * h comparisons. */
  lemma {:induction false} ColumnsBeforeIsProduct(w: nat, h: nat)
    ensures ColumnsBefore(w, h) == w * h
  {
    if w > 0 {
      ColumnsBeforeIsProduct(w - 1, h);
      assert (w - 1) * h + h == w * h;
    }
  }

  /** Every pixel of column x is compared before any pixel of a later
      column. */
  lemma {:induction false} ColumnsBeforeGrows(x: nat, x2: nat, h: nat)
    requires x < x2
    ensures ColumnsBefore(x, h) + h <= ColumnsBefore(x2, h)
    decreases x2
  {
    if x + 1 < x2 {
      ColumnsBeforeGrows(x, x2 - 1, h);
    }
  }

  /** The scan visits pixels in column-major order: (x, y) is compared
      strictly before (x2, y2) exactly when x < x2, or x == x2 and y < y2.
      Hence no pixel is compared twice. */
  lemma ScanOrder(x: nat, y: nat, x2: nat, y2: nat, h: nat)
    requires y < h && y2 < h
    ensures ScanIndex(x, y, h) < ScanIndex(x2, y2, h) <==> x < x2 || (x == x2 && y < y2)
  {
    if x < x2 {
      ColumnsBeforeGrows(x, x2, h);
    } else if x2 < x {
      ColumnsBeforeGrows(x2, x, h);
    }
  }

  lemma SizeMismatchIsUnequal(a: Image, b: Image)
    requires Width(a) != Width(b) || Height(a) != Height(b)
    ensures !SameImage(a, b)
  {
  }

  lemma OneDifferingPixelIsUnequal(a: Image, b: Image, x: nat, y: nat)
    requires SameSize(a, b)
    requires x < Width(a) && y < Height(a)
    requires a[x, y] != b[x, y]
    ensures !SameImage(a, b)
  {
  }

  lemma SameImageReflexive(a: Image)
    ensures SameImage(a, a)
  {
  }

  lemma SameImageSymmetric(a: Image, b: Image)
    ensures SameImage(a, b) <==> SameImage(b, a)
  {
  }

  lemma EmptyImagesAreEqual(a: Image, b: Image)
    requires SameSize(a, b)
    requires Width(a) == 0 || Height(a) == 0
    ensures SameImage(a, b)
  {
  }

  /** The comparison is exact: it holds precisely when the two captures
      have the same dimensions and the same contents as values. */
  lemma SameImageIffSamePixels(a: Image, b: Image)
    ensures SameImage(a, b) <==> SameSize(a, b) && Pixels(a) == Pixels(b)
  {
    if SameImage(a, b) {
      var pa, pb := Pixels(a), Pixels(b);
      forall x | 0 <= x < Width(a)
        ensures pa[x] == pb[x]
      {
        assert forall y :: 0 <= y < Height(a) ==> pa[x][y] == pb[x][y];
      }
    }
  }
}
