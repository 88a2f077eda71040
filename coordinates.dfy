/** The mapping from a rectangle's scene coordinates to slice indices of the
    displayed image, and the NumPy slice that cuts the region out of it. The
    same four lines appear in `save_all_areas`, `preview_selected`,
    `on_selection_changed` and `on_save`. */
module Coordinates {
  import Annotations

  /** Python's `int()` on a float: truncation toward zero. */
  function Trunc(x: real): (n: int)
    ensures x >= 0.0 ==> 0 <= n && n as real <= x < n as real + 1.0
    ensures x < 0.0 ==> n <= 0 && n as real - 1.0 < x <= n as real
  {
    if x >= 0.0 then x.Floor else -((-x).Floor)
  }

  /** `(width, height)` as the page records it in `img_original_size` and
      `img_resized_size`. */
  datatype Size = Size(width: nat, height: nat)

  /** `int(c * resized / original)`. */
  function Scale(c: real, resized: nat, original: nat): int
    requires original > 0
  {
    Trunc(c * resized as real / original as real)
  }

  /** Both recorded original dimensions are positive, so the scaling
      divides by neither zero. Before any image is opened the recorded
      size is (0, 0). */
  predicate Scalable(original: Size) {
    original.width > 0 && original.height > 0
  }

  /** Slice indices `(x1, y1, x2, y2)` into the displayed image. */
  datatype Slice = Slice(x1: int, y1: int, x2: int, y2: int)

  /** The code as written: x is scaled by resized width over ORIGINAL HEIGHT
      and y by resized height over ORIGINAL WIDTH, since `img_original_size`
      holds `(width, height)` and is indexed `[1]` for x and `[0]` for y. */
  function ScaledSlice(r: Annotations.Rect, resized: Size, original: Size): Slice
    requires original.width > 0 && original.height > 0
  {
    Slice(Scale(r.x1, resized.width, original.height), Scale(r.y1, resized.height, original.width),
          Scale(r.x2, resized.width, original.height), Scale(r.y2, resized.height, original.width))
  }

  /** Truncation toward zero is monotone. */
  lemma TruncMonotone(a: real, b: real)
    requires a <= b
    ensures Trunc(a) <= Trunc(b)
  {
    if a >= 0.0 {
    } else if b < 0.0 {
      assert (-b).Floor <= (-a).Floor;
    } else {
    }
  }

  /** Multiplying by a non-negative size and dividing by a positive one keeps
      the order of two coordinates. */
  lemma RatioMonotone(a: real, b: real, R: real, O: real)
    requires a <= b && R >= 0.0 && O > 0.0
    ensures a * R / O <= b * R / O
  {
    var d := (b - a) * R;
    assert d >= 0.0;
    assert b * R == a * R + d;
    assert (a * R + d) / O == a * R / O + d / O;
    assert d / O >= 0.0;
  }

  /** Scaling is monotone in the coordinate. */
  lemma ScaleMonotone(a: real, b: real, resized: nat, original: nat)
    requires a <= b && original > 0
    ensures Scale(a, resized, original) <= Scale(b, resized, original)
  {
    var x, y := a * resized as real / original as real, b * resized as real / original as real;
    RatioMonotone(a, b, resized as real, original as real);
    TruncMonotone(x, y);
    assert Scale(a, resized, original) == Trunc(x);
  }

  /** The scaled slice of a normalised rectangle is never inverted, for any
      sign of the coordinates. */
  lemma ScaledSliceOrdered(r: Annotations.Rect, resized: Size, original: Size)
    requires original.width > 0 && original.height > 0
    requires r.x1 <= r.x2 && r.y1 <= r.y2
    ensures var s := ScaledSlice(r, resized, original); s.x1 <= s.x2 && s.y1 <= s.y2
  {
    ScaleMonotone(r.x1, r.x2, resized.width, original.height);
    ScaleMonotone(r.y1, r.y2, resized.height, original.width);
  }

  /** Nothing clamps: a one-pixel-wide rectangle on a large image gives an
      empty slice. */
  lemma ScaledSliceCanBeEmpty()
    ensures var s := ScaledSlice(Annotations.Rect(0.0, 0.0, 1.0, 1.0, "lead"), Size(1260, 630), Size(4000, 2000));
            s.x1 == s.x2 == 0 && s.y1 == s.y2 == 0
  {
    assert 1.0 * 1260 as real / 2000 as real == 0.63;
    assert 1.0 * 630 as real / 4000 as real == 0.1575;
  }

  /** A 2000x1000 image displayed at 1260x630 and the scene rectangle
      (100, 100)-(300, 200): x is scaled by 1260/1000 and y by 630/2000. */
  lemma CrossedAxesExample()
    ensures ScaledSlice(Annotations.Rect(100.0, 100.0, 300.0, 200.0, "II"), Size(1260, 630), Size(2000, 1000))
            == Slice(126, 31, 378, 63)
  {
    assert 100.0 * 1260 as real / 1000 as real == 126.0;
    assert 300.0 * 1260 as real / 1000 as real == 378.0;
    assert 100.0 * 630 as real / 2000 as real == 31.5;
    assert 200.0 * 630 as real / 2000 as real == 63.0;
  }

  /** One index of a NumPy/Python slice over a dimension of length `n`:
      a negative index counts from the end, and out-of-range indices are
      clamped to `[0, n]`. */
  function SliceBound(i: int, n: nat): (b: nat)
    ensures b <= n
    ensures (0 <= i <= n ==> b == i) && (i > n ==> b == n)
    ensures (-(n as int) <= i < 0 ==> b == i + n) && (i < -(n as int) ==> b == 0)
  {
    if i < 0 then (if i + n < 0 then 0 else i + n) else if i > n then n else i
  }

  /** The length of `a[lo:hi]` over a dimension of length `n`. */
  function SliceLength(lo: int, hi: int, n: nat): (len: nat)
    ensures len <= n
  {
    var a, b := SliceBound(lo, n), SliceBound(hi, n);
    if a < b then b - a else 0
  }

  /** All rows have the same length `width`. */
  predicate Rectangular<T>(g: seq<seq<T>>, width: nat) {
    forall i :: 0 <= i < |g| ==> |g[i]| == width
  }

  /** `img[y1:y2, x1:x2]` over an image of `|g|` rows of `width` pixels. */
  function Crop<T>(g: seq<seq<T>>, width: nat, s: Slice): (c: seq<seq<T>>)
    requires Rectangular(g, width)
    ensures |c| == SliceLength(s.y1, s.y2, |g|)
    ensures Rectangular(c, SliceLength(s.x1, s.x2, width))
    ensures forall i, j :: 0 <= i < |c| && 0 <= j < |c[i]| ==>
              c[i][j] == g[SliceBound(s.y1, |g|) + i][SliceBound(s.x1, width) + j]
  {
    var top, left := SliceBound(s.y1, |g|), SliceBound(s.x1, width);
    var h, w := SliceLength(s.y1, s.y2, |g|), SliceLength(s.x1, s.x2, width);
    seq(h, i requires 0 <= i < h => g[top + i][left..left + w])
  }

  /** The region a rectangle selects: its scaled slice cut out of the
      displayed image. Its size never exceeds the image. */
  function Region<T>(img: seq<seq<T>>, width: nat, r: Annotations.Rect, resized: Size, original: Size): (c: seq<seq<T>>)
    requires Rectangular(img, width)
    requires original.width > 0 && original.height > 0
    ensures |c| <= |img| && Rectangular(c, SliceLength(ScaledSlice(r, resized, original).x1, ScaledSlice(r, resized, original).x2, width))
  {
    Crop(img, width, ScaledSlice(r, resized, original))
  }

  /** The region a slice selects from the displayed image (whose size is
      `img_resized_size`) has no rows or no columns. `cv2.imwrite` refuses
      such an array with an exception. */
  predicate EmptyRegion(s: Slice, shown: Size) {
    SliceLength(s.x1, s.x2, shown.width) == 0 || SliceLength(s.y1, s.y2, shown.height) == 0
  }

  /** On an image of the displayed size, a rectangle's region has no pixel
      exactly when `EmptyRegion` holds of its scaled slice. */
  lemma RegionEmptyIff<T>(img: seq<seq<T>>, r: Annotations.Rect, resized: Size, original: Size)
    requires original.width > 0 && original.height > 0
    requires |img| == resized.height && Rectangular(img, resized.width)
    ensures var c := Region(img, resized.width, r, resized, original);
            EmptyRegion(ScaledSlice(r, resized, original), resized) <==> (|c| == 0 || |c[0]| == 0)
  {
    var c := Region(img, resized.width, r, resized, original);
    if |c| > 0 {
      assert |c[0]| == SliceLength(ScaledSlice(r, resized, original).x1, ScaledSlice(r, resized, original).x2, resized.width);
    }
  }

  /** A click released where it was pressed gives a rectangle with no width,
      and so an empty region, whatever the sizes. */
  lemma ClickWithoutDragIsEmpty(r: Annotations.Rect, resized: Size, original: Size)
    requires original.width > 0 && original.height > 0
    requires r.x1 == r.x2
    ensures EmptyRegion(ScaledSlice(r, resized, original), resized)
  {
  }

  /** With the crossed axes, a 2000x1000 image shown at 1260x630 maps the
      scene rectangle (1100, 100)-(1200, 200) to columns 1386..1512, both
      past the right edge: clamped, the region has no column. */
  lemma CrossedAxesOverrunIsEmpty()
    ensures var s := ScaledSlice(Annotations.Rect(1100.0, 100.0, 1200.0, 200.0, "V1"), Size(1260, 630), Size(2000, 1000));
            s.x1 == 1386 && s.x2 == 1512 && EmptyRegion(s, Size(1260, 630))
  {
    assert 1100.0 * 1260 as real / 1000 as real == 1386.0;
    assert 1200.0 * 1260 as real / 1000 as real == 1512.0;
  }

  /** For slice indices inside the image, the region is exactly
      `(y2 - y1) x (x2 - x1)` pixels starting at `(y1, x1)`. */
  lemma CropInBounds<T>(g: seq<seq<T>>, width: nat, s: Slice)
    requires Rectangular(g, width)
    requires 0 <= s.y1 <= s.y2 <= |g| && 0 <= s.x1 <= s.x2 <= width
    ensures |Crop(g, width, s)| == s.y2 - s.y1
    ensures forall i :: 0 <= i < s.y2 - s.y1 ==> Crop(g, width, s)[i] == g[s.y1 + i][s.x1..s.x2]
  {
  }
}
