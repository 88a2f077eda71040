/** Background separation: every pixel whose HSV triple lies inside the
    "black" range becomes pure black, every other pixel pure white
    (`remove_background`); the digitise dialog keeps in-range pixels as they
    are and whitens the rest (`digitalize_selected`). The colour conversion
    itself is OpenCV's and is taken as an input grid. */
module Background {

  /** An 8-bit colour pixel in OpenCV's channel order. */
  datatype Bgr = Bgr(b: int, g: int, r: int)

  /** An 8-bit HSV pixel as `COLOR_BGR2HSV` produces it. */
  datatype Hsv = Hsv(h: int, s: int, v: int)

  const Black := Bgr(0, 0, 0)
  const White := Bgr(255, 255, 255)

  /** `lower_black` and `upper_black`. */
  const Lower := Hsv(0, 0, 0)
  const Upper := Hsv(180, 255, 220)

  /** `cv2.inRange` for one pixel: every channel inside its bounds, inclusive. */
  predicate InRange(p: Hsv, lo: Hsv, hi: Hsv) {
    lo.h <= p.h <= hi.h && lo.s <= p.s <= hi.s && lo.v <= p.v <= hi.v
  }

  /** The range the page and the dialog both use. */
  predicate IsInk(p: Hsv) {
    InRange(p, Lower, Upper)
  }

  /** The shape OpenCV's 8-bit HSV output always has. */
  predicate ValidHsv(p: Hsv) {
    0 <= p.h <= 180 && 0 <= p.s <= 255 && 0 <= p.v <= 255
  }

  function MaxChannel(p: Bgr): int {
    if p.b >= p.g && p.b >= p.r then p.b else if p.g >= p.r then p.g else p.r
  }

  /** OpenCV's V channel is the largest of the three colour channels; H and
      S are only known to be in range. */
  predicate HsvOf(p: Bgr, q: Hsv) {
    ValidHsv(q) && q.v == MaxChannel(p)
  }

  /** For any converted pixel the range test only looks at brightness. */
  lemma InkIffDark(p: Bgr, q: Hsv)
    requires HsvOf(p, q)
    ensures IsInk(q) <==> MaxChannel(p) <= 220
  {
  }

  // The per-pixel mask arithmetic of `remove_background`, step by step.

  /** `mask_black`: 255 inside the range, 0 outside. */
  function MaskAt(q: Hsv): int {
    if IsInk(q) then 255 else 0
  }

  /** `cv2.bitwise_and(src, src, mask=m)`: the pixel where the mask is set,
      black elsewhere. */
  function MaskedAt(p: Bgr, m: int): Bgr {
    if m != 0 then p else Black
  }

  /** `cv2.add` on 8-bit pixels saturates at 255. */
  function SatAdd(a: Bgr, c: Bgr): Bgr {
    Bgr(if a.b + c.b > 255 then 255 else a.b + c.b,
        if a.g + c.g > 255 then 255 else a.g + c.g,
        if a.r + c.r > 255 then 255 else a.r + c.r)
  }

  /** One output pixel of `remove_background`, computed the way the code
      does: masked copy, forced to 0 under the mask, plus the white
      background under the inverted mask (`bitwise_not` of an 8-bit mask is
      `255 - m`). */
  function SeparatedAt(p: Bgr, q: Hsv): Bgr {
    var m := MaskAt(q);
    var blackOnWhite := if m == 255 then Black else MaskedAt(p, m);
    var nonBlackOnWhite := MaskedAt(White, 255 - m);
    SatAdd(blackOnWhite, nonBlackOnWhite)
  }

  /** Two grids of the same shape. */
  predicate SameShape<S, T>(a: seq<seq<S>>, c: seq<seq<T>>) {
    |a| == |c| && forall i :: 0 <= i < |a| ==> |a[i]| == |c[i]|
  }

  /** `remove_background` over the whole image, given the HSV conversion of
      every pixel: pixels in range become pure black, all others pure white,
      and the image keeps its size. */
  function RemoveBackground(img: seq<seq<Bgr>>, hsv: seq<seq<Hsv>>): (out: seq<seq<Bgr>>)
    requires SameShape(img, hsv)
    ensures SameShape(out, img)
    ensures forall i, j :: 0 <= i < |out| && 0 <= j < |out[i]| ==>
              out[i][j] == if IsInk(hsv[i][j]) then Black else White
  {
    seq(|img|, i requires 0 <= i < |img| =>
      seq(|img[i]|, j requires 0 <= j < |img[i]| => SeparatedAt(img[i][j], hsv[i][j])))
  }

  /** Every grid converted from another one pixel by pixel. */
  predicate ConvertedFrom(img: seq<seq<Bgr>>, hsv: seq<seq<Hsv>>) {
    SameShape(img, hsv) && forall i, j :: 0 <= i < |img| && 0 <= j < |img[i]| ==> HsvOf(img[i][j], hsv[i][j])
  }

  /** The output has only the two levels black and white. */
  lemma RemoveBackgroundTwoLevel(img: seq<seq<Bgr>>, hsv: seq<seq<Hsv>>)
    requires SameShape(img, hsv)
    ensures forall i, j :: 0 <= i < |img| && 0 <= j < |img[i]| ==>
              RemoveBackground(img, hsv)[i][j] in {Black, White}
  {
  }

  /** Removing the background of an image whose background is already
      removed changes nothing: black converts to V = 0 (in range) and white
      to V = 255 (out of range). */
  lemma RemoveBackgroundIdempotent(img: seq<seq<Bgr>>, hsv: seq<seq<Hsv>>, hsv2: seq<seq<Hsv>>)
    requires SameShape(img, hsv)
    requires ConvertedFrom(RemoveBackground(img, hsv), hsv2)
    ensures RemoveBackground(RemoveBackground(img, hsv), hsv2) == RemoveBackground(img, hsv)
  {
    var out := RemoveBackground(img, hsv);
    var again := RemoveBackground(out, hsv2);
    forall i | 0 <= i < |out|
      ensures again[i] == out[i]
    {
      forall j | 0 <= j < |out[i]|
        ensures again[i][j] == out[i][j]
      {
        assert HsvOf(out[i][j], hsv2[i][j]);
      }
    }
  }

  /** One output pixel of the digitise dialog's separation:
      `bitwise_and(img, img, mask=mask)`, then `result[mask == 0] = 255`. */
  function DialogSeparatedAt(p: Bgr, q: Hsv): Bgr {
    var m := MaskAt(q);
    if m == 0 then White else MaskedAt(p, m)
  }

  /** The dialog's separation keeps the colour of in-range pixels and
      whitens every other pixel; it whitens exactly where
      `remove_background` does. */
  function DialogSeparate(img: seq<seq<Bgr>>, hsv: seq<seq<Hsv>>): (out: seq<seq<Bgr>>)
    requires SameShape(img, hsv)
    ensures SameShape(out, img)
    ensures forall i, j :: 0 <= i < |out| && 0 <= j < |out[i]| ==>
              out[i][j] == if RemoveBackground(img, hsv)[i][j] == Black then img[i][j] else White
  {
    seq(|img|, i requires 0 <= i < |img| =>
      seq(|img[i]|, j requires 0 <= j < |img[i]| => DialogSeparatedAt(img[i][j], hsv[i][j])))
  }
}
