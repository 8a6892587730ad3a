/**
 * The box and coordinate arithmetic of the compositor (build_ad.py): the centre crop of a
 * source photo, the font-size search for a caption and the position that centres the caption
 * in its fit box. Python's `/` yields a float here; `real` is exact for these halves of integers.
 */
module Geometry {

  /** A width and a height in pixels, as PIL's `img.size` and `font.getsize(text)` give them. */
  datatype Size = Size(width: int, height: int)

  /** A PIL box: left, upper, right, lower. */
  datatype Box = Box(left: real, upper: real, right: real, lower: real)

  /** What `crop_img_center` does with an image: crop it to a box, or hand it back unchanged. */
  datatype Crop = Cropped(box: Box) | Unchanged

  /** `crop_img_center(img, new_width, new_height)` for an image of size `img`. */
  function CropCenter(img: Size, newWidth: int, newHeight: int): (c: Crop)
    ensures c.Cropped? <==> newWidth <= img.width && newHeight <= img.height
    ensures c.Cropped? ==>
      && c.box.right - c.box.left == newWidth as real
      && c.box.lower - c.box.upper == newHeight as real
      && 0.0 <= c.box.left && c.box.right <= img.width as real
      && 0.0 <= c.box.upper && c.box.lower <= img.height as real
      && c.box.left == img.width as real - c.box.right
      && c.box.upper == img.height as real - c.box.lower
  {
    if newWidth <= img.width && newHeight <= img.height then
      var left := (img.width - newWidth) as real / 2.0;
      var upper := (img.height - newHeight) as real / 2.0;
      Cropped(Box(left, upper, left + newWidth as real, upper + newHeight as real))
    else
      Unchanged
  }

  /** The caption text measured at some font size lies strictly inside the fit box. */
  predicate FitsInside(text: Size, fit: Size) {
    text.width < fit.width && text.height < fit.height
  }

  /**
   * `get_max_font_size`: starting at size 8, step up while the text fits strictly inside
   * `fit`, and settle on one below the first size that does not fit. `measure(k)` stands for
   * `ImageFont.truetype(font_file, k).getsize(text)`.
   */
  method MaxFontSize(measure: nat -> Size, fit: Size) returns (size: nat)
    requires exists k: nat :: k >= 8 && !FitsInside(measure(k), fit)
    ensures size >= 7
    ensures forall k: nat :: 8 <= k <= size ==> FitsInside(measure(k), fit)
    ensures !FitsInside(measure(size + 1), fit)
    ensures !FitsInside(measure(8), fit) ==> size == 7
  {
    ghost var bound: nat :| bound >= 8 && !FitsInside(measure(bound), fit);
    var fontSize: nat := 8;
    var text := measure(fontSize);
    while text.width < fit.width && text.height < fit.height
      invariant 8 <= fontSize <= bound
      invariant text == measure(fontSize)
      invariant forall k: nat :: 8 <= k < fontSize ==> FitsInside(measure(k), fit)
      decreases bound - fontSize
    {
      fontSize := fontSize + 1;
      text := measure(fontSize);
    }
    size := fontSize - 1;
  }

  /** Only one size meets the postcondition of `MaxFontSize`: the search has a single answer. */
  lemma MaxFontSizeUnique(measure: nat -> Size, fit: Size, a: nat, b: nat)
    requires a >= 7 && b >= 7
    requires forall k: nat :: 8 <= k <= a ==> FitsInside(measure(k), fit)
    requires forall k: nat :: 8 <= k <= b ==> FitsInside(measure(k), fit)
    requires !FitsInside(measure(a + 1), fit) && !FitsInside(measure(b + 1), fit)
    ensures a == b
  {
  }

  /** `get_text_centered_position(text, fit, x, y)`: where the text goes inside the fit box at (x, y). */
  function CenteredPosition(text: Size, fit: Size, x: int, y: int): (p: (real, real))
    ensures p.0 - x as real == (x + fit.width) as real - (p.0 + text.width as real)
    ensures p.1 - y as real == (y + fit.height) as real - (p.1 + text.height as real)
  {
    (x as real + (fit.width - text.width) as real / 2.0,
     y as real + (fit.height - text.height) as real / 2.0)
  }

  /** A caption that fits inside its box is placed inside the box. */
  lemma CenteredInsideBox(text: Size, fit: Size, x: int, y: int)
    requires FitsInside(text, fit) && text.width >= 0 && text.height >= 0
    ensures var p := CenteredPosition(text, fit, x, y);
      && x as real <= p.0 && p.0 + text.width as real <= (x + fit.width) as real
      && y as real <= p.1 && p.1 + text.height as real <= (y + fit.height) as real
  {
  }
}
