/**
 * The part of the Cimpl image library that the filters rely on: colours,
 * images as a width-by-height grid of colours, pixel access and `copy`.
 *
 * An image is an `array2<Color>` indexed `image[x, y]`, where `x` is the
 * column (`0 <= x < image.Length0`, the width) and `y` the row
 * (`0 <= y < image.Length1`, the height), as in Cimpl's
 * `get_color(image, x, y)` and `set_color(image, x, y, colour)`.
 */
module Cimpl {

  /** One colour channel: an integer intensity in 0..255. */
  type Channel = v: int | 0 <= v <= 255

  /** An immutable RGB triple, as built by Cimpl's `create_color`. */
  datatype Color = Color(r: Channel, g: Channel, b: Channel)
  {
    /** The value of one component of this colour. */
    function At(k: Component): Channel
    {
      match k
      case Red => r
      case Green => g
      case Blue => b
    }
  }

  /** Names the three components of a colour. */
  datatype Component = Red | Green | Blue

  const Black: Color := Color(0, 0, 0)
  const White: Color := Color(255, 255, 255)

  /** (x, y) is a pixel coordinate of `image`. */
  predicate InBounds(image: array2<Color>, x: int, y: int)
  {
    0 <= x < image.Length0 && 0 <= y < image.Length1
  }

  /** (x, y) has all eight neighbours inside `image`. */
  predicate Interior(image: array2<Color>, x: int, y: int)
  {
    1 <= x < image.Length0 - 1 && 1 <= y < image.Length1 - 1
  }

  /** Two images have the same width and the same height. */
  predicate SameSize(a: array2<Color>, b: array2<Color>)
  {
    a.Length0 == b.Length0 && a.Length1 == b.Length1
  }

  /** Two images have the same size and the same colour at every pixel. */
  ghost predicate SamePixels(a: array2<Color>, b: array2<Color>)
    reads a, b
  {
    SameSize(a, b) && forall x, y {:trigger b[x, y]} :: InBounds(a, x, y) ==> a[x, y] == b[x, y]
  }

  /** Every pixel of `image` has colour `c`. */
  ghost predicate Uniform(image: array2<Color>, c: Color)
    reads image
  {
    forall x, y {:trigger image[x, y]} :: InBounds(image, x, y) ==> image[x, y] == c
  }

  /**
   * Cimpl's `copy(image)`: a newly allocated image of the same size holding
   * the same colours, sharing no storage with `image`.
   */
  method Copy(image: array2<Color>) returns (result: array2<Color>)
    ensures fresh(result)
    ensures SamePixels(image, result)
  {
    result := new Color[image.Length0, image.Length1]((x, y) reads image
      requires 0 <= x < image.Length0 && 0 <= y < image.Length1 => image[x, y]);
  }
}
