/** Pixel values of the CPU renderer and the two per-pixel helpers it uses:
    the flat-index-to-coordinate map of the worker loop and `clamp`. */
module Pixels {

  /** The source's `float3`: one colour, used for every pixel of the buffer.
      Float channels are modelled as exact reals. */
  datatype Float3 = Float3(x: real, y: real, z: real)

  /** Largest value of a 32-bit C `int`, the type of every index in the renderer. */
  const Int32Max: int := 0x7fff_ffff

  /** `clamp(val, min, max)`: two comparisons, no arithmetic. */
  function Clamp(val: real, min: real, max: real): (r: real)
    ensures r == min || r == max || r == val
    ensures min <= max ==> min <= r <= max
    ensures min <= val <= max ==> r == val
  {
    if val < min then min
    else if val > max then max
    else val
  }

  /** With a non-empty interval, the clamped value is the point of [min, max]
      nearest to `val`. */
  lemma ClampIsNearest(val: real, min: real, max: real, z: real)
    requires min <= max
    requires min <= z <= max
    ensures Dist(Clamp(val, min, max), val) <= Dist(z, val)
  {
  }

  function Dist(a: real, b: real): real
  {
    if a <= b then b - a else a - b
  }

  /** Clamping twice is clamping once. */
  lemma ClampIdempotent(val: real, min: real, max: real)
    requires min <= max
    ensures Clamp(Clamp(val, min, max), min, max) == Clamp(val, min, max)
  {
  }

  /** Clamping preserves the order of its inputs. */
  lemma ClampMonotone(a: real, b: real, min: real, max: real)
    requires min <= max && a <= b
    ensures Clamp(a, min, max) <= Clamp(b, min, max)
  {
  }

  /** Every channel clamped to [0, 1]. */
  function ClampColor(c: Float3): (r: Float3)
    ensures InUnit(r)
    ensures InUnit(c) ==> r == c
  {
    Float3(Clamp(c.x, 0.0, 1.0), Clamp(c.y, 0.0, 1.0), Clamp(c.z, 0.0, 1.0))
  }

  /** All three channels lie in [0, 1]. */
  predicate InUnit(c: Float3)
  {
    0.0 <= c.x <= 1.0 && 0.0 <= c.y <= 1.0 && 0.0 <= c.z <= 1.0
  }

  /** The worker's map from a flat pixel index to `(x, y)`: `x = i % width`,
      `y = i / width`. For non-negative operands C's truncating `%` and `/`
      agree with Dafny's. */
  function PixelCoord(i: nat, width: nat): (c: (nat, nat))
    requires width > 0
    ensures c.0 < width
    ensures c.1 * width + c.0 == i
  {
    (i % width, i / width)
  }

  /** The flattened pixel index `y * width + x`. */
  function FlatIndex(x: nat, y: nat, width: nat): nat
  {
    y * width + x
  }

  /** An index of a `width * height` image names a pixel inside the image. */
  lemma CoordInImage(i: nat, width: nat, height: nat)
    requires width > 0 && i < width * height
    ensures PixelCoord(i, width).1 < height
    ensures FlatIndex(PixelCoord(i, width).0, PixelCoord(i, width).1, width) == i
  {
    var (x, y) := PixelCoord(i, width);
    if y >= height {
      MulMono(height, y, width);
      assert false;
    }
  }

  /** Decoding an encoded coordinate gives the coordinate back. */
  lemma CoordRoundTrip(x: nat, y: nat, width: nat)
    requires x < width
    ensures PixelCoord(FlatIndex(x, y, width), width) == (x, y)
  {
    var i := FlatIndex(x, y, width);
    var (x', y') := PixelCoord(i, width);
    if y' < y {
      MulMono(y' + 1, y, width);
      assert false;
    } else if y < y' {
      MulMono(y + 1, y', width);
      assert false;
    }
  }

  /** Every pixel of the image is the decoding of exactly one flat index. */
  lemma FlatIndexInImage(x: nat, y: nat, width: nat, height: nat)
    requires x < width && y < height
    ensures FlatIndex(x, y, width) < width * height
  {
    MulMono(y + 1, height, width);
  }

  /** Multiplication by a non-negative factor is monotone. */
  lemma MulMono(a: int, b: int, q: int)
    requires a <= b && q >= 0
    ensures a * q <= b * q
  {
    assert b * q - a * q == (b - a) * q;
  }
}
