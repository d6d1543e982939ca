/**
 * Index arithmetic shared by the splash-screen converters.
 *
 * An RGBA bitmap of width w and height h stores pixel (x, y) at pixel index
 * y * w + x (row-major order). A device ("bin") buffer of the same image is
 * stored rotated by 90 degrees: it is addressed as if it had h columns and w
 * rows, and RGBA pixel (x, y) lives at device pixel index x * h + (h - 1 - y).
 */
module Geometry {

  /** Row-major pixel index of (x, y) in an RGBA bitmap of width w. */
  function RgbaPixel(w: nat, x: nat, y: nat): nat
  {
    y * w + x
  }

  /** Pixel index of RGBA pixel (x, y) in the rotated device buffer of an image of height h. */
  function DevicePixel(h: nat, x: nat, y: nat): nat
    requires y < h
  {
    x * h + (h - 1 - y)
  }

  /** Column of the RGBA image that device pixel p belongs to. */
  function DeviceColumn(h: nat, p: nat): nat
    requires 0 < h
  {
    p / h
  }

  /** Row of the RGBA image that device pixel p belongs to. */
  function DeviceRow(h: nat, p: nat): (y: nat)
    requires 0 < h
    ensures y < h
  {
    h - 1 - p % h
  }

  /** Multiplication is monotone in its left factor. */
  lemma MulMonotone(a: int, b: int, d: nat)
    requires a <= b
    ensures a * d <= b * d
  {
    var k := b - a;
    assert b * d == a * d + k * d;
  }

  /** A non-zero multiple of d is at least d away from zero. */
  lemma MulAwayFromZero(k: int, d: nat)
    ensures 1 <= k ==> d <= k * d
    ensures k <= -1 ==> k * d + d <= 0
  {
    if 1 <= k {
      MulMonotone(1, k, d);
    } else if k <= -1 {
      MulMonotone(k, -1, d);
    }
  }

  /** Euclidean division is determined by quotient and remainder. */
  lemma DivModUnique(n: int, d: int, q: int, r: int)
    requires 0 < d && 0 <= r < d && n == q * d + r
    ensures n / d == q && n % d == r
  {
    var q0, r0 := n / d, n % d;
    assert (q - q0) * d == r0 - r;
    MulAwayFromZero(q - q0, d);
  }

  /** The row-major index of an in-range pixel is in range and determines the pixel. */
  lemma RgbaPixelInverse(w: nat, h: nat, x: nat, y: nat)
    requires x < w && y < h
    ensures RgbaPixel(w, x, y) < w * h
    ensures RgbaPixel(w, x, y) % w == x && RgbaPixel(w, x, y) / w == y
  {
    MulMonotone(y + 1, h, w);
    DivModUnique(RgbaPixel(w, x, y), w, y, x);
  }

  /** Every pixel index below w * h is the row-major index of an in-range pixel. */
  lemma RgbaPixelOnto(w: nat, h: nat, p: nat)
    requires p < w * h
    ensures 0 < w && p % w < w && p / w < h
    ensures RgbaPixel(w, p % w, p / w) == p
  {
    MulAwayFromZero(p / w - h + 1, w);
  }

  /** The device index of an in-range pixel is in range and determines the pixel. */
  lemma DevicePixelInverse(w: nat, h: nat, x: nat, y: nat)
    requires x < w && y < h
    ensures DevicePixel(h, x, y) < w * h
    ensures DeviceColumn(h, DevicePixel(h, x, y)) == x
    ensures DeviceRow(h, DevicePixel(h, x, y)) == y
  {
    MulMonotone(x + 1, w, h);
    DivModUnique(DevicePixel(h, x, y), h, x, h - 1 - y);
  }

  /** Every device index below w * h is the device index of an in-range pixel. */
  lemma DevicePixelOnto(w: nat, h: nat, p: nat)
    requires p < w * h
    ensures 0 < h && DeviceColumn(h, p) < w
    ensures DevicePixel(h, DeviceColumn(h, p), DeviceRow(h, p)) == p
  {
    MulAwayFromZero(p / h - w + 1, h);
  }

  /**
   * The rotation (x, y) |-> x * h + (h - 1 - y) is a bijection from the
   * w-by-h pixel grid onto [0, w * h).
   */
  lemma RotationIsBijection(w: nat, h: nat)
    ensures forall x: nat, y: nat :: x < w && y < h ==> DevicePixel(h, x, y) < w * h
    ensures forall x1: nat, y1: nat, x2: nat, y2: nat ::
              x1 < w && y1 < h && x2 < w && y2 < h && DevicePixel(h, x1, y1) == DevicePixel(h, x2, y2)
              ==> x1 == x2 && y1 == y2
    ensures forall p: nat :: p < w * h ==>
              0 < h && DeviceColumn(h, p) < w && DevicePixel(h, DeviceColumn(h, p), DeviceRow(h, p)) == p
  {
    forall x: nat, y: nat | x < w && y < h
      ensures DevicePixel(h, x, y) < w * h
      ensures DeviceColumn(h, DevicePixel(h, x, y)) == x && DeviceRow(h, DevicePixel(h, x, y)) == y
    {
      DevicePixelInverse(w, h, x, y);
    }
    forall p: nat | p < w * h
      ensures 0 < h && DeviceColumn(h, p) < w && DevicePixel(h, DeviceColumn(h, p), DeviceRow(h, p)) == p
    {
      DevicePixelOnto(w, h, p);
    }
  }
}
