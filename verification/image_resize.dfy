/**
 * The width cap every image script applies before re-encoding
 * (scripts/compress-aggressive.mjs, scripts/compress-images.mjs,
 * scripts/restore-high-quality.mjs): wider images are scaled down to the
 * maximum width and the height follows the aspect ratio, rounded.
 */
module ImageResize {

  datatype Dims = Dims(width: nat, height: nat)

  const AggressiveMaxWidth: nat := 1600
  const StandardMaxWidth: nat := 2400

  /** `Math.round(x)` on a non-negative value: halves round up. */
  function RoundHalfUp(x: real): (r: int)
    ensures x - 0.5 < r as real <= x + 0.5
  {
    (x + 0.5).Floor
  }

  /** The capped dimensions: unchanged up to `maxWidth`; otherwise width
      `maxWidth` and height `round(height / width * maxWidth)`. */
  function Cap(d: Dims, maxWidth: nat): (r: Dims)
    ensures d.width <= maxWidth ==> r == d
    ensures d.width > maxWidth ==> r.width == maxWidth
    ensures r.width <= d.width
  {
    if d.width > maxWidth then
      var exact := (d.height as real / d.width as real) * maxWidth as real;
      DivScale(d.height as real, d.width as real, maxWidth as real);
      Dims(maxWidth, RoundHalfUp(exact))
    else d
  }

  lemma DivScale(h: real, w: real, m: real)
    requires w > 0.0 && 0.0 <= m < w && h >= 0.0
    ensures 0.0 <= (h / w) * m <= h
  {
    assert h / w >= 0.0;
    assert (h / w) * m <= (h / w) * w;
    assert (h / w) * w == h;
  }

  /** A capped height is the proportional height rounded to the nearest
      pixel, so never more than half a pixel off, and never taller than the
      original. */
  lemma CapKeepsAspectRatio(d: Dims, maxWidth: nat)
    requires d.width > maxWidth
    ensures var exact := (d.height as real / d.width as real) * maxWidth as real;
      exact - 0.5 < Cap(d, maxWidth).height as real <= exact + 0.5
    ensures Cap(d, maxWidth).height <= d.height
  {
    var exact := (d.height as real / d.width as real) * maxWidth as real;
    DivScale(d.height as real, d.width as real, maxWidth as real);
    var h := RoundHalfUp(exact);
    assert h >= 0;
    assert h as real <= d.height as real + 0.5;
  }

  /** Capping twice is capping once: a restored or re-compressed image is not
      shrunk again. */
  lemma CapIdempotent(d: Dims, maxWidth: nat)
    ensures Cap(Cap(d, maxWidth), maxWidth) == Cap(d, maxWidth)
  {
  }

  /** The aggressive cap of an image already capped to the standard width is
      the aggressive cap of the original width; heights may differ by rounding. */
  lemma CapsNarrowTogether(d: Dims)
    ensures Cap(Cap(d, StandardMaxWidth), AggressiveMaxWidth).width == Cap(d, AggressiveMaxWidth).width
  {
  }
}
