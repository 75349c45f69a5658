/**
 * The infinite three-column image carousel that takes over the mouse wheel
 * (src/components/ui/executive-impact-carousel.tsx).
 *
 * Each column shows four copies of five images; its vertical offset in pixels
 * is kept inside the loop range [-2 * height, 0), where `height` is the height
 * of one copy.  A wheel event is consumed by the carousel only while it is
 * active (hovered, or the page signals that it is at its scroll end) and the
 * escape rule does not hand it back to the page.
 */
module WheelCarousel {
  import opened Options

  // ---------------------------------------------------------------------
  // Column contents
  // ---------------------------------------------------------------------

  const Images: seq<string> := [
    "/images/carousel2/191129_B_I_BEAUTY_05.jpg",
    "/images/portfolio/chromatic-study.jpg",
    "/images/carousel2/Beauty Adjacent : Benjamin Vnuk .jpg",
    "/images/portfolio/scarlet-kiss.jpg",
    "/images/carousel2/Studio Nicholson .jpg",
    "/images/portfolio/cover-vogue.jpg",
    "/images/carousel2/Net A Porter .jpg",
    "/images/portfolio/editorial-outdoor.jpg",
    "/images/carousel2/Wallpaper Magazine .jpg",
    "/images/portfolio/lovewant-georgia.jpg",
    "/images/carousel2/Beauty : Jack Grange .jpg",
    "/images/portfolio/net-a-porter.jpg",
    "/images/carousel2/Olivia Petronella Palermo_LOVEWANT35 copy.jpg",
    "/images/portfolio/home-background.jpg",
    "/images/carousel2/IMG_9310 copy.jpg"
  ]

  /** Images per column, and how many copies of them a column holds. */
  const ColumnSize: nat := 5
  const Copies: nat := 4

  /** The five images of column `k` (0, 1 or 2): `IMAGES.slice(5k, 5k + 5)`. */
  function Column(k: nat): (c: seq<string>)
    requires k < 3
    ensures |c| == ColumnSize
    ensures forall j :: 0 <= j < ColumnSize ==> c[j] == Images[ColumnSize * k + j]
  {
    Images[ColumnSize * k .. ColumnSize * k + ColumnSize]
  }

  /** The three columns, laid end to end, are exactly the image list. */
  lemma ColumnsPartitionImages()
    ensures Column(0) + Column(1) + Column(2) == Images
  {
    assert Images == Images[..5] + Images[5..10] + Images[10..];
  }

  /** `[...s, ...s, ...s, ...s]`: element i of the loop is element i mod |s| of s. */
  function Quadruple(s: seq<string>): (r: seq<string>)
    ensures |r| == Copies * |s|
    ensures forall i :: 0 <= i < |r| ==> r[i] == s[i % |s|]
  {
    var r := s + s + s + s;
    var n := |s|;
    forall i | 0 <= i < |r| ensures r[i] == s[i % n] {
      assert n > 0;
      if i < n {
        ModInBlock(i, n, 0);
      } else if i < 2 * n {
        ModInBlock(i, n, 1);
      } else if i < 3 * n {
        ModInBlock(i, n, 2);
      } else {
        ModInBlock(i, n, 3);
      }
    }
    r
  }

  lemma ModInBlock(i: int, n: int, q: int)
    requires n > 0 && 0 <= q < 4 && q * n <= i < q * n + n
    ensures i % n == i - q * n
  {
  }

  /** The rendered image source of position `i` in the loop of column `k`. */
  lemma LoopPositionShowsColumnImage(k: nat, i: nat)
    requires k < 3 && i < Copies * ColumnSize
    ensures Quadruple(Column(k))[i] == Images[ColumnSize * k + i % ColumnSize]
  {
    assert |Column(k)| == ColumnSize;
  }

  // ---------------------------------------------------------------------
  // wrapValue
  // ---------------------------------------------------------------------

  /** `v` moved by `k` whole ranges of the interval [min, max). */
  function Shift(v: real, k: int, min: real, max: real): real {
    v + k as real * (max - min)
  }

  /** `v` shifted by a whole number of ranges into the half-open interval
      [min, max): the value the two loops of wrapValue stop at. */
  function Wrap(v: real, min: real, max: real): real
    requires min < max
  {
    Shift(v, -((v - min) / (max - min)).Floor, min, max)
  }

  /** `r` lies in [min, max) and differs from `v` by a whole number of ranges. */
  ghost predicate IsWrapOf(r: real, v: real, min: real, max: real) {
    min <= r < max && exists k: int :: r == Shift(v, k, min, max)
  }

  lemma WrapIsWrapOf(v: real, min: real, max: real)
    requires min < max
    ensures IsWrapOf(Wrap(v, min, max), v, min, max)
  {
    var f := ((v - min) / (max - min)).Floor;
    FloorScaled(v - min, max - min);
    assert Wrap(v, min, max) == Shift(v, -f, min, max);
  }

  /** floor(a / range) ranges fit into a, and one more does not. */
  lemma FloorScaled(a: real, range: real)
    requires range > 0.0
    ensures (a / range).Floor as real * range <= a
    ensures a < (a / range).Floor as real * range + range
  {
    var q := a / range;
    var f := q.Floor as real;
    DivTimes(a, range);
    assert q * range == a;
    ScaleMonotone(f, q, range);
    assert f * range <= a;
    ScaleStrict(q, f + 1.0, range);
    assert a < (f + 1.0) * range;
    assert (f + 1.0) * range == f * range + range;
  }

  /** Two shifts that differ by at least one whole range are at least a range apart. */
  lemma ShiftGap(v: real, k: int, j: int, min: real, max: real)
    requires min < max && k - j >= 1
    ensures Shift(v, k, min, max) - Shift(v, j, min, max) >= max - min
  {
    var range := max - min;
    ScaleMonotone(1.0, (k - j) as real, range);
    assert Shift(v, k, min, max) - Shift(v, j, min, max) == (k - j) as real * range;
  }

  /** At most one value in [min, max) is congruent to `v`: wrapping is a function. */
  lemma WrapUnique(r: real, v: real, min: real, max: real, k: int)
    requires min < max
    requires min <= r < max && r == Shift(v, k, min, max)
    ensures r == Wrap(v, min, max)
  {
    WrapIsWrapOf(v, min, max);
    var w := Wrap(v, min, max);
    var j: int :| w == Shift(v, j, min, max);
    if k - j >= 1 {
      ShiftGap(v, k, j, min, max);
    } else if j - k >= 1 {
      ShiftGap(v, j, k, min, max);
    }
  }

  /** A value already inside the range is left alone. */
  lemma WrapIdentity(v: real, min: real, max: real)
    requires min <= v < max
    ensures Wrap(v, min, max) == v
  {
    WrapUnique(v, v, min, max, 0);
  }

  // Small facts of real arithmetic, kept apart so that each proof stays linear.

  lemma ShiftNext(v: real, k: int, min: real, max: real)
    ensures Shift(v, k + 1, min, max) == Shift(v, k, min, max) + (max - min)
    ensures Shift(v, k - 1, min, max) == Shift(v, k, min, max) - (max - min)
  {
  }

  lemma DivTimes(a: real, range: real)
    requires range > 0.0
    ensures (a / range) * range == a
  {
  }

  lemma ScaleMonotone(x: real, y: real, range: real)
    requires x <= y && range > 0.0
    ensures x * range <= y * range
  {
  }

  lemma ScaleStrict(x: real, y: real, range: real)
    requires x < y && range > 0.0
    ensures x * range < y * range
  {
  }

  lemma CancelScale(x: real, y: real, range: real)
    requires range > 0.0 && x * range == y * range
    ensures x == y
  {
    if x < y {
      ScaleStrict(x, y, range);
    } else if y < x {
      ScaleStrict(y, x, range);
    }
  }

  /** Moving the numerator down by one range moves the quotient's floor down by one. */
  lemma FloorStep(a: real, range: real)
    requires range > 0.0
    ensures ((a - range) / range).Floor == (a / range).Floor - 1
  {
    DivTimes(a, range);
    DivTimes(a - range, range);
    CancelScale((a - range) / range, a / range - 1.0, range);
  }

  /** The two while loops of wrapValue, with the range required positive:
      with `max <= min` they never exit (see ZeroRangeNeverSettles). */
  method WrapValue(v: real, min: real, max: real) returns (r: real)
    requires min < max
    ensures min <= r < max
    ensures r == Wrap(v, min, max)
  {
    var range := max - min;
    var value := v;
    ghost var k: int := 0;
    while value < min
      invariant value == Shift(v, k, min, max)
      decreases ((min - value) / range).Floor + 1
    {
      FloorStep(min - value, range);
      ShiftNext(v, k, min, max);
      value := value + range;
      k := k + 1;
    }
    while value >= max
      invariant min <= value
      invariant value == Shift(v, k, min, max)
      decreases ((value - max) / range).Floor + 1
    {
      FloorStep(value - max, range);
      ShiftNext(v, k, min, max);
      value := value - range;
      k := k - 1;
    }
    WrapUnique(value, v, min, max, k);
    r := value;
  }

  /** One iteration of whichever wrapValue loop is running on `v`. */
  function WrapStep(v: real, min: real, max: real): real {
    if v < min then v + (max - min)
    else if v >= max then v - (max - min)
    else v
  }

  function WrapSteps(v: real, min: real, max: real, n: nat): real {
    if n == 0 then v else WrapStep(WrapSteps(v, min, max, n - 1), min, max)
  }

  /** With an empty range (both heights still 0 before they are measured) every
      loop iteration leaves the value where it was; as every value satisfies
      one of the two loop conditions, wrapValue does not terminate. */
  lemma {:induction false} ZeroRangeNeverSettles(v: real, m: real, n: nat)
    ensures WrapSteps(v, m, m, n) == v
  {
    if n > 0 {
      ZeroRangeNeverSettles(v, m, n - 1);
    }
  }

  // ---------------------------------------------------------------------
  // Wheel arbitration and the carousel state
  // ---------------------------------------------------------------------

  /** The wheel sensitivity factor. */
  const Sensitivity: real := 0.8

  /** Loop range of a column whose single copy is `height` pixels tall. */
  ghost predicate InLoopRange(offset: real, height: real) {
    -2.0 * height <= offset < 0.0
  }

  /** The escape rule: scrolling up while column 1 is in the upper half of its
      range hands the wheel back to the page. */
  predicate Escapes(delta: real, col1: real, height1: real) {
    delta < 0.0 && col1 <= -height1 * 0.5
  }

  /** Whether the carousel consumes (prevents) a wheel event. */
  predicate Consumes(active: bool, delta: real, col1: real, height1: real) {
    active && !Escapes(delta, col1, height1)
  }

  lemma InactiveNeverConsumes(delta: real, col1: real, height1: real)
    ensures !Consumes(false, delta, col1, height1)
  {
  }

  lemma DownwardWheelAlwaysConsumedWhenActive(delta: real, col1: real, height1: real)
    requires delta >= 0.0
    ensures Consumes(true, delta, col1, height1)
  {
  }

  class Carousel {
    var isHovered: bool
    var isAtScrollEnd: bool
    // scrollY.current
    var col1: real
    var col2: real
    var col3: real
    // contentHeights.current
    var height1: real
    var height2: real
    var height3: real

    /** Heights are never negative; a measured column's offset is in its loop range. */
    ghost predicate Valid()
      reads this
    {
      && height1 >= 0.0 && height2 >= 0.0 && height3 >= 0.0
      && (height1 > 0.0 ==> InLoopRange(col1, height1))
      && (height2 > 0.0 ==> InLoopRange(col2, height2))
      && (height3 > 0.0 ==> InLoopRange(col3, height3))
    }

    /** `isActive = isHovered || isAtScrollEnd`. */
    predicate IsActive()
      reads this
    {
      isHovered || isAtScrollEnd
    }

    /** All three columns have been measured with a non-zero height. */
    predicate Measured()
      reads this
    {
      height1 > 0.0 && height2 > 0.0 && height3 > 0.0
    }

    constructor (isAtScrollEnd: bool)
      ensures Valid() && !Measured()
      ensures this.isAtScrollEnd == isAtScrollEnd && !isHovered
      ensures col1 == 0.0 && col2 == 0.0 && col3 == 0.0
      ensures height1 == 0.0 && height2 == 0.0 && height3 == 0.0
    {
      this.isAtScrollEnd := isAtScrollEnd;
      isHovered := false;
      col1, col2, col3 := 0.0, 0.0, 0.0;
      height1, height2, height3 := 0.0, 0.0, 0.0;
    }

    method MouseEnter()
      requires Valid()
      modifies this`isHovered
      ensures Valid() && isHovered && IsActive()
    {
      isHovered := true;
    }

    method MouseLeave()
      requires Valid()
      modifies this`isHovered
      ensures Valid() && !isHovered
      ensures IsActive() == isAtScrollEnd
    {
      isHovered := false;
    }

    method SetAtScrollEnd(atEnd: bool)
      requires Valid()
      modifies this`isAtScrollEnd
      ensures Valid() && isAtScrollEnd == atEnd
    {
      isAtScrollEnd := atEnd;
    }

    /** `updateHeights`, run 100 ms after mount and on every resize.  Each
        argument is the column's `scrollHeight`, or None while its ref is not
        mounted (the stored height is then kept).  Every offset is reset to
        minus its height: the second of the four copies is shown. */
    method UpdateHeights(scroll1: Option<nat>, scroll2: Option<nat>, scroll3: Option<nat>)
      requires Valid()
      modifies this`height1, this`height2, this`height3, this`col1, this`col2, this`col3
      ensures Valid()
      ensures height1 == (if scroll1.Some? then scroll1.value as real / Copies as real else old(height1))
      ensures height2 == (if scroll2.Some? then scroll2.value as real / Copies as real else old(height2))
      ensures height3 == (if scroll3.Some? then scroll3.value as real / Copies as real else old(height3))
      ensures col1 == -height1 && col2 == -height2 && col3 == -height3
    {
      if scroll1.Some? {
        height1 := scroll1.value as real / Copies as real;
      }
      if scroll2.Some? {
        height2 := scroll2.value as real / Copies as real;
      }
      if scroll3.Some? {
        height3 := scroll3.value as real / Copies as real;
      }
      col1 := -height1;
      col2 := -height2;
      col3 := -height3;
    }

    /** `handleWheel`.  Returns whether the event was prevented (consumed by
        the carousel rather than the page).  Wrapping needs every height
        positive, which is why the event may only be consumed once measured. */
    method Wheel(deltaY: real) returns (prevented: bool)
      requires Valid()
      requires Consumes(IsActive(), deltaY * Sensitivity, col1, height1) ==> Measured()
      modifies this`col1, this`col2, this`col3
      ensures Valid()
      ensures prevented == Consumes(IsActive(), deltaY * Sensitivity, old(col1), height1)
      ensures !IsActive() ==> !prevented
      ensures !prevented ==> col1 == old(col1) && col2 == old(col2) && col3 == old(col3)
      ensures prevented ==>
        && col1 == Wrap(old(col1) - deltaY * Sensitivity, -height1 * 2.0, 0.0)
        && col2 == Wrap(old(col2) + deltaY * Sensitivity, -height2 * 2.0, 0.0)
        && col3 == Wrap(old(col3) - deltaY * Sensitivity, -height3 * 2.0, 0.0)
    {
      if !IsActive() {
        return false;
      }
      var delta := deltaY * Sensitivity;
      if delta < 0.0 && col1 <= -height1 * 0.5 {
        return false;
      }
      prevented := true;
      col1 := WrapValue(col1 - delta, -height1 * 2.0, 0.0);
      col3 := WrapValue(col3 - delta, -height3 * 2.0, 0.0);
      col2 := WrapValue(col2 + delta, -height2 * 2.0, 0.0);
    }
  }

  /** A small wheel step that stays inside the loop range moves the columns by
      exactly -delta and +delta, with no wrap. */
  lemma SmallStepNeedsNoWrap(c1: real, c2: real, h1: real, h2: real, delta: real)
    requires h1 > 0.0 && h2 > 0.0
    requires InLoopRange(c1 - delta, h1) && InLoopRange(c2 + delta, h2)
    ensures Wrap(c1 - delta, -h1 * 2.0, 0.0) == c1 - delta
    ensures Wrap(c2 + delta, -h2 * 2.0, 0.0) == c2 + delta
  {
    WrapIdentity(c1 - delta, -h1 * 2.0, 0.0);
    WrapIdentity(c2 + delta, -h2 * 2.0, 0.0);
  }
}
