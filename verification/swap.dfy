/** Relocation of a window rectangle from one monitor to another (swap.rs).

    All coordinates live in one virtual-desktop space shared by every monitor;
    monitors left of or above the primary display have negative coordinates.
    A monitor may carry a sub-rectangle, given relative to the monitor's
    top-left corner, that narrows the region being swapped.

    The `i32` additions and subtractions of swap.rs panic when they overflow.
    Every operation here returns `None` wherever swap.rs would panic, so it
    is total and its error path is explicit. */
module Swap {
  import opened Arith
  import opened Wrappers

  /** An integer rectangle. Nothing forces `left <= right` or `top <= bottom`. */
  datatype Rect = Rect(left: i32, right: i32, top: i32, bottom: i32)

  function Width(r: Rect): int {
    r.right - r.left
  }

  function Height(r: Rect): int {
    r.bottom - r.top
  }

  /** The four sums `Translate` computes fit in an `i32`. */
  predicate CanTranslate(r: Rect, x: int, y: int) {
    && IsI32(r.left + x) && IsI32(r.right + x)
    && IsI32(r.top + y) && IsI32(r.bottom + y)
  }

  /** `Rect::translate`: shift by `x` horizontally and `y` vertically. */
  function Translate(r: Rect, x: i32, y: i32): (t: Rect)
    requires CanTranslate(r, x, y)
    ensures Width(t) == Width(r) && Height(t) == Height(r)
    ensures t.left - r.left == x && t.top - r.top == y
  {
    Rect(r.left + x, r.right + x, r.top + y, r.bottom + y)
  }

  /** Shifting back by the opposite vector restores the rectangle. */
  lemma TranslateInverse(r: Rect, x: i32, y: i32)
    requires CanTranslate(r, x, y) && IsI32(-(x as int)) && IsI32(-(y as int))
    ensures CanTranslate(Translate(r, x, y), -x, -y)
    ensures Translate(Translate(r, x, y), -x, -y) == r
  {
  }

  /** Two shifts in a row are one shift by the summed vector. */
  lemma TranslateCompose(r: Rect, x1: i32, y1: i32, x2: i32, y2: i32)
    requires CanTranslate(r, x1, y1)
    requires CanTranslate(Translate(r, x1, y1), x2, y2)
    requires IsI32(x1 + x2) && IsI32(y1 + y2)
    ensures CanTranslate(r, x1 + x2, y1 + y2)
    ensures Translate(Translate(r, x1, y1), x2, y2) == Translate(r, x1 + x2, y1 + y2)
  {
  }

  /** A monitor's full extent and the optional part of it being swapped. */
  datatype MonitorInfo = MonitorInfo(rect: Rect, subRect: Option<Rect>)

  /** `MonitorInfo::New`: a whole monitor, with no sub-rectangle. */
  function NewMonitor(left: i32, right: i32, top: i32, bottom: i32): (m: MonitorInfo)
    ensures m.subRect.None?
    ensures m.rect.left == left && m.rect.right == right
    ensures m.rect.top == top && m.rect.bottom == bottom
    ensures MonitorRegion(m) == Some(m.rect)
  {
    MonitorInfo(Rect(left, right, top, bottom), None)
  }

  /** `get_monitor_region`: the absolute region a monitor stands for, or
      `None` when resolving the sub-rectangle against the monitor's corner
      overflows. */
  function MonitorRegion(m: MonitorInfo): (r: Option<Rect>)
    ensures m.subRect.None? ==> r == Some(m.rect)
    ensures m.subRect.Some? ==> (r.Some? <==> CanTranslate(m.subRect.value, m.rect.left, m.rect.top))
    ensures m.subRect.Some? && r.Some? ==>
      && Width(r.value) == Width(m.subRect.value) && Height(r.value) == Height(m.subRect.value)
      && r.value.left - m.rect.left == m.subRect.value.left
      && r.value.top - m.rect.top == m.subRect.value.top
  {
    match m.subRect
    case None => Some(m.rect)
    case Some(sub) =>
      if CanTranslate(sub, m.rect.left, m.rect.top) then
        Some(Rect(m.rect.left + sub.left, m.rect.left + sub.right,
                  m.rect.top + sub.top, m.rect.top + sub.bottom))
      else
        None
  }

  /** A sub-rectangle covering the whole monitor resolves to the monitor itself. */
  lemma WholeSubRectIsMonitor(m: MonitorInfo)
    requires IsI32(Width(m.rect)) && IsI32(Height(m.rect))
    requires m.subRect == Some(Rect(0, m.rect.right - m.rect.left, 0, m.rect.bottom - m.rect.top))
    ensures MonitorRegion(m) == Some(m.rect)
  {
  }

  /** The subtractions `are_same_size` performs fit in an `i32`. The heights
      are only computed when the widths agree, because `&&` short-circuits. */
  predicate SizeInRange(a: Rect, b: Rect) {
    && IsI32(Width(a)) && IsI32(Width(b))
    && (Width(a) == Width(b) ==> IsI32(Height(a)) && IsI32(Height(b)))
  }

  /** `are_same_size`: two rectangles have the same size exactly when one is
      a translate of the other, by the difference of their top-left corners. */
  function SameSize(a: Rect, b: Rect): (same: bool)
    requires SizeInRange(a, b)
    ensures IsI32(b.left - a.left) && IsI32(b.top - a.top) ==>
      (same <==> CanTranslate(a, b.left - a.left, b.top - a.top) && Translate(a, b.left - a.left, b.top - a.top) == b)
  {
    (a.right - a.left) == (b.right - b.left) && (a.bottom - a.top) == (b.bottom - b.top)
  }

  lemma SameSizeReflexive(a: Rect)
    requires IsI32(Width(a)) && IsI32(Height(a))
    ensures SizeInRange(a, a) && SameSize(a, a)
  {
  }

  lemma SameSizeSymmetric(a: Rect, b: Rect)
    requires SizeInRange(a, b)
    ensures SizeInRange(b, a) && SameSize(a, b) == SameSize(b, a)
  {
  }

  /** `d` is what converting `num / 0` to `i32` gives: a non-zero numerator
      makes an infinity, clamped to the bound of its sign, and `0 / 0` makes
      NaN, which converts to 0. */
  predicate IsEmptySpanQuotient(d: int, num: int) {
    && (num > 0 ==> d == I32_MAX)
    && (num < 0 ==> d == I32_MIN)
    && (num == 0 ==> d == 0)
  }

  /** `(offset as f64 / fromSpan as f64 * toSpan as f64) as i32`, with the
      floating-point ratio taken exactly: the quotient `offset * toSpan /
      fromSpan` rounded toward zero and clamped to the `i32` range. Over an
      empty source span the division gives NaN (for a zero offset) or an
      infinity, an infinity times a zero span is NaN again, and the
      conversion turns NaN into 0 and an infinity into the bound of its
      sign. */
  function Scale(offset: int, fromSpan: int, toSpan: int): (r: i32)
    ensures fromSpan != 0 ==> IsSaturatedQuotient(r, offset * toSpan, fromSpan)
    ensures fromSpan == 0 ==> IsEmptySpanQuotient(r, offset * toSpan)
  {
    if fromSpan != 0 then
      SaturateTruncDiv(offset * toSpan, fromSpan);
      Saturate(TruncDiv(offset * toSpan, fromSpan))
    else if offset == 0 || toSpan == 0 then
      0
    else
      SignOfProduct(offset, toSpan);
      if (offset < 0) == (toSpan < 0) then I32_MAX else I32_MIN
  }

  /** An offset at the start of the source span lands at the start of the
      destination span, and, for a non-empty source span, one at its end
      lands exactly at the end. */
  lemma ScaleSnapsToEnds(fromSpan: int, toSpan: i32)
    ensures Scale(0, fromSpan, toSpan) == 0
    ensures fromSpan != 0 ==> Scale(fromSpan, fromSpan, toSpan) == toSpan
  {
    if fromSpan != 0 {
      TruncDivOfMultiple(0, fromSpan);
      assert fromSpan * toSpan == toSpan * fromSpan;
      TruncDivOfMultiple(toSpan, fromSpan);
    }
  }

  /** With a positive source span and a non-negative destination span, scaling
      keeps the order of the offsets. */
  lemma ScaleMonotone(o1: int, o2: int, fromSpan: int, toSpan: int)
    requires fromSpan > 0 && toSpan >= 0 && o1 <= o2
    ensures Scale(o1, fromSpan, toSpan) <= Scale(o2, fromSpan, toSpan)
  {
    MulMonotone(o1, o2, toSpan);
    TruncDivMonotone(o1 * toSpan, o2 * toSpan, fromSpan);
  }

  /** Scaling up by a whole factor and back down again is exact. */
  lemma ScaleRoundTripOnMultiple(offset: i32, fromSpan: int, k: int)
    requires fromSpan != 0 && k != 0
    requires IsI32(offset * k)
    ensures Scale(offset, fromSpan, fromSpan * k) == offset * k
    ensures Scale(Scale(offset, fromSpan, fromSpan * k), fromSpan * k, fromSpan) == offset
  {
    assert offset * (fromSpan * k) == (offset * k) * fromSpan;
    TruncDivOfMultiple(offset * k, fromSpan);
    assert (offset * k) * fromSpan == offset * (fromSpan * k);
    assert fromSpan * k != 0;
    TruncDivOfMultiple(offset, fromSpan * k);
  }

  /** Remapping an offset within the source span onto a span at least as
      long, and back, returns it or one less: the first conversion loses
      less than one destination unit, which is at most one source unit. */
  lemma GrowRoundTripWithinOne(o: nat, fromSpan: int, toSpan: int)
    requires 0 < fromSpan <= toSpan && IsI32(toSpan) && o <= fromSpan
    ensures o - 1 <= Scale(Scale(o, fromSpan, toSpan), toSpan, fromSpan) <= o
  {
    var a := Scale(o, fromSpan, toSpan);
    ScaleWithinSpan(o, fromSpan, toSpan);
    ScaleWithinSpan(a, toSpan, fromSpan);
    var b := Scale(a, toSpan, fromSpan);
    DivBounds(o * toSpan, fromSpan);
    DivBounds(a * fromSpan, toSpan);
    RoundTripBounds(o, a, b, fromSpan, toSpan);
  }

  /** On an offset within a positive source span and a non-negative
      destination span, `Scale` is plain floor division, inside the
      destination span. */
  lemma ScaleWithinSpan(o: nat, fromSpan: int, toSpan: int)
    requires 0 < fromSpan && 0 <= toSpan && IsI32(toSpan) && o <= fromSpan
    ensures o * toSpan >= 0
    ensures Scale(o, fromSpan, toSpan) == (o * toSpan) / fromSpan
    ensures 0 <= Scale(o, fromSpan, toSpan) <= toSpan
  {
    MulNonNeg(o, toSpan);
    NonNegativeQuotient(o * toSpan, fromSpan);
    AxisWithin(o, o, 0, fromSpan, toSpan);
  }

  /** The integer core of `GrowRoundTripWithinOne`: two floor divisions, the
      second by the longer span. */
  lemma RoundTripBounds(o: int, a: int, b: int, f: int, t: int)
    requires 0 < f <= t
    requires a * f <= o * t < a * f + f
    requires b * t <= a * f < b * t + t
    ensures o - 1 <= b <= o
  {
    assert (o + 1) * t == o * t + t;
    assert (b + 2) * t == b * t + 2 * t;
    if b > o {
      MulMonotone(o + 1, b, t);
    }
    if b + 2 <= o {
      MulMonotone(b + 2, o, t);
    }
  }

  /** Onto a shorter span the bound fails: shrinking by three, an offset two
      units inside the source span lands on the destination's corner and
      comes back flush with the source's corner, two units off. */
  lemma ShrinkRoundTripMissesByTwo(toSpan: int)
    requires toSpan > 0 && IsI32(3 * toSpan)
    ensures Scale(2, 3 * toSpan, toSpan) == 0
    ensures Scale(Scale(2, 3 * toSpan, toSpan), toSpan, 3 * toSpan) == 0
  {
    NonNegativeQuotient(2 * toSpan, 3 * toSpan);
    FloorUnique(0, 2 * toSpan, 3 * toSpan);
    ScaleSnapsToEnds(toSpan, (3 * toSpan) as i32);
  }

  /** The differences the proportional path computes before converting to
      floating point fit in an `i32`. */
  predicate OffsetsInRange(from: Rect, to: Rect, window: Rect) {
    && IsI32(Width(from)) && IsI32(window.left - from.left) && IsI32(window.right - from.left)
    && IsI32(Height(from)) && IsI32(window.top - from.top) && IsI32(window.bottom - from.top)
    && IsI32(Width(to)) && IsI32(Height(to))
  }

  /** The four edges the proportional path places, each the destination
      monitor's corner plus a converted offset, fit in an `i32`. */
  predicate EdgesInRange(from: Rect, to: Rect, window: Rect) {
    && IsI32(to.left + Scale(window.left - from.left, Width(from), Width(to)))
    && IsI32(to.left + Scale(window.right - from.left, Width(from), Width(to)))
    && IsI32(to.top + Scale(window.top - from.top, Height(from), Height(to)))
    && IsI32(to.top + Scale(window.bottom - from.top, Height(from), Height(to)))
  }

  /** The proportional path of `calculate_swap_coords`, on the monitors' full
      rectangles; `None` exactly when an `i32` operation overflows. What each
      edge becomes is stated by `ProportionalSwapEdges`, and
      `ProportionalSwapWithinMonitor` gives the inputs on which it is always
      defined. */
  function ProportionalSwap(from: Rect, to: Rect, window: Rect): (r: Option<Rect>)
    ensures r.Some? <==> OffsetsInRange(from, to, window) && EdgesInRange(from, to, window)
  {
    if !OffsetsInRange(from, to, window) then
      None
    else
      var left := to.left + Scale(window.left - from.left, Width(from), Width(to));
      var right := to.left + Scale(window.right - from.left, Width(from), Width(to));
      var top := to.top + Scale(window.top - from.top, Height(from), Height(to));
      var bottom := to.top + Scale(window.bottom - from.top, Height(from), Height(to));
      if IsI32(left) && IsI32(right) && IsI32(top) && IsI32(bottom) then
        Some(Rect(left, right, top, bottom))
      else
        None
  }

  /** Both regions resolve and `are_same_size` can compare them. */
  predicate RegionsComparable(from: MonitorInfo, to: MonitorInfo) {
    && MonitorRegion(from).Some? && MonitorRegion(to).Some?
    && SizeInRange(MonitorRegion(from).value, MonitorRegion(to).value)
  }

  /** `calculate_swap_coords` takes its equal-size path. */
  predicate SameSizeRegions(from: MonitorInfo, to: MonitorInfo) {
    RegionsComparable(from, to) && SameSize(MonitorRegion(from).value, MonitorRegion(to).value)
  }

  /** `calculate_swap_coords` takes its proportional path. */
  predicate DifferentSizeRegions(from: MonitorInfo, to: MonitorInfo) {
    RegionsComparable(from, to) && !SameSize(MonitorRegion(from).value, MonitorRegion(to).value)
  }

  /** `calculate_swap_coords`, or `None` where it panics on overflow. When the
      two regions have the same size the window is translated, horizontally
      by the destination region's left minus the source monitor's left and
      vertically by the difference of the monitors' tops. Otherwise every
      edge is placed at the same fraction of the destination monitor's span
      as it had of the source monitor's span on its own axis, rounded toward
      zero; the proportional path uses the monitors' full rectangles, not
      their regions. */
  function SwapCoords(from: MonitorInfo, to: MonitorInfo, window: Rect): (r: Option<Rect>)
    ensures !RegionsComparable(from, to) ==> r.None?
    ensures SameSizeRegions(from, to) && r.Some? ==>
      && Width(r.value) == Width(window) && Height(r.value) == Height(window)
      && r.value.left - window.left == MonitorRegion(to).value.left - from.rect.left
      && r.value.top - window.top == to.rect.top - from.rect.top
    ensures DifferentSizeRegions(from, to) ==> r == ProportionalSwap(from.rect, to.rect, window)
  {
    match (MonitorRegion(from), MonitorRegion(to))
    case (Some(fromRegion), Some(toRegion)) =>
      if !SizeInRange(fromRegion, toRegion) then
        None
      else if SameSize(fromRegion, toRegion) then
        var dx := toRegion.left - from.rect.left;
        var dy := to.rect.top - from.rect.top;
        if IsI32(dx) && IsI32(dy) && CanTranslate(window, dx, dy) then
          Some(Translate(window, dx, dy))
        else
          None
      else
        ProportionalSwap(from.rect, to.rect, window)
    case _ => None
  }

  /** On the equal-size path the swap fails only when the shift or the
      shifted window overflows. */
  lemma SwapSameSizeDefined(from: MonitorInfo, to: MonitorInfo, window: Rect)
    requires SameSizeRegions(from, to)
    ensures var dx := MonitorRegion(to).value.left - from.rect.left;
            var dy := to.rect.top - from.rect.top;
            SwapCoords(from, to, window).Some? <==> IsI32(dx) && IsI32(dy) && CanTranslate(window, dx, dy)
  {
  }

  /** On the proportional path each edge's offset from the destination
      monitor's corner is the edge's offset from the source monitor's corner,
      scaled by the ratio of the spans on its own axis as `Scale` converts
      it: rounded toward zero and clamped to the `i32` range, or, over an
      empty source span, NaN or an infinity converted. */
  lemma ProportionalSwapEdges(from: Rect, to: Rect, window: Rect)
    ensures ProportionalSwap(from, to, window).Some? ==> OffsetsInRange(from, to, window)
    ensures ProportionalSwap(from, to, window).Some? && Width(from) != 0 ==>
      var r := ProportionalSwap(from, to, window).value;
      && IsSaturatedQuotient(r.left - to.left, (window.left - from.left) * Width(to), Width(from))
      && IsSaturatedQuotient(r.right - to.left, (window.right - from.left) * Width(to), Width(from))
    ensures ProportionalSwap(from, to, window).Some? && Height(from) != 0 ==>
      var r := ProportionalSwap(from, to, window).value;
      && IsSaturatedQuotient(r.top - to.top, (window.top - from.top) * Height(to), Height(from))
      && IsSaturatedQuotient(r.bottom - to.top, (window.bottom - from.top) * Height(to), Height(from))
    ensures ProportionalSwap(from, to, window).Some? && Width(from) == 0 ==>
      var r := ProportionalSwap(from, to, window).value;
      && IsEmptySpanQuotient(r.left - to.left, (window.left - from.left) * Width(to))
      && IsEmptySpanQuotient(r.right - to.left, (window.right - from.left) * Width(to))
    ensures ProportionalSwap(from, to, window).Some? && Height(from) == 0 ==>
      var r := ProportionalSwap(from, to, window).value;
      && IsEmptySpanQuotient(r.top - to.top, (window.top - from.top) * Height(to))
      && IsEmptySpanQuotient(r.bottom - to.top, (window.bottom - from.top) * Height(to))
  {
    ProportionalHorizontalEdges(from, to, window);
    ProportionalVerticalEdges(from, to, window);
  }

  /** A window lying on the source monitor, whose sides are in order, lands
      on the destination monitor with its sides still in order, and the
      remap cannot overflow. */
  lemma ProportionalSwapWithinMonitor(from: Rect, to: Rect, window: Rect)
    requires Width(from) > 0 && Height(from) > 0 && Width(to) >= 0 && Height(to) >= 0
    requires IsI32(Width(from)) && IsI32(Height(from)) && IsI32(Width(to)) && IsI32(Height(to))
    requires from.left <= window.left <= window.right <= from.right
    requires from.top <= window.top <= window.bottom <= from.bottom
    ensures ProportionalSwap(from, to, window).Some?
    ensures var r := ProportionalSwap(from, to, window).value;
      && to.left <= r.left <= r.right <= to.right
      && to.top <= r.top <= r.bottom <= to.bottom
  {
    AxisWithin(window.left, window.right, from.left, Width(from), Width(to));
    AxisWithin(window.top, window.bottom, from.top, Height(from), Height(to));
    assert OffsetsInRange(from, to, window);
    ProportionalHorizontalEdges(from, to, window);
    ProportionalVerticalEdges(from, to, window);
  }

  /** One axis of `ProportionalSwapWithinMonitor`: offsets within the source
      span, in order, scale to offsets within the destination span, in order. */
  lemma AxisWithin(lo: int, hi: int, fromLo: int, fromSpan: int, toSpan: int)
    requires fromSpan > 0 && 0 <= toSpan && IsI32(toSpan)
    requires fromLo <= lo <= hi <= fromLo + fromSpan
    ensures 0 <= Scale(lo - fromLo, fromSpan, toSpan)
    ensures Scale(lo - fromLo, fromSpan, toSpan) <= Scale(hi - fromLo, fromSpan, toSpan)
    ensures Scale(hi - fromLo, fromSpan, toSpan) <= toSpan
  {
    ScaleSnapsToEnds(fromSpan, toSpan);
    ScaleMonotone(0, lo - fromLo, fromSpan, toSpan);
    ScaleMonotone(lo - fromLo, hi - fromLo, fromSpan, toSpan);
    ScaleMonotone(hi - fromLo, fromSpan, fromSpan, toSpan);
  }

  /** `ProportionalSwapWithinMonitor` for `calculate_swap_coords` itself: on
      its proportional path, a window on the source monitor always lands on
      the destination monitor. */
  lemma SwapWithinMonitor(from: MonitorInfo, to: MonitorInfo, window: Rect)
    requires DifferentSizeRegions(from, to)
    requires Width(from.rect) > 0 && Height(from.rect) > 0 && Width(to.rect) >= 0 && Height(to.rect) >= 0
    requires IsI32(Width(from.rect)) && IsI32(Height(from.rect)) && IsI32(Width(to.rect)) && IsI32(Height(to.rect))
    requires from.rect.left <= window.left <= window.right <= from.rect.right
    requires from.rect.top <= window.top <= window.bottom <= from.rect.bottom
    ensures SwapCoords(from, to, window).Some?
    ensures var r := SwapCoords(from, to, window).value;
      && to.rect.left <= r.left <= r.right <= to.rect.right
      && to.rect.top <= r.top <= r.bottom <= to.rect.bottom
  {
    ProportionalSwapWithinMonitor(from.rect, to.rect, window);
  }

  /** `ProportionalSwapEdges` for `calculate_swap_coords` itself, whenever it
      takes its proportional path. */
  lemma SwapProportionalEdges(from: MonitorInfo, to: MonitorInfo, window: Rect)
    requires DifferentSizeRegions(from, to)
    ensures SwapCoords(from, to, window).Some? && Width(from.rect) != 0 ==>
      var r := SwapCoords(from, to, window).value;
      && IsSaturatedQuotient(r.left - to.rect.left, (window.left - from.rect.left) * Width(to.rect), Width(from.rect))
      && IsSaturatedQuotient(r.right - to.rect.left, (window.right - from.rect.left) * Width(to.rect), Width(from.rect))
    ensures SwapCoords(from, to, window).Some? && Height(from.rect) != 0 ==>
      var r := SwapCoords(from, to, window).value;
      && IsSaturatedQuotient(r.top - to.rect.top, (window.top - from.rect.top) * Height(to.rect), Height(from.rect))
      && IsSaturatedQuotient(r.bottom - to.rect.top, (window.bottom - from.rect.top) * Height(to.rect), Height(from.rect))
    ensures SwapCoords(from, to, window).Some? && Width(from.rect) == 0 ==>
      var r := SwapCoords(from, to, window).value;
      && IsEmptySpanQuotient(r.left - to.rect.left, (window.left - from.rect.left) * Width(to.rect))
      && IsEmptySpanQuotient(r.right - to.rect.left, (window.right - from.rect.left) * Width(to.rect))
    ensures SwapCoords(from, to, window).Some? && Height(from.rect) == 0 ==>
      var r := SwapCoords(from, to, window).value;
      && IsEmptySpanQuotient(r.top - to.rect.top, (window.top - from.rect.top) * Height(to.rect))
      && IsEmptySpanQuotient(r.bottom - to.rect.top, (window.bottom - from.rect.top) * Height(to.rect))
  {
    ProportionalSwapEdges(from.rect, to.rect, window);
  }

  /** Edge snapping on the proportional path: an edge flush with a side of the
      source monitor ends up flush with the same side of the destination
      monitor, with no rounding error. The far sides need a non-empty source
      span. */
  lemma SwapSnapsEdges(from: MonitorInfo, to: MonitorInfo, window: Rect)
    requires DifferentSizeRegions(from, to)
    ensures SwapCoords(from, to, window).Some? ==>
      var r := SwapCoords(from, to, window).value;
      && (window.left == from.rect.left ==> r.left == to.rect.left)
      && (window.top == from.rect.top ==> r.top == to.rect.top)
      && (window.right == from.rect.right && Width(from.rect) != 0 ==> r.right == to.rect.right)
      && (window.bottom == from.rect.bottom && Height(from.rect) != 0 ==> r.bottom == to.rect.bottom)
  {
    if OffsetsInRange(from.rect, to.rect, window) {
      ScaleSnapsToEnds(Width(from.rect), Width(to.rect) as i32);
      ScaleSnapsToEnds(Height(from.rect), Height(to.rect) as i32);
    }
  }

  /** For whole monitors, as `MonitorInfo::New` builds them, edges snap on
      both paths. */
  lemma SwapSnapsEdgesOfWholeMonitors(from: MonitorInfo, to: MonitorInfo, window: Rect)
    requires from.subRect.None? && to.subRect.None?
    requires Width(from.rect) != 0 && Height(from.rect) != 0
    ensures SwapCoords(from, to, window).Some? ==>
      var r := SwapCoords(from, to, window).value;
      && (window.left == from.rect.left ==> r.left == to.rect.left)
      && (window.right == from.rect.right ==> r.right == to.rect.right)
      && (window.top == from.rect.top ==> r.top == to.rect.top)
      && (window.bottom == from.rect.bottom ==> r.bottom == to.rect.bottom)
  {
    if DifferentSizeRegions(from, to) {
      SwapSnapsEdges(from, to, window);
    }
  }

  /** With a positive source size and a non-negative destination size, a
      window whose edges are in order keeps them in order. */
  lemma SwapPreservesOrder(from: MonitorInfo, to: MonitorInfo, window: Rect)
    requires Width(from.rect) > 0 && Height(from.rect) > 0
    requires Width(to.rect) >= 0 && Height(to.rect) >= 0
    ensures SwapCoords(from, to, window).Some? ==>
      var r := SwapCoords(from, to, window).value;
      && (window.left <= window.right ==> r.left <= r.right)
      && (window.top <= window.bottom ==> r.top <= r.bottom)
  {
    if DifferentSizeRegions(from, to) && OffsetsInRange(from.rect, to.rect, window) {
      if window.left <= window.right {
        ScaleMonotone(window.left - from.rect.left, window.right - from.rect.left, Width(from.rect), Width(to.rect));
      }
      if window.top <= window.bottom {
        ScaleMonotone(window.top - from.rect.top, window.bottom - from.rect.top, Height(from.rect), Height(to.rect));
      }
    }
  }

  /** On the proportional path the left and right edges of the result
      depend only on the window's left and right edges and the monitors'
      left and right sides: the vertical geometry plays no part. */
  lemma ProportionalHorizontalIndependent(from1: Rect, to1: Rect, window1: Rect,
                                      from2: Rect, to2: Rect, window2: Rect)
    requires window1.left == window2.left && window1.right == window2.right
    requires from1.left == from2.left && from1.right == from2.right
    requires to1.left == to2.left && to1.right == to2.right
    ensures ProportionalSwap(from1, to1, window1).Some? && ProportionalSwap(from2, to2, window2).Some? ==>
      && ProportionalSwap(from1, to1, window1).value.left == ProportionalSwap(from2, to2, window2).value.left
      && ProportionalSwap(from1, to1, window1).value.right == ProportionalSwap(from2, to2, window2).value.right
  {
    ProportionalHorizontalEdges(from1, to1, window1);
    ProportionalHorizontalEdges(from2, to2, window2);
  }

  /** The left and right edges the proportional path computes. */
  lemma ProportionalHorizontalEdges(from: Rect, to: Rect, window: Rect)
    ensures ProportionalSwap(from, to, window).Some? ==>
      && ProportionalSwap(from, to, window).value.left == to.left + Scale(window.left - from.left, Width(from), Width(to))
      && ProportionalSwap(from, to, window).value.right == to.left + Scale(window.right - from.left, Width(from), Width(to))
  {
  }

  /** On the proportional path the top and bottom edges of the result
      depend only on the window's top and bottom edges and the monitors'
      top and bottom sides: the horizontal geometry plays no part. */
  lemma ProportionalVerticalIndependent(from1: Rect, to1: Rect, window1: Rect,
                                      from2: Rect, to2: Rect, window2: Rect)
    requires window1.top == window2.top && window1.bottom == window2.bottom
    requires from1.top == from2.top && from1.bottom == from2.bottom
    requires to1.top == to2.top && to1.bottom == to2.bottom
    ensures ProportionalSwap(from1, to1, window1).Some? && ProportionalSwap(from2, to2, window2).Some? ==>
      && ProportionalSwap(from1, to1, window1).value.top == ProportionalSwap(from2, to2, window2).value.top
      && ProportionalSwap(from1, to1, window1).value.bottom == ProportionalSwap(from2, to2, window2).value.bottom
  {
    ProportionalVerticalEdges(from1, to1, window1);
    ProportionalVerticalEdges(from2, to2, window2);
  }

  /** The top and bottom edges the proportional path computes. */
  lemma ProportionalVerticalEdges(from: Rect, to: Rect, window: Rect)
    ensures ProportionalSwap(from, to, window).Some? ==>
      && ProportionalSwap(from, to, window).value.top == to.top + Scale(window.top - from.top, Height(from), Height(to))
      && ProportionalSwap(from, to, window).value.bottom == to.top + Scale(window.bottom - from.top, Height(from), Height(to))
  {
  }

  /** Between two whole monitors of the same size, swapping back undoes the
      swap exactly, unless the shift back overflows. */
  lemma SwapRoundTripSameSize(from: MonitorInfo, to: MonitorInfo, window: Rect)
    requires from.subRect.None? && to.subRect.None?
    requires SameSizeRegions(from, to)
    requires IsI32(from.rect.left - to.rect.left) && IsI32(from.rect.top - to.rect.top)
    ensures SwapCoords(from, to, window).Some? ==>
      SwapCoords(to, from, SwapCoords(from, to, window).value) == Some(window)
  {
  }

  /** Between two whole monitors whose sides are whole multiples of each other,
      swapping back undoes the proportional remap exactly. */
  lemma SwapRoundTripOnMultiples(from: MonitorInfo, to: MonitorInfo, window: Rect, kx: int, ky: int)
    requires from.subRect.None? && to.subRect.None?
    requires Width(from.rect) != 0 && Height(from.rect) != 0 && kx != 0 && ky != 0
    requires Width(to.rect) == Width(from.rect) * kx && Height(to.rect) == Height(from.rect) * ky
    requires DifferentSizeRegions(from, to)
    requires IsI32((window.left - from.rect.left) * kx) && IsI32((window.right - from.rect.left) * kx)
    requires IsI32((window.top - from.rect.top) * ky) && IsI32((window.bottom - from.rect.top) * ky)
    ensures SwapCoords(from, to, window).Some? ==>
      SwapCoords(to, from, SwapCoords(from, to, window).value) == Some(window)
  {
    if SwapCoords(from, to, window).Some? {
      SameSizeSymmetric(to.rect, from.rect);
      assert DifferentSizeRegions(to, from);
      ProportionalRoundTrip(from.rect, to.rect, window, kx, ky);
    }
  }

  lemma ProportionalRoundTrip(from: Rect, to: Rect, window: Rect, kx: int, ky: int)
    requires Width(from) != 0 && Height(from) != 0 && kx != 0 && ky != 0
    requires Width(to) == Width(from) * kx && Height(to) == Height(from) * ky
    requires IsI32((window.left - from.left) * kx) && IsI32((window.right - from.left) * kx)
    requires IsI32((window.top - from.top) * ky) && IsI32((window.bottom - from.top) * ky)
    ensures ProportionalSwap(from, to, window).Some? ==>
      ProportionalSwap(to, from, ProportionalSwap(from, to, window).value) == Some(window)
  {
    if ProportionalSwap(from, to, window).Some? {
      var r := ProportionalSwap(from, to, window).value;
      ProportionalHorizontalEdges(from, to, window);
      ProportionalVerticalEdges(from, to, window);
      AxisRoundTrip(window.left, window.right, from.left, Width(from), to.left, kx);
      AxisRoundTrip(window.top, window.bottom, from.top, Height(from), to.top, ky);
      assert OffsetsInRange(to, from, r);
      ProportionalHorizontalEdges(to, from, r);
      ProportionalVerticalEdges(to, from, r);
    }
  }

  /** One axis of `ProportionalRoundTrip`: both edges scale up by `k` exactly
      and come back. */
  lemma AxisRoundTrip(lo: int, hi: int, fromLo: int, span: int, toLo: int, k: int)
    requires span != 0 && k != 0
    requires IsI32(lo - fromLo) && IsI32(hi - fromLo) && IsI32((lo - fromLo) * k) && IsI32((hi - fromLo) * k)
    ensures Scale(lo - fromLo, span, span * k) == (lo - fromLo) * k
    ensures Scale(hi - fromLo, span, span * k) == (hi - fromLo) * k
    ensures Scale((lo - fromLo) * k, span * k, span) == lo - fromLo
    ensures Scale((hi - fromLo) * k, span * k, span) == hi - fromLo
  {
    ScaleRoundTripOnMultiple(lo - fromLo, span, k);
    ScaleRoundTripOnMultiple(hi - fromLo, span, k);
  }

  /** The equal-size path takes its horizontal shift from the destination
      region but from the source monitor's left side, not the source region's.
      With two monitors of width `2 * half` side by side, swapping the right
      half of the first with the left half of the second moves a window
      filling the source half past the destination half, onto the second
      monitor's right half. */
  lemma SwapTranslationMixesHorizontalOrigins(x: i32, y: i32, half: int, h: int)
    requires half > 0 && h >= 0 && IsI32(4 * half) && IsI32(h)
    requires IsI32(x + 4 * half) && IsI32(y + h)
    ensures var from := MonitorInfo(Rect(x, x + 2 * half, y, y + h), Some(Rect(half, 2 * half, 0, h)));
            var to := MonitorInfo(Rect(x + 2 * half, x + 4 * half, y, y + h), Some(Rect(0, half, 0, h)));
            && MonitorRegion(from) == Some(Rect(x + half, x + 2 * half, y, y + h))
            && MonitorRegion(to) == Some(Rect(x + 2 * half, x + 3 * half, y, y + h))
            && SwapCoords(from, to, Rect(x + half, x + 2 * half, y, y + h))
               == Some(Rect(x + 3 * half, x + 4 * half, y, y + h))
  {
  }

  /** The equal-size path takes its vertical shift from the two monitors'
      tops alone, ignoring both regions. With two monitors of height
      `2 * half` side by side, swapping the bottom half of the first with the
      top half of the second leaves a window filling the source half in the
      bottom half. */
  lemma SwapTranslationMixesVerticalOrigins(x: i32, y: i32, w: int, half: int)
    requires w >= 0 && half > 0 && IsI32(2 * w) && IsI32(2 * half)
    requires IsI32(x + 2 * w) && IsI32(y + 2 * half)
    ensures var from := MonitorInfo(Rect(x, x + w, y, y + 2 * half), Some(Rect(0, w, half, 2 * half)));
            var to := MonitorInfo(Rect(x + w, x + 2 * w, y, y + 2 * half), Some(Rect(0, w, 0, half)));
            && MonitorRegion(from) == Some(Rect(x, x + w, y + half, y + 2 * half))
            && MonitorRegion(to) == Some(Rect(x + w, x + 2 * w, y, y + half))
            && SwapCoords(from, to, Rect(x, x + w, y + half, y + 2 * half))
               == Some(Rect(x + w, x + 2 * w, y + half, y + 2 * half))
  {
  }
}
