# swappy window-swap geometry in Dafny

swappy swaps the windows of two screen regions: every window on region A
moves to region B and every window on region B moves to region A. A region
is a whole monitor, a sub-rectangle of a monitor, or an explicit rectangle of
the virtual desktop. This project models the arithmetic at the heart of that
tool and proves properties of it:

- `Swap` (swap.rs): rectangles, translation, the region a monitor stands for,
  the size comparison, and `calculate_swap_coords`, which translates a window
  between equal-size regions and remaps it proportionally between
  different-size ones.
- `WinMain` (win_main.rs): the conversion from the Win32 `RECT`, the choice
  of the two operands (`get_rect_from_region`), and the per-window loop that
  turns a window's new visible frame into `MoveWindow` arguments. Those
  arguments keep the margins between the window's raw bounds and its visible
  frame, so invisible resize borders are preserved.
- `SwapTests` (swap.rs unit tests): the two test cases, proved for every
  placement of the fixtures, not only at the origin.
- `Arith`: the `i32` range, division rounding toward zero, and the
  saturating float-to-`i32` conversion.
- `Wrappers`: the `Option` type.

Modelling decisions:

- **Overflow.** Every `i32` addition and subtraction in the source panics on
  overflow in a debug build. The model computes on unbounded integers and
  returns `None` (or `Overflow`) exactly where some intermediate value
  leaves the `i32` range. A release build wraps around silently instead; that
  behaviour is not modelled. The short-circuit of `&&` in `are_same_size` is
  kept: the heights are only computed when the widths agree.
- **Floating point.** The source computes `(offset as f64 / fromSpan as f64
  * toSpan as f64) as i32`. The model takes the ratio exactly, rounds toward
  zero, and clamps to the `i32` range, because `as i32` saturates. A zero
  source span gives NaN or an infinity in the source. The model follows
  that: a zero offset or a zero destination span gives 0 (NaN converts to
  0); otherwise the result is `i32::MAX` or `i32::MIN`, by the sign of the
  product.
- **The equal-size path.** It shifts horizontally by the destination
  region's left minus the source monitor's left. It shifts vertically by the
  difference of the two monitors' tops. The model keeps both as written, and
  `Swap.SwapTranslationMixesHorizontalOrigins` and
  `Swap.SwapTranslationMixesVerticalOrigins` show what that does with
  sub-rectangles.
- **The proportional path** uses the monitors' full rectangles, not their
  regions. The model keeps that too.

## Model

| member | source | states |
|---|---|---|
| Arith.TruncDivRoundsTowardZero | src/swap.rs:62-65 | the quotient used for the float conversion never overshoots the exact ratio, has its sign, and misses it by less than one |
| Arith.TruncDivVersusEuclidean | src/swap.rs:62-65 | for a positive divisor the conversion's rounding agrees with floor division on non-negative numerators and is one higher on negative ones it does not divide, so an edge left of or above the source monitor is not pushed further out |
| Arith.TruncDivUnique | src/swap.rs:62-65 | any value with those three properties is that quotient, so the conversion is pinned down |
| Arith.SaturateTruncDiv | src/swap.rs:62-65 | clamping the rounded quotient gives a value in the `i32` range that rounds toward zero or sits at a bound |
| Swap.Translate | src/swap.rs:9-16 | the translated rectangle keeps width and height and its corner moves by exactly `(x, y)` |
| Swap.TranslateInverse | src/swap.rs:9-16 | translating by `(-x, -y)` afterwards cannot overflow and restores the rectangle |
| Swap.TranslateCompose | src/swap.rs:9-16 | two translations equal one by the summed vector, and that one cannot overflow |
| Swap.NewMonitor | src/swap.rs:25-35 | a new monitor has the given edges and no sub-rectangle, and stands for its whole rectangle |
| Swap.MonitorRegion | src/swap.rs:69-80 | without a sub-rectangle the region is the monitor; with one it is the sub-rectangle offset by the monitor's top-left corner, same size, and undefined exactly when that offset overflows |
| Swap.WholeSubRectIsMonitor | src/swap.rs:69-80 | a sub-rectangle covering the whole monitor resolves to the monitor itself |
| Swap.SameSize | src/swap.rs:82-85 | when the differences of the two top-left corners fit in `i32`: true exactly when translating the first rectangle by those differences stays in range and gives the second |
| Swap.SameSizeReflexive | src/swap.rs:82-85 | every rectangle whose size fits in `i32` has the same size as itself |
| Swap.SameSizeSymmetric | src/swap.rs:82-85 | the comparison does not depend on argument order, including whether it overflows |
| Swap.Scale | src/swap.rs:53-65 | one edge's converted ratio: for a non-zero source span, `offset * toSpan / fromSpan` rounded toward zero and clamped to `i32`; over a zero source span, 0, `i32::MAX` or `i32::MIN` by the sign of `offset * toSpan` (NaN or an infinity converted) |
| Swap.ScaleSnapsToEnds | src/swap.rs:52-65 | offset 0 maps to 0 and an offset equal to a non-zero source span maps exactly to the destination span |
| Swap.ScaleMonotone | src/swap.rs:52-65 | with a positive source span and a non-negative destination span, scaling keeps offsets in order |
| Swap.ScaleRoundTripOnMultiple | src/swap.rs:52-65 | scaling up by a whole factor and back down returns the original offset |
| Swap.GrowRoundTripWithinOne | src/swap.rs:52-65 | onto a span at least as long and back, an offset within the source span returns to itself or one less |
| Swap.ShrinkRoundTripMissesByTwo | src/swap.rs:52-65 | onto a span three times shorter and back, an offset two units inside the source span comes back flush with its corner, so the within-one bound holds only for the growing direction |
| Swap.SwapCoords | src/swap.rs:38-67 | undefined when a region or the size comparison overflows; between equal-size regions it is the window translated by the mixed shift, same size; otherwise it is the proportional remap on the full monitor rectangles |
| Swap.SwapSameSizeDefined | src/swap.rs:45-50 | on the equal-size path the swap is defined exactly when the shift and the shifted window fit in `i32` |
| Swap.ProportionalSwap | src/swap.rs:52-66 | the proportional remap is defined exactly when the spans of both monitors, the window's offsets from the source monitor's corner, and the four placed edges all fit in `i32`; everywhere else some step would overflow |
| Swap.ProportionalSwapEdges | src/swap.rs:52-66 | the proportional remap is defined only when every offset and span fits in `i32`, and each edge's offset from the destination monitor's corner is its offset from the source monitor's corner converted as `Scale` states, on its own axis |
| Swap.ProportionalSwapWithinMonitor | src/swap.rs:52-66 | with a non-empty source monitor and a destination of non-negative size, a window lying on the source monitor with its sides in order is always remapped, and lands on the destination monitor with its sides in order |
| Swap.SwapWithinMonitor | src/swap.rs:38-67 | whenever `calculate_swap_coords` takes the proportional path between a non-empty source monitor and a destination of non-negative size, a window on the source monitor is always placed, on the destination monitor, with its sides in order |
| Swap.SwapProportionalEdges | src/swap.rs:43-66 | whenever `calculate_swap_coords` takes the proportional path, each edge is placed as `Swap.ProportionalSwapEdges` states, for empty and non-empty source spans |
| Swap.SwapSnapsEdges | src/swap.rs:52-66 | on the proportional path, an edge flush with a side of the source monitor lands flush with the same side of the destination monitor (the far sides need a non-empty span) |
| Swap.SwapSnapsEdgesOfWholeMonitors | src/swap.rs:38-67 | for whole monitors with non-empty spans, edges flush with the source monitor's sides land flush with the destination's on both paths |
| Swap.SwapPreservesOrder | src/swap.rs:38-67 | with positive source and non-negative destination sizes, a window with ordered edges keeps them ordered |
| Swap.ProportionalHorizontalIndependent | src/swap.rs:52-66 | on the proportional path the result's left and right depend only on the window's and monitors' left and right sides |
| Swap.ProportionalVerticalIndependent | src/swap.rs:52-66 | on the proportional path the result's top and bottom depend only on the window's and monitors' top and bottom sides |
| Swap.SwapRoundTripSameSize | src/swap.rs:45-50 | between equal-size whole monitors, swapping back returns the original window |
| Swap.ProportionalRoundTrip | src/swap.rs:52-66 | between rectangles whose sides are whole multiples of each other, remapping proportionally and back returns the original window exactly |
| Swap.SwapRoundTripOnMultiples | src/swap.rs:43-66 | between whole monitors whose sides are whole multiples of each other, swapping back returns the original window exactly |
| Swap.SwapTranslationMixesHorizontalOrigins | src/swap.rs:45-48 | with sub-rectangles, the horizontal shift mixes the destination region's left with the source monitor's left, so a window filling the source half lands beyond the destination half |
| Swap.SwapTranslationMixesVerticalOrigins | src/swap.rs:45-48 | with sub-rectangles, the vertical shift ignores both regions, so a window filling the bottom source half stays in the bottom half |
| SwapTests.QhdPair | src/swap.rs:101-121 | the left half of a 2560x1440 monitor goes to the left half of the one beside it, wherever the pair is placed |
| SwapTests.HdTo4k | src/swap.rs:122-141 | the left half of a 1920x1080 monitor goes to the left half of a 3840x2160 monitor beside it, at twice the size, wherever the pair is placed |
| WinMain.ToInternalRect | src/win_main.rs:270-277 | the converted rectangle has the same four edges |
| WinMain.ToInternalRectBijective | src/win_main.rs:270-277 | the conversion and its converse undo each other, so no edge is lost or swapped |
| WinMain.RectFromRegion | src/win_main.rs:241-248 | an explicit rectangle is returned unchanged; a monitor index yields that monitor's rectangle when in range and fails otherwise |
| WinMain.MonitorRegionIsItsRect | src/win_main.rs:241-248 | selecting a monitor by index equals naming its rectangle explicitly, whatever the other monitors are |
| WinMain.MoveParams | src/win_main.rs:91-101 | the new bounds keep each of the four margins between the old bounds and the old frame, relative to the new frame, for the same window |
| WinMain.AdjustWindow | src/win_main.rs:80-104 | a window whose frame is unchanged is skipped; otherwise it is moved with margins kept, or the arithmetic overflows exactly when a margin, position, width or height leaves `i32` |
| WinMain.MoveParamsOfOldFrame | src/win_main.rs:91-101 | applied to the old frame, the move reproduces the old bounds exactly |
| WinMain.MoveParamsOfTranslatedFrame | src/win_main.rs:91-101 | when the frame is only shifted, the bounds are shifted by the same vector and keep their size |
| WinMain.PlanMoves | src/win_main.rs:80-104 | the loop issues the moves of the reference plan, at most one per window, and runs to the end exactly when no window overflows |
| WinMain.PlanCompletesWithoutOverflow | src/win_main.rs:80-104 | the loop runs to the end exactly when no window's arithmetic overflows |
| WinMain.PlanMovesEnumeratedWindows | src/win_main.rs:80-104 | each move is exactly the outcome of its own enumerated window, the windows taken in enumeration order, so no window is moved twice and there are no more moves than windows |
| WinMain.PlanOfFixedFrames | src/win_main.rs:80-90 | when the swap leaves every frame where it is, no window is moved |
| WinMain.PlanAppend | src/win_main.rs:80-104 | processing two lists of windows in turn issues the first list's moves, then the second's unless the first panicked |

## Left out

- The overlap-threshold variant of `calculate_swap_coords` called at
  src/win_main.rs:82-87 takes a fourth argument. Its definition is not part
  of this model: the swap.rs modelled here has the three-argument form. The
  driver loop therefore takes the new frame as a function `newFrameOf` of the
  old frame.
- IEEE-754 rounding of the intermediate `f64` ratio and product. The model
  uses the exact rational. For spans of desktop size the two can differ by
  one pixel when the ratio is not exactly representable.
- Swap.ScaleRoundTripOnMultiple: the exact round trip holds for the exact
  ratio only. In `f64`, `(123 / 1920) * 3840` is 245.99999999999997, which
  converts to 245 where the exact ratio gives 246. Scaling 245 back gives
  122.49999999999999, so 122 and not 123. For the 1920 to 3840 pair of the
  HD-to-4K test, 22 of the 1921 offsets within the monitor miss by one.
- Swap.ProportionalRoundTrip: exact for the exact ratio only, for the reason
  given under `Swap.ScaleRoundTripOnMultiple`.
- Swap.SwapRoundTripOnMultiples: exact for the exact ratio only. In `f64`,
  swapping a window whose left edge is 123 pixels into a 1920-wide monitor
  onto a 3840-wide one and back leaves that edge at 122.
- Swap.GrowRoundTripWithinOne: the within-one bound is proved for the exact
  ratio only. In `f64` a round trip between equal spans on the proportional
  path (equal widths, different heights) can already miss by two: with width
  1920, `(246 / 1920) * 1920` is 245.99999999999997, so 246 goes to 245 and
  then to 244; with width 55, 15 goes to 14 and then to 13.
- Swap.ShrinkRoundTripMissesByTwo: a within-one round trip is not promised
  when the first remap shrinks; this lemma shows the miss of two (for
  example 3840 to 1280 and back) rather than any bound.
- Swap.SameSize: the translation characterization covers only rectangles
  whose corners differ by an `i32`. `Translate` takes its shift as an `i32`,
  as `Rect::translate` does, so two equal-size rectangles more than 2^31
  apart compare equal without being a translate of each other in that sense.
- Windows API calls: monitor and window enumeration, `DwmGetWindowAttribute`,
  the relevance filter, UTF-16 titles, and the `MoveWindow` call itself. The
  model produces the list of `MoveWindow` arguments instead.
- Handles are natural numbers. The window's monitor handle and title, and the
  monitor handle, are not modelled because no arithmetic uses them.
- The index type of `Region::Monitor` is not part of this model. It is a
  natural number here, and an index past the end of the list is the error
  case. The `Region::Rect` case is named `Explicit`.
- Command-line parsing and the `--info` listing in main.rs and win_main.rs:
  they are I/O.
- The commented-out `move_window_from_to` code in win_main.rs: it is not
  compiled.
- Swap.SwapSnapsEdges: snapping of the right and bottom edges is stated only
  for a non-empty source span. Over an empty span the result is governed by
  the zero-span case of `Swap.Scale` instead.
- Swap.SwapPreservesOrder: stated only for positive source sizes and
  non-negative destination sizes. With a negative ratio the proportional
  remap reverses the order, and the source promises nothing there.
