/** The pure arithmetic of the Windows driver (win_main.rs): resolving the two
    swap operands, and turning each window's new visible frame into the
    parameters of a `MoveWindow` call.

    A window has two rectangles. Its bounds are the raw OS rectangle, which
    may include invisible resize borders; its frame is the visible part. The
    driver swaps frames and then moves the bounds so that each of the four
    margins between bounds and frame stays what it was.

    As in the geometry module, an `i32` operation that overflows, or an index
    past the end of the monitor list, panics in win_main.rs and is an error
    outcome here. */
module WinMain {
  import opened Arith
  import opened Wrappers
  import Swap

  /** The Win32 `RECT`, whose fields come in the order left, top, right,
      bottom. */
  datatype Win32Rect = Win32Rect(left: i32, top: i32, right: i32, bottom: i32)

  /** `win32_rect_to_internal_rect`: the same four edges as a geometry
      rectangle. */
  function ToInternalRect(r: Win32Rect): (s: Swap.Rect)
    ensures s.left == r.left && s.right == r.right
    ensures s.top == r.top && s.bottom == r.bottom
  {
    Swap.Rect(r.left, r.right, r.top, r.bottom)
  }

  /** The converse conversion, used to state that no edge is lost. */
  function ToWin32Rect(s: Swap.Rect): Win32Rect {
    Win32Rect(s.left, s.top, s.right, s.bottom)
  }

  /** Conversion loses nothing in either direction, so it is a bijection. */
  lemma ToInternalRectBijective(r: Win32Rect, s: Swap.Rect)
    ensures ToWin32Rect(ToInternalRect(r)) == r
    ensures ToInternalRect(ToWin32Rect(s)) == s
    ensures ToInternalRect(r) == s <==> r == ToWin32Rect(s)
  {
  }

  /** A monitor as the driver enumerates it. The OS handle plays no part in
      the geometry and is not modelled. */
  datatype MonitorInfo = MonitorInfo(rect: Win32Rect)

  /** A swap operand: a monitor by its position in the enumeration, or an
      explicit rectangle of the virtual desktop. */
  datatype Region = Monitor(index: nat) | Explicit(rect: Swap.Rect)

  /** `get_rect_from_region`: an explicit rectangle as given, or the selected
      monitor's rectangle; `None` when the index is past the end of the
      monitor list, where indexing panics. */
  function RectFromRegion(region: Region, monitors: seq<MonitorInfo>): (r: Option<Swap.Rect>)
    ensures region.Explicit? ==> r == Some(region.rect)
    ensures region.Monitor? ==> (r.Some? <==> region.index < |monitors|)
    ensures region.Monitor? && r.Some? ==> ToWin32Rect(r.value) == monitors[region.index].rect
  {
    match region
    case Monitor(index) =>
      if index < |monitors| then Some(ToInternalRect(monitors[index].rect)) else None
    case Explicit(rect) => Some(rect)
  }

  /** Naming a monitor by index is the same as spelling out its rectangle,
      and the answer depends on no other monitor. */
  lemma MonitorRegionIsItsRect(i: nat, monitors: seq<MonitorInfo>, others: seq<MonitorInfo>)
    requires i < |monitors| && i < |others| && others[i] == monitors[i]
    ensures RectFromRegion(Monitor(i), monitors)
         == RectFromRegion(Explicit(ToInternalRect(monitors[i].rect)), others)
  {
  }

  /** A window as the driver enumerates it: its handle, its bounds and its
      visible frame. The monitor handle and the title are not used by the
      arithmetic and are not modelled. */
  datatype WindowInfo = WindowInfo(handle: nat, rect: Win32Rect, frame: Win32Rect)

  /** The arguments of one `MoveWindow` call (the repaint flag is always set). */
  datatype Move = Move(handle: nat, x: i32, y: i32, width: i32, height: i32)

  /** What the driver does with one window. */
  datatype Outcome =
    | Skip                // the new frame equals the old one: no call
    | MoveTo(move: Move)  // one `MoveWindow` call
    | Overflow            // the `i32` arithmetic panics

  /** Every intermediate value of the move arithmetic fits in an `i32`: the
      four margins, the position, and the width and height, which win_main.rs
      evaluates left to right as `((right - left) - marginLeft) + marginRight`. */
  predicate MoveInRange(w: WindowInfo, newFrame: Swap.Rect) {
    var ml := w.rect.left - w.frame.left;
    var mr := w.rect.right - w.frame.right;
    var mt := w.rect.top - w.frame.top;
    var mb := w.rect.bottom - w.frame.bottom;
    && IsI32(ml) && IsI32(mr) && IsI32(mt) && IsI32(mb)
    && IsI32(newFrame.left + ml) && IsI32(newFrame.top + mt)
    && IsI32(newFrame.right - newFrame.left)
    && IsI32(newFrame.right - newFrame.left - ml)
    && IsI32(newFrame.right - newFrame.left - ml + mr)
    && IsI32(newFrame.bottom - newFrame.top)
    && IsI32(newFrame.bottom - newFrame.top - mt)
    && IsI32(newFrame.bottom - newFrame.top - mt + mb)
  }

  /** The `MoveWindow` arguments for a new frame: the new bounds keep every
      margin between the window's old bounds and its old frame. */
  function MoveParams(w: WindowInfo, newFrame: Swap.Rect): (m: Move)
    requires MoveInRange(w, newFrame)
    ensures m.handle == w.handle
    ensures m.x - newFrame.left == w.rect.left - w.frame.left
    ensures m.y - newFrame.top == w.rect.top - w.frame.top
    ensures m.x + m.width - newFrame.right == w.rect.right - w.frame.right
    ensures m.y + m.height - newFrame.bottom == w.rect.bottom - w.frame.bottom
  {
    var marginLeft := w.rect.left - w.frame.left;
    var marginRight := w.rect.right - w.frame.right;
    var marginTop := w.rect.top - w.frame.top;
    var marginBottom := w.rect.bottom - w.frame.bottom;
    Move(w.handle,
         newFrame.left + marginLeft,
         newFrame.top + marginTop,
         newFrame.right - newFrame.left - marginLeft + marginRight,
         newFrame.bottom - newFrame.top - marginTop + marginBottom)
  }

  /** The body of the per-window loop: skip a window whose frame does not
      change, otherwise move its bounds so that the margins are kept. */
  function AdjustWindow(w: WindowInfo, newFrame: Swap.Rect): (o: Outcome)
    ensures o.Skip? <==> newFrame == ToInternalRect(w.frame)
    ensures o.Overflow? <==> newFrame != ToInternalRect(w.frame) && !MoveInRange(w, newFrame)
    ensures o.MoveTo? ==>
      && o.move.handle == w.handle
      && o.move.x - newFrame.left == w.rect.left - w.frame.left
      && o.move.y - newFrame.top == w.rect.top - w.frame.top
      && o.move.x + o.move.width - newFrame.right == w.rect.right - w.frame.right
      && o.move.y + o.move.height - newFrame.bottom == w.rect.bottom - w.frame.bottom
  {
    if ToInternalRect(w.frame) == newFrame then
      Skip
    else if MoveInRange(w, newFrame) then
      MoveTo(MoveParams(w, newFrame))
    else
      Overflow
  }

  /** The margin formulas undo themselves: applied to the old frame they give
      back the old bounds exactly. */
  lemma MoveParamsOfOldFrame(w: WindowInfo)
    requires MoveInRange(w, ToInternalRect(w.frame))
    ensures IsI32(w.rect.right - w.rect.left) && IsI32(w.rect.bottom - w.rect.top)
    ensures MoveParams(w, ToInternalRect(w.frame))
         == Move(w.handle, w.rect.left, w.rect.top, w.rect.right - w.rect.left, w.rect.bottom - w.rect.top)
  {
  }

  /** When the frame is only shifted, the bounds are shifted by the same
      vector and keep their size. */
  lemma MoveParamsOfTranslatedFrame(w: WindowInfo, dx: i32, dy: i32)
    requires Swap.CanTranslate(ToInternalRect(w.frame), dx, dy)
    requires MoveInRange(w, Swap.Translate(ToInternalRect(w.frame), dx, dy))
    ensures var m := MoveParams(w, Swap.Translate(ToInternalRect(w.frame), dx, dy));
      && m.x == w.rect.left + dx && m.y == w.rect.top + dy
      && m.width == w.rect.right - w.rect.left && m.height == w.rect.bottom - w.rect.top
  {
  }

  /** Moves issued so far, and whether the loop ran to the end rather than
      stopping at a panic. */
  datatype Plan = Plan(moves: seq<Move>, completed: bool)

  /** What happens to one enumerated window, given the new frame the swap
      computes from its current frame. */
  function OutcomeOf(w: WindowInfo, newFrameOf: Swap.Rect -> Swap.Rect): Outcome {
    AdjustWindow(w, newFrameOf(ToInternalRect(w.frame)))
  }

  /** One window's outcome followed by the rest of the loop: a skip adds
      nothing, a move comes first, and a panic ends the loop. */
  function Then(o: Outcome, rest: Plan): Plan {
    match o
    case Skip => rest
    case MoveTo(m) => Plan([m] + rest.moves, rest.completed)
    case Overflow => Plan([], false)
  }

  /** The effect of the loop at win_main.rs:80-104 over the enumerated windows,
      in order. `newFrameOf` stands for the swap computation applied to a
      window's frame. A panic ends the loop; the moves already issued stay. */
  function PlanFor(windows: seq<WindowInfo>, newFrameOf: Swap.Rect -> Swap.Rect): Plan
    decreases |windows|
  {
    if |windows| == 0 then Plan([], true)
    else Then(OutcomeOf(windows[0], newFrameOf), PlanFor(windows[1..], newFrameOf))
  }

  /** `window_infos.iter().for_each(...)`: one pass over the windows,
      collecting the `MoveWindow` calls in order. */
  method PlanMoves(windows: seq<WindowInfo>, newFrameOf: Swap.Rect -> Swap.Rect)
    returns (moves: seq<Move>, completed: bool)
    ensures Plan(moves, completed) == PlanFor(windows, newFrameOf)
    ensures |moves| <= |windows|
    ensures completed <==> forall i :: 0 <= i < |windows| ==> !OutcomeOf(windows[i], newFrameOf).Overflow?
  {
    moves := [];
    completed := true;
    var i := 0;
    while i < |windows|
      invariant 0 <= i <= |windows|
      invariant |moves| <= i
      invariant forall j :: 0 <= j < i ==> !OutcomeOf(windows[j], newFrameOf).Overflow?
      invariant PlanFor(windows, newFrameOf)
             == Plan(moves + PlanFor(windows[i..], newFrameOf).moves, PlanFor(windows[i..], newFrameOf).completed)
    {
      var o := OutcomeOf(windows[i], newFrameOf);
      var rest := PlanFor(windows[i + 1..], newFrameOf);
      assert windows[i..][1..] == windows[i + 1..];
      assert PlanFor(windows[i..], newFrameOf) == Then(o, rest);
      match o {
        case Skip =>
        case MoveTo(m) =>
          assert moves + ([m] + rest.moves) == (moves + [m]) + rest.moves;
          moves := moves + [m];
        case Overflow =>
          assert moves + [] == moves;
          completed := false;
          return;
      }
      i := i + 1;
    }
    assert windows[i..] == [];
    assert moves + [] == moves;
    PlanCompletesWithoutOverflow(windows, newFrameOf);
  }

  /** The plan runs to the end exactly when no window's arithmetic overflows. */
  lemma {:induction false} PlanCompletesWithoutOverflow(windows: seq<WindowInfo>, newFrameOf: Swap.Rect -> Swap.Rect)
    ensures PlanFor(windows, newFrameOf).completed <==>
      forall i :: 0 <= i < |windows| ==> !OutcomeOf(windows[i], newFrameOf).Overflow?
    decreases |windows|
  {
    if |windows| > 0 {
      PlanCompletesWithoutOverflow(windows[1..], newFrameOf);
      assert forall i :: 1 <= i < |windows| ==> windows[i] == windows[1..][i - 1];
    }
  }

  /** `idx` tells, for each move in order, which window it moves: the move
      is exactly that window's outcome, and the windows are distinct and in
      enumeration order. */
  predicate MovesFromWindows(idx: seq<int>, moves: seq<Move>, windows: seq<WindowInfo>,
                             newFrameOf: Swap.Rect -> Swap.Rect)
  {
    && |idx| == |moves|
    && (forall k :: 0 <= k < |idx| ==>
          0 <= idx[k] < |windows| && OutcomeOf(windows[idx[k]], newFrameOf) == MoveTo(moves[k]))
    && (forall k, l :: 0 <= k < l < |idx| ==> idx[k] < idx[l])
  }

  /** Every `MoveWindow` call is the outcome of its own enumerated window, in
      enumeration order, so no window is moved twice. */
  lemma {:induction false} PlanMovesEnumeratedWindows(windows: seq<WindowInfo>, newFrameOf: Swap.Rect -> Swap.Rect)
    ensures |PlanFor(windows, newFrameOf).moves| <= |windows|
    ensures exists idx :: MovesFromWindows(idx, PlanFor(windows, newFrameOf).moves, windows, newFrameOf)
    decreases |windows|
  {
    if |windows| == 0 {
      assert MovesFromWindows([], [], windows, newFrameOf);
    } else {
      var rest := PlanFor(windows[1..], newFrameOf);
      PlanMovesEnumeratedWindows(windows[1..], newFrameOf);
      var idx :| MovesFromWindows(idx, rest.moves, windows[1..], newFrameOf);
      MovesFromLaterWindows(idx, rest.moves, windows, newFrameOf);
      var shifted := Shift(idx);
      match OutcomeOf(windows[0], newFrameOf)
      case Skip =>
        assert MovesFromWindows(shifted, PlanFor(windows, newFrameOf).moves, windows, newFrameOf);
      case MoveTo(m) =>
        MovesFromFirstWindow(shifted, m, rest.moves, windows, newFrameOf);
        assert MovesFromWindows([0] + shifted, PlanFor(windows, newFrameOf).moves, windows, newFrameOf);
      case Overflow =>
        assert MovesFromWindows([], PlanFor(windows, newFrameOf).moves, windows, newFrameOf);
    }
  }

  function Shift(idx: seq<int>): (s: seq<int>)
    ensures |s| == |idx| && forall k :: 0 <= k < |idx| ==> s[k] == idx[k] + 1
  {
    seq(|idx|, k requires 0 <= k < |idx| => idx[k] + 1)
  }

  /** Moves of the windows after the first are moves of the whole list, at
      indices one higher. */
  lemma MovesFromLaterWindows(idx: seq<int>, moves: seq<Move>, windows: seq<WindowInfo>,
                              newFrameOf: Swap.Rect -> Swap.Rect)
    requires |windows| > 0 && MovesFromWindows(idx, moves, windows[1..], newFrameOf)
    ensures MovesFromWindows(Shift(idx), moves, windows, newFrameOf)
    ensures forall k :: 0 <= k < |idx| ==> Shift(idx)[k] >= 1
  {
    forall k | 0 <= k < |idx|
      ensures OutcomeOf(windows[Shift(idx)[k]], newFrameOf) == MoveTo(moves[k])
    {
      assert windows[Shift(idx)[k]] == windows[1..][idx[k]];
    }
  }

  /** A move of the first window goes in front of the moves of later ones. */
  lemma MovesFromFirstWindow(idx: seq<int>, m: Move, moves: seq<Move>, windows: seq<WindowInfo>,
                             newFrameOf: Swap.Rect -> Swap.Rect)
    requires |windows| > 0 && OutcomeOf(windows[0], newFrameOf) == MoveTo(m)
    requires MovesFromWindows(idx, moves, windows, newFrameOf)
    requires forall k :: 0 <= k < |idx| ==> idx[k] >= 1
    ensures MovesFromWindows([0] + idx, [m] + moves, windows, newFrameOf)
  {
    var all := [0] + idx;
    forall k, l | 0 <= k < l < |all|
      ensures all[k] < all[l]
    {
      if k > 0 {
        assert all[k] == idx[k - 1] && all[l] == idx[l - 1];
      }
    }
  }

  /** When the swap leaves every frame where it is, no window is moved. */
  lemma {:induction false} PlanOfFixedFrames(windows: seq<WindowInfo>, newFrameOf: Swap.Rect -> Swap.Rect)
    requires forall i :: 0 <= i < |windows| ==>
      newFrameOf(ToInternalRect(windows[i].frame)) == ToInternalRect(windows[i].frame)
    ensures PlanFor(windows, newFrameOf) == Plan([], true)
    decreases |windows|
  {
    if |windows| > 0 {
      assert newFrameOf(ToInternalRect(windows[0].frame)) == ToInternalRect(windows[0].frame);
      PlanOfFixedFrames(windows[1..], newFrameOf);
    }
  }

  /** Processing two lists of windows one after the other issues the first
      list's moves and then, unless the first list panicked, the second's. */
  lemma {:induction false} PlanAppend(a: seq<WindowInfo>, b: seq<WindowInfo>, newFrameOf: Swap.Rect -> Swap.Rect)
    ensures var pa := PlanFor(a, newFrameOf);
            var pb := PlanFor(b, newFrameOf);
            PlanFor(a + b, newFrameOf)
              == if pa.completed then Plan(pa.moves + pb.moves, pb.completed) else pa
    decreases |a|
  {
    if |a| == 0 {
      assert a + b == b;
    } else {
      assert (a + b)[0] == a[0];
      assert (a + b)[1..] == a[1..] + b;
      PlanAppend(a[1..], b, newFrameOf);
    }
  }
}
