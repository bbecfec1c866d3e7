/**
 * The keypad indicator (src/indicator.cpp): a 32 x 32 layered window at the
 * bottom-left of the work area that breathes, spins for 1.2 s when it is
 * shown or clicked, can be dragged with the left button, and fades out over
 * 0.4 s before it is destroyed. The window, its DIB section and its timer
 * are flags; the tick counter, the cursor position and the work area are
 * inputs; each `UpdateLayeredWindow` is recorded as the spin and constant
 * alpha it put on screen.
 */
module Indicator {
  import opened Geometry
  import opened Animation
  import opened ChipLayout

  const Size: int := 32           // kSize
  const Margin: int := 8          // kMargin
  const DragThreshold: int := 5   // kDragThreshold
  const SpinMs: nat := 1200       // kSpinDurationMs
  const FadeMs: nat := 400        // kFadeDurationMs
  const Opaque: nat := 255        // SourceConstantAlpha of a frame that is not fading

  /**
   * One `UpdateLayeredWindow`: how far through its half turn the spin is
   * (the angle is `turn` times pi) and the constant alpha of the window.
   */
  datatype Frame = Frame(turn: real, alpha: nat)

  function Abs(a: int): nat
  {
    if a < 0 then -a else a
  }

  /** A cursor at p has left the press point by more than the drag threshold on some axis. */
  predicate Beyond(press: Point, p: Point)
  {
    Abs(p.x - press.x) > DragThreshold || Abs(p.y - press.y) > DragThreshold
  }

  /** Some cursor position since the press has gone beyond the threshold. */
  ghost predicate Dragged(press: Point, moves: seq<Point>)
  {
    exists i :: 0 <= i < |moves| && Beyond(press, moves[i])
  }

  /** One more move drags exactly when it, or an earlier one, went beyond the threshold. */
  lemma DraggedSnoc(press: Point, moves: seq<Point>, p: Point)
    ensures Dragged(press, moves + [p]) <==> Dragged(press, moves) || Beyond(press, p)
  {
    var ms := moves + [p];
    if Beyond(press, p) {
      assert ms[|moves|] == p;
    }
    if Dragged(press, moves) {
      var i :| 0 <= i < |moves| && Beyond(press, moves[i]);
      assert ms[i] == moves[i];
    }
    if Dragged(press, ms) {
      var i :| 0 <= i < |ms| && Beyond(press, ms[i]);
      if i < |moves| {
        assert ms[i] == moves[i];
      }
    }
  }

  /** Ease-out cubic `1 - (1 - t)^3` of the spin. */
  function SpinEase(t: real): real
  {
    1.0 - Power(1.0 - t, 3)
  }

  function Power(u: real, n: nat): real
  {
    if n == 0 then 1.0 else u * Power(u, n - 1)
  }

  /** The spin starts at rest and stays within its half turn. */
  lemma SpinEaseRange(t: real)
    requires 0.0 <= t <= 1.0
    ensures SpinEase(0.0) == 0.0 && SpinEase(1.0) == 1.0
    ensures 0.0 <= SpinEase(t) <= 1.0
  {
    PowerUnitBounds(1.0 - t, 3);
  }

  /** A power of a number between 0 and 1 stays between 0 and 1. */
  lemma {:induction false} PowerUnitBounds(u: real, n: nat)
    requires 0.0 <= u <= 1.0
    ensures 0.0 <= Power(u, n) <= 1.0
  {
    if n > 0 {
      PowerUnitBounds(u, n - 1);
      ProductBelow(Power(u, n - 1), u);
    }
  }

  lemma ProductBelow(a: real, b: real)
    requires 0.0 <= a <= 1.0 && 0.0 <= b <= 1.0
    ensures 0.0 <= a * b <= a
  {
  }

  /** A power of a positive number is positive. */
  lemma {:induction false} PowerPositive(u: real, n: nat)
    requires u > 0.0
    ensures Power(u, n) > 0.0
  {
    if n > 0 {
      PowerPositive(u, n - 1);
      ProductPositive(u, Power(u, n - 1));
    }
  }

  lemma ProductPositive(a: real, b: real)
    requires a > 0.0 && b > 0.0
    ensures a * b > 0.0
  {
  }

  /**
   * The spin of a frame at `now`: none while the start tick is 0 or once
   * 1200 ms have gone by, otherwise the eased fraction of the half turn.
   */
  function SpinTurn(spinStart: Tick, now: Tick): (turn: real)
    ensures spinStart == 0 || Elapsed(now, spinStart) >= SpinMs ==> turn == 0.0
    ensures spinStart > 0 && Elapsed(now, spinStart) < SpinMs ==>
      turn == SpinEase(Elapsed(now, spinStart) as real / SpinMs as real) && 0.0 <= turn < 1.0
  {
    var t := Elapsed(now, spinStart) as real / SpinMs as real;
    QuotientAtLeastOne(Elapsed(now, spinStart) as real, SpinMs as real);
    if spinStart > 0 && t < 1.0 then
      SpinEaseBelowOne(t);
      SpinEase(t)
    else 0.0
  }

  /** Before the spin is over it has not yet completed its half turn. */
  lemma SpinEaseBelowOne(t: real)
    requires 0.0 <= t < 1.0
    ensures 0.0 <= SpinEase(t) < 1.0
  {
    SpinEaseRange(t);
    PowerPositive(1.0 - t, 3);
  }

  /**
   * The window's constant alpha `elapsed` ms into the fade: `(1 - t^2) * 255`
   * with `t = elapsed / 400`, truncated to a byte.
   */
  function FadeOpacity(elapsed: nat): (a: nat)
    requires elapsed < FadeMs
    ensures a <= Opaque
  {
    var t := elapsed as real / FadeMs as real;
    QuotientAtLeastOne(elapsed as real, FadeMs as real);
    RealProductNonNegative(t, 1.0 - t);
    RealProductNonNegative(t, t);
    ((1.0 - t * t) * Opaque as real).Floor
  }

  /** The fade starts fully opaque and only ever gets more transparent. */
  lemma FadeOpacityDecreases(e1: nat, e2: nat)
    requires e1 <= e2 < FadeMs
    ensures FadeOpacity(0) == Opaque
    ensures FadeOpacity(e2) <= FadeOpacity(e1)
  {
    var t1 := e1 as real / FadeMs as real;
    var t2 := e2 as real / FadeMs as real;
    assert 0.0 <= t1 <= t2;
    RealProductNonNegative(t2 - t1, t2 + t1);
    assert t1 * t1 <= t2 * t2;
  }

  /** Where a fresh indicator goes: 8 px in from the work area's left and bottom edges. */
  function HomePosition(work: Rect): (p: Point)
    ensures p.x - work.left == Margin
    ensures work.bottom - (p.y + Size) == Margin
  {
    Point(work.left + Margin, work.bottom - Size - Margin)
  }

  class Indicator {
    var hasWindow: bool     // g_hwnd != nullptr
    var hasPixels: bool     // g_pixels != nullptr
    var timer: bool         // kAnimTimerId is set
    var startTick: Tick     // g_startTick, the breathing phase
    var spinStart: Tick     // g_spinStartTick, 0 when no spin runs
    var fading: bool        // g_fading_out
    var fadeStart: Tick     // g_fadeStartTick
    var mouseDown: bool     // g_mouse_down
    var dragging: bool      // g_dragging
    var dragStart: Point    // g_drag_start
    var windowStart: Point  // g_window_start
    var windowPos: Point    // the window's top-left corner on screen
    var frames: seq<Frame>  // every frame handed to UpdateLayeredWindow
    ghost var moves: seq<Point>  // cursor positions seen since the last press

    /**
     * The DIB section and the fade belong to the window, the timer runs
     * exactly while the window exists, and the drag flag is set only while
     * the button is held and exactly when some move since the press went
     * beyond the threshold.
     */
    ghost predicate Valid()
      reads this
    {
      && (hasPixels ==> hasWindow)
      && (timer <==> hasWindow)
      && (fading ==> hasWindow)
      && (dragging ==> mouseDown)
      && (mouseDown ==> dragging == Dragged(dragStart, moves))
    }

    /** The state before the first `show`: nothing on screen, nothing held. */
    constructor ()
      ensures Valid() && !hasWindow && !fading && !mouseDown && spinStart == 0 && frames == []
    {
      hasWindow, hasPixels, timer := false, false, false;
      startTick, spinStart, fading, fadeStart := 0, 0, false, 0;
      mouseDown, dragging := false, false;
      dragStart, windowStart, windowPos := Point(0, 0), Point(0, 0), Point(0, 0);
      frames := [];
      moves := [];
    }

    /**
     * `get_rect`: the window's screen rectangle while it exists, the
     * all-zero rectangle otherwise.
     */
    function Bounds(): (r: Rect)
      reads this
      ensures !hasWindow ==> r == ZeroRect
      ensures hasWindow ==>
        r.left == windowPos.x && r.top == windowPos.y && r.right - r.left == Size && r.bottom - r.top == Size
    {
      if hasWindow then Rect(windowPos.x, windowPos.y, windowPos.x + Size, windowPos.y + Size)
      else ZeroRect
    }

    /**
     * `do_hide`: with a window, end the fade, stop the timer, release the
     * bitmap and destroy the window; without one, do nothing.
     */
    method DoHide()
      requires Valid()
      modifies this
      ensures Valid()
      ensures !hasWindow && !hasPixels && !timer
      ensures fading == (old(fading) && !old(hasWindow))
      ensures !old(hasWindow) ==> hasPixels == old(hasPixels) && timer == old(timer)
      ensures spinStart == old(spinStart) && startTick == old(startTick) && fadeStart == old(fadeStart)
      ensures mouseDown == old(mouseDown) && dragging == old(dragging) && dragStart == old(dragStart)
      ensures windowStart == old(windowStart) && windowPos == old(windowPos) && moves == old(moves)
      ensures frames == old(frames)
    {
      if !hasWindow {
        return;
      }
      fading := false;
      timer := false;
      hasPixels := false;
      hasWindow := false;
    }

    /** `start_spin`: the spin restarts from `now`. */
    method StartSpin(now: Tick)
      requires Valid()
      modifies this
      ensures Valid() && spinStart == now
      ensures hasWindow == old(hasWindow) && hasPixels == old(hasPixels) && timer == old(timer)
      ensures fading == old(fading) && fadeStart == old(fadeStart) && startTick == old(startTick)
      ensures mouseDown == old(mouseDown) && dragging == old(dragging) && dragStart == old(dragStart)
      ensures windowStart == old(windowStart) && windowPos == old(windowPos) && moves == old(moves)
      ensures frames == old(frames)
    {
      spinStart := now;
    }

    /**
     * `render_frame`, run on every timer tick: nothing without a window and
     * a buffer. Otherwise a spin that has run 1200 ms ends (its start tick
     * goes back to 0); a fade that has run 400 ms hides the indicator and
     * draws nothing; any other frame is drawn with the spin's progress and
     * the fade's alpha (fully opaque when not fading).
     */
    method RenderFrame(now: Tick)
      requires Valid()
      modifies this
      ensures Valid()
      ensures !old(hasWindow) || !old(hasPixels) ==>
        hasWindow == old(hasWindow) && hasPixels == old(hasPixels) && fading == old(fading)
        && spinStart == old(spinStart) && frames == old(frames)
      ensures old(hasWindow) && old(hasPixels) ==>
        var spinElapsed := Elapsed(now, old(spinStart));
        var fadeElapsed := Elapsed(now, old(fadeStart));
        && (old(spinStart) > 0 && spinElapsed >= SpinMs ==> spinStart == 0)
        && (old(spinStart) == 0 || spinElapsed < SpinMs ==> spinStart == old(spinStart))
        && (old(fading) && fadeElapsed >= FadeMs ==>
              !hasWindow && !hasPixels && !timer && !fading && frames == old(frames))
        && (old(fading) && fadeElapsed < FadeMs ==>
              hasWindow && hasPixels && fading
              && frames == old(frames) + [Frame(SpinTurn(old(spinStart), now), FadeOpacity(fadeElapsed))])
        && (!old(fading) ==>
              hasWindow && hasPixels && !fading
              && frames == old(frames) + [Frame(SpinTurn(old(spinStart), now), Opaque)])
      ensures startTick == old(startTick) && fadeStart == old(fadeStart)
      ensures mouseDown == old(mouseDown) && dragging == old(dragging) && dragStart == old(dragStart)
      ensures windowStart == old(windowStart) && windowPos == old(windowPos) && moves == old(moves)
    {
      if !hasWindow || !hasPixels {
        return;
      }
      var turn := SpinTurn(spinStart, now);
      if spinStart > 0 {
        var t := Elapsed(now, spinStart) as real / SpinMs as real;
        QuotientAtLeastOne(Elapsed(now, spinStart) as real, SpinMs as real);
        if t >= 1.0 {
          spinStart := 0;
        }
      }
      var alpha := Opaque;
      if fading {
        var elapsed := Elapsed(now, fadeStart);
        var t := elapsed as real / FadeMs as real;
        QuotientAtLeastOne(elapsed as real, FadeMs as real);
        if t >= 1.0 {
          DoHide();
          return;
        }
        alpha := FadeOpacity(elapsed);
      }
      frames := frames + [Frame(turn, alpha)];
    }

    /**
     * `show`: a running fade is called off and the spin restarted, and
     * nothing else changes; an indicator already shown is left alone.
     * Otherwise a window is created at the bottom-left of the work area
     * (`created` tells whether that worked; if not, nothing else happens),
     * its DIB section is made (`buffered` tells whether that worked), the
     * breathing and the spin both start at `now`, the first frame is drawn
     * and the frame timer starts.
     */
    method Show(now: Tick, work: Rect, created: bool, buffered: bool)
      requires Valid()
      modifies this
      ensures Valid()
      ensures old(fading) ==>
        !fading && spinStart == now && hasWindow && hasPixels == old(hasPixels)
        && startTick == old(startTick) && windowPos == old(windowPos) && frames == old(frames)
      ensures !old(fading) && old(hasWindow) ==>
        !fading && spinStart == old(spinStart) && hasWindow && hasPixels == old(hasPixels)
        && startTick == old(startTick) && windowPos == old(windowPos) && frames == old(frames)
      ensures !old(fading) && !old(hasWindow) && !created ==>
        !hasWindow && hasPixels == old(hasPixels) && !fading && spinStart == old(spinStart)
        && startTick == old(startTick) && windowPos == old(windowPos) && frames == old(frames)
      ensures !old(fading) && !old(hasWindow) && created ==>
        hasWindow && timer && hasPixels == buffered && !fading && startTick == now && spinStart == now
        && windowPos == HomePosition(work)
        && frames == old(frames) + (if buffered then [Frame(0.0, Opaque)] else [])
      ensures fadeStart == old(fadeStart)
      ensures mouseDown == old(mouseDown) && dragging == old(dragging) && dragStart == old(dragStart)
      ensures windowStart == old(windowStart) && moves == old(moves)
    {
      if fading {
        fading := false;
        StartSpin(now);
        return;
      }
      if hasWindow {
        return;
      }
      if !created {
        return;
      }
      hasWindow := true;
      windowPos := HomePosition(work);
      hasPixels := buffered;
      startTick := now;
      timer := true;
      StartSpin(now);
      RenderFrame(now);
      assert SpinTurn(now, now) == 0.0;
    }

    /**
     * `hide`: without a window or with a fade already running, nothing;
     * otherwise the fade starts from `now` and the window stays up.
     */
    method Hide(now: Tick)
      requires Valid()
      modifies this
      ensures Valid()
      ensures !old(hasWindow) || old(fading) ==> fading == old(fading) && fadeStart == old(fadeStart)
      ensures old(hasWindow) && !old(fading) ==> fading && fadeStart == now
      ensures hasWindow == old(hasWindow) && hasPixels == old(hasPixels) && timer == old(timer)
      ensures spinStart == old(spinStart) && startTick == old(startTick) && frames == old(frames)
      ensures mouseDown == old(mouseDown) && dragging == old(dragging) && dragStart == old(dragStart)
      ensures windowStart == old(windowStart) && windowPos == old(windowPos) && moves == old(moves)
    {
      if !hasWindow || fading {
        return;
      }
      fading := true;
      fadeStart := now;
    }

    /** `shutdown`: the fade is dropped and the indicator is hidden at once. */
    method Shutdown()
      requires Valid()
      modifies this
      ensures Valid()
      ensures !hasWindow && !hasPixels && !timer && !fading
      ensures spinStart == old(spinStart) && startTick == old(startTick) && frames == old(frames)
      ensures mouseDown == old(mouseDown) && dragging == old(dragging) && windowPos == old(windowPos)
      ensures fadeStart == old(fadeStart) && dragStart == old(dragStart) && windowStart == old(windowStart)
      ensures moves == old(moves)
    {
      fading := false;
      DoHide();
    }

    /**
     * `WM_LBUTTONDOWN`: the button is held, no drag has happened yet, and
     * the cursor position `at` and the window's position are remembered.
     */
    method MouseDown(at: Point)
      requires Valid()
      modifies this
      ensures Valid()
      ensures mouseDown && !dragging && dragStart == at && windowStart == old(windowPos) && moves == []
      ensures hasWindow == old(hasWindow) && hasPixels == old(hasPixels) && fading == old(fading)
      ensures spinStart == old(spinStart) && startTick == old(startTick) && frames == old(frames)
      ensures windowPos == old(windowPos) && fadeStart == old(fadeStart)
    {
      mouseDown := true;
      dragging := false;
      dragStart := at;
      windowStart := windowPos;
      moves := [];
    }

    /**
     * `WM_MOUSEMOVE` with the cursor at `at`: ignored unless the button is
     * held. The drag begins once the cursor is more than 5 px from the press
     * point on either axis, and from then on the window follows the
     * cursor, keeping its offset from the press.
     */
    method MouseMove(at: Point)
      requires Valid()
      modifies this
      ensures Valid()
      ensures !old(mouseDown) ==> dragging == old(dragging) && windowPos == old(windowPos) && moves == old(moves)
      ensures old(mouseDown) ==> dragging == (old(dragging) || Beyond(dragStart, at)) && moves == old(moves) + [at]
      ensures old(mouseDown) && dragging ==>
        windowPos == Point(windowStart.x + (at.x - dragStart.x), windowStart.y + (at.y - dragStart.y))
      ensures !dragging ==> windowPos == old(windowPos)
      ensures mouseDown == old(mouseDown) && dragStart == old(dragStart) && windowStart == old(windowStart)
      ensures hasWindow == old(hasWindow) && hasPixels == old(hasPixels) && fading == old(fading)
      ensures spinStart == old(spinStart) && startTick == old(startTick) && frames == old(frames)
      ensures fadeStart == old(fadeStart)
    {
      if !mouseDown {
        return;
      }
      DraggedSnoc(dragStart, moves, at);
      moves := moves + [at];
      var dx := at.x - dragStart.x;
      var dy := at.y - dragStart.y;
      if !dragging && (Abs(dx) > DragThreshold || Abs(dy) > DragThreshold) {
        dragging := true;
      }
      if dragging {
        windowPos := Point(windowStart.x + dx, windowStart.y + dy);
      }
    }

    /**
     * `WM_LBUTTONUP`: ignored unless the button is held. A press that never
     * went beyond the threshold is a click and restarts the spin from
     * `now`; a drag does not. Either way both flags are cleared.
     */
    method MouseUp(now: Tick)
      requires Valid()
      modifies this
      ensures Valid()
      ensures !old(mouseDown) ==> spinStart == old(spinStart) && !dragging
      ensures old(mouseDown) && !Dragged(old(dragStart), old(moves)) ==> spinStart == now
      ensures old(mouseDown) && Dragged(old(dragStart), old(moves)) ==> spinStart == old(spinStart)
      ensures !mouseDown && !dragging
      ensures hasWindow == old(hasWindow) && hasPixels == old(hasPixels) && fading == old(fading)
      ensures startTick == old(startTick) && frames == old(frames) && windowPos == old(windowPos)
      ensures fadeStart == old(fadeStart) && dragStart == old(dragStart) && windowStart == old(windowStart)
      ensures moves == old(moves)
    {
      if !mouseDown {
        return;
      }
      mouseDown := false;
      if !dragging {
        spinStart := now;
      }
      dragging := false;
    }
  }

  /**
   * The switcher asks for the indicator's rectangle to place its panel;
   * while the indicator is not shown that is the all-zero rectangle, so the
   * panel goes to the work area's bottom-left corner.
   */
  lemma HiddenIndicatorPlacesPanelInCorner(ind: Indicator, work: Rect, panelH: nat)
    requires !ind.hasWindow
    ensures PanelPosition(ind.Bounds(), work, panelH) == Point(work.left + 40, work.bottom - panelH - 8)
  {
    PositionWithoutIndicator(work, panelH);
  }
}
