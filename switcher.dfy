/**
 * The switcher session (src/switcher.cpp:52-84, 200-216, 300-613): the
 * window list and cursor, the cached layout and pixel buffer, and the
 * IDLE / INTRO / VISIBLE / FADEOUT animation with its two timers. Every
 * Win32 query the source makes is a parameter here (the enumerated
 * windows, the foreground window, GetTickCount64, text extents, the
 * indicator rectangle, whether CreateWindowExW and CreateDIBSection
 * succeed, IsWindow, what FillRect and DrawTextW paint), and every
 * UpdateLayeredWindow call is recorded in `presented`.
 */
module Switcher {
  import opened Wrappers
  import opened Geometry
  import opened Texels
  import opened Labels
  import opened ChipLayout
  import opened Animation
  import opened PanelFrame

  datatype AnimState = Idle | Intro | Visible | FadeOut

  /**
   * One UpdateLayeredWindow call. `Drawn` follows `render_frame(progress)`
   * with the panel at `pos`; `Faded` is a fade-out step, which keeps the
   * window where it is and only lowers the constant alpha.
   */
  datatype Presentation = Drawn(pos: Point, progress: real) | Faded(alpha: nat)

  /** The destination point passed to UpdateLayeredWindow (None: unchanged). */
  function Destination(p: Presentation): Option<Point>
  {
    match p
    case Drawn(pos, g) => Some(Point(pos.x, pos.y + SlideOffset(g)))
    case Faded(_) => None
  }

  /** The SourceConstantAlpha of the call. */
  function Alpha(p: Presentation): nat
  {
    match p
    case Drawn(_, _) => PanelAlpha
    case Faded(a) => a
  }

  /**
   * A drawn frame sits SlideDistance pixels below the panel position at the
   * start of the intro and at the panel position from half-way on, always
   * at the steady alpha; a fade step never moves the window.
   */
  lemma PresentationPlacement(p: Presentation)
    ensures p.Drawn? && p.progress <= 0.0 ==> Destination(p) == Some(Point(p.pos.x, p.pos.y + SlideDistance))
    ensures p.Drawn? && p.progress >= 0.5 ==> Destination(p) == Some(p.pos)
    ensures p.Drawn? ==> Alpha(p) == PanelAlpha
    ensures p.Faded? ==> Destination(p) == None
  {
    if p.Drawn? {
      SlideEnds(p.progress);
    }
  }

  /** `(cursor + 1) % n`: right from no selection is the first window; right from the last wraps to the first. */
  function NextCursor(cursor: int, n: nat): (c: int)
    requires n > 0 && -1 <= cursor < n
    ensures 0 <= c < n
    ensures cursor < n - 1 ==> c == cursor + 1
    ensures cursor == n - 1 ==> c == 0
  {
    (cursor + 1) % n
  }

  /** Left from no selection or from the first window is the last window; otherwise one to the left. */
  function PrevCursor(cursor: int, n: nat): (c: int)
    requires n > 0 && -1 <= cursor < n
    ensures 0 <= c < n
    ensures cursor <= 0 ==> c == n - 1
    ensures cursor > 0 ==> c == cursor - 1
  {
    if cursor <= 0 then n - 1 else cursor - 1
  }

  /** Left undoes right and right undoes left once a window is selected. */
  lemma CursorMovesInverse(cursor: int, n: nat)
    requires n > 0 && 0 <= cursor < n
    ensures PrevCursor(NextCursor(cursor, n), n) == cursor
    ensures NextCursor(PrevCursor(cursor, n), n) == cursor
  {
  }

  /** `steps` presses of right from `cursor`. */
  function RepeatNext(cursor: int, n: nat, steps: nat): (c: int)
    requires n > 0 && -1 <= cursor < n
    ensures -1 <= c < n
  {
    if steps == 0 then cursor else NextCursor(RepeatNext(cursor, n, steps - 1), n)
  }

  /**
   * Up to n presses of right from window `cursor` walk forward and wrap
   * once; in particular n presses come back to the same window.
   */
  lemma {:induction false} RightCycles(cursor: int, n: nat, steps: nat)
    requires n > 0 && 0 <= cursor < n && steps <= n
    ensures RepeatNext(cursor, n, steps) == if cursor + steps < n then cursor + steps else cursor + steps - n
    ensures steps == n ==> RepeatNext(cursor, n, steps) == cursor
  {
    if steps > 0 {
      RightCycles(cursor, n, steps - 1);
    }
  }

  /** The first window whose handle is `fg`, or -1. */
  function IndexOfHandle(windows: seq<WindowEntry>, fg: Handle): (i: int)
    ensures -1 <= i < |windows|
    ensures i >= 0 ==> windows[i].hwnd == fg && forall j :: 0 <= j < i ==> windows[j].hwnd != fg
    ensures i == -1 ==> forall j :: 0 <= j < |windows| ==> windows[j].hwnd != fg
  {
    if windows == [] then -1
    else if windows[0].hwnd == fg then 0
    else var i := IndexOfHandle(windows[1..], fg); if i == -1 then -1 else i + 1
  }

  /** The search loop of `toggle` and `sync_cursor_to_foreground` (src/switcher.cpp:434-441, 537-540). */
  method FindForeground(windows: seq<WindowEntry>, fg: Handle) returns (i: int)
    ensures -1 <= i < |windows|
    ensures i >= 0 ==> windows[i].hwnd == fg && forall j :: 0 <= j < i ==> windows[j].hwnd != fg
    ensures i == -1 ==> forall j :: 0 <= j < |windows| ==> windows[j].hwnd != fg
  {
    for j := 0 to |windows|
      invariant forall m :: 0 <= m < j ==> windows[m].hwnd != fg
    {
      if windows[j].hwnd == fg {
        return j;
      }
    }
    return -1;
  }

  class Session {
    var hasWindow: bool            // g_hwnd != nullptr
    var pixels: array?<Texel>      // g_pixels, the DIB section's texels
    var windows: seq<WindowEntry>  // g_windows
    var cursor: int                // g_cursor
    var layout: Layout             // g_chips, g_itemHeight, g_panelW, g_panelH, g_panelPos
    var state: AnimState           // g_state
    var animStart: Tick            // g_animStart
    var animTimer: bool            // kAnimTimerId is set
    var focusTimer: bool           // kFocusTimerId is set
    var presented: seq<Presentation>

    /**
     * The part of the invariant about data: the cursor is -1 or selects a
     * window, and a pixel buffer belongs to the window and holds one texel
     * per pixel of the laid-out panel.
     */
    predicate Buffers()
      reads this
    {
      && -1 <= cursor < |windows|
      && (pixels != null ==>
            hasWindow && pixels.Length == layout.panelW * layout.panelH &&
            Panel(layout.chips, layout.itemHeight, layout.panelW, layout.panelH))
    }

    /**
     * Buffers(), and the animation timer runs exactly in INTRO and FADEOUT,
     * the focus poll exactly in INTRO and VISIBLE, and a non-idle session
     * has its window.
     */
    predicate Consistent()
      reads this
    {
      && Buffers()
      && (animTimer <==> state == Intro || state == FadeOut)
      && (focusTimer <==> state == Intro || state == Visible)
      && (state != Idle ==> hasWindow)
    }

    /**
     * What every entry point preserves: Consistent(), and an IDLE session
     * holds no buffer. Only `toggle` breaks the second part, for the steps
     * between cancelling a fade-out and either hiding again or releasing the
     * buffer in `create_bitmap`.
     */
    predicate Valid()
      reads this
    {
      Consistent() && (state == Idle ==> pixels == null)
    }

    /** `render_frame`'s guard: there is something to draw into and something to draw. */
    predicate Drawable()
      reads this
    {
      hasWindow && pixels != null && layout.chips != []
    }

    /** The buffer holds the whole frame for global progress g. */
    predicate ShowsFrame(g: real, ink: Ink)
      reads this, pixels
    {
      && Drawable()
      && layout.panelW > 0
      && forall k :: 0 <= k < pixels.Length ==>
           pixels[k] == FrameTexel(layout.chips, layout.itemHeight, cursor, g, ink, Col(k, layout.panelW), Row(k, layout.panelW))
    }

    /** Every texel of the buffer is the opaque background. */
    predicate Blank()
      reads this, pixels
    {
      pixels != null && forall k :: 0 <= k < pixels.Length ==> pixels[k] == OpaqueBg
    }

    constructor ()
      ensures Valid() && state == Idle && !hasWindow && pixels == null && windows == [] && cursor == -1
      ensures layout.chips == [] && !animTimer && !focusTimer && presented == []
    {
      hasWindow := false;
      pixels := null;
      windows := [];
      cursor := -1;
      layout := Layout([], 0, 0, 0, Point(0, 0));
      state := Idle;
      animStart := 0;
      animTimer := false;
      focusTimer := false;
      presented := [];
    }

    /**
     * `render_frame` (src/switcher.cpp:300-401): when there is a buffer and
     * at least one chip, the buffer is overwritten with the frame for
     * global progress g and presented at the panel position lowered by the
     * slide offset, at the steady alpha; otherwise nothing happens.
     */
    method RenderFrame(g: real, ink: Ink)
      requires Buffers()
      modifies this, pixels
      ensures Buffers()
      ensures hasWindow == old(hasWindow) && pixels == old(pixels) && windows == old(windows) && cursor == old(cursor)
      ensures layout == old(layout) && state == old(state) && animStart == old(animStart)
      ensures animTimer == old(animTimer) && focusTimer == old(focusTimer)
      ensures !Drawable() ==> presented == old(presented) && (pixels != null ==> unchanged(pixels))
      ensures Drawable() ==>
        && ShowsFrame(g, ink)
        && presented == old(presented) + [Drawn(layout.pos, g)]
    {
      if !hasWindow || pixels == null || layout.chips == [] {
        return;
      }
      ComposeFrame(pixels, layout.chips, layout.itemHeight, layout.panelW, layout.panelH, cursor, g, ink);
      presented := presented + [Drawn(layout.pos, g)];
    }

    /**
     * `do_hide` (src/switcher.cpp:403-415): timers stopped, window and
     * buffer released, window list and layout cleared, back to IDLE.
     */
    method DoHide()
      requires Buffers() && (animTimer || focusTimer ==> hasWindow)
      modifies this
      ensures Valid()
      ensures state == Idle && !hasWindow && pixels == null && windows == [] && layout.chips == [] && cursor == -1
      ensures !animTimer && !focusTimer
      ensures presented == old(presented) && animStart == old(animStart)
    {
      if hasWindow {
        animTimer := false;
        focusTimer := false;
        hasWindow := false;
      }
      pixels := null;
      windows := [];
      layout := layout.(chips := []);
      cursor := -1;
      state := Idle;
    }

    /**
     * `hide` (src/switcher.cpp:594-607): unless there is no window or a
     * fade is already running, render the final full frame and start the
     * fade-out from `now`, with only the animation timer running.
     */
    method Hide(now: Tick, ink: Ink)
      requires Consistent()
      modifies this, pixels
      ensures Valid()
      ensures !old(hasWindow) || old(state) == FadeOut ==>
        state == old(state) && animStart == old(animStart) && presented == old(presented)
        && animTimer == old(animTimer) && focusTimer == old(focusTimer)
      ensures old(hasWindow) && old(state) != FadeOut ==>
        state == FadeOut && animStart == now && animTimer && !focusTimer
        && (old(Drawable()) ==> ShowsFrame(1.0, ink) && presented == old(presented) + [Drawn(layout.pos, 1.0)])
        && (!old(Drawable()) ==> presented == old(presented))
      ensures hasWindow == old(hasWindow) && pixels == old(pixels) && windows == old(windows) && cursor == old(cursor)
      ensures layout == old(layout)
      ensures presented == old(presented) && pixels != null ==> unchanged(pixels)
    {
      if !hasWindow || state == FadeOut {
        return;
      }
      focusTimer := false;
      if state == Intro {
        animTimer := false;
      }
      RenderFrame(1.0, ink);
      state := FadeOut;
      animStart := now;
      animTimer := true;
    }

    /** `shutdown` (src/switcher.cpp:609-613): straight to IDLE, everything released. */
    method Shutdown()
      requires Valid()
      modifies this
      ensures Valid() && state == Idle && !hasWindow && pixels == null && windows == [] && !animTimer && !focusTimer
      ensures layout.chips == [] && cursor == -1 && presented == old(presented) && animStart == old(animStart)
    {
      state := Idle;
      DoHide();
    }

    /**
     * `focus_current` (src/switcher.cpp:417-425): the window to bring to the
     * foreground (after which the edge flash plays), if the cursor selects
     * one that still exists.
     */
    method FocusCurrent(isWindow: Handle -> bool) returns (target: Option<Handle>)
      requires Valid()
      ensures target.Some? <==> 0 <= cursor < |windows| && isWindow(windows[cursor].hwnd)
      ensures target.Some? ==> target.value == windows[cursor].hwnd
    {
      if cursor < 0 || cursor >= |windows| {
        return None;
      }
      var t := windows[cursor].hwnd;
      if !isWindow(t) {
        return None;
      }
      return Some(t);
    }

    /**
     * The fade-out cancel shared by `move_left` and `move_right`
     * (src/switcher.cpp:560-564, 580-584): back to VISIBLE with the focus
     * poll running again and the animation timer stopped.
     */
    method CancelFade()
      requires Valid() && hasWindow
      modifies this
      ensures Valid()
      ensures old(state) == FadeOut ==> state == Visible && !animTimer && focusTimer
      ensures old(state) != FadeOut ==> state == old(state) && animTimer == old(animTimer) && focusTimer == old(focusTimer)
      ensures hasWindow == old(hasWindow) && pixels == old(pixels) && windows == old(windows) && cursor == old(cursor)
      ensures layout == old(layout) && animStart == old(animStart) && presented == old(presented)
    {
      if state == FadeOut {
        animTimer := false;
        state := Visible;
        focusTimer := true;
      }
    }

    /**
     * What a move to window c leaves behind, given the state and the
     * presentations before it: c selected, a fade-out cancelled back to
     * VISIBLE, the full frame drawn and presented in place when VISIBLE,
     * and the selected window to be focused if it still exists.
     */
    predicate MovedTo(c: int, state0: AnimState, presented0: seq<Presentation>, isWindow: Handle -> bool, ink: Ink,
                      target: Option<Handle>)
      reads this, pixels
    {
      && cursor == c
      && 0 <= c < |windows|
      && state == (if state0 == FadeOut then Visible else state0)
      && (state == Visible && Drawable() ==> ShowsFrame(1.0, ink))
      && presented == (if state == Visible && Drawable()
                       then presented0 + [Drawn(layout.pos, 1.0)]
                       else presented0)
      && (target.Some? <==> isWindow(windows[c].hwnd))
      && (target.Some? ==> target.value == windows[c].hwnd)
    }

    /** The part `move_left` and `move_right` share (src/switcher.cpp:560-574, 580-591). */
    method MoveTo(c: int, isWindow: Handle -> bool, ink: Ink) returns (target: Option<Handle>)
      requires Valid() && hasWindow && 0 <= c < |windows|
      modifies this, pixels
      ensures Valid() && windows == old(windows) && layout == old(layout) && hasWindow
      ensures pixels == old(pixels) && animStart == old(animStart)
      ensures MovedTo(c, old(state), old(presented), isWindow, ink, target)
      ensures presented == old(presented) && pixels != null ==> unchanged(pixels)
    {
      CancelFade();
      cursor := c;
      if state == Visible {
        RenderFrame(1.0, ink);
      }
      target := FocusCurrent(isWindow);
    }

    /**
     * `move_left` (src/switcher.cpp:556-575): with a window and a
     * non-empty list, cancel a fade-out, move the cursor one to the left
     * (wrapping), redraw when VISIBLE and focus the selected window.
     */
    method MoveLeft(isWindow: Handle -> bool, ink: Ink) returns (target: Option<Handle>)
      requires Valid()
      modifies this, pixels
      ensures Valid() && windows == old(windows) && layout == old(layout)
      ensures hasWindow == old(hasWindow) && pixels == old(pixels) && animStart == old(animStart)
      ensures !old(hasWindow) || old(windows) == [] ==>
        cursor == old(cursor) && state == old(state) && presented == old(presented) && target == None
      ensures old(hasWindow) && old(windows) != [] ==>
        MovedTo(PrevCursor(old(cursor), |old(windows)|), old(state), old(presented), isWindow, ink, target)
      ensures presented == old(presented) && pixels != null ==> unchanged(pixels)
    {
      if !hasWindow || windows == [] {
        return None;
      }
      target := MoveTo(PrevCursor(cursor, |windows|), isWindow, ink);
    }

    /**
     * `move_right` (src/switcher.cpp:577-592): as MoveLeft, one to the
     * right with `(cursor + 1) % n`.
     */
    method MoveRight(isWindow: Handle -> bool, ink: Ink) returns (target: Option<Handle>)
      requires Valid()
      modifies this, pixels
      ensures Valid() && windows == old(windows) && layout == old(layout)
      ensures hasWindow == old(hasWindow) && pixels == old(pixels) && animStart == old(animStart)
      ensures !old(hasWindow) || old(windows) == [] ==>
        cursor == old(cursor) && state == old(state) && presented == old(presented) && target == None
      ensures old(hasWindow) && old(windows) != [] ==>
        MovedTo(NextCursor(old(cursor), |old(windows)|), old(state), old(presented), isWindow, ink, target)
      ensures presented == old(presented) && pixels != null ==> unchanged(pixels)
    {
      if !hasWindow || windows == [] {
        return None;
      }
      target := MoveTo(NextCursor(cursor, |windows|), isWindow, ink);
    }

    /**
     * `sync_cursor_to_foreground` (src/switcher.cpp:427-448), run by the
     * focus poll: outside FADEOUT the cursor follows the foreground window
     * (-1 when it is not in the list), redrawing when VISIBLE and the
     * cursor changed.
     */
    method SyncCursor(fg: Handle, ink: Ink)
      requires Valid()
      modifies this, pixels
      ensures Valid()
      ensures !old(hasWindow) || old(windows) == [] || old(state) == FadeOut ==>
        cursor == old(cursor) && presented == old(presented)
      ensures old(hasWindow) && old(windows) != [] && old(state) != FadeOut ==>
        cursor == IndexOfHandle(windows, fg)
      ensures cursor == old(cursor) || state != Visible || !Drawable() ==> presented == old(presented)
      ensures cursor != old(cursor) && state == Visible && Drawable() ==>
        ShowsFrame(1.0, ink) && presented == old(presented) + [Drawn(layout.pos, 1.0)]
      ensures windows == old(windows) && layout == old(layout) && state == old(state)
      ensures hasWindow == old(hasWindow) && pixels == old(pixels) && animStart == old(animStart)
      ensures presented == old(presented) && pixels != null ==> unchanged(pixels)
    {
      if !hasWindow || windows == [] {
        return;
      }
      if state == FadeOut {
        return;
      }
      var i := FindForeground(windows, fg);
      if i >= 0 {
        if cursor != i {
          cursor := i;
          if state == Visible {
            RenderFrame(1.0, ink);
          }
        }
        return;
      }
      if cursor != -1 {
        cursor := -1;
        if state == Visible {
          RenderFrame(1.0, ink);
        }
      }
    }

    /**
     * The animation timer (src/switcher.cpp:455-489). In INTRO: once the
     * whole intro has elapsed, switch to VISIBLE, stop the timer and draw
     * the full frame; before that, draw the frame for `elapsed / totalMs`.
     * In FADEOUT: once 300 ms have elapsed, release everything; before
     * that, present the buffer in place with the fading alpha.
     */
    method AnimTick(now: Tick, ink: Ink)
      requires Valid()
      modifies this, pixels
      ensures Valid()
      ensures var elapsed := Elapsed(now, old(animStart));
        && (old(state) == Intro && elapsed >= IntroMs(|layout.chips|) ==>
              && state == Visible && !animTimer && focusTimer
              && (Drawable() ==> ShowsFrame(1.0, ink) && presented == old(presented) + [Drawn(layout.pos, 1.0)]))
        && (old(state) == Intro && elapsed < IntroMs(|layout.chips|) ==>
              && state == Intro && animTimer
              && (Drawable() ==>
                    && ShowsFrame(IntroProgress(elapsed, |layout.chips|), ink)
                    && presented == old(presented) + [Drawn(layout.pos, IntroProgress(elapsed, |layout.chips|))]))
        && (old(state) == FadeOut && elapsed >= FadeOutMs ==>
              state == Idle && !hasWindow && pixels == null && windows == [] && presented == old(presented))
        && (old(state) == FadeOut && elapsed < FadeOutMs ==>
              state == FadeOut && presented == old(presented) + [Faded(FadeAlpha(elapsed))])
        && (old(state) == Idle || old(state) == Visible ==> state == old(state) && presented == old(presented))
      ensures old(state) != FadeOut || Elapsed(now, old(animStart)) < FadeOutMs ==>
        && hasWindow == old(hasWindow) && pixels == old(pixels) && windows == old(windows)
        && cursor == old(cursor) && layout == old(layout) && animStart == old(animStart)
      ensures !Drawable() ==> presented == old(presented) || old(state) == FadeOut
      ensures old(state) != Intro && pixels != null ==> unchanged(pixels)
    {
      var elapsed := Elapsed(now, animStart);
      if state == Intro {
        var n := |layout.chips|;
        var t := IntroProgress(elapsed, n);
        IntroProgressDone(elapsed, n);
        if t >= 1.0 {
          state := Visible;
          animTimer := false;
          RenderFrame(1.0, ink);
        } else {
          RenderFrame(t, ink);
        }
      } else if state == FadeOut {
        var t := elapsed as real / FadeOutMs as real;
        QuotientAtLeastOne(elapsed as real, FadeOutMs as real);
        if t >= 1.0 {
          DoHide();
        } else {
          presented := presented + [Faded(FadeAlpha(elapsed))];
        }
      }
    }

    /** `enumerate_windows`'s bookkeeping (src/switcher.cpp:199-216) on the windows the host lists. */
    method EnumerateWindows(listed: seq<WindowEntry>)
      requires Consistent()
      modifies this
      ensures Consistent()
      ensures |windows| == |listed| && cursor == -1
      ensures forall i :: 0 <= i < |listed| ==> windows[i].hwnd == listed[i].hwnd
      ensures Titles(windows) == Disambiguated(Titles(listed))
      ensures hasWindow == old(hasWindow) && pixels == old(pixels) && layout == old(layout) && state == old(state)
      ensures animStart == old(animStart) && animTimer == old(animTimer) && focusTimer == old(focusTimer)
      ensures presented == old(presented)
    {
      cursor := -1;
      windows := Disambiguate(listed);
    }

    /**
     * `toggle` (src/switcher.cpp:511-554): cancel a fade-out, re-list the
     * windows; with none, hide. Otherwise make sure the window exists, lay
     * out the chips, allocate a fresh buffer, select the foreground window
     * and start the intro at `now` with its first frame and both timers.
     * `windowOk` and `bitmapOk` say whether CreateWindowExW and
     * CreateDIBSection succeed; on a failure toggle stops where the source
     * returns.
     */
    method Toggle(listed: seq<WindowEntry>, fg: Handle, now: Tick, measure: Measure, ind: Rect, work: Rect,
                  windowOk: bool, bitmapOk: bool, ink: Ink)
      requires Valid()
      modifies this, pixels
      ensures Valid()
      ensures |windows| == |listed| && Titles(windows) == Disambiguated(Titles(listed))
      ensures forall i :: 0 <= i < |listed| ==> windows[i].hwnd == listed[i].hwnd
      ensures listed == [] ==>
        && hasWindow == old(hasWindow) && pixels == old(pixels) && layout == old(layout) && cursor == -1
        && state == (if old(hasWindow) then FadeOut else Idle)
        && (old(hasWindow) ==>
              && animStart == now && animTimer && !focusTimer
              && (Drawable() ==> ShowsFrame(1.0, ink) && presented == old(presented) + [Drawn(layout.pos, 1.0)])
              && (!Drawable() ==> presented == old(presented)))
        && (!old(hasWindow) ==> animStart == old(animStart) && presented == old(presented))
      ensures listed != [] ==>
        Opened(old(hasWindow), if old(state) == FadeOut then Idle else old(state), old(presented), old(pixels),
               fg, now, measure, ind, work, windowOk, bitmapOk, ink)
    {
      if state == FadeOut {
        animTimer := false;
        state := Idle;
      }
      EnumerateWindows(listed);
      if windows == [] {
        Hide(now, ink);
        return;
      }
      Open(fg, now, measure, ind, work, windowOk, bitmapOk, ink);
    }

    /**
     * What `toggle` leaves behind for a non-empty list, given whether there
     * was a window, the state, the presentations and the buffer before it
     * started: no window and none created leaves the session idle; otherwise
     * the layout is that of the listed titles; a failed allocation leaves
     * no buffer and no selection; a successful one starts the intro at
     * `now` on a fresh, all-background buffer, with the foreground window
     * selected and one presentation lowered by the full slide distance.
     */
    predicate Opened(hadWindow: bool, state0: AnimState, presented0: seq<Presentation>, pixels0: array?<Texel>,
                     fg: Handle, now: Tick, measure: Measure, ind: Rect, work: Rect,
                     windowOk: bool, bitmapOk: bool, ink: Ink)
      reads this, pixels
    {
      && (!hadWindow && !windowOk ==>
            !hasWindow && state == Idle && cursor == -1 && pixels == pixels0 && presented == presented0)
      && (hadWindow || windowOk ==>
            && hasWindow
            && LayoutOf(layout, Titles(windows), measure, ind, work)
            && (!bitmapOk ==> pixels == null && cursor == -1 && state == state0 && presented == presented0))
      && ((hadWindow || windowOk) && bitmapOk ==>
            && pixels != null && pixels != pixels0
            && cursor == IndexOfHandle(windows, fg)
            && state == Intro && animStart == now && animTimer && focusTimer
            && ShowsFrame(0.0, ink)
            && Blank()
            && presented == presented0 + [Drawn(layout.pos, 0.0)])
    }

    /**
     * The rest of `toggle` once the list is non-empty (src/switcher.cpp:
     * 525-553): create the window if there is none (stopping if that
     * fails), lay out, allocate the buffer (stopping if that fails) and
     * start the intro.
     */
    method Open(fg: Handle, now: Tick, measure: Measure, ind: Rect, work: Rect,
                windowOk: bool, bitmapOk: bool, ink: Ink)
      requires Consistent() && windows != [] && state != FadeOut && cursor == -1
      modifies this
      ensures Valid() && windows == old(windows)
      ensures Opened(old(hasWindow), old(state), old(presented), old(pixels), fg, now, measure, ind, work, windowOk, bitmapOk, ink)
      ensures (old(hasWindow) || windowOk) && bitmapOk ==> fresh(pixels)
    {
      if !hasWindow {
        if !windowOk {
          return;
        }
        hasWindow := true;
      }
      Relayout(measure, ind, work);
      if !bitmapOk {
        return;
      }
      StartIntro(fg, now, ink);
    }

    /**
     * `compute_layout` into the session's fields, and the release of the
     * previous buffer with which `create_bitmap` begins (src/switcher.cpp:
     * 246-297, 541).
     */
    method Relayout(measure: Measure, ind: Rect, work: Rect)
      requires Consistent() && hasWindow
      modifies this
      ensures Valid() && hasWindow && pixels == null
      ensures Panel(layout.chips, layout.itemHeight, layout.panelW, layout.panelH) && |layout.chips| == |windows|
      ensures LayoutOf(layout, Titles(windows), measure, ind, work)
      ensures windows == old(windows) && cursor == old(cursor) && state == old(state) && animStart == old(animStart)
      ensures animTimer == old(animTimer) && focusTimer == old(focusTimer) && presented == old(presented)
    {
      var l := ComputeLayout(Titles(windows), measure, ind, work);
      pixels := null;
      layout := l;
    }

    /**
     * The end of `toggle` (src/switcher.cpp:542-553) once the buffer is
     * allocated: the cursor selects the foreground window, the intro starts
     * at `now` with its first frame (all background: no chip is revealed
     * yet), lowered by the full slide distance, and both timers run.
     */
    method StartIntro(fg: Handle, now: Tick, ink: Ink)
      requires Valid() && hasWindow && pixels == null
      requires Panel(layout.chips, layout.itemHeight, layout.panelW, layout.panelH) && layout.chips != []
      modifies this
      ensures Valid()
      ensures pixels != null && fresh(pixels) && Drawable()
      ensures cursor == IndexOfHandle(windows, fg)
      ensures state == Intro && animStart == now && animTimer && focusTimer
      ensures ShowsFrame(0.0, ink) && Blank()
      ensures presented == old(presented) + [Drawn(layout.pos, 0.0)]
      ensures windows == old(windows) && layout == old(layout)
    {
      var buffer := new Texel[layout.panelW * layout.panelH];
      var i := FindForeground(windows, fg);
      pixels, cursor, state, animStart := buffer, i, Intro, now;
      RenderFrame(0.0, ink);
      FirstFrameBlank(pixels, layout.chips, layout.itemHeight, layout.panelW, cursor, 0.0, ink);
      animTimer, focusTimer := true, true;
    }
  }
}
