/**
 * The edge flash (src/edge_flash.cpp): after the switcher focuses a window,
 * a click-through layered window covering the whole screen shows a glow
 * along the four screen edges for half a second and is then destroyed.
 * The glow mask is rendered once, in place, into the DIB section; the
 * colour of a glow texel at a given distance from the edge (`glow_pixel`,
 * float math) is a parameter of the model, and so is the float envelope of
 * each frame's constant alpha, which the model records only as the elapsed
 * time of the frame.
 */
module EdgeFlash {
  import opened Geometry
  import opened Texels
  import opened Animation

  const GlowWidth: nat := 40     // kGlowWidth
  const DurationMs: nat := 500   // kDurationMs

  /** `glow_pixel`: the premultiplied texel at a given distance from the nearest edge. */
  type Glow = nat -> Texel

  /** A texel `ZeroMemory` leaves behind. */
  const Clear := Texel(0, 0, 0, 0)

  /** The width of the glow band: 40 px, or less on a screen too small for two bands. */
  function GlowBand(sw: nat, sh: nat): (gw: nat)
    ensures gw <= GlowWidth && gw <= sw / 2 && gw <= sh / 2
    ensures gw == GlowWidth || gw == sw / 2 || gw == sh / 2
  {
    Min(GlowWidth, Min(sw / 2, sh / 2))
  }

  /** How far (x, y) is from the nearest of the four edges of a sw-by-sh screen. */
  function EdgeDistance(sw: nat, sh: nat, x: nat, y: nat): int
  {
    Min(Min(x, sw - 1 - x), Min(y, sh - 1 - y))
  }

  /** What the glow mask holds at (x, y): the glow for its edge distance inside the band, clear elsewhere. */
  function GlowAt(glow: Glow, sw: nat, sh: nat, x: nat, y: nat): Texel
  {
    var d := EdgeDistance(sw, sh, x, y);
    if 0 <= d < GlowBand(sw, sh) then glow(d) else Clear
  }

  /** Texel k of a sw-wide buffer holds the glow mask of a sw-by-sh screen. */
  predicate Glowing(s: seq<Texel>, glow: Glow, sw: nat, sh: nat)
  {
    && |s| == sw * sh
    && forall k :: 0 <= k < |s| ==> sw > 0 && s[k] == GlowAt(glow, sw, sh, Col(k, sw), Row(k, sw))
  }

  /** The mask is the same seen from the left or the right, from the top or the bottom. */
  lemma GlowMirrored(glow: Glow, sw: nat, sh: nat, x: nat, y: nat)
    requires x < sw && y < sh
    ensures GlowAt(glow, sw, sh, sw - 1 - x, y) == GlowAt(glow, sw, sh, x, y)
    ensures GlowAt(glow, sw, sh, x, sh - 1 - y) == GlowAt(glow, sw, sh, x, y)
  {
  }

  /** A texel at least a band's width from every edge stays clear. */
  lemma GlowCentreClear(glow: Glow, sw: nat, sh: nat, x: nat, y: nat)
    requires GlowBand(sw, sh) <= x < sw - GlowBand(sw, sh)
    requires GlowBand(sw, sh) <= y < sh - GlowBand(sw, sh)
    ensures GlowAt(glow, sw, sh, x, y) == Clear
  {
  }

  /** The outermost ring is the glow at distance 0, as long as the screen has room for a band. */
  lemma GlowOnEdge(glow: Glow, sw: nat, sh: nat, x: nat, y: nat)
    requires sw >= 2 && sh >= 2 && x < sw && y < sh
    requires x == 0 || y == 0 || x == sw - 1 || y == sh - 1
    ensures GlowAt(glow, sw, sh, x, y) == glow(0)
  {
  }

  /** A nonempty buffer has a nonzero width. */
  lemma PositiveWidth(k: nat, sw: nat, sh: nat)
    requires k < sw * sh
    ensures sw > 0
  {
  }

  /**
   * The loops' progress: rows above y hold the mask, and the rest of the
   * buffer is still as `ZeroMemory` left it.
   */
  ghost predicate RowsDone(s: seq<Texel>, glow: Glow, sw: nat, sh: nat, y: nat)
  {
    && |s| == sw * sh
    && forall k :: 0 <= k < |s| ==>
         sw > 0 && s[k] == if Row(k, sw) < y then GlowAt(glow, sw, sh, Col(k, sw), Row(k, sw)) else Clear
  }

  /**
   * `render_glow`: the whole sw x sh buffer is cleared, then every texel
   * within the glow band of an edge gets the glow for its distance from
   * the nearest edge; texels further in stay clear.
   */
  method RenderGlow(a: array<Texel>, glow: Glow, sw: nat, sh: nat)
    requires a.Length == sw * sh
    modifies a
    ensures Glowing(a[..], glow, sw, sh)
  {
    for k := 0 to a.Length
      invariant forall j :: 0 <= j < k ==> a[j] == Clear
    {
      a[k] := Clear;
    }
    var gw := GlowBand(sw, sh);
    for y := 0 to sh
      invariant RowsDone(a[..], glow, sw, sh, y)
    {
      var dy := Min(y, sh - 1 - y);
      if dy >= gw {
        GlowCentreRow(a, glow, sw, sh, y);
      } else {
        GlowEdgeRow(a, glow, sw, sh, y);
      }
    }
    forall k | 0 <= k < a.Length
      ensures sw > 0 && a[k] == GlowAt(glow, sw, sh, Col(k, sw), Row(k, sw))
    {
      PositiveWidth(k, sw, sh);
      RowBelow(k, sw, sh);
    }
  }

  /**
   * A row further than the band from the top and bottom edges: only the
   * band's width at its left and right ends is written, mirrored, with
   * the glow for the distance from the side edge.
   */
  method GlowCentreRow(a: array<Texel>, glow: Glow, sw: nat, sh: nat, y: nat)
    requires y < sh && Min(y, sh - 1 - y) >= GlowBand(sw, sh)
    requires RowsDone(a[..], glow, sw, sh, y)
    modifies a
    ensures RowsDone(a[..], glow, sw, sh, y + 1)
  {
    var gw := GlowBand(sw, sh);
    for x := 0 to gw
      invariant forall k :: 0 <= k < a.Length ==>
        sw > 0 && a[k] == if Row(k, sw) < y || (Row(k, sw) == y && (Col(k, sw) < x || Col(k, sw) > sw - 1 - x))
                          then GlowAt(glow, sw, sh, Col(k, sw), Row(k, sw)) else Clear
    {
      var px := glow(x);
      var left, right := Idx(x, y, sw), Idx(sw - 1 - x, y, sw);
      IdxBelow(x, y, sw, sh);
      IdxBelow(sw - 1 - x, y, sw, sh);
      IdxRowCol(x, y, sw);
      IdxRowCol(sw - 1 - x, y, sw);
      SameCoordinates(a.Length, sw, left);
      SameCoordinates(a.Length, sw, right);
      a[left] := px;
      a[right] := px;
    }
  }

  /**
   * A row within the band of the top or bottom edge: every texel closer
   * than the band's width to its nearest edge gets the glow for that
   * distance.
   */
  method GlowEdgeRow(a: array<Texel>, glow: Glow, sw: nat, sh: nat, y: nat)
    requires y < sh && Min(y, sh - 1 - y) < GlowBand(sw, sh)
    requires RowsDone(a[..], glow, sw, sh, y)
    modifies a
    ensures RowsDone(a[..], glow, sw, sh, y + 1)
  {
    var gw := GlowBand(sw, sh);
    var dy := Min(y, sh - 1 - y);
    for x := 0 to sw
      invariant forall k :: 0 <= k < a.Length ==>
        sw > 0 && a[k] == if Row(k, sw) < y || (Row(k, sw) == y && Col(k, sw) < x)
                          then GlowAt(glow, sw, sh, Col(k, sw), Row(k, sw)) else Clear
    {
      var dx := Min(x, sw - 1 - x);
      var d := Min(dx, dy);
      var at := Idx(x, y, sw);
      IdxRowCol(x, y, sw);
      SameCoordinates(a.Length, sw, at);
      if d >= gw {
        continue;
      }
      IdxBelow(x, y, sw, sh);
      a[at] := glow(d);
    }
  }

  /** One `UpdateLayeredWindow` of the flash: the first one fully transparent, then one per tick. */
  datatype Update = Initial | Frame(elapsed: nat)

  class Flasher {
    const glow: Glow          // glow_pixel
    var hasWindow: bool       // g_hwnd != nullptr
    var timer: bool           // kTimerId is set
    var pixels: array?<Texel> // g_pixels
    var width: nat            // g_width
    var height: nat           // g_height
    var startTick: Tick       // g_startTick
    var updates: seq<Update>  // every UpdateLayeredWindow of the flash window

    /**
     * A flash in progress has its window, its timer and its buffer, which
     * holds the glow mask for the screen size it was made for; without a
     * window everything is released and the size is 0 x 0.
     */
    ghost predicate Valid()
      reads this, pixels
    {
      && (timer <==> hasWindow)
      && (pixels != null <==> hasWindow)
      && (pixels != null ==> Glowing(pixels[..], glow, width, height))
      && (!hasWindow ==> width == 0 && height == 0)
    }

    /** The state `cleanup` leaves: no window, no timer, no buffer, size 0 x 0. */
    predicate Cleaned()
      reads this
    {
      !hasWindow && !timer && pixels == null && width == 0 && height == 0
    }

    constructor (glow: Glow)
      ensures Valid() && Cleaned() && this.glow == glow && updates == []
    {
      this.glow := glow;
      hasWindow, timer, pixels, width, height := false, false, null, 0, 0;
      startTick := 0;
      updates := [];
    }

    /** `cleanup`: stop the timer, destroy the window, release the buffer. */
    method Cleanup()
      requires timer ==> hasWindow
      modifies this
      ensures Valid() && Cleaned()
      ensures startTick == old(startTick) && updates == old(updates)
    {
      if hasWindow {
        timer := false;
        hasWindow := false;
      }
      pixels := null;
      width := 0;
      height := 0;
    }

    /**
     * `flash`: a flash already running is cleaned up first, so it starts
     * over. A window the size of the sw x sh screen is created (`created`
     * says whether that worked) with its DIB section (`buffered` says
     * whether that worked); on either failure the flasher ends cleaned up.
     * Otherwise a new buffer gets the glow mask, the flash starts at `now`
     * fully transparent and the frame timer starts.
     */
    method Flash(now: Tick, sw: nat, sh: nat, created: bool, buffered: bool)
      requires Valid()
      modifies this
      ensures Valid()
      ensures !created || !buffered ==> Cleaned() && updates == old(updates) && startTick == old(startTick)
      ensures created && buffered ==>
        hasWindow && timer && pixels != null && fresh(pixels)
        && width == sw && height == sh && Glowing(pixels[..], glow, sw, sh)
        && startTick == now && updates == old(updates) + [Initial]
    {
      if hasWindow {
        Cleanup();
      }
      if !created {
        return;
      }
      hasWindow := true;
      if !buffered {
        Cleanup();
        return;
      }
      var buffer := new Texel[sw * sh];
      pixels := buffer;
      width, height := sw, sh;
      RenderGlow(buffer, glow, sw, sh);
      startTick := now;
      updates := updates + [Initial];
      timer := true;
    }

    /**
     * The flash timer (src/edge_flash.cpp:84-110): once 500 ms have gone
     * by the flash is cleaned up; before that one more frame is shown.
     */
    method TimerTick(now: Tick)
      requires Valid() && timer
      modifies this
      ensures Valid()
      ensures Elapsed(now, old(startTick)) >= DurationMs ==> Cleaned() && updates == old(updates)
      ensures Elapsed(now, old(startTick)) < DurationMs ==>
        hasWindow && pixels == old(pixels) && width == old(width) && height == old(height)
        && updates == old(updates) + [Frame(Elapsed(now, old(startTick)))]
      ensures startTick == old(startTick)
    {
      var elapsed := Elapsed(now, startTick);
      var t := elapsed as real / DurationMs as real;
      QuotientAtLeastOne(elapsed as real, DurationMs as real);
      if t >= 1.0 {
        Cleanup();
        return;
      }
      updates := updates + [Frame(elapsed)];
    }

    /** `shutdown`: whatever is on screen is cleaned up. */
    method Shutdown()
      requires Valid()
      modifies this
      ensures Valid() && Cleaned() && updates == old(updates)
    {
      Cleanup();
    }
  }
}
