/**
 * One switcher frame (src/switcher.cpp:300-386): the background fill, its
 * alpha fix, then each chip in list order - skipped, faded in over the
 * saved background, or drawn opaque - according to its staggered reveal.
 * `Layered` is the specification, texel by texel, of the buffer after the
 * first i chips; `ComposeFrame` is the loop the source runs.
 */
module PanelFrame {
  import opened Texels
  import opened Geometry
  import opened ChipLayout
  import opened Animation
  import opened Compose

  const BgColor: Texel := Rgb(26, 26, 46)        // kBgColor
  const ChipColor: Texel := Rgb(42, 42, 64)      // kChipColor
  const SelectedColor: Texel := Rgb(0, 140, 180) // kSelectedColor

  /** The panel background once its alpha byte is fixed. */
  const OpaqueBg: Texel := WithOpaqueAlpha(BgColor)

  /**
   * What FillRect followed by DrawTextW leave at column cx, row cy of a chip
   * rectangle: given the chip text, the rectangle's width and height and the
   * fill colour. GDI's text rasterizer is not modelled; it is this parameter.
   */
  type Ink = (string, nat, nat, Texel, nat, nat) -> Texel

  /** The chip under the cursor gets the accent colour. */
  function FillColor(i: nat, cursor: int): Texel
  {
    if i == cursor then SelectedColor else ChipColor
  }

  /** The rectangle of chip c: `{c.x, 3, c.x + c.width, 3 + itemHeight}`. */
  function ChipArea(c: Chip, itemHeight: nat): Area
    requires c.x >= 0
  {
    Area(c.x, PanelPaddingY, c.width, itemHeight)
  }

  /** Column x, row y of the panel lies in the rectangle of chip c. */
  predicate InChip(x: nat, y: nat, c: Chip, itemHeight: nat)
  {
    c.x <= x < c.x + c.width && PanelPaddingY <= y < PanelPaddingY + itemHeight
  }

  /** The panel geometry a frame is drawn into. */
  predicate Panel(chips: seq<Chip>, itemHeight: nat, w: nat, h: nat)
  {
    SideBySide(chips) && w == PanelWidth(chips) && h == itemHeight + 2 * PanelPaddingY
  }

  lemma ChipFits(chips: seq<Chip>, itemHeight: nat, w: nat, h: nat, i: nat)
    requires Panel(chips, itemHeight, w, h) && i < |chips|
    ensures w > 0 && chips[i].x >= 0 && Fits(ChipArea(chips[i], itemHeight), w, h)
  {
    ChipsInsidePanel(chips, i);
  }

  /** A chip texel `drawn` over `under`, as the chip's treatment says. */
  function Treat(s: Reveal, under: Texel, drawn: Texel): Texel
  {
    match s
    case Hidden => under
    case Full => WithOpaqueAlpha(drawn)
    case Partial(p8) => BlendTexel(under, drawn, p8)
  }

  /**
   * The texel at column x, row y after chip i is drawn over `under`, the
   * texel before it: outside the chip or for a hidden chip it is `under`;
   * inside, the painted chip texel made opaque or blended with `under`.
   */
  function ChipOver(chips: seq<Chip>, itemHeight: nat, cursor: int, shown: seq<Reveal>, ink: Ink,
                    i: nat, under: Texel, x: nat, y: nat): Texel
    requires i < |chips| == |shown|
  {
    var c := chips[i];
    if InChip(x, y, c, itemHeight)
    then Treat(shown[i], under, ink(c.text, c.width, itemHeight, FillColor(i, cursor), x - c.x, y - PanelPaddingY))
    else under
  }

  /** The texel at column x, row y once the background and the first i chips are drawn. */
  function Layered(chips: seq<Chip>, itemHeight: nat, cursor: int, shown: seq<Reveal>, ink: Ink,
                   i: nat, x: nat, y: nat): Texel
    requires i <= |chips| == |shown|
  {
    if i == 0 then OpaqueBg
    else ChipOver(chips, itemHeight, cursor, shown, ink, i - 1,
                  Layered(chips, itemHeight, cursor, shown, ink, i - 1, x, y), x, y)
  }

  /** The frame at global progress g: every chip drawn as its reveal says. */
  function FrameTexel(chips: seq<Chip>, itemHeight: nat, cursor: int, g: real, ink: Ink, x: nat, y: nat): Texel
  {
    Layered(chips, itemHeight, cursor, Schedule(|chips|, g), ink, |chips|, x, y)
  }

  /**
   * `render_frame`'s drawing on the panel buffer: the whole buffer is
   * overwritten with the frame for global progress g.
   */
  method ComposeFrame(a: array<Texel>, chips: seq<Chip>, itemHeight: nat, w: nat, h: nat, cursor: int, g: real, ink: Ink)
    requires Panel(chips, itemHeight, w, h) && a.Length == w * h
    modifies a
    ensures w > 0
    ensures forall k :: 0 <= k < a.Length ==> a[k] == FrameTexel(chips, itemHeight, cursor, g, ink, Col(k, w), Row(k, w))
  {
    ghost var sched := Schedule(|chips|, g);
    forall k | 0 <= k < a.Length {
      a[k] := BgColor;
    }
    ForceOpaque(a);
    for i := 0 to |chips|
      invariant forall k :: 0 <= k < a.Length ==> a[k] == Layered(chips, itemHeight, cursor, sched, ink, i, Col(k, w), Row(k, w))
    {
      var shown := ChipReveal(i, |chips|, g);
      DrawChip(a, chips, itemHeight, w, h, cursor, sched, ink, i, shown);
    }
  }

  /** One pass of the chip loop: a hidden chip is skipped. */
  method DrawChip(a: array<Texel>, chips: seq<Chip>, itemHeight: nat, w: nat, h: nat, cursor: int,
                  ghost sched: seq<Reveal>, ink: Ink, i: nat, shown: Reveal)
    requires Panel(chips, itemHeight, w, h) && a.Length == w * h && i < |chips| == |sched| && shown == sched[i]
    requires forall k :: 0 <= k < a.Length ==> a[k] == Layered(chips, itemHeight, cursor, sched, ink, i, Col(k, w), Row(k, w))
    modifies a
    ensures forall k :: 0 <= k < a.Length ==> a[k] == Layered(chips, itemHeight, cursor, sched, ink, i + 1, Col(k, w), Row(k, w))
  {
    ChipFits(chips, itemHeight, w, h, i);
    if !shown.Hidden? {
      DrawShownChip(a, chips, itemHeight, w, h, cursor, sched, ink, i, shown);
    }
  }

  /** The pass for a chip drawn this frame: save, paint, then blend or make opaque. */
  method DrawShownChip(a: array<Texel>, chips: seq<Chip>, itemHeight: nat, w: nat, h: nat, cursor: int,
                       ghost sched: seq<Reveal>, ink: Ink, i: nat, shown: Reveal)
    requires Panel(chips, itemHeight, w, h) && a.Length == w * h && i < |chips| == |sched| && shown == sched[i]
    requires !shown.Hidden?
    requires forall k :: 0 <= k < a.Length ==> a[k] == Layered(chips, itemHeight, cursor, sched, ink, i, Col(k, w), Row(k, w))
    modifies a
    ensures forall k :: 0 <= k < a.Length ==> a[k] == Layered(chips, itemHeight, cursor, sched, ink, i + 1, Col(k, w), Row(k, w))
  {
    ChipFits(chips, itemHeight, w, h, i);
    var c := chips[i];
    var r := ChipArea(c, itemHeight);
    var fill := FillColor(i, cursor);
    ghost var before := a[..];
    RevealArea(a, w, h, r, shown, (cx: nat, cy: nat) => ink(c.text, c.width, itemHeight, fill, cx, cy));
    forall k | 0 <= k < a.Length
      ensures a[k] == Layered(chips, itemHeight, cursor, sched, ink, i + 1, Col(k, w), Row(k, w))
    {
      ChipPassTexel(chips, itemHeight, w, cursor, sched, ink, i, k, before[k], a[k]);
    }
  }

  /** What the chip pass does to texel k is what `Layered` says chip i does there. */
  lemma ChipPassTexel(chips: seq<Chip>, itemHeight: nat, w: nat, cursor: int, sched: seq<Reveal>, ink: Ink,
                      i: nat, k: nat, before: Texel, after: Texel)
    requires i < |chips| == |sched| && w > 0 && chips[i].x >= 0
    requires before == Layered(chips, itemHeight, cursor, sched, ink, i, Col(k, w), Row(k, w))
    requires var c := chips[i]; var r := ChipArea(c, itemHeight);
      after == if InArea(k, w, r)
               then Treat(sched[i], before, ink(c.text, c.width, itemHeight, FillColor(i, cursor), Col(k, w) - r.left, Row(k, w) - r.top))
               else before
    ensures after == Layered(chips, itemHeight, cursor, sched, ink, i + 1, Col(k, w), Row(k, w))
  {
  }

  /**
   * Drawing one chip into its rectangle: the background under it is saved,
   * the chip painted, then either made opaque or blended with the saved
   * background; outside the rectangle nothing changes.
   */
  method RevealArea(a: array<Texel>, w: nat, h: nat, r: Area, shown: Reveal, paint: (nat, nat) -> Texel)
    requires w > 0 && a.Length == w * h && Fits(r, w, h) && !shown.Hidden?
    modifies a
    ensures forall k :: 0 <= k < a.Length ==>
      a[k] == if InArea(k, w, r) then Treat(shown, old(a[k]), paint(Col(k, w) - r.left, Row(k, w) - r.top)) else old(a[k])
  {
    var saved := SaveArea(a, w, h, r);
    PaintArea(a, w, h, r, paint);
    if shown.Full? {
      OpaqueArea(a, w, h, r);
    } else {
      BlendArea(a, w, h, r, saved, shown.p8);
    }
  }

  /** Every texel of every frame is opaque. */
  lemma {:induction false} LayeredOpaque(chips: seq<Chip>, itemHeight: nat, cursor: int, shown: seq<Reveal>,
                                         ink: Ink, i: nat, x: nat, y: nat)
    requires i <= |chips| == |shown|
    ensures Layered(chips, itemHeight, cursor, shown, ink, i, x, y).a == 0xFF
  {
    if i > 0 {
      LayeredOpaque(chips, itemHeight, cursor, shown, ink, i - 1, x, y);
    }
  }

  /** No texel lies in two chips: their columns are disjoint. */
  lemma ChipsDisjoint(chips: seq<Chip>, itemHeight: nat, i: nat, j: nat, x: nat, y: nat)
    requires SideBySide(chips) && i < |chips| && j < |chips| && i != j
    requires InChip(x, y, chips[j], itemHeight)
    ensures !InChip(x, y, chips[i], itemHeight)
  {
    if i < j { OffsetsIncrease(chips, i, j); } else { OffsetsIncrease(chips, j, i); }
  }

  /** The chip texel at column x, row y of chip j's rectangle, painted with chip j's colour. */
  function Painted(chips: seq<Chip>, itemHeight: nat, cursor: int, ink: Ink, j: nat, x: nat, y: nat): Texel
    requires j < |chips| && InChip(x, y, chips[j], itemHeight)
  {
    var c := chips[j];
    ink(c.text, c.width, itemHeight, FillColor(j, cursor), x - c.x, y - PanelPaddingY)
  }

  /**
   * Chip order does not matter: a texel in chip j's rectangle shows chip j
   * over the background once chip j is drawn, and a texel in no chip shows
   * the background.
   */
  lemma {:induction false} LayeredOwner(chips: seq<Chip>, itemHeight: nat, cursor: int, shown: seq<Reveal>, ink: Ink,
                                        i: nat, x: nat, y: nat)
    requires SideBySide(chips) && i <= |chips| == |shown|
    ensures forall j :: 0 <= j < i && InChip(x, y, chips[j], itemHeight) ==>
      Layered(chips, itemHeight, cursor, shown, ink, i, x, y) == Treat(shown[j], OpaqueBg, Painted(chips, itemHeight, cursor, ink, j, x, y))
    ensures (forall j :: 0 <= j < i ==> !InChip(x, y, chips[j], itemHeight)) ==>
      Layered(chips, itemHeight, cursor, shown, ink, i, x, y) == OpaqueBg
  {
    if i > 0 {
      LayeredOwner(chips, itemHeight, cursor, shown, ink, i - 1, x, y);
      if InChip(x, y, chips[i - 1], itemHeight) {
        forall j | 0 <= j < i - 1
          ensures !InChip(x, y, chips[j], itemHeight)
        {
          ChipsDisjoint(chips, itemHeight, j, i - 1, x, y);
        }
      }
    }
  }

  /**
   * The frame once the intro is over (g = 1, as every later render):
   * every chip opaque in its own colour, the accent colour for the cursor's
   * chip, and the opaque background everywhere else.
   */
  lemma FrameAtRest(chips: seq<Chip>, itemHeight: nat, cursor: int, ink: Ink, x: nat, y: nat)
    requires SideBySide(chips)
    ensures forall j :: 0 <= j < |chips| && InChip(x, y, chips[j], itemHeight) ==>
      FrameTexel(chips, itemHeight, cursor, 1.0, ink, x, y) ==
      WithOpaqueAlpha(ink(chips[j].text, chips[j].width, itemHeight, if j == cursor then SelectedColor else ChipColor,
                          x - chips[j].x, y - PanelPaddingY))
    ensures (forall j :: 0 <= j < |chips| ==> !InChip(x, y, chips[j], itemHeight)) ==>
      FrameTexel(chips, itemHeight, cursor, 1.0, ink, x, y) == OpaqueBg
  {
    var n := |chips|;
    LayeredOwner(chips, itemHeight, cursor, Schedule(n, 1.0), ink, n, x, y);
    forall j | 0 <= j < n
      ensures Schedule(n, 1.0)[j] == Full
    {
      AllChipsShownAtEnd(j, n);
    }
  }

  /** The first intro frame (g <= 0) shows the background alone: no chip is drawn yet. */
  lemma FrameAtStart(chips: seq<Chip>, itemHeight: nat, cursor: int, g: real, ink: Ink, x: nat, y: nat)
    requires SideBySide(chips) && g <= 0.0
    ensures FrameTexel(chips, itemHeight, cursor, g, ink, x, y) == OpaqueBg
  {
    var n := |chips|;
    LayeredOwner(chips, itemHeight, cursor, Schedule(n, g), ink, n, x, y);
    forall j | 0 <= j < n
      ensures Schedule(n, g)[j] == Hidden
    {
      NoChipShownAtStart(j, n, g);
    }
  }

  /** A buffer holding the frame for progress g <= 0 is all background. */
  lemma FirstFrameBlank(a: array<Texel>, chips: seq<Chip>, itemHeight: nat, w: nat, cursor: int, g: real, ink: Ink)
    requires SideBySide(chips) && g <= 0.0 && w > 0
    requires forall k :: 0 <= k < a.Length ==> a[k] == FrameTexel(chips, itemHeight, cursor, g, ink, Col(k, w), Row(k, w))
    ensures forall k :: 0 <= k < a.Length ==> a[k] == OpaqueBg
  {
    forall k | 0 <= k < a.Length
      ensures a[k] == OpaqueBg
    {
      FrameAtStart(chips, itemHeight, cursor, g, ink, Col(k, w), Row(k, w));
    }
  }
}
