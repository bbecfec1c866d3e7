/**
 * `compute_layout` of the window switcher (src/switcher.cpp:246-297):
 * chip texts, widths and x-offsets, the panel size, and where the panel is
 * placed relative to the status indicator.
 */
module ChipLayout {
  import opened Geometry
  import opened Labels

  const Gap := 6             // kGap: indicator to panel
  const ItemPaddingX := 10   // kItemPaddingX
  const ItemPaddingY := 4    // kItemPaddingY
  const ItemSpacing := 2     // kItemSpacing
  const PanelPaddingX := 4   // kPanelPaddingX
  const PanelPaddingY := 3   // kPanelPaddingY

  /** What GetTextExtentPoint32W reports for a string in the switcher font. */
  datatype Extent = Extent(cx: nat, cy: nat)

  /** The text measurement, an input of the model. */
  type Measure = string -> Extent

  /** One chip of the panel (src/switcher.cpp `ChipLayout`). */
  datatype Chip = Chip(text: string, x: int, width: nat)

  /** Everything `compute_layout` writes to the module's globals. */
  datatype Layout = Layout(chips: seq<Chip>, itemHeight: nat, panelW: nat, panelH: nat, pos: Point)

  /** Sum of the chip widths. */
  function SumWidths(chips: seq<Chip>): nat
  {
    if chips == [] then 0 else SumWidths(chips[..|chips| - 1]) + chips[|chips| - 1].width
  }

  /** The panel width for these chips: padding on both sides plus the gaps between chips. */
  function PanelWidth(chips: seq<Chip>): nat
  {
    2 * PanelPaddingX + SumWidths(chips) + (if chips == [] then 0 else ItemSpacing * (|chips| - 1))
  }

  /** The tallest measured height of the chip texts (0 with no chips). */
  function MaxTextHeight(chips: seq<Chip>, measure: Measure): (h: nat)
  {
    if chips == [] then 0
    else
      var h := MaxTextHeight(chips[..|chips| - 1], measure);
      var c := measure(chips[|chips| - 1].text).cy;
      if c > h then c else h
  }

  /** The height is the tallest text: it covers every chip's text and is one of them. */
  lemma {:induction false} MaxTextHeightIsMax(chips: seq<Chip>, measure: Measure)
    ensures forall i :: 0 <= i < |chips| ==> measure(chips[i].text).cy <= MaxTextHeight(chips, measure)
    ensures chips != [] ==> exists i :: 0 <= i < |chips| && measure(chips[i].text).cy == MaxTextHeight(chips, measure)
  {
    if chips != [] {
      var init := chips[..|chips| - 1];
      MaxTextHeightIsMax(init, measure);
      assert forall i :: 0 <= i < |init| ==> init[i] == chips[i];
      var last := |chips| - 1;
      if measure(chips[last].text).cy <= MaxTextHeight(init, measure) && init != [] {
        var i :| 0 <= i < |init| && measure(init[i].text).cy == MaxTextHeight(init, measure);
        assert measure(chips[i].text).cy == MaxTextHeight(chips, measure);
      } else {
        assert measure(chips[last].text).cy == MaxTextHeight(chips, measure);
      }
    }
  }

  /** The chips sit side by side: the first at the left padding, each next one after a gap. */
  predicate SideBySide(chips: seq<Chip>)
  {
    && (chips != [] ==> chips[0].x == PanelPaddingX)
    && forall i, j :: 0 <= i < |chips| && 0 <= j < |chips| && j == i + 1 ==> chips[j].x == chips[i].x + chips[i].width + ItemSpacing
  }

  /**
   * `(ind.top + ind.bottom) / 2` with C++ int division, which truncates
   * toward zero.
   */
  function HalfTowardZero(a: int): (h: int)
    ensures a >= 0 ==> 0 <= a - 2 * h <= 1
    ensures a < 0 ==> -1 <= a - 2 * h <= 0
  {
    if a >= 0 then a / 2 else -((-a) / 2)
  }

  /**
   * The panel's top-left corner (src/switcher.cpp:288-296): to the right of
   * the indicator and centred on it, or, when the indicator rectangle has
   * right == 0 and bottom == 0, near the bottom-left of the work area.
   */
  function PanelPosition(ind: Rect, work: Rect, panelH: nat): Point
  {
    if ind.right == 0 && ind.bottom == 0 then Point(work.left + 40, work.bottom - panelH - 8)
    else Point(ind.right + Gap, HalfTowardZero(ind.top + ind.bottom) - panelH / 2)
  }

  /** Without an indicator (its all-zero rectangle) the fallback corner is used. */
  lemma PositionWithoutIndicator(work: Rect, panelH: nat)
    ensures PanelPosition(ZeroRect, work, panelH) == Point(work.left + 40, work.bottom - panelH - 8)
  {
  }

  /**
   * Beside a shown indicator the panel starts 6 px right of it and its
   * vertical centre is the indicator's up to one pixel of rounding.
   */
  lemma PositionBesideIndicator(ind: Rect, work: Rect, panelH: nat)
    requires ind.right != 0 || ind.bottom != 0
    ensures PanelPosition(ind, work, panelH).x == ind.right + Gap
    ensures var p := PanelPosition(ind, work, panelH);
            -1 <= (2 * p.y + panelH) - (ind.top + ind.bottom) <= 2
  {
  }

  /**
   * The layout `compute_layout` gives these titles: one chip per title with
   * the truncated text and the measured width plus padding, side by side;
   * the panel as wide as the chips plus padding and as tall as the tallest
   * text plus padding; placed beside the indicator (or the work area).
   */
  predicate LayoutOf(l: Layout, titles: seq<string>, measure: Measure, ind: Rect, work: Rect)
  {
    && |l.chips| == |titles|
    && (forall i :: 0 <= i < |titles| ==> l.chips[i].text == Truncate(titles[i]))
    && (forall i :: 0 <= i < |titles| ==> l.chips[i].width == measure(Truncate(titles[i])).cx + 2 * ItemPaddingX)
    && SideBySide(l.chips)
    && l.panelW == PanelWidth(l.chips)
    && l.itemHeight == MaxTextHeight(l.chips, measure) + 2 * ItemPaddingY
    && l.panelH == l.itemHeight + 2 * PanelPaddingY
    && l.pos == PanelPosition(ind, work, l.panelH)
  }

  /**
   * `compute_layout`: every title is truncated before it is measured; each
   * chip is its text's width plus 2 x 10 px padding; the chips are laid out
   * left to right from x = 4 with 2 px between them; the panel is as wide as
   * the chips plus 4 px on each side and as tall as the tallest text plus
   * 2 x 4 px chip padding and 2 x 3 px panel padding.
   */
  method ComputeLayout(titles: seq<string>, measure: Measure, ind: Rect, work: Rect) returns (l: Layout)
    ensures LayoutOf(l, titles, measure, ind, work)
  {
    var chips, totalWidth, textHeight := MeasureChips(titles, measure);
    if chips != [] {
      totalWidth := totalWidth + ItemSpacing * (|chips| - 1);
    }
    var itemHeight := textHeight + ItemPaddingY * 2;
    var panelH := itemHeight + PanelPaddingY * 2;
    var panelW := totalWidth;
    ghost var measured := chips;
    chips := PlaceChips(chips);
    SumWidthsSameWidths(measured, chips);
    MaxTextHeightSameTexts(measured, chips, measure);
    l := Layout(chips, itemHeight, panelW, panelH, PanelPosition(ind, work, panelH));
  }

  /** The chip `compute_layout` measures for a title, before it is placed. */
  function MeasuredChip(title: string, measure: Measure): Chip
  {
    var text := Truncate(title);
    Chip(text, 0, measure(text).cx + 2 * ItemPaddingX)
  }

  /**
   * The measuring loop of `compute_layout` (src/switcher.cpp:252-267): one
   * chip per title, holding the truncated title and its padded width, the
   * running total width and the tallest text.
   */
  method MeasureChips(titles: seq<string>, measure: Measure) returns (chips: seq<Chip>, totalWidth: nat, textHeight: nat)
    ensures |chips| == |titles|
    ensures forall i :: 0 <= i < |titles| ==> chips[i] == MeasuredChip(titles[i], measure)
    ensures totalWidth == 2 * PanelPaddingX + SumWidths(chips)
    ensures textHeight == MaxTextHeight(chips, measure)
  {
    chips := [];
    totalWidth := PanelPaddingX * 2;
    textHeight := 0;
    for i := 0 to |titles|
      invariant |chips| == i
      invariant forall j :: 0 <= j < i ==> chips[j] == MeasuredChip(titles[j], measure)
      invariant totalWidth == PanelPaddingX * 2 + SumWidths(chips)
      invariant textHeight == MaxTextHeight(chips, measure)
    {
      var display := Truncate(titles[i]);
      var sz := measure(display);
      if sz.cy > textHeight {
        textHeight := sz.cy;
      }
      var itemW := sz.cx + ItemPaddingX * 2;
      totalWidth := totalWidth + itemW;
      var chip := Chip(display, 0, itemW);
      assert chip == MeasuredChip(titles[i], measure);
      SnocLemmas(chips, chip, measure);
      chips := chips + [chip];
    }
  }

  /**
   * The placing loop of `compute_layout` (src/switcher.cpp:281-285): x starts
   * at the left padding and advances by each chip's width plus the spacing;
   * texts and widths are kept.
   */
  method PlaceChips(measured: seq<Chip>) returns (chips: seq<Chip>)
    ensures |chips| == |measured|
    ensures forall j :: 0 <= j < |chips| ==> chips[j].text == measured[j].text && chips[j].width == measured[j].width
    ensures SideBySide(chips)
  {
    chips := measured;
    var x := PanelPaddingX;
    for i := 0 to |chips|
      invariant |chips| == |measured|
      invariant forall j :: 0 <= j < |chips| ==> chips[j].text == measured[j].text && chips[j].width == measured[j].width
      invariant i > 0 ==> x == chips[i - 1].x + chips[i - 1].width + ItemSpacing
      invariant i == 0 ==> x == PanelPaddingX
      invariant SideBySide(chips[..i])
    {
      chips := chips[i := Chip(chips[i].text, x, chips[i].width)];
      x := x + chips[i].width + ItemSpacing;
    }
    assert chips[..|chips|] == chips;
  }

  lemma {:induction false} SnocLemmas(chips: seq<Chip>, c: Chip, measure: Measure)
    ensures SumWidths(chips + [c]) == SumWidths(chips) + c.width
    ensures MaxTextHeight(chips + [c], measure) ==
            if measure(c.text).cy > MaxTextHeight(chips, measure) then measure(c.text).cy
            else MaxTextHeight(chips, measure)
  {
    var next := chips + [c];
    assert next[..|chips|] == chips;
  }

  /** Only the texts count for the height. */
  lemma {:induction false} MaxTextHeightSameTexts(a: seq<Chip>, b: seq<Chip>, measure: Measure)
    requires |a| == |b| && forall j :: 0 <= j < |a| ==> a[j].text == b[j].text
    ensures MaxTextHeight(a, measure) == MaxTextHeight(b, measure)
  {
    if a != [] {
      MaxTextHeightSameTexts(a[..|a| - 1], b[..|b| - 1], measure);
    }
  }

  /** The height of every chip covers its own text. */
  lemma ItemHeightCoversTexts(l: Layout, measure: Measure, i: nat)
    requires i < |l.chips| && l.itemHeight == MaxTextHeight(l.chips, measure) + 2 * ItemPaddingY
    ensures measure(l.chips[i].text).cy + 2 * ItemPaddingY <= l.itemHeight
  {
    MaxTextHeightIsMax(l.chips, measure);
  }

  /** Only the widths count in the sum. */
  lemma {:induction false} SumWidthsSameWidths(a: seq<Chip>, b: seq<Chip>)
    requires |a| == |b| && forall j :: 0 <= j < |a| ==> a[j].width == b[j].width
    ensures SumWidths(a) == SumWidths(b)
  {
    if a != [] {
      SumWidthsSameWidths(a[..|a| - 1], b[..|b| - 1]);
    }
  }

  /** The offset of chip i: left padding, the widths before it and one gap per chip before it. */
  lemma {:induction false} OffsetClosedForm(chips: seq<Chip>, i: nat)
    requires SideBySide(chips) && i < |chips|
    ensures chips[i].x == PanelPaddingX + SumWidths(chips[..i]) + ItemSpacing * i
  {
    if i > 0 {
      OffsetClosedForm(chips, i - 1);
      assert chips[..i][..i - 1] == chips[..i - 1];
    } else {
      assert chips[..0] == [];
    }
  }

  /** Chip offsets strictly increase: chips never overlap and keep list order. */
  lemma {:induction false} OffsetsIncrease(chips: seq<Chip>, i: nat, j: nat)
    requires SideBySide(chips) && i < j < |chips|
    ensures chips[i].x + chips[i].width + ItemSpacing <= chips[j].x
    decreases j - i
  {
    if j > i + 1 {
      OffsetsIncrease(chips, i, j - 1);
    }
  }

  /** The last chip ends exactly at the right padding of the panel. */
  lemma {:induction false} LastChipEnds(chips: seq<Chip>)
    requires SideBySide(chips) && chips != []
    ensures chips[|chips| - 1].x + chips[|chips| - 1].width + PanelPaddingX == PanelWidth(chips)
  {
    var n := |chips|;
    OffsetClosedForm(chips, n - 1);
    assert chips[..n - 1] + [chips[n - 1]] == chips;
  }

  /**
   * Every chip lies inside the panel with at least the panel padding on
   * each side; the last one ends exactly at the right padding.
   */
  lemma {:induction false} ChipsInsidePanel(chips: seq<Chip>, i: nat)
    requires SideBySide(chips) && i < |chips|
    ensures PanelPaddingX <= chips[i].x
    ensures chips[i].x + chips[i].width + PanelPaddingX <= PanelWidth(chips)
    ensures i == |chips| - 1 ==> chips[i].x + chips[i].width + PanelPaddingX == PanelWidth(chips)
  {
    OffsetClosedForm(chips, i);
    LastChipEnds(chips);
    if i < |chips| - 1 {
      OffsetsIncrease(chips, i, |chips| - 1);
    }
  }
}
